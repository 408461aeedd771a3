/**
 Assignability and join: the order with `Never` below everything, `Any` above every
 non-null type and one nullable layer at a time on top of that.
*/
module TypeRelations {
  import opened TypeGraph
  import opened TypeEquality
  import opened TypeSubstitution

  predicate IsNever(g: Graph, t: Ref) {
    t in g && g[t] == Builtin(NEVER)
  }

  predicate IsAny(g: Graph, t: Ref) {
    t in g && g[t] == Builtin(ANY)
  }

  /**
   `ty_assignable_inner`; `nominal` is what the language's hooks say of two types the
   kernel leaves undecided, and is false everywhere when there are no hooks.
  */
  ghost predicate Assignable(g: Graph, sub: Ref, super: Ref, nominal: (Ref, Ref) -> bool, depth: nat)
    requires WellFormed(g) && Points(g, sub) && Points(g, super)
    decreases RECURSION_LIMIT - depth
  {
    && sub != NULL && super != NULL && depth < RECURSION_LIMIT
    && (|| EqualDeep(g, sub, super)
        || IsNever(g, sub)
        || if g[super].Nullable? then
             InnerPoints(g, sub);
             InnerPoints(g, super);
             Assignable(g, if g[sub].Nullable? then g[sub].inner else sub, g[super].inner, nominal, depth + 1)
           else !g[sub].Nullable? && (IsAny(g, super) || nominal(sub, super)))
  }

  lemma InnerPoints(g: Graph, t: Ref)
    requires WellFormed(g) && t in g
    ensures g[t].Nullable? ==> Points(g, g[t].inner)
  {
    assert InGraph(g, g[t]);
    if g[t].Nullable? { assert g[t].inner in Arms(g[t]); }
  }

  /** `kavak_ty_unwrap_nullable`, with `guard` steps left. */
  function Unwrap(g: Graph, t: Ref, guard: nat): Ref
    decreases guard
  {
    if guard == 0 || t !in g || !g[t].Nullable? then t else Unwrap(g, g[t].inner, guard - 1)
  }

  function Layers(g: Graph, t: Ref, guard: nat): nat
    decreases guard
  {
    if guard == 0 || t !in g || !g[t].Nullable? then 0 else 1 + Layers(g, g[t].inner, guard - 1)
  }

  /** The type under all nullable layers, and the number of layers. */
  function Core(g: Graph, t: Ref): Ref {
    Unwrap(g, t, RECURSION_LIMIT)
  }

  function LayerCount(g: Graph, t: Ref): nat {
    Layers(g, t, RECURSION_LIMIT)
  }

  lemma FiniteInner(g: Graph, t: Ref, n: nat)
    requires Finite(g, t, n) && g[t].Nullable?
    ensures n > 0 && Finite(g, g[t].inner, n - 1)
  {
    assert g[t].inner in Arms(g[t]);
  }

  /** Within the bound unwrapping reaches a type that is not nullable, whatever the guard. */
  lemma {:induction false} UnwrapFinite(g: Graph, t: Ref, n: nat, guard: nat, guard': nat)
    requires Finite(g, t, n) && n <= guard && n <= guard'
    ensures Layers(g, t, guard) < n
    ensures Finite(g, Unwrap(g, t, guard), n - Layers(g, t, guard)) && !g[Unwrap(g, t, guard)].Nullable?
    ensures Unwrap(g, t, guard) == Unwrap(g, t, guard') && Layers(g, t, guard) == Layers(g, t, guard')
    decreases n
  {
    if g[t].Nullable? {
      FiniteInner(g, t, n);
      UnwrapFinite(g, g[t].inner, n - 1, guard - 1, guard' - 1);
    }
  }

  /** A nullable type has one layer more than its inner type, and the same core. */
  lemma LayerStep(g: Graph, t: Ref, n: nat)
    requires Finite(g, t, n) && n <= RECURSION_LIMIT && g[t].Nullable?
    ensures n > 1 && Finite(g, g[t].inner, n - 1)
    ensures Core(g, t) == Core(g, g[t].inner) && LayerCount(g, t) == 1 + LayerCount(g, g[t].inner)
  {
    FiniteInner(g, t, n);
    UnwrapFinite(g, g[t].inner, n - 1, RECURSION_LIMIT - 1, RECURSION_LIMIT);
  }

  /** The order on types without nullable layers. */
  ghost predicate CoreBelow(g: Graph, a: Ref, b: Ref, nominal: (Ref, Ref) -> bool) {
    SameTree(g, a, b) || IsNever(g, a) || IsAny(g, b) || nominal(a, b)
  }

  lemma SameTreeNullable(g: Graph, a: Ref, b: Ref)
    requires a in g && b in g && g[a].Nullable? && g[b].Nullable?
    ensures SameTree(g, a, b) <==> SameTree(g, g[a].inner, g[b].inner)
  {
    if SameTree(g, a, b) {
      SameTreeParts(g, a, b);
      assert Arms(g[a])[0] == g[a].inner && Arms(g[b])[0] == g[b].inner;
    }
    if SameTree(g, g[a].inner, g[b].inner) {
      forall n: nat ensures Unroll(g, a, n) == Unroll(g, b, n) {
        if n > 0 {
          assert Unroll(g, g[a].inner, n - 1) == Unroll(g, g[b].inner, n - 1);
          UnrollJoin(g, a, b, n);
        }
      }
    }
  }

  lemma SameTreeKinds(g: Graph, a: Ref, b: Ref)
    requires a in g && b in g && SameTree(g, a, b)
    ensures SameKind(g[a], g[b])
  {
    SameTreeParts(g, a, b);
    HeadFixesArity(a, g[a], b, g[b]);
  }

  /** Equal trees are equally many layers over equal cores. */
  lemma {:induction false} SameTreeLayers(g: Graph, a: Ref, b: Ref, n: nat)
    requires Finite(g, a, n) && Finite(g, b, n) && n <= RECURSION_LIMIT
    ensures SameTree(g, a, b) <==> LayerCount(g, a) == LayerCount(g, b) && SameTree(g, Core(g, a), Core(g, b))
    decreases n
  {
    hide SameTree;
    if g[a].Nullable? && g[b].Nullable? {
      SameTreeNullable(g, a, b);
      LayerStep(g, a, n);
      LayerStep(g, b, n);
      SameTreeLayers(g, g[a].inner, g[b].inner, n - 1);
    } else if g[a].Nullable? || g[b].Nullable? {
      if SameTree(g, a, b) { SameTreeKinds(g, a, b); }
      if g[a].Nullable? { LayerStep(g, a, n); }
      if g[b].Nullable? { LayerStep(g, b, n); }
    } else {
    }
  }

  /** Assignability is the product of the order on layer counts and the order on cores. */
  lemma {:induction false} AssignableByLayers(g: Graph, sub: Ref, super: Ref, nominal: (Ref, Ref) -> bool, depth: nat,
                                              n: nat)
    requires WellFormed(g) && Finite(g, sub, RECURSION_LIMIT) && Finite(g, super, n)
    requires depth + n <= RECURSION_LIMIT
    ensures Assignable(g, sub, super, nominal, depth) <==>
              LayerCount(g, sub) <= LayerCount(g, super) && CoreBelow(g, Core(g, sub), Core(g, super), nominal)
    decreases n
  {
    hide SameTree, EqualDeep, CoreBelow;
    EqualDeepFinite(g, sub, super, RECURSION_LIMIT);
    FiniteWeaken(g, super, n, RECURSION_LIMIT);
    SameTreeLayers(g, sub, super, RECURSION_LIMIT);
    CoreBelowCases(g, Core(g, sub), Core(g, super), nominal);
    if g[sub].Nullable? {
      LayerStep(g, sub, RECURSION_LIMIT);
    } else {
    }
    if g[super].Nullable? {
      LayerStep(g, super, n);
      InnerPoints(g, sub);
      var sub' := if g[sub].Nullable? then g[sub].inner else sub;
      if g[sub].Nullable? { FiniteWeaken(g, sub', RECURSION_LIMIT - 1, RECURSION_LIMIT); }
      AssignableByLayers(g, sub', g[super].inner, nominal, depth + 1, n - 1);
    } else {
    }
  }

  lemma CoreBelowCases(g: Graph, a: Ref, b: Ref, nominal: (Ref, Ref) -> bool)
    ensures CoreBelow(g, a, b, nominal) <==> SameTree(g, a, b) || IsNever(g, a) || IsAny(g, b) || nominal(a, b)
  {
  }

  // ----- without hooks: a partial order

  ghost predicate NoHooks(nominal: (Ref, Ref) -> bool) {
    forall a, b :: !nominal(a, b)
  }

  lemma SameTreeBuiltins(g: Graph, a: Ref, b: Ref)
    requires SameTree(g, a, b)
    ensures (IsNever(g, a) <==> IsNever(g, b)) && (IsAny(g, a) <==> IsAny(g, b))
  {
    SameTreeInGraph(g, a, b);
    if a in g { SameTreeKinds(g, a, b); }
  }

  lemma SameTreeTrans(g: Graph, a: Ref, b: Ref, c: Ref)
    requires SameTree(g, a, b)
    ensures SameTree(g, b, a)
    ensures SameTree(g, b, c) ==> SameTree(g, a, c)
  {
  }

  lemma CoreBelowOrder(g: Graph, a: Ref, b: Ref, c: Ref, nominal: (Ref, Ref) -> bool)
    requires NoHooks(nominal)
    ensures CoreBelow(g, a, a, nominal)
    ensures CoreBelow(g, a, b, nominal) && CoreBelow(g, b, c, nominal) ==> CoreBelow(g, a, c, nominal)
    ensures CoreBelow(g, a, b, nominal) && CoreBelow(g, b, a, nominal) ==> SameTree(g, a, b)
  {
    if SameTree(g, a, b) { SameTreeTrans(g, a, b, c); SameTreeBuiltins(g, a, b); }
    if SameTree(g, b, c) { SameTreeBuiltins(g, b, c); }
    if SameTree(g, b, a) { SameTreeTrans(g, b, a, a); }
    if IsNever(g, a) && IsNever(g, b) { SameBuiltins(g, a, b); }
    if IsAny(g, a) && IsAny(g, b) { SameBuiltins(g, a, b); }
  }

  lemma SameBuiltins(g: Graph, a: Ref, b: Ref)
    requires a in g && b in g && g[a].Builtin? && g[a] == g[b]
    ensures SameTree(g, a, b)
  {
    forall n: nat ensures Unroll(g, a, n) == Unroll(g, b, n) {
      if n > 0 { UnrollJoin(g, a, b, n); }
    }
  }

  /** Without hooks assignability is a partial order, up to equality of trees, nested nullables included. */
  lemma AssignableOrder(g: Graph, a: Ref, b: Ref, c: Ref, nominal: (Ref, Ref) -> bool)
    requires WellFormed(g) && NoHooks(nominal)
    requires Finite(g, a, RECURSION_LIMIT) && Finite(g, b, RECURSION_LIMIT) && Finite(g, c, RECURSION_LIMIT)
    ensures Assignable(g, a, a, nominal, 0)
    ensures Assignable(g, a, b, nominal, 0) && Assignable(g, b, c, nominal, 0) ==> Assignable(g, a, c, nominal, 0)
    ensures Assignable(g, a, b, nominal, 0) && Assignable(g, b, a, nominal, 0) ==> SameTree(g, a, b)
  {
    hide SameTree, CoreBelow, NoHooks, Assignable;
    AssignableByLayers(g, a, a, nominal, 0, RECURSION_LIMIT);
    AssignableByLayers(g, a, b, nominal, 0, RECURSION_LIMIT);
    AssignableByLayers(g, b, c, nominal, 0, RECURSION_LIMIT);
    AssignableByLayers(g, a, c, nominal, 0, RECURSION_LIMIT);
    AssignableByLayers(g, b, a, nominal, 0, RECURSION_LIMIT);
    CoreBelowOrder(g, Core(g, a), Core(g, b), Core(g, c), nominal);
    SameTreeLayers(g, a, b, RECURSION_LIMIT);
  }

  /** Nullable nodes from `t` on, each the inner type of the one before. */
  predicate IsTower(g: Graph, path: seq<Ref>) {
    forall i :: 0 < i < |path| ==> IsLayerOver(g, path[i - 1], path[i])
  }

  predicate IsLayerOver(g: Graph, t: Ref, inner: Ref) {
    t in g && g[t].Nullable? && g[t].inner == inner
  }

  lemma {:induction false} UnwrapHasTower(g: Graph, t: Ref, guard: nat) returns (path: seq<Ref>)
    ensures IsTower(g, path) && path != [] && path[0] == t && path[|path| - 1] == Unwrap(g, t, guard)
    ensures |path| == Layers(g, t, guard) + 1 <= guard + 1
    ensures |path| <= guard ==> Unwrap(g, t, guard) in g ==> !g[Unwrap(g, t, guard)].Nullable?
    decreases guard
  {
    if guard == 0 || t !in g || !g[t].Nullable? {
      path := [t];
    } else {
      var rest := UnwrapHasTower(g, g[t].inner, guard - 1);
      path := [t] + rest;
      assert IsLayerOver(g, path[0], path[1]);
      forall i | 1 < i < |path| ensures IsLayerOver(g, path[i - 1], path[i]) {
        assert IsLayerOver(g, rest[i - 2], rest[i - 1]);
      }
    }
  }

  /** The core lies under at most 512 nullable layers, and under fewer it is not nullable itself. */
  lemma CoreIsUnderLayers(g: Graph, t: Ref) returns (path: seq<Ref>)
    ensures IsTower(g, path) && path != [] && path[0] == t && path[|path| - 1] == Core(g, t)
    ensures |path| == LayerCount(g, t) + 1 <= 513
    ensures |path| <= 512 && Core(g, t) in g ==> !g[Core(g, t)].Nullable?
  {
    path := UnwrapHasTower(g, t, RECURSION_LIMIT);
  }

  // ----- join

  /** `ty_join_cores` without hooks; `any` is the arena's `Any` node. */
  ghost function JoinCores(g: Graph, a: Ref, b: Ref, any: Ref): Ref
    requires WellFormed(g) && a in g && b in g
  {
    if IsNever(g, a) then b
    else if IsNever(g, b) then a
    else if EqualDeep(g, a, b) then a
    else any
  }

  /** `r` of `h` is what joining `a` and `b` of `g` gives. */
  ghost predicate Joined(g: Graph, h: Graph, a: Ref, b: Ref, any: Ref, r: Ref)
    requires WellFormed(g) && a in g && b in g && Core(g, a) in g && Core(g, b) in g
  {
    var core := JoinCores(g, Core(g, a), Core(g, b), any);
    if (g[a].Nullable? || g[b].Nullable?) && !(core in g && g[core].Nullable?)
    then r in h && h[r] == Nullable(core)
    else r == core
  }

  /** `Joined`, and the answers for operands that are null or unwrap to null. */
  ghost predicate JoinOutcome(g: Graph, h: Graph, a: Ref, b: Ref, any: Ref, r: Ref)
    requires WellFormed(g)
  {
    if a == NULL then r == b
    else if b == NULL then r == a
    else if Core(g, a) == NULL then r == b
    else if Core(g, b) == NULL then r == a
    else a in g && b in g && Core(g, a) in g && Core(g, b) in g && Joined(g, h, a, b, any, r)
  }

  /** A null operand, or one that unwraps to null, leaves the other as it is. */
  lemma NullIsNeutral(g: Graph, h: Graph, a: Ref, b: Ref, any: Ref, r: Ref)
    requires WellFormed(g) && JoinOutcome(g, h, a, b, any, r)
    ensures a == NULL ==> r == b
    ensures b == NULL ==> r == a
    ensures a != NULL && b != NULL && Core(g, a) == NULL ==> r == b
    ensures a != NULL && b != NULL && Core(g, a) != NULL && Core(g, b) == NULL ==> r == a
  {
  }

  method UnwrapNullable(g: Graph, t: Ref) returns (r: Ref)
    requires WellFormed(g) && Points(g, t)
    ensures Points(g, r) && r == Core(g, t)
  {
    r := t;
    var guard := 0;
    while r != NULL && g[r].Nullable? && guard < RECURSION_LIMIT
      invariant guard <= RECURSION_LIMIT && Points(g, r)
      invariant Core(g, t) == Unwrap(g, r, RECURSION_LIMIT - guard)
      decreases RECURSION_LIMIT - guard
    {
      InnerPoints(g, r);
      guard := guard + 1;
      r := g[r].inner;
    }
  }

  /** `kavak_ty_join` without hooks. */
  method Join(arena: TypeArena, a: Ref, b: Ref, any: Ref) returns (r: Ref)
    requires arena.Valid() && Points(arena.nodes, a) && Points(arena.nodes, b) && IsAny(arena.nodes, any)
    modifies arena
    ensures arena.Valid() && Grows(old(arena.nodes), arena.nodes) && Points(arena.nodes, r)
    ensures JoinOutcome(old(arena.nodes), arena.nodes, a, b, any, r)
  {
    if a == NULL { return b; }
    if b == NULL { return a; }
    var g := arena.nodes;
    var nullable := g[a].Nullable? || g[b].Nullable?;
    var ca := UnwrapNullable(g, a);
    var cb := UnwrapNullable(g, b);
    if ca == NULL { return b; }
    if cb == NULL { return a; }
    var core := JoinUnwrapped(g, ca, cb, any);
    r := core;
    if nullable && !g[core].Nullable? {
      r := arena.Alloc(Nullable(core));
    }
  }

  method JoinUnwrapped(g: Graph, a: Ref, b: Ref, any: Ref) returns (r: Ref)
    requires WellFormed(g) && a in g && b in g && IsAny(g, any)
    ensures r in g && r == JoinCores(g, a, b, any)
  {
    if g[a] == Builtin(NEVER) { return b; }
    if g[b] == Builtin(NEVER) { return a; }
    var equal := EqualDeepWalk(g, a, b);
    r := if equal then a else any;
  }

  // ----- join is the least upper bound, exactly when no operand has two nullable layers

  /** What every lemma on joins starts from: operands of at most `n` levels leave room for one more. */
  ghost predicate JoinReady(g: Graph, a: Ref, b: Ref, any: Ref, n: nat) {
    && WellFormed(g) && IsAny(g, any)
    && Finite(g, a, n) && Finite(g, b, n) && n < RECURSION_LIMIT
  }

  lemma CoreReady(g: Graph, a: Ref, n: nat)
    requires Finite(g, a, n) && n < RECURSION_LIMIT
    ensures Finite(g, a, RECURSION_LIMIT)
    ensures Finite(g, Core(g, a), n) && !g[Core(g, a)].Nullable?
    ensures Finite(g, Core(g, a), RECURSION_LIMIT)
    ensures g[a].Nullable? <==> LayerCount(g, a) > 0
    ensures Core(g, Core(g, a)) == Core(g, a) && LayerCount(g, Core(g, a)) == 0
  {
    FiniteWeaken(g, a, n, RECURSION_LIMIT);
    UnwrapFinite(g, a, n, RECURSION_LIMIT, RECURSION_LIMIT);
    FiniteWeaken(g, Core(g, a), n - LayerCount(g, a), n);
    FiniteWeaken(g, Core(g, a), n, RECURSION_LIMIT);
  }

  /** The join of two cores is one of them or `Any`. */
  lemma JoinCoresFinite(g: Graph, a: Ref, b: Ref, any: Ref, n: nat)
    requires JoinReady(g, a, b, any, n)
    ensures Core(g, a) in g && Core(g, b) in g
    ensures var c := JoinCores(g, Core(g, a), Core(g, b), any);
            Finite(g, c, n) && !g[c].Nullable?
  {
    CoreReady(g, a, n);
    CoreReady(g, b, n);
  }

  /** A joined type has the joined core, under one nullable layer if either operand had any. */
  lemma JoinedShape(g: Graph, a: Ref, b: Ref, any: Ref, r: Ref, n: nat)
    requires JoinReady(g, a, b, any, n)
    requires Core(g, a) in g && Core(g, b) in g && Joined(g, g, a, b, any, r)
    ensures Finite(g, r, n + 1) && Finite(g, r, RECURSION_LIMIT)
    ensures Core(g, r) == JoinCores(g, Core(g, a), Core(g, b), any)
    ensures LayerCount(g, r) == if LayerCount(g, a) > 0 || LayerCount(g, b) > 0 then 1 else 0
  {
    CoreReady(g, a, n);
    CoreReady(g, b, n);
    JoinCoresFinite(g, a, b, any, n);
    var core := JoinCores(g, Core(g, a), Core(g, b), any);
    FiniteWeaken(g, core, n, n + 1);
    if r != core {
      assert Arms(g[r]) == [core];
      LayerStep(g, r, n + 1);
    }
    FiniteWeaken(g, r, n + 1, RECURSION_LIMIT);
  }

  /** The joined core is the least upper bound of the two cores. */
  lemma JoinCoresLeast(g: Graph, a: Ref, b: Ref, any: Ref, c: Ref, nominal: (Ref, Ref) -> bool)
    requires WellFormed(g) && IsAny(g, any) && NoHooks(nominal)
    requires a in g && b in g && Finite(g, a, RECURSION_LIMIT)
    ensures var j := JoinCores(g, a, b, any);
            && CoreBelow(g, a, j, nominal) && CoreBelow(g, b, j, nominal)
            && (CoreBelow(g, a, c, nominal) && CoreBelow(g, b, c, nominal) ==> CoreBelow(g, j, c, nominal))
  {
    hide SameTree, EqualDeep;
    EqualDeepFinite(g, a, b, RECURSION_LIMIT);
    CoreBelowOrder(g, a, a, a, nominal);
    CoreBelowOrder(g, b, b, b, nominal);
    if SameTree(g, a, b) { SameTreeTrans(g, a, b, c); }
    if SameTree(g, a, c) && SameTree(g, b, c) {
      SameTreeTrans(g, b, c, a);
      SameTreeTrans(g, a, c, b);
    }
  }

  /** Both operands are assignable to the join exactly when neither has two nullable layers. */
  lemma JoinIsUpperBound(g: Graph, a: Ref, b: Ref, any: Ref, r: Ref, n: nat, nominal: (Ref, Ref) -> bool)
    requires JoinReady(g, a, b, any, n) && NoHooks(nominal)
    requires Core(g, a) in g && Core(g, b) in g && Joined(g, g, a, b, any, r)
    ensures Assignable(g, a, r, nominal, 0) && Assignable(g, b, r, nominal, 0) <==>
              LayerCount(g, a) <= 1 && LayerCount(g, b) <= 1
  {
    hide CoreBelow, Joined, JoinCores, Assignable, NoHooks;
    CoreReady(g, a, n);
    CoreReady(g, b, n);
    JoinedShape(g, a, b, any, r, n);
    JoinCoresLeast(g, Core(g, a), Core(g, b), any, any, nominal);
    AssignableByLayers(g, a, r, nominal, 0, RECURSION_LIMIT);
    AssignableByLayers(g, b, r, nominal, 0, RECURSION_LIMIT);
  }

  /** `Any`, a builtin type, and one and two nullable layers over it. */
  const LAYERED: Graph := map[1 := Builtin(3), 2 := Builtin(8), 3 := Nullable(2), 4 := Nullable(3)]

  lemma LayeredShape()
    ensures WellFormed(LAYERED) && IsAny(LAYERED, 1) && Finite(LAYERED, 4, 3)
    ensures Core(LAYERED, 4) == 2 && LayerCount(LAYERED, 4) == 2
    ensures Points(LAYERED, 4) && Points(LAYERED, 3)
  {
    var g := LAYERED;
    assert Finite(g, 2, 1) && Arms(g[3]) == [2] && Arms(g[4]) == [3];
    assert Finite(g, 3, 2);
    assert Unwrap(g, 3, 511) == Unwrap(g, 2, 510) == 2;
    assert Layers(g, 3, 511) == 1 + Layers(g, 2, 510) == 1;
  }

  /** The join of two layers with themselves is one layer, which they are not assignable to. */
  lemma TwoLayersAboveTheirJoin(nominal: (Ref, Ref) -> bool)
    requires NoHooks(nominal)
    ensures WellFormed(LAYERED) && 4 in LAYERED && 3 in LAYERED && Core(LAYERED, 4) in LAYERED
    ensures Joined(LAYERED, LAYERED, 4, 4, 1, 3) && !Assignable(LAYERED, 4, 3, nominal, 0)
  {
    LayeredShape();
    hide Core, LayerCount, Finite, Assignable, NoHooks, WellFormed;
    assert JoinCores(LAYERED, 2, 2, 1) == 2;
    JoinIsUpperBound(LAYERED, 4, 4, 1, 3, 3, nominal);
  }

  /** And the join is assignable to every type both operands are assignable to. */
  lemma JoinIsLeast(g: Graph, a: Ref, b: Ref, any: Ref, r: Ref, c: Ref, n: nat, nominal: (Ref, Ref) -> bool)
    requires JoinReady(g, a, b, any, n) && NoHooks(nominal) && Finite(g, c, RECURSION_LIMIT)
    requires Core(g, a) in g && Core(g, b) in g && Joined(g, g, a, b, any, r)
    requires Assignable(g, a, c, nominal, 0) && Assignable(g, b, c, nominal, 0)
    ensures Assignable(g, r, c, nominal, 0)
  {
    hide CoreBelow, Joined, JoinCores, Assignable, NoHooks;
    CoreReady(g, a, n);
    CoreReady(g, b, n);
    JoinedShape(g, a, b, any, r, n);
    JoinCoresLeast(g, Core(g, a), Core(g, b), any, Core(g, c), nominal);
    AssignableByLayers(g, a, c, nominal, 0, RECURSION_LIMIT);
    AssignableByLayers(g, b, c, nominal, 0, RECURSION_LIMIT);
    AssignableByLayers(g, r, c, nominal, 0, RECURSION_LIMIT);
  }

  lemma JoinCoresCommute(g: Graph, a: Ref, b: Ref, any: Ref)
    requires WellFormed(g) && a in g && b in g && any in g
    requires Finite(g, a, RECURSION_LIMIT) && Finite(g, b, RECURSION_LIMIT)
    ensures SameTree(g, JoinCores(g, a, b, any), JoinCores(g, b, a, any))
  {
    EqualDeepFinite(g, a, b, RECURSION_LIMIT);
    EqualDeepFinite(g, b, a, RECURSION_LIMIT);
    if IsNever(g, a) && IsNever(g, b) { SameBuiltins(g, a, b); }
  }

  lemma JoinCoresAssociate(g: Graph, a: Ref, b: Ref, c: Ref, any: Ref)
    requires WellFormed(g) && IsAny(g, any)
    requires Finite(g, a, RECURSION_LIMIT) && Finite(g, b, RECURSION_LIMIT) && Finite(g, c, RECURSION_LIMIT)
    ensures JoinCores(g, a, b, any) in g && JoinCores(g, b, c, any) in g
    ensures SameTree(g, JoinCores(g, JoinCores(g, a, b, any), c, any), JoinCores(g, a, JoinCores(g, b, c, any), any))
  {
    hide SameTree, EqualDeep;
    forall x, y | x in {a, b, c, any} && y in {a, b, c, any}
      ensures EqualDeep(g, x, y) <==> SameTree(g, x, y)
      ensures SameTree(g, x, y) ==> SameTree(g, y, x) && forall z :: SameTree(g, y, z) ==> SameTree(g, x, z)
      ensures SameTree(g, x, x)
      ensures SameTree(g, x, y) ==> (IsNever(g, x) <==> IsNever(g, y)) && (IsAny(g, x) <==> IsAny(g, y))
      ensures IsAny(g, x) && IsAny(g, y) ==> SameTree(g, x, y)
    {
      EqualDeepFinite(g, x, y, RECURSION_LIMIT);
      SameTreeReflexive(g, x);
      if SameTree(g, x, y) {
        SameTreeBuiltins(g, x, y);
        forall z ensures SameTree(g, y, z) ==> SameTree(g, x, z) { SameTreeTrans(g, x, y, z); }
        SameTreeTrans(g, x, y, x);
      }
      if IsAny(g, x) && IsAny(g, y) { SameBuiltins(g, x, y); }
    }
  }

  lemma SameTreeReflexive(g: Graph, a: Ref)
    ensures SameTree(g, a, a)
  {
  }

  /** Join is commutative, up to equality of trees. */
  lemma JoinCommutes(g: Graph, a: Ref, b: Ref, any: Ref, r: Ref, r': Ref, n: nat)
    requires JoinReady(g, a, b, any, n) && Core(g, a) in g && Core(g, b) in g
    requires Joined(g, g, a, b, any, r) && Joined(g, g, b, a, any, r')
    ensures SameTree(g, r, r')
  {
    hide SameTree, Joined, JoinCores;
    CoreReady(g, a, n);
    CoreReady(g, b, n);
    JoinedShape(g, a, b, any, r, n);
    JoinedShape(g, b, a, any, r', n);
    JoinCoresCommute(g, Core(g, a), Core(g, b), any);
    SameTreeLayers(g, r, r', RECURSION_LIMIT);
  }

  /** And associative; both hold however many nullable layers the operands have. */
  lemma JoinAssociates(g: Graph, a: Ref, b: Ref, c: Ref, any: Ref, ab: Ref, l: Ref, bc: Ref, r: Ref, n: nat)
    requires JoinReady(g, a, b, any, n) && JoinReady(g, b, c, any, n) && n + 1 < RECURSION_LIMIT
    requires Core(g, a) in g && Core(g, b) in g && Core(g, c) in g
    requires Joined(g, g, a, b, any, ab) && Joined(g, g, b, c, any, bc)
    requires Core(g, ab) in g && ab in g && Joined(g, g, ab, c, any, l)
    requires Core(g, bc) in g && bc in g && Joined(g, g, a, bc, any, r)
    ensures SameTree(g, l, r)
  {
    hide SameTree, Joined, JoinCores;
    CoreReady(g, a, n);
    CoreReady(g, b, n);
    CoreReady(g, c, n);
    FiniteWeaken(g, a, n, n + 1);
    FiniteWeaken(g, c, n, n + 1);
    JoinedShape(g, a, b, any, ab, n);
    JoinedShape(g, b, c, any, bc, n);
    JoinedShape(g, ab, c, any, l, n + 1);
    JoinedShape(g, a, bc, any, r, n + 1);
    JoinCoresAssociate(g, Core(g, a), Core(g, b), Core(g, c), any);
    SameTreeLayers(g, l, r, RECURSION_LIMIT);
  }

  lemma {:induction false} CoreGrows(g: Graph, h: Graph, t: Ref, guard: nat)
    requires Grows(g, h) && t in g
    ensures Unwrap(h, t, guard) == Unwrap(g, t, guard) && Layers(h, t, guard) == Layers(g, t, guard)
    decreases guard
  {
    if guard > 0 && g[t].Nullable? {
      InnerPoints(g, t);
      if g[t].inner != NULL { CoreGrows(g, h, g[t].inner, guard - 1); }
    }
  }

  lemma EqualDeepGrows(g: Graph, h: Graph, a: Ref, b: Ref, n: nat)
    requires Grows(g, h) && Finite(g, a, n) && Finite(g, b, n) && n <= RECURSION_LIMIT
    ensures EqualDeep(g, a, b) <==> EqualDeep(h, a, b)
  {
    FiniteGrows(g, h, a, n);
    EqualDeepFinite(g, a, b, n);
    EqualDeepFinite(h, a, b, n);
    forall k: nat ensures Unroll(g, a, k) == Unroll(h, a, k) && Unroll(g, b, k) == Unroll(h, b, k) {
      UnrollExtends(g, h, a, k);
      UnrollExtends(g, h, b, k);
    }
  }

  /** What the join left in the arena is a join there too, so the lemmas above apply to it. */
  lemma JoinedGrows(g: Graph, h: Graph, a: Ref, b: Ref, any: Ref, r: Ref, n: nat)
    requires Grows(g, h) && JoinReady(g, a, b, any, n) && Core(g, a) in g && Core(g, b) in g
    requires Joined(g, h, a, b, any, r)
    ensures JoinReady(h, a, b, any, n) && Core(h, a) in h && Core(h, b) in h && Joined(h, h, a, b, any, r)
  {
    hide EqualDeep;
    CoreReady(g, a, n);
    CoreReady(g, b, n);
    CoreGrows(g, h, a, RECURSION_LIMIT);
    CoreGrows(g, h, b, RECURSION_LIMIT);
    EqualDeepGrows(g, h, Core(g, a), Core(g, b), n);
    FiniteGrows(g, h, a, n);
    FiniteGrows(g, h, b, n);
  }
}
