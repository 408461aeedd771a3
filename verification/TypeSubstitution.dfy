/**
 Simultaneous substitution of type parameters: nodes a binding does not reach are
 shared, the others are rebuilt in the arena, and a walk 512 levels deep stops.
*/
module TypeSubstitution {
  import opened TypeGraph

  /** `KavakTypeSubst`. */
  datatype Binding = Binding(param: Ref, replacement: Ref)

  type Bindings = seq<Binding>

  predicate Bound(s: Bindings, p: Ref) {
    exists b <- s :: b.param == p
  }

  /** The replacement of the first binding of `p`, or null. */
  function FirstFor(s: Bindings, p: Ref): Ref {
    if s == [] then NULL
    else if s[0].param == p then s[0].replacement
    else FirstFor(s[1..], p)
  }

  /** `subst_lookup`: only parameter nodes are ever replaced. */
  function Lookup(g: Graph, t: Ref, s: Bindings): Ref {
    if t in g && g[t].Param? then FirstFor(s, t) else NULL
  }

  ghost predicate BindingsIn(g: Graph, s: Bindings) {
    forall b <- s :: Points(g, b.replacement)
  }

  /** The walk returns the node itself without looking at its components. */
  predicate StopsAt(t: TypeInfo, s: Bindings, depth: nat) {
    s == [] || t.Builtin? || depth >= RECURSION_LIMIT
  }

  /**
   The first `n` levels of the tree `t` stands for once `s` is applied to it by a
   walk that enters `t` at `depth`.
  */
  ghost function UnrollSubst(g: Graph, t: Ref, s: Bindings, depth: nat, n: nat): Tree
    decreases n
  {
    if n == 0 then Cut
    else if t !in g then Nil
    else if Lookup(g, t, s) != NULL then Unroll(g, Lookup(g, t, s), n)
    else if StopsAt(g[t], s, depth) then Unroll(g, t, n)
    else
      var arms := Arms(g[t]);
      Node(HeadOf(t, g[t]),
           seq(|arms|, i requires 0 <= i < |arms| => UnrollSubst(g, arms[i], s, depth + 1, n - 1)))
  }

  /** Node `r` of `h` unrolls to `t` of `g` under the bindings `s`. */
  ghost predicate Denotes(h: Graph, r: Ref, g: Graph, t: Ref, s: Bindings, depth: nat) {
    forall n: nat :: Unroll(h, r, n) == UnrollSubst(g, t, s, depth, n)
  }

  /** The nodes `subst_inner` recurs into, in its order; a function's result type comes before its parameters. */
  function Visited(t: TypeInfo): seq<Ref> {
    match t
    case Nullable(inner) => [inner]
    case Function(_, receiver, params, ret) => (if receiver == NULL then [] else [receiver]) + [ret] + params
    case Named(_, args, _, underlying) => args + (if underlying == NULL then [] else [underlying])
    case Record(positional, named) => positional + FieldTypes(named)
    case _ => []
  }

  /** The node the constructors build from `t` and new components, listed as in `Visited(t)`. */
  function Rebuilt(t: TypeInfo, items: seq<Ref>): TypeInfo
    requires |items| == |Visited(t)|
  {
    match t
    case Nullable(_) => Nullable(items[0])
    case Function(flags, receiver, params, _) =>
      var k := if receiver == NULL then 0 else 1;
      Function(flags, if receiver == NULL then NULL else items[0], items[k + 1..], items[k])
    case Named(name, args, decl, underlying) =>
      Named(name, items[..|args|], decl, if underlying == NULL then NULL else items[|args|])
    case Record(positional, named) =>
      Record(items[..|positional|], WithTypes(named, items[|positional|..]))
    case _ => t
  }

  /** The named fields with new types. */
  function WithTypes(fields: seq<Field>, types: seq<Ref>): (r: seq<Field>)
    requires |fields| == |types|
    ensures FieldNames(r) == FieldNames(fields) && FieldTypes(r) == types
  {
    seq(|fields|, i requires 0 <= i < |fields| => Field(fields[i].name, types[i]))
  }

  /** The substitution has no result: a null component lies in its way. */
  ghost predicate Fails(g: Graph, t: Ref, s: Bindings, depth: nat)
    decreases RECURSION_LIMIT - depth
  {
    || t !in g
    || (&& Lookup(g, t, s) == NULL
        && !StopsAt(g[t], s, depth)
        && exists c <- Visited(g[t]) :: Fails(g, c, s, depth + 1))
  }

  /** The walk meets a bound parameter. */
  ghost predicate Reaches(g: Graph, t: Ref, s: Bindings, depth: nat)
    decreases RECURSION_LIMIT - depth
  {
    && t in g
    && (|| Lookup(g, t, s) != NULL
        || (!StopsAt(g[t], s, depth) && exists c <- Visited(g[t]) :: Reaches(g, c, s, depth + 1)))
  }

  /** Every node and binding of `g` survives in `h`. */
  ghost predicate Grows(g: Graph, h: Graph) {
    && WellFormed(g) && WellFormed(h)
    && forall r <- g :: r in h && h[r] == g[r]
  }

  lemma {:induction false} FiniteGrows(g: Graph, h: Graph, r: Ref, n: nat)
    requires Grows(g, h) && Finite(g, r, n)
    ensures Finite(h, r, n)
    decreases n
  {
    forall a <- Arms(h[r]) ensures Finite(h, a, n - 1) {
      FiniteGrows(g, h, a, n - 1);
    }
  }

  lemma DenotesGrows(h: Graph, h': Graph, r: Ref, g: Graph, t: Ref, s: Bindings, depth: nat)
    requires Grows(h, h') && Points(h, r) && Denotes(h, r, g, t, s, depth)
    ensures Denotes(h', r, g, t, s, depth)
  {
    forall n: nat ensures Unroll(h', r, n) == UnrollSubst(g, t, s, depth, n) {
      UnrollExtends(h, h', r, n);
    }
  }

  lemma DenotesStopped(g: Graph, h: Graph, t: Ref, s: Bindings, depth: nat)
    requires Grows(g, h) && t in g
    requires Lookup(g, t, s) == NULL && (StopsAt(g[t], s, depth) || Arms(g[t]) == [])
    ensures Denotes(h, t, g, t, s, depth)
  {
    forall n: nat ensures Unroll(h, t, n) == UnrollSubst(g, t, s, depth, n) {
      UnrollExtends(g, h, t, n);
      if n > 0 && !StopsAt(g[t], s, depth) {
        assert Unroll(g, t, n).kids == [] == UnrollSubst(g, t, s, depth, n).kids;
      }
    }
  }

  lemma DenotesReplaced(g: Graph, h: Graph, t: Ref, s: Bindings, depth: nat)
    requires Grows(g, h) && t in g && BindingsIn(g, s)
    requires Lookup(g, t, s) != NULL
    ensures Lookup(g, t, s) in g && Denotes(h, Lookup(g, t, s), g, t, s, depth)
  {
    FirstForPoints(g, s, t);
    forall n: nat ensures Unroll(h, Lookup(g, t, s), n) == UnrollSubst(g, t, s, depth, n) {
      UnrollExtends(g, h, Lookup(g, t, s), n);
    }
  }

  lemma FirstForPoints(g: Graph, s: Bindings, p: Ref)
    requires BindingsIn(g, s)
    ensures Points(g, FirstFor(s, p))
  {
    if s != [] && s[0].param != p {
      FirstForPoints(g, s[1..], p);
    }
  }

  /** Components that denote their substituted originals make a node that does. */
  ghost predicate ArmsDenote(h: Graph, rs: seq<Ref>, g: Graph, ts: seq<Ref>, s: Bindings, depth: nat) {
    && |rs| == |ts|
    && forall i :: 0 <= i < |rs| ==> Denotes(h, rs[i], g, ts[i], s, depth)
  }

  lemma DenotesNode(h: Graph, r: Ref, g: Graph, t: Ref, s: Bindings, depth: nat)
    requires t in g && r in h
    requires Lookup(g, t, s) == NULL && !StopsAt(g[t], s, depth)
    requires HeadOf(r, h[r]) == HeadOf(t, g[t])
    requires ArmsDenote(h, Arms(h[r]), g, Arms(g[t]), s, depth + 1)
    ensures Denotes(h, r, g, t, s, depth)
  {
    var rs, ts := Arms(h[r]), Arms(g[t]);
    forall n: nat ensures Unroll(h, r, n) == UnrollSubst(g, t, s, depth, n) {
      if n > 0 {
        forall i | 0 <= i < |rs| ensures Unroll(h, rs[i], n - 1) == UnrollSubst(g, ts[i], s, depth + 1, n - 1) {
          assert Denotes(h, rs[i], g, ts[i], s, depth + 1);
        }
        assert Unroll(h, r, n).kids == UnrollSubst(g, t, s, depth, n).kids;
      }
    }
  }

  lemma ArmsDenoteGrows(h: Graph, h': Graph, rs: seq<Ref>, g: Graph, ts: seq<Ref>, s: Bindings, depth: nat)
    requires Grows(h, h') && PointsAll(h, rs) && ArmsDenote(h, rs, g, ts, s, depth)
    ensures ArmsDenote(h', rs, g, ts, s, depth)
  {
    forall i | 0 <= i < |rs| ensures Denotes(h', rs[i], g, ts[i], s, depth) {
      assert rs[i] in rs;
      DenotesGrows(h, h', rs[i], g, ts[i], s, depth);
    }
  }

  // ----- the bound and the null components, out of the way

  /** Simultaneous substitution without a depth bound. */
  ghost function Instance(g: Graph, t: Ref, s: Bindings, n: nat): Tree
    decreases n
  {
    if n == 0 then Cut
    else if t !in g then Nil
    else if Lookup(g, t, s) != NULL then Unroll(g, Lookup(g, t, s), n)
    else
      var arms := Arms(g[t]);
      Node(HeadOf(t, g[t]), seq(|arms|, i requires 0 <= i < |arms| => Instance(g, arms[i], s, n - 1)))
  }

  lemma {:induction false} NoBindingsInstance(g: Graph, t: Ref, n: nat)
    ensures Instance(g, t, [], n) == Unroll(g, t, n)
    decreases n
  {
    if n > 0 && t in g {
      var arms := Arms(g[t]);
      forall i | 0 <= i < |arms| ensures Instance(g, arms[i], [], n - 1) == Unroll(g, arms[i], n - 1) {
        NoBindingsInstance(g, arms[i], n - 1);
      }
      assert Instance(g, t, [], n).kids == Unroll(g, t, n).kids;
    }
  }

  /** Types of at most 512 levels are substituted all the way down. */
  lemma {:induction false} SubstitutesFully(g: Graph, t: Ref, s: Bindings, depth: nat, h: nat, n: nat)
    requires Finite(g, t, h) && depth + h <= RECURSION_LIMIT
    ensures UnrollSubst(g, t, s, depth, n) == Instance(g, t, s, n)
    decreases n
  {
    if n > 0 && Lookup(g, t, s) == NULL {
      var arms := Arms(g[t]);
      if s == [] {
        NoBindingsInstance(g, t, n);
      } else {
        forall i | 0 <= i < |arms|
          ensures UnrollSubst(g, arms[i], s, depth + 1, n - 1) == Instance(g, arms[i], s, n - 1)
        {
          assert arms[i] in arms;
          SubstitutesFully(g, arms[i], s, depth + 1, h - 1, n - 1);
        }
        if g[t].Builtin? {
          assert Unroll(g, t, n).kids == Instance(g, t, s, n).kids;
        } else {
          assert UnrollSubst(g, t, s, depth, n).kids == Instance(g, t, s, n).kids;
        }
      }
    }
  }

  /** No node has a null component: what every constructor but those of functions and named types enforces. */
  ghost predicate NoNullParts(g: Graph) {
    forall t <- g :: NULL !in Visited(g[t])
  }

  lemma {:induction false} NeverFails(g: Graph, t: Ref, s: Bindings, depth: nat)
    requires WellFormed(g) && NoNullParts(g) && t in g
    ensures !Fails(g, t, s, depth)
    decreases RECURSION_LIMIT - depth
  {
    if !StopsAt(g[t], s, depth) {
      VisitedPoints(g, t);
      forall c <- Visited(g[t]) ensures !Fails(g, c, s, depth + 1) {
        NeverFails(g, c, s, depth + 1);
      }
    }
  }

  // ----- components in the order they are visited

  ghost predicate AnyFails(g: Graph, items: seq<Ref>, s: Bindings, depth: nat) {
    exists c <- items :: Fails(g, c, s, depth)
  }

  ghost predicate AnyReaches(g: Graph, items: seq<Ref>, s: Bindings, depth: nat) {
    exists c <- items :: Reaches(g, c, s, depth)
  }

  /**
   What a walk from `t` leaves behind: `before` and `after` are the nodes around
   it, and `g` the nodes when the outermost call began.
  */
  ghost predicate Outcome(before: Graph, after: Graph, r: Ref, t: Ref, s: Bindings, depth: nat, g: Graph) {
    && Grows(before, after) && Points(after, r)
    && (r == NULL <==> Fails(g, t, s, depth))
    && (r != NULL ==> Denotes(after, r, g, t, s, depth))
    && (r != NULL && !Reaches(g, t, s, depth) ==> r == t && after == before)
  }

  ghost predicate ItemsOutcome(before: Graph, after: Graph, rs: seq<Ref>, ts: seq<Ref>, s: Bindings, depth: nat,
                               g: Graph) {
    && Grows(before, after)
    && !AnyFails(g, ts, s, depth)
    && NULL !in rs && PointsAll(after, rs) && ArmsDenote(after, rs, g, ts, s, depth)
    && (!AnyReaches(g, ts, s, depth) ==> rs == ts && after == before)
  }

  lemma GrowsTrans(a: Graph, b: Graph, c: Graph)
    requires Grows(a, b) && Grows(b, c)
    ensures Grows(a, c)
  {
  }

  lemma ItemsNone(before: Graph, s: Bindings, depth: nat, g: Graph)
    requires WellFormed(before)
    ensures ItemsOutcome(before, before, [], [], s, depth, g)
  {
  }

  lemma ItemsStep(before: Graph, mid: Graph, after: Graph, rs: seq<Ref>, r: Ref, ts: seq<Ref>, t: Ref, s: Bindings,
                  depth: nat, g: Graph)
    requires ItemsOutcome(before, mid, rs, ts, s, depth, g)
    requires Outcome(mid, after, r, t, s, depth, g) && r != NULL
    ensures ItemsOutcome(before, after, rs + [r], ts + [t], s, depth, g)
  {
    ArmsDenoteGrows(mid, after, rs, g, ts, s, depth);
    if !AnyReaches(g, ts + [t], s, depth) {
      assert t in ts + [t];
      forall c <- ts ensures !Reaches(g, c, s, depth) { assert c in ts + [t]; }
    }
  }

  lemma ItemsNext(before: Graph, mid: Graph, after: Graph, rs: seq<Ref>, r: Ref, ts: seq<Ref>, i: nat, s: Bindings,
                  depth: nat, g: Graph)
    requires i < |ts| && Grows(g, mid)
    requires ItemsOutcome(before, mid, rs, ts[..i], s, depth, g)
    requires Outcome(mid, after, r, ts[i], s, depth, g)
    ensures Grows(g, after) && Grows(before, after)
    ensures r == NULL ==> AnyFails(g, ts, s, depth)
    ensures r != NULL ==> ItemsOutcome(before, after, rs + [r], ts[..i + 1], s, depth, g)
  {
    GrowsTrans(g, mid, after);
    GrowsTrans(before, mid, after);
    if r == NULL {
      assert ts[i] in ts;
    } else {
      ItemsStep(before, mid, after, rs, r, ts[..i], ts[i], s, depth, g);
      assert ts[..i + 1] == ts[..i] + [ts[i]];
    }
  }

  // ----- rebuilding a node

  lemma VisitedPoints(g: Graph, t: Ref)
    requires WellFormed(g) && t in g
    ensures PointsAll(g, Visited(g[t]))
  {
    assert InGraph(g, g[t]);
    match g[t]
    case Function(_, _, _, _) => FunctionPoints(g, t);
    case Record(_, _) => RecordPoints(g, t);
    case _ =>
  }

  lemma RebuiltInGraph(h: Graph, t: TypeInfo, items: seq<Ref>)
    requires |items| == |Visited(t)| && NULL !in items && PointsAll(h, items)
    requires t.Named? ==> t.name.Some?
    requires t.Record? ==> forall f <- t.named :: f.name.Some?
    ensures InGraph(h, Rebuilt(t, items))
  {
    var t' := Rebuilt(t, items);
    forall c <- Arms(t') ensures Points(h, c) {
      assert c in items;
    }
    if t.Record? {
      forall f <- t'.named ensures f.name.Some? {
        var i :| 0 <= i < |t'.named| && t'.named[i] == f;
        assert FieldNames(t'.named)[i] == FieldNames(t.named)[i];
      }
    }
  }

  lemma RebuiltArms(h: Graph, t: TypeInfo, items: seq<Ref>, s: Bindings, depth: nat, g: Graph)
    requires |items| == |Visited(t)| && NULL !in items
    requires ArmsDenote(h, items, g, Visited(t), s, depth)
    ensures ArmsDenote(h, Arms(Rebuilt(t, items)), g, Arms(t), s, depth)
  {
    var rs, ts, vs := Arms(Rebuilt(t, items)), Arms(t), Visited(t);
    forall i | 0 <= i < |ts| ensures |rs| == |ts| && Denotes(h, rs[i], g, ts[i], s, depth) {
      var k := if t.Function? && t.receiver != NULL then 1 else 0;
      var j := if !t.Function? || i < k then i else if i == |ts| - 1 then k else i + 1;
      assert rs[i] == items[j] && ts[i] == vs[j];
    }
  }

  lemma RebuiltSame(t: TypeInfo)
    ensures Arms(Rebuilt(t, Visited(t))) == Arms(t)
  {
  }

  /** The walks that look at no component. */
  lemma LeafOutcome(h: Graph, t: Ref, s: Bindings, depth: nat, g: Graph)
    requires Grows(g, h) && Points(g, t) && BindingsIn(g, s)
    ensures t == NULL ==> Outcome(h, h, NULL, t, s, depth, g)
    ensures t != NULL && Lookup(g, t, s) != NULL ==> Outcome(h, h, Lookup(g, t, s), t, s, depth, g)
    ensures t != NULL && Lookup(g, t, s) == NULL && (StopsAt(g[t], s, depth) || g[t].User?) ==>
              Outcome(h, h, t, t, s, depth, g)
  {
    if t != NULL {
      if Lookup(g, t, s) != NULL {
        DenotesReplaced(g, h, t, s, depth);
      } else if StopsAt(g[t], s, depth) || g[t].User? {
        DenotesStopped(g, h, t, s, depth);
      }
    }
  }

  lemma FailedOutcome(before: Graph, after: Graph, t: Ref, s: Bindings, depth: nat, g: Graph)
    requires Grows(before, after) && t in g && Lookup(g, t, s) == NULL && !StopsAt(g[t], s, depth)
    requires AnyFails(g, Visited(g[t]), s, depth + 1)
    ensures Outcome(before, after, NULL, t, s, depth, g)
  {
  }

  /** The walk over a node's components is done, and the node is shared or rebuilt. */
  lemma NodeOutcome(before: Graph, mid: Graph, after: Graph, r: Ref, t: Ref, items: seq<Ref>, s: Bindings, depth: nat,
                    g: Graph)
    requires t in g && Lookup(g, t, s) == NULL && !StopsAt(g[t], s, depth) && !g[t].User?
    requires ItemsOutcome(before, mid, items, Visited(g[t]), s, depth + 1, g)
    requires Grows(mid, after) && Grows(g, after) && r in after
    requires if items == Visited(g[t]) then r == t && after == mid else after[r] == Rebuilt(g[t], items)
    ensures Outcome(before, after, r, t, s, depth, g)
  {
    GrowsTrans(before, mid, after);
    ArmsDenoteGrows(mid, after, items, g, Visited(g[t]), s, depth + 1);
    RebuiltArms(after, g[t], items, s, depth + 1, g);
    RebuiltSame(g[t]);
    DenotesNode(after, r, g, t, s, depth);
  }

  /** `KavakTypeArena`: the nodes allocated so far. */
  class TypeArena {
    var nodes: Graph
    var next: Ref

    ghost predicate Valid() reads this {
      WellFormed(nodes) && NULL < next && forall r <- nodes :: r < next
    }

    /** `kavak_ty_alloc` together with the constructor that fills the payload. */
    method Alloc(t: TypeInfo) returns (r: Ref)
      requires Valid() && InGraph(nodes, t)
      modifies this
      ensures Valid() && Grows(old(nodes), nodes)
      ensures r !in old(nodes) && nodes == old(nodes)[r := t]
    {
      r := next;
      nodes := nodes[r := t];
      next := next + 1;
    }

    /** `kavak_ty_substitute`. */
    method Substitute(t: Ref, s: Bindings) returns (r: Ref)
      requires Valid() && Points(nodes, t) && BindingsIn(nodes, s)
      modifies this
      ensures Valid() && Grows(old(nodes), nodes) && Points(nodes, r)
      ensures r == NULL <==> Fails(old(nodes), t, s, 0)
      ensures r != NULL ==> Denotes(nodes, r, old(nodes), t, s, 0)
      ensures r != NULL && !Reaches(old(nodes), t, s, 0) ==> r == t && nodes == old(nodes)
    {
      r := SubstInner(t, s, 0, nodes);
    }

    /** `subst_inner`; `g` is the graph as it was when the substitution began. */
    method SubstInner(t: Ref, s: Bindings, depth: nat, ghost g: Graph) returns (r: Ref)
      requires Valid() && Grows(g, nodes) && Points(g, t) && BindingsIn(g, s)
      requires depth <= RECURSION_LIMIT
      modifies this
      ensures Valid() && Outcome(old(nodes), nodes, r, t, s, depth, g)
      decreases RECURSION_LIMIT - depth, 0
    {
      LeafOutcome(nodes, t, s, depth, g);
      if t == NULL { return NULL; }
      var replacement := Lookup(nodes, t, s);
      if replacement != NULL { return replacement; }
      if s == [] || nodes[t].Builtin? || depth >= RECURSION_LIMIT || nodes[t].User? { return t; }
      VisitedPoints(g, t);
      var ok, items := SubstItems(Visited(nodes[t]), s, depth + 1, g);
      if !ok {
        FailedOutcome(old(nodes), nodes, t, s, depth, g);
        return NULL;
      }
      r := Finish(t, items, s, depth, old(nodes), g);
    }

    /** Shares the node when no component changed, and rebuilds it otherwise. */
    method Finish(t: Ref, items: seq<Ref>, ghost s: Bindings, ghost depth: nat, ghost before: Graph, ghost g: Graph)
      returns (r: Ref)
      requires Valid() && Grows(g, nodes) && t in g
      requires Lookup(g, t, s) == NULL && !StopsAt(g[t], s, depth) && !g[t].User?
      requires ItemsOutcome(before, nodes, items, Visited(g[t]), s, depth + 1, g)
      modifies this
      ensures Valid() && Outcome(before, nodes, r, t, s, depth, g)
    {
      ghost var mid := nodes;
      r := t;
      if items != Visited(nodes[t]) {
        assert InGraph(g, g[t]);
        RebuiltInGraph(nodes, nodes[t], items);
        r := Alloc(Rebuilt(nodes[t], items));
        GrowsTrans(g, mid, nodes);
      }
      NodeOutcome(before, mid, nodes, r, t, items, s, depth, g);
    }

    /** `subst_type_array`, for all the components of a node. */
    method SubstItems(ts: seq<Ref>, s: Bindings, depth: nat, ghost g: Graph) returns (ok: bool, rs: seq<Ref>)
      requires Valid() && Grows(g, nodes) && PointsAll(g, ts) && BindingsIn(g, s)
      requires depth <= RECURSION_LIMIT
      modifies this
      ensures Valid() && Grows(old(nodes), nodes) && Grows(g, nodes)
      ensures ok <==> !AnyFails(g, ts, s, depth)
      ensures ok ==> ItemsOutcome(old(nodes), nodes, rs, ts, s, depth, g)
      decreases RECURSION_LIMIT - depth, 1
    {
      rs := [];
      ItemsNone(nodes, s, depth, g);
      for i := 0 to |ts|
        invariant Valid() && Grows(g, nodes)
        invariant ItemsOutcome(old(nodes), nodes, rs, ts[..i], s, depth, g)
      {
        ghost var before := nodes;
        assert ts[i] in ts;
        var r := SubstInner(ts[i], s, depth, g);
        ItemsNext(old(nodes), before, nodes, rs, r, ts, i, s, depth, g);
        if r == NULL {
          return false, [];
        }
        rs := rs + [r];
      }
      assert ts[..|ts|] == ts;
      ok := true;
    }
  }
}
