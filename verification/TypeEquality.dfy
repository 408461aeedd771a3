/**
 Deep equality on type graphs that may be cyclic: a recursive walk which assumes
 the pairs it is already comparing to be equal, with room for 512 of them.
*/
module TypeEquality {
  import opened TypeGraph

  type Pair = (Ref, Ref)

  /**
   What `type_equal_deep_inner` answers when the pairs in `stack` are being compared.
   Each call restores the stack, so the order of the component tests is immaterial.
  */
  ghost predicate EqualUnder(g: Graph, a: Ref, b: Ref, stack: seq<Pair>)
    requires WellFormed(g) && Points(g, a) && Points(g, b)
    decreases RECURSION_LIMIT - |stack|, 0
  {
    || a == b
    || (&& a != NULL && b != NULL && SameKind(g[a], g[b])
        && (|| g[a].Builtin?
            || (a, b) in stack
            || (&& |stack| < RECURSION_LIMIT
                && HeadOf(a, g[a]) == HeadOf(b, g[b])
                && assert InGraph(g, g[a]) && InGraph(g, g[b]);
                   ItemsEqual(g, Arms(g[a]), Arms(g[b]), stack + [(a, b)]))))
  }

  /** The component loops, which stop at the first difference. */
  ghost predicate ItemsEqual(g: Graph, xs: seq<Ref>, ys: seq<Ref>, stack: seq<Pair>)
    requires WellFormed(g) && PointsAll(g, xs) && PointsAll(g, ys)
    decreases RECURSION_LIMIT - |stack|, 1, |xs|
  {
    && |xs| == |ys|
    && (xs == [] || (EqualUnder(g, xs[0], ys[0], stack) && ItemsEqual(g, xs[1..], ys[1..], stack)))
  }

  /** The `switch`: what makes a pushed pair equal. */
  ghost predicate EqualParts(g: Graph, a: Ref, b: Ref, stack: seq<Pair>)
    requires WellFormed(g) && a in g && b in g
  {
    && HeadOf(a, g[a]) == HeadOf(b, g[b])
    && assert InGraph(g, g[a]) && InGraph(g, g[b]);
       ItemsEqual(g, Arms(g[a]), Arms(g[b]), stack)
  }

  /** `kavak_ty_equal_deep`. */
  ghost predicate EqualDeep(g: Graph, a: Ref, b: Ref)
    requires WellFormed(g) && Points(g, a) && Points(g, b)
  {
    EqualUnder(g, a, b, [])
  }

  // ----- a positive answer is right, on every graph

  ghost function Lefts(g: Graph, stack: seq<Pair>, n: nat): seq<Tree> {
    seq(|stack|, i requires 0 <= i < |stack| => Unroll(g, stack[i].0, n))
  }

  ghost function Rights(g: Graph, stack: seq<Pair>, n: nat): seq<Tree> {
    seq(|stack|, i requires 0 <= i < |stack| => Unroll(g, stack[i].1, n))
  }

  /** Every assumed pair agrees for `n` levels. */
  ghost predicate StackAgrees(g: Graph, stack: seq<Pair>, n: nat) {
    Lefts(g, stack, n) == Rights(g, stack, n)
  }

  lemma StackAgreesAt(g: Graph, stack: seq<Pair>, n: nat, i: nat)
    requires StackAgrees(g, stack, n) && i < |stack|
    ensures Unroll(g, stack[i].0, n) == Unroll(g, stack[i].1, n)
  {
    assert Lefts(g, stack, n)[i] == Rights(g, stack, n)[i];
  }

  lemma StackAgreesLess(g: Graph, stack: seq<Pair>, n: nat)
    ensures StackAgrees(g, stack, n + 1) ==> StackAgrees(g, stack, n)
  {
    if StackAgrees(g, stack, n + 1) {
      forall i | 0 <= i < |stack| ensures Unroll(g, stack[i].0, n) == Unroll(g, stack[i].1, n) {
        StackAgreesAt(g, stack, n + 1, i);
        UnrollPrefix(g, stack[i].0, stack[i].1, n);
      }
    }
  }

  lemma StackAgreesPush(g: Graph, stack: seq<Pair>, a: Ref, b: Ref, n: nat)
    ensures StackAgrees(g, stack, n) && Unroll(g, a, n) == Unroll(g, b, n) ==> StackAgrees(g, stack + [(a, b)], n)
  {
    assert Lefts(g, stack + [(a, b)], n) == Lefts(g, stack, n) + [Unroll(g, a, n)];
    assert Rights(g, stack + [(a, b)], n) == Rights(g, stack, n) + [Unroll(g, b, n)];
  }

  lemma AssumedPairAgrees(g: Graph, a: Ref, b: Ref, stack: seq<Pair>, n: nat)
    ensures StackAgrees(g, stack, n) && (a, b) in stack ==> Unroll(g, a, n) == Unroll(g, b, n)
  {
    if StackAgrees(g, stack, n) && (a, b) in stack {
      var i :| 0 <= i < |stack| && stack[i] == (a, b);
      StackAgreesAt(g, stack, n, i);
    }
  }

  /** The three reasons not to push a pair. */
  lemma UnpushedSound(g: Graph, a: Ref, b: Ref, stack: seq<Pair>, n: nat)
    requires WellFormed(g) && Points(g, a) && Points(g, b) && !Pushes(g, a, b, stack)
    ensures StackAgrees(g, stack, n) && EqualUnder(g, a, b, stack) ==> Unroll(g, a, n) == Unroll(g, b, n)
  {
    AssumedPairAgrees(g, a, b, stack, n);
    if a != b && a in g && b in g && g[a].Builtin? && SameKind(g[a], g[b]) && n > 0 {
      UnrollJoin(g, a, b, n);
    }
  }

  ghost predicate Pushes(g: Graph, a: Ref, b: Ref, stack: seq<Pair>) {
    a != b && a in g && b in g && SameKind(g[a], g[b]) && !g[a].Builtin? && (a, b) !in stack
  }

  lemma UnpushedUnder(g: Graph, a: Ref, b: Ref, stack: seq<Pair>)
    requires WellFormed(g) && Points(g, a) && Points(g, b)
    ensures !Pushes(g, a, b, stack) ==>
              (EqualUnder(g, a, b, stack) <==>
               a == b || (a != NULL && b != NULL && SameKind(g[a], g[b])))
  {
  }

  lemma PushedUnder(g: Graph, a: Ref, b: Ref, stack: seq<Pair>)
    requires WellFormed(g) && Pushes(g, a, b, stack)
    ensures a in g && b in g
    ensures EqualUnder(g, a, b, stack) <==> |stack| < RECURSION_LIMIT && EqualParts(g, a, b, stack + [(a, b)])
  {
  }

  lemma {:induction false} EqualUnderSound(g: Graph, a: Ref, b: Ref, stack: seq<Pair>, n: nat)
    requires WellFormed(g) && Points(g, a) && Points(g, b)
    ensures StackAgrees(g, stack, n) && EqualUnder(g, a, b, stack) ==> Unroll(g, a, n) == Unroll(g, b, n)
    decreases n, 1, 0
  {
    hide *;
    if n == 0 {
      UnrollNothing(g, a, b, n);
    } else if !Pushes(g, a, b, stack) {
      UnpushedSound(g, a, b, stack, n);
    } else {
      PushedUnder(g, a, b, stack);
      StackAgreesLess(g, stack, n - 1);
      EqualUnderSound(g, a, b, stack, n - 1);
      StackAgreesPush(g, stack, a, b, n - 1);
      EqualPartsSound(g, a, b, stack + [(a, b)], n);
    }
  }

  lemma {:induction false} EqualPartsSound(g: Graph, a: Ref, b: Ref, stack: seq<Pair>, n: nat)
    requires WellFormed(g) && a in g && b in g && n > 0
    ensures StackAgrees(g, stack, n - 1) && EqualParts(g, a, b, stack) ==> Unroll(g, a, n) == Unroll(g, b, n)
    decreases n, 0, 0
  {
    hide Unroll, HeadOf, Arms, UnrollsAgree, ItemsEqual, EqualUnder, StackAgrees;
    assert InGraph(g, g[a]) && InGraph(g, g[b]);
    ItemsEqualSound(g, Arms(g[a]), Arms(g[b]), stack, n - 1);
    if StackAgrees(g, stack, n - 1) && EqualParts(g, a, b, stack) {
      UnrollJoin(g, a, b, n);
    }
  }

  lemma {:induction false} ItemsEqualSound(g: Graph, xs: seq<Ref>, ys: seq<Ref>, stack: seq<Pair>, n: nat)
    requires WellFormed(g) && PointsAll(g, xs) && PointsAll(g, ys)
    ensures StackAgrees(g, stack, n) && ItemsEqual(g, xs, ys, stack) ==> UnrollsAgree(g, xs, ys, n)
    decreases n, 2, |xs|
  {
    if |xs| == |ys| && xs != [] {
      EqualUnderSound(g, xs[0], ys[0], stack, n);
      ItemsEqualSound(g, xs[1..], ys[1..], stack, n);
      UnrollsAgreeCons(g, xs, ys, n);
    }
  }

  /** Two nodes deep equality accepts unroll to the same infinite tree. */
  lemma EqualDeepSound(g: Graph, a: Ref, b: Ref)
    requires WellFormed(g) && Points(g, a) && Points(g, b)
    requires EqualDeep(g, a, b)
    ensures SameTree(g, a, b)
  {
    forall n: nat ensures Unroll(g, a, n) == Unroll(g, b, n) {
      EqualUnderSound(g, a, b, [], n);
      assert Lefts(g, [], n) == Rights(g, [], n);
    }
  }

  // ----- and exact unless the assumptions outgrow the stack

  /** The pairs the walk has to push: distinct nodes of one kind that are not builtins. */
  predicate Pushed(g: Graph, p: Pair) {
    p.0 != p.1 && p.0 in g && p.1 in g && SameKind(g[p.0], g[p.1]) && !g[p.0].Builtin?
  }

  /** `q` is a pair of corresponding components of `p`. */
  predicate IsArm(g: Graph, p: Pair, q: Pair) {
    && p.0 in g && p.1 in g
    && exists i :: 0 <= i < |Arms(g[p.0])| && i < |Arms(g[p.1])| && q == (Arms(g[p.0])[i], Arms(g[p.1])[i])
  }

  ghost predicate NoRepeats(stack: seq<Pair>) {
    forall i, j :: 0 <= i < j < |stack| ==> stack[i] != stack[j]
  }

  /** Pairs that can be on the stack at one time: each is pushed, is new, and is a component of the one below it. */
  ghost predicate Run(g: Graph, path: seq<Pair>) {
    && NoRepeats(path)
    && (forall p <- path :: Pushed(g, p))
    && forall i :: 0 < i < |path| ==> IsArm(g, path[i - 1], path[i])
  }

  /** Some run from `a` and `b` needs more room than there is. */
  ghost predicate OutgrowsStack(g: Graph, a: Ref, b: Ref) {
    exists path: seq<Pair> :: |path| == RECURSION_LIMIT + 1 && path[0] == (a, b) && Run(g, path)
  }

  lemma RunPush(g: Graph, stack: seq<Pair>, p: Pair)
    requires Run(g, stack) && Pushed(g, p) && p !in stack
    requires stack != [] ==> IsArm(g, stack[|stack| - 1], p)
    ensures Run(g, stack + [p])
  {
    hide Pushed, IsArm;
  }

  /** The equal pair on top of `stack` is compared within some run that starts at `first`. */
  ghost predicate Fitting(g: Graph, first: Pair, stack: seq<Pair>, p: Pair) {
    && Run(g, stack) && |stack| <= RECURSION_LIMIT
    && (if stack == [] then p == first else stack[0] == first && IsArm(g, stack[|stack| - 1], p))
    && !OutgrowsStack(g, first.0, first.1)
  }

  lemma FittingPush(g: Graph, first: Pair, stack: seq<Pair>, p: Pair)
    requires Fitting(g, first, stack, p) && Pushed(g, p) && p !in stack
    ensures |stack| < RECURSION_LIMIT && Run(g, stack + [p]) && (stack + [p])[0] == first
  {
    hide Pushed, IsArm, Run;
    RunPush(g, stack, p);
    var path := stack + [p];
    assert path[0] == (first.0, first.1);
  }

  lemma {:induction false} EqualUnderComplete(g: Graph, a: Ref, b: Ref, stack: seq<Pair>, first: Pair)
    requires WellFormed(g) && Points(g, a) && Points(g, b)
    requires SameTree(g, a, b) && Fitting(g, first, stack, (a, b))
    ensures EqualUnder(g, a, b, stack)
    decreases RECURSION_LIMIT - |stack|, 0
  {
    hide Fitting, HeadOf, Arms, SameTree;
    SameTreeInGraph(g, a, b);
    if a != b && a in g {
      SameTreeParts(g, a, b);
      HeadFixesArity(a, g[a], b, g[b]);
      if !g[a].Builtin? && (a, b) !in stack {
        var stack' := stack + [(a, b)];
        FittingPush(g, first, stack, (a, b));
        assert InGraph(g, g[a]) && InGraph(g, g[b]);
        forall i | 0 <= i < |Arms(g[a])| ensures Fitting(g, first, stack', (Arms(g[a])[i], Arms(g[b])[i])) {
          FittingArm(g, first, stack, a, b, i);
        }
        ItemsEqualComplete(g, Arms(g[a]), Arms(g[b]), stack', first);
      }
    }
  }

  lemma FittingArm(g: Graph, first: Pair, stack: seq<Pair>, a: Ref, b: Ref, i: nat)
    requires Fitting(g, first, stack, (a, b)) && Pushed(g, (a, b)) && (a, b) !in stack
    requires i < |Arms(g[a])| && i < |Arms(g[b])|
    ensures Fitting(g, first, stack + [(a, b)], (Arms(g[a])[i], Arms(g[b])[i]))
  {
    hide Run;
    FittingPush(g, first, stack, (a, b));
  }

  lemma {:induction false} ItemsEqualComplete(g: Graph, xs: seq<Ref>, ys: seq<Ref>, stack: seq<Pair>, first: Pair)
    requires WellFormed(g) && PointsAll(g, xs) && PointsAll(g, ys) && |xs| == |ys|
    requires |stack| <= RECURSION_LIMIT
    requires forall i :: 0 <= i < |xs| ==> SameTree(g, xs[i], ys[i])
    requires forall i :: 0 <= i < |xs| ==> Fitting(g, first, stack, (xs[i], ys[i]))
    ensures ItemsEqual(g, xs, ys, stack)
    decreases RECURSION_LIMIT - |stack|, 1, |xs|
  {
    hide Fitting, SameTree;
    if xs != [] {
      EqualUnderComplete(g, xs[0], ys[0], stack, first);
      ItemsEqualComplete(g, xs[1..], ys[1..], stack, first);
    }
  }

  lemma {:induction false} ItemsEqualAt(g: Graph, xs: seq<Ref>, ys: seq<Ref>, stack: seq<Pair>, i: nat)
    requires WellFormed(g) && PointsAll(g, xs) && PointsAll(g, ys)
    requires ItemsEqual(g, xs, ys, stack) && i < |xs|
    ensures i < |ys| && EqualUnder(g, xs[i], ys[i], stack)
    decreases i
  {
    if i > 0 { ItemsEqualAt(g, xs[1..], ys[1..], stack, i - 1); }
  }

  lemma RunStep(g: Graph, path: seq<Pair>, k: nat)
    requires Run(g, path) && 0 < k < |path|
    ensures IsArm(g, path[k - 1], path[k]) && Pushed(g, path[k - 1])
    ensures path[k - 1] !in path[..k - 1] && path[..k - 1] + [path[k - 1]] == path[..k]
  {
    hide IsArm, Pushed;
  }

  /** An answer 1 has been through every pair of every run. */
  lemma {:induction false} RunIsWalked(g: Graph, path: seq<Pair>, k: nat)
    requires WellFormed(g) && Run(g, path) && k < |path|
    requires Points(g, path[0].0) && Points(g, path[0].1) && EqualDeep(g, path[0].0, path[0].1)
    ensures Points(g, path[k].0) && Points(g, path[k].1) && EqualUnder(g, path[k].0, path[k].1, path[..k])
    decreases k
  {
    hide EqualUnder, EqualParts, IsArm, Run, Pushed, WellFormed, Points;
    if k == 0 {
      assert path[..0] == [];
    } else {
      RunIsWalked(g, path, k - 1);
      RunStep(g, path, k);
      ArmIsWalked(g, path[k - 1], path[k], path[..k - 1]);
    }
  }

  lemma ArmIsWalked(g: Graph, p: Pair, q: Pair, stack: seq<Pair>)
    requires WellFormed(g) && Pushed(g, p) && p !in stack && IsArm(g, p, q)
    requires EqualUnder(g, p.0, p.1, stack)
    ensures Points(g, q.0) && Points(g, q.1) && EqualUnder(g, q.0, q.1, stack + [p])
  {
    hide EqualUnder, HeadOf, Arms;
    PushedUnder(g, p.0, p.1, stack);
    assert InGraph(g, g[p.0]) && InGraph(g, g[p.1]);
    var i :| 0 <= i < |Arms(g[p.0])| && i < |Arms(g[p.1])| && q == (Arms(g[p.0])[i], Arms(g[p.1])[i]);
    ItemsEqualAt(g, Arms(g[p.0]), Arms(g[p.1]), stack + [p], i);
  }

  lemma RunFits(g: Graph, path: seq<Pair>)
    requires WellFormed(g) && Run(g, path) && path != []
    requires Points(g, path[0].0) && Points(g, path[0].1) && EqualDeep(g, path[0].0, path[0].1)
    ensures |path| <= RECURSION_LIMIT
  {
    hide EqualUnder, Pushed, IsArm;
    if |path| > RECURSION_LIMIT {
      var p := path[RECURSION_LIMIT];
      assert Pushed(g, p) && p !in path[..RECURSION_LIMIT];
      hide Run;
      RunIsWalked(g, path, RECURSION_LIMIT);
      PushesNew(g, p, path[..RECURSION_LIMIT]);
    }
  }

  lemma PushesNew(g: Graph, p: Pair, stack: seq<Pair>)
    requires WellFormed(g) && Pushed(g, p) && p !in stack && |stack| >= RECURSION_LIMIT
    ensures !EqualUnder(g, p.0, p.1, stack)
  {
  }

  /**
   On every graph, cyclic or not, deep equality answers 1 if and only if the trees are
   equal and no run of pairs outgrows the assumption stack.
  */
  lemma EqualDeepExact(g: Graph, a: Ref, b: Ref)
    requires WellFormed(g) && Points(g, a) && Points(g, b)
    ensures EqualDeep(g, a, b) <==> SameTree(g, a, b) && !OutgrowsStack(g, a, b)
  {
    hide EqualUnder, Run, Pushed;
    if EqualDeep(g, a, b) {
      EqualDeepSound(g, a, b);
      if path: seq<Pair> :| |path| == RECURSION_LIMIT + 1 && path[0] == (a, b) && Run(g, path) {
        RunFits(g, path);
      }
    } else if SameTree(g, a, b) && !OutgrowsStack(g, a, b) {
      EmptyRun(g);
      EqualUnderComplete(g, a, b, [], (a, b));
    }
  }

  lemma FirstIsPushed(g: Graph, path: seq<Pair>)
    requires Run(g, path) && path != []
    ensures Pushed(g, path[0])
  {
  }

  lemma EmptyRun(g: Graph)
    ensures Run(g, [])
  {
  }

  // ----- where no run does: few pairs to compare

  /** `pairs` holds every pushed component pair of each pair in it. */
  ghost predicate ClosedPairs(g: Graph, pairs: set<Pair>) {
    forall p, q | p in pairs && IsArm(g, p, q) && Pushed(g, q) :: q in pairs
  }

  lemma {:induction false} StackFits(stack: seq<Pair>, pairs: set<Pair>)
    requires NoRepeats(stack) && forall p <- stack :: p in pairs
    ensures |stack| <= |pairs|
  {
    if stack != [] {
      var last := stack[|stack| - 1];
      var rest := stack[..|stack| - 1];
      forall p <- rest ensures p in pairs - {last} { }
      StackFits(rest, pairs - {last});
    }
  }

  lemma {:induction false} RunWithin(g: Graph, path: seq<Pair>, pairs: set<Pair>, k: nat)
    requires Run(g, path) && ClosedPairs(g, pairs) && k < |path| && path[0] in pairs
    ensures path[k] in pairs
    decreases k
  {
    hide Pushed, IsArm;
    if k > 0 {
      RunWithin(g, path, pairs, k - 1);
      assert IsArm(g, path[k - 1], path[k]) && Pushed(g, path[k]);
    }
  }

  /** With at most 512 pairs to compare the answer is exact, cycles or not. */
  lemma EqualDeepFewPairs(g: Graph, a: Ref, b: Ref, pairs: set<Pair>)
    requires WellFormed(g) && Points(g, a) && Points(g, b)
    requires ClosedPairs(g, pairs) && |pairs| <= RECURSION_LIMIT
    requires Pushed(g, (a, b)) ==> (a, b) in pairs
    ensures EqualDeep(g, a, b) <==> SameTree(g, a, b)
  {
    hide EqualDeep, SameTree, Pushed, ClosedPairs;
    EqualDeepExact(g, a, b);
    if path: seq<Pair> :| |path| == RECURSION_LIMIT + 1 && path[0] == (a, b) && Run(g, path) {
      FirstIsPushed(g, path);
      forall p <- path ensures p in pairs {
        var k :| 0 <= k < |path| && path[k] == p;
        RunWithin(g, path, pairs, k);
      }
      StackFits(path, pairs);
    }
  }

  // ----- and shallow types

  lemma {:induction false} RunInFinite(g: Graph, path: seq<Pair>, n: nat)
    requires Run(g, path) && path != [] && Finite(g, path[0].0, n)
    ensures |path| <= n
    decreases n
  {
    hide Pushed;
    if |path| > 1 {
      assert IsArm(g, path[0], path[1]) && path[1].0 in Arms(g[path[0].0]);
      var rest := path[1..];
      forall i | 0 < i < |rest| ensures IsArm(g, rest[i - 1], rest[i]) {
        assert IsArm(g, path[i], path[i + 1]);
      }
      RunInFinite(g, rest, n - 1);
    }
  }

  /** On acyclic types of at most 512 levels deep equality decides equality of trees. */
  lemma EqualDeepFinite(g: Graph, a: Ref, b: Ref, n: nat)
    requires WellFormed(g) && Points(g, b)
    requires Finite(g, a, n) && n <= RECURSION_LIMIT
    ensures EqualDeep(g, a, b) <==> SameTree(g, a, b)
  {
    hide EqualDeep, SameTree, Run;
    EqualDeepExact(g, a, b);
    if path: seq<Pair> :| |path| == RECURSION_LIMIT + 1 && path[0] == (a, b) && Run(g, path) {
      RunInFinite(g, path, n);
    }
  }

  // ----- the bound is real: twin towers of nullables

  /** Two separate towers over `Int`: nodes `2k + 1` and `2k + 2` carry `k` nullable layers. */
  function Towers(top: nat): Graph {
    if top == 0 then map[1 := Builtin(8), 2 := Builtin(8)]
    else Towers(top - 1)[2 * top + 1 := Nullable(2 * top - 1)][2 * top + 2 := Nullable(2 * top)]
  }

  lemma {:induction false} TowersNode(top: nat, r: Ref)
    ensures r in Towers(top) <==> 1 <= r <= 2 * top + 2
    ensures r in Towers(top) ==> Towers(top)[r] == if r <= 2 then Builtin(8) else Nullable(r - 2)
  {
    if top > 0 { TowersNode(top - 1, r); }
  }

  ghost predicate IsTowers(g: Graph, top: nat) {
    && WellFormed(g)
    && forall r | 1 <= r <= 2 * top + 2 :: r in g && g[r] == if r <= 2 then Builtin(8) else Nullable(r - 2)
  }

  lemma TowersShape(top: nat)
    ensures IsTowers(Towers(top), top)
  {
    var g := Towers(top);
    TowersNode(top, NULL);
    forall r <- g ensures InGraph(g, g[r]) {
      TowersNode(top, r);
      if r > 2 { TowersNode(top, r - 2); }
    }
    forall r | 1 <= r <= 2 * top + 2 ensures r in g && g[r] == if r <= 2 then Builtin(8) else Nullable(r - 2) {
      TowersNode(top, r);
    }
  }

  lemma {:induction false} TowersSameTree(top: nat, k: nat, g: Graph, a: Ref, b: Ref, n: nat)
    requires k <= top && IsTowers(g, top) && a == 2 * k + 1 && b == 2 * k + 2
    ensures Unroll(g, a, n) == Unroll(g, b, n)
    decreases n
  {
    if n > 0 {
      if k > 0 { TowersSameTree(top, k - 1, g, a - 2, b - 2, n - 1); }
      UnrollJoin(g, a, b, n);
    }
  }

  /** The pairs of layers from level `k` down. */
  function Layers(k: nat, n: nat): (stack: seq<Pair>)
    requires n <= k
    ensures |stack| == n
    ensures forall i :: 0 <= i < n ==> stack[i] == (2 * (k - i) + 1, 2 * (k - i) + 2)
  {
    seq(n, i requires 0 <= i < n => (2 * (k - i) + 1, 2 * (k - i) + 2))
  }

  lemma LayersRun(g: Graph, top: nat, k: nat, n: nat)
    requires n <= k <= top && IsTowers(g, top)
    ensures Run(g, Layers(k, n))
  {
    var path := Layers(k, n);
    forall i | 0 < i < n ensures IsArm(g, path[i - 1], path[i]) {
      var a := 2 * (k - i + 1) + 1;
      assert path[i - 1] == (a, a + 1) && path[i] == (a - 2, a - 1);
      assert Arms(g[a]) == [a - 2] && Arms(g[a + 1]) == [a - 1];
      assert path[i] == (Arms(g[a])[0], Arms(g[a + 1])[0]);
    }
  }

  lemma {:induction false} RunIsLayers(g: Graph, top: nat, k: nat, path: seq<Pair>)
    requires k <= top && IsTowers(g, top) && Run(g, path) && path != [] && path[0] == (2 * k + 1, 2 * k + 2)
    ensures |path| <= k
    decreases k
  {
    assert Pushed(g, path[0]);
    assert k > 0;
    if |path| > 1 {
      assert Arms(g[2 * k + 1]) == [2 * k - 1] && Arms(g[2 * k + 2]) == [2 * k];
      assert IsArm(g, path[0], path[1]) && path[1] == (2 * (k - 1) + 1, 2 * (k - 1) + 2);
      var rest := path[1..];
      forall i | 0 < i < |rest| ensures IsArm(g, rest[i - 1], rest[i]) {
        assert IsArm(g, path[i], path[i + 1]);
      }
      RunIsLayers(g, top, k - 1, rest);
    }
  }

  /** The bound does cut off answers: equal towers compare equal up to 512 layers only. */
  lemma TowersNeedTheBound(top: nat, k: nat, a: Ref, b: Ref)
    requires k <= top && a == 2 * k + 1 && b == 2 * k + 2
    ensures WellFormed(Towers(top)) && Points(Towers(top), a) && Points(Towers(top), b)
    ensures SameTree(Towers(top), a, b)
    ensures EqualDeep(Towers(top), a, b) <==> k <= RECURSION_LIMIT
  {
    var g := Towers(top);
    TowersShape(top);
    hide EqualDeep, Run, Towers;
    EqualDeepExact(g, a, b);
    forall n: nat ensures Unroll(g, a, n) == Unroll(g, b, n) {
      TowersSameTree(top, k, g, a, b, n);
    }
    if k > RECURSION_LIMIT {
      LayersRun(g, top, k, RECURSION_LIMIT + 1);
      assert Layers(k, RECURSION_LIMIT + 1)[0] == (a, b);
    } else if path: seq<Pair> :| |path| == RECURSION_LIMIT + 1 && path[0] == (a, b) && Run(g, path) {
      RunIsLayers(g, top, k, path);
    }
  }

  // ----- the walk itself

  /** `TypeEqualCtx`: the assumption stack, a fixed buffer filled up to `count`. */
  class EqualContext {
    const pairs: array<Pair>
    var count: nat

    ghost predicate Valid() reads this {
      pairs.Length == RECURSION_LIMIT && count <= RECURSION_LIMIT
    }

    ghost function Stack(): seq<Pair>
      requires Valid()
      reads this, pairs
    {
      pairs[..count]
    }

    constructor ()
      ensures Valid() && Stack() == [] && fresh(pairs)
    {
      pairs := new Pair[RECURSION_LIMIT](_ => (NULL, NULL));
      count := 0;
    }

    method Seen(a: Ref, b: Ref) returns (seen: bool)
      requires Valid()
      ensures seen <==> (a, b) in Stack()
    {
      for i := 0 to count
        invariant (a, b) !in pairs[..i]
      {
        if pairs[i] == (a, b) { return true; }
      }
      return false;
    }

    method Push(a: Ref, b: Ref) returns (ok: bool)
      requires Valid()
      modifies this`count, pairs
      ensures Valid()
      ensures ok == (old(count) < RECURSION_LIMIT)
      ensures Stack() == if ok then old(Stack()) + [(a, b)] else old(Stack())
    {
      if count >= RECURSION_LIMIT { return false; }
      pairs[count] := (a, b);
      count := count + 1;
      return true;
    }

    /** `type_equal_deep_inner`. */
    method EqualInner(g: Graph, a: Ref, b: Ref) returns (equal: bool)
      requires Valid() && WellFormed(g) && Points(g, a) && Points(g, b)
      modifies this`count, pairs
      ensures Valid() && Stack() == old(Stack())
      ensures equal <==> EqualUnder(g, a, b, Stack())
      decreases RECURSION_LIMIT - count, 5
    {
      assert NULL !in g;
      hide EqualUnder, EqualParts, WellFormed;
      UnpushedUnder(g, a, b, Stack());
      if a == b { return true; }
      if a == NULL || b == NULL || !SameKind(g[a], g[b]) { return false; }
      if g[a].Builtin? { return true; }
      var seen := Seen(a, b);
      if seen { return true; }
      equal := EqualPushed(g, a, b);
    }

    /** Compares the components of a pair while the pair is on the stack. */
    method EqualPushed(g: Graph, a: Ref, b: Ref) returns (equal: bool)
      requires Valid() && WellFormed(g) && Pushes(g, a, b, Stack())
      modifies this`count, pairs
      ensures Valid() && Stack() == old(Stack())
      ensures a in g && b in g && (equal <==> EqualUnder(g, a, b, Stack()))
      decreases RECURSION_LIMIT - count, 4
    {
      hide EqualUnder, EqualParts, WellFormed;
      PushedUnder(g, a, b, Stack());
      var pushed := Push(a, b);
      if !pushed { return false; }
      var mark := count - 1;
      equal := EqualPayload(g, a, b);
      count := mark;
    }

    /** The `switch` of `type_equal_deep_inner`, once the pair is on the stack. */
    method EqualPayload(g: Graph, a: Ref, b: Ref) returns (equal: bool)
      requires Valid() && WellFormed(g) && a in g && b in g && 0 < count
      requires a != b && SameKind(g[a], g[b]) && !g[a].Builtin?
      modifies this`count, pairs
      ensures Valid() && Stack() == old(Stack())
      ensures equal <==> EqualParts(g, a, b, Stack())
      decreases RECURSION_LIMIT - count, 8
    {
      assert InGraph(g, g[a]) && InGraph(g, g[b]);
      match g[a]
      case Nullable(inner) =>
        NullablesCompared(g, a, b, Stack());
        equal := EqualInner(g, inner, g[b].inner);
      case Function(_, _, _, _) =>
        equal := EqualFunctions(g, a, b);
      case Named(name, args, decl, _) =>
        if name != g[b].name || |args| != |g[b].args| || decl != g[b].decl { return false; }
        equal := EqualItems(g, args, g[b].args);
      case Param(name, index, decl) =>
        equal := index == g[b].index && decl == g[b].decl && name == g[b].name;
      case Record(_, _) =>
        equal := EqualRecords(g, a, b);
      case User(_) =>
        equal := false;
    }

    method EqualFunctions(g: Graph, a: Ref, b: Ref) returns (equal: bool)
      requires Valid() && WellFormed(g) && a in g && b in g && 0 < count
      requires g[a].Function? && g[b].Function?
      modifies this`count, pairs
      ensures Valid() && Stack() == old(Stack())
      ensures equal <==> EqualParts(g, a, b, Stack())
      decreases RECURSION_LIMIT - count, 7
    {
      var fa, fb := g[a], g[b];
      FunctionsCompared(g, a, b, Stack());
      if fa.flags != fb.flags || |fa.params| != |fb.params| { return false; }
      equal := EqualInner(g, fa.receiver, fb.receiver);
      if !equal { return; }
      equal := EqualInner(g, fa.ret, fb.ret);
      if !equal { return; }
      equal := EqualItems(g, fa.params, fb.params);
    }

    method EqualRecords(g: Graph, a: Ref, b: Ref) returns (equal: bool)
      requires Valid() && WellFormed(g) && a in g && b in g && 0 < count
      requires g[a].Record? && g[b].Record?
      modifies this`count, pairs
      ensures Valid() && Stack() == old(Stack())
      ensures equal <==> EqualParts(g, a, b, Stack())
      decreases RECURSION_LIMIT - count, 7
    {
      var ra, rb := g[a], g[b];
      RecordsCompared(g, a, b, Stack());
      if |ra.positional| != |rb.positional| || |ra.named| != |rb.named| { return false; }
      equal := EqualItems(g, ra.positional, rb.positional);
      if !equal { return; }
      equal := EqualFields(g, ra.named, rb.named);
    }

    method EqualFields(g: Graph, xs: seq<Field>, ys: seq<Field>) returns (equal: bool)
      requires Valid() && WellFormed(g) && 0 < count && |xs| == |ys|
      requires PointsAll(g, FieldTypes(xs)) && PointsAll(g, FieldTypes(ys))
      modifies this`count, pairs
      ensures Valid() && Stack() == old(Stack())
      ensures equal <==> FieldNames(xs) == FieldNames(ys) && ItemsEqual(g, FieldTypes(xs), FieldTypes(ys), Stack())
      decreases RECURSION_LIMIT - count, 6
    {
      ghost var ts, us := FieldTypes(xs), FieldTypes(ys);
      for i := 0 to |xs|
        invariant Valid() && Stack() == old(Stack())
        invariant forall j :: 0 <= j < i ==> FieldNames(xs)[j] == FieldNames(ys)[j]
        invariant ItemsEqual(g, ts, us, Stack()) <==> ItemsEqual(g, ts[i..], us[i..], Stack())
      {
        if xs[i].name != ys[i].name {
          assert FieldNames(xs)[i] != FieldNames(ys)[i];
          return false;
        }
        assert ts[i] in ts && us[i] in us;
        equal := EqualInner(g, xs[i].ty, ys[i].ty);
        if !equal { return; }
      }
      assert FieldNames(xs) == FieldNames(ys);
      equal := true;
    }

    /** One of the component loops. */
    method EqualItems(g: Graph, xs: seq<Ref>, ys: seq<Ref>) returns (equal: bool)
      requires Valid() && WellFormed(g) && 0 < count && |xs| == |ys|
      requires PointsAll(g, xs) && PointsAll(g, ys)
      modifies this`count, pairs
      ensures Valid() && Stack() == old(Stack())
      ensures equal <==> ItemsEqual(g, xs, ys, Stack())
      decreases RECURSION_LIMIT - count, 6
    {
      for i := 0 to |xs|
        invariant Valid() && Stack() == old(Stack())
        invariant ItemsEqual(g, xs, ys, Stack()) <==> ItemsEqual(g, xs[i..], ys[i..], Stack())
      {
        equal := EqualInner(g, xs[i], ys[i]);
        if !equal { return; }
      }
      equal := true;
    }
  }

  lemma {:induction false} ItemsEqualConcat(g: Graph, xs: seq<Ref>, ys: seq<Ref>, xs': seq<Ref>, ys': seq<Ref>,
                                            stack: seq<Pair>)
    requires WellFormed(g) && PointsAll(g, xs) && PointsAll(g, ys) && PointsAll(g, xs') && PointsAll(g, ys')
    requires |stack| <= RECURSION_LIMIT && |xs| == |ys|
    ensures PointsAll(g, xs + xs') && PointsAll(g, ys + ys')
    ensures ItemsEqual(g, xs + xs', ys + ys', stack) <==> ItemsEqual(g, xs, ys, stack) && ItemsEqual(g, xs', ys', stack)
  {
    if xs == [] {
      assert xs + xs' == xs' && ys + ys' == ys';
    } else {
      assert (xs + xs')[1..] == xs[1..] + xs' && (ys + ys')[1..] == ys[1..] + ys';
      ItemsEqualConcat(g, xs[1..], ys[1..], xs', ys', stack);
    }
  }

  lemma ItemsEqualOne(g: Graph, x: Ref, y: Ref, stack: seq<Pair>)
    requires WellFormed(g) && Points(g, x) && Points(g, y)
    ensures PointsAll(g, [x]) && PointsAll(g, [y])
    ensures ItemsEqual(g, [x], [y], stack) <==> EqualUnder(g, x, y, stack)
  {
    assert [x][1..] == [] && [y][1..] == [];
  }

  lemma NullablesCompared(g: Graph, a: Ref, b: Ref, stack: seq<Pair>)
    requires WellFormed(g) && a in g && b in g && g[a].Nullable? && g[b].Nullable?
    requires 0 < |stack| <= RECURSION_LIMIT
    ensures InGraph(g, g[a]) && InGraph(g, g[b]) && Points(g, g[a].inner) && Points(g, g[b].inner)
    ensures EqualParts(g, a, b, stack) <==> EqualUnder(g, g[a].inner, g[b].inner, stack)
  {
    ItemsEqualOne(g, g[a].inner, g[b].inner, stack);
  }

  lemma FunctionsCompared(g: Graph, a: Ref, b: Ref, stack: seq<Pair>)
    requires WellFormed(g) && a in g && b in g && g[a].Function? && g[b].Function?
    requires 0 < |stack| <= RECURSION_LIMIT
    ensures Points(g, g[a].receiver) && Points(g, g[a].ret) && PointsAll(g, g[a].params)
    ensures Points(g, g[b].receiver) && Points(g, g[b].ret) && PointsAll(g, g[b].params)
    ensures EqualParts(g, a, b, stack) <==>
            && g[a].flags == g[b].flags && |g[a].params| == |g[b].params|
            && EqualUnder(g, g[a].receiver, g[b].receiver, stack)
            && EqualUnder(g, g[a].ret, g[b].ret, stack)
            && ItemsEqual(g, g[a].params, g[b].params, stack)
  {
    FunctionPoints(g, a);
    FunctionPoints(g, b);
    var fa, fb := g[a], g[b];
    if fa.flags == fb.flags && |fa.params| == |fb.params| && (fa.receiver == NULL <==> fb.receiver == NULL) {
      var ra := if fa.receiver == NULL then [] else [fa.receiver];
      var rb := if fb.receiver == NULL then [] else [fb.receiver];
      ItemsEqualConcat(g, ra, rb, fa.params, fb.params, stack);
      ItemsEqualConcat(g, ra + fa.params, rb + fb.params, [fa.ret], [fb.ret], stack);
      ItemsEqualOne(g, fa.ret, fb.ret, stack);
      if fa.receiver != NULL { ItemsEqualOne(g, fa.receiver, fb.receiver, stack); }
    }
  }

  lemma RecordsCompared(g: Graph, a: Ref, b: Ref, stack: seq<Pair>)
    requires WellFormed(g) && a in g && b in g && g[a].Record? && g[b].Record?
    requires 0 < |stack| <= RECURSION_LIMIT
    ensures PointsAll(g, g[a].positional) && PointsAll(g, FieldTypes(g[a].named))
    ensures PointsAll(g, g[b].positional) && PointsAll(g, FieldTypes(g[b].named))
    ensures EqualParts(g, a, b, stack) <==>
            && |g[a].positional| == |g[b].positional| && |g[a].named| == |g[b].named|
            && ItemsEqual(g, g[a].positional, g[b].positional, stack)
            && FieldNames(g[a].named) == FieldNames(g[b].named)
            && ItemsEqual(g, FieldTypes(g[a].named), FieldTypes(g[b].named), stack)
  {
    RecordPoints(g, a);
    RecordPoints(g, b);
    var ra, rb := g[a], g[b];
    assert FieldNames(ra.named) == FieldNames(rb.named) ==> |ra.named| == |rb.named|;
    if |ra.positional| == |rb.positional| {
      ItemsEqualConcat(g, ra.positional, rb.positional, FieldTypes(ra.named), FieldTypes(rb.named), stack);
    }
  }

  /** `kavak_ty_equal_deep`. */
  method EqualDeepWalk(g: Graph, a: Ref, b: Ref) returns (equal: bool)
    requires WellFormed(g) && Points(g, a) && Points(g, b)
    ensures equal <==> EqualDeep(g, a, b)
  {
    var ctx := new EqualContext();
    equal := ctx.EqualInner(g, a, b);
  }
}
