/**
 When strict unification succeeds: exactly if a matcher exists, the pattern is within the
 bound, and the parameters it meets can all be settled.
*/
module TypeMatching {
  import opened TypeGraph
  import opened TypeEquality
  import opened TypeSubstitution
  import opened TypeUnification

  // ----- exactness: where names settle declarations, nothing is left out

  /** No component leads out of `nodes`. */
  ghost predicate Closed(g: Graph, nodes: set<Ref>) {
    forall r, a | r in nodes && r in g && a in Arms(g[r]) :: a in nodes
  }

  /** Within `nodes`, names settle declarations, and no two user-kind nodes share their kind. */
  ghost predicate NamesDecide(g: Graph, nodes: set<Ref>) {
    && Closed(g, nodes)
    && forall a, b | a in nodes && b in nodes && a in g && b in g ::
         Erase(HeadOf(a, g[a])) == Erase(HeadOf(b, g[b])) ==> HeadOf(a, g[a]) == HeadOf(b, g[b])
  }

  ghost predicate BoundWithin(s: Bindings, nodes: set<Ref>) {
    forall b <- s :: b.replacement in nodes
  }

  lemma FirstForWithin(s: Bindings, p: Ref, nodes: set<Ref>)
    requires BoundWithin(s, nodes)
    ensures FirstFor(s, p) == NULL || FirstFor(s, p) in nodes
  {
  }

  lemma ErasedParts(t: Tree, u: Tree)
    requires Erased(t) == Erased(u)
    ensures (t.Cut? <==> u.Cut?) && (t.Nil? <==> u.Nil?)
    ensures t.Node? ==> Erase(t.head) == Erase(u.head) && |t.kids| == |u.kids|
    ensures t.Node? ==> forall i :: 0 <= i < |t.kids| ==> Erased(t.kids[i]) == Erased(u.kids[i])
  {
    if t.Node? {
      forall i | 0 <= i < |t.kids| ensures Erased(t.kids[i]) == Erased(u.kids[i]) {
        assert Erased(t.kids[i]) == Erased(t).kids[i] == Erased(u).kids[i] == Erased(u.kids[i]);
      }
    }
  }

  lemma SameNode(t: Tree, u: Tree)
    requires t.Node? && u.Node? && t.head == u.head && |t.kids| == |u.kids|
    requires forall i :: 0 <= i < |t.kids| ==> t.kids[i] == u.kids[i]
    ensures t == u
  {
    assert t.kids == u.kids;
  }

  lemma NullUnrolls(g: Graph, r: Ref, n: nat)
    ensures Unroll(g, r, n).Node? <==> n > 0 && r in g
    ensures Unroll(g, r, n).Cut? <==> n == 0
  {
  }

  lemma {:induction false} ErasedDecides(g: Graph, a: Ref, b: Ref, nodes: set<Ref>, n: nat)
    requires NamesDecide(g, nodes) && a in nodes && b in nodes
    ensures Erased(Unroll(g, a, n)) == Erased(Unroll(g, b, n)) ==> Unroll(g, a, n) == Unroll(g, b, n)
    decreases n
  {
    hide Erased, Erase, HeadOf, Arms, Unroll;
    var t, u := Unroll(g, a, n), Unroll(g, b, n);
    if Erased(t) == Erased(u) {
      ErasedParts(t, u);
      NullUnrolls(g, a, n);
      NullUnrolls(g, b, n);
      if t.Node? {
        UnrollNode(g, a, n);
        UnrollNode(g, b, n);
        forall i | 0 <= i < |t.kids| ensures t.kids[i] == u.kids[i] {
          ErasedDecides(g, Arms(g[a])[i], Arms(g[b])[i], nodes, n - 1);
        }
        SameNode(t, u);
      }
    }
  }

  /** A fit within `nodes` is an exact one. */
  lemma {:induction false} FitsExactly(g: Graph, p: Ref, c: Ref, s: Bindings, nodes: set<Ref>, depth: nat, n: nat)
    requires NamesDecide(g, nodes) && p in nodes && c in nodes && BoundWithin(s, nodes)
    ensures Fits(g, p, c, s, depth, n) ==> UnrollSubst(g, p, s, depth, n) == Unroll(g, c, n)
    decreases n
  {
    hide Erased, Erase, HeadOf, Arms, Unroll, FirstFor, StopsAt;
    var t, u := UnrollSubst(g, p, s, depth, n), Unroll(g, c, n);
    if Erased(t) == Erased(u) {
      ErasedParts(t, u);
      NullUnrolls(g, c, n);
      FirstForWithin(s, p, nodes);
      if n > 0 && p in g {
        if Lookup(g, p, s) != NULL {
          ErasedDecides(g, Lookup(g, p, s), c, nodes, n);
        } else if StopsAt(g[p], s, depth) {
          ErasedDecides(g, p, c, nodes, n);
        } else {
          NodeFitsExactly(g, p, c, s, nodes, depth, n);
        }
      }
    }
  }

  lemma {:induction false} NodeFitsExactly(g: Graph, p: Ref, c: Ref, s: Bindings, nodes: set<Ref>, depth: nat, n: nat)
    requires NamesDecide(g, nodes) && p in nodes && c in nodes && BoundWithin(s, nodes)
    requires n > 0 && p in g && Lookup(g, p, s) == NULL && !StopsAt(g[p], s, depth)
    ensures Fits(g, p, c, s, depth, n) ==> UnrollSubst(g, p, s, depth, n) == Unroll(g, c, n)
    decreases n, 0
  {
    hide Erased, Erase, HeadOf, Arms, Unroll, UnrollSubst, FirstFor, Lookup;
    var t, u := UnrollSubst(g, p, s, depth, n), Unroll(g, c, n);
    if Erased(t) == Erased(u) {
      ErasedParts(t, u);
      NullUnrolls(g, c, n);
      SubstNode(g, p, s, depth, n);
      UnrollNode(g, c, n);
      forall i | 0 <= i < |t.kids| ensures t.kids[i] == u.kids[i] {
        FitsExactly(g, Arms(g[p])[i], Arms(g[c])[i], s, nodes, depth + 1, n - 1);
      }
      SameNode(t, u);
    }
  }

  /** Strict unification binds parameters to nodes it reaches from the concrete type. */
  lemma {:induction false} StrictBindsWithin(g: Graph, p: Ref, c: Ref, s: Bindings, cap: nat, depth: nat,
                                             nodes: set<Ref>)
    requires WellFormed(g) && Points(g, p) && Points(g, c) && BindingsIn(g, s)
    requires Closed(g, nodes) && c in nodes && BoundWithin(s, nodes)
    ensures BoundWithin(Strict(g, p, c, s, cap, depth).1, nodes)
    decreases RECURSION_LIMIT - depth, 0
  {
    hide Arms, Label, Mentions, EqualDeep, Bound, FirstFor;
    if depth < RECURSION_LIMIT && p != NULL && c != NULL && !g[p].Param? && HeadsFit(g[p], g[c]) {
      HeadsFitArity(g[p], g[c]);
      StrictArmsBindWithin(g, p, c, 0, s, cap, depth, nodes);
    }
  }

  lemma {:induction false} StrictArmsBindWithin(g: Graph, p: Ref, c: Ref, i: nat, s: Bindings, cap: nat, depth: nat,
                                                nodes: set<Ref>)
    requires WellFormed(g) && p in g && c in g && BindingsIn(g, s)
    requires |Arms(g[p])| == |Arms(g[c])| && depth < RECURSION_LIMIT
    requires Closed(g, nodes) && c in nodes && BoundWithin(s, nodes)
    ensures BoundWithin(StrictArms(g, p, c, i, s, cap, depth).1, nodes)
    decreases RECURSION_LIMIT - depth - 1, |Arms(g[p])| + 1 - i
  {
    hide Arms, Label, Strict;
    if i < |Arms(g[p])| && Label(g[p], i) == Label(g[c], i) {
      assert InGraph(g, g[p]) && InGraph(g, g[c]);
      var r := Strict(g, Arms(g[p])[i], Arms(g[c])[i], s, cap, depth + 1);
      StrictBindsWithin(g, Arms(g[p])[i], Arms(g[c])[i], s, cap, depth + 1, nodes);
      if r.0 == OK {
        StrictArmsBindWithin(g, p, c, i + 1, r.1, cap, depth, nodes);
      }
    }
  }

  /**
   Where names settle declarations among the nodes reachable from the pattern, the
   concrete type and the given bindings, the match is exact.
  */
  lemma StrictSoundExactly(g: Graph, p: Ref, c: Ref, s: Bindings, cap: nat, nodes: set<Ref>)
    requires WellFormed(g) && Points(g, p) && Points(g, c) && BindingsIn(g, s)
    requires NamesDecide(g, nodes) && p in nodes && c in nodes && BoundWithin(s, nodes)
    requires Strict(g, p, c, s, cap, 0).0 == OK
    ensures Denotes(g, c, g, p, Strict(g, p, c, s, cap, 0).1, 0)
  {
    hide Strict, Unroll, UnrollSubst, Erased, Erase, HeadOf, Arms;
    var t := Strict(g, p, c, s, cap, 0).1;
    StrictBindsWithin(g, p, c, s, cap, 0, nodes);
    forall n: nat ensures Unroll(g, c, n) == UnrollSubst(g, p, t, 0, n) {
      StrictSound(g, p, c, s, cap, n);
      FitsExactly(g, p, c, t, nodes, 0, n);
    }
  }

  // ----- completeness: what can be matched is matched, in the only way there is

  /** `m` turns the pattern into the concrete type. */
  ghost predicate IsMatcher(g: Graph, p: Ref, c: Ref, m: Bindings) {
    BindingsIn(g, m) && Denotes(g, c, g, p, m, 0)
  }

  /** The parameters met by a walk over `n` levels of the pattern, in its order, each with the node opposite to it. */
  function Met(g: Graph, p: Ref, c: Ref, n: nat): Bindings
    decreases n, 1, 0
  {
    if n == 0 || p !in g then []
    else if g[p].Param? then [Binding(p, c)]
    else if c !in g then []
    else MetArms(g, Arms(g[p]), Arms(g[c]), n - 1)
  }

  function MetArms(g: Graph, xs: seq<Ref>, ys: seq<Ref>, n: nat): Bindings
    decreases n, 2, |xs|
  {
    if xs == [] || ys == [] then []
    else Met(g, xs[0], ys[0], n) + MetArms(g, xs[1..], ys[1..], n)
  }

  function Params(met: Bindings): set<Ref> {
    set b | b in met :: b.param
  }

  /** No parameter is mentioned by the node it is met with first. */
  ghost predicate NoneOccurs(g: Graph, met: Bindings) {
    forall b <- met :: !Mentions(g, FirstFor(met, b.param), b.param, 0)
  }

  /** What a parameter is met with later can be compared with what it was met with first. */
  ghost predicate AllComparable(g: Graph, met: Bindings) {
    forall b <- met :: !OutgrowsStack(g, FirstFor(met, b.param), b.replacement)
  }

  /** The parameters met can be bound: no occurs check fails, comparisons have room, and there is a slot for each. */
  ghost predicate Settleable(g: Graph, met: Bindings, cap: nat) {
    NoneOccurs(g, met) && AllComparable(g, met) && |Params(met)| <= cap
  }

  /** Each parameter with what it is met with first. */
  function Firsts(met: Bindings): Bindings {
    if met == [] then []
    else
      var rest, b := met[..|met| - 1], met[|met| - 1];
      if Bound(rest, b.param) then Firsts(rest) else Firsts(rest) + [b]
  }

  // ----- the first binding of a parameter

  lemma {:induction false} FirstForFound(s: Bindings, p: Ref)
    requires Bound(s, p)
    ensures Binding(p, FirstFor(s, p)) in s
  {
    if s[0].param != p {
      assert Bound(s[1..], p);
      FirstForFound(s[1..], p);
    } else {
      assert s[0] == Binding(p, FirstFor(s, p));
    }
  }

  lemma {:induction false} FirstForJoin(s: Bindings, t: Bindings, x: Ref)
    ensures FirstFor(s + t, x) == if Bound(s, x) then FirstFor(s, x) else FirstFor(t, x)
    ensures Bound(s + t, x) <==> Bound(s, x) || Bound(t, x)
    decreases |s|
  {
    assert forall b :: b in s + t <==> b in s || b in t;
    if s == [] {
      assert s + t == t;
    } else {
      assert (s + t)[1..] == s[1..] + t;
      FirstForJoin(s[1..], t, x);
    }
  }

  lemma {:induction false} FirstsMeaning(met: Bindings, x: Ref)
    ensures Bound(Firsts(met), x) <==> Bound(met, x)
    ensures FirstFor(Firsts(met), x) == FirstFor(met, x)
    decreases |met|
  {
    if met != [] {
      var rest, b := met[..|met| - 1], met[|met| - 1];
      assert met == rest + [b];
      FirstsMeaning(rest, x);
      BoundIfFound(rest, x);
      FirstForJoin(rest, [b], x);
      FirstForJoin(Firsts(rest), [b], x);
    }
  }

  lemma {:induction false} FirstsSize(met: Bindings)
    ensures |Firsts(met)| == |Params(met)| && DistinctKeys(Firsts(met))
    ensures forall b <- Firsts(met) :: b in met
    decreases |met|
  {
    if met != [] {
      var rest, b := met[..|met| - 1], met[|met| - 1];
      assert met == rest + [b];
      FirstsSize(rest);
      assert Params(met) == Params(rest) + {b.param};
      assert Bound(rest, b.param) <==> b.param in Params(rest);
    }
  }

  // ----- settling the parameters one by one

  /** After `done`, the walk gets past meeting `b`. */
  ghost predicate Passes(g: Graph, done: Bindings, b: Binding, cap: nat) {
    if Bound(done, b.param) then !OutgrowsStack(g, FirstFor(done, b.param), b.replacement)
    else !Mentions(g, b.replacement, b.param, 0) && |Params(done)| < cap
  }

  ghost predicate Settled(g: Graph, done: Bindings, met: Bindings, cap: nat)
    decreases |met|
  {
    met == [] || (Passes(g, done, met[0], cap) && Settled(g, done + [met[0]], met[1..], cap))
  }

  lemma {:induction false} SettledJoin(g: Graph, done: Bindings, a: Bindings, b: Bindings, cap: nat)
    ensures Settled(g, done, a + b, cap) <==> Settled(g, done, a, cap) && Settled(g, done + a, b, cap)
    decreases |a|
  {
    hide Passes;
    if a == [] {
      assert a + b == b && done + a == done;
    } else {
      assert (a + b)[1..] == a[1..] + b && done + [a[0]] + a[1..] == done + a;
      SettledJoin(g, done + [a[0]], a[1..], b, cap);
    }
  }

  lemma SettledOne(g: Graph, done: Bindings, b: Binding, cap: nat)
    ensures Settled(g, done, [b], cap) <==> Passes(g, done, b, cap)
  {
    hide Passes;
    assert [b][1..] == [];
  }

  /** Every parameter was met with what `m` makes of it. */
  ghost predicate Agrees(g: Graph, met: Bindings, m: Bindings) {
    forall b <- met :: BindingAgrees(g, b, m)
  }

  ghost predicate BindingAgrees(g: Graph, b: Binding, m: Bindings) {
    b.param in g && g[b.param].Param? && b.replacement in g && Denotes(g, b.replacement, g, b.param, m, 0)
  }

  lemma FirstsIn(g: Graph, done: Bindings, m: Bindings)
    requires Agrees(g, done, m)
    ensures BindingsIn(g, Firsts(done))
  {
    hide Denotes;
    FirstsSize(done);
    forall b <- Firsts(done) ensures Points(g, b.replacement) { assert BindingAgrees(g, b, m); }
  }

  lemma ParamAnyDepth(g: Graph, p: Ref, m: Bindings, depth: nat, n: nat)
    requires p in g && g[p].Param?
    ensures UnrollSubst(g, p, m, depth, n) == UnrollSubst(g, p, m, 0, n)
  {
    if n > 0 && Lookup(g, p, m) == NULL {
      assert Unroll(g, p, n).kids == [];
      assert forall d :: UnrollSubst(g, p, m, d, n).Node? && UnrollSubst(g, p, m, d, n).kids == [];
    }
  }

  /** Two nodes that match the same parameter under the same substitution have the same tree. */
  lemma MatchersAgree(g: Graph, a: Ref, b: Ref, p: Ref, m: Bindings, depth: nat)
    requires p in g && g[p].Param?
    requires Denotes(g, a, g, p, m, 0) && Denotes(g, b, g, p, m, depth)
    ensures SameTree(g, a, b)
  {
    forall n: nat ensures Unroll(g, a, n) == Unroll(g, b, n) {
      ParamAnyDepth(g, p, m, depth, n);
    }
  }

  /** `m` turns what is left of the pattern into what is left of the concrete type. */
  ghost predicate Opposite(g: Graph, p: Ref, c: Ref, m: Bindings, depth: nat) {
    && WellFormed(g) && Points(g, p) && Points(g, c) && BindingsIn(g, m) && depth <= RECURSION_LIMIT
    && Denotes(g, c, g, p, m, depth)
  }

  lemma ReplacementIn(g: Graph, p: Ref, m: Bindings)
    requires BindingsIn(g, m)
    ensures Lookup(g, p, m) == NULL || Lookup(g, p, m) in g
  {
    if Lookup(g, p, m) != NULL {
      BoundIfFound(m, p);
      FirstForFound(m, p);
    }
  }

  lemma {:induction false} BoundIfFound(s: Bindings, p: Ref)
    ensures !Bound(s, p) ==> FirstFor(s, p) == NULL
    decreases |s|
  {
    if s != [] {
      BoundIfFound(s[1..], p);
      assert s[0] in s && forall b <- s[1..] :: b in s;
    }
  }

  lemma OppositeIn(g: Graph, p: Ref, c: Ref, m: Bindings, depth: nat)
    requires Opposite(g, p, c, m, depth) && p in g
    ensures c in g
  {
    ReplacementIn(g, p, m);
    assert Unroll(g, c, 1) == UnrollSubst(g, p, m, depth, 1);
    assert UnrollSubst(g, p, m, depth, 1).Node?;
  }

  lemma MatchedHead(g: Graph, p: Ref, c: Ref, m: Bindings, depth: nat)
    requires c in g && Denotes(g, c, g, p, m, depth) && depth < RECURSION_LIMIT
    requires p in g ==> !g[p].Param?
    ensures p in g && HeadOf(p, g[p]) == HeadOf(c, g[c]) && |Arms(g[p])| == |Arms(g[c])|
  {
    assert Unroll(g, c, 1) == UnrollSubst(g, p, m, depth, 1);
    UnrollNode(g, c, 1);
    SubstNode(g, p, m, depth, 1);
  }

  lemma MatchedArm(g: Graph, p: Ref, c: Ref, m: Bindings, depth: nat, i: nat)
    requires c in g && p in g && Denotes(g, c, g, p, m, depth) && depth < RECURSION_LIMIT && !g[p].Param?
    requires i < |Arms(g[p])| == |Arms(g[c])|
    ensures Denotes(g, Arms(g[c])[i], g, Arms(g[p])[i], m, depth + 1)
  {
    hide Arms, HeadOf, Unroll, UnrollSubst;
    forall n: nat ensures Unroll(g, Arms(g[c])[i], n) == UnrollSubst(g, Arms(g[p])[i], m, depth + 1, n) {
      assert Unroll(g, c, n + 1) == UnrollSubst(g, p, m, depth, n + 1);
      UnrollNode(g, c, n + 1);
      SubstNode(g, p, m, depth, n + 1);
      assert Unroll(g, c, n + 1).kids[i] == UnrollSubst(g, p, m, depth, n + 1).kids[i];
    }
  }

  lemma EqualHeadsFit(p: Ref, tp: TypeInfo, c: Ref, tc: TypeInfo)
    requires HeadOf(p, tp) == HeadOf(c, tc)
    ensures HeadsFit(tp, tc) && forall i :: Label(tp, i) == Label(tc, i)
  {
    if tp.Record? {
      assert |FieldNames(tp.named)| == |FieldNames(tc.named)|;
      forall i: nat ensures Label(tp, i) == Label(tc, i) {
        var j := i - |tp.positional|;
        if 0 <= j < |tp.named| {
          assert FieldNames(tp.named)[j] == FieldNames(tc.named)[j];
        }
      }
    }
  }

  lemma OppositeParts(g: Graph, p: Ref, c: Ref, m: Bindings, depth: nat)
    requires Opposite(g, p, c, m, depth) && p in g && !g[p].Param? && depth < RECURSION_LIMIT
    ensures c in g && HeadOf(p, g[p]) == HeadOf(c, g[c]) && |Arms(g[p])| == |Arms(g[c])|
    ensures forall i :: 0 <= i < |Arms(g[p])| ==> Opposite(g, Arms(g[p])[i], Arms(g[c])[i], m, depth + 1)
  {
    hide Denotes, HeadOf, Arms;
    OppositeIn(g, p, c, m, depth);
    MatchedHead(g, p, c, m, depth);
    forall i | 0 <= i < |Arms(g[p])| ensures Opposite(g, Arms(g[p])[i], Arms(g[c])[i], m, depth + 1) {
      assert InGraph(g, g[p]) && InGraph(g, g[c]);
      assert Arms(g[p])[i] in Arms(g[p]) && Arms(g[c])[i] in Arms(g[c]);
      MatchedArm(g, p, c, m, depth, i);
    }
  }

  lemma ParamAgrees(g: Graph, p: Ref, c: Ref, m: Bindings, depth: nat)
    requires Opposite(g, p, c, m, depth) && p in g && g[p].Param?
    ensures BindingAgrees(g, Binding(p, c), m)
  {
    OppositeIn(g, p, c, m, depth);
    forall n: nat ensures Unroll(g, c, n) == UnrollSubst(g, p, m, 0, n) {
      ParamAnyDepth(g, p, m, depth, n);
    }
  }

  lemma ParamSettles(g: Graph, p: Ref, c: Ref, m: Bindings, done: Bindings, cap: nat, depth: nat)
    requires Opposite(g, p, c, m, depth) && Agrees(g, done, m) && p in g && g[p].Param? && c in g
    ensures BindingsIn(g, Firsts(done))
    ensures var r := StrictParam(g, p, c, Firsts(done), cap);
            && (r.0 == OK <==> Passes(g, done, Binding(p, c), cap))
            && (r.0 == OK ==> r.1 == Firsts(done + [Binding(p, c)]))
  {
    hide Denotes, EqualDeep, OutgrowsStack, Mentions;
    FirstsIn(g, done, m);
    FirstsMeaning(done, p);
    FirstsSize(done);
    assert (done + [Binding(p, c)])[..|done|] == done;
    if Bound(done, p) {
      FirstForFound(done, p);
      var r := FirstFor(done, p);
      assert BindingAgrees(g, Binding(p, r), m);
      MatchersAgree(g, r, c, p, m, depth);
      EqualDeepExact(g, r, c);
    }
  }

  ghost predicate AllFinite(g: Graph, xs: seq<Ref>, n: nat) {
    forall x <- xs :: Finite(g, x, n)
  }

  lemma AgreesJoin(g: Graph, a: Bindings, b: Bindings, m: Bindings)
    ensures Agrees(g, a, m) && Agrees(g, b, m) ==> Agrees(g, a + b, m)
  {
    hide BindingAgrees;
  }

  /** The walk answered OK just when nothing was too deep and everything met could be settled. */
  ghost predicate Outcome(g: Graph, r: (UnifyResult, Bindings), finite: bool, done: Bindings, met: Bindings, cap: nat) {
    && (r.0 == OK <==> finite && Settled(g, done, met, cap))
    && (r.0 == OK ==> r.1 == Firsts(done + met))
  }

  /** What the walk answers for a pattern that `m` matches, after it has met `done`. */
  ghost predicate Settles(g: Graph, p: Ref, c: Ref, m: Bindings, done: Bindings, cap: nat, depth: nat)
    requires WellFormed(g) && Points(g, p) && Points(g, c) && depth <= RECURSION_LIMIT
  {
    var n := RECURSION_LIMIT - depth;
    var met := Met(g, p, c, n);
    && BindingsIn(g, Firsts(done)) && Agrees(g, met, m)
    && Outcome(g, Strict(g, p, c, Firsts(done), cap, depth), Finite(g, p, n), done, met, cap)
  }

  ghost predicate ArmsSettle(g: Graph, p: Ref, c: Ref, i: nat, m: Bindings, done: Bindings, cap: nat, depth: nat)
    requires WellFormed(g) && p in g && c in g && depth < RECURSION_LIMIT
    requires |Arms(g[p])| == |Arms(g[c])| && i <= |Arms(g[p])|
  {
    var n := RECURSION_LIMIT - depth - 1;
    var met := MetArms(g, Arms(g[p])[i..], Arms(g[c])[i..], n);
    && BindingsIn(g, Firsts(done)) && Agrees(g, met, m)
    && Outcome(g, StrictArms(g, p, c, i, Firsts(done), cap, depth), AllFinite(g, Arms(g[p])[i..], n), done, met, cap)
  }

  lemma {:induction false} StrictSettles(g: Graph, p: Ref, c: Ref, m: Bindings, done: Bindings, cap: nat, depth: nat)
    requires Opposite(g, p, c, m, depth) && Agrees(g, done, m)
    ensures Settles(g, p, c, m, done, cap, depth)
    decreases RECURSION_LIMIT - depth, 1, 0
  {
    FirstsIn(g, done, m);
    if p !in g || depth == RECURSION_LIMIT {
      NothingSettles(g, p, c, m, done, cap, depth);
    } else if g[p].Param? {
      OppositeIn(g, p, c, m, depth);
      OneSettles(g, p, c, m, done, cap, depth);
    } else {
      OppositeParts(g, p, c, m, depth);
      StrictArmsSettle(g, p, c, 0, m, done, cap, depth);
      NodeSettles(g, p, c, m, done, cap, depth);
    }
  }

  lemma NothingSettles(g: Graph, p: Ref, c: Ref, m: Bindings, done: Bindings, cap: nat, depth: nat)
    requires Opposite(g, p, c, m, depth) && BindingsIn(g, Firsts(done))
    requires p !in g || depth == RECURSION_LIMIT
    ensures Settles(g, p, c, m, done, cap, depth)
  {
    hide Denotes;
  }

  lemma OneSettles(g: Graph, p: Ref, c: Ref, m: Bindings, done: Bindings, cap: nat, depth: nat)
    requires Opposite(g, p, c, m, depth) && Agrees(g, done, m) && p in g && c in g && g[p].Param?
    requires depth < RECURSION_LIMIT
    ensures Settles(g, p, c, m, done, cap, depth)
  {
    hide Denotes, Passes, StrictParam, Firsts, Settled, BindingAgrees, Mentions;
    ParamAgrees(g, p, c, m, depth);
    ParamSettles(g, p, c, m, done, cap, depth);
    SettledOne(g, done, Binding(p, c), cap);
  }

  lemma NodeSettles(g: Graph, p: Ref, c: Ref, m: Bindings, done: Bindings, cap: nat, depth: nat)
    requires WellFormed(g) && p in g && c in g && !g[p].Param? && depth < RECURSION_LIMIT
    requires HeadOf(p, g[p]) == HeadOf(c, g[c]) && |Arms(g[p])| == |Arms(g[c])|
    requires ArmsSettle(g, p, c, 0, m, done, cap, depth)
    ensures Settles(g, p, c, m, done, cap, depth)
  {
    EqualHeadsFit(p, g[p], c, g[c]);
    hide Denotes, Settled, StrictArms, Firsts, Agrees, HeadsFit, HeadOf, Arms;
    assert Arms(g[p])[0..] == Arms(g[p]) && Arms(g[c])[0..] == Arms(g[c]);
  }

  lemma {:induction false} StrictArmsSettle(g: Graph, p: Ref, c: Ref, i: nat, m: Bindings, done: Bindings, cap: nat,
                                            depth: nat)
    requires WellFormed(g) && p in g && c in g && depth < RECURSION_LIMIT && Agrees(g, done, m)
    requires HeadOf(p, g[p]) == HeadOf(c, g[c]) && |Arms(g[p])| == |Arms(g[c])| && i <= |Arms(g[p])|
    requires forall j :: i <= j < |Arms(g[p])| ==> Opposite(g, Arms(g[p])[j], Arms(g[c])[j], m, depth + 1)
    ensures ArmsSettle(g, p, c, i, m, done, cap, depth)
    decreases RECURSION_LIMIT - depth - 1, 2, |Arms(g[p])| - i
  {
    hide Opposite, Agrees, Settles, ArmsSettle, HeadOf, Arms;
    FirstsIn(g, done, m);
    if i == |Arms(g[p])| {
      StrictArmsDone(g, p, c, i, Firsts(done), cap, depth);
      NoArmsSettle(g, p, c, i, m, done, cap, depth);
    } else {
      var x, y := Arms(g[p])[i], Arms(g[c])[i];
      StrictSettles(g, x, y, m, done, cap, depth + 1);
      var done' := done + Met(g, x, y, RECURSION_LIMIT - depth - 1);
      ArmAgrees(g, x, y, m, done, cap, depth + 1);
      StrictArmsSettle(g, p, c, i + 1, m, done', cap, depth);
      ArmsSettleStep(g, p, c, i, m, done, cap, depth);
    }
  }

  lemma NoArmsSettle(g: Graph, p: Ref, c: Ref, i: nat, m: Bindings, done: Bindings, cap: nat, depth: nat)
    requires WellFormed(g) && p in g && c in g && depth < RECURSION_LIMIT && BindingsIn(g, Firsts(done))
    requires i == |Arms(g[p])| == |Arms(g[c])|
    requires StrictArms(g, p, c, i, Firsts(done), cap, depth) == (OK, Firsts(done))
    ensures ArmsSettle(g, p, c, i, m, done, cap, depth)
  {
    assert done + [] == done;
    hide Strict, StrictArms, Arms;
  }

  lemma ArmAgrees(g: Graph, x: Ref, y: Ref, m: Bindings, done: Bindings, cap: nat, depth: nat)
    requires WellFormed(g) && Points(g, x) && Points(g, y) && depth <= RECURSION_LIMIT
    requires Settles(g, x, y, m, done, cap, depth) && Agrees(g, done, m)
    ensures Agrees(g, done + Met(g, x, y, RECURSION_LIMIT - depth), m)
  {
    hide Agrees;
    AgreesJoin(g, done, Met(g, x, y, RECURSION_LIMIT - depth), m);
  }

  lemma ArmsSettleStep(g: Graph, p: Ref, c: Ref, i: nat, m: Bindings, done: Bindings, cap: nat, depth: nat)
    requires WellFormed(g) && p in g && c in g && depth < RECURSION_LIMIT
    requires HeadOf(p, g[p]) == HeadOf(c, g[c]) && |Arms(g[p])| == |Arms(g[c])| && i < |Arms(g[p])|
    requires Points(g, Arms(g[p])[i]) && Points(g, Arms(g[c])[i])
    ensures var x, y := Arms(g[p])[i], Arms(g[c])[i];
            var done' := done + Met(g, x, y, RECURSION_LIMIT - depth - 1);
            Settles(g, x, y, m, done, cap, depth + 1) && ArmsSettle(g, p, c, i + 1, m, done', cap, depth) ==>
              ArmsSettle(g, p, c, i, m, done, cap, depth)
  {
    var n := RECURSION_LIMIT - depth - 1;
    var x, y := Arms(g[p])[i], Arms(g[c])[i];
    var xs, ys := Arms(g[p])[i..], Arms(g[c])[i..];
    assert xs[1..] == Arms(g[p])[i + 1..] && ys[1..] == Arms(g[c])[i + 1..];
    var a, b := Met(g, x, y, n), MetArms(g, xs[1..], ys[1..], n);
    assert Label(g[p], i) == Label(g[c], i) by { EqualHeadsFit(p, g[p], c, g[c]); }
    MetArmsCons(g, xs, ys, n);
    AllFiniteCons(g, xs, n);
    AgreesJoin(g, a, b, m);
    hide Strict, StrictArms, Settled, Agrees, Firsts, Finite, AllFinite, Met, MetArms, Arms, HeadOf, HeadsFit, Label;
    hide WellFormed, InGraph, Points, PointsAll, BindingsIn;
    hide Outcome;
    if Settles(g, x, y, m, done, cap, depth + 1) && ArmsSettle(g, p, c, i + 1, m, done + a, cap, depth) {
      StrictArmsNext(g, p, c, i, Firsts(done), cap, depth);
      var r := Strict(g, x, y, Firsts(done), cap, depth + 1);
      var rest := StrictArms(g, p, c, i + 1, Firsts(done + a), cap, depth);
      OutcomesJoin(g, r, Finite(g, x, n), rest, AllFinite(g, xs[1..], n), done, a, b, cap);
    }
  }

  lemma OutcomesJoin(g: Graph, r: (UnifyResult, Bindings), finite: bool, rest: (UnifyResult, Bindings), finite': bool,
                     done: Bindings, a: Bindings, b: Bindings, cap: nat)
    requires Outcome(g, r, finite, done, a, cap) && Outcome(g, rest, finite', done + a, b, cap)
    ensures Outcome(g, if r.0 == OK then rest else r, finite && finite', done, a + b, cap)
  {
    hide Settled, Firsts;
    SettledJoin(g, done, a, b, cap);
    assert done + a + b == done + (a + b);
  }

  lemma MetArmsCons(g: Graph, xs: seq<Ref>, ys: seq<Ref>, n: nat)
    requires xs != [] && ys != []
    ensures MetArms(g, xs, ys, n) == Met(g, xs[0], ys[0], n) + MetArms(g, xs[1..], ys[1..], n)
  {
  }

  lemma AllFiniteCons(g: Graph, xs: seq<Ref>, n: nat)
    requires xs != []
    ensures AllFinite(g, xs, n) <==> Finite(g, xs[0], n) && AllFinite(g, xs[1..], n)
  {
    hide Finite;
    assert forall x :: x in xs <==> x == xs[0] || x in xs[1..];
  }

  // ----- all of them

  lemma SelfComparable(g: Graph, x: Ref)
    ensures !OutgrowsStack(g, x, x)
  {
    forall path: seq<Pair> | |path| == RECURSION_LIMIT + 1 && path[0] == (x, x) ensures !Run(g, path) {
      assert path[0] in path && !Pushed(g, path[0]);
    }
  }

  lemma FirstsAfter(rest: Bindings, b: Binding, x: Ref)
    ensures Bound(rest, x) ==> FirstFor(rest + [b], x) == FirstFor(rest, x)
    ensures !Bound(rest, b.param) ==> FirstFor(rest + [b], b.param) == b.replacement
  {
    FirstForJoin(rest, [b], x);
    FirstForJoin(rest, [b], b.param);
  }

  lemma OneMoreOccurs(g: Graph, rest: Bindings, b: Binding)
    ensures NoneOccurs(g, rest + [b]) <==>
            NoneOccurs(g, rest) && (Bound(rest, b.param) || !Mentions(g, b.replacement, b.param, 0))
  {
    var met := rest + [b];
    hide Mentions, FirstFor;
    FirstsAfter(rest, b, b.param);
    forall d <- rest ensures FirstFor(met, d.param) == FirstFor(rest, d.param) && d in met {
      FirstsAfter(rest, b, d.param);
    }
    assert b in met;
    if NoneOccurs(g, met) {
      forall d <- rest ensures !Mentions(g, FirstFor(rest, d.param), d.param, 0) { assert d in met; }
    }
    if Bound(rest, b.param) {
      var d :| d in rest && d.param == b.param;
    }
  }

  lemma OneMoreComparable(g: Graph, rest: Bindings, b: Binding)
    ensures AllComparable(g, rest + [b]) <==>
            && AllComparable(g, rest)
            && (Bound(rest, b.param) ==> !OutgrowsStack(g, FirstFor(rest, b.param), b.replacement))
  {
    var met := rest + [b];
    hide OutgrowsStack, FirstFor;
    FirstsAfter(rest, b, b.param);
    SelfComparable(g, b.replacement);
    forall d <- rest ensures FirstFor(met, d.param) == FirstFor(rest, d.param) && d in met {
      FirstsAfter(rest, b, d.param);
    }
    assert b in met;
    if AllComparable(g, met) {
      forall d <- rest ensures !OutgrowsStack(g, FirstFor(rest, d.param), d.replacement) { assert d in met; }
    }
  }

  lemma OneMoreSettleable(g: Graph, rest: Bindings, b: Binding, cap: nat)
    ensures Settleable(g, rest + [b], cap) <==> Settleable(g, rest, cap) && Passes(g, rest, b, cap)
  {
    hide OutgrowsStack, Mentions, FirstFor, NoneOccurs, AllComparable;
    OneMoreOccurs(g, rest, b);
    OneMoreComparable(g, rest, b);
    assert Params(rest + [b]) == Params(rest) + {b.param};
    assert Bound(rest, b.param) <==> b.param in Params(rest);
  }

  lemma {:induction false} SettledAll(g: Graph, met: Bindings, cap: nat)
    ensures Settled(g, [], met, cap) <==> Settleable(g, met, cap)
    decreases |met|
  {
    hide Settleable, Passes;
    if met == [] {
      NothingToSettle(g, cap);
    } else {
      var rest, b := met[..|met| - 1], met[|met| - 1];
      assert met == rest + [b] && [] + rest == rest;
      SettledAll(g, rest, cap);
      SettledJoin(g, [], rest, [b], cap);
      SettledOne(g, rest, b, cap);
      OneMoreSettleable(g, rest, b, cap);
    }
  }

  lemma NothingToSettle(g: Graph, cap: nat)
    ensures Settleable(g, [], cap)
  {
    assert Params([]) == {};
  }

  /**
   Where a matcher exists, strict unification finds it if and only if the pattern is
   within the bound and its parameters can be settled: each is bound to what it is met
   with first, which has the tree the matcher gives it.
  */
  lemma StrictFindsMatcher(g: Graph, p: Ref, c: Ref, cap: nat, m: Bindings)
    requires WellFormed(g) && Points(g, p) && Points(g, c) && IsMatcher(g, p, c, m)
    ensures var r := Strict(g, p, c, [], cap, 0);
            var met := Met(g, p, c, RECURSION_LIMIT);
            && (r.0 == OK <==> Finite(g, p, RECURSION_LIMIT) && Settleable(g, met, cap))
            && (r.0 == OK ==> r.1 == Firsts(met) && DistinctKeys(r.1) && Agrees(g, r.1, m))
  {
    var met := Met(g, p, c, RECURSION_LIMIT);
    assert Opposite(g, p, c, m, 0);
    hide Strict, Met, Settled, Settleable, BindingAgrees, Denotes, Finite, DistinctKeys;
    StrictSettles(g, p, c, m, [], cap, 0);
    SettledAll(g, met, cap);
    FirstsSize(met);
    assert [] + met == met;
  }

  /** Strict unification decides whether there is a matcher whose parameters can be settled. */
  lemma StrictDecides(g: Graph, p: Ref, c: Ref, cap: nat, nodes: set<Ref>)
    requires WellFormed(g) && Points(g, p) && Points(g, c)
    requires NamesDecide(g, nodes) && p in nodes && c in nodes
    ensures Strict(g, p, c, [], cap, 0).0 == OK <==>
            && (exists m :: IsMatcher(g, p, c, m))
            && Finite(g, p, RECURSION_LIMIT) && Settleable(g, Met(g, p, c, RECURSION_LIMIT), cap)
  {
    hide Settleable, Met, Finite, Denotes, Firsts, Agrees, NamesDecide;
    var r := Strict(g, p, c, [], cap, 0);
    if r.0 == OK {
      StrictSoundExactly(g, p, c, [], cap, nodes);
      assert IsMatcher(g, p, c, r.1);
    }
    if m :| IsMatcher(g, p, c, m) {
      StrictFindsMatcher(g, p, c, cap, m);
    }
  }

  // ----- shallow concrete types that mention none of the parameters

  /** A mention that a component makes is a mention its node makes. */
  lemma MentionsInArm(g: Graph, c: Ref, a: Ref, x: Ref, d: nat)
    requires c in g && a in Arms(g[c])
    ensures Mentions(g, a, x, d + 1) ==> Mentions(g, c, x, d)
  {
  }

  lemma MentioningArm(g: Graph, c: Ref, x: Ref, h: nat, d: nat) returns (a: Ref)
    requires Finite(g, c, h) && Mentions(g, c, x, d) && c != x
    ensures a in Arms(g[c]) && Mentions(g, a, x, d + 1) && h > 0 && Finite(g, a, h - 1)
  {
    a :| a in Arms(g[c]) && Mentions(g, a, x, d + 1);
  }

  lemma FiniteHere(g: Graph, c: Ref, h: nat)
    requires Finite(g, c, h)
    ensures h > 0 && c in g
  {
  }

  lemma MentionsSelf(g: Graph, x: Ref, d: nat)
    requires d < RECURSION_LIMIT && x in g
    ensures Mentions(g, x, x, d)
  {
  }

  lemma {:induction false} MentionsShift(g: Graph, c: Ref, x: Ref, h: nat, d: nat, d': nat)
    requires Finite(g, c, h) && d' + h <= RECURSION_LIMIT
    ensures Mentions(g, c, x, d) ==> Mentions(g, c, x, d')
    decreases h
  {
    hide *;
    FiniteHere(g, c, h);
    if c == x {
      MentionsSelf(g, x, d');
    } else if Mentions(g, c, x, d) {
      var a := MentioningArm(g, c, x, h, d);
      MentionsShift(g, a, x, h - 1, d + 1, d' + 1);
      MentionsInArm(g, c, a, x, d');
    }
  }

  /** Every parameter within `n` levels of the pattern is in `q`. */
  ghost predicate ParamsIn(g: Graph, p: Ref, q: set<Ref>, n: nat)
    decreases n
  {
    n == 0 || p !in g || ((g[p].Param? ==> p in q) && forall a <- Arms(g[p]) :: ParamsIn(g, a, q, n - 1))
  }

  ghost predicate MentionsNone(g: Graph, c: Ref, q: set<Ref>, depth: nat) {
    forall x <- q :: !Mentions(g, c, x, depth)
  }

  /** A concrete type within the bound that mentions none of the pattern's parameters, and a slot for each of them. */
  ghost predicate Shallow(g: Graph, p: Ref, c: Ref, q: set<Ref>, cap: nat) {
    && Finite(g, c, RECURSION_LIMIT) && ParamsIn(g, p, q, RECURSION_LIMIT) && MentionsNone(g, c, q, 0) && |q| <= cap
  }

  /** A parameter of `q`, met with a shallow node that does not mention it. */
  ghost predicate Harmless(g: Graph, b: Binding, q: set<Ref>) {
    b.param in q && Finite(g, b.replacement, RECURSION_LIMIT) && !Mentions(g, b.replacement, b.param, 0)
  }

  ghost predicate AllHarmless(g: Graph, met: Bindings, q: set<Ref>) {
    forall b <- met :: Harmless(g, b, q)
  }

  lemma HarmlessJoin(g: Graph, a: Bindings, b: Bindings, q: set<Ref>)
    requires AllHarmless(g, a, q) && AllHarmless(g, b, q)
    ensures AllHarmless(g, a + b, q)
  {
    hide Harmless;
  }

  lemma PatternIn(g: Graph, p: Ref, c: Ref, m: Bindings, depth: nat)
    requires Opposite(g, p, c, m, depth) && c in g
    ensures p in g
  {
    assert Unroll(g, c, 1) == UnrollSubst(g, p, m, depth, 1);
    assert Unroll(g, c, 1).Node?;
  }

  lemma {:induction false} MeetsHarmless(g: Graph, p: Ref, c: Ref, m: Bindings, q: set<Ref>, h: nat, depth: nat)
    requires Opposite(g, p, c, m, depth) && Finite(g, c, h) && depth + h <= RECURSION_LIMIT
    requires ParamsIn(g, p, q, h) && MentionsNone(g, c, q, depth)
    ensures Finite(g, p, h) && AllHarmless(g, Met(g, p, c, RECURSION_LIMIT - depth), q)
    decreases h, 1, 0
  {
    hide Mentions, Denotes;
    PatternIn(g, p, c, m, depth);
    if g[p].Param? {
      MentionsShift(g, c, p, h, 0, depth);
      FiniteWeaken(g, c, h, RECURSION_LIMIT);
    } else {
      OppositeParts(g, p, c, m, depth);
      forall i | 0 <= i < |Arms(g[p])|
        ensures Finite(g, Arms(g[c])[i], h - 1) && ParamsIn(g, Arms(g[p])[i], q, h - 1)
        ensures MentionsNone(g, Arms(g[c])[i], q, depth + 1)
      {
        assert Arms(g[p])[i] in Arms(g[p]) && Arms(g[c])[i] in Arms(g[c]);
        forall x <- q ensures !Mentions(g, Arms(g[c])[i], x, depth + 1) {
          MentionsInArm(g, c, Arms(g[c])[i], x, depth);
        }
      }
      ArmsMeetHarmless(g, Arms(g[p]), Arms(g[c]), m, q, h - 1, depth + 1);
    }
  }

  lemma {:induction false} ArmsMeetHarmless(g: Graph, xs: seq<Ref>, ys: seq<Ref>, m: Bindings, q: set<Ref>, h: nat,
                                            depth: nat)
    requires |xs| == |ys| && depth + h <= RECURSION_LIMIT
    requires forall i :: 0 <= i < |xs| ==> Opposite(g, xs[i], ys[i], m, depth) && Finite(g, ys[i], h)
    requires forall i :: 0 <= i < |xs| ==> ParamsIn(g, xs[i], q, h) && MentionsNone(g, ys[i], q, depth)
    ensures AllFinite(g, xs, h) && AllHarmless(g, MetArms(g, xs, ys, RECURSION_LIMIT - depth), q)
    decreases h, 2, |xs|
  {
    hide Opposite, Finite, ParamsIn, MentionsNone, Harmless, Met;
    if xs != [] {
      MeetsHarmless(g, xs[0], ys[0], m, q, h, depth);
      ArmsMeetHarmless(g, xs[1..], ys[1..], m, q, h, depth);
      AllFiniteCons(g, xs, h);
      var n := RECURSION_LIMIT - depth;
      HarmlessJoin(g, Met(g, xs[0], ys[0], n), MetArms(g, xs[1..], ys[1..], n), q);
    }
  }

  lemma FiniteComparable(g: Graph, x: Ref, y: Ref)
    requires Finite(g, x, RECURSION_LIMIT)
    ensures !OutgrowsStack(g, x, y)
  {
    hide Finite;
    if path: seq<Pair> :| |path| == RECURSION_LIMIT + 1 && path[0] == (x, y) && Run(g, path) {
      RunInFinite(g, path, RECURSION_LIMIT);
    }
  }

  lemma HarmlessIsSettleable(g: Graph, met: Bindings, q: set<Ref>, cap: nat)
    requires AllHarmless(g, met, q) && |q| <= cap
    ensures Settleable(g, met, cap)
  {
    hide Mentions, OutgrowsStack, Finite;
    forall b <- met
      ensures !Mentions(g, FirstFor(met, b.param), b.param, 0)
      ensures !OutgrowsStack(g, FirstFor(met, b.param), b.replacement)
    {
      FirstForFound(met, b.param);
      assert Harmless(g, Binding(b.param, FirstFor(met, b.param)), q);
      FiniteComparable(g, FirstFor(met, b.param), b.replacement);
    }
    assert Params(met) <= q;
    SubsetSize(Params(met), q);
  }

  lemma {:induction false} SubsetSize(a: set<Ref>, b: set<Ref>)
    requires a <= b
    ensures |a| <= |b|
  {
    if a != {} {
      var x :| x in a;
      SubsetSize(a - {x}, b - {x});
    }
  }

  /** Against a shallow concrete type that mentions no parameter, the existence of a matcher is all that counts. */
  lemma StrictDecidesShallow(g: Graph, p: Ref, c: Ref, q: set<Ref>, cap: nat, nodes: set<Ref>)
    requires WellFormed(g) && Points(g, p) && Shallow(g, p, c, q, cap)
    requires NamesDecide(g, nodes) && p in nodes && c in nodes
    ensures Strict(g, p, c, [], cap, 0).0 == OK <==> exists m :: IsMatcher(g, p, c, m)
  {
    hide Strict, Settleable, Met, Denotes, NamesDecide, ParamsIn, MentionsNone, AllHarmless;
    StrictDecides(g, p, c, cap, nodes);
    if m :| IsMatcher(g, p, c, m) {
      MeetsHarmless(g, p, c, m, q, RECURSION_LIMIT, 0);
      HarmlessIsSettleable(g, Met(g, p, c, RECURSION_LIMIT), q, cap);
    }
  }

  // ----- unifying, then substituting

  /** Unifying and then substituting gives a type deep equality accepts, if the two can be compared. */
  lemma UnifyThenSubstitute(g: Graph, h: Graph, p: Ref, c: Ref, s: Bindings, cap: nat, r: Ref, nodes: set<Ref>)
    requires Grows(g, h) && Points(g, p) && Points(g, c) && BindingsIn(g, s)
    requires NamesDecide(g, nodes) && p in nodes && c in nodes && BoundWithin(s, nodes)
    requires Strict(g, p, c, s, cap, 0).0 == OK
    requires Points(h, r) && Denotes(h, r, g, p, Strict(g, p, c, s, cap, 0).1, 0)
    ensures Points(h, c) && (EqualDeep(h, c, r) <==> !OutgrowsStack(h, c, r))
    ensures Finite(g, c, RECURSION_LIMIT) ==> EqualDeep(h, c, r)
  {
    hide Strict, NamesDecide, OutgrowsStack, EqualDeep, Finite;
    StrictSoundExactly(g, p, c, s, cap, nodes);
    forall n: nat ensures Unroll(h, c, n) == Unroll(h, r, n) {
      UnrollExtends(g, h, c, n);
    }
    EqualDeepExact(h, c, r);
    if Finite(g, c, RECURSION_LIMIT) {
      FiniteGrows(g, h, c, RECURSION_LIMIT);
      FiniteComparable(h, c, r);
    }
  }
}
