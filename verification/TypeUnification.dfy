/**
 Unification of a generic pattern with a concrete type: the strict matcher, which
 rejects what does not fit, and the lenient one, which skips it.
*/
module TypeUnification {
  import opened Options
  import opened TypeGraph
  import opened TypeEquality
  import opened TypeSubstitution

  datatype UnifyResult = OK | MISMATCH | CONFLICT | OCCURS | CAP_EXCEEDED

  /** `type_mentions_param`. */
  predicate Mentions(g: Graph, t: Ref, p: Ref, depth: nat)
    decreases RECURSION_LIMIT - depth
  {
    && t in g && depth < RECURSION_LIMIT
    && (t == p || exists c <- Arms(g[t]) :: Mentions(g, c, p, depth + 1))
  }

  /** What strict unification compares at a node before it descends. */
  predicate HeadsFit(p: TypeInfo, c: TypeInfo) {
    && SameKind(p, c)
    && match p
       case Function(flags, receiver, params, _) =>
         flags == c.flags && (receiver == NULL <==> c.receiver == NULL) && |params| == |c.params|
       case Named(name, args, _, _) => name == c.name && |args| == |c.args|
       case Record(positional, named) => |positional| == |c.positional| && |named| == |c.named|
       case _ => true
  }

  ghost predicate DistinctKeys(s: Bindings) {
    forall i, j :: 0 <= i < j < |s| ==> s[i].param != s[j].param
  }

  /** A walk only appends bindings of new parameters, and only while there is room. */
  ghost predicate Appends(s: Bindings, s': Bindings, cap: nat) {
    && s <= s'
    && (|s'| <= cap || s' == s)
    && (DistinctKeys(s) ==> DistinctKeys(s'))
  }

  /** The field name that goes with component `i`, if it is a named record field. */
  function Label(t: TypeInfo, i: nat): Option<Name> {
    if t.Record? && |t.positional| <= i < |t.positional| + |t.named|
    then Some(t.named[i - |t.positional|].name)
    else None
  }

  lemma HeadsFitArity(p: TypeInfo, c: TypeInfo)
    requires HeadsFit(p, c)
    ensures |Arms(p)| == |Arms(c)|
  {
  }

  /** `ty_unify_strict_inner`: the verdict and the bindings it leaves, which extend those it was given. */
  ghost function Strict(g: Graph, p: Ref, c: Ref, s: Bindings, cap: nat, depth: nat): (r: (UnifyResult, Bindings))
    requires WellFormed(g) && Points(g, p) && Points(g, c) && BindingsIn(g, s)
    ensures Appends(s, r.1, cap) && BindingsIn(g, r.1)
    decreases RECURSION_LIMIT - depth, 0
  {
    if depth >= RECURSION_LIMIT then (CAP_EXCEEDED, s)
    else if p == NULL || c == NULL then (MISMATCH, s)
    else if g[p].Param? then StrictParam(g, p, c, s, cap)
    else if !HeadsFit(g[p], g[c]) then (MISMATCH, s)
    else
      HeadsFitArity(g[p], g[c]);
      StrictArms(g, p, c, 0, s, cap, depth)
  }

  ghost function StrictParam(g: Graph, p: Ref, c: Ref, s: Bindings, cap: nat): (r: (UnifyResult, Bindings))
    requires WellFormed(g) && p in g && c in g && BindingsIn(g, s)
    ensures Appends(s, r.1, cap) && BindingsIn(g, r.1)
  {
    if Bound(s, p) then
      FirstForPoints(g, s, p);
      (if EqualDeep(g, FirstFor(s, p), c) then OK else CONFLICT, s)
    else if Mentions(g, c, p, 0) then (OCCURS, s)
    else if |s| >= cap then (CAP_EXCEEDED, s)
    else (OK, s + [Binding(p, c)])
  }

  /** The components from the `i`-th on. */
  ghost function StrictArms(g: Graph, p: Ref, c: Ref, i: nat, s: Bindings, cap: nat, depth: nat)
    : (r: (UnifyResult, Bindings))
    requires WellFormed(g) && p in g && c in g && BindingsIn(g, s)
    requires |Arms(g[p])| == |Arms(g[c])| && depth < RECURSION_LIMIT
    ensures Appends(s, r.1, cap) && BindingsIn(g, r.1)
    decreases RECURSION_LIMIT - depth - 1, |Arms(g[p])| + 1 - i
  {
    if i >= |Arms(g[p])| then (OK, s)
    else if Label(g[p], i) != Label(g[c], i) then (MISMATCH, s)
    else
      assert InGraph(g, g[p]) && InGraph(g, g[c]);
      var r := Strict(g, Arms(g[p])[i], Arms(g[c])[i], s, cap, depth + 1);
      if r.0 != OK then r else StrictArms(g, p, c, i + 1, r.1, cap, depth)
  }

  lemma StrictArmsDone(g: Graph, p: Ref, c: Ref, i: nat, s: Bindings, cap: nat, depth: nat)
    requires WellFormed(g) && p in g && c in g && BindingsIn(g, s)
    requires i == |Arms(g[p])| == |Arms(g[c])| && depth < RECURSION_LIMIT
    ensures StrictArms(g, p, c, i, s, cap, depth) == (OK, s)
  {
  }

  lemma StrictArmsNext(g: Graph, p: Ref, c: Ref, i: nat, s: Bindings, cap: nat, depth: nat)
    requires WellFormed(g) && p in g && c in g && BindingsIn(g, s)
    requires i < |Arms(g[p])| == |Arms(g[c])| && depth < RECURSION_LIMIT
    requires Label(g[p], i) == Label(g[c], i)
    ensures Points(g, Arms(g[p])[i]) && Points(g, Arms(g[c])[i])
    ensures var r := Strict(g, Arms(g[p])[i], Arms(g[c])[i], s, cap, depth + 1);
            StrictArms(g, p, c, i, s, cap, depth) ==
            if r.0 == OK then StrictArms(g, p, c, i + 1, r.1, cap, depth) else r
  {
    assert InGraph(g, g[p]) && InGraph(g, g[c]);
    assert Arms(g[p])[i] in Arms(g[p]) && Arms(g[c])[i] in Arms(g[c]);
  }

  // ----- soundness: the bindings turn the pattern into the concrete type

  lemma {:induction false} FirstForExtends(s: Bindings, t: Bindings, p: Ref)
    requires s <= t && Bound(s, p)
    ensures FirstFor(t, p) == FirstFor(s, p)
  {
    if s[0].param != p {
      assert t[1..][..|s[1..]|] == s[1..];
      assert Bound(s[1..], p);
      FirstForExtends(s[1..], t[1..], p);
    }
  }

  lemma {:induction false} FirstForAppended(s: Bindings, t: Bindings, p: Ref, c: Ref)
    requires !Bound(s, p) && s + [Binding(p, c)] <= t
    ensures FirstFor(t, p) == c
  {
    if s != [] {
      assert s[0].param != p && s[0] == t[0];
      assert !Bound(s[1..], p);
      assert s[1..] + [Binding(p, c)] == (s + [Binding(p, c)])[1..] <= t[1..];
      FirstForAppended(s[1..], t[1..], p, c);
    }
  }

  /** What the heads of two unified nodes may still differ in. */
  function Erase(h: Head): Head {
    match h
    case HNamed(name, argCount, _) => HNamed(name, argCount, 0)
    case HUser(k, _) => HUser(k, NULL)
    case _ => h
  }

  /** The tree without declaration pointers and without the identity of user-kind nodes. */
  function Erased(t: Tree): Tree {
    match t
    case Cut => Cut
    case Nil => Nil
    case Node(h, kids) => Node(Erase(h), seq(|kids|, i requires 0 <= i < |kids| => Erased(kids[i])))
  }

  /** The pattern under `s` agrees with the concrete node for `n` levels. */
  ghost predicate Fits(g: Graph, p: Ref, c: Ref, s: Bindings, depth: nat, n: nat) {
    Erased(UnrollSubst(g, p, s, depth, n)) == Erased(Unroll(g, c, n))
  }

  /** The components from the `i`-th on fit, and so do their field names. */
  ghost predicate ArmsFit(g: Graph, p: Ref, c: Ref, i: nat, s: Bindings, depth: nat, n: nat)
    requires p in g && c in g
  {
    && |Arms(g[p])| == |Arms(g[c])|
    && (forall j :: i <= j < |Arms(g[p])| ==> Label(g[p], j) == Label(g[c], j))
    && (forall j :: i <= j < |Arms(g[p])| ==> Fits(g, Arms(g[p])[j], Arms(g[c])[j], s, depth, n))
  }

  lemma ArmsFitStep(g: Graph, p: Ref, c: Ref, i: nat, s: Bindings, depth: nat, n: nat)
    requires p in g && c in g && i < |Arms(g[p])| == |Arms(g[c])|
    requires Label(g[p], i) == Label(g[c], i)
    ensures Fits(g, Arms(g[p])[i], Arms(g[c])[i], s, depth, n) && ArmsFit(g, p, c, i + 1, s, depth, n) ==>
              ArmsFit(g, p, c, i, s, depth, n)
  {
    hide Fits, Arms, Label;
  }

  /** A node the walk enters unrolls component by component. */
  lemma SubstNode(g: Graph, t: Ref, s: Bindings, depth: nat, n: nat)
    requires t in g && n > 0 && Lookup(g, t, s) == NULL && depth < RECURSION_LIMIT
    ensures var u := UnrollSubst(g, t, s, depth, n);
            && u.Node? && u.head == HeadOf(t, g[t]) && |u.kids| == |Arms(g[t])|
            && forall i :: 0 <= i < |u.kids| ==> u.kids[i] == UnrollSubst(g, Arms(g[t])[i], s, depth + 1, n - 1)
  {
    if s == [] {
      forall i | 0 <= i < |Arms(g[t])|
        ensures UnrollSubst(g, Arms(g[t])[i], s, depth + 1, n - 1) == Unroll(g, Arms(g[t])[i], n - 1)
      {
        NoBindings(g, Arms(g[t])[i], depth + 1, n - 1);
      }
    }
  }

  lemma NoBindings(g: Graph, t: Ref, depth: nat, n: nat)
    ensures UnrollSubst(g, t, [], depth, n) == Unroll(g, t, n)
  {
  }

  lemma UnrollNode(g: Graph, t: Ref, n: nat)
    requires t in g && n > 0
    ensures var u := Unroll(g, t, n);
            && u.Node? && u.head == HeadOf(t, g[t]) && |u.kids| == |Arms(g[t])|
            && forall i :: 0 <= i < |u.kids| ==> u.kids[i] == Unroll(g, Arms(g[t])[i], n - 1)
  {
  }

  lemma ErasedNode(t: Tree, u: Tree)
    requires t.Node? && u.Node? && |t.kids| == |u.kids| && Erase(t.head) == Erase(u.head)
    requires forall i :: 0 <= i < |t.kids| ==> Erased(t.kids[i]) == Erased(u.kids[i])
    ensures Erased(t) == Erased(u)
  {
    assert Erased(t).kids == Erased(u).kids;
  }

  lemma NodeFits(g: Graph, p: Ref, c: Ref, s: Bindings, depth: nat, n: nat)
    requires p in g && c in g && n > 0 && Lookup(g, p, s) == NULL && depth < RECURSION_LIMIT
    requires Erase(HeadOf(p, g[p])) == Erase(HeadOf(c, g[c]))
    ensures ArmsFit(g, p, c, 0, s, depth + 1, n - 1) ==> Fits(g, p, c, s, depth, n)
  {
    hide Unroll, UnrollSubst, HeadOf, Erase, Arms, Erased, Label;
    if ArmsFit(g, p, c, 0, s, depth + 1, n - 1) {
      var t, u := UnrollSubst(g, p, s, depth, n), Unroll(g, c, n);
      SubstNode(g, p, s, depth, n);
      UnrollNode(g, c, n);
      forall i | 0 <= i < |t.kids|
        ensures Erased(t.kids[i]) == Erased(u.kids[i])
      {
        assert Fits(g, Arms(g[p])[i], Arms(g[c])[i], s, depth + 1, n - 1);
      }
      ErasedNode(t, u);
    }
  }

  /** Fitting heads with equal field names only differ in what is erased. */
  lemma FittingHeads(g: Graph, p: Ref, c: Ref, s: Bindings, depth: nat, n: nat)
    requires p in g && c in g && HeadsFit(g[p], g[c]) && !g[p].Param?
    ensures ArmsFit(g, p, c, 0, s, depth, n) ==> Erase(HeadOf(p, g[p])) == Erase(HeadOf(c, g[c]))
  {
    hide Fits;
    if g[p].Record? && ArmsFit(g, p, c, 0, s, depth, n) {
      var x, y := g[p], g[c];
      forall i | 0 <= i < |x.named| ensures FieldNames(x.named)[i] == FieldNames(y.named)[i] {
        assert Label(x, |x.positional| + i) == Label(y, |y.positional| + i);
      }
      assert FieldNames(x.named) == FieldNames(y.named);
    }
  }

  lemma ParamFits(g: Graph, p: Ref, c: Ref, s: Bindings, cap: nat, depth: nat, t: Bindings, n: nat)
    requires WellFormed(g) && p in g && c in g && BindingsIn(g, s) && g[p].Param?
    ensures var r := StrictParam(g, p, c, s, cap);
            r.0 == OK && r.1 <= t ==> Fits(g, p, c, t, depth, n)
  {
    var r := StrictParam(g, p, c, s, cap);
    if r.0 == OK && r.1 <= t {
      if Bound(s, p) {
        FirstForPoints(g, s, p);
        FirstForExtends(s, t, p);
        EqualDeepSound(g, FirstFor(s, p), c);
        SameTreeInGraph(g, FirstFor(s, p), c);
      } else {
        FirstForAppended(s, t, p, c);
      }
    }
  }

  lemma FitsNothing(g: Graph, p: Ref, c: Ref, s: Bindings, depth: nat)
    ensures Fits(g, p, c, s, depth, 0)
  {
  }

  lemma StrictAccepts(g: Graph, p: Ref, c: Ref, s: Bindings, cap: nat, depth: nat)
    requires WellFormed(g) && Points(g, p) && Points(g, c) && BindingsIn(g, s)
    requires Strict(g, p, c, s, cap, depth).0 == OK
    ensures depth < RECURSION_LIMIT && p in g && c in g
    ensures g[p].Param? ==> Strict(g, p, c, s, cap, depth) == StrictParam(g, p, c, s, cap)
    ensures !g[p].Param? ==> HeadsFit(g[p], g[c]) && |Arms(g[p])| == |Arms(g[c])|
    ensures !g[p].Param? ==> Strict(g, p, c, s, cap, depth) == StrictArms(g, p, c, 0, s, cap, depth)
  {
    if !g[p].Param? {
      HeadsFitArity(g[p], g[c]);
    }
  }

  lemma StrictArmsAccepts(g: Graph, p: Ref, c: Ref, i: nat, s: Bindings, cap: nat, depth: nat)
    requires WellFormed(g) && p in g && c in g && BindingsIn(g, s)
    requires |Arms(g[p])| == |Arms(g[c])| && depth < RECURSION_LIMIT
    requires i < |Arms(g[p])| && StrictArms(g, p, c, i, s, cap, depth).0 == OK
    ensures Label(g[p], i) == Label(g[c], i)
    ensures Points(g, Arms(g[p])[i]) && Points(g, Arms(g[c])[i])
    ensures Strict(g, Arms(g[p])[i], Arms(g[c])[i], s, cap, depth + 1).0 == OK
    ensures StrictArms(g, p, c, i, s, cap, depth) ==
            StrictArms(g, p, c, i + 1, Strict(g, Arms(g[p])[i], Arms(g[c])[i], s, cap, depth + 1).1, cap, depth)
  {
    assert InGraph(g, g[p]) && InGraph(g, g[c]);
    assert Arms(g[p])[i] in Arms(g[p]) && Arms(g[c])[i] in Arms(g[c]);
  }

  lemma {:induction false} StrictFits(g: Graph, p: Ref, c: Ref, s: Bindings, cap: nat, depth: nat, t: Bindings, n: nat)
    requires WellFormed(g) && Points(g, p) && Points(g, c) && BindingsIn(g, s)
    ensures var r := Strict(g, p, c, s, cap, depth);
            r.0 == OK && r.1 <= t ==> Fits(g, p, c, t, depth, n)
    decreases RECURSION_LIMIT - depth, 0
  {
    hide *;
    var r := Strict(g, p, c, s, cap, depth);
    if r.0 == OK && r.1 <= t {
      StrictAccepts(g, p, c, s, cap, depth);
      if n == 0 {
        FitsNothing(g, p, c, t, depth);
      } else if g[p].Param? {
        ParamFits(g, p, c, s, cap, depth, t, n);
      } else {
        StrictArmsFit(g, p, c, 0, s, cap, depth, t, n - 1);
        FittingHeads(g, p, c, t, depth + 1, n - 1);
        NotReplaced(g, p, t);
        NodeFits(g, p, c, t, depth, n);
      }
    }
  }

  lemma NotReplaced(g: Graph, p: Ref, t: Bindings)
    requires p in g && !g[p].Param?
    ensures Lookup(g, p, t) == NULL
  {
  }

  lemma ArmsFitPast(g: Graph, p: Ref, c: Ref, i: nat, s: Bindings, depth: nat, n: nat)
    requires p in g && c in g && i >= |Arms(g[p])| == |Arms(g[c])|
    ensures ArmsFit(g, p, c, i, s, depth, n)
  {
  }

  lemma AppendsPrefix(s: Bindings, s': Bindings, cap: nat)
    requires Appends(s, s', cap)
    ensures s <= s'
  {
  }

  lemma {:induction false} StrictArmsFit(g: Graph, p: Ref, c: Ref, i: nat, s: Bindings, cap: nat, depth: nat,
                                         t: Bindings, n: nat)
    requires WellFormed(g) && p in g && c in g && BindingsIn(g, s)
    requires |Arms(g[p])| == |Arms(g[c])| && depth < RECURSION_LIMIT
    ensures var r := StrictArms(g, p, c, i, s, cap, depth);
            r.0 == OK && r.1 <= t ==> ArmsFit(g, p, c, i, t, depth + 1, n)
    decreases RECURSION_LIMIT - depth - 1, |Arms(g[p])| + 1 - i
  {
    hide *;
    var r := StrictArms(g, p, c, i, s, cap, depth);
    if i >= |Arms(g[p])| {
      ArmsFitPast(g, p, c, i, t, depth + 1, n);
    } else if r.0 == OK && r.1 <= t {
      StrictArmsAccepts(g, p, c, i, s, cap, depth);
      var q := Strict(g, Arms(g[p])[i], Arms(g[c])[i], s, cap, depth + 1);
      AppendsPrefix(q.1, r.1, cap);
      StrictFits(g, Arms(g[p])[i], Arms(g[c])[i], s, cap, depth + 1, t, n);
      StrictArmsFit(g, p, c, i + 1, q.1, cap, depth, t, n);
      ArmsFitStep(g, p, c, i, t, depth + 1, n);
    }
  }

  /**
   Strict unification is sound, from any bindings and on any graph: what it accepts
   becomes the concrete type once its bindings are substituted, up to what `Erased`
   leaves out.
  */
  lemma StrictSound(g: Graph, p: Ref, c: Ref, s: Bindings, cap: nat, n: nat)
    requires WellFormed(g) && Points(g, p) && Points(g, c) && BindingsIn(g, s)
    requires Strict(g, p, c, s, cap, 0).0 == OK
    ensures Fits(g, p, c, Strict(g, p, c, s, cap, 0).1, 0, n)
  {
    StrictFits(g, p, c, s, cap, 0, Strict(g, p, c, s, cap, 0).1, n);
  }

  // ----- the lenient matcher

  function Zip(xs: seq<Ref>, ys: seq<Ref>): seq<Pair> {
    seq(if |xs| < |ys| then |xs| else |ys|, i requires 0 <= i < |xs| && i < |ys| => (xs[i], ys[i]))
  }

  /** The component pairs `ty_unify_inner` visits; what has no counterpart is skipped. */
  function ZippedArms(p: TypeInfo, c: TypeInfo): seq<Pair>
    requires SameKind(p, c)
  {
    match p
    case Nullable(inner) => [(inner, c.inner)]
    case Function(_, receiver, params, ret) =>
      (if receiver != NULL && c.receiver != NULL then [(receiver, c.receiver)] else [])
      + Zip(params, c.params) + [(ret, c.ret)]
    case Named(_, args, _, _) => Zip(args, c.args)
    case Record(positional, named) =>
      Zip(positional, c.positional) + Zip(FieldTypes(named), FieldTypes(c.named))
    case _ => []
  }

  ghost predicate PairsIn(g: Graph, pairs: seq<Pair>) {
    forall x <- pairs :: Points(g, x.0) && Points(g, x.1)
  }

  /** `ty_unify_inner`: the bindings it leaves. */
  ghost function Lenient(g: Graph, p: Ref, c: Ref, s: Bindings, cap: nat, depth: nat): (r: Bindings)
    requires WellFormed(g) && Points(g, p) && Points(g, c)
    ensures Appends(s, r, cap)
    decreases RECURSION_LIMIT - depth, 0
  {
    if p == NULL || c == NULL || depth >= RECURSION_LIMIT then s
    else if g[p].Param? then (if Bound(s, p) || |s| >= cap then s else s + [Binding(p, c)])
    else if !SameKind(g[p], g[c]) then s
    else
      ZippedArmsIn(g, p, c);
      LenientPairs(g, ZippedArms(g[p], g[c]), s, cap, depth)
  }

  ghost function LenientPairs(g: Graph, pairs: seq<Pair>, s: Bindings, cap: nat, depth: nat): (r: Bindings)
    requires WellFormed(g) && PairsIn(g, pairs) && depth < RECURSION_LIMIT
    ensures Appends(s, r, cap)
    decreases RECURSION_LIMIT - depth - 1, 1 + |pairs|
  {
    if pairs == [] then s
    else LenientPairs(g, pairs[1..], Lenient(g, pairs[0].0, pairs[0].1, s, cap, depth + 1), cap, depth)
  }

  lemma ZipIn(g: Graph, xs: seq<Ref>, ys: seq<Ref>)
    requires PointsAll(g, xs) && PointsAll(g, ys)
    ensures PairsIn(g, Zip(xs, ys))
  {
  }

  lemma ZippedArmsIn(g: Graph, p: Ref, c: Ref)
    requires WellFormed(g) && p in g && c in g && SameKind(g[p], g[c])
    ensures PairsIn(g, ZippedArms(g[p], g[c]))
  {
    assert InGraph(g, g[p]) && InGraph(g, g[c]);
    match g[p]
    case Nullable(inner) => assert inner in Arms(g[p]) && g[c].inner in Arms(g[c]);
    case Function(_, _, params, _) =>
      FunctionPoints(g, p);
      FunctionPoints(g, c);
      ZipIn(g, params, g[c].params);
    case Named(_, args, _, _) => ZipIn(g, args, g[c].args);
    case Record(positional, named) =>
      RecordPoints(g, p);
      RecordPoints(g, c);
      ZipIn(g, positional, g[c].positional);
      ZipIn(g, FieldTypes(named), FieldTypes(g[c].named));
    case _ =>
  }

  lemma ZipConcat(xs: seq<Ref>, ys: seq<Ref>, xs': seq<Ref>, ys': seq<Ref>)
    requires |xs| == |ys|
    ensures Zip(xs + xs', ys + ys') == Zip(xs, ys) + Zip(xs', ys')
  {
  }

  lemma ZippedWhenFit(p: TypeInfo, c: TypeInfo)
    requires HeadsFit(p, c)
    ensures |Arms(p)| == |Arms(c)| && ZippedArms(p, c) == Zip(Arms(p), Arms(c))
  {
    match p
    case Function(_, receiver, params, ret) =>
      var rp, rc := if receiver == NULL then [] else [receiver], if c.receiver == NULL then [] else [c.receiver];
      ZipConcat(rp, rc, params, c.params);
      ZipConcat(rp + params, rc + c.params, [ret], [c.ret]);
    case Record(positional, named) =>
      ZipConcat(positional, c.positional, FieldTypes(named), FieldTypes(c.named));
    case _ =>
  }

  /** Whenever strict unification succeeds, the lenient one produces the same bindings. */
  lemma {:induction false} LenientAgrees(g: Graph, p: Ref, c: Ref, s: Bindings, cap: nat, depth: nat)
    requires WellFormed(g) && Points(g, p) && Points(g, c) && BindingsIn(g, s)
    requires Strict(g, p, c, s, cap, depth).0 == OK
    ensures Lenient(g, p, c, s, cap, depth) == Strict(g, p, c, s, cap, depth).1
    decreases RECURSION_LIMIT - depth, 0
  {
    hide Arms, ZippedArms, HeadsFit, StrictArms, LenientPairs, EqualDeep, Mentions;
    StrictAccepts(g, p, c, s, cap, depth);
    if !g[p].Param? {
      ZippedArmsIn(g, p, c);
      ZippedWhenFit(g[p], g[c]);
      LenientArmsAgree(g, p, c, 0, s, cap, depth);
      assert Zip(Arms(g[p]), Arms(g[c]))[0..] == Zip(Arms(g[p]), Arms(g[c]));
    }
  }

  lemma {:induction false} LenientArmsAgree(g: Graph, p: Ref, c: Ref, i: nat, s: Bindings, cap: nat, depth: nat)
    requires WellFormed(g) && p in g && c in g && BindingsIn(g, s)
    requires i <= |Arms(g[p])| == |Arms(g[c])| && depth < RECURSION_LIMIT
    requires PairsIn(g, Zip(Arms(g[p]), Arms(g[c])))
    requires StrictArms(g, p, c, i, s, cap, depth).0 == OK
    ensures LenientPairs(g, Zip(Arms(g[p]), Arms(g[c]))[i..], s, cap, depth) == StrictArms(g, p, c, i, s, cap, depth).1
    decreases RECURSION_LIMIT - depth - 1, |Arms(g[p])| + 1 - i
  {
    hide Arms, Strict, Lenient, Label;
    var pairs := Zip(Arms(g[p]), Arms(g[c]))[i..];
    if i == |Arms(g[p])| {
      assert pairs == [];
    } else {
      var p', c' := Arms(g[p])[i], Arms(g[c])[i];
      StrictArmsAccepts(g, p, c, i, s, cap, depth);
      LenientAgrees(g, p', c', s, cap, depth + 1);
      LenientArmsAgree(g, p, c, i + 1, Strict(g, p', c', s, cap, depth + 1).1, cap, depth);
      assert pairs[0] == (p', c') && pairs[1..] == Zip(Arms(g[p]), Arms(g[c]))[i + 1..];
    }
  }

  // ----- the walks themselves

  /** The caller's `subst` array and `subst_count`; `capacity` is its `subst_cap`. */
  class BindingTable {
    const slots: array<Binding>
    const capacity: nat
    var count: nat

    ghost predicate Valid() reads this {
      count <= slots.Length && capacity <= slots.Length
    }

    ghost function Contents(): Bindings
      requires Valid()
      reads this, slots
    {
      slots[..count]
    }

    constructor (cap: nat)
      ensures Valid() && Contents() == [] && capacity == cap && fresh(slots)
    {
      slots := new Binding[cap](_ => Binding(NULL, NULL));
      capacity := cap;
      count := 0;
    }

    /** The index of the first binding of `p`, or `count`. */
    method Find(p: Ref) returns (i: nat)
      requires Valid()
      ensures i <= count && (i < count <==> Bound(Contents(), p))
      ensures i < count ==> slots[i].replacement == FirstFor(Contents(), p)
    {
      i := 0;
      while i < count
        invariant i <= count && !Bound(slots[..i], p)
        invariant FirstFor(Contents(), p) == FirstFor(slots[i..count], p)
      {
        assert slots[i..count][1..] == slots[i + 1..count];
        if slots[i].param == p {
          assert slots[i] in Contents();
          return;
        }
        assert slots[..i + 1] == slots[..i] + [slots[i]];
        i := i + 1;
      }
    }

    method Append(p: Ref, c: Ref)
      requires Valid() && count < capacity
      modifies this`count, slots
      ensures Valid() && Contents() == old(Contents()) + [Binding(p, c)]
    {
      slots[count] := Binding(p, c);
      count := count + 1;
    }

    /** `ty_unify_strict_inner`. */
    method StrictWalk(g: Graph, p: Ref, c: Ref, depth: nat) returns (r: UnifyResult)
      requires Valid() && WellFormed(g) && Points(g, p) && Points(g, c) && BindingsIn(g, Contents())
      requires depth <= RECURSION_LIMIT
      modifies this`count, slots
      ensures Valid() && (r, Contents()) == Strict(g, p, c, old(Contents()), capacity, depth)
      decreases RECURSION_LIMIT - depth, 0
    {
      if depth >= RECURSION_LIMIT { return CAP_EXCEEDED; }
      if p == NULL || c == NULL { return MISMATCH; }
      if g[p].Param? {
        r := StrictParamWalk(g, p, c);
      } else if !HeadsFit(g[p], g[c]) {
        r := MISMATCH;
      } else {
        HeadsFitArity(g[p], g[c]);
        r := StrictArmsWalk(g, p, c, depth);
      }
    }

    method StrictParamWalk(g: Graph, p: Ref, c: Ref) returns (r: UnifyResult)
      requires Valid() && WellFormed(g) && p in g && c in g && BindingsIn(g, Contents())
      modifies this`count, slots
      ensures Valid() && (r, Contents()) == StrictParam(g, p, c, old(Contents()), capacity)
    {
      var i := Find(p);
      if i < count {
        FirstForPoints(g, Contents(), p);
        var equal := EqualDeepWalk(g, slots[i].replacement, c);
        return if equal then OK else CONFLICT;
      }
      if Mentions(g, c, p, 0) { return OCCURS; }
      if count >= capacity { return CAP_EXCEEDED; }
      Append(p, c);
      r := OK;
    }

    /** The component loops, in the order of `Arms`. */
    method StrictArmsWalk(g: Graph, p: Ref, c: Ref, depth: nat) returns (r: UnifyResult)
      requires Valid() && WellFormed(g) && p in g && c in g && BindingsIn(g, Contents())
      requires |Arms(g[p])| == |Arms(g[c])| && depth < RECURSION_LIMIT
      modifies this`count, slots
      ensures Valid() && (r, Contents()) == StrictArms(g, p, c, 0, old(Contents()), capacity, depth)
      decreases RECURSION_LIMIT - depth - 1, 1
    {
      hide Arms, Strict, Label;
      ghost var before := Contents();
      for i := 0 to |Arms(g[p])|
        invariant Valid() && BindingsIn(g, Contents())
        invariant StrictArms(g, p, c, 0, before, capacity, depth) ==
                  StrictArms(g, p, c, i, Contents(), capacity, depth)
      {
        if Label(g[p], i) != Label(g[c], i) { return MISMATCH; }
        StrictArmsNext(g, p, c, i, Contents(), capacity, depth);
        r := StrictWalk(g, Arms(g[p])[i], Arms(g[c])[i], depth + 1);
        if r != OK { return; }
      }
      r := OK;
    }

    /** `kavak_ty_unify_strict`. */
    method UnifyStrict(g: Graph, p: Ref, c: Ref) returns (r: UnifyResult)
      requires Valid() && WellFormed(g) && Points(g, p) && Points(g, c) && BindingsIn(g, Contents())
      modifies this`count, slots
      ensures Valid() && (r, Contents()) == Strict(g, p, c, old(Contents()), capacity, 0)
    {
      r := StrictWalk(g, p, c, 0);
    }

    /** `ty_unify_inner`. */
    method LenientWalk(g: Graph, p: Ref, c: Ref, depth: nat) returns (added: nat)
      requires Valid() && WellFormed(g) && Points(g, p) && Points(g, c)
      requires depth <= RECURSION_LIMIT
      modifies this`count, slots
      ensures Valid() && Contents() == Lenient(g, p, c, old(Contents()), capacity, depth)
      ensures count == old(count) + added
      decreases RECURSION_LIMIT - depth, 0
    {
      if p == NULL || c == NULL || depth >= RECURSION_LIMIT { return 0; }
      if g[p].Param? {
        var i := Find(p);
        if i < count || count >= capacity { return 0; }
        Append(p, c);
        return 1;
      }
      if !SameKind(g[p], g[c]) { return 0; }
      ZippedArmsIn(g, p, c);
      added := LenientPairsWalk(g, ZippedArms(g[p], g[c]), depth);
    }

    method LenientPairsWalk(g: Graph, pairs: seq<Pair>, depth: nat) returns (added: nat)
      requires Valid() && WellFormed(g) && PairsIn(g, pairs) && depth < RECURSION_LIMIT
      modifies this`count, slots
      ensures Valid() && Contents() == LenientPairs(g, pairs, old(Contents()), capacity, depth)
      ensures count == old(count) + added
      decreases RECURSION_LIMIT - depth - 1, 1
    {
      hide Lenient, WellFormed;
      added := 0;
      for i := 0 to |pairs|
        invariant Valid() && count == old(count) + added
        invariant LenientPairs(g, pairs, old(Contents()), capacity, depth) ==
                  LenientPairs(g, pairs[i..], Contents(), capacity, depth)
      {
        assert pairs[i..][1..] == pairs[i + 1..];
        var more := LenientWalk(g, pairs[i].0, pairs[i].1, depth + 1);
        added := added + more;
      }
    }

    /** `kavak_ty_unify`. */
    method Unify(g: Graph, p: Ref, c: Ref) returns (added: nat)
      requires Valid() && WellFormed(g) && Points(g, p) && Points(g, c)
      modifies this`count, slots
      ensures Valid() && Contents() == Lenient(g, p, c, old(Contents()), capacity, 0)
      ensures count == old(count) + added
    {
      added := LenientWalk(g, p, c, 0);
    }
  }
}
