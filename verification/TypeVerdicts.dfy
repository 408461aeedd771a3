/**
 What each verdict of strict unification means: the walk visits aligned pairs of nodes and
 of field names, and the verdict is what is wrong at the first visit it cannot get past.
*/
module TypeVerdicts {
  import opened Options
  import opened TypeGraph
  import opened TypeEquality
  import opened TypeSubstitution
  import opened TypeUnification
  import opened TypeMatching

  // ----- the visits of a walk

  /** Two aligned nodes at a depth of the pattern, or the names that go with two aligned components. */
  datatype Visit = Nodes(p: Ref, c: Ref, depth: nat) | Names(p: Ref, c: Ref, i: nat)

  /** The walk goes on to the components of these two. */
  predicate Descends(g: Graph, p: Ref, c: Ref, depth: nat) {
    depth < RECURSION_LIMIT && p in g && c in g && !g[p].Param? && HeadsFit(g[p], g[c])
  }

  /** The visits from two nodes on, in the order of the walk, as far as heads fit. */
  function Visits(g: Graph, p: Ref, c: Ref, depth: nat): seq<Visit>
    decreases RECURSION_LIMIT - depth, 0
  {
    [Nodes(p, c, depth)] +
    if Descends(g, p, c, depth) then
      HeadsFitArity(g[p], g[c]);
      VisitsFrom(g, p, c, 0, depth)
    else []
  }

  function VisitsFrom(g: Graph, p: Ref, c: Ref, i: nat, depth: nat): seq<Visit>
    requires p in g && c in g && |Arms(g[p])| == |Arms(g[c])| && depth < RECURSION_LIMIT
    decreases RECURSION_LIMIT - depth - 1, |Arms(g[p])| + 1 - i
  {
    if i >= |Arms(g[p])| then []
    else
      [Names(p, c, i)] + Visits(g, Arms(g[p])[i], Arms(g[c])[i], depth + 1) + VisitsFrom(g, p, c, i + 1, depth)
  }

  // ----- what can be wrong with one

  /** A parameter within the bound, with the node opposite to it. */
  predicate MeetsParam(g: Graph, v: Visit) {
    v.Nodes? && v.depth < RECURSION_LIMIT && v.p in g && v.c in g && g[v.p].Param?
  }

  function MetAt(g: Graph, v: Visit): Bindings {
    if MeetsParam(g, v) then [Binding(v.p, v.c)] else []
  }

  /** The parameters met in these visits. */
  function MetIn(g: Graph, vs: seq<Visit>): Bindings {
    if vs == [] then [] else MetAt(g, vs[0]) + MetIn(g, vs[1..])
  }

  /** A component is missing, kinds, arities or names differ, or the field names do. */
  predicate Mismatches(g: Graph, v: Visit) {
    match v
    case Nodes(p, c, depth) =>
      depth < RECURSION_LIMIT && (p !in g || c !in g || (!g[p].Param? && !HeadsFit(g[p], g[c])))
    case Names(p, c, i) => p in g && c in g && Label(g[p], i) != Label(g[c], i)
  }

  /** A parameter met before is met with a node that is not deep-equal to the first. */
  ghost predicate Conflicts(g: Graph, met: Bindings, v: Visit)
    requires WellFormed(g) && BindingsIn(g, met)
  {
    MeetsParam(g, v) && Bound(met, v.p) && (
      FirstForPoints(g, met, v.p);
      !EqualDeep(g, FirstFor(met, v.p), v.c))
  }

  /** Some path of at most 512 nodes leads from `t` to `x`. */
  ghost predicate LeadsTo(g: Graph, t: Ref, x: Ref) {
    exists path: seq<Ref> :: IsPath(g, path) && 0 < |path| <= RECURSION_LIMIT && path[0] == t && path[|path| - 1] == x
  }

  predicate IsPath(g: Graph, path: seq<Ref>) {
    && (forall r <- path :: r in g)
    && forall i :: 0 < i < |path| ==> HasArm(g, path[i - 1], path[i])
  }

  predicate HasArm(g: Graph, r: Ref, a: Ref) {
    r in g && a in Arms(g[r])
  }

  /** A parameter is met first with a node that mentions it. */
  ghost predicate Occurs(g: Graph, met: Bindings, v: Visit) {
    MeetsParam(g, v) && !Bound(met, v.p) && LeadsTo(g, v.c, v.p)
  }

  /** The pattern is too deep, or there is no slot for one more parameter. */
  ghost predicate Exceeds(g: Graph, met: Bindings, v: Visit, cap: nat) {
    || (v.Nodes? && v.depth >= RECURSION_LIMIT)
    || (MeetsParam(g, v) && !Bound(met, v.p) && !LeadsTo(g, v.c, v.p) && |Params(met)| >= cap)
  }

  // ----- mentions are paths

  lemma {:induction false} MentionsHasPath(g: Graph, t: Ref, x: Ref, depth: nat) returns (path: seq<Ref>)
    requires Mentions(g, t, x, depth)
    ensures IsPath(g, path) && 0 < |path| <= RECURSION_LIMIT - depth && path[0] == t && path[|path| - 1] == x
    decreases RECURSION_LIMIT - depth
  {
    if t == x {
      path := [t];
    } else {
      var c :| c in Arms(g[t]) && Mentions(g, c, x, depth + 1);
      var rest := MentionsHasPath(g, c, x, depth + 1);
      path := [t] + rest;
      assert HasArm(g, path[0], path[1]);
      forall i | 1 < i < |path| ensures HasArm(g, path[i - 1], path[i]) {
        assert HasArm(g, rest[i - 2], rest[i - 1]);
      }
    }
  }

  lemma {:induction false} PathIsMentioned(g: Graph, path: seq<Ref>, depth: nat)
    requires IsPath(g, path) && path != [] && depth + |path| <= RECURSION_LIMIT
    ensures Mentions(g, path[0], path[|path| - 1], depth)
    decreases |path|
  {
    assert path[0] in path;
    if |path| > 1 {
      var rest := path[1..];
      forall i | 0 < i < |rest| ensures HasArm(g, rest[i - 1], rest[i]) {
        assert HasArm(g, path[i], path[i + 1]);
      }
      PathIsMentioned(g, rest, depth + 1);
      assert HasArm(g, path[0], path[1]);
    }
  }

  /** `type_mentions_param` finds the parameter just if a path of at most 512 nodes leads to it. */
  lemma MentionsIsPath(g: Graph, t: Ref, x: Ref)
    ensures Mentions(g, t, x, 0) <==> LeadsTo(g, t, x)
  {
    if Mentions(g, t, x, 0) {
      var path := MentionsHasPath(g, t, x, 0);
    }
    if path: seq<Ref> :| IsPath(g, path) && 0 < |path| <= RECURSION_LIMIT && path[0] == t && path[|path| - 1] == x {
      PathIsMentioned(g, path, 0);
    }
  }

  // ----- the walk over the visits

  /** The verdict at the first visit that something is wrong with, and the bindings up to there. */
  ghost function Walk(g: Graph, met: Bindings, vs: seq<Visit>, cap: nat): (UnifyResult, Bindings)
    requires WellFormed(g) && BindingsIn(g, met)
    decreases |vs|
  {
    if vs == [] then (OK, Firsts(met))
    else if Mismatches(g, vs[0]) then (MISMATCH, Firsts(met))
    else if Conflicts(g, met, vs[0]) then (CONFLICT, Firsts(met))
    else if Occurs(g, met, vs[0]) then (OCCURS, Firsts(met))
    else if Exceeds(g, met, vs[0], cap) then (CAP_EXCEEDED, Firsts(met))
    else
      MetAtIn(g, met, vs[0]);
      Walk(g, met + MetAt(g, vs[0]), vs[1..], cap)
  }

  lemma MetAtIn(g: Graph, met: Bindings, v: Visit)
    requires BindingsIn(g, met)
    ensures BindingsIn(g, met + MetAt(g, v))
  {
  }

  lemma {:induction false} MetInJoin(g: Graph, a: seq<Visit>, b: seq<Visit>)
    ensures MetIn(g, a + b) == MetIn(g, a) + MetIn(g, b)
    decreases |a|
  {
    hide MetAt;
    if a == [] {
      assert a + b == b;
    } else {
      assert (a + b)[1..] == a[1..] + b;
      MetInJoin(g, a[1..], b);
    }
  }

  lemma {:induction false} MetInIn(g: Graph, vs: seq<Visit>)
    ensures BindingsIn(g, MetIn(g, vs))
    decreases |vs|
  {
    if vs != [] { MetInIn(g, vs[1..]); }
  }

  lemma BindingsInJoin(g: Graph, a: Bindings, b: Bindings)
    requires BindingsIn(g, a) && BindingsIn(g, b)
    ensures BindingsIn(g, a + b)
  {
  }

  lemma FirstsAreIn(g: Graph, met: Bindings)
    requires BindingsIn(g, met)
    ensures BindingsIn(g, Firsts(met))
  {
    FirstsSize(met);
  }

  lemma WalkStep(g: Graph, met: Bindings, v: Visit, rest: seq<Visit>, cap: nat)
    requires WellFormed(g) && BindingsIn(g, met)
    ensures BindingsIn(g, met + MetAt(g, v))
    ensures Walk(g, met, [v] + rest, cap)
            == if Walk(g, met, [v], cap).0 == OK then Walk(g, met + MetAt(g, v), rest, cap) else Walk(g, met, [v], cap)
  {
    hide Mismatches, Conflicts, Occurs, Exceeds, MetAt, Firsts;
    MetAtIn(g, met, v);
    assert ([v] + rest)[1..] == rest && [v][1..] == [];
  }

  lemma MetInCons(g: Graph, met: Bindings, v: Visit, rest: seq<Visit>)
    ensures met + MetIn(g, [v] + rest) == met + MetAt(g, v) + MetIn(g, rest)
  {
    assert ([v] + rest)[1..] == rest;
  }

  lemma {:induction false} WalkJoin(g: Graph, met: Bindings, a: seq<Visit>, b: seq<Visit>, cap: nat)
    requires WellFormed(g) && BindingsIn(g, met)
    ensures BindingsIn(g, met + MetIn(g, a))
    ensures Walk(g, met, a + b, cap)
            == if Walk(g, met, a, cap).0 == OK then Walk(g, met + MetIn(g, a), b, cap) else Walk(g, met, a, cap)
    decreases |a|
  {
    hide Walk, MetAt, MetIn, Firsts, BindingsIn, WellFormed;
    MetInIn(g, a);
    BindingsInJoin(g, met, MetIn(g, a));
    if a == [] {
      WalkNothing(g, met, cap);
      assert a + b == b;
    } else {
      var v, rest := a[0], a[1..];
      assert a == [v] + rest && a + b == [v] + (rest + b);
      WalkStep(g, met, v, rest, cap);
      WalkStep(g, met, v, rest + b, cap);
      WalkJoin(g, met + MetAt(g, v), rest, b, cap);
      MetInCons(g, met, v, rest);
    }
  }

  lemma {:induction false} WalkBinds(g: Graph, met: Bindings, a: seq<Visit>, cap: nat)
    requires WellFormed(g) && BindingsIn(g, met)
    ensures Walk(g, met, a, cap).0 == OK ==> Walk(g, met, a, cap).1 == Firsts(met + MetIn(g, a))
    decreases |a|
  {
    hide Walk, MetAt, MetIn, Firsts, BindingsIn, WellFormed;
    if a == [] {
      WalkNothing(g, met, cap);
    } else {
      assert a == [a[0]] + a[1..];
      WalkStep(g, met, a[0], a[1..], cap);
      WalkBinds(g, met + MetAt(g, a[0]), a[1..], cap);
      MetInCons(g, met, a[0], a[1..]);
    }
  }

  lemma WalkNothing(g: Graph, met: Bindings, cap: nat)
    requires WellFormed(g) && BindingsIn(g, met)
    ensures Walk(g, met, [], cap) == (OK, Firsts(met)) && met + MetIn(g, []) == met
  {
  }

  lemma WalkOne(g: Graph, met: Bindings, v: Visit, cap: nat)
    requires WellFormed(g) && BindingsIn(g, met)
    ensures BindingsIn(g, met + MetAt(g, v))
    ensures Walk(g, met, [v], cap) ==
            if Mismatches(g, v) then (MISMATCH, Firsts(met))
            else if Conflicts(g, met, v) then (CONFLICT, Firsts(met))
            else if Occurs(g, met, v) then (OCCURS, Firsts(met))
            else if Exceeds(g, met, v, cap) then (CAP_EXCEEDED, Firsts(met))
            else (OK, Firsts(met + MetAt(g, v)))
  {
    hide Mismatches, Conflicts, Occurs, Exceeds, MetAt, Firsts;
    MetAtIn(g, met, v);
    assert [v][1..] == [];
  }

  // ----- strict unification is that walk

  lemma ParamIsWalked(g: Graph, p: Ref, c: Ref, met: Bindings, cap: nat, depth: nat)
    requires WellFormed(g) && BindingsIn(g, met) && depth < RECURSION_LIMIT && p in g && c in g && g[p].Param?
    ensures BindingsIn(g, Firsts(met))
    ensures StrictParam(g, p, c, Firsts(met), cap) == Walk(g, met, [Nodes(p, c, depth)], cap)
  {
    hide EqualDeep, Mentions, LeadsTo, Walk;
    FirstsAreIn(g, met);
    WalkOne(g, met, Nodes(p, c, depth), cap);
    FirstsMeaning(met, p);
    FirstsSize(met);
    MentionsIsPath(g, c, p);
    assert (met + [Binding(p, c)])[..|met|] == met;
    if Bound(met, p) { FirstForPoints(g, met, p); }
  }

  lemma {:induction false} StrictIsWalk(g: Graph, p: Ref, c: Ref, met: Bindings, cap: nat, depth: nat)
    requires WellFormed(g) && Points(g, p) && Points(g, c) && BindingsIn(g, met)
    ensures BindingsIn(g, Firsts(met))
    ensures Strict(g, p, c, Firsts(met), cap, depth) == Walk(g, met, Visits(g, p, c, depth), cap)
    decreases RECURSION_LIMIT - depth, 1, 0
  {
    FirstsAreIn(g, met);
    if Descends(g, p, c, depth) {
      HeadsFitArity(g[p], g[c]);
      StrictArmsIsWalk(g, p, c, 0, met, cap, depth);
      NodeIsWalked(g, p, c, met, cap, depth);
    } else {
      LeafIsWalked(g, p, c, met, cap, depth);
    }
  }

  lemma LeafIsWalked(g: Graph, p: Ref, c: Ref, met: Bindings, cap: nat, depth: nat)
    requires WellFormed(g) && Points(g, p) && Points(g, c) && BindingsIn(g, met) && !Descends(g, p, c, depth)
    requires BindingsIn(g, Firsts(met))
    ensures Strict(g, p, c, Firsts(met), cap, depth) == Walk(g, met, Visits(g, p, c, depth), cap)
  {
    assert Visits(g, p, c, depth) == [Nodes(p, c, depth)];
    if depth < RECURSION_LIMIT && p in g && c in g && g[p].Param? {
      ParamIsWalked(g, p, c, met, cap, depth);
      hide Walk, StrictParam;
    } else {
      hide Walk, StrictParam, HeadsFit;
      WalkOne(g, met, Nodes(p, c, depth), cap);
    }
  }

  lemma NodeIsWalked(g: Graph, p: Ref, c: Ref, met: Bindings, cap: nat, depth: nat)
    requires WellFormed(g) && BindingsIn(g, met) && BindingsIn(g, Firsts(met)) && Descends(g, p, c, depth)
    requires |Arms(g[p])| == |Arms(g[c])|
    requires StrictArms(g, p, c, 0, Firsts(met), cap, depth) == Walk(g, met, VisitsFrom(g, p, c, 0, depth), cap)
    ensures Strict(g, p, c, Firsts(met), cap, depth) == Walk(g, met, Visits(g, p, c, depth), cap)
  {
    hide Walk, StrictArms, VisitsFrom, HeadsFit, Arms;
    var v := Nodes(p, c, depth);
    WalkOne(g, met, v, cap);
    assert met + [] == met;
    WalkJoin(g, met, [v], VisitsFrom(g, p, c, 0, depth), cap);
    assert MetIn(g, [v]) == [];
  }

  lemma {:induction false} StrictArmsIsWalk(g: Graph, p: Ref, c: Ref, i: nat, met: Bindings, cap: nat, depth: nat)
    requires WellFormed(g) && p in g && c in g && BindingsIn(g, met)
    requires |Arms(g[p])| == |Arms(g[c])| && depth < RECURSION_LIMIT
    ensures BindingsIn(g, Firsts(met))
    ensures StrictArms(g, p, c, i, Firsts(met), cap, depth) == Walk(g, met, VisitsFrom(g, p, c, i, depth), cap)
    decreases RECURSION_LIMIT - depth - 1, 2, |Arms(g[p])| + 1 - i
  {
    hide WellFormed, InGraph, Points, BindingsIn, Arms, Label, Strict, StrictArms;
    hide Walk, Visits, VisitsFrom, MetIn, Firsts;
    FirstsAreIn(g, met);
    if i < |Arms(g[p])| && Label(g[p], i) == Label(g[c], i) {
      ArmPoints(g, p, i);
      ArmPoints(g, c, i);
      var x, y := Arms(g[p])[i], Arms(g[c])[i];
      StrictIsWalk(g, x, y, met, cap, depth + 1);
      var met' := met + MetIn(g, Visits(g, x, y, depth + 1));
      MetInIn(g, Visits(g, x, y, depth + 1));
      BindingsInJoin(g, met, MetIn(g, Visits(g, x, y, depth + 1)));
      StrictArmsIsWalk(g, p, c, i + 1, met', cap, depth);
      ArmIsWalked(g, p, c, i, met, cap, depth);
    } else {
      ArmsStop(g, p, c, i, met, cap, depth);
    }
  }

  lemma ArmPoints(g: Graph, p: Ref, i: nat)
    requires WellFormed(g) && p in g && i < |Arms(g[p])|
    ensures Points(g, Arms(g[p])[i])
  {
    assert InGraph(g, g[p]) && Arms(g[p])[i] in Arms(g[p]);
  }

  lemma ArmsStop(g: Graph, p: Ref, c: Ref, i: nat, met: Bindings, cap: nat, depth: nat)
    requires WellFormed(g) && p in g && c in g && BindingsIn(g, met) && BindingsIn(g, Firsts(met))
    requires |Arms(g[p])| == |Arms(g[c])| && depth < RECURSION_LIMIT
    requires i < |Arms(g[p])| ==> Label(g[p], i) != Label(g[c], i)
    ensures StrictArms(g, p, c, i, Firsts(met), cap, depth) == Walk(g, met, VisitsFrom(g, p, c, i, depth), cap)
  {
    hide Strict, Label, Visits;
    if i < |Arms(g[p])| { assert VisitsFrom(g, p, c, i, depth)[0] == Names(p, c, i); }
  }

  lemma ArmIsWalked(g: Graph, p: Ref, c: Ref, i: nat, met: Bindings, cap: nat, depth: nat)
    requires WellFormed(g) && p in g && c in g && BindingsIn(g, met) && BindingsIn(g, Firsts(met))
    requires i < |Arms(g[p])| == |Arms(g[c])| && depth < RECURSION_LIMIT && Label(g[p], i) == Label(g[c], i)
    requires Points(g, Arms(g[p])[i]) && Points(g, Arms(g[c])[i])
    requires var vs := Visits(g, Arms(g[p])[i], Arms(g[c])[i], depth + 1);
             && Strict(g, Arms(g[p])[i], Arms(g[c])[i], Firsts(met), cap, depth + 1) == Walk(g, met, vs, cap)
             && BindingsIn(g, met + MetIn(g, vs)) && BindingsIn(g, Firsts(met + MetIn(g, vs)))
             && StrictArms(g, p, c, i + 1, Firsts(met + MetIn(g, vs)), cap, depth)
                == Walk(g, met + MetIn(g, vs), VisitsFrom(g, p, c, i + 1, depth), cap)
    ensures StrictArms(g, p, c, i, Firsts(met), cap, depth) == Walk(g, met, VisitsFrom(g, p, c, i, depth), cap)
  {
    var vs := Visits(g, Arms(g[p])[i], Arms(g[c])[i], depth + 1);
    StrictArmsNext(g, p, c, i, Firsts(met), cap, depth);
    hide *;
    WalkArm(g, p, c, i, met, vs, VisitsFrom(g, p, c, i + 1, depth), cap);
    VisitsStep(g, p, c, i, depth);
  }

  lemma VisitsStep(g: Graph, p: Ref, c: Ref, i: nat, depth: nat)
    requires p in g && c in g && i < |Arms(g[p])| == |Arms(g[c])| && depth < RECURSION_LIMIT
    ensures VisitsFrom(g, p, c, i, depth)
            == [Names(p, c, i)]
               + (Visits(g, Arms(g[p])[i], Arms(g[c])[i], depth + 1) + VisitsFrom(g, p, c, i + 1, depth))
  {
    hide Visits;
  }

  /** Past the names, the visits of one component come before the rest. */
  lemma WalkArm(g: Graph, p: Ref, c: Ref, i: nat, met: Bindings, vs: seq<Visit>, rest: seq<Visit>, cap: nat)
    requires WellFormed(g) && p in g && c in g && BindingsIn(g, met) && Label(g[p], i) == Label(g[c], i)
    ensures BindingsIn(g, met + MetIn(g, vs))
    ensures var r := Walk(g, met, vs, cap);
            && (r.0 == OK ==> r.1 == Firsts(met + MetIn(g, vs)))
            && Walk(g, met, [Names(p, c, i)] + (vs + rest), cap)
               == if r.0 == OK then Walk(g, met + MetIn(g, vs), rest, cap) else r
  {
    var v := Names(p, c, i);
    WalkOne(g, met, v, cap);
    WalkStep(g, met, v, vs + rest, cap);
    assert met + MetAt(g, v) == met;
    hide Walk, Label, BindingsIn, WellFormed, MetIn, MetAt, Firsts;
    WalkJoin(g, met, vs, rest, cap);
    WalkBinds(g, met, vs, cap);
  }

  // ----- what a verdict means

  /** Nothing is wrong with the first `k` visits. */
  ghost predicate Passable(g: Graph, vs: seq<Visit>, k: nat, cap: nat)
    requires WellFormed(g) && k <= |vs|
  {
    forall j :: 0 <= j < k ==> !Wrong(g, vs, j, cap)
  }

  ghost predicate Wrong(g: Graph, vs: seq<Visit>, k: nat, cap: nat)
    requires WellFormed(g) && k < |vs|
  {
    MetInIn(g, vs[..k]);
    var met := MetIn(g, vs[..k]);
    Mismatches(g, vs[k]) || Conflicts(g, met, vs[k]) || Occurs(g, met, vs[k]) || Exceeds(g, met, vs[k], cap)
  }

  /** The walk stops at visit `k`, with everything met before it bound. */
  ghost predicate StopsAt(g: Graph, vs: seq<Visit>, k: nat, cap: nat, bindings: Bindings)
    requires WellFormed(g) && k < |vs|
  {
    Passable(g, vs, k, cap) && Wrong(g, vs, k, cap) && bindings == Firsts(MetIn(g, vs[..k]))
  }

  /** Only one thing can be wrong with a visit. */
  lemma OneFault(g: Graph, met: Bindings, v: Visit, cap: nat)
    requires WellFormed(g) && BindingsIn(g, met)
    ensures Mismatches(g, v) ==> !Conflicts(g, met, v) && !Occurs(g, met, v) && !Exceeds(g, met, v, cap)
    ensures Conflicts(g, met, v) ==> !Occurs(g, met, v) && !Exceeds(g, met, v, cap)
    ensures Occurs(g, met, v) ==> !Exceeds(g, met, v, cap)
  {
    hide LeadsTo, HeadsFit, EqualDeep;
  }

  /** Which verdict goes with what is wrong. */
  ghost function Fault(g: Graph, vs: seq<Visit>, k: nat, cap: nat): UnifyResult
    requires WellFormed(g) && k < |vs|
  {
    MetInIn(g, vs[..k]);
    var met := MetIn(g, vs[..k]);
    if Mismatches(g, vs[k]) then MISMATCH
    else if Conflicts(g, met, vs[k]) then CONFLICT
    else if Occurs(g, met, vs[k]) then OCCURS
    else CAP_EXCEEDED
  }

  /** One visit: the walk stops at it, or goes on with what is met there. */
  lemma WalkTurn(g: Graph, vs: seq<Visit>, k: nat, cap: nat)
    requires WellFormed(g) && k < |vs|
    ensures BindingsIn(g, MetIn(g, vs[..k])) && BindingsIn(g, MetIn(g, vs[..k + 1]))
    ensures Walk(g, MetIn(g, vs[..k]), vs[k..], cap)
            == if Wrong(g, vs, k, cap) then (Fault(g, vs, k, cap), Firsts(MetIn(g, vs[..k])))
               else Walk(g, MetIn(g, vs[..k + 1]), vs[k + 1..], cap)
  {
    hide Mismatches, Conflicts, Occurs, Exceeds, MetAt, Firsts, BindingsIn;
    MetInIn(g, vs[..k]);
    MetInIn(g, vs[..k + 1]);
    assert vs[k..][0] == vs[k] && vs[k..][1..] == vs[k + 1..] && vs[..k + 1] == vs[..k] + [vs[k]];
    MetInJoin(g, vs[..k], [vs[k]]);
    assert MetIn(g, [vs[k]]) == MetAt(g, vs[k]) by { assert [vs[k]][1..] == []; }
  }

  /** The walk stops at the first visit with something wrong, or passes them all. */
  lemma {:induction false} WalkStops(g: Graph, vs: seq<Visit>, k: nat, cap: nat) returns (stop: nat)
    requires WellFormed(g) && k <= |vs| && Passable(g, vs, k, cap)
    ensures BindingsIn(g, MetIn(g, vs[..k]))
    ensures k <= stop <= |vs| && Passable(g, vs, stop, cap)
    ensures stop < |vs| ==> Wrong(g, vs, stop, cap)
    ensures Walk(g, MetIn(g, vs[..k]), vs[k..], cap)
            == (if stop < |vs| then Fault(g, vs, stop, cap) else OK, Firsts(MetIn(g, vs[..stop])))
    decreases |vs| - k
  {
    hide Walk, Wrong, Fault, MetIn, Firsts, BindingsIn, WellFormed;
    MetInIn(g, vs[..k]);
    stop := k;
    if k == |vs| {
      assert vs[..k] == vs && vs[k..] == [];
      WalkNothing(g, MetIn(g, vs[..k]), cap);
    } else {
      WalkTurn(g, vs, k, cap);
      if !Wrong(g, vs, k, cap) { stop := WalkStops(g, vs, k + 1, cap); }
    }
  }

  lemma FirstStopIsUnique(g: Graph, vs: seq<Visit>, stop: nat, k: nat, cap: nat)
    requires WellFormed(g) && stop <= |vs| && k < |vs|
    requires Passable(g, vs, stop, cap) && Passable(g, vs, k, cap) && Wrong(g, vs, k, cap)
    ensures stop <= k
    ensures stop < |vs| && Wrong(g, vs, stop, cap) ==> stop == k
  {
    hide Wrong;
  }

  /**
   Every verdict and the bindings left with it: OK if nothing is wrong with any visit, and
   otherwise what is wrong with the first visit that has something wrong.
  */
  lemma StrictVerdict(g: Graph, p: Ref, c: Ref, cap: nat)
    requires WellFormed(g) && Points(g, p) && Points(g, c)
    ensures var vs, r := Visits(g, p, c, 0), Strict(g, p, c, [], cap, 0);
            && (r.0 == OK <==> Passable(g, vs, |vs|, cap))
            && (r.0 == MISMATCH <==> exists k :: 0 <= k < |vs| && StopsAt(g, vs, k, cap, r.1) && Mismatches(g, vs[k]))
            && (r.0 == CONFLICT <==> exists k :: 0 <= k < |vs| && StopsAt(g, vs, k, cap, r.1)
                                                  && ConflictAt(g, vs, k))
            && (r.0 == OCCURS <==> exists k :: 0 <= k < |vs| && StopsAt(g, vs, k, cap, r.1)
                                                && Occurs(g, MetIn(g, vs[..k]), vs[k]))
            && (r.0 == CAP_EXCEEDED <==> exists k :: 0 <= k < |vs| && StopsAt(g, vs, k, cap, r.1)
                                                      && Exceeds(g, MetIn(g, vs[..k]), vs[k], cap))
  {
    hide Mismatches, Conflicts, Occurs, Exceeds, Firsts, Visits, Strict, Walk, Wrong;
    var vs, r := Visits(g, p, c, 0), Strict(g, p, c, [], cap, 0);
    StartIsEmpty(g, vs);
    StrictIsWalk(g, p, c, [], cap, 0);
    var stop := WalkStops(g, vs, 0, cap);
    assert vs[0..] == vs;
    forall k | 0 <= k < |vs| && StopsAt(g, vs, k, cap, r.1)
      ensures stop < |vs| && k == stop && r.0 == Fault(g, vs, k, cap)
    {
      FirstStopIsUnique(g, vs, stop, k, cap);
    }
    if stop < |vs| {
      FaultMeans(g, vs, stop, cap);
      assert StopsAt(g, vs, stop, cap, r.1);
    }
  }

  ghost predicate ConflictAt(g: Graph, vs: seq<Visit>, k: nat)
    requires WellFormed(g) && k < |vs|
  {
    MetInIn(g, vs[..k]);
    Conflicts(g, MetIn(g, vs[..k]), vs[k])
  }

  lemma StartIsEmpty(g: Graph, vs: seq<Visit>)
    ensures Firsts([]) == [] && MetIn(g, vs[..0]) == [] && BindingsIn(g, [])
  {
  }

  lemma FaultMeans(g: Graph, vs: seq<Visit>, k: nat, cap: nat)
    requires WellFormed(g) && k < |vs| && Wrong(g, vs, k, cap)
    ensures var met, v, f := MetIn(g, vs[..k]), vs[k], Fault(g, vs, k, cap);
            && f != OK
            && (f == MISMATCH <==> Mismatches(g, v)) && (f == CONFLICT <==> ConflictAt(g, vs, k))
            && (f == OCCURS <==> Occurs(g, met, v)) && (f == CAP_EXCEEDED <==> Exceeds(g, met, v, cap))
  {
    MetInIn(g, vs[..k]);
    OneFault(g, MetIn(g, vs[..k]), vs[k], cap);
    hide Mismatches, Conflicts, Occurs, Exceeds;
  }

  // ----- heads and components

  lemma SameNames(tp: TypeInfo, tc: TypeInfo)
    requires tp.Record? && HeadsFit(tp, tc) && forall i :: Label(tp, i) == Label(tc, i)
    ensures FieldNames(tp.named) == FieldNames(tc.named)
  {
    forall i | 0 <= i < |tp.named| ensures FieldNames(tp.named)[i] == FieldNames(tc.named)[i] {
      assert Label(tp, |tp.positional| + i) == Label(tc, |tc.positional| + i);
    }
  }

  /** Heads fit and field names agree just if the heads are equal up to what `Erase` leaves out. */
  lemma HeadsFitMeans(p: Ref, tp: TypeInfo, c: Ref, tc: TypeInfo)
    requires !tp.Param?
    ensures HeadsFit(tp, tc) && (forall i :: Label(tp, i) == Label(tc, i)) <==>
            Erase(HeadOf(p, tp)) == Erase(HeadOf(c, tc))
  {
    if Erase(HeadOf(p, tp)) == Erase(HeadOf(c, tc)) {
      if tp.Record? { EqualHeadsFit(p, tp, c, tc); }
    } else if tp.Record? && HeadsFit(tp, tc) && forall i :: Label(tp, i) == Label(tc, i) {
      SameNames(tp, tc);
    }
  }

  /** The place of a component in its type. */
  datatype Role =
    | Inner
    | Receiver
    | Result
    | Parameter(i: nat)
    | Argument(i: nat)
    | Positional(i: nat)
    | FieldType(i: nat)

  function Component(t: TypeInfo, role: Role): Option<Ref> {
    match role
    case Inner => if t.Nullable? then Some(t.inner) else None
    case Receiver => if t.Function? && t.receiver != NULL then Some(t.receiver) else None
    case Result => if t.Function? then Some(t.ret) else None
    case Parameter(i) => if t.Function? && i < |t.params| then Some(t.params[i]) else None
    case Argument(i) => if t.Named? && i < |t.args| then Some(t.args[i]) else None
    case Positional(i) => if t.Record? && i < |t.positional| then Some(t.positional[i]) else None
    case FieldType(i) => if t.Record? && i < |t.named| then Some(t.named[i].ty) else None
  }

  lemma ZipMeans(xs: seq<Ref>, ys: seq<Ref>, x: Pair)
    ensures x in Zip(xs, ys) <==> exists i :: 0 <= i < |xs| && i < |ys| && xs[i] == x.0 && ys[i] == x.1
  {
    forall i | 0 <= i < |xs| && i < |ys| ensures (xs[i], ys[i]) in Zip(xs, ys) {
      assert Zip(xs, ys)[i] == (xs[i], ys[i]);
    }
  }

  predicate SameRole(p: TypeInfo, c: TypeInfo, x: Pair, role: Role) {
    Component(p, role) == Some(x.0) && Component(c, role) == Some(x.1)
  }

  /** The lenient walk goes on to just the pairs of components in the same place of both types. */
  lemma ZippedByRole(p: TypeInfo, c: TypeInfo, x: Pair)
    requires SameKind(p, c)
    ensures x in ZippedArms(p, c) <==> exists role :: SameRole(p, c, x, role)
  {
    match p
    case Nullable(_) => assert x in ZippedArms(p, c) ==> SameRole(p, c, x, Inner);
    case Function(_, _, params, _) => ZippedFunction(p, c, x);
    case Named(_, args, _, _) =>
      ZipMeans(args, c.args, x);
      if x in Zip(args, c.args) {
        var i :| 0 <= i < |args| && i < |c.args| && args[i] == x.0 && c.args[i] == x.1;
        assert SameRole(p, c, x, Argument(i));
      }
    case Record(_, _) => ZippedRecord(p, c, x);
    case _ =>
  }

  lemma ZippedFunction(p: TypeInfo, c: TypeInfo, x: Pair)
    requires p.Function? && c.Function?
    ensures x in ZippedArms(p, c) <==> exists role :: SameRole(p, c, x, role)
  {
    ZipMeans(p.params, c.params, x);
    if x in Zip(p.params, c.params) {
      var i :| 0 <= i < |p.params| && i < |c.params| && p.params[i] == x.0 && c.params[i] == x.1;
      assert SameRole(p, c, x, Parameter(i));
    } else if x in ZippedArms(p, c) {
      assert SameRole(p, c, x, Result) || SameRole(p, c, x, Receiver);
    }
    if role :| SameRole(p, c, x, role) {
      if role.Parameter? { assert p.params[role.i] == x.0 && c.params[role.i] == x.1; }
    }
  }

  lemma ZippedRecord(p: TypeInfo, c: TypeInfo, x: Pair)
    requires p.Record? && c.Record?
    ensures x in ZippedArms(p, c) <==> exists role :: SameRole(p, c, x, role)
  {
    var ts, us := FieldTypes(p.named), FieldTypes(c.named);
    ZipMeans(p.positional, c.positional, x);
    ZipMeans(ts, us, x);
    if x in Zip(p.positional, c.positional) {
      var i :| 0 <= i < |p.positional| && i < |c.positional| && p.positional[i] == x.0 && c.positional[i] == x.1;
      assert SameRole(p, c, x, Positional(i));
    }
    if x in Zip(ts, us) {
      var i :| 0 <= i < |ts| && i < |us| && ts[i] == x.0 && us[i] == x.1;
      assert SameRole(p, c, x, FieldType(i));
    }
    if role :| SameRole(p, c, x, role) {
      if role.Positional? { assert p.positional[role.i] == x.0 && c.positional[role.i] == x.1; }
      if role.FieldType? { assert ts[role.i] == x.0 && us[role.i] == x.1; }
    }
  }

  // ----- what the lenient walk binds

  /** Following these components from both types, through nodes of equal kinds, leads to `x` and `y`. */
  predicate Aligned(g: Graph, p: Ref, c: Ref, roles: seq<Role>, x: Ref, y: Ref)
    decreases |roles|
  {
    && p in g && c in g
    && if roles == [] then x == p && y == c
       else
         && !g[p].Param? && SameKind(g[p], g[c])
         && Component(g[p], roles[0]).Some? && Component(g[c], roles[0]).Some?
         && Aligned(g, Component(g[p], roles[0]).value, Component(g[c], roles[0]).value, roles[1..], x, y)
  }

  /** The binding aligns a parameter of the pattern with its replacement, fewer than 512 components deep. */
  ghost predicate IsAligned(g: Graph, p: Ref, c: Ref, depth: nat, b: Binding) {
    exists roles :: Aligned(g, p, c, roles, b.param, b.replacement) && |roles| + depth < RECURSION_LIMIT
                    && b.param in g && g[b.param].Param?
  }

  /** The result binds what `s` binds, and new parameters only to what they are aligned with. */
  ghost predicate BindsAligned(g: Graph, p: Ref, c: Ref, depth: nat, s: Bindings, r: Bindings) {
    forall b <- r :: b in s || IsAligned(g, p, c, depth, b)
  }

  lemma AlignedBehind(g: Graph, p: Ref, c: Ref, depth: nat, x: Pair, b: Binding)
    requires p in g && c in g && !g[p].Param? && SameKind(g[p], g[c]) && x in ZippedArms(g[p], g[c])
    requires IsAligned(g, x.0, x.1, depth + 1, b)
    ensures IsAligned(g, p, c, depth, b)
  {
    hide Component;
    ZippedByRole(g[p], g[c], x);
    var role :| SameRole(g[p], g[c], x, role);
    var rest :| Aligned(g, x.0, x.1, rest, b.param, b.replacement) && |rest| + depth + 1 < RECURSION_LIMIT;
    var roles := [role] + rest;
    assert roles[0] == role && roles[1..] == rest;
    assert Aligned(g, p, c, roles, b.param, b.replacement);
  }

  lemma {:induction false} LenientBindsAligned(g: Graph, p: Ref, c: Ref, s: Bindings, cap: nat, depth: nat)
    requires WellFormed(g) && Points(g, p) && Points(g, c)
    ensures BindsAligned(g, p, c, depth, s, Lenient(g, p, c, s, cap, depth))
    decreases RECURSION_LIMIT - depth, 0
  {
    if p == NULL || c == NULL || depth >= RECURSION_LIMIT {
    } else if g[p].Param? {
      assert Aligned(g, p, c, [], p, c);
      assert IsAligned(g, p, c, depth, Binding(p, c));
    } else if SameKind(g[p], g[c]) {
      ZippedArmsIn(g, p, c);
      hide IsAligned, ZippedArms, SameKind;
      PairsBindAligned(g, p, c, ZippedArms(g[p], g[c]), s, cap, depth);
    }
  }

  lemma {:induction false} PairsBindAligned(g: Graph, p: Ref, c: Ref, pairs: seq<Pair>, s: Bindings, cap: nat,
                                            depth: nat)
    requires WellFormed(g) && p in g && c in g && !g[p].Param? && SameKind(g[p], g[c]) && depth < RECURSION_LIMIT
    requires PairsIn(g, pairs) && forall x <- pairs :: x in ZippedArms(g[p], g[c])
    ensures BindsAligned(g, p, c, depth, s, LenientPairs(g, pairs, s, cap, depth))
    decreases RECURSION_LIMIT - depth - 1, 1 + |pairs|
  {
    hide IsAligned, ZippedArms, SameKind, Lenient;
    if pairs != [] {
      var x := pairs[0];
      assert x in pairs;
      LenientBindsAligned(g, x.0, x.1, s, cap, depth + 1);
      var s' := Lenient(g, x.0, x.1, s, cap, depth + 1);
      PairsBindAligned(g, p, c, pairs[1..], s', cap, depth);
      forall b <- s' ensures b in s || IsAligned(g, p, c, depth, b) {
        if b !in s { AlignedBehind(g, p, c, depth, x, b); }
      }
    }
  }

  /** A parameter that is aligned with something is bound, unless all slots are taken. */
  lemma {:induction false} AlignedIsBound(g: Graph, p: Ref, c: Ref, s: Bindings, cap: nat, depth: nat, roles: seq<Role>,
                                          x: Ref, y: Ref)
    requires WellFormed(g) && Aligned(g, p, c, roles, x, y) && |roles| + depth < RECURSION_LIMIT
    requires x in g && g[x].Param?
    ensures Points(g, p) && Points(g, c)
    ensures var r := Lenient(g, p, c, s, cap, depth);
            Bound(r, x) || |r| >= cap
    decreases RECURSION_LIMIT - depth, 0
  {
    if roles == [] {
      if !Bound(s, p) && |s| < cap { assert Binding(p, c) in s + [Binding(p, c)]; }
    } else {
      ZippedArmsIn(g, p, c);
      var q := (Component(g[p], roles[0]).value, Component(g[c], roles[0]).value);
      assert SameRole(g[p], g[c], q, roles[0]);
      ZippedByRole(g[p], g[c], q);
      var k :| 0 <= k < |ZippedArms(g[p], g[c])| && ZippedArms(g[p], g[c])[k] == q;
      hide ZippedArms, SameKind, Component, LenientPairs;
      PairIsBound(g, ZippedArms(g[p], g[c]), k, s, cap, depth, roles[1..], x, y);
    }
  }

  lemma {:induction false} PairIsBound(g: Graph, pairs: seq<Pair>, k: nat, s: Bindings, cap: nat, depth: nat,
                                       roles: seq<Role>, x: Ref, y: Ref)
    requires WellFormed(g) && PairsIn(g, pairs) && k < |pairs| && depth < RECURSION_LIMIT
    requires Aligned(g, pairs[k].0, pairs[k].1, roles, x, y) && |roles| + depth + 1 < RECURSION_LIMIT
    requires x in g && g[x].Param?
    ensures var r := LenientPairs(g, pairs, s, cap, depth);
            Bound(r, x) || |r| >= cap
    decreases RECURSION_LIMIT - depth - 1, 1 + |pairs|
  {
    hide *;
    PairsStep(g, pairs, s, cap, depth);
    var s' := Lenient(g, pairs[0].0, pairs[0].1, s, cap, depth + 1);
    if k == 0 {
      AlignedIsBound(g, pairs[0].0, pairs[0].1, s, cap, depth + 1, roles, x, y);
      if Bound(s', x) { StaysBound(s', LenientPairs(g, pairs, s, cap, depth), x); }
    } else {
      PairIsBound(g, pairs[1..], k - 1, s', cap, depth, roles, x, y);
    }
  }

  lemma PairsStep(g: Graph, pairs: seq<Pair>, s: Bindings, cap: nat, depth: nat)
    requires WellFormed(g) && PairsIn(g, pairs) && pairs != [] && depth < RECURSION_LIMIT
    ensures Points(g, pairs[0].0) && Points(g, pairs[0].1) && PairsIn(g, pairs[1..])
    ensures var s' := Lenient(g, pairs[0].0, pairs[0].1, s, cap, depth + 1);
            s' <= LenientPairs(g, pairs, s, cap, depth) == LenientPairs(g, pairs[1..], s', cap, depth)
  {
    assert pairs[0] in pairs;
    hide Lenient;
  }

  lemma StaysBound(s: Bindings, t: Bindings, x: Ref)
    requires s <= t && Bound(s, x)
    ensures Bound(t, x)
  {
    var b :| b in s && b.param == x;
    assert b in t;
  }

  /**
   With slots to spare the lenient walk binds just the parameters that are aligned with
   some node through equal kinds, and each to such a node.
  */
  lemma LenientBinds(g: Graph, p: Ref, c: Ref, cap: nat, x: Ref)
    requires WellFormed(g) && Points(g, p) && Points(g, c) && x in g && g[x].Param?
    ensures var r := Lenient(g, p, c, [], cap, 0);
            && (forall b <- r :: IsAligned(g, p, c, 0, b))
            && (|r| < cap ==> (Bound(r, x) <==> exists y :: IsAligned(g, p, c, 0, Binding(x, y))))
  {
    hide Lenient, Aligned;
    LenientBindsAligned(g, p, c, [], cap, 0);
    var r := Lenient(g, p, c, [], cap, 0);
    if Bound(r, x) {
      var b :| b in r && b.param == x;
      assert IsAligned(g, p, c, 0, Binding(x, b.replacement));
    }
    if y :| IsAligned(g, p, c, 0, Binding(x, y)) {
      var roles :| Aligned(g, p, c, roles, x, y) && |roles| < RECURSION_LIMIT;
      AlignedIsBound(g, p, c, [], cap, 0, roles, x, y);
    }
  }
}
