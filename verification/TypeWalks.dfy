/**
 Conformance along the supertype edges a language supplies, with one visited list that is
 shared by a whole walk and never popped, and exhaustiveness over it.
*/
module TypeWalks {
  import opened TypeGraph
  import opened TypeEquality

  const SUPERS_CAP: nat := 16
  const VARIANTS_CAP: nat := 64

  /**
   The descriptor hooks, as pure functions. `heapOk` tells whether the second,
   larger buffer for a node with more than 16 supertypes can be allocated.
  */
  datatype Language = Language(supertypes: Ref -> seq<Ref>, variants: Ref -> seq<Ref>, heapOk: bool)

  ghost predicate LanguageIn(lang: Language, g: Graph) {
    forall r: Ref :: PointsAll(g, lang.supertypes(r)) && PointsAll(g, lang.variants(r))
  }

  lemma LanguageAt(lang: Language, g: Graph, r: Ref)
    requires LanguageIn(lang, g)
    ensures PointsAll(g, lang.supertypes(r)) && PointsAll(g, lang.variants(r))
  {
  }

  /** `fetch_supers`. */
  function FetchSupers(lang: Language, r: Ref): (supers: seq<Ref>)
    ensures supers <= lang.supertypes(r)
    ensures lang.heapOk || |lang.supertypes(r)| <= 16 ==> supers == lang.supertypes(r)
    ensures supers != lang.supertypes(r) ==> |supers| == 16
  {
    var all := lang.supertypes(r);
    if |all| <= SUPERS_CAP || lang.heapOk then all else all[..SUPERS_CAP]
  }

  /** `conforms_dfs`: the answer and the visited list it leaves. */
  ghost function Conforms(g: Graph, sub: Ref, super: Ref, lang: Language, visited: seq<Ref>, depth: nat)
    : (r: (bool, seq<Ref>))
    requires WellFormed(g) && LanguageIn(lang, g) && Points(g, sub) && Points(g, super)
    ensures visited <= r.1
    decreases RECURSION_LIMIT - depth, 0
  {
    if sub == NULL then (false, visited)
    else if EqualDeep(g, sub, super) then (true, visited)
    else if depth >= RECURSION_LIMIT then (false, visited)
    else if sub in visited || |visited| >= RECURSION_LIMIT then (false, visited)
    else ConformsAny(g, FetchSupers(lang, sub), super, lang, visited + [sub], depth)
  }

  /** The loop over the supertypes of one node, up to the first that conforms. */
  ghost function ConformsAny(g: Graph, subs: seq<Ref>, super: Ref, lang: Language, visited: seq<Ref>, depth: nat)
    : (r: (bool, seq<Ref>))
    requires WellFormed(g) && LanguageIn(lang, g) && Points(g, super) && PointsAll(g, subs) && depth < RECURSION_LIMIT
    ensures visited <= r.1
    decreases RECURSION_LIMIT - depth - 1, 1 + |subs|
  {
    if subs == [] then (false, visited)
    else
      var r := Conforms(g, subs[0], super, lang, visited, depth + 1);
      if r.0 then r else ConformsAny(g, subs[1..], super, lang, r.1, depth)
  }

  // ----- what the answer means

  /** A path of supertype edges between nodes. */
  predicate IsPath(lang: Language, path: seq<Ref>) {
    && path != [] && NULL !in path
    && forall i :: 0 <= i < |path| - 1 ==> path[i + 1] in lang.supertypes(path[i])
  }

  /** The path leads from `sub` to a node deep-equal to `super`. */
  ghost predicate LeadsTo(g: Graph, path: seq<Ref>, sub: Ref, super: Ref, lang: Language)
    requires WellFormed(g) && Points(g, super)
  {
    && IsPath(lang, path) && path[0] == sub
    && Points(g, path[|path| - 1]) && EqualDeep(g, path[|path| - 1], super)
  }

  ghost predicate Reaches(g: Graph, sub: Ref, super: Ref, lang: Language)
    requires WellFormed(g) && Points(g, super)
  {
    exists path :: LeadsTo(g, path, sub, super, lang)
  }

  lemma ReachesHere(g: Graph, sub: Ref, super: Ref, lang: Language)
    requires WellFormed(g) && Points(g, super) && sub in g && EqualDeep(g, sub, super)
    ensures Reaches(g, sub, super, lang)
  {
    assert LeadsTo(g, [sub], sub, super, lang);
  }

  lemma LongerPath(lang: Language, sub: Ref, path: seq<Ref>)
    requires IsPath(lang, path) && sub != NULL && path[0] in lang.supertypes(sub)
    ensures IsPath(lang, [sub] + path)
  {
    var longer := [sub] + path;
    forall i | 0 <= i < |longer| - 1 ensures longer[i + 1] in lang.supertypes(longer[i]) {
      if i > 0 { assert longer[i] == path[i - 1] && longer[i + 1] == path[i]; }
    }
  }

  lemma ReachesStep(g: Graph, sub: Ref, next: Ref, super: Ref, lang: Language)
    requires WellFormed(g) && Points(g, super) && sub != NULL && next in lang.supertypes(sub)
    requires Reaches(g, next, super, lang)
    ensures Reaches(g, sub, super, lang)
  {
    hide EqualDeep, IsPath;
    var path :| LeadsTo(g, path, next, super, lang);
    PathNotEmpty(lang, path);
    LongerPath(lang, sub, path);
    assert ([sub] + path)[|path|] == path[|path| - 1];
    assert LeadsTo(g, [sub] + path, sub, super, lang);
  }

  lemma PathNotEmpty(lang: Language, path: seq<Ref>)
    requires IsPath(lang, path)
    ensures path != []
  {
  }

  lemma {:induction false} ConformsSound(g: Graph, sub: Ref, super: Ref, lang: Language, visited: seq<Ref>, depth: nat)
    requires WellFormed(g) && LanguageIn(lang, g) && Points(g, sub) && Points(g, super)
    requires Conforms(g, sub, super, lang, visited, depth).0
    ensures Reaches(g, sub, super, lang)
    decreases RECURSION_LIMIT - depth, 0
  {
    hide Reaches;
    if EqualDeep(g, sub, super) {
      ReachesHere(g, sub, super, lang);
    } else {
      var next := ConformsAnySound(g, FetchSupers(lang, sub), super, lang, visited + [sub], depth);
      ReachesStep(g, sub, next, super, lang);
    }
  }

  lemma {:induction false} ConformsAnySound(g: Graph, subs: seq<Ref>, super: Ref, lang: Language, visited: seq<Ref>,
                                            depth: nat) returns (next: Ref)
    requires WellFormed(g) && LanguageIn(lang, g) && Points(g, super) && PointsAll(g, subs) && depth < RECURSION_LIMIT
    requires ConformsAny(g, subs, super, lang, visited, depth).0
    ensures next in subs && Reaches(g, next, super, lang)
    decreases RECURSION_LIMIT - depth - 1, 1 + |subs|
  {
    hide Reaches;
    var r := Conforms(g, subs[0], super, lang, visited, depth + 1);
    if r.0 {
      ConformsSound(g, subs[0], super, lang, visited, depth + 1);
      next := subs[0];
    } else {
      next := ConformsAnySound(g, subs[1..], super, lang, r.1, depth);
    }
  }

  // ----- a negative answer is right while the graph fits in the visited list

  /** The non-null supertypes of `v` are among `seen`. */
  predicate EdgesOf(lang: Language, v: Ref, seen: seq<Ref>) {
    forall w <- lang.supertypes(v) :: w == NULL || w in seen
  }

  predicate EdgesStay(lang: Language, nodes: seq<Ref>, seen: seq<Ref>) {
    forall v <- nodes :: EdgesOf(lang, v, seen)
  }

  /** No node of `nodes` is deep-equal to `super`. */
  ghost predicate NoneEqual(g: Graph, nodes: seq<Ref>, super: Ref)
    requires WellFormed(g) && Points(g, super)
  {
    forall v <- nodes :: v in g && !EqualDeep(g, v, super)
  }

  /** `nodes` is closed under supertypes and small enough for the visited list. */
  ghost predicate Room(lang: Language, g: Graph, nodes: set<Ref>) {
    && |nodes| <= RECURSION_LIMIT
    && (forall r <- nodes :: forall w <- lang.supertypes(r) :: w == NULL || w in nodes)
    && (forall r <- nodes :: lang.heapOk || |lang.supertypes(r)| <= SUPERS_CAP)
  }

  ghost predicate Within(visited: seq<Ref>, nodes: set<Ref>, depth: nat) {
    && (forall r <- visited :: r in nodes)
    && (forall i, j :: 0 <= i < j < |visited| ==> visited[i] != visited[j])
    && depth <= |visited|
  }

  lemma {:induction false} WithinFits(visited: seq<Ref>, nodes: set<Ref>, depth: nat)
    requires Within(visited, nodes, depth)
    ensures |visited| <= |nodes|
    ensures |visited| == |nodes| ==> forall r <- nodes :: r in visited
    decreases |visited|
  {
    if visited == [] {
      if |nodes| == 0 { assert nodes == {}; }
    } else {
      var last, rest := visited[|visited| - 1], visited[..|visited| - 1];
      forall r <- rest ensures r in nodes - {last} {
        var i :| 0 <= i < |rest| && rest[i] == r;
        assert visited[i] != visited[|visited| - 1];
      }
      WithinFits(rest, nodes - {last}, 0);
      forall r <- nodes | |visited| == |nodes| ensures r in visited {
        assert r == last || r in nodes - {last};
        assert r == last || r in rest;
      }
    }
  }

  /** What a failed walk has established about the nodes it added to `visited`. */
  ghost predicate Closes(g: Graph, super: Ref, lang: Language, visited: seq<Ref>, visited': seq<Ref>, nodes: set<Ref>)
    requires WellFormed(g) && Points(g, super)
  {
    && visited <= visited'
    && Within(visited', nodes, 0)
    && EdgesStay(lang, visited'[|visited|..], visited')
    && NoneEqual(g, visited'[|visited|..], super)
  }

  lemma ClosesTrans(g: Graph, super: Ref, lang: Language, a: seq<Ref>, b: seq<Ref>, c: seq<Ref>, nodes: set<Ref>)
    requires WellFormed(g) && Points(g, super)
    requires Closes(g, super, lang, a, b, nodes) && Closes(g, super, lang, b, c, nodes)
    ensures Closes(g, super, lang, a, c, nodes)
  {
    assert c[|a|..] == b[|a|..] + c[|b|..];
    forall v <- c[|a|..] ensures EdgesOf(lang, v, c) {
      if v in b[|a|..] {
        assert EdgesOf(lang, v, b);
      }
    }
  }

  lemma ClosesNode(g: Graph, sub: Ref, super: Ref, lang: Language, visited: seq<Ref>, visited': seq<Ref>,
                   nodes: set<Ref>)
    requires WellFormed(g) && Points(g, super) && sub in g && !EqualDeep(g, sub, super)
    requires Closes(g, super, lang, visited + [sub], visited', nodes)
    requires EdgesOf(lang, sub, visited')
    ensures Closes(g, super, lang, visited, visited', nodes)
  {
    hide EqualDeep, EdgesOf, Within, WellFormed;
    assert (visited + [sub])[|visited|] == visited'[|visited|];
    var rest := visited'[|visited + [sub]|..];
    assert visited'[|visited|..] == [sub] + rest;
    forall v <- visited'[|visited|..] ensures EdgesOf(lang, v, visited') && v in g && !EqualDeep(g, v, super) {
      if v != sub { assert v in rest; }
    }
  }

  lemma ClosesNothing(g: Graph, super: Ref, lang: Language, visited: seq<Ref>, nodes: set<Ref>, depth: nat)
    requires WellFormed(g) && Points(g, super) && Within(visited, nodes, depth)
    ensures Closes(g, super, lang, visited, visited, nodes)
  {
  }

  lemma {:induction false} ConformsCloses(g: Graph, sub: Ref, super: Ref, lang: Language, visited: seq<Ref>, depth: nat,
                                          nodes: set<Ref>)
    requires WellFormed(g) && LanguageIn(lang, g) && Points(g, sub) && Points(g, super)
    requires Room(lang, g, nodes) && Within(visited, nodes, depth) && (sub == NULL || sub in nodes)
    requires !Conforms(g, sub, super, lang, visited, depth).0
    ensures var visited' := Conforms(g, sub, super, lang, visited, depth).1;
            Closes(g, super, lang, visited, visited', nodes) && (sub == NULL || sub in visited')
    decreases RECURSION_LIMIT - depth, 0
  {
    hide EqualDeep, Closes, LanguageIn, ConformsAny;
    WithinFits(visited, nodes, depth);
    if sub == NULL || sub in visited {
      ClosesNothing(g, super, lang, visited, nodes, depth);
    } else {
      assert |visited| < RECURSION_LIMIT;
      ConformsNode(g, sub, super, lang, visited, depth);
      var supers := FetchSupers(lang, sub);
      ConformsAnyCloses(g, supers, super, lang, visited + [sub], depth, nodes);
      var visited' := ConformsAny(g, supers, super, lang, visited + [sub], depth).1;
      SeenStays(visited + [sub], visited', sub);
      ClosesNode(g, sub, super, lang, visited, visited', nodes);
    }
  }

  lemma SeenStays(a: seq<Ref>, b: seq<Ref>, r: Ref)
    requires a <= b && r in a
    ensures r in b
  {
  }

  lemma ConformsNode(g: Graph, sub: Ref, super: Ref, lang: Language, visited: seq<Ref>, depth: nat)
    requires WellFormed(g) && LanguageIn(lang, g) && sub in g && Points(g, super)
    requires depth < RECURSION_LIMIT && sub !in visited && |visited| < RECURSION_LIMIT
    requires !Conforms(g, sub, super, lang, visited, depth).0
    ensures !EqualDeep(g, sub, super) && PointsAll(g, FetchSupers(lang, sub))
    ensures Conforms(g, sub, super, lang, visited, depth) ==
            ConformsAny(g, FetchSupers(lang, sub), super, lang, visited + [sub], depth)
  {
  }

  lemma {:induction false} ConformsAnyCloses(g: Graph, subs: seq<Ref>, super: Ref, lang: Language, visited: seq<Ref>,
                                             depth: nat, nodes: set<Ref>)
    requires WellFormed(g) && LanguageIn(lang, g) && Points(g, super) && PointsAll(g, subs) && depth < RECURSION_LIMIT
    requires Room(lang, g, nodes) && Within(visited, nodes, depth + 1)
    requires forall w <- subs :: w == NULL || w in nodes
    requires !ConformsAny(g, subs, super, lang, visited, depth).0
    ensures var visited' := ConformsAny(g, subs, super, lang, visited, depth).1;
            && Closes(g, super, lang, visited, visited', nodes)
            && forall w <- subs :: w == NULL || w in visited'
    decreases RECURSION_LIMIT - depth - 1, 1 + |subs|
  {
    hide EqualDeep, LanguageIn, Conforms, EdgesStay, NoneEqual, Room;
    if subs == [] {
      ClosesNothing(g, super, lang, visited, nodes, depth + 1);
    } else {
      var r := Conforms(g, subs[0], super, lang, visited, depth + 1);
      ConformsCloses(g, subs[0], super, lang, visited, depth + 1, nodes);
      ConformsAnyCloses(g, subs[1..], super, lang, r.1, depth, nodes);
      ClosesTrans(g, super, lang, visited, r.1, ConformsAny(g, subs, super, lang, visited, depth).1, nodes);
      assert subs == [subs[0]] + subs[1..];
    }
  }

  /** A path cannot leave a set of nodes that is closed under supertypes. */
  lemma {:induction false} PathStays(lang: Language, path: seq<Ref>, seen: seq<Ref>, i: nat)
    requires IsPath(lang, path) && path[0] in seen && EdgesStay(lang, seen, seen) && i < |path|
    ensures path[i] in seen
  {
    if i > 0 {
      PathStays(lang, path, seen, i - 1);
    }
  }

  /** `kavak_ty_conforms`, for a language with a supertype hook. */
  ghost predicate ConformsTo(g: Graph, sub: Ref, super: Ref, lang: Language)
    requires WellFormed(g) && LanguageIn(lang, g) && Points(g, sub) && Points(g, super)
  {
    && sub != NULL && super != NULL
    && (EqualDeep(g, sub, super) || Conforms(g, sub, super, lang, [], 0).0)
  }

  /** Conformance never claims a supertype that cannot be reached. */
  lemma ConformsToSound(g: Graph, sub: Ref, super: Ref, lang: Language)
    requires WellFormed(g) && LanguageIn(lang, g) && Points(g, sub) && Points(g, super)
    requires ConformsTo(g, sub, super, lang)
    ensures Reaches(g, sub, super, lang)
  {
    if EqualDeep(g, sub, super) {
      ReachesHere(g, sub, super, lang);
    } else {
      ConformsSound(g, sub, super, lang, [], 0);
    }
  }

  /** It is exact reachability when at most 512 nodes can be reached. */
  lemma ConformsToExact(g: Graph, sub: Ref, super: Ref, lang: Language, nodes: set<Ref>)
    requires WellFormed(g) && LanguageIn(lang, g) && Points(g, super)
    requires Room(lang, g, nodes) && sub in nodes && sub in g && super != NULL
    ensures ConformsTo(g, sub, super, lang) <==> Reaches(g, sub, super, lang)
  {
    if ConformsTo(g, sub, super, lang) {
      ConformsToSound(g, sub, super, lang);
    } else if Reaches(g, sub, super, lang) {
      ConformsCloses(g, sub, super, lang, [], 0, nodes);
      var seen := Conforms(g, sub, super, lang, [], 0).1;
      assert seen[0..] == seen;
      var path :| LeadsTo(g, path, sub, super, lang);
      PathStays(lang, path, seen, |path| - 1);
    }
  }

  // ----- the walk itself

  /** The stack buffer of `kavak_ty_conforms`. */
  class VisitedList {
    const nodes: array<Ref>
    var count: nat

    ghost predicate Valid() reads this {
      nodes.Length == RECURSION_LIMIT && count <= RECURSION_LIMIT
    }

    ghost function Contents(): seq<Ref>
      requires Valid()
      reads this, nodes
    {
      nodes[..count]
    }

    constructor ()
      ensures Valid() && Contents() == [] && fresh(nodes)
    {
      nodes := new Ref[RECURSION_LIMIT](_ => NULL);
      count := 0;
    }

    /** `visited_seen`. */
    method Seen(r: Ref) returns (seen: bool)
      requires Valid()
      ensures seen <==> r in Contents()
    {
      for i := 0 to count
        invariant r !in nodes[..i]
      {
        if nodes[i] == r { return true; }
      }
      return false;
    }

    method Add(r: Ref)
      requires Valid() && count < RECURSION_LIMIT
      modifies this`count, nodes
      ensures Valid() && Contents() == old(Contents()) + [r]
    {
      nodes[count] := r;
      count := count + 1;
    }

    /** `conforms_dfs`. */
    method ConformsWalk(g: Graph, sub: Ref, super: Ref, lang: Language, depth: nat) returns (found: bool)
      requires Valid() && WellFormed(g) && LanguageIn(lang, g) && Points(g, sub) && Points(g, super)
      requires depth <= RECURSION_LIMIT
      modifies this`count, nodes
      ensures Valid() && (found, Contents()) == Conforms(g, sub, super, lang, old(Contents()), depth)
      decreases RECURSION_LIMIT - depth, 0
    {
      hide ConformsAny, EqualDeep;
      if sub == NULL { return false; }
      var equal := EqualDeepWalk(g, sub, super);
      if equal { return true; }
      if depth >= RECURSION_LIMIT { return false; }
      var seen := Seen(sub);
      if seen || count >= RECURSION_LIMIT { return false; }
      Add(sub);
      found := ConformsLoop(g, FetchSupers(lang, sub), super, lang, depth);
    }

    method ConformsLoop(g: Graph, supers: seq<Ref>, super: Ref, lang: Language, depth: nat) returns (found: bool)
      requires Valid() && WellFormed(g) && LanguageIn(lang, g) && Points(g, super) && PointsAll(g, supers)
      requires depth < RECURSION_LIMIT
      modifies this`count, nodes
      ensures Valid() && (found, Contents()) == ConformsAny(g, supers, super, lang, old(Contents()), depth)
      decreases RECURSION_LIMIT - depth - 1, 1
    {
      hide Conforms, LanguageIn, WellFormed;
      for i := 0 to |supers|
        invariant Valid()
        invariant ConformsAny(g, supers, super, lang, old(Contents()), depth) ==
                  ConformsAny(g, supers[i..], super, lang, Contents(), depth)
      {
        assert supers[i..][1..] == supers[i + 1..];
        found := ConformsWalk(g, supers[i], super, lang, depth + 1);
        if found { return; }
      }
      found := false;
    }
  }

  /** `kavak_ty_conforms`. */
  method ConformsToWalk(g: Graph, sub: Ref, super: Ref, lang: Language) returns (found: bool)
    requires WellFormed(g) && LanguageIn(lang, g) && Points(g, sub) && Points(g, super)
    ensures found <==> ConformsTo(g, sub, super, lang)
  {
    if sub == NULL || super == NULL { return false; }
    var equal := EqualDeepWalk(g, sub, super);
    if equal { return true; }
    var visited := new VisitedList();
    found := visited.ConformsWalk(g, sub, super, lang, 0);
  }

  // ----- exhaustiveness

  ghost predicate Covers(g: Graph, covered: seq<Ref>, variant: Ref, lang: Language)
    requires WellFormed(g) && LanguageIn(lang, g) && PointsAll(g, covered) && Points(g, variant)
  {
    exists c <- covered :: ConformsTo(g, variant, c, lang)
  }

  /** The cases are examined only if there are between 1 and 64 of them. */
  predicate Examined(lang: Language, sealed: Ref) {
    sealed != NULL && 0 < |lang.variants(sealed)| <= 64
  }

  /**
   `kavak_ty_exhaustive`: positive exactly when the cases are examined and each
   conforms to a covered type; otherwise the first examined case that does not.
  */
  method Exhaustive(g: Graph, sealed: Ref, covered: seq<Ref>, lang: Language) returns (ok: bool, missing: Ref)
    requires WellFormed(g) && LanguageIn(lang, g) && Points(g, sealed) && PointsAll(g, covered)
    ensures ok <==> Examined(lang, sealed) && forall v <- lang.variants(sealed) :: Covers(g, covered, v, lang)
    ensures ok || !Examined(lang, sealed) ==> missing == NULL
    ensures !ok && Examined(lang, sealed) ==>
              exists i :: 0 <= i < |lang.variants(sealed)| && lang.variants(sealed)[i] == missing
                          && !Covers(g, covered, missing, lang)
                          && forall j :: 0 <= j < i ==> Covers(g, covered, lang.variants(sealed)[j], lang)
  {
    hide Covers, LanguageIn, WellFormed;
    LanguageAt(lang, g, sealed);
    if sealed == NULL { return false, NULL; }
    var vars := lang.variants(sealed);
    if |vars| == 0 || |vars| > VARIANTS_CAP { return false, NULL; }
    for i := 0 to |vars|
      invariant forall j :: 0 <= j < i ==> Covers(g, covered, vars[j], lang)
    {
      var isCovered := Covered(g, vars[i], covered, lang);
      if !isCovered {
        return false, vars[i];
      }
    }
    return true, NULL;
  }

  lemma NeverToNull(g: Graph, sub: Ref, lang: Language)
    requires WellFormed(g) && LanguageIn(lang, g) && Points(g, sub)
    ensures !ConformsTo(g, sub, NULL, lang)
  {
  }

  method Covered(g: Graph, variant: Ref, covered: seq<Ref>, lang: Language) returns (found: bool)
    requires WellFormed(g) && LanguageIn(lang, g) && PointsAll(g, covered) && Points(g, variant)
    ensures found <==> Covers(g, covered, variant, lang)
  {
    hide ConformsTo;
    for j := 0 to |covered|
      invariant forall k :: 0 <= k < j ==> !ConformsTo(g, variant, covered[k], lang)
    {
      NeverToNull(g, variant, lang);
      if covered[j] != NULL {
        found := ConformsToWalk(g, variant, covered[j], lang);
        if found { return; }
      }
    }
    found := false;
  }
}
