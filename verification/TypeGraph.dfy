/**
 The type graph of `src/type.c`: nodes are `KavakTypeInfo` objects, named by
 their address, because pointer identity decides equality shortcuts, parameter
 bindings and cycles.
*/
module TypeGraph {
  import opened Options

  /** KAVAK_RECURSION_LIMIT: the one bound shared by the type walks and the parser. */
  const RECURSION_LIMIT: nat := 512

  /** The address of a node; `NULL` is the null pointer. */
  type Ref = nat
  const NULL: Ref := 0

  /** A `const char *`: absent, or the characters it points to (`str_eq` is equality here). */
  type Name = Option<string>

  const NEVER: nat := 2
  const ANY: nat := 3

  datatype Field = Field(name: Name, ty: Ref)

  /** `User` stands for every kind the kernel's own switch statements do not list. */
  datatype TypeInfo =
    | Builtin(kind: nat)
    | Nullable(inner: Ref)
    | Function(flags: nat, receiver: Ref, params: seq<Ref>, ret: Ref)
    | Named(name: Name, args: seq<Ref>, decl: nat, underlying: Ref)
    | Param(name: Name, index: nat, decl: nat)
    | Record(positional: seq<Ref>, named: seq<Field>)
    | User(userKind: nat)

  type Graph = map<Ref, TypeInfo>

  /** `a->kind == b->kind`. */
  predicate SameKind(a: TypeInfo, b: TypeInfo) {
    match a
    case Builtin(k) => b.Builtin? && b.kind == k
    case Nullable(_) => b.Nullable?
    case Function(_, _, _, _) => b.Function?
    case Named(_, _, _, _) => b.Named?
    case Param(_, _, _) => b.Param?
    case Record(_, _) => b.Record?
    case User(k) => b.User? && b.userKind == k
  }

  function FieldTypes(fields: seq<Field>): (r: seq<Ref>)
    ensures |r| == |fields|
    ensures forall i :: 0 <= i < |r| ==> r[i] == fields[i].ty
  {
    seq(|fields|, i requires 0 <= i < |fields| => fields[i].ty)
  }

  function FieldNames(fields: seq<Field>): (r: seq<Name>)
    ensures |r| == |fields|
    ensures forall i :: 0 <= i < |r| ==> r[i] == fields[i].name
  {
    seq(|fields|, i requires 0 <= i < |fields| => fields[i].name)
  }

  /** The component types of a node, in the order unification visits them. */
  function Arms(t: TypeInfo): seq<Ref> {
    match t
    case Nullable(inner) => [inner]
    case Function(_, receiver, params, ret) =>
      (if receiver == NULL then [] else [receiver]) + params + [ret]
    case Named(_, args, _, _) => args
    case Record(positional, named) => positional + FieldTypes(named)
    case _ => []
  }

  /** Everything deep equality compares at one node, its components aside. */
  datatype Head =
    | HBuiltin(kind: nat)
    | HNullable
    | HFunction(flags: nat, hasReceiver: bool, paramCount: nat)
    | HNamed(name: Name, argCount: nat, decl: nat)
    | HParam(pname: Name, index: nat, pdecl: nat)
    | HRecord(positionalCount: nat, fieldNames: seq<Name>)
    | HUser(userKind: nat, self: Ref)

  function HeadOf(r: Ref, t: TypeInfo): Head {
    match t
    case Builtin(k) => HBuiltin(k)
    case Nullable(_) => HNullable
    case Function(flags, receiver, params, _) => HFunction(flags, receiver != NULL, |params|)
    case Named(name, args, decl, _) => HNamed(name, |args|, decl)
    case Param(name, index, decl) => HParam(name, index, decl)
    case Record(positional, named) => HRecord(|positional|, FieldNames(named))
    case User(k) => HUser(k, r)
  }

  /**
   Pointers lead to nodes of the graph or are null, and named types and record
   fields have names, as the constructors of `src/type.c` insist.
  */
  ghost predicate WellFormed(g: Graph) {
    && NULL !in g
    && forall r <- g :: InGraph(g, g[r])
  }

  ghost predicate InGraph(g: Graph, t: TypeInfo) {
    && PointsAll(g, Arms(t))
    && (t.Named? ==> t.name.Some? && Points(g, t.underlying))
    && (t.Record? ==> forall f <- t.named :: f.name.Some?)
  }

  /** A graph node or the null pointer. */
  ghost predicate Points(g: Graph, r: Ref) {
    r == NULL || r in g
  }

  ghost predicate PointsAll(g: Graph, items: seq<Ref>) {
    forall r <- items :: Points(g, r)
  }

  /** A finite prefix of the possibly infinite tree a node unrolls to. */
  datatype Tree = Cut | Nil | Node(head: Head, kids: seq<Tree>)

  /** The first `n` levels of the tree that `r` unrolls to. */
  ghost function Unroll(g: Graph, r: Ref, n: nat): Tree
    decreases n
  {
    if n == 0 then Cut
    else if r !in g then Nil
    else
      var arms := Arms(g[r]);
      Node(HeadOf(r, g[r]), seq(|arms|, i requires 0 <= i < |arms| => Unroll(g, arms[i], n - 1)))
  }

  /** The two nodes unroll to the same, possibly infinite, tree. */
  ghost predicate SameTree(g: Graph, a: Ref, b: Ref) {
    forall n: nat :: Unroll(g, a, n) == Unroll(g, b, n)
  }

  /** No null component is reachable and every path from `r` has at most `n` nodes. */
  ghost predicate Finite(g: Graph, r: Ref, n: nat)
    decreases n
  {
    && n > 0
    && r in g
    && forall c <- Arms(g[r]) :: Finite(g, c, n - 1)
  }

  // ----- facts about the tree view

  lemma HeadFixesArity(a: Ref, ta: TypeInfo, b: Ref, tb: TypeInfo)
    requires HeadOf(a, ta) == HeadOf(b, tb)
    ensures |Arms(ta)| == |Arms(tb)|
    ensures SameKind(ta, tb)
  {
    if ta.Record? {
      assert |FieldNames(ta.named)| == |FieldNames(tb.named)|;
    }
  }

  /** Head and components leave out nothing of a node but what a named type is an alias of. */
  lemma HeadAndArmsDetermine(a: Ref, ta: TypeInfo, b: Ref, tb: TypeInfo)
    requires HeadOf(a, ta) == HeadOf(b, tb) && Arms(ta) == Arms(tb)
    ensures ta == tb || (ta.Named? && tb.Named? && ta.(underlying := tb.underlying) == tb)
    ensures ta.User? ==> a == b
  {
    match ta
    case Function(_, receiver, params, ret) =>
      var k := if receiver == NULL then 0 else 1;
      assert Arms(ta)[k..k + |params|] == params && Arms(tb)[k..k + |params|] == tb.params;
      assert Arms(ta)[k + |params|] == ret && Arms(tb)[k + |params|] == tb.ret;
      if k == 1 { assert Arms(ta)[0] == receiver && Arms(tb)[0] == tb.receiver; }
    case Nullable(inner) => assert Arms(ta)[0] == inner && Arms(tb)[0] == tb.inner;
    case Record(positional, named) => SameRecord(ta, tb);
    case _ =>
  }

  lemma SameRecord(ta: TypeInfo, tb: TypeInfo)
    requires ta.Record? && tb.Record? && |ta.positional| == |tb.positional|
    requires FieldNames(ta.named) == FieldNames(tb.named) && Arms(ta) == Arms(tb)
    ensures ta == tb
  {
    var n := |ta.positional|;
    assert Arms(ta)[..n] == ta.positional && Arms(tb)[..n] == tb.positional;
    assert Arms(ta)[n..] == FieldTypes(ta.named) && Arms(tb)[n..] == FieldTypes(tb.named);
    assert |FieldNames(ta.named)| == |FieldNames(tb.named)|;
    forall i | 0 <= i < |ta.named| ensures ta.named[i] == tb.named[i] {
      assert FieldNames(ta.named)[i] == FieldNames(tb.named)[i] && FieldTypes(ta.named)[i] == FieldTypes(tb.named)[i];
    }
    assert ta.named == tb.named;
  }

  /** The two lists of nodes agree pairwise for `n` levels. */
  ghost predicate UnrollsAgree(g: Graph, xs: seq<Ref>, ys: seq<Ref>, n: nat) {
    && |xs| == |ys|
    && forall i :: 0 <= i < |xs| ==> Unroll(g, xs[i], n) == Unroll(g, ys[i], n)
  }

  lemma UnrollsAgreeCons(g: Graph, xs: seq<Ref>, ys: seq<Ref>, n: nat)
    requires |xs| == |ys| > 0
    ensures Unroll(g, xs[0], n) == Unroll(g, ys[0], n) && UnrollsAgree(g, xs[1..], ys[1..], n) ==>
              UnrollsAgree(g, xs, ys, n)
  {
    assert forall i :: 0 < i < |xs| ==> xs[1..][i - 1] == xs[i] && ys[1..][i - 1] == ys[i];
  }

  lemma UnrollSplit(g: Graph, a: Ref, b: Ref, n: nat)
    requires n > 0 && Unroll(g, a, n) == Unroll(g, b, n)
    ensures a in g <==> b in g
    ensures a in g ==> HeadOf(a, g[a]) == HeadOf(b, g[b]) && UnrollsAgree(g, Arms(g[a]), Arms(g[b]), n - 1)
  {
    if a in g {
      var ka, kb := Unroll(g, a, n).kids, Unroll(g, b, n).kids;
      assert |ka| == |Arms(g[a])| && |kb| == |Arms(g[b])|;
      forall i | 0 <= i < |Arms(g[a])|
        ensures Unroll(g, Arms(g[a])[i], n - 1) == Unroll(g, Arms(g[b])[i], n - 1)
      {
        assert ka[i] == kb[i];
      }
    }
  }

  lemma UnrollJoin(g: Graph, a: Ref, b: Ref, n: nat)
    requires a in g && b in g && n > 0
    requires HeadOf(a, g[a]) == HeadOf(b, g[b]) && UnrollsAgree(g, Arms(g[a]), Arms(g[b]), n - 1)
    ensures Unroll(g, a, n) == Unroll(g, b, n)
  {
    assert Unroll(g, a, n).kids == Unroll(g, b, n).kids;
  }

  lemma UnrollNothing(g: Graph, a: Ref, b: Ref, n: nat)
    requires n == 0 || (a !in g && b !in g)
    ensures Unroll(g, a, n) == Unroll(g, b, n)
  {
  }

  lemma {:induction false} UnrollPrefix(g: Graph, a: Ref, b: Ref, n: nat)
    requires Unroll(g, a, n + 1) == Unroll(g, b, n + 1)
    ensures Unroll(g, a, n) == Unroll(g, b, n)
    decreases n
  {
    hide Unroll, HeadOf, Arms;
    UnrollSplit(g, a, b, n + 1);
    if n == 0 || a !in g {
      UnrollNothing(g, a, b, n);
    } else {
      forall i | 0 <= i < |Arms(g[a])|
        ensures Unroll(g, Arms(g[a])[i], n - 1) == Unroll(g, Arms(g[b])[i], n - 1)
      {
        UnrollPrefix(g, Arms(g[a])[i], Arms(g[b])[i], n - 1);
      }
      UnrollJoin(g, a, b, n);
    }
  }

  lemma SameTreeParts(g: Graph, a: Ref, b: Ref)
    requires a in g && b in g && SameTree(g, a, b)
    ensures HeadOf(a, g[a]) == HeadOf(b, g[b]) && |Arms(g[a])| == |Arms(g[b])|
    ensures forall i :: 0 <= i < |Arms(g[a])| ==> SameTree(g, Arms(g[a])[i], Arms(g[b])[i])
  {
    assert Unroll(g, a, 1) == Unroll(g, b, 1);
    UnrollSplit(g, a, b, 1);
    forall i, n: nat | 0 <= i < |Arms(g[a])|
      ensures Unroll(g, Arms(g[a])[i], n) == Unroll(g, Arms(g[b])[i], n)
    {
      assert Unroll(g, a, n + 1) == Unroll(g, b, n + 1);
      UnrollSplit(g, a, b, n + 1);
    }
  }

  lemma SameTreeInGraph(g: Graph, a: Ref, b: Ref)
    requires SameTree(g, a, b)
    ensures a in g <==> b in g
  {
    assert Unroll(g, a, 1) == Unroll(g, b, 1);
  }

  /** Growing the graph does not change what an old node unrolls to. */
  lemma {:induction false} UnrollExtends(g: Graph, h: Graph, r: Ref, n: nat)
    requires WellFormed(g) && NULL !in h
    requires forall x <- g :: x in h && h[x] == g[x]
    requires Points(g, r)
    ensures Unroll(g, r, n) == Unroll(h, r, n)
    decreases n
  {
    if n > 0 && r in g {
      var arms := Arms(g[r]);
      assert InGraph(g, g[r]);
      forall i | 0 <= i < |arms|
        ensures Unroll(g, arms[i], n - 1) == Unroll(h, arms[i], n - 1)
      {
        assert arms[i] in arms;
        UnrollExtends(g, h, arms[i], n - 1);
      }
      assert Unroll(g, r, n).kids == Unroll(h, r, n).kids;
    }
  }

  lemma {:induction false} FiniteWeaken(g: Graph, r: Ref, n: nat, m: nat)
    requires Finite(g, r, n) && n <= m
    ensures Finite(g, r, m)
    decreases n
  {
    forall c <- Arms(g[r]) ensures Finite(g, c, m - 1) {
      FiniteWeaken(g, c, n - 1, m - 1);
    }
  }

  /** Having the same tree carries finiteness over. */
  lemma {:induction false} FiniteSameTree(g: Graph, a: Ref, b: Ref, n: nat)
    requires Finite(g, a, n) && SameTree(g, a, b)
    ensures Finite(g, b, n)
    decreases n
  {
    SameTreeInGraph(g, a, b);
    SameTreeParts(g, a, b);
    forall c <- Arms(g[b]) ensures Finite(g, c, n - 1) {
      var i :| 0 <= i < |Arms(g[b])| && Arms(g[b])[i] == c;
      assert Arms(g[a])[i] in Arms(g[a]);
      FiniteSameTree(g, Arms(g[a])[i], c, n - 1);
    }
  }

  /** On finite trees, agreeing for `n` levels is agreeing for ever. */
  lemma {:induction false} FiniteTreesAgree(g: Graph, a: Ref, b: Ref, n: nat, m: nat)
    requires Finite(g, a, n) && Unroll(g, a, n) == Unroll(g, b, n)
    ensures Unroll(g, a, m) == Unroll(g, b, m)
    decreases n
  {
    hide Unroll, HeadOf, Arms;
    UnrollSplit(g, a, b, n);
    if m == 0 {
      UnrollNothing(g, a, b, m);
    } else {
      forall i | 0 <= i < |Arms(g[a])|
        ensures Unroll(g, Arms(g[a])[i], m - 1) == Unroll(g, Arms(g[b])[i], m - 1)
      {
        assert Arms(g[a])[i] in Arms(g[a]);
        FiniteTreesAgree(g, Arms(g[a])[i], Arms(g[b])[i], n - 1, m - 1);
      }
      UnrollJoin(g, a, b, m);
    }
  }

  lemma FunctionPoints(g: Graph, a: Ref)
    requires WellFormed(g) && a in g && g[a].Function?
    ensures Points(g, g[a].receiver) && Points(g, g[a].ret) && PointsAll(g, g[a].params)
  {
    var arms := Arms(g[a]);
    assert InGraph(g, g[a]);
    assert arms[|arms| - 1] == g[a].ret;
    assert g[a].receiver != NULL ==> arms[0] == g[a].receiver;
    forall x <- g[a].params ensures x in arms { }
  }

  lemma RecordPoints(g: Graph, a: Ref)
    requires WellFormed(g) && a in g && g[a].Record?
    ensures PointsAll(g, g[a].positional) && PointsAll(g, FieldTypes(g[a].named))
  {
    var arms := Arms(g[a]);
    assert InGraph(g, g[a]);
    forall x <- g[a].positional ensures x in arms { }
    forall x <- FieldTypes(g[a].named) ensures x in arms { }
  }
}
