/**
 The spans `src/parser.c` gives to the nodes of an expression parsed without error: each
 is the stretch of text from the node's first to its last token.
*/
module Spans {
  import opened Machine
  import opened Syntax
  import opened Pratt
  import opened PrattSoundness

  // ----- spans

  /** `kavak_span_end`. */
  function End(a: Span): nat {
    if UINT32_MAX < a.start + a.len then UINT32_MAX else a.start + a.len
  }

  /** `kavak_span_union`. */
  function Union(a: Span, b: Span): Span {
    if a.len == 0 then b
    else if b.len == 0 then a
    else
      var start := if a.start < b.start then a.start else b.start;
      var end := if End(a) > End(b) then End(a) else End(b);
      Span(start, if end > start then end - start else 0)
  }

  // ----- the spans of nodes

  /** `kavak_parser_finish_node` up to its children: from the first token to the last one consumed. */
  function FinishTokens(first: Span, last: Span): Span {
    if last.start >= first.start then Union(first, last) else first
  }

  /** The span the parser leaves in the node of an expression without errors. */
  function SpanOf(e: Expr): Span
    decreases e
  {
    match e
    case Ident(t) => t.span
    case Literal(t) => t.span
    case Group(open, inner, close) =>
      Union(if close.Some? then FinishTokens(open.span, close.value.span) else open.span, SpanOf(inner))
    case Prefix(op, operand) => Union(op.span, SpanOf(operand))
    case Postfix(lhs, op) => Union(SpanOf(lhs), op.span)
    case Selector(lhs, op, name) => Union(SpanOf(lhs), name.span)
    case Binary(lhs, op, rhs) => Union(SpanOf(lhs), SpanOf(rhs))
    case Call(lhs, open, args, close) =>
      WithArgs(Union(if close.Some? then FinishTokens(open.span, close.value.span) else open.span, SpanOf(lhs)), args)
    case Error(skipped) => Span(0, 0)
  }

  /** The loop over the children of a call. */
  function WithArgs(span: Span, args: Args): Span
    decreases args
  {
    match args
    case NoMore => span
    case OneMore(arg, sep, rest) => WithArgs(Union(span, SpanOf(arg)), rest)
  }

  // ----- stretches of tokens

  /** The tokens lie one after the other in a text of at most UINT32_MAX bytes, and none is empty. */
  predicate InText(toks: seq<Token>) {
    && (forall t <- toks :: 0 < t.span.len && t.span.start + t.span.len <= UINT32_MAX)
    && (forall i, j :: 0 <= i < j < |toks| ==> toks[i].span.start + toks[i].span.len <= toks[j].span.start)
  }

  /** From the start of the first token to the end of the last. */
  function Stretch(toks: seq<Token>): Span
    requires toks != [] && InText(toks)
  {
    var last := toks[|toks| - 1];
    assert last in toks;
    Bounds(toks);
    Span(toks[0].span.start, last.span.start + last.span.len - toks[0].span.start)
  }

  lemma Bounds(toks: seq<Token>)
    requires toks != [] && InText(toks)
    ensures toks[0].span.start < toks[|toks| - 1].span.start + toks[|toks| - 1].span.len <= UINT32_MAX
  {
    assert toks[0] in toks && toks[|toks| - 1] in toks;
  }

  predicate Within(a: Span, b: Span) {
    0 < a.len && b.start <= a.start && a.start + a.len <= b.start + b.len <= UINT32_MAX
  }

  lemma PartInText(toks: seq<Token>, i: nat, j: nat)
    requires InText(toks) && i <= j <= |toks|
    ensures InText(toks[i..j])
    ensures i < j ==> Within(Stretch(toks[i..j]), Stretch(toks))
    ensures i == 0 < j ==> Stretch(toks[i..j]).start == Stretch(toks).start
    ensures i < j == |toks| ==> End(Stretch(toks[i..j])) == End(Stretch(toks))
  {
    SubInText(toks, i, j);
    if i < j { PartPlaced(toks, i, j); }
  }

  lemma SubInText(toks: seq<Token>, i: nat, j: nat)
    requires InText(toks) && i <= j <= |toks|
    ensures InText(toks[i..j])
  {
    var part := toks[i..j];
    forall t <- part ensures t in toks {
    }
  }

  lemma PartPlaced(toks: seq<Token>, i: nat, j: nat)
    requires InText(toks) && i < j <= |toks| && InText(toks[i..j])
    ensures Within(Stretch(toks[i..j]), Stretch(toks))
    ensures i == 0 ==> Stretch(toks[i..j]).start == Stretch(toks).start
    ensures j == |toks| ==> End(Stretch(toks[i..j])) == End(Stretch(toks))
  {
    hide InText, Stretch;
    var part := toks[i..j];
    StretchEnds(toks);
    StretchEnds(part);
    assert part[0] == toks[i] && part[|part| - 1] == toks[j - 1];
    InOrder(toks, 0, i);
    InOrder(toks, j - 1, |toks| - 1);
  }

  lemma StretchEnds(toks: seq<Token>)
    requires toks != [] && InText(toks)
    ensures var a, first, last := Stretch(toks), toks[0].span, toks[|toks| - 1].span;
            0 < a.len && a.start == first.start && a.start + a.len == last.start + last.len <= UINT32_MAX
  {
    Bounds(toks);
  }

  lemma InOrder(toks: seq<Token>, i: nat, j: nat)
    requires InText(toks) && i <= j < |toks|
    ensures toks[i].span.start <= toks[j].span.start
    ensures toks[i].span.start + toks[i].span.len <= toks[j].span.start + toks[j].span.len
  {
    assert toks[i] in toks && toks[j] in toks;
  }

  lemma UnionWithin(a: Span, b: Span)
    requires Within(a, b)
    ensures Union(b, a) == b && Union(a, b) == b
  {
  }

  lemma UnionEnds(toks: seq<Token>, a: Span, b: Span)
    requires toks != [] && InText(toks)
    requires Within(a, Stretch(toks)) && Within(b, Stretch(toks))
    requires a.start == Stretch(toks).start && End(b) == End(Stretch(toks))
    ensures Union(a, b) == Stretch(toks) && Union(b, a) == Stretch(toks)
    ensures FinishTokens(a, b) == Stretch(toks)
  {
  }

  lemma SplitInText(a: seq<Token>, b: seq<Token>)
    requires InText(a + b)
    ensures InText(a) && InText(b)
  {
    hide InText;
    var all := a + b;
    SubInText(all, 0, |a|);
    SubInText(all, |a|, |all|);
    assert all[0..|a|] == a && all[|a|..|all|] == b;
  }

  lemma OneStretch(t: Token)
    requires InText([t])
    ensures Stretch([t]) == t.span
  {
  }

  /** The two ends of a list of tokens, whatever lies between them. */
  lemma EndsMeet(a: seq<Token>, mid: seq<Token>, b: seq<Token>)
    requires a != [] && b != [] && InText(a + mid + b)
    ensures InText(a) && InText(b)
    ensures Union(Stretch(a), Stretch(b)) == Stretch(a + mid + b)
    ensures Union(Stretch(b), Stretch(a)) == Stretch(a + mid + b)
    ensures FinishTokens(Stretch(a), Stretch(b)) == Stretch(a + mid + b)
  {
    hide InText, Stretch, Union, FinishTokens, Within;
    var all := a + mid + b;
    PartInText(all, 0, |a|);
    PartInText(all, |a| + |mid|, |all|);
    assert all[0..|a|] == a && all[|a| + |mid|..|all|] == b;
    UnionEnds(all, Stretch(a), Stretch(b));
  }

  /** Two stretches, one behind the other. */
  lemma Beside(a: seq<Token>, b: seq<Token>)
    requires a != [] && b != [] && InText(a + b)
    ensures InText(a) && InText(b)
    ensures Union(Stretch(a), Stretch(b)) == Stretch(a + b) && Union(Stretch(b), Stretch(a)) == Stretch(a + b)
  {
    hide InText, Stretch, Union, FinishTokens;
    assert a + [] + b == a + b;
    EndsMeet(a, [], b);
  }

  /** Delimiters around a stretch, then the stretch itself. */
  lemma Around(open: Token, mid: seq<Token>, close: Token)
    requires mid != [] && InText([open] + mid + [close])
    ensures InText(mid)
    ensures Union(FinishTokens(open.span, close.span), Stretch(mid)) == Stretch([open] + mid + [close])
  {
    hide InText, Stretch, Union, FinishTokens, Within;
    var all := [open] + mid + [close];
    PartInText(all, 1, |all| - 1);
    assert all[1..|all| - 1] == mid;
    EndsMeet([open], mid, [close]);
    OneStretch(open);
    OneStretch(close);
    UnionWithin(Stretch(mid), Stretch(all));
  }

  /** A callee before the delimiters of its call. */
  lemma Behind(lhs: seq<Token>, open: Token, mid: seq<Token>, close: Token)
    requires lhs != [] && InText(lhs + ([open] + mid + [close]))
    ensures InText(lhs)
    ensures Union(FinishTokens(open.span, close.span), Stretch(lhs)) == Stretch(lhs + ([open] + mid + [close]))
  {
    hide InText, Stretch, Union, FinishTokens, Within;
    SplitInText(lhs, [open] + mid + [close]);
    EndsMeet([open], mid, [close]);
    OneStretch(open);
    OneStretch(close);
    Beside(lhs, [open] + mid + [close]);
  }

  // ----- a node spans its tokens

  /** Nothing in the tree is missing or in error. */
  predicate Complete(e: Expr) {
    match e
    case Group(_, inner, close) => close.Some? && Complete(inner)
    case Prefix(_, operand) => Complete(operand)
    case Postfix(lhs, _) => Complete(lhs)
    case Selector(lhs, _, _) => Complete(lhs)
    case Binary(lhs, _, rhs) => Complete(lhs) && Complete(rhs)
    case Call(lhs, _, args, close) => close.Some? && Complete(lhs) && CompleteArgs(args)
    case Error(_) => false
    case _ => true
  }

  predicate CompleteArgs(args: Args) {
    args.OneMore? ==> Complete(args.arg) && CompleteArgs(args.rest)
  }

  lemma {:induction false} CanonicalIsComplete(cfg: Config, e: Expr, min: Prec)
    requires Canonical(cfg, e, min)
    ensures Complete(e)
    decreases e
  {
    match e
    case Group(_, inner, _) => CanonicalIsComplete(cfg, inner, 0);
    case Prefix(op, operand) => CanonicalIsComplete(cfg, operand, OperatorFor(cfg, op, Prefixed).value.prec);
    case Postfix(lhs, _) => CanonicalIsComplete(cfg, lhs, min);
    case Selector(lhs, _, _) => CanonicalIsComplete(cfg, lhs, min);
    case Binary(lhs, op, rhs) =>
      CanonicalIsComplete(cfg, lhs, min);
      CanonicalIsComplete(cfg, rhs, NextMinPrec(OperatorFor(cfg, op, Infix).value));
    case Call(lhs, _, args, close) =>
      CanonicalIsComplete(cfg, lhs, min);
      ArgsAreComplete(cfg, args, close.value);
    case _ =>
  }

  lemma {:induction false} ArgsAreComplete(cfg: Config, args: Args, close: Token)
    requires cfg.call.Some? && CanonicalArgs(cfg, args, close)
    ensures CompleteArgs(args)
    decreases args
  {
    if args.OneMore? {
      CanonicalIsComplete(cfg, args.arg, 0);
      ArgsAreComplete(cfg, args.rest, close);
    }
  }

  /** A node of a complete tree spans its tokens, from the first to the last. */
  lemma {:induction false} NodeSpansTokens(e: Expr)
    requires Complete(e) && InText(Yield(e))
    ensures Yield(e) != [] && SpanOf(e) == Stretch(Yield(e))
    decreases e
  {
    hide InText, Union, FinishTokens, Stretch;
    match e
    case Ident(t) => OneStretch(t);
    case Literal(t) => OneStretch(t);
    case Group(open, inner, close) =>
      SplitInText([open] + Yield(inner), [close.value]);
      SplitInText([open], Yield(inner));
      NodeSpansTokens(inner);
      Around(open, Yield(inner), close.value);
    case Prefix(op, operand) =>
      SplitInText([op], Yield(operand));
      NodeSpansTokens(operand);
      OneStretch(op);
      Beside([op], Yield(operand));
    case Postfix(lhs, op) =>
      SplitInText(Yield(lhs), [op]);
      NodeSpansTokens(lhs);
      OneStretch(op);
      Beside(Yield(lhs), [op]);
    case Selector(lhs, op, name) =>
      assert Yield(e) == Yield(lhs) + [op] + [name];
      SplitInText(Yield(lhs), [op, name]);
      NodeSpansTokens(lhs);
      EndsMeet(Yield(lhs), [op], [name]);
      OneStretch(name);
    case Binary(lhs, op, rhs) =>
      SplitInText(Yield(lhs) + [op], Yield(rhs));
      SplitInText(Yield(lhs), [op]);
      NodeSpansTokens(lhs);
      NodeSpansTokens(rhs);
      EndsMeet(Yield(lhs), [op], Yield(rhs));
    case Call(lhs, open, args, close) =>
      var all, n := Yield(e), |Yield(lhs)| + 1;
      assert all == Yield(lhs) + ([open] + YieldArgs(args) + [close.value]);
      SplitInText(Yield(lhs), [open] + YieldArgs(args) + [close.value]);
      NodeSpansTokens(lhs);
      Behind(Yield(lhs), open, YieldArgs(args), close.value);
      assert all[n..n + |YieldArgs(args)|] == YieldArgs(args);
      ArgsStayWithin(all, n, args);
  }

  /** The arguments lie within the call, so its span does not grow any more. */
  lemma {:induction false} ArgsStayWithin(all: seq<Token>, i: nat, args: Args)
    requires CompleteArgs(args) && all != [] && InText(all)
    requires i + |YieldArgs(args)| <= |all| && all[i..i + |YieldArgs(args)|] == YieldArgs(args)
    ensures WithArgs(Stretch(all), args) == Stretch(all)
    decreases args
  {
    hide InText, Union, Stretch, Within;
    if args.OneMore? {
      var k := i + |Yield(args.arg)|;
      var next := k + |Opt(args.sep)|;
      var end := i + |YieldArgs(args)|;
      var part := all[i..end];
      assert all[i..k] == part[..k - i] == Yield(args.arg);
      assert all[next..end] == part[next - i..] == YieldArgs(args.rest);
      PartInText(all, i, k);
      NodeSpansTokens(args.arg);
      UnionWithin(SpanOf(args.arg), Stretch(all));
      ArgsStayWithin(all, next, args.rest);
    }
  }

  /** An expression parsed without diagnostics spans the tokens it consumed, from the first to the last. */
  lemma ParsedSpan(cfg: Config, toks: seq<Token>, pos: nat, min: Prec)
    requires At(toks, pos) && ParseExpr(cfg, toks, pos, min, 0).diags == []
    requires InText(toks[pos..ParseExpr(cfg, toks, pos, min, 0).pos])
    ensures var r := ParseExpr(cfg, toks, pos, min, 0);
            pos < r.pos && SpanOf(r.node) == Stretch(toks[pos..r.pos])
  {
    hide InText, Stretch;
    ParserSound(cfg, toks, pos, min);
    var r := ParseExpr(cfg, toks, pos, min, 0);
    CanonicalIsComplete(cfg, r.node, min);
    NodeSpansTokens(r.node);
  }
}
