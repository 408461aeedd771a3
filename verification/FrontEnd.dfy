/**
 From text to expression spans: the tokens the lexer leaves are as the parser expects
 them, so what is parsed without error spans the text of its tokens.
*/
module FrontEnd {
  import opened Machine
  import L = LexConfig
  import opened Scanners
  import opened TokenScan
  import opened Layout
  import opened TokenCases
  import opened LexTiling
  import S = Syntax
  import P = Pratt
  import PS = PrattSoundness
  import Spans

  type Lexed = L.Token

  // ----- which tokens have text

  /** The kinds of operands and operators. */
  predicate IsOperandKind(kind: nat) {
    || kind == L.IDENT || kind == L.INT || kind == L.FLOAT || kind == L.STRING || kind == L.CHAR || kind == L.OP
  }

  /** No operand or operator is empty. */
  predicate Solid(toks: seq<Lexed>) {
    forall t <- toks :: IsOperandKind(t.kind) ==> t.start < t.end
  }

  /** A semicolon put in by the layout is neither operand nor operator. */
  predicate PlainSemicolons(l: L.Lang) {
    l.policy.autoSemi.Some? ==> !IsOperandKind(l.policy.autoSemi.value.emitKind)
  }

  lemma {:induction false} SpaceIsSolid(s: Bytes, l: L.Lang, pos: nat)
    requires pos <= |s|
    ensures Solid(InterpSpace(s, l, pos).toks)
    decreases |s| - pos
  {
    hide NewlineAt;
    if pos < |s| {
      var n := NewlineAt(s, l, pos);
      if n != 0 {
        SpaceIsSolid(s, l, pos + n);
      } else if IsInlineSpace(s[pos]) {
        SpaceIsSolid(s, l, pos + 1);
      }
    }
  }

  lemma {:induction false} TokenIsSolid(s: Bytes, l: L.Lang, depth: nat, pos: nat)
    requires pos < |s|
    ensures Solid(TokenOrInvalid(s, l, depth, pos).toks)
    decreases |s| - pos, 3
  {
    hide ScanString, ScanToken, IsSimple;
    StringIsSolid(s, l, depth, pos);
    TokenIsSimpleOrString(s, l, depth, pos);
    var r := ScanToken(s, l, depth, pos);
    if r.Some? && IsSimple(r.value, pos) { SimpleIsSolid(r.value, pos); }
  }

  lemma SimpleIsSolid(out: Out, pos: nat)
    requires IsSimple(out, pos) && pos < out.pos
    ensures Solid(out.toks)
  {
  }

  lemma {:induction false} StringIsSolid(s: Bytes, l: L.Lang, depth: nat, pos: nat)
    requires pos < |s|
    ensures ScanString(s, l, depth, pos).Some? ==> Solid(ScanString(s, l, depth, pos).value.toks)
    decreases |s| - pos, 2
  {
    hide ScanString, StringBody;
    if ScanString(s, l, depth, pos).Some? {
      var open := StringIsBody(s, l, depth, pos);
      BodyIsSolid(s, l, open, l.strings[open], depth, pos, pos, false, pos + |open|);
    }
  }

  lemma {:induction false} BodyIsSolid(s: Bytes, l: L.Lang, open: Bytes, e: L.StringEntry, depth: nat, start: nat,
                                       from: nat, had: bool, pos: nat)
    requires from <= pos <= |s|
    ensures Solid(StringBody(s, l, open, e, depth, start, from, had, pos).toks)
    decreases |s| - pos, 1
  {
    hide StringBody, Interpolation, InterpolationAt, CaseAt;
    var c := CaseAt(s, l, e, pos);
    if c.Stop? {
      BodyStops(s, l, open, e, depth, start, from, had, pos);
    } else if c.Close? {
      BodyCloses(s, l, open, e, depth, start, from, had, pos);
    } else if c.Enter? {
      BodyEnters(s, l, open, e, depth, start, from, had, pos);
      InterpolationIsSolid(s, l, e.style, depth, pos);
      var i := Interpolation(s, l, e.style, depth, pos);
      BodyIsSolid(s, l, open, e, depth, start, i.out.pos, true, i.out.pos);
    } else {
      BodySteps(s, l, open, e, depth, start, from, had, pos);
      BodyIsSolid(s, l, open, e, depth, start, from, had, c.next);
    }
  }

  lemma {:induction false} InterpolationIsSolid(s: Bytes, l: L.Lang, r: L.StringStyle, depth: nat, start: nat)
    requires InterpolationAt(s, l, r, start)
    ensures Solid(Interpolation(s, l, r, depth, start).out.toks)
    decreases |s| - start, 0
  {
    hide Expression, L.Longest;
    var pos := start + |r.interpOpen.value|;
    if r.interpClose.Some? {
      ExpressionIsSolid(s, l, start, r.interpClose.value, r.interpCloseKind, depth, pos);
    } else if r.interpOpen.value == DOLLAR && L.Matches(s, pos, BRACE_OPEN) {
      ExpressionIsSolid(s, l, start, BRACE_CLOSE, r.interpCloseKind, depth, pos + 1);
    }
  }

  lemma {:induction false} ExpressionIsSolid(s: Bytes, l: L.Lang, start: nat, close: Bytes, closeKind: nat, depth: nat,
                                             pos: nat)
    requires start < pos <= |s|
    ensures Solid(Expression(s, l, start, close, closeKind, depth, pos).out.toks)
    decreases |s| - pos, 5
  {
    hide ExpressionFrom;
    if depth < MAX_INTERP_DEPTH { LoopIsSolid(s, l, start, close, closeKind, depth + 1, 0, pos); }
  }

  lemma {:induction false} LoopIsSolid(s: Bytes, l: L.Lang, start: nat, close: Bytes, closeKind: nat, depth: nat,
                                       pairs: nat, pos: nat)
    requires start < pos <= |s|
    ensures Solid(ExpressionFrom(s, l, start, close, closeKind, depth, pairs, pos).out.toks)
    decreases |s| - pos, 4
  {
    hide ExpressionFrom, InterpSpace, TokenOrInvalid;
    SpaceIsSolid(s, l, pos);
    var at := InterpSpace(s, l, pos).pos;
    if EndsHere(s, close, pairs, at) {
      LoopEnds(s, l, start, close, closeKind, depth, pairs, pos);
    } else {
      hide EndsHere;
      var left := LoopTurns(s, l, start, close, closeKind, depth, pairs, pos);
      TokenIsSolid(s, l, depth, at);
      LoopIsSolid(s, l, start, close, closeKind, depth, left, TokenOrInvalid(s, l, depth, at).pos);
    }
  }

  lemma {:induction false} CloseIsSolid(stack: seq<nat>, col: nat, pos: nat)
    requires stack != []
    ensures Solid(CloseDeeper(stack, col, pos).1)
    decreases |stack|
  {
    if |stack| > 1 && col < Top(stack) { CloseIsSolid(Pop(stack), col, pos); }
  }

  lemma {:induction false} DrainIsSolid(n: nat, pos: nat)
    ensures Solid(Drain(n, pos))
  {
    if n > 0 { DrainIsSolid(n - 1, pos); }
  }

  lemma ApproachIsSolid(s: Bytes, l: L.Lang, st: State)
    requires st.pos <= |s| && st.stack != [] && Solid(st.toks)
    ensures Solid(Approach(s, l, st).toks)
  {
    hide Indentation, BlankLine, SkipInline, SkipSpace, CloseDeeper;
    if l.policy.offside.Some? {
      var indent := Indentation(s, l.policy.offside.value.unit, st.pos, 0, false);
      CloseIsSolid(st.stack, indent.1, indent.0);
    }
  }

  lemma FinishLineIsSolid(s: Bytes, l: L.Lang, st: State)
    requires NewlineAt(s, l, st.pos) != 0 && Solid(st.toks) && PlainSemicolons(l)
    ensures Solid(FinishLine(s, l, st).toks)
  {
    hide NewlineAt;
  }

  lemma {:induction false} TurnsAreSolid(s: Bytes, l: L.Lang, st: State)
    requires st.pos <= |s| && st.stack != [] && Solid(st.toks) && PlainSemicolons(l)
    ensures Solid(Turns(s, l, st).toks)
    decreases |s| - st.pos
  {
    hide Approach, FinishLine, TokenOrInvalid, PlainSemicolons;
    if |st.toks| < TOKEN_LIMIT {
      var a := Approach(s, l, st);
      ApproachIsSolid(s, l, st);
      if a.pos < |s| {
        SameStack(s, l, a);
        if NewlineAware(l) && NewlineAt(s, l, a.pos) != 0 {
          FinishLineIsSolid(s, l, a);
          TurnsAreSolid(s, l, FinishLine(s, l, a));
        } else {
          TokenIsSolid(s, l, 0, a.pos);
          TurnsAreSolid(s, l, TakeToken(s, l, a));
        }
      }
    }
  }

  /** In every run operands and operators have text. */
  lemma LexIsSolid(s: Bytes, l: L.Lang)
    requires PlainSemicolons(l)
    ensures Solid(Lex(s, l).0)
  {
    hide Turns, Drain;
    TurnsAreSolid(s, l, INITIAL);
    var st := Turns(s, l, INITIAL);
    DrainIsSolid(|st.stack| - 1, st.pos);
  }

  // ----- handing the tokens over

  predicate InSource(s: Bytes, t: Lexed) {
    t.start <= t.end <= |s|
  }

  /** The token with its text and its span as the parser reads them. */
  function Handed(s: Bytes, t: Lexed): S.Token
    requires InSource(s, t)
  {
    S.Token(t.kind, t.v, seq(t.end - t.start, i requires 0 <= i < t.end - t.start => s[t.start + i] as char),
            S.Span(t.start, t.end - t.start))
  }

  function HandedAll(s: Bytes, toks: seq<Lexed>): (r: seq<S.Token>)
    requires forall t <- toks :: InSource(s, t)
    ensures |r| == |toks| && forall i :: 0 <= i < |toks| ==> r[i] == Handed(s, toks[i])
  {
    seq(|toks|, i requires 0 <= i < |toks| => Handed(s, toks[i]))
  }

  /** What the parser takes for granted: EOF at the end, spans apart and in the text, none empty where it matters. */
  predicate Parseable(s: Bytes, toks: seq<Lexed>) {
    && toks != [] && toks[|toks| - 1].kind == L.EOF
    && (forall t <- toks :: InSource(s, t)) && Solid(toks)
    && forall i, j :: 0 <= i < j < |toks| ==> toks[i].end <= toks[j].start
  }

  /** A run in which no expression is given up leaves such tokens. */
  lemma LexIsParseable(s: Bytes, l: L.Lang)
    requires NoInterpError(Lex(s, l).1) && PlainSemicolons(l)
    ensures Parseable(s, Lex(s, l).0)
  {
    hide Lex, NoInterpError, Solid, PlainSemicolons, Ordered, InSource;
    LexEndsInEof(s, l);
    LexIsSolid(s, l);
    var toks := Lex(s, l).0;
    forall i | 0 <= i < |toks| ensures InSource(s, toks[i]) { LexInSource(s, l, i); }
    forall i, j | 0 <= i < j < |toks| ensures toks[i].end <= toks[j].start {
      LexSpansApart(s, l, i, j);
    }
  }

  lemma LexInSource(s: Bytes, l: L.Lang, i: nat)
    requires NoInterpError(Lex(s, l).1) && i < |Lex(s, l).0|
    ensures InSource(s, Lex(s, l).0[i])
  {
    hide Lex, NoInterpError;
    var toks := Lex(s, l).0;
    if i > 0 {
      LexSpansApart(s, l, 0, i);
    } else if |toks| > 1 {
      LexSpansApart(s, l, 0, 1);
    } else {
      LexInOrder(s, l);
      OrderedBounds(toks[1..], toks[0].end, |s|);
    }
  }

  lemma LexEndsInEof(s: Bytes, l: L.Lang)
    ensures Lex(s, l).0 != [] && Lex(s, l).0[|Lex(s, l).0| - 1].kind == L.EOF
  {
    hide Turns, EndTokens;
  }

  // ----- the tokens of an expression

  /** What an expression can consist of. */
  predicate IsPart(t: S.Token) {
    IsOperandKind(t.kind) || (t.kind == S.PUNCT && |t.text| == 1)
  }

  predicate AllParts(toks: seq<S.Token>) {
    forall t <- toks :: IsPart(t)
  }

  lemma {:induction false} CanonicalParts(cfg: S.Config, e: S.Expr, min: S.Prec)
    requires S.Canonical(cfg, e, min)
    ensures AllParts(S.Yield(e))
    decreases e
  {
    hide S.Ends, S.Follows, S.StartsArg;
    match e
    case Group(_, inner, _) => CanonicalParts(cfg, inner, 0);
    case Prefix(op, operand) => CanonicalParts(cfg, operand, S.OperatorFor(cfg, op, S.Prefixed).value.prec);
    case Postfix(lhs, _) => CanonicalParts(cfg, lhs, min);
    case Selector(lhs, _, _) => CanonicalParts(cfg, lhs, min);
    case Binary(lhs, op, rhs) =>
      CanonicalParts(cfg, lhs, min);
      CanonicalParts(cfg, rhs, S.NextMinPrec(S.OperatorFor(cfg, op, S.Infix).value));
    case Call(lhs, _, args, close) =>
      CanonicalParts(cfg, lhs, min);
      ArgParts(cfg, args, close.value);
    case _ =>
  }

  lemma {:induction false} ArgParts(cfg: S.Config, args: S.Args, close: S.Token)
    requires cfg.call.Some? && S.CanonicalArgs(cfg, args, close)
    ensures AllParts(S.YieldArgs(args))
    decreases args
  {
    hide S.Ends, S.Canonical, S.StartsArg;
    if args.OneMore? {
      CanonicalParts(cfg, args.arg, 0);
      ArgParts(cfg, args.rest, close);
    }
  }

  lemma PartInSource(s: Bytes, toks: seq<Lexed>, i: nat)
    requires Parseable(s, toks) && i < |toks| && |s| <= UINT32_MAX
    ensures InSource(s, toks[i])
    ensures var t := Handed(s, toks[i]);
            IsPart(t) ==> 0 < t.span.len && t.span.start + t.span.len <= UINT32_MAX
  {
    assert toks[i] in toks;
  }

  lemma PartsApart(s: Bytes, toks: seq<Lexed>, i: nat, j: nat)
    requires Parseable(s, toks) && i < j < |toks|
    ensures InSource(s, toks[i]) && InSource(s, toks[j])
    ensures Handed(s, toks[i]).span.start + Handed(s, toks[i]).span.len <= Handed(s, toks[j]).span.start
  {
    assert toks[i] in toks && toks[j] in toks;
  }

  /** From the start of one token to the end of another. */
  function TextSpan(first: Lexed, last: Lexed): S.Span {
    S.Span(first.start, if first.start <= last.end then last.end - first.start else 0)
  }

  /** Where a token of a part comes from. */
  lemma PartAt(s: Bytes, toks: seq<Lexed>, from: nat, part: seq<S.Token>, i: nat)
    requires Parseable(s, toks) && from + |part| <= |toks| && i < |part|
    requires part == HandedAll(s, toks)[from..from + |part|]
    ensures InSource(s, toks[from + i]) && part[i] == Handed(s, toks[from + i])
  {
    hide Solid, Handed;
    assert toks[from + i] in toks;
  }

  lemma PartBounded(s: Bytes, toks: seq<Lexed>, from: nat, part: seq<S.Token>, i: nat)
    requires |s| <= UINT32_MAX && Parseable(s, toks) && from + |part| <= |toks| && i < |part|
    requires part == HandedAll(s, toks)[from..from + |part|] && IsPart(part[i])
    ensures 0 < part[i].span.len && part[i].span.start + part[i].span.len <= UINT32_MAX
  {
    PartAt(s, toks, from, part, i);
    PartInSource(s, toks, from + i);
  }

  lemma PartOrdered(s: Bytes, toks: seq<Lexed>, from: nat, part: seq<S.Token>, i: nat, j: nat)
    requires Parseable(s, toks) && from + |part| <= |toks| && i < j < |part|
    requires part == HandedAll(s, toks)[from..from + |part|]
    ensures part[i].span.start + part[i].span.len <= part[j].span.start
  {
    PartAt(s, toks, from, part, i);
    PartAt(s, toks, from, part, j);
    PartsApart(s, toks, from + i, from + j);
  }

  /** Tokens of which an expression can consist lie in the text as the spans of nodes need it. */
  lemma PartsInText(s: Bytes, toks: seq<Lexed>, from: nat, part: seq<S.Token>)
    requires |s| <= UINT32_MAX && Parseable(s, toks) && from + |part| <= |toks|
    requires part == HandedAll(s, toks)[from..from + |part|] && AllParts(part)
    ensures Spans.InText(part)
  {
    hide Parseable, IsPart, Handed, HandedAll, InSource, Solid;
    forall i | 0 <= i < |part| ensures 0 < part[i].span.len && part[i].span.start + part[i].span.len <= UINT32_MAX {
      assert part[i] in part;
      PartBounded(s, toks, from, part, i);
    }
    forall i, j | 0 <= i < j < |part| ensures part[i].span.start + part[i].span.len <= part[j].span.start {
      PartOrdered(s, toks, from, part, i, j);
    }
  }

  lemma PartSpan(s: Bytes, toks: seq<Lexed>, from: nat, part: seq<S.Token>)
    requires Parseable(s, toks) && from + |part| <= |toks| && part != []
    requires part == HandedAll(s, toks)[from..from + |part|] && Spans.InText(part)
    ensures var first, last := toks[from], toks[from + |part| - 1];
            first.start < last.end <= |s| && Spans.Stretch(part) == TextSpan(first, last)
  {
    hide Spans.Stretch, Spans.InText, Solid;
    Spans.StretchEnds(part);
    var last := toks[from + |part| - 1];
    assert part[0] == Handed(s, toks[from]) && part[|part| - 1] == Handed(s, last);
    assert toks[from] in toks && last in toks;
  }

  /** The node spans the text of the tokens from `from` up to `to`. */
  predicate SpansText(s: Bytes, lexed: seq<Lexed>, from: nat, to: nat, e: S.Expr)
    requires from < to <= |lexed|
  {
    && lexed[from].start < lexed[to - 1].end <= |s|
    && Spans.SpanOf(e) == TextSpan(lexed[from], lexed[to - 1])
  }

  /** What is parsed without diagnostics consists of such tokens, and spans them if they lie in a text. */
  lemma CleanParse(cfg: S.Config, toks: seq<S.Token>, pos: nat, min: S.Prec)
    requires P.At(toks, pos) && P.ParseExpr(cfg, toks, pos, min, 0).diags == []
    ensures var r := P.ParseExpr(cfg, toks, pos, min, 0);
            && pos < r.pos <= |toks| && AllParts(toks[pos..r.pos])
            && (Spans.InText(toks[pos..r.pos]) ==> Spans.SpanOf(r.node) == Spans.Stretch(toks[pos..r.pos]))
  {
    hide P.ParseExpr, S.Canonical, S.Ends, S.Yield, Spans.InText, Spans.SpanOf, Spans.Stretch, IsPart;
    var r := P.ParseExpr(cfg, toks, pos, min, 0);
    PS.ParserSound(cfg, toks, pos, min);
    CanonicalParts(cfg, r.node, min);
    if Spans.InText(toks[pos..r.pos]) { Spans.ParsedSpan(cfg, toks, pos, min); }
  }

  lemma PartSpansText(s: Bytes, lexed: seq<Lexed>, from: nat, part: seq<S.Token>, e: S.Expr)
    requires |s| <= UINT32_MAX && Parseable(s, lexed) && from + |part| <= |lexed| && part != []
    requires part == HandedAll(s, lexed)[from..from + |part|] && AllParts(part)
    ensures (Spans.InText(part) ==> Spans.SpanOf(e) == Spans.Stretch(part)) ==>
              SpansText(s, lexed, from, from + |part|, e)
  {
    hide Parseable, HandedAll, AllParts, Spans.InText, Spans.SpanOf, Spans.Stretch;
    PartsInText(s, lexed, from, part);
    PartSpan(s, lexed, from, part);
  }

  lemma HandedAt(s: Bytes, lexed: seq<Lexed>, pos: nat)
    requires Parseable(s, lexed) && pos < |lexed|
    ensures P.At(HandedAll(s, lexed), pos)
  {
  }

  lemma ExpressionSpan(s: Bytes, lexed: seq<Lexed>, toks: seq<S.Token>, cfg: S.Config, pos: nat, min: S.Prec)
    requires |s| <= UINT32_MAX && Parseable(s, lexed) && toks == HandedAll(s, lexed) && P.At(toks, pos)
    ensures var r := P.ParseExpr(cfg, toks, pos, min, 0);
            r.diags == [] ==> pos < r.pos <= |lexed| && SpansText(s, lexed, pos, r.pos, r.node)
  {
    var r := P.ParseExpr(cfg, toks, pos, min, 0);
    hide *;
    if r.diags == [] {
      CleanParse(cfg, toks, pos, min);
      var part := toks[pos..r.pos];
      assert pos + |part| == r.pos;
      PartSpansText(s, lexed, pos, part, r.node);
    }
  }

  /**
   An expression parsed without diagnostics out of the tokens of a text spans that text,
   from the start of the first token it consumed to the end of the last.
  */
  lemma LexedExpressionSpan(s: Bytes, l: L.Lang, cfg: S.Config, pos: nat, min: S.Prec)
    requires |s| <= UINT32_MAX && NoInterpError(Lex(s, l).1) && PlainSemicolons(l)
    requires pos < |Lex(s, l).0|
    ensures Parseable(s, Lex(s, l).0) && P.At(HandedAll(s, Lex(s, l).0), pos)
    ensures var lexed := Lex(s, l).0;
            var r := P.ParseExpr(cfg, HandedAll(s, lexed), pos, min, 0);
            r.diags == [] ==> pos < r.pos <= |lexed| && SpansText(s, lexed, pos, r.pos, r.node)
  {
    hide Lex, NoInterpError, PlainSemicolons, Solid, InSource, P.ParseExpr, SpansText, HandedAll;
    LexIsParseable(s, l);
    HandedAt(s, Lex(s, l).0, pos);
    ExpressionSpan(s, Lex(s, l).0, HandedAll(s, Lex(s, l).0), cfg, pos, min);
  }
}
