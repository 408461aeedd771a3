/**
 Nothing is lost: where the delimiters of interpolations are marked, every byte outside
 the tokens is a blank, part of a newline or part of a skipped comment.
*/
module LexCoverage {
  import opened Options
  import opened Machine
  import opened LexConfig
  import opened Scanners
  import opened TokenScan
  import opened Layout
  import opened TokenCases
  import opened LexTiling

  /** How many bytes of what needs no token start here: a newline, a blank or a skipped comment. */
  function SkipLength(s: Bytes, l: Lang, pos: nat): (n: nat)
    requires pos < |s|
    ensures pos + n <= |s|
  {
    if NewlineAt(s, l, pos) != 0 then NewlineAt(s, l, pos)
    else if IsInlineSpace(s[pos]) then 1
    else
      var c := ScanComment(s, l, pos);
      if c.Some? && c.value.toks == [] then c.value.pos - pos else 0
  }

  /** From `a` to `b` there is nothing else. */
  ghost predicate Gap(s: Bytes, l: Lang, a: nat, b: nat)
    decreases |s| - a
  {
    || a == b
    || (a < b && a < |s| && SkipLength(s, l, a) > 0 && Gap(s, l, a + SkipLength(s, l, a), b))
  }

  /** Tokens and gaps make up the text from `a` to `b`. */
  ghost predicate Covered(s: Bytes, l: Lang, toks: seq<Token>, a: nat, b: nat)
    decreases |toks|
  {
    if toks == [] then Gap(s, l, a, b)
    else Gap(s, l, a, toks[0].start) && toks[0].start <= toks[0].end && Covered(s, l, toks[1..], toks[0].end, b)
  }

  predicate NoTemplates(l: Lang) {
    forall open <- l.strings :: !IsTemplate(l.strings[open].style)
  }

  /** Its delimiters have tokens of their own, and the one of a bare name is part of the name's token. */
  predicate Delimited(r: StringStyle) {
    r.interpOpenKind != 0 && r.interpCloseKind != 0 && (r.interpClose.None? ==> r.bareIdentKind != 0)
  }

  predicate AllDelimited(l: Lang) {
    forall open <- l.strings :: IsTemplate(l.strings[open].style) ==> Delimited(l.strings[open].style)
  }

  /** No interpolation was given up, for want of one or because all ended well. */
  predicate Tame(l: Lang, diags: seq<Diag>) {
    NoTemplates(l) || NoInterpError(diags)
  }

  // ----- gaps and covers compose

  lemma {:induction false} GapJoin(s: Bytes, l: Lang, a: nat, b: nat, c: nat)
    requires Gap(s, l, a, b) && Gap(s, l, b, c) && b <= c
    ensures Gap(s, l, a, c)
    decreases |s| - a
  {
    hide SkipLength;
    if a != b { GapJoin(s, l, a + SkipLength(s, l, a), b, c); }
  }

  lemma {:induction false} GapBounds(s: Bytes, l: Lang, a: nat, b: nat)
    requires Gap(s, l, a, b)
    ensures a <= b
  {
  }

  lemma {:induction false} CoveredBounds(s: Bytes, l: Lang, toks: seq<Token>, a: nat, b: nat)
    requires Covered(s, l, toks, a, b)
    ensures a <= b
    decreases |toks|
  {
    hide Gap;
    if toks == [] {
      GapBounds(s, l, a, b);
    } else {
      GapBounds(s, l, a, toks[0].start);
      CoveredBounds(s, l, toks[1..], toks[0].end, b);
    }
  }

  lemma CoveredAfterGap(s: Bytes, l: Lang, toks: seq<Token>, a: nat, b: nat, c: nat)
    requires Gap(s, l, a, b) && Covered(s, l, toks, b, c)
    ensures Covered(s, l, toks, a, c)
  {
    hide Gap;
    CoveredBounds(s, l, toks, b, c);
    if toks == [] {
      GapJoin(s, l, a, b, c);
    } else {
      GapBounds(s, l, b, toks[0].start);
      GapJoin(s, l, a, b, toks[0].start);
    }
  }

  lemma {:induction false} CoveredJoin(s: Bytes, l: Lang, t: seq<Token>, u: seq<Token>, a: nat, b: nat, c: nat)
    requires Covered(s, l, t, a, b) && Covered(s, l, u, b, c)
    ensures Covered(s, l, t + u, a, c)
    decreases |t|
  {
    hide Gap;
    if t == [] {
      assert t + u == u;
      CoveredAfterGap(s, l, u, a, b, c);
    } else {
      CoveredJoin(s, l, t[1..], u, t[0].end, b, c);
      assert (t + u)[1..] == t[1..] + u;
    }
  }

  lemma CoveredOne(s: Bytes, l: Lang, t: Token)
    requires t.start <= t.end
    ensures Covered(s, l, [t], t.start, t.end)
  {
  }

  // ----- blanks

  lemma GapBlank(s: Bytes, l: Lang, pos: nat, end: nat)
    requires pos < |s| && IsInlineSpace(s[pos]) && Gap(s, l, pos + 1, end)
    ensures Gap(s, l, pos, end)
  {
    GapBounds(s, l, pos + 1, end);
    hide SkipLength;
  }

  lemma {:induction false} InlineIsGap(s: Bytes, l: Lang, pos: nat)
    requires pos <= |s|
    ensures Gap(s, l, pos, SkipInline(s, pos))
    ensures SkipInline(s, pos) < |s| ==> !IsInlineSpace(s[SkipInline(s, pos)])
    decreases |s| - pos
  {
    hide Gap;
    if pos < |s| && IsInlineSpace(s[pos]) {
      InlineIsGap(s, l, pos + 1);
      GapBlank(s, l, pos, SkipInline(s, pos + 1));
    } else {
      NoGap(s, l, pos);
    }
  }

  lemma NoGap(s: Bytes, l: Lang, pos: nat)
    ensures Gap(s, l, pos, pos)
  {
  }

  lemma GapNewline(s: Bytes, l: Lang, pos: nat, end: nat)
    requires pos < |s| && NewlineAt(s, l, pos) != 0 && Gap(s, l, pos + NewlineAt(s, l, pos), end)
    ensures Gap(s, l, pos, end)
  {
    GapBounds(s, l, pos + NewlineAt(s, l, pos), end);
    hide NewlineAt;
  }

  lemma {:induction false} SpaceIsGap(s: Bytes, l: Lang, pos: nat)
    requires pos <= |s|
    ensures Gap(s, l, pos, SkipSpace(s, l, pos))
    ensures var end := SkipSpace(s, l, pos);
            end < |s| ==> NewlineAt(s, l, end) == 0 && !IsInlineSpace(s[end])
    decreases |s| - pos
  {
    hide Gap, NewlineAt;
    if pos < |s| && NewlineAt(s, l, pos) != 0 {
      SpaceIsGap(s, l, pos + NewlineAt(s, l, pos));
      GapNewline(s, l, pos, SkipSpace(s, l, pos));
    } else if pos < |s| && IsInlineSpace(s[pos]) {
      SpaceIsGap(s, l, pos + 1);
      GapBlank(s, l, pos, SkipSpace(s, l, pos));
    } else {
      NoGap(s, l, pos);
    }
  }

  lemma {:induction false} IndentationIsGap(s: Bytes, l: Lang, unit: IndentUnit, pos: nat, col: nat, bad: bool)
    requires pos <= |s|
    ensures Gap(s, l, pos, Indentation(s, unit, pos, col, bad).0)
    decreases |s| - pos
  {
    hide Gap;
    if pos < |s| && IsBlank(s[pos]) {
      IndentationIsGap(s, l, unit, pos + 1, ColumnAfter(unit, s[pos], col), bad || Disallowed(unit, s[pos]));
      GapBlank(s, l, pos, Indentation(s, unit, pos, col, bad).0);
    } else {
      NoGap(s, l, pos);
    }
  }

  // ----- tokens

  /** One token over all that was scanned. */
  predicate IsWhole(out: Out, from: nat) {
    |out.toks| == 1 && out.toks[0].start == from && out.toks[0].end == out.pos
  }

  /** Only a comment yields no token. */
  lemma NoTokenIsComment(s: Bytes, l: Lang, pos: nat)
    requires pos < |s|
    ensures ScanNumber(s, l, pos).Some? ==> ScanNumber(s, l, pos).value.toks != []
    ensures ScanIdent(s, l, pos).Some? ==> ScanIdent(s, l, pos).value.toks != []
    ensures ScanOperator(s, l, pos).Some? ==> ScanOperator(s, l, pos).value.toks != []
  {
    hide Digits, SuffixEnd, IdentEnd, Decimal, PeekCp, Longest;
  }

  /** All but strings yield one token over all they scan, or skip a comment. */
  lemma TokenCovers(s: Bytes, l: Lang, depth: nat, pos: nat)
    requires pos < |s| && NewlineAt(s, l, pos) == 0 && !IsInlineSpace(s[pos])
    ensures var out := TokenOrInvalid(s, l, depth, pos);
            || IsWhole(out, pos)
            || (out.toks == [] && SkipLength(s, l, pos) == out.pos - pos)
            || ScanString(s, l, depth, pos) == Some(out)
  {
    hide ScanString, ScanNumber, ScanIdent, ScanOperator, ScanComment, NewlineAt;
    TokenIsSimpleOrString(s, l, depth, pos);
    NoTokenIsComment(s, l, pos);
  }

  lemma WholeCovers(s: Bytes, l: Lang, out: Out, pos: nat)
    requires IsWhole(out, pos) && pos <= out.pos
    ensures Covered(s, l, out.toks, pos, out.pos)
  {
    assert out.toks == [out.toks[0]];
    CoveredOne(s, l, out.toks[0]);
  }

  lemma CommentCovers(s: Bytes, l: Lang, out: Out, pos: nat)
    requires pos < |s| && out.toks == [] && pos < out.pos && SkipLength(s, l, pos) == out.pos - pos
    ensures Covered(s, l, out.toks, pos, out.pos)
  {
    assert Gap(s, l, out.pos, out.pos);
  }

  /** The result covers what was scanned, unless an interpolation was given up. */
  ghost predicate InCover(s: Bytes, l: Lang, out: Out, from: nat) {
    Tame(l, out.diags) ==> Covered(s, l, out.toks, from, out.pos)
  }

  lemma TameParts(l: Lang, a: seq<Diag>, b: seq<Diag>)
    requires Tame(l, a + b)
    ensures Tame(l, a) && Tame(l, b)
  {
    if NoInterpError(a + b) {
      forall d <- a ensures !IsInterpError(d.message) { assert d in a + b; }
      forall d <- b ensures !IsInterpError(d.message) { assert d in a + b; }
    }
  }

  lemma JoinCover(s: Bytes, l: Lang, head: seq<Token>, diags: seq<Diag>, rest: Out, from: nat, mid: nat)
    requires Tame(l, diags) ==> Covered(s, l, head, from, mid)
    requires InCover(s, l, rest, mid)
    ensures InCover(s, l, Before(head, diags, rest), from)
  {
    hide Tame, Covered;
    if Tame(l, diags + rest.diags) {
      TameParts(l, diags, rest.diags);
      CoveredJoin(s, l, head, rest.toks, from, mid, rest.pos);
    }
  }

  lemma WholeJoinCover(s: Bytes, l: Lang, head: seq<Token>, out: Out, from: nat, mid: nat)
    requires Covered(s, l, head, from, mid) && InCover(s, l, out, mid)
    ensures Tame(l, out.diags) ==> Covered(s, l, head + out.toks, from, out.pos)
  {
    hide Tame, Covered;
    if Tame(l, out.diags) { CoveredJoin(s, l, head, out.toks, from, mid, out.pos); }
  }

  lemma OneInCover(s: Bytes, l: Lang, t: Token, diags: seq<Diag>)
    requires t.start <= t.end
    ensures InCover(s, l, Out(t.end, [t], diags), t.start)
  {
    CoveredOne(s, l, t);
  }

  lemma {:induction false} TokenInCover(s: Bytes, l: Lang, depth: nat, pos: nat)
    requires pos < |s| && AllDelimited(l) && NewlineAt(s, l, pos) == 0 && !IsInlineSpace(s[pos])
    ensures InCover(s, l, TokenOrInvalid(s, l, depth, pos), pos)
    decreases |s| - pos, 3
  {
    hide TokenOrInvalid, ScanString, SkipLength, NewlineAt, AllDelimited, Covered, Tame, IsWhole;
    var out := TokenOrInvalid(s, l, depth, pos);
    StringInCover(s, l, depth, pos);
    TokenCovers(s, l, depth, pos);
    if IsWhole(out, pos) {
      WholeCovers(s, l, out, pos);
    } else if out.toks == [] && SkipLength(s, l, pos) == out.pos - pos {
      CommentCovers(s, l, out, pos);
    }
  }

  lemma {:induction false} StringInCover(s: Bytes, l: Lang, depth: nat, pos: nat)
    requires pos < |s| && AllDelimited(l)
    ensures ScanString(s, l, depth, pos).Some? ==> InCover(s, l, ScanString(s, l, depth, pos).value, pos)
    decreases |s| - pos, 2
  {
    hide ScanString, StringBody, InCover, AllDelimited;
    if ScanString(s, l, depth, pos).Some? {
      var open := StringIsBody(s, l, depth, pos);
      BodyInCover(s, l, open, depth, pos, pos, false, pos + |open|);
    }
  }

  lemma FragmentCovers(s: Bytes, l: Lang, r: StringStyle, start: nat, from: nat, to: nat)
    requires from <= to
    ensures Covered(s, l, Fragment(r, start, from, to), from, to)
  {
    hide Gap;
    NoGap(s, l, from);
    NoGap(s, l, to);
  }

  lemma EntersDelimited(s: Bytes, l: Lang, open: Bytes, pos: nat)
    requires AllDelimited(l) && open in l.strings && pos <= |s|
    ensures CaseAt(s, l, l.strings[open], pos).Enter? ==> !NoTemplates(l) && Delimited(l.strings[open].style)
  {
    hide Delimited, Matches, StartsInterpolation;
    if CaseAt(s, l, l.strings[open], pos).Enter? {
      assert IsTemplate(l.strings[open].style);
    }
  }

  lemma {:induction false} BodyInCover(s: Bytes, l: Lang, open: Bytes, depth: nat, start: nat, from: nat, had: bool,
                                       pos: nat)
    requires from <= pos <= |s| && AllDelimited(l) && open in l.strings
    ensures InCover(s, l, StringBody(s, l, open, l.strings[open], depth, start, from, had, pos), from)
    decreases |s| - pos, 1
  {
    hide StringBody, Interpolation, InterpolationAt, CaseAt, InCover, Fragment, Covered, Tame, AllDelimited, Delimited,
         NoTemplates;
    var e := l.strings[open];
    var c := CaseAt(s, l, e, pos);
    if c.Stop? {
      BodyStops(s, l, open, e, depth, start, from, had, pos);
      OneInCover(s, l, Token(INVALID, from, c.end, 0), [Diag(UnterminatedString, from, c.end)]);
    } else if c.Close? {
      BodyCloses(s, l, open, e, depth, start, from, had, pos);
      OneInCover(s, l, Tail(open, e.style, from, had, pos + |e.style.close|), []);
    } else if c.Enter? {
      EntersDelimited(s, l, open, pos);
      BodyEnters(s, l, open, e, depth, start, from, had, pos);
      InterpolationInCover(s, l, e.style, depth, pos);
      var i := Interpolation(s, l, e.style, depth, pos);
      var head := Fragment(e.style, start, from, pos);
      FragmentCovers(s, l, e.style, start, from, pos);
      var rest := StringBody(s, l, open, e, depth, start, i.out.pos, true, i.out.pos);
      BodyInCover(s, l, open, depth, start, i.out.pos, true, i.out.pos);
      JoinCover(s, l, head, [], i.out, from, pos);
      WholeJoinCover(s, l, head, i.out, from, pos);
      JoinCover(s, l, head + i.out.toks, i.out.diags, rest, from, i.out.pos);
    } else {
      BodySteps(s, l, open, e, depth, start, from, had, pos);
      BodyInCover(s, l, open, depth, start, from, had, c.next);
      NothingCovers(s, l, from);
      JoinCover(s, l, [], c.diags, StringBody(s, l, open, e, depth, start, from, had, c.next), from, from);
    }
  }

  lemma NothingCovers(s: Bytes, l: Lang, from: nat)
    ensures Covered(s, l, [], from, from)
  {
  }

  lemma {:induction false} InterpolationInCover(s: Bytes, l: Lang, r: StringStyle, depth: nat, start: nat)
    requires InterpolationAt(s, l, r, start) && AllDelimited(l) && !NoTemplates(l) && Delimited(r)
    ensures InCover(s, l, Interpolation(s, l, r, depth, start).out, start)
    decreases |s| - start, 0
  {
    hide Expression, Longest, InCover, ScanIdent, StartsInterpolation, AllDelimited, NoTemplates;
    var pos := start + |r.interpOpen.value|;
    if r.interpClose.Some? {
      ExpressionInCover(s, l, start, r.interpClose.value, r.interpCloseKind, depth, pos);
      MarkedInCover(s, l, r.interpOpenKind, start, pos,
                    Expression(s, l, start, r.interpClose.value, r.interpCloseKind, depth, pos));
    } else if r.interpOpen.value == DOLLAR && Matches(s, pos, BRACE_OPEN) {
      ExpressionInCover(s, l, start, BRACE_CLOSE, r.interpCloseKind, depth, pos + 1);
      MarkedInCover(s, l, r.interpOpenKind, start, pos + 1,
                    Expression(s, l, start, BRACE_CLOSE, r.interpCloseKind, depth, pos + 1));
    } else {
      OneInCover(s, l, Token(INVALID, start, pos, 0), [Diag(ExpectedIdentifier, start, pos)]);
      BareInCover(s, l, r, start, pos);
    }
  }

  lemma BareInCover(s: Bytes, l: Lang, r: StringStyle, start: nat, pos: nat)
    requires start <= pos <= |s|
    ensures var name := ScanIdent(s, l, pos);
            name.Some? ==>
              InCover(s, l, Out(name.value.pos, [Token(r.bareIdentKind, start, name.value.pos, 0)], []), start)
  {
    var name := ScanIdent(s, l, pos);
    if name.Some? { OneInCover(s, l, Token(r.bareIdentKind, start, name.value.pos, 0), []); }
  }

  lemma MarkedInCover(s: Bytes, l: Lang, kind: nat, from: nat, to: nat, i: Interp)
    requires kind != 0 && from <= to && InCover(s, l, i.out, to)
    ensures InCover(s, l, Marked(kind, from, to, i).out, from)
  {
    hide InCover, Covered, Tame;
    CoveredOne(s, l, Token(kind, from, to, 0));
    JoinCover(s, l, Marker(kind, from, to), [], i.out, from, to);
  }

  lemma {:induction false} ExpressionInCover(s: Bytes, l: Lang, start: nat, close: Bytes, closeKind: nat, depth: nat,
                                             pos: nat)
    requires start < pos <= |s| && closeKind != 0 && AllDelimited(l) && !NoTemplates(l)
    ensures InCover(s, l, Expression(s, l, start, close, closeKind, depth, pos).out, pos)
    decreases |s| - pos, 5
  {
    hide ExpressionFrom, AllDelimited, NoTemplates;
    if depth < MAX_INTERP_DEPTH {
      LoopInCover(s, l, start, close, closeKind, depth + 1, 0, pos);
    } else {
      var d := Diag(InterpolationTooDeep, start, pos);
      assert [d][0] == d && IsInterpError(d.message);
    }
  }

  lemma {:induction false} SpaceCovers(s: Bytes, l: Lang, pos: nat)
    requires pos <= |s|
    ensures Covered(s, l, InterpSpace(s, l, pos).toks, pos, InterpSpace(s, l, pos).pos)
    ensures var end := InterpSpace(s, l, pos).pos;
            end < |s| ==> NewlineAt(s, l, end) == 0 && !IsInlineSpace(s[end])
    decreases |s| - pos
  {
    hide Gap, Covered, NewlineAt;
    if pos < |s| && NewlineAt(s, l, pos) != 0 {
      var n := NewlineAt(s, l, pos);
      SpaceCovers(s, l, pos + n);
      var rest := InterpSpace(s, l, pos + n);
      NewlineCovered(s, l, pos, l.policy.emitNewlines);
      CoveredJoin(s, l, if l.policy.emitNewlines then [Token(NEWLINE, pos, pos + n, 0)] else [], rest.toks,
                  pos, pos + n, rest.pos);
    } else if pos < |s| && IsInlineSpace(s[pos]) {
      SpaceCovers(s, l, pos + 1);
      NoGap(s, l, pos + 1);
      GapBlank(s, l, pos, pos + 1);
      CoveredAfterGap(s, l, InterpSpace(s, l, pos + 1).toks, pos, pos + 1, InterpSpace(s, l, pos + 1).pos);
    } else {
      NothingCovers(s, l, pos);
    }
  }

  lemma {:induction false} LoopInCover(s: Bytes, l: Lang, start: nat, close: Bytes, closeKind: nat, depth: nat,
                                       pairs: nat, pos: nat)
    requires start < pos <= |s| && closeKind != 0 && AllDelimited(l) && !NoTemplates(l)
    ensures InCover(s, l, ExpressionFrom(s, l, start, close, closeKind, depth, pairs, pos).out, pos)
    decreases |s| - pos, 4
  {
    hide ExpressionFrom, InterpSpace, TokenOrInvalid, EndsHere, InCover, Covered, Tame, AllDelimited,
         NoTemplates, NewlineAt;
    var space := InterpSpace(s, l, pos);
    SpaceCovers(s, l, pos);
    if EndsHere(s, close, pairs, space.pos) {
      LoopEnds(s, l, start, close, closeKind, depth, pairs, pos);
      ExitInCover(s, l, space.toks, start, pos, space.pos, space.pos + |close|, closeKind);
    } else {
      var left := LoopTurns(s, l, start, close, closeKind, depth, pairs, pos);
      TokenInCover(s, l, depth, space.pos);
      var out := TokenOrInvalid(s, l, depth, space.pos);
      LoopInCover(s, l, start, close, closeKind, depth, left, out.pos);
      WholeJoinCover(s, l, space.toks, out, pos, space.pos);
      JoinCover(s, l, space.toks + out.toks, out.diags,
                ExpressionFrom(s, l, start, close, closeKind, depth, left, out.pos).out, pos, out.pos);
    }
  }

  lemma ExitInCover(s: Bytes, l: Lang, toks: seq<Token>, start: nat, pos: nat, at: nat, end: nat, closeKind: nat)
    requires Covered(s, l, toks, pos, at) && at <= end && closeKind != 0 && !NoTemplates(l)
    ensures InCover(s, l, Before(toks, [], Invalid(start, at, UnterminatedInterpolation)), pos)
    ensures InCover(s, l, Out(end, toks + Marker(closeKind, at, end), []), pos)
  {
    hide Covered, NoTemplates;
    assert IsInterpError(([] + [Diag(UnterminatedInterpolation, start, at)])[0].message);
    CoveredOne(s, l, Token(closeKind, at, end, 0));
    CoveredJoin(s, l, toks, Marker(closeKind, at, end), pos, at, end);
  }

  // ----- whole runs

  /** Virtual tokens, empty and all at one place. */
  predicate AllAt(toks: seq<Token>, pos: nat) {
    forall t <- toks :: t.start == pos && t.end == pos
  }

  lemma {:induction false} VirtualCovered(s: Bytes, l: Lang, toks: seq<Token>, pos: nat)
    requires AllAt(toks, pos)
    ensures Covered(s, l, toks, pos, pos)
    decreases |toks|
  {
    NoGap(s, l, pos);
    hide Gap;
    if toks != [] { VirtualCovered(s, l, toks[1..], pos); }
  }

  lemma {:induction false} CloseAllAt(stack: seq<nat>, col: nat, pos: nat)
    requires stack != []
    ensures AllAt(CloseDeeper(stack, col, pos).1, pos)
    decreases |stack|
  {
    if |stack| > 1 && col < Top(stack) { CloseAllAt(Pop(stack), col, pos); }
  }

  lemma AlignAllAt(stack: seq<nat>, col: nat, pos: nat, onEqual: bool)
    requires stack != []
    ensures AllAt(Align(stack, col, pos, onEqual).1, pos)
  {
    CloseAllAt(stack, col, pos);
  }

  lemma {:induction false} DrainAllAt(n: nat, pos: nat)
    ensures AllAt(Drain(n, pos), pos)
  {
    if n > 0 { DrainAllAt(n - 1, pos); }
  }

  lemma SemicolonAllAt(l: Lang, st: State)
    ensures AllAt(AutoSemicolon(l, st), st.pos)
  {
  }

  ghost predicate CoveredSoFar(s: Bytes, l: Lang, st: State) {
    Tame(l, st.diags) ==> Covered(s, l, st.toks, 0, st.pos)
  }

  lemma MoreCovered(s: Bytes, l: Lang, st: State, next: State, more: seq<Token>, diags: seq<Diag>)
    requires CoveredSoFar(s, l, st) && next.toks == st.toks + more && next.diags == st.diags + diags
    requires Tame(l, diags) ==> Covered(s, l, more, st.pos, next.pos)
    ensures CoveredSoFar(s, l, next)
  {
    hide Tame, Covered;
    if Tame(l, next.diags) {
      TameParts(l, st.diags, diags);
      CoveredJoin(s, l, st.toks, more, 0, st.pos, next.pos);
    }
  }

  lemma ApproachCovered(s: Bytes, l: Lang, st: State)
    requires st.pos <= |s| && st.stack != [] && CoveredSoFar(s, l, st)
    ensures CoveredSoFar(s, l, Approach(s, l, st))
    ensures var a := Approach(s, l, st);
            a.pos < |s| ==> !IsInlineSpace(s[a.pos]) && (!NewlineAware(l) ==> NewlineAt(s, l, a.pos) == 0)
  {
    hide CoveredSoFar, Indentation, Align, BlankLine, SkipInline, SkipSpace, Gap, Covered, NewlineAt;
    var a := Approach(s, l, st);
    assert st.toks + [] == st.toks && st.diags + [] == st.diags;
    if !NewlineAware(l) {
      SpaceIsGap(s, l, st.pos);
      GapCovered(s, l, st.pos, a.pos);
      MoreCovered(s, l, st, a, [], []);
    } else if l.policy.offside.Some? && st.lineStart {
      var o := l.policy.offside.value;
      var indent := Indentation(s, o.unit, st.pos, 0, false);
      IndentationIsGap(s, l, o.unit, st.pos, 0, false);
      InlineIsGap(s, l, indent.0);
      var bad := if indent.2 then [Diag(DisallowedIndentUnit, st.pos, indent.0)] else [];
      var aligned := Align(st.stack, indent.1, indent.0, o.dedentOnEqual);
      AlignAllAt(st.stack, indent.1, indent.0, o.dedentOnEqual);
      if BlankLine(s, l, indent.0) {
        LineCovered(s, l, st.pos, indent.0, a.pos, []);
        MoreCovered(s, l, st, a, [], bad);
      } else {
        assert st.diags + (bad + aligned.2) == st.diags + bad + aligned.2;
        LineCovered(s, l, st.pos, indent.0, a.pos, aligned.1);
        MoreCovered(s, l, st, a, aligned.1, bad + aligned.2);
      }
    } else {
      InlineIsGap(s, l, st.pos);
      GapCovered(s, l, st.pos, a.pos);
      MoreCovered(s, l, st, a, [], []);
    }
  }

  lemma GapCovered(s: Bytes, l: Lang, a: nat, b: nat)
    requires Gap(s, l, a, b)
    ensures Covered(s, l, [], a, b)
  {
  }

  lemma LineCovered(s: Bytes, l: Lang, a: nat, b: nat, c: nat, toks: seq<Token>)
    requires Gap(s, l, a, b) && Gap(s, l, b, c) && AllAt(toks, b)
    ensures Covered(s, l, toks, a, c)
  {
    hide Gap, Covered;
    VirtualCovered(s, l, toks, b);
    CoveredAfterGap(s, l, toks, a, b, b);
    GapCovered(s, l, b, c);
    CoveredJoin(s, l, toks, [], a, b, c);
    assert toks + [] == toks;
  }

  lemma NewlineCovered(s: Bytes, l: Lang, pos: nat, emits: bool)
    requires pos < |s| && NewlineAt(s, l, pos) != 0
    ensures var n := NewlineAt(s, l, pos);
            Covered(s, l, if emits then [Token(NEWLINE, pos, pos + n, 0)] else [], pos, pos + n)
  {
    hide Gap;
    var n := NewlineAt(s, l, pos);
    NoGap(s, l, pos + n);
    if emits {
      CoveredOne(s, l, Token(NEWLINE, pos, pos + n, 0));
    } else {
      GapNewline(s, l, pos, pos + n);
    }
  }

  lemma FinishLineCovered(s: Bytes, l: Lang, st: State)
    requires st.pos < |s| && NewlineAt(s, l, st.pos) != 0 && CoveredSoFar(s, l, st)
    ensures CoveredSoFar(s, l, FinishLine(s, l, st))
  {
    hide CoveredSoFar, AutoSemicolon, NewlineAt, Covered;
    var n := NewlineAt(s, l, st.pos);
    var emits := l.policy.emitNewlines || (l.policy.offside.Some? && st.significant);
    var newline := if emits then [Token(NEWLINE, st.pos, st.pos + n, 0)] else [];
    SemicolonAllAt(l, st);
    VirtualCovered(s, l, AutoSemicolon(l, st), st.pos);
    NewlineCovered(s, l, st.pos, emits);
    CoveredJoin(s, l, AutoSemicolon(l, st), newline, st.pos, st.pos, st.pos + n);
    assert st.diags + [] == st.diags;
    MoreCovered(s, l, st, FinishLine(s, l, st), AutoSemicolon(l, st) + newline, []);
  }

  lemma TakeTokenCovered(s: Bytes, l: Lang, st: State)
    requires st.pos < |s| && AllDelimited(l) && NewlineAt(s, l, st.pos) == 0 && !IsInlineSpace(s[st.pos])
    requires CoveredSoFar(s, l, st)
    ensures CoveredSoFar(s, l, TakeToken(s, l, st))
  {
    hide CoveredSoFar, TokenOrInvalid, LastSignificant, NewlineAt, Covered, AllDelimited;
    var out := TokenOrInvalid(s, l, 0, st.pos);
    TokenInCover(s, l, 0, st.pos);
    MoreCovered(s, l, st, TakeToken(s, l, st), out.toks, out.diags);
  }

  lemma {:induction false} TurnsCovered(s: Bytes, l: Lang, st: State)
    requires st.pos <= |s| && st.stack != [] && AllDelimited(l) && CoveredSoFar(s, l, st)
    ensures CoveredSoFar(s, l, Turns(s, l, st))
    decreases |s| - st.pos
  {
    hide CoveredSoFar, Approach, FinishLine, TakeToken, AllDelimited, NewlineAt;
    if |st.toks| < TOKEN_LIMIT {
      var a := Approach(s, l, st);
      ApproachCovered(s, l, st);
      if a.pos < |s| {
        SameStack(s, l, a);
        if NewlineAware(l) && NewlineAt(s, l, a.pos) != 0 {
          FinishLineCovered(s, l, a);
          TurnsCovered(s, l, FinishLine(s, l, a));
        } else {
          TakeTokenCovered(s, l, a);
          TurnsCovered(s, l, TakeToken(s, l, a));
        }
      }
    } else {
      SameCover(s, l, st);
    }
  }

  lemma SameCover(s: Bytes, l: Lang, st: State)
    requires CoveredSoFar(s, l, st)
    ensures CoveredSoFar(s, l, st.(diags := st.diags + [Diag(TokenLimit, st.pos, st.pos)]))
  {
    assert st.toks + [] == st.toks;
    NothingCovers(s, l, st.pos);
    MoreCovered(s, l, st, st.(diags := st.diags + [Diag(TokenLimit, st.pos, st.pos)]), [],
                [Diag(TokenLimit, st.pos, st.pos)]);
  }

  lemma EndAllAt(l: Lang, st: State)
    requires st.stack != []
    ensures AllAt(EndTokens(l, st), st.pos)
  {
    hide AutoSemicolon;
    SemicolonAllAt(l, st);
    DrainAllAt(|st.stack| - 1, st.pos);
  }

  /**
   Unless an interpolation is given up, and below the token limit, the tokens, the last
   of them EOF at the end, and gaps of blanks, newlines and skipped comments make up the
   whole text.
  */
  lemma LexCoversText(s: Bytes, l: Lang)
    requires AllDelimited(l)
    ensures var (toks, diags) := Lex(s, l);
            Tame(l, diags) && (diags == [] || diags[|diags| - 1].message != TokenLimit) ==>
              && Covered(s, l, toks, 0, |s|)
              && toks != [] && toks[|toks| - 1] == Token(EOF, |s|, |s|, 0)
  {
    hide Turns, EndTokens, Covered, AllDelimited, Tame;
    var st := Turns(s, l, INITIAL);
    InitialCovered(s, l);
    TurnsCovered(s, l, INITIAL);
    TurnsReachEnd(s, l, INITIAL);
    if Tame(l, st.diags) { EndCovered(s, l, st); }
  }

  lemma InitialCovered(s: Bytes, l: Lang)
    ensures CoveredSoFar(s, l, INITIAL)
  {
  }

  lemma EndCovered(s: Bytes, l: Lang, st: State)
    requires st.stack != [] && CoveredSoFar(s, l, st) && Tame(l, st.diags)
    ensures Covered(s, l, st.toks + EndTokens(l, st) + [Token(EOF, st.pos, st.pos, 0)], 0, st.pos)
  {
    hide EndTokens, Covered;
    EndAllAt(l, st);
    var more, end := EndTokens(l, st), [Token(EOF, st.pos, st.pos, 0)];
    VirtualCovered(s, l, more + end, st.pos);
    CoveredJoin(s, l, st.toks, more + end, 0, st.pos, st.pos);
    assert st.toks + (more + end) == (st.toks + more) + end;
  }

  // ----- byte by byte

  predicate InToken(toks: seq<Token>, x: nat) {
    exists t <- toks :: t.start <= x < t.end
  }

  /** The byte belongs to a newline, a blank or a skipped comment, which begins at `p`. */
  predicate SkippedFrom(s: Bytes, l: Lang, p: nat, x: nat) {
    p < |s| && p <= x < p + SkipLength(s, l, p)
  }

  lemma {:induction false} NotYetInToken(s: Bytes, l: Lang, toks: seq<Token>, a: nat, b: nat, x: nat)
    requires Covered(s, l, toks, a, b) && x < a
    ensures !InToken(toks, x)
    decreases |toks|
  {
    hide Gap;
    if toks != [] {
      GapBounds(s, l, a, toks[0].start);
      NotYetInToken(s, l, toks[1..], toks[0].end, b, x);
      assert forall t <- toks :: t == toks[0] || t in toks[1..];
    }
  }

  lemma {:induction false} GapByte(s: Bytes, l: Lang, a: nat, b: nat, x: nat) returns (p: nat)
    requires Gap(s, l, a, b) && a <= x < b
    ensures a <= p && SkippedFrom(s, l, p, x)
    decreases |s| - a
  {
    hide SkipLength;
    if x < a + SkipLength(s, l, a) {
      p := a;
    } else {
      p := GapByte(s, l, a + SkipLength(s, l, a), b, x);
    }
  }

  lemma {:induction false} CoveredByte(s: Bytes, l: Lang, toks: seq<Token>, a: nat, b: nat, x: nat) returns (p: nat)
    requires Covered(s, l, toks, a, b) && a <= x < b && !InToken(toks, x)
    ensures a <= p && SkippedFrom(s, l, p, x) && !InToken(toks, p)
    decreases |toks|
  {
    hide Gap;
    if toks == [] {
      p := GapByte(s, l, a, b, x);
    } else if x < toks[0].start {
      p := GapByte(s, l, a, toks[0].start, x);
      NotYetInToken(s, l, toks, toks[0].start, b, p) by { NoGap(s, l, toks[0].start); }
    } else {
      assert toks[0] in toks;
      GapBounds(s, l, a, toks[0].start);
      p := CoveredByte(s, l, toks[1..], toks[0].end, b, x);
      assert forall t <- toks :: t == toks[0] || t in toks[1..];
    }
  }

  /**
   Every byte outside the tokens is a blank, or part of a newline or of a skipped comment
   that begins outside the tokens too.
  */
  lemma LexAccountsForByte(s: Bytes, l: Lang, x: nat) returns (p: nat)
    requires AllDelimited(l) && x < |s|
    requires var diags := Lex(s, l).1;
             Tame(l, diags) && (diags == [] || diags[|diags| - 1].message != TokenLimit)
    requires !InToken(Lex(s, l).0, x)
    ensures SkippedFrom(s, l, p, x) && !InToken(Lex(s, l).0, p)
  {
    hide Lex, Covered, AllDelimited, InToken, SkippedFrom, Tame;
    LexCoversText(s, l);
    p := CoveredByte(s, l, Lex(s, l).0, 0, |s|, x);
  }
}
