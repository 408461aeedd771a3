/**
 Where tokens lie: in order and apart, and between them nothing but blanks, newlines and
 skipped comments.
*/
module LexTiling {
  import opened Machine
  import opened LexConfig
  import opened Scanners
  import opened TokenScan
  import opened Layout
  import opened TokenCases

  /** The spans follow each other from `from` to `to` without overlap. */
  predicate Ordered(toks: seq<Token>, from: nat, to: nat)
    decreases |toks|
  {
    if toks == [] then from <= to
    else from <= toks[0].start <= toks[0].end && Ordered(toks[1..], toks[0].end, to)
  }

  predicate IsInterpError(m: Message) {
    m == UnterminatedInterpolation || m == InterpolationTooDeep
  }

  /** No expression had to be given up; its INVALID token would cover tokens already out. */
  predicate NoInterpError(diags: seq<Diag>) {
    forall d <- diags :: !IsInterpError(d.message)
  }

  lemma {:induction false} OrderedBounds(toks: seq<Token>, from: nat, to: nat)
    requires Ordered(toks, from, to)
    ensures from <= to
    decreases |toks|
  {
    if toks != [] { OrderedBounds(toks[1..], toks[0].end, to); }
  }

  lemma {:induction false} OrderedJoin(a: seq<Token>, b: seq<Token>, from: nat, mid: nat, to: nat)
    requires Ordered(a, from, mid) && Ordered(b, mid, to)
    ensures Ordered(a + b, from, to)
    decreases |a|
  {
    if a == [] {
      assert a + b == b;
    } else {
      OrderedJoin(a[1..], b, a[0].end, mid, to);
      assert (a + b)[1..] == a[1..] + b;
    }
  }

  lemma OrderedLater(toks: seq<Token>, from: nat, mid: nat, to: nat)
    requires Ordered(toks, from, mid) && mid <= to
    ensures Ordered(toks, from, to)
  {
    OrderedJoin(toks, [], from, mid, to);
    assert toks + [] == toks;
  }

  lemma OrderedOne(t: Token, from: nat, to: nat)
    requires from <= t.start <= t.end <= to
    ensures Ordered([t], from, to)
  {
  }

  // ----- one token

  lemma {:induction false} SpaceInOrder(s: Bytes, l: Lang, pos: nat)
    requires pos <= |s|
    ensures Ordered(InterpSpace(s, l, pos).toks, pos, InterpSpace(s, l, pos).pos)
    decreases |s| - pos
  {
    hide NewlineAt;
    if pos < |s| {
      var n := NewlineAt(s, l, pos);
      if n != 0 {
        SpaceInOrder(s, l, pos + n);
        var rest := InterpSpace(s, l, pos + n);
        OrderedOne(Token(NEWLINE, pos, pos + n, 0), pos, pos + n);
        OrderedJoin([Token(NEWLINE, pos, pos + n, 0)], rest.toks, pos, pos + n, rest.pos);
        assert [] + rest.toks == rest.toks;
      } else if IsInlineSpace(s[pos]) {
        SpaceInOrder(s, l, pos + 1);
        var rest := InterpSpace(s, l, pos + 1);
      }
    }
  }

  /** The tokens of a result are in order from `from` on, unless an interpolation was given up. */
  predicate InOrder(out: Out, from: nat) {
    NoInterpError(out.diags) ==> Ordered(out.toks, from, out.pos)
  }

  lemma SimpleInOrder(out: Out, pos: nat)
    requires IsSimple(out, pos) && pos <= out.pos
    ensures InOrder(out, pos)
  {
    if |out.toks| == 1 { OrderedOne(out.toks[0], pos, out.pos); }
  }

  /** A token, its span and everything in it lie where it was scanned. */
  lemma {:induction false} TokenInOrder(s: Bytes, l: Lang, depth: nat, pos: nat)
    requires pos < |s|
    ensures InOrder(TokenOrInvalid(s, l, depth, pos), pos)
    decreases |s| - pos, 3
  {
    hide ScanString, ScanToken, InOrder, IsSimple;
    StringInOrder(s, l, depth, pos);
    TokenIsSimpleOrString(s, l, depth, pos);
    var r := ScanToken(s, l, depth, pos);
    if r.None? {
      InvalidInOrder(pos, pos + 1, UnknownCharacter, pos);
    } else if IsSimple(r.value, pos) {
      SimpleInOrder(r.value, pos);
    }
  }

  lemma InvalidInOrder(start: nat, pos: nat, m: Message, from: nat)
    requires from <= start <= pos
    ensures InOrder(Invalid(start, pos, m), from)
  {
    OrderedOne(Token(INVALID, start, pos, 0), from, pos);
  }

  lemma {:induction false} StringInOrder(s: Bytes, l: Lang, depth: nat, pos: nat)
    requires pos < |s|
    ensures ScanString(s, l, depth, pos).Some? ==> InOrder(ScanString(s, l, depth, pos).value, pos)
    decreases |s| - pos, 2
  {
    hide ScanString, StringBody, InOrder;
    if ScanString(s, l, depth, pos).Some? {
      var open := StringIsBody(s, l, depth, pos);
      BodyInOrder(s, l, open, l.strings[open], depth, pos, pos, false, pos + |open|);
    }
  }

  lemma JoinInOrder(head: seq<Token>, diags: seq<Diag>, rest: Out, from: nat, mid: nat)
    requires NoInterpError(diags) ==> Ordered(head, from, mid)
    requires InOrder(rest, mid)
    ensures InOrder(Before(head, diags, rest), from)
  {
    if NoInterpError(diags + rest.diags) {
      assert NoInterpError(diags) by {
        forall d <- diags ensures !IsInterpError(d.message) { assert d in diags + rest.diags; }
      }
      assert NoInterpError(rest.diags) by {
        forall d <- rest.diags ensures !IsInterpError(d.message) { assert d in diags + rest.diags; }
      }
      OrderedJoin(head, rest.toks, from, mid, rest.pos);
    }
  }

  lemma FragmentInOrder(r: StringStyle, start: nat, from: nat, to: nat)
    requires from <= to
    ensures Ordered(Fragment(r, start, from, to), from, to)
  {
  }

  lemma {:induction false} BodyInOrder(s: Bytes, l: Lang, open: Bytes, e: StringEntry, depth: nat, start: nat,
                                       from: nat, had: bool, pos: nat)
    requires from <= pos <= |s|
    ensures InOrder(StringBody(s, l, open, e, depth, start, from, had, pos), from)
    decreases |s| - pos, 1
  {
    hide StringBody, Interpolation, InterpolationAt, CaseAt, InOrder, Fragment;
    var c := CaseAt(s, l, e, pos);
    if c.Stop? {
      BodyStops(s, l, open, e, depth, start, from, had, pos);
      InvalidInOrder(from, StringBody(s, l, open, e, depth, start, from, had, pos).pos, UnterminatedString, from);
    } else if c.Close? {
      BodyCloses(s, l, open, e, depth, start, from, had, pos);
      var end := pos + |e.style.close|;
      OneInOrder(Tail(open, e.style, from, had, end), end, from);
    } else if c.Enter? {
      BodyEnters(s, l, open, e, depth, start, from, had, pos);
      InterpolationInOrder(s, l, e.style, depth, pos);
      var i := Interpolation(s, l, e.style, depth, pos);
      var head := Fragment(e.style, start, from, pos);
      FragmentInOrder(e.style, start, from, pos);
      var rest := StringBody(s, l, open, e, depth, start, i.out.pos, true, i.out.pos);
      BodyInOrder(s, l, open, e, depth, start, i.out.pos, true, i.out.pos);
      JoinInOrder(head, [], i.out, from, pos);
      WholeInOrder(head, i.out, from);
      JoinInOrder(head + i.out.toks, i.out.diags, rest, from, i.out.pos);
    } else {
      BodySteps(s, l, open, e, depth, start, from, had, pos);
      BodyInOrder(s, l, open, e, depth, start, from, had, c.next);
      OrderedNone(from);
      JoinInOrder([], c.diags, StringBody(s, l, open, e, depth, start, from, had, c.next), from, from);
    }
  }

  lemma OrderedNone(from: nat)
    ensures Ordered([], from, from)
  {
  }

  lemma OneInOrder(t: Token, end: nat, from: nat)
    requires from <= t.start <= t.end <= end
    ensures InOrder(Out(end, [t], []), from)
  {
    OrderedOne(t, from, end);
  }

  lemma WholeInOrder(head: seq<Token>, out: Out, from: nat)
    requires InOrder(Before(head, [], out), from)
    ensures NoInterpError(out.diags) ==> Ordered(head + out.toks, from, out.pos)
  {
    assert [] + out.diags == out.diags;
  }

  lemma {:induction false} InterpolationInOrder(s: Bytes, l: Lang, r: StringStyle, depth: nat, start: nat)
    requires InterpolationAt(s, l, r, start)
    ensures InOrder(Interpolation(s, l, r, depth, start).out, start)
    decreases |s| - start, 0
  {
    hide Expression, Longest, InOrder, ScanIdent, StartsInterpolation;
    var pos := start + |r.interpOpen.value|;
    if r.interpClose.Some? {
      ExpressionInOrder(s, l, start, r.interpClose.value, r.interpCloseKind, depth, pos);
      MarkedInOrder(r.interpOpenKind, start, pos,
                    Expression(s, l, start, r.interpClose.value, r.interpCloseKind, depth, pos));
    } else if r.interpOpen.value == DOLLAR && Matches(s, pos, BRACE_OPEN) {
      ExpressionInOrder(s, l, start, BRACE_CLOSE, r.interpCloseKind, depth, pos + 1);
      MarkedInOrder(r.interpOpenKind, start, pos + 1,
                    Expression(s, l, start, BRACE_CLOSE, r.interpCloseKind, depth, pos + 1));
    } else {
      InvalidInOrder(start, pos, ExpectedIdentifier, start);
      BareInOrder(s, l, r, start, pos);
    }
  }

  lemma BareInOrder(s: Bytes, l: Lang, r: StringStyle, start: nat, pos: nat)
    requires start <= pos <= |s|
    ensures var name := ScanIdent(s, l, pos);
            name.Some? ==>
              var bare := Token(r.bareIdentKind, start, name.value.pos, 0);
              InOrder(name.value, start) && InOrder(Out(name.value.pos, [bare], []), start)
  {
  }

  lemma MarkedInOrder(kind: nat, from: nat, to: nat, i: Interp)
    requires from <= to && InOrder(i.out, to)
    ensures InOrder(Marked(kind, from, to, i).out, from)
  {
    assert Ordered(Marker(kind, from, to), from, to);
    JoinInOrder(Marker(kind, from, to), [], i.out, from, to);
  }

  lemma {:induction false} ExpressionInOrder(s: Bytes, l: Lang, start: nat, close: Bytes, closeKind: nat, depth: nat,
                                             pos: nat)
    requires start < pos <= |s|
    ensures InOrder(Expression(s, l, start, close, closeKind, depth, pos).out, pos)
    decreases |s| - pos, 5
  {
    hide ExpressionFrom;
    if depth < MAX_INTERP_DEPTH { LoopInOrder(s, l, start, close, closeKind, depth + 1, 0, pos); }
  }

  lemma {:induction false} LoopInOrder(s: Bytes, l: Lang, start: nat, close: Bytes, closeKind: nat, depth: nat,
                                       pairs: nat, pos: nat)
    requires start < pos <= |s|
    ensures InOrder(ExpressionFrom(s, l, start, close, closeKind, depth, pairs, pos).out, pos)
    decreases |s| - pos, 4
  {
    hide ExpressionFrom, InterpSpace, TokenOrInvalid, EndsHere, InOrder;
    var space := InterpSpace(s, l, pos);
    SpaceInOrder(s, l, pos);
    if EndsHere(s, close, pairs, space.pos) {
      LoopEnds(s, l, start, close, closeKind, depth, pairs, pos);
      ExitInOrder(space.toks, start, pos, space.pos, space.pos + |close|, closeKind);
    } else {
      var left := LoopTurns(s, l, start, close, closeKind, depth, pairs, pos);
      TokenInOrder(s, l, depth, space.pos);
      var out := TokenOrInvalid(s, l, depth, space.pos);
      LoopInOrder(s, l, start, close, closeKind, depth, left, out.pos);
      JoinInOrder(space.toks, [], out, pos, space.pos);
      WholeInOrder(space.toks, out, pos);
      JoinInOrder(space.toks + out.toks, out.diags,
                  ExpressionFrom(s, l, start, close, closeKind, depth, left, out.pos).out, pos, out.pos);
    }
  }

  lemma ExitInOrder(toks: seq<Token>, start: nat, pos: nat, at: nat, end: nat, closeKind: nat)
    requires Ordered(toks, pos, at) && at <= end
    ensures InOrder(Before(toks, [], Invalid(start, at, UnterminatedInterpolation)), pos)
    ensures InOrder(Out(end, toks + Marker(closeKind, at, end), []), pos)
  {
    assert IsInterpError(([] + [Diag(UnterminatedInterpolation, start, at)])[0].message);
    assert Ordered(Marker(closeKind, at, end), at, end);
    OrderedJoin(toks, Marker(closeKind, at, end), pos, at, end);
  }

  // ----- whole runs

  /** The tokens so far are in order, up to the cursor. */
  predicate SoFar(st: State) {
    NoInterpError(st.diags) ==> Ordered(st.toks, 0, st.pos)
  }

  /** A step that adds tokens in order behind the cursor. */
  lemma StepSoFar(st: State, next: State, more: seq<Token>, diags: seq<Diag>)
    requires SoFar(st) && next.toks == st.toks + more && next.diags == st.diags + diags
    requires NoInterpError(diags) ==> Ordered(more, st.pos, next.pos)
    ensures SoFar(next)
  {
    if NoInterpError(next.diags) { OrderedJoin(st.toks, more, 0, st.pos, next.pos); }
  }

  lemma {:induction false} CloseInOrder(stack: seq<nat>, col: nat, pos: nat)
    requires stack != []
    ensures Ordered(CloseDeeper(stack, col, pos).1, pos, pos)
    decreases |stack|
  {
    if |stack| > 1 && col < Top(stack) { CloseInOrder(Pop(stack), col, pos); }
  }

  lemma AlignInOrder(stack: seq<nat>, col: nat, pos: nat, onEqual: bool)
    requires stack != []
    ensures Ordered(Align(stack, col, pos, onEqual).1, pos, pos)
  {
    CloseInOrder(stack, col, pos);
    OrderedOne(Dedent(pos), pos, pos);
    OrderedJoin(CloseDeeper(stack, col, pos).1, [Dedent(pos)], pos, pos, pos);
  }

  lemma {:induction false} DrainInOrder(n: nat, pos: nat)
    ensures Ordered(Drain(n, pos), pos, pos)
  {
    if n > 0 { DrainInOrder(n - 1, pos); }
  }

  lemma ApproachSoFar(s: Bytes, l: Lang, st: State)
    requires st.pos <= |s| && st.stack != [] && SoFar(st)
    ensures SoFar(Approach(s, l, st))
  {
    hide SoFar, Indentation, Align, BlankLine, SkipInline, SkipSpace;
    var a := Approach(s, l, st);
    assert st.toks + [] == st.toks;
    if NewlineAware(l) && l.policy.offside.Some? && st.lineStart {
      var o := l.policy.offside.value;
      var indent := Indentation(s, o.unit, st.pos, 0, false);
      var bad := if indent.2 then [Diag(DisallowedIndentUnit, st.pos, indent.0)] else [];
      var aligned := Align(st.stack, indent.1, indent.0, o.dedentOnEqual);
      AlignInOrder(st.stack, indent.1, indent.0, o.dedentOnEqual);
      OrderedLater(aligned.1, st.pos, indent.0, a.pos);
      if BlankLine(s, l, indent.0) {
        StepSoFar(st, a, [], bad);
      } else {
        assert st.diags + (bad + aligned.2) == st.diags + bad + aligned.2;
        StepSoFar(st, a, aligned.1, bad + aligned.2);
      }
    } else {
      assert st.diags + [] == st.diags;
      StepSoFar(st, a, [], []);
    }
  }

  lemma SemicolonInOrder(l: Lang, st: State)
    ensures Ordered(AutoSemicolon(l, st), st.pos, st.pos)
  {
  }

  lemma FinishLineSoFar(s: Bytes, l: Lang, st: State)
    requires st.pos <= |s| && NewlineAt(s, l, st.pos) != 0 && SoFar(st)
    ensures SoFar(FinishLine(s, l, st))
  {
    hide SoFar, AutoSemicolon, NewlineAt;
    var n := NewlineAt(s, l, st.pos);
    var newline := if l.policy.emitNewlines || (l.policy.offside.Some? && st.significant)
                   then [Token(NEWLINE, st.pos, st.pos + n, 0)] else [];
    SemicolonInOrder(l, st);
    OrderedJoin(AutoSemicolon(l, st), newline, st.pos, st.pos, st.pos + n);
    assert st.diags + [] == st.diags;
    StepSoFar(st, FinishLine(s, l, st), AutoSemicolon(l, st) + newline, []);
  }

  lemma TakeTokenSoFar(s: Bytes, l: Lang, st: State)
    requires st.pos < |s| && SoFar(st)
    ensures SoFar(TakeToken(s, l, st))
  {
    hide SoFar, TokenOrInvalid, LastSignificant;
    var out := TokenOrInvalid(s, l, 0, st.pos);
    TokenInOrder(s, l, 0, st.pos);
    StepSoFar(st, TakeToken(s, l, st), out.toks, out.diags);
  }

  lemma {:induction false} TurnsSoFar(s: Bytes, l: Lang, st: State)
    requires st.pos <= |s| && st.stack != [] && SoFar(st)
    ensures SoFar(Turns(s, l, st))
    decreases |s| - st.pos
  {
    hide SoFar, Approach, FinishLine, TakeToken;
    if |st.toks| < TOKEN_LIMIT {
      var a := Approach(s, l, st);
      ApproachSoFar(s, l, st);
      if a.pos < |s| {
        SameStack(s, l, a);
        if NewlineAware(l) && NewlineAt(s, l, a.pos) != 0 {
          FinishLineSoFar(s, l, a);
          TurnsSoFar(s, l, FinishLine(s, l, a));
        } else {
          TakeTokenSoFar(s, l, a);
          TurnsSoFar(s, l, TakeToken(s, l, a));
        }
      }
    } else {
      TruncatedSoFar(st);
    }
  }

  lemma TruncatedSoFar(st: State)
    requires SoFar(st)
    ensures SoFar(st.(diags := st.diags + [Diag(TokenLimit, st.pos, st.pos)]))
  {
  }

  lemma EndInOrder(l: Lang, st: State)
    requires st.stack != []
    ensures Ordered(EndTokens(l, st), st.pos, st.pos)
  {
    hide Ordered, AutoSemicolon;
    SemicolonInOrder(l, st);
    DrainInOrder(|st.stack| - 1, st.pos);
    OrderedNone(st.pos);
    OrderedOne(Token(NEWLINE, st.pos, st.pos, 0), st.pos, st.pos);
    var newline := if l.policy.offside.Some? && st.significant then [Token(NEWLINE, st.pos, st.pos, 0)] else [];
    OrderedJoin(AutoSemicolon(l, st), newline, st.pos, st.pos, st.pos);
    OrderedJoin(EndLine(l, st), EndDedents(l, st), st.pos, st.pos, st.pos);
  }

  /** In a run without an interpolation error the spans of the tokens are ordered and disjoint. */
  lemma LexInOrder(s: Bytes, l: Lang)
    requires NoInterpError(Lex(s, l).1)
    ensures Ordered(Lex(s, l).0, 0, |s|)
  {
    hide Turns, EndTokens, Ordered, NoInterpError;
    var st := Turns(s, l, INITIAL);
    InitialSoFar();
    TurnsSoFar(s, l, INITIAL);
    EndInOrder(l, st);
    OrderedOne(Token(EOF, st.pos, st.pos, 0), st.pos, |s|);
    OrderedJoin(st.toks, EndTokens(l, st), 0, st.pos, st.pos);
    OrderedJoin(st.toks + EndTokens(l, st), [Token(EOF, st.pos, st.pos, 0)], 0, st.pos, |s|);
  }

  lemma InitialSoFar()
    ensures SoFar(INITIAL)
  {
  }

  /** The last token is the EOF anchor, at the end of the text unless the token limit cut it off. */
  lemma {:induction false} TurnsReachEnd(s: Bytes, l: Lang, st: State)
    requires st.pos <= |s| && st.stack != []
    ensures var r := Turns(s, l, st);
            r.pos == |s| || (|r.toks| >= 4294967163 && r.diags != [] && r.diags[|r.diags| - 1].message == TokenLimit)
    decreases |s| - st.pos
  {
    hide Approach, FinishLine, TakeToken;
    if |st.toks| < TOKEN_LIMIT {
      var a := Approach(s, l, st);
      if a.pos < |s| {
        SameStack(s, l, a);
        TurnsReachEnd(s, l, if NewlineAware(l) && NewlineAt(s, l, a.pos) != 0 then FinishLine(s, l, a)
                            else TakeToken(s, l, a));
      }
    }
  }

  /** What `Ordered` says of any two tokens. */
  lemma {:induction false} SpansApart(toks: seq<Token>, from: nat, to: nat, i: nat, j: nat)
    requires Ordered(toks, from, to) && i < j < |toks|
    ensures from <= toks[i].start <= toks[i].end <= toks[j].start <= toks[j].end <= to
    decreases |toks|
  {
    if i > 0 {
      SpansApart(toks[1..], toks[0].end, to, i - 1, j - 1);
    } else if j > 1 {
      SpansApart(toks[1..], toks[0].end, to, 0, j - 1);
    } else {
      OrderedBounds(toks[2..], toks[1].end, to);
      assert toks[1..][0] == toks[1] && toks[1..][1..] == toks[2..];
    }
  }

  /** Token by token: no two spans of a run without an interpolation error overlap, and all lie in the text. */
  lemma LexSpansApart(s: Bytes, l: Lang, i: nat, j: nat)
    requires NoInterpError(Lex(s, l).1) && i < j < |Lex(s, l).0|
    ensures var toks := Lex(s, l).0;
            toks[i].start <= toks[i].end <= toks[j].start <= toks[j].end <= |s|
  {
    hide Lex, NoInterpError, Ordered;
    LexInOrder(s, l);
    SpansApart(Lex(s, l).0, 0, |s|, i, j);
  }
}
