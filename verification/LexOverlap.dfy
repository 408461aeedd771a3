/**
 Where the tokens of a run overlap: an interpolation that is given up covers its own
 opening mark again.
*/
module LexOverlap {
  import opened Options
  import opened Machine
  import opened LexConfig
  import opened Scanners
  import opened TokenScan
  import opened Layout
  import opened TokenCases
  import opened LexTiling

  /** A later token starts before an earlier one ends. */
  predicate Overlapping(toks: seq<Token>) {
    exists i, j :: 0 <= i < j < |toks| && toks[j].start < toks[i].end
  }

  /** Every template rule marks where an expression begins. */
  predicate MarksOpenings(l: Lang) {
    forall open <- l.strings :: IsTemplate(l.strings[open].style) ==> l.strings[open].style.interpOpenKind != 0
  }

  lemma OverlapWithin(a: seq<Token>, b: seq<Token>, c: seq<Token>)
    requires Overlapping(b)
    ensures Overlapping(a + b + c)
  {
    var i, j :| 0 <= i < j < |b| && b[j].start < b[i].end;
    var all := a + b + c;
    assert all[|a| + i] == b[i] && all[|a| + j] == b[j];
  }

  lemma OrderedIsApart(toks: seq<Token>, from: nat, to: nat)
    requires Ordered(toks, from, to)
    ensures !Overlapping(toks)
  {
    forall i, j | 0 <= i < j < |toks| ensures toks[j].start >= toks[i].end {
      SpansApart(toks, from, to, i, j);
    }
  }

  /** Giving up an expression shows in the tokens. */
  predicate Shows(out: Out) {
    NoInterpError(out.diags) || Overlapping(out.toks)
  }

  /** In an expression it shows in its tokens or in their last, which starts where the interpolation does. */
  predicate ShowsFrom(out: Out, start: nat) {
    Shows(out) || (out.toks != [] && out.toks[|out.toks| - 1].start == start)
  }

  lemma NoErrorJoin(a: seq<Diag>, b: seq<Diag>)
    ensures NoInterpError(a) && NoInterpError(b) ==> NoInterpError(a + b)
  {
  }

  lemma ShowsJoin(head: seq<Token>, diags: seq<Diag>, rest: Out)
    requires NoInterpError(diags) || Overlapping(head)
    requires Shows(rest)
    ensures Shows(Before(head, diags, rest))
  {
    hide NoInterpError, Overlapping;
    NoErrorJoin(diags, rest.diags);
    if Overlapping(head) {
      OverlapWithin([], head, rest.toks);
      assert [] + head + rest.toks == head + rest.toks;
    } else if Overlapping(rest.toks) {
      OverlapWithin(head, rest.toks, []);
      assert head + rest.toks + [] == head + rest.toks;
    }
  }

  lemma ShowsFromJoin(head: seq<Token>, diags: seq<Diag>, rest: Out, start: nat)
    requires NoInterpError(diags) || Overlapping(head)
    requires ShowsFrom(rest, start)
    ensures ShowsFrom(Before(head, diags, rest), start)
  {
    hide NoInterpError, Overlapping, Shows;
    if Shows(rest) {
      ShowsJoin(head, diags, rest);
    }
  }

  /** Behind a mark that ends later it shows in any case. */
  lemma MarkShows(kind: nat, from: nat, to: nat, i: Interp)
    requires kind != 0 && from < to && ShowsFrom(i.out, from)
    ensures Shows(Marked(kind, from, to, i).out)
  {
    hide NoInterpError;
    if Shows(i.out) {
      NoErrors();
      ShowsJoin(Marker(kind, from, to), [], i.out);
    } else {
      var toks := Marker(kind, from, to) + i.out.toks;
      assert toks[0].end == to && toks[|toks| - 1].start == from;
    }
  }

  lemma NoErrors()
    ensures NoInterpError([])
  {
  }

  lemma {:induction false} TokenShows(s: Bytes, l: Lang, depth: nat, pos: nat)
    requires pos < |s| && MarksOpenings(l)
    ensures Shows(TokenOrInvalid(s, l, depth, pos))
    decreases |s| - pos, 3
  {
    hide ScanString, ScanToken, MarksOpenings, Overlapping;
    StringShows(s, l, depth, pos);
    TokenIsSimpleOrString(s, l, depth, pos);
  }

  lemma {:induction false} StringShows(s: Bytes, l: Lang, depth: nat, pos: nat)
    requires pos < |s| && MarksOpenings(l)
    ensures ScanString(s, l, depth, pos).Some? ==> Shows(ScanString(s, l, depth, pos).value)
    decreases |s| - pos, 2
  {
    hide ScanString, StringBody, Shows, MarksOpenings;
    if ScanString(s, l, depth, pos).Some? {
      var open := StringIsBody(s, l, depth, pos);
      BodyShows(s, l, open, depth, pos, pos, false, pos + |open|);
    }
  }

  lemma EntersMarked(s: Bytes, l: Lang, open: Bytes, pos: nat)
    requires MarksOpenings(l) && open in l.strings && pos <= |s|
    ensures CaseAt(s, l, l.strings[open], pos).Enter? ==> l.strings[open].style.interpOpenKind != 0
  {
    hide Matches, StartsInterpolation;
    if CaseAt(s, l, l.strings[open], pos).Enter? {
      assert IsTemplate(l.strings[open].style);
    }
  }

  /** The diagnostics of a step are about its bytes. */
  lemma StepIsHarmless(s: Bytes, l: Lang, e: StringEntry, pos: nat)
    requires pos <= |s| && CaseAt(s, l, e, pos).Step?
    ensures NoInterpError(CaseAt(s, l, e, pos).diags)
  {
    hide InterpolationAt, Matches, PeekCp;
  }

  lemma {:induction false} BodyShows(s: Bytes, l: Lang, open: Bytes, depth: nat, start: nat, from: nat, had: bool,
                                     pos: nat)
    requires pos <= |s| && MarksOpenings(l) && open in l.strings
    ensures Shows(StringBody(s, l, open, l.strings[open], depth, start, from, had, pos))
    decreases |s| - pos, 1
  {
    hide StringBody, Interpolation, InterpolationAt, CaseAt, Fragment, Overlapping, MarksOpenings;
    var e := l.strings[open];
    var c := CaseAt(s, l, e, pos);
    NoErrors();
    if c.Stop? {
      BodyStops(s, l, open, e, depth, start, from, had, pos);
    } else if c.Close? {
      BodyCloses(s, l, open, e, depth, start, from, had, pos);
    } else if c.Enter? {
      EntersMarked(s, l, open, pos);
      BodyEnters(s, l, open, e, depth, start, from, had, pos);
      InterpolationShows(s, l, e.style, depth, pos);
      var i := Interpolation(s, l, e.style, depth, pos);
      var head := Fragment(e.style, start, from, pos);
      var rest := StringBody(s, l, open, e, depth, start, i.out.pos, true, i.out.pos);
      BodyShows(s, l, open, depth, start, i.out.pos, true, i.out.pos);
      ShowsJoin(head, [], i.out);
      assert [] + i.out.diags == i.out.diags;
      ShowsJoin(head + i.out.toks, i.out.diags, rest);
    } else {
      BodySteps(s, l, open, e, depth, start, from, had, pos);
      BodyShows(s, l, open, depth, start, from, had, c.next);
      StepIsHarmless(s, l, e, pos);
      ShowsJoin([], c.diags, StringBody(s, l, open, e, depth, start, from, had, c.next));
    }
  }

  lemma {:induction false} InterpolationShows(s: Bytes, l: Lang, r: StringStyle, depth: nat, start: nat)
    requires InterpolationAt(s, l, r, start) && MarksOpenings(l) && r.interpOpenKind != 0
    ensures Shows(Interpolation(s, l, r, depth, start).out)
    decreases |s| - start, 0
  {
    hide Expression, Longest, Shows, ShowsFrom, ScanIdent, StartsInterpolation, MarksOpenings;
    var pos := start + |r.interpOpen.value|;
    if r.interpClose.Some? {
      ExpressionShows(s, l, start, r.interpClose.value, r.interpCloseKind, depth, pos);
      MarkShows(r.interpOpenKind, start, pos,
                Expression(s, l, start, r.interpClose.value, r.interpCloseKind, depth, pos));
    } else if r.interpOpen.value == DOLLAR && Matches(s, pos, BRACE_OPEN) {
      ExpressionShows(s, l, start, BRACE_CLOSE, r.interpCloseKind, depth, pos + 1);
      MarkShows(r.interpOpenKind, start, pos + 1,
                Expression(s, l, start, BRACE_CLOSE, r.interpCloseKind, depth, pos + 1));
    } else {
      BareShows(s, l, r, start, pos);
    }
  }

  lemma BareShows(s: Bytes, l: Lang, r: StringStyle, start: nat, pos: nat)
    requires start <= pos <= |s|
    ensures Shows(Invalid(start, pos, ExpectedIdentifier))
    ensures var name := ScanIdent(s, l, pos);
            name.Some? ==>
              Shows(name.value) && Shows(Out(name.value.pos, [Token(r.bareIdentKind, start, name.value.pos, 0)], []))
  {
    hide Overlapping;
  }

  lemma {:induction false} ExpressionShows(s: Bytes, l: Lang, start: nat, close: Bytes, closeKind: nat, depth: nat,
                                           pos: nat)
    requires start < pos <= |s| && MarksOpenings(l)
    ensures ShowsFrom(Expression(s, l, start, close, closeKind, depth, pos).out, start)
    decreases |s| - pos, 5
  {
    hide ExpressionFrom, MarksOpenings, Shows;
    if depth < MAX_INTERP_DEPTH { LoopShows(s, l, start, close, closeKind, depth + 1, 0, pos); }
  }

  lemma {:induction false} LoopShows(s: Bytes, l: Lang, start: nat, close: Bytes, closeKind: nat, depth: nat,
                                     pairs: nat, pos: nat)
    requires start < pos <= |s| && MarksOpenings(l)
    ensures ShowsFrom(ExpressionFrom(s, l, start, close, closeKind, depth, pairs, pos).out, start)
    decreases |s| - pos, 4
  {
    hide ExpressionFrom, InterpSpace, TokenOrInvalid, EndsHere, NoInterpError, Overlapping, MarksOpenings;
    var space := InterpSpace(s, l, pos);
    if EndsHere(s, close, pairs, space.pos) {
      LoopEnds(s, l, start, close, closeKind, depth, pairs, pos);
      NoErrors();
    } else {
      var left := LoopTurns(s, l, start, close, closeKind, depth, pairs, pos);
      TokenShows(s, l, depth, space.pos);
      var out := TokenOrInvalid(s, l, depth, space.pos);
      LoopShows(s, l, start, close, closeKind, depth, left, out.pos);
      NoErrors();
      ShowsJoin(space.toks, [], out);
      assert [] + out.diags == out.diags;
      ShowsFromJoin(space.toks + out.toks, out.diags,
                    ExpressionFrom(s, l, start, close, closeKind, depth, left, out.pos).out, start);
    }
  }

  // ----- whole runs

  predicate ShownSoFar(st: State) {
    NoInterpError(st.diags) || Overlapping(st.toks)
  }

  lemma MoreShown(st: State, next: State, more: seq<Token>, diags: seq<Diag>)
    requires ShownSoFar(st) && next.toks == st.toks + more && next.diags == st.diags + diags
    requires NoInterpError(diags) || Overlapping(more)
    ensures ShownSoFar(next)
  {
    ShowsJoin(st.toks, st.diags, Out(0, more, diags));
  }

  lemma AlignIsHarmless(stack: seq<nat>, col: nat, pos: nat, onEqual: bool)
    requires stack != []
    ensures NoInterpError(Align(stack, col, pos, onEqual).2)
  {
    hide CloseDeeper;
  }

  lemma ApproachShown(s: Bytes, l: Lang, st: State)
    requires st.pos <= |s| && st.stack != [] && ShownSoFar(st)
    ensures ShownSoFar(Approach(s, l, st))
  {
    hide ShownSoFar, Indentation, Align, BlankLine, SkipInline, SkipSpace, Overlapping;
    var a := Approach(s, l, st);
    assert st.toks + [] == st.toks && st.diags + [] == st.diags;
    if NewlineAware(l) && l.policy.offside.Some? && st.lineStart {
      var o := l.policy.offside.value;
      var indent := Indentation(s, o.unit, st.pos, 0, false);
      var bad := if indent.2 then [Diag(DisallowedIndentUnit, st.pos, indent.0)] else [];
      var aligned := Align(st.stack, indent.1, indent.0, o.dedentOnEqual);
      AlignIsHarmless(st.stack, indent.1, indent.0, o.dedentOnEqual);
      if BlankLine(s, l, indent.0) {
        MoreShown(st, a, [], bad);
      } else {
        NoErrorJoin(bad, aligned.2);
        assert st.diags + (bad + aligned.2) == st.diags + bad + aligned.2;
        MoreShown(st, a, aligned.1, bad + aligned.2);
      }
    } else {
      MoreShown(st, a, [], []);
    }
  }

  lemma FinishLineShown(s: Bytes, l: Lang, st: State)
    requires st.pos < |s| && NewlineAt(s, l, st.pos) != 0 && ShownSoFar(st)
    ensures ShownSoFar(FinishLine(s, l, st))
  {
    hide ShownSoFar, AutoSemicolon, NewlineAt, Overlapping;
    var n := NewlineAt(s, l, st.pos);
    var newline := if l.policy.emitNewlines || (l.policy.offside.Some? && st.significant)
                   then [Token(NEWLINE, st.pos, st.pos + n, 0)] else [];
    assert st.diags + [] == st.diags;
    MoreShown(st, FinishLine(s, l, st), AutoSemicolon(l, st) + newline, []);
  }

  lemma TakeTokenShown(s: Bytes, l: Lang, st: State)
    requires st.pos < |s| && ShownSoFar(st) && MarksOpenings(l)
    ensures ShownSoFar(TakeToken(s, l, st))
  {
    hide ShownSoFar, TokenOrInvalid, LastSignificant, Overlapping, MarksOpenings;
    var out := TokenOrInvalid(s, l, 0, st.pos);
    TokenShows(s, l, 0, st.pos);
    MoreShown(st, TakeToken(s, l, st), out.toks, out.diags);
  }

  lemma {:induction false} TurnsShown(s: Bytes, l: Lang, st: State)
    requires st.pos <= |s| && st.stack != [] && ShownSoFar(st) && MarksOpenings(l)
    ensures ShownSoFar(Turns(s, l, st))
    decreases |s| - st.pos
  {
    hide ShownSoFar, Approach, FinishLine, TakeToken, MarksOpenings;
    if |st.toks| < TOKEN_LIMIT {
      var a := Approach(s, l, st);
      ApproachShown(s, l, st);
      if a.pos < |s| {
        SameStack(s, l, a);
        if NewlineAware(l) && NewlineAt(s, l, a.pos) != 0 {
          FinishLineShown(s, l, a);
          TurnsShown(s, l, FinishLine(s, l, a));
        } else {
          TakeTokenShown(s, l, a);
          TurnsShown(s, l, TakeToken(s, l, a));
        }
      }
    } else {
      CutShown(st);
    }
  }

  lemma CutShown(st: State)
    requires ShownSoFar(st)
    ensures ShownSoFar(st.(diags := st.diags + [Diag(TokenLimit, st.pos, st.pos)]))
  {
    hide Overlapping;
    NoErrorJoin(st.diags, [Diag(TokenLimit, st.pos, st.pos)]);
  }

  /**
   Where openings are marked, the spans of a run are in order exactly if no expression
   was given up for its depth or for lack of its end.
  */
  lemma LexInOrderExactly(s: Bytes, l: Lang)
    requires MarksOpenings(l)
    ensures Ordered(Lex(s, l).0, 0, |s|) <==> NoInterpError(Lex(s, l).1)
  {
    hide Turns, EndTokens, Ordered, NoInterpError, MarksOpenings, Overlapping;
    if NoInterpError(Lex(s, l).1) {
      LexInOrder(s, l);
    } else {
      var st := Turns(s, l, INITIAL);
      NoErrors();
      TurnsShown(s, l, INITIAL);
      var more := EndTokens(l, st) + [Token(EOF, st.pos, st.pos, 0)];
      OverlapWithin([], st.toks, more);
      assert [] + st.toks + more == st.toks + EndTokens(l, st) + [Token(EOF, st.pos, st.pos, 0)];
      if Ordered(Lex(s, l).0, 0, |s|) { OrderedIsApart(Lex(s, l).0, 0, |s|); }
    }
  }

  // ----- a literal cut off in an interpolation

  /** A quote, a dollar sign and an opening brace. */
  const UNCLOSED: Bytes := [0x22, 0x24, 0x7B]

  /** Quoted templates with `${...}` and marked openings are the only literals, and there are no comments. */
  predicate DollarTemplates(l: Lang) {
    && !NewlineAware(l) && l.comments == map[]
    && l.strings.Keys == {[0x22]}
    && var r := l.strings[[0x22]].style;
       && r.close == [0x22] && r.template && r.interpOpen == Some(DOLLAR) && r.interpClose == None
       && r.interpOpenKind != 0 && r.fragmentKind != 0
  }

  lemma UnclosedExpression(l: Lang, start: nat, closeKind: nat)
    requires start < 3
    ensures Expression(UNCLOSED, l, start, BRACE_CLOSE, closeKind, 0, 3)
            == Interp(Invalid(start, 3, UnterminatedInterpolation), false)
  {
    assert InterpSpace(UNCLOSED, l, 3) == Out(3, [], []);
    LoopEnds(UNCLOSED, l, start, BRACE_CLOSE, closeKind, 1, 0, 3);
  }

  lemma UnclosedInterpolation(l: Lang)
    requires DollarTemplates(l)
    ensures var r := l.strings[[0x22]].style;
            && InterpolationAt(UNCLOSED, l, r, 1)
            && Interpolation(UNCLOSED, l, r, 0, 1)
               == Interp(Out(3, [Token(r.interpOpenKind, 1, 3, 0), Token(INVALID, 1, 3, 0)],
                             [Diag(UnterminatedInterpolation, 1, 3)]), false)
  {
    hide Expression, PeekCp;
    var r := l.strings[[0x22]].style;
    UnclosedExpression(l, 1, r.interpCloseKind);
    assert Matches(UNCLOSED, 1, DOLLAR) && Matches(UNCLOSED, 2, BRACE_OPEN);
    assert StartsInterpolation(UNCLOSED, l, r, 1);
  }

  lemma UnclosedBody(l: Lang)
    requires DollarTemplates(l)
    ensures var e := l.strings[[0x22]];
            StringBody(UNCLOSED, l, [0x22], e, 0, 0, 0, false, 1)
            == Out(3, [Token(e.style.fragmentKind, 0, 1, 1), Token(e.style.interpOpenKind, 1, 3, 0),
                       Token(INVALID, 1, 3, 0)],
                   [Diag(UnterminatedInterpolation, 1, 3)])
  {
    var e := l.strings[[0x22]];
    UnclosedInterpolation(l);
    hide StringBody, Interpolation, InterpolationAt;
    assert !Matches(UNCLOSED, 1, [0x22]);
    assert CaseAt(UNCLOSED, l, e, 1).Enter?;
    BodyEnters(UNCLOSED, l, [0x22], e, 0, 0, 0, false, 1);
  }

  lemma UnclosedToken(l: Lang)
    requires DollarTemplates(l)
    ensures TokenOrInvalid(UNCLOSED, l, 0, 0) == StringBody(UNCLOSED, l, [0x22], l.strings[[0x22]], 0, 0, 0, false, 1)
  {
    hide StringBody, LongestUpTo;
    assert Longest(l.comments.Keys, UNCLOSED, 0) == None;
    assert Matches(UNCLOSED, 0, [0x22]) && [0x22] in l.strings.Keys;
    assert Longest(l.strings.Keys, UNCLOSED, 0) == Some([0x22]);
  }

  /** Then the INVALID token covers the opening mark again, and the spans are out of order. */
  lemma UnclosedOverlaps(l: Lang)
    requires DollarTemplates(l)
    ensures var r, (toks, diags) := l.strings[[0x22]].style, Lex(UNCLOSED, l);
            && toks == [Token(r.fragmentKind, 0, 1, 1), Token(r.interpOpenKind, 1, 3, 0), Token(INVALID, 1, 3, 0),
                        Token(EOF, 3, 3, 0)]
            && diags == [Diag(UnterminatedInterpolation, 1, 3)]
            && !Ordered(toks, 0, 3)
  {
    UnclosedToken(l);
    UnclosedBody(l);
    hide StringBody, TokenOrInvalid, NewlineAt, LastSignificant;
    assert SkipSpace(UNCLOSED, l, 0) == 0 by { NoNewlineByte(l, 0); }
    var st := TakeToken(UNCLOSED, l, INITIAL);
    assert st.pos == 3 && |st.toks| == 3;
    assert Turns(UNCLOSED, l, INITIAL) == Turns(UNCLOSED, l, st) == st;
    var toks := Lex(UNCLOSED, l).0;
    assert toks[1].end == 3 && toks[2].start == 1;
    assert Overlapping(toks);
    if Ordered(toks, 0, 3) { OrderedIsApart(toks, 0, 3); }
  }

  lemma NoNewlineByte(l: Lang, pos: nat)
    requires pos < 3
    ensures NewlineAt(UNCLOSED, l, pos) == 0
  {
  }
}
