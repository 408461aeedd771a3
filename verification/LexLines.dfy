/**
 The run read line by line: what each line of the text contributes, its layout in front
 and its virtual semicolon and NEWLINE behind, without the state the lexer carries along.
*/
module LexLines {
  import opened Options
  import opened Machine
  import opened LexConfig
  import opened Scanners
  import opened TokenScan
  import opened Layout
  import opened LexTiling

  // ----- the lines of a text

  /** A line: where it starts, what is scanned on it, where it ends and the length of its newline, 0 at the end. */
  datatype Line = Line(start: nat, scanned: seq<Token>, end: nat, newline: nat)

  /** Newlines mean something to the language. */
  predicate MindsNewlines(l: Lang) {
    l.policy.emitNewlines || l.policy.autoSemi.Some? || l.policy.offside.Some?
  }

  /** Blanks between tokens; newlines are among them where they mean nothing. */
  function SkipBlanks(s: Bytes, l: Lang, pos: nat): (end: nat)
    requires pos <= |s|
    ensures pos <= end <= |s|
  {
    if MindsNewlines(l) then SkipInline(s, pos) else SkipSpace(s, l, pos)
  }

  /** The lines from `pos` on, in a line that starts at `start` with `scanned` behind it. */
  function LinesFrom(s: Bytes, l: Lang, start: nat, pos: nat, scanned: seq<Token>): seq<Line>
    requires pos <= |s|
    decreases |s| - pos
  {
    var at := SkipBlanks(s, l, pos);
    if at == |s| then [Line(start, scanned, at, 0)]
    else if MindsNewlines(l) && NewlineAt(s, l, at) != 0 then
      var next := at + NewlineAt(s, l, at);
      [Line(start, scanned, at, NewlineAt(s, l, at))] + LinesFrom(s, l, next, next, [])
    else
      var out := TokenOrInvalid(s, l, 0, at);
      LinesFrom(s, l, start, out.pos, scanned + out.toks)
  }

  // ----- what a line contributes

  /** INVALID, EOF, NEWLINE, INDENT, DEDENT and COMMENT tokens do not count. */
  predicate IsTrivia(kind: nat) {
    kind == 0 || kind == 1 || kind == 10 || kind == 11 || kind == 12 || kind == 13
  }

  /** The last token that counts. */
  function LastOf(toks: seq<Token>): Option<Token> {
    if toks == [] then None
    else if !IsTrivia(toks[|toks| - 1].kind) then Some(toks[|toks| - 1])
    else LastOf(toks[..|toks| - 1])
  }

  /** A semicolon stands at the end of a line just if the last token that counts there terminates it. */
  function SemicolonOf(l: Lang, line: Line): seq<Token> {
    var last := LastOf(line.scanned);
    if l.policy.autoSemi.Some? && last.Some? && l.policy.autoSemi.value.isTerminating(last.value)
    then [Token(l.policy.autoSemi.value.emitKind, line.end, line.end, l.policy.autoSemi.value.emitV)]
    else []
  }

  /**
   A newline is a NEWLINE token if the language keeps all of them, or lays out by
   indentation and a token on the line counts; only the latter holds at the end of the text.
  */
  function NewlineOf(l: Lang, line: Line): seq<Token> {
    if (line.newline > 0 && l.policy.emitNewlines) || (l.policy.offside.Some? && LastOf(line.scanned).Some?)
    then [Token(NEWLINE, line.end, line.end + line.newline, 0)]
    else []
  }

  /** From here on the line holds nothing, or a line comment. */
  predicate IsBlankFrom(s: Bytes, l: Lang, pos: nat) {
    pos >= |s| || NewlineAt(s, l, pos) > 0 || exists open <- l.lineOpens :: Matches(s, pos, open)
  }

  /** The levels and layout tokens of a line that starts at `start`. */
  function Laid(s: Bytes, l: Lang, stack: seq<nat>, start: nat): (r: (seq<nat>, seq<Token>))
    requires start <= |s| && stack != []
    ensures r.0 != []
  {
    if l.policy.offside.None? then (stack, [])
    else
      var o := l.policy.offside.value;
      var indent := Indentation(s, o.unit, start, 0, false);
      if IsBlankFrom(s, l, indent.0) then (stack, [])
      else
        var a := Align(stack, indent.1, indent.0, o.dedentOnEqual);
        (a.0, a.1)
  }

  function Contributed(l: Lang, line: Line): seq<Token> {
    line.scanned + SemicolonOf(l, line) + NewlineOf(l, line)
  }

  predicate AllWithin(s: Bytes, lines: seq<Line>) {
    forall line <- lines :: line.start <= |s|
  }

  /** The tokens of all lines, and a DEDENT for every level open behind the last. */
  function Rendered(s: Bytes, l: Lang, stack: seq<nat>, lines: seq<Line>): seq<Token>
    requires stack != [] && AllWithin(s, lines)
    decreases |lines|
  {
    if lines == [] then if l.policy.offside.Some? then Drain(|stack| - 1, |s|) else []
    else
      var laid := Laid(s, l, stack, lines[0].start);
      laid.1 + Contributed(l, lines[0]) + Rendered(s, l, laid.0, lines[1..])
  }

  lemma {:induction false} LinesInText(s: Bytes, l: Lang, start: nat, pos: nat, scanned: seq<Token>)
    requires start <= pos <= |s|
    ensures AllWithin(s, LinesFrom(s, l, start, pos, scanned))
    decreases |s| - pos
  {
    hide SkipBlanks, NewlineAt, TokenOrInvalid;
    var at := SkipBlanks(s, l, pos);
    if at < |s| {
      if MindsNewlines(l) && NewlineAt(s, l, at) != 0 {
        var next := at + NewlineAt(s, l, at);
        LinesInText(s, l, next, next, []);
      } else {
        var out := TokenOrInvalid(s, l, 0, at);
        LinesInText(s, l, start, out.pos, scanned + out.toks);
      }
    }
  }

  lemma LinesStep(s: Bytes, l: Lang, start: nat, pos: nat, scanned: seq<Token>)
    requires pos <= |s|
    ensures var at, lines := SkipBlanks(s, l, pos), LinesFrom(s, l, start, pos, scanned);
            if at == |s| then lines == [Line(start, scanned, at, 0)]
            else if MindsNewlines(l) && NewlineAt(s, l, at) != 0 then
              var next := at + NewlineAt(s, l, at);
              lines == [Line(start, scanned, at, NewlineAt(s, l, at))] + LinesFrom(s, l, next, next, [])
            else
              var out := TokenOrInvalid(s, l, 0, at);
              lines == LinesFrom(s, l, start, out.pos, scanned + out.toks)
  {
    hide SkipBlanks, NewlineAt, TokenOrInvalid;
  }

  lemma RenderedCons(s: Bytes, l: Lang, stack: seq<nat>, line: Line, rest: seq<Line>)
    requires stack != [] && line.start <= |s| && AllWithin(s, rest)
    ensures AllWithin(s, [line] + rest)
    ensures var laid := Laid(s, l, stack, line.start);
            Rendered(s, l, stack, [line] + rest) == laid.1 + Contributed(l, line) + Rendered(s, l, laid.0, rest)
  {
    hide Laid, Contributed;
    assert ([line] + rest)[1..] == rest;
  }

  /** The pieces of a line, put together before and behind it. */
  lemma Pieces(l: Lang, done: seq<Token>, laid: seq<Token>, line: Line, after: seq<Token>)
    ensures (done + laid + line.scanned) + (SemicolonOf(l, line) + NewlineOf(l, line)) + after
            == done + (laid + Contributed(l, line) + after)
  {
    hide SemicolonOf, NewlineOf;
  }

  // ----- the state of the lexer on a line

  /** What the state remembers of the tokens scanned on its line. */
  predicate Remembers(st: State, scanned: seq<Token>) {
    && (st.significant <==> LastOf(scanned).Some?)
    && (st.significant ==> st.lastSig < |st.toks| && st.toks[st.lastSig] == LastOf(scanned).value)
  }

  /** The state is on a line that starts at `start`; before it `done` was put out and the levels were `base`. */
  ghost predicate OnLine(s: Bytes, l: Lang, st: State, done: seq<Token>, base: seq<nat>, start: nat,
                         scanned: seq<Token>) {
    && start <= st.pos <= |s| && st.stack != [] && base != [] && Remembers(st, scanned)
    && if st.lineStart then st.pos == start && scanned == [] && st.stack == base && st.toks == done
       else st.stack == Laid(s, l, base, start).0 && st.toks == done + Laid(s, l, base, start).1 + scanned
  }

  lemma {:induction false} LastOfJoin(a: seq<Token>, b: seq<Token>)
    ensures LastOf(a + b) == if LastOf(b).Some? then LastOf(b) else LastOf(a)
    decreases |b|
  {
    if b == [] {
      assert a + b == a;
    } else {
      assert (a + b)[..|a + b| - 1] == a + b[..|b| - 1];
      LastOfJoin(a, b[..|b| - 1]);
    }
  }

  lemma {:induction false} LastSignificantIsLast(toks: seq<Token>, more: seq<Token>)
    ensures var i := LastSignificant(toks + more, |toks|);
            && (i.Some? <==> LastOf(more).Some?)
            && (i.Some? ==> (toks + more)[i.value] == LastOf(more).value)
    decreases |more|
  {
    if more != [] {
      var n := |more| - 1;
      assert (toks + more)[..|toks + more| - 1] == toks + more[..n];
      LastSignificantIsLast(toks, more[..n]);
    }
  }

  lemma {:induction false} IndentationSkipped(s: Bytes, unit: IndentUnit, pos: nat, col: nat, bad: bool)
    requires pos <= |s|
    ensures SkipInline(s, Indentation(s, unit, pos, col, bad).0) == SkipInline(s, pos)
    decreases |s| - pos
  {
    if pos < |s| && IsBlank(s[pos]) {
      IndentationSkipped(s, unit, pos + 1, ColumnAfter(unit, s[pos], col), bad || Disallowed(unit, s[pos]));
    }
  }

  lemma BlankAlike(s: Bytes, l: Lang, pos: nat)
    ensures BlankLine(s, l, pos) <==> IsBlankFrom(s, l, pos)
  {
  }

  /** At the start of a turn the line is laid out, and blanks are skipped. */
  lemma ApproachLays(s: Bytes, l: Lang, st: State, done: seq<Token>, base: seq<nat>, start: nat, scanned: seq<Token>)
    requires OnLine(s, l, st, done, base, start, scanned)
    ensures var a := Approach(s, l, st);
            && a.pos == SkipBlanks(s, l, st.pos) && Remembers(a, scanned)
            && a.stack == Laid(s, l, base, start).0 && a.toks == done + Laid(s, l, base, start).1 + scanned
  {
    hide Indentation, Align, BlankLine, IsBlankFrom, SkipInline, SkipSpace, LastOf;
    assert done + [] + [] == done;
    if l.policy.offside.Some? && st.lineStart {
      BlankAlike(s, l, Indentation(s, l.policy.offside.value.unit, st.pos, 0, false).0);
      IndentationSkipped(s, l.policy.offside.value.unit, st.pos, 0, false);
      var laid := Laid(s, l, base, start).1;
      assert done + laid + [] == done + laid;
    }
  }

  lemma SemicolonStands(l: Lang, st: State, line: Line)
    requires Remembers(st, line.scanned) && line.end == st.pos
    ensures AutoSemicolon(l, st) == SemicolonOf(l, line)
  {
    hide LastOf;
  }

  lemma FinishLineContributes(s: Bytes, l: Lang, st: State, scanned: seq<Token>, start: nat)
    requires st.pos < |s| && NewlineAt(s, l, st.pos) != 0 && Remembers(st, scanned)
    ensures var n := NewlineAt(s, l, st.pos);
            var next := FinishLine(s, l, st);
            var line := Line(start, scanned, st.pos, n);
            && next.toks == st.toks + (SemicolonOf(l, line) + NewlineOf(l, line))
            && next.pos == st.pos + n && next.lineStart && Remembers(next, []) && next.stack == st.stack
  {
    hide AutoSemicolon, SemicolonOf, NewlineAt;
    SemicolonStands(l, st, Line(start, scanned, st.pos, NewlineAt(s, l, st.pos)));
  }

  lemma TakeTokenRemembers(s: Bytes, l: Lang, st: State, scanned: seq<Token>)
    requires st.pos < |s| && Remembers(st, scanned)
    ensures var out, next := TokenOrInvalid(s, l, 0, st.pos), TakeToken(s, l, st);
            && Remembers(next, scanned + out.toks) && next.toks == st.toks + out.toks
            && next.pos == out.pos && !next.lineStart && next.stack == st.stack
  {
    hide TokenOrInvalid, LastSignificant, LastOf;
    var out := TokenOrInvalid(s, l, 0, st.pos);
    LastSignificantIsLast(st.toks, out.toks);
    LastOfJoin(scanned, out.toks);
  }

  predicate WithinLimit(st: State) {
    st.diags == [] || st.diags[|st.diags| - 1].message != TokenLimit
  }

  lemma EndContributes(s: Bytes, l: Lang, st: State, scanned: seq<Token>, start: nat)
    requires st.pos == |s| && st.stack != [] && Remembers(st, scanned)
    ensures var line := Line(start, scanned, |s|, 0);
            EndTokens(l, st) == SemicolonOf(l, line) + NewlineOf(l, line)
                                + if l.policy.offside.Some? then Drain(|st.stack| - 1, |s|) else []
  {
    hide AutoSemicolon, SemicolonOf, Drain;
    SemicolonStands(l, st, Line(start, scanned, |s|, 0));
    if !NewlineAware(l) { NoSemicolon(l, Line(start, scanned, |s|, 0)); }
  }

  lemma NoSemicolon(l: Lang, line: Line)
    requires l.policy.autoSemi.None?
    ensures SemicolonOf(l, line) == []
  {
  }

  /** Below the token limit the run ends with what the lines contribute behind `done`. */
  predicate Renders(s: Bytes, l: Lang, r: State, done: seq<Token>, base: seq<nat>, lines: seq<Line>)
    requires r.stack != [] && base != [] && AllWithin(s, lines)
  {
    WithinLimit(r) ==> r.toks + EndTokens(l, r) == done + Rendered(s, l, base, lines)
  }

  lemma LimitRenders(s: Bytes, l: Lang, st: State, done: seq<Token>, base: seq<nat>, lines: seq<Line>)
    requires |st.toks| >= TOKEN_LIMIT && st.pos <= |s| && st.stack != [] && base != [] && AllWithin(s, lines)
    ensures Renders(s, l, Turns(s, l, st), done, base, lines)
  {
  }

  /** The state after `Approach`. */
  ghost predicate LaidOut(s: Bytes, l: Lang, a: State, done: seq<Token>, base: seq<nat>, start: nat,
                          scanned: seq<Token>) {
    && start <= a.pos <= |s| && base != [] && Remembers(a, scanned)
    && a.stack == Laid(s, l, base, start).0 && a.toks == done + Laid(s, l, base, start).1 + scanned
  }

  lemma LastLineRenders(s: Bytes, l: Lang, a: State, done: seq<Token>, base: seq<nat>, start: nat, scanned: seq<Token>)
    requires LaidOut(s, l, a, done, base, start, scanned) && a.pos == |s|
    ensures a.stack != [] && AllWithin(s, [Line(start, scanned, |s|, 0)])
    ensures Renders(s, l, a, done, base, [Line(start, scanned, |s|, 0)])
  {
    var line := Line(start, scanned, |s|, 0);
    var laid := Laid(s, l, base, start);
    RenderedCons(s, l, base, line, []);
    EndContributes(s, l, a, scanned, start);
    assert [line] + [] == [line];
    hide Laid, Remembers, EndTokens, SemicolonOf, NewlineOf, Contributed;
    var after := Rendered(s, l, laid.0, []);
    Pieces(l, done, laid.1, line, after);
    hide Rendered;
    EndsJoin(a.toks, SemicolonOf(l, line) + NewlineOf(l, line), after);
  }

  lemma EndsJoin(a: seq<Token>, b: seq<Token>, c: seq<Token>)
    ensures a + (b + c) == a + b + c
  {
  }

  lemma NextLineOn(s: Bytes, l: Lang, a: State, done: seq<Token>, base: seq<nat>, start: nat, scanned: seq<Token>)
    requires LaidOut(s, l, a, done, base, start, scanned) && a.pos < |s| && NewlineAt(s, l, a.pos) != 0
    ensures var next := FinishLine(s, l, a);
            && a.pos < next.pos && next.pos == a.pos + NewlineAt(s, l, a.pos) && next.stack == a.stack
            && OnLine(s, l, next, next.toks, next.stack, next.pos, [])
  {
    hide NewlineAt, Laid, FinishLine, Remembers, SemicolonOf, NewlineOf;
    FinishLineContributes(s, l, a, scanned, start);
  }

  lemma SameLineOn(s: Bytes, l: Lang, a: State, done: seq<Token>, base: seq<nat>, start: nat, scanned: seq<Token>)
    requires LaidOut(s, l, a, done, base, start, scanned) && a.pos < |s|
    ensures var next, out := TakeToken(s, l, a), TokenOrInvalid(s, l, 0, a.pos);
            a.pos < next.pos && next.pos == out.pos && OnLine(s, l, next, done, base, start, scanned + out.toks)
  {
    hide Laid, TakeToken, TokenOrInvalid, Remembers;
    TakeTokenRemembers(s, l, a, scanned);
    var laid, more := Laid(s, l, base, start).1, TokenOrInvalid(s, l, 0, a.pos).toks;
    assert done + laid + scanned + more == done + laid + (scanned + more);
  }

  lemma LineRenders(s: Bytes, l: Lang, a: State, done: seq<Token>, base: seq<nat>, start: nat, scanned: seq<Token>,
                    rest: seq<Line>, r: State)
    requires LaidOut(s, l, a, done, base, start, scanned) && a.pos < |s| && NewlineAt(s, l, a.pos) != 0
    requires AllWithin(s, rest) && r.stack != []
    ensures a.stack != [] && AllWithin(s, [Line(start, scanned, a.pos, NewlineAt(s, l, a.pos))] + rest)
    ensures Renders(s, l, r, FinishLine(s, l, a).toks, a.stack, rest) ==>
              Renders(s, l, r, done, base, [Line(start, scanned, a.pos, NewlineAt(s, l, a.pos))] + rest)
  {
    var line := Line(start, scanned, a.pos, NewlineAt(s, l, a.pos));
    hide NewlineAt, Laid, FinishLine, Remembers, SemicolonOf, NewlineOf, Rendered, Contributed, EndTokens, WithinLimit;
    FinishLineContributes(s, l, a, scanned, start);
    RenderedCons(s, l, base, line, rest);
    Pieces(l, done, Laid(s, l, base, start).1, line, Rendered(s, l, a.stack, rest));
  }

  /** From any state on a line the rest of the run is the lines from there on. */
  lemma {:induction false} TurnsRender(s: Bytes, l: Lang, st: State, done: seq<Token>, base: seq<nat>, start: nat,
                                       scanned: seq<Token>)
    requires OnLine(s, l, st, done, base, start, scanned)
    ensures AllWithin(s, LinesFrom(s, l, start, st.pos, scanned))
    ensures Renders(s, l, Turns(s, l, st), done, base, LinesFrom(s, l, start, st.pos, scanned))
    decreases |s| - st.pos
  {
    hide LinesFrom, Approach, FinishLine, TakeToken, NewlineAt, SkipBlanks, Laid, Remembers, TokenOrInvalid, Renders;
    hide AllWithin;
    LinesInText(s, l, start, st.pos, scanned);
    if |st.toks| >= TOKEN_LIMIT {
      LimitRenders(s, l, st, done, base, LinesFrom(s, l, start, st.pos, scanned));
    } else {
      LinesStep(s, l, start, st.pos, scanned);
      ApproachLays(s, l, st, done, base, start, scanned);
      hide OnLine;
      var a := Approach(s, l, st);
      if a.pos == |s| {
        LastLineRenders(s, l, a, done, base, start, scanned);
      } else if NewlineAware(l) && NewlineAt(s, l, a.pos) != 0 {
        NextLineOn(s, l, a, done, base, start, scanned);
        var next := FinishLine(s, l, a);
        TurnsRender(s, l, next, next.toks, next.stack, next.pos, []);
        LineRenders(s, l, a, done, base, start, scanned, LinesFrom(s, l, next.pos, next.pos, []), Turns(s, l, next));
      } else {
        SameLineOn(s, l, a, done, base, start, scanned);
        TurnsRender(s, l, TakeToken(s, l, a), done, base, start, scanned + TokenOrInvalid(s, l, 0, a.pos).toks);
      }
    }
  }

  /** Below the token limit a run puts out exactly what its lines contribute, and EOF at the end. */
  lemma LexIsLineByLine(s: Bytes, l: Lang)
    ensures AllWithin(s, LinesFrom(s, l, 0, 0, []))
    ensures var (toks, diags) := Lex(s, l);
            (diags == [] || diags[|diags| - 1].message != TokenLimit) ==>
              toks == Rendered(s, l, [0], LinesFrom(s, l, 0, 0, [])) + [Token(EOF, |s|, |s|, 0)]
  {
    assert OnLine(s, l, INITIAL, [], [0], 0, []);
    hide *;
    TurnsRender(s, l, INITIAL, [], [0], 0, []);
    RunRenders(s, l, LinesFrom(s, l, 0, 0, []));
  }

  lemma RunRenders(s: Bytes, l: Lang, lines: seq<Line>)
    requires AllWithin(s, lines) && Renders(s, l, Turns(s, l, INITIAL), [], [0], lines)
    ensures var (toks, diags) := Lex(s, l);
            (diags == [] || diags[|diags| - 1].message != TokenLimit) ==>
              toks == Rendered(s, l, [0], lines) + [Token(EOF, |s|, |s|, 0)]
  {
    LexParts(s, l);
    hide Lex, Turns, Rendered, EndTokens, AllWithin;
    var r := Rendered(s, l, [0], lines);
    assert [] + r == r;
  }

  lemma LexParts(s: Bytes, l: Lang)
    ensures var st := Turns(s, l, INITIAL);
            && Lex(s, l) == (st.toks + EndTokens(l, st) + [Token(EOF, st.pos, st.pos, 0)], st.diags)
            && (WithinLimit(st) ==> st.pos == |s|)
  {
    TurnsReachEnd(s, l, INITIAL);
    hide Turns, EndTokens;
  }

  // ----- the column of a line

  /** A tab stands for the columns up to the next multiple of 8, or for one where the language indents with tabs. */
  lemma TabStops(unit: IndentUnit, col: nat)
    requires col + 8 <= UINT32_MAX
    ensures var next := ColumnAfter(unit, 0x09, col);
            if unit == Tabs then next == col + 1 else next % 8 == 0 && col < next <= col + 8
    ensures ColumnAfter(unit, 0x20, col) == col + 1
  {
  }

  /** A blank the language does not indent with. */
  predicate IsWrongBlank(unit: IndentUnit, c: Byte) {
    (unit == Spaces && c == 0x09) || (unit == Tabs && c == 0x20)
  }

  lemma {:induction false} BlanksFrom(s: Bytes, unit: IndentUnit, pos: nat, col: nat, bad: bool)
    requires pos <= |s|
    ensures var r := Indentation(s, unit, pos, col, bad);
            && (forall k :: pos <= k < r.0 ==> s[k] == 0x20 || s[k] == 0x09)
            && (r.0 < |s| ==> s[r.0] != 0x20 && s[r.0] != 0x09)
            && (r.2 <==> bad || exists k :: pos <= k < r.0 && IsWrongBlank(unit, s[k]))
    decreases |s| - pos
  {
    hide ColumnAfter;
    if pos < |s| && IsBlank(s[pos]) {
      BlanksFrom(s, unit, pos + 1, ColumnAfter(unit, s[pos], col), bad || Disallowed(unit, s[pos]));
    }
  }

  lemma {:induction false} ColumnFrom(s: Bytes, unit: IndentUnit, pos: nat, col: nat, bad: bool)
    requires pos <= |s| && col <= UINT32_MAX
    ensures var r := Indentation(s, unit, pos, col, bad);
            unit == Tabs || (forall k :: pos <= k < r.0 ==> s[k] == 0x20) ==>
              r.1 == (col + (r.0 - pos)) % (UINT32_MAX + 1)
    decreases |s| - pos
  {
    if pos < |s| && IsBlank(s[pos]) {
      var next := ColumnAfter(unit, s[pos], col);
      ColumnFits(unit, s[pos], col);
      hide ColumnAfter;
      ColumnFrom(s, unit, pos + 1, next, bad || Disallowed(unit, s[pos]));
      OneColumn(unit, s[pos], col, Indentation(s, unit, pos, col, bad).0 - (pos + 1));
    }
  }

  lemma ColumnFits(unit: IndentUnit, c: Byte, col: nat)
    ensures ColumnAfter(unit, c, col) <= UINT32_MAX
  {
  }

  lemma OneColumn(unit: IndentUnit, c: Byte, col: nat, more: nat)
    requires col <= UINT32_MAX
    ensures unit == Tabs || c == 0x20 ==>
              && ColumnAfter(unit, c, col) <= UINT32_MAX
              && (ColumnAfter(unit, c, col) + more) % (UINT32_MAX + 1) == (col + 1 + more) % (UINT32_MAX + 1)
  {
  }

  /**
   The indentation of a line: all its leading spaces and tabs; a wrong one is reported; and
   the column is their number in 32 bits, unless tabs go to the next multiple of 8.
  */
  lemma IndentationMeans(s: Bytes, unit: IndentUnit, pos: nat)
    requires pos <= |s|
    ensures var (end, col, bad) := Indentation(s, unit, pos, 0, false);
            && (forall k :: pos <= k < end ==> s[k] == 0x20 || s[k] == 0x09)
            && (end < |s| ==> s[end] != 0x20 && s[end] != 0x09)
            && (bad <==> exists k :: pos <= k < end && IsWrongBlank(unit, s[k]))
            && (unit == Tabs || (forall k :: pos <= k < end ==> s[k] == 0x20) ==>
                  col == (end - pos) % (UINT32_MAX + 1))
  {
    BlanksFrom(s, unit, pos, 0, false);
    ColumnFrom(s, unit, pos, 0, false);
    hide Indentation;
  }
}
