/**
 The offside layout over whole runs: INDENT and DEDENT nest, and their excess is the
 number of open levels.
*/
module LexBalance {
  import opened Machine
  import opened LexConfig
  import opened Scanners
  import opened TokenScan
  import opened Layout
  import opened TokenCases

  function Weight(t: Token): int {
    if t.kind == INDENT then 1 else if t.kind == DEDENT then -1 else 0
  }

  /** INDENT tokens without their DEDENT so far. */
  function Excess(toks: seq<Token>): int {
    if toks == [] then 0 else Excess(toks[..|toks| - 1]) + Weight(toks[|toks| - 1])
  }

  /** No prefix has more DEDENT than INDENT tokens. */
  predicate NeverNegative(toks: seq<Token>) {
    forall i :: 0 <= i <= |toks| ==> Excess(toks[..i]) >= 0
  }

  predicate StrictlyIncreasing(stack: seq<nat>) {
    forall i, j :: 0 <= i < j < |stack| ==> stack[i] < stack[j]
  }

  predicate IsLayoutKind(kind: nat) {
    kind == INDENT || kind == DEDENT
  }

  /** The language gives none of its own tokens the kind of a layout token. */
  predicate KeepsLayoutKinds(l: Lang) {
    && (l.policy.autoSemi.Some? ==> !IsLayoutKind(l.policy.autoSemi.value.emitKind))
    && forall open <- l.strings :: StyleKeepsKinds(l.strings[open].style)
  }

  predicate StyleKeepsKinds(r: StringStyle) {
    && !IsLayoutKind(r.fragmentKind) && !IsLayoutKind(r.interpOpenKind)
    && !IsLayoutKind(r.interpCloseKind) && !IsLayoutKind(r.bareIdentKind)
  }

  /** No token of the sequence is a layout token. */
  predicate NoLayout(toks: seq<Token>) {
    forall t <- toks :: !IsLayoutKind(t.kind)
  }

  // ----- scanners emit no layout tokens

  lemma {:induction false} SpaceIsFree(s: Bytes, l: Lang, pos: nat)
    requires pos <= |s|
    ensures NoLayout(InterpSpace(s, l, pos).toks)
    decreases |s| - pos
  {
    hide NewlineAt;
    if pos < |s| {
      var n := NewlineAt(s, l, pos);
      if n != 0 {
        SpaceIsFree(s, l, pos + n);
      } else if IsInlineSpace(s[pos]) {
        SpaceIsFree(s, l, pos + 1);
      }
    }
  }

  lemma {:induction false} TokenIsFree(s: Bytes, l: Lang, depth: nat, pos: nat)
    requires pos < |s| && KeepsLayoutKinds(l)
    ensures NoLayout(TokenOrInvalid(s, l, depth, pos).toks)
    decreases |s| - pos, 3
  {
    hide KeepsLayoutKinds, ScanString, ScanToken, IsSimple;
    StringIsFree(s, l, depth, pos);
    TokenIsSimpleOrString(s, l, depth, pos);
    var r := ScanToken(s, l, depth, pos);
    if r.Some? && IsSimple(r.value, pos) { SimpleIsFree(r.value, pos); }
  }

  lemma SimpleIsFree(out: Out, pos: nat)
    requires IsSimple(out, pos)
    ensures NoLayout(out.toks)
  {
  }

  lemma {:induction false} StringIsFree(s: Bytes, l: Lang, depth: nat, pos: nat)
    requires pos < |s| && KeepsLayoutKinds(l)
    ensures ScanString(s, l, depth, pos).Some? ==> NoLayout(ScanString(s, l, depth, pos).value.toks)
    decreases |s| - pos, 2
  {
    hide ScanString, StringBody;
    if ScanString(s, l, depth, pos).Some? {
      var open := StringIsBody(s, l, depth, pos);
      hide KeepsLayoutKinds, StyleKeepsKinds;
      BodyIsFree(s, l, open, l.strings[open], depth, pos, pos, false, pos + |open|);
    }
  }

  lemma {:induction false} BodyIsFree(s: Bytes, l: Lang, open: Bytes, e: StringEntry, depth: nat, start: nat,
                                      from: nat, had: bool, pos: nat)
    requires pos <= |s| && KeepsLayoutKinds(l) && StyleKeepsKinds(e.style)
    ensures NoLayout(StringBody(s, l, open, e, depth, start, from, had, pos).toks)
    decreases |s| - pos, 1
  {
    hide StringBody, Interpolation, InterpolationAt, KeepsLayoutKinds, CaseAt;
    var c := CaseAt(s, l, e, pos);
    if c.Stop? {
      BodyStops(s, l, open, e, depth, start, from, had, pos);
    } else if c.Close? {
      BodyCloses(s, l, open, e, depth, start, from, had, pos);
    } else if c.Enter? {
      BodyEnters(s, l, open, e, depth, start, from, had, pos);
      InterpolationIsFree(s, l, e.style, depth, pos);
      var i := Interpolation(s, l, e.style, depth, pos);
      BodyIsFree(s, l, open, e, depth, start, i.out.pos, true, i.out.pos);
    } else {
      BodySteps(s, l, open, e, depth, start, from, had, pos);
      BodyIsFree(s, l, open, e, depth, start, from, had, c.next);
    }
  }

  lemma {:induction false} InterpolationIsFree(s: Bytes, l: Lang, r: StringStyle, depth: nat, start: nat)
    requires InterpolationAt(s, l, r, start) && KeepsLayoutKinds(l) && StyleKeepsKinds(r)
    ensures NoLayout(Interpolation(s, l, r, depth, start).out.toks)
    decreases |s| - start, 0
  {
    hide KeepsLayoutKinds, Expression, Longest;
    var pos := start + |r.interpOpen.value|;
    if r.interpClose.Some? {
      ExpressionIsFree(s, l, start, r.interpClose.value, r.interpCloseKind, depth, pos);
    } else if r.interpOpen.value == DOLLAR && Matches(s, pos, BRACE_OPEN) {
      ExpressionIsFree(s, l, start, BRACE_CLOSE, r.interpCloseKind, depth, pos + 1);
    }
  }

  lemma {:induction false} ExpressionIsFree(s: Bytes, l: Lang, start: nat, close: Bytes, closeKind: nat, depth: nat,
                                            pos: nat)
    requires start < pos <= |s| && KeepsLayoutKinds(l) && !IsLayoutKind(closeKind)
    ensures NoLayout(Expression(s, l, start, close, closeKind, depth, pos).out.toks)
    decreases |s| - pos, 5
  {
    hide KeepsLayoutKinds, ExpressionFrom;
    if depth < MAX_INTERP_DEPTH { LoopIsFree(s, l, start, close, closeKind, depth + 1, 0, pos); }
  }

  lemma {:induction false} LoopIsFree(s: Bytes, l: Lang, start: nat, close: Bytes, closeKind: nat, depth: nat,
                                      pairs: nat, pos: nat)
    requires start < pos <= |s| && KeepsLayoutKinds(l) && !IsLayoutKind(closeKind)
    ensures NoLayout(ExpressionFrom(s, l, start, close, closeKind, depth, pairs, pos).out.toks)
    decreases |s| - pos, 4
  {
    hide ExpressionFrom, InterpSpace, TokenOrInvalid, KeepsLayoutKinds, EndsHere;
    SpaceIsFree(s, l, pos);
    var at := InterpSpace(s, l, pos).pos;
    if EndsHere(s, close, pairs, at) {
      LoopEnds(s, l, start, close, closeKind, depth, pairs, pos);
    } else {
      var left := LoopTurns(s, l, start, close, closeKind, depth, pairs, pos);
      TokenIsFree(s, l, depth, at);
      LoopIsFree(s, l, start, close, closeKind, depth, left, TokenOrInvalid(s, l, depth, at).pos);
    }
  }

  // ----- the layout word

  /** INDENT and DEDENT nest so far, and this many levels are open. */
  predicate Nested(toks: seq<Token>, levels: nat) {
    Excess(toks) == levels && NeverNegative(toks)
  }

  lemma NestOne(toks: seq<Token>, levels: nat, t: Token)
    requires Nested(toks, levels) && levels + Weight(t) >= 0
    ensures Nested(toks + [t], levels + Weight(t))
  {
    var more := toks + [t];
    assert more[..|toks|] == toks;
    forall i | 0 <= i <= |more| ensures Excess(more[..i]) >= 0 {
      if i <= |toks| { assert more[..i] == toks[..i]; } else { assert more[..i] == more; }
    }
  }

  lemma {:induction false} NestFree(toks: seq<Token>, levels: nat, more: seq<Token>)
    requires Nested(toks, levels) && NoLayout(more)
    ensures Nested(toks + more, levels)
    decreases |more|
  {
    hide Nested;
    if more == [] {
      assert toks + more == toks;
    } else {
      assert more[0] in more;
      NestOne(toks, levels, more[0]);
      NestFree(toks + [more[0]], levels, more[1..]);
      assert toks + more == (toks + [more[0]]) + more[1..];
    }
  }

  lemma {:induction false} NestDrain(toks: seq<Token>, levels: nat, n: nat, pos: nat)
    requires Nested(toks, levels) && n <= levels
    ensures Nested(toks + Drain(n, pos), levels - n)
    decreases n
  {
    hide Nested;
    if n == 0 {
      assert toks + [] == toks;
    } else {
      NestOne(toks, levels, Dedent(pos));
      NestDrain(toks + [Dedent(pos)], levels - 1, n - 1, pos);
      assert toks + Drain(n, pos) == (toks + [Dedent(pos)]) + Drain(n - 1, pos);
    }
  }

  /** Closing levels puts out one DEDENT for each. */
  lemma {:induction false} CloseIsDrain(stack: seq<nat>, col: nat, pos: nat)
    requires stack != []
    ensures var r := CloseDeeper(stack, col, pos);
            r.1 == Drain(|stack| - |r.0|, pos) && (|r.0| == 1 || Top(r.0) <= col)
    ensures StrictlyIncreasing(stack) ==> StrictlyIncreasing(CloseDeeper(stack, col, pos).0)
    decreases |stack|
  {
    if |stack| > 1 && col < Top(stack) { CloseIsDrain(Pop(stack), col, pos); }
  }

  lemma {:induction false} DrainOneMore(n: nat, pos: nat)
    ensures Drain(n, pos) + [Dedent(pos)] == Drain(n + 1, pos)
  {
    if n > 0 {
      DrainOneMore(n - 1, pos);
      assert Drain(n, pos) + [Dedent(pos)] == [Dedent(pos)] + (Drain(n - 1, pos) + [Dedent(pos)]);
    }
  }

  /** The indentation stack: column 0, then ever larger columns, at most 128 in all. */
  predicate IsStack(stack: seq<nat>) {
    0 < |stack| <= 128 && stack[0] == 0 && StrictlyIncreasing(stack)
  }

  /** A line that is not indented further leaves a prefix of the stack and a DEDENT for each level left out. */
  lemma AlignDrains(stack: seq<nat>, col: nat, pos: nat, onEqual: bool)
    requires stack != [] && col <= Top(stack)
    ensures var a := Align(stack, col, pos, onEqual);
            0 < |a.0| <= |stack| && a.0 == stack[..|a.0|] && a.1 == Drain(|stack| - |a.0|, pos)
  {
    var closed := CloseDeeper(stack, col, pos);
    CloseIsDrain(stack, col, pos);
    hide CloseDeeper;
    DrainOneMore(|stack| - |closed.0|, pos);
  }

  /** A line start keeps the stack a stack and the word nested to its height. */
  lemma AlignKeepsNesting(stack: seq<nat>, col: nat, pos: nat, onEqual: bool, toks: seq<Token>)
    requires IsStack(stack) && Nested(toks, |stack| - 1)
    ensures var a := Align(stack, col, pos, onEqual);
            IsStack(a.0) && Nested(toks + a.1, |a.0| - 1)
  {
    var a := Align(stack, col, pos, onEqual);
    if col > Top(stack) {
      assert toks + [] == toks;
      if |stack| < MAX_INDENT_DEPTH {
        NestOne(toks, |stack| - 1, Token(INDENT, pos, pos, 0));
      }
    } else {
      AlignDrains(stack, col, pos, onEqual);
      hide *;
      NestDrain(toks, |stack| - 1, |stack| - |a.0|, pos);
    }
  }

  // ----- whole runs

  /** What every state of the loop satisfies. Without offside rule there is one level only. */
  predicate Balanced(l: Lang, st: State) {
    && IsStack(st.stack) && Nested(st.toks, |st.stack| - 1)
    && (l.policy.offside.None? ==> |st.stack| == 1)
  }

  lemma SemicolonIsFree(l: Lang, st: State)
    requires KeepsLayoutKinds(l)
    ensures NoLayout(AutoSemicolon(l, st))
  {
  }

  lemma LineStartBalanced(s: Bytes, l: Lang, st: State)
    requires st.pos <= |s| && Balanced(l, st)
    ensures Balanced(l, LineStart(s, l, st))
  {
    hide Nested, BlankLine, IsStack;
    if l.policy.offside.Some? && st.lineStart {
      var o := l.policy.offside.value;
      var indent := Indentation(s, o.unit, st.pos, 0, false);
      AlignKeepsNesting(st.stack, indent.1, indent.0, o.dedentOnEqual, st.toks);
    }
  }

  lemma FinishLineBalanced(s: Bytes, l: Lang, st: State)
    requires st.pos <= |s| && NewlineAt(s, l, st.pos) != 0 && Balanced(l, st) && KeepsLayoutKinds(l)
    ensures Balanced(l, FinishLine(s, l, st))
  {
    SemicolonIsFree(l, st);
    hide Nested, KeepsLayoutKinds, AutoSemicolon;
    var n := NewlineAt(s, l, st.pos);
    var newline := if l.policy.emitNewlines || (l.policy.offside.Some? && st.significant)
                   then [Token(NEWLINE, st.pos, st.pos + n, 0)] else [];
    NestFree(st.toks, |st.stack| - 1, AutoSemicolon(l, st) + newline);
  }

  lemma TakeTokenBalanced(s: Bytes, l: Lang, st: State)
    requires st.pos < |s| && Balanced(l, st) && KeepsLayoutKinds(l)
    ensures Balanced(l, TakeToken(s, l, st))
  {
    hide Nested, KeepsLayoutKinds, TokenOrInvalid, LastSignificant;
    TokenIsFree(s, l, 0, st.pos);
    NestFree(st.toks, |st.stack| - 1, TokenOrInvalid(s, l, 0, st.pos).toks);
  }

  lemma ApproachBalanced(s: Bytes, l: Lang, st: State)
    requires st.pos <= |s| && st.stack != [] && Balanced(l, st)
    ensures Balanced(l, Approach(s, l, st))
  {
    hide Nested, IsStack, LineStart, SkipInline, SkipSpace;
    LineStartBalanced(s, l, st);
  }

  /** At every turn the excess of INDENT over DEDENT tokens is the height of the stack, and the stack stays
      strictly increasing with at most 128 entries. */
  lemma {:induction false} TurnsBalanced(s: Bytes, l: Lang, st: State)
    requires st.pos <= |s| && st.stack != [] && Balanced(l, st) && KeepsLayoutKinds(l)
    ensures Balanced(l, Turns(s, l, st))
    decreases |s| - st.pos
  {
    hide Balanced, Approach, FinishLine, TakeToken, KeepsLayoutKinds;
    if |st.toks| < TOKEN_LIMIT {
      var a := Approach(s, l, st);
      ApproachBalanced(s, l, st);
      if a.pos < |s| {
        if NewlineAware(l) && NewlineAt(s, l, a.pos) != 0 {
          FinishLineBalanced(s, l, a);
          SameStack(s, l, a);
          TurnsBalanced(s, l, FinishLine(s, l, a));
        } else {
          TakeTokenBalanced(s, l, a);
          SameStack(s, l, a);
          TurnsBalanced(s, l, TakeToken(s, l, a));
        }
      }
    } else {
      OtherDiags(l, st, st.diags + [Diag(TokenLimit, st.pos, st.pos)]);
    }
  }

  lemma OtherDiags(l: Lang, st: State, diags: seq<Diag>)
    requires Balanced(l, st)
    ensures Balanced(l, st.(diags := diags))
  {
  }

  lemma EndLineIsFree(l: Lang, st: State)
    requires KeepsLayoutKinds(l)
    ensures NoLayout(EndLine(l, st))
  {
    SemicolonIsFree(l, st);
    hide AutoSemicolon, KeepsLayoutKinds;
  }

  /** At the end of the text every level is closed. */
  lemma EndBalanced(l: Lang, st: State)
    requires Balanced(l, st) && KeepsLayoutKinds(l)
    ensures st.stack != [] && Nested(st.toks + EndTokens(l, st), 0)
  {
    hide Nested, KeepsLayoutKinds, EndLine;
    var levels := |st.stack| - 1;
    EndLineIsFree(l, st);
    if NewlineAware(l) {
      NestFree(st.toks, levels, EndLine(l, st));
      NestDrain(st.toks + EndLine(l, st), levels, levels, st.pos);
      JoinThree(st.toks, EndLine(l, st), EndDedents(l, st));
    } else {
      assert st.toks + [] == st.toks;
    }
  }

  lemma JoinThree(a: seq<Token>, b: seq<Token>, c: seq<Token>)
    ensures a + (b + c) == (a + b) + c && (c == [] ==> a + (b + c) == a + b)
  {
  }

  lemma InitiallyBalanced(l: Lang)
    ensures Balanced(l, INITIAL)
  {
  }

  /** Every run of the lexer puts out INDENT and DEDENT as a well-bracketed word. */
  lemma LexBalanced(s: Bytes, l: Lang)
    requires KeepsLayoutKinds(l)
    ensures Nested(Lex(s, l).0, 0)
  {
    hide Balanced, Turns, EndTokens, KeepsLayoutKinds, Nested;
    InitiallyBalanced(l);
    TurnsBalanced(s, l, INITIAL);
    var st := Turns(s, l, INITIAL);
    EndBalanced(l, st);
    NestOne(st.toks + EndTokens(l, st), 0, Token(EOF, st.pos, st.pos, 0));
  }

  // ----- the columns of lines

  /** The column of a line that is about to be laid out and the level it ends up on. */
  ghost function LineLevel(s: Bytes, l: Lang, st: State): seq<(nat, nat)>
    requires st.pos <= |s| && st.stack != []
  {
    if l.policy.offside.None? || !st.lineStart then []
    else
      var indent := Indentation(s, l.policy.offside.value.unit, st.pos, 0, false);
      if BlankLine(s, l, indent.0) then [] else [(indent.1, Top(LineStart(s, l, st).stack))]
  }

  /** These for all lines of a run that are not blank. */
  ghost function LineLevels(s: Bytes, l: Lang, st: State): seq<(nat, nat)>
    requires st.pos <= |s| && st.stack != []
    decreases |s| - st.pos
  {
    if |st.toks| >= TOKEN_LIMIT then []
    else
      var a := Approach(s, l, st);
      LineLevel(s, l, st) +
      if a.pos == |s| then []
      else if NewlineAware(l) && NewlineAt(s, l, a.pos) != 0 then LineLevels(s, l, FinishLine(s, l, a))
      else LineLevels(s, l, TakeToken(s, l, a))
  }

  lemma StepsAddDiags(s: Bytes, l: Lang, st: State)
    requires st.pos <= |s| && st.stack != []
    ensures |Approach(s, l, st).diags| >= |st.diags|
    ensures st.pos < |s| ==> |TakeToken(s, l, st).diags| >= |st.diags|
    ensures NewlineAt(s, l, st.pos) != 0 ==> FinishLine(s, l, st).diags == st.diags
  {
    hide TokenOrInvalid, Align, Indentation, SkipInline, SkipSpace, LastSignificant, AutoSemicolon;
  }

  lemma {:induction false} TurnsAddDiags(s: Bytes, l: Lang, st: State)
    requires st.pos <= |s| && st.stack != []
    ensures |Turns(s, l, st).diags| >= |st.diags|
    decreases |s| - st.pos
  {
    hide Approach, FinishLine, TakeToken;
    if |st.toks| < TOKEN_LIMIT {
      var a := Approach(s, l, st);
      StepsAddDiags(s, l, st);
      if a.pos < |s| {
        StepsAddDiags(s, l, a);
        SameStack(s, l, a);
        if NewlineAware(l) && NewlineAt(s, l, a.pos) != 0 {
          TurnsAddDiags(s, l, FinishLine(s, l, a));
        } else {
          TurnsAddDiags(s, l, TakeToken(s, l, a));
        }
      }
    }
  }

  /** A line is aligned to a level without complaint just when the level is its own column. */
  lemma AlignedWithoutComplaint(stack: seq<nat>, col: nat, pos: nat)
    requires stack != []
    ensures Align(stack, col, pos, false).2 == [] <==> Top(Align(stack, col, pos, false).0) == col
  {
    CloseIsDrain(stack, col, pos);
  }

  lemma {:induction false} CloseReachesLevel(stack: seq<nat>, col: nat, pos: nat, k: nat)
    requires StrictlyIncreasing(stack) && k < |stack| && stack[k] == col
    ensures |CloseDeeper(stack, col, pos).0| == k + 1
    decreases |stack|
  {
    if |stack| > 1 && col < Top(stack) { CloseReachesLevel(Pop(stack), col, pos, k); }
  }

  /**
   Where equal lines dedent too, a line ends up on a level of its own column if and only
   if it is accepted and its column was not a level already; column 0 always stays.
  */
  lemma AlignedOrEqual(stack: seq<nat>, col: nat, pos: nat)
    requires IsStack(stack)
    ensures var a := Align(stack, col, pos, true);
            Top(a.0) == col <==> a.2 == [] && col !in stack[1..]
  {
    var closed := CloseDeeper(stack, col, pos).0;
    CloseIsDrain(stack, col, pos);
    if col in stack[1..] {
      var k :| 0 < k < |stack| && stack[k] == col;
      CloseReachesLevel(stack, col, pos, k);
      assert |closed| > 1 && Top(closed) == col;
      assert Top(Pop(closed)) < col;
    }
  }

  lemma LineOnLevel(s: Bytes, l: Lang, st: State)
    requires st.pos <= |s| && st.stack != [] && NewlineAware(l)
    requires l.policy.offside.Some? && !l.policy.offside.value.dedentOnEqual
    requires |Approach(s, l, st).diags| == |st.diags|
    ensures forall x <- LineLevel(s, l, st) :: x.0 == x.1
  {
    hide Indentation, BlankLine, Align, SkipInline;
    var indent := Indentation(s, l.policy.offside.value.unit, st.pos, 0, false);
    AlignedWithoutComplaint(st.stack, indent.1, indent.0);
  }

  /** Where only lower lines dedent, a run without diagnostics puts every line on a level of its own column. */
  lemma {:induction false} LinesOnTheirLevels(s: Bytes, l: Lang, st: State)
    requires st.pos <= |s| && st.stack != []
    requires l.policy.offside.Some? && !l.policy.offside.value.dedentOnEqual
    requires |Turns(s, l, st).diags| == |st.diags|
    ensures forall x <- LineLevels(s, l, st) :: x.0 == x.1
    decreases |s| - st.pos
  {
    hide Approach, FinishLine, TakeToken, LineLevel;
    if |st.toks| < TOKEN_LIMIT {
      var a := Approach(s, l, st);
      StepsAddDiags(s, l, st);
      if a.pos < |s| {
        StepsAddDiags(s, l, a);
        SameStack(s, l, a);
        var next := if NewlineAt(s, l, a.pos) != 0 then FinishLine(s, l, a) else TakeToken(s, l, a);
        TurnsAddDiags(s, l, next);
        LineOnLevel(s, l, st);
        LinesOnTheirLevels(s, l, next);
      } else {
        LineOnLevel(s, l, st);
      }
    }
  }

  /** Where equal lines dedent too, lines of one column close and open their level in turn. */
  lemma EqualLinesAlternate(stack: seq<nat>, pos: nat, next: nat)
    requires IsStack(stack) && |stack| > 1
    ensures var col := Top(stack);
            var first := Align(stack, col, pos, true);
            var second := Align(first.0, col, next, true);
            && first == (Pop(stack), [Dedent(pos)], [])
            && second == (stack, [Token(INDENT, next, next, 0)], [])
  {
    var col := Top(stack);
    assert CloseDeeper(stack, col, pos) == (stack, []);
    assert [] + [Dedent(pos)] == [Dedent(pos)];
    assert Top(Pop(stack)) < col;
    assert Pop(stack) + [col] == stack;
  }
}
