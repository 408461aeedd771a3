/**
 The driver of `src/lexer.c`: lines, indentation, virtual tokens and the loop over the
 whole text.
*/
module Layout {
  import opened Options
  import opened Machine
  import opened LexConfig
  import opened Scanners
  import opened TokenScan

  const MAX_INDENT_DEPTH: nat := 128

  /** Past this many tokens the text is cut off, so that the closing tokens still fit. */
  const TOKEN_LIMIT: nat := UINT32_MAX - (MAX_INDENT_DEPTH + 4)

  /** The lexer between two steps. The indentation stack has its base level, column 0, at the bottom. */
  datatype State = State(
    pos: nat, toks: seq<Token>, diags: seq<Diag>, stack: seq<nat>, lineStart: bool, significant: bool, lastSig: nat)

  const INITIAL: State := State(0, [], [], [0], true, false, 0)

  function Top(stack: seq<nat>): nat
    requires stack != []
  {
    stack[|stack| - 1]
  }

  function Pop(stack: seq<nat>): seq<nat>
    requires stack != []
  {
    stack[..|stack| - 1]
  }

  predicate NewlineAware(l: Lang) {
    l.policy.offside.Some? || l.policy.autoSemi.Some? || l.policy.emitNewlines
  }

  predicate IsSignificant(kind: nat) {
    && kind != INVALID && kind != EOF && kind != NEWLINE && kind != INDENT && kind != DEDENT && kind != COMMENT
  }

  // ----- indentation

  predicate IsBlank(c: Byte) {
    c == 0x20 || c == 0x09
  }

  /** `indentation_col_after_byte`: the column in 32 bits. */
  function ColumnAfter(unit: IndentUnit, c: Byte, col: nat): nat {
    if c == 0x20 || unit.Tabs? then (col + 1) % (UINT32_MAX + 1) else ((col / 8 + 1) * 8) % (UINT32_MAX + 1)
  }

  /** The blank is not the one the language indents with. */
  predicate Disallowed(unit: IndentUnit, c: Byte) {
    if c == 0x20 then unit.Tabs? else unit.Spaces?
  }

  /** The indentation from `pos` on: where it ends, its column, and whether a blank was disallowed. */
  function Indentation(s: Bytes, unit: IndentUnit, pos: nat, col: nat, bad: bool): (r: (nat, nat, bool))
    requires pos <= |s|
    ensures pos <= r.0 <= |s|
    decreases |s| - pos
  {
    if pos < |s| && IsBlank(s[pos]) then
      Indentation(s, unit, pos + 1, ColumnAfter(unit, s[pos], col), bad || Disallowed(unit, s[pos]))
    else (pos, col, bad)
  }

  /** `line_comment_starts_at`. */
  predicate LineCommentAt(s: Bytes, l: Lang, pos: nat) {
    exists open <- l.lineOpens :: Matches(s, pos, open)
  }

  /** A line with nothing but blanks or a line comment on it. */
  predicate BlankLine(s: Bytes, l: Lang, pos: nat) {
    pos >= |s| || NewlineAt(s, l, pos) != 0 || LineCommentAt(s, l, pos)
  }

  function Dedent(pos: nat): Token {
    Token(DEDENT, pos, pos, 0)
  }

  /** Closes every level deeper than `col`. */
  function CloseDeeper(stack: seq<nat>, col: nat, pos: nat): (r: (seq<nat>, seq<Token>))
    requires stack != []
    ensures r.0 != [] && |r.0| <= |stack| && r.0 == stack[..|r.0|]
    decreases |stack|
  {
    if |stack| > 1 && col < Top(stack) then
      var rest := CloseDeeper(Pop(stack), col, pos);
      (rest.0, [Dedent(pos)] + rest.1)
    else (stack, [])
  }

  /** What a line that starts at column `col` does to the levels: the stack, the tokens and the diagnostics. */
  function Align(stack: seq<nat>, col: nat, pos: nat, onEqual: bool): (r: (seq<nat>, seq<Token>, seq<Diag>))
    requires stack != []
    ensures r.0 != []
  {
    if col > Top(stack) then
      if |stack| >= MAX_INDENT_DEPTH then (stack, [], [Diag(IndentationTooDeep, pos, pos)])
      else (stack + [col], [Token(INDENT, pos, pos, 0)], [])
    else
      var closed := CloseDeeper(stack, col, pos);
      if onEqual && |closed.0| > 1 && col == Top(closed.0) then (Pop(closed.0), closed.1 + [Dedent(pos)], [])
      else (closed.0, closed.1, if col == Top(closed.0) then [] else [Diag(MisalignedDedent, pos, pos)])
  }

  /** `handle_offside_line_start`. */
  function LineStart(s: Bytes, l: Lang, st: State): (r: State)
    requires st.pos <= |s| && st.stack != []
    ensures st.pos <= r.pos <= |s| && r.stack != []
  {
    if l.policy.offside.None? || !st.lineStart then st
    else
      var o := l.policy.offside.value;
      var indent := Indentation(s, o.unit, st.pos, 0, false);
      var diags := st.diags + if indent.2 then [Diag(DisallowedIndentUnit, st.pos, indent.0)] else [];
      if BlankLine(s, l, indent.0) then st.(pos := indent.0, diags := diags)
      else
        var a := Align(st.stack, indent.1, indent.0, o.dedentOnEqual);
        st.(pos := indent.0, stack := a.0, toks := st.toks + a.1, diags := diags + a.2)
  }

  // ----- line ends

  /** `maybe_emit_auto_semicolon`. */
  function AutoSemicolon(l: Lang, st: State): seq<Token> {
    if l.policy.autoSemi.None? || !st.significant || st.lastSig >= |st.toks|
       || !l.policy.autoSemi.value.isTerminating(st.toks[st.lastSig]) then []
    else [Token(l.policy.autoSemi.value.emitKind, st.pos, st.pos, l.policy.autoSemi.value.emitV)]
  }

  /** `finish_physical_line`. */
  function FinishLine(s: Bytes, l: Lang, st: State): (r: State)
    requires st.pos <= |s| && NewlineAt(s, l, st.pos) != 0
    ensures st.pos < r.pos <= |s|
  {
    var n := NewlineAt(s, l, st.pos);
    var newline := if l.policy.emitNewlines || (l.policy.offside.Some? && st.significant)
                   then [Token(NEWLINE, st.pos, st.pos + n, 0)] else [];
    st.(pos := st.pos + n, toks := st.toks + (AutoSemicolon(l, st) + newline), lineStart := true, significant := false)
  }

  /** `drain_indentation`: a DEDENT for every open level. */
  function Drain(levels: nat, pos: nat): seq<Token> {
    if levels == 0 then [] else [Dedent(pos)] + Drain(levels - 1, pos)
  }

  /** The tokens `finish_eof_layout` puts out for the last line. */
  function EndLine(l: Lang, st: State): seq<Token> {
    AutoSemicolon(l, st)
    + if l.policy.offside.Some? && st.significant then [Token(NEWLINE, st.pos, st.pos, 0)] else []
  }

  /** And those for the levels still open. */
  function EndDedents(l: Lang, st: State): seq<Token>
    requires st.stack != []
  {
    if l.policy.offside.Some? then Drain(|st.stack| - 1, st.pos) else []
  }

  /** What the end of the text adds before EOF. */
  function EndTokens(l: Lang, st: State): seq<Token>
    requires st.stack != []
  {
    if NewlineAware(l) then EndLine(l, st) + EndDedents(l, st) else []
  }

  // ----- tokens of a line

  /** The index of the last significant token from index `first` on. */
  function LastSignificant(toks: seq<Token>, first: nat): (i: Option<nat>)
    ensures i.Some? ==> first <= i.value < |toks|
  {
    if |toks| <= first then None
    else if IsSignificant(toks[|toks| - 1].kind) then Some(|toks| - 1)
    else LastSignificant(toks[..|toks| - 1], first)
  }

  /** One token, or an INVALID one over a byte no scanner takes. */
  function TakeToken(s: Bytes, l: Lang, st: State): (r: State)
    requires st.pos < |s|
    ensures st.pos < r.pos <= |s|
  {
    var out := TokenOrInvalid(s, l, 0, st.pos);
    var toks := st.toks + out.toks;
    var last := LastSignificant(toks, |st.toks|);
    st.(pos := out.pos, toks := toks, diags := st.diags + out.diags, lineStart := false,
        significant := st.significant || last.Some?, lastSig := if last.Some? then last.value else st.lastSig)
  }

  // ----- the whole text

  /** The start of a turn: the layout of a new line, then blanks. */
  function Approach(s: Bytes, l: Lang, st: State): (r: State)
    requires st.pos <= |s| && st.stack != []
    ensures st.pos <= r.pos <= |s| && r.stack != []
  {
    if NewlineAware(l) then
      var started := LineStart(s, l, st);
      started.(pos := SkipInline(s, started.pos))
    else st.(pos := SkipSpace(s, l, st.pos))
  }

  /** The loop of `kavak_lex`. */
  function Turns(s: Bytes, l: Lang, st: State): (r: State)
    requires st.pos <= |s| && st.stack != []
    ensures st.pos <= r.pos <= |s| && r.stack != []
    decreases |s| - st.pos
  {
    if |st.toks| >= TOKEN_LIMIT then st.(diags := st.diags + [Diag(TokenLimit, st.pos, st.pos)])
    else
      var a := Approach(s, l, st);
      if a.pos == |s| then a
      else if NewlineAware(l) && NewlineAt(s, l, a.pos) != 0 then Turns(s, l, FinishLine(s, l, a))
      else Turns(s, l, TakeToken(s, l, a))
  }

  /** `kavak_lex` on valid arguments: all tokens, the last one EOF, and all diagnostics. */
  function Lex(s: Bytes, l: Lang): (seq<Token>, seq<Diag>) {
    var st := Turns(s, l, INITIAL);
    (st.toks + EndTokens(l, st) + [Token(EOF, st.pos, st.pos, 0)], st.diags)
  }

  lemma SameStack(s: Bytes, l: Lang, st: State)
    requires st.pos < |s|
    ensures TakeToken(s, l, st).stack == st.stack
    ensures NewlineAt(s, l, st.pos) != 0 ==> FinishLine(s, l, st).stack == st.stack
  {
  }

  /** Lexing is independent of the order of the tables. */
  lemma LexIgnoresOrder(s: Bytes, t: Tables, u: Tables, policy: Policy)
    requires Reordered(t, u) && DistinctSpellings(t)
    ensures Lex(s, Canonical(t, policy)) == Lex(s, Canonical(u, policy))
  {
    CanonicalIgnoresOrder(t, u, policy);
  }
}
