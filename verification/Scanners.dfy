/**
 What one token's worth of text is to the scanners of `src/lexer.c`: for every place in
 the text, the tokens and diagnostics they produce and where they stop.
*/
module Scanners {
  import opened Options
  import opened Machine
  import opened Utf8
  import opened LexConfig
  import Source

  const MAX_INTERP_DEPTH: nat := 64

  /** What a scanner that claimed the input did; `None` stands for SCAN_NO_MATCH. */
  datatype Out = Out(pos: nat, toks: seq<Token>, diags: seq<Diag>)
  type Scan = Option<Out>

  /** `emit_invalid`. */
  function Invalid(start: nat, pos: nat, message: Message): Out {
    Out(pos, [Token(INVALID, start, pos, 0)], [Diag(message, start, pos)])
  }

  function Before(toks: seq<Token>, diags: seq<Diag>, out: Out): Out {
    Out(out.pos, toks + out.toks, diags + out.diags)
  }

  // ----- characters

  /** `peek`. */
  function Peek(s: Bytes, pos: nat): Byte {
    if pos < |s| then s[pos] else 0
  }

  function PeekCp(s: Bytes, pos: nat): (d: Option<Decoded>)
    ensures d.Some? ==> 1 <= d.value.len <= 4 && pos + d.value.len <= |s|
  {
    if pos > |s| then None
    else
      Rfc3629(s[pos..])
  }

  predicate IsInlineSpace(c: Byte) {
    c == 0x20 || c == 0x09 || c == 0x0C || c == 0x0B
  }

  function NewlineAt(s: Bytes, l: Lang, pos: nat): (n: nat)
    ensures n > 0 ==> pos + n <= |s|
  {
    Source.NewlineLen(s, pos, l.policy.newlines)
  }

  /** `skip_inline_whitespace`. */
  function SkipInline(s: Bytes, pos: nat): (end: nat)
    requires pos <= |s|
    ensures pos <= end <= |s|
    decreases |s| - pos
  {
    if pos < |s| && IsInlineSpace(s[pos]) then SkipInline(s, pos + 1) else pos
  }

  /** `skip_whitespace`. */
  function SkipSpace(s: Bytes, l: Lang, pos: nat): (end: nat)
    requires pos <= |s|
    ensures pos <= end <= |s|
    decreases |s| - pos
  {
    if pos == |s| then pos
    else
      var n := NewlineAt(s, l, pos);
      if n != 0 then SkipSpace(s, l, pos + n)
      else if IsInlineSpace(s[pos]) then SkipSpace(s, l, pos + 1)
      else pos
  }

  // ----- identifiers

  function IdentEnd(s: Bytes, l: Lang, pos: nat): (end: nat)
    requires pos <= |s|
    ensures pos <= end <= |s|
    decreases |s| - pos
  {
    var d := PeekCp(s, pos);
    if d.None? || !l.policy.isIdentCont(d.value.cp) then pos else IdentEnd(s, l, pos + d.value.len)
  }

  /** A keyword's text names its id; a soft keyword stays an identifier that carries the id. */
  function IdentToken(s: Bytes, l: Lang, start: nat, end: nat): Token
    requires start <= end <= |s|
  {
    var text := s[start..end];
    if text in l.keywords then
      Token(if l.keywords[text] in l.soft then IDENT else KEYWORD, start, end, l.keywords[text])
    else Token(IDENT, start, end, 0)
  }

  /** `try_scan_identifier`. */
  function ScanIdent(s: Bytes, l: Lang, pos: nat): (r: Scan)
    requires pos <= |s|
    ensures r.Some? ==> pos < r.value.pos <= |s|
  {
    var d := PeekCp(s, pos);
    if d.None? || !l.policy.isIdentStart(d.value.cp) then None
    else
      var end := IdentEnd(s, l, pos + d.value.len);
      Some(Out(end, [IdentToken(s, l, pos, end)], []))
  }

  // ----- numbers

  function DigitValue(c: Byte): int {
    if 0x30 <= c <= 0x39 then (c - 0x30) as int
    else if 0x61 <= c <= 0x66 then 10 + (c - 0x61) as int
    else if 0x41 <= c <= 0x46 then 10 + (c - 0x41) as int
    else -1
  }

  predicate DigitAt(s: Bytes, pos: nat, base: nat) {
    pos < |s| && 0 <= DigitValue(s[pos]) < base
  }

  const UNDERSCORE: Byte := 0x5F
  const DOT: Byte := 0x2E

  function UnderscoreEnd(s: Bytes, pos: nat): (end: nat)
    requires pos <= |s|
    ensures pos <= end <= |s|
    ensures pos < |s| && s[pos] == UNDERSCORE ==> pos < end
    decreases |s| - pos
  {
    if pos < |s| && s[pos] == UNDERSCORE then UnderscoreEnd(s, pos + 1) else pos
  }

  /** `scan_digits`: where it stops, and whether it saw a digit. A run of underscores counts only between digits. */
  function Digits(s: Bytes, base: nat, underscores: bool, pos: nat, any: bool): (r: (nat, bool))
    requires pos <= |s|
    ensures pos <= r.0 <= |s|
    decreases |s| - pos
  {
    if DigitAt(s, pos, base) then Digits(s, base, underscores, pos + 1, true)
    else if pos < |s| && s[pos] == UNDERSCORE && underscores && any && DigitAt(s, UnderscoreEnd(s, pos), base) then
      Digits(s, base, underscores, UnderscoreEnd(s, pos), true)
    else (pos, any)
  }

  predicate IsSign(c: Byte) {
    c == 0x2B || c == 0x2D
  }

  /** `exponent_starts_here`. */
  predicate ExponentAt(s: Bytes, pos: nat) {
    && (Peek(s, pos) == 0x65 || Peek(s, pos) == 0x45)
    && DigitAt(s, if IsSign(Peek(s, pos + 1)) then pos + 2 else pos + 1, 10)
  }

  /** `consume_number_suffix`. */
  function SuffixEnd(s: Bytes, l: Lang, pos: nat): (end: nat)
    requires pos <= |s|
    ensures pos <= end <= |s|
  {
    var suffix := Longest(l.suffixes, s, pos);
    if suffix.None? then pos
    else
      var after := pos + |suffix.value|;
      var d := PeekCp(s, after);
      if l.policy.numbers.suffixBoundary && d.Some? && l.policy.isIdentCont(d.value.cp) then pos else after
  }

  /** `emit_number`. */
  function NumberOut(s: Bytes, l: Lang, start: nat, kind: nat, pos: nat): (r: Out)
    requires start < pos <= |s|
    ensures start < r.pos <= |s|
  {
    var end := SuffixEnd(s, l, pos);
    var bad := IdentEnd(s, l, end);
    if l.policy.numbers.strict && end < bad then Invalid(start, bad, MalformedNumber)
    else Out(end, [Token(kind, start, end, 0)], [])
  }

  function BaseOf(n: NumberStyle, marker: Byte): nat {
    if (marker == 0x78 || marker == 0x58) && n.hex then 16
    else if (marker == 0x6F || marker == 0x4F) && n.oct then 8
    else if (marker == 0x62 || marker == 0x42) && n.bin then 2
    else 0
  }

  /** The digits of a decimal literal, its fraction and its exponent: the kind and where it ends. */
  function Decimal(s: Bytes, l: Lang, pos: nat, leadingDot: bool): (r: (nat, nat))
    requires pos < |s|
    requires if leadingDot then DigitAt(s, pos + 1, 10) else DigitAt(s, pos, 10)
    ensures pos < r.1 <= |s| && (r.0 == INT || r.0 == FLOAT)
  {
    var n := l.policy.numbers;
    var whole := if leadingDot then pos else Digits(s, 10, n.underscores, pos, false).0;
    var fraction := leadingDot || (n.float && Peek(s, whole) == DOT && DigitAt(s, whole + 1, 10));
    var mantissa := if fraction then Digits(s, 10, n.underscores, whole + 1, false).0 else whole;
    if n.exponent && ExponentAt(s, mantissa) then
      (FLOAT, Digits(s, 10, n.underscores, mantissa + (if IsSign(Peek(s, mantissa + 1)) then 2 else 1), false).0)
    else (if fraction then FLOAT else INT, mantissa)
  }

  /** `try_scan_number`. */
  function ScanNumber(s: Bytes, l: Lang, pos: nat): (r: Scan)
    requires pos < |s|
    ensures r.Some? ==> pos < r.value.pos <= |s|
  {
    var n := l.policy.numbers;
    var leadingDot := n.leadingDot && n.float && s[pos] == DOT && DigitAt(s, pos + 1, 10);
    if !leadingDot && !DigitAt(s, pos, 10) then None
    else
      var base := if !leadingDot && s[pos] == 0x30 && pos + 1 < |s| then BaseOf(n, s[pos + 1]) else 0;
      if base != 0 then
        var digits := Digits(s, base, n.underscores, pos + 2, false);
        if !digits.1 then Some(Invalid(pos, digits.0, MalformedNumber))
        else Some(NumberOut(s, l, pos, INT, digits.0))
      else
        var d := Decimal(s, l, pos, leadingDot);
        Some(NumberOut(s, l, pos, d.0, d.1))
  }

  // ----- comments

  function LineEnd(s: Bytes, l: Lang, pos: nat): (end: nat)
    requires pos <= |s|
    ensures pos <= end <= |s|
    decreases |s| - pos
  {
    if pos == |s| || NewlineAt(s, l, pos) != 0 then pos else LineEnd(s, l, pos + 1)
  }

  /** Where a block comment ends, and how many levels are still open there. */
  function BlockEnd(s: Bytes, open: Spelling, close: Spelling, nest: bool, depth: nat, pos: nat): (r: (nat, nat))
    requires pos <= |s| && depth > 0
    ensures pos <= r.0 <= |s|
    decreases |s| - pos
  {
    if pos == |s| then (pos, depth)
    else if nest && Matches(s, pos, open) then BlockEnd(s, open, close, nest, depth + 1, pos + |open|)
    else if Matches(s, pos, close) then
      if depth == 1 then (pos + |close|, 0) else BlockEnd(s, open, close, nest, depth - 1, pos + |close|)
    else BlockEnd(s, open, close, nest, depth, pos + 1)
  }

  /** Where the comment opened by `open` ends, and whether it is closed there. */
  function CommentEnd(s: Bytes, l: Lang, open: Spelling, style: CommentStyle, pos: nat): (r: (nat, bool))
    requires pos <= |s|
    ensures pos <= r.0 <= |s|
  {
    if style.close == LINE_END then (LineEnd(s, l, pos), true)
    else
      var end := BlockEnd(s, open, style.close, style.nest, 1, pos);
      (end.0, end.1 == 0)
  }

  /** `try_scan_comment`. */
  function ScanComment(s: Bytes, l: Lang, pos: nat): (r: Scan)
    requires pos <= |s|
    ensures r.Some? ==> pos < r.value.pos <= |s|
  {
    var open := Longest(l.comments.Keys, s, pos);
    if open.None? then None
    else
      var style := l.comments[open.value];
      var end := CommentEnd(s, l, open.value, style, pos + |open.value|);
      if !end.1 then Some(Invalid(pos, end.0, UnterminatedComment))
      else if l.policy.keepAll || (style.isDoc && l.policy.keepDoc) then
        Some(Out(end.0, [Token(COMMENT, pos, end.0, 0)], []))
      else Some(Out(end.0, [], []))
  }

  // ----- operators and punctuation

  predicate IsKernelPunct(c: Byte) {
    || c == 0x28 || c == 0x29 || c == 0x5B || c == 0x5D || c == 0x7B || c == 0x7D
    || c == 0x2C || c == 0x3B || c == 0x3A || c == 0x2E
  }

  /** `try_scan_operator`. */
  function ScanOperator(s: Bytes, l: Lang, pos: nat): (r: Scan)
    requires pos <= |s|
    ensures r.Some? ==> pos < r.value.pos <= |s|
  {
    var op := Longest(l.operators.Keys, s, pos);
    if op.Some? then
      Some(Out(pos + |op.value|, [Token(OP, pos, pos + |op.value|, l.operators[op.value])], []))
    else if IsKernelPunct(Peek(s, pos)) then Some(Out(pos + 1, [Token(PUNCT, pos, pos + 1, s[pos] as nat)], []))
    else None
  }
}
