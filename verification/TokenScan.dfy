/**
 String literals of `src/lexer.c` with interpolation, and the scanner dispatch: a string
 holds expressions, which hold tokens, which may be strings.
*/
module TokenScan {
  import opened Options
  import opened Machine
  import opened Utf8
  import opened LexConfig
  import opened Scanners

  const DOLLAR: Bytes := [0x24]
  const BRACE_OPEN: Bytes := [0x7B]
  const BRACE_CLOSE: Bytes := [0x7D]
  const BACKSLASH: Byte := 0x5C
  const QUOTE: Bytes := [0x27]

  predicate IsLineBreak(c: Byte) {
    c == 0x0A || c == 0x0D
  }

  /** `string_rule_allows_newline`. */
  predicate AllowsNewline(r: StringStyle) {
    r.triple || r.multiline
  }

  /** `string_rule_close_kind`. */
  function CloseKind(open: Bytes, r: StringStyle): nat {
    if r.isIdent then IDENT
    else if r.isChar || (open == QUOTE && r.close == QUOTE && !r.triple && !r.multiline && !r.template) then CHAR
    else STRING
  }

  /** `utf8_recovery_len`. */
  function RecoveryLength(s: Bytes, pos: nat): (n: nat)
    requires pos < |s|
    ensures 1 <= n && pos + n <= |s|
  {
    var expected := if LeadLength(s[pos]) == 0 then 1 else LeadLength(s[pos]);
    if expected < |s| - pos then expected else |s| - pos
  }

  /** `interp_marker_starts_interpolation`. */
  predicate StartsInterpolation(s: Bytes, l: Lang, r: StringStyle, pos: nat)
    requires r.interpOpen.Some?
  {
    var after := pos + |r.interpOpen.value|;
    || r.interpClose.Some?
    || (after < |s| && (s[after] == BRACE_OPEN[0]
                        || (PeekCp(s, after).Some? && l.policy.isIdentStart(PeekCp(s, after).value.cp))))
  }

  /** An interpolation begins here. */
  predicate InterpolationAt(s: Bytes, l: Lang, r: StringStyle, pos: nat) {
    r.template && r.interpOpen.Some? && Matches(s, pos, r.interpOpen.value) && StartsInterpolation(s, l, r, pos)
  }

  /** `paired_open_for_close`. */
  function PairedOpen(close: Bytes): Option<Bytes> {
    if close == BRACE_CLOSE then Some(BRACE_OPEN)
    else if close == [0x29] then Some([0x28])
    else if close == [0x5D] then Some([0x5B])
    else None
  }

  /** The part of a literal before an interpolation: 1 marks its head, 2 a later part. */
  function Fragment(r: StringStyle, start: nat, from: nat, to: nat): seq<Token> {
    if from >= to then []
    else if r.fragmentKind == 0 then [Token(STRING, from, to, 0)]
    else [Token(r.fragmentKind, from, to, if from == start then 1 else 2)]
  }

  function Marker(kind: nat, from: nat, to: nat): seq<Token> {
    if kind == 0 then [] else [Token(kind, from, to, 0)]
  }

  /** `skip_interpolation_whitespace`: newlines are kept as tokens if the language wants them. */
  function InterpSpace(s: Bytes, l: Lang, pos: nat): (r: Out)
    requires pos <= |s|
    ensures pos <= r.pos <= |s| && r.diags == []
    decreases |s| - pos
  {
    if pos == |s| then Out(pos, [], [])
    else
      var n := NewlineAt(s, l, pos);
      if n != 0 then
        Before(if l.policy.emitNewlines then [Token(NEWLINE, pos, pos + n, 0)] else [], [], InterpSpace(s, l, pos + n))
      else if IsInlineSpace(s[pos]) then InterpSpace(s, l, pos + 1)
      else Out(pos, [], [])
  }

  /** An interpolation as scanned, and whether it ended well; after a failure the literal is given up. */
  datatype Interp = Interp(out: Out, ok: bool)

  // ----- one token

  /** `scan_token`, inside `depth` interpolations. */
  function ScanToken(s: Bytes, l: Lang, depth: nat, pos: nat): (r: Scan)
    requires pos < |s|
    ensures r.Some? ==> pos < r.value.pos <= |s|
    decreases |s| - pos, 3
  {
    var comment := ScanComment(s, l, pos);
    if comment.Some? then comment
    else
      var str := ScanString(s, l, depth, pos);
      if str.Some? then str
      else
        var number := ScanNumber(s, l, pos);
        if number.Some? then number
        else
          var ident := ScanIdent(s, l, pos);
          if ident.Some? then ident else ScanOperator(s, l, pos)
  }

  /** What the text at `pos` yields: one token, or an INVALID one over a byte no scanner takes. */
  function TokenOrInvalid(s: Bytes, l: Lang, depth: nat, pos: nat): (r: Out)
    requires pos < |s|
    ensures pos < r.pos <= |s|
    decreases |s| - pos, 4
  {
    var scanned := ScanToken(s, l, depth, pos);
    if scanned.Some? then scanned.value else Invalid(pos, pos + 1, UnknownCharacter)
  }

  /** `try_scan_string`. */
  function ScanString(s: Bytes, l: Lang, depth: nat, pos: nat): (r: Scan)
    requires pos < |s|
    ensures r.Some? ==> pos < r.value.pos <= |s|
    decreases |s| - pos, 2
  {
    var open := Longest(l.strings.Keys, s, pos);
    if open.None? then None
    else
      Some(StringBody(s, l, open.value, l.strings[open.value], depth, pos, pos, false, pos + |open.value|))
  }

  /** Its loop, from `pos` on: the literal starts at `start`, the current fragment at `from`. */
  function StringBody(s: Bytes, l: Lang, open: Bytes, e: StringEntry, depth: nat, start: nat, from: nat, had: bool,
                      pos: nat): (r: Out)
    requires pos <= |s|
    ensures pos <= r.pos <= |s|
    decreases |s| - pos, 1
  {
    var r := e.style;
    if pos == |s| then Invalid(from, pos, UnterminatedString)
    else if !AllowsNewline(r) && IsLineBreak(s[pos]) then Invalid(from, pos, UnterminatedString)
    else if Matches(s, pos, r.close) then
      var end := pos + |r.close|;
      var tagged := had && r.fragmentKind != 0;
      Out(end, [Token(if tagged then r.fragmentKind else CloseKind(open, r), from, end, if tagged then 3 else 0)], [])
    else if InterpolationAt(s, l, r, pos) then
      var i := Interpolation(s, l, r, depth, pos);
      var head := Fragment(r, start, from, pos);
      if !i.ok then Before(head, [], i.out)
      else
        Before(head + i.out.toks, i.out.diags, StringBody(s, l, open, e, depth, start, i.out.pos, true, i.out.pos))
    else if !r.raw && s[pos] == BACKSLASH && (pos + 1 == |s| || (!AllowsNewline(r) && IsLineBreak(s[pos + 1]))) then
      Invalid(from, pos + 1, UnterminatedString)
    else
      var step := if !r.raw && s[pos] == BACKSLASH then Escape(s, e, pos) else Plain(s, pos);
      Before([], step.diags, StringBody(s, l, open, e, depth, start, from, had, step.pos))
  }

  /** One character of the literal. */
  function Plain(s: Bytes, pos: nat): (r: Out)
    requires pos < |s|
    ensures pos < r.pos <= |s| && r.toks == []
  {
    var d := PeekCp(s, pos);
    if d.Some? then Out(pos + d.value.len, [], [])
    else Out(pos + 1, [], if s[pos] >= 0x80 then [Diag(InvalidUtf8, pos, pos + 1)] else [])
  }

  /** A backslash and the character after it. */
  function Escape(s: Bytes, e: StringEntry, pos: nat): (r: Out)
    requires pos + 1 < |s|
    ensures pos + 1 < r.pos <= |s| && r.toks == []
  {
    var c := s[pos + 1];
    var d := PeekCp(s, pos + 1);
    var good := c < 0x80 || d.Some?;
    var n := if c < 0x80 then 1 else if d.Some? then d.value.len else RecoveryLength(s, pos + 1);
    Out(pos + 1 + n, [],
        (if good then [] else [Diag(InvalidUtf8, pos + 1, pos + 1 + n)])
        + (if c in e.escapes then [] else [Diag(InvalidEscape, pos, pos + 1 + n)]))
  }

  /** `scan_string_interpolation`: with a closing mark of its own, as `${...}`, or as a bare `$name`. */
  function Interpolation(s: Bytes, l: Lang, r: StringStyle, depth: nat, start: nat): (i: Interp)
    requires InterpolationAt(s, l, r, start)
    ensures start < i.out.pos <= |s|
    decreases |s| - start, 0
  {
    var pos := start + |r.interpOpen.value|;
    if r.interpClose.Some? then
      Marked(r.interpOpenKind, start, pos, Expression(s, l, start, r.interpClose.value, r.interpCloseKind, depth, pos))
    else if r.interpOpen.value == DOLLAR && Matches(s, pos, BRACE_OPEN) then
      Marked(r.interpOpenKind, start, pos + 1, Expression(s, l, start, BRACE_CLOSE, r.interpCloseKind, depth, pos + 1))
    else
      var name := ScanIdent(s, l, pos);
      if name.None? then Interp(Invalid(start, pos, ExpectedIdentifier), false)
      else if r.bareIdentKind == 0 then Interp(name.value, true)
      else Interp(Out(name.value.pos, [Token(r.bareIdentKind, start, name.value.pos, 0)], []), true)
  }

  function Marked(kind: nat, from: nat, to: nat, i: Interp): Interp {
    Interp(Before(Marker(kind, from, to), [], i.out), i.ok)
  }

  /** `scan_interpolation_expression`. */
  function Expression(s: Bytes, l: Lang, start: nat, close: Bytes, closeKind: nat, depth: nat, pos: nat): (i: Interp)
    requires start < pos <= |s|
    ensures pos <= i.out.pos <= |s|
    decreases |s| - pos, 6
  {
    if depth >= MAX_INTERP_DEPTH then Interp(Invalid(start, pos, InterpolationTooDeep), false)
    else ExpressionFrom(s, l, start, close, closeKind, depth + 1, 0, pos)
  }

  /** Its loop: `pairs` openers of the closing mark's kind are still to be closed. */
  function ExpressionFrom(s: Bytes, l: Lang, start: nat, close: Bytes, closeKind: nat, depth: nat, pairs: nat, pos: nat)
    : (i: Interp)
    requires start < pos <= |s|
    ensures pos <= i.out.pos <= |s|
    decreases |s| - pos, 5
  {
    var space := InterpSpace(s, l, pos);
    var at := space.pos;
    if at == |s| then Interp(Before(space.toks, [], Invalid(start, at, UnterminatedInterpolation)), false)
    else if pairs == 0 && ClosesAt(s, close, at) then
      Interp(Out(at + |close|, space.toks + Marker(closeKind, at, at + |close|), []), true)
    else
      var out := TokenOrInvalid(s, l, depth, at);
      var left := PairsAfter(s, close, pairs, at, ScanToken(s, l, depth, at).Some?);
      var rest := ExpressionFrom(s, l, start, close, closeKind, depth, left, out.pos);
      Interp(Before(space.toks + out.toks, out.diags, rest.out), rest.ok)
  }

  predicate ClosesAt(s: Bytes, close: Bytes, pos: nat) {
    |close| > 0 && Matches(s, pos, close)
  }

  /** How many pairs are open after the token at `at`. */
  function PairsAfter(s: Bytes, close: Bytes, pairs: nat, at: nat, matched: bool): nat {
    if !matched then pairs
    else if PairedOpen(close).Some? && Matches(s, at, PairedOpen(close).value) then pairs + 1
    else if pairs > 0 && ClosesAt(s, close, at) then pairs - 1
    else pairs
  }
}
