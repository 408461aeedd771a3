/**
 The cases of the token scanners, one small statement each, for the inductions over
 literals and interpolations.
*/
module TokenCases {
  import opened Options
  import opened Machine
  import opened LexConfig
  import opened Scanners
  import opened TokenScan

  /** Of those, only strings yield anything but at most one token over all they scan. */
  predicate IsSimple(out: Out, pos: nat) {
    if |out.diags| == 1 then
      out == Invalid(pos, out.pos, out.diags[0].message) && IsScannerMessage(out.diags[0].message)
    else out.diags == [] && (out.toks == [] || IsOne(out.toks, pos, out.pos))
  }

  predicate IsOne(toks: seq<Token>, start: nat, end: nat) {
    |toks| == 1 && toks[0].start == start && toks[0].end == end && IsScannerKind(toks[0].kind)
  }

  predicate IsScannerMessage(m: Message) {
    m == MalformedNumber || m == UnterminatedComment
  }

  /** The kinds the scanners choose themselves. */
  predicate IsScannerKind(kind: nat) {
    kind == IDENT || kind == KEYWORD || kind == INT || kind == FLOAT || kind == OP || kind == PUNCT || kind == COMMENT
  }

  lemma NumberIsSimple(s: Bytes, l: Lang, pos: nat)
    requires pos < |s|
    ensures ScanNumber(s, l, pos).Some? ==> IsSimple(ScanNumber(s, l, pos).value, pos)
  {
    hide Digits, SuffixEnd, IdentEnd, Decimal;
  }

  lemma TokenIsSimpleOrString(s: Bytes, l: Lang, depth: nat, pos: nat)
    requires pos < |s|
    ensures var r := ScanToken(s, l, depth, pos);
            r.None? || r == ScanString(s, l, depth, pos) || IsSimple(r.value, pos)
  {
    NumberIsSimple(s, l, pos);
    hide *;
  }

  lemma StringIsBody(s: Bytes, l: Lang, depth: nat, pos: nat) returns (open: Bytes)
    requires pos < |s| && ScanString(s, l, depth, pos).Some?
    ensures open in l.strings && |open| > 0 && pos + |open| <= |s|
    ensures Longest(l.strings.Keys, s, pos) == Some(open)
    ensures ScanString(s, l, depth, pos)
            == Some(StringBody(s, l, open, l.strings[open], depth, pos, pos, false, pos + |open|))
  {
    hide StringBody, LongestUpTo;
    open := Longest(l.strings.Keys, s, pos).value;
  }

  // ----- the loop over a literal

  predicate IsTemplate(r: StringStyle) {
    r.template && r.interpOpen.Some?
  }

  /** The token that closes a literal. */
  function Tail(open: Bytes, r: StringStyle, from: nat, had: bool, end: nat): Token {
    var tagged := had && r.fragmentKind != 0;
    Token(if tagged then r.fragmentKind else CloseKind(open, r), from, end, if tagged then 3 else 0)
  }

  datatype Case = Stop(end: nat) | Close | Enter | Step(next: nat, diags: seq<Diag>)

  /** What the loop does at `pos`. */
  function CaseAt(s: Bytes, l: Lang, e: StringEntry, pos: nat): (c: Case)
    requires pos <= |s|
    ensures c.Step? ==> pos < c.next <= |s|
    ensures c.Stop? ==> pos <= c.end <= |s|
    ensures c.Enter? <==> (pos < |s| && InterpolationAt(s, l, e.style, pos) && !c.Stop? && !c.Close?)
    ensures c.Close? ==> pos + |e.style.close| <= |s|
  {
    var r := e.style;
    if pos == |s| || (!AllowsNewline(r) && IsLineBreak(s[pos])) then Stop(pos)
    else if Matches(s, pos, r.close) then Close
    else if InterpolationAt(s, l, r, pos) then Enter
    else if !r.raw && s[pos] == BACKSLASH && (pos + 1 == |s| || (!AllowsNewline(r) && IsLineBreak(s[pos + 1]))) then
      Stop(pos + 1)
    else
      var step := if !r.raw && s[pos] == BACKSLASH then Escape(s, e, pos) else Plain(s, pos);
      Step(step.pos, step.diags)
  }

  lemma BodyStops(s: Bytes, l: Lang, open: Bytes, e: StringEntry, depth: nat, start: nat, from: nat, had: bool,
                  pos: nat)
    requires pos <= |s| && CaseAt(s, l, e, pos).Stop?
    ensures StringBody(s, l, open, e, depth, start, from, had, pos)
            == Invalid(from, CaseAt(s, l, e, pos).end, UnterminatedString)
  {
    hide Interpolation, InterpolationAt;
  }

  lemma BodyCloses(s: Bytes, l: Lang, open: Bytes, e: StringEntry, depth: nat, start: nat, from: nat, had: bool,
                   pos: nat)
    requires pos <= |s| && CaseAt(s, l, e, pos).Close?
    ensures var end := pos + |e.style.close|;
            StringBody(s, l, open, e, depth, start, from, had, pos)
            == Out(end, [Tail(open, e.style, from, had, end)], [])
  {
    hide Interpolation, InterpolationAt, Escape, Plain;
  }

  lemma BodyEnters(s: Bytes, l: Lang, open: Bytes, e: StringEntry, depth: nat, start: nat, from: nat, had: bool,
                   pos: nat)
    requires pos <= |s| && CaseAt(s, l, e, pos).Enter?
    ensures var i := Interpolation(s, l, e.style, depth, pos);
            var head := Fragment(e.style, start, from, pos);
            StringBody(s, l, open, e, depth, start, from, had, pos)
            == if !i.ok then Before(head, [], i.out)
               else Before(head + i.out.toks, i.out.diags,
                           StringBody(s, l, open, e, depth, start, i.out.pos, true, i.out.pos))
  {
    hide Interpolation, InterpolationAt, Escape, Plain, Fragment;
  }

  lemma BodySteps(s: Bytes, l: Lang, open: Bytes, e: StringEntry, depth: nat, start: nat, from: nat, had: bool,
                  pos: nat)
    requires pos <= |s| && CaseAt(s, l, e, pos).Step?
    ensures var c := CaseAt(s, l, e, pos);
            StringBody(s, l, open, e, depth, start, from, had, pos)
            == Before([], c.diags, StringBody(s, l, open, e, depth, start, from, had, c.next))
  {
    hide Interpolation, InterpolationAt, Escape, Plain;
  }

  // ----- the loop over an expression

  predicate EndsHere(s: Bytes, close: Bytes, pairs: nat, at: nat) {
    at >= |s| || (pairs == 0 && ClosesAt(s, close, at))
  }

  lemma LoopEnds(s: Bytes, l: Lang, start: nat, close: Bytes, closeKind: nat, depth: nat, pairs: nat, pos: nat)
    requires start < pos <= |s| && EndsHere(s, close, pairs, InterpSpace(s, l, pos).pos)
    ensures var space := InterpSpace(s, l, pos);
            ExpressionFrom(s, l, start, close, closeKind, depth, pairs, pos)
            == if space.pos == |s|
               then Interp(Before(space.toks, [], Invalid(start, space.pos, UnterminatedInterpolation)), false)
               else Interp(Out(space.pos + |close|,
                               space.toks + Marker(closeKind, space.pos, space.pos + |close|), []), true)
  {
    hide InterpSpace, ScanToken, TokenOrInvalid, PairsAfter, ClosesAt;
  }

  lemma LoopTurns(s: Bytes, l: Lang, start: nat, close: Bytes, closeKind: nat, depth: nat, pairs: nat, pos: nat)
    returns (left: nat)
    requires start < pos <= |s| && !EndsHere(s, close, pairs, InterpSpace(s, l, pos).pos)
    ensures InterpSpace(s, l, pos).pos < |s|
    ensures var at := InterpSpace(s, l, pos).pos;
            left == PairsAfter(s, close, pairs, at, ScanToken(s, l, depth, at).Some?)
    ensures var space := InterpSpace(s, l, pos);
            var out := TokenOrInvalid(s, l, depth, space.pos);
            var rest := ExpressionFrom(s, l, start, close, closeKind, depth, left, out.pos);
            ExpressionFrom(s, l, start, close, closeKind, depth, pairs, pos)
            == Interp(Before(space.toks + out.toks, out.diags, rest.out), rest.ok)
  {
    hide InterpSpace, ScanToken, TokenOrInvalid, PairsAfter, ClosesAt;
    var at := InterpSpace(s, l, pos).pos;
    left := PairsAfter(s, close, pairs, at, ScanToken(s, l, depth, at).Some?);
  }
}
