/**
 What literals, comments, operators and interpolated expressions look like, said byte by
 byte without the functions of the scanners.
*/
module LiteralFacts {
  import opened Options
  import opened Machine
  import opened LexConfig
  import opened Scanners
  import opened TokenScan
  import opened TokenCases
  import opened ScannerFacts

  // ----- literals

  /** A line break that may not stand in the literal. */
  predicate Breaks(r: StringStyle, c: Byte) {
    !(r.triple || r.multiline) && (c == 0x0A || c == 0x0D)
  }

  /** The bytes of the character at `pos`; one byte where it is ill-formed. */
  function CharEnd(s: Bytes, pos: nat): (end: nat)
    requires pos < |s|
    ensures pos < end <= |s|
  {
    if PeekCp(s, pos).Some? then pos + PeekCp(s, pos).value.len else pos + 1
  }

  /** How many bytes the first byte of a character announces; those that may start none announce themselves. */
  function Announced(c: Byte): (n: nat)
    ensures n > 0
  {
    if 0xC2 <= c <= 0xDF then 2 else if 0xE0 <= c <= 0xEF then 3 else if 0xF0 <= c <= 0xF4 then 4 else 1
  }

  /** The end of the character behind a backslash; an ill-formed one takes what it announces. */
  function EscapedEnd(s: Bytes, pos: nat): (end: nat)
    requires pos < |s|
    ensures pos < end <= |s|
  {
    if s[pos] < 0x80 then pos + 1
    else if PeekCp(s, pos).Some? then pos + PeekCp(s, pos).value.len
    else if pos + Announced(s[pos]) <= |s| then pos + Announced(s[pos])
    else |s|
  }

  /** An interpolation begins here: its mark, and before an expression or name if it has no closing mark. */
  predicate Enters(s: Bytes, l: Lang, r: StringStyle, pos: nat) {
    && r.template && r.interpOpen.Some? && Matches(s, pos, r.interpOpen.value)
    && var after := pos + |r.interpOpen.value|;
       || r.interpClose.Some?
       || (after < |s| && s[after] == 0x7B)
       || (PeekCp(s, after).Some? && l.policy.isIdentStart(PeekCp(s, after).value.cp))
  }

  /** One character of a literal, or a backslash with the character behind it. */
  predicate IsUnit(s: Bytes, l: Lang, e: StringEntry, a: nat, b: nat) {
    && a < |s| && !Breaks(e.style, s[a]) && !Matches(s, a, e.style.close) && !Enters(s, l, e.style, a)
    && if s[a] == 0x5C && !e.style.raw
       then a + 1 < |s| && !Breaks(e.style, s[a + 1]) && b == EscapedEnd(s, a + 1)
       else b == CharEnd(s, a)
  }

  predicate IsUtf8At(s: Bytes, pos: nat) {
    pos < |s| && (s[pos] < 0x80 || PeekCp(s, pos).Some?)
  }

  /** What is reported of a unit: an ill-formed character, and an escape the rule does not list. */
  function UnitDiags(s: Bytes, l: Lang, e: StringEntry, a: nat, b: nat): seq<Diag>
    requires IsUnit(s, l, e, a, b)
  {
    if s[a] == 0x5C && !e.style.raw then
      (if IsUtf8At(s, a + 1) then [] else [Diag(InvalidUtf8, a + 1, b)])
      + if s[a + 1] in e.escapes then [] else [Diag(InvalidEscape, a, b)]
    else if IsUtf8At(s, a) then []
    else [Diag(InvalidUtf8, a, b)]
  }

  /** Units from `a` to `b`, one behind the other, with all that is reported of them. */
  ghost predicate IsBody(s: Bytes, l: Lang, e: StringEntry, a: nat, b: nat, diags: seq<Diag>)
    decreases |s| - a
  {
    if a == b then diags == []
    else
      exists m, rest :: a < m <= |s| && IsUnit(s, l, e, a, m) && diags == UnitDiags(s, l, e, a, m) + rest
                        && IsBody(s, l, e, m, b, rest)
  }

  /** The literal closes here. */
  predicate IsClosed(s: Bytes, e: StringEntry, b: nat) {
    b < |s| && !Breaks(e.style, s[b]) && Matches(s, b, e.style.close)
  }

  /** The literal cannot go on here, and ends with the bytes up to `end`. */
  predicate IsCutOff(s: Bytes, l: Lang, e: StringEntry, b: nat, end: nat) {
    || (end == b && (b == |s| || (b < |s| && Breaks(e.style, s[b]))))
    || (end == b + 1 && b < |s| && s[b] == 0x5C && !e.style.raw && !IsClosed(s, e, b) && !Enters(s, l, e.style, b)
        && (b + 1 == |s| || (b + 1 < |s| && Breaks(e.style, s[b + 1]))))
  }

  /** The kind of a literal: an identifier, a character or a string. */
  function LiteralKind(open: Bytes, r: StringStyle): nat {
    if r.isIdent then IDENT
    else if r.isChar then CHAR
    else if open == [0x27] && r.close == [0x27] && !(r.triple || r.multiline || r.template) then CHAR
    else STRING
  }

  /** The last part of a literal, marked as its tail if interpolations came before. */
  function LastPart(open: Bytes, r: StringStyle, from: nat, had: bool, end: nat): Token {
    if had && r.fragmentKind > 0 then Token(r.fragmentKind, from, end, 3)
    else Token(LiteralKind(open, r), from, end, 0)
  }

  /** The part in front of an interpolation, marked as the head or an inner part, unless it is empty. */
  function Part(r: StringStyle, start: nat, from: nat, to: nat): seq<Token> {
    if to <= from then []
    else if r.fragmentKind > 0 then [Token(r.fragmentKind, from, to, if start == from then 1 else 2)]
    else [Token(STRING, from, to, 0)]
  }

  /** What a literal puts out whose current part began at `from` and whose units end at `b`. */
  ghost predicate EndsWith(s: Bytes, l: Lang, open: Bytes, e: StringEntry, depth: nat, start: nat, from: nat, had: bool,
                           b: nat, out: Out)
    decreases |s| - b, 0
  {
    || (&& IsClosed(s, e, b)
        && var end := b + |e.style.close|;
           out == Out(end, [LastPart(open, e.style, from, had, end)], []))
    || (exists end: nat :: IsCutOff(s, l, e, b, end)
                           && out == Out(end, [Token(INVALID, from, end, 0)], [Diag(UnterminatedString, from, end)]))
    || (&& b < |s| && !Breaks(e.style, s[b]) && !IsClosed(s, e, b) && Enters(s, l, e.style, b)
        && InterpolationAt(s, l, e.style, b)
        && var i := Interpolation(s, l, e.style, depth, b);
           var head := Part(e.style, start, from, b);
           if !i.ok then out == Out(i.out.pos, head + i.out.toks, i.out.diags)
           else
             exists rest: Out :: out == Out(rest.pos, head + i.out.toks + rest.toks, i.out.diags + rest.diags)
                            && IsText(s, l, open, e, depth, start, i.out.pos, true, i.out.pos, rest))
  }

  /** What a literal puts out from `pos` on: units, and then its end or an interpolation and the same again. */
  ghost predicate IsText(s: Bytes, l: Lang, open: Bytes, e: StringEntry, depth: nat, start: nat, from: nat, had: bool,
                         pos: nat, out: Out)
    decreases |s| - pos, 1
  {
    exists b: nat, diags, rest: Out :: pos <= b && IsBody(s, l, e, pos, b, diags)
                                       && EndsWith(s, l, open, e, depth, start, from, had, b, rest)
                                       && out == Out(rest.pos, rest.toks, diags + rest.diags)
  }

  lemma EntersAlike(s: Bytes, l: Lang, r: StringStyle, pos: nat)
    ensures Enters(s, l, r, pos) <==> InterpolationAt(s, l, r, pos)
  {
    hide Matches;
  }

  lemma RecoversAlike(s: Bytes, pos: nat)
    requires pos < |s| && s[pos] >= 0x80
    ensures pos + RecoveryLength(s, pos) == if pos + Announced(s[pos]) <= |s| then pos + Announced(s[pos]) else |s|
  {
  }

  lemma StepIsUnit(s: Bytes, l: Lang, e: StringEntry, pos: nat)
    requires pos <= |s| && CaseAt(s, l, e, pos).Step?
    ensures var c := CaseAt(s, l, e, pos);
            IsUnit(s, l, e, pos, c.next) && c.diags == UnitDiags(s, l, e, pos, c.next)
  {
    EntersAlike(s, l, e.style, pos);
    if pos + 1 < |s| && s[pos + 1] >= 0x80 { RecoversAlike(s, pos + 1); }
    hide PeekCp, InterpolationAt, Enters, RecoveryLength, Announced;
  }

  lemma TextBehind(s: Bytes, l: Lang, open: Bytes, e: StringEntry, depth: nat, start: nat, from: nat, had: bool,
                   pos: nat, m: nat, out: Out)
    requires pos < m <= |s| && IsUnit(s, l, e, pos, m) && IsText(s, l, open, e, depth, start, from, had, m, out)
    ensures IsText(s, l, open, e, depth, start, from, had, pos, Before([], UnitDiags(s, l, e, pos, m), out))
  {
    hide IsUnit, UnitDiags, EndsWith;
    var b: nat, diags, rest: Out :| m <= b && IsBody(s, l, e, m, b, diags)
                                    && EndsWith(s, l, open, e, depth, start, from, had, b, rest)
                                    && out == Out(rest.pos, rest.toks, diags + rest.diags);
    var d := UnitDiags(s, l, e, pos, m);
    assert IsBody(s, l, e, pos, b, d + diags);
    assert d + (diags + rest.diags) == d + diags + rest.diags && [] + rest.toks == rest.toks;
  }

  lemma TextEnds(s: Bytes, l: Lang, open: Bytes, e: StringEntry, depth: nat, start: nat, from: nat, had: bool, pos: nat,
                 out: Out)
    requires EndsWith(s, l, open, e, depth, start, from, had, pos, out)
    ensures IsText(s, l, open, e, depth, start, from, had, pos, out)
  {
    hide EndsWith;
    assert IsBody(s, l, e, pos, pos, []);
    assert [] + out.diags == out.diags;
  }

  lemma StopIsCutOff(s: Bytes, l: Lang, e: StringEntry, pos: nat)
    requires pos <= |s| && CaseAt(s, l, e, pos).Stop?
    ensures IsCutOff(s, l, e, pos, CaseAt(s, l, e, pos).end)
  {
    EntersAlike(s, l, e.style, pos);
    hide Escape, Plain, InterpolationAt, Enters;
  }

  lemma EnterIsEntered(s: Bytes, l: Lang, e: StringEntry, pos: nat)
    requires pos <= |s| && CaseAt(s, l, e, pos).Enter?
    ensures pos < |s| && !Breaks(e.style, s[pos]) && !IsClosed(s, e, pos) && Enters(s, l, e.style, pos)
  {
    EntersAlike(s, l, e.style, pos);
    hide Escape, Plain, InterpolationAt, Enters;
  }

  lemma CloseIsClosed(s: Bytes, l: Lang, e: StringEntry, pos: nat)
    requires pos <= |s| && CaseAt(s, l, e, pos).Close?
    ensures IsClosed(s, e, pos)
  {
    hide Escape, Plain, InterpolationAt;
  }

  lemma {:induction false} BodyIsText(s: Bytes, l: Lang, open: Bytes, e: StringEntry, depth: nat, start: nat, from: nat,
                                      had: bool, pos: nat)
    requires pos <= |s|
    ensures IsText(s, l, open, e, depth, start, from, had, pos,
                   StringBody(s, l, open, e, depth, start, from, had, pos))
    decreases |s| - pos
  {
    hide StringBody, IsText, IsUnit, UnitDiags, CaseAt, Interpolation, InterpolationAt, Enters, Breaks;
    hide IsClosed, IsCutOff;
    var c := CaseAt(s, l, e, pos);
    var out := StringBody(s, l, open, e, depth, start, from, had, pos);
    if c.Stop? {
      BodyStops(s, l, open, e, depth, start, from, had, pos);
      StopIsCutOff(s, l, e, pos);
      TextEnds(s, l, open, e, depth, start, from, had, pos, out);
    } else if c.Close? {
      BodyCloses(s, l, open, e, depth, start, from, had, pos);
      CloseIsClosed(s, l, e, pos);
      TextEnds(s, l, open, e, depth, start, from, had, pos, out);
    } else if c.Enter? {
      BodyEnters(s, l, open, e, depth, start, from, had, pos);
      EnterIsEntered(s, l, e, pos);
      var i := Interpolation(s, l, e.style, depth, pos);
      BodyIsText(s, l, open, e, depth, start, i.out.pos, true, i.out.pos);
      EnteredEnds(s, l, open, e, depth, start, from, had, pos);
      TextEnds(s, l, open, e, depth, start, from, had, pos, out);
    } else {
      BodySteps(s, l, open, e, depth, start, from, had, pos);
      StepIsUnit(s, l, e, pos);
      BodyIsText(s, l, open, e, depth, start, from, had, c.next);
      TextBehind(s, l, open, e, depth, start, from, had, pos, c.next,
                 StringBody(s, l, open, e, depth, start, from, had, c.next));
    }
  }

  lemma EnteredEnds(s: Bytes, l: Lang, open: Bytes, e: StringEntry, depth: nat, start: nat, from: nat, had: bool,
                    pos: nat)
    requires pos < |s| && InterpolationAt(s, l, e.style, pos)
    requires !Breaks(e.style, s[pos]) && !IsClosed(s, e, pos) && Enters(s, l, e.style, pos)
    requires var i := Interpolation(s, l, e.style, depth, pos);
             IsText(s, l, open, e, depth, start, i.out.pos, true, i.out.pos,
                    StringBody(s, l, open, e, depth, start, i.out.pos, true, i.out.pos))
    ensures var i, head := Interpolation(s, l, e.style, depth, pos), Fragment(e.style, start, from, pos);
            EndsWith(s, l, open, e, depth, start, from, had, pos,
                     if !i.ok then Before(head, [], i.out)
                     else Before(head + i.out.toks, i.out.diags,
                                 StringBody(s, l, open, e, depth, start, i.out.pos, true, i.out.pos)))
  {
    hide StringBody, IsText, Interpolation, InterpolationAt, Enters, Breaks, IsClosed, IsCutOff;
    var i := Interpolation(s, l, e.style, depth, pos);
    assert [] + i.out.diags == i.out.diags;
  }

  /**
   A literal runs from the longest opener over characters and escapes to its closing
   delimiter, with an interpolation wherever one begins, unless the text or its line ends
   before; each part of it is one token, and every ill-formed character and unlisted escape
   is reported.
  */
  lemma LiteralIsText(s: Bytes, l: Lang, depth: nat, pos: nat) returns (open: Bytes)
    requires pos < |s| && ScanString(s, l, depth, pos).Some?
    ensures open in l.strings && Longest(l.strings.Keys, s, pos) == Some(open)
    ensures IsText(s, l, open, l.strings[open], depth, pos, pos, false, pos + |open|,
                   ScanString(s, l, depth, pos).value)
  {
    hide ScanString, StringBody, IsText, LongestUpTo;
    open := StringIsBody(s, l, depth, pos);
    BodyIsText(s, l, open, l.strings[open], depth, pos, pos, false, pos + |open|);
  }

  // ----- operators and comments

  const KERNEL_PUNCT: Bytes := [0x28, 0x29, 0x5B, 0x5D, 0x7B, 0x7D, 0x2C, 0x3B, 0x3A, 0x2E]

  /** The longest operator of the table, or else one byte of punctuation, which is its own value. */
  lemma OperatorIsLongest(s: Bytes, l: Lang, pos: nat)
    requires pos < |s|
    ensures var op, r := Longest(l.operators.Keys, s, pos), ScanOperator(s, l, pos);
            if op.Some? then
              var end := pos + |op.value|;
              r == Some(Out(end, [Token(OP, pos, end, l.operators[op.value])], []))
            else if s[pos] in KERNEL_PUNCT then
              r == Some(Out(pos + 1, [Token(PUNCT, pos, pos + 1, s[pos] as nat)], []))
            else r == None
  {
    hide LongestUpTo;
  }

  /** A comment is one token over all of it where the language keeps it, no token where not, and INVALID if unclosed. */
  lemma CommentIsKept(s: Bytes, l: Lang, pos: nat)
    requires pos < |s|
    ensures var open, r := Longest(l.comments.Keys, s, pos), ScanComment(s, l, pos);
            && (r.Some? <==> open.Some?)
            && (r.Some? ==>
                  var style := l.comments[open.value];
                  var body := pos + |open.value|;
                  var (end, left) := BlockEnd(s, open.value, style.close, style.nest, 1, body);
                  if style.close != [0x0A] && left > 0 then r.value == Invalid(pos, end, UnterminatedComment)
                  else
                    && r.value.pos == (if style.close == [0x0A] then LineEnd(s, l, body) else end)
                    && r.value.diags == []
                    && r.value.toks == if l.policy.keepAll || (l.policy.keepDoc && style.isDoc)
                                       then [Token(COMMENT, pos, r.value.pos, 0)] else [])
  {
    hide BlockEnd, LineEnd, LongestUpTo;
  }

  /** The scanners in their order: comments, strings, numbers, identifiers, operators. */
  lemma FirstScannerWins(s: Bytes, l: Lang, depth: nat, pos: nat)
    requires pos < |s|
    ensures var scans := [ScanComment(s, l, pos), ScanString(s, l, depth, pos), ScanNumber(s, l, pos),
                          ScanIdent(s, l, pos), ScanOperator(s, l, pos)];
            var r := ScanToken(s, l, depth, pos);
            if r == None then forall i :: 0 <= i < 5 ==> scans[i] == None
            else exists i :: 0 <= i < 5 && scans[i] == r && forall j :: 0 <= j < i ==> scans[j] == None
  {
    hide ScanComment, ScanString, ScanNumber, ScanIdent, ScanOperator;
    var scans := [ScanComment(s, l, pos), ScanString(s, l, depth, pos), ScanNumber(s, l, pos), ScanIdent(s, l, pos),
                  ScanOperator(s, l, pos)];
    assert scans[0] == ScanComment(s, l, pos) && scans[1] == ScanString(s, l, depth, pos);
    assert scans[2] == ScanNumber(s, l, pos) && scans[3] == ScanIdent(s, l, pos) && scans[4] == ScanOperator(s, l, pos);
  }

  const INLINE_BLANKS: Bytes := [0x20, 0x09, 0x0B, 0x0C]

  /** All blanks are skipped, and nothing else. */
  lemma {:induction false} BlanksAreSkipped(s: Bytes, pos: nat)
    requires pos <= |s|
    ensures forall k :: pos <= k < SkipInline(s, pos) ==> s[k] in INLINE_BLANKS
    ensures SkipInline(s, pos) < |s| ==> s[SkipInline(s, pos)] !in INLINE_BLANKS
    decreases |s| - pos
  {
    if pos < |s| && IsInlineSpace(s[pos]) { BlanksAreSkipped(s, pos + 1); }
  }

  /** Between tokens newlines are skipped as well. */
  lemma {:induction false} SpaceIsSkipped(s: Bytes, l: Lang, pos: nat)
    requires pos <= |s|
    ensures var end := SkipSpace(s, l, pos);
            end < |s| ==> s[end] !in INLINE_BLANKS && NewlineAt(s, l, end) == 0
    decreases |s| - pos
  {
    hide NewlineAt;
    if pos < |s| {
      if NewlineAt(s, l, pos) != 0 {
        SpaceIsSkipped(s, l, pos + NewlineAt(s, l, pos));
      } else if IsInlineSpace(s[pos]) {
        SpaceIsSkipped(s, l, pos + 1);
      }
    }
  }

  /** A spelling opens a line comment just if a comment rule lists it with a line feed as its end. */
  lemma LineCommentsEndLines(t: seq<CommentRule>, open: Bytes)
    ensures open in LineOpens(CommentEntries(t)) <==> exists rule <- t :: rule.open == open && rule.close == [0x0A]
  {
    var entries := CommentEntries(t);
    forall rule <- t | rule.open == open && rule.close == [0x0A] ensures open in LineOpens(entries) {
      var i :| 0 <= i < |t| && t[i] == rule;
      assert entries[i] in entries;
    }
  }

  // ----- interpolated expressions

  /** A token of an expression and how it counts: an opening or closing bracket of the kind that ends the expression. */
  datatype Item = Item(at: nat, closes: bool, weight: int)

  /** The bracket that pairs with a closing mark. */
  predicate Opens(s: Bytes, close: Bytes, pos: nat) {
    || (close == [0x7D] && Matches(s, pos, [0x7B]))
    || (close == [0x29] && Matches(s, pos, [0x28]))
    || (close == [0x5D] && Matches(s, pos, [0x5B]))
  }

  /** The tokens from `pos` to the end of the text. */
  function Items(s: Bytes, l: Lang, close: Bytes, depth: nat, pos: nat): seq<Item>
    requires pos <= |s|
    decreases |s| - pos
  {
    var at := InterpSpace(s, l, pos).pos;
    if at == |s| then []
    else
      var closes := close != [] && Matches(s, at, close);
      var weight := if ScanToken(s, l, depth, at).None? then 0
                    else if Opens(s, close, at) then 1 else if closes then -1 else 0;
      [Item(at, closes, weight)] + Items(s, l, close, depth, TokenOrInvalid(s, l, depth, at).pos)
  }

  function Sum(items: seq<Item>): int {
    if items == [] then 0 else items[0].weight + Sum(items[1..])
  }

  /** `k` is the first closing mark before which `pairs` and the brackets of the expression are balanced. */
  predicate EndsFirst(items: seq<Item>, pairs: int, k: nat) {
    && k < |items| && IsEnd(items, pairs, k)
    && forall j :: 0 <= j < k ==> !IsEnd(items, pairs, j)
  }

  predicate IsEnd(items: seq<Item>, pairs: int, k: nat)
    requires k < |items|
  {
    items[k].closes && pairs + Sum(items[..k]) == 0
  }

  lemma EndBehind(item: Item, rest: seq<Item>, pairs: int, k: nat)
    requires k < |rest|
    ensures IsEnd([item] + rest, pairs, k + 1) <==> IsEnd(rest, pairs + item.weight, k)
  {
    assert ([item] + rest)[..k + 1] == [item] + rest[..k];
    assert ([item] + rest[..k])[1..] == rest[..k];
  }

  predicate NeverEnds(items: seq<Item>, pairs: int) {
    forall j :: 0 <= j < |items| ==> !IsEnd(items, pairs, j)
  }

  lemma FirstBehind(item: Item, rest: seq<Item>, pairs: int, left: int, k: nat)
    requires !(item.closes && pairs == 0) && left == pairs + item.weight
    ensures EndsFirst(rest, left, k) ==> EndsFirst([item] + rest, pairs, k + 1)
    ensures NeverEnds(rest, left) ==> NeverEnds([item] + rest, pairs)
  {
    var all := [item] + rest;
    assert !IsEnd(all, pairs, 0) by { assert all[..0] == []; }
    hide IsEnd;
    forall j | 0 < j < |all| ensures IsEnd(all, pairs, j) <==> IsEnd(rest, left, j - 1) {
      EndBehind(item, rest, pairs, j - 1);
    }
    if k < |rest| { EndBehind(item, rest, pairs, k); }
  }

  /**
   An interpolated expression ends at the first closing mark before which its brackets of
   that kind are balanced, and is given up only if there is none.
  */
  lemma {:induction false} ExpressionEndsBalanced(s: Bytes, l: Lang, start: nat, close: Bytes, closeKind: nat,
                                                  depth: nat, pairs: nat, pos: nat) returns (k: nat)
    requires start < pos <= |s|
    ensures var i, items := ExpressionFrom(s, l, start, close, closeKind, depth, pairs, pos),
                            Items(s, l, close, depth, pos);
            if i.ok then EndsFirst(items, pairs, k) && i.out.pos == items[k].at + |close|
            else i.out.pos == |s| && NeverEnds(items, pairs)
    decreases |s| - pos
  {
    hide ExpressionFrom, InterpSpace, TokenOrInvalid, ScanToken, EndsFirst, IsEnd, Opens, Matches;
    k := 0;
    var at := InterpSpace(s, l, pos).pos;
    var items := Items(s, l, close, depth, pos);
    if EndsHere(s, close, pairs, at) {
      LoopEnds(s, l, start, close, closeKind, depth, pairs, pos);
      if at < |s| { FirstItemEnds(items); }
    } else {
      var left := LoopTurns(s, l, start, close, closeKind, depth, pairs, pos);
      var next := TokenOrInvalid(s, l, depth, at).pos;
      PairsAreWeights(s, l, close, depth, pairs, at);
      var rest := Items(s, l, close, depth, next);
      var j := ExpressionEndsBalanced(s, l, start, close, closeKind, depth, left, next);
      FirstBehind(items[0], rest, pairs, left, j);
      k := j + 1;
    }
  }

  lemma FirstItemEnds(items: seq<Item>)
    requires items != [] && items[0].closes
    ensures EndsFirst(items, 0, 0)
  {
    assert items[..0] == [];
  }

  lemma PairsAreWeights(s: Bytes, l: Lang, close: Bytes, depth: nat, pairs: nat, at: nat)
    requires at < |s| && !EndsHere(s, close, pairs, at)
    ensures var weight := if ScanToken(s, l, depth, at).None? then 0
                          else if Opens(s, close, at) then 1
                          else if close != [] && Matches(s, at, close) then -1 else 0;
            PairsAfter(s, close, pairs, at, ScanToken(s, l, depth, at).Some?) == pairs + weight
  {
    hide ScanToken;
  }

  /** Expressions nest 64 deep: one more is given up at once. */
  lemma SixtyFourDeep(s: Bytes, l: Lang, start: nat, close: Bytes, closeKind: nat, depth: nat, pos: nat)
    requires start < pos <= |s|
    ensures var i := Expression(s, l, start, close, closeKind, depth, pos);
            if depth < 64 then i == ExpressionFrom(s, l, start, close, closeKind, depth + 1, 0, pos)
            else i == Interp(Out(pos, [Token(INVALID, start, pos, 0)], [Diag(InterpolationTooDeep, start, pos)]), false)
  {
    hide ExpressionFrom;
  }
}
