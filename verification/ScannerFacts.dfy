/**
 What the cursor functions of the scanners find, said without their recursion.
*/
module ScannerFacts {
  import opened Options
  import opened Machine
  import opened LexConfig
  import opened Scanners

  // ----- digits

  /** Digits, with underscores only between them. */
  predicate IsDigitRun(s: Bytes, base: nat, underscores: bool, a: nat, b: nat) {
    && a < b <= |s| && DigitAt(s, a, base) && DigitAt(s, b - 1, base)
    && forall k :: a <= k < b ==> DigitAt(s, k, base) || (underscores && s[k] == UNDERSCORE)
  }

  lemma {:induction false} UnderscoresOnly(s: Bytes, pos: nat)
    requires pos <= |s|
    ensures forall k :: pos <= k < UnderscoreEnd(s, pos) ==> s[k] == UNDERSCORE
    ensures UnderscoreEnd(s, pos) < |s| ==> s[UnderscoreEnd(s, pos)] != UNDERSCORE
    decreases |s| - pos
  {
    if pos < |s| && s[pos] == UNDERSCORE { UnderscoresOnly(s, pos + 1); }
  }

  /** Past its end, once a digit has been seen, no run can go on: what follows starts with neither a digit nor
      underscores before one. */
  lemma {:induction false} DigitsGoOn(s: Bytes, base: nat, underscores: bool, start: nat, pos: nat)
    requires start < pos <= |s| && IsDigitRun(s, base, underscores, start, pos)
    ensures var end := Digits(s, base, underscores, pos, true).0;
            IsDigitRun(s, base, underscores, start, end)
            && forall b :: end < b <= |s| ==> !IsDigitRun(s, base, underscores, start, b)
    decreases |s| - pos
  {
    if DigitAt(s, pos, base) {
      DigitsGoOn(s, base, underscores, start, pos + 1);
    } else if pos < |s| && s[pos] == UNDERSCORE && underscores {
      UnderscoresOnly(s, pos);
      var run := UnderscoreEnd(s, pos);
      if DigitAt(s, run, base) {
        assert Digits(s, base, true, pos, true) == Digits(s, base, true, run + 1, true);
        DigitsGoOn(s, base, underscores, start, run + 1);
      } else {
      }
    } else {
      forall b | pos < b <= |s| ensures !IsDigitRun(s, base, underscores, start, b) {
        assert !(DigitAt(s, pos, base) || (underscores && s[pos] == UNDERSCORE));
      }
    }
  }

  /** `scan_digits` takes the longest run of digits with underscores only between them, or nothing. */
  lemma DigitsAreMaximal(s: Bytes, base: nat, underscores: bool, pos: nat)
    requires pos <= |s|
    ensures var (end, any) := Digits(s, base, underscores, pos, false);
            && (any <==> IsDigitRun(s, base, underscores, pos, end))
            && (!any ==> end == pos)
            && forall b :: end < b <= |s| ==> !IsDigitRun(s, base, underscores, pos, b)
  {
    if DigitAt(s, pos, base) {
      DigitsGoOn(s, base, underscores, pos, pos + 1);
      SeenStays(s, base, underscores, pos + 1);
    }
  }

  lemma {:induction false} SeenStays(s: Bytes, base: nat, underscores: bool, pos: nat)
    requires pos <= |s|
    ensures Digits(s, base, underscores, pos, true).1
    decreases |s| - pos
  {
    if DigitAt(s, pos, base) {
      SeenStays(s, base, underscores, pos + 1);
    } else if pos < |s| && s[pos] == UNDERSCORE && underscores && DigitAt(s, UnderscoreEnd(s, pos), base) {
      SeenStays(s, base, underscores, UnderscoreEnd(s, pos));
    }
  }

  // ----- identifiers

  predicate ContinuesAt(s: Bytes, l: Lang, pos: nat) {
    PeekCp(s, pos).Some? && l.policy.isIdentCont(PeekCp(s, pos).value.cp)
  }

  /** Code points from `a` to `b` that may continue an identifier. */
  predicate IsIdentTail(s: Bytes, l: Lang, a: nat, b: nat)
    decreases b - a
  {
    a == b || (a < b && ContinuesAt(s, l, a) && PeekCp(s, a).value.len > 0
               && IsIdentTail(s, l, a + PeekCp(s, a).value.len, b))
  }

  ghost predicate IsLongestTail(s: Bytes, l: Lang, a: nat, b: nat) {
    IsIdentTail(s, l, a, b) && !ContinuesAt(s, l, b) && forall c: nat :: IsIdentTail(s, l, a, c) ==> c <= b
  }

  lemma {:induction false} TailIsMaximal(s: Bytes, l: Lang, pos: nat)
    requires pos <= |s|
    ensures IsLongestTail(s, l, pos, IdentEnd(s, l, pos))
    decreases |s| - pos
  {
    hide PeekCp;
    if ContinuesAt(s, l, pos) {
      var next := pos + PeekCp(s, pos).value.len;
      TailIsMaximal(s, l, next);
      forall c: nat | IsIdentTail(s, l, pos, c) ensures c <= IdentEnd(s, l, pos) {
        if c != pos { assert IsIdentTail(s, l, next, c); }
      }
    }
  }

  /** An identifier is a start and the longest tail behind it; it is a keyword if the table has it and it is hard. */
  lemma IdentIsMaximal(s: Bytes, l: Lang, pos: nat)
    requires pos <= |s|
    ensures var d, r := PeekCp(s, pos), ScanIdent(s, l, pos);
            && (r.Some? <==> d.Some? && l.policy.isIdentStart(d.value.cp))
            && (r.Some? ==>
                  && |r.value.toks| == 1 && r.value.diags == []
                  && var t := r.value.toks[0];
                     && t.start == pos && t.end == r.value.pos
                     && IsLongestTail(s, l, pos + d.value.len, t.end)
                     && (t.kind == KEYWORD <==> s[pos..t.end] in l.keywords && l.keywords[s[pos..t.end]] !in l.soft)
                     && (t.kind != KEYWORD ==> t.kind == IDENT)
                     && t.v == if s[pos..t.end] in l.keywords then l.keywords[s[pos..t.end]] else 0)
  {
    hide PeekCp, IdentEnd, IsLongestTail;
    var d := PeekCp(s, pos);
    if d.Some? { TailIsMaximal(s, l, pos + d.value.len); }
  }

  // ----- decimal numbers

  predicate IsExponent(s: Bytes, n: NumberStyle, a: nat, b: nat) {
    && n.exponent && (Peek(s, a) == 0x65 || Peek(s, a) == 0x45)
    && IsDigitRun(s, 10, n.underscores, if IsSign(Peek(s, a + 1)) then a + 2 else a + 1, b)
  }

  predicate IsFraction(s: Bytes, n: NumberStyle, a: nat, b: nat) {
    n.float && Peek(s, a) == DOT && IsDigitRun(s, 10, n.underscores, a + 1, b)
  }

  /** Whole part up to `w`, fraction up to `m` and exponent up to `b`; only a leading dot has no whole part. */
  predicate IsDecimal(s: Bytes, n: NumberStyle, a: nat, w: nat, m: nat, b: nat) {
    && (if a == w then n.leadingDot && w != m else IsDigitRun(s, 10, n.underscores, a, w))
    && (w == m || IsFraction(s, n, w, m))
    && (m == b || IsExponent(s, n, m, b))
  }

  /** Behind a shorter run of digits the longest one goes on, with neither a dot nor an exponent. */
  lemma RunGoesOn(s: Bytes, n: NumberStyle, a: nat, b: nat)
    requires a <= |s| && IsDigitRun(s, 10, n.underscores, a, b)
    ensures var end := Digits(s, 10, n.underscores, a, false).0;
            && IsDigitRun(s, 10, n.underscores, a, end) && b <= end
            && (b < end ==> Peek(s, b) != DOT && Peek(s, b) != 0x65 && Peek(s, b) != 0x45)
  {
    hide Digits;
    DigitsAreMaximal(s, 10, n.underscores, a);
  }

  lemma FractionEnds(s: Bytes, n: NumberStyle, w: nat)
    requires w < |s| && n.float && Peek(s, w) == DOT && DigitAt(s, w + 1, 10)
    ensures IsFraction(s, n, w, Digits(s, 10, n.underscores, w + 1, false).0)
    ensures w < Digits(s, 10, n.underscores, w + 1, false).0
  {
    hide Digits;
    RunGoesOn(s, n, w + 1, w + 2);
  }

  lemma ExponentEnds(s: Bytes, n: NumberStyle, m: nat)
    requires m < |s| && n.exponent && ExponentAt(s, m)
    ensures var from := m + if IsSign(Peek(s, m + 1)) then 2 else 1;
            && from <= |s| && IsExponent(s, n, m, Digits(s, 10, n.underscores, from, false).0)
            && m < Digits(s, 10, n.underscores, from, false).0
  {
    hide Digits;
    var from := m + if IsSign(Peek(s, m + 1)) then 2 else 1;
    RunGoesOn(s, n, from, from + 1);
  }

  /** How many bytes of the literal belong to its whole part, and to that and the fraction. */
  function WholeEnd(s: Bytes, n: NumberStyle, pos: nat, leadingDot: bool): (w: nat)
    requires pos < |s|
    ensures pos <= w <= |s|
  {
    if leadingDot then pos else Digits(s, 10, n.underscores, pos, false).0
  }

  function MantissaEnd(s: Bytes, n: NumberStyle, w: nat): (m: nat)
    requires w <= |s|
    ensures w <= m <= |s|
  {
    if n.float && Peek(s, w) == DOT && DigitAt(s, w + 1, 10) then Digits(s, 10, n.underscores, w + 1, false).0 else w
  }

  function ExponentEnd(s: Bytes, n: NumberStyle, m: nat): (b: nat)
    requires m <= |s|
    ensures m <= b <= |s|
  {
    if n.exponent && ExponentAt(s, m)
    then Digits(s, 10, n.underscores, m + (if IsSign(Peek(s, m + 1)) then 2 else 1), false).0
    else m
  }

  predicate DecimalAt(s: Bytes, n: NumberStyle, pos: nat, leadingDot: bool) {
    && pos < |s|
    && if leadingDot then n.leadingDot && n.float && s[pos] == DOT && DigitAt(s, pos + 1, 10) else DigitAt(s, pos, 10)
  }

  lemma DecimalParts(s: Bytes, l: Lang, pos: nat, leadingDot: bool)
    requires DecimalAt(s, l.policy.numbers, pos, leadingDot)
    ensures var n := l.policy.numbers;
            var w := WholeEnd(s, n, pos, leadingDot);
            var m := MantissaEnd(s, n, w);
            var end := ExponentEnd(s, n, m);
            Decimal(s, l, pos, leadingDot) == (if w == m == end then INT else FLOAT, end)
  {
    hide Digits, DigitValue, IsFraction, IsExponent;
    var n := l.policy.numbers;
    var w := WholeEnd(s, n, pos, leadingDot);
    var m := MantissaEnd(s, n, w);
    FractionMoves(s, n, w);
    ExponentMoves(s, n, m);
  }

  lemma FractionMoves(s: Bytes, n: NumberStyle, w: nat)
    requires w <= |s|
    ensures w < MantissaEnd(s, n, w) <==> n.float && Peek(s, w) == DOT && DigitAt(s, w + 1, 10)
    ensures w < MantissaEnd(s, n, w) ==> IsFraction(s, n, w, MantissaEnd(s, n, w))
  {
    hide Digits, DigitValue, IsFraction;
    if n.float && Peek(s, w) == DOT && DigitAt(s, w + 1, 10) { FractionEnds(s, n, w); }
  }

  lemma ExponentMoves(s: Bytes, n: NumberStyle, m: nat)
    requires m <= |s|
    ensures m < ExponentEnd(s, n, m) <==> n.exponent && ExponentAt(s, m)
    ensures m < ExponentEnd(s, n, m) ==> IsExponent(s, n, m, ExponentEnd(s, n, m))
  {
    hide Digits, DigitValue, IsExponent;
    if n.exponent && ExponentAt(s, m) { ExponentEnds(s, n, m); }
  }

  /**
   A decimal literal is the longest one at its place, and an integer just if it is all
   whole part.
  */
  lemma DecimalIsMaximal(s: Bytes, l: Lang, pos: nat, leadingDot: bool) returns (w: nat, m: nat)
    requires DecimalAt(s, l.policy.numbers, pos, leadingDot)
    ensures var n, (kind, end) := l.policy.numbers, Decimal(s, l, pos, leadingDot);
            && IsDecimal(s, n, pos, w, m, end) && (kind == INT <==> w == m == end) && (kind != INT ==> kind == FLOAT)
            && forall w', m', b: nat :: IsDecimal(s, n, pos, w', m', b) ==> b <= end
  {
    var n := l.policy.numbers;
    w := WholeEnd(s, n, pos, leadingDot);
    m := MantissaEnd(s, n, w);
    DecimalParts(s, l, pos, leadingDot);
    PartsAreDecimal(s, n, pos, leadingDot);
    hide *;
    forall w', m', b: nat | IsDecimal(s, n, pos, w', m', b) ensures b <= Decimal(s, l, pos, leadingDot).1 {
      NoLongerDecimal(s, n, pos, leadingDot, w', m', b);
    }
  }

  lemma PartsAreDecimal(s: Bytes, n: NumberStyle, pos: nat, leadingDot: bool)
    requires DecimalAt(s, n, pos, leadingDot)
    ensures var w := WholeEnd(s, n, pos, leadingDot);
            var m := MantissaEnd(s, n, w);
            IsDecimal(s, n, pos, w, m, ExponentEnd(s, n, m))
  {
    hide Digits, DigitValue, IsFraction, IsExponent, MantissaEnd, ExponentEnd;
    var w := WholeEnd(s, n, pos, leadingDot);
    var m := MantissaEnd(s, n, w);
    if leadingDot {
      MantissaAfterDot(s, n, pos);
    } else {
      RunGoesOn(s, n, pos, pos + 1);
    }
    FractionMoves(s, n, w);
    ExponentMoves(s, n, m);
  }

  lemma MantissaAfterDot(s: Bytes, n: NumberStyle, pos: nat)
    requires DecimalAt(s, n, pos, true)
    ensures pos < MantissaEnd(s, n, pos)
  {
    hide Digits;
    FractionEnds(s, n, pos);
  }

  lemma NoLongerDecimal(s: Bytes, n: NumberStyle, pos: nat, leadingDot: bool, w: nat, m: nat, b: nat)
    requires DecimalAt(s, n, pos, leadingDot) && IsDecimal(s, n, pos, w, m, b)
    ensures b <= ExponentEnd(s, n, MantissaEnd(s, n, WholeEnd(s, n, pos, leadingDot)))
  {
    hide Digits, ExponentEnd, MantissaEnd, IsFraction, IsExponent;
    var whole := WholeEnd(s, n, pos, leadingDot);
    if pos < w { RunGoesOn(s, n, pos, w); }
    NoLongerMantissa(s, n, w, m);
    NoLongerExponent(s, n, m, b);
    FirstBytes(s, n, w, m, b);
    FractionMoves(s, n, whole);
    if w == whole && m < MantissaEnd(s, n, w) { MidFraction(s, n, w, m); }
  }

  /** What a fraction and an exponent start with. */
  lemma FirstBytes(s: Bytes, n: NumberStyle, w: nat, m: nat, b: nat)
    ensures IsFraction(s, n, w, m) ==> Peek(s, w) == DOT && w < m <= |s|
    ensures IsExponent(s, n, m, b) ==> (Peek(s, m) == 0x65 || Peek(s, m) == 0x45) && m < b <= |s|
  {
  }

  lemma NoLongerMantissa(s: Bytes, n: NumberStyle, w: nat, m: nat)
    requires w <= |s|
    ensures IsFraction(s, n, w, m) ==> m <= MantissaEnd(s, n, w)
  {
    hide Digits;
    if IsFraction(s, n, w, m) { RunGoesOn(s, n, w + 1, m); }
  }

  lemma NoLongerExponent(s: Bytes, n: NumberStyle, m: nat, b: nat)
    requires m <= |s|
    ensures IsExponent(s, n, m, b) ==> b <= ExponentEnd(s, n, m)
  {
    hide Digits;
    if IsExponent(s, n, m, b) { RunGoesOn(s, n, m + if IsSign(Peek(s, m + 1)) then 2 else 1, b); }
  }

  /** Before the end of a fraction no exponent starts. */
  lemma MidFraction(s: Bytes, n: NumberStyle, w: nat, m: nat)
    requires w <= |s| && m < MantissaEnd(s, n, w) && (w == m || IsFraction(s, n, w, m))
    ensures Peek(s, m) != 0x65 && Peek(s, m) != 0x45
  {
    hide Digits;
    if w < m { RunGoesOn(s, n, w + 1, m); }
  }

  // ----- numbers of every base

  /** The byte stands for this digit value, in either case of letters. */
  predicate StandsFor(c: Byte, v: nat) {
    || (v < 10 && c as nat == 0x30 + v)
    || (10 <= v < 16 && (c as nat == 0x41 + v - 10 || c as nat == 0x61 + v - 10))
  }

  lemma DigitsStandForValues(s: Bytes, pos: nat, base: nat)
    requires base <= 16
    ensures DigitAt(s, pos, base) <==> pos < |s| && exists v: nat :: v < base && StandsFor(s[pos], v)
  {
    if pos < |s| && 0 <= DigitValue(s[pos]) {
      assert StandsFor(s[pos], DigitValue(s[pos]));
    }
  }

  /** The language has literals of this base, with this letter behind the zero. */
  predicate IsRadix(n: NumberStyle, letter: Byte, base: nat) {
    || (base == 16 && n.hex && (letter == 0x78 || letter == 0x58))
    || (base == 8 && n.oct && (letter == 0x6F || letter == 0x4F))
    || (base == 2 && n.bin && (letter == 0x62 || letter == 0x42))
  }

  predicate IsAnyRadix(n: NumberStyle, letter: Byte) {
    IsRadix(n, letter, 16) || IsRadix(n, letter, 8) || IsRadix(n, letter, 2)
  }

  /** Where the longest suffix ends, if it may end there. */
  predicate IsSuffixEnd(s: Bytes, l: Lang, pos: nat, end: nat) {
    var suffix := Longest(l.suffixes, s, pos);
    if suffix.None? || (l.policy.numbers.suffixBoundary && ContinuesAt(s, l, pos + |suffix.value|))
    then end == pos
    else end == pos + |suffix.value|
  }

  /** The token for digits up to `digits`: with its suffix, or malformed with all that continues an identifier. */
  ghost predicate IsNumber(s: Bytes, l: Lang, start: nat, kind: nat, digits: nat, out: Out) {
    exists end: nat, tail: nat :: IsSuffixEnd(s, l, digits, end) && IsLongestTail(s, l, end, tail) &&
      out == if l.policy.numbers.strict && end < tail
             then Out(tail, [Token(INVALID, start, tail, 0)], [Diag(MalformedNumber, start, tail)])
             else Out(end, [Token(kind, start, end, 0)], [])
  }

  lemma NumberOutIsNumber(s: Bytes, l: Lang, start: nat, kind: nat, digits: nat)
    requires start < digits <= |s|
    ensures IsNumber(s, l, start, kind, digits, NumberOut(s, l, start, kind, digits))
  {
    hide PeekCp, IsLongestTail, IdentEnd;
    var end := SuffixEnd(s, l, digits);
    TailIsMaximal(s, l, end);
    assert IsSuffixEnd(s, l, digits, end);
  }

  /**
   Behind a zero and the letter of a base the literal is the longest run of digits of that
   base with its suffix, or the two bytes are malformed where there is no such run.
  */
  lemma RadixIsMaximal(s: Bytes, l: Lang, pos: nat, base: nat, b: nat) returns (end: nat)
    requires pos + 1 < |s| && s[pos] == 0x30 && IsRadix(l.policy.numbers, s[pos + 1], base)
    ensures var r, underscores := ScanNumber(s, l, pos), l.policy.numbers.underscores;
            && r.Some?
            && (IsDigitRun(s, base, underscores, pos + 2, b) ==> end > pos + 2 && b <= end)
            && if end > pos + 2 then
                 IsDigitRun(s, base, underscores, pos + 2, end) && IsNumber(s, l, pos, INT, end, r.value)
               else
                 r.value == Out(pos + 2, [Token(INVALID, pos, pos + 2, 0)], [Diag(MalformedNumber, pos, pos + 2)])
  {
    hide Digits, IsNumber, NumberOut;
    DigitsAreMaximal(s, base, l.policy.numbers.underscores, pos + 2);
    end := Digits(s, base, l.policy.numbers.underscores, pos + 2, false).0;
    if end > pos + 2 { NumberOutIsNumber(s, l, pos, INT, end); }
  }

  /** Elsewhere it is the decimal literal with its suffix, if there is one. */
  lemma DecimalElsewhere(s: Bytes, l: Lang, pos: nat)
    requires pos < |s|
    requires s[pos] == 0x30 && pos + 1 < |s| ==> !IsAnyRadix(l.policy.numbers, s[pos + 1])
    ensures var n, r := l.policy.numbers, ScanNumber(s, l, pos);
            if DecimalAt(s, n, pos, false) then
              var d := Decimal(s, l, pos, false);
              r.Some? && IsNumber(s, l, pos, d.0, d.1, r.value)
            else if DecimalAt(s, n, pos, true) then
              var d := Decimal(s, l, pos, true);
              r.Some? && IsNumber(s, l, pos, d.0, d.1, r.value)
            else r == None
  {
    hide Digits, IsNumber, NumberOut, Decimal;
    var n := l.policy.numbers;
    if DecimalAt(s, n, pos, false) {
      var d := Decimal(s, l, pos, false);
      NumberOutIsNumber(s, l, pos, d.0, d.1);
    } else if DecimalAt(s, n, pos, true) {
      var d := Decimal(s, l, pos, true);
      NumberOutIsNumber(s, l, pos, d.0, d.1);
    }
  }

  // ----- comments

  /** A block comment that does not nest ends with the first closing delimiter, or not at all. */
  lemma {:induction false} EndsAtFirstClose(s: Bytes, open: Spelling, close: Spelling, pos: nat)
    requires pos <= |s|
    ensures var (end, depth) := BlockEnd(s, open, close, false, 1, pos);
            if depth == 0 then
              && pos + |close| <= end && Matches(s, end - |close|, close)
              && forall k :: pos <= k < end - |close| ==> !Matches(s, k, close)
            else end == |s| && forall k: nat :: pos <= k ==> !Matches(s, k, close)
    decreases |s| - pos
  {
    if pos < |s| && !Matches(s, pos, close) { EndsAtFirstClose(s, open, close, pos + 1); }
  }

  /** A delimiter of a comment that nests. */
  datatype Delimiter = Delimiter(at: nat, opens: bool)

  /** The delimiters from `pos` on, one behind the other, an opening one where both match. */
  function Delimiters(s: Bytes, open: Spelling, close: Spelling, pos: nat): seq<Delimiter>
    decreases |s| - pos
  {
    if pos >= |s| then []
    else if Matches(s, pos, open) then [Delimiter(pos, true)] + Delimiters(s, open, close, pos + |open|)
    else if Matches(s, pos, close) then [Delimiter(pos, false)] + Delimiters(s, open, close, pos + |close|)
    else Delimiters(s, open, close, pos + 1)
  }

  /** By how many the closing ones exceed the opening ones. */
  function Excess(ds: seq<Delimiter>): int {
    if ds == [] then 0 else Excess(ds[..|ds| - 1]) + if ds[|ds| - 1].opens then -1 else 1
  }

  lemma {:induction false} ExcessCons(d: Delimiter, ds: seq<Delimiter>)
    ensures Excess([d] + ds) == Excess(ds) + if d.opens then -1 else 1
    decreases |ds|
  {
    if ds == [] {
      assert [d] + ds == [d] && [d][..0] == [];
    } else {
      var n := |ds| - 1;
      assert ([d] + ds)[..|ds|] == [d] + ds[..n];
      ExcessCons(d, ds[..n]);
    }
  }

  /** `k` is the first of the delimiters with which `depth` levels are closed. */
  predicate ClosesFirst(ds: seq<Delimiter>, depth: nat, k: nat) {
    k < |ds| && Excess(ds[..k + 1]) == depth && forall j :: 0 <= j <= k ==> Excess(ds[..j]) < depth
  }

  predicate NeverCloses(ds: seq<Delimiter>, depth: nat) {
    forall j :: 0 <= j <= |ds| ==> Excess(ds[..j]) < depth
  }

  lemma ClosesAfter(d: Delimiter, ds: seq<Delimiter>, depth: nat, k: nat)
    requires depth > 0
    ensures d.opens && ClosesFirst(ds, depth + 1, k) ==> ClosesFirst([d] + ds, depth, k + 1)
    ensures !d.opens && depth > 1 && ClosesFirst(ds, depth - 1, k) ==> ClosesFirst([d] + ds, depth, k + 1)
    ensures d.opens && NeverCloses(ds, depth + 1) ==> NeverCloses([d] + ds, depth)
    ensures !d.opens && depth > 1 && NeverCloses(ds, depth - 1) ==> NeverCloses([d] + ds, depth)
  {
    forall j | 0 < j <= |ds| + 1
      ensures Excess(([d] + ds)[..j]) == Excess(ds[..j - 1]) + if d.opens then -1 else 1
    {
      assert ([d] + ds)[..j] == [d] + ds[..j - 1];
      ExcessCons(d, ds[..j - 1]);
    }
    assert Excess(([d] + ds)[..0]) == 0;
  }

  lemma NothingCloses(depth: nat)
    requires depth > 0
    ensures NeverCloses([], depth) && Excess([]) == 0
  {
  }

  lemma OneCloses(d: Delimiter, ds: seq<Delimiter>)
    requires !d.opens
    ensures ClosesFirst([d] + ds, 1, 0)
  {
    assert ([d] + ds)[..1] == [d] && ([d] + ds)[..0] == [] && [d][..0] == [];
  }

  /**
   A block comment that nests ends with the first delimiter at which closing ones exceed
   opening ones by the levels still open, or not at all.
  */
  lemma {:induction false} EndsAtMatchingClose(s: Bytes, open: Spelling, close: Spelling, depth: nat, pos: nat)
    returns (k: nat)
    requires pos <= |s| && depth > 0
    ensures var (end, left) := BlockEnd(s, open, close, true, depth, pos);
            var ds := Delimiters(s, open, close, pos);
            if left == 0 then ClosesFirst(ds, depth, k) && !ds[k].opens && end == ds[k].at + |close|
            else end == |s| && left == depth - Excess(ds) && NeverCloses(ds, depth)
    decreases |s| - pos
  {
    hide Excess, ClosesFirst, NeverCloses;
    k := 0;
    var ds := Delimiters(s, open, close, pos);
    if pos == |s| {
      NothingCloses(depth);
    } else if Matches(s, pos, open) {
      var rest := Delimiters(s, open, close, pos + |open|);
      var i := EndsAtMatchingClose(s, open, close, depth + 1, pos + |open|);
      ClosesAfter(ds[0], rest, depth, i);
      ExcessCons(ds[0], rest);
      k := i + 1;
    } else if Matches(s, pos, close) {
      var rest := Delimiters(s, open, close, pos + |close|);
      if depth == 1 {
        OneCloses(ds[0], rest);
      } else {
        var i := EndsAtMatchingClose(s, open, close, depth - 1, pos + |close|);
        ClosesAfter(ds[0], rest, depth, i);
        ExcessCons(ds[0], rest);
        k := i + 1;
      }
    } else {
      k := EndsAtMatchingClose(s, open, close, depth, pos + 1);
    }
  }

  /** A line comment ends before the first newline, or at the end of the text. */
  lemma {:induction false} EndsAtNewline(s: Bytes, l: Lang, pos: nat)
    requires pos <= |s|
    ensures var end := LineEnd(s, l, pos);
            (end == |s| || NewlineAt(s, l, end) != 0) && forall k :: pos <= k < end ==> NewlineAt(s, l, k) == 0
    decreases |s| - pos
  {
    hide NewlineAt;
    if pos < |s| && NewlineAt(s, l, pos) == 0 { EndsAtNewline(s, l, pos + 1); }
  }
}
