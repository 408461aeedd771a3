/**
 The line index of `src/source.c`: a table of line starts built on the first position
 query, grown as needed and searched by bisection.
*/
module Source {
  import opened Options
  import opened Machine
  import opened Utf8

  const LF: bv32 := 1
  const CRLF: bv32 := 2
  const CR: bv32 := 4
  const UNICODE: bv32 := 8
  const DEFAULT: bv32 := 7

  /** `normalized_newline_flags`. */
  function Normalized(flags: bv32): bv32 {
    if flags == 0 then DEFAULT else flags
  }

  predicate IsUnicodeNewline(cp: bv32) {
    cp == 0x85 || cp == 0x2028 || cp == 0x2029
  }

  /** `kavak_source_newline_len`: the bytes of the newline sequence at `pos`, or 0. */
  function NewlineLen(s: Bytes, pos: nat, flags: bv32): (n: nat)
    ensures n > 0 ==> pos + n <= |s|
  {
    if pos >= |s| then 0
    else
      var f := Normalized(flags);
      if s[pos] == 0x0D then
        if f & CRLF != 0 && pos + 1 < |s| && s[pos + 1] == 0x0A then 2
        else if f & CR != 0 then 1 else 0
      else if s[pos] == 0x0A then (if f & LF != 0 then 1 else 0)
      else if f & UNICODE != 0 then
        var d := Rfc3629(s[pos..]);
        if d.Some? && IsUnicodeNewline(d.value.cp) then d.value.len else 0
      else 0
  }

  /** The offsets just after each newline sequence, scanning on from `i`. */
  function LineStarts(s: Bytes, flags: bv32, i: nat): (starts: seq<nat>)
    ensures Increasing(starts)
    ensures forall k :: 0 <= k < |starts| ==> i < starts[k] <= |s|
    decreases |s| - i
  {
    if i >= |s| then []
    else
      var n := NewlineLen(s, i, flags);
      if n != 0 then
        var rest := LineStarts(s, flags, i + n);
        [i + n] + rest
      else LineStarts(s, flags, i + 1)
  }

  predicate Increasing(table: seq<nat>) {
    forall j, k :: 0 <= j < k < |table| ==> table[j] < table[k]
  }

  lemma StartsUnfold(s: Bytes, flags: bv32, i: nat)
    requires i < |s|
    ensures var n := NewlineLen(s, i, flags);
            LineStarts(s, flags, i)
            == if n != 0 then [i + n] + LineStarts(s, flags, i + n) else LineStarts(s, flags, i + 1)
  {
  }

  /** The line table: line 1 starts at 0. */
  function LineTable(s: Bytes, flags: bv32): seq<nat> {
    [0] + LineStarts(s, flags, 0)
  }

  // ----- newline sequences as byte strings

  /** The sequences that end a line; flags 0 stand for line feed, carriage return and the two together. */
  function Newlines(flags: bv32): set<Bytes> {
    if flags == 0 then {[0x0A], [0x0D, 0x0A], [0x0D]}
    else
      (if flags & LF != 0 then {[0x0A]} else {})
      + (if flags & CRLF != 0 then {[0x0D, 0x0A]} else {})
      + (if flags & CR != 0 then {[0x0D]} else {})
      + (if flags & UNICODE != 0 then {Encode(0x85), Encode(0x2028), Encode(0x2029)} else {})
  }

  predicate Has(s: Bytes, pos: nat, lit: Bytes) {
    pos + |lit| <= |s| && s[pos..pos + |lit|] == lit
  }

  /** `n` is the length of the longest of the sequences at `pos`, or 0. */
  ghost predicate IsLongestNewline(s: Bytes, flags: bv32, pos: nat, n: nat) {
    && (forall lit <- Newlines(flags) :: Has(s, pos, lit) ==> |lit| <= n)
    && (n > 0 ==> pos + n <= |s| && s[pos..pos + n] in Newlines(flags))
  }

  lemma FeedLen(s: Bytes, pos: nat, flags: bv32)
    requires pos < |s| && s[pos] == 0x0A
    ensures IsLongestNewline(s, flags, pos, NewlineLen(s, pos, flags))
  {
    EncodedLeads();
    assert s[pos..pos + 1] == [0x0A];
    forall lit <- Newlines(flags) ensures Has(s, pos, lit) ==> |lit| <= NewlineLen(s, pos, flags) {
      if Has(s, pos, lit) { assert lit[0] == s[pos]; }
    }
    DefaultFlags(flags);
  }

  lemma ReturnLen(s: Bytes, pos: nat, flags: bv32)
    requires pos < |s| && s[pos] == 0x0D
    ensures IsLongestNewline(s, flags, pos, NewlineLen(s, pos, flags))
  {
    EncodedLeads();
    assert s[pos..pos + 1] == [0x0D];
    if pos + 1 < |s| { assert s[pos..pos + 2] == [0x0D, s[pos + 1]]; }
    DefaultFlags(flags);
    forall lit <- Newlines(flags) ensures Has(s, pos, lit) ==> |lit| <= NewlineLen(s, pos, flags) {
      if Has(s, pos, lit) { assert lit[0] == s[pos]; }
    }
  }

  lemma DefaultFlags(flags: bv32)
    ensures Normalized(flags) & LF != 0 <==> flags == 0 || flags & LF != 0
    ensures Normalized(flags) & CRLF != 0 <==> flags == 0 || flags & CRLF != 0
    ensures Normalized(flags) & CR != 0 <==> flags == 0 || flags & CR != 0
    ensures Normalized(flags) & UNICODE != 0 <==> flags & UNICODE != 0
  {
  }

  lemma EncodedLeads()
    ensures Encode(0x85) == [0xC2, 0x85] && Encode(0x2028) == [0xE2, 0x80, 0xA8] && Encode(0x2029) == [0xE2, 0x80, 0xA9]
  {
  }

  lemma UnicodeLen(s: Bytes, pos: nat, flags: bv32)
    requires pos < |s| && s[pos] != 0x0D && s[pos] != 0x0A
    ensures IsLongestNewline(s, flags, pos, NewlineLen(s, pos, flags))
  {
    DefaultFlags(flags);
    hide Rfc3629, Encode;
    var d := Rfc3629(s[pos..]);
    if d.Some? {
      EncodeOfDecode(s[pos..]);
      assert s[pos..][..d.value.len] == s[pos..pos + d.value.len];
    }
    forall lit <- Newlines(flags) ensures Has(s, pos, lit) ==> |lit| <= NewlineLen(s, pos, flags) {
      if Has(s, pos, lit) {
        assert lit[0] == s[pos];
        UnicodeSequence(s, pos, lit);
      }
    }
  }

  lemma UnicodeSequence(s: Bytes, pos: nat, lit: Bytes)
    requires Has(s, pos, lit)
    ensures forall cp | IsUnicodeNewline(cp) && lit == Encode(cp) :: Rfc3629(s[pos..]) == Some(Decoded(cp, |lit|))
  {
    hide Rfc3629, Encode;
    forall cp | IsUnicodeNewline(cp) && lit == Encode(cp) ensures Rfc3629(s[pos..]) == Some(Decoded(cp, |lit|)) {
      DecodeOfEncode(cp, s[pos + |lit|..]);
      assert s[pos..] == lit + s[pos + |lit|..];
    }
  }

  /** `kavak_source_newline_len` takes the longest newline sequence there is. */
  lemma NewlineLenIsLongest(s: Bytes, pos: nat, flags: bv32)
    ensures IsLongestNewline(s, flags, pos, NewlineLen(s, pos, flags))
  {
    if pos < |s| {
      if s[pos] == 0x0A {
        FeedLen(s, pos, flags);
      } else if s[pos] == 0x0D {
        ReturnLen(s, pos, flags);
      } else {
        UnicodeLen(s, pos, flags);
      }
    } else {
      EncodedLeads();
    }
  }

  /** A newline sequence begins at `j` and ends at `x`; the second half of a CR LF pair begins none. */
  ghost predicate EndsAt(s: Bytes, flags: bv32, j: nat, x: nat) {
    && j < x && IsLongestNewline(s, flags, j, x - j)
    && !(j > 0 && [0x0D, 0x0A] in Newlines(flags) && Has(s, j - 1, [0x0D, 0x0A]))
  }

  /** The newline sequences that begin at `i` or later and end at or before `query`. */
  ghost function CountFrom(s: Bytes, flags: bv32, i: nat, query: nat): nat
    decreases |s| - i
  {
    if i >= |s| then 0
    else (if exists x: nat :: x <= query && EndsAt(s, flags, i, x) then 1 else 0) + CountFrom(s, flags, i + 1, query)
  }

  /** A line starts at 0 and right after each newline sequence. */
  ghost predicate IsLineStart(s: Bytes, flags: bv32, x: nat) {
    x == 0 || exists j: nat :: EndsAt(s, flags, j, x)
  }

  /** The line `query` is on starts at `start`. */
  ghost predicate StartsLineOf(s: Bytes, flags: bv32, start: nat, query: nat) {
    && start <= query && IsLineStart(s, flags, start)
    && forall x: nat :: start < x <= query ==> !IsLineStart(s, flags, x)
  }

  /** Line and column as the header defines them, 1-based. */
  ghost predicate IsPosition(s: Bytes, flags: bv32, query: nat, line: nat, col: nat) {
    && line == 1 + CountFrom(s, flags, 0, query)
    && exists start: nat :: StartsLineOf(s, flags, start, query) && col == (query - start + 1) % (UINT32_MAX + 1)
  }

  // ----- the scan, one position at a time

  /** A newline sequence starts here; the second half of a CR LF pair does not count. */
  predicate NewlineAt(s: Bytes, flags: bv32, i: nat) {
    && NewlineLen(s, i, flags) > 0
    && !(i > 0 && s[i] == 0x0A && NewlineLen(s, i - 1, flags) == 2)
  }

  /** How many start at `i` or later and end at or before `query`. */
  function ScanCount(s: Bytes, flags: bv32, i: nat, query: nat): nat
    decreases |s| - i
  {
    if i >= |s| then 0
    else
      (if NewlineAt(s, flags, i) && i + NewlineLen(s, i, flags) <= query then 1 else 0)
      + ScanCount(s, flags, i + 1, query)
  }

  predicate ScanEndsAt(s: Bytes, flags: bv32, j: nat, x: nat) {
    NewlineAt(s, flags, j) && j + NewlineLen(s, j, flags) == x
  }

  lemma PairLen(s: Bytes, flags: bv32, i: nat)
    requires i + 1 < |s|
    ensures s[i + 1] == 0x0A && NewlineLen(s, i, flags) == 2 <==>
            [0x0D, 0x0A] in Newlines(flags) && Has(s, i, [0x0D, 0x0A])
  {
    DefaultFlags(flags);
    EncodedLeads();
    assert s[i..i + 2] == [s[i], s[i + 1]];
    if s[i] != 0x0D && NewlineLen(s, i, flags) == 2 {
      assert s[i..][1] == s[i + 1];
    }
  }

  /** The scan and the byte strings agree on every newline sequence. */
  lemma EndsAtIsScan(s: Bytes, flags: bv32, j: nat, x: nat)
    ensures EndsAt(s, flags, j, x) <==> ScanEndsAt(s, flags, j, x)
  {
    hide NewlineLen, Newlines;
    NewlineLenIsLongest(s, j, flags);
    var n := NewlineLen(s, j, flags);
    if 0 < j < |s| { PairLen(s, flags, j - 1); }
    if n > 0 { assert Has(s, j, s[j..j + n]); }
    if j < x && IsLongestNewline(s, flags, j, x - j) { assert Has(s, j, s[j..x]); }
  }

  lemma {:induction false} CountsAgree(s: Bytes, flags: bv32, i: nat, query: nat)
    ensures CountFrom(s, flags, i, query) == ScanCount(s, flags, i, query)
    decreases |s| - i
  {
    hide NewlineLen, NewlineAt, EndsAt;
    if i < |s| {
      EndsAtIsScan(s, flags, i, i + NewlineLen(s, i, flags));
      forall x: nat ensures EndsAt(s, flags, i, x) ==> NewlineAt(s, flags, i) && x == i + NewlineLen(s, i, flags) {
        EndsAtIsScan(s, flags, i, x);
      }
      CountsAgree(s, flags, i + 1, query);
    }
  }

  /** How many of the offsets are at or before `query`. */
  function CountUpTo(starts: seq<nat>, query: nat): nat {
    if starts == [] then 0
    else (if starts[0] <= query then 1 else 0) + CountUpTo(starts[1..], query)
  }

  /** Position `i` is not the second half of a CR LF pair. */
  predicate Aligned(s: Bytes, flags: bv32, i: nat) {
    !(0 < i < |s| && s[i] == 0x0A && NewlineLen(s, i - 1, flags) == 2)
  }

  /** The bytes of a newline sequence after its first start no newline of their own. */
  lemma InsideNewline(s: Bytes, flags: bv32, i: nat, j: nat)
    requires i < j < i + NewlineLen(s, i, flags)
    ensures !NewlineAt(s, flags, j)
  {
    if s[i] == 0x0D {
      assert j == i + 1 && NewlineLen(s, j - 1, flags) == 2;
    } else {
      var t := s[i..];
      assert t[j - i] == s[j];
      assert IsTail(s[j]);
    }
  }

  /** Scanning past a newline, or past a byte that starts none, leaves the scan aligned. */
  lemma AlignedNext(s: Bytes, flags: bv32, i: nat)
    requires i < |s|
    ensures var n := NewlineLen(s, i, flags);
            Aligned(s, flags, i + if n == 0 then 1 else n)
  {
    var n := NewlineLen(s, i, flags);
    var next := i + if n == 0 then 1 else n;
    if n >= 2 && s[i] != 0x0D {
      var t := s[i..];
      assert t[n - 1] == s[next - 1];
    }
  }

  lemma {:induction false} SkipInside(s: Bytes, flags: bv32, i: nat, j: nat, query: nat)
    requires i < j <= i + NewlineLen(s, i, flags)
    ensures ScanCount(s, flags, j, query) == ScanCount(s, flags, i + NewlineLen(s, i, flags), query)
    decreases i + NewlineLen(s, i, flags) - j
  {
    if j < i + NewlineLen(s, i, flags) {
      InsideNewline(s, flags, i, j);
      SkipInside(s, flags, i, j + 1, query);
    }
  }

  lemma NewlineTurn(s: Bytes, flags: bv32, i: nat, query: nat)
    requires i < |s| && NewlineLen(s, i, flags) != 0
    requires Aligned(s, flags, i)
    ensures var n := NewlineLen(s, i, flags);
            ScanCount(s, flags, i, query) == (if i + n <= query then 1 else 0) + ScanCount(s, flags, i + n, query)
    ensures var n := NewlineLen(s, i, flags);
            CountUpTo(LineStarts(s, flags, i), query)
            == (if i + n <= query then 1 else 0) + CountUpTo(LineStarts(s, flags, i + n), query)
  {
    SkipInside(s, flags, i, i + 1, query);
    assert NewlineAt(s, flags, i);
    hide NewlineLen, Aligned, NewlineAt;
    var starts := LineStarts(s, flags, i);
    assert starts[0] == i + NewlineLen(s, i, flags) && starts[1..] == LineStarts(s, flags, i + NewlineLen(s, i, flags));
  }

  lemma {:induction false} JumpsMissNothing(s: Bytes, flags: bv32, i: nat, query: nat)
    requires Aligned(s, flags, i)
    ensures CountUpTo(LineStarts(s, flags, i), query) == ScanCount(s, flags, i, query)
    decreases |s| - i
  {
    hide NewlineLen, Aligned;
    if i < |s| {
      var n := NewlineLen(s, i, flags);
      AlignedNext(s, flags, i);
      if n != 0 {
        NewlineTurn(s, flags, i, query);
        JumpsMissNothing(s, flags, i + n, query);
      } else {
        JumpsMissNothing(s, flags, i + 1, query);
      }
    }
  }

  /** The scan that jumps over newline sequences finds exactly those there are. */
  lemma ScanMatchesReference(s: Bytes, flags: bv32, query: nat)
    ensures CountUpTo(LineStarts(s, flags, 0), query) == CountFrom(s, flags, 0, query)
  {
    JumpsMissNothing(s, flags, 0, query);
    CountsAgree(s, flags, 0, query);
  }

  /** In an increasing table the entries up to `query` are a prefix. */
  lemma {:induction false} CountIsIndex(table: seq<nat>, query: nat, k: nat)
    requires k <= |table|
    requires forall i :: 0 <= i < k ==> table[i] <= query
    requires forall i :: k <= i < |table| ==> table[i] > query
    ensures CountUpTo(table, query) == k
  {
    if table != [] {
      CountIsIndex(table[1..], query, if k == 0 then 0 else k - 1);
    }
  }

  lemma {:induction false} StartIsEnd(s: Bytes, flags: bv32, i: nat, x: nat) returns (j: nat)
    requires Aligned(s, flags, i)
    requires x in LineStarts(s, flags, i)
    ensures ScanEndsAt(s, flags, j, x)
    decreases |s| - i
  {
    hide LineStarts, NewlineLen, Aligned, NewlineAt;
    var n := NewlineLen(s, i, flags);
    StartsUnfold(s, flags, i);
    if n != 0 && x == i + n {
      AlignedNewline(s, flags, i);
      j := i;
    } else {
      AlignedNext(s, flags, i);
      j := StartIsEnd(s, flags, i + if n == 0 then 1 else n, x);
    }
  }

  lemma AlignedNewline(s: Bytes, flags: bv32, i: nat)
    requires Aligned(s, flags, i) && NewlineLen(s, i, flags) != 0
    ensures NewlineAt(s, flags, i)
  {
  }

  lemma JumpStaysBefore(s: Bytes, flags: bv32, i: nat, j: nat)
    requires i < j && NewlineAt(s, flags, j)
    ensures i + NewlineLen(s, i, flags) <= j < |s|
  {
    if i < j < i + NewlineLen(s, i, flags) { InsideNewline(s, flags, i, j); }
  }

  lemma {:induction false} EndIsStart(s: Bytes, flags: bv32, i: nat, j: nat)
    requires i <= j && NewlineAt(s, flags, j)
    requires Aligned(s, flags, i)
    ensures j + NewlineLen(s, j, flags) in LineStarts(s, flags, i)
    decreases |s| - i
  {
    hide LineStarts, NewlineLen, Aligned, NewlineAt;
    var n := NewlineLen(s, i, flags);
    if i < j {
      JumpStaysBefore(s, flags, i, j);
      AlignedNext(s, flags, i);
      StartsUnfold(s, flags, i);
      EndIsStart(s, flags, i + if n == 0 then 1 else n, j);
    } else {
      assert n > 0 && i < |s| by { NewlineInside(s, flags, i); }
      StartsUnfold(s, flags, i);
    }
  }

  lemma NewlineInside(s: Bytes, flags: bv32, i: nat)
    requires NewlineAt(s, flags, i)
    ensures NewlineLen(s, i, flags) > 0 && i < |s|
  {
  }

  /** The table holds the line starts and nothing else. */
  lemma LinesStartAfterNewlines(s: Bytes, flags: bv32, x: nat)
    ensures x in LineTable(s, flags) <==> IsLineStart(s, flags, x)
  {
    hide LineStarts, NewlineLen, EndsAt, ScanEndsAt;
    if x in LineStarts(s, flags, 0) {
      var j := StartIsEnd(s, flags, 0, x);
      EndsAtIsScan(s, flags, j, x);
    }
    if j: nat :| EndsAt(s, flags, j, x) {
      EndsAtIsScan(s, flags, j, x);
      EndIsTableStart(s, flags, j, x);
    }
  }

  lemma EndIsTableStart(s: Bytes, flags: bv32, j: nat, x: nat)
    requires ScanEndsAt(s, flags, j, x)
    ensures x in LineTable(s, flags)
  {
    EndIsStart(s, flags, 0, j);
  }

  // ----- the lazily built table

  /** The scan refuses a text of more than UINT32_MAX - 1 lines. */
  predicate Fits(s: Bytes, flags: bv32) {
    |LineTable(s, flags)| <= UINT32_MAX - 1
  }

  /** The scan has reached `i` and `done` holds the line starts it has passed. */
  ghost predicate Scanned(s: Bytes, flags: bv32, done: seq<nat>, i: nat) {
    LineTable(s, flags) == done + LineStarts(s, flags, i)
  }

  lemma ScanBegins(s: Bytes, flags: bv32)
    ensures Scanned(s, flags, [0], 0)
  {
  }

  lemma ScanGoesOn(s: Bytes, flags: bv32, done: seq<nat>, i: nat)
    requires i < |s| && Scanned(s, flags, done, i)
    ensures NewlineLen(s, i, flags) == 0 ==> Scanned(s, flags, done, i + 1)
    ensures var n := NewlineLen(s, i, flags);
            n != 0 ==> Scanned(s, flags, done + [i + n], i + n)
    ensures NewlineLen(s, i, flags) != 0 && |done| >= UINT32_MAX - 1 ==> !Fits(s, flags)
  {
    StartsUnfold(s, flags, i);
    hide NewlineLen, LineTable, LineStarts;
    var n := NewlineLen(s, i, flags);
    if n != 0 {
      var rest := LineStarts(s, flags, i + n);
      assert |LineTable(s, flags)| == |done| + 1 + |rest|;
      assert done + ([i + n] + rest) == (done + [i + n]) + rest;
    }
  }

  lemma ScanEnds(s: Bytes, flags: bv32, done: seq<nat>, i: nat)
    requires i >= |s| && Scanned(s, flags, done, i)
    ensures done == LineTable(s, flags)
    ensures |done| <= UINT32_MAX - 1 ==> Fits(s, flags)
  {
  }

  /** `lo` is the last entry of the line table at or before `query`. */
  predicate IsLastStart(s: Bytes, flags: bv32, lo: nat, query: nat) {
    var table := LineTable(s, flags);
    lo < |table| && table[lo] <= query && (lo + 1 < |table| ==> query < table[lo + 1])
  }

  /** What bisection ends on is the line, counted from 0, and its start. */
  lemma BisectionFinds(s: Bytes, flags: bv32, query: nat, lo: nat)
    requires IsLastStart(s, flags, lo, query)
    ensures lo == CountFrom(s, flags, 0, query) && StartsLineOf(s, flags, LineTable(s, flags)[lo], query)
  {
    hide LineStarts, NewlineLen, CountFrom, IsLineStart;
    var table := LineTable(s, flags);
    TableIncreases(s, flags);
    CountIsIndex(table, query, lo + 1);
    assert table[1..] == LineStarts(s, flags, 0);
    ScanMatchesReference(s, flags, query);
    LinesStartAfterNewlines(s, flags, table[lo]);
    forall x: nat | table[lo] < x <= query ensures !IsLineStart(s, flags, x) {
      LinesStartAfterNewlines(s, flags, x);
      assert forall k :: 0 <= k < |table| ==> if k <= lo then table[k] <= table[lo] else table[k] > query;
    }
  }

  lemma TableIncreases(s: Bytes, flags: bv32)
    ensures |LineTable(s, flags)| > 0 && LineTable(s, flags)[0] == 0 && Increasing(LineTable(s, flags))
  {
  }

  lemma {:induction false} LastStart(table: seq<nat>, query: nat, k: nat) returns (lo: nat)
    requires k < |table| && table[k] <= query && Increasing(table)
    ensures lo < |table| && table[lo] <= query && (lo + 1 < |table| ==> query < table[lo + 1])
    decreases |table| - k
  {
    if k + 1 < |table| && table[k + 1] <= query {
      lo := LastStart(table, query, k + 1);
    } else {
      lo := k;
    }
  }

  /** A position is an entry of the line table and the distance from it. */
  lemma PositionInTable(s: Bytes, flags: bv32, query: nat, line: nat, col: nat)
    requires IsPosition(s, flags, query, line, col)
    ensures 1 <= line <= |LineTable(s, flags)| && LineTable(s, flags)[line - 1] <= query
    ensures col == (query - LineTable(s, flags)[line - 1] + 1) % (UINT32_MAX + 1)
    ensures line == 1 ==> LineTable(s, flags)[line - 1] == 0
    ensures line > 1 ==> LineTable(s, flags)[line - 1] > 0
  {
    hide LineTable, CountFrom, IsLineStart;
    TableIncreases(s, flags);
    var lo := LastStart(LineTable(s, flags), query, 0);
    BisectionFinds(s, flags, query, lo);
    var start: nat :| StartsLineOf(s, flags, start, query) && col == (query - start + 1) % (UINT32_MAX + 1);
    assert start == LineTable(s, flags)[lo];
  }

  /**
   Offset to position and back is the identity, except where the 32-bit column wraps to 0:
   at the very end of a one-line text of the greatest length.
  */
  lemma OffsetRecovered(s: Bytes, flags: bv32, query: nat, line: nat, col: nat)
    requires query <= |s| <= UINT32_MAX
    requires IsPosition(s, flags, query, line, col)
    ensures 1 <= line <= |LineTable(s, flags)|
    ensures LineTable(s, flags)[line - 1] + col - 1 == query
            <==> !(query == UINT32_MAX && CountFrom(s, flags, 0, query) == 0)
  {
    hide LineTable, CountFrom, StartsLineOf;
    PositionInTable(s, flags, query, line, col);
    var start := LineTable(s, flags)[line - 1];
    if query - start + 1 <= UINT32_MAX {
      assert col == query - start + 1;
    } else {
      assert query - start + 1 == UINT32_MAX + 1;
      assert col == 0;
    }
  }

  lemma {:induction false} NoNewlines(s: Bytes, flags: bv32, i: nat)
    requires forall k :: 0 <= k < |s| ==> s[k] == 0x61
    ensures LineStarts(s, flags, i) == []
    decreases |s| - i
  {
    if i < |s| {
      assert s[i..][0] == 0x61;
      assert NewlineLen(s, i, flags) == 0;
      NoNewlines(s, flags, i + 1);
    }
  }

  /** The text of 2^32 - 1 letters is such a text: its end has column 0 on line 1. */
  lemma ColumnWraps(s: Bytes, flags: bv32)
    requires s == seq(UINT32_MAX, _ => 0x61)
    ensures IsPosition(s, flags, UINT32_MAX, 1, 0)
    ensures LineTable(s, flags) == [0]
  {
    NoNewlines(s, flags, 0);
    BisectionFinds(s, flags, UINT32_MAX, 0);
    hide LineStarts, CountFrom, StartsLineOf;
  }

  /** Different offsets have different positions. */
  lemma PositionsAreDistinct(s: Bytes, flags: bv32, first: nat, second: nat, line: nat, col: nat)
    requires first <= |s| <= UINT32_MAX && second <= |s|
    requires IsPosition(s, flags, first, line, col) && IsPosition(s, flags, second, line, col)
    ensures first == second
  {
    hide *;
    SamePosition(s, flags, first, line, col);
    SamePosition(s, flags, second, line, col);
  }

  lemma SamePosition(s: Bytes, flags: bv32, query: nat, line: nat, col: nat)
    requires query <= |s| <= UINT32_MAX
    requires IsPosition(s, flags, query, line, col)
    ensures 1 <= line <= |LineTable(s, flags)|
    ensures query == LineTable(s, flags)[line - 1] + if col == 0 then UINT32_MAX else col - 1
  {
    hide LineTable, CountFrom, StartsLineOf;
    PositionInTable(s, flags, query, line, col);
    var d := query - LineTable(s, flags)[line - 1];
    if d == UINT32_MAX { assert col == 0; } else { assert col == d + 1; }
  }

  lemma PositionOf(s: Bytes, flags: bv32, query: nat, lo: nat)
    requires IsLastStart(s, flags, lo, query)
    ensures IsPosition(s, flags, query, lo + 1, (query - LineTable(s, flags)[lo] + 1) % (UINT32_MAX + 1))
  {
    BisectionFinds(s, flags, query, lo);
    hide LineTable, CountFrom, StartsLineOf;
  }

  /** A text and, once it has been asked for, its line table with the end sentinel behind the last line. */
  class SourceText {
    const bytes: Bytes
    const flags: bv32
    var offsets: array?<nat>
    var count: nat

    /** `kavak_source_init_with_newlines` on a text of at most UINT32_MAX bytes. */
    constructor (bytes: Bytes, flags: bv32)
      requires |bytes| <= UINT32_MAX
      ensures this.bytes == bytes && this.flags == Normalized(flags)
      ensures Valid() && offsets == null
    {
      this.bytes := bytes;
      this.flags := Normalized(flags);
      offsets := null;
      count := 0;
    }

    ghost predicate Valid()
      reads this, offsets
    {
      && |bytes| <= UINT32_MAX
      && (offsets != null ==> Fits(bytes, flags) && IsTable(offsets, count))
    }

    ghost predicate IsTable(a: array<nat>, n: nat)
      reads a
    {
      && n < a.Length
      && a[..n] == LineTable(bytes, flags)
      && a[n] == |bytes|
    }

    /** `ensure_line_offsets`. */
    method EnsureLineOffsets() returns (ok: bool)
      requires Valid()
      modifies this
      ensures Valid()
      ensures ok <==> offsets != null
      ensures ok <==> Fits(bytes, flags)
      ensures old(offsets) != null ==> offsets == old(offsets) && count == old(count)
      ensures ok && old(offsets) == null ==> fresh(offsets)
    {
      hide LineTable, Fits;
      if offsets != null { return true; }
      offsets, count := BuildTable(bytes, flags);
      ok := offsets != null;
    }

    /** Its one pass, growing the table by doubling. */
    static method BuildTable(bytes: Bytes, flags: bv32) returns (built: array?<nat>, n: nat)
      requires |bytes| <= UINT32_MAX
      ensures built != null <==> Fits(bytes, flags)
      ensures built != null ==> fresh(built) && n < built.Length
      ensures built != null ==> built[..n] == LineTable(bytes, flags) && built[n] == |bytes|
    {
      hide LineTable, LineStarts, NewlineLen, Scanned, Fits;
      var table := new nat[|bytes| / 64 + 8];
      n := 1;
      table[0] := 0;
      assert table[..n] == [0];
      ScanBegins(bytes, flags);
      var i: nat := 0;
      while i < |bytes|
        invariant fresh(table)
        invariant 1 <= n < table.Length && n <= UINT32_MAX - 1
        invariant table.Length <= |bytes| / 64 + 8 + 2 * n
        invariant Scanned(bytes, flags, table[..n], i)
        decreases |bytes| - i
      {
        var len := NewlineLen(bytes, i, flags);
        ScanGoesOn(bytes, flags, table[..n], i);
        if len != 0 {
          var room;
          room, table := AddLine(table, n, i + len);
          if !room { return null, 0; }
          n := n + 1;
          i := i + len;
        } else {
          i := i + 1;
        }
      }
      ScanEnds(bytes, flags, table[..n], i);
      table[n] := |bytes|;
      built := table;
    }

    /** One more line start behind `n` others, in a table doubled when only the sentinel's place is left. */
    static method AddLine(table: array<nat>, n: nat, start: nat) returns (room: bool, grown: array<nat>)
      requires 1 <= n < table.Length && n <= UINT32_MAX - 1
      requires table.Length <= UINT32_MAX / 64 + 8 + 2 * n
      modifies table
      ensures room <==> n < UINT32_MAX - 1
      ensures room ==> n + 1 < grown.Length && grown[..n + 1] == old(table[..n]) + [start]
      ensures grown == table || (fresh(grown) && grown.Length == 2 * table.Length && table.Length <= n + 1)
    {
      grown := table;
      if n >= UINT32_MAX - 1 { return false, grown; }
      if n + 1 >= table.Length {
        // at most UINT32_MAX lines: the doubling does not overflow
        if table.Length > SIZE_MAX / 4 / 2 { assert false; }
        grown := Regrow(table, n, table.Length * 2);
      }
      grown[n] := start;
      room := true;
    }

    /** `realloc` to a larger block: the used part is copied. */
    static method Regrow(table: array<nat>, used: nat, cap: nat) returns (grown: array<nat>)
      requires used <= table.Length && used <= cap
      ensures fresh(grown) && grown.Length == cap && grown[..used] == table[..used]
    {
      grown := new nat[cap];
      for i := 0 to used
        invariant grown[..i] == table[..i]
      {
        grown[i] := table[i];
      }
    }

    /** `kavak_source_pos`. */
    method Pos(bytePos: nat) returns (line: nat, col: nat)
      requires Valid()
      modifies this
      ensures Valid()
      ensures var query := if bytePos > |bytes| then |bytes| else bytePos;
              if Fits(bytes, flags) then IsPosition(bytes, flags, query, line, col) else line == 1 && col == 1
    {
      hide LineTable, Fits, IsPosition;
      var ok := EnsureLineOffsets();
      if offsets == null { return 1, 1; }
      var query := if bytePos > |bytes| then |bytes| else bytePos;
      TableIncreases(bytes, flags);
      var lo := Bisect(offsets, count, query);
      PositionOf(bytes, flags, query, lo);
      line := lo + 1;
      col := (query - offsets[lo] + 1) % (UINT32_MAX + 1);
    }

    /** The last of the first `count` entries that is at or before `query`. */
    static method Bisect(offsets: array<nat>, count: nat, query: nat) returns (lo: nat)
      requires 0 < count <= offsets.Length && offsets[0] <= query
      ensures lo < count && offsets[lo] <= query
      ensures lo + 1 < count ==> query < offsets[lo + 1]
    {
      lo := 0;
      var hi: nat := count;
      while lo + 1 < hi
        invariant lo < hi <= count
        invariant offsets[lo] <= query
        invariant hi < count ==> query < offsets[hi]
      {
        var mid := lo + (hi - lo) / 2;
        if offsets[mid] <= query { lo := mid; } else { hi := mid; }
      }
    }
  }
}
