/**
 The lexer object of `src/lexer.c`: a cursor over the text, token and diagnostic lists,
 the indentation stack and the interpolation depth, changed in place.
*/
module Lexer {
  import opened Options
  import opened Machine
  import opened Utf8
  import opened LexConfig
  import opened LexLookup
  import opened Scanners
  import opened TokenScan
  import opened TokenCases
  import opened Layout
  import Source

  class TokenLexer {
    const s: Bytes
    const t: Tables
    const policy: Policy

    var pos: nat
    var toks: seq<Token>
    var diags: seq<Diag>
    var interpDepth: nat
    const indentStack: array<nat>
    var indentTop: nat
    var lastSig: nat
    var lineStart: bool
    var significant: bool

    /** The language as the specification sees it. */
    ghost function L(): Lang {
      Canonical(t, policy)
    }

    ghost predicate Valid()
      reads this
    {
      pos <= |s| && interpDepth <= MAX_INTERP_DEPTH
    }

    constructor (s: Bytes, t: Tables, policy: Policy)
      ensures this.s == s && this.t == t && this.policy == policy
      ensures Valid() && interpDepth == 0 && indentStack.Length == MAX_INDENT_DEPTH
      ensures indentTop == 0 && indentStack[0] == 0
      ensures pos == 0 && toks == [] && diags == [] && lineStart && !significant && lastSig == 0
      ensures fresh(indentStack)
    {
      this.s := s;
      this.t := t;
      this.policy := policy;
      pos := 0;
      toks := [];
      diags := [];
      interpDepth := 0;
      indentStack := new nat[MAX_INDENT_DEPTH](_ => 0);
      indentTop := 0;
      lastSig := 0;
      lineStart := true;
      significant := false;
    }

    // ----- what a scanner does to the object

    /** The scanner took `out`, on top of what was there. */
    ghost predicate Took(out: Out, toks0: seq<Token>, diags0: seq<Diag>)
      reads this
    {
      pos == out.pos && toks == toks0 + out.toks && diags == diags0 + out.diags
    }

    /** The scanner declined, or took what the specification says. */
    ghost predicate Scanned(matched: bool, r: Scan, pos0: nat, toks0: seq<Token>, diags0: seq<Diag>)
      reads this
    {
      matched == r.Some? && Took(if r.Some? then r.value else Out(pos0, [], []), toks0, diags0)
    }

    /** `emit_token`. */
    method Emit(kind: nat, start: nat, end: nat, v: nat)
      modifies this`toks
      ensures toks == old(toks) + [Token(kind, start, end, v)]
    {
      toks := toks + [Token(kind, start, end, v)];
    }

    /** `push_diag`. */
    method Report(message: Message, start: nat, end: nat)
      modifies this`diags
      ensures diags == old(diags) + [Diag(message, start, end)]
    {
      diags := diags + [Diag(message, start, end)];
    }

    /** `emit_invalid`. */
    method EmitInvalid(start: nat, message: Message)
      modifies this`toks, this`diags
      ensures Took(Invalid(start, pos, message), old(toks), old(diags))
    {
      Emit(INVALID, start, pos, 0);
      Report(message, start, pos);
    }

    // ----- characters

    /** `newline_len_at`. */
    function NewlineLen(p: nat): nat {
      Source.NewlineLen(s, p, policy.newlines)
    }

    /** `peek_cp`; a length of 0 is the end of the text or bad UTF-8. */
    method DecodeAt(p: nat) returns (n: nat, cp: bv32)
      requires p <= |s|
      ensures var d := PeekCp(s, p);
              if d.Some? then d.value == Decoded(cp, n) && n > 0 else n == 0
    {
      n, cp := Decode(s[p..]);
    }

    /** `skip_inline_whitespace`. */
    method SkipInlineSpace()
      requires Valid()
      modifies this`pos
      ensures Valid() && pos == SkipInline(s, old(pos))
    {
      while pos < |s| && IsInlineSpace(s[pos])
        invariant Valid() && SkipInline(s, pos) == SkipInline(s, old(pos))
        decreases |s| - pos
      {
        pos := pos + 1;
      }
    }

    /** `skip_whitespace`. */
    method SkipAllSpace()
      requires Valid()
      modifies this`pos
      ensures Valid() && pos == SkipSpace(s, L(), old(pos))
    {
      hide Source.NewlineLen, Canonical;
      while pos < |s|
        invariant Valid() && SkipSpace(s, L(), pos) == SkipSpace(s, L(), old(pos))
        decreases |s| - pos
      {
        var n := NewlineLen(pos);
        if n != 0 {
          pos := pos + n;
        } else {
          if !IsInlineSpace(s[pos]) { break; }
          pos := pos + 1;
        }
      }
    }

    // ----- identifiers

    /** The loop over identifier characters. */
    method SkipIdent()
      requires Valid()
      modifies this`pos
      ensures Valid() && pos == IdentEnd(s, L(), old(pos))
    {
      hide PeekCp, Canonical;
      while true
        invariant Valid() && IdentEnd(s, L(), pos) == IdentEnd(s, L(), old(pos))
        decreases |s| - pos
      {
        var n, cp := DecodeAt(pos);
        if n == 0 || !policy.isIdentCont(cp) { break; }
        pos := pos + n;
      }
    }

    /** `try_scan_identifier`. */
    method TryScanIdentifier() returns (matched: bool)
      requires Valid()
      modifies this`pos, this`toks
      ensures Valid()
      ensures Scanned(matched, ScanIdent(s, L(), old(pos)), old(pos), old(toks), diags)
    {
      hide PeekCp, IdentEnd, FirstWins;
      var n, cp := DecodeAt(pos);
      if n == 0 || !policy.isIdentStart(cp) { return false; }
      var start := pos;
      pos := pos + n;
      SkipIdent();
      var text := s[start..pos];
      var id := FindText(KeywordEntries(t.keywords), text);
      if id.Some? {
        var soft := Contains(t.softKeywords, id.value);
        Emit(if soft then IDENT else KEYWORD, start, pos, id.value);
      } else {
        Emit(IDENT, start, pos, 0);
      }
      matched := true;
    }

    // ----- numbers

    /** `scan_digits`. */
    method ScanDigits(base: nat) returns (any: bool)
      requires Valid()
      modifies this`pos
      ensures Valid() && (pos, any) == Digits(s, base, policy.numbers.underscores, old(pos), false)
    {
      any := false;
      while pos < |s|
        invariant Valid()
        invariant Digits(s, base, policy.numbers.underscores, pos, any)
                  == Digits(s, base, policy.numbers.underscores, old(pos), false)
        decreases |s| - pos
      {
        if DigitAt(s, pos, base) {
          pos := pos + 1;
          any := true;
        } else {
          if s[pos] != UNDERSCORE || !policy.numbers.underscores || !any { return; }
          var run := SkipUnderscores();
          if !DigitAt(s, run, base) { return; }
          pos := run;
        }
      }
    }

    method SkipUnderscores() returns (run: nat)
      requires Valid()
      ensures run == UnderscoreEnd(s, pos)
    {
      run := pos;
      while run < |s| && s[run] == UNDERSCORE
        invariant run <= |s| && UnderscoreEnd(s, run) == UnderscoreEnd(s, pos)
      {
        run := run + 1;
      }
    }

    /** `consume_number_suffix`. */
    method ConsumeSuffix()
      requires Valid()
      modifies this`pos
      ensures Valid() && pos == SuffixEnd(s, L(), old(pos))
    {
      hide PeekCp, LongestUpTo;
      var suffix := MatchSuffix(t.suffixes, s, pos);
      if suffix == None { return; }
      var after := pos + |suffix.value|;
      if policy.numbers.suffixBoundary {
        var n, cp := DecodeAt(after);
        if n != 0 && policy.isIdentCont(cp) { return; }
      }
      pos := after;
    }

    /** `emit_number`. */
    method EmitNumber(start: nat, kind: nat)
      requires Valid() && start < pos
      modifies this`pos, this`toks, this`diags
      ensures Valid()
      ensures Took(NumberOut(s, L(), start, kind, old(pos)), old(toks), old(diags))
    {
      hide SuffixEnd, IdentEnd, Canonical;
      ConsumeSuffix();
      if policy.numbers.strict {
        var end := pos;
        SkipIdent();
        if end < pos {
          EmitInvalid(start, MalformedNumber);
          return;
        }
      }
      Emit(kind, start, pos, 0);
    }

    /** `exponent_starts_here` and the sign behind it. */
    method TakeExponent() returns (taken: bool)
      requires Valid()
      modifies this`pos
      ensures Valid()
      ensures taken == ExponentAt(s, old(pos))
      ensures pos == if !taken then old(pos) else
                       Digits(s, 10, policy.numbers.underscores,
                              old(pos) + (if IsSign(Peek(s, old(pos) + 1)) then 2 else 1), false).0
    {
      if !ExponentAt(s, pos) { return false; }
      pos := pos + 1;
      if pos < |s| && IsSign(s[pos]) { pos := pos + 1; }
      var any := ScanDigits(10);
      taken := true;
    }

    /** The decimal part of `try_scan_number`. */
    method TakeDecimal(leadingDot: bool) returns (kind: nat)
      requires Valid() && pos < |s|
      requires if leadingDot then DigitAt(s, pos + 1, 10) else DigitAt(s, pos, 10)
      modifies this`pos
      ensures Valid() && (kind, pos) == Decimal(s, L(), old(pos), leadingDot)
    {
      hide Digits, Canonical, ExponentAt;
      kind := INT;
      if leadingDot {
        kind := FLOAT;
        pos := pos + 1;
        var any := ScanDigits(10);
      } else {
        var any := ScanDigits(10);
        if policy.numbers.float && Peek(s, pos) == DOT && DigitAt(s, pos + 1, 10) {
          kind := FLOAT;
          pos := pos + 1;
          any := ScanDigits(10);
        }
      }
      if policy.numbers.exponent {
        var taken := TakeExponent();
        if taken { kind := FLOAT; }
      }
    }

    /** `try_scan_number`. */
    method TryScanNumber() returns (matched: bool)
      requires Valid() && pos < |s|
      modifies this`pos, this`toks, this`diags
      ensures Valid()
      ensures Scanned(matched, ScanNumber(s, L(), old(pos)), old(pos), old(toks), old(diags))
    {
      hide Digits, Canonical, NumberOut, Decimal;
      var start := pos;
      var n := policy.numbers;
      var leadingDot := n.leadingDot && n.float && s[pos] == DOT && DigitAt(s, pos + 1, 10);
      if !leadingDot && !DigitAt(s, pos, 10) { return false; }
      matched := true;
      if !leadingDot && s[pos] == 0x30 && pos + 1 < |s| {
        var base := BaseOf(n, s[pos + 1]);
        if base != 0 {
          pos := pos + 2;
          var any := ScanDigits(base);
          if any { EmitNumber(start, INT); } else { EmitInvalid(start, MalformedNumber); }
          return;
        }
      }
      var kind := TakeDecimal(leadingDot);
      EmitNumber(start, kind);
    }

    // ----- comments

    /** The body of a line comment, up to the newline. */
    method SkipLine()
      requires Valid()
      modifies this`pos
      ensures Valid() && pos == LineEnd(s, L(), old(pos))
    {
      hide Source.NewlineLen, Canonical;
      while pos < |s| && NewlineLen(pos) == 0
        invariant Valid() && LineEnd(s, L(), pos) == LineEnd(s, L(), old(pos))
        decreases |s| - pos
      {
        pos := pos + 1;
      }
    }

    /** The body of a block comment, through its closing delimiter. */
    method SkipBlock(open: Spelling, close: Spelling, nest: bool) returns (closed: bool)
      requires Valid()
      modifies this`pos
      ensures Valid()
      ensures var end := BlockEnd(s, open, close, nest, 1, old(pos));
              pos == end.0 && closed == (end.1 == 0)
    {
      hide Matches;
      var depth: nat := 1;
      while pos < |s|
        invariant Valid() && depth > 0
        invariant BlockEnd(s, open, close, nest, depth, pos) == BlockEnd(s, open, close, nest, 1, old(pos))
        decreases |s| - pos
      {
        var opens := MatchLit(s, pos, open);
        var closes := MatchLit(s, pos, close);
        if nest && opens {
          pos := pos + |open|;
          depth := depth + 1;
        } else if closes {
          if depth == 1 {
            pos := pos + |close|;
            return true;
          }
          pos := pos + |close|;
          depth := depth - 1;
        } else {
          pos := pos + 1;
        }
      }
      closed := false;
    }

    /** `try_scan_comment`. */
    method TryScanComment() returns (matched: bool)
      requires Valid()
      modifies this`pos, this`toks, this`diags
      ensures Valid()
      ensures Scanned(matched, ScanComment(s, L(), old(pos)), old(pos), old(toks), old(diags))
    {
      hide FirstWins, LineEnd, BlockEnd, Longest, LongestUpTo, CommentEntries, Elements, LineOpens;
      var rule, _ := MatchLongest(CommentEntries(t.comments), s, pos);
      if rule == None { return false; }
      matched := true;
      var start := pos;
      var style := rule.value.value;
      var closed := true;
      pos := pos + |rule.value.text|;
      if style.close == LINE_END {
        SkipLine();
      } else {
        closed := SkipBlock(rule.value.text, style.close, style.nest);
      }
      if !closed {
        EmitInvalid(start, UnterminatedComment);
      } else if policy.keepAll || (style.isDoc && policy.keepDoc) {
        Emit(COMMENT, start, pos, 0);
      }
    }

    // ----- operators and punctuation

    /** `try_scan_operator`. */
    method TryScanOperator() returns (matched: bool)
      requires Valid()
      modifies this`pos, this`toks
      ensures Valid()
      ensures Scanned(matched, ScanOperator(s, L(), old(pos)), old(pos), old(toks), diags)
    {
      hide FirstWins, LongestUpTo;
      var op, _ := MatchLongest(OperatorEntries(t.operators), s, pos);
      var start := pos;
      if op.Some? {
        pos := pos + |op.value.text|;
        Emit(OP, start, pos, op.value.value);
        return true;
      }
      if IsKernelPunct(Peek(s, pos)) {
        var v := s[pos] as nat;
        pos := pos + 1;
        Emit(PUNCT, start, pos, v);
        return true;
      }
      matched := false;
    }

    // ----- one token

    /** `scan_token`: the scanners in their fixed order. */
    method ScanOne() returns (matched: bool)
      requires Valid() && pos < |s|
      modifies this`pos, this`toks, this`diags, this`interpDepth
      ensures Valid() && interpDepth == old(interpDepth)
      ensures Scanned(matched, ScanToken(s, L(), interpDepth, old(pos)), old(pos), old(toks), old(diags))
      decreases |s| - pos, 3
    {
      hide ScanComment, ScanString, ScanNumber, ScanIdent, ScanOperator, Canonical;
      matched := TryScanComment();
      if matched { return; }
      assert toks == old(toks) && diags == old(diags);
      matched := TryScanString();
      if matched { return; }
      assert toks == old(toks) && diags == old(diags);
      matched := TryScanNumber();
      if matched { return; }
      assert toks == old(toks) && diags == old(diags);
      matched := TryScanIdentifier();
      if matched { return; }
      assert toks == old(toks) && diags == old(diags);
      matched := TryScanOperator();
    }

    /** A token, or the recovery from a byte no scanner takes. */
    method ScanOrSkip() returns (matched: bool)
      requires Valid() && pos < |s|
      modifies this`pos, this`toks, this`diags, this`interpDepth
      ensures Valid() && interpDepth == old(interpDepth)
      ensures matched == ScanToken(s, L(), interpDepth, old(pos)).Some?
      ensures Took(TokenOrInvalid(s, L(), interpDepth, old(pos)), old(toks), old(diags))
      decreases |s| - pos, 4
    {
      hide ScanToken, Canonical;
      var start := pos;
      matched := ScanOne();
      if !matched {
        assert toks == old(toks) && diags == old(diags);
        pos := pos + 1;
        EmitInvalid(start, UnknownCharacter);
      }
    }

    // ----- strings

    /** `try_scan_string`. */
    method TryScanString() returns (matched: bool)
      requires Valid() && pos < |s|
      modifies this`pos, this`toks, this`diags, this`interpDepth
      ensures Valid() && interpDepth == old(interpDepth)
      ensures Scanned(matched, ScanString(s, L(), interpDepth, old(pos)), old(pos), old(toks), old(diags))
      decreases |s| - pos, 2
    {
      hide FirstWins, LongestUpTo, StringBody;
      var best, at := MatchLongest(StringEntries(t.strings), s, pos);
      if best == None { return false; }
      var start := pos;
      pos := pos + |best.value.text|;
      StringLoop(t.strings[at], start);
      matched := true;
    }

    /** Its loop. */
    method StringLoop(rule: StringRule, start: nat)
      requires Valid() && start < pos
      modifies this`pos, this`toks, this`diags, this`interpDepth
      ensures Valid() && interpDepth == old(interpDepth)
      ensures Took(StringBody(s, L(), rule.open, Unordered(rule), interpDepth, start, start, false, old(pos)),
                   old(toks), old(diags))
      decreases |s| - pos, 9
    {
      hide StringBody, Canonical, Before, Unordered;
      ghost var open, e := rule.open, Unordered(rule);
      var from, had, done := start, false, false;
      ghost var l, depth, toks0, diags0 := L(), interpDepth, toks, diags;
      ghost var whole := StringBody(s, l, open, e, depth, start, start, false, pos);
      ghost var tokens: seq<Token>, reports: seq<Diag> := [], [];
      NothingBefore(whole);
      while !done
        invariant Valid() && interpDepth == depth && old(pos) <= pos
        invariant done ==> Took(whole, toks0, diags0)
        invariant !done ==> toks == toks0 + tokens && diags == diags0 + reports
        invariant !done ==> whole == Before(tokens, reports, StringBody(s, l, open, e, depth, start, from, had, pos))
        decreases |s| - pos, !done
      {
        ghost var rest := StringBody(s, l, open, e, depth, start, from, had, pos);
        ghost var more, further;
        done, from, had, more, further := StringTurn(rule, start, from, had);
        BeforeBefore(toks0, diags0, tokens, reports, rest);
        if !done {
          BeforeMore(tokens, reports, more, further, StringBody(s, l, open, e, depth, start, from, had, pos));
        }
        tokens, reports := tokens + more, reports + further;
      }
    }

    /** One turn of it: the literal ends, or `more` and `further` are out and the loop goes on. */
    method StringTurn(rule: StringRule, start: nat, from: nat, had: bool)
      returns (done: bool, from': nat, had': bool, ghost more: seq<Token>, ghost further: seq<Diag>)
      requires Valid()
      modifies this`pos, this`toks, this`diags, this`interpDepth
      ensures Valid() && interpDepth == old(interpDepth)
      ensures var open, e := rule.open, Unordered(rule);
              var out := StringBody(s, L(), open, e, interpDepth, start, from, had, old(pos));
              if done then Took(out, old(toks), old(diags)) && pos >= old(pos)
              else old(pos) < pos && toks == old(toks) + more && diags == old(diags) + further
                   && out == Before(more, further, StringBody(s, L(), open, e, interpDepth, start, from', had', pos))
      decreases |s| - pos, 8
    {
      hide StringBody, Canonical, Interpolation, InterpolationAt, Fragment, Escape, Plain, CloseKind;
      done, from', had', more, further := true, from, had, [], [];
      ghost var l, depth := L(), interpDepth;
      var open, r := rule.open, rule.style;
      ghost var e := Unordered(rule);
      if pos == |s| || (!AllowsNewline(r) && IsLineBreak(s[pos])) {
        BodyStops(s, l, open, e, depth, start, from, had, pos);
        EmitInvalid(from, UnterminatedString);
        return;
      }
      var closes := MatchLit(s, pos, r.close);
      if closes {
        BodyCloses(s, l, open, e, depth, start, from, had, pos);
        pos := pos + |r.close|;
        EmitTail(open, r, from, had);
        return;
      }
      var enters := InterpolationStarts(r);
      if enters {
        BodyEnters(s, l, open, e, depth, start, from, had, pos);
        var ok;
        ok, more, further := EnterInterpolation(r, start, from);
        done, from', had' := !ok, pos, true;
        return;
      }
      if !r.raw && s[pos] == BACKSLASH {
        if pos + 1 == |s| || (!AllowsNewline(r) && IsLineBreak(s[pos + 1])) {
          BodyStops(s, l, open, e, depth, start, from, had, pos);
          pos := pos + 1;
          EmitInvalid(from, UnterminatedString);
          return;
        }
        BodySteps(s, l, open, e, depth, start, from, had, pos);
        further := TakeEscape(rule);
      } else {
        BodySteps(s, l, open, e, depth, start, from, had, pos);
        further := TakeCharacter();
      }
      done := false;
    }

    method EmitTail(open: Bytes, r: StringStyle, from: nat, had: bool)
      modifies this`toks
      ensures toks == old(toks) + [Tail(open, r, from, had, pos)]
    {
      var tagged := had && r.fragmentKind != 0;
      Emit(if tagged then r.fragmentKind else CloseKind(open, r), from, pos, if tagged then 3 else 0);
    }

    /** A backslash and what it escapes. */
    method TakeEscape(rule: StringRule) returns (ghost further: seq<Diag>)
      requires Valid() && pos + 1 < |s|
      modifies this`pos, this`diags
      ensures Valid() && diags == old(diags) + further
      ensures Escape(s, Unordered(rule), old(pos)) == Out(pos, [], further)
    {
      hide PeekCp;
      ghost var diags0 := diags;
      var start := pos;
      var c := s[pos + 1];
      pos := pos + 1;
      var len, cp := DecodeAt(pos);
      var known := if c < 0x80 then 1 else len;
      var n := if known != 0 then known else RecoveryLength(s, pos);
      pos := pos + n;
      if known == 0 && c >= 0x80 { Report(InvalidUtf8, start + 1, start + 1 + n); }
      var allowed := Contains(rule.escapes, c);
      if !allowed { Report(InvalidEscape, start, pos); }
      further := Escape(s, Unordered(rule), start).diags;
    }

    /** Any other character of the literal. */
    method TakeCharacter() returns (ghost further: seq<Diag>)
      requires Valid() && pos < |s|
      modifies this`pos, this`diags
      ensures Valid() && diags == old(diags) + further
      ensures Plain(s, old(pos)) == Out(pos, [], further)
    {
      hide PeekCp;
      var c := s[pos];
      further := Plain(s, pos).diags;
      var n, cp := DecodeAt(pos);
      pos := pos + if n != 0 then n else 1;
      if n == 0 && c >= 0x80 { Report(InvalidUtf8, pos - 1, pos); }
    }

    /** The template checks, with `interp_marker_starts_interpolation`. */
    method InterpolationStarts(r: StringStyle) returns (yes: bool)
      requires Valid()
      ensures yes == InterpolationAt(s, L(), r, pos)
    {
      hide PeekCp, Canonical;
      if !r.template || r.interpOpen == None { return false; }
      var hit := MatchLit(s, pos, r.interpOpen.value);
      if !hit { return false; }
      if r.interpClose.Some? { return true; }
      var after := pos + |r.interpOpen.value|;
      if after >= |s| { return false; }
      if s[after] == BRACE_OPEN[0] { return true; }
      var n, cp := DecodeAt(after);
      yes := n != 0 && policy.isIdentStart(cp);
    }

    /** The fragment before an interpolation, and the interpolation. */
    method EnterInterpolation(r: StringStyle, start: nat, from: nat)
      returns (ok: bool, ghost more: seq<Token>, ghost further: seq<Diag>)
      requires Valid() && InterpolationAt(s, L(), r, pos)
      modifies this`pos, this`toks, this`diags, this`interpDepth
      ensures Valid() && interpDepth == old(interpDepth) && old(pos) < pos
      ensures var i := Interpolation(s, L(), r, interpDepth, old(pos));
              && ok == i.ok && pos == i.out.pos
              && more == Fragment(r, start, from, old(pos)) + i.out.toks && further == i.out.diags
      ensures toks == old(toks) + more && diags == old(diags) + further
      decreases |s| - pos, 7
    {
      hide Canonical, Interpolation, InterpolationAt;
      ghost var head := Fragment(r, start, from, pos);
      ghost var i := Interpolation(s, L(), r, interpDepth, pos);
      if from < pos {
        if r.fragmentKind != 0 {
          Emit(r.fragmentKind, from, pos, if from == start then 1 else 2);
        } else {
          Emit(STRING, from, pos, 0);
        }
      }
      assert toks == old(toks) + head;
      ok := ScanInterpolation(r);
      more, further := head + i.out.toks, i.out.diags;
    }

    /** `scan_string_interpolation`. */
    method ScanInterpolation(r: StringStyle) returns (ok: bool)
      requires Valid() && InterpolationAt(s, L(), r, pos)
      modifies this`pos, this`toks, this`diags, this`interpDepth
      ensures Valid() && interpDepth == old(interpDepth) && old(pos) < pos
      ensures var i := Interpolation(s, L(), r, interpDepth, old(pos));
              ok == i.ok && Took(i.out, old(toks), old(diags))
      decreases |s| - pos, 6
    {
      hide Expression, PeekCp, StartsInterpolation, Canonical, ScanIdent;
      var start := pos;
      pos := pos + |r.interpOpen.value|;
      if r.interpClose.Some? {
        ok := MarkAndScan(start, r.interpOpenKind, r.interpClose.value, r.interpCloseKind);
        return;
      }
      var brace := MatchLit(s, pos, BRACE_OPEN);
      if r.interpOpen.value == DOLLAR && brace {
        pos := pos + 1;
        ok := MarkAndScan(start, r.interpOpenKind, BRACE_CLOSE, r.interpCloseKind);
        return;
      }
      ok := ScanBareName(r, start);
    }

    /** The opening mark, put out before the expression behind it. */
    method MarkAndScan(start: nat, openKind: nat, close: Bytes, closeKind: nat) returns (ok: bool)
      requires Valid() && start < pos
      modifies this`pos, this`toks, this`diags, this`interpDepth
      ensures Valid() && interpDepth == old(interpDepth) && old(pos) <= pos
      ensures var i := Marked(openKind, start, old(pos),
                              Expression(s, L(), start, close, closeKind, interpDepth, old(pos)));
              ok == i.ok && Took(i.out, old(toks), old(diags))
      decreases |s| - pos, 6
    {
      hide Expression, Canonical;
      if openKind != 0 { Emit(openKind, start, pos, 0); }
      assert toks == old(toks) + Marker(openKind, start, pos);
      ok := ScanExpression(start, close, closeKind);
    }

    /** `scan_bare_interpolation_identifier`: the token just put out is patched in place. */
    method ScanBareName(r: StringStyle, start: nat) returns (ok: bool)
      requires Valid() && start < pos
      modifies this`pos, this`toks, this`diags
      ensures Valid() && old(pos) <= pos
      ensures var name := ScanIdent(s, L(), old(pos));
              && ok == name.Some?
              && Took(if name.None? then Invalid(start, old(pos), ExpectedIdentifier)
                      else if r.bareIdentKind == 0 then name.value
                      else Out(name.value.pos, [Token(r.bareIdentKind, start, name.value.pos, 0)], []),
                      old(toks), old(diags))
    {
      hide PeekCp, Canonical, IdentEnd, IdentToken;
      ok := TryScanIdentifier();
      if ok {
        if r.bareIdentKind != 0 { toks := toks[|toks| - 1 := Token(r.bareIdentKind, start, pos, 0)]; }
      } else {
        assert toks == old(toks);
        EmitInvalid(start, ExpectedIdentifier);
      }
    }

    /** `skip_interpolation_whitespace`. */
    method SkipInterpSpace()
      requires Valid()
      modifies this`pos, this`toks
      ensures Valid() && Took(InterpSpace(s, L(), old(pos)), old(toks), diags)
    {
      hide Source.NewlineLen, Canonical, InterpSpace;
      ghost var l, tokens: seq<Token> := L(), [];
      while pos < |s|
        invariant Valid() && toks == old(toks) + tokens
        invariant InterpSpace(s, l, old(pos)) == Before(tokens, [], InterpSpace(s, l, pos))
        decreases |s| - pos
      {
        SpaceTurn(s, l, old(pos), tokens, pos);
        var n := NewlineLen(pos);
        if n != 0 {
          if policy.emitNewlines {
            Emit(NEWLINE, pos, pos + n, 0);
            tokens := tokens + [Token(NEWLINE, pos, pos + n, 0)];
          }
          pos := pos + n;
        } else {
          if !IsInlineSpace(s[pos]) { return; }
          pos := pos + 1;
        }
      }
      SpaceEnds(s, l, pos);
    }

    /** `scan_interpolation_expression`: one level deeper, and back on every way out. */
    method ScanExpression(start: nat, close: Bytes, closeKind: nat) returns (ok: bool)
      requires Valid() && start < pos
      modifies this`pos, this`toks, this`diags, this`interpDepth
      ensures Valid() && interpDepth == old(interpDepth) && old(pos) <= pos
      ensures var i := Expression(s, L(), start, close, closeKind, interpDepth, old(pos));
              ok == i.ok && Took(i.out, old(toks), old(diags))
      decreases |s| - pos, 5, 2
    {
      hide ExpressionFrom, Canonical;
      if interpDepth >= MAX_INTERP_DEPTH {
        EmitInvalid(start, InterpolationTooDeep);
        return false;
      }
      interpDepth := interpDepth + 1;
      ok := ExpressionLoop(start, close, closeKind);
      interpDepth := interpDepth - 1;
    }

    /** Its loop. */
    method ExpressionLoop(start: nat, close: Bytes, closeKind: nat) returns (ok: bool)
      requires Valid() && start < pos
      modifies this`pos, this`toks, this`diags, this`interpDepth
      ensures Valid() && interpDepth == old(interpDepth) && old(pos) <= pos
      ensures var i := ExpressionFrom(s, L(), start, close, closeKind, interpDepth, 0, old(pos));
              ok == i.ok && Took(i.out, old(toks), old(diags))
      decreases |s| - pos, 5, 1
    {
      hide ExpressionFrom, Canonical, Before;
      ok := false;
      var pairs, done := 0, false;
      ghost var l, depth, toks0, diags0 := L(), interpDepth, toks, diags;
      ghost var whole := ExpressionFrom(s, l, start, close, closeKind, depth, 0, pos);
      ghost var tokens: seq<Token>, reports: seq<Diag> := [], [];
      NothingBefore(whole.out);
      while !done
        invariant Valid() && interpDepth == depth && old(pos) <= pos
        invariant done ==> ok == whole.ok && Took(whole.out, toks0, diags0)
        invariant !done ==> toks == toks0 + tokens && diags == diags0 + reports
        invariant !done ==> var rest := ExpressionFrom(s, l, start, close, closeKind, depth, pairs, pos);
                            whole == Interp(Before(tokens, reports, rest.out), rest.ok)
        decreases |s| - pos, !done
      {
        ghost var rest := ExpressionFrom(s, l, start, close, closeKind, depth, pairs, pos);
        ghost var more, further;
        done, ok, pairs, more, further := ExpressionTurn(start, close, closeKind, pairs);
        BeforeBefore(toks0, diags0, tokens, reports, rest.out);
        if !done {
          BeforeMore(tokens, reports, more, further,
                     ExpressionFrom(s, l, start, close, closeKind, depth, pairs, pos).out);
        }
        tokens, reports := tokens + more, reports + further;
      }
    }

    /** One turn of it. */
    method ExpressionTurn(start: nat, close: Bytes, closeKind: nat, pairs: nat)
      returns (done: bool, ok: bool, left: nat, ghost more: seq<Token>, ghost further: seq<Diag>)
      requires Valid() && start < pos
      modifies this`pos, this`toks, this`diags, this`interpDepth
      ensures Valid() && interpDepth == old(interpDepth)
      ensures var i := ExpressionFrom(s, L(), start, close, closeKind, interpDepth, pairs, old(pos));
              if done then ok == i.ok && Took(i.out, old(toks), old(diags)) && pos >= old(pos)
              else
                && old(pos) < pos && toks == old(toks) + more && diags == old(diags) + further
                && var rest := ExpressionFrom(s, L(), start, close, closeKind, interpDepth, left, pos);
                   i == Interp(Before(more, further, rest.out), rest.ok)
      decreases |s| - pos, 5, 0
    {
      hide ExpressionFrom, Canonical, InterpSpace, TokenOrInvalid, ScanToken, PairsAfter, Matches;
      done, ok, left, more, further := true, false, pairs, [], [];
      ghost var l, depth, toks0 := L(), interpDepth, toks;
      ghost var space := InterpSpace(s, l, pos);
      SkipInterpSpace();
      if pos == |s| {
        LoopEnds(s, l, start, close, closeKind, depth, pairs, old(pos));
        EmitInvalid(start, UnterminatedInterpolation);
        return;
      }
      var closes := MatchLit(s, pos, close);
      if pairs == 0 && |close| > 0 && closes {
        LoopEnds(s, l, start, close, closeKind, depth, pairs, old(pos));
        var at := pos;
        pos := pos + |close|;
        if closeKind != 0 { Emit(closeKind, at, pos, 0); }
        ok := true;
        return;
      }
      ghost var out := TokenOrInvalid(s, l, depth, pos);
      ghost var next := LoopTurns(s, l, start, close, closeKind, depth, pairs, old(pos));
      var opens := OpensPair(close);
      PairsCounted(s, close, pairs, pos, opens, closes);
      var matched := ScanOrSkip();
      left := if !matched then pairs else if opens then pairs + 1
              else if pairs > 0 && |close| > 0 && closes then pairs - 1 else pairs;
      done := false;
      more, further := space.toks + out.toks, out.diags;
    }

    /** The text at the cursor is the opener that pairs with the closing mark. */
    method OpensPair(close: Bytes) returns (yes: bool)
      ensures yes == (PairedOpen(close).Some? && Matches(s, pos, PairedOpen(close).value))
    {
      if PairedOpen(close) == None { return false; }
      yes := MatchLit(s, pos, PairedOpen(close).value);
    }

    // ----- lines

    ghost function Stack(): seq<nat>
      requires indentTop < indentStack.Length
      reads this, indentStack
    {
      indentStack[..indentTop + 1]
    }

    /** The object as a state of the specification. */
    ghost function Now(): State
      requires indentTop < indentStack.Length
      reads this, indentStack
    {
      State(pos, toks, diags, Stack(), lineStart, significant, lastSig)
    }

    /** Between tokens the last significant token is there, and no interpolation is open. */
    ghost predicate Between()
      reads this
    {
      && pos <= |s| && interpDepth == 0
      && indentStack.Length == MAX_INDENT_DEPTH && indentTop < MAX_INDENT_DEPTH
      && (significant ==> lastSig < |toks|)
    }

    /** The blanks at the start of a line, with the column they come to. */
    method MeasureIndentation(unit: IndentUnit) returns (col: nat, bad: bool)
      requires Valid()
      modifies this`pos
      ensures Valid() && (pos, col, bad) == Indentation(s, unit, old(pos), 0, false)
    {
      col, bad := 0, false;
      while pos < |s| && IsBlank(s[pos])
        invariant Valid()
        invariant Indentation(s, unit, pos, col, bad) == Indentation(s, unit, old(pos), 0, false)
        decreases |s| - pos
      {
        col, bad := ColumnAfter(unit, s[pos], col), bad || Disallowed(unit, s[pos]);
        pos := pos + 1;
      }
    }

    /** Pops every level strictly deeper than this column. */
    method PopDeeper(col: nat)
      requires Between()
      modifies this`indentTop, this`toks
      ensures Between() && indentTop <= old(indentTop)
      ensures var closed := CloseDeeper(old(Stack()), col, pos);
              Stack() == closed.0 && toks == old(toks) + closed.1
    {
      ghost var dedents: seq<Token> := [];
      NothingClosed(Stack(), col, pos);
      while indentTop > 0 && col < indentStack[indentTop]
        invariant Between() && indentTop <= old(indentTop) && toks == old(toks) + dedents
        invariant ClosedSoFar(old(Stack()), Stack(), dedents, col, pos)
        decreases indentTop
      {
        CloseTurn(old(Stack()), Stack(), dedents, col, pos);
        assert Pop(Stack()) == indentStack[..indentTop];
        indentTop := indentTop - 1;
        Emit(DEDENT, pos, pos, 0);
        dedents := dedents + [Dedent(pos)];
      }
      CloseEnds(old(Stack()), Stack(), dedents, col, pos);
    }

    /** The stack handling of `handle_offside_line_start`. */
    method AlignTo(col: nat, onEqual: bool)
      requires Between()
      modifies this`indentTop, this`toks, this`diags, indentStack
      ensures Between()
      ensures var a := Align(old(Stack()), col, pos, onEqual);
              Stack() == a.0 && toks == old(toks) + a.1 && diags == old(diags) + a.2
    {
      hide CloseDeeper;
      ghost var stack := Stack();
      assert Top(stack) == indentStack[indentTop];
      if col > indentStack[indentTop] {
        if indentTop + 1 >= MAX_INDENT_DEPTH {
          Report(IndentationTooDeep, pos, pos);
          return;
        }
        indentTop := indentTop + 1;
        indentStack[indentTop] := col;
        Emit(INDENT, pos, pos, 0);
        assert Stack() == stack + [col];
        return;
      }
      PopDeeper(col);
      var closedEqual := false;
      ghost var closed := CloseDeeper(stack, col, pos);
      assert Top(closed.0) == indentStack[indentTop];
      if onEqual && indentTop > 0 && col == indentStack[indentTop] {
        assert Pop(closed.0) == indentStack[..indentTop];
        indentTop := indentTop - 1;
        closedEqual := true;
        Emit(DEDENT, pos, pos, 0);
      }
      if !closedEqual && col != indentStack[indentTop] { Report(MisalignedDedent, pos, pos); }
    }

    /** `handle_offside_line_start`. */
    method HandleLineStart()
      requires Between()
      modifies this`pos, this`indentTop, this`toks, this`diags, indentStack
      ensures Between() && Now() == LineStart(s, L(), old(Now()))
    {
      hide Canonical, Align, Indentation, Source.NewlineLen, LineOpens;
      if policy.offside.None? || !lineStart { return; }
      var start := pos;
      ghost var stack := Stack();
      var col, bad := MeasureIndentation(policy.offside.value.unit);
      if bad { Report(DisallowedIndentUnit, start, pos); }
      assert Stack() == stack;
      var blank := IsBlankLine();
      if blank { return; }
      AlignTo(col, policy.offside.value.dedentOnEqual);
    }

    /** The end of the text, a newline or a line comment follows. */
    method IsBlankLine() returns (yes: bool)
      ensures yes == BlankLine(s, L(), pos)
    {
      hide Source.NewlineLen, LineOpens, FirstWins;
      if pos >= |s| || NewlineLen(pos) != 0 { return true; }
      yes := LineCommentStarts(CommentEntries(t.comments), s, pos);
    }

    /** `maybe_emit_auto_semicolon`. */
    method MaybeSemicolon()
      requires Between()
      modifies this`toks
      ensures Between() && toks == old(toks) + AutoSemicolon(L(), old(Now()))
    {
      hide Canonical;
      if policy.autoSemi.None? || !significant { return; }
      if !policy.autoSemi.value.isTerminating(toks[lastSig]) { return; }
      Emit(policy.autoSemi.value.emitKind, pos, pos, policy.autoSemi.value.emitV);
    }

    /** `finish_physical_line`. */
    method FinishPhysicalLine()
      requires Between() && NewlineLen(pos) != 0
      modifies this`pos, this`toks, this`lineStart, this`significant
      ensures Between() && Now() == FinishLine(s, L(), old(Now()))
    {
      hide Canonical, Source.NewlineLen, AutoSemicolon;
      var n := NewlineLen(pos);
      MaybeSemicolon();
      if policy.emitNewlines || (policy.offside.Some? && significant) { Emit(NEWLINE, pos, pos + n, 0); }
      pos := pos + n;
      lineStart := true;
      significant := false;
    }

    /** `drain_indentation`. */
    method DrainIndentation()
      requires Between()
      modifies this`indentTop, this`toks
      ensures Between() && indentTop == 0 && toks == old(toks) + Drain(old(indentTop), pos)
    {
      ghost var done: seq<Token> := [];
      while indentTop > 0
        invariant Between() && indentTop <= old(indentTop) && toks == old(toks) + done
        invariant Drain(old(indentTop), pos) == done + Drain(indentTop, pos)
      {
        assert done + ([Dedent(pos)] + Drain(indentTop - 1, pos)) == (done + [Dedent(pos)]) + Drain(indentTop - 1, pos);
        indentTop := indentTop - 1;
        Emit(DEDENT, pos, pos, 0);
        done := done + [Dedent(pos)];
      }
      assert done + [] == done;
    }

    /** `finish_eof_layout`. */
    method FinishEofLayout()
      requires Between()
      modifies this`toks, this`indentTop, this`significant
      ensures Between() && !significant && toks == old(toks) + (EndLine(L(), old(Now())) + EndDedents(L(), old(Now())))
      ensures indentTop == if policy.offside.Some? then 0 else old(indentTop)
    {
      hide Canonical, AutoSemicolon, Drain;
      MaybeSemicolon();
      if policy.offside.Some? && significant { Emit(NEWLINE, pos, pos, 0); }
      if policy.offside.Some? { DrainIndentation(); }
      significant := false;
    }

    // ----- the whole text

    /** `note_emitted_tokens`. */
    method NoteEmitted(first: nat)
      requires first <= |toks|
      modifies this`lastSig, this`significant
      ensures var last := LastSignificant(toks, first);
              && significant == (old(significant) || last.Some?)
              && lastSig == if last.Some? then last.value else old(lastSig)
    {
      for i := first to |toks|
        invariant var last := LastSignificant(toks[..i], first);
                  && significant == (old(significant) || last.Some?)
                  && lastSig == if last.Some? then last.value else old(lastSig)
      {
        assert toks[..i + 1][..i] == toks[..i];
        if IsSignificant(toks[i].kind) {
          lastSig := i;
          significant := true;
        }
      }
      assert toks[..|toks|] == toks;
    }

    /** The rest of a turn of the loop: one token, or the recovery from a byte no scanner takes. */
    method NextToken()
      requires Between() && pos < |s|
      modifies this`pos, this`toks, this`diags, this`interpDepth, this`lineStart, this`lastSig, this`significant
      ensures Between() && Now() == TakeToken(s, L(), old(Now()))
    {
      hide Canonical, TokenOrInvalid, LastSignificant;
      lineStart := false;
      var first := |toks|;
      var matched := ScanOrSkip();
      NoteEmitted(first);
    }

    /** The layout at the start of a turn, and the blanks behind it. */
    method ApproachToken(newlineAware: bool)
      requires Between() && newlineAware == NewlineAware(L())
      modifies this`pos, this`indentTop, this`toks, this`diags, indentStack
      ensures Between() && Now() == Approach(s, L(), old(Now()))
    {
      hide Canonical, LineStart, SkipInline, SkipSpace;
      if newlineAware {
        HandleLineStart();
        ghost var stack := Stack();
        SkipInlineSpace();
        assert Stack() == stack;
      } else {
        SkipAllSpace();
      }
    }

    /** `kavak_lex`, on a fresh object. */
    method Run()
      requires Between() && Now() == INITIAL
      modifies this, indentStack
      ensures Between() && (toks, diags) == Lex(s, L())
    {
      hide Canonical, Turns, EndLine, EndDedents;
      var newlineAware := policy.offside.Some? || policy.autoSemi.Some? || policy.emitNewlines;
      Loop(newlineAware);
      ghost var st := Now();
      if newlineAware { FinishEofLayout(); }
      assert toks == st.toks + EndTokens(L(), st);
      Emit(EOF, pos, pos, 0);
    }

    /** The loop of `kavak_lex`. */
    method Loop(newlineAware: bool)
      requires Between() && newlineAware == NewlineAware(L())
      modifies this, indentStack
      ensures Between() && Now() == Turns(s, L(), old(Now()))
    {
      hide Canonical, Approach, TakeToken, FinishLine, Source.NewlineLen;
      while true
        invariant Between() && Turns(s, L(), Now()) == Turns(s, L(), old(Now()))
        decreases |s| - pos
      {
        if |toks| >= TOKEN_LIMIT {
          Report(TokenLimit, pos, pos);
          return;
        }
        ApproachToken(newlineAware);
        if pos == |s| { return; }
        if newlineAware && NewlineLen(pos) != 0 {
          FinishPhysicalLine();
        } else {
          NextToken();
        }
      }
    }
  }

  lemma PairsCounted(s: Bytes, close: Bytes, pairs: nat, at: nat, opens: bool, closes: bool)
    requires opens == (PairedOpen(close).Some? && Matches(s, at, PairedOpen(close).value))
    requires closes == Matches(s, at, close)
    ensures PairsAfter(s, close, pairs, at, false) == pairs
    ensures PairsAfter(s, close, pairs, at, true)
            == if opens then pairs + 1 else if pairs > 0 && |close| > 0 && closes then pairs - 1 else pairs
  {
  }

  lemma SpaceEnds(s: Bytes, l: Lang, pos: nat)
    requires pos == |s|
    ensures InterpSpace(s, l, pos) == Out(pos, [], [])
  {
  }

  /** One newline or blank further into the whitespace of an interpolation. */
  lemma SpaceTurn(s: Bytes, l: Lang, from: nat, tokens: seq<Token>, pos: nat)
    requires from <= |s| && pos < |s| && InterpSpace(s, l, from) == Before(tokens, [], InterpSpace(s, l, pos))
    ensures var n := NewlineAt(s, l, pos);
            var newline := if l.policy.emitNewlines then [Token(NEWLINE, pos, pos + n, 0)] else [];
            if n != 0 then InterpSpace(s, l, from) == Before(tokens + newline, [], InterpSpace(s, l, pos + n))
            else if IsInlineSpace(s[pos]) then InterpSpace(s, l, from) == Before(tokens, [], InterpSpace(s, l, pos + 1))
            else InterpSpace(s, l, from) == Out(pos, tokens, [])
  {
    hide NewlineAt;
    var n := NewlineAt(s, l, pos);
    if n != 0 {
      var newline := if l.policy.emitNewlines then [Token(NEWLINE, pos, pos + n, 0)] else [];
      var rest := InterpSpace(s, l, pos + n);
      assert InterpSpace(s, l, pos) == Before(newline, [], rest);
      assert tokens + (newline + rest.toks) == (tokens + newline) + rest.toks;
    }
  }

  /** Part of the levels has been closed, with a DEDENT each; the rest is as if one began there. */
  ghost predicate ClosedSoFar(stack0: seq<nat>, stack: seq<nat>, dedents: seq<Token>, col: nat, pos: nat) {
    && stack0 != [] && stack != []
    && CloseDeeper(stack0, col, pos) == (CloseDeeper(stack, col, pos).0, dedents + CloseDeeper(stack, col, pos).1)
  }

  lemma NothingClosed(stack: seq<nat>, col: nat, pos: nat)
    requires stack != []
    ensures ClosedSoFar(stack, stack, [], col, pos)
  {
    hide CloseDeeper;
    assert [] + CloseDeeper(stack, col, pos).1 == CloseDeeper(stack, col, pos).1;
  }

  lemma CloseTurn(stack0: seq<nat>, stack: seq<nat>, dedents: seq<Token>, col: nat, pos: nat)
    requires ClosedSoFar(stack0, stack, dedents, col, pos) && |stack| > 1 && col < Top(stack)
    ensures ClosedSoFar(stack0, Pop(stack), dedents + [Dedent(pos)], col, pos)
  {
    var rest := CloseDeeper(Pop(stack), col, pos);
    assert CloseDeeper(stack, col, pos) == (rest.0, [Dedent(pos)] + rest.1);
    hide CloseDeeper;
    assert dedents + ([Dedent(pos)] + rest.1) == (dedents + [Dedent(pos)]) + rest.1;
  }

  lemma CloseEnds(stack0: seq<nat>, stack: seq<nat>, dedents: seq<Token>, col: nat, pos: nat)
    requires ClosedSoFar(stack0, stack, dedents, col, pos) && (|stack| == 1 || col >= Top(stack))
    ensures CloseDeeper(stack0, col, pos) == (stack, dedents)
  {
    assert CloseDeeper(stack, col, pos) == (stack, []);
    assert dedents + [] == dedents;
  }

  // ----- results put together

  lemma NothingBefore(out: Out)
    ensures Before([], [], out) == out
  {
    assert [] + out.toks == out.toks && [] + out.diags == out.diags;
  }

  lemma BeforeMore(a: seq<Token>, d: seq<Diag>, b: seq<Token>, f: seq<Diag>, out: Out)
    ensures Before(a, d, Before(b, f, out)) == Before(a + b, d + f, out)
  {
  }

  /** Taking `out` after some tokens is taking the whole. */
  lemma BeforeBefore(toks0: seq<Token>, diags0: seq<Diag>, a: seq<Token>, d: seq<Diag>, out: Out)
    ensures Before(a, d, out).pos == out.pos
    ensures toks0 + Before(a, d, out).toks == (toks0 + a) + out.toks
    ensures diags0 + Before(a, d, out).diags == (diags0 + d) + out.diags
  {
  }
}
