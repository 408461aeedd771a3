/**
 Interpolated literals nest: heads with tails and opening with closing marks, to any
 depth, in every run in which no literal is given up.
*/
module LexBrackets {
  import opened Options
  import opened Machine
  import opened LexConfig
  import opened Scanners
  import opened TokenScan
  import opened Layout
  import opened TokenCases

  const HEAD: nat := 1
  const INTERIOR: nat := 2
  const TAIL: nat := 3

  // ----- the marks of a language

  predicate IsFragment(l: Lang, kind: nat) {
    exists open <- l.strings :: IsTemplate(l.strings[open].style) && l.strings[open].style.fragmentKind == kind
  }

  predicate IsOpener(l: Lang, kind: nat) {
    exists open <- l.strings :: IsTemplate(l.strings[open].style) && l.strings[open].style.interpOpenKind == kind
  }

  predicate IsCloser(l: Lang, kind: nat) {
    exists open <- l.strings :: IsTemplate(l.strings[open].style) && l.strings[open].style.interpCloseKind == kind
  }

  predicate IsMark(l: Lang, kind: nat) {
    IsFragment(l, kind) || IsOpener(l, kind) || IsCloser(l, kind)
  }

  /** Every template rule marks its fragments and interpolations, with kinds used for nothing else. */
  ghost predicate FreshMarks(l: Lang) {
    && (forall kind: nat :: IsMark(l, kind) ==> kind >= USER_BASE)
    && (forall kind: nat :: !(IsFragment(l, kind) && IsOpener(l, kind)) && !(IsFragment(l, kind) && IsCloser(l, kind))
                            && !(IsOpener(l, kind) && IsCloser(l, kind)))
    && (forall open <- l.strings :: IsTemplate(l.strings[open].style)
          ==> !IsMark(l, l.strings[open].style.bareIdentKind))
    && (l.policy.autoSemi.Some? ==> !IsMark(l, l.policy.autoSemi.value.emitKind))
  }

  // ----- the nesting of marks

  /** What is open: a literal, by its fragment kind, or an interpolation in it, by the kind of its opening mark. */
  datatype Open = Literal(kind: nat) | Hole(kind: nat)

  /** Some template rule puts this opening mark into literals of this fragment kind. */
  predicate Opens(l: Lang, fragment: nat, opener: nat) {
    exists open <- l.strings :: IsTemplate(l.strings[open].style)
      && l.strings[open].style.fragmentKind == fragment && l.strings[open].style.interpOpenKind == opener
  }

  /** Some template rule pairs these marks. */
  predicate Closes(l: Lang, opener: nat, closer: nat) {
    exists open <- l.strings :: IsTemplate(l.strings[open].style)
      && l.strings[open].style.interpOpenKind == opener && l.strings[open].style.interpCloseKind == closer
  }

  /** The open marks after a token; absent if the token does not fit. */
  ghost function After(l: Lang, stack: seq<Open>, t: Token): Option<seq<Open>> {
    var top := if stack == [] then None else Some(stack[|stack| - 1]);
    if IsFragment(l, t.kind) then
      if t.v == HEAD then Some(stack + [Literal(t.kind)])
      else if top != Some(Literal(t.kind)) then None
      else if t.v == INTERIOR then Some(stack)
      else if t.v == TAIL then Some(stack[..|stack| - 1])
      else None
    else if IsOpener(l, t.kind) then
      if top.Some? && top.value.Literal? && Opens(l, top.value.kind, t.kind) then Some(stack + [Hole(t.kind)])
      else None
    else if IsCloser(l, t.kind) then
      if top.Some? && top.value.Hole? && Closes(l, top.value.kind, t.kind) then Some(stack[..|stack| - 1])
      else None
    else Some(stack)
  }

  ghost function AfterAll(l: Lang, stack: seq<Open>, toks: seq<Token>): Option<seq<Open>>
    decreases |toks|
  {
    if toks == [] then Some(stack)
    else
      var next := After(l, stack, toks[0]);
      if next.None? then None else AfterAll(l, next.value, toks[1..])
  }

  /** From `stack` the tokens lead to `end`, each fitting. */
  ghost predicate Leads(l: Lang, stack: seq<Open>, toks: seq<Token>, end: seq<Open>) {
    AfterAll(l, stack, toks) == Some(end)
  }

  lemma {:induction false} LeadsOn(l: Lang, stack: seq<Open>, a: seq<Token>, mid: seq<Open>, b: seq<Token>,
                                   end: seq<Open>)
    requires Leads(l, stack, a, mid) && Leads(l, mid, b, end)
    ensures Leads(l, stack, a + b, end)
    decreases |a|
  {
    hide After;
    if a == [] {
      assert a + b == b;
    } else {
      LeadsOn(l, After(l, stack, a[0]).value, a[1..], mid, b, end);
      assert (a + b)[1..] == a[1..] + b;
    }
  }

  lemma LeadsNowhere(l: Lang, stack: seq<Open>)
    ensures Leads(l, stack, [], stack)
  {
  }

  lemma Unmarked(l: Lang, stack: seq<Open>, t: Token)
    requires !IsMark(l, t.kind)
    ensures Leads(l, stack, [t], stack)
  {
  }

  lemma KernelKindIsUnmarked(l: Lang, kind: nat)
    requires FreshMarks(l) && kind < USER_BASE
    ensures !IsMark(l, kind)
  {
  }

  // ----- one token

  predicate GivesUp(m: Message) {
    m == UnterminatedString || m == UnterminatedInterpolation || m == InterpolationTooDeep || m == ExpectedIdentifier
  }

  /** Every literal was scanned to its end. */
  predicate NoneGivenUp(diags: seq<Diag>) {
    forall d <- diags :: !GivesUp(d.message)
  }

  lemma GivenUpJoin(a: seq<Diag>, b: seq<Diag>)
    ensures NoneGivenUp(a + b) <==> NoneGivenUp(a) && NoneGivenUp(b)
  {
    forall d | (d in a || d in b) && NoneGivenUp(a + b) ensures !GivesUp(d.message) { assert d in a + b; }
  }

  lemma GivenUp(d: Diag)
    ensures NoneGivenUp([d]) <==> !GivesUp(d.message)
    ensures NoneGivenUp([])
  {
    assert [d][0] == d;
  }

  /** A result in which no literal was given up leaves the open marks as they are. */
  ghost predicate Neutral(l: Lang, stack: seq<Open>, out: Out) {
    NoneGivenUp(out.diags) ==> Leads(l, stack, out.toks, stack)
  }

  lemma {:induction false} SpaceIsNeutral(s: Bytes, l: Lang, pos: nat, stack: seq<Open>)
    requires pos <= |s| && FreshMarks(l)
    ensures Leads(l, stack, InterpSpace(s, l, pos).toks, stack)
    decreases |s| - pos
  {
    hide NewlineAt, Leads, FreshMarks;
    if pos < |s| && NewlineAt(s, l, pos) != 0 {
      var n := NewlineAt(s, l, pos);
      SpaceIsNeutral(s, l, pos + n, stack);
      var rest := InterpSpace(s, l, pos + n).toks;
      if l.policy.emitNewlines {
        KernelKindIsUnmarked(l, NEWLINE);
        Unmarked(l, stack, Token(NEWLINE, pos, pos + n, 0));
        LeadsOn(l, stack, [Token(NEWLINE, pos, pos + n, 0)], stack, rest, stack);
      } else {
        assert [] + rest == rest;
      }
    } else if pos < |s| && IsInlineSpace(s[pos]) {
      SpaceIsNeutral(s, l, pos + 1, stack);
    } else {
      LeadsNowhere(l, stack);
    }
  }

  lemma SimpleIsNeutral(l: Lang, stack: seq<Open>, out: Out, pos: nat)
    requires IsSimple(out, pos) && FreshMarks(l)
    ensures Neutral(l, stack, out)
  {
    hide FreshMarks, After;
    if out.toks == [] {
      LeadsNowhere(l, stack);
    } else {
      KernelKindIsUnmarked(l, out.toks[0].kind);
      Unmarked(l, stack, out.toks[0]);
      assert out.toks == [out.toks[0]];
    }
  }

  lemma {:induction false} TokenIsNeutral(s: Bytes, l: Lang, depth: nat, pos: nat, stack: seq<Open>)
    requires pos < |s| && FreshMarks(l)
    ensures Neutral(l, stack, TokenOrInvalid(s, l, depth, pos))
    decreases |s| - pos, 3
  {
    hide ScanString, ScanToken, IsSimple, FreshMarks, Leads, NoneGivenUp;
    StringIsNeutral(s, l, depth, pos, stack);
    TokenIsSimpleOrString(s, l, depth, pos);
    var r := ScanToken(s, l, depth, pos);
    if r.None? {
      KernelKindIsUnmarked(l, INVALID);
      Unmarked(l, stack, Token(INVALID, pos, pos + 1, 0));
    } else if IsSimple(r.value, pos) {
      SimpleIsNeutral(l, stack, r.value, pos);
    }
  }

  /** The rule of a literal: a template rule of the language, or no template. */
  ghost predicate IsRule(l: Lang, r: StringStyle) {
    IsTemplate(r) ==>
      IsFragment(l, r.fragmentKind) && IsOpener(l, r.interpOpenKind) && IsCloser(l, r.interpCloseKind)
      && Opens(l, r.fragmentKind, r.interpOpenKind) && Closes(l, r.interpOpenKind, r.interpCloseKind)
      && !IsMark(l, r.bareIdentKind)
  }

  lemma RuleOf(l: Lang, open: Bytes)
    requires open in l.strings && FreshMarks(l)
    ensures IsRule(l, l.strings[open].style)
  {
  }

  lemma {:induction false} StringIsNeutral(s: Bytes, l: Lang, depth: nat, pos: nat, stack: seq<Open>)
    requires pos < |s| && FreshMarks(l)
    ensures ScanString(s, l, depth, pos).Some? ==> Neutral(l, stack, ScanString(s, l, depth, pos).value)
    decreases |s| - pos, 2
  {
    hide ScanString, StringBody, FreshMarks, IsRule, Leads;
    if ScanString(s, l, depth, pos).Some? {
      var open := StringIsBody(s, l, depth, pos);
      RuleOf(l, open);
      BodyNests(s, l, open, l.strings[open], depth, pos, pos, false, pos + |open|, stack);
    }
  }

  /** The marks open while the loop is in a literal: the literal itself once it has put out its head. */
  function Within(r: StringStyle, stack: seq<Open>, had: bool): seq<Open> {
    if had then stack + [Literal(r.fragmentKind)] else stack
  }

  lemma TailCloses(l: Lang, open: Bytes, r: StringStyle, from: nat, had: bool, end: nat, stack: seq<Open>)
    requires FreshMarks(l) && IsRule(l, r) && (had ==> IsTemplate(r))
    ensures Leads(l, Within(r, stack, had), [Tail(open, r, from, had, end)], stack)
  {
    var t := Tail(open, r, from, had, end);
    if had {
      assert IsMark(l, r.fragmentKind);
      assert t.kind == r.fragmentKind && t.v == TAIL;
      var inner := Within(r, stack, had);
      assert inner[..|inner| - 1] == stack;
    } else {
      KernelKindIsUnmarked(l, t.kind);
      Unmarked(l, stack, t);
    }
  }

  lemma FragmentFits(l: Lang, r: StringStyle, start: nat, from: nat, had: bool, pos: nat, stack: seq<Open>)
    requires FreshMarks(l) && IsRule(l, r) && IsTemplate(r)
    requires if had then start < from <= pos else start == from < pos
    ensures Leads(l, Within(r, stack, had), Fragment(r, start, from, pos), Within(r, stack, true))
  {
    assert IsMark(l, r.fragmentKind);
    if from < pos {
      var t := Token(r.fragmentKind, from, pos, if from == start then HEAD else INTERIOR);
      assert Fragment(r, start, from, pos) == [t];
    } else {
      LeadsNowhere(l, Within(r, stack, had));
    }
  }

  lemma EntersTemplate(s: Bytes, l: Lang, e: StringEntry, pos: nat)
    requires pos <= |s| && CaseAt(s, l, e, pos).Enter?
    ensures IsTemplate(e.style)
  {
  }

  /** What an interpolation puts out: nothing is said once it failed, as it then reported it. */
  ghost predicate Fills(l: Lang, stack: seq<Open>, i: Interp) {
    if i.ok then Neutral(l, stack, i.out) else !NoneGivenUp(i.out.diags)
  }

  lemma {:induction false} BodyNests(s: Bytes, l: Lang, open: Bytes, e: StringEntry, depth: nat, start: nat,
                                     from: nat, had: bool, pos: nat, stack: seq<Open>)
    requires from <= pos <= |s| && FreshMarks(l) && IsRule(l, e.style)
    requires if had then start < from && IsTemplate(e.style) else start == from < pos
    ensures var out := StringBody(s, l, open, e, depth, start, from, had, pos);
            NoneGivenUp(out.diags) ==> Leads(l, Within(e.style, stack, had), out.toks, stack)
    decreases |s| - pos, 1
  {
    hide StringBody, Interpolation, InterpolationAt, CaseAt, Fragment;
    hide FreshMarks, IsRule, Leads, Tail, Within, IsTemplate, NoneGivenUp;
    var c := CaseAt(s, l, e, pos);
    if c.Stop? {
      BodyStops(s, l, open, e, depth, start, from, had, pos);
      GivenUp(Diag(UnterminatedString, from, c.end));
    } else if c.Close? {
      BodyCloses(s, l, open, e, depth, start, from, had, pos);
      TailCloses(l, open, e.style, from, had, pos + |e.style.close|, stack);
    } else if c.Enter? {
      BodyEnters(s, l, open, e, depth, start, from, had, pos);
      EntersTemplate(s, l, e, pos);
      var i := Interpolation(s, l, e.style, depth, pos);
      var rest := StringBody(s, l, open, e, depth, start, i.out.pos, true, i.out.pos);
      var inner := Within(e.style, stack, true);
      InterpolationNests(s, l, e.style, depth, pos, stack);
      FragmentFits(l, e.style, start, from, had, pos, stack);
      BodyNests(s, l, open, e, depth, start, i.out.pos, true, i.out.pos, stack);
      assert [] + i.out.diags == i.out.diags;
      GivenUpJoin(i.out.diags, rest.diags);
      if i.ok && NoneGivenUp(i.out.diags + rest.diags) {
        var head := Fragment(e.style, start, from, pos);
        LeadsOn(l, Within(e.style, stack, had), head, inner, i.out.toks, inner);
        LeadsOn(l, Within(e.style, stack, had), head + i.out.toks, inner, rest.toks, stack);
      }
    } else {
      BodySteps(s, l, open, e, depth, start, from, had, pos);
      BodyNests(s, l, open, e, depth, start, from, had, c.next, stack);
      var rest := StringBody(s, l, open, e, depth, start, from, had, c.next);
      GivenUpJoin(c.diags, rest.diags);
      assert [] + rest.toks == rest.toks;
    }
  }

  lemma OpenerFits(l: Lang, r: StringStyle, stack: seq<Open>, from: nat, to: nat)
    requires FreshMarks(l) && IsRule(l, r) && IsTemplate(r)
    ensures Leads(l, Within(r, stack, true), Marker(r.interpOpenKind, from, to),
                  Within(r, stack, true) + [Hole(r.interpOpenKind)])
  {
    assert IsMark(l, r.interpOpenKind);
  }

  lemma CloserFits(l: Lang, opener: nat, closeKind: nat, stack: seq<Open>, from: nat, to: nat)
    requires FreshMarks(l) && IsCloser(l, closeKind) && Closes(l, opener, closeKind)
    ensures Leads(l, stack + [Hole(opener)], Marker(closeKind, from, to), stack)
  {
    assert IsMark(l, closeKind);
    assert (stack + [Hole(opener)])[..|stack|] == stack;
  }

  lemma {:induction false} InterpolationNests(s: Bytes, l: Lang, r: StringStyle, depth: nat, start: nat,
                                              stack: seq<Open>)
    requires InterpolationAt(s, l, r, start) && FreshMarks(l) && IsRule(l, r) && IsTemplate(r)
    ensures Fills(l, Within(r, stack, true), Interpolation(s, l, r, depth, start))
    decreases |s| - start, 0
  {
    hide Expression, Longest, ScanIdent, StartsInterpolation, FreshMarks, Leads, Within, IsOpener, IsFragment;
    var pos := start + |r.interpOpen.value|;
    if r.interpClose.Some? {
      ExpressionNests(s, l, start, r.interpClose.value, r.interpOpenKind, r.interpCloseKind, depth, pos,
                      Within(r, stack, true));
      MarkedNests(l, r, start, pos, Expression(s, l, start, r.interpClose.value, r.interpCloseKind, depth, pos), stack);
    } else if r.interpOpen.value == DOLLAR && Matches(s, pos, BRACE_OPEN) {
      ExpressionNests(s, l, start, BRACE_CLOSE, r.interpOpenKind, r.interpCloseKind, depth, pos + 1,
                      Within(r, stack, true));
      MarkedNests(l, r, start, pos + 1, Expression(s, l, start, BRACE_CLOSE, r.interpCloseKind, depth, pos + 1), stack);
    } else {
      GivenUp(Diag(ExpectedIdentifier, start, pos));
      BareNests(s, l, r, start, pos, Within(r, stack, true));
    }
  }

  lemma BareNests(s: Bytes, l: Lang, r: StringStyle, start: nat, pos: nat, stack: seq<Open>)
    requires pos <= |s| && FreshMarks(l) && IsRule(l, r) && IsTemplate(r)
    ensures var name := ScanIdent(s, l, pos);
            name.Some? ==>
              var bare := Token(r.bareIdentKind, start, name.value.pos, 0);
              Neutral(l, stack, name.value) && Neutral(l, stack, Out(name.value.pos, [bare], []))
  {
    var name := ScanIdent(s, l, pos);
    if name.Some? {
      Unmarked(l, stack, Token(r.bareIdentKind, start, name.value.pos, 0));
      KernelKindIsUnmarked(l, name.value.toks[0].kind);
      Unmarked(l, stack, name.value.toks[0]);
      assert name.value.toks == [name.value.toks[0]];
    }
  }

  /** An expression, from its opening mark on, closes the hole it is in. */
  ghost predicate ClosesHole(l: Lang, opener: nat, stack: seq<Open>, i: Interp) {
    if i.ok then NoneGivenUp(i.out.diags) ==> Leads(l, stack + [Hole(opener)], i.out.toks, stack)
    else !NoneGivenUp(i.out.diags)
  }

  lemma MarkedNests(l: Lang, r: StringStyle, from: nat, to: nat, i: Interp, stack: seq<Open>)
    requires FreshMarks(l) && IsRule(l, r) && IsTemplate(r)
    requires ClosesHole(l, r.interpOpenKind, Within(r, stack, true), i)
    ensures Fills(l, Within(r, stack, true), Marked(r.interpOpenKind, from, to, i))
  {
    OpenerFits(l, r, stack, from, to);
    hide FreshMarks, IsRule, IsTemplate, Leads, Within, Marker;
    var inner := Within(r, stack, true);
    assert [] + i.out.diags == i.out.diags;
    if i.ok && NoneGivenUp(i.out.diags) {
      LeadsOn(l, inner, Marker(r.interpOpenKind, from, to), inner + [Hole(r.interpOpenKind)], i.out.toks,
              inner);
    }
  }

  lemma {:induction false} ExpressionNests(s: Bytes, l: Lang, start: nat, close: Bytes, opener: nat, closeKind: nat,
                                           depth: nat, pos: nat, stack: seq<Open>)
    requires start < pos <= |s| && FreshMarks(l) && IsCloser(l, closeKind) && Closes(l, opener, closeKind)
    ensures ClosesHole(l, opener, stack, Expression(s, l, start, close, closeKind, depth, pos))
    decreases |s| - pos, 5
  {
    hide ExpressionFrom, FreshMarks, Leads, IsCloser, NoneGivenUp, Closes;
    GivenUp(Diag(InterpolationTooDeep, start, pos));
    if depth < MAX_INTERP_DEPTH { LoopNests(s, l, start, close, opener, closeKind, depth + 1, 0, pos, stack); }
  }

  lemma {:induction false} LoopNests(s: Bytes, l: Lang, start: nat, close: Bytes, opener: nat, closeKind: nat,
                                     depth: nat, pairs: nat, pos: nat, stack: seq<Open>)
    requires start < pos <= |s| && FreshMarks(l) && IsCloser(l, closeKind) && Closes(l, opener, closeKind)
    ensures ClosesHole(l, opener, stack, ExpressionFrom(s, l, start, close, closeKind, depth, pairs, pos))
    decreases |s| - pos, 4
  {
    hide ExpressionFrom, InterpSpace, TokenOrInvalid, EndsHere, FreshMarks, Leads, IsCloser, Marker, NoneGivenUp,
         Closes;
    var space := InterpSpace(s, l, pos);
    var hole := stack + [Hole(opener)];
    SpaceIsNeutral(s, l, pos, hole);
    if EndsHere(s, close, pairs, space.pos) {
      LoopEnds(s, l, start, close, closeKind, depth, pairs, pos);
      var d := Diag(UnterminatedInterpolation, start, space.pos);
      GivenUp(d);
      assert [] + [d] == [d];
      CloserFits(l, opener, closeKind, stack, space.pos, space.pos + |close|);
      LeadsOn(l, hole, space.toks, hole, Marker(closeKind, space.pos, space.pos + |close|), stack);
    } else {
      var left := LoopTurns(s, l, start, close, closeKind, depth, pairs, pos);
      TokenIsNeutral(s, l, depth, space.pos, hole);
      var out := TokenOrInvalid(s, l, depth, space.pos);
      var rest := ExpressionFrom(s, l, start, close, closeKind, depth, left, out.pos);
      LoopNests(s, l, start, close, opener, closeKind, depth, left, out.pos, stack);
      GivenUpJoin(out.diags, rest.out.diags);
      if NoneGivenUp(out.diags + rest.out.diags) {
        LeadsOn(l, hole, space.toks, hole, out.toks, hole);
        LeadsOn(l, hole, space.toks + out.toks, hole, rest.out.toks, stack);
      }
    }
  }

  // ----- whole runs

  predicate AllUnmarked(l: Lang, toks: seq<Token>) {
    forall t <- toks :: !IsMark(l, t.kind)
  }

  lemma {:induction false} UnmarkedLead(l: Lang, toks: seq<Token>)
    requires AllUnmarked(l, toks)
    ensures Leads(l, [], toks, [])
    decreases |toks|
  {
    hide IsMark, After;
    if toks == [] {
      LeadsNowhere(l, []);
    } else {
      assert !IsMark(l, toks[0].kind);
      Unmarked(l, [], toks[0]);
      UnmarkedLead(l, toks[1..]);
      LeadsOn(l, [], [toks[0]], [], toks[1..], []);
      assert [toks[0]] + toks[1..] == toks;
    }
  }

  lemma KernelUnmarked(l: Lang, toks: seq<Token>)
    requires FreshMarks(l) && forall t <- toks :: t.kind < USER_BASE
    ensures AllUnmarked(l, toks)
  {
    hide FreshMarks, IsMark;
    forall t <- toks ensures !IsMark(l, t.kind) { KernelKindIsUnmarked(l, t.kind); }
  }

  lemma {:induction false} CloseIsKernel(stack: seq<nat>, col: nat, pos: nat)
    requires stack != []
    ensures forall t <- CloseDeeper(stack, col, pos).1 :: t.kind < USER_BASE
    decreases |stack|
  {
    if |stack| > 1 && col < Top(stack) { CloseIsKernel(Pop(stack), col, pos); }
  }

  lemma AlignIsKernel(stack: seq<nat>, col: nat, pos: nat, onEqual: bool)
    requires stack != []
    ensures forall t <- Align(stack, col, pos, onEqual).1 :: t.kind < USER_BASE
  {
    CloseIsKernel(stack, col, pos);
  }

  lemma {:induction false} DrainIsKernel(n: nat, pos: nat)
    ensures forall t <- Drain(n, pos) :: t.kind < USER_BASE
  {
    if n > 0 { DrainIsKernel(n - 1, pos); }
  }

  /** As long as no literal was given up, no mark is open between tokens. */
  ghost predicate ClosedSoFar(l: Lang, st: State) {
    NoneGivenUp(st.diags) ==> Leads(l, [], st.toks, [])
  }

  lemma MoreClosed(l: Lang, st: State, next: State, more: seq<Token>, diags: seq<Diag>)
    requires ClosedSoFar(l, st) && next.toks == st.toks + more && next.diags == st.diags + diags
    requires NoneGivenUp(diags) ==> Leads(l, [], more, [])
    ensures ClosedSoFar(l, next)
  {
    hide Leads, NoneGivenUp;
    GivenUpJoin(st.diags, diags);
    if NoneGivenUp(next.diags) { LeadsOn(l, [], st.toks, [], more, []); }
  }

  lemma ApproachClosed(s: Bytes, l: Lang, st: State)
    requires st.pos <= |s| && st.stack != [] && ClosedSoFar(l, st) && FreshMarks(l)
    ensures ClosedSoFar(l, Approach(s, l, st))
  {
    hide ClosedSoFar, Indentation, Align, BlankLine, SkipInline, SkipSpace, Leads, FreshMarks;
    var a := Approach(s, l, st);
    LeadsNowhere(l, []);
    assert st.toks + [] == st.toks && st.diags + [] == st.diags;
    if NewlineAware(l) && l.policy.offside.Some? && st.lineStart {
      var o := l.policy.offside.value;
      var indent := Indentation(s, o.unit, st.pos, 0, false);
      var bad := if indent.2 then [Diag(DisallowedIndentUnit, st.pos, indent.0)] else [];
      var aligned := Align(st.stack, indent.1, indent.0, o.dedentOnEqual);
      AlignIsKernel(st.stack, indent.1, indent.0, o.dedentOnEqual);
      if BlankLine(s, l, indent.0) {
        MoreClosed(l, st, a, [], bad);
      } else {
        KernelUnmarked(l, aligned.1);
        UnmarkedLead(l, aligned.1);
        assert st.diags + (bad + aligned.2) == st.diags + bad + aligned.2;
        MoreClosed(l, st, a, aligned.1, bad + aligned.2);
      }
    } else {
      MoreClosed(l, st, a, [], []);
    }
  }

  lemma FinishLineClosed(s: Bytes, l: Lang, st: State)
    requires st.pos <= |s| && NewlineAt(s, l, st.pos) != 0 && ClosedSoFar(l, st) && FreshMarks(l)
    ensures ClosedSoFar(l, FinishLine(s, l, st))
  {
    KernelKindIsUnmarked(l, NEWLINE);
    hide ClosedSoFar, AutoSemicolon, NewlineAt, Leads, FreshMarks, IsMark;
    var n := NewlineAt(s, l, st.pos);
    var newline := if l.policy.emitNewlines || (l.policy.offside.Some? && st.significant)
                   then [Token(NEWLINE, st.pos, st.pos + n, 0)] else [];
    UnmarkedLead(l, AutoSemicolon(l, st) + newline);
    assert st.diags + [] == st.diags;
    MoreClosed(l, st, FinishLine(s, l, st), AutoSemicolon(l, st) + newline, []);
  }

  lemma TakeTokenClosed(s: Bytes, l: Lang, st: State)
    requires st.pos < |s| && ClosedSoFar(l, st) && FreshMarks(l)
    ensures ClosedSoFar(l, TakeToken(s, l, st))
  {
    hide ClosedSoFar, TokenOrInvalid, LastSignificant, Leads, FreshMarks;
    var out := TokenOrInvalid(s, l, 0, st.pos);
    TokenIsNeutral(s, l, 0, st.pos, []);
    MoreClosed(l, st, TakeToken(s, l, st), out.toks, out.diags);
  }

  lemma {:induction false} TurnsClosed(s: Bytes, l: Lang, st: State)
    requires st.pos <= |s| && st.stack != [] && ClosedSoFar(l, st) && FreshMarks(l)
    ensures ClosedSoFar(l, Turns(s, l, st))
    decreases |s| - st.pos
  {
    hide ClosedSoFar, Approach, FinishLine, TakeToken, FreshMarks;
    if |st.toks| < TOKEN_LIMIT {
      var a := Approach(s, l, st);
      ApproachClosed(s, l, st);
      if a.pos < |s| {
        SameStack(s, l, a);
        if NewlineAware(l) && NewlineAt(s, l, a.pos) != 0 {
          FinishLineClosed(s, l, a);
          TurnsClosed(s, l, FinishLine(s, l, a));
        } else {
          TakeTokenClosed(s, l, a);
          TurnsClosed(s, l, TakeToken(s, l, a));
        }
      }
    } else {
      CutIsClosed(l, st);
    }
  }

  lemma CutIsClosed(l: Lang, st: State)
    requires ClosedSoFar(l, st)
    ensures ClosedSoFar(l, st.(diags := st.diags + [Diag(TokenLimit, st.pos, st.pos)]))
  {
    GivenUpJoin(st.diags, [Diag(TokenLimit, st.pos, st.pos)]);
  }

  lemma LineUnmarked(l: Lang, st: State)
    requires FreshMarks(l)
    ensures AllUnmarked(l, EndLine(l, st))
  {
    KernelKindIsUnmarked(l, NEWLINE);
    hide AutoSemicolon, FreshMarks, IsMark;
  }

  lemma EndUnmarked(l: Lang, st: State)
    requires st.stack != [] && FreshMarks(l)
    ensures AllUnmarked(l, EndTokens(l, st) + [Token(EOF, st.pos, st.pos, 0)])
  {
    hide EndLine, FreshMarks, IsMark, Drain;
    LineUnmarked(l, st);
    DrainIsKernel(|st.stack| - 1, st.pos);
    KernelUnmarked(l, EndDedents(l, st));
    KernelKindIsUnmarked(l, EOF);
  }

  /** In a run in which no literal is given up heads and tails, opening and closing marks form one well-nested word. */
  lemma LexNests(s: Bytes, l: Lang)
    requires FreshMarks(l) && NoneGivenUp(Lex(s, l).1)
    ensures Leads(l, [], Lex(s, l).0, [])
  {
    hide Turns, EndTokens, Leads, FreshMarks;
    var st := Turns(s, l, INITIAL);
    LeadsNowhere(l, []);
    assert ClosedSoFar(l, INITIAL);
    TurnsClosed(s, l, INITIAL);
    var more, end := EndTokens(l, st), [Token(EOF, st.pos, st.pos, 0)];
    EndUnmarked(l, st);
    UnmarkedLead(l, more + end);
    LeadsOn(l, [], st.toks, [], more + end, []);
    assert st.toks + (more + end) == (st.toks + more) + end;
  }
}
