/**
 The table searches of `src/lexer.c`: linear scans over the tables as listed, shown to
 find what the tables mean without their order.
*/
module LexLookup {
  import opened Options
  import opened Machine
  import opened LexConfig

  /** The first entry of a spelling is the one that counts. */
  lemma {:induction false} FirstEntryWins<V>(t: seq<Entry<V>>, k: nat)
    requires k < |t| && forall j :: 0 <= j < k ==> t[j].text != t[k].text
    ensures t[k].text in FirstWins(t) && FirstWins(t)[t[k].text] == t[k].value
  {
    if k > 0 {
      forall j | 0 <= j < k - 1 ensures t[1..][j].text != t[1..][k - 1].text { assert t[1..][j] == t[j + 1]; }
      FirstEntryWins(t[1..], k - 1);
    }
  }

  /** `best` is the entry a longest match picks from the first `n`: the first of the longest that match. */
  ghost predicate Picks<V(!new)>(t: seq<Entry<V>>, s: Bytes, pos: nat, n: nat, best: Option<Entry<V>>) {
    match best
    case None => forall j :: 0 <= j < n <= |t| ==> t[j].text == [] || !Matches(s, pos, t[j].text)
    case Some(e) =>
      && Matches(s, pos, e.text) && e.text != []
      && (exists k :: 0 <= k < n <= |t| && t[k] == e && forall j :: 0 <= j < k ==> t[j].text != e.text)
      && (forall j :: 0 <= j < n <= |t| ==> !Matches(s, pos, t[j].text) || |t[j].text| <= |e.text|)
  }

  /** What a longest match over the table has to answer. */
  function LongestEntry<V>(t: seq<Entry<V>>, s: Bytes, pos: nat): Option<Entry<V>> {
    var m := FirstWins(t);
    var lit := Longest(m.Keys, s, pos);
    if lit.None? then None else Some(Entry(lit.value, m[lit.value]))
  }

  lemma PickIsLongest<V(!new)>(t: seq<Entry<V>>, s: Bytes, pos: nat, best: Option<Entry<V>>)
    requires Picks(t, s, pos, |t|, best)
    ensures best == LongestEntry(t, s, pos)
  {
    forall key | key in FirstWins(t)
      ensures Matches(s, pos, key) && key != [] ==> best.Some? && |key| <= |best.value.text|
    {
      EntryOfText(t, key);
      var j :| 0 <= j < |t| && t[j] == Entry(key, FirstWins(t)[key]);
    }
    if best.Some? {
      var k :| 0 <= k < |t| && t[k] == best.value && forall j :: 0 <= j < k ==> t[j].text != best.value.text;
      FirstEntryWins(t, k);
    }
  }

  /** `match_lit`. */
  method MatchLit(s: Bytes, pos: nat, lit: Bytes) returns (ok: bool)
    ensures ok <==> Matches(s, pos, lit)
  {
    if pos + |lit| > |s| { return false; }
    ghost var here := s[pos..pos + |lit|];
    for i := 0 to |lit|
      invariant forall k :: 0 <= k < i ==> here[k] == lit[k]
    {
      assert here[i] == s[pos + i];
      if s[pos + i] != lit[i] { return false; }
    }
    ok := true;
  }

  /** The longest-match loops of the operator, comment and string tables. */
  method MatchLongest<V(!new)>(t: seq<Entry<V>>, s: Bytes, pos: nat) returns (best: Option<Entry<V>>, at: nat)
    ensures best == LongestEntry(t, s, pos)
    ensures best.Some? ==> at < |t| && t[at] == best.value
  {
    best, at := None, 0;
    for i := 0 to |t|
      invariant Picks(t, s, pos, i, best)
      invariant best.Some? ==> at < |t| && t[at] == best.value
    {
      var longer := |t[i].text| > if best.None? then 0 else |best.value.text|;
      if longer {
        var hit := MatchLit(s, pos, t[i].text);
        if hit { best, at := Some(t[i]), i; }
      }
    }
    PickIsLongest(t, s, pos, best);
  }

  /** The keyword loop of `try_scan_identifier`: a comparison with the whole identifier. */
  method FindText<V>(t: seq<Entry<V>>, text: Bytes) returns (found: Option<V>)
    ensures found == if text in FirstWins(t) then Some(FirstWins(t)[text]) else None
  {
    for i := 0 to |t|
      invariant forall j :: 0 <= j < i ==> t[j].text != text
    {
      if t[i].text == text {
        FirstEntryWins(t, i);
        return Some(t[i].value);
      }
    }
    EntryOfText(t, text);
    found := None;
  }

  /** The suffix loop of `consume_number_suffix`, which passes over empty suffixes. */
  method MatchSuffix(t: seq<Bytes>, s: Bytes, pos: nat) returns (best: Option<Bytes>)
    ensures best == Longest(Elements(t) - {[]}, s, pos)
  {
    best := None;
    for i := 0 to |t|
      invariant best.Some? ==> best.value in t && best.value != [] && Matches(s, pos, best.value)
      invariant forall j :: 0 <= j < i ==> t[j] == [] || !Matches(s, pos, t[j])
                                           || (best.Some? && |t[j]| <= |best.value|)
    {
      var longer := |t[i]| > if best.None? then 0 else |best.value|;
      if longer {
        var hit := MatchLit(s, pos, t[i]);
        if hit { best := Some(t[i]); }
      }
    }
  }

  /** The search for an id among the soft keywords, and `escape_is_allowed`. */
  method Contains<T(==)>(t: seq<T>, x: T) returns (found: bool)
    ensures found <==> x in Elements(t)
  {
    for i := 0 to |t|
      invariant x !in t[..i]
    {
      if t[i] == x { return true; }
    }
    assert t[..|t|] == t;
    found := false;
  }

  /** `line_comment_starts_at`. */
  method LineCommentStarts(t: seq<Entry<CommentStyle>>, s: Bytes, pos: nat) returns (found: bool)
    ensures found <==> exists open <- LineOpens(t) :: Matches(s, pos, open)
  {
    for i := 0 to |t|
      invariant forall j :: 0 <= j < i ==> t[j].value.close != LINE_END || !Matches(s, pos, t[j].text)
    {
      if t[i].value.close == LINE_END {
        var hit := MatchLit(s, pos, t[i].text);
        if hit {
          assert t[i] in t && t[i].text in LineOpens(t);
          return true;
        }
      }
    }
    found := false;
  }
}
