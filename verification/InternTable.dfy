/**
 Open addressing with linear probing, as the intern pool of `src/intern.c` lays its table
 out: the facts about bucket sequences that its probe loops rest on.
*/
module InternTable {
  import opened Machine

  type Hash = Bytes -> nat

  /** Interned pointers and the bytes they stand for. */
  type Texts = map<nat, Bytes>

  /** Bucket `k` is passed on the way from `h` to `i`, wrapping at the end. */
  predicate InArc(h: nat, k: nat, i: nat) {
    if h <= i then h <= k < i else h <= k || k < i
  }

  /** A probe from `h` passes no empty bucket before `i`. */
  ghost predicate Filled(keys: seq<nat>, h: nat, i: nat) {
    forall k :: 0 <= k < |keys| && InArc(h, k, i) ==> keys[k] != 0
  }

  /** None of the buckets passed holds `text`. */
  ghost predicate Missed(keys: seq<nat>, texts: Texts, text: Bytes, h: nat, i: nat) {
    forall k :: 0 <= k < |keys| && InArc(h, k, i) ==> keys[k] in texts && texts[keys[k]] != text
  }

  function Next(i: nat, cap: nat): nat {
    if i + 1 == cap then 0 else i + 1
  }

  /** How many probe steps from `i` to `e`. */
  function Distance(i: nat, e: nat, cap: nat): nat
    requires i < cap && e < cap
  {
    if i <= e then e - i else cap - i + e
  }

  function Home(hash: Hash, text: Bytes, cap: nat): (h: nat)
    requires cap > 0
    ensures h < cap
  {
    hash(text) % cap
  }

  function Occupied(keys: seq<nat>): nat {
    if keys == [] then 0 else Occupied(keys[..|keys| - 1]) + if keys[|keys| - 1] != 0 then 1 else 0
  }

  /** Each key is the pointer of a text and sits where a probe for that text gets to. */
  ghost predicate KeyAt(keys: seq<nat>, lens: seq<nat>, texts: Texts, hash: Hash, i: nat)
    requires i < |keys| == |lens|
  {
    keys[i] != 0 ==>
      && keys[i] in texts
      && lens[i] == |texts[keys[i]]|
      && Filled(keys, Home(hash, texts[keys[i]], |keys|), i)
  }

  ghost predicate Laid(keys: seq<nat>, lens: seq<nat>, texts: Texts, hash: Hash) {
    && |keys| == |lens|
    && (forall i :: 0 <= i < |keys| ==> KeyAt(keys, lens, texts, hash, i))
    && (forall i, j :: 0 <= i < j < |keys| && keys[i] != 0 ==> keys[i] != keys[j])
  }

  ghost predicate Injective(texts: Texts) {
    forall p, q :: p in texts && q in texts && texts[p] == texts[q] ==> p == q
  }

  /** The table holds exactly these texts. */
  ghost predicate Holds(keys: seq<nat>, lens: seq<nat>, texts: Texts, hash: Hash) {
    && Laid(keys, lens, texts, hash)
    && Injective(texts)
    && forall p :: p in texts ==> p in keys && p != 0
  }

  lemma {:induction false} SomeEmpty(keys: seq<nat>) returns (e: nat)
    requires Occupied(keys) < |keys|
    ensures e < |keys| && keys[e] == 0
  {
    var n := |keys| - 1;
    if keys[n] == 0 {
      e := n;
    } else {
      e := SomeEmpty(keys[..n]);
    }
  }

  lemma {:induction false} OccupiedUpdate(keys: seq<nat>, i: nat, key: nat)
    requires i < |keys| && keys[i] == 0 && key != 0
    ensures Occupied(keys[i := key]) == Occupied(keys) + 1
  {
    var n := |keys| - 1;
    if i < n {
      OccupiedUpdate(keys[..n], i, key);
      assert keys[i := key][..n] == keys[..n][i := key];
    } else {
      assert keys[i := key][..n] == keys[..n];
    }
  }

  lemma {:induction false} OccupiedNone(keys: seq<nat>)
    requires forall k :: 0 <= k < |keys| ==> keys[k] == 0
    ensures Occupied(keys) == 0
  {
    if keys != [] { OccupiedNone(keys[..|keys| - 1]); }
  }

  /** A probe that has passed only full buckets has an empty one still ahead and comes nearer to it. */
  lemma StepIsNearer(keys: seq<nat>, h: nat, i: nat, e: nat)
    requires h < |keys| && i < |keys| && e < |keys|
    requires Filled(keys, h, i) && keys[i] != 0 && keys[e] == 0
    ensures Next(i, |keys|) < |keys| && Distance(Next(i, |keys|), e, |keys|) < Distance(i, e, |keys|)
    ensures Filled(keys, h, Next(i, |keys|))
    ensures forall k: nat :: k < |keys| ==> (InArc(h, k, Next(i, |keys|)) <==> InArc(h, k, i) || k == i)
  {
    assert !InArc(h, e, i);
  }

  lemma KeyIsText(keys: seq<nat>, lens: seq<nat>, texts: Texts, hash: Hash, i: nat)
    requires Laid(keys, lens, texts, hash) && i < |keys| && keys[i] != 0
    ensures keys[i] in texts && lens[i] == |texts[keys[i]]|
    ensures Filled(keys, Home(hash, texts[keys[i]], |keys|), i)
  {
    assert KeyAt(keys, lens, texts, hash, i);
  }

  /** A probe for a text that stops at an empty bucket has passed the text's own bucket before. */
  lemma ProbeMeetsText(keys: seq<nat>, lens: seq<nat>, texts: Texts, hash: Hash, i: nat, j: nat)
    requires Laid(keys, lens, texts, hash)
    requires i < |keys| && keys[i] == 0 && j < |keys| && keys[j] != 0 && keys[j] in texts
    ensures InArc(Home(hash, texts[keys[j]], |keys|), j, i)
  {
    KeyIsText(keys, lens, texts, hash, j);
    var h := Home(hash, texts[keys[j]], |keys|);
    assert !InArc(h, i, j);
  }

  /** So a probe that stopped without seeing the text shows that it is not in the table. */
  lemma StoppedMeansAbsent(keys: seq<nat>, lens: seq<nat>, texts: Texts, hash: Hash, text: Bytes, i: nat)
    requires Holds(keys, lens, texts, hash)
    requires i < |keys| && keys[i] == 0
    requires Missed(keys, texts, text, Home(hash, text, |keys|), i)
    ensures forall p <- texts :: texts[p] != text
  {
    forall p <- texts ensures texts[p] != text {
      var j :| 0 <= j < |keys| && keys[j] == p;
      ProbeMeetsText(keys, lens, texts, hash, i, j);
    }
  }

  /** Filling the empty bucket a probe ended on keeps every other key within reach. */
  lemma PutKeepsLaid(keys: seq<nat>, lens: seq<nat>, texts: Texts, hash: Hash, i: nat, key: nat)
    requires Laid(keys, lens, texts, hash)
    requires i < |keys| && keys[i] == 0
    requires key != 0 && key in texts && key !in keys
    requires Filled(keys, Home(hash, texts[key], |keys|), i)
    ensures Laid(keys[i := key], lens[i := |texts[key]|], texts, hash)
  {
    var keys', lens' := keys[i := key], lens[i := |texts[key]|];
    forall k | 0 <= k < |keys'| ensures KeyAt(keys', lens', texts, hash, k) {
      if k != i && keys[k] != 0 { KeyIsText(keys, lens, texts, hash, k); }
    }
  }

  /** More texts than the table holds do not disturb it. */
  lemma LaidForMore(keys: seq<nat>, lens: seq<nat>, texts: Texts, hash: Hash, p: nat, text: Bytes)
    requires Laid(keys, lens, texts, hash) && p !in texts
    ensures Laid(keys, lens, texts[p := text], hash)
  {
    var more := texts[p := text];
    forall k | 0 <= k < |keys| ensures KeyAt(keys, lens, more, hash, k) {
      if keys[k] != 0 { KeyIsText(keys, lens, texts, hash, k); }
    }
  }

  lemma PutHolds(keys: seq<nat>, lens: seq<nat>, texts: Texts, hash: Hash, i: nat, p: nat, text: Bytes)
    requires Holds(keys, lens, texts, hash)
    requires i < |keys| && keys[i] == 0
    requires p != 0 && p !in texts && forall q <- texts :: texts[q] != text
    requires Filled(keys, Home(hash, text, |keys|), i)
    ensures Holds(keys[i := p], lens[i := |text|], texts[p := text], hash)
  {
    LaidForMore(keys, lens, texts, hash, p, text);
    forall k | 0 <= k < |keys| ensures keys[k] != p {
      if keys[k] != 0 { KeyIsText(keys, lens, texts, hash, k); }
    }
    PutKeepsLaid(keys, lens, texts[p := text], hash, i, p);
    var keys' := keys[i := p];
    forall q | q in texts[p := text] ensures q in keys' && q != 0 {
      if q != p {
        var k :| 0 <= k < |keys| && keys[k] == q;
        assert keys'[k] == q;
      } else {
        assert keys'[i] == p;
      }
    }
  }
}
