/**
 The string intern pool of `src/intern.c` over the bump allocator: an injective, growing
 map from byte strings to pointers whose bytes stay put.
*/
module Intern {
  import opened Options
  import opened Machine
  import opened Bits
  import opened Arena
  import opened InternTable

  const INITIAL_CAP: nat := 16

  // ----- memory

  /** What the bytes of the arena's blocks hold; a byte never written is zero. */
  type Memory = map<nat, Byte>

  function At(memory: Memory, a: nat): Byte {
    if a in memory then memory[a] else 0
  }

  function Load(memory: Memory, p: nat, n: nat): (s: Bytes)
    ensures |s| == n
  {
    if n == 0 then [] else Load(memory, p, n - 1) + [At(memory, p + n - 1)]
  }

  /** `p` points at the text and the NUL behind it. */
  ghost predicate Stored(memory: Memory, p: nat, text: Bytes) {
    Load(memory, p, |text|) == text && At(memory, p + |text|) == 0
  }

  ghost predicate SameOutside(before: Memory, after: Memory, b: Block) {
    forall a: nat :: !(b.addr <= a < b.addr + b.size) ==> At(before, a) == At(after, a)
  }

  lemma {:induction false} LoadSame(before: Memory, after: Memory, b: Block, p: nat, n: nat)
    requires SameOutside(before, after, b) && Disjoint(Block(p, n), b)
    ensures Load(before, p, n) == Load(after, p, n)
  {
    if n > 0 { LoadSame(before, after, b, p, n - 1); }
  }

  lemma StaysStored(before: Memory, after: Memory, b: Block, p: nat, text: Bytes)
    requires Stored(before, p, text)
    requires SameOutside(before, after, b) && Disjoint(Block(p, |text| + 1), b)
    ensures Stored(after, p, text)
  {
    LoadSame(before, after, b, p, |text| + 1);
    LoadSame(before, after, b, p, |text|);
  }

  /** Every interned text is in a block of its own. */
  ghost predicate InBlocks(blocks: seq<Block>, texts: Texts) {
    forall p <- texts :: Block(p, |texts[p]| + 1) in blocks
  }

  ghost predicate AllStored(memory: Memory, texts: Texts) {
    forall p <- texts :: Stored(memory, p, texts[p])
  }

  /** The pointer just handed out is new, and writing its block leaves all other texts alone. */
  lemma NewBlockIsApart(a: State, blocks: seq<Block>, b: Block, texts: Texts, before: Memory, after: Memory)
    requires Safe(a, blocks + [b]) && InBlocks(blocks, texts) && b.size > 0
    ensures b.addr != 0 && b.addr !in texts
    ensures AllStored(before, texts) && SameOutside(before, after, b) ==> AllStored(after, texts)
  {
    var all := blocks + [b];
    assert all[|blocks|] == b && b in all;
    assert Inside(a.chunks, b);
    forall p <- texts ensures Disjoint(Block(p, |texts[p]| + 1), b) {
      var i :| 0 <= i < |blocks| && blocks[i] == Block(p, |texts[p]| + 1);
      assert Disjoint(all[i], all[|blocks|]);
    }
    hide Safe, Stored, SameOutside;
    if AllStored(before, texts) && SameOutside(before, after, b) {
      forall p <- texts ensures Stored(after, p, texts[p]) {
        StaysStored(before, after, b, p, texts[p]);
      }
    }
  }

  // ----- masks

  lemma MaskIsHome(x: nat, cap: nat)
    requires cap > 0 && IsPowerOfTwo(cap)
    ensures And(x, cap - 1) == x % cap
  {
    var k: nat :| cap == Pow2(k);
    MaskIsRemainder(x, k);
  }

  lemma MaskIsNext(i: nat, cap: nat)
    requires cap > i && IsPowerOfTwo(cap)
    ensures And(i + 1, cap - 1) == Next(i, cap)
  {
    MaskIsHome(i + 1, cap);
    if i + 1 == cap { DivMod(i + 1, cap, 1, 0); } else { DivMod(i + 1, cap, 0, i + 1); }
  }

  /** Doubling below the limit `intern_grow` checks stays in 32 bits. */
  lemma TwicePower(cap: nat)
    requires IsPowerOfTwo(cap)
    ensures IsPowerOfTwo(cap * 2)
    ensures cap <= UINT32_MAX / 2 ==> cap * 2 <= UINT32_MAX / 2 + 1
  {
    TopOfWord();
    if cap <= UINT32_MAX / 2 { PowerBelow(cap, 30); }
    var k: nat :| cap == Pow2(k);
    assert cap * 2 == Pow2(k + 1);
  }

  // ----- probing

  ghost predicate IsTable(keys: array<nat>, lens: array<nat>) {
    keys != lens && keys.Length == lens.Length && keys.Length > 0 && IsPowerOfTwo(keys.Length)
  }

  /** The pointers of `after` are those of `before` and `key`. */
  ghost predicate OneMoreKey(before: seq<nat>, after: seq<nat>, key: nat) {
    forall p :: p != 0 ==> (p in after <==> p in before || p == key)
  }

  lemma UpdateAddsKey(keys: seq<nat>, i: nat, key: nat)
    requires i < |keys| && keys[i] == 0
    ensures OneMoreKey(keys, keys[i := key], key)
  {
    forall p | p != 0 ensures p in keys[i := key] <==> p in keys || p == key {
      if p in keys {
        var k :| 0 <= k < |keys| && keys[k] == p;
        assert keys[i := key][k] == p;
      }
      assert keys[i := key][i] == key;
    }
  }

  /** `intern_put`: a key known to be new, in a table with room. */
  method Put(keys: array<nat>, lens: array<nat>, key: nat, len: nat, h: nat, ghost texts: Texts, ghost hash: Hash)
    requires IsTable(keys, lens)
    requires Laid(keys[..], lens[..], texts, hash) && Occupied(keys[..]) < keys.Length
    requires key != 0 && key in texts && key !in keys[..]
    requires len == |texts[key]| && h == hash(texts[key])
    modifies keys, lens
    ensures Laid(keys[..], lens[..], texts, hash)
    ensures Occupied(keys[..]) == old(Occupied(keys[..])) + 1
    ensures OneMoreKey(old(keys[..]), keys[..], key)
  {
    hide Laid, Occupied, OneMoreKey, IsPowerOfTwo, And, Distance, InArc, Next;
    ghost var before, lensBefore := keys[..], lens[..];
    ghost var e := SomeEmpty(before);
    ghost var home := Home(hash, texts[key], keys.Length);
    MaskIsHome(h, keys.Length);
    var i: nat := And(h, keys.Length - 1);
    NothingPassed(before, home);
    while keys[i] != 0
      invariant i < keys.Length && keys[..] == before && lens[..] == lensBefore
      invariant Filled(before, home, i)
      decreases Distance(i, e, keys.Length)
    {
      StepIsNearer(before, home, i, e);
      MaskIsNext(i, keys.Length);
      i := And(i + 1, keys.Length - 1);
    }
    PutKeepsLaid(before, lensBefore, texts, hash, i, key);
    OccupiedUpdate(before, i, key);
    UpdateAddsKey(before, i, key);
    keys[i] := key;
    lens[i] := len;
    assert keys[..] == before[i := key] && lens[..] == lensBefore[i := len];
  }

  lemma NothingPassed(keys: seq<nat>, h: nat)
    ensures Filled(keys, h, h)
  {
  }

  // ----- the abstract map

  /** What a call does to the map: `s` gets the pointer it had, or one no text had before. */
  ghost predicate Interned(before: Texts, after: Texts, s: Bytes, p: Option<nat>) {
    if p.None? then after == before
    else if p.value in before then after == before && before[p.value] == s
    else after == before[p.value := s] && Absent(before, s)
  }

  /** No interned text has these bytes. */
  ghost predicate Absent(texts: Texts, s: Bytes) {
    forall p <- texts :: texts[p] != s
  }

  datatype Call = Call(s: Bytes, p: Option<nat>)

  /** The maps before, between and after a sequence of calls. */
  ghost predicate History(maps: seq<Texts>, calls: seq<Call>) {
    && |maps| == |calls| + 1
    && Injective(maps[0])
    && forall i :: 0 <= i < |calls| ==> Interned(maps[i], maps[i + 1], calls[i].s, calls[i].p)
  }

  lemma {:induction false} MapsOnlyGrow(maps: seq<Texts>, calls: seq<Call>, i: nat, k: nat)
    requires History(maps, calls) && i <= k < |maps|
    ensures Injective(maps[k]) && maps[i].Items <= maps[k].Items
    decreases k
  {
    if k > 0 {
      MapsOnlyGrow(maps, calls, if i < k then i else k - 1, k - 1);
      assert Interned(maps[k - 1], maps[k - 1 + 1], calls[k - 1].s, calls[k - 1].p);
    }
  }

  /** A pointer returned keeps its bytes from then on. */
  lemma AnswerStays(maps: seq<Texts>, calls: seq<Call>, i: nat, k: nat)
    requires History(maps, calls) && i < k < |maps| && calls[i].p.Some?
    ensures calls[i].p.value in maps[k] && maps[k][calls[i].p.value] == calls[i].s
  {
    MapsOnlyGrow(maps, calls, 0, i);
    assert Interned(maps[i], maps[i + 1], calls[i].s, calls[i].p);
    MapsOnlyGrow(maps, calls, i + 1, k);
    assert (calls[i].p.value, calls[i].s) in maps[i + 1].Items;
    assert (calls[i].p.value, calls[i].s) in maps[k].Items;
  }

  /** Over any sequence of calls: two that succeed return the same pointer just when they asked for the same
      bytes. */
  lemma SamePointerSameBytes(maps: seq<Texts>, calls: seq<Call>, i: nat, j: nat)
    requires History(maps, calls) && i < |calls| && j < |calls|
    requires calls[i].p.Some? && calls[j].p.Some?
    ensures calls[i].p == calls[j].p <==> calls[i].s == calls[j].s
  {
    AnswerStays(maps, calls, i, |calls|);
    AnswerStays(maps, calls, j, |calls|);
    MapsOnlyGrow(maps, calls, 0, |calls|);
  }

  // ----- growing

  /** The keys of the first `i` old buckets have moved to the new table. */
  ghost predicate Moved(nkeys: seq<nat>, nlens: seq<nat>, keys: seq<nat>, i: nat, texts: Texts, hash: Hash)
    requires i <= |keys|
  {
    && Laid(nkeys, nlens, texts, hash)
    && Occupied(nkeys) == Occupied(keys[..i]) <= i
    && forall p :: p != 0 ==> (p in nkeys <==> p in keys[..i])
  }

  lemma NothingMoved(nkeys: seq<nat>, nlens: seq<nat>, keys: seq<nat>, texts: Texts, hash: Hash)
    requires |nkeys| == |nlens| && forall k :: 0 <= k < |nkeys| ==> nkeys[k] == 0
    ensures Moved(nkeys, nlens, keys, 0, texts, hash)
  {
    OccupiedNone(nkeys);
    forall k | 0 <= k < |nkeys| ensures KeyAt(nkeys, nlens, texts, hash, k) {
    }
  }

  lemma EmptyMoves(nkeys: seq<nat>, nlens: seq<nat>, keys: seq<nat>, i: nat, texts: Texts, hash: Hash)
    requires i < |keys| && keys[i] == 0 && Moved(nkeys, nlens, keys, i, texts, hash)
    ensures Moved(nkeys, nlens, keys, i + 1, texts, hash)
  {
    hide Laid;
    assert keys[..i + 1][..i] == keys[..i];
    assert keys[..i + 1] == keys[..i] + [0];
  }

  lemma KeyToMove(nkeys: seq<nat>, nlens: seq<nat>, keys: seq<nat>, lens: seq<nat>, i: nat, texts: Texts, hash: Hash)
    requires i < |keys| && keys[i] != 0 && Moved(nkeys, nlens, keys, i, texts, hash)
    requires Laid(keys, lens, texts, hash)
    ensures keys[i] in texts && lens[i] == |texts[keys[i]]| && keys[i] !in nkeys
  {
    KeyIsText(keys, lens, texts, hash, i);
    assert keys[i] !in keys[..i];
  }

  lemma KeyMoves(nkeys: seq<nat>, nlens: seq<nat>, after: seq<nat>, after': seq<nat>, keys: seq<nat>, i: nat,
                 texts: Texts, hash: Hash)
    requires i < |keys| && keys[i] != 0 && Moved(nkeys, nlens, keys, i, texts, hash)
    requires Laid(after, after', texts, hash) && Occupied(after) == Occupied(nkeys) + 1
    requires OneMoreKey(nkeys, after, keys[i])
    ensures Moved(after, after', keys, i + 1, texts, hash)
  {
    hide Laid;
    assert keys[..i + 1][..i] == keys[..i];
    assert keys[..i + 1] == keys[..i] + [keys[i]];
  }

  lemma AllMoved(nkeys: seq<nat>, nlens: seq<nat>, keys: seq<nat>, lens: seq<nat>, texts: Texts, hash: Hash)
    requires Moved(nkeys, nlens, keys, |keys|, texts, hash) && Holds(keys, lens, texts, hash)
    ensures Holds(nkeys, nlens, texts, hash) && Occupied(nkeys) == Occupied(keys)
  {
    hide Laid, Injective;
    assert keys[..|keys|] == keys;
  }

  /** The rehash loop of `intern_grow`: every key moves to a larger table under its old pointer. */
  method Rehash(keys: array<nat>, lens: array<nat>, ncap: nat, memory: Memory, ghost texts: Texts, hash: Hash)
    returns (nkeys: array<nat>, nlens: array<nat>)
    requires IsTable(keys, lens) && keys.Length < ncap && IsPowerOfTwo(ncap)
    requires Holds(keys[..], lens[..], texts, hash) && AllStored(memory, texts)
    ensures fresh(nkeys) && fresh(nlens) && IsTable(nkeys, nlens) && nkeys.Length == ncap
    ensures Holds(nkeys[..], nlens[..], texts, hash) && Occupied(nkeys[..]) == Occupied(keys[..])
  {
    nkeys, nlens := new nat[ncap](_ => 0), new nat[ncap](_ => 0);
    ghost var olds, oldLens := keys[..], lens[..];
    assert Laid(olds, oldLens, texts, hash);
    NothingMoved(nkeys[..], nlens[..], olds, texts, hash);
    hide Laid, Occupied, OneMoreKey, IsPowerOfTwo, Moved, Holds;
    for i := 0 to keys.Length
      invariant fresh(nkeys) && fresh(nlens) && nkeys != nlens && nkeys.Length == nlens.Length == ncap
      invariant keys[..] == olds && lens[..] == oldLens
      invariant Moved(nkeys[..], nlens[..], olds, i, texts, hash)
    {
      if keys[i] != 0 {
        KeyToMove(nkeys[..], nlens[..], olds, oldLens, i, texts, hash);
        ghost var before, before' := nkeys[..], nlens[..];
        Put(nkeys, nlens, keys[i], lens[i], hash(Load(memory, keys[i], lens[i])), texts, hash);
        KeyMoves(before, before', nkeys[..], nlens[..], olds, i, texts, hash);
      } else {
        EmptyMoves(nkeys[..], nlens[..], olds, i, texts, hash);
      }
    }
    AllMoved(nkeys[..], nlens[..], olds, oldLens, texts, hash);
  }

  // ----- the pool

  function TextOf(text: Option<Bytes>): Bytes {
    if text.None? then [] else text.value
  }

  class InternPool {
    var keys: array<nat>
    var lens: array<nat>
    var cap: nat
    var count: nat
    var memory: Memory
    const strings: ByteArena
    const hash: Hash

    /** The bytes every pointer ever returned stands for. */
    ghost var texts: Texts

    ghost predicate Valid()
      reads this, keys, lens, strings
    {
      && IsTable(keys, lens) && INITIAL_CAP <= cap == keys.Length <= UINT32_MAX / 2 + 1
      && Occupied(keys[..]) == count && count * 4 <= cap * 3
      && (cap == 16 || cap * 3 < (count + 1) * 8)
      && Holds(keys[..], lens[..], texts, hash)
      && strings.Valid() && InBlocks(strings.blocks, texts) && AllStored(memory, texts)
    }

    /** `kavak_intern_pool_new`, when memory for the struct, both tables and the first chunk was found. */
    constructor (hash: Hash, calloc: Calloc)
      requires Honest(State([], 0, 0), calloc) && calloc(DEFAULT_CHUNK).Some?
      ensures Valid() && texts == map[] && this.hash == hash
      ensures fresh(keys) && fresh(lens) && fresh(strings)
    {
      this.hash := hash;
      cap := INITIAL_CAP;
      keys := new nat[INITIAL_CAP](_ => 0);
      lens := new nat[INITIAL_CAP](_ => 0);
      count := 0;
      memory := map[];
      texts := map[];
      strings := new ByteArena(0, calloc);
      new;
      NothingMoved(keys[..], lens[..], [], map[], hash);
      assert INITIAL_CAP == Pow2(4);
    }

    /** `intern_grow`. */
    method Grow(tables: bool) returns (grown: bool)
      requires Valid() && IsFull()
      modifies this`keys, this`lens, this`cap
      ensures Valid()
      ensures grown <==> old(cap) <= UINT32_MAX / 2 && tables
      ensures if grown then cap == 2 * old(cap) && fresh(keys) && fresh(lens)
              else cap == old(cap) && keys == old(keys) && lens == old(lens)
    {
      if cap > UINT32_MAX / 2 || !tables { return false; }
      hide Holds, Occupied, InBlocks, AllStored;
      TwicePower(cap);
      keys, lens := Rehash(keys, lens, cap * 2, memory, texts, hash);
      cap := cap * 2;
      grown := true;
    }

    /** The load check before probing, in 64-bit arithmetic. */
    predicate IsFull()
      reads this
    {
      (count + 1) * 4 > cap * 3
    }

    /** A call fails when the text is too long, when a full table cannot be doubled (even for a text it
        already holds), and when a new text finds no room in the arena. */
    ghost predicate Refuses(s: Bytes, tables: bool, calloc: Calloc)
      reads this, strings
    {
      || |s| > UINT32_MAX
      || (IsFull() && !(cap <= UINT32_MAX / 2 && tables))
      || (Absent(texts, s) && NoRoom(|s| + 1, calloc))
    }

    ghost predicate NoRoom(size: nat, calloc: Calloc)
      reads strings
    {
      Allocate(strings.Now(), size, DEFAULT_ALIGN, calloc).1.None?
    }

    /** There is memory for this text: for a larger table, and for a chunk if the text does not fit the last one. */
    ghost predicate MemoryFor(s: Bytes, tables: bool, calloc: Calloc)
      reads this, strings
    {
      && |s| <= UINT32_MAX && tables && cap <= UINT32_MAX / 2
      && LeavesRoom(strings.Now()) && calloc(FreshCap(strings.Now(), |s| + 1, DEFAULT_ALIGN)).Some?
    }

    /** `kavak_intern`; a NULL text is the empty one. `tables` says whether a larger table can be had. */
    method Intern(text: Option<Bytes>, tables: bool, calloc: Calloc) returns (p: Option<nat>)
      requires Valid() && Honest(strings.Now(), calloc)
      modifies this`keys, this`lens, this`cap, this`count, this`memory, this`texts, keys, lens, strings
      ensures Valid()
      ensures (keys == old(keys) || fresh(keys)) && (lens == old(lens) || fresh(lens))
      ensures Interned(old(texts), texts, TextOf(text), p)
      ensures p.None? <==> old(Refuses(TextOf(text), tables, calloc))
    {
      hide Occupied, Holds, Filled, InBlocks, AllStored, IsPowerOfTwo, Safe, NoRoom, Honest, Absent;
      var s := TextOf(text);
      if |s| > UINT32_MAX { return None; }
      if IsFull() {
        var grown := Grow(tables);
        if !grown { return None; }
      }
      p := InternWithRoom(s, calloc);
    }

    /** A text within 32 bits is never refused while memory is found. */
    lemma MemoryIsEnough(s: Bytes, tables: bool, calloc: Calloc)
      requires Valid()
      ensures MemoryFor(s, tables, calloc) ==> !Refuses(s, tables, calloc)
    {
      assert IsPowerOfTwo(8) by { assert Pow2(3) == 8; }
      hide Occupied, Holds, InBlocks, AllStored, Allocate, IsPowerOfTwo;
      if MemoryFor(s, tables, calloc) {
        SmallBlocksSucceed(strings.Now(), |s| + 1, DEFAULT_ALIGN, calloc);
      }
    }

    /** The rest of it, once the table has a bucket to spare. */
    method InternWithRoom(s: Bytes, calloc: Calloc) returns (p: Option<nat>)
      requires Valid() && Honest(strings.Now(), calloc)
      requires !IsFull() && |s| <= UINT32_MAX
      modifies this`count, this`memory, this`texts, keys, lens, strings
      ensures Valid()
      ensures Interned(old(texts), texts, s, p)
      ensures p.None? <==> old(Absent(texts, s) && NoRoom(|s| + 1, calloc))
    {
      hide Occupied, Holds, Filled, InBlocks, AllStored, IsPowerOfTwo, Safe, Allocate, Honest;
      var i, found := Probe(s);
      if found { return Some(keys[i]); }
      ghost var blocks := strings.blocks;
      p := strings.Alloc(|s| + 1, calloc);
      if p.None? { return None; }
      Enter(s, i, p.value, blocks);
    }

    /** Everything `Valid` says but for the block just allocated. */
    ghost predicate ValidBut(blocks: seq<Block>)
      reads this, keys, lens, strings
    {
      && IsTable(keys, lens) && INITIAL_CAP <= cap == keys.Length <= UINT32_MAX / 2 + 1
      && Occupied(keys[..]) == count && count * 4 <= cap * 3
      && (cap == 16 || cap * 3 < (count + 1) * 8)
      && Holds(keys[..], lens[..], texts, hash)
      && strings.Valid() && InBlocks(blocks, texts) && AllStored(memory, texts)
    }

    /** The new text goes into its block and into the bucket the probe ended on. */
    method Enter(s: Bytes, i: nat, p: nat, ghost blocks: seq<Block>)
      requires ValidBut(blocks) && strings.blocks == blocks + [Block(p, |s| + 1)]
      requires !IsFull()
      requires i < keys.Length && keys[i] == 0 && Filled(keys[..], Home(hash, s, keys.Length), i)
      requires Absent(texts, s)
      modifies this`count, this`memory, this`texts, keys, lens
      ensures Valid()
      ensures texts == old(texts)[p := s] && p !in old(texts)
    {
      hide Occupied, Holds, Filled, InBlocks, AllStored, IsPowerOfTwo, Safe;
      ghost var now, nowLens := keys[..], lens[..];
      ghost var before := memory;
      memory := CopyText(memory, p, s);
      NewBlockIsApart(strings.Now(), blocks, Block(p, |s| + 1), texts, before, memory);
      NewTextStored(memory, texts, p, s);
      PutHolds(now, nowLens, texts, hash, i, p, s);
      OccupiedUpdate(now, i, p);
      BlockAdded(blocks, texts, p, s);
      var len: nat := |s|;
      keys[i] := p;
      lens[i] := len;
      count := count + 1;
      texts := texts[p := s];
      assert keys[..] == now[i := p] && lens[..] == nowLens[i := len];
    }

    /** The probe loop of `kavak_intern`: the bucket of the text, or the empty bucket it belongs in. */
    method Probe(s: Bytes) returns (i: nat, found: bool)
      requires Valid()
      ensures i < keys.Length && (found <==> keys[i] != 0)
      ensures found ==> keys[i] in texts && texts[keys[i]] == s
      ensures !found ==> Absent(texts, s)
      ensures !found ==> Filled(keys[..], Home(hash, s, keys.Length), i)
    {
      hide Occupied, InBlocks, IsPowerOfTwo, And, Distance, InArc, Next, Arena.Safe, Injective;
      ghost var now, nowLens := keys[..], lens[..];
      ghost var e := RoomLeft(now, count, cap);
      ghost var home := Home(hash, s, cap);
      MaskIsHome(hash(s), cap);
      i := And(hash(s), cap - 1);
      NothingMissed(now, texts, s, home);
      while keys[i] != 0
        invariant i < cap && keys[..] == now && lens[..] == nowLens
        invariant Filled(now, home, i) && Missed(now, texts, s, home, i)
        decreases Distance(i, e, cap)
      {
        KeyIsText(now, nowLens, texts, hash, i);
        if lens[i] == |s| {
          var same := SameBytes(memory, keys[i], s);
          if same { return i, true; }
        }
        StepIsNearer(now, home, i, e);
        MaskIsNext(i, cap);
        i := And(i + 1, cap - 1);
      }
      StoppedMeansAbsent(now, nowLens, texts, hash, s, i);
      found := false;
    }
  }

  lemma NewTextStored(memory: Memory, texts: Texts, p: nat, s: Bytes)
    requires AllStored(memory, texts) && Stored(memory, p, s)
    ensures AllStored(memory, texts[p := s])
  {
  }

  lemma BlockAdded(blocks: seq<Block>, texts: Texts, p: nat, s: Bytes)
    requires InBlocks(blocks, texts)
    ensures InBlocks(blocks + [Block(p, |s| + 1)], texts[p := s])
  {
    var all := blocks + [Block(p, |s| + 1)];
    assert all[|blocks|] == Block(p, |s| + 1);
  }

  /** `memcpy` and the closing NUL. */
  method CopyText(memory: Memory, p: nat, s: Bytes) returns (after: Memory)
    ensures Stored(after, p, s) && SameOutside(memory, after, Block(p, |s| + 1))
  {
    after := memory;
    for k := 0 to |s|
      invariant Load(after, p, k) == s[..k]
      invariant SameOutside(memory, after, Block(p, |s| + 1))
    {
      LoadSame(after, after[p + k := s[k]], Block(p + k, 1), p, k);
      after := after[p + k := s[k]];
    }
    LoadSame(after, after[p + |s| := 0], Block(p + |s|, 1), p, |s|);
    after := after[p + |s| := 0];
    assert s[..|s|] == s;
  }

  lemma RoomLeft(keys: seq<nat>, count: nat, cap: nat) returns (e: nat)
    requires cap == |keys| > 0 && Occupied(keys) == count && count * 4 <= cap * 3
    ensures e < |keys| && keys[e] == 0
  {
    e := SomeEmpty(keys);
  }

  lemma NothingMissed(keys: seq<nat>, texts: Texts, s: Bytes, h: nat)
    ensures Filled(keys, h, h) && Missed(keys, texts, s, h, h)
  {
  }

  /** `memcmp` of the interned bytes with the text asked for. */
  method SameBytes(memory: Memory, p: nat, s: Bytes) returns (same: bool)
    ensures same <==> Load(memory, p, |s|) == s
  {
    for k := 0 to |s|
      invariant Load(memory, p, k) == s[..k]
    {
      if At(memory, p + k) != s[k] {
        LoadAt(memory, p, |s|, k);
        return false;
      }
    }
    assert s[..|s|] == s;
    same := true;
  }

  lemma {:induction false} LoadAt(memory: Memory, p: nat, n: nat, k: nat)
    requires k < n
    ensures Load(memory, p, n)[k] == At(memory, p + k)
  {
    if k < n - 1 { LoadAt(memory, p, n - 1, k); }
  }
}
