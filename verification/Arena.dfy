/**
 The bump allocator of `src/arena.c`. Addresses are numbers of a 64-bit machine; what
 `calloc` answers is a function from the capacity asked for to the address of `data[0]`.
*/
module Arena {
  import opened Options
  import opened Machine
  import opened Bits

  const DEFAULT_CHUNK: nat := 4096
  const DEFAULT_ALIGN: nat := 8

  /** The bytes of a chunk before `data`. */
  const HEADER: nat := 24

  datatype Chunk = Chunk(base: nat, used: nat, cap: nat)
  datatype State = State(chunks: seq<Chunk>, chunkSize: nat, totalUsed: nat)
  datatype Block = Block(addr: nat, size: nat)

  type Calloc = nat -> Option<nat>

  // ----- what an allocation does, in plain arithmetic

  /** The first address at or after `addr` that is a multiple of `align`. */
  function RoundUp(addr: nat, align: nat): (r: nat)
    requires align > 0
    ensures addr <= r < addr + align
  {
    addr + align - 1 - (addr + align - 1) % align
  }

  predicate IsMultiple(x: nat, d: nat)
    requires d > 0
  {
    x % d == 0
  }

  lemma RoundUpIsMultiple(addr: nat, align: nat)
    requires align > 0
    ensures IsMultiple(RoundUp(addr, align), align)
  {
    var x := addr + align - 1;
    assert x - x % align == align * (x / align);
    DivMod(x - x % align, align, x / align, 0);
  }

  function Larger(a: nat, b: nat): nat {
    if a > b then a else b
  }

  function Alignment(align: nat): nat {
    if align == 0 then DEFAULT_ALIGN else align
  }

  function Tail(a: State): Chunk
    requires a.chunks != []
  {
    a.chunks[|a.chunks| - 1]
  }

  /** The arena afterwards, and the address handed out. */
  ghost function Allocate(a: State, size: nat, align: nat, calloc: Calloc): (State, Option<nat>) {
    var al := Alignment(align);
    if a.chunks == [] || !IsPowerOfTwo(al) then (a, None)
    else
      var top := Tail(a).base + Tail(a).used;
      if top + al - 1 > SIZE_MAX || RoundUp(top, al) + size - Tail(a).base > SIZE_MAX then (a, None)
      else if RoundUp(top, al) + size <= Tail(a).base + Tail(a).cap then TakenAt(a, RoundUp(top, al), size)
      else AllocateFresh(a, size, al, calloc)
  }

  /** The tail is too small: the block goes to the front of a new chunk. */
  function AllocateFresh(a: State, size: nat, al: nat, calloc: Calloc): (State, Option<nat>)
    requires al > 0
  {
    var cap := Larger(a.chunkSize, size + al - 1);
    if size + al - 1 > SIZE_MAX || cap > SIZE_MAX - HEADER || calloc(cap).None? then (a, None)
    else TakenAt(WithChunk(a, calloc(cap).value, cap), RoundUp(calloc(cap).value, al), size)
  }

  function WithChunk(a: State, base: nat, cap: nat): (r: State)
    ensures r.chunks != [] && Tail(r) == Chunk(base, 0, cap)
  {
    a.(chunks := a.chunks + [Chunk(base, 0, cap)])
  }

  function TakenAt(a: State, at: nat, size: nat): (State, Option<nat>)
    requires a.chunks != [] && Tail(a).base + Tail(a).used <= at
  {
    (Bump(a, |a.chunks| - 1, at + size), Some(at))
  }

  /** Chunk `i` is used up to the address `top`. */
  function Bump(a: State, i: nat, top: nat): State
    requires i < |a.chunks| && a.chunks[i].base + a.chunks[i].used <= top
  {
    var c := a.chunks[i];
    State(a.chunks[i := c.(used := top - c.base)], a.chunkSize, a.totalUsed + (top - (c.base + c.used)))
  }

  // ----- what holds in every reachable arena

  function SumUsed(chunks: seq<Chunk>): nat {
    if chunks == [] then 0 else SumUsed(chunks[..|chunks| - 1]) + chunks[|chunks| - 1].used
  }

  predicate InRange(c: Chunk) {
    c.used <= c.cap && 0 < c.base && c.base + c.cap <= SIZE_MAX
  }

  predicate Apart(c: Chunk, d: Chunk) {
    c.base + c.cap <= d.base || d.base + d.cap <= c.base
  }

  ghost predicate Sound(a: State) {
    && (forall i :: 0 <= i < |a.chunks| ==> InRange(a.chunks[i]))
    && (forall i, j :: 0 <= i < j < |a.chunks| ==> Apart(a.chunks[i], a.chunks[j]))
    && a.totalUsed == SumUsed(a.chunks)
  }

  /** `calloc` hands out memory that exists and belongs to no chunk yet. */
  ghost predicate Honest(a: State, calloc: Calloc) {
    forall cap: nat :: calloc(cap).Some? ==>
      var c := Chunk(calloc(cap).value, 0, cap);
      InRange(c) && forall i :: 0 <= i < |a.chunks| ==> Apart(a.chunks[i], c)
  }

  /** The block lies in the used part of one chunk. */
  ghost predicate Inside(chunks: seq<Chunk>, b: Block) {
    exists i :: 0 <= i < |chunks| && InUsed(chunks[i], b)
  }

  predicate InUsed(c: Chunk, b: Block) {
    c.base <= b.addr && b.addr + b.size <= c.base + c.used
  }

  predicate Disjoint(b: Block, c: Block) {
    b.addr + b.size <= c.addr || c.addr + c.size <= b.addr
  }

  /** Every block handed out so far is in place, and no two overlap. */
  ghost predicate Safe(a: State, blocks: seq<Block>) {
    && Sound(a)
    && (forall b <- blocks :: Inside(a.chunks, b))
    && (forall i, j :: 0 <= i < j < |blocks| ==> Disjoint(blocks[i], blocks[j]))
  }

  // ----- the addresses of a sound arena

  lemma {:induction false} SumUsedUpdate(chunks: seq<Chunk>, i: nat, c: Chunk)
    requires i < |chunks|
    ensures SumUsed(chunks[i := c]) == SumUsed(chunks) - chunks[i].used + c.used
  {
    var n := |chunks| - 1;
    if i < n {
      SumUsedUpdate(chunks[..n], i, c);
      assert chunks[i := c][..n] == chunks[..n][i := c];
    } else {
      assert chunks[i := c][..n] == chunks[..n];
    }
  }

  /** The addresses of the chunks are that many different numbers below SIZE_MAX. */
  function Addresses(chunks: seq<Chunk>): set<nat> {
    if chunks == [] then {}
    else
      var last := chunks[|chunks| - 1];
      Addresses(chunks[..|chunks| - 1]) + Interval(last.base, last.cap)
  }

  function Interval(lo: nat, n: nat): (r: set<nat>)
    ensures |r| == n && forall x: nat :: x in r <==> lo <= x < lo + n
  {
    if n == 0 then {} else Interval(lo, n - 1) + {lo + n - 1}
  }

  lemma {:induction false} AddressesWithin(chunks: seq<Chunk>, x: nat)
    requires x in Addresses(chunks)
    ensures exists i :: 0 <= i < |chunks| && chunks[i].base <= x < chunks[i].base + chunks[i].cap
  {
    var n := |chunks| - 1;
    if x in Addresses(chunks[..n]) {
      AddressesWithin(chunks[..n], x);
      var i :| 0 <= i < n && chunks[..n][i].base <= x < chunks[..n][i].base + chunks[..n][i].cap;
      assert chunks[i] == chunks[..n][i];
    } else {
      assert x in Interval(chunks[n].base, chunks[n].cap);
    }
  }

  lemma {:induction false} UsedWithinAddresses(chunks: seq<Chunk>)
    requires forall i :: 0 <= i < |chunks| ==> InRange(chunks[i])
    requires forall i, j :: 0 <= i < j < |chunks| ==> Apart(chunks[i], chunks[j])
    ensures SumUsed(chunks) <= |Addresses(chunks)|
  {
    if chunks != [] {
      var n := |chunks| - 1;
      UsedWithinAddresses(chunks[..n]);
      var c := chunks[n];
      forall x | x in Addresses(chunks[..n]) ensures x !in Interval(c.base, c.cap) {
        AddressesWithin(chunks[..n], x);
        var i :| 0 <= i < n && chunks[..n][i].base <= x < chunks[..n][i].base + chunks[..n][i].cap;
        assert Apart(chunks[i], chunks[n]);
      }
      UnionSize(Addresses(chunks[..n]), Interval(c.base, c.cap));
    }
  }

  lemma UnionSize(s: set<nat>, t: set<nat>)
    requires forall x <- s :: x !in t
    ensures |s + t| == |s| + |t|
  {
    assert s * t == {};
  }

  lemma SubsetSize(s: set<nat>, t: set<nat>)
    requires s <= t
    ensures |s| <= |t|
  {
    assert t == s + (t - s);
  }

  /** Chunks that do not overlap cannot use more bytes than there are addresses. */
  lemma UsedBelow(chunks: seq<Chunk>, limit: nat)
    requires forall i :: 0 <= i < |chunks| ==> InRange(chunks[i]) && chunks[i].base + chunks[i].cap <= limit
    requires forall i, j :: 0 <= i < j < |chunks| ==> Apart(chunks[i], chunks[j])
    ensures SumUsed(chunks) <= limit
  {
    UsedWithinAddresses(chunks);
    forall x | x in Addresses(chunks) ensures 0 <= x < 0 + limit {
      AddressesWithin(chunks, x);
    }
    SubsetSize(Addresses(chunks), Interval(0, limit));
  }

  // ----- what one allocation keeps, and whole runs

  lemma BumpIsSound(a: State, i: nat, top: nat)
    requires Sound(a) && i < |a.chunks|
    requires a.chunks[i].base + a.chunks[i].used <= top <= a.chunks[i].base + a.chunks[i].cap
    ensures Sound(Bump(a, i, top))
  {
    var c := a.chunks[i];
    SumUsedUpdate(a.chunks, i, c.(used := top - c.base));
    var chunks := Bump(a, i, top).chunks;
    forall j, k | 0 <= j < k < |chunks| ensures Apart(chunks[j], chunks[k]) {
      assert Apart(a.chunks[j], a.chunks[k]);
    }
  }

  lemma BumpKeepsBlocks(a: State, i: nat, at: nat, size: nat, b: Block)
    requires Sound(a) && i < |a.chunks|
    requires a.chunks[i].base + a.chunks[i].used <= at && at + size <= a.chunks[i].base + a.chunks[i].cap
    requires Inside(a.chunks, b)
    ensures Inside(Bump(a, i, at + size).chunks, b) && Disjoint(b, Block(at, size))
  {
    var j :| 0 <= j < |a.chunks| && InUsed(a.chunks[j], b);
    assert InUsed(Bump(a, i, at + size).chunks[j], b);
    assert InRange(a.chunks[j]);
    if j < i { assert Apart(a.chunks[j], a.chunks[i]); }
    if i < j { assert Apart(a.chunks[i], a.chunks[j]); }
  }

  /** Handing out a block above the used part of one chunk keeps every block in place and apart. */
  lemma BumpIsSafe(a: State, blocks: seq<Block>, i: nat, at: nat, size: nat)
    requires Safe(a, blocks) && i < |a.chunks|
    requires a.chunks[i].base + a.chunks[i].used <= at && at + size <= a.chunks[i].base + a.chunks[i].cap
    ensures Safe(Bump(a, i, at + size), blocks + [Block(at, size)])
  {
    var top := at + size;
    var after := Bump(a, i, top);
    BumpIsSound(a, i, top);
    forall b <- blocks ensures Inside(after.chunks, b) && Disjoint(b, Block(at, size)) {
      BumpKeepsBlocks(a, i, at, size, b);
    }
    assert InUsed(after.chunks[i], Block(at, size));
    hide *;
    assert forall b <- blocks + [Block(at, size)] :: Inside(after.chunks, b);
  }

  lemma FreshChunkIsSafe(a: State, blocks: seq<Block>, calloc: Calloc, cap: nat)
    requires Safe(a, blocks) && Honest(a, calloc) && calloc(cap).Some?
    ensures InRange(Chunk(calloc(cap).value, 0, cap))
    ensures Safe(WithChunk(a, calloc(cap).value, cap), blocks)
  {
    var after := WithChunk(a, calloc(cap).value, cap);
    forall b <- blocks ensures Inside(after.chunks, b) {
      var j :| 0 <= j < |a.chunks| && InUsed(a.chunks[j], b);
      assert InUsed(after.chunks[j], b);
    }
  }

  /** A block was handed out at `at`, of the right alignment and apart from all others. */
  ghost predicate HandedOut(after: State, blocks: seq<Block>, at: nat, size: nat, align: nat)
    requires align > 0
  {
    Safe(after, blocks + [Block(at, size)]) && IsMultiple(at, align) && 0 < at && at + size <= SIZE_MAX
  }

  ghost predicate TakenSafely(r: (State, Option<nat>), blocks: seq<Block>, size: nat, align: nat)
    requires align > 0
  {
    r.1.Some? && HandedOut(r.0, blocks, r.1.value, size, align)
  }

  lemma FromTail(a: State, blocks: seq<Block>, size: nat, align: nat)
    requires Safe(a, blocks) && a.chunks != [] && align > 0
    requires RoundUp(Tail(a).base + Tail(a).used, align) + size <= Tail(a).base + Tail(a).cap
    ensures TakenSafely(TakenAt(a, RoundUp(Tail(a).base + Tail(a).used, align), size), blocks, size, align)
  {
    assert InRange(Tail(a));
    hide Safe, RoundUp;
    RoundUpIsMultiple(Tail(a).base + Tail(a).used, align);
    BumpIsSafe(a, blocks, |a.chunks| - 1, RoundUp(Tail(a).base + Tail(a).used, align), size);
  }

  lemma FromFresh(a: State, blocks: seq<Block>, size: nat, align: nat, calloc: Calloc)
    requires Safe(a, blocks) && Honest(a, calloc) && align > 0
    ensures var r := AllocateFresh(a, size, align, calloc);
            r.1.Some? ==> TakenSafely(r, blocks, size, align)
  {
    hide Safe, Honest, RoundUp, TakenAt, TakenSafely;
    var cap := Larger(a.chunkSize, size + align - 1);
    if AllocateFresh(a, size, align, calloc).1.Some? {
      FreshChunkIsSafe(a, blocks, calloc, cap);
      FromTail(WithChunk(a, calloc(cap).value, cap), blocks, size, align);
    }
  }

  /** One allocation: a failed call changes nothing; a block handed out is aligned, lies in one chunk and
      overlaps no earlier block, and `totalUsed` still is the sum over the chunks. */
  lemma AllocateIsSafe(a: State, blocks: seq<Block>, size: nat, align: nat, calloc: Calloc)
    requires Safe(a, blocks) && Honest(a, calloc)
    ensures var r := Allocate(a, size, align, calloc);
            if r.1.None? then r.0 == a else HandedOut(r.0, blocks, r.1.value, size, Alignment(align))
  {
    var al := Alignment(align);
    if a.chunks != [] && RoundUp(Tail(a).base + Tail(a).used, al) + size <= Tail(a).base + Tail(a).cap {
      FromTail(a, blocks, size, al);
    }
    FromFresh(a, blocks, size, al, calloc);
    hide Safe, Honest, RoundUp, HandedOut, IsPowerOfTwo, TakenAt, AllocateFresh;
  }

  /** The running total cannot overflow: chunks lie apart in one address space. */
  lemma TotalNeverOverflows(a: State)
    requires Sound(a)
    ensures a.totalUsed <= SIZE_MAX
  {
    UsedBelow(a.chunks, SIZE_MAX);
  }

  /** What the checks of the code come to: the bytes taken always fit the tail and the running total. */
  lemma AllocationFits(a: State, blocks: seq<Block>, size: nat, align: nat, calloc: Calloc)
    requires Safe(a, blocks) && Honest(a, calloc)
    ensures var (after, out) := Allocate(a, size, align, calloc);
            after.totalUsed <= SIZE_MAX
            && if out.None? then after == a else Safe(after, blocks + [Block(out.value, size)])
    ensures a.chunks != [] ==> InRange(Tail(a))
  {
    AllocateIsSafe(a, blocks, size, align, calloc);
    var (after, out) := Allocate(a, size, align, calloc);
    hide Allocate;
    TotalNeverOverflows(after);
  }

  datatype Request = Request(size: nat, align: nat, calloc: Calloc)

  /** A run of calls: the arena it ends in and the blocks handed out, in order. */
  ghost function Run(a: State, requests: seq<Request>): (State, seq<Block>)
    decreases |requests|
  {
    if requests == [] then (a, [])
    else
      var r := requests[0];
      var (after, out) := Allocate(a, r.size, r.align, r.calloc);
      var (end, blocks) := Run(after, requests[1..]);
      (end, (if out.Some? then [Block(out.value, r.size)] else []) + blocks)
  }

  ghost predicate HonestRun(a: State, requests: seq<Request>)
    decreases |requests|
  {
    requests == [] || (
      var r := requests[0];
      Honest(a, r.calloc) && HonestRun(Allocate(a, r.size, r.align, r.calloc).0, requests[1..]))
  }

  /** No run of calls, of any sizes and alignments, hands out overlapping memory. */
  lemma {:induction false} RunIsSafe(a: State, blocks: seq<Block>, requests: seq<Request>)
    requires Safe(a, blocks) && HonestRun(a, requests)
    ensures Safe(Run(a, requests).0, blocks + Run(a, requests).1)
    decreases |requests|
  {
    hide Safe, Allocate, Honest;
    if requests == [] {
      assert blocks + [] == blocks;
    } else {
      var r := requests[0];
      var (after, out) := Allocate(a, r.size, r.align, r.calloc);
      AllocateIsSafe(a, blocks, r.size, r.align, r.calloc);
      var first := if out.Some? then [Block(out.value, r.size)] else [];
      var rest := Run(after, requests[1..]);
      assert blocks + first == if out.Some? then blocks + [Block(out.value, r.size)] else blocks;
      RunIsSafe(after, blocks + first, requests[1..]);
      assert Run(a, requests) == (rest.0, first + rest.1);
      assert blocks + (first + rest.1) == (blocks + first) + rest.1;
    }
  }

  // ----- when a call succeeds

  /** `at` is the first multiple of `align` at or after `top`. */
  predicate IsFirstMultiple(at: nat, top: nat, align: nat) {
    0 < align && top <= at < top + align && at % align == 0
  }

  lemma FirstMultipleIsRoundUp(at: nat, top: nat, align: nat)
    requires IsFirstMultiple(at, top, align)
    ensures RoundUp(top, align) == at
  {
    DivMod(top + align - 1, align, at / align, top + align - 1 - at);
  }

  /** Without a chunk, or with an alignment that is no power of two, every call fails. */
  lemma AllocateNeedsChunk(a: State, size: nat, align: nat, calloc: Calloc)
    requires a.chunks == [] || (align != 0 && !IsPowerOfTwo(align))
    ensures Allocate(a, size, align, calloc) == (a, None)
  {
  }

  /** The capacity of a chunk made for a block: the chunk size, or room for the block and the worst padding. */
  function FreshCap(a: State, size: nat, al: nat): nat
    requires al > 0
  {
    if a.chunkSize >= size + al - 1 then a.chunkSize else size + al - 1
  }

  /**
   Where the padded block would lie in the tail, a call succeeds if and only if no address
   sum overflows and the block fits there, or a chunk large enough can be had.
  */
  lemma AllocateSucceeds(a: State, size: nat, align: nat, calloc: Calloc, al: nat, at: nat)
    requires Sound(a) && a.chunks != [] && IsPowerOfTwo(al) && al == (if align == 0 then 8 else align)
    requires IsFirstMultiple(at, Tail(a).base + Tail(a).used, al)
    ensures var t := Tail(a);
            Allocate(a, size, align, calloc).1.Some? <==>
              && t.base + t.used + al - 1 <= 0xFFFF_FFFF_FFFF_FFFF && at + size - t.base <= 0xFFFF_FFFF_FFFF_FFFF
              && (|| at + size <= t.base + t.cap
                  || (FreshCap(a, size, al) + 24 <= 0xFFFF_FFFF_FFFF_FFFF && calloc(FreshCap(a, size, al)).Some?))
  {
    hide IsPowerOfTwo, RoundUp;
    FirstMultipleIsRoundUp(at, Tail(a).base + Tail(a).used, al);
  }

  /** A block that fits is put there; only one that does not opens a chunk, with that capacity. */
  lemma AllocateOpensChunk(a: State, size: nat, align: nat, calloc: Calloc, al: nat, at: nat)
    requires Sound(a) && a.chunks != [] && IsPowerOfTwo(al) && al == (if align == 0 then 8 else align)
    requires IsFirstMultiple(at, Tail(a).base + Tail(a).used, al)
    ensures var (after, out) := Allocate(a, size, align, calloc);
            out.Some? ==>
              && after.chunks != []
              && if at + size <= Tail(a).base + Tail(a).cap then
                   && out.value == at
                   && after.chunks == a.chunks[|a.chunks| - 1 := Tail(a).(used := at + size - Tail(a).base)]
                 else
                   && after.chunks[..|after.chunks| - 1] == a.chunks
                   && Tail(after).cap == FreshCap(a, size, al)
                   && calloc(FreshCap(a, size, al)) == Some(Tail(after).base)
                   && IsFirstMultiple(out.value, Tail(after).base, al)
                   && Tail(after).used == out.value + size - Tail(after).base
  {
    hide IsPowerOfTwo;
    FirstMultipleIsRoundUp(at, Tail(a).base + Tail(a).used, al);
    var cap := FreshCap(a, size, al);
    if calloc(cap).Some? { RoundUpIsMultiple(calloc(cap).value, al); }
    hide RoundUp;
  }

  /** No chunk reaches into the last 8 GiB of addresses, and chunks are not larger than that leaves. */
  predicate LeavesRoom(a: State) {
    a.chunks != [] && Tail(a).base + Tail(a).cap <= 0xFFFF_FFFE_0000_0000 && a.chunkSize <= 0xFFFF_FFFE_0000_0000
  }

  /** There, a block of 32-bit size is had with every alignment of 32 bits as long as memory is found. */
  lemma SmallBlocksSucceed(a: State, size: nat, align: nat, calloc: Calloc)
    requires Sound(a) && LeavesRoom(a) && size <= 0x1_0000_0000 && align <= 0xFFFF_FFFF
    requires align == 0 || IsPowerOfTwo(align)
    requires calloc(FreshCap(a, size, if align == 0 then 8 else align)).Some?
    ensures Allocate(a, size, align, calloc).1.Some?
  {
    assert IsPowerOfTwo(8) by { assert Pow2(3) == 8; }
    var al := if align == 0 then 8 else align;
    var top := Tail(a).base + Tail(a).used;
    RoundUpIsMultiple(top, al);
    assert InRange(Tail(a));
    AllocateSucceeds(a, size, align, calloc, al, RoundUp(top, al));
  }

  // ----- what the running total counts

  /** Where the search for an aligned address begins: in the tail, or in a fresh chunk if the block does not fit. */
  function Start(a: State, size: nat, al: nat, calloc: Calloc): nat
    requires a.chunks != [] && al > 0
  {
    var top := Tail(a).base + Tail(a).used;
    if RoundUp(top, al) + size <= Tail(a).base + Tail(a).cap then top
    else
      var data := calloc(Larger(a.chunkSize, size + al - 1));
      if data.Some? then data.value else top
  }

  lemma MultipleIsRoundUp(addr: nat, align: nat)
    requires align > 0
    ensures IsMultiple(addr, align) <==> RoundUp(addr, align) == addr
  {
    RoundUpIsMultiple(addr, align);
    if IsMultiple(addr, align) {
      DivMod(addr + align - 1, align, addr / align, align - 1);
    }
  }

  /** A successful call adds the size and the padding, so the size alone just when it starts at a multiple. */
  lemma TotalGrows(a: State, size: nat, align: nat, calloc: Calloc)
    requires Allocate(a, size, align, calloc).1.Some?
    ensures a.chunks != []
    ensures var after, start := Allocate(a, size, align, calloc).0, Start(a, size, Alignment(align), calloc);
            && after.totalUsed == a.totalUsed + (RoundUp(start, Alignment(align)) - start) + size
            && (after.totalUsed == a.totalUsed + size <==> IsMultiple(start, Alignment(align)))
  {
    hide RoundUp, IsMultiple, IsPowerOfTwo;
    MultipleIsRoundUp(Start(a, size, Alignment(align), calloc), Alignment(align));
  }

  function TotalSize(blocks: seq<Block>): nat {
    if blocks == [] then 0 else blocks[0].size + TotalSize(blocks[1..])
  }

  /** Every call of the run that succeeds starts at a multiple of its alignment. */
  ghost predicate NeverPads(a: State, requests: seq<Request>)
    decreases |requests|
  {
    requests == [] || (
      var r := requests[0];
      var (after, out) := Allocate(a, r.size, r.align, r.calloc);
      && (out.Some? ==>
            && a.chunks != []
            && IsMultiple(Start(a, r.size, Alignment(r.align), r.calloc), Alignment(r.align)))
      && NeverPads(after, requests[1..]))
  }

  /** Over a run the total grows by at least the bytes handed out, and by no more just if no call pads. */
  lemma {:induction false} TotalCountsPadding(a: State, requests: seq<Request>)
    ensures var (end, blocks) := Run(a, requests);
            && end.totalUsed >= a.totalUsed + TotalSize(blocks)
            && (end.totalUsed == a.totalUsed + TotalSize(blocks) <==> NeverPads(a, requests))
    decreases |requests|
  {
    hide Allocate, Start, IsMultiple, RoundUp, Alignment;
    if requests != [] {
      var r := requests[0];
      var (after, out) := Allocate(a, r.size, r.align, r.calloc);
      if out.Some? {
        TotalGrows(a, r.size, r.align, r.calloc);
      } else {
        FailureKeeps(a, r.size, r.align, r.calloc);
      }
      TotalCountsPadding(after, requests[1..]);
      var rest := Run(after, requests[1..]).1;
      assert out.Some? ==> ([Block(out.value, r.size)] + rest)[1..] == rest;
      assert [] + rest == rest;
    }
  }

  lemma FailureKeeps(a: State, size: nat, align: nat, calloc: Calloc)
    ensures Allocate(a, size, align, calloc).1.None? ==> Allocate(a, size, align, calloc).0 == a
  {
    hide IsPowerOfTwo, RoundUp;
  }

  // ----- the allocator

  /** `align_forward`. */
  function AlignForward(base: nat, align: nat): (aligned: Option<nat>)
    ensures aligned == if align != 0 && IsPowerOfTwo(align) && base + align - 1 <= SIZE_MAX
                       then Some(RoundUp(base, align)) else None
  {
    if align == 0 then None
    else
      PowerOfTwoTest(align);
      if And(align, align - 1) != 0 then None
      else if align - 1 > SIZE_MAX - base then None
      else
        ClearedIsRoundUp(base, align);
        Some(AndNot(base + (align - 1), align - 1))
  }

  lemma ClearedIsRoundUp(base: nat, align: nat)
    requires align > 0 && IsPowerOfTwo(align)
    ensures AndNot(base + (align - 1), align - 1) == RoundUp(base, align)
  {
    var k: nat :| align == Pow2(k);
    hide Pow2, AndNot;
    ClearIsRoundDown(base + (align - 1), k);
  }

  /** The bytes skipped in the tail, unless an address or a byte count would overflow. */
  function Padding(tail: Chunk, size: nat, al: nat): (pad: Option<nat>)
    requires al > 0
    ensures var top := tail.base + tail.used;
            pad == if IsPowerOfTwo(al) && top + al - 1 <= SIZE_MAX && RoundUp(top, al) + size - tail.base <= SIZE_MAX
                   then Some(RoundUp(top, al) - top) else None
  {
    var base := tail.base + tail.used;
    var aligned := AlignForward(base, al);
    if aligned.None? then None
    else
      var skipped: nat := aligned.value - base;
      if tail.used + skipped > SIZE_MAX || tail.used + skipped + size > SIZE_MAX then None else Some(skipped)
  }

  /** The chunk list and the counters; the last chunk is the tail. */
  class ByteArena {
    var chunks: seq<Chunk>
    var chunkSize: nat
    var totalUsed: nat

    /** Everything handed out so far, oldest first. */
    ghost var blocks: seq<Block>

    function Now(): State
      reads this
    {
      State(chunks, chunkSize, totalUsed)
    }

    ghost predicate Valid()
      reads this
    {
      Safe(Now(), blocks)
    }

    /** `kavak_arena_init`; without memory there is no chunk and every later call fails. */
    constructor (chunkSize: nat, calloc: Calloc)
      requires Honest(State([], 0, 0), calloc)
      ensures Valid() && blocks == []
      ensures chunks == [] || (|chunks| == 1 && chunks[0].used == 0 && chunks[0].cap == this.chunkSize)
      ensures this.chunkSize == if chunkSize == 0 then 4096 else chunkSize
    {
      var size := if chunkSize == 0 then DEFAULT_CHUNK else chunkSize;
      var data := NewChunk(size, calloc);
      this.chunkSize := size;
      totalUsed := 0;
      chunks := if data.Some? then [Chunk(data.value, 0, size)] else [];
      blocks := [];
    }

    /** `chunk_new`. */
    static method NewChunk(cap: nat, calloc: Calloc) returns (data: Option<nat>)
      ensures data.Some? <==> cap + HEADER <= SIZE_MAX && calloc(cap).Some?
      ensures data.Some? ==> data.value == calloc(cap).value
    {
      if cap > SIZE_MAX - HEADER { return None; }
      data := calloc(cap);
    }

    /** `kavak_arena_alloc_aligned`. */
    method AllocAligned(size: nat, align: nat, calloc: Calloc) returns (out: Option<nat>)
      requires Valid() && Honest(Now(), calloc)
      requires size <= SIZE_MAX && align <= SIZE_MAX
      modifies this
      ensures Valid()
      ensures (Now(), out) == Allocate(old(Now()), size, align, calloc)
      ensures blocks == if out.Some? then old(blocks) + [Block(out.value, size)] else old(blocks)
    {
      AllocationFits(Now(), blocks, size, align, calloc);
      hide Sound, Honest, Allocate;
      out := AllocFrom(size, Alignment(align), align, calloc);
      if out.Some? { blocks := blocks + [Block(out.value, size)]; }
    }

    method AllocFrom(size: nat, al: nat, ghost align: nat, calloc: Calloc) returns (out: Option<nat>)
      requires al == Alignment(align)
      requires chunks != [] ==> InRange(Tail(Now())) && Honest(Now(), calloc)
      requires Allocate(Now(), size, align, calloc).0.totalUsed <= SIZE_MAX
      modifies this`chunks, this`totalUsed
      ensures (Now(), out) == Allocate(old(Now()), size, align, calloc)
    {
      hide Honest, IsPowerOfTwo, RoundUp, AllocateFresh, Bump;
      if chunks == [] { return None; }
      var tail := chunks[|chunks| - 1];
      var pad := Padding(tail, size, al);
      if pad == None { return None; }
      if tail.used + pad.value + size > tail.cap {
        out := AllocFresh(size, al, calloc);
      } else {
        out := Take(pad.value, size);
      }
    }

    /** The branch for requests the tail cannot hold: the new chunk has room for the worst padding. */
    method AllocFresh(size: nat, al: nat, calloc: Calloc) returns (out: Option<nat>)
      requires IsPowerOfTwo(al) && al > 0 && Honest(Now(), calloc)
      requires var r := AllocateFresh(Now(), size, al, calloc);
               r.1.Some? ==> r.0.totalUsed <= SIZE_MAX
      modifies this`chunks, this`totalUsed
      ensures (Now(), out) == AllocateFresh(old(Now()), size, al, calloc)
    {
      hide IsPowerOfTwo, RoundUp, Bump;
      if size + (al - 1) > SIZE_MAX { return None; }
      var cap := Larger(chunkSize, size + (al - 1));
      var data := NewChunk(cap, calloc);
      if data == None { return None; }
      assert InRange(Chunk(data.value, 0, cap));
      chunks := chunks + [Chunk(data.value, 0, cap)];
      var aligned := AlignForward(data.value, al);
      if aligned == None { assert false; }
      out := Take(aligned.value - data.value, size);
    }

    /** Takes `pad + size` bytes from the tail, if they fit. */
    method Take(pad: nat, size: nat) returns (out: Option<nat>)
      requires chunks != []
      modifies this`chunks, this`totalUsed
      ensures var tail := Tail(old(Now()));
              var taken := TakenAt(old(Now()), tail.base + tail.used + pad, size);
              if pad + size > SIZE_MAX || pad + size > tail.cap || taken.0.totalUsed > SIZE_MAX
              then out == None && Now() == old(Now()) else (Now(), out) == taken
    {
      var tail := chunks[|chunks| - 1];
      var delta := pad + size;
      if delta > SIZE_MAX || delta > tail.cap || totalUsed + delta > SIZE_MAX { return None; }
      out := Some(tail.base + tail.used + pad);
      chunks := chunks[|chunks| - 1 := tail.(used := tail.used + delta)];
      totalUsed := totalUsed + delta;
    }

    /** `kavak_arena_alloc`. */
    method Alloc(size: nat, calloc: Calloc) returns (out: Option<nat>)
      requires Valid() && Honest(Now(), calloc)
      requires size <= SIZE_MAX
      modifies this
      ensures Valid()
      ensures (Now(), out) == Allocate(old(Now()), size, DEFAULT_ALIGN, calloc)
      ensures blocks == if out.Some? then old(blocks) + [Block(out.value, size)] else old(blocks)
    {
      out := AllocAligned(size, DEFAULT_ALIGN, calloc);
    }
  }
}
