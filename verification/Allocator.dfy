/**
 The memory pool: a list of chunks in a flat address space, of which only the head serves requests, and the blocks
 handed out since it was last cleared.
 */
module Allocator {
  import opened Json
  import opened Options

  /** Room for the header in front of a chunk: three words. */
  const HEADER := 24

  /** Rounds up to eight bytes. */
  function Align(n: nat): (r: nat)
    ensures n <= r < n + 8 && r % 8 == 0
  {
    (n + 7) / 8 * 8
  }

  class ChunkHeader {
    const address: nat
    const capacity: nat
    var size: nat
    var next: ChunkHeader?

    constructor (address: nat, capacity: nat, next: ChunkHeader?)
      ensures this.address == address && this.capacity == capacity && size == 0 && this.next == next
    {
      this.address, this.capacity, this.size, this.next := address, capacity, 0, next;
    }

    function Buffer(): nat { address + HEADER }

    function End(): nat { address + HEADER + capacity }
  }

  /** A block that was handed out: the chunk it is in, where it begins and how many bytes it has. */
  datatype Block = Block(owner: nat, address: nat, size: nat)
  {
    function End(): nat { address + size }
  }

  predicate Apart(a: nat, aEnd: nat, b: nat, bEnd: nat) {
    aEnd <= b || bEnd <= a
  }

  function Sum(ns: seq<nat>): nat {
    if ns == [] then 0 else Sum(ns[..|ns| - 1]) + ns[|ns| - 1]
  }

  function Sizes(blocks: seq<Block>): seq<nat> {
    seq(|blocks|, i requires 0 <= i < |blocks| => blocks[i].size)
  }

  function Capacities(chunks: seq<ChunkHeader>): seq<nat> {
    seq(|chunks|, i requires 0 <= i < |chunks| => chunks[i].capacity)
  }

  /** Chunks, the oldest first, inside the address space and without overlap; whole words are used of each. */
  ghost predicate ChunksOk(chunks: seq<ChunkHeader>, used: seq<nat>, space: nat) {
    && |used| == |chunks|
    && (forall i :: 0 <= i < |chunks| ==> ChunkOk(chunks[i], used[i], space))
    && (forall i, j :: 0 <= i < j < |chunks| ==>
          chunks[i] != chunks[j] && Apart(chunks[i].address, chunks[i].End(), chunks[j].address, chunks[j].End()))
  }

  ghost predicate ChunkOk(c: ChunkHeader, used: nat, space: nat) {
    c.End() <= space && c.address % 8 == 0 && used <= c.capacity && used % 8 == 0
  }

  /** A block of whole words in the used part of its chunk. */
  ghost predicate BlockOk(b: Block, chunks: seq<ChunkHeader>, used: seq<nat>)
    requires |used| == |chunks|
  {
    && b.owner < |chunks| && chunks[b.owner].Buffer() <= b.address && b.End() <= chunks[b.owner].Buffer() + used[b.owner]
    && b.address % 8 == 0 && b.size % 8 == 0 && b.size > 0
  }

  ghost predicate BlocksOk(blocks: seq<Block>, chunks: seq<ChunkHeader>, used: seq<nat>)
    requires |used| == |chunks|
  {
    && (forall i :: 0 <= i < |blocks| ==> BlockOk(blocks[i], chunks, used))
    && (forall i, j :: 0 <= i < j < |blocks| ==>
          Apart(blocks[i].address, blocks[i].End(), blocks[j].address, blocks[j].End()))
  }

  /** Chunks and blocks in order; the blocks make up all that is used. */
  ghost predicate PoolOk(blocks: seq<Block>, chunks: seq<ChunkHeader>, used: seq<nat>, space: nat) {
    ChunksOk(chunks, used, space) && BlocksOk(blocks, chunks, used) && Sum(Sizes(blocks)) == Sum(used)
  }

  // ------------------------------------------------------------ what keeps the pool in order

  lemma {:induction false} SumAppended(ns: seq<nat>, n: nat)
    ensures Sum(ns + [n]) == Sum(ns) + n
  {
    assert (ns + [n])[..|ns|] == ns;
  }

  lemma {:induction false} SumReplaced(ns: seq<nat>, k: nat, n: nat)
    requires k < |ns|
    ensures Sum(ns[k := n]) == Sum(ns) - ns[k] + n
    decreases |ns|
  {
    var m := |ns| - 1;
    if k < m {
      assert ns[k := n][..m] == ns[..m][k := n];
      SumReplaced(ns[..m], k, n);
    } else {
      assert ns[k := n][..m] == ns[..m];
    }
  }

  lemma {:induction false} ChunksApart(chunks: seq<ChunkHeader>, used: seq<nat>, i: nat, j: nat, space: nat)
    requires ChunksOk(chunks, used, space) && i < |chunks| && j < |chunks| && i != j
    ensures Apart(chunks[i].address, chunks[i].End(), chunks[j].address, chunks[j].End())
  {
    var a, b := if i < j then i else j, if i < j then j else i;
    assert Apart(chunks[a].address, chunks[a].End(), chunks[b].address, chunks[b].End());
  }

  lemma {:induction false} BlocksApart(blocks: seq<Block>, chunks: seq<ChunkHeader>, used: seq<nat>, i: nat, j: nat)
    requires |used| == |chunks| && BlocksOk(blocks, chunks, used) && i < |blocks| && j < |blocks| && i != j
    ensures Apart(blocks[i].address, blocks[i].End(), blocks[j].address, blocks[j].End())
  {
    hide BlockOk;
    var a, b := if i < j then i else j, if i < j then j else i;
    assert Apart(blocks[a].address, blocks[a].End(), blocks[b].address, blocks[b].End());
  }

  /** A new chunk. */
  lemma {:induction false} ChunkAdded(blocks: seq<Block>, chunks: seq<ChunkHeader>, used: seq<nat>, space: nat, c: ChunkHeader)
    requires PoolOk(blocks, chunks, used, space) && c !in chunks && ChunkOk(c, 0, space)
    requires forall i :: 0 <= i < |chunks| ==> Apart(c.address, c.End(), chunks[i].address, chunks[i].End())
    ensures PoolOk(blocks, chunks + [c], used + [0], space)
  {
    hide Apart, ChunkOk;
    SumAppended(used, 0);
    var all, now := chunks + [c], used + [0];
    assert forall i :: 0 <= i < |chunks| ==> all[i] == chunks[i] && now[i] == used[i];
    forall i, j | 0 <= i < j < |all|
      ensures all[i] != all[j] && Apart(all[i].address, all[i].End(), all[j].address, all[j].End())
    {
      if j == |chunks| {
        Symmetric(c.address, c.End(), all[i].address, all[i].End());
      }
    }
    forall i | 0 <= i < |blocks| ensures BlockOk(blocks[i], all, now) {
      assert BlockOk(blocks[i], chunks, used);
    }
  }

  lemma {:induction false} Symmetric(a: nat, aEnd: nat, b: nat, bEnd: nat)
    ensures Apart(a, aEnd, b, bEnd) == Apart(b, bEnd, a, aEnd)
  {
  }

  /** The next bytes of a chunk overlap no block. */
  lemma {:induction false} NextBytesApart(blocks: seq<Block>, chunks: seq<ChunkHeader>, used: seq<nat>, space: nat, k: nat, size: nat)
    requires PoolOk(blocks, chunks, used, space) && k < |chunks| && used[k] + size <= chunks[k].capacity
    ensures var p := chunks[k].Buffer() + used[k];
            forall i :: 0 <= i < |blocks| ==> Apart(blocks[i].address, blocks[i].End(), p, p + size)
  {
    hide Sum;
    var p := chunks[k].Buffer() + used[k];
    forall i | 0 <= i < |blocks| ensures Apart(blocks[i].address, blocks[i].End(), p, p + size) {
      assert BlockOk(blocks[i], chunks, used);
      if blocks[i].owner != k {
        ChunksApart(chunks, used, blocks[i].owner, k, space);
        assert ChunkOk(chunks[blocks[i].owner], used[blocks[i].owner], space);
      }
    }
  }

  /** More of a chunk is used. */
  lemma {:induction false} UsedGrew(blocks: seq<Block>, chunks: seq<ChunkHeader>, used: seq<nat>, space: nat, k: nat, n: nat)
    requires PoolOk(blocks, chunks, used, space) && k < |chunks| && used[k] + n <= chunks[k].capacity && n % 8 == 0
    ensures var now := used[k := used[k] + n];
            ChunksOk(chunks, now, space) && BlocksOk(blocks, chunks, now) && Sum(now) == Sum(used) + n
  {
    hide Apart, Sum;
    var now := used[k := used[k] + n];
    SumReplaced(used, k, used[k] + n);
    assert ChunkOk(chunks[k], used[k], space);
    forall i | 0 <= i < |chunks| ensures ChunkOk(chunks[i], now[i], space) {
      assert ChunkOk(chunks[i], used[i], space);
    }
    forall i | 0 <= i < |blocks| ensures BlockOk(blocks[i], chunks, now) {
      assert BlockOk(blocks[i], chunks, used);
    }
  }

  /** The next bytes of a chunk become a block. */
  lemma {:induction false} BlockAdded(blocks: seq<Block>, chunks: seq<ChunkHeader>, used: seq<nat>, space: nat, k: nat, size: nat)
    requires PoolOk(blocks, chunks, used, space) && k < |chunks| && used[k] + size <= chunks[k].capacity
    requires size % 8 == 0 && size > 0
    ensures PoolOk(blocks + [Block(k, chunks[k].Buffer() + used[k], size)], chunks, used[k := used[k] + size], space)
  {
    hide Apart, BlockOk, Sum;
    var b, now := Block(k, chunks[k].Buffer() + used[k], size), used[k := used[k] + size];
    NextBytesApart(blocks, chunks, used, space, k, size);
    UsedGrew(blocks, chunks, used, space, k, size);
    NewBlockOk(chunks, used, space, k, size);
    SumAppended(Sizes(blocks), size);
    assert Sizes(blocks + [b]) == Sizes(blocks) + [size];
    assert forall i :: 0 <= i < |blocks| ==> (blocks + [b])[i] == blocks[i];
  }

  lemma {:induction false} NewBlockOk(chunks: seq<ChunkHeader>, used: seq<nat>, space: nat, k: nat, size: nat)
    requires ChunksOk(chunks, used, space) && k < |chunks| && size % 8 == 0 && size > 0
    ensures BlockOk(Block(k, chunks[k].Buffer() + used[k], size), chunks, used[k := used[k] + size])
  {
    hide Apart, Sum, ChunksOk;
    ChunkIsOk(chunks, used, space, k);
    var c, u := chunks[k], used[k];
    assert c.Buffer() % 8 == 0 && (c.Buffer() + u) % 8 == 0;
  }

  lemma {:induction false} ChunkIsOk(chunks: seq<ChunkHeader>, used: seq<nat>, space: nat, k: nat)
    requires ChunksOk(chunks, used, space) && k < |chunks|
    ensures |used| == |chunks| && ChunkOk(chunks[k], used[k], space)
  {
    hide ChunkOk, Apart;
  }

  /** The last block of a chunk takes the next bytes too. */
  lemma {:induction false} BlockGrown(blocks: seq<Block>, chunks: seq<ChunkHeader>, used: seq<nat>, space: nat, k: nat, n: nat)
    requires PoolOk(blocks, chunks, used, space) && k < |blocks| && n % 8 == 0
    requires var o := blocks[k].owner;
             o < |chunks| && blocks[k].End() == chunks[o].Buffer() + used[o] && used[o] + n <= chunks[o].capacity
    ensures var o := blocks[k].owner;
            PoolOk(blocks[k := blocks[k].(size := blocks[k].size + n)], chunks, used[o := used[o] + n], space)
  {
    hide Sum;
    var o := blocks[k].owner;
    var b, now := blocks[k].(size := blocks[k].size + n), used[o := used[o] + n];
    NextBytesApart(blocks, chunks, used, space, o, n);
    UsedGrew(blocks, chunks, used, space, o, n);
    SumReplaced(Sizes(blocks), k, b.size);
    assert Sizes(blocks[k := b]) == Sizes(blocks)[k := b.size];
    forall i | 0 <= i < |blocks| && i != k ensures Apart(blocks[i].address, blocks[i].End(), b.address, b.End()) {
      BlocksApart(blocks, chunks, used, i, k);
      assert BlockOk(blocks[i], chunks, used);
    }
    BlockReplaced(blocks, chunks, now, k, b);
  }

  lemma {:induction false} BlockReplaced(blocks: seq<Block>, chunks: seq<ChunkHeader>, used: seq<nat>, k: nat, b: Block)
    requires |used| == |chunks| && BlocksOk(blocks, chunks, used) && k < |blocks|
    requires b.owner == blocks[k].owner && b.address == blocks[k].address && b.size % 8 == 0 && b.size > 0
    requires b.owner < |chunks| ==> b.End() <= chunks[b.owner].Buffer() + used[b.owner]
    requires forall i :: 0 <= i < |blocks| && i != k ==> Apart(blocks[i].address, blocks[i].End(), b.address, b.End())
    ensures BlocksOk(blocks[k := b], chunks, used)
  {
    hide Apart;
    assert BlockOk(blocks[k], chunks, used);
    var all := blocks[k := b];
    forall i, j | 0 <= i < j < |all| ensures Apart(all[i].address, all[i].End(), all[j].address, all[j].End()) {
      if i == k {
        Symmetric(all[j].address, all[j].End(), b.address, b.End());
      }
    }
  }

  // ------------------------------------------------------------ the pool

  class MemoryPoolAllocator {
    const ram: array<Byte>
    const chunkCapacity: nat
    var chunkHead: ChunkHeader
    ghost var chunks: seq<ChunkHeader>
    ghost var used: seq<nat>
    ghost var blocks: seq<Block>

    /** The list leads from the head to the oldest chunk. */
    ghost predicate IsList()
      reads this, chunks
    {
      && chunks != [] && |used| == |chunks| && chunkHead == chunks[|chunks| - 1] && chunks[0].next == null
      && (forall i :: 0 < i < |chunks| ==> chunks[i].next == chunks[i - 1])
      && (forall i :: 0 <= i < |chunks| ==> chunks[i].size == used[i])
    }

    /** Blocks of whole words lie in the used parts of chunks and do not overlap. */
    ghost predicate Valid()
      reads this, chunks
    {
      IsList() && PoolOk(blocks, chunks, used, ram.Length)
    }

    /** What the underlying allocator may answer to a request: nothing, or words that overlap no chunk. */
    ghost predicate MayAnswer(answer: Option<nat>, size: nat)
      reads this
    {
      answer.Some? ==>
        && answer.value % 8 == 0 && answer.value + size <= ram.Length
        && forall i :: 0 <= i < |chunks| ==> Apart(answer.value, answer.value + size, chunks[i].address, chunks[i].End())
    }

    /** A pool whose first chunk has its header at `address`. */
    constructor (ram: array<Byte>, address: nat, capacity: nat, chunkCapacity: nat)
      requires address % 8 == 0 && address + HEADER + capacity <= ram.Length
      ensures Valid() && fresh(chunks) && blocks == [] && this.ram == ram && this.chunkCapacity == chunkCapacity
      ensures |chunks| == 1 && chunkHead.address == address && chunkHead.capacity == capacity && chunkHead.size == 0
    {
      var first := new ChunkHeader(address, capacity, null);
      this.ram, this.chunkCapacity, chunkHead, chunks, used, blocks := ram, chunkCapacity, first, [first], [0], [];
    }

    /** A new head; it fails if the underlying allocator has nothing. */
    method AddChunk(capacity: nat, answer: Option<nat>) returns (ok: bool)
      requires Valid() && MayAnswer(answer, HEADER + capacity)
      modifies this`chunkHead, this`chunks, this`used
      ensures Valid() && ok == answer.Some?
      ensures !ok ==> chunkHead == old(chunkHead) && chunks == old(chunks) && used == old(used)
      ensures ok ==> fresh(chunkHead) && chunks == old(chunks) + [chunkHead] && used == old(used) + [0]
                     && chunkHead.address == answer.value && chunkHead.capacity == capacity && chunkHead.size == 0
    {
      if answer.None? {
        return false;
      }
      hide PoolOk, Apart;
      var chunk := new ChunkHeader(answer.value, capacity, chunkHead);
      ChunkAdded(blocks, chunks, used, ram.Length, chunk);
      chunkHead, chunks, used := chunk, chunks + [chunk], used + [0];
      return true;
    }

    predicate HasRoom(size: nat)
      reads this, chunkHead
    {
      chunkHead.size + size <= chunkHead.capacity
    }

    /** The head is used further. */
    method Advance(n: nat, ghost now: seq<Block>)
      requires Valid() && |chunks| == |used|
      requires PoolOk(now, chunks, used[|used| - 1 := chunkHead.size + n], ram.Length)
      modifies this`blocks, this`used, chunkHead`size
      ensures Valid() && blocks == now && used == old(used)[|chunks| - 1 := old(chunkHead.size) + n]
    {
      hide Sum, BlocksOk, ChunkOk, Apart;
      chunkHead.size := chunkHead.size + n;
      used := used[|used| - 1 := chunkHead.size];
      blocks := now;
    }

    /** The capacity of a chunk that is added for `n` bytes. */
    function NewCapacity(n: nat): nat {
      if chunkCapacity > n then chunkCapacity else n
    }

    /** How much room a request asks the underlying allocator for. */
    function ChunkSize(size: nat): nat {
      HEADER + NewCapacity(Align(size))
    }

    /** Every chunk is what it was and holds what it did, and so is the head. */
    twostate predicate Kept()
      reads this
    {
      chunkHead == old(chunkHead) && chunks == old(chunks) && used == old(used) && blocks == old(blocks)
    }

    /** What became of a request for `n` bytes: the next ones of the head, if it has room; otherwise the first ones of
        a new head at the place that the underlying allocator answered with, if it did; its capacity is the larger of the
        chunk capacity and `n`. No other chunk holds more or
        less than it did. */
    twostate predicate Taken(n: nat, answer: Option<nat>, new p: Option<nat>)
      reads this
    {
      var last := |old(chunks)| - 1;
      if last < 0 || |old(used)| != |old(chunks)| then false
      else if old(chunkHead.size) + n <= old(chunkHead).capacity then
        && chunkHead == old(chunkHead) && chunks == old(chunks) && p == Some(chunkHead.Buffer() + old(chunkHead.size))
        && used == old(used)[last := old(chunkHead.size) + n]
        && blocks == old(blocks) + [Block(last, p.value, n)]
      else if answer.None? then p.None? && Kept()
      else
        && fresh(chunkHead) && chunks == old(chunks) + [chunkHead]
        && chunkHead.address == answer.value && p == Some(chunkHead.Buffer())
        && chunkHead.capacity >= n && chunkHead.capacity >= chunkCapacity
        && (chunkHead.capacity == n || chunkHead.capacity == chunkCapacity)
        && used == old(used) + [n]
        && blocks == old(blocks) + [Block(last + 1, p.value, n)]
    }

    /** A block of `size` bytes, rounded up to words; None for no bytes or when there is no memory. */
    method Malloc(size: nat, answer: Option<nat>) returns (p: Option<nat>)
      requires Valid() && MayAnswer(answer, ChunkSize(size))
      modifies this, chunkHead
      ensures Valid()
      ensures size == 0 ==> p.None? && Kept()
      ensures size > 0 ==> Taken(Align(size), answer, p)
      ensures p.Some? ==> blocks == old(blocks) + [Block(|chunks| - 1, p.value, Align(size))]
    {
      hide PoolOk, Valid;
      ListIsOk();
      if size == 0 {
        return None;
      }
      if chunkHead.size + Align(size) > chunkHead.capacity {
        var ok := AddChunk(NewCapacity(Align(size)), answer);
        if !ok {
          return None;
        }
      }
      var buffer := Bump(Align(size));
      return Some(buffer);
    }

    /** The next bytes of the head. */
    method Bump(size: nat) returns (p: nat)
      requires Valid() && HasRoom(size) && size % 8 == 0 && size > 0
      modifies this`blocks, this`used, chunkHead`size
      ensures Valid() && p == chunkHead.Buffer() + old(chunkHead.size) && blocks == old(blocks) + [Block(|chunks| - 1, p, size)]
      ensures used == old(used)[|chunks| - 1 := old(chunkHead.size) + size]
    {
      hide PoolOk;
      p := chunkHead.Buffer() + chunkHead.size;
      BlockAdded(blocks, chunks, used, ram.Length, |chunks| - 1, size);
      Advance(size, blocks + [Block(|chunks| - 1, p, size)]);
    }

    /** The last block of the head grows where it stands. */
    method Grow(ghost k: nat, n: nat)
      requires Valid() && HasRoom(n) && n % 8 == 0
      requires k < |blocks| && blocks[k].owner == |chunks| - 1 && EndsHead(blocks[k].address, blocks[k].size)
      modifies this`blocks, this`used, chunkHead`size
      ensures Valid() && blocks == old(blocks)[k := old(blocks[k]).(size := old(blocks[k]).size + n)]
      ensures used == old(used)[|chunks| - 1 := old(chunkHead.size) + n]
    {
      hide PoolOk;
      BlockGrown(blocks, chunks, used, ram.Length, k, n);
      Advance(n, blocks[k := blocks[k].(size := blocks[k].size + n)]);
    }

    lemma {:induction false} ListIsOk()
      requires Valid()
      ensures IsList()
    {
    }

    /** A block of these bytes is the last of the head: the test for growing it where it stands. */
    predicate EndsHead(p: nat, size: nat)
      reads this, chunkHead
    {
      p + size == chunkHead.Buffer() + chunkHead.size
    }

    /** Only the last block of the head passes the test. */
    lemma {:induction false} OnlyLastBlockEndsHead(k: nat, size: nat)
      requires Valid() && k < |blocks| && size <= blocks[k].size && EndsHead(blocks[k].address, size)
      ensures blocks[k].owner == |chunks| - 1 && size == blocks[k].size
    {
      hide Sum;
      var o, h := blocks[k].owner, |chunks| - 1;
      assert BlockOk(blocks[k], chunks, used);
      assert ChunkOk(chunks[o], used[o], ram.Length) && ChunkOk(chunks[h], used[h], ram.Length);
      if o != h {
        ChunksApart(chunks, used, o, h, ram.Length);
      }
    }

    /** Copies bytes to a place that they do not overlap. */
    method Copy(to: nat, from: nat, n: nat)
      requires to + n <= ram.Length && from + n <= ram.Length && Apart(from, from + n, to, to + n)
      modifies ram
      ensures ram[to..to + n] == old(ram[from..from + n])
      ensures ram[..to] == old(ram[..to]) && ram[to + n..] == old(ram[to + n..])
    {
      for i := 0 to n
        invariant ram[to..to + i] == old(ram[from..from + i])
        invariant ram[..to] == old(ram[..to]) && ram[to + i..] == old(ram[to + i..])
      {
        assert ram[from + i] == old(ram[from + i]) by {
          if from >= to + n {
            assert ram[from + i] == ram[to + i..][from - to] == old(ram[to + i..])[from - to];
          } else {
            assert ram[from + i] == ram[..to][from + i] == old(ram[..to])[from + i];
          }
        }
        ram[to + i] := ram[from + i];
        assert ram[to + i + 1..] == ram[to + i..][1..];
      }
    }

    /** A block keeps its place if it need not grow, or if it ends the head, which has room for the rest. */
    predicate KeepsPlace(original: nat, originalSize: nat, newSize: nat)
      reads this, chunkHead
    {
      var o, n := Align(originalSize), Align(newSize);
      o >= n || (EndsHead(original, o) && HasRoom(n - o))
    }

    lemma {:induction false} BlockInSpace(k: nat)
      requires Valid() && k < |blocks|
      ensures blocks[k].End() <= ram.Length && blocks[k].owner < |chunks|
    {
      hide Apart, Sum;
      assert BlockOk(blocks[k], chunks, used);
      assert ChunkOk(chunks[blocks[k].owner], used[blocks[k].owner], ram.Length);
    }

    /** The bytes at `to` are those that were at `from`, and no others have changed. */
    twostate predicate Copied(to: nat, from: nat, n: nat)
      reads ram
    {
      && to + n <= ram.Length && from + n <= ram.Length && ram[to..to + n] == old(ram[from..from + n])
      && ram[..to] == old(ram[..to]) && ram[to + n..] == old(ram[to + n..])
    }

    /** The `k`-th block has the next bytes of the head as well, and nothing else has changed. */
    twostate predicate GrownInPlace(k: nat, oldSize: nat, newSize: nat)
      reads this
    {
      && k < |old(blocks)| && |old(used)| == |old(chunks)| > 0 && oldSize <= newSize
      && chunkHead == old(chunkHead) && chunks == old(chunks)
      && used == old(used)[|chunks| - 1 := old(chunkHead.size) + (newSize - oldSize)]
      && blocks == old(blocks)[k := old(blocks[k]).(size := newSize)]
    }

    /** Resizes the `k`-th block, of which the caller knows at least the first `originalSize` bytes. It keeps its
        place if it can; otherwise the bytes are copied to a new block and the old one remains. */
    method Realloc(original: Option<nat>, originalSize: nat, newSize: nat, answer: Option<nat>, ghost k: nat)
      returns (p: Option<nat>)
      requires Valid() && MayAnswer(answer, ChunkSize(newSize))
      requires original.Some? ==> k < |blocks| && blocks[k].address == original.value && Align(originalSize) <= blocks[k].size
      modifies this, chunkHead, ram
      ensures Valid()
      ensures newSize == 0 ==> p.None? && Kept() && ram[..] == old(ram[..])
      ensures original.None? && newSize > 0 ==> Taken(Align(newSize), answer, p) && ram[..] == old(ram[..])
      ensures original.Some? && newSize > 0 && old(KeepsPlace(original.value, originalSize, newSize)) ==>
                && p == original && ram[..] == old(ram[..])
                && if Align(originalSize) >= Align(newSize) then Kept()
                   else GrownInPlace(k, Align(originalSize), Align(newSize))
      ensures original.Some? && newSize > 0 && !old(KeepsPlace(original.value, originalSize, newSize)) ==>
                && Taken(Align(newSize), answer, p)
                && (if p.None? then ram[..] == old(ram[..]) else Copied(p.value, original.value, Align(originalSize)))
    {
      hide PoolOk, Valid, Copied, Taken;
      ListIsOk();
      if original.None? {
        p := Malloc(newSize, answer);
        return;
      }
      if newSize == 0 {
        return None;
      }
      var o, n := Align(originalSize), Align(newSize);
      if o >= n {
        return original;
      }
      if original.value + o == chunkHead.Buffer() + chunkHead.size {
        OnlyLastBlockEndsHead(k, o);
        if chunkHead.size + (n - o) <= chunkHead.capacity {
          Grow(k, n - o);
          return original;
        }
      }
      p := Move(original.value, o, newSize, answer, k);
    }

    /** The first `n` bytes of the `k`-th block are copied to a new block. */
    method Move(original: nat, n: nat, newSize: nat, answer: Option<nat>, ghost k: nat) returns (p: Option<nat>)
      requires Valid() && MayAnswer(answer, ChunkSize(newSize)) && newSize > 0 && n < Align(newSize)
      requires k < |blocks| && blocks[k].address == original && n <= blocks[k].size
      modifies this, chunkHead, ram
      ensures Valid() && Taken(Align(newSize), answer, p)
      ensures p.None? ==> ram[..] == old(ram[..])
      ensures p.Some? ==> Copied(p.value, original, n)
    {
      hide PoolOk, Valid, Taken;
      BlockInSpace(k);
      p := Malloc(newSize, answer);
      if p.Some? {
        LastBlockApart(k);
        Copy(p.value, original, n);
      }
    }

    /** The newest block overlaps none of the others. */
    lemma {:induction false} LastBlockApart(k: nat)
      requires Valid() && k < |blocks| - 1
      ensures var b := blocks[|blocks| - 1];
              Apart(blocks[k].address, blocks[k].End(), b.address, b.End()) && b.End() <= ram.Length && blocks[k].End() <= ram.Length
    {
      hide Apart, Sum;
      BlockInSpace(k);
      BlockInSpace(|blocks| - 1);
      BlocksApart(blocks, chunks, used, k, |blocks| - 1);
    }

    /** Frees all chunks but the oldest. */
    method Clear()
      requires Valid()
      modifies this, chunks
      ensures Valid() && blocks == [] && chunks == [old(chunks[0])] && chunkHead.size == 0
    {
      hide Apart, BlocksOk, Sum;
      ghost var n := |chunks| - 1;
      assert n > 0 ==> chunks[n].next == chunks[n - 1];
      while chunkHead.next != null
        invariant 0 <= n < |chunks| && chunkHead == chunks[n] && (chunkHead.next == null <==> n == 0)
        invariant forall i :: 0 < i < |chunks| ==> chunks[i].next == chunks[i - 1]
        invariant chunks[0].next == null && chunks == old(chunks) && PoolOk(blocks, chunks, used, ram.Length)
        decreases n
      {
        chunkHead := chunkHead.next;
        n := n - 1;
        assert n > 0 ==> chunks[n].next == chunks[n - 1];
      }
      assert ChunkOk(chunks[0], used[0], ram.Length);
      chunks, used, blocks := [chunkHead], [0], [];
      chunkHead.size := 0;
      OneChunkOk(chunkHead, ram.Length);
    }

    /** The capacity of all chunks. */
    method Capacity() returns (capacity: nat)
      requires Valid()
      ensures capacity == Sum(Capacities(chunks))
    {
      hide PoolOk;
      capacity := 0;
      var c: ChunkHeader? := chunkHead;
      ghost var n := |chunks|;
      assert Capacities(chunks)[..n] == Capacities(chunks);
      while c != null
        invariant 0 <= n <= |chunks| && (c == null <==> n == 0) && (c != null ==> c == chunks[n - 1])
        invariant capacity + Sum(Capacities(chunks)[..n]) == Sum(Capacities(chunks))
        decreases n
      {
        assert Capacities(chunks)[..n][..n - 1] == Capacities(chunks)[..n - 1];
        capacity := capacity + c.capacity;
        c := c.next;
        n := n - 1;
      }
    }

    /** The bytes in use, which are those of the blocks. */
    method Size() returns (size: nat)
      requires Valid()
      ensures size == Sum(Sizes(blocks))
    {
      hide ChunksOk, BlocksOk;
      size := 0;
      var c: ChunkHeader? := chunkHead;
      ghost var n := |chunks|;
      assert used[..n] == used;
      while c != null
        invariant 0 <= n <= |chunks| && (c == null <==> n == 0) && (c != null ==> c == chunks[n - 1])
        invariant size + Sum(used[..n]) == Sum(used)
        decreases n
      {
        assert used[..n][..n - 1] == used[..n - 1];
        size := size + c.size;
        c := c.next;
        n := n - 1;
      }
    }
  }

  lemma {:induction false} OneChunkOk(c: ChunkHeader, space: nat)
    requires ChunkOk(c, 0, space)
    ensures PoolOk([], [c], [0], space)
  {
    assert [0][..0] == [];
    assert Sum([0]) == 0;
    assert Sizes([]) == [];
  }
}
