/**
 The write half of the chained byte buffer: blocks of one size linked in a chain, written as one flat range of bytes;
 and the variable-length and zigzag integer codes it writes.
 */
module ByteArrays {
  import opened Json

  class Node {
    const block: array<Byte>
    var next: Node?

    constructor (size: nat)
      ensures block.Length == size && next == null && fresh(block)
    {
      block := new Byte[size];
      next := null;
    }
  }

  /** A stretch of one block, as handed to the system for scattered writing. */
  datatype Piece = Piece(block: array<Byte>, offset: nat, length: nat)

  /** A product that grows by one factor. */
  lemma {:induction false} OneMore(n: nat, b: nat)
    ensures (n + 1) * b == n * b + b
  {
  }

  /** Blocks to add: half as much again as is missing, rounded up. */
  function BlocksToAdd(missing: nat, base: nat): (count: nat)
    requires base > 0
    ensures missing <= count * base
    ensures 3 * missing <= 2 * (count * base) < 3 * missing + 2 * base
  {
    var x, d := 3 * missing + 2 * base - 1, 2 * base;
    assert x == x / d * d + x % d;
    assert x / d * d == 2 * (x / d * base);
    x / d
  }

  class ByteArray {
    const baseSize: nat
    var writePos: nat
    var capacity: nat
    var root: Node
    var writeBlock: Node
    ghost var chain: seq<Node>

    /** The logical position at which a block begins. */
    function Start(n: nat): nat {
      if n == 0 then 0 else Start(n - 1) + baseSize
    }

    lemma {:induction false} NextStart(n: nat)
      ensures Start(n + 1) == Start(n) + baseSize && Start(0) == 0
    {
    }

    lemma {:induction false} StartIsProduct(n: nat)
      ensures Start(n) == n * baseSize
    {
      if n > 0 {
        StartIsProduct(n - 1);
        OneMore(n - 1, baseSize);
      }
    }

    lemma {:induction false} StartAdds(n: nat, k: nat)
      ensures Start(n + k) == Start(n) + Start(k)
    {
      if k > 0 {
        StartAdds(n, k - 1);
      }
    }

    lemma {:induction false} StartsInOrder(m: nat, n: nat)
      ensures m < n ==> Start(m) + baseSize <= Start(n)
      ensures n < m ==> Start(n) + baseSize <= Start(m)
      decreases m + n
    {
      if m < n {
        StartsInOrder(m, n - 1);
      } else if n < m {
        StartsInOrder(m - 1, n);
      }
    }

    lemma {:induction false} Divided(p: nat)
      requires baseSize > 0
      ensures p == Start(p / baseSize) + p % baseSize && 0 <= p / baseSize
    {
      StartIsProduct(p / baseSize);
    }

    lemma {:induction false} Offset(p: nat, n: nat)
      requires baseSize > 0 && Start(n) <= p < Start(n + 1)
      ensures p % baseSize == p - Start(n) && p / baseSize == n
    {
      Divided(p);
      StartsInOrder(n, p / baseSize);
    }

    /** The nodes from the root on: blocks of the base size, none twice. */
    ghost predicate Valid()
      reads this, chain
    {
      && baseSize > 0 && chain != [] && root == chain[0] && capacity == Start(|chain|) && writePos <= capacity
      && (forall i :: 0 <= i < |chain| ==> chain[i].block.Length == baseSize)
      && (forall i :: 0 <= i < |chain| - 1 ==> chain[i].next == chain[i + 1])
      && chain[|chain| - 1].next == null
      && (forall i, j :: 0 <= i < j < |chain| ==> chain[i] != chain[j] && chain[i].block != chain[j].block)
    }

    /** The write block is a node of the chain that does not begin behind the write position. */
    ghost predicate WriteBlockIs(n: nat)
      reads this
    {
      n < |chain| && writeBlock == chain[n] && Start(n) <= writePos
    }

    /** The write block is the node that holds the write position. */
    ghost predicate AtWritePos(n: nat)
      reads this
    {
      WriteBlockIs(n) && writePos < Start(n + 1)
    }

    /** Where bytes are written when block `n` is the write block: at the write position's offset in that block. */
    function Target(n: nat): (at: nat)
      requires baseSize > 0
      reads this
    {
      Start(n) + writePos % baseSize
    }

    /** Bytes are never written behind the write position, and they are written at it exactly when the write block
        holds it. */
    lemma {:induction false} TargetIsWritePosExactlyWhen(n: nat)
      requires Valid() && WriteBlockIs(n)
      ensures Target(n) <= writePos
      ensures Target(n) == writePos <==> AtWritePos(n)
    {
      hide Start;
      Divided(writePos);
      NextStart(n);
      StartsInOrder(n, writePos / baseSize);
      if AtWritePos(n) {
        Offset(writePos, n);
      }
    }

    constructor (baseSize: nat)
      requires baseSize > 0
      ensures Valid() && AtWritePos(0) && this.baseSize == baseSize && writePos == 0 && |chain| == 1
      ensures fresh(root) && fresh(root.block)
    {
      var node := new Node(baseSize);
      this.baseSize, writePos, capacity := baseSize, 0, baseSize;
      root, writeBlock, chain := node, node, [node];
    }

    function FreeSize(): int
      reads this
    {
      capacity - writePos
    }

    /** The blocks there were are still there, and those behind them are new: as many as were needed for `size` bytes. */
    twostate predicate Grown(size: nat)
      reads this`chain, chain
    {
      old(chain) <= chain && baseSize > 0 && |chain| == |old(chain)| + BlocksFor(old(FreeSize()), size)
      && forall i :: |old(chain)| <= i < |chain| ==> fresh(chain[i]) && fresh(chain[i].block)
    }

    /** How many blocks are added for `size` bytes. */
    function BlocksFor(free: int, size: nat): nat
      requires baseSize > 0
    {
      if size == 0 || free >= size then 0 else BlocksToAdd(size - free, baseSize)
    }

    /** New blocks at the end of the chain until there is room for `size` bytes. */
    method AddCapacityIfNotEnough(size: nat)
      requires Valid()
      modifies this`capacity, this`chain, set n | n in chain
      ensures Valid() && FreeSize() >= size && Grown(size)
      ensures old(FreeSize()) >= size ==> chain == old(chain)
    {
      if size <= 0 || FreeSize() >= size {
        return;
      }
      var addSize := size - FreeSize();
      var count := BlocksToAdd(addSize, baseSize);
      var tmp, k := root, 0;
      assert k < |chain| - 1 ==> chain[k].next == chain[k + 1];
      while tmp.next != null
        invariant 0 <= k < |chain| && tmp == chain[k] && (tmp.next == null <==> k == |chain| - 1)
        decreases |chain| - k
      {
        tmp := tmp.next;
        k := k + 1;
        assert k < |chain| - 1 ==> chain[k].next == chain[k + 1];
      }
      for i := 0 to count
        invariant Valid() && tmp == chain[|chain| - 1] && old(chain) <= chain && |chain| == |old(chain)| + i
        invariant capacity == old(capacity) + i * baseSize
        invariant forall i :: |old(chain)| <= i < |chain| ==> fresh(chain[i]) && fresh(chain[i].block)
      {
        tmp := AddBlock(tmp);
        OneMore(i, baseSize);
      }
    }

    /** One block behind the last. */
    method AddBlock(last: Node) returns (node: Node)
      requires Valid() && last == chain[|chain| - 1]
      modifies this`capacity, this`chain, last`next
      ensures Valid() && fresh(node) && fresh(node.block) && chain == old(chain) + [node] && capacity == old(capacity) + baseSize
    {
      node := new Node(baseSize);
      last.next := node;
      chain := chain + [node];
      capacity := capacity + baseSize;
    }
  
    lemma {:induction false} AnotherBlock(c: nat, n: nat)
      ensures Start(c + 1) == Start(c) + baseSize
      ensures Start(c) + baseSize < Start(n) ==> c + 1 < n
    {
      StartsInOrder(n, c + 1);
    }

    /** The blocks' contents. */
    ghost function Blocks(): (bs: seq<Bytes>)
      requires Valid()
      reads this, chain, set i | 0 <= i < |chain| :: chain[i].block
      ensures |bs| == |chain| && forall i :: 0 <= i < |bs| ==> |bs[i]| == baseSize
    {
      seq(|chain|, i requires Valid() && 0 <= i < |chain| reads this, chain, set k | 0 <= k < |chain| :: chain[k].block =>
        chain[i].block[..])
    }

    /** The bytes of `buf` lie one behind the other from position `at` on, across blocks. */
    ghost predicate Stored(at: nat, buf: Bytes)
      reads this`chain, this`capacity, chain, set i | 0 <= i < |chain| :: chain[i].block
    {
      at + |buf| <= capacity
      && forall i, o :: 0 <= i < |chain| && 0 <= o < chain[i].block.Length && at <= Start(i) + o < at + |buf| ==>
           chain[i].block[o] == buf[Start(i) + o - at]
    }

    /** Every byte but the `len` from position `at` on is what it was. */
    twostate predicate OthersKept(at: nat, len: nat)
      requires old(chain) <= chain
      reads this`chain, chain, set i | 0 <= i < |chain| :: chain[i].block
    {
      forall i, o :: 0 <= i < |old(chain)| && 0 <= o < chain[i].block.Length && !(at <= Start(i) + o < at + len) ==>
        chain[i].block[o] == old(chain[i].block[o])
    }

    /** Stores exactly `buf` from the target on: every other byte of the chain keeps its value, whichever blocks the
        bytes fall into. The write position does not move. */
    method Write(buf: Bytes, ghost n: nat)
      requires Valid() && WriteBlockIs(n)
      modifies this`capacity, this`chain, (set i | i in chain), (set i | 0 <= i < |chain| :: chain[i].block)
      ensures Valid() && WriteBlockIs(n) && FreeSize() >= |buf| && Grown(|buf|)
      ensures Stored(Target(n), buf) && OthersKept(Target(n), |buf|)
    {
      TargetIsWritePosExactlyWhen(n);
      if |buf| == 0 {
        return;
      }
      AddCapacityIfNotEnough(|buf|);
      Fill(buf, n);
    }

    /** What the bytes are when `buf` has been stored up to block `c`. */
    ghost predicate StoredUpTo(at: nat, c: nat, olds: seq<Bytes>, buf: Bytes)
      requires Valid() && |olds| == |chain| && c <= |chain| && forall i :: 0 <= i < |olds| ==> |olds[i]| == baseSize
      reads this, chain, set i | 0 <= i < |chain| :: chain[i].block
    {
      && (forall i, o :: 0 <= i < c && 0 <= o < baseSize ==> chain[i].block[o] == Expected(at, olds, buf, i, o))
      && (forall i :: c <= i < |chain| ==> chain[i].block[..] == olds[i])
    }

    ghost function Expected(at: nat, olds: seq<Bytes>, buf: Bytes, i: nat, o: nat): Byte
      requires i < |olds| && o < |olds[i]|
    {
      if at <= Start(i) + o < at + |buf| then buf[Start(i) + o - at] else olds[i][o]
    }

    method Fill(buf: Bytes, ghost n: nat)
      requires Valid() && n < |chain| && writeBlock == chain[n] && 0 < |buf| && Target(n) + |buf| <= capacity
      modifies set i | 0 <= i < |chain| :: chain[i].block
      ensures Valid()
      ensures Stored(Target(n), buf) && OthersKept(Target(n), |buf|)
    {
      hide Start;
      ghost var olds, at := Blocks(), Target(n);
      BeforeStart(at, Blocks(), buf, n);
      FillFrom(at, buf, n, writePos % baseSize);
      assert StoredUpTo(at, |chain|, olds, buf);
    }

    /** Block by block, from `offset` in the write block on. */
    method FillFrom(ghost at: nat, buf: Bytes, ghost n: nat, offset: nat)
      requires Valid() && n < |chain| && writeBlock == chain[n] && Start(n) + offset == at && offset < baseSize
      requires 0 < |buf| && at + |buf| <= capacity && StoredUpTo(at, n, Blocks(), buf)
      modifies set i | 0 <= i < |chain| :: chain[i].block
      ensures Valid() && StoredUpTo(at, |chain|, old(Blocks()), buf)
    {
      hide Valid, Start, StoredUpTo, Expected, Blocks;
      ghost var olds := Blocks();
      var posInCurBlock: nat, curBlockFreeSize: nat := offset, baseSize - offset;
      BlockSizes();
      var writtenSize: nat, leftSize: nat := 0, |buf|;
      var cur: Node? := writeBlock;
      ghost var c := n;
      while leftSize > 0
        invariant Valid() && n <= c < |chain| && cur == chain[c] && StoredUpTo(at, c, olds, buf)
        invariant posInCurBlock < baseSize && curBlockFreeSize == baseSize - posInCurBlock
        invariant Start(c) + posInCurBlock == at + writtenSize
        invariant leftSize == |buf| - writtenSize
        invariant leftSize > 0 && (writtenSize > 0 ==> posInCurBlock == 0)
        decreases leftSize
      {
        if curBlockFreeSize >= leftSize {
          Put(at, c, cur, posInCurBlock, buf, writtenSize, leftSize, olds);
          leftSize := 0;
          break;
        }
        AnotherBlock(c, |chain|);
        Put(at, c, cur, posInCurBlock, buf, writtenSize, curBlockFreeSize, olds);
        writtenSize := writtenSize + curBlockFreeSize;
        leftSize := leftSize - curBlockFreeSize;
        NextInChain(c);
        cur := cur.next;
        curBlockFreeSize := cur.block.Length;
        posInCurBlock := 0;
        c := c + 1;
      }
      BehindEnd(at, olds, buf, c);
    }

    lemma {:induction false} NextInChain(c: nat)
      requires Valid() && c + 1 < |chain|
      ensures chain[c].next == chain[c + 1] && chain[c + 1].block.Length == baseSize
    {
    }

    lemma {:induction false} BlockSizes()
      requires Valid()
      ensures baseSize > 0 && capacity == Start(|chain|) && |Blocks()| == |chain|
      ensures forall i :: 0 <= i < |Blocks()| ==> |Blocks()[i]| == baseSize
    {
    }

    /** Nothing in front of the write block changes. */
    lemma {:induction false} BeforeStart(at: nat, olds: seq<Bytes>, buf: Bytes, n: nat)
      requires Valid() && n < |chain| && Start(n) <= at && olds == Blocks()
      ensures StoredUpTo(at, n, olds, buf)
    {
      forall i, o | 0 <= i < n && 0 <= o < baseSize ensures chain[i].block[o] == Expected(at, olds, buf, i, o) {
        StartsInOrder(i, n);
        assert chain[i].block[o] == olds[i][o];
      }
    }

    /** Nor does anything behind the block of the last byte. */
    lemma {:induction false} BehindEnd(at: nat, olds: seq<Bytes>, buf: Bytes, c: nat)
      requires Valid() && |olds| == |chain| && c < |chain| && (forall i :: 0 <= i < |olds| ==> |olds[i]| == baseSize)
      requires StoredUpTo(at, c + 1, olds, buf) && at + |buf| <= Start(c) + baseSize
      ensures StoredUpTo(at, |chain|, olds, buf)
    {
      forall i, o | 0 <= i < |chain| && 0 <= o < baseSize ensures chain[i].block[o] == Expected(at, olds, buf, i, o) {
        if i > c {
          StartsInOrder(c, i);
          assert chain[i].block[o] == chain[i].block[..][o] == olds[i][o];
        }
      }
    }

    /** Copies `k` bytes of `buf`, from `written` on, into block `c` at `pos`. */
    method Put(ghost at: nat, ghost c: nat, cur: Node, pos: nat, buf: Bytes, written: nat, k: nat, ghost olds: seq<Bytes>)
      requires Valid() && c < |chain| && cur == chain[c] && |olds| == |chain|
      requires (forall i :: 0 <= i < |olds| ==> |olds[i]| == baseSize) && StoredUpTo(at, c, olds, buf)
      requires pos + k <= baseSize && written + k <= |buf| && Start(c) + pos == at + written
      requires (written > 0 ==> pos == 0) && (pos + k < baseSize ==> written + k == |buf|)
      modifies cur.block
      ensures Valid() && StoredUpTo(at, c + 1, olds, buf)
    {
      ghost var before := cur.block[..];
      for i := 0 to k
        invariant forall o :: 0 <= o < baseSize ==>
                    cur.block[o] == if pos <= o < pos + i then buf[written + o - pos] else before[o]
      {
        cur.block[pos + i] := buf[written + i];
      }
    }
  
    /** The stretches that cover the next `len` bytes behind the target, in order: each lies in one block and
        begins where the one before it ends. */
    method GetWriteBuffers(len: nat, ghost n: nat) returns (buffers: seq<Piece>)
      requires Valid() && WriteBlockIs(n)
      modifies this`capacity, this`chain, set i | i in chain
      ensures Valid() && WriteBlockIs(n) && FreeSize() >= len && Grown(len)
      ensures Covers(buffers, Target(n), len) && (len == 0 <==> buffers == [])
    {
      hide Covers;
      TargetIsWritePosExactlyWhen(n);
      if len == 0 {
        NothingCovered(Target(n));
        return [];
      }
      AddCapacityIfNotEnough(len);
      TargetIsWritePosExactlyWhen(n);
      AnotherBlock(n, |chain|);
      buffers := Pieces(Target(n), len, n, writePos % baseSize);
    }

    predicate EndsBlock(p: Piece) {
      p.offset + p.length == baseSize
    }

    predicate AllEndBlocks(buffers: seq<Piece>) {
      forall k :: 0 <= k < |buffers| ==> EndsBlock(buffers[k])
    }

    /** The pieces lie one behind the other from position `at` on and make up `len` bytes; each goes as far as its block
        if another one follows. */
    ghost predicate Covers(buffers: seq<Piece>, at: nat, len: nat)
      reads this, chain
    {
      && (forall k :: 0 <= k < |buffers| ==> IsAt(buffers[k], at + Total(buffers[..k]))) && Total(buffers) == len
      && (forall k :: 0 <= k < |buffers| ==> buffers[k].length > 0)
      && (forall k :: 0 <= k < |buffers| - 1 ==> EndsBlock(buffers[k]))
    }

    /** A piece lies in one block and begins at a logical position. */
    ghost predicate IsAt(p: Piece, position: nat)
      reads this, chain
    {
      p.offset + p.length <= baseSize
      && exists n :: 0 <= n < |chain| && p.block == chain[n].block && Start(n) + p.offset == position
    }

    method Pieces(ghost at: nat, len: nat, ghost n: nat, offset: nat) returns (buffers: seq<Piece>)
      requires Valid() && n < |chain| && writeBlock == chain[n] && Start(n) + offset == at && offset < baseSize
      requires 0 < len && at + len <= capacity
      ensures Covers(buffers, at, len) && buffers != []
    {
      hide Start, Covers;
      NothingCovered(at);
      var posInCurBlock: nat, freeSizeInCurBlock: nat := offset, baseSize - offset;
      var leftSize: nat := len;
      var cur: Node? := writeBlock;
      ghost var c := n;
      buffers := [];
      while leftSize > 0
        invariant Valid() && n <= c < |chain| && cur == chain[c] && Covers(buffers, at, len - leftSize)
        invariant posInCurBlock < baseSize && freeSizeInCurBlock == baseSize - posInCurBlock
        invariant 0 < leftSize <= len && Start(c) + posInCurBlock == at + (len - leftSize) && AllEndBlocks(buffers)
        decreases leftSize
      {
        AnotherBlock(c, |chain|);
        if freeSizeInCurBlock >= leftSize {
          PieceAdded(at, buffers, Piece(cur.block, posInCurBlock, leftSize), len - leftSize, c);
          buffers := buffers + [Piece(cur.block, posInCurBlock, leftSize)];
          leftSize := 0;
          break;
        }
        PieceAdded(at, buffers, Piece(cur.block, posInCurBlock, freeSizeInCurBlock), len - leftSize, c);
        buffers := buffers + [Piece(cur.block, posInCurBlock, freeSizeInCurBlock)];
        assert chain[c].next == chain[c + 1];
        cur := cur.next;
        leftSize := leftSize - freeSizeInCurBlock;
        freeSizeInCurBlock := cur.block.Length;
        posInCurBlock := 0;
        c := c + 1;
      }
    }

    lemma {:induction false} NothingCovered(at: nat)
      ensures Covers([], at, 0)
    {
    }

    lemma {:induction false} PieceAt(p: Piece, position: nat, n: nat)
      requires n < |chain| && p.block == chain[n].block
      requires p.offset + p.length <= baseSize && Start(n) + p.offset == position
      ensures IsAt(p, position)
    {
    }

    lemma {:induction false} PieceAdded(at: nat, buffers: seq<Piece>, p: Piece, len: nat, n: nat)
      requires Covers(buffers, at, len) && n < |chain| && p.block == chain[n].block
      requires p.offset + p.length <= baseSize && Start(n) + p.offset == at + len
      requires p.length > 0 && AllEndBlocks(buffers)
      ensures Covers(buffers + [p], at, len + p.length)
    {
      hide Start, IsAt, Total;
      var all := buffers + [p];
      TotalAppend(buffers, p);
      PieceAt(p, at + len, n);
      forall k | 0 <= k < |all| ensures IsAt(all[k], at + Total(all[..k])) {
        assert all[..k] == buffers[..k];
        if k == |buffers| {
          assert buffers[..k] == buffers;
        } else {
          assert all[k] == buffers[k];
        }
      }
    }

    // ---------------------------------------------------------- the write position

    /** Whether the write block keeps up when `size` bytes follow a position: they do not fill whole blocks, and what is
        left of them ends in front of the end of a block. */
    predicate KeepsUp(pos: nat, size: nat)
      requires baseSize > 0
    {
      size % baseSize != 0 && pos % baseSize + size % baseSize < baseSize
    }

    /** The blocks by which the write block is moved on. */
    function BlocksOn(size: nat): nat
      requires baseSize > 0 && size > 0
    {
      (size - 1) / baseSize
    }

    /** Moves the write position behind `size` bytes, and the write block on by as many blocks as `size - 1` bytes fill,
        whatever the offset. The write block holds the new position exactly when it held the old one and keeps up: a
        write block that has fallen behind stays behind. Moving over nothing or past the capacity is refused. */
    method HasWritten(size: nat, ghost n: nat) returns (ok: bool)
      requires Valid() && WriteBlockIs(n)
      modifies this`writePos, this`writeBlock
      ensures ok == (0 < size <= old(FreeSize()))
      ensures !ok ==> writePos == old(writePos) && writeBlock == old(writeBlock)
      ensures ok ==> Valid() && writePos == old(writePos) + size && WriteBlockIs(n + BlocksOn(size))
      ensures ok ==> (AtWritePos(n + BlocksOn(size))
                      <==> old(AtWritePos(n)) && KeepsUp(old(writePos), size))
    {
      hide Start, KeepsUp, BlocksOn;
      if size <= 0 || size > FreeSize() {
        return false;
      }
      ok := true;
      NextStart(0);
      ghost var k := 0;
      var tmpPos := writePos;
      KeepsUpExactlyWhen(writePos, size, n);
      writePos := writePos + size;
      while tmpPos < writePos
        invariant Valid() && WriteBlockIs(n + k) && writePos == old(writePos) + size
        invariant tmpPos == old(writePos) + Start(if tmpPos < writePos then k else k + 1) && Start(k) < size
        decreases writePos - tmpPos
      {
        tmpPos := tmpPos + baseSize;
        NextStart(k);
        if tmpPos < writePos {
          StartAdds(n, k + 1);
          BelowCapacity(n + k + 1);
          assert chain[n + k].next == chain[n + k + 1];
          writeBlock := writeBlock.next;
          k := k + 1;
        }
      }
      BlocksFilled(k, size);
    }

    /** Stores a message and moves behind it. */
    method SetMsg(msg: Bytes, ghost n: nat) returns (ok: bool)
      requires Valid() && WriteBlockIs(n)
      modifies this`capacity, this`chain, this`writePos, this`writeBlock
      modifies (set i | i in chain), (set i | 0 <= i < |chain| :: chain[i].block)
      ensures ok == (msg != []) && Valid() && Grown(|msg|) && writePos == old(writePos) + |msg|
      ensures Stored(old(Target(n)), msg) && OthersKept(old(Target(n)), |msg|)
      ensures ok ==> WriteBlockIs(n + BlocksOn(|msg|))
      ensures ok ==> (AtWritePos(n + BlocksOn(|msg|))
                      <==> old(AtWritePos(n)) && KeepsUp(old(writePos), |msg|))
    {
      hide Start, KeepsUp, BlocksOn, Stored, OthersKept, Grown;
      Write(msg, n);
      ok := HasWritten(|msg|, n);
    }

    /** A message that fills its block leaves the write block behind: the next one is written over it. */
    static method SecondMessageReplacesFirst() returns (first: Byte)
      ensures first == 2
    {
      var buffer := new ByteArray(1);
      var ok := buffer.SetMsg([1], 0);
      ok := buffer.SetMsg([2], 0);
      assert buffer.Start(0) == 0 && 0 < |buffer.chain|;
      first := buffer.root.block[0];
    }

    /** A block that begins below the capacity is in the chain. */
    lemma {:induction false} BelowCapacity(n: nat)
      requires Valid() && Start(n) < capacity
      ensures n < |chain|
    {
      StartsInOrder(|chain|, n);
    }

    lemma {:induction false} BlocksFilled(k: nat, size: nat)
      requires baseSize > 0 && Start(k) < size <= Start(k + 1)
      ensures k == BlocksOn(size)
    {
      Offset(size - 1, k);
    }

    /** In numbers: a position in block `n` lies `size` bytes on in the block that is as many blocks on as `size - 1`
        bytes fill. */
    lemma {:induction false} KeepsUpExactlyWhen(pos: nat, size: nat, n: nat)
      requires baseSize > 0 && size > 0 && Start(n) <= pos
      ensures var m := n + BlocksOn(size);
              && Start(m) <= pos + size
              && (pos + size < Start(m + 1) <==> pos < Start(n + 1) && KeepsUp(pos, size))
    {
      hide Start;
      Divided(size - 1);
      StartAdds(n, BlocksOn(size));
      NextStart(n + BlocksOn(size));
      NextStart(n);
      if pos < Start(n + 1) {
        Offset(pos, n);
        var whole := size / baseSize;
        Divided(size);
        NextStart(BlocksOn(size));
        if size % baseSize == 0 {
          NextStart(0);
          NextStart(whole - 1);
          BlocksFilled(whole - 1, size);
        } else {
          NextStart(whole);
          BlocksFilled(whole, size);
        }
      }
    }

    // ---------------------------------------------------------- integers

    /** A value of 32 or 64 bits in groups of seven bits, the lowest first. */
    method WriteVarint(bits: nat, value: nat, ghost n: nat)
      requires Valid() && WriteBlockIs(n) && (bits == 32 || bits == 64) && value < Modulus(bits)
      modifies this`capacity, this`chain, (set i | i in chain), (set i | 0 <= i < |chain| :: chain[i].block)
      ensures Valid() && WriteBlockIs(n) && FreeSize() >= |Varint(value)| && Grown(|Varint(value)|)
      ensures Stored(Target(n), Varint(value)) && OthersKept(Target(n), |Varint(value)|)
    {
      hide Varint, Start;
      var buf := Grouped(bits, value);
      Write(buf, n);
    }

    static method Grouped(bits: nat, value: nat) returns (buf: Bytes)
      requires (bits == 32 || bits == 64) && value < Modulus(bits)
      ensures buf == Varint(value)
    {
      VarintLength(value);
      var tmp := new Byte[if bits == 32 then 5 else 10];
      var i := SplitGroups(value, tmp);
      buf := tmp[..i];
    }

    /** The groups of a value in an array that is large enough for them. */
    static method SplitGroups(value0: nat, tmp: array<Byte>) returns (i: nat)
      requires |Varint(value0)| <= tmp.Length
      modifies tmp
      ensures i <= tmp.Length && tmp[..i] == Varint(value0)
    {
      i := 0;
      var value := value0;
      while value >= 0x80
        invariant i + |Varint(value)| <= tmp.Length && Varint(value0) == tmp[..i] + Varint(value)
        decreases value
      {
        ghost var before := tmp[..i];
        tmp[i] := 0x80 + value % 0x80;
        assert tmp[..i + 1] == before + [tmp[i]];
        assert before + ([tmp[i]] + Varint(value / 0x80)) == before + [tmp[i]] + Varint(value / 0x80);
        i := i + 1;
        value := value / 0x80;
      }
      tmp[i] := value;
      i := i + 1;
    }
  }

  function Total(ps: seq<Piece>): nat {
    if ps == [] then 0 else Total(ps[..|ps| - 1]) + ps[|ps| - 1].length
  }

  lemma {:induction false} TotalAppend(ps: seq<Piece>, p: Piece)
    ensures Total(ps + [p]) == Total(ps) + p.length
  {
    assert (ps + [p])[..|ps|] == ps;
  }

  // ------------------------------------------------------------ variable-length integers

  function Varint(value: nat): (s: Bytes)
    ensures s != []
  {
    if value < 0x80 then [value] else [0x80 + value % 0x80] + Varint(value / 0x80)
  }

  /** The number that groups of seven bits stand for. */
  function Groups(s: Bytes): nat {
    if s == [] then 0 else Low7(s[0]) + 0x80 * Groups(s[1..])
  }

  function Low7(c: Byte): nat {
    var n: int := c; n % 0x80
  }

  /** The groups stand for the value, and the last byte is the only one below 0x80. */
  lemma {:induction false} VarintStandsForValue(value: nat)
    ensures Groups(Varint(value)) == value
    ensures forall k :: 0 <= k < |Varint(value)| ==> (Varint(value)[k] < 0x80 <==> k == |Varint(value)| - 1)
    decreases value
  {
    if value >= 0x80 {
      VarintStandsForValue(value / 0x80);
      assert Varint(value)[1..] == Varint(value / 0x80);
    } else {
      assert [value][1..] == [];
    }
  }

  /** At most five bytes for 32 bits, at most ten for 64. */
  lemma {:induction false} VarintLength(value: nat)
    ensures value < 0x1_0000_0000 ==> |Varint(value)| <= 5
    ensures value < 0x1_0000_0000_0000_0000 ==> |Varint(value)| <= 10
  {
    Length(value, 5);
    Length(value, 10);
    assert Pow128(1) == 0x80 && Pow128(2) == 0x4000 && Pow128(3) == 0x20_0000 && Pow128(4) == 0x1000_0000;
    assert Pow128(5) == 0x8_0000_0000;
    assert Pow128(6) == 0x400_0000_0000 && Pow128(7) == 0x2_0000_0000_0000 && Pow128(8) == 0x100_0000_0000_0000;
    assert Pow128(9) == 0x8000_0000_0000_0000;
    assert Pow128(10) == 0x80 * Pow128(9);
  }

  function Pow128(n: nat): nat {
    if n == 0 then 1 else 0x80 * Pow128(n - 1)
  }

  lemma {:induction false} Length(value: nat, n: nat)
    requires n > 0
    ensures value < Pow128(n) ==> |Varint(value)| <= n
    decreases n
  {
    if value >= 0x80 && n > 1 {
      Length(value / 0x80, n - 1);
    } else if n == 1 {
      assert Pow128(1) == 0x80 * Pow128(0);
    }
  }

  /** No encoding is the beginning of another, so a reader knows where it ends. */
  lemma {:induction false} VarintIsPrefixFree(a: nat, b: nat)
    requires Varint(a) <= Varint(b)
    ensures a == b
  {
    VarintStandsForValue(a);
    VarintStandsForValue(b);
    hide Varint, Groups;
    var n := |Varint(a)| - 1;
    assert Varint(a)[n] == Varint(b)[n] && Varint(a)[n] < 0x80;
    assert n == |Varint(b)| - 1;
    assert Varint(a) == Varint(b);
  }

  // ------------------------------------------------------------ zigzag

  /** Small magnitudes become small numbers: `bits` is 32 or 64, `v` a two's complement value of that width. */
  function EncodeZigzag(v: int): nat {
    if v < 0 then (0 - v) * 2 - 1 else v * 2
  }

  /** Half the number, complemented if it is odd, read as two's complement. */
  function DecodeZigzag(bits: nat, v: nat): int
    requires bits == 32 || bits == 64
    requires v < Modulus(bits)
  {
    var mask := if v % 2 == 1 then Modulus(bits) - 1 else 0;
    var x := if mask == 0 then v / 2 else Modulus(bits) - 1 - v / 2;
    if x >= Modulus(bits) / 2 then x - Modulus(bits) else x
  }

  function Modulus(bits: nat): nat
    requires bits == 32 || bits == 64
  {
    if bits == 32 then 0x1_0000_0000 else 0x1_0000_0000_0000_0000
  }

  /** The exclusive or with all ones or none, which the program uses, is the complement or nothing. */
  lemma {:induction false} XorIsComplement(x: bv32, y: bv64)
    ensures x ^ 0xFFFF_FFFF == 0xFFFF_FFFF - x && x ^ 0 == x
    ensures y ^ 0xFFFF_FFFF_FFFF_FFFF == 0xFFFF_FFFF_FFFF_FFFF - y && y ^ 0 == y
  {
  }

  /** Codes go by magnitude, a negative value in front of the positive one of the same magnitude, from zero on. */
  lemma {:induction false} ZigzagGoesByMagnitude(v: int, w: int)
    ensures EncodeZigzag(0) == 0
    ensures -w < v < w ==> EncodeZigzag(v) < EncodeZigzag(-w) == EncodeZigzag(w) - 1
  {
  }

  /** 300 in two groups; the codes of 1, -2 and the least value of 32 bits. */
  lemma {:induction false} IntegersInBytes()
    ensures Varint(0) == [0x00] && Varint(300) == [0xAC, 0x02] && Varint(0xFFFF_FFFF) == [0xFF, 0xFF, 0xFF, 0xFF, 0x0F]
    ensures EncodeZigzag(1) == 2 && EncodeZigzag(-2) == 3 && EncodeZigzag(-0x8000_0000) == 0xFFFF_FFFF
  {
    assert Varint(0xF) == [0x0F];
    assert Varint(0x7FF) == [0xFF] + Varint(0xF);
    assert Varint(0x3_FFFF) == [0xFF] + Varint(0x7FF);
    assert Varint(0x1FF_FFFF) == [0xFF] + Varint(0x3_FFFF);
  }

  /** Decoding inverts encoding on all values of the width, and the code fits the width. */
  lemma {:induction false} ZigzagRoundTrips(bits: nat, v: int)
    requires (bits == 32 || bits == 64) && 0 - Modulus(bits) / 2 <= v < Modulus(bits) / 2
    ensures EncodeZigzag(v) < Modulus(bits) && DecodeZigzag(bits, EncodeZigzag(v)) == v
  {
  }

  /** Every number of the width is the code of exactly one value. */
  lemma {:induction false} ZigzagIsOnto(bits: nat, n: nat)
    requires (bits == 32 || bits == 64) && n < Modulus(bits)
    ensures EncodeZigzag(DecodeZigzag(bits, n)) == n
  {
  }
}
