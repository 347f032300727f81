/** The bytes of an ext2 file, and what writing at a byte position makes of them. */
module Ext2Bytes {
  import opened Ext2Disk
  import opened Ext2Tree
  import opened Bits
  import opened Common

  /** Byte k of the file, wherever its block is. */
  function FileByte(t: Tree, k: nat): Byte
    requires ShapeOk(t) && BlockOf(t.bs, k) < Reach(t.bs)
  {
    ByteIn(t, BlockOf(t.bs, k), OffsetOf(t.bs, k))
  }

  function BlockOf(bs: nat, k: nat): nat
    requires bs > 0
  {
    k / bs
  }

  function OffsetOf(bs: nat, k: nat): (o: nat)
    requires bs > 0
    ensures o < bs
  {
    k % bs
  }

  function ByteIn(t: Tree, b: nat, o: nat): Byte
    requires ShapeOk(t) && b < Reach(t.bs) && o < t.bs
  {
    DataBlock(t, b)[o]
  }

  function Limit(bs: nat): nat { Reach(bs) * bs }

  lemma InReach(bs: nat, k: nat)
    requires bs > 0 && k < Limit(bs)
    ensures BlockOf(bs, k) < Reach(bs)
  {
    hide Reach;
    var q := k / bs;
    assert k == q * bs + k % bs;
    MulMono(q - Reach(bs) + 1, bs);
    assert (q - Reach(bs) + 1) * bs == q * bs - Limit(bs) + bs;
  }

  /** How many blocks it takes to hold size bytes. */
  function BlocksFor(size: nat, bs: nat): nat
    requires bs > 0
  {
    (size + bs - 1) / bs
  }

  lemma BlocksForBound(size: nat, bs: nat, b: nat)
    requires bs > 0
    ensures b < BlocksFor(size, bs) <==> b * bs < size
  {
    var q := BlocksFor(size, bs);
    var r := (size + bs - 1) % bs;
    assert size + bs - 1 == q * bs + r;
    MulMono(q - b, bs);
    MulMono(q - b - 1, bs);
    assert (q - b) * bs == q * bs - b * bs;
    assert (q - b - 1) * bs == (q - b) * bs - bs;
  }

  function Min(a: nat, b: nat): nat { if a < b then a else b }

  /** Where block b starts. */
  function BlockStart(bs: nat, b: nat): nat { b * bs }

  lemma SplitAt(bs: nat, k: nat)
    requires bs > 0
    ensures k == BlockStart(bs, BlockOf(bs, k)) + OffsetOf(bs, k)
  {
  }

  lemma BlockOrder(bs: nat, a: nat, off: nat, b: nat, rest: nat)
    requires off < bs && rest < bs
    ensures a < b ==> BlockStart(bs, a) + bs <= BlockStart(bs, b)
    ensures BlockStart(bs, a) + off <= BlockStart(bs, b) + rest ==> a <= b
    ensures BlockStart(bs, a + 1) == BlockStart(bs, a) + bs
  {
    MulMono(b - a, bs);
    assert (b - a) * bs == b * bs - a * bs;
    assert (a + 1) * bs == a * bs + bs;
  }

  lemma BlockAtOffset(bs: nat, pos: nat, start: nat, coff: nat, b: nat)
    requires pos == BlockStart(bs, start) + coff && start <= b
    ensures pos + (bs * (b - start) - coff) == BlockStart(bs, b)
  {
    assert bs * (b - start) == b * bs - start * bs;
  }

  lemma EndInReach(bs: nat, b: nat, rest: nat)
    requires bs > 0 && BlockStart(bs, b) + rest <= Limit(bs)
    ensures b <= Reach(bs) && (rest > 0 ==> b < Reach(bs))
  {
    hide Reach;
    MulMono(b - Reach(bs), bs);
    assert (b - Reach(bs)) * bs == b * bs - Limit(bs);
  }

  lemma DivBlock(k: nat, b: nat, bs: nat)
    requires bs > 0
    ensures BlockOf(bs, k) == b <==> BlockStart(bs, b) <= k < BlockStart(bs, b) + bs
    ensures BlockOf(bs, k) == b ==> OffsetOf(bs, k) == k - BlockStart(bs, b)
  {
    if b * bs <= k < b * bs + bs {
      ModUnique(k, b, bs, k - b * bs);
    }
  }

  lemma DivGe(a: nat, n: nat, d: nat)
    requires d > 0 && a >= n * d
    ensures a / d >= n
  {
    var q, r := a / d, a % d;
    assert a == q * d + r;
    MulMono(q - n + 1, d);
    assert (q - n + 1) * d == q * d - n * d + d;
  }

  /** The doubly indirect block reaches the end of the file. */
  predicate Bounded(t: Tree) {
    ShapeOk(t) && t.inode.size <= Limit(t.bs)
  }

  /** The first n bytes of the file, whether it is that long or not; where no block is, they are
      those of block 0, which are zeros. */
  function Bytes(t: Tree, n: nat): (s: seq<Byte>)
    requires ShapeOk(t) && n <= Limit(t.bs)
    ensures |s| == n
  {
    seq(n, k requires 0 <= k < n => (InReach(t.bs, k); FileByte(t, k)))
  }

  function Contents(t: Tree): (s: seq<Byte>)
    requires Bounded(t)
    ensures |s| == t.inode.size
  {
    Bytes(t, t.inode.size)
  }

  /** The contents read off the disk. */
  lemma ContentsOnDisk(t: Tree, k: nat)
    requires Bounded(t) && k < t.inode.size
    ensures Contents(t)[k] == ByteOnDisk(t.bs, t.disk, t.inode, k)
  {
    hide Ptr, Reach, Pointer, DiskByte, Limit;
    InReach(t.bs, k);
    PtrIsPointer(t, BlockOf(t.bs, k));
    assert Contents(t)[k] == FileByte(t, k);
  }

  lemma SameByte(t: Tree, t': Tree, k: nat)
    requires ShapeOk(t) && ShapeOk(t') && t'.bs == t.bs && k < Limit(t.bs)
    requires forall m: nat :: m < Reach(t.bs) ==> DataBlock(t', m) == DataBlock(t, m)
    ensures BlockOf(t.bs, k) < Reach(t.bs) && FileByte(t', k) == FileByte(t, k)
  {
    hide ShapeOk, Reach, BlockOf, OffsetOf, DataBlock;
    ShapeSize(t);
    InReach(t.bs, k);
  }

  lemma ShapeSize(t: Tree)
    requires ShapeOk(t)
    ensures t.bs > 0
  {
  }

  /** A read of the file's bytes out of one of its blocks. */
  lemma SliceOfBlock(t: Tree, b: nat, off: nat, n: nat)
    requires ShapeOk(t) && t.inode.size <= Limit(t.bs) && b < Reach(t.bs)
    requires off + n <= t.bs && BlockStart(t.bs, b) + off + n <= t.inode.size
    ensures DataBlock(t, b)[off..off + n] == Contents(t)[BlockStart(t.bs, b) + off..BlockStart(t.bs, b) + off + n]
  {
    hide ShapeOk, Reach, Limit, BlockOf, OffsetOf, DataBlock;
    ShapeSize(t);
    var at := BlockStart(t.bs, b) + off;
    var x, y := DataBlock(t, b)[off..off + n], Contents(t)[at..at + n];
    forall j | 0 <= j < n
      ensures x[j] == y[j]
    {
      DivBlock(at + j, b, t.bs);
      assert Contents(t)[at + j] == FileByte(t, at + j) == ByteIn(t, b, off + j);
    }
  }

  lemma SameContents(t: Tree, t': Tree)
    requires ShapeOk(t) && ShapeOk(t') && t'.bs == t.bs && t.inode.size == t'.inode.size <= Limit(t.bs)
    requires forall m: nat :: m < Reach(t.bs) ==> DataBlock(t', m) == DataBlock(t, m)
    ensures Contents(t') == Contents(t)
  {
    forall k: nat | k < t.inode.size
      ensures Contents(t')[k] == Contents(t)[k]
    {
      SameByte(t, t', k);
    }
  }

  function Patch(blk: Block, off: nat, piece: seq<Byte>): (r: Block)
    requires off + |piece| <= |blk|
    ensures |r| == |blk|
    ensures forall j :: 0 <= j < |blk| ==> r[j] == if off <= j < off + |piece| then piece[j - off] else blk[j]
  {
    blk[..off] + piece + blk[off + |piece|..]
  }

  /** data over the bytes of s from pos on, s growing where it is too short. */
  function Overlaid(s: seq<Byte>, pos: nat, data: seq<Byte>): seq<Byte>
    requires pos <= |s|
  {
    s[..pos] + data + if pos + |data| <= |s| then s[pos + |data|..] else []
  }

  /** What was written is read back; the bytes around it are the old ones. */
  lemma OverlaidReads(s: seq<Byte>, pos: nat, data: seq<Byte>)
    requires pos <= |s|
    ensures var r := Overlaid(s, pos, data);
            && |r| == (if pos + |data| > |s| then pos + |data| else |s|)
            && r[pos..pos + |data|] == data && r[..pos] == s[..pos]
            && (pos + |data| <= |s| ==> r[pos + |data|..] == s[pos + |data|..])
  {
  }

  /** Writing one file leaves the contents of every file that shares no block with it. */
  lemma OtherContentsKept(t: Tree, t': Tree, taken: set<nat>, o: Tree)
    requires Evolves(t, t', taken) && TreeOk(o) && o.bs == t.bs && o.disk == t.disk && o.inode.size <= Limit(o.bs)
    requires AllTaken(o, taken) && Apart(t, o)
    ensures ShapeOk(o.(disk := t'.disk)) && Contents(o.(disk := t'.disk)) == Contents(o)
  {
    hide Evolves, Ptr, Reach, Limit, AllTaken, Apart, Contents;
    OtherFileKept(t, t', taken, o);
    SameContents(o, o.(disk := t'.disk));
  }

  // ----- what a write makes of the blocks

  /** Block m takes part in a write of n bytes at fpos. */
  predicate Touched(bs: nat, fpos: nat, n: nat, m: nat)
    requires bs > 0
  {
    n > 0 && BlockOf(bs, fpos) <= m && BlockStart(bs, m) < fpos + n
  }

  /** The first and the last position in block m that is written, the last one excluded. */
  function PieceFrom(bs: nat, fpos: nat, m: nat): nat {
    if BlockStart(bs, m) < fpos then fpos else BlockStart(bs, m)
  }

  function PieceEnd(bs: nat, fpos: nat, n: nat, m: nat): nat {
    Min(fpos + n, BlockStart(bs, m) + bs)
  }

  lemma PieceBounds(bs: nat, fpos: nat, n: nat, m: nat)
    requires bs > 0 && Touched(bs, fpos, n, m)
    ensures BlockStart(bs, m) < fpos + n && BlockOf(bs, fpos) <= m
    ensures fpos <= PieceFrom(bs, fpos, m) < PieceEnd(bs, fpos, n, m) <= fpos + n
    ensures BlockStart(bs, m) <= PieceFrom(bs, fpos, m) && PieceEnd(bs, fpos, n, m) <= BlockStart(bs, m) + bs
    ensures BlockStart(bs, m) < fpos ==> m == BlockOf(bs, fpos)
  {
    hide BlockStart, BlockOf, OffsetOf;
    var start := BlockOf(bs, fpos);
    SplitAt(bs, fpos);
    BlockOrder(bs, start, OffsetOf(bs, fpos), m, 0);
  }

  /** The part of the data that goes into block m. */
  function PieceOf(bs: nat, fpos: nat, data: seq<Byte>, m: nat): (p: seq<Byte>)
    requires bs > 0 && Touched(bs, fpos, |data|, m)
    ensures |p| == PieceEnd(bs, fpos, |data|, m) - PieceFrom(bs, fpos, m)
    ensures OffsetIn(bs, fpos, m) + |p| <= bs
  {
    PieceBounds(bs, fpos, |data|, m);
    data[PieceFrom(bs, fpos, m) - fpos..PieceEnd(bs, fpos, |data|, m) - fpos]
  }

  /** Where in block m it goes. */
  function OffsetIn(bs: nat, fpos: nat, m: nat): nat {
    PieceFrom(bs, fpos, m) - BlockStart(bs, m)
  }

  /** Block m after a write: the piece over what was there, or, where there was no block, over
      what the buffer held, which is what malloc left in it or the block before. */
  function NewBlock(t: Tree, fpos: nat, data: seq<Byte>, garbage: Block, m: nat): (blk: Block)
    requires ShapeOk(t) && m < Reach(t.bs) && |garbage| == t.bs
    ensures |blk| == t.bs
    decreases m, 1
  {
    if !Touched(t.bs, fpos, |data|, m) then DataBlock(t, m)
    else
      Patch(if Ptr(t, Data(m)) != 0 then DataBlock(t, m) else Left(t, fpos, data, garbage, m),
            OffsetIn(t.bs, fpos, m), PieceOf(t.bs, fpos, data, m))
  }

  /** What is in the buffer when the write comes to block m. */
  function Left(t: Tree, fpos: nat, data: seq<Byte>, garbage: Block, m: nat): (blk: Block)
    requires ShapeOk(t) && m <= Reach(t.bs) && |garbage| == t.bs
    ensures |blk| == t.bs
    decreases m, 0
  {
    if m <= BlockOf(t.bs, fpos) then garbage else NewBlock(t, fpos, data, garbage, m - 1)
  }

  /** Byte k after the write. */
  function NewByte(t: Tree, fpos: nat, data: seq<Byte>, garbage: Block, k: nat): Byte
    requires ShapeOk(t) && k < Limit(t.bs) && |garbage| == t.bs
  {
    InReach(t.bs, k);
    NewBlock(t, fpos, data, garbage, BlockOf(t.bs, k))[OffsetOf(t.bs, k)]
  }

  /** Byte k lies in a block that the write has to create. */
  predicate InCreated(t: Tree, fpos: nat, n: nat, k: nat)
    requires ShapeOk(t) && k < Limit(t.bs)
  {
    InReach(t.bs, k);
    Touched(t.bs, fpos, n, BlockOf(t.bs, k)) && Ptr(t, Data(BlockOf(t.bs, k))) == 0
  }

  /** Every byte after a write: the data where it was written; elsewhere the old byte, but in
      a block that had to be created what was left in the buffer. */
  lemma NewByteIs(t: Tree, fpos: nat, data: seq<Byte>, garbage: Block, k: nat)
    requires ShapeOk(t) && k < Limit(t.bs) && |garbage| == t.bs
    ensures BlockOf(t.bs, k) < Reach(t.bs)
    ensures NewByte(t, fpos, data, garbage, k) ==
            if fpos <= k < fpos + |data| then data[k - fpos]
            else if !InCreated(t, fpos, |data|, k) then FileByte(t, k)
            else Left(t, fpos, data, garbage, BlockOf(t.bs, k))[OffsetOf(t.bs, k)]
  {
    hide ShapeOk, Reach, Ptr, DataBlock, Limit, BlockOf, OffsetOf, BlockStart, NewBlock, Left, PieceOf;
    hide PieceFrom, PieceEnd, Touched;
    ShapeSize(t);
    var bs, m := t.bs, BlockOf(t.bs, k);
    InReach(bs, k);
    DivBlock(k, m, bs);
    TouchedBytes(bs, fpos, |data|, m, k);
    ByteOfNewBlock(t, fpos, data, garbage, m, OffsetOf(bs, k));
  }

  lemma ByteOfNewBlock(t: Tree, fpos: nat, data: seq<Byte>, garbage: Block, m: nat, o: nat)
    requires ShapeOk(t) && m < Reach(t.bs) && |garbage| == t.bs && o < t.bs
    ensures var k := BlockStart(t.bs, m) + o;
            NewBlock(t, fpos, data, garbage, m)[o] ==
            if !Touched(t.bs, fpos, |data|, m) then DataBlock(t, m)[o]
            else if fpos <= k < fpos + |data| then data[k - fpos]
            else if Ptr(t, Data(m)) != 0 then DataBlock(t, m)[o]
            else Left(t, fpos, data, garbage, m)[o]
  {
    hide ShapeOk, Reach, Ptr, DataBlock, BlockOf, OffsetOf, BlockStart, Left, Touched, Patch, PieceOf;
    hide OffsetIn;
    ShapeSize(t);
    if Touched(t.bs, fpos, |data|, m) {
      PatchByte(if Ptr(t, Data(m)) != 0 then DataBlock(t, m) else Left(t, fpos, data, garbage, m), fpos, data, m, o);
    }
  }

  lemma PatchByte(blk: Block, fpos: nat, data: seq<Byte>, m: nat, o: nat)
    requires |blk| > 0 && Touched(|blk|, fpos, |data|, m) && o < |blk|
    ensures var k := BlockStart(|blk|, m) + o;
            Patch(blk, OffsetIn(|blk|, fpos, m), PieceOf(|blk|, fpos, data, m))[o] ==
            if fpos <= k < fpos + |data| then data[k - fpos] else blk[o]
  {
    hide BlockOf, OffsetOf, BlockStart, Touched, Patch, PieceOf, OffsetIn;
    PieceAt(|blk|, fpos, data, m, o);
    var at, piece := OffsetIn(|blk|, fpos, m), PieceOf(|blk|, fpos, data, m);
    if at <= o < at + |piece| { PieceIs(|blk|, fpos, data, m, o - at); }
  }

  lemma PieceAt(bs: nat, fpos: nat, data: seq<Byte>, m: nat, o: nat)
    requires bs > 0 && Touched(bs, fpos, |data|, m) && o < bs
    ensures fpos <= BlockStart(bs, m) + o < fpos + |data| <==>
              OffsetIn(bs, fpos, m) <= o < OffsetIn(bs, fpos, m) + |PieceOf(bs, fpos, data, m)|
  {
    hide BlockOf, OffsetOf, BlockStart, Touched;
    PieceBounds(bs, fpos, |data|, m);
  }

  lemma PieceIs(bs: nat, fpos: nat, data: seq<Byte>, m: nat, j: nat)
    requires bs > 0 && Touched(bs, fpos, |data|, m) && j < |PieceOf(bs, fpos, data, m)|
    ensures fpos <= BlockStart(bs, m) + OffsetIn(bs, fpos, m) + j < fpos + |data|
    ensures PieceOf(bs, fpos, data, m)[j] == data[BlockStart(bs, m) + OffsetIn(bs, fpos, m) + j - fpos]
  {
    hide BlockOf, OffsetOf, BlockStart, Touched;
    PieceBounds(bs, fpos, |data|, m);
  }

  /** What was left in the buffer: garbage in the first block, the block before in the others. */
  lemma LeftByteIs(t: Tree, fpos: nat, data: seq<Byte>, garbage: Block, k: nat)
    requires ShapeOk(t) && k < Limit(t.bs) && |garbage| == t.bs
    ensures BlockOf(t.bs, k) < Reach(t.bs)
    ensures var left := Left(t, fpos, data, garbage, BlockOf(t.bs, k))[OffsetOf(t.bs, k)];
            && (BlockOf(t.bs, k) <= BlockOf(t.bs, fpos) ==> left == garbage[OffsetOf(t.bs, k)])
            && (BlockOf(t.bs, k) > BlockOf(t.bs, fpos) ==>
                  k >= t.bs && left == NewByte(t, fpos, data, garbage, k - t.bs))
  {
    hide ShapeOk, Reach, Ptr, Limit, BlockOf, OffsetOf, NewBlock;
    ShapeSize(t);
    InReach(t.bs, k);
    if BlockOf(t.bs, k) > BlockOf(t.bs, fpos) { OneBlockBack(t.bs, k); }
  }

  lemma TouchedBytes(bs: nat, fpos: nat, n: nat, m: nat, k: nat)
    requires bs > 0
    ensures BlockStart(bs, m) <= k < BlockStart(bs, m) + bs && fpos <= k < fpos + n ==> Touched(bs, fpos, n, m)
  {
    hide BlockStart, BlockOf, OffsetOf;
    if BlockStart(bs, m) <= k < BlockStart(bs, m) + bs && fpos <= k < fpos + n {
      SplitAt(bs, fpos);
      BlockOrder(bs, BlockOf(bs, fpos), OffsetOf(bs, fpos), m, k - BlockStart(bs, m));
    }
  }

  lemma OneBlockBack(bs: nat, k: nat)
    requires bs > 0 && BlockOf(bs, k) > 0
    ensures k >= bs && BlockOf(bs, k - bs) == BlockOf(bs, k) - 1 && OffsetOf(bs, k - bs) == OffsetOf(bs, k)
  {
    hide BlockOf, OffsetOf, BlockStart;
    var m := BlockOf(bs, k);
    SplitAt(bs, k);
    BlockOrder(bs, m - 1, 0, m, 0);
    DivBlock(k - bs, m - 1, bs);
    DivBlock(k, m, bs);
  }

  /** The block that the write starts in is there, or has nothing in front of the data. */
  predicate FrontThere(t: Tree, fpos: nat)
    requires ShapeOk(t) && fpos < Limit(t.bs)
  {
    InReach(t.bs, fpos);
    OffsetOf(t.bs, fpos) > 0 ==> Ptr(t, Data(BlockOf(t.bs, fpos))) != 0
  }

  /** The block that the write ends in is there, or nothing of the file is in it behind the data, or
      it is not the one that the write starts in, and what is in front of the data in that one is
      there and happens to be zero wherever the last block repeats it. */
  predicate BehindKept(t: Tree, fpos: nat, n: nat)
    requires Bounded(t) && n > 0 && fpos + n <= Limit(t.bs)
  {
    var bs, end := t.bs, fpos + n;
    end < t.inode.size && OffsetOf(bs, end) > 0 ==>
      (InReach(bs, end);
       InReach(bs, fpos);
       || Ptr(t, Data(BlockOf(bs, end))) != 0
       || (&& BlockOf(bs, fpos) < BlockOf(bs, end) && Ptr(t, Data(BlockOf(bs, fpos))) != 0
           && forall k: nat :: end <= k < t.inode.size && BlockOf(bs, k) == BlockOf(bs, end) ==>
                bs <= k < fpos + bs && ZeroAt(t, k - bs)))
  }

  predicate ZeroAt(t: Tree, k: nat)
    requires ShapeOk(t)
  {
    k < Limit(t.bs) && (InReach(t.bs, k); FileByte(t, k) == 0)
  }

  /** No byte of the file changes but those that are written. */
  predicate Undisturbed(t: Tree, fpos: nat, n: nat)
    requires Bounded(t) && n > 0 && fpos + n <= Limit(t.bs)
  {
    FrontThere(t, fpos) && BehindKept(t, fpos, n)
  }

  /** A created block is the one that the write starts in or the one that it ends in, if it holds
      bytes beside the data. */
  lemma CreatedEnds(t: Tree, fpos: nat, n: nat, k: nat)
    requires Bounded(t) && n > 0 && fpos + n <= Limit(t.bs) && (k < fpos || fpos + n <= k) && k < Limit(t.bs)
    requires InCreated(t, fpos, n, k)
    ensures BlockOf(t.bs, k) < Reach(t.bs) && Ptr(t, Data(BlockOf(t.bs, k))) == 0
    ensures BlockOf(t.bs, fpos) <= BlockOf(t.bs, k)
    ensures k < fpos ==> BlockOf(t.bs, k) == BlockOf(t.bs, fpos) && OffsetOf(t.bs, fpos) > 0
    ensures fpos + n <= k ==> BlockOf(t.bs, k) == BlockOf(t.bs, fpos + n) && OffsetOf(t.bs, fpos + n) > 0
  {
    hide ShapeOk, Reach, Ptr, Limit, BlockOf, OffsetOf, BlockStart, PieceFrom, PieceEnd;
    ShapeSize(t);
    var bs, m := t.bs, BlockOf(t.bs, k);
    InReach(bs, k);
    DivBlock(k, m, bs);
    PieceBounds(bs, fpos, n, m);
    DivBlock(fpos, m, bs);
    DivBlock(fpos + n, m, bs);
  }

  lemma MissingByte(t: Tree, k: nat)
    requires TreeOk(t) && ShapeOk(t) && k < Limit(t.bs)
    ensures BlockOf(t.bs, k) < Reach(t.bs) && (Ptr(t, Data(BlockOf(t.bs, k))) == 0 ==> FileByte(t, k) == 0)
  {
    hide Ptr, Reach, Limit, BlockOf, OffsetOf;
    InReach(t.bs, k);
  }

  /** A byte in the block in front of k, if the write starts there. */
  lemma PresentFront(t: Tree, fpos: nat, n: nat, k: nat)
    requires ShapeOk(t) && n > 0 && k < Limit(t.bs) && t.bs <= k && k - t.bs < fpos < Limit(t.bs)
    requires BlockOf(t.bs, fpos) < BlockOf(t.bs, k)
    ensures BlockOf(t.bs, k - t.bs) == BlockOf(t.bs, fpos) < Reach(t.bs)
    ensures InCreated(t, fpos, n, k - t.bs) <==> Ptr(t, Data(BlockOf(t.bs, fpos))) == 0
  {
    hide ShapeOk, Reach, Ptr, Limit, BlockOf, OffsetOf, BlockStart;
    ShapeSize(t);
    var bs := t.bs;
    InReach(bs, fpos);
    InReach(bs, k - bs);
    OneBlockBack(bs, k);
    SplitAt(bs, fpos);
    SplitAt(bs, k - bs);
    BlockOrder(bs, BlockOf(bs, k - bs), OffsetOf(bs, k - bs), BlockOf(bs, fpos), OffsetOf(bs, fpos));
  }

  lemma UndisturbedByte(t: Tree, fpos: nat, data: seq<Byte>, garbage: Block, k: nat)
    requires TreeOk(t) && Bounded(t) && data != [] && fpos + |data| <= Limit(t.bs) && |garbage| == t.bs
    requires Undisturbed(t, fpos, |data|) && (k < fpos || fpos + |data| <= k < t.inode.size)
    ensures k < Limit(t.bs) && BlockOf(t.bs, k) < Reach(t.bs)
    ensures NewByte(t, fpos, data, garbage, k) == FileByte(t, k)
  {
    hide TreeOk, ShapeOk, Reach, Ptr, Limit, BlockOf, OffsetOf, NewByte, FileByte, Left, InCreated;
    var n := |data|;
    NewByteIs(t, fpos, data, garbage, k);
    if InCreated(t, fpos, n, k) {
      CreatedEnds(t, fpos, n, k);
      MissingByte(t, k);
      LeftByteIs(t, fpos, data, garbage, k);
      if k >= fpos {
        assert ZeroAt(t, k - t.bs);
        PresentFront(t, fpos, n, k);
        NewByteIs(t, fpos, data, garbage, k - t.bs);
      }
    }
  }

  function Ones(n: nat): (s: seq<Byte>)
    ensures |s| == n && forall i :: 0 <= i < n ==> s[i] == 1
  {
    seq<Byte>(n, _ => 1)
  }

  /** Where the condition fails, there are a buffer and data with which some byte changes. */
  lemma DisturbedFront(t: Tree, fpos: nat, n: nat) returns (k: nat)
    requires TreeOk(t) && Bounded(t) && n > 0 && fpos + n <= Limit(t.bs) && !FrontThere(t, fpos)
    ensures k < fpos && BlockOf(t.bs, k) < Reach(t.bs)
    ensures NewByte(t, fpos, Ones(n), Ones(t.bs), k) != FileByte(t, k)
  {
    hide TreeOk, ShapeOk, Reach, Ptr, Limit, BlockOf, OffsetOf, NewByte, FileByte, Left, BlockStart;
    ShapeSize(t);
    var bs := t.bs;
    k := BlockStart(bs, BlockOf(bs, fpos));
    SplitAt(bs, fpos);
    DivBlock(k, BlockOf(bs, fpos), bs);
    InReach(bs, k);
    MissingByte(t, k);
    NewByteIs(t, fpos, Ones(n), Ones(bs), k);
    LeftByteIs(t, fpos, Ones(n), Ones(bs), k);
  }

  lemma DisturbedBehind(t: Tree, fpos: nat, n: nat) returns (k: nat)
    requires TreeOk(t) && Bounded(t) && n > 0 && fpos + n <= Limit(t.bs) && !BehindKept(t, fpos, n)
    ensures fpos + n <= k < t.inode.size && BlockOf(t.bs, k) < Reach(t.bs)
    ensures NewByte(t, fpos, Ones(n), Ones(t.bs), k) != FileByte(t, k)
  {
    hide TreeOk, ShapeOk, Reach, Ptr, Limit, BlockOf, OffsetOf, NewByte, FileByte, Left, BlockStart, InCreated;
    ShapeSize(t);
    var bs, end := t.bs, fpos + n;
    InReach(bs, fpos);
    InReach(bs, end);
    var start, last := BlockOf(bs, fpos), BlockOf(bs, end);
    k := end;
    if start < last && Ptr(t, Data(start)) != 0 {
      k :| end <= k < t.inode.size && BlockOf(bs, k) == last && !(bs <= k < fpos + bs && ZeroAt(t, k - bs));
    }
    InReach(bs, k);
    LastCreated(t, fpos, n, k);
    MissingByte(t, k);
    NewByteIs(t, fpos, Ones(n), Ones(bs), k);
    LeftByteIs(t, fpos, Ones(n), Ones(bs), k);
    if start < last {
      NewByteIs(t, fpos, Ones(n), Ones(bs), k - bs);
      if k - bs < fpos {
        PresentFront(t, fpos, n, k);
        LeftByteIs(t, fpos, Ones(n), Ones(bs), k - bs);
      } else {
        WithinData(bs, fpos, n, k);
      }
    }
  }

  lemma LastCreated(t: Tree, fpos: nat, n: nat, k: nat)
    requires Bounded(t) && n > 0 && fpos + n <= k < Limit(t.bs) && BlockOf(t.bs, k) == BlockOf(t.bs, fpos + n)
    requires BlockOf(t.bs, k) < Reach(t.bs) && Ptr(t, Data(BlockOf(t.bs, k))) == 0 && OffsetOf(t.bs, fpos + n) > 0
    ensures BlockOf(t.bs, fpos) <= BlockOf(t.bs, fpos + n) && InCreated(t, fpos, n, k)
  {
    hide ShapeOk, Reach, Ptr, Limit, BlockOf, OffsetOf, BlockStart;
    ShapeSize(t);
    var bs := t.bs;
    SplitAt(bs, fpos);
    SplitAt(bs, fpos + n);
    BlockOrder(bs, BlockOf(bs, fpos), OffsetOf(bs, fpos), BlockOf(bs, fpos + n), OffsetOf(bs, fpos + n));
  }

  lemma WithinData(bs: nat, fpos: nat, n: nat, k: nat)
    requires bs > 0 && bs <= k && fpos <= k - bs && fpos + n <= k && BlockOf(bs, k) == BlockOf(bs, fpos + n)
    ensures k - bs < fpos + n
  {
    hide BlockOf, OffsetOf, BlockStart;
    SplitAt(bs, k);
    SplitAt(bs, fpos + n);
  }

  lemma MaxWithin(a: nat, b: nat, n: nat, k: nat, limit: nat)
    requires k < Max(a, b + n) && a <= limit && b + n <= limit
    ensures k < limit
  {
  }

  /** The contents after a write of anything: the length of the file, and the bytes as they are. */
  function NewContents(t: Tree, fpos: nat, data: seq<Byte>, garbage: Block): (s: seq<Byte>)
    requires Bounded(t) && data != [] && fpos + |data| <= Limit(t.bs) && |garbage| == t.bs
    ensures |s| == Max(t.inode.size, fpos + |data|)
  {
    seq<Byte>(Max(t.inode.size, fpos + |data|), k requires 0 <= k < Max(t.inode.size, fpos + |data|) =>
      NewByte(t, fpos, data, garbage, k))
  }

  lemma NewContentsAre(t: Tree, t': Tree, fpos: nat, data: seq<Byte>, garbage: Block)
    requires Bounded(t) && data != [] && fpos + |data| <= Limit(t.bs) && |garbage| == t.bs
    requires ShapeOk(t') && t'.bs == t.bs && t'.inode.size == Max(t.inode.size, fpos + |data|)
    requires forall m: nat :: m < Reach(t.bs) ==> DataBlock(t', m) == NewBlock(t, fpos, data, garbage, m)
    ensures Bounded(t') && Contents(t') == NewContents(t, fpos, data, garbage)
  {
    hide ShapeOk, Reach, Ptr, DataBlock, Limit, BlockOf, OffsetOf, NewBlock;
    ShapeSize(t);
    forall k: nat | k < t'.inode.size
      ensures Contents(t')[k] == NewContents(t, fpos, data, garbage)[k]
    {
      MaxWithin(t.inode.size, fpos, |data|, k, Limit(t.bs));
      InReach(t.bs, k);
    }
  }

  /** The old contents with the data laid over them. A write beyond the end takes in the bytes in
      between as they are. */
  function Expected(t: Tree, fpos: nat, data: seq<Byte>): seq<Byte>
    requires Bounded(t) && data != [] && fpos + |data| <= Limit(t.bs)
  {
    Overlaid(Bytes(t, Max(t.inode.size, fpos)), fpos, data)
  }

  lemma ExpectedAt(t: Tree, fpos: nat, data: seq<Byte>, k: nat)
    requires Bounded(t) && data != [] && fpos + |data| <= Limit(t.bs) && k < Max(t.inode.size, fpos + |data|)
    ensures |Expected(t, fpos, data)| == Max(t.inode.size, fpos + |data|)
    ensures BlockOf(t.bs, k) < Reach(t.bs)
    ensures Expected(t, fpos, data)[k] == if fpos <= k < fpos + |data| then data[k - fpos] else FileByte(t, k)
  {
    hide ShapeOk, Reach, Ptr, DataBlock, Limit, BlockOf, OffsetOf, FileByte;
    ShapeSize(t);
    MaxWithin(t.inode.size, fpos, |data|, k, Limit(t.bs));
    InReach(t.bs, k);
  }

  /** Writes of n bytes at fpos lay their data over the contents, whatever the data and whatever malloc
      left in the buffer, exactly if no other byte is disturbed. */
  lemma WriteIsOverlay(t: Tree, fpos: nat, n: nat)
    requires TreeOk(t) && Bounded(t) && n > 0 && fpos + n <= Limit(t.bs)
    ensures (forall data: seq<Byte>, garbage: Block :: |data| == n && |garbage| == t.bs ==>
               NewContents(t, fpos, data, garbage) == Expected(t, fpos, data))
            <==> Undisturbed(t, fpos, n)
  {
    hide TreeOk, ShapeOk, Reach, Ptr, Limit, BlockOf, OffsetOf, FrontThere, BehindKept, NewByte, FileByte, Expected;
    if Undisturbed(t, fpos, n) {
      forall data: seq<Byte>, garbage: Block | |data| == n && |garbage| == t.bs
        ensures NewContents(t, fpos, data, garbage) == Expected(t, fpos, data)
      {
        OverlayIfUndisturbed(t, fpos, data, garbage);
      }
    } else {
      ShapeSize(t);
      var k: nat;
      if !FrontThere(t, fpos) { k := DisturbedFront(t, fpos, n); } else { k := DisturbedBehind(t, fpos, n); }
      ExpectedAt(t, fpos, Ones(n), k);
      assert NewContents(t, fpos, Ones(n), Ones(t.bs))[k] != Expected(t, fpos, Ones(n))[k];
    }
  }

  lemma OverlayIfUndisturbed(t: Tree, fpos: nat, data: seq<Byte>, garbage: Block)
    requires TreeOk(t) && Bounded(t) && data != [] && fpos + |data| <= Limit(t.bs) && |garbage| == t.bs
    requires Undisturbed(t, fpos, |data|)
    ensures NewContents(t, fpos, data, garbage) == Expected(t, fpos, data)
  {
    hide TreeOk, ShapeOk, Reach, Ptr, Limit, BlockOf, OffsetOf, Undisturbed, NewByte, FileByte, Expected, InCreated;
    ExpectedAt(t, fpos, data, 0);
    forall k: nat | k < Max(t.inode.size, fpos + |data|)
      ensures NewContents(t, fpos, data, garbage)[k] == Expected(t, fpos, data)[k]
    {
      ExpectedAt(t, fpos, data, k);
      NewByteIs(t, fpos, data, garbage, k);
      if !(fpos <= k < fpos + |data|) { UndisturbedByte(t, fpos, data, garbage, k); }
    }
  }

  /** The bytes in front of the data are kept, whatever malloc left in the buffer, exactly if
      there are none in that block or the block was there. */
  lemma FrontKept(t: Tree, fpos: nat, data: seq<Byte>)
    requires TreeOk(t) && data != [] && fpos + |data| <= Limit(t.bs)
    ensures BlockOf(t.bs, fpos) < Reach(t.bs)
    ensures var start, off := BlockOf(t.bs, fpos), OffsetOf(t.bs, fpos);
            (forall garbage: Block :: |garbage| == t.bs ==>
               NewBlock(t, fpos, data, garbage, start)[..off] == DataBlock(t, start)[..off])
            <==> off == 0 || Ptr(t, Data(start)) != 0
  {
    hide ShapeOk, Reach, Ptr, Limit, BlockOf, OffsetOf, BlockStart;
    ShapeSize(t);
    var bs := t.bs;
    InReach(bs, fpos);
    var start, off := BlockOf(bs, fpos), OffsetOf(bs, fpos);
    SplitAt(bs, fpos);
    assert Touched(bs, fpos, |data|, start) && OffsetIn(bs, fpos, start) == off;
    if off > 0 && Ptr(t, Data(start)) == 0 {
      var ones: Block := seq(bs, _ => 1);
      assert NewBlock(t, fpos, data, ones, start)[..off][0] == 1;
      assert DataBlock(t, start)[..off][0] == 0;
    }
  }
}
