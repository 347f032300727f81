/** Reading and writing a file of an ext2 volume at a byte position. */
module Ext2File {
  import opened Ext2Disk
  import opened Ext2Tree
  import opened Ext2Inode
  import opened Ext2Bytes
  import opened Bits
  import opened Common

  // ----- the sector count

  /** The sector count covers every block that is there. */
  ghost predicate Covered(t: Tree)
    requires ShapeOk(t)
  {
    forall b: nat :: b < Reach(t.bs) && Ptr(t, Data(b)) != 0 ==> t.inode.sectors >= SectorsTo(t.bs, b)
  }

  lemma BeyondCount(t: Tree, b: nat)
    requires ShapeOk(t) && Covered(t) && b < Reach(t.bs) && t.bs >= 512
    ensures Ptr(t, Data(b)) != 0 ==> b < Counted(t)
  {
    hide ShapeOk, Ptr, Reach;
    if Ptr(t, Data(b)) != 0 { DivGe(t.inode.sectors, b + 1, t.bs / 512); }
  }

  lemma FilledCovered(t: Tree, t': Tree, taken: set<nat>, blocks: set<nat>)
    requires Filled(t, t', taken, blocks) && ShapeOk(t) && Covered(t)
    ensures ShapeOk(t') && Covered(t')
  {
    hide Evolves, ShapeOk, Ptr, Reach, Ways, SectorsTo;
    forall b: nat | b < Reach(t.bs) && Ptr(t', Data(b)) != 0
      ensures t'.inode.sectors >= SectorsTo(t.bs, b)
    {
      if b !in blocks { assert OffWay(t, Data(b), blocks); }
    }
  }

  // ----- one block at a time

  /** t' is t with piece written at off of logical block b; if there was no such block, the rest
      of the new one is what was in the buffer. */
  ghost predicate PieceWritten(t: Tree, t': Tree, taken: set<nat>, b: nat, off: nat, piece: seq<Byte>, buffer: Block) {
    && Evolves(t, t', taken) && ShapeOk(t) && ShapeOk(t') && b < Reach(t.bs) && off + |piece| <= t.bs == |buffer|
    && t'.inode.size == t.inode.size && Covered(t')
    && PtrsPut(t, t', CreatedFor(t, b))
    && (forall m: nat :: m < Reach(t.bs) && m != b ==> DataBlock(t', m) == DataBlock(t, m))
    && DataBlock(t', b) == Patch(if Ptr(t, Data(b)) != 0 then DataBlock(t, b) else buffer, off, piece)
  }

  /** Added blocks hold what reading them gave before. */
  lemma FilledSame(t: Tree, t': Tree, taken: set<nat>, b: nat)
    requires TreeOk(t) && ShapeOk(t) && Covered(t) && t.bs >= 512 && b < Reach(t.bs)
    requires Filled(t, t', taken, CreatedFor(t, b))
    ensures ShapeOk(t') && t'.bs == t.bs
    ensures forall m: nat :: m < Reach(t.bs) && m != b ==> DataBlock(t', m) == DataBlock(t, m)
  {
    hide Evolves, Ways, Reach, Ptr, Counted, Grown;
    forall m: nat | m < Reach(t.bs) && m != b
      ensures DataBlock(t', m) == DataBlock(t, m)
    {
      if m in CreatedFor(t, b) { BeyondCount(t, m); }
    }
  }

  lemma PieceParts(t: Tree, t1: Tree, taken: set<nat>, taken1: set<nat>, b: nat, off: nat, piece: seq<Byte>,
                   buffer: Block,
                   n: nat, data: Block)
    requires Whole(t, taken) && Whole(t1, taken1) && ShapeOk(t) && ShapeOk(t1) && Covered(t) && t.bs >= 512
    requires b < Reach(t.bs) && off + |piece| <= t.bs == |buffer|
    requires Filled(t, t1, taken, CreatedFor(t, b)) && (Ptr(t, Data(b)) != 0 ==> t1 == t)
    requires n == Ptr(t1, Data(b)) != 0 && n in taken1
    requires data == Patch(if Ptr(t, Data(b)) != 0 then DataBlock(t, b) else buffer, off, piece)
    ensures PieceWritten(t, Written(t1, n, data), taken, b, off, piece, buffer) && Whole(Written(t1, n, data), taken1)
  {
    hide Whole, Evolves, Filled, Ptr, Unreferenced, ShapeOk, TreeOk, Reach, BlockAt, Patch, CreatedFor;
    hide NotIndex, PtrsPut, Covered;
    var t2 := Written(t1, n, data);
    FilledParts(t, t1, taken, CreatedFor(t, b));
    NewOrOwn(t, t1, taken, b);
    StoreData(t1, b, data);
    DataIsNoIndex(t1, b);
    EvolvesWrite(t, t1, taken, n, data);
    EvolvesTree(t, t2, taken);
    FilledSame(t, t1, taken, b);
    FilledCovered(t, t1, taken, CreatedFor(t, b));
    SamePtrs(t, t1, t2, CreatedFor(t, b));
    WholeWritten(t1, n, data, taken1);
  }

  lemma FilledParts(t: Tree, t': Tree, taken: set<nat>, blocks: set<nat>)
    requires Filled(t, t', taken, blocks)
    ensures Evolves(t, t', taken) && TreeOk(t) && TreeOk(t') && PtrsPut(t, t', blocks) && t'.bs == t.bs
    ensures t'.inode.size == t.inode.size
  {
  }

  /** A block that is written is one of the file's own, or was free. */
  lemma NewOrOwn(t: Tree, t1: Tree, taken: set<nat>, b: nat)
    requires ShapeOk(t) && ShapeOk(t1) && b < Reach(t.bs) && Filled(t, t1, taken, CreatedFor(t, b))
    requires Ptr(t, Data(b)) != 0 ==> t1 == t
    ensures t1.bs == t.bs && (Ptr(t1, Data(b)) !in taken || !Unreferenced(t, Ptr(t1, Data(b))))
  {
  }

  lemma SamePtrs(t: Tree, t1: Tree, t2: Tree, blocks: set<nat>)
    requires PtrsPut(t, t1, blocks) && ShapeOk(t1) && Covered(t1) && ShapeOk(t2) && t2.bs == t1.bs
    requires t2.inode == t1.inode
    requires forall l :: LocOk(t1.bs, l) ==> Ptr(t2, l) == Ptr(t1, l)
    ensures PtrsPut(t, t2, blocks) && Covered(t2)
  {
    hide ShapeOk, Ptr, Reach, SectorsTo;
    forall l | l in Ways(t.bs, blocks)
      ensures LocOk(t.bs, l) && Ptr(t2, l) != 0
    {
      WayIsIndex(t.bs, blocks, l);
    }
  }

  lemma EvolvesTree(t: Tree, t': Tree, taken: set<nat>)
    requires Evolves(t, t', taken)
    ensures TreeOk(t) && TreeOk(t') && ShapeOk(t) && ShapeOk(t') && t'.bs == t.bs
  {
  }

  // ----- what has been written so far

  /** The blocks created once a write from block start on has come to block b. */
  function Created(t: Tree, start: nat, b: nat): set<nat>
    requires ShapeOk(t)
  {
    if b <= start || start >= Reach(t.bs) then {}
    else CreatedFor(t, start) + set m | m in Range(start, b) && m < Reach(t.bs) && Ptr(t, Data(m)) == 0
  }

  /** The blocks created by a write of n bytes at fpos. */
  function CreatedBy(t: Tree, fpos: nat, n: nat): set<nat>
    requires ShapeOk(t)
  {
    if n == 0 then {} else Created(t, BlockOf(t.bs, fpos), BlocksFor(fpos + n, t.bs))
  }

  /** The write has come to block b. */
  ghost predicate WriteState(t0: Tree, t: Tree, taken0: set<nat>, fpos: nat, data: seq<Byte>, garbage: Block, b: nat) {
    && Evolves(t0, t, taken0) && ShapeOk(t0) && ShapeOk(t) && t.inode.size == t0.inode.size && |garbage| == t.bs
    && Covered(t) && PtrsPut(t0, t, Created(t0, BlockOf(t.bs, fpos), b))
    && (b <= BlockOf(t.bs, fpos) ==> t == t0)
    && (forall m: nat :: m < Reach(t.bs) ==>
          DataBlock(t, m) == if m < b then NewBlock(t0, fpos, data, garbage, m) else DataBlock(t0, m))
  }

  lemma WriteBegin(t: Tree, taken: set<nat>, fpos: nat, data: seq<Byte>, garbage: Block)
    requires Whole(t, taken) && ShapeOk(t) && Covered(t) && |garbage| == t.bs
    ensures WriteState(t, t, taken, fpos, data, garbage, BlockOf(t.bs, fpos))
  {
    WholeEvolves(t, taken);
    PtrsPutNone(t);
    hide Evolves, ShapeOk, Ptr, Reach, BlockOf;
  }

  lemma WholeEvolves(t: Tree, taken: set<nat>)
    requires Whole(t, taken)
    ensures Evolves(t, t, taken) && ShapeOk(t) && t.bs >= 512
  {
  }

  /** What is created for a block when the write comes to it. */
  lemma CreatedNext(t0: Tree, t: Tree, taken0: set<nat>, fpos: nat, data: seq<Byte>, garbage: Block, b: nat)
    requires WriteState(t0, t, taken0, fpos, data, garbage, b) && BlockOf(t.bs, fpos) <= b < Reach(t.bs) && t.bs >= 512
    ensures ShapeOk(t0) && ShapeOk(t)
    ensures var start := BlockOf(t.bs, fpos);
            && Created(t0, start, b + 1) == Created(t0, start, b) + CreatedFor(t, b)
            && CreatedFor(t, b) !! Created(t0, start, b)
    ensures Ptr(t, Data(b)) == 0 <==> Ptr(t0, Data(b)) == 0
  {
    hide Evolves, ShapeOk, Ptr, Reach, BlockOf, Ways, NewBlock, Counted, DataBlock;
    var start := BlockOf(t.bs, fpos);
    if b > start {
      assert OffWay(t0, Data(b), Created(t0, start, b));
      BlockThere(t0, t, start, b - 1, b);
      BeyondCount(t, b - 1);
    }
  }

  lemma BlockThere(t0: Tree, t: Tree, start: nat, m: nat, b: nat)
    requires ShapeOk(t0) && start <= m < b && m < Reach(t0.bs) && PtrsPut(t0, t, Created(t0, start, b))
    ensures Ptr(t, Data(m)) != 0
  {
    hide ShapeOk, Ptr, Reach, Ways;
    var blocks := Created(t0, start, b);
    if m !in blocks { assert OffWay(t0, Data(m), blocks); }
  }

  lemma WriteStep(t0: Tree, t: Tree, t': Tree, taken0: set<nat>, taken: set<nat>, fpos: nat, data: seq<Byte>,
                  garbage: Block,
                  b: nat, buffer: Block)
    requires WriteState(t0, t, taken0, fpos, data, garbage, b) && taken0 <= taken && t.bs >= 512
    requires b < Reach(t.bs) && Touched(t.bs, fpos, |data|, b) && ShapeOk(t0)
    requires buffer == Left(t0, fpos, data, garbage, b)
    requires PieceWritten(t, t', taken, b, OffsetIn(t.bs, fpos, b), PieceOf(t.bs, fpos, data, b), buffer)
    ensures WriteState(t0, t', taken0, fpos, data, garbage, b + 1)
    ensures DataBlock(t', b) == Left(t0, fpos, data, garbage, b + 1)
  {
    hide ShapeOk, Ptr, Reach, Evolves, Covered, BlockOf, Left, PieceOf, OffsetIn, DataBlock, PtrsPut, Created;
    hide CreatedFor;
    CreatedNext(t0, t, taken0, fpos, data, garbage, b);
    EvolvesTrans(t0, t, t', taken0, taken);
    PtrsPutTrans(t0, t, t', Created(t0, BlockOf(t.bs, fpos), b), CreatedFor(t, b));
    LeftBehind(t0, fpos, data, garbage, b);
  }

  lemma LeftBehind(t: Tree, fpos: nat, data: seq<Byte>, garbage: Block, b: nat)
    requires ShapeOk(t) && b < Reach(t.bs) && |garbage| == t.bs && Touched(t.bs, fpos, |data|, b)
    ensures Left(t, fpos, data, garbage, b + 1) == NewBlock(t, fpos, data, garbage, b)
  {
    hide NewBlock;
  }

  // ----- the pieces that the code cuts the data into

  lemma SinglePiece(bs: nat, fpos: nat, data: seq<Byte>)
    requires bs > 0 && data != [] && BlockOf(bs, fpos) == BlockOf(bs, fpos + |data|)
    ensures var start := BlockOf(bs, fpos);
            && Touched(bs, fpos, |data|, start) && OffsetIn(bs, fpos, start) == OffsetOf(bs, fpos)
            && PieceOf(bs, fpos, data, start) == data
  {
    hide BlockOf, OffsetOf, BlockStart;
    SplitAt(bs, fpos);
    SplitAt(bs, fpos + |data|);
  }

  lemma FirstPiece(bs: nat, fpos: nat, data: seq<Byte>)
    requires bs > 0 && BlockOf(bs, fpos) < BlockOf(bs, fpos + |data|)
    ensures var start, coff := BlockOf(bs, fpos), OffsetOf(bs, fpos);
            && bs - coff <= |data| && Touched(bs, fpos, |data|, start) && OffsetIn(bs, fpos, start) == coff
            && PieceOf(bs, fpos, data, start) == data[..bs - coff]
  {
    hide BlockOf, OffsetOf, BlockStart;
    SplitAt(bs, fpos);
    SplitAt(bs, fpos + |data|);
    BlockOrder(bs, BlockOf(bs, fpos), 0, BlockOf(bs, fpos + |data|), 0);
  }

  lemma LaterPiece(bs: nat, fpos: nat, data: seq<Byte>, m: nat, at: nat, n: nat)
    requires bs > 0 && BlockOf(bs, fpos) < m && fpos + at == BlockStart(bs, m) && at + n <= |data|
    requires 0 < n == Min(bs, |data| - at)
    ensures Touched(bs, fpos, |data|, m) && OffsetIn(bs, fpos, m) == 0 && PieceOf(bs, fpos, data, m) == data[at..at + n]
  {
    hide BlockOf, OffsetOf, BlockStart;
  }

  /** How many blocks the write goes through. */
  lemma LastBlock(bs: nat, end: nat)
    requires bs > 0
    ensures BlocksFor(end, bs) == BlockOf(bs, end) + if OffsetOf(bs, end) > 0 then 1 else 0
  {
    hide BlocksFor, BlockOf, OffsetOf, BlockStart;
    var b, n := BlockOf(bs, end), BlocksFor(end, bs);
    SplitAt(bs, end);
    EnoughBlocks(bs, end, b);
    EnoughBlocks(bs, end, b + 1);
    BlockOrder(bs, b, 0, b, 0);
    if b > 0 {
      EnoughBlocks(bs, end, b - 1);
      BlockOrder(bs, b - 1, 0, b, 0);
    }
  }

  lemma EnoughBlocks(bs: nat, end: nat, n: nat)
    requires bs > 0
    ensures BlocksFor(end, bs) <= n <==> end <= BlockStart(bs, n)
  {
    hide BlocksFor;
    BlocksForBound(end, bs, n);
  }

  lemma CreatedGrows(t: Tree, start: nat, a: nat, b: nat)
    requires ShapeOk(t) && a <= b
    ensures Created(t, start, a) <= Created(t, start, b)
  {
    hide ShapeOk, Ptr, Reach, CreatedFor;
  }

  /** Beyond its last block the write changes nothing. */
  lemma WriteDone(t0: Tree, t: Tree, taken0: set<nat>, taken: set<nat>, fpos: nat, data: seq<Byte>, garbage: Block)
    requires data != [] && t.bs > 0
    requires WriteState(t0, t, taken0, fpos, data, garbage, BlocksFor(fpos + |data|, t.bs)) && Whole(t, taken)
    requires Bounded(t0) && fpos + |data| <= Limit(t.bs)
    ensures var t' := t.(inode := t.inode.(sectors := t.inode.sectors, size := Max(t0.inode.size, fpos + |data|)));
            && Whole(t', taken) && Bounded(t') && Covered(t') && Evolves(t0, t', taken0)
            && PtrsPut(t0, t', CreatedBy(t0, fpos, |data|))
            && forall m: nat :: m < Reach(t.bs) ==> DataBlock(t', m) == NewBlock(t0, fpos, data, garbage, m)
  {
    hide BlocksFor, Limit, Reach, Whole, Evolves, TreeOk, Ptr, ShapeOk, NewBlock, BlockOf, Created, PtrsPut;
    hide DataBlock, Covered;
    var size := Max(t0.inode.size, fpos + |data|);
    var t' := t.(inode := t.inode.(sectors := t.inode.sectors, size := size));
    EvolvesTree(t0, t, taken0);
    InodeCounters(t, t.inode.sectors, size);
    WholeCounters(t, t.inode.sectors, size, taken);
    EvolvesTrans(t0, t, t', taken0, taken0);
    EvolvesTree(t0, t', taken0);
    SameBlocks(t, t');
    SizedPtrs(t0, t, t', Created(t0, BlockOf(t.bs, fpos), BlocksFor(fpos + |data|, t.bs)));
    forall m: nat | m < Reach(t.bs)
      ensures DataBlock(t', m) == NewBlock(t0, fpos, data, garbage, m)
    {
      BeyondWrite(t0, fpos, data, garbage, m);
    }
  }

  lemma SizedPtrs(t: Tree, t1: Tree, t2: Tree, blocks: set<nat>)
    requires PtrsPut(t, t1, blocks) && ShapeOk(t1) && Covered(t1) && ShapeOk(t2) && t2.bs == t1.bs
    requires t2.inode.sectors == t1.inode.sectors
    requires forall l :: LocOk(t1.bs, l) ==> Ptr(t2, l) == Ptr(t1, l)
    ensures PtrsPut(t, t2, blocks) && Covered(t2)
  {
    hide ShapeOk, Ptr, Reach, SectorsTo;
    forall l | l in Ways(t.bs, blocks)
      ensures LocOk(t.bs, l) && Ptr(t2, l) != 0
    {
      WayIsIndex(t.bs, blocks, l);
    }
  }

  lemma BeyondWrite(t: Tree, fpos: nat, data: seq<Byte>, garbage: Block, m: nat)
    requires ShapeOk(t) && m < Reach(t.bs) && |garbage| == t.bs
    ensures m >= BlocksFor(fpos + |data|, t.bs) ==> NewBlock(t, fpos, data, garbage, m) == DataBlock(t, m)
  {
    hide ShapeOk, Reach, Ptr, DataBlock, BlocksFor, BlockStart;
    ShapeSize(t);
    EnoughBlocks(t.bs, fpos + |data|, m);
  }

  lemma NothingWritten(t: Tree, fpos: nat, garbage: Block)
    requires ShapeOk(t) && |garbage| == t.bs
    ensures PtrsPut(t, t, CreatedBy(t, fpos, 0)) && Cost(t, CreatedBy(t, fpos, 0)) == 0
    ensures forall m: nat :: m < Reach(t.bs) ==> DataBlock(t, m) == NewBlock(t, fpos, [], garbage, m)
  {
    CostNone(t);
    PtrsPutNone(t);
  }

  /** The first n blocks are there. */
  ghost predicate HasBlocks(t: Tree, n: nat)
    requires ShapeOk(t)
  {
    n <= Reach(t.bs) && forall b: nat :: b < n ==> Ptr(t, Data(b)) != 0
  }

  /** A file without holes has none after a write that starts within it or at its end, and no such
      write disturbs it. */
  lemma StaysWithoutHoles(t: Tree, t': Tree, fpos: nat, n: nat)
    requires Bounded(t) && HasBlocks(t, BlocksFor(t.inode.size, t.bs)) && fpos <= t.inode.size && n > 0
    requires fpos + n <= Limit(t.bs) && PtrsPut(t, t', CreatedBy(t, fpos, n))
    ensures HasBlocks(t', BlocksFor(Max(t.inode.size, fpos + n), t.bs)) && Undisturbed(t, fpos, n)
  {
    hide ShapeOk, Ptr, Reach, Ways, BlocksFor, BlockOf, OffsetOf, BlockStart, Limit, CreatedFor;
    ShapeSize(t);
    var bs, size, end := t.bs, t.inode.size, fpos + n;
    var start, all := BlockOf(bs, fpos), CreatedBy(t, fpos, n);
    InReach(bs, fpos);
    SplitAt(bs, fpos);
    EnoughBlocks(bs, size, start);
    BlocksInReach(bs, size);
    BlocksInReach(bs, end);
    forall b: nat | b < BlocksFor(Max(size, end), bs)
      ensures Ptr(t', Data(b)) != 0
    {
      StartsWithin(bs, size, b, start);
      if b !in all { assert OffWay(t, Data(b), all); }
    }
    if end < size {
      InReach(bs, end);
      SplitAt(bs, end);
      EnoughBlocks(bs, size, BlockOf(bs, end));
    }
  }

  lemma BlocksInReach(bs: nat, n: nat)
    requires bs > 0
    ensures n <= Limit(bs) ==> BlocksFor(n, bs) <= Reach(bs)
  {
    hide Reach, BlocksFor;
    EnoughBlocks(bs, n, Reach(bs));
  }

  lemma StartsWithin(bs: nat, size: nat, b: nat, start: nat)
    requires bs > 0 && BlockStart(bs, start) <= size
    ensures b < start ==> b < BlocksFor(size, bs)
  {
    hide BlocksFor, BlockStart;
    EnoughBlocks(bs, size, b);
    BlockOrder(bs, b, 0, start, 0);
  }

  /** An open file. */
  class File {
    const fs: FileSystem
    const ino: nat
    var fpos: nat
    var length: nat

    constructor (fs: FileSystem, ino: nat)
      ensures this.fs == fs && this.ino == ino && fpos == 0
    {
      this.fs, this.ino, fpos, length := fs, ino, 0, 0;
    }

    ghost function T(): Tree
      requires ino in fs.inodes
      reads this, fs
    {
      fs.TreeOf(ino)
    }

    ghost predicate Readable()
      reads this, fs, fs.vol
    {
      fs.Valid(ino) && Bounded(T())
    }

    ghost predicate Valid()
      reads this, fs, fs.vol
    {
      Readable() && Covered(T())
    }

    /** ext2_file_read_block */
    method FileReadBlock(inode: Inode, b: nat) returns (buf: Block)
      requires TreeOk(Tree(fs.bs, fs.disk, inode)) && b < Reach(fs.bs)
      ensures buf == DataBlock(Tree(fs.bs, fs.disk, inode), b)
      ensures |buf| == fs.bs && forall j :: 0 <= j < fs.bs ==>
                buf[j] == DiskByte(fs.disk, Pointer(fs.bs, fs.disk, inode, b), j)
    {
      hide TreeOk, ShapeOk, Ptr, Put, HomeOf, Reachable, Reach, Written, SetWord, Word, BlockAt, Pointer, DiskByte;
      ghost var t := Tree(fs.bs, fs.disk, inode);
      TreeShape(t);
      PtrIsPointer(t, b);
      PtrsOfInode(t);
      var p := PerBlock(fs.bs);
      if b < 12 {
        return fs.ReadBlock(inode.dbp[b]);
      }
      HomesOfData(fs.bs, b);
      PtrInBlock(t, Data(b), 0);
      if b < 12 + p {
        var bb := fs.ReadBlock(inode.singly);
        return fs.ReadBlock(Word(bb, b - 12));
      }
      var x := b - 12 - p;
      var c := x / p;
      var d := x - c * p;
      HomeOfMid(fs.bs, c);
      PtrInBlock(t, Mid(c), 0);
      var buf1 := fs.ReadBlock(inode.doubly);
      buf1 := fs.ReadBlock(Word(buf1, c));
      buf := fs.ReadBlock(Word(buf1, d));
    }

    /** Part of block b of the file into the caller's buffer, behind the total bytes that are
        there already. */
    method CopyNext(inode: Inode, b: nat, off: nat, n: nat, buf: array<Byte>, total: nat, ghost start: nat,
                    ghost buf0: seq<Byte>)
      requires fs.Valid(ino) && inode == fs.inodes[ino] && ShapeOk(T()) && inode.size <= Limit(fs.bs)
      requires b < Reach(fs.bs)
      requires off + n <= fs.bs && total + n <= buf.Length && start + total == BlockStart(fs.bs, b) + off
      requires start + total + n <= inode.size
      requires Copied(T(), buf[..], buf0, start, total)
      modifies buf
      ensures Copied(T(), buf[..], buf0, start, total + n)
    {
      hide TreeOk, ShapeOk, DataBlock, Reach, Limit, Whole, Ext2Alloc.Consistent, Ext2Alloc.TakenSet;
      hide Contents, Copied, BlockStart;
      WholeTree(T(), fs.Taken());
      var buffer := FileReadBlock(inode, b);
      ghost var before := buf[..];
      forall j | 0 <= j < n {
        buf[total + j] := buffer[off + j];
      }
      SliceOfBlock(T(), b, off, n);
      assert buf[total..total + n] == buffer[off..off + n];
      CopiedMore(T(), before, buf[..], buf0, start, total, n);
    }

    /** ext2_read_file: the bytes from the file position on, up to count of them or to the end. */
    method ReadFile(buf: array<Byte>, count: nat) returns (rc: nat)
      requires Readable() && count <= buf.Length
      modifies this`fpos, buf
      ensures Readable() && fpos == old(fpos) + rc
      ensures rc == if fs.inodes[ino].size <= old(fpos) then 0 else Min(count, fs.inodes[ino].size - old(fpos))
      ensures rc > 0 ==> buf[..rc] == Contents(T())[old(fpos)..old(fpos) + rc]
      ensures buf[rc..] == old(buf[rc..])
    {
      hide TreeOk, ShapeOk, DataBlock, Reach, Limit, Whole, Ext2Alloc.Consistent, Ext2Alloc.TakenSet;
      hide Contents, Copied;
      if count == 0 { return 0; }
      var inode := fs.inodes[ino];
      if fpos >= inode.size { return 0; }
      ghost var buf0 := buf[..];
      var end := if fpos + count > inode.size then inode.size else fpos + count;
      var total := ReadAll(inode, end, buf, buf0);
      CopiedAll(T(), buf[..], buf0, fpos, total);
      fpos := fpos + total;
      rc := total;
    }

    /** The part of ext2_read_file that reads the blocks. */
    method ReadAll(inode: Inode, end: nat, buf: array<Byte>, ghost buf0: seq<Byte>) returns (total: nat)
      requires Readable() && inode == fs.inodes[ino] && fpos < end <= inode.size && end - fpos <= buf.Length
      requires buf0 == buf[..]
      modifies buf
      ensures total == end - fpos && Copied(T(), buf[..], buf0, fpos, total)
    {
      hide TreeOk, ShapeOk, DataBlock, Reach, Limit, Whole, Ext2Alloc.Consistent, Ext2Alloc.TakenSet;
      hide Contents, Copied, BlockStart, BlockOf, OffsetOf;
      WholeTree(T(), fs.Taken());
      var bs := fs.bs;
      var coff, startBlock := OffsetOf(bs, fpos), BlockOf(bs, fpos);
      SplitAt(bs, fpos);
      SplitAt(bs, end);
      var endBlock := BlockOf(bs, end);
      var endSize := end - BlockStart(bs, endBlock);
      var toRead := end - fpos;
      CopiedNone(T(), buf0, fpos);
      BlockOrder(bs, startBlock, coff, endBlock, endSize);
      EndInReach(bs, endBlock, endSize);
      if startBlock == endBlock {
        CopyNext(inode, startBlock, coff, toRead, buf, 0, fpos, buf0);
        total := toRead;
      } else {
        var blocksRead;
        blocksRead, total := ReadBlocks(inode, startBlock, coff, endBlock, buf, fpos, buf0);
        if endSize > 0 {
          CopyNext(inode, endBlock, 0, endSize, buf, bs * blocksRead - coff, fpos, buf0);
          total := total + endSize;
        }
      }
    }

    /** The loop of ext2_read_file over the blocks that are read up to their end. */
    method ReadBlocks(inode: Inode, startBlock: nat, coff: nat, endBlock: nat, buf: array<Byte>, ghost pos: nat,
                      ghost buf0: seq<Byte>)
      returns (blocksRead: nat, total: nat)
      requires fs.Valid(ino) && inode == fs.inodes[ino] && ShapeOk(T()) && inode.size <= Limit(fs.bs)
      requires endBlock <= Reach(fs.bs)
      requires coff < fs.bs && startBlock < endBlock && pos == BlockStart(fs.bs, startBlock) + coff
      requires BlockStart(fs.bs, endBlock) <= inode.size && BlockStart(fs.bs, endBlock) - pos <= buf.Length
      requires Copied(T(), buf[..], buf0, pos, 0)
      modifies buf
      ensures pos + total == BlockStart(fs.bs, endBlock) && total == fs.bs * blocksRead - coff
      ensures Copied(T(), buf[..], buf0, pos, total)
    {
      hide TreeOk, ShapeOk, DataBlock, Reach, Limit, Whole, Ext2Alloc.Consistent, Ext2Alloc.TakenSet;
      hide Contents, Copied, BlockStart;
      var bs := fs.bs;
      var blockOffset: nat := startBlock;
      blocksRead, total := 0, 0;
      while blockOffset < endBlock
        invariant startBlock <= blockOffset <= endBlock && blocksRead == blockOffset - startBlock
        invariant pos + total == if blocksRead == 0 then pos else BlockStart(bs, blockOffset)
        invariant Copied(T(), buf[..], buf0, pos, total)
      {
        BlockOrder(bs, blockOffset, 0, endBlock, 0);
        if blockOffset == startBlock {
          CopyNext(inode, blockOffset, coff, bs - coff, buf, 0, pos, buf0);
          total := total + (bs - coff);
        } else {
          BlockAtOffset(bs, pos, startBlock, coff, blockOffset);
          CopyNext(inode, blockOffset, 0, bs, buf, bs * blocksRead - coff, pos, buf0);
          total := total + bs;
        }
        blockOffset, blocksRead := blockOffset + 1, blocksRead + 1;
      }
      BlockAtOffset(bs, pos, startBlock, coff, endBlock);
    }

    /** Reading or creating block b, copying a piece over it and writing it back. */
    method WritePiece(b: nat, off: nat, piece: seq<Byte>, buffer: Block) returns (buffer': Block)
      requires fs.Valid(ino) && b < Reach(fs.bs) && ShapeOk(T()) && Covered(T()) && off + |piece| <= fs.bs == |buffer|
      requires fs.vol.unallocated >= Cost(T(), CreatedFor(T(), b))
      modifies fs, fs.vol
      ensures fs.Valid(ino) && old(fs.Taken()) <= fs.Taken()
      ensures fs.vol.unallocated == old(fs.vol.unallocated) - Cost(old(T()), CreatedFor(old(T()), b))
      ensures fs.inodes == old(fs.inodes)[ino := fs.inodes[ino]]
      ensures PieceWritten(old(T()), T(), old(fs.Taken()), b, off, piece, buffer) && buffer' == DataBlock(T(), b)
    {
      hide TreeOk, ShapeOk, Ptr, DataBlock, Reach, Whole, Ext2Alloc.Consistent, Ext2Alloc.TakenSet, Evolves;
      hide Filled, Unreferenced, PieceWritten, BlockAt, Patch, Cost, CreatedFor, Covered;
      ghost var t, taken := T(), fs.Taken();
      WholeEvolves(t, taken);
      var inode, where, buf := fs.ReadOrCreate(ino, b, buffer);
      ghost var t1 := T();
      buffer' := Patch(buf, off, piece);
      PieceParts(t, t1, taken, fs.Taken(), b, off, piece, buffer, where, buffer');
      PieceThere(t, Written(t1, where, buffer'), taken, b, off, piece, buffer);
      fs.disk := fs.disk[where := buffer'];
      assert T() == Written(t1, where, buffer');
    }

    /** What ext2_write_file keeps while it writes: of the blocks to be created those from block b on
        are still to be paid for. */
    ghost predicate Writing(t0: Tree, taken0: set<nat>, inodes0: map<nat, Inode>, fpos0: nat, data: seq<Byte>,
                            garbage: Block, b: nat, all: set<nat>, spare: nat)
      reads this, fs, fs.vol
    {
      && fs.Valid(ino) && WriteState(t0, T(), taken0, fpos0, data, garbage, b)
      && taken0 <= fs.Taken() && ino in inodes0 && fs.inodes == inodes0[ino := fs.inodes[ino]]
      && fs.vol.unallocated == spare + Cost(T(), all - Created(t0, BlockOf(fs.bs, fpos0), b))
    }

    method WriteNext(b: nat, off: nat, piece: seq<Byte>, buffer: Block, ghost t0: Tree, ghost taken0: set<nat>,
                     ghost inodes0: map<nat, Inode>, ghost fpos0: nat, ghost data: seq<Byte>, ghost garbage: Block,
                     ghost all: set<nat>, ghost spare: nat)
      returns (buffer': Block)
      requires Writing(t0, taken0, inodes0, fpos0, data, garbage, b, all, spare) && b < Reach(fs.bs)
      requires ShapeOk(t0) && buffer == Left(t0, fpos0, data, garbage, b)
      requires Touched(fs.bs, fpos0, |data|, b)
      requires off == OffsetIn(fs.bs, fpos0, b) && piece == PieceOf(fs.bs, fpos0, data, b)
      requires Created(t0, BlockOf(fs.bs, fpos0), b + 1) <= all
      modifies fs, fs.vol
      ensures Writing(t0, taken0, inodes0, fpos0, data, garbage, b + 1, all, spare)
      ensures buffer' == Left(t0, fpos0, data, garbage, b + 1)
    {
      hide Whole, Ext2Alloc.Consistent, Ext2Alloc.TakenSet, PieceWritten, Reach, BlockStart, ShapeOk, Covered;
      hide Evolves, TreeOk, BlockOf, Created, CreatedFor, Cost, Left, PieceOf, OffsetIn, PtrsPut, NewBlock;
      hide DataBlock, WriteState;
      ghost var t, taken := T(), fs.Taken();
      WholeEvolves(t, taken);
      StateTrees(t0, t, taken0, fpos0, data, garbage, b);
      CreatedNext(t0, t, taken0, fpos0, data, garbage, b);
      ghost var rest := all - Created(t0, BlockOf(fs.bs, fpos0), b);
      CostFirst(t, CreatedFor(t, b), rest);
      buffer' := WritePiece(b, off, piece, buffer);
      PieceTree(t, T(), taken, b, off, piece, buffer);
      CostSplit(t, T(), CreatedFor(t, b), rest);
      assert rest - CreatedFor(t, b) == all - Created(t0, BlockOf(fs.bs, fpos0), b + 1);
      WriteStep(t0, t, T(), taken0, taken, fpos0, data, garbage, b, buffer);
    }

    /** The loop of ext2_write_file over the blocks that are written up to their end. */
    method WriteBlocks(startBlock: nat, coff: nat, endBlock: nat, data: seq<Byte>, garbage: Block,
                       ghost t0: Tree, ghost taken0: set<nat>, ghost inodes0: map<nat, Inode>, ghost all: set<nat>,
                       ghost spare: nat)
      returns (buffer: Block, blocksRead: nat, total: nat)
      requires fs.bs > 0 && startBlock == BlockOf(fs.bs, fpos) && coff == OffsetOf(fs.bs, fpos)
      requires endBlock == BlockOf(fs.bs, fpos + |data|) && startBlock < endBlock <= Reach(fs.bs)
      requires Writing(t0, taken0, inodes0, fpos, data, garbage, startBlock, all, spare)
      requires ShapeOk(t0) && t0.bs == fs.bs == |garbage| && Created(t0, startBlock, endBlock) <= all
      modifies fs, fs.vol
      ensures fpos + total == BlockStart(fs.bs, endBlock) && total == fs.bs * blocksRead - coff
      ensures blocksRead == endBlock - startBlock
      ensures Writing(t0, taken0, inodes0, fpos, data, garbage, endBlock, all, spare)
      ensures buffer == Left(t0, fpos, data, garbage, endBlock)
    {
      hide Whole, Ext2Alloc.Consistent, Ext2Alloc.TakenSet, WriteState, Reach, BlockStart, ShapeOk, BlockOf;
      hide OffsetOf, Evolves, TreeOk, Created, Cost, NewBlock, PieceOf, OffsetIn, Touched;
      var bs := fs.bs;
      var blockOffset: nat := startBlock;
      buffer, blocksRead, total := garbage, 0, 0;
      SplitAt(bs, fpos);
      SplitAt(bs, fpos + |data|);
      while blockOffset < endBlock
        invariant startBlock <= blockOffset <= endBlock && blocksRead == blockOffset - startBlock
        invariant fpos + total == if blocksRead == 0 then fpos else BlockStart(bs, blockOffset)
        invariant Writing(t0, taken0, inodes0, fpos, data, garbage, blockOffset, all, spare)
        invariant buffer == Left(t0, fpos, data, garbage, blockOffset)
      {
        BlockOrder(bs, blockOffset, 0, endBlock, 0);
        CreatedGrows(t0, startBlock, blockOffset + 1, endBlock);
        var off, piece;
        if blockOffset == startBlock {
          FirstPiece(bs, fpos, data);
          off, piece := coff, data[..bs - coff];
        } else {
          BlockAtOffset(bs, fpos, startBlock, coff, blockOffset);
          LaterPiece(bs, fpos, data, blockOffset, bs * blocksRead - coff, bs);
          off, piece := 0, data[bs * blocksRead - coff..bs * blocksRead - coff + bs];
        }
        buffer := WriteNext(blockOffset, off, piece, buffer, t0, taken0, inodes0, fpos, data, garbage, all, spare);
        total := total + |piece|;
        blockOffset, blocksRead := blockOffset + 1, blocksRead + 1;
      }
      BlockAtOffset(bs, fpos, startBlock, coff, endBlock);
    }

    /** ext2_write_file, at any position, where there are free blocks for those it creates: what
        becomes of every block, and of the free blocks. garbage is what malloc left in the buffer. */
    method WriteFile(data: seq<Byte>, garbage: Block) returns (rc: nat)
      requires Valid() && fpos + |data| <= Limit(fs.bs) && |garbage| == fs.bs
      requires fs.vol.unallocated >= Cost(T(), CreatedBy(T(), fpos, |data|))
      modifies this, fs, fs.vol
      ensures Valid() && rc == |data| && fpos == old(fpos) + rc
      ensures T().inode.size == if data == [] then old(T()).inode.size else Max(old(T()).inode.size, old(fpos) + |data|)
      ensures forall m: nat :: m < Reach(fs.bs) ==> DataBlock(T(), m) == NewBlock(old(T()), old(fpos), data, garbage, m)
      ensures PtrsPut(old(T()), T(), CreatedBy(old(T()), old(fpos), |data|))
      ensures fs.vol.unallocated == old(fs.vol.unallocated) - Cost(old(T()), CreatedBy(old(T()), old(fpos), |data|))
      ensures Evolves(old(T()), T(), old(fs.Taken())) && old(fs.Taken()) <= fs.Taken()
      ensures fs.inodes == old(fs.inodes)[ino := fs.inodes[ino]]
      ensures length == if old(fpos) + |data| > old(fs.inodes[ino].size) && data != [] then old(fpos) + |data|
                        else old(length)
    {
      hide Whole, Ext2Alloc.Consistent, Ext2Alloc.TakenSet, WriteState, Reach, BlockStart, BlocksFor, ShapeOk;
      hide Evolves, TreeOk, BlockOf, OffsetOf, Limit, NewBlock, DataBlock, Cost, Created, PtrsPut, Covered;
      hide Left, Touched, PieceOf, OffsetIn;
      ghost var t0, taken0, inodes0 := T(), fs.Taken(), fs.inodes;
      WholeEvolves(t0, taken0);
      var count := |data|;
      if count == 0 {
        NothingWritten(t0, fpos, garbage);
        assert inodes0 == inodes0[ino := inodes0[ino]];
        return 0;
      }
      var end := fpos + count;
      ghost var spare := fs.vol.unallocated - Cost(t0, CreatedBy(t0, fpos, count));
      var total := WriteAll(data, garbage, t0, taken0, inodes0, spare);
      var inode := fs.inodes[ino];
      ghost var t := T();
      WriteDone(t0, t, taken0, fs.Taken(), fpos, data, garbage);
      CostLeft(t, CreatedBy(t0, fpos, count));
      StateSize(t0, t, taken0, fpos, data, garbage, BlocksFor(end, fs.bs));
      if end > inode.size {
        inode := inode.(size := end);
        fs.inodes := fs.inodes[ino := inode];
        length := inode.size;
      }
      assert T() == t.(inode := t.inode.(sectors := t.inode.sectors, size := Max(t0.inode.size, end)));
      fpos := fpos + total;
      rc := total;
    }

    /** The part of ext2_write_file that writes the blocks. */
    method WriteAll(data: seq<Byte>, garbage: Block, ghost t0: Tree, ghost taken0: set<nat>,
                    ghost inodes0: map<nat, Inode>, ghost spare: nat)
      returns (total: nat)
      requires Valid() && fpos + |data| <= Limit(fs.bs) && |garbage| == fs.bs && data != []
      requires t0 == T() && taken0 == fs.Taken() && inodes0 == fs.inodes
      requires fs.vol.unallocated == spare + Cost(T(), CreatedBy(T(), fpos, |data|))
      modifies fs, fs.vol
      ensures Writing(t0, taken0, inodes0, fpos, data, garbage, BlocksFor(fpos + |data|, fs.bs),
                      CreatedBy(t0, fpos, |data|), spare)
      ensures total == |data|
    {
      hide Whole, Ext2Alloc.Consistent, Ext2Alloc.TakenSet, WriteState, Reach, BlockStart, BlocksFor, ShapeOk;
      hide Evolves, TreeOk, BlockOf, OffsetOf, Limit, NewBlock, Created, Cost, Covered, Touched, PieceOf;
      hide OffsetIn;
      WholeEvolves(t0, taken0);
      var bs, count := fs.bs, |data|;
      var coff := OffsetOf(bs, fpos);
      var end := fpos + count;
      var startBlock, endBlock := BlockOf(bs, fpos), BlockOf(bs, end);
      SplitAt(bs, fpos);
      SplitAt(bs, end);
      var endSize := end - BlockStart(bs, endBlock);
      BlockOrder(bs, startBlock, coff, endBlock, endSize);
      EndInReach(bs, endBlock, endSize);
      LastBlock(bs, end);
      WriteBegin(t0, taken0, fpos, data, garbage);
      ghost var all := Created(t0, startBlock, BlocksFor(end, bs));
      NoneCreated(t0, startBlock, all);
      if startBlock == endBlock {
        SinglePiece(bs, fpos, data);
        var buffer := WriteNext(startBlock, coff, data, garbage, t0, taken0, inodes0, fpos, data, garbage, all, spare);
        total := count;
      } else {
        CreatedGrows(t0, startBlock, endBlock, BlocksFor(end, bs));
        var buffer, blocksRead;
        buffer, blocksRead, total := WriteBlocks(startBlock, coff, endBlock, data, garbage, t0, taken0, inodes0, all,
                                                 spare);
        if endSize > 0 {
          LaterPiece(bs, fpos, data, endBlock, bs * blocksRead - coff, endSize);
          var piece := data[bs * blocksRead - coff..bs * blocksRead - coff + endSize];
          buffer := WriteNext(endBlock, 0, piece, buffer, t0, taken0, inodes0, fpos, data, garbage, all, spare);
          total := total + endSize;
        }
      }
    }
  }

  lemma NoneCreated(t: Tree, start: nat, all: set<nat>)
    requires ShapeOk(t)
    ensures all - Created(t, start, start) == all
  {
  }

  lemma CostLeft(t: Tree, all: set<nat>)
    ensures Cost(t, all - all) == 0
  {
    CostNone(t);
    assert all - all == {};
  }

  lemma StateTrees(t0: Tree, t: Tree, taken0: set<nat>, fpos: nat, data: seq<Byte>, garbage: Block, b: nat)
    requires WriteState(t0, t, taken0, fpos, data, garbage, b)
    ensures ShapeOk(t0) && ShapeOk(t) && t.bs == t0.bs && |garbage| == t.bs && Covered(t)
  {
  }

  lemma StateSize(t0: Tree, t: Tree, taken0: set<nat>, fpos: nat, data: seq<Byte>, garbage: Block, b: nat)
    requires WriteState(t0, t, taken0, fpos, data, garbage, b)
    ensures t.inode.size == t0.inode.size
  {
  }

  lemma PieceTree(t: Tree, t': Tree, taken: set<nat>, b: nat, off: nat, piece: seq<Byte>, buffer: Block)
    requires PieceWritten(t, t', taken, b, off, piece, buffer)
    ensures ShapeOk(t) && ShapeOk(t') && t'.bs == t.bs && b < Reach(t.bs) && PtrsPut(t, t', CreatedFor(t, b))
  {
    hide ShapeOk, Ptr;
  }

  lemma PieceThere(t: Tree, t': Tree, taken: set<nat>, b: nat, off: nat, piece: seq<Byte>, buffer: Block)
    requires PieceWritten(t, t', taken, b, off, piece, buffer)
    ensures ShapeOk(t) && ShapeOk(t') && t'.bs == t.bs && b < Reach(t.bs)
    ensures DataBlock(t', b) == Patch(if Ptr(t, Data(b)) != 0 then DataBlock(t, b) else buffer, off, piece)
  {
    hide ShapeOk, Ptr, Patch;
  }

  lemma SameBlocks(t: Tree, t': Tree)
    requires ShapeOk(t) && ShapeOk(t') && t'.bs == t.bs && t'.disk == t.disk
    requires forall l :: LocOk(t.bs, l) ==> Ptr(t', l) == Ptr(t, l)
    ensures forall m: nat :: m < Reach(t.bs) ==>
              Ptr(t', Data(m)) == Ptr(t, Data(m)) && DataBlock(t', m) == DataBlock(t, m)
  {
    forall m: nat | m < Reach(t.bs)
      ensures Ptr(t', Data(m)) == Ptr(t, Data(m))
    {
      assert LocOk(t.bs, Data(m));
    }
  }

  /** The first total bytes of the buffer are the file's from start on; the rest is untouched. */
  ghost predicate Copied(t: Tree, buf: seq<Byte>, buf0: seq<Byte>, start: nat, total: nat)
    requires Bounded(t)
  {
    && |buf| == |buf0| && total <= |buf| && start + total <= t.inode.size
    && buf[..total] == Contents(t)[start..start + total]
    && buf[total..] == buf0[total..]
  }

  lemma CopiedNone(t: Tree, buf: seq<Byte>, start: nat)
    requires Bounded(t) && start <= t.inode.size
    ensures Copied(t, buf, buf, start, 0)
  {
  }

  lemma CopiedAll(t: Tree, buf: seq<Byte>, buf0: seq<Byte>, start: nat, total: nat)
    requires Bounded(t) && Copied(t, buf, buf0, start, total)
    ensures total <= |buf| == |buf0| && start + total <= t.inode.size
    ensures buf[..total] == Contents(t)[start..start + total] && buf[total..] == buf0[total..]
  {
  }

  lemma CopiedMore(t: Tree, before: seq<Byte>, buf: seq<Byte>, buf0: seq<Byte>, start: nat, total: nat, n: nat)
    requires Bounded(t) && Copied(t, before, buf0, start, total)
    requires |buf| == |before| && total + n <= |buf| && start + total + n <= t.inode.size
    requires buf[..total] == before[..total] && buf[total + n..] == before[total + n..]
    requires buf[total..total + n] == Contents(t)[start + total..start + total + n]
    ensures Copied(t, buf, buf0, start, total + n)
  {
    hide ShapeOk, Limit, Contents;
    assert buf[..total + n] == buf[..total] + buf[total..total + n];
    var s := Contents(t);
    assert s[start..start + total + n] == s[start..start + total] + s[start + total..start + total + n];
    assert before[total + n..] == before[total..][n..] && buf0[total + n..] == buf0[total..][n..];
  }
}
