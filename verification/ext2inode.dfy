/** Reading and setting the block pointers of an inode, and adding blocks to it. */
module Ext2Inode {
  import opened Ext2Disk
  import opened Ext2Tree
  import opened Bits
  import opened Ext2Alloc
  import opened Common

  /** Blocks that are not in use hold zeros. */
  ghost predicate FreeZero(bs: nat, disk: Disk, taken: set<nat>) {
    forall n: nat :: n !in taken ==> BlockAt(bs, disk, n) == Zeros(bs)
  }

  /** t' is t with the index block l in place; nothing else about the file changed. */
  ghost predicate Prepared(t: Tree, t': Tree, taken: set<nat>, l: Loc) {
    && Evolves(t, t', taken) && LocOk(t.bs, l) && Ptr(t', l) != 0 && (Ptr(t, l) != 0 ==> Ptr(t', l) == Ptr(t, l))
    && t'.inode.sectors == t.inode.sectors && t'.inode.size == t.inode.size
    && (forall m :: LocOk(t.bs, m) && m != l ==> Ptr(t', m) == Ptr(t, m))
    && (forall m: nat :: m < Reach(t.bs) ==> DataBlock(t', m) == DataBlock(t, m))
  }

  lemma AlreadyPrepared(t: Tree, taken: set<nat>, l: Loc)
    requires TreeOk(t) && LocOk(t.bs, l) && Ptr(t, l) != 0
    ensures Prepared(t, t, taken, l)
  {
  }

  lemma StoredEvolves(t: Tree, t': Tree, l: Loc, r: nat, taken: set<nat>)
    requires Stored(t, t', l, r) && r != 0 && r !in taken
    ensures Evolves(t, t', taken)
  {
    forall n: nat | n in taken && Unreferenced(t, n)
      ensures BlockAt(t.bs, t'.disk, n) == BlockAt(t.bs, t.disk, n)
    {
      assert NotIndex(t, n);
    }
  }

  lemma StoredPrepared(t: Tree, t': Tree, l: Loc, r: nat, taken: set<nat>)
    requires Stored(t, t', l, r) && r != 0 && r !in taken && LocOk(t.bs, l) && !l.Data? && Ptr(t, l) == 0
    ensures Prepared(t, t', taken, l)
  {
    StoredEvolves(t, t', l, r, taken);
    forall m: nat | m < Reach(t.bs)
      ensures DataBlock(t', m) == DataBlock(t, m)
    {
      StoredBlocks(t, t', l, r, m);
    }
  }

  lemma EvolvesLess(t: Tree, t': Tree, taken: set<nat>, less: set<nat>)
    requires Evolves(t, t', taken) && less <= taken
    ensures Evolves(t, t', less)
  {
  }

  lemma PreparedKeepsFree(t: Tree, t': Tree, taken: set<nat>, l: Loc, r: nat)
    requires Prepared(t, t', taken, l) && r in taken && Unreferenced(t, r)
    ensures Unreferenced(t', r)
  {
    forall m | LocOk(t'.bs, m) ensures Ptr(t', m) != r {}
  }

  /** The pointer of block b is r, the index blocks on the way to it are there, and every other
      pointer that was set, or is not on that way, is as it was. */
  ghost predicate PtrPut(t: Tree, t': Tree, b: nat, r: nat) {
    && ShapeOk(t) && ShapeOk(t') && t'.bs == t.bs && b < Reach(t.bs)
    && Ptr(t', Data(b)) == r
    && (forall l :: l in IndexOf(t.bs, b) ==> Ptr(t', l) != 0)
    && (forall l :: LocOk(t.bs, l) && l != Data(b) && (l !in IndexOf(t.bs, b) || Ptr(t, l) != 0) ==>
          Ptr(t', l) == Ptr(t, l))
  }

  /** t' is t with logical block b at block r of the disk, and nothing else of the file moved. */
  ghost predicate BlockSet(t: Tree, t': Tree, b: nat, r: nat) {
    && TreeOk(t) && TreeOk(t') && PtrPut(t, t', b, r)
    && (forall m: nat :: m < Reach(t.bs) && m != b ==> DataBlock(t', m) == DataBlock(t, m))
    && t'.inode.size == t.inode.size && t'.inode.sectors == t.inode.sectors
  }

  lemma StoredBlockSet(t: Tree, t': Tree, b: nat, r: nat)
    requires Stored(t, t', Data(b), r) && b < Reach(t.bs) && Reachable(t, Data(b))
    ensures BlockSet(t, t', b, r)
  {
    WayThere(t, b);
    forall m: nat | m < Reach(t.bs) && m != b
      ensures DataBlock(t', m) == DataBlock(t, m)
    {
      StoredBlocks(t, t', Data(b), r, m);
    }
  }

  lemma PreparedBlockSet(t: Tree, t1: Tree, t2: Tree, taken: set<nat>, l: Loc, b: nat, r: nat)
    requires Prepared(t, t1, taken, l) && BlockSet(t1, t2, b, r) && l in IndexOf(t.bs, b)
    ensures BlockSet(t, t2, b, r)
  {
  }

  /** A file whose blocks are all in use, on a disk whose other blocks hold zeros. */
  ghost predicate Whole(t: Tree, taken: set<nat>) {
    && t.bs % 512 == 0 && TreeOk(t)
    && AllTaken(t, taken) && 0 !in taken && FreeZero(t.bs, t.disk, taken)
  }

  lemma WholeTree(t: Tree, taken: set<nat>)
    requires Whole(t, taken)
    ensures TreeOk(t) && ShapeOk(t) && t.bs > 0 && t.bs % 512 == 0 && |t.inode.dbp| == DIRECT
    ensures forall n :: |BlockAt(t.bs, t.disk, n)| == t.bs
  {
  }

  lemma WholeMore(t: Tree, taken: set<nat>, n: nat)
    requires Whole(t, taken) && n !in taken && n != 0
    ensures Whole(t, taken + {n})
    ensures ShapeOk(t) && Unreferenced(t, n) && BlockAt(t.bs, t.disk, n) == Zeros(t.bs)
  {
  }

  lemma WholeStored(t: Tree, t': Tree, l: Loc, r: nat, taken: set<nat>)
    requires Whole(t, taken) && Stored(t, t', l, r) && r in taken && LocOk(t.bs, l)
    ensures Whole(t', taken)
  {
    forall n: nat | n !in taken
      ensures BlockAt(t.bs, t'.disk, n) == Zeros(t.bs)
    {
      if n != 0 { assert NotIndex(t, n); }
    }
  }

  lemma WholeWritten(t: Tree, n: nat, data: Block, taken: set<nat>)
    requires Whole(t, taken) && TreeOk(Written(t, n, data)) && n in taken
    requires forall l :: LocOk(t.bs, l) ==> Ptr(Written(t, n, data), l) == Ptr(t, l)
    ensures Whole(Written(t, n, data), taken)
  {
  }

  lemma FreshCanPut(t: Tree, taken: set<nat>, l: Loc, n: nat)
    requires Whole(t, taken) && n !in taken && 0 < n < WORD && LocOk(t.bs, l)
    requires ShapeOk(t) && Reachable(t, l) && Ptr(t, l) == 0
    ensures CanPut(t, l, n)
  {
    WholeMore(t, taken, n);
  }

  /** The same tree under an inode with another length. */
  lemma InodeCounters(t: Tree, sectors: nat, size: nat)
    requires TreeOk(t)
    ensures var t' := t.(inode := t.inode.(sectors := sectors, size := size));
            && TreeOk(t') && (forall l :: LocOk(t.bs, l) ==> Ptr(t', l) == Ptr(t, l))
            && forall taken :: Evolves(t, t', taken)
  {
    var t' := t.(inode := t.inode.(sectors := sectors, size := size));
    forall l | LocOk(t.bs, l)
      ensures Ptr(t', l) == Ptr(t, l)
    {
      InodeCountersPtr(t, sectors, size, l);
    }
  }

  lemma WholeCounters(t: Tree, sectors: nat, size: nat, taken: set<nat>)
    requires Whole(t, taken)
    ensures Whole(t.(inode := t.inode.(sectors := sectors, size := size)), taken)
  {
    InodeCounters(t, sectors, size);
  }

  lemma {:induction false} InodeCountersPtr(t: Tree, sectors: nat, size: nat, l: Loc)
    requires ShapeOk(t) && LocOk(t.bs, l)
    ensures Ptr(t.(inode := t.inode.(sectors := sectors, size := size)), l) == Ptr(t, l)
    decreases Depth(l)
  {
    match HomeOf(t.bs, l)
    case InInode =>
    case InBlock(owner, _) => InodeCountersPtr(t, sectors, size, owner);
  }

  const ENOSYS := 38

  // ----- fresh blocks of a file

  /** The index blocks on the ways to these blocks. */
  function Ways(bs: nat, blocks: set<nat>): set<Loc> {
    set b, l | b in blocks && b < Reach(bs) && l in IndexOf(bs, b) :: l
  }

  /** How many blocks it takes to put fresh ones at these places of the file, index blocks
      included. */
  function Cost(t: Tree, blocks: set<nat>): nat {
    |blocks| + |Lacking(t, Ways(t.bs, blocks))|
  }

  /** Not one of these blocks, nor an index block that has to be allocated for them. */
  predicate OffWay(t: Tree, l: Loc, blocks: set<nat>)
    requires ShapeOk(t) && LocOk(t.bs, l)
  {
    if l.Data? then l.b !in blocks else l !in Ways(t.bs, blocks) || Ptr(t, l) != 0
  }

  /** These blocks and the index blocks on the ways to them are there; no other pointer changed. */
  ghost predicate PtrsPut(t: Tree, t': Tree, blocks: set<nat>) {
    && ShapeOk(t) && ShapeOk(t') && t'.bs == t.bs
    && (forall b :: b in blocks ==> b < Reach(t.bs) && Ptr(t', Data(b)) != 0)
    && (forall l :: l in Ways(t.bs, blocks) ==> Ptr(t', l) != 0)
    && (forall l :: LocOk(t.bs, l) && OffWay(t, l, blocks) ==> Ptr(t', l) == Ptr(t, l))
  }

  lemma WaysOne(bs: nat, b: nat)
    requires b < Reach(bs)
    ensures Ways(bs, {b}) == IndexOf(bs, b)
  {
    hide IndexOf;
  }

  lemma WaysBoth(bs: nat, a: set<nat>, b: set<nat>)
    ensures Ways(bs, a + b) == Ways(bs, a) + Ways(bs, b)
  {
    hide IndexOf;
  }

  lemma PtrsPutOne(t: Tree, t': Tree, b: nat, r: nat)
    requires PtrPut(t, t', b, r) && r != 0
    ensures PtrsPut(t, t', {b})
  {
    hide IndexOf, Ptr, ShapeOk, Reach;
    WaysOne(t.bs, b);
  }

  lemma PtrsPutNone(t: Tree)
    requires ShapeOk(t)
    ensures PtrsPut(t, t, {})
  {
  }

  lemma PtrsPutTrans(t: Tree, t1: Tree, t2: Tree, a: set<nat>, b: set<nat>)
    requires PtrsPut(t, t1, a) && PtrsPut(t1, t2, b)
    ensures PtrsPut(t, t2, a + b)
  {
    hide Ways, Ptr, ShapeOk, Reach;
    WaysBoth(t.bs, a, b);
    forall l | LocOk(t.bs, l)
      ensures OffWay(t, l, a + b) ==> Ptr(t2, l) == Ptr(t, l)
    {
      assert OffWay(t, l, a + b) ==> OffWay(t, l, a);
    }
    forall l | l in Ways(t.bs, a + b)
      ensures LocOk(t.bs, l) && Ptr(t2, l) != 0
    {
      WayIsIndex(t.bs, a + b, l);
    }
  }

  lemma CostOne(t: Tree, b: nat)
    requires b < Reach(t.bs)
    ensures Cost(t, {b}) == 1 + IndexLacking(t, b)
  {
    WaysOne(t.bs, b);
  }

  /** What has been put in place costs no more. */
  lemma CostSplit(t: Tree, t': Tree, done: set<nat>, blocks: set<nat>)
    requires PtrsPut(t, t', done) && done <= blocks
    ensures Cost(t, blocks) == Cost(t, done) + Cost(t', blocks - done)
  {
    hide Ways, Ptr, ShapeOk, Reach;
    var rest := blocks - done;
    assert blocks == done + rest;
    WaysBoth(t.bs, done, rest);
    var x, y := Lacking(t, Ways(t.bs, done)), Lacking(t', Ways(t.bs, rest));
    forall l
      ensures l in Lacking(t, Ways(t.bs, blocks)) <==> l in x || l in y
      ensures !(l in x && l in y)
    {
      if LocOk(t.bs, l) && l in Ways(t.bs, blocks) { WayIsIndex(t.bs, blocks, l); }
    }
    assert Lacking(t, Ways(t.bs, blocks)) == x + y && x !! y;
  }

  lemma WayIsIndex(bs: nat, blocks: set<nat>, l: Loc)
    requires l in Ways(bs, blocks)
    ensures LocOk(bs, l) && !l.Data?
  {
  }

  // ----- the sector count

  function SectorsTo(bs: nat, b: nat): nat { (b + 1) * (bs / 512) }

  /** How many blocks the sector count stands for. */
  function Counted(t: Tree): nat {
    if t.bs < 512 then 0 else t.inode.sectors / (t.bs / 512)
  }

  /** The sector count went up as far as these blocks need. */
  ghost predicate Grown(bs: nat, sectors: nat, sectors': nat, blocks: set<nat>) {
    && sectors' >= sectors
    && (forall b :: b in blocks ==> sectors' >= SectorsTo(bs, b))
    && (sectors' == sectors || exists b :: b in blocks && sectors' == SectorsTo(bs, b))
  }

  lemma GrownTrans(bs: nat, s: nat, s1: nat, s2: nat, a: set<nat>, b: set<nat>)
    requires Grown(bs, s, s1, a) && Grown(bs, s1, s2, b)
    ensures Grown(bs, s, s2, a + b)
  {
    hide SectorsTo;
    if s2 == s1 {
      if s1 != s {
        var x :| x in a && s1 == SectorsTo(bs, x);
        assert x in a + b;
      }
    } else {
      var x :| x in b && s2 == SectorsTo(bs, x);
      assert x in a + b;
    }
  }

  /** t' is t with fresh blocks, full of zeros, as these blocks of the file. */
  ghost predicate Filled(t: Tree, t': Tree, taken: set<nat>, blocks: set<nat>) {
    && Evolves(t, t', taken) && PtrsPut(t, t', blocks)
    && t'.inode.size == t.inode.size && Grown(t.bs, t.inode.sectors, t'.inode.sectors, blocks)
    && forall m: nat :: m < Reach(t.bs) ==>
         if m in blocks then Ptr(t', Data(m)) !in taken && DataBlock(t', m) == Zeros(t.bs)
         else DataBlock(t', m) == DataBlock(t, m)
  }

  function Range(a: nat, b: int): (s: set<nat>)
    ensures forall m: nat :: m in s <==> a <= m < b
    decreases b - a
  {
    if a < b then Range(a, b - 1) + {b - 1} else {}
  }

  /** The blocks that ext2_inode_add_block adds: block min - 1 is not one of them. */
  function AddedBlocks(counted: nat, min: int): set<nat>
    requires min >= -1
  {
    Range(counted, min - 1) + {if min == -1 then counted else min}
  }

  lemma FilledNone(t: Tree, taken: set<nat>)
    requires TreeOk(t)
    ensures Filled(t, t, taken, {})
  {
    EvolvesRefl(t, taken);
    PtrsPutNone(t);
  }

  lemma FilledTrans(t: Tree, t1: Tree, t2: Tree, taken: set<nat>, taken1: set<nat>, a: set<nat>, b: set<nat>)
    requires Filled(t, t1, taken, a) && Filled(t1, t2, taken1, b) && taken <= taken1 && a !! b
    ensures Filled(t, t2, taken, a + b)
  {
    EvolvesTrans(t, t1, t2, taken, taken1);
    PtrsPutTrans(t, t1, t2, a, b);
    GrownTrans(t.bs, t.inode.sectors, t1.inode.sectors, t2.inode.sectors, a, b);
    hide Evolves, TreeOk, Ways, Grown, Ptr, Reach, ShapeOk, Lacking;
    assert forall m: nat :: m < Reach(t.bs) && m in a ==> OffWay(t1, Data(m), b);
  }

  lemma FilledPtr(t: Tree, t': Tree, taken: set<nat>, blocks: set<nat>, b: nat)
    requires Filled(t, t', taken, blocks) && b in blocks
    ensures TreeOk(t') && ShapeOk(t') && t'.bs == t.bs && b < Reach(t.bs) && Ptr(t', Data(b)) != 0
    ensures Ptr(t', Data(b)) !in taken && Evolves(t, t', taken)
  {
  }

  lemma EvolvesRefl(t: Tree, taken: set<nat>)
    requires TreeOk(t)
    ensures Evolves(t, t, taken)
  {
  }

  lemma WholePointer(t: Tree, taken: set<nat>, b: nat)
    requires Whole(t, taken) && b < Reach(t.bs)
    ensures ShapeOk(t) && t.bs >= 512 && Ptr(t, Data(b)) == Pointer(t.bs, t.disk, t.inode, b)
  {
    PtrIsPointer(t, b);
  }

  lemma WholePtr(t: Tree, taken: set<nat>, b: nat)
    requires Whole(t, taken) && b < Reach(t.bs)
    ensures ShapeOk(t) && (Ptr(t, Data(b)) != 0 ==> Ptr(t, Data(b)) in taken)
  {
  }

  /** Adding a block beyond the end of a file leaves a gap in front of it, unless it is the
      very next one. */
  lemma GapLeft(t: Tree, t': Tree, taken: set<nat>, counted: nat, min: nat)
    requires Filled(t, t', taken, AddedBlocks(counted, min)) && counted <= min < Reach(t.bs)
    requires forall m: nat :: counted <= m < Reach(t.bs) ==> Ptr(t, Data(m)) == 0
    ensures (forall m: nat :: counted <= m <= min ==> Ptr(t', Data(m)) != 0) <==> min == counted
  {
    if min > counted {
      assert OffWay(t, Data(min - 1), AddedBlocks(counted, min));
      assert Ptr(t', Data(min - 1)) == 0;
    }
  }

  lemma BlockSetPtr(t: Tree, t': Tree, b: nat, r: nat)
    requires BlockSet(t, t', b, r)
    ensures TreeOk(t') && t'.bs == t.bs && b < Reach(t.bs) && Ptr(t', Data(b)) == r
    ensures t'.inode.size == t.inode.size && t'.inode.sectors == t.inode.sectors
  {
  }

  lemma EvolvesWrite(t: Tree, t': Tree, taken: set<nat>, n: nat, data: Block)
    requires Evolves(t, t', taken) && |data| == t.bs && n != 0 && NotIndex(t', n)
    requires n !in taken || !Unreferenced(t, n)
    ensures Evolves(t, Written(t', n, data), taken)
  {
    WrittenTree(t', n, data);
  }

  lemma AddedBy(t: Tree, t1: Tree, t2: Tree, t3: Tree, taken: set<nat>, b: nat, n: nat)
    requires BlockSet(t, t1, b, n) && n != 0 && n !in taken && t2 == Written(t1, n, Zeros(t.bs))
    requires TreeOk(t2) && TreeOk(t3) && t3.bs == t.bs && t3.disk == t2.disk && t3.inode.size == t.inode.size
    requires forall l :: LocOk(t.bs, l) ==> Ptr(t2, l) == Ptr(t1, l) && Ptr(t3, l) == Ptr(t2, l)
    requires Evolves(t, t3, taken)
    requires t3.inode.sectors == if t.inode.sectors < SectorsTo(t.bs, b) then SectorsTo(t.bs, b) else t.inode.sectors
    ensures Filled(t, t3, taken, {b}) && Ptr(t3, Data(b)) == n
  {
    hide Evolves, Reach, IndexOf, Ways, SectorsTo;
    assert Ptr(t1, Data(b)) == n && Ptr(t3, Data(b)) == n;
    forall m: nat | m < Reach(t.bs)
      ensures Ptr(t3, Data(m)) == Ptr(t1, Data(m))
      ensures m != b ==> DataBlock(t3, m) == DataBlock(t, m)
    {
      assert Ptr(t2, Data(m)) == Ptr(t1, Data(m)) && Ptr(t3, Data(m)) == Ptr(t2, Data(m));
      if m != b { assert Ptr(t1, Data(m)) != n; }
    }
    SamePtrPut(t, t1, t3, b, n);
    PtrsPutOne(t, t3, b, n);
  }

  lemma SamePtrPut(t: Tree, t1: Tree, t2: Tree, b: nat, r: nat)
    requires PtrPut(t, t1, b, r) && ShapeOk(t2) && t2.bs == t1.bs
    requires forall l :: LocOk(t.bs, l) ==> Ptr(t2, l) == Ptr(t1, l)
    ensures PtrPut(t, t2, b, r)
  {
    hide Ptr, Reach, ShapeOk, IndexOf;
  }

  lemma PtrsOfInode(t: Tree)
    requires ShapeOk(t)
    ensures Ptr(t, Singly) == t.inode.singly && Ptr(t, Doubly) == t.inode.doubly
    ensures forall b: nat :: b < DIRECT ==> Ptr(t, Data(b)) == t.inode.dbp[b]
    ensures forall l :: LocOk(t.bs, l) && HomeOf(t.bs, l).InInode? ==> Reachable(t, l)
  {
  }

  lemma PutInInode(t: Tree, n: nat)
    requires ShapeOk(t) && n < WORD
    ensures Put(t, Singly, n) == t.(inode := t.inode.(singly := n))
    ensures Put(t, Doubly, n) == t.(inode := t.inode.(doubly := n))
    ensures forall b: nat :: b < DIRECT ==> Put(t, Data(b), n) == t.(inode := t.inode.(dbp := t.inode.dbp[b := n]))
  {
  }

  /** The slot of a pointer that is kept in an index block. */
  lemma PtrInBlock(t: Tree, l: Loc, r: nat)
    requires ShapeOk(t) && LocOk(t.bs, l) && r < WORD && HomeOf(t.bs, l).InBlock?
    ensures var h := HomeOf(t.bs, l); var n := Ptr(t, h.owner);
            && 4 * h.slot + 4 <= t.bs && |BlockAt(t.bs, t.disk, n)| == t.bs
            && Ptr(t, l) == Word(BlockAt(t.bs, t.disk, n), h.slot)
            && Put(t, l, r) == Written(t, n, SetWord(BlockAt(t.bs, t.disk, n), h.slot, r))
            && (n != 0 ==> Reachable(t, l))
  {
  }

  /** Where the pointers beyond the direct ones are. */
  lemma HomesOfData(bs: nat, b: nat)
    requires DIRECT <= b < Reach(bs)
    ensures var p := PerBlock(bs);
            p > 0 && if b < DIRECT + p then HomeOf(bs, Data(b)) == InBlock(Singly, b - DIRECT)
            else
              var x := b - DIRECT - p;
              x / p < p && 0 <= x - x / p * p < p && HomeOf(bs, Data(b)) == InBlock(Mid(x / p), x - x / p * p)
  {
    var p := PerBlock(bs);
    if b >= DIRECT + p {
      DivBound(b - DIRECT - p, p);
    }
  }

  /** Block m of the file is a fresh block of zeros if it is a new one, and else what it was. */
  ghost predicate AddedOnDisk(bs: nat, disk: Disk, inode: Inode, disk': Disk, inode': Inode, taken: set<nat>,
                              m: nat, isNew: bool)
  {
    var p, p' := Pointer(bs, disk, inode, m), Pointer(bs, disk', inode', m);
    if isNew then p' != 0 && p' !in taken && forall j :: 0 <= j < bs ==> DiskByte(disk', p', j) == 0
    else p' == p && forall j :: 0 <= j < bs ==> DiskByte(disk', p, j) == DiskByte(disk, p, j)
  }

  /** The blocks from the first that the sector count does not cover up to min are added, all but
      the last before min; with min == -1 just that first one. */
  predicate IsAdded(bs: nat, sectors: nat, min: int, m: nat) {
    bs >= 512 && var c := sectors / (bs / 512); if min == -1 then m == c else m == min || c <= m < min - 1
  }

  lemma FilledOnDisk(t: Tree, t': Tree, taken: set<nat>, blocks: set<nat>, m: nat)
    requires Filled(t, t', taken, blocks) && m < 12 + t.bs / 4 + (t.bs / 4) * (t.bs / 4)
    ensures AddedOnDisk(t.bs, t.disk, t.inode, t'.disk, t'.inode, taken, m, m in blocks)
  {
    hide Evolves, Ptr, Reach, Ways, Pointer, DiskByte, DataBlock;
    PtrIsPointer(t, m);
    PtrIsPointer(t', m);
    if m !in blocks { assert OffWay(t, Data(m), blocks); }
    ghost var p, p' := Pointer(t.bs, t.disk, t.inode, m), Pointer(t.bs, t'.disk, t'.inode, m);
    forall j | 0 <= j < t.bs
      ensures m in blocks ==> DiskByte(t'.disk, p', j) == 0
      ensures m !in blocks ==> DiskByte(t'.disk, p, j) == DiskByte(t.disk, p, j)
    {
      assert DataBlock(t', m)[j] == DiskByte(t'.disk, p', j) && DataBlock(t, m)[j] == DiskByte(t.disk, p, j);
      assert m in blocks ==> Zeros(t.bs)[j] == 0;
    }
  }

  /** Block b was added, and the sector count is at least that of a file up to there. */
  ghost predicate OneAdded(bs: nat, disk: Disk, inode: Inode, disk': Disk, inode': Inode, taken: set<nat>, b: nat) {
    && AddedOnDisk(bs, disk, inode, disk', inode', taken, b, true)
    && (forall m: nat :: m != b && m < 12 + bs / 4 + (bs / 4) * (bs / 4) ==>
          AddedOnDisk(bs, disk, inode, disk', inode', taken, m, false))
    && inode'.sectors == Max(inode.sectors, (b + 1) * (bs / 512)) && inode'.size == inode.size
  }

  lemma OneIsAdded(t: Tree, t': Tree, taken: set<nat>, b: nat)
    requires Filled(t, t', taken, {b})
    ensures OneAdded(t.bs, t.disk, t.inode, t'.disk, t'.inode, taken, b)
  {
    hide Evolves, Ptr, Reach, Ways, Pointer, DataBlock, AddedOnDisk;
    PtrIsPointer(t, b);
    FilledOnDisk(t, t', taken, {b}, b);
    forall m: nat | m != b && m < 12 + t.bs / 4 + (t.bs / 4) * (t.bs / 4)
      ensures AddedOnDisk(t.bs, t.disk, t.inode, t'.disk, t'.inode, taken, m, false)
    {
      FilledOnDisk(t, t', taken, {b}, m);
    }
    GrownTo(t.bs, t.inode.sectors, t'.inode.sectors, {b}, b);
  }

  /** The same for all blocks that are added at a time. */
  ghost predicate AllAdded(bs: nat, disk: Disk, inode: Inode, disk': Disk, inode': Inode, taken: set<nat>, min: int) {
    && bs >= 512 && min >= -1
    && (forall m: nat :: m < 12 + bs / 4 + (bs / 4) * (bs / 4) ==>
          AddedOnDisk(bs, disk, inode, disk', inode', taken, m, IsAdded(bs, inode.sectors, min, m)))
    && var last: nat := if min == -1 then inode.sectors / (bs / 512) else min;
       inode'.sectors == Max(inode.sectors, (last + 1) * (bs / 512)) && inode'.size == inode.size
  }

  lemma AddedAre(t: Tree, t': Tree, taken: set<nat>, min: int)
    requires -1 <= min && t.bs >= 512 && Filled(t, t', taken, AddedBlocks(Counted(t), min))
    ensures AllAdded(t.bs, t.disk, t.inode, t'.disk, t'.inode, taken, min)
  {
    hide Filled, AddedOnDisk;
    var c := Counted(t);
    var last: nat := if min == -1 then c else min;
    forall m: nat | m < 12 + t.bs / 4 + (t.bs / 4) * (t.bs / 4)
      ensures AddedOnDisk(t.bs, t.disk, t.inode, t'.disk, t'.inode, taken, m, IsAdded(t.bs, t.inode.sectors, min, m))
    {
      FilledOnDisk(t, t', taken, AddedBlocks(c, min), m);
      assert m in AddedBlocks(c, min) <==> IsAdded(t.bs, t.inode.sectors, min, m);
    }
    FilledGrown(t, t', taken, AddedBlocks(c, min));
    GrownTo(t.bs, t.inode.sectors, t'.inode.sectors, AddedBlocks(c, min), last);
  }

  lemma FilledGrown(t: Tree, t': Tree, taken: set<nat>, blocks: set<nat>)
    requires Filled(t, t', taken, blocks)
    ensures Grown(t.bs, t.inode.sectors, t'.inode.sectors, blocks) && t'.inode.size == t.inode.size
  {
  }

  lemma GrownTo(bs: nat, sectors: nat, sectors': nat, blocks: set<nat>, last: nat)
    requires Grown(bs, sectors, sectors', blocks) && last in blocks && forall b :: b in blocks ==> b <= last
    ensures sectors' == Max(sectors, (last + 1) * (bs / 512))
  {
    if sectors' != sectors {
      var b :| b in blocks && sectors' == SectorsTo(bs, b);
      MulMono(last - b, bs / 512);
      assert (last + 1) * (bs / 512) == (b + 1) * (bs / 512) + (last - b) * (bs / 512);
    }
  }

  lemma WordOnDisk(t: Tree, n: nat, i: nat)
    requires ShapeOk(t) && 4 * i + 4 <= t.bs
    ensures |BlockAt(t.bs, t.disk, n)| == t.bs && Word(BlockAt(t.bs, t.disk, n), i) == DiskWord(t.disk, n, i)
  {
    WordIsDiskWord(t.bs, t.disk, n, i);
  }

  /** A pointer that was set, on the bytes: the others of the file are as they were. */
  lemma PointersSet(t: Tree, t': Tree, b: nat, r: nat)
    requires BlockSet(t, t', b, r)
    ensures Pointer(t'.bs, t'.disk, t'.inode, b) == r
    ensures forall m: nat :: m != b && m < 12 + t.bs / 4 + (t.bs / 4) * (t.bs / 4) ==>
              Pointer(t'.bs, t'.disk, t'.inode, m) == Pointer(t.bs, t.disk, t.inode, m)
  {
    hide Ptr, Pointer, IndexOf, DataBlock, Reach;
    PtrIsPointer(t', b);
    forall m: nat | m != b && m < 12 + t.bs / 4 + (t.bs / 4) * (t.bs / 4)
      ensures Pointer(t'.bs, t'.disk, t'.inode, m) == Pointer(t.bs, t.disk, t.inode, m)
    {
      PtrIsPointer(t, m);
      PtrIsPointer(t', m);
      assert Data(m) !in IndexOf(t.bs, b);
    }
  }

  /** A mounted volume: its blocks, its inode table and its allocator. */
  class FileSystem {
    const bs: nat
    const vol: Volume
    var disk: Disk
    var inodes: map<nat, Inode>

    constructor (bs: nat, vol: Volume, disk: Disk, inodes: map<nat, Inode>)
      ensures this.bs == bs && this.vol == vol && this.disk == disk && this.inodes == inodes
    {
      this.bs, this.vol, this.disk, this.inodes := bs, vol, disk, inodes;
    }

    ghost function Taken(): set<nat>
      requires vol.Geometry()
      reads this, vol
    {
      TakenSet(vol.Bitmaps(), vol.perGroup)
    }

    ghost function TreeOf(ino: nat): Tree
      requires ino in inodes
      reads this
    {
      Tree(bs, disk, inodes[ino])
    }

    /** The volume is consistent and file ino is whole. Block numbers fit a signed int. */
    ghost predicate Valid(ino: nat)
      reads this, vol
    {
      && vol.bs == bs && vol.Sound() && vol.groups * vol.perGroup < 0x8000_0000
      && ino in inodes && Whole(TreeOf(ino), Taken())
    }

    /** ext2_read_block */
    function ReadBlock(n: nat): Block
      reads this
    {
      BlockAt(bs, disk, n)
    }

    /** ext2_alloc_block, where there is a block to be had. */
    method Alloc(ino: nat) returns (n: nat)
      requires Valid(ino) && vol.unallocated > 0
      modifies vol
      ensures Valid(ino) && Taken() == old(Taken()) + {n} && n !in old(Taken())
      ensures vol.unallocated == old(vol.unallocated) - 1 && 0 < n < 0x8000_0000
    {
      hide Ext2Alloc.Taken, Consistent, NoneBefore, Candidate, Whole, BitmapsOk, GroupTaken, BitmapsOn;
      hide FreeOn, GeometryOk, Ext2Alloc.Apart;
      ghost var taken0 := Taken();
      var r := vol.AllocBlock();
      n := r.value;
      assert vol.IsTaken(n);
      assert forall x: nat :: x in Taken() <==> vol.IsTaken(x);
      assert Taken() == taken0 + {n};
      WholeMore(TreeOf(ino), taken0, n);
    }

    /** The word at slot of index block n becomes r. */
    method StoreWord(ino: nat, ghost l: Loc, ghost owner: Loc, n: nat, slot: nat, r: nat)
      requires Valid(ino) && CanPut(TreeOf(ino), l, r) && r in Taken()
      requires HomeOf(bs, l) == InBlock(owner, slot) && n == Ptr(TreeOf(ino), owner)
      modifies this`disk
      ensures Valid(ino) && Stored(old(TreeOf(ino)), TreeOf(ino), l, r)
    {
      hide TreeOk, Stored, Whole, TakenSet, Consistent, BitmapsOk, ShapeOk, Ptr, Put, HomeOf, SetWord;
      hide Unreferenced;
      ghost var t := TreeOf(ino);
      WholeTree(t, Taken());
      PtrInBlock(t, l, r);
      PutStored(t, l, r);
      WholeStored(t, Put(t, l, r), l, r, Taken());
      var tmp := SetWord(ReadBlock(n), slot, r);
      disk := disk[n := tmp];
      assert TreeOf(ino) == Put(t, l, r);
    }

    /** The pointer to the singly indirect block, allocated and zeroed if there is none. */
    method NeedSingly(ino: nat, inode: Inode) returns (inode': Inode)
      requires Valid(ino) && inode == inodes[ino] && ShapeOk(TreeOf(ino))
      requires vol.unallocated >= Lacks(TreeOf(ino), Singly)
      modifies this, vol
      ensures Valid(ino) && inodes == old(inodes)[ino := inode'] && old(Taken()) <= Taken()
      ensures Prepared(old(TreeOf(ino)), TreeOf(ino), old(Taken()), Singly)
      ensures vol.unallocated == old(vol.unallocated) - Lacks(old(TreeOf(ino)), Singly)
    {
      hide TreeOk, Stored, Whole, TakenSet, Consistent, BitmapsOk, ShapeOk, Ptr, Put, Prepared, Unreferenced;
      hide Reachable, FreeZero;
      inode' := inode;
      ghost var t, taken := TreeOf(ino), Taken();
      WholeTree(t, taken);
      PtrsOfInode(t);
      if inode.singly == 0 {
        var n := Alloc(ino);
        FreshCanPut(t, taken, Singly, n);
        PutStored(t, Singly, n);
        PutInInode(t, n);
        ghost var t1 := Put(t, Singly, n);
        ZerosThere(t, taken, n);
        RewrittenStored(t, t1, Singly, n, n, Zeros(bs));
        WholeStored(t, Written(t1, n, Zeros(bs)), Singly, n, Taken());
        StoredPrepared(t, Written(t1, n, Zeros(bs)), Singly, n, taken);
        inode' := inode.(singly := n);
        inodes := inodes[ino := inode'];
        disk := disk[n := Zeros(bs)];
        assert TreeOf(ino) == Written(t1, n, Zeros(bs));
      } else {
        assert inodes == inodes[ino := inode];
        AlreadyPrepared(t, taken, Singly);
      }
    }

    /** The pointer to the doubly indirect block, allocated if there is none. */
    method NeedDoubly(ino: nat, inode: Inode) returns (inode': Inode)
      requires Valid(ino) && inode == inodes[ino] && ShapeOk(TreeOf(ino))
      requires vol.unallocated >= Lacks(TreeOf(ino), Doubly)
      modifies this, vol
      ensures Valid(ino) && inodes == old(inodes)[ino := inode'] && old(Taken()) <= Taken()
      ensures Prepared(old(TreeOf(ino)), TreeOf(ino), old(Taken()), Doubly)
      ensures vol.unallocated == old(vol.unallocated) - Lacks(old(TreeOf(ino)), Doubly)
    {
      hide TreeOk, Stored, Whole, TakenSet, Consistent, BitmapsOk, ShapeOk, Ptr, Put, Prepared, Unreferenced;
      hide Reachable;
      inode' := inode;
      ghost var t, taken := TreeOf(ino), Taken();
      WholeTree(t, taken);
      PtrsOfInode(t);
      if inode.doubly == 0 {
        var n := Alloc(ino);
        FreshCanPut(t, taken, Doubly, n);
        PutStored(t, Doubly, n);
        PutInInode(t, n);
        WholeStored(t, Put(t, Doubly, n), Doubly, n, Taken());
        StoredPrepared(t, Put(t, Doubly, n), Doubly, n, taken);
        inode' := inode.(doubly := n);
        inodes := inodes[ino := inode'];
        assert TreeOf(ino) == Put(t, Doubly, n);
      } else {
        assert inodes == inodes[ino := inode];
        AlreadyPrepared(t, taken, Doubly);
      }
    }

    /** The pointer to index block c below the doubly indirect one, allocated if there is none. */
    method NeedMid(ino: nat, inode: Inode, c: nat)
      requires Valid(ino) && inode == inodes[ino] && inode.doubly != 0 && c < PerBlock(bs)
      requires ShapeOk(TreeOf(ino)) && vol.unallocated >= Lacks(TreeOf(ino), Mid(c))
      modifies this`disk, vol
      ensures Valid(ino) && old(Taken()) <= Taken()
      ensures Prepared(old(TreeOf(ino)), TreeOf(ino), old(Taken()), Mid(c))
      ensures vol.unallocated == old(vol.unallocated) - Lacks(old(TreeOf(ino)), Mid(c))
    {
      hide TreeOk, Stored, Whole, TakenSet, Consistent, BitmapsOk, ShapeOk, Ptr, Put, Prepared, Unreferenced;
      hide Reachable;
      ghost var t, taken := TreeOf(ino), Taken();
      WholeTree(t, taken);
      PtrsOfInode(t);
      PtrInBlock(t, Mid(c), 0);
      var tmp := ReadBlock(inode.doubly);
      if Word(tmp, c) == 0 {
        var n := Alloc(ino);
        FreshCanPut(t, taken, Mid(c), n);
        StoreWord(ino, Mid(c), Doubly, inode.doubly, c, n);
        StoredPrepared(t, TreeOf(ino), Mid(c), n, taken);
      } else {
        AlreadyPrepared(t, taken, Mid(c));
      }
    }

    /** set_block_number, within reach of the doubly indirect block, where there are free blocks
        for the index blocks it takes. taken stands for the blocks in use before r was handed
        out. */
    method SetBlockNumber(ino: nat, inode: Inode, b: nat, r: nat, ghost taken: set<nat>) returns (inode': Inode)
      requires Valid(ino) && inode == inodes[ino] && b < Reach(bs) && vol.unallocated >= IndexLacking(TreeOf(ino), b)
      requires 0 < r < WORD && r in Taken() && taken <= Taken() && r !in taken
      requires ShapeOk(TreeOf(ino)) && Unreferenced(TreeOf(ino), r)
      modifies this, vol
      ensures Valid(ino) && inodes == old(inodes)[ino := inode'] && old(Taken()) <= Taken()
      ensures BlockSet(old(TreeOf(ino)), TreeOf(ino), b, r) && Evolves(old(TreeOf(ino)), TreeOf(ino), taken)
      ensures Pointer(bs, disk, inode', b) == r
      ensures forall m: nat :: m != b && m < 12 + bs / 4 + (bs / 4) * (bs / 4) ==>
                Pointer(bs, disk, inode', m) == Pointer(bs, old(disk), inode, m)
      ensures vol.unallocated == old(vol.unallocated) - IndexLacking(old(TreeOf(ino)), b)
    {
      hide TreeOk, Stored, Whole, TakenSet, Consistent, BitmapsOk, ShapeOk, Ptr, Put, Prepared, Unreferenced;
      hide Reachable, HomeOf, Evolves, BlockSet, Reach, IndexOf, MidOf, IndexLacking, Lacks, Pointer;
      inode' := inode;
      var p := PerBlock(bs);
      ghost var t := TreeOf(ino);
      WholeTree(t, Taken());
      IndexLackingIs(t, b);
      if b < 12 {
        CanSetDirect(t, Taken(), b, r);
        DirectReachable(t, b);
        PutStored(t, Data(b), r);
        WholeStored(t, Put(t, Data(b), r), Data(b), r, Taken());
        StoredBlockSet(t, Put(t, Data(b), r), b, r);
        StoredEvolves(t, Put(t, Data(b), r), Data(b), r, taken);
        PutInInode(t, r);
        inode' := inode.(dbp := inode.dbp[b := r]);
        inodes := inodes[ino := inode'];
        assert TreeOf(ino) == Put(t, Data(b), r);
      } else if b < 12 + p {
        HomesOfData(bs, b);
        OwnerOnWay(bs, b);
        inode' := NeedSingly(ino, inode);
        WholeTree(TreeOf(ino), Taken());
        PtrsOfInode(TreeOf(ino));
        SetIndexed(ino, b, r, taken, t, old(Taken()), Singly, inode'.singly, b - 12);
      } else {
        inode' := SetDoubly(ino, inode, b, r, taken);
      }
      PointersSet(t, TreeOf(ino), b, r);
    }

    /** set_block_number where the block hangs below the doubly indirect block. */
    method SetDoubly(ino: nat, inode: Inode, b: nat, r: nat, ghost taken: set<nat>) returns (inode': Inode)
      requires Valid(ino) && inode == inodes[ino] && DIRECT + PerBlock(bs) <= b < Reach(bs)
      requires vol.unallocated >= IndexLacking(TreeOf(ino), b)
      requires 0 < r < WORD && r in Taken() && taken <= Taken() && r !in taken
      requires ShapeOk(TreeOf(ino)) && Unreferenced(TreeOf(ino), r)
      modifies this, vol
      ensures Valid(ino) && inodes == old(inodes)[ino := inode'] && old(Taken()) <= Taken()
      ensures BlockSet(old(TreeOf(ino)), TreeOf(ino), b, r) && Evolves(old(TreeOf(ino)), TreeOf(ino), taken)
      ensures vol.unallocated == old(vol.unallocated) - IndexLacking(old(TreeOf(ino)), b)
    {
      hide TreeOk, Stored, Whole, TakenSet, Consistent, BitmapsOk, ShapeOk, Ptr, Put, Prepared, Unreferenced;
      hide Reachable, HomeOf, Evolves, BlockSet, Reach, IndexOf, MidOf, IndexLacking, Lacks;
      HomesOfData(bs, b);
      OwnerOnWay(bs, b);
      IndexLackingIs(TreeOf(ino), b);
      var p := PerBlock(bs);
      var x := b - 12 - p;
      var c := x / p;
      var d := x - c * p;
      ghost var t, taken0 := TreeOf(ino), Taken();
      inode' := NeedDoubly(ino, inode);
      ghost var t1, taken1 := TreeOf(ino), Taken();
      WholeTree(t1, taken1);
      PtrsOfInode(t1);
      PreparedKeepsFree(t, t1, taken0, Doubly, r);
      PreparedParts(t, t1, taken0, Doubly);
      PreparedLacks(t, t1, taken0, Doubly, Mid(c));
      NeedMid(ino, inode', c);
      WholeTree(TreeOf(ino), Taken());
      PtrsOfInode(TreeOf(ino));
      HomeOfMid(bs, c);
      PtrInBlock(TreeOf(ino), Mid(c), 0);
      var nblock := Word(ReadBlock(inode'.doubly), c);
      SetIndexed(ino, b, r, taken, t1, taken1, Mid(c), nblock, d);
      PreparedBlockSet(t, t1, TreeOf(ino), taken0, Doubly, b, r);
      EvolvesLess(t, t1, taken0, taken);
      EvolvesTrans(t, t1, TreeOf(ino), taken, taken);
    }

    /** The last step of set_block_number, once the index block is there. */
    method SetIndexed(ino: nat, b: nat, r: nat, ghost taken: set<nat>, ghost t: Tree, ghost taken0: set<nat>,
                      ghost owner: Loc, n: nat, slot: nat)
      requires Valid(ino) && b < Reach(bs) && t.bs == bs && ShapeOk(TreeOf(ino)) && LocOk(bs, owner) && !owner.Data?
      requires Prepared(t, TreeOf(ino), taken0, owner) && HomeOf(bs, Data(b)) == InBlock(owner, slot)
      requires n == Ptr(TreeOf(ino), owner)
      requires 0 < r < WORD && r in taken0 && taken0 <= Taken() && taken <= taken0 && r !in taken
      requires ShapeOk(t) && Unreferenced(t, r) && owner in IndexOf(bs, b)
      modifies this`disk
      ensures Valid(ino)
      ensures BlockSet(t, TreeOf(ino), b, r) && Evolves(t, TreeOf(ino), taken)
    {
      hide TreeOk, Stored, Whole, TakenSet, Consistent, BitmapsOk, ShapeOk, Ptr, Put, Prepared, Unreferenced;
      hide HomeOf, Evolves, BlockSet, Reach, IndexOf, MidOf, IndexLacking, Lacks;
      ghost var t1 := TreeOf(ino);
      PreparedKeepsFree(t, t1, taken0, owner, r);
      PreparedParts(t, t1, taken0, owner);
      StoreWord(ino, Data(b), owner, n, slot, r);
      StoredBlockSet(t1, TreeOf(ino), b, r);
      StoredEvolves(t1, TreeOf(ino), Data(b), r, taken);
      PreparedBlockSet(t, t1, TreeOf(ino), taken0, owner, b, r);
      EvolvesLess(t, t1, taken0, taken);
      EvolvesTrans(t, t1, TreeOf(ino), taken, taken);
    }

    /** ext2_inode_get_block: the block on disk of logical block b, 0 or negative if none. */
    method GetBlock(inode: Inode, b: nat) returns (r: int)
      requires TreeOk(Tree(bs, disk, inode))
      ensures b < DIRECT + PerBlock(bs) ==> r == Ptr(Tree(bs, disk, inode), Data(b))
      ensures DIRECT + PerBlock(bs) <= b < Reach(bs) ==>
                var q := Ptr(Tree(bs, disk, inode), Data(b));
                r == q || (q == 0 && r == -1)
      ensures b < 12 + bs / 4 ==> r == Pointer(bs, disk, inode, b)
      ensures 12 + bs / 4 <= b < 12 + bs / 4 + (bs / 4) * (bs / 4) ==>
                r == if DiskWord(disk, inode.doubly, (b - 12 - bs / 4) / (bs / 4)) == 0 then -1
                     else Pointer(bs, disk, inode, b)
      ensures b >= 12 + bs / 4 + (bs / 4) * (bs / 4) ==> r == -38
    {
      hide TreeOk, ShapeOk, Ptr, Put, HomeOf, Reachable, Pointer, DiskWord, Word, BlockAt;
      ghost var t := Tree(bs, disk, inode);
      TreeShape(t);
      PtrIsPointer(t, b);
      PtrsOfInode(t);
      var p := PerBlock(bs);
      if b < 12 {
        return inode.dbp[b];
      } else if b < 12 + p {
        HomesOfData(bs, b);
        PtrInBlock(t, Data(b), 0);
        var bb := ReadBlock(inode.singly);
        return Word(bb, b - 12);
      } else if b < 12 + p + p * p {
        HomesOfData(bs, b);
        var x := b - 12 - p;
        var c := x / p;
        var d := x - c * p;
        HomeOfMid(bs, c);
        PtrInBlock(t, Mid(c), 0);
        PtrInBlock(t, Data(b), 0);
        var buf1 := ReadBlock(inode.doubly);
        var nblock := Word(buf1, c);
        WordOnDisk(t, inode.doubly, c);
        if nblock == 0 {
          ZeroBlock(t);
          WordOfZeros(bs, d);
          return -1;
        }
        buf1 := ReadBlock(nblock);
        return Word(buf1, d);
      }
      r := -ENOSYS;
    }

    /** allocate_inode_block, where there are free blocks for block b and the index blocks it takes */
    method AllocateInodeBlock(ino: nat, inode: Inode, b: nat) returns (inode': Inode, n: nat)
      requires Valid(ino) && inode == inodes[ino] && b < Reach(bs) && vol.unallocated >= Cost(TreeOf(ino), {b})
      modifies this, vol
      ensures Valid(ino) && inodes == old(inodes)[ino := inode'] && old(Taken()) <= Taken()
      ensures Filled(old(TreeOf(ino)), TreeOf(ino), old(Taken()), {b}) && n == Ptr(TreeOf(ino), Data(b))
      ensures n == Pointer(bs, disk, inode', b) && OneAdded(bs, old(disk), inode, disk, inode', old(Taken()), b)
      ensures vol.unallocated == old(vol.unallocated) - Cost(old(TreeOf(ino)), {b})
    {
      hide TreeOk, Whole, TakenSet, Consistent, BitmapsOk, ShapeOk, Ptr, Unreferenced, Evolves, BlockSet;
      hide NotIndex, Filled, Reach, BlockAt, Zeros, DataBlock, IndexLacking, IndexOf, Cost, Pointer, OneAdded;
      ghost var t, taken := TreeOf(ino), Taken();
      CostOne(t, b);
      n := Alloc(ino);
      WholeMore(t, taken, n);
      inode' := SetBlockNumber(ino, inode, b, n, taken);
      ghost var t1 := TreeOf(ino);
      BlockSetPtr(t, t1, b, n);
      StoreData(t1, b, Zeros(bs));
      DataIsNoIndex(t1, b);
      EvolvesWrite(t, t1, taken, n, Zeros(bs));
      WholeWritten(t1, n, Zeros(bs), Taken());
      disk := disk[n := Zeros(bs)];
      ghost var t2 := TreeOf(ino);
      assert t2 == Written(t1, n, Zeros(bs));
      inode' := inodes[ino];
      var s := (b + 1) * (bs / 512);
      ghost var s' := if inode'.sectors < s then s else inode'.sectors;
      InodeCounters(t2, s', inode'.size);
      WholeCounters(t2, s', inode'.size, Taken());
      if inode'.sectors < s { inode' := inode'.(sectors := s); }
      inodes := inodes[ino := inode'];
      assert TreeOf(ino) == t2.(inode := t2.inode.(sectors := s', size := t2.inode.size));
      EvolvesTrans(t, t2, TreeOf(ino), taken, taken);
      AddedBy(t, t1, t2, TreeOf(ino), taken, b, n);
      WholePointer(TreeOf(ino), Taken(), b);
      OneIsAdded(t, TreeOf(ino), taken, b);
    }

    /** ext2_inode_add_block: with min == -1 the block after those the sector count stands for;
        else block min, after blocks for all from there up to the last but one before min. */
    method AddBlock(ino: nat, inode: Inode, min: int) returns (inode': Inode, n: nat)
      requires Valid(ino) && inode == inodes[ino] && -1 <= min < Reach(bs)
      requires min == -1 ==> Counted(TreeOf(ino)) < Reach(bs)
      requires vol.unallocated >= Cost(TreeOf(ino), AddedBlocks(Counted(TreeOf(ino)), min))
      modifies this, vol
      ensures Valid(ino) && inodes == old(inodes)[ino := inode'] && old(Taken()) <= Taken()
      ensures var added := AddedBlocks(Counted(old(TreeOf(ino))), min);
              && Filled(old(TreeOf(ino)), TreeOf(ino), old(Taken()), added)
              && n == Ptr(TreeOf(ino), Data(if min == -1 then Counted(old(TreeOf(ino))) else min))
              && vol.unallocated == old(vol.unallocated) - Cost(old(TreeOf(ino)), added)
      ensures AllAdded(bs, old(disk), inode, disk, inode', old(Taken()), min)
    {
      hide TreeOk, Whole, TakenSet, Consistent, BitmapsOk, ShapeOk, Ptr, Evolves, Reach, Filled, Cost;
      hide AddedBlocks, AllAdded, OneAdded;
      ghost var t, taken := TreeOf(ino), Taken();
      WholeTree(t, taken);
      var rblock := inode.sectors / (bs / 512);
      AddedAtEnd(rblock, rblock, min);
      if min == -1 {
        inode', n := AllocateInodeBlock(ino, inode, rblock);
        AddedAre(t, TreeOf(ino), taken, min);
        return;
      }
      inode' := inode;
      var i: nat := rblock;
      FilledNone(t, taken);
      while i < min - 1
        invariant rblock <= i && (i <= min - 1 || i == rblock) && Valid(ino) && inodes == old(inodes)[ino := inode']
        invariant taken <= Taken() && TreeOf(ino).bs == bs
        invariant Filled(t, TreeOf(ino), taken, Range(rblock, i))
        invariant vol.unallocated == old(vol.unallocated) - Cost(t, AddedBlocks(rblock, min))
                                     + Cost(TreeOf(ino), AddedBlocks(i, min))
      {
        ghost var t1, taken1 := TreeOf(ino), Taken();
        AddedNext(rblock, i, min);
        CostFirst(t1, {i}, AddedBlocks(i, min));
        var added;
        inode', added := AllocateInodeBlock(ino, inode', i);
        CostFilled(t1, TreeOf(ino), taken1, {i}, AddedBlocks(i, min));
        FilledTrans(t, t1, TreeOf(ino), taken, taken1, Range(rblock, i), {i});
        i := i + 1;
      }
      ghost var t1, taken1 := TreeOf(ino), Taken();
      AddedAtEnd(rblock, i, min);
      inode', n := AllocateInodeBlock(ino, inode', min);
      FilledTrans(t, t1, TreeOf(ino), taken, taken1, Range(rblock, i), {min});
      AddedAre(t, TreeOf(ino), taken, min);
    }

    /** ext2_inode_read_or_create: the block of the disk for block b, with its contents in the
        buffer if it was there, and the buffer as it was if the block had to be added. */
    method ReadOrCreate(ino: nat, b: nat, buf: Block) returns (inode: Inode, n: nat, buf': Block)
      requires Valid(ino) && b < Reach(bs) && ShapeOk(TreeOf(ino))
      requires vol.unallocated >= Cost(TreeOf(ino), CreatedFor(TreeOf(ino), b))
      modifies this, vol
      ensures Valid(ino) && inodes == old(inodes)[ino := inode] && old(Taken()) <= Taken()
      ensures ShapeOk(TreeOf(ino))
      ensures Filled(old(TreeOf(ino)), TreeOf(ino), old(Taken()), CreatedFor(old(TreeOf(ino)), b))
      ensures n == Ptr(TreeOf(ino), Data(b)) != 0 && n in Taken()
      ensures if Ptr(old(TreeOf(ino)), Data(b)) != 0
              then TreeOf(ino) == old(TreeOf(ino)) && buf' == DataBlock(TreeOf(ino), b)
              else buf' == buf
      ensures vol.unallocated == old(vol.unallocated) - Cost(old(TreeOf(ino)), CreatedFor(old(TreeOf(ino)), b))
    {
      hide TreeOk, Whole, TakenSet, Consistent, BitmapsOk, ShapeOk, Ptr, Evolves, Filled, Cost, AddedBlocks;
      hide Reach;
      inode := inodes[ino];
      buf' := buf;
      ghost var t, taken := TreeOf(ino), Taken();
      WholeTree(t, taken);
      var found := GetBlock(inode, b);
      if found <= 0 {
        inode, n := AddBlock(ino, inode, b);
        AddedAtEnd(Counted(t), Counted(t), b);
        FilledPtr(t, TreeOf(ino), taken, AddedBlocks(Counted(t), b), b);
        WholePtr(TreeOf(ino), Taken(), b);
        return;
      }
      WholePtr(t, taken, b);
      FilledNone(t, taken);
      CostNone(t);
      buf' := ReadBlock(found);
      n := found;
      assert inodes == inodes[ino := inode];
    }
  }

  /** The blocks that are added when block b is to be written. */
  function CreatedFor(t: Tree, b: nat): set<nat>
    requires ShapeOk(t) && b < Reach(t.bs)
  {
    if Ptr(t, Data(b)) != 0 then {} else AddedBlocks(Counted(t), b)
  }

  lemma AddedNext(counted: nat, i: nat, min: nat)
    requires counted <= i < min - 1
    ensures i in AddedBlocks(i, min) && AddedBlocks(i, min) - {i} == AddedBlocks(i + 1, min)
    ensures Range(counted, i + 1) == Range(counted, i) + {i}
  {
  }

  lemma AddedAtEnd(counted: nat, i: nat, min: int)
    requires min >= -1 && counted <= i
    ensures i >= min - 1 ==> AddedBlocks(i, min) == {if min == -1 then i else min}
    ensures i == (if counted < min - 1 then min - 1 else counted) && min >= 0 ==>
              Range(counted, i) + {min as nat} == AddedBlocks(counted, min) && min !in Range(counted, i)
    ensures min >= 0 ==> min in AddedBlocks(counted, min)
    ensures Range(counted, counted) == {}
  {
  }

  lemma CostNone(t: Tree)
    ensures Cost(t, {}) == 0
  {
  }

  lemma CostFirst(t: Tree, first: set<nat>, blocks: set<nat>)
    requires first <= blocks
    ensures Cost(t, first) <= Cost(t, blocks)
  {
    hide Ptr, IndexOf;
    SubsetSize(first, blocks);
    SubsetSize(Lacking(t, Ways(t.bs, first)), Lacking(t, Ways(t.bs, blocks)));
  }

  lemma CostFilled(t: Tree, t': Tree, taken: set<nat>, done: set<nat>, blocks: set<nat>)
    requires Filled(t, t', taken, done) && done <= blocks
    ensures Cost(t, blocks) == Cost(t, done) + Cost(t', blocks - done)
  {
    CostSplit(t, t', done, blocks);
  }

  lemma TreeShape(t: Tree)
    requires TreeOk(t)
    ensures ShapeOk(t) && |t.inode.dbp| == DIRECT && t.bs > 0
  {
  }

  lemma ZeroBlock(t: Tree)
    requires TreeOk(t)
    ensures BlockAt(t.bs, t.disk, 0) == Zeros(t.bs)
  {
  }

  lemma HomeOfMid(bs: nat, c: nat)
    requires c < PerBlock(bs)
    ensures HomeOf(bs, Mid(c)) == InBlock(Doubly, c)
  {
  }

  lemma ZerosThere(t: Tree, taken: set<nat>, n: nat)
    requires Whole(t, taken) && n !in taken
    ensures BlockAt(t.bs, t.disk, n) == Zeros(t.bs)
  {
  }

  lemma CanSetDirect(t: Tree, taken: set<nat>, b: nat, r: nat)
    requires Whole(t, taken) && b < DIRECT && 0 < r < WORD && ShapeOk(t) && Unreferenced(t, r)
    ensures CanPut(t, Data(b), r)
  {
  }

  lemma OwnerOnWay(bs: nat, b: nat)
    requires DIRECT <= b < Reach(bs)
    ensures HomeOf(bs, Data(b)).InBlock? && HomeOf(bs, Data(b)).owner in IndexOf(bs, b)
    ensures b >= DIRECT + PerBlock(bs) ==> Doubly in IndexOf(bs, b)
  {
  }

  lemma PreparedLacks(t: Tree, t': Tree, taken: set<nat>, l: Loc, m: Loc)
    requires Prepared(t, t', taken, l) && LocOk(t.bs, m) && m != l
    ensures ShapeOk(t) && ShapeOk(t') && t'.bs == t.bs && Lacks(t', m) == Lacks(t, m)
  {
  }

  lemma DirectReachable(t: Tree, b: nat)
    requires ShapeOk(t) && b < DIRECT
    ensures Reachable(t, Data(b))
  {
  }

  lemma PreparedParts(t: Tree, t': Tree, taken: set<nat>, l: Loc)
    requires Prepared(t, t', taken, l)
    ensures TreeOk(t') && t'.bs == t.bs && Evolves(t, t', taken) && LocOk(t'.bs, l)
    ensures ShapeOk(t') && Ptr(t', l) != 0
    ensures forall m :: LocOk(t'.bs, m) && HomeOf(t'.bs, m).InBlock? && HomeOf(t'.bs, m).owner == l ==> Reachable(t', m)
  {
  }
}
