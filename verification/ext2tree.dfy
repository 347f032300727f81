/** The block tree of an ext2 inode: twelve direct pointers, a singly indirect block and a
    doubly indirect block, each index block holding p little-endian 32-bit pointers. */
module Ext2Tree {
  import opened Bits
  import opened Common
  import opened Ext2Disk

  const DIRECT := 12

  // ----- places where block pointers are kept

  datatype Inode = Inode(dbp: seq<nat>, singly: nat, doubly: nat, sectors: nat, size: nat)

  datatype Tree = Tree(bs: nat, disk: Disk, inode: Inode)

  /** What a pointer is for: the data of logical block b, the singly or the doubly indirect
      block, or the index block c below the doubly indirect one. */
  datatype Loc = Data(b: nat) | Singly | Doubly | Mid(c: nat)

  /** Where a pointer is: in the inode, or in a slot of the index block another one points to. */
  datatype Home = InInode | InBlock(owner: Loc, slot: nat)

  function PerBlock(bs: nat): nat { bs / 4 }

  /** How many logical blocks the direct, singly and doubly indirect pointers reach. */
  function Reach(bs: nat): nat {
    DIRECT + PerBlock(bs) + PerBlock(bs) * PerBlock(bs)
  }

  predicate LocOk(bs: nat, l: Loc) {
    match l
    case Data(b) => b < Reach(bs)
    case Mid(c) => c < PerBlock(bs)
    case _ => true
  }

  lemma DivBound(x: nat, p: nat)
    requires x < p * p
    ensures p > 0 && x / p < p
  {
    assert p != 0;
    var q, r := x / p, x % p;
    assert x == q * p + r;
    MulMono(q - p, p);
    assert q * p == (q - p) * p + p * p;
  }

  function HomeOf(bs: nat, l: Loc): (h: Home)
    requires LocOk(bs, l)
    ensures h.InBlock? ==> !h.owner.Data? && LocOk(bs, h.owner) && h.slot < PerBlock(bs) && h.owner != l
  {
    var p := PerBlock(bs);
    match l
    case Singly => InInode
    case Doubly => InInode
    case Mid(c) => InBlock(Doubly, c)
    case Data(b) =>
      if b < DIRECT then InInode
      else if b < DIRECT + p then InBlock(Singly, b - DIRECT)
      else
        DivBound(b - DIRECT - p, p);
        InBlock(Mid((b - DIRECT - p) / p), (b - DIRECT - p) % p)
  }

  /** Different pointers have different places. */
  lemma HomesApart(bs: nat, l: Loc, m: Loc)
    requires LocOk(bs, l) && LocOk(bs, m) && l != m && HomeOf(bs, l).InBlock?
    ensures HomeOf(bs, l) != HomeOf(bs, m)
  {
    if l.Data? && m.Data? && l.b >= DIRECT + PerBlock(bs) && m.b >= DIRECT + PerBlock(bs) {
      var p := PerBlock(bs);
      var x, y := l.b - DIRECT - p, m.b - DIRECT - p;
      assert x == x / p * p + x % p && y == y / p * p + y % p;
    }
  }

  function Depth(l: Loc): nat {
    match l
    case Data(_) => 2
    case Mid(_) => 1
    case _ => 0
  }

  predicate ShapeOk(t: Tree) {
    && t.bs > 0 && t.bs % 4 == 0 && |t.inode.dbp| == DIRECT
    && forall n :: n in t.disk ==> |t.disk[n]| == t.bs
  }

  function InodePtr(inode: Inode, l: Loc): nat
    requires |inode.dbp| == DIRECT
  {
    match l
    case Singly => inode.singly
    case Doubly => inode.doubly
    case Data(b) => if b < DIRECT then inode.dbp[b] else 0
    case Mid(_) => 0
  }

  /** The pointer at a place: 0 where none is set. */
  function Ptr(t: Tree, l: Loc): nat
    requires ShapeOk(t) && LocOk(t.bs, l)
    decreases Depth(l)
  {
    match HomeOf(t.bs, l)
    case InInode => InodePtr(t.inode, l)
    case InBlock(owner, slot) => Word(BlockAt(t.bs, t.disk, Ptr(t, owner)), slot)
  }

  /** Block 0 holds zeros, and no two pointers of the tree are to the same block. */
  ghost predicate TreeOk(t: Tree) {
    && ShapeOk(t)
    && BlockAt(t.bs, t.disk, 0) == Zeros(t.bs)
    && forall l, m :: LocOk(t.bs, l) && LocOk(t.bs, m) && l != m && Ptr(t, l) != 0 ==> Ptr(t, l) != Ptr(t, m)
  }

  ghost predicate Unreferenced(t: Tree, r: nat)
    requires ShapeOk(t)
  {
    forall l :: LocOk(t.bs, l) ==> Ptr(t, l) != r
  }

  /** The pointer's index block is there. */
  predicate Reachable(t: Tree, l: Loc)
    requires ShapeOk(t) && LocOk(t.bs, l)
  {
    HomeOf(t.bs, l).InBlock? ==> Ptr(t, HomeOf(t.bs, l).owner) != 0
  }

  /** Storing r as the pointer l. */
  function Put(t: Tree, l: Loc, r: nat): Tree
    requires ShapeOk(t) && LocOk(t.bs, l) && r < WORD
  {
    match HomeOf(t.bs, l)
    case InInode => t.(inode := match l
                                case Singly => t.inode.(singly := r)
                                case Doubly => t.inode.(doubly := r)
                                case Data(b) => if b < DIRECT then t.inode.(dbp := t.inode.dbp[b := r]) else t.inode
                                case Mid(_) => t.inode)
    case InBlock(owner, slot) =>
      var n := Ptr(t, owner);
      t.(disk := t.disk[n := SetWord(BlockAt(t.bs, t.disk, n), slot, r)])
  }

  /** r may become the pointer l: it is a block that nothing points to, and where it becomes
      an index block it is the first one there and holds zeros. */
  ghost predicate CanPut(t: Tree, l: Loc, r: nat) {
    && TreeOk(t) && LocOk(t.bs, l) && Reachable(t, l)
    && 0 < r < WORD && Unreferenced(t, r)
    && (!l.Data? ==> Ptr(t, l) == 0 && BlockAt(t.bs, t.disk, r) == Zeros(t.bs))
  }

  lemma PutShape(t: Tree, l: Loc, r: nat)
    requires CanPut(t, l, r)
    ensures var t' := Put(t, l, r);
            && ShapeOk(t') && t'.bs == t.bs
            && t'.inode.sectors == t.inode.sectors && t'.inode.size == t.inode.size
            && forall n: nat :: (HomeOf(t.bs, l).InBlock? ==> n != Ptr(t, HomeOf(t.bs, l).owner)) ==>
                 BlockAt(t.bs, t'.disk, n) == BlockAt(t.bs, t.disk, n)
  {
  }

  /** Storing a pointer changes that pointer and no other. */
  lemma {:induction false} PutPtr(t: Tree, l: Loc, r: nat, m: Loc)
    requires CanPut(t, l, r) && LocOk(t.bs, m)
    ensures var t' := Put(t, l, r);
            ShapeOk(t') && t'.bs == t.bs && Ptr(t', m) == if m == l then r else Ptr(t, m)
    decreases Depth(m)
  {
    var t', h := Put(t, l, r), HomeOf(t.bs, l);
    PutShape(t, l, r);
    match HomeOf(t.bs, m)
    case InInode =>
    case InBlock(owner, slot) =>
      PutPtr(t, l, r, owner);
      if m == l {
        WordSet(BlockAt(t.bs, t.disk, Ptr(t, owner)), slot, r, slot);
      } else if owner == l {
        WordOfZeros(t.bs, slot);
      } else if h.InBlock? && Ptr(t, h.owner) == Ptr(t, owner) {
        assert h.owner == owner;
        HomesApart(t.bs, l, m);
        WordSet(BlockAt(t.bs, t.disk, Ptr(t, owner)), h.slot, r, slot);
      }
  }

  lemma PutTree(t: Tree, l: Loc, r: nat)
    requires CanPut(t, l, r)
    ensures var t' := Put(t, l, r);
            && TreeOk(t') && t'.bs == t.bs
            && (forall m :: LocOk(t.bs, m) ==> Ptr(t', m) == if m == l then r else Ptr(t, m))
  {
    var t' := Put(t, l, r);
    PutShape(t, l, r);
    forall m | LocOk(t.bs, m)
      ensures Ptr(t', m) == if m == l then r else Ptr(t, m)
    {
      PutPtr(t, l, r, m);
    }
  }

  // ----- index blocks that were not zeroed

  /** The pointer kept in a slot of index block l. */
  function SlotOf(bs: nat, l: Loc, slot: nat): (m: Loc)
    requires (l.Doubly? || l.Mid?) && LocOk(bs, l) && slot < PerBlock(bs)
    ensures LocOk(bs, m) && HomeOf(bs, m) == InBlock(l, slot)
  {
    var p := PerBlock(bs);
    match l
    case Mid(c) =>
      SlotBound(c, slot, p);
      Data(DIRECT + p + (c * p + slot))
    case _ => Mid(slot)
  }

  lemma SlotBound(c: nat, slot: nat, p: nat)
    requires c < p && slot < p
    ensures 0 <= c * p + slot < p * p && (c * p + slot) / p == c && (c * p + slot) % p == slot
  {
    ModUnique(c * p + slot, c, p, slot);
    MulMono(p - 1 - c, p);
    assert (p - 1 - c) * p == p * p - p - c * p;
    MulMono(c, p);
  }

  /** set_block_number takes a block as doubly indirect block, or below it, without zeroing it. The
      new index block points nowhere exactly if the block held zeros. */
  lemma NewIndexPointsNowhere(t: Tree, l: Loc, r: nat)
    requires TreeOk(t) && (l.Doubly? || l.Mid?) && LocOk(t.bs, l) && Reachable(t, l) && 0 < r < WORD
    requires Unreferenced(t, r)
    ensures var t' := Put(t, l, r);
            && ShapeOk(t') && t'.bs == t.bs
            && ((forall slot: nat :: slot < PerBlock(t.bs) ==> Ptr(t', SlotOf(t.bs, l, slot)) == 0)
                <==> forall slot: nat :: slot < PerBlock(t.bs) ==> Word(BlockAt(t.bs, t.disk, r), slot) == 0)
  {
    var t' := Put(t, l, r);
    assert Ptr(t', l) == r by {
      if l.Mid? { WordSet(BlockAt(t.bs, t.disk, Ptr(t, Doubly)), l.c, r, l.c); }
    }
    forall slot: nat | slot < PerBlock(t.bs)
      ensures Ptr(t', SlotOf(t.bs, l, slot)) == Word(BlockAt(t.bs, t.disk, r), slot)
    {
      assert BlockAt(t.bs, t'.disk, r) == BlockAt(t.bs, t.disk, r);
    }
  }

  // ----- the index blocks on the way to a block

  function IndexOf(bs: nat, b: nat): (ls: set<Loc>)
    requires b < Reach(bs)
    ensures forall l :: l in ls ==> LocOk(bs, l) && !l.Data?
  {
    if b < DIRECT then {}
    else if b < DIRECT + PerBlock(bs) then {Singly}
    else {Doubly, Mid(MidOf(bs, b))}
  }

  /** Which of the index blocks below the doubly indirect one leads to block b. */
  function MidOf(bs: nat, b: nat): (c: nat)
    requires DIRECT + PerBlock(bs) <= b < Reach(bs)
    ensures c < PerBlock(bs) && HomeOf(bs, Data(b)).owner == Mid(c)
  {
    var p := PerBlock(bs);
    DivBound(b - DIRECT - p, p);
    (b - DIRECT - p) / p
  }

  /** The pointers among these that are not set. */
  function Lacking(t: Tree, ls: set<Loc>): set<Loc> {
    set l | l in ls && ShapeOk(t) && LocOk(t.bs, l) && Ptr(t, l) == 0
  }

  /** How many index blocks have to be allocated before block b can be put in its place. */
  function IndexLacking(t: Tree, b: nat): nat
    requires b < Reach(t.bs)
  {
    |Lacking(t, IndexOf(t.bs, b))|
  }

  function Lacks(t: Tree, l: Loc): nat
    requires ShapeOk(t) && LocOk(t.bs, l)
  {
    if Ptr(t, l) == 0 then 1 else 0
  }

  lemma LackingOne(t: Tree, l: Loc)
    requires ShapeOk(t) && LocOk(t.bs, l)
    ensures |Lacking(t, {l})| == Lacks(t, l)
  {
    hide Ptr;
    assert Lacking(t, {l}) == if Ptr(t, l) == 0 then {l} else {};
  }

  lemma LackingBoth(t: Tree, ls: set<Loc>, ms: set<Loc>)
    requires ls !! ms
    ensures |Lacking(t, ls + ms)| == |Lacking(t, ls)| + |Lacking(t, ms)|
  {
    hide Ptr;
    assert Lacking(t, ls + ms) == Lacking(t, ls) + Lacking(t, ms);
  }

  lemma IndexLackingIs(t: Tree, b: nat)
    requires ShapeOk(t) && b < Reach(t.bs)
    ensures IndexLacking(t, b) == if b < DIRECT then 0
                                  else if b < DIRECT + PerBlock(t.bs) then Lacks(t, Singly)
                                  else Lacks(t, Doubly) + Lacks(t, Mid(MidOf(t.bs, b)))
  {
    hide ShapeOk, Ptr, Lacks, Lacking, HomeOf, Reach, MidOf;
    if b < DIRECT {
      NothingLacking(t);
    } else if b < DIRECT + PerBlock(t.bs) {
      LackingOne(t, Singly);
    } else {
      var c := MidOf(t.bs, b);
      LackingOne(t, Doubly);
      LackingOne(t, Mid(c));
      LackingBoth(t, {Doubly}, {Mid(c)});
      assert {Doubly} + {Mid(c)} == {Doubly, Mid(c)};
    }
  }

  lemma NothingLacking(t: Tree)
    ensures Lacking(t, {}) == {}
  {
  }

  /** Where the pointer's index block is there, all of them on the way are. */
  lemma WayThere(t: Tree, b: nat)
    requires TreeOk(t) && b < Reach(t.bs) && Reachable(t, Data(b))
    ensures forall l :: l in IndexOf(t.bs, b) ==> Ptr(t, l) != 0
  {
    if b >= DIRECT + PerBlock(t.bs) {
      WordOfZeros(t.bs, MidOf(t.bs, b));
    }
  }

  // ----- what a step on a tree does and what it leaves alone

  ghost predicate NotIndex(t: Tree, n: nat)
    requires ShapeOk(t)
  {
    forall l :: LocOk(t.bs, l) && !l.Data? ==> Ptr(t, l) != n
  }

  /** t' is t with the pointer l set to r: every other pointer, and every block that is no
      index block, is as it was. */
  ghost predicate Stored(t: Tree, t': Tree, l: Loc, r: nat) {
    && TreeOk(t) && TreeOk(t') && t'.bs == t.bs
    && t'.inode.sectors == t.inode.sectors && t'.inode.size == t.inode.size
    && (forall m :: LocOk(t.bs, m) ==> Ptr(t', m) == if m == l then r else Ptr(t, m))
    && (forall n: nat :: NotIndex(t, n) ==> BlockAt(t.bs, t'.disk, n) == BlockAt(t.bs, t.disk, n))
  }

  lemma PutStored(t: Tree, l: Loc, r: nat)
    requires CanPut(t, l, r)
    ensures Stored(t, Put(t, l, r), l, r)
  {
    PutShape(t, l, r);
    PutTree(t, l, r);
  }

  /** Writing block n. */
  function Written(t: Tree, n: nat, data: Block): Tree {
    t.(disk := t.disk[n := data])
  }

  /** Writing a block that is no index block, or writing what is there, keeps all pointers. */
  lemma {:induction false} WrittenPtr(t: Tree, n: nat, data: Block, l: Loc)
    requires TreeOk(t) && |data| == t.bs && LocOk(t.bs, l)
    requires data == BlockAt(t.bs, t.disk, n) || (n != 0 && NotIndex(t, n))
    ensures ShapeOk(Written(t, n, data)) && Ptr(Written(t, n, data), l) == Ptr(t, l)
    decreases Depth(l)
  {
    match HomeOf(t.bs, l)
    case InInode =>
    case InBlock(owner, slot) => WrittenPtr(t, n, data, owner);
  }

  lemma WrittenTree(t: Tree, n: nat, data: Block)
    requires TreeOk(t) && |data| == t.bs
    requires data == BlockAt(t.bs, t.disk, n) || (n != 0 && NotIndex(t, n))
    ensures var t' := Written(t, n, data);
            TreeOk(t') && forall l :: LocOk(t.bs, l) ==> Ptr(t', l) == Ptr(t, l)
  {
    forall l | LocOk(t.bs, l)
      ensures ShapeOk(Written(t, n, data)) && Ptr(Written(t, n, data), l) == Ptr(t, l)
    {
      WrittenPtr(t, n, data, l);
    }
    assert ShapeOk(Written(t, n, data)) by { WrittenPtr(t, n, data, Singly); }
  }

  /** Rewriting a block with what it holds adds nothing to a step. */
  lemma RewrittenStored(t: Tree, t': Tree, l: Loc, r: nat, n: nat, data: Block)
    requires Stored(t, t', l, r) && |data| == t.bs && data == BlockAt(t.bs, t'.disk, n)
    ensures Stored(t, Written(t', n, data), l, r)
  {
    WrittenTree(t', n, data);
  }

  // ----- the blocks of the file

  /** The block that logical block b of the file reads from. */
  function DataBlock(t: Tree, b: nat): (blk: Block)
    requires ShapeOk(t) && b < Reach(t.bs)
    ensures |blk| == t.bs
  {
    BlockAt(t.bs, t.disk, Ptr(t, Data(b)))
  }

  lemma DataIsNoIndex(t: Tree, b: nat)
    requires TreeOk(t) && b < Reach(t.bs) && Ptr(t, Data(b)) != 0
    ensures NotIndex(t, Ptr(t, Data(b)))
  {
  }

  /** Writing a block of the file changes that block of the file only. */
  lemma StoreData(t: Tree, b: nat, data: Block)
    requires TreeOk(t) && b < Reach(t.bs) && Ptr(t, Data(b)) != 0 && |data| == t.bs
    ensures var t' := Written(t, Ptr(t, Data(b)), data);
            && TreeOk(t') && (forall l :: LocOk(t.bs, l) ==> Ptr(t', l) == Ptr(t, l))
            && forall m: nat :: m < Reach(t.bs) ==> DataBlock(t', m) == if m == b then data else DataBlock(t, m)
  {
    DataIsNoIndex(t, b);
    WrittenTree(t, Ptr(t, Data(b)), data);
  }

  /** Storing the pointer to a block of the file leaves the other blocks of the file. */
  lemma StoredBlocks(t: Tree, t': Tree, l: Loc, r: nat, m: nat)
    requires Stored(t, t', l, r) && m < Reach(t.bs) && l != Data(m)
    ensures DataBlock(t', m) == DataBlock(t, m)
  {
    if Ptr(t, Data(m)) != 0 { DataIsNoIndex(t, m); }
  }

  // ----- the format, read off the bytes: the tree without its functions

  /** The block of the disk for block b of a file: with twelve pointers in the inode, bs / 4 in the
      singly indirect block, and as many in each of the bs / 4 below the doubly indirect one. */
  function Pointer(bs: nat, disk: Disk, inode: Inode, b: nat): nat {
    if b < 12 then if b < |inode.dbp| then inode.dbp[b] else 0
    else if b < 12 + bs / 4 then DiskWord(disk, inode.singly, b - 12)
    else if b < 12 + bs / 4 + (bs / 4) * (bs / 4) && bs / 4 > 0 then
      var x := b - 12 - bs / 4;
      DiskWord(disk, DiskWord(disk, inode.doubly, x / (bs / 4)), x % (bs / 4))
    else 0
  }

  /** Byte k of a file is byte k modulo bs of the block that the format gives for k / bs. */
  function ByteOnDisk(bs: nat, disk: Disk, inode: Inode, k: nat): Byte {
    if bs == 0 then 0 else DiskByte(disk, Pointer(bs, disk, inode, k / bs), k % bs)
  }

  /** The tree has just the pointers and the bytes that the format says. */
  lemma PtrIsPointer(t: Tree, b: nat)
    requires ShapeOk(t)
    ensures Reach(t.bs) == 12 + t.bs / 4 + (t.bs / 4) * (t.bs / 4)
    ensures b < Reach(t.bs) ==> Ptr(t, Data(b)) == Pointer(t.bs, t.disk, t.inode, b)
    ensures b < Reach(t.bs) ==> forall j :: 0 <= j < t.bs ==>
              DataBlock(t, b)[j] == DiskByte(t.disk, Pointer(t.bs, t.disk, t.inode, b), j)
  {
    hide Word, DiskWord;
    var p := PerBlock(t.bs);
    if 12 <= b < 12 + p {
      WordIsDiskWord(t.bs, t.disk, t.inode.singly, b - 12);
    } else if 12 + p <= b < Reach(t.bs) {
      var x := b - 12 - p;
      DivBound(x, p);
      WordIsDiskWord(t.bs, t.disk, t.inode.doubly, x / p);
      assert Ptr(t, Mid(x / p)) == DiskWord(t.disk, t.inode.doubly, x / p);
      WordIsDiskWord(t.bs, t.disk, DiskWord(t.disk, t.inode.doubly, x / p), x % p);
    }
  }

  // ----- steps that allocate

  /** From t to t', with taken the blocks in use at t: every pointer that changed is to a block
      that was free, and the blocks in use that t does not refer to are as they were. */
  ghost predicate Evolves(t: Tree, t': Tree, taken: set<nat>) {
    && TreeOk(t) && TreeOk(t') && t'.bs == t.bs
    && (forall l :: LocOk(t.bs, l) ==> Ptr(t', l) == Ptr(t, l) || (Ptr(t', l) != 0 && Ptr(t', l) !in taken))
    && (forall n: nat :: n in taken && Unreferenced(t, n) ==> BlockAt(t.bs, t'.disk, n) == BlockAt(t.bs, t.disk, n))
  }

  lemma EvolvesTrans(t: Tree, t1: Tree, t2: Tree, taken: set<nat>, taken1: set<nat>)
    requires Evolves(t, t1, taken) && Evolves(t1, t2, taken1) && taken <= taken1
    ensures Evolves(t, t2, taken)
  {
    forall n: nat | n in taken && Unreferenced(t, n)
      ensures BlockAt(t.bs, t2.disk, n) == BlockAt(t.bs, t.disk, n)
    {
      assert Unreferenced(t1, n) by {
        forall l | LocOk(t1.bs, l) ensures Ptr(t1, l) != n {}
      }
    }
  }

  ghost predicate AllTaken(t: Tree, taken: set<nat>)
    requires ShapeOk(t)
  {
    forall l :: LocOk(t.bs, l) && Ptr(t, l) != 0 ==> Ptr(t, l) in taken
  }

  /** No block is part of both trees. */
  ghost predicate Apart(t: Tree, o: Tree)
    requires ShapeOk(t) && ShapeOk(o) && t.bs == o.bs
  {
    forall l :: LocOk(o.bs, l) && Ptr(o, l) != 0 ==> Unreferenced(t, Ptr(o, l))
  }

  lemma {:induction false} OtherPtr(t: Tree, t': Tree, taken: set<nat>, o: Tree, l: Loc)
    requires Evolves(t, t', taken) && TreeOk(o) && o.bs == t.bs && o.disk == t.disk && LocOk(o.bs, l)
    requires AllTaken(o, taken) && Apart(t, o)
    ensures ShapeOk(o.(disk := t'.disk)) && Ptr(o.(disk := t'.disk), l) == Ptr(o, l)
    decreases Depth(l)
  {
    match HomeOf(o.bs, l)
    case InInode =>
    case InBlock(owner, slot) => OtherPtr(t, t', taken, o, owner);
  }

  /** A step on one file does nothing to another that shares no block with it, and they go on
      sharing none. */
  lemma OtherFileKept(t: Tree, t': Tree, taken: set<nat>, o: Tree)
    requires Evolves(t, t', taken) && TreeOk(o) && o.bs == t.bs && o.disk == t.disk
    requires AllTaken(o, taken) && Apart(t, o)
    ensures var o' := o.(disk := t'.disk);
            && TreeOk(o') && Apart(t', o')
            && forall m: nat :: m < Reach(o.bs) ==>
                 Ptr(o', Data(m)) == Ptr(o, Data(m)) && DataBlock(o', m) == DataBlock(o, m)
  {
    var o' := o.(disk := t'.disk);
    forall l | LocOk(o.bs, l)
      ensures ShapeOk(o') && Ptr(o', l) == Ptr(o, l)
    {
      OtherPtr(t, t', taken, o, l);
    }
    assert ShapeOk(o') by { OtherPtr(t, t', taken, o, Singly); }
    forall l | LocOk(o.bs, l) && Ptr(o', l) != 0
      ensures Unreferenced(t', Ptr(o', l))
    {
      assert Unreferenced(t, Ptr(o, l));
    }
    forall m: nat | m < Reach(o.bs)
      ensures DataBlock(o', m) == DataBlock(o, m)
    {
      if Ptr(o, Data(m)) != 0 { assert Unreferenced(t, Ptr(o, Data(m))); }
    }
  }
}
