/** Any number of open files on a volume against plain byte arrays. */
module Ext2Run {
  import opened Ext2Disk
  import opened Ext2Tree
  import opened Ext2Inode
  import opened Ext2Bytes
  import opened Ext2File
  import opened Common

  // ----- plain files

  /** The contents of the files, by inode, and the positions of those that are open. */
  datatype Plain = Plain(contents: map<nat, seq<Byte>>, pos: seq<nat>)

  /** garbage is what malloc leaves in the buffer of a write. */
  datatype FileOp =
    | Seek(i: nat, to: nat)
    | Read(i: nat, count: nat)
    | Write(i: nat, data: seq<Byte>, garbage: Block)

  datatype Outcome = Done | Got(bytes: seq<Byte>) | Wrote(n: nat)

  /** Writes begin within the file or at its end, and end within reach. */
  predicate OpOk(w: Plain, owner: seq<nat>, bs: nat, op: FileOp) {
    && op.i < |owner| == |w.pos| && owner[op.i] in w.contents
    && (op.Write? ==>
          && w.pos[op.i] <= |w.contents[owner[op.i]]| && w.pos[op.i] + |op.data| <= Limit(bs)
          && |op.garbage| == bs)
  }

  function Step(w: Plain, owner: seq<nat>, bs: nat, op: FileOp): (Plain, Outcome)
    requires OpOk(w, owner, bs, op)
  {
    var n, p := owner[op.i], w.pos[op.i];
    var s := w.contents[n];
    match op
    case Seek(i, to) => (w.(pos := w.pos[i := to]), Done)
    case Read(i, count) =>
      var k := if |s| <= p then 0 else Min(count, |s| - p);
      (w.(pos := w.pos[i := p + k]), Got(if k == 0 then [] else s[p..p + k]))
    case Write(i, data, _) =>
      (Plain(w.contents[n := Overlaid(s, p, data)], w.pos[i := p + |data|]), Wrote(|data|))
  }

  predicate RunOk(w: Plain, owner: seq<nat>, bs: nat, ops: seq<FileOp>)
    decreases |ops|, 0
  {
    ops == [] ||
    (RunOk(w, owner, bs, ops[..|ops| - 1])
     && OpOk(Run(w, owner, bs, ops[..|ops| - 1]).0, owner, bs, ops[|ops| - 1]))
  }

  function Run(w: Plain, owner: seq<nat>, bs: nat, ops: seq<FileOp>): (Plain, seq<Outcome>)
    requires RunOk(w, owner, bs, ops)
    decreases |ops|, 1
  {
    if ops == [] then (w, [])
    else
      var (w1, os) := Run(w, owner, bs, ops[..|ops| - 1]);
      var (w2, o) := Step(w1, owner, bs, ops[|ops| - 1]);
      (w2, os + [o])
  }

  lemma {:induction false} RunPrefix(w: Plain, owner: seq<nat>, bs: nat, ops: seq<FileOp>, n: nat)
    requires RunOk(w, owner, bs, ops) && n <= |ops|
    ensures RunOk(w, owner, bs, ops[..n])
    decreases |ops| - n
  {
    if n == |ops| {
      assert ops[..n] == ops;
    } else {
      RunPrefix(w, owner, bs, ops, n + 1);
      assert ops[..n + 1][..n] == ops[..n];
    }
  }

  lemma RunNext(w: Plain, owner: seq<nat>, bs: nat, ops: seq<FileOp>, n: nat)
    requires RunOk(w, owner, bs, ops) && n < |ops|
    ensures RunOk(w, owner, bs, ops[..n]) && RunOk(w, owner, bs, ops[..n + 1])
    ensures var (w1, os) := Run(w, owner, bs, ops[..n]);
            && OpOk(w1, owner, bs, ops[n])
            && var (w2, o) := Step(w1, owner, bs, ops[n]);
               Run(w, owner, bs, ops[..n + 1]) == (w2, os + [o])
  {
    hide Step;
    RunPrefix(w, owner, bs, ops, n);
    RunPrefix(w, owner, bs, ops, n + 1);
    assert ops[..n + 1][..n] == ops[..n];
  }

  // ----- what a write may take

  /** More blocks than any such write takes: those it touches, and two index blocks for each. */
  function Need(bs: nat, op: FileOp): nat {
    if op.Write? && bs > 0 then 3 * (|op.data| / bs + 2) else 0
  }

  function NeedAll(bs: nat, ops: seq<FileOp>): nat {
    if ops == [] then 0 else NeedAll(bs, ops[..|ops| - 1]) + Need(bs, ops[|ops| - 1])
  }

  lemma {:induction false} NeedNext(bs: nat, ops: seq<FileOp>, n: nat)
    requires n < |ops|
    ensures NeedAll(bs, ops[..n + 1]) == NeedAll(bs, ops[..n]) + Need(bs, ops[n])
    ensures NeedAll(bs, ops[..n + 1]) <= NeedAll(bs, ops)
    decreases |ops| - n
  {
    hide Need;
    assert ops[..n + 1][..n] == ops[..n];
    if n + 1 < |ops| {
      NeedNext(bs, ops, n + 1);
    } else {
      assert ops[..n + 1] == ops;
    }
  }

  lemma {:induction false} WaysBound(bs: nat, blocks: set<nat>)
    ensures |Ways(bs, blocks)| <= 2 * |blocks|
    decreases |blocks|
  {
    hide IndexOf;
    if blocks == {} {
      assert Ways(bs, blocks) == {};
    } else {
      var b :| b in blocks;
      WaysBound(bs, blocks - {b});
      assert blocks == (blocks - {b}) + {b};
      WaysBoth(bs, blocks - {b}, {b});
      var x, y := Ways(bs, blocks - {b}), Ways(bs, {b});
      OneWay(bs, b);
      SubsetSize(x + y, x + y);
      assert |x + y| <= |x| + |y|;
    }
  }

  lemma OneWay(bs: nat, b: nat)
    ensures |Ways(bs, {b})| <= 2
  {
    if b < Reach(bs) {
      WaysOne(bs, b);
      hide Reach, HomeOf, MidOf;
      assert IndexOf(bs, b) == {} || IndexOf(bs, b) == {Singly} ||
             (b >= DIRECT + PerBlock(bs) && IndexOf(bs, b) == {Doubly, Mid(MidOf(bs, b))});
    } else {
      assert Ways(bs, {b}) == {};
    }
  }

  lemma CostBound(t: Tree, blocks: set<nat>)
    ensures Cost(t, blocks) <= 3 * |blocks|
  {
    hide Ways, Ptr;
    WaysBound(t.bs, blocks);
    SubsetSize(Lacking(t, Ways(t.bs, blocks)), Ways(t.bs, blocks));
  }

  lemma {:induction false} RangeSize(a: nat, b: int)
    ensures |Range(a, b)| == if a < b then b - a else 0
    decreases b - a
  {
    if a < b {
      RangeSize(a, b - 1);
      assert b - 1 !in Range(a, b - 1);
    }
  }

  /** A file without holes, and with its blocks counted. */
  ghost predicate Good(t: Tree, taken: set<nat>) {
    Whole(t, taken) && Bounded(t) && Covered(t) && HasBlocks(t, BlocksFor(t.inode.size, t.bs))
  }

  lemma CreatedBound(t: Tree, taken: set<nat>, fpos: nat, n: nat)
    requires Good(t, taken) && n > 0 && fpos <= t.inode.size && fpos + n <= Limit(t.bs)
    ensures t.bs > 0 && CreatedBy(t, fpos, n) <= Range(BlockOf(t.bs, fpos), BlocksFor(fpos + n, t.bs))
  {
    hide Whole, Ptr, Reach, BlocksFor, BlockOf, OffsetOf, BlockStart, Limit, TreeOk, ShapeOk;
    WholeEvolves(t, taken);
    var bs := t.bs;
    var start := BlockOf(bs, fpos);
    InReach(bs, fpos);
    LastBlock(bs, fpos + n);
    StartBeforeEnd(bs, fpos, n);
    if Ptr(t, Data(start)) == 0 {
      FirstMissing(t, fpos, start);
      AddedIsOne(Counted(t), start);
    }
  }

  lemma StartBeforeEnd(bs: nat, fpos: nat, n: nat)
    requires bs > 0 && n > 0
    ensures BlockOf(bs, fpos) < BlocksFor(fpos + n, bs)
    ensures BlocksFor(fpos + n, bs) - BlockOf(bs, fpos) <= n / bs + 2
  {
    hide BlockOf, OffsetOf, BlockStart, BlocksFor;
    var start, end := BlockOf(bs, fpos), BlockOf(bs, fpos + n);
    SplitAt(bs, fpos);
    SplitAt(bs, fpos + n);
    LastBlock(bs, fpos + n);
    BlockOrder(bs, start, OffsetOf(bs, fpos), end, OffsetOf(bs, fpos + n));
    BlocksApart(bs, start, OffsetOf(bs, fpos), end, OffsetOf(bs, fpos + n), n);
  }

  lemma BlocksApart(bs: nat, start: nat, off: nat, end: nat, rest: nat, n: nat)
    requires off < bs && rest < bs && start <= end && BlockStart(bs, start) + off + n == BlockStart(bs, end) + rest
    ensures end - start <= n / bs + 1
  {
    var d := end - start;
    assert d * bs == BlockStart(bs, end) - BlockStart(bs, start);
    if d > 0 {
      assert (d - 1) * bs == d * bs - bs;
      DivGe(n, d - 1, bs);
    }
  }

  /** In a file without holes the block a write starts in, if it is missing, is the next one. */
  lemma FirstMissing(t: Tree, fpos: nat, start: nat)
    requires ShapeOk(t) && t.bs >= 512 && Covered(t) && HasBlocks(t, BlocksFor(t.inode.size, t.bs))
    requires fpos <= t.inode.size && start == BlockOf(t.bs, fpos) < Reach(t.bs) && Ptr(t, Data(start)) == 0
    ensures start <= Counted(t)
  {
    hide ShapeOk, Ptr, Reach, BlocksFor, BlockOf, BlockStart, Counted, OffsetOf;
    var bs, size := t.bs, t.inode.size;
    SplitAt(bs, fpos);
    if start > 0 {
      EnoughBlocks(bs, size, start - 1);
      BlockOrder(bs, start - 1, 0, start, 0);
      BeyondCount(t, start - 1);
    }
  }

  lemma AddedIsOne(counted: nat, b: nat)
    requires b <= counted
    ensures AddedBlocks(counted, b) == {b}
  {
  }

  lemma NeedIsEnough(t: Tree, taken: set<nat>, fpos: nat, op: FileOp)
    requires Good(t, taken) && op.Write? && fpos <= t.inode.size && fpos + |op.data| <= Limit(t.bs)
    ensures ShapeOk(t) && Cost(t, CreatedBy(t, fpos, |op.data|)) <= Need(t.bs, op)
  {
    hide Whole, BlocksFor, BlockOf, Limit, Ways, Lacking, ShapeOk, Created, Cost;
    WholeEvolves(t, taken);
    var n := |op.data|;
    var blocks := CreatedBy(t, fpos, n);
    if n > 0 {
      CreatedBound(t, taken, fpos, n);
      StartBeforeEnd(t.bs, fpos, n);
      var start, last := BlockOf(t.bs, fpos), BlocksFor(fpos + n, t.bs);
      RangeSize(start, last);
      SubsetSize(blocks, Range(start, last));
    }
    CostBound(t, blocks);
  }

  // ----- all files at once

  /** The files are whole and have no block in common. */
  ghost predicate AllGood(bs: nat, disk: Disk, inodes: map<nat, Inode>, inos: set<nat>, taken: set<nat>) {
    && (forall n :: n in inos ==> n in inodes && Good(Tree(bs, disk, inodes[n]), taken))
    && (forall m, n :: m in inos && n in inos && m != n ==> Separate(bs, disk, inodes, m, n))
  }

  ghost predicate Separate(bs: nat, disk: Disk, inodes: map<nat, Inode>, m: nat, n: nat) {
    && m in inodes && n in inodes
    && ShapeOk(Tree(bs, disk, inodes[m])) && ShapeOk(Tree(bs, disk, inodes[n]))
    && Ext2Tree.Apart(Tree(bs, disk, inodes[m]), Tree(bs, disk, inodes[n]))
  }

  lemma GoodParts(t: Tree, taken: set<nat>)
    requires Good(t, taken)
    ensures TreeOk(t) && ShapeOk(t) && Bounded(t) && AllTaken(t, taken) && t.bs >= 512 && Covered(t)
    ensures HasBlocks(t, BlocksFor(t.inode.size, t.bs)) && Whole(t, taken)
  {
  }

  /** Another file after a step on t. */
  lemma OtherGood(t: Tree, t': Tree, taken: set<nat>, taken': set<nat>, o: Tree)
    requires Evolves(t, t', taken) && taken <= taken' && Whole(t', taken') && Good(o, taken)
    requires o.bs == t.bs && o.disk == t.disk && ShapeOk(t) && ShapeOk(o) && Ext2Tree.Apart(t, o)
    ensures var o' := o.(disk := t'.disk);
            && Good(o', taken') && ShapeOk(t') && ShapeOk(o') && Ext2Tree.Apart(t', o') && Contents(o') == Contents(o)
            && forall l :: LocOk(o.bs, l) ==> Ptr(o', l) == Ptr(o, l)
  {
    hide Evolves, Ptr, Reach, Limit, Ext2Tree.Apart, Contents, BlocksFor, SectorsTo;
    GoodParts(o, taken);
    EvolvesTree(t, t', taken);
    OtherFileKept(t, t', taken, o);
    OtherContentsKept(t, t', taken, o);
    var o' := o.(disk := t'.disk);
    forall l | LocOk(o.bs, l)
      ensures Ptr(o', l) == Ptr(o, l)
    {
      OtherPtr(t, t', taken, o, l);
    }
    OtherWhole(t', o, o', taken, taken');
  }

  lemma OtherWhole(t': Tree, o: Tree, o': Tree, taken: set<nat>, taken': set<nat>)
    requires Whole(t', taken') && Whole(o, taken) && taken <= taken' && TreeOk(o') && ShapeOk(o) && ShapeOk(o')
    requires o' == o.(disk := t'.disk) && t'.bs == o.bs && forall l :: LocOk(o.bs, l) ==> Ptr(o', l) == Ptr(o, l)
    ensures Whole(o', taken')
  {
    hide TreeOk, Ptr, Reach, ShapeOk;
  }

  lemma ApartEither(t: Tree, o: Tree)
    requires ShapeOk(t) && ShapeOk(o) && t.bs == o.bs && Ext2Tree.Apart(t, o)
    ensures Ext2Tree.Apart(o, t)
  {
    hide ShapeOk, Ptr, Reach;
    forall l | LocOk(t.bs, l) && Ptr(t, l) != 0
      ensures Unreferenced(o, Ptr(t, l))
    {
      forall m | LocOk(o.bs, m)
        ensures Ptr(o, m) != Ptr(t, l)
      {
        assert Ptr(o, m) != 0 ==> Unreferenced(t, Ptr(o, m));
      }
    }
  }

  lemma SamePtrsApart(t: Tree, o: Tree, t': Tree, o': Tree)
    requires ShapeOk(t) && ShapeOk(o) && ShapeOk(t') && ShapeOk(o') && t.bs == o.bs == t'.bs == o'.bs
    requires Ext2Tree.Apart(t, o)
    requires forall l :: LocOk(t.bs, l) ==> Ptr(t', l) == Ptr(t, l) && Ptr(o', l) == Ptr(o, l)
    ensures Ext2Tree.Apart(t', o')
  {
    hide ShapeOk, Ptr, Reach;
    forall l | LocOk(o.bs, l) && Ptr(o', l) != 0
      ensures Unreferenced(t', Ptr(o', l))
    {
      assert Unreferenced(t, Ptr(o, l));
    }
  }

  /** A step on file n leaves all files as they should be, and the contents of the others. */
  lemma StepKeepsAll(bs: nat, disk: Disk, inodes: map<nat, Inode>, inos: set<nat>, taken: set<nat>,
                     disk': Disk, inodes': map<nat, Inode>, taken': set<nat>, n: nat)
    requires AllGood(bs, disk, inodes, inos, taken) && n in inos && n in inodes' && taken <= taken'
    requires inodes' == inodes[n := inodes'[n]]
    requires Evolves(Tree(bs, disk, inodes[n]), Tree(bs, disk', inodes'[n]), taken)
    requires Good(Tree(bs, disk', inodes'[n]), taken')
    ensures AllGood(bs, disk', inodes', inos, taken')
    ensures forall m :: m in inos ==> Bounded(Tree(bs, disk, inodes[m])) && Bounded(Tree(bs, disk', inodes'[m]))
    ensures forall m :: m in inos && m != n ==>
              Contents(Tree(bs, disk', inodes'[m])) == Contents(Tree(bs, disk, inodes[m]))
  {
    hide Evolves, Good, Ptr, Reach, Ext2Tree.Apart, Contents, ShapeOk, Bounded;
    var t, t' := Tree(bs, disk, inodes[n]), Tree(bs, disk', inodes'[n]);
    GoodParts(t, taken);
    GoodParts(t', taken');
    forall m | m in inos && m != n
      ensures OtherKept(bs, disk, inodes, disk', inodes', taken', m) && Separate(bs, disk', inodes', n, m)
      ensures Separate(bs, disk', inodes', m, n)
    {
      assert Separate(bs, disk, inodes, n, m);
      GoodParts(Tree(bs, disk, inodes[m]), taken);
      OtherGood(t, t', taken, taken', Tree(bs, disk, inodes[m]));
      GoodParts(Tree(bs, disk', inodes'[m]), taken');
      ApartEither(t', Tree(bs, disk', inodes'[m]));
    }
    forall m, k | m in inos && k in inos && m != k && m != n && k != n
      ensures Separate(bs, disk', inodes', m, k)
    {
      assert Separate(bs, disk, inodes, m, k);
      assert OtherKept(bs, disk, inodes, disk', inodes', taken', m);
      assert OtherKept(bs, disk, inodes, disk', inodes', taken', k);
      SamePtrsApart(Tree(bs, disk, inodes[m]), Tree(bs, disk, inodes[k]), Tree(bs, disk', inodes'[m]),
                    Tree(bs, disk', inodes'[k]));
    }
    forall m | m in inos && m != n
      ensures Bounded(Tree(bs, disk, inodes[m])) && Bounded(Tree(bs, disk', inodes'[m]))
      ensures Contents(Tree(bs, disk', inodes'[m])) == Contents(Tree(bs, disk, inodes[m]))
      ensures Good(Tree(bs, disk', inodes'[m]), taken')
    {
      assert OtherKept(bs, disk, inodes, disk', inodes', taken', m);
    }
  }

  ghost predicate OtherKept(bs: nat, disk: Disk, inodes: map<nat, Inode>, disk': Disk, inodes': map<nat, Inode>,
                            taken': set<nat>, m: nat)
  {
    && m in inodes && m in inodes' && inodes'[m] == inodes[m]
    && var o, o' := Tree(bs, disk, inodes[m]), Tree(bs, disk', inodes'[m]);
       && Good(o', taken') && Bounded(o) && Bounded(o') && Contents(o') == Contents(o)
       && ShapeOk(o) && ShapeOk(o') && forall l :: LocOk(bs, l) ==> Ptr(o', l) == Ptr(o, l)
  }

  // ----- a write to a file without holes

  /** A write that starts within the file or at its end lays the data over the contents, and the
      file has no holes afterwards, either. */
  method WriteWithin(f: File, data: seq<Byte>, garbage: Block) returns (rc: nat)
    requires f.fs.Valid(f.ino) && Good(f.T(), f.fs.Taken())
    requires f.fpos <= f.T().inode.size && f.fpos + |data| <= Limit(f.fs.bs) && |garbage| == f.fs.bs
    requires ShapeOk(f.T()) && f.fs.vol.unallocated >= Cost(f.T(), CreatedBy(f.T(), f.fpos, |data|))
    modifies f, f.fs, f.fs.vol
    ensures rc == |data| && f.fpos == old(f.fpos) + rc
    ensures f.fs.Valid(f.ino) && Good(f.T(), f.fs.Taken()) && old(f.fs.Taken()) <= f.fs.Taken()
    ensures old(Bounded(f.T())) && Bounded(f.T())
    ensures Contents(f.T()) == Overlaid(old(Contents(f.T())), old(f.fpos), data)
    ensures Evolves(old(f.T()), f.T(), old(f.fs.Taken()))
    ensures f.fs.inodes == old(f.fs.inodes)[f.ino := f.fs.inodes[f.ino]]
    ensures f.fs.vol.unallocated
            == old(f.fs.vol.unallocated) - Cost(old(f.T()), CreatedBy(old(f.T()), old(f.fpos), |data|))
  {
    hide Whole, Evolves, TreeOk, ShapeOk, Ptr, Reach, Limit, BlocksFor, NewBlock, Contents, Cost, PtrsPut, Covered;
    hide Overlaid;
    hide Ext2Alloc.Consistent, Ext2Alloc.TakenSet, HasBlocks, DataBlock, CreatedBy, Bounded, Overlaid, Good;
    hide Ext2Alloc.GeometryOk, Ext2Alloc.BitmapsOn, Ext2Alloc.FreeOn, Ext2Alloc.Apart, Ext2Alloc.BitmapsOk;
    ghost var t, pos := f.T(), f.fpos;
    GoodParts(t, f.fs.Taken());
    rc := f.WriteFile(data, garbage);
    GoodFrom(f.T(), f.fs.Taken());
    WrittenWithin(t, f.T(), pos, data, garbage);
  }

  lemma GoodFrom(t: Tree, taken: set<nat>)
    ensures Whole(t, taken) && Bounded(t) && Covered(t) && HasBlocks(t, BlocksFor(t.inode.size, t.bs)) ==>
              Good(t, taken)
  {
  }

  lemma WrittenWithin(t: Tree, t': Tree, fpos: nat, data: seq<Byte>, garbage: Block)
    requires TreeOk(t) && Bounded(t) && HasBlocks(t, BlocksFor(t.inode.size, t.bs)) && fpos <= t.inode.size
    requires Bounded(t') && t'.bs == t.bs && fpos + |data| <= Limit(t.bs) && |garbage| == t.bs
    requires t'.inode.size == if data == [] then t.inode.size else Max(t.inode.size, fpos + |data|)
    requires forall m: nat :: m < Reach(t.bs) ==> DataBlock(t', m) == NewBlock(t, fpos, data, garbage, m)
    requires PtrsPut(t, t', CreatedBy(t, fpos, |data|))
    ensures HasBlocks(t', BlocksFor(t'.inode.size, t'.bs)) && Contents(t') == Overlaid(Contents(t), fpos, data)
  {
    hide TreeOk, ShapeOk, Ptr, Reach, Limit, BlocksFor, NewBlock, Contents, PtrsPut, HasBlocks, DataBlock, CreatedBy;
    if data == [] {
      NothingThere(t, t', fpos, garbage);
    } else {
      StaysWithoutHoles(t, t', fpos, |data|);
      OverlayIfUndisturbed(t, fpos, data, garbage);
      NewContentsAre(t, t', fpos, data, garbage);
      ContentsAre(t, fpos);
    }
  }

  lemma ContentsAre(t: Tree, fpos: nat)
    requires Bounded(t) && fpos <= t.inode.size
    ensures Bytes(t, Max(t.inode.size, fpos)) == Contents(t)
  {
  }

  lemma NothingThere(t: Tree, t': Tree, fpos: nat, garbage: Block)
    requires TreeOk(t) && Bounded(t) && HasBlocks(t, BlocksFor(t.inode.size, t.bs)) && fpos <= t.inode.size
    requires Bounded(t') && t'.bs == t.bs && t'.inode.size == t.inode.size && |garbage| == t.bs
    requires forall m: nat :: m < Reach(t.bs) ==> DataBlock(t', m) == NewBlock(t, fpos, [], garbage, m)
    requires PtrsPut(t, t', CreatedBy(t, fpos, 0))
    ensures HasBlocks(t', BlocksFor(t'.inode.size, t'.bs)) && Contents(t') == Overlaid(Contents(t), fpos, [])
  {
    hide TreeOk, ShapeOk, Ptr, Reach, Limit, BlocksFor, Contents, DataBlock;
    ShapeSize(t);
    forall m: nat | m < Reach(t.bs)
      ensures DataBlock(t', m) == DataBlock(t, m)
    {
      assert !Touched(t.bs, fpos, 0, m);
    }
    SameContents(t, t');
    SamePresent(t, t', BlocksFor(t.inode.size, t.bs));
    assert Overlaid(Contents(t), fpos, []) == Contents(t);
  }

  lemma SamePresent(t: Tree, t': Tree, n: nat)
    requires ShapeOk(t) && PtrsPut(t, t', {}) && HasBlocks(t, n)
    ensures HasBlocks(t', n)
  {
    hide ShapeOk, Ptr, Reach, Ways;
    forall b: nat | b < n
      ensures Ptr(t', Data(b)) != 0
    {
      assert OffWay(t, Data(b), {});
    }
  }

  // ----- the run

  ghost predicate FilesOk(fs: FileSystem, files: seq<File>, inos: set<nat>)
    reads fs, fs.vol
  {
    && inos != {} && (forall n :: n in inos ==> fs.Valid(n))
    && AllGood(fs.bs, fs.disk, fs.inodes, inos, fs.Taken())
    && (forall i :: 0 <= i < |files| ==> files[i].fs == fs && files[i].ino in inos)
    && (forall i, j :: 0 <= i < j < |files| ==> files[i] != files[j])
  }

  ghost function View(fs: FileSystem, files: seq<File>, inos: set<nat>): Plain
    requires forall n :: n in inos ==> n in fs.inodes && Bounded(Tree(fs.bs, fs.disk, fs.inodes[n]))
    reads fs, files
  {
    Plain(AllContents(fs, inos), Positions(files))
  }

  ghost function AllContents(fs: FileSystem, inos: set<nat>): map<nat, seq<Byte>>
    requires forall n :: n in inos ==> n in fs.inodes && Bounded(Tree(fs.bs, fs.disk, fs.inodes[n]))
    reads fs
  {
    map n | n in inos :: Contents(Tree(fs.bs, fs.disk, fs.inodes[n]))
  }

  ghost function Positions(files: seq<File>): (r: seq<nat>)
    reads files
    ensures |r| == |files| && forall i :: 0 <= i < |files| ==> r[i] == files[i].fpos
  {
    if files == [] then [] else Positions(files[..|files| - 1]) + [files[|files| - 1].fpos]
  }

  lemma AllBounded(bs: nat, disk: Disk, inodes: map<nat, Inode>, inos: set<nat>, taken: set<nat>)
    requires AllGood(bs, disk, inodes, inos, taken)
    ensures forall n :: n in inos ==> n in inodes && Bounded(Tree(bs, disk, inodes[n]))
    ensures forall n :: n in inos ==> Good(Tree(bs, disk, inodes[n]), taken)
  {
    hide Whole, ShapeOk, Limit, HasBlocks, BlocksFor;
  }

  lemma AllWhole(bs: nat, disk: Disk, inodes: map<nat, Inode>, inos: set<nat>, taken: set<nat>)
    requires AllGood(bs, disk, inodes, inos, taken)
    ensures forall n :: n in inos ==> n in inodes && Whole(Tree(bs, disk, inodes[n]), taken)
  {
    hide Good, Whole;
    forall n | n in inos
      ensures n in inodes && Whole(Tree(bs, disk, inodes[n]), taken)
    {
      GoodParts(Tree(bs, disk, inodes[n]), taken);
    }
  }

  /** ext2_file's seek, read or write, on one of the open files. */
  method Do(fs: FileSystem, files: seq<File>, op: FileOp, ghost inos: set<nat>, ghost owner: seq<nat>)
    returns (o: Outcome)
    requires FilesOk(fs, files, inos) && |owner| == |files| && forall i :: 0 <= i < |files| ==> owner[i] == files[i].ino
    requires forall n :: n in inos ==> n in fs.inodes && Bounded(Tree(fs.bs, fs.disk, fs.inodes[n]))
    requires OpOk(View(fs, files, inos), owner, fs.bs, op) && fs.vol.unallocated >= Need(fs.bs, op)
    modifies fs, fs.vol, files
    ensures FilesOk(fs, files, inos)
    ensures forall n :: n in inos ==> n in fs.inodes && Bounded(Tree(fs.bs, fs.disk, fs.inodes[n]))
    ensures (View(fs, files, inos), o) == Step(old(View(fs, files, inos)), owner, fs.bs, op)
    ensures fs.vol.unallocated + Need(fs.bs, op) >= old(fs.vol.unallocated)
  {
    hide AllGood, Contents, Overlaid, Bounded, Limit, Whole, Need, AllContents, Positions;
    hide Ext2Alloc.Consistent, Ext2Alloc.TakenSet, Ext2Alloc.GeometryOk, Ext2Alloc.Apart, Ext2Alloc.BitmapsOk;
    var f := files[op.i];
    ghost var w := View(fs, files, inos);
    ContentsAt(fs, inos, f.ino);
    match op {
      case Seek(i, to) =>
        f.fpos := to;
        o := Done;
      case Read(i, count) =>
        o := DoRead(fs, f, count);
      case Write(i, data, garbage) =>
        DoWrite(fs, files, f, op, inos);
        o := Wrote(|data|);
    }
    PositionsMoved(files, op.i, w.pos);
  }

  lemma ContentsAt(fs: FileSystem, inos: set<nat>, n: nat)
    requires forall n :: n in inos ==> n in fs.inodes && Bounded(Tree(fs.bs, fs.disk, fs.inodes[n]))
    requires n in inos
    ensures n in AllContents(fs, inos) && AllContents(fs, inos)[n] == Contents(Tree(fs.bs, fs.disk, fs.inodes[n]))
  {
  }

  /** Positions after file i moved. */
  lemma PositionsMoved(files: seq<File>, i: nat, pos: seq<nat>)
    requires i < |files| == |pos| && forall j :: 0 <= j < |files| && j != i ==> files[j].fpos == pos[j]
    ensures Positions(files) == pos[i := files[i].fpos]
  {
  }

  method DoRead(fs: FileSystem, f: File, count: nat) returns (o: Outcome)
    requires f.fs == fs && f.Readable()
    modifies f`fpos
    ensures var s, p := Contents(f.T()), old(f.fpos);
            var k := if |s| <= p then 0 else Min(count, |s| - p);
            f.fpos == p + k && o == Got(if k == 0 then [] else s[p..p + k])
  {
    hide Contents, Limit, ShapeOk, Whole;
    var buf := new Byte[count](_ => 0);
    var rc := f.ReadFile(buf, count);
    o := Got(buf[..rc]);
  }

  method DoWrite(fs: FileSystem, files: seq<File>, f: File, op: FileOp, ghost inos: set<nat>)
    requires FilesOk(fs, files, inos) && op.Write? && op.i < |files| && f == files[op.i]
    requires forall n :: n in inos ==> n in fs.inodes && Bounded(Tree(fs.bs, fs.disk, fs.inodes[n]))
    requires f.fpos <= |Contents(f.T())| && f.fpos + |op.data| <= Limit(fs.bs) && |op.garbage| == fs.bs
    requires fs.vol.unallocated >= Need(fs.bs, op)
    modifies fs, fs.vol, f
    ensures FilesOk(fs, files, inos)
    ensures forall n :: n in inos ==> n in fs.inodes && Bounded(Tree(fs.bs, fs.disk, fs.inodes[n]))
    ensures f.fpos == old(f.fpos) + |op.data|
    ensures old(Bounded(f.T())) && Contents(f.T()) == Overlaid(old(Contents(f.T())), old(f.fpos), op.data)
    ensures AllContents(fs, inos) == old(AllContents(fs, inos))[f.ino := Contents(f.T())]
    ensures fs.vol.unallocated + Need(fs.bs, op) >= old(fs.vol.unallocated)
  {
    hide AllGood, Contents, Overlaid, Bounded, Limit, Whole, Need, Good, Cost, CreatedBy, ShapeOk, Evolves;
    hide Ext2Alloc.Consistent, Ext2Alloc.TakenSet, Ext2Alloc.GeometryOk, Ext2Alloc.Apart, Ext2Alloc.BitmapsOk;
    ghost var disk0, inodes0, taken0, t := fs.disk, fs.inodes, fs.Taken(), f.T();
    AllBounded(fs.bs, disk0, inodes0, inos, taken0);
    ContentsSize(t);
    NeedIsEnough(t, taken0, f.fpos, op);
    var rc := WriteWithin(f, op.data, op.garbage);
    StepKeepsAll(fs.bs, disk0, inodes0, inos, taken0, fs.disk, fs.inodes, fs.Taken(), f.ino);
    assert AllContents(fs, inos) == old(AllContents(fs, inos))[f.ino := Contents(f.T())];
    AllWhole(fs.bs, fs.disk, fs.inodes, inos, fs.Taken());
  }

  lemma ContentsSize(t: Tree)
    requires Bounded(t)
    ensures |Contents(t)| == t.inode.size && ShapeOk(t)
  {
  }

  /** Any sequence of seeks, reads and writes on any open files, several of them on the same file or
      on others: every result, all contents and all positions are those of plain byte arrays. There
      have to be free blocks for what the writes may take. */
  method RunFiles(fs: FileSystem, files: seq<File>, ops: seq<FileOp>, ghost inos: set<nat>, ghost owner: seq<nat>)
    returns (outcomes: seq<Outcome>)
    requires FilesOk(fs, files, inos) && |owner| == |files| && forall i :: 0 <= i < |files| ==> owner[i] == files[i].ino
    requires forall n :: n in inos ==> n in fs.inodes && Bounded(Tree(fs.bs, fs.disk, fs.inodes[n]))
    requires RunOk(View(fs, files, inos), owner, fs.bs, ops) && fs.vol.unallocated >= NeedAll(fs.bs, ops)
    modifies fs, fs.vol, files
    ensures FilesOk(fs, files, inos)
    ensures forall n :: n in inos ==> n in fs.inodes && Bounded(Tree(fs.bs, fs.disk, fs.inodes[n]))
    ensures (View(fs, files, inos), outcomes) == Run(old(View(fs, files, inos)), owner, fs.bs, ops)
    ensures fs.vol.unallocated + NeedAll(fs.bs, ops) >= old(fs.vol.unallocated)
  {
    hide AllGood, Contents, Overlaid, Bounded, Limit, Whole, Need, Step, FilesOk, View;
    outcomes := [];
    ghost var w0 := View(fs, files, inos);
    var n := 0;
    while n < |ops|
      invariant n <= |ops| && FilesOk(fs, files, inos)
      invariant forall n :: n in inos ==> n in fs.inodes && Bounded(Tree(fs.bs, fs.disk, fs.inodes[n]))
      invariant RunOk(w0, owner, fs.bs, ops[..n])
      invariant (View(fs, files, inos), outcomes) == Run(w0, owner, fs.bs, ops[..n])
      invariant fs.vol.unallocated + NeedAll(fs.bs, ops[..n]) >= old(fs.vol.unallocated)
    {
      RunNext(w0, owner, fs.bs, ops, n);
      NeedNext(fs.bs, ops, n);
      var o := Do(fs, files, ops[n], inos, owner);
      outcomes := outcomes + [o];
      n := n + 1;
    }
    assert ops[..n] == ops;
  }
}
