/** Block allocation on an ext2 volume: descriptors of the block groups, each with a free count and
    the place of a usage bitmap, and a total in the superblock. */
module Ext2Alloc {
  import opened Bits
  import opened BitRuns
  import opened Bitmaps
  import opened Common
  import opened Ext2Disk

  function Sum(xs: seq<nat>): nat {
    if xs == [] then 0 else Sum(xs[..|xs| - 1]) + xs[|xs| - 1]
  }

  lemma {:induction false} SumUpdate(xs: seq<nat>, i: nat, v: nat)
    requires i < |xs|
    ensures Sum(xs[i := v]) == Sum(xs) - xs[i] + v
  {
    var n := |xs| - 1;
    if i < n {
      SumUpdate(xs[..n], i, v);
      assert xs[i := v][..n] == xs[..n][i := v];
    } else {
      assert xs[i := v][..n] == xs[..n];
    }
  }

  lemma {:induction false} SumZero(xs: seq<nat>)
    ensures Sum(xs) == 0 <==> forall i :: 0 <= i < |xs| ==> xs[i] == 0
  {
    if xs != [] {
      var n := |xs| - 1;
      SumZero(xs[..n]);
      assert forall i :: 0 <= i < n ==> xs[..n][i] == xs[i];
    }
  }

  ghost predicate BitmapOk(words: seq<nat>, perGroup: nat) {
    |words| >= ElemCnt(perGroup) && forall i :: 0 <= i < |words| ==> words[i] < WORD
  }

  ghost predicate BitmapsOk(bitmaps: seq<seq<nat>>, perGroup: nat) {
    forall i :: 0 <= i < |bitmaps| ==> BitmapOk(bitmaps[i], perGroup)
  }

  /** What the usage bitmap of group i says. */
  ghost function Usage(bitmaps: seq<seq<nat>>, perGroup: nat, i: nat): (bits: seq<bool>)
    requires BitmapsOk(bitmaps, perGroup) && i < |bitmaps|
    ensures |bits| == perGroup
  {
    assert BitmapOk(bitmaps[i], perGroup);
    BitsOf(bitmaps[i], perGroup)
  }

  /** A group's free count is the number of clear bits in its bitmap. */
  ghost predicate CountOk(bitmaps: seq<seq<nat>>, perGroup: nat, free: seq<nat>, i: nat)
    requires BitmapsOk(bitmaps, perGroup) && i < |bitmaps| == |free|
  {
    free[i] == CountOf(Usage(bitmaps, perGroup, i), false)
  }

  ghost predicate Consistent(bitmaps: seq<seq<nat>>, perGroup: nat, free: seq<nat>, unallocated: nat)
    requires BitmapsOk(bitmaps, perGroup) && |bitmaps| == |free|
  {
    && (forall i :: 0 <= i < |free| ==> CountOk(bitmaps, perGroup, free, i))
    && unallocated == Sum(free)
  }

  /** Block number n is handed out: bit k of group i counts as block i * perGroup + k + 1. */
  ghost predicate Taken(bitmaps: seq<seq<nat>>, perGroup: nat, n: nat)
    requires BitmapsOk(bitmaps, perGroup) && perGroup > 0
  {
    && n > 0
    && (n - 1) / perGroup < |bitmaps|
    && Usage(bitmaps, perGroup, (n - 1) / perGroup)[(n - 1) % perGroup]
  }

  /** The group and the bit that block number n counts for. */
  function GroupOf(perGroup: nat, n: nat): nat
    requires perGroup > 0 && n > 0
  {
    (n - 1) / perGroup
  }

  function BitIn(perGroup: nat, n: nat): nat
    requires perGroup > 0 && n > 0
  {
    (n - 1) % perGroup
  }

  lemma BlockNumber(perGroup: nat, i: nat, k: nat, n: nat)
    requires k < perGroup
    ensures n == i * perGroup + k + 1 <==> n > 0 && (n - 1) / perGroup == i && (n - 1) % perGroup == k
  {
    if n == i * perGroup + k + 1 {
      ModUnique(n - 1, i, perGroup, k);
    }
  }

  /** The first clear bit of group i, if its descriptor says that there is one. */
  ghost function Candidate(bitmaps: seq<seq<nat>>, perGroup: nat, free: seq<nat>, i: nat): (r: Option<nat>)
    requires BitmapsOk(bitmaps, perGroup) && i < |bitmaps| == |free|
    ensures r.Some? ==> free[i] > 0 && r.value < perGroup && !Usage(bitmaps, perGroup, i)[r.value]
  {
    if free[i] > 0 then FirstRun(Usage(bitmaps, perGroup, i), 0, 1, false) else None
  }

  lemma CandidateIffFree(bitmaps: seq<seq<nat>>, perGroup: nat, free: seq<nat>, i: nat)
    requires BitmapsOk(bitmaps, perGroup) && i < |bitmaps| == |free| && CountOk(bitmaps, perGroup, free, i)
    ensures Candidate(bitmaps, perGroup, free, i).Some? <==> free[i] > 0
  {
    var bits := Usage(bitmaps, perGroup, i);
    CountOfPositive(bits, false);
    if free[i] > 0 {
      var k :| 0 <= k < |bits| && bits[k] == false;
      assert AllAre(bits, k, 1, false);
    }
  }

  ghost function TakenSet(bitmaps: seq<seq<nat>>, perGroup: nat): (s: set<nat>)
    requires BitmapsOk(bitmaps, perGroup) && perGroup > 0
    ensures forall n: nat :: n in s <==> Taken(bitmaps, perGroup, n)
    ensures forall n :: n in s ==> 0 < n <= |bitmaps| * perGroup
  {
    forall n: nat | Taken(bitmaps, perGroup, n)
      ensures n <= |bitmaps| * perGroup
    {
      TakenBound(bitmaps, perGroup, n);
    }
    set n: nat | n <= |bitmaps| * perGroup && Taken(bitmaps, perGroup, n)
  }

  lemma TakenBound(bitmaps: seq<seq<nat>>, perGroup: nat, n: nat)
    requires BitmapsOk(bitmaps, perGroup) && perGroup > 0 && Taken(bitmaps, perGroup, n)
    ensures n <= |bitmaps| * perGroup
  {
    var q, r := (n - 1) / perGroup, (n - 1) % perGroup;
    assert n - 1 == q * perGroup + r;
    MulMono(|bitmaps| - q, perGroup);
    assert |bitmaps| * perGroup == (|bitmaps| - q) * perGroup + q * perGroup;
  }

  // ----- where the descriptors are, and what ext2 calls the blocks

  const SUPERBLOCK_BYTES := 1024
  const DESCRIPTOR_BYTES := 32

  /** The block that holds byte 1024 of the volume, where ext2 has the superblock, and where it
      starts to number the blocks of the groups. */
  function SuperblockAt(bs: nat): nat
    requires bs > 0
  {
    SUPERBLOCK_BYTES / bs
  }

  /** The block from which ext2_mount has the descriptors read. */
  function FirstBgd(superblockId: nat, bs: nat): nat
    requires bs > 0
  {
    superblockId + SUPERBLOCK_BYTES / bs
  }

  /** ext2 has the descriptors in the block behind the superblock. They are looked for there
      exactly with blocks of 1024 bytes; with larger blocks block 0 is read, which holds the
      boot record. */
  lemma DescriptorsFound(bs: nat, hint: nat)
    requires bs == SUPERBLOCK_BYTES * Pow2(hint)
    ensures FirstBgd(SuperblockAt(bs), bs) == SuperblockAt(bs) + 1 <==> bs == SUPERBLOCK_BYTES
    ensures bs > SUPERBLOCK_BYTES ==> FirstBgd(SuperblockAt(bs), bs) == 0
  {
    if hint > 0 {
      assert Pow2(hint) == 2 * Pow2(hint - 1);
    }
  }

  /** In ext2, bit k of group i stands for block first + i * perGroup + k, where first is the
      block that holds the superblock. */
  ghost predicate InUse(bitmaps: seq<seq<nat>>, perGroup: nat, first: nat, n: nat)
    requires BitmapsOk(bitmaps, perGroup) && perGroup > 0
  {
    && n >= first
    && (n - first) / perGroup < |bitmaps|
    && Usage(bitmaps, perGroup, (n - first) / perGroup)[(n - first) % perGroup]
  }

  /** Where the descriptors are found, the numbers that the allocator gives are those of ext2. */
  lemma TakenIsInUse(bitmaps: seq<seq<nat>>, perGroup: nat, bs: nat, n: nat)
    requires BitmapsOk(bitmaps, perGroup) && perGroup > 0
    requires bs > 0 && FirstBgd(SuperblockAt(bs), bs) == SuperblockAt(bs) + 1
    ensures Taken(bitmaps, perGroup, n) <==> InUse(bitmaps, perGroup, SuperblockAt(bs), n)
  {
  }

  // ----- the descriptors in their block

  /** num_of_unalloc_block of descriptor i */
  function FreeCount(table: Block, i: nat): nat
    requires DESCRIPTOR_BYTES * (i + 1) <= |table|
  {
    Half(table, DESCRIPTOR_BYTES * i + 12)
  }

  function SetFreeCount(table: Block, i: nat, v: nat): (r: Block)
    requires DESCRIPTOR_BYTES * (i + 1) <= |table| && v < 0x1_0000
    ensures |r| == |table|
  {
    SetHalf(table, DESCRIPTOR_BYTES * i + 12, v)
  }

  /** block_of_block_usage_bitmap of descriptor i */
  function BitmapBlock(table: Block, i: nat): nat
    requires DESCRIPTOR_BYTES * (i + 1) <= |table|
  {
    Word(table, DESCRIPTOR_BYTES / 4 * i)
  }

  /** Changing one count leaves the other counts and the places of the bitmaps. */
  lemma CountSet(table: Block, i: nat, v: nat, j: nat)
    requires DESCRIPTOR_BYTES * (i + 1) <= |table| && DESCRIPTOR_BYTES * (j + 1) <= |table| && v < 0x1_0000
    ensures FreeCount(SetFreeCount(table, i, v), j) == if j == i then v else FreeCount(table, j)
    ensures BitmapBlock(SetFreeCount(table, i, v), j) == BitmapBlock(table, j)
  {
    hide Half, SetHalf;
    var r := SetFreeCount(table, i, v);
    var at := DESCRIPTOR_BYTES * j;
    if j != i { SameHalf(table, r, at + 12); }
    assert r[at] == table[at] && r[at + 1] == table[at + 1] && r[at + 2] == table[at + 2] && r[at + 3] == table[at + 3];
  }

  lemma SameHalf(a: Block, b: Block, at: nat)
    requires at + 2 <= |a| == |b| && a[at] == b[at] && a[at + 1] == b[at + 1]
    ensures Half(a, at) == Half(b, at)
  {
  }

  /** The sizes make sense: bitmaps and descriptors fit a block. */
  ghost predicate GeometryOk(bs: nat, perGroup: nat, groups: nat, disk: Disk) {
    && bs > 0 && bs % 4 == 0 && 0 < perGroup <= 8 * bs && DESCRIPTOR_BYTES * groups <= bs
    && BlocksFit(bs, disk)
  }

  /** What the usage bitmaps of the groups hold, going by the descriptors in block first. */
  function BitmapsOn(bs: nat, disk: Disk, first: nat, groups: nat): (r: seq<seq<nat>>)
    requires DESCRIPTOR_BYTES * groups <= bs && BlocksFit(bs, disk)
    ensures |r| == groups
  {
    seq(groups, i requires 0 <= i < groups =>
      WordsOf(BlockAt(bs, disk, BitmapBlock(BlockAt(bs, disk, first), i))))
  }

  function FreeOn(bs: nat, disk: Disk, first: nat, groups: nat): (r: seq<nat>)
    requires DESCRIPTOR_BYTES * groups <= bs && BlocksFit(bs, disk)
    ensures |r| == groups
  {
    seq(groups, i requires 0 <= i < groups => FreeCount(BlockAt(bs, disk, first), i))
  }

  lemma BitmapsFit(bs: nat, perGroup: nat, groups: nat, disk: Disk, first: nat)
    requires GeometryOk(bs, perGroup, groups, disk)
    ensures BitmapsOk(BitmapsOn(bs, disk, first, groups), perGroup)
  {
  }

  /** The bitmaps have blocks of their own, apart from that of the descriptors. */
  ghost predicate Apart(bs: nat, disk: Disk, first: nat, groups: nat)
    requires DESCRIPTOR_BYTES * groups <= bs && BlocksFit(bs, disk)
  {
    var table := BlockAt(bs, disk, first);
    && (forall i: nat :: i < groups ==> BitmapBlock(table, i) != first)
    && forall i: nat, j: nat :: i < j < groups ==> BitmapBlock(table, i) != BitmapBlock(table, j)
  }

  /** The disk after an allocation in group i: the bitmap and then the descriptors written. */
  function Marked(bs: nat, disk: Disk, first: nat, i: nat, ws: seq<nat>): Disk
    requires DESCRIPTOR_BYTES * (i + 1) <= bs && BlocksFit(bs, disk)
    requires (forall k :: 0 <= k < |ws| ==> ws[k] < WORD) && FreeCount(BlockAt(bs, disk, first), i) > 0
  {
    var table := BlockAt(bs, disk, first);
    disk[BitmapBlock(table, i) := FromWords(ws)][first := SetFreeCount(table, i, FreeCount(table, i) - 1)]
  }

  lemma MarkedViews(bs: nat, disk: Disk, first: nat, groups: nat, i: nat, ws: seq<nat>)
    requires DESCRIPTOR_BYTES * groups <= bs && bs % 4 == 0 && BlocksFit(bs, disk) && i < groups && |ws| == bs / 4
    requires (forall k :: 0 <= k < |ws| ==> ws[k] < WORD) && FreeCount(BlockAt(bs, disk, first), i) > 0
    ensures var d := Marked(bs, disk, first, i, ws); BlocksFit(bs, d)
    ensures Apart(bs, disk, first, groups) ==>
              var d := Marked(bs, disk, first, i, ws);
              && Apart(bs, d, first, groups)
              && BitmapsOn(bs, d, first, groups) == BitmapsOn(bs, disk, first, groups)[i := ws]
              && var free := FreeOn(bs, disk, first, groups);
                 FreeOn(bs, d, first, groups) == free[i := free[i] - 1]
  {
    hide FreeCount, SetFreeCount, BitmapBlock, FromWords, WordsOf;
    var table := BlockAt(bs, disk, first);
    var d := Marked(bs, disk, first, i, ws);
    var table' := BlockAt(bs, d, first);
    FromWordsSize(ws);
    WordsRoundTrip(ws);
    CountSmall(table, i);
    forall j: nat | j < groups
      ensures BitmapBlock(table', j) == BitmapBlock(table, j)
      ensures FreeCount(table', j) == if j == i then FreeCount(table, i) - 1 else FreeCount(table, j)
    {
      CountSet(table, i, FreeCount(table, i) - 1, j);
    }
    if Apart(bs, disk, first, groups) {
      forall j: nat | j < groups
        ensures BitmapsOn(bs, d, first, groups)[j] == BitmapsOn(bs, disk, first, groups)[i := ws][j]
      {
        var x, y := if j < i then j else i, if j < i then i else j;
        if j != i { assert BitmapBlock(table, x) != BitmapBlock(table, y); }
      }
    }
  }

  lemma FromWordsSize(ws: seq<nat>)
    requires forall k :: 0 <= k < |ws| ==> ws[k] < WORD
    ensures |FromWords(ws)| == 4 * |ws|
  {
  }

  lemma CountSmall(table: Block, i: nat)
    requires DESCRIPTOR_BYTES * (i + 1) <= |table|
    ensures FreeCount(table, i) < 0x1_0000
  {
  }

  /** What becomes of a volume whose descriptors are looked for in block 0: with an empty boot
      record, no group of the first 32 claims to have a free block, whatever the volume has. */
  lemma EmptyBootRecord(bs: nat, disk: Disk, perGroup: nat, groups: nat)
    requires GeometryOk(bs, perGroup, groups, disk) && DESCRIPTOR_BYTES * groups <= SUPERBLOCK_BYTES <= bs
    requires forall k :: 0 <= k < SUPERBLOCK_BYTES ==> BlockAt(bs, disk, 0)[k] == 0
    ensures BitmapsOk(BitmapsOn(bs, disk, 0, groups), perGroup)
    ensures NoneBefore(BitmapsOn(bs, disk, 0, groups), perGroup, FreeOn(bs, disk, 0, groups), groups)
  {
    BitmapsFit(bs, perGroup, groups, disk, 0);
    var table := BlockAt(bs, disk, 0);
    forall i: nat | i < groups
      ensures FreeCount(table, i) == 0
    {
      assert table[DESCRIPTOR_BYTES * i + 12] == 0 && table[DESCRIPTOR_BYTES * i + 13] == 0;
    }
  }

  /** Taking bit k of group i takes that one block. */
  lemma TakeOne(bitmaps: seq<seq<nat>>, bitmaps': seq<seq<nat>>, perGroup: nat, i: nat, k: nat, n: nat)
    requires BitmapsOk(bitmaps, perGroup) && BitmapsOk(bitmaps', perGroup) && i < |bitmaps| == |bitmaps'|
    requires k < perGroup
    requires Usage(bitmaps', perGroup, i) == Usage(bitmaps, perGroup, i)[k := true]
    requires forall j :: 0 <= j < |bitmaps| && j != i ==> bitmaps'[j] == bitmaps[j]
    ensures Taken(bitmaps', perGroup, n) <==> Taken(bitmaps, perGroup, n) || n == i * perGroup + k + 1
  {
    hide Usage, BitmapsOk;
    BlockNumber(perGroup, i, k, n);
    if n > 0 { SameUsage(bitmaps, bitmaps', perGroup, i, (n - 1) / perGroup); }
  }

  lemma SameUsage(bitmaps: seq<seq<nat>>, bitmaps': seq<seq<nat>>, perGroup: nat, i: nat, j: nat)
    requires BitmapsOk(bitmaps, perGroup) && BitmapsOk(bitmaps', perGroup) && |bitmaps| == |bitmaps'|
    requires forall x :: 0 <= x < |bitmaps| && x != i ==> bitmaps'[x] == bitmaps[x]
    ensures j < |bitmaps| && j != i ==> Usage(bitmaps', perGroup, j) == Usage(bitmaps, perGroup, j)
  {
  }

  lemma TakeKeepsCounts(bitmaps: seq<seq<nat>>, bitmaps': seq<seq<nat>>, perGroup: nat, free: seq<nat>,
                        unallocated: nat, i: nat, k: nat)
    requires BitmapsOk(bitmaps, perGroup) && BitmapsOk(bitmaps', perGroup) && i < |bitmaps| == |bitmaps'| == |free|
    requires k < perGroup
    requires Usage(bitmaps', perGroup, i) == Usage(bitmaps, perGroup, i)[k := true] && !Usage(bitmaps, perGroup, i)[k]
    requires forall j :: 0 <= j < |bitmaps| && j != i ==> bitmaps'[j] == bitmaps[j]
    requires Consistent(bitmaps, perGroup, free, unallocated) && free[i] > 0
    ensures unallocated > 0 && Consistent(bitmaps', perGroup, free[i := free[i] - 1], unallocated - 1)
  {
    var free' := free[i := free[i] - 1];
    SumUpdate(free, i, free[i] - 1);
    CountOfUpdate(Usage(bitmaps, perGroup, i), k, true, false);
    forall j | 0 <= j < |free|
      ensures CountOk(bitmaps', perGroup, free', j)
    {
      assert CountOk(bitmaps, perGroup, free, j);
    }
  }

  /** Block n was free, is taken now, and is the only one that changed. */
  ghost predicate TookBit(bitmaps: seq<seq<nat>>, bitmaps': seq<seq<nat>>, perGroup: nat, i: nat, k: nat, n: nat)
    requires BitmapsOk(bitmaps, perGroup) && BitmapsOk(bitmaps', perGroup) && perGroup > 0
  {
    && n > 0 && (n - 1) / perGroup == i && (n - 1) % perGroup == k
    && !Taken(bitmaps, perGroup, n)
    && forall x: nat :: Taken(bitmaps', perGroup, x) <==> Taken(bitmaps, perGroup, x) || x == n
  }

  /** A 32-bit counter going down by one. */
  function Less1(x: nat): nat {
    if x == 0 then WORD - 1 else x - 1
  }

  /** Whether no group before i has a candidate. */
  ghost predicate NoneBefore(bitmaps: seq<seq<nat>>, perGroup: nat, free: seq<nat>, i: nat)
    requires BitmapsOk(bitmaps, perGroup) && |bitmaps| == |free| && i <= |free|
  {
    forall j :: 0 <= j < i ==> Candidate(bitmaps, perGroup, free, j).None?
  }

  /** The words are those of the bitmap of group i with the clear bit k set. */
  ghost predicate FlippedIn(bs: nat, disk: Disk, table: Block, perGroup: nat, i: nat, k: nat, ws: seq<nat>) {
    && DESCRIPTOR_BYTES * (i + 1) <= |table| && ElemCnt(perGroup) <= |ws| && k < perGroup
    && var old' := WordsOf(BlockAt(bs, disk, BitmapBlock(table, i)));
       && ElemCnt(perGroup) <= |old'|
       && !BitsOf(old', perGroup)[k] && BitsOf(ws, perGroup) == BitsOf(old', perGroup)[k := true]
       && |ws| == |old'| && k < 32 * |ws| && BitsOf(ws, 32 * |ws|) == BitsOf(old', 32 * |ws|)[k := true]
  }

  lemma MarkedFits(bs: nat, disk: Disk, first: nat, groups: nat, perGroup: nat, i: nat, ws: seq<nat>)
    requires GeometryOk(bs, perGroup, groups, disk) && i < groups && |ws| == bs / 4
    requires (forall k :: 0 <= k < |ws| ==> ws[k] < WORD) && FreeCount(BlockAt(bs, disk, first), i) > 0
    ensures GeometryOk(bs, perGroup, groups, Marked(bs, disk, first, i, ws))
    ensures ElemCnt(perGroup) <= bs / 4 && DESCRIPTOR_BYTES * (i + 1) <= bs && BlocksFit(bs, disk)
  {
    MarkedViews(bs, disk, first, groups, i, ws);
  }

  /** On disk, group i has its first clear bit k set and its count lowered. */
  ghost predicate GroupTaken(bs: nat, disk: Disk, disk': Disk, first: nat, perGroup: nat, i: nat, k: nat) {
    && DESCRIPTOR_BYTES * (i + 1) <= bs && BlocksFit(bs, disk) && ElemCnt(perGroup) <= bs / 4
    && FreeCount(BlockAt(bs, disk, first), i) > 0 && k < perGroup
    && var ws := WordsOf(BlockAt(bs, disk, BitmapBlock(BlockAt(bs, disk, first), i)));
       exists ws' ::
         && |ws'| == |ws| && (forall j :: 0 <= j < |ws'| ==> ws'[j] < WORD)
         && BitsOf(ws', perGroup) == BitsOf(ws, perGroup)[k := true]
         && k < 32 * |ws| && BitsOf(ws', 32 * |ws|) == BitsOf(ws, 32 * |ws|)[k := true]
         && disk' == Marked(bs, disk, first, i, ws')
  }

  /** What an allocation in group i does on disk, and to the blocks in use and the counters where
      bitmaps and descriptors are apart. */
  ghost predicate Allocated(bs: nat, disk: Disk, disk': Disk, first: nat, groups: nat, perGroup: nat,
                            unallocated: nat, i: nat, k: nat)
  {
    && GeometryOk(bs, perGroup, groups, disk) && GeometryOk(bs, perGroup, groups, disk')
    && GroupTaken(bs, disk, disk', first, perGroup, i, k)
    && (Apart(bs, disk, first, groups) ==> Accounted(bs, disk, disk', first, groups, perGroup, unallocated, i, k))
  }

  ghost predicate Accounted(bs: nat, disk: Disk, disk': Disk, first: nat, groups: nat, perGroup: nat,
                            unallocated: nat, i: nat, k: nat)
  {
    && GeometryOk(bs, perGroup, groups, disk) && GeometryOk(bs, perGroup, groups, disk')
    && Apart(bs, disk', first, groups)
    && var bitmaps, bitmaps' := BitmapsOn(bs, disk, first, groups), BitmapsOn(bs, disk', first, groups);
       && BitmapsOk(bitmaps, perGroup) && BitmapsOk(bitmaps', perGroup)
       && TookBit(bitmaps, bitmaps', perGroup, i, k, i * perGroup + k + 1)
       && (Consistent(bitmaps, perGroup, FreeOn(bs, disk, first, groups), unallocated) ==>
             unallocated > 0 && Consistent(bitmaps', perGroup, FreeOn(bs, disk', first, groups), unallocated - 1))
  }

  // ----- the same on the bytes of the disk

  /** Descriptor i is the 32 bytes at 32 i of the block of the descriptors: it begins with the number
      of the block that has the usage bitmap, and bytes 12 and 13 are the free count. There is nothing
      in a group with a count of zero, nor in one whose bits are all set. */
  ghost predicate NothingThere(disk: Disk, first: nat, perGroup: nat, i: nat) {
    || DiskHalf(disk, first, 32 * i + 12) == 0
    || forall j: nat :: j < perGroup ==> DiskBit(disk, DiskWord(disk, first, 8 * i), j)
  }

  /** Bit k, the first clear one of the bitmap of group i, is set, the count is one less, and that is
      all. A bitmap in the very block of the descriptors is written over. */
  ghost predicate TakenOnDisk(bs: nat, disk: Disk, disk': Disk, first: nat, perGroup: nat, i: nat, k: nat) {
    var b := DiskWord(disk, first, 8 * i);
    && k < perGroup && !DiskBit(disk, b, k) && (forall j: nat :: j < k ==> DiskBit(disk, b, j))
    && (b != first ==> forall j: nat :: j < 8 * bs ==> (DiskBit(disk', b, j) <==> DiskBit(disk, b, j) || j == k))
    && DiskHalf(disk, first, 32 * i + 12) > 0
    && DiskHalf(disk', first, 32 * i + 12) == DiskHalf(disk, first, 32 * i + 12) - 1
    && (forall at: nat :: at < bs && at != 32 * i + 12 && at != 32 * i + 13 ==>
          DiskByte(disk', first, at) == DiskByte(disk, first, at))
    && forall n: nat, at: nat :: n != b && n != first ==> DiskByte(disk', n, at) == DiskByte(disk, n, at)
  }

  lemma BitOnDisk(bs: nat, disk: Disk, n: nat, k: nat)
    requires BlocksFit(bs, disk) && bs % 4 == 0 && k < 8 * bs
    ensures 32 * |WordsOf(BlockAt(bs, disk, n))| == 8 * bs
    ensures BitAt(WordsOf(BlockAt(bs, disk, n)), k) <==> DiskBit(disk, n, k)
  {
    hide Bit, Word, DiskByte;
    ByteIsDiskByte(bs, disk, n, k / 8);
    BitOfWord(BlockAt(bs, disk, n), k / 32, k % 32);
    assert 4 * (k / 32) + (k % 32) / 8 == k / 8 && (k % 32) % 8 == k % 8;
  }

  lemma DescriptorOnDisk(bs: nat, disk: Disk, first: nat, i: nat)
    requires DESCRIPTOR_BYTES * (i + 1) <= bs && BlocksFit(bs, disk)
    ensures |BlockAt(bs, disk, first)| == bs
    ensures FreeCount(BlockAt(bs, disk, first), i) == DiskHalf(disk, first, 32 * i + 12)
    ensures BitmapBlock(BlockAt(bs, disk, first), i) == DiskWord(disk, first, 8 * i)
  {
    HalfIsDiskHalf(bs, disk, first, 32 * i + 12);
    WordIsDiskWord(bs, disk, first, 8 * i);
  }

  lemma NothingIsThere(bs: nat, disk: Disk, first: nat, groups: nat, perGroup: nat, i: nat)
    requires GeometryOk(bs, perGroup, groups, disk) && i < groups
    requires BitmapsOk(BitmapsOn(bs, disk, first, groups), perGroup)
    requires Candidate(BitmapsOn(bs, disk, first, groups), perGroup, FreeOn(bs, disk, first, groups), i).None?
    ensures NothingThere(disk, first, perGroup, i)
  {
    hide FreeCount, BitmapBlock, DiskHalf, DiskWord, DiskBit, WordsOf, BitAt, FirstRun;
    DescriptorOnDisk(bs, disk, first, i);
    var bitmaps := BitmapsOn(bs, disk, first, groups);
    var b := DiskWord(disk, first, 8 * i);
    assert bitmaps[i] == WordsOf(BlockAt(bs, disk, b));
    if DiskHalf(disk, first, 32 * i + 12) != 0 {
      forall j: nat | j < perGroup
        ensures DiskBit(disk, b, j)
      {
        BitOnDisk(bs, disk, b, j);
        assert !AllAre(Usage(bitmaps, perGroup, i), j, 1, false);
      }
    }
  }

  lemma FirstClearOnDisk(bs: nat, disk: Disk, first: nat, groups: nat, perGroup: nat, i: nat, k: nat)
    requires GeometryOk(bs, perGroup, groups, disk) && i < groups
    requires BitmapsOk(BitmapsOn(bs, disk, first, groups), perGroup)
    requires Candidate(BitmapsOn(bs, disk, first, groups), perGroup, FreeOn(bs, disk, first, groups), i) == Some(k)
    ensures var b := DiskWord(disk, first, 8 * i);
            && k < perGroup && !DiskBit(disk, b, k) && (forall j: nat :: j < k ==> DiskBit(disk, b, j))
            && DiskHalf(disk, first, 32 * i + 12) > 0
  {
    hide FreeCount, BitmapBlock, DiskHalf, DiskWord, DiskBit, WordsOf, BitAt, FirstRun;
    DescriptorOnDisk(bs, disk, first, i);
    var bitmaps := BitmapsOn(bs, disk, first, groups);
    var b := DiskWord(disk, first, 8 * i);
    assert bitmaps[i] == WordsOf(BlockAt(bs, disk, b));
    BitOnDisk(bs, disk, b, k);
    forall j: nat | j < k
      ensures DiskBit(disk, b, j)
    {
      BitOnDisk(bs, disk, b, j);
      assert !AllAre(Usage(bitmaps, perGroup, i), j, 1, false);
    }
  }

  lemma TableOnDisk(bs: nat, disk: Disk, first: nat, i: nat, v: nat, at: nat)
    requires DESCRIPTOR_BYTES * (i + 1) <= bs && BlocksFit(bs, disk) && v < 0x1_0000 && at < bs
    ensures |BlockAt(bs, disk, first)| == bs
    ensures var t := SetFreeCount(BlockAt(bs, disk, first), i, v);
            at != 32 * i + 12 && at != 32 * i + 13 ==> t[at] == DiskByte(disk, first, at)
  {
    hide Half;
    ByteIsDiskByte(bs, disk, first, at);
  }

  lemma OthersOnDisk(disk: Disk, b: nat, x: Block, first: nat, y: Block)
    ensures forall n: nat, at: nat :: n != b && n != first ==>
              DiskByte(disk[b := x][first := y], n, at) == DiskByte(disk, n, at)
  {
  }

  /** What the other predicates say of an allocation comes down to these bytes. */
  lemma GroupOnDisk(bs: nat, disk: Disk, disk': Disk, first: nat, groups: nat, perGroup: nat, i: nat, k: nat)
    requires GeometryOk(bs, perGroup, groups, disk) && i < groups
    requires BitmapsOk(BitmapsOn(bs, disk, first, groups), perGroup)
    requires Candidate(BitmapsOn(bs, disk, first, groups), perGroup, FreeOn(bs, disk, first, groups), i) == Some(k)
    requires GroupTaken(bs, disk, disk', first, perGroup, i, k)
    ensures TakenOnDisk(bs, disk, disk', first, perGroup, i, k)
  {
    hide FreeCount, BitmapBlock, DiskHalf, DiskWord, DiskBit, WordsOf, BitAt, FirstRun, SetFreeCount, FromWords;
    hide Candidate, BitmapsOn, FreeOn, Marked, DiskByte;
    FirstClearOnDisk(bs, disk, first, groups, perGroup, i, k);
    DescriptorOnDisk(bs, disk, first, i);
    var table, b := BlockAt(bs, disk, first), DiskWord(disk, first, 8 * i);
    var ws := WordsOf(BlockAt(bs, disk, b));
    var ws' :| && |ws'| == |ws| && (forall j :: 0 <= j < |ws'| ==> ws'[j] < WORD)
               && k < 32 * |ws| && BitsOf(ws', 32 * |ws|) == BitsOf(ws, 32 * |ws|)[k := true]
               && disk' == Marked(bs, disk, first, i, ws');
    FromWordsSize(ws');
    WordsRoundTrip(ws');
    var v := FreeCount(table, i) - 1;
    CountSmall(table, i);
    CountSet(table, i, v, i);
    MarkedIs(bs, disk, first, i, ws');
    assert disk' == disk[b := FromWords(ws')][first := SetFreeCount(table, i, v)];
    DescriptorOnDisk(bs, disk', first, i);
    OthersOnDisk(disk, b, FromWords(ws'), first, SetFreeCount(table, i, v));
    forall at: nat | at < bs && at != 32 * i + 12 && at != 32 * i + 13
      ensures DiskByte(disk', first, at) == DiskByte(disk, first, at)
    {
      TableOnDisk(bs, disk, first, i, v, at);
      ByteIsDiskByte(bs, disk', first, at);
    }
    if b != first {
      forall j: nat | j < 8 * bs
        ensures DiskBit(disk', b, j) <==> DiskBit(disk, b, j) || j == k
      {
        BitOnDisk(bs, disk, b, j);
        BitOnDisk(bs, disk', b, j);
        assert BitsOf(ws', 32 * |ws|)[j] == BitAt(ws', j) && BitsOf(ws, 32 * |ws|)[j] == BitAt(ws, j);
      }
    }
  }

  /** Block number n is that of bit k of group i, the first group in which there is something. */
  ghost predicate FirstTakenOnDisk(bs: nat, disk: Disk, disk': Disk, first: nat, groups: nat, perGroup: nat, n: nat) {
    exists i: nat, k: nat ::
      && i < groups && TakenOnDisk(bs, disk, disk', first, perGroup, i, k) && n == i * perGroup + k + 1
      && forall g: nat :: g < i ==> NothingThere(disk, first, perGroup, g)
  }

  ghost predicate NothingOnDisk(disk: Disk, first: nat, groups: nat, perGroup: nat) {
    forall i: nat :: i < groups ==> NothingThere(disk, first, perGroup, i)
  }

  lemma TakenFirst(bs: nat, disk: Disk, disk': Disk, first: nat, groups: nat, perGroup: nat, i: nat, k: nat, n: nat)
    requires GeometryOk(bs, perGroup, groups, disk) && i < groups && n == i * perGroup + k + 1
    requires BitmapsOk(BitmapsOn(bs, disk, first, groups), perGroup)
    requires NoneBefore(BitmapsOn(bs, disk, first, groups), perGroup, FreeOn(bs, disk, first, groups), i)
    requires Candidate(BitmapsOn(bs, disk, first, groups), perGroup, FreeOn(bs, disk, first, groups), i) == Some(k)
    requires GroupTaken(bs, disk, disk', first, perGroup, i, k)
    ensures FirstTakenOnDisk(bs, disk, disk', first, groups, perGroup, n)
  {
    hide GroupTaken, TakenOnDisk, NothingThere, Candidate, BitmapsOk, BitmapsOn, FreeOn;
    GroupOnDisk(bs, disk, disk', first, groups, perGroup, i, k);
    forall g: nat | g < i
      ensures NothingThere(disk, first, perGroup, g)
    {
      NothingIsThere(bs, disk, first, groups, perGroup, g);
    }
  }

  lemma NothingAnywhere(bs: nat, disk: Disk, first: nat, groups: nat, perGroup: nat)
    requires GeometryOk(bs, perGroup, groups, disk)
    requires BitmapsOk(BitmapsOn(bs, disk, first, groups), perGroup)
    requires NoneBefore(BitmapsOn(bs, disk, first, groups), perGroup, FreeOn(bs, disk, first, groups), groups)
    ensures NothingOnDisk(disk, first, groups, perGroup)
  {
    hide NothingThere, Candidate, BitmapsOk, BitmapsOn, FreeOn;
    forall i: nat | i < groups
      ensures NothingThere(disk, first, perGroup, i)
    {
      NothingIsThere(bs, disk, first, groups, perGroup, i);
    }
  }

  class Volume {
    const bs: nat
    /** the superblock's own field for its block */
    const superblockId: nat
    /** blocks_in_blockgroup */
    const perGroup: nat
    /** number_of_bgs */
    const groups: nat
    /** the blocks with the descriptors and the bitmaps */
    var disk: Disk
    /** unallocatedblocks of the superblock */
    var unallocated: nat

    ghost predicate Geometry()
      reads this
    {
      GeometryOk(bs, perGroup, groups, disk)
    }

    ghost function Bitmaps(): (r: seq<seq<nat>>)
      requires Geometry()
      reads this
      ensures |r| == groups && BitmapsOk(r, perGroup)
    {
      BitmapsFit(bs, perGroup, groups, disk, FirstBgd(superblockId, bs));
      BitmapsOn(bs, disk, FirstBgd(superblockId, bs), groups)
    }

    ghost function Free(): (r: seq<nat>)
      requires Geometry()
      reads this
      ensures |r| == groups
    {
      FreeOn(bs, disk, FirstBgd(superblockId, bs), groups)
    }

    ghost predicate Valid()
      reads this
    {
      Geometry() && Apart(bs, disk, FirstBgd(superblockId, bs), groups)
    }

    /** The counters match the bitmaps. */
    ghost predicate Sound()
      reads this
    {
      Valid() && Consistent(Bitmaps(), perGroup, Free(), unallocated)
    }

    ghost predicate IsTaken(n: nat)
      requires Geometry()
      reads this
    {
      Taken(Bitmaps(), perGroup, n)
    }

    /** The part of ext2_mount that settles where things are. */
    constructor (bs: nat, superblockId: nat, perGroup: nat, groups: nat, disk: Disk, unallocated: nat)
      ensures this.bs == bs && this.superblockId == superblockId && this.perGroup == perGroup && this.groups == groups
      ensures this.disk == disk && this.unallocated == unallocated
    {
      this.bs, this.superblockId, this.perGroup, this.groups := bs, superblockId, perGroup, groups;
      this.disk, this.unallocated := disk, unallocated;
    }

    /** ext2_alloc_block; None is -1. Whatever block the descriptors are read from, the bit taken
        is the first clear one of the first group that claims to have one and does. */
    method AllocBlock() returns (r: Option<nat>)
      requires Geometry()
      modifies this
      ensures Geometry()
      ensures r.None? ==>
                disk == old(disk) && unallocated == old(unallocated) && NoneBefore(Bitmaps(), perGroup, Free(), groups)
      ensures r.Some? ==> r.value > 0 && old(TakesFirst(r.value)) && unallocated == Less1(old(unallocated))
      ensures r.Some? ==>
                GroupTaken(bs, old(disk), disk, FirstBgd(superblockId, bs), perGroup,
                           GroupOf(perGroup, r.value), BitIn(perGroup, r.value))
      ensures r.None? ==> NothingOnDisk(disk, superblockId + 1024 / bs, groups, perGroup)
      ensures r.Some? ==>
                FirstTakenOnDisk(bs, old(disk), disk, superblockId + 1024 / bs, groups, perGroup, r.value)
      ensures old(Valid()) ==> Valid()
      ensures old(Valid()) && r.Some? ==>
                !old(IsTaken(r.value)) && forall n: nat :: IsTaken(n) <==> old(IsTaken(n)) || n == r.value
      ensures old(Sound()) ==> Sound() && (r.None? <==> old(unallocated) == 0)
      ensures old(Sound()) && r.Some? ==> unallocated == old(unallocated) - 1
    {
      hide Taken, Usage, BitsOf, FirstRun, Candidate, Consistent, CountOk, GroupTaken, Apart, BitmapsOn;
      hide FreeCount, Marked, FirstTakenOnDisk, NothingThere;
      var first := FirstBgd(superblockId, bs);
      var table := BlockAt(bs, disk, first);
      var i := 0;
      while i < groups
        invariant disk == old(disk) && unallocated == old(unallocated)
        invariant i <= groups && NoneBefore(Bitmaps(), perGroup, Free(), i)
      {
        if FreeCount(table, i) > 0 {
          var found := TakeIn(i, table);
          if found.Some? {
            BlockNumber(perGroup, i, found.value, i * perGroup + found.value + 1);
            TakenFirst(bs, old(disk), disk, first, groups, perGroup, i, found.value,
                       i * perGroup + found.value + 1);
            return Some(i * perGroup + found.value + 1);
          }
        } else {
          NoClaim(Bitmaps(), perGroup, Free(), i);
        }
        i := i + 1;
      }
      r := None;
      NothingAnywhere(bs, disk, first, groups, perGroup);
      if Sound() { FullWhenNone(); }
    }

    /** n stands for the first clear bit of the first group that claims to have one and does. */
    ghost predicate TakesFirst(n: nat)
      requires Geometry()
      reads this
    {
      && n > 0 && GroupOf(perGroup, n) < groups
      && NoneBefore(Bitmaps(), perGroup, Free(), GroupOf(perGroup, n))
      && Candidate(Bitmaps(), perGroup, Free(), GroupOf(perGroup, n)) == Some(BitIn(perGroup, n))
    }

    lemma FullWhenNone()
      requires Sound() && NoneBefore(Bitmaps(), perGroup, Free(), groups)
      ensures unallocated == 0
    {
      var bitmaps, free := Bitmaps(), Free();
      SumZero(free);
      forall i | 0 <= i < |free|
        ensures free[i] == 0
      {
        assert CountOk(bitmaps, perGroup, free, i);
        CandidateIffFree(bitmaps, perGroup, free, i);
      }
    }

    /** Reading the bitmap of a group and flipping its first clear bit in the buffer. */
    method ScanGroup(i: nat, table: Block) returns (found: Option<nat>, buffer: array<nat>)
      requires Geometry() && i < groups && table == BlockAt(bs, disk, FirstBgd(superblockId, bs))
      requires FreeCount(table, i) > 0
      ensures fresh(buffer) && buffer.Length == bs / 4 && forall j :: 0 <= j < buffer.Length ==> buffer[j] < WORD
      ensures found == Candidate(Bitmaps(), perGroup, Free(), i)
      ensures found.Some? ==> found.value < perGroup && FlippedIn(bs, disk, table, perGroup, i, found.value, buffer[..])
    {
      hide CountOf, FirstRun, Bit, BitsOf, SetRun, FreeCount, BitmapBlock, BlocksFit;
      BlockSizes(bs, disk);
      BitmapsFit(bs, perGroup, groups, disk, FirstBgd(superblockId, bs));
      var words := WordsOf(BlockAt(bs, disk, BitmapBlock(table, i)));
      buffer := new nat[|words|](j requires 0 <= j < |words| => words[j]);
      assert buffer[..] == words == Bitmaps()[i];
      assert Free()[i] == FreeCount(table, i);
      assert BitmapOk(words, perGroup);
      var bm := new Bitmap.UsingBuffer(perGroup, buffer);
      assert bm.Contents() == Usage(Bitmaps(), perGroup, i);
      found := bm.ScanAndFlip(0, 1, false);
      if found.Some? {
        FlipIsUpdate(BitsOf(words, perGroup), found.value);
        FlipIsUpdate(BitsOf(words, 32 * |words|), found.value);
        assert BitmapOk(buffer[..], perGroup);
      }
    }

    /** The body of the loop over the groups, for a group that claims to have a free block. */
    method TakeIn(i: nat, table: Block) returns (found: Option<nat>)
      requires Geometry() && i < groups && table == BlockAt(bs, disk, FirstBgd(superblockId, bs))
      requires FreeCount(table, i) > 0
      modifies this
      ensures Geometry() && found == old(Candidate(Bitmaps(), perGroup, Free(), i))
      ensures found.None? ==> disk == old(disk) && unallocated == old(unallocated)
      ensures found.Some? ==>
                && unallocated == Less1(old(unallocated))
                && Allocated(bs, old(disk), disk, FirstBgd(superblockId, bs), groups, perGroup, old(unallocated),
                             i, found.value)
    {
      hide Consistent, Taken, TookBit, FreeCount, BitmapBlock, Apart, Marked, FromWords, BlocksFit, BitmapsOn;
      hide FreeOn, FlippedIn, GroupTaken, Candidate, BitsOf, Allocated;
      var first := FirstBgd(superblockId, bs);
      var buffer;
      found, buffer := ScanGroup(i, table);
      if found.None? { return; }
      ghost var k, ws := found.value, buffer[..];
      MarkedFits(bs, disk, first, groups, perGroup, i, ws);
      TakenAccount(bs, disk, first, groups, perGroup, unallocated, i, k, ws);
      MarkedIs(bs, disk, first, i, ws);
      disk := disk[BitmapBlock(table, i) := FromWords(buffer[..])];
      unallocated := Less1(unallocated);
      disk := disk[first := SetFreeCount(table, i, FreeCount(table, i) - 1)];
    }

    /** A run of allocations: as many succeed as there were free blocks, and no block is handed
        out that was in use before or is handed out again. */
    method AllocMany(n: nat) returns (rs: seq<nat>)
      requires Sound()
      modifies this
      ensures Sound() && unallocated + |rs| == old(unallocated)
      ensures |rs| == if n <= old(unallocated) then n else old(unallocated)
      ensures forall j :: 0 <= j < |rs| ==> !old(IsTaken(rs[j])) && IsTaken(rs[j])
      ensures forall j, k :: 0 <= j < k < |rs| ==> rs[j] != rs[k]
    {
      hide Taken, Consistent, NoneBefore, Candidate, Apart, GroupTaken, GeometryOk, BitmapsOn, FreeOn;
      rs := [];
      var i := 0;
      while i < n
        invariant i <= n && Sound() && unallocated + |rs| == old(unallocated)
        invariant |rs| == if i <= old(unallocated) then i else old(unallocated)
        invariant forall x: nat :: IsTaken(x) <==> old(IsTaken(x)) || x in rs
        invariant forall j :: 0 <= j < |rs| ==> !old(IsTaken(rs[j]))
        invariant forall j, k :: 0 <= j < k < |rs| ==> rs[j] != rs[k]
      {
        var r := AllocBlock();
        if r.Some? { rs := rs + [r.value]; }
        i := i + 1;
      }
    }
  }

  lemma NoClaim(bitmaps: seq<seq<nat>>, perGroup: nat, free: seq<nat>, i: nat)
    requires BitmapsOk(bitmaps, perGroup) && i < |bitmaps| == |free|
    ensures free[i] == 0 ==> Candidate(bitmaps, perGroup, free, i).None?
  {
  }

  lemma BlockSizes(bs: nat, disk: Disk)
    requires BlocksFit(bs, disk)
    ensures forall n :: |BlockAt(bs, disk, n)| == bs
  {
  }

  lemma FlipIsUpdate(bits: seq<bool>, k: nat)
    requires k < |bits|
    ensures SetRun(bits, k, 1, true) == bits[k := true]
  {
  }

  lemma MarkedIs(bs: nat, disk: Disk, first: nat, i: nat, ws: seq<nat>)
    requires DESCRIPTOR_BYTES * (i + 1) <= bs && BlocksFit(bs, disk)
    requires (forall k :: 0 <= k < |ws| ==> ws[k] < WORD) && FreeCount(BlockAt(bs, disk, first), i) > 0
    ensures var table := BlockAt(bs, disk, first);
            && FreeCount(table, i) < 0x1_0000
            && Marked(bs, disk, first, i, ws)
               == disk[BitmapBlock(table, i) := FromWords(ws)][first := SetFreeCount(table, i, FreeCount(table, i) - 1)]
  {
  }

  lemma GroupIsTaken(bs: nat, disk: Disk, first: nat, perGroup: nat, i: nat, k: nat, ws: seq<nat>)
    requires DESCRIPTOR_BYTES * (i + 1) <= bs && BlocksFit(bs, disk) && ElemCnt(perGroup) <= bs / 4
    requires FreeCount(BlockAt(bs, disk, first), i) > 0 && k < perGroup
    requires |ws| == bs / 4 && forall j :: 0 <= j < |ws| ==> ws[j] < WORD
    requires FlippedIn(bs, disk, BlockAt(bs, disk, first), perGroup, i, k, ws)
    ensures GroupTaken(bs, disk, Marked(bs, disk, first, i, ws), first, perGroup, i, k)
  {
    hide BitsOf, FreeCount, BitmapBlock;
  }

  /** What the allocation does to the blocks in use and to the counters. */
  lemma TakenAccount(bs: nat, disk: Disk, first: nat, groups: nat, perGroup: nat, unallocated: nat, i: nat, k: nat,
                     ws: seq<nat>)
    requires GeometryOk(bs, perGroup, groups, disk) && i < groups && k < perGroup
    requires |ws| == bs / 4 && forall j :: 0 <= j < |ws| ==> ws[j] < WORD
    requires FreeCount(BlockAt(bs, disk, first), i) > 0
    requires FlippedIn(bs, disk, BlockAt(bs, disk, first), perGroup, i, k, ws)
    ensures Allocated(bs, disk, Marked(bs, disk, first, i, ws), first, groups, perGroup, unallocated, i, k)
  {
    hide GroupTaken, Apart, FlippedIn, Marked, Consistent, TookBit, FreeCount, BitsOf, Accounted;
    MarkedFits(bs, disk, first, groups, perGroup, i, ws);
    GroupIsTaken(bs, disk, first, perGroup, i, k, ws);
    if Apart(bs, disk, first, groups) {
      ApartAccount(bs, disk, first, groups, perGroup, unallocated, i, k, ws);
    }
  }

  lemma ApartAccount(bs: nat, disk: Disk, first: nat, groups: nat, perGroup: nat, unallocated: nat, i: nat, k: nat,
                     ws: seq<nat>)
    requires GeometryOk(bs, perGroup, groups, disk) && i < groups && k < perGroup && Apart(bs, disk, first, groups)
    requires |ws| == bs / 4 && forall j :: 0 <= j < |ws| ==> ws[j] < WORD
    requires FreeCount(BlockAt(bs, disk, first), i) > 0
    requires FlippedIn(bs, disk, BlockAt(bs, disk, first), perGroup, i, k, ws)
    ensures Accounted(bs, disk, Marked(bs, disk, first, i, ws), first, groups, perGroup, unallocated, i, k)
  {
    hide BitsOf, FreeCount, BitmapBlock, Apart, Marked, Consistent, Taken;
    MarkedViews(bs, disk, first, groups, i, ws);
    var d := Marked(bs, disk, first, i, ws);
    BitmapsFit(bs, perGroup, groups, disk, first);
    BitmapsFit(bs, perGroup, groups, d, first);
    var bitmaps, bitmaps' := BitmapsOn(bs, disk, first, groups), BitmapsOn(bs, d, first, groups);
    var n := i * perGroup + k + 1;
    assert Usage(bitmaps', perGroup, i) == Usage(bitmaps, perGroup, i)[k := true];
    BlockNumber(perGroup, i, k, n);
    forall x: nat
      ensures Taken(bitmaps', perGroup, x) <==> Taken(bitmaps, perGroup, x) || x == n
    {
      TakeOne(bitmaps, bitmaps', perGroup, i, k, x);
    }
    WasClear(bitmaps, perGroup, i, k);
    if Consistent(bitmaps, perGroup, FreeOn(bs, disk, first, groups), unallocated) {
      TakeKeepsCounts(bitmaps, bitmaps', perGroup, FreeOn(bs, disk, first, groups), unallocated, i, k);
    }
  }

  lemma WasClear(bitmaps: seq<seq<nat>>, perGroup: nat, i: nat, k: nat)
    requires BitmapsOk(bitmaps, perGroup) && i < |bitmaps| && k < perGroup && !Usage(bitmaps, perGroup, i)[k]
    ensures !Taken(bitmaps, perGroup, i * perGroup + k + 1)
  {
    BlockNumber(perGroup, i, k, i * perGroup + k + 1);
  }
}
