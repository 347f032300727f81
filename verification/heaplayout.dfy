module HeapLayout {
  import BitRuns
  import opened Common

  const HEAP_BASE := VIRT_BASE + 4 * 1024 * 1024
  const HEAP_PAGES := 2048
  const PAGE_COUNT := 16
  const MAJOR_HEADER := 24
  const MINOR_HEADER := 28

  datatype Major = Major(prev: int, next: int, pages: nat, size: nat, usage: nat, first: int)

  datatype Minor = Minor(prev: int, next: int, block: int, size: nat, reqSize: nat)

  type MajorMem = map<int, Major>
  type MinorMem = map<int, Minor>

  /** The element at i, or NULL off either end of the list. */
  function At(xs: seq<int>, i: int): int {
    if 0 <= i < |xs| then xs[i] else 0
  }

  function SizeOf(mem: MinorMem, a: int): nat {
    if a in mem then mem[a].size else 0
  }

  function EndOf(mem: MinorMem, a: int): int {
    a + MINOR_HEADER + SizeOf(mem, a)
  }

  // ----- the minors of one major

  ghost predicate MinorLinkAt(mem: MinorMem, xs: seq<int>, i: int) {
    0 <= i < |xs| && xs[i] in mem && mem[xs[i]].prev == At(xs, i - 1) && mem[xs[i]].next == At(xs, i + 1)
  }

  /** The minors xs of major maj lie inside it, in address order and pairwise disjoint. */
  ghost predicate MinorsPlaced(mem: MinorMem, maj: int, end: int, xs: seq<int>) {
    && 0 < maj && maj + MAJOR_HEADER <= end
    && (forall i :: 0 <= i < |xs| ==>
          xs[i] in mem && mem[xs[i]].block == maj && maj + MAJOR_HEADER <= xs[i] && EndOf(mem, xs[i]) <= end)
    && (forall i, j :: 0 <= i < j < |xs| ==> EndOf(mem, xs[i]) <= xs[j])
  }

  /** They are linked both ways. */
  ghost predicate MinorsLinked(mem: MinorMem, xs: seq<int>) {
    forall i :: 0 <= i < |xs| ==> MinorLinkAt(mem, xs, i)
  }

  ghost predicate MinorsOk(mem: MinorMem, maj: int, end: int, xs: seq<int>) {
    MinorsPlaced(mem, maj, end, xs) && MinorsLinked(mem, xs)
  }

  function SumSizes(mem: MinorMem, xs: seq<int>): nat {
    if xs == [] then 0 else SizeOf(mem, xs[0]) + SumSizes(mem, xs[1..])
  }

  /** Where the k-th gap between the minors starts and ends. */
  function GapStart(mem: MinorMem, maj: int, xs: seq<int>, k: nat): int
    requires k <= |xs|
  {
    if k == 0 then maj + MAJOR_HEADER else EndOf(mem, xs[k - 1])
  }

  function GapEnd(end: int, xs: seq<int>, k: nat): int
    requires k <= |xs|
  {
    if k < |xs| then xs[k] else end
  }

  predicate Fits(mem: MinorMem, maj: int, end: int, xs: seq<int>, k: nat, size: nat)
    requires k <= |xs|
  {
    GapEnd(end, xs, k) - GapStart(mem, maj, xs, k) >= size + MINOR_HEADER
  }

  function InsertAt(xs: seq<int>, k: nat, h: int): seq<int>
    requires k <= |xs|
  {
    xs[..k] + [h] + xs[k..]
  }

  function RemoveAt(xs: seq<int>, k: nat): seq<int>
    requires k < |xs|
  {
    xs[..k] + xs[k + 1..]
  }

  /** Memory after a header for the new minor h is written and linked in at position k. */
  function LinkIn(mem: MinorMem, maj: int, xs: seq<int>, k: nat, h: int, size: nat, reqSize: nat): MinorMem
    requires k <= |xs| && forall i :: 0 <= i < |xs| ==> xs[i] in mem
  {
    var m1 := if k > 0 then mem[xs[k - 1] := mem[xs[k - 1]].(next := h)] else mem;
    var m2 := if k < |xs| then m1[xs[k] := m1[xs[k]].(prev := h)] else m1;
    m2[h := Minor(At(xs, k - 1), At(xs, k), maj, size, reqSize)]
  }

  /** Memory after minor k is unlinked and its header is dead. */
  function LinkOut(mem: MinorMem, xs: seq<int>, k: nat): MinorMem
    requires k < |xs| && forall i :: 0 <= i < |xs| ==> xs[i] in mem
  {
    var m1 := if k + 1 < |xs| then mem[xs[k + 1] := mem[xs[k + 1]].(prev := At(xs, k - 1))] else mem;
    var m2 := if k > 0 then m1[xs[k - 1] := m1[xs[k - 1]].(next := At(xs, k + 1))] else m1;
    m2 - {xs[k]}
  }

  function Inserted(xs: seq<int>, k: nat, h: int, i: nat): int
    requires k <= |xs| && i <= |xs|
  {
    if i < k then xs[i] else if i == k then h else xs[i - 1]
  }

  lemma InsertAtIndex(xs: seq<int>, k: nat, h: int)
    requires k <= |xs|
    ensures |InsertAt(xs, k, h)| == |xs| + 1
    ensures forall i :: 0 <= i < |xs| + 1 ==>
              InsertAt(xs, k, h)[i] == Inserted(xs, k, h, i)
  {
  }

  lemma LinkInPlaced(mem: MinorMem, mem': MinorMem, maj: int, end: int, xs: seq<int>, k: nat, h: int, ys: seq<int>)
    requires MinorsPlaced(mem, maj, end, xs) && k <= |xs|
    requires |ys| == |xs| + 1 && forall i :: 0 <= i < |ys| ==> ys[i] == Inserted(xs, k, h, i)
    requires forall i :: 0 <= i < |xs| ==>
               xs[i] in mem' && mem'[xs[i]].block == maj && mem'[xs[i]].size == mem[xs[i]].size
    requires h in mem' && mem'[h].block == maj
    requires h == GapStart(mem, maj, xs, k) && EndOf(mem', h) <= GapEnd(end, xs, k)
    ensures MinorsPlaced(mem', maj, end, ys)
  {
  }

  lemma LinkInLinked(mem: MinorMem, maj: int, xs: seq<int>, k: nat, h: int, size: nat, reqSize: nat, ys: seq<int>)
    requires MinorsLinked(mem, xs) && k <= |xs|
    requires forall i :: 0 <= i < |xs| ==> xs[i] in mem && xs[i] != h
    requires forall i, j :: 0 <= i < j < |xs| ==> xs[i] != xs[j]
    requires |ys| == |xs| + 1 && forall i :: 0 <= i < |ys| ==> ys[i] == Inserted(xs, k, h, i)
    ensures MinorsLinked(LinkIn(mem, maj, xs, k, h, size, reqSize), ys)
  {
    var mem' := LinkIn(mem, maj, xs, k, h, size, reqSize);
    forall i | 0 <= i < |ys|
      ensures MinorLinkAt(mem', ys, i)
    {
      if i < k {
        assert MinorLinkAt(mem, xs, i);
      } else if i > k {
        assert MinorLinkAt(mem, xs, i - 1);
      }
    }
  }

  lemma LinkInOk(mem: MinorMem, maj: int, end: int, xs: seq<int>, k: nat, h: int, size: nat, reqSize: nat)
    requires MinorsOk(mem, maj, end, xs) && k <= |xs|
    requires h == GapStart(mem, maj, xs, k) && Fits(mem, maj, end, xs, k, size)
    ensures h !in xs
    ensures MinorsOk(LinkIn(mem, maj, xs, k, h, size, reqSize), maj, end, InsertAt(xs, k, h))
  {
    var mem' := LinkIn(mem, maj, xs, k, h, size, reqSize);
    var ys := InsertAt(xs, k, h);
    InsertAtIndex(xs, k, h);
    LinkInPlaced(mem, mem', maj, end, xs, k, h, ys);
    LinkInLinked(mem, maj, xs, k, h, size, reqSize, ys);
  }

  function Removed(xs: seq<int>, k: nat, i: nat): int
    requires k < |xs| && i < |xs| - 1
  {
    if i < k then xs[i] else xs[i + 1]
  }

  lemma RemoveAtIndex(xs: seq<int>, k: nat)
    requires k < |xs|
    ensures |RemoveAt(xs, k)| == |xs| - 1
    ensures forall i :: 0 <= i < |xs| - 1 ==> RemoveAt(xs, k)[i] == Removed(xs, k, i)
  {
  }

  lemma LinkOutPlaced(mem: MinorMem, mem': MinorMem, maj: int, end: int, xs: seq<int>, k: nat, ys: seq<int>)
    requires MinorsPlaced(mem, maj, end, xs) && k < |xs|
    requires |ys| == |xs| - 1 && forall i :: 0 <= i < |ys| ==> ys[i] == Removed(xs, k, i)
    requires forall i :: 0 <= i < |xs| && i != k ==>
               xs[i] in mem' && mem'[xs[i]].block == maj && mem'[xs[i]].size == mem[xs[i]].size
    ensures MinorsPlaced(mem', maj, end, ys)
  {
  }

  lemma LinkOutLinked(mem: MinorMem, xs: seq<int>, k: nat, ys: seq<int>)
    requires MinorsLinked(mem, xs) && k < |xs|
    requires forall i :: 0 <= i < |xs| ==> xs[i] in mem
    requires forall i, j :: 0 <= i < j < |xs| ==> xs[i] != xs[j]
    requires |ys| == |xs| - 1 && forall i :: 0 <= i < |ys| ==> ys[i] == Removed(xs, k, i)
    ensures MinorsLinked(LinkOut(mem, xs, k), ys)
  {
    var mem' := LinkOut(mem, xs, k);
    forall i | 0 <= i < |ys|
      ensures MinorLinkAt(mem', ys, i)
    {
      assert MinorLinkAt(mem, xs, if i < k then i else i + 1);
    }
  }

  /** Unlinking minor k leaves the other minors a well-formed list. */
  lemma LinkOutOk(mem: MinorMem, maj: int, end: int, xs: seq<int>, k: nat)
    requires MinorsOk(mem, maj, end, xs) && k < |xs|
    ensures MinorsOk(LinkOut(mem, xs, k), maj, end, RemoveAt(xs, k))
  {
    RemoveAtIndex(xs, k);
    LinkOutPlaced(mem, LinkOut(mem, xs, k), maj, end, xs, k, RemoveAt(xs, k));
    LinkOutLinked(mem, xs, k, RemoveAt(xs, k));
  }

  // ----- accounting

  lemma {:induction false} SumSplit(mem: MinorMem, xs: seq<int>, ys: seq<int>)
    ensures SumSizes(mem, xs + ys) == SumSizes(mem, xs) + SumSizes(mem, ys)
  {
    if xs == [] {
      assert xs + ys == ys;
    } else {
      assert (xs + ys)[1..] == xs[1..] + ys;
      SumSplit(mem, xs[1..], ys);
    }
  }

  lemma {:induction false} SumSame(mem: MinorMem, mem': MinorMem, xs: seq<int>)
    requires forall i :: 0 <= i < |xs| ==> SizeOf(mem, xs[i]) == SizeOf(mem', xs[i])
    ensures SumSizes(mem, xs) == SumSizes(mem', xs)
  {
    if xs != [] {
      assert SizeOf(mem, xs[0]) == SizeOf(mem', xs[0]);
      SumSame(mem, mem', xs[1..]);
    }
  }

  lemma SumInsert(mem: MinorMem, xs: seq<int>, k: nat, h: int)
    requires k <= |xs|
    ensures SumSizes(mem, InsertAt(xs, k, h)) == SumSizes(mem, xs) + SizeOf(mem, h)
  {
    SumSplit(mem, xs[..k], [h] + xs[k..]);
    SumSplit(mem, [h], xs[k..]);
    SumSplit(mem, xs[..k], xs[k..]);
    assert InsertAt(xs, k, h) == xs[..k] + ([h] + xs[k..]);
    assert xs == xs[..k] + xs[k..];
  }

  lemma SumRemove(mem: MinorMem, xs: seq<int>, k: nat)
    requires k < |xs|
    ensures SumSizes(mem, RemoveAt(xs, k)) + SizeOf(mem, xs[k]) == SumSizes(mem, xs)
  {
    SumInsert(mem, RemoveAt(xs, k), k, xs[k]);
    assert InsertAt(RemoveAt(xs, k), k, xs[k]) == xs;
  }

  lemma {:induction false} SpaceBefore(mem: MinorMem, maj: int, end: int, xs: seq<int>, k: nat)
    requires MinorsPlaced(mem, maj, end, xs) && k <= |xs|
    ensures GapStart(mem, maj, xs, k) - maj - MAJOR_HEADER >= SumSizes(mem, xs[..k]) + MINOR_HEADER * k
  {
    if k > 0 {
      SpaceBefore(mem, maj, end, xs, k - 1);
      assert xs[..k] == xs[..k - 1] + [xs[k - 1]];
      SumSplit(mem, xs[..k - 1], [xs[k - 1]]);
    }
  }

  lemma {:induction false} SpaceAfter(mem: MinorMem, maj: int, end: int, xs: seq<int>, k: nat)
    requires MinorsPlaced(mem, maj, end, xs) && k <= |xs|
    ensures end - GapEnd(end, xs, k) >= SumSizes(mem, xs[k..]) + MINOR_HEADER * (|xs| - k)
    decreases |xs| - k
  {
    if k < |xs| {
      SpaceAfter(mem, maj, end, xs, k + 1);
      assert xs[k..] == [xs[k]] + xs[k + 1..];
    }
  }

  /** No gap is larger than the space the usage count leaves. */
  lemma GapsAreFree(mem: MinorMem, maj: int, end: int, xs: seq<int>, k: nat)
    requires MinorsPlaced(mem, maj, end, xs) && k <= |xs|
    ensures GapEnd(end, xs, k) - GapStart(mem, maj, xs, k)
            <= end - maj - (MAJOR_HEADER + SumSizes(mem, xs) + MINOR_HEADER * |xs|)
  {
    SpaceBefore(mem, maj, end, xs, k);
    SpaceAfter(mem, maj, end, xs, k);
    SumSplit(mem, xs[..k], xs[k..]);
    assert xs == xs[..k] + xs[k..];
  }

  lemma MinorsFrame(mem: MinorMem, mem': MinorMem, maj: int, end: int, xs: seq<int>)
    requires MinorsOk(mem, maj, end, xs)
    requires forall i :: 0 <= i < |xs| ==> xs[i] in mem' && mem'[xs[i]] == mem[xs[i]]
    ensures MinorsOk(mem', maj, end, xs) && SumSizes(mem', xs) == SumSizes(mem, xs)
  {
    SumSame(mem, mem', xs);
    forall i | 0 <= i < |xs|
      ensures MinorLinkAt(mem', xs, i)
    {
      assert MinorLinkAt(mem, xs, i);
    }
  }

  // ----- the list of majors

  type Blocks = map<int, seq<int>>

  function FirstPage(m: int): int {
    (m - HEAP_BASE) / PAGE_BYTES
  }

  predicate Covers(majors: MajorMem, m: int, p: int) {
    m in majors && FirstPage(m) <= p < FirstPage(m) + majors[m].pages
  }

  ghost predicate MajorPlaced(majors: MajorMem, m: int) {
    && m in majors && 0 <= FirstPage(m) && m == HEAP_BASE + PAGE_BYTES * FirstPage(m)
    && 1 <= majors[m].pages && FirstPage(m) + majors[m].pages <= HEAP_PAGES
    && majors[m].size == PAGE_BYTES * majors[m].pages
  }

  /** Every page has at most one major on it: owner names it, or is 0. */
  ghost predicate MajorsPlaced(majors: MajorMem, order: seq<int>, owner: seq<int>) {
    && |owner| == HEAP_PAGES
    && (forall i :: 0 <= i < |order| ==> MajorPlaced(majors, order[i]))
    && (forall i, j :: 0 <= i < j < |order| ==> order[i] != order[j])
    && (forall i, p :: 0 <= i < |order| && Covers(majors, order[i], p) ==> owner[p] == order[i])
    && (forall p :: 0 <= p < HEAP_PAGES && owner[p] != 0 ==> owner[p] in order && Covers(majors, owner[p], p))
  }

  ghost predicate MajorLinkAt(majors: MajorMem, order: seq<int>, i: int) {
    && 0 <= i < |order| && order[i] in majors
    && majors[order[i]].prev == At(order, i - 1) && majors[order[i]].next == At(order, i + 1)
  }

  ghost predicate MajorsLinked(majors: MajorMem, order: seq<int>) {
    forall i :: 0 <= i < |order| ==> MajorLinkAt(majors, order, i)
  }

  ghost predicate PagesOk(bits: seq<bool>, owner: seq<int>) {
    |bits| == |owner| == HEAP_PAGES && forall p :: 0 <= p < HEAP_PAGES ==> (bits[p] <==> owner[p] != 0)
  }

  /** A major's own header agrees with its minors: first, end and usage. */
  ghost predicate MajorFilled(major: Major, mem: MinorMem, m: int, xs: seq<int>) {
    && MinorsOk(mem, m, m + major.size, xs)
    && major.first == At(xs, 0)
    && major.usage == MAJOR_HEADER + SumSizes(mem, xs) + MINOR_HEADER * |xs|
  }

  ghost predicate FilledAt(majors: MajorMem, mem: MinorMem, blocks: Blocks, m: int) {
    m in majors && m in blocks && MajorFilled(majors[m], mem, m, blocks[m])
  }

  ghost predicate AllFilled(majors: MajorMem, mem: MinorMem, order: seq<int>, blocks: Blocks) {
    forall i :: 0 <= i < |order| ==> FilledAt(majors, mem, blocks, order[i])
  }

  /** Live headers are exactly the ones the lists reach. */
  ghost predicate HeadersListed(mem: MinorMem, order: seq<int>, blocks: Blocks) {
    forall a :: a in mem ==> mem[a].block in order && mem[a].block in blocks && a in blocks[mem[a].block]
  }

  function TotalSize(majors: MajorMem, order: seq<int>): nat {
    if order == [] then 0
    else (if order[0] in majors then majors[order[0]].size else 0) + TotalSize(majors, order[1..])
  }

  function InUseOf(mem: MinorMem, blocks: Blocks, m: int): nat {
    if m in blocks then SumSizes(mem, blocks[m]) else 0
  }

  function TotalInUse(mem: MinorMem, blocks: Blocks, order: seq<int>): nat {
    if order == [] then 0 else InUseOf(mem, blocks, order[0]) + TotalInUse(mem, blocks, order[1..])
  }

  lemma {:induction false} TotalSizeSplit(majors: MajorMem, xs: seq<int>, ys: seq<int>)
    ensures TotalSize(majors, xs + ys) == TotalSize(majors, xs) + TotalSize(majors, ys)
  {
    if xs == [] {
      assert xs + ys == ys;
    } else {
      assert (xs + ys)[1..] == xs[1..] + ys;
      TotalSizeSplit(majors, xs[1..], ys);
    }
  }

  lemma {:induction false} TotalSizeSame(majors: MajorMem, majors': MajorMem, order: seq<int>)
    requires forall i :: 0 <= i < |order| ==>
               order[i] in majors && order[i] in majors' && majors'[order[i]].size == majors[order[i]].size
    ensures TotalSize(majors, order) == TotalSize(majors', order)
  {
    if order != [] { TotalSizeSame(majors, majors', order[1..]); }
  }

  lemma {:induction false} TotalInUseSplit(mem: MinorMem, blocks: Blocks, xs: seq<int>, ys: seq<int>)
    ensures TotalInUse(mem, blocks, xs + ys) == TotalInUse(mem, blocks, xs) + TotalInUse(mem, blocks, ys)
  {
    if xs == [] {
      assert xs + ys == ys;
    } else {
      assert (xs + ys)[1..] == xs[1..] + ys;
      TotalInUseSplit(mem, blocks, xs[1..], ys);
    }
  }

  lemma {:induction false} TotalInUseSame(mem: MinorMem, blocks: Blocks, mem': MinorMem, blocks': Blocks,
                                          order: seq<int>)
    requires forall i :: 0 <= i < |order| ==> InUseOf(mem', blocks', order[i]) == InUseOf(mem, blocks, order[i])
    ensures TotalInUse(mem', blocks', order) == TotalInUse(mem, blocks, order)
  {
    if order != [] {
      assert InUseOf(mem', blocks', order[0]) == InUseOf(mem, blocks, order[0]);
      TotalInUseSame(mem, blocks, mem', blocks', order[1..]);
    }
  }

  /** Changing one major's minors moves the running total by the change in that major. */
  lemma TotalInUseChange(mem: MinorMem, blocks: Blocks, mem': MinorMem, blocks': Blocks, order: seq<int>, k: nat)
    requires k < |order| && forall i, j :: 0 <= i < j < |order| ==> order[i] != order[j]
    requires forall i :: 0 <= i < |order| && i != k ==>
               InUseOf(mem', blocks', order[i]) == InUseOf(mem, blocks, order[i])
    ensures TotalInUse(mem', blocks', order) - InUseOf(mem', blocks', order[k])
            == TotalInUse(mem, blocks, order) - InUseOf(mem, blocks, order[k])
  {
    var a, b := order[..k], order[k + 1..];
    assert order == a + ([order[k]] + b);
    TotalInUseSplit(mem, blocks, a, [order[k]] + b);
    TotalInUseSplit(mem', blocks', a, [order[k]] + b);
    TotalInUseSplit(mem, blocks, [order[k]], b);
    TotalInUseSplit(mem', blocks', [order[k]], b);
    TotalInUseSame(mem, blocks, mem', blocks', a);
    TotalInUseSame(mem, blocks, mem', blocks', b);
  }

  /** Two majors never share an address. */
  lemma MajorsApart(majors: MajorMem, order: seq<int>, owner: seq<int>, i: nat, j: nat)
    requires MajorsPlaced(majors, order, owner) && i < |order| && j < |order| && i != j
    ensures order[i] + majors[order[i]].size <= order[j] || order[j] + majors[order[j]].size <= order[i]
  {
    var a, b := order[i], order[j];
    assert MajorPlaced(majors, a) && MajorPlaced(majors, b);
    assert Covers(majors, b, FirstPage(b)) && owner[FirstPage(b)] == order[j];
    assert Covers(majors, a, FirstPage(a)) && owner[FirstPage(a)] == order[i];
    assert !Covers(majors, a, FirstPage(b)) && !Covers(majors, b, FirstPage(a));
  }

  /** An address in a gap of one major heads no live minor anywhere. */
  lemma GapIsFree(majors: MajorMem, mem: MinorMem, order: seq<int>, blocks: Blocks, owner: seq<int>, i: nat, h: int)
    requires MajorsPlaced(majors, order, owner) && AllFilled(majors, mem, order, blocks)
    requires HeadersListed(mem, order, blocks)
    requires i < |order| && order[i] in blocks && h !in blocks[order[i]]
    requires order[i] + MAJOR_HEADER <= h < order[i] + majors[order[i]].size
    ensures h !in mem
  {
    if h in mem {
      var j :| 0 <= j < |order| && order[j] == mem[h].block;
      assert FilledAt(majors, mem, blocks, order[j]);
      if i != j {
        MajorsApart(majors, order, owner, i, j);
      }
    }
  }

  /** Any two live allocations, in whichever majors, occupy disjoint addresses. */
  lemma LiveBlocksDisjoint(majors: MajorMem, mem: MinorMem, order: seq<int>, blocks: Blocks, owner: seq<int>, a: int,
                           b: int)
    requires MajorsPlaced(majors, order, owner) && AllFilled(majors, mem, order, blocks)
    requires HeadersListed(mem, order, blocks)
    requires a in mem && b in mem && a != b
    ensures EndOf(mem, a) <= b || EndOf(mem, b) <= a
  {
    var i :| 0 <= i < |order| && order[i] == mem[a].block;
    var j :| 0 <= j < |order| && order[j] == mem[b].block;
    assert FilledAt(majors, mem, blocks, order[i]) && FilledAt(majors, mem, blocks, order[j]);
    if i != j {
      MajorsApart(majors, order, owner, i, j);
    } else {
      MinorsApart(mem, order[i], order[i] + majors[order[i]].size, blocks[order[i]], a, b);
    }
  }

  lemma MinorsApart(mem: MinorMem, maj: int, end: int, xs: seq<int>, a: int, b: int)
    requires MinorsPlaced(mem, maj, end, xs) && a in xs && b in xs && a != b
    ensures EndOf(mem, a) <= b || EndOf(mem, b) <= a
  {
    var k :| 0 <= k < |xs| && xs[k] == a;
    var l :| 0 <= l < |xs| && xs[l] == b;
  }

  /** The whole layout: majors, their pages, their minors and the headers in memory. */
  ghost predicate LayoutOk(majors: MajorMem, mem: MinorMem, order: seq<int>, blocks: Blocks, owner: seq<int>) {
    && MajorsPlaced(majors, order, owner) && MajorsLinked(majors, order)
    && AllFilled(majors, mem, order, blocks) && HeadersListed(mem, order, blocks)
  }

  /** A major's header once xs are its minors. */
  function Refilled(major: Major, mem: MinorMem, xs: seq<int>): Major {
    major.(first := At(xs, 0), usage := MAJOR_HEADER + SumSizes(mem, xs) + MINOR_HEADER * |xs|)
  }

  /** Replacing the minors of one major leaves the list of majors as it was. */
  lemma RefillKeepsMajors(majors: MajorMem, majors': MajorMem, order: seq<int>, owner: seq<int>)
    requires MajorsPlaced(majors, order, owner) && MajorsLinked(majors, order)
    requires majors'.Keys == majors.Keys
    requires forall m :: m in majors ==> majors'[m] == majors[m].(first := majors'[m].first, usage := majors'[m].usage)
    ensures MajorsPlaced(majors', order, owner) && MajorsLinked(majors', order)
  {
    forall i | 0 <= i < |order|
      ensures MajorPlaced(majors', order[i]) && MajorLinkAt(majors', order, i)
    {
      assert MajorPlaced(majors, order[i]) && MajorLinkAt(majors, order, i);
    }
    forall i, p | 0 <= i < |order| && Covers(majors', order[i], p)
      ensures 0 <= p < HEAP_PAGES && owner[p] == order[i]
    {
      assert MajorPlaced(majors, order[i]) && Covers(majors, order[i], p);
    }
    forall p | 0 <= p < HEAP_PAGES && owner[p] != 0
      ensures owner[p] in order && Covers(majors', owner[p], p)
    {
      assert Covers(majors, owner[p], p);
    }
  }

  lemma RefillKeepsOthers(majors: MajorMem, mem: MinorMem, mem': MinorMem, order: seq<int>, blocks: Blocks, idx: nat,
                          ys: seq<int>)
    requires idx < |order| && AllFilled(majors, mem, order, blocks)
    requires forall i, j :: 0 <= i < j < |order| ==> order[i] != order[j]
    requires forall a :: a in mem && mem[a].block != order[idx] ==> a in mem' && mem'[a] == mem[a]
    requires MinorsOk(mem', order[idx], order[idx] + majors[order[idx]].size, ys)
    ensures var m := order[idx];
            AllFilled(majors[m := Refilled(majors[m], mem', ys)], mem', order, blocks[m := ys])
    ensures var m := order[idx];
            TotalInUse(mem', blocks[m := ys], order)
            == TotalInUse(mem, blocks, order) - SumSizes(mem, blocks[m]) + SumSizes(mem', ys)
  {
    var m := order[idx];
    var majors', blocks' := majors[m := Refilled(majors[m], mem', ys)], blocks[m := ys];
    assert FilledAt(majors, mem, blocks, m);
    forall i | 0 <= i < |order|
      ensures FilledAt(majors', mem', blocks', order[i])
      ensures i != idx ==> InUseOf(mem', blocks', order[i]) == InUseOf(mem, blocks, order[i])
    {
      if i != idx {
        var n := order[i];
        assert FilledAt(majors, mem, blocks, n);
        MinorsFrame(mem, mem', n, n + majors[n].size, blocks[n]);
      }
    }
    TotalInUseChange(mem, blocks, mem', blocks', order, idx);
  }

  /** What linking in changes: the new header, and only links of the same major elsewhere. */
  ghost predicate SameHeaders(mem: MinorMem, mem': MinorMem, m: int) {
    forall a :: a in mem && a in mem' ==>
      && mem'[a] == mem[a].(prev := mem'[a].prev, next := mem'[a].next)
      && (mem[a].block != m ==> mem'[a] == mem[a])
  }

  lemma LinkInHeaders(mem: MinorMem, maj: int, xs: seq<int>, k: nat, h: int, size: nat, reqSize: nat)
    requires k <= |xs| && h !in mem && forall i :: 0 <= i < |xs| ==> xs[i] in mem && mem[xs[i]].block == maj
    ensures var mem' := LinkIn(mem, maj, xs, k, h, size, reqSize);
            && mem'.Keys == mem.Keys + {h} && SameHeaders(mem, mem', maj)
            && mem'[h] == Minor(At(xs, k - 1), At(xs, k), maj, size, reqSize)
  {
  }

  lemma LinkOutHeaders(mem: MinorMem, maj: int, xs: seq<int>, k: nat)
    requires k < |xs| && forall i :: 0 <= i < |xs| ==> xs[i] in mem && mem[xs[i]].block == maj
    ensures var mem' := LinkOut(mem, xs, k);
            mem'.Keys == mem.Keys - {xs[k]} && SameHeaders(mem, mem', maj)
  {
  }

  lemma HeadersAfter(mem: MinorMem, mem': MinorMem, order: seq<int>, blocks: Blocks, m: int, ys: seq<int>)
    requires HeadersListed(mem, order, blocks) && m in order && m in blocks && SameHeaders(mem, mem', m)
    requires forall a :: a in mem' && a !in mem ==> mem'[a].block == m && a in ys
    requires forall a :: a in mem' && a in mem && a in blocks[m] ==> a in ys
    ensures HeadersListed(mem', order, blocks[m := ys])
  {
  }

  lemma FillHeaders(mem: MinorMem, order: seq<int>, blocks: Blocks, m: int, k: nat, h: int, size: nat, reqSize: nat)
    requires HeadersListed(mem, order, blocks) && m in order && m in blocks && h !in mem
    requires k <= |blocks[m]|
    requires forall i :: 0 <= i < |blocks[m]| ==> blocks[m][i] in mem && mem[blocks[m][i]].block == m
    ensures var mem' := LinkIn(mem, m, blocks[m], k, h, size, reqSize);
            && SameHeaders(mem, mem', m) && mem'.Keys == mem.Keys + {h}
            && HeadersListed(mem', order, blocks[m := InsertAt(blocks[m], k, h)])
            && SumSizes(mem', InsertAt(blocks[m], k, h)) == SumSizes(mem, blocks[m]) + size
  {
    var xs := blocks[m];
    var mem', ys := LinkIn(mem, m, xs, k, h, size, reqSize), InsertAt(xs, k, h);
    LinkInHeaders(mem, m, xs, k, h, size, reqSize);
    SumInsert(mem', xs, k, h);
    SumSame(mem, mem', xs);
    forall a | a == h || a in xs ensures a in ys {
      InsertAtIndex(xs, k, h);
      if a == h {
        assert ys[k] == h;
      } else {
        var i :| 0 <= i < |xs| && xs[i] == a;
        assert ys[if i < k then i else i + 1] == a;
      }
    }
    HeadersAfter(mem, mem', order, blocks, m, ys);
  }

  /** Placing a minor in a gap that fits keeps the layout and adds its size to the total. */
  lemma FillOk(majors: MajorMem, mem: MinorMem, order: seq<int>, blocks: Blocks, owner: seq<int>,
               idx: nat, k: nat, h: int, size: nat, reqSize: nat)
    requires LayoutOk(majors, mem, order, blocks, owner) && idx < |order| && order[idx] in blocks
    requires k <= |blocks[order[idx]]|
    requires order[idx] in majors && h == GapStart(mem, order[idx], blocks[order[idx]], k)
    requires Fits(mem, order[idx], order[idx] + majors[order[idx]].size, blocks[order[idx]], k, size)
    requires forall i :: 0 <= i < |blocks[order[idx]]| ==> blocks[order[idx]][i] in mem
    ensures h !in mem
    ensures var m, xs := order[idx], blocks[order[idx]];
            var mem', ys := LinkIn(mem, m, xs, k, h, size, reqSize), InsertAt(xs, k, h);
            && LayoutOk(majors[m := Refilled(majors[m], mem', ys)], mem', order, blocks[m := ys], owner)
            && TotalInUse(mem', blocks[m := ys], order) == TotalInUse(mem, blocks, order) + size
            && SumSizes(mem', ys) == SumSizes(mem, xs) + size && |ys| == |xs| + 1
  {
    hide LinkIn, SumSizes, TotalInUse, LayoutOk, MinorsOk, AllFilled, HeadersListed, MajorsPlaced, GapStart;
    hide Fits, Refilled, SameHeaders, SizeOf;
    var m, xs := order[idx], blocks[order[idx]];
    FilledMajor(majors, mem, order, blocks, owner, idx);
    var mem', ys := LinkIn(mem, m, xs, k, h, size, reqSize), InsertAt(xs, k, h);
    LinkInOk(mem, m, m + majors[m].size, xs, k, h, size, reqSize);
    GapInside(mem, m, m + majors[m].size, xs, k, size);
    GapIsFree(majors, mem, order, blocks, owner, idx, h);
    FillHeaders(mem, order, blocks, m, k, h, size, reqSize);
    RefillOk(majors, mem, mem', order, blocks, owner, idx, ys);
  }

  lemma FilledMajor(majors: MajorMem, mem: MinorMem, order: seq<int>, blocks: Blocks, owner: seq<int>, idx: nat)
    requires LayoutOk(majors, mem, order, blocks, owner) && idx < |order|
    ensures var m := order[idx];
            && m in majors && m in blocks && MinorsOk(mem, m, m + majors[m].size, blocks[m])
            && (forall i :: 0 <= i < |blocks[m]| ==> blocks[m][i] in mem && mem[blocks[m][i]].block == m)
            && forall i, j :: 0 <= i < j < |blocks[m]| ==> blocks[m][i] != blocks[m][j]
    ensures MajorsPlaced(majors, order, owner) && AllFilled(majors, mem, order, blocks)
    ensures HeadersListed(mem, order, blocks)
  {
    hide MajorsPlaced, MajorsLinked, HeadersListed, SumSizes;
    assert FilledAt(majors, mem, blocks, order[idx]);
  }

  lemma GapInside(mem: MinorMem, maj: int, end: int, xs: seq<int>, k: nat, size: nat)
    requires MinorsOk(mem, maj, end, xs) && k <= |xs| && Fits(mem, maj, end, xs, k, size)
    ensures maj + MAJOR_HEADER <= GapStart(mem, maj, xs, k) < end
  {
    if k > 0 { assert xs[k - 1] in mem; }
    if k < |xs| { assert EndOf(mem, xs[k]) <= end; }
  }

  lemma RefillOk(majors: MajorMem, mem: MinorMem, mem': MinorMem, order: seq<int>, blocks: Blocks, owner: seq<int>,
                 idx: nat, ys: seq<int>)
    requires LayoutOk(majors, mem, order, blocks, owner) && idx < |order| && order[idx] in blocks
    requires order[idx] in majors
    requires MinorsOk(mem', order[idx], order[idx] + majors[order[idx]].size, ys)
    requires SameHeaders(mem, mem', order[idx])
    requires forall a :: a in mem && mem[a].block != order[idx] ==> a in mem'
    requires HeadersListed(mem', order, blocks[order[idx] := ys])
    ensures var m := order[idx];
            && LayoutOk(majors[m := Refilled(majors[m], mem', ys)], mem', order, blocks[m := ys], owner)
            && TotalInUse(mem', blocks[m := ys], order)
               == TotalInUse(mem, blocks, order) - SumSizes(mem, blocks[m]) + SumSizes(mem', ys)
  {
    var m := order[idx];
    RefillKeepsMajors(majors, majors[m := Refilled(majors[m], mem', ys)], order, owner);
    RefillKeepsOthers(majors, mem, mem', order, blocks, idx, ys);
  }

  lemma UnfillHeaders(mem: MinorMem, order: seq<int>, blocks: Blocks, m: int, k: nat)
    requires HeadersListed(mem, order, blocks) && m in order && m in blocks
    requires k < |blocks[m]| && forall i :: 0 <= i < |blocks[m]| ==> blocks[m][i] in mem && mem[blocks[m][i]].block == m
    requires forall i, j :: 0 <= i < j < |blocks[m]| ==> blocks[m][i] != blocks[m][j]
    ensures var mem' := LinkOut(mem, blocks[m], k);
            && SameHeaders(mem, mem', m) && mem'.Keys == mem.Keys - {blocks[m][k]}
            && HeadersListed(mem', order, blocks[m := RemoveAt(blocks[m], k)])
            && SumSizes(mem', RemoveAt(blocks[m], k)) == SumSizes(mem, blocks[m]) - mem[blocks[m][k]].size
  {
    var xs := blocks[m];
    var mem', ys := LinkOut(mem, xs, k), RemoveAt(xs, k);
    LinkOutHeaders(mem, m, xs, k);
    RemoveAtIndex(xs, k);
    SumRemove(mem, xs, k);
    SumSame(mem, mem', ys);
    forall a | a in xs && a != xs[k] ensures a in ys {
      var i :| 0 <= i < |xs| && xs[i] == a;
      assert ys[if i < k then i else i - 1] == a;
    }
    HeadersAfter(mem, mem', order, blocks, m, ys);
  }

  /** Removing a minor keeps the layout and takes its size off the total. */
  lemma UnfillOk(majors: MajorMem, mem: MinorMem, order: seq<int>, blocks: Blocks, owner: seq<int>, idx: nat, k: nat)
    requires LayoutOk(majors, mem, order, blocks, owner) && idx < |order| && order[idx] in blocks
    requires k < |blocks[order[idx]]|
    requires order[idx] in majors
    requires forall i :: 0 <= i < |blocks[order[idx]]| ==> blocks[order[idx]][i] in mem
    ensures var m, xs := order[idx], blocks[order[idx]];
            var mem', ys := LinkOut(mem, xs, k), RemoveAt(xs, k);
            && LayoutOk(majors[m := Refilled(majors[m], mem', ys)], mem', order, blocks[m := ys], owner)
            && TotalInUse(mem', blocks[m := ys], order) == TotalInUse(mem, blocks, order) - mem[xs[k]].size
            && SumSizes(mem', ys) == SumSizes(mem, xs) - mem[xs[k]].size && |ys| == |xs| - 1
  {
    hide LinkOut, SumSizes, TotalInUse, LayoutOk, MinorsOk, AllFilled, HeadersListed, MajorsPlaced, Refilled;
    hide SameHeaders, SizeOf;
    var m, xs := order[idx], blocks[order[idx]];
    FilledMajor(majors, mem, order, blocks, owner, idx);
    LinkOutOk(mem, m, m + majors[m].size, xs, k);
    UnfillHeaders(mem, order, blocks, m, k);
    RefillOk(majors, mem, LinkOut(mem, xs, k), order, blocks, owner, idx, RemoveAt(xs, k));
  }

  // ----- adding and dropping a major

  function SetOwner(owner: seq<int>, p: nat, n: nat, m: int): (r: seq<int>)
    requires p + n <= |owner|
    ensures |r| == |owner| && forall i :: 0 <= i < |owner| ==> r[i] == if p <= i < p + n then m else owner[i]
  {
    seq(|owner|, i requires 0 <= i < |owner| => if p <= i < p + n then m else owner[i])
  }

  /** Headers after the fresh major m of n pages is hooked behind the last one. */
  function AppendMajor(majors: MajorMem, order: seq<int>, m: int, n: nat): MajorMem
    requires order != [] ==> order[|order| - 1] in majors
  {
    var header := Major(At(order, |order| - 1), 0, n, n * PAGE_BYTES, MAJOR_HEADER, 0);
    if order == [] then majors[m := header]
    else majors[order[|order| - 1] := majors[order[|order| - 1]].(next := m)][m := header]
  }

  lemma AppendPlaced(majors: MajorMem, majors': MajorMem, order: seq<int>, owner: seq<int>, p: nat, n: nat)
    requires MajorsPlaced(majors, order, owner) && 1 <= n && p + n <= HEAP_PAGES
    requires forall i :: p <= i < p + n ==> owner[i] == 0
    requires forall i :: 0 <= i < |order| && order[i] != HEAP_BASE + PAGE_BYTES * p ==>
               && order[i] in majors' && majors'[order[i]].pages == majors[order[i]].pages
               && majors'[order[i]].size == majors[order[i]].size
    requires var m := HEAP_BASE + PAGE_BYTES * p;
             m in majors' && majors'[m].pages == n && majors'[m].size == n * PAGE_BYTES
    ensures HEAP_BASE + PAGE_BYTES * p !in order
    ensures var m := HEAP_BASE + PAGE_BYTES * p;
            MajorsPlaced(majors', order + [m], SetOwner(owner, p, n, m))
  {
    var m := HEAP_BASE + PAGE_BYTES * p;
    assert FirstPage(m) == p;
    var order', owner' := order + [m], SetOwner(owner, p, n, m);
    forall i | 0 <= i < |order|
      ensures order[i] != m
    {
      assert MajorPlaced(majors, order[i]);
      assert Covers(majors, order[i], FirstPage(order[i]));
      assert owner[FirstPage(order[i])] == order[i];
    }
    forall i | 0 <= i < |order'|
      ensures MajorPlaced(majors', order'[i])
    {
      if i < |order| { assert MajorPlaced(majors, order[i]); }
    }
    forall i, q | 0 <= i < |order'| && Covers(majors', order'[i], q)
      ensures 0 <= q < HEAP_PAGES && owner'[q] == order'[i]
    {
      if i < |order| {
        assert MajorPlaced(majors, order[i]) && Covers(majors, order[i], q);
        assert owner[q] == order[i];
      } else {
        assert order'[i] == m;
      }
    }
    forall q | 0 <= q < HEAP_PAGES && owner'[q] != 0
      ensures owner'[q] in order' && Covers(majors', owner'[q], q)
    {
      if !(p <= q < p + n) { assert Covers(majors, owner[q], q); }
    }
  }

  lemma AppendLinked(majors: MajorMem, order: seq<int>, m: int, n: nat)
    requires MajorsLinked(majors, order) && m !in order
    requires forall i :: 0 <= i < |order| ==> order[i] in majors
    requires forall i, j :: 0 <= i < j < |order| ==> order[i] != order[j]
    ensures MajorsLinked(AppendMajor(majors, order, m, n), order + [m])
  {
    var majors', order' := AppendMajor(majors, order, m, n), order + [m];
    forall i | 0 <= i < |order'|
      ensures MajorLinkAt(majors', order', i)
    {
      if i < |order| { assert MajorLinkAt(majors, order, i); }
    }
  }

  lemma HeadersOnly(majors: MajorMem, majors': MajorMem, mem: MinorMem, order: seq<int>, blocks: Blocks,
                    blocks': Blocks)
    requires AllFilled(majors, mem, order, blocks)
    requires forall i :: 0 <= i < |order| ==>
               && order[i] in majors && order[i] in majors'
               && majors'[order[i]] == majors[order[i]].(prev := majors'[order[i]].prev, next := majors'[order[i]].next)
               && order[i] in blocks && order[i] in blocks' && blocks'[order[i]] == blocks[order[i]]
    ensures AllFilled(majors', mem, order, blocks')
    ensures TotalSize(majors', order) == TotalSize(majors, order)
    ensures TotalInUse(mem, blocks', order) == TotalInUse(mem, blocks, order)
  {
    forall i | 0 <= i < |order|
      ensures FilledAt(majors', mem, blocks', order[i])
    {
      assert FilledAt(majors, mem, blocks, order[i]);
    }
    TotalSizeSame(majors, majors', order);
    TotalInUseSame(mem, blocks, mem, blocks', order);
  }

  /** A fresh major on free pages extends the layout with an empty major that has room. */
  lemma AppendOk(majors: MajorMem, mem: MinorMem, order: seq<int>, blocks: Blocks, owner: seq<int>, bits: seq<bool>,
                 p: nat, n: nat)
    requires LayoutOk(majors, mem, order, blocks, owner) && PagesOk(bits, owner)
    requires 1 <= n && p + n <= HEAP_PAGES && BitRuns.AllAre(bits, p, n, false)
    ensures HEAP_BASE + PAGE_BYTES * p !in order
    ensures order != [] ==> order[|order| - 1] in majors
    ensures var m := HEAP_BASE + PAGE_BYTES * p;
            var majors', owner' := AppendMajor(majors, order, m, n), SetOwner(owner, p, n, m);
            && LayoutOk(majors', mem, order + [m], blocks[m := []], owner')
            && PagesOk(BitRuns.SetRun(bits, p, n, true), owner')
            && TotalSize(majors', order + [m]) == TotalSize(majors, order) + n * PAGE_BYTES
            && TotalInUse(mem, blocks[m := []], order + [m]) == TotalInUse(mem, blocks, order)
  {
    var m := HEAP_BASE + PAGE_BYTES * p;
    assert forall i :: 0 <= i < |order| ==> MajorPlaced(majors, order[i]);
    var majors' := AppendMajor(majors, order, m, n);
    AppendPlaced(majors, majors', order, owner, p, n);
    AppendLinked(majors, order, m, n);
    assert forall i :: 0 <= i < |order| ==> FilledAt(majors, mem, blocks, order[i]);
    HeadersOnly(majors, majors', mem, order, blocks, blocks[m := []]);
    AppendFilled(majors', mem, order, blocks, m, n);
    AppendTotals(majors', mem, order, blocks[m := []], m);
  }

  lemma AppendFilled(majors: MajorMem, mem: MinorMem, order: seq<int>, blocks: Blocks, m: int, n: nat)
    requires AllFilled(majors, mem, order, blocks[m := []]) && HeadersListed(mem, order, blocks)
    requires m > 0 && m !in order && m in majors && 1 <= n
    requires majors[m].first == 0 && majors[m].usage == MAJOR_HEADER && majors[m].size == n * PAGE_BYTES
    ensures AllFilled(majors, mem, order + [m], blocks[m := []]) && HeadersListed(mem, order + [m], blocks[m := []])
  {
    var order', blocks' := order + [m], blocks[m := []];
    forall i | 0 <= i < |order'|
      ensures FilledAt(majors, mem, blocks', order'[i])
    {
      if i < |order| { assert FilledAt(majors, mem, blocks', order[i]); }
    }
  }

  lemma AppendTotals(majors: MajorMem, mem: MinorMem, order: seq<int>, blocks: Blocks, m: int)
    requires m in majors && m in blocks && blocks[m] == []
    ensures TotalSize(majors, order + [m]) == TotalSize(majors, order) + majors[m].size
    ensures TotalInUse(mem, blocks, order + [m]) == TotalInUse(mem, blocks, order)
  {
    TotalSizeSplit(majors, order, [m]);
    TotalInUseSplit(mem, blocks, order, [m]);
  }

  /** Headers after major k is unhooked. */
  function DropMajor(majors: MajorMem, order: seq<int>, k: nat): MajorMem
    requires k < |order| && forall i :: 0 <= i < |order| ==> order[i] in majors
  {
    var m1 := if k > 0 then majors[order[k - 1] := majors[order[k - 1]].(next := At(order, k + 1))] else majors;
    if k + 1 < |order| then m1[order[k + 1] := m1[order[k + 1]].(prev := At(order, k - 1))] else m1
  }

  lemma DropLinked(majors: MajorMem, order: seq<int>, k: nat, ys: seq<int>)
    requires MajorsLinked(majors, order) && k < |order|
    requires forall i :: 0 <= i < |order| ==> order[i] in majors
    requires forall i, j :: 0 <= i < j < |order| ==> order[i] != order[j]
    requires |ys| == |order| - 1 && forall i :: 0 <= i < |ys| ==> ys[i] == Removed(order, k, i)
    ensures MajorsLinked(DropMajor(majors, order, k), ys)
  {
    var majors' := DropMajor(majors, order, k);
    forall i | 0 <= i < |ys|
      ensures MajorLinkAt(majors', ys, i)
    {
      assert MajorLinkAt(majors, order, if i < k then i else i + 1);
    }
  }

  lemma DropPlaced(majors: MajorMem, majors': MajorMem, order: seq<int>, owner: seq<int>, k: nat, ys: seq<int>)
    requires MajorsPlaced(majors, order, owner) && k < |order|
    requires |ys| == |order| - 1 && forall i :: 0 <= i < |ys| ==> ys[i] == Removed(order, k, i)
    requires forall i :: 0 <= i < |order| ==>
               && order[i] in majors' && majors'[order[i]].pages == majors[order[i]].pages
               && majors'[order[i]].size == majors[order[i]].size
    ensures MajorPlaced(majors, order[k])
    ensures MajorsPlaced(majors', ys, SetOwner(owner, FirstPage(order[k]), majors[order[k]].pages, 0))
  {
    var m := order[k];
    assert MajorPlaced(majors, m);
    var owner' := SetOwner(owner, FirstPage(m), majors[m].pages, 0);
    forall i | 0 <= i < |ys|
      ensures MajorPlaced(majors', ys[i]) && ys[i] != m
    {
      assert MajorPlaced(majors, ys[i]);
    }
    forall i, q | 0 <= i < |ys| && Covers(majors', ys[i], q)
      ensures 0 <= q < HEAP_PAGES && owner'[q] == ys[i]
    {
      assert MajorPlaced(majors, ys[i]) && Covers(majors, ys[i], q);
      assert owner[q] == ys[i];
      assert !Covers(majors, m, q);
    }
    forall q | 0 <= q < HEAP_PAGES && owner'[q] != 0
      ensures owner'[q] in ys && Covers(majors', owner'[q], q)
    {
      assert Covers(majors, owner[q], q);
      var i :| 0 <= i < |order| && order[i] == owner[q];
      assert ys[if i < k then i else i - 1] == owner[q];
    }
  }

  lemma DropTotals(majors: MajorMem, mem: MinorMem, order: seq<int>, blocks: Blocks, k: nat)
    requires k < |order| && order[k] in majors && order[k] in blocks && blocks[order[k]] == []
    ensures TotalSize(majors, RemoveAt(order, k)) == TotalSize(majors, order) - majors[order[k]].size
    ensures TotalInUse(mem, blocks, RemoveAt(order, k)) == TotalInUse(mem, blocks, order)
  {
    var a, b := order[..k], order[k + 1..];
    assert order == a + ([order[k]] + b);
    TotalSizeSplit(majors, a, [order[k]] + b);
    TotalSizeSplit(majors, [order[k]], b);
    TotalSizeSplit(majors, a, b);
    TotalInUseSplit(mem, blocks, a, [order[k]] + b);
    TotalInUseSplit(mem, blocks, [order[k]], b);
    TotalInUseSplit(mem, blocks, a, b);
  }

  /** Dropping a major with no minors gives its pages back and keeps the layout. */
  lemma DropOk(majors: MajorMem, mem: MinorMem, order: seq<int>, blocks: Blocks, owner: seq<int>, bits: seq<bool>,
               k: nat)
    requires LayoutOk(majors, mem, order, blocks, owner) && PagesOk(bits, owner)
    requires k < |order| && order[k] in blocks && blocks[order[k]] == []
    ensures MajorPlaced(majors, order[k]) && forall i :: 0 <= i < |order| ==> order[i] in majors
    ensures var m := order[k];
            var majors', order' := DropMajor(majors, order, k), RemoveAt(order, k);
            var owner' := SetOwner(owner, FirstPage(m), majors[m].pages, 0);
            && LayoutOk(majors', mem, order', blocks, owner')
            && PagesOk(BitRuns.SetRun(bits, FirstPage(m), majors[m].pages, false), owner')
            && TotalSize(majors', order') == TotalSize(majors, order) - majors[m].size
            && TotalInUse(mem, blocks, order') == TotalInUse(mem, blocks, order)
  {
    assert forall i :: 0 <= i < |order| ==> MajorPlaced(majors, order[i]) && FilledAt(majors, mem, blocks, order[i]);
    var majors', ys := DropMajor(majors, order, k), RemoveAt(order, k);
    RemoveAtIndex(order, k);
    DropPlaced(majors, majors', order, owner, k, ys);
    DropLinked(majors, order, k, ys);
    HeadersOnly(majors, majors', mem, order, blocks, blocks);
    DropTotals(majors', mem, order, blocks, k);
    DropFilled(majors', mem, order, blocks, k, ys);
  }

  lemma DropFilled(majors: MajorMem, mem: MinorMem, order: seq<int>, blocks: Blocks, k: nat, ys: seq<int>)
    requires AllFilled(majors, mem, order, blocks) && HeadersListed(mem, order, blocks)
    requires k < |order| && order[k] in blocks && blocks[order[k]] == []
    requires |ys| == |order| - 1 && forall i :: 0 <= i < |ys| ==> ys[i] == Removed(order, k, i)
    ensures AllFilled(majors, mem, ys, blocks) && HeadersListed(mem, ys, blocks)
  {
    forall i | 0 <= i < |ys|
      ensures FilledAt(majors, mem, blocks, ys[i])
    {
      assert FilledAt(majors, mem, blocks, order[if i < k then i else i + 1]);
    }
    forall a | a in mem
      ensures mem[a].block in ys
    {
      var i :| 0 <= i < |order| && order[i] == mem[a].block;
      assert ys[if i < k then i else i - 1] == mem[a].block;
    }
  }
}
