/** The allocator: alignment of the pointers it hands out, the first-fit search over the
    majors, and free. Header memory is address-keyed; a header whose magic is not
    LIBALLOC_MAGIC is one that is not in the map. */
module Heap {
  import opened Bits
  import opened BitRuns
  import opened Common
  import opened HeapLayout

  const ALIGN_INFO := 64
  const DEFAULT_ALIGNMENT := 16

  // ----- alignment

  function AlignUp(align: nat, p: nat): (q: nat)
    ensures p <= q
  {
    if align <= 1 then p
    else
      var q := p + ALIGN_INFO;
      AndBound(q, align - 1);
      var diff := And(q, align - 1);
      if diff != 0 then q + (align - diff) else q
  }

  function Unalign(align: nat, p: int, word: nat): int {
    if align > 1 && word < align + ALIGN_INFO then p - word else p
  }

  function PaddedSize(reqSize: nat, align: nat): nat {
    if align > 1 then reqSize + align + ALIGN_INFO else reqSize
  }

  /** Aligning up keeps the stored word and the requested bytes inside the padded payload,
      the word clear of the bytes, and the word undoes the alignment exactly. */
  lemma AlignRoundTrip(align: nat, p: nat, reqSize: nat)
    ensures var q := AlignUp(align, p);
            && p <= q && q + reqSize <= p + PaddedSize(reqSize, align)
            && Unalign(align, q, q - p) == p
            && (align > 1 ==> p <= q - ALIGN_INFO && q - ALIGN_INFO + 4 <= q)
  {
    AndBound(p + ALIGN_INFO, if align > 1 then align - 1 else 0);
  }

  const HEAP_END := HEAP_BASE + HEAP_PAGES * PAGE_BYTES

  /** A payload may start at p and still hold the padding of the alignment, within the pages
      that the heap has. */
  predicate MayStart(p: nat, align: nat) {
    HEAP_BASE + MAJOR_HEADER + MINOR_HEADER <= p && p + align + ALIGN_INFO <= HEAP_END
  }

  /** Whatever the alignment that fits into the heap: the pointers all come out as multiples of it
      exactly if it is a power of two. */
  lemma AlignedIffPowerOf2(align: nat)
    requires align > 1 && MayStart(HEAP_BASE + MAJOR_HEADER + MINOR_HEADER, align)
    ensures (forall p: nat :: MayStart(p, align) ==> AlignUp(align, p) % align == 0) <==> IsPowerOf2(align)
  {
    if IsPowerOf2(align) {
      var k := TestFindsPowers(align);
      forall p: nat | MayStart(p, align)
        ensures AlignUp(align, p) % align == 0
      {
        AndMask(p + ALIGN_INFO, k);
        RoundUpMultiple(p + ALIGN_INFO, align);
      }
    } else {
      var p := Misaligned(align);
      assert MayStart(p, align);
    }
  }

  /** The highest start that fits, or the one below it, comes out wrong. */
  lemma Misaligned(align: nat) returns (p: nat)
    requires align > 1 && MayStart(HEAP_BASE + MAJOR_HEADER + MINOR_HEADER, align) && !IsPowerOf2(align)
    ensures MayStart(p, align) && AlignUp(align, p) % align != 0
  {
    hide AlignUp, And, Pow2, IsPowerOf2;
    p := HEAP_END - align - ALIGN_INFO;
    if p == HEAP_BASE + MAJOR_HEADER + MINOR_HEADER {
      LargestAlignment();
    } else {
      var s, o := OddPart(align);
      NotAPower(align, s, o);
      var e := EndIsEven(s, o);
      NeighboursDiffer(p + ALIGN_INFO, align, s, o, e);
      AlignUpWhen(align, p);
      AlignUpWhen(align, p - 1);
      if AlignUp(align, p) % align == 0 { p := p - 1; }
    }
  }

  lemma AlignUpWhen(align: nat, p: nat)
    requires align > 1
    ensures And(p + ALIGN_INFO, align - 1) <= p + ALIGN_INFO
    ensures AlignUp(align, p) % align == 0 <==> (p + ALIGN_INFO - And(p + ALIGN_INFO, align - 1)) % align == 0
  {
    var q := p + ALIGN_INFO;
    AndBound(q, align - 1);
    var d := q - And(q, align - 1);
    AddOne(d, align);
  }

  lemma AddOne(d: nat, align: nat)
    requires align > 0
    ensures (d + align) % align == d % align
  {
    ModUnique(d + align, d / align + 1, align, d % align);
  }

  /** An odd factor and a power of two. */
  lemma {:induction false} OddPart(a: nat) returns (s: nat, o: nat)
    requires a > 0
    ensures a == Pow2(s) * o && o % 2 == 1
  {
    if a % 2 == 1 {
      s, o := 0, a;
    } else {
      s, o := OddPart(a / 2);
      assert 2 * (Pow2(s) * o) == (2 * Pow2(s)) * o;
      s := s + 1;
    }
  }

  lemma NotAPower(a: nat, s: nat, o: nat)
    requires a == Pow2(s) * o && o % 2 == 1 && !IsPowerOf2(a)
    ensures o >= 3 && 0 < Pow2(s) < a
  {
    PowersPassTheTest(s);
    if o >= 3 {
      MulMono(o - 1, Pow2(s));
      assert Pow2(s) * o == Pow2(s) + (o - 1) * Pow2(s);
    }
  }

  /** The end of the heap is an even multiple of every power of two that goes into it three
      times. */
  lemma EndIsEven(s: nat, o: nat) returns (e: nat)
    requires o >= 3 && Pow2(s) * o <= HEAP_PAGES * PAGE_BYTES
    ensures HEAP_END == Pow2(s) * (2 * e)
  {
    var q := Pow2(s);
    assert Pow2(22) == 0x40_0000 by {
      assert Pow2(8) == 0x100 && Pow2(16) == 0x1_0000;
    }
    if s >= 22 { Pow2Mono(22, s); }
    Thrice(q, o);
    Pow2Splits(22, s + 1);
    assert Pow2(s + 1) == 2 * q;
    hide Pow2;
    var f := Pow2(22 - (s + 1));
    e := 771 * f;
    Regroup(f, q);
  }

  lemma Thrice(q: nat, o: nat)
    requires o >= 3
    ensures q * o >= 3 * q
  {
    assert q * o == 3 * q + q * (o - 3);
  }

  lemma Regroup(f: nat, q: nat)
    ensures 771 * (f * (2 * q)) == q * (2 * (771 * f))
  {
  }

  lemma Halved(half: nat, o: nat)
    ensures (2 * half) * o == 2 * (half * o)
  {
  }

  lemma {:induction false} Pow2Splits(n: nat, k: nat)
    requires k <= n
    ensures Pow2(n) == Pow2(n - k) * Pow2(k)
  {
    if k > 0 {
      Pow2Splits(n, k - 1);
      assert Pow2(n - (k - 1)) == 2 * Pow2(n - k);
      assert (2 * Pow2(n - k)) * Pow2(k - 1) == Pow2(n - k) * (2 * Pow2(k - 1));
    }
  }

  /** Masked with align - 1, an odd multiple of the power of two in align and the number below it
      lose so much that what is left differs by just that power. */
  lemma {:induction false} MaskedApart(q: nat, align: nat, s: nat, o: nat, j: nat)
    requires align == Pow2(s) * o && o % 2 == 1 && q == Pow2(s) * j && j % 2 == 1
    ensures align > 0 && q > 0 && And(q, align - 1) <= q && And(q - 1, align - 1) <= q - 1
    ensures q - And(q, align - 1) == (q - 1) - And(q - 1, align - 1) + Pow2(s)
    decreases s
  {
    hide And;
    MulMono(o, Pow2(s));
    MulMono(j, Pow2(s));
    if s > 0 {
      var half := Pow2(s - 1);
      assert Pow2(s) == 2 * half;
      hide Pow2;
      Halved(half, o);
      Halved(half, j);
      MaskedApart(half * j, half * o, s - 1, o, j);
      MaskHalves(half * j, half * o);
    } else {
      MaskOdd(j / 2, o / 2);
      AndBound(q - 1, align - 1);
    }
  }

  lemma MaskHalves(q: nat, a: nat)
    requires q > 0 && a > 0
    ensures And(2 * q, 2 * a - 1) == 2 * And(q, a - 1)
    ensures And(2 * q - 1, 2 * a - 1) == 1 + 2 * And(q - 1, a - 1)
  {
    assert (2 * q) / 2 == q && (2 * a - 1) / 2 == a - 1 && (2 * q - 1) / 2 == q - 1;
    assert (2 * q) % 2 == 0 && (2 * a - 1) % 2 == 1 && (2 * q - 1) % 2 == 1;
  }

  lemma MaskOdd(h: nat, n: nat)
    ensures And(2 * h + 1, 2 * n) == And(2 * h, 2 * n)
  {
    assert (2 * h + 1) / 2 == h == (2 * h) / 2 && (2 * h) % 2 == 0 == (2 * n) % 2;
    if h == 0 && n > 0 { assert And(1, 2 * n) == 2 * And(0, n); }
  }

  lemma NeighboursDiffer(q: nat, align: nat, s: nat, o: nat, e: nat)
    requires align == Pow2(s) * o && o % 2 == 1 && 0 < Pow2(s) < align && q == Pow2(s) * (2 * e) - align && q > 0
    ensures And(q, align - 1) <= q && And(q - 1, align - 1) <= q - 1
    ensures (q - And(q, align - 1)) % align != 0 || (q - 1 - And(q - 1, align - 1)) % align != 0
  {
    hide And, Pow2;
    var j := 2 * e - o;
    Subtract(Pow2(s), 2 * e, o);
    MulMono(j, Pow2(s));
    assert j > 0;
    MaskedApart(q, align, s, o, j);
    var x, y := q - And(q, align - 1), q - 1 - And(q - 1, align - 1);
    if y % align == 0 {
      ModUnique(x, y / align, align, Pow2(s));
    }
  }

  lemma Subtract(p: nat, a: nat, b: nat)
    ensures p * a - p * b == p * (a - b) == (a - b) * p
  {
  }

  /** The largest alignment that fits leaves one start only. */
  lemma LargestAlignment()
    ensures var p := HEAP_BASE + MAJOR_HEADER + MINOR_HEADER;
            var align := HEAP_END - ALIGN_INFO - p;
            AlignUp(align, p) % align != 0
  {
    hide And, Bit, AlignUp, Pow2;
    var p := HEAP_BASE + MAJOR_HEADER + MINOR_HEADER;
    var align := HEAP_END - ALIGN_INFO - p;
    var q := p + ALIGN_INFO;
    NinthPower();
    BitIsDigit(q, 9);
    BitIsDigit(q % align, 9);
    DigitApart(p, align, 9);
  }

  lemma NinthPower()
    ensures Pow2(9) == 512
  {
  }

  /** Masking is no remainder where a digit tells them apart. */
  lemma DigitApart(p: nat, align: nat, i: nat)
    requires align > 1 && Bit((p + ALIGN_INFO) % align, i) && !Bit(p + ALIGN_INFO, i)
    ensures AlignUp(align, p) % align != 0
  {
    hide And, Bit, AlignUp;
    var q := p + ALIGN_INFO;
    AlignUpWhen(align, p);
    AndBound(q, align - 1);
    BitAnd(q, align - 1, i);
    Remainder(q, And(q, align - 1), align);
  }

  lemma Remainder(q: nat, d: nat, a: nat)
    requires d < a && d <= q
    ensures (q - d) % a == 0 ==> q % a == d
  {
    var x := (q - d) / a;
    if (q - d) % a == 0 { ModUnique(q, x, a, d); }
  }

  lemma RoundUpMultiple(q: nat, align: nat)
    requires align > 0
    ensures (if q % align != 0 then q + (align - q % align) else q) % align == 0
  {
    var d := q / align;
    assert q == d * align + q % align;
    if q % align != 0 {
      assert q + (align - q % align) == (d + 1) * align;
      ModUnique(q + (align - q % align), d + 1, align, 0);
    }
  }

  // ----- the allocator

  /** Pages asked for when an allocation of size bytes needs a new major. */
  function PagesFor(size: nat): (n: nat)
    ensures n >= PAGE_COUNT && n * PAGE_BYTES >= size + MAJOR_HEADER + MINOR_HEADER
  {
    var bytes := size + MAJOR_HEADER + MINOR_HEADER;
    var n := if bytes % PAGE_BYTES == 0 then bytes / PAGE_BYTES else bytes / PAGE_BYTES + 1;
    if n < PAGE_COUNT then PAGE_COUNT else n
  }

  predicate FitsIn(majors: MajorMem, mem: MinorMem, blocks: Blocks, m: int, k: nat, size: nat) {
    m in majors && m in blocks && k <= |blocks[m]| && Fits(mem, m, m + majors[m].size, blocks[m], k, size)
  }

  /** Some gap of major m takes size bytes and a header. */
  ghost predicate HasRoom(majors: MajorMem, mem: MinorMem, blocks: Blocks, m: int, size: nat) {
    exists k: nat :: FitsIn(majors, mem, blocks, m, k, size)
  }

  ghost predicate SomeRoom(majors: MajorMem, mem: MinorMem, blocks: Blocks, order: seq<int>, size: nat) {
    exists i :: 0 <= i < |order| && HasRoom(majors, mem, blocks, order[i], size)
  }

  lemma TooFullHasNoRoom(majors: MajorMem, mem: MinorMem, blocks: Blocks, m: int, size: nat)
    requires FilledAt(majors, mem, blocks, m) && majors[m].size - majors[m].usage < size + MINOR_HEADER
    ensures !HasRoom(majors, mem, blocks, m, size)
  {
    forall k: nat
      ensures !FitsIn(majors, mem, blocks, m, k, size)
    {
      if k <= |blocks[m]| {
        GapsAreFree(mem, m, m + majors[m].size, blocks[m], k);
      }
    }
  }

  /** p is what malloc(align) returned for the live minor h, and its stored offset is intact. */
  ghost predicate Handle(mem: MinorMem, offsets: map<int, nat>, p: int, align: nat, h: int) {
    && h in mem && h >= 0 && p == AlignUp(align, h + MINOR_HEADER) && mem[h].size >= PaddedSize(mem[h].reqSize, align)
    && (align > 1 ==> p - ALIGN_INFO in offsets && offsets[p - ALIGN_INFO] == p - (h + MINOR_HEADER))
  }

  /** The words in front of aligned pointers, once minor h has one. */
  function StoreOffset(offsets: map<int, nat>, align: nat, h: nat): map<int, nat> {
    var p := AlignUp(align, h + MINOR_HEADER);
    if align > 1 then offsets[p - ALIGN_INFO := p - (h + MINOR_HEADER)] else offsets
  }

  /** The header free() computes from a pointer and the word of memory in front of it. */
  function HeaderOf(p: int, align: nat, word: nat): int {
    Unalign(align, p, word) - MINOR_HEADER
  }

  /** What memory holds in front of a pointer that malloc(align) returned: its stored offset if
      it was aligned, and otherwise whatever the block below has there. */
  predicate WordInFront(offsets: map<int, nat>, p: int, align: nat, word: nat) {
    align > 1 ==> p - ALIGN_INFO in offsets && word == offsets[p - ALIGN_INFO]
  }

  /** free() with the alignment given to malloc finds exactly the minor malloc made. */
  lemma HandleFindsHeader(mem: MinorMem, offsets: map<int, nat>, p: int, align: nat, h: int, word: nat)
    requires Handle(mem, offsets, p, align, h) && WordInFront(offsets, p, align, word)
    ensures HeaderOf(p, align, word) == h
  {
    AlignRoundTrip(align, h + MINOR_HEADER, mem[h].reqSize);
  }

  /** When a block that was made with some alignment is freed with the default one. */
  predicate DefaultFrees(align: nat, word: nat) {
    if align > 1 then word < DEFAULT_ALIGNMENT + ALIGN_INFO else word == 0 || word >= DEFAULT_ALIGNMENT + ALIGN_INFO
  }

  /** na_realloc frees the old block with the alignment of plain malloc, whatever it was made
      with. An aligned block is found exactly if its stored offset is small. A block that was
      not aligned is found exactly if the word in front of it, which is the data of the block
      below, is 0 or not small. Otherwise a live block is freed instead exactly if there is
      one just as far below as that word says, and none if the block was aligned. */
  lemma ReallocFreesOld(majors: MajorMem, mem: MinorMem, order: seq<int>, blocks: Blocks, owner: seq<int>,
                        offsets: map<int, nat>, p: int, align: nat, h: int, word: nat)
    requires LayoutOk(majors, mem, order, blocks, owner)
    requires Handle(mem, offsets, p, align, h) && WordInFront(offsets, p, align, word)
    ensures var b := HeaderOf(p, DEFAULT_ALIGNMENT, word);
            && (b == h <==> DefaultFrees(align, word))
            && (b != h && b in mem <==>
                  align <= 1 && 0 < word < DEFAULT_ALIGNMENT + ALIGN_INFO && h - word in mem)
            && (b != h && b in mem ==> b == h - word && EndOf(mem, b) <= h)
    ensures 1 < align <= DEFAULT_ALIGNMENT ==> DefaultFrees(align, word)
  {
    hide LayoutOk;
    AlignRoundTrip(align, h + MINOR_HEADER, mem[h].reqSize);
    if align > 1 { AlignStep(align, h + MINOR_HEADER); }
    var b := HeaderOf(p, DEFAULT_ALIGNMENT, word);
    if b != h && b in mem {
      LayoutDisjoint(majors, mem, order, blocks, owner, h, b);
    }
  }

  /** Such a heap: two blocks of 40 bytes that were not aligned, the second of which is freed with
      the word 68 in the bytes of the first in front of it, and the first goes. */
  lemma ReallocFreesNeighbour()
    returns (majors: MajorMem, mem: MinorMem, order: seq<int>, blocks: Blocks, owner: seq<int>,
             b: int, h: int)
    ensures LayoutOk(majors, mem, order, blocks, owner)
    ensures var p := h + MINOR_HEADER;
            && Handle(mem, map[], p, 1, h) && Handle(mem, map[], b + MINOR_HEADER, 1, b) && b != h
            && b + MINOR_HEADER <= p - ALIGN_INFO && p - ALIGN_INFO + 4 <= EndOf(mem, b)
            && HeaderOf(p, DEFAULT_ALIGNMENT, 68) == b
  {
    var m := HEAP_BASE;
    b := m + MAJOR_HEADER;
    h := b + MINOR_HEADER + 40;
    mem := map[b := Minor(0, h, m, 40, 40), h := Minor(b, 0, m, 40, 40)];
    majors := map[m := Major(0, 0, 16, 16 * PAGE_BYTES, MAJOR_HEADER + 2 * (MINOR_HEADER + 40), b)];
    order, blocks := [m], map[m := [b, h]];
    owner := seq(HEAP_PAGES, p => if p < 16 then m else 0);
    var xs := blocks[m];
    var ys := xs[1..];
    assert ys == [h] && ys[1..] == [];
    assert SumSizes(mem, ys) == 40 + SumSizes(mem, []);
    assert SumSizes(mem, xs) == 80;
    assert MinorLinkAt(mem, xs, 0) && MinorLinkAt(mem, xs, 1);
    assert FilledAt(majors, mem, blocks, order[0]);
    assert FirstPage(m) == 0 && MajorPlaced(majors, m);
    assert owner[0] == m && m in order;
    assert forall a :: a in mem ==> a == xs[0] || a == xs[1];
    assert MajorLinkAt(majors, order, 0);
  }

  lemma AlignStep(align: nat, p: nat)
    requires align > 1
    ensures p + ALIGN_INFO <= AlignUp(align, p) < p + align + ALIGN_INFO
  {
    AndBound(p + ALIGN_INFO, align - 1);
  }

  /** The invariant inside an operation, where a major may still be empty: the layout, the
      page bitmap, the root and hint pointers, and both running totals. */
  ghost predicate StateOk(majors: MajorMem, mem: MinorMem, order: seq<int>, blocks: Blocks, owner: seq<int>,
                          bits: seq<bool>,
                          memRoot: int, bestBet: int, totalAllocated: nat, inUse: nat)
  {
    && LayoutOk(majors, mem, order, blocks, owner)
    && PagesOk(bits, owner)
    && memRoot == At(order, 0)
    && (bestBet == 0 || bestBet in order)
    && totalAllocated == TotalSize(majors, order)
    && inUse == TotalInUse(mem, blocks, order)
  }

  lemma StateLayout(majors: MajorMem, mem: MinorMem, order: seq<int>, blocks: Blocks, owner: seq<int>, bits: seq<bool>,
                    memRoot: int, bestBet: int, totalAllocated: nat, inUse: nat)
    requires StateOk(majors, mem, order, blocks, owner, bits, memRoot, bestBet, totalAllocated, inUse)
    ensures LayoutOk(majors, mem, order, blocks, owner)
  {
  }

  lemma StateShape(majors: MajorMem, mem: MinorMem, order: seq<int>, blocks: Blocks, owner: seq<int>, bits: seq<bool>,
                   memRoot: int, bestBet: int, totalAllocated: nat, inUse: nat)
    requires StateOk(majors, mem, order, blocks, owner, bits, memRoot, bestBet, totalAllocated, inUse)
    ensures |bits| == |owner| == HEAP_PAGES
    ensures forall i :: 0 <= i < |order| ==>
              order[i] in majors && order[i] > 0 && majors[order[i]].next == At(order, i + 1)
    ensures forall i :: 0 <= i < |order| ==> FilledAt(majors, mem, blocks, order[i])
    ensures forall i :: 0 <= i < |order| ==> majors[order[i]].usage <= majors[order[i]].size
  {
    forall i | 0 <= i < |order|
      ensures order[i] in majors && order[i] > 0 && majors[order[i]].next == At(order, i + 1)
      ensures majors[order[i]].usage <= majors[order[i]].size
    {
      var m := order[i];
      assert MajorPlaced(majors, m) && MajorLinkAt(majors, order, i) && FilledAt(majors, mem, blocks, m);
      GapsAreFree(mem, m, m + majors[m].size, blocks[m], |blocks[m]|);
    }
  }

  lemma AppendKeepsState(majors: MajorMem, mem: MinorMem, order: seq<int>, blocks: Blocks, owner: seq<int>,
                         bits: seq<bool>,
                         memRoot: int, bestBet: int, totalAllocated: nat, inUse: nat, p: nat, n: nat)
    requires StateOk(majors, mem, order, blocks, owner, bits, memRoot, bestBet, totalAllocated, inUse)
    requires 1 <= n && p + n <= HEAP_PAGES && AllAre(bits, p, n, false)
    ensures order != [] ==> order[|order| - 1] in majors
    ensures var m := HEAP_BASE + PAGE_BYTES * p;
            && m !in order
            && StateOk(AppendMajor(majors, order, m, n), mem, order + [m], blocks[m := []], SetOwner(owner, p, n, m),
                       SetRun(bits, p, n, true), if order == [] then m else memRoot, bestBet,
                       totalAllocated + n * PAGE_BYTES, inUse)
  {
    AppendOk(majors, mem, order, blocks, owner, bits, p, n);
  }

  /** From one layout to the next: minor h placed in gap k of major m. */
  ghost predicate PlacedAt(majors: MajorMem, mem: MinorMem, blocks: Blocks,
                           majors': MajorMem, mem': MinorMem, blocks': Blocks,
                           m: int, k: nat, h: int, size: nat, reqSize: nat)
  {
    && FitsIn(majors, mem, blocks, m, k, size) && h == GapStart(mem, m, blocks[m], k)
    && (forall i :: 0 <= i < |blocks[m]| ==> blocks[m][i] in mem)
    && mem' == LinkIn(mem, m, blocks[m], k, h, size, reqSize)
    && blocks' == blocks[m := InsertAt(blocks[m], k, h)]
    && majors' == majors[m := majors[m].(first := At(blocks'[m], 0), usage := majors[m].usage + size + MINOR_HEADER)]
  }

  /** One header more, h, of the given sizes; the others keep their sizes. */
  ghost predicate NewHeader(mem: MinorMem, mem': MinorMem, m: int, h: int, size: nat, reqSize: nat) {
    && h !in mem && mem'.Keys == mem.Keys + {h} && SameHeaders(mem, mem', m)
    && h in mem' && mem'[h].size == size && mem'[h].reqSize == reqSize
  }

  /** Only major m, new if grown, has different minors, and it has some. */
  ghost predicate Settled(order: seq<int>, blocks: Blocks, order': seq<int>, blocks': Blocks, m: int, grown: bool) {
    && order' == (if grown then order + [m] else order)
    && m in blocks' && blocks'[m] != [] && blocks' == blocks[m := blocks'[m]]
  }

  /** A fresh major next was appended, and it has room. */
  ghost predicate JustGrown(majors: MajorMem, mem: MinorMem, order: seq<int>, blocks: Blocks,
                            order': seq<int>, blocks': Blocks, next: int, size: nat)
  {
    && order' == order + [next] && blocks' == blocks[next := []]
    && HasRoom(majors, mem, blocks', next, size)
    && next in majors && majors[next].size - majors[next].usage >= size + MINOR_HEADER
  }

  /** Major m was made of the first run of pages that do, and they are accounted for. */
  ghost predicate PagesTaken(bits: seq<bool>, total: nat, majors: MajorMem, bits': seq<bool>, total': nat,
                             m: int, size: nat)
  {
    var n := PagesFor(size);
    var run := FirstRun(bits, 0, n, false);
    && run.Some? && m == HEAP_BASE + PAGE_BYTES * run.value && bits' == SetRun(bits, run.value, n, true)
    && m in majors && majors[m].pages == n && majors[m].size == n * PAGE_BYTES && total' == total + n * PAGE_BYTES
  }

  lemma StillTaken(bits: seq<bool>, total: nat, majors: MajorMem, bits': seq<bool>, total': nat, m: int, size: nat,
                   mem: MinorMem, blocks: Blocks, majors': MajorMem, mem': MinorMem, blocks': Blocks,
                   m': int, k: nat, h: int, reqSize: nat)
    requires PagesTaken(bits, total, majors, bits', total', m, size)
    ensures PlacedAt(majors, mem, blocks, majors', mem', blocks', m', k, h, size, reqSize) ==>
              PagesTaken(bits, total, majors', bits', total', m, size)
  {
    hide FirstRun, LinkIn;
  }

  // ----- the same in numbers, without the functions that the allocator itself uses

  /** n pages are as many as a new major takes at least, and hold need bytes with both headers. */
  predicate Adequate(n: nat, need: nat) {
    16 <= n && need + 24 + 28 <= n * 4096
  }

  predicate ClearPages(bits: seq<bool>, q: nat, n: nat) {
    q + n <= |bits| && AllAre(bits, q, n, false)
  }

  /** Somewhere behind its header major m has need bytes and a header's 28 that no minor takes. */
  ghost predicate Wide(majors: MajorMem, mem: MinorMem, blocks: Blocks, m: int, need: nat) {
    && m in majors && m in blocks
    && exists a :: m + 24 <= a && a + 28 + need <= m + majors[m].size && ClearOf(mem, blocks[m], a, need)
  }

  predicate ClearOf(mem: MinorMem, xs: seq<int>, a: int, need: nat) {
    forall i :: 0 <= i < |xs| ==> xs[i] in mem && (xs[i] + 28 + mem[xs[i]].size <= a || a + 28 + need <= xs[i])
  }

  ghost predicate SomeWide(majors: MajorMem, mem: MinorMem, blocks: Blocks, order: seq<int>, need: nat) {
    exists i :: 0 <= i < |order| && Wide(majors, mem, blocks, order[i], need)
  }

  ghost predicate SomePages(bits: seq<bool>, need: nat) {
    exists n: nat, q: nat :: Adequate(n, need) && ClearPages(bits, q, n)
  }

  /** A new major of the fewest pages that do, in the first place where they are clear. */
  ghost predicate GrownBy(bits: seq<bool>, total: nat, majors: MajorMem, bits': seq<bool>, total': nat, m: int,
                          n: nat, q: nat, need: nat)
  {
    && Adequate(n, need) && (n == 16 || !Adequate(n - 1, need))
    && ClearPages(bits, q, n) && (forall j: nat :: j < q ==> !ClearPages(bits, j, n))
    && |bits| == |bits'| == 2048 && (forall i :: 0 <= i < 2048 ==> (bits'[i] <==> bits[i] || q <= i < q + n))
    && m == 0xC040_0000 + 4096 * q && m in majors && majors[m].pages == n && majors[m].size == 4096 * n
    && total' == total + 4096 * n
  }

  lemma FewestPages(need: nat, n: nat)
    ensures Adequate(n, need) <==> PagesFor(need) <= n
  {
  }

  lemma PagesAreClear(bits: seq<bool>, need: nat)
    ensures FirstRun(bits, 0, PagesFor(need), false).Some? <==> SomePages(bits, need)
  {
    var run := FirstRun(bits, 0, PagesFor(need), false);
    FewestPages(need, PagesFor(need));
    if run.Some? {
      assert ClearPages(bits, run.value, PagesFor(need));
    }
    if SomePages(bits, need) {
      var n: nat, q: nat :| Adequate(n, need) && ClearPages(bits, q, n);
      FewestPages(need, n);
      assert AllAre(bits, q, PagesFor(need), false);
    }
  }

  /** The minor behind such a stretch: all before it end in front. */
  lemma {:induction false} GapAround(mem: MinorMem, maj: int, end: int, xs: seq<int>, a: int, need: nat, i: nat)
    returns (k: nat)
    requires MinorsPlaced(mem, maj, end, xs) && ClearOf(mem, xs, a, need) && i <= |xs|
    requires i > 0 ==> EndOf(mem, xs[i - 1]) <= a
    ensures i <= k <= |xs| && (k > 0 ==> EndOf(mem, xs[k - 1]) <= a) && (k < |xs| ==> a + 28 + need <= xs[k])
    decreases |xs| - i
  {
    if i == |xs| || a + 28 + need <= xs[i] { return i; }
    k := GapAround(mem, maj, end, xs, a, need, i + 1);
  }

  lemma RoomIsWide(majors: MajorMem, mem: MinorMem, blocks: Blocks, m: int, need: nat)
    requires FilledAt(majors, mem, blocks, m)
    ensures HasRoom(majors, mem, blocks, m, need) <==> Wide(majors, mem, blocks, m, need)
  {
    hide SumSizes, MinorsLinked;
    var end, xs := m + majors[m].size, blocks[m];
    if HasRoom(majors, mem, blocks, m, need) {
      var k: nat :| FitsIn(majors, mem, blocks, m, k, need);
      GapIsClear(mem, m, end, xs, k, need);
    }
    if Wide(majors, mem, blocks, m, need) {
      var a :| m + 24 <= a && a + 28 + need <= end && ClearOf(mem, xs, a, need);
      var k := GapAround(mem, m, end, xs, a, need, 0);
      assert FitsIn(majors, mem, blocks, m, k, need);
    }
  }

  lemma GapIsClear(mem: MinorMem, maj: int, end: int, xs: seq<int>, k: nat, need: nat)
    requires MinorsPlaced(mem, maj, end, xs) && k <= |xs| && Fits(mem, maj, end, xs, k, need)
    ensures var a := GapStart(mem, maj, xs, k);
            maj + 24 <= a && a + 28 + need <= end && ClearOf(mem, xs, a, need)
  {
  }

  lemma RoomsAreWide(majors: MajorMem, mem: MinorMem, order: seq<int>, blocks: Blocks, owner: seq<int>, need: nat)
    requires LayoutOk(majors, mem, order, blocks, owner)
    ensures SomeRoom(majors, mem, blocks, order, need) <==> SomeWide(majors, mem, blocks, order, need)
  {
    hide HasRoom, Wide, FilledAt;
    forall i | 0 <= i < |order|
      ensures HasRoom(majors, mem, blocks, order[i], need) <==> Wide(majors, mem, blocks, order[i], need)
    {
      assert FilledAt(majors, mem, blocks, order[i]);
      RoomIsWide(majors, mem, blocks, order[i], need);
    }
  }

  lemma TakenIsGrown(bits: seq<bool>, total: nat, majors: MajorMem, bits': seq<bool>, total': nat, m: int, need: nat)
    returns (n: nat, q: nat)
    requires PagesTaken(bits, total, majors, bits', total', m, need) && |bits| == 2048
    ensures GrownBy(bits, total, majors, bits', total', m, n, q, need)
  {
    n, q := PagesFor(need), FirstRun(bits, 0, PagesFor(need), false).value;
    FewestPages(need, n);
    if n > 16 { FewestPages(need, n - 1); }
  }

  /** There is space for need bytes, in a major or on pages of its own. */
  ghost predicate SpaceIn(majors: MajorMem, mem: MinorMem, blocks: Blocks, order: seq<int>, bits: seq<bool>,
                          need: nat) {
    SomeWide(majors, mem, blocks, order, need) || SomePages(bits, need)
  }

  lemma SpaceIsRoom(majors: MajorMem, mem: MinorMem, order: seq<int>, blocks: Blocks, owner: seq<int>, bits: seq<bool>,
                    memRoot: int, bestBet: int, totalAllocated: nat, inUse: nat, need: nat)
    requires StateOk(majors, mem, order, blocks, owner, bits, memRoot, bestBet, totalAllocated, inUse)
    ensures SpaceIn(majors, mem, blocks, order, bits, need) <==>
            SomeRoom(majors, mem, blocks, order, need) || FirstRun(bits, 0, PagesFor(need), false).Some?
    ensures |bits| == 2048
  {
    hide LayoutOk, SomeRoom, SomeWide, SomePages, FirstRun, PagesFor, TotalSize, TotalInUse;
    RoomsAreWide(majors, mem, order, blocks, owner, need);
    PagesAreClear(bits, need);
  }

  /** What a request of the clients comes to: 64 bytes more with an alignment, and that; one of
      nothing at all is one of a byte, aligned to 16. */
  function Need(reqSize: nat, align: nat): nat {
    if align > 1 then reqSize + align + 64 else if reqSize == 0 then 1 + 16 + 64 else reqSize
  }

  function Fewest(need: nat): nat {
    if need <= 16 * 4096 - 52 then 16 else (need + 52 + 4095) / 4096
  }

  /** From page w on all is clear. */
  predicate ClearFrom(bits: seq<bool>, w: nat) {
    |bits| == 2048 && forall i :: w <= i < 2048 ==> !bits[i]
  }

  /** From bits to bits' a request of need bytes may have been served: no more pages are needed than
      for a major of its own behind all others. */
  ghost predicate TakesFew(bits: seq<bool>, bits': seq<bool>, need: nat) {
    forall w: nat :: w + Fewest(need) <= 2048 && ClearFrom(bits, w) ==> ClearFrom(bits', w + Fewest(need))
  }

  predicate Falls(bits: seq<bool>, bits': seq<bool>) {
    |bits| == |bits'| && forall i :: 0 <= i < |bits| && bits'[i] ==> bits[i]
  }

  lemma GrownTakesFew(bits: seq<bool>, total: nat, majors: MajorMem, bits': seq<bool>, total': nat, m: int,
                      n: nat, q: nat, need: nat)
    requires GrownBy(bits, total, majors, bits', total', m, n, q, need)
    ensures TakesFew(bits, bits', need)
  {
    forall w: nat | w + Fewest(need) <= 2048 && ClearFrom(bits, w)
      ensures ClearFrom(bits', w + Fewest(need))
    {
      assert Adequate(Fewest(need), need) && n == Fewest(need);
      assert ClearPages(bits, w, n);
    }
  }

  lemma FewAreThere(bits: seq<bool>, need: nat, w: nat)
    requires ClearFrom(bits, w) && w + Fewest(need) <= 2048
    ensures SomePages(bits, need)
  {
    assert Adequate(Fewest(need), need) && ClearPages(bits, w, Fewest(need));
  }

  lemma FallsTakesFew(bits: seq<bool>, bits1: seq<bool>, bits': seq<bool>, need: nat)
    requires (bits1 == bits || TakesFew(bits, bits1, need)) && Falls(bits1, bits')
    ensures TakesFew(bits, bits', need)
  {
  }

  lemma FallsAnyway(bits: seq<bool>, need: nat)
    ensures TakesFew(bits, bits, need)
  {
  }

  /** What Malloc did, in numbers. */
  ghost predicate GrewIfFull(majors0: MajorMem, mem0: MinorMem, order0: seq<int>, blocks0: Blocks, bits0: seq<bool>,
                             total0: nat, majors: MajorMem, order: seq<int>, bits: seq<bool>, total: nat,
                             done: bool, need: nat)
  {
    if done && !SomeWide(majors0, mem0, blocks0, order0, need)
    then exists m, n: nat, q: nat ::
           order == order0 + [m] && GrownBy(bits0, total0, majors, bits, total, m, n, q, need)
    else order == order0 && bits == bits0 && total == total0
  }

  lemma GrewWhenFull(majors0: MajorMem, mem0: MinorMem, order0: seq<int>, blocks0: Blocks, owner0: seq<int>,
                     bits0: seq<bool>, total0: nat, majors: MajorMem, order: seq<int>, blocks: Blocks,
                     bits: seq<bool>, total: nat, m: int, done: bool, need: nat)
    requires LayoutOk(majors0, mem0, order0, blocks0, owner0) && |bits0| == 2048
    requires done ==> Settled(order0, blocks0, order, blocks, m, !SomeRoom(majors0, mem0, blocks0, order0, need))
    requires done && !SomeRoom(majors0, mem0, blocks0, order0, need) ==>
               PagesTaken(bits0, total0, majors, bits, total, m, need)
    requires !done || SomeRoom(majors0, mem0, blocks0, order0, need) ==> bits == bits0 && total == total0
    requires !done ==> order == order0
    ensures GrewIfFull(majors0, mem0, order0, blocks0, bits0, total0, majors, order, bits, total, done, need)
    ensures TakesFew(bits0, bits, need)
  {
    hide LayoutOk, SomeRoom, SomeWide, PagesTaken, GrownBy, TakesFew;
    RoomsAreWide(majors0, mem0, order0, blocks0, owner0, need);
    if done && !SomeRoom(majors0, mem0, blocks0, order0, need) {
      var n, q := TakenIsGrown(bits0, total0, majors, bits, total, m, need);
      GrownTakesFew(bits0, total0, majors, bits, total, m, n, q, need);
    } else {
      FallsTakesFew(bits0, bits0, bits, need);
    }
  }

  /** The majors before position idx have been looked at, and none has room. */
  ghost predicate Looked(majors: MajorMem, mem: MinorMem, blocks: Blocks, order: seq<int>, idx: nat, size: nat) {
    forall i :: 0 <= i < |order| && i < idx ==> !HasRoom(majors, mem, blocks, order[i], size)
  }

  lemma LookedOn(majors: MajorMem, mem: MinorMem, blocks: Blocks, order: seq<int>, idx: nat, size: nat)
    requires idx < |order| && !HasRoom(majors, mem, blocks, order[idx], size)
    ensures Looked(majors, mem, blocks, order, 0, size)
    ensures Looked(majors, mem, blocks, order, idx, size) ==> Looked(majors, mem, blocks, order, idx + 1, size)
    ensures Looked(majors, mem, blocks, order, |order|, size) ==> !SomeRoom(majors, mem, blocks, order, size)
  {
  }

  lemma NothingLooked(majors: MajorMem, mem: MinorMem, blocks: Blocks, order: seq<int>, size: nat)
    ensures Looked(majors, mem, blocks, order, 0, size)
  {
  }

  lemma RoomIsSomeRoom(majors: MajorMem, mem: MinorMem, blocks: Blocks, order: seq<int>, idx: nat, size: nat)
    requires idx < |order| && HasRoom(majors, mem, blocks, order[idx], size)
    ensures SomeRoom(majors, mem, blocks, order, size)
  {
  }

  lemma GrownThenSettled(majors: MajorMem, mem: MinorMem, order: seq<int>, blocks: Blocks,
                         order1: seq<int>, blocks1: Blocks, m: int, size: nat, order': seq<int>, blocks': Blocks)
    requires JustGrown(majors, mem, order, blocks, order1, blocks1, m, size)
    ensures HasRoom(majors, mem, blocks1, m, size)
    ensures Settled(order1, blocks1, order', blocks', m, false) ==> Settled(order, blocks, order', blocks', m, true)
  {
  }

  /** Between operations every major holds a minor. */
  ghost predicate NoneEmpty(order: seq<int>, blocks: Blocks) {
    forall i :: 0 <= i < |order| ==> order[i] in blocks && blocks[order[i]] != []
  }

  lemma SettledNoneEmpty(order: seq<int>, blocks: Blocks, order': seq<int>, blocks': Blocks, m: int, grown: bool)
    requires NoneEmpty(order, blocks) && Settled(order, blocks, order', blocks', m, grown)
    ensures NoneEmpty(order', blocks')
  {
  }

  /** An empty heap has no room, and a first major that was appended settles it. */
  lemma FirstMajor(majors: MajorMem, mem: MinorMem, blocks: Blocks, order: seq<int>, size: nat,
                   majors1: MajorMem, blocks1: Blocks, order1: seq<int>, m1: int,
                   order': seq<int>, blocks': Blocks, m: int)
    requires order == []
    ensures !SomeRoom(majors, mem, blocks, order, size)
    ensures order1 == order + [m1] && FitsIn(majors1, mem, blocks1, m1, 0, size) ==>
              SomeRoom(majors1, mem, blocks1, order1, size)
    ensures order1 == order + [m1] && m in order' && blocks1 == blocks[m1 := []]
            && Settled(order1, blocks1, order', blocks', m, false)
            ==> Settled(order, blocks, order', blocks', m, true) && m == m1
  {
    if order1 == order + [m1] {
      assert order1 == [m1];
      if FitsIn(majors1, mem, blocks1, m1, 0, size) {
        assert HasRoom(majors1, mem, blocks1, order1[0], size);
      }
    }
  }

  lemma PlacedMeans(majors: MajorMem, mem: MinorMem, blocks: Blocks,
                    majors': MajorMem, mem': MinorMem, blocks': Blocks, m: int, k: nat, h: int, size: nat, reqSize: nat)
    requires PlacedAt(majors, mem, blocks, majors', mem', blocks', m, k, h, size, reqSize)
    ensures m in blocks' && blocks'[m] != [] && blocks' == blocks[m := blocks'[m]]
    ensures HasRoom(majors, mem, blocks, m, size)
  {
  }

  lemma FitsIsRoom(majors: MajorMem, mem: MinorMem, blocks: Blocks, m: int, k: nat, size: nat)
    requires FitsIn(majors, mem, blocks, m, k, size)
    ensures HasRoom(majors, mem, blocks, m, size)
  {
  }

  lemma FillState(majors: MajorMem, mem: MinorMem, order: seq<int>, blocks: Blocks, owner: seq<int>, bits: seq<bool>,
                  memRoot: int, bestBet: int, totalAllocated: nat, inUse: nat,
                  idx: nat, k: nat, h: int, size: nat, reqSize: nat)
    requires StateOk(majors, mem, order, blocks, owner, bits, memRoot, bestBet, totalAllocated, inUse)
    requires idx < |order| && FitsIn(majors, mem, blocks, order[idx], k, size)
    requires h == GapStart(mem, order[idx], blocks[order[idx]], k)
    ensures forall i :: 0 <= i < |blocks[order[idx]]| ==> blocks[order[idx]][i] in mem
    ensures h !in mem
    ensures var m, xs := order[idx], blocks[order[idx]];
            var mem', ys := LinkIn(mem, m, xs, k, h, size, reqSize), InsertAt(xs, k, h);
            var majors' := majors[m := majors[m].(first := At(ys, 0), usage := majors[m].usage + size + MINOR_HEADER)];
            && StateOk(majors', mem', order, blocks[m := ys], owner, bits, memRoot, bestBet, totalAllocated,
                       inUse + size)
            && NewHeader(mem, mem', m, h, size, reqSize)
  {
    hide LayoutOk, PagesOk, LinkIn, InsertAt, FitsIn, SumSizes, TotalSize, TotalInUse, MinorsPlaced;
    hide HeadersListed, SameHeaders;
    FitsMeans(majors, mem, blocks, order[idx], k, size);
    FilledMinors(majors, mem, order, blocks, owner, idx);
    var m, xs := order[idx], blocks[order[idx]];
    FillOk(majors, mem, order, blocks, owner, idx, k, h, size, reqSize);
    LinkInHeaders(mem, m, xs, k, h, size, reqSize);
    TotalSizeSame(majors, majors[m := Refilled(majors[m], LinkIn(mem, m, xs, k, h, size, reqSize), InsertAt(xs, k, h))],
                  order);
  }

  lemma FitsMeans(majors: MajorMem, mem: MinorMem, blocks: Blocks, m: int, k: nat, size: nat)
    requires FitsIn(majors, mem, blocks, m, k, size)
    ensures m in majors && m in blocks && k <= |blocks[m]| && Fits(mem, m, m + majors[m].size, blocks[m], k, size)
  {
  }

  lemma LinkedNext(majors: MajorMem, mem: MinorMem, order: seq<int>, blocks: Blocks, owner: seq<int>, idx: nat, j: nat)
    requires LayoutOk(majors, mem, order, blocks, owner) && idx < |order| && order[idx] in blocks
    requires j < |blocks[order[idx]]|
    ensures MinorLinkAt(mem, blocks[order[idx]], j)
  {
    assert FilledAt(majors, mem, blocks, order[idx]);
  }

  /** What the layout says about the minors and header of one major. */
  lemma FilledMinors(majors: MajorMem, mem: MinorMem, order: seq<int>, blocks: Blocks, owner: seq<int>, idx: nat)
    requires LayoutOk(majors, mem, order, blocks, owner) && idx < |order|
    ensures forall i :: 0 <= i < |order| ==> order[i] in majors && order[i] in blocks
    ensures var m := order[idx];
            && MajorFilled(majors[m], mem, m, blocks[m])
            && MinorsPlaced(mem, m, m + majors[m].size, blocks[m])
            && majors[m].first == At(blocks[m], 0)
            && majors[m].usage == MAJOR_HEADER + SumSizes(mem, blocks[m]) + MINOR_HEADER * |blocks[m]|
    ensures forall i :: 0 <= i < |blocks[order[idx]]| ==>
              && blocks[order[idx]][i] in mem && mem[blocks[order[idx]][i]].block == order[idx]
              && blocks[order[idx]][i] > 0
  {
    FilledMajors(majors, mem, order, blocks);
    assert FilledAt(majors, mem, blocks, order[idx]);
  }

  lemma FilledMajors(majors: MajorMem, mem: MinorMem, order: seq<int>, blocks: Blocks)
    requires AllFilled(majors, mem, order, blocks)
    ensures forall i :: 0 <= i < |order| ==> order[i] in majors && order[i] in blocks
  {
    forall i | 0 <= i < |order|
      ensures order[i] in majors && order[i] in blocks
    {
      assert FilledAt(majors, mem, blocks, order[i]);
    }
  }

  lemma UnfillState(majors: MajorMem, mem: MinorMem, order: seq<int>, blocks: Blocks, owner: seq<int>, bits: seq<bool>,
                    memRoot: int, bestBet: int, totalAllocated: nat, inUse: nat, idx: nat, k: nat)
    requires StateOk(majors, mem, order, blocks, owner, bits, memRoot, bestBet, totalAllocated, inUse)
    requires idx < |order| && order[idx] in blocks && k < |blocks[order[idx]]|
    ensures order[idx] in majors && forall i :: 0 <= i < |blocks[order[idx]]| ==> blocks[order[idx]][i] in mem
    ensures var m, xs := order[idx], blocks[order[idx]];
            var h, mem', ys := xs[k], LinkOut(mem, xs, k), RemoveAt(xs, k);
            && mem[h].size <= inUse && mem[h].size + MINOR_HEADER <= majors[m].usage
            && var majors' := majors[m := majors[m].(first := At(ys, 0),
                                                     usage := majors[m].usage - mem[h].size - MINOR_HEADER)];
            && StateOk(majors', mem', order, blocks[m := ys], owner, bits, memRoot, bestBet, totalAllocated,
                       inUse - mem[h].size)
            && mem'.Keys == mem.Keys - {h} && SameHeaders(mem, mem', m)
  {
    hide LayoutOk, PagesOk, LinkOut, RemoveAt, SumSizes, TotalSize, TotalInUse, HeadersListed, SameHeaders;
    var m, xs := order[idx], blocks[order[idx]];
    FilledMinors(majors, mem, order, blocks, owner, idx);
    UnfillOk(majors, mem, order, blocks, owner, idx, k);
    LinkOutHeaders(mem, m, xs, k);
    TotalSizeSame(majors, majors[m := Refilled(majors[m], LinkOut(mem, xs, k), RemoveAt(xs, k))], order);
  }

  lemma DropState(majors: MajorMem, mem: MinorMem, order: seq<int>, blocks: Blocks, owner: seq<int>, bits: seq<bool>,
                  memRoot: int, bestBet: int, totalAllocated: nat, inUse: nat, k: nat)
    requires StateOk(majors, mem, order, blocks, owner, bits, memRoot, bestBet, totalAllocated, inUse)
    requires k < |order| && order[k] in blocks && blocks[order[k]] == []
    ensures forall i :: 0 <= i < |order| ==> order[i] in majors
    ensures var m := order[k];
            && 0 <= FirstPage(m) && FirstPage(m) + majors[m].pages <= |bits| == |owner|
            && majors[m].size <= totalAllocated
            && StateOk(DropMajor(majors, order, k), mem, RemoveAt(order, k), blocks,
                       SetOwner(owner, FirstPage(m), majors[m].pages, 0),
                       SetRun(bits, FirstPage(m), majors[m].pages, false),
                       if memRoot == m then majors[m].next else memRoot, if bestBet == m then 0 else bestBet,
                       totalAllocated - majors[m].size, inUse)
    ensures memRoot == order[k] <==> k == 0
  {
    DropOk(majors, mem, order, blocks, owner, bits, k);
    PageRange(majors, order[k], bits, owner);
    DropPointers(majors, order, owner, k, memRoot, bestBet);
    hide LayoutOk, PagesOk, TotalSize, TotalInUse, MajorPlaced, DropMajor, RemoveAt;
  }

  lemma PageRange(majors: MajorMem, m: int, bits: seq<bool>, owner: seq<int>)
    requires MajorPlaced(majors, m) && PagesOk(bits, owner)
    ensures 0 <= FirstPage(m) && FirstPage(m) + majors[m].pages <= |bits| == |owner|
  {
  }

  lemma DropPointers(majors: MajorMem, order: seq<int>, owner: seq<int>, k: nat, memRoot: int, bestBet: int)
    requires MajorsPlaced(majors, order, owner) && MajorsLinked(majors, order) && k < |order|
    requires memRoot == At(order, 0) && (bestBet == 0 || bestBet in order)
    ensures order[k] in majors && (memRoot == order[k] <==> k == 0)
    ensures (if memRoot == order[k] then majors[order[k]].next else memRoot) == At(RemoveAt(order, k), 0)
    ensures bestBet == order[k] || bestBet == 0 || bestBet in RemoveAt(order, k)
  {
    assert MajorLinkAt(majors, order, k);
    RemoveAtIndex(order, k);
    if bestBet in order && bestBet != order[k] {
      var i :| 0 <= i < |order| && order[i] == bestBet;
      assert RemoveAt(order, k)[if i < k then i else i - 1] == bestBet;
    }
  }

  /** Every live header is some minor of some major. */
  lemma FindHeader(majors: MajorMem, mem: MinorMem, order: seq<int>, blocks: Blocks, owner: seq<int>, h: int)
    returns (idx: nat, k: nat)
    requires LayoutOk(majors, mem, order, blocks, owner) && h in mem
    ensures idx < |order| && order[idx] == mem[h].block && order[idx] in blocks
    ensures k < |blocks[order[idx]]| && blocks[order[idx]][k] == h && MinorLinkAt(mem, blocks[order[idx]], k)
    ensures MinorsApartFrom(blocks[order[idx]], k)
  {
    idx :| 0 <= idx < |order| && order[idx] == mem[h].block;
    k :| 0 <= k < |blocks[order[idx]]| && blocks[order[idx]][k] == h;
    assert FilledAt(majors, mem, blocks, order[idx]);
  }

  ghost predicate MinorsApartFrom(xs: seq<int>, k: nat) {
    k < |xs| && forall i :: 0 <= i < |xs| && i != k ==> xs[i] != xs[k] && xs[i] != 0
  }

  /** Removing one entry and keeping the rest: what free does to the lists of headers. */
  lemma NoneEmptyAfterFree(order: seq<int>, blocks: Blocks, idx: nat, ys: seq<int>)
    requires NoneEmpty(order, blocks) && idx < |order|
    requires forall i, j :: 0 <= i < j < |order| ==> order[i] != order[j]
    ensures ys != [] ==> NoneEmpty(order, blocks[order[idx] := ys])
    ensures NoneEmpty(RemoveAt(order, idx), blocks[order[idx] := ys])
    ensures order[idx] !in RemoveAt(order, idx)
  {
    RemoveAtIndex(order, idx);
  }

  lemma OrderDistinct(majors: MajorMem, mem: MinorMem, order: seq<int>, blocks: Blocks, owner: seq<int>)
    requires LayoutOk(majors, mem, order, blocks, owner)
    ensures forall i, j :: 0 <= i < j < |order| ==> order[i] != order[j]
    ensures forall i :: 0 <= i < |order| ==> MajorLinkAt(majors, order, i) && order[i] > 0
  {
    forall i | 0 <= i < |order|
      ensures order[i] > 0
    {
      assert MajorPlaced(majors, order[i]);
    }
  }

  lemma FirstAfter(xs: seq<int>, k: nat)
    requires k < |xs|
    ensures At(RemoveAt(xs, k), 0) == if k == 0 then At(xs, 1) else xs[0]
  {
    RemoveAtIndex(xs, k);
  }

  // ----- the bytes of the blocks

  function ByteAt(bytes: map<int, Byte>, a: int): Byte {
    if a in bytes then bytes[a] else 0
  }

  lemma ByteStored(bytes: map<int, Byte>, k: int, b: Byte, a: int)
    ensures ByteAt(bytes[k := b], a) == if a == k then b else ByteAt(bytes, a)
  {
  }

  /** The n bytes from p on. */
  function View(bytes: map<int, Byte>, p: int, n: nat): (s: seq<Byte>)
    ensures |s| == n && forall j :: 0 <= j < n ==> s[j] == ByteAt(bytes, p + j)
  {
    seq<Byte>(n, j requires 0 <= j < n => ByteAt(bytes, p + j))
  }

  /** memset and memcpy: data stored from p on. */
  function Stored(bytes: map<int, Byte>, p: int, data: seq<Byte>): map<int, Byte> {
    if data == [] then bytes else Stored(bytes, p, data[..|data| - 1])[p + |data| - 1 := data[|data| - 1]]
  }

  lemma {:induction false} StoredAt(bytes: map<int, Byte>, p: int, data: seq<Byte>, a: int)
    ensures ByteAt(Stored(bytes, p, data), a) == if p <= a < p + |data| then data[a - p] else ByteAt(bytes, a)
  {
    if data != [] {
      var n := |data| - 1;
      StoredAt(bytes, p, data[..n], a);
      ByteStored(Stored(bytes, p, data[..n]), p + n, data[n], a);
    }
  }

  function ZeroBytes(n: nat): (z: seq<Byte>)
    ensures |z| == n && forall i :: 0 <= i < n ==> z[i] == 0
  {
    seq<Byte>(n, _ => 0)
  }

  /** Nothing changed but the n bytes from p on. */
  ghost predicate SameBut(bytes: map<int, Byte>, bytes': map<int, Byte>, p: int, n: nat) {
    forall a :: !(p <= a < p + n) ==> ByteAt(bytes', a) == ByteAt(bytes, a)
  }

  lemma ViewKept(bytes: map<int, Byte>, bytes': map<int, Byte>, p: int, n: nat, q: int, m: nat)
    requires SameBut(bytes, bytes', p, n) && (p + n <= q || q + m <= p)
    ensures View(bytes', q, m) == View(bytes, q, m)
  {
  }

  // ----- what clients see

  type Buffers = seq<seq<Byte>>

  /** An operation on private buffers, one for each client. What is in a new buffer, or in the new
      part of one that grows, is not said. */
  ghost predicate PrivateStep(d: Buffers, op: HeapOp, d': Buffers) {
    match op
    case Allocate(reqSize, align) =>
      && |d'| == |d| + 1 && d'[..|d|] == d
      && |d'[|d|]| == if PaddedSize(reqSize, align) == 0 then 1 else reqSize
    case Release(k) => d' == if k < |d| then d[..k] + d[k + 1..] else d
    case Store(k, off, b) => d' == if k < |d| && off < |d[k]| then d[k := WithByte(d[k], off, b)] else d
    case Resize(k, size, _) =>
      if k >= |d| then d' == d
      else if size == 0 then d' == d[..k] + d[k + 1..]
      else
        && |d'| == |d| && (forall i :: 0 <= i < |d| && i != k ==> d'[i] == d[i])
        && |d'[k]| == size
        && if size <= |d[k]| then d'[k] == d[k][..size] else d'[k][..|d[k]|] == d[k]
  }

  /** What memory has for each client is its buffer. */
  ghost predicate Seen(mem: MinorMem, bytes: map<int, Byte>, cs: seq<Client>, hs: seq<int>, d: Buffers) {
    && |d| == |cs| == |hs|
    && forall k :: 0 <= k < |cs| ==> SeenAt(mem, bytes, cs[k], hs[k], d[k])
  }

  ghost predicate SeenAt(mem: MinorMem, bytes: map<int, Byte>, c: Client, h: int, buffer: seq<Byte>) {
    h in mem && buffer == View(bytes, c.p, mem[h].reqSize)
  }

  /** Writing into the bytes of client i leaves what the others see. */
  lemma OthersSee(majors: MajorMem, mem: MinorMem, order: seq<int>, blocks: Blocks, owner: seq<int>, offsets: map<int,
                  nat>,
                  cs: seq<Client>, hs: seq<int>, leaked: set<int>, bytes: map<int, Byte>, bytes': map<int, Byte>,
                  i: nat, n: nat, j: nat, buffer: seq<Byte>)
    requires LayoutOk(majors, mem, order, blocks, owner) && Served(mem, offsets, cs, hs, leaked)
    requires i < |cs| && j < |cs| == |hs| && i != j && hs[i] in mem && n <= mem[hs[i]].reqSize
    requires SameBut(bytes, bytes', cs[i].p, n) && SeenAt(mem, bytes, cs[j], hs[j], buffer)
    ensures SeenAt(mem, bytes', cs[j], hs[j], buffer)
  {
    hide LayoutOk, Served, SameBut;
    ClientsApart(majors, mem, order, blocks, owner, offsets, cs, hs, leaked, i, j);
    ViewKept(bytes, bytes', cs[i].p, n, cs[j].p, mem[hs[j]].reqSize);
  }

  lemma SeenOneMore(majors: MajorMem, mem: MinorMem, order: seq<int>, blocks: Blocks, owner: seq<int>, offsets: map<int,
                    nat>,
                    cs: seq<Client>, hs: seq<int>, leaked: set<int>, mem0: MinorMem, bytes: map<int, Byte>,
                    bytes': map<int, Byte>, d: Buffers, c: Client, h: int)
    requires LayoutOk(majors, mem, order, blocks, owner) && Served(mem, offsets, cs + [c], hs + [h], leaked)
    requires Seen(mem0, bytes, cs, hs, d) && SameRequests(mem0, mem) && h in mem
    requires SameBut(bytes, bytes', c.p, mem[h].reqSize)
    ensures Seen(mem, bytes', cs + [c], hs + [h], d + [View(bytes', c.p, mem[h].reqSize)])
  {
    hide LayoutOk, Served, SameBut;
    var cs', hs', d' := cs + [c], hs + [h], d + [View(bytes', c.p, mem[h].reqSize)];
    InServed(mem, offsets, cs', hs', leaked);
    forall j | 0 <= j < |cs'|
      ensures SeenAt(mem, bytes', cs'[j], hs'[j], d'[j])
    {
      if j < |cs| {
        assert SeenAt(mem0, bytes, cs[j], hs[j], d[j]) && hs'[j] == hs[j];
        OthersSee(majors, mem, order, blocks, owner, offsets, cs', hs', leaked, bytes, bytes', |cs|, mem[h].reqSize, j,
                  d'[j]);
      }
    }
  }

  lemma InServed(mem: MinorMem, offsets: map<int, nat>, cs: seq<Client>, hs: seq<int>, leaked: set<int>)
    requires Served(mem, offsets, cs, hs, leaked)
    ensures |cs| == |hs| && forall i :: 0 <= i < |hs| ==> hs[i] in mem
  {
    assert forall i :: 0 <= i < |hs| ==> hs[i] in hs;
  }

  lemma SeenOneLess(mem0: MinorMem, mem: MinorMem, offsets: map<int, nat>, cs: seq<Client>, hs: seq<int>,
                    leaked: set<int>,
                    bytes: map<int, Byte>, d: Buffers, k: nat)
    requires Seen(mem0, bytes, cs, hs, d) && k < |cs| && SameRequests(mem0, mem)
    requires Served(mem, offsets, cs[..k] + cs[k + 1..], hs[..k] + hs[k + 1..], leaked)
    ensures Seen(mem, bytes, cs[..k] + cs[k + 1..], hs[..k] + hs[k + 1..], d[..k] + d[k + 1..])
  {
    hide Served, View;
    var cs', hs', d' := cs[..k] + cs[k + 1..], hs[..k] + hs[k + 1..], d[..k] + d[k + 1..];
    InServed(mem, offsets, cs', hs', leaked);
    forall j | 0 <= j < |cs'|
      ensures SeenAt(mem, bytes, cs'[j], hs'[j], d'[j])
    {
      var i := if j < k then j else j + 1;
      assert SeenAt(mem0, bytes, cs[i], hs[i], d[i]);
    }
  }

  lemma SeenStored(majors: MajorMem, mem: MinorMem, order: seq<int>, blocks: Blocks, owner: seq<int>, offsets: map<int,
                   nat>,
                   cs: seq<Client>, hs: seq<int>, leaked: set<int>, bytes: map<int, Byte>, d: Buffers,
                   k: nat, off: nat, b: Byte)
    requires LayoutOk(majors, mem, order, blocks, owner) && Served(mem, offsets, cs, hs, leaked)
    requires Seen(mem, bytes, cs, hs, d) && k < |cs| && off < |d[k]|
    ensures Seen(mem, bytes[cs[k].p + off := b], cs, hs, d[k := WithByte(d[k], off, b)])
  {
    hide LayoutOk, Served;
    var bytes', d' := bytes[cs[k].p + off := b], d[k := WithByte(d[k], off, b)];
    assert SeenAt(mem, bytes, cs[k], hs[k], d[k]);
    forall a ensures ByteAt(bytes', a) == if a == cs[k].p + off then b else ByteAt(bytes, a) {
      ByteStored(bytes, cs[k].p + off, b, a);
    }
    forall j | 0 <= j < |cs|
      ensures SeenAt(mem, bytes', cs[j], hs[j], d'[j])
    {
      assert SeenAt(mem, bytes, cs[j], hs[j], d[j]);
      if j != k {
        OthersSee(majors, mem, order, blocks, owner, offsets, cs, hs, leaked, bytes, bytes', k, mem[hs[k]].reqSize, j,
                  d[j]);
      }
    }
  }

  lemma SeenRelabelled(mem: MinorMem, offsets: map<int, nat>, bytes: map<int, Byte>, cs: seq<Client>, hs: seq<int>,
                       leaked: set<int>, d: Buffers, k: nat, size: nat)
    requires Served(mem, offsets, cs, hs, leaked) && Seen(mem, bytes, cs, hs, d) && k < |cs| && size <= |d[k]|
    ensures hs[k] in mem && Seen(mem[hs[k] := mem[hs[k]].(reqSize := size)], bytes, cs, hs, d[k := d[k][..size]])
  {
    hide Handle;
    InServed(mem, offsets, cs, hs, leaked);
    var mem', d' := mem[hs[k] := mem[hs[k]].(reqSize := size)], d[k := d[k][..size]];
    forall j | 0 <= j < |cs|
      ensures SeenAt(mem', bytes, cs[j], hs[j], d'[j])
    {
      assert SeenAt(mem, bytes, cs[j], hs[j], d[j]);
      assert j < k ==> hs[j] != hs[k];
      assert k < j ==> hs[k] != hs[j];
    }
  }

  lemma SeenReplaced(majors: MajorMem, mem: MinorMem, order: seq<int>, blocks: Blocks, owner: seq<int>,
                     offsets: map<int, nat>,
                     cs: seq<Client>, hs: seq<int>, leaked: set<int>, mem0: MinorMem, bytes: map<int, Byte>,
                     bytes': map<int, Byte>, d: Buffers, k: nat, c: Client, h: int)
    requires Seen(mem0, bytes, cs, hs, d) && k < |cs| && SameRequestsBut(mem0, mem, hs[k]) && h in mem
    requires forall i, j :: 0 <= i < j < |hs| ==> hs[i] != hs[j]
    requires LayoutOk(majors, mem, order, blocks, owner) && Served(mem, offsets, cs[k := c], hs[k := h], leaked)
    requires SameBut(bytes, bytes', c.p, mem[h].reqSize)
    ensures Seen(mem, bytes', cs[k := c], hs[k := h], d[k := View(bytes', c.p, mem[h].reqSize)])
  {
    hide LayoutOk, Served, SameBut, View;
    var cs', hs', d' := cs[k := c], hs[k := h], d[k := View(bytes', c.p, mem[h].reqSize)];
    InServed(mem, offsets, cs', hs', leaked);
    forall j | 0 <= j < |cs'|
      ensures SeenAt(mem, bytes', cs'[j], hs'[j], d'[j])
    {
      if j != k {
        assert SeenAt(mem0, bytes, cs[j], hs[j], d[j]) && hs'[j] == hs[j];
        assert j < k ==> hs[j] != hs[k];
        assert k < j ==> hs[k] != hs[j];
        OthersSee(majors, mem, order, blocks, owner, offsets, cs', hs', leaked, bytes, bytes', k, mem[h].reqSize, j,
                  d'[j]);
      }
    }
  }

  // ----- what clients hold

  /** A pointer and the alignment to free it with. */
  datatype Client = Client(p: int, align: nat)

  /** hs are the headers of the pointers handed out and not freed, each once; the live headers
      are those and the leaked ones. */
  ghost predicate Served(mem: MinorMem, offsets: map<int, nat>, cs: seq<Client>, hs: seq<int>, leaked: set<int>) {
    && |cs| == |hs|
    && (forall i :: 0 <= i < |cs| ==> Handle(mem, offsets, cs[i].p, cs[i].align, hs[i]))
    && (forall i, j :: 0 <= i < j < |hs| ==> hs[i] != hs[j])
    && (forall i :: 0 <= i < |hs| ==> hs[i] !in leaked)
    && (forall a :: a in mem <==> a in hs || a in leaked)
  }

  lemma ServedOneMore(mem: MinorMem, offsets: map<int, nat>, cs: seq<Client>, hs: seq<int>, leaked: set<int>,
                      mem': MinorMem, offsets': map<int, nat>, c: Client, h: int)
    requires Served(mem, offsets, cs, hs, leaked) && h !in mem && mem'.Keys == mem.Keys + {h}
    requires Handle(mem', offsets', c.p, c.align, h)
    requires forall q, b, g :: Handle(mem, offsets, q, b, g) ==> Handle(mem', offsets', q, b, g)
    ensures Served(mem', offsets', cs + [c], hs + [h], leaked)
  {
    hide Handle;
    var hs' := hs + [h];
    assert forall a :: a in hs' <==> a in hs || a == h;
    assert forall a :: a in mem' <==> a in mem || a == h;
  }

  lemma HandleStays(mem: MinorMem, mem': MinorMem, offsets: map<int, nat>, m: int, p: int, align: nat, h: int)
    requires Handle(mem, offsets, p, align, h) && SameHeaders(mem, mem', m) && (h in mem ==> h in mem')
    ensures Handle(mem', offsets, p, align, h)
  {
    hide AlignUp, PaddedSize;
  }

  /** Removing the pointer at k, when the free found b: its own header, or no live one. */
  lemma ServedOneLess(mem: MinorMem, offsets: map<int, nat>, cs: seq<Client>, hs: seq<int>, leaked: set<int>,
                      mem': MinorMem, offsets': map<int, nat>, k: nat, b: int)
    requires Served(mem, offsets, cs, hs, leaked) && k < |cs| && (b == hs[k] || b !in mem)
    requires mem'.Keys == mem.Keys - {b}
    requires forall q, a, g :: Handle(mem, offsets, q, a, g) && g != b ==> Handle(mem', offsets', q, a, g)
    ensures Served(mem', offsets', cs[..k] + cs[k + 1..], hs[..k] + hs[k + 1..],
                   if b == hs[k] then leaked else leaked + {hs[k]})
  {
    hide Handle;
    var cs', hs' := cs[..k] + cs[k + 1..], hs[..k] + hs[k + 1..];
    WithoutOne(hs, k);
    assert forall i :: 0 <= i < |cs'| ==> cs'[i] == cs[Skip(k, i)];
    forall i | 0 <= i < |cs'|
      ensures Handle(mem', offsets', cs'[i].p, cs'[i].align, hs'[i])
    {
      var j := Skip(k, i);
      assert hs[j] in mem && hs[j] != hs[k];
      assert Handle(mem, offsets, cs[j].p, cs[j].align, hs[j]);
    }
    assert hs[k] in mem;
  }

  /** Where element i was before element k was taken out. */
  function Skip(k: int, i: int): int { if i < k then i else i + 1 }

  lemma WithoutOne(hs: seq<int>, k: nat)
    requires k < |hs| && forall i, j :: 0 <= i < j < |hs| ==> hs[i] != hs[j]
    ensures var r := hs[..k] + hs[k + 1..];
            && |r| == |hs| - 1 && (forall i :: 0 <= i < |r| ==> r[i] == hs[Skip(k, i)])
            && (forall i, j :: 0 <= i < j < |r| ==> r[i] != r[j])
            && (forall a :: a in r <==> a in hs && a != hs[k])
  {
    var r := hs[..k] + hs[k + 1..];
    forall a | a in hs && a != hs[k]
      ensures a in r
    {
      var j :| 0 <= j < |hs| && hs[j] == a;
      assert r[if j < k then j else j - 1] == a;
    }
  }

  /** Replacing the pointer at k by a new one with header h, when the free of the old block
      found b: its own header, or no live one. */
  lemma ServedReplaced(mem: MinorMem, offsets: map<int, nat>, cs: seq<Client>, hs: seq<int>, leaked: set<int>,
                       mem': MinorMem, offsets': map<int, nat>, k: nat, b: int, c: Client, h: int)
    requires Served(mem, offsets, cs, hs, leaked) && k < |cs| && h !in mem && b != h && (b == hs[k] || b !in mem)
    requires mem'.Keys == mem.Keys + {h} - {b} && Handle(mem', offsets', c.p, c.align, h)
    requires forall q, a, g :: Handle(mem, offsets, q, a, g) && g != b ==> Handle(mem', offsets', q, a, g)
    ensures Served(mem', offsets', cs[k := c], hs[k := h], if b == hs[k] then leaked else leaked + {hs[k]})
  {
    hide Handle;
    var cs', hs' := cs[k := c], hs[k := h];
    forall i | 0 <= i < |cs'|
      ensures Handle(mem', offsets', cs'[i].p, cs'[i].align, hs'[i]) && (i != k ==> hs'[i] != h)
    {
      if i != k {
        assert hs[i] in mem;
        assert i < k ==> hs[i] != hs[k];
        assert k < i ==> hs[k] != hs[i];
        assert Handle(mem, offsets, cs[i].p, cs[i].align, hs[i]);
      }
    }
    assert hs[k] in mem;
    assert hs'[k] == h;
    forall a | a in hs && a != hs[k]
      ensures a in hs'
    {
      var j :| 0 <= j < |hs| && hs[j] == a;
      assert hs'[j] == a;
    }
  }

  /** The bytes of different clients are apart, and so is each one's stored offset. */
  lemma ClientsApart(majors: MajorMem, mem: MinorMem, order: seq<int>, blocks: Blocks, owner: seq<int>,
                     offsets: map<int, nat>, cs: seq<Client>, hs: seq<int>, leaked: set<int>, i: nat, j: nat)
    requires LayoutOk(majors, mem, order, blocks, owner) && Served(mem, offsets, cs, hs, leaked) && i < |cs| && j < |cs|
    requires i != j
    ensures hs[i] in mem && hs[j] in mem
    ensures var p, q := cs[i].p, cs[j].p;
            && (p + mem[hs[i]].reqSize <= q || q + mem[hs[j]].reqSize <= p)
            && (cs[j].align > 1 ==> p + mem[hs[i]].reqSize <= q - ALIGN_INFO || q - ALIGN_INFO + 4 <= p)
  {
    hide LayoutOk, AlignUp, Handle;
    assert Handle(mem, offsets, cs[i].p, cs[i].align, hs[i]) && Handle(mem, offsets, cs[j].p, cs[j].align, hs[j]);
    assert hs[i] != hs[j];
    HandlesApart(majors, mem, order, blocks, owner, offsets, cs[i].p, cs[i].align, hs[i], cs[j].p, cs[j].align, hs[j]);
  }

  lemma HandlesApart(majors: MajorMem, mem: MinorMem, order: seq<int>, blocks: Blocks, owner: seq<int>,
                     offsets: map<int, nat>,
                     p: int, a: nat, g: int, q: int, b: nat, h: int)
    requires LayoutOk(majors, mem, order, blocks, owner) && g != h
    requires Handle(mem, offsets, p, a, g) && Handle(mem, offsets, q, b, h)
    ensures g in mem && h in mem
    ensures p + mem[g].reqSize <= q || q + mem[h].reqSize <= p
    ensures b > 1 ==> p + mem[g].reqSize <= q - ALIGN_INFO || q - ALIGN_INFO + 4 <= p
  {
    hide LayoutOk, AlignUp;
    AlignRoundTrip(a, g + MINOR_HEADER, mem[g].reqSize);
    AlignRoundTrip(b, h + MINOR_HEADER, mem[h].reqSize);
    LayoutDisjoint(majors, mem, order, blocks, owner, g, h);
  }

  /** Noting another requested size changes nothing about the layout. */
  lemma RelabelState(majors: MajorMem, mem: MinorMem, order: seq<int>, blocks: Blocks, owner: seq<int>, bits: seq<bool>,
                     memRoot: int, bestBet: int, totalAllocated: nat, inUse: nat, h: int, reqSize: nat)
    requires StateOk(majors, mem, order, blocks, owner, bits, memRoot, bestBet, totalAllocated, inUse) && h in mem
    ensures StateOk(majors, mem[h := mem[h].(reqSize := reqSize)], order, blocks, owner, bits,
                    memRoot, bestBet, totalAllocated, inUse)
  {
    hide SumSizes, TotalInUse, TotalSize, PagesOk, MajorsPlaced, MajorsLinked;
    var mem' := mem[h := mem[h].(reqSize := reqSize)];
    forall i | 0 <= i < |order|
      ensures FilledAt(majors, mem', blocks, order[i])
      ensures InUseOf(mem', blocks, order[i]) == InUseOf(mem, blocks, order[i])
    {
      var m := order[i];
      assert FilledAt(majors, mem, blocks, m);
      RelabelMinors(mem, m, m + majors[m].size, blocks[m], h, reqSize);
    }
    TotalInUseSame(mem, blocks, mem', blocks, order);
  }

  lemma RelabelMinors(mem: MinorMem, m: int, end: int, xs: seq<int>, h: int, reqSize: nat)
    requires MinorsOk(mem, m, end, xs) && h in mem
    ensures var mem' := mem[h := mem[h].(reqSize := reqSize)];
            MinorsOk(mem', m, end, xs) && SumSizes(mem', xs) == SumSizes(mem, xs)
  {
    var mem' := mem[h := mem[h].(reqSize := reqSize)];
    SumSame(mem, mem', xs);
    forall i | 0 <= i < |xs|
      ensures MinorLinkAt(mem', xs, i)
    {
      assert MinorLinkAt(mem, xs, i);
    }
    assert forall a :: EndOf(mem', a) == EndOf(mem, a);
  }

  /** A new allocation elsewhere, and its own stored offset, leave a handle as it was. */
  lemma HandleKept(majors: MajorMem, mem0: MinorMem, mem: MinorMem, order: seq<int>, blocks: Blocks, owner: seq<int>,
                   offsets: map<int, nat>, m: int, h: int, size: nat, reqSize: nat, align: nat, q: int, b: nat, g: int)
    requires LayoutOk(majors, mem, order, blocks, owner)
    requires NewHeader(mem0, mem, m, h, size, reqSize) && h >= 0 && size == PaddedSize(reqSize, align)
    requires Handle(mem0, offsets, q, b, g)
    ensures Handle(mem, StoreOffset(offsets, align, h), q, b, g)
  {
    hide LayoutOk, PaddedSize, AlignUp;
    HandleInside(mem, h, align);
    HandleInside(mem, g, b);
    LayoutDisjoint(majors, mem, order, blocks, owner, g, h);
  }

  lemma LayoutDisjoint(majors: MajorMem, mem: MinorMem, order: seq<int>, blocks: Blocks, owner: seq<int>, a: int,
                       b: int)
    requires LayoutOk(majors, mem, order, blocks, owner) && a in mem && b in mem && a != b
    ensures EndOf(mem, a) <= b || EndOf(mem, b) <= a
  {
    LiveBlocksDisjoint(majors, mem, order, blocks, owner, a, b);
  }

  /** The stored offset lies in the payload it belongs to. */
  lemma HandleInside(mem: MinorMem, h: int, align: nat)
    requires h in mem && h >= 0 && mem[h].size >= PaddedSize(mem[h].reqSize, align)
    ensures var p := AlignUp(align, h + MINOR_HEADER);
            align > 1 ==> h + MINOR_HEADER <= p - ALIGN_INFO && p - ALIGN_INFO < EndOf(mem, h)
  {
    AlignRoundTrip(align, h + MINOR_HEADER, mem[h].reqSize);
  }

  /** With no live allocation left, every page has gone back. */
  lemma AllFreedAllReturned(majors: MajorMem, mem: MinorMem, order: seq<int>, blocks: Blocks, owner: seq<int>,
                            bits: seq<bool>,
                            memRoot: int, bestBet: int, totalAllocated: nat, inUse: nat)
    requires StateOk(majors, mem, order, blocks, owner, bits, memRoot, bestBet, totalAllocated, inUse)
    requires NoneEmpty(order, blocks) && mem == map[]
    ensures order == [] && memRoot == 0 && bestBet == 0 && totalAllocated == 0 && inUse == 0
    ensures forall p :: 0 <= p < HEAP_PAGES ==> !bits[p]
  {
    HeapHoldsSomething(majors, mem, order, blocks);
  }

  lemma HeapHoldsSomething(majors: MajorMem, mem: MinorMem, order: seq<int>, blocks: Blocks)
    requires AllFilled(majors, mem, order, blocks) && NoneEmpty(order, blocks)
    ensures order != [] ==> mem != map[]
  {
    if order != [] {
      assert FilledAt(majors, mem, blocks, order[0]);
      assert blocks[order[0]][0] in mem;
    }
  }

  lemma FreedList(xs: seq<int>, k: nat)
    requires k < |xs|
    ensures RemoveAt(xs, k) == [] <==> xs == [xs[k]]
  {
  }

  lemma Neighbours(majors: MajorMem, mem: MinorMem, order: seq<int>, blocks: Blocks, owner: seq<int>, idx: nat)
    requires LayoutOk(majors, mem, order, blocks, owner) && idx < |order|
    ensures MajorLinkAt(majors, order, idx)
    ensures idx > 0 ==> order[idx - 1] > 0 && order[idx - 1] != order[idx] && order[idx - 1] in majors
    ensures idx + 1 < |order| ==> order[idx + 1] > 0 && order[idx + 1] != order[idx] && order[idx + 1] in majors
  {
    OrderDistinct(majors, mem, order, blocks, owner);
  }

  lemma BestBetOk(majors: MajorMem, mem: MinorMem, order: seq<int>, blocks: Blocks, owner: seq<int>, bits: seq<bool>,
                  memRoot: int, bestBet: int, totalAllocated: nat, inUse: nat, idx: nat)
    requires StateOk(majors, mem, order, blocks, owner, bits, memRoot, bestBet, totalAllocated, inUse) && idx < |order|
    ensures StateOk(majors, mem, order, blocks, owner, bits, memRoot, order[idx], totalAllocated, inUse)
  {
    hide LayoutOk, PagesOk;
  }

  lemma EmptyFirst(majors: MajorMem, mem: MinorMem, order: seq<int>, blocks: Blocks, owner: seq<int>, idx: nat)
    requires LayoutOk(majors, mem, order, blocks, owner) && idx < |order|
    ensures order[idx] in majors && order[idx] in blocks
    ensures (majors[order[idx]].first == 0 <==> blocks[order[idx]] == [])
  {
    FilledMinors(majors, mem, order, blocks, owner, idx);
  }

  lemma NewHandle(mem0: MinorMem, mem: MinorMem, offsets: map<int, nat>, m: int, h: int, reqSize: nat, align: nat)
    requires NewHeader(mem0, mem, m, h, PaddedSize(reqSize, align), reqSize) && h >= 0
    ensures Handle(mem, StoreOffset(offsets, align, h), AlignUp(align, h + MINOR_HEADER), align, h)
  {
  }

  class Heap {
    var majors: MajorMem
    var minors: MinorMem
    var offsets: map<int, nat>
    var bits: seq<bool>
    var memRoot: int
    var bestBet: int
    var totalAllocated: nat
    var inUse: nat
    /** what clients may store: the bytes of the blocks but for headers and stored offsets */
    var bytes: map<int, Byte>
    var warnings: nat
    var errors: nat

    ghost var order: seq<int>
    ghost var blocks: Blocks
    ghost var owner: seq<int>

    ghost predicate Sound()
      reads this
    {
      StateOk(majors, minors, order, blocks, owner, bits, memRoot, bestBet, totalAllocated, inUse)
    }

    /** No gap of any major fits the size, and the page bitmap has no run for a new major. */
    ghost predicate NoRoomFor(size: nat)
      reads this
    {
      !SomeRoom(majors, minors, blocks, order, size) && FirstRun(bits, 0, PagesFor(size), false).None?
    }

    /** There is space for need bytes, in a major or on pages of its own. */
    ghost predicate Space(need: nat)
      reads this
    {
      SpaceIn(majors, minors, blocks, order, bits, need)
    }

    /** Between operations every major holds at least one minor. */
    ghost predicate Valid()
      reads this
    {
      Sound() && NoneEmpty(order, blocks)
    }

    constructor ()
      ensures Valid() && minors == map[] && order == []
    {
      majors, minors, offsets, bytes := map[], map[], map[], map[];
      bits := seq(HEAP_PAGES, i => false);
      memRoot, bestBet, totalAllocated, inUse, warnings, errors := 0, 0, 0, 0, 0, 0;
      order, blocks, owner := [], map[], seq(HEAP_PAGES, i => 0);
    }

    /** liballoc_alloc and allocate_new_page: a grown run of pages headed by an empty major. */
    method AllocateNewPage(size: nat) returns (m: int, ghost p: nat)
      requires |bits| == HEAP_PAGES
      modifies this`majors, this`bits, this`totalAllocated, this`warnings
      ensures var run := FirstRun(old(bits), 0, PagesFor(size), false);
              var n := PagesFor(size);
              match run
              case None => m == 0 && majors == old(majors) && bits == old(bits) && totalAllocated == old(totalAllocated)
              case Some(q) =>
                && p == q && m == HEAP_BASE + PAGE_BYTES * q && q + n <= HEAP_PAGES && AllAre(old(bits), q, n, false)
                && bits == SetRun(old(bits), q, n, true)
                && majors == old(majors)[m := Major(0, 0, n, n * PAGE_BYTES, MAJOR_HEADER, 0)]
                && totalAllocated == old(totalAllocated) + n * PAGE_BYTES
      ensures m != 0 <==> SomePages(old(bits), size)
      ensures m != 0 ==> exists n: nat, q: nat ::
                           GrownBy(old(bits), old(totalAllocated), majors, bits, totalAllocated, m, n, q, size)
    {
      hide FirstRun, AllAre, GrownBy;
      PagesAreClear(bits, size);
      var st := size + MAJOR_HEADER + MINOR_HEADER;
      if st % PAGE_BYTES == 0 { st := st / PAGE_BYTES; } else { st := st / PAGE_BYTES + 1; }
      if st < PAGE_COUNT { st := PAGE_COUNT; }
      var run := FirstRun(bits, 0, st, false);
      if run.None? {
        warnings := warnings + 1;
        m, p := 0, 0;
        return;
      }
      bits := SetRun(bits, run.value, st, true);
      m, p := HEAP_BASE + PAGE_BYTES * run.value, run.value;
      majors := majors[m := Major(0, 0, st, st * PAGE_BYTES, MAJOR_HEADER, 0)];
      totalAllocated := totalAllocated + st * PAGE_BYTES;
      ghost var n, q := TakenIsGrown(old(bits), old(totalAllocated), majors, bits, totalAllocated, m, size);
    }

    /** Hooks a grown major behind last, or makes it the root. */
    method Hook(last: int, size: nat) returns (m: int)
      requires |bits| == |owner| == HEAP_PAGES && last == At(order, |order| - 1)
      requires (order != [] ==> last != 0 && last in majors)
      modifies this`majors, this`bits, this`totalAllocated, this`warnings, this`memRoot, this`order, this`blocks
      modifies this`owner
      ensures var run := FirstRun(old(bits), 0, PagesFor(size), false);
              var n := PagesFor(size);
              match run
              case None =>
                && m == 0 && majors == old(majors) && bits == old(bits) && totalAllocated == old(totalAllocated)
                && order == old(order) && blocks == old(blocks) && memRoot == old(memRoot) && owner == old(owner)
              case Some(p) =>
                && m == HEAP_BASE + PAGE_BYTES * p && p + n <= HEAP_PAGES && AllAre(old(bits), p, n, false)
                && bits == SetRun(old(bits), p, n, true)
                && (m != last ==> majors == AppendMajor(old(majors), old(order), m, n))
                && totalAllocated == old(totalAllocated) + n * PAGE_BYTES
                && memRoot == (if old(order) == [] then m else old(memRoot))
                && order == old(order) + [m] && blocks == old(blocks)[m := []] && owner == SetOwner(old(owner), p, n, m)
    {
      ghost var p;
      m, p := AllocateNewPage(size);
      if m == 0 { return; }
      if last == 0 {
        memRoot := m;
      } else {
        majors := majors[last := majors[last].(next := m)];
        majors := majors[m := majors[m].(prev := last)];
      }
      owner := SetOwner(owner, p, PagesFor(size), m);
      order := order + [m];
      blocks := blocks[m := []];
    }

    /** Appending keeps the invariant; it fails only for want of a free run of pages, and a
        major it appends has room for the size it was asked for. */
    method AppendNew(last: int, size: nat) returns (m: int)
      requires Sound() && last == At(order, |order| - 1)
      modifies this`majors, this`bits, this`totalAllocated, this`warnings, this`memRoot, this`order, this`blocks
      modifies this`owner
      ensures Sound()
      ensures m == 0 <==> FirstRun(old(bits), 0, PagesFor(size), false).None?
      ensures m == 0 ==> majors == old(majors) && bits == old(bits) && order == old(order) && blocks == old(blocks)
      ensures m == 0 ==> memRoot == old(memRoot) && owner == old(owner) && totalAllocated == old(totalAllocated)
      ensures m != 0 ==> m !in old(order) && order == old(order) + [m] && blocks == old(blocks)[m := []]
      ensures m != 0 ==> m > 0 && FitsIn(majors, minors, blocks, m, 0, size)
      ensures m != 0 ==> majors[m].next == 0 && majors[m].size - majors[m].usage >= size + MINOR_HEADER
      ensures m != 0 ==> PagesTaken(old(bits), old(totalAllocated), majors, bits, totalAllocated, m, size)
    {
      hide LayoutOk, PagesOk, TotalSize, TotalInUse, FirstRun, SumSizes, MinorsPlaced, MinorsLinked;
      StateShape(majors, minors, order, blocks, owner, bits, memRoot, bestBet, totalAllocated, inUse);
      ghost var run := FirstRun(bits, 0, PagesFor(size), false);
      if run.Some? {
        AppendKeepsState(majors, minors, order, blocks, owner, bits, memRoot, bestBet, totalAllocated, inUse,
                         run.value, PagesFor(size));
      }
      m := Hook(last, size);
    }
 
    /** CASE 2 (a brand new major) and CASE 3 (room before the first minor). */
    method PlaceFront(maj: int, ghost idx: nat, size: nat, reqSize: nat) returns (h: int)
      requires Sound() && idx < |order| && order[idx] == maj && FitsIn(majors, minors, blocks, maj, 0, size)
      modifies this`majors, this`minors, this`inUse, this`blocks
      ensures Sound() && h > 0 && inUse == old(inUse) + size
      ensures PlacedAt(old(majors), old(minors), old(blocks), majors, minors, blocks, maj, 0, h, size, reqSize)
      ensures NewHeader(old(minors), minors, maj, h, size, reqSize)
    {
      hide LayoutOk, PagesOk, MinorsPlaced, MinorsLinked, SumSizes, SameHeaders, TotalSize, TotalInUse;
      hide HasRoom, StateOk;
      ghost var xs := blocks[maj];
      StateLayout(majors, minors, order, blocks, owner, bits, memRoot, bestBet, totalAllocated, inUse);
      FilledMinors(majors, minors, order, blocks, owner, idx);
      h := maj + MAJOR_HEADER;
      FillState(majors, minors, order, blocks, owner, bits, memRoot, bestBet, totalAllocated, inUse, idx, 0, h, size,
                reqSize);
      var first := majors[maj].first;
      if first != 0 {
        minors := minors[first := minors[first].(prev := h)];
      }
      minors := minors[h := Minor(0, first, maj, size, reqSize)];
      majors := majors[maj := majors[maj].(first := h, usage := majors[maj].usage + size + MINOR_HEADER)];
      inUse := inUse + size;
      blocks := blocks[maj := InsertAt(xs, 0, h)];
    }

    /** CASE 4: room after the minor min, at the end (4.1) or before the next one (4.2). */
    method PlaceAfter(maj: int, min: int, ghost idx: nat, ghost j: nat, size: nat, reqSize: nat) returns (h: int)
      requires Sound() && idx < |order| && order[idx] == maj && maj in blocks && j < |blocks[maj]|
      requires blocks[maj][j] == min
      requires FitsIn(majors, minors, blocks, maj, j + 1, size)
      modifies this`majors, this`minors, this`inUse, this`blocks
      ensures Sound() && h > 0 && inUse == old(inUse) + size
      ensures PlacedAt(old(majors), old(minors), old(blocks), majors, minors, blocks, maj, j + 1, h, size, reqSize)
      ensures NewHeader(old(minors), minors, maj, h, size, reqSize)
    {
      hide LayoutOk, PagesOk, MinorsPlaced, MinorsLinked, SumSizes, SameHeaders, TotalSize, TotalInUse;
      hide HasRoom, StateOk;
      ghost var xs := blocks[maj];
      StateLayout(majors, minors, order, blocks, owner, bits, memRoot, bestBet, totalAllocated, inUse);
      FilledMinors(majors, minors, order, blocks, owner, idx);
      h := min + MINOR_HEADER + minors[min].size;
      FillState(majors, minors, order, blocks, owner, bits, memRoot, bestBet, totalAllocated, inUse, idx, j + 1, h,
                size, reqSize);
      LinkedNext(majors, minors, order, blocks, owner, idx, j);
      var next := minors[min].next;
      minors := minors[min := minors[min].(next := h)];
      if next != 0 {
        minors := minors[next := minors[next].(prev := h)];
      }
      minors := minors[h := Minor(min, next, maj, size, reqSize)];
      majors := majors[maj := majors[maj].(usage := majors[maj].usage + size + MINOR_HEADER)];
      inUse := inUse + size;
      blocks := blocks[maj := InsertAt(xs, j + 1, h)];
    }

    /** The first gap of maj that fits, if any does. */
    method PlaceIn(maj: int, ghost idx: nat, size: nat, reqSize: nat) returns (h: int, ghost k: nat)
      requires Sound() && idx < |order| && order[idx] == maj
      requires maj in majors && majors[maj].size - majors[maj].usage >= size + MINOR_HEADER
      modifies this`majors, this`minors, this`inUse, this`blocks
      ensures Sound()
      ensures h == 0 ==> !HasRoom(old(majors), old(minors), old(blocks), maj, size)
      ensures h == 0 ==> majors == old(majors) && minors == old(minors) && inUse == old(inUse) && blocks == old(blocks)
      ensures h != 0 ==> inUse == old(inUse) + size && h > 0
      ensures h != 0 ==>
                PlacedAt(old(majors), old(minors), old(blocks), majors, minors, blocks, maj, k, h, size, reqSize)
      ensures h != 0 ==> NewHeader(old(minors), minors, maj, h, size, reqSize)
      ensures h != 0 ==> forall j: nat :: j < k ==> !FitsIn(old(majors), old(minors), old(blocks), maj, j, size)
    {
      hide LayoutOk, PagesOk, MinorsPlaced, MinorsLinked, SumSizes, TotalSize, TotalInUse, LinkIn, PlacedAt;
      hide NewHeader;
      FilledMinors(majors, minors, order, blocks, owner, idx);
      ghost var xs := blocks[maj];
      k := 0;
      if majors[maj].first == 0 || majors[maj].first - maj - MAJOR_HEADER >= size + MINOR_HEADER {
        h := PlaceFront(maj, idx, size, reqSize);
        return;
      }
      h := 0;
      var min := majors[maj].first;
      ghost var j := 0;
      while min != 0
        invariant Sound() && j <= |xs| && min == At(xs, j)
        invariant majors == old(majors) && minors == old(minors) && inUse == old(inUse) && blocks == old(blocks)
        invariant forall i: nat :: i <= j ==> !FitsIn(majors, minors, blocks, maj, i, size)
        decreases |xs| - j
      {
        LinkedNext(majors, minors, order, blocks, owner, idx, j);
        var next := minors[min].next;
        var end := if next == 0 then maj + majors[maj].size else next;
        if end - min - MINOR_HEADER - minors[min].size >= size + MINOR_HEADER {
          k := j + 1;
          h := PlaceAfter(maj, min, idx, j, size, reqSize);
          return;
        }
        min, j := next, j + 1;
      }
    }

    /** The major to look at after maj: the next one, the root again if the search began at
        the best bet, or else a fresh one. */
    method NextMajor(maj: int, startedBet: bool, ghost idx: nat, size: nat)
      returns (next: int, nextBet: bool, appended: bool, ghost nextIdx: nat)
      requires Sound() && idx < |order| && order[idx] == maj
      modifies this`majors, this`bits, this`totalAllocated, this`warnings, this`memRoot, this`order, this`blocks
      modifies this`owner
      ensures Sound()
      ensures next != 0 ==> nextIdx < |order| && order[nextIdx] == next
      ensures appended ==> next != 0 && !startedBet && !nextBet && idx == |old(order)| - 1 && nextIdx == |old(order)|
      ensures appended ==> order == old(order) + [next] && blocks == old(blocks)[next := []]
      ensures appended ==>
                FitsIn(majors, minors, blocks, next, 0, size) && FirstRun(old(bits), 0, PagesFor(size), false).Some?
      ensures appended ==> next in majors && majors[next].size - majors[next].usage >= size + MINOR_HEADER
      ensures appended ==> PagesTaken(old(bits), old(totalAllocated), majors, bits, totalAllocated, next, size)
      ensures !appended ==> totalAllocated == old(totalAllocated)
      ensures !appended ==> majors == old(majors) && bits == old(bits) && order == old(order) && blocks == old(blocks)
      ensures next == 0 ==>
                idx == |order| - 1 && !startedBet && !nextBet && FirstRun(old(bits), 0, PagesFor(size), false).None?
      ensures next != 0 && !appended && startedBet == nextBet ==> nextIdx == idx + 1
      ensures next != 0 && !appended && startedBet != nextBet ==> startedBet && nextIdx == 0
    {
      hide LayoutOk, PagesOk, TotalSize, TotalInUse, FirstRun;
      StateShape(majors, minors, order, blocks, owner, bits, memRoot, bestBet, totalAllocated, inUse);
      appended, nextBet, nextIdx := false, startedBet, idx + 1;
      next := majors[maj].next;
      if next == 0 {
        if startedBet {
          next, nextBet, nextIdx := memRoot, false, 0;
          return;
        }
        next := AppendNew(maj, size);
        appended := next != 0;
      }
    }

    /** One round of the search, at major maj: place the minor, or say where to look next. */
    method Visit(maj: int, startedBet: bool, ghost idx: nat, size: nat, reqSize: nat)
      returns (h: int, next: int, nextBet: bool, grown: bool, ghost nextIdx: nat, ghost m: int, ghost k: nat)
      requires Sound() && idx < |order| && order[idx] == maj
      modifies this`majors, this`minors, this`bits, this`memRoot, this`totalAllocated, this`inUse, this`warnings
      modifies this`order, this`blocks, this`owner
      ensures Sound()
      ensures h == 0 ==> minors == old(minors) && inUse == old(inUse)
      ensures h != 0 ==> NewHeader(old(minors), minors, m, h, size, reqSize) && inUse == old(inUse) + size && h > 0
      ensures h != 0 ==> Settled(old(order), old(blocks), order, blocks, m, grown) && m in order
      ensures h != 0 && !grown ==>
                m == maj && HasRoom(old(majors), old(minors), old(blocks), maj, size) && bits == old(bits)
      ensures h != 0 && !grown ==>
                PlacedAt(old(majors), old(minors), old(blocks), majors, minors, blocks, maj, k, h, size, reqSize)
      ensures h == 0 || grown ==> !HasRoom(old(majors), old(minors), old(blocks), maj, size)
      ensures grown ==>
                PagesTaken(old(bits), old(totalAllocated), majors, bits, totalAllocated, if h != 0 then m else next,
                           size)
      ensures !grown ==> totalAllocated == old(totalAllocated)
      ensures grown ==>
                && !startedBet && !nextBet && idx == |old(order)| - 1
                && FirstRun(old(bits), 0, PagesFor(size), false).Some?
      ensures h == 0 && grown ==>
                JustGrown(majors, minors, old(order), old(blocks), order, blocks, next, size) && nextIdx == |old(order)|
      ensures h == 0 && !grown ==>
                majors == old(majors) && bits == old(bits) && order == old(order) && blocks == old(blocks)
      ensures h == 0 && next != 0 ==> nextIdx < |order| && order[nextIdx] == next
      ensures h == 0 && next == 0 ==>
                && !grown && idx == |order| - 1 && !startedBet && !nextBet
                && FirstRun(old(bits), 0, PagesFor(size), false).None?
      ensures h == 0 && next != 0 && !grown && startedBet == nextBet ==> nextIdx == idx + 1
      ensures h == 0 && next != 0 && !grown && startedBet != nextBet ==> startedBet && nextIdx == 0
    {
      hide LayoutOk, PagesOk, HasRoom, FitsIn, PlacedAt, TotalSize, TotalInUse, LinkIn, FirstRun, SumSizes;
      hide NewHeader, StateOk;
      StateShape(majors, minors, order, blocks, owner, bits, memRoot, bestBet, totalAllocated, inUse);
      h, next, nextBet, grown, nextIdx, m, k := 0, maj, startedBet, false, idx, maj, 0;
      // CASE 1: not enough space in this major
      if majors[maj].size - majors[maj].usage < size + MINOR_HEADER {
        TooFullHasNoRoom(majors, minors, blocks, maj, size);
        next, nextBet, grown, nextIdx := NextMajor(maj, startedBet, idx, size);
        if !grown { return; }
        FitsIsRoom(majors, minors, blocks, next, 0, size);
      }
      m := next;
      ghost var majors0, blocks0 := majors, blocks;
      h, k := PlaceIn(next, nextIdx, size, reqSize);
      if h != 0 {
        if grown {
          StillTaken(old(bits), old(totalAllocated), majors0, bits, totalAllocated, m, size, old(minors), blocks0,
                     majors, minors, blocks, m, k, h, reqSize);
        }
        PlacedMeans(majors0, old(minors), blocks0, majors, minors, blocks, next, k, h, size, reqSize);
        return;
      }
      // CASE 5: no gap fits, try the next major
      next, nextBet, grown, nextIdx := NextMajor(maj, startedBet, idx, size);
      if grown { FitsIsRoom(majors, minors, blocks, next, 0, size); }
    }

    /** A major with more free bytes than the best so far becomes the best bet. */
    method NoteBest(maj: int, ghost idx: nat, best: int) returns (r: int)
      requires Sound() && idx < |order| && order[idx] == maj
      modifies this`bestBet
      ensures Sound() && maj in majors
      ensures r == (if best < majors[maj].size - majors[maj].usage then majors[maj].size - majors[maj].usage else best)
      ensures bestBet == if r == best then old(bestBet) else maj
    {
      StateShape(majors, minors, order, blocks, owner, bits, memRoot, bestBet, totalAllocated, inUse);
      BestBetOk(majors, minors, order, blocks, owner, bits, memRoot, bestBet, totalAllocated, inUse, idx);
      r := best;
      var diff := majors[maj].size - majors[maj].usage;
      if r < diff {
        bestBet, r := maj, diff;
      }
    }

    /** The loop of the search, from the best bet (bet) or from the root. It goes back to the
        root at most once, and the first appended major ends it. */
    method Scan(start: int, bet: bool, ghost startIdx: nat, best: nat, size: nat, reqSize: nat)
      returns (h: int, ghost m: int, ghost k: nat)
      requires Sound() && startIdx < |order| && order[startIdx] == start && start != 0 && (!bet ==> startIdx == 0)
      modifies this`majors, this`minors, this`bits, this`memRoot, this`bestBet, this`totalAllocated, this`inUse
      modifies this`warnings
      modifies this`order, this`blocks, this`owner
      ensures Sound()
      ensures h == 0 <==> old(NoRoomFor(size))
      ensures h == 0 ==>
                && majors == old(majors) && minors == old(minors) && order == old(order) && blocks == old(blocks)
                && bits == old(bits) && inUse == old(inUse)
      ensures h != 0 ==>
                NewHeader(old(minors), minors, m, h, size, reqSize) && inUse == old(inUse) + size && h > 0 && m in order
      ensures h != 0 ==>
                Settled(old(order), old(blocks), order, blocks, m,
                        !SomeRoom(old(majors), old(minors), old(blocks), old(order), size))
      ensures h != 0 && !SomeRoom(old(majors), old(minors), old(blocks), old(order), size) ==>
                PagesTaken(old(bits), old(totalAllocated), majors, bits, totalAllocated, m, size)
      ensures h == 0 || SomeRoom(old(majors), old(minors), old(blocks), old(order), size) ==>
                totalAllocated == old(totalAllocated)
      ensures SomeRoom(old(majors), old(minors), old(blocks), old(order), size) ==>
                && bits == old(bits)
                && PlacedAt(old(majors), old(minors), old(blocks), majors, minors, blocks, m, k, h, size, reqSize)
    {
      hide Sound, PagesFor, HasRoom, SomeRoom, Looked, JustGrown, Settled, PlacedAt, TotalSize, TotalInUse;
      hide FirstRun, NewHeader;
      var maj, startedBet, bestSize := start, bet, best;
      var grown := false;
      ghost var idx: nat := startIdx;
      ghost var room := SomeRoom(majors, minors, blocks, order, size);
      assert Looked(majors, minors, blocks, order, 0, size) by { NothingLooked(majors, minors, blocks, order, size); }
      while maj != 0
        invariant Sound() && (maj != 0 ==> idx < |order| && order[idx] == maj)
        invariant inUse == old(inUse) && minors == old(minors)
        invariant !grown ==> majors == old(majors) && blocks == old(blocks) && order == old(order) && bits == old(bits)
        invariant grown ==>
                    maj != 0 && !room && JustGrown(majors, minors, old(order), old(blocks), order, blocks, maj, size)
        invariant grown ==> FirstRun(old(bits), 0, PagesFor(size), false).Some?
        invariant grown ==> PagesTaken(old(bits), old(totalAllocated), majors, bits, totalAllocated, maj, size)
        invariant !grown ==> totalAllocated == old(totalAllocated)
        invariant !grown && !startedBet && maj != 0 ==> Looked(majors, minors, blocks, order, idx, size)
        invariant grown || maj == 0 ==> !startedBet
        invariant maj == 0 ==> !room && FirstRun(old(bits), 0, PagesFor(size), false).None?
        decreases startedBet, !grown, if maj == 0 then 0 else 1 + |order| - idx
      {
        bestSize := NoteBest(maj, idx, bestSize);
        ghost var wasGrown, maj0, idx0, majors0, order0, blocks0 := grown, maj, idx, majors, order, blocks;
        ghost var bits0, total0 := bits, totalAllocated;
        h, maj, startedBet, grown, idx, m, k := Visit(maj, startedBet, idx, size, reqSize);
        if wasGrown {
          GrownThenSettled(majors0, old(minors), old(order), old(blocks), order0, blocks0, maj0, size, order, blocks);
          StillTaken(old(bits), old(totalAllocated), majors0, bits0, total0, maj0, size, old(minors), blocks0,
                     majors, minors, blocks, m, k, h, reqSize);
        }
        if h != 0 {
          if !grown && !wasGrown {
            RoomIsSomeRoom(old(majors), old(minors), old(blocks), old(order), idx0, size);
          } else if !wasGrown {
            LookedOn(old(majors), old(minors), old(blocks), old(order), idx0, size);
          }
          return;
        }
        LookedOn(old(majors), old(minors), old(blocks), old(order), idx0, size);
      }
      h, m, k := 0, 0, 0;
    }

    /** The search of __na_malloc with its start: an empty heap gets its first major, and a best
        bet with more than enough free bytes goes first. */
    method Search(size: nat, reqSize: nat) returns (h: int, ghost m: int, ghost k: nat)
      requires Valid()
      modifies this`majors, this`minors, this`bits, this`memRoot, this`bestBet, this`totalAllocated, this`inUse
      modifies this`warnings
      modifies this`order, this`blocks, this`owner
      ensures Valid()
      ensures h == 0 <==> old(NoRoomFor(size))
      ensures h == 0 ==>
                && majors == old(majors) && minors == old(minors) && order == old(order) && blocks == old(blocks)
                && bits == old(bits) && inUse == old(inUse)
      ensures h != 0 ==>
                NewHeader(old(minors), minors, m, h, size, reqSize) && inUse == old(inUse) + size && h > 0 && m in order
      ensures h != 0 ==>
                Settled(old(order), old(blocks), order, blocks, m,
                        !SomeRoom(old(majors), old(minors), old(blocks), old(order), size))
      ensures h != 0 && !SomeRoom(old(majors), old(minors), old(blocks), old(order), size) ==>
                PagesTaken(old(bits), old(totalAllocated), majors, bits, totalAllocated, m, size)
      ensures h == 0 || SomeRoom(old(majors), old(minors), old(blocks), old(order), size) ==>
                totalAllocated == old(totalAllocated)
      ensures SomeRoom(old(majors), old(minors), old(blocks), old(order), size) ==>
                && bits == old(bits)
                && PlacedAt(old(majors), old(minors), old(blocks), majors, minors, blocks, m, k, h, size, reqSize)
    {
      hide LayoutOk, PagesOk, PagesFor, HasRoom, SomeRoom, Settled, NoneEmpty, PlacedAt, TotalSize;
      hide TotalInUse, FirstRun, NewHeader, PagesTaken;
      StateShape(majors, minors, order, blocks, owner, bits, memRoot, bestBet, totalAllocated, inUse);
      ghost var grown := memRoot == 0;
      var root := memRoot;
      if memRoot == 0 {
        root := AppendNew(0, size);
        if root == 0 {
          FirstMajor(majors, minors, blocks, order, size, majors, blocks, order, 0, order, blocks, 0);
          return 0, 0, 0;
        }
      }
      ghost var majors1, minors1, blocks1, order1, bits1, total1 := majors, minors, blocks, order, bits, totalAllocated;
      StateShape(majors, minors, order, blocks, owner, bits, memRoot, bestBet, totalAllocated, inUse);
      var bestSize, bet := 0, false;
      ghost var idx := 0;
      if bestBet != 0 {
        idx :| 0 <= idx < |order| && order[idx] == bestBet;
        bestSize := majors[bestBet].size - majors[bestBet].usage;
        bet := bestSize > size + MINOR_HEADER;
        if !bet { idx := 0; }
      }
      h, m, k := Scan(if bet then bestBet else memRoot, bet, idx, bestSize, size, reqSize);
      if grown {
        FirstMajor(old(majors), old(minors), old(blocks), old(order), size, majors1, blocks1, order1, root, order,
                   blocks, m);
        StillTaken(old(bits), old(totalAllocated), majors1, bits1, total1, root, size, minors1, blocks1,
                   majors, minors, blocks, m, k, h, reqSize);
      }
      if h != 0 {
        SettledNoneEmpty(old(order), old(blocks), order, blocks, m,
                         !SomeRoom(old(majors), old(minors), old(blocks), old(order), size));
      }
    }

    /** The first half of na_free: the minor leaves its list and the counters. */
    method Unlink(min: int) returns (maj: int, ghost idx: nat, ghost k: nat)
      requires Valid() && min in minors
      modifies this`majors, this`minors, this`inUse, this`blocks
      ensures Sound() && maj == old(minors)[min].block && idx < |order| && order[idx] == maj && maj in old(blocks)
      ensures maj in blocks && k < |old(blocks)[maj]| && old(blocks)[maj][k] == min
      ensures blocks == old(blocks)[maj := RemoveAt(old(blocks)[maj], k)]
      ensures minors.Keys == old(minors.Keys) - {min} && SameHeaders(old(minors), minors, maj)
      ensures inUse == old(inUse) - old(minors)[min].size
      ensures maj in majors && majors.Keys == old(majors.Keys)
      ensures majors[maj] == old(majors)[maj].(first := At(blocks[maj], 0), usage := majors[maj].usage)
      ensures majors[maj].usage + old(minors)[min].size + MINOR_HEADER == old(majors)[maj].usage
    {
      hide LayoutOk, PagesOk, SumSizes, TotalSize, TotalInUse, SameHeaders, NoneEmpty, RemoveAt, StateOk;
      StateLayout(majors, minors, order, blocks, owner, bits, memRoot, bestBet, totalAllocated, inUse);
      idx, k := FindHeader(majors, minors, order, blocks, owner, min);
      maj := minors[min].block;
      ghost var xs := blocks[maj];
      FilledMinors(majors, minors, order, blocks, owner, idx);
      UnfillState(majors, minors, order, blocks, owner, bits, memRoot, bestBet, totalAllocated, inUse, idx, k);
      FirstAfter(xs, k);
      inUse := inUse - minors[min].size;
      majors := majors[maj := majors[maj].(usage := majors[maj].usage - (minors[min].size + MINOR_HEADER))];
      var prev, next := minors[min].prev, minors[min].next;
      if next != 0 { minors := minors[next := minors[next].(prev := prev)]; }
      if prev != 0 { minors := minors[prev := minors[prev].(next := next)]; }
      if prev == 0 { majors := majors[maj := majors[maj].(first := next)]; }
      minors := minors - {min};
      blocks := blocks[maj := RemoveAt(xs, k)];
      assert k > 0 ==> xs[k - 1] != 0;
      assert k + 1 < |xs| ==> xs[k + 1] != 0;
      assert minors == LinkOut(old(minors), xs, k);
      ghost var usage := old(majors)[maj].usage - old(minors)[min].size - MINOR_HEADER;
      assert majors == old(majors)[maj := old(majors)[maj].(first := At(RemoveAt(xs, k), 0), usage := usage)];
    }

    /** The second half of na_free: an emptied major goes back to the page bitmap. */
    method Release(maj: int, ghost idx: nat)
      requires Sound() && idx < |order| && order[idx] == maj && maj in blocks && blocks[maj] == [] && maj in majors
      modifies this`majors, this`bits, this`memRoot, this`bestBet, this`totalAllocated, this`order, this`owner
      ensures Sound()
      ensures order == RemoveAt(old(order), idx) && totalAllocated == old(totalAllocated) - old(majors)[maj].size
      ensures 0 <= FirstPage(maj) && FirstPage(maj) + old(majors)[maj].pages <= |old(bits)|
              && bits == SetRun(old(bits), FirstPage(maj), old(majors)[maj].pages, false)
    {
      hide LayoutOk, PagesOk, TotalSize, TotalInUse, RemoveAt, SetOwner, SetRun, FirstPage, MajorPlaced;
      hide StateOk;
      DropState(majors, minors, order, blocks, owner, bits, memRoot, bestBet, totalAllocated, inUse, idx);
      StateLayout(majors, minors, order, blocks, owner, bits, memRoot, bestBet, totalAllocated, inUse);
      Neighbours(majors, minors, order, blocks, owner, idx);
      var prev, next := majors[maj].prev, majors[maj].next;
      if memRoot == maj { memRoot := next; }
      if bestBet == maj { bestBet := 0; }
      if prev != 0 { majors := majors[prev := majors[prev].(next := next)]; }
      if next != 0 { majors := majors[next := majors[next].(prev := prev)]; }
      totalAllocated := totalAllocated - majors[maj].size;
      assert majors == DropMajor(old(majors), order, idx);
      bits := SetRun(bits, FirstPage(maj), majors[maj].pages, false);
      owner := SetOwner(owner, FirstPage(maj), majors[maj].pages, 0);
      order := RemoveAt(order, idx);
    }

    /** na_free of a live minor: it alone goes, and its major with it when it was the last. */
    method FreeLive(min: int)
      requires Valid() && min in minors
      modifies this`majors, this`minors, this`bits, this`memRoot, this`bestBet, this`totalAllocated, this`inUse
      modifies this`order, this`blocks, this`owner
      ensures Valid()
      ensures minors.Keys == old(minors.Keys) - {min} && SameHeaders(old(minors), minors, old(minors)[min].block)
      ensures inUse == old(inUse) - old(minors)[min].size && Falls(old(bits), bits)
      ensures var m := old(minors)[min].block;
              && m in old(blocks) && m in old(majors)
              && (old(blocks)[m] == [min] ==>
                    m !in order && totalAllocated == old(totalAllocated) - old(majors)[m].size)
              && (old(blocks)[m] != [min] ==>
                    order == old(order) && bits == old(bits) && totalAllocated == old(totalAllocated))
    {
      hide LayoutOk, PagesOk, TotalSize, TotalInUse, SameHeaders, SumSizes, NoneEmpty, RemoveAt, SetRun;
      hide FirstPage, FilledAt, EndOf, StateOk;
      StateLayout(majors, minors, order, blocks, owner, bits, memRoot, bestBet, totalAllocated, inUse);
      OrderDistinct(majors, minors, order, blocks, owner);
      ghost var blocks0, order0 := blocks, order;
      var maj;
      ghost var idx, k;
      maj, idx, k := Unlink(min);
      FreedList(blocks0[maj], k);
      NoneEmptyAfterFree(order0, blocks0, idx, blocks[maj]);
      StateLayout(majors, minors, order, blocks, owner, bits, memRoot, bestBet, totalAllocated, inUse);
      EmptyFirst(majors, minors, order, blocks, owner, idx);
      if majors[maj].first == 0 {
        Release(maj, idx);
      } else if bestBet != 0 {
        NoteFreed(maj, idx);
      }
    }

    /** A major in which something was freed becomes the best bet if it has more room. */
    method NoteFreed(maj: int, ghost idx: nat)
      requires Sound() && idx < |order| && order[idx] == maj && bestBet != 0
      modifies this`bestBet
      ensures Sound()
    {
      hide LayoutOk, PagesOk, TotalSize, TotalInUse, FilledAt;
      StateShape(majors, minors, order, blocks, owner, bits, memRoot, bestBet, totalAllocated, inUse);
      var bestSize, majSize := majors[bestBet].size - majors[bestBet].usage, majors[maj].size - majors[maj].usage;
      if majSize > bestSize { bestBet := maj; }
    }

    /** na_free, with word being what memory holds in front of the pointer. A pointer whose
        header is dead changes nothing but the error count; a live one is freed. */
    method Free(align: nat, ptr: int, word: nat)
      requires Valid()
      modifies this
      ensures Valid() && offsets == old(offsets) && bytes == old(bytes) && Falls(old(bits), bits)
      ensures ptr == 0 || HeaderOf(ptr, align, word) !in old(minors) ==>
                && minors == old(minors) && majors == old(majors) && order == old(order) && bits == old(bits)
                && inUse == old(inUse) && totalAllocated == old(totalAllocated) && bestBet == old(bestBet)
                && warnings + errors == old(warnings + errors) + 1
                && (ptr != 0 ==> errors == old(errors) + 1)
      ensures ptr != 0 && HeaderOf(ptr, align, word) in old(minors) ==>
                var h := HeaderOf(ptr, align, word);
                var m := old(minors)[h].block;
                && minors.Keys == old(minors.Keys) - {h} && SameHeaders(old(minors), minors, m)
                && inUse == old(inUse) - old(minors)[h].size
                && m in old(blocks) && m in old(majors)
                && (old(blocks)[m] == [h] ==>
                      m !in order && totalAllocated == old(totalAllocated) - old(majors)[m].size)
                && (old(blocks)[m] != [h] ==>
                      order == old(order) && bits == old(bits) && totalAllocated == old(totalAllocated))
      ensures forall q, b, g ::
                old(Handle(minors, offsets, q, b, g)) && (ptr == 0 || g != HeaderOf(ptr, align, word)) ==>
                Handle(minors, offsets, q, b, g)
    {
      hide StateOk, NoneEmpty, SameHeaders, Handle;
      if ptr == 0 {
        warnings := warnings + 1;
        return;
      }
      var p := ptr;
      if align > 1 {
        var diff := word;
        if diff < align + ALIGN_INFO { p := ptr - diff; }
      }
      var min := p - MINOR_HEADER;
      if min !in minors {
        errors := errors + 1;
        return;
      }
      FreeLive(min);
      forall q, b, g | old(Handle(minors, offsets, q, b, g)) && g != min
        ensures Handle(minors, offsets, q, b, g)
      {
        HandleStays(old(minors), minors, offsets, old(minors)[min].block, q, b, g);
      }
    }

    /** __na_malloc. NULL comes back exactly when no gap of any major fits and the page bitmap
        has no free run; a major is added only when no gap fits; every pointer handed out
        before stays good for free. */
    method Malloc(reqSize: nat, align: nat) returns (p: int, h: int)
      requires Valid() && PaddedSize(reqSize, align) > 0
      modifies this
      ensures Valid()
      ensures var need := reqSize + if align > 1 then align + 64 else 0;
              && (p != 0 <==> old(Space(need))) && (p == 0 ==> !Space(need))
              && GrewIfFull(old(majors), old(minors), old(order), old(blocks), old(bits), old(totalAllocated),
                            majors, order, bits, totalAllocated, p != 0, need)
              && TakesFew(old(bits), bits, need)
      ensures p == 0 ==>
                && majors == old(majors) && minors == old(minors) && offsets == old(offsets) && order == old(order)
                && blocks == old(blocks) && bits == old(bits) && inUse == old(inUse)
      ensures p != 0 ==> exists m :: NewHeader(old(minors), minors, m, h, PaddedSize(reqSize, align), reqSize)
      ensures p != 0 ==> inUse == old(inUse) + PaddedSize(reqSize, align) && Handle(minors, offsets, p, align, h)
      ensures SomeRoom(old(majors), old(minors), old(blocks), old(order), PaddedSize(reqSize, align)) ==>
                order == old(order) && bits == old(bits)
      ensures forall q, b, g :: old(Handle(minors, offsets, q, b, g)) ==> Handle(minors, offsets, q, b, g)
      ensures old(offsets.Keys) <= offsets.Keys
      ensures p == 0 ==> bytes == old(bytes)
      ensures p != 0 ==> h in minors && SameBut(old(bytes), bytes, p, reqSize)
      ensures p != 0 && !(minors[h].prev != 0 && minors[h].next == 0) ==> View(bytes, p, reqSize) == ZeroBytes(reqSize)
    {
      hide LayoutOk, PagesOk, PagesFor, HasRoom, SomeRoom, NoneEmpty, PlacedAt, TotalSize, TotalInUse;
      hide FirstRun, Handle, AlignUp, SameHeaders, SpaceIn, GrewIfFull, TakesFew, PagesTaken;
      var size := if align > 1 then reqSize + align + ALIGN_INFO else reqSize;
      ghost var m, k;
      var min;
      SpaceIsRoom(majors, minors, order, blocks, owner, bits, memRoot, bestBet, totalAllocated, inUse, size);
      min, m, k := Search(size, reqSize);
      GrewWhenFull(old(majors), old(minors), old(order), old(blocks), old(owner), old(bits), old(totalAllocated),
                   majors, order, blocks, bits, totalAllocated, m, min != 0, size);
      h := min;
      if min == 0 {
        SpaceIsRoom(majors, minors, order, blocks, owner, bits, memRoot, bestBet, totalAllocated, inUse, size);
        return 0, 0;
      }
      p := AlignUp(align, min + MINOR_HEADER);
      ghost var offsets0 := offsets;
      if align > 1 {
        offsets := offsets[p - ALIGN_INFO := p - (min + MINOR_HEADER)];
      }
      NewHandle(old(minors), minors, offsets0, m, min, reqSize, align);
      forall q, b, g | old(Handle(minors, offsets, q, b, g))
        ensures Handle(minors, offsets, q, b, g)
      {
        HandleKept(majors, old(minors), minors, order, blocks, owner, offsets0, m, min, size, reqSize, align, q, b, g);
      }
      // all cases but 4.1 clear the block
      if minors[min].prev == 0 || minors[min].next != 0 {
        StoredSameBut(bytes, bytes, p, reqSize, ZeroBytes(reqSize));
        bytes := Stored(bytes, p, ZeroBytes(reqSize));
      }
    }

    /** __na_malloc of nothing: with no alignment padding either, it becomes malloc(1). */
    method MallocAny(reqSize: nat, align: nat) returns (p: int, h: int)
      requires Valid()
      modifies this
      ensures Valid()
      ensures TakesFew(old(bits), bits, Need(reqSize, align)) && (p != 0 <==> old(Space(Need(reqSize, align))))
      ensures p == 0 ==> !Space(Need(reqSize, align)) && minors == old(minors) && offsets == old(offsets)
      ensures p != 0 ==> h !in old(minors) && minors.Keys == old(minors.Keys) + {h}
      ensures p != 0 ==>
                Handle(minors, offsets, p, if PaddedSize(reqSize, align) == 0 then DEFAULT_ALIGNMENT else align, h)
      ensures p != 0 ==> minors[h].reqSize == if PaddedSize(reqSize, align) == 0 then 1 else reqSize
      ensures forall q, b, g :: old(Handle(minors, offsets, q, b, g)) ==> Handle(minors, offsets, q, b, g)
      ensures old(offsets.Keys) <= offsets.Keys
      ensures p == 0 ==> bytes == old(bytes)
      ensures p != 0 ==> SameBut(old(bytes), bytes, p, minors[h].reqSize) && SameRequests(old(minors), minors)
    {
      hide StateOk, NoneEmpty, Handle, SomeRoom, FirstRun, SameBut;
      if PaddedSize(reqSize, align) == 0 {
        warnings := warnings + 1;
        p, h := Malloc(1, DEFAULT_ALIGNMENT);
      } else {
        p, h := Malloc(reqSize, align);
      }
    }

    /** na_realloc, with the words that memory holds in front of the pointer at the start and when
        the old block is freed. It shrinks in place, as far as req_size goes, and grows by way of
        malloc, memcpy and free, both with the default alignment. Without memory na_malloc brings
        the kernel down. The bytes of a block that is the client's own move along, and no others
        change. */
    method Realloc(align: nat, p: int, size: nat, word: nat, after: nat) returns (r: int, panicked: bool, h: int)
      requires Valid()
      modifies this
      ensures Valid()
      ensures size == 0 ==> r == 0 && !panicked && DefaultFreed(old(minors), minors, p, after)
      ensures size == 0 ==>
                forall q, b, g ::
                  old(Handle(minors, offsets, q, b, g)) && (p == 0 || g != HeaderOf(p, DEFAULT_ALIGNMENT, after)) ==>
                  Handle(minors, offsets, q, b, g)
      ensures size > 0 && p == 0 ==>
                && panicked == (r == 0) == !old(Space(size + 16 + 64))
                && (r != 0 ==>
                      && h !in old(minors) && minors.Keys == old(minors.Keys) + {h}
                      && Handle(minors, offsets, r, DEFAULT_ALIGNMENT, h) && minors[h].reqSize == size)
      ensures size > 0 && p == 0 ==>
                forall q, b, g :: old(Handle(minors, offsets, q, b, g)) ==> Handle(minors, offsets, q, b, g)
      ensures size > 0 && p != 0 && HeaderOf(p, align, word) !in old(minors) ==>
                r == 0 && !panicked && minors == old(minors) && inUse == old(inUse) && errors == old(errors) + 1
      ensures size > 0 && p != 0 && HeaderOf(p, align, word) in old(minors) ==>
                var g := HeaderOf(p, align, word);
                if old(minors)[g].reqSize >= size
                then
                  && r == p && !panicked && offsets == old(offsets) && bytes == old(bytes)
                  && minors == old(minors)[g := old(minors)[g].(reqSize := size)]
                else
                  && panicked == (r == 0) == !old(Space(size + 16 + 64))
                  && (r != 0 ==> NewNotHit(old(minors), old(offsets), p, after, h))
                  && (r != 0 ==>
                        && Moved(old(minors), old(offsets), minors, offsets, p, after, r, h, size)
                        && SameBut(old(bytes), bytes, r, size)
                        && (old(Handle(minors, offsets, p, align, g)) ==>
                              View(bytes, r, old(minors)[g].reqSize) == View(old(bytes), p, old(minors)[g].reqSize)))
      ensures SameRequestsBut(old(minors), minors, HeaderOf(p, align, word))
      ensures (size == 0 ==> SameRequests(old(minors), minors))
      ensures size == 0 || r == 0 ==> bytes == old(bytes)
      ensures panicked ==>
                && !Space(size + 16 + 64)
                && size > 0 && minors == old(minors) && offsets == old(offsets)
      ensures TakesFew(old(bits), bits, size + 16 + 64)
    {
      hide TakesFew, Falls, SpaceIn, PagesFor, Moved, NewNotHit, View, ByteAt;
      FallsAnyway(old(bits), size + 16 + 64);
      hide StateOk, NoneEmpty, Handle, SomeRoom, FirstRun, SameHeaders, NewHeader, SameBut;
      r, panicked, h := 0, false, 0;
      if size == 0 {
        Free(DEFAULT_ALIGNMENT, p, after);
        FreedRequests(old(minors), minors, HeaderOf(p, DEFAULT_ALIGNMENT, after));
        FallsTakesFew(old(bits), old(bits), bits, size + 16 + 64);
        return;
      }
      if p == 0 {
        r, h := MallocAny(size, DEFAULT_ALIGNMENT);
        panicked := r == 0;
        return;
      }
      var ptr := p;
      if align > 1 {
        var diff := word;
        if diff < align + ALIGN_INFO { ptr := p - diff; }
      }
      var min := ptr - MINOR_HEADER;
      if min !in minors {
        errors := errors + 1;
        return;
      }
      var realSize := minors[min].reqSize;
      if realSize >= size {
        NoteSize(min, size);
        return p, false, 0;
      }
      r, panicked, h := Grow(p, size, realSize, after);
    }

    /** A smaller size is noted, and that is all. */
    method NoteSize(min: int, size: nat)
      requires Valid() && min in minors
      modifies this`minors
      ensures Valid() && minors == old(minors)[min := old(minors)[min].(reqSize := size)]
    {
      hide StateOk, NoneEmpty;
      RelabelState(majors, minors, order, blocks, owner, bits, memRoot, bestBet, totalAllocated, inUse, min, size);
      minors := minors[min := minors[min].(reqSize := size)];
    }

    /** The end of na_realloc for a bigger size: a new block with the bytes of the old one, which is
        freed. */
    method Grow(p: int, size: nat, realSize: nat, after: nat) returns (r: int, panicked: bool, h: int)
      requires Valid() && p != 0 && realSize < size
      modifies this
      ensures Valid() && panicked == (r == 0) == !old(Space(size + 16 + 64))
      ensures r == 0 ==>
                !Space(size + 16 + 64) && minors == old(minors) && offsets == old(offsets)
      ensures r != 0 ==> NewNotHit(old(minors), old(offsets), p, after, h)
      ensures r != 0 ==> Moved(old(minors), old(offsets), minors, offsets, p, after, r, h, size)
      ensures SameRequests(old(minors), minors) && (r == 0 ==> bytes == old(bytes))
      ensures TakesFew(old(bits), bits, size + 16 + 64)
      ensures r != 0 ==> SameBut(old(bytes), bytes, r, size)
      ensures r != 0 ==> forall a, g :: old(Handle(minors, offsets, p, a, g)) && old(minors)[g].reqSize == realSize ==>
                           View(bytes, r, realSize) == View(old(bytes), p, realSize)
    {
      hide StateOk, NoneEmpty, Handle, SomeRoom, FirstRun, SameHeaders, NewHeader, SameBut, LayoutOk, Stored;
      hide TakesFew, Falls, SpaceIn, PagesFor;
      r, h := MallocAny(size, DEFAULT_ALIGNMENT);
      panicked := r == 0;
      if panicked { return; }
      ghost var mem1, offsets1, bits1 := minors, offsets, bits;
      ghost var mem0, offsets0, bytes0 := old(minors), old(offsets), old(bytes);
      assert forall q, a, g :: Handle(mem0, offsets0, q, a, g) ==> Handle(mem1, offsets1, q, a, g);
      StateLayout(majors, minors, order, blocks, owner, bits, memRoot, bestBet, totalAllocated, inUse);
      OldBytesKept(majors, mem1, order, blocks, owner, mem0, offsets0, offsets1, bytes0, bytes, p, realSize, r, size,
                   h);
      NewIsNotHit(majors, mem1, order, blocks, owner, mem0, offsets0, offsets1, p, after, h);
      ghost var bytes1 := bytes;
      bytes := Stored(bytes, r, View(bytes, p, realSize));
      StoredSameBut(bytes0, bytes1, r, size, View(bytes1, p, realSize));
      Free(DEFAULT_ALIGNMENT, p, after);
      FallsTakesFew(old(bits), bits1, bits, size + 16 + 64);
      ghost var b := HeaderOf(p, DEFAULT_ALIGNMENT, after);
      assert forall q, a, g :: Handle(mem1, offsets1, q, a, g) && g != b ==> Handle(minors, offsets, q, a, g);
      if b in mem1 {
        SameSizes(mem1, minors, mem1[b].block);
      }
      assert minors.Keys == mem0.Keys + {h} - {b};
    }

    /** Any run of na_malloc, na_free and na_realloc, each pointer freed with the alignment it was
        asked for (with that of malloc, if nothing was asked for), and of stores by the clients. It
        goes on until there is no memory or a realloc frees a block that is not its own. As long as
        it does, the live headers are those of the pointers out and of the blocks that realloc left
        behind; when there are none all pages are free; and every client sees what it would see in
        a buffer of its own. Nothing is left behind, and nothing else freed, without realloc, or
        if all is aligned to at most what malloc aligns to. */
    method Serve(ops: seq<HeapOp>)
      returns (fate: Fate, cs: seq<Client>, ghost hs: seq<int>, ghost leaked: set<int>, ghost trace: seq<Buffers>)
      requires Valid() && minors == map[]
      modifies this
      ensures Valid() && (fate != WrongFreed ==> Served(minors, offsets, cs, hs, leaked))
      ensures fate == Running && cs == [] && leaked == {} ==>
                order == [] && inUse == 0 && totalAllocated == 0 && forall p :: 0 <= p < HEAP_PAGES ==> !bits[p]
      ensures Careful(ops) ==> leaked == {} && fate != WrongFreed
      ensures 0 < |trace| <= |ops| + 1 && trace[0] == [] && (fate == Running <==> |trace| == |ops| + 1)
      ensures forall i :: 0 <= i < |trace| - 1 ==> TraceStep(trace, ops, i)
      ensures fate != WrongFreed ==> Seen(minors, bytes, cs, hs, trace[|trace| - 1])
      ensures fate == Panicked ==> AsksTooMuch(ops[|trace| - 1], trace[|trace| - 1])
      ensures PagesAsked(ops) <= 2048 ==> fate != Panicked
      ensures fate == WrongFreed ==>
                var op, d := ops[|trace| - 1], trace[|trace| - 1];
                && MayFreeWrong(op, cs) && op.k < |d|
                && WrongGone(minors, cs[op.k], hs, leaked, op.k, op.size, op.word, d)
    {
      hide LayoutOk, PagesOk, NoneEmpty, Handle, AlignUp, SomeRoom, FirstRun, SameHeaders, Served, StateOk;
      hide PrivateStep, Seen, SpaceIn, PagesFor, TakesAtMost, RoomLeft, TooMuch, PagesAsked, WrongGone;
      fate, cs, hs, leaked, trace := Running, [], [], {}, [[]];
      NobodyServed(minors, offsets, bytes);
      AllFreedAllReturned(majors, minors, order, blocks, owner, bits, memRoot, bestBet, totalAllocated, inUse);
      BitsSize(majors, minors, order, blocks, owner, bits, memRoot, bestBet, totalAllocated, inUse);
      RoomForAll(bits, ops);
      var n := 0;
      while n < |ops| && fate == Running
        invariant n <= |ops| && Valid() && (fate != WrongFreed ==> Served(minors, offsets, cs, hs, leaked))
        invariant Careful(ops) ==> leaked == {} && fate != WrongFreed
        invariant SmallAlignments(ops) ==> SmallClients(cs)
        invariant 0 < |trace| <= n + 1 && trace[0] == [] && (fate == Running <==> |trace| == n + 1)
        invariant forall i :: 0 <= i < |trace| - 1 ==> TraceStep(trace, ops, i)
        invariant fate != WrongFreed ==> Seen(minors, bytes, cs, hs, trace[|trace| - 1])
        invariant fate == Panicked ==> AsksTooMuch(ops[|trace| - 1], trace[|trace| - 1])
        invariant PagesAsked(ops) <= 2048 ==> fate != Panicked && (fate == Running ==> RoomLeft(bits, ops[n..]))
        invariant fate == WrongFreed ==>
                    var op, d := ops[|trace| - 1], trace[|trace| - 1];
                    && MayFreeWrong(op, cs) && op.k < |d|
                    && WrongGone(minors, cs[op.k], hs, leaked, op.k, op.size, op.word, d)
      {
        ghost var d := trace[n];
        ghost var bits0 := bits;
        if PagesAsked(ops) <= 2048 { RoomForNext(majors, minors, blocks, order, bits, ops, n, d); }
        fate, cs, hs, leaked, d := ServeOne(ops[n], cs, hs, leaked, d);
        if fate == Running {
          if PagesAsked(ops) <= 2048 { RoomAfter(bits0, bits, ops, n); }
          TraceMore(trace, ops, n, d);
          trace := trace + [d];
        }
        n := n + 1;
      }
      if fate == Running && cs == [] && leaked == {} {
        NobodyLeft(minors, offsets, cs, hs);
        AllFreedAllReturned(majors, minors, order, blocks, owner, bits, memRoot, bestBet, totalAllocated, inUse);
      }
      BitsSize(majors, minors, order, blocks, owner, bits, memRoot, bestBet, totalAllocated, inUse);
    }

    /** One operation of a client. */
    method ServeOne(op: HeapOp, cs: seq<Client>, ghost hs: seq<int>, ghost leaked: set<int>, ghost d: Buffers)
      returns (fate: Fate, cs': seq<Client>, ghost hs': seq<int>, ghost leaked': set<int>, ghost d': Buffers)
      requires Valid() && Served(minors, offsets, cs, hs, leaked) && Seen(minors, bytes, cs, hs, d)
      modifies this
      ensures Valid() && (fate != WrongFreed ==> Served(minors, offsets, cs', hs', leaked'))
      ensures !op.Resize? ==> leaked' == leaked && fate != WrongFreed
      ensures SmallClients(cs) && (op.Allocate? ==> 1 < op.align <= DEFAULT_ALIGNMENT) ==>
                SmallClients(cs') && leaked' == leaked && fate != WrongFreed
      ensures fate == Running ==> PrivateStep(d, op, d')
      ensures fate != Running ==> d' == d && cs' == cs && hs' == hs && leaked' == leaked
      ensures fate != WrongFreed ==> Seen(minors, bytes, cs', hs', d')
      ensures fate == Panicked ==> AsksTooMuch(op, d) && old(AsksTooMuch(op, d))
      ensures TakesAtMost(old(bits), bits, op)
      ensures fate == WrongFreed ==>
                && MayFreeWrong(op, cs) && op.k < |d|
                && WrongGone(minors, cs[op.k], hs, leaked, op.k, op.size, op.word, d)
    {
      hide LayoutOk, PagesOk, NoneEmpty, Handle, AlignUp, SomeRoom, FirstRun, SameHeaders, Served, StateOk;
      hide PrivateStep, Seen, TakesFew, SpaceIn, PagesFor, Falls, Need;
      fate, cs', hs', leaked', d' := Running, cs, hs, leaked, d;
      ServedSizes(minors, offsets, bytes, cs, hs, leaked, d);
      NothingFalls(bits);
      match op {
        case Allocate(reqSize, align) =>
          fate, cs', hs', d' := ServeMalloc(reqSize, align, cs, hs, leaked, d);
        case Release(k) =>
          if k < |cs| { cs', hs', d' := ServeFree(k, cs, hs, leaked, d); } else { StepOutside(d, op); }
        case Resize(k, size, word) =>
          if k < |cs| {
            fate, cs', hs', leaked', d' := ServeRealloc(k, size, word, cs, hs, leaked, d);
          } else {
            StepOutside(d, op);
            FallsAnyway(bits, size + 16 + 64);
          }
        case Store(k, off, b) =>
          if k < |cs| { d' := ServeStore(k, off, b, cs, hs, leaked, d); } else { StepOutside(d, op); }
      }
    }

    /** The operation asks for memory that there is neither a gap nor a run of pages for. */
    ghost predicate AsksTooMuch(op: HeapOp, d: Buffers)
      reads this
    {
      TooMuch(majors, minors, blocks, order, bits, op, d)
    }

    method ServeMalloc(reqSize: nat, align: nat, cs: seq<Client>, ghost hs: seq<int>, ghost leaked: set<int>,
                       ghost d: Buffers)
      returns (fate: Fate, cs': seq<Client>, ghost hs': seq<int>, ghost d': Buffers)
      requires Valid() && Served(minors, offsets, cs, hs, leaked) && Seen(minors, bytes, cs, hs, d)
      modifies this
      ensures Valid() && Served(minors, offsets, cs', hs', leaked) && fate != WrongFreed
      ensures fate == Panicked <==> !old(Space(Need(reqSize, align)))
      ensures fate == Panicked ==>
                !Space(Need(reqSize, align)) && cs' == cs && hs' == hs && d' == d && Seen(minors, bytes, cs, hs, d)
      ensures TakesFew(old(bits), bits, Need(reqSize, align))
      ensures 1 < align <= DEFAULT_ALIGNMENT && SmallClients(cs) ==> SmallClients(cs')
      ensures fate == Running ==> PrivateStep(d, Allocate(reqSize, align), d') && Seen(minors, bytes, cs', hs', d')
    {
      hide LayoutOk, PagesOk, NoneEmpty, Handle, AlignUp, SomeRoom, FirstRun, SameHeaders, Served, StateOk;
      hide SameBut, Seen, TakesFew, SpaceIn, PagesFor;
      fate, cs', hs', d' := Running, cs, hs, d;
      ghost var mem0, offsets0, bytes0 := minors, offsets, bytes;
      var p, h := MallocAny(reqSize, align);
      if p == 0 {
        fate := Panicked;
      } else {
        var c := Client(p, if PaddedSize(reqSize, align) == 0 then DEFAULT_ALIGNMENT else align);
        ServedOneMore(mem0, offsets0, cs, hs, leaked, minors, offsets, c, h);
        StateLayout(majors, minors, order, blocks, owner, bits, memRoot, bestBet, totalAllocated, inUse);
        SeenOneMore(majors, minors, order, blocks, owner, offsets, cs, hs, leaked, mem0, bytes0, bytes, d, c, h);
        cs', hs', d' := cs + [c], hs + [h], d + [View(bytes, p, minors[h].reqSize)];
      }
    }

    method ServeFree(k: nat, cs: seq<Client>, ghost hs: seq<int>, ghost leaked: set<int>, ghost d: Buffers)
      returns (cs': seq<Client>, ghost hs': seq<int>, ghost d': Buffers)
      requires Valid() && Served(minors, offsets, cs, hs, leaked) && k < |cs| && Seen(minors, bytes, cs, hs, d)
      modifies this
      ensures Valid() && Served(minors, offsets, cs', hs', leaked) && |hs| == |cs| && hs[k] !in minors
      ensures Falls(old(bits), bits)
      ensures SmallClients(cs) ==> SmallClients(cs')
      ensures |d| == |cs| && PrivateStep(d, HeapOp.Release(k), d') && Seen(minors, bytes, cs', hs', d')
    {
      hide LayoutOk, PagesOk, NoneEmpty, AlignUp, SomeRoom, FirstRun, SameHeaders, StateOk, PaddedSize;
      hide Handle, Served;
      ghost var mem0 := minors;
      ghost var h := ServedAt(minors, offsets, cs, hs, leaked, k);
      HandleAbove(minors, offsets, cs[k].p, cs[k].align, h);
      var word := if cs[k].align > 1 then offsets[cs[k].p - ALIGN_INFO] else 0;
      HandleFindsHeader(minors, offsets, cs[k].p, cs[k].align, h, word);
      Free(cs[k].align, cs[k].p, word);
      ServedOneLess(mem0, offsets, cs, hs, leaked, minors, offsets, k, h);
      FreedRequests(mem0, minors, h);
      SeenOneLess(mem0, minors, offsets, cs, hs, leaked, bytes, d, k);
      cs', hs', d' := cs[..k] + cs[k + 1..], hs[..k] + hs[k + 1..], d[..k] + d[k + 1..];
    }

    /** A client stores a byte in its block; beyond its end it must not. */
    method ServeStore(k: nat, off: nat, b: Byte, cs: seq<Client>, ghost hs: seq<int>, ghost leaked: set<int>,
                      ghost d: Buffers)
      returns (ghost d': Buffers)
      requires Valid() && Served(minors, offsets, cs, hs, leaked) && k < |cs| && Seen(minors, bytes, cs, hs, d)
      modifies this`bytes
      ensures Valid() && Served(minors, offsets, cs, hs, leaked)
      ensures |d| == |cs| && PrivateStep(d, Store(k, off, b), d') && Seen(minors, bytes, cs, hs, d')
    {
      hide LayoutOk, PagesOk, NoneEmpty, AlignUp, StateOk, Handle;
      ghost var g := ServedAt(minors, offsets, cs, hs, leaked, k);
      HandleAbove(minors, offsets, cs[k].p, cs[k].align, g);
      d' := d;
      assert SeenAt(minors, bytes, cs[k], hs[k], d[k]);
      var word := if cs[k].align > 1 then offsets[cs[k].p - ALIGN_INFO] else 0;
      HandleFindsHeader(minors, offsets, cs[k].p, cs[k].align, g, word);
      var h := HeaderOf(cs[k].p, cs[k].align, word);
      if off < minors[h].reqSize {
        StateLayout(majors, minors, order, blocks, owner, bits, memRoot, bestBet, totalAllocated, inUse);
        SeenStored(majors, minors, order, blocks, owner, offsets, cs, hs, leaked, bytes, d, k, off, b);
        bytes := bytes[cs[k].p + off := b];
        d' := d[k := WithByte(d[k], off, b)];
      }
    }

    /** na_realloc for a client: its pointer goes, moves or stays; the old block is gone, or left
        behind, or a block below it is freed instead. */
    method ServeRealloc(k: nat, size: nat, word: nat, cs: seq<Client>, ghost hs: seq<int>, ghost leaked: set<int>,
                        ghost d: Buffers)
      returns (fate: Fate, cs': seq<Client>, ghost hs': seq<int>, ghost leaked': set<int>, ghost d': Buffers)
      requires Valid() && Served(minors, offsets, cs, hs, leaked) && k < |cs| && Seen(minors, bytes, cs, hs, d)
      modifies this
      ensures Valid() && (fate == Running ==> Served(minors, offsets, cs', hs', leaked'))
      ensures fate == Running ==> leaked' == leaked || (|hs| == |cs| && leaked' == leaked + {hs[k]})
      ensures fate == Panicked <==> |d| == |cs| && size > |d[k]| && !old(Space(size + 16 + 64))
      ensures TakesFew(old(bits), bits, size + 16 + 64)
      ensures fate == Panicked ==>
                && !Space(size + 16 + 64) && cs' == cs && hs' == hs && leaked' == leaked && d' == d
                && Served(minors, offsets, cs, hs, leaked) && Seen(minors, bytes, cs, hs, d)
      ensures fate == WrongFreed ==>
                && cs' == cs && hs' == hs && leaked' == leaked && d' == d
                && |d| == |cs| && MayFreeWrong(Resize(k, size, word), cs)
                && WrongGone(minors, cs[k], hs, leaked, k, size, word, d)
      ensures SmallClients(cs) ==> SmallClients(cs') && leaked' == leaked && fate != WrongFreed
      ensures fate == Running ==> PrivateStep(d, Resize(k, size, word), d') && Seen(minors, bytes, cs', hs', d')
    {
      hide LayoutOk, PagesOk, NoneEmpty, AlignUp, SomeRoom, FirstRun, SameHeaders, StateOk, PaddedSize;
      hide Served, Handle, Seen, SameBut, TakesFew, SpaceIn, PagesFor;
      fate, cs', hs', leaked', d' := Running, cs, hs, leaked, d;
      ghost var offsets0, bytes0 := offsets, bytes;
      ghost var g := ServedAt(minors, offsets, cs, hs, leaked, k);
      SeenHere(minors, bytes, cs, hs, d, k);
      var c, before := cs[k], minors;
      HandleAbove(minors, offsets, c.p, c.align, g);
      var front := if c.align > 1 then offsets[c.p - ALIGN_INFO] else word;
      HandleFindsHeader(minors, offsets, c.p, c.align, g, front);
      SmallAlignFrees(minors, offsets, c.p, c.align, g, front);
      var own, found := HeaderOf(c.p, c.align, front), HeaderOf(c.p, DEFAULT_ALIGNMENT, front);
      StateLayout(majors, minors, order, blocks, owner, bits, memRoot, bestBet, totalAllocated, inUse);
      ReallocFreesOld(majors, minors, order, blocks, owner, offsets, c.p, c.align, g, front);
      var r, panicked, h := Realloc(c.align, c.p, size, front, front);
      if panicked { return Panicked, cs, hs, leaked, d; }
      if size > 0 && before[own].reqSize >= size {
        ServedRelabelled(before, offsets, cs, hs, leaked, own, size);
        SeenRelabelled(before, offsets, bytes, cs, hs, leaked, d, k, size);
        d' := d[k := d[k][..size]];
        return;
      }
      if found != own && (found in before || (size > 0 && found == h)) {
        assert front == word;
        IsWrongGone(before, minors, offsets0, cs, hs, leaked, k, size, word, d, h);
        return WrongFreed, cs, hs, leaked, d;
      }
      if size == 0 {
        ServedOneLess(before, offsets0, cs, hs, leaked, minors, offsets, k, found);
        leaked' := if found == own then leaked else leaked + {g};
        SeenOneLess(before, minors, offsets, cs, hs, leaked', bytes, d, k);
        cs', hs', d' := cs[..k] + cs[k + 1..], hs[..k] + hs[k + 1..], d[..k] + d[k + 1..];
      } else {
        var c' := Client(r, DEFAULT_ALIGNMENT);
        ServedReplaced(before, offsets0, cs, hs, leaked, minors, offsets, k, found, c', h);
        leaked' := if found == own then leaked else leaked + {g};
        ServedDistinct(before, offsets0, cs, hs, leaked);
        StateLayout(majors, minors, order, blocks, owner, bits, memRoot, bestBet, totalAllocated, inUse);
        SeenReplaced(majors, minors, order, blocks, owner, offsets, cs, hs, leaked', before, bytes0, bytes, d, k, c',
                     h);
        ViewPrefix(bytes, r, before[own].reqSize, size);
        cs', hs', d' := cs[k := c'], hs[k := h], d[k := View(bytes, r, size)];
      }
    }
  }

  /** Pages enough for every request of a run, were each to have its own and none to come back. */
  function PagesAsked(ops: seq<HeapOp>): nat {
    if ops == [] then 0 else PagesOf(ops[0]) + PagesAsked(ops[1..])
  }

  function PagesOf(op: HeapOp): nat {
    match op
    case Allocate(reqSize, align) => Fewest(Need(reqSize, align))
    case Resize(_, size, _) => Fewest(size + 16 + 64)
    case _ => 0
  }

  ghost predicate TakesAtMost(bits: seq<bool>, bits': seq<bool>, op: HeapOp) {
    match op
    case Allocate(reqSize, align) => TakesFew(bits, bits', Need(reqSize, align))
    case Resize(_, size, _) => TakesFew(bits, bits', size + 16 + 64)
    case _ => Falls(bits, bits')
  }

  lemma NothingFalls(bits: seq<bool>)
    ensures Falls(bits, bits)
  {
  }

  predicate RoomLeft(bits: seq<bool>, ops: seq<HeapOp>) {
    PagesAsked(ops) <= 2048 && ClearFrom(bits, 2048 - PagesAsked(ops))
  }

  lemma RoomForAll(bits: seq<bool>, ops: seq<HeapOp>)
    requires |bits| == HEAP_PAGES && forall p :: 0 <= p < HEAP_PAGES ==> !bits[p]
    ensures PagesAsked(ops) <= 2048 ==> RoomLeft(bits, ops[0..])
  {
    assert ops[0..] == ops;
  }

  /** The operation asks for memory that there is neither a gap nor a run of pages for. */
  ghost predicate TooMuch(majors: MajorMem, mem: MinorMem, blocks: Blocks, order: seq<int>, bits: seq<bool>,
                          op: HeapOp, d: Buffers)
  {
    match op
    case Allocate(reqSize, align) => !SpaceIn(majors, mem, blocks, order, bits, Need(reqSize, align))
    case Resize(k, size, _) =>
      k < |d| && size > |d[k]| && !SpaceIn(majors, mem, blocks, order, bits, size + 16 + 64)
    case _ => false
  }

  lemma RoomForNext(majors: MajorMem, mem: MinorMem, blocks: Blocks, order: seq<int>, bits: seq<bool>,
                    ops: seq<HeapOp>, n: nat, d: Buffers)
    requires n < |ops| && RoomLeft(bits, ops[n..])
    ensures !TooMuch(majors, mem, blocks, order, bits, ops[n], d)
  {
    hide SomePages, SomeWide, Fewest, Need;
    match ops[n] {
      case Allocate(reqSize, align) => FewAreThere(bits, Need(reqSize, align), 2048 - PagesAsked(ops[n..]));
      case Resize(_, size, _) => FewAreThere(bits, size + 16 + 64, 2048 - PagesAsked(ops[n..]));
      case _ =>
    }
  }

  lemma RoomAfter(bits: seq<bool>, bits': seq<bool>, ops: seq<HeapOp>, n: nat)
    requires n < |ops| && RoomLeft(bits, ops[n..])
    requires TakesAtMost(bits, bits', ops[n])
    ensures RoomLeft(bits', ops[n + 1..])
  {
    hide Fewest, Need;
    assert ops[n..][1..] == ops[n + 1..];
    var w := 2048 - PagesAsked(ops[n..]);
    assert w + PagesOf(ops[n]) == 2048 - PagesAsked(ops[n + 1..]);
  }

  /** Whether a run of clients goes on. */
  datatype Fate = Running | Panicked | WrongFreed

  /** word stands for what memory holds in front of a pointer that was not aligned. */
  datatype HeapOp =
    | Allocate(reqSize: nat, align: nat)
    | Release(k: nat)
    | Resize(k: nat, size: nat, word: nat)
    | Store(k: nat, off: nat, b: Byte)

  predicate SmallAlignments(ops: seq<HeapOp>) {
    forall i :: 0 <= i < |ops| && ops[i].Allocate? ==> 1 < ops[i].align <= DEFAULT_ALIGNMENT
  }

  predicate Careful(ops: seq<HeapOp>) {
    SmallAlignments(ops) || forall i :: 0 <= i < |ops| ==> !ops[i].Resize?
  }

  /** A realloc of a block that was not aligned, with a small word in front of it. */
  predicate MayFreeWrong(op: HeapOp, cs: seq<Client>) {
    op.Resize? && op.k < |cs| && cs[op.k].align <= 1 && 0 < op.word < DEFAULT_ALIGNMENT + ALIGN_INFO
  }

  /** The client's own block is still there; the one that the default free found instead is gone: that
      of another client, one left behind, or the new one. */
  ghost predicate WrongGone(mem: MinorMem, c: Client, hs: seq<int>, leaked: set<int>, k: nat, size: nat, word: nat,
                            d: Buffers)
    requires k < |d|
  {
    var found := HeaderOf(c.p, DEFAULT_ALIGNMENT, word);
    && k < |hs| && hs[k] in mem && found != hs[k] && found !in mem
    && (found in hs || found in leaked || size > |d[k]|)
  }

  lemma IsWrongGone(mem0: MinorMem, mem: MinorMem, offsets: map<int, nat>, cs: seq<Client>, hs: seq<int>,
                    leaked: set<int>,
                    k: nat, size: nat, word: nat, d: Buffers, h: int)
    requires Served(mem0, offsets, cs, hs, leaked) && k < |cs| == |d|
    requires var found := HeaderOf(cs[k].p, DEFAULT_ALIGNMENT, word);
             && found != hs[k] && (found in mem0 || (size > |d[k]| && found == h))
             && mem.Keys == if size > |d[k]| then mem0.Keys + {h} - {found} else mem0.Keys - {found}
    ensures WrongGone(mem, cs[k], hs, leaked, k, size, word, d)
  {
    hide Handle, HeaderOf;
    assert hs[k] in mem0;
  }

  predicate SmallClients(cs: seq<Client>) {
    forall i :: 0 <= i < |cs| ==> 1 < cs[i].align <= DEFAULT_ALIGNMENT
  }

  /** The old block is gone as far as the default free found it, the new one is there unless
      that free hit it, and all others stay. */
  ghost predicate Moved(mem0: MinorMem, offsets0: map<int, nat>, mem: MinorMem, offsets: map<int, nat>,
                        p: int, word: nat, r: int, h: int, size: nat)
  {
    var b := HeaderOf(p, DEFAULT_ALIGNMENT, word);
    && h !in mem0 && mem.Keys == mem0.Keys + {h} - {b}
    && (b != h ==> Handle(mem, offsets, r, DEFAULT_ALIGNMENT, h) && mem[h].reqSize == size)
    && forall q, a, g :: Handle(mem0, offsets0, q, a, g) && g != b ==> Handle(mem, offsets, q, a, g)
  }

  /** free(p): what the default alignment finds is gone. */
  ghost predicate DefaultFreed(mem0: MinorMem, mem: MinorMem, p: int, word: nat) {
    mem.Keys == if p == 0 then mem0.Keys else mem0.Keys - {HeaderOf(p, DEFAULT_ALIGNMENT, word)}
  }

  /** Blocks that stay keep their requested sizes. */
  ghost predicate SameRequests(mem: MinorMem, mem': MinorMem) {
    forall a :: a in mem && a in mem' ==> mem'[a].reqSize == mem[a].reqSize
  }

  ghost predicate SameRequestsBut(mem: MinorMem, mem': MinorMem, h: int) {
    forall a :: a in mem && a in mem' && a != h ==> mem'[a].reqSize == mem[a].reqSize
  }

  /** The bytes of an old block are not touched by making a new one. */
  lemma OldBytesKept(majors: MajorMem, mem: MinorMem, order: seq<int>, blocks: Blocks, owner: seq<int>,
                     mem0: MinorMem, offsets0: map<int, nat>, offsets: map<int, nat>,
                     bytes0: map<int, Byte>, bytes: map<int, Byte>, p: int, realSize: nat, r: int, size: nat, h: int)
    requires LayoutOk(majors, mem, order, blocks, owner) && h in mem && h !in mem0 && mem[h].reqSize == size
    requires Handle(mem, offsets, r, DEFAULT_ALIGNMENT, h) && SameBut(bytes0, bytes, r, size) && SameRequests(mem0, mem)
    requires forall q, a, g :: Handle(mem0, offsets0, q, a, g) ==> Handle(mem, offsets, q, a, g)
    ensures forall a, g :: Handle(mem0, offsets0, p, a, g) && mem0[g].reqSize == realSize ==>
              View(bytes, p, realSize) == View(bytes0, p, realSize)
  {
    hide LayoutOk, SameBut, AlignUp;
    forall a, g | Handle(mem0, offsets0, p, a, g) && mem0[g].reqSize == realSize
      ensures View(bytes, p, realSize) == View(bytes0, p, realSize)
    {
      HandlesApart(majors, mem, order, blocks, owner, offsets, p, a, g, r, DEFAULT_ALIGNMENT, h);
      ViewKept(bytes0, bytes, r, size, p, realSize);
    }
  }

  /** The default free for p does not hit the new block h, unless p was not aligned and the word in
      front of it is small. */
  ghost predicate NewNotHit(mem0: MinorMem, offsets0: map<int, nat>, p: int, word: nat, h: int) {
    forall a, g :: Handle(mem0, offsets0, p, a, g) && WordInFront(offsets0, p, a, word)
                   && HeaderOf(p, DEFAULT_ALIGNMENT, word) == h ==>
      a <= 1 && 0 < word < DEFAULT_ALIGNMENT + ALIGN_INFO
  }

  lemma NewIsNotHit(majors: MajorMem, mem: MinorMem, order: seq<int>, blocks: Blocks, owner: seq<int>,
                    mem0: MinorMem, offsets0: map<int, nat>, offsets: map<int, nat>, p: int, word: nat, h: int)
    requires LayoutOk(majors, mem, order, blocks, owner) && h in mem && h !in mem0
    requires forall q, a, g :: Handle(mem0, offsets0, q, a, g) ==> Handle(mem, offsets, q, a, g)
    ensures NewNotHit(mem0, offsets0, p, word, h)
  {
    hide LayoutOk, AlignUp;
    forall a, g | Handle(mem0, offsets0, p, a, g) && WordInFront(offsets0, p, a, word)
                  && HeaderOf(p, DEFAULT_ALIGNMENT, word) == h
      ensures a <= 1 && 0 < word < DEFAULT_ALIGNMENT + ALIGN_INFO
    {
      assert Handle(mem, offsets, p, a, g);
      ReallocFreesOld(majors, mem, order, blocks, owner, offsets, p, a, g, word);
    }
  }

  lemma FreedRequests(mem: MinorMem, mem': MinorMem, h: int)
    requires mem' == mem || (h in mem && SameHeaders(mem, mem', mem[h].block))
    ensures SameRequests(mem, mem')
  {
  }

  lemma StoredSameBut(bytes0: map<int, Byte>, bytes: map<int, Byte>, p: int, n: nat, data: seq<Byte>)
    requires SameBut(bytes0, bytes, p, n) && |data| <= n
    ensures SameBut(bytes0, Stored(bytes, p, data), p, n) && View(Stored(bytes, p, data), p, |data|) == data
  {
    forall a
      ensures ByteAt(Stored(bytes, p, data), a) == if p <= a < p + |data| then data[a - p] else ByteAt(bytes, a)
    {
      StoredAt(bytes, p, data, a);
    }
  }

  lemma SameSizes(mem: MinorMem, mem': MinorMem, m: int)
    requires SameHeaders(mem, mem', m)
    ensures forall a :: a in mem && a in mem' ==> mem'[a].reqSize == mem[a].reqSize
  {
  }

  lemma HandleAbove(mem: MinorMem, offsets: map<int, nat>, p: int, align: nat, h: int)
    requires Handle(mem, offsets, p, align, h)
    ensures h in mem && p > 0 && (align > 1 ==> p - ALIGN_INFO in offsets)
  {
  }

  lemma SmallAlignFrees(mem: MinorMem, offsets: map<int, nat>, p: int, align: nat, h: int, word: nat)
    requires Handle(mem, offsets, p, align, h) && WordInFront(offsets, p, align, word)
    ensures 1 < align <= DEFAULT_ALIGNMENT ==> HeaderOf(p, DEFAULT_ALIGNMENT, word) == h
  {
    if align > 1 { AlignStep(align, h + MINOR_HEADER); }
  }

  lemma ServedAt(mem: MinorMem, offsets: map<int, nat>, cs: seq<Client>, hs: seq<int>, leaked: set<int>,
                 k: nat) returns (h: int)
    requires Served(mem, offsets, cs, hs, leaked) && k < |cs|
    ensures |hs| == |cs| && h == hs[k] && Handle(mem, offsets, cs[k].p, cs[k].align, h)
  {
    h := hs[k];
  }

  /** Noting a smaller size for a block leaves all pointers good. */
  lemma ServedRelabelled(mem: MinorMem, offsets: map<int, nat>, cs: seq<Client>, hs: seq<int>, leaked: set<int>, h: int,
                         size: nat)
    requires Served(mem, offsets, cs, hs, leaked) && h in mem && mem[h].reqSize >= size
    ensures Served(mem[h := mem[h].(reqSize := size)], offsets, cs, hs, leaked)
  {
    hide AlignUp;
    var mem' := mem[h := mem[h].(reqSize := size)];
    forall i | 0 <= i < |cs|
      ensures Handle(mem', offsets, cs[i].p, cs[i].align, hs[i])
    {
      assert Handle(mem, offsets, cs[i].p, cs[i].align, hs[i]);
    }
  }

  lemma NobodyServed(mem: MinorMem, offsets: map<int, nat>, bytes: map<int, Byte>)
    requires mem == map[]
    ensures Served(mem, offsets, [], [], {}) && Seen(mem, bytes, [], [], [])
  {
  }

  ghost predicate TraceStep(trace: seq<Buffers>, ops: seq<HeapOp>, i: nat) {
    i + 1 < |trace| && i < |ops| && PrivateStep(trace[i], ops[i], trace[i + 1])
  }

  lemma TraceMore(trace: seq<Buffers>, ops: seq<HeapOp>, n: nat, d: Buffers)
    requires |trace| == n + 1 && n < |ops| && PrivateStep(trace[n], ops[n], d)
    requires forall i :: 0 <= i < n ==> TraceStep(trace, ops, i)
    ensures forall i :: 0 <= i < n + 1 ==> TraceStep(trace + [d], ops, i)
  {
    hide PrivateStep;
    forall i | 0 <= i < n + 1
      ensures TraceStep(trace + [d], ops, i)
    {
      if i < n { assert TraceStep(trace, ops, i); }
    }
  }

  /** An operation on a client there is not. */
  lemma StepOutside(d: Buffers, op: HeapOp)
    requires !op.Allocate? && op.k >= |d|
    ensures PrivateStep(d, op, d)
  {
  }

  lemma ServedSizes(mem: MinorMem, offsets: map<int, nat>, bytes: map<int, Byte>, cs: seq<Client>, hs: seq<int>,
                    leaked: set<int>, d: Buffers)
    requires Served(mem, offsets, cs, hs, leaked) && Seen(mem, bytes, cs, hs, d)
    ensures |d| == |cs| == |hs|
  {
  }

  lemma ServedDistinct(mem: MinorMem, offsets: map<int, nat>, cs: seq<Client>, hs: seq<int>, leaked: set<int>)
    requires Served(mem, offsets, cs, hs, leaked)
    ensures |cs| == |hs| && forall i, j :: 0 <= i < j < |hs| ==> hs[i] != hs[j]
  {
  }

  lemma SeenHere(mem: MinorMem, bytes: map<int, Byte>, cs: seq<Client>, hs: seq<int>, d: Buffers, k: nat)
    requires Seen(mem, bytes, cs, hs, d) && k < |cs|
    ensures |d| == |cs| == |hs| && hs[k] in mem && d[k] == View(bytes, cs[k].p, mem[hs[k]].reqSize)
  {
    assert SeenAt(mem, bytes, cs[k], hs[k], d[k]);
  }

  lemma ViewPrefix(bytes: map<int, Byte>, p: int, n: nat, m: nat)
    requires n <= m
    ensures View(bytes, p, m)[..n] == View(bytes, p, n)
  {
  }

  lemma NobodyLeft(mem: MinorMem, offsets: map<int, nat>, cs: seq<Client>, hs: seq<int>)
    requires Served(mem, offsets, cs, hs, {}) && cs == []
    ensures mem == map[]
  {
    assert hs == [];
    assert forall a :: a !in mem;
  }

  lemma BitsSize(majors: MajorMem, mem: MinorMem, order: seq<int>, blocks: Blocks, owner: seq<int>, bits: seq<bool>,
                 memRoot: int, bestBet: int, totalAllocated: nat, inUse: nat)
    requires StateOk(majors, mem, order, blocks, owner, bits, memRoot, bestBet, totalAllocated, inUse)
    ensures |bits| == HEAP_PAGES
  {
  }
}
