/** The memory areas of a task: a list ordered by start address, whose areas are filled page by
    page when they are first touched. */
module Vma {
  import opened Common
  import opened Ordering

  /** The part of a file that an area shows: length bytes from offset on. */
  datatype Mapping = Mapping(file: seq<Byte>, offset: nat, length: nat)

  datatype Area = Area(start: nat, end: nat, mapping: Option<Mapping>, reserved: bool, writeable: bool)

  /** vm_area_less */
  predicate AreaLess(a: Area, b: Area) { a.start < b.start }

  /** vm_area_check_overlap */
  predicate CheckOverlap(a: Area, b: Area) { a.end > b.start }

  predicate Disjoint(a: Area, b: Area) { a.end <= b.start || b.end <= a.start }

  /** The areas are not empty, in order, and apart. */
  ghost predicate AreasOk(xs: seq<Area>) {
    && (forall i :: 0 <= i < |xs| ==> xs[i].start < xs[i].end)
    && forall i, j :: 0 <= i < j < |xs| ==> xs[i].end <= xs[j].start
  }

  /** vm_area_overlaps: the area at k is compared with its two neighbours only. */
  predicate OverlapsNeighbours(xs: seq<Area>, k: nat)
    requires k < |xs|
  {
    || (k > 0 && CheckOverlap(xs[k - 1], xs[k]))
    || (k + 1 < |xs| && CheckOverlap(xs[k], xs[k + 1]))
  }

  function Inserted(xs: seq<Area>, k: nat, a: Area): seq<Area>
    requires k <= |xs|
  {
    xs[..k] + [a] + xs[k..]
  }

  /** The neighbours decide: where the order puts a, it overlaps a neighbour just when it is not
      disjoint from all. */
  lemma NeighboursDecide(xs: seq<Area>, a: Area)
    requires AreasOk(xs) && a.start < a.end
    ensures var k := OrderedPos(AreaLess, xs, a);
            OverlapsNeighbours(Inserted(xs, k, a), k) <==> exists i :: 0 <= i < |xs| && !Disjoint(xs[i], a)
  {
    hide OrderedPos, AreasOk, Inserted;
    var k := OrderedPos(AreaLess, xs, a);
    InsertedIs(xs, k, a);
    NotEmpty(xs);
    if k > 0 && CheckOverlap(xs[k - 1], a) {
      assert !Disjoint(xs[k - 1], a);
    }
    if k < |xs| && CheckOverlap(a, xs[k]) {
      assert !Disjoint(xs[k], a);
    }
    forall i | 0 <= i < |xs| && !Disjoint(xs[i], a)
      ensures OverlapsNeighbours(Inserted(xs, k, a), k)
    {
      if i < k { InOrder(xs, i, k - 1); } else { InOrder(xs, k, i); }
    }
  }

  lemma NotEmpty(xs: seq<Area>)
    requires AreasOk(xs)
    ensures forall i :: 0 <= i < |xs| ==> xs[i].start < xs[i].end
  {
  }

  lemma InsertedOk(xs: seq<Area>, a: Area)
    requires AreasOk(xs) && a.start < a.end && forall i :: 0 <= i < |xs| ==> Disjoint(xs[i], a)
    ensures AreasOk(Inserted(xs, OrderedPos(AreaLess, xs, a), a))
  {
    hide OrderedPos, Inserted;
    var k := OrderedPos(AreaLess, xs, a);
    AfterPlace(xs, a);
    forall i: nat, j: nat | i < j <= |xs|
      ensures At(xs, k, a, i).end <= At(xs, k, a, j).start
    {
      if i != k && j != k {
        InOrder(xs, if i < k then i else i - 1, if j < k then j else j - 1);
      }
    }
    InsertedIs(xs, k, a);
  }

  lemma AfterPlace(xs: seq<Area>, a: Area)
    requires AreasOk(xs) && a.start < a.end && forall i :: 0 <= i < |xs| ==> Disjoint(xs[i], a)
    ensures var k := OrderedPos(AreaLess, xs, a);
            (forall i :: 0 <= i < k ==> xs[i].end <= a.start) && forall i :: k <= i < |xs| ==> a.end <= xs[i].start
  {
    hide OrderedPos;
    var k := OrderedPos(AreaLess, xs, a);
    forall i | k <= i < |xs|
      ensures a.start < xs[i].start
    {
      InOrder(xs, k, i);
    }
  }

  /** Area i once a is at k. */
  function At(xs: seq<Area>, k: nat, a: Area, i: nat): Area
    requires k <= |xs| && i <= |xs|
  {
    if i < k then xs[i] else if i == k then a else xs[i - 1]
  }

  lemma InsertedIs(xs: seq<Area>, k: nat, a: Area)
    requires k <= |xs|
    ensures |Inserted(xs, k, a)| == |xs| + 1 && forall i: nat :: i <= |xs| ==> Inserted(xs, k, a)[i] == At(xs, k, a, i)
  {
  }

  /** The area that holds addr: there is at most one. */
  ghost predicate Holds(xs: seq<Area>, i: int, addr: nat) {
    0 <= i < |xs| && xs[i].start <= addr < xs[i].end
  }

  lemma OneHolder(xs: seq<Area>, i: int, j: int, addr: nat)
    requires AreasOk(xs) && Holds(xs, i, addr) && Holds(xs, j, addr)
    ensures i == j
  {
    InOrder(xs, i, j);
    InOrder(xs, j, i);
  }

  lemma InOrder(xs: seq<Area>, i: nat, j: nat)
    requires AreasOk(xs) && i < |xs| && j < |xs|
    ensures i < j ==> xs[i].end <= xs[j].start
  {
  }

  // ----- free regions

  /** The room between area i and the next. */
  function GapAfter(xs: seq<Area>, i: nat): int
    requires i + 1 < |xs|
  {
    xs[i + 1].start - xs[i].end
  }

  /** The first gap of more than len bytes between two areas; neither the room below the first
      area nor above the last is looked at. */
  function FirstGap(xs: seq<Area>, i: nat, len: nat): (r: Option<nat>)
    requires i <= |xs|
    ensures r.Some? ==>
              && i <= r.value && r.value + 1 < |xs| && GapAfter(xs, r.value) > len
              && forall j: nat :: i <= j < r.value ==> GapAfter(xs, j) <= len
    ensures r.None? ==> forall j: nat :: i <= j && j + 1 < |xs| ==> GapAfter(xs, j) <= len
    decreases |xs| - i
  {
    if i + 1 >= |xs| then None
    else if GapAfter(xs, i) > len then Some(i)
    else FirstGap(xs, i + 1, len)
  }

  lemma GapIsFree(xs: seq<Area>, i: nat, len: nat)
    requires AreasOk(xs) && i + 1 < |xs| && GapAfter(xs, i) > len
    ensures forall j :: 0 <= j < |xs| ==> xs[j].end <= xs[i].end || xs[i].end + len < xs[j].start
  {
    forall j | 0 <= j < |xs|
      ensures xs[j].end <= xs[i].end || xs[i].end + len < xs[j].start
    {
      if j < i { assert xs[j].end <= xs[i].start; }
      if j > i + 1 { assert xs[i + 1].end <= xs[j].start; }
    }
  }

  // ----- what a page shows

  function RoundDown(a: nat): (r: nat)
    ensures r % 4096 == 0 && r <= a < r + 4096
  {
    a / PAGE_BYTES * PAGE_BYTES
  }

  function RoundUp(a: nat): (r: nat)
    ensures r % 4096 == 0 && a <= r < a + 4096
  {
    (a + PAGE_BYTES - 1) / PAGE_BYTES * PAGE_BYTES
  }

  function ZeroPage(): (p: seq<Byte>)
    ensures |p| == PAGE_BYTES
  {
    seq(PAGE_BYTES, _ => 0)
  }

  /** Byte k of an area: of the file where the mapping and the file reach, zero beyond. */
  function AreaByte(m: Option<Mapping>, k: nat): Byte {
    if m.Some? && k < m.value.length && m.value.offset + k < |m.value.file| then m.value.file[m.value.offset + k] else 0
  }

  /** The page at addr. */
  function PageImage(a: Area, addr: nat): (p: seq<Byte>)
    requires a.start <= addr
    ensures |p| == PAGE_BYTES && forall j :: 0 <= j < PAGE_BYTES ==> p[j] == AreaByte(a.mapping, addr - a.start + j)
  {
    seq<Byte>(PAGE_BYTES, j requires 0 <= j < PAGE_BYTES => AreaByte(a.mapping, addr - a.start + j))
  }

  /** file_seek and read: what is there, up to n bytes. */
  function FileRead(file: seq<Byte>, pos: nat, n: nat): (r: seq<Byte>)
    ensures |r| <= n
  {
    if pos >= |file| then []
    else if pos + n > |file| then file[pos..]
    else file[pos..pos + n]
  }

  /** mapping_load: a zeroed page with up to maxLen bytes of the file on it. */
  method MappingLoad(file: seq<Byte>, offset: nat, maxLen: nat) returns (page: seq<Byte>)
    requires maxLen <= PAGE_BYTES
    ensures |page| == PAGE_BYTES
    ensures forall j :: 0 <= j < PAGE_BYTES ==>
              page[j] == if j < maxLen && offset + j < |file| then file[offset + j] else 0
  {
    page := ZeroPage();
    if maxLen != 0 {
      var r := FileRead(file, offset, maxLen);
      page := r + page[|r|..];
    }
  }

  /** The page at addr lies, in the file, at or beyond the end of the mapping, rounded up. */
  predicate BeyondMapping(m: Mapping, k: nat) {
    m.offset + k >= RoundUp(m.offset + m.length)
  }

  /** Where vma_load has the page at addr from. */
  function FillOf(a: Area, addr: nat): Fill
    requires a.start <= addr
  {
    if a.mapping.Some? && !BeyondMapping(a.mapping.value, addr - a.start) then FromFile(a.writeable) else ZeroFill
  }

  /** A page that does not come from the file holds zeros. */
  lemma ZeroFilled(a: Area, addr: nat)
    requires a.start <= addr && FillOf(a, addr).ZeroFill?
    ensures PageImage(a, addr) == ZeroPage()
  {
  }

  /** vma_load: the bytes of the page at addr, and whether mapping_load brings them, which drops the
      write right if the area is not writeable. */
  method Load(a: Area, addr: nat) returns (page: seq<Byte>, fill: Fill)
    requires a.start <= addr < a.end && addr % PAGE_BYTES == 0
    ensures page == PageImage(a, addr) && fill == FillOf(a, addr)
    ensures |page| == 4096 && forall j :: 0 <= j < 4096 ==>
              var k := addr - a.start + j;
              page[j] == match a.mapping
                         case None => 0
                         case Some(m) =>
                           if k < m.length && k < |m.file| - m.offset then m.file[m.offset + k] else 0
    ensures fill == match a.mapping
                    case None => ZeroFill
                    case Some(m) =>
                      if m.offset + (addr - a.start) < (m.offset + m.length + 4095) / 4096 * 4096
                      then FromFile(a.writeable) else ZeroFill
  {
    var offset := addr - a.start;
    if a.mapping.Some? {
      var m := a.mapping.value;
      var mapBegin, mapEnd := m.offset + offset, m.offset + m.length;
      if mapBegin < RoundUp(mapEnd) {
        var readBytes := m.length;
        var maxLen := readBytes - offset;
        if maxLen < 0 {
          maxLen := 0;
        } else if maxLen > 0x1000 {
          maxLen := 0x1000;
        }
        page := MappingLoad(m.file, mapBegin, maxLen);
        fill := FromFile(a.writeable);
        return;
      }
    }
    page, fill := ZeroPage(), ZeroFill;
  }

  // ----- page faults

  /** A fault looks up the address rounded down to a page. That finds the area holding the
      address wherever in the area it is, exactly if the area starts on a page. */
  lemma FaultFindsArea(xs: seq<Area>, i: nat)
    requires AreasOk(xs) && i < |xs|
    ensures xs[i].start % PAGE_BYTES == 0 <==> forall addr: nat :: Holds(xs, i, addr) ==> Holds(xs, i, RoundDown(addr))
  {
    if xs[i].start % PAGE_BYTES != 0 {
      assert Holds(xs, i, xs[i].start) && !Holds(xs, i, RoundDown(xs[i].start));
    } else {
      forall addr: nat | Holds(xs, i, addr)
        ensures Holds(xs, i, RoundDown(addr))
      {
        assert xs[i].start / PAGE_BYTES <= addr / PAGE_BYTES;
      }
    }
  }

  /** A page that is filled shows what its area says. */
  ghost predicate PageOk(xs: seq<Area>, addr: nat, page: seq<Byte>) {
    addr % PAGE_BYTES == 0 && exists i :: Holds(xs, i, addr) && !xs[i].reserved && page == PageImage(xs[i], addr)
  }

  ghost predicate PagesOk(xs: seq<Area>, pages: map<nat, seq<Byte>>) {
    forall addr :: addr in pages ==> PageOk(xs, addr, pages[addr])
  }

  /** Whether a fault at addr can be served. */
  ghost predicate Served(xs: seq<Area>, addr: nat) {
    exists i :: Holds(xs, i, RoundDown(addr)) && !xs[i].reserved
  }

  datatype Mapped = MapAt(addr: nat) | Errno(e: nat) | Panic

  const ENOMEM := 12
  const EINVAL := 22

  ghost predicate OneMore(xs: seq<Area>, ys: seq<Area>, a: Area) {
    exists k: nat :: k <= |xs| && ys == Inserted(xs, k, a)
  }

  ghost predicate AllAligned(xs: seq<Area>) {
    forall i :: 0 <= i < |xs| ==> xs[i].start % PAGE_BYTES == 0 && xs[i].end % PAGE_BYTES == 0
  }

  /** Areas stay on page bounds as long as whole pages are asked for: a region that is found
      starts where an area ends. */
  lemma MmapAligned(xs: seq<Area>, ys: seq<Area>, addr: nat, len: nat, m: Option<Mapping>, write: bool)
    requires AllAligned(xs) && OneMore(xs, ys, Area(addr, addr + len, m, false, write)) && len % PAGE_BYTES == 0
    requires addr % PAGE_BYTES == 0 || (FirstGap(xs, 0, len).Some? && addr == xs[FirstGap(xs, 0, len).value].end)
    ensures AllAligned(ys)
  {
    var a := Area(addr, addr + len, m, false, write);
    var k: nat :| k <= |xs| && ys == Inserted(xs, k, a);
    InsertedIs(xs, k, a);
  }

  ghost predicate Fits(xs: seq<Area>, start: nat, end: nat) {
    forall i :: 0 <= i < |xs| ==> xs[i].end <= start || end <= xs[i].start
  }

  class AddressSpace {
    var areas: seq<Area>
    /** the pages that are filled, by address */
    var pages: map<nat, seq<Byte>>

    ghost predicate Valid()
      reads this
    {
      AreasOk(areas) && PagesOk(areas, pages)
    }

    constructor ()
      ensures Valid() && areas == [] && pages == map[]
    {
      areas, pages := [], map[];
    }

    /** list_insert_ordered finds the place; see List.InsertOrdered. */
    method OrderedPlace(a: Area) returns (k: nat)
      ensures k == OrderedPos(AreaLess, areas, a)
    {
      k := 0;
      while k < |areas| && !AreaLess(a, areas[k])
        invariant k <= |areas| && OrderedPos(AreaLess, areas, a) == k + OrderedPos(AreaLess, areas[k..], a)
      {
        assert areas[k..][1..] == areas[k + 1..];
        k := k + 1;
      }
    }

    /** vm_area_create_insert, for areas of a page or more: it succeeds just when there is memory
        for the area and no other area is in the way. */
    method CreateInsert(start: nat, end: nat, reserved: bool, writeable: bool, canAlloc: bool) returns (r: Option<nat>)
      requires Valid() && start + PAGE_BYTES <= end
      modifies this`areas
      ensures Valid()
      ensures r.Some? <==> canAlloc && Fits(old(areas), start, end)
      ensures r.None? ==> areas == old(areas)
      ensures r.Some? ==>
                && r.value <= |old(areas)|
                && areas == Inserted(old(areas), r.value, Area(start, end, None, reserved, writeable))
      ensures r.Some? ==> Untouched(Area(start, end, None, reserved, writeable), pages)
    {
      hide AreasOk, PagesOk, Inserted, OverlapsNeighbours, OrderedPos;
      if !canAlloc { return None; }
      var vma := Area(start, end, None, reserved, writeable);
      var k := OrderedPlace(vma);
      NeighboursDecide(areas, vma);
      FitsIffDisjoint(areas, vma);
      InsertedSize(areas, k, vma);
      if OverlapsNeighbours(Inserted(areas, k, vma), k) {
        return None;
      }
      InsertedOk(areas, vma);
      InsertedPages(areas, pages, k, vma);
      areas := Inserted(areas, k, vma);
      r := Some(k);
    }

    /** vma_find */
    method Find(addr: nat) returns (r: Option<nat>)
      requires Valid()
      ensures r.Some? ==> Holds(areas, r.value, addr) && forall i :: Holds(areas, i, addr) ==> i == r.value
      ensures r.None? ==> forall i :: !Holds(areas, i, addr)
    {
      var i := 0;
      while i < |areas|
        invariant i <= |areas| && forall j :: 0 <= j < i ==> !Holds(areas, j, addr)
      {
        if areas[i].start <= addr && addr < areas[i].end {
          forall j | Holds(areas, j, addr) ensures j == i { OneHolder(areas, i, j, addr); }
          return Some(i);
        }
        i := i + 1;
      }
      r := None;
    }

    /** vma_find_free_region */
    method FindFreeRegion(len: nat) returns (r: Option<nat>)
      requires Valid()
      ensures r.Some? <==> FirstGap(areas, 0, len).Some?
      ensures r.Some? ==> r.value == areas[FirstGap(areas, 0, len).value].end && Fits(areas, r.value, r.value + len)
    {
      hide AreasOk, PagesOk;
      var prev: Option<Area> := None;
      var i := 0;
      while i < |areas|
        invariant i <= |areas| && prev == if i == 0 then None else Some(Prev(areas, i))
        invariant FirstGap(areas, 0, len) == FirstGap(areas, if i == 0 then 0 else i - 1, len)
      {
        if prev.Some? {
          if areas[i].start - prev.value.end > len {
            GapIsFree(areas, i - 1, len);
            return Some(prev.value.end);
          }
        }
        prev := Some(areas[i]);
        i := i + 1;
      }
      r := None;
    }

    /** vma_set_mapping: an area that was just made gets its file. */
    method SetMapping(k: nat, m: Option<Mapping>)
      requires Valid() && k < |areas| && Untouched(areas[k], pages)
      modifies this`areas
      ensures Valid() && areas == old(areas)[k := old(areas)[k].(mapping := m)]
    {
      forall addr | addr in pages
        ensures PageOk(areas[k := areas[k].(mapping := m)], addr, pages[addr])
      {
        assert PageOk(areas, addr, pages[addr]);
        var i :| Holds(areas, i, addr) && !areas[i].reserved && pages[addr] == PageImage(areas[i], addr);
        assert Holds(areas[k := areas[k].(mapping := m)], i, addr);
      }
      areas := areas[k := areas[k].(mapping := m)];
    }

    /** The end of do_mmap: the area becomes writeable. */
    method ApplyProt(k: nat)
      requires Valid() && k < |areas|
      modifies this`areas
      ensures Valid() && areas == old(areas)[k := old(areas)[k].(writeable := true)]
    {
      forall addr | addr in pages
        ensures PageOk(areas[k := areas[k].(writeable := true)], addr, pages[addr])
      {
        assert PageOk(areas, addr, pages[addr]);
        var i :| Holds(areas, i, addr) && !areas[i].reserved && pages[addr] == PageImage(areas[i], addr);
        assert Holds(areas[k := areas[k].(writeable := true)], i, addr);
      }
      areas := areas[k := areas[k].(writeable := true)];
    }

    /** do_mmap, as far as the list of areas goes. A length of less than a page that gets as far
        as the insertion brings the kernel down. */
    method Mmap(addr: nat, len: nat, fixed: bool, write: bool, m: Option<Mapping>, canAlloc: bool) returns (r: Mapped)
      requires Valid()
      modifies this`areas
      ensures Valid()
      ensures r.Errno? && r.e == EINVAL <==> len == 0 || (fixed && addr == 0)
      ensures r.Panic? <==> 0 < len < PAGE_BYTES && (if fixed then addr != 0 else FirstGap(old(areas), 0, len).Some?)
      ensures r.MapAt? <==>
                && len >= PAGE_BYTES && canAlloc
                && if fixed then addr != 0 && Fits(old(areas), addr, addr + len) else FirstGap(old(areas), 0, len).Some?
      ensures r.MapAt? ==>
                && (fixed ==> r.addr == addr)
                && (!fixed ==> r.addr == old(areas)[FirstGap(old(areas), 0, len).value].end)
                && OneMore(old(areas), areas, Area(r.addr, r.addr + len, m, false, write))
      ensures !r.MapAt? ==> areas == old(areas)
    {
      hide AreasOk, PagesOk, Inserted, PageOk;
      if fixed && addr == 0 { return Errno(EINVAL); }
      if len == 0 { return Errno(EINVAL); }
      var base := addr;
      if !fixed {
        var region := FindFreeRegion(len);
        if region.None? { return Errno(ENOMEM); }
        base := region.value;
      }
      if base + PAGE_BYTES > base + len { return Panic; }
      var k := CreateInsert(base, base + len, false, false, canAlloc);
      if k.None? { return Errno(ENOMEM); }
      ghost var xs := old(areas);
      InsertedSize(xs, k.value, Area(base, base + len, None, false, false));
      SetMapping(k.value, m);
      InsertedWith(xs, k.value, Area(base, base + len, None, false, false), Area(base, base + len, m, false, false));
      if write {
        InsertedSize(xs, k.value, Area(base, base + len, m, false, false));
        ApplyProt(k.value);
        InsertedWith(xs, k.value, Area(base, base + len, m, false, false), Area(base, base + len, m, false, true));
      }
      r := MapAt(base);
    }

    /** vma_handle_pagefault: 0 if the page was filled, 1 if the task gets a signal. */
    method HandleFault(addr: nat) returns (rc: nat)
      requires Valid()
      modifies this`pages
      ensures Valid()
      ensures rc == if Served(areas, addr) then 0 else 1
      ensures if rc != 0 then pages == old(pages)
              else RoundDown(addr) in pages && pages == old(pages)[RoundDown(addr) := pages[RoundDown(addr)]]
    {
      var page := RoundDown(addr);
      var found := Find(page);
      if found.None? { return 1; }
      var vma := areas[found.value];
      if vma.reserved { return 1; }
      var image, fill := Load(vma, page);
      assert PageOk(areas, page, image);
      pages := pages[page := image];
      rc := 0;
    }

    /** Touching addresses one after the other, each faulting if its page is not there: in the
        end the pages that can be served are filled, whatever the order. */
    method Touch(faults: seq<nat>)
      requires Valid()
      modifies this`pages
      ensures Valid()
      ensures forall p :: p in pages <==>
                || p in old(pages)
                || exists i :: 0 <= i < |faults| && RoundDown(faults[i]) == p && Served(areas, faults[i])
      ensures forall p :: p in old(pages) ==> pages[p] == old(pages)[p]
    {
      hide AreasOk, PagesOk, Served, RoundDown;
      var n := 0;
      while n < |faults|
        invariant n <= |faults| && Valid()
        invariant forall p :: p in pages <==>
                    p in old(pages) || exists i :: 0 <= i < n && RoundDown(faults[i]) == p && Served(areas, faults[i])
        invariant forall p :: p in old(pages) ==> pages[p] == old(pages)[p]
      {
        ghost var before := pages;
        var rc := 1;
        if RoundDown(faults[n]) !in pages {
          rc := HandleFault(faults[n]);
        }
        TouchedServed(areas, before, faults[n]);
        n := n + 1;
      }
    }
  }

  /** A page that is there is one that a fault would fill. */
  lemma TouchedServed(xs: seq<Area>, pages: map<nat, seq<Byte>>, addr: nat)
    requires PagesOk(xs, pages)
    ensures RoundDown(addr) in pages ==> Served(xs, addr)
  {
    if RoundDown(addr) in pages { assert PageOk(xs, RoundDown(addr), pages[RoundDown(addr)]); }
  }

  /** Two ways of filling pages agree on every page that both filled. */
  lemma FillsAgree(xs: seq<Area>, pages: map<nat, seq<Byte>>, pages': map<nat, seq<Byte>>, p: nat)
    requires AreasOk(xs) && PagesOk(xs, pages) && PagesOk(xs, pages') && p in pages && p in pages'
    ensures pages[p] == pages'[p]
  {
    assert PageOk(xs, p, pages[p]) && PageOk(xs, p, pages'[p]);
    var i :| Holds(xs, i, p) && !xs[i].reserved && pages[p] == PageImage(xs[i], p);
    var j :| Holds(xs, j, p) && !xs[j].reserved && pages'[p] == PageImage(xs[j], p);
    OneHolder(xs, i, j, p);
  }

  /** Every byte of an area, once its page is filled: if the page starts within the area, it is the
      byte of the file, or zero, that the area has for it. Otherwise the page was filled for an
      area in front, and it is the byte which that one has for a place beyond its end. */
  lemma FilledByte(xs: seq<Area>, pages: map<nat, seq<Byte>>, i: int, addr: nat)
    requires AreasOk(xs) && PagesOk(xs, pages) && Holds(xs, i, addr) && RoundDown(addr) in pages
    ensures |pages[RoundDown(addr)]| == PAGE_BYTES
    ensures xs[i].start <= addr - addr % 4096 ==>
              var k := addr - xs[i].start;
              pages[addr - addr % 4096][addr % 4096]
              == match xs[i].mapping
                 case None => 0
                 case Some(m) => if k < m.length && k < |m.file| - m.offset then m.file[m.offset + k] else 0
    ensures var byte := pages[RoundDown(addr)][addr % PAGE_BYTES];
            if xs[i].start <= RoundDown(addr) then byte == AreaByte(xs[i].mapping, addr - xs[i].start)
            else exists j :: j < i && Holds(xs, j, RoundDown(addr)) && !xs[j].reserved && xs[j].end <= addr
                             && byte == AreaByte(xs[j].mapping, addr - xs[j].start)
  {
    var p: nat := RoundDown(addr);
    assert PageOk(xs, p, pages[p]);
    var j :| Holds(xs, j, p) && !xs[j].reserved && pages[p] == PageImage(xs[j], p);
    assert p + addr % PAGE_BYTES == addr;
    HolderInFront(xs, i, j, addr);
  }

  /** The area that a fault finds is the one the address is in, if the page starts there, and one
      in front of it otherwise. */
  lemma HolderInFront(xs: seq<Area>, i: int, j: int, addr: nat)
    requires AreasOk(xs) && Holds(xs, i, addr) && Holds(xs, j, RoundDown(addr))
    ensures xs[i].start <= RoundDown(addr) ==> j == i
    ensures xs[i].start > RoundDown(addr) ==> j < i && xs[j].end <= addr
  {
    if xs[i].start <= RoundDown(addr) { OneHolder(xs, i, j, RoundDown(addr)); }
  }

  /** When a fault within an area is served. */
  lemma FaultServed(xs: seq<Area>, i: int, addr: nat)
    requires AreasOk(xs) && Holds(xs, i, addr)
    ensures Served(xs, addr) <==>
            if xs[i].start <= RoundDown(addr) then !xs[i].reserved
            else exists j :: j < i && Holds(xs, j, RoundDown(addr)) && !xs[j].reserved
  {
    if xs[i].start <= RoundDown(addr) {
      assert Holds(xs, i, RoundDown(addr));
    }
    forall j | Holds(xs, j, RoundDown(addr))
      ensures xs[i].start <= RoundDown(addr) ==> j == i
      ensures xs[i].start > RoundDown(addr) ==> j < i
    {
      HolderInFront(xs, i, j, addr);
    }
  }

  lemma FitsIffDisjoint(xs: seq<Area>, a: Area)
    ensures Fits(xs, a.start, a.end) <==> forall i :: 0 <= i < |xs| ==> Disjoint(xs[i], a)
  {
    if Fits(xs, a.start, a.end) {
      assert forall i :: 0 <= i < |xs| ==> Disjoint(xs[i], a);
    } else {
      var i :| 0 <= i < |xs| && !(xs[i].end <= a.start || a.end <= xs[i].start);
      assert !Disjoint(xs[i], a);
    }
  }

  lemma InsertedSize(xs: seq<Area>, k: nat, a: Area)
    requires k <= |xs|
    ensures |Inserted(xs, k, a)| == |xs| + 1 && Inserted(xs, k, a)[k] == a
  {
  }

  lemma InsertedWith(xs: seq<Area>, k: nat, a: Area, b: Area)
    requires k <= |xs|
    ensures |Inserted(xs, k, a)| == |xs| + 1 && Inserted(xs, k, a)[k := b] == Inserted(xs, k, b)
  {
  }

  /** No page of the area is filled. */
  ghost predicate Untouched(a: Area, pages: map<nat, seq<Byte>>) {
    forall p :: p in pages ==> !(a.start <= p < a.end)
  }

  lemma InsertedPages(xs: seq<Area>, pages: map<nat, seq<Byte>>, k: nat, a: Area)
    requires k <= |xs| && PagesOk(xs, pages) && forall i :: 0 <= i < |xs| ==> Disjoint(xs[i], a)
    ensures PagesOk(Inserted(xs, k, a), pages) && Untouched(a, pages)
  {
    var ys := Inserted(xs, k, a);
    forall p | p in pages
      ensures PageOk(ys, p, pages[p]) && !(a.start <= p < a.end)
    {
      assert PageOk(xs, p, pages[p]);
      var i :| Holds(xs, i, p) && !xs[i].reserved && pages[p] == PageImage(xs[i], p);
      assert Disjoint(xs[i], a);
      var j := if i < k then i else i + 1;
      assert ys[j] == xs[i];
      assert Holds(ys, j, p);
    }
  }
}
