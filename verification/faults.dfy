/** A page fault of a user task, from the list of its areas to its page tables. */
module Faults {
  import opened BitRuns
  import opened Common
  import opened EagerFork
  import opened Paging
  import opened Mmu
  import Vma

  /** The page that area a has for the page of addr was loaded into the address space p. */
  ghost predicate Brought(w: World, w': World, p: nat, addr: nat, a: Vma.Area) {
    && WorldOk(w) && a.start <= Vma.RoundDown(addr) && addr < VIRT_BASE
    && var page := Vma.RoundDown(addr);
       var load := Load(p, addr / PAGE_BYTES, Vma.PageImage(a, page), Vma.FillOf(a, page));
       OpOk(w, load) && Step(w, load) == (w', Done)
  }

  /** What was brought reads as the area says. It may be written exactly if the area is writeable,
      has no file, or has none for that page. */
  lemma AfterFault(w: World, w': World, p: nat, addr: nat, a: Vma.Area, off: nat, b: Byte)
    requires Brought(w, w', p, addr, a) && off < PAGE_BYTES
    ensures OpOk(w', Read(p, addr / PAGE_BYTES, off)) && OpOk(w', Write(p, addr / PAGE_BYTES, off, b)) && WorldOk(w')
    ensures Step(w', Read(p, addr / PAGE_BYTES, off)).1
            == Got(Vma.AreaByte(a.mapping, Vma.RoundDown(addr) + off - a.start))
    ensures Step(w', Write(p, addr / PAGE_BYTES, off, b)).1 == Done <==>
              || a.writeable || a.mapping.None?
              || Vma.BeyondMapping(a.mapping.value, Vma.RoundDown(addr) - a.start)
  {
    hide Vma.RoundDown, Vma.RoundUp;
  }

  lemma LoadIsOk(dirs: Dirs, tables: Tables, frames: Frames, next: nat, p: nat, addr: nat, a: Vma.Area)
    requires p in dirs && addr < VIRT_BASE && a.start <= Vma.RoundDown(addr)
    ensures var w := WorldOf(dirs, tables, frames, next); var page := Vma.RoundDown(addr);
            var load := Load(p, addr / PAGE_BYTES, Vma.PageImage(a, page), Vma.FillOf(a, page));
            WorldOk(w) && OpOk(w, load) && (Step(w, load).1 == Denied ==> Step(w, load).0 == w)
            && (Step(w, load).1 == Done || Step(w, load).1 == Denied)
  {
    hide CellAt, Vma.RoundUp, Vma.RoundDown;
    WorldSpaces(dirs, tables, frames, next);
    if Vma.FillOf(a, Vma.RoundDown(addr)).ZeroFill? { Vma.ZeroFilled(a, Vma.RoundDown(addr)); }
  }

  /** do_user_pagefault and vma_handle_pagefault: what the area that holds the start of the page has
      for it is loaded into the address space p. Denied stands for the signal. */
  method Serve(mmu: Mmu, space: Vma.AddressSpace, p: nat, addr: nat) returns (o: Outcome)
    requires mmu.Valid() && p in mmu.dirs && space.Valid() && addr < VIRT_BASE
    modifies mmu
    ensures mmu.Valid() && (o == Done || o == Denied || o == NoMemory)
    ensures o == Denied <==>
              !MayLoad(old(mmu.dirs), old(mmu.tables), p, addr / PAGE_BYTES) || !Vma.Served(space.areas, addr)
    ensures o == NoMemory <==>
              && MayLoad(old(mmu.dirs), old(mmu.tables), p, addr / PAGE_BYTES) && Vma.Served(space.areas, addr)
              && FirstRun(old(mmu.used), 0, 1, false).None?
    ensures o != Done ==> mmu.View() == old(mmu.View())
    ensures o == Done ==>
              exists i :: Vma.Holds(space.areas, i, Vma.RoundDown(addr)) && !space.areas[i].reserved
                          && Brought(old(mmu.View()), mmu.View(), p, addr, space.areas[i])
  {
    hide TablesOk, FramesOk, WorldOf, PteOf, HasTable, Step, FirstRun, WorldOk, OpOk, Vma.AreasOk, Vma.PagesOk;
    var v := addr / PAGE_BYTES;
    if v == 0 || (HasTable(mmu.dirs, p, v) && PteOf(mmu.dirs, mmu.tables, p, v) != 0) {
      return Denied;
    }
    var page := Vma.RoundDown(addr);
    var found := space.Find(page);
    if found.None? { return Denied; }
    var a := space.areas[found.value];
    if a.reserved { return Denied; }
    var image, fill := Vma.Load(a, page);
    LoadIsOk(mmu.dirs, mmu.tables, mmu.frames, mmu.nextDir, p, addr, a);
    o := mmu.LoadPage(p, v, image, fill);
  }
}
