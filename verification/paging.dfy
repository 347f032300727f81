/** Page directories, page tables and frames, with copy-on-write fork. Tables are named by
    their physical address; 0 is an absent directory entry. */
module Paging {
  import opened Bits
  import opened PageEntry
  import opened BitRuns
  import opened Common
  import opened EagerFork

  type Dirs = map<nat, seq<nat>>
  type Tables = map<nat, seq<nat>>
  type Frames = map<nat, Page>

  predicate HasTable(dirs: Dirs, p: nat, v: nat) {
    p in dirs && v / 1024 < |dirs[p]| && dirs[p][v / 1024] != 0
  }

  /** The entry get_page_from_pgd finds for page v, or 0. */
  function PteOf(dirs: Dirs, tables: Tables, p: nat, v: nat): nat {
    if HasTable(dirs, p, v) && dirs[p][v / 1024] in tables && |tables[dirs[p][v / 1024]]| == 1024
    then tables[dirs[p][v / 1024]][v % 1024]
    else 0
  }

  function EntryCell(e: nat, frames: Frames): Cell {
    if e == 0 then Missing
    else if !Present(e) then Stuck
    else Mapped(if Frame(e) in frames then frames[Frame(e)] else [], Writable(e) || IsCow(e))
  }

  function CellAt(dirs: Dirs, tables: Tables, frames: Frames, p: nat, v: nat): Cell {
    if !HasTable(dirs, p, v) then NoTable else EntryCell(PteOf(dirs, tables, p, v), frames)
  }

  function SpaceOf(dirs: Dirs, tables: Tables, frames: Frames, p: nat): (s: Space)
    ensures |s| == USER_PAGES && forall v :: 0 <= v < USER_PAGES ==> s[v] == CellAt(dirs, tables, frames, p, v)
  {
    seq(USER_PAGES, v requires 0 <= v < USER_PAGES => CellAt(dirs, tables, frames, p, v))
  }

  /** The world the page tables stand for. */
  function WorldOf(dirs: Dirs, tables: Tables, frames: Frames, next: nat): World {
    World(map p | p in dirs :: SpaceOf(dirs, tables, frames, p), next)
  }

  ghost predicate DirsOk(dirs: Dirs, tables: Tables, nextDir: nat) {
    && (forall p :: p in dirs ==> p < nextDir && |dirs[p]| == 1024)
    && (forall p, i :: p in dirs && 0 <= i < |dirs[p]| && dirs[p][i] != 0 ==> dirs[p][i] in tables)
  }

  /** No user table is in two places. */
  ghost predicate TablesUnshared(dirs: Dirs) {
    forall p, q, i, k ::
      (p in dirs && q in dirs && 0 <= i < |dirs[p]| && 0 <= k < |dirs[q]| && i < 768
       && dirs[p][i] != 0 && dirs[p][i] == dirs[q][k]) ==> p == q && i == k
  }

  ghost predicate TablesOk(dirs: Dirs, tables: Tables, nextDir: nat, nextTable: nat) {
    && DirsOk(dirs, tables, nextDir)
    && (forall t :: t in tables ==> 0 < t < nextTable && |tables[t]| == 1024)
    && (forall t, j :: t in tables && 0 <= j < |tables[t]| ==> tables[t][j] < WORD)
    && TablesUnshared(dirs)
  }

  predicate Maps(dirs: Dirs, tables: Tables, p: nat, v: nat, f: nat) {
    p in dirs && v < USER_PAGES && Present(PteOf(dirs, tables, p, v)) && Frame(PteOf(dirs, tables, p, v)) == f
  }

  predicate Locked(dirs: Dirs, tables: Tables, p: nat, v: nat) {
    !Writable(PteOf(dirs, tables, p, v)) && IsCow(PteOf(dirs, tables, p, v))
  }

  predicate CowIsPresent(dirs: Dirs, tables: Tables, p: nat, v: nat) {
    IsCow(PteOf(dirs, tables, p, v)) ==> Present(PteOf(dirs, tables, p, v))
  }

  /** Only present pages are copy-on-write, a mapped frame is allocated, and a frame mapped twice is
      read-only and copy-on-write at both places. */
  ghost predicate FramesOk(dirs: Dirs, tables: Tables, frames: Frames, used: seq<bool>) {
    && (forall p: nat, v: nat :: p in dirs && v < USER_PAGES ==> CowIsPresent(dirs, tables, p, v))
    && (forall p: nat, v: nat, f: nat :: Maps(dirs, tables, p, v, f) ==>
          f in frames && f < |used| && used[f] && |frames[f]| == PAGE_BYTES)
    && (forall p: nat, v: nat, q: nat, u: nat, f: nat ::
          Maps(dirs, tables, p, v, f) && Maps(dirs, tables, q, u, f) && (p != q || v != u) ==>
            Locked(dirs, tables, p, v))
  }

  // ----- one entry changes

  function SetPte(dirs: Dirs, tables: Tables, p: nat, v: nat, e: nat): Tables
    requires HasTable(dirs, p, v) && dirs[p][v / 1024] in tables && |tables[dirs[p][v / 1024]]| == 1024
  {
    var t := dirs[p][v / 1024];
    var row: seq<nat> := tables[t][v % 1024 := e];
    tables[t := row]
  }

  lemma SetPteOnly(dirs: Dirs, tables: Tables, nextDir: nat, nextTable: nat, p: nat, v: nat, e: nat, q: nat, u: nat)
    requires TablesOk(dirs, tables, nextDir, nextTable) && HasTable(dirs, p, v)
    requires v < USER_PAGES && u < USER_PAGES && q in dirs
    ensures PteOf(dirs, SetPte(dirs, tables, p, v, e), q, u)
            == if q == p && u == v then e else PteOf(dirs, tables, q, u)
  {
    var t := dirs[p][v / 1024];
    assert t in tables;
    if HasTable(dirs, q, u) && dirs[q][u / 1024] == t {
      assert q == p && u / 1024 == v / 1024;
      if u % 1024 == v % 1024 { assert u == v; }
    }
  }

  lemma SetPteTables(dirs: Dirs, tables: Tables, nextDir: nat, nextTable: nat, p: nat, v: nat, e: nat)
    requires TablesOk(dirs, tables, nextDir, nextTable) && HasTable(dirs, p, v) && e < WORD
    ensures dirs[p][v / 1024] in tables && |tables[dirs[p][v / 1024]]| == 1024
    ensures TablesOk(dirs, SetPte(dirs, tables, p, v, e), nextDir, nextTable)
  {
  }

  /** Worlds agree when they have the same spaces cell by cell. */
  lemma SameWorld(dirs: Dirs, tables: Tables, frames: Frames, next: nat, w: World)
    requires w.next == next && w.spaces.Keys == dirs.Keys
    requires forall q :: q in dirs ==> |w.spaces[q]| == USER_PAGES
    requires forall q, u :: q in dirs && 0 <= u < USER_PAGES ==> w.spaces[q][u] == CellAt(dirs, tables, frames, q, u)
    ensures WorldOf(dirs, tables, frames, next) == w
  {
    forall q | q in dirs
      ensures SpaceOf(dirs, tables, frames, q) == w.spaces[q]
    {
      hide CellAt;
      assert forall u :: 0 <= u < USER_PAGES ==> SpaceOf(dirs, tables, frames, q)[u] == w.spaces[q][u];
    }
  }

  /** Page v of p has entry e; its region has a table; all else is as it was. */
  ghost predicate LoadedSlots(dirs: Dirs, tables: Tables, dirs': Dirs, tables': Tables, p: nat, v: nat, e: nat) {
    forall q, u :: q in dirs && 0 <= u < USER_PAGES ==>
      && (HasTable(dirs', q, u) <==> HasTable(dirs, q, u) || (q == p && u / 1024 == v / 1024))
      && PteOf(dirs', tables', q, u) == if q == p && u == v then e else PteOf(dirs, tables, q, u)
  }

  lemma SetPteLoads(dirs: Dirs, tables: Tables, nextDir: nat, nextTable: nat, p: nat, v: nat, e: nat)
    requires TablesOk(dirs, tables, nextDir, nextTable) && HasTable(dirs, p, v) && v < USER_PAGES
    ensures dirs[p][v / 1024] in tables && |tables[dirs[p][v / 1024]]| == 1024
    ensures LoadedSlots(dirs, tables, dirs, SetPte(dirs, tables, p, v, e), p, v, e)
  {
    var tables' := SetPte(dirs, tables, p, v, e);
    forall q, u | q in dirs && 0 <= u < USER_PAGES
      ensures PteOf(dirs, tables', q, u) == if q == p && u == v then e else PteOf(dirs, tables, q, u)
    {
      SetPteOnly(dirs, tables, nextDir, nextTable, p, v, e, q, u);
    }
  }

  /** An entry for a frame nobody maps keeps the sharing rule. */
  lemma FreshFrameOk(dirs: Dirs, tables: Tables, frames: Frames, used: seq<bool>, dirs': Dirs, tables': Tables,
                     p: nat, v: nat, e: nat, f: nat, content: Page)
    requires FramesOk(dirs, tables, frames, used) && dirs'.Keys == dirs.Keys
    requires LoadedSlots(dirs, tables, dirs', tables', p, v, e)
    requires f < |used| && !used[f] && Frame(e) == f && Present(e) && |content| == PAGE_BYTES
    ensures FramesOk(dirs', tables', frames[f := content], SetRun(used, f, 1, true))
  {
    hide Present, Frame, Writable, IsCow, PteOf, HasTable;
    var frames', used' := frames[f := content], SetRun(used, f, 1, true);
    forall q: nat, u: nat | q in dirs' && u < USER_PAGES
      ensures CowIsPresent(dirs', tables', q, u)
    {
      assert CowIsPresent(dirs, tables, q, u);
    }
    forall q: nat, u: nat, g: nat | Maps(dirs', tables', q, u, g)
      ensures g in frames' && g < |used'| && used'[g] && |frames'[g]| == PAGE_BYTES
      ensures q == p && u == v ==> g == f
      ensures !(q == p && u == v) ==>
                Maps(dirs, tables, q, u, g) && g != f && (Locked(dirs', tables', q, u) <==> Locked(dirs, tables, q, u))
    {
      if !(q == p && u == v) {
        assert Maps(dirs, tables, q, u, g);
      }
    }
  }

  /** Storing into the frame of a writable page changes that page alone. */
  lemma StoreIsLocal(dirs: Dirs, tables: Tables, frames: Frames, used: seq<bool>, p: nat, v: nat, content: Page, q: nat,
                     u: nat)
    requires FramesOk(dirs, tables, frames, used) && p in dirs && v < USER_PAGES && q in dirs && u < USER_PAGES
    requires Present(PteOf(dirs, tables, p, v)) && Writable(PteOf(dirs, tables, p, v))
    ensures var f := Frame(PteOf(dirs, tables, p, v));
            CellAt(dirs, tables, frames[f := content], q, u)
            == if q == p && u == v then Mapped(content, true) else CellAt(dirs, tables, frames, q, u)
  {
    hide Present, Frame, Writable, IsCow, PteOf;
    NotPresentZero();
    var f := Frame(PteOf(dirs, tables, p, v));
    assert Maps(dirs, tables, p, v, f);
    assert !Locked(dirs, tables, p, v);
    if (q != p || u != v) && Present(PteOf(dirs, tables, q, u)) {
      assert Maps(dirs, tables, q, u, Frame(PteOf(dirs, tables, q, u)));
    }
    PteHasTable(dirs, tables, p, v);
  }

  lemma NotPresentZero()
    ensures !Present(0)
  {
  }

  lemma PteHasTable(dirs: Dirs, tables: Tables, p: nat, v: nat)
    ensures PteOf(dirs, tables, p, v) != 0 ==> HasTable(dirs, p, v)
  {
  }

  // ----- fork

  /** What mark_all_user_pages_cow leaves in slot j of a table: pde_mark_writeable is handed
      the table itself, so its RW bit lands in the table's first entry. */
  function MarkedEntry(j: nat, e: nat): nat {
    var e1 := if j == 0 then MarkWriteable(e) else e;
    if Present(e1) then MarkCow(MarkReadOnly(e1)) else e1
  }

  function MarkedTable(t: seq<nat>): (r: seq<nat>)
    ensures |r| == |t| && forall j :: 0 <= j < |t| ==> r[j] == MarkedEntry(j, t[j])
  {
    seq(|t|, j requires 0 <= j < |t| => MarkedEntry(j, t[j]))
  }

  lemma MarkedEntryLaws(j: nat, e: nat)
    requires e < WORD
    ensures var m := MarkedEntry(j, e);
            && m < WORD && (Present(m) <==> Present(e))
            && (Present(e) ==> m != 0 && Frame(m) == Frame(e) && !Writable(m) && IsCow(m))
            && (!Present(e) ==> (m == 0 <==> e == 0 && j != 0) && (IsCow(m) <==> IsCow(e)))
  {
    MarkWriteableLaws(e);
    MarkCowLaws(if j == 0 then MarkWriteable(e) else e);
  }

  /** A marked entry reads as the cell fork makes of the original. */
  lemma MarkedCell(v: nat, e: nat, frames: Frames)
    requires e < WORD
    ensures EntryCell(MarkedEntry(v % 1024, e), frames) == ForkCell(v, EntryCell(e, frames))
  {
    MarkedEntryLaws(v % 1024, e);
    PresentNotZero(e);
  }

  lemma PresentNotZero(e: nat)
    ensures Present(e) ==> e != 0
  {
  }

  ghost predicate SameSlots(dirs: Dirs, tables: Tables, q: nat, dirs': Dirs, tables': Tables, r: nat) {
    forall v :: 0 <= v < USER_PAGES ==>
      (HasTable(dirs', r, v) <==> HasTable(dirs, q, v)) && PteOf(dirs', tables', r, v) == PteOf(dirs, tables, q, v)
  }

  ghost predicate MarkedSlots(dirs: Dirs, tables: Tables, q: nat, dirs': Dirs, tables': Tables, r: nat) {
    forall v :: 0 <= v < USER_PAGES ==>
      && (HasTable(dirs', r, v) <==> HasTable(dirs, q, v))
      && (HasTable(dirs, q, v) ==> PteOf(dirs', tables', r, v) == MarkedEntry(v % 1024, PteOf(dirs, tables, q, v)))
  }

  /** The entries after fork: parent and child marked, everyone else untouched. */
  ghost predicate ForkedSlots(dirs: Dirs, tables: Tables, dirs': Dirs, tables': Tables, p: nat, child: nat) {
    && p in dirs && child !in dirs && dirs'.Keys == dirs.Keys + {child}
    && MarkedSlots(dirs, tables, p, dirs', tables', p)
    && MarkedSlots(dirs, tables, p, dirs', tables', child)
    && forall q :: q in dirs && q != p ==> SameSlots(dirs, tables, q, dirs', tables', q)
  }

  lemma PteBelowWord(dirs: Dirs, tables: Tables, nextDir: nat, nextTable: nat, p: nat, v: nat)
    requires TablesOk(dirs, tables, nextDir, nextTable)
    ensures PteOf(dirs, tables, p, v) < WORD
  {
  }

  /** A mapping after fork comes from one before it, of the parent if it is marked. */
  lemma ForkedMaps(dirs: Dirs, tables: Tables, nextDir: nat, nextTable: nat, dirs': Dirs, tables': Tables, p: nat,
                   child: nat,
                   q: nat, v: nat, f: nat)
    requires TablesOk(dirs, tables, nextDir, nextTable) && ForkedSlots(dirs, tables, dirs', tables', p, child)
    requires Maps(dirs', tables', q, v, f)
    ensures q == p || q == child ==> Maps(dirs, tables, p, v, f) && Locked(dirs', tables', q, v)
    ensures q != p && q != child ==>
              Maps(dirs, tables, q, v, f) && (Locked(dirs', tables', q, v) <==> Locked(dirs, tables, q, v))
  {
    hide Present, Frame, Writable, IsCow, TablesOk, MarkedEntry;
    PteHasTable(dirs', tables', q, v);
    NotPresentZero();
    if q == p || q == child {
      PteBelowWord(dirs, tables, nextDir, nextTable, p, v);
      MarkedEntryLaws(v % 1024, PteOf(dirs, tables, p, v));
    } else {
      assert SameSlots(dirs, tables, q, dirs', tables', q);
    }
  }

  lemma ForkedCow(dirs: Dirs, tables: Tables, frames: Frames, used: seq<bool>, nextDir: nat, nextTable: nat,
                  dirs': Dirs, tables': Tables, p: nat, child: nat, q: nat, v: nat)
    requires TablesOk(dirs, tables, nextDir, nextTable) && FramesOk(dirs, tables, frames, used)
    requires ForkedSlots(dirs, tables, dirs', tables', p, child) && q in dirs' && v < USER_PAGES
    ensures CowIsPresent(dirs', tables', q, v)
  {
    hide Present, Frame, Writable, IsCow, TablesOk, MarkedEntry;
    var source := if q == child then p else q;
    assert CowIsPresent(dirs, tables, source, v);
    if source == p {
      PteBelowWord(dirs, tables, nextDir, nextTable, p, v);
      MarkedEntryLaws(v % 1024, PteOf(dirs, tables, p, v));
      PteHasTable(dirs', tables', q, v);
      ZeroNotCow();
    } else {
      assert SameSlots(dirs, tables, q, dirs', tables', q);
    }
  }

  lemma ZeroNotCow()
    ensures !IsCow(0)
  {
    Bits.BitOfZero(COW);
  }

  lemma ForkKeepsSharing(dirs: Dirs, tables: Tables, frames: Frames, used: seq<bool>, nextDir: nat, nextTable: nat,
                         dirs': Dirs, tables': Tables, p: nat, child: nat)
    requires TablesOk(dirs, tables, nextDir, nextTable) && FramesOk(dirs, tables, frames, used)
    requires ForkedSlots(dirs, tables, dirs', tables', p, child)
    ensures FramesOk(dirs', tables', frames, used)
  {
    hide TablesOk, ForkedSlots, Maps, Locked;
    forall q: nat, v: nat | q in dirs' && v < USER_PAGES
      ensures CowIsPresent(dirs', tables', q, v)
    {
      ForkedCow(dirs, tables, frames, used, nextDir, nextTable, dirs', tables', p, child, q, v);
    }
    forall q: nat, v: nat, f: nat | Maps(dirs', tables', q, v, f)
      ensures f in frames && f < |used| && used[f] && |frames[f]| == PAGE_BYTES
    {
      ForkedMaps(dirs, tables, nextDir, nextTable, dirs', tables', p, child, q, v, f);
    }
    forall q: nat, v: nat, r: nat, u: nat, f: nat
      | Maps(dirs', tables', q, v, f) && Maps(dirs', tables', r, u, f) && (q != r || v != u)
      ensures Locked(dirs', tables', q, v)
    {
      ForkedMaps(dirs, tables, nextDir, nextTable, dirs', tables', p, child, q, v, f);
      ForkedMaps(dirs, tables, nextDir, nextTable, dirs', tables', p, child, r, u, f);
    }
  }

  // ----- what fork does to the rights

  /** Whether the fault handler lets a store through, if memory does not run out. */
  predicate MayWrite(e: nat) {
    (Present(e) && Writable(e)) || IsCow(e)
  }

  /** Whether the fault handler has the page loaded. It takes a fault on page 0 for a null pointer. */
  predicate MayLoad(dirs: Dirs, tables: Tables, p: nat, v: nat) {
    v > 0 && (!HasTable(dirs, p, v) || PteOf(dirs, tables, p, v) == 0)
  }

  /** Marking ignores whether a page was writable: afterwards both sides may write exactly the
      pages that were present, read-only ones included. */
  predicate WritableAfterFork(dirs: Dirs, tables: Tables, dirs': Dirs, tables': Tables, p: nat, child: nat, v: nat) {
    && (MayWrite(PteOf(dirs', tables', p, v)) <==> Present(PteOf(dirs, tables, p, v)))
    && (MayWrite(PteOf(dirs', tables', child, v)) <==> Present(PteOf(dirs, tables, p, v)))
  }

  /** A page that was not loaded can still be, except the first one of a table that is there. */
  predicate LoadableAfterFork(dirs: Dirs, tables: Tables, dirs': Dirs, tables': Tables, p: nat, child: nat, v: nat) {
    var loadable := MayLoad(dirs, tables, p, v) && (HasTable(dirs, p, v) ==> v % 1024 != 0);
    (MayLoad(dirs', tables', p, v) <==> loadable) && (MayLoad(dirs', tables', child, v) <==> loadable)
  }

  lemma RightsAfterFork(dirs: Dirs, tables: Tables, frames: Frames, used: seq<bool>, nextDir: nat, nextTable: nat,
                        dirs': Dirs, tables': Tables, p: nat, child: nat, v: nat)
    requires TablesOk(dirs, tables, nextDir, nextTable) && FramesOk(dirs, tables, frames, used)
    requires ForkedSlots(dirs, tables, dirs', tables', p, child) && v < USER_PAGES
    ensures WritableAfterFork(dirs, tables, dirs', tables', p, child, v)
    ensures LoadableAfterFork(dirs, tables, dirs', tables', p, child, v)
  {
    hide Present, Frame, Writable, IsCow, TablesOk, MarkedEntry;
    assert CowIsPresent(dirs, tables, p, v);
    PteBelowWord(dirs, tables, nextDir, nextTable, p, v);
    MarkedEntryLaws(v % 1024, PteOf(dirs, tables, p, v));
    PteHasTable(dirs, tables, p, v);
    PteHasTable(dirs', tables', p, v);
    PteHasTable(dirs', tables', child, v);
    NotPresentZero();
    ZeroNotCow();
    assert MarkedSlots(dirs, tables, p, dirs', tables', p) && MarkedSlots(dirs, tables, p, dirs', tables', child);
  }

  /** Sharing frames copy-on-write stands for the same world as copying them. */
  lemma ForkRefines(dirs: Dirs, tables: Tables, frames: Frames, nextDir: nat, nextTable: nat, dirs': Dirs,
                    tables': Tables, p: nat)
    requires TablesOk(dirs, tables, nextDir, nextTable) && ForkedSlots(dirs, tables, dirs', tables', p, nextDir)
    ensures WorldOf(dirs', tables', frames, nextDir + 1) == Step(WorldOf(dirs, tables, frames, nextDir), Fork(p)).0
  {
    hide TablesOk, Present, Frame, Writable, IsCow, MarkedEntry;
    var w := Step(WorldOf(dirs, tables, frames, nextDir), Fork(p)).0;
    forall q, v | q in dirs' && 0 <= v < USER_PAGES
      ensures w.spaces[q][v] == CellAt(dirs', tables', frames, q, v)
    {
      if q == p || q == nextDir {
        PteBelowWord(dirs, tables, nextDir, nextTable, p, v);
        MarkedCell(v, PteOf(dirs, tables, p, v), frames);
      } else {
        assert SameSlots(dirs, tables, q, dirs', tables', q);
      }
    }
    SameWorld(dirs', tables', frames, nextDir + 1, w);
  }
}
