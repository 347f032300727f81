/** The paging code over the kernel's tables and frames, and the proof that copy-on-write
    fork cannot be told from copying every page. */
module Mmu {
  import opened Bits
  import opened PageEntry
  import opened BitRuns
  import opened Common
  import opened EagerFork
  import opened Paging

  const FRAME_COUNT := 65536

  /** The bit arithmetic that picks a page out of an address names each page once. */
  lemma AddressSplit(addr: nat)
    requires addr < VIRT_BASE
    ensures var i, j, off := addr / 0x40_0000, (addr / 4096) % 1024, addr % 4096;
            && i < 768 && addr == (i * 1024 + j) * 4096 + off
            && addr / 4096 < USER_PAGES && (addr / 4096) / 1024 == i && (addr / 4096) % 1024 == j
  {
    assert addr / 0x40_0000 == (addr / 4096) / 1024;
  }

  /** Unsigned 32-bit subtraction. */
  function Sub32(a: nat, b: nat): nat
    requires a < WORD && b < WORD
  {
    if a >= b then a - b else a + WORD - b
  }

  /** __do_cow frees what it takes for a page of the kernel heap, told by the entry lying within
      14 MB of the kernel's base. The entry of a frame never does. */
  lemma NeverTakenForHeap(pte: nat)
    requires pte < WORD && Frame(pte) < FRAME_COUNT
    ensures Sub32(pte, VIRT_BASE) >= 14 * 1024 * 1024
  {
    ShrDivides(pte, ADDR_SHIFT);
    assert Pow2(12) == 4096;
  }

  /** Copied tables: slot by slot the same entries, in tables of their own. */
  ghost predicate CopiedUpTo(orig: seq<nat>, ret: seq<nat>, tables: Tables, tables': Tables, lo: nat, hi: nat, n: nat) {
    && |orig| == |ret| == 1024 && n <= 768
    && (forall k :: n <= k < 1024 ==> ret[k] == orig[k])
    && (forall k :: 0 <= k < n ==> (ret[k] == 0 <==> orig[k] == 0))
    && (forall k :: 0 <= k < n && ret[k] != 0 ==>
          lo <= ret[k] < hi && ret[k] in tables' && orig[k] in tables && tables'[ret[k]] == tables[orig[k]])
    && (forall k, l :: 0 <= k < l < n && ret[k] != 0 ==> ret[k] != ret[l])
  }

  lemma CopyStep(orig: seq<nat>, ret: seq<nat>, tables: Tables, tables': Tables, lo: nat, hi: nat, n: nat)
    requires CopiedUpTo(orig, ret, tables, tables', lo, hi, n) && n < 768 && lo <= hi
    requires orig[n] in tables && orig[n] != 0 && hi !in tables' && hi != 0
    ensures CopiedUpTo(orig, ret[n := hi], tables, tables'[hi := tables[orig[n]]], lo, hi + 1, n + 1)
  {
  }

  lemma CopyAdopted(dirs: Dirs, tables: Tables, tables': Tables, nextDir: nat, nextTable: nat, hi: nat, p: nat,
                    ret: seq<nat>)
    requires TablesOk(dirs, tables, nextDir, nextTable) && p in dirs && nextTable <= hi
    requires CopiedUpTo(dirs[p], ret, tables, tables', nextTable, hi, 768)
    requires forall t :: t in tables ==> t in tables' && tables'[t] == tables[t]
    requires forall t :: t in tables' ==> t in tables || (nextTable <= t < hi && t > 0 && |tables'[t]| == 1024)
    requires forall t, j :: t in tables' && 0 <= j < |tables'[t]| ==> tables'[t][j] < WORD
    ensures nextDir !in dirs && TablesOk(dirs[nextDir := ret], tables', nextDir + 1, hi)
    ensures SameSlots(dirs, tables, p, dirs[nextDir := ret], tables', nextDir)
    ensures forall q :: q in dirs ==> SameSlots(dirs, tables, q, dirs[nextDir := ret], tables', q)
  {
    hide WORD;
    var dirs' := dirs[nextDir := ret];
    assert TablesUnshared(dirs') by {
      forall q, r, i, k | q in dirs' && r in dirs' && 0 <= i < |dirs'[q]| && 0 <= k < |dirs'[r]| && i < 768
                          && dirs'[q][i] != 0 && dirs'[q][i] == dirs'[r][k]
        ensures q == r && i == k
      {
      }
    }
  }

  /** The tables of the first n slots of a directory are marked, the others as before. */
  ghost predicate MarkedUpTo(row: seq<nat>, tables: Tables, tables': Tables, n: nat) {
    && n <= |row| && tables'.Keys == tables.Keys
    && forall t :: t in tables ==>
         tables'[t] == if t != 0 && t in row[..n] then MarkedTable(tables[t]) else tables[t]
  }

  lemma MarkStep(row: seq<nat>, tables: Tables, tables': Tables, n: nat)
    requires MarkedUpTo(row, tables, tables', n) && n < |row|
    requires row[n] != 0 ==> row[n] !in row[..n] && row[n] in tables
    ensures row[n] == 0 ==> MarkedUpTo(row, tables, tables', n + 1)
    ensures row[n] != 0 ==> MarkedUpTo(row, tables, tables'[row[n] := MarkedTable(tables'[row[n]])], n + 1)
  {
    assert row[..n + 1] == row[..n] + [row[n]];
  }

  lemma MarkedAll(dirs: Dirs, tables: Tables, tables': Tables, nextDir: nat, nextTable: nat, p: nat)
    requires TablesOk(dirs, tables, nextDir, nextTable) && p in dirs && |dirs[p]| == 1024
    requires MarkedUpTo(dirs[p], tables, tables', 768)
    ensures TablesOk(dirs, tables', nextDir, nextTable)
    ensures MarkedSlots(dirs, tables, p, dirs, tables', p)
    ensures forall q :: q in dirs && q != p ==> SameSlots(dirs, tables, q, dirs, tables', q)
  {
    hide WORD, MarkedEntry;
    forall t, j | t in tables' && 0 <= j < |tables'[t]|
      ensures tables'[t][j] < WORD
    {
      MarkedEntryLaws(j, tables[t][j]);
    }
    forall v | 0 <= v < USER_PAGES && HasTable(dirs, p, v)
      ensures PteOf(dirs, tables', p, v) == MarkedEntry(v % 1024, PteOf(dirs, tables, p, v))
    {
      assert dirs[p][v / 1024] == dirs[p][..768][v / 1024];
    }
    forall q, v | q in dirs && q != p && 0 <= v < USER_PAGES
      ensures PteOf(dirs, tables', q, v) == PteOf(dirs, tables, q, v)
    {
      assert HasTable(dirs, q, v) ==> dirs[q][v / 1024] !in dirs[p][..768];
    }
    assert forall q :: q in dirs && q != p ==> SameSlots(dirs, tables, q, dirs, tables', q);
  }

  lemma Chain(dirs0: Dirs, tables0: Tables, dirs: Dirs, tables1: Tables, tables2: Tables, tables: Tables, p: nat,
              child: nat)
    requires p in dirs0 && child !in dirs0 && dirs.Keys == dirs0.Keys + {child}
    requires SameSlots(dirs0, tables0, p, dirs, tables1, child)
    requires forall q :: q in dirs0 ==> SameSlots(dirs0, tables0, q, dirs, tables1, q)
    requires MarkedSlots(dirs, tables1, p, dirs, tables2, p)
    requires forall q :: q in dirs && q != p ==> SameSlots(dirs, tables1, q, dirs, tables2, q)
    requires MarkedSlots(dirs, tables2, child, dirs, tables, child)
    requires forall q :: q in dirs && q != child ==> SameSlots(dirs, tables2, q, dirs, tables, q)
    ensures ForkedSlots(dirs0, tables0, dirs, tables, p, child)
  {
    hide PteOf, HasTable, MarkedEntry;
    assert SameSlots(dirs0, tables0, p, dirs, tables1, p) && SameSlots(dirs, tables2, p, dirs, tables, p);
    assert SameSlots(dirs, tables1, child, dirs, tables2, child);
    forall q | q in dirs0 && q != p
      ensures SameSlots(dirs0, tables0, q, dirs, tables, q)
    {
      assert SameSlots(dirs0, tables0, q, dirs, tables1, q) && SameSlots(dirs, tables1, q, dirs, tables2, q)
             && SameSlots(dirs, tables2, q, dirs, tables, q);
    }
  }

  /** The entry do_cow and map_page write for frame f. */
  lemma FreshEntry(f: nat)
    requires f < FRAME_COUNT
    ensures var e := CreatePte(f * 4096, 1, 1);
            e < WORD && e != 0 && Present(e) && Writable(e) && !IsCow(e) && Frame(e) == f
  {
    assert Pow2(8) == 0x100 && Pow2(16) == 0x1_0000 && Pow2(24) == 0x100_0000 && Pow2(32) == 0x1_0000_0000;
    CreatePteLaws(f * 4096, 1, 1);
    ShrOfPage(f);
  }

  lemma MappedFrame(dirs: Dirs, tables: Tables, frames: Frames, used: seq<bool>, nextDir: nat, nextTable: nat, p: nat,
                    v: nat)
    requires TablesOk(dirs, tables, nextDir, nextTable) && FramesOk(dirs, tables, frames, used)
    requires p in dirs && v < USER_PAGES && Present(PteOf(dirs, tables, p, v))
    ensures HasTable(dirs, p, v) && dirs[p][v / 1024] in tables && |tables[dirs[p][v / 1024]]| == 1024
    ensures var f := Frame(PteOf(dirs, tables, p, v));
            f in frames && f < |used| && used[f] && |frames[f]| == PAGE_BYTES
    ensures PteOf(dirs, tables, p, v) != 0
  {
    hide Present, Frame;
    NotPresentZero();
    PteHasTable(dirs, tables, p, v);
    assert Maps(dirs, tables, p, v, Frame(PteOf(dirs, tables, p, v)));
  }

  /** Moving a copy-on-write page to a fresh frame leaves every cell as it was. */
  lemma CowKeepsWorld(dirs: Dirs, tables: Tables, frames: Frames, used: seq<bool>, nextDir: nat, nextTable: nat,
                      p: nat, v: nat, e: nat, f: nat)
    requires TablesOk(dirs, tables, nextDir, nextTable) && FramesOk(dirs, tables, frames, used)
    requires p in dirs && v < USER_PAGES && Present(PteOf(dirs, tables, p, v)) && IsCow(PteOf(dirs, tables, p, v))
    requires f < |used| && !used[f] && e != 0 && Present(e) && Writable(e) && Frame(e) == f
    ensures HasTable(dirs, p, v) && dirs[p][v / 1024] in tables && |tables[dirs[p][v / 1024]]| == 1024
    ensures Frame(PteOf(dirs, tables, p, v)) in frames
    ensures WorldOf(dirs, SetPte(dirs, tables, p, v, e), frames[f := frames[Frame(PteOf(dirs, tables, p, v))]], nextDir)
            == WorldOf(dirs, tables, frames, nextDir)
  {
    hide Present, Frame, Writable, IsCow, TablesOk, FramesOk, PteOf, SetPte;
    MappedFrame(dirs, tables, frames, used, nextDir, nextTable, p, v);
    var tables', frames' := SetPte(dirs, tables, p, v, e), frames[f := frames[Frame(PteOf(dirs, tables, p, v))]];
    var w := WorldOf(dirs, tables, frames, nextDir);
    forall q, u | q in dirs && 0 <= u < USER_PAGES
      ensures w.spaces[q][u] == CellAt(dirs, tables', frames', q, u)
    {
      SetPteOnly(dirs, tables, nextDir, nextTable, p, v, e, q, u);
      if Present(PteOf(dirs, tables, q, u)) { MappedFrame(dirs, tables, frames, used, nextDir, nextTable, q, u); }
    }
    SameWorld(dirs, tables', frames', nextDir, w);
  }

  lemma CowMeansPresent(dirs: Dirs, tables: Tables, frames: Frames, used: seq<bool>, p: nat, v: nat)
    requires FramesOk(dirs, tables, frames, used) && p in dirs && v < USER_PAGES
    ensures IsCow(PteOf(dirs, tables, p, v)) ==> Present(PteOf(dirs, tables, p, v))
  {
    assert CowIsPresent(dirs, tables, p, v);
  }

  lemma StoreWorld(dirs: Dirs, tables: Tables, frames: Frames, used: seq<bool>, nextDir: nat, nextTable: nat,
                   p: nat, v: nat, off: nat, b: Byte)
    requires TablesOk(dirs, tables, nextDir, nextTable) && FramesOk(dirs, tables, frames, used)
    requires p in dirs && v < USER_PAGES && off < PAGE_BYTES
    requires Present(PteOf(dirs, tables, p, v)) && Writable(PteOf(dirs, tables, p, v))
    ensures var f := Frame(PteOf(dirs, tables, p, v));
            && f in frames && |frames[f]| == PAGE_BYTES
            && var (w, o) := Step(WorldOf(dirs, tables, frames, nextDir), Write(p, v, off, b));
            o == Done && WorldOf(dirs, tables, frames[f := WithByte(frames[f], off, b)], nextDir) == w
            && FramesOk(dirs, tables, frames[f := WithByte(frames[f], off, b)], used)
  {
    MappedFrame(dirs, tables, frames, used, nextDir, nextTable, p, v);
    hide TablesOk, Present, Writable, IsCow, Frame, PteOf;
    var f := Frame(PteOf(dirs, tables, p, v));
    var frames' := frames[f := WithByte(frames[f], off, b)];
    var (w, o) := Step(WorldOf(dirs, tables, frames, nextDir), Write(p, v, off, b));
    StoreIsLocal(dirs, tables, frames, used, p, v, WithByte(frames[f], off, b), p, v);
    assert EntryCell(PteOf(dirs, tables, p, v), frames) == Mapped(frames[f], true);
    forall q, u | q in dirs && 0 <= u < USER_PAGES
      ensures w.spaces[q][u] == CellAt(dirs, tables, frames', q, u)
    {
      StoreIsLocal(dirs, tables, frames, used, p, v, WithByte(frames[f], off, b), q, u);
    }
    SameWorld(dirs, tables, frames', nextDir, w);
  }

  lemma EmptySpace(row: seq<nat>)
    requires |row| == 1024 && forall i :: 0 <= i < 1024 ==> row[i] == 0
    ensures TablesOk(map[0 := row], map[], 1, 1) && FramesOk(map[0 := row], map[], map[], [])
    ensures forall used :: FramesOk(map[0 := row], map[], map[], used)
    ensures WorldOf(map[0 := row], map[], map[], 1) == World(map[0 := seq(USER_PAGES, _ => NoTable)], 1)
  {
    var w := World(map[0 := seq(USER_PAGES, _ => NoTable)], 1);
    NotPresentZero();
    ZeroNotCow();
    SameWorld(map[0 := row], map[], map[], 1, w);
  }

  lemma WorldSpaces(dirs: Dirs, tables: Tables, frames: Frames, next: nat)
    ensures var w := WorldOf(dirs, tables, frames, next);
            && w.next == next && w.spaces.Keys == dirs.Keys
            && forall p :: p in dirs ==> w.spaces[p] == SpaceOf(dirs, tables, frames, p)
    ensures WorldOk(WorldOf(dirs, tables, frames, next))
  {
  }

  /** Loading a missing page into a fresh frame is the reference load. */
  lemma LoadRefines(dirs: Dirs, tables: Tables, frames: Frames, used: seq<bool>, nextDir: nat, nextTable: nat,
                    dirs': Dirs, tables': Tables,
                    p: nat, v: nat, e: nat, f: nat, content: Page, fill: Fill)
    requires TablesOk(dirs, tables, nextDir, nextTable) && FramesOk(dirs, tables, frames, used)
    requires p in dirs && v < USER_PAGES && dirs'.Keys == dirs.Keys
    requires LoadedSlots(dirs, tables, dirs', tables', p, v, e)
    requires f < |used| && !used[f] && Frame(e) == f && Present(e) && e != 0 && !IsCow(e)
    requires (Writable(e) <==> Right(fill))
    requires MayLoad(dirs, tables, p, v)
    ensures WorldOk(WorldOf(dirs, tables, frames, nextDir)) && p in WorldOf(dirs, tables, frames, nextDir).spaces
    ensures ContentOk(content, fill) ==>
              Step(WorldOf(dirs, tables, frames, nextDir), Load(p, v, content, fill))
              == (WorldOf(dirs', tables', frames[f := content], nextDir), Done)
  {
    if ContentOk(content, fill) {
      LoadCells(dirs, tables, frames, used, nextDir, nextTable, dirs', tables', p, v, e, f, content, fill);
      hide Present, Frame, Writable, IsCow, PteOf, HasTable, TablesOk, FramesOk;
      var w := Step(WorldOf(dirs, tables, frames, nextDir), Load(p, v, content, fill)).0;
      SameWorld(dirs', tables', frames[f := content], nextDir, w);
    }
  }

  lemma LoadCells(dirs: Dirs, tables: Tables, frames: Frames, used: seq<bool>, nextDir: nat, nextTable: nat,
                  dirs': Dirs, tables': Tables,
                  p: nat, v: nat, e: nat, f: nat, content: Page, fill: Fill)
    requires TablesOk(dirs, tables, nextDir, nextTable) && FramesOk(dirs, tables, frames, used)
    requires p in dirs && v < USER_PAGES && LoadedSlots(dirs, tables, dirs', tables', p, v, e)
    requires f < |used| && !used[f] && Frame(e) == f && Present(e) && e != 0 && !IsCow(e)
    requires (Writable(e) <==> Right(fill))
    ensures forall q, u :: q in dirs && 0 <= u < USER_PAGES ==>
              CellAt(dirs', tables', frames[f := content], q, u)
              == if q == p then LoadCell(v, u, CellAt(dirs, tables, frames, q, u), content, fill)
                 else CellAt(dirs, tables, frames, q, u)
  {
    hide Present, Frame, Writable, IsCow, PteOf, TablesOk, FramesOk;
    forall q, u | q in dirs && 0 <= u < USER_PAGES
      ensures CellAt(dirs', tables', frames[f := content], q, u)
              == if q == p then LoadCell(v, u, CellAt(dirs, tables, frames, q, u), content, fill)
                 else CellAt(dirs, tables, frames, q, u)
    {
      if Present(PteOf(dirs, tables, q, u)) { MappedFrame(dirs, tables, frames, used, nextDir, nextTable, q, u); }
      PteHasTable(dirs, tables, q, u);
    }
  }

  lemma NewTableLoads(dirs: Dirs, tables: Tables, nextDir: nat, nextTable: nat, p: nat, v: nat, e: nat)
    requires TablesOk(dirs, tables, nextDir, nextTable) && p in dirs && !HasTable(dirs, p, v) && v < USER_PAGES
    requires e < WORD && 0 < nextTable
    ensures |dirs[p]| == 1024
    ensures var zero: seq<nat> := seq(1024, _ => 0);
            var row: seq<nat> := dirs[p][v / 1024 := nextTable];
            var tables' := tables[nextTable := zero[v % 1024 := e]];
            && TablesOk(dirs[p := row], tables', nextDir, nextTable + 1)
            && LoadedSlots(dirs, tables, dirs[p := row], tables', p, v, e)
  {
    hide WORD;
    var zero: seq<nat> := seq(1024, _ => 0);
    var row: seq<nat> := dirs[p][v / 1024 := nextTable];
    var dirs', tables' := dirs[p := row], tables[nextTable := zero[v % 1024 := e]];
    forall q, u | q in dirs && 0 <= u < USER_PAGES
      ensures HasTable(dirs', q, u) <==> HasTable(dirs, q, u) || (q == p && u / 1024 == v / 1024)
      ensures PteOf(dirs', tables', q, u) == if q == p && u == v then e else PteOf(dirs, tables, q, u)
    {
      if q == p && u / 1024 == v / 1024 && u % 1024 == v % 1024 { assert u == v; }
    }
    assert TablesUnshared(dirs') by {
      forall q, r, i, k | q in dirs' && r in dirs' && 0 <= i < |dirs'[q]| && 0 <= k < |dirs'[r]| && i < 768
                          && dirs'[q][i] != 0 && dirs'[q][i] == dirs'[r][k]
        ensures q == r && i == k
      {
      }
    }
  }

  lemma NotMissing(e: nat, frames: Frames)
    ensures EntryCell(e, frames) == Missing <==> e == 0
    ensures EntryCell(e, frames) != NoTable
  {
  }

  lemma ReadOnlyEntry(e: nat)
    requires e < WORD && Present(e) && !IsCow(e)
    ensures var r := MarkReadOnly(e);
            r < WORD && r != 0 && Present(r) && !Writable(r) && !IsCow(r) && Frame(r) == Frame(e)
  {
    hide WORD;
    WordIsPow2();
    var r := MarkReadOnly(e);
    AndBound(e, Not(Pow2(RW)));
    forall i: nat ensures Bit(r, i) <==> i != RW && Bit(e, i) {
      BitAnd(e, Not(Pow2(RW)), i);
      if i < 32 { NotPow2Bit(RW, i); } else { BitBeyond(32, e, i); }
    }
    BitOfZero(PRESENT);
    forall i: nat ensures Bit(Frame(r), i) <==> Bit(Frame(e), i) {
      ShrBit(r, ADDR_SHIFT, i);
      ShrBit(e, ADDR_SHIFT, i);
    }
    BitsDetermine(Frame(r), Frame(e));
  }

  /** Writing the loaded slot once more. */
  lemma Reload(dirs: Dirs, tables: Tables, dirs1: Dirs, tables1: Tables, nextDir: nat, nextTable: nat, p: nat, v: nat,
               e: nat, e': nat)
    requires TablesOk(dirs1, tables1, nextDir, nextTable) && LoadedSlots(dirs, tables, dirs1, tables1, p, v, e)
    requires p in dirs && v < USER_PAGES && dirs1.Keys == dirs.Keys
    ensures HasTable(dirs1, p, v) && dirs1[p][v / 1024] in tables1 && |tables1[dirs1[p][v / 1024]]| == 1024
    ensures LoadedSlots(dirs, tables, dirs1, SetPte(dirs1, tables1, p, v, e'), p, v, e')
  {
    SetPteLoads(dirs1, tables1, nextDir, nextTable, p, v, e');
    hide PteOf, SetPte, TablesOk;
  }

  lemma RunOne(w: World, op: Op)
    requires WorldOk(w) && OpOk(w, op)
    ensures RunOk(w, [op]) && EagerFork.Run(w, [op]) == (Step(w, op).0, [Step(w, op).1])
    ensures EagerFork.Run(w, []) == (w, [])
  {
    hide Step;
    StepOk(w, op);
    assert [op][1..] == [];
    assert RunOk(Step(w, op).0, []);
    assert EagerFork.Run(Step(w, op).0, []) == (Step(w, op).0, []);
    assert [Step(w, op).1] + [] == [Step(w, op).1];
  }

  /** A run of one more operation. */
  lemma {:induction false} RunSnoc(w: World, ops: seq<Op>, i: nat)
    requires WorldOk(w) && i < |ops| && RunOk(w, ops[..i])
    requires WorldOk(EagerFork.Run(w, ops[..i]).0) && OpOk(EagerFork.Run(w, ops[..i]).0, ops[i])
    ensures RunOk(w, ops[..i + 1])
    ensures var (w1, os) := EagerFork.Run(w, ops[..i]);
            var (w2, o) := Step(w1, ops[i]);
            EagerFork.Run(w, ops[..i + 1]) == (w2, os + [o])
    decreases i
  {
    hide Step;
    if i == 0 {
      StepOk(w, ops[0]);
      RunOne(w, ops[0]);
      assert ops[..i] == [] && ops[..i + 1] == [ops[0]];
      assert [] + [Step(w, ops[0]).1] == [Step(w, ops[0]).1];
    } else {
      StepOk(w, ops[0]);
      assert ops[..i][1..] == ops[1..][..i - 1] && ops[..i + 1][1..] == ops[1..][..i];
      var (w0, o0) := Step(w, ops[0]);
      RunSnoc(w0, ops[1..], i - 1);
      var (w1, os) := EagerFork.Run(w0, ops[1..][..i - 1]);
      var o := Step(w1, ops[i]).1;
      assert [o0] + (os + [o]) == ([o0] + os) + [o];
    }
  }

  class Mmu {
    var dirs: Dirs
    var tables: Tables
    var frames: Frames
    var used: seq<bool>
    var nextDir: nat
    var nextTable: nat

    ghost predicate Valid()
      reads this
    {
      && TablesOk(dirs, tables, nextDir, nextTable) && FramesOk(dirs, tables, frames, used)
      && |used| == FRAME_COUNT && 0 < nextTable
    }

    ghost function FreeFrames(): nat
      reads this
    {
      CountOf(used, false)
    }

    /** The world of the reference semantics that the tables stand for. */
    ghost function View(): World
      reads this
    {
      WorldOf(dirs, tables, frames, nextDir)
    }

    /** One address space with nothing in it. */
    constructor (used: seq<bool>)
      requires |used| == FRAME_COUNT
      ensures Valid() && this.used == used && View() == World(map[0 := seq(USER_PAGES, _ => NoTable)], 1)
    {
      var row: seq<nat> := seq(1024, _ => 0);
      this.used := used;
      dirs, tables, frames, nextDir, nextTable := map[0 := row], map[], map[], 1, 1;
      new;
      EmptySpace(row);
    }

    /** __copy_pt over the user half: a table of its own for every table of p. */
    method CopyPageDir(p: nat) returns (child: nat)
      requires TablesOk(dirs, tables, nextDir, nextTable) && 0 < nextTable && p in dirs
      modifies this`dirs, this`tables, this`nextDir, this`nextTable
      ensures TablesOk(dirs, tables, nextDir, nextTable) && 0 < nextTable
      ensures child == old(nextDir) && nextDir == child + 1 && child !in old(dirs)
      ensures dirs.Keys == old(dirs.Keys) + {child}
      ensures |dirs[child]| == |old(dirs)[p]| == 1024 && dirs[child][768..] == old(dirs)[p][768..]
      ensures SameSlots(old(dirs), old(tables), p, dirs, tables, child)
      ensures forall q :: q in old(dirs) ==>
                dirs[q] == old(dirs)[q] && SameSlots(old(dirs), old(tables), q, dirs, tables, q)
    {
      hide WORD, TablesUnshared, MarkedUpTo;
      ghost var dirs0, tables0, nextTable0 := dirs, tables, nextTable;
      var ret: seq<nat> := dirs[p];
      var i := 0;
      while i < 768
        invariant 0 <= i <= 768 && 0 < nextTable0 <= nextTable && dirs == dirs0 && nextDir == old(nextDir)
        invariant CopiedUpTo(dirs0[p], ret, tables0, tables, nextTable0, nextTable, i)
        invariant forall t :: t in tables0 ==> t in tables && tables[t] == tables0[t]
        invariant forall t :: t in tables ==> t in tables0 || (nextTable0 <= t < nextTable && |tables[t]| == 1024)
        invariant forall t, j :: t in tables && 0 <= j < |tables[t]| ==> tables[t][j] < WORD
      {
        if ret[i] != 0 {
          CopyStep(dirs0[p], ret, tables0, tables, nextTable0, nextTable, i);
          tables := tables[nextTable := tables[ret[i]]];
          ret := ret[i := nextTable];
          nextTable := nextTable + 1;
        }
        i := i + 1;
      }
      CopyAdopted(dirs0, tables0, tables, nextDir, nextTable0, nextTable, p, ret);
      child := nextDir;
      dirs := dirs[child := ret];
      nextDir := nextDir + 1;
    }

    /** The inner loop of mark_all_user_pages_cow, with the stray pde_mark_writeable. */
    method MarkTable(t: nat)
      requires t in tables && |tables[t]| == 1024
      modifies this`tables
      ensures tables == old(tables)[t := MarkedTable(old(tables)[t])]
    {
      hide Present, MarkCow, MarkReadOnly, MarkWriteable;
      var row := tables[t];
      row := row[0 := MarkWriteable(row[0])];
      var j := 0;
      while j < 1024
        invariant 0 <= j <= 1024 == |row|
        invariant forall k :: 0 <= k < j ==> row[k] == MarkedEntry(k, old(tables)[t][k])
        invariant forall k :: j <= k < 1024 ==>
                    row[k] == if k == 0 then MarkWriteable(old(tables)[t][0]) else old(tables)[t][k]
      {
        if Present(row[j]) {
          row := row[j := MarkReadOnly(row[j])];
          row := row[j := MarkCow(row[j])];
        }
        j := j + 1;
      }
      assert row == MarkedTable(old(tables)[t]);
      tables := tables[t := row];
    }

    method MarkAllUserPagesCow(p: nat)
      requires TablesOk(dirs, tables, nextDir, nextTable) && p in dirs
      modifies this`tables
      ensures TablesOk(dirs, tables, nextDir, nextTable)
      ensures MarkedSlots(dirs, old(tables), p, dirs, tables, p)
      ensures forall q :: q in dirs && q != p ==> SameSlots(dirs, old(tables), q, dirs, tables, q)
    {
      hide WORD, MarkedTable;
      ghost var tables0 := tables;
      var i := 0;
      while i < 768
        invariant 0 <= i <= 768 && MarkedUpTo(dirs[p], tables0, tables, i)
      {
        MarkStep(dirs[p], tables0, tables, i);
        if dirs[p][i] != 0 {
          MarkTable(dirs[p][i]);
        }
        i := i + 1;
      }
      MarkedAll(dirs, tables0, tables, nextDir, nextTable, p);
    }

    /** The page-directory part of create_user_task_fork. */
    method Fork(p: nat) returns (child: nat)
      requires Valid() && p in dirs
      modifies this`dirs, this`tables, this`nextDir, this`nextTable
      ensures Valid() && View() == Step(old(View()), EagerFork.Fork(p)).0 && child == old(nextDir)
      ensures ForkedSlots(old(dirs), old(tables), dirs, tables, p, child)
      ensures forall v :: 0 <= v < USER_PAGES ==>
                && WritableAfterFork(old(dirs), old(tables), dirs, tables, p, child, v)
                && LoadableAfterFork(old(dirs), old(tables), dirs, tables, p, child, v)
    {
      hide TablesOk, FramesOk, WorldOf, SameSlots, MarkedSlots, WritableAfterFork, LoadableAfterFork;
      ghost var dirs0, tables0 := dirs, tables;
      child := CopyPageDir(p);
      ghost var tables1 := tables;
      MarkAllUserPagesCow(p);
      ghost var tables2 := tables;
      MarkAllUserPagesCow(child);
      Chain(dirs0, tables0, dirs, tables1, tables2, tables, p, child);
      ForkKeepsSharing(dirs0, tables0, frames, used, old(nextDir), old(nextTable), dirs, tables, p, child);
      ForkRefines(dirs0, tables0, frames, old(nextDir), old(nextTable), dirs, tables, p);
      forall v | 0 <= v < USER_PAGES
        ensures WritableAfterFork(dirs0, tables0, dirs, tables, p, child, v)
        ensures LoadableAfterFork(dirs0, tables0, dirs, tables, p, child, v)
      {
        RightsAfterFork(dirs0, tables0, frames, used, old(nextDir), old(nextTable), dirs, tables, p, child, v);
      }
    }

    /** palloc_get_page. */
    method PallocGetPage() returns (f: nat)
      requires FirstRun(used, 0, 1, false).Some?
      modifies this`used
      ensures f < |old(used)| && !old(used)[f] && used == SetRun(old(used), f, 1, true)
      ensures FreeFrames() == old(FreeFrames()) - 1
    {
      var run := FirstRun(used, 0, 1, false);
      f := run.value;
      assert AllAre(used, f, 1, false);
      OneTaken(used, f);
      used := SetRun(used, f, 1, true);
    }

    /** __do_cow: page v of p moves to a frame of its own, writable, with the same bytes. */
    method DoCow(p: nat, v: nat)
      requires Valid() && p in dirs && v < USER_PAGES && FirstRun(used, 0, 1, false).Some?
      requires Present(PteOf(dirs, tables, p, v)) && IsCow(PteOf(dirs, tables, p, v))
      modifies this`tables, this`frames, this`used
      ensures Valid() && View() == old(View()) && FreeFrames() == old(FreeFrames()) - 1
      ensures Present(PteOf(dirs, tables, p, v)) && Writable(PteOf(dirs, tables, p, v))
    {
      hide TablesOk, FramesOk, WorldOf, Present, Writable, IsCow, Frame, WORD, CreatePte;
      var pte := PteOf(dirs, tables, p, v);
      MappedFrame(dirs, tables, frames, used, nextDir, nextTable, p, v);
      PteBelowWord(dirs, tables, nextDir, nextTable, p, v);
      NeverTakenForHeap(pte);
      var buffer := frames[Frame(pte)];
      var f := PallocGetPage();
      var entry := CreatePte(f * 4096, 1, 1);
      FreshEntry(f);
      SetPteTables(dirs, tables, nextDir, nextTable, p, v, entry);
      SetPteLoads(dirs, tables, nextDir, nextTable, p, v, entry);
      FreshFrameOk(dirs, tables, frames, old(used), dirs, SetPte(dirs, tables, p, v, entry), p, v, entry, f, buffer);
      SetPteOnly(dirs, tables, nextDir, nextTable, p, v, entry, p, v);
      CowKeepsWorld(dirs, tables, frames, old(used), nextDir, nextTable, p, v, entry, f);
      tables := SetPte(dirs, tables, p, v, entry);
      frames := frames[f := buffer];
    }

    method ReadByte(p: nat, v: nat, off: nat) returns (o: Outcome)
      requires Valid() && OpOk(View(), Read(p, v, off))
      ensures o == Step(View(), Read(p, v, off)).1
    {
      hide TablesOk, FramesOk, Present, Writable, IsCow, Frame;
      var pte := PteOf(dirs, tables, p, v);
      if !HasTable(dirs, p, v) || pte == 0 {
        o := Fault;
      } else if !Present(pte) {
        o := Denied;
      } else {
        MappedFrame(dirs, tables, frames, used, nextDir, nextTable, p, v);
        o := Got(frames[Frame(pte)][off]);
      }
    }

    /** A store as the processor and handle_pagefault carry it out. */
    method WriteByte(p: nat, v: nat, off: nat, b: Byte) returns (o: Outcome)
      requires Valid() && OpOk(View(), Write(p, v, off, b))
      modifies this`tables, this`frames, this`used
      ensures Valid()
      ensures o == NoMemory ==> View() == old(View())
      ensures o != NoMemory ==>
                View() == Step(old(View()), Write(p, v, off, b)).0 && o == Step(old(View()), Write(p, v, off, b)).1
      ensures o == Done || o == NoMemory <==> MayWrite(PteOf(old(dirs), old(tables), p, v))
      ensures var e := PteOf(old(dirs), old(tables), p, v);
              && (o == NoMemory <==>
                    MayWrite(e) && !(Present(e) && Writable(e)) && FirstRun(old(used), 0, 1, false).None?)
              && FreeFrames() == old(FreeFrames()) - if o == Done && !(Present(e) && Writable(e)) then 1 else 0
      ensures o == NoMemory ==> used == old(used)
    {
      hide TablesOk, FramesOk, Present, Writable, IsCow, Frame, WorldOf;
      WorldSpaces(dirs, tables, frames, nextDir);
      var pte := PteOf(dirs, tables, p, v);
      CowMeansPresent(dirs, tables, frames, used, p, v);
      PteHasTable(dirs, tables, p, v);
      NotPresentZero();
      ZeroNotCow();
      if !HasTable(dirs, p, v) || pte == 0 {
        return Fault;
      }
      if Present(pte) && Writable(pte) {
        Store(p, v, off, b);
        return Done;
      }
      if !IsCow(pte) {
        return Denied;
      }
      if FirstRun(used, 0, 1, false).None? {
        return NoMemory;
      }
      DoCow(p, v);
      Store(p, v, off, b);
      o := Done;
    }

    method Store(p: nat, v: nat, off: nat, b: Byte)
      requires Valid() && p in dirs && v < USER_PAGES && off < PAGE_BYTES
      requires Present(PteOf(dirs, tables, p, v)) && Writable(PteOf(dirs, tables, p, v))
      modifies this`frames
      ensures Valid() && View() == Step(old(View()), Write(p, v, off, b)).0
      ensures Step(old(View()), Write(p, v, off, b)).1 == Done
    {
      hide TablesOk, Present, Writable, IsCow, Frame;
      MappedFrame(dirs, tables, frames, used, nextDir, nextTable, p, v);
      var f := Frame(PteOf(dirs, tables, p, v));
      var content: Page := WithByte(frames[f], off, b);
      StoreWorld(dirs, tables, frames, used, nextDir, nextTable, p, v, off, b);
      frames := frames[f := content];
    }

    /** map_page: a writable entry for frame f, in a fresh zeroed table if there is none yet. */
    method MapPage(p: nat, v: nat, f: nat)
      requires TablesOk(dirs, tables, nextDir, nextTable) && 0 < nextTable && p in dirs && v < USER_PAGES
      requires f < FRAME_COUNT
      modifies this`dirs, this`tables, this`nextTable
      ensures TablesOk(dirs, tables, nextDir, nextTable) && 0 < nextTable && dirs.Keys == old(dirs.Keys)
      ensures LoadedSlots(old(dirs), old(tables), dirs, tables, p, v, CreatePte(f * 4096, 1, 1))
    {
      hide WORD, CreatePte;
      FreshEntry(f);
      var i := v / 1024;
      if dirs[p][i] != 0 {
        SetPteTables(dirs, tables, nextDir, nextTable, p, v, CreatePte(f * 4096, 1, 1));
        SetPteLoads(dirs, tables, nextDir, nextTable, p, v, CreatePte(f * 4096, 1, 1));
        tables := SetPte(dirs, tables, p, v, CreatePte(f * 4096, 1, 1));
      } else {
        var pgt: seq<nat> := seq(1024, _ => 0);
        NewTableLoads(dirs, tables, nextDir, nextTable, p, v, CreatePte(f * 4096, 1, 1));
        tables := tables[nextTable := pgt[v % 1024 := CreatePte(f * 4096, 1, 1)]];
        var row: seq<nat> := dirs[p][i := nextTable];
        dirs := dirs[p := row];
        nextTable := nextTable + 1;
      }
    }

    /** A page fault on a missing page, which is refused for page 0: vma_load maps a frame and fills
        it. What mapping_load reads from a file loses the write right if the area is not writeable;
        a page that is filled with zeros, for want of a file or beyond its part that is mapped,
        keeps it. */
    method LoadPage(p: nat, v: nat, content: Page, fill: Fill) returns (o: Outcome)
      requires Valid() && OpOk(View(), Load(p, v, content, fill))
      modifies this`dirs, this`tables, this`frames, this`used, this`nextTable
      ensures Valid()
      ensures o == NoMemory ==> View() == old(View())
      ensures o != NoMemory ==>
                && View() == Step(old(View()), Load(p, v, content, fill)).0
                && o == Step(old(View()), Load(p, v, content, fill)).1
      ensures o == Denied <==> !MayLoad(old(dirs), old(tables), p, v)
      ensures o == NoMemory <==> MayLoad(old(dirs), old(tables), p, v) && FirstRun(old(used), 0, 1, false).None?
      ensures FreeFrames() == old(FreeFrames()) - if o == Done then 1 else 0
      ensures o == NoMemory ==> used == old(used)
    {
      hide TablesOk, FramesOk, Present, Writable, IsCow, Frame, WorldOf, CreatePte, MarkReadOnly, LoadedSlots;
      hide WORD;
      WorldSpaces(dirs, tables, frames, nextDir);
      NotMissing(PteOf(dirs, tables, p, v), frames);
      if v == 0 || (HasTable(dirs, p, v) && PteOf(dirs, tables, p, v) != 0) {
        return Denied;
      }
      if FirstRun(used, 0, 1, false).None? {
        return NoMemory;
      }
      Bring(p, v, content, fill);
      o := Done;
    }

    /** The part of vma_load that maps a frame and fills it. */
    method Bring(p: nat, v: nat, content: Page, fill: Fill)
      requires Valid() && OpOk(View(), Load(p, v, content, fill)) && p in dirs && v < USER_PAGES
      requires MayLoad(dirs, tables, p, v) && FirstRun(used, 0, 1, false).Some?
      modifies this`dirs, this`tables, this`frames, this`used, this`nextTable
      ensures Valid() && FreeFrames() == old(FreeFrames()) - 1 && WorldOk(old(View()))
      ensures (View(), Done) == Step(old(View()), Load(p, v, content, fill))
    {
      hide TablesOk, FramesOk, Present, Writable, IsCow, Frame, WorldOf, CreatePte, MarkReadOnly, LoadedSlots;
      hide WORD, FirstRun, CountOf, MayLoad, Step;
      ghost var dirs0, tables0, frames0, used0, nextTable0 := dirs, tables, frames, used, nextTable;
      var f := PallocGetPage();
      FreshEntry(f);
      ReadOnlyEntry(CreatePte(f * 4096, 1, 1));
      MapPage(p, v, f);
      frames := frames[f := content];
      ghost var e := CreatePte(f * 4096, 1, 1);
      if fill.FromFile? && !fill.writable {
        var entry := MarkReadOnly(CreatePte(f * 4096, 1, 1));
        e := entry;
        Reload(dirs0, tables0, dirs, tables, nextDir, nextTable, p, v, CreatePte(f * 4096, 1, 1), entry);
        SetPteTables(dirs, tables, nextDir, nextTable, p, v, entry);
        tables := SetPte(dirs, tables, p, v, entry);
      }
      FreshFrameOk(dirs0, tables0, frames0, used0, dirs, tables, p, v, e, f, content);
      LoadRefines(dirs0, tables0, frames0, used0, nextDir, nextTable0, dirs, tables, p, v, e, f, content, fill);
    }

    /** One operation. Only a store or a load can take a frame, one at most. */
    method Do(op: Op) returns (o: Outcome)
      requires Valid() && OpOk(View(), op)
      modifies this
      ensures Valid()
      ensures o == NoMemory ==> View() == old(View())
      ensures o != NoMemory ==> View() == Step(old(View()), op).0 && o == Step(old(View()), op).1
      ensures o == NoMemory ==> Takes(op) > 0 && FirstRun(used, 0, 1, false).None? && used == old(used)
      ensures FreeFrames() + Takes(op) >= old(FreeFrames())
    {
      hide TablesOk, FramesOk, WorldOf, FirstRun;
      WorldSpaces(dirs, tables, frames, nextDir);
      match op
      case Read(p, v, off) => o := ReadByte(p, v, off);
      case Write(p, v, off, b) => o := WriteByte(p, v, off, b);
      case Load(p, v, content, fill) => o := LoadPage(p, v, content, fill);
      case Fork(p) =>
        var child := Fork(p);
        o := Child(child);
    }

    /** Any interleaving of reads, writes, page loads and forks, in any address spaces: every
        outcome, and the world at the end, are those of copying eagerly. A run stops short only
        at a store or a load, when no frame is free, and never if there were as many frames as
        it has stores and loads. */
    method Run(ops: seq<Op>) returns (outcomes: seq<Outcome>)
      requires Valid() && WorldOk(View()) && RunOk(View(), ops)
      modifies this
      ensures Valid() && |outcomes| <= |ops| && RunOk(old(View()), ops[..|outcomes|])
      ensures (View(), outcomes) == EagerFork.Run(old(View()), ops[..|outcomes|])
      ensures |outcomes| < |ops| ==> Takes(ops[|outcomes|]) > 0 && FirstRun(used, 0, 1, false).None?
      ensures FreeFrames() + Takers(ops[..|outcomes|]) >= old(FreeFrames())
      ensures old(FreeFrames()) >= Takers(ops) ==> |outcomes| == |ops|
    {
      hide TablesOk, FramesOk, WorldOf, Step, FirstRun;
      outcomes := [];
      ghost var w0 := View();
      var i := 0;
      while i < |ops|
        invariant 0 <= i <= |ops| && |outcomes| == i && Valid() && WorldOk(View()) && WorldOk(w0)
        invariant RunOk(w0, ops[..i]) && EagerFork.Run(w0, ops[..i]) == (View(), outcomes)
        invariant RunOk(View(), ops[i..]) && FreeFrames() + Takers(ops[..i]) >= old(FreeFrames())
      {
        ghost var w := View();
        TakersNext(ops, i);
        var o := Do(ops[i]);
        assert ops[..i][..|outcomes|] == ops[..i];
        if o == NoMemory {
          NoneFree(used);
          return;
        }
        WorldSpaces(dirs, tables, frames, nextDir);
        RunSnoc(w0, ops, i);
        outcomes := outcomes + [o];
        i := i + 1;
      }
      assert ops[..|outcomes|] == ops;
    }
  }

  /** How many frames an operation may take. */
  function Takes(op: Op): nat {
    if op.Write? || op.Load? then 1 else 0
  }

  function Takers(ops: seq<Op>): nat {
    if ops == [] then 0 else Takers(ops[..|ops| - 1]) + Takes(ops[|ops| - 1])
  }

  lemma {:induction false} TakersNext(ops: seq<Op>, i: nat)
    requires i < |ops|
    ensures Takers(ops[..i + 1]) == Takers(ops[..i]) + Takes(ops[i]) && Takers(ops[..i + 1]) <= Takers(ops)
    decreases |ops| - i
  {
    assert ops[..i + 1][..i] == ops[..i];
    if i + 1 < |ops| {
      TakersNext(ops, i + 1);
    } else {
      assert ops[..i + 1] == ops;
    }
  }

  lemma NoneFree(used: seq<bool>)
    ensures CountOf(used, false) > 0 ==> FirstRun(used, 0, 1, false).Some?
  {
    CountOfPositive(used, false);
    if CountOf(used, false) > 0 {
      var k :| 0 <= k < |used| && used[k] == false;
      assert AllAre(used, k, 1, false);
    }
  }

  lemma OneTaken(used: seq<bool>, f: nat)
    requires f < |used| && !used[f]
    ensures CountOf(SetRun(used, f, 1, true), false) == CountOf(used, false) - 1
  {
    CountOfUpdate(used, f, true, false);
    assert SetRun(used, f, 1, true) == used[f := true];
  }
}
