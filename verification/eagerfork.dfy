/** The reference semantics: every fork copies every mapped page at once. */
module EagerFork {
  import opened Common

  type Page = seq<Byte>

  const USER_PAGES := 768 * 1024

  /** What an address space has at one page. Stuck pages are not present, but their entry is
      not zero either, so the fault handler refuses to load them. */
  datatype Cell = NoTable | Missing | Stuck | Mapped(content: Page, writable: bool)

  type Space = seq<Cell>

  datatype World = World(spaces: map<nat, Space>, next: nat)

  datatype Op =
    | Read(p: nat, v: nat, off: nat)
    | Write(p: nat, v: nat, off: nat, b: Byte)
    | Load(p: nat, v: nat, content: Page, fill: Fill)
    | Fork(p: nat)

  datatype Outcome = Got(b: Byte) | Done | Fault | Denied | Child(p: nat) | NoMemory

  predicate ContentOk(content: Page, fill: Fill) {
    |content| == PAGE_BYTES && (fill.ZeroFill? ==> forall i :: 0 <= i < PAGE_BYTES ==> content[i] == 0)
  }

  predicate OpOk(w: World, op: Op) {
    && op.p in w.spaces
    && (!op.Fork? ==> op.v < USER_PAGES)
    && (op.Read? || op.Write? ==> op.off < PAGE_BYTES)
    && (op.Load? ==> ContentOk(op.content, op.fill))
  }

  /** What fork does to a page of the parent, and hands to the child. */
  function ForkCell(v: nat, c: Cell): Cell {
    match c
    case Missing => if v % 1024 == 0 then Stuck else Missing
    case Mapped(content, _) => Mapped(content, true)
    case _ => c
  }

  function ForkSpace(s: Space): Space {
    seq(|s|, v requires 0 <= v < |s| => ForkCell(v, s[v]))
  }

  /** Loading page v also brings in the table of its 4 MB region. */
  function LoadCell(v: nat, u: nat, c: Cell, content: Page, fill: Fill): Cell {
    if u == v then Mapped(content, Right(fill))
    else if u / 1024 == v / 1024 && c == NoTable then Missing
    else c
  }

  function LoadSpace(s: Space, v: nat, content: Page, fill: Fill): Space {
    seq(|s|, u requires 0 <= u < |s| => LoadCell(v, u, s[u], content, fill))
  }

  function Step(w: World, op: Op): (World, Outcome)
    requires OpOk(w, op) && (!op.Fork? ==> |w.spaces[op.p]| == USER_PAGES)
  {
    var s := w.spaces[op.p];
    match op
    case Read(p, v, off) =>
      (w, match s[v]
          case Mapped(content, _) => if off < |content| then Got(content[off]) else Fault
          case Stuck => Denied
          case _ => Fault)
    case Write(p, v, off, b) =>
      (match s[v]
       case Mapped(content, writable) =>
         if writable && off < |content|
         then (World(w.spaces[p := s[v := Mapped(WithByte(content, off, b), true)]], w.next), Done)
         else (w, Denied)
       case Stuck => (w, Denied)
       case _ => (w, Fault))
    case Load(p, v, content, fill) =>
      if v > 0 && (s[v].NoTable? || s[v].Missing?)
      then (World(w.spaces[p := LoadSpace(s, v, content, fill)], w.next), Done)
      else (w, Denied)
    case Fork(p) =>
      (World(w.spaces[p := ForkSpace(s)][w.next := ForkSpace(s)], w.next + 1), Child(w.next))
  }

  predicate WorldOk(w: World) {
    forall p :: p in w.spaces ==> |w.spaces[p]| == USER_PAGES
  }

  lemma StepOk(w: World, op: Op)
    requires WorldOk(w) && OpOk(w, op)
    ensures WorldOk(Step(w, op).0)
  {
  }

  /** A run as long as its operations name existing spaces. */
  predicate RunOk(w: World, ops: seq<Op>)
    requires WorldOk(w)
    decreases |ops|
  {
    ops == [] || (OpOk(w, ops[0]) && (StepOk(w, ops[0]); RunOk(Step(w, ops[0]).0, ops[1..])))
  }

  function Run(w: World, ops: seq<Op>): (World, seq<Outcome>)
    requires WorldOk(w) && RunOk(w, ops)
    decreases |ops|
  {
    if ops == [] then (w, [])
    else
      StepOk(w, ops[0]);
      var (w1, o) := Step(w, ops[0]);
      var (w2, os) := Run(w1, ops[1..]);
      (w2, [o] + os)
  }

  // ----- what the reference says about fork

  predicate Names(op: Op, q: nat) {
    op.p == q
  }

  /** Isolation: whatever other address spaces read, write, load or fork, a space keeps its
      contents; so after fork neither side sees the other's writes. */
  lemma {:induction false} OthersDoNotTouch(w: World, ops: seq<Op>, q: nat)
    requires WorldOk(w) && RunOk(w, ops) && q in w.spaces && q < w.next
    requires forall i :: 0 <= i < |ops| ==> !Names(ops[i], q)
    ensures q in Run(w, ops).0.spaces && Run(w, ops).0.spaces[q] == w.spaces[q]
    decreases |ops|
  {
    if ops != [] {
      StepOk(w, ops[0]);
      assert !Names(ops[0], q);
      forall i | 0 <= i < |ops[1..]| ensures !Names(ops[1..][i], q) {
        assert !Names(ops[i + 1], q);
      }
      OthersDoNotTouch(Step(w, ops[0]).0, ops[1..], q);
    }
  }

  /** Parent and child read the same bytes right after fork, the ones the parent had. */
  lemma ForkCopiesContents(w: World, p: nat, v: nat, off: nat)
    requires WorldOk(w) && p in w.spaces && w.next !in w.spaces && v < USER_PAGES && off < PAGE_BYTES
    requires w.spaces[p][v].Mapped?
    ensures var w' := Step(w, Fork(p)).0;
            && Step(w', Read(p, v, off)).1 == Step(w, Read(p, v, off)).1
            && Step(w', Read(w.next, v, off)).1 == Step(w, Read(p, v, off)).1
  {
  }

  /** A store that is done is read back, and is all that has changed for anybody; one that is not done
      has changed nothing. It is done exactly where the page is there and may be written. */
  lemma StoreIsRead(w: World, p: nat, v: nat, off: nat, b: Byte, q: nat, u: nat, o: nat)
    requires WorldOk(w) && OpOk(w, Write(p, v, off, b)) && OpOk(w, Read(q, u, o))
    requires forall s, x :: s in w.spaces && 0 <= x < USER_PAGES && w.spaces[s][x].Mapped? ==>
               |w.spaces[s][x].content| == PAGE_BYTES
    ensures var (w', done) := Step(w, Write(p, v, off, b));
            && WorldOk(w') && OpOk(w', Read(q, u, o))
            && (done == Done <==> w.spaces[p][v].Mapped? && w.spaces[p][v].writable)
            && (done != Done ==> w' == w)
            && Step(w', Read(q, u, o)).1
               == if done == Done && q == p && u == v && o == off then Got(b) else Step(w, Read(q, u, o)).1
  {
  }

  /** A page that was loaded reads as what was loaded, and may be written unless it came from the file
      of an area that is not writeable. All other pages read as before. */
  lemma LoadIsRead(w: World, p: nat, v: nat, content: Page, fill: Fill, q: nat, u: nat, o: nat, b: Byte)
    requires WorldOk(w) && OpOk(w, Load(p, v, content, fill)) && OpOk(w, Read(q, u, o))
    ensures var (w', done) := Step(w, Load(p, v, content, fill));
            && WorldOk(w') && OpOk(w', Read(q, u, o))
            && (done == Done <==> v != 0 && !w.spaces[p][v].Mapped? && !w.spaces[p][v].Stuck?)
            && (done != Done ==> w' == w)
            && Step(w', Read(q, u, o)).1
               == (if done == Done && q == p && u == v then Got(content[o]) else Step(w, Read(q, u, o)).1)
            && (done == Done ==>
                  (Step(w', Write(p, v, o, b)).1 == Done <==> fill == ZeroFill || fill == FromFile(true)))
  {
  }

  /** A page that is stuck stays so, whatever is done, and every access to it is refused; and a child
      has it stuck, too. */
  lemma {:induction false} StuckStays(w: World, ops: seq<Op>, q: nat, v: nat)
    requires WorldOk(w) && RunOk(w, ops) && q in w.spaces && q < w.next && v < USER_PAGES && w.spaces[q][v].Stuck?
    ensures var (w', os) := Run(w, ops);
            && q in w'.spaces && |w'.spaces[q]| == USER_PAGES && w'.spaces[q][v].Stuck? && |os| == |ops|
            && forall i :: 0 <= i < |ops| && ops[i].p == q ==>
                 if ops[i].Fork? then StuckIn(w', os[i], v) else ops[i].v == v ==> os[i] == Denied
    decreases |ops|
  {
    if ops != [] {
      StepOk(w, ops[0]);
      var (w1, o) := Step(w, ops[0]);
      StuckStays(w1, ops[1..], q, v);
      if ops[0] == Fork(q) { StuckStays(w1, ops[1..], w.next, v); }
      assert forall i :: 0 < i < |ops| ==> ops[i] == ops[1..][i - 1];
    }
  }

  /** The child that this is the result of making has page v stuck. */
  predicate StuckIn(w: World, o: Outcome, v: nat) {
    o.Child? && o.p in w.spaces && v < |w.spaces[o.p]| && w.spaces[o.p][v].Stuck?
  }
}
