/** Deferred work: a queue ordered by deadline and a worker thread that runs what is due. The
    worker gives up the lock between its steps, so anything may happen in between. */
module Work {
  import opened Common
  import opened Ordering

  type Id = nat

  /** struct work: the deadline and the two flags that are used. */
  datatype Item = Item(at: nat, cancelled: bool, killed: bool)

  /** Where the worker is: looking at the queue; with an item off the queue; with the item in
      current_work; in or past its function, which was called or not; with current_work
      cleared, before it looks at the flag that says to free the item. */
  datatype Phase =
    | Idle
    | Popped(w: Id)
    | Entered(w: Id)
    | Executing(w: Id, called: bool)
    | Finishing(w: Id)

  /** stuck says that work_lock was taken and will not be given back. */
  datatype State = State(ticks: nat, items: map<Id, Item>, queue: seq<Id>, phase: Phase, stuck: bool)

  datatype Op =
    | Create(w: Id)
    | Schedule(w: Id)
    | ScheduleAt(w: Id, abs: nat)
    | ScheduleDelay(w: Id, delay: nat, late: nat)
    | Reschedule(delay: nat, late: nat)
    | Cancel(w: Id)
    | Tick
    | Pop
    | Enter
    | Start
    | Return
    | Reap

  /** current_work is w. */
  predicate Current(s: State, w: Id) {
    (s.phase.Entered? || s.phase.Executing?) && s.phase.w == w
  }

  predicate Held(s: State, w: Id) {
    !s.phase.Idle? && s.phase.w == w
  }

  /** The step takes the lock. */
  predicate TakesLock(s: State, op: Op) {
    match op
    case Schedule(_) => true
    case ScheduleAt(_, abs) => abs >= s.ticks
    case ScheduleDelay(_, delay, late) => late <= delay
    case Reschedule(delay, late) =>
      late <= delay && !(s.phase.Executing? && s.phase.w in s.items && s.items[s.phase.w].cancelled)
    case Cancel(_) => true
    case Pop => true
    case _ => false
  }

  /** What callers must see to: an item is queued once, and not touched once freed. Nobody gets
      past a lock that is not given back. */
  predicate Allowed(s: State, op: Op) {
    Usage(s, op) && (s.stuck ==> !TakesLock(s, op))
  }

  predicate Usage(s: State, op: Op) {
    match op
    case Create(w) => w !in s.items && w !in s.queue
    case Schedule(w) => w in s.items && w !in s.queue && !Held(s, w)
    case ScheduleAt(w, _) => w in s.items && w !in s.queue && !Held(s, w)
    case ScheduleDelay(w, _, _) => w in s.items && w !in s.queue && !Held(s, w)
    case Reschedule(delay, late) =>
      && s.phase.Executing? && s.phase.called && s.phase.w in s.items
      && (s.phase.w in s.queue ==> s.items[s.phase.w].cancelled || late > delay)
    case Cancel(w) => w in s.items
    case Tick => true
    case Pop => s.phase.Idle?
    case Enter => s.phase.Popped?
    case Start => s.phase.Entered? && s.phase.w in s.items
    case Return => s.phase.Executing?
    case Reap => s.phase.Finishing? && s.phase.w in s.items
  }

  function DueAt(items: map<Id, Item>, w: Id): nat {
    if w in items then items[w].at else 0
  }

  /** work_less */
  function WorkLess(items: map<Id, Item>): Less<Id> {
    (a: Id, b: Id) => DueAt(items, a) < DueAt(items, b)
  }

  /** list_insert_ordered */
  function Queued(s: State, w: Id): State {
    var k := OrderedPos(WorkLess(s.items), s.queue, w);
    s.(queue := s.queue[..k] + [w] + s.queue[k..])
  }

  function QueuedAt(s: State, w: Id, abs: nat): State
    requires w in s.items
  {
    if abs < s.ticks then s else Queued(s.(items := s.items[w := s.items[w].(at := abs)]), w)
  }

  /** One step. In schedule_work_delay the clock is read twice, late ticks apart. */
  function Step(s: State, op: Op): State
    requires Allowed(s, op)
  {
    match op
    case Create(w) => s.(items := s.items[w := Item(0, false, false)])
    case Schedule(w) => Queued(s, w)
    case ScheduleAt(w, abs) => QueuedAt(s, w, abs)
    case ScheduleDelay(w, delay, late) => QueuedAt(s.(ticks := s.ticks + late), w, s.ticks + delay)
    case Reschedule(delay, late) =>
      var w := s.phase.w;
      if s.items[w].cancelled then s
      else
        QueuedAt(s.(items := s.items[w := s.items[w].(killed := false)], ticks := s.ticks + late), w, s.ticks + delay)
    case Cancel(w) =>
      if Current(s, w) then s.(items := s.items[w := s.items[w].(cancelled := true)])
      else if s.items[w].cancelled then s.(stuck := true)
      else s.(items := s.items[w := s.items[w].(killed := true)])
    case Tick => s.(ticks := s.ticks + 1)
    case Pop =>
      if s.queue == [] || DueAt(s.items, s.queue[0]) >= s.ticks then s
      else s.(queue := s.queue[1..], phase := Popped(s.queue[0]))
    case Enter => s.(phase := Entered(s.phase.w))
    case Start =>
      var w := s.phase.w;
      if s.items[w].killed then s.(phase := Executing(w, false))
      else s.(items := s.items[w := s.items[w].(killed := true)], phase := Executing(w, true))
    case Return => s.(phase := Finishing(s.phase.w))
    case Reap =>
      var w := s.phase.w;
      if s.items[w].killed then s.(items := s.items - {w}, phase := Idle) else s.(phase := Idle)
  }

  /** The step calls the function of w. */
  predicate Executes(s: State, op: Op, w: Id) {
    op.Start? && Allowed(s, op) && s.phase.w == w && !s.items[w].killed
  }

  /** The step cancels an item that is queued again while the worker is about to look at the
      flag that says to free it. */
  predicate CancelTooLate(s: State, op: Op) {
    && op.Cancel? && s.phase.Finishing? && s.phase.w == op.w && op.w in s.queue
    && op.w in s.items && !s.items[op.w].cancelled
  }

  /** No item in the queue has been freed. */
  ghost predicate QueueLive(s: State) {
    forall i :: 0 <= i < |s.queue| ==> s.queue[i] in s.items
  }

  ghost predicate InOrder(s: State) {
    Sorted(WorkLess(s.items), s.queue)
  }

  ghost predicate NoRepeats(q: seq<Id>) {
    forall i, j :: 0 <= i < j < |q| ==> q[i] != q[j]
  }

  /** What the worker knows about the item it holds. */
  ghost predicate PhaseOk(s: State) {
    !s.phase.Idle? ==>
      && s.phase.w in s.items
      && (s.phase.Popped? || s.phase.Entered? ==> s.phase.w !in s.queue && s.items[s.phase.w].at < s.ticks)
      && (s.phase.Executing? && !s.phase.called ==> s.phase.w !in s.queue && s.items[s.phase.w].killed)
      && (s.phase.Executing? && s.phase.w in s.queue ==> !s.items[s.phase.w].killed)
  }

  ghost predicate Inv(s: State) {
    QueueLive(s) && InOrder(s) && NoRepeats(s.queue) && PhaseOk(s)
  }

  /** The worker is about to free an item that is in the queue. */
  predicate AboutToFreeQueued(s: State) {
    s.phase.Finishing? && s.phase.w in s.queue && s.phase.w in s.items && s.items[s.phase.w].killed
  }

  // ----- what a step keeps

  lemma QueuedOk(s: State, w: Id)
    requires QueueLive(s) && InOrder(s) && NoRepeats(s.queue) && w in s.items && w !in s.queue
    ensures var s' := Queued(s, w);
            && QueueLive(s') && InOrder(s') && NoRepeats(s'.queue) && s' == s.(queue := s'.queue)
            && (forall x :: x in s'.queue <==> x in s.queue || x == w)
  {
    hide OrderedPos, Sorted;
    var k := OrderedPos(WorkLess(s.items), s.queue, w);
    OrderedInsertSorted(WorkLess(s.items), s.queue, w);
    InsertedOnce(s.queue, k, w);
    forall x | x in Queued(s, w).queue
      ensures x in s.items
    {
      if x != w { var i :| 0 <= i < |s.queue| && s.queue[i] == x; }
    }
  }

  lemma InsertedOnce(q: seq<Id>, k: nat, w: Id)
    requires k <= |q| && NoRepeats(q) && w !in q
    ensures var r := q[..k] + [w] + q[k..];
            NoRepeats(r) && forall x :: x in r <==> x in q || x == w
  {
    var r := q[..k] + [w] + q[k..];
    forall i, j | 0 <= i < j < |r|
      ensures r[i] != r[j]
    {
      var i', j' := if i < k then i else i - 1, if j < k then j else j - 1;
      assert i != k ==> r[i] == q[i'];
      assert j != k ==> r[j] == q[j'];
    }
    assert q == q[..k] + q[k..];
  }

  /** Changing an item that is not queued changes nothing about the queue's order. */
  lemma OtherItem(s: State, w: Id, item: Item)
    requires QueueLive(s) && InOrder(s) && (w !in s.queue || (w in s.items && item.at == s.items[w].at))
    ensures var s' := s.(items := s.items[w := item]);
            QueueLive(s') && InOrder(s')
  {
    var items' := s.items[w := item];
    assert forall i :: 0 <= i < |s.queue| ==> DueAt(items', s.queue[i]) == DueAt(s.items, s.queue[i]);
    assert forall i, j :: 0 <= i < j < |s.queue| ==> !WorkLess(s.items)(s.queue[j], s.queue[i]);
  }

  lemma QueuedAtOk(s: State, w: Id, abs: nat)
    requires QueueLive(s) && InOrder(s) && NoRepeats(s.queue) && w in s.items && (w !in s.queue || abs < s.ticks)
    ensures var s' := QueuedAt(s, w, abs);
            && QueueLive(s') && InOrder(s') && NoRepeats(s'.queue)
            && s'.phase == s.phase && s'.ticks == s.ticks && s'.items.Keys == s.items.Keys
            && (forall x :: x in s.items && x != w ==> s'.items[x] == s.items[x])
            && s'.items[w].killed == s.items[w].killed && s'.items[w].cancelled == s.items[w].cancelled
            && (forall x :: x in s'.queue <==> x in s.queue || (x == w && abs >= s.ticks))
  {
    if abs >= s.ticks {
      OtherItem(s, w, s.items[w].(at := abs));
      QueuedOk(s.(items := s.items[w := s.items[w].(at := abs)]), w);
    }
  }

  lemma PopOk(s: State)
    requires Inv(s) && Allowed(s, Pop)
    ensures Inv(Step(s, Pop))
  {
    if s.queue != [] {
      var w, rest := s.queue[0], s.queue[1..];
      assert forall i :: 0 <= i < |rest| ==> rest[i] == s.queue[i + 1];
      assert w in s.items;
      assert w !in rest;
    }
  }

  lemma ScheduleOk(s: State, op: Op)
    requires Inv(s) && Allowed(s, op) && (op.Schedule? || op.ScheduleAt? || op.ScheduleDelay?)
    ensures Inv(Step(s, op)) && Step(s, op).phase == s.phase
  {
    hide Queued, QueuedAt, QueueLive, InOrder, NoRepeats;
    match op
    case Schedule(w) => QueuedOk(s, w);
    case ScheduleAt(w, abs) => QueuedAtOk(s, w, abs);
    case ScheduleDelay(w, delay, late) => LaterOk(s, late); QueuedAtOk(s.(ticks := s.ticks + late), w, s.ticks + delay);
  }

  lemma LaterOk(s: State, late: nat)
    requires QueueLive(s) && InOrder(s) && NoRepeats(s.queue)
    ensures var s' := s.(ticks := s.ticks + late);
            QueueLive(s') && InOrder(s')
  {
  }

  lemma RescheduleOk(s: State, delay: nat, late: nat)
    requires Inv(s) && Allowed(s, Reschedule(delay, late))
    ensures var s', w := Step(s, Reschedule(delay, late)), s.phase.w;
            && Inv(s') && s'.phase == s.phase
            && (forall x :: x != w ==> (x in s'.items <==> x in s.items) && (x in s'.queue <==> x in s.queue))
            && (forall x :: x in s.items && x != w ==> s'.items[x] == s.items[x])
            && (!s.items[w].cancelled ==>
                  w in s'.items && !s'.items[w].killed && (w in s'.queue <==> w in s.queue || late <= delay))
  {
    hide Queued, QueuedAt, QueueLive, InOrder, NoRepeats;
    var w := s.phase.w;
    var s1 := s.(items := s.items[w := s.items[w].(killed := false)]);
    OtherItem(s, w, s.items[w].(killed := false));
    LaterOk(s1, late);
    if !s.items[w].cancelled { QueuedAtOk(s1.(ticks := s.ticks + late), w, s.ticks + delay); }
  }

  /** Every step keeps the queue ordered, without repeats, and free of freed items, but for one:
      freeing an item that was cancelled too late. */
  lemma StepKeeps(s: State, op: Op)
    requires Inv(s) && Allowed(s, op)
    ensures op.Reap? && AboutToFreeQueued(s) <==> !QueueLive(Step(s, op))
    ensures QueueLive(Step(s, op)) ==> Inv(Step(s, op))
  {
    match op
    case Create(w) => OtherItem(s, w, Item(0, false, false));
    case Schedule(_) => ScheduleOk(s, op);
    case ScheduleAt(_, _) => ScheduleOk(s, op);
    case ScheduleDelay(_, _, _) => ScheduleOk(s, op);
    case Reschedule(delay, late) => RescheduleOk(s, delay, late);
    case Cancel(w) => OtherItem(s, w, Step(s, op).items[w]);
    case Tick =>
    case Pop => PopOk(s);
    case Enter =>
    case Start => OtherItem(s, s.phase.w, s.items[s.phase.w].(killed := true));
    case Return =>
    case Reap => ReapOk(s);
  }

  lemma ReapOk(s: State)
    requires Inv(s) && Allowed(s, Reap)
    ensures AboutToFreeQueued(s) <==> !QueueLive(Step(s, Reap))
    ensures QueueLive(Step(s, Reap)) ==> Inv(Step(s, Reap))
  {
    var w, s' := s.phase.w, Step(s, Reap);
    if AboutToFreeQueued(s) {
      var i :| 0 <= i < |s.queue| && s.queue[i] == w;
      assert s'.queue[i] !in s'.items;
    } else if s.items[w].killed {
      assert forall i :: 0 <= i < |s.queue| ==>
               s.queue[i] != w && DueAt(s'.items, s.queue[i]) == DueAt(s.items, s.queue[i]);
    }
  }

  /** The only step that makes the worker about to free a queued item is a cancel that comes
      too late. */
  lemma OnlyTooLate(s: State, op: Op)
    requires Inv(s) && Allowed(s, op)
    ensures AboutToFreeQueued(Step(s, op)) <==> CancelTooLate(s, op) || (AboutToFreeQueued(s) && !op.Reap?)
  {
    if op.Schedule? || op.ScheduleAt? || op.ScheduleDelay? || op.Reschedule? {
      SchedulingIsSafe(s, op);
    }
  }

  lemma SchedulingIsSafe(s: State, op: Op)
    requires Inv(s) && Allowed(s, op) && (op.Schedule? || op.ScheduleAt? || op.ScheduleDelay? || op.Reschedule?)
    ensures AboutToFreeQueued(Step(s, op)) <==> AboutToFreeQueued(s)
  {
    match op
    case Schedule(w) => QueuedOk(s, w);
    case ScheduleAt(w, abs) => QueuedAtOk(s, w, abs);
    case ScheduleDelay(w, delay, late) => LaterOk(s, late); QueuedAtOk(s.(ticks := s.ticks + late), w, s.ticks + delay);
    case Reschedule(delay, late) => RescheduleOk(s, delay, late);
  }

  // ----- whole runs

  predicate AllowedRun(s: State, ops: seq<Op>)
    decreases |ops|
  {
    ops == [] || (Allowed(s, ops[0]) && AllowedRun(Step(s, ops[0]), ops[1..]))
  }

  function Run(s: State, ops: seq<Op>): State
    requires AllowedRun(s, ops)
    decreases |ops|
  {
    if ops == [] then s else Run(Step(s, ops[0]), ops[1..])
  }

  /** Some time in the run, the queue holds an item that was freed. */
  ghost predicate QueuedIsFreed(s: State, ops: seq<Op>)
    requires AllowedRun(s, ops)
    decreases |ops|
  {
    !QueueLive(s) || (ops != [] && QueuedIsFreed(Step(s, ops[0]), ops[1..]))
  }

  /** In the run, a cancel comes too late, or has already done so if pending, and the worker
      then gets to free the item. */
  predicate TooLateThenReap(s: State, ops: seq<Op>, pending: bool)
    requires AllowedRun(s, ops)
    decreases |ops|
  {
    && ops != []
    && if ops[0].Reap? then pending || TooLateThenReap(Step(s, ops[0]), ops[1..], false)
       else TooLateThenReap(Step(s, ops[0]), ops[1..], pending || CancelTooLate(s, ops[0]))
  }

  /** A queued item is freed in exactly the runs in which a cancel comes between the clearing of
      current_work and the test of the flag, for an item queued again, and the test follows. */
  lemma {:induction false} FreedIffTooLate(s: State, ops: seq<Op>)
    requires Inv(s) && AllowedRun(s, ops)
    ensures QueuedIsFreed(s, ops) <==> TooLateThenReap(s, ops, AboutToFreeQueued(s))
    decreases |ops|
  {
    hide Inv, QueueLive, Allowed, Step, AboutToFreeQueued;
    InvLive(s);
    if ops != [] {
      StepKeeps(s, ops[0]);
      OnlyTooLate(s, ops[0]);
      var s' := Step(s, ops[0]);
      if QueueLive(s') {
        FreedIffTooLate(s', ops[1..]);
      }
    }
  }

  lemma InvLive(s: State)
    requires Inv(s)
    ensures QueueLive(s)
  {
  }

  /** No cancel comes too late. */
  predicate NoneTooLate(s: State, ops: seq<Op>)
    requires AllowedRun(s, ops)
    decreases |ops|
  {
    ops == [] || (!CancelTooLate(s, ops[0]) && NoneTooLate(Step(s, ops[0]), ops[1..]))
  }

  /** Without such a cancel the queue is in order and live at the end of any run, and so, as
      prefixes of runs are runs, all along. */
  lemma {:induction false} RunKeeps(s: State, ops: seq<Op>)
    requires Inv(s) && !AboutToFreeQueued(s) && AllowedRun(s, ops) && NoneTooLate(s, ops)
    ensures Inv(Run(s, ops)) && !AboutToFreeQueued(Run(s, ops))
    decreases |ops|
  {
    hide Inv, Allowed, Step, AboutToFreeQueued, CancelTooLate, QueueLive;
    if ops != [] {
      StepKeeps(s, ops[0]);
      OnlyTooLate(s, ops[0]);
      RunKeeps(Step(s, ops[0]), ops[1..]);
    }
  }

  /** What runs is past its deadline. */
  lemma RunsAfterDeadline(s: State, op: Op, w: Id)
    requires Inv(s) && Executes(s, op, w)
    ensures w in s.items && s.items[w].at < s.ticks
  {
  }

  // ----- the deadline that was asked for

  /** When the step asks for w to be run: at the time given, or the delay after the clock as it was
      at the call. A request that is refused, or is late, asks for nothing. */
  function Asked(s: State, op: Op, w: Id): Option<nat> {
    match op
    case Schedule(x) => if x == w && w in s.items then Some(s.items[w].at) else None
    case ScheduleAt(x, abs) => if x == w && s.ticks <= abs then Some(abs) else None
    case ScheduleDelay(x, delay, late) =>
      if x == w && s.ticks + late <= s.ticks + delay then Some(s.ticks + delay) else None
    case Reschedule(delay, late) =>
      if Held(s, w) && w in s.items && !s.items[w].cancelled && s.ticks + late <= s.ticks + delay
      then Some(s.ticks + delay) else None
    case _ => None
  }

  /** The item has the deadline that was asked for, and is in the queue behind all that have none
      later and in front of all that have a later one. */
  ghost predicate QueuedFor(s: State, s': State, w: Id, abs: nat) {
    && w in s'.items && s'.items[w].at == abs
    && exists k: nat ::
         && k <= |s.queue| && s'.queue == s.queue[..k] + [w] + s.queue[k..]
         && (forall i :: 0 <= i < k ==> s.queue[i] in s.items && s.items[s.queue[i]].at <= abs)
         && forall i :: k <= i < |s.queue| ==> s.queue[i] in s.items && s.items[s.queue[i]].at > abs
  }

  /** w was put in front of the first item with a later deadline. */
  ghost predicate InFrontOfLater(items: map<Id, Item>, queue: seq<Id>, queue': seq<Id>, w: Id) {
    w in items && exists k: nat ::
      && k <= |queue| && queue' == queue[..k] + [w] + queue[k..]
      && (forall i :: 0 <= i < k && queue[i] in items ==> items[queue[i]].at <= items[w].at)
      && (k < |queue| ==> queue[k] in items && items[queue[k]].at > items[w].at)
  }

  lemma QueuedInFront(s: State, w: Id)
    requires w in s.items
    ensures InFrontOfLater(s.items, s.queue, Queued(s, w).queue, w)
  {
    hide OrderedPos;
    var k := OrderedPos(WorkLess(s.items), s.queue, w);
    assert forall i :: 0 <= i < k ==> !WorkLess(s.items)(w, s.queue[i]);
  }

  lemma QueuedBehind(s: State, w: Id, abs: nat, s0: State)
    requires QueueLive(s) && InOrder(s) && w in s.items && w !in s.queue && s.items[w].at == abs
    requires s0.queue == s.queue && (forall x :: x in s.items <==> x in s0.items)
    requires forall x :: x in s.items && x != w ==> s0.items[x] == s.items[x]
    ensures QueuedFor(s0, Queued(s, w), w, abs)
  {
    hide OrderedPos;
    var k := OrderedPos(WorkLess(s.items), s.queue, w);
    forall i | 0 <= i < |s.queue|
      ensures s.queue[i] in s0.items
      ensures i < k ==> s0.items[s.queue[i]].at <= abs
      ensures i >= k ==> s0.items[s.queue[i]].at > abs
    {
      assert s.queue[i] != w;
      if i >= k { assert WorkLess(s.items)(w, s.queue[k]) && !WorkLess(s.items)(s.queue[i], s.queue[k]); }
    }
  }

  /** How far the clock goes on in a step. */
  function Passed(s: State, op: Op): nat {
    match op
    case Tick => 1
    case ScheduleDelay(_, _, late) => late
    case Reschedule(_, late) =>
      if !s.phase.Idle? && s.phase.w in s.items && s.items[s.phase.w].cancelled then 0 else late
    case _ => 0
  }

  /** A step that asks for w stores just that time, and queues w in its turn; any other step but
      its creation leaves the time that w has. A new item has none, which is 0. */
  lemma AskedIsStored(s: State, op: Op, w: Id)
    requires Inv(s) && Allowed(s, op)
    ensures var s' := Step(s, op);
            match Asked(s, op, w)
            case Some(abs) => QueuedFor(s, s', w, abs)
            case None =>
              && (op == Create(w) ==> w in s'.items && s'.items[w] == Item(0, false, false))
              && (op != Create(w) && w in s'.items ==> w in s.items && s'.items[w].at == s.items[w].at)
    ensures Step(s, op).ticks == s.ticks + Passed(s, op)
  {
    hide Queued, QueuedFor, OrderedPos;
    match op
    case Schedule(x) => QueuedOk(s, x); QueuedBehind(s, x, s.items[x].at, s);
    case ScheduleAt(x, abs) => QueuedAtBehind(s, x, abs, s);
    case ScheduleDelay(x, delay, late) =>
      LaterOk(s, late);
      QueuedAtBehind(s.(ticks := s.ticks + late), x, s.ticks + delay, s);
    case Reschedule(delay, late) =>
      var x := s.phase.w;
      var s1 := s.(items := s.items[x := s.items[x].(killed := false)]);
      OtherItem(s, x, s.items[x].(killed := false));
      LaterOk(s1, late);
      if !s.items[x].cancelled { QueuedAtBehind(s1.(ticks := s.ticks + late), x, s.ticks + delay, s); }
    case _ =>
  }

  lemma QueuedAtBehind(s: State, w: Id, abs: nat, s0: State)
    requires QueueLive(s) && InOrder(s) && NoRepeats(s.queue) && w in s.items && (w !in s.queue || abs < s.ticks)
    requires s0.queue == s.queue && (forall x :: x in s.items <==> x in s0.items)
    requires forall x :: x in s.items && x != w ==> s0.items[x] == s.items[x]
    ensures abs >= s.ticks ==> QueuedFor(s0, QueuedAt(s, w, abs), w, abs)
    ensures abs < s.ticks ==> QueuedAt(s, w, abs) == s
    ensures QueuedAt(s, w, abs).items.Keys == s.items.Keys && QueuedAt(s, w, abs).ticks == s.ticks
    ensures forall x :: x in s.items && x != w ==> QueuedAt(s, w, abs).items[x] == s.items[x]
  {
    hide QueuedFor;
    QueuedAtOk(s, w, abs);
    if abs >= s.ticks {
      var s1 := s.(items := s.items[w := s.items[w].(at := abs)]);
      OtherItem(s, w, s.items[w].(at := abs));
      QueuedBehind(s1, w, abs, s0);
    }
  }

  /** No step of the run asks for w again or creates another item in its place. */
  predicate NotAgain(s: State, ops: seq<Op>, w: Id)
    requires AllowedRun(s, ops)
    decreases |ops|
  {
    ops == [] || (Asked(s, ops[0], w).None? && ops[0] != Create(w) && NotAgain(Step(s, ops[0]), ops[1..], w))
  }

  /** Whenever the run calls the function of w, the clock is past abs. */
  predicate RunsOnlyAfter(s: State, ops: seq<Op>, w: Id, abs: nat)
    requires AllowedRun(s, ops)
    decreases |ops|
  {
    || ops == []
    || ((Executes(s, ops[0], w) ==> s.ticks > abs) && RunsOnlyAfter(Step(s, ops[0]), ops[1..], w, abs))
  }

  lemma {:induction false} HeldBack(s: State, ops: seq<Op>, w: Id, abs: nat)
    requires Inv(s) && !AboutToFreeQueued(s) && AllowedRun(s, ops) && NoneTooLate(s, ops)
    requires NotAgain(s, ops, w) && (w in s.items ==> s.items[w].at == abs)
    ensures RunsOnlyAfter(s, ops, w, abs)
    decreases |ops|
  {
    hide Inv, Allowed, Step, AboutToFreeQueued, CancelTooLate, Executes, QueueLive, Asked;
    if ops != [] {
      StepKeeps(s, ops[0]);
      OnlyTooLate(s, ops[0]);
      AskedIsStored(s, ops[0], w);
      if Executes(s, ops[0], w) { RunsAfterDeadline(s, ops[0], w); }
      HeldBack(Step(s, ops[0]), ops[1..], w, abs);
    }
  }

  /** What was asked to run at some time does not run before that, whatever comes in between,
      unless it is asked for again. */
  lemma NotBeforeAsked(s: State, op: Op, ops: seq<Op>, w: Id)
    requires Inv(s) && !AboutToFreeQueued(s) && Allowed(s, op) && Asked(s, op, w).Some?
    requires AllowedRun(Step(s, op), ops) && NoneTooLate(Step(s, op), ops) && NotAgain(Step(s, op), ops, w)
    ensures RunsOnlyAfter(Step(s, op), ops, w, Asked(s, op, w).value)
  {
    hide Inv, Allowed, AboutToFreeQueued, QueueLive, NotAgain, RunsOnlyAfter, NoneTooLate, Step;
    StepKeeps(s, op);
    OnlyTooLate(s, op);
    AskedIsStored(s, op, w);
    HeldBack(Step(s, op), ops, w, Asked(s, op, w).value);
  }

  // ----- what is due does run

  /** The worker alone, for n items. */
  function Rounds(n: nat): seq<Op> {
    if n == 0 then [] else [Pop] + ([Enter] + ([Start] + ([Return] + ([Reap] + Rounds(n - 1)))))
  }

  /** After a round of the worker the first item is gone from the queue, and its function was called
      unless it was killed. */
  lemma OneRound(s: State, rest: seq<Op>, x: Id) returns (s': State)
    requires Inv(s) && s.phase.Idle? && !s.stuck && s.queue != [] && DueAt(s.items, s.queue[0]) < s.ticks
    ensures s' == s.(queue := s.queue[1..], items := s.items - {s.queue[0]}) && Inv(s')
    ensures var ops := [Pop] + ([Enter] + ([Start] + ([Return] + ([Reap] + rest))));
            && (AllowedRun(s, ops) <==> AllowedRun(s', rest))
            && (AllowedRun(s, ops) ==>
                  && Run(s, ops) == Run(s', rest)
                  && (EverRuns(s, ops, x) <==>
                        (x == s.queue[0] && !s.items[x].killed) || EverRuns(s', rest, x)))
  {
    hide InOrder, OrderedPos;
    var w := s.queue[0];
    assert w in s.items;
    PopOk(s);
    var s1 := Step(s, Pop);
    var s2 := Step(s1, Enter);
    var s3 := Step(s2, Start);
    var s4 := Step(s3, Return);
    s' := Step(s4, Reap);
    assert s'.items == s.items - {w};
    hide Inv, Step, QueueLive, NoRepeats, PhaseOk;
    RoundInv(s, s');
    RunFirst(s4, Reap, rest, x);
    RunFirst(s3, Return, [Reap] + rest, x);
    RunFirst(s2, Start, [Return] + ([Reap] + rest), x);
    RunFirst(s1, Enter, [Start] + ([Return] + ([Reap] + rest)), x);
    RunFirst(s, Pop, [Enter] + ([Start] + ([Return] + ([Reap] + rest))), x);
  }

  lemma RoundInv(s: State, s': State)
    requires Inv(s) && s.phase.Idle? && s.queue != []
    requires s' == s.(queue := s.queue[1..], items := s.items - {s.queue[0]})
    ensures Inv(s')
  {
    var w, rest := s.queue[0], s.queue[1..];
    assert forall i :: 0 <= i < |rest| ==> rest[i] == s.queue[i + 1];
    assert w !in rest;
  }

  lemma RunFirst(s: State, op: Op, ops: seq<Op>, x: Id)
    ensures AllowedRun(s, [op] + ops) <==> Allowed(s, op) && AllowedRun(Step(s, op), ops)
    ensures AllowedRun(s, [op] + ops) ==> Run(s, [op] + ops) == Run(Step(s, op), ops)
    ensures AllowedRun(s, [op] + ops) ==>
              (EverRuns(s, [op] + ops, x) <==> Executes(s, op, x) || EverRuns(Step(s, op), ops, x))
  {
    assert ([op] + ops)[1..] == ops;
  }

  /** If the first n items of the queue are due, n rounds of the worker call the functions of just
      those of them that were not killed. */
  lemma {:induction false} DueItemsRun(s: State, n: nat, x: Id)
    requires Inv(s) && s.phase.Idle? && !s.stuck && n <= |s.queue|
    requires forall i :: 0 <= i < n ==> s.queue[i] in s.items && s.items[s.queue[i]].at < s.ticks
    ensures AllowedRun(s, Rounds(n)) && Run(s, Rounds(n)).queue == s.queue[n..] && Run(s, Rounds(n)).phase.Idle?
    ensures EverRuns(s, Rounds(n), x) <==> x in s.queue[..n] && x in s.items && !s.items[x].killed
    decreases n
  {
    hide AllowedRun, Run, EverRuns, InOrder, Step, Allowed;
    if n > 0 {
      var s' := OneRound(s, Rounds(n - 1), x);
      assert forall i :: 0 <= i < n - 1 ==> s'.queue[i] == s.queue[i + 1];
      DueItemsRun(s', n - 1, x);
      assert s.queue[..n] == [s.queue[0]] + s'.queue[..n - 1];
      assert s'.queue[n - 1..] == s.queue[n..];
    } else {
      NoRun(s, x);
    }
  }

  lemma NoRun(s: State, x: Id)
    ensures AllowedRun(s, []) && Run(s, []) == s && !EverRuns(s, [], x)
  {
  }

  // ----- cancelled work

  /** w was cancelled for good: it is on its way out of the queue, or gone. */
  predicate Doomed(s: State, w: Id) {
    w in s.items ==> s.items[w].killed && (w in s.queue || (Held(s, w) && !(s.phase.Executing? && s.phase.called)))
  }

  /** Cancelling a queued item stops it unless it is the one the worker is running, which was
      queued again: that only gets the flag that stops it from being queued once more. Cancelling
      that one again, once it does not run any more, takes the lock for good. */
  lemma CancelDooms(s: State, w: Id)
    requires Inv(s) && w in s.queue && Allowed(s, Cancel(w))
    ensures !s.items[w].cancelled ==> (Doomed(Step(s, Cancel(w)), w) <==> !Current(s, w))
    ensures Current(s, w) ==> Step(s, Cancel(w)).items[w].cancelled && !Step(s, Cancel(w)).items[w].killed
    ensures Step(s, Cancel(w)).stuck <==> !Current(s, w) && s.items[w].cancelled
  {
  }

  /** Once the lock is not given back, nothing joins or leaves the queue, and nothing runs but the
      item that the worker has at hand. */
  lemma {:induction false} NothingStarts(s: State, ops: seq<Op>, w: Id)
    requires s.stuck && AllowedRun(s, ops) && !Held(s, w)
    ensures Run(s, ops).stuck && Run(s, ops).queue == s.queue && !EverRuns(s, ops, w)
    decreases |ops|
  {
    if ops != [] { NothingStarts(Step(s, ops[0]), ops[1..], w); }
  }

  lemma DoomedStays(s: State, op: Op, w: Id)
    requires Inv(s) && !AboutToFreeQueued(s) && Allowed(s, op) && Doomed(s, w) && op != Create(w)
    ensures Doomed(Step(s, op), w) && !Executes(s, op, w)
  {
    match op
    case Schedule(x) => QueuedOk(s, x);
    case ScheduleAt(x, abs) => QueuedAtOk(s, x, abs);
    case ScheduleDelay(x, delay, late) => LaterOk(s, late); QueuedAtOk(s.(ticks := s.ticks + late), x, s.ticks + delay);
    case Reschedule(delay, late) => RescheduleOk(s, delay, late);
    case Pop => if s.queue != [] { assert s.queue == [s.queue[0]] + s.queue[1..]; }
    case _ =>
  }

  predicate EverRuns(s: State, ops: seq<Op>, w: Id)
    requires AllowedRun(s, ops)
    decreases |ops|
  {
    ops != [] && (Executes(s, ops[0], w) || EverRuns(Step(s, ops[0]), ops[1..], w))
  }

  /** An item cancelled while queued never runs, however the run goes on. */
  lemma {:induction false} CancelledNeverRuns(s: State, ops: seq<Op>, w: Id)
    requires Inv(s) && !AboutToFreeQueued(s) && AllowedRun(s, ops) && NoneTooLate(s, ops)
    requires Doomed(s, w) && Create(w) !in ops
    ensures !EverRuns(s, ops, w)
    decreases |ops|
  {
    hide Inv, Allowed, Step, AboutToFreeQueued, CancelTooLate, Doomed, Executes, QueueLive;
    if ops != [] {
      StepKeeps(s, ops[0]);
      OnlyTooLate(s, ops[0]);
      DoomedStays(s, ops[0], w);
      CancelledNeverRuns(Step(s, ops[0]), ops[1..], w);
    }
  }

  // ----- what goes wrong

  lemma RunCons(s: State, op: Op, ops: seq<Op>)
    ensures AllowedRun(s, [op] + ops) <==> Allowed(s, op) && AllowedRun(Step(s, op), ops)
    ensures AllowedRun(s, [op] + ops) ==> Run(s, [op] + ops) == Run(Step(s, op), ops)
    ensures AllowedRun(s, [op] + ops) && QueuedIsFreed(Step(s, op), ops) ==> QueuedIsFreed(s, [op] + ops)
  {
    assert ([op] + ops)[1..] == ops;
  }

  lemma ReturnAndReap(s: State)
    requires s.phase.Executing? && s.phase.w in s.items && !s.items[s.phase.w].killed
    ensures AllowedRun(s, [Return] + ([Reap] + []))
    ensures Run(s, [Return] + ([Reap] + [])) == s.(phase := Idle)
  {
    var s2 := Step(s, Return);
    var s3 := Step(s2, Reap);
    RunCons(s2, Reap, []);
    RunCons(s, Return, [Reap] + []);
  }

  lemma CancelInWindow(s: State)
    requires s.phase.Executing? && s.phase.w in s.items && s.phase.w in s.queue && !s.items[s.phase.w].cancelled
    requires !s.stuck
    ensures var ops := [Return] + ([Cancel(s.phase.w)] + ([Reap] + []));
            AllowedRun(s, ops) && QueuedIsFreed(s, ops)
  {
    var s2 := Step(s, Return);
    var s3 := Step(s2, Cancel(s.phase.w));
    var s4 := Step(s3, Reap);
    var i :| 0 <= i < |s.queue| && s.queue[i] == s.phase.w;
    assert s4.queue[i] !in s4.items;
    RunCons(s3, Reap, []);
    RunCons(s2, Cancel(s.phase.w), [Reap] + []);
    RunCons(s, Return, [Cancel(s.phase.w)] + ([Reap] + []));
  }

  /** Any item that is queued again while it runs can be freed in the queue: its function
      returns, it is cancelled, and the worker looks at the flag. */
  lemma FreedInQueue(s: State, delay: nat)
    requires Inv(s) && Allowed(s, Reschedule(delay, 0)) && !s.items[s.phase.w].cancelled
    ensures var ops := [Reschedule(delay, 0)] + ([Return] + ([Cancel(s.phase.w)] + ([Reap] + [])));
            AllowedRun(s, ops) && QueuedIsFreed(s, ops)
  {
    hide Inv, QueuedIsFreed, Run, AllowedRun, Queued, OrderedPos;
    RescheduleOk(s, delay, 0);
    var s1 := Step(s, Reschedule(delay, 0));
    NotCancelled(s, delay, 0);
    assert TakesLock(s, Reschedule(delay, 0));
    CancelInWindow(s1);
    RunCons(s, Reschedule(delay, 0), [Return] + ([Cancel(s.phase.w)] + ([Reap] + [])));
  }

  lemma NotCancelled(s: State, delay: nat, late: nat)
    requires Inv(s) && Allowed(s, Reschedule(delay, late)) && !s.items[s.phase.w].cancelled
    ensures var s', w := Step(s, Reschedule(delay, late)), s.phase.w;
            w in s'.items && !s'.items[w].cancelled && s'.stuck == s.stuck
  {
  }

  /** When the clock ticks more than the delay between its two readings, an item that asks to
      run again is neither queued, unless it was before, nor ever freed. */
  lemma RescheduleLost(s: State, delay: nat, late: nat)
    requires Inv(s) && Allowed(s, Reschedule(delay, late)) && !s.items[s.phase.w].cancelled
    ensures var ops, w := [Reschedule(delay, late)] + ([Return] + ([Reap] + [])), s.phase.w;
            && AllowedRun(s, ops)
            && var s' := Run(s, ops);
               s'.phase.Idle? && w in s'.items && !s'.items[w].killed && (w in s'.queue <==>
                 w in s.queue || late <= delay)
  {
    hide Inv, QueuedIsFreed, Run, AllowedRun, Queued, OrderedPos;
    RescheduleOk(s, delay, late);
    ReturnAndReap(Step(s, Reschedule(delay, late)));
    RunCons(s, Reschedule(delay, late), [Return] + ([Reap] + []));
  }

  // ----- the queue and the worker themselves

  class WorkQueue {
    var ticks: nat
    var items: map<Id, Item>
    var queue: seq<Id>
    var phase: Phase
    var stuck: bool

    function Now(): State
      reads this
    {
      State(ticks, items, queue, phase, stuck)
    }

    /** work_init */
    constructor ()
      ensures Inv(Now()) && !AboutToFreeQueued(Now()) && Now() == State(0, map[], [], Idle, false)
    {
      ticks, items, queue, phase, stuck := 0, map[], [], Idle, false;
    }

    /** schedule_work: list_insert_ordered walks to the first item with a later deadline. */
    method ScheduleWork(w: Id)
      requires w in items
      modifies this`queue
      ensures Now() == Queued(old(Now()), w)
      ensures InFrontOfLater(items, old(queue), queue, w)
    {
      hide InFrontOfLater;
      QueuedInFront(Now(), w);
      var k := 0;
      while k < |queue| && !(DueAt(items, w) < DueAt(items, queue[k]))
        invariant k <= |queue| && queue == old(queue)
        invariant OrderedPos(WorkLess(items), queue, w) == k + OrderedPos(WorkLess(items), queue[k..], w)
      {
        assert queue[k..][1..] == queue[k + 1..];
        k := k + 1;
      }
      queue := queue[..k] + [w] + queue[k..];
    }

    /** schedule_work_at */
    method ScheduleWorkAt(w: Id, abs: nat) returns (rc: int)
      requires w in items
      modifies this`queue, this`items
      ensures Now() == QueuedAt(old(Now()), w, abs) && (rc == 0 <==> abs >= ticks)
      ensures if abs < ticks then Now() == old(Now()) else w in items && items[w].at == abs && w in queue
    {
      if abs < ticks { return 1; }
      items := items[w := items[w].(at := abs)];
      ScheduleWork(w);
      rc := 0;
    }

    /** schedule_work_delay, with late ticks between the two readings of the clock */
    method ScheduleWorkDelay(w: Id, delay: nat, late: nat) returns (rc: int)
      requires w in items
      modifies this
      ensures Now() == QueuedAt(old(Now()).(ticks := old(ticks) + late), w, old(ticks) + delay)
      ensures (rc == 0 <==> late <= delay) && ticks == old(ticks) + late
      ensures late <= delay ==> w in items && items[w].at == old(ticks) + delay && w in queue
    {
      var abs := ticks + delay;
      ticks := ticks + late;
      rc := ScheduleWorkAt(w, abs);
    }

    /** work_reschedule, called by the function of the item that is running */
    method WorkReschedule(delay: nat, late: nat) returns (rc: int)
      requires Allowed(Now(), Reschedule(delay, late))
      modifies this
      ensures Now() == Step(old(Now()), Reschedule(delay, late))
      ensures rc == -1 <==> old(items[phase.w].cancelled)
      ensures rc != -1 && late <= delay ==>
                phase == old(phase) && phase.w in items && items[phase.w].at == old(ticks) + delay && phase.w in queue
    {
      var w := phase.w;
      if items[w].cancelled { return -1; }
      items := items[w := items[w].(killed := false)];
      var _ := ScheduleWorkDelay(w, delay, late);
      rc := 0;
    }

    /** work_cancel, which returns with the lock held where the item was cancelled before. */
    method WorkCancel(w: Id) returns (rc: int)
      requires Allowed(Now(), Cancel(w))
      modifies this`items, this`stuck
      ensures Now() == Step(old(Now()), Cancel(w)) && rc == if stuck then -1 else 0
    {
      if (phase.Entered? || phase.Executing?) && phase.w == w {
        items := items[w := items[w].(cancelled := true)];
      } else if items[w].cancelled {
        stuck := true;
        return -1;
      } else {
        items := items[w := items[w].(killed := true)];
      }
      rc := 0;
    }

    /** The head of worker_thread's loop, under the lock: an item that is not due goes back. */
    method Take()
      requires Allowed(Now(), Pop)
      modifies this`queue, this`phase
      ensures Now() == Step(old(Now()), Pop)
    {
      if queue == [] { return; }
      var w := queue[0];
      queue := queue[1..];
      if DueAt(items, w) >= ticks {
        queue := [w] + queue;
        assert queue == old(queue);
        return;
      }
      phase := Popped(w);
    }

    /** do_work up to the call of the function: it is not called for an item that was killed. */
    method BeginWork() returns (called: bool)
      requires Allowed(Now(), Start)
      modifies this`items, this`phase
      ensures Now() == Step(old(Now()), Start) && called == Executes(old(Now()), Start, old(phase.w))
    {
      var w := phase.w;
      called := !items[w].killed;
      if called {
        items := items[w := items[w].(killed := true)];
      }
      phase := Executing(w, called);
    }

    /** The end of do_work: the item is freed unless its function asked to run again. */
    method EndWork()
      requires Allowed(Now(), Reap)
      modifies this`items, this`phase
      ensures Now() == Step(old(Now()), Reap)
    {
      if items[phase.w].killed {
        items := items - {phase.w};
      }
      phase := Idle;
    }

    /** Any interleaving of callers, clock and worker. */
    method Interleave(ops: seq<Op>)
      requires AllowedRun(Now(), ops)
      modifies this
      ensures Now() == Run(old(Now()), ops)
    {
      hide Queued, QueuedAt, OrderedPos, Allowed;
      var n := 0;
      assert ops[0..] == ops;
      while n < |ops|
        invariant n <= |ops| && AllowedRun(Now(), ops[n..]) && Run(Now(), ops[n..]) == Run(old(Now()), ops)
      {
        assert ops[n..][0] == ops[n] && ops[n..][1..] == ops[n + 1..];
        Do(ops[n]);
        n := n + 1;
      }
    }

    method Do(op: Op)
      requires Allowed(Now(), op)
      modifies this
      ensures Now() == Step(old(Now()), op)
    {
      hide Queued, QueuedAt, OrderedPos;
      match op {
        case Create(w) => items := items[w := Item(0, false, false)];
        case Schedule(w) => ScheduleWork(w);
        case ScheduleAt(w, abs) => var _ := ScheduleWorkAt(w, abs);
        case ScheduleDelay(w, delay, late) => var _ := ScheduleWorkDelay(w, delay, late);
        case Reschedule(delay, late) => var _ := WorkReschedule(delay, late);
        case Cancel(w) => var _ := WorkCancel(w);
        case Tick => ticks := ticks + 1;
        case Pop => Take();
        case Enter => phase := Entered(phase.w);
        case Start => var _ := BeginWork();
        case Return => phase := Finishing(phase.w);
        case Reap => EndWork();
      }
    }
  }
}
