/** The round-robin scheduler: a ring of tasks, searched from the current one on for the first
    that can run, after those that are dying were taken off it. */
module Sched {

  /** A task that was taken off the ring leaves an empty place, so that the others keep theirs. */
  datatype TaskState =
    | New
    | Running
    | Preempted
    | Blocked
    | Zombie
    | Dying
    | Sleeping(wake: nat)
    | Gone

  type Ring = s: seq<TaskState> | |s| > 0 witness [New]

  datatype State = State(ring: Ring, cur: nat, ticks: nat)

  predicate Valid(s: State) { s.cur < |s.ring| }

  /** A task that pick_next_task would take: runnable, or asleep with its time come. */
  predicate Eligible(t: TaskState, ticks: nat) {
    t.New? || t.Preempted? || (t.Sleeping? && t.wake <= ticks)
  }

  predicate SomeEligible(s: State) {
    exists i :: 0 <= i < |s.ring| && Eligible(s.ring[i], s.ticks)
  }

  /** The task after task i. */
  function Succ(n: nat, i: nat): (j: nat)
    requires i < n
    ensures j < n
  {
    if i + 1 == n then 0 else i + 1
  }

  /** How many steps along the ring lead from i to j, at least one. */
  function Dist(n: nat, i: nat, j: nat): (d: nat)
    requires i < n && j < n
    ensures 1 <= d <= n
  {
    if i < j then j - i else n + j - i
  }

  /** k is the first eligible task after task i, going round the ring to i itself at last. */
  ghost predicate FirstAfter(s: State, i: nat, k: nat)
    requires i < |s.ring|
  {
    && k < |s.ring| && Eligible(s.ring[k], s.ticks)
    && forall j :: 0 <= j < |s.ring| && Eligible(s.ring[j], s.ticks) ==> Dist(|s.ring|, i, k) <= Dist(|s.ring|, i, j)
  }

  lemma FirstIsUnique(s: State, i: nat, k: nat, l: nat)
    requires i < |s.ring| && FirstAfter(s, i, k) && FirstAfter(s, i, l)
    ensures k == l
  {
  }

  /** The function that pick_next_task computes. */
  function Next(s: State, i: nat, left: nat): (k: nat)
    requires i < |s.ring| && left <= |s.ring|
    requires exists j :: 0 <= j < |s.ring| && Eligible(s.ring[j], s.ticks) && Dist(|s.ring|, i, j) <= left
    ensures FirstAfter(s, i, k)
    decreases left
  {
    var j := Succ(|s.ring|, i);
    if Eligible(s.ring[j], s.ticks) then j
    else
      NextFurther(s, i, left);
      Next(s, j, left - 1)
  }

  lemma NextFurther(s: State, i: nat, left: nat)
    requires i < |s.ring| && left <= |s.ring| && !Eligible(s.ring[Succ(|s.ring|, i)], s.ticks)
    requires exists j :: 0 <= j < |s.ring| && Eligible(s.ring[j], s.ticks) && Dist(|s.ring|, i, j) <= left
    ensures left > 1
    ensures exists j :: 0 <= j < |s.ring| && Eligible(s.ring[j], s.ticks)
                        && Dist(|s.ring|, Succ(|s.ring|, i), j) <= left - 1
    ensures forall k :: FirstAfter(s, Succ(|s.ring|, i), k) ==> FirstAfter(s, i, k)
  {
    var n, i' := |s.ring|, Succ(|s.ring|, i);
    forall j | 0 <= j < n && Eligible(s.ring[j], s.ticks)
      ensures Dist(n, i', j) == Dist(n, i, j) - 1
    {
    }
    var j :| 0 <= j < n && Eligible(s.ring[j], s.ticks) && Dist(n, i, j) <= left;
    assert Dist(n, i', j) <= left - 1;
  }

  // ----- what comes before the search

  /** The running task gives way. */
  function GiveWay(s: State): (s': State)
    requires Valid(s)
    ensures Valid(s') && |s'.ring| == |s.ring|
  {
    if s.ring[s.cur].Running? then s.(ring := s.ring[s.cur := Preempted]) else s
  }

  /** A task whose wait or sleep is over. */
  function Woken(t: TaskState): TaskState {
    if t.Blocked? || t.Sleeping? then Preempted else t
  }

  /** The ring once the dying tasks below n are gone and some of those that waited for them, or
      had a signal from them, are awake. */
  function Reaped(ring: seq<TaskState>, n: nat, woken: set<nat>): (r: seq<TaskState>)
    ensures |r| == |ring|
    ensures forall i :: 0 <= i < |ring| ==>
              r[i] == if i < n && ring[i].Dying? then Gone else if i in woken then Woken(ring[i]) else ring[i]
  {
    seq(|ring|, i requires 0 <= i < |ring| =>
      if i < n && ring[i].Dying? then Gone else if i in woken then Woken(ring[i]) else ring[i])
  }

  /** What the search starts from. */
  function Before(s: State, woken: set<nat>): (s': State)
    requires Valid(s)
    ensures Valid(s') && |s'.ring| == |s.ring|
  {
    var g := GiveWay(s);
    g.(ring := Reaped(g.ring, |g.ring|, woken))
  }

  /** The task that the next reschedule picks. */
  function Picked(s: State, woken: set<nat>): (k: nat)
    requires Valid(s) && SomeEligible(Before(s, woken))
    ensures FirstAfter(Before(s, woken), s.cur, k)
  {
    Next(Before(s, woken), s.cur, |s.ring|)
  }

  /** reschedule: the task picked runs. */
  function Resched(s: State, woken: set<nat>): State
    requires Valid(s) && SomeEligible(Before(s, woken))
  {
    var k := Picked(s, woken);
    State(Before(s, woken).ring[k := Running], k, s.ticks)
  }

  // ----- fairness

  /** Between picks anything may happen to the states of the tasks and to the clock, and new
      tasks may join at the end of the ring. */
  datatype Op = Pick(woken: set<nat>) | Change(ring: Ring, ticks: nat) | Join(t: TaskState)

  predicate Allowed(s: State, op: Op) {
    Valid(s) && match op
                case Pick(woken) => SomeEligible(Before(s, woken))
                case Change(ring, ticks) =>
                  |ring| == |s.ring| && forall i :: 0 <= i < |ring| ==> (ring[i].Gone? <==> s.ring[i].Gone?)
                case Join(t) => !t.Gone?
  }

  function Step(s: State, op: Op): (s': State)
    requires Allowed(s, op)
    ensures Valid(s') && |s'.ring| >= |s.ring|
  {
    match op
    case Pick(woken) => Resched(s, woken)
    case Change(ring, ticks) => State(ring, s.cur, ticks)
    case Join(t) => s.(ring := s.ring + [t])
  }

  predicate AllowedRun(s: State, ops: seq<Op>)
    decreases |ops|
  {
    Valid(s) && (ops != [] ==> Allowed(s, ops[0]) && AllowedRun(Step(s, ops[0]), ops[1..]))
  }

  /** Task i is eligible whenever a pick is made in the run, and is not picked. */
  predicate PassedOver(s: State, ops: seq<Op>, i: nat)
    requires AllowedRun(s, ops) && i < |s.ring|
    decreases |ops|
  {
    ops != [] ==>
      && (ops[0].Pick? ==> Eligible(Before(s, ops[0].woken).ring[i], s.ticks) && Picked(s, ops[0].woken) != i)
      && PassedOver(Step(s, ops[0]), ops[1..], i)
  }

  function Picks(ops: seq<Op>): nat {
    if ops == [] then 0 else (if ops[0].Pick? then 1 else 0) + Picks(ops[1..])
  }

  function Joins(ops: seq<Op>): nat {
    if ops == [] then 0 else (if ops[0].Join? then 1 else 0) + Joins(ops[1..])
  }

  /** How many tasks are on the ring at the places from a to b. */
  function Count(ring: seq<TaskState>, a: nat, b: nat): (c: nat)
    requires a <= b <= |ring|
    ensures c <= b - a
  {
    if a == b then 0 else Count(ring, a, b - 1) + if ring[b - 1].Gone? then 0 else 1
  }

  /** How many tasks there are behind the current one up to task i, going round. */
  function Ahead(ring: seq<TaskState>, cur: nat, i: nat): nat
    requires cur < |ring| && i < |ring|
  {
    if cur < i then Count(ring, cur + 1, i + 1)
    else Count(ring, cur + 1, |ring|) + Count(ring, 0, i + 1)
  }

  lemma {:induction false} CountSplit(ring: seq<TaskState>, a: nat, b: nat, c: nat)
    requires a <= b <= c <= |ring|
    ensures Count(ring, a, c) == Count(ring, a, b) + Count(ring, b, c)
    decreases c
  {
    if b < c { CountSplit(ring, a, b, c - 1); }
  }

  lemma {:induction false} CountLess(ring: seq<TaskState>, ring': seq<TaskState>, a: nat, b: nat)
    requires a <= b <= |ring| <= |ring'| && forall i :: 0 <= i < |ring| ==> ring[i].Gone? ==> ring'[i].Gone?
    ensures Count(ring', a, b) <= Count(ring, a, b)
    decreases b
  {
    if a < b { CountLess(ring, ring', a, b - 1); }
  }

  /** A task behind the current one and in front of i has fewer tasks in front of i. */
  lemma AheadCloser(ring: seq<TaskState>, cur: nat, k: nat, i: nat)
    requires cur < |ring| && k < |ring| && i < |ring| && !ring[k].Gone?
    requires Dist(|ring|, cur, k) < Dist(|ring|, cur, i)
    ensures Ahead(ring, k, i) < Ahead(ring, cur, i)
  {
    var n := |ring|;
    if cur < k {
      CountSplit(ring, cur + 1, k + 1, if cur < i then i + 1 else n);
      CountSplit(ring, cur + 1, k, k + 1);
    } else {
      CountSplit(ring, 0, k + 1, i + 1);
      CountSplit(ring, 0, k, k + 1);
    }
  }

  lemma AheadLess(ring: seq<TaskState>, ring': seq<TaskState>, cur: nat, i: nat)
    requires cur < |ring| == |ring'| && i < |ring|
    requires forall j :: 0 <= j < |ring| ==> ring[j].Gone? ==> ring'[j].Gone?
    ensures Ahead(ring', cur, i) <= Ahead(ring, cur, i)
  {
    if cur < i {
      CountLess(ring, ring', cur + 1, i + 1);
    } else {
      CountLess(ring, ring', cur + 1, |ring|);
      CountLess(ring, ring', 0, i + 1);
    }
  }

  lemma AheadJoin(ring: seq<TaskState>, t: TaskState, cur: nat, i: nat)
    requires cur < |ring| && i < |ring|
    ensures Ahead(ring + [t], cur, i) <= Ahead(ring, cur, i) + 1
  {
    if cur < i {
      CountLess(ring, ring + [t], cur + 1, i + 1);
    } else {
      CountLess(ring, ring + [t], cur + 1, |ring|);
      CountLess(ring, ring + [t], 0, i + 1);
    }
  }

  /** No more tasks are ahead of one than there are on the ring, and it counts itself. */
  lemma AheadBounds(ring: seq<TaskState>, cur: nat, i: nat)
    requires cur < |ring| && i < |ring|
    ensures Ahead(ring, cur, i) <= Count(ring, 0, |ring|)
    ensures !ring[i].Gone? ==> Ahead(ring, cur, i) > 0
  {
    if cur < i {
      CountSplit(ring, 0, cur + 1, i + 1);
      CountSplit(ring, 0, i + 1, |ring|);
    } else {
      CountSplit(ring, 0, i + 1, cur + 1);
      CountSplit(ring, 0, cur + 1, |ring|);
    }
  }

  /** A pick that passes over an eligible task comes closer to it. */
  lemma PickComesCloser(s: State, woken: set<nat>, i: nat)
    requires Valid(s) && i < |s.ring| && SomeEligible(Before(s, woken))
    requires Eligible(Before(s, woken).ring[i], s.ticks) && Picked(s, woken) != i
    ensures var s' := Resched(s, woken);
            Ahead(s'.ring, s'.cur, i) < Ahead(s.ring, s.cur, i) && !s'.ring[i].Gone?
  {
    hide Ahead;
    var b, k := Before(s, woken), Picked(s, woken);
    assert Dist(|s.ring|, s.cur, k) <= Dist(|s.ring|, s.cur, i);
    AheadLess(s.ring, b.ring, s.cur, i);
    AheadCloser(b.ring, s.cur, k, i);
    AheadLess(b.ring, b.ring[k := Running], k, i);
  }

  /** A task that is off the ring, or stays eligible, is passed over fewer times than there are
      tasks, counting those that join: it is chosen within as many picks. */
  lemma {:induction false} Fair(s: State, ops: seq<Op>, i: nat)
    requires AllowedRun(s, ops) && i < |s.ring| && PassedOver(s, ops, i)
    ensures Picks(ops) <= Ahead(s.ring, s.cur, i) + Joins(ops) <= Count(s.ring, 0, |s.ring|) + Joins(ops)
    ensures !s.ring[i].Gone? ==> Picks(ops) < Ahead(s.ring, s.cur, i) + Joins(ops)
    decreases |ops|
  {
    hide Ahead, Resched, Before;
    AheadBounds(s.ring, s.cur, i);
    if ops != [] {
      var s' := Step(s, ops[0]);
      Fair(s', ops[1..], i);
      match ops[0]
      case Pick(woken) => PickComesCloser(s, woken, i);
      case Change(ring, _) => AheadLess(s.ring, ring, s.cur, i);
      case Join(t) => AheadJoin(s.ring, t, s.cur, i);
    }
  }

  /** Some pick of the run takes task i. */
  predicate ChosenIn(s: State, ops: seq<Op>, i: nat)
    requires AllowedRun(s, ops)
    decreases |ops|
  {
    ops != [] && ((ops[0].Pick? && Step(s, ops[0]).cur == i) || ChosenIn(Step(s, ops[0]), ops[1..], i))
  }

  predicate AllPicks(ops: seq<Op>) {
    forall j :: 0 <= j < |ops| ==> ops[j].Pick?
  }

  /** The task is running or waits for its turn. */
  predicate InTurn(s: State, i: nat) {
    && i < |s.ring|
    && match s.ring[i]
       case New => true
       case Preempted => true
       case Sleeping(wake) => wake <= s.ticks
       case Running => i == s.cur
       case _ => false
  }

  /** A pick leaves every such task running or waiting. */
  lemma TurnStays(s: State, woken: set<nat>, i: nat)
    requires Valid(s) && SomeEligible(Before(s, woken)) && InTurn(s, i)
    ensures Eligible(Before(s, woken).ring[i], s.ticks)
    ensures var s' := Resched(s, woken); InTurn(s', i) && s'.ticks == s.ticks && s'.cur == Picked(s, woken)
  {
    var b := Before(s, woken);
    assert b.ring[i] == if s.ring[i].Running? then Preempted else if i in woken then Woken(s.ring[i]) else s.ring[i];
  }

  lemma {:induction false} NotChosen(s: State, ops: seq<Op>, i: nat)
    requires AllowedRun(s, ops) && AllPicks(ops) && InTurn(s, i) && !ChosenIn(s, ops, i)
    ensures PassedOver(s, ops, i) && Picks(ops) == |ops| && Joins(ops) == 0
    decreases |ops|
  {
    hide Resched, Before, InTurn, Picked, SomeEligible;
    assert i < |s.ring| by { TurnOnRing(s, i); }
    if ops != [] {
      TurnStays(s, ops[0].woken, i);
      NotChosen(Step(s, ops[0]), ops[1..], i);
    }
  }

  lemma TurnOnRing(s: State, i: nat)
    requires InTurn(s, i)
    ensures i < |s.ring| && !s.ring[i].Gone?
  {
  }

  /** A running task that gives way, and every task that waits for its turn, is chosen within as many
      picks as there are tasks. */
  lemma ChosenAgain(s: State, ops: seq<Op>, i: nat)
    requires AllowedRun(s, ops) && AllPicks(ops) && InTurn(s, i) && |ops| >= Count(s.ring, 0, |s.ring|)
    ensures ChosenIn(s, ops, i)
  {
    hide InTurn;
    TurnOnRing(s, i);
    if !ChosenIn(s, ops, i) {
      NotChosen(s, ops, i);
      Fair(s, ops, i);
    }
  }

  // ----- reschedule in so many words

  /** What has become of task j once the dying ones are gone: it is awake if one of them had it woken. */
  ghost function AfterReaping(ring: seq<TaskState>, wakes: map<nat, set<nat>>, j: nat): TaskState
    requires j < |ring|
  {
    if ring[j] == Dying then Gone
    else if (ring[j] == Blocked || ring[j].Sleeping?)
            && exists i :: 0 <= i < |ring| && ring[i] == Dying && i in wakes && j in wakes[i] then Preempted
    else ring[j]
  }

  /** Task k can run, and none of those behind task cur and in front of k can, going round. */
  ghost predicate NextInTurn(ring: seq<TaskState>, wakes: map<nat, set<nat>>, cur: nat, ticks: nat, k: nat) {
    && k < |ring| && Ready(AfterReaping(ring, wakes, k), ticks)
    && forall j: nat :: j < |ring| && (if cur < k then cur < j < k else cur < j || j < k) ==>
         !Ready(AfterReaping(ring, wakes, j), ticks)
  }

  predicate Ready(t: TaskState, ticks: nat) {
    match t
    case New => true
    case Preempted => true
    case Sleeping(wake) => wake <= ticks
    case _ => false
  }

  lemma CleanedAt(ring: seq<TaskState>, wakes: map<nat, set<nat>>)
    ensures forall j: nat :: j < |ring| ==> Cleaned(ring, wakes)[j] == AfterReaping(ring, wakes, j)
  {
    hide WokenBy;
    forall j: nat | j < |ring|
      ensures Cleaned(ring, wakes)[j] == AfterReaping(ring, wakes, j)
    {
      assert j in WokenBy(ring, |ring|, wakes) <==>
             exists i :: 0 <= i < |ring| && ring[i].Dying? && i in wakes && j in wakes[i];
    }
  }

  lemma FirstIsNext(ring: seq<TaskState>, wakes: map<nat, set<nat>>, cur: nat, ticks: nat, k: nat)
    requires cur < |ring| && FirstAfter(State(Cleaned(ring, wakes), cur, ticks), cur, k)
    ensures NextInTurn(ring, wakes, cur, ticks, k)
  {
    hide Cleaned, AfterReaping;
    CleanedAt(ring, wakes);
    var s := State(Cleaned(ring, wakes), cur, ticks);
    forall j: nat | j < |ring| && (if cur < k then cur < j < k else cur < j || j < k)
      ensures !Ready(AfterReaping(ring, wakes, j), ticks)
    {
      assert Dist(|ring|, cur, j) < Dist(|ring|, cur, k);
      assert s.ring[j] == AfterReaping(ring, wakes, j);
    }
  }

  /** With preemption off, reschedule runs the current task on. */
  function Resumed(s: State): State
    requires Valid(s)
  {
    s.(ring := s.ring[s.cur := Running])
  }

  class Scheduler {
    /** the states of the tasks, in the order of the ring */
    var ring: seq<TaskState>
    var cur: nat
    var ticks: nat
    /** __task_need_cleanup */
    var cleanup: nat

    /** Whoever made a task dying asked for the cleanup. */
    ghost predicate Ok()
      reads this
    {
      cur < |ring| && (cleanup == 0 ==> forall i :: 0 <= i < |ring| ==> !ring[i].Dying?)
    }

    ghost function Now(): State
      requires Ok()
      reads this
    {
      State(ring, cur, ticks)
    }

    constructor (ring: seq<TaskState>, cur: nat)
      requires cur < |ring| && forall i :: 0 <= i < |ring| ==> !ring[i].Dying?
      ensures Ok() && Now() == State(ring, cur, 0)
    {
      this.ring, this.cur, ticks, cleanup := ring, cur, 0, 0;
    }

    /** What sys_exit does to the scheduler before it yields. */
    method Exit()
      requires Ok()
      modifies this`ring, this`cleanup
      ensures Ok() && Now() == old(Now()).(ring := old(ring)[cur := Dying])
    {
      ring := ring[cur := Dying];
      cleanup := cleanup + 1;
    }

    /** The cleanup in front of the search. wakes says whom the end of a task wakes up. */
    method Cleanup(wakes: map<nat, set<nat>>)
      requires Ok()
      modifies this`ring, this`cleanup
      ensures Ok() && cleanup == 0 && ring == Cleaned(old(ring), wakes)
      ensures |ring| == |old(ring)| && forall j: nat :: j < |ring| ==> ring[j] == AfterReaping(old(ring), wakes, j)
    {
      hide Reaped, WokenBy, TaskExit, Woken, AfterReaping;
      CleanedAt(ring, wakes);
      if cleanup == 0 {
        NoneDying(ring, wakes);
        return;
      }
      ghost var ring0 := ring;
      var i := 0;
      ReapNone(ring0, wakes);
      while i < |ring|
        invariant i <= |ring| == |ring0| && ring == Reaped(ring0, i, WokenBy(ring0, i, wakes))
      {
        ReapOne(ring0, i, wakes);
        if ring[i].Dying? {
          ring := TaskExit(ring, i, if i in wakes then wakes[i] else {});
        }
        i := i + 1;
      }
      assert ring == Cleaned(ring0, wakes);
      cleanup := 0;
    }

    /** pick_next_task. Without an eligible task it would never return; interrupts are off, so
        the clock stands still. A sleeper that is taken wakes up. */
    method PickNextTask(wakes: map<nat, set<nat>>) returns (task: nat)
      requires Ok() && SomeEligible(State(Cleaned(ring, wakes), cur, ticks))
      modifies this`ring, this`cleanup
      ensures Ok() && cleanup == 0 && task < |old(ring)|
      ensures FirstAfter(State(Cleaned(old(ring), wakes), cur, ticks), cur, task)
      ensures ring == if Cleaned(old(ring), wakes)[task].Sleeping? then Cleaned(old(ring), wakes)[task := Preempted]
                      else Cleaned(old(ring), wakes)
      ensures |ring| == |old(ring)| && NextInTurn(old(ring), wakes, cur, ticks, task)
      ensures forall j: nat :: j < |ring| ==>
                var t := AfterReaping(old(ring), wakes, j);
                ring[j] == if j == task && t.Sleeping? then Preempted else t
    {
      hide Cleaned, AfterReaping, NextInTurn;
      CleanedAt(ring, wakes);
      Cleanup(wakes);
      ghost var s := State(ring, cur, ticks);
      task := cur;
      ghost var left := |ring|;
      while true
        invariant task < |ring| && left <= |ring| && Ok() && Now() == s && cleanup == 0
        invariant exists j :: 0 <= j < |ring| && Eligible(ring[j], ticks) && Dist(|ring|, task, j) <= left
        invariant forall k :: FirstAfter(s, task, k) ==> FirstAfter(s, cur, k)
        decreases left
      {
        ghost var from := task;
        var elem := task + 1;
        if elem == |ring| { elem := 0; }
        task := elem;
        if ring[task].Sleeping? && ring[task].wake <= ticks {
          PickedFirst(s, from);
          FirstIsNext(old(ring), wakes, cur, ticks, task);
          ring := ring[task := Preempted];
          return;
        } else if !(ring[task].New? || ring[task].Preempted?) {
          NextFurther(s, from, left);
          left := left - 1;
        } else {
          PickedFirst(s, from);
          FirstIsNext(old(ring), wakes, cur, ticks, task);
          return;
        }
      }
    }

    /** reschedule, with __reschedule_to marking the task as running. */
    method Reschedule(preemptible: bool, wakes: map<nat, set<nat>>)
      requires Ok() && (preemptible ==> SomeEligible(Before(Now(), WokenBy(ring, |ring|, wakes))))
      modifies this
      ensures Ok()
      ensures Now() == if preemptible then Resched(old(Now()), WokenBy(old(ring), |old(ring)|, wakes))
                       else Resumed(old(Now()))
      ensures ticks == old(ticks) && |ring| == |old(ring)| && ring[cur] == Running
      ensures !preemptible ==> cur == old(cur) && ring == old(ring)[cur := Running]
      ensures preemptible ==>
                var given := if old(ring)[old(cur)] == Running then old(ring)[old(cur) := Preempted] else old(ring);
                && NextInTurn(given, wakes, old(cur), ticks, cur)
                && forall j: nat :: j < |ring| && j != cur ==> ring[j] == AfterReaping(given, wakes, j)
      ensures preemptible && old(ring)[old(cur)] == Running && cur != old(cur) ==> ring[old(cur)] == Preempted
    {
      hide Reaped, WokenBy, Cleaned, FirstAfter, SomeEligible, Before, Resched, Eligible, NextInTurn;
      if !preemptible {
        ring := ring[cur := Running];
        return;
      }
      ghost var s := Now();
      ghost var woken := WokenBy(ring, |ring|, wakes);
      if ring[cur].Running? {
        ring := ring[cur := Preempted];
      }
      CleanedIs(s, ring, wakes);
      var next := PickNextTask(wakes);
      ReschedIs(s, woken, ring, next);
      ring := ring[next := Running];
      cur := next;
    }
  }

  lemma ReschedIs(s: State, woken: set<nat>, ring: seq<TaskState>, next: nat)
    requires Valid(s) && SomeEligible(Before(s, woken)) && FirstAfter(Before(s, woken), s.cur, next)
    requires next < |s.ring|
    requires ring == if Before(s, woken).ring[next].Sleeping? then Before(s, woken).ring[next := Preempted]
                                        else Before(s, woken).ring
    ensures Resched(s, woken) == State(ring[next := Running], next, s.ticks)
  {
    FirstIsUnique(Before(s, woken), s.cur, next, Picked(s, woken));
    hide FirstAfter, Eligible, Before, Picked;
    assert ring[next := Running] == Before(s, woken).ring[next := Running];
  }

  /** task_exit, as far as the ring goes. */
  function TaskExit(ring: seq<TaskState>, i: nat, woken: set<nat>): (r: seq<TaskState>)
    ensures |r| == |ring|
    ensures forall j :: 0 <= j < |ring| ==>
              r[j] == if j == i then Gone else if j in woken then Woken(ring[j]) else ring[j]
  {
    seq(|ring|, j requires 0 <= j < |ring| => if j == i then Gone else if j in woken then Woken(ring[j]) else ring[j])
  }

  lemma ReapNone(ring: seq<TaskState>, wakes: map<nat, set<nat>>)
    ensures Reaped(ring, 0, WokenBy(ring, 0, wakes)) == ring
  {
  }

  lemma ReapOne(ring: seq<TaskState>, i: nat, wakes: map<nat, set<nat>>)
    requires i < |ring|
    ensures var before, after := Reaped(ring, i, WokenBy(ring, i, wakes)), Reaped(ring, i + 1,
                                                                                  WokenBy(ring, i + 1, wakes));
            after == if before[i].Dying? then TaskExit(before, i, if i in wakes then wakes[i] else {}) else before
  {
    var w, w' := WokenBy(ring, i, wakes), WokenBy(ring, i + 1, wakes);
    assert w' == w + if ring[i].Dying? && i in wakes then wakes[i] else {};
  }

  /** The ring after all dying tasks were reaped. */
  function Cleaned(ring: seq<TaskState>, wakes: map<nat, set<nat>>): (r: seq<TaskState>)
    ensures |r| == |ring| && forall i :: 0 <= i < |r| ==> !r[i].Dying?
  {
    Reaped(ring, |ring|, WokenBy(ring, |ring|, wakes))
  }

  lemma CleanedIs(s: State, ring: seq<TaskState>, wakes: map<nat, set<nat>>)
    requires Valid(s) && ring == GiveWay(s).ring
    ensures State(Cleaned(ring, wakes), s.cur, s.ticks) == Before(s, WokenBy(s.ring, |s.ring|, wakes))
  {
    SameDying(s.ring, ring, wakes);
  }

  /** Whom the ends of the dying tasks below n wake up. */
  function WokenBy(ring: seq<TaskState>, n: nat, wakes: map<nat, set<nat>>): (r: set<nat>)
    ensures forall j :: j in r <==>
              exists i :: 0 <= i < n && i < |ring| && ring[i].Dying? && i in wakes && j in wakes[i]
  {
    set i, j | i in wakes && j in wakes[i] && i < n && i < |ring| && ring[i].Dying? :: j
  }

  lemma NoneDying(ring: seq<TaskState>, wakes: map<nat, set<nat>>)
    requires forall i :: 0 <= i < |ring| ==> !ring[i].Dying?
    ensures Cleaned(ring, wakes) == ring
  {
  }

  lemma SameDying(ring: seq<TaskState>, ring': seq<TaskState>, wakes: map<nat, set<nat>>)
    requires |ring| == |ring'| && forall i :: 0 <= i < |ring| ==> (ring[i].Dying? <==> ring'[i].Dying?)
    ensures WokenBy(ring', |ring|, wakes) == WokenBy(ring, |ring|, wakes)
  {
  }

  lemma PickedFirst(s: State, i: nat)
    requires i < |s.ring| && Eligible(s.ring[Succ(|s.ring|, i)], s.ticks)
    ensures FirstAfter(s, i, Succ(|s.ring|, i))
  {
  }
}
