/** The round-robin scheduler of threads/thread.c as a step machine.  A step is what one
    thread or the timer does with interrupts off; a context switch is part of the step
    that asks for it.  Threads are named by their tids. */
module Scheduler {
  import opened Sequences
  import opened Wrappers

  /** The initial thread, and the thread that will run idle(). */
  const INITIAL: nat := 1
  const IDLE: nat := 2

  datatype Status = Running | Ready | Blocked | Dying

  /** `status` has the threads whose page exists, `idle` is the idle_thread pointer,
      `queues` are the semaphore wait lists and the sleep list, and `freed` records the
      threads whose page was given back. */
  datatype State = State(
    status: map<nat, Status>, cur: nat, ready: seq<nat>, idle: Option<nat>,
    queues: map<nat, seq<nat>>, freed: seq<nat>, nextTid: nat)

  function Queue(s: State, q: nat): seq<nat> {
    if q in s.queues then s.queues[q] else []
  }

  // ----- what the functions of thread.c do

  /** next_thread_to_run has something to return. */
  predicate CanSchedule(s: State) {
    s.cur in s.status && (s.ready != [] || s.idle.Some?)
  }

  function NextThread(s: State): nat
    requires CanSchedule(s)
  {
    if s.ready == [] then s.idle.value else s.ready[0]
  }

  /** schedule and schedule_tail. */
  function Schedule(s: State): State
    requires CanSchedule(s)
  {
    var next := NextThread(s);
    var rest := if s.ready == [] then [] else s.ready[1..];
    var on := s.(status := s.status[next := Running], cur := next, ready := rest);
    if s.cur != next && s.status[s.cur] == Dying && s.cur != INITIAL
    then on.(status := on.status - {s.cur}, freed := s.freed + [s.cur])
    else on
  }

  /** The running thread gets status `st`; thread_yield also queues it. */
  function Leave(s: State, st: Status): State {
    var ready := if st == Ready && s.idle != Some(s.cur) then s.ready + [s.cur] else s.ready;
    s.(status := s.status[s.cur := st], ready := ready)
  }

  function Enqueue(s: State, q: nat): State {
    s.(queues := s.queues[q := Queue(s, q) + [s.cur]])
  }

  /** A waiter is taken off its queue and thread_unblock makes it ready. */
  function Wake(s: State, q: nat, i: nat): State
    requires i < |Queue(s, q)|
  {
    var t := Queue(s, q)[i];
    s.(queues := s.queues[q := Queue(s, q)[..i] + Queue(s, q)[i + 1..]],
       status := s.status[t := Ready], ready := s.ready + [t])
  }

  /** thread_create, given a page. */
  function Create(s: State): State {
    s.(status := s.status[s.nextTid := Ready], ready := s.ready + [s.nextTid], nextTid := s.nextTid + 1)
  }

  // ----- steps

  datatype Event =
    | Spawn                        // thread_create
    | BlockOn(q: nat)              // sema_down or timer_sleep on a list, then thread_block
    | IdleBlock                    // the loop of idle()
    | WakeUp(q: nat, i: nat)       // sema_up or the timer tick
    | Yield                        // thread_yield
    | Exit                         // thread_exit
    | SetIdle                      // the start of idle()

  predicate Switches(e: Event) {
    e.BlockOn? || e.IdleBlock? || e.Yield? || e.Exit?
  }

  /** The thread running idle() only sets the pointer, blocks, and is preempted. */
  predicate Enabled(s: State, e: Event) {
    match e
    case Spawn => true
    case BlockOn(_) => s.cur != IDLE
    case IdleBlock => s.idle == Some(s.cur)
    case WakeUp(q, i) => i < |Queue(s, q)|
    case Yield => true
    case Exit => s.cur != IDLE
    case SetIdle => s.cur == IDLE && s.idle.None?
  }

  /** The state when the step reaches schedule(), or its end if it does not. */
  function Before(s: State, e: Event): State
    requires Enabled(s, e)
  {
    match e
    case Spawn => Create(s)
    case BlockOn(q) => Leave(Enqueue(s, q), Blocked)
    case IdleBlock => Leave(s, Blocked)
    case WakeUp(q, i) => Wake(s, q, i)
    case Yield => Leave(s, Ready)
    case Exit => Leave(s, Dying)
    case SetIdle => s.(idle := Some(s.cur))
  }

  predicate Step(s: State, e: Event, s': State) {
    Enabled(s, e) &&
    if Switches(e) then CanSchedule(Before(s, e)) && s' == Schedule(Before(s, e)) else s' == Before(s, e)
  }

  /** After thread_start has created the idle thread. */
  const START: State := State(map[INITIAL := Running, IDLE := Ready], INITIAL, [IDLE], None, map[], [], 3)

  // ----- the invariant

  /** The ready list is exactly the ready threads other than the idle thread. */
  ghost predicate ReadyOk(ready: seq<nat>, status: map<nat, Status>, idle: Option<nat>) {
    && NoDup(ready)
    && (forall t :: t in ready <==> t in status && status[t] == Ready && idle != Some(t))
  }

  ghost predicate Waiting(status: map<nat, Status>, t: nat) {
    t in status && status[t] == Blocked && t != IDLE
  }

  ghost predicate Queued(s: State, t: nat) {
    exists q :: t in Queue(s, q)
  }

  /** A thread is on a wait queue exactly while it is blocked and not the idle thread, and no
      thread is on two wait queues or twice on one. */
  ghost predicate QueuesOk(s: State) {
    && (forall q, t :: t in Queue(s, q) ==> Waiting(s.status, t))
    && (forall t {:trigger Queued(s, t)} :: Waiting(s.status, t) ==> Queued(s, t))
    && (forall q :: NoDup(Queue(s, q)))
    && (forall q, r, t :: t in Queue(s, q) && t in Queue(s, r) ==> q == r)
  }

  /** Every thread ever created exists or was freed, once. */
  ghost predicate Conserved(freed: seq<nat>, status: map<nat, Status>, nextTid: nat) {
    && NoDup(freed)
    && (forall t :: t in freed ==> t !in status)
    && (forall t :: (t in status || t in freed) <==> 0 < t < nextTid)
  }

  /** Until idle_thread is set, the thread that will set it can run. */
  ghost predicate IdleOk(status: map<nat, Status>, idle: Option<nat>) {
    && IDLE in status && status[IDLE] != Dying
    && (idle.None? ==> status[IDLE] == Running || status[IDLE] == Ready)
    && (idle.Some? ==> idle.value == IDLE)
  }

  ghost predicate Bookkeeping(s: State) {
    && ReadyOk(s.ready, s.status, s.idle) && QueuesOk(s)
    && Conserved(s.freed, s.status, s.nextTid) && IdleOk(s.status, s.idle)
  }

  /** Between steps: exactly one thread runs, and only the initial thread may be left dying. */
  ghost predicate Inv(s: State) {
    && Bookkeeping(s)
    && (forall t :: t in s.status && s.status[t] == Running <==> t == s.cur)
    && (forall t :: t in s.status && s.status[t] == Dying ==> t == INITIAL)
  }

  /** On entry to schedule(): no thread runs, and the one that leaves may be dying. */
  ghost predicate Leaving(s: State) {
    && Bookkeeping(s)
    && s.cur in s.status && (forall t :: t in s.status ==> s.status[t] != Running)
    && (forall t :: t in s.status && s.status[t] == Dying ==> t == INITIAL || t == s.cur)
  }

  // ----- wait queues

  lemma QueuesStay(s: State, s': State)
    requires QueuesOk(s) && s'.queues == s.queues && forall t :: Waiting(s.status, t) <==> Waiting(s'.status, t)
    ensures QueuesOk(s')
  {
    assert forall q :: Queue(s', q) == Queue(s, q);
    forall t | Waiting(s'.status, t) ensures Queued(s', t) {
      assert Queued(s, t);
      var q :| t in Queue(s, q);
      assert t in Queue(s', q);
    }
  }

  lemma QueuesGrow(s: State, s': State, q: nat, t: nat)
    requires QueuesOk(s) && s'.queues == s.queues[q := Queue(s, q) + [t]]
    requires !Waiting(s.status, t) && forall u :: Waiting(s'.status, u) <==> Waiting(s.status, u) || u == t
    ensures QueuesOk(s')
  {
    forall r ensures Queue(s', r) == if r == q then Queue(s, q) + [t] else Queue(s, r) {
    }
    forall u | Waiting(s'.status, u) ensures Queued(s', u) {
      if u == t {
        assert t in Queue(s', q);
      } else {
        assert Queued(s, u);
        var r :| u in Queue(s, r);
        assert u in Queue(s', r);
      }
    }
  }

  lemma QueuesShrink(s: State, s': State, q: nat, i: nat)
    requires QueuesOk(s) && i < |Queue(s, q)| && s'.queues == s.queues[q := Queue(s, q)[..i] + Queue(s, q)[i + 1..]]
    requires forall u :: Waiting(s'.status, u) <==> Waiting(s.status, u) && u != Queue(s, q)[i]
    ensures QueuesOk(s')
  {
    var old' := Queue(s, q);
    var new' := old'[..i] + old'[i + 1..];
    assert NoDup(old') && old'[i] in old';
    assert NoDup(new') && forall u :: u in new' <==> u in old' && u != old'[i];
    forall r ensures Queue(s', r) == if r == q then new' else Queue(s, r) {
    }
    forall u | Waiting(s'.status, u) ensures Queued(s', u) {
      assert Queued(s, u);
      var r :| u in Queue(s, r);
      assert u in Queue(s', r);
    }
  }

  // ----- each step keeps the invariant

  lemma ReadyPopped(ready: seq<nat>, status: map<nat, Status>, idle: Option<nat>)
    requires ReadyOk(ready, status, idle) && ready != []
    ensures ReadyOk(ready[1..], status[ready[0] := Running], idle)
  {
    assert forall t :: t in ready <==> t == ready[0] || t in ready[1..];
  }

  lemma ReadyPushed(ready: seq<nat>, status: map<nat, Status>, idle: Option<nat>, t: nat)
    requires ReadyOk(ready, status, idle) && t !in ready && idle != Some(t)
    ensures ReadyOk(ready + [t], status[t := Ready], idle)
  {
  }

  lemma ConservedFreed(freed: seq<nat>, status: map<nat, Status>, nextTid: nat, t: nat)
    requires Conserved(freed, status, nextTid) && t in status
    ensures Conserved(freed + [t], status - {t}, nextTid)
  {
  }

  lemma FindsNext(s: State)
    requires Leaving(s)
    ensures CanSchedule(s)
    ensures NextThread(s) in s.status && s.status[NextThread(s)] != Dying
    ensures s.ready != [] ==> NextThread(s) in s.ready
  {
    assert s.idle.None? ==> IDLE in s.ready;
    assert CanSchedule(s);
    assert s.ready != [] ==> NextThread(s) in s.ready;
  }

  lemma ScheduleKeepsReady(s: State)
    requires Leaving(s) && CanSchedule(s)
    ensures ReadyOk(Schedule(s).ready, Schedule(s).status, s.idle)
  {
    FindsNext(s);
    if s.ready != [] {
      ReadyPopped(s.ready, s.status, s.idle);
    }
  }

  lemma ScheduleConserves(s: State)
    requires Leaving(s) && CanSchedule(s)
    ensures Conserved(Schedule(s).freed, Schedule(s).status, s.nextTid)
  {
    FindsNext(s);
    var on := s.status[NextThread(s) := Running];
    assert Conserved(s.freed, on, s.nextTid);
    if s.status[s.cur] == Dying && s.cur != INITIAL {
      ConservedFreed(s.freed, on, s.nextTid, s.cur);
    }
  }

  /** schedule() finds a thread, the running one is never freed, and order is restored. */
  lemma ScheduleRestores(s: State)
    requires Leaving(s)
    ensures CanSchedule(s) && Inv(Schedule(s))
    ensures s.status[s.cur] == Dying ==> NextThread(s) != s.cur
  {
    FindsNext(s);
    var s' := Schedule(s);
    assert QueuesOk(s') by { QueuesStay(s, s'); }
    assert ReadyOk(s'.ready, s'.status, s'.idle) by { ScheduleKeepsReady(s); }
    assert Conserved(s'.freed, s'.status, s'.nextTid) by { ScheduleConserves(s); }
  }

  /** All but the wait queues when the running thread leaves. */
  lemma LeaveFor(s: State, st: Status, queues: map<nat, seq<nat>>)
    requires Inv(s) && s.cur in s.status && st != Running && (s.cur == IDLE ==> st != Dying)
    requires s.cur == IDLE && st == Blocked ==> s.idle.Some?
    requires QueuesOk(Leave(s, st).(queues := queues))
    ensures Leaving(Leave(s, st).(queues := queues))
  {
    if st == Ready && s.idle != Some(s.cur) {
      ReadyPushed(s.ready, s.status, s.idle, s.cur);
    }
  }

  lemma StayLeaves(s: State, st: Status)
    requires Inv(s) && s.cur in s.status && st != Running && (s.cur == IDLE ==> st != Dying)
    requires st == Blocked ==> s.cur == IDLE && s.idle.Some?
    ensures Leaving(Leave(s, st))
  {
    QueuesStay(s, Leave(s, st));
    LeaveFor(s, st, s.queues);
  }

  lemma BlockLeaves(s: State, q: nat)
    requires Inv(s) && s.cur in s.status && s.cur != IDLE
    ensures Leaving(Leave(Enqueue(s, q), Blocked))
  {
    var queues := s.queues[q := Queue(s, q) + [s.cur]];
    QueuesGrow(s, Leave(s, Blocked).(queues := queues), q, s.cur);
    LeaveFor(s, Blocked, queues);
  }

  lemma WakeKeeps(s: State, q: nat, i: nat)
    requires Inv(s) && i < |Queue(s, q)|
    ensures Inv(Wake(s, q, i))
  {
    var t := Queue(s, q)[i];
    assert t in Queue(s, q) && Waiting(s.status, t);
    QueuesShrink(s, Wake(s, q, i), q, i);
    ReadyPushed(s.ready, s.status, s.idle, t);
  }

  lemma CreateKeeps(s: State)
    requires Inv(s) && s.cur in s.status
    ensures Inv(Create(s))
  {
    QueuesStay(s, Create(s));
    ReadyPushed(s.ready, s.status, s.idle, s.nextTid);
  }

  lemma SetIdleKeeps(s: State)
    requires Inv(s) && s.cur in s.status && s.cur == IDLE
    ensures Inv(s.(idle := Some(s.cur)))
  {
    QueuesStay(s, s.(idle := Some(s.cur)));
  }

  lemma BeforeLeaves(s: State, e: Event)
    requires Inv(s) && Enabled(s, e) && Switches(e)
    ensures Leaving(Before(s, e))
  {
    assert s.cur in s.status;
    match e
    case BlockOn(q) => BlockLeaves(s, q);
    case IdleBlock => StayLeaves(s, Blocked);
    case Yield => StayLeaves(s, Ready);
    case Exit => StayLeaves(s, Dying);
    case _ =>
  }

  /** Every step keeps the invariant, and no step gets stuck in schedule(). */
  lemma StepKeeps(s: State, e: Event)
    requires Inv(s) && Enabled(s, e)
    ensures Switches(e) ==> CanSchedule(Before(s, e))
    ensures forall s' :: Step(s, e, s') ==> Inv(s')
  {
    assert s.cur in s.status;
    if Switches(e) {
      BeforeLeaves(s, e);
      ScheduleRestores(Before(s, e));
    } else {
      match e
      case Spawn => CreateKeeps(s);
      case WakeUp(q, i) => WakeKeeps(s, q, i);
      case SetIdle => SetIdleKeeps(s);
      case _ =>
    }
  }

  lemma StartInv()
    ensures Inv(START)
  {
    assert forall q :: Queue(START, q) == [];
    assert forall t :: t in START.status <==> t == INITIAL || t == IDLE;
  }

  // ----- runs

  ghost predicate IsRun(run: seq<State>, events: seq<Event>) {
    |run| == |events| + 1 && forall n :: 0 <= n < |events| ==> Step(run[n], events[n], run[n + 1])
  }

  lemma {:induction false} RunKeeps(run: seq<State>, events: seq<Event>, n: nat)
    requires IsRun(run, events) && run[0] == START && n < |run|
    ensures Inv(run[n])
  {
    if n == 0 {
      StartInv();
    } else {
      RunKeeps(run, events, n - 1);
      assert Step(run[n - 1], events[n - 1], run[n - 1 + 1]);
      StepKeeps(run[n - 1], events[n - 1]);
    }
  }

  /** Over every run each blocked thread is in reach: there is a list from which it can be woken,
      and then it is the last of the ready threads. */
  lemma BlockedCanBeWoken(run: seq<State>, events: seq<Event>, n: nat, t: nat) returns (q: nat, i: nat, s': State)
    requires IsRun(run, events) && run[0] == START && n < |run|
    requires t in run[n].status && run[n].status[t] == Blocked && t != IDLE
    ensures i < |Queue(run[n], q)| && Queue(run[n], q)[i] == t && Step(run[n], WakeUp(q, i), s')
    ensures s'.status[t] == Ready && s'.ready == run[n].ready + [t] && !Queued(s', t)
  {
    var s := run[n];
    RunKeeps(run, events, n);
    assert Waiting(s.status, t) && Queued(s, t);
    q :| t in Queue(s, q);
    i :| 0 <= i < |Queue(s, q)| && Queue(s, q)[i] == t;
    s' := Wake(s, q, i);
    WakeKeeps(s, q, i);
    forall r ensures t !in Queue(s', r) {
      assert t in Queue(s', r) ==> Waiting(s'.status, t);
    }
  }

  /** How many of the events at [a, b) call schedule(). */
  function Schedules(events: seq<Event>, a: nat, b: nat): nat
    requires a <= b <= |events|
    decreases b - a
  {
    if a == b then 0 else (if Switches(events[a]) then 1 else 0) + Schedules(events, a + 1, b)
  }

  /** A thread moves up by one place at each call of schedule(). */
  lemma MovesUp(s: State, e: Event, s': State, k: nat)
    requires Step(s, e, s') && k < |s.ready|
    ensures !Switches(e) ==> k < |s'.ready| && s'.ready[k] == s.ready[k]
    ensures Switches(e) && k > 0 ==> k - 1 < |s'.ready| && s'.ready[k - 1] == s.ready[k]
    ensures Switches(e) && k == 0 ==> s'.cur == s.ready[0]
  {
  }

  /** A thread at place `k` of the ready list runs after `k + 1` calls of schedule(). */
  lemma {:induction false} RunsInTurn(run: seq<State>, events: seq<Event>, a: nat, b: nat, k: nat)
    requires IsRun(run, events) && a <= b < |events| && k < |run[a].ready|
    requires Schedules(events, a, b) == k && Switches(events[b])
    ensures run[b + 1].cur == run[a].ready[k]
    decreases b - a
  {
    MovesUp(run[a], events[a], run[a + 1], k);
    if a < b {
      RunsInTurn(run, events, a + 1, b, if Switches(events[a]) then k - 1 else k);
    }
  }

  /** The thread that exits is freed at once by the thread that runs next, unless it is
      the initial thread; nothing else is ever freed. */
  lemma FreedBySuccessor(s: State, e: Event, s': State)
    requires Inv(s) && Step(s, e, s')
    ensures s'.freed == if e.Exit? && s.cur != INITIAL then s.freed + [s.cur] else s.freed
    ensures e.Exit? ==> s'.cur != s.cur && (s.cur in s'.status <==> s.cur == INITIAL)
  {
    if Switches(e) {
      BeforeLeaves(s, e);
      ScheduleRestores(Before(s, e));
    }
  }

  // ----- thread.c

  /** schedule() has taken the first of the threads `before` as `cur`, or the idle thread if
      there was none, and left the others. */
  ghost predicate HandedOver(before: seq<nat>, idle: Option<nat>, cur: nat, ready: seq<nat>) {
    if before == [] then idle == Some(cur) && ready == [] else before == [cur] + ready
  }

  /** The scheduler's variables, with the history that led to their present values. */
  class Threads {
    var status: map<nat, Status>
    var cur: nat
    var ready: seq<nat>
    var idle: Option<nat>
    var queues: map<nat, seq<nat>>
    var nextTid: nat
    ghost var freed: seq<nat>
    ghost var run: seq<State>
    ghost var events: seq<Event>

    ghost function S(): State
      reads this
    {
      State(status, cur, ready, idle, queues, freed, nextTid)
    }

    ghost predicate Valid()
      reads this
    {
      IsRun(run, events) && run[0] == START && run[|events|] == S()
    }

    constructor ()
      ensures Valid() && events == []
    {
      status, cur, ready, idle := map[INITIAL := Running, IDLE := Ready], INITIAL, [IDLE], None;
      queues, nextTid, freed, events := map[], 3, [], [];
      new;
      run := [S()];
    }

    ghost method Record(e: Event)
      requires IsRun(run, events) && run[0] == START && Step(run[|events|], e, S())
      modifies this`run, this`events
      ensures Valid() && events == old(events) + [e] && S() == old(S())
    {
      run, events := run + [S()], events + [e];
    }

    /** next_thread_to_run: takes the head of the ready list. */
    method NextThreadToRun() returns (next: nat)
      requires CanSchedule(S())
      modifies this`ready
      ensures next == NextThread(old(S())) && ready == if old(ready) == [] then [] else old(ready)[1..]
    {
      if ready == [] {
        next := idle.value;
      } else {
        next := ready[0];
        ready := ready[1..];
      }
    }

    /** schedule_tail, as the thread that has just been switched to. */
    method ScheduleTail(prev: Option<nat>)
      requires prev.Some? ==> prev.value in status && prev.value != cur
      modifies this`status, this`freed
      ensures prev.Some? && old(status[prev.value]) == Dying && prev.value != INITIAL ==>
                status == old(status)[cur := Running] - {prev.value} && freed == old(freed) + [prev.value]
      ensures !(prev.Some? && old(status[prev.value]) == Dying && prev.value != INITIAL) ==>
                status == old(status)[cur := Running] && freed == old(freed)
    {
      status := status[cur := Running];
      if prev.Some? && status[prev.value] == Dying && prev.value != INITIAL {
        status := status - {prev.value};
        freed := freed + [prev.value];
      }
    }

    /** schedule. */
    method Reschedule()
      requires CanSchedule(S())
      modifies this`status, this`cur, this`ready, this`freed
      ensures S() == Schedule(old(S()))
    {
      var leaving := cur;
      var next := NextThreadToRun();
      var prev: Option<nat> := None;
      if leaving != next {
        cur := next;
        prev := Some(leaving);
      }
      ScheduleTail(prev);
    }

    /** thread_unblock. */
    method Unblock(t: nat)
      modifies this`status, this`ready
      ensures status == old(status)[t := Ready] && ready == old(ready) + [t]
    {
      ready := ready + [t];
      status := status[t := Ready];
    }

    /** thread_create; `memory` says whether palloc has a page. */
    method Create(memory: bool) returns (tid: Option<nat>)
      requires Valid()
      modifies this
      ensures Valid() && (tid.Some? <==> memory)
      ensures if memory then events == old(events) + [Spawn] && tid == Some(old(nextTid))
              else events == old(events) && S() == old(S())
      ensures memory ==> status == old(status)[tid.value := Ready] && ready == old(ready) + [tid.value]
                         && cur == old(cur) && queues == old(queues)
    {
      tid := None;
      if memory {
        tid := Some(nextTid);
        nextTid := nextTid + 1;
        Unblock(tid.value);
        Record(Spawn);
      }
    }

    /** The running thread puts itself on list `q` and calls thread_block. */
    method Wait(q: nat)
      requires Valid() && cur != IDLE
      modifies this
      ensures Valid() && events == old(events) + [BlockOn(q)]
      ensures queues == old(queues)[q := old(Queue(S(), q)) + [old(cur)]]
      ensures status == old(status)[old(cur) := Blocked][cur := Running] && HandedOver(old(ready), idle, cur, ready)
    {
      ghost var e := BlockOn(q);
      assert CanSchedule(Before(S(), e)) by {
        RunKeeps(run, events, |events|);
        StepKeeps(S(), e);
      }
      var list := if q in queues then queues[q] else [];
      queues := queues[q := list + [cur]];
      status := status[cur := Blocked];
      Reschedule();
      Record(e);
    }

    /** The start of idle(). */
    method StartIdle()
      requires Valid() && cur == IDLE && idle.None?
      modifies this
      ensures Valid() && events == old(events) + [SetIdle] && S() == old(S()).(idle := Some(IDLE))
    {
      idle := Some(cur);
      Record(SetIdle);
    }

    /** thread_block in the loop of idle(). */
    method Idle()
      requires Valid() && idle == Some(cur)
      modifies this
      ensures Valid() && events == old(events) + [IdleBlock] && queues == old(queues)
      ensures status == old(status)[old(cur) := Blocked][cur := Running] && HandedOver(old(ready), idle, cur, ready)
    {
      assert CanSchedule(Before(S(), IdleBlock)) by {
        RunKeeps(run, events, |events|);
        StepKeeps(S(), IdleBlock);
      }
      status := status[cur := Blocked];
      Reschedule();
      Record(IdleBlock);
    }

    /** The waiter at place `i` of list `q` is removed and unblocked. */
    method Signal(q: nat, i: nat)
      requires Valid() && i < |Queue(S(), q)|
      modifies this
      ensures Valid() && events == old(events) + [WakeUp(q, i)] && cur == old(cur)
      ensures var list := old(Queue(S(), q));
              && queues == old(queues)[q := list[..i] + list[i + 1..]]
              && status == old(status)[list[i] := Ready] && ready == old(ready) + [list[i]]
    {
      var list := queues[q];
      queues := queues[q := list[..i] + list[i + 1..]];
      Unblock(list[i]);
      Record(WakeUp(q, i));
    }

    /** thread_yield. */
    method GiveWay()
      requires Valid()
      modifies this
      ensures Valid() && events == old(events) + [Yield] && queues == old(queues)
      ensures status == old(status)[old(cur) := Ready][cur := Running]
      ensures HandedOver(old(ready) + if idle == Some(old(cur)) then [] else [old(cur)], idle, cur, ready)
    {
      assert CanSchedule(Before(S(), Yield)) by {
        RunKeeps(run, events, |events|);
        StepKeeps(S(), Yield);
      }
      if idle != Some(cur) {
        ready := ready + [cur];
      }
      status := status[cur := Ready];
      Reschedule();
      Record(Yield);
    }

    /** thread_exit. */
    method Die()
      requires Valid() && cur != IDLE
      modifies this
      ensures Valid() && events == old(events) + [Exit] && queues == old(queues)
      ensures HandedOver(old(ready), idle, cur, ready)
      ensures if old(cur) == INITIAL
              then status == old(status)[INITIAL := Dying][cur := Running] && freed == old(freed)
              else status == old(status)[cur := Running] - {old(cur)} && freed == old(freed) + [old(cur)]
    {
      assert CanSchedule(Before(S(), Exit)) && NextThread(Before(S(), Exit)) != cur by {
        RunKeeps(run, events, |events|);
        BeforeLeaves(S(), Exit);
        ScheduleRestores(Before(S(), Exit));
      }
      status := status[cur := Dying];
      Reschedule();
      assert old(cur) != INITIAL ==> status == old(status)[old(cur) := Dying][cur := Running] - {old(cur)};
      Record(Exit);
    }
  }
}
