/** The sleep list: timer_sleep (devices/timer.c) enqueues the running thread with
    the tick at which it wants to wake, and thread_tick (threads/thread.c), called
    from the timer interrupt, moves every thread whose tick has come to the ready list. */
module SleepQueue {
  import opened IntrusiveList
  import opened Products
  import opened Sequences

  type Tid = nat

  /** A sleeping thread and its wake_tick. */
  datatype Sleeper = Sleeper(tid: Tid, wakeTick: int)

  /** The threads in `s` that are due at `now`, in order. */
  ghost function Due(s: seq<Elem<Sleeper>>, now: int): seq<Tid> {
    if s == [] then []
    else (if s[0].val.wakeTick <= now then [s[0].val.tid] else []) + Due(s[1..], now)
  }

  /** The elements of `s` whose thread is not yet due at `now`, in order. */
  ghost function NotDue(s: seq<Elem<Sleeper>>, now: int): seq<Elem<Sleeper>> {
    if s == [] then []
    else (if s[0].val.wakeTick <= now then [] else [s[0]]) + NotDue(s[1..], now)
  }

  /** The list that thread_tick leaves when its cursor stands at index `at`. */
  ghost function Swept(n: seq<Elem<Sleeper>>, now: int, at: nat): seq<Elem<Sleeper>>
    requires at < |n|
    decreases |n| - at
  {
    if at == |n| - 1 then n
    else if n[at].val.wakeTick <= now then Swept(CutOut(n, at, at + 1), now, at)
    else Swept(n, now, at + 1)
  }

  /** The threads it still wakes from there. */
  ghost function Woken(n: seq<Elem<Sleeper>>, now: int, at: nat): seq<Tid>
    requires at < |n|
    decreases |n| - at
  {
    if at == |n| - 1 then []
    else if n[at].val.wakeTick <= now then [n[at].val.tid] + Woken(CutOut(n, at, at + 1), now, at)
    else Woken(n, now, at + 1)
  }

  /** What is left of a list when the element at `at` is removed. */
  lemma CutTail(n: seq<Elem<Sleeper>>, at: nat)
    requires at < |n| - 1
    ensures var c := CutOut(n, at, at + 1);
            && |c| == |n| - 1 && c[..at] == n[..at] && c[at..|n| - 2] == n[at + 1..|n| - 1]
            && c[|n| - 2] == n[|n| - 1]
  {
  }

  lemma {:induction false} SweptIsNotDue(n: seq<Elem<Sleeper>>, now: int, at: nat)
    requires at < |n|
    ensures Swept(n, now, at) == n[..at] + (NotDue(n[at..|n| - 1], now) + [n[|n| - 1]])
    decreases |n| - at
  {
    hide CutOut;
    var last := |n| - 1;
    var rest := n[at..last];
    if at == last {
      assert n == n[..at] + [n[last]];
    } else {
      assert rest[1..] == n[at + 1..last];
      if n[at].val.wakeTick <= now {
        CutTail(n, at);
        SweptIsNotDue(CutOut(n, at, at + 1), now, at);
        assert NotDue(rest, now) == NotDue(rest[1..], now);
      } else {
        SweptIsNotDue(n, now, at + 1);
        var more := NotDue(rest[1..], now);
        assert NotDue(rest, now) == [n[at]] + more;
        KeptInFront(n[..at + 1], at, more, [n[last]]);
      }
    }
  }

  lemma KeptInFront<A>(s: seq<A>, at: nat, more: seq<A>, end: seq<A>)
    requires |s| == at + 1
    ensures s + (more + end) == s[..at] + (([s[at]] + more) + end)
  {
  }

  lemma {:induction false} WokenIsDue(n: seq<Elem<Sleeper>>, now: int, at: nat)
    requires at < |n|
    ensures Woken(n, now, at) == Due(n[at..|n| - 1], now)
    decreases |n| - at
  {
    hide CutOut;
    var last := |n| - 1;
    if at < last {
      var rest := n[at..last];
      assert rest[1..] == n[at + 1..last];
      if n[at].val.wakeTick <= now {
        CutTail(n, at);
        WokenIsDue(CutOut(n, at, at + 1), now, at);
      } else {
        WokenIsDue(n, now, at + 1);
      }
    }
  }

  // ----- every run of sleeping threads and timer interrupts

  /** A queued sleeper and the tick during which it was queued. */
  datatype Entry = Entry(sleeper: Sleeper, since: int)

  /** A thread that was woken, and the tick that woke it. */
  datatype Wake = Wake(entry: Entry, at: int)

  /** `reading` holds threads inside timer_sleep that have computed their wake
      tick with interrupts on and have not yet reached the sleep list. */
  datatype State = State(ticks: int, reading: map<Tid, int>, queue: seq<Entry>, queued: multiset<Entry>, log: seq<Wake>)

  datatype Event = Call(tid: Tid, n: int) | Enqueue(tid: Tid) | Tick

  function Keep(q: seq<Entry>, now: int): (r: seq<Entry>)
    ensures forall e :: e in r <==> e in q && e.sleeper.wakeTick > now
  {
    if q == [] then []
    else (if q[0].sleeper.wakeTick <= now then [] else [q[0]]) + Keep(q[1..], now)
  }

  function Fire(q: seq<Entry>, now: int): (r: seq<Wake>)
    ensures forall w :: w in r <==> w.at == now && w.entry in q && w.entry.sleeper.wakeTick <= now
  {
    if q == [] then []
    else (if q[0].sleeper.wakeTick <= now then [Wake(q[0], now)] else []) + Fire(q[1..], now)
  }

  /** timer_sleep up to the enqueueing, the enqueueing, and timer_interrupt.  A
      call with a negative count returns at once. */
  ghost predicate Step(s: State, ev: Event, t: State) {
    match ev
    case Call(tid, n) =>
      t == if n < 0 then s else s.(reading := s.reading[tid := s.ticks + n])
    case Enqueue(tid) =>
      && tid in s.reading
      && var e := Entry(Sleeper(tid, s.reading[tid]), s.ticks);
         t == s.(reading := s.reading - {tid}, queue := s.queue + [e], queued := s.queued + multiset{e})
    case Tick =>
      var now := s.ticks + 1;
      t == s.(ticks := now, queue := Keep(s.queue, now), log := s.log + Fire(s.queue, now))
  }

  ghost predicate Init(s: State) {
    s.reading == map[] && s.queue == [] && s.queued == multiset{} && s.log == []
  }

  ghost predicate Run(ss: seq<State>, evs: seq<Event>) {
    && |ss| == |evs| + 1 && Init(ss[0])
    && forall i :: 0 <= i < |evs| ==> Step(ss[i], evs[i], ss[i + 1])
  }

  function Entries(log: seq<Wake>): (r: multiset<Entry>) {
    if log == [] then multiset{} else Entries(log[..|log| - 1]) + multiset{log[|log| - 1].entry}
  }

  /** A sleeper is either still early or was queued since the last tick; every
      woken thread was woken at the first tick it could be; and every queued
      sleeper is either still queued or was woken, exactly once. */
  ghost predicate Inv(s: State) {
    && (forall e :: e in s.queue ==> e.since <= s.ticks && (e.sleeper.wakeTick > s.ticks || e.since == s.ticks))
    && (forall w :: w in s.log ==> w.at <= s.ticks && w.at == Max(w.entry.sleeper.wakeTick, w.entry.since + 1))
    && s.queued == multiset(s.queue) + Entries(s.log)
  }

  lemma {:induction false} EntriesConcat(a: seq<Wake>, b: seq<Wake>)
    ensures Entries(a + b) == Entries(a) + Entries(b)
  {
    if b == [] {
      assert a + b == a;
    } else {
      assert (a + b)[..|a + b| - 1] == a + b[..|b| - 1];
      EntriesConcat(a, b[..|b| - 1]);
    }
  }

  /** A tick neither loses nor repeats a sleeper. */
  lemma {:induction false} TickConserves(q: seq<Entry>, now: int)
    ensures multiset(Keep(q, now)) + Entries(Fire(q, now)) == multiset(q)
  {
    if q != [] {
      var rest := q[1..];
      TickConserves(rest, now);
      assert multiset(q) == multiset{q[0]} + multiset(rest) by {
        assert q == [q[0]] + rest;
      }
      if q[0].sleeper.wakeTick <= now {
        var w := [Wake(q[0], now)];
        assert Entries(w) == Entries(w[..0]) + multiset{q[0]};
        EntriesConcat(w, Fire(rest, now));
      } else {
        assert Fire(q, now) == Fire(rest, now);
        assert Keep(q, now) == [q[0]] + Keep(rest, now);
      }
    }
  }

  lemma TickKeepsInv(s: State, t: State)
    requires Inv(s) && Step(s, Tick, t)
    ensures Inv(t)
  {
    var now := s.ticks + 1;
    assert t.queued == multiset(t.queue) + Entries(t.log) by {
      TickConserves(s.queue, now);
      EntriesConcat(s.log, Fire(s.queue, now));
    }
    forall w | w in t.log ensures w.at <= now && w.at == Max(w.entry.sleeper.wakeTick, w.entry.since + 1) {
      assert w in s.log || w in Fire(s.queue, now);
    }
  }

  lemma StepKeepsInv(s: State, ev: Event, t: State)
    requires Inv(s) && Step(s, ev, t)
    ensures Inv(t)
  {
    if ev.Tick? {
      TickKeepsInv(s, t);
    }
  }

  lemma {:induction false} RunKeepsInv(ss: seq<State>, evs: seq<Event>)
    requires Run(ss, evs)
    ensures Inv(ss[|evs|])
  {
    if evs != [] {
      var n := |evs| - 1;
      assert Run(ss[..n + 1], evs[..n]);
      RunKeepsInv(ss[..n + 1], evs[..n]);
      StepKeepsInv(ss[n], evs[n], ss[n + 1]);
    }
  }

  /** Over every run: no thread wakes early, each wakes exactly at the first tick
      after it was queued that is not before its wake tick, exactly once, and
      right after a tick every remaining sleeper's wake tick lies ahead. */
  lemma SleepersWakeOnTime(ss: seq<State>, evs: seq<Event>)
    requires Run(ss, evs)
    ensures var s := ss[|evs|];
            && (forall w :: w in s.log ==> w.at == Max(w.entry.sleeper.wakeTick, w.entry.since + 1))
            && s.queued == multiset(s.queue) + Entries(s.log)
            && (evs != [] && evs[|evs| - 1] == Tick ==> forall e :: e in s.queue ==> e.sleeper.wakeTick > s.ticks)
  {
    RunKeepsInv(ss, evs);
    if evs != [] && evs[|evs| - 1] == Tick {
      assert Step(ss[|evs| - 1], Tick, ss[|evs|]);
    }
  }

  // ----- what a caller of timer_sleep sees

  /** The number of timer interrupts among the first `k` events. */
  function Interrupts(evs: seq<Event>, k: nat): nat
    requires k <= |evs|
  {
    if k == 0 then 0 else Interrupts(evs, k - 1) + if evs[k - 1].Tick? then 1 else 0
  }

  lemma {:induction false} TicksCountInterrupts(ss: seq<State>, evs: seq<Event>, k: nat)
    requires Run(ss, evs) && k <= |evs|
    ensures ss[k].ticks == ss[0].ticks + Interrupts(evs, k)
  {
    if k > 0 {
      TicksCountInterrupts(ss, evs, k - 1);
      assert Step(ss[k - 1], evs[k - 1], ss[k - 1 + 1]);
    }
  }

  lemma InvAt(ss: seq<State>, evs: seq<Event>, k: nat)
    requires Run(ss, evs) && k <= |evs|
    ensures Inv(ss[k])
  {
    assert Run(ss[..k + 1], evs[..k]);
    RunKeepsInv(ss[..k + 1], evs[..k]);
  }

  /** The thread called timer_sleep(n) at event `i`, and not again before event `j`. */
  ghost predicate Sleeps(evs: seq<Event>, i: nat, j: nat, tid: Tid, n: nat) {
    && i < j < |evs| && evs[i] == Call(tid, n) && evs[j] == Enqueue(tid)
    && forall k :: i < k < j && evs[k].Call? && evs[k].tid == tid ==> evs[k].n < 0
  }

  /** Until it is queued it holds on to the wake tick it has computed. */
  lemma {:induction false} WakeTickStays(ss: seq<State>, evs: seq<Event>, i: nat, j: nat, tid: Tid, n: nat, k: nat)
    requires Run(ss, evs) && Sleeps(evs, i, j, tid, n) && i < k <= j
    ensures tid in ss[k].reading ==> ss[k].reading[tid] == ss[i].ticks + n
    decreases k
  {
    assert Step(ss[k - 1], evs[k - 1], ss[k - 1 + 1]);
    if k > i + 1 {
      WakeTickStays(ss, evs, i, j, tid, n, k - 1);
    }
  }

  lemma {:induction false} QueuedStays(ss: seq<State>, evs: seq<Event>, j: nat, k: nat, e: Entry)
    requires Run(ss, evs) && j <= k <= |evs| && e in ss[j].queued
    ensures e in ss[k].queued
    decreases k
  {
    if j < k {
      QueuedStays(ss, evs, j, k - 1, e);
      assert Step(ss[k - 1], evs[k - 1], ss[k - 1 + 1]);
    }
  }

  lemma {:induction false} EntryWasWoken(log: seq<Wake>, e: Entry)
    requires e in Entries(log)
    ensures exists w :: w in log && w.entry == e
  {
    var n := |log| - 1;
    if log[n].entry != e {
      EntryWasWoken(log[..n], e);
      var w :| w in log[..n] && w.entry == e;
      assert w in log;
    } else {
      assert log[n] in log;
    }
  }

  /** Before tick `wake` the sleeper is queued and has not been woken; from then on it is not
      queued and has been woken, at that tick. */
  ghost predicate OnTime(s: State, e: Entry, wake: int) {
    if s.ticks < wake then
      e in s.queue && forall w :: w in s.log ==> w.entry != e
    else
      e !in s.queue && Wake(e, wake) in s.log && forall w :: w in s.log && w.entry == e ==> w.at == wake
  }

  /** Over every run a thread that called timer_sleep(n) is queued with the tick at which it
      called plus `n`.  It sleeps before that tick and before the first one after it was queued;
      from then on it has been woken, at exactly that tick. */
  lemma SleepsAsLongAsAsked(ss: seq<State>, evs: seq<Event>, i: nat, j: nat, tid: Tid, n: nat, k: nat)
    requires Run(ss, evs) && Sleeps(evs, i, j, tid, n) && j < k <= |evs|
    ensures var e := Entry(Sleeper(tid, ss[i].ticks + n), ss[j].ticks);
            var wake := Max(ss[i].ticks + n, ss[j].ticks + 1);
            ss[j + 1].queue == ss[j].queue + [e] && OnTime(ss[k], e, wake)
  {
    var e := Entry(Sleeper(tid, ss[i].ticks + n), ss[j].ticks);
    assert ss[j + 1].queue == ss[j].queue + [e] && e in ss[j + 1].queued by {
      assert Step(ss[j], evs[j], ss[j + 1]);
      WakeTickStays(ss, evs, i, j, tid, n, j);
    }
    QueuedStays(ss, evs, j + 1, k, e);
    AsleepOrWoken(ss, evs, k, e);
  }

  /** A sleeper that has been queued is asleep before its time and has been woken after it. */
  lemma AsleepOrWoken(ss: seq<State>, evs: seq<Event>, k: nat, e: Entry)
    requires Run(ss, evs) && k <= |evs| && e in ss[k].queued
    ensures OnTime(ss[k], e, Max(e.sleeper.wakeTick, e.since + 1))
  {
    var s := ss[k];
    InvAt(ss, evs, k);
    if e !in s.queue {
      assert e in Entries(s.log);
      EntryWasWoken(s.log, e);
      var w :| w in s.log && w.entry == e;
      assert w == Wake(e, Max(e.sleeper.wakeTick, e.since + 1));
    }
  }

  // ----- the list in place

  /** The list holds the sleepers of the queue. */
  ghost predicate Matches(s: seq<Elem<Sleeper>>, q: seq<Entry>) {
    |s| == |q| && forall i :: 0 <= i < |s| ==> s[i].val == q[i].sleeper
  }

  /** The threads woken, in order. */
  ghost function Tids(log: seq<Wake>): seq<Tid> {
    seq(|log|, i requires 0 <= i < |log| => log[i].entry.sleeper.tid)
  }

  /** The list that thread_tick rewires and the queue of the state machine agree. */
  lemma {:induction false} TickRefines(s: seq<Elem<Sleeper>>, q: seq<Entry>, now: int)
    requires Matches(s, q)
    ensures Matches(NotDue(s, now), Keep(q, now)) && Due(s, now) == Tids(Fire(q, now))
  {
    hide Matches, Tids;
    if s == [] {
      EmptyMatches(q);
    } else {
      TailMatches(s, q);
      TickRefines(s[1..], q[1..], now);
      if s[0].val.wakeTick <= now {
        TidsOne(Wake(q[0], now));
        TidsConcat([Wake(q[0], now)], Fire(q[1..], now));
        assert NotDue(s, now) == NotDue(s[1..], now) && Keep(q, now) == Keep(q[1..], now);
      } else {
        HeadMatches(s[0], q[0], NotDue(s[1..], now), Keep(q[1..], now));
        assert Due(s, now) == Due(s[1..], now) && Fire(q, now) == Fire(q[1..], now);
      }
    }
  }

  lemma EmptyMatches(q: seq<Entry>)
    ensures Matches([], q) <==> q == []
    ensures Tids([]) == []
  {
  }

  lemma TailMatches(s: seq<Elem<Sleeper>>, q: seq<Entry>)
    requires s != [] && Matches(s, q)
    ensures q != [] && s[0].val == q[0].sleeper && Matches(s[1..], q[1..])
  {
  }

  lemma HeadMatches(e: Elem<Sleeper>, x: Entry, s: seq<Elem<Sleeper>>, q: seq<Entry>)
    requires e.val == x.sleeper && Matches(s, q)
    ensures Matches([e] + s, [x] + q)
  {
  }

  lemma TidsConcat(a: seq<Wake>, b: seq<Wake>)
    ensures Tids(a + b) == Tids(a) + Tids(b)
  {
  }

  lemma TidsOne(w: Wake)
    ensures Tids([w]) == [w.entry.sleeper.tid]
  {
  }

  /** The sleep list, the tick count and the threads put on the ready list, together with the
      run of the state machine so far. */
  class Kernel {
    const waiting: List<Sleeper>
    var ready: seq<Tid>
    var ticks: int
    ghost var states: seq<State>
    ghost var events: seq<Event>

    /** After every run the list and the machine agree. */
    ghost predicate Valid()
      reads this, waiting, waiting.nodes
    {
      waiting.Valid() && Run(states, events) && Agrees(Last())
    }

    ghost predicate Agrees(s: State)
      requires |waiting.nodes| >= 2
      reads this, waiting
    {
      ticks == s.ticks && Matches(waiting.Items(), s.queue) && ready == Tids(s.log)
    }

    ghost function Last(): State
      requires |states| == |events| + 1
      reads this
    {
      states[|events|]
    }

    constructor ()
      ensures Valid() && events == [] && ticks == 0 && fresh(waiting) && fresh(Members(waiting.nodes))
    {
      waiting := new List<Sleeper>(Sleeper(0, 0));
      ready, ticks := [], 0;
      states, events := [State(0, map[], [], multiset{}, [])], [];
    }

    /** timer_sleep up to the call of thread_add_to_waiting. */
    method TimerSleep(tid: Tid, n: int) returns (wakeTick: int)
      requires Valid()
      modifies this`states, this`events
      ensures Valid() && events == old(events) + [Call(tid, n)]
      ensures n >= 0 ==> tid in Last().reading && wakeTick == ticks + n == Last().reading[tid]
      ensures ticks == Last().ticks
    {
      wakeTick := ticks + n;
      Record(Call(tid, n), if n < 0 then Last() else Last().(reading := Last().reading[tid := wakeTick]));
    }

    /** thread_add_to_waiting: the thread goes to the end of the list. */
    method AddToWaiting(tid: Tid, wakeTick: int)
      requires Valid() && tid in Last().reading && wakeTick == Last().reading[tid]
      modifies this`states, this`events, waiting`nodes, Members(waiting.nodes)
      ensures Valid() && events == old(events) + [Enqueue(tid)]
      ensures fresh(Members(waiting.nodes) - old(Members(waiting.nodes)))
    {
      var e := new Elem<Sleeper>(Sleeper(tid, wakeTick));
      ghost var s, k := Last(), |waiting.nodes| - 1;
      waiting.Insert(waiting.tail, e, k);
      ghost var entry := Entry(Sleeper(tid, wakeTick), ticks);
      Record(Enqueue(tid),
        s.(reading := s.reading - {tid}, queue := s.queue + [entry], queued := s.queued + multiset{entry}));
    }

    /** timer_interrupt. */
    method TimerInterrupt()
      requires Valid()
      modifies this, waiting`nodes, Members(waiting.nodes)
      ensures Valid() && events == old(events) + [Tick]
      ensures Members(waiting.nodes) <= old(Members(waiting.nodes))
    {
      hide Keep, Fire, NotDue, Due, Matches, Tids;
      ghost var s, items, now := Last(), waiting.Items(), ticks + 1;
      ticks := ticks + 1;
      ThreadTick();
      TickRefines(items, s.queue, now);
      TidsConcat(s.log, Fire(s.queue, now));
      Record(Tick, s.(ticks := now, queue := Keep(s.queue, now), log := s.log + Fire(s.queue, now)));
    }

    /** The machine takes the step that the list has just taken. */
    ghost method Record(ev: Event, t: State)
      requires waiting.Valid() && Run(states, events) && Step(Last(), ev, t) && Agrees(t)
      modifies this`states, this`events
      ensures Valid() && states == old(states) + [t] && events == old(events) + [ev]
    {
      states, events := states + [t], events + [ev];
    }

    /** thread_tick, called with the tick count already advanced. */
    method ThreadTick()
      requires waiting.Valid()
      modifies this`ready, waiting`nodes, Members(waiting.nodes)
      ensures waiting.Valid() && Members(waiting.nodes) <= old(Members(waiting.nodes))
      ensures waiting.Items() == NotDue(old(waiting.Items()), ticks)
      ensures ready == old(ready) + Due(old(waiting.Items()), ticks)
    {
      Sweep();
      SweptIsNotDue(old(waiting.nodes), ticks, 1);
      WokenIsDue(old(waiting.nodes), ticks, 1);
    }

    /** Its loop.  After unlinking an element it goes on from that element's own stale `next`
        link. */
    method Sweep()
      requires waiting.Valid()
      modifies this`ready, waiting`nodes, Members(waiting.nodes)
      ensures waiting.Valid() && Members(waiting.nodes) <= old(Members(waiting.nodes))
      ensures waiting.nodes == Swept(old(waiting.nodes), ticks, 1)
      ensures ready == old(ready) + Woken(old(waiting.nodes), ticks, 1)
    {
      var e := waiting.head.next;
      ghost var at := 1;
      while e != waiting.tail
        invariant waiting.Valid() && Members(waiting.nodes) <= old(Members(waiting.nodes))
        invariant 0 < at < |waiting.nodes| && waiting.nodes[at] == e
        invariant Swept(waiting.nodes, ticks, at) == Swept(old(waiting.nodes), ticks, 1)
        invariant ready + Woken(waiting.nodes, ticks, at) == old(ready) + Woken(old(waiting.nodes), ticks, 1)
        decreases |waiting.nodes| - at
      {
        if e.val.wakeTick <= ticks && e.prev != null && e.next != null {
          ready := ready + [e.val.tid];
          var _ := waiting.Remove(e, at);
        } else {
          at := at + 1;
        }
        e := e.next;
      }
      assert at == |waiting.nodes| - 1 by {
        DistinctPairs(waiting.nodes);
      }
    }
  }
}
