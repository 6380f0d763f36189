/** The counting semaphore of threads/synch.c as a step machine: each step is one
    region that the kernel runs with interrupts off. */
module Semaphore {

  type Tid = nat

  /** `waiters` are blocked, oldest first.  `woken` have been unblocked by sema_up
      but have not yet run far enough to test the value again. */
  datatype Sema = Sema(value: nat, waiters: seq<Tid>, woken: set<Tid>)

  function New(value: nat): Sema {
    Sema(value, [], {})
  }

  /** sema_up: wakes the oldest waiter, if any, and increments the value. */
  function Up(s: Sema): Sema {
    if s.waiters == [] then s.(value := s.value + 1)
    else Sema(s.value + 1, s.waiters[1..], s.woken + {s.waiters[0]})
  }

  /** One test of the loop in sema_down by thread `t`, on entry or after being
      woken: it either takes a unit or blocks at the end of the queue. */
  function Down(s: Sema, t: Tid): (Sema, bool) {
    if s.value > 0 then (s.(value := s.value - 1, woken := s.woken - {t}), true)
    else (s.(waiters := s.waiters + [t], woken := s.woken - {t}), false)
  }

  /** sema_try_down. */
  function TryDown(s: Sema): (Sema, bool) {
    if s.value > 0 then (s.(value := s.value - 1), true) else (s, false)
  }

  /** Nobody is queued twice, nobody queued counts as woken, and while threads are
      queued every available unit has a woken thread coming for it. */
  ghost predicate Inv(s: Sema) {
    && (forall i, j :: 0 <= i < j < |s.waiters| ==> s.waiters[i] != s.waiters[j])
    && (forall t :: t in s.waiters ==> t !in s.woken)
    && (s.waiters != [] ==> s.value <= |s.woken|)
  }

  lemma UpKeepsInv(s: Sema)
    requires Inv(s)
    ensures Inv(Up(s))
  {
    if s.waiters != [] {
      assert s.waiters[0] !in s.woken;
      assert |s.woken + {s.waiters[0]}| == |s.woken| + 1;
    }
  }

  /** A thread testing the value must not be queued; it may have just been woken. */
  lemma DownKeepsInv(s: Sema, t: Tid)
    requires Inv(s) && t !in s.waiters
    ensures Inv(Down(s, t).0)
  {
    var s' := Down(s, t).0;
    if s.value > 0 {
      assert t in s.woken ==> |s.woken - {t}| == |s.woken| - 1;
      assert t !in s.woken ==> s.woken - {t} == s.woken;
    }
  }

  lemma TryDownKeepsInv(s: Sema)
    requires Inv(s)
    ensures Inv(TryDown(s).0)
  {
  }

  // ----- every interleaving on one semaphore

  datatype Event = Enter(tid: Tid) | Recheck(tid: Tid) | Try | Raise

  /** A semaphore with the number of completed downs and of ups so far. */
  datatype State = State(sema: Sema, downs: nat, ups: nat)

  function Count(ok: bool): nat {
    if ok then 1 else 0
  }

  /** A thread enters sema_down only while it runs, that is, neither queued nor
      woken; only a woken thread tests again. */
  ghost predicate Step(s: State, ev: Event, t: State) {
    match ev
    case Enter(tid) =>
      && tid !in s.sema.waiters && tid !in s.sema.woken
      && var (q, ok) := Down(s.sema, tid); t == State(q, s.downs + Count(ok), s.ups)
    case Recheck(tid) =>
      && tid in s.sema.woken
      && var (q, ok) := Down(s.sema, tid); t == State(q, s.downs + Count(ok), s.ups)
    case Try =>
      var (q, ok) := TryDown(s.sema); t == State(q, s.downs + Count(ok), s.ups)
    case Raise => t == State(Up(s.sema), s.downs, s.ups + 1)
  }

  ghost predicate Run(ss: seq<State>, evs: seq<Event>, value: nat) {
    && |ss| == |evs| + 1 && ss[0] == State(New(value), 0, 0)
    && forall i :: 0 <= i < |evs| ==> Step(ss[i], evs[i], ss[i + 1])
  }

  lemma {:induction false} RunKeeps(ss: seq<State>, evs: seq<Event>, value: nat)
    requires Run(ss, evs, value)
    ensures var s := ss[|evs|]; Inv(s.sema) && s.sema.value + s.downs == value + s.ups
  {
    if evs != [] {
      var n := |evs| - 1;
      assert Run(ss[..n + 1], evs[..n], value);
      RunKeeps(ss[..n + 1], evs[..n], value);
      var s := ss[n].sema;
      assert Step(ss[n], evs[n], ss[n + 1]);
      match evs[n] {
        case Enter(t) => DownKeepsInv(s, t);
        case Recheck(t) => DownKeepsInv(s, t);
        case Try => TryDownKeepsInv(s);
        case Raise => UpKeepsInv(s);
      }
    }
  }

  /** Over every interleaving units are conserved and no wakeup is lost: whenever
      a unit is available while threads are queued, some woken thread is on its way,
      and when it runs it gets the unit. */
  lemma SemaphoreIsSafe(ss: seq<State>, evs: seq<Event>, value: nat)
    requires Run(ss, evs, value)
    ensures var s := ss[|evs|];
            && s.sema.value + s.downs == value + s.ups
            && (s.sema.value > 0 && s.sema.waiters != [] ==>
                  exists t :: t in s.sema.woken && Down(s.sema, t).1)
  {
    RunKeeps(ss, evs, value);
    var s := ss[|evs|].sema;
    if s.value > 0 && s.waiters != [] {
      assert s.woken != {};
      var t :| t in s.woken;
      assert Down(s, t).1;
    }
  }

  /** A test of the value takes a unit exactly if there is one, whichever function makes it. */
  lemma DownIffAvailable(ss: seq<State>, evs: seq<Event>, value: nat, i: nat)
    requires Run(ss, evs, value) && i < |evs| && !evs[i].Raise?
    ensures ss[i + 1].downs == ss[i].downs + Count(ss[i].sema.value > 0)
    ensures ss[i + 1].sema.value == ss[i].sema.value - Count(ss[i].sema.value > 0)
    ensures evs[i].Try? ==> ss[i + 1].sema.waiters == ss[i].sema.waiters && ss[i + 1].sema.woken == ss[i].sema.woken
  {
    assert Step(ss[i], evs[i], ss[i + 1]);
  }

  /** How many of the events at [a, b) are ups. */
  function Raises(evs: seq<Event>, a: nat, b: nat): nat
    requires a <= b <= |evs|
    decreases b - a
  {
    if a == b then 0 else Count(evs[a].Raise?) + Raises(evs, a + 1, b)
  }

  /** A queued thread moves up by one place at each up. */
  lemma MovesUp(s: State, ev: Event, t: State, k: nat)
    requires Step(s, ev, t) && k < |s.sema.waiters|
    ensures !ev.Raise? ==> k < |t.sema.waiters| && t.sema.waiters[k] == s.sema.waiters[k]
    ensures ev.Raise? && k > 0 ==> k - 1 < |t.sema.waiters| && t.sema.waiters[k - 1] == s.sema.waiters[k]
    ensures ev.Raise? && k == 0 ==> t.sema.woken == s.sema.woken + {s.sema.waiters[0]}
  {
  }

  /** Waiters are woken in the order in which they were queued: the one at place `k` by the
      up number `k + 1` from then on. */
  lemma {:induction false} WokenInTurn(ss: seq<State>, evs: seq<Event>, value: nat, a: nat, b: nat, k: nat)
    requires Run(ss, evs, value) && a <= b < |evs| && k < |ss[a].sema.waiters|
    requires Raises(evs, a, b) == k && evs[b].Raise?
    ensures ss[b].sema.waiters != [] && ss[b].sema.waiters[0] == ss[a].sema.waiters[k]
    ensures ss[a].sema.waiters[k] in ss[b + 1].sema.woken
    decreases b - a
  {
    assert Step(ss[a], evs[a], ss[a + 1]);
    MovesUp(ss[a], evs[a], ss[a + 1], k);
    if a < b {
      WokenInTurn(ss, evs, value, a + 1, b, k - Count(evs[a].Raise?));
    }
  }
}
