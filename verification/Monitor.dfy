/** Locks and condition variables (threads/synch.c): any number of threads sharing
    one lock and one condition variable.  A step is one interrupts-off region or
    one assignment to shared data made with interrupts on. */
module Monitor {
  import opened Semaphore

  /** Where a thread stands.  `Got` has passed sema_down but not yet recorded itself
      as holder; `Signalling` is inside cond_signal, with the oldest waiter taken off the
      list but its semaphore not yet raised; `Releasing` has cleared the holder but not yet done sema_up, and
      `waiting` says whether it does so inside cond_wait.  The four `Cond` places are
      those of cond_wait after it has released the lock. */
  datatype Pc =
    | Outside
    | LockBlocked | LockWoken
    | Got | Held | Enqueued | Signalling(waiter: Tid)
    | Releasing(waiting: bool)
    | CondReady | CondBlocked | CondWoken | CondPassed

  /** `own` is the value of the private semaphore of a thread inside cond_wait;
      only that thread ever waits on it, so its queue is just CondBlocked. */
  datatype State = State(pc: map<Tid, Pc>, sema: Sema, holder: set<Tid>, cond: seq<Tid>, own: map<Tid, nat>)

  datatype Event =
    | Acquire(t: Tid)      // sema_down in lock_acquire, first test
    | LockRecheck(t: Tid)      // the same, after having been woken
    | TryAcquire(t: Tid)
    | SetHolder(t: Tid)
    | Release(t: Tid)      // lock_release clears the holder
    | RaiseLock(t: Tid)    // and does sema_up
    | Enqueue(t: Tid)      // cond_wait pushes its semaphore
    | WaitRelease(t: Tid)  // cond_wait calls lock_release
    | CondDown(t: Tid)     // cond_wait does sema_down on its own semaphore
    | CondRecheck(t: Tid)
    | Signal(t: Tid)       // cond_signal takes the oldest waiter off the list
    | RaiseCond(t: Tid)    // and does sema_up on its semaphore

  /** Threads between sema_down and sema_up on the lock's semaphore. */
  predicate Owns(p: Pc) {
    p.Got? || MayTouch(p) || p.Releasing?
  }

  /** Those of them that lock->holder names. */
  predicate MayTouch(p: Pc) {
    p.Held? || p.Enqueued? || p.Signalling?
  }

  /** Threads inside cond_wait that have not yet passed their own semaphore. */
  predicate Waits(p: Pc) {
    p.Enqueued? || p == Releasing(true) || p.CondReady? || p.CondBlocked? || p.CondWoken?
  }

  ghost predicate Step(s: State, ev: Event, s': State) {
    && ev.t in s.pc
    && var t := ev.t;
       match ev
       case Acquire(_) =>
         && (s.pc[t].Outside? || s.pc[t].CondPassed?)
         && var (q, ok) := Down(s.sema, t);
            s' == s.(sema := q, pc := s.pc[t := if ok then Got else LockBlocked])
       case LockRecheck(_) =>
         && s.pc[t].LockWoken?
         && var (q, ok) := Down(s.sema, t);
            s' == s.(sema := q, pc := s.pc[t := if ok then Got else LockBlocked])
       case TryAcquire(_) =>
         && s.pc[t].Outside?
         && var (q, ok) := TryDown(s.sema);
            s' == s.(sema := q, pc := s.pc[t := if ok then Got else Outside])
       case SetHolder(_) =>
         && s.pc[t].Got?
         && s' == s.(holder := {t}, pc := s.pc[t := Held])
       case Release(_) =>
         && s.pc[t].Held? && s.holder == {t}
         && s' == s.(holder := {}, pc := s.pc[t := Releasing(false)])
       case RaiseLock(_) =>
         && s.pc[t].Releasing?
         && s' == LockRaised(s, t)
       case Enqueue(_) =>
         && s.pc[t].Held? && s.holder == {t}
         && s' == s.(cond := s.cond + [t], own := s.own[t := 0], pc := s.pc[t := Enqueued])
       case WaitRelease(_) =>
         && s.pc[t].Enqueued? && s.holder == {t}
         && s' == s.(holder := {}, pc := s.pc[t := Releasing(true)])
       case CondDown(_) =>
         && s.pc[t].CondReady? && t in s.own
         && s' == if s.own[t] > 0 then s.(own := s.own[t := s.own[t] - 1], pc := s.pc[t := CondPassed])
                  else s.(pc := s.pc[t := CondBlocked])
       case CondRecheck(_) =>
         && s.pc[t].CondWoken? && t in s.own
         && s' == if s.own[t] > 0 then s.(own := s.own[t := s.own[t] - 1], pc := s.pc[t := CondPassed])
                  else s.(pc := s.pc[t := CondBlocked])
       case Signal(_) =>
         && s.pc[t].Held? && s.holder == {t}
         && s' == if s.cond == [] then s else s.(cond := s.cond[1..], pc := s.pc[t := Signalling(s.cond[0])])
       case RaiseCond(_) =>
         && s.pc[t].Signalling?
         && s' == Raised(s, t)
  }

  /** sema_up on the lock's semaphore. */
  function LockRaised(s: State, t: Tid): State
    requires t in s.pc && s.pc[t].Releasing?
  {
    var pc := s.pc[t := if s.pc[t].waiting then CondReady else Outside];
    s.(sema := Up(s.sema), pc := if s.sema.waiters == [] then pc else pc[s.sema.waiters[0] := LockWoken])
  }

  /** sema_up on the semaphore of the waiter that `t` has taken off the list. */
  function Raised(s: State, t: Tid): State
    requires t in s.pc && s.pc[t].Signalling?
  {
    var w, pc := s.pc[t].waiter, s.pc[t := Held];
    s.(own := s.own[w := (if w in s.own then s.own[w] else 0) + 1],
       pc := if w in pc && pc[w].CondBlocked? then pc[w := CondWoken] else pc)
  }

  ghost predicate Init(s: State) {
    && s.sema == New(1) && s.holder == {} && s.cond == []
    && forall t :: t in s.pc ==> s.pc[t].Outside?
  }

  // ----- the invariant, in three parts

  ghost function Owners(pc: map<Tid, Pc>): set<Tid> {
    set t | t in pc && Owns(pc[t])
  }

  /** At most one thread is between sema_down and sema_up, and the semaphore's
      value says whether there is one; the holder is that thread while it may
      touch the data the lock protects. */
  ghost predicate LockInv(s: State) {
    && s.sema.value + |Owners(s.pc)| == 1
    && (forall t :: t in s.holder <==> t in s.pc && MayTouch(s.pc[t]))
  }

  /** The semaphore's queue and its woken threads are what the program counters say. */
  ghost predicate QueueInv(s: State) {
    && Inv(s.sema)
    && (forall t :: t in s.sema.waiters <==> t in s.pc && s.pc[t].LockBlocked?)
    && (forall t :: t in s.sema.woken <==> t in s.pc && s.pc[t].LockWoken?)
  }

  /** The waiters that are off the list and not yet raised. */
  ghost function Popped(pc: map<Tid, Pc>): set<Tid> {
    set t | t in pc && pc[t].Signalling? :: pc[t].waiter
  }

  ghost predicate Unraised(s: State, t: Tid) {
    t in s.cond || t in Popped(s.pc)
  }

  /** A thread inside cond_wait is either queued on the condition variable, or taken off the
      queue by a signaller, or holds one unit of its own semaphore; only the first two block. */
  ghost predicate CondInv(s: State) {
    && (forall i, j :: 0 <= i < j < |s.cond| ==> s.cond[i] != s.cond[j])
    && (forall t :: t in s.cond ==> t !in Popped(s.pc))
    && (forall t {:trigger Unraised(s, t)} :: Unraised(s, t) ==> t in s.pc && Waits(s.pc[t]) && !s.pc[t].CondWoken?)
    && (forall t :: t in s.pc && Waits(s.pc[t]) ==> t in s.own && s.own[t] == if Unraised(s, t) then 0 else 1)
    && (forall t :: t in s.pc && s.pc[t].CondBlocked? ==> Unraised(s, t))
  }

  ghost predicate MonitorInv(s: State) {
    LockInv(s) && QueueInv(s) && CondInv(s)
  }

  lemma InitInv(s: State)
    requires Init(s)
    ensures MonitorInv(s)
  {
    assert Owners(s.pc) == {};
  }

  lemma OwnersUpdate(pc: map<Tid, Pc>, t: Tid, p: Pc)
    requires t in pc
    ensures Owners(pc[t := p]) == if Owns(p) then Owners(pc) + {t} else Owners(pc) - {t}
    ensures |Owners(pc[t := p])| == |Owners(pc)| + Count(Owns(p)) - Count(Owns(pc[t]))
  {
    assert Owners(pc[t := p]) == if Owns(p) then Owners(pc) + {t} else Owners(pc) - {t};
  }

  /** Two owners would be one too many. */
  lemma OneOwner(s: State, t: Tid, u: Tid)
    requires LockInv(s) && t in s.pc && u in s.pc && Owns(s.pc[t]) && Owns(s.pc[u])
    ensures t == u && s.sema.value == 0
  {
    assert t in Owners(s.pc) && u in Owners(s.pc);
    assert |Owners(s.pc) - {t}| == |Owners(s.pc)| - 1;
    assert t != u ==> u in Owners(s.pc) - {t};
  }

  // ----- parts of the invariant that a change of one program counter leaves alone

  predicate LockQueued(p: Pc) {
    p.LockBlocked? || p.LockWoken?
  }

  lemma QueueFrame(s: State, t: Tid, p: Pc, s': State)
    requires QueueInv(s) && s'.pc == s.pc[t := p] && s'.sema == s.sema
    requires t in s.pc && !LockQueued(s.pc[t]) && !LockQueued(p)
    ensures QueueInv(s')
  {
  }

  lemma PoppedUpdate(pc: map<Tid, Pc>, t: Tid, p: Pc)
    requires t in pc && !pc[t].Signalling?
    ensures Popped(pc[t := p]) == Popped(pc) + if p.Signalling? then {p.waiter} else {}
  {
    var pc' := pc[t := p];
    forall w ensures w in Popped(pc') <==> w in Popped(pc) || (p.Signalling? && w == p.waiter) {
      if w in Popped(pc) {
        var u :| u in pc && pc[u].Signalling? && pc[u].waiter == w;
        assert u in pc' && pc'[u].Signalling? && pc'[u].waiter == w;
      }
      assert p.Signalling? ==> pc'[t].Signalling? && pc'[t].waiter == p.waiter;
    }
  }

  lemma CondFrame(s: State, t: Tid, p: Pc, s': State)
    requires CondInv(s) && s'.pc == s.pc[t := p] && s'.cond == s.cond && s'.own == s.own
    requires t in s.pc && Waits(s.pc[t]) == Waits(p) && !p.CondBlocked? && !p.CondWoken?
    requires !s.pc[t].Signalling? && !p.Signalling?
    ensures CondInv(s')
  {
    PoppedUpdate(s.pc, t, p);
    assert forall u :: Unraised(s', u) <==> Unraised(s, u);
  }

  lemma LockFrame(s: State, t: Tid, p: Pc, s': State)
    requires LockInv(s) && s'.pc == s.pc[t := p] && s'.sema.value == s.sema.value && s'.holder == s.holder
    requires t in s.pc && !Owns(s.pc[t]) && !Owns(p)
    ensures LockInv(s')
  {
    OwnersUpdate(s.pc, t, p);
  }

  lemma OwnerKeepsLock(s: State, t: Tid, p: Pc, s': State)
    requires LockInv(s) && s'.pc == s.pc[t := p] && s'.sema.value == s.sema.value && s'.holder == s.holder
    requires t in s.pc && Owns(s.pc[t]) && Owns(p) && MayTouch(s.pc[t]) == MayTouch(p)
    ensures LockInv(s')
  {
    OwnersUpdate(s.pc, t, p);
  }

  // ----- each step keeps it

  lemma TakeKeepsLock(s: State, t: Tid, p: Pc, s': State)
    requires LockInv(s) && t in s.pc && !Owns(s.pc[t]) && (p.Got? || !Owns(p))
    requires s'.pc == s.pc[t := p] && s'.holder == s.holder && s'.sema.value == s.sema.value - Count(p.Got?)
    ensures LockInv(s')
  {
    OwnersUpdate(s.pc, t, p);
  }

  lemma DownKeepsQueue(s: State, t: Tid, s': State)
    requires QueueInv(s) && t in s.pc && !s.pc[t].LockBlocked? && s'.sema == Down(s.sema, t).0
    requires s'.pc == s.pc[t := if Down(s.sema, t).1 then Got else LockBlocked]
    ensures QueueInv(s')
  {
    DownKeepsInv(s.sema, t);
  }

  lemma DownKeeps(s: State, t: Tid, s': State)
    requires MonitorInv(s) && (Step(s, Acquire(t), s') || Step(s, LockRecheck(t), s'))
    ensures MonitorInv(s')
  {
    hide CondInv, LockInv, QueueInv;
    CondFrame(s, t, s'.pc[t], s');
    TakeKeepsLock(s, t, s'.pc[t], s');
    DownKeepsQueue(s, t, s');
  }

  lemma TryKeeps(s: State, t: Tid, s': State)
    requires MonitorInv(s) && Step(s, TryAcquire(t), s')
    ensures MonitorInv(s')
  {
    hide CondInv, LockInv;
    CondFrame(s, t, s'.pc[t], s');
    TakeKeepsLock(s, t, s'.pc[t], s');
    TryDownKeepsInv(s.sema);
  }

  lemma SetHolderKeeps(s: State, t: Tid, s': State)
    requires MonitorInv(s) && Step(s, SetHolder(t), s')
    ensures MonitorInv(s')
  {
    hide CondInv, QueueInv;
    CondFrame(s, t, Held, s');
    QueueFrame(s, t, Held, s');
    OwnersUpdate(s.pc, t, Held);
    forall u | u in s.pc && MayTouch(s.pc[u]) ensures u == t {
      OneOwner(s, t, u);
    }
  }

  lemma ReleaseKeeps(s: State, t: Tid, s': State)
    requires MonitorInv(s) && (Step(s, Release(t), s') || Step(s, WaitRelease(t), s'))
    ensures MonitorInv(s')
  {
    hide CondInv, LockInv, QueueInv;
    assert QueueInv(s') by { QueueFrame(s, t, s'.pc[t], s'); }
    assert CondInv(s') by { CondFrame(s, t, s'.pc[t], s'); }
    assert LockInv(s') by { ReleaseKeepsLock(s, t, s'.pc[t], s'); }
  }

  lemma ReleaseKeepsLock(s: State, t: Tid, p: Pc, s': State)
    requires LockInv(s) && t in s.pc && Owns(s.pc[t]) && s.holder == {t} && p.Releasing?
    requires s'.pc == s.pc[t := p] && s'.sema == s.sema && s'.holder == {}
    ensures LockInv(s')
  {
    OwnersUpdate(s.pc, t, p);
    assert forall u :: u in s.holder ==> u == t;
  }

  lemma RaiseKeeps(s: State, t: Tid, s': State)
    requires MonitorInv(s) && t in s.pc && s.pc[t].Releasing? && s' == LockRaised(s, t)
    ensures MonitorInv(s')
  {
    hide CondInv, LockInv;
    var p := if s.pc[t].waiting then CondReady else Outside;
    var mid := s.(pc := s.pc[t := p], sema := s.sema.(value := s.sema.value + 1));
    assert LockInv(mid) && CondInv(mid) by { ReleaseKeepsRest(s, t, p, mid); }
    assert QueueInv(s') by { RaiseKeepsQueue(s, t, s'); }
    if s.sema.waiters != [] {
      WakeKeepsRest(s, mid, s.sema.waiters[0], s');
    }
  }

  lemma ReleaseKeepsRest(s: State, t: Tid, p: Pc, s': State)
    requires LockInv(s) && CondInv(s) && t in s.pc && s.pc[t].Releasing?
    requires p == (if s.pc[t].waiting then CondReady else Outside) && s'.pc == s.pc[t := p]
    requires s'.sema.value == s.sema.value + 1 && s'.holder == s.holder && s'.cond == s.cond && s'.own == s.own
    ensures LockInv(s') && CondInv(s')
  {
    hide CondInv;
    assert LockInv(s') by { OwnersUpdate(s.pc, t, p); }
    assert CondInv(s') by { CondFrame(s, t, p, s'); }
  }

  lemma WakeKeepsRest(s: State, mid: State, w: Tid, s': State)
    requires QueueInv(s) && LockInv(mid) && CondInv(mid) && w in s.sema.waiters
    requires w in mid.pc && mid.pc[w] == s.pc[w] && s'.pc == mid.pc[w := LockWoken]
    requires s'.sema.value == mid.sema.value && s'.holder == mid.holder && s'.cond == mid.cond && s'.own == mid.own
    ensures LockInv(s') && CondInv(s')
  {
    hide CondInv, LockInv;
    assert mid.pc[w].LockBlocked?;
    assert LockInv(s') by { LockFrame(mid, w, LockWoken, s'); }
    assert CondInv(s') by { CondFrame(mid, w, LockWoken, s'); }
  }

  lemma RaiseKeepsQueue(s: State, t: Tid, s': State)
    requires QueueInv(s) && t in s.pc && s.pc[t].Releasing? && s' == LockRaised(s, t)
    ensures QueueInv(s')
  {
    UpKeepsInv(s.sema);
    if s.sema.waiters != [] {
      var w := s.sema.waiters[0];
      assert w in s.sema.waiters;
      assert forall u :: u in s.sema.waiters <==> u == w || u in s.sema.waiters[1..];
      assert w !in s.sema.waiters[1..];
    }
  }

  lemma EnqueueKeeps(s: State, t: Tid, s': State)
    requires MonitorInv(s) && Step(s, Enqueue(t), s')
    ensures MonitorInv(s')
  {
    hide CondInv, LockInv, QueueInv;
    assert QueueInv(s') by { QueueFrame(s, t, Enqueued, s'); }
    assert LockInv(s') by { OwnerKeepsLock(s, t, Enqueued, s'); }
    assert CondInv(s') by { EnqueueKeepsCond(s, t, s'); }
  }

  lemma EnqueueKeepsCond(s: State, t: Tid, s': State)
    requires CondInv(s) && t in s.pc && s.pc[t].Held?
    requires s'.pc == s.pc[t := Enqueued] && s'.cond == s.cond + [t] && s'.own == s.own[t := 0]
    ensures CondInv(s')
  {
    PoppedUpdate(s.pc, t, Enqueued);
    assert !Unraised(s, t);
    assert forall u :: Unraised(s', u) <==> Unraised(s, u) || u == t;
  }

  /** The two tests a thread makes on its own semaphore inside cond_wait. */
  lemma CondTestKeeps(s: State, t: Tid, s': State)
    requires MonitorInv(s) && (Step(s, CondDown(t), s') || Step(s, CondRecheck(t), s'))
    ensures MonitorInv(s')
  {
    hide CondInv, LockInv, QueueInv;
    assert QueueInv(s') by { QueueFrame(s, t, s'.pc[t], s'); }
    assert LockInv(s') by { LockFrame(s, t, s'.pc[t], s'); }
    assert CondInv(s') by { TestKeepsCond(s, t, s'.pc[t], s'); }
  }

  lemma TestKeepsCond(s: State, t: Tid, p: Pc, s': State)
    requires CondInv(s) && t in s.pc && (s.pc[t].CondReady? || s.pc[t].CondWoken?) && t in s.own
    requires s'.pc == s.pc[t := p] && s'.cond == s.cond
    requires s.own[t] > 0 ==> p == CondPassed && s'.own == s.own[t := s.own[t] - 1]
    requires s.own[t] == 0 ==> p == CondBlocked && s'.own == s.own
    ensures CondInv(s')
  {
    PoppedUpdate(s.pc, t, p);
    assert Unraised(s, t) <==> s.own[t] == 0;
    assert forall u :: Unraised(s', u) <==> Unraised(s, u);
  }

  lemma SignalKeeps(s: State, t: Tid, s': State)
    requires MonitorInv(s) && Step(s, Signal(t), s')
    ensures MonitorInv(s')
  {
    hide CondInv, LockInv, QueueInv;
    if s.cond != [] {
      var p := Signalling(s.cond[0]);
      assert QueueInv(s') by { QueueFrame(s, t, p, s'); }
      assert LockInv(s') by { OwnerKeepsLock(s, t, p, s'); }
      assert CondInv(s') by { PopKeepsCond(s, t, s'); }
    }
  }

  lemma PopKeepsCond(s: State, t: Tid, s': State)
    requires CondInv(s) && t in s.pc && s.pc[t].Held? && s.cond != []
    requires s'.pc == s.pc[t := Signalling(s.cond[0])] && s'.cond == s.cond[1..] && s'.own == s.own
    ensures CondInv(s') && forall u :: Unraised(s', u) <==> Unraised(s, u)
  {
    var w := s.cond[0];
    PoppedUpdate(s.pc, t, Signalling(w));
    assert forall u :: u in s.cond <==> u == w || u in s'.cond;
    forall u ensures Unraised(s', u) <==> Unraised(s, u) {
    }
    assert !Unraised(s, t);
  }

  /** The only signaller is the owner of the lock. */
  lemma PoppedIsOne(s: State, t: Tid)
    requires LockInv(s) && t in s.pc && s.pc[t].Signalling?
    ensures Popped(s.pc) == {s.pc[t].waiter} && Popped(s.pc[t := Held]) == {}
  {
    forall u | u in s.pc && s.pc[u].Signalling? ensures u == t {
      OneOwner(s, u, t);
    }
  }

  lemma RaiseCondKeeps(s: State, t: Tid, s': State)
    requires MonitorInv(s) && Step(s, RaiseCond(t), s')
    ensures MonitorInv(s')
  {
    hide LockInv, QueueInv;
    var w := s.pc[t].waiter;
    var mid := s.(pc := s.pc[t := Held]);
    PoppedIsOne(s, t);
    assert Unraised(s, w);
    if s.pc[w].CondBlocked? {
      QueueFrame(s, t, Held, mid);
      OwnerKeepsLock(s, t, Held, mid);
      QueueFrame(mid, w, CondWoken, s');
      LockFrame(mid, w, CondWoken, s');
    } else {
      QueueFrame(s, t, Held, s');
      OwnerKeepsLock(s, t, Held, s');
    }
    assert CondInv(s') by { RaiseKeepsCond(s, t, s'); }
  }

  lemma RaiseKeepsCond(s: State, t: Tid, s': State)
    requires LockInv(s) && CondInv(s) && t in s.pc && s.pc[t].Signalling? && s' == Raised(s, t)
    ensures CondInv(s') && forall u :: Unraised(s', u) <==> Unraised(s, u) && u != s.pc[t].waiter
  {
    var w, pc := s.pc[t].waiter, s.pc[t := Held];
    PoppedIsOne(s, t);
    assert Unraised(s, w) && w != t && w in pc;
    PoppedUpdate(pc, w, CondWoken);
    assert Popped(s'.pc) == {};
    assert forall u :: Unraised(s', u) <==> Unraised(s, u) && u != w;
  }

  lemma StepKeepsInv(s: State, ev: Event, s': State)
    requires MonitorInv(s) && Step(s, ev, s')
    ensures MonitorInv(s')
  {
    match ev {
      case Acquire(t) => DownKeeps(s, t, s');
      case LockRecheck(t) => DownKeeps(s, t, s');
      case TryAcquire(t) => TryKeeps(s, t, s');
      case SetHolder(t) => SetHolderKeeps(s, t, s');
      case Release(t) => ReleaseKeeps(s, t, s');
      case RaiseLock(t) => RaiseKeeps(s, t, s');
      case Enqueue(t) => EnqueueKeeps(s, t, s');
      case WaitRelease(t) => ReleaseKeeps(s, t, s');
      case CondDown(t) => CondTestKeeps(s, t, s');
      case CondRecheck(t) => CondTestKeeps(s, t, s');
      case Signal(t) => SignalKeeps(s, t, s');
      case RaiseCond(t) => RaiseCondKeeps(s, t, s');
    }
  }

  ghost predicate Run(ss: seq<State>, evs: seq<Event>) {
    && |ss| == |evs| + 1 && Init(ss[0])
    && forall i :: 0 <= i < |evs| ==> StepAt(ss, evs, i)
  }

  ghost predicate StepAt(ss: seq<State>, evs: seq<Event>, i: nat)
    requires i < |evs| < |ss|
  {
    Step(ss[i], evs[i], ss[i + 1])
  }

  lemma {:induction false} RunKeepsInv(ss: seq<State>, evs: seq<Event>, i: nat)
    requires Run(ss, evs) && i <= |evs|
    ensures MonitorInv(ss[i])
  {
    if i == 0 {
      InitInv(ss[0]);
    } else {
      RunKeepsInv(ss, evs, i - 1);
      assert StepAt(ss, evs, i - 1);
      StepKeepsInv(ss[i - 1], evs[i - 1], ss[i]);
    }
  }

  // ----- what it means

  /** In every reachable state at most one thread owns the lock, lock->holder names
      a thread exactly while that thread may pass the held-by-me assertions, and a
      free lock with blocked threads always has a woken thread that will get it. */
  lemma LockIsExclusive(ss: seq<State>, evs: seq<Event>, i: nat)
    requires Run(ss, evs) && i <= |evs|
    ensures var s := ss[i];
            && (forall t, u :: t in s.pc && u in s.pc && Owns(s.pc[t]) && Owns(s.pc[u]) ==> t == u)
            && (forall t :: s.holder == {t} <==> t in s.pc && MayTouch(s.pc[t]))
            && (s.sema.value > 0 && s.sema.waiters != [] ==> exists t :: t in s.sema.woken && Down(s.sema, t).1)
  {
    RunKeepsInv(ss, evs, i);
    var s := ss[i];
    forall t, u | t in s.pc && u in s.pc && Owns(s.pc[t]) && Owns(s.pc[u]) ensures t == u {
      OneOwner(s, t, u);
    }
    forall t | t in s.pc && MayTouch(s.pc[t]) ensures s.holder == {t} {
      assert t in s.holder;
      assert forall u :: u in s.holder ==> u == t;
    }
    forall t | s.holder == {t} ensures t in s.pc && MayTouch(s.pc[t]) {
      assert t in s.holder;
    }
    if s.sema.value > 0 && s.sema.waiters != [] {
      assert s.sema.woken != {};
      var t :| t in s.sema.woken;
      assert Down(s.sema, t).1;
    }
  }

  /** lock_try_acquire takes the lock exactly if nobody owns it. */
  lemma TryAcquireIffFree(ss: seq<State>, evs: seq<Event>, i: nat, t: Tid)
    requires Run(ss, evs) && i < |evs| && evs[i] == TryAcquire(t)
    ensures t in ss[i].pc && t in ss[i + 1].pc
    ensures ss[i + 1].pc[t].Got? <==> forall u :: u in ss[i].pc ==> !Owns(ss[i].pc[u])
  {
    var s := ss[i];
    RunKeepsInv(ss, evs, i);
    assert StepAt(ss, evs, i);
    if forall u :: u in s.pc ==> !Owns(s.pc[u]) {
      assert Owners(s.pc) == {};
    } else {
      var u :| u in s.pc && Owns(s.pc[u]);
      OneOwner(s, u, u);
    }
  }

  /** lock_release wakes the thread that has waited longest, and it alone. */
  lemma ReleaseWakesOldest(ss: seq<State>, evs: seq<Event>, i: nat, t: Tid)
    requires Run(ss, evs) && i < |evs| && evs[i] == RaiseLock(t)
    ensures var q := ss[i].sema.waiters;
            && (q == [] ==> ss[i + 1].sema.waiters == [] && ss[i + 1].sema.woken == ss[i].sema.woken)
            && (q != [] ==> ss[i + 1].sema.waiters == q[1..] && ss[i + 1].sema.woken == ss[i].sema.woken + {q[0]}
                            && q[0] in ss[i + 1].pc && ss[i + 1].pc[q[0]].LockWoken?)
  {
    assert StepAt(ss, evs, i);
  }

  /** A thread that finds the lock taken goes to the end of its queue. */
  lemma AcquireQueues(ss: seq<State>, evs: seq<Event>, i: nat, t: Tid)
    requires Run(ss, evs) && i < |evs| && (evs[i] == Acquire(t) || evs[i] == LockRecheck(t))
    ensures t in ss[i + 1].pc
    ensures if ss[i].sema.value > 0 then ss[i + 1].pc[t].Got? && ss[i + 1].sema.waiters == ss[i].sema.waiters
            else ss[i + 1].pc[t].LockBlocked? && ss[i + 1].sema.waiters == ss[i].sema.waiters + [t]
  {
    assert StepAt(ss, evs, i);
  }

  /** A thread inside cond_wait that has been signalled but has not yet woken up. */
  ghost predicate Pending(s: State, t: Tid) {
    t in s.pc && Waits(s.pc[t]) && !Unraised(s, t)
  }

  lemma StepKeepsPending(s: State, ev: Event, s': State, t: Tid)
    requires MonitorInv(s) && MonitorInv(s') && Step(s, ev, s') && Pending(s, t)
    ensures t in s'.pc && (Pending(s', t) || s'.pc[t] == CondPassed)
    ensures ev == CondDown(t) || ev == CondRecheck(t) ==> s'.pc[t] == CondPassed
  {
    hide LockInv, QueueInv;
    if ev.Signal? && s.cond != [] {
      PopKeepsCond(s, ev.t, s');
    } else if ev.RaiseCond? {
      RaiseKeepsCond(s, ev.t, s');
    } else {
      PoppedStays(s, ev, s');
      OtherKeepsPending(s, ev, s', t);
    }
  }

  lemma OtherKeepsPending(s: State, ev: Event, s': State, t: Tid)
    requires QueueInv(s) && CondInv(s) && Step(s, ev, s') && Pending(s, t)
    requires !ev.RaiseCond? && !(ev.Signal? && s.cond != []) && Popped(s'.pc) == Popped(s.pc)
    ensures t in s'.pc && (Pending(s', t) || s'.pc[t] == CondPassed)
    ensures ev == CondDown(t) || ev == CondRecheck(t) ==> s'.pc[t] == CondPassed
  {
    hide Popped;
    if ev.t == t {
      assert s.own[t] == 1;
      assert !ev.Enqueue?;
      assert s'.cond == s.cond;
    } else {
      assert s'.cond == s.cond || s'.cond == s.cond + [ev.t];
      assert s.sema.waiters != [] ==> s.sema.waiters[0] in s.sema.waiters;
    }
  }

  /** Only cond_signal touches the waiters that are off the list and not yet raised. */
  lemma PoppedStays(s: State, ev: Event, s': State)
    requires MonitorInv(s) && Step(s, ev, s') && !ev.RaiseCond? && !(ev.Signal? && s.cond != [])
    ensures Popped(s'.pc) == Popped(s.pc)
  {
    hide CondInv, LockInv, Popped;
    if ev.RaiseLock? {
      RaiseKeepsPopped(s, ev.t, s');
    } else if !ev.Signal? {
      assert s'.pc == s.pc[ev.t := s'.pc[ev.t]];
      PoppedUpdate(s.pc, ev.t, s'.pc[ev.t]);
    }
  }

  lemma RaiseKeepsPopped(s: State, t: Tid, s': State)
    requires QueueInv(s) && t in s.pc && s.pc[t].Releasing? && s' == LockRaised(s, t)
    ensures Popped(s'.pc) == Popped(s.pc)
  {
    hide Popped;
    var pc := s.pc[t := if s.pc[t].waiting then CondReady else Outside];
    PoppedUpdate(s.pc, t, pc[t]);
    if s.sema.waiters != [] {
      assert s.sema.waiters[0] in s.sema.waiters;
      PoppedUpdate(pc, s.sema.waiters[0], LockWoken);
    }
  }

  /** A pending thread never blocks on its semaphore again: it stays pending until
      the step by which it passes. */
  lemma PendingIsKept(ss: seq<State>, evs: seq<Event>, i: nat, t: Tid)
    requires Run(ss, evs) && i < |evs| && Pending(ss[i], t)
    ensures t in ss[i + 1].pc && (Pending(ss[i + 1], t) || ss[i + 1].pc[t] == CondPassed)
    ensures evs[i] == CondDown(t) || evs[i] == CondRecheck(t) ==> ss[i + 1].pc[t] == CondPassed
  {
    RunKeepsInv(ss, evs, i);
    RunKeepsInv(ss, evs, i + 1);
    assert StepAt(ss, evs, i);
    StepKeepsPending(ss[i], evs[i], ss[i + 1], t);
  }

  /** The sema_up of a signaller makes its waiter pending, wherever in cond_wait that one
      stands, and nobody else. */
  lemma RaiseReaches(ss: seq<State>, evs: seq<Event>, i: nat)
    requires Run(ss, evs) && i < |evs| && evs[i].RaiseCond?
    ensures var s, s', t := ss[i], ss[i + 1], evs[i].t;
            && t in s.pc && s.pc[t].Signalling? && var w := s.pc[t].waiter;
            && !Pending(s, w) && Pending(s', w) && forall u :: u != w ==> (Pending(s, u) <==> Pending(s', u))
  {
    RunKeepsInv(ss, evs, i);
    var s, t := ss[i], evs[i].t;
    assert StepAt(ss, evs, i);
    PoppedIsOne(s, t);
    RaiseKeepsCond(s, t, ss[i + 1]);
    assert Unraised(s, s.pc[t].waiter);
  }

  ghost predicate Signals(s: State, t: Tid, w: Tid) {
    t in s.pc && s.pc[t] == Signalling(w)
  }

  /** A signaller keeps its waiter until its own next step. */
  lemma SignallerStays(s: State, ev: Event, s': State, t: Tid, w: Tid)
    requires MonitorInv(s) && Step(s, ev, s') && Signals(s, t, w) && ev != RaiseCond(t)
    ensures Signals(s', t, w)
  {
    assert ev.RaiseCond? ==> ev.t == t by {
      if ev.RaiseCond? {
        OneOwner(s, ev.t, t);
      }
    }
    assert s.sema.waiters != [] ==> s.sema.waiters[0] in s.sema.waiters;
  }

  lemma {:induction false} SignallerWaits(ss: seq<State>, evs: seq<Event>, i: nat, j: nat, t: Tid, w: Tid)
    requires Run(ss, evs) && i <= j <= |evs| && Signals(ss[i], t, w)
    requires forall k :: i <= k < j ==> evs[k] != RaiseCond(t)
    ensures Signals(ss[j], t, w)
  {
    if i < j {
      SignallerWaits(ss, evs, i, j - 1, t, w);
      RunKeepsInv(ss, evs, j - 1);
      assert StepAt(ss, evs, j - 1);
      SignallerStays(ss[j - 1], evs[j - 1], ss[j], t, w);
    }
  }

  /** A signal given at `i` while threads are queued takes the one queued longest; when the
      signaller does its sema_up, at `j`, that thread becomes pending, whatever happened in
      between. */
  lemma SignalReachesOldest(ss: seq<State>, evs: seq<Event>, i: nat, j: nat, t: Tid)
    requires Run(ss, evs) && i < j < |evs| && evs[i] == Signal(t) && ss[i].cond != [] && evs[j] == RaiseCond(t)
    requires forall k :: i < k < j ==> evs[k] != RaiseCond(t)
    ensures var w := ss[i].cond[0]; Signals(ss[i + 1], t, w) && Signals(ss[j], t, w) && Pending(ss[j + 1], w)
    ensures ss[i + 1].cond == ss[i].cond[1..]
  {
    assert StepAt(ss, evs, i);
    SignallerWaits(ss, evs, i + 1, j, t, ss[i].cond[0]);
    RaiseReaches(ss, evs, j);
  }

  // ----- cond_broadcast: the holder signals until the queue is empty

  function SignalCount(evs: seq<Event>, a: nat, b: nat): (n: nat)
    requires a <= b <= |evs|
    ensures n <= b - a
  {
    if a == b then 0 else SignalCount(evs, a, b - 1) + if evs[b - 1].Signal? then 1 else 0
  }

  /** A queued thread keeps its place until a signal moves it up. */
  lemma {:induction false} PlaceInCond(ss: seq<State>, evs: seq<Event>, a: nat, b: nat, k: nat)
    requires Run(ss, evs) && a <= b <= |evs| && k < |ss[a].cond| && SignalCount(evs, a, b) <= k
    ensures var j := k - SignalCount(evs, a, b); j < |ss[b].cond| && ss[b].cond[j] == ss[a].cond[k]
    decreases b
  {
    if a < b {
      PlaceInCond(ss, evs, a, b - 1, k);
      assert StepAt(ss, evs, b - 1);
    }
  }

  /** Threads are signalled in the order in which they called cond_wait: the one at place `k` of
      the queue by signal number `k + 1` from then on. */
  lemma SignalledInTurn(ss: seq<State>, evs: seq<Event>, a: nat, b: nat, k: nat, t: Tid)
    requires Run(ss, evs) && a <= b < |evs| && k < |ss[a].cond| && SignalCount(evs, a, b) == k && evs[b] == Signal(t)
    ensures Signals(ss[b + 1], t, ss[a].cond[k])
  {
    PlaceInCond(ss, evs, a, b, k);
    assert StepAt(ss, evs, b);
  }

  lemma WaitQueues(ss: seq<State>, evs: seq<Event>, i: nat, t: Tid)
    requires Run(ss, evs) && i < |evs| && evs[i] == Enqueue(t)
    ensures ss[i + 1].cond == ss[i].cond + [t]
  {
    assert StepAt(ss, evs, i);
  }

  function ReleaseCount(evs: seq<Event>, a: nat, b: nat): (n: nat)
    requires a <= b <= |evs|
    ensures n <= b - a
  {
    if a == b then 0 else ReleaseCount(evs, a, b - 1) + if evs[b - 1].RaiseLock? then 1 else 0
  }

  lemma {:induction false} PlaceInLock(ss: seq<State>, evs: seq<Event>, a: nat, b: nat, k: nat)
    requires Run(ss, evs) && a <= b <= |evs| && k < |ss[a].sema.waiters| && ReleaseCount(evs, a, b) <= k
    ensures var j := k - ReleaseCount(evs, a, b);
            j < |ss[b].sema.waiters| && ss[b].sema.waiters[j] == ss[a].sema.waiters[k]
    decreases b
  {
    if a < b {
      PlaceInLock(ss, evs, a, b - 1, k);
      assert StepAt(ss, evs, b - 1);
    }
  }

  /** So are the threads that wait for the lock woken in the order in which they came. */
  lemma LockWokenInTurn(ss: seq<State>, evs: seq<Event>, a: nat, b: nat, k: nat, t: Tid)
    requires Run(ss, evs) && a <= b < |evs| && k < |ss[a].sema.waiters|
    requires ReleaseCount(evs, a, b) == k && evs[b] == RaiseLock(t)
    ensures var w := ss[a].sema.waiters[k]; w in ss[b + 1].pc && ss[b + 1].pc[w].LockWoken?
  {
    PlaceInLock(ss, evs, a, b, k);
    ReleaseWakesOldest(ss, evs, b, t);
  }

  predicate InSignals(p: Pc) {
    p.Held? || p.Signalling?
  }

  /** From `a` to `b` the thread `t` holds the lock and does nothing but signal. */
  ghost predicate Holds(ss: seq<State>, a: nat, b: nat, t: Tid) {
    b < |ss| && forall i :: a <= i <= b ==> t in ss[i].pc && InSignals(ss[i].pc[t])
  }

  /** While a thread holds the lock nobody joins the queue and only it can signal. */
  lemma StepWhileHeld(s: State, ev: Event, s': State, t: Tid)
    requires MonitorInv(s) && Step(s, ev, s') && t in s.pc && InSignals(s.pc[t]) && t in s'.pc && InSignals(s'.pc[t])
    ensures s'.cond == if ev.Signal? && s.cond != [] then s.cond[1..] else s.cond
    ensures ev.Signal? ==> ev.t == t
  {
    if ev.Enqueue? || ev.Signal? {
      OneOwner(s, ev.t, t);
    }
  }

  lemma QueueStep(ss: seq<State>, evs: seq<Event>, i: nat, t: Tid)
    requires Run(ss, evs) && i < |evs| && Holds(ss, i, i + 1, t)
    ensures ss[i + 1].cond == if evs[i].Signal? && ss[i].cond != [] then ss[i].cond[1..] else ss[i].cond
    ensures evs[i].Signal? ==> evs[i].t == t
  {
    RunKeepsInv(ss, evs, i);
    assert StepAt(ss, evs, i);
    StepWhileHeld(ss[i], evs[i], ss[i + 1], t);
  }

  lemma {:induction false} QueueWhileHeld(ss: seq<State>, evs: seq<Event>, a: nat, b: nat, t: Tid)
    requires Run(ss, evs) && a <= b <= |evs| && Holds(ss, a, b, t)
    ensures var k := SignalCount(evs, a, b); ss[b].cond == if k <= |ss[a].cond| then ss[a].cond[k..] else []
  {
    hide Run;
    if a < b {
      QueueStep(ss, evs, b - 1, t);
      QueueWhileHeld(ss, evs, a, b - 1, t);
    }
  }

  lemma {:induction false} NthSignal(evs: seq<Event>, a: nat, b: nat, j: nat) returns (i: nat)
    requires a <= b <= |evs| && j < SignalCount(evs, a, b)
    ensures a <= i < b && evs[i].Signal? && SignalCount(evs, a, i) == j
  {
    if evs[b - 1].Signal? && SignalCount(evs, a, b - 1) == j {
      i := b - 1;
    } else {
      i := NthSignal(evs, a, b - 1, j);
    }
  }

  /** A signaller that is done by `b` has raised its waiter before. */
  lemma {:induction false} RaisedBefore(ss: seq<State>, evs: seq<Event>, i: nat, b: nat, t: Tid, w: Tid)
      returns (j: nat)
    requires Run(ss, evs) && i <= b <= |evs| && Signals(ss[i], t, w) && t in ss[b].pc && ss[b].pc[t].Held?
    ensures i < j <= b && Pending(ss[j], w)
    decreases b - i
  {
    RunKeepsInv(ss, evs, i);
    if evs[i] == RaiseCond(t) {
      RaiseReaches(ss, evs, i);
      j := i + 1;
    } else {
      assert StepAt(ss, evs, i);
      SignallerStays(ss[i], evs[i], ss[i + 1], t, w);
      j := RaisedBefore(ss, evs, i + 1, b, t, w);
    }
  }

  /** As many signals as there were waiters, given under the lock, leave the queue empty and
      have made every one of those waiters pending. */
  lemma BroadcastReachesAll(ss: seq<State>, evs: seq<Event>, a: nat, b: nat, t: Tid)
    requires Run(ss, evs) && a <= b <= |evs| && Holds(ss, a, b, t) && ss[b].pc[t].Held?
    requires SignalCount(evs, a, b) >= |ss[a].cond|
    ensures ss[b].cond == []
    ensures forall w :: w in ss[a].cond ==> exists j :: a < j <= b && Pending(ss[j], w)
  {
    QueueWhileHeld(ss, evs, a, b, t);
    forall w | w in ss[a].cond ensures exists j :: a < j <= b && Pending(ss[j], w) {
      var k :| 0 <= k < |ss[a].cond| && ss[a].cond[k] == w;
      var i := NthSignal(evs, a, b, k);
      QueueWhileHeld(ss, evs, a, i, t);
      QueueStep(ss, evs, i, t);
      assert StepAt(ss, evs, i) && Signals(ss[i + 1], t, w);
      var j := RaisedBefore(ss, evs, i + 1, b, t, w);
    }
  }
}
