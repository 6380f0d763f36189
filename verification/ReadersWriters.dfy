/** The readers/writers protocol around inode I/O (filesys/inode.c): any number of
    threads in inode_read_at and inode_write_at on one inode, synchronizing through
    its semaphores r_sema and w_sema and the counter n_readers. */
module ReadersWriters {
  import opened Semaphore

  /** Where a thread stands.  The first three groups are the entry protocol of
      inode_read_at, the read loop, and its exit protocol; the last is inode_write_at.
      A thread at a `Wait` place is queued on, or has just been woken from, a semaphore. */
  datatype Pc =
    | Idle
    | EnterWait | EnterTest | EnterWaitW | EnterCount | EnterDone
    | Reading
    | ExitWait | ExitCount | ExitTest | ExitUpW | ExitDone
    | WriteWait | Writing

  datatype State = State(pc: map<Tid, Pc>, r: Sema, w: Sema, readers: int)

  datatype Event =
    | BeginRead(t: Tid)   // sema_down (&inode->r_sema), first test
    | EnterAgain(t: Tid)  // the same, after having been woken
    | TestReaders(t: Tid) // n_readers == 0? then sema_down (&inode->w_sema)
    | EnterWAgain(t: Tid)
    | CountIn(t: Tid)     // n_readers++
    | EnterUp(t: Tid)     // sema_up (&inode->r_sema)
    | EndRead(t: Tid)     // sema_down (&inode->r_sema) after the loop
    | ExitAgain(t: Tid)
    | CountOut(t: Tid)    // n_readers--
    | TestLast(t: Tid)    // n_readers == 0?
    | ExitW(t: Tid)       // sema_up (&inode->w_sema)
    | ExitUp(t: Tid)      // sema_up (&inode->r_sema)
    | BeginWrite(t: Tid)
    | WriteAgain(t: Tid)
    | EndWrite(t: Tid)

  /** Thread `t` tests semaphore r (or w) and goes on to `yes` or stays at `no`. */
  ghost predicate TestR(s: State, t: Tid, yes: Pc, no: Pc, s': State) {
    var (q, ok) := Down(s.r, t);
    s' == s.(r := q, pc := s.pc[t := if ok then yes else no])
  }

  ghost predicate TestW(s: State, t: Tid, yes: Pc, no: Pc, s': State) {
    var (q, ok) := Down(s.w, t);
    s' == s.(w := q, pc := s.pc[t := if ok then yes else no])
  }

  ghost predicate Step(s: State, ev: Event, s': State) {
    var t := ev.t;
    && t in s.pc
    && match ev
       case BeginRead(_) => s.pc[t].Idle? && TestR(s, t, EnterTest, EnterWait, s')
       case EnterAgain(_) => s.pc[t].EnterWait? && t in s.r.woken && TestR(s, t, EnterTest, EnterWait, s')
       case TestReaders(_) =>
         && s.pc[t].EnterTest?
         && if s.readers == 0 then TestW(s, t, EnterCount, EnterWaitW, s')
            else s' == s.(pc := s.pc[t := EnterCount])
       case EnterWAgain(_) => s.pc[t].EnterWaitW? && t in s.w.woken && TestW(s, t, EnterCount, EnterWaitW, s')
       case CountIn(_) => s.pc[t].EnterCount? && s' == s.(readers := s.readers + 1, pc := s.pc[t := EnterDone])
       case EnterUp(_) => s.pc[t].EnterDone? && s' == s.(r := Up(s.r), pc := s.pc[t := Reading])
       case EndRead(_) => s.pc[t].Reading? && TestR(s, t, ExitCount, ExitWait, s')
       case ExitAgain(_) => s.pc[t].ExitWait? && t in s.r.woken && TestR(s, t, ExitCount, ExitWait, s')
       case CountOut(_) =>
         && s.pc[t].ExitCount?
         && s' == s.(readers := s.readers - 1, pc := s.pc[t := ExitTest])
       case TestLast(_) =>
         && s.pc[t].ExitTest?
         && s' == s.(pc := s.pc[t := if s.readers == 0 then ExitUpW else ExitDone])
       case ExitW(_) => s.pc[t].ExitUpW? && s' == s.(w := Up(s.w), pc := s.pc[t := ExitDone])
       case ExitUp(_) => s.pc[t].ExitDone? && s' == s.(r := Up(s.r), pc := s.pc[t := Idle])
       case BeginWrite(_) => s.pc[t].Idle? && TestW(s, t, Writing, WriteWait, s')
       case WriteAgain(_) => s.pc[t].WriteWait? && t in s.w.woken && TestW(s, t, Writing, WriteWait, s')
       case EndWrite(_) => s.pc[t].Writing? && s' == s.(w := Up(s.w), pc := s.pc[t := Idle])
  }

  ghost predicate Init(s: State) {
    && s.r == New(1) && s.w == New(1) && s.readers == 0
    && forall t :: t in s.pc ==> s.pc[t].Idle?
  }

  // ----- who holds what

  /** Holds r_sema. */
  predicate HoldsR(p: Pc) {
    || p.EnterTest? || p.EnterWaitW? || p.EnterCount? || p.EnterDone?
    || p.ExitCount? || p.ExitTest? || p.ExitUpW? || p.ExitDone?
  }

  /** Counted in n_readers. */
  predicate Counted(p: Pc) {
    p.EnterDone? || p.Reading? || p.ExitWait? || p.ExitCount?
  }

  /** Holds w_sema for the readers while the counter does not show it. */
  predicate Keeper(p: Pc) {
    p.EnterCount? || p.ExitTest? || p.ExitUpW?
  }

  predicate WaitsR(p: Pc) {
    p.EnterWait? || p.ExitWait?
  }

  predicate WaitsW(p: Pc) {
    p.EnterWaitW? || p.WriteWait?
  }

  ghost function Where(pc: map<Tid, Pc>, f: Pc -> bool): set<Tid> {
    set t | t in pc && f(pc[t])
  }

  /** The readers as a group hold w_sema. */
  ghost predicate GroupHolds(s: State) {
    s.readers > 0 || Where(s.pc, Keeper) != {}
  }

  /** The semaphores' queues and woken threads are what the program counters say. */
  ghost predicate QueueInv(s: State) {
    && Inv(s.r) && Inv(s.w)
    && (forall t :: t in s.r.waiters || t in s.r.woken <==> t in s.pc && WaitsR(s.pc[t]))
    && (forall t :: t in s.w.waiters || t in s.w.woken <==> t in s.pc && WaitsW(s.pc[t]))
  }

  /** One unit of r_sema is with its holder, one unit of w_sema with a writer or
      with the readers, and the counter counts the readers. */
  ghost predicate TokenInv(s: State) {
    && s.r.value + |Where(s.pc, HoldsR)| == 1
    && s.w.value + |Where(s.pc, (p: Pc) => p.Writing?)| + Count(GroupHolds(s)) == 1
    && s.readers == |Where(s.pc, Counted)|
    && (forall t :: t in s.pc && (s.pc[t].EnterWaitW? || s.pc[t].ExitUpW?) ==> s.readers == 0)
  }

  ghost predicate ProtocolInv(s: State) {
    QueueInv(s) && TokenInv(s)
  }

  lemma InitInv(s: State)
    requires Init(s)
    ensures ProtocolInv(s)
  {
    assert Where(s.pc, HoldsR) == {} && Where(s.pc, Counted) == {} && Where(s.pc, Keeper) == {};
    assert Where(s.pc, (p: Pc) => p.Writing?) == {};
  }

  // ----- changing one program counter

  lemma WhereUpdate(pc: map<Tid, Pc>, t: Tid, p: Pc, f: Pc -> bool)
    requires t in pc
    ensures Where(pc[t := p], f) == if f(p) then Where(pc, f) + {t} else Where(pc, f) - {t}
    ensures |Where(pc[t := p], f)| == |Where(pc, f)| + Count(f(p)) - Count(f(pc[t]))
  {
    assert Where(pc[t := p], f) == if f(p) then Where(pc, f) + {t} else Where(pc, f) - {t};
  }

  lemma OneHolder(s: State, t: Tid, u: Tid)
    requires TokenInv(s) && t in s.pc && u in s.pc && HoldsR(s.pc[t]) && HoldsR(s.pc[u])
    ensures t == u
  {
    var h := Where(s.pc, HoldsR);
    assert |h - {t}| == |h| - 1;
    assert t != u ==> u in h - {t};
  }

  // ----- the queues

  /** The same threads wait, blocked or woken. */
  ghost predicate SameWaiting(q: Sema, q': Sema) {
    forall t :: t in q'.waiters || t in q'.woken <==> t in q.waiters || t in q.woken
  }

  lemma PlainKeepsQueue(s: State, t: Tid, p: Pc, s': State)
    requires QueueInv(s) && t in s.pc && s'.pc == s.pc[t := p]
    requires Inv(s'.r) && Inv(s'.w) && SameWaiting(s.r, s'.r) && SameWaiting(s.w, s'.w)
    requires !WaitsR(s.pc[t]) && !WaitsW(s.pc[t]) && !WaitsR(p) && !WaitsW(p)
    ensures QueueInv(s')
  {
  }

  lemma WokenIsOff(q: Sema)
    requires Inv(q)
    ensures forall t :: t in q.woken ==> t !in q.waiters
  {
  }

  lemma DownMoves(q: Sema, t: Tid)
    requires t !in q.waiters
    ensures var (q', ok) := Down(q, t);
            forall u :: u in q'.waiters || u in q'.woken <==> if u == t then !ok else u in q.waiters || u in q.woken
  {
  }

  lemma TestRKeepsQueue(s: State, t: Tid, yes: Pc, no: Pc, s': State)
    requires QueueInv(s) && t in s.pc && TestR(s, t, yes, no, s') && !WaitsW(s.pc[t])
    requires WaitsR(s.pc[t]) ==> t in s.r.woken
    requires !WaitsR(yes) && !WaitsW(yes) && WaitsR(no)
    ensures QueueInv(s')
  {
    hide Down, Inv;
    assert t !in s.r.waiters by { WokenIsOff(s.r); }
    DownKeepsInv(s.r, t);
    DownMoves(s.r, t);
  }

  lemma TestWKeepsQueue(s: State, t: Tid, yes: Pc, no: Pc, s': State)
    requires QueueInv(s) && t in s.pc && TestW(s, t, yes, no, s') && !WaitsR(s.pc[t])
    requires WaitsW(s.pc[t]) ==> t in s.w.woken
    requires !WaitsR(yes) && !WaitsW(yes) && WaitsW(no)
    ensures QueueInv(s')
  {
    hide Down, Inv;
    assert t !in s.w.waiters by { WokenIsOff(s.w); }
    DownKeepsInv(s.w, t);
    DownMoves(s.w, t);
  }

  lemma UpMoves(q: Sema)
    requires Inv(q)
    ensures Inv(Up(q))
    ensures SameWaiting(q, Up(q))
  {
    UpKeepsInv(q);
    if q.waiters != [] {
      assert forall t :: t in q.waiters <==> t == q.waiters[0] || t in q.waiters[1..];
    }
  }

  lemma UpRKeepsQueue(s: State, t: Tid, p: Pc, s': State)
    requires QueueInv(s) && t in s.pc && s' == s.(r := Up(s.r), pc := s.pc[t := p])
    requires !WaitsR(s.pc[t]) && !WaitsW(s.pc[t]) && !WaitsR(p) && !WaitsW(p)
    ensures QueueInv(s')
  {
    UpMoves(s.r);
    PlainKeepsQueue(s, t, p, s');
  }

  lemma UpWKeepsQueue(s: State, t: Tid, p: Pc, s': State)
    requires QueueInv(s) && t in s.pc && s' == s.(w := Up(s.w), pc := s.pc[t := p])
    requires !WaitsR(s.pc[t]) && !WaitsW(s.pc[t]) && !WaitsR(p) && !WaitsW(p)
    ensures QueueInv(s')
  {
    UpMoves(s.w);
    PlainKeepsQueue(s, t, p, s');
  }

  lemma StepKeepsQueue(s: State, ev: Event, s': State)
    requires QueueInv(s) && Step(s, ev, s')
    ensures QueueInv(s')
  {
    var t := ev.t;
    match ev {
      case BeginRead(_) => TestRKeepsQueue(s, t, EnterTest, EnterWait, s');
      case EnterAgain(_) => TestRKeepsQueue(s, t, EnterTest, EnterWait, s');
      case TestReaders(_) =>
        if s.readers == 0 {
          TestWKeepsQueue(s, t, EnterCount, EnterWaitW, s');
        } else {
          PlainKeepsQueue(s, t, EnterCount, s');
        }
      case EnterWAgain(_) => TestWKeepsQueue(s, t, EnterCount, EnterWaitW, s');
      case CountIn(_) => PlainKeepsQueue(s, t, EnterDone, s');
      case EnterUp(_) => UpRKeepsQueue(s, t, Reading, s');
      case EndRead(_) => TestRKeepsQueue(s, t, ExitCount, ExitWait, s');
      case ExitAgain(_) => TestRKeepsQueue(s, t, ExitCount, ExitWait, s');
      case CountOut(_) => PlainKeepsQueue(s, t, ExitTest, s');
      case TestLast(_) => PlainKeepsQueue(s, t, s'.pc[t], s');
      case ExitW(_) => UpWKeepsQueue(s, t, ExitDone, s');
      case ExitUp(_) => UpRKeepsQueue(s, t, Idle, s');
      case BeginWrite(_) => TestWKeepsQueue(s, t, Writing, WriteWait, s');
      case WriteAgain(_) => TestWKeepsQueue(s, t, Writing, WriteWait, s');
      case EndWrite(_) => UpWKeepsQueue(s, t, Idle, s');
    }
  }

  // ----- the tokens

  /** The tokens after a step of thread `t` to `p`, counted out. */
  lemma TokensMove(s: State, t: Tid, p: Pc, s': State)
    requires TokenInv(s) && t in s.pc && s'.pc == s.pc[t := p]
    requires s'.r.value + Count(HoldsR(p)) == s.r.value + Count(HoldsR(s.pc[t]))
    requires s'.w.value + Count(p.Writing?) + Count(GroupHolds(s')) == s.w.value + Count(s.pc[t].Writing?)
      + Count(GroupHolds(s))
    requires s'.readers - Count(Counted(p)) == s.readers - Count(Counted(s.pc[t]))
    requires s'.readers == s.readers || HoldsR(s.pc[t])
    requires p.EnterWaitW? || p.ExitUpW? ==> s'.readers == 0
    ensures TokenInv(s')
  {
    hide GroupHolds, HoldsR, Counted, Where;
    assert s'.r.value + |Where(s'.pc, HoldsR)| == 1 by { WhereUpdate(s.pc, t, p, HoldsR); }
    assert s'.readers == |Where(s'.pc, Counted)| by { WhereUpdate(s.pc, t, p, Counted); }
    WhereUpdate(s.pc, t, p, (q: Pc) => q.Writing?);
    forall u | u in s'.pc && (s'.pc[u].EnterWaitW? || s'.pc[u].ExitUpW?) ensures s'.readers == 0 {
      if u != t && s'.readers != s.readers {
        OneHolder(s, t, u);
      }
    }
  }

  /** Whether the group holds w_sema after such a step. */
  lemma GroupAfter(s: State, t: Tid, p: Pc, s': State)
    requires TokenInv(s) && t in s.pc && s'.pc == s.pc[t := p]
    ensures HoldsR(s.pc[t]) ==> (GroupHolds(s') <==> s'.readers > 0 || Keeper(p))
    ensures HoldsR(s.pc[t]) ==> (GroupHolds(s) <==> s.readers > 0 || Keeper(s.pc[t]))
    ensures !Keeper(s.pc[t]) && !Keeper(p) && s'.readers == s.readers ==> (GroupHolds(s') <==> GroupHolds(s))
  {
    WhereUpdate(s.pc, t, p, Keeper);
    if HoldsR(s.pc[t]) {
      forall u | u in Where(s.pc, Keeper) ensures u == t {
        OneHolder(s, t, u);
      }
      assert Keeper(s.pc[t]) ==> t in Where(s.pc, Keeper);
      assert Keeper(p) ==> t in Where(s'.pc, Keeper);
    }
  }

  lemma CountedIsReader(s: State, t: Tid)
    requires TokenInv(s) && t in s.pc
    ensures Counted(s.pc[t]) ==> s.readers > 0
  {
    assert Counted(s.pc[t]) ==> t in Where(s.pc, Counted);
  }

  lemma StepKeepsTokens(s: State, ev: Event, s': State)
    requires ProtocolInv(s) && Step(s, ev, s')
    ensures TokenInv(s')
  {
    hide GroupHolds, QueueInv, Where;
    var t := ev.t;
    assert Counted(s.pc[t]) ==> s.readers > 0 by { CountedIsReader(s, t); }
    GroupAfter(s, t, s'.pc[t], s');
    TokensMove(s, t, s'.pc[t], s');
  }

  // ----- every interleaving

  ghost predicate Run(ss: seq<State>, evs: seq<Event>) {
    && |ss| == |evs| + 1 && Init(ss[0])
    && forall i :: 0 <= i < |evs| ==> Step(ss[i], evs[i], ss[i + 1])
  }

  lemma {:induction false} RunKeepsInv(ss: seq<State>, evs: seq<Event>, i: nat)
    requires Run(ss, evs) && i <= |evs|
    ensures ProtocolInv(ss[i])
  {
    if i == 0 {
      InitInv(ss[0]);
    } else {
      RunKeepsInv(ss, evs, i - 1);
      StepKeepsQueue(ss[i - 1], evs[i - 1], ss[i]);
      StepKeepsTokens(ss[i - 1], evs[i - 1], ss[i]);
    }
  }

  /** No writer ever overlaps a reader or another writer, and n_readers is exactly
      the number of threads between the two counting steps. */
  lemma NoOverlap(ss: seq<State>, evs: seq<Event>, i: nat, t: Tid, u: Tid)
    requires Run(ss, evs) && i <= |evs| && t in ss[i].pc && u in ss[i].pc && t != u
    ensures ss[i].pc[t].Writing? ==> !ss[i].pc[u].Writing? && !ss[i].pc[u].Reading?
    ensures ss[i].readers == |Where(ss[i].pc, Counted)|
  {
    RunKeepsInv(ss, evs, i);
    var s := ss[i];
    var w := Where(s.pc, (p: Pc) => p.Writing?);
    if s.pc[t].Writing? {
      assert t in w && |w - {t}| == |w| - 1;
      assert s.pc[u].Writing? ==> u in w - {t};
      assert s.pc[u].Reading? ==> u in Where(s.pc, Counted);
    }
  }

  /** Not blocked: any thread that is not queued on a semaphore can take a step. */
  ghost predicate CanStep(s: State, t: Tid) {
    exists ev: Event, s': State :: ev.t == t && Step(s, ev, s')
  }

  lemma UnblockedCanStep(s: State, t: Tid)
    requires QueueInv(s) && t in s.pc && t !in s.r.waiters && t !in s.w.waiters
    ensures CanStep(s, t)
  {
    var (qr, okr) := Down(s.r, t);
    var (qw, okw) := Down(s.w, t);
    match s.pc[t] {
      case Idle => assert Step(s, BeginRead(t), s.(r := qr, pc := s.pc[t := if okr then EnterTest else EnterWait]));
      case EnterWait => assert Step(s, EnterAgain(t),
        s.(r := qr, pc := s.pc[t := if okr then EnterTest else EnterWait]));
      case EnterTest =>
        if s.readers == 0 {
          assert Step(s, TestReaders(t), s.(w := qw, pc := s.pc[t := if okw then EnterCount else EnterWaitW]));
        } else {
          assert Step(s, TestReaders(t), s.(pc := s.pc[t := EnterCount]));
        }
      case EnterWaitW => assert Step(s, EnterWAgain(t),
        s.(w := qw, pc := s.pc[t := if okw then EnterCount else EnterWaitW]));
      case EnterCount => assert Step(s, CountIn(t), s.(readers := s.readers + 1, pc := s.pc[t := EnterDone]));
      case EnterDone => assert Step(s, EnterUp(t), s.(r := Up(s.r), pc := s.pc[t := Reading]));
      case Reading => assert Step(s, EndRead(t), s.(r := qr, pc := s.pc[t := if okr then ExitCount else ExitWait]));
      case ExitWait => assert Step(s, ExitAgain(t), s.(r := qr, pc := s.pc[t := if okr then ExitCount else ExitWait]));
      case ExitCount => assert Step(s, CountOut(t), s.(readers := s.readers - 1, pc := s.pc[t := ExitTest]));
      case ExitTest => assert Step(s, TestLast(t), s.(pc := s.pc[t := if s.readers == 0 then ExitUpW else ExitDone]));
      case ExitUpW => assert Step(s, ExitW(t), s.(w := Up(s.w), pc := s.pc[t := ExitDone]));
      case ExitDone => assert Step(s, ExitUp(t), s.(r := Up(s.r), pc := s.pc[t := Idle]));
      case WriteWait => assert Step(s, WriteAgain(t), s.(w := qw, pc := s.pc[t := if okw then Writing else WriteWait]));
      case Writing => assert Step(s, EndWrite(t), s.(w := Up(s.w), pc := s.pc[t := Idle]));
    }
  }

  /** A state in which every thread that is inside the protocol is blocked. */
  ghost predicate Stuck(s: State) {
    forall t :: t in s.pc && !s.pc[t].Idle? ==> t in s.r.waiters || t in s.w.waiters
  }

  lemma StuckHasNoWoken(s: State)
    requires ProtocolInv(s) && Stuck(s)
    ensures s.r.woken == {} && s.w.woken == {}
  {
    assert forall t :: t !in s.r.woken;
    assert forall t :: t !in s.w.woken;
  }

  lemma StuckHolders(s: State)
    requires QueueInv(s) && Stuck(s)
    ensures forall h :: h in s.pc && HoldsR(s.pc[h]) ==> s.pc[h].EnterWaitW? && h in s.w.waiters
  {
  }

  /** If all are blocked then nobody is inside: w_sema is free because neither a
      writer nor a reader could be blocked while holding it, and then r_sema is. */
  lemma StuckMeansIdle(s: State)
    requires ProtocolInv(s) && Stuck(s)
    ensures forall t :: t in s.pc ==> s.pc[t].Idle?
  {
    StuckHasNoWoken(s);
    StuckHolders(s);
    assert Where(s.pc, (p: Pc) => p.Writing?) == {};
    assert Where(s.pc, Keeper) == {};
    assert s.readers == 0 ==> s.w.waiters == [];
    assert Where(s.pc, HoldsR) == {};
    assert s.r.waiters == [];
    assert Where(s.pc, Counted) == {};
  }

  /** No reachable state is deadlocked: while some thread is inside the protocol,
      some thread inside it can take a step. */
  lemma NoDeadlock(ss: seq<State>, evs: seq<Event>, i: nat, t: Tid)
    requires Run(ss, evs) && i <= |evs| && t in ss[i].pc && !ss[i].pc[t].Idle?
    ensures exists u :: u in ss[i].pc && !ss[i].pc[u].Idle? && CanStep(ss[i], u)
  {
    RunKeepsInv(ss, evs, i);
    var s := ss[i];
    if Stuck(s) {
      StuckMeansIdle(s);
      assert false;
    } else {
      var u :| u in s.pc && !s.pc[u].Idle? && u !in s.r.waiters && u !in s.w.waiters;
      UnblockedCanStep(s, u);
    }
  }

  // ----- nobody waits without need

  /** While one thread reads, another that finds r_sema free is reading too after its four
      steps of entry, whatever writers are waiting. */
  lemma ReadersShare(ss: seq<State>, evs: seq<Event>, i: nat, t: Tid, u: Tid)
      returns (a: State, b: State, c: State, d: State)
    requires Run(ss, evs) && i <= |evs| && t in ss[i].pc && u in ss[i].pc
    requires ss[i].pc[u].Reading? && ss[i].pc[t].Idle? && ss[i].r.value > 0
    ensures Step(ss[i], BeginRead(t), a) && Step(a, TestReaders(t), b) && Step(b, CountIn(t), c)
    ensures Step(c, EnterUp(t), d) && d.pc[t].Reading? && d.pc[u].Reading?
  {
    var s := ss[i];
    RunKeepsInv(ss, evs, i);
    CountedIsReader(s, u);
    a := s.(r := Down(s.r, t).0, pc := s.pc[t := EnterTest]);
    b := a.(pc := a.pc[t := EnterCount]);
    c := b.(readers := b.readers + 1, pc := b.pc[t := EnterDone]);
    d := c.(r := Up(c.r), pc := c.pc[t := Reading]);
  }

  /** A thread that is queued on w_sema waits for a thread that has been woken to take it, for a
      writer at work or, if it is itself a writer, for readers. */
  lemma WaitsForUse(ss: seq<State>, evs: seq<Event>, i: nat, t: Tid)
    requires Run(ss, evs) && i <= |evs| && t in ss[i].pc && t in ss[i].w.waiters
    ensures var s := ss[i];
            || s.w.woken != {} || (exists u :: u in s.pc && s.pc[u].Writing?)
            || (s.pc[t].WriteWait? && exists u :: u in s.pc && (Counted(s.pc[u]) || Keeper(s.pc[u])))
  {
    var s := ss[i];
    RunKeepsInv(ss, evs, i);
    var writers, counted, keepers := Where(s.pc, (p: Pc) => p.Writing?), Where(s.pc, Counted), Where(s.pc, Keeper);
    if s.w.woken == {} {
      assert s.w.value == 0;
      if u :| u in writers {
        assert s.pc[u].Writing?;
      } else if u :| u in keepers {
        assert Keeper(s.pc[u]);
        if s.pc[t].EnterWaitW? {
          OneHolder(s, t, u);
          assert false;
        }
      } else {
        assert writers == {} && keepers == {} && s.readers > 0;
        assert |counted| > 0;
        var v :| v in counted;
        assert Counted(s.pc[v]);
      }
    }
  }

  /** A thread that is queued on r_sema waits for a thread that has been woken to take it, or
      for the one that holds it. */
  lemma WaitsForHolder(ss: seq<State>, evs: seq<Event>, i: nat, t: Tid)
    requires Run(ss, evs) && i <= |evs| && t in ss[i].pc && t in ss[i].r.waiters
    ensures ss[i].r.woken != {} || exists u :: u in ss[i].pc && HoldsR(ss[i].pc[u])
  {
    var s := ss[i];
    RunKeepsInv(ss, evs, i);
    if s.r.woken == {} {
      assert s.r.value == 0 && |Where(s.pc, HoldsR)| > 0;
      var u :| u in Where(s.pc, HoldsR);
      assert HoldsR(s.pc[u]);
    }
  }
}
