/** The exit handshake over whole runs: when a relation is freed, that no waiting parent is
    forgotten, and which waits find the record of their child. */
module Handshake {
  import opened Awaiting
  import opened Relation

  ghost predicate IsRun(run: seq<State>, events: seq<Event>) {
    |run| == |events| + 1 && forall i :: 0 <= i < |events| ==> StepAt(run, events, i)
  }

  ghost predicate StepAt(run: seq<State>, events: seq<Event>, i: nat)
    requires i < |events| < |run|
  {
    Step(run[i], events[i], run[i + 1])
  }

  lemma StartInv(junk: int)
    ensures Inv(Start(junk))
  {
    var s := Start(junk);
    assert Members(s.procs, INITIAL) == {};
    assert NodeOk(s, INITIAL) && CountOk(s, INITIAL) && WaitOk(s, INITIAL);
  }

  lemma StepOf(run: seq<State>, events: seq<Event>, i: nat, s: State, s': State)
    requires IsRun(run, events) && i < |events| && s == run[i] && s' == run[i + 1]
    ensures Step(s, events[i], s')
  {
    assert StepAt(run, events, i);
  }

  lemma {:induction false} RunKeeps(run: seq<State>, events: seq<Event>, n: nat, s': State)
    requires IsRun(run, events) && Inv(run[0]) && n <= |events| && s' == run[n]
    ensures Inv(s')
  {
    if n > 0 {
      var s := run[n - 1];
      RunKeeps(run, events, n - 1, s);
      StepOf(run, events, n - 1, s, s');
      StepKeeps(s, events[n - 1], s');
    }
  }

  /** Over every run from the start, the count of a relation is the number of its holders; it
      is freed exactly when the last of them is gone, once, and no step accesses it then. */
  lemma FreedOnceByTheLast(run: seq<State>, events: seq<Event>, junk: int, n: nat, t: nat)
    requires IsRun(run, events) && run[0] == Start(junk) && n <= |events| && t in run[n].procs
    ensures t in run[n].rels && var rel := run[n].rels[t];
      && rel.count == Holders(run[n].procs, t)
      && rel.frees <= 1 && (rel.frees == 1 <==> Holders(run[n].procs, t) == 0)
    ensures n < |events| ==>
      Mover(events[n]) in run[n].procs && (Touched(run[n], events[n]) == t ==> run[n].rels[t].frees == 0)
  {
    StartInv(junk);
    RunKeeps(run, events, n, run[n]);
    assert CountOk(run[n], t);
    if n < |events| {
      StepOf(run, events, n, run[n], run[n + 1]);
      NotFreedWhenTouched(run[n], events[n], run[n + 1]);
    }
  }

  /** A parent about to sema_down for a child that has exited finds a credit. */
  lemma NoLostWakeup(s: State, t: nat)
    requires Inv(s) && t in s.procs && s.procs[t].phase.Downing?
    ensures s.procs[t].phase.child in s.procs
    ensures Upped(s.procs[s.procs[t].phase.child].phase) ==> exists s' :: Step(s, Down(t), s')
  {
    assert NodeOk(s, t) && WaitOk(s, t);
    if Upped(s.procs[s.procs[t].phase.child].phase) {
      var s' := Go(s, t, Running).(rels := s.rels[t := s.rels[t].(sema := s.rels[t].sema - 1)]);
      assert Step(s, Down(t), s');
    }
  }

  /** An exiting process is never held up on its way to giving that credit. */
  lemma ExitGoesOn(s: State, c: nat)
    requires Inv(s) && c in s.procs && Exiting(s.procs[c].phase) && s.procs[c].phase != Gone
    ensures exists e, s' :: Mover(e) == c && Step(s, e, s')
  {
    assert NodeOk(s, c) && NodeOk(s, INITIAL);
    var p := s.procs[c].parent;
    assert NodeOk(s, p) && HasParent(s, c);
    match s.procs[c].phase
    case Pushing(_) => CanPush(s, c);
    case Testing => CanTest(s, c);
    case Upping => CanUp(s, c);
    case Leaving => CanDropOwn(s, c);
    case Departing => CanDropParent(s, c);
  }

  lemma CanPush(s: State, t: nat)
    requires t in s.procs && t in s.rels && s.procs[t].phase.Pushing? && HasParent(s, t)
    ensures exists e, s' :: Mover(e) == t && Step(s, e, s')
  {
    var p, status := s.procs[t].parent, s.procs[t].phase.status;
    var s' := Go(s, t, Testing).(rels := s.rels[p := s.rels[p].(returned := s.rels[p].returned[t := status])]);
    assert Step(s, Push(t), s') && Mover(Push(t)) == t;
  }

  lemma CanTest(s: State, t: nat)
    requires At(s, t, Testing) && HasParent(s, t)
    ensures exists e, s' :: Mover(e) == t && Step(s, e, s')
  {
    var s' := Go(s, t, if s.rels[s.procs[t].parent].awaited == t then Upping else Leaving);
    assert Step(s, Test(t), s') && Mover(Test(t)) == t;
  }

  lemma CanUp(s: State, t: nat)
    requires At(s, t, Upping) && HasParent(s, t)
    ensures exists e, s' :: Mover(e) == t && Step(s, e, s')
  {
    var p := s.procs[t].parent;
    var s' := Go(s, t, Leaving).(rels := s.rels[p := s.rels[p].(sema := s.rels[p].sema + 1)]);
    assert Step(s, Up(t), s') && Mover(Up(t)) == t;
  }

  lemma CanDropOwn(s: State, t: nat)
    requires At(s, t, Leaving)
    ensures exists e, s' :: Mover(e) == t && Step(s, e, s')
  {
    var s' := Go(s, t, Departing).(rels := s.rels[t := Release(s.rels[t])]);
    assert Step(s, DropOwn(t), s') && Mover(DropOwn(t)) == t;
  }

  lemma CanDropParent(s: State, t: nat)
    requires At(s, t, Departing) && HasParent(s, t)
    ensures exists e, s' :: Mover(e) == t && Step(s, e, s')
  {
    var p := s.procs[t].parent;
    var s' := Go(s, t, Gone).(rels := s.rels[p := Release(s.rels[p])]);
    assert Step(s, DropParent(t), s') && Mover(DropParent(t)) == t;
  }

  // ----- which children can be waited for

  /** process_execute yields a child to wait for exactly if its program could be loaded. */
  lemma ChildIffLoaded(run: seq<State>, events: seq<Event>, junk: int, i: nat, c: nat, ok: bool)
    requires IsRun(run, events) && run[0] == Start(junk) && i < |events| && events[i] == Begin(c, ok)
    ensures c in run[i].procs && var t := run[i].procs[c].parent;
      t in run[i + 1].procs && (c in run[i + 1].procs[t].children <==> ok)
  {
    StartInv(junk);
    RunKeeps(run, events, i, run[i]);
    StepOf(run, events, i, run[i], run[i + 1]);
    assert NodeOk(run[i], run[i].procs[c].parent);
  }

  ghost predicate WaitedFor(s: State, t: nat, c: nat) {
    t in s.procs && c in s.procs && s.procs[c].phase != Starting && c !in s.procs[t].children
  }

  lemma StepKeepsWaitedFor(s: State, e: Event, s': State, t: nat, c: nat)
    requires Step(s, e, s') && WaitedFor(s, t, c)
    ensures WaitedFor(s', t, c)
  {
  }

  lemma {:induction false} WaitedForStays(run: seq<State>, events: seq<Event>, i: nat, n: nat, t: nat, c: nat)
    requires IsRun(run, events) && i <= n <= |events| && WaitedFor(run[i], t, c)
    ensures WaitedFor(run[n], t, c)
    decreases n
  {
    if i < n {
      WaitedForStays(run, events, i, n - 1, t, c);
      StepOf(run, events, n - 1, run[n - 1], run[n]);
      StepKeepsWaitedFor(run[n - 1], events[n - 1], run[n], t, c);
    }
  }

  /** Over every run nobody waits twice for the same child. */
  lemma WaitsOnce(run: seq<State>, events: seq<Event>, junk: int, i: nat, j: nat, t: nat, c: nat)
    requires IsRun(run, events) && run[0] == Start(junk) && i < j < |events| && events[i] == Await(t, c)
    ensures events[j] != Await(t, c)
  {
    StartInv(junk);
    RunKeeps(run, events, i, run[i]);
    StepOf(run, events, i, run[i], run[i + 1]);
    assert NodeOk(run[i], t);
    WaitedForStays(run, events, i + 1, j, t, c);
    StepOf(run, events, j, run[j], run[j + 1]);
  }

  // ----- what the records say

  /** The exit status of `c` is on its way to the relation of its parent `t` or recorded there. */
  ghost predicate StatusKept(s: State, t: nat, c: nat, status: int) {
    && c in s.procs && s.procs[c].parent == t
    && (s.procs[c].phase == Pushing(status)
        || (Pushed(s.procs[c].phase) && t in s.rels && c in s.rels[t].returned && s.rels[t].returned[c] == status))
  }

  lemma StepKeepsStatus(s: State, e: Event, s': State, t: nat, c: nat, status: int)
    requires Step(s, e, s') && StatusKept(s, t, c, status)
    ensures StatusKept(s', t, c, status)
  {
  }

  /** `c` begins to exit with this status; a program that could not be loaded does so with -1. */
  predicate Ends(e: Event, c: nat, status: int) {
    e == Exit(c, status) || (e == Begin(c, false) && status == -1)
  }

  lemma {:induction false} StatusStays(run: seq<State>, events: seq<Event>, i: nat, n: nat, c: nat, status: int)
    requires IsRun(run, events) && i < n <= |events| && Ends(events[i], c, status)
    ensures c in run[i].procs && StatusKept(run[n], run[i].procs[c].parent, c, status)
    decreases n
  {
    StepOf(run, events, n - 1, run[n - 1], run[n]);
    if n > i + 1 {
      StatusStays(run, events, i, n - 1, c, status);
      StepKeepsStatus(run[n - 1], events[n - 1], run[n], run[i].procs[c].parent, c, status);
    }
  }

  /** Over every run, the record that a wait finds holds the status the child has exited with. */
  lemma RecordHoldsStatus(run: seq<State>, events: seq<Event>, junk: int, i: nat, n: nat, t: nat, c: nat, status: int)
    requires IsRun(run, events) && run[0] == Start(junk) && i < n <= |events| && Ends(events[i], c, status)
    requires c in run[i].procs && t == run[i].procs[c].parent && Finds(run[n], t, c)
    ensures run[n].rels[t].returned[c] == status
  {
    StatusStays(run, events, i, n, c, status);
    StartInv(junk);
    RunKeeps(run, events, n, run[n]);
    var s := run[n];
    assert c in s.procs && s.procs[c].parent == t;
    assert NodeOk(s, INITIAL) && NodeOk(s, c);
    assert WaitOk(s, t) && Recorded(s, t);
  }

  // ----- which waits find their record

  /** A whole process_wait of `t` for `c` that ends with sema_down, among steps of others. */
  ghost predicate IsWait(run: seq<State>, events: seq<Event>, t: nat, c: nat) {
    && IsRun(run, events) && |events| >= 2 && events[0] == Await(t, c) && events[|events| - 1] == Down(t)
    && (forall i :: 1 <= i < |events| ==> InWait(run[i], t))
  }

  ghost predicate InWait(s: State, t: nat) {
    t in s.procs && t in s.rels && Waiting(s.procs[t].phase)
  }

  ghost predicate Finds(s: State, t: nat, c: nat) {
    t in s.rels && c in s.rels[t].returned
  }

  lemma StepKeepsRecords(s: State, e: Event, s': State, t: nat, c: nat)
    requires Step(s, e, s') && Finds(s, t, c)
    ensures Finds(s', t, c)
  {
  }

  lemma StepKeepsWaitPhase(s: State, e: Event, s': State, t: nat)
    requires Step(s, e, s') && InWait(s, t) && InWait(s', t)
    ensures s'.procs[t].phase.child == s.procs[t].phase.child && s'.procs[t].phase.clean == s.procs[t].phase.clean
  {
  }

  /** Along a wait the phase remembers what was awaited and whether the start was clean. */
  lemma {:induction false} WaitRemembers(run: seq<State>, events: seq<Event>, t: nat, c: nat, n: nat)
    requires IsWait(run, events, t, c) && 1 <= n < |events| && t in run[0].rels
    ensures InWait(run[n], t) && run[n].procs[t].phase.child == c && run[n].procs[t].phase.clean == Clean(run[0], t)
  {
    StepOf(run, events, n - 1, run[n - 1], run[n]);
    if n > 1 {
      WaitRemembers(run, events, t, c, n - 1);
      StepKeepsWaitPhase(run[n - 1], events[n - 1], run[n], t);
    }
  }

  lemma {:induction false} RecordsStay(run: seq<State>, events: seq<Event>, t: nat, c: nat, n: nat)
    requires IsRun(run, events) && n <= |events| && Finds(run[0], t, c)
    ensures Finds(run[n], t, c)
  {
    if n > 0 {
      RecordsStay(run, events, t, c, n - 1);
      StepOf(run, events, n - 1, run[n - 1], run[n]);
      StepKeepsRecords(run[n - 1], events[n - 1], run[n], t, c);
    }
  }

  /** After a clean start sema_down returns only when the child's record is there. */
  lemma CleanDownFinds(s: State, t: nat, s': State)
    requires Inv(s) && DoDown(s, t, s') && s.procs[t].phase.clean
    ensures Finds(s', t, s.procs[t].phase.child)
  {
    assert WaitOk(s, t);
  }

  lemma CleanWaitFinds(run: seq<State>, events: seq<Event>, t: nat, c: nat)
    requires IsWait(run, events, t, c) && Inv(run[0]) && t in run[0].rels && Clean(run[0], t)
    ensures Finds(run[|events|], t, c)
  {
    var n := |events| - 1;
    WaitRemembers(run, events, t, c, n);
    RunKeeps(run, events, n, run[n]);
    StepOf(run, events, n, run[n], run[n + 1]);
    CleanDownFinds(run[n], t, run[n + 1]);
  }

  /** `t` has recorded `c` and found nothing. */
  ghost predicate Gave(s: State, t: nat, c: nat, s1: State, s2: State) {
    && DoAwait(s, t, c, s1) && DoScan(s1, t, s2)
    && t in s2.procs && t in s2.rels && s2.procs[t].phase == Downing(c, false) && !Finds(s2, t, c)
    && s2.rels[t].sema == s.rels[t].sema && InWait(s1, t)
    && (forall d :: d in s.procs && d != t ==> d in s2.procs && s2.procs[d] == s.procs[d])
    && s2.rels.Keys == s.rels.Keys
  }

  lemma GivesUp(s: State, t: nat, c: nat) returns (s1: State, s2: State)
    requires At(s, t, Running) && c in s.procs[t].children && !Clean(s, t) && !Finds(s, t, c)
    ensures Gave(s, t, c, s1, s2)
  {
    s1 := State(s.procs[t := s.procs[t].(phase := Scanning(c, false), children := s.procs[t].children - {c})],
                s.rels[t := s.rels[t].(awaited := c)]);
    s2 := Go(s1, t, Downing(c, false));
  }

  lemma Downs(s: State, t: nat, c: nat) returns (s': State)
    requires t in s.procs && t in s.rels && s.procs[t].phase.Downing? && s.rels[t].sema > 0 && !Finds(s, t, c)
    ensures DoDown(s, t, s') && !Finds(s', t, c)
  {
    s' := Go(s, t, Running).(rels := s.rels[t := s.rels[t].(sema := s.rels[t].sema - 1)]);
  }

  lemma Ups(s: State, d: nat, t: nat, c: nat) returns (s': State)
    requires At(s, d, Upping) && HasParent(s, d) && s.procs[d].parent == t && InWait(s, t) && !Finds(s, t, c)
    ensures DoUp(s, d, s') && InWait(s', t) && s'.procs[t] == s.procs[t] && s'.rels[t].sema > 0 && !Finds(s', t, c)
  {
    s' := Go(s, d, Leaving).(rels := s.rels[t := s.rels[t].(sema := s.rels[t].sema + 1)]);
  }

  /** Without a clean start, and with the child still running, some wait ends too early. */
  lemma UncleanWaitMisses(s: State, t: nat, c: nat) returns (run: seq<State>, events: seq<Event>)
    requires Inv(s) && At(s, t, Running) && c in s.procs[t].children && !Clean(s, t) && !Finds(s, t, c)
    ensures IsWait(run, events, t, c) && run[0] == s && !Finds(run[|events|], t, c)
  {
    var s1, s2 := GivesUp(s, t, c);
    if s.rels[t].sema > 0 {
      var s3 := Downs(s2, t, c);
      run, events := ThreeSteps(s, s1, s2, s3, t, c);
    } else {
      var d :| d in s.procs && s.procs[d].parent == t && s.procs[d].phase == Upping;
      assert NodeOk(s, d);
      var s3 := Ups(s2, d, t, c);
      var s4 := Downs(s3, t, c);
      run, events := FourSteps(s, s1, s2, s3, s4, d, t, c);
    }
  }

  lemma ThreeSteps(s: State, s1: State, s2: State, s3: State, t: nat, c: nat)
    returns (run: seq<State>, events: seq<Event>)
    requires DoAwait(s, t, c, s1) && InWait(s1, t) && DoScan(s1, t, s2) && InWait(s2, t) && DoDown(s2, t, s3)
    ensures IsWait(run, events, t, c) && run[0] == s && run[|events|] == s3
  {
    run, events := [s, s1, s2, s3], [Await(t, c), Scan(t), Down(t)];
    assert StepAt(run, events, 0) && StepAt(run, events, 1) && StepAt(run, events, 2);
  }

  lemma FourSteps(s: State, s1: State, s2: State, s3: State, s4: State, d: nat, t: nat, c: nat)
    returns (run: seq<State>, events: seq<Event>)
    requires DoAwait(s, t, c, s1) && InWait(s1, t) && DoScan(s1, t, s2) && InWait(s2, t)
    requires DoUp(s2, d, s3) && InWait(s3, t) && DoDown(s3, t, s4)
    ensures IsWait(run, events, t, c) && run[0] == s && run[|events|] == s4
  {
    run, events := [s, s1, s2, s3, s4], [Await(t, c), Scan(t), Up(d), Down(t)];
    assert StepAt(run, events, 0) && StepAt(run, events, 1) && StepAt(run, events, 2) && StepAt(run, events, 3);
  }

  lemma WaitFindsFrom(s: State, t: nat, c: nat)
    requires Inv(s) && At(s, t, Running) && c in s.procs[t].children
    ensures Clean(s, t) || Finds(s, t, c) <==> AllWaitsFind(s, t, c)
  {
    if Clean(s, t) || Finds(s, t, c) {
      forall run, events | IsWait(run, events, t, c) && run[0] == s ensures Finds(run[|events|], t, c) {
        if Finds(s, t, c) {
          RecordsStay(run, events, t, c, |events|);
        } else {
          CleanWaitFinds(run, events, t, c);
        }
      }
    } else {
      var run, events := UncleanWaitMisses(s, t, c);
    }
  }

  ghost predicate AllWaitsFind(s: State, t: nat, c: nat) {
    forall run, events :: IsWait(run, events, t, c) && run[0] == s ==> Finds(run[|events|], t, c)
  }

  // ----- in the states of runs from the start

  ghost predicate RunTo(run: seq<State>, events: seq<Event>, junk: int, s: State) {
    IsRun(run, events) && run[0] == Start(junk) && run[|events|] == s
  }

  ghost predicate Reachable(s: State) {
    exists run, events, junk :: RunTo(run, events, junk, s)
  }

  lemma ReachableInv(s: State)
    requires Reachable(s)
    ensures Inv(s)
  {
    var run, events, junk :| RunTo(run, events, junk, s);
    StartInv(junk);
    RunKeeps(run, events, |events|, s);
  }

  lemma StartReachable(junk: int)
    ensures Reachable(Start(junk))
  {
    assert RunTo([Start(junk)], [], junk, Start(junk));
  }

  lemma StepReachable(s: State, e: Event, s': State)
    requires Reachable(s) && Step(s, e, s')
    ensures Reachable(s')
  {
    var run, events, junk :| RunTo(run, events, junk, s);
    var run', events' := run + [s'], events + [e];
    forall i | 0 <= i < |events'| ensures StepAt(run', events', i) {
      assert i < |events| ==> StepAt(run, events, i);
    }
    assert RunTo(run', events', junk, s');
  }

  /** In every state of every run, the waits that end with sema_down all find the record of
      the child exactly if it was already there, or no credit was left over or on its way
      when they began. */
  lemma WaitFindsIff(s: State, t: nat, c: nat)
    requires Reachable(s) && At(s, t, Running) && c in s.procs[t].children
    ensures Clean(s, t) || Finds(s, t, c) <==> AllWaitsFind(s, t, c)
  {
    ReachableInv(s);
    WaitFindsFrom(s, t, c);
  }

  /** The first process with its children 2 and 3, at the given places. */
  function Family(p1: Proc, ph2: Phase, ph3: Phase, r1: Rel, junk: int): State {
    State(map[1 := p1, 2 := Proc(1, ph2, {}), 3 := Proc(1, ph3, {})],
          map[1 := r1, 2 := NewRel(junk), 3 := NewRel(junk)])
  }

  lemma OneChild(junk: int) returns (s: State)
    ensures Reachable(s)
    ensures s == State(map[1 := Proc(0, Running, {2}), 2 := Proc(1, Running, {})],
                       map[1 := Rel(2, 0, junk, 0, map[]), 2 := NewRel(junk)])
  {
    StartReachable(junk);
    var none: set<nat> := {};
    assert none + {2} == {2};
    var a := State(map[1 := Proc(0, Executing(2), {}), 2 := Proc(1, Starting, {})],
                   map[1 := NewRel(junk), 2 := NewRel(junk)]);
    StepReachable(Start(junk), Exec(1, 2, junk), a);
    s := State(map[1 := Proc(0, Running, {2}), 2 := Proc(1, Running, {})],
               map[1 := Rel(2, 0, junk, 0, map[]), 2 := NewRel(junk)]);
    StepReachable(a, Begin(2, true), s);
  }

  lemma TwoChildren(junk: int) returns (s: State)
    ensures Reachable(s) && s == Family(Proc(0, Running, {2, 3}), Running, Running, Rel(3, 0, junk, 0, map[]), junk)
  {
    var a := OneChild(junk);
    var one: set<nat> := {2};
    assert one + {3} == {2, 3};
    var b := Family(Proc(0, Executing(3), {2}), Running, Starting, Rel(2, 0, junk, 0, map[]), junk);
    StepReachable(a, Exec(1, 3, junk), b);
    s := Family(Proc(0, Running, {2, 3}), Running, Running, Rel(3, 0, junk, 0, map[]), junk);
    StepReachable(b, Begin(3, true), s);
  }

  lemma ParentWaits(junk: int) returns (s: State)
    ensures Reachable(s)
    ensures s == Family(Proc(0, Scanning(2, true), {3}), Running, Running, Rel(3, 0, 2, 0, map[]), junk)
  {
    var a := TwoChildren(junk);
    var both: set<nat> := {2, 3};
    assert both - {2} == {3} && Clean(a, 1);
    s := Family(Proc(0, Scanning(2, true), {3}), Running, Running, Rel(3, 0, 2, 0, map[]), junk);
    StepReachable(a, Await(1, 2), s);
  }

  /** Child 2 has pushed its record, with status 0, and not yet tested awaited_tid. */
  lemma RecordPushed(junk: int) returns (s: State)
    ensures Reachable(s)
    ensures s == Family(Proc(0, Scanning(2, true), {3}), Testing, Running, Rel(3, 0, 2, 0, map[2 := 0]), junk)
  {
    var a := ParentWaits(junk);
    var b := Family(Proc(0, Scanning(2, true), {3}), Pushing(0), Running, Rel(3, 0, 2, 0, map[]), junk);
    StepReachable(a, Exit(2, 0), b);
    s := Family(Proc(0, Scanning(2, true), {3}), Testing, Running, Rel(3, 0, 2, 0, map[2 := 0]), junk);
    StepReachable(b, Push(2), s);
  }

  /** A run that leaves a credit on its way: the parent's scan comes between the record of
      child 2 and its test of awaited_tid. */
  lemma UncleanIsReachable(junk: int) returns (s: State)
    ensures Reachable(s) && At(s, 1, Running) && 3 in s.procs[1].children && !Clean(s, 1) && !Finds(s, 1, 3)
  {
    var a := RecordPushed(junk);
    var b := Family(Proc(0, Running, {3}), Testing, Running, Rel(3, 0, 2, 0, map[2 := 0]), junk);
    StepReachable(a, Scan(1), b);
    s := Family(Proc(0, Running, {3}), Upping, Running, Rel(3, 0, 2, 0, map[2 := 0]), junk);
    StepReachable(b, Test(2), s);
    assert s.procs[2].phase == Upping;
  }

  /** So there is a run from the start in which a wait for a child that is still running
      returns without that child's record. */
  lemma WaitCanMiss(junk: int) returns (run: seq<State>, events: seq<Event>)
    ensures IsWait(run, events, 1, 3) && Reachable(run[0]) && !Finds(run[|events|], 1, 3)
  {
    var s := UncleanIsReachable(junk);
    ReachableInv(s);
    run, events := UncleanWaitMisses(s, 1, 3);
  }
}
