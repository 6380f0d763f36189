/** What process_wait relies on: the records of exited children, and the credits of the
    relation's semaphore.  Every step keeps it, together with the tree and the counts. */
module Awaiting {
  import opened Relation

  predicate Pushed(ph: Phase) {
    ph == Testing || ph == Upping || ph == Leaving || ph == Departing || ph == Gone
  }

  predicate Upped(ph: Phase) {
    ph == Leaving || ph == Departing || ph == Gone
  }

  /** Who has pushed a record is in the list.  The child a parent waits for is recorded; once
      the parent is about to sema_down, that child has a credit coming or has given it.
      After a clean start no other child has. */
  ghost predicate WaitsOk(s: State) {
    forall t {:trigger WaitOk(s, t)} :: t in s.procs && t in s.rels ==> WaitOk(s, t)
  }

  ghost predicate WaitOk(s: State, t: nat)
    requires t in s.procs && t in s.rels
  {
    Recorded(s, t) && WaitingOk(s, t)
  }

  ghost predicate Recorded(s: State, t: nat)
    requires t in s.rels
  {
    && (forall c :: c in s.rels[t].returned ==> c in s.procs)
    && (forall c :: c in s.procs && s.procs[c].parent == t ==> (c in s.rels[t].returned <==> Pushed(s.procs[c].phase)))
  }

  ghost predicate WaitingOk(s: State, t: nat)
    requires t in s.procs && t in s.rels
  {
    match s.procs[t].phase
    case Scanning(c, clean) => Awaits(s, t, c) && (clean ==> OnlyFrom(s, t, c))
    case Downing(c, clean) =>
      && Awaits(s, t, c) && (Upped(s.procs[c].phase) ==> s.rels[t].sema > 0) && (clean ==> OnlyFrom(s, t, c))
    case _ => true
  }

  ghost predicate Awaits(s: State, t: nat, c: nat)
    requires t in s.rels
  {
    s.rels[t].awaited == c && c in s.procs && s.procs[c].parent == t
  }

  /** All credit of `t` is the child `c`'s. */
  ghost predicate OnlyFrom(s: State, t: nat, c: nat)
    requires t in s.rels && c in s.procs
  {
    && (s.rels[t].sema > 0 ==> Upped(s.procs[c].phase))
    && (forall d :: d in s.procs && s.procs[d].parent == t && s.procs[d].phase == Upping ==> d == c)
  }

  ghost predicate Inv(s: State) {
    TreeOk(s) && CountsOk(s) && WaitsOk(s)
  }

  // ----- steps keep it

  predicate Waiting(ph: Phase) {
    ph.Scanning? || ph.Downing?
  }

  ghost predicate SameWait(s: State, s': State, u: nat)
    requires u in s.rels && u in s'.rels
  {
    s'.rels[u].awaited == s.rels[u].awaited && s'.rels[u].sema == s.rels[u].sema
      && s'.rels[u].returned == s.rels[u].returned
  }

  /** A change of phase that no waiting parent notices. */
  predicate Neutral(a: Phase, b: Phase) {
    Pushed(a) == Pushed(b) && Upped(a) == Upped(b) && (a == Upping <==> b == Upping)
  }

  lemma MovesKeepsWait(s: State, s': State, t: nat, ph: Phase, u: nat)
    requires Moves(s, s', t, ph) && u in s.procs && u in s.rels && WaitOk(s, u) && SameWait(s, s', u)
    requires u == t ==> !Waiting(ph)
    requires s.procs[t].parent == u ==> Neutral(s.procs[t].phase, ph)
    ensures WaitOk(s', u)
  {
  }

  lemma CreatesKeepsWaits(s: State, s': State, t: nat, c: nat)
    requires TreeOk(s) && WaitsOk(s) && Creates(s, s', t, c)
    ensures WaitsOk(s')
  {
    forall u | u in s'.procs && u in s'.rels ensures WaitOk(s', u) {
      if u == c {
        forall d | d in s.procs ensures s.procs[d].parent != c {
          assert NodeOk(s, d) && NodeOk(s, INITIAL);
        }
      } else {
        assert NodeOk(s, u) && WaitOk(s, u);
        CreatesKeepsWait(s, s', t, c, u);
      }
    }
  }

  lemma CreatesKeepsWait(s: State, s': State, t: nat, c: nat, u: nat)
    requires Creates(s, s', t, c) && u in s.procs && u in s.rels && WaitOk(s, u)
    ensures WaitOk(s', u)
  {
  }

  lemma StartsKeepsWait(s: State, s': State, t: nat, c: nat, u: nat)
    requires Starts(s, s', t, c) && u in s.procs && u in s.rels && WaitOk(s, u)
    ensures WaitOk(s', u)
  {
  }

  lemma StartsKeepsWaits(s: State, s': State, t: nat, c: nat)
    requires WaitsOk(s) && Starts(s, s', t, c)
    ensures WaitsOk(s')
  {
    forall u | u in s'.procs && u in s'.rels ensures WaitOk(s', u) {
      assert WaitOk(s, u);
      StartsKeepsWait(s, s', t, c, u);
    }
  }

  lemma AwaitKeepsWait(s: State, s': State, t: nat, c: nat)
    requires t in s.procs && t in s.rels && NodeOk(s, t) && WaitOk(s, t) && DoAwait(s, t, c, s')
    ensures t in s'.procs && t in s'.rels && WaitOk(s', t)
  {
  }

  lemma ScanKeepsWait(s: State, s': State, t: nat)
    requires t in s.procs && t in s.rels && WaitOk(s, t) && DoScan(s, t, s')
    ensures t in s'.procs && t in s'.rels && WaitOk(s', t)
  {
  }

  lemma DownKeepsWait(s: State, s': State, t: nat)
    requires t in s.procs && t in s.rels && WaitOk(s, t) && DoDown(s, t, s')
    ensures t in s'.procs && t in s'.rels && WaitOk(s', t)
  {
  }

  lemma PushKeepsWait(s: State, s': State, t: nat, p: nat)
    requires HasParent(s, t) && p == s.procs[t].parent && p != t && WaitOk(s, p) && DoPush(s, t, s')
    ensures p in s'.procs && p in s'.rels && WaitOk(s', p)
  {
  }

  lemma TestKeepsWait(s: State, s': State, t: nat, p: nat)
    requires HasParent(s, t) && p == s.procs[t].parent && p != t && WaitOk(s, p) && DoTest(s, t, s')
    ensures p in s'.procs && p in s'.rels && WaitOk(s', p)
  {
  }

  lemma UpKeepsWait(s: State, s': State, t: nat, p: nat)
    requires HasParent(s, t) && p == s.procs[t].parent && p != t && WaitOk(s, p) && DoUp(s, t, s')
    ensures p in s'.procs && p in s'.rels && WaitOk(s', p)
  {
  }

  /** Only `x`, or who waits on the relation of `x`, can notice that `t` moved. */
  ghost predicate Local(s: State, s': State, t: nat, ph: Phase, x: nat) {
    && Moves(s, s', t, ph) && x in s.procs && x in s.rels
    && (forall u :: u in s.rels && u != x ==> SameWait(s, s', u))
    && (t != x ==> !Waiting(ph))
    && (s.procs[t].parent != x ==> Neutral(s.procs[t].phase, ph))
  }

  lemma LocalKeepsWaits(s: State, s': State, t: nat, ph: Phase, x: nat)
    requires WaitsOk(s) && Local(s, s', t, ph, x) && WaitOk(s', x)
    ensures WaitsOk(s')
  {
    forall u | u in s'.procs && u in s'.rels ensures WaitOk(s', u) {
      assert WaitOk(s, u);
      if u != x {
        MovesKeepsWait(s, s', t, ph, u);
      }
    }
  }

  /** No count changes either. */
  ghost predicate Quiet(s: State, s': State, t: nat, ph: Phase, x: nat) {
    && Local(s, s', t, ph, x)
    && Counted(ph) == Counted(s.procs[t].phase) && Present(ph) == Present(s.procs[t].phase)
    && (forall u :: u in s.rels ==> s'.rels[u].count == s.rels[u].count && s'.rels[u].frees == s.rels[u].frees)
  }

  lemma QuietKeeps(s: State, s': State, t: nat, ph: Phase, x: nat)
    requires Inv(s) && Quiet(s, s', t, ph, x) && WaitOk(s', x)
    ensures Inv(s')
  {
    assert TreeOk(s') by { MovesKeepsTree(s, s', t, ph); }
    assert CountsOk(s') by { MovesKeepsCounts(s, s', t, ph); }
    assert WaitsOk(s') by { LocalKeepsWaits(s, s', t, ph, x); }
  }

  // ----- every step

  lemma ExecKeeps(s: State, s': State, t: nat, c: nat, junk: int)
    requires Inv(s) && DoExec(s, t, c, junk, s')
    ensures Inv(s')
  {
    assert Creates(s, s', t, c);
    assert TreeOk(s') by { CreatesKeepsTree(s, s', t, c); }
    assert CountsOk(s') by { CreatesKeepsCounts(s, s', t, c); }
    assert WaitsOk(s') by { CreatesKeepsWaits(s, s', t, c); }
  }

  lemma BeginKeeps(s: State, s': State, c: nat, ok: bool)
    requires Inv(s) && DoBegin(s, c, ok, s')
    ensures Inv(s')
  {
    var t := s.procs[c].parent;
    assert NodeOk(s, c) && NodeOk(s, INITIAL);
    assert Starts(s, s', t, c);
    assert TreeOk(s') by { StartsKeepsTree(s, s', t, c); }
    assert CountsOk(s') by { StartsKeepsCounts(s, s', t, c); }
    assert WaitsOk(s') by { StartsKeepsWaits(s, s', t, c); }
  }

  lemma AwaitKeeps(s: State, s': State, t: nat, c: nat)
    requires Inv(s) && DoAwait(s, t, c, s')
    ensures Inv(s')
  {
    assert NodeOk(s, t) && WaitOk(s, t);
    AwaitKeepsWait(s, s', t, c);
    assert Quiet(s, s', t, s'.procs[t].phase, t);
    QuietKeeps(s, s', t, s'.procs[t].phase, t);
  }

  lemma ScanKeeps(s: State, s': State, t: nat)
    requires Inv(s) && DoScan(s, t, s')
    ensures Inv(s')
  {
    assert WaitOk(s, t);
    ScanKeepsWait(s, s', t);
    assert Quiet(s, s', t, s'.procs[t].phase, t);
    QuietKeeps(s, s', t, s'.procs[t].phase, t);
  }

  lemma DownKeeps(s: State, s': State, t: nat)
    requires Inv(s) && DoDown(s, t, s')
    ensures Inv(s')
  {
    assert WaitOk(s, t);
    DownKeepsWait(s, s', t);
    assert Quiet(s, s', t, Running, t);
    QuietKeeps(s, s', t, Running, t);
  }

  lemma ExitKeeps(s: State, s': State, t: nat, status: int)
    requires Inv(s) && DoExit(s, t, status, s')
    ensures Inv(s')
  {
    assert WaitOk(s, t) && NodeOk(s, t);
    assert Quiet(s, s', t, Pushing(status), t) && WaitOk(s', t) by { ExitIsQuiet(s, s', t, status); }
    QuietKeeps(s, s', t, Pushing(status), t);
  }

  lemma ExitIsQuiet(s: State, s': State, t: nat, status: int)
    requires DoExit(s, t, status, s') && s.procs[t].parent != t && WaitOk(s, t)
    ensures Quiet(s, s', t, Pushing(status), t) && WaitOk(s', t)
  {
  }

  lemma PushKeeps(s: State, s': State, t: nat)
    requires Inv(s) && DoPush(s, t, s')
    ensures Inv(s')
  {
    var p := s.procs[t].parent;
    assert NodeOk(s, t) && NodeOk(s, INITIAL) && WaitOk(s, p);
    PushKeepsWait(s, s', t, p);
    assert Quiet(s, s', t, Testing, p);
    QuietKeeps(s, s', t, Testing, p);
  }

  lemma TestKeeps(s: State, s': State, t: nat)
    requires Inv(s) && DoTest(s, t, s')
    ensures Inv(s')
  {
    var p := s.procs[t].parent;
    assert NodeOk(s, t) && NodeOk(s, INITIAL) && WaitOk(s, p);
    TestKeepsWait(s, s', t, p);
    assert Quiet(s, s', t, s'.procs[t].phase, p);
    QuietKeeps(s, s', t, s'.procs[t].phase, p);
  }

  lemma UpKeeps(s: State, s': State, t: nat)
    requires Inv(s) && DoUp(s, t, s')
    ensures Inv(s')
  {
    var p := s.procs[t].parent;
    assert NodeOk(s, t) && NodeOk(s, INITIAL) && WaitOk(s, p);
    UpKeepsWait(s, s', t, p);
    assert Quiet(s, s', t, Leaving, p);
    QuietKeeps(s, s', t, Leaving, p);
  }

  lemma DropOwnKeeps(s: State, s': State, t: nat)
    requires Inv(s) && DoDropOwn(s, t, s')
    ensures Inv(s')
  {
    assert NodeOk(s, t) && WaitOk(s, t);
    DropOwnIsLocal(s, s', t);
    assert TreeOk(s') by { MovesKeepsTree(s, s', t, Departing); }
    assert CountsOk(s') by { DropOwnKeepsCounts(s, s', t); }
    assert WaitsOk(s') by { LocalKeepsWaits(s, s', t, Departing, t); }
  }

  lemma DropOwnIsLocal(s: State, s': State, t: nat)
    requires DoDropOwn(s, t, s') && t != INITIAL && WaitOk(s, t) && s.procs[t].parent != t
    ensures Local(s, s', t, Departing, t) && WaitOk(s', t)
  {
  }

  lemma DropParentKeeps(s: State, s': State, t: nat)
    requires Inv(s) && DoDropParent(s, t, s')
    ensures Inv(s')
  {
    assert NodeOk(s, t) && WaitOk(s, t);
    DropParentIsLocal(s, s', t);
    assert TreeOk(s') by { MovesKeepsTree(s, s', t, Gone); }
    assert CountsOk(s') by { DropParentKeepsCounts(s, s', t); }
    assert WaitsOk(s') by { LocalKeepsWaits(s, s', t, Gone, t); }
  }

  lemma DropParentIsLocal(s: State, s': State, t: nat)
    requires DoDropParent(s, t, s') && t != INITIAL && WaitOk(s, t) && s.procs[t].parent != t
    ensures Local(s, s', t, Gone, t) && WaitOk(s', t)
  {
  }

  lemma StepKeeps(s: State, e: Event, s': State)
    requires Inv(s) && Step(s, e, s')
    ensures Inv(s')
  {
    match e
    case Exec(t, c, junk) => ExecKeeps(s, s', t, c, junk);
    case Begin(c, ok) => BeginKeeps(s, s', c, ok);
    case Await(t, c) => AwaitKeeps(s, s', t, c);
    case Scan(t) => ScanKeeps(s, s', t);
    case Down(t) => DownKeeps(s, s', t);
    case Exit(t, status) => ExitKeeps(s, s', t, status);
    case Push(t) => PushKeeps(s, s', t);
    case Test(t) => TestKeeps(s, s', t);
    case Up(t) => UpKeeps(s, s', t);
    case DropOwn(t) => DropOwnKeeps(s, s', t);
    case DropParent(t) => DropParentKeeps(s, s', t);
  }
}
