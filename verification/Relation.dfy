/** The exit handshake between parents and children of userprog/process.c, over any process
    tree.  Every process has a relation with its children, which is shared by all of them
    and counted by alive_count; a step of the machine is one access to a relation. */
module Relation {
  /** The first process; it never exits. */
  const INITIAL: nat := 1

  /** Where a process is.  `clean` remembers whether, when the wait began, the relation's
      semaphore was down and no child was about to raise it. */
  datatype Phase =
    | Starting                                // created, not yet counted
    | Running
    | Executing(child: nat)                   // in process_execute, until the child has started
    | Scanning(child: nat, clean: bool)       // in process_wait, before the first scan
    | Downing(child: nat, clean: bool)        // in process_wait, at sema_down
    | Pushing(status: int)                    // in process_exit, before the return record
    | Testing                                 // before the test of awaited_tid
    | Upping                                  // before sema_up
    | Leaving                                 // before the own relation is released
    | Departing                               // before the parent's relation is released
    | Gone

  datatype Proc = Proc(parent: nat, phase: Phase, children: set<nat>)

  /** `frees` counts how often the relation was freed; `returned` has the records of the children
      that have exited, with their exit status. */
  datatype Rel = Rel(count: int, frees: nat, awaited: int, sema: nat, returned: map<nat, int>)

  datatype State = State(procs: map<nat, Proc>, rels: map<nat, Rel>)

  /** thread_create leaves awaited_tid uninitialised: it is whatever was in the memory. */
  function NewRel(junk: int): Rel {
    Rel(1, 0, junk, 0, map[])
  }

  function Start(junk: int): State {
    State(map[INITIAL := Proc(0, Running, {})], map[INITIAL := NewRel(junk)])
  }

  // ----- steps

  function Go(s: State, t: nat, ph: Phase): State
    requires t in s.procs
  {
    s.(procs := s.procs[t := s.procs[t].(phase := ph)])
  }

  /** One release of relation `r`, which is freed when its count reaches zero. */
  function Release(rel: Rel): Rel {
    rel.(count := rel.count - 1, frees := if rel.count - 1 == 0 then rel.frees + 1 else rel.frees)
  }

  predicate At(s: State, t: nat, ph: Phase) {
    t in s.procs && t in s.rels && s.procs[t].phase == ph
  }

  /** The parent of `t` and its relation exist. */
  predicate HasParent(s: State, t: nat) {
    t in s.procs && s.procs[t].parent in s.procs && s.procs[t].parent in s.rels
  }

  datatype Event =
    | Exec(t: nat, c: nat, junk: int)  // process_execute creates the child `c`
    | Begin(c: nat, ok: bool)     // start_process counts itself and lets the parent go on
    | Await(t: nat, c: nat)       // process_wait records the awaited child
    | Scan(t: nat)
    | Down(t: nat)
    | Exit(t: nat, status: int)   // process_exit, step by step
    | Push(t: nat)
    | Test(t: nat)
    | Up(t: nat)
    | DropOwn(t: nat)
    | DropParent(t: nat)

  /** No credit is left over or on its way when `t` starts to wait. */
  ghost predicate Clean(s: State, t: nat)
    requires t in s.rels
  {
    s.rels[t].sema == 0 && forall d :: d in s.procs && s.procs[d].parent == t ==> s.procs[d].phase != Upping
  }

  ghost predicate DoExec(s: State, t: nat, c: nat, junk: int, s': State) {
    && At(s, t, Running) && c !in s.procs && c !in s.rels && c > t
    && s' == State(Go(s, t, Executing(c)).procs[c := Proc(t, Starting, {})], s.rels[c := NewRel(junk)])
  }

  ghost predicate DoBegin(s: State, c: nat, ok: bool, s': State) {
    && At(s, c, Starting) && HasParent(s, c)
    && var t := s.procs[c].parent;
    && s.procs[t].phase == Executing(c)
    && s'.procs == s.procs[c := s.procs[c].(phase := if ok then Running else Pushing(-1))]
                          [t := s.procs[t].(phase := Running, children := s.procs[t].children + if ok then {c} else {})]
    && s'.rels == s.rels[t := s.rels[t].(count := s.rels[t].count + 1)]
  }

  ghost predicate DoAwait(s: State, t: nat, c: nat, s': State) {
    && At(s, t, Running) && c in s.procs[t].children
    && s'.procs == s.procs[t := s.procs[t].(phase := Scanning(c, Clean(s, t)), children := s.procs[t].children - {c})]
    && s'.rels == s.rels[t := s.rels[t].(awaited := c)]
  }

  ghost predicate DoScan(s: State, t: nat, s': State) {
    && t in s.procs && t in s.rels && s.procs[t].phase.Scanning?
    && var c, clean := s.procs[t].phase.child, s.procs[t].phase.clean;
    s' == Go(s, t, if c in s.rels[t].returned then Running else Downing(c, clean))
  }

  ghost predicate DoDown(s: State, t: nat, s': State) {
    && t in s.procs && t in s.rels && s.procs[t].phase.Downing? && s.rels[t].sema > 0
    && s' == Go(s, t, Running).(rels := s.rels[t := s.rels[t].(sema := s.rels[t].sema - 1)])
  }

  ghost predicate DoExit(s: State, t: nat, status: int, s': State) {
    At(s, t, Running) && t != INITIAL && s' == Go(s, t, Pushing(status))
  }

  ghost predicate DoPush(s: State, t: nat, s': State) {
    && t in s.procs && t in s.rels && s.procs[t].phase.Pushing? && HasParent(s, t)
    && var p, status := s.procs[t].parent, s.procs[t].phase.status;
    s' == Go(s, t, Testing).(rels := s.rels[p := s.rels[p].(returned := s.rels[p].returned[t := status])])
  }

  ghost predicate DoTest(s: State, t: nat, s': State) {
    && At(s, t, Testing) && HasParent(s, t)
    && s' == Go(s, t, if s.rels[s.procs[t].parent].awaited == t then Upping else Leaving)
  }

  ghost predicate DoUp(s: State, t: nat, s': State) {
    && At(s, t, Upping) && HasParent(s, t)
    && var p := s.procs[t].parent;
    s' == Go(s, t, Leaving).(rels := s.rels[p := s.rels[p].(sema := s.rels[p].sema + 1)])
  }

  ghost predicate DoDropOwn(s: State, t: nat, s': State) {
    At(s, t, Leaving) && s' == Go(s, t, Departing).(rels := s.rels[t := Release(s.rels[t])])
  }

  ghost predicate DoDropParent(s: State, t: nat, s': State) {
    && At(s, t, Departing) && HasParent(s, t)
    && var p := s.procs[t].parent;
    s' == Go(s, t, Gone).(rels := s.rels[p := Release(s.rels[p])])
  }

  ghost predicate Step(s: State, e: Event, s': State) {
    match e
    case Exec(t, c, junk) => DoExec(s, t, c, junk, s')
    case Begin(c, ok) => DoBegin(s, c, ok, s')
    case Await(t, c) => DoAwait(s, t, c, s')
    case Scan(t) => DoScan(s, t, s')
    case Down(t) => DoDown(s, t, s')
    case Exit(t, status) => DoExit(s, t, status, s')
    case Push(t) => DoPush(s, t, s')
    case Test(t) => DoTest(s, t, s')
    case Up(t) => DoUp(s, t, s')
    case DropOwn(t) => DoDropOwn(s, t, s')
    case DropParent(t) => DoDropParent(s, t, s')
  }

  /** The process that takes the step. */
  function Mover(e: Event): nat {
    match e
    case Exec(t, _, _) => t
    case Begin(c, _) => c
    case Await(t, _) => t
    case Scan(t) => t
    case Down(t) => t
    case Exit(t, _) => t
    case Push(t) => t
    case Test(t) => t
    case Up(t) => t
    case DropOwn(t) => t
    case DropParent(t) => t
  }

  /** Whether a step accesses the relation with the parent, and not the own one. */
  predicate ToParent(e: Event) {
    e.Begin? || e.Push? || e.Test? || e.Up? || e.DropParent?
  }

  function Touched(s: State, e: Event): nat
    requires Mover(e) in s.procs
  {
    if ToParent(e) then s.procs[Mover(e)].parent else Mover(e)
  }

  // ----- counting

  /** A started process holds its parent's relation until it departs. */
  predicate Counted(ph: Phase) {
    ph != Starting && ph != Gone
  }

  /** A process holds its own relation until it has left. */
  predicate Present(ph: Phase) {
    ph != Departing && ph != Gone
  }

  ghost function Members(procs: map<nat, Proc>, t: nat): set<nat> {
    set c | c in procs && procs[c].parent == t && Counted(procs[c].phase)
  }

  ghost function Holders(procs: map<nat, Proc>, t: nat): nat
    requires t in procs
  {
    |Members(procs, t)| + if Present(procs[t].phase) then 1 else 0
  }

  function One(b: bool): int {
    if b then 1 else 0
  }

  /** How one process's change of phase changes the number of holders of a relation. */
  lemma HoldersChange(procs: map<nat, Proc>, c: nat, p: Proc, t: nat)
    requires c in procs && t in procs && p.parent == procs[c].parent
    ensures Holders(procs[c := p], t) == Holders(procs, t)
              + (if t == p.parent then One(Counted(p.phase)) - One(Counted(procs[c].phase)) else 0)
              + (if t == c then One(Present(p.phase)) - One(Present(procs[c].phase)) else 0)
  {
    hide Members;
    MembersChange(procs, c, p, t);
  }

  lemma MembersChange(procs: map<nat, Proc>, c: nat, p: Proc, t: nat)
    requires c in procs && p.parent == procs[c].parent
    ensures |Members(procs[c := p], t)| == |Members(procs, t)|
              + (if t == p.parent then One(Counted(p.phase)) - One(Counted(procs[c].phase)) else 0)
  {
    hide Members;
    MembersAfter(procs, c, p, t);
  }

  lemma MembersAfter(procs: map<nat, Proc>, c: nat, p: Proc, t: nat)
    requires c in procs
    ensures Members(procs[c := p], t) ==
            if p.parent == t && Counted(p.phase) then Members(procs, t) + {c} else Members(procs, t) - {c}
    ensures c in Members(procs, t) <==> procs[c].parent == t && Counted(procs[c].phase)
  {
    hide Counted;
  }

  /** The count of every relation is the number of its holders, and it is freed once when
      that number has become zero. */
  ghost predicate CountsOk(s: State) {
    forall t {:trigger CountOk(s, t)} :: t in s.procs ==> CountOk(s, t)
  }

  ghost predicate CountOk(s: State, t: nat)
    requires t in s.procs
  {
    t in s.rels && s.rels[t].count == Holders(s.procs, t) && s.rels[t].frees == if s.rels[t].count == 0 then 1 else 0
  }

  // ----- the tree

  /** Parents exist and are older; a child that has not started has its parent waiting for
      it; the children listed have started. */
  ghost predicate TreeOk(s: State) {
    && INITIAL in s.procs && Present(s.procs[INITIAL].phase)
    && (forall t {:trigger NodeOk(s, t)} :: t in s.procs ==> NodeOk(s, t))
  }

  ghost predicate NodeOk(s: State, t: nat)
    requires t in s.procs
  {
    && t in s.rels
    && (t != INITIAL ==> s.procs[t].parent in s.procs && s.procs[t].parent < t)
    && (t == INITIAL ==>
      s.procs[t].parent == 0 && 0 !in s.procs && Counted(s.procs[t].phase) && !Exiting(s.procs[t].phase))
    && (s.procs[t].phase == Starting ==> t != INITIAL && s.procs[s.procs[t].parent].phase == Executing(t))
    && (forall c :: c in s.procs[t].children ==> c in s.procs && s.procs[c].parent == t && s.procs[c].phase != Starting)
  }

  predicate Exiting(ph: Phase) {
    ph.Pushing? || ph == Testing || ph == Upping || ph == Leaving || ph == Departing || ph == Gone
  }

  // ----- steps keep the tree

  /** `t` changes its phase, to one that is neither Starting nor, unless it exits, an end. */
  ghost predicate Moves(s: State, s': State, t: nat, ph: Phase) {
    && t in s.procs && s.procs[t].phase != Starting && !s.procs[t].phase.Executing? && ph != Starting && !ph.Executing?
    && (t == INITIAL ==> !Exiting(ph))
    && s'.procs.Keys == s.procs.Keys && s'.procs[t].phase == ph && s'.procs[t].parent == s.procs[t].parent
    && s'.procs[t].children <= s.procs[t].children
    && (forall u :: u in s.procs && u != t ==> s'.procs[u] == s.procs[u])
    && s'.rels.Keys == s.rels.Keys
  }

  lemma MovesKeepsTree(s: State, s': State, t: nat, ph: Phase)
    requires TreeOk(s) && Moves(s, s', t, ph)
    ensures TreeOk(s')
  {
    forall u | u in s'.procs ensures NodeOk(s', u) {
      assert NodeOk(s, u);
    }
    assert NodeOk(s, INITIAL);
  }

  /** What process_execute changes: the parent's phase and a new process. */
  ghost predicate Creates(s: State, s': State, t: nat, c: nat) {
    && At(s, t, Running) && c !in s.procs && c > t
    && s'.procs.Keys == s.procs.Keys + {c} && s'.procs[t] == s.procs[t].(phase := Executing(c))
    && s'.procs[c] == Proc(t, Starting, {})
    && (forall u :: u in s.procs && u != t ==> s'.procs[u] == s.procs[u])
    && s'.rels.Keys == s.rels.Keys + {c} && (forall u :: u in s.rels ==> s'.rels[u] == s.rels[u])
    && s'.rels[c] == NewRel(s'.rels[c].awaited)
  }

  /** What start_process changes: its own phase, and its parent's. */
  ghost predicate Starts(s: State, s': State, t: nat, c: nat) {
    && At(s, c, Starting) && t in s.procs && t in s.rels && s.procs[c].parent == t && s.procs[t].phase == Executing(c)
    && s'.procs.Keys == s.procs.Keys
    && s'.procs[c].parent == t && (s'.procs[c].phase == Running || s'.procs[c].phase.Pushing?)
    && s'.procs[c].children == s.procs[c].children
    && s'.procs[t].parent == s.procs[t].parent && s'.procs[t].phase == Running
    && s'.procs[t].children <= s.procs[t].children + {c}
    && (forall u :: u in s.procs && u != t && u != c ==> s'.procs[u] == s.procs[u])
    && s'.rels == s.rels[t := s.rels[t].(count := s.rels[t].count + 1)]
  }

  lemma CreatesKeepsTree(s: State, s': State, t: nat, c: nat)
    requires TreeOk(s) && Creates(s, s', t, c)
    ensures TreeOk(s')
  {
    assert NodeOk(s, INITIAL) && NodeOk(s, t);
    forall u | u in s'.procs ensures NodeOk(s', u) {
      if u != c {
        assert NodeOk(s, u);
      }
    }
  }

  lemma StartsKeepsTree(s: State, s': State, t: nat, c: nat)
    requires TreeOk(s) && Starts(s, s', t, c)
    ensures TreeOk(s')
  {
    assert NodeOk(s, INITIAL);
    forall u | u in s'.procs ensures NodeOk(s', u) {
      StartsKeepsNode(s, s', t, c, u);
    }
  }

  lemma StartsKeepsNode(s: State, s': State, t: nat, c: nat, u: nat)
    requires Starts(s, s', t, c) && u in s.procs && NodeOk(s, u) && NodeOk(s, c)
    ensures NodeOk(s', u)
  {
    assert s'.procs[u].parent == s.procs[u].parent;
    assert s'.procs[u].phase == Starting ==> s.procs[u].phase == Starting && u != c && s.procs[u].parent != t;
  }

  // ----- and the counts

  /** A change of phase that matters to no count. */
  lemma MovesKeepsCounts(s: State, s': State, t: nat, ph: Phase)
    requires CountsOk(s) && Moves(s, s', t, ph)
    requires Counted(ph) == Counted(s.procs[t].phase) && Present(ph) == Present(s.procs[t].phase)
    requires forall u :: u in s.rels ==> s'.rels[u].count == s.rels[u].count && s'.rels[u].frees == s.rels[u].frees
    ensures CountsOk(s')
  {
    forall u | u in s'.procs ensures CountOk(s', u) {
      assert CountOk(s, u);
      assert Members(s'.procs, u) == Members(s.procs, u);
    }
  }

  lemma CreatesKeepsCounts(s: State, s': State, t: nat, c: nat)
    requires TreeOk(s) && CountsOk(s) && Creates(s, s', t, c)
    ensures CountsOk(s')
  {
    forall u | u in s'.procs ensures CountOk(s', u) {
      if u == c {
        NoMembersYet(s, s', t, c);
      } else {
        CreatesKeepsCount(s, s', t, c, u);
      }
    }
  }

  lemma CreatesKeepsCount(s: State, s': State, t: nat, c: nat, u: nat)
    requires u in s.procs && CountOk(s, u) && Creates(s, s', t, c)
    ensures CountOk(s', u)
  {
    assert Members(s'.procs, u) == Members(s.procs, u);
  }

  lemma NoMembersYet(s: State, s': State, t: nat, c: nat)
    requires TreeOk(s) && Creates(s, s', t, c)
    ensures Members(s'.procs, c) == {}
  {
    forall d | d in s.procs ensures s.procs[d].parent != c {
      assert NodeOk(s, d) && NodeOk(s, INITIAL);
    }
  }

  lemma StartsKeepsCounts(s: State, s': State, t: nat, c: nat)
    requires CountsOk(s) && Starts(s, s', t, c)
    ensures CountsOk(s')
  {
    forall u | u in s'.procs ensures CountOk(s', u) {
      assert CountOk(s, u);
      if u == t {
        StartsAddsMember(s, s', t, c);
      } else {
        StartsKeepsMembers(s, s', t, c, u);
      }
    }
  }

  lemma StartsAddsMember(s: State, s': State, t: nat, c: nat)
    requires Starts(s, s', t, c)
    ensures Holders(s'.procs, t) == Holders(s.procs, t) + 1
  {
    var before, after := Members(s.procs, t), Members(s'.procs, t);
    forall d ensures d in after <==> d in before + {c} {
      assert d in s.procs && d != t && d != c ==> s'.procs[d] == s.procs[d];
    }
    assert after == before + {c} && c !in before;
  }

  lemma StartsKeepsMembers(s: State, s': State, t: nat, c: nat, u: nat)
    requires Starts(s, s', t, c) && u in s.procs && u != t
    ensures Holders(s'.procs, u) == Holders(s.procs, u)
  {
    assert Members(s'.procs, u) == Members(s.procs, u);
  }

  lemma DropOwnKeepsCounts(s: State, s': State, t: nat)
    requires TreeOk(s) && CountsOk(s) && DoDropOwn(s, t, s')
    ensures CountsOk(s')
  {
    assert NodeOk(s, t);
    forall u | u in s'.procs ensures CountOk(s', u) {
      assert CountOk(s, u);
      DropOwnKeepsCount(s, s', t, u);
    }
  }

  lemma DropOwnKeepsCount(s: State, s': State, t: nat, u: nat)
    requires DoDropOwn(s, t, s') && u in s.procs && CountOk(s, u) && s.procs[t].parent != t
    ensures CountOk(s', u)
  {
    HoldersChange(s.procs, t, s'.procs[t], u);
  }

  lemma DropParentKeepsCounts(s: State, s': State, t: nat)
    requires TreeOk(s) && CountsOk(s) && DoDropParent(s, t, s')
    ensures CountsOk(s')
  {
    assert NodeOk(s, t) && NodeOk(s, INITIAL) && CountOk(s, s.procs[t].parent);
    assert t in Members(s.procs, s.procs[t].parent);
    forall u | u in s'.procs ensures CountOk(s', u) {
      assert CountOk(s, u);
      HoldersChange(s.procs, t, s'.procs[t], u);
    }
  }

  /** Who takes a step holds the relation that the step accesses, or has a parent who does. */
  lemma TouchedIsHeld(s: State, e: Event, s': State)
    requires Step(s, e, s')
    ensures Mover(e) in s.procs
    ensures !ToParent(e) ==> Present(s.procs[Mover(e)].phase)
    ensures ToParent(e) ==> HasParent(s, Mover(e)) && var p := s.procs[Mover(e)].parent;
                              Counted(s.procs[Mover(e)].phase) || Present(s.procs[p].phase)
  {
  }

  lemma NotFreedWhenTouched(s: State, e: Event, s': State)
    requires TreeOk(s) && CountsOk(s) && Step(s, e, s')
    ensures Mover(e) in s.procs && Touched(s, e) in s.rels && s.rels[Touched(s, e)].frees == 0
  {
    TouchedIsHeld(s, e, s');
    var r := Touched(s, e);
    assert CountOk(s, r);
    if ToParent(e) && Counted(s.procs[Mover(e)].phase) {
      assert Mover(e) in Members(s.procs, r);
    }
  }
}
