/** Who owns which sector: the free map of filesys/free-map.c, the directory of
    filesys/directory.c, the open inodes of filesys/inode.c and the calls of
    filesys/filesys.c that tie them together.  Each call is one atomic step. */
module FileSys {
  import opened Bitmap
  import opened Inode
  import opened Palloc
  import opened Wrappers

  const NAME_MAX: nat := 14

  /** A directory slot. */
  datatype Slot = Vacant | Entry(name: string, sector: nat)

  /** An in-memory inode. */
  datatype Mem = Mem(sector: nat, openCnt: nat, removed: bool, data: Data)

  /** The root directory, the inodes on disk by sector, and the in-memory inodes. */
  datatype Fs = Fs(slots: seq<Slot>, disk: map<nat, Data>, mem: map<nat, Mem>)

  // ----- the invariant

  ghost function Run(f: Data): set<nat> {
    Pages(f.start, BytesToSectors(f.length))
  }

  /** The inode sector `s` and the data sectors of its inode. */
  ghost function Owned(disk: map<nat, Data>, s: nat): set<nat>
    requires s in disk
  {
    {s} + Run(disk[s])
  }

  ghost function Listed(slots: seq<Slot>): set<nat> {
    set i | 0 <= i < |slots| && slots[i].Entry? :: slots[i].sector
  }

  ghost function Opened(mem: map<nat, Mem>): set<nat> {
    set p | p in mem :: mem[p].sector
  }

  /** The inodes that are in the directory or open. */
  ghost function Alive(fs: Fs): set<nat> {
    Listed(fs.slots) + Opened(fs.mem)
  }

  ghost predicate EntriesDistinct(slots: seq<Slot>) {
    forall i, j :: 0 <= i < j < |slots| && slots[i].Entry? && slots[j].Entry? ==>
      slots[i].name != slots[j].name && slots[i].sector != slots[j].sector
  }

  /** There is one in-memory inode for each open sector; it counts its openers, agrees
      with the disk, and is marked removed exactly when it has left the directory. */
  ghost predicate MemOk(fs: Fs, handles: multiset<nat>) {
    && (forall p :: p in handles ==> p in fs.mem)
    && (forall p :: p in fs.mem ==>
          && fs.mem[p].openCnt == handles[p] > 0
          && fs.mem[p].sector in fs.disk && fs.mem[p].data == fs.disk[fs.mem[p].sector]
          && (fs.mem[p].removed <==> fs.mem[p].sector !in Listed(fs.slots)))
    && (forall p, q :: p in fs.mem && q in fs.mem && p != q ==> fs.mem[p].sector != fs.mem[q].sector)
  }

  /** The inodes `alive` own disjoint sectors, all marked used and none of the system's. */
  ghost predicate SectorsOk(disk: map<nat, Data>, alive: set<nat>, used: set<nat>, system: set<nat>) {
    && system <= used
    && (forall s {:trigger Owned(disk, s)} {:trigger s in disk} :: s in alive ==>
          s in disk && s !in Run(disk[s]) && Owned(disk, s) <= used && Owned(disk, s) !! system)
    && (forall s, t {:trigger Owned(disk, s), Owned(disk, t)} ::
          s in alive && t in alive && s != t ==> Owned(disk, s) !! Owned(disk, t))
  }

  /** The whole state between calls: besides the above, the handles that callers hold
      and the sectors marked used. */
  datatype State = State(fs: Fs, handles: multiset<nat>, used: set<nat>)

  ghost predicate Inv(st: State, system: set<nat>) {
    && EntriesDistinct(st.fs.slots) && MemOk(st.fs, st.handles)
    && SectorsOk(st.fs.disk, Alive(st.fs), st.used, system)
  }

  // ----- sector ownership under each change

  lemma FewerAlive(disk: map<nat, Data>, alive: set<nat>, alive': set<nat>, used: set<nat>, used': set<nat>,
      system: set<nat>)
    requires SectorsOk(disk, alive, used, system) && alive' <= alive && used <= used'
    ensures SectorsOk(disk, alive', used', system)
  {
  }

  lemma Dies(disk: map<nat, Data>, alive: set<nat>, s: nat, used: set<nat>, system: set<nat>)
    requires SectorsOk(disk, alive, used, system) && s in alive
    ensures SectorsOk(disk, alive - {s}, used - Owned(disk, s), system)
  {
  }

  lemma IsBorn(disk: map<nat, Data>, alive: set<nat>, s: nat, f: Data, used: set<nat>, system: set<nat>)
    requires SectorsOk(disk, alive, used, system) && s !in used && s !in Run(f) && Run(f) !! used
    ensures SectorsOk(disk[s := f], alive + {s}, used + {s} + Run(f), system)
  {
    assert s in alive ==> s in disk && s in Owned(disk, s);
    forall t | t in alive ensures Owned(disk[s := f], t) == Owned(disk, t) <= used {
    }
    assert Owned(disk[s := f], s) == {s} + Run(f);
  }

  /** Writing the inode of a dead sector concerns no inode that is alive. */
  lemma DiskOfDead(disk: map<nat, Data>, alive: set<nat>, s: nat, f: Data, used: set<nat>, system: set<nat>)
    requires SectorsOk(disk, alive, used, system) && s !in alive
    ensures SectorsOk(disk[s := f], alive, used, system)
  {
    forall t | t in alive ensures Owned(disk[s := f], t) == Owned(disk, t) {
    }
  }

  // ----- directory slots

  ghost predicate Found(slots: seq<Slot>, name: string, i: nat) {
    i < |slots| && slots[i].Entry? && slots[i].name == name
  }

  /** dir_add can enter `name`. */
  ghost predicate Accepts(slots: seq<Slot>, name: string) {
    && 0 < |name| <= NAME_MAX
    && (forall i :: 0 <= i < |slots| ==> !Found(slots, name, i))
    && Vacant in slots
  }

  lemma ListedAdd(slots: seq<Slot>, i: nat, name: string, s: nat)
    requires i < |slots| && slots[i].Vacant?
    ensures Listed(slots[i := Entry(name, s)]) == Listed(slots) + {s}
  {
    var after := slots[i := Entry(name, s)];
    forall t ensures t in Listed(after) <==> t in Listed(slots) || t == s {
      if t in Listed(slots) {
        var j :| 0 <= j < |slots| && slots[j].Entry? && slots[j].sector == t;
        assert after[j].sector == t;
      }
      assert after[i].sector == s;
    }
  }

  lemma ListedRemove(slots: seq<Slot>, i: nat)
    requires i < |slots| && slots[i].Entry? && EntriesDistinct(slots)
    ensures slots[i].sector in Listed(slots) && Listed(slots[i := Vacant]) == Listed(slots) - {slots[i].sector}
  {
    var after := slots[i := Vacant];
    forall t ensures t in Listed(after) <==> t in Listed(slots) && t != slots[i].sector {
      if t in Listed(slots) && t != slots[i].sector {
        var j :| 0 <= j < |slots| && slots[j].Entry? && slots[j].sector == t;
        assert after[j].sector == t;
      }
    }
  }

  // ----- in-memory inodes

  lemma OpenedSame(mem: map<nat, Mem>, mem': map<nat, Mem>)
    requires mem'.Keys == mem.Keys && forall p :: p in mem ==> mem'[p].sector == mem[p].sector
    ensures Opened(mem') == Opened(mem)
  {
    forall t ensures t in Opened(mem) <==> t in Opened(mem') {
      if t in Opened(mem) {
        var q :| q in mem && mem[q].sector == t;
        assert q in mem' && mem'[q].sector == t;
      }
      if t in Opened(mem') {
        var q :| q in mem' && mem'[q].sector == t;
        assert q in mem;
      }
    }
  }

  lemma OpenedAdd(mem: map<nat, Mem>, p: nat, m: Mem)
    requires p !in mem
    ensures Opened(mem[p := m]) == Opened(mem) + {m.sector}
  {
    var mem' := mem[p := m];
    forall t ensures t in Opened(mem') <==> t in Opened(mem) || t == m.sector {
      if t in Opened(mem) {
        var q :| q in mem && mem[q].sector == t;
        assert q in mem' && mem'[q].sector == t;
      }
      assert p in mem' && mem'[p].sector == m.sector;
    }
  }

  lemma OpenedRemove(mem: map<nat, Mem>, p: nat)
    requires p in mem && forall q :: q in mem && q != p ==> mem[q].sector != mem[p].sector
    ensures Opened(mem - {p}) == Opened(mem) - {mem[p].sector} && mem[p].sector in Opened(mem)
  {
    forall t | t in Opened(mem) && t != mem[p].sector ensures t in Opened(mem - {p}) {
      var q :| q in mem && mem[q].sector == t;
      assert q in mem - {p} && (mem - {p})[q].sector == t;
    }
    forall q | q in mem - {p} ensures (mem - {p})[q].sector in Opened(mem) - {mem[p].sector} {
    }
  }

  // ----- the calls on values

  /** filesys_create put a new inode `f` at sector `s` and entered it at slot `i`. */
  ghost predicate Entered(st: State, st': State, i: nat, name: string, s: nat, f: Data) {
    && s !in st.used && s !in Run(f) && Run(f) !! st.used
    && Accepts(st.fs.slots, name) && i < |st.fs.slots| && st.fs.slots[i].Vacant?
    && st' ==
      State(Fs(st.fs.slots[i := Entry(name, s)], st.fs.disk[s := f], st.fs.mem), st.handles, st.used + {s} + Run(f))
  }

  /** filesys_create failed in dir_add and gave back the inode sector only. */
  ghost predicate Leaked(st: State, st': State, name: string, s: nat, f: Data) {
    && s !in st.used && Run(f) !! st.used && !Accepts(st.fs.slots, name)
    && st' == State(st.fs.(disk := st.fs.disk[s := f]), st.handles, st.used + Run(f))
  }

  /** inode_open on the entry at slot `i` gave the in-memory inode `p`. */
  ghost predicate OpenedBy(st: State, st': State, i: nat, p: nat) {
    && i < |st.fs.slots| && st.fs.slots[i].Entry?
    && var s, mem := st.fs.slots[i].sector, st.fs.mem;
    if p in mem then
      && mem[p].sector == s
      && st' == st.(fs := st.fs.(mem := mem[p := mem[p].(openCnt := mem[p].openCnt + 1)]),
        handles := st.handles + multiset{p})
    else
      && s !in Opened(mem) && s in st.fs.disk
      && st' == st.(fs := st.fs.(mem := mem[p := Mem(s, 1, false, st.fs.disk[s])]), handles := st.handles + multiset{p})
  }

  /** dir_remove erased slot `i` and marked its inode. */
  ghost predicate Erased(st: State, st': State, i: nat, p: nat) {
    && i < |st.fs.slots| && st.fs.slots[i].Entry? && p in st.fs.mem && st.fs.mem[p].sector == st.fs.slots[i].sector
    && st' ==
      st.(fs := st.fs.(slots := st.fs.slots[i := Vacant], mem := st.fs.mem[p := st.fs.mem[p].(removed := true)]))
  }

  /** inode_close by one of several openers. */
  ghost predicate FewerOpeners(st: State, st': State, p: nat) {
    && p in st.fs.mem && p in st.handles && st.fs.mem[p].openCnt > 1
    && st' == State(st.fs.(mem := st.fs.mem[p := st.fs.mem[p].(openCnt := st.fs.mem[p].openCnt - 1)]),
                    st.handles - multiset{p}, st.used)
  }

  /** inode_close by the last opener, who gives back the sectors of a removed inode. */
  ghost predicate LastClosed(st: State, st': State, p: nat) {
    && p in st.fs.mem && p in st.handles && st.fs.mem[p].openCnt == 1
    && var m := st.fs.mem[p];
    st' == State(st.fs.(mem := st.fs.mem - {p}), st.handles - multiset{p},
                 if m.removed then st.used - ({m.sector} + Run(m.data)) else st.used)
  }

  ghost predicate ClosedBy(st: State, st': State, p: nat) {
    FewerOpeners(st, st', p) || LastClosed(st, st', p)
  }

  datatype Call = Create(name: string, size: nat) | Open(name: string) | Remove(name: string) | Close(p: nat)

  ghost predicate CreateStep(st: State, st': State, name: string, size: nat) {
    || st' == st
    || (exists i, s, f :: Entered(st, st', i, name, s, f) && f.length == size)
    || (exists s, f :: Leaked(st, st', name, s, f) && f.length == size)
  }

  ghost predicate OpenStep(st: State, st': State, name: string) {
    st' == st || exists i, p :: Found(st.fs.slots, name, i) && OpenedBy(st, st', i, p)
  }

  ghost predicate RemoveVia(st: State, a: State, b: State, st': State, i: nat, p: nat) {
    OpenedBy(st, a, i, p) && Erased(a, b, i, p) && ClosedBy(b, st', p)
  }

  ghost predicate RemoveStep(st: State, st': State, name: string) {
    st' == st || exists i, p, a, b :: Found(st.fs.slots, name, i) && RemoveVia(st, a, b, st', i, p)
  }

  ghost predicate Step(st: State, c: Call, st': State) {
    match c
    case Create(name, size) => CreateStep(st, st', name, size)
    case Open(name) => OpenStep(st, st', name)
    case Remove(name) => RemoveStep(st, st', name)
    case Close(p) => ClosedBy(st, st', p)
  }

  // ----- they keep the invariant

  lemma MemOkCreated(fs: Fs, handles: multiset<nat>, slots: seq<Slot>, s: nat, f: Data)
    requires MemOk(fs, handles) && s !in Opened(fs.mem)
    requires Listed(slots) == Listed(fs.slots) || Listed(slots) == Listed(fs.slots) + {s}
    ensures MemOk(Fs(slots, fs.disk[s := f], fs.mem), handles)
  {
    forall p | p in fs.mem ensures fs.mem[p].sector != s {
      assert fs.mem[p].sector in Opened(fs.mem);
    }
  }

  lemma EntriesDistinctCreated(slots: seq<Slot>, i: nat, name: string, s: nat)
    requires EntriesDistinct(slots) && Accepts(slots, name) && i < |slots| && s !in Listed(slots)
    ensures EntriesDistinct(slots[i := Entry(name, s)])
  {
    forall j | 0 <= j < |slots| && slots[j].Entry? ensures slots[j].name != name && slots[j].sector != s {
      assert !Found(slots, name, j) && slots[j].sector in Listed(slots);
    }
  }

  lemma UnusedIsDead(fs: Fs, used: set<nat>, system: set<nat>, s: nat)
    requires SectorsOk(fs.disk, Alive(fs), used, system) && s !in used
    ensures s !in Alive(fs)
  {
    assert s in fs.disk ==> s in Owned(fs.disk, s);
  }

  lemma EnteredKeeps(st: State, st': State, system: set<nat>, i: nat, name: string, s: nat, f: Data)
    requires Inv(st, system) && Entered(st, st', i, name, s, f)
    ensures Inv(st', system) && s !in Alive(st.fs) && Alive(st'.fs) == Alive(st.fs) + {s}
  {
    UnusedIsDead(st.fs, st.used, system, s);
    ListedAdd(st.fs.slots, i, name, s);
    EntriesDistinctCreated(st.fs.slots, i, name, s);
    MemOkCreated(st.fs, st.handles, st'.fs.slots, s, f);
    IsBorn(st.fs.disk, Alive(st.fs), s, f, st.used, system);
    assert Alive(st'.fs) == Alive(st.fs) + {s};
  }

  /** The data sectors stay marked, and nobody owns them. */
  lemma LeakedKeeps(st: State, st': State, system: set<nat>, name: string, s: nat, f: Data)
    requires Inv(st, system) && Leaked(st, st', name, s, f)
    ensures Inv(st', system) && s !in Alive(st.fs) && Alive(st'.fs) == Alive(st.fs)
  {
    UnusedIsDead(st.fs, st.used, system, s);
    MemOkCreated(st.fs, st.handles, st.fs.slots, s, f);
    DiskOfDead(st.fs.disk, Alive(st.fs), s, f, st.used, system);
    FewerAlive(st'.fs.disk, Alive(st.fs), Alive(st.fs), st.used, st'.used, system);
    assert Alive(st'.fs) == Alive(st.fs);
  }

  lemma MemOkCount(fs: Fs, handles: multiset<nat>, p: nat, mem: map<nat, Mem>, handles': multiset<nat>)
    requires MemOk(fs, handles) && p in fs.mem && handles'[p] > 0 && handles' == handles[p := handles'[p]]
    requires mem == fs.mem[p := fs.mem[p].(openCnt := handles'[p])]
    ensures MemOk(fs.(mem := mem), handles') && Opened(mem) == Opened(fs.mem)
  {
    OpenedSame(fs.mem, mem);
  }

  lemma MemOkOpened(fs: Fs, handles: multiset<nat>, p: nat, s: nat)
    requires MemOk(fs, handles) && p !in fs.mem && s in fs.disk && s in Listed(fs.slots) && s !in Opened(fs.mem)
    ensures MemOk(fs.(mem := fs.mem[p := Mem(s, 1, false, fs.disk[s])]), handles + multiset{p})
  {
    assert handles[p] == 0;
    forall q | q in fs.mem ensures fs.mem[q].sector != s {
      assert fs.mem[q].sector in Opened(fs.mem);
    }
  }

  /** Only the number of openers of `p` changes. */
  lemma CountKeeps(st: State, st': State, system: set<nat>, p: nat)
    requires Inv(st, system) && p in st.fs.mem && st'.handles[p] > 0 && st'.handles == st.handles[p := st'.handles[p]]
    requires st' == State(st.fs.(mem := st.fs.mem[p := st.fs.mem[p].(openCnt := st'.handles[p])]), st'.handles, st.used)
    ensures Inv(st', system) && Alive(st'.fs) == Alive(st.fs)
  {
    MemOkCount(st.fs, st.handles, p, st'.fs.mem, st'.handles);
    assert Alive(st'.fs) == Alive(st.fs);
  }

  lemma NewlyOpenedKeeps(st: State, st': State, system: set<nat>, i: nat, p: nat)
    requires Inv(st, system) && OpenedBy(st, st', i, p) && p !in st.fs.mem
    ensures Inv(st', system) && Alive(st'.fs) == Alive(st.fs)
  {
    var s := st.fs.slots[i].sector;
    assert s in Listed(st.fs.slots);
    MemOkOpened(st.fs, st.handles, p, s);
    OpenedAdd(st.fs.mem, p, st'.fs.mem[p]);
    assert Alive(st'.fs) == Alive(st.fs);
  }

  lemma ReopenedKeeps(st: State, st': State, system: set<nat>, i: nat, p: nat)
    requires Inv(st, system) && OpenedBy(st, st', i, p) && p in st.fs.mem
    ensures Inv(st', system) && Alive(st'.fs) == Alive(st.fs)
  {
    assert st'.handles == st.handles[p := st.handles[p] + 1];
    CountKeeps(st, st', system, p);
  }

  /** An inode that the directory lists is not removed. */
  lemma ListedNotRemoved(fs: Fs, handles: multiset<nat>, i: nat, p: nat)
    requires MemOk(fs, handles) && i < |fs.slots| && fs.slots[i].Entry? && p in fs.mem
      && fs.mem[p].sector == fs.slots[i].sector
    ensures !fs.mem[p].removed
  {
    assert fs.slots[i].sector in Listed(fs.slots);
  }

  lemma OpenedByKeeps(st: State, st': State, system: set<nat>, i: nat, p: nat)
    requires Inv(st, system) && OpenedBy(st, st', i, p)
    ensures Inv(st', system) && Alive(st'.fs) == Alive(st.fs) && p in st'.fs.mem && !st'.fs.mem[p].removed
  {
    if p in st.fs.mem {
      assert !st.fs.mem[p].removed by { ListedNotRemoved(st.fs, st.handles, i, p); }
      ReopenedKeeps(st, st', system, i, p);
    } else {
      NewlyOpenedKeeps(st, st', system, i, p);
    }
  }

  lemma MemOkErased(fs: Fs, fs': Fs, handles: multiset<nat>, p: nat)
    requires MemOk(fs, handles) && p in fs.mem && Listed(fs'.slots) == Listed(fs.slots) - {fs.mem[p].sector}
    requires fs'.mem == fs.mem[p := fs.mem[p].(removed := true)] && fs'.disk == fs.disk
    ensures MemOk(fs', handles) && Opened(fs'.mem) == Opened(fs.mem) && fs.mem[p].sector in Opened(fs.mem)
  {
    hide Opened;
    OpenedSame(fs.mem, fs'.mem);
    OpenedHas(fs.mem, p);
  }

  lemma OpenedHas(mem: map<nat, Mem>, p: nat)
    requires p in mem
    ensures mem[p].sector in Opened(mem)
  {
  }

  lemma ErasedKeeps(st: State, st': State, system: set<nat>, i: nat, p: nat)
    requires Inv(st, system) && Erased(st, st', i, p)
    ensures Inv(st', system) && Alive(st'.fs) == Alive(st.fs)
  {
    hide Listed, MemOk, Opened, SectorsOk;
    ListedRemove(st.fs.slots, i);
    MemOkErased(st.fs, st'.fs, st.handles, p);
    assert Alive(st'.fs) == Alive(st.fs);
  }

  lemma MemOkClosed(fs: Fs, handles: multiset<nat>, p: nat)
    requires MemOk(fs, handles) && p in handles && fs.mem[p].openCnt == 1
    ensures MemOk(fs.(mem := fs.mem - {p}), handles - multiset{p})
    ensures Opened(fs.mem - {p}) == Opened(fs.mem) - {fs.mem[p].sector} && fs.mem[p].sector in Opened(fs.mem)
  {
    OpenedRemove(fs.mem, p);
  }

  lemma FewerOpenersKeeps(st: State, st': State, system: set<nat>, p: nat)
    requires Inv(st, system) && FewerOpeners(st, st', p)
    ensures Inv(st', system) && Alive(st'.fs) == Alive(st.fs)
  {
    assert st.handles - multiset{p} == st.handles[p := st.handles[p] - 1];
    CountKeeps(st, st', system, p);
  }

  lemma LastClosedKeeps(st: State, st': State, system: set<nat>, p: nat)
    requires Inv(st, system) && LastClosed(st, st', p)
    ensures Inv(st', system)
    ensures Alive(st'.fs) == if st.fs.mem[p].removed then Alive(st.fs) - {st.fs.mem[p].sector} else Alive(st.fs)
  {
    var s := st.fs.mem[p].sector;
    MemOkClosed(st.fs, st.handles, p);
    if st.fs.mem[p].removed {
      assert Alive(st'.fs) == Alive(st.fs) - {s};
      Dies(st.fs.disk, Alive(st.fs), s, st.used, system);
    } else {
      assert Alive(st'.fs) == Alive(st.fs);
    }
  }

  lemma ClosedByKeeps(st: State, st': State, system: set<nat>, p: nat)
    requires Inv(st, system) && ClosedBy(st, st', p)
    ensures Inv(st', system)
  {
    if FewerOpeners(st, st', p) {
      FewerOpenersKeeps(st, st', system, p);
    } else {
      LastClosedKeeps(st, st', system, p);
    }
  }

  /** Every call keeps the invariant. */
  lemma StepKeeps(st: State, c: Call, st': State, system: set<nat>)
    requires Inv(st, system) && Step(st, c, st')
    ensures Inv(st', system)
  {
    if st' != st {
      match c
      case Create(name, size) =>
        if i, s, f :| Entered(st, st', i, name, s, f) {
          EnteredKeeps(st, st', system, i, name, s, f);
        } else {
          var s, f :| Leaked(st, st', name, s, f);
          LeakedKeeps(st, st', system, name, s, f);
        }
      case Open(name) =>
        var i, p :| Found(st.fs.slots, name, i) && OpenedBy(st, st', i, p);
        OpenedByKeeps(st, st', system, i, p);
      case Remove(name) =>
        var i, p, a, b :| Found(st.fs.slots, name, i) && RemoveVia(st, a, b, st', i, p);
        OpenedByKeeps(st, a, system, i, p);
        ErasedKeeps(a, b, system, i, p);
        ClosedByKeeps(b, st', system, p);
      case Close(p) =>
        ClosedByKeeps(st, st', system, p);
    }
  }

  /** A create that fails because the directory refuses the name leaves the free map as it
      was exactly when the file was to be empty. */
  lemma LeakedIffNotEmpty(st: State, st': State, name: string, s: nat, f: Data)
    requires Leaked(st, st', name, s, f)
    ensures st'.used == st.used <==> f.length == 0
  {
    if f.length > 0 {
      assert f.start in Run(f);
    } else {
      assert Run(f) == {};
    }
  }

  /** On any freshly formatted disk, creating a file with an empty name can take any free sector
      for its inode and any free run for its data; it fails and leaves the run marked. */
  lemma CreateCanLeak(slots: seq<Slot>, system: set<nat>, s: nat, f: Data) returns (st: State, st': State)
    requires (forall i :: 0 <= i < |slots| ==> slots[i].Vacant?) && FREE_MAP_SECTOR in system
    requires s !in system && s !in Run(f) && Run(f) !! system && f.length > 0
    ensures Formatted(st, system) && Step(st, Create("", f.length), st') && st'.used == st.used + Run(f) != st.used
  {
    st := State(Fs(slots, map[], map[]), multiset{}, system);
    st' := State(st.fs.(disk := st.fs.disk[s := f]), st.handles, st.used + Run(f));
    assert f.start in Run(f);
    assert Leaked(st, st', "", s, f);
  }

  // ----- sectors are freed exactly when their inode dies

  /** From `st` to `st'`, the inodes `dead` have died and given back their sectors; every
      other inode is as it was, and no other sector was given back. */
  ghost predicate Deaths(st: State, st': State, dead: set<nat>) {
    && dead == Alive(st.fs) - Alive(st'.fs)
    && (forall s :: s in Alive(st.fs) ==> s in st.fs.disk && s in st'.fs.disk && st'.fs.disk[s] == st.fs.disk[s])
    && (forall s :: s in dead ==> Owned(st.fs.disk, s) !! st'.used)
    && (forall x :: x in st.used && x !in st'.used ==> exists s :: s in dead && x in Owned(st.fs.disk, s))
  }

  lemma NoDeaths(st: State, st': State, system: set<nat>)
    requires Inv(st, system) && Alive(st.fs) <= Alive(st'.fs) && st.used <= st'.used
    requires forall s :: s in Alive(st.fs) ==> s in st'.fs.disk && st'.fs.disk[s] == st.fs.disk[s]
    ensures Deaths(st, st', {})
  {
    forall s | s in Alive(st.fs) ensures s in st.fs.disk {
    }
  }

  lemma OneDeath(st: State, st': State, system: set<nat>, s: nat)
    requires SectorsOk(st.fs.disk, Alive(st.fs), st.used, system) && s in Alive(st.fs) && s in st.fs.disk
    requires st'.fs.disk == st.fs.disk && Alive(st'.fs) == Alive(st.fs) - {s}
      && st'.used == st.used - Owned(st.fs.disk, s)
    ensures Deaths(st, st', {s})
  {
    forall t | t in Alive(st.fs) ensures t in st.fs.disk {
    }
    forall x | x in st.used && x !in st'.used ensures exists t :: t in {s} && x in Owned(st.fs.disk, t) {
      assert s in {s} && x in Owned(st.fs.disk, s);
    }
  }

  lemma CloseDeaths(st: State, st': State, system: set<nat>, p: nat)
    requires Inv(st, system) && LastClosed(st, st', p)
    ensures Deaths(st, st', if st.fs.mem[p].removed then {st.fs.mem[p].sector} else {})
  {
    var s := st.fs.mem[p].sector;
    if st.fs.mem[p].removed {
      assert Alive(st'.fs) == Alive(st.fs) - {s} && s in Alive(st.fs) by {
        LastClosedKeeps(st, st', system, p);
        assert s in Opened(st.fs.mem);
      }
      OneDeath(st, st', system, s);
    } else {
      assert Alive(st'.fs) == Alive(st.fs) by {
        LastClosedKeeps(st, st', system, p);
      }
      forall t | t in Alive(st.fs) ensures t in st.fs.disk {
      }
      NoDeaths(st, st', system);
    }
  }

  lemma ClosedByDeaths(st: State, st': State, system: set<nat>, p: nat) returns (dead: set<nat>)
    requires Inv(st, system) && ClosedBy(st, st', p)
    ensures Deaths(st, st', dead)
  {
    if FewerOpeners(st, st', p) {
      FewerOpenersKeeps(st, st', system, p);
      forall t | t in Alive(st.fs) ensures t in st.fs.disk {
      }
      NoDeaths(st, st', system);
      dead := {};
    } else {
      CloseDeaths(st, st', system, p);
      dead := if st.fs.mem[p].removed then {st.fs.mem[p].sector} else {};
    }
  }

  lemma CreateDeaths(st: State, st': State, system: set<nat>, name: string, size: nat)
    requires Inv(st, system) && CreateStep(st, st', name, size)
    ensures Deaths(st, st', {})
  {
    forall s | s in Alive(st.fs) ensures s in st.fs.disk {
    }
    if i, s, f :| Entered(st, st', i, name, s, f) {
      EnteredKeeps(st, st', system, i, name, s, f);
    } else if s, f :| Leaked(st, st', name, s, f) {
      LeakedKeeps(st, st', system, name, s, f);
    }
    NoDeaths(st, st', system);
  }

  lemma RemoveDeaths(st: State, a: State, b: State, st': State, system: set<nat>, i: nat, p: nat)
      returns (dead: set<nat>)
    requires Inv(st, system) && RemoveVia(st, a, b, st', i, p)
    ensures Deaths(st, st', dead)
  {
    OpenedByKeeps(st, a, system, i, p);
    ErasedKeeps(a, b, system, i, p);
    dead := ClosedByDeaths(b, st', system, p);
  }

  /** The sectors of an inode are given back in the very call in which it ceases to be
      alive, that is to be listed or open; in no other call, and no others with them. */
  lemma FreedAtDeath(st: State, c: Call, st': State, system: set<nat>) returns (dead: set<nat>)
    requires Inv(st, system) && Step(st, c, st')
    ensures Deaths(st, st', dead)
  {
    dead := {};
    assert forall s :: s in Alive(st.fs) ==> s in st.fs.disk;
    if st' == st {
      NoDeaths(st, st', system);
    } else {
      match c
      case Create(name, size) =>
        CreateDeaths(st, st', system, name, size);
      case Open(name) =>
        var i, p :| Found(st.fs.slots, name, i) && OpenedBy(st, st', i, p);
        OpenedByKeeps(st, st', system, i, p);
        NoDeaths(st, st', system);
      case Remove(name) =>
        var i, p, a, b :| Found(st.fs.slots, name, i) && RemoveVia(st, a, b, st', i, p);
        dead := RemoveDeaths(st, a, b, st', system, i, p);
      case Close(p) =>
        dead := ClosedByDeaths(st, st', system, p);
    }
  }

  // ----- runs

  const FREE_MAP_SECTOR: nat := 0
  const ROOT_DIR_SECTOR: nat := 1

  /** Just formatted: no entries, no open inodes, the used sectors are the system's. */
  ghost predicate Formatted(st: State, system: set<nat>) {
    && (forall i :: 0 <= i < |st.fs.slots| ==> st.fs.slots[i].Vacant?)
    && st.fs.mem == map[] && st.handles == multiset{} && st.used == system && FREE_MAP_SECTOR in system
  }

  ghost predicate IsRun(run: seq<State>, calls: seq<Call>) {
    |run| == |calls| + 1 && forall n :: 0 <= n < |calls| ==> Step(run[n], calls[n], run[n + 1])
  }

  /** So it holds throughout every run of calls. */
  lemma {:induction false} RunKeeps(run: seq<State>, calls: seq<Call>, system: set<nat>, n: nat)
    requires IsRun(run, calls) && Formatted(run[0], system) && n < |run|
    ensures Inv(run[n], system)
  {
    if n == 0 {
      assert Alive(run[0].fs) == {};
    } else {
      RunKeeps(run, calls, system, n - 1);
      StepKeeps(run[n - 1], calls[n - 1], run[n], system);
    }
  }

  // ----- files do not see each other's writes

  lemma LiveInode(st: State, system: set<nat>, p: nat)
    requires Inv(st, system) && p in st.fs.mem
    ensures var s := st.fs.mem[p].sector; s in Alive(st.fs) && s in st.fs.disk && st.fs.disk[s] == st.fs.mem[p].data
  {
  }

  /** Two live inodes own different sectors, so the runs of their files lie apart. */
  lemma RunsApart(disk: map<nat, Data>, alive: set<nat>, used: set<nat>, system: set<nat>, s: nat, t: nat)
    requires SectorsOk(disk, alive, used, system) && s in alive && t in alive && s != t
    ensures s in disk && t in disk && t !in Run(disk[s]) && Run(disk[s]) !! Run(disk[t])
  {
    assert Owned(disk, s) !! Owned(disk, t);
    assert t in Owned(disk, t);
  }

  lemma OtherRunSame(before: Sectors, after: Sectors, f: Data, g: Data)
    requires OnDisk(before, g) && WholeSectors(after) && g.length > 0 && Run(f) !! Run(g)
    requires OnlySectors(before, after, f.start, BytesToSectors(f.length))
    ensures OnDisk(after, g) && Contents(after, g) == Contents(before, g)
  {
    if f.length == 0 {
      assert after == before;
    } else {
      assert f.start in Run(f) && g.start in Run(g);
      OtherFileSame(before, after, f, g);
    }
  }

  lemma RunOnDisk(sectors: Sectors, g: Data, used: set<nat>)
    requires WholeSectors(sectors) && Run(g) <= used && g.length > 0 && forall u :: u in used ==> u < |sectors|
    ensures OnDisk(sectors, g)
  {
    assert g.start + BytesToSectors(g.length) - 1 in Run(g);
  }

  /** A write through the open inode `p` changes sectors of its own run only.  In every state of
      every run of calls, such a write changes no sector of the system, no inode sector of a
      live inode, and no byte of any other live file. */
  lemma WritesStayApart(run: seq<State>, calls: seq<Call>, system: set<nat>, n: nat, p: nat, t: nat,
      before: Sectors, after: Sectors)
    requires IsRun(run, calls) && Formatted(run[0], system) && n < |run|
    requires p in run[n].fs.mem && t in Alive(run[n].fs)
    requires WholeSectors(before) && WholeSectors(after) && forall u :: u in run[n].used ==> u < |before|
    requires var f := run[n].fs.mem[p].data; OnlySectors(before, after, f.start, BytesToSectors(f.length))
    ensures forall u :: u in system ==> u < |before| == |after| && after[u] == before[u]
    ensures t < |before| && after[t] == before[t] && t in run[n].fs.disk
    ensures var g := run[n].fs.disk[t]; t != run[n].fs.mem[p].sector && g.length > 0 ==>
      OnDisk(before, g) && OnDisk(after, g) && Contents(after, g) == Contents(before, g)
  {
    RunKeeps(run, calls, system, n);
    var st := run[n];
    LiveInode(st, system, p);
    var s, f := st.fs.mem[p].sector, st.fs.mem[p].data;
    OthersUnmarked(st.fs.disk, Alive(st.fs), st.used, system, s, t);
    if t != s && st.fs.disk[t].length > 0 {
      RunsApart(st.fs.disk, Alive(st.fs), st.used, system, s, t);
      RunOnDisk(before, st.fs.disk[t], st.used);
      OtherRunSame(before, after, f, st.fs.disk[t]);
    }
  }

  lemma OthersUnmarked(disk: map<nat, Data>, alive: set<nat>, used: set<nat>, system: set<nat>, s: nat, t: nat)
    requires SectorsOk(disk, alive, used, system) && s in alive && t in alive
    ensures s in disk && t in disk && t in used && Run(disk[t]) <= used && system <= used
    ensures Run(disk[s]) !! system && t !in Run(disk[s])
  {
    assert Owned(disk, s) !! system && t in Owned(disk, t) && Run(disk[t]) <= Owned(disk, t) <= used;
    if s != t {
      RunsApart(disk, alive, used, system, s, t);
    }
  }

  // ----- the free map

  /** Some `cnt` sectors in a row are free. */
  ghost predicate HasRun(cnt: nat, all: set<nat>, used: set<nat>) {
    exists p: nat :: FreeRun(p, cnt, all, used)
  }

  ghost predicate LowestRun(p: nat, cnt: nat, all: set<nat>, used: set<nat>) {
    FreeRun(p, cnt, all, used) && forall q: nat :: q < p ==> !FreeRun(q, cnt, all, used)
  }

  /** What bitmap_scan finds in the free map. */
  lemma ScanMeans(v: seq<bool>, cnt: nat, r: Option<nat>)
    requires r.Some? ==> Group(v, r.value, cnt, false) && NoGroup(v, 0, r.value, cnt, false)
    requires r.None? ==> NoGroup(v, 0, |v| + 1, cnt, false)
    ensures r.Some? <==> HasRun(cnt, Pages(0, |v|), UsedPages(0, v))
    ensures r.Some? ==> LowestRun(r.value, cnt, Pages(0, |v|), UsedPages(0, v))
  {
    var all, used := Pages(0, |v|), UsedPages(0, v);
    if cnt == 0 {
      assert Group(v, 0, 0, false) && FreeRun(0, 0, all, used);
    } else {
      NoLowerRun(0, v, if r.Some? then r.value else |v| + 1, cnt);
      if r.Some? {
        FreeRunIsGroup(0, v, r.value, cnt);
        assert FreeRun(r.value, cnt, all, used);
      }
    }
  }

  class FreeMap {
    const bits: Bitmap

    ghost predicate Valid()
      reads bits.bits
    {
      bits.Valid()
    }

    ghost function Used(): set<nat>
      requires Valid()
      reads bits.bits
    {
      UsedPages(0, bits.View())
    }

    ghost function All(): set<nat> {
      Pages(0, bits.bitCnt)
    }

    /** free_map_init. */
    constructor (sectors: nat)
      requires sectors > ROOT_DIR_SECTOR
      ensures Valid() && bits.bitCnt == sectors && fresh(bits) && fresh(bits.bits)
      ensures Used() == {FREE_MAP_SECTOR, ROOT_DIR_SECTOR}
    {
      bits := new Bitmap(sectors);
      new;
      bits.Mark(FREE_MAP_SECTOR);
      bits.Mark(ROOT_DIR_SECTOR);
    }

    /** free_map_allocate: the lowest run of `cnt` free sectors, if there is one and the map
        reaches its file, as `written` says. */
    method Allocate(cnt: nat, written: bool) returns (r: Option<nat>)
      requires Valid()
      modifies bits.bits
      ensures Valid()
      ensures r.None? ==> Used() == old(Used())
      ensures r.Some? ==> Pages(r.value, cnt) !! old(Used()) && Used() == old(Used()) + Pages(r.value, cnt)
      ensures r.Some? ==> r.value + cnt <= bits.bitCnt
      ensures r.Some? <==> written && HasRun(cnt, All(), old(Used()))
      ensures r.Some? ==> LowestRun(r.value, cnt, All(), old(Used()))
    {
      ghost var v := bits.View();
      r := bits.ScanAndFlip(0, cnt, false);
      ScanMeans(v, cnt, r);
      if r.Some? {
        FilledPages(0, v, r.value, cnt, true);
        if !written {
          ghost var v1 := bits.View();
          bits.SetMultiple(r.value, cnt, false);
          FilledPages(0, v1, r.value, cnt, false);
          assert Pages(r.value, cnt) !! UsedPages(0, v);
          r := None;
        }
      }
    }

    /** free_map_release of a single sector. */
    method ReleaseOne(sector: nat)
      requires Valid() && sector in Used()
      modifies bits.bits
      ensures Valid() && Used() == old(Used()) - {sector}
    {
      assert Pages(sector, 1) == {sector};
      Release(sector, 1);
    }

    /** free_map_release: all the sectors must be in use. */
    method Release(sector: nat, cnt: nat)
      requires Valid() && Pages(sector, cnt) <= Used()
      modifies bits.bits
      ensures Valid() && Used() == old(Used()) - Pages(sector, cnt)
    {
      if cnt > 0 {
        assert sector + cnt - 1 in Pages(sector, cnt);
        FilledPages(0, bits.View(), sector, cnt, false);
        bits.SetMultiple(sector, cnt, false);
      }
    }
  }

  // ----- the file system

  /** What malloc grants to a create, and whether its two free-map updates reach the disk. */
  datatype Luck = Luck(dir: bool, inode: bool, first: bool, second: bool)

  /** A file of `size` bytes can be made: every allocation and write goes well, a sector is free
      for its inode, and with the lowest one taken there is a run for its data. */
  ghost predicate CanMake(m: Luck, size: nat, all: set<nat>, used: set<nat>) {
    && m.dir && m.first && m.inode && m.second
    && exists s: nat :: LowestRun(s, 1, all, used) && HasRun(BytesToSectors(size), all, used + {s})
  }

  /** The name has an entry whose inode is open or can be brought into memory. */
  ghost predicate CanOpen(slots: seq<Slot>, mem: map<nat, Mem>, name: string, memory: bool) {
    exists i: nat :: Found(slots, name, i) && (memory || slots[i].sector in Opened(mem))
  }

  lemma OneEntry(slots: seq<Slot>, mem: map<nat, Mem>, name: string, i: nat, memory: bool)
    requires EntriesDistinct(slots) && Found(slots, name, i)
    ensures CanOpen(slots, mem, name, memory) <==> memory || slots[i].sector in Opened(mem)
  {
    if CanOpen(slots, mem, name, memory) {
      var j: nat :| Found(slots, name, j) && (memory || slots[j].sector in Opened(mem));
      assert j == i;
    }
  }

  /** `p` is held by somebody, and free_map_release would accept its sectors. */
  ghost predicate CanClose(st: State, p: nat) {
    && p in st.handles && p in st.fs.mem && st.fs.mem[p].openCnt > 0
    && st.fs.mem[p].sector in st.used - Run(st.fs.mem[p].data) && Run(st.fs.mem[p].data) <= st.used
  }

  /** The system in memory, with the history that led to its present state. */
  class FileSystem {
    const freeMap: FreeMap
    var slots: seq<Slot>
    var disk: map<nat, Data>
    var mem: map<nat, Mem>
    ghost var handles: multiset<nat>
    ghost var run: seq<State>
    ghost var calls: seq<Call>
    ghost const system: set<nat>

    ghost function S(): State
      requires freeMap.Valid()
      reads this, freeMap.bits.bits
    {
      State(Fs(slots, disk, mem), handles, freeMap.Used())
    }

    /** The present state ends a run of calls. */
    ghost predicate Valid()
      reads this, freeMap.bits.bits
    {
      freeMap.Valid() && IsRun(run, calls) && Formatted(run[0], system) && run[|calls|] == S()
    }

    constructor (freeMap: FreeMap, entries: nat)
      requires freeMap.Valid() && FREE_MAP_SECTOR in freeMap.Used()
      ensures Valid() && this.freeMap == freeMap && system == freeMap.Used() && calls == []
      ensures slots == seq(entries, _ => Vacant)
    {
      this.freeMap := freeMap;
      slots, disk, mem := seq(entries, _ => Vacant), map[], map[];
      handles, calls, system := multiset{}, [], freeMap.Used();
      new;
      run := [S()];
    }

    ghost method Record(c: Call)
      requires freeMap.Valid() && IsRun(run, calls) && Formatted(run[0], system) && Step(run[|calls|], c, S())
      modifies this`run, this`calls
      ensures Valid() && calls == old(calls) + [c] && S() == old(S())
    {
      run, calls := run + [S()], calls + [c];
    }

    /** lookup. */
    method Lookup(name: string) returns (r: Option<nat>)
      ensures r.Some? ==> Found(slots, name, r.value)
      ensures r.None? ==> forall i :: 0 <= i < |slots| ==> !Found(slots, name, i)
    {
      for i := 0 to |slots|
        invariant forall j :: 0 <= j < i ==> !Found(slots, name, j)
      {
        if slots[i].Entry? && slots[i].name == name {
          return Some(i);
        }
      }
      return None;
    }

    /** The loop of inode_open over the open inodes, in any order. */
    method FindOpen(sector: nat) returns (r: Option<nat>)
      ensures r.Some? ==> r.value in mem && mem[r.value].sector == sector
      ensures r.None? ==> sector !in Opened(mem)
    {
      var rest := mem.Keys;
      while rest != {}
        invariant rest <= mem.Keys && forall p :: p in mem && p !in rest ==> mem[p].sector != sector
        decreases rest
      {
        var p :| p in rest;
        if mem[p].sector == sector {
          return Some(p);
        }
        rest := rest - {p};
      }
      return None;
    }

    /** inode_open on the entry at slot `i`.  `memory` is the address malloc would
        return for a new in-memory inode. */
    method InodeOpen(i: nat, memory: Option<nat>) returns (r: Option<nat>)
      requires freeMap.Valid() && i < |slots| && slots[i].Entry? && slots[i].sector in disk
      requires memory.Some? ==> memory.value !in mem
      modifies this`mem, this`handles
      ensures r.Some? ==> OpenedBy(old(S()), S(), i, r.value)
      ensures r.None? ==> S() == old(S())
      ensures r.None? <==> memory.None? && slots[i].sector !in Opened(old(mem))
    {
      var sector := slots[i].sector;
      r := FindOpen(sector);
      if r.Some? {
        var p := r.value;
        mem := mem[p := mem[p].(openCnt := mem[p].openCnt + 1)];
        handles := handles + multiset{p};
      } else if memory.Some? {
        var p := memory.value;
        r := memory;
        mem := mem[p := Mem(sector, 1, false, disk[sector])];
        handles := handles + multiset{p};
      }
    }

    /** inode_close by a holder of the in-memory inode `p`. */
    method InodeClose(p: nat)
      requires freeMap.Valid() && CanClose(S(), p)
      modifies this`mem, this`handles, freeMap.bits.bits
      ensures freeMap.Valid() && ClosedBy(old(S()), S(), p)
    {
      var m := mem[p];
      handles := handles - multiset{p};
      if m.openCnt - 1 == 0 {
        mem := mem - {p};
        if m.removed {
          assert Pages(m.sector, 1) == {m.sector};
          freeMap.Release(m.sector, 1);
          freeMap.Release(m.data.start, BytesToSectors(m.data.length));
          assert freeMap.Used() == old(freeMap.Used()) - ({m.sector} + Run(m.data));
        }
        assert LastClosed(old(S()), S(), p);
      } else {
        mem := mem[p := m.(openCnt := m.openCnt - 1)];
        assert FewerOpeners(old(S()), S(), p);
      }
    }

    /** inode_create: `made` is the new inode. */
    method InodeCreate(sector: nat, size: nat, m: Luck) returns (ok: bool, ghost made: Data)
      requires freeMap.Valid()
      modifies this`disk, freeMap.bits.bits
      ensures freeMap.Valid() && made.length == size
      ensures ok ==> disk == old(disk)[sector := made]
      ensures ok ==> Run(made) !! old(freeMap.Used()) && freeMap.Used() == old(freeMap.Used()) + Run(made)
      ensures !ok ==> disk == old(disk) && freeMap.Used() == old(freeMap.Used())
      ensures ok <==> m.inode && m.second && HasRun(BytesToSectors(size), freeMap.All(), old(freeMap.Used()))
    {
      made := Data(0, size);
      ok := false;
      if m.inode {
        var start := freeMap.Allocate(BytesToSectors(size), m.second);
        if start.Some? {
          made := Data(start.value, size);
          disk := disk[sector := Data(start.value, size)];
          ok := true;
        }
      }
    }

    /** dir_add. */
    method DirAdd(name: string, sector: nat) returns (ok: bool, ghost i: nat)
      modifies this`slots
      ensures ok <==> Accepts(old(slots), name)
      ensures ok ==> i < old(|slots|) && old(slots)[i].Vacant? && slots == old(slots)[i := Entry(name, sector)]
      ensures !ok ==> slots == old(slots)
    {
      i := 0;
      if name == [] || |name| > NAME_MAX {
        return false, 0;
      }
      var there := Lookup(name);
      if there.Some? {
        return false, 0;
      }
      var k := 0;
      while k < |slots| && slots[k].Entry?
        invariant k <= |slots| && forall j :: 0 <= j < k ==> slots[j].Entry?
      {
        k := k + 1;
      }
      if k == |slots| {
        return false, 0;
      }
      assert slots[k] in slots;
      slots := slots[k := Entry(name, sector)];
      return true, k;
    }

    /** filesys_create.  It succeeds exactly when the inode can be made, as `made` tells, and
        the directory accepts the name. */
    method Create(name: string, size: nat, m: Luck) returns (ok: bool, ghost made: bool)
      requires Valid()
      modifies this`slots, this`disk, this`run, this`calls, freeMap.bits.bits
      ensures Valid() && calls == old(calls) + [Call.Create(name, size)]
      ensures made <==> CanMake(m, size, freeMap.All(), old(freeMap.Used()))
      ensures ok <==> made && Accepts(old(slots), name)
      ensures ok <==> exists i: nat :: Found(slots, name, i) && !Found(old(slots), name, i)
      ensures !made ==> S() == old(S())
    {
      assert FREE_MAP_SECTOR in freeMap.Used() by { RunKeeps(run, calls, system, |calls|); }
      ghost var i, s, f;
      ok, made, i, s, f := CreateFile(name, size, m);
      assert ok ==> Found(slots, name, i) && !Found(old(slots), name, i);
      Record(Call.Create(name, size));
    }

    /** The sector for an inode and, when that goes well, the inode in it. */
    method MakeInode(size: nat, m: Luck) returns (sector: Option<nat>, ok: bool, ghost f: Data)
      requires freeMap.Valid()
      modifies this`disk, freeMap.bits.bits
      ensures freeMap.Valid() && f.length == size
      ensures sector.Some? ==> sector.value !in old(freeMap.Used())
      ensures ok ==> sector.Some? && sector.value !in Run(f) && Run(f) !! old(freeMap.Used())
      ensures disk == if ok then old(disk)[sector.value := f] else old(disk)
      ensures freeMap.Used() == old(freeMap.Used()) + (if sector.Some? then {sector.value} else {})
        + if ok then Run(f) else {}
      ensures ok <==> CanMake(m, size, freeMap.All(), old(freeMap.Used()))
    {
      sector, ok, f := None, false, Data(0, size);
      if m.dir {
        sector := freeMap.Allocate(1, m.first);
        if sector.Some? {
          assert Pages(sector.value, 1) == {sector.value};
          ok, f := InodeCreate(sector.value, size, m);
        }
      }
    }

    method CreateFile(name: string, size: nat, m: Luck)
      returns (ok: bool, ghost made: bool, ghost i: nat, ghost s: nat, ghost f: Data)
      requires freeMap.Valid() && FREE_MAP_SECTOR in freeMap.Used()
      modifies this`slots, this`disk, freeMap.bits.bits
      ensures freeMap.Valid() && f.length == size
      ensures ok ==> made && Entered(old(S()), S(), i, name, s, f)
      ensures !ok && made ==> Leaked(old(S()), S(), name, s, f)
      ensures !made ==> S() == old(S())
      ensures made <==> CanMake(m, size, freeMap.All(), old(freeMap.Used()))
      ensures ok <==> made && Accepts(old(slots), name)
    {
      hide Accepts, Found, Pages, UsedPages;
      ok, made, i, s, f := false, false, 0, 0, Data(0, size);
      var sector, created;
      sector, created, f := MakeInode(size, m);
      if sector.Some? {
        s, made := sector.value, created;
        if created {
          ok, i := DirAdd(name, sector.value);
        }
        if !ok && sector.value != FREE_MAP_SECTOR {
          freeMap.ReleaseOne(sector.value);
        }
      }
    }

    /** filesys_open, up to the in-memory inode. */
    method Open(name: string, dirMemory: bool, memory: Option<nat>) returns (r: Option<nat>)
      requires Valid() && (memory.Some? ==> memory.value !in mem)
      modifies this`mem, this`handles, this`run, this`calls
      ensures Valid() && calls == old(calls) + [Call.Open(name)]
      ensures r.Some? ==> handles == old(handles) + multiset{r.value} && r.value in mem
      ensures r.Some? ==> exists i: nat :: Found(slots, name, i) && slots[i].sector == mem[r.value].sector
      ensures r.None? ==> S() == old(S())
      ensures r.Some? <==> dirMemory && CanOpen(old(slots), old(mem), name, memory.Some?)
    {
      r := None;
      if dirMemory {
        var i := Lookup(name);
        if i.Some? {
          assert slots[i.value].sector in disk by {
            RunKeeps(run, calls, system, |calls|);
            EntryOnDisk(S(), system, i.value);
          }
          assert EntriesDistinct(slots) by { RunKeeps(run, calls, system, |calls|); }
          OneEntry(slots, mem, name, i.value, memory.Some?);
          r := InodeOpen(i.value, memory);
        }
      }
      Record(Call.Open(name));
    }

    /** filesys_remove. */
    method Remove(name: string, dirMemory: bool, memory: Option<nat>) returns (ok: bool)
      requires Valid() && (memory.Some? ==> memory.value !in mem)
      modifies this`slots, this`mem, this`handles, this`run, this`calls, freeMap.bits.bits
      ensures Valid() && calls == old(calls) + [Call.Remove(name)]
      ensures ok ==> exists i: nat :: Found(old(slots), name, i) && slots == old(slots)[i := Vacant]
      ensures !ok ==> S() == old(S())
      ensures ok <==> dirMemory && CanOpen(old(slots), old(mem), name, memory.Some?)
    {
      ok := false;
      if dirMemory {
        var i := Lookup(name);
        if i.Some? {
          assert slots[i.value].sector in disk by {
            RunKeeps(run, calls, system, |calls|);
            EntryOnDisk(S(), system, i.value);
          }
          assert EntriesDistinct(slots) by { RunKeeps(run, calls, system, |calls|); }
          OneEntry(slots, mem, name, i.value, memory.Some?);
          ok := RemoveFile(i.value, memory);
        }
      }
      Record(Call.Remove(name));
    }

    /** dir_remove on the entry at slot `i`. */
    method RemoveFile(i: nat, memory: Option<nat>) returns (ok: bool)
      requires Valid() && (memory.Some? ==> memory.value !in mem)
      requires i < |slots| && slots[i].Entry? && slots[i].sector in disk
      modifies this`slots, this`mem, this`handles, freeMap.bits.bits
      ensures freeMap.Valid() && (ok <==> memory.Some? || old(slots)[i].sector in Opened(old(mem)))
      ensures !ok ==> S() == old(S())
      ensures ok ==> slots == old(slots)[i := Vacant] && exists p, a, b :: RemoveVia(old(S()), a, b, S(), i, p)
    {
      var p := InodeOpen(i, memory);
      if p.None? {
        return false;
      }
      ghost var a := S();
      slots := slots[i := Vacant];
      mem := mem[p.value := mem[p.value].(removed := true)];
      ghost var b := S();
      assert CanClose(b, p.value) by {
        RunKeeps(run, calls, system, |calls|);
        MayClose(old(S()), a, b, system, i, p.value);
      }
      InodeClose(p.value);
      assert RemoveVia(old(S()), a, b, S(), i, p.value);
      ok := true;
    }

    /** file_close by a holder of `p`. */
    method Close(p: nat)
      requires Valid() && p in handles
      modifies this`mem, this`handles, this`run, this`calls, freeMap.bits.bits
      ensures Valid() && calls == old(calls) + [Call.Close(p)] && handles == old(handles) - multiset{p}
    {
      assert CanClose(S(), p) by {
        RunKeeps(run, calls, system, |calls|);
        OpenIsUsed(S(), system, p);
      }
      InodeClose(p);
      Record(Call.Close(p));
    }
  }

  lemma EntryOnDisk(st: State, system: set<nat>, i: nat)
    requires Inv(st, system) && i < |st.fs.slots| && st.fs.slots[i].Entry?
    ensures st.fs.slots[i].sector in st.fs.disk
  {
    assert st.fs.slots[i].sector in Alive(st.fs);
  }

  lemma OpenIsUsed(st: State, system: set<nat>, p: nat)
    requires Inv(st, system) && p in st.handles
    ensures CanClose(st, p)
  {
    assert st.fs.mem[p].sector in Alive(st.fs);
  }

  lemma MayClose(st: State, a: State, b: State, system: set<nat>, i: nat, p: nat)
    requires Inv(st, system) && OpenedBy(st, a, i, p) && Erased(a, b, i, p)
    ensures CanClose(b, p)
  {
    OpenedByKeeps(st, a, system, i, p);
    ErasedKeeps(a, b, system, i, p);
    OpenIsUsed(b, system, p);
  }
}
