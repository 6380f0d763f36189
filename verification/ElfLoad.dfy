/** Loading one segment of an executable: validate_segment, the PT_LOAD case of load, and
    load_segment of userprog/process.c.  Program headers follow pages 2-2 to 2-4 of the
    ELF specification; all their fields are 32 bits wide. */
module ElfLoad {
  import opened Bits
  import opened Bytes
  import Inode
  import opened Machine
  import opened PageDir
  import opened Wrappers

  const PGMASK: nat := 0xfff
  const ZERO_PAGE: seq<Byte> := seq(PGSIZE, _ => 0)

  type Word32 = x: nat | x < B32

  datatype Phdr = Phdr(offset: Word32, vaddr: Word32, filesz: Word32, memsz: Word32)

  function Sum32(a: Word32, b: Word32): (s: Word32)
    ensures s == a + b || s + B32 == a + b
  {
    (a + b) % B32
  }

  /** validate_segment for a file of `length` bytes, in 32-bit arithmetic. */
  predicate Validate(p: Phdr, length: nat) {
    && And(p.offset, PGMASK) == And(p.vaddr, PGMASK)
    && p.offset <= length
    && !(p.memsz < p.filesz)
    && p.memsz != 0
    && p.vaddr < PHYS_BASE
    && Sum32(p.vaddr, p.memsz) < PHYS_BASE
    && !(Sum32(p.vaddr, p.memsz) < p.vaddr)
    && !(p.vaddr < PGSIZE)
  }

  /** It accepts exactly the non-empty segments that lie between the first page and the
      kernel and agree with the file modulo the page size. */
  lemma ValidateMeans(p: Phdr, length: nat)
    ensures Validate(p, length) <==>
      && p.offset % PGSIZE == p.vaddr % PGSIZE && p.offset <= length
      && p.filesz <= p.memsz && 0 < p.memsz
      && PGSIZE <= p.vaddr && p.vaddr + p.memsz < PHYS_BASE
  {
    PgMask(p.offset);
    PgMask(p.vaddr);
  }

  /** How the PT_LOAD case splits a header: where to read and to map, and how many bytes. */
  datatype Plan = Plan(filePage: nat, memPage: nat, readBytes: nat, zeroBytes: int)

  function RoundUp(x: nat): nat {
    (x + PGSIZE - 1) / PGSIZE * PGSIZE
  }

  function MakePlan(p: Phdr): Plan {
    var filePage, memPage, pageOffset: nat := And(p.offset, PTE_ADDR), And(p.vaddr, PTE_ADDR), And(p.vaddr, PGMASK);
    if p.filesz > 0 then
      var readBytes: nat := pageOffset + p.filesz;
      Plan(filePage, memPage, readBytes, RoundUp(pageOffset + p.memsz) - readBytes)
    else
      Plan(filePage, memPage, 0, RoundUp(pageOffset + p.memsz))
  }

  lemma RoundUpFacts(x: nat)
    ensures x <= RoundUp(x) < x + PGSIZE && RoundUp(x) % PGSIZE == 0
  {
    var q := (x + PGSIZE - 1) / PGSIZE;
    assert RoundUp(x) == q * PGSIZE;
  }

  /** The plan of an accepted header stays between the first page and the kernel, covers
      the segment, and no sum in it reaches 2^32. */
  lemma PlanFits(p: Phdr, length: nat)
    requires Validate(p, length)
    ensures var plan := MakePlan(p);
            && plan.filePage == p.offset - p.vaddr % PGSIZE && plan.memPage == p.vaddr - p.vaddr % PGSIZE
            && plan.filePage % PGSIZE == 0 && plan.memPage % PGSIZE == 0
            && plan.readBytes == (if p.filesz > 0 then p.vaddr % PGSIZE + p.filesz else 0)
            && plan.zeroBytes >= 0 && (plan.readBytes + plan.zeroBytes) % PGSIZE == 0
            && PGSIZE <= plan.memPage
              && p.vaddr + p.memsz <= plan.memPage + plan.readBytes + plan.zeroBytes <= PHYS_BASE
            && p.vaddr % PGSIZE + p.memsz + PGSIZE - 1 < B32
  {
    hide And, RoundUp, Validate;
    ValidateMeans(p, length);
    AddrMask(p.offset);
    AddrMask(p.vaddr);
    PgMask(p.vaddr);
    PlanArithmetic(p.offset, p.vaddr, p.memsz);
  }

  lemma PlanArithmetic(offset: nat, vaddr: nat, memsz: nat)
    requires offset % PGSIZE == vaddr % PGSIZE && PGSIZE <= vaddr && vaddr + memsz < PHYS_BASE
    ensures var o := vaddr % PGSIZE; var end := RoundUp(o + memsz);
      && (offset - o) % PGSIZE == 0 && (vaddr - o) % PGSIZE == 0 && end % PGSIZE == 0
      && PGSIZE <= vaddr - o && o + memsz <= end && vaddr - o + end <= PHYS_BASE
  {
    RoundDown(offset);
    RoundUpFacts(vaddr % PGSIZE + memsz);
    LastPage(vaddr, memsz);
  }

  lemma RoundDown(x: nat)
    ensures (x - x % PGSIZE) % PGSIZE == 0
  {
  }

  lemma LastPage(v: nat, m: nat)
    requires v + m < PHYS_BASE
    ensures (v - v % PGSIZE) % PGSIZE == 0 && v - v % PGSIZE + RoundUp(v % PGSIZE + m) <= PHYS_BASE
    ensures PGSIZE <= v ==> PGSIZE <= v - v % PGSIZE
  {
    var q, r := v / PGSIZE, v % PGSIZE;
    RoundUpFacts(r + m);
    var k := RoundUp(r + m) / PGSIZE;
    assert v - r == q * PGSIZE && RoundUp(r + m) == k * PGSIZE;
    assert (q + k) * PGSIZE < PHYS_BASE + PGSIZE;
  }

  // ----- the address space

  /** A page of user memory. */
  datatype Page = Page(bytes: seq<Byte>, writable: bool)

  type Space = map<nat, Page>

  /** Byte `i` of what load_segment puts in place. */
  function ImageByte(file: seq<Byte>, ofs: nat, readBytes: nat, i: nat): Byte {
    if i < readBytes && ofs + i < |file| then file[ofs + i] else 0
  }

  /** Page number `first + k` holds the `k`'th page of the image. */
  ghost predicate PageHolds(s: Space, first: nat, k: nat, file: seq<Byte>, ofs: nat, readBytes: nat, writable: bool) {
    first + k in s && s[first + k].writable == writable
      && ImagePage(s[first + k].bytes, file, ofs, readBytes, PGSIZE * k)
  }

  /** The page of the image that starts with its byte `base`. */
  ghost predicate ImagePage(bytes: seq<Byte>, file: seq<Byte>, ofs: nat, readBytes: nat, base: nat) {
    |bytes| == PGSIZE && forall j :: 0 <= j < PGSIZE ==> bytes[j] == ImageByte(file, ofs, readBytes, base + j)
  }

  /** `n` pages from page number `first`, none of them mapped before, hold the image; all
      other pages are as they were. */
  ghost predicate Loaded(before: Space, after: Space, first: nat, n: nat, file: seq<Byte>, ofs: nat, readBytes: nat,
      writable: bool) {
    && (forall u :: u in after <==> u in before || first <= u < first + n)
    && (forall u :: u in before ==> !(first <= u < first + n) && after[u] == before[u])
    && (forall k :: 0 <= k < n ==> PageHolds(after, first, k, file, ofs, readBytes, writable))
  }

  lemma LoadOneMore(before: Space, s: Space, first: nat, n: nat, file: seq<Byte>, ofs: nat, readBytes: nat,
      writable: bool, page: Page)
    requires Loaded(before, s, first, n, file, ofs, readBytes, writable) && first + n !in s
    requires page.writable == writable && ImagePage(page.bytes, file, ofs, readBytes, PGSIZE * n)
    ensures Loaded(before, s[first + n := page], first, n + 1, file, ofs, readBytes, writable)
  {
    var s' := s[first + n := page];
    forall k | 0 <= k < n + 1 ensures PageHolds(s', first, k, file, ofs, readBytes, writable) {
      assert k < n ==> PageHolds(s, first, k, file, ofs, readBytes, writable);
    }
  }

  // ----- the frames of a process

  /** What the page tables map, as a map from user pages. */
  ghost function MapOf(mem: Tables, pd: nat): map<nat, Mapping>
    requires WellFormed(mem, pd)
  {
    map u: nat | u < USER_PAGES && Mapped(mem, pd, u).Some? :: Mapped(mem, pd, u).value
  }

  lemma MapOfMore(mem: Tables, mem': Tables, pd: nat, u: nat, m: Option<Mapping>)
    requires WellFormed(mem, pd) && WellFormed(mem', pd) && u < USER_PAGES
    requires forall v :: 0 <= v < USER_PAGES ==>
      Mapped(mem', pd, v) == if m.Some? && v == u then m else Mapped(mem, pd, v)
    ensures MapOf(mem', pd) == if m.Some? then MapOf(mem, pd)[u := m.value] else MapOf(mem, pd)
  {
    forall v: nat | v < USER_PAGES ensures v in MapOf(mem', pd) <==> (m.Some? && v == u) || v in MapOf(mem, pd) {
    }
  }

  /** The user memory that mappings stand for, given the contents of the frames. */
  ghost function SpaceOf(maps: map<nat, Mapping>, frames: map<nat, seq<Byte>>): Space {
    map u: nat | u in maps && maps[u].page in frames :: Page(frames[maps[u].page], maps[u].writable)
  }

  ghost predicate IsMapped(maps: map<nat, Mapping>, f: nat) {
    exists u :: u in maps && maps[u].page == f
  }

  /** The frames taken from the page allocator are those of the mapped user pages, each mapped
      once, and none of them serves as a page table. */
  ghost predicate Owns(maps: map<nat, Mapping>, frames: map<nat, seq<Byte>>, tables: set<nat>) {
    && (forall u :: u in maps ==> maps[u].page in frames)
    && (forall f {:trigger IsMapped(maps, f)} :: f in frames ==> IsMapped(maps, f))
    && (forall u, v :: u in maps && v in maps && u != v ==> maps[u].page != maps[v].page)
    && frames.Keys !! tables
  }

  lemma OwnsMore(maps: map<nat, Mapping>, frames: map<nat, seq<Byte>>, tables: set<nat>, u: nat, m: Mapping,
      bytes: seq<Byte>)
    requires Owns(maps, frames, tables) && u !in maps && m.page !in frames && m.page !in tables
    ensures Owns(maps[u := m], frames[m.page := bytes], tables)
  {
    var maps' := maps[u := m];
    forall f | f in frames[m.page := bytes] ensures IsMapped(maps', f) {
      if f == m.page {
        assert maps'[u].page == f;
      } else {
        assert IsMapped(maps, f);
        var v :| v in maps && maps[v].page == f;
        assert maps'[v].page == f;
      }
    }
  }

  lemma SpaceMore(maps: map<nat, Mapping>, frames: map<nat, seq<Byte>>, u: nat, m: Mapping, bytes: seq<Byte>)
    requires m.page !in frames && forall v :: v in maps ==> maps[v].page in frames
    ensures SpaceOf(maps[u := m], frames[m.page := bytes]) == SpaceOf(maps, frames)[u := Page(bytes, m.writable)]
  {
    var maps', frames' := maps[u := m], frames[m.page := bytes];
    forall v | v in maps' ensures maps'[v].page in frames' {
    }
  }

  lemma TakenBack(frames: map<nat, seq<Byte>>, f: nat, bytes: seq<Byte>)
    requires f !in frames
    ensures frames[f := bytes] - {f} == frames
  {
  }

  /** So pagedir_destroy frees no page of the process twice and each of its frames once. */
  lemma OwnedFreedOnce(mem: Tables, pd: nat, frames: map<nat, seq<Byte>>)
    requires WellFormed(mem, pd) && Owns(MapOf(mem, pd), frames, mem.Keys)
    ensures FreedOnce(Read(mem, pd), pd)
    ensures forall f :: f in frames ==> multiset(Freed(Read(mem, pd)) + [pd])[f] == 1
  {
    var dir, maps := Read(mem, pd), MapOf(mem, pd);
    assert TablesApart(dir, pd) by { ReadApart(mem, pd); }
    forall u: nat, x: nat | u < ENTRIES * |dir| && Hits(At(dir, u), x)
      ensures u in maps && maps[u].page == x
    {
      ReadMapped(mem, pd, u);
    }
    assert Injective(dir, pd) by {
      forall u: nat, x: nat | u < ENTRIES * |dir| ensures Private(dir, pd, u, x) {
        if Hits(At(dir, u), x) {
          NotATable(mem, pd, x);
        }
      }
      forall u: nat, v: nat, x: nat | u < v < ENTRIES * |dir| ensures !Shared(dir, u, v, x) {
      }
    }
    FreedOnceIff(dir, pd);
    forall f | f in frames ensures multiset(Freed(dir) + [pd])[f] == 1 {
      assert IsMapped(maps, f);
      var u :| u in maps && maps[u].page == f;
      ReadMapped(mem, pd, u);
      DestroyFrees(dir, pd, f);
      HowManyPositive(MappedTo(dir, f), ENTRIES * |dir|, u);
    }
  }

  lemma NotATable(mem: Tables, pd: nat, x: nat)
    requires WellFormed(mem, pd) && x !in mem
    ensures x != pd && TablesAt(Read(mem, pd), x) == 0
  {
    ReadApart(mem, pd);
    TablesAtMostOne(Read(mem, pd), pd, x);
  }

  /** file_read of `n` bytes into a page, then memset of its rest. */
  method FillPage(disk: Inode.Disk, f: Inode.Data, pos: nat, n: nat, bounce: bool) returns (ok: bool, bytes: seq<Byte>)
    requires Inode.OnDisk(disk.sectors, f) && n <= PGSIZE
    ensures ok <==> n == 0 || (pos + n <= f.length && (bounce || WholeSectors(pos, n)))
    ensures ok ==> Filled(bytes, Inode.Contents(disk.sectors, f), pos, n)
  {
    var page := new Byte[PGSIZE];
    var got := disk.ReadAt(f, page, n, pos, bounce);
    ok, bytes := got == n, [];
    if ok {
      forall j | n <= j < PGSIZE {
        page[j] := 0;
      }
      bytes := page[..];
    }
  }

  /** A page with `n` bytes of the file from `pos` on, then zeros. */
  ghost predicate Filled(bytes: seq<Byte>, file: seq<Byte>, pos: nat, n: nat) {
    && |bytes| == PGSIZE && (n == 0 || pos + n <= |file|)
    && forall j :: 0 <= j < PGSIZE ==> bytes[j] == if j < n then file[pos + j] else 0
  }

  predicate WholeSectors(pos: nat, n: nat) {
    pos % Inode.SECTOR_SIZE == 0 && n % Inode.SECTOR_SIZE == 0
  }

  /** What the page allocator has to offer for a page of the segment: a frame, a page table
      should one be missing, and the bounce buffer of file_read. */
  datatype Memory = Memory(frame: Option<nat>, table: Option<nat>, bounce: bool)

  /** The pages on offer are none of those in use. */
  predicate Available(m: Memory, used: set<nat>) {
    && (m.frame.Some? ==> KernelPage(m.frame.value) && m.frame.value !in used)
    && (m.table.Some? ==> KernelPage(m.table.value) && m.table.value !in used)
    && (m.frame.Some? && m.table.Some? ==> m.frame.value != m.table.value)
  }

  function Offered(m: Memory): set<nat> {
    (if m.frame.Some? then {m.frame.value} else {}) + (if m.table.Some? then {m.table.value} else {})
  }

  ghost predicate AllAvailable(memory: seq<Memory>, from: nat, used: set<nat>) {
    && (forall k :: from <= k < |memory| ==> Available(memory[k], used))
    && (forall j, k :: from <= j < k < |memory| ==> Offered(memory[j]) !! Offered(memory[k]))
  }

  lemma StillAvailable(memory: seq<Memory>, i: nat, used: set<nat>, used': set<nat>)
    requires i < |memory| && AllAvailable(memory, i, used) && used' <= used + Offered(memory[i])
    ensures AllAvailable(memory, i + 1, used')
  {
    forall k | i + 1 <= k < |memory| ensures Available(memory[k], used') {
      assert Available(memory[k], used) && Offered(memory[i]) !! Offered(memory[k]);
    }
  }

  /** How many of `read` bytes belong to page `k`. */
  function PageRead(read: nat, k: nat): nat {
    if read <= PGSIZE * k then 0 else if read - PGSIZE * k < PGSIZE then read - PGSIZE * k else PGSIZE
  }

  lemma FilledIsImage(bytes: seq<Byte>, file: seq<Byte>, pos: nat, ofs: nat, read: nat, k: nat)
    requires Filled(bytes, file, pos, PageRead(read, k))
    requires PageRead(read, k) > 0 ==> pos == ofs + PGSIZE * k
    ensures ImagePage(bytes, file, ofs, read, PGSIZE * k)
  {
    forall j | 0 <= j < PGSIZE ensures bytes[j] == ImageByte(file, ofs, read, PGSIZE * k + j) {
      assert j < PageRead(read, k) <==> PGSIZE * k + j < read;
    }
  }

  /** The page tables of `n` pages from page number `first`. */
  ghost function TablesFor(first: nat, n: nat): set<nat> {
    if n == 0 then {} else TablesFor(first, n - 1) + {(first + n - 1) / ENTRIES}
  }

  /** Page `k` can be had: there is a frame and nothing is mapped there yet, its page table is
      there, made for a page before it or can be made, and there is a bounce buffer if part of
      a sector is to be read. */
  ghost predicate PageLoadable(s: Space, tables: set<nat>, first: nat, ofs: nat, read: nat, k: nat, m: Memory) {
    && m.frame.Some? && first + k !in s
    && (m.table.Some? || (first + k) / ENTRIES in tables + TablesFor(first, k))
    && (m.bounce || WholeSectors(ofs + PGSIZE * k, PageRead(read, k)))
  }

  /** Every page can be had and the file is long enough. */
  ghost predicate Loadable(s: Space, tables: set<nat>, first: nat, length: nat, ofs: nat, read: nat,
      memory: seq<Memory>) {
    && (forall k :: 0 <= k < |memory| ==> PageLoadable(s, tables, first, ofs, read, k, memory[k]))
    && (read == 0 || ofs + read <= length)
  }

  class Process {
    const disk: Inode.Disk
    const dir: PageDirectory
    var frames: map<nat, seq<Byte>>

    ghost predicate Valid()
      reads this, dir
    {
      dir.Valid() && Owns(Maps(), frames, dir.mem.Keys)
    }

    /** What its page directory maps. */
    ghost function Maps(): map<nat, Mapping>
      requires dir.Valid()
      reads this, dir
    {
      MapOf(dir.mem, dir.pd)
    }

    /** The user memory of the process. */
    ghost function Space(): Space
      requires Valid()
      reads this, dir
    {
      SpaceOf(Maps(), frames)
    }

    /** The pages that hold its frames and page tables. */
    ghost function Used(): set<nat>
      reads this, dir
    {
      frames.Keys + dir.mem.Keys
    }

    /** The directory entries for kernel addresses. */
    ghost function Kernel(): seq<nat>
      requires Valid()
      reads this, dir
    {
      dir.KernelEntries()
    }

    /** The directory entries with a page table. */
    ghost function Tables(): set<nat>
      requires Valid()
      reads this, dir
    {
      TableSet(dir.mem, dir.pd)
    }

    /** A process starts on a page directory without user pages. */
    constructor (disk: Inode.Disk, dir: PageDirectory)
      requires dir.Valid() && forall u :: 0 <= u < USER_PAGES ==> Mapped(dir.mem, dir.pd, u).None?
      ensures Valid() && this.disk == disk && this.dir == dir && frames == map[] && Space() == map[]
    {
      this.disk, this.dir, frames := disk, dir, map[];
    }

    /** install_page. */
    method InstallPage(upage: nat, kpage: nat, writable: bool, table: Option<nat>) returns (ok: bool)
      requires dir.Valid() && upage < PHYS_BASE && upage % PGSIZE == 0 && KernelPage(kpage)
      requires table.Some? ==> KernelPage(table.value) && table.value !in dir.mem
      modifies dir
      ensures dir.Valid() && dir.KernelEntries() == old(dir.KernelEntries())
      ensures ok <==> upage / PGSIZE !in old(Maps())
                      && (table.Some? || upage / PGSIZE / ENTRIES in old(TableSet(dir.mem, dir.pd)))
      ensures TableSet(dir.mem, dir.pd) ==
              old(TableSet(dir.mem, dir.pd)) + if ok then {upage / PGSIZE / ENTRIES} else {}
      ensures dir.mem.Keys <= old(dir.mem.Keys) + if table.Some? then {table.value} else {}
      ensures Maps() == if ok then old(Maps())[upage / PGSIZE := Mapping(kpage, writable)] else old(Maps())
    {
      ghost var mem := dir.mem;
      var there := dir.GetPage(upage);
      ok := false;
      if there.None? {
        ok := dir.SetPage(upage, kpage, writable, table);
      }
      MapOfMore(mem, dir.mem, dir.pd, upage / PGSIZE, if ok then Some(Mapping(kpage, writable)) else None);
    }

    /** Maps a filled frame; if that fails the frame is given back. */
    method AddFrame(upage: nat, kpage: nat, bytes: seq<Byte>, writable: bool, table: Option<nat>) returns (ok: bool)
      requires Valid() && InUser(upage, upage / PGSIZE) && Available(Memory(Some(kpage), table, false), Used())
      modifies this, dir
      ensures Valid() && Kernel() == old(Kernel())
      ensures ok <==> upage / PGSIZE !in old(Space()) && (table.Some? || upage / PGSIZE / ENTRIES in old(Tables()))
      ensures Space() == if ok then old(Space())[upage / PGSIZE := Page(bytes, writable)] else old(Space())
      ensures Tables() == old(Tables()) + if ok then {upage / PGSIZE / ENTRIES} else {}
      ensures Used() <= old(Used()) + Offered(Memory(Some(kpage), table, false)) && (!ok ==> frames == old(frames))
    {
      hide MapOf, PageDirectory.Valid, PageDirectory.KernelEntries, TableSet;
      ghost var maps, held := Maps(), frames;
      frames := frames[kpage := bytes];
      ok := InstallPage(upage, kpage, writable, table);
      if ok {
        OwnsMore(maps, held, dir.mem.Keys, upage / PGSIZE, Mapping(kpage, writable), bytes);
        SpaceMore(maps, held, upage / PGSIZE, Mapping(kpage, writable), bytes);
      } else {
        TakenBack(held, kpage, bytes);
        frames := frames - {kpage};
      }
    }

    /** setup_stack: a zeroed page just below the kernel. */
    method SetupStack(m: Memory) returns (ok: bool)
      requires Valid() && Available(m, Used())
      modifies this, dir
      ensures Valid() && Kernel() == old(Kernel())
      ensures ok <==> m.frame.Some? && USER_PAGES - 1 !in old(Space())
                      && (m.table.Some? || USER_PDES - 1 in old(Tables()))
      ensures Space() == if ok then old(Space())[USER_PAGES - 1 := Page(ZERO_PAGE, true)] else old(Space())
      ensures !ok ==> frames == old(frames)
    {
      hide Process.Valid, Process.Space, Process.Tables, Process.Kernel, Process.Used;
      ok := false;
      if m.frame.Some? {
        ok := AddFrame(PHYS_BASE - PGSIZE, m.frame.value, ZERO_PAGE, true, m.table);
      }
    }

    /** One round of the loop: a page is filled and mapped. */
    method LoadPage(f: Inode.Data, pos: nat, upage: nat, n: nat, writable: bool, m: Memory)
        returns (ok: bool, ghost bytes: seq<Byte>)
      requires Valid() && Inode.OnDisk(disk.sectors, f) && n <= PGSIZE && Available(m, Used())
      requires InUser(upage, upage / PGSIZE)
      modifies this, dir
      ensures Valid() && Kernel() == old(Kernel())
      ensures ok <==> && m.frame.Some? && upage / PGSIZE !in old(Space())
                      && (m.table.Some? || upage / PGSIZE / ENTRIES in old(Tables()))
                      && (n == 0 || (pos + n <= f.length && (m.bounce || WholeSectors(pos, n))))
      ensures ok ==> Filled(bytes, Inode.Contents(disk.sectors, f), pos, n)
      ensures Space() == if ok then old(Space())[upage / PGSIZE := Page(bytes, writable)] else old(Space())
      ensures Tables() == old(Tables()) + if ok then {upage / PGSIZE / ENTRIES} else {}
      ensures Used() <= old(Used()) + Offered(m) && (!ok ==> frames == old(frames))
    {
      hide Process.Valid, Process.Space, Process.Tables, Process.Kernel, Process.Used;
      ok, bytes := false, [];
      if m.frame.Some? {
        var filled, page := FillPage(disk, f, pos, n, m.bounce);
        if filled {
          bytes := page;
          ok := AddFrame(upage, m.frame.value, page, writable, m.table);
        }
      }
    }

    /** The same for page `i` of the image, in terms of the memory `before` load_segment. */
    method LoadNext(f: Inode.Data, pos: nat, u: nat, n: nat, writable: bool, m: Memory, ghost before: Space,
        ghost tables: set<nat>, ghost first: nat, ghost i: nat, ghost ofs: nat, ghost read: nat) returns (ok: bool)
      requires Valid() && Inode.OnDisk(disk.sectors, f) && Available(m, Used()) && InUser(u, first + i)
      requires n == PageRead(read, i) && (n > 0 ==> pos == ofs + PGSIZE * i) && ofs % PGSIZE == 0
      requires Loaded(before, Space(), first, i, Inode.Contents(disk.sectors, f), ofs, read, writable)
      requires Tables() == tables + TablesFor(first, i)
      modifies this, dir
      ensures Valid() && Kernel() == old(Kernel()) && Used() <= old(Used()) + Offered(m)
      ensures ok <==> PageLoadable(before, tables, first, ofs, read, i, m) && (n == 0 || pos + n <= f.length)
      ensures var more := if ok then i + 1 else i;
              && Loaded(before, Space(), first, more, Inode.Contents(disk.sectors, f), ofs, read, writable)
              && Tables() == tables + TablesFor(first, more)
    {
      hide Process.Valid, Process.Space, Process.Tables, Process.Kernel, Process.Used;
      ghost var space, file, bytes := Space(), Inode.Contents(disk.sectors, f), [];
      ok, bytes := LoadPage(f, pos, u, n, writable, m);
      assert first + i in space <==> first + i in before;
      assert WholeSectors(ofs + PGSIZE * i, n) <==> n == 0 || WholeSectors(pos, n) by { SectorAligned(ofs, i); }
      if ok {
        FilledIsImage(bytes, file, pos, ofs, read, i);
        LoadOneMore(before, space, first, i, file, ofs, read, writable, Page(bytes, writable));
      }
    }

    /** load_segment: it succeeds exactly when there is memory, no page was mapped before and the
        file is long enough; `n` pages get loaded in any case. */
    method LoadSegment(f: Inode.Data, ofs: nat, upage: nat, read: nat, zero: nat, writable: bool, memory: seq<Memory>)
        returns (ok: bool, ghost n: nat)
      requires Valid() && Inode.OnDisk(disk.sectors, f) && AllAvailable(memory, 0, Used())
      requires upage % PGSIZE == 0 && ofs % PGSIZE == 0 && read + zero == PGSIZE * |memory|
      requires upage + PGSIZE * |memory| <= PHYS_BASE
      modifies this, dir
      ensures Valid() && Kernel() == old(Kernel())
      ensures Loaded(old(Space()), Space(), upage / PGSIZE, n, Inode.Contents(disk.sectors, f), ofs, read, writable)
      ensures n <= |memory| && (ok ==> n == |memory|)
      ensures ok <==> Loadable(old(Space()), old(Tables()), upage / PGSIZE, f.length, ofs, read, memory)
    {
      hide Process.Valid, Process.Space, Process.Tables, Process.Kernel, Process.Used;
      ghost var first, before, tables := upage / PGSIZE, Space(), Tables();
      var pos, u, readLeft: nat, zeroLeft: nat, i: nat := ofs, upage, read, zero, 0;
      n := 0;
      while readLeft > 0 || zeroLeft > 0
        invariant Valid() && Kernel() == old(Kernel())
        invariant n == i <= |memory| && u == upage + PGSIZE * i && PGSIZE * i + readLeft + zeroLeft == PGSIZE * |memory|
        invariant readLeft == (if PGSIZE * i <= read then read - PGSIZE * i else 0) && pos == ofs + read - readLeft
        invariant readLeft == read || pos <= f.length
        invariant Loaded(before, Space(), first, i, Inode.Contents(disk.sectors, f), ofs, read, writable)
        invariant Tables() == tables + TablesFor(first, i) && AllAvailable(memory, i, Used())
        invariant forall k :: 0 <= k < i ==> PageLoadable(before, tables, first, ofs, read, k, memory[k])
        decreases readLeft + zeroLeft
      {
        var pageRead := if readLeft < PGSIZE then readLeft else PGSIZE;
        var pageZero := PGSIZE - pageRead;
        ghost var used := Used();
        InUserPage(upage, i, |memory|);
        ok := LoadNext(f, pos, u, pageRead, writable, memory[i], before, tables, first, i, ofs, read);
        if !ok {
          return;
        }
        StillAvailable(memory, i, used, Used());
        readLeft := readLeft - pageRead;
        zeroLeft := zeroLeft - pageZero;
        pos, u, i, n := pos + pageRead, u + PGSIZE, i + 1, n + 1;
      }
      ok := true;
    }

    /** The PT_LOAD case of load.  Whether or not it succeeds, it maps no page outside user
        memory and changes none that was mapped before. */
    method LoadHeader(f: Inode.Data, p: Phdr, writable: bool, memory: seq<Memory>) returns (ok: bool)
      requires Valid() && Inode.OnDisk(disk.sectors, f) && AllAvailable(memory, 0, Used())
      requires var plan := MakePlan(p); plan.readBytes + plan.zeroBytes == PGSIZE * |memory|
      modifies this, dir
      ensures Valid() && Kernel() == old(Kernel())
      ensures ok ==> SegmentAt(Space(), Inode.Contents(disk.sectors, f), p, writable)
      ensures ok <==> Validate(p, f.length) && var plan := MakePlan(p);
                      Loadable(old(Space()), old(Tables()), plan.memPage / PGSIZE, f.length, plan.filePage,
                        plan.readBytes, memory)
      ensures forall u :: u in Space() && u !in old(Space()) ==>
                PGSIZE <= PGSIZE * u && PGSIZE * u + PGSIZE <= PHYS_BASE
      ensures forall u :: u in old(Space()) ==> u in Space() && Space()[u] == old(Space())[u]
    {
      ok := false;
      if Validate(p, f.length) {
        var plan := MakePlan(p);
        PlanFits(p, f.length);
        ghost var n;
        ok, n := LoadSegment(f, plan.filePage, plan.memPage, plan.readBytes, plan.zeroBytes, writable, memory);
        if ok {
          ImageIsSegment(old(Space()), Space(), Inode.Contents(disk.sectors, f), p, writable, n);
        }
      }
    }
  }

  /** `u` is the address of user page number `k`. */
  predicate InUser(u: nat, k: nat) {
    u < PHYS_BASE && u % PGSIZE == 0 && u / PGSIZE == k
  }

  lemma InUserPage(upage: nat, i: nat, n: nat)
    requires upage % PGSIZE == 0 && i < n && upage + PGSIZE * n <= PHYS_BASE
    ensures InUser(upage + PGSIZE * i, upage / PGSIZE + i)
  {
    PageMultiple(upage);
    PageQuotient(upage / PGSIZE + i, 0);
  }

  lemma SectorAligned(ofs: nat, k: nat)
    requires ofs % PGSIZE == 0
    ensures (ofs + PGSIZE * k) % Inode.SECTOR_SIZE == 0
  {
    var q := ofs / PGSIZE;
    assert ofs == PGSIZE * q by { PageMultiple(ofs); }
    assert ofs + PGSIZE * k == Inode.SECTOR_SIZE * (8 * q + 8 * k);
    Inode.WholeSector(8 * q + 8 * k);
  }

  /** The byte of user memory at address `a`. */
  ghost predicate Holds(s: Space, a: nat, b: Byte, writable: bool) {
    var u, j := a / PGSIZE, a % PGSIZE;
    u in s && s[u].writable == writable && j < |s[u].bytes| && s[u].bytes[j] == b
  }

  /** What the header asks for at address `a` of its segment. */
  function SegmentByte(file: seq<Byte>, p: Phdr, a: nat): Byte
    requires p.offset + p.filesz <= |file| || p.filesz == 0
  {
    if p.vaddr <= a < p.vaddr + p.filesz then file[p.offset + (a - p.vaddr)] else 0
  }

  /** The segment is in memory: the bytes of the file, then zeros up to its memory size. */
  ghost predicate SegmentAt(s: Space, file: seq<Byte>, p: Phdr, writable: bool) {
    && (p.offset + p.filesz <= |file| || p.filesz == 0)
    && forall a :: p.vaddr <= a < p.vaddr + p.memsz ==> Holds(s, a, SegmentByte(file, p, a), writable)
  }

  lemma ImageIsSegment(before: Space, after: Space, file: seq<Byte>, p: Phdr, writable: bool, n: nat)
    requires Validate(p, |file|)
    requires var plan := MakePlan(p);
             && plan.readBytes + plan.zeroBytes == PGSIZE * n
               && (plan.readBytes == 0 || plan.filePage + plan.readBytes <= |file|)
             && Loaded(before, after, plan.memPage / PGSIZE, n, file, plan.filePage, plan.readBytes, writable)
    ensures SegmentAt(after, file, p, writable)
  {
    hide And, Holds, ImageByte, PageHolds, SegmentByte, Validate;
    var plan := MakePlan(p);
    PlanFits(p, |file|);
    forall a | p.vaddr <= a < p.vaddr + p.memsz ensures Holds(after, a, SegmentByte(file, p, a), writable) {
      InPlace(after, plan.memPage, n, file, plan.filePage, plan.readBytes, writable, a);
      SegmentIsImage(file, p, plan, a);
    }
  }

  lemma SegmentIsImage(file: seq<Byte>, p: Phdr, plan: Plan, a: nat)
    requires p.vaddr <= a < p.vaddr + p.memsz && (p.offset + p.filesz <= |file| || p.filesz == 0)
    requires plan.memPage <= p.vaddr && plan.filePage + (p.vaddr - plan.memPage) == p.offset
    requires plan.readBytes == if p.filesz > 0 then p.vaddr - plan.memPage + p.filesz else 0
    ensures ImageByte(file, plan.filePage, plan.readBytes, a - plan.memPage) == SegmentByte(file, p, a)
  {
  }

  lemma InPlace(s: Space, memPage: nat, n: nat, file: seq<Byte>, ofs: nat, readBytes: nat, writable: bool, a: nat)
    requires memPage % PGSIZE == 0 && memPage <= a < memPage + PGSIZE * n
    requires forall k :: 0 <= k < n ==> PageHolds(s, memPage / PGSIZE, k, file, ofs, readBytes, writable)
    ensures Holds(s, a, ImageByte(file, ofs, readBytes, a - memPage), writable)
  {
    var o := a - memPage;
    var k, j := o / PGSIZE, o % PGSIZE;
    assert PageHolds(s, memPage / PGSIZE, k, file, ofs, readBytes, writable);
    assert a / PGSIZE == memPage / PGSIZE + k && a % PGSIZE == j && PGSIZE * k + j == o;
  }
}
