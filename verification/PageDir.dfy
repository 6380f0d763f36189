/** The two-level page tables of userprog/pagedir.c and threads/pte.h, in the format of
    section 3.7.6 of volume 3A of the IA-32 manual, refine a map from user pages to
    frames. */
module PageDir {
  import opened Bits
  import opened Machine
  import opened Wrappers

  const ENTRIES: nat := 1024
  const USER_PDES: nat := 768
  const USER_PAGES: nat := 0xc_0000

  const PTE_ADDR: nat := 0xffff_f000
  const PTE_P: nat := 1
  const PTE_W: nat := 2
  const PTE_U: nat := 4
  const PTMASK: nat := 0x3f_f000

  // ----- bit fields

  /** The `k` lowest bits of a word. */
  function LowBits(w: nat, k: nat): nat {
    if k == 0 then 0 else 2 * LowBits(w / 2, k - 1) + w % 2
  }

  lemma {:induction false} LowBitsIsRemainder(w: nat, k: nat)
    ensures LowBits(w, k) == w % Pow2(k)
    decreases k
  {
    if k == 0 {
      assert w % 1 == 0;
    } else {
      LowBitsIsRemainder(w / 2, k - 1);
      HalfMod(w, Pow2(k - 1));
    }
  }

  lemma AndLow(w: nat, n: nat)
    ensures And(w, Pow2(n) - 1) == LowBits(w, n)
  {
    LowMask(w, n);
    LowBitsIsRemainder(w, n);
  }

  /** Masking with a block of ones keeps the bits from `k` to `n`. */
  lemma {:induction false} AndBlock(w: nat, n: nat, k: nat, m: nat)
    requires k <= n && m == Pow2(n) - Pow2(k)
    ensures And(w, m) == LowBits(w, n) - LowBits(w, k)
    decreases k
  {
    hide And;
    if k == 0 {
      AndLow(w, n);
    } else {
      Pow2Mono(k - 1, n - 1);
      var h: nat := Pow2(n - 1) - Pow2(k - 1);
      assert m == 2 * h;
      AndBlock(w / 2, n - 1, k - 1, h);
      AndEven(w, h);
    }
  }

  lemma AndEven(w: nat, m: nat)
    ensures And(w, 2 * m) == 2 * And(w / 2, m)
  {
    assert 2 * m / 2 == m && 2 * m % 2 == 0;
  }

  /** Or-ing in bits below all those set is addition. */
  lemma {:induction false} OrLow(x: nat, y: nat, k: nat)
    requires y < Pow2(k)
    ensures Or(x * Pow2(k), y) == x * Pow2(k) + y
    decreases k
  {
    if k == 0 {
      OrZero(x);
    } else {
      var p := Pow2(k - 1);
      assert x * Pow2(k) == 2 * (x * p);
      OrLow(x, y / 2, k - 1);
      OrEven(x * p, y);
    }
  }

  lemma {:induction false} OrZero(x: nat)
    ensures Or(x, 0) == x
    decreases x
  {
    if x > 0 {
      OrZero(x / 2);
    }
  }

  lemma OrEven(a: nat, y: nat)
    ensures Or(2 * a, y) == 2 * Or(a, y / 2) + y % 2
  {
    assert 2 * a / 2 == a && 2 * a % 2 == 0;
  }

  lemma Powers()
    ensures Pow2(1) == 2 && Pow2(12) == 0x1000 && Pow2(22) == 0x40_0000 && Pow2(32) == B32
  {
    assert Pow2(4) == 16;
    Pow2Add(4, 4);
    Pow2Add(8, 4);
    Pow2Add(12, 4);
    Pow2Add(16, 4);
    Pow2Add(16, 16);
    assert Pow2(20) == 0x10_0000;
    assert Pow2(22) == 4 * Pow2(20);
  }

  /** pt_no, pd_no and pg_ofs of an address. */
  function PtNo(va: nat): nat {
    And(va, PTMASK) / PGSIZE
  }

  function PdNo(va: nat): nat {
    va / 0x40_0000
  }

  function PgOfs(va: nat): nat {
    And(va, PGSIZE - 1)
  }

  /** The three fields of a virtual address are the digits of its page number and its
      offset in the page. */
  lemma AddressFields(va: nat)
    ensures PgOfs(va) == va % PGSIZE
    ensures PdNo(va) == va / PGSIZE / ENTRIES && PtNo(va) == va / PGSIZE % ENTRIES
  {
    PgMask(va);
    PtMask(va);
  }

  lemma PgMask(va: nat)
    ensures And(va, PGSIZE - 1) == va % PGSIZE
  {
    Powers();
    LowMask(va, 12);
  }

  lemma BlockMask(w: nat, n: nat, k: nat, hi: nat, lo: nat)
    requires k <= n && Pow2(n) == hi && Pow2(k) == lo
    ensures lo <= hi && And(w, hi - lo) == w % hi - w % lo
  {
    Pow2Mono(k, n);
    AndBlock(w, n, k, hi - lo);
    LowBitsIsRemainder(w, n);
    LowBitsIsRemainder(w, k);
  }

  lemma PtMask(va: nat)
    ensures And(va, PTMASK) == va % 0x40_0000 - va % PGSIZE
  {
    Powers();
    BlockMask(va, 22, 12, 0x40_0000, PGSIZE);
  }

  lemma AddrMask(w: nat)
    requires w < B32
    ensures And(w, PTE_ADDR) == w - w % PGSIZE
  {
    assert Pow2(32) == B32 && Pow2(12) == PGSIZE by { Powers(); }
    assert w % B32 == w by { WordMod(w); }
    assert And(w, B32 - PGSIZE) == w % B32 - w % PGSIZE by { BlockMask(w, 32, 12, B32, PGSIZE); }
  }

  lemma FlagMasks(w: nat)
    ensures And(w, PTE_P) == w % 2 && And(w, PTE_W) == w / 2 % 2 * 2
  {
    assert Pow2(1) == 2 && Pow2(2) == 4;
    AndBlock(w, 1, 0, PTE_P);
    AndBlock(w, 2, 1, PTE_W);
    assert LowBits(w, 2) == w % 2 + 2 * (w / 2 % 2) && LowBits(w, 1) == w % 2;
  }

  function Vtop(kaddr: nat): nat
    requires kaddr >= PHYS_BASE
  {
    kaddr - PHYS_BASE
  }

  function Ptov(paddr: nat): nat {
    paddr + PHYS_BASE
  }

  /** A page-aligned kernel address. */
  predicate KernelPage(k: nat) {
    PHYS_BASE <= k < B32 && k % PGSIZE == 0
  }

  function PdeCreate(pt: nat): nat
    requires KernelPage(pt)
  {
    Or(Or(Or(Vtop(pt), PTE_U), PTE_P), PTE_W)
  }

  function PteCreateUser(page: nat, writable: bool): nat
    requires KernelPage(page)
  {
    Or(Or(Or(Vtop(page), PTE_P), if writable then PTE_W else 0), PTE_U)
  }

  predicate Present(w: nat) {
    And(w, PTE_P) != 0
  }

  predicate Writable(w: nat) {
    And(w, PTE_W) != 0
  }

  /** pde_get_pt and pte_get_page. */
  function PageOf(w: nat): nat {
    Ptov(And(w, PTE_ADDR))
  }

  /** The fields of an entry by arithmetic. */
  lemma EntryFields(w: nat)
    requires w < B32
    ensures Present(w) <==> w % 2 == 1
    ensures Writable(w) <==> w / 2 % 2 == 1
    ensures PageOf(w) == PHYS_BASE + w / PGSIZE * PGSIZE
  {
    FlagMasks(w);
    AddrMask(w);
  }

  lemma OrFlags(base: nat, a: nat, b: nat)
    requires base % PGSIZE == 0 && a < PGSIZE && b < PGSIZE && Or(a, b) < PGSIZE
    ensures Or(base, a) == base + a
    ensures Or(base + a, b) == base + Or(a, b)
  {
    hide Or;
    Powers();
    var x := base / PGSIZE;
    OrLow(x, a, 12);
    OrLow(x, Or(a, b), 12);
    OrLow(x, b, 12);
    OrShift(x * PGSIZE, a, b, 12);
  }

  /** Or-ing below bit k leaves the higher bits alone. */
  lemma {:induction false} OrShift(base: nat, a: nat, b: nat, k: nat)
    requires base % Pow2(k) == 0 && a < Pow2(k) && b < Pow2(k)
    ensures Or(base + a, b) == base + Or(a, b)
    decreases k
  {
    if k == 0 {
      OrZero(base);
    } else {
      var p := Pow2(k - 1);
      HalfMod(base, p);
      assert base % 2 == 0 && (base / 2) % p == 0;
      OrShift(base / 2, a / 2, b / 2, k - 1);
      OrStep(base + a, b);
      OrStep(a, b);
      assert (base + a) / 2 == base / 2 + a / 2 && (base + a) % 2 == a % 2;
    }
  }

  lemma OrStep(a: nat, b: nat)
    ensures Or(a, b) == 2 * Or(a / 2, b / 2) + if a % 2 == 1 || b % 2 == 1 then 1 else 0
  {
  }

  /** What is put into an entry comes out again. */
  lemma PdeRoundTrip(page: nat)
    requires KernelPage(page)
    ensures PdeCreate(page) < B32 && Present(PdeCreate(page)) && PageOf(PdeCreate(page)) == page
  {
    PdeValue(page);
    VtopAligned(page);
    EntryFields(Vtop(page) + 7);
    AddedFlags(Vtop(page), 7);
  }

  lemma PteRoundTrip(page: nat, writable: bool)
    requires KernelPage(page)
    ensures PteCreateUser(page, writable) < B32 && Present(PteCreateUser(page, writable))
    ensures PageOf(PteCreateUser(page, writable)) == page && (Writable(PteCreateUser(page, writable)) <==> writable)
  {
    var v, c := Vtop(page), if writable then 7 else 5;
    assert PteCreateUser(page, writable) == v + c by { PteValue(page, writable); }
    assert v % PGSIZE == 0 && v + c < B32 by { VtopAligned(page); }
    EntryFields(v + c);
    AddedFlags(v, c);
  }

  lemma PageQuotient(q: nat, c: nat)
    requires c < PGSIZE
    ensures (PGSIZE * q + c) / PGSIZE == q && (PGSIZE * q + c) % PGSIZE == c
  {
  }

  lemma PageMultiple(v: nat)
    requires v % PGSIZE == 0
    ensures v == PGSIZE * (v / PGSIZE)
  {
  }

  lemma Halve(m: nat, c: nat)
    ensures (2 * m + c) % 2 == c % 2 && (2 * m + c) / 2 == m + c / 2
  {
  }

  lemma AddedFlags(v: nat, c: nat)
    requires v % PGSIZE == 0 && c < PGSIZE
    ensures (v + c) / PGSIZE * PGSIZE == v && (v + c) % 2 == c % 2 && (v + c) / 2 % 2 == c / 2 % 2
  {
    var q := v / PGSIZE;
    assert v == PGSIZE * q by { PageMultiple(v); }
    assert (v + c) / PGSIZE == q by { PageQuotient(q, c); }
    assert (v + c) % 2 == c % 2 && (v + c) / 2 == 2048 * q + c / 2 by { Halve(2048 * q, c); }
    assert (2048 * q + c / 2) % 2 == c / 2 % 2 by { Halve(1024 * q, c / 2); }
  }

  lemma VtopAligned(page: nat)
    requires KernelPage(page)
    ensures Vtop(page) % PGSIZE == 0 && Vtop(page) + PGSIZE <= B32 - PHYS_BASE
  {
    assert page == PGSIZE * (page / PGSIZE);
    assert Vtop(page) == PGSIZE * (page / PGSIZE - PHYS_BASE / PGSIZE);
  }

  lemma EvenPart(w: nat)
    ensures (w - w % 2) / PGSIZE == w / PGSIZE && (w - w % 2) % 2 == 0
  {
    var q, r := w / PGSIZE, w % PGSIZE;
    PageQuotient(q, 0);
    AddedFlags(PGSIZE * q, r);
    AddedFlags(PGSIZE * q, r - r % 2);
  }

  lemma WordMod(w: nat)
    requires w < B32
    ensures w % B32 == w
  {
  }

  lemma ClearMask(w: nat)
    requires w < B32
    ensures And(w, B32 - 1 - PTE_P) == w - w % 2
  {
    assert Pow2(32) == B32 && Pow2(1) == 2 by { Powers(); }
    assert w % B32 == w by { WordMod(w); }
    assert And(w, B32 - 2) == w % B32 - w % 2 by { BlockMask(w, 32, 1, B32, 2); }
  }

  lemma PdeValue(page: nat)
    requires KernelPage(page)
    ensures PdeCreate(page) == Vtop(page) + 7
  {
    OrSmall();
    VtopAligned(page);
    OrFlags(Vtop(page), 4, 1);
    OrFlags(Vtop(page), 5, 2);
  }

  lemma PteValue(page: nat, writable: bool)
    requires KernelPage(page)
    ensures PteCreateUser(page, writable) == Vtop(page) + if writable then 7 else 5
  {
    hide Or;
    var v, w := Vtop(page), if writable then 2 else 0;
    assert v % PGSIZE == 0 by { VtopAligned(page); }
    assert Or(1, w) == 1 + w && Or(1 + w, 4) == 5 + w by { OrSmall(); }
    assert Or(v, 1) == v + 1 && Or(v + 1, w) == v + (1 + w) by { OrFlags(v, 1, w); }
    assert Or(v + (1 + w), 4) == v + (5 + w) by { OrFlags(v, 1 + w, 4); }
  }

  lemma OrSmall()
    ensures Or(4, 1) == 5 && Or(5, 2) == 7 && Or(1, 2) == 3 && Or(1, 0) == 1 && Or(3, 4) == 7 && Or(1, 4) == 5
  {
    OrStep(1, 0);
    OrStep(2, 0);
    OrStep(0, 1);
    OrStep(0, 2);
    OrStep(2, 1);
    OrStep(1, 1);
    OrStep(4, 1);
    OrStep(5, 2);
    OrStep(1, 2);
    OrStep(3, 4);
    OrStep(1, 4);
  }

  // ----- page tables

  type Table = t: seq<nat> | |t| == ENTRIES && forall i :: 0 <= i < ENTRIES ==> t[i] < B32
    witness seq(ENTRIES, _ => 0)

  /** The directory and the page tables, by kernel address. */
  type Tables = map<nat, Table>

  /** What a user page is mapped to. */
  datatype Mapping = Mapping(page: nat, writable: bool)

  function ReadPte(w: nat): Option<Mapping> {
    if Present(w) then Some(Mapping(PageOf(w), Writable(w))) else None
  }

  /** The user part of the directory at `pd` points to page tables of its own. */
  ghost predicate WellFormed(mem: Tables, pd: nat) {
    && pd in mem
    && (forall i :: 0 <= i < USER_PDES && mem[pd][i] != 0 ==>
          Present(mem[pd][i]) && PageOf(mem[pd][i]) in mem && PageOf(mem[pd][i]) != pd)
    && (forall i, j :: 0 <= i < j < USER_PDES && mem[pd][i] != 0 && mem[pd][j] != 0 ==>
          PageOf(mem[pd][i]) != PageOf(mem[pd][j]))
  }

  /** The entry for user page `u`, if it has a page table. */
  ghost function Entry(mem: Tables, pd: nat, u: nat): Option<nat>
    requires WellFormed(mem, pd) && u < USER_PAGES
  {
    var pde := mem[pd][u / ENTRIES];
    if pde == 0 then None else Some(mem[PageOf(pde)][u % ENTRIES])
  }

  /** The map that the tables stand for. */
  ghost function Mapped(mem: Tables, pd: nat, u: nat): Option<Mapping>
    requires WellFormed(mem, pd) && u < USER_PAGES
  {
    var e := Entry(mem, pd, u);
    if e.None? then None else ReadPte(e.value)
  }

  /** A new page table filled with zeros maps nothing. */
  lemma AddTable(mem: Tables, pd: nat, i: nat, pt: nat)
    requires WellFormed(mem, pd) && i < USER_PDES && mem[pd][i] == 0 && KernelPage(pt) && pt !in mem
    ensures PdeCreate(pt) < B32
    ensures var mem' := mem[pt := seq(ENTRIES, _ => 0)][pd := mem[pd][i := PdeCreate(pt)]];
            && WellFormed(mem', pd) && mem'[pd][i] != 0 && PageOf(mem'[pd][i]) == pt
            && forall u :: 0 <= u < USER_PAGES ==> Mapped(mem', pd, u) == Mapped(mem, pd, u)
  {
    PdeRoundTrip(pt);
    FlagMasks(0);
    var mem' := mem[pt := seq(ENTRIES, _ => 0)][pd := mem[pd][i := PdeCreate(pt)]];
    forall u | 0 <= u < USER_PAGES ensures Mapped(mem', pd, u) == Mapped(mem, pd, u) {
    }
  }

  /** Rewriting one entry of a user page table changes the entry of that page only. */
  lemma WriteEntry(mem: Tables, pd: nat, u: nat, w: nat)
    requires WellFormed(mem, pd) && u < USER_PAGES && mem[pd][u / ENTRIES] != 0 && w < B32
    ensures var pt := PageOf(mem[pd][u / ENTRIES]);
            var mem' := mem[pt := mem[pt][u % ENTRIES := w]];
            && WellFormed(mem', pd) && mem'[pd] == mem[pd]
            && forall v :: 0 <= v < USER_PAGES ==>
                 Entry(mem', pd, v) == if v == u then Some(w) else Entry(mem, pd, v)
  {
    var pt := PageOf(mem[pd][u / ENTRIES]);
    var mem' := mem[pt := mem[pt][u % ENTRIES := w]];
    assert mem'[pd] == mem[pd];
    assert WellFormed(mem', pd);
    forall v | 0 <= v < USER_PAGES ensures Entry(mem', pd, v) == if v == u then Some(w) else Entry(mem, pd, v) {
      if v / ENTRIES == u / ENTRIES {
        assert v % ENTRIES == u % ENTRIES ==> v == u;
      }
    }
  }

  ghost predicate HasTable(mem: Tables, pd: nat, i: nat)
    requires pd in mem && i < USER_PDES
  {
    mem[pd][i] != 0
  }

  /** The user directory entries that have a page table. */
  ghost function TableSet(mem: Tables, pd: nat): set<nat>
    requires pd in mem
  {
    set i: nat | i < USER_PDES && HasTable(mem, pd, i)
  }

  /** An entry with its lowest bit, the present flag, cleared and all others kept. */
  function WithoutPresent(e: Option<nat>): Option<nat> {
    if e.None? then None else Some(e.value - e.value % 2)
  }

  class PageDirectory {
    const pd: nat
    var mem: Tables

    ghost predicate Valid()
      reads this
    {
      WellFormed(mem, pd)
    }

    /** The entries for kernel addresses. */
    ghost function KernelEntries(): seq<nat>
      requires Valid()
      reads this
    {
      mem[pd][USER_PDES..]
    }

    /** pagedir_create on the page `page`, from a base directory without user entries. */
    constructor (page: nat, base: Table)
      requires forall i :: 0 <= i < USER_PDES ==> base[i] == 0
      ensures Valid() && pd == page && KernelEntries() == base[USER_PDES..] && mem.Keys == {page}
      ensures forall u :: 0 <= u < USER_PAGES ==> Mapped(mem, pd, u) == None
    {
      pd := page;
      mem := map[page := base];
    }

    /** lookup_page: the table and index of the entry for `va`.  With `create` a missing
        table is made from the page `memory`, if there is one. */
    method LookupPage(va: nat, create: bool, memory: Option<nat>) returns (r: Option<nat>)
      requires Valid() && va < PHYS_BASE && (memory.Some? ==> KernelPage(memory.value) && memory.value !in mem)
      modifies this
      ensures Valid() && KernelEntries() == old(KernelEntries())
      ensures forall u :: 0 <= u < USER_PAGES ==> Mapped(mem, pd, u) == old(Mapped(mem, pd, u))
      ensures r.Some? <==> (create && memory.Some?) || va / PGSIZE / ENTRIES in old(TableSet(mem, pd))
      ensures r.None? ==> mem == old(mem) && mem[pd][va / PGSIZE / ENTRIES] == 0
      ensures r.Some? ==> mem[pd][va / PGSIZE / ENTRIES] != 0 && r.value == PageOf(mem[pd][va / PGSIZE / ENTRIES])
      ensures !create ==> mem == old(mem)
      ensures mem.Keys <= old(mem.Keys) + if memory.Some? then {memory.value} else {}
      ensures TableSet(mem, pd) == old(TableSet(mem, pd)) + if r.Some? then {va / PGSIZE / ENTRIES} else {}
    {
      AddressFields(va);
      var i := PdNo(va);
      if mem[pd][i] == 0 {
        if create {
          if memory.None? {
            return None;
          }
          var pt := memory.value;
          AddTable(mem, pd, i, pt);
          mem := mem[pt := seq(ENTRIES, _ => 0)][pd := mem[pd][i := PdeCreate(pt)]];
        } else {
          return None;
        }
      }
      r := Some(PageOf(mem[pd][i]));
    }

    /** pagedir_set_page. */
    method SetPage(upage: nat, kpage: nat, writable: bool, memory: Option<nat>) returns (ok: bool)
      requires Valid() && upage < PHYS_BASE && upage % PGSIZE == 0 && KernelPage(kpage)
      requires Mapped(mem, pd, upage / PGSIZE) == None
      requires memory.Some? ==> KernelPage(memory.value) && memory.value !in mem
      modifies this
      ensures Valid() && KernelEntries() == old(KernelEntries())
      ensures ok <==> memory.Some? || upage / PGSIZE / ENTRIES in old(TableSet(mem, pd))
      ensures mem.Keys <= old(mem.Keys) + if memory.Some? then {memory.value} else {}
      ensures TableSet(mem, pd) == old(TableSet(mem, pd)) + if ok then {upage / PGSIZE / ENTRIES} else {}
      ensures forall u :: 0 <= u < USER_PAGES ==>
                Mapped(mem, pd, u) == if ok && u == upage / PGSIZE then Some(Mapping(kpage, writable))
                  else old(Mapped(mem, pd, u))
    {
      var pt := LookupPage(upage, true, memory);
      ok := pt.Some?;
      if ok {
        PteRoundTrip(kpage, writable);
        StoreEntry(pt.value, upage, PteCreateUser(kpage, writable));
      }
    }

    /** The entry for `va` in its page table becomes `w`. */
    method StoreEntry(pt: nat, va: nat, w: nat)
      requires Valid() && va < PHYS_BASE && mem[pd][va / PGSIZE / ENTRIES] != 0 && w < B32
      requires pt == PageOf(mem[pd][va / PGSIZE / ENTRIES])
      modifies this
      ensures Valid() && KernelEntries() == old(KernelEntries()) && mem.Keys == old(mem.Keys)
      ensures TableSet(mem, pd) == old(TableSet(mem, pd))
      ensures forall u :: 0 <= u < USER_PAGES ==>
                Entry(mem, pd, u) == if u == va / PGSIZE then Some(w) else old(Entry(mem, pd, u))
    {
      AddressFields(va);
      WriteEntry(mem, pd, va / PGSIZE, w);
      mem := mem[pt := mem[pt][PtNo(va) := w]];
      assert TableSet(mem, pd) == old(TableSet(mem, pd));
    }

    /** pagedir_get_page: the kernel address of the byte at `uaddr`. */
    method GetPage(uaddr: nat) returns (r: Option<nat>)
      requires Valid() && uaddr < PHYS_BASE
      modifies this
      ensures mem == old(mem)
      ensures r == match Mapped(mem, pd, uaddr / PGSIZE)
                   case None => None
                   case Some(m) => Some(m.page + uaddr % PGSIZE)
    {
      var pt := LookupPage(uaddr, false, None);
      AddressFields(uaddr);
      if pt.Some? && Present(mem[pt.value][PtNo(uaddr)]) {
        r := Some(PageOf(mem[pt.value][PtNo(uaddr)]) + PgOfs(uaddr));
      } else {
        r := None;
      }
    }

    /** pagedir_clear_page: the entry keeps its other bits. */
    method ClearPage(upage: nat)
      requires Valid() && upage < PHYS_BASE && upage % PGSIZE == 0
      modifies this
      ensures Valid() && KernelEntries() == old(KernelEntries())
      ensures forall u :: 0 <= u < USER_PAGES ==>
                Mapped(mem, pd, u) == if u == upage / PGSIZE then None else old(Mapped(mem, pd, u))
      ensures forall u :: 0 <= u < USER_PAGES ==>
                Entry(mem, pd, u) == if u == upage / PGSIZE then WithoutPresent(old(Entry(mem, pd, u)))
                  else old(Entry(mem, pd, u))
    {
      var pt := LookupPage(upage, false, None);
      AddressFields(upage);
      if pt.Some? {
        EntryFields(mem[pt.value][PtNo(upage)]);
      }
      if pt.Some? && Present(mem[pt.value][PtNo(upage)]) {
        var w := mem[pt.value][PtNo(upage)];
        ClearPresent(w);
        ClearMask(w);
        StoreEntry(pt.value, upage, And(w, B32 - 1 - PTE_P));
      }
    }
  }

  lemma ClearPresent(w: nat)
    requires w < B32
    ensures And(w, B32 - 1 - PTE_P) < B32 && !Present(And(w, B32 - 1 - PTE_P))
    ensures PageOf(And(w, B32 - 1 - PTE_P)) == PageOf(w)
  {
    ClearMask(w);
    EvenPart(w);
    EntryFields(w);
    EntryFields(w - w % 2);
  }

  // ----- destruction

  /** A page table at address `at` with its entries. */
  datatype PageTable = PageTable(at: nat, entries: seq<Option<Mapping>>)

  /** The user part of a directory, read. */
  type Directory = seq<Option<PageTable>>

  ghost predicate FullTables(dir: Directory) {
    forall i :: 0 <= i < |dir| && dir[i].Some? ==> |dir[i].value.entries| == ENTRIES
  }

  ghost function Entries(t: seq<nat>): seq<Option<Mapping>> {
    seq(|t|, i requires 0 <= i < |t| => ReadPte(t[i]))
  }

  ghost function Read(mem: Tables, pd: nat): (dir: Directory)
    requires WellFormed(mem, pd)
    ensures |dir| == USER_PDES && FullTables(dir)
  {
    seq(USER_PDES, i requires 0 <= i < USER_PDES =>
      if mem[pd][i] == 0 then None else Some(PageTable(PageOf(mem[pd][i]), Entries(mem[PageOf(mem[pd][i])]))))
  }

  /** The mapping of user page `u`. */
  ghost function At(dir: Directory, u: nat): Option<Mapping>
    requires FullTables(dir) && u < ENTRIES * |dir|
  {
    if dir[u / ENTRIES].None? then None else dir[u / ENTRIES].value.entries[u % ENTRIES]
  }

  lemma ReadMapped(mem: Tables, pd: nat, u: nat)
    requires WellFormed(mem, pd) && u < USER_PAGES
    ensures Mapped(mem, pd, u) == At(Read(mem, pd), u)
  {
  }

  /** The frames of some page table entries. */
  ghost function Frames(es: seq<Option<Mapping>>): seq<nat> {
    if es == [] then []
    else
      var n := |es| - 1;
      Frames(es[..n]) + if es[n].Some? then [es[n].value.page] else []
  }

  /** The frames and page tables of a directory. */
  ghost function Freed(dir: Directory): seq<nat> {
    if dir == [] then []
    else
      var n := |dir| - 1;
      Freed(dir[..n]) + if dir[n].Some? then Frames(dir[n].value.entries) + [dir[n].value.at] else []
  }

  /** pagedir_destroy: the pages given to palloc_free_page, in order. */
  method Destroy(mem: Tables, pd: nat) returns (freed: seq<nat>)
    requires WellFormed(mem, pd)
    ensures freed == Freed(Read(mem, pd)) + [pd]
  {
    freed := [];
    ghost var dir := Read(mem, pd);
    for i := 0 to USER_PDES
      invariant freed == Freed(dir[..i])
    {
      assert dir[..i + 1][..i] == dir[..i];
      var pde := mem[pd][i];
      FlagMasks(0);
      if Present(pde) {
        freed := FreeFrames(mem[PageOf(pde)], freed);
        freed := freed + [PageOf(pde)];
      }
    }
    assert dir[..USER_PDES] == dir;
    freed := freed + [pd];
  }

  /** The inner loop. */
  method FreeFrames(t: Table, before: seq<nat>) returns (freed: seq<nat>)
    ensures freed == before + Frames(Entries(t))
  {
    freed := before;
    ghost var es := Entries(t);
    for j := 0 to ENTRIES
      invariant freed == before + Frames(es[..j])
    {
      assert es[..j + 1][..j] == es[..j] && es[j] == ReadPte(t[j]);
      if Present(t[j]) {
        freed := freed + [PageOf(t[j])];
      }
    }
    assert es[..ENTRIES] == es;
  }

  // ----- how often each page is freed

  predicate Hits(e: Option<Mapping>, x: nat) {
    e.Some? && e.value.page == x
  }

  /** The user pages mapped to the page `x`. */
  ghost function MappedTo(dir: Directory, x: nat): nat -> bool
    requires FullTables(dir)
  {
    (u: nat) => u < ENTRIES * |dir| && Hits(At(dir, u), x)
  }

  /** For how many of the numbers below `n` does `f` hold? */
  ghost function HowMany(f: nat -> bool, n: nat): nat {
    if n == 0 then 0 else HowMany(f, n - 1) + if f(n - 1) then 1 else 0
  }

  /** How many page tables lie at `x`. */
  ghost function TablesAt(dir: Directory, x: nat): nat {
    if dir == [] then 0
    else
      var n := |dir| - 1;
      TablesAt(dir[..n], x) + if dir[n].Some? && dir[n].value.at == x then 1 else 0
  }

  ghost function Count(s: seq<nat>, x: nat): nat {
    if s == [] then 0 else Count(s[..|s| - 1], x) + if s[|s| - 1] == x then 1 else 0
  }

  lemma {:induction false} CountIsMultiplicity(s: seq<nat>, x: nat)
    ensures Count(s, x) == multiset(s)[x]
  {
    if s != [] {
      var n := |s| - 1;
      CountIsMultiplicity(s[..n], x);
      assert s == s[..n] + [s[n]];
    }
  }

  lemma {:induction false} CountConcat(a: seq<nat>, b: seq<nat>, x: nat)
    ensures Count(a + b, x) == Count(a, x) + Count(b, x)
  {
    if b == [] {
      assert a + b == a;
    } else {
      var n := |b| - 1;
      CountConcat(a, b[..n], x);
      assert (a + b)[..|a| + n] == a + b[..n];
    }
  }

  lemma {:induction false} FramesCount(f: nat -> bool, m: nat, es: seq<Option<Mapping>>, x: nat)
    requires forall u :: m <= u < m + |es| ==> (f(u) <==> Hits(es[u - m], x))
    ensures HowMany(f, m + |es|) == HowMany(f, m) + Count(Frames(es), x)
    decreases |es|
  {
    if es != [] {
      var n := |es| - 1;
      FramesCount(f, m, es[..n], x);
      var last := if es[n].Some? then [es[n].value.page] else [];
      CountConcat(Frames(es[..n]), last, x);
      assert f(m + n) <==> Hits(es[n], x);
      assert Count(last, x) == if Hits(es[n], x) then 1 else 0;
    }
  }

  lemma {:induction false} NoneThere(f: nat -> bool, m: nat, j: nat)
    requires forall u :: m <= u < m + j ==> !f(u)
    ensures HowMany(f, m + j) == HowMany(f, m)
    decreases j
  {
    if j > 0 {
      NoneThere(f, m, j - 1);
    }
  }

  lemma {:induction false} SameCount(f: nat -> bool, g: nat -> bool, n: nat)
    requires forall u :: 0 <= u < n ==> (f(u) <==> g(u))
    ensures HowMany(f, n) == HowMany(g, n)
    decreases n
  {
    if n > 0 {
      SameCount(f, g, n - 1);
    }
  }

  /** The last page table of a directory, as a stretch of user pages. */
  lemma LastTable(dir: Directory, x: nat)
    requires dir != [] && FullTables(dir)
    ensures var n := |dir| - 1;
            && FullTables(dir[..n])
            && (forall u :: 0 <= u < ENTRIES * n ==> (MappedTo(dir, x)(u) <==> MappedTo(dir[..n], x)(u)))
            && (forall u :: ENTRIES * n <= u < ENTRIES * n + ENTRIES ==>
                  (MappedTo(dir, x)(u) <==> dir[n].Some? && Hits(dir[n].value.entries[u - ENTRIES * n], x)))
  {
    var n := |dir| - 1;
    forall u | 0 <= u < ENTRIES * n ensures At(dir, u) == At(dir[..n], u) {
      assert u / ENTRIES < n;
    }
    forall u | ENTRIES * n <= u < ENTRIES * n + ENTRIES ensures u / ENTRIES == n && u % ENTRIES == u - ENTRIES * n {
    }
  }

  /** What the last directory entry adds to the list and to the mappings. */
  lemma LastTableCount(dir: Directory, x: nat)
    requires dir != [] && FullTables(dir)
    ensures var n, f := |dir| - 1, MappedTo(dir, x);
            && FullTables(dir[..n]) && HowMany(f, ENTRIES * n) == HowMany(MappedTo(dir[..n], x), ENTRIES * n)
            && HowMany(f, ENTRIES * n + ENTRIES) == HowMany(f, ENTRIES * n) +
                 if dir[n].Some? then Count(Frames(dir[n].value.entries), x) else 0
  {
    hide Count, Frames, HowMany, MappedTo;
    var n, f := |dir| - 1, MappedTo(dir, x);
    assert FullTables(dir[..n]);
    assert HowMany(f, ENTRIES * n) == HowMany(MappedTo(dir[..n], x), ENTRIES * n) by {
      LastTable(dir, x);
      SameCount(f, MappedTo(dir[..n], x), ENTRIES * n);
    }
    if dir[n].Some? {
      PresentTableCount(dir, x, f, ENTRIES * n, dir[n].value.entries);
    } else {
      assert HowMany(f, ENTRIES * n + ENTRIES) == HowMany(f, ENTRIES * n) by {
        LastTable(dir, x);
        NoneThere(f, ENTRIES * n, ENTRIES);
      }
    }
  }

  lemma PresentTableCount(dir: Directory, x: nat, f: nat -> bool, m: nat, es: seq<Option<Mapping>>)
    requires dir != [] && FullTables(dir) && f == MappedTo(dir, x) && m == ENTRIES * (|dir| - 1)
    requires dir[|dir| - 1].Some? && es == dir[|dir| - 1].value.entries
    ensures HowMany(f, m + ENTRIES) == HowMany(f, m) + Count(Frames(es), x)
  {
    LastTable(dir, x);
    FramesCount(f, m, es, x);
  }

  lemma LastFreed(dir: Directory, x: nat)
    requires dir != []
    ensures var n := |dir| - 1;
            Count(Freed(dir), x) == Count(Freed(dir[..n]), x) +
              if dir[n].Some? then Count(Frames(dir[n].value.entries), x) + (if dir[n].value.at == x then 1 else 0)
                else 0
  {
    var n := |dir| - 1;
    if dir[n].Some? {
      var t := dir[n].value;
      CountConcat(Freed(dir[..n]), Frames(t.entries) + [t.at], x);
      CountConcat(Frames(t.entries), [t.at], x);
      assert Count([t.at], x) == if t.at == x then 1 else 0;
    } else {
      assert Freed(dir) == Freed(dir[..n]);
    }
  }

  lemma {:induction false} FreedCount(dir: Directory, x: nat)
    requires FullTables(dir)
    ensures Count(Freed(dir), x) == HowMany(MappedTo(dir, x), ENTRIES * |dir|) + TablesAt(dir, x)
  {
    if dir != [] {
      var n := |dir| - 1;
      LastTableCount(dir, x);
      LastFreed(dir, x);
      FreedCount(dir[..n], x);
      assert ENTRIES * |dir| == ENTRIES * n + ENTRIES;
    }
  }

  /** Every page is freed once for each user page mapped to it, once if it is a page table
      of the directory, and once if it is the directory. */
  lemma DestroyFrees(dir: Directory, pd: nat, x: nat)
    requires FullTables(dir)
    ensures multiset(Freed(dir) + [pd])[x] ==
            HowMany(MappedTo(dir, x), ENTRIES * |dir|) + TablesAt(dir, x) + if x == pd then 1 else 0
  {
    FreedCount(dir, x);
    CountIsMultiplicity(Freed(dir), x);
  }

  /** The page tables of a well-formed directory are pages of their own. */
  ghost predicate TablesApart(dir: Directory, pd: nat) {
    && (forall i :: 0 <= i < |dir| && dir[i].Some? ==> dir[i].value.at != pd)
    && (forall i, j :: 0 <= i < j < |dir| && dir[i].Some? && dir[j].Some? ==> dir[i].value.at != dir[j].value.at)
  }

  lemma ReadApart(mem: Tables, pd: nat)
    requires WellFormed(mem, pd)
    ensures TablesApart(Read(mem, pd), pd)
  {
  }

  /** No two user pages share a frame, and none is mapped to a page table or the directory. */
  ghost predicate Injective(dir: Directory, pd: nat)
    requires FullTables(dir)
  {
    && (forall u: nat, x: nat :: u < ENTRIES * |dir| ==> Private(dir, pd, u, x))
    && (forall u: nat, v: nat, x: nat :: u < v < ENTRIES * |dir| ==> !Shared(dir, u, v, x))
  }

  ghost predicate Private(dir: Directory, pd: nat, u: nat, x: nat)
    requires FullTables(dir) && u < ENTRIES * |dir|
  {
    Hits(At(dir, u), x) ==> x != pd && TablesAt(dir, x) == 0
  }

  ghost predicate Shared(dir: Directory, u: nat, v: nat, x: nat)
    requires FullTables(dir) && u < ENTRIES * |dir| && v < ENTRIES * |dir|
  {
    Hits(At(dir, u), x) && Hits(At(dir, v), x)
  }

  lemma {:induction false} HowManyPositive(f: nat -> bool, n: nat, u: nat)
    requires u < n && f(u)
    ensures HowMany(f, n) >= 1 + HowMany(f, u)
    decreases n
  {
    if u < n - 1 {
      HowManyPositive(f, n - 1, u);
    }
  }

  lemma {:induction false} HowManyAtMostOne(f: nat -> bool, n: nat)
    requires forall u, v :: 0 <= u < v < n && f(u) ==> !f(v)
    ensures HowMany(f, n) <= 1
    decreases n
  {
    if n > 0 {
      HowManyAtMostOne(f, n - 1);
      if f(n - 1) {
        NoneThere(f, 0, n - 1);
      }
    }
  }

  lemma {:induction false} TablesAtMostOne(dir: Directory, pd: nat, x: nat)
    requires TablesApart(dir, pd)
    ensures TablesAt(dir, x) <= 1 && (x == pd ==> TablesAt(dir, x) == 0)
    ensures (forall i :: 0 <= i < |dir| && dir[i].Some? ==> dir[i].value.at != x) ==> TablesAt(dir, x) == 0
  {
    if dir != [] {
      var n := |dir| - 1;
      assert TablesApart(dir[..n], pd);
      TablesAtMostOne(dir[..n], pd, x);
    }
  }

  ghost predicate FreedOnce(dir: Directory, pd: nat) {
    forall x: nat :: multiset(Freed(dir) + [pd])[x] <= 1
  }

  /** Destruction frees no page twice exactly when the mapping is injective. */
  lemma FreedOnceIff(dir: Directory, pd: nat)
    requires FullTables(dir) && TablesApart(dir, pd)
    ensures FreedOnce(dir, pd) <==> Injective(dir, pd)
  {
    if Injective(dir, pd) {
      forall x: nat ensures multiset(Freed(dir) + [pd])[x] <= 1 {
        OnceIfInjective(dir, pd, x);
      }
    }
    if FreedOnce(dir, pd) {
      InjectiveIfOnce(dir, pd);
    }
  }

  /** A frame mapped at two pages is freed twice. */
  method MapTwice(dir: PageDirectory, kpage: nat, table: nat)
    requires dir.Valid() && KernelPage(kpage) && KernelPage(table) && table !in dir.mem
    requires forall u :: 0 <= u < USER_PAGES ==> Mapped(dir.mem, dir.pd, u) == None
    modifies dir
    ensures dir.Valid() && !FreedOnce(Read(dir.mem, dir.pd), dir.pd)
  {
    var first := dir.SetPage(PGSIZE, kpage, true, Some(table));
    var second := dir.SetPage(2 * PGSIZE, kpage, true, None);
    ghost var read := Read(dir.mem, dir.pd);
    ReadMapped(dir.mem, dir.pd, 1);
    ReadMapped(dir.mem, dir.pd, 2);
    ReadApart(dir.mem, dir.pd);
    assert Shared(read, 1, 2, kpage);
    FreedOnceIff(read, dir.pd);
  }

  lemma OnceIfInjective(dir: Directory, pd: nat, x: nat)
    requires FullTables(dir) && TablesApart(dir, pd) && Injective(dir, pd)
    ensures multiset(Freed(dir) + [pd])[x] <= 1
  {
    var f, n := MappedTo(dir, x), ENTRIES * |dir|;
    assert HowMany(f, n) <= 1 && (x == pd || TablesAt(dir, x) > 0 ==> HowMany(f, n) == 0) by {
      forall u, v | 0 <= u < v < n && f(u) ensures !f(v) {
        assert !Shared(dir, u, v, x);
      }
      HowManyAtMostOne(f, n);
      if x == pd || TablesAt(dir, x) > 0 {
        forall u | 0 <= u < 0 + n ensures !f(u) {
          var e := At(dir, u);
          assert Private(dir, pd, u, x) && (f(u) ==> Hits(e, x));
        }
        NoneThere(f, 0, n);
      }
    }
    DestroyFrees(dir, pd, x);
    TablesAtMostOne(dir, pd, x);
  }

  lemma OneMapping(dir: Directory, pd: nat, u: nat, x: nat)
    requires FullTables(dir) && FreedOnce(dir, pd) && u < ENTRIES * |dir|
    ensures Private(dir, pd, u, x)
  {
    DestroyFrees(dir, pd, x);
    if Hits(At(dir, u), x) {
      HowManyPositive(MappedTo(dir, x), ENTRIES * |dir|, u);
    }
  }

  lemma NoTwoMappings(dir: Directory, pd: nat, u: nat, v: nat, x: nat)
    requires FullTables(dir) && FreedOnce(dir, pd) && u < v < ENTRIES * |dir|
    ensures !Shared(dir, u, v, x)
  {
    var f := MappedTo(dir, x);
    DestroyFrees(dir, pd, x);
    if f(u) && f(v) {
      HowManyPositive(f, v, u);
      HowManyPositive(f, ENTRIES * |dir|, v);
    }
  }

  lemma InjectiveIfOnce(dir: Directory, pd: nat)
    requires FullTables(dir) && FreedOnce(dir, pd)
    ensures Injective(dir, pd)
  {
    forall u: nat, x: nat | u < ENTRIES * |dir| ensures Private(dir, pd, u, x) {
      OneMapping(dir, pd, u, x);
    }
    forall u: nat, v: nat, x: nat | u < v < ENTRIES * |dir| ensures !Shared(dir, u, v, x) {
      NoTwoMappings(dir, pd, u, v, x);
    }
  }
}
