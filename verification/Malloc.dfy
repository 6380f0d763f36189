/** The block allocator of threads/malloc.c: requests are rounded up to a power of
    two and served from one-page arenas cut into equal blocks; bigger ones get whole
    pages.  Sizes and addresses are 32-bit. */
module Malloc {
  import opened Bitmap
  import opened Machine
  import opened Palloc
  import opened Products
  import opened Sequences
  import opened Wrappers

  const ARENA_SIZE: nat := 12

  /** A descriptor: the size of its blocks and how many fit into an arena. */
  datatype Desc = Desc(blockSize: nat, perArena: nat)

  /** The header of an arena: a page of blocks of descriptor `desc` with its number
      of free blocks, or a big block of `pages` pages. */
  datatype Arena = Small(desc: nat, freeCnt: nat) | Big(pages: nat)

  /** The `idx`'th block of the arena at page `page`. */
  datatype Block = Block(page: nat, idx: nat)

  /** All arenas by page number, and each descriptor's list of free blocks. */
  datatype Heap = Heap(arenas: map<nat, Arena>, free: seq<seq<Block>>)

  ghost predicate ValidDescs(ds: seq<Desc>) {
    && (forall i :: 0 <= i < |ds| ==>
          && ds[i].blockSize > 0 && ds[i].perArena > 0
          && IsQuotient(PGSIZE - ARENA_SIZE, ds[i].blockSize, ds[i].perArena))
    && (forall i, j :: 0 <= i < j < |ds| ==> ds[i].blockSize < ds[j].blockSize)
  }

  const SIZES: seq<nat> := [16, 32, 64, 128, 256, 512, 1024]

  /** malloc_init: block sizes doubling from 16 while below half a page. */
  method MallocInit() returns (ds: seq<Desc>)
    ensures ValidDescs(ds) && |ds| == |SIZES|
    ensures forall i :: 0 <= i < |ds| ==> ds[i].blockSize == SIZES[i]
  {
    ds := [];
    var size := 16;
    while size < PGSIZE / 2
      invariant |ds| <= |SIZES| && size == if |ds| < |SIZES| then SIZES[|ds|] else 2048
      invariant ValidDescs(ds) && forall i :: 0 <= i < |ds| ==> ds[i].blockSize == SIZES[i]
      decreases |SIZES| - |ds|
    {
      var per := DivFloor(PGSIZE - ARENA_SIZE, size);
      QuotientLeast(PGSIZE - ARENA_SIZE, size, per, 1);
      ds := ds + [Desc(size, per)];
      size := size * 2;
    }
  }

  // ----- the invariant

  ghost function Extent(a: Arena): nat {
    if a.Small? then 1 else a.pages
  }

  /** The pages of all arenas. */
  ghost function ArenaPages(arenas: map<nat, Arena>): set<nat> {
    set p, q | p in arenas && q in Pages(p, Extent(arenas[p])) :: q
  }

  ghost function FreeIdx(list: seq<Block>, page: nat, cnt: nat): set<nat> {
    set i | 0 <= i < cnt && Block(page, i) in list
  }

  /** The free list of descriptor `d` holds blocks of its own arenas, each once. */
  ghost predicate ListOk(ds: seq<Desc>, arenas: map<nat, Arena>, d: nat, list: seq<Block>)
    requires d < |ds|
  {
    && NoDup(list)
    && forall b :: b in list ==>
         b.page in arenas && arenas[b.page].Small? && arenas[b.page].desc == d && b.idx < ds[d].perArena
  }

  /** The header of the arena at `page` counts the arena's free blocks, and unless
      `page` is `whole` some block of it is in use. */
  ghost predicate ArenaOk(ds: seq<Desc>, h: Heap, page: nat, whole: set<nat>)
    requires page in h.arenas
  {
    match h.arenas[page]
    case Small(d, cnt) =>
      && d < |ds| && d < |h.free|
      && cnt == |FreeIdx(h.free[d], page, ds[d].perArena)|
      && (cnt < ds[d].perArena || page in whole)
    case Big(n) => n > 0
  }

  /** `whole` are arenas that may be entirely free for the moment. */
  ghost predicate Inv(ds: seq<Desc>, h: Heap, whole: set<nat>) {
    && |h.free| == |ds|
    && (forall d :: 0 <= d < |ds| ==> ListOk(ds, h.arenas, d, h.free[d]))
    && (forall p :: p in h.arenas ==> ArenaOk(ds, h, p, whole))
    && (forall p, q :: p in h.arenas && q in h.arenas && p != q ==>
          Pages(p, Extent(h.arenas[p])) !! Pages(q, Extent(h.arenas[q])))
  }

  /** Block `b` is allocated. */
  ghost predicate Live(ds: seq<Desc>, h: Heap, b: Block) {
    b.page in h.arenas &&
    match h.arenas[b.page]
    case Small(d, _) => d < |ds| && d < |h.free| && b.idx < ds[d].perArena && b !in h.free[d]
    case Big(_) => b.idx == 0
  }

  // ----- counting free blocks

  lemma FreeIdxAll(list: seq<Block>, page: nat, cnt: nat)
    ensures |FreeIdx(list, page, cnt)| <= cnt
    ensures |FreeIdx(list, page, cnt)| == cnt <==> forall i :: 0 <= i < cnt ==> Block(page, i) in list
    decreases cnt
  {
    if cnt > 0 {
      var n := cnt - 1;
      FreeIdxAll(list, page, n);
      assert FreeIdx(list, page, cnt) == FreeIdx(list, page, n) + if Block(page, n) in list then {n} else {};
    } else {
      assert FreeIdx(list, page, cnt) == {};
    }
  }

  /** Adding or removing one block of an arena changes its count by one and no other's. */
  lemma FreeIdxChange(more: seq<Block>, less: seq<Block>, b: Block, page: nat, cnt: nat)
    requires b !in less && forall c :: c in more <==> c == b || c in less
    ensures |FreeIdx(more, page, cnt)| == |FreeIdx(less, page, cnt)| + if page == b.page && b.idx < cnt then 1 else 0
  {
    if page == b.page && b.idx < cnt {
      assert FreeIdx(more, page, cnt) == FreeIdx(less, page, cnt) + {b.idx};
    } else {
      assert FreeIdx(more, page, cnt) == FreeIdx(less, page, cnt);
    }
  }

  // ----- the elementary changes

  function AllBlocks(page: nat, cnt: nat): seq<Block> {
    seq(cnt, i requires 0 <= i < cnt => Block(page, i))
  }

  /** A new page becomes an arena of `d`, all of its blocks free. */
  ghost function AddArena(ds: seq<Desc>, h: Heap, d: nat, page: nat): Heap
    requires d < |ds| == |h.free|
  {
    var n := ds[d].perArena;
    Heap(h.arenas[page := Small(d, n)], h.free[d := h.free[d] + AllBlocks(page, n)])
  }

  /** The first free block of `d` is handed out. */
  ghost function Pop(h: Heap, d: nat): Heap
    requires d < |h.free| && h.free[d] != [] && h.free[d][0].page in h.arenas
  {
    var p := h.free[d][0].page;
    Heap(Recount(h.arenas, p, -1), h.free[d := h.free[d][1..]])
  }

  /** A block comes back. */
  ghost function Push(h: Heap, d: nat, b: Block): Heap
    requires d < |h.free| && b.page in h.arenas
  {
    Heap(Recount(h.arenas, b.page, 1), h.free[d := [b] + h.free[d]])
  }

  /** The free count in the header at `page` changes by `delta`. */
  ghost function Recount(arenas: map<nat, Arena>, page: nat, delta: int): map<nat, Arena>
    requires page in arenas
  {
    match arenas[page]
    case Small(d, cnt) => if cnt + delta < 0 then arenas else arenas[page := Small(d, cnt + delta)]
    case Big(_) => arenas
  }

  /** `list` without the first `n` blocks of the arena at `page`, in order. */
  ghost function Without(list: seq<Block>, page: nat, n: nat): (r: seq<Block>)
    ensures forall b :: b in r <==> b in list && !(b.page == page && b.idx < n)
    ensures NoDup(list) ==> NoDup(r)
  {
    if list == [] then []
    else (if list[0].page == page && list[0].idx < n then [] else [list[0]]) + Without(list[1..], page, n)
  }

  ghost function DropArena(ds: seq<Desc>, h: Heap, d: nat, page: nat): Heap
    requires d < |ds| == |h.free|
  {
    Heap(h.arenas - {page}, h.free[d := Without(h.free[d], page, ds[d].perArena)])
  }

  // ----- each keeps the invariant

  lemma InOwnPages(ds: seq<Desc>, h: Heap, whole: set<nat>, p: nat)
    requires Inv(ds, h, whole) && p in h.arenas
    ensures p in Pages(p, Extent(h.arenas[p])) && p in ArenaPages(h.arenas)
  {
    assert ArenaOk(ds, h, p, whole);
  }

  lemma AddArenaKeeps(ds: seq<Desc>, h: Heap, d: nat, page: nat)
    requires ValidDescs(ds) && Inv(ds, h, {}) && d < |ds| && page !in ArenaPages(h.arenas)
    ensures Inv(ds, AddArena(ds, h, d, page), {page})
  {
    hide AllBlocks, FreeIdx, ListOk, Pages;
    var n := ds[d].perArena;
    var h' := AddArena(ds, h, d, page);
    assert page !in h.arenas by {
      if page in h.arenas {
        InOwnPages(ds, h, {}, page);
      }
    }
    forall e | 0 <= e < |ds| ensures ListOk(ds, h'.arenas, e, h'.free[e]) {
      AddedListOk(ds, h.arenas, d, page, e, h.free[e]);
    }
    forall p | p in h'.arenas ensures ArenaOk(ds, h', p, {page}) {
      if p != page {
        assert ArenaOk(ds, h, p, {});
      }
      AddedFreeIdx(ds, h.arenas, d, h.free[d], page, n, p);
    }
    forall p | p in h.arenas ensures page !in Pages(p, Extent(h.arenas[p])) {
      assert page in Pages(p, Extent(h.arenas[p])) ==> page in ArenaPages(h.arenas);
    }
    assert Pages(page, 1) == {page} by { OnePage(page); }
  }

  lemma OnePage(page: nat)
    ensures Pages(page, 1) == {page}
  {
  }

  lemma AddedListOk(ds: seq<Desc>, arenas: map<nat, Arena>, d: nat, page: nat, e: nat, list: seq<Block>)
    requires d < |ds| && e < |ds| && page !in arenas && ListOk(ds, arenas, e, list)
    ensures var n := ds[d].perArena;
      ListOk(ds, arenas[page := Small(d, n)], e, if e == d then list + AllBlocks(page, n) else list)
  {
  }

  lemma AddedFreeIdx(ds: seq<Desc>, arenas: map<nat, Arena>, d: nat, list: seq<Block>, page: nat, n: nat, p: nat)
    requires d < |ds| && ListOk(ds, arenas, d, list) && page !in arenas
    ensures |FreeIdx(list + AllBlocks(page, n), page, n)| == n
    ensures p != page ==> FreeIdx(list + AllBlocks(page, n), p, n) == FreeIdx(list, p, n)
  {
    var more := list + AllBlocks(page, n);
    forall i | 0 <= i < n ensures Block(page, i) in more {
      assert AllBlocks(page, n)[i] == Block(page, i);
    }
    FreeIdxAll(more, page, n);
  }

  lemma PopKeeps(ds: seq<Desc>, h: Heap, d: nat, whole: set<nat>)
    requires ValidDescs(ds) && Inv(ds, h, whole) && d < |ds| && h.free[d] != []
    requires forall p :: p in whole ==> p == h.free[d][0].page
    ensures h.free[d][0].page in h.arenas && Inv(ds, Pop(h, d), {})
  {
    var b := h.free[d][0];
    assert b in h.free[d] && ListOk(ds, h.arenas, d, h.free[d]) && ArenaOk(ds, h, b.page, whole);
    var h' := Pop(h, d);
    var less := h.free[d][1..];
    assert forall c :: c in h.free[d] <==> c == b || c in less;
    FreeIdxChange(h.free[d], less, b, b.page, ds[d].perArena);
    FreeIdxAll(h.free[d], b.page, ds[d].perArena);
    forall e | 0 <= e < |ds| ensures ListOk(ds, h'.arenas, e, h'.free[e]) {
      assert ListOk(ds, h.arenas, e, h.free[e]);
    }
    forall p | p in h'.arenas ensures ArenaOk(ds, h', p, {}) {
      assert ArenaOk(ds, h, p, whole);
      if p != b.page && h.arenas[p].Small? && h.arenas[p].desc == d {
        FreeIdxChange(h.free[d], less, b, p, ds[d].perArena);
      }
    }
  }

  lemma PushKeeps(ds: seq<Desc>, h: Heap, d: nat, b: Block)
    requires ValidDescs(ds) && Inv(ds, h, {}) && d < |ds| && b.page in h.arenas
    requires h.arenas[b.page].Small? && h.arenas[b.page].desc == d && b.idx < ds[d].perArena && b !in h.free[d]
    ensures Inv(ds, Push(h, d, b), {b.page})
  {
    var h' := Push(h, d, b);
    assert forall c :: c in h'.free[d] <==> c == b || c in h.free[d];
    assert ArenaOk(ds, h, b.page, {});
    FreeIdxChange(h'.free[d], h.free[d], b, b.page, ds[d].perArena);
    forall e | 0 <= e < |ds| ensures ListOk(ds, h'.arenas, e, h'.free[e]) {
      assert ListOk(ds, h.arenas, e, h.free[e]);
    }
    forall p | p in h'.arenas ensures ArenaOk(ds, h', p, {b.page}) {
      assert ArenaOk(ds, h, p, {});
      if p != b.page && h.arenas[p].Small? && h.arenas[p].desc == d {
        FreeIdxChange(h'.free[d], h.free[d], b, p, ds[d].perArena);
      }
    }
  }

  lemma DropKeeps(ds: seq<Desc>, h: Heap, d: nat, page: nat)
    requires ValidDescs(ds) && Inv(ds, h, {page}) && d < |ds| && page in h.arenas
    requires h.arenas[page].Small? && h.arenas[page].desc == d
    ensures Inv(ds, DropArena(ds, h, d, page), {})
  {
    var h' := DropArena(ds, h, d, page);
    forall e | 0 <= e < |ds| ensures ListOk(ds, h'.arenas, e, h'.free[e]) {
      assert ListOk(ds, h.arenas, e, h.free[e]);
    }
    forall p | p in h'.arenas ensures ArenaOk(ds, h', p, {}) {
      assert ArenaOk(ds, h, p, {page});
      if h.arenas[p].Small? && h.arenas[p].desc == d {
        assert FreeIdx(h'.free[d], p, ds[d].perArena) == FreeIdx(h.free[d], p, ds[d].perArena);
      }
    }
  }

  lemma AddBigKeeps(ds: seq<Desc>, h: Heap, page: nat, n: nat)
    requires Inv(ds, h, {}) && n > 0 && Pages(page, n) !! ArenaPages(h.arenas)
    ensures Inv(ds, h.(arenas := h.arenas[page := Big(n)]), {})
  {
    var h' := h.(arenas := h.arenas[page := Big(n)]);
    assert page in Pages(page, n);
    assert page !in h.arenas by {
      if page in h.arenas {
        InOwnPages(ds, h, {}, page);
      }
    }
    forall d | 0 <= d < |ds| ensures ListOk(ds, h'.arenas, d, h'.free[d]) {
      assert ListOk(ds, h.arenas, d, h.free[d]);
    }
    forall p | p in h'.arenas ensures ArenaOk(ds, h', p, {}) {
      assert p != page ==> ArenaOk(ds, h, p, {});
    }
    forall p, q | p in h.arenas && q in Pages(p, Extent(h.arenas[p])) ensures q !in Pages(page, n) {
      assert q in ArenaPages(h.arenas);
    }
  }

  lemma DropBigKeeps(ds: seq<Desc>, h: Heap, page: nat)
    requires Inv(ds, h, {}) && page in h.arenas && h.arenas[page].Big?
    ensures Inv(ds, h.(arenas := h.arenas - {page}), {})
  {
    var h' := h.(arenas := h.arenas - {page});
    forall d | 0 <= d < |ds| ensures ListOk(ds, h'.arenas, d, h'.free[d]) {
      assert ListOk(ds, h.arenas, d, h.free[d]);
    }
    forall p | p in h'.arenas ensures ArenaOk(ds, h', p, {}) {
      assert ArenaOk(ds, h, p, {});
    }
  }

  // ----- addresses

  /** The address that malloc returns for a block. */
  ghost function Addr(ds: seq<Desc>, h: Heap, b: Block): nat
    requires Live(ds, h, b)
  {
    match h.arenas[b.page]
    case Small(d, _) => b.page * PGSIZE + ARENA_SIZE + b.idx * ds[d].blockSize
    case Big(_) => b.page * PGSIZE + ARENA_SIZE
  }

  /** block_size: the bytes that belong to a block. */
  ghost function Capacity(ds: seq<Desc>, h: Heap, b: Block): int
    requires Live(ds, h, b)
  {
    match h.arenas[b.page]
    case Small(d, _) => ds[d].blockSize
    case Big(n) => PGSIZE * n - ARENA_SIZE
  }

  /** A block lies inside its arena, behind the header. */
  lemma InsideArena(ds: seq<Desc>, h: Heap, b: Block)
    requires ValidDescs(ds) && Inv(ds, h, {}) && Live(ds, h, b)
    ensures b.page * PGSIZE + ARENA_SIZE <= Addr(ds, h, b) < Addr(ds, h, b) + Capacity(ds, h, b)
    ensures Addr(ds, h, b) + Capacity(ds, h, b) <= (b.page + Extent(h.arenas[b.page])) * PGSIZE
  {
    hide FreeIdx, ListOk, Pages;
    assert ArenaOk(ds, h, b.page, {});
    if h.arenas[b.page].Small? {
      var d := h.arenas[b.page].desc;
      MulMono(b.idx + 1, ds[d].perArena, ds[d].blockSize);
      MulDist(b.idx, 1, ds[d].blockSize);
    }
  }

  /** Allocated blocks never overlap. */
  lemma LiveBlocksDisjoint(ds: seq<Desc>, h: Heap, b: Block, c: Block)
    requires ValidDescs(ds) && Inv(ds, h, {}) && Live(ds, h, b) && Live(ds, h, c) && b != c
    ensures || Addr(ds, h, b) + Capacity(ds, h, b) <= Addr(ds, h, c)
            || Addr(ds, h, c) + Capacity(ds, h, c) <= Addr(ds, h, b)
  {
    InsideArena(ds, h, b);
    InsideArena(ds, h, c);
    if b.page == c.page {
      var size := ds[h.arenas[b.page].desc].blockSize;
      if b.idx < c.idx {
        MulMono(b.idx + 1, c.idx, size);
        MulDist(b.idx, 1, size);
      } else {
        MulMono(c.idx + 1, b.idx, size);
        MulDist(c.idx, 1, size);
      }
    } else {
      ApartPages(b.page, Extent(h.arenas[b.page]), c.page, Extent(h.arenas[c.page]));
    }
  }

  lemma ApartPages(p: nat, m: nat, q: nat, n: nat)
    requires m > 0 && n > 0 && Pages(p, m) !! Pages(q, n)
    ensures p + m <= q || q + n <= p
  {
    assert p in Pages(p, m) && q in Pages(q, n);
  }

  /** Rounding an address down to a page gives its arena, and its offset behind the
      header is a whole number of blocks. */
  lemma AddrDecodes(ds: seq<Desc>, h: Heap, b: Block)
    requires ValidDescs(ds) && Inv(ds, h, {}) && Live(ds, h, b)
    ensures Addr(ds, h, b) / PGSIZE == b.page
    ensures h.arenas[b.page].Big? ==> Addr(ds, h, b) % PGSIZE == ARENA_SIZE
    ensures h.arenas[b.page].Small? ==>
              var size := ds[h.arenas[b.page].desc].blockSize;
              Addr(ds, h, b) % PGSIZE - ARENA_SIZE == b.idx * size >= 0
  {
    InsideArena(ds, h, b);
  }

  /** The block index of an offset behind the header. */
  method IndexOf(ofs: nat, size: nat, ghost idx: nat) returns (i: nat)
    requires size > 0 && ofs == idx * size
    ensures i == idx
  {
    MulDist(idx, 1, size);
    i := DivFloor(ofs, size);
    QuotientUnique(ofs, size, i, idx);
  }

  /** Once nothing is allocated there is no arena left. */
  lemma NothingLiveNothingHeld(ds: seq<Desc>, h: Heap)
    requires ValidDescs(ds) && Inv(ds, h, {}) && forall b :: !Live(ds, h, b)
    ensures h.arenas == map[] && forall d :: 0 <= d < |ds| ==> h.free[d] == []
  {
    forall p | p in h.arenas ensures false {
      assert ArenaOk(ds, h, p, {});
      match h.arenas[p] {
        case Small(d, cnt) =>
          FreeIdxAll(h.free[d], p, ds[d].perArena);
          var i :| 0 <= i < ds[d].perArena && Block(p, i) !in h.free[d];
          assert Live(ds, h, Block(p, i));
        case Big(n) =>
          assert Live(ds, h, Block(p, 0));
      }
    }
    forall d | 0 <= d < |ds| ensures h.free[d] == [] {
      assert ListOk(ds, h.arenas, d, h.free[d]);
      if h.free[d] != [] {
        SomeMember(h.free[d]);
      }
    }
  }

  lemma SomeMember<A>(s: seq<A>)
    requires s != []
    ensures exists x :: x in s
  {
    assert s[0] in s;
  }

  // ----- removing blocks from a list one at a time

  /** list_remove on the element of block `b`. */
  function RemoveOne(list: seq<Block>, b: Block): seq<Block>
    requires b in list
  {
    if list[0] == b then list[1..] else [list[0]] + RemoveOne(list[1..], b)
  }

  lemma {:induction false} RemoveNext(list: seq<Block>, page: nat, i: nat)
    requires NoDup(list) && Block(page, i) in list
    ensures Block(page, i) in Without(list, page, i)
    ensures RemoveOne(Without(list, page, i), Block(page, i)) == Without(list, page, i + 1)
  {
    var b, first, rest := Block(page, i), list[0], list[1..];
    var w := Without(rest, page, i);
    if first == b {
      assert b !in rest;
      WithoutSame(rest, page, i);
      assert Without(list, page, i) == [b] + w;
      assert ([b] + w)[1..] == w;
    } else {
      assert b in rest && NoDup(rest);
      RemoveNext(rest, page, i);
      if first.page == page && first.idx < i {
        assert Without(list, page, i) == w;
      } else {
        assert Without(list, page, i) == [first] + w;
        assert ([first] + w)[1..] == w;
        assert RemoveOne([first] + w, b) == [first] + RemoveOne(w, b);
      }
    }
  }

  lemma {:induction false} WithoutSame(list: seq<Block>, page: nat, i: nat)
    requires Block(page, i) !in list
    ensures Without(list, page, i) == Without(list, page, i + 1)
  {
    if list != [] {
      WithoutSame(list[1..], page, i);
    }
  }

  lemma {:induction false} WithoutNone(list: seq<Block>, page: nat)
    ensures Without(list, page, 0) == list
  {
    if list != [] {
      WithoutNone(list[1..], page);
    }
  }

  // ----- what each change does to the allocated blocks

  /** Block `c` is allocated in both or in neither, at the same address and size. */
  ghost predicate SameBlock(ds: seq<Desc>, h: Heap, h': Heap, c: Block) {
    && (Live(ds, h', c) <==> Live(ds, h, c))
    && (Live(ds, h, c) ==> Addr(ds, h', c) == Addr(ds, h, c) && Capacity(ds, h', c) == Capacity(ds, h, c))
  }

  /** Apart from `b`, the same blocks are allocated, at the same addresses and sizes. */
  ghost predicate SameBlocks(ds: seq<Desc>, h: Heap, h': Heap, b: Block) {
    forall c :: c != b ==> SameBlock(ds, h, h', c)
  }

  lemma LiveAfterAdd(ds: seq<Desc>, h: Heap, d: nat, page: nat, b: Block)
    requires Inv(ds, h, {}) && d < |ds| && page !in ArenaPages(h.arenas)
    ensures SameBlocks(ds, h, AddArena(ds, h, d, page), b) && page !in h.arenas
    ensures Live(ds, AddArena(ds, h, d, page), b) <==> Live(ds, h, b)
  {
    var n := ds[d].perArena;
    var h' := AddArena(ds, h, d, page);
    assert page !in h.arenas by {
      if page in h.arenas {
        InOwnPages(ds, h, {}, page);
      }
    }
    assert forall c :: c in h'.free[d] <==> c in h.free[d] || (c.page == page && c.idx < n) by {
      assert forall i :: 0 <= i < n ==> AllBlocks(page, n)[i] == Block(page, i);
    }
  }

  lemma LiveAfterPop(ds: seq<Desc>, h: Heap, d: nat, whole: set<nat>)
    requires Inv(ds, h, whole) && d < |ds| && h.free[d] != []
    ensures h.free[d][0].page in h.arenas && SameBlocks(ds, h, Pop(h, d), h.free[d][0])
    ensures !Live(ds, h, h.free[d][0]) && Live(ds, Pop(h, d), h.free[d][0])
  {
    var b := h.free[d][0];
    assert b in h.free[d] && ListOk(ds, h.arenas, d, h.free[d]) && ArenaOk(ds, h, b.page, whole);
    assert forall c :: c in h.free[d] <==> c == b || c in h.free[d][1..];
  }

  lemma LiveAfterPush(ds: seq<Desc>, h: Heap, d: nat, b: Block)
    requires Inv(ds, h, {}) && d < |ds| && Live(ds, h, b) && h.arenas[b.page].Small? && h.arenas[b.page].desc == d
    ensures SameBlocks(ds, h, Push(h, d, b), b) && !Live(ds, Push(h, d, b), b)
  {
    assert forall c :: c in Push(h, d, b).free[d] <==> c == b || c in h.free[d];
  }

  lemma LiveAfterDrop(ds: seq<Desc>, h: Heap, d: nat, page: nat, b: Block)
    requires Inv(ds, h, {page}) && d < |ds| && page in h.arenas && h.arenas[page].Small? && h.arenas[page].desc == d
    requires h.arenas[page].freeCnt == ds[d].perArena
    ensures SameBlocks(ds, h, DropArena(ds, h, d, page), b)
    ensures Live(ds, DropArena(ds, h, d, page), b) <==> Live(ds, h, b)
  {
    assert forall c: Block :: c.page == page ==> !Live(ds, h, c) by {
      assert ArenaOk(ds, h, page, {page});
      FreeIdxAll(h.free[d], page, ds[d].perArena);
      forall c: Block | c.page == page ensures !Live(ds, h, c) {
        assert c == Block(page, c.idx);
      }
    }
    forall c ensures SameBlock(ds, h, DropArena(ds, h, d, page), c) {
      OthersStay(ds, h, d, page, c);
    }
  }

  lemma OthersStay(ds: seq<Desc>, h: Heap, d: nat, page: nat, c: Block)
    requires d < |ds| == |h.free| && (c.page == page ==> !Live(ds, h, c))
    ensures SameBlock(ds, h, DropArena(ds, h, d, page), c)
  {
  }

  // ----- whole allocations and releases

  /** The three layers agree: headers, free lists and the pages in use, of which
      `others` do not belong to this allocator. */
  ghost predicate Agree(ds: seq<Desc>, h: Heap, used: set<nat>, others: set<nat>) {
    && ValidDescs(ds) && Inv(ds, h, {})
    && others !! ArenaPages(h.arenas) && used == others + ArenaPages(h.arenas)
  }

  /** Freeing everything restores the page pool. */
  lemma FreeingAllRestoresPool(ds: seq<Desc>, h: Heap, used: set<nat>, others: set<nat>)
    requires Agree(ds, h, used, others) && forall b :: !Live(ds, h, b)
    ensures used == others
  {
    NothingLiveNothingHeld(ds, h);
  }

  /** `h'` is `h` with block `b` newly allocated at address `addr` with `size` bytes;
      every other allocated block is where it was. */
  ghost predicate Allocated(ds: seq<Desc>, h: Heap, h': Heap, b: Block, addr: int, size: int) {
    && !Live(ds, h, b) && Live(ds, h', b) && SameBlocks(ds, h, h', b)
    && Addr(ds, h', b) == addr && Capacity(ds, h', b) == size
  }

  /** `h'` is `h` with block `b` released. */
  ghost predicate Released(ds: seq<Desc>, h: Heap, h': Heap, b: Block) {
    Live(ds, h, b) && !Live(ds, h', b) && SameBlocks(ds, h, h', b)
  }

  lemma ArenaPagesAdd(arenas: map<nat, Arena>, p: nat, a: Arena)
    requires p !in arenas
    ensures ArenaPages(arenas[p := a]) == ArenaPages(arenas) + Pages(p, Extent(a))
  {
    var arenas' := arenas[p := a];
    forall q | q in ArenaPages(arenas) ensures q in ArenaPages(arenas') {
      var o :| o in arenas && q in Pages(o, Extent(arenas[o]));
      assert o in arenas' && q in Pages(o, Extent(arenas'[o]));
    }
    forall q | q in Pages(p, Extent(a)) ensures q in ArenaPages(arenas') {
      assert p in arenas' && q in Pages(p, Extent(arenas'[p]));
    }
  }

  lemma ArenaPagesSame(arenas: map<nat, Arena>, p: nat, a: Arena)
    requires p in arenas && Extent(a) == Extent(arenas[p])
    ensures ArenaPages(arenas[p := a]) == ArenaPages(arenas)
  {
    var arenas' := arenas[p := a];
    forall q ensures q in ArenaPages(arenas) <==> q in ArenaPages(arenas') {
      if q in ArenaPages(arenas) {
        var o :| o in arenas && q in Pages(o, Extent(arenas[o]));
        assert o in arenas' && q in Pages(o, Extent(arenas'[o]));
      }
    }
  }

  lemma ArenaPagesRemove(ds: seq<Desc>, h: Heap, whole: set<nat>, p: nat)
    requires Inv(ds, h, whole) && p in h.arenas
    ensures ArenaPages(h.arenas - {p}) == ArenaPages(h.arenas) - Pages(p, Extent(h.arenas[p]))
    ensures Pages(p, Extent(h.arenas[p])) <= ArenaPages(h.arenas)
  {
    var arenas' := h.arenas - {p};
    forall q | q in ArenaPages(h.arenas) && q !in Pages(p, Extent(h.arenas[p])) ensures q in ArenaPages(arenas') {
      var o :| o in h.arenas && q in Pages(o, Extent(h.arenas[o]));
      assert o in arenas' && q in Pages(o, Extent(arenas'[o]));
    }
    forall q | q in Pages(p, Extent(h.arenas[p])) ensures q in ArenaPages(h.arenas) && q !in ArenaPages(arenas') {
    }
  }

  /** The page count that malloc computes for a big block, in 32-bit arithmetic. */
  function BigPageCnt(size: nat): nat {
    ((size + ARENA_SIZE) % B32 + PGSIZE - 1) % B32 / PGSIZE
  }

  /** The pages hold the request exactly when the sum of request and header did not wrap. */
  lemma BigPageCntFits(size: nat)
    requires size < B32 && BigPageCnt(size) > 0
    ensures PGSIZE * BigPageCnt(size) - ARENA_SIZE >= size <==> size <= B32 - ARENA_SIZE
  {
  }

  /** A request of 2^32 - 1 bytes gets one page. */
  /** It is the least number of pages for the request with its header, or for what a wrapped
      sum leaves of it; it is zero exactly if the sum wraps only when it is rounded up. */
  lemma BigPageCntIsLeast(size: nat)
    requires size < B32
    ensures BigPageCnt(size) == 0 <==> B32 - PGSIZE < size + ARENA_SIZE <= B32
    ensures BigPageCnt(size) > 0 ==>
      var x := if size + ARENA_SIZE <= B32 - PGSIZE then size + ARENA_SIZE else size + ARENA_SIZE - B32;
      PGSIZE * (BigPageCnt(size) - 1) < x <= PGSIZE * BigPageCnt(size)
  {
    var sum := size + ARENA_SIZE;
    var x := if sum < B32 then sum else sum - B32;
    assert sum % B32 == x;
    var y := if x + PGSIZE - 1 < B32 then x + PGSIZE - 1 else x + PGSIZE - 1 - B32;
    assert (x + PGSIZE - 1) % B32 == y;
    assert BigPageCnt(size) == y / PGSIZE;
  }

  lemma BigRequestWraps()
    ensures BigPageCnt(B32 - 1) == 1 && PGSIZE * BigPageCnt(B32 - 1) - ARENA_SIZE < B32 - 1
  {
  }

  lemma LiveAfterBig(ds: seq<Desc>, h: Heap, h': Heap, p: nat, n: nat)
    requires p !in h.arenas && h' == h.(arenas := h.arenas[p := Big(n)])
    ensures Allocated(ds, h, h', Block(p, 0), p * PGSIZE + ARENA_SIZE, PGSIZE * n - ARENA_SIZE)
  {
  }

  lemma AllocateBig(ds: seq<Desc>, h: Heap, h': Heap, used: set<nat>, others: set<nat>, p: nat, n: nat)
    requires Agree(ds, h, used, others) && n > 0 && Pages(p, n) !! used && h' == h.(arenas := h.arenas[p := Big(n)])
    ensures Agree(ds, h', used + Pages(p, n), others)
    ensures Allocated(ds, h, h', Block(p, 0), p * PGSIZE + ARENA_SIZE, PGSIZE * n - ARENA_SIZE)
  {
    AddBigKeeps(ds, h, p, n);
    assert p in Pages(p, n);
    assert p !in h.arenas by {
      if p in h.arenas {
        InOwnPages(ds, h, {}, p);
      }
    }
    ArenaPagesAdd(h.arenas, p, Big(n));
    LiveAfterBig(ds, h, h', p, n);
  }

  /** The head of a free list belongs to an arena with a positive free count. */
  lemma HeadInArena(ds: seq<Desc>, h: Heap, d: nat, whole: set<nat>)
    requires Inv(ds, h, whole) && d < |ds| && h.free[d] != []
    ensures var b := h.free[d][0];
            b.page in h.arenas && h.arenas[b.page].Small? && h.arenas[b.page].desc == d && h.arenas[b.page].freeCnt > 0
  {
    var b := h.free[d][0];
    assert b in h.free[d] && ListOk(ds, h.arenas, d, h.free[d]) && ArenaOk(ds, h, b.page, whole);
    assert b.idx in FreeIdx(h.free[d], b.page, ds[d].perArena);
  }

  lemma AllocateFirst(ds: seq<Desc>, h: Heap, h': Heap, d: nat, whole: set<nat>, b: Block)
    requires ValidDescs(ds) && Inv(ds, h, whole) && d < |ds| && h.free[d] != [] && b == h.free[d][0]
    requires forall p :: p in whole ==> p == b.page
    requires b.page in h.arenas && h' == Pop(h, d)
    ensures Inv(ds, h', {}) && ArenaPages(h'.arenas) == ArenaPages(h.arenas)
    ensures Allocated(ds, h, h', b, b.page * PGSIZE + ARENA_SIZE + b.idx * ds[d].blockSize, ds[d].blockSize)
  {
    HeadInArena(ds, h, d, whole);
    PopKeeps(ds, h, d, whole);
    LiveAfterPop(ds, h, d, whole);
    ArenaPagesSame(h.arenas, b.page, h'.arenas[b.page]);
  }

  lemma StartArena(ds: seq<Desc>, h: Heap, h': Heap, used: set<nat>, others: set<nat>, d: nat, page: nat)
    requires Agree(ds, h, used, others) && d < |ds| && page !in used && h.free[d] == []
      && h' == AddArena(ds, h, d, page)
    ensures Inv(ds, h', {page}) && h'.free[d] != [] && h'.free[d][0] == Block(page, 0)
    ensures SameBlocks(ds, h, h', Block(page, 0)) && !Live(ds, h, Block(page, 0))
    ensures ArenaPages(h'.arenas) == ArenaPages(h.arenas) + Pages(page, 1)
  {
    AddArenaKeeps(ds, h, d, page);
    LiveAfterAdd(ds, h, d, page, Block(page, 0));
    ArenaPagesAdd(h.arenas, page, Small(d, ds[d].perArena));
  }

  lemma AllocatedVia(ds: seq<Desc>, h: Heap, h1: Heap, h': Heap, b: Block, addr: int, size: int)
    requires SameBlocks(ds, h, h1, b) && !Live(ds, h, b) && Allocated(ds, h1, h', b, addr, size)
    ensures Allocated(ds, h, h', b, addr, size)
  {
    forall c | c != b ensures SameBlock(ds, h, h', c) {
      assert SameBlock(ds, h, h1, c) && SameBlock(ds, h1, h', c);
    }
  }

  /** `h1` has a free block of `d`: either `h` had one, or the new `page` was cut up. */
  ghost predicate Refilled(ds: seq<Desc>, h: Heap, h1: Heap, used: set<nat>, used': set<nat>, d: nat, page: nat) {
    d < |ds| == |h.free| &&
    if h.free[d] != [] then h1 == h && used' == used
    else page !in used && h1 == AddArena(ds, h, d, page) && used' == used + Pages(page, 1)
  }

  lemma RefilledHead(ds: seq<Desc>, h: Heap, h1: Heap, used: set<nat>, used': set<nat>, others: set<nat>, d: nat,
      page: nat)
    requires Agree(ds, h, used, others) && Refilled(ds, h, h1, used, used', d, page)
    ensures d < |h1.free| && h1.free[d] != [] && h1.free[d][0].page in h1.arenas
    ensures var a := h1.arenas[h1.free[d][0].page]; a.Small? && a.freeCnt > 0
  {
    if h.free[d] != [] {
      HeadInArena(ds, h, d, {});
    } else {
      StartArena(ds, h, h1, used, others, d, page);
      HeadInArena(ds, h1, d, {page});
    }
  }

  lemma AllocateSmall(ds: seq<Desc>, h: Heap, h1: Heap, h': Heap, used: set<nat>, used': set<nat>, others: set<nat>,
      d: nat, page: nat, b: Block)
    requires Agree(ds, h, used, others) && Refilled(ds, h, h1, used, used', d, page)
    requires d < |h1.free| && h1.free[d] != [] && b == h1.free[d][0] && b.page in h1.arenas && h' == Pop(h1, d)
    ensures Agree(ds, h', used', others)
    ensures Allocated(ds, h, h', b, b.page * PGSIZE + ARENA_SIZE + b.idx * ds[d].blockSize, ds[d].blockSize)
  {
    if h.free[d] != [] {
      AllocateFirst(ds, h, h', d, {}, b);
    } else {
      StartArena(ds, h, h1, used, others, d, page);
      AllocateFirst(ds, h1, h', d, {page}, b);
      AllocatedVia(ds, h, h1, h', b, b.page * PGSIZE + ARENA_SIZE + b.idx * ds[d].blockSize, ds[d].blockSize);
    }
  }

  // ----- the allocator

  /** `d` is the first descriptor whose blocks hold `size` bytes, or the number of them all. */
  ghost predicate SmallestFit(ds: seq<Desc>, size: nat, d: nat) {
    && d <= |ds| && (d < |ds| ==> ds[d].blockSize >= size)
    && forall i :: 0 <= i < d ==> ds[i].blockSize < size
  }

  /** The pool has no `cnt` free pages in a row. */
  ghost predicate NoFreeRun(cnt: nat, all: set<nat>, used: set<nat>) {
    forall p: nat :: !FreeRun(p, cnt, all, used)
  }

  /** There is neither a free block of descriptor `d` nor a page to cut into blocks. */
  ghost predicate SmallFails(h: Heap, d: nat, all: set<nat>, used: set<nat>) {
    d < |h.free| && h.free[d] == [] && NoFreeRun(1, all, used)
  }

  /** The page count has wrapped to zero, or there is no run of that many pages. */
  ghost predicate BigFails(size: nat, all: set<nat>, used: set<nat>) {
    BigPageCnt(size) == 0 || NoFreeRun(BigPageCnt(size), all, used)
  }

  /** The whole allocator on top of a page pool that others may use as well:
      `others` are the pages that do not belong to it. */
  class Allocator {
    const descs: seq<Desc>
    const pool: Pool
    var arenas: map<nat, Arena>
    var free: seq<seq<Block>>
    ghost var others: set<nat>

    ghost function H(): Heap
      reads this
    {
      Heap(arenas, free)
    }

    ghost predicate Valid()
      reads this, pool.usedMap.bits
    {
      pool.Valid() && Agree(descs, H(), pool.Used(), others)
    }

    constructor (pool: Pool)
      requires pool.Valid()
      ensures Valid() && this.pool == pool && others == pool.Used() && arenas == map[] && |descs| == |SIZES|
      ensures forall i :: 0 <= i < |descs| ==> descs[i].blockSize == SIZES[i]
    {
      var ds := MallocInit();
      descs, this.pool := ds, pool;
      arenas, free := map[], seq(|ds|, _ => []);
      others := pool.Used();
    }

    /** The loop of malloc that finds the smallest fitting descriptor. */
    method FindDesc(size: nat) returns (d: nat)
      requires ValidDescs(descs)
      ensures SmallestFit(descs, size, d)
    {
      d := 0;
      while d < |descs| && descs[d].blockSize < size
        invariant d <= |descs| && forall i :: 0 <= i < d ==> descs[i].blockSize < size
      {
        d := d + 1;
      }
    }

    /** Turns a new page into an arena of descriptor `d`. */
    method NewArena(d: nat, page: nat)
      requires d < |descs| == |free|
      modifies this`arenas, this`free
      ensures H() == AddArena(descs, old(H()), d, page)
    {
      var n := descs[d].perArena;
      arenas := arenas[page := Small(d, n)];
      ghost var list := free[d];
      for i := 0 to n
        invariant arenas == old(arenas)[page := Small(d, n)]
        invariant |free| == |old(free)| && free[d] == list + AllBlocks(page, i)
        invariant forall e :: 0 <= e < |free| && e != d ==> free[e] == old(free)[e]
      {
        assert AllBlocks(page, i + 1) == AllBlocks(page, i) + [Block(page, i)];
        free := free[d := free[d] + [Block(page, i)]];
      }
      assert free == old(free)[d := list + AllBlocks(page, n)];
    }

    /** Hands out the first free block of descriptor `d`. */
    method TakeFirst(d: nat) returns (b: Block)
      requires d < |free| && free[d] != [] && free[d][0].page in arenas
      requires arenas[free[d][0].page].Small? && arenas[free[d][0].page].freeCnt > 0
      modifies this`arenas, this`free
      ensures H() == Pop(old(H()), d) && b == old(free[d][0])
    {
      b := free[d][0];
      var a := arenas[b.page];
      free := free[d := free[d][1..]];
      arenas := arenas[b.page := a.(freeCnt := a.freeCnt - 1)];
    }

    /** malloc: on success `b` is the block behind the returned address.  It is served from the
        smallest descriptor `d` that fits, or else as a block of whole pages, and holds the
        request unless adding the header size wraps around.  It fails exactly for an empty
        request and for want of memory. */
    method Malloc(size: nat) returns (r: Option<nat>, ghost b: Block, ghost cap: int, ghost d: nat)
      requires Valid() && size < B32
      modifies this`arenas, this`free, pool.usedMap.bits
      ensures Valid() && SmallestFit(descs, size, d)
      ensures r.None? ==> H() == old(H()) && pool.Used() == old(pool.Used())
      ensures r.Some? ==>
        Allocated(descs, old(H()), H(), b, r.value, cap) && (cap >= size <==> size <= B32 - ARENA_SIZE)
      ensures r.Some? ==> cap == if d < |descs| then descs[d].blockSize else PGSIZE * BigPageCnt(size) - ARENA_SIZE
      ensures r.None? <==> size == 0 || if d < |descs| then SmallFails(old(H()), d, pool.All(), old(pool.Used()))
                                        else BigFails(size, pool.All(), old(pool.Used()))
    {
      b, cap, d := Block(0, 0), 0, 0;
      if size == 0 {
        return None, b, cap, d;
      }
      var k := FindDesc(size);
      d := k;
      if k == |descs| {
        r, b, cap := MallocBig(size);
      } else {
        r, b := MallocSmall(k);
        cap := descs[k].blockSize;
        assert cap <= PGSIZE by {
          MulMono(1, descs[k].perArena, descs[k].blockSize);
        }
      }
    }

    method MallocBig(size: nat) returns (r: Option<nat>, ghost b: Block, ghost cap: int)
      requires Valid() && 0 < size < B32
      modifies this`arenas, pool.usedMap.bits
      ensures Valid()
      ensures r.None? ==> H() == old(H()) && pool.Used() == old(pool.Used())
      ensures r.Some? ==>
        Allocated(descs, old(H()), H(), b, r.value, cap) && (cap >= size <==> size <= B32 - ARENA_SIZE)
      ensures r.Some? ==> cap == PGSIZE * BigPageCnt(size) - ARENA_SIZE
      ensures r.None? <==> BigFails(size, pool.All(), old(pool.Used()))
    {
      var n := BigPageCnt(size);
      var page := pool.Get(n);
      b, cap := Block(0, 0), 0;
      if page.None? {
        return None, b, cap;
      }
      BigPageCntFits(size);
      arenas := arenas[page.value := Big(n)];
      AllocateBig(descs, old(H()), H(), old(pool.Used()), others, page.value, n);
      b, cap := Block(page.value, 0), PGSIZE * n - ARENA_SIZE;
      r := Some(page.value * PGSIZE + ARENA_SIZE);
    }

    method MallocSmall(d: nat) returns (r: Option<nat>, ghost b: Block)
      requires Valid() && d < |descs|
      modifies this`arenas, this`free, pool.usedMap.bits
      ensures Valid()
      ensures r.None? ==> H() == old(H()) && pool.Used() == old(pool.Used())
      ensures r.Some? ==> Allocated(descs, old(H()), H(), b, r.value, descs[d].blockSize)
      ensures r.None? <==> SmallFails(old(H()), d, pool.All(), old(pool.Used()))
    {
      b := Block(0, 0);
      ghost var cut := 0;
      if free[d] == [] {
        var page := pool.Get(1);
        if page.None? {
          return None, b;
        }
        cut := page.value;
        assert cut in Pages(cut, 1);
        NewArena(d, page.value);
      }
      ghost var h1 := H();
      RefilledHead(descs, old(H()), h1, old(pool.Used()), pool.Used(), others, d, cut);
      var blk := TakeFirst(d);
      b := blk;
      AllocateSmall(descs, old(H()), h1, H(), old(pool.Used()), pool.Used(), others, d, cut, b);
      r := Some(blk.page * PGSIZE + ARENA_SIZE + blk.idx * descs[d].blockSize);
    }

    /** Puts a block back at the head of its free list and counts it. */
    method PutBack(d: nat, b: Block)
      requires d < |free| && b.page in arenas && arenas[b.page].Small?
      modifies this`arenas, this`free
      ensures H() == Push(old(H()), d, b)
    {
      var a := arenas[b.page];
      free := free[d := [b] + free[d]];
      arenas := arenas[b.page := a.(freeCnt := a.freeCnt + 1)];
    }

    /** Takes every block of a wholly free arena off the free list. */
    method UnlinkAll(d: nat, page: nat)
      requires |free| == |descs| && d < |descs| && NoDup(free[d])
      requires forall i :: 0 <= i < descs[d].perArena ==> Block(page, i) in free[d]
      modifies this`free
      ensures free == old(free)[d := Without(old(free)[d], page, descs[d].perArena)]
    {
      ghost var list := free[d];
      WithoutNone(list, page);
      for i := 0 to descs[d].perArena
        invariant |free| == |descs| && free[d] == Without(list, page, i)
        invariant forall e :: 0 <= e < |free| && e != d ==> free[e] == old(free)[e]
      {
        RemoveNext(list, page, i);
        free := free[d := RemoveOne(free[d], Block(page, i))];
      }
      assert free == old(free)[d := Without(list, page, descs[d].perArena)];
    }

    /** free: `b` is the block behind the address, which must be allocated. */
    method Free(p: nat, ghost b: Block)
      requires Valid() && (p != 0 ==> Live(descs, H(), b) && p == Addr(descs, H(), b))
      modifies this`arenas, this`free, pool.usedMap.bits
      ensures Valid()
      ensures p == 0 ==> H() == old(H()) && pool.Used() == old(pool.Used())
      ensures p != 0 ==> Released(descs, old(H()), H(), b)
    {
      if p != 0 {
        AddrDecodes(descs, H(), b);
        var page := p / PGSIZE;
        match arenas[page] {
          case Small(d, cnt) =>
            var idx := IndexOf(p % PGSIZE - ARENA_SIZE, descs[d].blockSize, b.idx);
            FreeSmall(d, Block(page, idx));
          case Big(n) =>
            FreeBig(page, n);
        }
      }
    }

    method FreeBig(page: nat, n: nat)
      requires Valid() && page in arenas && arenas[page] == Big(n)
      modifies this`arenas, pool.usedMap.bits
      ensures Valid() && Released(descs, old(H()), H(), Block(page, 0))
    {
      ghost var h := H();
      ReleaseBig(descs, h, pool.Used(), others, page);
      pool.Free(page, n);
      arenas := arenas - {page};
    }

    method FreeSmall(d: nat, b: Block)
      requires Valid() && Live(descs, H(), b) && arenas[b.page].Small? && arenas[b.page].desc == d
      modifies this`arenas, this`free, pool.usedMap.bits
      ensures Valid() && Released(descs, old(H()), H(), b)
    {
      PutBack(d, b);
      MayRelease(descs, old(H()), H(), pool.Used(), others, d, b);
      if arenas[b.page].freeCnt >= descs[d].perArena {
        UnlinkAll(d, b.page);
        arenas := arenas - {b.page};
        pool.Free(b.page, 1);
      }
      ReleaseSmall(descs, old(H()), H(), old(pool.Used()), pool.Used(), others, d, b);
    }
  }

  lemma ReleaseBig(ds: seq<Desc>, h: Heap, used: set<nat>, others: set<nat>, page: nat)
    requires Agree(ds, h, used, others) && page in h.arenas && h.arenas[page].Big?
    ensures var h' := h.(arenas := h.arenas - {page});
            && Pages(page, h.arenas[page].pages) <= used
            && Agree(ds, h', used - Pages(page, h.arenas[page].pages), others)
            && Released(ds, h, h', Block(page, 0))
  {
    DropBigKeeps(ds, h, page);
    ArenaPagesRemove(ds, h, {}, page);
    LiveAfterDropBig(ds, h, page);
  }

  lemma LiveAfterDropBig(ds: seq<Desc>, h: Heap, page: nat)
    requires page in h.arenas && h.arenas[page].Big?
    ensures Released(ds, h, h.(arenas := h.arenas - {page}), Block(page, 0))
  {
  }

  lemma PushBlock(ds: seq<Desc>, h: Heap, h1: Heap, d: nat, b: Block)
    requires ValidDescs(ds) && Inv(ds, h, {}) && Live(ds, h, b) && h.arenas[b.page].Small? && h.arenas[b.page].desc == d
    requires h1 == Push(h, d, b)
    ensures Inv(ds, h1, {b.page}) && Released(ds, h, h1, b) && ArenaPages(h1.arenas) == ArenaPages(h.arenas)
    ensures h1.arenas[b.page] == Small(d, h.arenas[b.page].freeCnt + 1)
  {
    PushKeeps(ds, h, d, b);
    LiveAfterPush(ds, h, d, b);
    ArenaPagesSame(h.arenas, b.page, h1.arenas[b.page]);
  }

  lemma NotWhole(ds: seq<Desc>, h: Heap, d: nat, page: nat)
    requires Inv(ds, h, {page}) && d < |ds|
    requires page in h.arenas && h.arenas[page].Small? && h.arenas[page].desc == d
      && h.arenas[page].freeCnt < ds[d].perArena
    ensures Inv(ds, h, {})
  {
    forall p | p in h.arenas ensures ArenaOk(ds, h, p, {}) {
      assert ArenaOk(ds, h, p, {page});
    }
  }

  /** An arena whose free count reaches its capacity is wholly free. */
  lemma MayRelease(ds: seq<Desc>, h: Heap, h1: Heap, used: set<nat>, others: set<nat>, d: nat, b: Block)
    requires Agree(ds, h, used, others) && Live(ds, h, b) && h.arenas[b.page].Small? && h.arenas[b.page].desc == d
    requires h1 == Push(h, d, b)
    ensures h1.arenas[b.page].freeCnt >= ds[d].perArena ==>
              && NoDup(h1.free[d]) && Pages(b.page, 1) <= used
              && forall i :: 0 <= i < ds[d].perArena ==> Block(b.page, i) in h1.free[d]
  {
    PushBlock(ds, h, h1, d, b);
    if h1.arenas[b.page].freeCnt >= ds[d].perArena {
      WholeArena(ds, h1, d, b.page);
    }
  }

  lemma ReleaseSmall(ds: seq<Desc>, h: Heap, h': Heap, used: set<nat>, used': set<nat>, others: set<nat>, d: nat,
      b: Block)
    requires Agree(ds, h, used, others) && Live(ds, h, b) && h.arenas[b.page].Small? && h.arenas[b.page].desc == d
    requires var h1 := Push(h, d, b);
             if h1.arenas[b.page].freeCnt < ds[d].perArena then h' == h1 && used' == used
             else h' == DropArena(ds, h1, d, b.page) && used' == used - Pages(b.page, 1)
    ensures Agree(ds, h', used', others) && Released(ds, h, h', b)
  {
    var h1 := Push(h, d, b);
    PushBlock(ds, h, h1, d, b);
    if h1.arenas[b.page].freeCnt < ds[d].perArena {
      NotWhole(ds, h1, d, b.page);
    } else {
      WholeArena(ds, h1, d, b.page);
      ReleaseArena(ds, h, h1, h', used, used', others, d, b);
    }
  }

  lemma WholeArena(ds: seq<Desc>, h1: Heap, d: nat, page: nat)
    requires Inv(ds, h1, {page}) && page in h1.arenas && h1.arenas[page].Small? && h1.arenas[page].desc == d
    requires d < |ds| && h1.arenas[page].freeCnt >= ds[d].perArena
    ensures h1.arenas[page].freeCnt == ds[d].perArena && NoDup(h1.free[d])
    ensures forall i :: 0 <= i < ds[d].perArena ==> Block(page, i) in h1.free[d]
    ensures Pages(page, 1) <= ArenaPages(h1.arenas)
  {
    ArenaPagesRemove(ds, h1, {page}, page);
    assert ArenaOk(ds, h1, page, {page}) && ListOk(ds, h1.arenas, d, h1.free[d]);
    FreeIdxAll(h1.free[d], page, ds[d].perArena);
  }

  lemma ReleaseArena(ds: seq<Desc>, h: Heap, h1: Heap, h': Heap,
      used: set<nat>, used': set<nat>, others: set<nat>, d: nat, b: Block)
    requires Agree(ds, h, used, others) && d < |ds| && Released(ds, h, h1, b) && used' == used - Pages(b.page, 1)
    requires Inv(ds, h1, {b.page}) && ArenaPages(h1.arenas) == ArenaPages(h.arenas)
    requires b.page in h1.arenas && h1.arenas[b.page] == Small(d, ds[d].perArena)
    requires h' == DropArena(ds, h1, d, b.page)
    ensures Agree(ds, h', used', others) && Released(ds, h, h', b)
  {
    DropKeeps(ds, h1, d, b.page);
    LiveAfterDrop(ds, h1, d, b.page, b);
    ArenaPagesRemove(ds, h1, {b.page}, b.page);
    ReleasedVia(ds, h, h1, h', b);
  }

  lemma ReleasedVia(ds: seq<Desc>, h: Heap, h1: Heap, h': Heap, b: Block)
    requires Released(ds, h, h1, b) && SameBlocks(ds, h1, h', b) && !Live(ds, h', b)
    ensures Released(ds, h, h', b)
  {
    forall c | c != b ensures SameBlock(ds, h, h', c) {
      assert SameBlock(ds, h, h1, c) && SameBlock(ds, h1, h', c);
    }
  }
}
