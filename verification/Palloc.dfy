/** The page allocator of threads/palloc.c: two pools of contiguous pages, each with
    a bitmap of the pages in use.  Pages are named by their page numbers. */
module Palloc {
  import opened Bitmap
  import opened Wrappers

  predicate InRun(p: nat, first: nat, cnt: nat) {
    first <= p < first + cnt
  }

  ghost function Pages(first: nat, cnt: nat): set<nat> {
    set p: nat | p < first + cnt && InRun(p, first, cnt)
  }

  predicate Marked(p: nat, base: nat, v: seq<bool>) {
    base <= p < base + |v| && v[p - base]
  }

  /** The pages that the bits `v` of a pool at page `base` mark as used. */
  ghost function UsedPages(base: nat, v: seq<bool>): set<nat> {
    set p: nat | p < base + |v| && Marked(p, base, v)
  }

  lemma FilledPages(base: nat, v: seq<bool>, start: nat, cnt: nat, value: bool)
    requires start + cnt <= |v|
    ensures UsedPages(base, Filled(v, start, cnt, value)) ==
            if value then UsedPages(base, v) + Pages(base + start, cnt)
            else UsedPages(base, v) - Pages(base + start, cnt)
  {
  }

  /** The `cnt` pages at `page` are all in the pool and all free. */
  ghost predicate FreeRun(page: nat, cnt: nat, all: set<nat>, used: set<nat>) {
    Pages(page, cnt) <= all - used
  }

  /** Free runs are the groups of false bits. */
  lemma FreeRunIsGroup(base: nat, v: seq<bool>, page: nat, cnt: nat)
    requires cnt > 0
    ensures FreeRun(page, cnt, Pages(base, |v|), UsedPages(base, v)) <==>
      base <= page && Group(v, page - base, cnt, false)
  {
    if FreeRun(page, cnt, Pages(base, |v|), UsedPages(base, v)) {
      assert page in Pages(page, cnt) && page + cnt - 1 in Pages(page, cnt);
      forall k | page - base <= k < page - base + cnt ensures !v[k] {
        assert base + k in Pages(page, cnt);
      }
    }
  }

  lemma NoLowerRun(base: nat, v: seq<bool>, hi: nat, cnt: nat)
    requires cnt > 0 && NoGroup(v, 0, hi, cnt, false) && hi <= |v| + 1
    ensures forall p: nat :: (hi <= |v| ==> p < base + hi) ==> !FreeRun(p, cnt, Pages(base, |v|), UsedPages(base, v))
  {
    forall p: nat | hi <= |v| ==> p < base + hi ensures !FreeRun(p, cnt, Pages(base, |v|), UsedPages(base, v)) {
      FreeRunIsGroup(base, v, p, cnt);
    }
  }

  class Pool {
    const base: nat
    const usedMap: Bitmap

    ghost predicate Valid()
      reads usedMap.bits
    {
      usedMap.Valid()
    }

    ghost function Used(): set<nat>
      requires Valid()
      reads usedMap.bits
    {
      UsedPages(base, usedMap.View())
    }

    ghost function All(): set<nat> {
      Pages(base, usedMap.bitCnt)
    }

    constructor (base: nat, cnt: nat)
      ensures Valid() && fresh(usedMap) && fresh(usedMap.bits)
      ensures Used() == {} && All() == Pages(base, cnt) && this.base == base && usedMap.bitCnt == cnt
    {
      this.base := base;
      usedMap := new Bitmap(cnt);
    }

    /** palloc_get_multiple on this pool: the lowest run of `cnt` free pages. */
    method Get(cnt: nat) returns (r: Option<nat>)
      requires Valid()
      modifies usedMap.bits
      ensures Valid()
      ensures r.Some? ==>
        cnt > 0 && FreeRun(r.value, cnt, All(), old(Used())) && Used() == old(Used()) + Pages(r.value, cnt)
      ensures r.None? ==> Used() == old(Used())
      ensures cnt > 0 ==> forall p: nat :: (r.Some? ==> p < r.value) ==> !FreeRun(p, cnt, All(), old(Used()))
    {
      hide FreeRun, Group, NoGroup, Pages, UsedPages;
      if cnt == 0 {
        return None;
      }
      ghost var v := usedMap.View();
      var idx := usedMap.ScanAndFlip(0, cnt, false);
      NoLowerRun(base, v, if idx.Some? then idx.value else |v| + 1, cnt);
      if idx.Some? {
        FilledPages(base, v, idx.value, cnt, true);
        FreeRunIsGroup(base, v, base + idx.value, cnt);
        r := Some(base + idx.value);
      } else {
        r := None;
      }
    }

    /** palloc_free_multiple on this pool. */
    method Free(page: nat, cnt: nat)
      requires Valid() && Pages(page, cnt) <= Used()
      modifies usedMap.bits
      ensures Valid() && Used() == old(Used()) - Pages(page, cnt)
    {
      if cnt != 0 {
        assert page in Pages(page, cnt) && page + cnt - 1 in Pages(page, cnt);
        var idx: nat := page - base;
        FilledPages(base, usedMap.View(), idx, cnt, false);
        usedMap.SetMultiple(idx, cnt, false);
      }
    }
  }
}
