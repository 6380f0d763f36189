/** The chained hash table of lib/kernel/hash.c.  Its contents refine a finite set of
    pairwise unequal elements, whatever the number of buckets; the number of buckets
    follows the number of elements unless memory runs out. */
module Hash {
  import opened Bits
  import opened Orders
  import opened Wrappers

  /** Equal elements hash alike. */
  ghost predicate Consistent<E(!new)>(hash: E -> nat, less: (E, E) -> bool) {
    StrictWeakOrder(less) && forall a, b :: Same(less, a, b) ==> hash(a) == hash(b)
  }

  // ----- bucket counts

  function TurnOffLeast1Bit(x: nat): nat
    requires x > 0
  {
    And(x, x - 1)
  }

  predicate IsPowerOf2(x: nat) {
    x != 0 && TurnOffLeast1Bit(x) == 0
  }

  lemma {:induction false} AndSelf(x: nat)
    ensures And(x, x) == x
    decreases x
  {
    if x > 0 {
      AndSelf(x / 2);
    }
  }

  /** Between two powers of two, turning off the lowest bit stays above the lower one;
      only the power itself drops to zero. */
  lemma {:induction false} TurnOffKeepsTop(x: nat, k: nat)
    requires Pow2(k) <= x < Pow2(k + 1)
    ensures if x == Pow2(k) then TurnOffLeast1Bit(x) == 0 else Pow2(k) <= TurnOffLeast1Bit(x) < x
    decreases k
  {
    if x % 2 == 1 {
      TurnOffOdd(x / 2);
      assert k > 0 ==> Pow2(k) == 2 * Pow2(k - 1);
    } else {
      TurnOffKeepsTop(x / 2, k - 1);
      TurnOffEven(x / 2);
    }
  }

  lemma TurnOffOdd(y: nat)
    ensures TurnOffLeast1Bit(2 * y + 1) == 2 * y
  {
    assert (2 * y + 1) / 2 == y && 2 * y / 2 == y;
    AndSelf(y);
  }

  lemma TurnOffEven(y: nat)
    requires y > 0
    ensures TurnOffLeast1Bit(2 * y) == 2 * TurnOffLeast1Bit(y)
  {
    assert 2 * y / 2 == y && (2 * y - 1) / 2 == y - 1;
  }

  lemma {:induction false} TopBit(x: nat) returns (k: nat)
    requires x > 0
    ensures Pow2(k) <= x < Pow2(k + 1)
  {
    if x == 1 {
      k := 0;
    } else {
      k := TopBit(x / 2);
      k := k + 1;
    }
  }

  /** The bucket count rehash aims at: a power of two, at least four, with two to four
      elements for each bucket once there are eight or more. */
  method BestBucketCnt(elemCnt: nat) returns (cnt: nat, ghost k: nat)
    ensures cnt == Pow2(k) && cnt >= 4 && elemCnt < 4 * cnt
    ensures cnt == 4 || 2 * cnt <= elemCnt
  {
    cnt := elemCnt / 2;
    if cnt < 4 {
      cnt := 4;
    }
    k := TopBit(cnt);
    assert k >= 2 by {
      if k < 2 {
        Pow2Mono(k + 1, 2);
      }
    }
    Pow2Mono(2, k);
    while !IsPowerOf2(cnt)
      invariant Pow2(k) <= cnt < Pow2(k + 1) && 4 <= cnt
      invariant elemCnt / 2 < Pow2(k + 1) && (Pow2(k) == 4 || Pow2(k) <= elemCnt / 2)
      decreases cnt
    {
      TurnOffKeepsTop(cnt, k);
      cnt := TurnOffLeast1Bit(cnt);
    }
    TurnOffKeepsTop(cnt, k);
  }

  /** find_bucket. */
  function Slot(h: nat, cnt: nat): (i: nat)
    requires cnt > 0
    ensures i < cnt
  {
    And(h, cnt - 1)
  }

  /** For a power of two the mask picks the remainder. */
  lemma SlotIsRemainder(h: nat, k: nat)
    ensures Slot(h, Pow2(k)) == h % Pow2(k)
  {
    LowMask(h, k);
  }

  // ----- what the buckets hold

  ghost function Elems<E>(buckets: seq<seq<E>>): set<E> {
    set i, e | 0 <= i < |buckets| && e in buckets[i] :: e
  }

  ghost predicate Unequal<E>(less: (E, E) -> bool, s: seq<E>) {
    forall i, j :: 0 <= i < j < |s| ==> !Same(less, s[i], s[j])
  }

  /** Every element sits in the bucket its hash selects, and no bucket has two equal
      elements. */
  ghost predicate Placed<E>(hash: E -> nat, less: (E, E) -> bool, buckets: seq<seq<E>>) {
    && |buckets| > 0
    && (forall i, e :: 0 <= i < |buckets| && e in buckets[i] ==> Slot(hash(e), |buckets|) == i)
    && (forall i :: 0 <= i < |buckets| ==> Unequal(less, buckets[i]))
  }

  /** In a well-placed table the elements are exactly those found in their own bucket,
      and equal elements are identical. */
  lemma PlacedElems<E(!new)>(hash: E -> nat, less: (E, E) -> bool, buckets: seq<seq<E>>)
    requires Consistent(hash, less) && Placed(hash, less, buckets)
    ensures forall e :: e in Elems(buckets) <==> e in buckets[Slot(hash(e), |buckets|)]
    ensures forall e, f :: e in Elems(buckets) && f in Elems(buckets) && Same(less, e, f) ==> e == f
  {
    forall e, f | e in Elems(buckets) && f in Elems(buckets) && Same(less, e, f) ensures e == f {
      var b := buckets[Slot(hash(e), |buckets|)];
      assert hash(e) == hash(f) && e in b && f in b && Unequal(less, b);
      var i :| 0 <= i < |b| && b[i] == e;
      var j :| 0 <= j < |b| && b[j] == f;
    }
  }

  function PushFront<E>(buckets: seq<seq<E>>, i: nat, e: E): seq<seq<E>>
    requires i < |buckets|
  {
    buckets[i := [e] + buckets[i]]
  }

  lemma PushPlaced<E(!new)>(hash: E -> nat, less: (E, E) -> bool, buckets: seq<seq<E>>, e: E)
    requires Consistent(hash, less) && Placed(hash, less, buckets)
    requires forall f :: f in Elems(buckets) ==> !Same(less, e, f)
    ensures Placed(hash, less, PushFront(buckets, Slot(hash(e), |buckets|), e))
    ensures e !in Elems(buckets) && Elems(PushFront(buckets, Slot(hash(e), |buckets|), e)) == Elems(buckets) + {e}
  {
    var i := Slot(hash(e), |buckets|);
    var after := PushFront(buckets, i, e);
    assert Same(less, e, e);
    assert forall f :: f in after[i] <==> f == e || f in buckets[i];
    assert forall f :: f in buckets[i] ==> f in Elems(buckets);
    forall f ensures f in Elems(after) <==> f in Elems(buckets) || f == e {
      if f in Elems(buckets) {
        var k :| 0 <= k < |buckets| && f in buckets[k];
        assert f in after[k];
      }
      if f in Elems(after) && f != e {
        var k :| 0 <= k < |after| && f in after[k];
        assert f in buckets[k];
      }
      assert e in after[i];
    }
  }

  /** list_remove of the element at position `j` of bucket `i`. */
  function RemoveAt<E>(buckets: seq<seq<E>>, i: nat, j: nat): seq<seq<E>>
    requires i < |buckets| && j < |buckets[i]|
  {
    buckets[i := buckets[i][..j] + buckets[i][j + 1..]]
  }

  lemma RemovePlaced<E(!new)>(hash: E -> nat, less: (E, E) -> bool, buckets: seq<seq<E>>, i: nat, j: nat)
    requires Consistent(hash, less) && Placed(hash, less, buckets) && i < |buckets| && j < |buckets[i]|
    ensures Placed(hash, less, RemoveAt(buckets, i, j))
    ensures buckets[i][j] in Elems(buckets) && Elems(RemoveAt(buckets, i, j)) == Elems(buckets) - {buckets[i][j]}
  {
    var b, after := buckets[i], RemoveAt(buckets, i, j);
    var e := b[j];
    assert Unequal(less, b) && Same(less, e, e);
    assert forall f :: f in after[i] <==> f in b && f != e by {
      forall f | f in b && f != e ensures f in after[i] {
        var k :| 0 <= k < |b| && b[k] == f;
        assert after[i][if k < j then k else k - 1] == f;
      }
    }
    assert Unequal(less, after[i]);
    assert e in b && Slot(hash(e), |buckets|) == i;
    forall f ensures f in Elems(after) <==> f in Elems(buckets) && f != e {
      if f in Elems(buckets) && f != e {
        var k :| 0 <= k < |buckets| && f in buckets[k];
        assert f in after[k];
      }
      if f in Elems(after) {
        var k :| 0 <= k < |after| && f in after[k];
        assert f in buckets[k];
      }
    }
  }

  // ----- moving everything to new buckets

  /** The buckets before `i` and the first `j` elements of bucket `i`. */
  ghost function Before<E>(buckets: seq<seq<E>>, i: nat, j: nat): seq<seq<E>>
    requires i < |buckets| && j <= |buckets[i]|
  {
    buckets[..i] + [buckets[i][..j]]
  }

  /** The next element to move is unequal to all that were moved before. */
  lemma NextIsNew<E(!new)>(hash: E -> nat, less: (E, E) -> bool, buckets: seq<seq<E>>, i: nat, j: nat)
    requires Consistent(hash, less) && Placed(hash, less, buckets) && i < |buckets| && j < |buckets[i]|
    ensures forall f :: f in Elems(Before(buckets, i, j)) ==> !Same(less, buckets[i][j], f)
    ensures Elems(Before(buckets, i, j + 1)) == Elems(Before(buckets, i, j)) + {buckets[i][j]}
  {
    var e, done := buckets[i][j], Before(buckets, i, j);
    forall f | f in Elems(done) ensures !Same(less, e, f) {
      var k :| 0 <= k <= i && f in done[k];
      assert f in buckets[k] && Slot(hash(e), |buckets|) == i && Slot(hash(f), |buckets|) == k;
      if k == i {
        var m :| 0 <= m < j && buckets[i][m] == f;
        assert Unequal(less, buckets[i]);
      }
    }
    var next := Before(buckets, i, j + 1);
    assert forall k :: 0 <= k < i ==> next[k] == done[k];
    assert next[i] == done[i] + [e];
    forall f ensures f in Elems(next) <==> f in Elems(done) || f == e {
      if f in Elems(done) {
        var k :| 0 <= k < |done| && f in done[k];
        assert f in next[k];
      }
      if f in Elems(next) && f != e {
        var k :| 0 <= k < |next| && f in next[k];
        assert f in done[k];
      }
      assert e in next[i];
    }
  }

  lemma BeforeEnds<E>(buckets: seq<seq<E>>, i: nat)
    requires i < |buckets|
    ensures Elems(Before(buckets, i, 0)) == Elems(buckets[..i])
    ensures Elems(Before(buckets, i, |buckets[i]|)) == Elems(buckets[..i + 1])
  {
    var first, last := Before(buckets, i, 0), Before(buckets, i, |buckets[i]|);
    assert buckets[i][..|buckets[i]|] == buckets[i];
    assert last == buckets[..i + 1];
    assert forall k :: 0 <= k < i ==> first[k] == buckets[..i][k];
    assert first[i] == [];
  }

  // ----- the table

  class Table<E(!new)> {
    const hash: E -> nat
    const less: (E, E) -> bool
    var buckets: seq<seq<E>>
    var elemCnt: nat

    /** The set the table stands for. */
    ghost function View(): set<E>
      reads this
    {
      Elems(buckets)
    }

    ghost predicate Valid()
      reads this
    {
      && Consistent(hash, less) && Placed(hash, less, buckets) && elemCnt == |View()|
      && exists k: nat :: |buckets| == Pow2(k) && k >= 2
    }

    /** What a rehash that gets its memory leaves behind. */
    predicate WellSized()
      reads this
    {
      4 <= |buckets| && elemCnt < 4 * |buckets|
    }

    /** hash_init, with memory for the buckets. */
    constructor (hash: E -> nat, less: (E, E) -> bool)
      requires Consistent(hash, less)
      ensures Valid() && View() == {} && WellSized() && this.hash == hash && this.less == less
    {
      this.hash, this.less := hash, less;
      elemCnt, buckets := 0, [[], [], [], []];
      new;
      assert |buckets| == Pow2(2);
      assert Elems(buckets) == {};
    }

    /** find_elem in the bucket of `e`. */
    method FindElem(i: nat, e: E) returns (j: nat)
      requires i < |buckets|
      ensures j <= |buckets[i]| && (j < |buckets[i]| ==> Same(less, buckets[i][j], e))
      ensures forall m :: 0 <= m < j ==> !Same(less, buckets[i][m], e)
    {
      j := 0;
      while j < |buckets[i]|
        invariant j <= |buckets[i]| && forall m :: 0 <= m < j ==> !Same(less, buckets[i][m], e)
      {
        if !less(buckets[i][j], e) && !less(e, buckets[i][j]) {
          return;
        }
        j := j + 1;
      }
    }

    /** A search of the bucket decides for the whole table. */
    lemma SearchDecides(i: nat, j: nat, e: E)
      requires Valid() && i == Slot(hash(e), |buckets|) && j <= |buckets[i]|
      requires forall m :: 0 <= m < j ==> !Same(less, buckets[i][m], e)
      requires j < |buckets[i]| ==> Same(less, buckets[i][j], e)
      ensures j < |buckets[i]| ==> buckets[i][j] in View()
      ensures j == |buckets[i]| ==> forall f :: f in View() ==> !Same(less, e, f)
    {
      PlacedElems(hash, less, buckets);
      if j == |buckets[i]| {
        var b := buckets[i];
        forall f | f in View() ensures !Same(less, e, f) {
          assert Same(less, e, f) ==> f in b;
        }
      }
    }

    /** hash_find. */
    method Find(e: E) returns (r: Option<E>)
      requires Valid()
      ensures r.Some? ==> r.value in View() && Same(less, r.value, e)
      ensures r.None? ==> forall f :: f in View() ==> !Same(less, e, f)
    {
      var i := Slot(hash(e), |buckets|);
      var j := FindElem(i, e);
      SearchDecides(i, j, e);
      r := if j < |buckets[i]| then Some(buckets[i][j]) else None;
    }

    /** hash_insert: an equal element stays and is returned. */
    method Insert(e: E, memory: bool) returns (r: Option<E>)
      requires Valid()
      modifies this
      ensures Valid() && (memory ==> WellSized())
      ensures r.Some? ==> r.value in old(View()) && Same(less, r.value, e) && View() == old(View())
      ensures r.None? ==> (forall f :: f in old(View()) ==> !Same(less, e, f)) && View() == old(View()) + {e}
    {
      var i := Slot(hash(e), |buckets|);
      var j := FindElem(i, e);
      SearchDecides(i, j, e);
      if j < |buckets[i]| {
        r := Some(buckets[i][j]);
      } else {
        r := None;
        InsertElem(i, e);
      }
      Rehash(memory);
    }

    /** hash_replace: an equal element makes room for the new one and is returned. */
    method Replace(e: E, memory: bool) returns (r: Option<E>)
      requires Valid()
      modifies this
      ensures Valid() && (memory ==> WellSized())
      ensures r.Some? ==> r.value in old(View()) && Same(less, r.value, e) && View() == old(View()) - {r.value} + {e}
      ensures r.None? ==> (forall f :: f in old(View()) ==> !Same(less, e, f)) && View() == old(View()) + {e}
    {
      var i := Slot(hash(e), |buckets|);
      var j := FindElem(i, e);
      SearchDecides(i, j, e);
      if j < |buckets[i]| {
        var found := buckets[i][j];
        r := Some(found);
        PlacedElems(hash, less, buckets);
        RemoveElem(i, j);
        forall f | f in View() ensures !Same(less, e, f) {
          assert Same(less, e, f) ==> Same(less, found, f);
        }
      } else {
        r := None;
      }
      InsertElem(i, e);
      Rehash(memory);
    }

    /** hash_delete. */
    method Delete(e: E, memory: bool) returns (r: Option<E>)
      requires Valid()
      modifies this
      ensures Valid() && (memory && r.Some? ==> WellSized())
      ensures r.Some? ==> r.value in old(View()) && Same(less, r.value, e) && View() == old(View()) - {r.value}
      ensures r.None? ==> (forall f :: f in View() ==> !Same(less, e, f)) && View() == old(View())
    {
      var i := Slot(hash(e), |buckets|);
      var j := FindElem(i, e);
      SearchDecides(i, j, e);
      if j < |buckets[i]| {
        r := Some(buckets[i][j]);
        RemoveElem(i, j);
        Rehash(memory);
      } else {
        r := None;
      }
    }

    method InsertElem(i: nat, e: E)
      requires Valid() && i == Slot(hash(e), |buckets|) && forall f :: f in View() ==> !Same(less, e, f)
      modifies this
      ensures Valid() && View() == old(View()) + {e}
    {
      PushPlaced(hash, less, buckets, e);
      elemCnt := elemCnt + 1;
      buckets := PushFront(buckets, i, e);
    }

    method RemoveElem(i: nat, j: nat)
      requires Valid() && i < |buckets| && j < |buckets[i]|
      modifies this
      ensures Valid() && |buckets| == old(|buckets|) && View() == old(View()) - {old(buckets[i][j])}
    {
      RemovePlaced(hash, less, buckets, i, j);
      elemCnt := elemCnt - 1;
      buckets := RemoveAt(buckets, i, j);
    }

    /** rehash: without memory nothing changes; the elements never do. */
    method Rehash(memory: bool)
      requires Valid()
      modifies this
      ensures Valid() && View() == old(View()) && (memory ==> WellSized())
      ensures !memory ==> buckets == old(buckets)
    {
      var cnt, k := BestBucketCnt(elemCnt);
      if cnt == |buckets| || !memory {
        return;
      }
      assert k >= 2 by {
        if k < 2 {
          Pow2Mono(k, 1);
        }
      }
      MoveAll(cnt);
    }

    /** Moves every element into `cnt` new buckets. */
    method MoveAll(cnt: nat)
      requires Consistent(hash, less) && Placed(hash, less, buckets) && cnt > 0
      modifies this`buckets
      ensures |buckets| == cnt && Placed(hash, less, buckets) && View() == old(View())
    {
      var from := buckets;
      buckets := seq(cnt, _ => []);
      assert from[..0] == [] && Elems(buckets) == Elems(from[..0]);
      for i := 0 to |from|
        invariant |buckets| == cnt && Placed(hash, less, buckets) && View() == Elems(from[..i])
      {
        BeforeEnds(from, i);
        for j := 0 to |from[i]|
          invariant |buckets| == cnt && Placed(hash, less, buckets) && View() == Elems(Before(from, i, j))
        {
          var e := from[i][j];
          NextIsNew(hash, less, from, i, j);
          PushPlaced(hash, less, buckets, e);
          buckets := PushFront(buckets, Slot(hash(e), cnt), e);
        }
      }
      assert from[..|from|] == from;
    }
  }

  // ----- iteration

  /** An iterator: the current bucket and the position of its next element. */
  datatype Cursor = Cursor(bucket: nat, pos: nat)

  function Flatten<E>(buckets: seq<seq<E>>): seq<E> {
    if buckets == [] then [] else buckets[0] + Flatten(buckets[1..])
  }

  /** What the iterator has still to return. */
  ghost function Rest<E>(buckets: seq<seq<E>>, c: Cursor): seq<E>
    requires c.bucket < |buckets| && c.pos <= |buckets[c.bucket]|
  {
    buckets[c.bucket][c.pos..] + Flatten(buckets[c.bucket + 1..])
  }

  /** hash_first. */
  function First(): Cursor {
    Cursor(0, 0)
  }

  /** hash_next: the first of the remaining elements, and none only when none is left. */
  method Next<E>(buckets: seq<seq<E>>, c: Cursor) returns (r: Option<E>, c': Cursor)
    requires c.bucket < |buckets| && c.pos <= |buckets[c.bucket]|
    ensures r.None? <==> Rest(buckets, c) == []
    ensures r.Some? ==> c'.bucket < |buckets| && c'.pos <= |buckets[c'.bucket]|
    ensures r.Some? ==> Rest(buckets, c) == [r.value] + Rest(buckets, c')
  {
    var i: nat, p: nat := c.bucket, c.pos;
    while p == |buckets[i]|
      invariant i < |buckets| && p <= |buckets[i]| && Rest(buckets, Cursor(i, p)) == Rest(buckets, c)
      decreases |buckets| - i
    {
      ghost var tail := buckets[i + 1..];
      assert Rest(buckets, Cursor(i, p)) == Flatten(tail);
      i, p := i + 1, 0;
      if i >= |buckets| {
        return None, c;
      }
      assert tail[0] == buckets[i] && tail[1..] == buckets[i + 1..];
      assert buckets[i][0..] == buckets[i];
    }
    r, c' := Some(buckets[i][p]), Cursor(i, p + 1);
    assert buckets[i][p..] == [buckets[i][p]] + buckets[i][p + 1..];
  }

  /** An iteration returns every element of the table, and each one once. */
  lemma {:induction false} IterationIsComplete<E>(buckets: seq<seq<E>>)
    ensures forall e :: e in Flatten(buckets) <==> e in Elems(buckets)
    ensures buckets != [] ==> Rest(buckets, First()) == Flatten(buckets)
  {
    if buckets != [] {
      var tail := buckets[1..];
      IterationIsComplete(tail);
      assert Elems(buckets) == (set e | e in buckets[0]) + Elems(tail) by {
        assert forall i :: 0 < i < |buckets| ==> buckets[i] == tail[i - 1];
        assert forall i :: 0 <= i < |tail| ==> tail[i] == buckets[i + 1];
      }
      assert buckets[0][0..] == buckets[0];
    }
  }

  lemma {:induction false} IterationRepeatsNothing<E(!new)>(hash: E -> nat, less: (E, E) -> bool,
      buckets: seq<seq<E>>, n: nat)
    requires Consistent(hash, less) && Placed(hash, less, buckets) && n <= |buckets|
    ensures Unequal(less, Flatten(buckets[n..]))
    decreases |buckets| - n
  {
    if n < |buckets| {
      var tail := buckets[n..];
      assert tail[0] == buckets[n] && tail[1..] == buckets[n + 1..];
      IterationRepeatsNothing(hash, less, buckets, n + 1);
      IterationIsComplete(tail[1..]);
      var later := Flatten(tail[1..]);
      forall e, f | e in buckets[n] && f in later ensures !Same(less, e, f) {
        assert f in Elems(tail[1..]);
        var k :| 0 <= k < |tail[1..]| && f in tail[1..][k];
        assert f in buckets[n + 1 + k];
        assert Slot(hash(e), |buckets|) == n && Slot(hash(f), |buckets|) == n + 1 + k;
      }
      assert Unequal(less, buckets[n]) && Unequal(less, later);
    }
  }
}
