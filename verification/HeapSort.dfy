/** sort and binary_search of lib/stdlib.c: an in-place heapsort and a binary search over
    arrays of elements of any size, for any strcmp-like comparison.  Heap indices are
    1-based as in the source; element `k` of the heap is `es[k - 1]`. */
module HeapSort {
  import opened Bytes
  import opened Wrappers

  // ----- heaps as sequences of elements

  ghost predicate TotalPreorder<E(!new)>(cmp: (E, E) -> int) {
    && (forall a, b :: cmp(a, b) < 0 <==> cmp(b, a) > 0)
    && (forall a, b, c :: cmp(a, b) <= 0 && cmp(b, c) <= 0 ==> cmp(a, c) <= 0)
  }

  /** The children of element `k` below `cnt` are not greater than `x`. */
  ghost predicate Children<E>(es: seq<E>, cmp: (E, E) -> int, k: nat, cnt: nat, x: E)
    requires 0 < k && cnt <= |es|
  {
    && (2 * k <= cnt ==> cmp(es[2 * k - 1], x) <= 0)
    && (2 * k + 1 <= cnt ==> cmp(es[2 * k], x) <= 0)
  }

  ghost predicate Above<E>(es: seq<E>, cmp: (E, E) -> int, k: nat, cnt: nat)
    requires 0 < k <= cnt <= |es|
  {
    Children(es, cmp, k, cnt, es[k - 1])
  }

  ghost predicate HeapFrom<E>(es: seq<E>, cmp: (E, E) -> int, lo: nat, cnt: nat)
    requires cnt <= |es|
  {
    forall k :: 0 < k && lo <= k <= cnt ==> Above(es, cmp, k, cnt)
  }

  /** A heap from `lo` on, except that element `i` may be too small; its children are not
      greater than its parent. */
  ghost predicate HeapExcept<E>(es: seq<E>, cmp: (E, E) -> int, lo: nat, cnt: nat, i: nat)
    requires cnt <= |es| && 0 < i <= cnt
  {
    && (forall k :: 0 < k && lo <= k <= cnt && k != i ==> Above(es, cmp, k, cnt))
    && (0 < i / 2 && lo <= i / 2 ==> Children(es, cmp, i, cnt, es[i / 2 - 1]))
  }

  /** The largest of element `i` and its children, as heapify chooses it. */
  function MaxChild<E>(es: seq<E>, cmp: (E, E) -> int, i: nat, cnt: nat): (m: nat)
    requires 0 < i <= cnt <= |es|
    ensures m <= cnt && (m == i || m == 2 * i || m == 2 * i + 1)
  {
    var l := if 2 * i <= cnt && cmp(es[2 * i - 1], es[i - 1]) > 0 then 2 * i else i;
    if 2 * i + 1 <= cnt && cmp(es[2 * i], es[l - 1]) > 0 then 2 * i + 1 else l
  }

  function Swap<E>(es: seq<E>, i: nat, j: nat): (r: seq<E>)
    requires 0 < i <= |es| && 0 < j <= |es|
    ensures |r| == |es| && multiset(r) == multiset(es)
  {
    es[i - 1 := es[j - 1]][j - 1 := es[i - 1]]
  }

  /** heapify. */
  function Float<E>(es: seq<E>, cmp: (E, E) -> int, i: nat, cnt: nat): (r: seq<E>)
    requires 0 < i <= cnt <= |es|
    ensures |r| == |es| && multiset(r) == multiset(es)
    decreases cnt - i
  {
    var m := MaxChild(es, cmp, i, cnt);
    if m == i then es else Float(Swap(es, i, m), cmp, m, cnt)
  }

  lemma MaxIsMax<E(!new)>(es: seq<E>, cmp: (E, E) -> int, i: nat, cnt: nat)
    requires TotalPreorder(cmp) && 0 < i <= cnt <= |es|
    ensures var x := es[MaxChild(es, cmp, i, cnt) - 1]; cmp(es[i - 1], x) <= 0 && Children(es, cmp, i, cnt, x)
  {
    assert cmp(es[i - 1], es[i - 1]) <= 0;
  }

  /** Swapping element `i` with its larger child `m` puts every parent but `m` in order. */
  lemma SwapOrders<E>(es: seq<E>, cmp: (E, E) -> int, i: nat, m: nat, cnt: nat, k: nat)
    requires 0 < i < m <= cnt <= |es| && (m == 2 * i || m == 2 * i + 1) && 0 < k <= cnt && k != m
    requires cmp(es[i - 1], es[m - 1]) <= 0 && Children(es, cmp, i, cnt, es[m - 1])
    requires k != i ==> Above(es, cmp, k, cnt)
    requires k == i / 2 ==> Children(es, cmp, i, cnt, es[k - 1])
    ensures Above(Swap(es, i, m), cmp, k, cnt)
  {
    var es' := Swap(es, i, m);
    assert es'[i - 1] == es[m - 1] && es'[m - 1] == es[i - 1];
    assert 2 * k == i || 2 * k + 1 == i ==> k == i / 2;
  }

  /** One step of heapify moves the flaw down to the larger child. */
  lemma FlawMovesDown<E>(es: seq<E>, cmp: (E, E) -> int, lo: nat, i: nat, m: nat, cnt: nat)
    requires 0 < i < m <= cnt <= |es| && (m == 2 * i || m == 2 * i + 1) && lo <= i && HeapExcept(es, cmp, lo, cnt, i)
    requires cmp(es[i - 1], es[m - 1]) <= 0 && Children(es, cmp, i, cnt, es[m - 1])
    ensures HeapExcept(Swap(es, i, m), cmp, lo, cnt, m)
  {
    forall k | 0 < k && lo <= k <= cnt && k != m ensures Above(Swap(es, i, m), cmp, k, cnt) {
      SwapOrders(es, cmp, i, m, cnt, k);
    }
    assert m / 2 == i && Above(es, cmp, m, cnt);
  }

  /** heapify repairs the heap. */
  lemma {:induction false} FloatRepairs<E(!new)>(es: seq<E>, cmp: (E, E) -> int, lo: nat, i: nat, cnt: nat)
    requires TotalPreorder(cmp) && 0 < i <= cnt <= |es| && lo <= i && HeapExcept(es, cmp, lo, cnt, i)
    ensures HeapFrom(Float(es, cmp, i, cnt), cmp, lo, cnt)
    decreases cnt - i
  {
    var m := MaxChild(es, cmp, i, cnt);
    MaxIsMax(es, cmp, i, cnt);
    if m != i {
      FlawMovesDown(es, cmp, lo, i, m, cnt);
      FloatRepairs(Swap(es, i, m), cmp, lo, m, cnt);
    }
  }

  /** It permutes the first `cnt` elements and leaves the others alone. */
  lemma {:induction false} FloatPermutes<E>(es: seq<E>, cmp: (E, E) -> int, i: nat, cnt: nat)
    requires 0 < i <= cnt <= |es|
    ensures multiset(Float(es, cmp, i, cnt)[..cnt]) == multiset(es[..cnt])
    ensures Float(es, cmp, i, cnt)[cnt..] == es[cnt..]
    decreases cnt - i
  {
    var m := MaxChild(es, cmp, i, cnt);
    if m != i {
      FloatPermutes(Swap(es, i, m), cmp, m, cnt);
      assert Swap(es, i, m)[..cnt] == Swap(es[..cnt], i, m);
      assert Swap(es, i, m)[cnt..] == es[cnt..];
    }
  }

  /** The first `n` elements are not greater than `x`. */
  ghost predicate UpTo<E>(es: seq<E>, cmp: (E, E) -> int, n: nat, x: E)
    requires n <= |es|
  {
    forall j :: 0 <= j < n ==> cmp(es[j], x) <= 0
  }

  /** The root of a heap is its maximum. */
  lemma {:induction false} RootIsMax<E(!new)>(es: seq<E>, cmp: (E, E) -> int, cnt: nat, n: nat)
    requires n <= cnt <= |es| && 0 < cnt && TotalPreorder(cmp) && HeapFrom(es, cmp, 1, cnt)
    ensures UpTo(es, cmp, n, es[0])
    decreases n
  {
    if n > 1 {
      RootIsMax(es, cmp, cnt, n - 1);
      assert Above(es, cmp, n / 2, cnt) && cmp(es[n / 2 - 1], es[0]) <= 0;
    } else {
      assert !(cmp(es[0], es[0]) > 0);
    }
  }

  lemma UpToPermuted<E>(a: seq<E>, b: seq<E>, cmp: (E, E) -> int, n: nat, x: E)
    requires n <= |a| && n <= |b| && multiset(a[..n]) == multiset(b[..n]) && UpTo(a, cmp, n, x)
    ensures UpTo(b, cmp, n, x)
  {
    forall j | 0 <= j < n ensures cmp(b[j], x) <= 0 {
      assert b[..n][j] == b[j];
      assert b[j] in multiset(b[..n]);
      assert b[j] in multiset(a[..n]);
      assert b[j] in a[..n];
    }
  }

  // ----- the two loops of sort

  ghost predicate Sorted<E>(es: seq<E>, cmp: (E, E) -> int) {
    forall i, j :: 0 <= i < j < |es| ==> cmp(es[i], es[j]) <= 0
  }

  /** Building the heap: element `i` joins it. */
  lemma BuildStep<E(!new)>(es: seq<E>, cmp: (E, E) -> int, i: nat, cnt: nat)
    requires TotalPreorder(cmp) && 0 < i <= cnt <= |es| && HeapFrom(es, cmp, i + 1, cnt)
    ensures HeapFrom(Float(es, cmp, i, cnt), cmp, i, cnt)
  {
    FloatRepairs(es, cmp, i, i, cnt);
  }

  /** The part from `i` on is sorted and not less than the heap before it. */
  ghost predicate Drained<E>(es: seq<E>, cmp: (E, E) -> int, i: nat)
    requires i <= |es|
  {
    HeapFrom(es, cmp, 1, i) && forall k :: i <= k < |es| ==> UpTo(es, cmp, k, es[k])
  }

  /** After the swap only the root may be too small. */
  lemma SwapTopExcept<E>(es: seq<E>, cmp: (E, E) -> int, i: nat)
    requires 1 < i <= |es| && HeapFrom(es, cmp, 1, i)
    ensures HeapExcept(Swap(es, 1, i), cmp, 1, i - 1, 1)
  {
    var s, n := Swap(es, 1, i), i - 1;
    forall k | 0 < k && 1 <= k <= n && k != 1 ensures Above(s, cmp, k, n) {
      assert Above(es, cmp, k, i);
    }
  }

  lemma DrainStep<E(!new)>(es: seq<E>, cmp: (E, E) -> int, i: nat)
    requires TotalPreorder(cmp) && 1 < i <= |es| && Drained(es, cmp, i)
    ensures Drained(Float(Swap(es, 1, i), cmp, 1, i - 1), cmp, i - 1)
  {
    hide Float, HeapExcept, HeapFrom, Swap, TotalPreorder, UpTo;
    var s, n := Swap(es, 1, i), i - 1;
    var r := Float(s, cmp, 1, n);
    SwapTopExcept(es, cmp, i);
    FloatRepairs(s, cmp, 1, 1, n);
    FloatPermutes(s, cmp, 1, n);
    forall k | n <= k < |es| ensures UpTo(r, cmp, k, r[k]) {
      assert r[k] == r[n..][k - n] == s[n..][k - n] == s[k];
      PrefixPermuted(s, r, n, k);
      SwapUpTo(es, cmp, i, k);
      UpToPermuted(s, r, cmp, k, s[k]);
    }
  }

  lemma PrefixPermuted<E>(s: seq<E>, r: seq<E>, n: nat, k: nat)
    requires n <= k <= |s| == |r| && multiset(r[..n]) == multiset(s[..n]) && r[n..] == s[n..]
    ensures multiset(r[..k]) == multiset(s[..k])
  {
    assert r[..k] == r[..n] + r[n..][..k - n] && s[..k] == s[..n] + s[n..][..k - n];
  }

  lemma SwapUpTo<E(!new)>(es: seq<E>, cmp: (E, E) -> int, i: nat, k: nat)
    requires TotalPreorder(cmp) && 1 < i <= |es| && Drained(es, cmp, i) && i - 1 <= k < |es|
    ensures var s := Swap(es, 1, i); UpTo(s, cmp, k, s[k])
  {
    RootIsMax(es, cmp, i, i);
    assert k >= i ==> UpTo(es, cmp, k, es[k]);
  }

  lemma DrainedIsSorted<E>(es: seq<E>, cmp: (E, E) -> int, i: nat)
    requires i <= 1 && i <= |es| && Drained(es, cmp, i)
    ensures Sorted(es, cmp)
  {
    forall j, k | 0 <= j < k < |es| ensures cmp(es[j], es[k]) <= 0 {
      assert UpTo(es, cmp, k, es[k]);
    }
  }

  // ----- arrays of elements of `size` bytes

  type Elem = seq<Byte>

  /** The rows of the array are the elements. */
  ghost function Elems(a: array2<Byte>): (es: seq<Elem>)
    reads a
    ensures |es| == a.Length0
  {
    seq(a.Length0,
      k requires 0 <= k < a.Length0 reads a => seq(a.Length1, m requires 0 <= m < a.Length1 reads a => a[k, m]))
  }

  /** do_swap, byte by byte; the indices are 1-based. */
  method DoSwap(a: array2<Byte>, i: nat, j: nat)
    requires 0 < i <= a.Length0 && 0 < j <= a.Length0 && i != j
    modifies a
    ensures Elems(a) == Swap(old(Elems(a)), i, j)
  {
    for n := 0 to a.Length1
      invariant forall k, m :: 0 <= k < a.Length0 && 0 <= m < a.Length1 ==>
                  a[k, m] == old(a[if m < n then Exchanged(i, j, k) else k, m])
    {
      a[i - 1, n], a[j - 1, n] := a[j - 1, n], a[i - 1, n];
    }
    ghost var es: seq<Elem>, es': seq<Elem> := old(Elems(a)), Elems(a);
    forall k | 0 <= k < a.Length0 ensures es'[k] == es[Exchanged(i, j, k)] {
      assert forall m :: 0 <= m < a.Length1 ==> es'[k][m] == a[k, m] && a[k, m] == old(a[Exchanged(i, j, k), m]);
    }
  }

  /** The 0-based index whose element goes to `k` when elements `i` and `j` are exchanged. */
  function Exchanged(i: nat, j: nat, k: int): int {
    if k == i - 1 then j - 1 else if k == j - 1 then i - 1 else k
  }

  /** The bytes of element `k`. */
  method Fetch(a: array2<Byte>, k: nat) returns (e: Elem)
    requires k < a.Length0
    ensures e == Elems(a)[k]
  {
    e := [];
    for m := 0 to a.Length1
      invariant |e| == m && forall n :: 0 <= n < m ==> e[n] == a[k, n]
    {
      e := e + [a[k, m]];
    }
  }

  /** do_compare. */
  method DoCompare(a: array2<Byte>, i: nat, j: nat, cmp: (Elem, Elem) -> int) returns (c: int)
    requires 0 < i <= a.Length0 && 0 < j <= a.Length0
    ensures c == cmp(Elems(a)[i - 1], Elems(a)[j - 1])
  {
    var x := Fetch(a, i - 1);
    var y := Fetch(a, j - 1);
    c := cmp(x, y);
  }

  /** The choice of the largest among an element and its children. */
  method Larger(a: array2<Byte>, i: nat, n: nat, cmp: (Elem, Elem) -> int) returns (max: nat)
    requires 0 < i <= n <= a.Length0
    ensures max == MaxChild(Elems(a), cmp, i, n)
  {
    var left, right := 2 * i, 2 * i + 1;
    max := i;
    if left <= n {
      var c := DoCompare(a, left, max, cmp);
      if c > 0 {
        max := left;
      }
    }
    if right <= n {
      var c := DoCompare(a, right, max, cmp);
      if c > 0 {
        max := right;
      }
    }
  }

  /** heapify on the first `n` elements. */
  method Heapify(a: array2<Byte>, start: nat, n: nat, cmp: (Elem, Elem) -> int)
    requires 0 < start <= n <= a.Length0
    modifies a
    ensures Elems(a) == Float(old(Elems(a)), cmp, start, n)
  {
    var i := start;
    ghost var was: seq<Elem> := Elems(a);
    ghost var es: seq<Elem> := was;
    while true
      invariant 0 < i <= n && es == Elems(a) && Float(es, cmp, i, n) == Float(was, cmp, start, n)
      decreases n - i
    {
      var max := Larger(a, i, n, cmp);
      if max == i {
        break;
      }
      DoSwap(a, i, max);
      es := Swap(es, i, max);
      i := max;
    }
  }

  /** sort. */
  method Sort(a: array2<Byte>, cmp: (Elem, Elem) -> int)
    requires TotalPreorder(cmp)
    modifies a
    ensures Sorted(Elems(a), cmp) && multiset(Elems(a)) == multiset(old(Elems(a)))
  {
    BuildHeap(a, cmp);
    Drain(a, cmp);
  }

  method BuildHeap(a: array2<Byte>, cmp: (Elem, Elem) -> int)
    requires TotalPreorder(cmp)
    modifies a
    ensures HeapFrom(Elems(a), cmp, 1, a.Length0) && multiset(Elems(a)) == multiset(old(Elems(a)))
  {
    var cnt := a.Length0;
    var i: nat := cnt / 2;
    ghost var es: seq<Elem> := Elems(a);
    while i > 0
      invariant i <= cnt / 2 && es == Elems(a) && multiset(es) == multiset(old(Elems(a)))
        && HeapFrom(es, cmp, i + 1, cnt)
    {
      BuildStep(es, cmp, i, cnt);
      Heapify(a, i, cnt, cmp);
      es := Float(es, cmp, i, cnt);
      i := i - 1;
    }
  }

  method Drain(a: array2<Byte>, cmp: (Elem, Elem) -> int)
    requires TotalPreorder(cmp) && HeapFrom(Elems(a), cmp, 1, a.Length0)
    modifies a
    ensures Sorted(Elems(a), cmp) && multiset(Elems(a)) == multiset(old(Elems(a)))
  {
    var i: nat := a.Length0;
    ghost var es: seq<Elem> := Elems(a);
    while i > 1
      invariant i <= a.Length0 && es == Elems(a) && multiset(es) == multiset(old(Elems(a))) && Drained(es, cmp, i)
    {
      DrainStep(es, cmp, i);
      DoSwap(a, 1, i);
      Heapify(a, 1, i - 1, cmp);
      es := Float(Swap(es, 1, i), cmp, 1, i - 1);
      i := i - 1;
    }
    DrainedIsSorted(es, cmp, i);
  }

  /** binary_search: the index of a matching element. */
  method BinarySearch(key: Elem, a: array2<Byte>, cmp: (Elem, Elem) -> int) returns (r: Option<nat>)
    requires TotalPreorder(cmp) && Sorted(Elems(a), cmp)
    ensures r.Some? ==> r.value < a.Length0 && cmp(key, Elems(a)[r.value]) == 0
    ensures r.None? ==> forall k :: 0 <= k < a.Length0 ==> cmp(key, Elems(a)[k]) != 0
  {
    ghost var es: seq<Elem> := Elems(a);
    Halves(key, es, cmp);
    r := Search(key, a, cmp);
  }

  method Search(key: Elem, a: array2<Byte>, cmp: (Elem, Elem) -> int) returns (r: Option<nat>)
    requires Decides(key, Elems(a), cmp)
    ensures r.Some? ==> r.value < a.Length0 && cmp(key, Elems(a)[r.value]) == 0
    ensures r.None? ==> forall k :: 0 <= k < a.Length0 ==> cmp(key, Elems(a)[k]) != 0
  {
    var first: nat, last: nat := 0, a.Length0;
    ghost var es: seq<Elem> := Elems(a);
    while first < last
      invariant first <= last <= |es|
      invariant forall k :: 0 <= k < first ==> cmp(key, es[k]) > 0
      invariant forall k :: last <= k < |es| ==> cmp(key, es[k]) < 0
    {
      var range := last - first;
      var middle := first + range / 2;
      var e := Fetch(a, middle);
      var c := cmp(key, e);
      if c < 0 {
        last := middle;
      } else if c > 0 {
        first := middle + 1;
      } else {
        return Some(middle);
      }
    }
    return None;
  }

  /** One comparison with the array decides for one half of it. */
  ghost predicate Decides<E>(key: E, es: seq<E>, cmp: (E, E) -> int) {
    forall j, k :: 0 <= j <= k < |es| ==>
      (cmp(key, es[j]) < 0 ==> cmp(key, es[k]) < 0) && (cmp(key, es[k]) > 0 ==> cmp(key, es[j]) > 0)
  }

  lemma Halves<E(!new)>(key: E, es: seq<E>, cmp: (E, E) -> int)
    requires TotalPreorder(cmp) && Sorted(es, cmp)
    ensures Decides(key, es, cmp)
  {
    forall j, k | 0 <= j <= k < |es|
      ensures (cmp(key, es[j]) < 0 ==> cmp(key, es[k]) < 0) && (cmp(key, es[k]) > 0 ==> cmp(key, es[j]) > 0)
    {
      assert j == k || cmp(es[j], es[k]) <= 0;
    }
  }

  /** A match exists after sorting exactly when one existed before. */
  lemma MatchSurvives<E>(key: E, before: seq<E>, after: seq<E>, cmp: (E, E) -> int)
    requires multiset(before) == multiset(after)
    ensures (exists k :: 0 <= k < |before| && cmp(key, before[k]) == 0) <==>
      (exists k :: 0 <= k < |after| && cmp(key, after[k]) == 0)
  {
    forall k | 0 <= k < |before| ensures before[k] in after {
      assert before[k] in multiset(before);
    }
    forall k | 0 <= k < |after| ensures after[k] in before {
      assert after[k] in multiset(after);
    }
  }
}
