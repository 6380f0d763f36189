/** list_sort and its helpers (lib/kernel/list.c): a natural merge sort that
    repeatedly merges neighbouring nondecreasing runs by relinking elements. */
module ListSort {
  import opened IntrusiveList
  import opened Orders
  import opened Sequences

  /** The elements at [lo, hi) are in nondecreasing order. */
  ghost predicate SortedRange<T>(s: seq<Elem<T>>, less: (T, T) -> bool, lo: nat, hi: nat)
    requires hi <= |s|
  {
    forall i, j :: lo <= i < j < hi ==> !less(s[j].val, s[i].val)
  }

  /** Nothing at [lo, mid) has to come after anything at [mid, hi). */
  ghost predicate SplitRange<T>(s: seq<Elem<T>>, less: (T, T) -> bool, lo: nat, mid: nat, hi: nat)
    requires mid <= hi <= |s|
  {
    forall i, j :: lo <= i < mid <= j < hi ==> !less(s[j].val, s[i].val)
  }

  /** Equivalent elements of `s` stand in the order they have in `orig`. */
  ghost predicate Stable<T>(orig: seq<Elem<T>>, s: seq<Elem<T>>, less: (T, T) -> bool) {
    forall i, j :: 0 <= i < j < |s| && Same(less, s[i].val, s[j].val) ==> InOrder(orig, s[i], s[j])
  }

  ghost predicate InOrder<T>(orig: seq<Elem<T>>, x: Elem<T>, y: Elem<T>) {
    exists p, q :: 0 <= p < q < |orig| && orig[p] == x && orig[q] == y
  }

  /** Number of places in [lo, hi) where an element must come after its successor. */
  ghost function Descents<T>(s: seq<Elem<T>>, less: (T, T) -> bool, lo: nat, hi: nat): nat
    requires hi < |s| || hi <= lo
    decreases hi
  {
    if hi <= lo then 0
    else Descents(s, less, lo, hi - 1) + (if less(s[hi].val, s[hi - 1].val) then 1 else 0)
  }

  // ----- facts about runs

  lemma SortedExtend<T(!new)>(s: seq<Elem<T>>, less: (T, T) -> bool, lo: nat, hi: nat)
    requires StrictWeakOrder(less) && lo < hi < |s|
    requires SortedRange(s, less, lo, hi) && !less(s[hi].val, s[hi - 1].val)
    ensures SortedRange(s, less, lo, hi + 1)
  {
    forall i | lo <= i < hi ensures !less(s[hi].val, s[i].val) {
      assert i < hi - 1 ==> !less(s[hi - 1].val, s[i].val);
    }
  }

  /** The exclusive end of the run that starts at index `a`. */
  ghost function RunEnd<T>(s: seq<Elem<T>>, less: (T, T) -> bool, a: nat, hi: nat): (r: nat)
    requires a < hi <= |s|
    ensures a < r <= hi
    decreases hi - a
  {
    if a + 1 == hi || less(s[a + 1].val, s[a].val) then a + 1 else RunEnd(s, less, a + 1, hi)
  }

  /** A run ends only where the next element must come before its last one. */
  lemma {:induction false} RunEndIsDescent<T>(s: seq<Elem<T>>, less: (T, T) -> bool, a: nat, hi: nat)
    requires a < hi <= |s|
    ensures RunEnd(s, less, a, hi) < hi ==> less(s[RunEnd(s, less, a, hi)].val, s[RunEnd(s, less, a, hi) - 1].val)
    decreases hi - a
  {
    if a + 1 < hi && !less(s[a + 1].val, s[a].val) {
      RunEndIsDescent(s, less, a + 1, hi);
    }
  }

  lemma {:induction false} RunIsSorted<T(!new)>(s: seq<Elem<T>>, less: (T, T) -> bool, lo: nat, a: nat, hi: nat)
    requires StrictWeakOrder(less) && lo <= a < hi <= |s| && SortedRange(s, less, lo, a + 1)
    ensures SortedRange(s, less, lo, RunEnd(s, less, a, hi))
    decreases hi - a
  {
    if a + 1 < hi && !less(s[a + 1].val, s[a].val) {
      SortedExtend(s, less, lo, a + 1);
      RunIsSorted(s, less, lo, a + 1, hi);
    }
  }

  /** find_end_of_run: the exclusive end of the run starting at `a`. */
  method FindEndOfRun<T>(l: List<T>, a: Elem<T>, b: Elem<T>, less: (T, T) -> bool, ghost ia: nat, ghost ib: nat)
    returns (r: Elem<T>)
    requires l.Valid()
    requires 0 < ia < ib < |l.nodes| && l.nodes[ia] == a && l.nodes[ib] == b
    ensures r == l.nodes[RunEnd(l.nodes, less, ia, ib)]
  {
    r := a.next;
    ghost var ir := ia + 1;
    while r != b && !less(r.val, r.prev.val)
      invariant ia < ir <= ib && l.nodes[ir] == r
      invariant RunEnd(l.nodes, less, ia, ib) == RunEnd(l.nodes, less, ir - 1, ib)
      decreases ib - ir
    {
      r, ir := r.next, ir + 1;
    }
    assert r == b ==> ir == ib by {
      DistinctPairs(l.nodes);
    }
  }

  // ----- merging

  lemma MovedMultiset<A>(s: seq<A>, b: nat, i: nat)
    requires b < i < |s|
    ensures multiset(Moved(s, b, i, i + 1)) == multiset(s)
  {
    assert Moved(s, b, i, i + 1) == s[..b] + [s[i]] + s[b..i] + s[i + 1..];
    assert s == s[..b] + s[b..i] + [s[i]] + s[i + 1..];
  }

  /** An element may jump back over strictly greater ones without disturbing stability. */
  lemma MoveKeepsStable<T>(orig: seq<Elem<T>>, s: seq<Elem<T>>, t: seq<Elem<T>>, less: (T, T) -> bool, b: nat, i: nat)
    requires b < i < |s| && Stable(orig, s, less)
    requires |t| == |s| && forall k :: 0 <= k < |s| ==> t[k] == s[Origin(b, i, i + 1, k)]
    requires forall k :: b <= k < i ==> less(s[i].val, s[k].val)
    ensures Stable(orig, t, less)
  {
    forall p, q | 0 <= p < q < |t| && Same(less, t[p].val, t[q].val) ensures InOrder(orig, t[p], t[q]) {
      assert Origin(b, i, i + 1, p) < Origin(b, i, i + 1, q);
    }
  }

  /** What one merge step keeps when the head `i` of the second run moves to `b`. */
  lemma MoveKeepsRuns<T(!new)>(s: seq<Elem<T>>, t: seq<Elem<T>>, less: (T, T) -> bool, lo: nat, b: nat, i: nat, hi: nat)
    requires StrictWeakOrder(less) && lo <= b < i < hi <= |s|
    requires |t| == |s| && forall k :: 0 <= k < |s| ==> t[k] == s[Origin(b, i, i + 1, k)]
    requires SortedRange(s, less, lo, i) && SortedRange(s, less, i, hi) && SplitRange(s, less, lo, b, hi)
    requires less(s[i].val, s[b].val)
    ensures forall k :: b <= k < i ==> less(s[i].val, s[k].val)
    ensures SortedRange(t, less, lo, i + 1) && SortedRange(t, less, i + 1, hi) && SplitRange(t, less, lo, b + 1, hi)
  {
    hide StrictWeakOrder;
    HeadIsLess(s, less, lo, b, i);
    forall p, q | lo <= p < q < i + 1 ensures !less(t[q].val, t[p].val) {
      if p == b {
        Asymmetric(less, s[i].val, s[q - 1].val);
      }
    }
    forall q | i < q < hi ensures !less(t[q].val, s[i].val) {
      assert t[q] == s[q];
    }
  }

  lemma HeadIsLess<T(!new)>(s: seq<Elem<T>>, less: (T, T) -> bool, lo: nat, b: nat, i: nat)
    requires StrictWeakOrder(less) && lo <= b < i < |s| && SortedRange(s, less, lo, i) && less(s[i].val, s[b].val)
    ensures forall k :: b <= k < i ==> less(s[i].val, s[k].val)
  {
    forall k | b <= k < i ensures less(s[i].val, s[k].val) {
      assert b < k ==> !less(s[k].val, s[b].val);
    }
  }

  lemma Asymmetric<T(!new)>(less: (T, T) -> bool, x: T, y: T)
    requires StrictWeakOrder(less) && less(x, y)
    ensures !less(y, x)
  {
  }

  /** `t` is `s` except perhaps at [lo, hi). */
  ghost predicate SameOutside<A>(s: seq<A>, t: seq<A>, lo: nat, hi: nat) {
    |t| == |s| && forall k :: 0 <= k < |s| && !(lo <= k < hi) ==> t[k] == s[k]
  }

  /** How far a merge of [lo, mid) with [mid, hi) has come when the cursors stand
      at `a` in the first run and at `m`, the start of what is left of the second. */
  ghost predicate Merging<T>(orig: seq<Elem<T>>, s0: seq<Elem<T>>, s: seq<Elem<T>>, less: (T, T) -> bool,
                             lo: nat, a: nat, m: nat, hi: nat)
  {
    && lo <= a <= m <= hi <= |s| && SameOutside(s0, s, lo, hi)
    && multiset(s) == multiset(s0)
    && SortedRange(s, less, lo, m) && SortedRange(s, less, m, hi) && SplitRange(s, less, lo, a, hi)
    && Stable(orig, s, less)
  }

  lemma MergeAdvance<T(!new)>(orig: seq<Elem<T>>, s0: seq<Elem<T>>, s: seq<Elem<T>>, less: (T, T) -> bool,
                              lo: nat, a: nat, m: nat, hi: nat)
    requires StrictWeakOrder(less) && Merging(orig, s0, s, less, lo, a, m, hi)
    requires a < m < hi && !less(s[m].val, s[a].val)
    ensures Merging(orig, s0, s, less, lo, a + 1, m, hi)
  {
    forall j | m < j < hi ensures !less(s[j].val, s[a].val) {
      assert !less(s[j].val, s[m].val);
    }
  }

  lemma MergeDone<T>(orig: seq<Elem<T>>, s0: seq<Elem<T>>, s: seq<Elem<T>>, less: (T, T) -> bool,
                     lo: nat, a: nat, m: nat, hi: nat)
    requires Merging(orig, s0, s, less, lo, a, m, hi) && (a == m || m == hi)
    ensures Merging(orig, s0, s, less, lo, hi, hi, hi)
  {
    hide SameOutside, Stable;
  }

  lemma MergeMove<T(!new)>(orig: seq<Elem<T>>, s0: seq<Elem<T>>, s: seq<Elem<T>>, less: (T, T) -> bool,
                           lo: nat, a: nat, m: nat, hi: nat)
    requires StrictWeakOrder(less) && Merging(orig, s0, s, less, lo, a, m, hi)
    requires a < m < hi && less(s[m].val, s[a].val)
    ensures Merging(orig, s0, Moved(s, a, m, m + 1), less, lo, a + 1, m + 1, hi)
    ensures Moved(s, a, m, m + 1)[a + 1] == s[a]
    ensures m + 1 < |s| ==> Moved(s, a, m, m + 1)[m + 1] == s[m + 1]
  {
    var t := Moved(s, a, m, m + 1);
    MovedMultiset(s, a, m);
    MoveKeepsRuns(s, t, less, lo, a, m, hi);
    MoveKeepsStable(orig, s, t, less, a, m);
  }

  /** The sequence that inplace_merge leaves when its cursors stand at `a` and `m`. */
  ghost function Merged<T>(s: seq<Elem<T>>, less: (T, T) -> bool, a: nat, m: nat, hi: nat): (r: seq<Elem<T>>)
    requires a <= m <= hi <= |s|
    ensures |r| == |s|
    decreases hi - a
  {
    if a == m || m == hi then s
    else if !less(s[m].val, s[a].val) then Merged(s, less, a + 1, m, hi)
    else Merged(Moved(s, a, m, m + 1), less, a + 1, m + 1, hi)
  }

  /** The second branch of inplace_merge: moves the head of the second run in front of `x`. */
  method MoveHead<T>(l: List<T>, x: Elem<T>, y: Elem<T>, ghost a: nat, ghost m: nat) returns (after: Elem<T>)
    requires l.Valid() && 0 < a < m < |l.nodes| - 1 && l.nodes[a] == x && l.nodes[m] == y
    modifies l`nodes, Members(l.nodes)
    ensures l.Valid() && l.nodes == Moved(old(l.nodes), a, m, m + 1) && Members(l.nodes) == old(Members(l.nodes))
    ensures l.nodes[a + 1] == x && l.nodes[m + 1] == after
    ensures |l.nodes| == old(|l.nodes|) && forall k :: m < k < |l.nodes| ==> l.nodes[k] == old(l.nodes)[k]
  {
    hide Distinct, Linked, Moved;
    after := l.Next(y, m);
    var p := l.Prev(after, m + 1);
    MovedHead(l.nodes, a, m);
    Splice(l, x, p, after, a, m, m + 1);
  }

  lemma MovedHead<A>(s: seq<A>, a: nat, m: nat)
    requires a < m < |s|
    ensures var t := Moved(s, a, m, m + 1);
            |t| == |s| && t[a + 1] == s[a] && forall k :: m < k < |s| ==> t[k] == s[k]
  {
  }

  /** One iteration of inplace_merge: leaves the merge that remains to be done unchanged. */
  method MergeStep<T>(l: List<T>, x: Elem<T>, y: Elem<T>, less: (T, T) -> bool, ghost a: nat, ghost m: nat,
      ghost hi: nat)
    returns (x': Elem<T>, y': Elem<T>, ghost m': nat)
    requires l.Valid() && 0 < a < m < hi < |l.nodes| && l.nodes[a] == x && l.nodes[m] == y
    modifies l`nodes, Members(l.nodes)
    ensures l.Valid() && |l.nodes| == old(|l.nodes|) && Members(l.nodes) == old(Members(l.nodes))
    ensures a + 1 <= m' <= hi && l.nodes[a + 1] == x' && l.nodes[m'] == y' && l.nodes[hi] == old(l.nodes)[hi]
    ensures Merged(l.nodes, less, a + 1, m', hi) == Merged(old(l.nodes), less, a, m, hi)
  {
    hide Distinct, Linked, Moved;
    if !less(y.val, x.val) {
      x' := l.Next(x, a);
      y', m' := y, m;
    } else {
      y' := MoveHead(l, x, y, a, m);
      x', m' := x, m + 1;
    }
  }

  /** inplace_merge: merges the runs at [lo, mid) and [mid, hi). */
  method InplaceMerge<T>(l: List<T>, a0: Elem<T>, a1b0: Elem<T>, b1: Elem<T>, less: (T, T) -> bool,
                         ghost lo: nat, ghost mid: nat, ghost hi: nat)
    requires l.Valid() && 0 < lo < mid < hi < |l.nodes|
    requires l.nodes[lo] == a0 && l.nodes[mid] == a1b0 && l.nodes[hi] == b1
    modifies l`nodes, Members(l.nodes)
    ensures l.Valid() && l.nodes == Merged(old(l.nodes), less, lo, mid, hi)
    ensures Members(l.nodes) == old(Members(l.nodes)) && |l.nodes| == old(|l.nodes|)
    ensures l.nodes[hi] == b1
  {
    var x, y := a0, a1b0;
    ghost var a, m := lo, mid;
    while x != y && y != b1
      invariant l.Valid() && |l.nodes| == old(|l.nodes|)
      invariant Members(l.nodes) == old(Members(l.nodes))
      invariant lo <= a <= m <= hi && l.nodes[a] == x && l.nodes[m] == y && l.nodes[hi] == b1
      invariant Merged(l.nodes, less, a, m, hi) == Merged(old(l.nodes), less, lo, mid, hi)
      decreases hi - a
    {
      x, y, m := MergeStep(l, x, y, less, a, m, hi);
      a := a + 1;
    }
    assert (x == y ==> a == m) && (y == b1 ==> m == hi) by {
      DistinctPairs(l.nodes);
    }
  }

  lemma {:induction false} MergedIsMerge<T(!new)>(orig: seq<Elem<T>>, s0: seq<Elem<T>>, s: seq<Elem<T>>,
      less: (T, T) -> bool, lo: nat, a: nat, m: nat, hi: nat)
    requires StrictWeakOrder(less) && Merging(orig, s0, s, less, lo, a, m, hi)
    ensures Merging(orig, s0, Merged(s, less, a, m, hi), less, lo, hi, hi, hi)
    decreases hi - a
  {
    hide SameOutside, SortedRange, SplitRange, Stable, StrictWeakOrder;
    if a == m || m == hi {
      MergeDone(orig, s0, s, less, lo, a, m, hi);
    } else if !less(s[m].val, s[a].val) {
      MergeAdvance(orig, s0, s, less, lo, a, m, hi);
      MergedIsMerge(orig, s0, s, less, lo, a + 1, m, hi);
    } else {
      MergeMove(orig, s0, s, less, lo, a, m, hi);
      MergedIsMerge(orig, s0, Moved(s, a, m, m + 1), less, lo, a + 1, m + 1, hi);
    }
  }

  // ----- passes

  lemma {:induction false} DescentsSplit<T>(s: seq<Elem<T>>, less: (T, T) -> bool, a: nat, b: nat, c: nat)
    requires a <= b <= c < |s|
    ensures Descents(s, less, a, c) == Descents(s, less, a, b) + Descents(s, less, b, c)
  {
    if b < c {
      DescentsSplit(s, less, a, b, c - 1);
    }
  }

  lemma {:induction false} DescentsSame<T>(s: seq<Elem<T>>, t: seq<Elem<T>>, less: (T, T) -> bool, a: nat, b: nat)
    requires a <= b < |s| == |t| && forall k :: a <= k <= b ==> s[k] == t[k]
    ensures Descents(s, less, a, b) == Descents(t, less, a, b)
  {
    if a < b {
      DescentsSame(s, t, less, a, b - 1);
    }
  }

  lemma {:induction false} NoDescents<T(!new)>(s: seq<Elem<T>>, less: (T, T) -> bool, a: nat, b: nat)
    requires StrictWeakOrder(less) && a <= b < |s|
    ensures Descents(s, less, a, b) == 0 <==> SortedRange(s, less, a, b + 1)
  {
    if a < b {
      NoDescents(s, less, a, b - 1);
      if Descents(s, less, a, b) == 0 {
        SortedExtend(s, less, a, b);
      }
    }
  }

  /** What is left of one pass of list_sort, and the runs it will still output,
      when the next run starts at index `p`. */
  ghost function Pass<T>(s: seq<Elem<T>>, less: (T, T) -> bool, p: nat): (r: (seq<Elem<T>>, nat))
    requires p < |s|
    ensures |r.0| == |s|
    decreases |s| - p
  {
    var end := |s| - 1;
    if p == end then (s, 0)
    else
      var mid := RunEnd(s, less, p, end);
      if mid == end then (s, 1)
      else
        var hi := RunEnd(s, less, mid, end);
        var (t, cnt) := Pass(Merged(s, less, p, mid, hi), less, hi);
        (t, cnt + 1)
  }

  /** Number of maximal nondecreasing runs among the interior elements. */
  ghost function Runs<T>(s: seq<Elem<T>>, less: (T, T) -> bool): nat
    requires |s| >= 2
  {
    if |s| == 2 then 0 else 1 + Descents(s, less, 1, |s| - 2)
  }

  /** What a pass from index `p` that turns `s` into `t` and outputs `cnt` runs
      achieves: it keeps everything before `p`, only permutes, keeps equivalent
      elements in order, outputs at most one run for every two it finds, and
      leaves no more runs than it outputs. */
  ghost predicate PassOutcome<T>(orig: seq<Elem<T>>, s: seq<Elem<T>>, t: seq<Elem<T>>, cnt: nat, less: (T, T) -> bool,
      p: nat) {
    && 0 < p < |s|
    && SameOutside(s, t, p, |s| - 1)
    && multiset(t) == multiset(s) && Stable(orig, t, less)
    && (if p < |s| - 1
        then Descents(t, less, p, |s| - 2) + 1 <= cnt && 2 * cnt <= Descents(s, less, p, |s| - 2) + 2
        else cnt == 0)
  }

  /** What merging the two runs that start at index `p` achieves. */
  lemma MergeRunPair<T(!new)>(orig: seq<Elem<T>>, s: seq<Elem<T>>, less: (T, T) -> bool, p: nat, mid: nat, hi: nat)
    requires StrictWeakOrder(less) && p < |s| - 1 && Stable(orig, s, less)
    requires mid == RunEnd(s, less, p, |s| - 1) && mid < |s| - 1 && hi == RunEnd(s, less, mid, |s| - 1)
    ensures var s1 := Merged(s, less, p, mid, hi);
            && SameOutside(s, s1, p, hi) && SortedRange(s1, less, p, hi)
            && multiset(s1) == multiset(s) && Stable(orig, s1, less)
  {
    hide Merged, Stable, StrictWeakOrder;
    assert SortedRange(s, less, p, mid) by {
      RunIsSorted(s, less, p, p, |s| - 1);
    }
    assert SortedRange(s, less, mid, hi) by {
      RunIsSorted(s, less, mid, mid, |s| - 1);
    }
    MergedIsMerge(orig, s, s, less, p, p, mid, hi);
  }

  /** A whole pass either sorts the list or leaves fewer runs, at most half rounded up. */
  lemma PassProgress<T(!new)>(orig: seq<Elem<T>>, s: seq<Elem<T>>, t: seq<Elem<T>>, cnt: nat, less: (T, T) -> bool)
    requires StrictWeakOrder(less) && |s| >= 2 && PassOutcome(orig, s, t, cnt, less, 1)
    ensures Runs(t, less) <= cnt <= (Runs(s, less) + 1) / 2
    ensures cnt <= 1 ==> SortedRange(t, less, 1, |t| - 1)
    ensures cnt > 1 ==> Runs(t, less) < Runs(s, less)
  {
    if |s| > 2 && cnt <= 1 {
      NoDescents(t, less, 1, |s| - 2);
    }
  }

  /** Merging one more pair of runs in front of a pass. */
  lemma PassPair<T(!new)>(orig: seq<Elem<T>>, s: seq<Elem<T>>, t: seq<Elem<T>>, cnt: nat,
                          less: (T, T) -> bool, p: nat, mid: nat, hi: nat)
    requires StrictWeakOrder(less) && 0 < p < |s| - 1 && Stable(orig, s, less)
    requires mid == RunEnd(s, less, p, |s| - 1) && mid < |s| - 1 && hi == RunEnd(s, less, mid, |s| - 1)
    requires PassOutcome(orig, Merged(s, less, p, mid, hi), t, cnt, less, hi)
    ensures PassOutcome(orig, s, t, cnt + 1, less, p)
  {
    hide Descents, Merged, RunEnd, SortedRange, Stable, StrictWeakOrder;
    var s1 := Merged(s, less, p, mid, hi);
    MergeRunPair(orig, s, less, p, mid, hi);
    PassPairCounts(s, s1, t, cnt, less, p, mid, hi);
  }

  lemma PassPairCounts<T(!new)>(s: seq<Elem<T>>, s1: seq<Elem<T>>, t: seq<Elem<T>>, cnt: nat,
                                less: (T, T) -> bool, p: nat, mid: nat, hi: nat)
    requires StrictWeakOrder(less) && 0 < p < |s| - 1 && |s| == |s1| == |t|
    requires mid == RunEnd(s, less, p, |s| - 1) && mid < |s| - 1 && hi == RunEnd(s, less, mid, |s| - 1)
    requires SameOutside(s, s1, p, hi) && SortedRange(s1, less, p, hi) && SameOutside(s1, t, hi, |s| - 1)
    requires if hi < |s| - 1
             then Descents(t, less, hi, |s| - 2) + 1 <= cnt && 2 * cnt <= Descents(s1, less, hi, |s| - 2) + 2
             else cnt == 0
    ensures Descents(t, less, p, |s| - 2) <= cnt && 2 * cnt <= Descents(s, less, p, |s| - 2)
  {
    hide Descents, SortedRange, StrictWeakOrder;
    RunEndIsDescent(s, less, p, |s| - 1);
    RunEndIsDescent(s, less, mid, |s| - 1);
    PassStepCounts(s, s1, t, cnt, less, p, mid, hi);
  }

  lemma PassStepCounts<T(!new)>(s: seq<Elem<T>>, s1: seq<Elem<T>>, t: seq<Elem<T>>, cnt: nat,
                                less: (T, T) -> bool, p: nat, mid: nat, hi: nat)
    requires StrictWeakOrder(less) && 0 < p < mid < hi < |s| == |s1| == |t|
    requires SortedRange(s1, less, p, hi)
    requires forall k :: p <= k < hi ==> t[k] == s1[k]
    requires forall k :: hi <= k < |s| ==> s1[k] == s[k]
    requires less(s[mid].val, s[mid - 1].val) && (hi < |s| - 1 ==> less(s[hi].val, s[hi - 1].val))
    requires hi < |s| - 1 ==>
               && Descents(t, less, hi, |s| - 2) + 1 <= cnt
               && 2 * cnt <= Descents(s1, less, hi, |s| - 2) + 2
    requires hi == |s| - 1 ==> cnt == 0
    ensures Descents(t, less, p, |s| - 2) <= cnt
    ensures 2 * cnt <= Descents(s, less, p, |s| - 2)
  {
    hide SortedRange, StrictWeakOrder;
    var last := |s| - 2;
    NoDescents(s1, less, p, hi - 1);
    DescentsSame(s1, t, less, p, hi - 1);
    DescentsSplit(s, less, p, mid, last);
    if hi <= last {
      DescentsSplit(t, less, p, hi - 1, last);
      DescentsSplit(t, less, hi - 1, hi, last);
      DescentsSplit(s, less, mid, hi, last);
      DescentsSame(s, s1, less, hi, last);
    }
  }

  lemma PassSingle<T(!new)>(orig: seq<Elem<T>>, s: seq<Elem<T>>, less: (T, T) -> bool, p: nat)
    requires StrictWeakOrder(less) && 0 < p < |s| - 1 && Stable(orig, s, less)
    requires RunEnd(s, less, p, |s| - 1) == |s| - 1
    ensures PassOutcome(orig, s, s, 1, less, p)
  {
    hide Descents, RunEnd, Stable, StrictWeakOrder;
    RunIsSorted(s, less, p, p, |s| - 1);
    NoDescents(s, less, p, |s| - 2);
  }

  /** Every pass has the outcome above. */
  lemma {:induction false} PassHalvesRuns<T(!new)>(orig: seq<Elem<T>>, s: seq<Elem<T>>, less: (T, T) -> bool, p: nat)
    requires StrictWeakOrder(less) && 0 < p < |s| && Stable(orig, s, less)
    ensures PassOutcome(orig, s, Pass(s, less, p).0, Pass(s, less, p).1, less, p)
    decreases |s| - p
  {
    hide Descents, Merged, RunEnd, SortedRange, Stable, StrictWeakOrder;
    var end := |s| - 1;
    if p < end {
      var mid := RunEnd(s, less, p, end);
      if mid == end {
        PassSingle(orig, s, less, p);
      } else {
        var hi := RunEnd(s, less, mid, end);
        var s1 := Merged(s, less, p, mid, hi);
        MergeRunPair(orig, s, less, p, mid, hi);
        PassHalvesRuns(orig, s1, less, hi);
        PassPair(orig, s, Pass(s1, less, hi).0, Pass(s1, less, hi).1, less, p, mid, hi);
      }
    }
  }

  /** The loop inside list_sort: one pass over the list, merging neighbouring runs. */
  method SortPass<T>(l: List<T>, less: (T, T) -> bool) returns (cnt: nat)
    requires l.Valid()
    modifies l`nodes, Members(l.nodes)
    ensures l.Valid() && Members(l.nodes) == old(Members(l.nodes))
    ensures (l.nodes, cnt) == Pass(old(l.nodes), less, 1)
  {
    hide Distinct, Merged, RunEnd;
    cnt := 0;
    var a0 := l.head.next;
    ghost var p := 1;
    while a0 != l.tail
      invariant l.Valid() && Members(l.nodes) == old(Members(l.nodes)) && |l.nodes| == old(|l.nodes|)
      invariant 0 < p < |l.nodes| && l.nodes[p] == a0
      invariant Pass(l.nodes, less, p).0 == Pass(old(l.nodes), less, 1).0
      invariant Pass(l.nodes, less, p).1 + cnt == Pass(old(l.nodes), less, 1).1
      decreases |l.nodes| - p
    {
      cnt := cnt + 1;
      ghost var end := |l.nodes| - 1;
      ghost var mid := RunEnd(l.nodes, less, p, end);
      var a1b0 := FindEndOfRun(l, a0, l.tail, less, p, end);
      if a1b0 == l.tail {
        assert mid == end by {
          DistinctPairs(l.nodes);
        }
        return;
      }
      ghost var hi := RunEnd(l.nodes, less, mid, end);
      var b1 := FindEndOfRun(l, a1b0, l.tail, less, mid, end);
      InplaceMerge(l, a0, a1b0, b1, less, p, mid, hi);
      a0, p := b1, hi;
    }
    assert p == |l.nodes| - 1 by {
      DistinctPairs(l.nodes);
    }
  }

  /** list_sort: for every strict weak order the loop ends, with the same
      elements, sorted, equivalent ones in their old order. */
  method Sort<T(!new)>(l: List<T>, less: (T, T) -> bool)
    requires l.Valid() && StrictWeakOrder(less)
    modifies l`nodes, Members(l.nodes)
    ensures l.Valid() && multiset(l.nodes) == old(multiset(l.nodes))
    ensures SortedRange(l.nodes, less, 1, |l.nodes| - 1)
    ensures Stable(old(l.nodes), l.nodes, less)
  {
    var cnt := 2;
    while cnt > 1
      invariant l.Valid() && Members(l.nodes) == old(Members(l.nodes))
      invariant multiset(l.nodes) == old(multiset(l.nodes)) && Stable(old(l.nodes), l.nodes, less)
      invariant cnt <= 1 ==> SortedRange(l.nodes, less, 1, |l.nodes| - 1)
      decreases cnt > 1, Runs(l.nodes, less)
    {
      ghost var s := l.nodes;
      PassHalvesRuns(old(l.nodes), s, less, 1);
      cnt := SortPass(l, less);
      PassProgress(old(l.nodes), s, l.nodes, cnt, less);
    }
  }
}
