/** The kernel's intrusive doubly linked list (lib/kernel/list.c): a head and a
    tail header element with the interior elements linked between them, and the
    operations that rewire those links. */
module IntrusiveList {
  import opened Sequences

  /** A list element.  `val` is what `list_entry` would recover from it. */
  class Elem<T> {
    const val: T
    var prev: Elem?<T>
    var next: Elem?<T>

    constructor (v: T)
      ensures val == v && prev == null && next == null
    {
      val := v;
      prev, next := null, null;
    }
  }

  lemma CutDistinct<A>(n: seq<A>, i: nat, j: nat)
    requires i <= j <= |n| && Distinct(n)
    ensures Distinct(CutOut(n, i, j)) && Distinct(n[i..j]) && Apart(n[i..j], CutOut(n, i, j))
  {
    hide Distinct;
    DistinctPairs(n);
    DistinctPairs(CutOut(n, i, j));
    DistinctPairs(n[i..j]);
  }

  lemma PastedDistinct<A>(n: seq<A>, chain: seq<A>, b: nat)
    requires b <= |n| && Distinct(n) && Distinct(chain) && Apart(chain, n)
    ensures Distinct(Pasted(n, chain, b))
  {
    hide Distinct;
    DistinctPairs(n);
    DistinctPairs(chain);
    DistinctPairs(Pasted(n, chain, b));
  }

  ghost predicate Apart<A>(s: seq<A>, t: seq<A>) {
    forall i, j :: 0 <= i < |s| && 0 <= j < |t| ==> s[i] != t[j]
  }

  ghost function Members<A>(s: seq<A>): set<A> {
    set x | x in s
  }

  /** Neighbours in `c` point at each other. */
  ghost predicate Linked<T>(c: seq<Elem<T>>)
    reads c
  {
    && (forall i {:trigger c[i].next} :: 0 <= i < |c| - 1 ==> c[i].next == c[i + 1])
    && (forall i {:trigger c[i].prev} :: 0 < i < |c| ==> c[i].prev == c[i - 1])
  }

  lemma LinkedConcat<T>(s: seq<Elem<T>>, t: seq<Elem<T>>)
    requires s != [] && t != [] && Linked(s) && Linked(t)
    requires s[|s| - 1].next == t[0] && t[0].prev == s[|s| - 1]
    ensures Linked(s + t)
  {
  }

  lemma LinkedParts<T>(c: seq<Elem<T>>, i: nat, j: nat)
    requires 0 < i < j < |c| && Linked(c)
    ensures Linked(c[..i]) && Linked(c[i..j]) && Linked(c[j..])
    ensures c[i].prev == c[i - 1] && c[j - 1].next == c[j]
  {
  }

  class List<T> {
    const head: Elem<T>
    const tail: Elem<T>
    /** Every element of the list in order, both headers included. */
    ghost var nodes: seq<Elem<T>>

    ghost predicate Valid()
      reads this, nodes
    {
      && |nodes| >= 2
      && nodes[0] == head && nodes[|nodes| - 1] == tail
      && head.prev == null && tail.next == null
      && Linked(nodes)
      && Distinct(nodes)
    }

    /** The interior elements, which is what clients see. */
    ghost function Items(): seq<Elem<T>>
      requires |nodes| >= 2
      reads this
    {
      nodes[1..|nodes| - 1]
    }

    constructor (v: T)
      ensures Valid() && Items() == [] && fresh(Members(nodes))
    {
      var h := new Elem<T>(v);
      var t := new Elem<T>(v);
      h.next := t;
      t.prev := h;
      head, tail := h, t;
      nodes := [h, t];
    }

    /** list_insert: puts `e` just before `before`, the element at index `k`, by the same four
        assignments as list_splice with a chain of one element. */
    method Insert(before: Elem<T>, e: Elem<T>, ghost k: nat)
      requires Valid() && 0 < k < |nodes| && nodes[k] == before
      requires e !in nodes
      modifies this`nodes, Members(nodes), e
      ensures Valid()
      ensures nodes == Pasted(old(nodes), [e], k)
    {
      assert Distinct([e]) by { DistinctPairs([e]); }
      Paste(before, e, e, [e], k);
    }

    /** list_remove: unlinks the interior element at index `k`.  Its own links
        are left as they were, so it still knows where it was. */
    method Remove(e: Elem<T>, ghost k: nat) returns (after: Elem<T>)
      requires Valid() && 0 < k < |nodes| - 1 && nodes[k] == e
      modifies this`nodes, Members(nodes)
      ensures Valid()
      ensures nodes == CutOut(old(nodes), k, k + 1)
      ensures after == old(nodes)[k + 1]
      ensures e.prev == old(e.prev) && e.next == old(e.next)
    {
      ghost var left, right := nodes[..k], nodes[k + 1..];
      CutDistinct(nodes, k, k + 1);
      assert Linked(left) && Linked(right);
      assert e !in left + right && e.prev == left[k - 1] && e.next == right[0];
      Join(e.prev, e.next, left, right);
      nodes := left + right;
      return e.next;
    }

    /** The element before the one at index `k`, as list_prev returns it. */
    method Prev(e: Elem<T>, ghost k: nat) returns (p: Elem<T>)
      requires Valid() && 0 < k < |nodes| && nodes[k] == e
      ensures p == nodes[k - 1]
    {
      p := e.prev;
    }

    /** The element after the one at index `k`, as list_next returns it. */
    method Next(e: Elem<T>, ghost k: nat) returns (n: Elem<T>)
      requires Valid() && 0 <= k < |nodes| - 1 && nodes[k] == e
      ensures n == nodes[k + 1]
    {
      n := e.next;
    }

    /** First half of list_splice: unlinks the elements at [i, j) as one chain. */
    method Cut(first: Elem<T>, back: Elem<T>, ghost i: nat, ghost j: nat) returns (ghost chain: seq<Elem<T>>)
      requires Valid() && 0 < i < j < |nodes|
      requires nodes[i] == first && nodes[j - 1] == back
      modifies this`nodes, first.prev, back.next
      ensures Valid() && nodes == CutOut(old(nodes), i, j)
      ensures chain == old(nodes[i..j]) && IsChain(chain, first, back) && Apart(chain, nodes)
    {
      hide Distinct;
      ghost var left, right := nodes[..i], nodes[j..];
      chain := nodes[i..j];
      assert nodes[j] != head && nodes[i - 1] != tail by { DistinctPairs(nodes); }
      CutDistinct(nodes, i, j);
      LinkedParts(nodes, i, j);
      var x, y := first.prev, back.next;
      assert x == (left + right)[i - 1] && y == (left + right)[i];
      assert x !in chain && y !in chain;
      assert IsChain(chain, first, back);
      Join(x, y, left, right);
      assert forall k :: 0 <= k < |chain| ==> chain[k] != x && chain[k] != y;
      assert Linked(chain);
      nodes := left + right;
    }

    /** Second half of list_splice: links a chain in just before index `b`. */
    method Paste(before: Elem<T>, first: Elem<T>, back: Elem<T>, ghost chain: seq<Elem<T>>, ghost b: nat)
      requires Valid() && 0 < b < |nodes| && nodes[b] == before
      requires IsChain(chain, first, back) && Apart(chain, nodes)
      modifies this`nodes, before, before.prev, first, back
      ensures Valid() && nodes == Pasted(old(nodes), chain, b)
    {
      hide Distinct;
      DistinctPairs(nodes);
      DistinctPairs(chain);
      PastedDistinct(nodes, chain, b);
      first.prev := before.prev;
      back.next := before;
      before.prev.next := first;
      before.prev := back;
      assert Linked(nodes[..b]) && Linked(chain) && Linked(nodes[b..]);
      LinkedConcat(nodes[..b], chain);
      LinkedConcat(nodes[..b] + chain, nodes[b..]);
      nodes := nodes[..b] + chain + nodes[b..];
    }
  }

  /** The distinct elements of `c`, from `first` to `back`, are linked to one another in order. */
  ghost predicate IsChain<T>(c: seq<Elem<T>>, first: Elem<T>, back: Elem<T>)
    reads c
  {
    && c != [] && c[0] == first && c[|c| - 1] == back
    && Linked(c)
    && Distinct(c)
  }

  /** The two assignments by which list_remove and list_splice close a gap: the last element of
      one chain and the first of another are linked to each other. */
  method Join<T>(x: Elem<T>, y: Elem<T>, ghost left: seq<Elem<T>>, ghost right: seq<Elem<T>>)
    requires left != [] && right != [] && left[|left| - 1] == x && right[0] == y
    requires Linked(left) && Linked(right) && Distinct(left + right)
    modifies x`next, y`prev
    ensures Linked(left + right) && x.next == y && y.prev == x
  {
    DistinctPairs(left + right);
    assert forall k :: 0 <= k < |left| ==> left[k] == (left + right)[k];
    assert forall k :: 0 <= k < |right| ==> right[k] == (left + right)[|left| + k];
    x.next := y;
    y.prev := x;
    LinkedConcat(left, right);
  }

  ghost function CutOut<A>(n: seq<A>, i: nat, j: nat): seq<A>
    requires i <= j <= |n|
  {
    n[..i] + n[j..]
  }

  ghost function Pasted<A>(n: seq<A>, chain: seq<A>, b: nat): seq<A>
    requires b <= |n|
  {
    n[..b] + chain + n[b..]
  }

  /** Where the element at index `k` came from when [i, j) was moved in front of `b`. */
  ghost function Origin(b: nat, i: nat, j: nat, k: nat): int {
    if b < i then
      if b <= k < b + (j - i) then k - b + i else if b + (j - i) <= k < j then k - (j - i) else k
    else
      if i <= k < i + (b - j) then k + (j - i) else if i + (b - j) <= k < b then k - (b - j) else k
  }

  /** `n` with the elements at [i, j) moved in front of the one at index `b`. */
  ghost function Moved<A>(n: seq<A>, b: nat, i: nat, j: nat): seq<A>
    requires i <= j <= |n| && b <= |n| && (b < i || j <= b)
  {
    seq(|n|, k requires 0 <= k < |n| => n[Origin(b, i, j, k)])
  }

  lemma MovedIsCutThenPaste<A>(n: seq<A>, b: nat, i: nat, j: nat)
    requires i <= j <= |n| && b <= |n| && (b < i || j <= b)
    ensures Moved(n, b, i, j) == Pasted(CutOut(n, i, j), n[i..j], AfterCut(b, i, j))
  {
  }

  /** Where index `b` ends up when [i, j) is cut out. */
  ghost function AfterCut(b: nat, i: nat, j: nat): nat
    requires i <= j && (b < i || j <= b)
  {
    if b < i then b else b - (j - i)
  }

  lemma CutParts<A>(n: seq<A>, b: nat, i: nat, j: nat)
    requires i <= j <= |n| && b < |n| && (b < i || j <= b)
    ensures CutOut(n, i, j)[AfterCut(b, i, j)] == n[b]
    ensures Members(CutOut(n, i, j)) + Members(n[i..j]) == Members(n)
  {
    assert n == n[..i] + n[i..j] + n[j..];
  }

  lemma PastedMembers<A>(n: seq<A>, chain: seq<A>, b: nat)
    requires b <= |n|
    ensures Members(Pasted(n, chain, b)) == Members(n) + Members(chain)
  {
    assert n == n[..b] + n[b..];
  }

  /** list_splice within one list: moves the elements at [i, j) in front of the
      element at index `b`, which lies outside that range. */
  method Splice<T>(l: List<T>, before: Elem<T>, first: Elem<T>, last: Elem<T>, ghost b: nat, ghost i: nat, ghost j: nat)
    requires l.Valid() && 0 < i <= j < |l.nodes| && l.nodes[i] == first && l.nodes[j] == last
    requires 0 < b < |l.nodes| && l.nodes[b] == before && (b < i || j <= b)
    modifies l`nodes, Members(l.nodes)
    ensures l.Valid() && l.nodes == Moved(old(l.nodes), b, i, j)
    ensures Members(l.nodes) == old(Members(l.nodes))
  {
    ghost var s := l.nodes;
    CutParts(s, b, i, j);
    PastedMembers(CutOut(s, i, j), s[i..j], AfterCut(b, i, j));
    MovedIsCutThenPaste(s, b, i, j);
    if first == last {
      DistinctPairs(s);
      assert i == j && CutOut(s, i, j) == s;
    } else {
      var back := l.Prev(last, j);
      ghost var chain := l.Cut(first, back, i, j);
      l.Paste(before, first, back, chain, AfterCut(b, i, j));
    }
  }

  /** list_splice between two lists: the elements at [i, j) of `from` move in front of the
      element at index `b` of `into`. */
  method SpliceAcross<T>(into: List<T>, from: List<T>, before: Elem<T>, first: Elem<T>, last: Elem<T>,
      ghost b: nat, ghost i: nat, ghost j: nat)
    requires into.Valid() && from.Valid() && into != from && Members(into.nodes) !! Members(from.nodes)
    requires 0 < i <= j < |from.nodes| && from.nodes[i] == first && from.nodes[j] == last
    requires 0 < b < |into.nodes| && into.nodes[b] == before
    modifies into`nodes, from`nodes, Members(into.nodes), Members(from.nodes)
    ensures into.Valid() && from.Valid() && Members(into.nodes) !! Members(from.nodes)
    ensures into.nodes == Pasted(old(into.nodes), old(from.nodes[i..j]), b)
    ensures from.nodes == CutOut(old(from.nodes), i, j)
  {
    hide Distinct;
    if first == last {
      assert i == j by {
        DistinctPairs(from.nodes);
      }
    } else {
      var back := from.Prev(last, j);
      assert first.prev == from.nodes[i - 1] && back.next == from.nodes[j];
      assert first.prev !in into.nodes && back.next !in into.nodes by {
        OutsideOf(from.nodes, into.nodes);
      }
      ghost var chain := from.Cut(first, back, i, j);
      assert before.prev == into.nodes[b - 1];
      PiecesApart(into.nodes, old(from.nodes), i, j, b);
      into.Paste(before, first, back, chain, b);
    }
  }

  lemma OutsideOf<A>(s: seq<A>, t: seq<A>)
    requires Members(s) !! Members(t)
    ensures forall k :: 0 <= k < |s| ==> s[k] !in t
  {
    forall k | 0 <= k < |s| ensures s[k] !in t {
      assert s[k] in Members(s);
    }
  }

  lemma PiecesApart<A>(into: seq<A>, from: seq<A>, i: nat, j: nat, b: nat)
    requires i < j <= |from| && 0 < b < |into| && Distinct(from) && Members(into) !! Members(from)
    ensures var chain, left := from[i..j], CutOut(from, i, j);
      && Apart(chain, into) && into[b] !in left && into[b - 1] !in left && chain[0] !in left
        && chain[|chain| - 1] !in left
      && Members(Pasted(into, chain, b)) !! Members(left)
  {
    var chain, left := from[i..j], CutOut(from, i, j);
    OutsideOf(into, from);
    OutsideOf(from, into);
    CutDistinct(from, i, j);
    PastedMembers(into, chain, b);
    assert forall x :: x in left ==> x in from;
    assert forall x :: x in chain ==> x in from && x !in left;
  }
}
