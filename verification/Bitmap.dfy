/** The bitmap of lib/kernel/bitmap.c: an array of 32-bit words seen from outside as
    an array of bits, with a first-fit search for a group of equal bits. */
module Bitmap {
  import opened Bits
  import opened Wrappers

  const ELEM_BITS: nat := 32

  /** The bits that an array of words stands for. */
  ghost function BitsOf(words: seq<nat>, cnt: nat): (v: seq<bool>)
    requires cnt <= ELEM_BITS * |words|
  {
    seq(cnt, i requires 0 <= i < cnt => Bit(words[i / ELEM_BITS], i % ELEM_BITS))
  }

  /** The `cnt` bits of `v` from index `i` exist and all equal `value`. */
  ghost predicate Group(v: seq<bool>, i: nat, cnt: nat, value: bool) {
    i + cnt <= |v| && forall k :: i <= k < i + cnt ==> v[k] == value
  }

  /** No such group starts at [lo, hi). */
  ghost predicate NoGroup(v: seq<bool>, lo: nat, hi: nat, cnt: nat, value: bool) {
    forall j :: lo <= j < hi ==> !Group(v, j, cnt, value)
  }

  /** `v` with the `cnt` bits from index `start` set to `value`. */
  ghost function Filled(v: seq<bool>, start: nat, cnt: nat, value: bool): (r: seq<bool>)
    requires start + cnt <= |v|
    ensures |r| == |v| && Group(r, start, cnt, value)
  {
    seq(|v|, i requires 0 <= i < |v| => if start <= i < start + cnt then value else v[i])
  }

  /** Replacing one word so that only bit `j` of it changes changes only that bit of the map. */
  lemma OneBitChanged(words: seq<nat>, cnt: nat, idx: nat, w: nat, value: bool)
    requires idx < cnt <= ELEM_BITS * |words|
    requires forall k :: 0 <= k < ELEM_BITS ==>
               (Bit(w, k) <==> if k == idx % ELEM_BITS then value else Bit(words[idx / ELEM_BITS], k))
    ensures BitsOf(words[idx / ELEM_BITS := w], cnt) == BitsOf(words, cnt)[idx := value]
  {
    var words', e := words[idx / ELEM_BITS := w], idx / ELEM_BITS;
    forall i | 0 <= i < cnt ensures BitsOf(words', cnt)[i] == BitsOf(words, cnt)[idx := value][i] {
      var k := i % ELEM_BITS;
      assert i / ELEM_BITS == e && k == idx % ELEM_BITS ==> i == idx;
    }
  }

  class Bitmap {
    const bitCnt: nat
    const bits: array<nat>

    ghost predicate Valid()
      reads bits
    {
      && bitCnt <= ELEM_BITS * bits.Length
      && forall i :: 0 <= i < bits.Length ==> bits[i] < Pow2(ELEM_BITS)
    }

    ghost function View(): seq<bool>
      requires Valid()
      reads bits
    {
      BitsOf(bits[..], bitCnt)
    }

    /** bitmap_create: `cnt` bits, all false. */
    constructor (cnt: nat)
      ensures Valid() && fresh(bits) && bitCnt == cnt
      ensures Group(View(), 0, cnt, false)
    {
      bitCnt := cnt;
      bits := new nat[(cnt + ELEM_BITS - 1) / ELEM_BITS](_ => 0);
      new;
      forall k | 0 <= k < cnt ensures !BitsOf(bits[..], cnt)[k] {
        BitZero(k % ELEM_BITS);
      }
    }

    /** bitmap_test. */
    method Test(idx: nat) returns (b: bool)
      requires Valid() && idx < bitCnt
      ensures b == View()[idx]
    {
      MaskTest(bits[idx / ELEM_BITS], idx % ELEM_BITS);
      b := And(bits[idx / ELEM_BITS], Pow2(idx % ELEM_BITS)) != 0;
    }

    /** bitmap_mark: `|=` with the bit's mask. */
    method Mark(idx: nat)
      requires Valid() && idx < bitCnt
      modifies bits
      ensures Valid() && View() == old(View())[idx := true]
    {
      var e, j := idx / ELEM_BITS, idx % ELEM_BITS;
      var w := Or(bits[e], Pow2(j));
      forall k | 0 <= k < ELEM_BITS ensures Bit(w, k) <==> k == j || Bit(bits[e], k) {
        BitOr(bits[e], Pow2(j), k);
        BitPow2(j, k);
      }
      MaskFits(j);
      OrFits(bits[e], Pow2(j), ELEM_BITS);
      OneBitChanged(bits[..], bitCnt, idx, w, true);
      ghost var words := bits[..];
      bits[e] := w;
      assert bits[..] == words[e := w];
    }

    /** bitmap_reset: `&= ~` with the bit's mask. */
    method Reset(idx: nat)
      requires Valid() && idx < bitCnt
      modifies bits
      ensures Valid() && View() == old(View())[idx := false]
    {
      var e, j := idx / ELEM_BITS, idx % ELEM_BITS;
      MaskFits(j);
      var w := And(bits[e], Not(Pow2(j), ELEM_BITS));
      forall k | 0 <= k < ELEM_BITS ensures Bit(w, k) <==> k != j && Bit(bits[e], k) {
        BitAnd(bits[e], Not(Pow2(j), ELEM_BITS), k);
        BitNot(Pow2(j), ELEM_BITS, k);
        BitPow2(j, k);
      }
      OneBitChanged(bits[..], bitCnt, idx, w, false);
      ghost var words := bits[..];
      bits[e] := w;
      assert bits[..] == words[e := w];
    }

    /** bitmap_set_multiple. */
    method SetMultiple(start: nat, cnt: nat, value: bool)
      requires Valid() && start + cnt <= bitCnt
      modifies bits
      ensures Valid() && View() == Filled(old(View()), start, cnt, value)
    {
      for i := 0 to cnt
        invariant Valid() && View() == Filled(old(View()), start, i, value)
      {
        if value {
          Mark(start + i);
        } else {
          Reset(start + i);
        }
      }
    }

    /** bitmap_contains. */
    method Contains(start: nat, cnt: nat, value: bool) returns (b: bool)
      requires Valid() && start + cnt <= bitCnt
      ensures b <==> !Group(View(), start, cnt, !value)
    {
      for i := 0 to cnt
        invariant Group(View(), start, i, !value)
      {
        var t := Test(start + i);
        if t == value {
          return true;
        }
      }
      return false;
    }

    /** bitmap_scan: the first group of `cnt` bits equal to `value` at or after `start`. */
    method Scan(start: nat, cnt: nat, value: bool) returns (r: Option<nat>)
      requires Valid() && start <= bitCnt
      ensures r.Some? ==> start <= r.value && Group(View(), r.value, cnt, value)
      ensures NoGroup(View(), start, if r.Some? then r.value else bitCnt + 1, cnt, value)
    {
      if cnt <= bitCnt {
        var last := bitCnt - cnt;
        var i := start;
        while i <= last
          invariant start <= i
          invariant NoGroup(View(), start, i, cnt, value)
          decreases last + 1 - i
        {
          var c := Contains(i, cnt, !value);
          if !c {
            return Some(i);
          }
          i := i + 1;
        }
      }
      return None;
    }

    /** bitmap_scan_and_flip: the same search, then the group is flipped. */
    method ScanAndFlip(start: nat, cnt: nat, value: bool) returns (r: Option<nat>)
      requires Valid() && start <= bitCnt
      modifies bits
      ensures Valid()
      ensures r.Some? ==> start <= r.value && Group(old(View()), r.value, cnt, value)
      ensures NoGroup(old(View()), start, if r.Some? then r.value else bitCnt + 1, cnt, value)
      ensures View() == if r.Some? then Filled(old(View()), r.value, cnt, !value) else old(View())
    {
      r := Scan(start, cnt, value);
      if r.Some? {
        SetMultiple(r.value, cnt, !value);
      }
    }
  }

  lemma MaskFits(j: nat)
    requires j < ELEM_BITS
    ensures Pow2(j) < Pow2(ELEM_BITS)
  {
    Pow2Mono(j + 1, ELEM_BITS);
  }
}
