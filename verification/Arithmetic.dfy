/** 64-bit division from a 64-by-32-bit divide (lib/arithmetic.c).  Machine words
    are naturals below the bound of their type and every truncation is written out. */
module Arithmetic {
  import opened Bits
  import opened Machine
  import opened Products

  lemma Pow2Values()
    ensures Pow2(1) == 2 && Pow2(2) == 4 && Pow2(4) == 16 && Pow2(8) == 0x100 && Pow2(16) == 0x1_0000
    ensures Pow2(24) == 0x100_0000 && Pow2(28) == 0x1000_0000 && Pow2(30) == 0x4000_0000
    ensures Pow2(31) == 0x8000_0000 && Pow2(32) == B32
  {
    assert Pow2(4) == 16;
    assert Pow2(8) == 16 * 16 by { Pow2Add(4, 4); }
    assert Pow2(16) == 256 * 256 by { Pow2Add(8, 8); }
    assert Pow2(24) == Pow2(16) * Pow2(8) by { Pow2Add(16, 8); }
    assert Pow2(28) == Pow2(24) * Pow2(4) by { Pow2Add(24, 4); }
    assert Pow2(32) == Pow2(28) * Pow2(4) by { Pow2Add(28, 4); }
  }

  // ----- the machine operations

  /** The x86 `divl` instruction, which traps unless the quotient fits in 32 bits. */
  function Divl(n: nat, d: nat): (q: nat)
    requires n < B64 && 0 < d < B32 && n < B32 * d
    ensures q < B32 && IsQuotient(n, d, q)
  {
    QuotientIsDiv(n, d);
    QuotientLeast(n, d, n / d, B32);
    n / d
  }

  /** `x` is `x0` shifted left by `n` bits with nothing lost, and its top `free` bits are not all zero. */
  ghost predicate Shifting(x0: nat, n: nat, x: nat, free: nat) {
    n + free <= 32 && x == x0 * Pow2(n) && Pow2(32 - free) <= x < B32
  }

  lemma SmallMod(y: nat)
    ensures y < B32 ==> y % B32 == y
    ensures y < B64 ==> y % B64 == y
  {
  }

  lemma ShiftKeeps(x0: nat, n: nat, x: nat, k: nat, p: nat, limit: nat, y: nat)
    requires Shifting(x0, n, x, 2 * k) && p == Pow2(k) && limit == Pow2(32 - k)
    requires x < limit && y == x * p
    ensures Shifting(x0, n + k, y, k)
  {
    assert p * limit == B32 && Pow2(32 - 2 * k) * p == limit by {
      Pow2Add(k, 32 - k);
      Pow2Add(32 - 2 * k, k);
      Pow2Values();
    }
    assert y == x0 * Pow2(n + k) by {
      Pow2Add(n, k);
      MulAssoc(x0, Pow2(n), p);
    }
    assert limit <= y by {
      MulMono(Pow2(32 - 2 * k), x, p);
    }
    assert y < B32 by {
      MulMono(x, limit - 1, p);
      MulDist(limit - 1, 1, p);
    }
  }

  method ShiftLeft(ghost x0: nat, ghost n: nat, x: nat, ghost k: nat, p: nat, ghost limit: nat) returns (x': nat)
    requires Shifting(x0, n, x, 2 * k) && p == Pow2(k) && limit == Pow2(32 - k) && x < limit
    ensures Shifting(x0, n + k, x', k)
  {
    x' := x * p;
    ShiftKeeps(x0, n, x, k, p, limit, x');
    SmallMod(x');
    x' := x' % B32;
  }

  /** One of the five conditional shifts of nlz: by `k` bits, `p` being 2^k, when
      `x` is below `limit`, that is, when its top `k` bits are zero. */
  method ShiftIfBelow(ghost x0: nat, n: nat, x: nat, k: nat, p: nat, limit: nat) returns (n': nat, x': nat)
    requires Shifting(x0, n, x, 2 * k) && p == Pow2(k) && limit == Pow2(32 - k)
    ensures Shifting(x0, n', x', k)
  {
    if x < limit {
      x' := ShiftLeft(x0, n, x, k, p, limit);
      n' := n + k;
    } else {
      n', x' := n, x;
    }
  }

  /** Number of leading zero bits of a nonzero 32-bit word. */
  method Nlz(x0: nat) returns (n: nat)
    requires 0 < x0 < B32
    ensures n <= 31 && 0x8000_0000 <= x0 * Pow2(n) < B32
  {
    Pow2Values();
    var x := x0;
    n := 0;
    n, x := ShiftIfBelow(x0, n, x, 16, 0x1_0000, 0x1_0000);
    n, x := ShiftIfBelow(x0, n, x, 8, 0x100, 0x100_0000);
    n, x := ShiftIfBelow(x0, n, x, 4, 16, 0x1000_0000);
    n, x := ShiftIfBelow(x0, n, x, 2, 4, 0x4000_0000);
    n, x := ShiftIfBelow(x0, n, x, 1, 2, 0x8000_0000);
  }

  /** The identity behind the one-word case of udiv64. */
  lemma ShortDivision(n1: nat, n0: nat, d: nat, hi: nat, rem: nat, lo: nat)
    requires 0 < d < B32 && n0 < B32
    requires n1 == hi * d + rem && rem < d && IsQuotient(B32 * rem + n0, d, lo)
    ensures IsQuotient(B32 * n1 + n0, d, lo + B32 * hi)
  {
    MulAssoc(B32, hi, d);
    MulDist(lo, B32 * hi, d);
    MulDist(lo + 1, B32 * hi, d);
  }

  /** Shifting the divisor left by its leading zeros loses nothing and leaves a
      top word of at least 2^31. */
  lemma Normalized(d: nat, d1: nat, p: nat, r: nat)
    requires d1 == d / B32 && p > 0 && r > 0 && p * r == B32 && 0x8000_0000 <= d1 * p < B32
    ensures 0x8000_0000 * B32 <= d * p < B64
  {
    assert d1 < r by {
      if r <= d1 {
        MulMono(r, d1, p);
        assert false;
      }
    }
    assert (d1 + 1) * p <= B32 by {
      MulMono(d1 + 1, r, p);
    }
    assert d * p < B64 by {
      MulMono(d + 1, (d1 + 1) * B32, p);
      MulDist(d, 1, p);
      MulAssoc(d1 + 1, B32, p);
    }
    assert 0x8000_0000 * B32 <= d * p by {
      MulMono(d1 * B32, d, p);
      MulAssoc(d1, B32, p);
    }
  }

  /** The top word of the shifted divisor is the divisor without its low bits. */
  lemma TopWord(d: nat, p: nat, r: nat, v: nat)
    requires p > 0 && p * r == B32 && v * B32 <= d * p < (v + 1) * B32
    ensures IsQuotient(d, r, v)
  {
    assert v * r <= d by {
      if d < v * r {
        MulMono(d + 1, v * r, p);
        MulDist(d, 1, p);
        MulAssoc(v, r, p);
        assert false;
      }
    }
    assert d < (v + 1) * r by {
      if (v + 1) * r <= d {
        MulMono((v + 1) * r, d, p);
        MulAssoc(v + 1, r, p);
        assert false;
      }
    }
  }

  /** Dividing half of n by the divisor's top word gives, after dropping the
      shifted-in bits, the quotient k or one more.  `e` is half of `r`. */
  lemma EstimateAtMostOneTooBig(n: nat, d: nat, e: nat, v: nat, u: nat, q: nat, k: nat)
    requires n < B64 && (e == 1 || e == 2 || e >= 4) && 0x8000_0000 <= v
    requires IsQuotient(d, 2 * e, v) && IsQuotient(n / 2, v, u) && IsQuotient(u, e, q) && IsQuotient(n, d, k)
    ensures k <= q <= k + 1
  {
    var ve := v * e;
    var t := d - 2 * ve;
    assert v * (2 * e) == 2 * ve && (v + 1) * (2 * e) == 2 * ve + 2 * e by {
      MulAssoc(v, 2, e);
      MulDist(v, 1, 2 * e);
    }
    QuotientNested(n / 2, v, e, u, q);
    EstimateLow(n, d, ve, t, q, k);
    if q >= k + 2 {
      QuotientLeast(n / 2, ve, q, k + 2);
      EstimateHigh(n, d, ve, t, k);
      RemainderTooSmall(n, d, e, v, ve, k, t);
      assert false;
    }
  }

  lemma EstimateLow(n: nat, d: nat, ve: nat, t: nat, q: nat, k: nat)
    requires d == 2 * ve + t && IsQuotient(n / 2, ve, q) && IsQuotient(n, d, k)
    ensures k <= q
  {
    assert k * d == 2 * (k * ve) + k * t by {
      MulDist(2 * ve, t, k);
    }
    assert k * t >= 0 by {
      MulMono(0, k, t);
    }
    QuotientLeast(n / 2, ve, q, k);
  }

  lemma EstimateHigh(n: nat, d: nat, ve: nat, t: nat, k: nat)
    requires d == 2 * ve + t && (k + 2) * ve <= n / 2 && n < (k + 1) * d
    ensures d < (k + 2) * t
  {
    assert (k + 2) * d == 2 * ((k + 2) * ve) + (k + 2) * t by {
      MulDist(2 * ve, t, k + 2);
    }
    MulDist(k + 1, 1, d);
  }

  lemma RemainderTooSmall(n: nat, d: nat, e: nat, v: nat, ve: nat, k: nat, t: nat)
    requires n < B64 && (e == 1 || e == 2 || e >= 4) && 0x8000_0000 <= v
    requires ve == v * e && d == 2 * ve + t && t < 2 * e && k * d <= n
    ensures (k + 2) * t <= d
  {
    assert ve >= 0x8000_0000 * e by {
      MulMono(0x8000_0000, v, e);
    }
    var ke := k * e;
    assert ke < B32 by {
      MulMono(B32 * e, d, k);
      MulAssoc(B32, e, k);
    }
    if e >= 4 {
      assert (k + 2) * t <= 2 * ke + 4 * e by {
        MulMono(t, 2 * e, k + 2);
        MulAssoc(2, k + 2, e);
        MulDist(k, 2, e);
      }
    } else if e == 2 {
      assert (k + 2) * t <= 3 * k + 6 by { MulMono(t, 3, k + 2); }
      assert ke == 2 * k;
    } else {
      assert (k + 2) * t <= k + 2 by { MulMono(t, 1, k + 2); }
      assert ke == k;
    }
  }

  /** The final correction of udiv64 picks the right one of two candidates. */
  lemma Correction(n: nat, d: nat, q: nat, k: nat)
    requires d > 0 && IsQuotient(n, d, k) && k <= q <= k + 1 && q > 0
    ensures (q - 1) * d <= n
    ensures n - (q - 1) * d < d <==> q == k + 1
  {
    if q == k {
      MulDist(k - 1, 1, d);
    } else {
      MulDist(k, 1, d);
    }
  }

  /** udiv64: the exact quotient, with no divl trap on the way. */
  method Udiv64(n: nat, d: nat) returns (q: nat)
    requires n < B64 && 0 < d < B64
    ensures q == n / d
  {
    QuotientIsDiv(n, d);
    if d / B32 == 0 {
      q := UdivShort(n, d);
    } else if n < d {
      q := 0;
    } else {
      q := UdivLong(n, d);
    }
    QuotientUnique(n, d, q, n / d);
  }

  /** 32-bit unsigned `/` and `%`. */
  method DivMod(n: nat, d: nat) returns (quot: nat, rem: nat)
    requires d > 0
    ensures n == quot * d + rem && rem < d
  {
    quot, rem := n / d, n % d;
  }

  /** The case of a divisor of at most 32 bits. */
  method UdivShort(n: nat, d: nat) returns (q: nat)
    requires n < B64 && 0 < d < B32
    ensures IsQuotient(n, d, q)
  {
    var n1, n0 := n / B32, n % B32;
    var hi, rem := DivMod(n1, d);
    var lo := Divl(B32 * rem + n0, d);
    ShortDivision(n1, n0, d, hi, rem, lo);
    q := lo + B32 * hi;
    ShortFits(n, d, q);
    SmallMod(q);
    q := q % B64;
  }

  lemma ShortFits(n: nat, d: nat, q: nat)
    requires n < B64 && d > 0 && IsQuotient(n, d, q)
    ensures q < B64
  {
    QuotientLeast(n, d, q, B64);
    MulMono(1, d, B64);
  }

  /** The case of a divisor of more than 32 bits. */
  method UdivLong(n: nat, d: nat) returns (q: nat)
    requires B32 <= d <= n < B64
    ensures IsQuotient(n, d, q)
  {
    var s := Nlz(d / B32);
    var v := TopOfShifted(d, s);
    var u := Divl(n / 2, v);
    var est := ShiftRight(u, 31 - s);
    ghost var k := n / d;
    QuotientIsDiv(n, d);
    EstimateAtMostOneTooBig(n, d, Pow2(31 - s), v, u, est, k);
    q := Corrected(n, d, est, k);
  }

  /** `(d << s) >> 32` for the normalizing shift count `s`. */
  method TopOfShifted(d: nat, s: nat) returns (v: nat)
    requires B32 <= d < B64 && s <= 31 && 0x8000_0000 <= (d / B32) * Pow2(s) < B32
    ensures 0x8000_0000 <= v < B32 && IsQuotient(d, 2 * Pow2(31 - s), v)
    ensures var e := Pow2(31 - s); e == 1 || e == 2 || e >= 4
  {
    ghost var p, e := Pow2(s), Pow2(31 - s);
    PowerSplit(s);
    Normalized(d, d / B32, p, 2 * e);
    var shifted := d * Pow2(s);
    SmallMod(shifted);
    v := shifted % B64 / B32;
    assert v * B32 <= shifted < (v + 1) * B32;
    TopWord(d, p, 2 * e, v);
  }

  lemma PowerSplit(s: nat)
    requires s <= 31
    ensures Pow2(s) * (2 * Pow2(31 - s)) == B32
    ensures var e := Pow2(31 - s); e == 1 || e == 2 || e >= 4
  {
    Pow2Add(s, 32 - s);
    Pow2Values();
    assert s <= 29 ==> Pow2(31 - s) == 2 * Pow2(30 - s) == 4 * Pow2(29 - s);
  }

  method ShiftRight(x: nat, k: nat) returns (y: nat)
    ensures IsQuotient(x, Pow2(k), y)
  {
    y := DivFloor(x, Pow2(k));
  }

  method Corrected(n: nat, d: nat, est: nat, ghost k: nat) returns (q: nat)
    requires 0 < d <= n < B64 && IsQuotient(n, d, k) && k <= est <= k + 1
    ensures q == k
  {
    QuotientLeast(n, d, k, 1);
    Correction(n, d, est, k);
    var prod := (est - 1) * d;
    SmallMod(n - prod);
    q := if (n - prod) % B64 < d then est - 1 else est;
  }

  // ----- remainders and signed operands

  /** Two's complement reading of the low 32 or 64 bits of `x`. */
  function ToInt32(x: int): (r: int)
    ensures -0x8000_0000 <= r < 0x8000_0000 && (x - r) % B32 == 0
    ensures -0x8000_0000 <= x < 0x8000_0000 ==> r == x
  {
    var m := x % B32;
    if m < 0x8000_0000 then m else m - B32
  }

  const MIN64: int := -0x8000_0000_0000_0000

  predicate IsInt64(x: int) {
    MIN64 <= x < -MIN64
  }

  function ToInt64(x: int): (r: int)
    ensures IsInt64(r) && (x - r) % B64 == 0
    ensures IsInt64(x) ==> r == x
  {
    var m := x % B64;
    if m < -MIN64 then m else m - B64
  }

  function Abs(x: int): nat {
    if x < 0 then -x else x
  }

  /** Division truncating toward zero, as in section 6.5.5 of C99. */
  function TruncDiv(n: int, d: int): (q: int)
    requires d != 0
  {
    if (n < 0) == (d < 0) then Abs(n) / Abs(d) else -(Abs(n) / Abs(d))
  }

  function TruncMod(n: int, d: int): (r: int)
    requires d != 0
  {
    if n < 0 then -(Abs(n) % Abs(d)) else Abs(n) % Abs(d)
  }

  /** The two truncating operators belong together. */
  lemma TruncDivMod(n: int, d: int)
    requires d != 0
    ensures n == d * TruncDiv(n, d) + TruncMod(n, d)
  {
    var a: int, b: int := Abs(n), Abs(d);
    var q := a / b;
    assert a == b * q + a % b;
    assert (-b) * q == -(b * q) && b * (-q) == -(b * q) && (-b) * (-q) == b * q;
  }

  lemma ModRange(n: nat, d: nat)
    requires d > 0
    ensures 0 <= n % d < d && n % d <= n
    ensures n < d ==> n % d == n
  {
  }

  lemma RemainderOf(n: nat, d: nat)
    requires d > 0
    ensures n - d * (n / d) == n % d
  {
  }

  /** umod64 returns a 32-bit word. */
  method Umod64(n: nat, d: nat) returns (r: nat)
    requires n < B64 && 0 < d < B64
    ensures r == n % d % B32
  {
    var q := Udiv64(n, d);
    RemainderOf(n, d);
    r := (n - d * q) % B64 % B32;
  }

  /** It is the remainder for every dividend exactly when the divisor is at most 2^32. */
  lemma UmodExactIff(d: nat)
    requires 0 < d < B64
    ensures (forall n: nat :: n < B64 ==> n % d % B32 == n % d) <==> d <= B32
  {
    if d > B32 {
      ModRange(B32, d);
      assert B32 % d % B32 != B32 % d;
    } else {
      forall n: nat | n < B64 ensures n % d % B32 == n % d {
        ModRange(n, d);
        SmallMod(n % d);
      }
    }
  }

  /** sdiv64 truncates toward zero, up to the wrap of the one unrepresentable quotient. */
  method Sdiv64(n: int, d: int) returns (q: int)
    requires IsInt64(n) && IsInt64(d) && d != 0
    ensures q == ToInt64(TruncDiv(n, d))
  {
    var nAbs := Magnitude(n);
    var dAbs := Magnitude(d);
    var qAbs := Udiv64(nAbs, dAbs);
    ToInt64Neg(qAbs);
    q := if (n < 0) == (d < 0) then ToInt64(qAbs) else ToInt64(-ToInt64(qAbs));
  }

  /** `x >= 0 ? (uint64_t) x : -(uint64_t) x`. */
  method Magnitude(x: int) returns (m: nat)
    requires IsInt64(x)
    ensures m == Abs(x) && m < B64
  {
    m := if x >= 0 then x % B64 else (B64 - x % B64) % B64;
  }

  lemma ToInt64Neg(x: int)
    ensures ToInt64(-ToInt64(x)) == ToInt64(-x)
  {
    var r := ToInt64(x);
    assert x - r == B64 * ((x - r) / B64);
    ToInt64Shift(-x, (x - r) / B64);
  }

  lemma ToInt64Shift(x: int, k: int)
    ensures ToInt64(x + B64 * k) == ToInt64(x)
  {
    assert (x + B64 * k) % B64 == x % B64;
  }

  /** The quotient is right for every pair but the one whose quotient is 2^63. */
  lemma SdivExactIff(n: int, d: int)
    requires IsInt64(n) && IsInt64(d) && d != 0
    ensures ToInt64(TruncDiv(n, d)) == TruncDiv(n, d) <==> !(n == MIN64 && d == -1)
  {
    hide ToInt64;
    AbsQuotientFits(Abs(n), Abs(d));
  }

  lemma AbsQuotientFits(a: nat, b: nat)
    requires a <= -MIN64 && b > 0
    ensures a / b < -MIN64 <==> !(a == -MIN64 && b == 1)
    ensures b == 1 ==> a / b == a
    ensures a / b <= -MIN64
  {
    QuotientIsDiv(a, b);
    QuotientLeast(a, b, a / b, -MIN64);
    if b >= 2 {
      MulMono(2, b, -MIN64);
    }
  }

  /** smod64 returns a signed 32-bit word. */
  method Smod64(n: int, d: int) returns (r: int)
    requires IsInt64(n) && IsInt64(d) && d != 0
    ensures r == ToInt32(TruncMod(n, d))
  {
    var q := Sdiv64(n, d);
    var prod := d * q;
    SmodProduct(n, d, q, prod);
    r := ToInt32(ToInt64(n - ToInt64(prod)));
  }

  lemma SmodProduct(n: int, d: int, q: int, prod: int)
    requires IsInt64(n) && IsInt64(d) && d != 0 && q == ToInt64(TruncDiv(n, d)) && prod == d * q
    ensures ToInt64(n - ToInt64(prod)) == TruncMod(n, d)
  {
    TruncDivMod(n, d);
    SdivExactIff(n, d);
    ModRange(Abs(n), Abs(d));
    if n == MIN64 && d == -1 {
      assert Abs(n) / Abs(d) == Abs(n);
      assert TruncMod(n, d) == 0;
      assert q == MIN64;
    } else {
      assert prod == n - TruncMod(n, d);
    }
  }

  lemma SmodExactIff(d: int)
    requires IsInt64(d) && d != 0
    ensures (forall n :: IsInt64(n) ==> ToInt32(TruncMod(n, d)) == TruncMod(n, d)) <==> Abs(d) <= 0x8000_0000
  {
    if Abs(d) > 0x8000_0000 {
      var n := 0x8000_0000;
      ModRange(n, Abs(d));
      assert IsInt64(n) && ToInt32(TruncMod(n, d)) != TruncMod(n, d);
    } else {
      forall n | IsInt64(n) ensures ToInt32(TruncMod(n, d)) == TruncMod(n, d) {
        ModRange(Abs(n), Abs(d));
      }
    }
  }
}
