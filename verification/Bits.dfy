/** Machine-word bit operations on naturals, for words of any width. */
module Bits {
  import opened Products

  function Pow2(n: nat): (p: nat)
    ensures p > 0
  {
    if n == 0 then 1 else 2 * Pow2(n - 1)
  }

  lemma {:induction false} Pow2Add(a: nat, b: nat)
    ensures Pow2(a + b) == Pow2(a) * Pow2(b)
  {
    if a > 0 {
      Pow2Add(a - 1, b);
      assert Pow2(a + b) == 2 * Pow2(a - 1 + b);
      MulAssoc(2, Pow2(a - 1), Pow2(b));
    }
  }

  /** Bit `k` of `w`. */
  function Bit(w: nat, k: nat): bool {
    if k == 0 then w % 2 == 1 else Bit(w / 2, k - 1)
  }

  /** C's `a & b`. */
  function And(a: nat, b: nat): (r: nat)
    ensures r <= a && r <= b
    decreases a
  {
    if a == 0 then 0 else 2 * And(a / 2, b / 2) + (if a % 2 == 1 && b % 2 == 1 then 1 else 0)
  }

  /** C's `a | b`. */
  function Or(a: nat, b: nat): nat
    decreases a + b
  {
    if a == 0 && b == 0 then 0 else 2 * Or(a / 2, b / 2) + (if a % 2 == 1 || b % 2 == 1 then 1 else 0)
  }

  /** C's `~a` on an unsigned word of `n` bits. */
  function Not(a: nat, n: nat): nat
    requires a < Pow2(n)
  {
    Pow2(n) - 1 - a
  }

  lemma {:induction false} BitZero(k: nat)
    ensures !Bit(0, k)
  {
    if k > 0 {
      BitZero(k - 1);
    }
  }

  lemma Halves(h: nat, odd: bool)
    ensures var w := 2 * h + if odd then 1 else 0; w / 2 == h && (w % 2 == 1 <==> odd)
  {
  }

  lemma {:induction false} BitAnd(a: nat, b: nat, k: nat)
    ensures Bit(And(a, b), k) <==> Bit(a, k) && Bit(b, k)
    decreases k
  {
    if a == 0 {
      BitZero(k);
    } else {
      Halves(And(a / 2, b / 2), a % 2 == 1 && b % 2 == 1);
      if k > 0 {
        BitAnd(a / 2, b / 2, k - 1);
      }
    }
  }

  lemma {:induction false} BitOr(a: nat, b: nat, k: nat)
    ensures Bit(Or(a, b), k) <==> Bit(a, k) || Bit(b, k)
    decreases k
  {
    if a == 0 && b == 0 {
      BitZero(k);
    } else {
      Halves(Or(a / 2, b / 2), a % 2 == 1 || b % 2 == 1);
      if k > 0 {
        BitOr(a / 2, b / 2, k - 1);
      }
    }
  }

  lemma {:induction false} BitNot(a: nat, n: nat, k: nat)
    requires a < Pow2(n) && k < n
    ensures Bit(Not(a, n), k) <==> !Bit(a, k)
    decreases k
  {
    assert Pow2(n) == 2 * Pow2(n - 1);
    assert Not(a, n) / 2 == Not(a / 2, n - 1) && Not(a, n) % 2 == 1 - a % 2;
    if k > 0 {
      BitNot(a / 2, n - 1, k - 1);
    }
  }

  lemma {:induction false} BitPow2(j: nat, k: nat)
    ensures Bit(Pow2(j), k) <==> j == k
  {
    if j == 0 {
      assert k > 0 ==> Bit(1, k) == Bit(0, k - 1);
      if k > 0 {
        BitZero(k - 1);
      }
    } else if k > 0 {
      assert Pow2(j) / 2 == Pow2(j - 1);
      BitPow2(j - 1, k - 1);
    }
  }

  /** A word without set bits is zero. */
  lemma {:induction false} NoBits(w: nat)
    requires forall k: nat :: !Bit(w, k)
    ensures w == 0
  {
    if w > 0 {
      assert !Bit(w, 0);
      forall k: nat ensures !Bit(w / 2, k) {
        assert !Bit(w, k + 1);
      }
      NoBits(w / 2);
    }
  }

  /** Testing one bit with a mask. */
  lemma MaskTest(w: nat, k: nat)
    ensures And(w, Pow2(k)) != 0 <==> Bit(w, k)
  {
    BitAnd(w, Pow2(k), k);
    BitPow2(k, k);
    if !Bit(w, k) {
      forall j: nat ensures !Bit(And(w, Pow2(k)), j) {
        BitAnd(w, Pow2(k), j);
        BitPow2(k, j);
      }
      NoBits(And(w, Pow2(k)));
    } else {
      BitZero(k);
    }
  }

  // ----- words stay words

  lemma {:induction false} Pow2Mono(a: nat, b: nat)
    requires a <= b
    ensures Pow2(a) <= Pow2(b)
  {
    if a < b {
      Pow2Mono(a, b - 1);
    }
  }

  lemma {:induction false} OrFits(a: nat, b: nat, n: nat)
    requires a < Pow2(n) && b < Pow2(n)
    ensures Or(a, b) < Pow2(n)
    decreases n
  {
    if n > 0 && (a > 0 || b > 0) {
      OrFits(a / 2, b / 2, n - 1);
    }
  }

  // ----- powers of two as masks

  /** Masking with 2^n - 1 is the remainder modulo 2^n. */
  lemma {:induction false} LowMask(x: nat, n: nat)
    ensures And(x, Pow2(n) - 1) == x % Pow2(n)
    decreases n
  {
    hide And;
    if n == 0 {
      assert x % 1 == 0;
    } else {
      var p := Pow2(n - 1);
      AndOdd(x, p - 1);
      LowMask(x / 2, n - 1);
      HalfMod(x, p);
    }
  }

  lemma AndOdd(x: nat, m: nat)
    ensures And(x, 2 * m + 1) == 2 * And(x / 2, m) + x % 2
  {
    assert (2 * m + 1) / 2 == m && (2 * m + 1) % 2 == 1;
  }

  lemma HalfMod(x: nat, p: nat)
    requires p > 0
    ensures x % (2 * p) == 2 * ((x / 2) % p) + x % 2
  {
    var q, r := (x / 2) / p, (x / 2) % p;
    assert x / 2 == q * p + r;
    assert x == q * (2 * p) + (2 * r + x % 2);
    ModUnique(x, 2 * p, q, 2 * r + x % 2);
  }
}
