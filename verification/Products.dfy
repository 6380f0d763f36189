/** Facts about products and quotients of variables. */
module Products {

  lemma MulMono(a: int, b: int, c: nat)
    requires a <= b
    ensures a * c <= b * c
  {
  }

  lemma MulAssoc(a: int, b: int, c: int)
    ensures (a * b) * c == a * (b * c) && a * (b * c) == b * (a * c)
  {
  }

  lemma MulDist(a: int, b: int, c: int)
    ensures (a + b) * c == a * c + b * c && c * (a + b) == a * c + b * c
  {
  }

  /** `q` is the quotient of `n` by `d`, rounded down. */
  ghost predicate IsQuotient(n: nat, d: nat, q: nat) {
    q * d <= n < (q + 1) * d
  }

  lemma QuotientIsDiv(n: nat, d: nat)
    requires d > 0
    ensures IsQuotient(n, d, n / d)
  {
    assert n == (n / d) * d + n % d;
  }

  lemma QuotientLeast(n: nat, d: nat, q: nat, x: nat)
    requires IsQuotient(n, d, q)
    ensures x <= q <==> x * d <= n
  {
    if x <= q {
      MulMono(x, q, d);
    } else {
      MulMono(q + 1, x, d);
    }
  }

  lemma QuotientUnique(n: nat, d: nat, q: nat, q': nat)
    requires IsQuotient(n, d, q) && IsQuotient(n, d, q')
    ensures q == q'
  {
    QuotientLeast(n, d, q, q');
    QuotientLeast(n, d, q', q);
  }

  lemma QuotientNested(n: nat, a: nat, b: nat, x: nat, q: nat)
    requires IsQuotient(n, a, x) && IsQuotient(x, b, q)
    ensures IsQuotient(n, a * b, q)
  {
    MulMono(q * b, x, a);
    MulAssoc(q, b, a);
    MulMono(x + 1, (q + 1) * b, a);
    MulAssoc(q + 1, b, a);
  }

  lemma ModUnique(x: nat, d: nat, q: nat, r: nat)
    requires d > 0 && x == q * d + r && r < d
    ensures x % d == r && x / d == q
  {
    QuotientIsDiv(x, d);
    MulDist(q, 1, d);
    QuotientUnique(x, d, q, x / d);
  }

  method DivFloor(n: nat, d: nat) returns (q: nat)
    requires d > 0
    ensures IsQuotient(n, d, q)
  {
    QuotientIsDiv(n, d);
    q := n / d;
  }

  function Max(a: int, b: int): int {
    if a < b then b else a
  }

  function Min(a: int, b: int): int {
    if a < b then a else b
  }
}
