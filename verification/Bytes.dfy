/** Bytes, and 32-bit words stored in them with the lowest byte first. */
module Bytes {
  import opened Machine

  type Byte = x: nat | x < 256

  function Le32(x: nat): (r: seq<Byte>)
    requires x < B32
    ensures |r| == 4
  {
    [x % 256, x / 0x100 % 256, x / 0x1_0000 % 256, x / 0x100_0000]
  }

  function Word(b0: nat, b1: nat, b2: nat, b3: nat): nat {
    b0 + 0x100 * b1 + 0x1_0000 * b2 + 0x100_0000 * b3
  }

  /** The number that bytes stand for, lowest byte first. */
  function FromLe(b: seq<Byte>): nat {
    if b == [] then 0 else b[0] + 0x100 * FromLe(b[1..])
  }

  lemma FromLeIsWord(b: seq<Byte>)
    requires |b| == 4
    ensures FromLe(b) == Word(b[0], b[1], b[2], b[3])
  {
    var c, d, e := b[1..], b[2..], b[3..];
    assert c[1..] == d && d[1..] == e && e[1..] == [];
    assert FromLe(e) == b[3] && FromLe(d) == b[2] + 0x100 * FromLe(e) && FromLe(c) == b[1] + 0x100 * FromLe(d);
  }

  lemma DivBy256(a: nat, r: nat)
    requires r < 0x100
    ensures (0x100 * a + r) / 0x100 == a && (0x100 * a + r) % 0x100 == r
  {
  }

  lemma DivBy65536(a: nat, r: nat)
    requires r < 0x1_0000
    ensures (0x1_0000 * a + r) / 0x1_0000 == a
  {
  }

  lemma DivBy16777216(a: nat, r: nat)
    requires r < 0x100_0000
    ensures (0x100_0000 * a + r) / 0x100_0000 == a
  {
  }

  /** A word is put together from the digits that its divisions give. */
  lemma Le32Of(b0: nat, b1: nat, b2: nat, b3: nat)
    requires b0 < 0x100 && b1 < 0x100 && b2 < 0x100 && b3 < 0x100
    ensures Word(b0, b1, b2, b3) < B32 && Le32(Word(b0, b1, b2, b3)) == [b0, b1, b2, b3]
  {
    var x := Word(b0, b1, b2, b3);
    var hi2: nat, hi1: nat := b2 + 0x100 * b3, b1 + 0x100 * b2 + 0x1_0000 * b3;
    assert x % 0x100 == b0 && x / 0x100 == hi1 by { DivBy256(hi1, b0); }
    assert hi1 % 0x100 == b1 by { DivBy256(hi2, b1); }
    assert x / 0x1_0000 == hi2 by { DivBy65536(hi2, b0 + 0x100 * b1); }
    assert hi2 % 0x100 == b2 by { DivBy256(b3, b2); }
    assert x / 0x100_0000 == b3 by { DivBy16777216(b3, b0 + 0x100 * b1 + 0x1_0000 * b2); }
  }

  /** Every word has such digits. */
  lemma Digits(x: nat) returns (b0: nat, b1: nat, b2: nat, b3: nat)
    requires x < B32
    ensures b0 < 0x100 && b1 < 0x100 && b2 < 0x100 && b3 < 0x100 && x == Word(b0, b1, b2, b3)
  {
    var q := x / 0x100;
    var r := q / 0x100;
    b0, b1, b2, b3 := x % 0x100, q % 0x100, r % 0x100, r / 0x100;
    assert x == 0x100 * q + b0 && q == 0x100 * r + b1 && r == 0x100 * b3 + b2;
  }

  lemma Le32RoundTrip(x: nat)
    requires x < B32
    ensures FromLe(Le32(x)) == x
  {
    var b0, b1, b2, b3 := Digits(x);
    Le32Of(b0, b1, b2, b3);
    FromLeIsWord(Le32(x));
  }
}
