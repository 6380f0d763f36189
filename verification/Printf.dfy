/** Integer conversions of lib/stdio.c and atoi of lib/stdlib.c: what printf renders,
    atoi reads back, and how long the output is (sections 7.19.6.1 and 7.20.1.2 of C99). */
module Printf {
  import opened Machine
  import opened Products

  /** A conversion after parsing; `precision` is -1 if there was none. */
  datatype Conv = Conv(minus: bool, plus: bool, space: bool, pound: bool, zero: bool, group: bool, width: nat,
      precision: int)

  datatype Base = Decimal | Octal | Hex(upper: bool)

  /** The number without its lowest digit, and that digit. */
  function Rest(v: nat, b: Base): nat {
    match b
    case Decimal => v / 10
    case Octal => v / 8
    case Hex(_) => v / 16
  }

  function Lowest(v: nat, b: Base): nat {
    match b
    case Decimal => v % 10
    case Octal => v % 8
    case Hex(_) => v % 16
  }

  /** How many digits make a group. */
  function GroupSize(b: Base): (n: nat)
    ensures n > 0
  {
    if b.Hex? then 4 else 3
  }

  const DIGITS: string := "0123456789abcdef"
  const UPPER_DIGITS: string := "0123456789ABCDEF"

  function DigitChar(v: nat, b: Base): char {
    (if b.Hex? && b.upper then UPPER_DIGITS else DIGITS)[Lowest(v, b)]
  }

  /** parse_conversion on the flags, the width and the precision of a format; a width or
      precision taken from an argument may be negative. */
  function Parse(minus: bool, plus: bool, space: bool, pound: bool, zero: bool, group: bool, width: int,
      precision: int): Conv {
    Conv(minus || width < 0, plus, space && !plus, pound, zero && !minus && precision < 0, group,
         if width < 0 then -width else width, if precision < 0 then -1 else precision)
  }

  // ----- what format_integer puts out

  function Repeat(c: char, n: int): (s: string)
    ensures |s| == (if n < 0 then 0 else n) && forall i :: 0 <= i < |s| ==> s[i] == c
  {
    if n <= 0 then [] else [c] + Repeat(c, n - 1)
  }

  /** The digits from the lowest up, with commas between groups if asked for. */
  function DigitsUp(v: nat, b: Base, group: bool, cnt: nat): string
  {
    if v == 0 then []
    else
      var comma := if group && cnt > 0 && cnt % GroupSize(b) == 0 then "," else "";
      comma + [DigitChar(v, b)] + DigitsUp(Rest(v, b), b, group, cnt + 1)
  }

  const BUF_SIZE: nat := 64

  /** The digits `up` with zeros up to the precision, and one for an octal number that does
      not have one. */
  function Finish(up: string, precision: nat, octal: bool): string {
    var padded := up + Repeat('0', (if precision < BUF_SIZE - 1 then precision else BUF_SIZE - 1) - |up|);
    if octal && (padded == [] || padded[|padded| - 1] != '0') then padded + "0" else padded
  }

  /** The contents of the digit buffer, lowest digit first. */
  function Buffer(v: nat, b: Base, c: Conv): string {
    Finish(DigitsUp(v, b, c.group, 0), if c.precision < 0 then 1 else c.precision, c.pound && b == Octal)
  }

  function Reverse(s: string): (r: string)
    ensures |r| == |s|
  {
    if s == [] then [] else Reverse(s[1..]) + [s[0]]
  }

  function Sign(signed: bool, negative: bool, c: Conv): string {
    if !signed then ""
    else if c.plus then (if negative then "-" else "+")
    else if c.space then (if negative then "-" else " ")
    else if negative then "-" else ""
  }

  function Prefix(v: nat, b: Base, c: Conv): string {
    if c.pound && v != 0 && b.Hex? then (if b.upper then "0X" else "0x") else ""
  }

  /** The number of characters without padding, and the padding. */
  function ContentLength(v: nat, signed: bool, negative: bool, b: Base, c: Conv): nat
  {
    |Sign(signed, negative, c)| + |Prefix(v, b, c)| + |Buffer(v, b, c)|
  }

  function PadCount(v: nat, signed: bool, negative: bool, b: Base, c: Conv): nat
  {
    var n := ContentLength(v, signed, negative, b, c);
    if c.width > n then c.width - n else 0
  }

  /** The parts in their order; `up` are the digits, lowest first. */
  function Layout(sign: string, prefix: string, up: string, pad: nat, c: Conv): string {
    (if !c.minus && !c.zero then Repeat(' ', pad) else "") + sign + prefix
    + (if c.zero then Repeat('0', pad) else "") + Reverse(up)
    + (if c.minus then Repeat(' ', pad) else "")
  }

  function Format(v: nat, signed: bool, negative: bool, b: Base, c: Conv): string
  {
    Layout(Sign(signed, negative, c), Prefix(v, b, c), Buffer(v, b, c), PadCount(v, signed, negative, b, c), c)
  }

  // ----- its length

  /** The field is as wide as it should be exactly when the padding is not put out twice. */
  lemma LengthIff(v: nat, signed: bool, negative: bool, b: Base, c: Conv)
    ensures var n := ContentLength(v, signed, negative, b, c);
            |Format(v, signed, negative, b, c)| == (if c.width > n then c.width else n) <==>
              !(c.minus && c.zero && c.width > n)
  {
  }

  /** In terms of the format: the length is wrong exactly for a zero flag without minus flag
      and precision, and a negative width argument that exceeds the content. */
  lemma FieldWidthIff(v: nat, signed: bool, negative: bool, b: Base,
      minus: bool, plus: bool, space: bool, pound: bool, zero: bool, group: bool, width: int, precision: int)
    ensures var c := Parse(minus, plus, space, pound, zero, group, width, precision);
            var n := ContentLength(v, signed, negative, b, c);
            |Format(v, signed, negative, b, c)| == (if c.width > n then c.width else n) <==>
            !(zero && !minus && precision < 0 && width < 0 && -width > n)
  {
    LengthIff(v, signed, negative, b, Parse(minus, plus, space, pound, zero, group, width, precision));
  }

  /** "%0*d" with the arguments -5 and 42 puts out eight characters. */
  lemma TooWide()
    ensures var c := Parse(false, false, false, false, true, false, -5, -1);
            c.width == 5 && |Format(42, true, false, Decimal, c)| == 8
  {
    var c := Parse(false, false, false, false, true, false, -5, -1);
    assert DigitsUp(4, Decimal, false, 1) == "4";
    assert DigitsUp(42, Decimal, false, 0) == "24";
    assert |Buffer(42, Decimal, c)| == 2;
  }

  // ----- what it looks like, place by place

  function DigitCount(v: nat, b: Base): nat {
    if v == 0 then 0 else 1 + DigitCount(Rest(v, b), b)
  }

  /** The digit of `v` at place `k`, counted from the lowest. */
  function NthDigit(v: nat, b: Base, k: nat): (d: nat)
    ensures d < 16
  {
    if k == 0 then Lowest(v, b) else NthDigit(Rest(v, b), b, k - 1)
  }

  /** The numeral for a digit. */
  function Numeral(d: nat, b: Base): char
    requires d < 16
  {
    if d < 10 then ('0' as int + d) as char
    else if b == Hex(true) then ('A' as int + (d - 10)) as char
    else ('a' as int + (d - 10)) as char
  }

  /** How long `n` digits are with a comma before every full group of three, or of four in
      hexadecimal, that is not the first. */
  function Grouped(n: nat, b: Base, group: bool): nat {
    if group && n > 0 then n + (n - 1) / (if b.Hex? then 4 else 3) else n
  }

  /** Place `k` from the right is between two groups. */
  predicate IsComma(k: nat, b: Base, group: bool) {
    group && if b.Hex? then k % 5 == 4 else k % 4 == 3
  }

  /** Which digit stands there otherwise. */
  function DigitAt(k: nat, b: Base, group: bool): nat {
    if !group then k else if b.Hex? then k - k / 5 else k - k / 4
  }

  /** The character at place `k` from the right: a comma between groups, a digit of the number,
      or a zero in front of it. */
  function PlaceChar(v: nat, b: Base, group: bool, k: nat): char {
    if k >= Grouped(DigitCount(v, b), b, group) then '0'
    else if IsComma(k, b, group) then ','
    else Numeral(NthDigit(v, b, DigitAt(k, b, group)), b)
  }

  /** How many characters the number takes: as many as it needs, or the precision, which is one
      by default and at most 63; with '#' an octal number gets a zero in front. */
  function NumberLength(v: nat, b: Base, c: Conv): nat {
    var n, p := Grouped(DigitCount(v, b), b, c.group), if c.precision < 0 then 1 else c.precision;
    var m := Max(n, Min(p, 63));
    if c.pound && b == Octal && m == n then m + 1 else m
  }

  predicate HasSign(signed: bool, negative: bool, c: Conv) {
    signed && (negative || c.plus || c.space)
  }

  predicate HasPrefix(v: nat, b: Base, c: Conv) {
    c.pound && b.Hex? && v != 0
  }

  /** How many characters each part of a field takes, from left to right. */
  datatype Field = Field(left: nat, sign: nat, prefix: nat, zeros: nat, number: nat, right: nat)

  /** Padding is on the left, with a minus flag on the right; with a zero flag it consists of
      zeros behind the sign and the prefix.  With both flags it is put out twice. */
  function FieldOf(v: nat, signed: bool, negative: bool, b: Base, c: Conv): Field {
    var sign, prefix := if HasSign(signed, negative, c) then 1 else 0, if HasPrefix(v, b, c) then 2 else 0;
    var n := NumberLength(v, b, c);
    var pad := Max(0, c.width - (sign + prefix + n));
    Field(if c.minus || c.zero then 0 else pad, sign, prefix, if c.zero then pad else 0, n, if c.minus then pad else 0)
  }

  /** The character at place `i` of such a field. */
  function FieldChar(f: Field, v: nat, negative: bool, b: Base, c: Conv, i: nat): char {
    var sign, prefix, zeros := f.left, f.left + f.sign, f.left + f.sign + f.prefix;
    var number, right := zeros + f.zeros, zeros + f.zeros + f.number;
    if i < sign then ' '
    else if i < prefix then (if negative then '-' else if c.plus then '+' else ' ')
    else if i < zeros then (if i == prefix then '0' else if b == Hex(true) then 'X' else 'x')
    else if i < number then '0'
    else if i < right then PlaceChar(v, b, c.group, right - 1 - i)
    else ' '
  }

  /** The text of a conversion. */
  ghost predicate Rendered(s: string, v: nat, signed: bool, negative: bool, b: Base, c: Conv) {
    var f := FieldOf(v, signed, negative, b, c);
    && |s| == f.left + f.sign + f.prefix + f.zeros + f.number + f.right
    && forall i :: 0 <= i < |s| ==> s[i] == FieldChar(f, v, negative, b, c, i)
  }

  function Power(b: Base, k: nat): nat {
    if k == 0 then 1 else Times(Power(b, k - 1), b)
  }

  /** A number has as many digits as it takes, and no more. */
  lemma {:induction false} DigitCountIsLeast(v: nat, b: Base)
    ensures v < Power(b, DigitCount(v, b))
    ensures v > 0 ==> Power(b, DigitCount(v, b) - 1) <= v
    decreases v
  {
    if v > 0 {
      DigitCountIsLeast(Rest(v, b), b);
    }
  }

  /** "%d" puts out one digit for zero. */
  lemma ZeroExample()
    ensures Format(0, true, false, Decimal, Conv(false, false, false, false, false, false, 0, -1)) == "0"
  {
    var c := Conv(false, false, false, false, false, false, 0, -1);
    assert Buffer(0, Decimal, c) == "0";
  }

  /** "%'d" of -12345. */
  lemma GroupExample()
    ensures Format(12345, true, true, Decimal, Conv(false, false, false, false, false, true, 0, -1)) == "-12,345"
  {
    hide DigitsUp, Reverse;
    GroupDigits();
    GroupReversed();
    assert Buffer(12345, Decimal, Conv(false, false, false, false, false, true, 0, -1)) == "543,21";
  }

  lemma GroupDigits()
    ensures DigitsUp(12345, Decimal, true, 0) == "543,21"
  {
    assert DigitsUp(12, Decimal, true, 3) == ",21" by { assert DigitsUp(1, Decimal, true, 4) == "1"; }
    assert DigitsUp(1234, Decimal, true, 1) == "43,21" by { assert DigitsUp(123, Decimal, true, 2) == "3,21"; }
  }

  lemma GroupReversed()
    ensures Reverse("543,21") == "12,345"
  {
    assert Reverse(",21") == "12,";
    assert Reverse("543,21") == Reverse("3,21") + ['4'] + ['5'];
  }

  /** "%#08X" of 255. */
  lemma HexExample()
    ensures Format(255, false, false, Hex(true), Conv(false, false, false, true, true, false, 8, -1)) == "0X0000FF"
  {
    hide DigitsUp, Repeat, Reverse;
    HexDigits();
    HexReversed();
    assert Buffer(255, Hex(true), Conv(false, false, false, true, true, false, 8, -1)) == "FF";
  }

  lemma HexDigits()
    ensures DigitsUp(255, Hex(true), false, 0) == "FF"
  {
    assert DigitsUp(15, Hex(true), false, 1) == "F";
  }

  lemma HexReversed()
    ensures Reverse("FF") == "FF" && Repeat('0', 4) == "0000"
  {
    assert "FF"[1..] == "F" && "F"[1..] == "";
  }

  /** Where the source puts digit number `m`, with a comma before it if it starts a group. */
  lemma PlaceOfDigit(m: nat, b: Base, group: bool)
    ensures var k := Grouped(m + 1, b, group) - 1;
      && k >= 0 && !IsComma(k, b, group) && DigitAt(k, b, group) == m
      && (if group && m > 0 && m % GroupSize(b) == 0
          then k >= 1 && Grouped(m, b, group) == k - 1 && IsComma(k - 1, b, group)
          else Grouped(m, b, group) == k)
  {
    if group {
      if b.Hex? {
        PlaceInFours(m / 4, m % 4);
      } else {
        PlaceInThrees(m / 3, m % 3);
      }
    }
  }

  lemma PlaceInThrees(j: nat, r: nat)
    requires r < 3
    ensures var m := 3 * j + r; var k := 4 * j + r;
      && m / 3 == j && m % 3 == r && (m > 0 && r == 0 ==> (m - 1) / 3 == j - 1) && (r > 0 ==> (m - 1) / 3 == j)
      && k % 4 == r && k / 4 == j && (j > 0 && r == 0 ==> (k - 1) % 4 == 3)
  {
  }

  lemma PlaceInFours(j: nat, r: nat)
    requires r < 4
    ensures var m := 4 * j + r; var k := 5 * j + r;
      && m / 4 == j && m % 4 == r && (m > 0 && r == 0 ==> (m - 1) / 4 == j - 1) && (r > 0 ==> (m - 1) / 4 == j)
      && k % 5 == r && k / 5 == j && (j > 0 && r == 0 ==> (k - 1) % 5 == 4)
  {
  }

  lemma DigitCharIs(v: nat, b: Base)
    ensures Lowest(v, b) < 16 && DigitChar(v, b) == Numeral(Lowest(v, b), b)
  {
    assert forall k :: 0 <= k < 16 ==> DIGITS[k] == Numeral(k, Hex(false)) && UPPER_DIGITS[k] == Numeral(k, Hex(true));
  }

  lemma {:induction false} DigitsLength(v: nat, b: Base, group: bool, cnt: nat)
    ensures |DigitsUp(v, b, group, cnt)| == Grouped(cnt + DigitCount(v, b), b, group) - Grouped(cnt, b, group)
    decreases v
  {
    hide Grouped;
    if v > 0 {
      DigitsLength(Rest(v, b), b, group, cnt + 1);
      PlaceOfDigit(cnt, b, group);
    }
  }

  lemma {:induction false} DigitsPlace(v: nat, b: Base, group: bool, cnt: nat, i: nat)
    requires i < |DigitsUp(v, b, group, cnt)|
    ensures var k, ch := Grouped(cnt, b, group) + i, DigitsUp(v, b, group, cnt)[i];
            && (IsComma(k, b, group) ==> ch == ',')
            && (!IsComma(k, b, group) ==>
                  DigitAt(k, b, group) >= cnt && ch == Numeral(NthDigit(v, b, DigitAt(k, b, group) - cnt), b))
    decreases v
  {
    hide DigitAt, DigitChar, Grouped, GroupSize, IsComma, Lowest, Numeral;
    var comma := if group && cnt > 0 && cnt % GroupSize(b) == 0 then "," else "";
    var rest := DigitsUp(Rest(v, b), b, group, cnt + 1);
    assert DigitsUp(v, b, group, cnt) == comma + [DigitChar(v, b)] + rest;
    PlaceOfDigit(cnt, b, group);
    DigitCharIs(v, b);
    if i > |comma| {
      var j := i - |comma| - 1;
      DigitsPlace(Rest(v, b), b, group, cnt + 1, j);
      assert DigitsUp(v, b, group, cnt)[i] == rest[j];
    }
  }

  /** The highest digit is not a zero. */
  lemma {:induction false} TopDigit(v: nat, b: Base, group: bool, cnt: nat)
    requires v > 0
    ensures var up := DigitsUp(v, b, group, cnt); up != [] && up[|up| - 1] != '0'
    decreases v
  {
    DigitCharIs(v, b);
    if Rest(v, b) > 0 {
      TopDigit(Rest(v, b), b, group, cnt + 1);
    } else {
      assert Lowest(v, b) == v;
    }
  }

  lemma BufferPlaces(v: nat, b: Base, c: Conv)
    ensures |Buffer(v, b, c)| == NumberLength(v, b, c)
    ensures forall k :: 0 <= k < NumberLength(v, b, c) ==> Buffer(v, b, c)[k] == PlaceChar(v, b, c.group, k)
  {
    hide Grouped, IsComma, DigitAt, Numeral, DigitsUp;
    var up := DigitsUp(v, b, c.group, 0);
    assert Grouped(0, b, c.group) == 0 by { GroupedNone(b, c.group); }
    DigitsLength(v, b, c.group, 0);
    forall k | 0 <= k < |up| ensures up[k] == PlaceChar(v, b, c.group, k) {
      DigitsPlace(v, b, c.group, 0, k);
    }
    if v > 0 {
      TopDigit(v, b, c.group, 0);
    } else {
      assert |up| == 0;
    }
  }

  lemma GroupedNone(b: Base, group: bool)
    ensures Grouped(0, b, group) == 0
  {
  }

  lemma {:induction false} ReversePlace(s: string, i: nat)
    requires i < |s|
    ensures Reverse(s)[i] == s[|s| - 1 - i]
  {
    if i < |s| - 1 {
      ReversePlace(s[1..], i);
    }
  }

  /** A character of six strings put together. */
  lemma SixParts(a: string, b: string, c: string, d: string, e: string, f: string, i: nat)
    requires i < |a| + |b| + |c| + |d| + |e| + |f|
    ensures var x, y, z := |a| + |b|, |a| + |b| + |c|, |a| + |b| + |c| + |d|;
            (a + b + c + d + e + f)[i] ==
              if i < |a| then a[i] else if i < x then b[i - |a|] else if i < y then c[i - x]
              else if i < z then d[i - y] else if i < z + |e| then e[i - z] else f[i - z - |e|]
  {
  }

  lemma SignIs(signed: bool, negative: bool, c: Conv)
    ensures |Sign(signed, negative, c)| == if HasSign(signed, negative, c) then 1 else 0
    ensures HasSign(signed, negative, c) ==>
      Sign(signed, negative, c)[0] == if negative then '-' else if c.plus then '+' else ' '
  {
  }

  lemma PrefixIs(v: nat, b: Base, c: Conv)
    ensures |Prefix(v, b, c)| == if HasPrefix(v, b, c) then 2 else 0
    ensures HasPrefix(v, b, c) ==>
      Prefix(v, b, c)[0] == '0' && Prefix(v, b, c)[1] == if b == Hex(true) then 'X' else 'x'
  {
  }

  lemma FieldParts(v: nat, signed: bool, negative: bool, b: Base, c: Conv)
    ensures var f := FieldOf(v, signed, negative, b, c);
      && f.sign == |Sign(signed, negative, c)| && f.prefix == |Prefix(v, b, c)| && f.number == |Buffer(v, b, c)|
      && Format(v, signed, negative, b, c) ==
           Repeat(' ', f.left) + Sign(signed, negative, c) + Prefix(v, b, c) + Repeat('0', f.zeros)
           + Reverse(Buffer(v, b, c)) + Repeat(' ', f.right)
  {
    hide Buffer, NumberLength, Prefix, Repeat, Reverse, Sign;
    var f, pad := FieldOf(v, signed, negative, b, c), PadCount(v, signed, negative, b, c);
    SignIs(signed, negative, c);
    PrefixIs(v, b, c);
    assert |Buffer(v, b, c)| == NumberLength(v, b, c) by { BufferPlaces(v, b, c); }
    assert (if !c.minus && !c.zero then Repeat(' ', pad) else "") == Repeat(' ', f.left);
    assert (if c.zero then Repeat('0', pad) else "") == Repeat('0', f.zeros);
    assert (if c.minus then Repeat(' ', pad) else "") == Repeat(' ', f.right);
  }

  /** The output of format_integer is that text. */
  lemma FormatRenders(v: nat, signed: bool, negative: bool, b: Base, c: Conv)
    ensures Rendered(Format(v, signed, negative, b, c), v, signed, negative, b, c)
  {
    hide Buffer, FieldOf, NumberLength, PlaceChar, Prefix, Sign, Format;
    var s, f := Format(v, signed, negative, b, c), FieldOf(v, signed, negative, b, c);
    var up := Buffer(v, b, c);
    FieldParts(v, signed, negative, b, c);
    forall i | 0 <= i < |s| ensures s[i] == FieldChar(f, v, negative, b, c, i) {
      SixParts(Repeat(' ', f.left), Sign(signed, negative, c), Prefix(v, b, c), Repeat('0', f.zeros), Reverse(up),
        Repeat(' ', f.right), i);
      SignIs(signed, negative, c);
      PrefixIs(v, b, c);
      var number := f.left + f.sign + f.prefix + f.zeros;
      if number <= i < number + f.number {
        ReversePlace(up, i - number);
        BufferPlaces(v, b, c);
      }
    }
  }

  // ----- its meaning, in every base

  function DigitValue(c: char): nat {
    if '0' <= c <= '9' then c as int - '0' as int
    else if 'a' <= c <= 'f' then c as int - 'a' as int + 10
    else if 'A' <= c <= 'F' then c as int - 'A' as int + 10
    else 0
  }

  function Times(n: nat, b: Base): nat {
    match b
    case Decimal => 10 * n
    case Octal => 8 * n
    case Hex(_) => 16 * n
  }

  /** The number that digits stand for, lowest digit first; commas do not count. */
  function ValueUp(s: string, b: Base): nat {
    if s == [] then 0
    else if s[0] == ',' then ValueUp(s[1..], b)
    else DigitValue(s[0]) + Times(ValueUp(s[1..], b), b)
  }

  lemma DigitCharMeans(v: nat, b: Base)
    ensures DigitChar(v, b) != ',' && DigitValue(DigitChar(v, b)) == Lowest(v, b)
    ensures v == Lowest(v, b) + Times(Rest(v, b), b)
  {
    var d := Lowest(v, b);
    assert forall k :: 0 <= k < 16 ==> DIGITS[k] != ',' && DigitValue(DIGITS[k]) == k;
    assert d < 16;
  }

  lemma OneMore(comma: string, c: char, s: string, b: Base)
    requires (comma == "" || comma == ",") && c != ','
    ensures ValueUp(comma + [c] + s, b) == DigitValue(c) + Times(ValueUp(s, b), b)
  {
    assert ([c] + s)[1..] == s;
    if comma == "" {
      assert comma + [c] + s == [c] + s;
    } else {
      assert comma + [c] + s == [','] + ([c] + s) && (comma + [c] + s)[1..] == [c] + s;
    }
  }

  lemma {:induction false} DigitsMean(v: nat, b: Base, group: bool, cnt: nat)
    ensures ValueUp(DigitsUp(v, b, group, cnt), b) == v
    decreases v
  {
    if v > 0 {
      DigitCharMeans(v, b);
      var rest := DigitsUp(Rest(v, b), b, group, cnt + 1);
      assert ValueUp(rest, b) == Rest(v, b) by { DigitsMean(Rest(v, b), b, group, cnt + 1); }
      var comma := if group && cnt > 0 && cnt % GroupSize(b) == 0 then "," else "";
      OneMore(comma, DigitChar(v, b), rest, b);
    }
  }

  lemma {:induction false} LeadingZerosMeanNothing(s: string, n: int, b: Base)
    ensures ValueUp(s + Repeat('0', n), b) == ValueUp(s, b)
    decreases |s|, if n < 0 then 0 else n
  {
    var zeros := Repeat('0', n);
    if s != [] {
      assert (s + zeros)[1..] == s[1..] + zeros;
      LeadingZerosMeanNothing(s[1..], n, b);
    } else if n > 0 {
      assert s + zeros == ['0'] + Repeat('0', n - 1) && (s + zeros)[1..] == [] + Repeat('0', n - 1);
      LeadingZerosMeanNothing([], n - 1, b);
    } else {
      assert s + zeros == s;
    }
  }

  lemma FinishMeans(up: string, precision: nat, octal: bool, b: Base)
    ensures ValueUp(Finish(up, precision, octal), b) == ValueUp(up, b)
  {
    var n := (if precision < BUF_SIZE - 1 then precision else BUF_SIZE - 1) - |up|;
    var padded := up + Repeat('0', n);
    assert ValueUp(padded, b) == ValueUp(up, b) by { LeadingZerosMeanNothing(up, n, b); }
    assert ValueUp(padded + "0", b) == ValueUp(padded, b) by {
      LeadingZerosMeanNothing(padded, 1, b);
      assert Repeat('0', 1) == "0";
    }
  }

  /** Whatever the base, precision and flags, the digit buffer stands for the value. */
  lemma BufferMeans(v: nat, b: Base, c: Conv)
    ensures ValueUp(Buffer(v, b, c), b) == v
  {
    var up := DigitsUp(v, b, c.group, 0);
    assert ValueUp(up, b) == v by { DigitsMean(v, b, c.group, 0); }
    FinishMeans(up, if c.precision < 0 then 1 else c.precision, c.pound && b == Octal, b);
  }

  // ----- atoi

  predicate IsSpace(c: char) {
    c == ' ' || c == 12 as char || c == '\n' || c == '\r' || c == '\t' || c == 11 as char
  }

  predicate IsDigit(c: char) {
    '0' <= c <= '9'
  }

  function Skip(s: string): string {
    if s != [] && IsSpace(s[0]) then Skip(s[1..]) else s
  }

  /** The digits at the start of `s`, read on from the negative number `acc`. */
  function Read(s: string, acc: int): int {
    if s != [] && IsDigit(s[0]) then Read(s[1..], acc * 10 - (s[0] as int - '0' as int)) else acc
  }

  function AtoiOf(s: string): int {
    var t := Skip(s);
    if t != [] && t[0] == '+' then -Read(t[1..], 0)
    else if t != [] && t[0] == '-' then Read(t[1..], 0)
    else -Read(t, 0)
  }

  // ----- the round trip

  ghost predicate AllDigits(s: string) {
    forall i :: 0 <= i < |s| ==> IsDigit(s[i])
  }

  /** Reading digits in front of something else. */
  lemma {:induction false} ReadConcat(a: string, b: string, acc: int)
    requires AllDigits(a)
    ensures Read(a + b, acc) == Read(b, Read(a, acc))
  {
    if a == [] {
      assert a + b == b;
    } else {
      assert (a + b)[1..] == a[1..] + b;
      ReadConcat(a[1..], b, acc * 10 - (a[0] as int - '0' as int));
    }
  }

  lemma {:induction false} ReadZeros(n: int)
    ensures AllDigits(Repeat('0', n)) && Read(Repeat('0', n), 0) == 0
    decreases if n < 0 then 0 else n
  {
    if n > 0 {
      ReadZeros(n - 1);
      assert Repeat('0', n)[1..] == Repeat('0', n - 1);
    }
  }

  lemma {:induction false} SkipSpaces(n: int, s: string)
    ensures Skip(Repeat(' ', n) + s) == Skip(s)
    decreases if n < 0 then 0 else n
  {
    if n > 0 {
      SkipSpaces(n - 1, s);
      assert (Repeat(' ', n) + s)[1..] == Repeat(' ', n - 1) + s;
    } else {
      assert Repeat(' ', n) + s == s;
    }
  }

  lemma {:induction false} ReverseConcat(a: string, b: string)
    ensures Reverse(a + b) == Reverse(b) + Reverse(a)
  {
    if a == [] {
      assert a + b == b && Reverse(b) + Reverse(a) == Reverse(b);
    } else {
      ReverseConcat(a[1..], b);
      assert (a + b)[1..] == a[1..] + b;
    }
  }

  lemma {:induction false} ReverseDigits(s: string)
    requires AllDigits(s)
    ensures AllDigits(Reverse(s))
  {
    if s != [] {
      ReverseDigits(s[1..]);
    }
  }

  /** The digits of a number, highest first, read back as the number. */
  lemma {:induction false} ReadDigits(v: nat, cnt: nat)
    ensures AllDigits(DigitsUp(v, Decimal, false, cnt)) && Read(Reverse(DigitsUp(v, Decimal, false, cnt)), 0) == 0 - v
    decreases v
  {
    if v > 0 {
      var d, rest := DIGITS[v % 10], DigitsUp(v / 10, Decimal, false, cnt + 1);
      ReadDigits(v / 10, cnt + 1);
      assert IsDigit(d) && d as int - '0' as int == v % 10;
      var up := DigitsUp(v, Decimal, false, cnt);
      assert up == [d] + rest && up[1..] == rest;
      ReverseDigits(rest);
      ReadConcat(Reverse(rest), [d], 0);
      assert Read([d], 0 - v / 10) == (0 - v / 10) * 10 - v % 10 by {
        assert [d][1..] == [];
      }
    }
  }

  /** So do the contents of the buffer, whatever the precision. */
  lemma ReadBuffer(v: nat, c: Conv)
    requires !c.group
    ensures AllDigits(Reverse(Buffer(v, Decimal, c))) && Read(Reverse(Buffer(v, Decimal, c)), 0) == 0 - v
  {
    var up := DigitsUp(v, Decimal, false, 0);
    var precision := if c.precision < 0 then 1 else c.precision;
    var n := (if precision < BUF_SIZE - 1 then precision else BUF_SIZE - 1) - |up|;
    var zeros := Repeat('0', n);
    ReadDigits(v, 0);
    ReadZeros(n);
    ReverseConcat(up, zeros);
    ReverseDigits(up);
    ReverseZeros(n);
    ReadConcat(zeros, Reverse(up), 0);
  }

  lemma {:induction false} ReverseZeros(n: int)
    ensures Reverse(Repeat('0', n)) == Repeat('0', n)
    decreases if n < 0 then 0 else n
  {
    if n > 0 {
      ReverseZeros(n - 1);
      assert Repeat('0', n)[1..] == Repeat('0', n - 1);
      ZerosCommute(n - 1);
    }
  }

  lemma {:induction false} ZerosCommute(n: int)
    ensures Repeat('0', n) + "0" == ['0'] + Repeat('0', n)
    decreases if n < 0 then 0 else n
  {
    if n > 0 {
      ZerosCommute(n - 1);
    }
  }

  /** Reading stops at the padding behind the digits. */
  lemma ReadTail(d: string, n: int)
    requires AllDigits(d)
    ensures Read(d + Repeat(' ', n), 0) == Read(d, 0)
  {
    ReadConcat(d, Repeat(' ', n), 0);
  }

  /** A first character that is a sign or a space. */
  lemma AtoiHead(c: char, t: string)
    ensures c == '+' ==> AtoiOf([c] + t) == 0 - Read(t, 0)
    ensures c == '-' ==> AtoiOf([c] + t) == Read(t, 0)
    ensures c == ' ' ==> AtoiOf([c] + t) == AtoiOf(t)
  {
    assert ([c] + t)[1..] == t;
  }

  lemma AtoiUnsigned(d: string, n: int)
    requires AllDigits(d)
    ensures AtoiOf(d + Repeat(' ', n)) == 0 - Read(d, 0)
  {
    var t := d + Repeat(' ', n);
    ReadTail(d, n);
    if d == [] {
      assert t == Repeat(' ', n) + [];
      SkipSpaces(n, []);
    } else {
      assert t[0] == d[0];
    }
  }

  ghost predicate AllSpace(s: string) {
    forall i :: 0 <= i < |s| ==> IsSpace(s[i])
  }

  lemma {:induction false} SkipAll(blank: string, s: string)
    requires AllSpace(blank)
    ensures Skip(blank + s) == Skip(s)
  {
    if blank == [] {
      assert blank + s == s;
    } else {
      assert (blank + s)[1..] == blank[1..] + s;
      SkipAll(blank[1..], s);
    }
  }

  /** Reading digits gives the number they stand for, negated. */
  lemma {:induction false} ReadIsValue(d: string)
    requires AllDigits(d)
    ensures Read(d, 0) == 0 - ValueUp(Reverse(d), Decimal)
  {
    if d != [] {
      var n := |d| - 1;
      var front, last := d[..n], d[n];
      ReadIsValue(front);
      assert d == front + [last];
      ReadConcat(front, [last], 0);
      ReverseConcat(front, [last]);
      assert Reverse([last]) == [last] && ([last] + Reverse(front))[1..] == Reverse(front);
      assert [last][1..] == [];
    }
  }

  /** atoi skips white space, takes one sign, and stops at the first character that is no digit. */
  lemma AtoiReads(blank: string, sign: string, d: string, rest: string)
    requires AllSpace(blank) && (sign == "" || sign == "+" || sign == "-") && AllDigits(d)
    requires d == [] ==> rest == [] || !(IsDigit(rest[0]) || IsSpace(rest[0]) || rest[0] == '+' || rest[0] == '-')
    requires d != [] ==> rest == [] || !IsDigit(rest[0])
    ensures var v := ValueUp(Reverse(d), Decimal);
            AtoiOf(blank + (sign + (d + rest))) == if sign == "-" then 0 - v else v
  {
    var t := d + rest;
    SkipAll(blank, sign + t);
    assert Read(t, 0) == Read(d, 0) by { ReadConcat(d, rest, 0); }
    ReadIsValue(d);
    if sign == "" {
      assert sign + t == t;
      assert t != [] ==> t[0] == if d == [] then rest[0] else d[0];
    } else {
      assert sign == [sign[0]];
      AtoiHead(sign[0], t);
    }
  }

  /** The parts of a decimal conversion. */
  lemma DecimalShape(v: nat, negative: bool, c: Conv)
    ensures var pad := PadCount(v, true, negative, Decimal, c);
            var d := (if c.zero then Repeat('0', pad) else "") + Reverse(Buffer(v, Decimal, c));
            Format(v, true, negative, Decimal, c) ==
              Repeat(' ', if !c.minus && !c.zero then pad else 0) +
              (Sign(true, negative, c) + (d + Repeat(' ', if c.minus then pad else 0)))
  {
    assert Prefix(v, Decimal, c) == "";
  }

  lemma DecimalDigits(v: nat, c: Conv, pad: nat)
    requires !c.group
    ensures var d := (if c.zero then Repeat('0', pad) else "") + Reverse(Buffer(v, Decimal, c));
            AllDigits(d) && Read(d, 0) == 0 - v
  {
    ReadBuffer(v, c);
    ReadZeros(pad);
    ReadConcat(if c.zero then Repeat('0', pad) else "", Reverse(Buffer(v, Decimal, c)), 0);
  }

  lemma AtoiOfParts(sign: string, d: string, lead: nat, tail: nat)
    requires AllDigits(d) && (sign == "" || sign == "+" || sign == "-" || sign == " ")
    ensures AtoiOf(Repeat(' ', lead) + (sign + (d + Repeat(' ', tail)))) == if sign == "-" then Read(d, 0)
      else 0 - Read(d, 0)
  {
    var t := d + Repeat(' ', tail);
    assert AtoiOf(Repeat(' ', lead) + (sign + t)) == AtoiOf(sign + t) by { SkipSpaces(lead, sign + t); }
    assert AtoiOf(t) == 0 - Read(d, 0) by { AtoiUnsigned(d, tail); }
    assert Read(t, 0) == Read(d, 0) by { ReadTail(d, tail); }
    if sign == "" {
      assert sign + t == t;
    } else {
      assert sign == [sign[0]];
      AtoiHead(sign[0], t);
    }
  }

  /** atoi undoes %d for every integer, flags other than grouping, width and precision. */
  lemma RoundTrip(v: int, c: Conv)
    requires !c.group
    ensures AtoiOf(Format(if v < 0 then -v else v, true, v < 0, Decimal, c)) == v
  {
    var a: nat := if v < 0 then -v else v;
    var pad := PadCount(a, true, v < 0, Decimal, c);
    var d := (if c.zero then Repeat('0', pad) else "") + Reverse(Buffer(a, Decimal, c));
    DecimalShape(a, v < 0, c);
    DecimalDigits(a, c, pad);
    AtoiOfParts(Sign(true, v < 0, c), d, if !c.minus && !c.zero then pad else 0, if c.minus then pad else 0);
  }

  // ----- the C functions

  function Pow8(n: nat): nat {
    if n == 0 then 1 else 8 * Pow8(n - 1)
  }

  lemma {:induction false} FewDigits(v: nat, b: Base, k: nat)
    requires v < Pow8(k)
    ensures DigitCount(v, b) <= k
    decreases k
  {
    if v > 0 {
      FewDigits(Rest(v, b), b, k - 1);
    }
  }

  /** A 64-bit value has at most 22 digits. */
  lemma AtMost22Digits(v: nat, b: Base)
    requires v < B64
    ensures DigitCount(v, b) <= 22
  {
    assert Pow8(4) == 0x1000;
    assert Pow8(8) == 0x100_0000;
    assert Pow8(12) == 0x10_0000_0000;
    assert Pow8(16) == 0x1_0000_0000_0000;
    assert Pow8(20) == 0x1000_0000_0000_0000;
    FewDigits(v, b, 22);
  }

  method PutDigit(buf: array<char>, start: nat, comma: bool, digit: char) returns (cp: nat)
    requires start + 2 <= buf.Length
    modifies buf
    ensures cp <= start + 2 && cp <= buf.Length
    ensures buf[..cp] == old(buf[..start]) + ((if comma then "," else "") + [digit])
  {
    cp := start;
    if comma {
      buf[cp] := ',';
      cp := cp + 1;
    }
    buf[cp] := digit;
    cp := cp + 1;
  }

  /** The digit loop of format_integer; the buffer has room for all digits and commas. */
  method PutDigits(buf: array<char>, value: nat, b: Base, group: bool) returns (cp: nat)
    requires buf.Length == BUF_SIZE && value < B64
    modifies buf
    ensures cp <= 44 && buf[..cp] == DigitsUp(value, b, group, 0)
  {
    AtMost22Digits(value, b);
    cp := 0;
    var v: nat, cnt: nat := value, 0;
    ghost var left, all := DigitsUp(value, b, group, 0), DigitsUp(value, b, group, 0);
    while v > 0
      invariant cp + 2 * DigitCount(v, b) <= 44
      invariant left == DigitsUp(v, b, group, cnt) && buf[..cp] + left == all
      decreases v
    {
      ghost var before, rest := buf[..cp], DigitsUp(Rest(v, b), b, group, cnt + 1);
      cp := PutDigit(buf, cp, group && cnt > 0 && cnt % GroupSize(b) == 0, DigitChar(v, b));
      DigitsStep(before, buf[..cp], v, b, group, cnt);
      left := rest;
      v, cnt := Rest(v, b), cnt + 1;
    }
  }

  lemma DigitsStep(before: string, after: string, v: nat, b: Base, group: bool, cnt: nat)
    requires v > 0
    requires after == before + ((if group && cnt > 0 && cnt % GroupSize(b) == 0 then "," else "") + [DigitChar(v, b)])
    ensures after + DigitsUp(Rest(v, b), b, group, cnt + 1) == before + DigitsUp(v, b, group, cnt)
  {
  }

  /** The precision loop, which leaves one byte of the buffer unused. */
  method ZeroFill(buf: array<char>, start: nat, precision: nat) returns (cp: nat)
    requires buf.Length == BUF_SIZE && start <= 44
    modifies buf
    ensures start <= cp < BUF_SIZE
    ensures buf[..cp] == old(buf[..start])
      + Repeat('0', (if precision < BUF_SIZE - 1 then precision else BUF_SIZE - 1) - start)
  {
    cp := start;
    while cp < precision && cp < BUF_SIZE - 1
      invariant start <= cp < BUF_SIZE && (cp == start || cp <= precision)
      invariant buf[..start] == old(buf[..start]) && forall k :: start <= k < cp ==> buf[k] == '0'
    {
      buf[cp] := '0';
      cp := cp + 1;
    }
  }

  /** The rest of the buffer: zeros up to the precision, and one for octal numbers. */
  method PutZeros(buf: array<char>, start: nat, precision: nat, octal: bool) returns (cp: nat)
    requires buf.Length == BUF_SIZE && start <= 44
    modifies buf
    ensures start <= cp <= BUF_SIZE && buf[..cp] == Finish(old(buf[..start]), precision, octal)
  {
    cp := ZeroFill(buf, start, precision);
    if octal && (cp == 0 || buf[cp - 1] != '0') {
      ghost var before := buf[..cp];
      buf[cp] := '0';
      cp := cp + 1;
      assert buf[..cp] == before + "0";
    }
  }

  /** output_dup. */
  method OutputDup(out: string, ch: char, cnt: nat) returns (r: string)
    ensures r == out + Repeat(ch, cnt)
  {
    r := out;
    var n: nat := cnt;
    while n > 0
      invariant n <= cnt && r + Repeat(ch, n) == out + Repeat(ch, cnt)
    {
      r := r + [ch];
      n := n - 1;
    }
  }

  /** The last loop, which takes the digits from the end of the buffer. */
  method OutputReversed(out: string, buf: array<char>, cp: nat) returns (r: string)
    requires cp <= buf.Length
    ensures r == out + Reverse(buf[..cp])
  {
    r := out;
    var n: nat := cp;
    while n > 0
      invariant n <= cp && r + Reverse(buf[..n]) == out + Reverse(buf[..cp])
    {
      n := n - 1;
      assert buf[..n + 1] == buf[..n] + [buf[n]];
      ReverseConcat(buf[..n], [buf[n]]);
      r := r + [buf[n]];
    }
  }

  /** All of the digit buffer; no write is outside it. */
  method FillBuffer(buf: array<char>, value: nat, b: Base, c: Conv) returns (cp: nat)
    requires buf.Length == BUF_SIZE && value < B64
    modifies buf
    ensures cp <= BUF_SIZE && buf[..cp] == Buffer(value, b, c)
  {
    cp := PutDigits(buf, value, b, c.group);
    cp := PutZeros(buf, cp, if c.precision < 0 then 1 else c.precision, c.pound && b == Octal);
  }

  /** format_integer. */
  method FormatInteger(value: nat, signed: bool, negative: bool, b: Base, c: Conv) returns (out: string)
    requires value < B64
    ensures out == Format(value, signed, negative, b, c) && Rendered(out, value, signed, negative, b, c)
  {
    hide Sign, Prefix, Rendered;
    FormatRenders(value, signed, negative, b, c);
    var sign := Sign(signed, negative, c);
    var prefix := Prefix(value, b, c);
    var buf := new char[BUF_SIZE];
    var cp := FillBuffer(buf, value, b, c);
    var pad := c.width - cp - |prefix| - |sign|;
    if pad < 0 {
      pad := 0;
    }
    assert |buf[..cp]| == cp;
    out := Output(sign, prefix, buf, cp, pad, c);
  }

  /** The output part of format_integer. */
  method Output(sign: string, prefix: string, buf: array<char>, cp: nat, pad: nat, c: Conv) returns (out: string)
    requires cp <= buf.Length
    ensures out == Layout(sign, prefix, buf[..cp], pad, c)
  {
    out := [];
    if !c.minus && !c.zero {
      out := OutputDup(out, ' ', pad);
    }
    assert out == if !c.minus && !c.zero then Repeat(' ', pad) else "";
    out := out + sign + prefix;
    ghost var head := out;
    if c.zero {
      out := OutputDup(out, '0', pad);
    }
    assert out == head + if c.zero then Repeat('0', pad) else "";
    out := OutputReversed(out, buf, cp);
    ghost var body := out;
    if c.minus {
      out := OutputDup(out, ' ', pad);
    }
    assert out == body + if c.minus then Repeat(' ', pad) else "";
  }

  method SkipBlanks(s: string) returns (i: nat)
    ensures i <= |s| && s[i..] == Skip(s)
  {
    i := 0;
    assert s[0..] == s;
    while i < |s| && IsSpace(s[i])
      invariant i <= |s| && Skip(s[i..]) == Skip(s)
    {
      assert s[i..][1..] == s[i + 1..];
      i := i + 1;
    }
  }

  /** The digit loop of atoi: no intermediate value is below the final one. */
  method ReadNumber(s: string, start: nat) returns (value: int)
    requires start <= |s| && -0x8000_0000 <= Read(s[start..], 0)
    ensures value == Read(s[start..], 0) <= 0
  {
    var i := start;
    value := 0;
    ghost var total := Read(s[i..], 0);
    ReadsDown(s[i..], 0);
    while i < |s| && IsDigit(s[i])
      invariant i <= |s| && Read(s[i..], value) == total && total <= value <= 0
    {
      assert s[i..][1..] == s[i + 1..];
      value := value * 10 - (s[i] as int - '0' as int);
      ReadsDown(s[i + 1..], value);
      assert -0x8000_0000 <= value;
      i := i + 1;
    }
  }

  /** atoi, for numbers that fit an int; so do all intermediate values. */
  method Atoi(s: string) returns (value: int)
    requires -0x8000_0000 <= AtoiOf(s) < 0x8000_0000
    ensures value == AtoiOf(s)
  {
    var i := SkipBlanks(s);
    var negative := false;
    ghost var t := s[i..];
    if i < |s| && s[i] == '+' {
      i := i + 1;
      assert t[1..] == s[i..];
    } else if i < |s| && s[i] == '-' {
      negative := true;
      i := i + 1;
      assert t[1..] == s[i..];
    }
    value := ReadNumber(s, i);
    if !negative {
      value := -value;
    }
  }

  lemma {:induction false} ReadsDown(s: string, acc: int)
    requires acc <= 0
    ensures Read(s, acc) <= acc
  {
    if s != [] && IsDigit(s[0]) {
      ReadsDown(s[1..], acc * 10 - (s[0] as int - '0' as int));
    }
  }

  /** vsnprintf with its helper, for formatted text `text`: what fits is stored and closed
      with a null character, and the result is the full length. */
  method Vsnprintf(buffer: array<char>, size: nat, text: string) returns (length: nat)
    requires size <= buffer.Length
    modifies buffer
    ensures length == |text|
    ensures var n := if |text| < size then |text| else size - 1;
            size > 0 ==> buffer[..n] == text[..n] && buffer[n] == 0 as char
    ensures forall k :: 0 <= k < buffer.Length && (size == 0 || |text| < k || size <= k) ==> buffer[k] == old(buffer[k])
  {
    length := 0;
    var p, max := 0, if size > 0 then size - 1 else 0;
    for i := 0 to |text|
      invariant length == i && p == (if i < max then i else max) && buffer[..p] == text[..p]
      invariant forall k :: p <= k < buffer.Length ==> buffer[k] == old(buffer[k])
    {
      if length < max {
        buffer[p] := text[i];
        p := p + 1;
      }
      length := length + 1;
    }
    if size > 0 {
      buffer[p] := 0 as char;
    }
  }
}
