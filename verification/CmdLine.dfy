/** From a command line to the initial user stack: process_execute squeezes spaces in
    place, load copies the result to the top of the stack page and cuts it into words
    with strtok_r (userprog/process.c, lib/string.c).  Characters are bytes. */
module CmdLine {
  import opened Bytes
  import opened Machine
  import opened Wrappers

  const SPACE: Byte := 32

  type Text = seq<Byte>

  /** The words of a text: its maximal runs of characters other than spaces. */
  function Words(s: Text): seq<Text>
    ensures s != [] && s[0] != SPACE ==> Words(s) != []
  {
    if s == [] then []
    else if s[0] == SPACE then Words(s[1..])
    else if |s| == 1 || s[1] == SPACE then [[s[0]]] + Words(s[1..])
    else
      var ws := Words(s[1..]);
      [[s[0]] + ws[0]] + ws[1..]
  }

  // ----- squeezing

  /** `s` without the spaces that follow a space; `prev` says whether one precedes `s`. */
  function Squeeze(s: Text, prev: bool): (r: Text)
    ensures |r| <= |s|
  {
    if s == [] then []
    else if s[0] == SPACE then (if prev then [] else [SPACE]) + Squeeze(s[1..], true)
    else [s[0]] + Squeeze(s[1..], false)
  }

  /** No leading space and no two spaces in a row. */
  ghost predicate Tidy(s: Text) {
    (s == [] || s[0] != SPACE) && forall i :: 0 <= i < |s| - 1 ==> !(s[i] == SPACE && s[i + 1] == SPACE)
  }

  /** Squeezing keeps the words. */
  lemma {:induction false} SqueezeKeepsWords(s: Text, prev: bool)
    ensures Words(Squeeze(s, prev)) == Words(s)
  {
    if s != [] {
      SqueezeKeepsWords(s[1..], s[0] == SPACE);
      var r, t := Squeeze(s, prev), Squeeze(s[1..], s[0] == SPACE);
      if s[0] == SPACE {
        assert !prev ==> r[1..] == t;
        assert prev ==> r == t;
      } else {
        assert r == [s[0]] + t && r[1..] == t;
        SqueezeStart(s[1..]);
      }
    }
  }

  /** After another character, the first character stays. */
  lemma SqueezeStart(s: Text)
    ensures Squeeze(s, false) == [] <==> s == []
    ensures s != [] ==> Squeeze(s, false)[0] == s[0]
  {
  }

  lemma {:induction false} SqueezeIsTidy(s: Text, prev: bool)
    ensures prev ==> Tidy(Squeeze(s, prev))
    ensures forall i :: 0 <= i < |Squeeze(s, prev)| - 1 ==>
      !(Squeeze(s, prev)[i] == SPACE && Squeeze(s, prev)[i + 1] == SPACE)
  {
    if s != [] {
      SqueezeIsTidy(s[1..], s[0] == SPACE);
    }
  }

  /** `s` in a buffer of `n` bytes, the rest zero. */
  ghost function Padded(s: seq<Byte>, n: nat): seq<Byte>
    requires |s| <= n
  {
    seq(n, k requires 0 <= k < n => if k < |s| then s[k] else 0)
  }

  /** The inner loop: everything behind index `i` moves down by one. */
  method ShiftLeft(buf: array<Byte>, i: nat)
    requires i + 1 < buf.Length && buf[buf.Length - 1] == 0
    modifies buf
    ensures buf[buf.Length - 1] == 0
    ensures forall m :: 0 <= m < buf.Length - 1 ==> buf[m] == old(buf[if m < i then m else m + 1])
  {
    var n := buf.Length - 1;
    var k := i;
    while k < n
      invariant i <= k <= n
      invariant forall m :: 0 <= m <= n ==> buf[m] == old(buf[if i <= m < k then m + 1 else m])
    {
      buf[k] := buf[k + 1];
      k := k + 1;
    }
    buf[k - 1] := 0;
  }

  /** The loop has reached index `i` of the buffer `b`; `rest` is still to be squeezed, and
      doing so would leave `goal`. */
  ghost predicate Squeezing(b: seq<Byte>, i: nat, rest: Text, prev: bool, goal: seq<Byte>) {
    && i + |rest| < |b| == |goal|
    && b[i..] == Padded(rest, |b| - i)
    && goal[..i] == b[..i] && goal[i..] == Padded(Squeeze(rest, prev), |b| - i)
  }

  lemma DropSpace(b: seq<Byte>, b': seq<Byte>, i: nat, rest: Text, goal: seq<Byte>)
    requires Squeezing(b, i, rest, true, goal) && rest != [] && rest[0] == SPACE
    requires |b'| == |b| && b'[|b| - 1] == 0 && forall m :: 0 <= m < |b| - 1 ==> b'[m] == b[if m < i then m else m + 1]
    ensures Squeezing(b', i, rest[1..], true, goal)
  {
    var pad, n := Padded(rest, |b| - i), |b| - i;
    forall m | 0 <= m < n ensures b'[i..][m] == Padded(rest[1..], n)[m] {
      assert m + 1 < n ==> b'[i + m] == b[i + m + 1] && b[i + m + 1] == b[i..][m + 1];
    }
    assert b'[..i] == b[..i];
  }

  lemma KeepChar(b: seq<Byte>, i: nat, rest: Text, prev: bool, goal: seq<Byte>)
    requires Squeezing(b, i, rest, prev, goal) && rest != [] && !(prev && rest[0] == SPACE)
    ensures Squeezing(b, i + 1, rest[1..], rest[0] == SPACE, goal)
  {
    var n := |b| - i;
    assert b[i + 1..] == b[i..][1..] && Padded(rest, n)[1..] == Padded(rest[1..], n - 1);
    assert goal[i + 1..] == goal[i..][1..];
    var t := Squeeze(rest[1..], rest[0] == SPACE);
    assert Squeeze(rest, prev) == [rest[0]] + t;
    assert Padded([rest[0]] + t, n)[1..] == Padded(t, n - 1);
    assert b[i] == b[i..][0] == rest[0] && goal[i] == goal[i..][0] == rest[0];
    assert goal[..i + 1] == goal[..i] + [goal[i]] && b[..i + 1] == b[..i] + [b[i]];
  }

  lemma PassZero(b: seq<Byte>, i: nat, prev: bool, goal: seq<Byte>)
    requires Squeezing(b, i, [], prev, goal) && i + 1 < |b|
    ensures Squeezing(b, i + 1, [], false, goal) && b[i] == 0
  {
    var n := |b| - i;
    assert b[i + 1..] == b[i..][1..] && goal[i + 1..] == goal[i..][1..] && Padded([], n)[1..] == Padded([], n - 1);
    assert b[i] == b[i..][0] && goal[i] == goal[i..][0];
    assert goal[..i + 1] == goal[..i] + [goal[i]] && b[..i + 1] == b[..i] + [b[i]];
  }

  /** The two loops of process_execute on its copy of the command line, a buffer that ends
      in a zero byte.  The second one never finds a space there. */
  method SqueezeInPlace(buf: array<Byte>, ghost cmd: Text)
    requires buf[..] == cmd + [0]
    modifies buf
    ensures buf[..] == Padded(Squeeze(cmd, true), |cmd| + 1)
  {
    var n := buf.Length - 1;
    var i: nat, prev := 0, true;
    ghost var rest: Text := cmd;
    ghost var goal := Padded(Squeeze(cmd, true), n + 1);
    assert buf[0..] == buf[..] == Padded(cmd, n + 1);
    while i < n
      invariant i <= n && Squeezing(buf[..], i, rest, prev, goal)
      decreases |rest| + n - i
    {
      ghost var b := buf[..];
      assert buf[i] == b[i..][0];
      if buf[i] == SPACE {
        if prev {
          ShiftLeft(buf, i);
          DropSpace(b, buf[..], i, rest, goal);
          rest := rest[1..];
        } else {
          KeepChar(b, i, rest, prev, goal);
          i, rest := i + 1, rest[1..];
        }
        prev := true;
      } else {
        if rest != [] {
          KeepChar(b, i, rest, prev, goal);
          rest := rest[1..];
        } else {
          PassZero(b, i, prev, goal);
        }
        prev := false;
        i := i + 1;
      }
    }
    assert buf[..] == buf[..][..n] + buf[..][n..] && goal == goal[..n] + goal[n..];
    assert buf[n] == buf[..][n..][0];
    TrimEnd(buf);
  }

  /** The second loop, which walks down from the last byte while it sees spaces. */
  method TrimEnd(buf: array<Byte>)
    requires buf.Length > 0
    modifies buf
    ensures old(buf[buf.Length - 1]) != SPACE ==> buf[..] == old(buf[..])
    ensures buf[buf.Length - 1] != SPACE
  {
    var n := buf.Length - 1;
    var i := n;
    while i >= 0 && buf[i] == SPACE
      invariant -1 <= i <= n && (i == n ==> buf[..] == old(buf[..])) && (i < n ==> old(buf[n]) == SPACE && buf[n] == 0)
    {
      buf[i] := 0;
      i := i - 1;
    }
  }

  // ----- the file name

  /** Where the first word of the squeezed line ends. */
  function FirstEnd(s: Text): (n: nat)
    ensures n <= |s|
  {
    if s == [] || s[0] == SPACE then 0 else 1 + FirstEnd(s[1..])
  }

  /** The name that process_execute passes on: as many bytes of the original command line
      as the first word of the squeezed one has. */
  function NameCopy(cmd: Text): Text {
    cmd[..FirstEnd(Squeeze(cmd, true))]
  }

  lemma {:induction false} FirstEndIsWord(s: Text)
    requires s != [] && s[0] != SPACE
    ensures s[..FirstEnd(s)] == Words(s)[0]
  {
    hide Words;
    var rest := s[1..];
    FirstOfWords(s);
    if |s| > 1 && s[1] != SPACE {
      FirstEndIsWord(rest);
      assert s[..1 + FirstEnd(rest)] == [s[0]] + rest[..FirstEnd(rest)];
    } else {
      assert FirstEnd(rest) == 0 && s[..1] == [s[0]];
    }
  }

  lemma FirstOfWords(s: Text)
    requires s != [] && s[0] != SPACE
    ensures Words(s) != []
    ensures |s| == 1 || s[1] == SPACE ==> Words(s)[0] == [s[0]]
    ensures |s| > 1 && s[1] != SPACE ==> Words(s[1..]) != [] && Words(s)[0] == [s[0]] + Words(s[1..])[0]
  {
  }

  lemma {:induction false} FirstEndSqueezed(s: Text)
    ensures FirstEnd(Squeeze(s, false)) == FirstEnd(s)
  {
    if s != [] && s[0] != SPACE {
      FirstEndSqueezed(s[1..]);
      assert Squeeze(s, false)[1..] == Squeeze(s[1..], false);
    }
  }

  /** The name is the first word exactly when the command line does not start with a space. */
  lemma NameIsFirstWordIff(cmd: Text)
    requires Words(cmd) != []
    ensures NameCopy(cmd) == Words(cmd)[0] <==> cmd[0] != SPACE
  {
    var t := Squeeze(cmd, true);
    SqueezeKeepsWords(cmd, true);
    SqueezeIsTidy(cmd, true);
    FirstEndIsWord(t);
    if cmd[0] != SPACE {
      assert t[1..] == Squeeze(cmd[1..], false);
      FirstEndSqueezed(cmd[1..]);
      FirstEndIsWord(cmd);
    } else {
      assert t[..FirstEnd(t)][0] == t[0] != SPACE;
    }
  }

  /** The command line " a" runs the program "a" under the name " ". */
  lemma NameCanBeSpace()
    ensures Words([SPACE, 97]) == [[97]] && NameCopy([SPACE, 97]) == [SPACE]
  {
    var cmd: Text, rest: Text := [SPACE, 97], [97];
    assert cmd[1..] == rest && rest[1..] == [];
    assert Words(rest) == [[97]] + Words(rest[1..]);
    assert Squeeze(rest, true) == rest;
    assert FirstEnd(rest) == 1 + FirstEnd(rest[1..]);
  }

  // ----- tokens

  /** Splitting off the first word. */
  lemma {:induction false} FirstWord(s: Text, k: nat)
    requires 0 < k <= |s| && (k == |s| || s[k] == SPACE) && forall i :: 0 <= i < k ==> s[i] != SPACE
    ensures Words(s) == [s[..k]] + Words(s[k..])
    decreases k
  {
    if k == 1 {
      assert s[..1] == [s[0]];
    } else {
      FirstWord(s[1..], k - 1);
      assert s[1..][k - 1..] == s[k..] && [s[0]] + s[1..][..k - 1] == s[..k];
    }
  }

  /** The string `w` is stored at index `p`, with its terminating zero. */
  ghost predicate StrAt(b: seq<Byte>, p: nat, w: Text) {
    p + |w| < |b| && b[p + |w|] == 0 && forall k :: p <= k < p + |w| ==> b[k] == w[k - p] && b[k] != 0
  }

  lemma {:induction false} LeadingSpaces(s: Text, k: nat)
    requires k <= |s| && forall i :: 0 <= i < k ==> s[i] == SPACE
    ensures Words(s[k..]) == Words(s)
    decreases k
  {
    if k == 0 {
      assert s[0..] == s;
    } else {
      LeadingSpaces(s[1..], k - 1);
      assert s[1..][k - 1..] == s[k..];
    }
  }

  /** The first loop of strtok_r. */
  method SkipSpaces(page: array<Byte>, s: nat, ghost e: nat) returns (i: nat)
    requires s <= e < page.Length && page[e] == 0
    ensures s <= i <= e && page[i] != SPACE && forall k :: s <= k < i ==> page[k] == SPACE
  {
    i := s;
    while page[i] == SPACE
      invariant s <= i <= e && forall k :: s <= k < i ==> page[k] == SPACE
      decreases e - i
    {
      i := i + 1;
    }
  }

  /** Its second loop. */
  method SkipWord(page: array<Byte>, s: nat, ghost e: nat) returns (i: nat)
    requires s <= e < page.Length && page[e] == 0
    ensures s <= i <= e && (page[i] == SPACE || page[i] == 0)
    ensures forall k :: s <= k < i ==> page[k] != SPACE && page[k] != 0
  {
    i := s;
    while !(page[i] == SPACE || page[i] == 0)
      invariant s <= i <= e && forall k :: s <= k < i ==> page[k] != SPACE && page[k] != 0
      decreases e - i
    {
      i := i + 1;
    }
  }

  /** strtok_r with a space as the only delimiter, on the string `rest` at `s`: the next
      word `w`, cut off in place. */
  method StrtokR(page: array<Byte>, s: nat, ghost rest: Text) returns (token: Option<nat>, save: nat, ghost w: Text)
    requires StrAt(page[..], s, rest)
    modifies page
    ensures s <= save <= s + |rest|
    ensures token.None? ==> Words(rest) == [] && page[..] == old(page[..])
    ensures token.Some? ==> s <= token.value && StrAt(page[..], token.value, w)
    ensures token.Some? ==> token.value + |w| < save || save == s + |rest| == token.value + |w|
    ensures token.Some? ==> Words(rest) == [w] + Words(rest[save - s..]) && StrAt(page[..], save, rest[save - s..])
    ensures forall k :: 0 <= k < page.Length && !(s <= k < save) ==> page[k] == old(page[k])
  {
    w := [];
    ghost var e := s + |rest|;
    var t := SkipSpaces(page, s, e);
    if page[t] == 0 {
      NoWord(page[..], s, rest, t);
      return None, t, w;
    }
    var i := SkipWord(page, t, e);
    CutWord(page[..], s, rest, t, i);
    token := Some(t);
    if page[i] != 0 {
      page[i] := 0;
      save := i + 1;
    } else {
      save := i;
    }
    CutString(old(page[..]), page[..], s, rest, t, i, save);
    w := rest[t - s..i - s];
  }

  lemma NoWord(b: seq<Byte>, s: nat, rest: Text, t: nat)
    requires StrAt(b, s, rest) && s <= t <= s + |rest| && b[t] == 0 && forall k :: s <= k < t ==> b[k] == SPACE
    ensures Words(rest) == []
  {
    forall k | 0 <= k < |rest| ensures rest[k] == SPACE {
      assert b[s + k] == SPACE;
    }
    LeadingSpaces(rest, |rest|);
  }

  /** What is left in memory when the word from `t` to `i` has been cut off. */
  lemma CutString(b: seq<Byte>, b': seq<Byte>, s: nat, rest: Text, t: nat, i: nat, save: nat)
    requires StrAt(b, s, rest) && s <= t < i <= s + |rest| && (b[i] == SPACE || b[i] == 0)
    requires b' == b[i := 0] && save == if b[i] != 0 then i + 1 else i
    ensures s <= save <= s + |rest| && (save == i <==> i == s + |rest|)
    ensures StrAt(b', t, rest[t - s..i - s]) && StrAt(b', save, rest[save - s..])
  {
    assert i < s + |rest| ==> b[i] == rest[i - s];
  }

  /** The first word of `s` goes from `x` to `y`; the others come behind it and the space after it. */
  ghost predicate Splits(s: Text, x: nat, y: nat) {
    && x < y <= |s| && Words(s) == [s[x..y]] + Words(s[y..])
    && (y < |s| ==> Words(s[y..]) == Words(s[y + 1..]))
  }

  lemma CutWord(b: seq<Byte>, s: nat, rest: Text, t: nat, i: nat)
    requires StrAt(b, s, rest) && s <= t < i <= s + |rest| && (b[i] == SPACE || b[i] == 0)
    requires forall k :: s <= k < t ==> b[k] == SPACE
    requires forall k :: t <= k < i ==> b[k] != SPACE && b[k] != 0
    ensures Splits(rest, t - s, i - s)
  {
    WordBounds(b, s, rest, t - s, i - s);
    NextWord(rest, t - s, i - s);
  }

  lemma WordBounds(b: seq<Byte>, s: nat, rest: Text, x: nat, y: nat)
    requires StrAt(b, s, rest) && x < y <= |rest| && (b[s + y] == SPACE || b[s + y] == 0)
    requires forall k :: s <= k < s + x ==> b[k] == SPACE
    requires forall k :: s + x <= k < s + y ==> b[k] != SPACE && b[k] != 0
    ensures y == |rest| || rest[y] == SPACE
    ensures forall k :: 0 <= k < x ==> rest[k] == SPACE
    ensures forall k :: x <= k < y ==> rest[k] != SPACE
  {
    forall k | 0 <= k < x ensures rest[k] == SPACE {
      assert b[s + k] == SPACE;
    }
    forall k | x <= k < y ensures rest[k] != SPACE {
      assert b[s + k] != SPACE;
    }
    assert y < |rest| ==> rest[y] == b[s + y];
  }

  /** The word from `x` to `y` is the first of `s`. */
  lemma NextWord(s: Text, x: nat, y: nat)
    requires x < y <= |s| && (y == |s| || s[y] == SPACE)
    requires forall k :: 0 <= k < x ==> s[k] == SPACE
    requires forall k :: x <= k < y ==> s[k] != SPACE
    ensures Splits(s, x, y)
  {
    LeadingSpaces(s, x);
    FirstWord(s[x..], y - x);
    assert s[x..][..y - x] == s[x..y] && s[x..][y - x..] == s[y..];
    if y < |s| {
      assert s[y..][1..] == s[y + 1..];
    }
  }

  // ----- counting the arguments

  /** The number of spaces that precede a word. */
  function Starts(s: Text): nat {
    if |s| < 2 then 0 else (if s[0] == SPACE && s[1] != SPACE then 1 else 0) + Starts(s[1..])
  }

  lemma {:induction false} StartsAreWords(s: Text)
    ensures |Words(s)| == Starts(s) + if s != [] && s[0] != SPACE then 1 else 0
  {
    if s != [] {
      StartsAreWords(s[1..]);
    }
  }

  lemma StartsStep(s: Text, j: nat)
    requires j < |s|
    ensures Starts(s[j..]) == Starts(s[j + 1..]) + if s[j] == SPACE && j + 1 < |s| && s[j + 1] != SPACE then 1 else 0
  {
    assert s[j..][1..] == s[j + 1..];
  }

  lemma CharAt(b: seq<Byte>, s: nat, cmd: Text, i: nat)
    requires StrAt(b, s, cmd) && s <= i < s + |cmd|
    ensures b[i] == cmd[i - s] && (b[i + 1] != 0 <==> i + 1 < s + |cmd|)
    ensures i + 1 < s + |cmd| ==> b[i + 1] == cmd[i + 1 - s]
  {
  }

  /** The counting loop of load, on the string `cmd` at `s`. */
  method CountArgs(page: array<Byte>, s: nat, ghost cmd: Text) returns (n: nat)
    requires StrAt(page[..], s, cmd)
    ensures n == 1 + Starts(cmd)
  {
    n := 1;
    var i := s;
    assert cmd[0..] == cmd;
    while page[i] != 0
      invariant s <= i <= s + |cmd| && n + Starts(cmd[i - s..]) == 1 + Starts(cmd)
      decreases s + |cmd| - i
    {
      CharAt(page[..], s, cmd, i);
      StartsStep(cmd, i - s);
      if page[i] == SPACE && page[i + 1] != 0 && page[i + 1] != SPACE {
        n := n + 1;
      }
      i := i + 1;
    }
  }

  /** For a squeezed line the count is right exactly when there is a word. */
  lemma CountIsRightIff(cmd: Text)
    requires Tidy(cmd)
    ensures 1 + Starts(cmd) == |Words(cmd)| <==> Words(cmd) != []
    ensures Words(cmd) == [] ==> cmd == []
  {
    StartsAreWords(cmd);
  }

  /** An empty command line counts as one word. */
  lemma EmptyLineCounts()
    ensures Tidy([]) && 1 + Starts([]) == 1 && |Words([])| == 0
  {
  }

  // ----- the stack

  /** The user address of index `i` of the stack page. */
  function Addr(i: nat): nat {
    PHYS_BASE - PGSIZE + i
  }

  /** The 32-bit word at index `i`. */
  function Peek(b: seq<Byte>, i: nat): nat
    requires i + 4 <= |b|
  {
    FromLe(b[i..i + 4])
  }

  method Poke(page: array<Byte>, i: nat, v: nat)
    requires i + 4 <= page.Length && v < B32
    modifies page
    ensures Peek(page[..], i) == v
    ensures forall k :: 0 <= k < page.Length && !(i <= k < i + 4) ==> page[k] == old(page[k])
  {
    var le := Le32(v);
    page[i], page[i + 1], page[i + 2], page[i + 3] := le[0], le[1], le[2], le[3];
    assert page[..][i..i + 4] == le;
    Le32RoundTrip(v);
  }

  lemma PeekSame(b: seq<Byte>, b': seq<Byte>, i: nat)
    requires i + 4 <= |b| == |b'| && forall k :: i <= k < i + 4 ==> b[k] == b'[k]
    ensures Peek(b, i) == Peek(b', i)
  {
    assert b[i..i + 4] == b'[i..i + 4];
  }

  lemma PeekZero(b: seq<Byte>, i: nat)
    requires i + 4 <= |b| && forall k :: i <= k < i + 4 ==> b[k] == 0
    ensures Peek(b, i) == 0
  {
    FromLeIsWord(b[i..i + 4]);
  }

  /** The pointers at `argv` lead to the words `ws`, stored at `toks` between `lo` and
      `limit` or ending at `e`. */
  ghost predicate Stored(b: seq<Byte>, argv: nat, toks: seq<nat>, ws: seq<Text>, lo: nat, limit: nat, e: nat) {
    && |toks| == |ws| && argv + 4 * |ws| <= |b|
    && forall i :: 0 <= i < |ws| ==> TokenAt(b, argv + 4 * i, toks[i], ws[i], lo, limit, e)
  }

  /** The pointer at index `p` leads to the word `w`, stored at `t`. */
  ghost predicate TokenAt(b: seq<Byte>, p: nat, t: nat, w: Text, lo: nat, limit: nat, e: nat)
    requires p + 4 <= |b|
  {
    && Peek(b, p) == Addr(t) && StrAt(b, t, w)
    && lo <= t && (t + |w| < limit || t + |w| == limit == e)
  }

  lemma TokenStays(b: seq<Byte>, b': seq<Byte>, p: nat, t: nat, w: Text, lo: nat, limit: nat, limit': nat, e: nat)
    requires p + 4 <= |b| == |b'| && TokenAt(b, p, t, w, lo, limit, e) && limit <= limit' && limit <= e
    requires forall k :: p <= k < p + 4 ==> b'[k] == b[k]
    requires forall k :: 0 <= k < |b| && (lo <= k < limit || k == e) ==> b'[k] == b[k]
    ensures TokenAt(b', p, t, w, lo, limit', e)
  {
    PeekSame(b, b', p);
  }

  /** Writing elsewhere leaves them in place. */
  lemma StoredStays(b: seq<Byte>, b': seq<Byte>, argv: nat, toks: seq<nat>, ws: seq<Text>, lo: nat, limit: nat,
      limit': nat, e: nat)
    requires Stored(b, argv, toks, ws, lo, limit, e) && |b| == |b'| && limit <= limit'
    requires forall k :: argv <= k < argv + 4 * |ws| ==> b'[k] == b[k]
    requires forall k :: 0 <= k < |b| && (lo <= k < limit || k == e) ==> b'[k] == b[k]
    requires limit <= e
    ensures Stored(b', argv, toks, ws, lo, limit', e)
  {
    forall i | 0 <= i < |ws| ensures TokenAt(b', argv + 4 * i, toks[i], ws[i], lo, limit', e) {
      TokenStays(b, b', argv + 4 * i, toks[i], ws[i], lo, limit, limit', e);
    }
  }

  lemma StoredMore(b: seq<Byte>, argv: nat, toks: seq<nat>, ws: seq<Text>, lo: nat, limit: nat, e: nat, t: nat, w: Text)
    requires Stored(b, argv, toks, ws, lo, limit, e) && argv + 4 * |ws| + 4 <= |b|
    requires TokenAt(b, argv + 4 * |ws|, t, w, lo, limit, e)
    ensures Stored(b, argv, toks + [t], ws + [w], lo, limit, e)
  {
  }

  /** The loop has cut off the words `done`; `rest` is left at `at`. */
  ghost predicate Cutting(b: seq<Byte>, argv: nat, toks: seq<nat>, done: seq<Text>, lo: nat, at: nat, rest: Text,
      e: nat) {
    lo <= at && at + |rest| == e && StrAt(b, at, rest) && Stored(b, argv, toks, done, lo, at, e)
  }

  /** One round of the loop: the next token is cut off and its address stored. */
  method StoreNext(page: array<Byte>, argv: nat, n: nat, at: nat, ghost toks: seq<nat>, ghost done: seq<Text>,
      ghost lo: nat, ghost rest: Text, ghost e: nat) returns (token: Option<nat>, save: nat, ghost w: Text)
    requires page.Length == PGSIZE && Cutting(page[..], argv, toks, done, lo, at, rest, e) && n == |done|
    requires Words(rest) != [] ==> argv + 4 * n + 4 <= lo
    modifies page
    ensures at <= save <= e && (token.None? ==> Words(rest) == [] && page[..] == old(page[..]))
    ensures token.Some? ==> Words(rest) == [w] + Words(rest[save - at..])
    ensures token.Some? ==> Cutting(page[..], argv, toks + [token.value], done + [w], lo, save, rest[save - at..], e)
    ensures forall k :: 0 <= k < PGSIZE && !(argv + 4 * n <= k < argv + 4 * n + 4) && !(at <= k < e) ==>
      page[k] == old(page[k])
  {
    ghost var b := page[..];
    token, save, w := StrtokR(page, at, rest);
    if token.Some? {
      StoredStays(b, page[..], argv, toks, done, lo, at, save, e);
      ghost var c := page[..];
      Poke(page, argv + 4 * n, Addr(token.value));
      StoredStays(c, page[..], argv, toks, done, lo, save, save, e);
      StoredMore(page[..], argv, toks, done, lo, save, e, token.value, w);
    }
  }

  /** The token loop of load: pointers to the words of the string `cmd` at `lo` are stored
      from `argv` on. */
  method StoreTokens(page: array<Byte>, lo: nat, argv: nat, ghost cmd: Text) returns (ghost toks: seq<nat>)
    requires page.Length == PGSIZE && StrAt(page[..], lo, cmd) && argv + 4 * |Words(cmd)| <= lo
    modifies page
    ensures Stored(page[..], argv, toks, Words(cmd), lo, lo + |cmd|, lo + |cmd|)
    ensures forall k :: 0 <= k < PGSIZE && !(argv <= k < argv + 4 * |Words(cmd)|) && !(lo <= k < lo + |cmd|) ==>
              page[k] == old(page[k])
  {
    toks := [];
    ghost var e, rest, done: seq<Text>, left: seq<Text> := lo + |cmd|, cmd, [], Words(cmd);
    var n: nat, save: nat := 0, lo;
    while true
      invariant |done| == n && Words(cmd) == done + left && left == Words(rest)
      invariant Cutting(page[..], argv, toks, done, lo, save, rest, e)
      invariant forall k :: 0 <= k < PGSIZE && !(argv <= k < argv + 4 * n) && !(lo <= k < e) ==> page[k] == old(page[k])
      decreases |left|
    {
      var token, next;
      ghost var w;
      token, next, w := StoreNext(page, argv, n, save, toks, done, lo, rest, e);
      if token.None? {
        StoredStays(page[..], page[..], argv, toks, done, lo, save, e, e);
        break;
      }
      toks, rest := toks + [token.value], rest[next - save..];
      Shifted(done, left, w);
      done, left := done + [w], left[1..];
      n, save := n + 1, next;
    }
  }

  lemma Shifted(done: seq<Text>, left: seq<Text>, w: Text)
    requires left != [] && left[0] == w
    ensures done + left == done + [w] + left[1..]
  {
  }

  /** How many bytes of the stack page load needs for `cmd`. */
  function StackSize(cmd: Text): nat {
    |cmd| + 1 + Gap(|cmd|) + 4 * (1 + Starts(cmd)) + 12
  }

  /** The bytes between a copied line of `len` characters and the pointers to its words. */
  function Gap(len: nat): (g: nat)
    ensures 4 < g <= 8
  {
    4 - (len + 1) % 4 + 4
  }

  /** The frame at index `esp` that main() sees: `argc` and `argv`, with `argv` pointing to
      the words `ws` followed by a null pointer. */
  ghost predicate Frame(b: seq<Byte>, esp: nat, argc: nat, ws: seq<Text>) {
    esp % 4 == 0 && FrameAt(b, esp, argc, ws)
  }

  /** Its words. */
  ghost predicate FrameAt(b: seq<Byte>, esp: nat, argc: nat, ws: seq<Text>) {
    var argv := esp + 12;
    && |b| == PGSIZE && argv + 4 * |ws| + 4 <= PGSIZE
    && Peek(b, esp + 4) == argc && Peek(b, esp + 8) == Addr(argv)
    && Pointers(b, argv, ws) && Peek(b, argv + 4 * |ws|) == 0
  }

  ghost predicate Pointers(b: seq<Byte>, argv: nat, ws: seq<Text>)
    requires argv + 4 * |ws| <= |b|
  {
    forall i :: 0 <= i < |ws| ==>
      Peek(b, argv + 4 * i) >= Addr(0) && StrAt(b, Peek(b, argv + 4 * i) - Addr(0), ws[i])
  }

  lemma StoredPointers(b: seq<Byte>, argv: nat, toks: seq<nat>, ws: seq<Text>, lo: nat, limit: nat, e: nat)
    requires Stored(b, argv, toks, ws, lo, limit, e)
    ensures Pointers(b, argv, ws)
  {
    forall i | 0 <= i < |ws|
      ensures Peek(b, argv + 4 * i) >= Addr(0) && StrAt(b, Peek(b, argv + 4 * i) - Addr(0), ws[i])
    {
      assert TokenAt(b, argv + 4 * i, toks[i], ws[i], lo, limit, e);
    }
  }

  /** strlcpy of the command line to the stack. */
  method CopyString(page: array<Byte>, at: nat, cmd: Text)
    requires at + |cmd| < page.Length && forall i :: 0 <= i < |cmd| ==> cmd[i] != 0
    modifies page
    ensures StrAt(page[..], at, cmd)
    ensures forall k :: 0 <= k < page.Length && !(at <= k <= at + |cmd|) ==> page[k] == old(page[k])
  {
    for i := 0 to |cmd|
      invariant forall k :: at <= k < at + i ==> page[k] == cmd[k - at]
      invariant forall k :: 0 <= k < page.Length && !(at <= k < at + i) ==> page[k] == old(page[k])
    {
      page[at + i] := cmd[i];
    }
    page[at + |cmd|] := 0;
  }

  /** The stack frame that load builds in the zeroed stack page; `esp` is its index. */
  method BuildStack(page: array<Byte>, cmd: Text) returns (esp: nat)
    requires page.Length == PGSIZE && (forall k :: 0 <= k < PGSIZE ==> page[k] == 0)
    requires Tidy(cmd) && (forall i :: 0 <= i < |cmd| ==> cmd[i] != 0) && StackSize(cmd) <= PGSIZE
    modifies page
    ensures Frame(page[..], esp, if Words(cmd) == [] then 1 else |Words(cmd)|, Words(cmd))
    ensures esp + StackSize(cmd) == PGSIZE
  {
    StartsAreWords(cmd);
    esp := PGSIZE - (|cmd| + 1);
    CopyString(page, esp, cmd);
    var lo := esp;
    var n := CountArgs(page, lo, cmd);
    var gap := Gap(|cmd|);
    assert (lo - gap - 4 * n - 12) % 4 == 0 by { Aligned(|cmd|, n, lo - gap - 4 * n - 12); }
    esp := esp - gap;
    esp := esp - 4 * n;
    ghost var toks := StoreTokens(page, lo, esp, cmd);
    esp := PushArgs(page, esp, n, toks, Words(cmd), lo, lo + |cmd|);
  }

  /** The last part of load's frame: argv, argc and the place of a return address. */
  method PushArgs(page: array<Byte>, argv: nat, n: nat, ghost toks: seq<nat>, ghost ws: seq<Text>, ghost lo: nat,
      ghost e: nat) returns (esp: nat)
    requires page.Length == PGSIZE && 12 <= argv && lo <= e < PGSIZE && argv + 4 * |ws| + 4 <= lo
    requires Stored(page[..], argv, toks, ws, lo, e, e) && n < B32
    requires forall k :: argv + 4 * |ws| <= k < lo ==> page[k] == 0
    modifies page
    ensures esp == argv - 12 && FrameAt(page[..], esp, n, ws)
  {
    ghost var b := page[..];
    esp := argv - 4;
    Poke(page, esp, Addr(argv));
    ghost var c := page[..];
    esp := esp - 4;
    Poke(page, esp, n);
    esp := esp - 4;
    PeekSame(c, page[..], esp + 8);
    assert forall k :: argv <= k < PGSIZE ==> page[..][k] == b[k];
    PointersStay(b, page[..], argv, toks, ws, lo, e);
    NullStays(b, page[..], argv + 4 * |ws|, argv);
    FrameDone(page[..], esp, argv, n, ws);
  }

  lemma FrameDone(b: seq<Byte>, esp: nat, argv: nat, argc: nat, ws: seq<Text>)
    requires |b| == PGSIZE && argv == esp + 12 && argv + 4 * |ws| + 4 <= PGSIZE
    requires Peek(b, esp + 4) == argc && Peek(b, esp + 8) == Addr(argv)
    requires Pointers(b, argv, ws) && Peek(b, argv + 4 * |ws|) == 0
    ensures FrameAt(b, esp, argc, ws)
  {
  }

  lemma Aligned(len: nat, n: nat, esp: int)
    requires esp == PGSIZE - (len + 1) - Gap(len) - 4 * n - 12
    ensures esp % 4 == 0
  {
    var q := (len + 1) / 4;
    assert len + 1 == 4 * q + (len + 1) % 4;
    assert esp == 4 * (1024 - q - 5 - n);
  }

  /** The pointers survive the last two pushes, which write below `argv`. */
  lemma PointersStay(b: seq<Byte>, b': seq<Byte>, argv: nat, toks: seq<nat>, ws: seq<Text>, lo: nat, e: nat)
    requires |b| == |b'| == PGSIZE && lo <= e < PGSIZE && argv + 4 * |ws| <= lo
    requires Stored(b, argv, toks, ws, lo, e, e) && forall k :: argv <= k < PGSIZE ==> b'[k] == b[k]
    ensures Pointers(b', argv, ws)
  {
    StoredStays(b, b', argv, toks, ws, lo, e, e, e);
    StoredPointers(b', argv, toks, ws, lo, e, e);
  }

  /** So does the null pointer behind them. */
  lemma NullStays(b: seq<Byte>, b': seq<Byte>, at: nat, argv: nat)
    requires |b| == |b'| && argv <= at && at + 4 <= |b| && forall k :: argv <= k < |b| ==> b'[k] == b[k]
    requires forall k :: at <= k < at + 4 ==> b[k] == 0
    ensures Peek(b', at) == 0
  {
    PeekZero(b', at);
  }

  // ----- from the command line to the stack

  lemma {:induction false} SqueezeKeepsText(s: Text, prev: bool)
    requires forall i :: 0 <= i < |s| ==> s[i] != 0
    ensures forall i :: 0 <= i < |Squeeze(s, prev)| ==> Squeeze(s, prev)[i] != 0
  {
    if s != [] {
      SqueezeKeepsText(s[1..], s[0] == SPACE);
    }
  }

  /** The string in a buffer, up to its first zero byte. */
  method ReadString(buf: array<Byte>, ghost s: Text) returns (r: Text)
    requires |s| < buf.Length && buf[..] == Padded(s, buf.Length) && forall i :: 0 <= i < |s| ==> s[i] != 0
    ensures r == s
  {
    r := [];
    assert forall k :: 0 <= k < buf.Length ==> buf[k] == buf[..][k];
    while buf[|r|] != 0
      invariant |r| <= |s| && r == s[..|r|]
      decreases |s| - |r|
    {
      r := r + [buf[|r|]];
    }
  }

  /** process_execute and load together: whatever the spaces in the command line, main() gets
      exactly its words, and argc is their number if there is one. */
  method PassArguments(cmd: Text, page: array<Byte>) returns (esp: nat)
    requires page.Length == PGSIZE && (forall k :: 0 <= k < PGSIZE ==> page[k] == 0)
    requires (forall i :: 0 <= i < |cmd| ==> cmd[i] != 0) && StackSize(Squeeze(cmd, true)) <= PGSIZE
    modifies page
    ensures Frame(page[..], esp, if Words(cmd) == [] then 1 else |Words(cmd)|, Words(cmd))
  {
    var buf := new Byte[|cmd| + 1];
    CopyString(buf, 0, cmd);
    assert buf[..] == cmd + [0];
    SqueezeInPlace(buf, cmd);
    SqueezeKeepsText(cmd, true);
    var line := ReadString(buf, Squeeze(cmd, true));
    SqueezeKeepsWords(cmd, true);
    SqueezeIsTidy(cmd, true);
    esp := BuildStack(page, line);
  }
}
