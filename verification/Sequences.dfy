/** Sequences without repetition. */
module Sequences {
  /** No element occurs twice. */
  ghost predicate NoDup<A>(s: seq<A>) {
    forall i, j :: 0 <= i < j < |s| ==> s[i] != s[j]
  }

  /** The same by recursion, which the solver unfolds only on demand. */
  ghost predicate Distinct<A>(s: seq<A>) {
    s == [] || (s[0] !in s[1..] && Distinct(s[1..]))
  }

  lemma {:induction false} DistinctPairs<A>(s: seq<A>)
    ensures Distinct(s) <==> NoDup(s)
  {
    if s != [] {
      var t := s[1..];
      DistinctPairs(t);
      assert forall i :: 0 <= i < |t| ==> t[i] == s[i + 1];
      if Distinct(s) {
        forall i, j | 0 <= i < j < |s| ensures s[i] != s[j] {
          assert s[j] == t[j - 1] && (i > 0 ==> s[i] == t[i - 1]);
        }
      } else if s[0] !in t {
        var i, j :| 0 <= i < j < |t| && t[i] == t[j];
        assert s[i + 1] == s[j + 1];
      }
    }
  }
}
