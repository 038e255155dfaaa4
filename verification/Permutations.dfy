/** Taking one element out of two permutations of each other. */
module Permutations {
  lemma DropOne<T>(s: seq<T>, t: seq<T>, j: nat)
    requires s != [] && j < |t| && t[j] == s[|s| - 1]
    requires multiset(s) == multiset(t)
    ensures multiset(s[..|s| - 1]) == multiset(t[..j] + t[j + 1..])
  {
    var x, a, b, c := t[j], s[..|s| - 1], t[..j], t[j + 1..];
    assert s == a + [x];
    assert t == b + [x] + c;
    assert multiset(s) == multiset(a) + multiset{x};
    assert multiset(t) == multiset(b + c) + multiset{x};
    assert multiset(a) == multiset(s) - multiset{x};
    assert multiset(b + c) == multiset(t) - multiset{x};
  }

  /** Where the last element of `s` is in its permutation `t`. */
  lemma FindLast<T>(s: seq<T>, t: seq<T>) returns (j: nat)
    requires s != [] && multiset(s) == multiset(t)
    ensures j < |t| && t[j] == s[|s| - 1]
  {
    assert s[|s| - 1] in multiset(t);
    j :| 0 <= j < |t| && t[j] == s[|s| - 1];
  }
}
