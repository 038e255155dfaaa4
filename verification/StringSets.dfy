/**
 `std::set<std::string>`: a list kept strictly increasing in the order of `std::string`.
 A set of strings has exactly one such list, so the order in which strings were
 inserted cannot be seen in it.
 */
module StringSets {

  predicate Less(a: string, b: string) {
    if b == "" then false
    else if a == "" then true
    else if a[0] != b[0] then a[0] < b[0]
    else Less(a[1..], b[1..])
  }

  lemma {:induction false} LessIsStrict(a: string)
    ensures !Less(a, a)
  {
    if a != "" {
      LessIsStrict(a[1..]);
    }
  }

  lemma {:induction false} LessIsTotal(a: string, b: string)
    ensures a == b || Less(a, b) || Less(b, a)
  {
    if a != "" && b != "" && a[0] == b[0] {
      LessIsTotal(a[1..], b[1..]);
      assert a == [a[0]] + a[1..] && b == [b[0]] + b[1..];
    }
  }

  lemma {:induction false} LessIsTransitive(a: string, b: string, c: string)
    requires Less(a, b) && Less(b, c)
    ensures Less(a, c)
  {
    if a != "" && a[0] == b[0] && b[0] == c[0] {
      LessIsTransitive(a[1..], b[1..], c[1..]);
    }
  }

  ghost predicate Increasing(v: seq<string>) {
    forall i, j :: 0 <= i < j < |v| ==> Less(v[i], v[j])
  }

  /** Two increasing lists of the same strings are the same list. */
  lemma {:induction false} OneOrder(v: seq<string>, w: seq<string>)
    requires Increasing(v) && Increasing(w)
    requires forall x :: x in v <==> x in w
    ensures v == w
  {
    if v == [] {
      EmptyOrMember(w);
    } else {
      assert v[0] in w;
      assert w[0] in v;
      FirstIsLeast(v, w[0]);
      FirstIsLeast(w, v[0]);
      if v[0] != w[0] {
        LessIsTransitive(v[0], w[0], v[0]);
        LessIsStrict(v[0]);
        assert false;
      }
      TailMembers(v, w);
      OneOrder(v[1..], w[1..]);
      assert v == [v[0]] + v[1..] && w == [w[0]] + w[1..];
    }
  }

  lemma EmptyOrMember(w: seq<string>)
    ensures w == [] || exists x :: x in w
  {
    if w != [] {
      assert w[0] in w;
    }
  }

  lemma FirstIsLeast(v: seq<string>, x: string)
    requires Increasing(v) && x in v
    ensures x == v[0] || Less(v[0], x)
  {
    var i :| 0 <= i < |v| && v[i] == x;
  }

  lemma TailMembers(v: seq<string>, w: seq<string>)
    requires Increasing(v) && Increasing(w) && v != [] && w != [] && v[0] == w[0]
    requires forall x :: x in v <==> x in w
    ensures forall x :: x in v[1..] <==> x in w[1..]
  {
    LessIsStrict(v[0]);
    forall x
      ensures x in v[1..] <==> x in v && x != v[0]
      ensures x in w[1..] <==> x in w && x != w[0]
    {
      assert v == [v[0]] + v[1..] && w == [w[0]] + w[1..];
    }
  }

  /** `std::set::insert`. */
  function Insert(v: seq<string>, x: string): seq<string> {
    if v == [] then [x]
    else if x == v[0] then v
    else if Less(x, v[0]) then [x] + v
    else [v[0]] + Insert(v[1..], x)
  }

  lemma {:induction false} InsertKeepsOrder(v: seq<string>, x: string)
    requires Increasing(v)
    ensures Increasing(Insert(v, x))
    ensures forall y :: y in Insert(v, x) <==> y in v || y == x
  {
    if v == [] || x == v[0] {
    } else if Less(x, v[0]) {
      forall i | 0 <= i < |v|
        ensures Less(x, v[i])
      {
        if i > 0 {
          LessIsTransitive(x, v[0], v[i]);
        }
      }
    } else {
      LessIsTotal(x, v[0]);
      InsertKeepsOrder(v[1..], x);
      assert v == [v[0]] + v[1..];
      var tail := Insert(v[1..], x);
      forall i | 0 <= i < |tail|
        ensures Less(v[0], tail[i])
      {
        assert tail[i] in tail;
        if tail[i] != x {
          var k :| 0 <= k < |v[1..]| && v[1..][k] == tail[i];
          assert v[1 + k] == tail[i];
        }
      }
    }
  }

  /** The elements of a finite set in iteration order. */
  ghost function InOrder(s: set<string>): (v: seq<string>)
    ensures Increasing(v)
    ensures forall x :: x in v <==> x in s
  {
    if s == {} then []
    else
      var x :| x in s;
      InsertKeepsOrder(InOrder(s - {x}), x);
      Insert(InOrder(s - {x}), x)
  }

  /** The list written by the loop that puts a comma before every element but the first. */
  function JoinComma(v: seq<string>): string {
    if v == [] then ""
    else
      var before := JoinComma(v[..|v| - 1]);
      (if before == "" then "" else before + ",") + v[|v| - 1]
  }

  // ---- What the order and the list mean ----------------------------------------------------

  /** The order of `std::string`: by the first difference, a proper prefix before the longer text. */
  lemma {:induction false} LessIff(a: string, b: string)
    ensures Less(a, b) <==>
              exists k :: 0 <= k <= |a| && k < |b| && a[..k] == b[..k] && (k == |a| || a[k] < b[k])
  {
    if Less(a, b) {
      if a != "" && a[0] == b[0] {
        LessIff(a[1..], b[1..]);
        var k :| 0 <= k <= |a| - 1 && k < |b| - 1 && a[1..][..k] == b[1..][..k]
                 && (k == |a| - 1 || a[1..][k] < b[1..][k]);
        PrefixGrows(a, b, k);
      } else {
        assert a[..0] == b[..0];
      }
    }
    if k :| 0 <= k <= |a| && k < |b| && a[..k] == b[..k] && (k == |a| || a[k] < b[k]) {
      if k > 0 {
        assert a[..k][0] == b[..k][0];
        LessIff(a[1..], b[1..]);
        assert a[1..][..k - 1] == a[..k][1..] && b[1..][..k - 1] == b[..k][1..];
      }
    }
  }

  lemma PrefixGrows(a: string, b: string, k: nat)
    requires a != "" && b != "" && a[0] == b[0] && k + 1 <= |a| && k + 1 <= |b|
    requires a[1..][..k] == b[1..][..k]
    ensures a[..k + 1] == b[..k + 1]
  {
    assert a[..k + 1] == [a[0]] + a[1..][..k] && b[..k + 1] == [b[0]] + b[1..][..k];
  }

  /** The pieces of a text between its commas. */
  function AtCommas(s: string): (r: seq<string>)
    ensures r != []
  {
    if s == "" then [""]
    else
      var before, c := AtCommas(s[..|s| - 1]), s[|s| - 1];
      if c == ',' then before + [""] else before[..|before| - 1] + [before[|before| - 1] + [c]]
  }

  predicate Listable(v: seq<string>) {
    forall x :: x in v ==> x != "" && ',' !in x
  }

  lemma {:induction false} AtCommasAppend(s: string, x: string)
    requires ',' !in x
    ensures var r := AtCommas(s); AtCommas(s + x) == r[..|r| - 1] + [r[|r| - 1] + x]
  {
    var r := AtCommas(s);
    if x == "" {
      assert s + x == s && r[|r| - 1] + x == r[|r| - 1];
    } else {
      var n := |x| - 1;
      AtCommasAppend(s, x[..n]);
      assert (s + x)[..|s + x| - 1] == s + x[..n] && x == x[..n] + [x[n]] && x[n] in x;
      var y := AtCommas(s + x[..n]);
      assert y[..|y| - 1] == r[..|r| - 1];
      assert r[|r| - 1] + x == (r[|r| - 1] + x[..n]) + [x[n]];
    }
  }

  /** A list of non-empty texts without commas is recovered by cutting the joined text at its commas. */
  lemma {:induction false} JoinCommaBack(v: seq<string>)
    requires v != [] && Listable(v)
    ensures JoinComma(v) != "" && AtCommas(JoinComma(v)) == v
  {
    var n := |v| - 1;
    assert v[n] in v;
    if n == 0 {
      assert JoinComma(v) == "" + v[0] && "" + v[0] == v[0];
      AtCommasAppend("", v[0]);
      assert v == [v[0]];
    } else {
      assert forall x :: x in v[..n] ==> x in v;
      JoinCommaBack(v[..n]);
      var s := JoinComma(v[..n]) + ",";
      assert s[..|s| - 1] == JoinComma(v[..n]);
      AtCommasAppend(s, v[n]);
      var r := AtCommas(s);
      assert r == v[..n] + [""] && r[..n] == v[..n] && "" + v[n] == v[n];
      assert v == v[..n] + [v[n]];
    }
  }
}
