/** The order in which redb keeps `&str` keys: byte-wise lexicographic order of
    their UTF-8 encoding, which is the lexicographic order of their code points.
    Range iteration over a table visits keys in this order. */
module KeyOrder {

  /** `a` sorts no later than `b`: a prefix sorts first, and otherwise the
      first differing character decides. */
  predicate LexLe(a: string, b: string)
    ensures a <= b ==> LexLe(a, b)
    ensures LexLe(a, b) && a != [] ==> b != [] && a[0] <= b[0]
    decreases |a|
  {
    a == [] || (b != [] && (a[0] < b[0] || (a[0] == b[0] && LexLe(a[1..], b[1..]))))
  }

  lemma {:induction false} LexLeReflexive(a: string)
    ensures LexLe(a, a)
    decreases |a|
  {
    if a != [] {
      LexLeReflexive(a[1..]);
    }
  }

  lemma {:induction false} LexLeTotal(a: string, b: string)
    ensures LexLe(a, b) || LexLe(b, a)
    decreases |a|
  {
    if a != [] && b != [] && a[0] == b[0] {
      LexLeTotal(a[1..], b[1..]);
    }
  }

  lemma {:induction false} LexLeAntisymmetric(a: string, b: string)
    requires LexLe(a, b) && LexLe(b, a)
    ensures a == b
    decreases |a|
  {
    if a != [] {
      LexLeAntisymmetric(a[1..], b[1..]);
      assert a == [a[0]] + a[1..] && b == [b[0]] + b[1..];
    }
  }

  lemma {:induction false} LexLeTransitive(a: string, b: string, c: string)
    requires LexLe(a, b) && LexLe(b, c)
    ensures LexLe(a, c)
    decreases |a|
  {
    if a != [] && a[0] == b[0] && b[0] == c[0] {
      LexLeTransitive(a[1..], b[1..], c[1..]);
    }
  }

  /** `k` is the first key of `s` in key order. */
  predicate IsLeast(k: string, s: set<string>) {
    k in s && forall x :: x in s ==> LexLe(k, x)
  }

  /** Every non-empty set of keys has a first key. */
  lemma {:induction false} LeastExists(s: set<string>)
    requires s != {}
    ensures exists k :: IsLeast(k, s)
    decreases |s|
  {
    var x :| x in s;
    if s == {x} {
      LexLeReflexive(x);
      assert IsLeast(x, s);
    } else {
      LeastExists(s - {x});
      var m :| IsLeast(m, s - {x});
      LexLeTotal(x, m);
      if LexLe(x, m) {
        forall y | y in s
          ensures LexLe(x, y)
        {
          if y == x {
            LexLeReflexive(x);
          } else {
            LexLeTransitive(x, m, y);
          }
        }
        assert IsLeast(x, s);
      } else {
        assert IsLeast(m, s);
      }
    }
  }

  /** Strictly increasing in key order (so also free of duplicates). */
  ghost predicate Ascending(ks: seq<string>) {
    forall i, j :: 0 <= i < j < |ks| ==> LexLe(ks[i], ks[j]) && ks[i] != ks[j]
  }

  /** The keys of `s` in the order a full range scan yields them. */
  ghost function SortedKeys(s: set<string>): (ks: seq<string>)
    ensures |ks| == |s|
    ensures forall k :: k in ks <==> k in s
    ensures Ascending(ks)
    decreases |s|
  {
    if s == {} then []
    else
      LeastExists(s);
      var k :| IsLeast(k, s);
      var rest := SortedKeys(s - {k});
      AscendingCons(k, s, rest);
      [k] + rest
  }

  /** Putting the least key of `s` in front of an ascending sequence of the
      other keys keeps it ascending. */
  lemma AscendingCons(k: string, s: set<string>, rest: seq<string>)
    requires IsLeast(k, s) && Ascending(rest)
    requires forall x :: x in rest <==> x in s - {k}
    ensures Ascending([k] + rest)
    ensures forall x :: x in [k] + rest <==> x in s
  {
    var ks := [k] + rest;
    forall i, j | 0 <= i < j < |ks|
      ensures LexLe(ks[i], ks[j]) && ks[i] != ks[j]
    {
      assert ks[j] == rest[j - 1];
      if i > 0 {
        assert ks[i] == rest[i - 1];
      } else {
        assert ks[j] in rest;
      }
    }
  }

  /** Two ascending sequences with the same elements are equal: the scan order
      is determined by the set of keys alone. */
  lemma {:induction false} AscendingUnique(xs: seq<string>, ys: seq<string>)
    requires Ascending(xs) && Ascending(ys)
    requires forall k :: k in xs <==> k in ys
    ensures xs == ys
    decreases |xs|
  {
    if ys != [] {
      assert ys[0] in ys;
    }
    if xs != [] {
      assert xs[0] in xs;
      var i :| 0 <= i < |ys| && ys[i] == xs[0];
      assert ys[0] in xs;
      var j :| 0 <= j < |xs| && xs[j] == ys[0];
      if i != 0 {
        assert LexLe(ys[0], ys[i]);
      }
      if j != 0 {
        assert LexLe(xs[0], xs[j]);
        if i == 0 {
          assert false;
        }
      }
      LexLeReflexive(xs[0]);
      if i != 0 && j != 0 {
        LexLeAntisymmetric(xs[0], ys[0]);
      }
      assert xs[0] == ys[0];
      forall k
        ensures k in xs[1..] <==> k in ys[1..]
      {
        if k in xs[1..] {
          var a :| 1 <= a < |xs| && xs[a] == k;
          assert k != xs[0] && k in xs && k in ys;
          var b :| 0 <= b < |ys| && ys[b] == k;
          assert b != 0;
        }
        if k in ys[1..] {
          var b :| 1 <= b < |ys| && ys[b] == k;
          assert k != ys[0] && k in ys && k in xs;
          var a :| 0 <= a < |xs| && xs[a] == k;
          assert a != 0;
        }
      }
      AscendingUnique(xs[1..], ys[1..]);
      assert xs == [xs[0]] + xs[1..] && ys == [ys[0]] + ys[1..];
    }
  }

  /** A scan starts at the first key and goes on with the scan of the rest. */
  lemma SortedKeysFirst(s: set<string>, k: string)
    requires IsLeast(k, s)
    ensures SortedKeys(s) == [k] + SortedKeys(s - {k})
  {
    var rest := SortedKeys(s - {k});
    var ks := [k] + rest;
    AscendingCons(k, s, rest);
    assert forall x :: x in ks <==> x in SortedKeys(s);
    AscendingUnique(ks, SortedKeys(s));
  }
}
