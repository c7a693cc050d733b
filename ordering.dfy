/** The order in which Python's `sorted()` lists strings: lexicographic by
    code point, a proper prefix before any of its extensions. */
module Ordering {

  /** `a < b` on strings. */
  predicate Below(a: string, b: string)
    decreases |a|
  {
    if a == [] then b != []
    else b != [] && (a[0] < b[0] || (a[0] == b[0] && Below(a[1..], b[1..])))
  }

  lemma {:induction false} BelowAsymmetric(a: string, b: string)
    ensures !(Below(a, b) && Below(b, a))
    decreases |a|
  {
    if a != [] && b != [] && a[0] == b[0] {
      BelowAsymmetric(a[1..], b[1..]);
    }
  }

  lemma {:induction false} BelowTransitive(a: string, b: string, c: string)
    requires Below(a, b) && Below(b, c)
    ensures Below(a, c)
    decreases |a|
  {
    if a != [] && a[0] == b[0] && b[0] == c[0] {
      BelowTransitive(a[1..], b[1..], c[1..]);
    }
  }

  /** Any two different strings are ordered one way or the other. */
  lemma {:induction false} BelowTotal(a: string, b: string)
    ensures a == b || Below(a, b) || Below(b, a)
    decreases |a|
  {
    if a != [] && b != [] && a[0] == b[0] {
      BelowTotal(a[1..], b[1..]);
      if a[1..] == b[1..] {
        assert a == [a[0]] + a[1..] && b == [b[0]] + b[1..];
      }
    }
  }

  /** Every non-empty set of strings has a least element. */
  lemma {:induction false} LeastExists(s: set<string>)
    requires s != {}
    ensures exists m :: m in s && forall x :: x in s && x != m ==> Below(m, x)
    decreases |s|
  {
    var y :| y in s;
    var rest := s - {y};
    if rest == {} {
      assert forall x :: x in s && x != y ==> x in rest;
      assert y in s && forall x :: x in s && x != y ==> Below(y, x);
    } else {
      LeastExists(rest);
      var m :| m in rest && forall x :: x in rest && x != m ==> Below(m, x);
      BelowTotal(y, m);
      if Below(y, m) {
        forall x | x in s && x != y
          ensures Below(y, x)
        {
          if x != m {
            BelowTransitive(y, m, x);
          }
        }
      } else {
        assert m in s && forall x :: x in s && x != m ==> Below(m, x);
      }
    }
  }

  lemma BelowAsymmetricAll()
    ensures forall a, b :: !(Below(a, b) && Below(b, a))
  {
    forall a, b
      ensures !(Below(a, b) && Below(b, a))
    {
      BelowAsymmetric(a, b);
    }
  }

  /** Each element is below every element after it. */
  predicate StrictlySorted(r: seq<string>) {
    forall i, j :: 0 <= i < j < |r| ==> Below(r[i], r[j])
  }

  /** The least element of a non-empty set of strings. */
  function Least(s: set<string>): (m: string)
    requires s != {}
    ensures m in s && forall x :: x in s && x != m ==> Below(m, x)
  {
    LeastExists(s);
    BelowAsymmetricAll();
    var m :| m in s && forall x :: x in s && x != m ==> Below(m, x);
    m
  }

  /** `sorted(s)` for a set of strings: its elements, each once, in
      increasing order. */
  function SortedList(s: set<string>): (r: seq<string>)
    ensures StrictlySorted(r)
    ensures forall x :: x in r <==> x in s
    ensures |r| == |s|
    decreases |s|
  {
    if s == {} then []
    else
      var m := Least(s);
      var rest := SortedList(s - {m});
      assert forall i :: 0 <= i < |rest| ==> rest[i] in s - {m};
      LeastFirst(m, rest);
      [m] + rest
  }

  lemma LeastFirst(m: string, rest: seq<string>)
    requires StrictlySorted(rest)
    requires forall i :: 0 <= i < |rest| ==> Below(m, rest[i])
    ensures StrictlySorted([m] + rest)
  {
    var r := [m] + rest;
    forall i, j | 0 <= i < j < |r|
      ensures Below(r[i], r[j])
    {
      if i == 0 {
        assert r[j] == rest[j - 1];
      } else {
        assert r[i] == rest[i - 1] && r[j] == rest[j - 1];
      }
    }
  }

  /** A set has exactly one strictly sorted listing, so `SortedList` is the
      only possible answer of `sorted()`. */
  lemma {:induction false} SortedUnique(r: seq<string>, r': seq<string>)
    requires StrictlySorted(r) && StrictlySorted(r')
    requires forall x :: x in r <==> x in r'
    ensures r == r'
    decreases |r|
  {
    if r != [] {
      assert r[0] in r;
    }
    if r' != [] {
      assert r'[0] in r';
    }
    if r != [] && r' != [] {
      var i :| 0 <= i < |r'| && r'[i] == r[0];
      var j :| 0 <= j < |r| && r[j] == r'[0];
      BelowAsymmetric(r[0], r'[0]);
      assert i == 0 || j == 0;
      assert r[0] == r'[0];
      forall x
        ensures x in r[1..] <==> x in r'[1..]
      {
        if x in r[1..] {
          var p :| 1 <= p < |r| && r[p] == x;
          assert x in r';
          var q :| 0 <= q < |r'| && r'[q] == x;
          BelowAsymmetric(x, x);
          assert q != 0;
          assert r'[1..][q - 1] == x;
        }
        if x in r'[1..] {
          var p :| 1 <= p < |r'| && r'[p] == x;
          assert x in r;
          var q :| 0 <= q < |r| && r[q] == x;
          BelowAsymmetric(x, x);
          assert q != 0;
          assert r[1..][q - 1] == x;
        }
      }
      SortedUnique(r[1..], r'[1..]);
      assert r == [r[0]] + r[1..] && r' == [r'[0]] + r'[1..];
    }
  }
}
