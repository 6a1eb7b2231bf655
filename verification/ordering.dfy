/**
 Python's ordering of `str` values and `sorted()` applied to a set of them.

 Strings compare lexicographically by code point, and a proper prefix sorts
 before the longer string. `Sorted` lists a finite set in that order, each
 element once, which is what `sorted(packages)` yields for a set.
 */
module Ordering {

  /** Python's `a <= b` on strings. */
  predicate Below(a: string, b: string)
    decreases |a|
  {
    |a| == 0 || (|b| > 0 && (a[0] < b[0] || (a[0] == b[0] && Below(a[1..], b[1..]))))
  }

  lemma {:induction false} BelowReflexive(a: string)
    ensures Below(a, a)
    decreases |a|
  {
    if |a| > 0 {
      BelowReflexive(a[1..]);
    }
  }

  lemma {:induction false} BelowAntisymmetric(a: string, b: string)
    requires Below(a, b) && Below(b, a)
    ensures a == b
    decreases |a|
  {
    if |a| > 0 {
      BelowAntisymmetric(a[1..], b[1..]);
      assert a == [a[0]] + a[1..];
      assert b == [b[0]] + b[1..];
    }
  }

  lemma {:induction false} BelowTransitive(a: string, b: string, c: string)
    requires Below(a, b) && Below(b, c)
    ensures Below(a, c)
    decreases |a|
  {
    if |a| > 0 && a[0] == b[0] && b[0] == c[0] {
      BelowTransitive(a[1..], b[1..], c[1..]);
    }
  }

  lemma {:induction false} BelowTotal(a: string, b: string)
    ensures Below(a, b) || Below(b, a)
    decreases |a|
  {
    if |a| > 0 && |b| > 0 && a[0] == b[0] {
      BelowTotal(a[1..], b[1..]);
    }
  }

  /**
   `Below` is Python's comparison: `a` is a prefix of `b`, or at the first
   position where they differ `a` has the smaller code point.
   */
  lemma {:induction false} BelowMeansLexicographic(a: string, b: string)
    ensures Below(a, b) <==>
      a <= b || exists k :: 0 <= k < |a| && k < |b| && a[..k] == b[..k] && a[k] < b[k]
    decreases |a|
  {
    if |a| > 0 && |b| > 0 {
      BelowMeansLexicographic(a[1..], b[1..]);
      if a[0] == b[0] {
        assert a <= b <==> a[1..] <= b[1..] by {
          assert a == [a[0]] + a[1..];
          assert b == [b[0]] + b[1..];
        }
        if exists k :: 0 <= k < |a[1..]| && k < |b[1..]| && a[1..][..k] == b[1..][..k] && a[1..][k] < b[1..][k] {
          var k :| 0 <= k < |a[1..]| && k < |b[1..]| && a[1..][..k] == b[1..][..k] && a[1..][k] < b[1..][k];
          assert a[..k + 1] == [a[0]] + a[1..][..k];
          assert b[..k + 1] == [b[0]] + b[1..][..k];
          assert a[k + 1] < b[k + 1];
        }
        if exists k :: 0 <= k < |a| && k < |b| && a[..k] == b[..k] && a[k] < b[k] {
          var k :| 0 <= k < |a| && k < |b| && a[..k] == b[..k] && a[k] < b[k];
          assert k > 0;
          assert a[1..][..k - 1] == a[..k][1..];
          assert b[1..][..k - 1] == b[..k][1..];
          assert a[1..][k - 1] < b[1..][k - 1];
        }
      } else if a[0] < b[0] {
        assert a[..0] == b[..0];
      }
    }
  }

  /** Each element is strictly below the ones after it: sorted and without repeats. */
  predicate StrictlyAscending(xs: seq<string>) {
    forall i, j :: 0 <= i < j < |xs| ==> Below(xs[i], xs[j]) && xs[i] != xs[j]
  }

  /** m is the smallest element of s. */
  predicate IsLeast(m: string, s: set<string>) {
    m in s && forall y :: y in s ==> Below(m, y)
  }

  lemma {:induction false} LeastExists(s: set<string>)
    requires s != {}
    ensures exists m :: IsLeast(m, s)
    decreases |s|
  {
    var x :| x in s;
    if s == {x} {
      BelowReflexive(x);
      assert IsLeast(x, s);
    } else {
      var rest := s - {x};
      assert rest != {} by {
        var y :| y in s && y != x;
        assert y in rest;
      }
      LeastExists(rest);
      var m :| IsLeast(m, rest);
      BelowTotal(x, m);
      if Below(x, m) {
        BelowReflexive(x);
        forall y | y in s
          ensures Below(x, y)
        {
          if y != x {
            BelowTransitive(x, m, y);
          }
        }
        assert IsLeast(x, s);
      } else {
        assert IsLeast(m, s);
      }
    }
  }

  lemma LeastUnique(s: set<string>)
    ensures forall a, b :: IsLeast(a, s) && IsLeast(b, s) ==> a == b
  {
    forall a, b | IsLeast(a, s) && IsLeast(b, s)
      ensures a == b
    {
      BelowAntisymmetric(a, b);
    }
  }

  /** The smallest element of a non-empty set. */
  function Least(s: set<string>): (m: string)
    requires s != {}
    ensures IsLeast(m, s)
  {
    LeastExists(s);
    LeastUnique(s);
    var m :| IsLeast(m, s);
    m
  }

  /** `sorted(s)` for a set of strings: the least element first, then the rest sorted. */
  function Sorted(s: set<string>): seq<string>
    decreases |s|
  {
    if s == {} then []
    else
      var m := Least(s);
      [m] + Sorted(s - {m})
  }

  /** `Sorted(s)` lists every element of s once, in ascending order, and nothing else. */
  lemma {:induction false} SortedListing(s: set<string>)
    ensures forall x :: x in Sorted(s) <==> x in s
    ensures StrictlyAscending(Sorted(s))
    ensures |Sorted(s)| == |s|
    decreases |s|
  {
    if s != {} {
      var m := Least(s);
      var rest := s - {m};
      SortedListing(rest);
      var xs := Sorted(s);
      assert xs == [m] + Sorted(rest);
      forall i, j | 0 <= i < j < |xs|
        ensures Below(xs[i], xs[j]) && xs[i] != xs[j]
      {
        if i == 0 {
          assert xs[j] == Sorted(rest)[j - 1];
          assert xs[j] in rest;
        } else {
          assert xs[i] == Sorted(rest)[i - 1] && xs[j] == Sorted(rest)[j - 1];
        }
      }
    }
  }

  /** There is only one strictly ascending listing of a set, so `Sorted` is it. */
  lemma {:induction false} AscendingListingUnique(xs: seq<string>, ys: seq<string>)
    requires StrictlyAscending(xs) && StrictlyAscending(ys)
    requires forall x :: x in xs <==> x in ys
    ensures xs == ys
    decreases |xs|
  {
    assert |xs| > 0 ==> xs[0] in ys;
    assert |ys| > 0 ==> ys[0] in xs;
    if |xs| > 0 && |ys| > 0 {
      if xs[0] != ys[0] {
        assert ys[0] in xs;
        var i :| 0 <= i < |xs| && xs[i] == ys[0];
        assert xs[0] in ys;
        var j :| 0 <= j < |ys| && ys[j] == xs[0];
        assert Below(xs[0], ys[0]) && Below(ys[0], xs[0]);
        BelowAntisymmetric(xs[0], ys[0]);
      }
      forall x
        ensures x in xs[1..] <==> x in ys[1..]
      {
        if x in xs[1..] {
          var i :| 1 <= i < |xs| && xs[i] == x;
          assert x != xs[0];
          assert x in ys;
        }
        if x in ys[1..] {
          var j :| 1 <= j < |ys| && ys[j] == x;
          assert x != ys[0];
          assert x in xs;
        }
      }
      AscendingListingUnique(xs[1..], ys[1..]);
      assert xs == [xs[0]] + xs[1..];
      assert ys == [ys[0]] + ys[1..];
    }
  }

  /** A strictly ascending list of exactly the elements of s is `Sorted(s)`. */
  lemma SortedIsTheAscendingListing(xs: seq<string>, s: set<string>)
    requires StrictlyAscending(xs)
    requires forall x :: x in xs <==> x in s
    ensures Sorted(s) == xs
  {
    SortedListing(s);
    AscendingListingUnique(Sorted(s), xs);
  }
}
