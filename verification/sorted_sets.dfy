/**
  `sorted(list(s))` for a Python set of strings `s`: the set's members listed
  once each in ascending `LexOrder.Less` order. The order in which Python
  enumerates the set is not observable in the result, and `SortedUnique`
  proves why: a set has exactly one strictly ascending listing.
 */
module SortedSets {
  import opened LexOrder

  /** The members of a sequence, as `set(xs)` in Python. */
  function Elems(xs: seq<string>): set<string>
  {
    set x | x in xs
  }

  /** Strictly ascending, and therefore without repeated entries. */
  predicate StrictlySorted(xs: seq<string>)
  {
    forall i, j :: 0 <= i < j < |xs| ==> Less(xs[i], xs[j])
  }

  /** `m` is the member of `s` that sorts before every other member. */
  predicate IsLeast(m: string, s: set<string>)
  {
    m in s && forall y :: y in s && y != m ==> Less(m, y)
  }

  lemma {:induction false} LeastExists(s: set<string>)
    requires s != {}
    ensures exists m :: IsLeast(m, s)
    decreases s
  {
    var x :| x in s;
    var rest := s - {x};
    if rest == {} {
      assert s == {x};
      assert IsLeast(x, s);
    } else {
      LeastExists(rest);
      var m :| IsLeast(m, rest);
      LessConnected(x, m);
      if Less(x, m) {
        forall y | y in s && y != x
          ensures Less(x, y)
        {
          if y != m {
            LessTransitive(x, m, y);
          }
        }
        assert IsLeast(x, s);
      } else {
        assert IsLeast(m, s);
      }
    }
  }

  lemma LeastUnique(s: set<string>)
    ensures forall m, n :: IsLeast(m, s) && IsLeast(n, s) ==> m == n
  {
    forall m, n | IsLeast(m, s) && IsLeast(n, s)
      ensures m == n
    {
      LessAsymmetric(m, n);
    }
  }

  /** The members of `s` in ascending order, each exactly once. */
  function SortedList(s: set<string>): (r: seq<string>)
    ensures StrictlySorted(r)
    ensures forall x :: x in r <==> x in s
    ensures Elems(r) == s
    ensures |r| == |s|
    decreases s
  {
    if s == {} then []
    else
      LeastExists(s);
      LeastUnique(s);
      var m :| IsLeast(m, s);
      var tail := SortedList(s - {m});
      LeastThenSorted(m, tail, s);
      [m] + tail
  }

  lemma LeastThenSorted(m: string, tail: seq<string>, s: set<string>)
    requires IsLeast(m, s)
    requires StrictlySorted(tail) && Elems(tail) == s - {m} && |tail| == |s - {m}|
    ensures StrictlySorted([m] + tail) && Elems([m] + tail) == s && |[m] + tail| == |s|
    ensures forall x :: x in [m] + tail <==> x in s
  {
    var r := [m] + tail;
    forall i, j | 0 <= i < j < |r|
      ensures Less(r[i], r[j])
    {
      assert r[j] == tail[j - 1] && r[j] in Elems(tail);
      if i > 0 {
        assert r[i] == tail[i - 1];
      }
    }
    assert Elems(r) == {m} + Elems(tail);
  }

  /** A strictly sorted sequence lists no member twice. */
  lemma StrictlySortedDistinct(xs: seq<string>)
    requires StrictlySorted(xs)
    ensures forall i, j :: 0 <= i < j < |xs| ==> xs[i] != xs[j]
    ensures |Elems(xs)| == |xs|
  {
    forall i, j | 0 <= i < j < |xs|
      ensures xs[i] != xs[j]
    {
      LessIrreflexive(xs[i]);
    }
    DistinctCount(xs);
  }

  lemma {:induction false} DistinctCount(xs: seq<string>)
    requires forall i, j :: 0 <= i < j < |xs| ==> xs[i] != xs[j]
    ensures |Elems(xs)| == |xs|
  {
    if xs != [] {
      DistinctCount(xs[1..]);
      assert Elems(xs) == {xs[0]} + Elems(xs[1..]);
      assert xs[0] !in Elems(xs[1..]);
    }
  }

  lemma NoElemsIsEmpty(xs: seq<string>)
    ensures Elems(xs) == {} <==> xs == []
  {
    if xs != [] {
      assert xs[0] in Elems(xs);
    }
  }

  /** Two strictly sorted sequences with the same members are the same sequence. */
  lemma {:induction false} SortedUnique(xs: seq<string>, ys: seq<string>)
    requires StrictlySorted(xs) && StrictlySorted(ys)
    requires Elems(xs) == Elems(ys)
    ensures xs == ys
  {
    NoElemsIsEmpty(ys);
    if xs != [] {
      assert xs[0] in Elems(ys);
      assert ys != [];
      assert ys[0] in Elems(xs);
      if xs[0] != ys[0] {
        var i :| 0 <= i < |xs| && xs[i] == ys[0];
        var j :| 0 <= j < |ys| && ys[j] == xs[0];
        LessAsymmetric(xs[0], ys[0]);
        assert false;
      }
      StrictlySortedDistinct(xs);
      StrictlySortedDistinct(ys);
      assert Elems(xs[1..]) == Elems(xs) - {xs[0]} by {
        assert xs == [xs[0]] + xs[1..];
      }
      assert Elems(ys[1..]) == Elems(ys) - {ys[0]} by {
        assert ys == [ys[0]] + ys[1..];
      }
      SortedUnique(xs[1..], ys[1..]);
      assert xs == [xs[0]] + xs[1..] && ys == [ys[0]] + ys[1..];
    }
  }
}
