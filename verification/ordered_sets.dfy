/**
 * The ordered views of finite integer sets that Rust's `BTreeSet` and
 * `BTreeMap` give: ascending iteration, the first element and the
 * greatest element below a bound.
 */
module OrderedSets {
  import opened Wrappers

  predicate StrictlyIncreasing(xs: seq<int>) {
    forall i, j :: 0 <= i < j < |xs| ==> xs[i] < xs[j]
  }

  predicate IsLeast(m: int, s: set<int>) {
    m in s && forall y :: y in s ==> m <= y
  }

  predicate IsGreatest(m: int, s: set<int>) {
    m in s && forall y :: y in s ==> y <= m
  }

  lemma HasElement(s: set<int>)
    ensures s == {} || exists x :: x in s
  {
    if forall x :: x !in s {
      assert s == {};
    }
  }

  lemma {:induction false} LeastExists(s: set<int>)
    requires s != {}
    ensures exists m :: IsLeast(m, s)
  {
    HasElement(s);
    var x :| x in s;
    if s != {x} {
      LeastExists(s - {x});
      var m :| IsLeast(m, s - {x});
      assert forall y :: y in s ==> y == x || y in s - {x};
      if x < m {
        assert IsLeast(x, s);
      } else {
        assert IsLeast(m, s);
      }
    } else {
      assert IsLeast(x, s);
    }
  }

  lemma {:induction false} GreatestExists(s: set<int>)
    requires s != {}
    ensures exists m :: IsGreatest(m, s)
  {
    HasElement(s);
    var x :| x in s;
    if s != {x} {
      GreatestExists(s - {x});
      var m :| IsGreatest(m, s - {x});
      assert forall y :: y in s ==> y == x || y in s - {x};
      if m < x {
        assert IsGreatest(x, s);
      } else {
        assert IsGreatest(m, s);
      }
    } else {
      assert IsGreatest(x, s);
    }
  }

  /** The smallest element (`BTreeSet::first`). */
  function Least(s: set<int>): (m: int)
    requires s != {}
    ensures IsLeast(m, s)
  {
    LeastExists(s);
    var m :| IsLeast(m, s);
    m
  }

  /** The greatest element. */
  function Greatest(s: set<int>): (m: int)
    requires s != {}
    ensures IsGreatest(m, s)
  {
    GreatestExists(s);
    var m :| IsGreatest(m, s);
    m
  }

  /** The elements in ascending order, each once (the iteration order of a `BTreeSet`). */
  function Ascending(s: set<int>): (xs: seq<int>)
    ensures StrictlyIncreasing(xs)
    ensures forall x :: x in xs <==> x in s
    ensures |xs| == |s|
    decreases |s|
  {
    if s == {} then []
    else
      var m := Least(s);
      var rest := Ascending(s - {m});
      assert forall i :: 0 <= i < |rest| ==> m < rest[i] by {
        forall i | 0 <= i < |rest|
          ensures m < rest[i]
        {
          assert rest[i] in s - {m};
        }
      }
      [m] + rest
  }

  /** The elements of `s` in the half-open range `[lo, hi)` (`BTreeSet::range(lo..hi)`). */
  function Within(s: set<int>, lo: int, hi: int): (w: set<int>)
    ensures forall x :: x in w <==> x in s && lo <= x < hi
  {
    set x | x in s && lo <= x < hi
  }

  /** The element of `s` that is greatest below `bound`, if any (`range(..bound).last()`). */
  function LastBelow(s: set<int>, bound: int): (r: Option<int>)
    ensures r.None? <==> forall x :: x in s ==> bound <= x
    ensures r.Some? ==> r.value in s && r.value < bound
    ensures r.Some? ==> forall x :: x in s && x < bound ==> x <= r.value
  {
    var below := set x | x in s && x < bound;
    if below == {} then
      assert forall x :: x in s ==> bound <= x by {
        forall x | x in s
          ensures bound <= x
        {
          assert x !in below;
        }
      }
      None
    else
      var m := Greatest(below);
      assert forall x :: x in s && x < bound ==> x <= m by {
        forall x | x in s && x < bound
          ensures x <= m
        {
          assert x in below;
        }
      }
      Some(m)
  }
}
