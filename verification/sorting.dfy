/**
 * Sorting by a total order given as a comparison function. The solvers call
 * `sort_unstable`; which algorithm sorts does not matter, because a sorted
 * permutation of a sequence under a total order is unique (`SortedUnique`).
 * The model sorts by insertion.
 */
module Sorting {

  /** `le` is a total order: total, transitive and antisymmetric. */
  ghost predicate TotalOrder<T(!new)>(le: (T, T) -> bool) {
    && (forall a, b :: le(a, b) || le(b, a))
    && (forall a, b, c :: le(a, b) && le(b, c) ==> le(a, c))
    && (forall a, b :: le(a, b) && le(b, a) ==> a == b)
  }

  predicate Sorted<T>(s: seq<T>, le: (T, T) -> bool) {
    forall i, j :: 0 <= i < j < |s| ==> le(s[i], s[j])
  }

  /** `x` placed before the first element it does not follow. */
  function Insert<T>(x: T, s: seq<T>, le: (T, T) -> bool): (r: seq<T>)
    ensures multiset(r) == multiset(s) + multiset{x}
    ensures |s| == 0 ==> r == [x]
    ensures |s| > 0 ==> r[0] == x || r[0] == s[0]
  {
    if |s| == 0 then [x]
    else if le(x, s[0]) then [x] + s
    else
      assert s == [s[0]] + s[1..];
      [s[0]] + Insert(x, s[1..], le)
  }

  lemma {:induction false} InsertSorted<T(!new)>(x: T, s: seq<T>, le: (T, T) -> bool)
    requires TotalOrder(le) && Sorted(s, le)
    ensures Sorted(Insert(x, s, le), le)
  {
    if |s| > 0 {
      if le(x, s[0]) {
        assert forall j :: 0 <= j < |s| ==> le(x, s[j]);
      } else {
        var rest := Insert(x, s[1..], le);
        InsertSorted(x, s[1..], le);
        assert le(s[0], rest[0]) by {
          if |s| > 1 {
            assert rest[0] == x || rest[0] == s[1];
          }
        }
        forall j | 0 < j < |rest|
          ensures le(s[0], rest[j])
        {
          FollowsHead(s[0], rest, j, le);
        }
        assert Insert(x, s, le) == [s[0]] + rest;
      }
    }
  }

  /** In a sorted sequence every element follows the first. */
  lemma FollowsHead<T(!new)>(h: T, rest: seq<T>, j: nat, le: (T, T) -> bool)
    requires TotalOrder(le) && Sorted(rest, le) && 0 < j < |rest| && le(h, rest[0])
    ensures le(h, rest[j])
  {
  }

  /** Insertion sort: a sorted permutation of `s`. */
  function Sort<T>(s: seq<T>, le: (T, T) -> bool): (r: seq<T>)
    ensures multiset(r) == multiset(s)
  {
    if |s| == 0 then []
    else
      assert s == s[..|s| - 1] + [s[|s| - 1]];
      Insert(s[|s| - 1], Sort(s[..|s| - 1], le), le)
  }

  lemma {:induction false} SortSorted<T(!new)>(s: seq<T>, le: (T, T) -> bool)
    requires TotalOrder(le)
    ensures Sorted(Sort(s, le), le)
  {
    if |s| > 0 {
      SortSorted(s[..|s| - 1], le);
      InsertSorted(s[|s| - 1], Sort(s[..|s| - 1], le), le);
    }
  }

  lemma SortedTail<T>(s: seq<T>, le: (T, T) -> bool)
    requires Sorted(s, le) && |s| > 0
    ensures Sorted(s[1..], le)
  {
    forall i, j | 0 <= i < j < |s| - 1
      ensures le(s[1..][i], s[1..][j])
    {
      assert s[1..][i] == s[i + 1] && s[1..][j] == s[j + 1];
    }
  }

  /** Two sorted permutations of the same values are equal. */
  lemma {:induction false} SortedUnique<T(!new)>(a: seq<T>, b: seq<T>, le: (T, T) -> bool)
    requires TotalOrder(le)
    requires Sorted(a, le) && Sorted(b, le) && multiset(a) == multiset(b)
    ensures a == b
  {
    if |a| == 0 {
      assert |multiset(b)| == 0;
    } else {
      SameHead(a, b, le);
      var ma, mb := multiset(a[1..]), multiset(b[1..]);
      assert a == [a[0]] + a[1..] && b == [b[0]] + b[1..];
      assert multiset{a[0]} + ma == multiset{a[0]} + mb;
      forall c
        ensures ma[c] == mb[c]
      {
        assert (multiset{a[0]} + ma)[c] == (multiset{a[0]} + mb)[c];
      }
      assert ma == mb;
      SortedTail(a, le);
      SortedTail(b, le);
      SortedUnique(a[1..], b[1..], le);
    }
  }

  /** Two sorted permutations of the same values start alike. */
  lemma SameHead<T(!new)>(a: seq<T>, b: seq<T>, le: (T, T) -> bool)
    requires TotalOrder(le)
    requires Sorted(a, le) && Sorted(b, le) && multiset(a) == multiset(b) && |a| > 0
    ensures |b| > 0 && a[0] == b[0]
  {
    assert a[0] in multiset(b) && b[0] in multiset(a);
    var i :| 0 <= i < |b| && b[i] == a[0];
    var j :| 0 <= j < |a| && a[j] == b[0];
    assert le(a[0], a[j]) by { if j > 0 { assert Sorted(a, le); } }
    assert le(b[0], b[i]) by { if i > 0 { assert Sorted(b, le); } }
  }

  /** Every value occurs at most once. */
  predicate NoRepeats<T(==)>(s: seq<T>) {
    forall x :: x in multiset(s) ==> multiset(s)[x] == 1
  }

  /** Two equal elements at different positions make a repeat. */
  lemma TwoCopies<T>(s: seq<T>, i: nat, j: nat)
    requires i < j < |s| && s[i] == s[j]
    ensures !NoRepeats(s)
  {
    assert s == s[..i] + [s[i]] + s[i + 1..j] + [s[j]] + s[j + 1..];
    assert multiset(s)[s[i]] >= 2;
  }

  /** `g` summed over the elements of `s`. */
  function SumOf<T>(s: seq<T>, g: T -> nat): nat {
    if |s| == 0 then 0 else g(s[0]) + SumOf(s[1..], g)
  }

  lemma {:induction false} SumOfConcat<T>(a: seq<T>, b: seq<T>, g: T -> nat)
    ensures SumOf(a + b, g) == SumOf(a, g) + SumOf(b, g)
  {
    if |a| > 0 {
      SumOfConcat(a[1..], b, g);
      assert (a + b)[1..] == a[1..] + b;
    } else {
      assert a + b == b;
    }
  }

  lemma SumOfRemove<T>(t: seq<T>, i: nat, g: T -> nat)
    requires i < |t|
    ensures SumOf(t, g) == g(t[i]) + SumOf(t[..i] + t[i + 1..], g)
  {
    var pre, post := t[..i], t[i + 1..];
    assert t == pre + ([t[i]] + post);
    SumOfConcat(pre, [t[i]] + post, g);
    SumOfConcat(pre, post, g);
    SumOfCons(t[i], post, g);
    Regroup(SumOf(t, g), SumOf(pre, g), SumOf([t[i]] + post, g), g(t[i]), SumOf(post, g), SumOf(pre + post, g));
  }

  lemma Regroup(whole: int, p: int, rest: int, x: int, q: int, without: int)
    requires whole == p + rest && rest == x + q && without == p + q
    ensures whole == x + without
  {
  }

  lemma SumOfCons<T>(x: T, s: seq<T>, g: T -> nat)
    ensures SumOf([x] + s, g) == g(x) + SumOf(s, g)
  {
    assert ([x] + s)[1..] == s;
  }

  /** Removing the element at `i` removes one copy of it. */
  lemma MultisetRemove<T>(t: seq<T>, i: nat)
    requires i < |t|
    ensures multiset(t) == multiset(t[..i] + t[i + 1..]) + multiset{t[i]}
  {
    assert t == t[..i] + [t[i]] + t[i + 1..];
  }

  lemma MultisetCancel<T>(a: multiset<T>, b: multiset<T>, x: T)
    requires a + multiset{x} == b + multiset{x}
    ensures a == b
  {
    forall y
      ensures a[y] == b[y]
    {
      assert (a + multiset{x})[y] == (b + multiset{x})[y];
    }
  }

  /** A sum over the elements does not depend on their order. */
  lemma {:induction false} SumOfPerm<T>(s: seq<T>, t: seq<T>, g: T -> nat)
    requires multiset(s) == multiset(t)
    ensures SumOf(s, g) == SumOf(t, g)
  {
    if |s| == 0 {
      assert |multiset(t)| == 0;
    } else {
      assert s[0] in multiset(t);
      var i :| 0 <= i < |t| && t[i] == s[0];
      var u := t[..i] + t[i + 1..];
      RestPerm(s, t, i);
      SumOfRemove(t, i, g);
      SumOfPerm(s[1..], u, g);
      assert SumOf(s, g) == g(s[0]) + SumOf(s[1..], g);
    }
  }

  /** Taking the first element of `s` out of `t` leaves a permutation of the rest of `s`. */
  lemma RestPerm<T>(s: seq<T>, t: seq<T>, i: nat)
    requires multiset(s) == multiset(t) && |s| > 0 && i < |t| && t[i] == s[0]
    ensures multiset(s[1..]) == multiset(t[..i] + t[i + 1..])
  {
    MultisetRemove(t, i);
    MultisetRemove(s, 0);
    assert s[..0] + s[1..] == s[1..];
    MultisetCancel(multiset(s[1..]), multiset(t[..i] + t[i + 1..]), s[0]);
  }

  function Reverse<T>(s: seq<T>): (r: seq<T>)
    ensures |r| == |s|
    ensures forall i :: 0 <= i < |s| ==> r[i] == s[|s| - 1 - i]
  {
    if |s| == 0 then [] else Reverse(s[1..]) + [s[0]]
  }
}
