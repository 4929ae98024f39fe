/**
 * `RangeMap`: a set of disjoint closed intervals kept in one ordered map
 * that holds every interval twice, `lo ↦ hi` and `hi ↦ lo`, so that an
 * interval can be found from either end. A one-value interval `[x, x]` is
 * the single entry `x ↦ x`.
 */
module RangeMap {
  import opened Wrappers
  import opened OrderedSets

  type Tree = map<int, int>

  /** The values `lo..hi`, both included. */
  function Span(lo: int, hi: int): (s: set<int>)
    ensures forall v :: v in s <==> lo <= v <= hi
    decreases hi - lo
  {
    if lo > hi then {} else {lo} + Span(lo + 1, hi)
  }

  /** Every entry has its partner entry pointing back at it. */
  ghost predicate Symmetric(t: Tree) {
    forall k :: k in t ==> t[k] in t && t[t[k]] == k
  }

  /** The intervals, named by their lower keys, do not overlap. */
  ghost predicate Disjoint(t: Tree) {
    forall a, b :: a in t && b in t && a <= t[a] && b <= t[b] && a < b ==> t[a] < b
  }

  /**
   * A well-formed tree: symmetric and disjoint. It is checked entry by
   * entry, smallest key first; `WfMeans` and `WfFrom` relate it to the two
   * properties above.
   */
  ghost predicate Wf(t: Tree) {
    EntriesOk(t, t.Keys)
  }

  /** The entry of `k` has its partner, and the interval of a lower key `k` ends before every later lower key. */
  ghost predicate EntryOk(t: Tree, k: int)
    requires k in t
  {
    t[k] in t && t[t[k]] == k &&
    forall b :: b in t && k <= t[k] && b <= t[b] && k < b ==> t[k] < b
  }

  ghost predicate EntriesOk(t: Tree, ks: set<int>)
    requires ks <= t.Keys
    decreases |ks|, 1
  {
    ks == {} || EntriesFrom(t, ks)
  }

  /** The entry of the smallest key of `ks`, and the rest. */
  ghost predicate EntriesFrom(t: Tree, ks: set<int>)
    requires ks <= t.Keys && ks != {}
    decreases |ks|, 0
  {
    var k := Least(ks);
    EntryOk(t, k) && EntriesOk(t, ks - {k})
  }

  lemma {:induction false} EntriesOkMeans(t: Tree, ks: set<int>)
    requires ks <= t.Keys && EntriesOk(t, ks)
    ensures forall k :: k in ks ==> EntryOk(t, k)
    decreases |ks|
  {
    if ks != {} {
      var m := Least(ks);
      assert EntriesFrom(t, ks);
      EntriesOkMeans(t, ks - {m});
      assert forall k :: k in ks ==> k == m || k in ks - {m};
    }
  }

  lemma {:induction false} EntriesOkFrom(t: Tree, ks: set<int>)
    requires ks <= t.Keys && forall k :: k in ks ==> EntryOk(t, k)
    ensures EntriesOk(t, ks)
    decreases |ks|
  {
    if ks != {} {
      EntriesOkFrom(t, ks - {Least(ks)});
      assert EntriesFrom(t, ks);
    }
  }

  lemma WfMeans(t: Tree)
    requires Wf(t)
    ensures Symmetric(t) && Disjoint(t)
  {
    EntriesOkMeans(t, t.Keys);
    forall a, b | a in t && b in t && a <= t[a] && b <= t[b] && a < b
      ensures t[a] < b
    {
      assert EntryOk(t, a);
    }
  }

  lemma WfFrom(t: Tree)
    requires Symmetric(t) && Disjoint(t)
    ensures Wf(t)
  {
    EntriesOkFrom(t, t.Keys);
  }

  /**
   * The values the intervals denote. An upper key `k > t[k]` adds nothing
   * of its own. `ValuesMembers` states what belongs to it; the proofs
   * call it for the trees they need it on.
   */
  ghost function Values(t: Tree): set<int> {
    Gather(t, t.Keys)
  }

  /** The values of the intervals whose keys are in `ks`. */
  ghost function Gather(t: Tree, ks: set<int>): set<int>
    requires ks <= t.Keys
    decreases |ks|, 1
  {
    if ks == {} then {} else GatherFrom(t, ks)
  }

  /** The interval of the smallest key of `ks`, and the rest. */
  ghost function GatherFrom(t: Tree, ks: set<int>): set<int>
    requires ks <= t.Keys && ks != {}
    decreases |ks|, 0
  {
    var k := Least(ks);
    Span(k, t[k]) + Gather(t, ks - {k})
  }

  lemma {:induction false} GatherMembers(t: Tree, ks: set<int>)
    requires ks <= t.Keys
    ensures forall v :: v in Gather(t, ks) <==> exists k :: k in ks && k <= v <= t[k]
    decreases |ks|
  {
    if ks != {} {
      var m := Least(ks);
      GatherMembers(t, ks - {m});
      assert Gather(t, ks) == Span(m, t[m]) + Gather(t, ks - {m});
      assert forall k :: k in ks <==> k == m || k in ks - {m};
    }
  }

  lemma ValuesMembers(t: Tree)
    ensures forall v :: v in Values(t) <==> exists k :: k in t && k <= v <= t[k]
  {
    GatherMembers(t, t.Keys);
  }

  /** `RangeMap::insert`: both ends of `[x, y]` become keys pointing at each other. */
  function Insert(t: Tree, x: int, y: int): (u: Tree)
    ensures u.Keys == t.Keys + {x, y}
    ensures u[x] == y && u[y] == x
    ensures forall k :: k in t && k != x && k != y ==> u[k] == t[k]
  {
    t[x := y][y := x]
  }

  /** `RangeMap::remove`: drops the entry for `x` and then the entry for its partner. */
  function Remove(t: Tree, x: int): (u: Tree)
    ensures x !in t ==> u == t
    ensures x in t ==> u.Keys == t.Keys - {x, t[x]}
    ensures forall k :: k in u ==> k in t && u[k] == t[k]
  {
    if x in t then (t - {x}) - {t[x]} else t
  }

  // ---------------------------------------------------------------------------
  // Facts about well-formed trees

  lemma Covered(t: Tree, k: int, v: int)
    requires k in t && k <= v <= t[k]
    ensures v in Values(t)
  {
    ValuesMembers(t);
  }

  lemma NotCovered(t: Tree, k: int, v: int)
    requires k in t && v !in Values(t)
    ensures !(k <= v <= t[k])
  {
    ValuesMembers(t);
  }

  /** Every key of a well-formed tree lies in its own interval. */
  lemma KeyIsValue(t: Tree, k: int)
    requires Symmetric(t) && k in t
    ensures k in Values(t)
  {
    if k <= t[k] {
      Covered(t, k, k);
    } else {
      Covered(t, t[k], k);
    }
  }

  lemma KeysAreValues(t: Tree)
    requires Wf(t)
    ensures forall k :: k in t ==> k in Values(t)
  {
    WfMeans(t);
    forall k | k in t
      ensures k in Values(t)
    {
      KeyIsValue(t, k);
    }
  }

  /** In a well-formed tree every key has its partner. */
  lemma Partner(t: Tree, x: int)
    requires Wf(t) && x in t
    ensures t[x] in t && t[t[x]] == x
  {
    WfMeans(t);
  }

  /** A value lies in the interval of at most one lower key. */
  lemma OwnerUnique(t: Tree, a: int, b: int, v: int)
    requires Disjoint(t)
    requires a in t && a <= v <= t[a]
    requires b in t && b <= v <= t[b]
    ensures a == b
  {
  }

  lemma RemoveKeepsWf(t: Tree, x: int)
    requires Wf(t) && x in t
    ensures Wf(Remove(t, x))
  {
    WfMeans(t);
    WfFrom(Remove(t, x));
  }

  lemma RemoveDropsSpan(t: Tree, lo: int)
    requires Wf(t) && lo in t && lo <= t[lo]
    ensures forall v :: v in Values(Remove(t, lo)) ==> v in Values(t) && !(lo <= v <= t[lo])
  {
    WfMeans(t);
    var u := Remove(t, lo);
    forall v | v in Values(u)
      ensures v in Values(t) && !(lo <= v <= t[lo])
    {
      ValuesMembers(u);
      var k :| k in u && k <= v <= u[k];
      Covered(t, k, v);
      if lo <= v <= t[lo] {
        OwnerUnique(t, k, lo, v);
      }
    }
  }

  lemma RemoveKeepsRest(t: Tree, lo: int)
    requires Wf(t) && lo in t && lo <= t[lo]
    ensures forall v :: v in Values(t) && !(lo <= v <= t[lo]) ==> v in Values(Remove(t, lo))
  {
    WfMeans(t);
    var u := Remove(t, lo);
    forall v | v in Values(t) && !(lo <= v <= t[lo])
      ensures v in Values(u)
    {
      ValuesMembers(t);
      var k :| k in t && k <= v <= t[k];
      assert k != lo;
      assert k != t[lo];
      Covered(u, k, v);
    }
  }

  /** Removing either end of an interval removes the whole interval and only it. */
  lemma RemoveInterval(t: Tree, x: int)
    requires Wf(t) && x in t
    ensures Wf(Remove(t, x))
    ensures var lo, hi := if x <= t[x] then x else t[x], if x <= t[x] then t[x] else x;
            Values(Remove(t, x)) == Values(t) - Span(lo, hi)
  {
    RemoveKeepsWf(t, x);
    WfMeans(t);
    var lo := if x <= t[x] then x else t[x];
    assert Remove(t, x) == Remove(t, lo);
    RemoveDropsSpan(t, lo);
    RemoveKeepsRest(t, lo);
    var hi := t[lo];
    forall v
      ensures v in Values(Remove(t, lo)) <==> v in Values(t) - Span(lo, hi)
    {
    }
  }

  /** A new interval over values not yet present does not reuse a key. */
  lemma FreshEnds(t: Tree, lo: int, hi: int)
    requires Wf(t) && lo <= hi
    requires Span(lo, hi) !! Values(t)
    ensures lo !in t && hi !in t
  {
    KeysAreValues(t);
    assert lo in Span(lo, hi) && hi in Span(lo, hi);
  }

  lemma InsertKeepsSymmetric(t: Tree, lo: int, hi: int)
    requires Symmetric(t) && lo !in t && hi !in t
    ensures Symmetric(Insert(t, lo, hi))
  {
  }

  lemma InsertKeepsDisjoint(t: Tree, lo: int, hi: int)
    requires Wf(t) && lo <= hi
    requires Span(lo, hi) !! Values(t)
    ensures Disjoint(Insert(t, lo, hi))
  {
    var u := Insert(t, lo, hi);
    FreshEnds(t, lo, hi);
    WfMeans(t);
    forall a, b | a in u && b in u && a <= u[a] && b <= u[b] && a < b
      ensures u[a] < b
    {
      if a == lo || a == hi {
        assert a == lo && u[a] == hi;
        AfterNewInterval(t, lo, hi, b);
      } else if b == lo || b == hi {
        assert b == lo;
        assert a in t && u[a] == t[a];
        BeforeNewInterval(t, lo, hi, a);
      }
    }
  }

  /** A key above the new interval's start lies above its end. */
  lemma AfterNewInterval(t: Tree, lo: int, hi: int, b: int)
    requires Symmetric(t) && Span(lo, hi) !! Values(t)
    requires b in t && lo < b
    ensures hi < b
  {
    KeyIsValue(t, b);
    assert b !in Span(lo, hi);
  }

  /** An interval starting below the new one ends before it. */
  lemma BeforeNewInterval(t: Tree, lo: int, hi: int, a: int)
    requires lo <= hi && Span(lo, hi) !! Values(t)
    requires a in t && a < lo
    ensures t[a] < lo
  {
    assert lo in Span(lo, hi);
    NotCovered(t, a, lo);
  }

  lemma InsertKeepsWf(t: Tree, lo: int, hi: int)
    requires Wf(t) && lo <= hi
    requires Span(lo, hi) !! Values(t)
    ensures Wf(Insert(t, lo, hi))
  {
    FreshEnds(t, lo, hi);
    WfMeans(t);
    InsertKeepsSymmetric(t, lo, hi);
    InsertKeepsDisjoint(t, lo, hi);
    WfFrom(Insert(t, lo, hi));
  }

  /** Inserting an interval over values not yet present adds exactly those values. */
  lemma InsertInterval(t: Tree, lo: int, hi: int)
    requires Wf(t) && lo <= hi
    requires Span(lo, hi) !! Values(t)
    ensures Wf(Insert(t, lo, hi))
    ensures Values(Insert(t, lo, hi)) == Values(t) + Span(lo, hi)
  {
    InsertKeepsWf(t, lo, hi);
    FreshEnds(t, lo, hi);
    InsertAddsSpan(t, lo, hi);
    InsertKeepsValues(t, lo, hi);
  }

  lemma InsertAddsSpan(t: Tree, lo: int, hi: int)
    requires lo <= hi && lo !in t && hi !in t
    ensures forall v :: v in Values(Insert(t, lo, hi)) ==> v in Values(t) || lo <= v <= hi
  {
    var u := Insert(t, lo, hi);
    forall v | v in Values(u)
      ensures v in Values(t) || lo <= v <= hi
    {
      ValuesMembers(u);
      var k :| k in u && k <= v <= u[k];
      if k != lo && k != hi {
        Covered(t, k, v);
      }
    }
  }

  lemma InsertKeepsValues(t: Tree, lo: int, hi: int)
    requires lo <= hi && lo !in t && hi !in t
    ensures forall v :: v in Values(t) || lo <= v <= hi ==> v in Values(Insert(t, lo, hi))
  {
    var u := Insert(t, lo, hi);
    forall v | v in Values(t) || lo <= v <= hi
      ensures v in Values(u)
    {
      if v in Values(t) {
        ValuesMembers(t);
        var k :| k in t && k <= v <= t[k];
        Covered(u, k, v);
      } else {
        Covered(u, lo, v);
      }
    }
  }

  /** Well-formed trees over disjoint values have disjoint keys. */
  lemma KeysApart(p: Tree, d: Tree)
    requires Wf(p) && Wf(d) && Values(p) !! Values(d)
    ensures p.Keys !! d.Keys
  {
    KeysAreValues(p);
    KeysAreValues(d);
    forall k | k in p.Keys
      ensures k !in d.Keys
    {
      assert k in Values(p);
    }
  }

  /** `BTreeMap::append` of two well-formed trees over disjoint values is well-formed. */
  lemma AppendKeepsWf(p: Tree, d: Tree)
    requires Wf(p) && Wf(d) && Values(p) !! Values(d)
    ensures Wf(p + d)
  {
    KeysApart(p, d);
    WfMeans(p);
    WfMeans(d);
    var u := p + d;
    forall a, b | a in u && b in u && a <= u[a] && b <= u[b] && a < b
      ensures u[a] < b
    {
      if a in p && b in d {
        KeyIsValue(d, b);
        NotCovered(p, a, b);
      } else if a in d && b in p {
        KeyIsValue(p, b);
        NotCovered(d, a, b);
      }
    }
    WfFrom(u);
  }

  /** `BTreeMap::append` of trees over disjoint values holds the values of both. */
  lemma AppendValues(p: Tree, d: Tree)
    requires Wf(p) && Wf(d) && Values(p) !! Values(d)
    ensures Values(p + d) == Values(p) + Values(d)
  {
    KeysApart(p, d);
    var u := p + d;
    ValuesMembers(u);
    ValuesMembers(p);
    ValuesMembers(d);
    forall v | v in Values(u)
      ensures v in Values(p) + Values(d)
    {
      var k :| k in u && k <= v <= u[k];
      if k in d {
        Covered(d, k, v);
      } else {
        Covered(p, k, v);
      }
    }
    forall v | v in Values(p) + Values(d)
      ensures v in Values(u)
    {
      if v in Values(p) {
        var k :| k in p && k <= v <= p[k];
        Covered(u, k, v);
      } else {
        var k :| k in d && k <= v <= d[k];
        Covered(u, k, v);
      }
    }
  }

  // ---------------------------------------------------------------------------
  // Reading seeds and the answer

  /**
   * `RangeMap::from_iter`: the numbers taken two at a time as `(start,
   * length)`, each pair stored as `[start, start + length - 1]`; an unpaired
   * last number is ignored.
   */
  function FromPairs(t: Tree, seeds: seq<nat>): Tree
    decreases |seeds|
  {
    if |seeds| < 2 then t else FromPairs(Insert(t, seeds[0], seeds[0] as int + seeds[1] - 1), seeds[2..])
  }

  /** The values `(start, length)` pairs of `seeds` denote. */
  ghost function SeedValues(seeds: seq<nat>): set<int>
    decreases |seeds|
  {
    if |seeds| < 2 then {} else Span(seeds[0], seeds[0] as int + seeds[1] - 1) + SeedValues(seeds[2..])
  }

  /** The pairs of `seeds` have positive lengths and do not overlap. */
  ghost predicate DisjointSeeds(seeds: seq<nat>)
    decreases |seeds|
  {
    |seeds| < 2 ||
    (seeds[1] > 0 && Span(seeds[0], seeds[0] as int + seeds[1] - 1) !! SeedValues(seeds[2..])
     && DisjointSeeds(seeds[2..]))
  }

  /** Reading seed pairs builds a well-formed tree holding exactly their values. */
  lemma {:induction false} FromPairsValues(t: Tree, seeds: seq<nat>)
    requires Wf(t) && DisjointSeeds(seeds) && Values(t) !! SeedValues(seeds)
    ensures Wf(FromPairs(t, seeds))
    ensures Values(FromPairs(t, seeds)) == Values(t) + SeedValues(seeds)
    decreases |seeds|
  {
    if |seeds| >= 2 {
      var u := Insert(t, seeds[0], seeds[0] as int + seeds[1] - 1);
      var f := FromPairs(u, seeds[2..]);
      FromPairsStep(t, seeds);
      SeedsSplit(seeds);
      FirstPair(t, seeds[0], seeds[0] as int + seeds[1] - 1, SeedValues(seeds[2..]));
      FromPairsValues(u, seeds[2..]);
      SameUnion(Values(f), Values(u), Values(t), Span(seeds[0], seeds[0] as int + seeds[1] - 1),
                SeedValues(seeds[2..]), SeedValues(seeds));
    } else {
      FromPairsDone(t, seeds);
    }
  }

  lemma FromPairsDone(t: Tree, seeds: seq<nat>)
    requires |seeds| < 2
    ensures FromPairs(t, seeds) == t && SeedValues(seeds) == {}
  {
  }

  lemma FromPairsStep(t: Tree, seeds: seq<nat>)
    requires |seeds| >= 2
    ensures FromPairs(t, seeds) == FromPairs(Insert(t, seeds[0], seeds[0] as int + seeds[1] - 1), seeds[2..])
  {
  }

  /** One step of `FromPairsValues`: the first pair goes in, the rest stays disjoint from the tree. */
  lemma FirstPair(t: Tree, lo: int, hi: int, tail: set<int>)
    requires Wf(t) && lo <= hi
    requires Values(t) !! Span(lo, hi) + tail && Span(lo, hi) !! tail
    ensures Wf(Insert(t, lo, hi))
    ensures Values(Insert(t, lo, hi)) !! tail
    ensures Values(Insert(t, lo, hi)) + tail == Values(t) + (Span(lo, hi) + tail)
  {
    DisjointParts(Values(t), Span(lo, hi), tail);
    InsertInterval(t, lo, hi);
    AddParts(Values(Insert(t, lo, hi)), Values(t), Span(lo, hi), tail);
  }

  lemma SeedsSplit(seeds: seq<nat>)
    requires |seeds| >= 2 && DisjointSeeds(seeds)
    ensures var lo, hi := seeds[0] as int, seeds[0] as int + seeds[1] - 1;
            lo <= hi && DisjointSeeds(seeds[2..]) && Span(lo, hi) !! SeedValues(seeds[2..]) &&
            SeedValues(seeds) == Span(lo, hi) + SeedValues(seeds[2..])
  {
  }

  lemma SameUnion(vf: set<int>, vu: set<int>, vt: set<int>, head: set<int>, tail: set<int>, all: set<int>)
    requires vf == vu + tail && vu + tail == vt + (head + tail) && all == head + tail
    ensures vf == vt + all
  {
  }

  lemma DisjointParts(a: set<int>, head: set<int>, tail: set<int>)
    requires a !! head + tail
    requires head !! tail
    ensures a !! head && a + head !! tail
  {
  }

  lemma AddParts(u: set<int>, a: set<int>, head: set<int>, tail: set<int>)
    requires u == a + head && a + head !! tail
    ensures u !! tail && u + tail == a + (head + tail)
  {
  }

  /** The smallest key, `first_key_value().0`. */
  function FirstKey(t: Tree): (r: Option<int>)
    ensures r.None? <==> t == map[]
    ensures r.Some? ==> r.value in t && forall k :: k in t ==> r.value <= k
  {
    if t.Keys == {} then
      assert t == map[];
      None
    else Some(Least(t.Keys))
  }

  /** In a well-formed tree the smallest key is the smallest value. */
  lemma FirstKeyIsLeastValue(t: Tree)
    requires Wf(t) && t != map[]
    ensures Values(t) != {}
    ensures FirstKey(t) == Some(Least(Values(t)))
  {
    var m := FirstKey(t).value;
    WfMeans(t);
    KeyIsValue(t, m);
    assert IsLeast(m, Values(t)) by {
    forall v | v in Values(t)
      ensures m <= v
    {
      ValuesMembers(t);
      var k :| k in t && k <= v <= t[k];
    }
    }
  }
}
