/**
 * `RangeState`: the almanac engine on intervals. The pending and resolved
 * value sets of `PointState` are each kept as a `RangeMap` tree, and a rule
 * moves whole intervals, cutting an interval where the rule's source range
 * begins or ends.
 */
module RangeState {
  import opened Wrappers
  import opened OrderedSets
  import opened AlmanacRules
  import opened RangeMap
  import PointState

  datatype RangeState = RangeState(pending: Tree, resolved: Tree)

  /** The value sets the two trees denote. */
  ghost function Abs(s: RangeState): PointState.PointState {
    PointState.PointState(Values(s.pending), Values(s.resolved))
  }

  /** One past the last value the rule covers. */
  function End(r: Range): int {
    r.src + r.len
  }

  /** The entries `k ↦ t[k]` for the keys `ks`, in order. */
  function Pairs(t: Tree, ks: seq<int>): (es: seq<(int, int)>)
    requires forall i :: 0 <= i < |ks| ==> ks[i] in t
    ensures |es| == |ks|
    ensures forall i :: 0 <= i < |ks| ==> es[i] == (ks[i], t[ks[i]])
  {
    if |ks| == 0 then [] else [(ks[0], t[ks[0]])] + Pairs(t, ks[1..])
  }

  /** The keys of `t` the rule covers, ascending. */
  function CoveredKeys(t: Tree, r: Range): (ks: seq<int>)
    ensures forall k :: k in ks <==> k in t && Covers(r, k)
    ensures forall i, j :: 0 <= i < j < |ks| ==> ks[i] < ks[j]
  {
    Ascending(Within(t.Keys, r.src, End(r)))
  }

  /** The entries the loop of `map_range` walks: a copy taken before the loop changes the tree. */
  function Snapshot(t: Tree, r: Range): seq<(int, int)> {
    var ks := CoveredKeys(t, r);
    Pairs(t, ks)
  }

  /**
   * One turn of the loop for the entry `x ↦ y`. A lower key moves its
   * interval, cut at the end of the rule; an upper key whose interval
   * starts before the rule moves the part from `src` on; an upper key whose
   * lower key is covered too does nothing, since that lower key moves the
   * interval.
   */
  function Step(s: RangeState, r: Range, x: int, y: int): RangeState {
    if x <= y then
      if y < End(r) then
        RangeState(Remove(s.pending, x), Insert(s.resolved, Shift(r, x), Shift(r, y)))
      else
        RangeState(Insert(Remove(s.pending, x), End(r), y),
                   Insert(s.resolved, Shift(r, x), r.dst + r.len - 1))
    else if y < r.src then
      RangeState(Insert(Remove(s.pending, x), y, r.src - 1), Insert(s.resolved, r.dst, Shift(r, x)))
    else
      s
  }

  /** The loop over the snapshot. */
  function Scan(s: RangeState, r: Range, es: seq<(int, int)>): (t: RangeState)
    ensures s.resolved.Keys <= t.resolved.Keys
    decreases |es|
  {
    if |es| == 0 then s else Scan(Step(s, r, es[0].0, es[0].1), r, es[1..])
  }

  /**
   * After the loop: an interval that starts before the rule and reaches past
   * its end has no key inside the rule, so the loop never saw it. It is found
   * as the last key below `src` and cut in three.
   */
  function SplitAround(s: RangeState, r: Range): RangeState {
    match LastBelow(s.pending.Keys, r.src)
    case None => s
    case Some(x) =>
      if s.pending[x] >= End(r) then Cut(s, r, x) else s
  }

  /** The interval at `x` cut around the rule, and the rule's whole image resolved. */
  function Cut(s: RangeState, r: Range, x: int): RangeState
    requires x in s.pending
  {
    RangeState(Insert(Insert(Remove(s.pending, x), x, r.src - 1), End(r), s.pending[x]),
               Insert(s.resolved, r.dst, r.dst + r.len - 1))
  }

  /** `RangeState::map_range`. */
  function MapRange(s: RangeState, r: Range): (t: RangeState)
    ensures s.resolved.Keys <= t.resolved.Keys
  {
    SplitAround(Scan(s, r, Snapshot(s.pending, r)), r)
  }

  /**
   * `map_range` with the guard a rule of length zero needs. Such a rule
   * covers nothing, but `MapRange` still cuts a pending interval at `src`
   * and inserts the reversed pair `dst ↦ dst - 1` as a resolved interval.
   */
  function MapRangeChecked(s: RangeState, r: Range): (t: RangeState)
    ensures r.len == 0 ==> t == s
    ensures s.resolved.Keys <= t.resolved.Keys
  {
    if r.len == 0 then s else MapRange(s, r)
  }

  /** `RangeState::finish`: `append` moves every resolved entry into the pending tree, overwriting. */
  function Finish(s: RangeState): (t: RangeState)
    ensures t.resolved == map[]
    ensures t.pending.Keys == s.pending.Keys + s.resolved.Keys
    ensures forall k :: k in t.pending ==> t.pending[k] == if k in s.resolved then s.resolved[k] else s.pending[k]
  {
    RangeState(s.pending + s.resolved, map[])
  }

  // ---------------------------------------------------------------------------
  // One interval moved

  /** `t` is `s` with the values `lo..up` moved from pending to resolved, shifted by `r`. */
  ghost predicate Moved(s: RangeState, t: RangeState, r: Range, lo: int, up: int) {
    Wf(t.pending) && Wf(t.resolved) &&
    Values(t.pending) == Values(s.pending) - Span(lo, up) &&
    Values(t.resolved) == Values(s.resolved) + Span(Shift(r, lo), Shift(r, up))
  }

  /** Every covered key other than `x` and its partner keeps its entry. */
  ghost predicate OthersKept(p: Tree, q: Tree, r: Range, x: int) {
    x in p &&
    forall k :: k in p && k != x && k != p[x] && Covers(r, k) ==> k in q && q[k] == p[k]
  }

  /** The resolved side of every case: an interval over new values goes in. */
  lemma AddShifted(d: Tree, r: Range, lo: int, up: int)
    requires Wf(d) && lo <= up
    requires Span(Shift(r, lo), Shift(r, up)) !! Values(d)
    ensures Wf(Insert(d, Shift(r, lo), Shift(r, up)))
    ensures Values(Insert(d, Shift(r, lo), Shift(r, up))) == Values(d) + Span(Shift(r, lo), Shift(r, up))
  {
    InsertInterval(d, Shift(r, lo), Shift(r, up));
  }

  /** The interval of a lower key lies in the values. */
  lemma IntervalInside(t: Tree, k: int)
    requires k in t && k <= t[k]
    ensures forall v :: k <= v <= t[k] ==> v in Values(t)
  {
    forall v | k <= v <= t[k]
      ensures v in Values(t)
    {
      Covered(t, k, v);
    }
  }

  /** A lower key whose interval ends inside the rule: the whole interval moves. */
  lemma StepWhole(s: RangeState, r: Range, x: int)
    requires Wf(s.pending) && Wf(s.resolved) && x in s.pending
    requires x <= s.pending[x] < End(r)
    requires Span(Shift(r, x), Shift(r, s.pending[x])) !! Values(s.resolved)
    ensures Moved(s, Step(s, r, x, s.pending[x]), r, x, s.pending[x])
    ensures OthersKept(s.pending, Step(s, r, x, s.pending[x]).pending, r, x)
  {
    RemoveInterval(s.pending, x);
    AddShifted(s.resolved, r, x, s.pending[x]);
  }

  /** Cutting the front `a..up` off a run `a..b` of the set. */
  lemma CutHead(vs: set<int>, rest: set<int>, a: int, up: int, b: int)
    requires a <= up <= b
    requires forall v :: a <= v <= b ==> v in vs
    requires rest == (vs - Span(a, b)) + Span(up + 1, b)
    ensures rest == vs - Span(a, up)
  {
    forall v
      ensures v in rest <==> v in vs - Span(a, up)
    {
    }
  }

  /** Cutting the back `lo..b` off a run `a..b` of the set. */
  lemma CutTail(vs: set<int>, rest: set<int>, a: int, lo: int, b: int)
    requires a <= lo <= b
    requires forall v :: a <= v <= b ==> v in vs
    requires rest == (vs - Span(a, b)) + Span(a, lo - 1)
    ensures rest == vs - Span(lo, b)
  {
    forall v
      ensures v in rest <==> v in vs - Span(lo, b)
    {
    }
  }

  /** Cutting a middle part `lo..up` out of a run `a..b` of the set. */
  lemma CutMiddle(vs: set<int>, rest: set<int>, a: int, lo: int, up: int, b: int)
    requires a <= lo <= up <= b
    requires forall v :: a <= v <= b ==> v in vs
    requires rest == (vs - Span(a, b)) + Span(a, lo - 1) + Span(up + 1, b)
    ensures rest == vs - Span(lo, up)
  {
    forall v
      ensures v in rest <==> v in vs - Span(lo, up)
    {
    }
  }

  /** A run inside a part cut out of a set is disjoint from what is left. */
  lemma CutDisjoint(vs: set<int>, rest: set<int>, a: int, b: int, lo: int, up: int)
    requires a <= lo && up <= b
    requires rest == vs - Span(a, b)
    ensures Span(lo, up) !! rest
  {
    forall v | v in Span(lo, up)
      ensures v !in rest
    {
    }
  }

  /** Removing the interval of a lower key `a`, named by either end `x`. */
  lemma RemoveLower(p: Tree, x: int, a: int) returns (q: Tree)
    requires Wf(p) && x in p && a in p && a <= p[a]
    requires a == x || a == p[x]
    ensures q == Remove(p, x)
    ensures Wf(q) && Values(q) == Values(p) - Span(a, p[a])
  {
    Partner(p, x);
    RemoveInterval(p, x);
    q := Remove(p, x);
  }

  /** The pending side of `StepHead`: the interval of `x` keeps only its part from `e` on. */
  lemma KeepFrom(p: Tree, x: int, e: int)
    requires Wf(p) && x in p && x < e <= p[x]
    ensures Wf(Insert(Remove(p, x), e, p[x]))
    ensures Values(Insert(Remove(p, x), e, p[x])) == Values(p) - Span(x, e - 1)
  {
    var y := p[x];
    var q := RemoveLower(p, x, x);
    CutDisjoint(Values(p), Values(q), x, y, e, y);
    InsertInterval(q, e, y);
    IntervalInside(p, x);
    CutHead(Values(p), Values(Insert(q, e, y)), x, e - 1, y);
  }

  /** The pending side of `StepTail`: the interval ending at `x` keeps only its part before `c`. */
  lemma KeepBefore(p: Tree, x: int, c: int)
    requires Wf(p) && x in p && p[x] < c <= x
    ensures Wf(Insert(Remove(p, x), p[x], c - 1))
    ensures Values(Insert(Remove(p, x), p[x], c - 1)) == Values(p) - Span(c, x)
  {
    var y := p[x];
    Partner(p, x);
    var q := RemoveLower(p, x, y);
    CutDisjoint(Values(p), Values(q), y, x, y, c - 1);
    InsertInterval(q, y, c - 1);
    IntervalInside(p, y);
    CutTail(Values(p), Values(Insert(q, y, c - 1)), y, c, x);
  }

  /** The entries of `Step` for a lower key reaching past the rule. */
  lemma HeadShape(s: RangeState, r: Range, x: int)
    requires x in s.pending && x < End(r) <= s.pending[x]
    ensures Step(s, r, x, s.pending[x]) ==
            RangeState(Insert(Remove(s.pending, x), End(r), s.pending[x]),
                       Insert(s.resolved, Shift(r, x), r.dst + r.len - 1))
  {
  }

  /** The entries of `Step` for an upper key starting before the rule. */
  lemma TailShape(s: RangeState, r: Range, x: int)
    requires x in s.pending && s.pending[x] < r.src <= x
    ensures Step(s, r, x, s.pending[x]) ==
            RangeState(Insert(Remove(s.pending, x), s.pending[x], r.src - 1),
                       Insert(s.resolved, r.dst, Shift(r, x)))
  {
  }

  /** Only the entries of `x` and its partner change, and the new keys lie outside the rule. */
  lemma ReplaceKeeps(p: Tree, x: int, a: int, b: int, r: Range)
    requires x in p && !Covers(r, a) && !Covers(r, b)
    ensures OthersKept(p, Insert(Remove(p, x), a, b), r, x)
  {
  }

  /** The resolved side of `StepHead`: the image of `x..End(r) - 1` goes in. */
  lemma HeadResolved(d: Tree, r: Range, x: int)
    requires Wf(d) && x < End(r)
    requires Span(Shift(r, x), Shift(r, End(r) - 1)) !! Values(d)
    ensures Wf(Insert(d, Shift(r, x), r.dst + r.len - 1))
    ensures Values(Insert(d, Shift(r, x), r.dst + r.len - 1)) == Values(d) + Span(Shift(r, x), Shift(r, End(r) - 1))
  {
    assert Shift(r, End(r) - 1) == r.dst + r.len - 1;
    AddShifted(d, r, x, End(r) - 1);
  }

  /** A lower key whose interval reaches past the rule: the part up to the end moves. */
  lemma StepHead(s: RangeState, r: Range, x: int)
    requires Wf(s.pending) && Wf(s.resolved) && x in s.pending
    requires x < End(r) <= s.pending[x]
    requires Span(Shift(r, x), Shift(r, End(r) - 1)) !! Values(s.resolved)
    ensures Moved(s, Step(s, r, x, s.pending[x]), r, x, End(r) - 1)
    ensures OthersKept(s.pending, Step(s, r, x, s.pending[x]).pending, r, x)
  {
    HeadShape(s, r, x);
    KeepFrom(s.pending, x, End(r));
    HeadResolved(s.resolved, r, x);
    ReplaceKeeps(s.pending, x, End(r), s.pending[x], r);
  }

  /** An upper key whose interval starts before the rule: the part from `src` on moves. */
  lemma StepTail(s: RangeState, r: Range, x: int)
    requires Wf(s.pending) && Wf(s.resolved) && x in s.pending
    requires s.pending[x] < r.src <= x
    requires Span(Shift(r, r.src), Shift(r, x)) !! Values(s.resolved)
    ensures Moved(s, Step(s, r, x, s.pending[x]), r, r.src, x)
    ensures OthersKept(s.pending, Step(s, r, x, s.pending[x]).pending, r, x)
  {
    TailShape(s, r, x);
    KeepBefore(s.pending, x, r.src);
    assert Shift(r, r.src) == r.dst;
    AddShifted(s.resolved, r, r.src, x);
    ReplaceKeeps(s.pending, x, s.pending[x], r.src - 1, r);
  }

  /** The interval of a lower key `x` keeps only its part before `c`. */
  lemma KeepLowerBefore(p: Tree, x: int, c: int)
    requires Wf(p) && x in p && x < c <= p[x]
    ensures Wf(Insert(Remove(p, x), x, c - 1))
    ensures Values(Insert(Remove(p, x), x, c - 1)) == Values(p) - Span(c, p[x])
  {
    var y := p[x];
    var q := RemoveLower(p, x, x);
    CutDisjoint(Values(p), Values(q), x, y, x, c - 1);
    InsertInterval(q, x, c - 1);
    IntervalInside(p, x);
    CutTail(Values(p), Values(Insert(q, x, c - 1)), x, c, y);
  }

  /** The pending side of `SplitAround`: the interval of `x` keeps its parts before `c` and from `e` on. */
  lemma KeepOutside(p: Tree, x: int, c: int, e: int)
    requires Wf(p) && x in p && x < c < e <= p[x]
    ensures Wf(Insert(Insert(Remove(p, x), x, c - 1), e, p[x]))
    ensures Values(Insert(Insert(Remove(p, x), x, c - 1), e, p[x])) == Values(p) - Span(c, e - 1)
  {
    var y := p[x];
    KeepLowerBefore(p, x, c);
    var q := Insert(Remove(p, x), x, c - 1);
    CutDisjoint(Values(p), Values(q), c, y, e, y);
    InsertInterval(q, e, y);
    IntervalInside(p, x);
    CutHead(Values(p), Values(Insert(q, e, y)), c, e - 1, y);
  }

  lemma SplitShape(s: RangeState, r: Range, x: int)
    requires LastBelow(s.pending.Keys, r.src) == Some(x) && End(r) <= s.pending[x]
    ensures SplitAround(s, r) == Cut(s, r, x)
  {
  }

  /** The cut of `SplitAround` on the pending side. */
  lemma SplitPending(p: Tree, r: Range, x: int)
    requires Wf(p) && x in p && x < r.src && End(r) <= p[x] && r.len > 0
    ensures Wf(Insert(Insert(Remove(p, x), x, r.src - 1), End(r), p[x]))
    ensures Values(Insert(Insert(Remove(p, x), x, r.src - 1), End(r), p[x])) == Values(p) - Span(r.src, End(r) - 1)
  {
    KeepOutside(p, x, r.src, End(r));
  }

  /** The image of the whole source range, added on the resolved side of `SplitAround`. */
  lemma SplitResolved(d: Tree, r: Range)
    requires Wf(d) && r.len > 0
    requires Span(Shift(r, r.src), Shift(r, End(r) - 1)) !! Values(d)
    ensures Wf(Insert(d, r.dst, r.dst + r.len - 1))
    ensures Values(Insert(d, r.dst, r.dst + r.len - 1)) == Values(d) + Span(Shift(r, r.src), Shift(r, End(r) - 1))
  {
    assert Shift(r, r.src) == r.dst && Shift(r, End(r) - 1) == r.dst + r.len - 1;
    AddShifted(d, r, r.src, End(r) - 1);
  }

  /** An interval reaching over the whole rule: the rule's whole source range moves. */
  lemma SplitMoves(s: RangeState, r: Range, x: int)
    requires Wf(s.pending) && Wf(s.resolved) && r.len > 0
    requires LastBelow(s.pending.Keys, r.src) == Some(x) && End(r) <= s.pending[x]
    requires Span(Shift(r, r.src), Shift(r, End(r) - 1)) !! Values(s.resolved)
    ensures Moved(s, SplitAround(s, r), r, r.src, End(r) - 1)
  {
    SplitShape(s, r, x);
    CutShape(s, r, x);
    SplitPending(s.pending, r, x);
    SplitResolved(s.resolved, r);
  }

  lemma CutShape(s: RangeState, r: Range, x: int)
    requires x in s.pending
    ensures Cut(s, r, x) == RangeState(Insert(Insert(Remove(s.pending, x), x, r.src - 1), End(r), s.pending[x]),
                                       Insert(s.resolved, r.dst, r.dst + r.len - 1))
  {
  }
}
