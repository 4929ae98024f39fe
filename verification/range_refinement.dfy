/**
 * The interval engine computes what the point engine computes: on
 * well-formed trees, `RangeState.MapRange` moves exactly the values
 * `PointState.MapRange` moves, and `RangeState.Finish` merges exactly the
 * values `PointState.Finish` merges.
 */
module RangeRefinement {
  import opened Wrappers
  import opened OrderedSets
  import opened AlmanacRules
  import opened RangeMap
  import opened RangeState
  import PointState

  // ---------------------------------------------------------------------------
  // Images of runs

  /** The image of a covered run is the shifted run. */
  lemma ImageSpan(r: Range, lo: int, up: int)
    requires r.src <= lo && up < End(r)
    ensures PointState.Image(Span(lo, up), r) == Span(Shift(r, lo), Shift(r, up))
  {
    forall w | w in PointState.Image(Span(lo, up), r)
      ensures w in Span(Shift(r, lo), Shift(r, up))
    {
      PointState.ImageFrom(Span(lo, up), r, w);
    }
    forall w | w in Span(Shift(r, lo), Shift(r, up))
      ensures w in PointState.Image(Span(lo, up), r)
    {
      PointState.ImageOf(Span(lo, up), r, PointState.Back(r, w));
    }
  }

  /** A covered run of pending values has an image clear of the resolved values. */
  lemma RunApart(vs: set<int>, d: set<int>, r: Range, lo: int, up: int)
    requires PointState.Image(vs, r) !! d
    requires r.src <= lo && up < End(r)
    requires forall v :: lo <= v <= up ==> v in vs
    ensures Span(Shift(r, lo), Shift(r, up)) !! d
  {
    assert Span(lo, up) <= vs;
    PointState.ImageMono(Span(lo, up), vs, r);
    ImageSpan(r, lo, up);
  }

  /** After moving `part`, what stays pending still has its image clear of what is resolved. */
  lemma StillApart(vp: set<int>, vd: set<int>, part: set<int>, vp1: set<int>, vd1: set<int>, r: Range)
    requires PointState.Image(vp, r) !! vd
    requires vp1 == vp - part && vd1 == vd + PointState.Image(part, r)
    ensures PointState.Image(vp1, r) !! vd1
  {
    PointState.ImageMono(vp1, vp, r);
    PointState.ImageApart(vp1, part, r);
  }

  // ---------------------------------------------------------------------------
  // What each key of the snapshot moves

  /** The key `k` is the one of its pair that moves values. */
  ghost predicate Acts(t0: Tree, r: Range, k: int)
    requires k in t0
  {
    k <= t0[k] || t0[k] < r.src
  }

  /**
   * The values the loop moves for the covered key `k` of the tree `t0` the
   * snapshot was taken from: the covered part of its interval when `k` is
   * the lower key, the part from `src` on when `k` is an upper key whose
   * interval starts before the rule, nothing otherwise.
   */
  ghost function Part(t0: Tree, r: Range, k: int): set<int>
    requires k in t0
  {
    if k <= t0[k] then
      if t0[k] < End(r) then Span(k, t0[k]) else Span(k, End(r) - 1)
    else if t0[k] < r.src then Span(r.src, k)
    else {}
  }

  /** The values the loop moves for all the keys `ks`. */
  ghost function Done(t0: Tree, r: Range, ks: seq<int>): set<int>
    requires forall i :: 0 <= i < |ks| ==> ks[i] in t0
  {
    if |ks| == 0 then {} else Part(t0, r, ks[0]) + Done(t0, r, ks[1..])
  }

  /** One turn moved `part` from pending to resolved. */
  ghost predicate Advanced(s: RangeState, t: RangeState, r: Range, part: set<int>) {
    Wf(t.pending) && Wf(t.resolved) &&
    Values(t.pending) == Values(s.pending) - part &&
    Values(t.resolved) == Values(s.resolved) + PointState.Image(part, r)
  }

  /** The invariant the loop keeps: images of pending values stay clear of resolved values. */
  ghost predicate Clear(s: RangeState, r: Range) {
    PointState.Image(Values(s.pending), r) !! Values(s.resolved)
  }

  /** Every covered key other than `k` and `k2` keeps its entry. */
  ghost predicate KeepsOthers(p: Tree, q: Tree, r: Range, k: int, k2: int) {
    forall j :: j in p && j != k && j != k2 && Covers(r, j) ==> j in q && q[j] == p[j]
  }

  /** A moved run, stated with images. */
  lemma MovedAdvanced(s: RangeState, t: RangeState, r: Range, lo: int, up: int)
    requires Moved(s, t, r, lo, up) && r.src <= lo && up < End(r)
    ensures Advanced(s, t, r, Span(lo, up))
  {
    ImageSpan(r, lo, up);
  }

  lemma ActWhole(s: RangeState, r: Range, t0: Tree, k: int)
    requires Wf(s.pending) && Wf(s.resolved) && Clear(s, r)
    requires k in t0 && k in s.pending && s.pending[k] == t0[k] && Covers(r, k)
    requires k <= t0[k] < End(r)
    ensures Advanced(s, Step(s, r, k, t0[k]), r, Part(t0, r, k))
    ensures KeepsOthers(s.pending, Step(s, r, k, t0[k]).pending, r, k, t0[k])
  {
    IntervalInside(s.pending, k);
    RunApart(Values(s.pending), Values(s.resolved), r, k, t0[k]);
    StepWhole(s, r, k);
    MovedAdvanced(s, Step(s, r, k, t0[k]), r, k, t0[k]);
  }

  lemma ActHead(s: RangeState, r: Range, t0: Tree, k: int)
    requires Wf(s.pending) && Wf(s.resolved) && Clear(s, r)
    requires k in t0 && k in s.pending && s.pending[k] == t0[k] && Covers(r, k)
    requires k <= t0[k] && End(r) <= t0[k]
    ensures Advanced(s, Step(s, r, k, t0[k]), r, Part(t0, r, k))
    ensures KeepsOthers(s.pending, Step(s, r, k, t0[k]).pending, r, k, t0[k])
  {
    IntervalInside(s.pending, k);
    RunApart(Values(s.pending), Values(s.resolved), r, k, End(r) - 1);
    StepHead(s, r, k);
    MovedAdvanced(s, Step(s, r, k, t0[k]), r, k, End(r) - 1);
  }

  lemma ActTail(s: RangeState, r: Range, t0: Tree, k: int)
    requires Wf(s.pending) && Wf(s.resolved) && Clear(s, r)
    requires k in t0 && k in s.pending && s.pending[k] == t0[k] && Covers(r, k)
    requires t0[k] < r.src
    ensures Advanced(s, Step(s, r, k, t0[k]), r, Part(t0, r, k))
    ensures KeepsOthers(s.pending, Step(s, r, k, t0[k]).pending, r, k, t0[k])
  {
    Partner(s.pending, k);
    IntervalInside(s.pending, t0[k]);
    RunApart(Values(s.pending), Values(s.resolved), r, r.src, k);
    StepTail(s, r, k);
    MovedAdvanced(s, Step(s, r, k, t0[k]), r, r.src, k);
  }

  /** One turn of the loop, whichever kind of key `k` is. */
  lemma ScanStep(s: RangeState, r: Range, t0: Tree, k: int)
    requires Wf(s.pending) && Wf(s.resolved) && Clear(s, r)
    requires k in t0 && Covers(r, k)
    requires Acts(t0, r, k) ==> k in s.pending && s.pending[k] == t0[k]
    ensures Advanced(s, Step(s, r, k, t0[k]), r, Part(t0, r, k))
    ensures Clear(Step(s, r, k, t0[k]), r)
    ensures KeepsOthers(s.pending, Step(s, r, k, t0[k]).pending, r, k, t0[k])
  {
    var s1 := Step(s, r, k, t0[k]);
    if k <= t0[k] {
      if t0[k] < End(r) {
        ActWhole(s, r, t0, k);
      } else {
        ActHead(s, r, t0, k);
      }
    } else if t0[k] < r.src {
      ActTail(s, r, t0, k);
    } else {
      assert PointState.Image({}, r) == {};
    }
    StillApart(Values(s.pending), Values(s.resolved), Part(t0, r, k), Values(s1.pending), Values(s1.resolved), r);
  }

  /** Two turns in a row move what each moves. */
  lemma Chain(s: RangeState, s1: RangeState, u: RangeState, r: Range, a: set<int>, b: set<int>)
    requires Advanced(s, s1, r, a) && Advanced(s1, u, r, b)
    ensures Advanced(s, u, r, a + b)
  {
    PointState.ImageUnion(a, b, r);
    assert Values(u.pending) == Values(s.pending) - (a + b);
  }

  /** The loop takes the first entry of the snapshot, then the rest. */
  lemma ScanUnfold(s: RangeState, r: Range, t0: Tree, ks: seq<int>)
    requires |ks| > 0 && forall i :: 0 <= i < |ks| ==> ks[i] in t0
    ensures Scan(s, r, Pairs(t0, ks)) == Scan(Step(s, r, ks[0], t0[ks[0]]), r, Pairs(t0, ks[1..]))
  {
    assert Pairs(t0, ks)[1..] == Pairs(t0, ks[1..]);
  }

  /** A later key that acts is not the partner of an earlier covered key. */
  lemma Untouched(t0: Tree, r: Range, k: int, j: int)
    requires Wf(t0) && k in t0 && j in t0 && Covers(r, k) && k < j && Acts(t0, r, j)
    ensures j != t0[k]
  {
    Partner(t0, k);
  }

  /** After the first turn, the later keys that act still have their original entries. */
  lemma LaterKept(p: Tree, q: Tree, r: Range, t0: Tree, ks: seq<int>)
    requires Wf(t0) && |ks| > 0
    requires forall i :: 0 <= i < |ks| ==> ks[i] in t0 && Covers(r, ks[i])
    requires forall i, j :: 0 <= i < j < |ks| ==> ks[i] < ks[j]
    requires forall k :: k in ks && k in t0 && Acts(t0, r, k) ==> k in p && p[k] == t0[k]
    requires KeepsOthers(p, q, r, ks[0], t0[ks[0]])
    ensures forall k :: k in ks[1..] && k in t0 && Acts(t0, r, k) ==> k in q && q[k] == t0[k]
  {
    var rest := ks[1..];
    forall j | j in rest && j in t0 && Acts(t0, r, j)
      ensures j in q && q[j] == t0[j]
    {
      var i :| 0 <= i < |rest| && rest[i] == j;
      assert ks[i + 1] == j;
      Untouched(t0, r, ks[0], j);
    }
  }

  /**
   * The loop invariant, as an induction over the snapshot: every key that
   * acts still has its original entry when its turn comes, and the loop
   * moves the parts of all keys.
   */
  lemma {:induction false} ScanMoves(s: RangeState, r: Range, t0: Tree, ks: seq<int>)
    requires Wf(t0) && Wf(s.pending) && Wf(s.resolved) && Clear(s, r)
    requires forall i :: 0 <= i < |ks| ==> ks[i] in t0 && Covers(r, ks[i])
    requires forall i, j :: 0 <= i < j < |ks| ==> ks[i] < ks[j]
    requires forall k :: k in ks && k in t0 && Acts(t0, r, k) ==> k in s.pending && s.pending[k] == t0[k]
    ensures Advanced(s, Scan(s, r, Pairs(t0, ks)), r, Done(t0, r, ks))
    decreases |ks|
  {
    if |ks| == 0 {
      assert Pairs(t0, ks) == [];
      assert PointState.Image({}, r) == {};
    } else {
      var k := ks[0];
      assert k in ks;
      var s1 := Step(s, r, k, t0[k]);
      ScanStep(s, r, t0, k);
      ScanUnfold(s, r, t0, ks);
      var rest := ks[1..];
      LaterKept(s.pending, s1.pending, r, t0, ks);
      ScanMoves(s1, r, t0, rest);
      Chain(s, s1, Scan(s1, r, Pairs(t0, rest)), r, Part(t0, r, k), Done(t0, r, rest));
    }
  }

  // ---------------------------------------------------------------------------
  // What the whole loop moves

  lemma {:induction false} DoneHas(t0: Tree, r: Range, ks: seq<int>, i: nat, v: int)
    requires forall j :: 0 <= j < |ks| ==> ks[j] in t0
    requires i < |ks| && v in Part(t0, r, ks[i])
    ensures v in Done(t0, r, ks)
    decreases i
  {
    if i > 0 {
      assert ks[1..][i - 1] == ks[i];
      DoneHas(t0, r, ks[1..], i - 1, v);
    }
  }

  /** What a covered key moves is covered and pending. */
  lemma PartCovered(t0: Tree, r: Range, k: int, v: int)
    requires Wf(t0) && k in t0 && Covers(r, k) && v in Part(t0, r, k)
    ensures v in Values(t0) && Covers(r, v)
  {
    if k <= t0[k] {
      Covered(t0, k, v);
    } else {
      Partner(t0, k);
      Covered(t0, t0[k], v);
    }
  }

  lemma {:induction false} DoneWithin(t0: Tree, r: Range, ks: seq<int>, v: int)
    requires Wf(t0)
    requires forall i :: 0 <= i < |ks| ==> ks[i] in t0 && Covers(r, ks[i])
    requires v in Done(t0, r, ks)
    ensures v in Values(t0) && Covers(r, v)
    decreases |ks|
  {
    if v in Part(t0, r, ks[0]) {
      PartCovered(t0, r, ks[0], v);
    } else {
      DoneWithin(t0, r, ks[1..], v);
    }
  }

  /** A value a covered key moves is moved by the whole loop. */
  lemma InDoneVia(t0: Tree, r: Range, k: int, v: int)
    requires k in t0 && Covers(r, k) && v in Part(t0, r, k)
    ensures v in Done(t0, r, CoveredKeys(t0, r))
  {
    var ks := CoveredKeys(t0, r);
    assert k in ks;
    var i :| 0 <= i < |ks| && ks[i] == k;
    DoneHas(t0, r, ks, i, v);
  }

  /** A covered value is moved by the key of its interval that lies inside the rule. */
  lemma CoveredInDone(t0: Tree, r: Range, v: int)
    requires Wf(t0)
    requires forall a :: a in t0 && a < r.src ==> t0[a] < End(r)
    requires v in Values(t0) && Covers(r, v)
    ensures v in Done(t0, r, CoveredKeys(t0, r))
  {
    ValuesMembers(t0);
    var a :| a in t0 && a <= v <= t0[a];
    if r.src <= a {
      assert v in Part(t0, r, a);
      InDoneVia(t0, r, a, v);
    } else {
      var b := t0[a];
      Partner(t0, a);
      assert v in Part(t0, r, b);
      InDoneVia(t0, r, b, v);
    }
  }

  /**
   * When no interval reaches over the whole rule, the keys of the snapshot
   * between them move every covered value.
   */
  lemma DoneAll(t0: Tree, r: Range)
    requires Wf(t0)
    requires forall a :: a in t0 && a < r.src ==> t0[a] < End(r)
    ensures Done(t0, r, CoveredKeys(t0, r)) == PointState.CoveredPart(Values(t0), r)
  {
    var ks := CoveredKeys(t0, r);
    forall v | v in Done(t0, r, ks)
      ensures v in PointState.CoveredPart(Values(t0), r)
    {
      DoneWithin(t0, r, ks, v);
    }
    forall v | v in PointState.CoveredPart(Values(t0), r)
      ensures v in Done(t0, r, ks)
    {
      CoveredInDone(t0, r, v);
    }
  }

  // ---------------------------------------------------------------------------
  // An interval reaching over the whole rule

  /** No key lies strictly inside the interval of a lower key. */
  lemma OutsideOther(t0: Tree, a: int, k: int)
    requires Wf(t0) && a in t0 && a <= t0[a] && k in t0
    ensures k <= a || t0[a] <= k
  {
    WfMeans(t0);
    if t0[k] < k {
      Partner(t0, k);
    }
  }

  lemma NoCoveredKeys(t0: Tree, r: Range, a: int)
    requires Wf(t0) && a in t0 && a < r.src && End(r) <= t0[a]
    ensures CoveredKeys(t0, r) == []
  {
    var w := Within(t0.Keys, r.src, End(r));
    forall k
      ensures k !in w
    {
      if k in t0 {
        OutsideOther(t0, a, k);
      }
    }
    assert w == {};
  }

  lemma StraddlerIsLast(t0: Tree, r: Range, a: int)
    requires Wf(t0) && a in t0 && a < r.src && End(r) <= t0[a]
    ensures LastBelow(t0.Keys, r.src) == Some(a)
  {
    var lb := LastBelow(t0.Keys, r.src);
    assert lb.Some?;
    OutsideOther(t0, a, lb.value);
  }

  /** `SplitAround` finds nothing to cut once the rule's first value is gone. */
  lemma SplitIdle(s: RangeState, r: Range)
    requires r.len > 0 && r.src !in Values(s.pending)
    ensures SplitAround(s, r) == s
  {
    match LastBelow(s.pending.Keys, r.src)
    case None =>
    case Some(x) =>
      NotCovered(s.pending, x, r.src);
  }

  /** The rule's whole source range lies in a run of the set, so it is the covered part. */
  lemma RunCovered(vs: set<int>, r: Range, a: int, b: int)
    requires a <= r.src && End(r) - 1 <= b
    requires forall v :: a <= v <= b ==> v in vs
    ensures Span(r.src, End(r) - 1) == PointState.CoveredPart(vs, r)
  {
    forall v
      ensures v in Span(r.src, End(r) - 1) <==> v in PointState.CoveredPart(vs, r)
    {
    }
  }

  /** With an interval reaching over the whole rule, the loop has nothing to do. */
  lemma StraddleSkipsScan(s: RangeState, r: Range, a: int)
    requires Wf(s.pending) && a in s.pending && a < r.src && End(r) <= s.pending[a]
    ensures MapRange(s, r) == SplitAround(s, r)
  {
    NoCoveredKeys(s.pending, r, a);
    assert Snapshot(s.pending, r) == [];
  }

  /** `SplitAround` cuts the rule's whole source range out of the straddling interval. */
  lemma StraddleMoves(s: RangeState, r: Range, a: int)
    requires Wf(s.pending) && Wf(s.resolved) && r.len > 0 && Clear(s, r)
    requires a in s.pending && a < r.src && End(r) <= s.pending[a]
    ensures Advanced(s, SplitAround(s, r), r, Span(r.src, End(r) - 1))
  {
    StraddlerIsLast(s.pending, r, a);
    IntervalInside(s.pending, a);
    RunApart(Values(s.pending), Values(s.resolved), r, r.src, End(r) - 1);
    SplitMoves(s, r, a);
    MovedAdvanced(s, SplitAround(s, r), r, r.src, End(r) - 1);
  }

  lemma StraddleCovered(p: Tree, r: Range, a: int)
    requires a in p && a < r.src && End(r) <= p[a]
    ensures Span(r.src, End(r) - 1) == PointState.CoveredPart(Values(p), r)
  {
    IntervalInside(p, a);
    RunCovered(Values(p), r, a, p[a]);
  }

  lemma StraddleCase(s: RangeState, r: Range, a: int)
    requires Wf(s.pending) && Wf(s.resolved) && r.len > 0 && Clear(s, r)
    requires a in s.pending && a < r.src && End(r) <= s.pending[a]
    ensures Advanced(s, MapRange(s, r), r, PointState.CoveredPart(Values(s.pending), r))
  {
    StraddleSkipsScan(s, r, a);
    StraddleMoves(s, r, a);
    StraddleCovered(s.pending, r, a);
  }

  lemma PlainCase(s: RangeState, r: Range)
    requires Wf(s.pending) && Wf(s.resolved) && r.len > 0 && Clear(s, r)
    requires forall a :: a in s.pending && a < r.src ==> s.pending[a] < End(r)
    ensures Advanced(s, MapRange(s, r), r, PointState.CoveredPart(Values(s.pending), r))
  {
    var ks := CoveredKeys(s.pending, r);
    ScanMoves(s, r, s.pending, ks);
    DoneAll(s.pending, r);
    var u := Scan(s, r, Snapshot(s.pending, r));
    assert r.src !in Values(u.pending);
    SplitIdle(u, r);
  }

  // ---------------------------------------------------------------------------
  // The refinement

  /**
   * `RangeState::map_range` agrees with `SimpleState::map_range`: on
   * well-formed trees, and when no moved value lands on a value already
   * resolved, the trees stay well-formed and denote exactly the sets the
   * point engine computes.
   */
  lemma MapRangeRefines(s: RangeState, r: Range)
    requires Wf(s.pending) && Wf(s.resolved) && r.len > 0
    requires PointState.Image(Values(s.pending), r) !! Values(s.resolved)
    ensures Wf(MapRange(s, r).pending) && Wf(MapRange(s, r).resolved)
    ensures Abs(MapRange(s, r)) == PointState.MapRange(Abs(s), r)
  {
    if a :| a in s.pending && a < r.src && End(r) <= s.pending[a] {
      StraddleCase(s, r, a);
    } else {
      PlainCase(s, r);
    }
    PointState.ImageCovered(Values(s.pending), r);
  }

  /**
   * `RangeState::finish` agrees with `SimpleState::finish`: when no
   * resolved value is also still pending, appending the resolved tree keeps
   * the pending tree well-formed, and it holds both value sets.
   */
  lemma FinishRefines(s: RangeState)
    requires Wf(s.pending) && Wf(s.resolved)
    requires Values(s.pending) !! Values(s.resolved)
    ensures Wf(Finish(s).pending) && Finish(s).resolved == map[]
    ensures Abs(Finish(s)) == PointState.Finish(Abs(s))
  {
    AppendKeepsWf(s.pending, s.resolved);
    AppendValues(s.pending, s.resolved);
    assert Values(map[]) == {} by {
      ValuesMembers(map[]);
    }
  }

  /** With the zero-length guard the refinement holds for every rule. */
  lemma MapRangeCheckedRefines(s: RangeState, r: Range)
    requires Wf(s.pending) && Wf(s.resolved)
    requires PointState.Image(Values(s.pending), r) !! Values(s.resolved)
    ensures Wf(MapRangeChecked(s, r).pending) && Wf(MapRangeChecked(s, r).resolved)
    ensures Abs(MapRangeChecked(s, r)) == PointState.MapRange(Abs(s), r)
  {
    if r.len == 0 {
      assert PointState.CoveredPart(Values(s.pending), r) == {};
      assert PointState.Image(Values(s.pending), r) == {};
    } else {
      MapRangeRefines(s, r);
    }
  }

  /**
   * The unguarded `map_range` on a rule of length zero: the pending interval
   * `0..10` and the rule "100 5 0". The point engine moves nothing, but the
   * interval engine adds the values 99 and 100 to the resolved side.
   */
  lemma ZeroLengthRuleAddsValues()
    ensures var s := RangeState(map[0 := 10, 10 := 0], map[]);
            var r := Range(100, 5, 0);
            99 in Abs(MapRange(s, r)).resolved && PointState.MapRange(Abs(s), r).resolved == {}
  {
    var s := RangeState(map[0 := 10, 10 := 0], map[]);
    var r := Range(100, 5, 0);
    assert CoveredKeys(s.pending, r) == [] by {
      assert Within(s.pending.Keys, r.src, End(r)) == {};
    }
    assert Snapshot(s.pending, r) == [];
    var lb := LastBelow(s.pending.Keys, r.src);
    assert 0 in s.pending.Keys;
    assert lb == Some(0);
    var d := Insert(map[], 100, 99);
    assert MapRange(s, r).resolved == d;
    Covered(d, 99, 99);
    assert Values(map[]) == {} by {
      ValuesMembers(map[]);
    }
    assert PointState.Image(Values(s.pending), r) == {};
  }
}
