/**
 * `SimpleState`: the almanac engine on individual values. It is the
 * reference the interval engine is proved against.
 */
module PointState {
  import opened AlmanacRules
  import opened OrderedSets

  /** The values not yet moved in this stage, and the values already moved. */
  datatype PointState = PointState(pending: set<int>, resolved: set<int>)

  /** The covered part of `vs`, moved by `r`. */
  function Image(vs: set<int>, r: Range): set<int> {
    set v | v in vs && Covers(r, v) :: Shift(r, v)
  }

  /** The values of `vs` that `r` covers. */
  function CoveredPart(vs: set<int>, r: Range): set<int> {
    set v | v in vs && Covers(r, v)
  }

  /** The images of `els`, in order. */
  function ShiftAll(r: Range, els: seq<int>): (ws: seq<int>)
    ensures |ws| == |els|
    ensures forall i :: 0 <= i < |els| ==> ws[i] == Shift(r, els[i])
  {
    if |els| == 0 then [] else [Shift(r, els[0])] + ShiftAll(r, els[1..])
  }

  /** The loop of `map_range`: each value of the snapshot `els` moves to its image. */
  function MoveEach(s: PointState, r: Range, els: seq<int>): (t: PointState)
    ensures forall v :: v in t.pending <==> v in s.pending && v !in els
    ensures forall w :: w in t.resolved <==> w in s.resolved || w in ShiftAll(r, els)
    decreases |els|
  {
    if |els| == 0 then s
    else
      assert ShiftAll(r, els) == [Shift(r, els[0])] + ShiftAll(r, els[1..]);
      MoveEach(PointState(s.pending - {els[0]}, s.resolved + {Shift(r, els[0])}), r, els[1..])
  }

  /** The values of `map_range`'s snapshot: the pending values the rule covers, ascending. */
  function Snapshot(s: PointState, r: Range): seq<int> {
    Ascending(Within(s.pending, r.src, r.src + r.len))
  }

  lemma SnapshotPending(s: PointState, r: Range)
    ensures MoveEach(s, r, Snapshot(s, r)).pending == s.pending - CoveredPart(s.pending, r)
  {
    var els := Snapshot(s, r);
    var t := MoveEach(s, r, els);
    forall v
      ensures v in t.pending <==> v in s.pending - CoveredPart(s.pending, r)
    {
      assert v in els <==> v in s.pending && Covers(r, v);
    }
  }

  lemma SnapshotResolved(s: PointState, r: Range)
    ensures MoveEach(s, r, Snapshot(s, r)).resolved == s.resolved + Image(s.pending, r)
  {
    var t := MoveEach(s, r, Snapshot(s, r));
    forall w | w in t.resolved
      ensures w in s.resolved + Image(s.pending, r)
    {
      ResolvedFromImage(s, r, w);
    }
    forall w | w in Image(s.pending, r)
      ensures w in t.resolved
    {
      ImageResolved(s, r, w);
    }
  }

  /** A value resolved by the loop was resolved before or is the image of a covered value. */
  lemma ResolvedFromImage(s: PointState, r: Range, w: int)
    requires w in MoveEach(s, r, Snapshot(s, r)).resolved
    ensures w in s.resolved + Image(s.pending, r)
  {
    var els := Snapshot(s, r);
    if w !in s.resolved {
      var i :| 0 <= i < |els| && ShiftAll(r, els)[i] == w;
      assert els[i] in els;
      ImageOf(s.pending, r, els[i]);
    }
  }

  /** The image of every covered pending value is resolved by the loop. */
  lemma ImageResolved(s: PointState, r: Range, w: int)
    requires w in Image(s.pending, r)
    ensures w in MoveEach(s, r, Snapshot(s, r)).resolved
  {
    var els := Snapshot(s, r);
    ImageFrom(s.pending, r, w);
    var v := Back(r, w);
    assert v in els;
    var i :| 0 <= i < |els| && els[i] == v;
    assert ShiftAll(r, els)[i] == w;
  }

  /**
   * `SimpleState::map_range`: every pending value the rule covers moves,
   * shifted, to the resolved set; the other pending values and everything
   * already resolved stay where they are.
   */
  function MapRange(s: PointState, r: Range): (t: PointState)
    ensures t.pending == s.pending - CoveredPart(s.pending, r)
    ensures t.resolved == s.resolved + Image(s.pending, r)
  {
    SnapshotPending(s, r);
    SnapshotResolved(s, r);
    MoveEach(s, r, Snapshot(s, r))
  }

  /**
   * `SimpleState::finish`: the resolved values join the pending ones for the
   * next stage. Nothing is lost, and when the two sets do not collide
   * nothing is merged either.
   */
  function Finish(s: PointState): (t: PointState)
    ensures t.resolved == {}
    ensures forall v :: v in t.pending <==> v in s.pending || v in s.resolved
    ensures s.pending !! s.resolved ==> |t.pending| == |s.pending| + |s.resolved|
  {
    PointState(s.pending + s.resolved, {})
  }

  lemma {:induction false} ImageSize(vs: set<int>, r: Range)
    ensures |Image(vs, r)| == |CoveredPart(vs, r)|
    decreases |vs|
  {
    if vs != {} {
      HasElement(vs);
      var v :| v in vs;
      var rest := vs - {v};
      ImageSize(rest, r);
      assert vs == rest + {v};
      if Covers(r, v) {
        AddCovered(rest, r, v);
      } else {
        AddUncovered(rest, r, v);
      }
    } else {
      assert CoveredPart(vs, r) == {};
      assert Image(vs, r) == {};
    }
  }

  /** A new covered value adds one covered value and one image. */
  lemma AddCovered(rest: set<int>, r: Range, v: int)
    requires v !in rest && Covers(r, v)
    ensures |CoveredPart(rest + {v}, r)| == |CoveredPart(rest, r)| + 1
    ensures |Image(rest + {v}, r)| == |Image(rest, r)| + 1
  {
    assert CoveredPart(rest + {v}, r) == CoveredPart(rest, r) + {v};
    assert Image(rest + {v}, r) == Image(rest, r) + {Shift(r, v)};
    assert Shift(r, v) !in Image(rest, r);
  }

  /** A value the rule does not cover changes neither part. */
  lemma AddUncovered(rest: set<int>, r: Range, v: int)
    requires !Covers(r, v)
    ensures CoveredPart(rest + {v}, r) == CoveredPart(rest, r)
    ensures Image(rest + {v}, r) == Image(rest, r)
  {
  }

  /**
   * Conservation: when the moved values do not land on values already
   * resolved, `map_range` keeps the number of values.
   */
  lemma MapRangeConserves(s: PointState, r: Range)
    requires Image(s.pending, r) !! s.resolved
    ensures |MapRange(s, r).pending| + |MapRange(s, r).resolved| == |s.pending| + |s.resolved|
  {
    var t := MapRange(s, r);
    ImageSize(s.pending, r);
    assert |t.pending| == |s.pending| - |CoveredPart(s.pending, r)|;
    assert |t.resolved| == |s.resolved| + |Image(s.pending, r)|;
  }

  /** The value a resolved value came from. */
  function Back(r: Range, w: int): (v: int)
    ensures Shift(r, v) == w
  {
    r.src + (w - r.dst)
  }

  lemma ImageOf(vs: set<int>, r: Range, v: int)
    requires v in vs && Covers(r, v)
    ensures Shift(r, v) in Image(vs, r)
  {
  }

  lemma ImageFrom(vs: set<int>, r: Range, w: int)
    requires w in Image(vs, r)
    ensures Back(r, w) in vs && Covers(r, Back(r, w))
  {
  }

  /** The image of a union is the union of the images. */
  lemma ImageUnion(a: set<int>, b: set<int>, r: Range)
    ensures Image(a + b, r) == Image(a, r) + Image(b, r)
  {
    forall w | w in Image(a + b, r)
      ensures w in Image(a, r) + Image(b, r)
    {
      ImageFrom(a + b, r, w);
      if Back(r, w) in a {
        ImageOf(a, r, Back(r, w));
      } else {
        ImageOf(b, r, Back(r, w));
      }
    }
    forall w | w in Image(a, r) + Image(b, r)
      ensures w in Image(a + b, r)
    {
      if w in Image(a, r) {
        ImageFrom(a, r, w);
      } else {
        ImageFrom(b, r, w);
      }
      ImageOf(a + b, r, Back(r, w));
    }
  }

  /** `Shift` is one-to-one, so disjoint sets have disjoint images. */
  lemma ImageApart(a: set<int>, b: set<int>, r: Range)
    requires a !! b
    ensures Image(a, r) !! Image(b, r)
  {
    forall w | w in Image(a, r)
      ensures w !in Image(b, r)
    {
      ImageFrom(a, r, w);
    }
  }

  lemma ImageMono(a: set<int>, b: set<int>, r: Range)
    requires a <= b
    ensures Image(a, r) <= Image(b, r)
  {
    forall w | w in Image(a, r)
      ensures w in Image(b, r)
    {
      ImageFrom(a, r, w);
      ImageOf(b, r, Back(r, w));
    }
  }

  /** Only the covered values count for the image. */
  lemma ImageCovered(vs: set<int>, r: Range)
    ensures Image(CoveredPart(vs, r), r) == Image(vs, r)
  {
    ImageMono(CoveredPart(vs, r), vs, r);
    forall w | w in Image(vs, r)
      ensures w in Image(CoveredPart(vs, r), r)
    {
      ImageFrom(vs, r, w);
      ImageOf(CoveredPart(vs, r), r, Back(r, w));
    }
  }
}
