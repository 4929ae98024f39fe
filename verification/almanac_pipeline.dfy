/**
 * The almanac program: the seeds line, then blocks of rules separated by a
 * blank line and a header line. Part one treats every seed number as a
 * value and runs the point engine; part two reads the seeds as
 * `(start, length)` pairs and runs the interval engine. Each answer is the
 * lowest value left at the end.
 */
module AlmanacPipeline {
  import opened Wrappers
  import opened AsciiText
  import opened OrderedSets
  import opened AlmanacRules
  import opened RangeMap
  import PointState
  import RangeState
  import RangeRefinement

  // ---------------------------------------------------------------------------
  // The seeds line

  /** The numbers after the last `:` of the first line. */
  function ParseSeeds(line: string): Option<seq<nat>> {
    var parts := Split(line, ':');
    ParseAll(Words(parts[|parts| - 1]), U64_LIMIT)
  }

  /** Round trip: the line `seeds: n1 n2 …` reads back its numbers. */
  lemma ParseSeedsShow(ns: seq<nat>)
    requires forall i :: 0 <= i < |ns| ==> ns[i] < U64_LIMIT
    ensures ParseSeeds("seeds: " + JoinSpaces(ShowAll(ns))) == Some(ns)
  {
    var ws := ShowAll(ns);
    var body := JoinSpaces(ws);
    ShownWords(ns);
    ColonFree(ws);
    AfterLabel(body);
    LeadingSpace(body);
    WordsJoinSpaces(ws);
    ParseAllShow(ns, U64_LIMIT);
  }

  /** The part after the last `:` of `seeds: body` is ` body`. */
  lemma AfterLabel(body: string)
    requires ':' !in body
    ensures var parts := Split("seeds: " + body, ':'); parts[|parts| - 1] == [' '] + body
  {
    var tail := [' '] + body;
    assert "seeds: " + body == "seeds" + [':'] + tail;
    SplitAround("seeds", ':', tail);
  }

  lemma LeadingSpace(body: string)
    ensures Words([' '] + body) == Words(body)
  {
    assert ([' '] + body)[1..] == body;
  }

  /** Decimal spellings are words without a `:`. */
  lemma ShownWords(ns: seq<nat>)
    ensures forall i :: 0 <= i < |ns| ==> IsWord(ShowAll(ns)[i]) && ':' !in ShowAll(ns)[i]
  {
    forall i | 0 <= i < |ns|
      ensures IsWord(ShowAll(ns)[i]) && ':' !in ShowAll(ns)[i]
    {
      var w := Show(ns[i]);
      ShowIsWord(ns[i]);
      assert forall k :: 0 <= k < |w| ==> IsAsciiDigit(w[k]);
    }
  }

  /** Words joined by spaces hold no `:` when the words hold none. */
  lemma {:induction false} ColonFree(ws: seq<string>)
    requires forall i :: 0 <= i < |ws| ==> ':' !in ws[i]
    ensures ':' !in JoinSpaces(ws)
  {
    if |ws| > 1 {
      ColonFree(ws[1..]);
    }
  }


  // ---------------------------------------------------------------------------
  // The two runs

  /** The line after a blank line is a block header and is skipped. */
  function AfterBlank(lines: seq<string>): seq<string>
    requires |lines| > 0
  {
    if |lines| >= 2 then lines[2..] else []
  }

  /**
   * The loop of `main` on the point engine: a blank line finishes the
   * stage, any other line is a rule (a line that is not a rule stops the
   * program), and the end of the input finishes the last stage.
   */
  function PointRun(s: PointState.PointState, lines: seq<string>): (o: Option<PointState.PointState>)
    ensures o.Some? ==> o.value.resolved == {}
    decreases |lines|
  {
    if |lines| == 0 then Some(PointState.Finish(s))
    else if Trim(lines[0]) == [] then PointRun(PointState.Finish(s), AfterBlank(lines))
    else
      match ParseRange(lines[0])
      case None => None
      case Some(r) => PointRun(PointState.MapRange(s, r), lines[1..])
  }

  /**
   * The same loop on the interval engine, as the program runs it: every
   * rule, a rule of length zero included, goes through `map_range`.
   */
  function RangeRun(s: RangeState.RangeState, lines: seq<string>): (o: Option<RangeState.RangeState>)
    ensures o.Some? ==> o.value.resolved == map[]
    decreases |lines|
  {
    if |lines| == 0 then Some(RangeState.Finish(s))
    else if Trim(lines[0]) == [] then RangeRun(RangeState.Finish(s), AfterBlank(lines))
    else
      match ParseRange(lines[0])
      case None => None
      case Some(r) => RangeRun(RangeState.MapRange(s, r), lines[1..])
  }

  /** The interval loop with the corrected step, which skips rules of length zero. */
  function CheckedRangeRun(s: RangeState.RangeState, lines: seq<string>): (o: Option<RangeState.RangeState>)
    ensures o.Some? ==> o.value.resolved == map[]
    decreases |lines|
  {
    if |lines| == 0 then Some(RangeState.Finish(s))
    else if Trim(lines[0]) == [] then CheckedRangeRun(RangeState.Finish(s), AfterBlank(lines))
    else
      match ParseRange(lines[0])
      case None => None
      case Some(r) => CheckedRangeRun(RangeState.MapRangeChecked(s, r), lines[1..])
  }

  /** Every rule the loop reads has a positive length. */
  predicate PositiveRules(lines: seq<string>)
    decreases |lines|
  {
    if |lines| == 0 then true
    else if Trim(lines[0]) == [] then PositiveRules(AfterBlank(lines))
    else
      match ParseRange(lines[0])
      case None => true
      case Some(r) => r.len > 0 && PositiveRules(lines[1..])
  }

  /** Without rules of length zero the program's loop and the corrected loop agree. */
  lemma {:induction false} CheckedRunAgrees(s: RangeState.RangeState, lines: seq<string>)
    requires PositiveRules(lines)
    ensures RangeRun(s, lines) == CheckedRangeRun(s, lines)
    decreases |lines|
  {
    if |lines| == 0 {
    } else if Trim(lines[0]) == [] {
      CheckedRunAgrees(RangeState.Finish(s), AfterBlank(lines));
    } else {
      match ParseRange(lines[0])
      case None =>
      case Some(r) =>
        CheckedRunAgrees(RangeState.MapRange(s, r), lines[1..]);
    }
  }

  /**
   * The point run never merges values: no rule moves a value onto one
   * already resolved, and no stage ends with a resolved value that is also
   * still pending.
   */
  ghost predicate Clean(s: PointState.PointState, lines: seq<string>)
    decreases |lines|
  {
    if |lines| == 0 then s.pending !! s.resolved
    else if Trim(lines[0]) == [] then s.pending !! s.resolved && Clean(PointState.Finish(s), AfterBlank(lines))
    else
      match ParseRange(lines[0])
      case None => true
      case Some(r) => PointState.Image(s.pending, r) !! s.resolved && Clean(PointState.MapRange(s, r), lines[1..])
  }

  lemma EmptyTree()
    ensures Wf(map[]) && Values(map[]) == {}
  {
    WfFrom(map[]);
    ValuesMembers(map[]);
  }

  /** The corrected interval run computes the point run, line by line. */
  lemma {:induction false} CheckedRunRefines(s: RangeState.RangeState, lines: seq<string>)
    requires Wf(s.pending) && Wf(s.resolved) && Clean(RangeState.Abs(s), lines)
    ensures CheckedRangeRun(s, lines).Some? <==> PointRun(RangeState.Abs(s), lines).Some?
    ensures CheckedRangeRun(s, lines).Some? ==>
              Wf(CheckedRangeRun(s, lines).value.pending) &&
              RangeState.Abs(CheckedRangeRun(s, lines).value) == PointRun(RangeState.Abs(s), lines).value
    decreases |lines|
  {
    EmptyTree();
    if |lines| == 0 {
      RangeRefinement.FinishRefines(s);
    } else if Trim(lines[0]) == [] {
      RangeRefinement.FinishRefines(s);
      CheckedRunRefines(RangeState.Finish(s), AfterBlank(lines));
    } else {
      match ParseRange(lines[0])
      case None =>
      case Some(r) =>
        RangeRefinement.MapRangeCheckedRefines(s, r);
        CheckedRunRefines(RangeState.MapRangeChecked(s, r), lines[1..]);
    }
  }

  /** The program's interval run computes the point run when no rule has length zero. */
  lemma RunRefines(s: RangeState.RangeState, lines: seq<string>)
    requires Wf(s.pending) && Wf(s.resolved) && Clean(RangeState.Abs(s), lines)
    requires PositiveRules(lines)
    ensures RangeRun(s, lines).Some? <==> PointRun(RangeState.Abs(s), lines).Some?
    ensures RangeRun(s, lines).Some? ==>
              Wf(RangeRun(s, lines).value.pending) &&
              RangeState.Abs(RangeRun(s, lines).value) == PointRun(RangeState.Abs(s), lines).value
  {
    CheckedRunAgrees(s, lines);
    CheckedRunRefines(s, lines);
  }

  // ---------------------------------------------------------------------------
  // The answers

  /** The lowest pending value at the end, if the run finished and left any. */
  function Lowest(o: Option<PointState.PointState>): (m: Option<int>)
    ensures m.Some? <==> o.Some? && o.value.pending != {}
    ensures m.Some? ==> IsLeast(m.value, o.value.pending)
  {
    if o.None? || o.value.pending == {} then None else Some(Least(o.value.pending))
  }

  /** The seed numbers as values. */
  function SeedSet(seeds: seq<nat>): (vs: set<int>)
    ensures forall v :: v in vs <==> exists i :: 0 <= i < |seeds| && seeds[i] == v
  {
    set i | 0 <= i < |seeds| :: seeds[i] as int
  }

  /** Part one: `simple_state.src.first()` after the run. */
  function PartOne(lines: seq<string>): (m: Option<int>)
    ensures m.Some? ==> |lines| > 0 && ParseSeeds(lines[0]).Some?
    ensures m.Some? ==>
              var o := PointRun(PointState.PointState(SeedSet(ParseSeeds(lines[0]).value), {}), lines[1..]);
              o.Some? && IsLeast(m.value, o.value.pending)
  {
    if |lines| == 0 then None
    else
      match ParseSeeds(lines[0])
      case None => None
      case Some(seeds) => Lowest(PointRun(PointState.PointState(SeedSet(seeds), {}), lines[1..]))
  }

  /** Part two: the first key of the pending tree after the run. */
  function PartTwo(lines: seq<string>): (m: Option<int>)
    ensures m.Some? ==> |lines| > 0 && ParseSeeds(lines[0]).Some?
  {
    if |lines| == 0 then None
    else
      match ParseSeeds(lines[0])
      case None => None
      case Some(seeds) => FirstOf(RangeRun(RangeState.RangeState(FromPairs(map[], seeds), map[]), lines[1..]))
  }

  /** Part two on the corrected loop. */
  function CheckedPartTwo(lines: seq<string>): (m: Option<int>)
    ensures m.Some? ==> |lines| > 0 && ParseSeeds(lines[0]).Some?
  {
    if |lines| == 0 then None
    else
      match ParseSeeds(lines[0])
      case None => None
      case Some(seeds) => FirstOf(CheckedRangeRun(RangeState.RangeState(FromPairs(map[], seeds), map[]), lines[1..]))
  }

  /** `first_key_value` of the pending tree, if the run finished. */
  function FirstOf(o: Option<RangeState.RangeState>): (m: Option<int>)
    ensures m.Some? <==> o.Some? && o.value.pending != map[]
    ensures m.Some? ==> m.value in o.value.pending && forall k :: k in o.value.pending ==> m.value <= k
  {
    match o
    case None => None
    case Some(s) => FirstKey(s.pending)
  }

  /**
   * The corrected part two is the lowest value the point engine reaches
   * from every value of every seed range: the interval engine answers the
   * question without enumerating the ranges.
   */
  lemma CheckedPartTwoRefines(lines: seq<string>, seeds: seq<nat>)
    requires |lines| > 0 && ParseSeeds(lines[0]) == Some(seeds)
    requires DisjointSeeds(seeds)
    requires Clean(PointState.PointState(SeedValues(seeds), {}), lines[1..])
    ensures CheckedPartTwo(lines) == Lowest(PointRun(PointState.PointState(SeedValues(seeds), {}), lines[1..]))
  {
    EmptyTree();
    var s0 := RangeState.RangeState(FromPairs(map[], seeds), map[]);
    FromPairsValues(map[], seeds);
    assert RangeState.Abs(s0) == PointState.PointState(SeedValues(seeds), {});
    CheckedRunRefines(s0, lines[1..]);
    var o := CheckedRangeRun(s0, lines[1..]);
    if o.Some? {
      var t := o.value.pending;
      if t == map[] {
        assert Values(t) == {};
      } else {
        FirstKeyIsLeastValue(t);
      }
    }
  }

  /** The program's part two gives the same answer when no rule has length zero. */
  lemma PartTwoRefines(lines: seq<string>, seeds: seq<nat>)
    requires |lines| > 0 && ParseSeeds(lines[0]) == Some(seeds)
    requires DisjointSeeds(seeds)
    requires Clean(PointState.PointState(SeedValues(seeds), {}), lines[1..])
    requires PositiveRules(lines[1..])
    ensures PartTwo(lines) == CheckedPartTwo(lines)
    ensures PartTwo(lines) == Lowest(PointRun(PointState.PointState(SeedValues(seeds), {}), lines[1..]))
  {
    CheckedRunAgrees(RangeState.RangeState(FromPairs(map[], seeds), map[]), lines[1..]);
    CheckedPartTwoRefines(lines, seeds);
  }
}
