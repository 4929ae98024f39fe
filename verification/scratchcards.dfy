/**
 * Scratchcards: each card lists winning numbers and held numbers. A card
 * scores one point for its first match and doubles for every further
 * match; a card with `m` matches also wins one copy of each of the next
 * `m` cards, once for every instance of it that is held.
 */
module Scratchcards {
  import opened Wrappers
  import opened AsciiText

  datatype Card = Card(id: nat, win: seq<nat>, have: seq<nat>)

  // ---------------------------------------------------------------------------
  // parse_line

  /**
   * `Card 1: 41 48 83 | 83 86 6`: the id is the last word before the `:`,
   * the winning numbers come before the `|` and the held ones after it.
   * Every number is a `u32`; anything else stops the program.
   */
  function ParseLine(s: string): (c: Option<Card>)
    ensures c.Some? ==> ':' in s && c.value.id < U32_LIMIT
    ensures c.Some? ==> forall i :: 0 <= i < |c.value.win| ==> c.value.win[i] < U32_LIMIT
    ensures c.Some? ==> forall i :: 0 <= i < |c.value.have| ==> c.value.have[i] < U32_LIMIT
  {
    match SplitOnce(s, ':')
    case None => None
    case Some((prefix, suffix)) =>
      var head := Words(prefix);
      if |head| == 0 then None
      else
        match ParseUnsigned(head[|head| - 1], U32_LIMIT)
        case None => None
        case Some(id) =>
          match SplitOnce(suffix, '|')
          case None => None
          case Some((win, have)) =>
            match (ParseAll(Words(win), U32_LIMIT), ParseAll(Words(have), U32_LIMIT))
            case (Some(w), Some(h)) => Some(Card(id, w, h))
            case _ => None
  }

  /** The card as the puzzle input writes it, single spaces between numbers. */
  function ShowCard(c: Card): string {
    "Card " + Show(c.id) + ": " + JoinSpaces(ShowAll(c.win)) + " | " + JoinSpaces(ShowAll(c.have))
  }

  predicate Fits(c: Card) {
    && c.id < U32_LIMIT
    && (forall i :: 0 <= i < |c.win| ==> c.win[i] < U32_LIMIT)
    && (forall i :: 0 <= i < |c.have| ==> c.have[i] < U32_LIMIT)
  }

  /** Round trip: a card whose numbers fit in `u32` reads back from its line. */
  lemma ParseShowCard(c: Card)
    requires Fits(c)
    ensures ParseLine(ShowCard(c)) == Some(c)
  {
    var w := JoinSpaces(ShowAll(c.win));
    var h := JoinSpaces(ShowAll(c.have));
    CardHalves(c);
    LabelWords(c.id);
    ParseShow(c.id, U32_LIMIT);
    NumberHalves(c);
    NumbersRead(c);
  }

  /** The `:` after the id splits the line into the label and the numbers. */
  lemma CardHalves(c: Card)
    ensures SplitOnce(ShowCard(c), ':') ==
            Some(("Card " + Show(c.id), " " + JoinSpaces(ShowAll(c.win)) + " | " + JoinSpaces(ShowAll(c.have))))
  {
    var prefix := "Card " + Show(c.id);
    var suffix := " " + JoinSpaces(ShowAll(c.win)) + " | " + JoinSpaces(ShowAll(c.have));
    assert ShowCard(c) == prefix + [':'] + suffix;
    ShowAvoids(c.id, ':');
    SplitOnceAt(prefix, ':', suffix);
  }

  /** The `|` splits the numbers into the winning and the held ones. */
  lemma NumberHalves(c: Card)
    ensures var w := JoinSpaces(ShowAll(c.win));
            var h := JoinSpaces(ShowAll(c.have));
            SplitOnce(" " + w + " | " + h, '|') == Some(([' '] + w + [' '], [' '] + h))
  {
    var w := JoinSpaces(ShowAll(c.win));
    var h := JoinSpaces(ShowAll(c.have));
    NumbersAvoid(c.win, '|');
    var a, b := [' '] + w + [' '], [' '] + h;
    assert " " + w + " | " + h == a + ['|'] + b;
    SplitOnceAt(a, '|', b);
  }

  lemma NumbersRead(c: Card)
    requires Fits(c)
    ensures ParseAll(Words([' '] + JoinSpaces(ShowAll(c.win)) + [' ']), U32_LIMIT) == Some(c.win)
    ensures ParseAll(Words([' '] + JoinSpaces(ShowAll(c.have))), U32_LIMIT) == Some(c.have)
  {
    PaddedWords(c.win, [' '] + JoinSpaces(ShowAll(c.win)) + [' ']);
    PaddedWords(c.have, [' '] + JoinSpaces(ShowAll(c.have)));
    ParseAllShow(c.win, U32_LIMIT);
    ParseAllShow(c.have, U32_LIMIT);
  }

  lemma LabelWords(id: nat)
    ensures Words("Card " + Show(id)) == ["Card", Show(id)]
  {
    ShowIsWord(id);
    assert IsWord("Card");
    assert "Card " == "Card" + [' '];
    TwoWords("Card", Show(id));
  }

  lemma TwoWords(a: string, b: string)
    requires IsWord(a) && IsWord(b)
    ensures Words(a + [' '] + b) == [a, b]
  {
    WordsSpace(a, b);
    SingleWord(a);
    SingleWord(b);
  }

  lemma {:induction false} NumbersAvoid(ns: seq<nat>, c: char)
    requires !IsAsciiDigit(c) && c != ' '
    ensures c !in JoinSpaces(ShowAll(ns))
  {
    if |ns| > 0 {
      ShowAvoids(ns[0], c);
      assert ShowAll(ns)[1..] == ShowAll(ns[1..]);
      NumbersAvoid(ns[1..], c);
    }
  }

  /** Spaces around the numbers do not change the words. */
  lemma PaddedWords(ns: seq<nat>, s: string)
    requires s == [' '] + JoinSpaces(ShowAll(ns)) + [' '] || s == [' '] + JoinSpaces(ShowAll(ns))
    ensures Words(s) == ShowAll(ns)
  {
    var j := JoinSpaces(ShowAll(ns));
    ShownWords(ns);
    if s == [' '] + j + [' '] {
      SpacesAround(j);
    } else {
      SpaceBefore(j);
    }
  }

  lemma ShownWords(ns: seq<nat>)
    ensures Words(JoinSpaces(ShowAll(ns))) == ShowAll(ns)
  {
    forall i | 0 <= i < |ns| ensures IsWord(ShowAll(ns)[i]) {
      ShowIsWord(ns[i]);
    }
    WordsJoinSpaces(ShowAll(ns));
  }

  lemma SpaceBefore(j: string)
    ensures Words([' '] + j) == Words(j)
  {
    assert [' '] + j == [] + [' '] + j;
    WordsSpace([], j);
  }

  lemma SpacesAround(j: string)
    ensures Words([' '] + j + [' ']) == Words(j)
  {
    assert [' '] + j + [' '] == [' '] + (j + [' ']);
    SpaceBefore(j + [' ']);
    assert j + [' '] == j + [' '] + [];
    WordsSpace(j, []);
  }

  // ---------------------------------------------------------------------------
  // card_matches and the points formula

  /** `card_matches`: how many held numbers, counted with repetition, are winning numbers. */
  function Matches(win: seq<nat>, have: seq<nat>): (n: nat)
    ensures n <= |have|
    ensures n == 0 <==> forall i :: 0 <= i < |have| ==> have[i] !in win
    ensures n == |have| <==> forall i :: 0 <= i < |have| ==> have[i] in win
  {
    if |have| == 0 then 0
    else
      assert forall i :: 1 <= i < |have| ==> have[i] == have[1..][i - 1];
      (if have[0] in win then 1 else 0) + Matches(win, have[1..])
  }

  /** Counting is additive over the held numbers, so their order does not matter. */
  lemma {:induction false} MatchesAppend(win: seq<nat>, a: seq<nat>, b: seq<nat>)
    ensures Matches(win, a + b) == Matches(win, a) + Matches(win, b)
  {
    if |a| > 0 {
      assert (a + b)[1..] == a[1..] + b;
      MatchesAppend(win, a[1..], b);
    } else {
      assert a + b == b;
    }
  }

  function Pow2(n: nat): (p: nat)
    ensures p >= 1
  {
    if n == 0 then 1 else 2 * Pow2(n - 1)
  }

  /**
   * `count.checked_sub(1).and_then(|x| Some(1 << x)).unwrap_or(0)`: no
   * match scores nothing, the first match scores one point and every
   * further match doubles the score.
   */
  function Points(count: nat): (p: nat)
    ensures p == 0 <==> count == 0
  {
    if count == 0 then 0 else Pow2(count - 1)
  }

  lemma PointsDouble(count: nat)
    ensures Points(1) == 1
    ensures count >= 1 ==> Points(count + 1) == 2 * Points(count)
  {
  }

  /**
   * The winning numbers are looked up in a hash set: only which numbers
   * win matters, not their order or repetition.
   */
  lemma {:induction false} MatchesSameSet(w1: seq<nat>, w2: seq<nat>, have: seq<nat>)
    requires forall x :: x in w1 <==> x in w2
    ensures Matches(w1, have) == Matches(w2, have)
  {
    if |have| > 0 {
      MatchesSameSet(w1, w2, have[1..]);
    }
  }

  // ---------------------------------------------------------------------------
  // Copies

  /**
   * The copies of card `t` won by the cards before card `k`: card `j` wins
   * one copy of each of the `counts[j]` cards after it for every instance
   * of it.
   */
  function Owed(counts: seq<nat>, k: nat, t: nat): nat
    requires k <= |counts|
    decreases k, 0
  {
    if k == 0 then 0
    else Owed(counts, k - 1, t) + (if k - 1 < t <= k - 1 + counts[k - 1] then Instances(counts, k - 1) else 0)
  }

  /** The instances of card `t` held in the end: the original and its copies. */
  function Instances(counts: seq<nat>, t: nat): (n: nat)
    requires t < |counts|
    ensures n >= 1
    decreases t, 1
  {
    1 + Owed(counts, t, t)
  }

  /** The instances of the first `k` cards. */
  function TotalInstances(counts: seq<nat>, k: nat): (n: nat)
    requires k <= |counts|
    ensures n >= k
  {
    if k == 0 then 0 else TotalInstances(counts, k - 1) + Instances(counts, k - 1)
  }

  /** The points of the first `k` cards. */
  function TotalPoints(counts: seq<nat>, k: nat): nat
    requires k <= |counts|
  {
    if k == 0 then 0 else TotalPoints(counts, k - 1) + Points(counts[k - 1])
  }

  /**
   * The loop of `main`: `extras[m]` holds the copies owed to the card `m`
   * places after the current one. The card takes its copies from the front
   * of the queue and adds its instance count to the next `count` slots,
   * pushing a slot where the queue is too short.
   */
  method CountCards(counts: seq<nat>) returns (points: nat, total: nat)
    ensures points == TotalPoints(counts, |counts|)
    ensures total == TotalInstances(counts, |counts|)
  {
    points, total := 0, 0;
    var extras: seq<nat> := [];
    var k := 0;
    while k < |counts|
      invariant k <= |counts|
      invariant points == TotalPoints(counts, k)
      invariant total == TotalInstances(counts, k)
      invariant forall t :: k <= t < k + |extras| ==> extras[t - k] == Owed(counts, k, t)
      invariant forall t :: k + |extras| <= t ==> Owed(counts, k, t) == 0
    {
      var count := counts[k];
      points := points + Points(count);
      var owed := if |extras| > 0 then extras[0] else 0;
      assert owed == Owed(counts, k, k);
      var instances := 1 + owed;
      total := total + instances;
      var base := if |extras| > 0 then extras[1..] else [];
      extras := base;
      var i := 0;
      while i < count
        invariant i <= count
        invariant |extras| == if i <= |base| then |base| else i
        invariant forall m :: 0 <= m < |extras| ==>
                    extras[m] == (if m < |base| then base[m] else 0) + (if m < i then instances else 0)
      {
        if i < |extras| {
          extras := extras[i := extras[i] + instances];
        } else {
          extras := extras + [instances];
        }
        i := i + 1;
      }
      QueueStep(counts, k, k + 1, base, extras, instances);
      k := k + 1;
    }
  }

  /** After card `k` the queue holds what the cards before card `next == k + 1` owe. */
  lemma QueueStep(counts: seq<nat>, k: nat, next: nat, base: seq<nat>, extras: seq<nat>, instances: nat)
    requires k < |counts| && next == k + 1 && instances == Instances(counts, k)
    requires forall t :: next <= t < next + |base| ==> base[t - next] == Owed(counts, k, t)
    requires forall t :: next + |base| <= t ==> Owed(counts, k, t) == 0
    requires |extras| == if counts[k] <= |base| then |base| else counts[k]
    requires forall m :: 0 <= m < |extras| ==>
               extras[m] == (if m < |base| then base[m] else 0) + (if m < counts[k] then instances else 0)
    ensures forall t :: next <= t < next + |extras| ==> extras[t - next] == Owed(counts, next, t)
    ensures forall t :: next + |extras| <= t ==> Owed(counts, next, t) == 0
  {
    forall t | next <= t < next + |extras|
      ensures extras[t - next] == Owed(counts, next, t)
    {
      if t - next >= |base| {
        assert Owed(counts, k, t) == 0;
      }
    }
    forall t | next + |extras| <= t
      ensures Owed(counts, next, t) == 0
    {
      assert Owed(counts, k, t) == 0;
    }
  }

  // ---------------------------------------------------------------------------
  // The program

  function ParseCards(lines: seq<string>): Option<seq<Card>> {
    MapAll(lines, ParseLine)
  }

  function MatchCounts(cs: seq<Card>): (counts: seq<nat>)
    ensures |counts| == |cs|
    ensures forall i :: 0 <= i < |cs| ==> counts[i] == Matches(cs[i].win, cs[i].have)
  {
    seq(|cs|, i requires 0 <= i < |cs| => Matches(cs[i].win, cs[i].have))
  }

  /** Both answers: the points and the number of cards held in the end. */
  method Answers(lines: seq<string>) returns (r: Option<(nat, nat)>)
    ensures r.Some? <==> ParseCards(lines).Some?
    ensures r.Some? ==>
              var counts := MatchCounts(ParseCards(lines).value);
              r.value == (TotalPoints(counts, |counts|), TotalInstances(counts, |counts|))
    ensures r.Some? ==> r.value.1 >= |lines|
  {
    match ParseCards(lines)
    case None =>
      r := None;
    case Some(cs) =>
      var points, total := CountCards(MatchCounts(cs));
      r := Some((points, total));
  }
}
