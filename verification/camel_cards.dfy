/**
 * Camel Cards: hands of five cards with a bid. A hand's type comes from
 * the number of distinct cards ("groups") and the number of three-card
 * windows of equal cards in the sorted hand ("triplets"); hands are ranked
 * by type, then card by card, then by bid, and each bid is multiplied by
 * the hand's rank counted from the weakest. Under the joker rules `J` is
 * the weakest card but joins the largest group when the type is formed.
 */
module CamelCards {
  import opened Wrappers
  import opened AsciiText
  import opened Sorting

  datatype Hand = Hand(cards: seq<char>, bid: nat)

  // ---------------------------------------------------------------------------
  // Hand::from_str

  /** The first five characters, a space, and the bid as a `u64`. */
  function ParseHand(s: string): (r: Option<Hand>)
    ensures r.Some? <==> |s| > 5 && ' ' !in s[..5] && s[5] == ' ' && ParseUnsigned(s[6..], U64_LIMIT).Some?
    ensures r.Some? ==> r.value.cards == s[..5] && Some(r.value.bid) == ParseUnsigned(s[6..], U64_LIMIT)
  {
    match SplitOnce(s, ' ')
    case None => None
    case Some((cards, bid)) =>
      assert s == cards + [' '] + bid;
      if |cards| != 5 then None
      else
        assert s[..5] == cards && s[6..] == bid;
        match ParseUnsigned(bid, U64_LIMIT)
        case None => None
        case Some(b) => Some(Hand(cards, b))
  }

  function ShowHand(h: Hand): string {
    h.cards + [' '] + Show(h.bid)
  }

  /** Round trip: a hand of five non-space cards with a `u64` bid reads back from its line. */
  lemma ParseShowHand(h: Hand)
    requires |h.cards| == 5 && ' ' !in h.cards && h.bid < U64_LIMIT
    ensures ParseHand(ShowHand(h)) == Some(h)
  {
    var s := ShowHand(h);
    assert s[..5] == h.cards && s[5] == ' ' && s[6..] == Show(h.bid);
    ParseShow(h.bid, U64_LIMIT);
  }

  // ---------------------------------------------------------------------------
  // groups_triplets

  function CharLe(a: char, b: char): bool {
    a <= b
  }

  lemma CharLeTotal()
    ensures TotalOrder(CharLe)
  {
  }

  /** `sort_unstable` on the cards. */
  function SortedCards(cards: seq<char>): (s: seq<char>)
    ensures multiset(s) == multiset(cards) && |s| == |cards|
    ensures Sorted(s, CharLe)
  {
    CharLeTotal();
    SortSorted(cards, CharLe);
    var s := Sort(cards, CharLe);
    assert |s| == |multiset(s)| == |multiset(cards)| == |cards|;
    s
  }

  /** The windows `s[i], s[i + 1]` with `i + 2 <= n` whose two cards differ. */
  function Changes(s: seq<char>, n: nat): nat
    requires n <= |s|
  {
    if n < 2 then 0 else Changes(s, n - 1) + (if s[n - 2] != s[n - 1] then 1 else 0)
  }

  /** The windows `s[i], s[i + 1], s[i + 2]` with `i + 3 <= n` whose three cards are equal. */
  function Triples(s: seq<char>, n: nat): nat
    requires n <= |s|
  {
    if n < 3 then 0 else Triples(s, n - 1) + (if s[n - 3] == s[n - 2] && s[n - 2] == s[n - 1] then 1 else 0)
  }

  /** `groups_triplets`: one more than the changes, and the equal triples, of the sorted hand. */
  function GroupsTriplets(cards: seq<char>): (gt: (nat, nat))
    ensures gt.0 >= 1
  {
    var s := SortedCards(cards);
    (Changes(s, |s|) + 1, Triples(s, |s|))
  }

  // ---------------------------------------------------------------------------
  // The reference reading: types from the multiplicities of the cards

  /** The distinct cards of a hand. */
  function Faces(m: multiset<char>): set<char> {
    set c | c in m
  }

  /** Some card appears at least `k` times. */
  predicate HasCount(m: multiset<char>, k: nat) {
    exists c :: c in m && m[c] >= k
  }

  /** The declaration order of `HandType`, which `derive(Ord)` follows: the strongest first. */
  datatype HandType = FiveOfAKind | FourOfAKind | FullHouse | ThreeOfAKind | TwoPair | OnePair | HighCard {
    function Strength(): (n: nat)
      ensures n < 7
    {
      match this
      case FiveOfAKind => 0
      case FourOfAKind => 1
      case FullHouse => 2
      case ThreeOfAKind => 3
      case TwoPair => 4
      case OnePair => 5
      case HighCard => 6
    }
  }

  /** The types of Camel Cards, read off the multiplicities of the cards. */
  function Kind(m: multiset<char>): HandType {
    if HasCount(m, 5) then FiveOfAKind
    else if HasCount(m, 4) then FourOfAKind
    else if HasCount(m, 3) then (if |Faces(m)| == 2 then FullHouse else ThreeOfAKind)
    else if HasCount(m, 2) then (if |Faces(m)| == 3 then TwoPair else OnePair)
    else HighCard
  }

  // ---------------------------------------------------------------------------
  // HandType::from_groups_triplets, from_hand, from_hand_jokers

  function FromGroupsTriplets(groups: nat, triplets: nat): HandType {
    if groups <= 1 then FiveOfAKind
    else if groups == 2 then (if triplets > 1 then FourOfAKind else FullHouse)
    else if groups == 3 then (if triplets > 0 then ThreeOfAKind else TwoPair)
    else if groups == 4 then OnePair
    else HighCard
  }

  /** Fewer groups or more triplets never make a weaker type. */
  lemma FromGroupsTripletsMonotone(g: nat, t: nat, g': nat, t': nat)
    requires g' <= g && t <= t'
    ensures FromGroupsTriplets(g', t').Strength() <= FromGroupsTriplets(g, t).Strength()
  {
  }

  function PlainType(cards: seq<char>): HandType {
    var (g, t) := GroupsTriplets(cards);
    FromGroupsTriplets(g, t)
  }

  /** `filter(|x| x == c).count()`. */
  function Occurrences(s: seq<char>, c: char): (n: nat)
    ensures n == multiset(s)[c]
  {
    if |s| == 0 then 0
    else
      assert s == s[..|s| - 1] + [s[|s| - 1]];
      Occurrences(s[..|s| - 1], c) + (if s[|s| - 1] == c then 1 else 0)
  }

  /** Every joker joins the other cards: one group fewer, one triplet more per joker. */
  function JokerType(cards: seq<char>): HandType {
    var (g, t) := GroupsTriplets(cards);
    var jokers := Occurrences(cards, 'J');
    FromGroupsTriplets(g - (if jokers > 0 then 1 else 0), t + jokers)
  }

  /** The joker rule never makes a hand weaker. */
  lemma JokersNeverWeaker(cards: seq<char>)
    ensures JokerType(cards).Strength() <= PlainType(cards).Strength()
  {
    var (g, t) := GroupsTriplets(cards);
    var jokers := Occurrences(cards, 'J');
    FromGroupsTripletsMonotone(g, t, g - (if jokers > 0 then 1 else 0), t + jokers);
  }

  /** Without a `J` both rules give the same type. */
  lemma NoJokerSameType(cards: seq<char>)
    requires 'J' !in cards
    ensures JokerType(cards) == PlainType(cards)
  {
    assert multiset(cards)['J'] == 0;
  }

  // ---------------------------------------------------------------------------
  // The classification agrees with the reference reading

  lemma FacesSnoc(t: seq<char>, x: char)
    ensures Faces(multiset(t + [x])) == Faces(multiset(t)) + {x}
  {
    assert multiset(t + [x]) == multiset(t) + multiset{x};
  }

  /** In a sorted hand each change of card starts a new distinct card. */
  lemma {:induction false} FacesCountChanges(s: seq<char>, n: nat)
    requires Sorted(s, CharLe) && 1 <= n <= |s|
    ensures |Faces(multiset(s[..n]))| == Changes(s, n) + 1
  {
    if n == 1 {
      assert s[..1] == [] + [s[0]];
      FacesSnoc([], s[0]);
    } else {
      FacesCountChanges(s, n - 1);
      var t, x := s[..n - 1], s[n - 1];
      assert s[..n] == t + [x];
      FacesSnoc(t, x);
      if s[n - 2] == x {
        assert t[n - 2] == x;
        OldFace(Faces(multiset(t)), x);
      } else {
        FreshFace(s, n);
        NewFace(Faces(multiset(t)), x);
      }
    }
  }

  lemma OldFace(f: set<char>, x: char)
    requires x in f
    ensures |f + {x}| == |f|
  {
    assert f + {x} == f;
  }

  lemma NewFace(f: set<char>, x: char)
    requires x !in f
    ensures |f + {x}| == |f| + 1
  {
  }

  /** After a change of card, the new card is none of the sorted cards before it. */
  lemma FreshFace(s: seq<char>, n: nat)
    requires Sorted(s, CharLe) && 2 <= n <= |s| && s[n - 2] != s[n - 1]
    ensures s[n - 1] !in Faces(multiset(s[..n - 1]))
  {
    var t, x := s[..n - 1], s[n - 1];
    forall k | 0 <= k < |t|
      ensures t[k] != x
    {
      assert CharLe(s[k], s[n - 2]) || k == n - 2;
      assert CharLe(s[n - 2], x);
    }
  }

  /** How many times `c` appears among five cards. */
  lemma Multiplicity5(s: seq<char>, c: char)
    requires |s| == 5
    ensures multiset(s)[c] == (if s[0] == c then 1 else 0) + (if s[1] == c then 1 else 0) +
                              (if s[2] == c then 1 else 0) + (if s[3] == c then 1 else 0) +
                              (if s[4] == c then 1 else 0)
  {
    assert s == [s[0]] + [s[1]] + [s[2]] + [s[3]] + [s[4]];
  }

  /** Five sorted cards, in order. */
  predicate Ascending5(s: seq<char>) {
    |s| == 5 && s[0] <= s[1] <= s[2] <= s[3] <= s[4]
  }

  lemma SortedAscending5(s: seq<char>)
    requires |s| == 5 && Sorted(s, CharLe)
    ensures Ascending5(s)
  {
    assert CharLe(s[0], s[1]) && CharLe(s[1], s[2]) && CharLe(s[2], s[3]) && CharLe(s[3], s[4]);
  }

  /** A pair among five sorted cards is two equal neighbours. */
  lemma Pairs5(s: seq<char>)
    requires Ascending5(s)
    ensures HasCount(multiset(s), 2) <==> s[0] == s[1] || s[1] == s[2] || s[2] == s[3] || s[3] == s[4]
  {
    if HasCount(multiset(s), 2) {
      var c :| c in multiset(s) && multiset(s)[c] >= 2;
      Multiplicity5(s, c);
    }
    var i := if s[0] == s[1] then 0 else if s[1] == s[2] then 1 else if s[2] == s[3] then 2 else 3;
    if s[i] == s[i + 1] {
      Multiplicity5(s, s[i]);
      assert s[i] in multiset(s);
    }
  }

  /** Three of a kind among five sorted cards is a constant window of three. */
  lemma Threes5(s: seq<char>)
    requires Ascending5(s)
    ensures HasCount(multiset(s), 3) <==> s[0] == s[2] || s[1] == s[3] || s[2] == s[4]
  {
    if HasCount(multiset(s), 3) {
      var c :| c in multiset(s) && multiset(s)[c] >= 3;
      Multiplicity5(s, c);
    }
    var i := if s[0] == s[2] then 0 else if s[1] == s[3] then 1 else 2;
    if s[i] == s[i + 2] {
      Multiplicity5(s, s[i]);
      assert s[i] in multiset(s);
    }
  }

  /** Four of a kind among five sorted cards is a constant window of four. */
  lemma Fours5(s: seq<char>)
    requires Ascending5(s)
    ensures HasCount(multiset(s), 4) <==> s[0] == s[3] || s[1] == s[4]
    ensures HasCount(multiset(s), 5) <==> s[0] == s[4]
  {
    if HasCount(multiset(s), 4) {
      var c :| c in multiset(s) && multiset(s)[c] >= 4;
      Multiplicity5(s, c);
    }
    if HasCount(multiset(s), 5) {
      var c :| c in multiset(s) && multiset(s)[c] >= 5;
      Multiplicity5(s, c);
    }
    var i := if s[0] == s[3] then 0 else 1;
    if s[i] == s[i + 3] {
      Multiplicity5(s, s[i]);
      assert s[i] in multiset(s);
    }
  }

  /** The counts over five sorted cards. */
  lemma Windows5(s: seq<char>)
    requires |s| == 5 && Sorted(s, CharLe)
    ensures |Faces(multiset(s))| == Changes(s, 5) + 1
    ensures |Faces(multiset(s))| == 1 + (if s[0] != s[1] then 1 else 0) + (if s[1] != s[2] then 1 else 0)
                                      + (if s[2] != s[3] then 1 else 0) + (if s[3] != s[4] then 1 else 0)
    ensures Triples(s, 5) == (if s[0] == s[2] then 1 else 0) + (if s[1] == s[3] then 1 else 0)
                             + (if s[2] == s[4] then 1 else 0)
  {
    assert s[..5] == s;
    FacesCountChanges(s, 5);
    assert Changes(s, 1) == 0;
    assert Changes(s, 2) == (if s[0] != s[1] then 1 else 0);
    assert Changes(s, 3) == Changes(s, 2) + (if s[1] != s[2] then 1 else 0);
    assert Changes(s, 4) == Changes(s, 3) + (if s[2] != s[3] then 1 else 0);
    assert Triples(s, 2) == 0;
    assert Triples(s, 3) == (if s[0] == s[1] && s[1] == s[2] then 1 else 0);
    assert Triples(s, 4) == Triples(s, 3) + (if s[1] == s[2] && s[2] == s[3] then 1 else 0);
    SortedAscending5(s);
  }

  /**
   * `from_hand` gives every hand of five cards its Camel Cards type: five,
   * four or three of a kind by the largest multiplicity, a full house
   * against three of a kind and two pairs against one pair by the number
   * of distinct cards.
   */
  lemma TypeIsKind(cards: seq<char>)
    requires |cards| == 5
    ensures PlainType(cards) == Kind(multiset(cards))
  {
    var s := SortedCards(cards);
    Windows5(s);
    SortedAscending5(s);
    Pairs5(s);
    Threes5(s);
    Fours5(s);
  }

  // ---------------------------------------------------------------------------
  // RankedHand and JokerHand

  /** The two rule sets: `RankedHand` and `JokerHand`. */
  datatype Rules = Standard | Jokers

  /** The strength strings, strongest card first. */
  const STANDARD_ORDER: string := "AKQJT98765432"
  const JOKER_ORDER: string := "AKQT98765432J"

  function Order(rules: Rules): string {
    match rules
    case Standard => STANDARD_ORDER
    case Jokers => JOKER_ORDER
  }

  /** Both strings hold the same thirteen cards. */
  predicate IsCard(c: char) {
    c in STANDARD_ORDER
  }

  lemma SameCards(c: char)
    ensures c in STANDARD_ORDER <==> c in JOKER_ORDER
  {
    assert forall a :: 0 <= a < 3 ==> JOKER_ORDER[a] == STANDARD_ORDER[a];
    assert forall a :: 3 <= a < 12 ==> JOKER_ORDER[a] == STANDARD_ORDER[a + 1];
    assert JOKER_ORDER[12] == STANDARD_ORDER[3];
  }

  /** No card appears twice in a strength string. */
  lemma Distinct(rules: Rules)
    ensures forall a, b :: 0 <= a < b < 13 ==> Order(rules)[a] != Order(rules)[b]
  {
  }

  /** The position of a card in the strength string: smaller is stronger. */
  function CardIndex(rules: Rules, c: char): (i: nat)
    requires IsCard(c)
    ensures i < 13 && Order(rules)[i] == c
  {
    SameCards(c);
    IndexOf(Order(rules), c)
  }

  /** The card at position `i` has index `i`. */
  lemma IndexAt(rules: Rules, i: nat)
    requires i < 13
    ensures IsCard(Order(rules)[i]) && CardIndex(rules, Order(rules)[i]) == i
  {
    SameCards(Order(rules)[i]);
    Distinct(rules);
  }

  /** `J` is the fourth card under the standard rules and the weakest under the joker rules. */
  lemma JokerIsWeakest(c: char)
    requires IsCard(c) && c != 'J'
    ensures CardIndex(Standard, 'Q') < CardIndex(Standard, 'J') < CardIndex(Standard, 'T')
    ensures CardIndex(Jokers, c) < CardIndex(Jokers, 'J') == 12
  {
    IndexAt(Standard, 2);
    IndexAt(Standard, 3);
    IndexAt(Standard, 4);
    IndexAt(Jokers, 12);
  }

  /** Apart from `J`, both rule sets order the cards alike. */
  lemma SameOrderBesideJoker(c: char, d: char)
    requires IsCard(c) && IsCard(d) && c != 'J' && d != 'J'
    ensures CardIndex(Standard, c) < CardIndex(Standard, d) <==> CardIndex(Jokers, c) < CardIndex(Jokers, d)
  {
    var i, ki := ShiftPastJoker(c);
    var j, kj := ShiftPastJoker(d);
    DropKeepsOrder(i, j, ki, kj);
  }

  /** Closing the gap at position 3 keeps the order of the other positions. */
  lemma DropKeepsOrder(i: int, j: int, ki: int, kj: int)
    requires i != 3 && j != 3
    requires ki == (if i < 3 then i else i - 1) && kj == (if j < 3 then j else j - 1)
    ensures i < j <==> ki < kj
  {
  }

  /** Removing `J` from the standard string moves the cards after it one place up. */
  lemma ShiftPastJoker(c: char) returns (i: nat, k: nat)
    requires IsCard(c) && c != 'J'
    ensures i == CardIndex(Standard, c) && k == CardIndex(Jokers, c)
    ensures i != 3 && k == if i < 3 then i else i - 1
  {
    i := CardIndex(Standard, c);
    assert i != 3;
    k := if i < 3 then i else i - 1;
    assert JOKER_ORDER[k] == c;
    IndexAt(Jokers, k);
  }

  /** `RankedHand` and `JokerHand`: the fields in the order `derive(Ord)` compares them. */
  datatype Ranked = Ranked(htype: HandType, cards: seq<nat>, bid: nat)

  predicate AllCards(cards: seq<char>) {
    forall i :: 0 <= i < |cards| ==> IsCard(cards[i])
  }

  function TypeUnder(rules: Rules, cards: seq<char>): HandType {
    match rules
    case Standard => PlainType(cards)
    case Jokers => JokerType(cards)
  }

  /** `from_hand`: the type, each card's position in the strength string, and the bid. */
  function Rank(rules: Rules, h: Hand): (r: Ranked)
    requires AllCards(h.cards)
    ensures |r.cards| == |h.cards|
    ensures forall i :: 0 <= i < |h.cards| ==> r.cards[i] < 13 && Order(rules)[r.cards[i]] == h.cards[i]
  {
    Ranked(TypeUnder(rules, h.cards),
           seq(|h.cards|, i requires 0 <= i < |h.cards| => CardIndex(rules, h.cards[i])),
           h.bid)
  }

  /** Lexicographic `<`, as `Ord` compares arrays: a proper prefix comes first. */
  predicate SeqLess(a: seq<nat>, b: seq<nat>)
    decreases |a|
  {
    |b| > 0 && (|a| == 0 || a[0] < b[0] || (a[0] == b[0] && SeqLess(a[1..], b[1..])))
  }

  /** The derived `<=`: by type (the strongest first), then by cards, then by bid. */
  predicate RankedLe(x: Ranked, y: Ranked) {
    || x.htype.Strength() < y.htype.Strength()
    || (x.htype == y.htype && (SeqLess(x.cards, y.cards) || (x.cards == y.cards && x.bid <= y.bid)))
  }

  lemma {:induction false} SeqLessIrreflexive(a: seq<nat>)
    ensures !SeqLess(a, a)
  {
    if |a| > 0 {
      SeqLessIrreflexive(a[1..]);
    }
  }

  /** Of two different sequences one comes first, and never both. */
  lemma {:induction false} SeqLessTrichotomy(a: seq<nat>, b: seq<nat>)
    ensures a != b ==> SeqLess(a, b) || SeqLess(b, a)
    ensures !(SeqLess(a, b) && SeqLess(b, a))
  {
    if |a| > 0 && |b| > 0 {
      SeqLessTrichotomy(a[1..], b[1..]);
      if a[0] == b[0] && a != b {
        assert a == [a[0]] + a[1..] && b == [b[0]] + b[1..];
      }
    }
  }

  lemma {:induction false} SeqLessTransitive(a: seq<nat>, b: seq<nat>, c: seq<nat>)
    requires SeqLess(a, b) && SeqLess(b, c)
    ensures SeqLess(a, c)
  {
    if |a| > 0 && a[0] == b[0] && b[0] == c[0] {
      SeqLessTransitive(a[1..], b[1..], c[1..]);
    }
  }

  lemma StrengthInjective(x: HandType, y: HandType)
    ensures x.Strength() == y.Strength() ==> x == y
  {
  }

  /** The derived order on ranked hands is a total order. */
  lemma RankedLeTotal()
    ensures TotalOrder(RankedLe)
  {
    forall x, y
      ensures RankedLe(x, y) || RankedLe(y, x)
    {
      StrengthInjective(x.htype, y.htype);
      SeqLessTrichotomy(x.cards, y.cards);
    }
    forall x, y, z | RankedLe(x, y) && RankedLe(y, z)
      ensures RankedLe(x, z)
    {
      if x.htype == y.htype == z.htype && SeqLess(x.cards, y.cards) && SeqLess(y.cards, z.cards) {
        SeqLessTransitive(x.cards, y.cards, z.cards);
      }
    }
    forall x, y | RankedLe(x, y) && RankedLe(y, x)
      ensures x == y
    {
      StrengthInjective(x.htype, y.htype);
      SeqLessTrichotomy(x.cards, y.cards);
    }
  }

  // ---------------------------------------------------------------------------
  // The winnings

  predicate Playable(hands: seq<Hand>) {
    forall k :: 0 <= k < |hands| ==> AllCards(hands[k].cards)
  }

  function RankAll(rules: Rules, hands: seq<Hand>): (rs: seq<Ranked>)
    requires Playable(hands)
    ensures |rs| == |hands| && forall k :: 0 <= k < |hands| ==> rs[k] == Rank(rules, hands[k])
  {
    seq(|hands|, k requires 0 <= k < |hands| => Rank(rules, hands[k]))
  }

  /** The sum in `main` over the hands listed weakest first: the hand at position `i` has rank `i + 1`. */
  function Winnings(weakestFirst: seq<Ranked>): nat {
    if |weakestFirst| == 0 then 0
    else Winnings(weakestFirst[..|weakestFirst| - 1]) + |weakestFirst| * weakestFirst[|weakestFirst| - 1].bid
  }

  /** Sort (the strongest first), reverse, and sum the bids times the ranks. */
  function TotalWinnings(rules: Rules, hands: seq<Hand>): nat
    requires Playable(hands)
  {
    Winnings(Reverse(Sort(RankAll(rules, hands), RankedLe)))
  }

  /** Whichever algorithm sorts the hands, the winnings are the same. */
  lemma AnySortSameWinnings(rules: Rules, hands: seq<Hand>, sorted: seq<Ranked>)
    requires Playable(hands)
    requires Sorted(sorted, RankedLe) && multiset(sorted) == multiset(RankAll(rules, hands))
    ensures Winnings(Reverse(sorted)) == TotalWinnings(rules, hands)
  {
    var rs := RankAll(rules, hands);
    RankedLeTotal();
    SortSorted(rs, RankedLe);
    SortedUnique(sorted, Sort(rs, RankedLe), RankedLe);
  }

  /** One for each hand weaker than `x`. */
  function WeakerThan(x: Ranked): Ranked -> nat {
    y => if RankedLe(y, x) then 0 else 1
  }

  /** How many of the hands `x` beats. */
  function Beaten(rs: seq<Ranked>, x: Ranked): nat {
    SumOf(rs, WeakerThan(x))
  }

  /** A hand's bid times one more than the number of hands it beats. */
  function RankTerm(rs: seq<Ranked>): Ranked -> nat {
    x => (1 + Beaten(rs, x)) * x.bid
  }

  /** The winnings read without sorting: every bid times its rank among all the hands. */
  function RankWinnings(rs: seq<Ranked>): nat {
    SumOf(rs, RankTerm(rs))
  }

  /** In a sorted list of distinct hands, the hand at `i` beats the ones after it, and only those. */
  lemma {:induction false} BeatenFrom(s: seq<Ranked>, i: nat, k: nat)
    requires TotalOrder(RankedLe) && Sorted(s, RankedLe) && NoRepeats(s) && i < |s| && k <= |s|
    ensures SumOf(s[k..], WeakerThan(s[i])) == if k > i then |s| - k else |s| - 1 - i
    decreases |s| - k
  {
    if k < |s| {
      BeatenFrom(s, i, k + 1);
      assert s[k..][1..] == s[k + 1..];
      if k <= i {
        assert RankedLe(s[k], s[i]);
      } else {
        assert RankedLe(s[i], s[k]);
        if RankedLe(s[k], s[i]) {
          TwoCopies(s, i, k);
        }
      }
    }
  }

  /** Bids times positions counted from the end: the strongest of `n` hands has rank `n`. */
  function PositionSum(s: seq<Ranked>): nat {
    if |s| == 0 then 0 else |s| * s[0].bid + PositionSum(s[1..])
  }

  lemma {:induction false} RankTermsSorted(rs: seq<Ranked>, s: seq<Ranked>, k: nat)
    requires TotalOrder(RankedLe) && Sorted(s, RankedLe) && NoRepeats(s) && multiset(s) == multiset(rs)
    requires k <= |s|
    ensures SumOf(s[k..], RankTerm(rs)) == PositionSum(s[k..])
    decreases |s| - k
  {
    if k < |s| {
      RankTermsSorted(rs, s, k + 1);
      assert s[k..][1..] == s[k + 1..];
      SumOfPerm(rs, s, WeakerThan(s[k]));
      BeatenFrom(s, k, 0);
      assert s[0..] == s;
    }
  }

  lemma {:induction false} WinningsReverse(s: seq<Ranked>)
    ensures Winnings(Reverse(s)) == PositionSum(s)
  {
    if |s| > 0 {
      WinningsReverse(s[1..]);
      assert Reverse(s)[..|s| - 1] == Reverse(s[1..]);
    }
  }

  /**
   * With no two hands alike, the winnings are every bid times one more
   * than the number of hands it beats.
   */
  lemma WinningsByRank(rules: Rules, hands: seq<Hand>)
    requires Playable(hands) && NoRepeats(RankAll(rules, hands))
    ensures TotalWinnings(rules, hands) == RankWinnings(RankAll(rules, hands))
  {
    var rs := RankAll(rules, hands);
    var s := Sort(rs, RankedLe);
    RankedLeTotal();
    SortSorted(rs, RankedLe);
    SumOfPerm(rs, s, RankTerm(rs));
    RankTermsSorted(rs, s, 0);
    assert s[0..] == s;
    WinningsReverse(s);
  }

  /**
   * Both answers. A line that does not parse, or a card outside the
   * strength strings, stops the program.
   */
  function Answers(lines: seq<string>): (r: Option<(nat, nat)>)
    ensures r.Some? <==> forall k :: 0 <= k < |lines| ==>
                           ParseHand(lines[k]).Some? && AllCards(ParseHand(lines[k]).value.cards)
  {
    match MapAll(lines, ParseHand)
    case None => None
    case Some(hands) =>
      if Playable(hands) then Some((TotalWinnings(Standard, hands), TotalWinnings(Jokers, hands)))
      else None
  }
}
