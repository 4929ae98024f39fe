/**
 * The cube game: each game line lists sets of cubes drawn from a bag. A
 * game is possible when no set shows more red, green or blue cubes than a
 * bag of 12 red, 13 green and 14 blue holds; the power of a game is the
 * product of the fewest cubes of each colour that make every set possible.
 */
module CubeGame {
  import opened Wrappers
  import opened AsciiText

  datatype Cubes = Cubes(red: nat, green: nat, blue: nat)

  datatype Colour = Red | Green | Blue

  /** One `N colour` item of a set. */
  datatype Item = Item(count: nat, colour: Colour)

  datatype Game = Game(id: nat, sets: seq<Cubes>)

  /** The bag the first question asks about. */
  const BAG: Cubes := Cubes(12, 13, 14)

  const NONE: Cubes := Cubes(0, 0, 0)

  function Get(x: Cubes, c: Colour): nat {
    match c
    case Red => x.red
    case Green => x.green
    case Blue => x.blue
  }

  /** `x` with the count of colour `c` replaced by `n`. */
  function Put(x: Cubes, c: Colour, n: nat): (y: Cubes)
    ensures Get(y, c) == n
    ensures forall d :: d != c ==> Get(y, d) == Get(x, d)
  {
    match c
    case Red => x.(red := n)
    case Green => x.(green := n)
    case Blue => x.(blue := n)
  }

  // ---------------------------------------------------------------------------
  // Cubes::from_str

  function ColourName(c: Colour): string {
    match c
    case Red => "red"
    case Green => "green"
    case Blue => "blue"
  }

  /** Only the three lower-case names are colours. */
  function ParseColour(s: string): (c: Option<Colour>)
    ensures c.Some? <==> s == "red" || s == "green" || s == "blue"
    ensures c.Some? ==> ColourName(c.value) == s
  {
    if s == "red" then Some(Red)
    else if s == "green" then Some(Green)
    else if s == "blue" then Some(Blue)
    else None
  }

  /**
   * One item, trimmed: the count is what comes before the first space and
   * must be a `u32`, the colour is everything after it.
   */
  function ParseItem(s: string): (r: Option<Item>)
    ensures r.Some? ==> r.value.count < U32_LIMIT
    ensures r.Some? ==> ' ' in Trim(s)
  {
    match SplitOnce(Trim(s), ' ')
    case None => None
    case Some((num, colour)) =>
      match (ParseUnsigned(num, U32_LIMIT), ParseColour(colour))
      case (Some(n), Some(c)) => Some(Item(n, c))
      case _ => None
  }

  /**
   * The counts after the items in order, starting from none of each
   * colour: each item overwrites the count of its colour.
   */
  function Apply(items: seq<Item>): Cubes {
    if |items| == 0 then NONE
    else
      var last := items[|items| - 1];
      Put(Apply(items[..|items| - 1]), last.colour, last.count)
  }

  /** The reference reading: the count of the last item of a colour, or 0 when none names it. */
  function LastCount(items: seq<Item>, c: Colour): nat {
    if |items| == 0 then 0
    else if items[|items| - 1].colour == c then items[|items| - 1].count
    else LastCount(items[..|items| - 1], c)
  }

  /** A repeated colour keeps its last count, and a colour never named stays 0. */
  lemma {:induction false} ApplyLastWins(items: seq<Item>, c: Colour)
    ensures Get(Apply(items), c) == LastCount(items, c)
    ensures (forall i :: 0 <= i < |items| ==> items[i].colour != c) ==> Get(Apply(items), c) == 0
  {
    if |items| > 0 {
      var init := items[..|items| - 1];
      assert forall i :: 0 <= i < |init| ==> init[i] == items[i];
      ApplyLastWins(init, c);
    }
  }

  /**
   * `Cubes::from_str`: the comma-separated items of one set. The first
   * item without a space, with a bad count or with an unknown colour is
   * `ParseCubesError`.
   */
  function ParseCubes(s: string): (r: Option<Cubes>)
    ensures r.Some? ==> Get(r.value, Red) < U32_LIMIT && Get(r.value, Green) < U32_LIMIT && Get(r.value, Blue) < U32_LIMIT
  {
    var ps := Split(s, ',');
    match MapAll(ps, ParseItem)
    case None =>
      None
    case Some(items) =>
      ApplyBound(items);
      Some(Apply(items))
  }

  /** The set is an error exactly when one of its items is. */
  lemma ParseCubesFails(s: string)
    ensures ParseCubes(s).None? <==> exists i :: 0 <= i < |Split(s, ',')| && ParseItem(Split(s, ',')[i]).None?
  {
    var ps := Split(s, ',');
    if ParseCubes(s).None? {
      var i := MapAllFails(ps, ParseItem);
      assert ParseItem(ps[i]).None?;
    }
  }

  lemma {:induction false} ApplyBound(items: seq<Item>)
    requires forall i :: 0 <= i < |items| ==> items[i].count < U32_LIMIT
    ensures Get(Apply(items), Red) < U32_LIMIT && Get(Apply(items), Green) < U32_LIMIT
    ensures Get(Apply(items), Blue) < U32_LIMIT
  {
    if |items| > 0 {
      ApplyBound(items[..|items| - 1]);
    }
  }

  /** An item as the input writes it, after the separator: ` 3 blue`. */
  function ShowItem(it: Item): string {
    " " + Show(it.count) + " " + ColourName(it.colour)
  }

  function ShowItems(items: seq<Item>): (ps: seq<string>)
    ensures |ps| == |items|
    ensures forall i :: 0 <= i < |items| ==> ps[i] == ShowItem(items[i])
  {
    seq(|items|, i requires 0 <= i < |items| => ShowItem(items[i]))
  }

  /** A set as the input writes it: ` 3 blue, 4 red`. */
  function ShowSet(items: seq<Item>): string
    requires |items| > 0
  {
    Join(ShowItems(items), ',')
  }

  predicate ItemsFit(items: seq<Item>) {
    forall i :: 0 <= i < |items| ==> items[i].count < U32_LIMIT
  }

  /** Round trip: a non-empty set whose counts fit in `u32` reads back as the counts it assigns. */
  lemma ParseShowSet(items: seq<Item>)
    requires |items| > 0 && ItemsFit(items)
    ensures ParseCubes(ShowSet(items)) == Some(Apply(items))
  {
    var ps := ShowItems(items);
    forall i | 0 <= i < |ps|
      ensures ',' !in ps[i] && ParseItem(ps[i]) == Some(items[i])
    {
      ItemAvoids(items[i]);
      ParseShowItem(items[i]);
    }
    SplitJoin(ps, ',');
    MapAllSucceeds(ps, ParseItem, items);
  }

  lemma ParseShowItem(it: Item)
    requires it.count < U32_LIMIT
    ensures ParseItem(ShowItem(it)) == Some(it)
  {
    var n := Show(it.count);
    var name := ColourName(it.colour);
    ItemTrims(it);
    ShowAvoids(it.count, ' ');
    SplitOnceAt(n, ' ', name);
    ParseShow(it.count, U32_LIMIT);
    ParseColourName(it.colour);
  }

  lemma ItemTrims(it: Item)
    ensures Trim(ShowItem(it)) == Show(it.count) + [' '] + ColourName(it.colour)
  {
    var t := Show(it.count) + [' '] + ColourName(it.colour);
    assert ShowItem(it) == [' '] + t;
    assert t[0] == Show(it.count)[0];
    assert t[|t| - 1] == ColourName(it.colour)[|ColourName(it.colour)| - 1];
    TrimLeadingSpace(t);
  }

  lemma ParseColourName(c: Colour)
    ensures ParseColour(ColourName(c)) == Some(c)
  {
  }

  /** A spelled-out item holds none of the separators `,`, `;` and `:`. */
  lemma ItemAvoids(it: Item)
    ensures ',' !in ShowItem(it) && ';' !in ShowItem(it) && ':' !in ShowItem(it)
  {
    ShowAvoids(it.count, ',');
    ShowAvoids(it.count, ';');
    ShowAvoids(it.count, ':');
    assert ShowItem(it) == [' '] + Show(it.count) + [' '] + ColourName(it.colour);
  }

  /** One leading space goes, and nothing else does, when the text starts and ends with a letter or digit. */
  lemma TrimLeadingSpace(t: string)
    requires |t| > 0 && !IsWhiteSpace(t[0]) && !IsWhiteSpace(t[|t| - 1])
    ensures Trim([' '] + t) == t
  {
    var s := [' '] + t;
    assert s[1..] == t;
    assert LeadingRun(s, IsWhiteSpace) == 1;
    assert s[1..][|s[1..]| - 1] == t[|t| - 1];
    assert TrailingRun(s[1..], IsWhiteSpace) == 0;
  }

  /** The empty set is not `0 red, 0 green, 0 blue` but an error: its one item has no space. */
  lemma EmptySetFails()
    ensures ParseCubes("") == None
  {
    assert Split("", ',') == [""];
    assert Trim("") == "";
  }

  // ---------------------------------------------------------------------------
  // parse_line

  /**
   * `Game 1: 3 blue, 4 red; 1 red, 2 green`: the id is the last
   * space-separated piece before the `:`, and the sets are separated by
   * `;`. Anything that does not read stops the program.
   */
  function ParseLine(s: string): (g: Option<Game>)
    ensures g.Some? ==> ':' in s && g.value.id < U32_LIMIT
  {
    match SplitOnce(s, ':')
    case None => None
    case Some((game, rest)) =>
      var pieces := Split(game, ' ');
      match (ParseUnsigned(pieces[|pieces| - 1], U32_LIMIT), MapAll(Split(rest, ';'), ParseCubes))
      case (Some(id), Some(sets)) => Some(Game(id, sets))
      case _ => None
  }

  /** Each set's items as one spelled-out set. */
  function ShowSets(sets: seq<seq<Item>>): (ps: seq<string>)
    requires forall i :: 0 <= i < |sets| ==> |sets[i]| > 0
    ensures |ps| == |sets|
    ensures forall i :: 0 <= i < |sets| ==> ps[i] == ShowSet(sets[i])
  {
    seq(|sets|, i requires 0 <= i < |sets| => ShowSet(sets[i]))
  }

  /** A game line as the input writes it. */
  function ShowLine(id: nat, sets: seq<seq<Item>>): string
    requires |sets| > 0 && forall i :: 0 <= i < |sets| ==> |sets[i]| > 0
  {
    "Game " + Show(id) + ":" + Join(ShowSets(sets), ';')
  }

  /** Round trip: a game line reads back as its id and the counts each set assigns. */
  lemma ParseShowLine(id: nat, sets: seq<seq<Item>>)
    requires id < U32_LIMIT
    requires |sets| > 0 && forall i :: 0 <= i < |sets| ==> |sets[i]| > 0 && ItemsFit(sets[i])
    ensures ParseLine(ShowLine(id, sets)) == Some(Game(id, ApplyEach(sets)))
  {
    var game := "Game " + Show(id);
    var rest := Join(ShowSets(sets), ';');
    assert ShowLine(id, sets) == game + [':'] + rest;
    ShowAvoids(id, ':');
    ShowAvoids(id, ' ');
    SplitOnceAt(game, ':', rest);
    assert game == "Game" + [' '] + Show(id);
    SplitAround("Game", ' ', Show(id));
    ParseShow(id, U32_LIMIT);
    SetsRead(sets);
  }

  function ApplyEach(sets: seq<seq<Item>>): (cs: seq<Cubes>)
    ensures |cs| == |sets|
    ensures forall i :: 0 <= i < |sets| ==> cs[i] == Apply(sets[i])
  {
    seq(|sets|, i requires 0 <= i < |sets| => Apply(sets[i]))
  }

  lemma SetsRead(sets: seq<seq<Item>>)
    requires |sets| > 0 && forall i :: 0 <= i < |sets| ==> |sets[i]| > 0 && ItemsFit(sets[i])
    ensures MapAll(Split(Join(ShowSets(sets), ';'), ';'), ParseCubes) == Some(ApplyEach(sets))
  {
    var ps := ShowSets(sets);
    forall i | 0 <= i < |ps|
      ensures ';' !in ps[i] && ParseCubes(ps[i]) == Some(Apply(sets[i]))
    {
      SetAvoids(sets[i]);
      ParseShowSet(sets[i]);
    }
    SplitJoin(ps, ';');
    MapAllSucceeds(ps, ParseCubes, ApplyEach(sets));
  }

  /** A spelled-out set holds neither `;` nor `:`. */
  lemma SetAvoids(items: seq<Item>)
    requires |items| > 0
    ensures ';' !in ShowSet(items) && ':' !in ShowSet(items)
  {
    var ps := ShowItems(items);
    forall i | 0 <= i < |ps|
      ensures ';' !in ps[i] && ':' !in ps[i]
    {
      ItemAvoids(items[i]);
    }
    JoinAvoids(ps, ',', ';');
    JoinAvoids(ps, ',', ':');
  }

  lemma {:induction false} JoinAvoids(ps: seq<string>, sep: char, c: char)
    requires |ps| > 0 && sep != c
    requires forall i :: 0 <= i < |ps| ==> c !in ps[i]
    ensures c !in Join(ps, sep)
  {
    if |ps| > 1 {
      JoinAvoids(ps[1..], sep, c);
    }
  }

  // ---------------------------------------------------------------------------
  // The two questions

  /** Component-wise `<=`. */
  predicate Within(x: Cubes, bag: Cubes) {
    x.red <= bag.red && x.green <= bag.green && x.blue <= bag.blue
  }

  /** The filter of the first question: every set fits in the bag. */
  predicate Possible(sets: seq<Cubes>) {
    forall i :: 0 <= i < |sets| ==> Within(sets[i], BAG)
  }

  function Max(a: nat, b: nat): nat {
    if a < b then b else a
  }

  /** The fold of the second question: component-wise maximum, from none of each colour. */
  function Fewest(sets: seq<Cubes>): (m: Cubes)
    ensures forall i :: 0 <= i < |sets| ==> Within(sets[i], m)
  {
    if |sets| == 0 then NONE
    else
      var x := Fewest(sets[..|sets| - 1]);
      var y := sets[|sets| - 1];
      assert forall i :: 0 <= i < |sets| - 1 ==> sets[..|sets| - 1][i] == sets[i];
      Cubes(Max(x.red, y.red), Max(x.green, y.green), Max(x.blue, y.blue))
  }

  /** Each count of the fold is one set's count of that colour, or 0 when there are no sets. */
  lemma {:induction false} FewestAttained(sets: seq<Cubes>, c: Colour)
    ensures |sets| == 0 ==> Get(Fewest(sets), c) == 0
    ensures |sets| > 0 ==> exists i :: 0 <= i < |sets| && Get(Fewest(sets), c) == Get(sets[i], c)
  {
    if |sets| > 0 {
      var init := sets[..|sets| - 1];
      var last := |sets| - 1;
      assert Get(Fewest(sets), c) == Max(Get(Fewest(init), c), Get(sets[last], c));
      if Get(Fewest(sets), c) != Get(sets[last], c) {
        FewestAttained(init, c);
        var j :| 0 <= j < |init| && Get(Fewest(init), c) == Get(init[j], c);
        assert init[j] == sets[j];
      }
    }
  }

  /** The fold is the least bag that makes every set possible. */
  lemma {:induction false} FewestLeast(sets: seq<Cubes>, bag: Cubes)
    requires forall i :: 0 <= i < |sets| ==> Within(sets[i], bag)
    ensures Within(Fewest(sets), bag)
  {
    if |sets| > 0 {
      var init := sets[..|sets| - 1];
      assert forall i :: 0 <= i < |init| ==> init[i] == sets[i];
      FewestLeast(init, bag);
    }
  }

  /** A game is possible exactly when its fewest cubes fit in the bag. */
  lemma PossibleIffFewestWithin(sets: seq<Cubes>)
    ensures Possible(sets) <==> Within(Fewest(sets), BAG)
  {
    if Possible(sets) {
      FewestLeast(sets, BAG);
    }
  }

  function Power(x: Cubes): nat {
    x.red * x.green * x.blue
  }

  /** No bag that makes every set possible has a smaller power than the fewest cubes. */
  lemma PowerLeast(sets: seq<Cubes>, bag: Cubes)
    requires forall i :: 0 <= i < |sets| ==> Within(sets[i], bag)
    ensures Power(Fewest(sets)) <= Power(bag)
  {
    FewestLeast(sets, bag);
    var m := Fewest(sets);
    MulMono(m.red, m.green, bag.red, bag.green);
    MulMono(m.red * m.green, m.blue, bag.red * bag.green, bag.blue);
  }

  lemma MulMono(a: nat, b: nat, x: nat, y: nat)
    requires a <= x && b <= y
    ensures a * b <= x * y
  {
    assert a * b <= x * b;
    assert x * b <= x * y;
  }

  /** The first answer: the sum of the ids of the possible games. */
  function PossibleIds(games: seq<Game>): nat {
    if |games| == 0 then 0
    else PossibleIds(games[..|games| - 1]) + (if Possible(games[|games| - 1].sets) then games[|games| - 1].id else 0)
  }

  /** The second answer: the sum of the powers. */
  function Powers(games: seq<Game>): nat {
    if |games| == 0 then 0 else Powers(games[..|games| - 1]) + Power(Fewest(games[|games| - 1].sets))
  }

  /** The first answer only counts possible games: their ids bound it. */
  lemma {:induction false} PossibleIdsBound(games: seq<Game>)
    ensures PossibleIds(games) <= AllIds(games)
    ensures (forall i :: 0 <= i < |games| ==> !Possible(games[i].sets)) ==> PossibleIds(games) == 0
    ensures (forall i :: 0 <= i < |games| ==> Possible(games[i].sets)) ==> PossibleIds(games) == AllIds(games)
  {
    if |games| > 0 {
      var init := games[..|games| - 1];
      assert forall i :: 0 <= i < |init| ==> init[i] == games[i];
      PossibleIdsBound(init);
    }
  }

  function AllIds(games: seq<Game>): nat {
    if |games| == 0 then 0 else AllIds(games[..|games| - 1]) + games[|games| - 1].id
  }

  /** Both answers, or `None` when a line does not read. */
  function Answers(lines: seq<string>): (r: Option<(nat, nat)>)
    ensures r.Some? <==> forall i :: 0 <= i < |lines| ==> ParseLine(lines[i]).Some?
  {
    match MapAll(lines, ParseLine)
    case None => None
    case Some(games) => Some((PossibleIds(games), Powers(games)))
  }
}
