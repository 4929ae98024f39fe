/**
 * Haunted Wasteland: a network of nodes, each with a left and a right
 * neighbour, walked by cycling through a string of `L`/`R` instructions.
 * The first answer counts the moves from `AAA` to `ZZZ`; the second finds,
 * for every node ending in `A`, the period after which the walk revisits a
 * node ending in `Z` at the same instruction, and folds the periods into
 * their least common multiple.
 *
 * The source walks until it stops, which the input may never make it do;
 * here every walk carries an explicit `fuel` bound on the number of moves.
 */
module Wasteland {
  import opened Wrappers
  import opened AsciiText
  import Euclid

  /** One line of the network: a node and its two neighbours. */
  datatype Node = Node(name: string, left: string, right: string)

  /** Node name to (left, right) neighbours. */
  type Network = map<string, (string, string)>

  /** The instructions and the network. */
  datatype Documents = Documents(instructions: string, network: Network)

  predicate EndsWith(s: string, c: char) {
    |s| > 0 && s[|s| - 1] == c
  }

  // ---------------------------------------------------------------------------
  // Parsing `NAME = (LEFT, RIGHT)`

  /** `s` neither starts nor ends with whitespace. */
  predicate Trimmed(s: string) {
    |s| == 0 || (!IsWhiteSpace(s[0]) && !IsWhiteSpace(s[|s| - 1]))
  }

  /**
   * Everything before the first `=` is the name; after it, the text is
   * trimmed, stripped of `(` at both ends, then of `)`, and cut at the
   * first `,`. All three parts are trimmed. A missing `=` or `,` is a panic.
   */
  function ParseNode(line: string): (r: Option<Node>)
    ensures '=' !in line ==> r.None?
    ensures r.Some? ==> '=' !in r.value.name && ',' !in r.value.left
    ensures r.Some? ==> Trimmed(r.value.name) && Trimmed(r.value.left) && Trimmed(r.value.right)
  {
    match SplitOnce(line, '=')
    case None => None
    case Some((node, edges)) =>
      var inner := TrimMatches(TrimMatches(Trim(edges), '('), ')');
      match SplitOnce(inner, ',')
      case None => None
      case Some((left, right)) =>
        TrimByAvoids(node, IsWhiteSpace, '=');
        TrimByAvoids(left, IsWhiteSpace, ',');
        Some(Node(Trim(node), Trim(left), Trim(right)))
  }

  /** A node name: non-empty, without whitespace or the separators `=`, `(`, `)`, `,`. */
  predicate IsName(w: string) {
    && |w| > 0
    && forall k :: 0 <= k < |w| ==> !IsWhiteSpace(w[k]) && w[k] != '=' && w[k] != '(' && w[k] != ')' && w[k] != ','
  }

  /** `LEFT, RIGHT` */
  function Pair(l: string, r: string): string {
    l + ", " + r
  }

  /** `(LEFT, RIGHT)` */
  function Bracketed(l: string, r: string): string {
    "(" + Pair(l, r) + ")"
  }

  function ShowNode(n: Node): string {
    n.name + " = " + Bracketed(n.left, n.right)
  }

  /** Round trip: a node written in the input's layout parses back to itself. */
  lemma ParseShowNode(n: Node)
    requires IsName(n.name) && IsName(n.left) && IsName(n.right)
    ensures ParseNode(ShowNode(n)) == Some(n)
  {
    NameSplits(n);
    TrimPadded([], n.name, " ");
    assert [] + n.name + " " == n.name + " ";
    DropBlank(n.left, n.right);
    DropOpen(n.left, n.right);
    DropClose(n.left, n.right);
    InnerSplits(n.left, n.right);
    NamesTrim(n.left, n.right);
  }

  lemma NameSplits(n: Node)
    requires IsName(n.name)
    ensures SplitOnce(ShowNode(n), '=') == Some((n.name + " ", " " + Bracketed(n.left, n.right)))
  {
    var edges := " " + Bracketed(n.left, n.right);
    assert ShowNode(n) == (n.name + " ") + ['='] + edges;
    SplitOnceAt(n.name + " ", '=', edges);
  }

  lemma InnerSplits(l: string, r: string)
    requires IsName(l)
    ensures SplitOnce(Pair(l, r), ',') == Some((l, " " + r))
  {
    assert Pair(l, r) == l + [','] + (" " + r);
    SplitOnceAt(l, ',', " " + r);
  }

  lemma DropBlank(l: string, r: string)
    ensures Trim(" " + Bracketed(l, r)) == Bracketed(l, r)
  {
    var b := Bracketed(l, r);
    assert b[0] == '(' && b[|b| - 1] == ')';
    TrimPadded(" ", b, []);
    assert " " + b + [] == " " + b;
  }

  lemma DropOpen(l: string, r: string)
    requires IsName(l)
    ensures TrimMatches(Bracketed(l, r), '(') == Pair(l, r) + ")"
  {
    var unopened := Pair(l, r) + ")";
    assert unopened[0] == l[0];
    TrimMatchesPadded("(", unopened, [], '(');
    assert "(" + unopened + [] == Bracketed(l, r);
  }

  lemma DropClose(l: string, r: string)
    requires IsName(l) && IsName(r)
    ensures TrimMatches(Pair(l, r) + ")", ')') == Pair(l, r)
  {
    var inner := Pair(l, r);
    assert inner[0] == l[0] && inner[|inner| - 1] == r[|r| - 1];
    TrimMatchesPadded([], inner, ")", ')');
    assert [] + inner + ")" == inner + ")";
  }

  lemma NamesTrim(l: string, r: string)
    requires IsName(l) && IsName(r)
    ensures Trim(l) == l && Trim(" " + r) == r
  {
    TrimPadded([], l, []);
    assert [] + l + [] == l;
    TrimPadded(" ", r, []);
    assert " " + r + [] == " " + r;
  }

  /** The network of the node lines; a later line for the same name replaces an earlier one. */
  function NetworkOf(nodes: seq<Node>): (net: Network)
    ensures forall k :: k in net <==> exists i :: 0 <= i < |nodes| && nodes[i].name == k
  {
    if |nodes| == 0 then map[]
    else
      var last := nodes[|nodes| - 1];
      var before := NetworkOf(nodes[..|nodes| - 1]);
      assert forall i :: 0 <= i < |nodes| - 1 ==> nodes[..|nodes| - 1][i] == nodes[i];
      before[last.name := (last.left, last.right)]
  }

  /** The last line naming a node decides its neighbours. */
  lemma {:induction false} NetworkLastWins(nodes: seq<Node>, i: nat)
    requires i < |nodes|
    requires forall j :: i < j < |nodes| ==> nodes[j].name != nodes[i].name
    ensures NetworkOf(nodes)[nodes[i].name] == (nodes[i].left, nodes[i].right)
  {
    if i < |nodes| - 1 {
      var init := nodes[..|nodes| - 1];
      assert init[i] == nodes[i];
      forall j | i < j < |init|
        ensures init[j].name != init[i].name
      {
        assert init[j] == nodes[j];
      }
      NetworkLastWins(init, i);
    }
  }

  // ---------------------------------------------------------------------------
  // The walk

  /** Move `k` leaves `node` by instruction `k mod n`: `L` goes left, anything else right. */
  function Move(d: Documents, node: string, k: nat): (r: Option<string>)
    requires |d.instructions| > 0
    ensures r.None? <==> node !in d.network
    ensures r.Some? && d.instructions[k % |d.instructions|] == 'L' ==> r.value == d.network[node].0
    ensures r.Some? && d.instructions[k % |d.instructions|] != 'L' ==> r.value == d.network[node].1
  {
    if node !in d.network then None
    else
      var (left, right) := d.network[node];
      Some(if d.instructions[k % |d.instructions|] == 'L' then left else right)
  }

  /** Where the walk from `start` stands after `k` moves; `None` once it left the network. */
  function Position(d: Documents, start: string, k: nat): Option<string>
    requires |d.instructions| > 0
  {
    if k == 0 then Some(start)
    else match Position(d, start, k - 1)
      case None => None
      case Some(node) => Move(d, node, k - 1)
  }

  /** Once the walk has left the network it stays out. */
  lemma {:induction false} PositionStuck(d: Documents, start: string, a: nat, b: nat)
    requires |d.instructions| > 0 && a <= b && Position(d, start, a).None?
    ensures Position(d, start, b).None?
    decreases b - a
  {
    if a < b {
      PositionStuck(d, start, a + 1, b);
    }
  }

  /** Outcome of a walk: it stopped after `steps` moves, panicked on a node outside the network, or ran out of fuel. */
  datatype Walked = Found(steps: nat) | Missing(node: string) | Exhausted

  /** The first loop: from `cur` after `steps` moves, move until standing on `ZZZ`. */
  function WalkFrom(d: Documents, cur: string, steps: nat, fuel: nat): (w: Walked)
    requires |d.instructions| > 0
    ensures w.Found? ==> steps <= w.steps <= steps + fuel
    ensures w.Missing? ==> w.node !in d.network
    decreases fuel
  {
    if cur == "ZZZ" then Found(steps)
    else if fuel == 0 then Exhausted
    else match Move(d, cur, steps)
      case None => Missing(cur)
      case Some(next) => WalkFrom(d, next, steps + 1, fuel - 1)
  }

  /** The first answer; with no instructions the cycling loop has nothing to run and prints 0. */
  function StepsToZZZ(d: Documents, fuel: nat): Walked {
    if |d.instructions| == 0 then Found(0) else WalkFrom(d, "AAA", 0, fuel)
  }

  /** After `s` moves the walk from `start` stands on `ZZZ` for the first time. */
  ghost predicate FirstArrival(d: Documents, start: string, s: nat)
    requires |d.instructions| > 0
  {
    && Position(d, start, s) == Some("ZZZ")
    && forall k :: 0 <= k < s ==> Position(d, start, k) != Some("ZZZ")
  }

  lemma {:induction false} WalkFromFinds(d: Documents, start: string, cur: string, j: nat, fuel: nat, s: nat)
    requires |d.instructions| > 0
    requires Position(d, start, j) == Some(cur)
    requires forall k :: 0 <= k < j ==> Position(d, start, k) != Some("ZZZ")
    ensures WalkFrom(d, cur, j, fuel) == Found(s) <==> j <= s <= j + fuel && FirstArrival(d, start, s)
    decreases fuel
  {
    if cur == "ZZZ" {
      if j < s {
        assert Position(d, start, j) == Some("ZZZ");
      }
    } else if fuel == 0 {
    } else {
      var next := Move(d, cur, j);
      if next.None? {
        if j < s {
          PositionStuck(d, start, j + 1, s);
        }
      } else {
        assert Position(d, start, j + 1) == next;
        WalkFromFinds(d, start, next.value, j + 1, fuel - 1, s);
      }
    }
  }

  /** The first answer is `s` exactly when `ZZZ` is first reached after `s` moves, within the fuel. */
  lemma StepsToZZZExact(d: Documents, fuel: nat, s: nat)
    requires |d.instructions| > 0
    ensures StepsToZZZ(d, fuel) == Found(s) <==> s <= fuel && FirstArrival(d, "AAA", s)
  {
    WalkFromFinds(d, "AAA", "AAA", 0, fuel, s);
  }

  // ---------------------------------------------------------------------------
  // Period detection

  /** After `k` moves the walk stands on a node ending in `Z`. */
  ghost predicate AtEnd(d: Documents, start: string, k: nat)
    requires |d.instructions| > 0
  {
    Position(d, start, k).Some? && EndsWith(Position(d, start, k).value, 'Z')
  }

  /** The key the source records at move `k`: the node and the instruction index. */
  function KeyAt(d: Documents, start: string, k: nat): (string, nat)
    requires |d.instructions| > 0
  {
    (Position(d, start, k).GetOr(""), k % |d.instructions|)
  }

  /** Moves `a` and `b` both stand on the same `Z` node at the same instruction index. */
  ghost predicate SameKey(d: Documents, start: string, a: nat, b: nat)
    requires |d.instructions| > 0
  {
    AtEnd(d, start, a) && AtEnd(d, start, b) && KeyAt(d, start, a) == KeyAt(d, start, b)
  }

  ghost predicate NoRepeatBefore(d: Documents, start: string, s: nat)
    requires |d.instructions| > 0
  {
    forall a, b :: 0 <= a < b < s ==> !SameKey(d, start, a, b)
  }

  /** Move `s` is the first to repeat a key, and `f` is the move that recorded it. */
  ghost predicate FirstRepeat(d: Documents, start: string, f: nat, s: nat)
    requires |d.instructions| > 0
  {
    f < s && SameKey(d, start, f, s) && NoRepeatBefore(d, start, s)
  }

  /** `seen` holds exactly the keys of the `Z` moves before `steps`, each with its move. */
  ghost predicate Recorded(d: Documents, start: string, seen: map<(string, nat), nat>, steps: nat)
    requires |d.instructions| > 0
  {
    && (forall key :: key in seen ==> seen[key] < steps && AtEnd(d, start, seen[key]) && KeyAt(d, start, seen[key]) == key)
    && (forall k :: 0 <= k < steps && AtEnd(d, start, k) ==> KeyAt(d, start, k) in seen)
  }

  /**
   * The second loop for one start: at a `Z` node, look up the key
   * (node, instruction index); a recorded key gives `steps - first`, an
   * unrecorded one is recorded with the current `steps`. Then move.
   */
  function DetectFrom(d: Documents, cur: string, steps: nat, seen: map<(string, nat), nat>, fuel: nat): (w: Walked)
    requires |d.instructions| > 0
    requires forall key :: key in seen ==> seen[key] < steps
    ensures w.Found? ==> 0 < w.steps <= steps + fuel
    ensures w.Missing? ==> w.node !in d.network
    decreases fuel
  {
    var key := (cur, steps % |d.instructions|);
    if EndsWith(cur, 'Z') && key in seen then Found(steps - seen[key])
    else
      var seen' := if EndsWith(cur, 'Z') then seen[key := steps] else seen;
      if fuel == 0 then Exhausted
      else match Move(d, cur, steps)
        case None => Missing(cur)
        case Some(next) => DetectFrom(d, next, steps + 1, seen', fuel - 1)
  }

  /** The period found for `start`; `Found(p)` carries the period. */
  function Period(d: Documents, start: string, fuel: nat): Walked
    requires |d.instructions| > 0
  {
    DetectFrom(d, start, 0, map[], fuel)
  }

  /** One move of the detection loop keeps `seen` equal to the recorded keys. */
  lemma RecordStep(d: Documents, start: string, cur: string, j: nat, seen: map<(string, nat), nat>)
    requires |d.instructions| > 0
    requires Position(d, start, j) == Some(cur)
    requires Recorded(d, start, seen, j) && NoRepeatBefore(d, start, j)
    requires !(EndsWith(cur, 'Z') && (cur, j % |d.instructions|) in seen)
    ensures var seen' := if EndsWith(cur, 'Z') then seen[(cur, j % |d.instructions|) := j] else seen;
      Recorded(d, start, seen', j + 1) && NoRepeatBefore(d, start, j + 1)
  {
    forall a, b | 0 <= a < b < j + 1
      ensures !SameKey(d, start, a, b)
    {
    }
  }

  /** A found period comes from the first repeated key. */
  lemma {:induction false} DetectSound(d: Documents, start: string, cur: string, j: nat, seen: map<(string, nat), nat>, fuel: nat)
    returns (f: nat, s: nat)
    requires |d.instructions| > 0
    requires Position(d, start, j) == Some(cur)
    requires Recorded(d, start, seen, j) && NoRepeatBefore(d, start, j)
    requires DetectFrom(d, cur, j, seen, fuel).Found?
    ensures FirstRepeat(d, start, f, s) && s <= j + fuel
    ensures DetectFrom(d, cur, j, seen, fuel) == Found(s - f)
    decreases fuel
  {
    var key := (cur, j % |d.instructions|);
    if EndsWith(cur, 'Z') && key in seen {
      f, s := seen[key], j;
    } else {
      var seen' := if EndsWith(cur, 'Z') then seen[key := j] else seen;
      RecordStep(d, start, cur, j, seen);
      var next := Move(d, cur, j);
      assert Position(d, start, j + 1) == next;
      f, s := DetectSound(d, start, next.value, j + 1, seen', fuel - 1);
    }
  }

  /** The first repeated key, reached within the fuel, is found. */
  lemma {:induction false} DetectComplete(d: Documents, start: string, cur: string, j: nat, seen: map<(string, nat), nat>, fuel: nat, f: nat, s: nat)
    requires |d.instructions| > 0
    requires Position(d, start, j) == Some(cur)
    requires Recorded(d, start, seen, j) && NoRepeatBefore(d, start, j)
    requires FirstRepeat(d, start, f, s) && s <= j + fuel
    ensures DetectFrom(d, cur, j, seen, fuel) == Found(s - f)
    decreases fuel
  {
    var key := (cur, j % |d.instructions|);
    assert j <= s;
    if s == j {
      assert KeyAt(d, start, f) == key;
      assert key in seen;
      var g := seen[key];
      if g != f {
        assert SameKey(d, start, if g < f then g else f, if g < f then f else g);
      }
    } else {
      if EndsWith(cur, 'Z') && key in seen {
        assert SameKey(d, start, seen[key], j);
      }
      var seen' := if EndsWith(cur, 'Z') then seen[key := j] else seen;
      RecordStep(d, start, cur, j, seen);
      var next := Move(d, cur, j);
      assert Position(d, start, j + 1) == next;
      if next.None? {
        PositionStuck(d, start, j + 1, s);
      }
      DetectComplete(d, start, next.value, j + 1, seen', fuel - 1, f, s);
    }
  }

  /** Before the first move nothing is recorded and nothing repeats. */
  lemma StartRecorded(d: Documents, start: string)
    requires |d.instructions| > 0
    ensures Position(d, start, 0) == Some(start)
    ensures Recorded(d, start, map[], 0) && NoRepeatBefore(d, start, 0)
  {
  }

  /** The period is `p` exactly when the first repeated key, within the fuel, recurs after `p` moves. */
  lemma PeriodExact(d: Documents, start: string, fuel: nat, p: nat)
    requires |d.instructions| > 0
    ensures Period(d, start, fuel) == Found(p) <==> exists f: nat, s: nat :: FirstRepeat(d, start, f, s) && s <= fuel && p + f == s
  {
    StartRecorded(d, start);
    if Period(d, start, fuel) == Found(p) {
      var f, s := DetectSound(d, start, start, 0, map[], fuel);
    }
    if exists f: nat, s: nat :: FirstRepeat(d, start, f, s) && s <= fuel && p + f == s {
      var f: nat, s: nat :| FirstRepeat(d, start, f, s) && s <= fuel && p + f == s;
      DetectComplete(d, start, start, 0, map[], fuel, f, s);
    }
  }

  /** Equal positions at equal instruction indices have equal futures. */
  lemma {:induction false} SameFuture(d: Documents, start: string, a: nat, b: nat, j: nat)
    requires |d.instructions| > 0
    requires Position(d, start, a) == Position(d, start, b)
    requires a % |d.instructions| == b % |d.instructions|
    ensures Position(d, start, a + j) == Position(d, start, b + j)
    ensures (a + j) % |d.instructions| == (b + j) % |d.instructions|
  {
    if j > 0 {
      SameFuture(d, start, a, b, j - 1);
      ModStep(a + j - 1, b + j - 1, |d.instructions|);
    }
  }

  /** Equal remainders stay equal one step on. */
  lemma ModStep(a: nat, b: nat, n: nat)
    requires n > 0 && a % n == b % n
    ensures (a + 1) % n == (b + 1) % n
  {
    var r := a % n;
    if r + 1 < n {
      Euclid.DivModUnique(a + 1, n, a / n, r + 1);
      Euclid.DivModUnique(b + 1, n, b / n, r + 1);
    } else {
      Euclid.DivModUnique(a + 1, n, a / n + 1, 0);
      Euclid.DivModUnique(b + 1, n, b / n + 1, 0);
    }
  }

  /** From the move that recorded the key on, the walk repeats with the detected period. */
  lemma PeriodRepeats(d: Documents, start: string, f: nat, s: nat)
    requires |d.instructions| > 0
    requires f < s && SameKey(d, start, f, s)
    ensures forall k :: f <= k ==> Position(d, start, k + (s - f)) == Position(d, start, k)
  {
    forall k | f <= k
      ensures Position(d, start, k + (s - f)) == Position(d, start, k)
    {
      SameFuture(d, start, f, s, k - f);
    }
  }

  // ---------------------------------------------------------------------------
  // The second answer

  /** The names of the node lines that end in `A`, in line order. */
  function Starts(nodes: seq<Node>): (r: seq<string>)
    ensures forall k :: k in r <==> k in NetworkOf(nodes) && EndsWith(k, 'A')
  {
    if |nodes| == 0 then []
    else
      var rest := Starts(nodes[1..]);
      assert forall i :: 0 <= i < |nodes| - 1 ==> nodes[1..][i] == nodes[i + 1];
      assert forall k :: k in NetworkOf(nodes) <==> k == nodes[0].name || k in NetworkOf(nodes[1..]);
      if EndsWith(nodes[0].name, 'A') then [nodes[0].name] + rest else rest
  }

  function FoundSteps(w: Walked): Option<nat> {
    if w.Found? then Some(w.steps) else None
  }

  /** The periods of the starts in order; `None` unless every start finds one. */
  function Periods(d: Documents, starts: seq<string>, fuel: nat): (r: Option<seq<nat>>)
    requires |d.instructions| > 0
    ensures r.Some? <==> forall i :: 0 <= i < |starts| ==> Period(d, starts[i], fuel).Found?
    ensures r.Some? ==> |r.value| == |starts|
    ensures r.Some? ==> forall i :: 0 <= i < |starts| ==> Period(d, starts[i], fuel) == Found(r.value[i])
  {
    MapAll(starts, st => FoundSteps(Period(d, st, fuel)))
  }

  /** Every detected period is positive. */
  lemma PeriodPositive(d: Documents, start: string, fuel: nat)
    requires |d.instructions| > 0 && Period(d, start, fuel).Found?
    ensures Period(d, start, fuel).steps > 0
  {
    StartRecorded(d, start);
    var f, s := DetectSound(d, start, start, 0, map[], fuel);
  }

  /**
   * The order in which the starts are taken, and repeated starts, change
   * nothing: the map's keys may come in any order.
   */
  lemma PeriodsAnyOrder(d: Documents, xs: seq<string>, ys: seq<string>, fuel: nat)
    requires |d.instructions| > 0
    requires forall x :: x in xs <==> x in ys
    ensures Periods(d, xs, fuel).Some? <==> Periods(d, ys, fuel).Some?
    ensures Periods(d, xs, fuel).Some? ==> Euclid.Lcm(Periods(d, xs, fuel).value) == Euclid.Lcm(Periods(d, ys, fuel).value)
  {
    var px, py := Periods(d, xs, fuel), Periods(d, ys, fuel);
    if px.Some? {
      assert forall j :: 0 <= j < |ys| ==> Period(d, ys[j], fuel).Found? by {
        forall j | 0 <= j < |ys|
          ensures Period(d, ys[j], fuel).Found?
        {
          assert ys[j] in xs;
        }
      }
      SamePeriods(d, xs, ys, px.value, py.value, fuel);
      SamePeriods(d, ys, xs, py.value, px.value, fuel);
      Euclid.LcmSameElements(px.value, py.value);
    } else if py.Some? {
      forall j | 0 <= j < |xs|
        ensures Period(d, xs[j], fuel).Found?
      {
        assert xs[j] in ys;
      }
    }
  }

  lemma SamePeriods(d: Documents, xs: seq<string>, ys: seq<string>, ps: seq<nat>, qs: seq<nat>, fuel: nat)
    requires |d.instructions| > 0
    requires forall x :: x in xs ==> x in ys
    requires |ps| == |xs| && forall i :: 0 <= i < |xs| ==> Period(d, xs[i], fuel) == Found(ps[i])
    requires |qs| == |ys| && forall i :: 0 <= i < |ys| ==> Period(d, ys[i], fuel) == Found(qs[i])
    ensures forall e :: e in ps ==> e in qs
  {
    forall e | e in ps
      ensures e in qs
    {
      var i :| 0 <= i < |ps| && ps[i] == e;
      assert xs[i] in ys;
      var j :| 0 <= j < |ys| && ys[j] == xs[i];
      assert qs[j] == e;
    }
  }

  /** The node lines: everything after the instruction line and the line skipped after it. */
  function NodeLines(lines: seq<string>): seq<string> {
    if |lines| >= 2 then lines[2..] else []
  }

  /**
   * Both answers: the instruction line, a skipped line, then node lines.
   * `None` stands for a panic (no first line, a malformed node line, a
   * missing node) or for a walk that does not stop within the fuel.
   */
  function Answers(lines: seq<string>, fuel: nat): (r: Option<(nat, nat)>)
    ensures |lines| == 0 ==> r.None?
    ensures r.Some? ==> forall i :: 2 <= i < |lines| ==> ParseNode(lines[i]).Some?
    ensures r.Some? && |lines[0]| == 0 ==> r.value == (0, 1)
  {
    if |lines| == 0 then None
    else
      var rest := NodeLines(lines);
      assert forall i :: 2 <= i < |lines| ==> lines[i] == rest[i - 2];
      match MapAll(rest, ParseNode)
      case None => None
      case Some(nodes) =>
        var d := Documents(lines[0], NetworkOf(nodes));
        if |d.instructions| == 0 then Some((0, Euclid.Lcm([])))
        else
          var first := StepsToZZZ(d, fuel);
          var periods := Periods(d, Starts(nodes), fuel);
          if first.Found? && periods.Some? then Some((first.steps, Euclid.Lcm(periods.value)))
          else None
  }

  /**
   * What the two printed numbers are: the first answer is the number of
   * moves after which the walk from `AAA` first stands on `ZZZ`; the second
   * is positive, a multiple of the period of every node ending in `A`, and
   * divides every common multiple of those periods.
   */
  lemma AnswersMeaning(lines: seq<string>, fuel: nat, nodes: seq<Node>)
    requires |lines| > 0 && |lines[0]| > 0
    requires MapAll(NodeLines(lines), ParseNode) == Some(nodes)
    requires Answers(lines, fuel).Some?
    ensures var d := Documents(lines[0], NetworkOf(nodes));
      && Answers(lines, fuel).value.0 <= fuel
      && FirstArrival(d, "AAA", Answers(lines, fuel).value.0)
    ensures var d := Documents(lines[0], NetworkOf(nodes));
      forall st :: st in d.network && EndsWith(st, 'A') ==>
        && Period(d, st, fuel).Found?
        && Euclid.Divides(Period(d, st, fuel).steps, Answers(lines, fuel).value.1)
    ensures var d := Documents(lines[0], NetworkOf(nodes));
      forall m: nat :: (forall st :: st in d.network && EndsWith(st, 'A') ==> Euclid.Divides(Period(d, st, fuel).steps, m))
        ==> Euclid.Divides(Answers(lines, fuel).value.1, m)
    ensures Answers(lines, fuel).value.1 > 0
  {
    var d := Documents(lines[0], NetworkOf(nodes));
    var (a, b) := Answers(lines, fuel).value;
    StepsToZZZExact(d, fuel, a);
    var starts := Starts(nodes);
    var ps := Periods(d, starts, fuel).value;
    assert b == Euclid.Lcm(ps);
    Euclid.LcmIsLeast(ps);
    forall i | 0 <= i < |ps|
      ensures ps[i] > 0
    {
      PeriodPositive(d, starts[i], fuel);
    }
    forall st | st in d.network && EndsWith(st, 'A')
      ensures Period(d, st, fuel).Found? && Euclid.Divides(Period(d, st, fuel).steps, b)
    {
      var i :| 0 <= i < |starts| && starts[i] == st;
      assert ps[i] in ps;
    }
    forall m: nat | forall st :: st in d.network && EndsWith(st, 'A') ==> Euclid.Divides(Period(d, st, fuel).steps, m)
      ensures Euclid.Divides(b, m)
    {
      forall e | e in ps
        ensures Euclid.Divides(e, m)
      {
        var i :| 0 <= i < |ps| && ps[i] == e;
        assert starts[i] in starts;
      }
    }
  }
}
