/**
 * The engine schematic: a grid of lines holding numbers (maximal runs of
 * digits), symbols (anything that is neither a digit nor `.`) and gears
 * (`*`). A number is a part number when a symbol touches it, diagonals
 * included; a gear touched by exactly two numbers contributes their
 * product.
 */
module GearRatios {
  import opened AsciiText
  import opened Wrappers

  /** A number of one line: the columns of its first and last digit, and its value. */
  datatype Run = Run(start: nat, end: nat, value: nat)

  // ---------------------------------------------------------------------------
  // line_symbols and line_gear_locations

  predicate IsSymbol(c: char) {
    !(IsAsciiDigit(c) || c == '.')
  }

  /** `line_symbols`: one flag per character. */
  function Symbols(s: string): (fs: seq<bool>)
    ensures |fs| == |s|
    ensures forall c :: 0 <= c < |s| ==> (fs[c] <==> IsSymbol(s[c]))
  {
    seq(|s|, c requires 0 <= c < |s| => IsSymbol(s[c]))
  }

  /** The columns of the `*` characters at or after column `i`, in order. */
  function GearsFrom(s: string, i: nat): (gs: seq<nat>)
    requires i <= |s|
    ensures forall a :: 0 <= a < |gs| ==> i <= gs[a] < |s| && s[gs[a]] == '*'
    ensures forall a, b :: 0 <= a < b < |gs| ==> gs[a] < gs[b]
    ensures forall c :: i <= c < |s| && s[c] == '*' ==> c in gs
    decreases |s| - i
  {
    if i == |s| then []
    else if s[i] == '*' then [i] + GearsFrom(s, i + 1)
    else GearsFrom(s, i + 1)
  }

  /** `line_gear_locations`: exactly the columns holding `*`, increasing. */
  function GearLocations(s: string): (gs: seq<nat>)
    ensures forall a :: 0 <= a < |gs| ==> gs[a] < |s| && s[gs[a]] == '*'
    ensures forall a, b :: 0 <= a < b < |gs| ==> gs[a] < gs[b]
    ensures forall c :: 0 <= c < |s| && s[c] == '*' ==> c in gs
  {
    GearsFrom(s, 0)
  }

  // ---------------------------------------------------------------------------
  // line_numbers

  /** The first digit at or after column `i` (`skip_while` over non-digits), or `|s|`. */
  function SkipNonDigits(s: string, i: nat): (j: nat)
    requires i <= |s|
    ensures i <= j <= |s|
    ensures j < |s| ==> IsAsciiDigit(s[j])
    decreases |s| - i
  {
    if i == |s| || IsAsciiDigit(s[i]) then i else SkipNonDigits(s, i + 1)
  }

  lemma {:induction false} SkipNonDigitsSkips(s: string, i: nat)
    requires i <= |s|
    ensures forall c :: i <= c < SkipNonDigits(s, i) ==> !IsAsciiDigit(s[c])
    decreases |s| - i
  {
    if i < |s| && !IsAsciiDigit(s[i]) {
      SkipNonDigitsSkips(s, i + 1);
    }
  }

  /** The first non-digit at or after column `j` (`take_while` over digits), or `|s|`. */
  function DigitsEnd(s: string, j: nat): (k: nat)
    requires j <= |s|
    ensures j <= k <= |s|
    ensures k < |s| ==> !IsAsciiDigit(s[k])
    decreases |s| - j
  {
    if j == |s| || !IsAsciiDigit(s[j]) then j else DigitsEnd(s, j + 1)
  }

  lemma {:induction false} DigitsEndDigits(s: string, j: nat)
    requires j <= |s|
    ensures forall c :: j <= c < DigitsEnd(s, j) ==> IsAsciiDigit(s[c])
    decreases |s| - j
  {
    if j < |s| && IsAsciiDigit(s[j]) {
      DigitsEndDigits(s, j + 1);
    }
  }

  /** The value of the digits in columns `j` to `k - 1`, read by position rather than by slice. */
  function DigitsValue(s: string, j: nat, k: nat): nat
    requires j <= k <= |s| && forall c :: j <= c < k ==> IsAsciiDigit(s[c])
    decreases k
  {
    if k == j then 0 else 10 * DigitsValue(s, j, k - 1) + DigitValue(s[k - 1])
  }

  lemma {:induction false} DigitsValueSlice(s: string, j: nat, k: nat)
    requires j <= k <= |s| && forall c :: j <= c < k ==> IsAsciiDigit(s[c])
    ensures AllDigits(s[j..k]) && DigitsValue(s, j, k) == DecimalValue(s[j..k])
    decreases k
  {
    assert forall c :: 0 <= c < k - j ==> s[j..k][c] == s[j + c];
    if k > j {
      DigitsValueSlice(s, j, k - 1);
      assert s[j..k][..k - 1 - j] == s[j..k - 1];
    }
  }

  /** `r` is a maximal run of digits of `s`, and its value is theirs. */
  predicate IsRun(s: string, r: Run) {
    && r.start <= r.end < |s|
    && (forall c :: r.start <= c <= r.end ==> IsAsciiDigit(s[c]))
    && (r.start == 0 || !IsAsciiDigit(s[r.start - 1]))
    && (r.end + 1 == |s| || !IsAsciiDigit(s[r.end + 1]))
    && r.value == DigitsValue(s, r.start, r.end + 1)
  }

  /** Where the scan resumes after a run that ends before column `k`: past the non-digit there, if any. */
  function Resume(s: string, k: nat): (next: nat)
    requires k <= |s| && (k == |s| || !IsAsciiDigit(s[k]))
    ensures k <= next <= |s|
    ensures next == |s| || (0 < next && !IsAsciiDigit(s[next - 1]))
  {
    if k < |s| then k + 1 else k
  }

  /** The scan may start at column `i`: it is not inside a run. */
  predicate Boundary(s: string, i: nat) {
    i <= |s| && (i == 0 || i == |s| || !IsAsciiDigit(s[i - 1]))
  }

  /**
   * The numbers at or after column `i`. Each step skips non-digits, then
   * takes the digits; `take_while` also consumes the character that ends
   * the run, which is never a digit.
   */
  function NumbersFrom(s: string, i: nat): (rs: seq<Run>)
    requires Boundary(s, i)
    ensures forall a :: 0 <= a < |rs| ==> i <= rs[a].start <= rs[a].end < |s|
    decreases |s| - i
  {
    if SkipNonDigits(s, i) == |s| then []
    else
      var r := FirstRun(s, i);
      [r] + NumbersFrom(s, Resume(s, r.end + 1))
  }

  /** The first number at or after column `i`, when a digit is left. */
  function FirstRun(s: string, i: nat): (r: Run)
    requires Boundary(s, i) && SkipNonDigits(s, i) < |s|
    ensures i <= r.start <= r.end < |s|
    ensures r.end + 1 == |s| || !IsAsciiDigit(s[r.end + 1])
  {
    var j := SkipNonDigits(s, i);
    var k := DigitsEnd(s, j);
    DigitsEndDigits(s, j);
    Run(j, k - 1, DigitsValue(s, j, k))
  }

  /** One step of the scan: the first number, then the scan after it. */
  lemma NumbersStep(s: string, i: nat)
    requires Boundary(s, i) && SkipNonDigits(s, i) < |s|
    ensures NumbersFrom(s, i) == [FirstRun(s, i)] + NumbersFrom(s, Resume(s, FirstRun(s, i).end + 1))
  {
  }

  lemma FirstRunIsRun(s: string, i: nat)
    requires Boundary(s, i) && SkipNonDigits(s, i) < |s|
    ensures IsRun(s, FirstRun(s, i))
  {
    var j := SkipNonDigits(s, i);
    SkipNonDigitsSkips(s, i);
    DigitsEndDigits(s, j);
    assert j == 0 || !IsAsciiDigit(s[j - 1]);
  }

  /** `line_numbers`. */
  function Numbers(s: string): seq<Run> {
    NumbersFrom(s, 0)
  }

  /** Every number found is a maximal run of digits with their value. */
  lemma {:induction false} NumbersAreRuns(s: string, i: nat)
    requires Boundary(s, i)
    ensures forall a :: 0 <= a < |NumbersFrom(s, i)| ==> IsRun(s, NumbersFrom(s, i)[a])
    decreases |s| - i
  {
    var j := SkipNonDigits(s, i);
    if j < |s| {
      var r := FirstRun(s, i);
      NumbersStep(s, i);
      FirstRunIsRun(s, i);
      NumbersAreRuns(s, Resume(s, r.end + 1));
      RunsConcat(s, r, NumbersFrom(s, Resume(s, r.end + 1)));
    }
  }

  lemma RunsConcat(s: string, r: Run, rest: seq<Run>)
    requires IsRun(s, r) && forall a :: 0 <= a < |rest| ==> IsRun(s, rest[a])
    ensures forall a :: 0 <= a < |[r] + rest| ==> IsRun(s, ([r] + rest)[a])
  {
    forall a | 0 <= a < |[r] + rest|
      ensures IsRun(s, ([r] + rest)[a])
    {
      if a > 0 {
        assert ([r] + rest)[a] == rest[a - 1];
      }
    }
  }

  /** Left to right, with at least one column between two numbers. */
  predicate Ordered(rs: seq<Run>) {
    forall a, b :: 0 <= a < b < |rs| ==> rs[a].end + 1 < rs[b].start
  }

  /** The runs come left to right, with at least one non-digit between two of them. */
  lemma {:induction false} NumbersOrdered(s: string, i: nat)
    requires Boundary(s, i)
    ensures Ordered(NumbersFrom(s, i))
    decreases |s| - i
  {
    if SkipNonDigits(s, i) < |s| {
      var r := FirstRun(s, i);
      var next := Resume(s, r.end + 1);
      NumbersStep(s, i);
      NumbersOrdered(s, next);
      OrderedConcat(r, NumbersFrom(s, next), next);
    }
  }

  lemma OrderedConcat(r: Run, rest: seq<Run>, next: nat)
    requires Ordered(rest) && forall a :: 0 <= a < |rest| ==> next <= rest[a].start
    requires |rest| > 0 ==> r.end + 1 < next
    ensures Ordered([r] + rest)
  {
    var rs := [r] + rest;
    forall a, b | 0 <= a < b < |rs|
      ensures rs[a].end + 1 < rs[b].start
    {
      assert rs[b] == rest[b - 1];
      if a > 0 {
        assert rs[a] == rest[a - 1];
      }
    }
  }

  /** Column `p` lies within one of the runs. */
  predicate Covers(rs: seq<Run>, p: nat) {
    exists a :: 0 <= a < |rs| && rs[a].start <= p <= rs[a].end
  }

  lemma CoversShift(r: Run, rest: seq<Run>, p: nat)
    requires Covers(rest, p)
    ensures Covers([r] + rest, p)
  {
    var a :| 0 <= a < |rest| && rest[a].start <= p <= rest[a].end;
    assert ([r] + rest)[a + 1] == rest[a];
  }

  /** Every digit at or after column `i` lies in one of the runs. */
  lemma {:induction false} NumbersCover(s: string, i: nat, p: nat)
    requires Boundary(s, i) && i <= p < |s| && IsAsciiDigit(s[p])
    ensures Covers(NumbersFrom(s, i), p)
    decreases |s| - i, 1
  {
    SkipNonDigitsSkips(s, i);
    assert SkipNonDigits(s, i) <= p;
    var r := FirstRun(s, i);
    NumbersStep(s, i);
    if p <= r.end {
      assert NumbersFrom(s, i)[0] == r;
    } else {
      CoverAfterFirst(s, i, p);
    }
  }

  /** A digit past the first number lies in one of the numbers after it. */
  lemma {:induction false} CoverAfterFirst(s: string, i: nat, p: nat)
    requires Boundary(s, i) && SkipNonDigits(s, i) < |s|
    requires FirstRun(s, i).end < p < |s| && IsAsciiDigit(s[p])
    ensures Covers(NumbersFrom(s, i), p)
    decreases |s| - i, 0
  {
    var r := FirstRun(s, i);
    var next := Resume(s, r.end + 1);
    assert p != r.end + 1 && next <= p;
    NumbersCover(s, next, p);
    NumbersStep(s, i);
    CoversShift(r, NumbersFrom(s, next), p);
  }

  /** The characters of `r` are the decimal spelling of its value. */
  predicate Spells(s: string, r: Run) {
    r.start <= r.end < |s| && AllDigits(s[r.start..r.end + 1]) && r.value == DecimalValue(s[r.start..r.end + 1])
  }

  lemma RunSpells(s: string, r: Run)
    requires IsRun(s, r)
    ensures Spells(s, r)
  {
    DigitsValueSlice(s, r.start, r.end + 1);
  }

  /**
   * `line_numbers` finds exactly the numbers of the line: maximal runs of
   * digits spelling their values, left to right, and no digit is missed.
   */
  lemma NumbersExact(s: string)
    ensures forall a :: 0 <= a < |Numbers(s)| ==> IsRun(s, Numbers(s)[a]) && Spells(s, Numbers(s)[a])
    ensures Ordered(Numbers(s))
    ensures forall p :: 0 <= p < |s| && IsAsciiDigit(s[p]) ==> Covers(Numbers(s), p)
  {
    var rs := NumbersFrom(s, 0);
    assert Numbers(s) == rs;
    NumbersAreRuns(s, 0);
    NumbersOrdered(s, 0);
    forall a | 0 <= a < |rs|
      ensures Spells(s, rs[a])
    {
      RunSpells(s, rs[a]);
    }
    forall p | 0 <= p < |s| && IsAsciiDigit(s[p])
      ensures Covers(rs, p)
    {
      NumbersCover(s, 0, p);
    }
  }

  // ---------------------------------------------------------------------------
  // Part numbers

  /** `a | b` column by column; `zip` stops at the shorter row. */
  function ZipOr(a: seq<bool>, b: seq<bool>): (r: seq<bool>)
    ensures |r| == if |a| <= |b| then |a| else |b|
    ensures forall c :: 0 <= c < |r| ==> (r[c] <==> a[c] || b[c])
  {
    var n := if |a| <= |b| then |a| else |b|;
    seq(n, c requires 0 <= c < n => a[c] || b[c])
  }

  /** The row `i + j - 1`, when it exists: the rows above, at and below row `i`. */
  predicate InWindow(rows: nat, i: nat, r: int) {
    i - 1 <= r <= i + 1 && 0 <= r < rows
  }

  /** The fold over the rows `i - 1`, `i`, `i + 1` that exist, starting from all `false`. */
  function Nearby(symbols: seq<seq<bool>>, i: nat): (n: seq<bool>)
    requires i < |symbols|
    ensures |n| <= |symbols[i]|
    ensures forall c :: 0 <= c < |n| && symbols[i][c] ==> n[c]
  {
    var acc := seq(|symbols[i]|, c => false);
    var above := if i > 0 then ZipOr(acc, symbols[i - 1]) else acc;
    var here := ZipOr(above, symbols[i]);
    if i + 1 < |symbols| then ZipOr(here, symbols[i + 1]) else here
  }

  predicate Rectangular(lines: seq<string>) {
    forall r, q :: 0 <= r < |lines| && 0 <= q < |lines| ==> |lines[r]| == |lines[q]|
  }

  function Grid(lines: seq<string>): (g: seq<seq<bool>>)
    ensures |g| == |lines|
    ensures forall r :: 0 <= r < |lines| ==> g[r] == Symbols(lines[r])
  {
    seq(|lines|, r requires 0 <= r < |lines| => Symbols(lines[r]))
  }

  /** On a rectangular grid, column `c` of the fold says whether a nearby row has a symbol there. */
  lemma NearbyAt(lines: seq<string>, i: nat)
    requires Rectangular(lines) && i < |lines|
    ensures |Nearby(Grid(lines), i)| == |lines[i]|
    ensures forall c :: 0 <= c < |lines[i]| ==>
              (Nearby(Grid(lines), i)[c] <==>
               exists r :: InWindow(|lines|, i, r) && IsSymbol(lines[r][c]))
  {
    var g := Grid(lines);
    var n := Nearby(g, i);
    forall c | 0 <= c < |lines[i]|
      ensures n[c] <==> exists r :: InWindow(|lines|, i, r) && IsSymbol(lines[r][c])
    {
      if n[c] {
        if i > 0 && g[i - 1][c] {
          assert InWindow(|lines|, i, i - 1) && IsSymbol(lines[i - 1][c]);
        } else if g[i][c] {
          assert InWindow(|lines|, i, i) && IsSymbol(lines[i][c]);
        } else {
          assert InWindow(|lines|, i, i + 1) && IsSymbol(lines[i + 1][c]);
        }
      }
    }
  }

  /** On a rectangular grid the nearby flags cover the row. */
  lemma NearbyLength(lines: seq<string>, i: nat)
    requires Rectangular(lines) && i < |lines|
    ensures |Nearby(Grid(lines), i)| == |lines[i]|
  {
  }

  /** The left edge of the slice: `s.checked_sub(1).unwrap_or(0)`. */
  function Left(r: Run): nat {
    if r.start == 0 then 0 else r.start - 1
  }

  /** The right edge of the slice: `(e + 2).min(adj_symbols.len())`. */
  function Right(nearby: seq<bool>, r: Run): nat {
    if r.end + 2 <= |nearby| then r.end + 2 else |nearby|
  }

  /**
   * The slice `adj_symbols[left..right]` exists: its left edge is not past
   * its right edge. Otherwise indexing panics, which happens when a row
   * narrower than the number's row cuts the fold short.
   */
  predicate SliceFits(nearby: seq<bool>, r: Run) {
    Left(r) <= Right(nearby, r)
  }

  /**
   * The test of the first question: a flag is set in the slice from one
   * column left of the number to one column right of it, clipped to the
   * row.
   */
  predicate IsPart(nearby: seq<bool>, r: Run)
    requires SliceFits(nearby, r)
  {
    exists c :: Left(r) <= c < Right(nearby, r) && nearby[c]
  }

  /** A symbol in one of the eight directions from one of the number's digits. */
  ghost predicate SymbolNear(lines: seq<string>, i: nat, r: Run) {
    exists q, c :: InWindow(|lines|, i, q) && r.start - 1 <= c <= r.end + 1 &&
                   0 <= c < |lines[q]| && IsSymbol(lines[q][c])
  }

  /** A number counts exactly when a symbol lies in one of the eight directions from one of its digits. */
  lemma PartIffSymbolNear(lines: seq<string>, i: nat, r: Run)
    requires Rectangular(lines) && i < |lines| && IsRun(lines[i], r)
    ensures |Nearby(Grid(lines), i)| == |lines[i]|
    ensures IsPart(Nearby(Grid(lines), i), r) <==> SymbolNear(lines, i, r)
  {
    NearbyLength(lines, i);
    if IsPart(Nearby(Grid(lines), i), r) {
      PartHasSymbol(lines, i, r);
    }
    if SymbolNear(lines, i, r) {
      SymbolMakesPart(lines, i, r);
    }
  }

  lemma PartHasSymbol(lines: seq<string>, i: nat, r: Run)
    requires Rectangular(lines) && i < |lines| && r.start <= r.end && r.start <= |lines[i]|
    requires |Nearby(Grid(lines), i)| == |lines[i]| && IsPart(Nearby(Grid(lines), i), r)
    ensures SymbolNear(lines, i, r)
  {
    NearbyAt(lines, i);
    var n := Nearby(Grid(lines), i);
    var hi := if r.end + 2 <= |n| then r.end + 2 else |n|;
    var c :| Left(r) <= c < hi && n[c];
    var q :| InWindow(|lines|, i, q) && IsSymbol(lines[q][c]);
    assert |lines[q]| == |lines[i]|;
  }

  lemma SymbolMakesPart(lines: seq<string>, i: nat, r: Run)
    requires Rectangular(lines) && i < |lines| && r.start <= r.end && r.start <= |lines[i]|
    requires |Nearby(Grid(lines), i)| == |lines[i]| && SymbolNear(lines, i, r)
    ensures IsPart(Nearby(Grid(lines), i), r)
  {
    NearbyAt(lines, i);
    var n := Nearby(Grid(lines), i);
    var hi := if r.end + 2 <= |n| then r.end + 2 else |n|;
    var q, c :| InWindow(|lines|, i, q) && r.start - 1 <= c <= r.end + 1 &&
                0 <= c < |lines[q]| && IsSymbol(lines[q][c]);
    assert |lines[q]| == |lines[i]|;
    assert Left(r) <= c < hi && n[c];
  }

  /** The part numbers of one row, in order. */
  function RowParts(nearby: seq<bool>, rs: seq<Run>): nat
    requires forall a :: 0 <= a < |rs| ==> SliceFits(nearby, rs[a])
  {
    if |rs| == 0 then 0
    else RowParts(nearby, rs[..|rs| - 1]) + (if IsPart(nearby, rs[|rs| - 1]) then rs[|rs| - 1].value else 0)
  }

  /** One row of numbers per row of flags, and no slice of the first question panics. */
  predicate SlicesFit(symbols: seq<seq<bool>>, numbers: seq<seq<Run>>) {
    |numbers| == |symbols| &&
    forall i, a :: 0 <= i < |numbers| && 0 <= a < |numbers[i]| ==> SliceFits(Nearby(symbols, i), numbers[i][a])
  }

  /** On a rectangular schematic no slice panics: every fold is as wide as its row. */
  lemma GridFits(lines: seq<string>)
    requires Rectangular(lines)
    ensures SlicesFit(Grid(lines), AllNumbers(lines))
  {
    var symbols, numbers := Grid(lines), AllNumbers(lines);
    forall i, a | 0 <= i < |numbers| && 0 <= a < |numbers[i]|
      ensures SliceFits(Nearby(symbols, i), numbers[i][a])
    {
      NearbyLength(lines, i);
    }
  }

  /**
   * The first answer over the rows before row `k`, from the number rows
   * and flag rows `main` computes once.
   */
  function PartSum(symbols: seq<seq<bool>>, numbers: seq<seq<Run>>, k: nat): nat
    requires SlicesFit(symbols, numbers) && k <= |symbols|
  {
    if k == 0 then 0
    else PartSum(symbols, numbers, k - 1) + RowParts(Nearby(symbols, k - 1), numbers[k - 1])
  }

  // ---------------------------------------------------------------------------
  // Gear ratios

  /** The test of the second question, on the number's columns. */
  predicate Touches(r: Run, loc: nat) {
    r.start <= loc + 1 && loc <= r.end + 1
  }

  /** Columns `p` and `loc` are at most one apart. */
  predicate Near(p: int, loc: int) {
    loc - 1 <= p <= loc + 1
  }

  /** A number touches a column exactly when one of its digits is at most one column away. */
  lemma TouchesIffDigitNear(r: Run, loc: nat)
    requires r.start <= r.end
    ensures Touches(r, loc) <==> exists p :: r.start <= p <= r.end && Near(p, loc)
  {
    if Touches(r, loc) {
      var p := if loc < r.start then r.start else if loc > r.end then r.end else loc;
      assert r.start <= p <= r.end && Near(p, loc);
    }
  }

  /** The numbers of one row that touch column `loc`, in order. */
  function Touching(rs: seq<Run>, loc: nat): (ts: seq<Run>)
    ensures |ts| <= |rs|
    ensures forall t :: t in ts <==> t in rs && Touches(t, loc)
  {
    if |rs| == 0 then []
    else Touching(rs[..|rs| - 1], loc) + (if Touches(rs[|rs| - 1], loc) then [rs[|rs| - 1]] else [])
  }

  /** The numbers of the rows above, at and below row `i` that touch column `loc`. */
  function Adjacent(numbers: seq<seq<Run>>, i: nat, loc: nat): (adj: seq<Run>)
    requires i < |numbers|
    ensures forall t :: t in adj <==> exists q :: InWindow(|numbers|, i, q) && t in numbers[q] && Touches(t, loc)
  {
    var above := if i > 0 then Touching(numbers[i - 1], loc) else [];
    var below := if i + 1 < |numbers| then Touching(numbers[i + 1], loc) else [];
    var adj := above + Touching(numbers[i], loc) + below;
    assert forall t :: t in adj ==> t in above || t in Touching(numbers[i], loc) || t in below;
    adj
  }

  /** A gear counts only when exactly two numbers touch it; its ratio is their product. */
  function Ratio(adj: seq<Run>): (p: nat)
    ensures |adj| != 2 ==> p == 0
  {
    if |adj| == 2 then adj[0].value * adj[1].value else 0
  }

  function Ratios(numbers: seq<seq<Run>>, i: nat, gs: seq<nat>): nat
    requires i < |numbers|
  {
    if |gs| == 0 then 0 else Ratios(numbers, i, gs[..|gs| - 1]) + Ratio(Adjacent(numbers, i, gs[|gs| - 1]))
  }

  function AllNumbers(lines: seq<string>): (ns: seq<seq<Run>>)
    ensures |ns| == |lines|
    ensures forall r :: 0 <= r < |lines| ==> ns[r] == Numbers(lines[r])
  {
    seq(|lines|, r requires 0 <= r < |lines| => Numbers(lines[r]))
  }

  /** The second answer over the rows before row `k`. */
  function RatioSum(lines: seq<string>, numbers: seq<seq<Run>>, k: nat): nat
    requires |numbers| == |lines| && k <= |lines|
  {
    if k == 0 then 0
    else RatioSum(lines, numbers, k - 1) + Ratios(numbers, k - 1, GearLocations(lines[k - 1]))
  }

  /** Without a symbol anywhere no nearby flag is set. */
  lemma NearbyClear(symbols: seq<seq<bool>>, i: nat)
    requires i < |symbols|
    requires forall q, c :: 0 <= q < |symbols| && 0 <= c < |symbols[q]| ==> !symbols[q][c]
    ensures forall c :: 0 <= c < |Nearby(symbols, i)| ==> !Nearby(symbols, i)[c]
  {
  }

  /** A schematic without symbols has no part numbers. */
  lemma {:induction false} NoSymbolNoParts(symbols: seq<seq<bool>>, numbers: seq<seq<Run>>, k: nat)
    requires SlicesFit(symbols, numbers) && k <= |symbols|
    requires forall q, c :: 0 <= q < |symbols| && 0 <= c < |symbols[q]| ==> !symbols[q][c]
    ensures PartSum(symbols, numbers, k) == 0
  {
    if k > 0 {
      NoSymbolNoParts(symbols, numbers, k - 1);
      NearbyClear(symbols, k - 1);
      RowPartsNone(Nearby(symbols, k - 1), numbers[k - 1]);
    }
  }

  lemma {:induction false} RowPartsNone(nearby: seq<bool>, rs: seq<Run>)
    requires forall a :: 0 <= a < |rs| ==> SliceFits(nearby, rs[a])
    requires forall c :: 0 <= c < |nearby| ==> !nearby[c]
    ensures RowParts(nearby, rs) == 0
  {
    if |rs| > 0 {
      RowPartsNone(nearby, rs[..|rs| - 1]);
    }
  }

  /** A schematic without `*` has no gear ratios. */
  lemma {:induction false} NoGearNoRatio(lines: seq<string>, numbers: seq<seq<Run>>, k: nat)
    requires |numbers| == |lines| && k <= |lines|
    requires forall q, c :: 0 <= q < |lines| && 0 <= c < |lines[q]| ==> lines[q][c] != '*'
    ensures RatioSum(lines, numbers, k) == 0
  {
    if k > 0 {
      NoGearNoRatio(lines, numbers, k - 1);
      NoStarNoGears(lines[k - 1], 0);
    }
  }

  lemma {:induction false} NoStarNoGears(s: string, i: nat)
    requires i <= |s|
    requires forall c :: i <= c < |s| ==> s[c] != '*'
    ensures GearsFrom(s, i) == []
    decreases |s| - i
  {
    if i < |s| {
      NoStarNoGears(s, i + 1);
    }
  }

  /** Every number of the schematic fits the `u32` that `parse` reads it into. */
  predicate Fits(numbers: seq<seq<Run>>) {
    forall i, a :: 0 <= i < |numbers| && 0 <= a < |numbers[i]| ==> numbers[i][a].value < U32_LIMIT
  }

  /** Some number of the schematic is too wide for the `u32` that `parse` reads it into. */
  predicate WideNumber(lines: seq<string>) {
    exists i, a :: 0 <= i < |lines| && 0 <= a < |Numbers(lines[i])| && Numbers(lines[i])[a].value >= U32_LIMIT
  }

  /** Some number's slice in the first question would start past its end. */
  predicate SlicePanics(lines: seq<string>) {
    exists i, a :: 0 <= i < |lines| && 0 <= a < |Numbers(lines[i])| &&
                   !SliceFits(Nearby(Grid(lines), i), Numbers(lines[i])[a])
  }

  /**
   * Both answers, or `None` when the program panics before printing: on a
   * number too wide for `u32`, where `parse().unwrap()` fails while the
   * numbers are collected, or on a slice that starts past its end in the
   * first question, which a ragged schematic can cause.
   */
  function Answers(lines: seq<string>): (o: Option<(nat, nat)>)
    ensures o.None? <==> WideNumber(lines) || SlicePanics(lines)
  {
    var symbols := Grid(lines);
    var numbers := AllNumbers(lines);
    if Fits(numbers) && SlicesFit(symbols, numbers) then
      Some((PartSum(symbols, numbers, |lines|), RatioSum(lines, numbers, |lines|)))
    else None
  }

  /** A rectangular schematic never panics on a slice. */
  lemma RectangularFits(lines: seq<string>)
    requires Rectangular(lines)
    ensures !SlicePanics(lines)
  {
    GridFits(lines);
  }

  /**
   * The schematic `...5` over `.` fails with no wide number: the fold for
   * the first row is cut to one column by the second, and the slice
   * `[2..1]` for the `5` panics.
   */
  lemma RaggedSchematicPanics()
    ensures !WideNumber(["...5", "."]) && Answers(["...5", "."]).None?
  {
    var lines := ["...5", "."];
    var run := Run(3, 3, 5);
    assert SkipNonDigits(lines[0], 0) == 3;
    assert DigitsEnd(lines[0], 3) == 4;
    assert NumbersFrom(lines[0], 4) == [];
    assert Numbers(lines[0]) == [run];
    assert Numbers(lines[1]) == [];
    assert |Nearby(Grid(lines), 0)| == 1;
    assert !SliceFits(Nearby(Grid(lines), 0), Numbers(lines[0])[0]);
  }

  /** A string of digits spelling a value too wide for `u32`. */
  predicate WideDigits(d: string) {
    AllDigits(d) && DecimalValue(d) >= U32_LIMIT
  }

  /**
   * A digit run, as its digits spell it, is too wide exactly when the
   * parse fails; on a rectangular schematic that is the only failure.
   */
  lemma AnswersFailOnWideNumber(lines: seq<string>)
    ensures WideNumber(lines) <==>
              exists i, a :: 0 <= i < |lines| && 0 <= a < |Numbers(lines[i])| &&
                WideDigits(lines[i][Numbers(lines[i])[a].start..Numbers(lines[i])[a].end + 1])
    ensures Rectangular(lines) ==>
              (Answers(lines).None? <==>
               exists i, a :: 0 <= i < |lines| && 0 <= a < |Numbers(lines[i])| &&
                 WideDigits(lines[i][Numbers(lines[i])[a].start..Numbers(lines[i])[a].end + 1]))
  {
    forall i, a | 0 <= i < |lines| && 0 <= a < |Numbers(lines[i])|
      ensures Numbers(lines[i])[a].value >= U32_LIMIT <==>
              WideDigits(lines[i][Numbers(lines[i])[a].start..Numbers(lines[i])[a].end + 1])
    {
      RunWide(lines[i], a);
    }
    if Rectangular(lines) {
      RectangularFits(lines);
    }
  }

  lemma RunWide(s: string, a: nat)
    requires a < |Numbers(s)|
    ensures Numbers(s)[a].value >= U32_LIMIT <==> WideDigits(s[Numbers(s)[a].start..Numbers(s)[a].end + 1])
  {
    NumbersExact(s);
    assert Spells(s, Numbers(s)[a]);
  }

  /** A schematic without symbols answers zero to the first question, and one without `*` to the second. */
  lemma AnswersOfQuietSchematic(lines: seq<string>)
    ensures Answers(lines).Some? && (forall q, c :: 0 <= q < |lines| && 0 <= c < |lines[q]| ==> !IsSymbol(lines[q][c])) ==>
              Answers(lines).value.0 == 0
    ensures Answers(lines).Some? && (forall q, c :: 0 <= q < |lines| && 0 <= c < |lines[q]| ==> lines[q][c] != '*') ==>
              Answers(lines).value.1 == 0
  {
    if Answers(lines).Some? {
      if forall q, c :: 0 <= q < |lines| && 0 <= c < |lines[q]| ==> !IsSymbol(lines[q][c]) {
        NoSymbolNoParts(Grid(lines), AllNumbers(lines), |lines|);
      }
      if forall q, c :: 0 <= q < |lines| && 0 <= c < |lines[q]| ==> lines[q][c] != '*' {
        NoGearNoRatio(lines, AllNumbers(lines), |lines|);
      }
    }
  }
}
