/**
 * Extrapolation of a history of readings by finite differences: the value
 * after the last reading (`predict`) and the value before the first one
 * (`predict_back`). Each answer is the sum over every line of the input.
 */
module Mirage {
  import opened Wrappers
  import opened AsciiText

  // ---------------------------------------------------------------------------
  // Difference tables

  /** `windows(2).map(|x| x[1] - x[0])`: the differences of neighbours. */
  function Diffs(h: seq<int>): (d: seq<int>)
    ensures |d| == if |h| == 0 then 0 else |h| - 1
  {
    if |h| < 2 then [] else [h[1] - h[0]] + Diffs(h[1..])
  }

  /** The `k`-th row of the difference table of `h`. */
  function NthDiffs(h: seq<int>, k: nat): (d: seq<int>)
    ensures |d| == if k <= |h| then |h| - k else 0
    decreases k
  {
    if k == 0 then h else NthDiffs(Diffs(h), k - 1)
  }

  /** `iter().all(|&x| x == 0)`. */
  predicate AllZero(h: seq<int>) {
    forall i :: 0 <= i < |h| ==> h[i] == 0
  }

  /** The sum of the last entries of the first `k` rows of the difference table. */
  function Lasts(h: seq<int>, k: nat): int
    requires k <= |h|
    decreases k
  {
    if k == 0 then 0 else h[|h| - 1] + Lasts(Diffs(h), k - 1)
  }

  function Reverse(h: seq<int>): (r: seq<int>)
    ensures |r| == |h|
  {
    if |h| == 0 then [] else Reverse(h[1..]) + [h[0]]
  }

  function Negate(h: seq<int>): (r: seq<int>)
    ensures |r| == |h|
  {
    if |h| == 0 then [] else [-h[0]] + Negate(h[1..])
  }

  /** The differences of zeros are zeros. */
  lemma DiffsZero(h: seq<int>)
    requires AllZero(h)
    ensures AllZero(Diffs(h))
  {
    DiffsAt(h);
    forall i | 0 <= i < |Diffs(h)| ensures Diffs(h)[i] == 0 {
      assert Diffs(h)[i] == h[i + 1] - h[i];
    }
  }

  lemma {:induction false} DiffsAt(h: seq<int>)
    ensures forall i {:trigger Diffs(h)[i]} :: 0 <= i < |Diffs(h)| ==> Diffs(h)[i] == h[i + 1] - h[i]
  {
    if |h| >= 2 {
      DiffsAt(h[1..]);
    }
  }

  lemma {:induction false} ReverseAt(h: seq<int>)
    ensures forall i {:trigger Reverse(h)[i]} :: 0 <= i < |h| ==> Reverse(h)[i] == h[|h| - 1 - i]
  {
    if |h| > 0 {
      ReverseAt(h[1..]);
    }
  }

  lemma {:induction false} NegateAt(h: seq<int>)
    ensures forall i {:trigger Negate(h)[i]} :: 0 <= i < |h| ==> Negate(h)[i] == -h[i]
  {
    if |h| > 0 {
      NegateAt(h[1..]);
    }
  }

  // ---------------------------------------------------------------------------
  // The two extrapolations

  /**
   * `predict`: zero for a history of zeros (the empty one included),
   * otherwise the last reading plus the prediction for the differences.
   * Stopping at the first row of zeros gives the same value as adding up
   * the last entry of every row of the table.
   */
  function Predict(h: seq<int>): (p: int)
    ensures p == Lasts(h, |h|)
    decreases |h|
  {
    if AllZero(h) then
      ZeroLasts(h, |h|);
      0
    else
      h[|h| - 1] + Predict(Diffs(h))
  }

  /** The alternating sum of the first entries of the first `k` rows of the difference table. */
  function Firsts(h: seq<int>, k: nat): int
    requires k <= |h|
    decreases k
  {
    if k == 0 then 0 else h[0] - Firsts(Diffs(h), k - 1)
  }

  /**
   * `predict_back`: the first reading minus the backward prediction for the
   * differences, which unrolls to the alternating sum of the first entries
   * of every row of the table.
   */
  function PredictBack(h: seq<int>): (p: int)
    ensures p == Firsts(h, |h|)
    decreases |h|
  {
    if AllZero(h) then
      ZeroFirsts(h, |h|);
      0
    else
      h[0] - PredictBack(Diffs(h))
  }

  lemma {:induction false} ZeroFirsts(h: seq<int>, k: nat)
    requires AllZero(h) && k <= |h|
    ensures Firsts(h, k) == 0
    decreases k
  {
    if k > 0 {
      DiffsZero(h);
      ZeroFirsts(Diffs(h), k - 1);
    }
  }

  lemma {:induction false} ZeroLasts(h: seq<int>, k: nat)
    requires AllZero(h) && k <= |h|
    ensures Lasts(h, k) == 0
    decreases k
  {
    if k > 0 {
      DiffsZero(h);
      ZeroLasts(Diffs(h), k - 1);
    }
  }

  // ---------------------------------------------------------------------------
  // What the prediction means

  /** Appending `x` to a history appends one entry to its differences. */
  lemma {:induction false} DiffsAppend(h: seq<int>, x: int)
    requires |h| > 0
    ensures Diffs(h + [x]) == Diffs(h) + [x - h[|h| - 1]]
  {
    if |h| >= 2 {
      assert (h + [x])[1..] == h[1..] + [x];
      DiffsAppend(h[1..], x);
    }
  }

  /** Appending `x` appends one entry to every row of the table. */
  lemma {:induction false} NthDiffsAppend(h: seq<int>, x: int, k: nat)
    requires k <= |h|
    ensures NthDiffs(h + [x], k) == NthDiffs(h, k) + [x - Lasts(h, k)]
    decreases k
  {
    if k > 0 {
      var y := x - h[|h| - 1];
      DiffsAppend(h, x);
      NthDiffsAppend(Diffs(h), y, k - 1);
    }
  }

  /**
   * The prediction is the one value that extends a history of `n` readings
   * so that the `n`-th row of the difference table is zero: the next value
   * of the lowest-degree polynomial through the readings.
   */
  lemma PredictExtends(h: seq<int>, x: int)
    ensures NthDiffs(h + [x], |h|) == [0] <==> x == Predict(h)
  {
    var ext, row, lasts := NthDiffs(h + [x], |h|), NthDiffs(h, |h|), Lasts(h, |h|);
    NthDiffsAppend(h, x, |h|);
    assert ext == row + [x - lasts];
    assert |row| == 0;
    PredictIsLasts(h);
    assert Predict(h) == lasts;
    SingleEntry(ext, row, x, lasts);
  }

  /** A row `[] + [x - lasts]` is `[0]` exactly when `x == lasts`. */
  lemma SingleEntry(ext: seq<int>, row: seq<int>, x: int, lasts: int)
    requires |row| == 0 && ext == row + [x - lasts]
    ensures ext == [0] <==> x == lasts
  {
    assert ext == [x - lasts];
    assert ext == [0] ==> ext[0] == 0;
  }

  lemma PredictIsLasts(h: seq<int>)
    ensures Predict(h) == Lasts(h, |h|)
  {
  }

  /** Reversing a history negates and reverses its differences. */
  lemma {:induction false} DiffsReverse(h: seq<int>)
    ensures Diffs(Reverse(h)) == Negate(Reverse(Diffs(h)))
  {
    if |h| >= 2 {
      var t := h[1..];
      var a := h[1] - h[0];
      assert Reverse(h) == Reverse(t) + [h[0]];
      assert Reverse(t)[|t| - 1] == t[0];
      DiffsAppend(Reverse(t), h[0]);
      DiffsReverse(t);
      assert Diffs(h) == [a] + Diffs(t);
      assert ([a] + Diffs(t))[1..] == Diffs(t);
      assert Reverse(Diffs(h)) == Reverse(Diffs(t)) + [a];
      NegateAppend(Reverse(Diffs(t)), a);
    }
  }

  lemma {:induction false} NegateAppend(h: seq<int>, x: int)
    ensures Negate(h + [x]) == Negate(h) + [-x]
  {
    if |h| > 0 {
      assert (h + [x])[1..] == h[1..] + [x];
      NegateAppend(h[1..], x);
    }
  }

  lemma DiffsNegate(h: seq<int>)
    ensures Diffs(Negate(h)) == Negate(Diffs(h))
  {
    DiffsAt(Negate(h));
    NegateAt(h);
    DiffsAt(h);
    NegateAt(Diffs(h));
  }

  lemma {:induction false} PredictNegate(h: seq<int>)
    ensures Predict(Negate(h)) == -Predict(h)
    decreases |h|
  {
    NegateAt(h);
    if !AllZero(h) {
      assert !AllZero(Negate(h)) by {
        var i :| 0 <= i < |h| && h[i] != 0;
        assert Negate(h)[i] != 0;
      }
      DiffsNegate(h);
      PredictNegate(Diffs(h));
    } else {
      assert AllZero(Negate(h));
    }
  }

  /** Extrapolating backwards is extrapolating the reversed history forwards. */
  lemma {:induction false} PredictBackReverse(h: seq<int>)
    ensures PredictBack(h) == Predict(Reverse(h))
    decreases |h|
  {
    var r := Reverse(h);
    ReverseAt(h);
    if !AllZero(h) {
      assert !AllZero(r) by {
        var i :| 0 <= i < |h| && h[i] != 0;
        assert r[|h| - 1 - i] == h[i];
      }
      DiffsReverse(h);
      PredictNegate(Reverse(Diffs(h)));
      PredictBackReverse(Diffs(h));
      assert r[|r| - 1] == h[0];
    } else {
      assert AllZero(r) by {
        forall i | 0 <= i < |r| ensures r[i] == 0 {
          assert r[i] == h[|h| - 1 - i];
        }
      }
    }
  }

  lemma {:induction false} ZeroRowsReverse(h: seq<int>, k: nat)
    ensures AllZero(NthDiffs(Reverse(h), k)) <==> AllZero(NthDiffs(h, k))
    decreases k
  {
    if k == 0 {
      ZeroReverse(h);
    } else {
      var g := Reverse(Diffs(h));
      DiffsReverse(h);
      assert NthDiffs(Reverse(h), k) == NthDiffs(Negate(g), k - 1);
      NegateRows(g, k - 1);
      ZeroRowsReverse(Diffs(h), k - 1);
    }
  }

  lemma ZeroReverse(h: seq<int>)
    ensures AllZero(Reverse(h)) <==> AllZero(h)
  {
    ReverseAt(h);
    if AllZero(Reverse(h)) {
      forall i | 0 <= i < |h| ensures h[i] == 0 {
        assert Reverse(h)[|h| - 1 - i] == h[i];
      }
    }
  }

  lemma {:induction false} NegateRows(h: seq<int>, k: nat)
    ensures AllZero(NthDiffs(Negate(h), k)) <==> AllZero(NthDiffs(h, k))
    decreases k
  {
    NegateAt(h);
    if k == 0 {
      assert AllZero(Negate(h)) ==> AllZero(h) by {
        if AllZero(Negate(h)) {
          forall i | 0 <= i < |h| ensures h[i] == 0 {
            assert Negate(h)[i] == -h[i];
          }
        }
      }
    } else {
      DiffsNegate(h);
      NegateRows(Diffs(h), k - 1);
    }
  }

  /**
   * The backward prediction is the one value that, put in front of a
   * history of `n` readings, makes the `n`-th row of the table zero.
   */
  lemma PredictBackExtends(h: seq<int>, x: int)
    ensures NthDiffs([x] + h, |h|) == [0] <==> x == PredictBack(h)
  {
    var g := [x] + h;
    assert g[1..] == h;
    assert Reverse(g) == Reverse(h) + [x];
    PredictExtends(Reverse(h), x);
    PredictBackReverse(h);
    ZeroRowsReverse(g, |h|);
    MirrorRow(NthDiffs(Reverse(g), |h|), NthDiffs(g, |h|), x, Predict(Reverse(h)));
  }

  /** Two one-entry rows that are zero together: one is `[0]` exactly when the other is. */
  lemma MirrorRow(a: seq<int>, b: seq<int>, x: int, p: int)
    requires |a| == 1 && |b| == 1
    requires a == [0] <==> x == p
    requires AllZero(a) <==> AllZero(b)
    ensures b == [0] <==> x == p
  {
    assert a == [0] <==> a[0] == 0;
    assert b == [0] <==> b[0] == 0;
  }

  // ---------------------------------------------------------------------------
  // Histories of known shape

  /** `a, a + d, …` with `n` readings. */
  function Arithmetic(a: int, d: int, n: nat): (h: seq<int>)
    ensures |h| == n
    decreases n
  {
    if n == 0 then [] else [a] + Arithmetic(a + d, d, n - 1)
  }

  lemma {:induction false} ArithmeticLast(a: int, d: int, n: nat)
    requires n > 0
    ensures Arithmetic(a, d, n)[n - 1] == a + (n - 1) * d
    decreases n
  {
    if n > 1 {
      ArithmeticLast(a + d, d, n - 1);
      assert a + d + (n - 2) * d == a + (n - 1) * d;
    }
  }

  /** A constant history is all zeros exactly when its value is zero. */
  lemma {:induction false} ConstantZero(c: int, n: nat)
    requires n > 0
    ensures AllZero(Arithmetic(c, 0, n)) <==> c == 0
    decreases n
  {
    var h := Arithmetic(c, 0, n);
    var t := Arithmetic(c, 0, n - 1);
    assert h == [c] + t;
    if n > 1 {
      ConstantZero(c, n - 1);
      if c == 0 {
        forall i | 0 <= i < n ensures h[i] == 0 {
          if i > 0 {
            assert h[i] == t[i - 1];
          }
        }
      }
    }
    assert h[0] == c;
  }

  /** The differences of an arithmetic history are its constant step. */
  lemma {:induction false} ArithmeticDiffs(a: int, d: int, n: nat)
    requires n > 0
    ensures Diffs(Arithmetic(a, d, n)) == Arithmetic(d, 0, n - 1)
    decreases n
  {
    if n >= 2 {
      var h := Arithmetic(a, d, n);
      var t := Arithmetic(a + d, d, n - 1);
      assert h[1..] == t;
      ArithmeticDiffs(a + d, d, n - 1);
      assert h[1] - h[0] == d;
    }
  }

  /** A constant history of at least one reading extrapolates to its value both ways. */
  lemma ConstantHistory(c: int, n: nat)
    requires n > 0
    ensures Predict(Arithmetic(c, 0, n)) == c
    ensures PredictBack(Arithmetic(c, 0, n)) == c
  {
    var h := Arithmetic(c, 0, n);
    ArithmeticDiffs(c, 0, n);
    ConstantZero(c, n);
    if n > 1 {
      ConstantZero(0, n - 1);
    }
    assert AllZero(Diffs(h));
    if c != 0 {
      ArithmeticLast(c, 0, n);
      assert Predict(h) == h[n - 1] + Predict(Diffs(h));
    }
  }

  /** An arithmetic history of two or more readings is all zeros exactly when `a` and `d` are. */
  lemma ArithmeticZero(a: int, d: int, n: nat)
    requires n >= 2
    ensures AllZero(Arithmetic(a, d, n)) <==> a == 0 && d == 0
  {
    var h := Arithmetic(a, d, n);
    assert h == [a] + Arithmetic(a + d, d, n - 1);
    assert h[1] == Arithmetic(a + d, d, n - 1)[0] == a + d;
    if a == 0 && d == 0 {
      ConstantZero(0, n);
      assert h == Arithmetic(0, 0, n);
    }
    assert AllZero(h) ==> h[0] == 0 && h[1] == 0;
  }

  /** An arithmetic history of two or more readings continues with `a + n·d`. */
  lemma ArithmeticForward(a: int, d: int, n: nat)
    requires n >= 2
    ensures Predict(Arithmetic(a, d, n)) == a + n * d
  {
    var h := Arithmetic(a, d, n);
    ArithmeticZero(a, d, n);
    if !(a == 0 && d == 0) {
      ArithmeticDiffs(a, d, n);
      ConstantHistory(d, n - 1);
      ArithmeticLast(a, d, n);
      assert Predict(h) == h[n - 1] + Predict(Diffs(h));
      assert a + (n - 1) * d + d == a + n * d;
    }
  }

  /** An arithmetic history of two or more readings starts, one step before, with `a − d`. */
  lemma ArithmeticBackward(a: int, d: int, n: nat)
    requires n >= 2
    ensures PredictBack(Arithmetic(a, d, n)) == a - d
  {
    var h := Arithmetic(a, d, n);
    ArithmeticZero(a, d, n);
    if !(a == 0 && d == 0) {
      ArithmeticDiffs(a, d, n);
      ConstantHistory(d, n - 1);
    }
  }

  // ---------------------------------------------------------------------------
  // The program

  /** Every word of a line as an `i64`; a word that does not parse stops the program. */
  function ParseHistory(ws: seq<string>): (h: Option<seq<int>>)
    ensures h.Some? <==> forall i :: 0 <= i < |ws| ==> ParseSigned(ws[i], I64_LIMIT).Some?
    ensures h.Some? ==> |h.value| == |ws|
    ensures h.Some? ==> forall i :: 0 <= i < |ws| ==> Some(h.value[i]) == ParseSigned(ws[i], I64_LIMIT)
  {
    if |ws| == 0 then Some([])
    else
      match ParseSigned(ws[0], I64_LIMIT)
      case None => None
      case Some(v) =>
        match ParseHistory(ws[1..])
        case None => None
        case Some(rest) => Some([v] + rest)
  }

  /** Every line is one history; a line that does not read stops the program. */
  function ParseHistories(lines: seq<string>): Option<seq<seq<int>>> {
    MapAll(lines, (l: string) => ParseHistory(Words(l)))
  }

  function SumForward(hs: seq<seq<int>>): int {
    if |hs| == 0 then 0 else Predict(hs[0]) + SumForward(hs[1..])
  }

  function SumBackward(hs: seq<seq<int>>): int {
    if |hs| == 0 then 0 else PredictBack(hs[0]) + SumBackward(hs[1..])
  }

  function ReverseEach(hs: seq<seq<int>>): (rs: seq<seq<int>>)
    ensures |rs| == |hs|
    ensures forall i :: 0 <= i < |hs| ==> rs[i] == Reverse(hs[i])
  {
    seq(|hs|, i requires 0 <= i < |hs| => Reverse(hs[i]))
  }

  /** The second answer is the first answer for the input with every line reversed. */
  lemma {:induction false} SumBackwardReverse(hs: seq<seq<int>>)
    ensures SumBackward(hs) == SumForward(ReverseEach(hs))
  {
    if |hs| > 0 {
      PredictBackReverse(hs[0]);
      assert ReverseEach(hs)[1..] == ReverseEach(hs[1..]);
      SumBackwardReverse(hs[1..]);
    }
  }

  /** Both answers, or `None` when a reading does not parse. */
  function Answers(lines: seq<string>): (r: Option<(int, int)>)
    ensures r.Some? <==> ParseHistories(lines).Some?
    ensures r.Some? ==> r.value.1 == SumForward(ReverseEach(ParseHistories(lines).value))
  {
    match ParseHistories(lines)
    case None => None
    case Some(hs) =>
      SumBackwardReverse(hs);
      Some((SumForward(hs), SumBackward(hs)))
  }
}
