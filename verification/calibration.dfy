/**
 * Calibration values: the first and the last ASCII digit of a line, read
 * as a two-digit number. The second reading first rewrites every spelled
 * digit "one" … "nine" to the word, its digit and the word again, so that
 * words that share letters ("eightwo") all survive the rewriting.
 */
module Calibration {
  import opened Wrappers
  import opened AsciiText

  // ---------------------------------------------------------------------------
  // Digits of a line

  predicate HasDigit(s: string) {
    exists i :: 0 <= i < |s| && IsAsciiDigit(s[i])
  }

  /** `s.chars().filter(|c| c.is_ascii_digit())`. */
  function Digits(s: string): (ds: string)
    ensures AllDigits(ds)
    ensures |ds| <= |s|
  {
    if |s| == 0 then [] else (if IsAsciiDigit(s[0]) then [s[0]] else []) + Digits(s[1..])
  }

  /** Position of the first ASCII digit. */
  function FirstDigit(s: string): (i: nat)
    requires HasDigit(s)
    ensures i < |s| && IsAsciiDigit(s[i])
    ensures forall k :: 0 <= k < i ==> !IsAsciiDigit(s[k])
  {
    if IsAsciiDigit(s[0]) then 0
    else
      assert HasDigit(s[1..]) by {
        var j :| 0 <= j < |s| && IsAsciiDigit(s[j]);
        assert s[1..][j - 1] == s[j];
      }
      1 + FirstDigit(s[1..])
  }

  /** Position of the last ASCII digit. */
  function LastDigit(s: string): (i: nat)
    requires HasDigit(s)
    ensures i < |s| && IsAsciiDigit(s[i])
    ensures forall k :: i < k < |s| ==> !IsAsciiDigit(s[k])
  {
    if IsAsciiDigit(s[|s| - 1]) then |s| - 1
    else
      assert HasDigit(s[..|s| - 1]) by {
        var j :| 0 <= j < |s| && IsAsciiDigit(s[j]);
        assert s[..|s| - 1][j] == s[j];
      }
      LastDigit(s[..|s| - 1])
  }

  lemma {:induction false} DigitsEmpty(s: string)
    ensures |Digits(s)| == 0 <==> !HasDigit(s)
  {
    if |s| > 0 {
      DigitsEmpty(s[1..]);
      if HasDigit(s) && !IsAsciiDigit(s[0]) {
        var j :| 0 <= j < |s| && IsAsciiDigit(s[j]);
        assert s[1..][j - 1] == s[j];
      }
    }
  }

  /** The filtered sequence starts with the first digit of the line. */
  lemma {:induction false} DigitsHead(s: string)
    requires HasDigit(s)
    ensures |Digits(s)| > 0 && Digits(s)[0] == s[FirstDigit(s)]
  {
    if !IsAsciiDigit(s[0]) {
      var j :| 0 <= j < |s| && IsAsciiDigit(s[j]);
      assert s[1..][j - 1] == s[j];
      DigitsHead(s[1..]);
    }
  }

  lemma {:induction false} DigitsAppend(s: string, c: char)
    ensures Digits(s + [c]) == Digits(s) + (if IsAsciiDigit(c) then [c] else [])
  {
    if |s| > 0 {
      assert (s + [c])[1..] == s[1..] + [c];
      DigitsAppend(s[1..], c);
    }
  }

  /** The filtered sequence ends with the last digit of the line. */
  lemma {:induction false} DigitsTail(s: string)
    requires HasDigit(s)
    ensures |Digits(s)| > 0 && Digits(s)[|Digits(s)| - 1] == s[LastDigit(s)]
  {
    var init := s[..|s| - 1];
    var c := s[|s| - 1];
    assert s == init + [c];
    DigitsAppend(init, c);
    if !IsAsciiDigit(c) {
      var j :| 0 <= j < |s| && IsAsciiDigit(s[j]);
      assert init[j] == s[j];
      DigitsTail(init);
    }
  }

  // ---------------------------------------------------------------------------
  // get_value

  /**
   * `get_value`: ten times the first digit plus the last digit, or `None`
   * when the line holds no digit at all.
   */
  function GetValue(s: string): (r: Option<nat>)
    ensures r.None? <==> !HasDigit(s)
    ensures r.Some? ==> r.value == 10 * DigitValue(s[FirstDigit(s)]) + DigitValue(s[LastDigit(s)])
    ensures r.Some? ==> r.value < 100
  {
    var ds := Digits(s);
    DigitsEmpty(s);
    if |ds| == 0 then None
    else
      DigitsHead(s);
      DigitsTail(s);
      Some(10 * DigitValue(ds[0]) + DigitValue(ds[|ds| - 1]))
  }

  /** A line with a single digit `d` reads as `11·d`. */
  lemma LoneDigit(s: string, i: nat)
    requires i < |s| && IsAsciiDigit(s[i])
    requires forall k :: 0 <= k < |s| && k != i ==> !IsAsciiDigit(s[k])
    ensures GetValue(s) == Some(11 * DigitValue(s[i]))
  {
    assert HasDigit(s);
  }

  // ---------------------------------------------------------------------------
  // str::replace

  /** `pat` occurs in `s` at position `i`. */
  predicate OccursAt(pat: string, s: string, i: int) {
    0 <= i && i + |pat| <= |s| && s[i..i + |pat|] == pat
  }

  predicate Occurs(pat: string, s: string) {
    exists i :: 0 <= i <= |s| && OccursAt(pat, s, i)
  }

  /**
   * `str::replace(pat, rep)` for a non-empty pattern: the occurrences of
   * `pat` found scanning from the left, none overlapping the one before,
   * each replaced by `rep`.
   */
  function Replace(s: string, pat: string, rep: string): string
    requires |pat| > 0
    decreases |s|
  {
    if |s| < |pat| then s
    else if s[..|pat|] == pat then rep + Replace(s[|pat|..], pat, rep)
    else [s[0]] + Replace(s[1..], pat, rep)
  }

  lemma OccursLater(pat: string, s: string)
    requires |s| > 0 && Occurs(pat, s) && !OccursAt(pat, s, 0)
    ensures Occurs(pat, s[1..])
  {
    var i :| 0 <= i <= |s| && OccursAt(pat, s, i);
    assert i > 0;
    assert s[1..][i - 1..i - 1 + |pat|] == s[i..i + |pat|];
    assert OccursAt(pat, s[1..], i - 1);
  }

  lemma OccursShift(pat: string, s: string)
    requires |s| > 0 && Occurs(pat, s[1..])
    ensures Occurs(pat, s)
  {
    var i :| 0 <= i <= |s| - 1 && OccursAt(pat, s[1..], i);
    assert s[i + 1..i + 1 + |pat|] == s[1..][i..i + |pat|];
    assert OccursAt(pat, s, i + 1);
  }

  /** A line without the pattern comes back unchanged. */
  lemma {:induction false} ReplaceAbsent(s: string, pat: string, rep: string)
    requires |pat| > 0 && !Occurs(pat, s)
    ensures Replace(s, pat, rep) == s
    decreases |s|
  {
    if |s| >= |pat| {
      assert !OccursAt(pat, s, 0);
      if Occurs(pat, s[1..]) {
        OccursShift(pat, s);
      }
      ReplaceAbsent(s[1..], pat, rep);
    }
  }

  /** A line with the pattern gets the digit `c` of the replacement `pat c pat`. */
  lemma {:induction false} ReplaceInserts(s: string, pat: string, c: char)
    requires |pat| > 0 && Occurs(pat, s)
    ensures c in Replace(s, pat, pat + [c] + pat)
    decreases |s|
  {
    var rep := pat + [c] + pat;
    assert rep[|pat|] == c;
    var i :| OccursAt(pat, s, i);
    if s[..|pat|] != pat {
      assert !OccursAt(pat, s, 0);
      OccursLater(pat, s);
      ReplaceInserts(s[1..], pat, c);
    }
  }

  // ---------------------------------------------------------------------------
  // Subsequences

  /** `a` is `b` with some characters deleted. */
  predicate Sub(a: string, b: string)
    decreases |b|
  {
    if |a| == 0 then true
    else if |b| == 0 then false
    else (a[0] == b[0] && Sub(a[1..], b[1..])) || Sub(a, b[1..])
  }

  lemma {:induction false} SubRefl(a: string)
    ensures Sub(a, a)
  {
    if |a| > 0 {
      SubRefl(a[1..]);
    }
  }

  lemma {:induction false} SubPrefix(a: string, x: string, b: string)
    requires Sub(a, b)
    ensures Sub(a, x + b)
  {
    if |x| > 0 {
      assert (x + b)[1..] == x[1..] + b;
      SubPrefix(a, x[1..], b);
    } else {
      assert x + b == b;
    }
  }

  lemma {:induction false} SubConcat(a1: string, b1: string, a2: string, b2: string)
    requires Sub(a1, b1) && Sub(a2, b2)
    ensures Sub(a1 + a2, b1 + b2)
    decreases |b1|
  {
    if |a1| == 0 {
      assert a1 + a2 == a2;
      SubPrefix(a2, b1, b2);
    } else {
      assert (b1 + b2)[1..] == b1[1..] + b2;
      if a1[0] == b1[0] && Sub(a1[1..], b1[1..]) {
        SubConcat(a1[1..], b1[1..], a2, b2);
        assert (a1 + a2)[1..] == a1[1..] + a2;
      } else {
        SubConcat(a1, b1[1..], a2, b2);
      }
    }
  }

  lemma {:induction false} SubTrans(a: string, b: string, c: string)
    requires Sub(a, b) && Sub(b, c)
    ensures Sub(a, c)
    decreases |c|
  {
    if |a| > 0 {
      if b[0] == c[0] && Sub(b[1..], c[1..]) {
        if a[0] == b[0] && Sub(a[1..], b[1..]) {
          SubTrans(a[1..], b[1..], c[1..]);
        } else {
          SubTrans(a, b[1..], c[1..]);
        }
      } else {
        SubTrans(a, b, c[1..]);
      }
    }
  }

  lemma {:induction false} SubKeeps(a: string, b: string, x: char)
    requires Sub(a, b) && x in a
    ensures x in b
    decreases |b|
  {
    if a[0] == b[0] && Sub(a[1..], b[1..]) {
      if a[0] != x {
        SubKeeps(a[1..], b[1..], x);
      }
    } else {
      SubKeeps(a, b[1..], x);
    }
  }

  /** Replacing a pattern by text that embeds it only inserts characters. */
  lemma {:induction false} ReplaceGrows(s: string, pat: string, rep: string)
    requires |pat| > 0 && Sub(pat, rep)
    ensures Sub(s, Replace(s, pat, rep))
    decreases |s|
  {
    if |s| < |pat| {
      SubRefl(s);
    } else if s[..|pat|] == pat {
      var rest := s[|pat|..];
      assert s == pat + rest;
      ReplaceGrows(rest, pat, rep);
      SubConcat(pat, rep, rest, Replace(rest, pat, rep));
    } else {
      ReplaceGrows(s[1..], pat, rep);
      SubRefl([s[0]]);
      SubConcat([s[0]], [s[0]], s[1..], Replace(s[1..], pat, rep));
      assert [s[0]] + s[1..] == s;
    }
  }

  // ---------------------------------------------------------------------------
  // get_real_value

  /** `DIGITS[k]`: the spelling of `k + 1`. */
  function Word(k: nat): (w: string)
    requires k < 9
    ensures |w| > 0
  {
    ["one", "two", "three", "four", "five", "six", "seven", "eight", "nine"][k]
  }

  /** `REPL[k]`: the spelling of `k + 1`, its digit, and the spelling again. */
  function Replacement(k: nat): (r: string)
    requires k < 9
    ensures r == Word(k) + [DigitChar(k + 1)] + Word(k)
  {
    ["one1one", "two2two", "three3three", "four4four", "five5five",
     "six6six", "seven7seven", "eight8eight", "nine9nine"][k]
  }

  /** The fold over the pairs `k .. 8`, applied to the text `t`. */
  function RewriteFrom(t: string, k: nat): string
    requires k <= 9
    decreases 9 - k
  {
    if k == 9 then t else RewriteFrom(Replace(t, Word(k), Replacement(k)), k + 1)
  }

  /** The nine replacements in order; each keeps its word, so nothing of the line is lost. */
  function Rewrite(s: string): (t: string)
    ensures Sub(s, t)
  {
    RewriteGrows(s, 0);
    RewriteFrom(s, 0)
  }

  /** `get_real_value`. */
  function GetRealValue(s: string): (v: Option<nat>)
    ensures v.Some? ==> v.value < 100
  {
    GetValue(Rewrite(s))
  }

  predicate HasWord(s: string) {
    exists k :: 0 <= k < 9 && Occurs(Word(k), s)
  }

  lemma PatternInReplacement(k: nat)
    requires k < 9
    ensures Sub(Word(k), Replacement(k))
  {
    SubRefl(Word(k));
    SubPrefix(Word(k), Word(k) + [DigitChar(k + 1)], Word(k));
    assert Sub(Word(k), Word(k) + [DigitChar(k + 1)] + Word(k));
  }

  /** The rewriting only inserts characters: the line is a subsequence of its rewriting. */
  lemma {:induction false} RewriteGrows(t: string, k: nat)
    requires k <= 9
    ensures Sub(t, RewriteFrom(t, k))
    decreases 9 - k
  {
    if k == 9 {
      SubRefl(t);
    } else {
      var u := Replace(t, Word(k), Replacement(k));
      PatternInReplacement(k);
      ReplaceGrows(t, Word(k), Replacement(k));
      RewriteGrows(u, k + 1);
      SubTrans(t, u, RewriteFrom(u, k + 1));
    }
  }

  /** A line holding none of the nine words is left as it is. */
  lemma {:induction false} RewriteIdle(t: string, k: nat)
    requires k <= 9
    requires forall j :: k <= j < 9 ==> !Occurs(Word(j), t)
    ensures RewriteFrom(t, k) == t
    decreases 9 - k
  {
    if k < 9 {
      ReplaceAbsent(t, Word(k), Replacement(k));
      RewriteIdle(t, k + 1);
    }
  }

  /**
   * From pair `k` on, the text stays the original line until some step
   * inserts a digit, and a digit once present stays: so a word among
   * pairs `k ..` in the line `t` leaves a digit in the result.
   */
  lemma {:induction false} RewriteFindsWord(t: string, k: nat)
    requires k <= 9
    requires exists j :: k <= j < 9 && Occurs(Word(j), t)
    ensures HasDigit(RewriteFrom(t, k))
    decreases 9 - k
  {
    var u := Replace(t, Word(k), Replacement(k));
    if Occurs(Word(k), t) {
      ReplaceInserts(t, Word(k), DigitChar(k + 1));
      PatternInReplacement(k);
      RewriteGrows(u, k + 1);
      SubKeeps(u, RewriteFrom(u, k + 1), DigitChar(k + 1));
      HasDigitOf(RewriteFrom(u, k + 1), DigitChar(k + 1));
    } else {
      ReplaceAbsent(t, Word(k), Replacement(k));
      RewriteFindsWord(t, k + 1);
    }
  }

  lemma HasDigitOf(s: string, c: char)
    requires c in s && IsAsciiDigit(c)
    ensures HasDigit(s)
  {
    var i :| 0 <= i < |s| && s[i] == c;
  }

  lemma DigitSurvives(s: string, i: nat)
    requires i < |s| && IsAsciiDigit(s[i])
    ensures HasDigit(Rewrite(s))
  {
    RewriteGrows(s, 0);
    SubKeeps(s, Rewrite(s), s[i]);
    HasDigitOf(Rewrite(s), s[i]);
  }

  /**
   * The rewritten reading fails exactly when the line holds neither a
   * digit nor a spelled digit.
   */
  lemma RealValueNone(s: string)
    ensures GetRealValue(s).None? <==> !HasDigit(s) && !HasWord(s)
  {
    if HasDigit(s) {
      var i :| 0 <= i < |s| && IsAsciiDigit(s[i]);
      DigitSurvives(s, i);
    } else if HasWord(s) {
      RewriteFindsWord(s, 0);
    } else {
      RewriteIdle(s, 0);
    }
  }

  /** Without spelled digits both readings agree. */
  lemma RealValueWithoutWords(s: string)
    requires !HasWord(s)
    ensures GetRealValue(s) == GetValue(s)
  {
    RewriteIdle(s, 0);
  }

  // ---------------------------------------------------------------------------
  // The program

  /** The sum of the readings, a line without one counting as 0. */
  function Total(lines: seq<string>, read: string -> Option<nat>): (n: nat)
    ensures (forall i :: 0 <= i < |lines| ==> read(lines[i]).None?) ==> n == 0
  {
    if |lines| == 0 then 0 else read(lines[0]).GetOr(0) + Total(lines[1..], read)
  }

  /** The total of two blocks of lines is the sum of their totals. */
  lemma {:induction false} TotalConcat(a: seq<string>, b: seq<string>, read: string -> Option<nat>)
    ensures Total(a + b, read) == Total(a, read) + Total(b, read)
  {
    if |a| == 0 {
      assert a + b == b;
    } else {
      assert (a + b)[1..] == a[1..] + b;
      TotalConcat(a[1..], b, read);
    }
  }

  /** A line that does not read can be dropped without changing the total. */
  lemma TotalSkips(a: seq<string>, l: string, b: seq<string>, read: string -> Option<nat>)
    requires read(l).None?
    ensures Total(a + [l] + b, read) == Total(a + b, read)
  {
    TotalConcat(a + [l], b, read);
    TotalConcat(a, [l], read);
    TotalConcat(a, b, read);
    assert [l][1..] == [];
  }

  lemma {:induction false} TotalBound(lines: seq<string>)
    ensures Total(lines, GetValue) <= 99 * |lines|
    ensures Total(lines, GetRealValue) <= 99 * |lines|
  {
    if |lines| > 0 {
      TotalBound(lines[1..]);
    }
  }

  /** Both answers. */
  function Answers(lines: seq<string>): (nat, nat) {
    (Total(lines, GetValue), Total(lines, GetRealValue))
  }
}
