/**
 * The slice of Rust's `str` API that the solvers use to read their input:
 * `split_ascii_whitespace`, `split`, `split_once`, `trim`, `trim_matches`
 * and `parse` into an unsigned integer type. Strings are `seq<char>`, and a
 * `char` is a Unicode scalar value, as in Rust.
 */
module AsciiText {
  import opened Wrappers

  const U32_LIMIT: nat := 0x1_0000_0000
  const U64_LIMIT: nat := 0x1_0000_0000_0000_0000
  /** `i64` holds the values in `[-I64_LIMIT, I64_LIMIT)`. */
  const I64_LIMIT: nat := 0x8000_0000_0000_0000

  predicate IsAsciiDigit(c: char) {
    '0' <= c <= '9'
  }

  function DigitValue(c: char): (d: nat)
    requires IsAsciiDigit(c)
    ensures d < 10
  {
    (c as int - '0' as int) as nat
  }

  function DigitChar(d: nat): (c: char)
    requires d < 10
    ensures IsAsciiDigit(c) && DigitValue(c) == d
  {
    ('0' as int + d) as char
  }

  predicate AllDigits(s: string) {
    forall i :: 0 <= i < |s| ==> IsAsciiDigit(s[i])
  }

  /** `char::is_ascii_whitespace`: space, tab, line feed, form feed, carriage return. */
  predicate IsAsciiWhitespace(c: char) {
    c == ' ' || c == '\t' || c == '\n' || c == 12 as char || c == '\r'
  }

  /** `char::is_whitespace`: the Unicode White_Space property, which `str::trim` strips. */
  predicate IsWhiteSpace(c: char) {
    || 9 <= c as int <= 13 || c as int == 0x20 || c as int == 0x85 || c as int == 0xA0
    || c as int == 0x1680 || 0x2000 <= c as int <= 0x200A || c as int == 0x2028
    || c as int == 0x2029 || c as int == 0x202F || c as int == 0x205F || c as int == 0x3000
  }

  // ---------------------------------------------------------------------------
  // Decimal numbers

  /** The value of a string of decimal digits, most significant first. */
  function DecimalValue(s: string): nat
    requires AllDigits(s)
  {
    if |s| == 0 then 0 else 10 * DecimalValue(s[..|s| - 1]) + DigitValue(s[|s| - 1])
  }

  /** The shortest decimal spelling of `n` (what Rust's `to_string` prints). */
  function Show(n: nat): (s: string)
    ensures |s| > 0 && AllDigits(s)
  {
    if n < 10 then [DigitChar(n)] else Show(n / 10) + [DigitChar(n % 10)]
  }

  lemma {:induction false} ShowValue(n: nat)
    ensures DecimalValue(Show(n)) == n
  {
    var s := Show(n);
    if n >= 10 {
      assert s[..|s| - 1] == Show(n / 10);
      ShowValue(n / 10);
    }
  }

  /** The digits that `parse::<uN>` reads: one leading `+` is accepted. */
  function UnsignedDigits(s: string): string {
    if |s| > 0 && s[0] == '+' then s[1..] else s
  }

  /**
   * `str::parse` into an unsigned integer type whose values are below
   * `limit`: an optional `+`, then at least one ASCII digit and nothing
   * else; a value that does not fit is an error.
   */
  function ParseUnsigned(s: string, limit: nat): (r: Option<nat>)
    ensures r.Some? <==> |UnsignedDigits(s)| > 0 && AllDigits(UnsignedDigits(s))
                         && DecimalValue(UnsignedDigits(s)) < limit
    ensures r.Some? ==> r.value < limit
  {
    var d := UnsignedDigits(s);
    if |d| > 0 && AllDigits(d) && DecimalValue(d) < limit then Some(DecimalValue(d)) else None
  }

  /** Round trip: every value of the type parses back from its decimal spelling. */
  lemma ParseShow(n: nat, limit: nat)
    requires n < limit
    ensures ParseUnsigned(Show(n), limit) == Some(n)
    ensures ParseUnsigned(['+'] + Show(n), limit) == Some(n)
  {
    ShowValue(n);
    assert UnsignedDigits(['+'] + Show(n)) == Show(n);
  }

  /**
   * `str::parse` into a signed integer type whose values lie in
   * `[-limit, limit)`: an optional `+` or `-`, then at least one ASCII digit
   * and nothing else.
   */
  function ParseSigned(s: string, limit: nat): (r: Option<int>)
    requires limit > 0
    ensures r.Some? ==> -(limit as int) <= r.value < limit
    ensures |s| > 0 && s[0] == '-' ==>
              (r.Some? <==> |s| > 1 && AllDigits(s[1..]) && DecimalValue(s[1..]) <= limit)
    ensures r.Some? && |s| > 0 && s[0] == '-' ==> r.value == -(DecimalValue(s[1..]) as int)
    ensures !(|s| > 0 && s[0] == '-') ==> r == (match ParseUnsigned(s, limit) case None => None case Some(n) => Some(n as int))
  {
    if |s| > 0 && s[0] == '-' then
      var d := s[1..];
      if |d| > 0 && AllDigits(d) && DecimalValue(d) <= limit then Some(-(DecimalValue(d) as int)) else None
    else
      match ParseUnsigned(s, limit)
      case None => None
      case Some(n) => Some(n)
  }

  /** The decimal spelling of a signed value, with `-` for a negative one. */
  function ShowSigned(v: int): string {
    if v < 0 then ['-'] + Show(-v) else Show(v)
  }

  /** Round trip: every value of the signed type parses back from its spelling. */
  lemma ParseShowSigned(v: int, limit: nat)
    requires -(limit as int) <= v < limit
    requires limit > 0
    ensures ParseSigned(ShowSigned(v), limit) == Some(v)
  {
    if v < 0 {
      ShowValue(-v);
      ParseNegative(Show(-v), -v, limit);
    } else {
      ParseShow(v, limit);
      assert Show(v)[0] != '-';
    }
  }

  /** A `-` before digits whose value is at most `limit` reads as the negated value. */
  lemma ParseNegative(d: string, n: nat, limit: nat)
    requires limit > 0 && n <= limit
    requires |d| > 0 && AllDigits(d) && DecimalValue(d) == n
    ensures ParseSigned(['-'] + d, limit) == Some(-(n as int))
  {
    assert (['-'] + d)[1..] == d;
  }

  /** Every word parsed into an unsigned type below `limit`; one that does not parse stops the program. */
  function ParseAll(ws: seq<string>, limit: nat): (ns: Option<seq<nat>>)
    ensures ns.Some? <==> forall i :: 0 <= i < |ws| ==> ParseUnsigned(ws[i], limit).Some?
    ensures ns.Some? ==> |ns.value| == |ws|
    ensures ns.Some? ==> forall i :: 0 <= i < |ws| ==> Some(ns.value[i]) == ParseUnsigned(ws[i], limit)
  {
    if |ws| == 0 then Some([])
    else
      match ParseUnsigned(ws[0], limit)
      case None => None
      case Some(n) =>
        match ParseAll(ws[1..], limit)
        case None => None
        case Some(rest) => Some([n] + rest)
  }

  /** The decimal spellings of `ns`. */
  function ShowAll(ns: seq<nat>): (ws: seq<string>)
    ensures |ws| == |ns|
    ensures forall i :: 0 <= i < |ns| ==> ws[i] == Show(ns[i])
  {
    if |ns| == 0 then [] else [Show(ns[0])] + ShowAll(ns[1..])
  }

  /** Round trip: numbers below `limit` parse back from their spellings. */
  lemma {:induction false} ParseAllShow(ns: seq<nat>, limit: nat)
    requires forall i :: 0 <= i < |ns| ==> ns[i] < limit
    ensures ParseAll(ShowAll(ns), limit) == Some(ns)
  {
    if |ns| > 0 {
      ParseShow(ns[0], limit);
      assert ShowAll(ns)[1..] == ShowAll(ns[1..]);
      ParseAllShow(ns[1..], limit);
      assert [ns[0]] + ns[1..] == ns;
    }
  }

  // ---------------------------------------------------------------------------
  // split_ascii_whitespace

  /** Length of the longest prefix of `s` that holds no ASCII white space. */
  function WordLength(s: string): (n: nat)
    ensures n <= |s|
    ensures forall i :: 0 <= i < n ==> !IsAsciiWhitespace(s[i])
    ensures n < |s| ==> IsAsciiWhitespace(s[n])
  {
    if |s| == 0 || IsAsciiWhitespace(s[0]) then 0 else 1 + WordLength(s[1..])
  }

  /** The characters of `s` that are not ASCII white space, in order. */
  function NonWhite(s: string): string {
    if |s| == 0 then []
    else (if IsAsciiWhitespace(s[0]) then [] else [s[0]]) + NonWhite(s[1..])
  }

  function Concat(ws: seq<string>): string {
    if |ws| == 0 then [] else ws[0] + Concat(ws[1..])
  }

  predicate IsWord(w: string) {
    |w| > 0 && forall i :: 0 <= i < |w| ==> !IsAsciiWhitespace(w[i])
  }

  lemma {:induction false} NonWhiteAppend(a: string, b: string)
    ensures NonWhite(a + b) == NonWhite(a) + NonWhite(b)
  {
    if |a| > 0 {
      assert (a + b)[1..] == a[1..] + b;
      NonWhiteAppend(a[1..], b);
    } else {
      assert a + b == b;
    }
  }

  lemma {:induction false} NonWhiteOfWord(w: string)
    requires forall i :: 0 <= i < |w| ==> !IsAsciiWhitespace(w[i])
    ensures NonWhite(w) == w
  {
    if |w| > 0 {
      NonWhiteOfWord(w[1..]);
    }
  }

  /**
   * `str::split_ascii_whitespace`: the maximal runs of characters that are
   * not ASCII white space. Nothing else is lost: the words, put together,
   * are the string with its white space deleted.
   */
  function Words(s: string): (ws: seq<string>)
    ensures forall i :: 0 <= i < |ws| ==> IsWord(ws[i])
    ensures Concat(ws) == NonWhite(s)
    decreases |s|
  {
    if |s| == 0 then []
    else if IsAsciiWhitespace(s[0]) then Words(s[1..])
    else
      var n := WordLength(s);
      assert s == s[..n] + s[n..];
      NonWhiteAppend(s[..n], s[n..]);
      NonWhiteOfWord(s[..n]);
      [s[..n]] + Words(s[n..])
  }

  /** The words separated by single spaces. */
  function JoinSpaces(ws: seq<string>): string {
    if |ws| == 0 then [] else if |ws| == 1 then ws[0] else ws[0] + [' '] + JoinSpaces(ws[1..])
  }

  lemma {:induction false} WordsOfWordThen(w: string, rest: string)
    requires IsWord(w)
    requires |rest| == 0 || IsAsciiWhitespace(rest[0])
    ensures Words(w + rest) == [w] + Words(rest)
  {
    var s := w + rest;
    WordLengthOfWordThen(w, rest);
    assert s[..|w|] == w && s[|w|..] == rest;
  }

  lemma {:induction false} WordLengthOfWordThen(w: string, rest: string)
    requires forall i :: 0 <= i < |w| ==> !IsAsciiWhitespace(w[i])
    requires |rest| == 0 || IsAsciiWhitespace(rest[0])
    ensures WordLength(w + rest) == |w|
  {
    if |w| > 0 {
      assert (w + rest)[1..] == w[1..] + rest;
      WordLengthOfWordThen(w[1..], rest);
    } else {
      assert w + rest == rest;
    }
  }

  /** Round trip: splitting words that were joined by spaces gives them back. */
  lemma {:induction false} WordsJoinSpaces(ws: seq<string>)
    requires forall i :: 0 <= i < |ws| ==> IsWord(ws[i])
    ensures Words(JoinSpaces(ws)) == ws
  {
    if |ws| == 1 {
      WordsOfWordThen(ws[0], []);
      assert ws[0] + [] == ws[0];
    } else if |ws| > 1 {
      var rest := [' '] + JoinSpaces(ws[1..]);
      assert JoinSpaces(ws) == ws[0] + rest;
      WordsOfWordThen(ws[0], rest);
      assert rest[1..] == JoinSpaces(ws[1..]);
      WordsJoinSpaces(ws[1..]);
    }
  }

  lemma {:induction false} WordLengthSpace(a: string, b: string)
    ensures WordLength(a + [' '] + b) == WordLength(a)
  {
    if |a| > 0 {
      assert (a + [' '] + b)[1..] == a[1..] + [' '] + b;
      WordLengthSpace(a[1..], b);
    }
  }

  /** A space separates the words of the text before it from those after it. */
  lemma {:induction false} WordsSpace(a: string, b: string)
    ensures Words(a + [' '] + b) == Words(a) + Words(b)
    decreases |a|
  {
    var s := a + [' '] + b;
    if |a| == 0 {
      assert s[1..] == b;
    } else if IsAsciiWhitespace(a[0]) {
      assert s[1..] == a[1..] + [' '] + b;
      WordsSpace(a[1..], b);
    } else {
      var n := WordLength(a);
      WordLengthSpace(a, b);
      assert s[..n] == a[..n];
      assert s[n..] == a[n..] + [' '] + b;
      WordsSpace(a[n..], b);
    }
  }

  // ---------------------------------------------------------------------------
  // split, split_once, trim

  /** Index of the first `c` in `s`, or `|s|` when there is none. */
  function IndexOf(s: string, c: char): (i: nat)
    ensures i <= |s|
    ensures i < |s| ==> s[i] == c
    ensures forall j :: 0 <= j < i ==> s[j] != c
  {
    if |s| == 0 then 0 else if s[0] == c then 0 else 1 + IndexOf(s[1..], c)
  }

  /** `str::split_once(c)`: the text before and after the first `c`. */
  function SplitOnce(s: string, c: char): (r: Option<(string, string)>)
    ensures r.None? <==> c !in s
    ensures r.Some? ==> s == r.value.0 + [c] + r.value.1 && c !in r.value.0
  {
    var i := IndexOf(s, c);
    if i == |s| then None
    else
      assert s == s[..i] + [c] + s[i + 1..];
      Some((s[..i], s[i + 1..]))
  }

  /** The pieces separated by `c`. */
  function Join(ps: seq<string>, c: char): string
    requires |ps| > 0
  {
    if |ps| == 1 then ps[0] else ps[0] + [c] + Join(ps[1..], c)
  }

  /** `str::split(c)`: the (possibly empty) pieces between the occurrences of `c`. */
  function Split(s: string, c: char): (ps: seq<string>)
    ensures |ps| > 0
    ensures forall i :: 0 <= i < |ps| ==> c !in ps[i]
    ensures Join(ps, c) == s
    decreases |s|
  {
    var i := IndexOf(s, c);
    if i == |s| then [s]
    else
      assert s == s[..i] + [c] + s[i + 1..];
      [s[..i]] + Split(s[i + 1..], c)
  }

  /** A decimal spelling is one word. */
  lemma ShowIsWord(n: nat)
    ensures IsWord(Show(n))
  {
    var s := Show(n);
    assert forall k :: 0 <= k < |s| ==> IsAsciiDigit(s[k]);
  }

  /** A decimal spelling holds no character other than digits. */
  lemma ShowAvoids(n: nat, c: char)
    requires !IsAsciiDigit(c)
    ensures c !in Show(n)
  {
    var s := Show(n);
    assert forall k :: 0 <= k < |s| ==> IsAsciiDigit(s[k]);
  }

  lemma SingleWord(w: string)
    requires IsWord(w)
    ensures Words(w) == [w]
  {
    WordsOfWordThen(w, []);
    assert w + [] == w;
  }

  /** `split_once` cuts at the first occurrence of the separator. */
  lemma SplitOnceAt(a: string, c: char, b: string)
    requires c !in a
    ensures SplitOnce(a + [c] + b, c) == Some((a, b))
  {
    IndexOfAbsentThen(a, c, b);
    var s := a + [c] + b;
    assert s[..|a|] == a && s[|a| + 1..] == b;
  }

  /** Text with exactly one separator splits into the parts around it. */
  lemma SplitAround(a: string, c: char, b: string)
    requires c !in a && c !in b
    ensures Split(a + [c] + b, c) == [a, b]
  {
    assert Join([a, b], c) == a + [c] + b;
    SplitJoin([a, b], c);
  }

  /** Round trip: pieces joined by `c` split back into the same pieces. */
  lemma {:induction false} SplitJoin(ps: seq<string>, c: char)
    requires |ps| > 0
    requires forall i :: 0 <= i < |ps| ==> c !in ps[i]
    ensures Split(Join(ps, c), c) == ps
  {
    if |ps| > 1 {
      var s := Join(ps, c);
      IndexOfAbsentThen(ps[0], c, Join(ps[1..], c));
      assert s[|ps[0]| + 1..] == Join(ps[1..], c);
      assert s[..|ps[0]|] == ps[0];
      SplitJoin(ps[1..], c);
    } else {
      IndexOfAbsent(ps[0], c);
    }
  }

  lemma {:induction false} IndexOfAbsent(s: string, c: char)
    requires c !in s
    ensures IndexOf(s, c) == |s|
  {
    if |s| > 0 {
      IndexOfAbsent(s[1..], c);
    }
  }

  lemma {:induction false} IndexOfAbsentThen(a: string, c: char, b: string)
    requires c !in a
    ensures IndexOf(a + [c] + b, c) == |a|
  {
    if |a| > 0 {
      assert (a + [c] + b)[1..] == a[1..] + [c] + b;
      IndexOfAbsentThen(a[1..], c, b);
    }
  }

  /** Length of the longest prefix of `s` whose characters satisfy `strip`. */
  function LeadingRun(s: string, strip: char -> bool): (n: nat)
    ensures n <= |s|
    ensures forall i :: 0 <= i < n ==> strip(s[i])
    ensures n < |s| ==> !strip(s[n])
  {
    if |s| == 0 || !strip(s[0]) then 0 else 1 + LeadingRun(s[1..], strip)
  }

  /** Length of the longest suffix of `s` whose characters satisfy `strip`. */
  function TrailingRun(s: string, strip: char -> bool): (n: nat)
    ensures n <= |s|
    ensures forall i :: |s| - n <= i < |s| ==> strip(s[i])
    ensures n < |s| ==> !strip(s[|s| - 1 - n])
  {
    if |s| == 0 || !strip(s[|s| - 1]) then 0 else 1 + TrailingRun(s[..|s| - 1], strip)
  }

  /** `s[i..j]` keeps `s` after cutting off only characters that satisfy `strip`. */
  predicate IsTrimCut(s: string, strip: char -> bool, i: int, j: int) {
    && 0 <= i <= j <= |s|
    && (forall k :: 0 <= k < i ==> strip(s[k]))
    && (forall k :: j <= k < |s| ==> strip(s[k]))
  }

  /**
   * Removes every leading and trailing character that satisfies `strip`:
   * the result is a slice `s[i..j]`, everything cut off satisfies `strip`,
   * and the result neither starts nor ends with such a character.
   */
  function TrimBy(s: string, strip: char -> bool): (t: string)
    ensures exists i, j :: IsTrimCut(s, strip, i, j) && t == s[i..j]
    ensures |t| > 0 ==> !strip(t[0]) && !strip(t[|t| - 1])
  {
    var i := LeadingRun(s, strip);
    var n := TrailingRun(s[i..], strip);
    var j := |s| - n;
    forall k | j <= k < |s|
      ensures strip(s[k])
    {
      assert s[k] == s[i..][k - i];
    }
    assert IsTrimCut(s, strip, i, j);
    s[i..j]
  }

  /** Trimming text padded only with stripped characters gives the text back. */
  lemma TrimByPadded(p: string, t: string, q: string, strip: char -> bool)
    requires |t| > 0 && !strip(t[0]) && !strip(t[|t| - 1])
    requires forall k :: 0 <= k < |p| ==> strip(p[k])
    requires forall k :: 0 <= k < |q| ==> strip(q[k])
    ensures TrimBy(p + t + q, strip) == t
  {
    var s := p + t + q;
    var r := TrimBy(s, strip);
    var i, j :| IsTrimCut(s, strip, i, j) && r == s[i..j];
    assert s[|p|] == t[0] && s[|p| + |t| - 1] == t[|t| - 1];
    assert s[|p|..|p| + |t|] == t;
  }

  /** Trimming keeps only characters of the original text. */
  lemma TrimByAvoids(s: string, strip: char -> bool, c: char)
    requires c !in s
    ensures c !in TrimBy(s, strip)
  {
    var t := TrimBy(s, strip);
    var i, j :| IsTrimCut(s, strip, i, j) && t == s[i..j];
  }

  lemma TrimPadded(p: string, t: string, q: string)
    requires |t| > 0 && !IsWhiteSpace(t[0]) && !IsWhiteSpace(t[|t| - 1])
    requires forall k :: 0 <= k < |p| ==> IsWhiteSpace(p[k])
    requires forall k :: 0 <= k < |q| ==> IsWhiteSpace(q[k])
    ensures Trim(p + t + q) == t
  {
    TrimByPadded(p, t, q, IsWhiteSpace);
  }

  lemma TrimMatchesPadded(p: string, t: string, q: string, c: char)
    requires |t| > 0 && t[0] != c && t[|t| - 1] != c
    requires forall k :: 0 <= k < |p| ==> p[k] == c
    requires forall k :: 0 <= k < |q| ==> q[k] == c
    ensures TrimMatches(p + t + q, c) == t
  {
    TrimByPadded(p, t, q, x => x == c);
  }

  /** `str::trim`. */
  function Trim(s: string): string {
    TrimBy(s, IsWhiteSpace)
  }

  /** `str::trim_matches(c)` for a single character `c`. */
  function TrimMatches(s: string, c: char): string {
    TrimBy(s, x => x == c)
  }
}
