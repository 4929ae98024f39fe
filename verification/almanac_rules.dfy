/**
 * One line of an almanac map, "destination source length": a rule that
 * moves the values `[src, src + len)` to `[dst, dst + len)` keeping their
 * order.
 */
module AlmanacRules {
  import opened Wrappers
  import opened AsciiText

  /** The three `u64` fields of a rule, in the order the line gives them. */
  datatype Range = Range(dst: nat, src: nat, len: nat)

  /** The rule applies to `v`. */
  predicate Covers(r: Range, v: int) {
    r.src <= v < r.src + r.len
  }

  /** Where the rule sends a value it covers. */
  function Shift(r: Range, v: int): int {
    r.dst + (v - r.src)
  }

  /** The words of a line that parse as `u64`, in order; the others are skipped. */
  function Numbers(ws: seq<string>): (ns: seq<nat>)
    ensures |ns| <= |ws|
    ensures forall i :: 0 <= i < |ns| ==> ns[i] < U64_LIMIT
  {
    if |ws| == 0 then []
    else
      match ParseUnsigned(ws[0], U64_LIMIT)
      case Some(n) => [n] + Numbers(ws[1..])
      case None => Numbers(ws[1..])
  }

  /**
   * `Range::from_str`: the line must hold exactly three numeric words;
   * words that are not numbers are dropped before counting.
   */
  function ParseRange(s: string): (r: Option<Range>)
    ensures r.Some? <==> |Numbers(Words(s))| == 3
    ensures r.Some? ==> [r.value.dst, r.value.src, r.value.len] == Numbers(Words(s))
  {
    var ns := Numbers(Words(s));
    if |ns| != 3 then None else Some(Range(ns[0], ns[1], ns[2]))
  }

  /** The line a rule is written as. */
  function ShowRange(r: Range): string {
    JoinSpaces([Show(r.dst), Show(r.src), Show(r.len)])
  }

  /** Round trip: a rule whose fields fit in `u64` parses back from its line. */
  lemma ParseShowRange(r: Range)
    requires r.dst < U64_LIMIT && r.src < U64_LIMIT && r.len < U64_LIMIT
    ensures ParseRange(ShowRange(r)) == Some(r)
  {
    var ws := [Show(r.dst), Show(r.src), Show(r.len)];
    ShowIsWord(r.dst);
    ShowIsWord(r.src);
    ShowIsWord(r.len);
    WordsJoinSpaces(ws);
    ParseShow(r.dst, U64_LIMIT);
    ParseShow(r.src, U64_LIMIT);
    ParseShow(r.len, U64_LIMIT);
    assert ws[1..][1..][1..] == [];
    assert Numbers(ws[1..][1..]) == [r.len];
    assert Numbers(ws[1..]) == [r.src, r.len];
    assert Numbers(ws) == [r.dst, r.src, r.len];
  }

  /** A word that is not a `u64` is skipped wherever it stands. */
  lemma {:induction false} NumbersSkipsNonNumeric(ws: seq<string>, i: nat)
    requires i <= |ws|
    ensures forall w :: ParseUnsigned(w, U64_LIMIT).None? ==>
              Numbers(ws[..i] + [w] + ws[i..]) == Numbers(ws)
  {
    forall w | ParseUnsigned(w, U64_LIMIT).None?
      ensures Numbers(ws[..i] + [w] + ws[i..]) == Numbers(ws)
    {
      if i == 0 {
        assert ([w] + ws)[1..] == ws;
        assert ws[..0] + [w] + ws[0..] == [w] + ws;
      } else {
        assert (ws[..i] + [w] + ws[i..])[1..] == ws[1..][..i - 1] + [w] + ws[1..][i - 1..];
        assert (ws[..i] + [w] + ws[i..])[0] == ws[0];
        NumbersSkipsNonNumeric(ws[1..], i - 1);
      }
    }
  }
}
