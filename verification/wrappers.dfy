/** Failure-carrying result type shared by every parser of the model. */
module Wrappers {

  /** `None` stands for a parse error or for a panic of the modelled code. */
  datatype Option<+T> = None | Some(value: T) {

    /** The carried value, or `default` when there is none (Rust's `unwrap_or`). */
    function GetOr(default: T): T {
      match this
      case Some(v) => v
      case None => default
    }
  }

  /**
   * `f` applied to every element, or `None` as soon as one application
   * fails (collecting an iterator of `Result`s, or `unwrap` on each item).
   */
  function MapAll<A, B>(xs: seq<A>, f: A -> Option<B>): (r: Option<seq<B>>)
    ensures r.Some? <==> forall i :: 0 <= i < |xs| ==> f(xs[i]).Some?
    ensures r.Some? ==> |r.value| == |xs|
    ensures r.Some? ==> forall i :: 0 <= i < |xs| ==> Some(r.value[i]) == f(xs[i])
  {
    if |xs| == 0 then Some([])
    else
      match f(xs[0])
      case None => None
      case Some(y) =>
        match MapAll(xs[1..], f)
        case None => None
        case Some(rest) => Some([y] + rest)
  }

  /** When `MapAll` fails, some element's application fails. */
  lemma MapAllFails<A, B>(xs: seq<A>, f: A -> Option<B>) returns (i: nat)
    requires MapAll(xs, f).None?
    ensures i < |xs| && f(xs[i]).None?
  {
    i :| 0 <= i < |xs| && !f(xs[i]).Some?;
  }

  /** When every application succeeds, `MapAll` collects exactly their values. */
  lemma {:induction false} MapAllSucceeds<A, B>(xs: seq<A>, f: A -> Option<B>, ys: seq<B>)
    requires |xs| == |ys|
    requires forall i :: 0 <= i < |xs| ==> f(xs[i]) == Some(ys[i])
    ensures MapAll(xs, f) == Some(ys)
  {
    if |xs| > 0 {
      MapAllSucceeds(xs[1..], f, ys[1..]);
      assert ys == [ys[0]] + ys[1..];
    }
  }
}
