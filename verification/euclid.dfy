/**
 * Euclid's algorithm on natural numbers and the least common multiple
 * computed as a fold, `acc * (e / gcd(acc, e))` from 1.
 */
module Euclid {

  /** `d` divides `n`; zero divides only zero. */
  predicate Divides(d: nat, n: nat) {
    if d == 0 then n == 0 else n % d == 0
  }

  // ---------------------------------------------------------------------------
  // Division facts

  /** Euclidean division is unique. */
  lemma DivModUnique(n: nat, d: nat, q: nat, r: nat)
    requires d > 0 && n == d * q + r && r < d
    ensures n / d == q && n % d == r
  {
    var q', r' := n / d, n % d;
    assert n == d * q' + r';
    if q' > q {
      assert d * q' >= d * (q + 1) by { MulMonotone(d, q + 1, q'); }
    } else if q' < q {
      assert d * q >= d * (q' + 1) by { MulMonotone(d, q' + 1, q); }
    }
  }

  lemma MulMonotone(d: nat, x: nat, y: nat)
    requires x <= y
    ensures d * x <= d * y
  {
  }

  lemma DividesMul(d: nat, k: nat)
    ensures Divides(d, d * k)
  {
    if d > 0 {
      DivModUnique(d * k, d, k, 0);
    }
  }

  /** The quotient of a multiple. */
  lemma DividesQuotient(d: nat, n: nat)
    requires d > 0 && Divides(d, n)
    ensures n == d * (n / d)
  {
  }

  lemma DividesRefl(d: nat)
    ensures Divides(d, d)
  {
    DividesMul(d, 1);
  }

  lemma DividesZero(d: nat)
    ensures Divides(d, 0)
  {
    DividesMul(d, 0);
  }

  lemma {:induction false} DividesTrans(a: nat, b: nat, c: nat)
    requires Divides(a, b) && Divides(b, c)
    ensures Divides(a, c)
  {
    if a > 0 && b > 0 {
      DividesQuotient(a, b);
      DividesQuotient(b, c);
      var k, l := b / a, c / b;
      assert c == a * (k * l) by {
        assert c == (a * k) * l;
      }
      DividesMul(a, k * l);
    } else if a > 0 {
      DividesZero(a);
    }
  }

  /** Two numbers that divide each other are equal. */
  lemma DividesAntisymmetric(a: nat, b: nat)
    requires Divides(a, b) && Divides(b, a)
    ensures a == b
  {
    if a > 0 && b > 0 {
      DividesQuotient(a, b);
      DividesQuotient(b, a);
      var k, l := b / a, a / b;
      assert k >= 1 && l >= 1;
      if k > 1 {
        MulMonotone(a, 2, k);
      }
    }
  }

  /** A common divisor of `a` and `b` divides `a % b`, and conversely. */
  lemma CommonDivisorStep(a: nat, b: nat, d: nat)
    requires b > 0
    ensures (Divides(d, a) && Divides(d, b)) <==> (Divides(d, b) && Divides(d, a % b))
  {
    if d > 0 && Divides(d, b) {
      var kb := Quotient(d, b);
      var q, r := a / b, a % b;
      assert a == b * q + r;
      MulAssoc(d, kb, q);
      if Divides(d, a) {
        var ka := Quotient(d, a);
        RemainderMultiple(d, ka, kb * q, r);
      }
      if Divides(d, r) {
        var kr := Quotient(d, r);
        assert a == d * (kb * q + kr);
        DividesMul(d, kb * q + kr);
      }
    }
  }

  /** `d * ka - d * m`, when it is a natural number, is a multiple of `d`. */
  lemma RemainderMultiple(d: nat, ka: nat, m: nat, r: nat)
    requires d > 0 && r == d * ka - d * m
    ensures Divides(d, r)
  {
    assert r == d * (ka - m);
    if ka < m {
      MulMonotone(d, ka + 1, m);
    }
    DividesMul(d, ka - m);
  }

  // ---------------------------------------------------------------------------
  // gcd

  /** Euclid's recursion: the reference reading of `gcd`. */
  function Gcd(a: nat, b: nat): nat
    decreases b
  {
    if b == 0 then a else Gcd(b, a % b)
  }

  /** The divisors of `gcd(a, b)` are exactly the common divisors of `a` and `b`. */
  lemma {:induction false} GcdDivisors(a: nat, b: nat)
    ensures forall d: nat :: Divides(d, Gcd(a, b)) <==> Divides(d, a) && Divides(d, b)
    decreases b
  {
    if b == 0 {
      forall d: nat
        ensures Divides(d, 0)
      {
        DividesZero(d);
      }
    } else {
      GcdDivisors(b, a % b);
      forall d: nat
        ensures Divides(d, a) && Divides(d, b) <==> Divides(d, b) && Divides(d, a % b)
      {
        CommonDivisorStep(a, b, d);
      }
    }
  }

  /** `gcd(a, b)` divides both, and every common divisor divides it. */
  lemma GcdIsGreatest(a: nat, b: nat)
    ensures Divides(Gcd(a, b), a) && Divides(Gcd(a, b), b)
    ensures forall d: nat :: Divides(d, a) && Divides(d, b) ==> Divides(d, Gcd(a, b))
  {
    GcdDivisors(a, b);
    DividesRefl(Gcd(a, b));
  }

  /** The order of the arguments does not matter, and `gcd(a, 0) == a`. */
  lemma GcdSymmetric(a: nat, b: nat)
    ensures Gcd(a, b) == Gcd(b, a)
    ensures Gcd(a, 0) == a
  {
    if a < b {
      assert a % b == a by { DivModUnique(a, b, 0, a); }
    } else if b < a {
      assert b % a == b by { DivModUnique(b, a, 0, b); }
    }
  }

  /**
   * `gcd` of the source: the larger number first, then Euclid's loop.
   * The divisors of the pair stay the common divisors of the inputs.
   */
  method GcdLoop(a0: nat, b0: nat) returns (g: nat)
    ensures forall d: nat :: Divides(d, g) <==> Divides(d, a0) && Divides(d, b0)
    ensures g == Gcd(a0, b0)
  {
    var a, b := a0, b0;
    if b > a {
      a, b := b, a;
    }
    GcdSymmetric(a0, b0);
    while b != 0
      invariant forall d: nat :: Divides(d, a) && Divides(d, b) <==> Divides(d, a0) && Divides(d, b0)
      invariant Gcd(a, b) == Gcd(a0, b0)
      decreases b
    {
      forall d: nat
        ensures Divides(d, a) && Divides(d, b) <==> Divides(d, b) && Divides(d, a % b)
      {
        CommonDivisorStep(a, b, d);
      }
      a, b := b, a % b;
    }
    forall d: nat
      ensures Divides(d, 0)
    {
      DividesZero(d);
    }
    g := a;
  }

  /** Multiplying both arguments multiplies the `gcd`. */
  lemma {:induction false} GcdScale(a: nat, b: nat, x: nat)
    ensures Gcd(x * a, x * b) == x * Gcd(a, b)
    decreases b
  {
    if b > 0 && x > 0 {
      var q, r := a / b, a % b;
      assert x * a == (x * b) * q + x * r;
      assert x * r < x * b by { MulMonotone(x, r + 1, b); }
      DivModUnique(x * a, x * b, q, x * r);
      GcdScale(b, r, x);
    } else if b > 0 {
      assert x * a == 0 && x * b == 0;
    }
  }

  // ---------------------------------------------------------------------------
  // The lcm fold

  /** One step of the fold: `acc * (e / gcd(acc, e))`. */
  function LcmStep(acc: nat, e: nat): nat {
    ScaleBy(acc, e, Gcd(acc, e))
  }

  /** `acc * (e / g)`; Rust would panic on `g == 0`, which the fold never meets. */
  function ScaleBy(acc: nat, e: nat, g: nat): nat {
    if g == 0 then 0 else acc * (e / g)
  }

  /** The fold over `es` from `acc`. */
  function LcmFrom(acc: nat, es: seq<nat>): nat
    decreases |es|
  {
    if |es| == 0 then acc else LcmFrom(LcmStep(acc, es[0]), es[1..])
  }

  /** The printed answer of the second question: the fold from 1. */
  function Lcm(es: seq<nat>): nat {
    LcmFrom(1, es)
  }

  lemma MulCancel(g: nat, u: nat, v: nat)
    requires g > 0 && g * u == g * v
    ensures u == v
  {
    if v < u {
      MulMonotone(g, v + 1, u);
    }
  }

  /** Only zero is a multiple of zero. */
  lemma ZeroDivides(n: nat)
    requires Divides(0, n)
    ensures n == 0
  {
  }

  /** `gcd(acc, e)` is zero only when both are. */
  lemma GcdZero(a: nat, b: nat)
    ensures Gcd(a, b) == 0 <==> a == 0 && b == 0
  {
    GcdIsGreatest(a, b);
    if a == 0 && b == 0 {
      GcdSymmetric(0, 0);
    }
  }

  /** The cofactor of a multiple, named without a division. */
  lemma Quotient(d: nat, n: nat) returns (k: nat)
    requires d > 0 && Divides(d, n)
    ensures n == d * k
  {
    k := n / d;
  }

  lemma ScaleByMul(acc: nat, e: nat, g: nat, b: nat)
    requires g > 0 && e == g * b
    ensures ScaleBy(acc, e, g) == acc * b
  {
    DivModUnique(e, g, b, 0);
  }

  /** A step of the fold is a common multiple of `acc` and `e`, positive when both are. */
  lemma LcmStepMultiple(acc: nat, e: nat)
    ensures Divides(acc, LcmStep(acc, e)) && Divides(e, LcmStep(acc, e))
    ensures acc > 0 && e > 0 ==> LcmStep(acc, e) > 0
  {
    var g := Gcd(acc, e);
    GcdIsGreatest(acc, e);
    GcdZero(acc, e);
    if g == 0 {
      DividesZero(0);
    } else {
      var a := Quotient(g, acc);
      var b := Quotient(g, e);
      ScaleByMul(acc, e, g, b);
      DividesMul(acc, b);
      assert acc * b == e * a by {
        calc {
          acc * b;
          (g * a) * b;
          (g * b) * a;
        }
      }
      DividesMul(e, a);
      if acc > 0 && e > 0 {
        MulMonotone(acc, 1, b);
      }
    }
  }

  lemma CancelOne(g: nat, k: nat)
    requires g > 0 && g * k == g
    ensures k == 1
  {
    MulCancel(g, k, 1);
  }

  /** Euclid's lemma: if `b` is coprime to `a` and divides `a * x`, it divides `x`. */
  lemma CoprimeDivides(a: nat, b: nat, x: nat, y: nat)
    requires Gcd(a, b) == 1 && a * x == b * y
    ensures Divides(b, x)
  {
    DividesMul(b, y);
    DividesMul(b, x);
    assert x * a == b * y && x * b == b * x;
    GcdIsGreatest(x * a, x * b);
    GcdScale(a, b, x);
  }

  lemma MulAssoc(x: nat, y: nat, z: nat)
    ensures (x * y) * z == x * (y * z)
  {
  }

  /** A common multiple `m` of `g * a` and `g * b` gives `a * x == b * y`. */
  lemma CommonCofactors(g: nat, a: nat, b: nat, m: nat) returns (x: nat, y: nat)
    requires g > 0 && g * a > 0 && g * b > 0
    requires Divides(g * a, m) && Divides(g * b, m)
    ensures m == (g * a) * x && a * x == b * y
  {
    x := Quotient(g * a, m);
    y := Quotient(g * b, m);
    MulAssoc(g, a, x);
    MulAssoc(g, b, y);
    MulCancel(g, a * x, b * y);
  }

  lemma MultipleOfProduct(acc: nat, b: nat, x: nat, m: nat)
    requires b > 0 && m == acc * x && Divides(b, x)
    ensures Divides(acc * b, m)
  {
    var z := Quotient(b, x);
    MulAssoc(acc, b, z);
    DividesMul(acc * b, z);
  }

  /** A step of the fold divides every common multiple of `acc` and `e`. */
  lemma LcmStepLeast(acc: nat, e: nat, m: nat)
    requires Divides(acc, m) && Divides(e, m)
    ensures Divides(LcmStep(acc, e), m)
  {
    if m == 0 {
      DividesZero(LcmStep(acc, e));
    } else {
      var g := Gcd(acc, e);
      GcdIsGreatest(acc, e);
      GcdZero(acc, e);
      var a := Quotient(g, acc);
      var b := Quotient(g, e);
      GcdScale(a, b, g);
      CancelOne(g, Gcd(a, b));
      var x, y := CommonCofactors(g, a, b, m);
      CoprimeDivides(a, b, x, y);
      MultipleOfProduct(acc, b, x, m);
      ScaleByMul(acc, e, g, b);
    }
  }

  /** The fold is a multiple of its start and of every element. */
  lemma {:induction false} LcmFromMultiple(acc: nat, es: seq<nat>)
    ensures Divides(acc, LcmFrom(acc, es))
    ensures forall e :: e in es ==> Divides(e, LcmFrom(acc, es))
    decreases |es|
  {
    if |es| == 0 {
      DividesRefl(acc);
    } else {
      var s := LcmStep(acc, es[0]);
      var r := LcmFrom(acc, es);
      LcmStepMultiple(acc, es[0]);
      LcmFromMultiple(s, es[1..]);
      DividesTrans(acc, s, r);
      DividesTrans(es[0], s, r);
      assert forall e :: e in es ==> e == es[0] || e in es[1..];
    }
  }

  /** The fold divides every common multiple of its start and the elements. */
  lemma {:induction false} LcmFromLeast(acc: nat, es: seq<nat>, m: nat)
    requires Divides(acc, m)
    requires forall e :: e in es ==> Divides(e, m)
    ensures Divides(LcmFrom(acc, es), m)
    decreases |es|
  {
    if |es| > 0 {
      LcmStepLeast(acc, es[0], m);
      LcmFromLeast(LcmStep(acc, es[0]), es[1..], m);
    }
  }

  /** With positive elements the fold stays positive. */
  lemma {:induction false} LcmFromPositive(acc: nat, es: seq<nat>)
    requires acc > 0 && forall i :: 0 <= i < |es| ==> es[i] > 0
    ensures LcmFrom(acc, es) > 0
    decreases |es|
  {
    if |es| > 0 {
      LcmStepMultiple(acc, es[0]);
      LcmFromPositive(LcmStep(acc, es[0]), es[1..]);
    }
  }

  /**
   * `Lcm(es)` is the least common multiple: every element divides it, and
   * it divides every common multiple. With positive elements it is positive.
   */
  lemma LcmIsLeast(es: seq<nat>)
    ensures forall e :: e in es ==> Divides(e, Lcm(es))
    ensures forall m: nat :: (forall e :: e in es ==> Divides(e, m)) ==> Divides(Lcm(es), m)
    ensures (forall i :: 0 <= i < |es| ==> es[i] > 0) ==> Lcm(es) > 0
  {
    LcmFromMultiple(1, es);
    forall m: nat | forall e :: e in es ==> Divides(e, m)
      ensures Divides(Lcm(es), m)
    {
      LcmFromLeast(1, es, m);
    }
    if forall i :: 0 <= i < |es| ==> es[i] > 0 {
      LcmFromPositive(1, es);
    }
  }

  /** The order and repetition of the elements do not change the result. */
  lemma LcmSameElements(es: seq<nat>, fs: seq<nat>)
    requires forall e :: e in es <==> e in fs
    ensures Lcm(es) == Lcm(fs)
  {
    LcmIsLeast(es);
    LcmIsLeast(fs);
    DividesAntisymmetric(Lcm(es), Lcm(fs));
  }
}
