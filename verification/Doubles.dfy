/** Floating-point numbers as the Python interpreter has them (IEEE 754 binary64). */
module Doubles {
  import opened Bits

  const TWO52: nat := 0x10_0000_0000_0000
  const TWO53: nat := 0x20_0000_0000_0000

  /** Rounding to an integer, ties to even. */
  function HalfEven(x: real): int {
    var f := x.Floor;
    var d := x - f as real;
    if d < 0.5 then f else if d > 0.5 then f + 1 else if f % 2 == 0 then f else f + 1
  }

  /** Below 2^53: 53 significant bits, but none below 2^-k. */
  function Fine(x: real, k: nat): (r: real)
    ensures x >= 0.0 ==> r >= 0.0
    decreases k
  {
    if x >= TWO52 as real || k == 0 then HalfEven(x) as real else Fine(2.0 * x, k - 1) / 2.0
  }

  function Nearest(x: real): (r: real)
    requires x >= 0.0
    ensures r >= 0.0
    decreases x.Floor
  {
    if x >= TWO53 as real then
      assert (x / 2.0).Floor < x.Floor;
      2.0 * Nearest(x / 2.0)
    else Fine(x, 1074)
  }

  /** The nearest double; numbers too large for one are not represented. */
  function Double(x: real): real {
    if x >= 0.0 then Nearest(x) else -Nearest(-x)
  }

  /** int() of a float */
  function Trunc(r: real): int {
    if r >= 0.0 then r.Floor else -((-r).Floor)
  }

  /** A number without its factors of two. */
  function OddPart(n: nat): (m: nat)
    ensures m <= n && (n > 0 ==> m % 2 == 1)
  {
    if n == 0 || n % 2 == 1 then n else OddPart(n / 2)
  }

  /** Rounding gives a nearest integer, of two the even one. */
  lemma HalfEvenNearest(x: real)
    ensures var n := HalfEven(x);
            && x - 0.5 <= n as real <= x + 0.5
            && (n as real == x - 0.5 || n as real == x + 0.5 ==> n % 2 == 0)
  {
  }

  /** int() of a float drops its fraction. */
  lemma TruncTowardsZero(r: real)
    ensures r >= 0.0 ==> Trunc(r) as real <= r < Trunc(r) as real + 1.0
    ensures r <= 0.0 ==> Trunc(r) as real - 1.0 < r <= Trunc(r) as real
  {
  }

  /** x is rounded at the power of two that scales it to 53 bits. */
  lemma {:induction false} FineScaled(x: real, y: real, j: nat, k: nat)
    requires x >= 0.0 && j <= k && y == x * (Pow2(j) as real) && TWO52 as real <= y && (j > 0 ==> y < TWO53 as real)
    ensures Fine(x, k) == HalfEven(y) as real / (Pow2(j) as real)
    decreases j
  {
    hide HalfEven, Fine;
    var p := Pow2(j) as real;
    if j == 0 {
      assert Pow2(0) == 1 && y == x;
      FineWhole(x, k);
    } else {
      var q := Pow2(j - 1) as real;
      assert p == 2.0 * q;
      Factors(x, q, y);
      FineScaled(2.0 * x, y, j - 1, k - 1);
      FineTwice(x, k);
      HalfQuotient(HalfEven(y) as real, q);
    }
  }

  lemma FineWhole(x: real, k: nat)
    requires x >= TWO52 as real
    ensures Fine(x, k) == HalfEven(x) as real
  {
  }

  lemma FineTwice(x: real, k: nat)
    requires x < TWO52 as real && k > 0
    ensures Fine(x, k) == Fine(2.0 * x, k - 1) / 2.0
  {
  }

  lemma Factors(x: real, q: real, y: real)
    requires x >= 0.0 && q >= 1.0 && y == x * (2.0 * q) && y < TWO53 as real
    ensures y == 2.0 * x * q && x < TWO52 as real
  {
    assert x * (q - 1.0) >= 0.0;
    assert y == 2.0 * x + 2.0 * (x * (q - 1.0));
  }

  lemma HalfQuotient(y: real, p: real)
    requires p >= 1.0
    ensures y / p / 2.0 == y / (2.0 * p)
  {
    var q := y / (2.0 * p);
    assert q * (2.0 * p) == y;
    assert (2.0 * q) * p == y;
    assert y / p == 2.0 * q;
  }

  lemma {:induction false} FineInteger(n: nat, k: nat)
    requires n < TWO53
    ensures Fine(n as real, k) == n as real
    decreases k
  {
    if n < TWO52 && k > 0 {
      FineInteger(2 * n, k - 1);
      assert 2.0 * n as real == (2 * n) as real;
    }
  }

  /** From 2^52 on doubles are integers. */
  lemma {:induction false} NearestInteger(x: real)
    requires x >= TWO52 as real
    ensures Nearest(x) == Nearest(x).Floor as real && Nearest(x).Floor >= TWO52
    ensures x < TWO53 as real ==> Nearest(x).Floor <= TWO53
    decreases x.Floor
  {
    if x >= TWO53 as real {
      assert (x / 2.0).Floor < x.Floor;
      NearestInteger(x / 2.0);
      var m := Nearest(x / 2.0).Floor;
      assert Nearest(x) == (2 * m) as real;
    }
  }

  /** An integer is a double exactly when 53 bits hold its odd part. */
  lemma {:induction false} NearestExact(n: nat)
    ensures Nearest(n as real) == n as real <==> OddPart(n) < TWO53
  {
    if n < TWO53 {
      FineInteger(n, 1074);
    } else if n % 2 == 0 {
      NearestExact(n / 2);
      assert n as real / 2.0 == (n / 2) as real;
    } else {
      var h := n as real / 2.0;
      assert h == (n / 2) as real + 0.5;
      NearestInteger(h);
      assert h != h.Floor as real;
    }
  }

  /** From 2^52 on: x scaled down to 53 bits is rounded to an integer and scaled up again. */
  lemma {:induction false} NearestScaled(x: real, y: real, j: nat)
    requires x == y * (Pow2(j) as real) && TWO52 as real <= y < TWO53 as real
    ensures Nearest(x) == HalfEven(y) as real * (Pow2(j) as real)
    decreases j
  {
    hide *;
    if j == 0 {
      NothingThere();
      assert x == y;
      NearestBelow(x);
      FineWhole(x, 1074);
    } else {
      var p, q := Pow2(j) as real, Pow2(j - 1) as real;
      PowerStep(j);
      var h := y * q;
      NearestScaled(h, y, j - 1);
      Halves(x, h, y, p, q);
      DoubleProduct(HalfEven(y) as real, p, q);
    }
  }

  lemma PowerStep(j: nat)
    requires j > 0
    ensures Pow2(j) as real == 2.0 * (Pow2(j - 1) as real) && Pow2(j - 1) as real >= 1.0
  {
  }

  lemma Halves(x: real, h: real, y: real, p: real, q: real)
    requires p == 2.0 * q && q >= 1.0 && x == y * p && h == y * q && y >= TWO52 as real
    ensures Nearest(x) == 2.0 * Nearest(h)
  {
    hide Nearest;
    DoubleProduct(y, p, q);
    Larger(y, q);
    NearestAbove(x, h);
  }

  lemma NearestBelow(x: real)
    requires 0.0 <= x < TWO53 as real
    ensures Nearest(x) == Fine(x, 1074)
  {
  }

  lemma NearestAbove(x: real, h: real)
    requires x == 2.0 * h && h >= TWO52 as real
    ensures Nearest(x) == 2.0 * Nearest(h)
  {
    hide Fine;
    assert x / 2.0 == h;
  }

  lemma DoubleProduct(m: real, p: real, q: real)
    requires p == 2.0 * q
    ensures m * p == 2.0 * (m * q)
  {
  }

  lemma Larger(y: real, q: real)
    requires y >= TWO52 as real && q >= 1.0
    ensures y * q >= y
  {
    assert y * (q - 1.0) >= 0.0;
  }

  /** A double is its own nearest double. */
  lemma {:induction false} NearestTwice(x: real)
    requires x >= TWO52 as real
    ensures Nearest(Nearest(x)) == Nearest(x)
    decreases x.Floor
  {
    NearestInteger(x);
    var m := Nearest(x).Floor;
    if x >= TWO53 as real {
      assert (x / 2.0).Floor < x.Floor;
      NearestTwice(x / 2.0);
      NearestInteger(x / 2.0);
      var d := Nearest(x / 2.0);
      assert Nearest(x) == 2.0 * d && Nearest(2.0 * d) == 2.0 * Nearest(d);
    } else if m < TWO53 {
      FineInteger(m, 1074);
    } else {
      NearestExact(TWO53);
      assert OddPart(TWO53) == OddPart(TWO52);
      OddBound(TWO52);
    }
  }

  lemma OddBound(n: nat)
    ensures OddPart(n) <= n
  {
  }

  function Abs(t: int): nat {
    if t < 0 then -t else t
  }
}
