/** Numbers and their digits. */
module Numerals {
  function Pow(b: nat, e: nat): (p: nat)
    ensures b > 0 ==> p > 0
  {
    if e == 0 then 1 else b * Pow(b, e - 1)
  }

  /** The number that digits spell, most significant first. */
  function Number(b: nat, ds: seq<nat>): nat {
    if ds == [] then 0 else Number(b, ds[..|ds| - 1]) * b + ds[|ds| - 1]
  }

  function Quotient(n: nat, b: nat): nat
    requires b > 0
  {
    n / b
  }

  function Remainder(n: nat, b: nat): (r: nat)
    requires b > 0
    ensures r < b
  {
    n % b
  }

  /** The last k digits of a number. */
  function Digits(b: nat, n: nat, k: nat): (ds: seq<nat>)
    requires b > 0
    ensures |ds| == k && Within(b, ds)
    decreases k
  {
    hide Quotient, Remainder;
    if k == 0 then [] else Digits(b, Quotient(n, b), k - 1) + [Remainder(n, b)]
  }

  ghost predicate Within(b: nat, ds: seq<nat>) {
    forall i :: 0 <= i < |ds| ==> ds[i] < b
  }

  lemma {:induction false} NumberOfDigits(b: nat, ds: seq<nat>)
    requires b > 0 && Within(b, ds)
    ensures Number(b, ds) < Pow(b, |ds|)
    ensures Digits(b, Number(b, ds), |ds|) == ds
  {
    hide Quotient, Remainder;
    if ds != [] {
      var front, last := ds[..|ds| - 1], ds[|ds| - 1];
      NumberOfDigits(b, front);
      DivMod(b, Number(b, front), last);
      OneMore(b, Number(b, front), last, Pow(b, |front|));
    }
  }

  lemma DivMod(b: nat, q: nat, r: nat)
    requires r < b
    ensures (q * b + r) / b == q && (q * b + r) % b == r
    ensures Quotient(q * b + r, b) == q && Remainder(q * b + r, b) == r
  {
    var n := q * b + r;
    DivIsUnique(b, q, r, n / b, n % b);
  }

  lemma DivIsUnique(b: nat, q: nat, r: nat, d: nat, e: nat)
    requires r < b && e < b && q * b + r == d * b + e
    ensures q == d && r == e
  {
    Distribute(d, 1, b);
    Distribute(q, 1, b);
    if d < q { MulMonotone(d + 1, q, b); }
    if d > q { MulMonotone(q + 1, d, b); }
  }

  lemma OneMore(b: nat, q: nat, r: nat, p: nat)
    requires r < b && q < p
    ensures q * b + r < b * p
  {
    MulMonotone(q + 1, p, b);
  }

  lemma MulMonotone(x: nat, y: nat, b: nat)
    requires x <= y
    ensures x * b <= y * b
  {
  }

  /** Digits of a number that is put together from two. */
  lemma {:induction false} DigitsJoin(b: nat, x: nat, y: nat, a: nat, k: nat)
    requires b > 0 && y < Pow(b, k)
    ensures Digits(b, x * Pow(b, k) + y, a + k) == Digits(b, x, a) + Digits(b, y, k)
    decreases k
  {
    hide Quotient, Remainder;
    if k == 0 {
      assert x * Pow(b, k) + y == x;
    } else {
      var n := x * Pow(b, k) + y;
      var p := Pow(b, k - 1);
      var q, r := Quotient(y, b), Remainder(y, b);
      SplitNumber(b, x, y, p);
      DigitsJoin(b, x, q, a, k - 1);
      assert Digits(b, n, a + k) == Digits(b, x * p + q, a + (k - 1)) + [r];
      assert Digits(b, y, k) == Digits(b, q, k - 1) + [r];
    }
  }

  lemma SplitNumber(b: nat, x: nat, y: nat, p: nat)
    requires b > 0 && y < b * p
    ensures var n, q, r := x * (b * p) + y, Quotient(y, b), Remainder(y, b);
      Quotient(n, b) == x * p + q && Remainder(n, b) == r && q < p
  {
    hide Quotient, Remainder;
    var q, r := Quotient(y, b), Remainder(y, b);
    Divided(y, b);
    Rearrange(x, b, p);
    Distribute(x * p, q, b);
    DivMod(b, x * p + q, r);
    if q >= p { MulMonotone(p, q, b); }
  }

  lemma Divided(n: nat, b: nat)
    requires b > 0
    ensures n == Quotient(n, b) * b + Remainder(n, b)
  {
  }

  lemma Swap(x: nat, y: nat, z: nat)
    ensures x * y * z == x * z * y
  {
  }

  lemma Rearrange(x: nat, b: nat, p: nat)
    ensures x * (b * p) == (x * p) * b
  {
  }

  lemma Distribute(x: nat, y: nat, b: nat)
    ensures (x + y) * b == x * b + y * b
  {
  }

  /** Leaving out the last digits divides the number. */
  lemma {:induction false} DigitsTake(b: nat, n: nat, a: nat, k: nat)
    requires b > 0 && Pow(b, k) > 0
    ensures Digits(b, n, a + k)[..a] == Digits(b, Quotient(n, Pow(b, k)), a)
    decreases k
  {
    hide Quotient, Remainder;
    if k == 0 {
      Divided(n, 1);
    } else {
      var p := Pow(b, k - 1);
      assert p > 0;
      DigitsTake(b, Quotient(n, b), a, k - 1);
      DivDiv(n, b, p);
    }
  }

  lemma DivDiv(n: nat, b: nat, p: nat)
    requires b > 0 && p > 0
    ensures b * p > 0 && Quotient(Quotient(n, b), p) == Quotient(n, b * p)
  {
    hide Quotient, Remainder;
    var q, r := Quotient(n, b), Remainder(n, b);
    var s, t := Quotient(q, p), Remainder(q, p);
    Divided(n, b);
    Divided(q, p);
    Distribute(s * p, t, b);
    Rearrange(s, b, p);
    MulMonotone(1, b, p);
    OneMore(b, t, r, p);
    DivMod(b * p, s, t * b + r);
  }

  lemma {:induction false} NumberJoin(b: nat, xs: seq<nat>, ys: seq<nat>)
    ensures Number(b, xs + ys) == Number(b, xs) * Pow(b, |ys|) + Number(b, ys)
  {
    if ys == [] {
      assert xs + ys == xs;
    } else {
      var front, last := ys[..|ys| - 1], ys[|ys| - 1];
      NumberJoin(b, xs, front);
      assert (xs + ys)[..|xs + ys| - 1] == xs + front;
      Rearrange(Number(b, xs), b, Pow(b, |front|));
      Distribute(Number(b, xs) * Pow(b, |front|), Number(b, front), b);
    }
  }
}
