/** Sequences of `w`-bit digits read as big-endian numbers: the arithmetic behind packing 6-bit base64
    symbols into 8-bit bytes. */
module Radix {
  import opened Bytes

  /** Every digit fits in `w` bits. */
  predicate Fits(ds: seq<nat>, w: nat) {
    forall i :: 0 <= i < |ds| ==> ds[i] < Pow2(w)
  }

  /** The number written by the `w`-bit digits `ds`, most significant first. */
  function Value(ds: seq<nat>, w: nat): nat
  {
    if ds == [] then 0 else Value(ds[..|ds| - 1], w) * Pow2(w) + ds[|ds| - 1]
  }

  /** The `n` lowest `w`-bit digits of `x`, most significant first. */
  function Digits(x: nat, w: nat, n: nat): (ds: seq<nat>)
    ensures |ds| == n && Fits(ds, w)
    decreases n
  {
    if n == 0 then []
    else
      DivNat(x, Pow2(w));
      Digits(x / Pow2(w), w, n - 1) + [x % Pow2(w)]
  }

  lemma Euclid(x: nat, p: nat)
    requires p > 0
    ensures x == (x / p) * p + x % p
  {
  }

  lemma MulLe(a: int, b: int, c: nat)
    requires a <= b
    ensures a * c <= b * c
  {
  }

  /** The quotient of a natural number by a positive one is natural. */
  lemma DivNat(x: nat, p: nat)
    requires p > 0
    ensures x / p >= 0
  {
    Euclid(x, p);
    if x / p < 0 {
      MulLe(x / p, -1, p);
    }
  }

  /** Quotient and remainder are unique. */
  lemma DivModOf(q: nat, r: nat, p: nat)
    requires r < p
    ensures (q * p + r) / p == q && (q * p + r) % p == r
  {
    var x := q * p + r;
    var q', r' := x / p, x % p;
    assert q' * p + r' == q * p + r;
    if q' > q {
      MulLe(q + 1, q', p);
    } else if q' < q {
      MulLe(q' + 1, q, p);
    }
  }

  lemma MulAddBound(v: nat, d: nat, a: nat, p: nat)
    requires v < a && d < p
    ensures v * p + d < a * p
  {
    MulLe(v, a - 1, p);
    assert (a - 1) * p + p == a * p;
  }

  lemma DivBound(x: nat, a: nat, p: nat)
    requires p > 0 && x < a * p
    ensures x / p < a
  {
    if x / p >= a {
      MulLe(a, x / p, p);
    }
  }

  lemma {:induction false} ValueAppend(ds: seq<nat>, d: nat, w: nat)
    ensures Value(ds + [d], w) == Value(ds, w) * Pow2(w) + d
  {
    assert (ds + [d])[..|ds|] == ds;
  }

  /** How many numbers `n` digits of `w` bits can write: 2^(w·n). */
  function Capacity(w: nat, n: nat): (r: nat)
    ensures r >= 1
    decreases n
  {
    if n == 0 then 1 else Capacity(w, n - 1) * Pow2(w)
  }

  lemma {:induction false} CapacityIsPow2(w: nat, n: nat)
    ensures Capacity(w, n) == Pow2(w * n)
    decreases n
  {
    if n > 0 {
      CapacityIsPow2(w, n - 1);
      var m := w * (n - 1);
      assert w * n == m + w;
      Pow2Add(m, w);
    }
  }

  /** A number written with `|ds|` digits of `w` bits is below 2^(w·|ds|). */
  lemma {:induction false} ValueBound(ds: seq<nat>, w: nat)
    requires Fits(ds, w)
    ensures Value(ds, w) < Capacity(w, |ds|)
    decreases |ds|
  {
    if ds != [] {
      var init := ds[..|ds| - 1];
      ValueBound(init, w);
      MulAddBound(Value(init, w), ds[|ds| - 1], Capacity(w, |init|), Pow2(w));
    }
  }

  /** Reading back the digits of a number that fits gives the number. */
  lemma {:induction false} ValueOfDigits(x: nat, w: nat, n: nat)
    requires x < Capacity(w, n)
    ensures Value(Digits(x, w, n), w) == x
    decreases n
  {
    if n > 0 {
      var p := Pow2(w);
      DivNat(x, p);
      var q, r := x / p, x % p;
      DivBound(x, Capacity(w, n - 1), p);
      ValueOfDigits(q, w, n - 1);
      ValueAppend(Digits(q, w, n - 1), r, w);
      Euclid(x, p);
    }
  }

  /** The digits of the number written by `ds` are `ds`. */
  lemma {:induction false} DigitsOfValue(ds: seq<nat>, w: nat)
    requires Fits(ds, w)
    ensures Digits(Value(ds, w), w, |ds|) == ds
    decreases |ds|
  {
    if ds != [] {
      var init := ds[..|ds| - 1];
      ValueBound(init, w);
      DigitsOfValue(init, w);
      DivModOf(Value(init, w), ds[|ds| - 1], Pow2(w));
      assert ds == init + [ds[|ds| - 1]];
    }
  }
}
