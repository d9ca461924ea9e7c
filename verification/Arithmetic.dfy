/** Powers of two, halving and rounding up: the index arithmetic of a binary tree. */
module Arithmetic {

  function Min(a: nat, b: nat): nat {
    if a <= b then a else b
  }

  function Max(a: nat, b: nat): nat {
    if a <= b then b else a
  }

  function Pow2(n: nat): (r: nat)
    ensures r > 0
  {
    if n == 0 then 1 else 2 * Pow2(n - 1)
  }

  /** `i >> h`. */
  function Shift(i: nat, h: nat): nat {
    if h == 0 then i else Shift(i / 2, h - 1)
  }

  /** `j << h`: the first leaf of block `j` of height `h`. */
  function Scale(j: nat, h: nat): nat {
    if h == 0 then j else 2 * Scale(j, h - 1)
  }

  /** `n / m` rounded up. */
  function CeilDiv(n: nat, m: nat): nat
    requires m > 0
  {
    (n + m - 1) / m
  }

  /** `u64::ilog2` for a positive argument: the position of the top bit. */
  function Ilog2(n: nat): nat
    requires n > 0
  {
    if n == 1 then 0 else 1 + Ilog2(n / 2)
  }

  /** The tree depth over `n` leaves. */
  function CeilLog2(n: nat): nat {
    if n <= 1 then 0 else Ilog2(n - 1) + 1
  }

  lemma {:induction false} Ilog2Bounds(n: nat)
    requires n > 0
    ensures Pow2(Ilog2(n)) <= n < Pow2(Ilog2(n) + 1)
  {
    if n > 1 {
      Ilog2Bounds(n / 2);
    }
  }

  /** The depth is the least exponent whose power of two covers `n`. */
  lemma CeilLog2Bounds(n: nat)
    ensures n <= Pow2(CeilLog2(n))
    ensures n > 1 ==> Pow2(CeilLog2(n) - 1) < n
  {
    if n > 1 {
      Ilog2Bounds(n - 1);
    }
  }

  /** One level of pairing takes exactly one off the depth. */
  lemma CeilLog2Halves(n: nat)
    requires n > 1
    ensures CeilLog2(n) == CeilLog2((n + 1) / 2) + 1
  {
    assert (n + 1) / 2 - 1 == (n - 1) / 2;
  }

  lemma {:induction false} Pow2Monotone(a: nat, b: nat)
    requires a <= b
    ensures Pow2(a) <= Pow2(b)
  {
    if a < b {
      Pow2Monotone(a, b - 1);
    }
  }

  /** `j` is below the rounded-up quotient exactly when its block starts before `n`. */
  lemma CeilDivBelow(j: nat, n: nat, m: nat)
    requires m > 0
    ensures j < CeilDiv(n, m) <==> j * m < n
  {
    var q, r := (n + m - 1) / m, (n + m - 1) % m;
    assert n + m - 1 == q * m + r && 0 <= r < m;
    if j < q {
      MulMonotone(j + 1, q, m);
    } else {
      MulMonotone(q, j, m);
    }
  }

  lemma MulMonotone(a: nat, b: nat, m: nat)
    requires a <= b
    ensures a * m <= b * m
  {
  }

  lemma DivMod(i: nat, m: nat)
    requires m > 0
    ensures i == (i / m) * m + i % m && i % m < m
  {
  }

  /** Quotient and remainder are unique. */
  lemma DivUnique(i: nat, m: nat, q: nat, r: nat)
    requires m > 0 && r < m && i == q * m + r
    ensures i / m == q && i % m == r
  {
    DivMod(i, m);
    var q', r' := i / m, i % m;
    if q < q' {
      MulMonotone(q + 1, q', m);
    } else if q' < q {
      MulMonotone(q' + 1, q, m);
    }
  }

  /** Halving first and dividing by a power afterwards is one division. */
  lemma HalveThenDivide(i: nat, h: nat)
    ensures (i / 2) / Pow2(h) == i / Pow2(h + 1)
    ensures i % Pow2(h + 1) == 2 * ((i / 2) % Pow2(h)) + i % 2
  {
    var p := Pow2(h);
    DivMod(i / 2, p);
    var q, r := (i / 2) / p, (i / 2) % p;
    assert i == q * (2 * p) + (2 * r + i % 2);
    DivUnique(i, 2 * p, q, 2 * r + i % 2);
  }

  /** `Shift` and `Scale` are division and multiplication by the power. */
  lemma {:induction false} ShiftDivides(i: nat, h: nat)
    ensures Shift(i, h) == i / Pow2(h)
  {
    if h > 0 {
      ShiftDivides(i / 2, h - 1);
      HalveThenDivide(i, h - 1);
    }
  }

  lemma {:induction false} ScaleMultiplies(j: nat, h: nat)
    ensures Scale(j, h) == j * Pow2(h)
  {
    if h > 0 {
      ScaleMultiplies(j, h - 1);
      assert 2 * (j * Pow2(h - 1)) == j * (2 * Pow2(h - 1));
    }
  }

  /** The first leaf of the block of height `h` that `i` lies in. */
  function RoundDown(i: nat, h: nat): (r: nat)
    ensures r <= i
    decreases h
  {
    if h == 0 then i else 2 * RoundDown(i / 2, h - 1)
  }

  lemma {:induction false} RoundDownScales(i: nat, h: nat)
    ensures RoundDown(i, h) == Scale(Shift(i, h), h)
  {
    if h > 0 {
      RoundDownScales(i / 2, h - 1);
    }
  }
}
