/**
  * Powers of two, and division with remainder by a variable, as long division in base two does it; this spares proofs
  * the general case.
  */
module Arithmetic {

  /** The powers of two. */
  function Power(k: nat): (p: nat)
    ensures p >= 1
  {
    if k == 0 then 1 else 2 * Power(k - 1)
  }

  /** The weight of the top bit of a 16-bit word. */
  lemma {:induction false} TopBitOfWord()
    ensures Power(15) == 0x8000
  {
    assert Power(5) == 32;
    assert Power(10) == 1024;
  }

  function Remainder(x: nat, n: nat): (r: nat)
    requires n > 0
    ensures r < n
    decreases x - n
  {
    if x < n then x
    else
      var r := Remainder(x, 2 * n);
      if r >= n then r - n else r
  }

  function Quotient(x: nat, n: nat): nat
    requires n > 0
    decreases x - n
  {
    if x < n then 0
    else 2 * Quotient(x, 2 * n) + (if Remainder(x, 2 * n) >= n then 1 else 0)
  }

  lemma {:induction false} DivisionIs(x: nat, n: nat)
    requires n > 0
    ensures x == Quotient(x, n) * n + Remainder(x, n)
    decreases x - n
  {
    if x >= n {
      DivisionIs(x, 2 * n);
      var q := Quotient(x, 2 * n);
      assert q * (2 * n) == (2 * q) * n;
      assert (2 * q + 1) * n == (2 * q) * n + n;
    }
  }

  lemma {:induction false} Multiple(n: nat, d: int)
    ensures d >= 1 ==> d * n >= n
    ensures d <= -1 ==> d * n + n <= 0
  {
  }

  /** Quotient and remainder are determined by what they are for. */
  lemma {:induction false} DivisionUnique(n: nat, q: int, r: nat, p: int, s: nat)
    requires n > 0 && q * n + r == p * n + s && r < n && s < n
    ensures q == p && r == s
  {
    Multiple(n, q - p);
    assert (q - p) * n == q * n - p * n;
  }

  lemma {:induction false} Euclid(x: nat, n: nat)
    requires n > 0
    ensures x == x / n * n + x % n
  {
  }

  /** Counting on by one, modulo `n`. */
  lemma {:induction false} OneOn(x: nat, n: nat)
    requires n > 0
    ensures (x + 1) % n == if x % n == n - 1 then 0 else x % n + 1
  {
    var q, r := x / n, x % n;
    Euclid(x, n);
    Euclid(x + 1, n);
    if r == n - 1 {
      assert (q + 1) * n == q * n + n;
      DivisionUnique(n, (x + 1) / n, (x + 1) % n, q + 1, 0);
    } else {
      DivisionUnique(n, (x + 1) / n, (x + 1) % n, q, r + 1);
    }
  }

  /** They are the operators / and %. */
  lemma {:induction false} DivisionIsDivision(x: nat, n: nat)
    requires n > 0
    ensures Quotient(x, n) == x / n && Remainder(x, n) == x % n
  {
    DivisionIs(x, n);
    Euclid(x, n);
    DivisionUnique(n, Quotient(x, n), Remainder(x, n), x / n, x % n);
  }
}
