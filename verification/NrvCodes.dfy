/**
  * The self-delimiting codes of tools/ProgramStore/n2b_99.c and how to read them back. The output is a log of bits
  * and bytes in the order in which a reader asks for them.
  */
module NrvCodes {
  import opened Arithmetic
  import opened Bytes

  datatype Symbol = Bit(b: bool) | Octet(v: byte)

  type Log = seq<Symbol>

  /** A value read and what is left to read. */
  datatype Read<T> = Stuck | Got(value: T, rest: Log)

  // ---- the prefix code ss11: all bits below the top one, each followed by whether it is the last ----

  /** The bits of `v` below its top bit, each followed by a zero. */
  function Lead(v: nat): Log
    requires v >= 1
  {
    if v == 1 then [] else Lead(v / 2) + [Bit(v % 2 == 1), Bit(false)]
  }

  function Ss11(i: nat): Log { Lead((i + 2) / 2) + [Bit(i % 2 == 1), Bit(true)] }

  /** Reading ss11, having read the bits of `m`. */
  function ReadSs11(log: Log, m: nat): Read<nat>
    decreases |log|
  {
    if |log| < 2 || !log[0].Bit? || !log[1].Bit? then Stuck
    else
      var n := 2 * m + (if log[0].b then 1 else 0);
      if log[1].b then (if n >= 2 then Got(n - 2, log[2..]) else Stuck) else ReadSs11(log[2..], n)
  }

  lemma {:induction false} ReadLead(v: nat, rest: Log)
    requires v >= 1
    ensures ReadSs11(Lead(v) + rest, 1) == ReadSs11(rest, v)
  {
    if v == 1 {
      assert Lead(v) + rest == rest;
    } else {
      var step := [Bit(v % 2 == 1), Bit(false)];
      ReadLead(v / 2, step + rest);
      assert Lead(v / 2) + (step + rest) == Lead(v) + rest;
      assert (step + rest)[2..] == rest;
    }
  }

  /** The reader is a left inverse of the code, whatever follows. */
  lemma {:induction false} ReadsSs11(i: nat, rest: Log)
    ensures ReadSs11(Ss11(i) + rest, 1) == Got(i, rest)
  {
    var last := [Bit(i % 2 == 1), Bit(true)];
    ReadLead((i + 2) / 2, last + rest);
    assert Lead((i + 2) / 2) + (last + rest) == Ss11(i) + rest;
    assert (last + rest)[2..] == rest;
  }

  /** So no code is the beginning of another, and codes in a row can be told apart. */
  lemma {:induction false} Ss11IsPrefixFree(i: nat, j: nat, x: Log, y: Log)
    requires Ss11(i) + x == Ss11(j) + y
    ensures i == j && x == y
  {
    ReadsSs11(i, x);
    ReadsSs11(j, y);
  }

  // ---- the prefix code ss12: the flag only after every other bit ----

  /** Twice a power of four: how many values have a code with `n` flags that are not the last. */
  function Span(n: nat): (s: nat)
    ensures s >= 2
  {
    if n == 0 then 2 else 4 * Span(n - 1)
  }

  /** The least value with such a code. */
  function Base(n: nat): nat { if n == 0 then 0 else Base(n - 1) + Span(n - 1) }

  lemma {:induction false} BaseIs(n: nat)
    ensures 3 * Base(n) == Span(n) - 2
  {
    if n > 0 {
      BaseIs(n - 1);
    }
  }

  /** The number of flags before the last in the code of `i`, when at least `n` are known to be needed. */
  function Rounds(i: nat, n: nat): (k: nat)
    requires Base(n) <= i
    ensures k >= n && Base(k) <= i < Base(k) + Span(k)
    decreases i - Base(n)
  {
    if i - Base(n) < Span(n) then n else Rounds(i, n + 1)
  }

  /** Two bits, with a flag that is not the last between them. */
  function Round(q: nat): Log { [Bit((q / 2) % 2 == 1), Bit(false), Bit(q % 2 == 1)] }

  /** The code of the `r`th value among those with `n` flags before the last. */
  function Tail12(r: nat, n: nat): Log {
    if n == 0 then [Bit(r % 2 == 1), Bit(true)]
    else
      var q, s := Quotient(r, Span(n - 1)), Remainder(r, Span(n - 1));
      Round(q) + Tail12(s, n - 1)
  }

  function Ss12(i: nat): Log { Tail12(i - Base(Rounds(i, 0)), Rounds(i, 0)) }

  /** Reading ss12, having come to `m`. */
  function ReadSs12(log: Log, m: nat): Read<nat>
    decreases |log|
  {
    if |log| < 2 || !log[0].Bit? || !log[1].Bit? then Stuck
    else
      var n := 2 * m + (if log[0].b then 1 else 0);
      if log[1].b then (if n >= 2 then Got(n - 2, log[2..]) else Stuck)
      else if |log| < 3 || !log[2].Bit? || n == 0 then Stuck
      else ReadSs12(log[3..], 2 * (n - 1) + (if log[2].b then 1 else 0))
  }

  lemma {:induction false} QuotientBelow(r: nat, t: nat)
    requires t > 0 && r < 4 * t
    ensures Quotient(r, t) < 4 && r == Quotient(r, t) * t + Remainder(r, t)
  {
    DivisionIs(r, t);
    Multiple(t, Quotient(r, t) - 4);
    assert (Quotient(r, t) - 4) * t == Quotient(r, t) * t - 4 * t;
  }

  lemma {:induction false} Spread(m: nat, q: nat, t: nat)
    ensures (4 * m - 2 + q) * t == m * (4 * t) - 2 * t + q * t
  {
  }

  /** What the reader comes to in the end, from `m` on. */
  function Final(m: nat, r: nat, n: nat): nat
    requires m >= 1
    decreases n
  {
    if n == 0 then 2 * m + r % 2 - 2
    else Final(4 * m - 2 + Quotient(r, Span(n - 1)) % 4, Remainder(r, Span(n - 1)), n - 1)
  }

  lemma {:induction false} FinalStep(m: nat, q: nat, s: nat, t: nat, f: nat, r: nat, u: nat)
    requires m >= 1 && 3 * (f + 2) == 3 * ((4 * m - 2 + q) * t) - 2 * t + 4 + 3 * s
    requires r == q * t + s && u == 4 * t
    ensures 3 * (f + 2) == 3 * (m * u) - 2 * u + 4 + 3 * r
  {
    Spread(m, q, t);
  }

  lemma {:induction false} FinalIs(m: nat, r: nat, n: nat)
    requires m >= 1 && r < Span(n)
    ensures 3 * (Final(m, r, n) + 2) == 3 * (m * Span(n)) - 2 * Span(n) + 4 + 3 * r
    decreases n
  {
    if n > 0 {
      var t := Span(n - 1);
      QuotientBelow(r, t);
      var q := Quotient(r, t);
      FinalIs(4 * m - 2 + q, Remainder(r, t), n - 1);
      FinalStep(m, q, Remainder(r, t), t, Final(m, r, n), r, Span(n));
    }
  }

  lemma {:induction false} ReadRound(q: nat, m: nat, rest: Log)
    requires q < 4 && m >= 1
    ensures ReadSs12(Round(q) + rest, m) == ReadSs12(rest, 4 * m - 2 + q)
  {
    var log := Round(q) + rest;
    assert log[3..] == rest;
    assert 4 * m - 2 + q == 2 * (2 * m + q / 2 - 1) + q % 2;
  }

  lemma {:induction false} ReadBehind(q: nat, m: nat, x: Log, rest: Log)
    requires q < 4 && m >= 1
    ensures ReadSs12((Round(q) + x) + rest, m) == ReadSs12(x + rest, 4 * m - 2 + q)
  {
    assert (Round(q) + x) + rest == Round(q) + (x + rest);
    ReadRound(q, m, x + rest);
  }

  lemma {:induction false} ReadLast(r: nat, m: nat, rest: Log)
    requires m >= 1
    ensures ReadSs12([Bit(r % 2 == 1), Bit(true)] + rest, m) == Got(2 * m + r % 2 - 2, rest)
  {
    assert ([Bit(r % 2 == 1), Bit(true)] + rest)[2..] == rest;
  }

  lemma {:induction false} QuotientBelowFour(r: nat, t: nat)
    requires t > 0 && r < 4 * t
    ensures Quotient(r, t) < 4
  {
    QuotientBelow(r, t);
  }

  lemma {:induction false} ReadTail12(r: nat, n: nat, m: nat, rest: Log)
    requires r < Span(n) && m >= 1
    ensures ReadSs12(Tail12(r, n) + rest, m) == Got(Final(m, r, n), rest)
    decreases n
  {
    if n == 0 {
      ReadLast(r, m, rest);
    } else {
      var t := Span(n - 1);
      QuotientBelowFour(r, t);
      var q, x := Quotient(r, t), Tail12(Remainder(r, t), n - 1);
      ReadTail12(Remainder(r, t), n - 1, 4 * m - 2 + q, rest);
      ReadBehind(q, m, x, rest);
    }
  }

  lemma {:induction false} ReadsSs12(i: nat, rest: Log)
    ensures ReadSs12(Ss12(i) + rest, 1) == Got(i, rest)
  {
    var n := Rounds(i, 0);
    BaseIs(n);
    FinalIs(1, i - Base(n), n);
    ReadTail12(i - Base(n), n, 1, rest);
  }

  lemma {:induction false} Ss12IsPrefixFree(i: nat, j: nat, x: Log, y: Log)
    requires Ss12(i) + x == Ss12(j) + y
    ensures i == j && x == y
  {
    ReadsSs12(i, x);
    ReadsSs12(j, y);
  }
}
