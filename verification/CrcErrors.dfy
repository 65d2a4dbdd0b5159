/**
  * What the checksums of tools/ProgramStore/ProgramStore.cpp are for: a change confined to as many successive bytes as
  * the register holds never goes unnoticed.
  */
module CrcErrors {
  import opened Arithmetic
  import opened Bytes
  import opened Crc

  /** The low `j` bits. */
  function Low(x: nat, j: nat): nat
    decreases j, x
  {
    if j == 0 then 0 else 2 * Low(x / 2, j - 1) + x % 2
  }

  /** The two registers have the same low `j` bits. */
  ghost predicate Agree(a: nat, b: nat, j: nat) { Low(a, j) == Low(b, j) }

  /** Whether shifting `bit` in adds the polynomial. */
  predicate Adds(p: Polynomial, reg: nat, bit: bool) { (reg >= p.TopBit()) != bit }

  /** The bits of the register. */
  function Width(p: Polynomial): nat { 8 * p.WordBytes() }

  /** The weight of the top one of `k` bits. */
  function TopOfBits(k: nat): nat { if k == 0 then 0 else Power(k - 1) }

  lemma {:induction false} Widths(p: Polynomial)
    ensures Power(Width(p)) == p.Modulus() == 2 * p.TopBit() && Power(Width(p) - 1) == p.TopBit()
    ensures Power(8) == 256 && TopOfBits(8) == 128
  {
    Powers();
    assert Power(4) == 16;
  }

  // ---- low bits ----

  lemma {:induction false} LowIs(x: nat, k: nat)
    ensures Low(x, k) == x % Power(k)
  {
    if k > 0 {
      LowIs(x / 2, k - 1);
      Halves(x, Power(k - 1));
    }
  }

  lemma {:induction false} LowOfLow(x: nat, k: nat, m: nat)
    requires m <= k
    ensures Low(Low(x, k), m) == Low(x, m)
  {
    if m > 0 {
      LowOfLow(x / 2, k - 1, m - 1);
    }
  }

  lemma {:induction false} XorAgrees(a: nat, b: nat, v: nat, j: nat)
    requires Agree(a, b, j)
    ensures Agree(Xor(a, v), Xor(b, v), j)
    decreases j
  {
    if j > 0 {
      XorStep(a, v);
      XorStep(b, v);
      XorAgrees(a / 2, b / 2, v / 2, j - 1);
    }
  }

  lemma {:induction false} XorTwice(a: nat, b: nat)
    ensures Xor(Xor(a, b), b) == a
    decreases a, b
  {
    if a > 0 || b > 0 {
      XorTwice(a / 2, b / 2);
      XorStep(a, b);
      XorStep(Xor(a, b), b);
    }
  }

  // ---- undoing one bit ----

  /** What is in the register before it is cut off to its width. */
  function Doubled(p: Polynomial, reg: nat, bit: bool): nat {
    if Adds(p, reg, bit) then Xor(2 * reg, p.Value()) else 2 * reg
  }

  lemma {:induction false} ShiftAgrees(p: Polynomial, reg: nat, bit: bool, m: nat)
    requires m <= Width(p)
    ensures Agree(Shift(p, reg, bit), Doubled(p, reg, bit), m)
  {
    var x := Doubled(p, reg, bit);
    Widths(p);
    LowIs(x, Width(p));
    LowOfLow(x, Width(p), m);
  }

  lemma {:induction false} LowBit(a: nat, v: nat, added: bool)
    requires v % 2 == 1
    ensures (if added then Xor(2 * a, v) else 2 * a) % 2 == if added then 1 else 0
  {
    XorStep(2 * a, v);
  }

  lemma {:induction false} LowOfDouble(a: nat, m: nat)
    requires m >= 1
    ensures Low(2 * a, m) == 2 * Low(a, m - 1)
  {
    assert 2 * a / 2 == a;
  }

  lemma {:induction false} DoublesAgree(a: nat, b: nat, v: nat, added: bool, m: nat)
    requires m >= 1
    requires if added then Agree(Xor(2 * a, v), Xor(2 * b, v), m) else Agree(2 * a, 2 * b, m)
    ensures Agree(a, b, m - 1)
  {
    if added {
      XorAgrees(Xor(2 * a, v), Xor(2 * b, v), v, m);
      XorTwice(2 * a, v);
      XorTwice(2 * b, v);
    }
    LowOfDouble(a, m);
    LowOfDouble(b, m);
  }

  lemma {:induction false} ParitiesAgree(x: nat, y: nat, m: nat)
    requires m >= 1 && Agree(x, y, m)
    ensures x % 2 == y % 2
  {
  }

  /** The low bit tells whether `v` was added, if that has a constant term; without it, the rest is the double. */
  lemma {:induction false} UndoXor(a: nat, x: nat, s: bool, b: nat, y: nat, t: bool, v: nat, m: nat)
    requires x == (if s then Xor(2 * a, v) else 2 * a) && y == (if t then Xor(2 * b, v) else 2 * b)
    requires m >= 1 && v % 2 == 1 && Agree(x, y, m)
    ensures s == t && Agree(a, b, m - 1)
  {
    LowBit(a, v, s);
    LowBit(b, v, t);
    ParitiesAgree(x, y, m);
    DoublesAgree(a, b, v, s, m);
  }

  /** From the low bits after a shift follow those before it, but for one, and whether the polynomial was added. */
  lemma {:induction false} Undo(p: Polynomial, a: nat, s: bool, b: nat, t: bool, m: nat)
    requires 1 <= m <= Width(p) && Agree(Shift(p, a, s), Shift(p, b, t), m)
    ensures Adds(p, a, s) == Adds(p, b, t) && Agree(a, b, m - 1)
  {
    ShiftAgrees(p, a, s, m);
    ShiftAgrees(p, b, t, m);
    UndoXor(a, Doubled(p, a, s), Adds(p, a, s), b, Doubled(p, b, t), Adds(p, b, t), p.Value(), m);
  }

  /** A number is known from its low bits and its top bit. */
  lemma {:induction false} TopAndLow(a: nat, b: nat, k: nat)
    requires a < 2 * Power(k) && b < 2 * Power(k) && Agree(a, b, k)
    requires a >= Power(k) <==> b >= Power(k)
    ensures a == b
  {
    if k > 0 {
      TopAndLow(a / 2, b / 2, k - 1);
    }
  }

  // ---- undoing several bits ----

  /** From the low `j` bits after `k` more follow those before, but for `k`; and if those were all, the `k` bits. */
  lemma {:induction false} UndoBits(p: Polynomial, a: nat, x: nat, b: nat, y: nat, k: nat, j: nat)
    requires k <= j <= Width(p) && x < Power(k) && y < Power(k)
    requires Agree(ShiftDown(p, a, x, TopOfBits(k)), ShiftDown(p, b, y, TopOfBits(k)), j)
    ensures Agree(a, b, j - k) && (a == b ==> x == y)
    decreases k
  {
    if k > 0 {
      var top := Power(k - 1);
      var s, t := x >= top, y >= top;
      var x', y' := if s then x - top else x, if t then y - top else y;
      UndoBits(p, Shift(p, a, s), x', Shift(p, b, t), y', k - 1, j);
      Undo(p, a, s, b, t, j - k + 1);
    }
  }

  lemma {:induction false} OneBitApart(p: Polynomial, a: nat, b: nat, s: bool)
    requires a < p.Modulus() && b < p.Modulus() && Shift(p, a, s) == Shift(p, b, s)
    ensures a == b
  {
    Undo(p, a, s, b, s, Width(p));
    Widths(p);
    TopAndLow(a, b, Width(p) - 1);
  }

  /** With the same bits shifted in, different registers stay different. */
  lemma {:induction false} StayDifferent(p: Polynomial, a: nat, b: nat, x: nat, top: nat)
    requires a < p.Modulus() && b < p.Modulus() && ShiftDown(p, a, x, top) == ShiftDown(p, b, x, top)
    ensures a == b
    decreases top
  {
    if top > 0 {
      var s := x >= top;
      StayDifferent(p, Shift(p, a, s), Shift(p, b, s), if s then x - top else x, top / 2);
      OneBitApart(p, a, b, s);
    }
  }

  // ---- messages ----

  lemma {:induction false} SerialIsBelow(p: Polynomial, s: seq<byte>, n: nat)
    requires n <= |s|
    ensures Serial(p, s, n) < p.Modulus()
  {
    if n > 0 {
      SerialIsBelow(p, s, n - 1);
      ShiftIsBelow(p, Serial(p, s, n - 1), s[n - 1], 128);
    }
  }

  lemma {:induction false} ShiftIsBelow(p: Polynomial, reg: nat, x: nat, top: nat)
    requires reg < p.Modulus()
    ensures ShiftDown(p, reg, x, top) < p.Modulus()
    decreases top
  {
    if top > 0 {
      ShiftIsBelow(p, Shift(p, reg, x >= top), if x >= top then x - top else x, top / 2);
    }
  }

  lemma {:induction false} SameSince(p: Polynomial, s: seq<byte>, t: seq<byte>, i: nat, n: nat)
    requires i <= n <= |s| == |t| && Serial(p, s, i) == Serial(p, t, i)
    requires forall k :: i <= k < n ==> s[k] == t[k]
    ensures Serial(p, s, n) == Serial(p, t, n)
    decreases n
  {
    if i < n {
      SameSince(p, s, t, i, n - 1);
    }
  }

  lemma {:induction false} SameBack(p: Polynomial, s: seq<byte>, t: seq<byte>, i: nat, n: nat)
    requires i <= n <= |s| == |t| && Serial(p, s, n) == Serial(p, t, n)
    requires forall k :: i <= k < n ==> s[k] == t[k]
    ensures Serial(p, s, i) == Serial(p, t, i)
    decreases n
  {
    if i < n {
      SerialIsBelow(p, s, n - 1);
      SerialIsBelow(p, t, n - 1);
      StayDifferent(p, Serial(p, s, n - 1), Serial(p, t, n - 1), s[n - 1], 128);
      SameBack(p, s, t, i, n - 1);
    }
  }

  lemma {:induction false} UndoByte(p: Polynomial, a: nat, x: byte, b: nat, y: byte, j: nat)
    requires 8 <= j <= Width(p) && Agree(ShiftDown(p, a, x, 128), ShiftDown(p, b, y, 128), j)
    ensures Agree(a, b, j - 8) && (a == b ==> x == y)
  {
    Widths(p);
    UndoBits(p, a, x, b, y, 8, j);
  }

  /** Where the register was the same `r` bytes before and has the same low `j` bits now, the bytes are the same. */
  lemma {:induction false} SameMiddle(p: Polynomial, s: seq<byte>, t: seq<byte>, i: nat, r: nat, j: nat)
    requires i + r <= |s| == |t| && 8 * r <= j <= Width(p)
    requires Serial(p, s, i) == Serial(p, t, i) && Agree(Serial(p, s, i + r), Serial(p, t, i + r), j)
    ensures forall k :: i <= k < i + r ==> s[k] == t[k]
    decreases r
  {
    if r > 0 {
      var n := i + r - 1;
      UndoByte(p, Serial(p, s, n), s[n], Serial(p, t, n), t[n], j);
      SameMiddle(p, s, t, i, r - 1, j - 8);
      SameSince(p, s, t, i, n);
    }
  }

  /**
    * Messages of one length that differ only within two successive bytes, for CCITT, or four have different checksums:
    * the checksums are the same if and only if the messages are.
    */
  lemma {:induction false} BurstIsNoticed(p: Polynomial, s: seq<byte>, t: seq<byte>, i: nat)
    requires |s| == |t| && i <= |s|
    requires forall k :: 0 <= k < |s| && !(i <= k < i + p.WordBytes()) ==> s[k] == t[k]
    ensures Serial(p, s, |s|) == Serial(p, t, |t|) <==> s == t
  {
    if Serial(p, s, |s|) == Serial(p, t, |t|) {
      var r := if i + p.WordBytes() <= |s| then p.WordBytes() else |s| - i;
      SameSince(p, s, t, 0, i);
      SameBack(p, s, t, i + r, |s|);
      SameMiddle(p, s, t, i, r, Width(p));
      assert s == t;
    }
  }
}
