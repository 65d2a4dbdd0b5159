/**
  * compute_crc of tools/ProgramStore/ProgramStore.cpp, without bit reversal. It gathers bytes into words of 16 or 32
  * bits before it divides; the result is that of dividing bit by bit.
  */
module Crc {
  import A = Arithmetic
  import opened Bytes

  datatype Polynomial = CrcCcitt | Crc32
  {
    function Value(): nat { if CrcCcitt? then 0x1021 else 0x04c1_1db7 }

    /** The bytes of a data word, the weight of its top bit, and that of the one above. */
    function WordBytes(): nat { if CrcCcitt? then 2 else 4 }

    function TopBit(): nat { if CrcCcitt? then 0x8000 else 0x8000_0000 }

    function Modulus(): nat { if CrcCcitt? then 0x1_0000 else 0x1_0000_0000 }
  }

  // ---- bits of numbers ----

  /** The exclusive or, bit by bit. */
  function Xor(a: nat, b: nat): nat
    decreases a, b
  {
    if a == 0 && b == 0 then 0 else 2 * Xor(a / 2, b / 2) + (if a % 2 != b % 2 then 1 else 0)
  }

  lemma {:induction false} XorBelow(a: nat, b: nat, k: nat)
    requires a < A.Power(k) && b < A.Power(k)
    ensures Xor(a, b) < A.Power(k)
    decreases k
  {
    if k > 0 {
      XorBelow(a / 2, b / 2, k - 1);
    }
  }

  /** The low bits of an exclusive or depend on low bits only. */
  lemma {:induction false} XorLow(a: nat, b: nat, c: nat, k: nat, p: nat)
    requires p == A.Power(k) && a % p == c % p
    ensures Xor(a, b) % p == Xor(c, b) % p
    decreases k
  {
    if k > 0 {
      var h := A.Power(k - 1);
      Halves(a, h);
      Halves(c, h);
      XorLow(a / 2, b / 2, c / 2, k - 1, h);
      XorStep(a, b);
      XorStep(c, b);
      Halves(Xor(a, b), h);
      Halves(Xor(c, b), h);
    }
  }

  lemma {:induction false} XorStep(a: nat, b: nat)
    ensures Xor(a, b) / 2 == Xor(a / 2, b / 2) && Xor(a, b) % 2 == (a + b) % 2
  {
  }

  lemma {:induction false} Halves(x: nat, h: nat)
    requires h > 0
    ensures x % (2 * h) == 2 * ((x / 2) % h) + x % 2
  {
    var q, r := x / 2 / h, (x / 2) % h;
    assert x / 2 == q * h + r;
    assert q * (2 * h) == 2 * (q * h);
    A.DivisionUnique(2 * h, x / (2 * h), x % (2 * h), q, 2 * r + x % 2);
  }

  // ---- the definition: one bit at a time ----

  /** Shifts one bit of the message through a register of 16 or 32 bits. */
  function Shift(p: Polynomial, reg: nat, bit: bool): nat {
    (if (reg >= p.TopBit()) != bit then Xor(2 * reg, p.Value()) else 2 * reg) % p.Modulus()
  }

  /** Shifts in the bits of `x`, from the one with the weight `top` down. */
  function ShiftDown(p: Polynomial, reg: nat, x: nat, top: nat): nat
    decreases top, x
  {
    if top == 0 then reg
    else if x >= top then ShiftDown(p, Shift(p, reg, true), x - top, top / 2)
    else ShiftDown(p, Shift(p, reg, false), x, top / 2)
  }

  /** The register after the first `n` bytes of the message, each most significant bit first. */
  function Serial(p: Polynomial, s: seq<byte>, n: nat): nat
    requires n <= |s|
  {
    if n == 0 then p.Modulus() - 1 else ShiftDown(p, Serial(p, s, n - 1), s[n - 1], 128)
  }

  lemma {:induction false} XorZero(b: nat)
    ensures Xor(0, b) == b
  {
    if b > 0 {
      XorZero(b / 2);
    }
  }

  lemma {:induction false} PolynomialAlone(p: Polynomial, k: nat, twice: nat)
    requires p.Modulus() == A.Power(k) && twice == 2 * p.TopBit()
    ensures Shift(p, p.TopBit(), false) == p.Value()
  {
    XorLow(twice, p.Value(), 0, k, p.Modulus());
    XorZero(p.Value());
  }

  lemma {:induction false} Powers()
    ensures A.Power(16) == 0x1_0000 && A.Power(32) == 0x1_0000_0000
  {
    assert A.Power(4) == 16 && A.Power(8) == 256 && A.Power(12) == 0x1000;
    assert A.Power(20) == 0x10_0000 && A.Power(24) == 0x100_0000 && A.Power(28) == 0x1000_0000;
  }

  /**
    * The polynomials are those of CCITT, x^16 + x^12 + x^5 + 1, and of IEEE 802.3, whose lower exponents are 26, 23,
    * 22, 16, 12, 11, 10, 8, 7, 5, 4, 2, 1 and 0: a bit shifted out of a register that holds nothing else leaves them.
    */
  lemma {:induction false} PolynomialsAreStandard()
    ensures Shift(CrcCcitt, 0x8000, false) == 0x1000 + 0x20 + 1
    ensures Shift(Crc32, 0x8000_0000, false)
         == 0x400_0000 + 0x80_0000 + 0x40_0000 + 0x1_0000 + 0x1000 + 0x800 + 0x400 + 0x100 + 0x80 + 0x20 + 0x10
            + 4 + 2 + 1
  {
    Powers();
    PolynomialAlone(CrcCcitt, 16, 0x1_0000);
    PolynomialAlone(Crc32, 32, 0x1_0000_0000);
  }

  // ---- bytes gathered into words ----

  ghost predicate IsPower(c: nat) { c == 1 || (c > 1 && c % 2 == 0 && IsPower(c / 2)) }

  /** The bytes `s[i..j]` as one number. */
  function Word(s: seq<byte>, i: nat, j: nat): nat
    requires i <= j <= |s|
  {
    if i == j then 0 else 256 * Word(s, i, j - 1) + s[j - 1]
  }

  /** The weight of the top bit of `k` bytes. */
  function TopOf(k: nat): nat
    requires k > 0
  {
    if k == 1 then 128 else 256 * TopOf(k - 1)
  }

  lemma {:induction false} PowerDoubles(c: nat)
    requires IsPower(c)
    ensures IsPower(2 * c)
  {
  }

  lemma {:induction false} TopIsPower(k: nat)
    requires k > 0
    ensures IsPower(TopOf(k))
  {
    var t := if k == 1 then 1 else 2 * TopOf(k - 1);
    if k > 1 {
      TopIsPower(k - 1);
      PowerDoubles(TopOf(k - 1));
    }
    PowerDoubles(t);
    PowerDoubles(2 * t);
    PowerDoubles(4 * t);
    PowerDoubles(8 * t);
    PowerDoubles(16 * t);
    PowerDoubles(32 * t);
    PowerDoubles(64 * t);
  }

  lemma {:induction false} WordFits(s: seq<byte>, i: nat, j: nat)
    requires i < j <= |s|
    ensures Word(s, i, j) < 2 * TopOf(j - i)
  {
    if i + 1 < j {
      WordFits(s, i, j - 1);
    }
  }

  /** A byte behind a number is shifted in behind it. */
  lemma {:induction false} ByteBehind(p: Polynomial, reg: nat, x: nat, b: byte, c: nat)
    requires IsPower(c) && x < 2 * c
    ensures ShiftDown(p, reg, 256 * x + b, 256 * c) == ShiftDown(p, ShiftDown(p, reg, x, c), b, 128)
    decreases c
  {
    var bit := x >= c;
    assert bit <==> 256 * x + b >= 256 * c;
    if c > 1 {
      assert (256 * c) / 2 == 256 * (c / 2);
      ByteBehind(p, Shift(p, reg, bit), if bit then x - c else x, b, c / 2);
    }
  }

  /** Shifting in a word is shifting in its bytes. */
  lemma {:induction false} WordIsBytes(p: Polynomial, s: seq<byte>, i: nat, j: nat)
    requires i < j <= |s|
    ensures ShiftDown(p, Serial(p, s, i), Word(s, i, j), TopOf(j - i)) == Serial(p, s, j)
  {
    if i + 1 < j {
      WordIsBytes(p, s, i, j - 1);
      WordFits(s, i, j - 1);
      TopIsPower(j - 1 - i);
      ByteBehind(p, Serial(p, s, i), Word(s, i, j - 1), s[j - 1], TopOf(j - 1 - i));
    }
  }

  // ---- a word shifted up through its top bit ----

  /** Shifts in `n` bits of `d`, always the top one of the word, and shifts the word up behind it. */
  function ShiftUp(p: Polynomial, reg: nat, d: nat, n: nat): nat
    decreases n, d
  {
    if n == 0 then reg
    else if d >= p.TopBit() then ShiftUp(p, Shift(p, reg, true), 2 * (d - p.TopBit()), n - 1)
    else ShiftUp(p, Shift(p, reg, false), 2 * d, n - 1)
  }

  function Halvings(top: nat): nat { if top == 0 then 0 else 1 + Halvings(top / 2) }

  /** Moving the number up past a fixed place is as good as moving down its bits. */
  lemma {:induction false} UpIsDown(p: Polynomial, reg: nat, x: nat, q: nat, top: nat)
    requires IsPower(top) && top * q == p.TopBit() && x < 2 * top
    ensures ShiftUp(p, reg, x * q, Halvings(top)) == ShiftDown(p, reg, x, top)
    decreases top
  {
    var bit := x >= top;
    var y := if bit then x - top else x;
    Scaled(x, top, q);
    if top > 1 {
      Halved(y, top, q);
      UpIsDown(p, Shift(p, reg, bit), y, 2 * q, top / 2);
    }
  }

  lemma {:induction false} Scaled(x: nat, top: nat, q: nat)
    requires q > 0
    ensures x >= top <==> x * q >= top * q
    ensures (x - top) * q == x * q - top * q
  {
  }

  lemma {:induction false} Halved(y: nat, top: nat, q: nat)
    requires top % 2 == 0
    ensures (top / 2) * (2 * q) == top * q && y * (2 * q) == 2 * (y * q)
  {
  }

  lemma {:induction false} HalvingsOfDouble(t: nat)
    requires t > 0
    ensures Halvings(2 * t) == 1 + Halvings(t)
  {
  }

  lemma {:induction false} FourMore(t: nat, u: nat)
    requires t > 0 && u == 4 * t
    ensures Halvings(4 * u) == 4 + Halvings(t)
  {
    HalvingsOfDouble(t);
    HalvingsOfDouble(2 * t);
    HalvingsOfDouble(u);
    HalvingsOfDouble(2 * u);
  }

  lemma {:induction false} SevenMore(t: nat, u: nat)
    requires t > 0 && u == 16 * t
    ensures Halvings(8 * u) == 7 + Halvings(t)
  {
    FourMore(t, 4 * t);
    HalvingsOfDouble(u);
    HalvingsOfDouble(2 * u);
    HalvingsOfDouble(4 * u);
  }

  lemma {:induction false} HalvingsOfTop(k: nat)
    requires k > 0
    ensures Halvings(TopOf(k)) == 8 * k
  {
    if k > 1 {
      HalvingsOfTop(k - 1);
      HalvingsOfDouble(TopOf(k - 1));
      SevenMore(2 * TopOf(k - 1), 32 * TopOf(k - 1));
    } else {
      SevenMore(1, 16);
    }
  }

  /** The weight of `k` bytes, for as many as a word has. */
  function Bytes256(k: nat): nat
    requires k <= 4
  {
    match k
    case 0 => 1
    case 1 => 0x100
    case 2 => 0x1_0000
    case 3 => 0x100_0000
    case _ => 0x1_0000_0000
  }

  /** A word of `k` bytes, shifted to the top of a data word, is shifted in like its bytes. */
  lemma {:induction false} TopOfWord(p: Polynomial, s: seq<byte>, i: nat, j: nat)
    requires i < j <= |s| && j - i <= p.WordBytes()
    ensures var d := Word(s, i, j) * Bytes256(p.WordBytes() - (j - i));
            d < p.Modulus() && ShiftUp(p, Serial(p, s, i), d, 8 * (j - i)) == Serial(p, s, j)
  {
    var k := j - i;
    var q := Bytes256(p.WordBytes() - k);
    Tops();
    WordFits(s, i, j);
    TopIsPower(k);
    HalvingsOfTop(k);
    assert TopOf(k) * q == p.TopBit();
    UpIsDown(p, Serial(p, s, i), Word(s, i, j), q, TopOf(k));
    WordIsBytes(p, s, i, j);
  }

  lemma {:induction false} Tops()
    ensures TopOf(1) == 0x80 && TopOf(2) == 0x8000 && TopOf(3) == 0x80_0000 && TopOf(4) == 0x8000_0000
  {
  }

  // ---- the program ----

  lemma {:induction false} Constants(p: Polynomial)
    ensures A.Power(32) == 0x1_0000_0000 && p.Modulus() == A.Power(8 * p.WordBytes()) && p.Value() < A.Power(32)
  {
    assert A.Power(8) == 0x100 && A.Power(16) == 0x1_0000 && A.Power(24) == 0x100_0000;
  }

  /** The bit of weight `h` in `x`, and what doubling makes of the bits up to there. */
  lemma {:induction false} TopBitOf(x: nat, h: nat)
    requires h > 0
    ensures (x / h) % 2 == 1 <==> x % (2 * h) >= h
    ensures (2 * x) % (2 * h) == 2 * (x % (2 * h) - (if x % (2 * h) >= h then h else 0))
  {
    var q, r := x / (2 * h), x % (2 * h);
    var bit := if r >= h then 1 else 0;
    assert x == q * (2 * h) + r;
    assert q * (2 * h) == (2 * q) * h && (2 * q + bit) * h == (2 * q) * h + bit * h;
    A.DivisionUnique(h, x / h, x % h, 2 * q + bit, r - bit * h);
    assert (2 * q + bit) * (2 * h) == 2 * ((2 * q + bit) * h);
    A.DivisionUnique(2 * h, (2 * x) / (2 * h), (2 * x) % (2 * h), 2 * q + bit, 2 * (r - bit * h));
  }

  lemma {:induction false} RemainderOfRemainder(x: nat, m: nat, c: nat)
    requires m > 0 && c > 0
    ensures (x % (m * c)) % m == x % m
  {
    var n := m * c;
    var q, r := x / n, x % n;
    assert x == q * n + r;
    assert q * n == (q * c) * m;
    assert (q * c + r / m) * m == (q * c) * m + (r / m) * m;
    A.DivisionUnique(m, x / m, x % m, q * c + r / m, r % m);
  }

  /** What stands above the register never comes back into it. */
  lemma {:induction false} LowShift(p: Polynomial, crc: nat)
    ensures var twice := (2 * crc) % 0x1_0000_0000;
            && ((crc / p.TopBit()) % 2 == 1 <==> crc % p.Modulus() >= p.TopBit())
            && twice % p.Modulus() == (2 * (crc % p.Modulus())) % p.Modulus()
  {
    TopBitOf(crc, p.TopBit());
    TopBitOf(crc % p.Modulus(), p.TopBit());
    RemainderOfRemainder(2 * crc, p.Modulus(), if p.CrcCcitt? then 0x1_0000 else 1);
  }

  method ShiftBit(p: Polynomial, before: nat, bit: bool) returns (crc: nat)
    ensures crc < 0x1_0000_0000 && crc % p.Modulus() == Shift(p, before % p.Modulus(), bit)
  {
    var xorMask := if bit != ((before / p.TopBit()) % 2 == 1) then p.Value() else 0;
    crc := (2 * before) % 0x1_0000_0000;
    Constants(p);
    LowShift(p, before);
    if xorMask != 0 {
      XorLow(crc, p.Value(), 2 * (before % p.Modulus()), 8 * p.WordBytes(), p.Modulus());
      XorBelow(crc, p.Value(), 32);
      crc := Xor(crc, xorMask);
    }
  }

  lemma {:induction false} DoubledWord(p: Polynomial, data: nat)
    ensures (data / p.TopBit()) % 2 == 1 <==> data % p.Modulus() >= p.TopBit()
    ensures (2 * data) % p.Modulus()
         == 2 * (data % p.Modulus() - (if data % p.Modulus() >= p.TopBit() then p.TopBit() else 0))
  {
    TopBitOf(data, p.TopBit());
  }

  lemma {:induction false} Doubled(x: nat, k: nat)
    ensures x * A.Power(k + 1) == 2 * (x * A.Power(k))
  {
  }

  /** A word that has been shifted out entirely leaves zeros behind. */
  lemma {:induction false} ShiftedOut(p: Polynomial, word: nat)
    ensures (word * A.Power(8 * p.WordBytes())) % p.Modulus() == 0
  {
    assert A.Power(8) == 0x100 && A.Power(16) == 0x1_0000 && A.Power(24) == 0x100_0000 && A.Power(32) == 0x1_0000_0000;
  }

  /** The inner loop: shifts the `n` top bits of the data word in. What is above the word does not matter. */
  method ShiftWord(p: Polynomial, before: nat, word: nat, n: nat) returns (crc: nat, data: nat)
    requires before < 0x1_0000_0000
    ensures crc < 0x1_0000_0000
    ensures crc % p.Modulus() == ShiftUp(p, before % p.Modulus(), word % p.Modulus(), n)
    ensures data == word * A.Power(n)
  {
    crc, data := before, word;
    var shiftCount := 0;
    while shiftCount < n
      invariant 0 <= shiftCount <= n && crc < 0x1_0000_0000
      invariant ShiftUp(p, crc % p.Modulus(), data % p.Modulus(), n - shiftCount)
             == ShiftUp(p, before % p.Modulus(), word % p.Modulus(), n)
      invariant data == word * A.Power(shiftCount)
    {
      var bit := (data / p.TopBit()) % 2 == 1;
      DoubledWord(p, data);
      crc := ShiftBit(p, crc, bit);
      Doubled(word, shiftCount);
      data := 2 * data;
      shiftCount := shiftCount + 1;
    }
  }

  /** The next byte goes behind those gathered. */
  lemma {:induction false} NextByte(p: Polynomial, s: seq<byte>, i: nat, j: nat, data: nat)
    requires i <= j < |s| && j - i < p.WordBytes() && data % p.Modulus() == Word(s, i, j)
    ensures (256 * data + s[j]) % p.Modulus() == Word(s, i, j + 1)
  {
    if i < j {
      WordFits(s, i, j);
      Tops();
    }
    WordFits(s, i, j + 1);
    Tops();
    Appended(p, data, s[j]);
  }

  lemma {:induction false} Appended(p: Polynomial, data: nat, b: byte)
    requires 256 * (data % p.Modulus()) + b < p.Modulus()
    ensures (256 * data + b) % p.Modulus() == 256 * (data % p.Modulus()) + b
  {
    var m, x := p.Modulus(), 256 * data + b;
    assert data == (data / m) * m + data % m;
    A.DivisionUnique(m, x / m, x % m, 256 * (data / m), 256 * (data % m) + b);
  }

  /** The data word with the bytes gathered moved to its top. */
  lemma {:induction false} MovedUp(m: nat, data: nat, q: nat)
    requires m > 0 && (data % m) * q < m
    ensures (data * q) % m == (data % m) * q
  {
    var k, r, x := data / m, data % m, data * q;
    Distribute(k, m, r, q);
    assert data == k * m + r;
    A.DivisionUnique(m, x / m, x % m, k * q, r * q);
  }

  lemma {:induction false} Distribute(k: nat, m: nat, r: nat, q: nat)
    ensures (k * m + r) * q == (k * q) * m + r * q
  {
  }

  /** Where the next hex digit goes in its word. */
  lemma {:induction false} HexIndex(p: Polynomial, from: nat, counter: nat)
    requires from % p.WordBytes() == 0 && from <= counter < from + p.WordBytes()
    ensures (2 * counter) % (2 * p.WordBytes()) == 2 * (counter - from)
    ensures counter + 1 == from + p.WordBytes() ==> (counter + 1) % p.WordBytes() == 0
  {
    match p
    case CrcCcitt => assert p.WordBytes() == 2;
    case Crc32 => assert p.WordBytes() == 4;
  }

  /** The bytes before `from` have been shifted in, those from there up to `counter` are in the data word. */
  ghost predicate Gathered(s: seq<byte>, p: Polynomial, crc: nat, data: nat, from: nat, counter: nat) {
    && from <= counter <= |s| && counter < from + p.WordBytes() && from % p.WordBytes() == 0
    && crc < 0x1_0000_0000 && crc % p.Modulus() == Serial(p, s, from)
    && data % p.Modulus() == Word(s, from, counter)
  }

  /** One turn of the outer loop before the end: gathers a byte and shifts a full word in. */
  method TakeByte(s: seq<byte>, p: Polynomial, before: nat, word: nat, counter: nat, ghost from: nat)
    returns (crc: nat, data: nat, ghost next: nat)
    requires counter < |s| && Gathered(s, p, before, word, from, counter)
    ensures Gathered(s, p, crc, data, next, counter + 1)
  {
    var digits := 2 * p.WordBytes();
    var hexIndex := 2 * counter;
    HexIndex(p, from, counter);
    NextByte(p, s, from, counter, word);
    crc, data, next := before, 256 * word + s[counter], from;
    if hexIndex % digits == digits - 2 {
      ghost var full := data;
      TopOfWord(p, s, from, counter + 1);
      crc, data := ShiftWord(p, crc, data, digits * 4);
      ShiftedOut(p, full);
      next := counter + 1;
    }
  }

  /**
    * compute_crc without reversal. The result is the complement of the bit-serial register; for CCITT, of which it is
    * the low half, the upper half of the result means nothing.
    */
  method ComputeCrc(s: seq<byte>, p: Polynomial) returns (crc: nat)
    ensures crc < 0x1_0000_0000 && crc % p.Modulus() == p.Modulus() - 1 - Serial(p, s, |s|)
  {
    crc := 0xffff_ffff;
    var data: nat := 0;
    var counter := 0;
    ghost var from := 0;
    while counter < |s|
      invariant 0 <= counter <= |s| && Gathered(s, p, crc, data, from, counter)
    {
      crc, data, from := TakeByte(s, p, crc, data, counter, from);
      counter := counter + 1;
    }
    crc := Flush(s, p, crc, data, from);
    Complement(p, crc);
    crc := 0xffff_ffff - crc;
  }

  /** The last turn of the outer loop: what is left of a word is moved to its top and shifted in. */
  method Flush(s: seq<byte>, p: Polynomial, before: nat, data: nat, ghost from: nat) returns (crc: nat)
    requires Gathered(s, p, before, data, from, |s|)
    ensures crc < 0x1_0000_0000 && crc % p.Modulus() == Serial(p, s, |s|)
  {
    HexIndex(p, from, |s|);
    var pending := (2 * |s|) % (2 * p.WordBytes());
    var left := p.WordBytes() - pending / 2;
    var moved := data * Bytes256(left - 1) * 256;
    assert moved == data * Bytes256(left);
    if pending > 0 {
      TopOfWord(p, s, from, |s|);
      MovedUp(p.Modulus(), data, Bytes256(left));
    }
    var rest;
    crc, rest := ShiftWord(p, before, moved, pending * 4);
  }

  lemma {:induction false} Complement(p: Polynomial, crc: nat)
    requires crc < 0x1_0000_0000
    ensures (0xffff_ffff - crc) % p.Modulus() == p.Modulus() - 1 - crc % p.Modulus()
  {
  }
}
