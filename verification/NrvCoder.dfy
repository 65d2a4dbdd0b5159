/** The compressor side of tools/ProgramStore/n2b_99.c that turns literals and matches into code. */
module NrvCoder {
  import opened Arithmetic
  import opened Bytes
  import opened NrvCodes
  import opened NrvFormat
  import opened NrvEstimate
  import opened NrvPieces

  /** The bit of `x` under the mask `t`. */
  method TestBit(x: nat, t: nat) returns (b: bool)
    requires t > 0
    ensures b == (Quotient(x, t) % 2 == 1)
  {
    b := (x / t) % 2 == 1;
    DivisionIsDivision(x, t);
  }

  lemma {:induction false} HalfQuotient(x: nat, t: nat)
    requires t > 0
    ensures Quotient(x, t) / 2 == Quotient(x, 2 * t)
  {
  }

  lemma {:induction false} QuotientOne(x: nat, t: nat)
    requires 0 < t <= x < 2 * t
    ensures Quotient(x, t) == 1
  {
  }

  /** One step of long division. */
  lemma {:induction false} OneBit(x: nat, n: nat)
    requires n > 0
    ensures Quotient(x, n) == 2 * Quotient(x, 2 * n) + (if Remainder(x, 2 * n) >= n then 1 else 0)
    ensures Remainder(x, n) == Remainder(x, 2 * n) - (if Remainder(x, 2 * n) >= n then n else 0)
  {
  }

  lemma {:induction false} TwoSteps(x: nat, s: nat, r: nat)
    requires s > 0 && r == Remainder(x, 4 * s)
    ensures Remainder(r, s) == Remainder(x, s)
    ensures Quotient(x, s) == 4 * Quotient(x, 4 * s) + Quotient(r, s)
    ensures Quotient(x, 2 * s) == 2 * Quotient(x, 4 * s) + Quotient(r, 2 * s)
  {
    OneBit(x, 2 * s);
    OneBit(x, s);
    OneBit(r, 2 * s);
    OneBit(r, s);
    assert Quotient(r, 4 * s) == 0 && Remainder(r, 4 * s) == r;
  }

  lemma {:induction false} Parities(x: nat, y: nat, a: nat, q: nat, p: nat)
    requires x == 4 * a + q && y == 2 * a + p && q / 2 == p
    ensures q % 2 == x % 2 && (q / 2) % 2 == y % 2
  {
  }

  /** The bits under a mask are those of the remainder, below the bits above it. */
  lemma {:induction false} Nested(x: nat, s: nat, r: nat)
    requires s > 0 && r == Remainder(x, 4 * s)
    ensures Remainder(r, s) == Remainder(x, s)
    ensures Quotient(r, s) % 2 == Quotient(x, s) % 2
    ensures (Quotient(r, s) / 2) % 2 == Quotient(x, 2 * s) % 2
  {
    TwoSteps(x, s, r);
    HalfQuotient(r, s);
    Parities(Quotient(x, s), Quotient(x, 2 * s), Quotient(x, 4 * s), Quotient(r, s), Quotient(r, 2 * s));
  }

  /** The bytes that the items stand for. */
  function Length(items: Items): nat {
    match items
    case NoItems => 0
    case Then(before, last) => Length(before) + (if last.Literal? then 1 else if last.Match? then last.len else 0)
  }

  /** The items code_run makes of a run of literals. */
  function WithRun(items: Items, run: seq<byte>, n: nat): Items
    requires n <= |run|
  {
    if n == 0 then items else Then(WithRun(items, run, n - 1), Literal(run[n - 1]))
  }

  lemma {:induction false} MatchParts(out: Log, v: Variant, len: nat, off: nat, last: nat, prefix: Log, place: Log)
    requires Codable(v, len, off)
    requires prefix == Prefix(v, OffsetPrefix(v, off, last))
    requires place == PlaceCode(v, Low(Shortened(v, len, off)), off, last)
    ensures (((out + [Bit(false)]) + prefix) + place) + LongCode(Shortened(v, len, off))
         == out + MatchCode(v, len, off, last)
  {
    var long := LongCode(Shortened(v, len, off));
    Regroup(((out + [Bit(false)]) + prefix), place, long);
    Regroup(out + [Bit(false)], prefix, place + long);
    Regroup(out, [Bit(false)], prefix + (place + long));
  }

  class Coder {
    const v: Variant
    const maxMatch: nat
    const maxOffset: nat
    var out: Log
    var lastOff: nat
    var matchBytes: nat
    var litBytes: nat

    /** The literals and matches coded so far. */
    ghost var Coding: Items

    /** The output is the code of `Coding`, and the counters say how many bytes it stands for. */
    ghost predicate Valid()
      reads this
    {
      && maxMatch >= 8
      && AllValid(v, Coding) && out == Coded(v, Coding) && lastOff == LastOffset(Coding)
      && matchBytes + litBytes == Length(Coding)
    }

    constructor (v: Variant, maxMatch: nat, maxOffset: nat)
      requires maxMatch >= 8
      ensures Valid() && Coding == NoItems && this.v == v && this.maxMatch == maxMatch && this.maxOffset == maxOffset
    {
      this.v, this.maxMatch, this.maxOffset := v, maxMatch, maxOffset;
      out, lastOff, matchBytes, litBytes, Coding := [], 1, 0, 0, NoItems;
    }

    method PutBit(b: bool)
      modifies this`out
      ensures out == old(out) + [Bit(b)]
    {
      out := out + [Bit(b)];
    }

    method PutByte(b: nat)
      modifies this`out
      ensures out == old(out) + [Octet(b % 256)]
    {
      out := out + [Octet(b % 256)];
    }

    /** The loop of code_prefix_ss11: the bits below the mask `t`, which covers the top bit. */
    method PutLead(x: nat, mask: nat, ghost power: nat)
      requires mask == Power(power) >= 4 && mask <= x < 2 * mask
      modifies this`out
      ensures out == old(out) + Lead(x / 2)
    {
      var t := mask;
      ghost var k := power;
      QuotientOne(x, t);
      ghost var done: Log := [];
      while t > 2
        invariant t == Power(k) >= 2 && Quotient(x, t) >= 1
        invariant done == Lead(Quotient(x, t)) && out == old(out) + done
        decreases t
      {
        t, k := t / 2, k - 1;
        HalfQuotient(x, t);
        var b := TestBit(x, t);
        PutBit(b);
        PutBit(false);
        done := done + [Bit(b), Bit(false)];
      }
      DivisionIsDivision(x, 2);
    }

    /** The mask of the top bit. */
    method TopMask(x: nat) returns (t: nat, ghost k: nat)
      requires x >= 4
      ensures t == Power(k) >= 4 && t <= x < 2 * t
    {
      t, k := 8, 3;
      while x >= t
        invariant t == Power(k) >= 8 && t <= 2 * x
        decreases 2 * x - t
      {
        t, k := 2 * t, k + 1;
      }
      t, k := t / 2, k - 1;
    }

    method CodePrefixSs11(i: nat)
      modifies this`out
      ensures out == old(out) + Ss11(i)
    {
      var x := i;
      if i >= 2 {
        x := x + 2;
        var t, k := TopMask(x);
        PutLead(x, t, k);
      }
      ghost var lead, last := Lead((i + 2) / 2), [Bit(i % 2 == 1), Bit(true)];
      assert out == old(out) + lead;
      PutLast(x % 2 == 1);
      Regroup(old(out), lead, last);
    }

    /** The last bit of a code, with the flag that says so. */
    method PutLast(b: bool)
      modifies this`out
      ensures out == old(out) + [Bit(b), Bit(true)]
    {
      PutBit(b);
      PutBit(true);
    }

    /** One turn of the loop of code_prefix_ss12: the two bits below the mask `t`, with a flag between them. */
    method PutRound(x: nat, t: nat)
      requires t > 0 && t % 4 == 0
      modifies this`out
      ensures out == old(out) + Round(Quotient(Remainder(x, t), t / 4))
    {
      var high := TestBit(x, t / 2);
      PutBit(high);
      PutBit(false);
      var low := TestBit(x, t / 2 / 2);
      PutBit(low);
      Nested(x, t / 4, Remainder(x, t));
      assert t == 4 * (t / 4) && t / 2 == 2 * (t / 4) && t / 2 / 2 == t / 4;
      assert out == old(out) + [Bit(high), Bit(false), Bit(low)];
    }

    /** The loop of code_prefix_ss12, from the mask `span` down. */
    method PutRounds(x: nat, span: nat, ghost n: nat)
      requires span == Span(n) && n >= 1 && x < span
      modifies this`out
      ensures out + [Bit(x % 2 == 1), Bit(true)] == old(out) + Tail12(x, n)
    {
      var t := span;
      ghost var k := n;
      while t > 2
        invariant t == Span(k)
        invariant out + Tail12(Remainder(x, t), k) == old(out) + Tail12(x, n)
        decreases t
      {
        ghost var was, q := out, Quotient(Remainder(x, t), t / 4);
        PutRound(x, t);
        Nested(x, t / 4, Remainder(x, t));
        Regroup(was, Round(q), Tail12(Remainder(x, t / 4), k - 1));
        t, k := t / 4, k - 1;
      }
      DivisionIsDivision(x, 2);
      assert Tail12(Remainder(x, 2), 0) == [Bit(x % 2 == 1), Bit(true)];
    }

    method CodePrefixSs12(i: nat)
      modifies this`out
      ensures out == old(out) + Ss12(i)
    {
      var x := i;
      ghost var n: nat := 0;
      if i >= 2 {
        x := x - 2;
        var t := 8;
        n := 1;
        while x >= t
          invariant n >= 1 && x == i - Base(n) && t == Span(n)
          invariant Rounds(i, 0) == Rounds(i, n)
          decreases x
        {
          x := x - t;
          t, n := 4 * t, n + 1;
        }
        PutRounds(x, t, n);
      }
      PutLast(x % 2 == 1);
    }

    /** The prefix code of the format. */
    method CodePrefix(i: nat)
      modifies this`out
      ensures out == old(out) + Prefix(v, i)
    {
      if v.Nrv2b? {
        CodePrefixSs11(i);
      } else {
        CodePrefixSs12(i);
      }
    }

    /** The part of code_match behind its loop: one match. */
    method CodeOne(len: nat, off: nat)
      requires Codable(v, len, off)
      modifies this`out, this`lastOff, this`matchBytes
      ensures out == old(out) + MatchCode(v, len, off, old(lastOff))
      ensures lastOff == off && matchBytes == old(matchBytes) + len
    {
      matchBytes := matchBytes + len;
      PutBit(false);
      var l := len - 1 - (if off > v.M2MaxOffset() then 1 else 0);
      var low := if l >= 4 then 0 else l;
      ghost var prefix, place := Prefix(v, OffsetPrefix(v, off, lastOff)), PlaceCode(v, low, off, lastOff);
      PutPlace(off, low);
      if l >= 4 {
        CodePrefixSs11(l - 4);
      }
      MatchParts(old(out), v, len, off, old(lastOff), prefix, place);
    }

    /** The offset and the two low bits of the length. */
    method PutPlace(off: nat, low: nat)
      requires 1 <= off
      modifies this`out, this`lastOff
      ensures out == old(out) + Prefix(v, OffsetPrefix(v, off, old(lastOff))) + PlaceCode(v, low, off, old(lastOff))
      ensures lastOff == off
    {
      if off == lastOff {
        PutLastOffset();
        PutTwoBits(low);
      } else if v.Nrv2b? {
        CodePrefixSs11(1 + (off - 1) / 256);
        PutLowByte(off, low);
        lastOff := off;
      } else {
        CodePrefixSs12(1 + (off - 1) / 128);
        PutLowBits(off, low);
        lastOff := off;
      }
    }

    /** What NRV2B puts behind the prefix. */
    method PutLowByte(off: nat, low: nat)
      requires 1 <= off
      modifies this`out
      ensures out == old(out) + ([Octet((off - 1) % 256)] + TwoBits(low))
    {
      PutByte(off - 1);
      PutTwoBits(low);
      Regroup(old(out), [Octet((off - 1) % 256)], TwoBits(low));
    }

    /** What NRV2D puts behind the prefix. */
    method PutLowBits(off: nat, low: nat)
      requires 1 <= off
      modifies this`out
      ensures out == old(out) + [Octet(2 * ((off - 1) % 128) + (if low > 1 then 0 else 1)), Bit(low % 2 == 1)]
    {
      PutByte((off - 1) % 128 * 2 + (if low > 1 then 0 else 1));
      PutBit(low % 2 == 1);
    }

    /** The two low bits of a length. */
    method PutTwoBits(low: nat)
      modifies this`out
      ensures out == old(out) + TwoBits(low)
    {
      PutBit(low > 1);
      PutBit(low % 2 == 1);
    }

    /** The two bits that stand for the last offset again. */
    method PutLastOffset()
      modifies this`out
      ensures out == old(out) + Prefix(v, 0)
    {
      PutBit(false);
      PutBit(true);
      assert Lead(1) == [] && Rounds(0, 0) == 0;
      assert Prefix(v, 0) == [Bit(false), Bit(true)];
    }

    /** code_match: one match, in pieces if it is longer than the format allows. */
    method CodeMatch(len: nat, off: nat)
      requires Valid() && Codable(v, len, off)
      modifies this
      ensures Valid() && Coding == WithMatch(old(Coding), len, off, maxMatch)
      ensures matchBytes == old(matchBytes) + len && litBytes == old(litBytes)
      decreases len
    {
      var rest: nat := len;
      while rest > maxMatch
        invariant Valid() && Codable(v, rest, off) && rest <= len
        invariant WithMatch(Coding, rest, off, maxMatch) == WithMatch(old(Coding), len, off, maxMatch)
        invariant matchBytes + rest == old(matchBytes) + len && litBytes == old(litBytes)
        decreases rest
      {
        CodeMatch(maxMatch - 3, off);
        rest := rest - (maxMatch - 3);
      }
      CodeOne(rest, off);
      Coding := Then(Coding, Match(rest, off));
    }

    /** code_run: a run of literals. */
    method CodeRun(run: seq<byte>)
      requires Valid()
      modifies this
      ensures Valid() && Coding == WithRun(old(Coding), run, |run|)
      ensures litBytes == old(litBytes) + |run| && matchBytes == old(matchBytes)
    {
      var n := 0;
      while n < |run|
        invariant 0 <= n <= |run| && Valid() && Coding == WithRun(old(Coding), run, n)
        invariant litBytes == old(litBytes) + n && matchBytes == old(matchBytes)
      {
        CodeLiteral(run[n]);
        n := n + 1;
      }
    }

    method CodeLiteral(b: byte)
      requires Valid()
      modifies this
      ensures Valid() && Coding == Then(old(Coding), Literal(b))
      ensures litBytes == old(litBytes) + 1 && matchBytes == old(matchBytes)
    {
      litBytes := litBytes + 1;
      PutBit(true);
      PutByte(b);
      Coding := Then(Coding, Literal(b));
      assert out == old(out) + [Bit(true), Octet(b)];
    }

    /**
      * The end of the output. Whatever padding follows, a reader gets back the literals and matches that were coded,
      * and no others.
      */
    method Finish()
      requires Valid() && v.Proper()
      modifies this`out
      ensures forall rest: Log :: ReadItems(v, out + rest, 1, NoItems) == Some(Coding)
    {
      PutEnd();
      forall rest: Log ensures ReadItems(v, out + rest, 1, NoItems) == Some(Coding) {
        ReadsStream(v, Coding, rest);
      }
    }

    method PutEnd()
      modifies this`out
      ensures out == old(out) + EndCode(v)
    {
      PutBit(false);
      CodePrefix(v.eof);
      PutByte(255);
      Regroup(old(out) + [Bit(false)], Prefix(v, v.eof), [Octet(255)]);
      Regroup(old(out), [Bit(false)], Prefix(v, v.eof) + [Octet(255)]);
    }

    /** The bits a match would take up, or -1 if it cannot be coded: what len_of_coded_match returns. */
    method LenOfCodedMatch(len: nat, off: nat) returns (b: int)
      requires Valid() && 1 <= off <= N
      ensures b == -1 <==> !Codable(v, len, off) || off > maxOffset
      ensures b != -1 ==> b == Estimate(v, len, off, lastOff) && b >= Bits(MatchCode(v, len, off, lastOff))
      ensures b != -1 && len <= maxMatch ==>
                var coded := WithMatch(Coding, len, off, maxMatch);
                AllValid(v, coded) && Bits(Coded(v, coded)) <= Bits(out) + b
      ensures b != -1 && off == lastOff <= v.M2MaxOffset() ==>
                var coded := WithMatch(Coding, len, off, maxMatch);
                AllValid(v, coded) && (Bits(Coded(v, coded)) <= Bits(out) + b <==> len <= maxMatch)
    {
      if len < 2 || (len == 2 && off > v.M2MaxOffset()) || off > maxOffset {
        return -1;
      }
      EstimateIsBound(v, len, off, lastOff);
      if len <= maxMatch {
        OnePieceCosts(v, Coding, len, off, maxMatch);
      }
      if off == lastOff <= v.M2MaxOffset() {
        PiecesCostMore(v, Coding, len, off, maxMatch);
      }
      b := CountBits(len, off);
    }

    method CountBits(len: nat, off: nat) returns (b: nat)
      requires Codable(v, len, off)
      ensures b == Estimate(v, len, off, lastOff)
    {
      var l := len - 1 - (if off > v.M2MaxOffset() then 1 else 0);
      if off == lastOff {
        b := 3;
      } else if v.Nrv2b? {
        b := AddForBits(11, (off - 1) / 256);
      } else {
        b := AddForPairs(10, (off - 1) / 128);
      }
      b := b + 2;
      if l >= 4 {
        b := AddForBits(b + 2, (l - 4) / 2);
      }
    }

    /** Adds two for each bit of `x`. */
    method AddForBits(start: nat, x: nat) returns (b: nat)
      ensures b == start + 2 * BitLength(x)
    {
      b := start;
      var q := x;
      while q > 0
        invariant q >= 0 && b + 2 * BitLength(q) == start + 2 * BitLength(x)
      {
        b := b + 2;
        q := q / 2;
      }
    }

    /** Adds three for each two bits of `x`. */
    method AddForPairs(start: nat, x: nat) returns (b: nat)
      ensures b == start + 3 * PairLength(x)
    {
      b := start;
      var q := x;
      while q > 0
        invariant q >= 0 && b + 3 * PairLength(q) == start + 3 * PairLength(x)
      {
        b := b + 3;
        q := q / 4;
      }
    }
  }
}
