/** What tools/ProgramStore/n2b_99.c takes for the cost of a match in lazy matching, against the true cost. */
module NrvEstimate {
  import opened Arithmetic
  import opened NrvCodes
  import opened NrvFormat

  // ---- lengths of codes ----

  function Width(s: Symbol): nat { if s.Bit? then 1 else 8 }

  /** The bits a log takes up. */
  function Bits(log: Log): nat {
    if log == [] then 0 else Width(log[0]) + Bits(log[1..])
  }

  lemma {:induction false} BitsOfOne(a: Symbol)
    ensures Bits([a]) == Width(a)
  {
  }

  lemma {:induction false} BitsOfPair(a: Symbol, b: Symbol)
    ensures Bits([a, b]) == Width(a) + Width(b)
  {
    assert [a, b][1..] == [b];
    BitsOfOne(b);
  }

  lemma {:induction false} BitsOfTwo(a: Log, b: Log)
    ensures Bits(a + b) == Bits(a) + Bits(b)
  {
    if a == [] {
      assert a + b == b;
    } else {
      BitsOfTwo(a[1..], b);
      assert (a + b)[1..] == a[1..] + b;
    }
  }

  function BitLength(x: nat): nat { if x == 0 then 0 else 1 + BitLength(x / 2) }

  /** Two bits at a time. */
  function PairLength(x: nat): nat { if x == 0 then 0 else 1 + PairLength(x / 4) }

  lemma {:induction false} BitLengthGrows(x: nat, y: nat)
    requires x <= y
    ensures BitLength(x) <= BitLength(y)
  {
    if x > 0 {
      BitLengthGrows(x / 2, y / 2);
    }
  }

  lemma {:induction false} LeadBits(v: nat)
    requires v >= 1
    ensures Bits(Lead(v)) + 2 == 2 * BitLength(v)
  {
    if v > 1 {
      LeadBits(v / 2);
      var step := [Bit(v % 2 == 1), Bit(false)];
      BitsOfTwo(Lead(v / 2), step);
      BitsOfPair(Bit(v % 2 == 1), Bit(false));
    }
  }

  lemma {:induction false} Ss11Bits(i: nat)
    ensures Bits(Ss11(i)) == 2 * BitLength((i + 2) / 2)
  {
    LeadBits((i + 2) / 2);
    var last := [Bit(i % 2 == 1), Bit(true)];
    BitsOfTwo(Lead((i + 2) / 2), last);
    BitsOfPair(Bit(i % 2 == 1), Bit(true));
  }

  lemma {:induction false} Tail12Bits(r: nat, n: nat)
    ensures Bits(Tail12(r, n)) == 3 * n + 2
    decreases n
  {
    if n == 0 {
      BitsOfPair(Bit(r % 2 == 1), Bit(true));
    } else {
      var q := Quotient(r, Span(n - 1));
      Tail12Bits(Remainder(r, Span(n - 1)), n - 1);
      BitsOfTwo(Round(q), Tail12(Remainder(r, Span(n - 1)), n - 1));
      assert Round(q)[1..] == [Bit(false), Bit(q % 2 == 1)];
      BitsOfPair(Bit(false), Bit(q % 2 == 1));
    }
  }

  lemma {:induction false} PairLengthAtLeast(q: nat, k: nat)
    requires k >= 1 && 2 * q >= Span(k - 1)
    ensures PairLength(q) >= k
  {
    if k > 1 {
      PairLengthAtLeast(q / 4, k - 1);
    }
  }

  lemma {:induction false} RoundsAtMost(q: nat)
    ensures Rounds(1 + q, 0) <= PairLength(q)
  {
    var k := Rounds(1 + q, 0);
    if k >= 1 {
      BaseIs(k);
      PairLengthAtLeast(q, k);
    }
  }

  /** What the rest of a long length takes up. */
  function LongCost(l: nat): nat { if l < 4 then 0 else 2 * BitLength((l - 2) / 2) }

  /** What len_of_coded_match takes it to be. */
  function LongEstimate(l: nat): nat { if l < 4 then 0 else if l == 4 then 2 else 2 * BitLength(l - 4) }

  /** What len_of_coded_match computes. */
  function Estimate(v: Variant, len: nat, off: nat, last: nat): nat
    requires Codable(v, len, off)
  {
    var l := Shortened(v, len, off);
    (if off == last then 3
     else if v.Nrv2b? then 11 + 2 * BitLength((off - 1) / 256)
     else 10 + 3 * PairLength((off - 1) / 128))
    + 2
    + LongEstimate(l)
  }

  lemma {:induction false} LastOffsetBits(v: Variant)
    ensures Bits(Prefix(v, 0)) == 2
  {
    if v.Nrv2b? {
      Ss11Bits(0);
    } else {
      Tail12Bits(0 - Base(Rounds(0, 0)), Rounds(0, 0));
    }
  }

  lemma {:induction false} PlaceBits(v: Variant, low: nat, off: nat, last: nat)
    requires 1 <= off
    ensures Bits(PlaceCode(v, low, off, last)) == if off == last then 2 else if v.Nrv2b? then 10 else 9
  {
    var place := PlaceCode(v, low, off, last);
    BitsOfPair(Bit(low > 1), Bit(low % 2 == 1));
    if off != last && v.Nrv2b? {
      BitsOfOne(Octet((off - 1) % 256));
      BitsOfTwo([Octet((off - 1) % 256)], TwoBits(low));
    } else if off != last {
      BitsOfPair(place[0], place[1]);
      assert place == [place[0], place[1]];
    }
  }

  lemma {:induction false} PrefixBits(v: Variant, q: nat)
    ensures Bits(Prefix(v, 1 + q)) <= 2 + if v.Nrv2b? then 2 * BitLength(q) else 3 * PairLength(q)
  {
    if v.Nrv2b? {
      Ss11Bits(1 + q);
      BitLengthGrows((q + 3) / 2, 2 * q + 1);
      assert (2 * q + 1) / 2 == q;
    } else {
      RoundsAtMost(q);
      Tail12Bits(1 + q - Base(Rounds(1 + q, 0)), Rounds(1 + q, 0));
    }
  }

  lemma {:induction false} OffsetBits(v: Variant, low: nat, off: nat, last: nat)
    requires 1 <= off
    ensures Bits(Prefix(v, OffsetPrefix(v, off, last))) + Bits(PlaceCode(v, low, off, last)) + 1
         <= if off == last then 5
            else if v.Nrv2b? then 13 + 2 * BitLength((off - 1) / 256)
            else 12 + 3 * PairLength((off - 1) / 128)
  {
    LastOffsetBits(v);
    PlaceBits(v, low, off, last);
    PrefixBits(v, (off - 1) / (if v.Nrv2b? then 256 else 128));
  }

  lemma {:induction false} LongBits(l: nat)
    ensures Bits(LongCode(l)) == LongCost(l) <= LongEstimate(l)
  {
    if l >= 4 {
      Ss11Bits(l - 4);
      if l > 5 {
        BitLengthGrows((l - 2) / 2, l - 4);
      }
    }
  }

  lemma {:induction false} MatchBits(v: Variant, len: nat, off: nat, last: nat)
    requires Codable(v, len, off)
    ensures Bits(MatchCode(v, len, off, last))
         == 1 + Bits(Prefix(v, OffsetPrefix(v, off, last)))
            + Bits(PlaceCode(v, Low(Shortened(v, len, off)), off, last)) + Bits(LongCode(Shortened(v, len, off)))
  {
    var l := Shortened(v, len, off);
    var prefix, place := Prefix(v, OffsetPrefix(v, off, last)), PlaceCode(v, Low(l), off, last);
    BitsOfTwo([Bit(false)], prefix + (place + LongCode(l)));
    BitsOfTwo(prefix, place + LongCode(l));
    BitsOfTwo(place, LongCode(l));
    BitsOfOne(Bit(false));
  }

  /** The estimate is never less than what coding the match takes. */
  lemma {:induction false} EstimateIsBound(v: Variant, len: nat, off: nat, last: nat)
    requires Codable(v, len, off)
    ensures Bits(MatchCode(v, len, off, last)) <= Estimate(v, len, off, last)
  {
    var l := Shortened(v, len, off);
    MatchBits(v, len, off, last);
    OffsetBits(v, Low(l), off, last);
    LongBits(l);
  }

  // ---- how close the estimate is ----

  lemma {:induction false} PairLengthAtMost(q: nat, k: nat)
    requires 2 * q < Span(k)
    ensures PairLength(q) <= k
  {
    if q > 0 {
      PairLengthAtMost(q / 4, k - 1);
    }
  }

  lemma {:induction false} RoundsAtLeast(q: nat)
    ensures PairLength(q) <= Rounds(1 + q, 0) + 1
  {
    var k := Rounds(1 + q, 0);
    BaseIs(k);
    PairLengthAtMost(q, k + 1);
  }

  lemma {:induction false} PrefixIsClose(v: Variant, q: nat)
    ensures if v.Nrv2b? then 2 * BitLength(q) <= Bits(Prefix(v, 1 + q)) + 2
            else 3 * PairLength(q) + 2 <= Bits(Prefix(v, 1 + q)) + 3
  {
    if v.Nrv2b? {
      Ss11Bits(1 + q);
      BitLengthGrows(q / 2, (q + 3) / 2);
    } else {
      RoundsAtLeast(q);
      Tail12Bits(1 + q - Base(Rounds(1 + q, 0)), Rounds(1 + q, 0));
    }
  }

  lemma {:induction false} LongIsClose(l: nat)
    ensures LongEstimate(l) <= LongCost(l) + 2
  {
    if l > 4 {
      BitLengthGrows((l - 4) / 2, (l - 2) / 2);
    }
  }

  /** It is at most six bits more, and at the last offset at most two. */
  lemma {:induction false} EstimateIsClose(v: Variant, len: nat, off: nat, last: nat)
    requires Codable(v, len, off)
    ensures Estimate(v, len, off, last) <= Bits(MatchCode(v, len, off, last)) + if off == last then 2 else 6
  {
    var l := Shortened(v, len, off);
    MatchBits(v, len, off, last);
    LastOffsetBits(v);
    PlaceBits(v, Low(l), off, last);
    PrefixIsClose(v, (off - 1) / (if v.Nrv2b? then 256 else 128));
    LongBits(l);
    LongIsClose(l);
  }
}
