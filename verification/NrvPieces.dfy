/**
  * Matches that code_match of tools/ProgramStore/n2b_99.c codes in one piece or in several, and when the estimate of
  * len_of_coded_match bounds what they take.
  */
module NrvPieces {
  import opened NrvFormat
  import opened NrvEstimate

  /** The items code_match makes of one match: pieces no longer than the format allows, all at the same offset. */
  function WithMatch(items: Items, len: nat, off: nat, max: nat): Items
    requires max >= 8
    decreases len
  {
    if len > max then WithMatch(Then(items, Match(max - 3, off)), len - (max - 3), off, max)
    else Then(items, Match(len, off))
  }

  /** However the items before it end, coding the match at `off` behind them takes no more than the estimate. */
  ghost predicate BoundsAfter(v: Variant, items: Items, len: nat, off: nat, max: nat)
    requires max >= 8 && AllValid(v, items) && Codable(v, len, off)
  {
    var coded := WithMatch(items, len, off, max);
    && AllValid(v, coded)
    && Bits(Coded(v, coded)) <= Bits(Coded(v, items)) + Estimate(v, len, off, LastOffset(items))
  }

  /** The estimate is a bound for matches of this length, wherever they are and whatever stands before them. */
  ghost predicate Bounds(v: Variant, len: nat, max: nat)
    requires max >= 8
  {
    forall items, off :: AllValid(v, items) && Codable(v, len, off) ==> BoundsAfter(v, items, len, off, max)
  }

  lemma {:induction false} CodedThen(v: Variant, items: Items, len: nat, off: nat)
    requires AllValid(v, items) && Codable(v, len, off)
    ensures AllValid(v, Then(items, Match(len, off)))
    ensures Bits(Coded(v, Then(items, Match(len, off))))
         == Bits(Coded(v, items)) + Bits(MatchCode(v, len, off, LastOffset(items)))
  {
    BitsOfTwo(Coded(v, items), MatchCode(v, len, off, LastOffset(items)));
  }

  /** A match that is coded in one piece costs no more than the estimate. */
  lemma {:induction false} OnePieceCosts(v: Variant, items: Items, len: nat, off: nat, max: nat)
    requires AllValid(v, items) && Codable(v, len, off) && 8 <= max && len <= max
    ensures BoundsAfter(v, items, len, off, max)
  {
    EstimateIsBound(v, len, off, LastOffset(items));
    CodedThen(v, items, len, off);
  }

  // ---- matches in pieces, at the last offset ----

  lemma {:induction false} BitLengthOfDouble(x: nat)
    requires x >= 1
    ensures BitLength(2 * x) == 1 + BitLength(x)
  {
    assert 2 * x / 2 == x;
  }

  lemma {:induction false} BitLengthOfSum(x: nat, y: nat)
    requires x >= 1 && y >= 1
    ensures BitLength(x + y + 1) <= BitLength(x) + BitLength(y)
  {
    if x >= 2 && y >= 2 {
      BitLengthOfSum(x / 2, y / 2);
      BitLengthGrows((x + y + 1) / 2, x / 2 + y / 2 + 1);
    } else if x >= 2 {
      BitLengthOfDouble(x);
      BitLengthGrows(x + 2, 2 * x);
    } else if y >= 2 {
      BitLengthOfDouble(y);
      BitLengthGrows(y + 2, 2 * y);
    }
  }

  /** Two lengths together are estimated at less than they cost, with what a piece costs besides its length. */
  lemma {:induction false} TwoPiecesCostMore(a: nat, b: nat)
    requires a >= 4 && b >= 3
    ensures LongEstimate(a + b + 1) < 5 + LongCost(a) + LongCost(b)
  {
    BitLengthOfDouble((a - 2) / 2);
    BitLengthGrows(a - 2, 2 * ((a - 2) / 2) + 1);
    BitLengthOfSum(a - 2, b - 2);
  }

  lemma {:induction false} EstimateAtLast(v: Variant, len: nat, off: nat)
    requires Codable(v, len, off) && off <= v.M2MaxOffset()
    ensures Estimate(v, len, off, off) == 5 + LongEstimate(len - 1) >= 5 + LongCost(len - 1)
  {
    LongBits(len - 1);
  }

  /** What one match at the last offset adds, if it is one of those that are coded without another byte. */
  lemma {:induction false} AtLastOffset(v: Variant, items: Items, len: nat, off: nat)
    requires AllValid(v, items) && Codable(v, len, off) && off == LastOffset(items) <= v.M2MaxOffset()
    ensures AllValid(v, Then(items, Match(len, off)))
    ensures Bits(Coded(v, Then(items, Match(len, off)))) == Bits(Coded(v, items)) + 5 + LongCost(len - 1)
  {
    CodedThen(v, items, len, off);
    MatchBits(v, len, off, off);
    LastOffsetBits(v);
    PlaceBits(v, Low(len - 1), off, off);
    LongBits(len - 1);
  }

  /** In pieces or not, the match costs as much as it would in one piece of any length. */
  ghost predicate CostsOnePiece(v: Variant, items: Items, len: nat, off: nat, max: nat)
    requires max >= 8 && AllValid(v, items) && len >= 1
  {
    var coded := WithMatch(items, len, off, max);
    AllValid(v, coded) && Bits(Coded(v, coded)) >= Bits(Coded(v, items)) + 5 + LongCost(len - 1)
  }

  lemma {:induction false} PieceAndRest(v: Variant, items: Items, len: nat, off: nat, max: nat, first: Items)
    requires AllValid(v, items) && Codable(v, len, off) && off == LastOffset(items) <= v.M2MaxOffset()
    requires 8 <= max < len && first == Then(items, Match(max - 3, off))
    requires AllValid(v, first) && CostsOnePiece(v, first, len - (max - 3), off, max)
    ensures CostsOnePiece(v, items, len, off, max) && !BoundsAfter(v, items, len, off, max)
  {
    AtLastOffset(v, items, max - 3, off);
    TwoPiecesCostMore(max - 4, len - max + 2);
    EstimateAtLast(v, len, off);
  }

  /** At the last offset, the estimate is a bound if and only if the match is coded in one piece. */
  lemma {:induction false} PiecesCostMore(v: Variant, items: Items, len: nat, off: nat, max: nat)
    requires AllValid(v, items) && Codable(v, len, off) && off == LastOffset(items) <= v.M2MaxOffset()
    requires max >= 8
    ensures BoundsAfter(v, items, len, off, max) <==> len <= max
    ensures CostsOnePiece(v, items, len, off, max)
    decreases len
  {
    if len <= max {
      OnePieceCosts(v, items, len, off, max);
      AtLastOffset(v, items, len, off);
    } else {
      var first := Then(items, Match(max - 3, off));
      PiecesCostMore(v, first, len - (max - 3), off, max);
      PieceAndRest(v, items, len, off, max, first);
    }
  }

  /** Nine bytes in pieces of five and four take 12 bits, where 11 are estimated. */
  lemma {:induction false} NineInPieces(v: Variant)
    ensures AllValid(v, WithMatch(NoItems, 9, 1, 8))
    ensures Estimate(v, 9, 1, 1) == 11 && Bits(Coded(v, WithMatch(NoItems, 9, 1, 8))) == 12
  {
    var five := Then(NoItems, Match(5, 1));
    assert WithMatch(NoItems, 9, 1, 8) == Then(five, Match(4, 1));
    AtLastOffset(v, NoItems, 5, 1);
    AtLastOffset(v, five, 4, 1);
    EstimateAtLast(v, 9, 1);
  }

  /** The estimate is a bound exactly for the matches that are coded in one piece. */
  lemma {:induction false} BoundsIsOnePiece(v: Variant, len: nat, max: nat)
    requires max >= 8 && len >= 2
    ensures Bounds(v, len, max) <==> len <= max
  {
    if len <= max {
      forall items, off | AllValid(v, items) && Codable(v, len, off)
        ensures BoundsAfter(v, items, len, off, max)
      {
        OnePieceCosts(v, items, len, off, max);
      }
    } else {
      PiecesCostMore(v, NoItems, len, 1, max);
    }
  }
}
