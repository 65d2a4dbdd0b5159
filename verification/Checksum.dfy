/** The Internet checksum (RFC 1071) and the IP and UDP headers of contrib/dhcp/common/packet.c. */
module Checksum {
  import opened Bytes

  // ---- sums of words ----

  /** The 16-bit word at `i`; a byte left over at the end is its high byte. */
  function WordAt(s: seq<byte>, i: nat): nat
    requires i < |s|
  {
    256 * s[i] as int + (if i + 1 < |s| then s[i + 1] else 0)
  }

  /** One's complement addition as the program does it. */
  function Plus(sum: nat, w: nat): nat { if sum + w > 0xffff then sum + w - 0xffff else sum + w }

  /** The sum of the words from `i` on, added to `sum`. */
  function Folded(s: seq<byte>, i: nat, sum: nat): nat
    decreases |s| - i
  {
    if i >= |s| then sum else Folded(s, i + 2, Plus(sum, WordAt(s, i)))
  }

  /** The plain sum of the words from `i` on. */
  function Total(s: seq<byte>, i: nat): nat
    decreases |s| - i
  {
    if i >= |s| then 0 else WordAt(s, i) + Total(s, i + 2)
  }

  /** The result stays within 16 bits, is the plain sum up to multiples of 65535, and is zero only for zeros. */
  lemma {:induction false} FoldedIs(s: seq<byte>, i: nat, sum: nat)
    requires sum <= 0xffff
    ensures Folded(s, i, sum) <= 0xffff
    ensures Folded(s, i, sum) % 0xffff == (sum + Total(s, i)) % 0xffff
    ensures Folded(s, i, sum) == 0 <==> sum == 0 && Total(s, i) == 0
    decreases |s| - i
  {
    if i < |s| {
      FoldedIs(s, i + 2, Plus(sum, WordAt(s, i)));
    }
  }

  lemma {:induction false} TotalIsZero(s: seq<byte>, i: nat)
    ensures Total(s, i) == 0 <==> forall k :: i <= k < |s| ==> s[k] == 0
    decreases |s| - i
  {
    if i < |s| {
      TotalIsZero(s, i + 2);
    }
  }

  /** The complement of the sum, as it goes into a header. */
  function Wrapped(sum: nat): nat { 0xffff - sum % 0x1_0000 }

  /** A header with its checksum in it is taken to be sound. */
  predicate Sound(h: seq<byte>) { Wrapped(Folded(h, 0, 0)) == 0 }

  lemma {:induction false} SoundIs(h: seq<byte>)
    ensures Sound(h) <==> Total(h, 0) > 0 && Total(h, 0) % 0xffff == 0
  {
    FoldedIs(h, 0, 0);
  }

  /** `h` with the word at `k` replaced by `w`. */
  function WithWord(h: seq<byte>, k: nat, w: nat): seq<byte>
    requires k + 1 < |h| && w <= 0xffff
  {
    h[k := w / 256][k + 1 := w % 256]
  }

  lemma {:induction false} TotalWithWord(h: seq<byte>, k: nat, w: nat, i: nat)
    requires k + 1 < |h| && w <= 0xffff && k % 2 == 0 && i % 2 == 0
    ensures Total(WithWord(h, k, w), i) == if i <= k then Total(h, i) - WordAt(h, k) + w else Total(h, i)
    decreases |h| - i
  {
    if i < |h| {
      TotalWithWord(h, k, w, i + 2);
    }
  }

  /** One's complement does not tell the two words apart, though they differ. */
  predicate Exchanged(was: nat, w: nat) { (was == 0 && w == 0xffff) || (was == 0xffff && w == 0) }

  /**
    * Changing one word of a sound header is noticed, unless one of 0x0000 and 0xFFFF is changed to the other and the
    * header does not become all zeros.
    */
  lemma {:induction false} WordChangeIsNoticed(h: seq<byte>, k: nat, w: nat)
    requires Sound(h) && k + 1 < |h| && k % 2 == 0 && w <= 0xffff && w != WordAt(h, k)
    ensures Sound(WithWord(h, k, w)) <==>
              && Exchanged(WordAt(h, k), w)
              && exists j :: 0 <= j < |h| && WithWord(h, k, w)[j] != 0
  {
    var g := WithWord(h, k, w);
    SoundIs(h);
    SoundIs(g);
    TotalWithWord(h, k, w, 0);
    TotalIsZero(g, 0);
    WordWithin(h, k, 0);
    Congruent(Total(h, 0), WordAt(h, k), w);
  }

  lemma {:induction false} Congruent(total: nat, was: nat, now: nat)
    requires total % 0xffff == 0 && was <= 0xffff && now <= 0xffff && was <= total && was != now
    ensures (total - was + now) % 0xffff == 0 <==> Exchanged(was, now)
  {
  }

  lemma {:induction false} WordWithin(s: seq<byte>, k: nat, i: nat)
    requires k < |s| && k % 2 == 0 && i % 2 == 0 && i <= k
    ensures WordAt(s, k) <= Total(s, i)
    decreases k - i
  {
    if i < k {
      WordWithin(s, k, i + 2);
    }
  }

  lemma {:induction false} TotalOfBoth(a: seq<byte>, b: seq<byte>, i: nat)
    requires |a| % 2 == 0 && i % 2 == 0 && i <= |a|
    ensures Total(a + b, i) == Total(a, i) + Total(b, 0)
    decreases |a| - i
  {
    if i < |a| {
      TotalOfBoth(a, b, i + 2);
    } else {
      TotalBehind(a, b, 0);
    }
  }

  lemma {:induction false} TotalBehind(a: seq<byte>, b: seq<byte>, i: nat)
    ensures Total(a + b, |a| + i) == Total(b, i)
    decreases |b| - i
  {
    if i < |b| {
      TotalBehind(a, b, i + 2);
    }
  }

  // ---- words that one's complement does not tell apart ----

  /** The sums are the same, or one is positive and the other 65535 more. */
  predicate Near(a: nat, b: nat) {
    || a == b <= 0x1_fffe
    || (0 < a <= 0xffff && b == a + 0xffff)
    || (0 < b <= 0xffff && a == b + 0xffff)
  }

  lemma {:induction false} NearFolded(s: seq<byte>, i: nat, a: nat, b: nat)
    requires Near(a, b)
    ensures Near(Folded(s, i, a), Folded(s, i, b))
    decreases |s| - i
  {
    if i < |s| {
      NearFolded(s, i + 2, Plus(a, WordAt(s, i)), Plus(b, WordAt(s, i)));
    }
  }

  /** An exchanged word leaves the sum near what it was. */
  lemma {:induction false} ExchangedFolded(s: seq<byte>, k: nat, w: nat, i: nat, sum: nat)
    requires k + 1 < |s| && k % 2 == 0 && i % 2 == 0 && w <= 0xffff && Exchanged(WordAt(s, k), w)
    requires 0 < sum <= 0x1_fffe
    ensures Near(Folded(s, i, sum), Folded(WithWord(s, k, w), i, sum))
    decreases |s| - i
  {
    if i < k {
      ExchangedFolded(s, k, w, i + 2, Plus(sum, WordAt(s, i)));
    } else if i == k {
      FoldedBehind(s, k, w, i + 2, Plus(sum, w));
      NearFolded(s, i + 2, Plus(sum, WordAt(s, i)), Plus(sum, w));
    } else {
      FoldedBehind(s, k, w, i, sum);
      NearFolded(s, i, sum, sum);
    }
  }

  lemma {:induction false} FoldedBehind(s: seq<byte>, k: nat, w: nat, i: nat, sum: nat)
    requires k + 1 < |s| && k % 2 == 0 && i % 2 == 0 && w <= 0xffff && i > k
    ensures Folded(WithWord(s, k, w), i, sum) == Folded(s, i, sum)
    decreases |s| - i
  {
    if i < |s| {
      FoldedBehind(s, k, w, i + 2, Plus(sum, WordAt(s, i)));
    }
  }

  /** A zero behind them makes sums that are near the same. */
  lemma {:induction false} NearMeets(h: seq<byte>, a: nat, b: nat)
    requires |h| == 8 && h[6] == 0 && h[7] == 0 && Near(a, b)
    ensures Folded(h, 0, a) == Folded(h, 0, b)
  {
    var a2, b2 := Plus(a, WordAt(h, 0)), Plus(b, WordAt(h, 0));
    var a4, b4 := Plus(a2, WordAt(h, 2)), Plus(b2, WordAt(h, 2));
    var a6, b6 := Plus(a4, WordAt(h, 4)), Plus(b4, WordAt(h, 4));
    assert Folded(h, 0, a) == Folded(h, 4, a4) && Folded(h, 0, b) == Folded(h, 4, b4);
    assert Folded(h, 4, a4) == Folded(h, 6, a6) == Plus(a6, 0) && Folded(h, 4, b4) == Folded(h, 6, b6) == Plus(b6, 0);
  }
}
