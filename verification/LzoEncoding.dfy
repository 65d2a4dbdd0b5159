/**
 What the compressor of minilzo.c writes, piece by piece, and what the decoder
 does when it meets each piece.
 */
module LzoEncoding {
  import opened Bytes
  import opened Overlap
  import opened LzoFormat

  // ----- the pieces

  /** A positive length in zero bytes, each worth 255, and one nonzero byte. */
  function Extension(v: int): (r: seq<byte>)
    requires v > 0
    ensures |r| >= 1 && 255 * |r| <= v + 254
  {
    if v > 255 then [0] + Extension(v - 255) else [v]
  }

  /** The announcement of `t` literals; up to three are announced in the match before them. */
  function RunHeader(t: nat): (r: seq<byte>)
    ensures t <= 18 ==> |r| <= 1
    ensures t > 18 ==> 255 * |r| <= t + 491
  {
    if t <= 3 then [] else if t <= 18 then [t - 3] else [0] + Extension(t - 18)
  }

  /** The two offset bytes of an M3 or M4 match; the second is truncated to eight bits. */
  function OffsetBytes(off: nat): seq<byte> {
    [off % 64 * 4, off / 64 % 256]
  }

  /** Opcode and length of an M3 or M4 match whose opcode can hold lengths up to `base`. */
  function LengthBytes(marker: byte, base: nat, len: nat): (r: seq<byte>)
    requires len >= 2 && marker + base - 2 < 256
    ensures |r| >= 1 && r[0] >= marker
    ensures len > base ==> 255 * |r| <= len - base + 509
    ensures len <= base ==> |r| == 1
  {
    if len <= base then [marker + len - 2] else [marker] + Extension(len - base)
  }

  /** A match as the compressor codes it: M2 for short and near ones, then M3, then M4. */
  function MatchBytes(off: nat, len: nat): (r: seq<byte>)
    requires 1 <= off <= M4_MAX_OFFSET && len >= 3
    ensures |r| >= 2 && r[0] >= 16 && r[|r| - 2] % 4 == 0
    ensures (len > 3 || off <= M2_MAX_OFFSET) ==> |r| < len
  {
    if len <= M2_MAX_LEN && off <= M2_MAX_OFFSET then
      [(len - 1) * 32 + (off - 1) % 8 * 4, (off - 1) / 8]
    else if off <= M3_MAX_OFFSET then
      LengthBytes(M3_MARKER, M3_MAX_LEN, len) + OffsetBytes(off - 1)
    else
      LengthBytes(M4_MARKER + (off - 0x4000) / 0x4000 * 8, M4_MAX_LEN, len) + OffsetBytes(off - 0x4000)
  }

  const END_OF_STREAM: seq<byte> := [M4_MARKER + 1, 0, 0]

  /** `b | t` for a `t` of two bits. */
  function OrLowBits(b: byte, t: nat): byte
    requires t <= 3
  {
    b / 4 * 4
    + (if b / 2 % 2 == 1 || t / 2 == 1 then 2 else 0)
    + (if b % 2 == 1 || t % 2 == 1 then 1 else 0)
  }

  // ----- the decoder's position after a prefix

  /** `s` continues `p`; two bits of `p` may still change while the decoder stands behind a match. */
  ghost predicate Continues(s: seq<byte>, p: seq<byte>, mode: Mode) {
    && |p| <= |s|
    && (p == [] ==> s != [] && s[0] <= 17)
    && if mode == MatchDone
       then |p| >= 2 && s[..|p| - 2] == p[..|p| - 2] && s[|p| - 1] == p[|p| - 1]
            && s[|p| - 2] / 4 == p[|p| - 2] / 4
       else p <= s
  }

  /** However the stream goes on after `p`, the decoder reaches the end of `p` in `mode`, having written `out`. */
  ghost predicate Leads(p: seq<byte>, out: seq<byte>, mode: Mode) {
    && (mode == MatchDone ==> |p| >= 2 && p[|p| - 2] % 4 == 0)
    && forall s: seq<byte> {:trigger Continues(s, p, mode)} ::
         Continues(s, p, mode) ==> Decode(s) == Run(s, |p|, out, mode)
  }

  lemma {:induction false} ReadsExtension(s: seq<byte>, ip: nat, t: nat, v: int)
    requires v > 0 && At(s, ip, Extension(v))
    ensures Extended(s, ip, t) == Some((t + v, ip + |Extension(v)|))
    decreases v
  {
    assert s[ip] == Extension(v)[0];
    if v > 255 {
      AtConcat(s, ip, [0], Extension(v - 255));
      ReadsExtension(s, ip + 1, t + 255, v - 255);
    }
  }

  lemma {:induction false} StartLeads()
    ensures Leads([], [], Outer)
  {
  }

  /** An opening of at most 238 literals, announced in the first byte. */
  lemma {:induction false} OpeningLeads(lits: seq<byte>)
    requires 1 <= |lits| <= 238
    ensures Leads([17 + |lits|] + lits, lits, if |lits| < 4 then Inner else FirstLiteralRun)
  {
    var p: seq<byte> := [17 + |lits|] + lits;
    forall s: seq<byte> | p <= s
      ensures Decode(s) == Run(s, |p|, lits, if |lits| < 4 then Inner else FirstLiteralRun)
    {
      assert s[..|p|] == p;
      assert s[1..|p|] == p[1..] == lits;
    }
  }

  /** `q` takes the decoder one step further than `p`. */
  ghost predicate OneStep(s: seq<byte>, p: seq<byte>, out: seq<byte>, mode: Mode,
                          q: seq<byte>, out': seq<byte>, mode': Mode) {
    Continues(s, p, mode) && Step(s, |p|, out, mode) == Go(|q|, out', mode')
  }

  lemma {:induction false} Advance(p: seq<byte>, out: seq<byte>, mode: Mode, q: seq<byte>, out': seq<byte>, mode': Mode)
    requires Leads(p, out, mode)
    requires mode' == MatchDone ==> |q| >= 2 && q[|q| - 2] % 4 == 0
    requires forall s: seq<byte> :: Continues(s, q, mode') ==> OneStep(s, p, out, mode, q, out', mode')
    ensures Leads(q, out', mode')
  {
  }

  lemma {:induction false} ReadsRun(s: seq<byte>, ip: nat, out: seq<byte>, lits: seq<byte>)
    requires |lits| >= 4 && At(s, ip, RunHeader(|lits|) + lits)
    ensures Step(s, ip, out, Outer) == Go(ip + |RunHeader(|lits|)| + |lits|, out + lits, FirstLiteralRun)
  {
    var h := RunHeader(|lits|);
    AtConcat(s, ip, h, lits);
    assert s[ip] == h[0];
    assert s[ip + |h|..ip + |h| + |lits|] == lits;
    if |lits| > 18 {
      AtConcat(s, ip, [0], Extension(|lits| - 18));
      ReadsExtension(s, ip + 1, 15, |lits| - 18);
    }
  }

  /** Four or more literals: a run with its own header. */
  lemma {:induction false} RunLeads(p: seq<byte>, out: seq<byte>, lits: seq<byte>)
    requires Leads(p, out, Outer) && |lits| >= 4
    ensures Leads(p + RunHeader(|lits|) + lits, out + lits, FirstLiteralRun)
  {
    var x := RunHeader(|lits|) + lits;
    var q := p + RunHeader(|lits|) + lits;
    forall s: seq<byte> | Continues(s, q, FirstLiteralRun)
      ensures OneStep(s, p, out, Outer, q, out + lits, FirstLiteralRun)
    {
      assert s[|p|..|p| + |x|] == s[..|q|][|p|..] == q[|p|..] == x;
      assert s[|p|] == x[0];
      assert p == q[..|p|] == s[..|q|][..|p|] == s[..|p|];
      ReadsRun(s, |p|, out, lits);
    }
    Advance(p, out, Outer, q, out + lits, FirstLiteralRun);
  }

  /** No literals after a match. */
  lemma {:induction false} NoLiteralsLead(p: seq<byte>, out: seq<byte>)
    requires Leads(p, out, MatchDone)
    ensures Leads(p, out, Outer)
  {
    forall s: seq<byte> | Continues(s, p, Outer)
      ensures OneStep(s, p, out, MatchDone, p, out, Outer)
    {
      assert s[|p| - 2] == s[..|p|][|p| - 2];
      assert s[..|p| - 2] == s[..|p|][..|p| - 2];
      assert s[|p| - 1] == s[..|p|][|p| - 1];
    }
    Advance(p, out, MatchDone, p, out, Outer);
  }

  /** One to three literals after a match: their number goes into the match, two bytes back. */
  lemma {:induction false} PatchLeads(p: seq<byte>, out: seq<byte>, lits: seq<byte>)
    requires Leads(p, out, MatchDone) && 1 <= |lits| <= 3
    ensures Leads(p[|p| - 2 := OrLowBits(p[|p| - 2], |lits|)] + lits, out + lits, Inner)
  {
    var n := |p|;
    var q := p[n - 2 := OrLowBits(p[n - 2], |lits|)] + lits;
    forall s: seq<byte> | Continues(s, q, Inner)
      ensures OneStep(s, p, out, MatchDone, q, out + lits, Inner)
    {
      assert forall i :: 0 <= i < |q| ==> s[i] == q[i];
      assert s[..n - 2] == p[..n - 2];
      assert s[n..n + |lits|] == lits;
    }
    Advance(p, out, MatchDone, q, out + lits, Inner);
  }

  /** `m` stands in `s` at `n`, but for the two low bits of its last byte but one. */
  ghost predicate NearlyAt(s: seq<byte>, n: nat, m: seq<byte>) {
    && |m| >= 2 && n + |m| <= |s|
    && s[n..n + |m| - 2] == m[..|m| - 2]
    && s[n + |m| - 2] / 4 == m[|m| - 2] / 4
    && s[n + |m| - 1] == m[|m| - 1]
  }

  lemma {:induction false} ReadsM2(s: seq<byte>, n: nat, off: nat, len: nat, mode: Mode)
    requires 1 <= off <= M2_MAX_OFFSET && 3 <= len <= M2_MAX_LEN
    requires NearlyAt(s, n, MatchBytes(off, len))
    ensures s[n] >= 16 && Fetch(s, n + 1, s[n], mode) == Match(off, len, n + 2)
  {
  }

  /** The short matches, which only other compressors write: three bytes behind a run of literals, two elsewhere. */
  lemma {:induction false} ReadsShort(s: seq<byte>, n: nat, off: nat, mode: Mode)
    requires 1 <= off <= 0x400 && (mode == FirstLiteralRun || mode == Inner)
    requires NearlyAt(s, n, [4 * ((off - 1) % 4), (off - 1) / 4])
    ensures Fetch(s, n + 1, s[n], mode)
         == if mode == FirstLiteralRun then Match(M2_MAX_OFFSET + off, 3, n + 2) else Match(off, 2, n + 2)
  {
  }

  /** The length field of an M3 or M4 match, with `base` the length it can hold. */
  lemma {:induction false} ReadsLength(s: seq<byte>, n: nat, marker: byte, base: nat, len: nat, tail: seq<byte>)
    requires len > base >= 2 && |tail| == 2
    requires NearlyAt(s, n, [marker] + Extension(len - base) + tail)
    ensures s[n] == marker
    ensures Extended(s, n + 1, base - 2) == Some((len - 2, n + 1 + |Extension(len - base)|))
  {
    var e := Extension(len - base);
    var m := [marker] + e + tail;
    assert s[n] == s[n..n + |m| - 2][0] == m[0];
    assert s[n + 1..n + 1 + |e|] == s[n..n + |m| - 2][1..] == m[..|m| - 2][1..] == e;
    ReadsExtension(s, n + 1, base - 2, len - base);
  }

  /** An M3 opcode with first byte `t` and length `len`, its offset bytes at `q`. */
  lemma {:induction false} FetchesM3(s: seq<byte>, n: nat, t: byte, q: nat, len: nat, off: nat, mode: Mode)
    requires 1 <= off <= M3_MAX_OFFSET && len >= 3 && n < |s|
    requires 32 <= t < 64
    requires Length(s, n + 1, t % 32, 31) == Some((len - 2, q)) && q + 2 <= |s|
    requires s[q] / 4 == (off - 1) % 64 && s[q + 1] == (off - 1) / 64
    ensures Fetch(s, n + 1, t, mode) == Match(off, len, q + 2)
  {
  }

  lemma {:induction false} ReadsM3(s: seq<byte>, n: nat, off: nat, len: nat, mode: Mode)
    requires 1 <= off <= M3_MAX_OFFSET && len >= 3 && (len > M2_MAX_LEN || off > M2_MAX_OFFSET)
    requires NearlyAt(s, n, MatchBytes(off, len))
    ensures s[n] >= 16
    ensures Fetch(s, n + 1, s[n], mode) == Match(off, len, n + |MatchBytes(off, len)|)
  {
    var m, tail := MatchBytes(off, len), OffsetBytes(off - 1);
    if len > M3_MAX_LEN {
      ReadsLength(s, n, M3_MARKER, M3_MAX_LEN, len, tail);
    } else {
      assert s[n] == s[n..n + |m| - 2][0] == m[0] == M3_MARKER + len - 2;
    }
    FetchesM3(s, n, s[n], n + |m| - 2, len, off, mode);
  }

  /** The far offset of an M4 match: fifteen bits, the highest of them in the first byte. */
  lemma {:induction false} FarOffset(off: nat)
    requires M3_MAX_OFFSET < off <= M4_MAX_OFFSET
    ensures (off - 0x4000) / 0x4000 <= 1
    ensures (off - 0x4000) / 0x4000 * 0x4000 + (off - 0x4000) % 64 + 64 * ((off - 0x4000) / 64 % 256) == off - 0x4000
  {
  }

  /** An M4 opcode with first byte `t` and length `len`, its offset bytes at `q`. */
  lemma {:induction false} FetchesM4(s: seq<byte>, n: nat, t: byte, q: nat, len: nat, off: nat, mode: Mode)
    requires M3_MAX_OFFSET < off <= M4_MAX_OFFSET && len >= 3 && n < |s|
    requires 16 <= t < 32 && t / 8 % 2 == (off - 0x4000) / 0x4000
    requires Length(s, n + 1, t % 8, 7) == Some((len - 2, q)) && q + 2 <= |s|
    requires s[q] / 4 == (off - 0x4000) % 64 && s[q + 1] == (off - 0x4000) / 64 % 256
    ensures Fetch(s, n + 1, t, mode) == Match(off, len, q + 2)
  {
    FarOffset(off);
  }

  lemma {:induction false} ReadsM4(s: seq<byte>, n: nat, off: nat, len: nat, mode: Mode)
    requires M3_MAX_OFFSET < off <= M4_MAX_OFFSET && len >= 3
    requires NearlyAt(s, n, MatchBytes(off, len))
    ensures s[n] >= 16
    ensures Fetch(s, n + 1, s[n], mode) == Match(off, len, n + |MatchBytes(off, len)|)
  {
    var m, tail := MatchBytes(off, len), OffsetBytes(off - 0x4000);
    var first: byte := M4_MARKER + (off - 0x4000) / 0x4000 * 8;
    if len > M4_MAX_LEN {
      ReadsLength(s, n, first, M4_MAX_LEN, len, tail);
    } else {
      assert s[n] == s[n..n + |m| - 2][0] == m[0] == first + len - 2;
    }
    FetchesM4(s, n, s[n], n + |m| - 2, len, off, mode);
  }

  /** The decoder reads a match back whatever the two low bits of its last byte but one. */
  lemma {:induction false} ReadsMatch(s: seq<byte>, n: nat, off: nat, len: nat, mode: Mode)
    requires 1 <= off <= M4_MAX_OFFSET && len >= 3
    requires NearlyAt(s, n, MatchBytes(off, len))
    ensures s[n] >= 16
    ensures Fetch(s, n + 1, s[n], mode) == Match(off, len, n + |MatchBytes(off, len)|)
  {
    if len <= M2_MAX_LEN && off <= M2_MAX_OFFSET {
      ReadsM2(s, n, off, len, mode);
    } else if off <= M3_MAX_OFFSET {
      ReadsM3(s, n, off, len, mode);
    } else {
      ReadsM4(s, n, off, len, mode);
    }
  }

  lemma {:induction false} StepsOverMatch(s: seq<byte>, n: nat, out: seq<byte>, mode: Mode, off: nat, len: nat)
    requires mode != MatchDone && 1 <= off <= M4_MAX_OFFSET && off <= |out| && len >= 3
    requires NearlyAt(s, n, MatchBytes(off, len))
    ensures Step(s, n, out, mode) == Go(n + |MatchBytes(off, len)|, Copy(out, off, len), MatchDone)
  {
    ReadsMatch(s, n, off, len, mode);
  }

  /** Appending a match `m` to `p`: what continues the one continues the other. */
  lemma {:induction false} ContinuesAppended(s: seq<byte>, p: seq<byte>, m: seq<byte>, mode: Mode)
    requires p != [] && mode != MatchDone && |m| >= 2 && Continues(s, p + m, MatchDone)
    ensures Continues(s, p, mode) && NearlyAt(s, |p|, m)
  {
  }

  lemma {:induction false} MatchLeads(p: seq<byte>, out: seq<byte>, mode: Mode, off: nat, len: nat)
    requires p != [] && mode != MatchDone && Leads(p, out, mode)
    requires 1 <= off <= M4_MAX_OFFSET && off <= |out| && len >= 3
    ensures Leads(p + MatchBytes(off, len), Copy(out, off, len), MatchDone)
  {
    var m, copied := MatchBytes(off, len), Copy(out, off, len);
    forall s: seq<byte> | Continues(s, p + m, MatchDone)
      ensures OneStep(s, p, out, mode, p + m, copied, MatchDone)
    {
      ContinuesAppended(s, p, m, mode);
      StepsOverMatch(s, |p|, out, mode, off, len);
    }
    Advance(p, out, mode, p + m, copied, MatchDone);
  }

  /** The end-of-stream code is never taken for a match, and nothing before it for the end. */
  lemma {:induction false} EndLeads(p: seq<byte>, out: seq<byte>, mode: Mode)
    requires mode != MatchDone && Leads(p, out, mode)
    ensures Decode(p + END_OF_STREAM) == Eof(out, |p| + 3)
  {
    var s := p + END_OF_STREAM;
    assert s[..|p|] == p;
    assert Continues(s, p, mode);
    assert s[|p|] == 17 && s[|p| + 1] == 0 && s[|p| + 2] == 0;
    assert Fetch(s, |p| + 1, 17, mode) == EndOfStream(|p| + 3);
  }
}
