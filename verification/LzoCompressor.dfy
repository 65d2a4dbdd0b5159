/** The compressor of minilzo.c: `do_compress` and `lzo1x_1_compress`. */
module LzoCompressor {
  import opened Bytes
  import opened Overlap
  import opened LzoFormat
  import opened LzoEncoding
  import opened LzoBlocks

  /** The dictionary index of four bytes, and the second index tried after a miss. */
  datatype Hashing = Hashing(first: (byte, byte, byte, byte) -> nat, second: nat -> nat)
  {
    ghost predicate Fits(size: nat) {
      && (forall a, b, c, d :: first(a, b, c, d) < size)
      && (forall i :: second(i) < size)
    }
  }

  /** A length above 255 in zero bytes and a remainder. */
  method PutExtension(out: array<byte>, op: nat, v: nat) returns (op': nat)
    requires v > 0 && op + |Extension(v)| <= out.Length
    modifies out
    ensures op' == op + |Extension(v)|
    ensures out[..op'] == old(out[..op]) + Extension(v)
  {
    var tt := v;
    op' := op;
    while tt > 255
      invariant 0 < tt && op <= op' && op' + |Extension(tt)| == op + |Extension(v)|
      invariant out[..op'] + Extension(tt) == old(out[..op]) + Extension(v)
    {
      assert out[..op'] + Extension(tt) == out[..op'] + [0] + Extension(tt - 255);
      tt := tt - 255;
      out[op'] := 0;
      op' := op' + 1;
    }
    out[op'] := tt;
    op' := op' + 1;
  }

  method PutLiterals(src: array<byte>, ii: nat, out: array<byte>, op: nat, t: nat) returns (op': nat)
    requires src != out && ii + t <= src.Length && op + t <= out.Length
    modifies out
    ensures op' == op + t
    ensures out[..op'] == old(out[..op]) + src[ii..ii + t]
  {
    op' := op;
    while op' < op + t
      invariant op <= op' <= op + t
      invariant out[..op'] == old(out[..op]) + src[ii..ii + (op' - op)]
    {
      out[op'] := src[ii + (op' - op)];
      op' := op' + 1;
    }
  }

  method PutLength(out: array<byte>, op: nat, marker: byte, base: nat, m_len: nat) returns (op': nat)
    requires m_len >= 2 && marker + base - 2 < 256
    requires op + |LengthBytes(marker, base, m_len)| <= out.Length
    modifies out
    ensures op' == op + |LengthBytes(marker, base, m_len)|
    ensures out[..op'] == old(out[..op]) + LengthBytes(marker, base, m_len)
  {
    if m_len <= base {
      out[op] := marker + m_len - 2;
      op' := op + 1;
    } else {
      out[op] := marker;
      op' := PutExtension(out, op + 1, m_len - base);
    }
  }

  method PutTwo(out: array<byte>, op: nat, x: byte, y: byte) returns (op': nat)
    requires op + 2 <= out.Length
    modifies out
    ensures op' == op + 2
    ensures out[..op'] == old(out[..op]) + [x, y]
  {
    out[op] := x;
    out[op + 1] := y;
    op' := op + 2;
  }

  /** The code at `m3_m4_len` and `m3_m4_offset`. */
  method PutFar(out: array<byte>, op: nat, marker: byte, base: nat, len: nat, m_off: nat) returns (op': nat)
    requires len >= 2 && marker + base - 2 < 256
    requires op + |LengthBytes(marker, base, len)| + 2 <= out.Length
    modifies out
    ensures op' == op + |LengthBytes(marker, base, len)| + 2
    ensures out[..op'] == old(out[..op]) + (LengthBytes(marker, base, len) + OffsetBytes(m_off))
  {
    op' := PutLength(out, op, marker, base, len);
    op' := PutTwo(out, op', m_off % 64 * 4, m_off / 64 % 256);
  }

  method PutMatch(out: array<byte>, op: nat, off: nat, len: nat) returns (op': nat)
    requires 1 <= off <= M4_MAX_OFFSET && len >= 3
    requires op + |MatchBytes(off, len)| <= out.Length
    modifies out
    ensures op' == op + |MatchBytes(off, len)|
    ensures out[..op'] == old(out[..op]) + MatchBytes(off, len)
  {
    if len <= M2_MAX_LEN && off <= M2_MAX_OFFSET {
      op' := PutTwo(out, op, (len - 1) * 32 + (off - 1) % 8 * 4, (off - 1) / 8);
    } else if off <= M3_MAX_OFFSET {
      op' := PutFar(out, op, M3_MARKER, M3_MAX_LEN, len, off - 1);
    } else {
      op' := PutFar(out, op, M4_MARKER + (off - 0x4000) / 0x4000 * 8, M4_MAX_LEN, len, off - 0x4000);
    }
  }

  method PutHeader(out: array<byte>, op: nat, t: nat) returns (op': nat)
    requires t > 3 && op + |RunHeader(t)| <= out.Length
    modifies out
    ensures op' == op + |RunHeader(t)|
    ensures out[..op'] == old(out[..op]) + RunHeader(t)
  {
    if t <= 18 {
      out[op] := t - 3;
      op' := op + 1;
    } else {
      out[op] := 0;
      op' := PutExtension(out, op + 1, t - 18);
    }
  }

  /** Announce and write the literals `src[ii..ip]` that stand before a match or the end. */
  method PutRun(src: array<byte>, ii: nat, ip: nat, out: array<byte>, op: nat) returns (op': nat)
    requires src != out && ii < ip <= src.Length
    requires op + |RunHeader(ip - ii)| + (ip - ii) <= out.Length
    requires ip - ii <= 3 ==> 2 <= op
    modifies out
    ensures op' == op + |RunHeader(ip - ii)| + (ip - ii)
    ensures out[..op'] == WithRun(old(out[..op]), src[ii..ip])
  {
    var t := ip - ii;
    if t <= 3 {
      out[op - 2] := OrLowBits(out[op - 2], t);
      op' := op;
    } else {
      op' := PutHeader(out, op, t);
    }
    op' := PutLiterals(src, ii, out, op', t);
  }

  // ----- the compressor

  /** There is a match to take at `p`: within reach, three bytes long, and four where three would not save a byte. */
  predicate Matches(src: seq<byte>, p: int, ip: nat)
    requires ip + 4 <= |src|
  {
    && 0 <= p < ip && ip - p <= M4_MAX_OFFSET
    && src[p] == src[ip] && src[p + 1] == src[ip + 1] && src[p + 2] == src[ip + 2]
    && (ip - p <= M2_MAX_OFFSET || src[p + 3] == src[ip + 3])
  }

  /** The position `p` is within reach, but a match there would have to be long, and its fourth byte differs. */
  predicate TooShort(src: seq<byte>, p: int, ip: nat)
    requires ip + 4 <= |src|
  {
    0 <= p < ip && M2_MAX_OFFSET < ip - p <= M4_MAX_OFFSET && src[p + 3] != src[ip + 3]
  }

  /**
    * Look the four bytes at `ip` up, twice if need be, and compare. The dictionary may hold anything: positions of an
    * earlier call, or none at all. A match is found exactly if the first slot has one, or else has a position with
    * another fourth byte that is too far away for less, and the second slot has one.
    */
  method FindMatch(src: array<byte>, ip: nat, dict: array<int>, hash: Hashing)
    returns (found: bool, dindex: nat, m_pos: int)
    requires 4 <= ip && ip + 4 <= src.Length && hash.Fits(dict.Length)
    ensures dindex < dict.Length && m_pos == dict[dindex]
    ensures var first := hash.first(src[ip], src[ip + 1], src[ip + 2], src[ip + 3]);
            dindex == if TooShort(src[..], dict[first], ip) then hash.second(first) else first
    ensures found <==> Matches(src[..], m_pos, ip)
  {
    dindex := hash.first(src[ip], src[ip + 1], src[ip + 2], src[ip + 3]);
    m_pos := dict[dindex];
    if m_pos < 0 || ip - m_pos <= 0 || ip - m_pos > M4_MAX_OFFSET {
      return false, dindex, m_pos;
    }
    if !(ip - m_pos <= M2_MAX_OFFSET || src[m_pos + 3] == src[ip + 3]) {
      dindex := hash.second(dindex);
      m_pos := dict[dindex];
      if m_pos < 0 || ip - m_pos <= 0 || ip - m_pos > M4_MAX_OFFSET {
        return false, dindex, m_pos;
      }
      if !(ip - m_pos <= M2_MAX_OFFSET || src[m_pos + 3] == src[ip + 3]) {
        return false, dindex, m_pos;
      }
    }
    found := src[m_pos] == src[ip] && src[m_pos + 1] == src[ip + 1] && src[m_pos + 2] == src[ip + 2];
  }

  /** All bytes are equal. */
  ghost predicate Uniform(src: seq<byte>) { forall i :: 0 <= i < |src| ==> src[i] == src[0] }

  /** How far the match at `m_pos` goes: up to M2_MAX_LEN bytes first, and then to the end. */
  method ExtendMatch(src: array<byte>, n: nat, m_pos: nat, ii: nat, ghost s: seq<byte>) returns (ip: nat)
    requires m_pos < ii && ii + M2_MAX_LEN + 1 <= n == src.Length && s == src[..]
    requires forall k :: ii <= k < ii + 3 ==> s[k] == s[k - (ii - m_pos)]
    ensures ii + 3 <= ip <= n
    ensures forall k :: ii <= k < ip ==> s[k] == s[k - (ii - m_pos)]
    ensures ip == n || s[ip] != s[ip - (ii - m_pos)]
    ensures s[m_pos + 3] == s[ii + 3] ==> ip > ii + 3
  {
    ip := ii + 3;
    while ip < ii + M2_MAX_LEN + 1 && src[m_pos + (ip - ii)] == src[ip]
      invariant ii + 3 <= ip <= ii + M2_MAX_LEN + 1
      invariant forall k :: ii <= k < ip ==> s[k] == s[k - (ii - m_pos)]
    {
      ip := ip + 1;
    }
    if ip == ii + M2_MAX_LEN + 1 {
      var m := m_pos + M2_MAX_LEN + 1;
      while ip < n && src[m] == src[ip]
        invariant ii + M2_MAX_LEN + 1 <= ip <= n && m == ip - (ii - m_pos)
        invariant forall k :: ii <= k < ip ==> s[k] == s[k - (ii - m_pos)]
      {
        m, ip := m + 1, ip + 1;
      }
    }
  }

  /** `c` stands for the first `i` bytes of `src`, and `p` is what has been written for it. */
  ghost predicate Coded(c: Coding, p: seq<byte>, src: seq<byte>, i: nat) {
    i <= |src| && Sound(c) && p == Written(c) && Plain(c) == src[..i]
  }

  /** The literals before a match or the end, if there are any. */
  method PutLiteralsBefore(src: array<byte>, ii: nat, ip: nat, out: array<byte>, op: nat) returns (op': nat)
    requires src != out && ii <= ip <= src.Length
    requires op + |RunHeader(ip - ii)| + (ip - ii) <= out.Length
    requires ip - ii <= 3 ==> ii == ip || 2 <= op
    modifies out
    ensures op <= op' <= op + |RunHeader(ip - ii)| + (ip - ii)
    ensures out[..op'] == WithRun(old(out[..op]), src[ii..ip])
  {
    op' := op;
    if ip - ii > 0 {
      op' := PutRun(src, ii, ip, out, op);
    }
  }

  lemma {:induction false} NextBlock(c: Coding, p: seq<byte>, src: seq<byte>, ii: nat, ip: nat, off: nat, len: nat)
    requires Coded(c, p, src, ii) && ii <= ip && ip + len <= |src| && (ii == 0 ==> ip >= 4)
    requires 1 <= off <= M4_MAX_OFFSET && off <= ip && len >= 3 && (len > 3 || off <= M2_MAX_OFFSET)
    requires forall k :: ip <= k < ip + len ==> src[k] == src[k - off]
    ensures Coded(Block(c, src[ii..ip], off, len), WithRun(p, src[ii..ip]) + MatchBytes(off, len), src, ip + len)
  {
    assert PlainLength(c) == ii;
    assert src[..ii] + src[ii..ip] == src[..ip];
    CopyReproduces(src, ip, off, len);
  }

  lemma {:induction false} NextBlockCost(c: Coding, p: seq<byte>, src: seq<byte>, ii: nat, ip: nat, off: nat, len: nat)
    requires Coded(c, p, src, ii) && ii <= ip && ip + len <= |src| && (ii == 0 ==> ip >= 4)
    requires 1 <= off <= M4_MAX_OFFSET && len >= 3 && (len > 3 || off <= M2_MAX_OFFSET)
    ensures 16 * (|p| + |RunHeader(ip - ii)| + (ip - ii) + |MatchBytes(off, len)|) <= 17 * (ip + len)
    ensures ii == ip || ip - ii > 3 || |p| >= 2
  {
    assert PlainLength(c) == ii;
    BlocksCost(c);
    BlockCost(ip - ii, off, len);
  }

  /** Write the block of literals `src[ii..ip]` and the match of length `len` at `ip`. */
  method PutBlock(src: array<byte>, ii: nat, ip: nat, off: nat, len: nat, out: array<byte>, op: nat)
    returns (op': nat)
    requires src != out && ii <= ip <= src.Length && 1 <= off <= M4_MAX_OFFSET && len >= 3
    requires op + |RunHeader(ip - ii)| + (ip - ii) + |MatchBytes(off, len)| <= out.Length
    requires ip - ii <= 3 ==> ii == ip || 2 <= op
    modifies out
    ensures op' <= out.Length
    ensures out[..op'] == WithRun(old(out[..op]), src[ii..ip]) + MatchBytes(off, len)
  {
    op' := PutLiteralsBefore(src, ii, ip, out, op);
    op' := PutMatch(out, op', off, len);
  }

  /** The same, for a match of `len` bytes that is there. */
  method CodeBlock(src: array<byte>, ii: nat, ip: nat, off: nat, len: nat, out: array<byte>, op: nat, ghost c: Coding,
                   ghost s: seq<byte>)
    returns (op': nat, ghost c': Coding)
    requires src != out && s == src[..] && ii <= ip && ip + len <= src.Length && (ii == 0 ==> ip >= 4)
    requires 1 <= off <= M4_MAX_OFFSET && off <= ip && len >= 3 && (len > 3 || off <= M2_MAX_OFFSET)
    requires forall k :: ip <= k < ip + len ==> s[k] == s[k - off]
    requires op <= out.Length && 16 * out.Length >= 17 * (ip + len) && Coded(c, out[..op], s, ii)
    modifies out
    ensures op' <= out.Length && Coded(c', out[..op'], s, ip + len) && c' == Block(c, s[ii..ip], off, len)
  {
    ghost var p := out[..op];
    assert src[ii..ip] == s[ii..ip];
    NextBlockCost(c, p, s, ii, ip, off, len);
    NextBlock(c, p, s, ii, ip, off, len);
    c' := Block(c, s[ii..ip], off, len);
    op' := PutBlock(src, ii, ip, off, len, out, op);
  }

  lemma {:induction false} MatchIsCopy(s: seq<byte>, p: nat, ip: nat)
    requires ip + 4 <= |s| && Matches(s, p, ip)
    ensures p < ip && ip - p <= M4_MAX_OFFSET && (ip - p <= M2_MAX_OFFSET || s[p + 3] == s[ip + 3])
    ensures forall k :: ip <= k < ip + 3 ==> s[k] == s[k - (ip - p)]
  {
  }

  /** `match`: find the length of the match and write its block. */
  method CodeMatch(src: array<byte>, n: nat, ii: nat, ip: nat, m_pos: nat, out: array<byte>, op: nat, ghost c: Coding,
                   ghost s: seq<byte>)
    returns (ip': nat, op': nat, ghost c': Coding)
    requires src != out && n == src.Length && s == src[..] && ii <= ip && 4 <= ip && ip + M2_MAX_LEN + 1 <= n
    requires Matches(s, m_pos, ip)
    requires op <= out.Length && 16 * out.Length >= 17 * n && Coded(c, out[..op], s, ii)
    modifies out
    ensures ip < ip' <= n && op' <= out.Length && Coded(c', out[..op'], s, ip')
    ensures c' == Block(c, s[ii..ip], ip - m_pos, ip' - ip) && (Uniform(s) ==> ip' == n)
  {
    MatchIsCopy(s, m_pos, ip);
    ip' := ExtendMatch(src, n, m_pos, ip, s);
    op', c' := CodeBlock(src, ii, ip, ip - m_pos, ip' - ip, out, op, c, s);
  }

  lemma {:induction false} UniformMatches(s: seq<byte>, p: int, ip: nat)
    requires Uniform(s) && ip + 4 <= |s|
    ensures Matches(s, p, ip) <==> 0 <= p < ip && ip - p <= M4_MAX_OFFSET
    ensures !TooShort(s, p, ip)
  {
  }

  /** Look for a match, and enter the position in the slot that was looked at last. */
  method Probe(src: array<byte>, ip: nat, dict: array<int>, hash: Hashing, ghost s: seq<byte>)
    returns (found: bool, m_pos: int)
    requires 4 <= ip && ip + 4 <= src.Length && s == src[..] && hash.Fits(dict.Length)
    modifies dict
    ensures found <==> Matches(s, m_pos, ip)
    ensures Uniform(s) ==>
              var first := hash.first(s[0], s[0], s[0], s[0]);
              m_pos == old(dict[first]) && dict[first] == ip
  {
    var dindex;
    found, dindex, m_pos := FindMatch(src, ip, dict, hash);
    if Uniform(s) {
      UniformMatches(s, dict[hash.first(s[0], s[0], s[0], s[0])], ip);
    }
    dict[dindex] := ip;
  }

  /** Four or five literals and one match for all the rest, from as few bytes back. */
  ghost predicate OneMatch(c: Coding, n: nat) {
    && c.Block? && c.before == Nothing && 4 <= |c.lits| <= 5
    && 1 <= c.off <= |c.lits| && c.len + |c.lits| == n
  }

  /** Where all bytes are equal: nothing is coded yet, and the second look will find the place of the first. */
  ghost predicate Started(s: seq<byte>, ii: nat, ip: nat, dict: array<int>, hash: Hashing, c: Coding)
    requires |s| > 0 && hash.Fits(dict.Length)
    reads dict
  {
    Uniform(s) ==>
      && ii == 0 && c == Nothing && 4 <= ip <= 5
      && (ip == 5 ==> dict[hash.first(s[0], s[0], s[0], s[0])] == 4)
  }

  /** One turn of the main loop: a match is coded as far as it goes, or one byte is left for the next literals. */
  method Turn(src: array<byte>, n: nat, ii: nat, ip: nat, out: array<byte>, op: nat, dict: array<int>, hash: Hashing,
              ghost c: Coding, ghost s: seq<byte>)
    returns (ii': nat, ip': nat, op': nat, ghost c': Coding)
    requires src != out && n == src.Length && s == src[..] && ii <= ip && 4 <= ip && ip + M2_MAX_LEN + 1 <= n
    requires hash.Fits(dict.Length) && op <= out.Length && 16 * out.Length >= 17 * n
    requires Coded(c, out[..op], s, ii) && Started(s, ii, ip, dict, hash, c)
    modifies out, dict
    ensures ii' <= ip' && ip < ip' <= n && op' <= out.Length && Coded(c', out[..op'], s, ii')
    ensures Started(s, ii', ip', dict, hash, c') || (ii' == ip' == n && OneMatch(c', n))
  {
    var found, m_pos := Probe(src, ip, dict, hash, s);
    if Uniform(s) {
      UniformMatches(s, m_pos, ip);
    }
    if found {
      ip', op', c' := CodeMatch(src, n, ii, ip, m_pos, out, op, c, s);
      ii' := ip';
    } else {
      ii', ip', op', c' := ii, ip + 1, op, c;
    }
  }

  /** The main loop; what it leaves over at the end, `left` bytes, is still to be written as literals. */
  method DoCompress(src: array<byte>, n: nat, out: array<byte>, dict: array<int>, hash: Hashing)
    returns (op: nat, left: nat, ghost c: Coding)
    requires M2_MAX_LEN + 5 < n == src.Length && src != out && hash.Fits(dict.Length)
    requires 16 * out.Length >= 17 * n
    modifies out, dict
    ensures left <= n && op <= out.Length && Coded(c, out[..op], src[..], n - left)
    ensures Uniform(src[..]) && n > 18 ==> left == 0 && OneMatch(c, n)
  {
    var ip_end := n - M2_MAX_LEN - 5;
    var ii: nat, ip: nat := 0, 4;
    op, c := 0, Nothing;
    ghost var s := src[..];
    while true
      invariant ii <= ip && 4 <= ip && ip + M2_MAX_LEN + 1 <= n && s == src[..]
      invariant op <= out.Length && Coded(c, out[..op], s, ii) && Started(s, ii, ip, dict, hash, c)
      decreases n - ip
    {
      ii, ip, op, c := Turn(src, n, ii, ip, out, op, dict, hash, c, s);
      if ip >= ip_end {
        break;
      }
    }
    left := n - ii;
  }

  method PutEnd(out: array<byte>, op: nat) returns (op': nat)
    requires op + 3 <= out.Length
    modifies out
    ensures op' == op + 3 && out[..op'] == old(out[..op]) + END_OF_STREAM
  {
    out[op], out[op + 1], out[op + 2] := M4_MARKER + 1, 0, 0;
    op' := op + 3;
  }

  /** Write the remaining literals. */
  method PutTail(src: array<byte>, ii: nat, out: array<byte>, op: nat, ghost c: Coding) returns (op': nat)
    requires src != out && op <= out.Length && Coded(c, out[..op], src[..], ii)
    requires 16 * out.Length >= 17 * src.Length + 96
    modifies out
    ensures op' <= out.Length && out[..op'] == Body(c, src[ii..])
  {
    var n := src.Length;
    var t := n - ii;
    assert PlainLength(c) == ii && src[ii..] == src[ii..n];
    BlocksCost(c);
    op' := op;
    if op == 0 && t <= 238 {
      if t > 0 {
        out[0] := 17 + t;
        op' := PutLiterals(src, ii, out, 1, t);
      }
    } else {
      op' := PutLiteralsBefore(src, ii, n, out, op);
    }
  }

  lemma {:induction false} OneMatchCost(c: Coding, n: nat, lits: seq<byte>)
    requires Sound(c) && n > 18
    ensures OneMatch(c, n) && lits == [] ==> |Body(c, lits)| + 3 <= n / 255 + 13
  {
  }

  /**
    * For every input, every hashing and every content of the dictionary: the stream decodes to the input and is no
    * longer than 17/16 of it and six bytes. Equal bytes are compressed as far as the format allows, to one byte for
    * 255 and thirteen more.
    */
  method Compress(src: array<byte>, n: nat, out: array<byte>, dict: array<int>, hash: Hashing)
    returns (op: nat)
    requires n == src.Length && src != out && hash.Fits(dict.Length)
    requires 16 * out.Length >= 17 * n + 96
    modifies out, dict
    ensures op <= out.Length && 16 * op <= 17 * n + 96
    ensures Decode(out[..op]) == Eof(src[..], op)
    ensures Uniform(src[..]) && n > 18 ==> op <= n / 255 + 13
  {
    var t := n;
    ghost var c := Nothing;
    op := 0;
    if n > M2_MAX_LEN + 5 {
      op, t, c := DoCompress(src, n, out, dict, hash);
    }
    ghost var s, ii := src[..], n - t;
    assert s == s[..ii] + s[ii..] && s[ii..] == src[ii..];
    StreamCost(c, s[ii..]);
    StreamDecodes(c, s[ii..]);
    if n > 18 {
      OneMatchCost(c, n, s[ii..]);
    }
    op := PutTail(src, n - t, out, op, c);
    op := PutEnd(out, op);
  }
}
