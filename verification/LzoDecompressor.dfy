/** The decoders of minilzo.c: `lzo1x_decompress` and `lzo1x_decompress_safe`. */
module LzoDecompressor {
  import opened Bytes
  import opened Overlap
  import opened LzoFormat

  datatype Code =
    | LZO_E_OK | LZO_E_INPUT_NOT_CONSUMED | LZO_E_INPUT_OVERRUN
    | LZO_E_OUTPUT_OVERRUN | LZO_E_LOOKBEHIND_OVERRUN | LZO_E_EOF_NOT_FOUND

  // ----- copying

  method CopyLiterals(inp: array<byte>, ip: nat, out: array<byte>, op: nat, t: nat)
    requires inp != out && ip + t <= inp.Length && op + t <= out.Length
    modifies out
    ensures out[..op + t] == old(out[..op]) + inp[ip..ip + t]
    ensures forall i :: op + t <= i < out.Length ==> out[i] == old(out[i])
  {
    var k := 0;
    while k < t
      invariant 0 <= k <= t
      invariant out[..op + k] == old(out[..op]) + inp[ip..ip + k]
      invariant forall i :: op + t <= i < out.Length ==> out[i] == old(out[i])
    {
      out[op + k] := inp[ip + k];
      k := k + 1;
    }
  }

  /** One four-byte word, read whole before it is written; `k` bytes of the match are there already. */
  method CopyWord(out: array<byte>, p: nat, off: nat, ghost was: seq<byte>, ghost k: nat)
    requires 4 <= off <= |was| && p + 4 <= out.Length && out[..p] == Copy(was, off, k)
    modifies out
    ensures out[..p + 4] == Copy(was, off, k + 4)
    ensures forall i :: p + 4 <= i < out.Length ==> out[i] == old(out[i])
  {
    ghost var c := out[..p];
    var m_pos := p - off;
    CopyRest(was, off, k, 4);
    CopyApart(c, off, 4);
    assert c[m_pos..m_pos + 4] == [c[m_pos], c[m_pos + 1], c[m_pos + 2], c[m_pos + 3]];
    out[p], out[p + 1], out[p + 2], out[p + 3] :=
      out[m_pos], out[m_pos + 1], out[m_pos + 2], out[m_pos + 3];
  }

  method CopyWholeWords(out: array<byte>, op: nat, off: nat, len: nat) returns (p: nat)
    requires 4 <= off <= op && op + len <= out.Length
    modifies out
    ensures op <= p <= op + len < p + 4 && out[..p] == Copy(old(out[..op]), off, p - op)
    ensures forall i :: op + len <= i < out.Length ==> out[i] == old(out[i])
  {
    ghost var was := out[..op];
    p := op;
    while op + len - p >= 4
      invariant op <= p <= op + len
      invariant out[..p] == Copy(was, off, p - op)
      invariant forall i :: op + len <= i < out.Length ==> out[i] == old(out[i])
    {
      CopyWord(out, p, off, was, p - op);
      p := p + 4;
    }
  }

  /** The copy of M3 and M4 matches: four bytes at a time when they lie at least four back. */
  method CopyWords(out: array<byte>, op: nat, off: nat, len: nat)
    requires 1 <= off <= op && op + len <= out.Length
    modifies out
    ensures out[..op + len] == Copy(old(out[..op]), off, len)
    ensures forall i :: op + len <= i < out.Length ==> out[i] == old(out[i])
  {
    if len >= 8 && off >= 4 {
      ghost var was := out[..op];
      var p := CopyWholeWords(out, op, off, len);
      var left := op + len - p;
      ghost var words := out[..p];
      assert Copy(words, off, left) == Copy(was, off, len) by {
        CopyRest(was, off, p - op, left);
      }
      CopyMatch(out, p, off, left);
    } else {
      CopyMatch(out, op, off, len);
    }
  }

  // ----- reading opcodes

  /** A length field, continued when it is zero.
      The test for more input is the one of the checked decoder; the unchecked one has none. */
  method ReadLength(inp: array<byte>, in_len: nat, ip: nat, field: nat, base: nat)
    returns (ok: bool, t: nat, q: nat)
    requires ip <= in_len <= inp.Length
    ensures ok <==> Length(inp[..in_len], ip, field, base).Some?
    ensures ok ==> Length(inp[..in_len], ip, field, base) == Some((t, q))
  {
    ok, t, q := true, field, ip;
    if field == 0 {
      ghost var s := inp[..in_len];
      t := base;
      while q < in_len && inp[q] == 0
        invariant ip <= q <= in_len
        invariant Extended(s, ip, base) == Extended(s, q, t)
      {
        t, q := t + 255, q + 1;
      }
      if q == in_len {
        return false, t, q;
      }
      t, q := t + inp[q], q + 1;
    }
  }

  /** What has been read at `next` is opcode `f`, unless it reaches past `in_len`. */
  ghost predicate IsOpcode(f: Opcode, in_len: nat, ok: bool, eof: bool, off: nat, len: nat, next: nat) {
    && (ok && next <= in_len <==> f != Bad)
    && (ok && next <= in_len ==> f == if eof then EndOfStream(next) else Match(off, len, next))
    && (ok && !eof ==> off >= 1 && len >= 2)
  }

  /** The length of the opcode `t`, if it is one that has to be continued, is complete. */
  ghost predicate LengthIsThere(s: seq<byte>, ip: nat, t: byte)
    requires ip <= |s|
  {
    if 32 <= t < 64 then Length(s, ip, t % 32, 31).Some?
    else if 16 <= t < 32 then Length(s, ip, t % 8, 7).Some?
    else true
  }

  /** The end of the stream cuts the opcode `t` off behind its length: this is read without a test. */
  ghost predicate CutOff(s: seq<byte>, ip: nat, t: byte, mode: Mode)
    requires ip <= |s|
  {
    LengthIsThere(s, ip, t) && Fetch(s, ip, t, mode) == Bad
  }

  method ReadM3(inp: array<byte>, in_len: nat, ip: nat, t: byte)
    returns (ok: bool, off: nat, len: nat, next: nat)
    requires ip <= in_len <= inp.Length && 32 <= t < 64
    requires in_len + 2 <= inp.Length || !CutOff(inp[..in_len], ip, t, Outer)
    ensures IsOpcode(FetchM3(inp[..in_len], ip, t), in_len, ok, false, off, len, next)
    ensures ok <==> LengthIsThere(inp[..in_len], ip, t)
    ensures ok ==> ip < next <= in_len + 2
  {
    var q;
    ok, len, q := ReadLength(inp, in_len, ip, t % 32, 31);
    off, next := 1, q + 2;
    if ok {
      off, len := 1 + inp[q] / 4 + 64 * inp[q + 1] as int, len + 2;
    }
  }

  method ReadM4(inp: array<byte>, in_len: nat, ip: nat, t: byte)
    returns (ok: bool, eof: bool, off: nat, len: nat, next: nat)
    requires ip <= in_len <= inp.Length && 16 <= t < 32
    requires in_len + 2 <= inp.Length || !CutOff(inp[..in_len], ip, t, Outer)
    ensures IsOpcode(FetchM4(inp[..in_len], ip, t), in_len, ok, eof, off, len, next)
    ensures ok <==> LengthIsThere(inp[..in_len], ip, t)
    ensures ok ==> ip < next <= in_len + 2
  {
    var q;
    ok, len, q := ReadLength(inp, in_len, ip, t % 8, 7);
    eof, off, next := false, 1, q + 2;
    if ok {
      var o := t / 8 % 2 * 0x4000 + inp[q] / 4 + 64 * inp[q + 1] as int;
      eof, off, len := o == 0, o + 0x4000, len + 2;
    }
  }

  /** The opcode `t` and the bytes behind it; up to two of them are read without a test
      and may lie behind `in_len`, in which case `next` does too. */
  method ReadOpcode(inp: array<byte>, in_len: nat, ip: nat, t: byte, mode: Mode)
    returns (ok: bool, eof: bool, off: nat, len: nat, next: nat)
    requires ip <= in_len <= inp.Length
    requires in_len + 2 <= inp.Length || !CutOff(inp[..in_len], ip, t, mode)
    ensures IsOpcode(Fetch(inp[..in_len], ip, t, mode), in_len, ok, eof, off, len, next)
    ensures ok <==> LengthIsThere(inp[..in_len], ip, t)
    ensures ok ==> ip < next <= in_len + 2
  {
    ok, eof, off, len, next := true, false, 1, 2, ip + 1;
    if t >= 64 {
      off := 1 + t / 4 % 8 + 8 * inp[ip] as int;
      len := t / 32 + 1;
    } else if t >= 32 {
      ok, off, len, next := ReadM3(inp, in_len, ip, t);
    } else if t >= 16 {
      ok, eof, off, len, next := ReadM4(inp, in_len, ip, t);
    } else if mode == FirstLiteralRun {
      off := 1 + M2_MAX_OFFSET + t / 4 + 4 * inp[ip] as int;
      len := 3;
    } else {
      off := 1 + t / 4 + 4 * inp[ip] as int;
    }
  }

  // ----- the unchecked decoder

  /** `match_done` and `match_next`: the literals announced in the last byte of the match but one. */
  method TrailingLiterals(inp: array<byte>, ip: nat, out: array<byte>, op: nat) returns (ip': nat, op': nat, mode: Mode)
    requires inp != out && 2 <= ip <= inp.Length && op <= out.Length
    requires var next := ReadTrailing(inp[..], ip, out[..op]); next.Go? && |next.out| <= out.Length
    modifies out
    ensures op' <= out.Length
    ensures ReadTrailing(inp[..], ip, old(out[..op])) == Go(ip', out[..op'], mode)
  {
    var t := inp[ip - 2] % 4;
    if t == 0 {
      return ip, op, Outer;
    }
    CopyLiterals(inp, ip, out, op, t);
    return ip + t, op + t, Inner;
  }

  method LiteralRun(inp: array<byte>, ip: nat, out: array<byte>, op: nat) returns (ip': nat, op': nat)
    requires inp != out && ip < inp.Length && op <= out.Length && inp[ip] < 16
    requires var next := ReadRun(inp[..], ip + 1, inp[ip], out[..op]); next.Go? && |next.out| <= out.Length
    modifies out
    ensures op' <= out.Length
    ensures ReadRun(inp[..], ip + 1, inp[ip], old(out[..op])) == Go(ip', out[..op'], FirstLiteralRun)
  {
    var ok, t, q := ReadLength(inp, inp.Length, ip + 1, inp[ip], 15);
    assert inp[..inp.Length] == inp[..];
    CopyLiterals(inp, q, out, op, t + 3);
    assert inp[q..q + t + 3] == inp[..][q..q + t + 3];
    return q + t + 3, op + t + 3;
  }

  method OneMatch(inp: array<byte>, ip: nat, out: array<byte>, op: nat, mode: Mode)
    returns (eof: bool, ip': nat, op': nat)
    requires inp != out && ip < inp.Length && op <= out.Length
    requires var next := Apply(Fetch(inp[..], ip + 1, inp[ip], mode), out[..op]);
             next != Stop(Invalid) && (next.Go? ==> |next.out| <= out.Length)
    modifies out
    ensures op' <= out.Length
    ensures Apply(Fetch(inp[..], ip + 1, inp[ip], mode), old(out[..op])) ==
            if eof then Stop(Eof(out[..op'], ip')) else Go(ip', out[..op'], MatchDone)
  {
    assert inp[..inp.Length] == inp[..];
    var ok, e, off, len, q := ReadOpcode(inp, inp.Length, ip + 1, inp[ip], mode);
    if !e {
      CopyWords(out, op, off, len);
      return false, q, op + len;
    }
    return true, q, op;
  }

  /** The literals that a first byte above 17 announces. */
  method Opening(inp: array<byte>, out: array<byte>) returns (ip: nat, op: nat, mode: Mode)
    requires inp != out && Begin(inp[..]).Go? && |Begin(inp[..]).out| <= out.Length
    modifies out
    ensures op <= out.Length && Begin(inp[..]) == Go(ip, out[..op], mode)
  {
    ip, op, mode := 0, 0, Outer;
    if inp[0] > 17 {
      var t := inp[0] - 17;
      ghost var s := inp[..];
      CopyLiterals(inp, 1, out, 0, t);
      ip, op, mode := 1 + t, t, if t < 4 then Inner else FirstLiteralRun;
      assert out[..op] == s[1..1 + t];
    }
  }

  /** Whatever stands in memory from `inp[0]` on as a stream with an end is decoded, if the output fits;
      the result says whether the end stands at `in_len`, before it or behind it. */
  method Decompress(inp: array<byte>, in_len: nat, out: array<byte>) returns (code: Code, out_len: nat)
    requires inp != out && Decode(inp[..]).Eof? && |Decode(inp[..]).out| <= out.Length
    modifies out
    ensures out_len <= out.Length && out[..out_len] == Decode(inp[..]).out
    ensures code == (var end := Decode(inp[..]).ip;
                     if end == in_len then LZO_E_OK
                     else if end < in_len then LZO_E_INPUT_NOT_CONSUMED else LZO_E_INPUT_OVERRUN)
  {
    ghost var s := inp[..];
    ghost var goal := Decode(s);
    var ip: nat, op: nat, mode := Opening(inp, out);
    while true
      invariant ip <= inp.Length && op <= out.Length && (mode == MatchDone ==> 2 <= ip)
      invariant inp[..] == s && Run(s, ip, out[..op], mode) == goal
      decreases inp.Length - ip, if mode == MatchDone then 1 else 0
    {
      ghost var next := Step(s, ip, out[..op], mode);
      assert next != Stop(Invalid) && (next.Go? ==> |next.out| <= |goal.out|);
      if mode == MatchDone {
        ip, op, mode := TrailingLiterals(inp, ip, out, op);
      } else if mode == Outer && inp[ip] < 16 {
        ip, op := LiteralRun(inp, ip, out, op);
        mode := FirstLiteralRun;
      } else {
        var eof;
        eof, ip, op := OneMatch(inp, ip, out, op, mode);
        if eof {
          break;
        }
        mode := MatchDone;
      }
    }
    code := if ip == in_len then LZO_E_OK
            else if ip < in_len then LZO_E_INPUT_NOT_CONSUMED else LZO_E_INPUT_OVERRUN;
    out_len := op;
  }
}
