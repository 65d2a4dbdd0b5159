/** The checked decoder of minilzo.c: `lzo1x_decompress_safe`. */
module LzoCheckedDecompressor {
  import opened Bytes
  import opened LzoFormat
  import opened LzoDecompressor

  /** NEED_OP fails. */
  predicate OutputTooShort(limit: nat, op: nat, t: nat)
    requires op <= limit
  {
    limit - op < t
  }

  /** NEED_IP fails. The difference is unsigned: once `ip` has run past `in_len` the test passes. */
  predicate InputTooShort(in_len: nat, ip: nat, t: nat) {
    ip <= in_len && in_len - ip < t
  }

  /** The stream is not one that decodes into `limit` bytes. */
  ghost predicate Refused(goal: Outcome, limit: nat) {
    goal.Eof? ==> |goal.out| > limit
  }

  /** After this step it cannot end well: the stream is broken or at its end, or the output too long. */
  ghost predicate Hopeless(next: Next, in_len: nat, limit: nat) {
    if next.Go? then |next.out| > limit || (next.mode != MatchDone && next.ip >= in_len)
    else next.outcome == Invalid
  }

  lemma {:induction false} HopelessIsRefused(s: seq<byte>, ip: nat, out: seq<byte>, mode: Mode, limit: nat)
    requires ip <= |s| && (mode == MatchDone ==> 2 <= ip)
    requires Hopeless(Step(s, ip, out, mode), |s|, limit)
    ensures Refused(Run(s, ip, out, mode), limit)
  {
  }

  lemma {:induction false} HopelessStart(s: seq<byte>, limit: nat)
    requires Hopeless(Begin(s), |s|, limit)
    ensures Refused(Decode(s), limit) && !TearsFromStart(s, limit)
  {
  }

  /** The input up to `in_len`. */
  ghost function Stream(inp: array<byte>, in_len: nat): (s: seq<byte>)
    requires in_len <= inp.Length
    reads inp
    ensures |s| == in_len
  {
    inp[..in_len]
  }

  /** At the end of the stream, or with a single byte left, no opcode can be read. */
  lemma {:induction false} NoOpcodeAtEnd(s: seq<byte>, ip: nat, out: seq<byte>, mode: Mode)
    requires ip <= |s| && mode != MatchDone
    requires ip == |s| || (ip + 1 == |s| && mode != Outer)
    ensures Run(s, ip, out, mode) == Invalid
  {
  }

  // ----- reading behind the input

  /** The stream ends inside the opcode at `ip`, behind its length. */
  ghost predicate Torn(s: seq<byte>, ip: nat, mode: Mode) {
    && mode != MatchDone && ip < |s| && !(mode == Outer && s[ip] < 16) && !(mode == Inner && ip + 1 == |s|)
    && CutOff(s, ip + 1, s[ip], mode)
  }

  /** The decoder comes to such an opcode, from `ip` on, before the output is full. */
  ghost predicate Tears(s: seq<byte>, ip: nat, out: seq<byte>, mode: Mode, limit: nat)
    requires ip <= |s| && (mode == MatchDone ==> 2 <= ip)
    decreases |s| - ip, if mode == MatchDone then 1 else 0
  {
    Torn(s, ip, mode) ||
    match Step(s, ip, out, mode)
    case Stop(_) => false
    case Go(ip', out', mode') => |out'| <= limit && Tears(s, ip', out', mode', limit)
  }

  ghost predicate TearsFromStart(s: seq<byte>, limit: nat) {
    match Begin(s)
    case Stop(_) => false
    case Go(ip, out, mode) => |out| <= limit && Tears(s, ip, out, mode, limit)
  }

  /** A stream with an end is not torn anywhere, so that nothing is read behind it. */
  lemma {:induction false} EndedIsWhole(s: seq<byte>, ip: nat, out: seq<byte>, mode: Mode, limit: nat)
    requires ip <= |s| && (mode == MatchDone ==> 2 <= ip) && Run(s, ip, out, mode).Eof?
    ensures !Tears(s, ip, out, mode, limit)
    decreases |s| - ip, if mode == MatchDone then 1 else 0
  {
    var next := Step(s, ip, out, mode);
    if next.Go? {
      EndedIsWhole(s, next.ip, next.out, next.mode, limit);
    }
  }

  lemma {:induction false} StreamIsWhole(s: seq<byte>, limit: nat)
    requires Decode(s).Eof?
    ensures !TearsFromStart(s, limit)
  {
    var first := Begin(s);
    EndedIsWhole(s, first.ip, first.out, first.mode, limit);
  }

  /** A literal, and a match whose second offset byte is missing. */
  lemma {:induction false} ShortMatchIsTorn(s: seq<byte>, limit: nat)
    requires s == [18, 7, 33, 0] && limit >= 1
    ensures TearsFromStart(s, limit)
  {
    assert Begin(s) == Go(2, [7], Inner);
    assert Length(s, 3, 1, 31) == Some((1, 3));
    assert Torn(s, 2, Inner);
  }

  /** There is enough memory behind the input, or none is needed. */
  ghost predicate Roomy(s: seq<byte>, size: nat, ip: nat, out: seq<byte>, mode: Mode, limit: nat) {
    |s| + 6 <= size || (|s| <= size && ip <= |s| && (mode == MatchDone ==> 2 <= ip) && !Tears(s, ip, out, mode, limit))
  }

  /** Where it cannot end well, nothing is torn either. */
  lemma {:induction false} HopelessIsWhole(s: seq<byte>, ip: nat, out: seq<byte>, mode: Mode, limit: nat)
    requires ip <= |s| && (mode == MatchDone ==> 2 <= ip)
    requires Hopeless(Step(s, ip, out, mode), |s|, limit)
    ensures Tears(s, ip, out, mode, limit) <==> Torn(s, ip, mode)
  {
  }

  /** Copy `t` literals, unless the output or, with the byte behind them, the input is too short. */
  method CheckedLiterals(inp: array<byte>, in_len: nat, ip: nat, out: array<byte>, limit: nat, op: nat, t: nat)
    returns (ok: bool, code: Code)
    requires inp != out && in_len <= inp.Length && op <= limit <= out.Length
    requires ip <= in_len || (in_len + 6 <= inp.Length && ip + t <= in_len + 5)
    modifies out
    ensures forall i :: limit <= i < out.Length ==> out[i] == old(out[i])
    ensures ok ==> op + t <= limit && ip + t <= in_len + 5 && (ip <= in_len ==> ip + t < in_len)
    ensures ok ==> out[..op + t] == old(out[..op]) + inp[ip..ip + t]
    ensures !ok ==> code == LZO_E_OUTPUT_OVERRUN || code == LZO_E_INPUT_OVERRUN
    ensures !ok ==> op + t > limit || (ip <= in_len && ip + t >= in_len)
  {
    if OutputTooShort(limit, op, t) {
      return false, LZO_E_OUTPUT_OVERRUN;
    }
    if InputTooShort(in_len, ip, t + 1) {
      return false, LZO_E_INPUT_OVERRUN;
    }
    CopyLiterals(inp, ip, out, op, t);
    return true, LZO_E_OK;
  }

  /** From `match_done` to the next opcode or the head of the outer loop. */
  method CheckedTrailing(inp: array<byte>, in_len: nat, ip: nat, out: array<byte>, limit: nat, op: nat)
    returns (ok: bool, code: Code, ip': nat, op': nat, mode: Mode)
    requires inp != out && in_len <= inp.Length && op <= limit <= out.Length
    requires 2 <= ip <= in_len + 2 && (ip <= in_len || in_len + 6 <= inp.Length)
    modifies out
    ensures forall i :: limit <= i < out.Length ==> out[i] == old(out[i])
    ensures ip <= ip' <= in_len + 5 && op' <= limit && (mode == Outer || (mode == Inner && ip < ip'))
    ensures !ok ==> code == LZO_E_OUTPUT_OVERRUN || code == LZO_E_INPUT_OVERRUN
    ensures ip <= in_len ==>
      var next := ReadTrailing(Stream(inp, in_len), ip, old(out[..op]));
      if ok then next == Go(ip', out[..op'], mode) && (mode == Inner ==> ip' < in_len)
      else Hopeless(next, in_len, limit)
  {
    var t := inp[ip - 2] % 4;
    if t == 0 {
      return true, LZO_E_OK, ip, op, Outer;
    }
    ok, code := CheckedLiterals(inp, in_len, ip, out, limit, op, t);
    if ok {
      assert ip + t <= in_len ==> Stream(inp, in_len)[ip..ip + t] == inp[ip..ip + t];
      return ok, code, ip + t, op + t, Inner;
    }
    return ok, code, ip, op, Outer;
  }

  /** A run of literals with its own header. */
  method CheckedRun(inp: array<byte>, in_len: nat, ip: nat, out: array<byte>, limit: nat, op: nat)
    returns (ok: bool, code: Code, ip': nat, op': nat)
    requires inp != out && in_len <= inp.Length && op <= limit <= out.Length
    requires ip < in_len && inp[ip] < 16
    modifies out
    ensures forall i :: limit <= i < out.Length ==> out[i] == old(out[i])
    ensures !ok ==> code == LZO_E_OUTPUT_OVERRUN || code == LZO_E_INPUT_OVERRUN
    ensures op' <= limit && (ok ==> ip < ip' < in_len)
    ensures var next := ReadRun(Stream(inp, in_len), ip + 1, inp[ip], old(out[..op]));
      if ok then next == Go(ip', out[..op'], FirstLiteralRun) else Hopeless(next, in_len, limit)
  {
    var t, q;
    ok, t, q := ReadLength(inp, in_len, ip + 1, inp[ip], 15);
    if !ok {
      return ok, LZO_E_INPUT_OVERRUN, ip, op;
    }
    ok, code := CheckedLiterals(inp, in_len, q, out, limit, op, t + 3);
    if ok {
      assert Stream(inp, in_len)[q..q + t + 3] == inp[q..q + t + 3];
      return ok, code, q + t + 3, op + t + 3;
    }
    return ok, code, ip, op;
  }

  /** An opcode and its copy. The reads behind the opcode are not tested: they may run two bytes past the input. */
  method CheckedMatch(inp: array<byte>, in_len: nat, ip: nat, out: array<byte>, limit: nat, op: nat, mode: Mode)
    returns (ok: bool, code: Code, ip': nat, op': nat, ghost past: bool)
    requires inp != out && in_len <= inp.Length && op <= limit <= out.Length
    requires ip < in_len && (in_len + 6 <= inp.Length || !CutOff(inp[..in_len], ip + 1, inp[ip], mode))
    modifies out
    ensures past <==> CutOff(Stream(inp, in_len), ip + 1, inp[ip], mode)
    ensures ok ==> (past <==> ip' > in_len)
    ensures forall i :: limit <= i < out.Length ==> out[i] == old(out[i])
    ensures ok ==> ip + 2 <= ip' <= in_len + 2
    ensures op' <= limit && code != LZO_E_EOF_NOT_FOUND
    ensures var next := Apply(Fetch(Stream(inp, in_len), ip + 1, inp[ip], mode), old(out[..op]));
      if ok then if ip' <= in_len then next == Go(ip', out[..op'], MatchDone) else next == Stop(Invalid)
      else if code == LZO_E_OK || code == LZO_E_INPUT_NOT_CONSUMED then
        ip' <= in_len && next == Stop(Eof(out[..op'], ip')) && (code == LZO_E_OK <==> ip' == in_len)
      else Hopeless(next, in_len, limit)
  {
    var eof, off, len, q;
    ok, eof, off, len, q := ReadOpcode(inp, in_len, ip + 1, inp[ip], mode);
    past := ok && q > in_len;
    if !ok {
      return false, LZO_E_INPUT_OVERRUN, ip, op, past;
    }
    if eof {
      code := if q == in_len then LZO_E_OK
              else if q < in_len then LZO_E_INPUT_NOT_CONSUMED else LZO_E_INPUT_OVERRUN;
      return false, code, q, op, past;
    }
    if off > op {
      return false, LZO_E_LOOKBEHIND_OVERRUN, ip, op, past;
    }
    if OutputTooShort(limit, op, len) {
      return false, LZO_E_OUTPUT_OVERRUN, ip, op, past;
    }
    CopyWords(out, op, off, len);
    return true, LZO_E_OK, q, op + len, past;
  }

  /** The literals that a first byte above 17 announces. */
  method CheckedOpening(inp: array<byte>, in_len: nat, out: array<byte>, limit: nat)
    returns (ok: bool, code: Code, ip: nat, op: nat, mode: Mode)
    requires inp != out && in_len <= inp.Length && 1 <= inp.Length && limit <= out.Length
    requires in_len == 0 ==> inp[0] <= 17
    modifies out
    ensures forall i :: limit <= i < out.Length ==> out[i] == old(out[i])
    ensures !ok ==> code == LZO_E_OUTPUT_OVERRUN || code == LZO_E_INPUT_OVERRUN
    ensures op <= limit && mode != MatchDone && (ip < in_len || (in_len == 0 && ok && ip == 0 && mode == Outer))
    ensures var first := Begin(Stream(inp, in_len));
      if ok then first == (if in_len == 0 then Stop(Invalid) else Go(ip, out[..op], mode))
      else Hopeless(first, in_len, limit)
  {
    ok, code, ip, op, mode := true, LZO_E_OK, 0, 0, Outer;
    if inp[0] > 17 {
      var t := inp[0] - 17;
      ghost var s := Stream(inp, in_len);
      mode := if t < 4 then Inner else FirstLiteralRun;
      assert 1 + t <= in_len ==> s[1..1 + t] == inp[1..1 + t];
      ok, code := CheckedLiterals(inp, in_len, 1, out, limit, 0, t);
      if ok {
        ip, op := 1 + t, t;
        assert out[..op] == [] + inp[1..1 + t];
      }
    }
  }

  /** The loop's position: in step with the stream, or past the end of a broken one. */
  ghost predicate InStep(s: seq<byte>, ip: nat, out: seq<byte>, mode: Mode, goal: Outcome) {
    if ip <= |s| then
      (mode == MatchDone ==> 2 <= ip) && Run(s, ip, out, mode) == goal
      && (mode == Inner || mode == FirstLiteralRun ==> ip < |s|)
    else
      goal == Invalid && mode != FirstLiteralRun && (mode == MatchDone ==> 2 <= ip)
      && ip <= |s| + (if mode == MatchDone then 2 else 5)
  }

  /** What a result of the decoder says about the stream. */
  ghost predicate Verdict(goal: Outcome, code: Code, ip: nat, out: seq<byte>, in_len: nat, limit: nat) {
    if code == LZO_E_OK || code == LZO_E_INPUT_NOT_CONSUMED
    then ip <= in_len && goal == Eof(out, ip) && (code == LZO_E_OK <==> ip == in_len)
    else Refused(goal, limit)
  }

  /** One turn of the loops, from one label to the next. `past` says whether it has read behind the input. */
  method CheckedStep(inp: array<byte>, in_len: nat, ip: nat, out: array<byte>, limit: nat, op: nat, mode: Mode,
                     ghost goal: Outcome)
    returns (ok: bool, code: Code, ip': nat, op': nat, mode': Mode, ghost past: bool)
    requires inp != out && in_len <= inp.Length && op <= limit <= out.Length
    requires InStep(Stream(inp, in_len), ip, out[..op], mode, goal)
    requires Roomy(Stream(inp, in_len), inp.Length, ip, out[..op], mode, limit)
    modifies out
    ensures forall i :: limit <= i < out.Length ==> out[i] == old(out[i])
    ensures op' <= limit
    ensures ok ==> ip' <= in_len + 5 && (ip < ip' || (mode == MatchDone && mode' != MatchDone && ip == ip'))
    ensures ok ==> InStep(Stream(inp, in_len), ip', out[..op'], mode', goal)
    ensures ok ==> Roomy(Stream(inp, in_len), inp.Length, ip', out[..op'], mode', limit)
    ensures !ok ==> Verdict(goal, code, ip', out[..op'], in_len, limit)
    ensures ok && ip <= in_len && ip' > in_len ==> past
    ensures ip <= in_len ==>
      (Tears(Stream(inp, in_len), ip, old(out[..op]), mode, limit) <==>
         past || (ok && ip' <= in_len && Tears(Stream(inp, in_len), ip', out[..op'], mode', limit)))
  {
    ghost var s, o := Stream(inp, in_len), out[..op];
    mode', past := MatchDone, false;
    if mode == MatchDone {
      ok, code, ip', op', mode' := CheckedTrailing(inp, in_len, ip, out, limit, op);
    } else if ip >= in_len || (mode == Inner && ip + 1 >= in_len) {
      if ip <= in_len {
        NoOpcodeAtEnd(s, ip, o, mode);
      }
      return false, LZO_E_EOF_NOT_FOUND, ip, op, mode, false;
    } else if mode == Outer && inp[ip] < 16 {
      ok, code, ip', op' := CheckedRun(inp, in_len, ip, out, limit, op);
      mode' := FirstLiteralRun;
    } else {
      ok, code, ip', op', past := CheckedMatch(inp, in_len, ip, out, limit, op, mode);
    }
    if !ok && ip <= in_len && Hopeless(Step(s, ip, o, mode), in_len, limit) {
      HopelessIsRefused(s, ip, o, mode, limit);
      HopelessIsWhole(s, ip, o, mode, limit);
    }
  }

  /**
    * For every input and every output limit: nothing is written at or past the limit, nothing is copied from before
    * the output, and the call succeeds exactly on a whole stream whose output fits. Memory behind the input is read if
    * and only if the input ends inside an opcode, behind the length of the opcode, and then at most six bytes of it;
    * an empty input is not handled before its first byte has been read.
    */
  method DecompressSafe(inp: array<byte>, in_len: nat, out: array<byte>, limit: nat)
    returns (code: Code, out_len: nat, ghost past: bool)
    requires inp != out && in_len <= inp.Length && limit <= out.Length
    requires in_len == 0 ==> 1 <= inp.Length && inp[0] <= 17
    requires in_len + 6 <= inp.Length || !TearsFromStart(inp[..in_len], limit)
    modifies out
    ensures forall i :: limit <= i < out.Length ==> out[i] == old(out[i])
    ensures out_len <= limit
    ensures var goal := Decode(inp[..in_len]);
      && (code == LZO_E_OK || code == LZO_E_INPUT_NOT_CONSUMED <==> goal.Eof? && |goal.out| <= limit)
      && (code == LZO_E_OK || code == LZO_E_INPUT_NOT_CONSUMED ==>
            out[..out_len] == goal.out && (code == LZO_E_OK <==> goal.ip == in_len))
    ensures past <==> TearsFromStart(inp[..in_len], limit)
  {
    ghost var s := Stream(inp, in_len);
    ghost var goal := Decode(s);
    ghost var torn := TearsFromStart(s, limit);
    var ok;
    var ip: nat, op: nat, mode: Mode;
    past := false;
    ok, code, ip, op, mode := CheckedOpening(inp, in_len, out, limit);
    if !ok {
      HopelessStart(s, limit);
    }
    while ok
      invariant op <= limit && (ok ==> ip <= in_len + 5) && Stream(inp, in_len) == s
      invariant forall i :: limit <= i < out.Length ==> out[i] == old(out[i])
      invariant ok ==> InStep(s, ip, out[..op], mode, goal) && Roomy(s, inp.Length, ip, out[..op], mode, limit)
      invariant !ok ==> Verdict(goal, code, ip, out[..op], in_len, limit)
      invariant ok && ip > in_len ==> past
      invariant torn <==> past || (ok && ip <= in_len && Tears(s, ip, out[..op], mode, limit))
      decreases ok, in_len + 5 - ip, if mode == MatchDone then 1 else 0
    {
      ghost var more;
      ok, code, ip, op, mode, more := CheckedStep(inp, in_len, ip, out, limit, op, mode, goal);
      past := past || more;
    }
    out_len := op;
  }
}
