/**
 The LZO1X byte stream: what the decoders of minilzo.c make of it, as a
 step function over the labels of their goto program.
 */
module LzoFormat {
  import opened Bytes
  import opened Overlap

  const M2_MAX_OFFSET := 0x0800
  const M3_MAX_OFFSET := 0x4000
  const M4_MAX_OFFSET := 0xbfff
  const M2_MAX_LEN := 8
  const M3_MAX_LEN := 33
  const M4_MAX_LEN := 9
  const M3_MARKER := 32
  const M4_MARKER := 16

  /** Where the decoder stands: the head of the outer loop, `first_literal_run`,
      the end of `match_next`, or `match_done`. */
  datatype Mode = Outer | FirstLiteralRun | Inner | MatchDone

  datatype Outcome = Eof(out: seq<byte>, ip: nat) | Invalid

  datatype Next = Go(ip: nat, out: seq<byte>, mode: Mode) | Stop(outcome: Outcome)

  /** A decoded match opcode. */
  datatype Opcode = Match(off: nat, len: nat, next: nat) | EndOfStream(next: nat) | Bad

  /** A length continued in zero bytes, each worth 255, and one nonzero byte. */
  function Extended(s: seq<byte>, ip: nat, t: nat): (r: Option<(nat, nat)>)
    ensures r.Some? ==> ip < r.value.1 <= |s| && r.value.0 > t
    decreases |s| - ip
  {
    if ip >= |s| then None
    else if s[ip] == 0 then Extended(s, ip + 1, t + 255)
    else Some((t + s[ip], ip + 1))
  }

  /** The length of an opcode whose own length field is `field`. */
  function Length(s: seq<byte>, ip: nat, field: nat, base: nat): (r: Option<(nat, nat)>)
    requires ip <= |s|
    ensures r.Some? ==> ip <= r.value.1 <= |s| && r.value.0 > 0
  {
    if field == 0 then Extended(s, ip, base) else Some((field, ip))
  }

  function FetchM3(s: seq<byte>, ip: nat, t: byte): (r: Opcode)
    requires ip <= |s|
    ensures r.Match? ==> ip < r.next <= |s| && r.len >= 2 && r.off >= 1
    ensures !r.EndOfStream?
  {
    match Length(s, ip, t % 32, 31)
    case None => Bad
    case Some((len, q)) =>
      if q + 2 <= |s| then Match(1 + s[q] / 4 + 64 * s[q + 1] as int, len + 2, q + 2) else Bad
  }

  /** Offset zero, before 0x4000 is added to it, ends the stream. */
  function FetchM4(s: seq<byte>, ip: nat, t: byte): (r: Opcode)
    requires ip <= |s|
    ensures r.Match? ==> ip < r.next <= |s| && r.len >= 2 && r.off >= 1
    ensures r.EndOfStream? ==> ip < r.next <= |s|
  {
    match Length(s, ip, t % 8, 7)
    case None => Bad
    case Some((len, q)) =>
      if q + 2 > |s| then Bad
      else
        var off := t / 8 % 2 * 0x4000 + s[q] / 4 + 64 * s[q + 1] as int;
        if off == 0 then EndOfStream(q + 2) else Match(off + 0x4000, len + 2, q + 2)
  }

  /** The opcode whose first byte `t` stands before `ip`. */
  function Fetch(s: seq<byte>, ip: nat, t: byte, mode: Mode): (r: Opcode)
    requires ip <= |s|
    ensures r.Match? ==> ip < r.next <= |s| && r.len >= 2 && r.off >= 1
    ensures r.EndOfStream? ==> ip < r.next <= |s|
  {
    if 32 <= t < 64 then FetchM3(s, ip, t)
    else if 16 <= t < 32 then FetchM4(s, ip, t)
    else if ip >= |s| then Bad
    else if t >= 64 then Match(1 + t / 4 % 8 + 8 * s[ip] as int, t / 32 + 1, ip + 1)
    else if mode == FirstLiteralRun then Match(1 + M2_MAX_OFFSET + t / 4 + 4 * s[ip] as int, 3, ip + 1)
    else Match(1 + t / 4 + 4 * s[ip] as int, 2, ip + 1)
  }

  /** What an opcode does to the output. */
  function Apply(op: Opcode, out: seq<byte>): (r: Next)
    ensures r.Go? ==> op.Match? && r.ip == op.next && out <= r.out && r.mode == MatchDone
    ensures r.Stop? && r.outcome.Eof? ==> op.EndOfStream? && r.outcome == Eof(out, op.next)
  {
    match op
    case Bad => Stop(Invalid)
    case EndOfStream(next) => Stop(Eof(out, next))
    case Match(off, len, next) =>
      if off < 1 || off > |out| then Stop(Invalid) else Go(next, Copy(out, off, len), MatchDone)
  }

  /** A run of literals whose header `t` stands before `ip`. */
  function ReadRun(s: seq<byte>, ip: nat, t: byte, out: seq<byte>): (r: Next)
    requires ip <= |s|
    ensures r.Go? ==> ip < r.ip <= |s| && out <= r.out && r.mode == FirstLiteralRun
    ensures r.Stop? ==> r.outcome == Invalid
  {
    match Length(s, ip, t, 15)
    case None => Stop(Invalid)
    case Some((n, q)) =>
      if q + n + 3 > |s| then Stop(Invalid)
      else Go(q + n + 3, out + s[q..q + n + 3], FirstLiteralRun)
  }

  /** The literals announced in the last byte but one of the match before `ip`. */
  function ReadTrailing(s: seq<byte>, ip: nat, out: seq<byte>): (r: Next)
    requires 2 <= ip <= |s|
    ensures r.Go? ==> ip <= r.ip <= |s| && out <= r.out && r.mode != MatchDone
    ensures r.Stop? ==> r.outcome == Invalid
  {
    var t := s[ip - 2] % 4;
    if t == 0 then Go(ip, out, Outer)
    else if ip + t > |s| then Stop(Invalid)
    else Go(ip + t, out + s[ip..ip + t], Inner)
  }

  function Step(s: seq<byte>, ip: nat, out: seq<byte>, mode: Mode): (r: Next)
    requires ip <= |s| && (mode == MatchDone ==> 2 <= ip)
    ensures r.Go? ==> ip <= r.ip <= |s| && out <= r.out && (r.mode == MatchDone ==> 2 <= r.ip)
    ensures r.Go? ==> ip < r.ip || (mode == MatchDone && r.mode != MatchDone)
    ensures r.Stop? && r.outcome.Eof? ==> r.outcome.out == out && ip < r.outcome.ip <= |s|
  {
    if mode == MatchDone then ReadTrailing(s, ip, out)
    else if ip == |s| then Stop(Invalid)
    else if mode == Outer && s[ip] < 16 then ReadRun(s, ip + 1, s[ip], out)
    else Apply(Fetch(s, ip + 1, s[ip], mode), out)
  }

  function Run(s: seq<byte>, ip: nat, out: seq<byte>, mode: Mode): (r: Outcome)
    requires ip <= |s| && (mode == MatchDone ==> 2 <= ip)
    ensures r.Eof? ==> ip < r.ip <= |s| && out <= r.out
    decreases |s| - ip, if mode == MatchDone then 1 else 0
  {
    match Step(s, ip, out, mode)
    case Stop(outcome) => outcome
    case Go(ip', out', mode') => Run(s, ip', out', mode')
  }

  /** A first byte above 17 announces that many literals, less 17. */
  function Begin(s: seq<byte>): (r: Next)
    ensures r.Go? ==> r.ip <= |s| && r.mode != MatchDone
    ensures r.Stop? ==> r.outcome == Invalid
  {
    if s == [] then Stop(Invalid)
    else if s[0] > 17 then
      var t := s[0] - 17;
      if 1 + t > |s| then Stop(Invalid)
      else Go(1 + t, s[1..1 + t], if t < 4 then Inner else FirstLiteralRun)
    else Go(0, [], Outer)
  }

  /** The whole stream. */
  function Decode(s: seq<byte>): (r: Outcome)
    ensures r.Eof? ==> r.ip <= |s|
  {
    match Begin(s)
    case Stop(outcome) => outcome
    case Go(ip, out, mode) => Run(s, ip, out, mode)
  }
}
