/** A compressed input as a sequence of blocks, each some literals and a match. */
module LzoBlocks {
  import opened Bytes
  import opened Overlap
  import opened LzoFormat
  import opened LzoEncoding

  datatype Coding = Nothing | Block(before: Coding, lits: seq<byte>, off: nat, len: nat)

  function PlainLength(c: Coding): nat {
    match c
    case Nothing => 0
    case Block(b, lits, _, len) => PlainLength(b) + |lits| + len
  }

  /** What the compressor keeps to: four literals first, offsets within reach, no match that costs what it saves. */
  predicate Sound(c: Coding) {
    match c
    case Nothing => true
    case Block(b, lits, off, len) =>
      && Sound(b) && (b == Nothing ==> |lits| >= 4)
      && 1 <= off <= M4_MAX_OFFSET && off <= PlainLength(b) + |lits|
      && len >= 3 && (len > 3 || off <= M2_MAX_OFFSET)
  }

  /** The bytes the blocks stand for. */
  function Plain(c: Coding): (r: seq<byte>)
    requires Sound(c)
    ensures |r| == PlainLength(c)
  {
    match c
    case Nothing => []
    case Block(b, lits, off, len) => Copy(Plain(b) + lits, off, len)
  }

  /** `p` with the literals `lits` behind it: up to three are announced in the match before them. */
  function WithRun(p: seq<byte>, lits: seq<byte>): (r: seq<byte>)
    requires |lits| <= 3 ==> lits == [] || |p| >= 2
    ensures |r| <= |p| + |RunHeader(|lits|)| + |lits|
  {
    if lits == [] then p
    else if |lits| <= 3 then p[|p| - 2 := OrLowBits(p[|p| - 2], |lits|)] + lits
    else p + RunHeader(|lits|) + lits
  }

  /** The bytes the compressor writes for the blocks. */
  function Written(c: Coding): (r: seq<byte>)
    requires Sound(c)
    ensures c != Nothing ==> |r| >= 2
    ensures c == Nothing ==> r == []
  {
    match c
    case Nothing => []
    case Block(b, lits, off, len) => WithRun(Written(b), lits) + MatchBytes(off, len)
  }

  lemma {:induction false} FirstRunIsRead(lits: seq<byte>)
    requires |lits| >= 4
    ensures Leads(RunHeader(|lits|) + lits, lits, FirstLiteralRun)
  {
    StartLeads();
    RunLeads([], [], lits);
    assert [] + RunHeader(|lits|) + lits == RunHeader(|lits|) + lits && [] + lits == lits;
  }

  lemma {:induction false} LaterRunIsRead(p: seq<byte>, out: seq<byte>, lits: seq<byte>) returns (mode: Mode)
    requires Leads(p, out, MatchDone)
    ensures mode != MatchDone && Leads(WithRun(p, lits), out + lits, mode)
  {
    if lits == [] {
      NoLiteralsLead(p, out);
      assert out + lits == out;
      return Outer;
    } else if |lits| <= 3 {
      PatchLeads(p, out, lits);
      return Inner;
    } else {
      NoLiteralsLead(p, out);
      RunLeads(p, out, lits);
      return FirstLiteralRun;
    }
  }

  /** After the literals the decoder is ready for an opcode. */
  lemma {:induction false} RunIsRead(c: Coding, lits: seq<byte>) returns (mode: Mode)
    requires Sound(c) && (c == Nothing ==> |lits| >= 4)
    ensures WithRun(Written(c), lits) != []
    ensures mode != MatchDone && Leads(WithRun(Written(c), lits), Plain(c) + lits, mode)
    decreases c, 1
  {
    if c == Nothing {
      FirstRunIsRead(lits);
      assert WithRun(Written(c), lits) == RunHeader(|lits|) + lits && Plain(c) + lits == lits;
      mode := FirstLiteralRun;
    } else {
      BlocksLead(c);
      mode := LaterRunIsRead(Written(c), Plain(c), lits);
    }
  }

  /** The decoder reads the blocks back. */
  lemma {:induction false} BlocksLead(c: Coding)
    requires Sound(c) && c != Nothing
    ensures Leads(Written(c), Plain(c), MatchDone)
    decreases c, 0
  {
    var mode := RunIsRead(c.before, c.lits);
    MatchLeads(WithRun(Written(c.before), c.lits), Plain(c.before) + c.lits, mode, c.off, c.len);
  }

  /** Every match saves a byte, which pays for the header of the literals before it up to one in sixteen. */
  lemma {:induction false} BlockCost(t: nat, off: nat, len: nat)
    requires 1 <= off <= M4_MAX_OFFSET && len >= 3 && (len > 3 || off <= M2_MAX_OFFSET)
    ensures 16 * (|RunHeader(t)| + t + |MatchBytes(off, len)|) <= 17 * (t + len)
  {
    var h, m := |RunHeader(t)|, |MatchBytes(off, len)|;
    assert m < len;
    if t > 18 {
      assert 255 * h <= t + 491;
    }
  }

  lemma {:induction false} BlocksCost(c: Coding)
    requires Sound(c)
    ensures 16 * |Written(c)| <= 17 * PlainLength(c)
  {
    if c.Block? {
      BlocksCost(c.before);
      BlockCost(|c.lits|, c.off, c.len);
    }
  }

  /** The blocks and the literals behind the last of them. */
  function Body(c: Coding, lits: seq<byte>): seq<byte>
    requires Sound(c)
  {
    if c == Nothing && |lits| <= 238 then (if lits == [] then [] else [17 + |lits|] + lits)
    else WithRun(Written(c), lits)
  }

  /** The whole stream decodes to the whole input. */
  lemma {:induction false} StreamDecodes(c: Coding, lits: seq<byte>)
    requires Sound(c)
    ensures var q := Body(c, lits); Decode(q + END_OF_STREAM) == Eof(Plain(c) + lits, |q| + 3)
  {
    var q := Body(c, lits);
    if c == Nothing && |lits| <= 238 {
      assert Plain(c) + lits == lits;
      if lits == [] {
        StartLeads();
        EndLeads([], [], Outer);
      } else {
        OpeningLeads(lits);
        EndLeads(q, lits, if |lits| < 4 then Inner else FirstLiteralRun);
      }
    } else {
      var mode := RunIsRead(c, lits);
      EndLeads(q, Plain(c) + lits, mode);
    }
  }

  /** Compressed data is at most one sixteenth and three bytes longer than the data; the end adds three. */
  lemma {:induction false} StreamCost(c: Coding, lits: seq<byte>)
    requires Sound(c)
    ensures 16 * |Body(c, lits)| <= 17 * (PlainLength(c) + |lits|) + 48
  {
    BlocksCost(c);
    var h := |RunHeader(|lits|)|;
    if |lits| > 18 {
      assert 255 * h <= |lits| + 491;
    }
  }
}
