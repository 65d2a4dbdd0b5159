/**
  * DHCP options on the wire, as contrib/dhcp/common/options.c reads and writes them: hunks of a code, a length and up
  * to 255 bytes. The hunks with the same code make up one option, as section 4.1 of RFC 2131 has it.
  */
module OptionHunks {
  import opened Bytes
  import opened OptionValues

  const PAD: byte := 0
  const END: byte := 255

  datatype Hunk = Hunk(code: byte, data: seq<byte>)

  /** Hunks in the order they are written, the latest last. */
  datatype Hunks = NoHunks | More(before: Hunks, last: Hunk)

  /** The hunk has a length byte, and neither ends the options nor pads them. */
  ghost predicate Plain(hs: Hunks) {
    hs.More? ==> Plain(hs.before) && |hs.last.data| <= 255 && hs.last.code != PAD && hs.last.code != END
  }

  function Size(hs: Hunks): nat {
    match hs
    case NoHunks => 0
    case More(before, last) => Size(before) + 2 + |last.data|
  }

  function Wire(hs: Hunks): (w: seq<byte>)
    requires Plain(hs)
    ensures |w| == Size(hs)
  {
    match hs
    case NoHunks => []
    case More(before, last) => Wire(before) + [last.code, |last.data|] + last.data
  }

  /** The value of an option: all its hunks, joined. */
  function Joined(hs: Hunks, code: byte): seq<byte> {
    match hs
    case NoHunks => []
    case More(before, last) => if last.code == code then Joined(before, code) + last.data else Joined(before, code)
  }

  // ---- reading ----

  /** What parse_option_buffer leaves behind: whether the options are valid, and those seen. */
  datatype Parsed = Parsed(valid: bool, options: Options)

  function Parse(buffer: seq<byte>, s: nat, options: Options): Parsed
    requires s <= |buffer|
    decreases |buffer| - s
  {
    if s == |buffer| || buffer[s] == END then Parsed(true, options)
    else if buffer[s] == PAD then Parse(buffer, s + 1, options)
    else if s + 2 > |buffer| || s + buffer[s + 1] + 2 > |buffer| then Parsed(false, options)
    else
      var code, next := buffer[s], s + buffer[s + 1] + 2;
      Parse(buffer, next, options[code := Value(options, code) + buffer[s + 2..next]])
  }

  /** The options after reading hunks. */
  function Read(hs: Hunks): Options {
    match hs
    case NoHunks => map[]
    case More(before, last) => Read(before)[last.code := Value(Read(before), last.code) + last.data]
  }

  lemma {:induction false} ReadIs(hs: Hunks, code: byte)
    ensures Value(Read(hs), code) == Joined(hs, code)
  {
    if hs.More? {
      ReadIs(hs.before, code);
    }
  }

  /** `buffer` begins with the hunks `hs`. */
  ghost predicate Begins(buffer: seq<byte>, hs: Hunks) {
    Plain(hs) && Size(hs) <= |buffer| && buffer[..Size(hs)] == Wire(hs)
  }

  lemma {:induction false} BeginsBefore(buffer: seq<byte>, hs: Hunks)
    requires Begins(buffer, hs) && hs.More?
    ensures Begins(buffer, hs.before)
    ensures var s := Size(hs.before);
            && buffer[s] == hs.last.code && buffer[s + 1] == |hs.last.data|
            && buffer[s + 2..Size(hs)] == hs.last.data
  {
  }

  /** Reading what was written gets to its end with the options written. */
  lemma {:induction false} ParseWire(buffer: seq<byte>, hs: Hunks)
    requires Begins(buffer, hs)
    ensures Parse(buffer, 0, map[]) == Parse(buffer, Size(hs), Read(hs))
  {
    if hs.More? {
      BeginsBefore(buffer, hs);
      ParseWire(buffer, hs.before);
    }
  }

  /** After the end marker, or at the end of the buffer, nothing matters. */
  lemma {:induction false} ParseEnds(buffer: seq<byte>, hs: Hunks)
    requires Begins(buffer, hs) && (Size(hs) < |buffer| ==> buffer[Size(hs)] == END)
    ensures Parse(buffer, 0, map[]) == Parsed(true, Read(hs))
  {
    ParseWire(buffer, hs);
  }

  // ---- writing ----

  /** How much of `length` bytes goes into the next hunk, which starts at `bufix`. */
  function Chunk(length: nat, bufix: nat, first: int, second: int): (n: nat)
    requires length > 0
    ensures 1 <= n <= length && n <= 255
  {
    var n := if length > 255 then 255 else length;
    if bufix < first < bufix + n then first - bufix
    else if bufix < second < bufix + n then second - bufix
    else n
  }

  datatype Limits = Limits(buflen: int, first: int, second: int)

  /** `hs` with the bytes of `value` from `ix` on behind it, as hunks of the option `code`. */
  function Split(hs: Hunks, code: byte, value: seq<byte>, ix: nat, lim: Limits): Hunks
    requires ix <= |value|
    decreases |value| - ix
  {
    if ix == |value| then hs
    else
      var n := Chunk(|value| - ix, Size(hs), lim.first, lim.second);
      Split(More(hs, Hunk(code, value[ix..ix + n])), code, value, ix + n, lim)
  }

  lemma {:induction false} SplitIs(hs: Hunks, code: byte, value: seq<byte>, ix: nat, lim: Limits, other: byte)
    requires ix <= |value|
    ensures var t := Split(hs, code, value, ix, lim);
            && Joined(t, other) == (if other == code then Joined(hs, other) + value[ix..] else Joined(hs, other))
            && Size(t) >= Size(hs)
            && (Plain(hs) && code != PAD && code != END ==> Plain(t))
    decreases |value| - ix
  {
    if ix < |value| {
      var n := Chunk(|value| - ix, Size(hs), lim.first, lim.second);
      SplitIs(More(hs, Hunk(code, value[ix..ix + n])), code, value, ix + n, lim, other);
      assert value[ix..] == value[ix..ix + n] + value[ix + n..];
    } else {
      assert value[ix..] == [];
    }
  }

  /** What there is to store: a value for each option, and which options are text that may need a NUL. */
  datatype Source = Source(options: Options, text: set<byte>, terminate: bool)
  {
    /** All the bytes of an option as stored. */
    function Full(code: byte): seq<byte> {
      if terminate && code in text then Value(options, code) + [0] else Value(options, code)
    }
  }

  /** The hunks written so far, the options looked at, and those that fitted. */
  datatype Packed = Packed(hunks: Hunks, tried: set<byte>, kept: set<byte>)

  /** Stores one option: all of it, or nothing. */
  function StoreOne(p: Packed, src: Source, code: byte, lim: Limits): Packed {
    if code !in src.options || code in p.tried then p
    else if src.options[code] == [] then p.(tried := p.tried + {code})
    else
      var t := Split(p.hunks, code, src.Full(code), 0, lim);
      if Size(t) <= lim.buflen then Packed(t, p.tried + {code}, p.kept + {code})
      else p.(tried := p.tried + {code})
  }

  /** Stores the options in the order of the priority list. */
  function Store(src: Source, priority: seq<byte>, n: nat, lim: Limits): Packed
    requires n <= |priority|
  {
    if n == 0 then Packed(NoHunks, {}, {}) else StoreOne(Store(src, priority, n - 1, lim), src, priority[n - 1], lim)
  }

  /** Every option is stored entirely or not at all, and once. */
  lemma {:induction false} StoreIs(src: Source, priority: seq<byte>, n: nat, lim: Limits, code: byte)
    requires n <= |priority|
    ensures var p := Store(src, priority, n, lim);
            && p.kept <= p.tried
            && (forall c :: c in p.tried ==> c in priority[..n] && c in src.options)
            && (forall c :: c in priority[..n] && c in src.options ==> c in p.tried)
            && (code in p.kept ==> src.options[code] != [])
            && Joined(p.hunks, code) == (if code in p.kept then src.Full(code) else [])
            && (Size(p.hunks) <= lim.buflen || p.hunks == NoHunks)
  {
    if n > 0 {
      StoreIs(src, priority, n - 1, lim, code);
      var p := Store(src, priority, n - 1, lim);
      var c := priority[n - 1];
      assert priority[..n] == priority[..n - 1] + [c];
      if c in src.options && c !in p.tried {
        SplitIs(p.hunks, c, src.Full(c), 0, lim, code);
        assert src.Full(c)[0..] == src.Full(c);
      }
    }
  }

  lemma {:induction false} StoreIsPlain(src: Source, priority: seq<byte>, n: nat, lim: Limits)
    requires n <= |priority| && PAD !in priority && END !in priority
    ensures Plain(Store(src, priority, n, lim).hunks)
  {
    if n > 0 {
      StoreIsPlain(src, priority, n - 1, lim);
      var p := Store(src, priority, n - 1, lim);
      var c := priority[n - 1];
      if c in src.options && c !in p.tried {
        SplitIs(p.hunks, c, src.Full(c), 0, lim, c);
      }
    }
  }

  /**
    * The round trip: what store_options writes is read back, up to an end marker or the end of the buffer, as
    * exactly the options that were stored, each with its full value.
    */
  lemma {:induction false} RoundTrip(src: Source, priority: seq<byte>, lim: Limits, buffer: seq<byte>, code: byte)
    requires PAD !in priority && END !in priority
    requires var hs := Store(src, priority, |priority|, lim).hunks;
             Begins(buffer, hs) && (Size(hs) < |buffer| ==> buffer[Size(hs)] == END)
    ensures var p, read := Store(src, priority, |priority|, lim), Parse(buffer, 0, map[]);
            read.valid && Value(read.options, code) == if code in p.kept then src.Full(code) else []
  {
    var p := Store(src, priority, |priority|, lim);
    StoreIs(src, priority, |priority|, lim, code);
    ParseEnds(buffer, p.hunks);
    ReadIs(p.hunks, code);
  }

  // ---- the cutoffs ----

  /** A chunk that starts before a cutoff ends there at the latest, and is cut for no other reason. */
  lemma {:induction false} ChunkIs(length: nat, bufix: nat, first: int, second: int)
    requires length > 0 && first <= second
    ensures var n := Chunk(length, bufix, first, second);
            && (bufix < first ==> bufix + n <= first) && (bufix < second ==> bufix + n <= second)
            && (n == length || n == 255 || bufix + n == first || bufix + n == second)
  {
  }

  /**
    * A hunk that starts before the first cutoff crosses it if and only if it would have done so uncut: it is cut only
    * where its code and length carry it over anyway.
    */
  lemma {:induction false} CutCrossesToo(length: nat, bufix: nat, first: int, second: int)
    requires length > 0 && bufix < first <= second
    ensures var whole := if length > 255 then 255 else length;
            bufix + 2 + Chunk(length, bufix, first, second) > first <==> bufix + 2 + whole > first
  {
  }

  /** Three bytes before a cutoff at two are cut, and cross it. */
  lemma {:induction false} ThreeBytesCross()
    ensures Split(NoHunks, 12, [1, 2, 3], 0, Limits(20, 2, 20))
         == More(More(NoHunks, Hunk(12, [1, 2])), Hunk(12, [3]))
    ensures Size(More(NoHunks, Hunk(12, [1, 2]))) == 4
  {
    var lim := Limits(20, 2, 20);
    var one := More(NoHunks, Hunk(12, [1, 2]));
    assert [1, 2, 3][0..2] == [1, 2] && [1, 2, 3][2..3] == [3];
    assert Split(More(one, Hunk(12, [3])), 12, [1, 2, 3], 3, lim) == More(one, Hunk(12, [3]));
  }

  /** A hunk that starts before a cutoff reaches as far behind it as its code and length take up, and no farther. */
  ghost predicate StopsAt(hs: Hunks, cutoff: int) {
    hs.More? ==>
      && StopsAt(hs.before, cutoff)
      && (Size(hs.before) < cutoff ==> Size(hs.before) + 2 + |hs.last.data| <= cutoff + 2)
  }

  lemma {:induction false} SplitStops(hs: Hunks, code: byte, value: seq<byte>, ix: nat, lim: Limits)
    requires ix <= |value| && lim.first <= lim.second && StopsAt(hs, lim.first) && StopsAt(hs, lim.second)
    ensures var t := Split(hs, code, value, ix, lim); StopsAt(t, lim.first) && StopsAt(t, lim.second)
    decreases |value| - ix
  {
    if ix < |value| {
      var n := Chunk(|value| - ix, Size(hs), lim.first, lim.second);
      ChunkIs(|value| - ix, Size(hs), lim.first, lim.second);
      SplitStops(More(hs, Hunk(code, value[ix..ix + n])), code, value, ix + n, lim);
    }
  }

  /** No option is stored across a cutoff, but for the two bytes that store_options does not count. */
  lemma {:induction false} StopsAtCutoffs(src: Source, priority: seq<byte>, n: nat, lim: Limits)
    requires n <= |priority| && lim.first <= lim.second
    ensures var hs := Store(src, priority, n, lim).hunks; StopsAt(hs, lim.first) && StopsAt(hs, lim.second)
  {
    if n > 0 {
      StopsAtCutoffs(src, priority, n - 1, lim);
      SplitStops(Store(src, priority, n - 1, lim).hunks, priority[n - 1], src.Full(priority[n - 1]), 0, lim);
    }
  }

  // ---- when everything fits ----

  /** How many of the two cutoffs lie ahead. */
  function Ahead(size: nat, lim: Limits): nat {
    (if size < lim.first then 1 else 0) + (if size < lim.second then 1 else 0)
  }

  /** At most: the bytes, and two more for each hunk of 255 and for each cutoff. */
  function Cost(length: nat, ahead: nat): nat { length + 2 * ((length + 254) / 255 + ahead) }

  lemma {:induction false} SplitCost(hs: Hunks, code: byte, value: seq<byte>, ix: nat, lim: Limits)
    requires ix <= |value|
    ensures Size(Split(hs, code, value, ix, lim)) <= Size(hs) + Cost(|value| - ix, Ahead(Size(hs), lim))
    decreases |value| - ix
  {
    if ix < |value| {
      var n := Chunk(|value| - ix, Size(hs), lim.first, lim.second);
      SplitCost(More(hs, Hunk(code, value[ix..ix + n])), code, value, ix + n, lim);
    }
  }

  /** What the first `n` options of the priority list cost at most. */
  function TotalCost(src: Source, priority: seq<byte>, n: nat): nat
    requires n <= |priority|
  {
    if n == 0 then 0 else
    TotalCost(src, priority, n - 1) + Cost(|src.Full(priority[n - 1])|, 2)
  }

  lemma {:induction false} TotalCostGrows(src: Source, priority: seq<byte>, m: nat, n: nat)
    requires m <= n <= |priority|
    ensures TotalCost(src, priority, m) <= TotalCost(src, priority, n)
  {
    if m < n {
      TotalCostGrows(src, priority, m, n - 1);
    }
  }

  /** When the buffer is large enough, no option with a value is left out. */
  lemma {:induction false} AllKept(src: Source, priority: seq<byte>, n: nat, lim: Limits)
    requires n <= |priority| && TotalCost(src, priority, n) <= lim.buflen
    ensures var p := Store(src, priority, n, lim);
            && Size(p.hunks) <= TotalCost(src, priority, n)
            && (forall c :: c in p.tried && Value(src.options, c) != [] ==> c in p.kept)
  {
    if n > 0 {
      TotalCostGrows(src, priority, n - 1, n);
      AllKept(src, priority, n - 1, lim);
      var p := Store(src, priority, n - 1, lim);
      var c := priority[n - 1];
      SplitCost(p.hunks, c, src.Full(c), 0, lim);
    }
  }
}
