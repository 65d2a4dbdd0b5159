/** How tools/ProgramStore/n2b_99.c codes literals and matches, for NRV2B and NRV2D, and how to read the code back. */
module NrvFormat {
  import opened Bytes
  import opened NrvCodes

  /** The two formats, with the prefix that stands for the end instead of an offset. */
  datatype Variant = Nrv2b(eof: nat) | Nrv2d(eof: nat)
  {
    /** The prefix is the one the program uses. */
    predicate Proper() { eof == 0x100_0000 }

    /** Offsets above this cost one more byte of length. */
    function M2MaxOffset(): nat { if Nrv2b? then 0xd00 else 0x500 }
  }

  /** The size of the dictionary. */
  const N: nat := 1024 * 1024

  datatype Item = Literal(b: byte) | Match(len: nat, off: nat) | End

  /** The match can be coded. */
  predicate Codable(v: Variant, len: nat, off: nat) {
    1 <= off <= N && len >= 2 && (off > v.M2MaxOffset() ==> len >= 3)
  }

  /** The length as it is coded. */
  function Shortened(v: Variant, len: nat, off: nat): nat
    requires Codable(v, len, off)
  {
    len - 1 - (if off > v.M2MaxOffset() then 1 else 0)
  }

  /** The two low bits of a short length; zero for a long one. */
  function Low(l: nat): nat { if l >= 4 then 0 else l }

  function TwoBits(low: nat): Log { [Bit(low > 1), Bit(low % 2 == 1)] }

  /** What is prefix-coded of an offset: zero stands for the last one again. */
  function OffsetPrefix(v: Variant, off: nat, last: nat): nat
    requires off >= 1
  {
    if off == last then 0 else 1 + (off - 1) / (if v.Nrv2b? then 256 else 128)
  }

  function Prefix(v: Variant, i: nat): Log { if v.Nrv2b? then Ss11(i) else Ss12(i) }

  /** What follows the prefix code: the rest of the offset and the two low bits of the length. */
  function PlaceCode(v: Variant, low: nat, off: nat, last: nat): Log
    requires off >= 1
  {
    if off == last then TwoBits(low)
    else if v.Nrv2b? then [Octet((off - 1) % 256)] + TwoBits(low)
    else [Octet(2 * ((off - 1) % 128) + (if low > 1 then 0 else 1)), Bit(low % 2 == 1)]
  }

  /** The rest of a long length. */
  function LongCode(l: nat): Log { if l >= 4 then Ss11(l - 4) else [] }

  function MatchCode(v: Variant, len: nat, off: nat, last: nat): Log
    requires Codable(v, len, off)
  {
    var l := Shortened(v, len, off);
    [Bit(false)] + (Prefix(v, OffsetPrefix(v, off, last)) + (PlaceCode(v, Low(l), off, last) + LongCode(l)))
  }

  function EndCode(v: Variant): Log {
    [Bit(false)] + (Prefix(v, v.eof) + [Octet(255)])
  }

  predicate Valid(v: Variant, item: Item) { item.Match? ==> Codable(v, item.len, item.off) }

  function ItemCode(v: Variant, item: Item, last: nat): Log
    requires Valid(v, item)
  {
    match item
    case Literal(b) => [Bit(true), Octet(b)]
    case Match(len, off) => MatchCode(v, len, off, last)
    case End => EndCode(v)
  }

  // ---- reading ----

  /** An offset with the two low bits of the length. */
  datatype Place = Place(off: nat, low: nat) | EndPlace

  function BitValue(s: Symbol): nat { if s.Bit? && s.b then 1 else 0 }

  function ReadTwoBits(log: Log, off: nat): Read<Place> {
    if |log| < 2 || !log[0].Bit? || !log[1].Bit? then Stuck
    else Got(Place(off, 2 * BitValue(log[0]) + BitValue(log[1])), log[2..])
  }

  function ReadPrefix(v: Variant, log: Log): Read<nat> {
    if v.Nrv2b? then ReadSs11(log, 1) else ReadSs12(log, 1)
  }

  function ReadPlace(v: Variant, prefix: nat, rest: Log, last: nat): Read<Place> {
    if prefix == 0 then ReadTwoBits(rest, last)
    else if |rest| == 0 || !rest[0].Octet? then Stuck
    else if prefix == v.eof && rest[0].v == 255 then Got(EndPlace, rest[1..])
    else if v.Nrv2b? then ReadTwoBits(rest[1..], 256 * (prefix - 1) + rest[0].v + 1)
    else if |rest| == 1 || !rest[1].Bit? then Stuck
    else
      Got(Place(128 * (prefix - 1) + rest[0].v / 2 + 1, 2 * (1 - rest[0].v % 2) + BitValue(rest[1])), rest[2..])
  }

  function Lengthened(v: Variant, l: nat, off: nat): nat { l + 1 + (if off > v.M2MaxOffset() then 1 else 0) }

  /** The length of a match, once its offset is known. */
  function ReadLength(v: Variant, place: Place, rest: Log): Read<Item> {
    match place
    case EndPlace => Got(End, rest)
    case Place(off, low) =>
      if low != 0 then Got(Match(Lengthened(v, low, off), off), rest)
      else
        var long := ReadSs11(rest, 1);
        if long.Stuck? then Stuck else Got(Match(Lengthened(v, long.value + 4, off), off), long.rest)
  }

  function ReadMatch(v: Variant, log: Log, last: nat): Read<Item> {
    var prefix := ReadPrefix(v, log);
    if prefix.Stuck? then Stuck
    else
      var place := ReadPlace(v, prefix.value, prefix.rest, last);
      if place.Stuck? then Stuck else ReadLength(v, place.value, place.rest)
  }

  function ReadItem(v: Variant, log: Log, last: nat): Read<Item> {
    if log == [] || !log[0].Bit? then Stuck
    else if !log[0].b then ReadMatch(v, log[1..], last)
    else if |log| == 1 || !log[1].Octet? then Stuck
    else Got(Literal(log[1].v), log[2..])
  }

  lemma {:induction false} ReadsPrefix(v: Variant, i: nat, rest: Log)
    ensures ReadPrefix(v, Prefix(v, i) + rest) == Got(i, rest)
  {
    if v.Nrv2b? {
      ReadsSs11(i, rest);
    } else {
      ReadsSs12(i, rest);
    }
  }

  /** No offset in the dictionary is coded like the end. */
  lemma {:induction false} EndIsNoOffset(v: Variant, off: nat, last: nat)
    requires 1 <= off <= N && v.Proper()
    ensures OffsetPrefix(v, off, last) < v.eof
  {
  }

  lemma {:induction false} ReadsPlace(v: Variant, low: nat, off: nat, last: nat, rest: Log)
    requires 1 <= off <= N && low < 4 && v.Proper()
    ensures ReadPlace(v, OffsetPrefix(v, off, last), PlaceCode(v, low, off, last) + rest, last)
         == Got(Place(off, low), rest)
  {
  }

  lemma {:induction false} ReadsLength(v: Variant, len: nat, off: nat, rest: Log)
    requires Codable(v, len, off)
    ensures var l := Shortened(v, len, off);
            ReadLength(v, Place(off, Low(l)), LongCode(l) + rest) == Got(Match(len, off), rest)
  {
    var l := Shortened(v, len, off);
    if l >= 4 {
      ReadsSs11(l - 4, rest);
    } else {
      assert LongCode(l) + rest == rest;
    }
  }

  lemma {:induction false} ReadsMatch(v: Variant, len: nat, off: nat, last: nat, rest: Log)
    requires Codable(v, len, off) && v.Proper()
    ensures ReadItem(v, MatchCode(v, len, off, last) + rest, last) == Got(Match(len, off), rest)
  {
    var l := Shortened(v, len, off);
    var prefix, place := Prefix(v, OffsetPrefix(v, off, last)), PlaceCode(v, Low(l), off, last);
    assert (MatchCode(v, len, off, last) + rest)[1..] == prefix + (place + (LongCode(l) + rest));
    ReadsPrefix(v, OffsetPrefix(v, off, last), place + (LongCode(l) + rest));
    ReadsPlace(v, Low(l), off, last, LongCode(l) + rest);
    ReadsLength(v, len, off, rest);
  }

  lemma {:induction false} ReadsEnd(v: Variant, last: nat, rest: Log)
    requires v.eof > 0
    ensures ReadItem(v, EndCode(v) + rest, last) == Got(End, rest)
  {
    assert (EndCode(v) + rest)[1..] == Prefix(v, v.eof) + ([Octet(255)] + rest);
    ReadsPrefix(v, v.eof, [Octet(255)] + rest);
    assert ([Octet(255)] + rest)[1..] == rest;
  }

  /** Reading an item is a left inverse of coding it, whatever follows. */
  lemma {:induction false} ReadsItem(v: Variant, item: Item, last: nat, rest: Log)
    requires Valid(v, item) && v.Proper()
    ensures ReadItem(v, ItemCode(v, item, last) + rest, last) == Got(item, rest)
  {
    match item
    case Literal(b) =>
      assert (ItemCode(v, item, last) + rest)[2..] == rest;
    case Match(len, off) =>
      ReadsMatch(v, len, off, last, rest);
    case End =>
      ReadsEnd(v, last, rest);
  }

  ghost predicate ReadsAs(v: Variant, log: Log, last: nat, len: nat, off: nat, rest: Log) {
    ReadItem(v, log, last) == Got(Match(len, off), rest)
  }

  lemma {:induction false} ReadIsCodable(v: Variant, log: Log, last: nat, len: nat, off: nat, rest: Log)
    requires ReadsAs(v, log, last, len, off, rest) && 1 <= off <= N
    ensures Codable(v, len, off)
  {
  }

  /** The matches that can be coded are exactly those that a reader can get from any log. */
  lemma {:induction false} CodableIsReadable(v: Variant, len: nat, off: nat)
    requires v.Proper() && 1 <= off <= N
    ensures Codable(v, len, off) <==> exists log, last, rest :: ReadsAs(v, log, last, len, off, rest)
  {
    if Codable(v, len, off) {
      ReadsMatch(v, len, off, 1, []);
      assert ReadsAs(v, MatchCode(v, len, off, 1) + [], 1, len, off, []);
    }
    forall log, last, rest | ReadsAs(v, log, last, len, off, rest) ensures Codable(v, len, off) {
      ReadIsCodable(v, log, last, len, off, rest);
    }
  }

  // ---- whole streams ----

  /** Literals and matches in the order they are coded, the latest last. */
  datatype Items = NoItems | Then(before: Items, last: Item)

  /** The latest offset; 1 to begin with. */
  function LastOffset(items: Items): nat {
    match items
    case NoItems => 1
    case Then(before, last) => if last.Match? then last.off else LastOffset(before)
  }

  /** All the items can be coded, and none is the end. */
  ghost predicate AllValid(v: Variant, items: Items) {
    items.Then? ==> AllValid(v, items.before) && Valid(v, items.last) && !items.last.End?
  }

  function Coded(v: Variant, items: Items): Log
    requires AllValid(v, items)
  {
    match items
    case NoItems => []
    case Then(before, last) => Coded(v, before) + ItemCode(v, last, LastOffset(before))
  }

  /** Reads items up to the end. */
  function ReadItems(v: Variant, log: Log, last: nat, before: Items): Option<Items>
    decreases |log|
  {
    var item := ReadItem(v, log, last);
    if item.Stuck? || |item.rest| >= |log| then None
    else if item.value.End? then Some(before)
    else ReadItems(v, item.rest, if item.value.Match? then item.value.off else last, Then(before, item.value))
  }

  lemma {:induction false} Regroup(a: Log, b: Log, c: Log)
    ensures (a + b) + c == a + (b + c)
  {
  }

  lemma {:induction false} CodeIsLong(v: Variant, item: Item, last: nat)
    requires Valid(v, item)
    ensures |ItemCode(v, item, last)| > 0
  {
  }

  lemma {:induction false} ReadsOne(v: Variant, item: Item, last: nat, rest: Log, before: Items, code: Log)
    requires Valid(v, item) && v.Proper() && code == ItemCode(v, item, last)
    ensures ReadItems(v, code + rest, last, before)
         == if item.End? then Some(before)
            else ReadItems(v, rest, if item.Match? then item.off else last, Then(before, item))
  {
    ReadsItem(v, item, last, rest);
    CodeIsLong(v, item, last);
  }

  lemma {:induction false} ReadsCoded(v: Variant, items: Items, rest: Log)
    requires AllValid(v, items) && v.Proper()
    ensures ReadItems(v, Coded(v, items) + rest, 1, NoItems) == ReadItems(v, rest, LastOffset(items), items)
  {
    match items
    case NoItems =>
      assert Coded(v, items) + rest == rest;
    case Then(before, last) =>
      var code := ItemCode(v, last, LastOffset(before));
      ReadsCoded(v, before, code + rest);
      Regroup(Coded(v, before), code, rest);
      ReadsOne(v, last, LastOffset(before), rest, before, code);
  }

  /** A stream of literals and matches, with the end behind it, is read back as it was, whatever follows. */
  lemma {:induction false} ReadsStream(v: Variant, items: Items, rest: Log)
    requires AllValid(v, items) && v.Proper()
    ensures ReadItems(v, (Coded(v, items) + EndCode(v)) + rest, 1, NoItems) == Some(items)
  {
    Regroup(Coded(v, items), EndCode(v), rest);
    ReadsCoded(v, items, EndCode(v) + rest);
    ReadsOne(v, End, LastOffset(items), rest, items, EndCode(v));
  }
}
