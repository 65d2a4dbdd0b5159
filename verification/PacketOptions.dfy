/**
  * Which of its options a client's packet really carries: cons_options of contrib/dhcp/common/options.c stores them in
  * the order of its priority list and leaves out what no longer fits.
  */
module PacketOptions {
  import opened Bytes
  import opened OptionValues
  import opened OptionHunks
  import O = Options

  // ---- the priority list ----

  const MANDATORY: seq<byte> := [53, 54, 51, 56]

  function Numbers(first: byte, n: nat): (s: seq<byte>)
    requires first + n <= 256
    ensures |s| == n && forall i :: 0 <= i < n ==> s[i] == first + i
  {
    seq(n, i requires 0 <= i < n => first + i)
  }

  const NAMED: seq<byte> := [50, 52] + Numbers(57, 5) + Numbers(1, 6) + [12] + Numbers(7, 43) + [55]
  const UNNAMED: seq<byte> := Numbers(62, 15) + Numbers(78, 177)

  /** The list cons_options uses when nobody gives it one. */
  const PRIORITY: seq<byte> := MANDATORY + NAMED + UNNAMED

  lemma {:induction false} PriorityIsPlain()
    ensures PAD !in PRIORITY && END !in PRIORITY
  {
    assert PAD !in MANDATORY && END !in MANDATORY;
    assert PAD !in NAMED && END !in NAMED;
    assert PAD !in UNNAMED && END !in UNNAMED;
  }

  // ---- what goes out ----

  function AsSource(options: Options): Source { Source(options, {}, false) }

  /** The options stored. */
  function Stored(options: Options): (hs: Hunks)
    ensures Plain(hs)
  {
    PriorityIsPlain();
    StoreIsPlain(AsSource(options), PRIORITY, |PRIORITY|, O.MAIN_LIMITS);
    Store(AsSource(options), PRIORITY, |PRIORITY|, O.MAIN_LIMITS).hunks
  }

  /** The options field of a packet, up to its end marker. */
  function Field(options: Options): seq<byte> { O.COOKIE + Wire(Stored(options)) + [END] }

  /** What a receiver reads in an options field. */
  function Received(field: seq<byte>): Options {
    if |field| < 4 || field[..4] != O.COOKIE then map[] else Parse(field[4..], 0, map[]).options
  }

  lemma {:induction false} ReceivedIs(options: Options)
    ensures Received(Field(options)) == Read(Stored(options))
  {
    O.FieldIsRead(Field(options), Stored(options), |Field(options)|);
  }

  /** cons_options, given the options of the client. */
  method Cons(options: Options) returns (field: seq<byte>)
    ensures field == Field(options)
  {
    var out := new byte[1222];
    PriorityIsPlain();
    var length := O.ConsOptions(out, AsSource(options), PRIORITY);
    field := out[..length - O.FIXED_NON_UDP];
  }

  // ---- which options fit ----

  /** The bytes there are for options. */
  const ROOM: int := O.MAIN_LIMITS.buflen

  /** What an option of `length` bytes takes up: two more bytes for every 255. */
  function Encoded(length: nat): nat { length + 2 * ((length + 254) / 255) }

  /** The bytes taken once an option of `length` bytes has been stored or left out. */
  function Taken(used: nat, length: nat): nat {
    if length > 0 && used + Encoded(length) <= ROOM then used + Encoded(length) else used
  }

  /** The bytes taken by the first `k` options of the list; an option that is listed again takes none. */
  function Used(options: Options, priority: seq<byte>, k: nat): nat
    requires k <= |priority|
  {
    if k == 0 then 0
    else if priority[k - 1] in priority[..k - 1] then Used(options, priority, k - 1)
    else Taken(Used(options, priority, k - 1), |Value(options, priority[k - 1])|)
  }

  lemma {:induction false} EncodedInPieces(length: nat, n: nat)
    requires 0 < n <= length && n == if length > 255 then 255 else length
    ensures Encoded(length) == n + 2 + Encoded(length - n)
  {
  }

  /** A piece that fits has not been cut at the end of the room. */
  lemma {:induction false} PieceIsWhole(length: nat, used: nat, n: nat)
    requires 0 < length && used <= ROOM && n == if length > 255 then 255 else length
    ensures var m := Chunk(length, used, O.MAIN_LIMITS.first, O.MAIN_LIMITS.second);
            && 0 < m <= n
            && (used + 2 + m <= ROOM <==> used + 2 + n <= ROOM)
            && (used + 2 + m <= ROOM ==> m == n)
  {
  }

  /** The cutoffs lie behind the room, so that an option is split only into pieces of 255 bytes. */
  lemma {:induction false} SplitFits(hs: Hunks, code: byte, value: seq<byte>, ix: nat)
    requires ix <= |value| && Size(hs) <= ROOM
    ensures var size := Size(Split(hs, code, value, ix, O.MAIN_LIMITS));
            var plain := Size(hs) + Encoded(|value| - ix);
            if plain <= ROOM then size == plain else size > ROOM
    decreases |value| - ix
  {
    var length := |value| - ix;
    if length > 0 {
      var n := if length > 255 then 255 else length;
      EncodedInPieces(length, n);
      PieceIsWhole(length, Size(hs), n);
      var m := Chunk(length, Size(hs), O.MAIN_LIMITS.first, O.MAIN_LIMITS.second);
      var next := More(hs, Hunk(code, value[ix..ix + m]));
      if Size(next) <= ROOM {
        SplitFits(next, code, value, ix + n);
      } else {
        SplitIs(next, code, value, ix + m, O.MAIN_LIMITS, code);
      }
    }
  }

  /** The bytes taken are counted right. */
  lemma {:induction false} UsedIs(options: Options, priority: seq<byte>, k: nat)
    requires k <= |priority|
    ensures Size(Store(AsSource(options), priority, k, O.MAIN_LIMITS).hunks) == Used(options, priority, k) <= ROOM
  {
    if k > 0 {
      var src, code := AsSource(options), priority[k - 1];
      var p := Store(src, priority, k - 1, O.MAIN_LIMITS);
      UsedIs(options, priority, k - 1);
      StoreIs(src, priority, k - 1, O.MAIN_LIMITS, code);
      SplitFits(p.hunks, code, src.Full(code), 0);
    }
  }

  /** An option is stored when its turn comes for the first time, or never. */
  lemma {:induction false} KeptAtOnce(src: Source, priority: seq<byte>, k: nat, n: nat, lim: Limits)
    requires k < n <= |priority|
    ensures priority[k] in Store(src, priority, n, lim).kept <==> priority[k] in Store(src, priority, k + 1, lim).kept
  {
    if k + 1 < n {
      KeptAtOnce(src, priority, k, n - 1, lim);
      StoreIs(src, priority, n - 1, lim, priority[k]);
      assert priority[k] in priority[..n - 1];
    }
  }

  /** An option is stored if and only if there is room for it when its turn comes. */
  lemma {:induction false} KeptWhen(options: Options, priority: seq<byte>, k: nat)
    requires k < |priority| && priority[k] !in priority[..k]
    ensures var v := Value(options, priority[k]);
            priority[k] in Store(AsSource(options), priority, |priority|, O.MAIN_LIMITS).kept
            <==> v != [] && Used(options, priority, k) + Encoded(|v|) <= ROOM
  {
    var src, code := AsSource(options), priority[k];
    KeptAtOnce(src, priority, k, |priority|, O.MAIN_LIMITS);
    StoreIs(src, priority, k, O.MAIN_LIMITS, code);
    UsedIs(options, priority, k);
    SplitFits(Store(src, priority, k, O.MAIN_LIMITS).hunks, code, src.Full(code), 0);
  }

  /** A receiver reads the options for which there is room when their turn comes, each with its full value. */
  lemma {:induction false} Carried(options: Options, k: nat)
    requires k < |PRIORITY| && PRIORITY[k] !in PRIORITY[..k]
    ensures var v := Value(options, PRIORITY[k]);
            Value(Received(Field(options)), PRIORITY[k])
            == if Used(options, PRIORITY, k) + Encoded(|v|) <= ROOM then v else []
  {
    ReceivedIs(options);
    KeptWhen(options, PRIORITY, k);
    StoreIs(AsSource(options), PRIORITY, |PRIORITY|, O.MAIN_LIMITS, PRIORITY[k]);
    ReadIs(Stored(options), PRIORITY[k]);
  }
}
