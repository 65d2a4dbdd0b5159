/** The LZRW1/KH block of ProgramStore.cpp: sixteen flags in a control word, and the items they describe. */
module LzrwFormat {
  import opened Arithmetic
  import opened Bytes
  import opened Overlap

  const FLAG_COPIED := 0x80
  const FLAG_COMPRESS := 0x40

  // ----- control words

  function Bit(f: bool): nat { if f then 1 else 0 }

  /** Flags as a binary number, the first one highest. */
  function Value(w: seq<bool>): nat {
    if w == [] then 0 else 2 * Value(w[..|w| - 1]) + Bit(w[|w| - 1])
  }

  lemma {:induction false} ValueFromFront(w: seq<bool>)
    requires w != []
    ensures Value(w) == (if w[0] then Power(|w| - 1) else 0) + Value(w[1..]) && Value(w[1..]) < Power(|w| - 1)
  {
    var init := w[..|w| - 1];
    if |w| == 1 {
      assert w[1..] == [] && init == [];
    } else {
      ValueFromFront(init);
      assert w[1..][..|w| - 2] == init[1..];
    }
  }

  lemma {:induction false} ValueOfAppended(w: seq<bool>, f: bool)
    ensures Value(w + [f]) == 2 * Value(w) + Bit(f)
  {
  }

  lemma {:induction false} SignBit(w: seq<bool>)
    requires |w| == 16
    ensures Value(w) == Bit(w[0]) * 0x8000 + Value(w[1..]) && Value(w[1..]) < 0x8000
  {
    ValueFromFront(w);
    TopBitOfWord();
  }

  lemma {:induction false} Overflow(b: nat, v: nat, f: nat)
    requires b <= 1 && v < 0x8000 && f <= 1
    ensures (2 * (b * 0x8000 + v) + f) % 65536 == 2 * v + f
  {
  }

  /** Shifting a 16-bit word by one takes the first flag out and a new one in; the first flag is the sign bit. */
  lemma {:induction false} Shift(w: seq<bool>, f: bool)
    requires |w| == 16
    ensures Value(w) < 65536 && (w[0] <==> Value(w) >= 0x8000)
    ensures Value(w[1..] + [f]) == (2 * Value(w) + Bit(f)) % 65536
  {
    SignBit(w);
    ValueOfAppended(w[1..], f);
    Overflow(Bit(w[0]), Value(w[1..]), Bit(f));
  }

  // ----- items

  datatype Item =
    | Literal(b: byte)
    | Repeat(b: byte, size: nat)
    | Back(dist: nat, size: nat)

  predicate CanBeWritten(t: Item) {
    match t
    case Literal(_) => true
    case Repeat(_, size) => 16 <= size <= 0xfff
    case Back(dist, size) => 1 <= dist <= 0xfff && 3 <= size <= 18
  }

  /** The items the compressor writes. */
  type Token = t: Item | CanBeWritten(t) witness Literal(0)

  /** The item as it stands in the block: a repeat starts with twelve zero bits, a match with its distance. */
  function ItemBytes(t: Token): (r: seq<byte>)
    ensures 1 <= |r| <= 4
  {
    match t
    case Literal(b) => [b]
    case Repeat(b, size) => [0, (size - 16) / 256, (size - 16) % 256, b]
    case Back(dist, size) =>
      var key := dist * 16 + (size - 3);
      [key / 256, key % 256]
  }

  function Repeated(b: byte, size: nat): (r: seq<byte>)
    ensures |r| == size && forall i :: 0 <= i < size ==> r[i] == b
  {
    seq(size, _ => b)
  }

  function Expand(out: seq<byte>, t: Item): (r: seq<byte>)
    requires t.Back? ==> 1 <= t.dist <= |out|
    ensures out <= r
  {
    match t
    case Literal(b) => out + [b]
    case Repeat(b, size) => out + Repeated(b, size)
    case Back(dist, size) => Copy(out, dist, size)
  }

  // ----- the decoder

  /** The item at `x`, given its flag, and the place behind it. */
  function ReadItem(s: seq<byte>, x: nat, flag: bool): (r: Option<(Item, nat)>)
    ensures r.Some? ==> x < r.value.1 <= |s| && (r.value.0.Back? ==> 1 <= r.value.0.dist)
  {
    if x >= |s| then None
    else if !flag then Some((Literal(s[x]), x + 1))
    else if x + 2 > |s| then None
    else
      var pos := 16 * s[x] as int + s[x + 1] / 16;
      if pos == 0 then
        if x + 4 > |s| then None
        else Some((Repeat(s[x + 3], 256 * s[x + 1] as int + s[x + 2] + 16), x + 4))
      else Some((Back(pos, s[x + 1] % 16 + 3), x + 2))
  }

  /** What a 16-bit `short` makes of a number. */
  function Short(v: int): (r: int)
    ensures -0x8000 <= r < 0x8000
  {
    (v + 0x8000) % 0x1_0000 - 0x8000
  }

  /**
    * A repeat is told from a match by its first twelve bits, which leaves twelve for its size; so the sizes of items
    * never leave the range of a short, whatever the block.
    */
  lemma {:induction false} SizesAreShort(s: seq<byte>, x: nat, flag: bool)
    requires ReadItem(s, x, flag).Some?
    ensures var t := ReadItem(s, x, flag).value.0;
            && (t.Repeat? ==> 16 <= t.size <= 0x100f && Short(t.size) == t.size)
            && (t.Back? ==> 3 <= t.size <= 18)
  {
  }

  /** The place in the block, the command word as shifted so far, its flags left, and the items read. */
  datatype State = State(x: nat, command: nat, bit: nat, items: seq<Item>)

  /** Fetch the next command word when no flag is left. */
  function Refill(s: seq<byte>, d: State): (r: Option<State>)
    ensures r.Some? ==> d.x <= r.value.x && r.value.bit > 0
  {
    if d.bit > 0 then Some(d)
    else if d.x + 2 > |s| then None
    else Some(d.(x := d.x + 2, command := 256 * s[d.x] as int + s[d.x + 1], bit := 16))
  }

  /** Take the first flag and the item it describes. */
  function Take(s: seq<byte>, d: State): (r: Option<State>)
    requires d.bit > 0
    ensures r.Some? ==> d.x < r.value.x <= |s|
  {
    match ReadItem(s, d.x, d.command >= 0x8000)
    case None => None
    case Some((t, x)) => Some(State(x, 2 * d.command % 65536, d.bit - 1, d.items + [t]))
  }

  /** One turn of the decoder's loop. None: the block ends inside an item. */
  function Step(s: seq<byte>, d: State): (r: Option<State>)
    ensures r.Some? ==> d.x < r.value.x <= |s|
  {
    match Refill(s, d)
    case None => None
    case Some(e) => Take(s, e)
  }

  /** The items of the block, from a place in it on. */
  function Run(s: seq<byte>, d: State): Option<seq<Item>>
    decreases |s| - d.x
  {
    if d.x >= |s| then Some(d.items)
    else
      match Step(s, d)
      case None => None
      case Some(e) => Run(s, e)
  }

  /** The output after the items, or None if one of them reaches before the output. */
  function After(out: seq<byte>, items: seq<Item>): (r: Option<seq<byte>>)
    decreases |items|
  {
    if items == [] then Some(out)
    else
      var t := items[|items| - 1];
      match After(out, items[..|items| - 1])
      case None => None
      case Some(o) => if t.Back? && !(1 <= t.dist <= |o|) then None else Some(Expand(o, t))
  }

  function Decode(s: seq<byte>): Option<seq<byte>> {
    if s == [] then None
    else if s[0] == FLAG_COPIED then Some(s[1..])
    else if |s| < 3 then None
    else
      match Run(s, State(3, 256 * s[1] as int + s[2], 16, []))
      case None => None
      case Some(items) => After([], items)
  }
}
