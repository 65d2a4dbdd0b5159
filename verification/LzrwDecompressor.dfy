/** `Decompression` of ProgramStore.cpp. */
module LzrwDecompressor {
  import opened Bytes
  import opened Overlap
  import opened LzrwFormat

  /** What has been put out after some of the items is the beginning of the whole output. */
  lemma {:induction false} AfterPrefix(items: seq<Item>, k: nat)
    requires After([], items).Some? && k <= |items|
    ensures After([], items[..k]).Some? && After([], items[..k]).value <= After([], items).value
    decreases |items|
  {
    if k == |items| {
      assert items[..k] == items;
    } else {
      AfterPrefix(items[..|items| - 1], k);
      assert items[..|items| - 1][..k] == items[..k];
    }
  }

  lemma {:induction false} NextItem(items: seq<Item>, all: seq<Item>, t: Item)
    requires After([], all).Some? && items + [t] <= all
    ensures After([], items).Some? && (t.Back? ==> 1 <= t.dist <= |After([], items).value|)
    ensures After([], items + [t]) == Some(Expand(After([], items).value, t))
    ensures |After([], items + [t]).value| <= |After([], all).value|
  {
    var more := items + [t];
    assert all[..|more|] == more && more[..|more| - 1] == items && more[|more| - 1] == t;
    AfterPrefix(all, |more|);
    assert After([], more).Some? && more != [];
  }

  method FillRepeat(dest: array<byte>, y: nat, b: byte, size: nat)
    requires y + size <= dest.Length
    modifies dest
    ensures dest[..y + size] == old(dest[..y]) + Repeated(b, size)
  {
    var k := 0;
    while k < size
      invariant 0 <= k <= size
      invariant dest[..y + k] == old(dest[..y]) + Repeated(b, k)
    {
      dest[y + k] := b;
      k := k + 1;
    }
  }

  /** Put out the repeat at `x`; its size is kept in a short. */
  method PutRepeat(src: array<byte>, x: nat, n: nat, dest: array<byte>, y: nat, ghost t: Item, ghost next: nat)
    returns (x': nat, y': nat)
    requires src != dest && n <= src.Length && y <= dest.Length
    requires ReadItem(src[..n], x, true) == Some((t, next)) && t.Repeat? && y + t.size <= dest.Length
    modifies dest
    ensures x' == next && y' == y + t.size && dest[..y'] == old(dest[..y]) + Repeated(t.b, t.size)
  {
    SizesAreShort(src[..n], x, true);
    var size := Short(256 * src[x + 1] as int + src[x + 2] + 15);
    FillRepeat(dest, y, src[x + 3], size + 1);
    return x + 4, y + (size + 1);
  }

  /** Put out the item `t` at `x`. */
  method PutOut(src: array<byte>, x: nat, n: nat, flag: bool, dest: array<byte>, y: nat, ghost t: Item, ghost next: nat)
    returns (x': nat, y': nat)
    requires src != dest && n <= src.Length && y <= dest.Length
    requires ReadItem(src[..n], x, flag) == Some((t, next))
    requires (t.Back? ==> 1 <= t.dist <= y) && |Expand(dest[..y], t)| <= dest.Length
    modifies dest
    ensures x' == next && y' <= dest.Length && dest[..y'] == Expand(old(dest[..y]), t)
  {
    if !flag {
      assert t == Literal(src[x]);
      dest[y] := src[x];
      return x + 1, y + 1;
    }
    var pos := 16 * src[x] as int + src[x + 1] / 16;
    if pos == 0 {
      x', y' := PutRepeat(src, x, n, dest, y, t, next);
    } else {
      var size := src[x + 1] % 16 + 2;
      assert t == Back(pos, size + 1);
      CopyMatch(dest, y, pos, size + 1);
      return x + 2, y + (size + 1);
    }
  }

  lemma {:induction false} StepReads(s: seq<byte>, d: State)
    requires Step(s, d).Some?
    ensures Refill(s, d).Some?
    ensures var e := Refill(s, d).value;
      && ReadItem(s, e.x, e.command >= 0x8000).Some?
      && var (t, x) := ReadItem(s, e.x, e.command >= 0x8000).value;
      Step(s, d) == Some(State(x, 2 * e.command % 65536, e.bit - 1, d.items + [t]))
  {
  }

  /** The items read so far are the first of all. */
  lemma {:induction false} RunKeepsItems(s: seq<byte>, d: State)
    requires Run(s, d).Some?
    ensures d.items <= Run(s, d).value
    decreases |s| - d.x
  {
    if d.x < |s| {
      var e := Step(s, d).value;
      StepReads(s, d);
      RunKeepsItems(s, e);
      assert d.items <= e.items;
    }
  }

  /** The item the decoder reads next makes sense. */
  lemma {:induction false} NextOfAll(s: seq<byte>, d: State, all: seq<Item>)
    requires Run(s, d) == Some(all) && After([], all).Some? && d.x < |s|
    ensures Step(s, d).Some? && Run(s, Step(s, d).value) == Some(all)
    ensures Refill(s, d).Some?
    ensures var e := Refill(s, d).value;
      && ReadItem(s, e.x, e.command >= 0x8000).Some?
      && var (t, x) := ReadItem(s, e.x, e.command >= 0x8000).value;
      && Step(s, d).value == State(x, 2 * e.command % 65536, e.bit - 1, d.items + [t])
      && d.items + [t] <= all
  {
    StepReads(s, d);
    RunKeepsItems(s, Step(s, d).value);
  }

  /** Fetch the next command word when no flag is left. */
  method FetchCommand(src: array<byte>, n: nat, x: nat, command: nat, bit: nat, ghost items: seq<Item>)
    returns (x': nat, command': nat, bit': nat)
    requires n <= src.Length && Refill(src[..n], State(x, command, bit, items)).Some?
    ensures Refill(src[..n], State(x, command, bit, items)) == Some(State(x', command', bit', items))
  {
    if bit == 0 {
      return x + 2, 256 * src[x] as int + src[x + 1], 16;
    }
    return x, command, bit;
  }

  /** One turn of the loop. */
  method UnpackItem(src: array<byte>, n: nat, dest: array<byte>, x: nat, y: nat, command: nat, bit: nat,
                    ghost items: seq<Item>, ghost all: seq<Item>)
    returns (x': nat, y': nat, command': nat, bit': nat, ghost items': seq<Item>)
    requires src != dest && x < n <= src.Length && y <= dest.Length
    requires Run(src[..n], State(x, command, bit, items)) == Some(all)
    requires After([], items) == Some(dest[..y])
    requires After([], all).Some? && |After([], all).value| <= dest.Length
    modifies dest
    ensures x < x' && y' <= dest.Length
    ensures Run(src[..n], State(x', command', bit', items')) == Some(all)
    ensures After([], items') == Some(dest[..y'])
  {
    ghost var s := src[..n];
    NextOfAll(s, State(x, command, bit, items), all);
    x', command', bit' := FetchCommand(src, n, x, command, bit, items);
    ghost var (t, next) := ReadItem(s, x', command' >= 0x8000).value;
    NextItem(items, all, t);
    x', y' := PutOut(src, x', n, command' >= 0x8000, dest, y, t, next);
    items', command', bit' := items + [t], 2 * command' % 65536, bit' - 1;
    assert src[..n] == s;
  }

  /** A block with its control words. */
  method Unpack(src: array<byte>, n: nat, dest: array<byte>) returns (y: nat)
    requires src != dest && 3 <= n <= src.Length && src[0] != FLAG_COPIED
    requires Decode(src[..n]).Some? && |Decode(src[..n]).value| <= dest.Length
    modifies dest
    ensures y <= dest.Length && dest[..y] == Decode(src[..n]).value
  {
    var x: nat, command: nat, bit: nat := 3, 256 * src[1] as int + src[2], 16;
    ghost var all := Run(src[..n], State(3, command, 16, [])).value;
    ghost var items: seq<Item> := [];
    y := 0;
    while x < n
      invariant y <= dest.Length
      invariant Run(src[..n], State(x, command, bit, items)) == Some(all)
      invariant After([], items) == Some(dest[..y])
      decreases n - x
    {
      x, y, command, bit, items := UnpackItem(src, n, dest, x, y, command, bit, items, all);
    }
  }

  /** Every block that decodes is decompressed; a stored block must have at least one byte of contents. */
  method Decompression(src: array<byte>, dest: array<byte>, n: nat) returns (y: nat)
    requires src != dest && 1 <= n <= src.Length && (src[0] == FLAG_COPIED ==> n >= 2)
    requires Decode(src[..n]).Some? && |Decode(src[..n]).value| <= dest.Length
    modifies dest
    ensures y <= dest.Length && dest[..y] == Decode(src[..n]).value
  {
    if src[0] == FLAG_COPIED {
      y := 1;
      while y <= n - 1
        invariant 1 <= y <= n
        invariant dest[..y - 1] == src[1..y]
      {
        dest[y - 1] := src[y];
        y := y + 1;
      }
      assert src[..n][1..] == src[1..n];
      y := n - 1;
    } else {
      y := Unpack(src, n, dest);
    }
  }
}
