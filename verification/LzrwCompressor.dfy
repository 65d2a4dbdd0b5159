/** `GetMatch` and `Compression` of ProgramStore.cpp. */
module LzrwCompressor {
  import opened Bytes
  import opened Overlap
  import opened LzrwFormat
  import opened LzrwBlocks

  const HASH_TABLE_SIZE := 4096

  /** What the hash function gives. */
  type Slot = h: nat | h < HASH_TABLE_SIZE

  // ----- tokens

  /** How often the byte at `x` is repeated. The byte behind the source is read, but does not count. */
  method CountRepeats(src: array<byte>, x: nat, n: nat, ghost s: seq<byte>) returns (size: nat)
    requires x < n < src.Length && s == src[..]
    ensures 1 <= size <= 0xfff && x + size <= n
    ensures forall k :: x <= k < x + size ==> s[k] == s[x]
    ensures size == 0xfff || x + size == n || s[x + size] != s[x]
  {
    size := 1;
    while src[x] == src[x + size] && size < 0xfff && x + size < n
      invariant 1 <= size <= 0xfff && x + size <= n
      invariant forall k :: x <= k < x + size ==> s[k] == s[x]
    {
      size := size + 1;
    }
  }

  /** The table holds places before `x`, or none. */
  ghost predicate Earlier(table: array<int>, x: int)
    reads table
  {
    forall i :: 0 <= i < table.Length ==> -1 <= table[i] < x
  }

  /** At `p` stands what stands at `x` for `size` bytes, and no longer, as far as 18 bytes or the end. */
  ghost predicate Repeats(s: seq<byte>, p: nat, x: nat, n: nat, size: nat) {
    && p < x && x + size <= n <= |s| && size <= 18
    && (forall k :: x <= k < x + size ==> s[k] == s[k - (x - p)])
    && (size == 18 || x + size == n || s[x + size] != s[p + size])
  }

  /** Look the three bytes at `x` up in the table of earlier places, within the last 4095 bytes. Without a place
      there the present one is entered; otherwise the old one is left, as the code does. */
  method GetMatch(src: array<byte>, x: nat, n: nat, table: array<int>, hash: (byte, byte, byte) -> Slot,
                  ghost s: seq<byte>)
    returns (found: bool, size: nat, pos: nat)
    requires x < n && n + 2 <= src.Length && s == src[..] && table.Length == HASH_TABLE_SIZE
    requires Earlier(table, x)
    modifies table
    ensures Earlier(table, x + 1)
    ensures var p := old(table[hash(s[x], s[x + 1], s[x + 2])]);
            if p != -1 && x - p < 4096
            then pos == p && Repeats(s, p, x, n, size) && found == (size >= 3) && table[..] == old(table[..])
            else !found && table[..] == old(table[..])[hash(s[x], s[x + 1], s[x + 2]) := x]
  {
    var value := hash(src[x], src[x + 1], src[x + 2]);
    var tmp := table[value];
    found, size, pos := false, 0, 0;
    if tmp != -1 && x - tmp < 4096 {
      pos := tmp;
      while size < 18 && src[x + size] == src[pos + size] && x + size < n
        invariant size <= 18 && x + size <= n
        invariant forall k :: x <= k < x + size ==> s[k] == s[k - (x - pos)]
      {
        size := size + 1;
      }
      return size >= 3, size, pos;
    }
    table[value] := x;
  }

  /** The token for `size` bytes at `x`: sixteen equal bytes or more are a repeat, as far as it goes; otherwise what
      stands at the place `p` from the table, for three bytes or more, is a match; anything else is a literal. */
  ghost predicate Chosen(t: Token, size: nat, s: seq<byte>, x: nat, n: nat, p: int) {
    x < n <= |s| &&
    match t
    case Repeat(b, length) =>
      && size == length >= 16 && x + size <= n && b == s[x] && (forall k :: x <= k < x + size ==> s[k] == b)
      && (size == 0xfff || x + size == n || s[x + size] != b)
    case Back(dist, length) =>
      size == length >= 3 && 0 <= p && 1 <= dist == x - p <= 0xfff && Repeats(s, p, x, n, size) && !Runs(s, x, n)
    case Literal(b) =>
      && size == 1 && b == s[x] && !Runs(s, x, n)
      && !(0 <= p && x - 0xfff <= p < x && x + 3 <= n && s[p..p + 3] == s[x..x + 3])
  }

  /** At `x` one byte stands sixteen times. */
  ghost predicate Runs(s: seq<byte>, x: nat, n: nat) {
    x + 16 <= n <= |s| && forall k :: x <= k < x + 16 ==> s[k] == s[x]
  }

  lemma {:induction false} NoRun(s: seq<byte>, x: nat, n: nat, size: nat)
    requires 1 <= size < 16 && x + size <= n <= |s| && (x + size == n || s[x + size] != s[x])
    ensures !Runs(s, x, n)
  {
  }

  lemma {:induction false} NoReturn(s: seq<byte>, p: nat, x: nat, n: nat, size: nat)
    requires Repeats(s, p, x, n, size) && size < 3
    ensures !(x + 3 <= n && s[p..p + 3] == s[x..x + 3])
  {
    if x + 3 <= n {
      assert s[p..p + 3][size] == s[p + size] && s[x..x + 3][size] == s[x + size];
    }
  }

  /** Where no byte is repeated often enough: a match or a literal. */
  method MatchOrLiteral(src: array<byte>, x: nat, n: nat, table: array<int>, hash: (byte, byte, byte) -> Slot,
                        ghost s: seq<byte>)
    returns (t: Token, size: nat)
    requires x < n && n + 2 <= src.Length && s == src[..] && table.Length == HASH_TABLE_SIZE
    requires Earlier(table, x) && !Runs(s, x, n)
    modifies table
    ensures Earlier(table, x + 1)
    ensures Chosen(t, size, s, x, n, old(table[hash(s[x], s[x + 1], s[x + 2])]))
  {
    var found, length, pos := GetMatch(src, x, n, table, hash, s);
    if found {
      return Back(x - pos, length), length;
    }
    ghost var p := old(table[hash(s[x], s[x + 1], s[x + 2])]);
    if p != -1 && x - p < 4096 {
      NoReturn(s, p, x, n, length);
    }
    return Literal(src[x]), 1;
  }

  /** What was chosen stands for the bytes it consumes. */
  lemma {:induction false} ChosenExpands(t: Token, size: nat, s: seq<byte>, x: nat, n: nat, p: int)
    requires Chosen(t, size, s, x, n, p)
    ensures 1 <= size && x + size <= n && (t.Back? ==> t.dist <= x)
    ensures Expand(s[..x], t) == s[..x + size]
  {
    match t
    case Repeat(b, length) => assert s[..x] + Repeated(b, length) == s[..x + length];
    case Back(dist, length) => CopyReproduces(s, x, dist, length);
    case Literal(b) => assert s[..x] + [b] == s[..x + 1];
  }

  /** The next token, and the number of source bytes it stands for. */
  method NextToken(src: array<byte>, x: nat, n: nat, table: array<int>, hash: (byte, byte, byte) -> Slot,
                   ghost s: seq<byte>)
    returns (t: Token, size: nat)
    requires x < n && n + 2 <= src.Length && s == src[..] && table.Length == HASH_TABLE_SIZE
    requires Earlier(table, x)
    modifies table
    ensures Earlier(table, x + 1)
    ensures 1 <= size && x + size <= n && (t.Back? ==> t.dist <= x)
    ensures Expand(s[..x], t) == s[..x + size]
    ensures Chosen(t, size, s, x, n, old(table[hash(s[x], s[x + 1], s[x + 2])]))
  {
    size := CountRepeats(src, x, n, s);
    if size >= 16 {
      t := Repeat(src[x], size);
    } else {
      NoRun(s, x, n, size);
      t, size := MatchOrLiteral(src, x, n, table, hash, s);
    }
    ChosenExpands(t, size, s, x, n, old(table[hash(s[x], s[x + 1], s[x + 2])]));
  }

  /** All bytes of the source are equal. */
  ghost predicate Uniform(s: seq<byte>, n: nat) { n <= |s| && forall i :: 0 <= i < n ==> s[i] == s[0] }

  lemma {:induction false} ChosenRun(t: Token, size: nat, s: seq<byte>, x: nat, n: nat, p: int)
    requires Chosen(t, size, s, x, n, p) && Uniform(s, n) && n - x >= 16
    ensures size == if n - x < 0xfff then n - x else 0xfff
  {
    assert Runs(s, x, n);
  }

  /** The next token, and the place behind what it stands for. */
  method Choose(src: array<byte>, x: nat, n: nat, table: array<int>, hash: (byte, byte, byte) -> Slot,
                ghost s: seq<byte>)
    returns (t: Token, x': nat)
    requires x < n && n + 2 <= src.Length && s == src[..] && table.Length == HASH_TABLE_SIZE
    requires Earlier(table, x)
    modifies table
    ensures x < x' <= n && Earlier(table, x') && (t.Back? ==> t.dist <= x) && Expand(s[..x], t) == s[..x']
    ensures Uniform(s, n) && n - x >= 16 ==> x' == if n - x < 0xfff then n else x + 0xfff
  {
    var size;
    t, size := NextToken(src, x, n, table, hash, s);
    if Uniform(s, n) && n - x >= 16 {
      ChosenRun(t, size, s, x, n, old(table[hash(s[x], s[x + 1], s[x + 2])]));
    }
    x' := x + size;
  }

  /** Write an item behind those of its group, which start at `z + 2`. */
  method PutItem(dest: array<byte>, ghost z: nat, y: nat, t: Token) returns (y': nat)
    requires z + 2 <= y && y + 4 <= dest.Length
    modifies dest
    ensures y < y' <= y + 4
    ensures dest[..z] == old(dest[..z]) && dest[z + 2..y'] == old(dest[z + 2..y]) + ItemBytes(t)
  {
    match t
    case Literal(b) =>
      dest[y] := b;
      y' := y + 1;
    case Repeat(b, size) =>
      dest[y], dest[y + 1], dest[y + 2], dest[y + 3] := 0, (size - 16) / 256, (size - 16) % 256, b;
      y' := y + 4;
    case Back(dist, size) =>
      var key := dist * 16 + (size - 3);
      dest[y], dest[y + 1] := key / 256, key % 256;
      y' := y + 2;
  }

  // ----- the command word

  /** The sixteen-bit `Command` after `n` shifts to the left. */
  function ShiftLeft(command: nat, n: nat): nat
    decreases n
  {
    if n == 0 then command else ShiftLeft(2 * command % 65536, n - 1)
  }

  /** The last flags shifted into `w` are those of the tokens `g`; above them may stand flags of earlier groups. */
  predicate Holds(w: seq<bool>, g: seq<Token>) {
    |g| <= 16 == |w| && forall i :: 0 <= i < |g| ==> w[16 - |g| + i] == !g[i].Literal?
  }

  /** The flags of `g` stand at the top of `w`, and nothing below them. */
  predicate HoldsAtTop(w: seq<bool>, g: seq<Token>) {
    |g| <= 16 == |w| && forall i :: 0 <= i < 16 ==> w[i] == (i < |g| && !g[i].Literal?)
  }

  lemma {:induction false} TopValue(w: seq<bool>, g: seq<Token>, k: nat)
    requires HoldsAtTop(w, g) && k <= 16
    ensures Value(w[k..]) == if k <= |g| then FlagBits(g, k, 16 - k) else 0
    decreases 16 - k
  {
    if k < 16 {
      ValueFromFront(w[k..]);
      assert w[k..][1..] == w[k + 1..] && w[k..][0] == w[k];
      TopValue(w, g, k + 1);
    }
  }

  /** Shifting `g` to the top drops whatever stood above it. */
  lemma {:induction false} ShiftedToTop(w: seq<bool>, g: seq<Token>, m: nat)
    requires m <= 16 - |g| && |g| <= 16 == |w|
    requires forall i :: 0 <= i < |g| ==> w[m + i] == !g[i].Literal?
    requires forall i :: m + |g| <= i < 16 ==> !w[i]
    ensures ShiftLeft(Value(w), m) == ControlWord(g, 0)
    decreases m
  {
    if m == 0 {
      TopValue(w, g, 0);
      assert w[0..] == w;
    } else {
      var u := w[1..] + [false];
      Shift(w, false);
      assert forall i :: 0 <= i < 15 ==> u[i] == w[i + 1];
      forall i | 0 <= i < |g| ensures u[m - 1 + i] == !g[i].Literal? {
        assert w[m + i] == !g[i].Literal?;
      }
      ShiftedToTop(u, g, m - 1);
    }
  }

  /** The last group: the code shifts by as many bits as are missing. */
  lemma {:induction false} CommandIsControlWord(w: seq<bool>, g: seq<Token>)
    requires Holds(w, g)
    ensures ShiftLeft(Value(w), 16 - |g|) == ControlWord(g, 0) < 65536
  {
    ControlWordFits(g, 0);
    ShiftedToTop(w, g, 16 - |g|);
  }

  lemma {:induction false} HoldsOneMore(w: seq<bool>, g: seq<Token>, t: Token)
    requires Holds(w, g) && |g| < 16
    ensures Holds(w[1..] + [!t.Literal?], g + [t])
    ensures Value(w[1..] + [!t.Literal?]) == (2 * Value(w) + Bit(!t.Literal?)) % 65536
  {
    Shift(w, !t.Literal?);
    var u, h := w[1..] + [!t.Literal?], g + [t];
    forall i | 0 <= i < |h| ensures u[16 - |h| + i] == !h[i].Literal? {
      if i < |g| {
        assert w[16 - |g| + i] == !g[i].Literal?;
      }
    }
  }

  // ----- the block under construction

  lemma {:induction false} AfterAppended(out: seq<byte>, items: seq<Item>, t: Item, o: seq<byte>)
    requires After(out, items) == Some(o) && (t.Back? ==> 1 <= t.dist <= |o|)
    ensures After(out, items + [t]) == Some(Expand(o, t))
  {
    assert (items + [t])[..|items|] == items;
  }

  /** The block under construction: complete groups, the tokens of the next one, and the flags in `Command`. */
  datatype Build = Build(c: Coding, g: seq<Token>, w: seq<bool>)

  /** The tokens so far stand for `plain`; `p` and `q` are the bytes written for the complete groups and the last
      one, whose control word, between the two, is still to come. */
  ghost predicate BuildsBytes(b: Build, p: seq<byte>, q: seq<byte>, plain: seq<byte>) {
    && Full(b.c) && p == Written(b.c) && |b.g| <= 16 && q == Items(b.g, 0)
    && After([], Tokens(b.c) + b.g) == Some(plain)
  }

  /** The flags of the last group's tokens are in the command word. */
  ghost predicate BuildsCommand(b: Build, bit: nat, command: nat) {
    bit == |b.g| && Holds(b.w, b.g) && command == Value(b.w)
  }

  ghost predicate Building(b: Build, p: seq<byte>, q: seq<byte>, plain: seq<byte>, bit: nat, command: nat) {
    BuildsBytes(b, p, q, plain) && BuildsCommand(b, bit, command)
  }

  /** The first `x` bytes of the source are packed; `z` is the place of the control word still to come. */
  ghost predicate Packed(b: Build, s: seq<byte>, x: nat, dest: array<byte>, z: nat, y: nat, bit: nat, command: nat)
    reads dest
  {
    && x <= |s| && z + 2 <= y <= dest.Length
    && Building(b, dest[..z], dest[z + 2..y], s[..x], bit, command)
  }

  lemma {:induction false} NewGroup(b: Build, p: seq<byte>, q: seq<byte>, plain: seq<byte>, command: nat)
    returns (b': Build)
    requires Building(b, p, q, plain, 16, command)
    ensures command < 65536 && Building(b', p + WordBytes(command) + q, [], plain, 0, command)
  {
    b' := Build(Group(b.c, b.g), [], b.w);
    CommandIsControlWord(b.w, b.g);
    assert Tokens(Group(b.c, b.g)) + [] == Tokens(b.c) + b.g;
    assert p + WordBytes(command) + q == p + GroupBytes(b.g);
  }

  /** `Command` after one more flag. */
  function Pushed(command: nat, t: Token): nat {
    (2 * command + Bit(!t.Literal?)) % 65536
  }

  ghost function WithToken(b: Build, t: Token): Build
    requires |b.w| == 16
  {
    Build(b.c, b.g + [t], b.w[1..] + [!t.Literal?])
  }

  lemma {:induction false} TokenBytes(b: Build, p: seq<byte>, q: seq<byte>, plain: seq<byte>, t: Token)
    requires BuildsBytes(b, p, q, plain) && |b.g| < 16 == |b.w| && (t.Back? ==> t.dist <= |plain|)
    ensures BuildsBytes(WithToken(b, t), p, q + ItemBytes(t), Expand(plain, t))
  {
    ItemsOfAppended(b.g, t, 0);
    AfterAppended([], Tokens(b.c) + b.g, t, plain);
    assert Tokens(b.c) + (b.g + [t]) == Tokens(b.c) + b.g + [t];
  }

  lemma {:induction false} TokenFlag(b: Build, bit: nat, command: nat, t: Token)
    requires BuildsCommand(b, bit, command) && bit < 16
    ensures BuildsCommand(WithToken(b, t), bit + 1, Pushed(command, t))
  {
    HoldsOneMore(b.w, b.g, t);
  }

  /** Fill in the control word of a group. */
  method PutControlWord(dest: array<byte>, z: nat, y: nat, word: nat)
    requires z + 2 <= y <= dest.Length && word < 65536
    modifies dest
    ensures dest[..y] == old(dest[..z]) + WordBytes(word) + old(dest[z + 2..y])
  {
    dest[z], dest[z + 1] := word / 256, word % 256;
  }

  lemma {:induction false} OneMoreToken(b: Build, p: seq<byte>, q: seq<byte>, plain: seq<byte>, bit: nat, command: nat,
                                        t: Token)
    returns (b': Build)
    requires Building(b, p, q, plain, bit, command) && bit < 16 && (t.Back? ==> t.dist <= |plain|)
    ensures Building(b', p, q + ItemBytes(t), Expand(plain, t), bit + 1, Pushed(command, t))
  {
    b' := WithToken(b, t);
    TokenBytes(b, p, q, plain, t);
    TokenFlag(b, bit, command, t);
  }

  /** Writes a token behind the others, and its flag into the command word. */
  method PutToken(dest: array<byte>, ghost z: nat, y: nat, bit: nat, command: nat, t: Token, ghost p: seq<byte>,
                  ghost q: seq<byte>)
    returns (y': nat, bit': nat, command': nat)
    requires z + 2 <= y && y + 4 <= dest.Length && p == dest[..z] && q == dest[z + 2..y]
    modifies dest
    ensures y < y' <= y + 4 && bit' == bit + 1 && command' == Pushed(command, t)
    ensures dest[..z] == p && dest[z + 2..y'] == q + ItemBytes(t)
  {
    y' := PutItem(dest, z, y, t);
    bit', command' := bit + 1, if t.Literal? then 2 * command % 65536 else (2 * command + 1) % 65536;
  }

  /** One token, written behind the others. */
  method AddToken(src: array<byte>, x: nat, n: nat, dest: array<byte>, z: nat, y: nat, table: array<int>,
                  hash: (byte, byte, byte) -> Slot, bit: nat, command: nat, ghost b: Build, ghost s: seq<byte>)
    returns (x': nat, y': nat, bit': nat, command': nat, ghost b': Build)
    requires src != dest && x < n && n + 2 <= src.Length && s == src[..] && table.Length == HASH_TABLE_SIZE
    requires Earlier(table, x)
    requires y + 4 <= dest.Length && bit < 16 && Packed(b, s, x, dest, z, y, bit, command)
    modifies dest, table
    ensures x < x' <= n && y < y' <= y + 4 && bit' == bit + 1
    ensures Earlier(table, x') && Packed(b', s, x', dest, z, y', bit', command')
    ensures Uniform(s, n) && n - x >= 16 ==> x' == if n - x < 0xfff then n else x + 0xfff
  {
    ghost var p, q := dest[..z], dest[z + 2..y];
    var t;
    t, x' := Choose(src, x, n, table, hash, s);
    b' := OneMoreToken(b, p, q, s[..x], bit, command, t);
    assert dest[..z] == p && dest[z + 2..y] == q;
    y', bit', command' := PutToken(dest, z, y, bit, command, t, p, q);
  }

  // ----- the compressor

  /** Start a group when the old one is full; its control word is filled in later. */
  method CloseFullGroup(dest: array<byte>, z: nat, y: nat, bit: nat, command: nat, ghost b: Build,
                        ghost plain: seq<byte>)
    returns (z': nat, y': nat, bit': nat, ghost b': Build)
    requires z + 2 <= y && y + 2 <= dest.Length
    requires Building(b, dest[..z], dest[z + 2..y], plain, bit, command)
    modifies dest
    ensures bit' < 16 && z' + 2 <= y' <= y + 2
    ensures Building(b', dest[..z'], dest[z' + 2..y'], plain, bit', command)
  {
    z', y', bit', b' := z, y, bit, b;
    if bit > 15 {
      b' := NewGroup(b, dest[..z], dest[z + 2..y], plain, command);
      PutControlWord(dest, z, y, command);
      z', y', bit' := y, y + 2, 0;
    }
  }

  /** The last group, and the block. */
  method CloseLastGroup(dest: array<byte>, z: nat, y: nat, bit: nat, command: nat, ghost b: Build,
                        ghost plain: seq<byte>)
    requires z + 2 <= y <= dest.Length && bit > 0
    requires Building(b, dest[..z], dest[z + 2..y], plain, bit, command)
    modifies dest
    ensures Decode(dest[..y]) == Some(plain)
  {
    ghost var p, q := dest[..z], dest[z + 2..y];
    CommandIsControlWord(b.w, b.g);
    PutControlWord(dest, z, y, ShiftLeft(command, 16 - bit));
    assert dest[..y] == p + GroupBytes(b.g);
    BlockDecodes(b.c, b.g);
  }

  /** One turn of the loop. */
  method Turn(src: array<byte>, x: nat, n: nat, dest: array<byte>, z: nat, y: nat, table: array<int>,
              hash: (byte, byte, byte) -> Slot, bit: nat, command: nat, ghost b: Build, ghost s: seq<byte>)
    returns (x': nat, z': nat, y': nat, bit': nat, command': nat, ghost b': Build)
    requires src != dest && x < n && n + 2 <= src.Length && s == src[..] && table.Length == HASH_TABLE_SIZE
    requires Earlier(table, x)
    requires y + 6 <= dest.Length && Packed(b, s, x, dest, z, y, bit, command)
    modifies dest, table
    ensures x < x' <= n && y' <= y + 6 && bit' > 0
    ensures Earlier(table, x') && Packed(b', s, x', dest, z', y', bit', command')
    ensures Uniform(s, n) && n - x >= 16 ==> x' == if n - x < 0xfff then n else x + 0xfff
  {
    z', y', bit', b' := CloseFullGroup(dest, z, y, bit, command, b, s[..x]);
    x', y', bit', command', b' := AddToken(src, x, n, dest, z', y', table, hash, bit', command, b', s);
  }

  method Store(src: array<byte>, dest: array<byte>, n: nat)
    requires src != dest && n <= src.Length && n < dest.Length
    modifies dest
    ensures dest[..n + 1] == [FLAG_COPIED] + src[..n]
  {
    forall i | 0 <= i < n {
      dest[1 + i] := src[i];
    }
    dest[0] := FLAG_COPIED;
  }

  /** Close the block, or store the source if the block has become longer than that. */
  method Finish(src: array<byte>, dest: array<byte>, n: nat, z: nat, y: nat, bit: nat, command: nat, ghost b: Build,
                ghost x: nat)
    returns (y': nat)
    requires src != dest && n <= src.Length && n < dest.Length
    requires Packed(b, src[..], x, dest, z, y, bit, command) && (y <= n ==> x == n && bit > 0)
    modifies dest
    ensures y' == if y > n then n + 1 else y
    ensures 1 <= y' <= n + 1 && Decode(dest[..y']) == Some(src[..n])
  {
    if y > n {
      Store(src, dest, n);
      assert dest[..n + 1][1..] == src[..n];
      return n + 1;
    }
    CloseLastGroup(dest, z, y, bit, command, b, src[..x]);
    return y;
  }

  lemma {:induction false} EmptyBlock() returns (b: Build)
    ensures Building(b, [FLAG_COMPRESS], [], [], 0, 0)
  {
    b := Build(Nothing, [], seq(16, _ => false));
    ZeroValue(b.w);
    assert Tokens(Nothing) + [] == [];
  }

  method ClearTable(table: array<int>)
    modifies table
    ensures Earlier(table, 0)
  {
    forall i | 0 <= i < table.Length {
      table[i] := -1;
    }
  }

  /** An empty table and an empty block. */
  method Begin(src: array<byte>, dest: array<byte>, table: array<int>) returns (ghost b: Build)
    requires dest.Length >= 3
    modifies dest, table
    ensures Earlier(table, 0) && Packed(b, [], 0, dest, 1, 3, 0, 0)
  {
    ClearTable(table);
    dest[0] := FLAG_COMPRESS;
    b := EmptyBlock();
    assert dest[..1] == [FLAG_COMPRESS] && dest[3..3] == [];
  }

  /** How long the block is, at place `x`, if all bytes are equal: four bytes and at most two for a control word for
      every 4095, and as much for each of the last fifteen. */
  ghost predicate Dense(x: nat, n: nat, y: nat) {
    || (x % 0xfff == 0 && y <= 3 + 6 * (x / 0xfff))
    || (n - x < 16 && y <= 6 * (n / 0xfff) + 105 - 6 * (n - x))
  }

  lemma {:induction false} StaysDense(x: nat, n: nat, y: nat, x': nat, y': nat)
    requires Dense(x, n, y) && x < x' <= n && y' <= y + 6
    requires n - x >= 16 ==> x' == if n - x < 0xfff then n else x + 0xfff
    ensures Dense(x', n, y')
  {
  }

  /** For every nonempty source and every hash function: the block decodes to the source and is at most one byte
      longer; where all bytes are equal it takes six bytes for every 4095 and at most 105 more. The table is cleared
      first; two bytes behind the source may be read, six behind it written. */
  method Compression(src: array<byte>, dest: array<byte>, n: nat, table: array<int>,
                     hash: (byte, byte, byte) -> Slot)
    returns (y: nat)
    requires src != dest && 1 <= n && n + 2 <= src.Length && n + 6 <= dest.Length
    requires table.Length == HASH_TABLE_SIZE
    modifies dest, table
    ensures 1 <= y <= n + 1 && Decode(dest[..y]) == Some(src[..n])
    ensures Uniform(src[..], n) ==> y <= 6 * (n / 0xfff) + 105
  {
    ghost var b := Begin(src, dest, table);
    ghost var x;
    var z, bit, command;
    x, z, y, bit, command, b := Pack(src, dest, n, table, hash, b);
    y := Finish(src, dest, n, z, y, bit, command, b, x);
  }

  /** The loop: it ends with the source, or when the block has become longer than that. */
  method Pack(src: array<byte>, dest: array<byte>, n: nat, table: array<int>, hash: (byte, byte, byte) -> Slot,
              ghost empty: Build)
    returns (ghost x: nat, z: nat, y: nat, bit: nat, command: nat, ghost b: Build)
    requires src != dest && 1 <= n && n + 2 <= src.Length && n + 6 <= dest.Length
    requires table.Length == HASH_TABLE_SIZE && Earlier(table, 0) && Packed(empty, [], 0, dest, 1, 3, 0, 0)
    modifies dest, table
    ensures Packed(b, src[..], x, dest, z, y, bit, command) && (y <= n ==> x == n && bit > 0)
    ensures Uniform(src[..], n) ==> x <= n && Dense(x, n, y)
  {
    var i := 0;
    x, z, y, bit, command, b := 0, 1, 3, 0, 0, empty;
    ghost var s := src[..];
    assert s[..0] == [];
    while i < n && y <= n
      invariant i == x <= n && y <= n + 6 && (bit == 0 ==> i == 0) && s == src[..]
      invariant Earlier(table, i) && Packed(b, s, i, dest, z, y, bit, command)
      invariant Uniform(s, n) ==> Dense(x, n, y)
      decreases n - i
    {
      ghost var was := y;
      i, z, y, bit, command, b := Turn(src, i, n, dest, z, y, table, hash, bit, command, b, s);
      if Uniform(s, n) {
        StaysDense(x, n, was, i, y);
      }
      x := i;
    }
  }

  lemma {:induction false} ZeroValue(w: seq<bool>)
    requires forall i :: 0 <= i < |w| ==> !w[i]
    ensures Value(w) == 0
    decreases |w|
  {
    if w != [] {
      ZeroValue(w[..|w| - 1]);
    }
  }
}
