/** A compressed block as groups of sixteen tokens, and its way through the decoder. */
module LzrwBlocks {
  import opened Arithmetic
  import opened Bytes
  import opened LzrwFormat

  // ----- one group

  /** The bytes of the tokens from number `k` on. */
  function Items(g: seq<Token>, k: nat): (r: seq<byte>)
    requires k <= |g|
    ensures k < |g| ==> |r| > 0
    decreases |g| - k
  {
    if k == |g| then [] else ItemBytes(g[k]) + Items(g, k + 1)
  }

  /** The flags of the tokens from number `k` on, in `n` bits from the highest one down. */
  function FlagBits(g: seq<Token>, k: nat, n: nat): (r: nat)
    requires k <= |g| <= k + n
    decreases |g| - k
  {
    if k == |g| then 0
    else (if g[k].Literal? then 0 else Power(n - 1)) + FlagBits(g, k + 1, n - 1)
  }

  lemma {:induction false} FlagBitsDouble(g: seq<Token>, k: nat, n: nat)
    requires k <= |g| <= k + n
    ensures FlagBits(g, k, n + 1) == 2 * FlagBits(g, k, n) && FlagBits(g, k, n) < Power(n)
    decreases n
  {
    if k < |g| {
      FlagBitsDouble(g, k + 1, n - 1);
    } else if n > 0 {
      FlagBitsDouble(g, k, n - 1);
    }
  }

  /** The control word when the flags of the first `k` tokens have been shifted out. */
  function ControlWord(g: seq<Token>, k: nat): nat
    requires k <= |g| <= 16
  {
    FlagBits(g, k, 16)
  }

  lemma {:induction false} ControlWordFits(g: seq<Token>, k: nat)
    requires k <= |g| <= 16
    ensures ControlWord(g, k) < 65536
  {
    TopBitOfWord();
    FlagBitsDouble(g, k, 16);
  }

  /** A 16-bit word, high byte first. */
  function WordBytes(v: nat): (r: seq<byte>)
    ensures |r| == 2 && (v < 65536 ==> 256 * r[0] as int + r[1] == v)
  {
    [v / 256 % 256, v % 256]
  }

  function GroupBytes(g: seq<Token>): (r: seq<byte>)
    requires |g| <= 16
    ensures |r| == 2 + |Items(g, 0)|
  {
    WordBytes(ControlWord(g, 0)) + Items(g, 0)
  }

  lemma {:induction false} ItemsOfAppended(g: seq<Token>, t: Token, k: nat)
    requires k <= |g|
    ensures Items(g + [t], k) == Items(g, k) + ItemBytes(t)
    decreases |g| - k
  {
    if k < |g| {
      ItemsOfAppended(g, t, k + 1);
      Join(ItemBytes(g[k]), Items(g, k + 1), ItemBytes(t));
    } else {
      assert Items(g + [t], k + 1) == [];
    }
  }

  lemma {:induction false} Join(a: seq<byte>, b: seq<byte>, c: seq<byte>)
    ensures a + (b + c) == (a + b) + c
  {
  }

  // ----- the decoder over one group

  lemma {:induction false} ReadsRepeat(s: seq<byte>, x: nat, t: Token)
    requires t.Repeat? && At(s, x, ItemBytes(t))
    ensures ReadItem(s, x, true) == Some((t, x + 4))
  {
    var item := ItemBytes(t);
    assert s[x] == item[0] && s[x + 1] == item[1] && s[x + 2] == item[2] && s[x + 3] == item[3];
  }

  lemma {:induction false} ReadsBack(s: seq<byte>, x: nat, t: Token)
    requires t.Back? && At(s, x, ItemBytes(t))
    ensures ReadItem(s, x, true) == Some((t, x + 2))
  {
    var item := ItemBytes(t);
    assert s[x] == item[0] && s[x + 1] == item[1];
  }

  /** Tokens are read back: a repeat is never taken for a match, nor a match for a repeat. */
  lemma {:induction false} ReadsItem(s: seq<byte>, x: nat, t: Token)
    requires At(s, x, ItemBytes(t))
    ensures ReadItem(s, x, !t.Literal?) == Some((t, x + |ItemBytes(t)|))
  {
    match t
    case Literal(b) => assert s[x] == ItemBytes(t)[0];
    case Repeat(b, size) => ReadsRepeat(s, x, t);
    case Back(dist, size) => ReadsBack(s, x, t);
  }

  /** The flag of the next token is the sign bit of the control word, and a shift takes it away. */
  lemma {:induction false} ControlWordShift(g: seq<Token>, k: nat)
    requires k < |g| <= 16
    ensures ControlWord(g, k) >= 0x8000 <==> !g[k].Literal?
    ensures 2 * ControlWord(g, k) % 65536 == ControlWord(g, k + 1)
  {
    FlagBitsDouble(g, k + 1, 15);
    TopBitOfWord();
    Overflow(Bit(!g[k].Literal?), FlagBits(g, k + 1, 15), 0);
  }

  /** The decoder at `x`, having read `items`, the last of them the first `k` of the group `g`. */
  function Inside(x: nat, g: seq<Token>, k: nat, items: seq<Item>): State
    requires k <= |g| <= 16
  {
    State(x, ControlWord(g, k), 16 - k, items)
  }

  lemma {:induction false} RunsStep(s: seq<byte>, d: State, e: State)
    requires d.x < |s| && Step(s, d) == Some(e)
    ensures Run(s, d) == Run(s, e)
  {
  }

  /** The decoder finds the token's flag on top of the command word and its item at its place. */
  lemma {:induction false} TakesToken(s: seq<byte>, x: nat, g: seq<Token>, k: nat, items: seq<Item>)
    requires k < |g| <= 16 && At(s, x, ItemBytes(g[k]))
    ensures Take(s, Inside(x, g, k, items)) == Some(Inside(x + |ItemBytes(g[k])|, g, k + 1, items + [g[k]]))
  {
    ReadsItem(s, x, g[k]);
    ControlWordShift(g, k);
  }

  lemma {:induction false} RunsToken(s: seq<byte>, x: nat, g: seq<Token>, k: nat, items: seq<Item>)
    requires k < |g| <= 16 && At(s, x, ItemBytes(g[k]))
    ensures Run(s, Inside(x, g, k, items)) ==
            Run(s, Inside(x + |ItemBytes(g[k])|, g, k + 1, items + [g[k]]))
  {
    TakesToken(s, x, g, k, items);
    RunsStep(s, Inside(x, g, k, items), Inside(x + |ItemBytes(g[k])|, g, k + 1, items + [g[k]]));
  }

  lemma {:induction false} Regroup(items: seq<Item>, g: seq<Token>, k: nat)
    requires k < |g|
    ensures items + [g[k]] + g[k + 1..] == items + g[k..]
  {
  }

  lemma {:induction false} ItemsAt(s: seq<byte>, x: nat, g: seq<Token>, k: nat)
    requires k < |g| && At(s, x, Items(g, k))
    ensures At(s, x, ItemBytes(g[k])) && At(s, x + |ItemBytes(g[k])|, Items(g, k + 1))
    ensures |Items(g, k)| == |ItemBytes(g[k])| + |Items(g, k + 1)|
  {
    AtConcat(s, x, ItemBytes(g[k]), Items(g, k + 1));
  }

  /** The tokens of a group from number `k` on. */
  lemma {:induction false} RunsTokens(s: seq<byte>, x: nat, g: seq<Token>, k: nat, items: seq<Item>, end: nat,
                                      all: seq<Item>)
    requires k <= |g| <= 16 && At(s, x, Items(g, k))
    requires end == x + |Items(g, k)| && all == items + g[k..]
    ensures Run(s, Inside(x, g, k, items)) == Run(s, Inside(end, g, |g|, all))
    decreases |g| - k
  {
    if k == |g| {
      assert items + g[k..] == items;
    } else {
      ItemsAt(s, x, g, k);
      Regroup(items, g, k);
      RunsToken(s, x, g, k, items);
      RunsTokens(s, x + |ItemBytes(g[k])|, g, k + 1, items + [g[k]], end, all);
    }
  }

  // ----- the decoder over the block

  /** With no flag left the decoder takes the next two bytes for its command word. */
  lemma {:induction false} RunRefills(s: seq<byte>, x: nat, items: seq<Item>)
    requires x + 2 < |s|
    ensures Run(s, State(x, 0, 0, items)) == Run(s, State(x + 2, 256 * s[x] as int + s[x + 1], 16, items))
  {
    var d, e := State(x, 0, 0, items), State(x + 2, 256 * s[x] as int + s[x + 1], 16, items);
    assert Refill(s, d) == Some(e) == Refill(s, e);
  }

  lemma {:induction false} WordAt(s: seq<byte>, x: nat, v: nat)
    requires v < 65536 && At(s, x, WordBytes(v))
    ensures 256 * s[x] as int + s[x + 1] == v
  {
  }

  lemma {:induction false} GroupAt(s: seq<byte>, x: nat, g: seq<Token>)
    requires 1 <= |g| <= 16 && At(s, x, GroupBytes(g))
    ensures x + 2 < |s| && At(s, x + 2, Items(g, 0)) && 256 * s[x] as int + s[x + 1] == ControlWord(g, 0)
  {
    AtConcat(s, x, WordBytes(ControlWord(g, 0)), Items(g, 0));
    ControlWordFits(g, 0);
    WordAt(s, x, ControlWord(g, 0));
  }

  /** From the place of a control word, with no flag left, to the end of its group. */
  lemma {:induction false} RunsGroup(s: seq<byte>, x: nat, g: seq<Token>, items: seq<Item>)
    requires 1 <= |g| <= 16 && At(s, x, GroupBytes(g))
    ensures Run(s, State(x, 0, 0, items)) == Run(s, State(x + |GroupBytes(g)|, 0, 16 - |g|, items + g))
  {
    GroupAt(s, x, g);
    RunRefills(s, x, items);
    assert items + g[0..] == items + g;
    assert ControlWord(g, |g|) == 0;
    RunsTokens(s, x + 2, g, 0, items, x + |GroupBytes(g)|, items + g);
  }

  /** The groups that are complete. */
  datatype Coding = Nothing | Group(before: Coding, tokens: seq<Token>)

  predicate Full(c: Coding) {
    c.Group? ==> |c.tokens| == 16 && Full(c.before)
  }

  function Tokens(c: Coding): seq<Token> {
    match c
    case Nothing => []
    case Group(b, g) => Tokens(b) + g
  }

  /** The bytes of the block. */
  function Written(c: Coding): (r: seq<byte>)
    requires Full(c)
    ensures |r| >= 1 && r[0] == FLAG_COMPRESS
  {
    match c
    case Nothing => [FLAG_COMPRESS]
    case Group(b, g) => Written(b) + GroupBytes(g)
  }

  lemma {:induction false} GroupsAt(s: seq<byte>, b: Coding, g: seq<Token>)
    requires Full(b) && |g| == 16 && At(s, 0, Written(Group(b, g)))
    ensures At(s, 0, Written(b)) && At(s, |Written(b)|, GroupBytes(g))
    ensures |Written(Group(b, g))| == |Written(b)| + |GroupBytes(g)|
  {
    AtConcat(s, 0, Written(b), GroupBytes(g));
  }

  lemma {:induction false} RunsGroups(s: seq<byte>, c: Coding)
    requires Full(c) && At(s, 0, Written(c))
    ensures Run(s, State(1, 0, 0, [])) == Run(s, State(|Written(c)|, 0, 0, Tokens(c)))
  {
    match c
    case Nothing =>
    case Group(b, g) =>
      GroupsAt(s, b, g);
      RunsGroups(s, b);
      RunsGroup(s, |Written(b)|, g, Tokens(b));
  }

  lemma {:induction false} BlockAt(s: seq<byte>, c: Coding, g: seq<Token>)
    requires Full(c) && 1 <= |g| <= 16 && s == Written(c) + GroupBytes(g)
    ensures At(s, 0, Written(c)) && At(s, |Written(c)|, GroupBytes(g)) && s[0] == FLAG_COMPRESS
  {
    AtConcat(s, 0, Written(c), GroupBytes(g));
  }

  lemma {:induction false} BlockRuns(s: seq<byte>, c: Coding, g: seq<Token>)
    requires Full(c) && 1 <= |g| <= 16 && s == Written(c) + GroupBytes(g)
    ensures |s| > 3 && s[0] == FLAG_COMPRESS && Run(s, State(1, 0, 0, [])) == Some(Tokens(c) + g)
  {
    BlockAt(s, c, g);
    GroupAt(s, |Written(c)|, g);
    RunsGroups(s, c);
    RunsGroup(s, |Written(c)|, g, Tokens(c));
  }

  /** The decoder has read the first control word before it looks for a first item. */
  lemma {:induction false} DecodesRun(s: seq<byte>, items: seq<Item>)
    requires |s| > 3 && s[0] == FLAG_COMPRESS && Run(s, State(1, 0, 0, [])) == Some(items)
    ensures Decode(s) == After([], items)
  {
    RunRefills(s, 1, []);
  }

  /** The whole block decodes to what the tokens stand for. */
  lemma {:induction false} BlockDecodes(c: Coding, g: seq<Token>)
    requires Full(c) && 1 <= |g| <= 16
    ensures Decode(Written(c) + GroupBytes(g)) == After([], Tokens(c) + g)
  {
    var s := Written(c) + GroupBytes(g);
    BlockRuns(s, c, g);
    DecodesRun(s, Tokens(c) + g);
  }
}
