/** Option values built from pieces: contrib/dhcp/common/tree.c, with the cache that a value is evaluated into. */
module Tree {
  import opened Bytes

  const MAX_TIME: int := 0x7fff_ffff

  /** A constant, the addresses of a host with the time they hold until, two trees in a row, or the front of a tree. */
  datatype Tree =
    | Const(data: seq<byte>)
    | HostLookup(addresses: seq<byte>, until: int)
    | Concat(left: Tree, right: Tree)
    | Limit(tree: Tree, limit: nat)

  /** The value a tree stands for. */
  function Flat(t: Tree): seq<byte> {
    match t
    case Const(data) => data
    case HostLookup(addresses, _) => addresses
    case Concat(left, right) => Flat(left) + Flat(right)
    case Limit(tree, limit) => if limit <= |Flat(tree)| then Flat(tree)[..limit] else Flat(tree)
  }

  /** How far evaluation moves the buffer index. */
  function Size(t: Tree): nat {
    match t
    case Const(data) => |data|
    case HostLookup(addresses, _) => |addresses|
    case Concat(left, right) => Size(left) + Size(right)
    case Limit(_, limit) => limit
  }

  /** How long the value holds: until the first of its pieces changes. */
  function HoldsUntil(t: Tree): int {
    match t
    case Const(_) => MAX_TIME
    case HostLookup(_, until) => until
    case Concat(left, right) => if HoldsUntil(left) > HoldsUntil(right) then HoldsUntil(right) else HoldsUntil(left)
    case Limit(tree, _) => HoldsUntil(tree)
  }

  /** The times at which the pieces of the value may change. */
  function Ends(t: Tree): set<int> {
    match t
    case Const(_) => {MAX_TIME}
    case HostLookup(_, until) => {until}
    case Concat(left, right) => Ends(left) + Ends(right)
    case Limit(tree, _) => Ends(tree)
  }

  predicate HasLookup(t: Tree) {
    match t
    case Const(_) => false
    case HostLookup(_, _) => true
    case Concat(left, right) => HasLookup(left) || HasLookup(right)
    case Limit(tree, _) => HasLookup(tree)
  }

  /** The value holds until the earliest of them, and without lookups until the last time there is. */
  lemma {:induction false} HoldsUntilFirstEnd(t: Tree)
    ensures HoldsUntil(t) in Ends(t) && forall x :: x in Ends(t) ==> HoldsUntil(t) <= x
    ensures !HasLookup(t) ==> HoldsUntil(t) == MAX_TIME
  {
    match t
    case Concat(left, right) =>
      HoldsUntilFirstEnd(left);
      HoldsUntilFirstEnd(right);
    case Limit(tree, _) =>
      HoldsUntilFirstEnd(tree);
    case _ =>
  }

  /** Every limited tree is at least as long as its limit. */
  predicate Long(t: Tree) {
    match t
    case Const(_) => true
    case HostLookup(_, _) => true
    case Concat(left, right) => Long(left) && Long(right)
    case Limit(tree, limit) => Long(tree) && limit <= |Flat(tree)|
  }

  /** The limited trees that are not themselves under a limit are at least as long as theirs. */
  predicate LongOutside(t: Tree) {
    match t
    case Const(_) => true
    case HostLookup(_, _) => true
    case Concat(left, right) => LongOutside(left) && LongOutside(right)
    case Limit(tree, limit) => limit <= |Flat(tree)|
  }

  /** Evaluation gets the length of the value right exactly when no tree under an outer limit is shorter than it. */
  lemma {:induction false} SizeIsLength(t: Tree)
    ensures Size(t) >= |Flat(t)|
    ensures Size(t) == |Flat(t)| <==> LongOutside(t)
    ensures Long(t) ==> LongOutside(t)
  {
    if t.Concat? {
      SizeIsLength(t.left);
      SizeIsLength(t.right);
    }
  }

  // ---- what evaluation leaves in a buffer ----

  /** The byte that evaluation leaves at place `i`; None if what was there before stays. */
  function Byte(t: Tree, i: nat): Option<byte> {
    match t
    case Const(data) => if i < |data| then Some(data[i]) else None
    case HostLookup(addresses, _) => if i < |addresses| then Some(addresses[i]) else None
    case Concat(left, right) =>
      if i >= Size(left) && Byte(right, i - Size(left)).Some? then Byte(right, i - Size(left)) else Byte(left, i)
    case Limit(tree, _) => Byte(tree, i)
  }

  function ByteOver(t: Tree, i: nat, was: byte): byte {
    if Byte(t, i).Some? then Byte(t, i).value else was
  }

  /** The value evaluation gives in a buffer that held `was`. */
  function Evaluated(t: Tree, was: seq<byte>): seq<byte>
    requires |was| >= Size(t)
  {
    seq(Size(t), i requires 0 <= i < Size(t) => ByteOver(t, i, was[i]))
  }

  /** Evaluation itself leaves every byte of the value, and no other. */
  predicate Complete(t: Tree) {
    Size(t) == |Flat(t)| && forall i :: 0 <= i < |Flat(t)| ==> Byte(t, i) == Some(Flat(t)[i])
  }

  /** The value is right whatever the buffer held before. */
  ghost predicate Right(t: Tree) {
    forall was: seq<byte> :: |was| >= Size(t) ==> Evaluated(t, was) == Flat(t)
  }

  /** No limited tree has another limit inside. */
  predicate LimitsApart(t: Tree) {
    match t
    case Const(_) => true
    case HostLookup(_, _) => true
    case Concat(left, right) => LimitsApart(left) && LimitsApart(right)
    case Limit(tree, _) => Unlimited(tree)
  }

  predicate Unlimited(t: Tree) {
    match t
    case Const(_) => true
    case HostLookup(_, _) => true
    case Concat(left, right) => Unlimited(left) && Unlimited(right)
    case Limit(_, _) => false
  }

  lemma {:induction false} CompleteIsRight(t: Tree)
    requires Complete(t)
    ensures Right(t)
  {
  }

  /** Two buffers that differ everywhere show what evaluation leaves alone. */
  lemma {:induction false} RightIsComplete(t: Tree)
    requires Right(t)
    ensures Complete(t)
  {
    var zeros, ones := seq(Size(t), i => 0 as byte), seq(Size(t), i => 1 as byte);
    assert Evaluated(t, zeros) == Flat(t) && Evaluated(t, ones) == Flat(t);
    forall i | 0 <= i < |Flat(t)| ensures Byte(t, i) == Some(Flat(t)[i]) {
      assert Evaluated(t, zeros)[i] == Evaluated(t, ones)[i];
    }
  }

  /** The value is right in every buffer if and only if evaluation leaves every byte of it. */
  lemma {:induction false} RightIsCompleteness(t: Tree)
    ensures Right(t) <==> Complete(t)
  {
    if Right(t) {
      RightIsComplete(t);
    } else if Complete(t) {
      CompleteIsRight(t);
    }
  }

  lemma {:induction false} LongIsComplete(t: Tree)
    requires Long(t)
    ensures Complete(t)
  {
    SizeIsLength(t);
    match t
    case Concat(left, right) =>
      LongIsComplete(left);
      LongIsComplete(right);
    case Limit(tree, limit) =>
      LongIsComplete(tree);
    case _ =>
  }

  lemma {:induction false} UnlimitedIsLong(t: Tree)
    requires Unlimited(t)
    ensures Long(t)
  {
    if t.Concat? {
      UnlimitedIsLong(t.left);
      UnlimitedIsLong(t.right);
    }
  }

  lemma {:induction false} ApartIsLong(t: Tree)
    requires LimitsApart(t) && LongOutside(t)
    ensures Long(t)
  {
    match t
    case Concat(left, right) =>
      ApartIsLong(left);
      ApartIsLong(right);
    case Limit(tree, limit) =>
      UnlimitedIsLong(tree);
    case _ =>
  }

  /**
    * Trees whose limits are all met are right; of those without a limit inside another, such as the parser of the
    * configuration builds, no others are.
    */
  lemma {:induction false} RightIsLong(t: Tree)
    ensures Long(t) ==> Right(t)
    ensures LimitsApart(t) ==> (Right(t) <==> Long(t))
    ensures Right(t) ==> LongOutside(t)
  {
    SizeIsLength(t);
    RightIsCompleteness(t);
    if Long(t) {
      LongIsComplete(t);
    }
    if LimitsApart(t) && LongOutside(t) {
      ApartIsLong(t);
    }
  }

  /** A lookup without an address, limited to four bytes as for a single address, leaves all four as they were. */
  lemma {:induction false} NoAddressIsStale(until: int, was: seq<byte>)
    requires |was| >= 4
    ensures var t := Limit(HostLookup([], until), 4);
            && Flat(t) == [] && Evaluated(t, was) == was[..4] && !Right(t)
  {
    var none := HostLookup([], until);
    var t := Limit(none, 4);
    assert Flat(none) == [];
    RightIsLong(t);
    forall i | 0 <= i < 4 ensures Evaluated(t, was)[i] == was[i] {
      assert Byte(t, i) == Byte(none, i) == None;
    }
  }

  /** A limit that is not met inside another need not matter. */
  lemma {:induction false} InnerLimitCanBeUnmet(b: byte, until: int)
    ensures var t := Limit(Limit(HostLookup([b], until), 5), 1);
            Right(t) && !Long(t)
  {
    var one := HostLookup([b], until);
    var inner := Limit(one, 5);
    var t := Limit(inner, 1);
    assert Flat(one) == [b] && Flat(inner) == [b] && Flat(t) == [b];
    assert Byte(t, 0) == Byte(inner, 0) == Byte(one, 0) == Some(b);
    RightIsCompleteness(t);
  }

  // ---- building ----

  function Min(a: int, b: int): int { if a <= b then a else b }

  /** tree_concat: constants are joined at once. None stands for no tree. */
  method TreeConcat(left: Option<Tree>, right: Option<Tree>) returns (t: Option<Tree>)
    ensures t.None? <==> left.None? && right.None?
    ensures t.Some? ==> Flat(t.value) == (if left.Some? then Flat(left.value) else [])
                                       + (if right.Some? then Flat(right.value) else [])
    ensures left.None? ==> t == right
    ensures right.None? ==> t == left
    ensures left.Some? && right.Some? ==>
              t.Some? && HoldsUntil(t.value) == Min(HoldsUntil(left.value), HoldsUntil(right.value))
    ensures (left.Some? ==> Long(left.value)) && (right.Some? ==> Long(right.value)) && t.Some? ==> Long(t.value)
  {
    if left.None? {
      assert right.Some? ==> [] + Flat(right.value) == Flat(right.value);
      return right;
    }
    if right.None? {
      return left;
    }
    if left.value.Const? && right.value.Const? {
      return Some(Const(left.value.data + right.value.data));
    }
    return Some(Concat(left.value, right.value));
  }

  /** tree_limit: a constant is cut off at once. */
  method TreeLimit(tree: Tree, limit: nat) returns (t: Tree)
    ensures Flat(t) == if limit <= |Flat(tree)| then Flat(tree)[..limit] else Flat(tree)
    ensures HoldsUntil(t) == HoldsUntil(tree)
    ensures Long(tree) && (tree.Const? || limit <= |Flat(tree)|) ==> Long(t)
  {
    if tree.Const? {
      if |tree.data| > limit {
        return Const(tree.data[..limit]);
      }
      return tree;
    }
    return Limit(tree, limit);
  }

  // ---- evaluating ----

  /** do_data_copy: copies what fits, and moves on by all there is. */
  method DataCopy(buffer: array<byte>, bufix: nat, data: seq<byte>) returns (next: nat)
    modifies buffer
    ensures next == bufix + |data|
    ensures forall i {:trigger buffer[i]} :: 0 <= i < buffer.Length ==>
              buffer[i] == if bufix <= i < bufix + |data| then data[i - bufix] else old(buffer[i])
  {
    var space := buffer.Length - bufix;
    if space > |data| {
      space := |data|;
    }
    var k := 0;
    while k < space
      invariant k == 0 || 0 < k <= space
      invariant forall i {:trigger buffer[i]} :: 0 <= i < buffer.Length ==>
                  buffer[i] == if bufix <= i < bufix + k then data[i - bufix] else old(buffer[i])
    {
      buffer[bufix + k] := data[k];
      k := k + 1;
    }
    next := bufix + |data|;
  }

  /** In `buffer`, `t` has been evaluated at `at` over what it held before. */
  ghost predicate Holds(buffer: array<byte>, was: seq<byte>, at: nat, t: Tree)
    requires buffer.Length == |was|
    reads buffer
  {
    && (forall i {:trigger buffer[i]} :: 0 <= i < at && i < buffer.Length ==> buffer[i] == was[i])
    && (forall i {:trigger buffer[i]} :: at <= i < buffer.Length ==> buffer[i] == ByteOver(t, i - at, was[i]))
  }

  /** tree_evaluate_recurse: writes what fits of the pieces, from `bufix` on. */
  method EvaluateRecurse(buffer: array<byte>, bufix: nat, t: Tree) returns (next: nat, until: int)
    modifies buffer
    ensures next == bufix + Size(t) && until == HoldsUntil(t)
    ensures Holds(buffer, old(buffer[..]), bufix, t)
    decreases t
  {
    match t
    case Const(data) =>
      next := DataCopy(buffer, bufix, data);
      until := MAX_TIME;
    case HostLookup(addresses, time) =>
      next := DataCopy(buffer, bufix, addresses);
      until := time;
    case Concat(left, right) =>
      var t1, t2, middle;
      middle, t1 := EvaluateRecurse(buffer, bufix, left);
      next, t2 := EvaluateRecurse(buffer, middle, right);
      until := if t1 > t2 then t2 else t1;
    case Limit(tree, limit) =>
      var full;
      full, until := EvaluateRecurse(buffer, bufix, tree);
      next := bufix + limit;
  }

  lemma {:induction false} HeldIsEvaluated(buffer: array<byte>, was: seq<byte>, t: Tree)
    requires buffer.Length == |was| >= Size(t) && Holds(buffer, was, 0, t)
    ensures buffer[..Size(t)] == Evaluated(t, was)
  {
  }

  class TreeCache {
    var value: array<byte>
    var len: nat
    var timeout: int
    const tree: Option<Tree>

    constructor (tree: Option<Tree>)
      ensures this.tree == tree && len == 0 && value.Length == 0 && fresh(value)
    {
      this.tree, len, timeout, value := tree, 0, 0, new byte[0];
    }

    /**
      * tree_evaluate: whatever size the buffer of the cache has, the value ends up in it; a larger one is got only if
      * the value does not fit. A cache without a tree holds a constant, which stays.
      */
    method Evaluate()
      modifies this, value
      ensures tree.None? ==>
        len == old(len) && timeout == old(timeout) && value == old(value) && value[..] == old(value[..])
      ensures tree.Some? ==>
        && len == Size(tree.value) <= value.Length && timeout == HoldsUntil(tree.value)
        && (if len <= old(value.Length) then value == old(value) else fresh(value) && value.Length == len)
        && (len <= old(value.Length) ==> value[..len] == Evaluated(tree.value, old(value[..])))
        && (exists was: seq<byte> :: |was| >= len && value[..len] == Evaluated(tree.value, was))
        && (Right(tree.value) ==> value[..len] == Flat(tree.value))
    {
      if tree.None? {
        return;
      }
      ghost var was := value[..];
      var bufix, until := EvaluateRecurse(value, 0, tree.value);
      timeout := until;
      if bufix > value.Length {
        var bp := new byte[bufix];
        was := bp[..];
        var again;
        bufix, again := EvaluateRecurse(bp, 0, tree.value);
        value := bp;
      }
      len := bufix;
      HeldIsEvaluated(value, was, tree.value);
    }
  }
}
