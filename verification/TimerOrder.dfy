/** First in, first out among the timeouts of contrib/dhcp/common/dispatch.c that are due at the same time. */
module TimerOrder {
  import opened Bytes
  import opened TimerQueue

  /** The place of a key in the queue; behind all of it if it is not there. */
  function Place(q: seq<Entry>, key: Key): nat { Find(q, key, 0) }

  lemma {:induction false} PlaceIs(q: seq<Entry>, key: Key, i: nat)
    requires Unique(q) && i < |q| && q[i].key == key
    ensures Place(q, key) == i
  {
  }

  /** Where the others stand after one is cancelled. */
  lemma {:induction false} PlaceWithout(q: seq<Entry>, key: Key, other: Key)
    requires Sorted(q) && Unique(q) && other != key && Place(q, other) < |q|
    ensures Place(Without(q, key), other) == Place(q, other) - (if Place(q, key) < Place(q, other) then 1 else 0)
  {
    WithoutKeeps(q, key);
    var p, i := Place(q, key), Place(q, other);
    if p < |q| {
      WithoutHas(q, key, i);
      PlaceIs(Without(q, key), other, if i < p then i else i - 1);
    } else {
      WithoutIs(q, key);
    }
  }

  /** Where the others stand after one is added. */
  lemma {:induction false} PlaceAdded(q: seq<Entry>, key: Key, when: int, other: Key)
    requires Sorted(q) && Unique(q) && other != key && Place(q, other) < |q|
    ensures Place(Added(q, key, when), other)
         == Place(Without(q, key), other)
            + if Place(Without(q, key), other) < Later(Without(q, key), when, 0) then 0 else 1
  {
    WithoutKeeps(q, key);
    AddedKeeps(q, key, when);
    PlaceWithout(q, key, other);
    var r := Without(q, key);
    var i := Place(r, other);
    WithoutIs(q, key);
    QueuedHas(r, Entry(key, when), i);
    PlaceIs(Added(q, key, when), other, if i < Later(r, when, 0) then i else i + 1);
  }

  /** A change to one key leaves the order of two others as it was. */
  lemma {:induction false} OthersKeepOrder(q: seq<Entry>, c: Change, a: Key, b: Key)
    requires Sorted(q) && Unique(q) && a != b && c.key != a && c.key != b
    requires Place(q, a) < |q| && Place(q, b) < |q|
    ensures Place(Changed(q, c), a) < Place(Changed(q, c), b) <==> Place(q, a) < Place(q, b)
  {
    PlaceWithout(q, c.key, a);
    PlaceWithout(q, c.key, b);
    if c.Add? {
      PlaceAdded(q, c.key, c.when, a);
      PlaceAdded(q, c.key, c.when, b);
    }
  }

  /** One that is added goes behind any other with its deadline. */
  lemma {:induction false} AddedBehind(q: seq<Entry>, key: Key, when: int, other: Key)
    requires Sorted(q) && Unique(q) && other != key && Due(q, other) == Some(when)
    ensures Place(Added(q, key, when), other) < Place(Added(q, key, when), key)
  {
    AddedIsLast(q, key, when);
    AddedIsUpdate(q, key, when, other);
  }

  lemma {:induction false} ChangedIsUpdate(q: seq<Entry>, c: Change, key: Key)
    requires Sorted(q) && Unique(q)
    ensures Due(Changed(q, c), key)
         == if c.key != key then Due(q, key) else if c.Add? then Some(c.when) else None
  {
    if c.Add? {
      AddedIsUpdate(q, c.key, c.when, key);
    } else {
      WithoutIsRemoval(q, c.key, key);
    }
  }

  /** The order of two keys with the same deadline, after one change more. */
  lemma {:induction false} ChangedIsInOrder(q: seq<Entry>, c: Change, r: seq<Entry>, a: Key, b: Key)
    requires Sorted(q) && Unique(q) && a != b && r == Changed(q, c)
    requires Due(r, a).Some? && Due(r, b) == Due(r, a)
    ensures c.key == a || c.key == b ==> c.Add?
    ensures c.key != a && c.key != b ==> Due(q, a).Some? && Due(q, b) == Due(q, a)
    ensures Place(r, a) < Place(r, b)
       <==> if c.key == a then false else if c.key == b then true else Place(q, a) < Place(q, b)
  {
    ChangedIsUpdate(q, c, a);
    ChangedIsUpdate(q, c, b);
    if c.key == a {
      AddedBehind(q, a, c.when, b);
    } else if c.key == b {
      AddedBehind(q, b, c.when, a);
    } else {
      OthersKeepOrder(q, c, a, b);
    }
  }

  /** The number of the change that last added `key`, counted from one; zero if none did. */
  function LastAdd(changes: seq<Change>, n: nat, key: Key): (k: nat)
    requires n <= |changes|
    ensures k <= n
  {
    if n == 0 then 0
    else if changes[n - 1].Add? && changes[n - 1].key == key then n
    else LastAdd(changes, n - 1, key)
  }

  /** `a` was added before `b`, or both are there from the beginning in this order. */
  predicate AddedBefore(q: seq<Entry>, changes: seq<Change>, n: nat, a: Key, b: Key)
    requires n <= |changes|
  {
    var i, j := LastAdd(changes, n, a), LastAdd(changes, n, b);
    i < j || (i == j == 0 && Place(q, a) < Place(q, b))
  }

  /** One change more, which may be to one of two keys. */
  lemma {:induction false} AddedBeforeStep(q: seq<Entry>, changes: seq<Change>, n: nat, a: Key, b: Key)
    requires 0 < n <= |changes| && a != b
    ensures AddedBefore(q, changes, n, a, b)
       <==> if changes[n - 1].Add? && changes[n - 1].key == a then false
            else if changes[n - 1].Add? && changes[n - 1].key == b then true
            else AddedBefore(q, changes, n - 1, a, b)
  {
  }

  lemma {:induction false} AfterStep(q: seq<Entry>, changes: seq<Change>, n: nat, r: seq<Entry>)
    requires 0 < n <= |changes| && r == After(q, changes, n - 1)
    ensures After(q, changes, n) == Changed(r, changes[n - 1])
  {
  }

  /** Of two keys with the same deadline, the one added first stands first, whatever else has been changed. */
  lemma {:induction false} AfterIsInOrder(q: seq<Entry>, changes: seq<Change>, n: nat, a: Key, b: Key)
    requires Sorted(q) && Unique(q) && n <= |changes| && a != b
    requires Due(After(q, changes, n), a).Some? && Due(After(q, changes, n), b) == Due(After(q, changes, n), a)
    ensures Place(After(q, changes, n), a) < Place(After(q, changes, n), b) <==> AddedBefore(q, changes, n, a, b)
  {
    if n > 0 {
      var r, c := After(q, changes, n - 1), changes[n - 1];
      AfterIsMap(q, changes, n - 1, a);
      AfterStep(q, changes, n, r);
      ChangedIsInOrder(r, c, After(q, changes, n), a, b);
      AddedBeforeStep(q, changes, n, a, b);
      if c.key != a && c.key != b {
        AfterIsInOrder(q, changes, n - 1, a, b);
      }
    }
  }

  // ---- runs ----

  /** What an action changes: the timeout that fires leaves the queue before its handler runs. */
  function Made(q: seq<Entry>, a: Action): seq<Change> {
    match a
    case Call(change) => [change]
    case Expiry(now, handler) => if Fires(q, now) then [Cancel(q[0].key)] + handler(q[0].key) else []
  }

  /** All changes made by the first `n` actions. */
  function History(q: seq<Entry>, actions: seq<Action>, n: nat): seq<Change>
    requires n <= |actions|
  {
    if n == 0 then [] else History(q, actions, n - 1) + Made(Ran(q, actions, n - 1), actions[n - 1])
  }

  lemma {:induction false} AfterFirst(q: seq<Entry>, xs: seq<Change>, ys: seq<Change>, n: nat)
    requires n <= |xs|
    ensures After(q, xs + ys, n) == After(q, xs, n)
  {
    if n > 0 {
      AfterFirst(q, xs, ys, n - 1);
      assert (xs + ys)[n - 1] == xs[n - 1];
    }
  }

  /** Changes after changes. */
  lemma {:induction false} AfterBoth(q: seq<Entry>, xs: seq<Change>, ys: seq<Change>, n: nat)
    requires n <= |ys|
    ensures After(q, xs + ys, |xs| + n) == After(After(q, xs, |xs|), ys, n)
  {
    if n == 0 {
      AfterFirst(q, xs, ys, |xs|);
    } else {
      AfterBoth(q, xs, ys, n - 1);
      assert (xs + ys)[|xs| + n - 1] == ys[n - 1];
    }
  }

  lemma {:induction false} HeadIsCancelled(q: seq<Entry>)
    requires q != []
    ensures Without(q, q[0].key) == q[1..]
  {
  }

  lemma {:induction false} ActedIsAfter(q: seq<Entry>, a: Action)
    ensures Acted(q, a) == After(q, Made(q, a), |Made(q, a)|)
  {
    match a
    case Call(change) =>
      AfterOne(q, change);
    case Expiry(now, handler) =>
      if Fires(q, now) {
        HeadIsCancelled(q);
        var fired, more := [Cancel(q[0].key)], handler(q[0].key);
        AfterOne(q, fired[0]);
        AfterBoth(q, fired, more, |more|);
      }
  }

  /** An action after some changes is more changes. */
  lemma {:induction false} ActedBehind(q: seq<Entry>, xs: seq<Change>, a: Action, r: seq<Entry>)
    requires r == After(q, xs, |xs|)
    ensures Acted(r, a) == After(q, xs + Made(r, a), |xs + Made(r, a)|)
  {
    ActedIsAfter(r, a);
    AfterBoth(q, xs, Made(r, a), |Made(r, a)|);
  }

  /** A run is its changes. */
  lemma {:induction false} RanIsAfter(q: seq<Entry>, actions: seq<Action>, n: nat)
    requires n <= |actions|
    ensures Ran(q, actions, n) == After(q, History(q, actions, n), |History(q, actions, n)|)
  {
    if n > 0 {
      RanIsAfter(q, actions, n - 1);
      ActedBehind(q, History(q, actions, n - 1), actions[n - 1], Ran(q, actions, n - 1));
    }
  }

  /** In any run, of two keys held with the same deadline, the one added first stands first. */
  lemma {:induction false} RanIsInOrder(q: seq<Entry>, actions: seq<Action>, n: nat, a: Key, b: Key)
    requires Sorted(q) && Unique(q) && n <= |actions| && a != b
    requires HeldThen(q, actions, n, a).Some? && HeldThen(q, actions, n, b) == HeldThen(q, actions, n, a)
    ensures Place(Ran(q, actions, n), a) < Place(Ran(q, actions, n), b)
       <==> AddedBefore(q, History(q, actions, n), |History(q, actions, n)|, a, b)
  {
    RanIsMap(q, actions, n, a);
    RanIsMap(q, actions, n, b);
    RanIsAfter(q, actions, n);
    AfterIsInOrder(q, History(q, actions, n), |History(q, actions, n)|, a, b);
  }

  /** The one that fires was added before all others with its deadline. */
  lemma {:induction false} FiredIsEarliest(q: seq<Entry>, actions: seq<Action>, n: nat, other: Key)
    requires Sorted(q) && Unique(q) && n < |actions| && Fired(q, actions, n).Some?
    requires Fired(q, actions, n).value != other
    requires HeldThen(q, actions, n, other).Some?
    requires HeldThen(q, actions, n, other) == HeldThen(q, actions, n, Fired(q, actions, n).value)
    ensures AddedBefore(q, History(q, actions, n), |History(q, actions, n)|, Fired(q, actions, n).value, other)
  {
    var fired := Fired(q, actions, n).value;
    RanIsMap(q, actions, n, other);
    RanIsInOrder(q, actions, n, fired, other);
  }
}
