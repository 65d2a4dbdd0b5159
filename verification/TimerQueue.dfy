/**
  * The timeouts of contrib/dhcp/common/dispatch.c: a linked list of pending timeouts, the earliest first, and a list
  * of free ones to use again.
  */
module TimerQueue {
  import opened Bytes
  import opened Lists

  /** What a timeout will call, and with what. */
  datatype Key = Key(func: nat, what: nat)

  datatype Entry = Entry(key: Key, when: int)

  // ---- the queue, as a value ----

  /** The first entry for `key` from place `i` on. */
  function Find(q: seq<Entry>, key: Key, i: nat): (p: nat)
    requires i <= |q|
    ensures i <= p <= |q|
    ensures p < |q| ==> q[p].key == key
    ensures forall j :: i <= j < p ==> q[j].key != key
    decreases |q| - i
  {
    if i == |q| || q[i].key == key then i else Find(q, key, i + 1)
  }

  /** The queue without the entry for `key`. */
  function Without(q: seq<Entry>, key: Key): seq<Entry> {
    if |q| == 0 then q
    else if q[0].key == key then q[1..]
    else [q[0]] + Without(q[1..], key)
  }

  lemma {:induction false} WithoutIs(q: seq<Entry>, key: Key)
    ensures Without(q, key) == if Find(q, key, 0) < |q| then Removed(q, Find(q, key, 0)) else q
  {
    if |q| > 0 && q[0].key != key {
      WithoutIs(q[1..], key);
      FindBehind(q, key);
    }
  }

  /** Where another entry stands afterwards. */
  lemma {:induction false} WithoutHas(q: seq<Entry>, key: Key, i: nat)
    requires Find(q, key, 0) < |q| && i < |q| && i != Find(q, key, 0)
    ensures |Without(q, key)| == |q| - 1
    ensures Without(q, key)[if i < Find(q, key, 0) then i else i - 1] == q[i]
  {
    WithoutIs(q, key);
  }

  lemma {:induction false} FindBehind(q: seq<Entry>, key: Key)
    requires |q| > 0 && q[0].key != key
    ensures Find(q, key, 0) == Find(q[1..], key, 0) + 1
  {
  }

  /** The first place from `i` on with a later deadline than `when`. */
  function Later(q: seq<Entry>, when: int, i: nat): (p: nat)
    requires i <= |q|
    ensures i <= p <= |q|
    ensures p < |q| ==> q[p].when > when
    ensures forall j :: i <= j < p ==> q[j].when <= when
    decreases |q| - i
  {
    if i == |q| || q[i].when > when then i else Later(q, when, i + 1)
  }

  /** The queue with `e` behind every entry that is due no later. */
  function Queued(q: seq<Entry>, e: Entry): seq<Entry> {
    if |q| == 0 || q[0].when > e.when then [e] + q else [q[0]] + Queued(q[1..], e)
  }

  lemma {:induction false} QueuedIs(q: seq<Entry>, e: Entry)
    ensures Queued(q, e) == Inserted(q, Later(q, e.when, 0), e)
  {
    if |q| > 0 && q[0].when <= e.when {
      QueuedIs(q[1..], e);
      LaterBehind(q, e.when);
    }
  }

  lemma {:induction false} LaterBehind(q: seq<Entry>, when: int)
    requires |q| > 0 && q[0].when <= when
    ensures Later(q, when, 0) == Later(q[1..], when, 0) + 1
  {
  }

  /** add_timeout. */
  function Added(q: seq<Entry>, key: Key, when: int): seq<Entry> { Queued(Without(q, key), Entry(key, when)) }

  /** When the handler for `key` is due. */
  function Due(q: seq<Entry>, key: Key): Option<int> {
    if Find(q, key, 0) < |q| then Some(q[Find(q, key, 0)].when) else None
  }

  ghost predicate Sorted(q: seq<Entry>) {
    forall i, j :: 0 <= i < j < |q| ==> q[i].when <= q[j].when
  }

  /** No key is queued twice. */
  ghost predicate Unique(q: seq<Entry>) {
    forall i, j :: 0 <= i < j < |q| ==> q[i].key != q[j].key
  }

  lemma {:induction false} WithoutKeeps(q: seq<Entry>, key: Key)
    requires Sorted(q) && Unique(q)
    ensures Sorted(Without(q, key)) && Unique(Without(q, key))
    ensures forall i :: 0 <= i < |Without(q, key)| ==> Without(q, key)[i].key != key
  {
    WithoutIs(q, key);
  }

  /** Where an entry of the queue and the new one stand afterwards. */
  lemma {:induction false} QueuedHas(q: seq<Entry>, e: Entry, i: nat)
    ensures |Queued(q, e)| == |q| + 1 && Queued(q, e)[Later(q, e.when, 0)] == e
    ensures i < |q| ==> Queued(q, e)[if i < Later(q, e.when, 0) then i else i + 1] == q[i]
  {
    QueuedIs(q, e);
  }

  lemma {:induction false} QueuedKeeps(q: seq<Entry>, e: Entry)
    requires Sorted(q) && Unique(q) && forall i :: 0 <= i < |q| ==> q[i].key != e.key
    ensures Sorted(Queued(q, e)) && Unique(Queued(q, e))
  {
    QueuedIs(q, e);
    var p, s := Later(q, e.when, 0), Queued(q, e);
    forall i, j | 0 <= i < j < |s| ensures s[i].when <= s[j].when && s[i].key != s[j].key {
      assert i < p ==> s[i] == q[i];
      assert i > p ==> s[i] == q[i - 1];
      assert j < p ==> s[j] == q[j];
      assert j > p ==> s[j] == q[j - 1];
    }
  }

  /** Adding keeps the queue sorted and its keys apart. */
  lemma {:induction false} AddedKeeps(q: seq<Entry>, key: Key, when: int)
    requires Sorted(q) && Unique(q)
    ensures Sorted(Added(q, key, when)) && Unique(Added(q, key, when))
  {
    WithoutKeeps(q, key);
    QueuedKeeps(Without(q, key), Entry(key, when));
  }

  lemma {:induction false} DueIs(q: seq<Entry>, key: Key, i: nat)
    requires Unique(q) && i < |q| && q[i].key == key
    ensures Due(q, key) == Some(q[i].when)
  {
  }

  /** Cancelling forgets one key and leaves the others as they were. */
  lemma {:induction false} WithoutIsRemoval(q: seq<Entry>, key: Key, other: Key)
    requires Sorted(q) && Unique(q)
    ensures Due(Without(q, key), other) == if other == key then None else Due(q, other)
  {
    WithoutKeeps(q, key);
    var p, i := Find(q, key, 0), Find(q, other, 0);
    if other != key && i < |q| && p < |q| {
      WithoutHas(q, key, i);
      DueIs(Without(q, key), other, if i < p then i else i - 1);
    } else {
      WithoutIs(q, key);
    }
  }

  lemma {:induction false} QueuedIsUpdate(q: seq<Entry>, e: Entry, other: Key)
    requires Sorted(q) && Unique(q) && forall i :: 0 <= i < |q| ==> q[i].key != e.key
    ensures Due(Queued(q, e), other) == if other == e.key then Some(e.when) else Due(q, other)
  {
    QueuedKeeps(q, e);
    var p, i := Later(q, e.when, 0), Find(q, other, 0);
    QueuedHas(q, e, i);
    if other == e.key {
      DueIs(Queued(q, e), other, p);
    } else if i < |q| {
      DueIs(Queued(q, e), other, if i < p then i else i + 1);
    } else {
      QueuedIs(q, e);
    }
  }

  /** Adding sets the deadline of one key and leaves the others as they were. */
  lemma {:induction false} AddedIsUpdate(q: seq<Entry>, key: Key, when: int, other: Key)
    requires Sorted(q) && Unique(q)
    ensures Due(Added(q, key, when), other) == if other == key then Some(when) else Due(q, other)
  {
    WithoutIsRemoval(q, key, other);
    WithoutKeeps(q, key);
    QueuedIsUpdate(Without(q, key), Entry(key, when), other);
  }

  /** First in, first out: a timeout goes behind all others that are due at the same time, and before any later one. */
  lemma {:induction false} AddedIsLast(q: seq<Entry>, key: Key, when: int)
    requires Sorted(q) && Unique(q)
    ensures var s := Added(q, key, when);
            var p := Find(s, key, 0);
            && p < |s|
            && (forall i :: 0 <= i < p ==> s[i].when <= when)
            && (forall i :: p < i < |s| ==> s[i].when > when)
  {
    var r, s := Without(q, key), Added(q, key, when);
    var p := Later(r, when, 0);
    QueuedIs(r, Entry(key, when));
    WithoutKeeps(q, key);
    AddedKeeps(q, key, when);
    assert s[p] == Entry(key, when);
    forall i | p < i < |s| ensures s[i].when > when {
      assert s[i] == r[i - 1];
    }
  }

  // ---- any interleaving ----

  datatype Change = Add(key: Key, when: int) | Cancel(key: Key)

  function Changed(q: seq<Entry>, c: Change): seq<Entry> {
    match c
    case Add(key, when) => Added(q, key, when)
    case Cancel(key) => Without(q, key)
  }

  /** The queue after the first `n` changes. */
  function After(q: seq<Entry>, changes: seq<Change>, n: nat): seq<Entry>
    requires n <= |changes|
  {
    if n == 0 then q else Changed(After(q, changes, n - 1), changes[n - 1])
  }

  /** What a map from keys to deadlines holds for `key` after the first `n` changes, having held `due`. */
  function Held(due: Option<int>, changes: seq<Change>, n: nat, key: Key): Option<int>
    requires n <= |changes|
  {
    if n == 0 then due
    else if changes[n - 1].key != key then Held(due, changes, n - 1, key)
    else if changes[n - 1].Add? then Some(changes[n - 1].when)
    else None
  }

  /** Any changes keep the queue sorted and its keys apart, and do to it what they do to a map. */
  lemma {:induction false} AfterIsMap(q: seq<Entry>, changes: seq<Change>, n: nat, key: Key)
    requires Sorted(q) && Unique(q) && n <= |changes|
    ensures Sorted(After(q, changes, n)) && Unique(After(q, changes, n))
    ensures Due(After(q, changes, n), key) == Held(Due(q, key), changes, n, key)
  {
    if n > 0 {
      AfterIsMap(q, changes, n - 1, key);
      var r, c := After(q, changes, n - 1), changes[n - 1];
      WithoutKeeps(r, c.key);
      if c.Add? {
        AddedKeeps(r, c.key, c.when);
        AddedIsUpdate(r, c.key, c.when, key);
      } else {
        WithoutIsRemoval(r, c.key, key);
      }
    }
  }

  /** The timeout that expires is due and no other is due before it; afterwards all others are as they were. */
  lemma {:induction false} HeadIsFirst(q: seq<Entry>, key: Key)
    requires Sorted(q) && Unique(q) && q != []
    ensures Due(q, key).Some? ==> q[0].when <= Due(q, key).value
    ensures Due(q[1..], key) == if key == q[0].key then None else Due(q, key)
    ensures Sorted(q[1..]) && Unique(q[1..])
  {
  }

  // ---- any interleaving with expiries ----

  /** A call from outside, or a look at the clock; a handler may add and cancel whatever it likes. */
  datatype Action = Call(change: Change) | Expiry(now: int, handler: Key -> seq<Change>)

  predicate Fires(q: seq<Entry>, now: int) { |q| > 0 && q[0].when <= now }

  function Acted(q: seq<Entry>, a: Action): seq<Entry> {
    match a
    case Call(change) => Changed(q, change)
    case Expiry(now, handler) =>
      if Fires(q, now) then After(q[1..], handler(q[0].key), |handler(q[0].key)|) else q
  }

  /** The queue after the first `n` actions. */
  function Ran(q: seq<Entry>, actions: seq<Action>, n: nat): seq<Entry>
    requires n <= |actions|
  {
    if n == 0 then q else Acted(Ran(q, actions, n - 1), actions[n - 1])
  }

  /** The key that fires in an action, if one does. */
  function FiredBy(q: seq<Entry>, a: Action): Option<Key> {
    if a.Expiry? && Fires(q, a.now) then Some(q[0].key) else None
  }

  /** The key that fires in action number `n`, if one does. */
  function Fired(q: seq<Entry>, actions: seq<Action>, n: nat): Option<Key>
    requires n < |actions|
  {
    FiredBy(Ran(q, actions, n), actions[n])
  }

  /** What a map that held `due` for `key` holds after an action; what fires is taken out before its handler runs. */
  function HeldAfter(due: Option<int>, a: Action, fired: Option<Key>, key: Key): Option<int> {
    match a
    case Call(change) => Held(due, [change], 1, key)
    case Expiry(_, handler) =>
      if fired.None? then due
      else Held(if key == fired.value then None else due, handler(fired.value), |handler(fired.value)|, key)
  }

  /** What it holds after the first `n` actions. */
  function HeldThen(q: seq<Entry>, actions: seq<Action>, n: nat, key: Key): Option<int>
    requires n <= |actions|
  {
    if n == 0 then Due(q, key)
    else HeldAfter(HeldThen(q, actions, n - 1, key), actions[n - 1], Fired(q, actions, n - 1), key)
  }

  lemma {:induction false} AfterOne(q: seq<Entry>, change: Change)
    ensures After(q, [change], 1) == Changed(q, change)
  {
    assert After(q, [change], 0) == q;
  }

  lemma {:induction false} ActedIsMap(q: seq<Entry>, a: Action, key: Key)
    requires Sorted(q) && Unique(q)
    ensures Sorted(Acted(q, a)) && Unique(Acted(q, a))
    ensures Due(Acted(q, a), key) == HeldAfter(Due(q, key), a, FiredBy(q, a), key)
  {
    match a
    case Call(change) =>
      AfterIsMap(q, [change], 1, key);
      AfterOne(q, change);
    case Expiry(now, handler) =>
      if Fires(q, now) {
        HeadIsFirst(q, key);
        AfterIsMap(q[1..], handler(q[0].key), |handler(q[0].key)|, key);
      }
  }

  /** Whatever is called and whatever the handlers do, the queue stays sorted with its keys apart, and is that map. */
  lemma {:induction false} RanIsMap(q: seq<Entry>, actions: seq<Action>, n: nat, key: Key)
    requires Sorted(q) && Unique(q) && n <= |actions|
    ensures Sorted(Ran(q, actions, n)) && Unique(Ran(q, actions, n))
    ensures Due(Ran(q, actions, n), key) == HeldThen(q, actions, n, key)
  {
    if n > 0 {
      RanIsMap(q, actions, n - 1, key);
      ActedIsMap(Ran(q, actions, n - 1), actions[n - 1], key);
    }
  }

  /**
    * At an expiry a timeout fires if and only if one is due; it is due itself, and no other is due before it. `key` is
    * any of those held.
    */
  lemma {:induction false} FiredIsFirst(q: seq<Entry>, actions: seq<Action>, n: nat, key: Key)
    requires Sorted(q) && Unique(q) && n < |actions| && actions[n].Expiry?
    requires HeldThen(q, actions, n, key).Some?
    ensures var due, fired := HeldThen(q, actions, n, key).value, Fired(q, actions, n);
            if fired.None? then due > actions[n].now
            else
              && HeldThen(q, actions, n, fired.value).Some?
              && HeldThen(q, actions, n, fired.value).value <= actions[n].now
              && HeldThen(q, actions, n, fired.value).value <= due
  {
    RanIsMap(q, actions, n, key);
    var r := Ran(q, actions, n);
    HeadIsFirst(r, key);
    RanIsMap(q, actions, n, r[0].key);
    DueIs(r, r[0].key, 0);
  }

  // ---- the queue, in the heap ----

  class Timeout {
    var key: Key
    var when: int
    var next: Timeout?

    constructor (key: Key)
      ensures this.key == key
    {
      this.key, when, next := key, 0, null;
    }
  }

  /** The timeout at place `i`; null past the end. */
  function Item(nodes: seq<Timeout>, i: nat): Timeout? {
    if i < |nodes| then nodes[i] else null
  }

  ghost predicate Distinct(nodes: seq<Timeout>) {
    forall i, j :: 0 <= i < j < |nodes| ==> nodes[i] != nodes[j]
  }

  class Queue {
    var timeouts: Timeout?
    var freeTimeouts: Timeout?

    /** The pending timeouts with what they say, and the free ones. */
    ghost var Nodes: seq<Timeout>
    ghost var Entries: seq<Entry>
    ghost var Free: seq<Timeout>

    /** Every timeout structure the queue has ever used, and the one whose handler is running. */
    ghost var Known: set<Timeout>
    ghost var Running: Timeout?

    /** The pending list is linked as `Nodes` and says `Entries`. */
    ghost predicate Pending()
      reads this`timeouts, this`Nodes, this`Entries, Nodes
    {
      && |Nodes| == |Entries| && timeouts == Item(Nodes, 0) && Distinct(Nodes)
      && (forall i {:trigger Nodes[i].next} :: 0 <= i < |Nodes| ==> Nodes[i].next == Item(Nodes, i + 1))
      && (forall i {:trigger Nodes[i].key} :: 0 <= i < |Nodes| ==> Nodes[i].key == Entries[i].key)
      && (forall i {:trigger Nodes[i].when} :: 0 <= i < |Nodes| ==> Nodes[i].when == Entries[i].when)
    }

    ghost predicate Spare()
      reads this`freeTimeouts, this`Free, Free`next
    {
      && freeTimeouts == Item(Free, 0) && Distinct(Free)
      && (forall i {:trigger Free[i].next} :: 0 <= i < |Free| ==> Free[i].next == Item(Free, i + 1))
    }

    ghost predicate Apart()
      reads this`Nodes, this`Free, this`Known, this`Running
    {
      && (forall t :: t in Nodes ==> t !in Free && t in Known)
      && (forall t :: t in Free ==> t in Known)
      && (Running != null ==> Running in Known && Running !in Nodes && Running !in Free)
    }

    /** The two lists are what the ghost lists say, and have nothing in common. */
    ghost predicate Links()
      reads this, Known, Nodes, Free
    {
      Pending() && Spare() && Apart()
    }

    ghost predicate Valid()
      reads this, Known, Nodes, Free
    {
      Links() && Sorted(Entries) && Unique(Entries)
    }

    constructor ()
      ensures Valid() && Entries == [] && Free == [] && Known == {} && Running == null
    {
      timeouts, freeTimeouts, Nodes, Entries, Free, Known, Running := null, null, [], [], [], {}, null;
    }

    /** Takes the timeout for `key`, if there is one, off the pending list. */
    method TakeOff(key: Key) returns (q: Timeout?)
      requires Pending() && Spare() && Apart()
      modifies this`timeouts, this`Nodes, this`Entries, Nodes`next
      ensures Spare() && Apart() && (q != null ==> q in Known && q !in Free && q != Running)
      ensures Pending() && Entries == Without(old(Entries), key)
      ensures var p := Find(old(Entries), key, 0);
              if p < |old(Entries)| then q == old(Nodes)[p] && Nodes == Removed(old(Nodes), p)
              else q == null && Nodes == old(Nodes)
      ensures q != null ==> q.key == key && q in old(Nodes) && q !in Nodes
      ensures forall t :: t in Nodes ==> t in old(Nodes)
    {
      WithoutIs(Entries, key);
      ghost var p := Find(Entries, key, 0);
      var t;
      t, q := Seek(key);
      if q != null {
        CutOut(t, q, p);
        assert Spare() by {
          assert forall i :: 0 <= i < |Free| ==> Free[i] in Free;
        }
        RemovedHas(old(Nodes), p);
      }
    }

    /** Links `t`, or the head of the list, around `q`. */
    method CutOut(t: Timeout?, q: Timeout, ghost p: nat)
      requires Pending() && p < |Nodes| && q == Nodes[p] && t == if p == 0 then null else Nodes[p - 1]
      modifies this`timeouts, this`Nodes, this`Entries, Nodes`next
      ensures Pending() && Nodes == Removed(old(Nodes), p) && Entries == Removed(old(Entries), p)
    {
      if t != null {
        assert t in Nodes;
        t.next := q.next;
      } else {
        timeouts := q.next;
      }
      Leave(p);
    }

    /** The timeout for `key`, and the one before it; null where there is none. */
    method Seek(key: Key) returns (t: Timeout?, q: Timeout?)
      requires Pending()
      ensures Find(Entries, key, 0) == |Nodes| ==> q == null
      ensures Find(Entries, key, 0) < |Nodes| ==> q == Nodes[Find(Entries, key, 0)]
      ensures t == if Find(Entries, key, 0) == 0 then null else Nodes[Find(Entries, key, 0) - 1]
    {
      t, q := null, timeouts;
      ghost var i := 0;
      while q != null && q.key != key
        invariant i <= |Nodes| && q == Item(Nodes, i) && t == (if i == 0 then null else Nodes[i - 1])
        invariant Find(Entries, key, 0) == Find(Entries, key, i)
        decreases |Nodes| - i
      {
        t, q, i := q, q.next, i + 1;
      }
    }

    /** The link around the timeout at place `k` is made, the ghost lists follow. */
    ghost method Leave(k: nat)
      requires |Nodes| == |Entries| && k < |Nodes| && Distinct(Nodes)
      requires timeouts == if k == 0 then Item(Nodes, 1) else Item(Nodes, 0)
      requires forall i {:trigger Nodes[i].next} :: 0 <= i < |Nodes| && i != k ==>
                 Nodes[i].next == Item(Nodes, if i + 1 == k then i + 2 else i + 1)
      requires forall i {:trigger Nodes[i].key} :: 0 <= i < |Nodes| ==> Nodes[i].key == Entries[i].key
      requires forall i {:trigger Nodes[i].when} :: 0 <= i < |Nodes| ==> Nodes[i].when == Entries[i].when
      modifies this`Nodes, this`Entries
      ensures Pending() && Nodes == Removed(old(Nodes), k) && Entries == Removed(old(Entries), k)
    {
      var was := Nodes;
      Nodes, Entries := Removed(Nodes, k), Removed(Entries, k);
      forall i | 0 <= i < |Nodes|
        ensures Nodes[i].next == Item(Nodes, i + 1) && Nodes[i].key == Entries[i].key
        ensures Nodes[i].when == Entries[i].when
      {
        assert Nodes[i] == was[if i < k then i else i + 1];
      }
    }

    /** The last timeout that is due no later than `when`. */
    method Before(when: int) returns (t: Timeout)
      requires Pending() && timeouts != null && timeouts.when <= when
      ensures Later(Entries, when, 0) > 0 && t == Nodes[Later(Entries, when, 0) - 1]
    {
      t := timeouts;
      ghost var i := 0;
      while t.next != null && t.next.when <= when
        invariant i < |Nodes| && t == Nodes[i] && Later(Entries, when, 0) == Later(Entries, when, i + 1)
        decreases |Nodes| - i
      {
        t, i := t.next, i + 1;
      }
    }

    /** Puts `q`, which is not on the list, at its head. */
    method PutFirst(q: Timeout)
      requires Pending() && q !in Nodes && (timeouts == null || timeouts.when > q.when)
      modifies this`timeouts, this`Nodes, this`Entries, q`next
      ensures Pending() && Entries == Queued(old(Entries), Entry(q.key, q.when))
      ensures Nodes == Inserted(old(Nodes), Later(old(Entries), q.when, 0), q)
    {
      QueuedIs(Entries, Entry(q.key, q.when));
      q.next := timeouts;
      timeouts := q;
      Join(q, 0);
    }

    /** Puts `q`, which is not on the list, behind the last timeout that is due no later. */
    method PutBehind(q: Timeout)
      requires Pending() && q !in Nodes && timeouts != null && timeouts.when <= q.when
      modifies this`Nodes, this`Entries, Nodes`next, q`next
      ensures Pending() && Entries == Queued(old(Entries), Entry(q.key, q.when))
      ensures Nodes == Inserted(old(Nodes), Later(old(Entries), q.when, 0), q)
    {
      ghost var p := Later(Entries, q.when, 0);
      QueuedIs(Entries, Entry(q.key, q.when));
      var t := Before(q.when);
      q.next := t.next;
      assert t in Nodes;
      t.next := q;
      Join(q, p);
    }

    /** Sorts `q`, which is on neither list, into the pending one. */
    method SortIn(q: Timeout)
      requires Pending() && q !in Nodes && Spare() && Apart() && q !in Free && q in Known && q != Running
      modifies this`timeouts, this`Nodes, this`Entries, Nodes`next, q`next
      ensures Spare() && Apart()
      ensures Pending() && Entries == Queued(old(Entries), Entry(q.key, q.when))
    {
      ghost var p := Later(Entries, q.when, 0);
      if timeouts == null || timeouts.when > q.when {
        PutFirst(q);
      } else {
        PutBehind(q);
      }
      assert Spare() by {
        assert forall i :: 0 <= i < |Free| ==> Free[i] in Free;
      }
      InsertedHas(old(Nodes), p, q);
    }

    /** The links to `q` are made, the ghost lists follow. */
    ghost method Join(q: Timeout, p: nat)
      requires |Nodes| == |Entries| && p <= |Nodes| && Distinct(Nodes) && q !in Nodes
      requires q.next == Item(Nodes, p) && timeouts == if p == 0 then q else Item(Nodes, 0)
      requires forall i {:trigger Nodes[i].next} :: 0 <= i < |Nodes| ==>
                 Nodes[i].next == if i + 1 == p then q else Item(Nodes, i + 1)
      requires forall i {:trigger Nodes[i].key} :: 0 <= i < |Nodes| ==> Nodes[i].key == Entries[i].key
      requires forall i {:trigger Nodes[i].when} :: 0 <= i < |Nodes| ==> Nodes[i].when == Entries[i].when
      modifies this`Nodes, this`Entries
      ensures Pending() && Nodes == Inserted(old(Nodes), p, q)
      ensures Entries == Inserted(old(Entries), p, Entry(q.key, q.when))
    {
      var was := Nodes;
      Nodes, Entries := Inserted(Nodes, p, q), Inserted(Entries, p, Entry(q.key, q.when));
      forall i | 0 <= i < |Nodes|
        ensures Nodes[i].next == Item(Nodes, i + 1) && Nodes[i].key == Entries[i].key
        ensures Nodes[i].when == Entries[i].when
      {
        assert i != p ==> Nodes[i] == was[if i < p then i else i - 1];
      }
    }

    /** A timeout to use: the first free one, or a new one. */
    method Obtain(key: Key) returns (q: Timeout)
      requires Spare() && Pending() && Apart()
      modifies this`freeTimeouts, this`Free, Free`key
      ensures Pending() && Apart() && q !in Nodes && q != Running
      ensures Spare() && q.key == key
      ensures if old(Free) == [] then fresh(q) && Free == [] else q == old(Free)[0] && Free == old(Free)[1..]
      ensures q !in Free && forall t :: t in Free ==> t in old(Free)
    {
      if freeTimeouts != null {
        q := freeTimeouts;
        assert q in Free;
        freeTimeouts := q.next;
        q.key := key;
        assert Pending() by {
          assert forall i :: 0 <= i < |Nodes| ==> Nodes[i] in Nodes;
        }
        assert forall i :: 1 <= i < |Free| ==> Free[i] != q;
        Free := Free[1..];
      } else {
        q := new Timeout(key);
      }
    }

    /** Puts `q`, which is on neither list, on the free list. */
    method Release(q: Timeout)
      requires Spare() && q !in Free
      modifies this`freeTimeouts, this`Free, q`next
      ensures Spare() && Free == [q] + old(Free)
    {
      q.next := freeTimeouts;
      freeTimeouts := q;
      Free := [q] + Free;
    }

    /** The timeout for `key`, off the pending list, or else one to use for it, set to `when`. */
    method Prepare(when: int, key: Key) returns (q: Timeout)
      requires Links()
      modifies this`timeouts, this`freeTimeouts, this`Nodes, this`Entries, this`Free, this`Known, Known
      ensures Links() && Entries == Without(old(Entries), key)
      ensures q !in Nodes && q !in Free && q in Known && q != Running && q.key == key && q.when == when
      ensures fresh(Known - old(Known))
    {
      var pending := TakeOff(key);
      if pending == null {
        q := Obtain(key);
        Known := Known + {q};
      } else {
        q := pending;
      }
      Postpone(q, when);
    }

    /** Sets a timeout that is on neither list. */
    method Postpone(q: Timeout, when: int)
      requires Pending() && q !in Nodes
      modifies q`when
      ensures Pending() && q.when == when
    {
      q.when := when;
      assert Pending() by {
        assert forall i :: 0 <= i < |Nodes| ==> Nodes[i] in Nodes;
      }
    }

    method AddTimeout(when: int, key: Key)
      requires Links()
      modifies this`timeouts, this`freeTimeouts, this`Nodes, this`Entries, this`Free, this`Known, Known
      ensures Links() && fresh(Known - old(Known))
      ensures Entries == Added(old(Entries), key, when)
    {
      var q := Prepare(when, key);
      SortIn(q);
    }

    method CancelTimeout(key: Key)
      requires Links()
      modifies this`timeouts, this`freeTimeouts, this`Nodes, this`Entries, this`Free, this`Known, Known
      ensures Links() && Known == old(Known)
      ensures Entries == Without(old(Entries), key)
    {
      var q := TakeOff(key);
      if q != null {
        Release(q);
      }
    }

    method Apply(c: Change)
      requires Links()
      modifies this`timeouts, this`freeTimeouts, this`Nodes, this`Entries, this`Free, this`Known, Known
      ensures Links() && fresh(Known - old(Known))
      ensures Entries == Changed(old(Entries), c)
    {
      match c {
        case Add(key, when) => AddTimeout(when, key);
        case Cancel(key) => CancelTimeout(key);
      }
    }

    /** What a handler does to the queue. */
    method Handle(changes: seq<Change>)
      requires Links()
      modifies this`timeouts, this`freeTimeouts, this`Nodes, this`Entries, this`Free, this`Known, Known
      ensures Links() && fresh(Known - old(Known))
      ensures Entries == After(old(Entries), changes, |changes|)
    {
      var n := 0;
      while n < |changes|
        invariant 0 <= n <= |changes| && Links() && fresh(Known - old(Known))
        invariant Entries == After(old(Entries), changes, n)
      {
        Apply(changes[n]);
        n := n + 1;
      }
    }

    /** The expiry part of dispatch: if a timeout is due, it leaves the queue and its handler runs. */
    method Expire(now: int, handler: Key -> seq<Change>) returns (fired: Option<Entry>)
      requires Links() && Running == null
      modifies this, Known
      ensures Links() && fresh(Known - old(Known)) && Running == null
      ensures fired == (if Fires(old(Entries), now) then Some(old(Entries)[0]) else None)
      ensures Entries == Acted(old(Entries), Expiry(now, handler))
    {
      if timeouts == null || timeouts.when > now {
        return None;
      }
      var t := timeouts;
      timeouts := timeouts.next;
      Leave(0);
      assert Entries == old(Entries)[1..];
      Running := t;
      fired := Some(Entry(t.key, t.when));
      Handle(handler(t.key));
      Running := null;
      Release(t);
    }

    method Act(a: Action)
      requires Links() && Running == null
      modifies this, Known
      ensures Links() && fresh(Known - old(Known)) && Running == null
      ensures Entries == Acted(old(Entries), a)
    {
      match a {
        case Call(change) => Apply(change);
        case Expiry(now, handler) => var _ := Expire(now, handler);
      }
    }

    method Perform(actions: seq<Action>)
      requires Links() && Running == null
      modifies this, Known
      ensures Links() && Running == null
      ensures Entries == Ran(old(Entries), actions, |actions|)
    {
      ghost var q := Entries;
      var n := 0;
      while n < |actions|
        invariant 0 <= n <= |actions| && Links() && Running == null
        invariant fresh(Known - old(Known)) && Entries == Ran(q, actions, n)
      {
        Act(actions[n]);
        n := n + 1;
      }
    }

    /** Any additions, cancellations and expiries, in any order. */
    method Run(actions: seq<Action>)
      requires Valid() && Running == null
      modifies this, Known
      ensures Valid() && Running == null
      ensures Entries == Ran(old(Entries), actions, |actions|)
      ensures forall key :: Due(Entries, key) == HeldThen(old(Entries), actions, |actions|, key)
    {
      ghost var q := Entries;
      Perform(actions);
      forall key ensures Due(Entries, key) == HeldThen(q, actions, |actions|, key) {
        RanIsMap(q, actions, |actions|, key);
      }
      RanIsMap(q, actions, |actions|, Key(0, 0));
    }
  }
}
