/**
  * The part of supersede_lease in contrib/dhcp/common/memory.c that decides whether leases conflict and under which
  * keys a lease can be found afterwards.
  */
module LeaseKeys {
  import opened Bytes
  import opened LeaseIndex

  /** The size of `uid_buf`; a longer identifier is kept outside the lease. */
  const UID_BUF: nat := 32

  /** A hardware address; type zero stands for none. */
  datatype Hardware = Hardware(htype: nat, addr: seq<byte>)

  /** What a lease on the list is held under. */
  datatype Held = Held(ends: int, uid: Option<seq<byte>>, hw: Hardware)

  /** The lease with the new data; `inBuffer` says that its identifier stands in its own `uid_buf`. */
  datatype Incoming =
    Incoming(ends: int, uid: Option<seq<byte>>, inBuffer: bool, hw: Hardware, isStatic: bool, abandoned: bool)

  /** Ended: the identifier is corrupt and the program gives up. */
  datatype Outcome = Static | Conflict | Replaced | Ended

  /** The leases by number, and all that has been done to the two indexes. */
  datatype State = State(leases: seq<Held>, byUid: seq<Change>, byHw: seq<Change>)

  /** The lease on the list is in use by another client. */
  predicate Conflicts(comp: Held, lease: Incoming, now: int) {
    && !lease.abandoned
    && comp.ends > now
    && if comp.uid.Some? then lease.uid.Some? && comp.uid != lease.uid else comp.hw != lease.hw
  }

  /** A long identifier that claims to stand in the buffer. */
  predicate Corrupt(lease: Incoming) { lease.uid.Some? && |lease.uid.value| >= UID_BUF && lease.inBuffer }

  function OutcomeOf(comp: Held, lease: Incoming, now: int): Outcome {
    if lease.isStatic then Static
    else if Conflicts(comp, lease, now) then Conflict
    else if Corrupt(lease) then Ended
    else Replaced
  }

  /** The key a lease is found under by its identifier, if it is. */
  function UidKey(uid: Option<seq<byte>>): Option<seq<byte>> {
    if uid.Some? && |uid.value| < UID_BUF then uid else None
  }

  function HwKey(hw: Hardware): Option<seq<byte>> { if hw.htype != 0 then Some(hw.addr) else None }

  /** Taking lease number `i` out of an index and entering it again, where there is a key to do so. */
  function Moves(i: nat, was: Option<seq<byte>>, key: Option<seq<byte>>): seq<Change> {
    (if was.Some? then [Deleting(Name(i, was.value))] else [])
    + (if key.Some? then [Adding(Name(i, key.value))] else [])
  }

  /** The state after supersede_lease has put the new data into lease number `i`. */
  function Superseded(s: State, i: nat, lease: Incoming): State
    requires i < |s.leases|
  {
    var comp := s.leases[i];
    State(s.leases[i := Held(lease.ends, lease.uid, lease.hw)],
          s.byUid + Moves(i, comp.uid, UidKey(lease.uid)),
          s.byHw + if comp.hw == lease.hw then [] else Moves(i, HwKey(comp.hw), HwKey(lease.hw)))
  }

  datatype Call = Call(i: nat, lease: Incoming, now: int)

  /** The state after a call; None if it ends the program. */
  function Called(s: State, c: Call): (r: Option<State>)
    requires c.i < |s.leases|
    ensures r.Some? ==> |r.value.leases| == |s.leases|
  {
    match OutcomeOf(s.leases[c.i], c.lease, c.now)
    case Ended => None
    case Replaced => Some(Superseded(s, c.i, c.lease))
    case _ => Some(s)
  }

  /** The state after the first `n` calls; None once the program has ended. */
  function Run(s: State, calls: seq<Call>, n: nat): (r: Option<State>)
    requires n <= |calls| && forall c :: c in calls ==> c.i < |s.leases|
    ensures r.Some? ==> |r.value.leases| == |s.leases|
  {
    if n == 0 then Some(s)
    else
      var before := Run(s, calls, n - 1);
      if before.None? then None else Called(before.value, calls[n - 1])
  }

  /** Leases that were never given out, and empty indexes. */
  function New(count: nat): State { State(seq(count, _ => Held(0, None, Hardware(0, []))), [], []) }

  // ---- what the indexes hold ----

  /** The entries that the changes leave in an index. */
  function Entered(changes: seq<Change>): List { Left(changes, |changes|) }

  /** The changes add nothing twice, and leave lease number `i` in the index under `key(i)` and nowhere else. */
  ghost predicate Holds(changes: seq<Change>, key: nat -> Option<seq<byte>>) {
    && Orderly(changes, |changes|)
    && forall i, k :: Has(Entered(changes), Name(i, k)) <==> key(i) == Some(k)
  }

  function UidKeys(s: State): nat -> Option<seq<byte>> {
    (i: nat) => if i < |s.leases| then UidKey(s.leases[i].uid) else None
  }

  function HwKeys(s: State): nat -> Option<seq<byte>> {
    (i: nat) => if i < |s.leases| then HwKey(s.leases[i].hw) else None
  }

  /** Both indexes hold exactly the leases that have a key. */
  ghost predicate Kept(s: State) {
    Holds(s.byUid, UidKeys(s)) && Holds(s.byHw, HwKeys(s))
  }

  lemma {:induction false} LeftOfMore(changes: seq<Change>, c: Change, n: nat)
    requires n <= |changes|
    ensures Left(changes + [c], n) == Left(changes, n)
    ensures Orderly(changes + [c], n) <==> Orderly(changes, n)
  {
    if n > 0 {
      LeftOfMore(changes, c, n - 1);
      assert (changes + [c])[n - 1] == changes[n - 1];
    }
  }

  lemma {:induction false} OneMore(changes: seq<Change>, c: Change)
    requires Orderly(changes, |changes|) && (c.Adding? ==> !Has(Entered(changes), c.name))
    ensures Orderly(changes + [c], |changes| + 1)
    ensures forall m :: Has(Entered(changes + [c]), m) <==> if m == c.name then c.Adding? else Has(Entered(changes), m)
  {
    LeftOfMore(changes, c, |changes|);
    LeftOnceEach(changes, |changes|);
    ChangeShows(Entered(changes), c, c.name.key);
  }

  lemma {:induction false} DeletedHolds(changes: seq<Change>, i: nat, was: seq<byte>, key: nat -> Option<seq<byte>>,
                                        rest: nat -> Option<seq<byte>>)
    requires Holds(changes, key) && (key(i).Some? ==> key(i).value == was)
    requires rest(i) == None && forall j :: j != i ==> rest(j) == key(j)
    ensures Holds(changes + [Deleting(Name(i, was))], rest)
  {
    OneMore(changes, Deleting(Name(i, was)));
  }

  lemma {:induction false} AddedHolds(changes: seq<Change>, i: nat, k: seq<byte>, rest: nat -> Option<seq<byte>>,
                                      key: nat -> Option<seq<byte>>)
    requires Holds(changes, rest)
    requires rest(i) == None && key(i) == Some(k) && forall j :: j != i ==> key(j) == rest(j)
    ensures Holds(changes + [Adding(Name(i, k))], key)
  {
    assert !Has(Entered(changes), Name(i, k));
    OneMore(changes, Adding(Name(i, k)));
  }

  /**
    * One lease moves from its key, or from one it is not held under, to another. Nothing is added that is there,
    * because it is deleted first.
    */
  lemma {:induction false} MovesHold(changes: seq<Change>, i: nat, was: Option<seq<byte>>,
                                     before: nat -> Option<seq<byte>>, after: nat -> Option<seq<byte>>)
    requires Holds(changes, before) && (before(i).Some? ==> before(i) == was)
    requires forall j :: j != i ==> after(j) == before(j)
    ensures Holds(changes + Moves(i, was, after(i)), after)
  {
    var rest := (j: nat) => if j == i then None else before(j);
    var deleted := changes;
    if was.Some? {
      deleted := changes + [Deleting(Name(i, was.value))];
      DeletedHolds(changes, i, was.value, before, rest);
    }
    if after(i).Some? {
      AddedHolds(deleted, i, after(i).value, rest, after);
      assert changes + Moves(i, was, after(i)) == deleted + [Adding(Name(i, after(i).value))];
    } else {
      assert changes + Moves(i, was, after(i)) == deleted;
    }
  }

  /** supersede_lease keeps both indexes what they should be. */
  lemma {:induction false} SupersededIsKept(s: State, i: nat, lease: Incoming)
    requires Kept(s) && i < |s.leases|
    ensures Kept(Superseded(s, i, lease))
  {
    var t, comp := Superseded(s, i, lease), s.leases[i];
    MovesHold(s.byUid, i, comp.uid, UidKeys(s), UidKeys(t));
    if comp.hw != lease.hw {
      MovesHold(s.byHw, i, HwKey(comp.hw), HwKeys(s), HwKeys(t));
    } else {
      assert t.byHw == s.byHw;
      assert forall j :: HwKeys(t)(j) == HwKeys(s)(j);
    }
  }

  lemma {:induction false} NewIsKept(count: nat)
    ensures Kept(New(count))
  {
  }

  lemma {:induction false} CalledIsKept(s: State, c: Call)
    requires Kept(s) && c.i < |s.leases| && Called(s, c).Some?
    ensures Kept(Called(s, c).value)
  {
    if OutcomeOf(s.leases[c.i], c.lease, c.now).Replaced? {
      SupersededIsKept(s, c.i, c.lease);
    }
  }

  /** Whatever leases are superseded by what, no lease is ever added to an index twice, and both hold the right ones. */
  lemma {:induction false} RunIsKept(s: State, calls: seq<Call>, n: nat)
    requires n <= |calls| && forall c :: c in calls ==> c.i < |s.leases|
    requires Kept(s) && Run(s, calls, n).Some?
    ensures Kept(Run(s, calls, n).value)
  {
    if n > 0 {
      RunIsKept(s, calls, n - 1);
      CalledIsKept(Run(s, calls, n - 1).value, calls[n - 1]);
    }
  }

  lemma {:induction false} RunStaysEnded(s: State, calls: seq<Call>, n: nat, m: nat)
    requires n <= m <= |calls| && forall c :: c in calls ==> c.i < |s.leases|
    requires Run(s, calls, n).None?
    ensures Run(s, calls, m).None?
  {
    if n < m {
      RunStaysEnded(s, calls, n, m - 1);
    }
  }

  // ---- who keeps a lease ----

  /** The new data is of another client: of another identifier, or other hardware where there is no identifier yet. */
  predicate Foreign(comp: Held, lease: Incoming) {
    match comp.uid
    case Some(uid) => lease.uid.Some? && lease.uid.value != uid
    case None => lease.hw.htype != comp.hw.htype || lease.hw.addr != comp.hw.addr
  }

  /** A lease in use is not given to another client, unless it is being abandoned: nothing changes at all. */
  lemma {:induction false} InUseStays(s: State, c: Call)
    requires c.i < |s.leases| && c.now < s.leases[c.i].ends
    requires Foreign(s.leases[c.i], c.lease) && !c.lease.abandoned
    ensures Called(s, c) == Some(s)
  {
  }

  /** A static lease changes nothing; a long identifier that claims to stand in the buffer ends the program. */
  lemma {:induction false} StaticOrCorrupt(s: State, c: Call)
    requires c.i < |s.leases|
    ensures c.lease.isStatic ==> Called(s, c) == Some(s)
    ensures !c.lease.isStatic && (s.leases[c.i].ends <= c.now || c.lease.abandoned) ==>
              (Called(s, c).None? <==> c.lease.uid.Some? && |c.lease.uid.value| >= 32 && c.lease.inBuffer)
  {
  }

  /** An expired lease, one for the same client and one that is abandoned can be had by whoever asks. */
  lemma {:induction false} OthersCanBeHad(s: State, c: Call)
    requires c.i < |s.leases|
    requires s.leases[c.i].ends <= c.now || !Foreign(s.leases[c.i], c.lease) || c.lease.abandoned
    ensures !OutcomeOf(s.leases[c.i], c.lease, c.now).Conflict?
    ensures !c.lease.isStatic && Called(s, c).Some? ==>
              Called(s, c).value.leases[c.i] == Held(c.lease.ends, c.lease.uid, c.lease.hw)
  {
  }

  /**
    * Through any calls, a lease stays with its client, and found as it was in both indexes, as long as the calls for it
    * come before it ends, from others, and not to abandon it.
    */
  lemma {:induction false} LeaseStaysWithClient(s: State, calls: seq<Call>, n: nat, m: nat, i: nat)
    requires n <= m <= |calls| && i < |s.leases| && forall c :: c in calls ==> c.i < |s.leases|
    requires Kept(s) && Run(s, calls, n).Some? && Run(s, calls, m).Some?
    requires forall j :: n <= j < m && calls[j].i == i ==>
               && calls[j].now < Run(s, calls, n).value.leases[i].ends
               && Foreign(Run(s, calls, n).value.leases[i], calls[j].lease) && !calls[j].lease.abandoned
    ensures var t, u := Run(s, calls, n).value, Run(s, calls, m).value;
            && u.leases[i] == t.leases[i]
            && forall key :: (Found(u.byUid, i, key) <==> Found(t.byUid, i, key)) &&
                             (Found(u.byHw, i, key) <==> Found(t.byHw, i, key))
  {
    HeldStays(s, calls, n, m, i);
    RunIsKept(s, calls, n);
    RunIsKept(s, calls, m);
    var t, u := Run(s, calls, n).value, Run(s, calls, m).value;
    forall key ensures (Found(u.byUid, i, key) <==> Found(t.byUid, i, key)) &&
                       (Found(u.byHw, i, key) <==> Found(t.byHw, i, key))
    {
      FoundIs(t.byUid, UidKeys(t), i, key);
      FoundIs(u.byUid, UidKeys(u), i, key);
      FoundIs(t.byHw, HwKeys(t), i, key);
      FoundIs(u.byHw, HwKeys(u), i, key);
    }
  }

  lemma {:induction false} HeldStays(s: State, calls: seq<Call>, n: nat, m: nat, i: nat)
    requires n <= m <= |calls| && i < |s.leases| && forall c :: c in calls ==> c.i < |s.leases|
    requires Run(s, calls, n).Some? && Run(s, calls, m).Some?
    requires forall j :: n <= j < m && calls[j].i == i ==>
               && calls[j].now < Run(s, calls, n).value.leases[i].ends
               && Foreign(Run(s, calls, n).value.leases[i], calls[j].lease) && !calls[j].lease.abandoned
    ensures Run(s, calls, m).value.leases[i] == Run(s, calls, n).value.leases[i]
  {
    if n < m {
      HeldStays(s, calls, n, m - 1, i);
      var before := Run(s, calls, m - 1).value;
      if calls[m - 1].i == i {
        InUseStays(before, calls[m - 1]);
      }
    }
  }

  /** A lease is on the chain of `key`, where find_lease_by_uid or find_lease_by_hw_addr leads. */
  predicate Found(changes: seq<Change>, i: nat, key: seq<byte>) {
    i in WithKey(Entered(changes), key)
  }

  lemma {:induction false} FoundIs(changes: seq<Change>, key: nat -> Option<seq<byte>>, i: nat, k: seq<byte>)
    requires Holds(changes, key)
    ensures Found(changes, i, k) <==> key(i) == Some(k)
  {
    HasIs(Entered(changes), Name(i, k));
  }

  /**
    * After any calls, a lease that is then superseded is found under its new identifier if and only if that is shorter
    * than the buffer: a longer one is taken over from the lease passed in, which loses it before the test whether
    * there is one to enter. It is found under its new hardware address if and only if it has one.
    */
  lemma {:induction false} FoundAfterwards(count: nat, calls: seq<Call>, n: nat)
    requires 0 < n <= |calls| && (forall c :: c in calls ==> c.i < count) && Run(New(count), calls, n).Some?
    requires OutcomeOf(Run(New(count), calls, n - 1).value.leases[calls[n - 1].i], calls[n - 1].lease, calls[n - 1].now)
          == Replaced
    ensures var t, c := Run(New(count), calls, n).value, calls[n - 1];
            && (c.lease.uid.Some? ==> (Found(t.byUid, c.i, c.lease.uid.value) <==> |c.lease.uid.value| < UID_BUF))
            && (Found(t.byHw, c.i, c.lease.hw.addr) <==> c.lease.hw.htype != 0)
  {
    var t, c := Run(New(count), calls, n).value, calls[n - 1];
    NewIsKept(count);
    RunIsKept(New(count), calls, n);
    if c.lease.uid.Some? {
      FoundIs(t.byUid, UidKeys(t), c.i, c.lease.uid.value);
    }
    FoundIs(t.byHw, HwKeys(t), c.i, c.lease.hw.addr);
  }

  /** An identifier of 32 bytes is accepted, and the lease that has it is not found under it. */
  lemma {:induction false} LongUidIsLost(uid: seq<byte>, now: int)
    requires |uid| == 32
    ensures var lease := Incoming(now, Some(uid), false, Hardware(0, []), false, false);
            && OutcomeOf(New(1).leases[0], lease, now) == Replaced
            && !Found(Superseded(New(1), 0, lease).byUid, 0, uid)
  {
    var lease := Incoming(now, Some(uid), false, Hardware(0, []), false, false);
    NewIsKept(1);
    SupersededIsKept(New(1), 0, lease);
    FoundIs(Superseded(New(1), 0, lease).byUid, UidKeys(Superseded(New(1), 0, lease)), 0, uid);
  }

  // ---- the server ----

  class Server {
    var leases: seq<Held>
    var byUid: seq<Change>
    var byHw: seq<Change>

    ghost function Now(): State
      reads this
    {
      State(leases, byUid, byHw)
    }

    constructor (count: nat)
      ensures Now() == New(count) && Kept(Now())
    {
      leases, byUid, byHw := seq(count, _ => Held(0, None, Hardware(0, []))), [], [];
      NewIsKept(count);
    }

    /** supersede_lease, up to where it moves the lease on the list. */
    method Supersede(i: nat, lease: Incoming, now: int) returns (outcome: Outcome)
      requires i < |leases|
      modifies this
      ensures outcome == OutcomeOf(old(leases)[i], lease, now)
      ensures outcome.Static? || outcome.Conflict? ==> Now() == old(Now())
      ensures outcome.Replaced? ==> Now() == Superseded(old(Now()), i, lease)
    {
      if lease.isStatic {
        return Static;
      }
      var comp := leases[i];
      if Conflicts(comp, lease, now) {
        return Conflict;
      }
      var enterUid, enterHw := true, false;
      var given := lease.uid;
      if comp.uid.Some? {
        byUid := byUid + [Deleting(Name(i, comp.uid.value))];
        comp := comp.(uid := None);
      }
      if comp.hw.htype != 0 && comp.hw != lease.hw {
        byHw := byHw + [Deleting(Name(i, comp.hw.addr))];
        enterHw := true;
      } else if comp.hw.htype == 0 {
        enterHw := true;
      }
      if given.Some? {
        if |given.value| >= UID_BUF && lease.inBuffer {
          return Ended;
        }
        comp := comp.(uid := given);
        if |given.value| >= UID_BUF {
          given := None;
        }
      }
      comp := comp.(hw := lease.hw);
      if enterUid && given.Some? {
        byUid := byUid + [Adding(Name(i, given.value))];
      }
      if enterHw && lease.hw.htype != 0 {
        byHw := byHw + [Adding(Name(i, lease.hw.addr))];
      }
      leases := leases[i := comp.(ends := lease.ends)];
      outcome := Replaced;
    }

    method Take(c: Call) returns (survived: bool)
      requires c.i < |leases|
      modifies this
      ensures survived == Called(old(Now()), c).Some?
      ensures survived ==> Now() == Called(old(Now()), c).value
    {
      var outcome := Supersede(c.i, c.lease, c.now);
      survived := outcome != Ended;
    }

    /** One call after the other, until one ends the program. */
    method Perform(calls: seq<Call>) returns (survived: bool)
      requires forall c :: c in calls ==> c.i < |leases|
      modifies this
      ensures survived == Run(old(Now()), calls, |calls|).Some?
      ensures survived ==> Now() == Run(old(Now()), calls, |calls|).value
    {
      ghost var s := Now();
      var n := 0;
      while n < |calls|
        invariant 0 <= n <= |calls| && Run(s, calls, n) == Some(Now())
      {
        survived := Take(calls[n]);
        n := n + 1;
        if !survived {
          RunStaysEnded(s, calls, n, |calls|);
          return false;
        }
      }
      survived := true;
    }
  }

  /** The first of the leases, from place `k` on, that is wanted. */
  function FirstWanted(leases: seq<nat>, wanted: nat -> bool, k: nat): (r: Option<nat>)
    requires k <= |leases|
    ensures r.Some? ==> r.value in leases && wanted(r.value)
    ensures r.None? ==> forall i :: k <= i < |leases| ==> !wanted(leases[i])
    decreases |leases| - k
  {
    if k == |leases| then None
    else if wanted(leases[k]) then Some(leases[k])
    else FirstWanted(leases, wanted, k + 1)
  }

  /** There is a wanted lease that has the key. */
  ghost predicate Wanted(keys: nat -> Option<seq<byte>>, key: seq<byte>, wanted: nat -> bool) {
    exists i :: keys(i) == Some(key) && wanted(i)
  }

  /** What is found is a wanted lease that has the key, and one is found if there is one. */
  lemma {:induction false} FirstIsWanted(changes: seq<Change>, keys: nat -> Option<seq<byte>>, key: seq<byte>,
                                         wanted: nat -> bool, found: Option<nat>)
    requires Holds(changes, keys) && found == FirstWanted(WithKey(Entered(changes), key), wanted, 0)
    ensures found.Some? ==> keys(found.value) == Some(key) && wanted(found.value)
    ensures found.Some? <==> Wanted(keys, key, wanted)
  {
    if found.Some? {
      FoundIs(changes, keys, found.value, key);
    } else if Wanted(keys, key, wanted) {
      var i :| keys(i) == Some(key) && wanted(i);
      FoundIs(changes, keys, i, key);
      assert false;
    }
  }

  /** The search of find_lease in dhcp.c: along the chain to the first lease on the network of the client. */
  method FindOn(index: Index, key: seq<byte>, wanted: nat -> bool, ghost leases: seq<nat>) returns (found: Option<nat>)
    requires index.Valid() && Are(index.Chain(key), leases)
    ensures found == FirstWanted(leases, wanted, 0)
  {
    var entry := index.Find(key);
    ghost var chain, k := index.Chain(key), 0;
    while entry != null && !wanted(entry.lease)
      invariant k <= |chain| && entry == Item(chain, k)
      invariant FirstWanted(leases, wanted, 0) == FirstWanted(leases, wanted, k)
      decreases |chain| - k
    {
      assert Linked(chain);
      entry, k := entry.next, k + 1;
    }
    found := if entry == null then None else Some(entry.lease);
  }

  /** There is a wanted lease with this identifier, which is shorter than the buffer. */
  ghost predicate WantedByUid(t: State, uid: seq<byte>, wanted: nat -> bool) {
    |uid| < UID_BUF && exists i :: 0 <= i < |t.leases| && t.leases[i].uid == Some(uid) && wanted(i)
  }

  /** There is a wanted lease with this hardware address. */
  ghost predicate WantedByHw(t: State, addr: seq<byte>, wanted: nat -> bool) {
    exists i :: 0 <= i < |t.leases| && t.leases[i].hw.htype != 0 && t.leases[i].hw.addr == addr && wanted(i)
  }

  lemma {:induction false} WantedIs(t: State, key: seq<byte>, wanted: nat -> bool)
    ensures Wanted(UidKeys(t), key, wanted) <==> WantedByUid(t, key, wanted)
    ensures Wanted(HwKeys(t), key, wanted) <==> WantedByHw(t, key, wanted)
  {
    if WantedByUid(t, key, wanted) {
      var i :| 0 <= i < |t.leases| && t.leases[i].uid == Some(key) && wanted(i);
      assert UidKeys(t)(i) == Some(key);
    }
    if WantedByHw(t, key, wanted) {
      var i :| 0 <= i < |t.leases| && t.leases[i].hw.htype != 0 && t.leases[i].hw.addr == key && wanted(i);
      assert HwKeys(t)(i) == Some(key);
    }
  }

  /** The search of an index that has gone through `changes`. */
  method Search(changes: seq<Change>, ghost keys: nat -> Option<seq<byte>>, key: seq<byte>, wanted: nat -> bool)
    returns (found: Option<nat>)
    requires Holds(changes, keys)
    ensures found == FirstWanted(WithKey(Entered(changes), key), wanted, 0)
    ensures found.Some? ==> keys(found.value) == Some(key) && wanted(found.value)
    ensures found.Some? <==> Wanted(keys, key, wanted)
  {
    var index := Replay(changes);
    found := FindOn(index, key, wanted, WithKey(Entered(changes), key));
    FirstIsWanted(changes, keys, key, wanted, found);
  }

  /**
    * A server from its beginning: any calls, and then searches of the two indexes as they are in memory. What is found
    * is a wanted lease with the key, the one that was entered first. One is found by hardware address if and only if
    * there is one, and by identifier if and only if there is one and the identifier is shorter than the buffer.
    */
  method Serve(count: nat, calls: seq<Call>, uid: seq<byte>, addr: seq<byte>, wanted: nat -> bool)
    returns (survived: bool, byUid: Option<nat>, byHw: Option<nat>)
    requires forall c :: c in calls ==> c.i < count
    ensures survived == Run(New(count), calls, |calls|).Some?
    ensures survived ==>
              var t := Run(New(count), calls, |calls|).value;
              && byUid == FirstWanted(WithKey(Entered(t.byUid), uid), wanted, 0)
              && byHw == FirstWanted(WithKey(Entered(t.byHw), addr), wanted, 0)
              && (byUid.Some? ==> UidKeys(t)(byUid.value) == Some(uid) && wanted(byUid.value))
              && (byHw.Some? ==> HwKeys(t)(byHw.value) == Some(addr) && wanted(byHw.value))
              && (byUid.Some? <==> WantedByUid(t, uid, wanted))
              && (byHw.Some? <==> WantedByHw(t, addr, wanted))
  {
    var server := new Server(count);
    survived := server.Perform(calls);
    if !survived {
      return false, None, None;
    }
    RunIsKept(New(count), calls, |calls|);
    ghost var t := server.Now();
    byUid := Search(server.byUid, UidKeys(t), uid, wanted);
    byHw := Search(server.byHw, HwKeys(t), addr, wanted);
    WantedIs(t, uid, wanted);
    WantedIs(t, addr, wanted);
  }
}
