/**
  * The states of the DHCP client and the moves between them, as values: what each handler of dhclient.c makes of a
  * state, and the proof that every move leads from one well-formed state to another.
  */
module DhcpMachine {
  import opened Arithmetic
  import opened Bytes
  import opened OptionValues
  import opened DhcpPackets
  import opened DhcpTimes
  import opened DhcpLeases

  /** The handlers a timeout can be registered for. */
  datatype Timer = InitTimer | SelectingTimer | DiscoverTimer | RequestTimer | BoundTimer

  /**
    * The fields of the client at one moment. `subject` is the lease the current DHCPREQUEST was made from, and
    * `sent` is everything sent so far.
    */
  datatype Snapshot = Snapshot(
    state: State, active: ClientLease?, leases: seq<ClientLease>, offered: seq<ClientLease>, destination: seq<byte>,
    xid: Word, secs: nat, firstSending: int, interval: nat, medium: seq<string>, packet: Packet,
    requestedAddress: Option<Address>, timers: map<Timer, int>, subject: ClientLease?, sent: Log)

  /** The recorded leases in the order state_panic tries them. */
  function Recorded(active: ClientLease?, leases: seq<ClientLease>): seq<ClientLease> {
    if active == null then leases else [active] + leases
  }

  lemma {:induction false} TailIsDistinct(active: ClientLease?, leases: seq<ClientLease>)
    requires Distinct(Recorded(active, leases))
    ensures Distinct(leases)
  {
    var order := Recorded(active, leases);
    var d := |order| - |leases|;
    assert leases == order[d..];
    NoneTwiceIs(order, |order|);
    NoneTwiceIs(leases, |leases|);
  }

  /** What holds at every moment, also in the middle of an event. */
  ghost predicate Core(c: Config, v: Snapshot) {
    c.backoffCutoff >= 1 && Distinct(Recorded(v.active, v.leases)) && AllProper(c, v.sent)
  }

  /** The one handler whose timeout is pending. */
  function Pending(v: Snapshot): Timer {
    match v.state
    case Bound => BoundTimer
    case Init => InitTimer
    case Selecting => if v.offered == [] then DiscoverTimer else SelectingTimer
    case _ => RequestTimer
  }

  /** The server of a lease, or everyone. */
  function Server(lease: ClientLease): seq<byte> {
    if |lease.Server()| == 4 then lease.Server() else BROADCAST
  }

  /** The packet being retransmitted is a DHCPREQUEST for `subject` in the current transaction. */
  ghost predicate Asking(c: Config, v: Snapshot) {
    v.subject != null && v.packet == RequestPacket(c, v.state, v.subject, v.xid, v.packet.secs)
  }

  /** The packet being retransmitted is a DHCPDISCOVER that asks for the active lease, if there is one. */
  ghost predicate Discovering(c: Config, v: Snapshot) {
    && v.packet == DiscoverPacket(c, v.active, v.xid, v.packet.secs)
    && v.requestedAddress == (if v.active == null then None else Some(v.active.address))
  }

  /** The packet is the one the state calls for, and belongs to the current transaction. */
  ghost predicate Fits(c: Config, v: Snapshot) {
    match v.state
    case Selecting => Discovering(c, v) && v.packet.secs == v.secs && LastDiscover(v.sent) == Some(v.packet)
    case Requesting =>
      && Asking(c, v)
      && LastDiscover(v.sent).Some? && LastDiscover(v.sent).value.xid == v.xid
      && LastDiscover(v.sent).value.secs == v.secs
    case Rebooting => Asking(c, v) && v.subject == v.active
    case Renewing => Asking(c, v) && v.subject == v.active && v.destination == Server(v.subject)
    case _ => true
  }

  /** When the pending timeout is due. */
  ghost predicate OnTime(c: Config, v: Snapshot)
    requires v.timers.Keys == {Pending(v)}
  {
    var due := v.timers[Pending(v)];
    match v.state
    case Bound => v.active != null && due == v.active.renewal
    case Rebooting => v.active != null && due <= v.active.expiry + 1
    case Renewing => v.active != null && due <= v.active.expiry + 1
    case Selecting => v.offered == [] ==> due <= v.firstSending + c.timeout + 1
    case _ => true
  }

  /**
    * What holds between any two events: one timeout is pending and the state fixes which and how late; a lease is
    * active where one is in use; offers are held only while selecting, one for each address; the packet at hand
    * fits the state; and everything sent so far was proper.
    */
  ghost predicate Valid(c: Config, v: Snapshot) {
    && Core(c, v)
    && v.state != Rebinding
    && (v.offered != [] ==> v.state.Selecting?)
    && Different(v.offered, |v.offered|)
    && v.timers.Keys == {Pending(v)}
    && OnTime(c, v)
    && Fits(c, v)
  }

  // ---- discovering ----

  /** Whether the interval grows with the next DHCPDISCOVER: not while there are media left to try. */
  function Increases(c: Config, m: seq<string>, failures: nat): bool {
    c.media == [] || |MediumAfter(c.media, m, failures)| <= 1
  }

  /** The medium the next DHCPDISCOVER goes out on. */
  function Chosen(c: Config, m: seq<string>, failures: nat): seq<string> {
    if c.media == [] then m else MediumAfter(c.media, m, failures + 1)
  }

  /** It does grow when the medium that works is the first of the list again. */
  lemma {:induction false} GrowsWithEveryRound(c: Config, k: nat, failures: nat)
    requires k < |c.media|
    ensures Chosen(c, c.media[k..], failures) == c.media[(k + failures + 1) % |c.media|..]
    ensures Increases(c, c.media[k..], failures) <==> (k + failures + 1) % |c.media| == 0
  {
    MediaInTurn(c.media, k, failures);
    MediaInTurn(c.media, k, failures + 1);
    OneOn(k + failures, |c.media|);
  }

  /** Without media to choose from, the interval grows every time. */
  lemma {:induction false} GrowsWithoutMedia(c: Config, m: seq<string>, failures: nat)
    requires c.media == []
    ensures Chosen(c, m, failures) == m && Increases(c, m, failures)
  {
  }

  /** send_discover, before the panic timeout. */
  function Discovered(c: Config, env: Env, v: Snapshot): Snapshot
    requires c.backoffCutoff >= 1 && env.now - v.firstSending <= c.timeout
  {
    var interval :=
      DiscoverInterval(c, Increases(c, v.medium, env.mediumFailures), v.interval, v.firstSending, env);
    var secs := Seconds(env.now - v.firstSending);
    var packet := v.packet.(secs := secs);
    v.(medium := Chosen(c, v.medium, env.mediumFailures), interval := interval, secs := secs, packet := packet,
       sent := After(v.sent, Sending(v.state, env.now, v.xid, packet, v.active, BROADCAST, ANY)),
       timers := map[DiscoverTimer := env.now + interval])
  }

  /** state_init: a new transaction. */
  function Begun(c: Config, env: Env, v: Snapshot): Snapshot {
    v.(state := Selecting, xid := env.xid, packet := DiscoverPacket(c, v.active, env.xid, 0),
       requestedAddress := if v.active == null then None else Some(v.active.address),
       destination := BROADCAST, firstSending := env.now, interval := c.initialInterval)
  }

  function Restarted(c: Config, env: Env, v: Snapshot): Snapshot
    requires c.backoffCutoff >= 1
  {
    Discovered(c, env, Begun(c, env, v))
  }

  lemma {:induction false} DiscoveredIsValid(c: Config, env: Env, v: Snapshot)
    requires Core(c, v) && v.state.Selecting? && v.offered == [] && Discovering(c, v)
    requires env.now - v.firstSending <= c.timeout
    ensures Valid(c, Discovered(c, env, v))
  {
  }

  lemma {:induction false} RestartedIsValid(c: Config, env: Env, v: Snapshot)
    requires Core(c, v) && v.offered == []
    ensures Valid(c, Restarted(c, env, v))
  {
    DiscoveredIsValid(c, env, Begun(c, env, v));
  }

  // ---- requesting ----

  /** The request has waited too long for an answer. */
  predicate TimedOut(c: Config, env: Env, v: Snapshot) {
    (v.state.Rebooting? || v.state.Requesting?) && env.now - v.firstSending > c.rebootTimeout
  }

  /** The medium of the recorded lease has to be set up first. */
  predicate NeedsMedium(v: Snapshot) {
    v.state.Rebooting? && v.medium == [] && v.active != null && v.active.medium != []
  }

  function WithMedium(v: Snapshot): Snapshot {
    if NeedsMedium(v) then v.(medium := v.active.medium) else v
  }

  predicate Expired(env: Env, v: Snapshot) {
    !v.state.Requesting? && v.active != null && env.now > v.active.expiry
  }

  /** The part of send_request that sends. */
  function Asked(c: Config, env: Env, v: Snapshot): Snapshot
    requires v.subject != null && (!v.state.Requesting? ==> env.now <= v.subject.expiry)
  {
    var interval :=
      RequestInterval(c, v.interval, if v.state.Requesting? then None else Some(v.subject.expiry), env);
    var packet := v.packet.(secs := if v.state.Requesting? then v.secs else Seconds(env.now - v.firstSending));
    v.(interval := interval, packet := packet,
       sent := After(v.sent, Sending(v.state, env.now, v.xid, packet, v.subject, Target(v.state, env.now, v.subject),
                                     if v.state.Requesting? then ANY else v.subject.address)),
       timers := map[RequestTimer := env.now + interval])
  }

  /** send_request: too late, the wrong medium or an expired lease lead back to discovering. */
  function Requested(c: Config, env: Env, v: Snapshot): Snapshot
    requires c.backoffCutoff >= 1 && v.subject != null && (!v.state.Requesting? ==> v.subject == v.active)
  {
    if TimedOut(c, env, v) || (NeedsMedium(v) && !env.mediumSet) then Restarted(c, env, v)
    else if Expired(env, v) then Restarted(c, env, WithMedium(v))
    else Asked(c, env, WithMedium(v))
  }

  /** The client can send a request at this moment. */
  ghost predicate CanAsk(c: Config, v: Snapshot) {
    && Core(c, v) && v.offered == [] && Fits(c, v)
    && (v.state.Requesting? || v.state.Rebooting? || v.state.Renewing?)
  }

  /** What send_request relies on. */
  ghost predicate Asks(v: Snapshot) {
    && v.subject != null
    && (v.state.Requesting? || v.state.Rebooting? || v.state.Renewing?)
    && (!v.state.Requesting? ==> v.subject == v.active)
    && (v.state.Renewing? ==> v.destination == Server(v.subject))
  }

  lemma {:induction false} AskedIsValid(c: Config, env: Env, v: Snapshot)
    requires CanAsk(c, v) && !Expired(env, v)
    ensures Valid(c, Asked(c, env, v))
  {
  }

  lemma {:induction false} RequestedIsValid(c: Config, env: Env, v: Snapshot)
    requires CanAsk(c, v)
    ensures Valid(c, Requested(c, env, v))
  {
    if TimedOut(c, env, v) || (NeedsMedium(v) && !env.mediumSet) {
      RestartedIsValid(c, env, v);
    } else if Expired(env, v) {
      RestartedIsValid(c, env, WithMedium(v));
    } else {
      AskedIsValid(c, env, WithMedium(v));
    }
  }

  /** state_bound: the active lease asks to be renewed. */
  function Due(c: Config, env: Env, v: Snapshot): Snapshot
    requires v.active != null
  {
    v.(packet := RequestPacket(c, Bound, v.active, v.xid, 0), requestedAddress := None, subject := v.active,
       destination := Server(v.active), firstSending := env.now, interval := c.initialInterval, state := Renewing)
  }

  function Renewed(c: Config, env: Env, v: Snapshot): Snapshot
    requires c.backoffCutoff >= 1 && v.active != null
  {
    Requested(c, env, Due(c, env, v))
  }

  lemma {:induction false} RenewedIsValid(c: Config, env: Env, v: Snapshot)
    requires Core(c, v) && v.offered == [] && v.active != null
    ensures Valid(c, Renewed(c, env, v))
  {
    RequestedIsValid(c, env, Due(c, env, v));
  }

  lemma {:induction false} RenewedKeepsLeases(c: Config, env: Env, v: Snapshot)
    requires c.backoffCutoff >= 1 && v.active != null
    ensures Renewed(c, env, v).active == v.active && Renewed(c, env, v).leases == v.leases
    ensures env.now <= v.active.expiry ==> Renewed(c, env, v).state == Renewing
  {
  }

  // ---- panicking ----

  /** The `k`th recorded lease is in use, those after it and then those before it are in reserve. */
  function TurnedTo(v: Snapshot, k: nat): Snapshot
    requires k < |Recorded(v.active, v.leases)|
  {
    var t := Turned(Recorded(v.active, v.leases), k);
    v.(active := t[0], leases := t[1..])
  }

  /** No recorded lease is of any use: they are back in order, one alone being put in reserve. */
  function GivenUp(v: Snapshot): Snapshot {
    var order := Recorded(v.active, v.leases);
    if |order| <= 1 then v.(active := null, leases := order) else v.(active := order[0], leases := order[1..])
  }

  /** state_panic: use the first recorded lease that works, or sleep and start over. */
  function Panicked(c: Config, env: Env, v: Snapshot): Snapshot
    requires c.backoffCutoff >= 1
  {
    var order := Recorded(v.active, v.leases);
    var k := FirstWorking(order, env, 0);
    if k == |order| then
      GivenUp(v).(state := Init, timers := map[InitTimer := env.now + c.retryInterval])
    else if env.now < order[k].renewal then
      TurnedTo(v, k).(state := Bound, timers := map[BoundTimer := order[k].renewal])
    else
      Renewed(c, env, TurnedTo(v, k).(state := Bound))
  }

  lemma {:induction false} TurnedToIsCore(c: Config, v: Snapshot, k: nat)
    requires Core(c, v) && k < |Recorded(v.active, v.leases)|
    ensures Core(c, TurnedTo(v, k)) && TurnedTo(v, k).active == Recorded(v.active, v.leases)[k]
    ensures Recorded(TurnedTo(v, k).active, TurnedTo(v, k).leases) == Turned(Recorded(v.active, v.leases), k)
  {
    var order := Recorded(v.active, v.leases);
    TurnedIsDistinct(order, k);
    TurnedHead(order, k);
    assert [Turned(order, k)[0]] + Turned(order, k)[1..] == Turned(order, k);
  }

  lemma {:induction false} GivenUpIsCore(c: Config, v: Snapshot)
    requires Core(c, v)
    ensures Core(c, GivenUp(v))
    ensures Recorded(GivenUp(v).active, GivenUp(v).leases) == Recorded(v.active, v.leases)
  {
    var order := Recorded(v.active, v.leases);
    assert |order| > 1 ==> [order[0]] + order[1..] == order;
  }

  lemma {:induction false} PanickedIsValid(c: Config, env: Env, v: Snapshot)
    requires Core(c, v) && v.offered == []
    ensures Valid(c, Panicked(c, env, v))
  {
    var order := Recorded(v.active, v.leases);
    var k := FirstWorking(order, env, 0);
    if k == |order| {
      GivenUpIsCore(c, v);
    } else {
      TurnedToIsCore(c, v, k);
      if env.now >= order[k].renewal {
        RenewedIsValid(c, env, TurnedTo(v, k).(state := Bound));
      }
    }
  }

  /** Panicking neither loses nor invents a lease. */
  lemma {:induction false} PanicConserves(c: Config, env: Env, v: Snapshot)
    requires Core(c, v)
    ensures var w := Panicked(c, env, v);
            multiset(Recorded(w.active, w.leases)) == multiset(Recorded(v.active, v.leases))
  {
    var order := Recorded(v.active, v.leases);
    var k := FirstWorking(order, env, 0);
    if k == |order| {
      GivenUpIsCore(c, v);
    } else {
      TurnedConserves(order, k);
      TurnedToIsCore(c, v, k);
      RenewedKeepsLeases(c, env, TurnedTo(v, k).(state := Bound));
    }
  }

  /**
    * A lease is taken into use exactly when one works; it is the first that does, and then it is bound until it
    * has to be renewed or is already being renewed. Otherwise the client sleeps.
    */
  lemma {:induction false} PanicUsesFirstWorking(c: Config, env: Env, v: Snapshot, k: nat)
    requires Core(c, v)
    ensures var w, order := Panicked(c, env, v), Recorded(v.active, v.leases);
            && (IsFirstWorking(order, env, k) ==>
                  && w.active == order[k]
                  && (if env.now < order[k].renewal then
                        w.state == Bound && w.timers == map[BoundTimer := order[k].renewal]
                      else
                        w.state == Renewing))
            && ((forall i :: 0 <= i < |order| ==> !Works(order[i], env)) ==>
                  w.state == Init && w.timers == map[InitTimer := env.now + c.retryInterval])
  {
    var order := Recorded(v.active, v.leases);
    FirstWorkingIs(order, env, 0);
    if IsFirstWorking(order, env, k) {
      FirstWorkingFound(order, env, k, 0);
      TurnedToIsCore(c, v, k);
      RenewedKeepsLeases(c, env, TurnedTo(v, k).(state := Bound));
    }
  }

  // ---- the timeout of a DHCPDISCOVER ----

  /** send_discover: panic when the time is up, otherwise send and wait. */
  function SentDiscover(c: Config, env: Env, v: Snapshot): Snapshot
    requires c.backoffCutoff >= 1
  {
    if env.now - v.firstSending > c.timeout then Panicked(c, env, v) else Discovered(c, env, v)
  }

  predicate Waiting(v: Snapshot) { v.state.Selecting? && v.offered == [] }

  lemma {:induction false} SentDiscoverIsValid(c: Config, env: Env, v: Snapshot, timers: map<Timer, int>)
    requires Valid(c, v) && Waiting(v)
    ensures Valid(c, SentDiscover(c, env, v.(timers := timers)))
  {
    if env.now - v.firstSending > c.timeout {
      PanickedIsValid(c, env, v.(timers := timers));
    } else {
      DiscoveredIsValid(c, env, v.(timers := timers));
    }
  }

  /** The state after `n` timeouts of a client nobody makes an offer to. */
  function Unanswered(c: Config, envs: seq<Env>, v: Snapshot, n: nat): Snapshot
    requires c.backoffCutoff >= 1 && n <= |envs|
  {
    if n == 0 then v
    else
      var u := Unanswered(c, envs, v, n - 1);
      if Waiting(u) then SentDiscover(c, envs[n - 1], u.(timers := map[])) else u
  }

  /** No timeout among the first `n` comes early. */
  ghost predicate NoneEarly(c: Config, envs: seq<Env>, v: Snapshot, n: nat)
    requires c.backoffCutoff >= 1 && n <= |envs|
  {
    n == 0 ||
    (NoneEarly(c, envs, v, n - 1) &&
     var u := Unanswered(c, envs, v, n - 1);
     Waiting(u) && DiscoverTimer in u.timers ==> u.timers[DiscoverTimer] <= envs[n - 1].now)
  }

  /**
    * Whatever random numbers are drawn, a client without an offer keeps waiting at most until the panic timeout:
    * each timeout is later than the one before and none is due more than a second past it, so after so many
    * timeouts the client has panicked.
    */
  lemma {:induction false} DiscoveryDeadline(c: Config, envs: seq<Env>, v: Snapshot, n: nat)
    requires Valid(c, v) && Waiting(v) && n <= |envs| && NoneEarly(c, envs, v, n)
    requires c.initialInterval >= 1 && c.backoffCutoff >= 2
    ensures var u := Unanswered(c, envs, v, n);
            && Valid(c, u)
            && (Waiting(u) ==>
                  && u.firstSending == v.firstSending
                  && v.timers[DiscoverTimer] + n <= u.timers[DiscoverTimer] <= v.firstSending + c.timeout + 1)
    ensures n > v.firstSending + c.timeout + 1 - v.timers[DiscoverTimer] ==>
              !Waiting(Unanswered(c, envs, v, n))
  {
    if n > 0 {
      DiscoveryDeadline(c, envs, v, n - 1);
      var u := Unanswered(c, envs, v, n - 1);
      if Waiting(u) {
        var env := envs[n - 1];
        SentDiscoverIsValid(c, env, u, map[]);
        if env.now - u.firstSending <= c.timeout {
          DiscoverIntervalBounds(c, Increases(c, u.medium, env.mediumFailures), u.interval, u.firstSending, env);
        } else {
          PanicEndsWaiting(c, env, u.(timers := map[]));
        }
      }
    }
  }

  lemma {:induction false} PanicEndsWaiting(c: Config, env: Env, v: Snapshot)
    requires Core(c, v)
    ensures !Waiting(Panicked(c, env, v))
  {
    var order := Recorded(v.active, v.leases);
    var k := FirstWorking(order, env, 0);
    FirstWorkingIs(order, env, 0);
    if k < |order| {
      TurnedToIsCore(c, v, k);
      RenewedKeepsLeases(c, env, TurnedTo(v, k).(state := Bound));
    }
  }

  // ---- selecting ----

  /** The offers held are let go, the first `n` of them with a DHCPDECLINE. */
  ghost function PassedOver(c: Config, env: Env, v: Snapshot, n: nat): Snapshot
    requires n <= |v.offered|
  {
    v.(packet := if n == 0 then v.packet else DeclinePacket(c, v.offered[n - 1], v.xid),
       sent := Declined(v.sent, c, v.offered, env.now, v.xid, n), offered := [], timers := map[])
  }

  /** The offer `lease` is picked: a DHCPREQUEST for it is ready. */
  function Picked(c: Config, env: Env, v: Snapshot, lease: ClientLease): Snapshot {
    v.(destination := BROADCAST, state := Requesting, firstSending := env.now, interval := c.initialInterval,
       packet := RequestPacket(c, Requesting, lease, v.xid, 0), requestedAddress := Some(lease.address),
       subject := lease)
  }

  predicate IsBootp(lease: ClientLease) { Value(lease.options, MESSAGE_TYPE) == [] }

  /** state_selecting, unless the offer picked is a BOOTREPLY. */
  ghost function Selected(c: Config, env: Env, v: Snapshot): Snapshot
    requires c.backoffCutoff >= 1
  {
    var k := FirstFree(v.offered, env, 0);
    var w := PassedOver(c, env, v, k);
    if k == |v.offered| then Restarted(c, env, w.(state := Init))
    else Requested(c, env, Picked(c, env, w, v.offered[k]))
  }

  lemma {:induction false} PassedOverIsCore(c: Config, env: Env, v: Snapshot, n: nat)
    requires Core(c, v) && n <= |v.offered|
    requires LastDiscover(v.sent).Some? && LastDiscover(v.sent).value.xid == v.xid
    ensures Core(c, PassedOver(c, env, v, n))
    ensures LastDiscover(PassedOver(c, env, v, n).sent) == LastDiscover(v.sent)
  {
    DeclinedIsProper(v.sent, c, v.offered, env.now, v.xid, n);
  }

  lemma {:induction false} SelectedIsValid(c: Config, env: Env, v: Snapshot)
    requires Core(c, v) && v.state.Selecting?
    requires LastDiscover(v.sent).Some?
    requires LastDiscover(v.sent).value.xid == v.xid && LastDiscover(v.sent).value.secs == v.secs
    ensures Valid(c, Selected(c, env, v))
  {
    var k := FirstFree(v.offered, env, 0);
    PassedOverIsCore(c, env, v, k);
    var w := PassedOver(c, env, v, k);
    if k == |v.offered| {
      RestartedIsValid(c, env, w.(state := Init));
    } else {
      RequestedIsValid(c, env, Picked(c, env, w, v.offered[k]));
    }
  }

  // ---- binding ----

  /** bind_lease: `lease` replaces the active lease and is renewed in its time. */
  function BoundTo(v: Snapshot, lease: ClientLease): Snapshot {
    v.(active := lease, state := Bound, timers := map[BoundTimer := lease.renewal])
  }

  lemma {:induction false} BoundToIsValid(c: Config, v: Snapshot, lease: ClientLease)
    requires Core(c, v) && v.offered == [] && lease !in v.leases
    ensures Valid(c, BoundTo(v, lease))
  {
    TailIsDistinct(v.active, v.leases);
    ExtendedIsDistinct(v.leases, lease);
  }

  // ---- offers ----

  /** The end of the selection, given the seconds to wait for an answer to ARP. */
  function StopSelecting(c: Config, env: Env, v: Snapshot, lease: ClientLease): int {
    var stop := v.firstSending + c.selectInterval;
    var wait := if env.arpSent then 2 else 0;
    var needed :=
      if v.requestedAddress != Some(lease.address) && v.offered != [] && env.now + wait > stop then 0 else wait;
    if stop - env.now < needed then env.now + needed else stop
  }

  function Max(a: int, b: int): int { if a >= b then a else b }

  /**
    * Selection ends when the configured interval is over since the first DHCPDISCOVER, or now if that has passed. Two
    * seconds are left for an answer to ARP where one was asked for, unless an earlier offer waits and it is not for the
    * address the client wants.
    */
  lemma {:induction false} SelectionEnds(c: Config, env: Env, v: Snapshot, lease: ClientLease)
    ensures var stop, planned := StopSelecting(c, env, v, lease), v.firstSending + c.selectInterval;
            && Max(planned, env.now) <= stop <= Max(planned, env.now + 2)
            && (!env.arpSent ==> stop == Max(planned, env.now))
            && (env.arpSent && (v.offered == [] || v.requestedAddress == Some(lease.address)) ==>
                  stop == Max(planned, env.now + 2))
            && (env.arpSent && v.offered != [] && v.requestedAddress != Some(lease.address) ==>
                  stop == Max(planned, env.now))
  {
  }

  /** dhcpoffer records an offer: the address asked for goes first, any other last. */
  function Recording(v: Snapshot, lease: ClientLease): Snapshot {
    v.(offered := if v.requestedAddress == Some(lease.address) then [lease] + v.offered else v.offered + [lease])
  }

  lemma {:induction false} RecordingIsValid(c: Config, v: Snapshot, lease: ClientLease, stop: int)
    requires Valid(c, v) && v.state.Selecting? && !Seen(v.offered, lease.address, |v.offered|)
    ensures Valid(c, Recording(v, lease).(timers := map[SelectingTimer := stop]))
  {
    StillDifferent(v.offered, lease);
  }

  // ---- losing and starting ----

  /** dhcpnak: the lease is gone. */
  function Lost(v: Snapshot): Snapshot { v.(active := null, timers := map[], state := Init) }

  lemma {:induction false} LostIsCore(c: Config, v: Snapshot)
    requires Core(c, v)
    ensures Core(c, Lost(v))
  {
    TailIsDistinct(v.active, v.leases);
  }

  /** state_reboot: ask for the lease remembered from before, if there is one. */
  function Rebooted(c: Config, env: Env, v: Snapshot): Snapshot
    requires c.backoffCutoff >= 1
  {
    if v.active == null || v.active.isBootp then Restarted(c, env, v)
    else
      Requested(c, env,
        v.(state := Rebooting, xid := env.rebootXid,
           packet := RequestPacket(c, Rebooting, v.active, env.rebootXid, 0),
           requestedAddress := Some(v.active.address), subject := v.active, destination := BROADCAST,
           firstSending := env.now, interval := c.initialInterval, medium := []))
  }

  lemma {:induction false} RebootedIsValid(c: Config, env: Env, v: Snapshot)
    requires Core(c, v) && v.offered == []
    ensures Valid(c, Rebooted(c, env, v))
  {
    if v.active == null || v.active.isBootp {
      RestartedIsValid(c, env, v);
    } else {
      RequestedIsValid(c, env,
        v.(state := Rebooting, xid := env.rebootXid,
           packet := RequestPacket(c, Rebooting, v.active, env.rebootXid, 0),
           requestedAddress := Some(v.active.address), subject := v.active, destination := BROADCAST,
           firstSending := env.now, interval := c.initialInterval, medium := []));
    }
  }
}
