/**
  * The DHCP client: the handlers of contrib/dhcp/client/dhclient.c for one interface. Each handler runs to completion
  * between two events. Its effect is a move of DhcpMachine, and every move keeps `Valid`. The timer queue is the map
  * from handler to deadline that dispatch.c implements.
  */
module DhcpClient {
  import opened Arithmetic
  import opened Bytes
  import opened OptionValues
  import opened DhcpPackets
  import opened DhcpTimes
  import opened DhcpLeases
  import B = DhcpBehaviour
  import M = DhcpMachine
  import PO = PacketOptions

  const BOOTREPLY: byte := 2
  const DHCPOFFER: byte := 2
  const DHCPACK: byte := 5
  const DHCPNAK: byte := 6

  /** A packet received, with its options as far as they could be parsed, and whether that was to their end. */
  datatype Reply = Reply(
    op: byte, xid: Word, hardware: seq<byte>, sender: Address, yiaddr: Address, valid: bool, options: Options)
  {
    /** What do_packet makes of the message type; zero stands for BOOTP. */
    function Type(): byte {
      if !valid || Value(options, MESSAGE_TYPE) == [] then 0 else Value(options, MESSAGE_TYPE)[0]
    }
  }

  /** What wakes the client up: the pending timeout or a packet. */
  datatype Event = Timeout | Packet(reply: Reply)

  /** The reply carries every option the configuration requires. */
  ghost predicate Satisfies(config: Config, reply: Reply) {
    forall r :: r in config.required ==> Value(reply.options, r) != []
  }

  /** The reply belongs to the current transaction of this interface. */
  predicate Ours(c: Config, v: M.Snapshot, reply: Reply) { v.xid == reply.xid && c.hardware == reply.hardware }

  /** A DHCPACK or DHCPNAK is heard in the states that wait for one. */
  predicate Hears(c: Config, v: M.Snapshot, reply: Reply) {
    Ours(c, v, reply) && (v.state.Rebooting? || v.state.Requesting? || v.state.Renewing? || v.state.Rebinding?)
  }

  /** An offer is accepted while selecting, if it carries what is required and its address is new. */
  ghost predicate Accepts(c: Config, v: M.Snapshot, reply: Reply) {
    && Ours(c, v, reply) && v.state.Selecting?
    && Satisfies(c, reply) && !Seen(v.offered, reply.yiaddr, |v.offered|)
  }

  /**
    * The reply is a DHCPACK that is heard but lacks a lease time: dhcpack reads the four bytes of the time through a
    * null pointer.
    */
  predicate Crashes(c: Config, v: M.Snapshot, reply: Reply) {
    && reply.Type() == DHCPACK && reply.sender !in c.rejected
    && Hears(c, v, reply) && Value(reply.options, LEASE_TIME) == []
  }

  /** Such a reply: it needs no more than the transaction, the hardware address and the type. */
  lemma {:induction false} AckWithoutTimeCrashes(c: Config, v: M.Snapshot, server: Address, given: Address)
    requires server !in c.rejected && (v.state.Rebooting? || v.state.Requesting? || v.state.Renewing?)
    ensures Crashes(c, v, Reply(BOOTREPLY, v.xid, c.hardware, server, given, true, map[MESSAGE_TYPE := [DHCPACK]]))
  {
  }

  /** The times a DHCPACK gives the lease. */
  function LeaseTimes(c: Config, env: Env, reply: Reply): Times
    requires Value(reply.options, LEASE_TIME) != []
  {
    AckTimes(c.wideTime, env.now, GetULong(Value(reply.options, LEASE_TIME), env),
             if Value(reply.options, RENEWAL_TIME) != [] then
               Some(GetULong(Value(reply.options, RENEWAL_TIME), env))
             else None,
             if Value(reply.options, REBINDING_TIME) != [] then
               Some(GetULong(Value(reply.options, REBINDING_TIME), env))
             else None)
  }

  /** The times are those the options of the reply mean, counted from now, or the default for the renewal. */
  ghost predicate AsMeant(c: Config, env: Env, reply: Reply, t: Times) {
    && Means(Value(reply.options, LEASE_TIME), t.expiry, env.now, c.wideTime)
    && Means(Value(reply.options, RENEWAL_TIME), t.renewal, env.now, c.wideTime)
    && Means(Value(reply.options, REBINDING_TIME), t.rebind, env.now, c.wideTime)
    && (forall w: Word :: Says(Value(reply.options, LEASE_TIME), w) && Value(reply.options, RENEWAL_TIME) == [] ==>
          t.renewal == Cut(env.now + Cut(w, c.wideTime) / 2, c.wideTime))
  }

  lemma {:induction false} LeaseTimesAsMeant(c: Config, env: Env, reply: Reply)
    requires Value(reply.options, LEASE_TIME) != []
    ensures AsMeant(c, env, reply, LeaseTimes(c, env, reply))
  {
    var lease, renewal := Value(reply.options, LEASE_TIME), Value(reply.options, RENEWAL_TIME);
    var rebind, t := Value(reply.options, REBINDING_TIME), LeaseTimes(c, env, reply);
    AckTimesSaturate(c.wideTime, env.now, GetULong(lease, env),
                     if renewal != [] then Some(GetULong(renewal, env)) else None,
                     if rebind != [] then Some(GetULong(rebind, env)) else None);
    NumberIsMeant(lease, t.expiry, env, c.wideTime);
    NumberIsMeant(renewal, t.renewal, env, c.wideTime);
    NumberIsMeant(rebind, t.rebind, env, c.wideTime);
    forall w: Word | Says(lease, w) ensures GetULong(lease, env) == w {
      ReadsNumber(lease, w, env);
    }
  }

  class Client {
    const config: Config
    var state: State
    var active: ClientLease?
    var leases: seq<ClientLease>
    var offered: seq<ClientLease>
    var destination: seq<byte>
    var xid: Word
    var secs: nat
    var firstSending: int
    var interval: nat
    var medium: seq<string>
    var packet: Packet
    var requestedAddress: Option<Address>
    var timers: map<M.Timer, int>

    /** The lease the current DHCPREQUEST was made from, and everything sent so far. */
    ghost var subject: ClientLease?
    ghost var sent: Log

    /** The fields, as a value. */
    ghost function Now(): M.Snapshot
      reads this
    {
      M.Snapshot(state, active, leases, offered, destination, xid, secs, firstSending, interval, medium, packet,
                 requestedAddress, timers, subject, sent)
    }

    ghost predicate Valid()
      reads this
    {
      M.Valid(config, Now())
    }

    /** The client at start, before state_reboot, with the leases read from the lease file. */
    constructor (config: Config, active: ClientLease?, leases: seq<ClientLease>)
      requires config.backoffCutoff >= 1
      requires Distinct(M.Recorded(active, leases))
      ensures this.config == config && this.active == active && this.leases == leases
      ensures M.Core(config, Now()) && state == Init && offered == [] && timers == map[] && sent == Nothing
    {
      this.config, this.active, this.leases, this.offered := config, active, leases, [];
      state, destination, xid, secs, firstSending, interval, medium := Init, [], 0, 0, 0, 0, [];
      packet := DhcpPackets.Packet(Discover, 0, 0, false, ANY, []);
      requestedAddress, timers, subject, sent := None, map[], null, Nothing;
    }

    // ---- building packets ----

    method MakeDiscover(lease: ClientLease?, random: Word)
      modifies this`packet, this`requestedAddress
      ensures packet == DiscoverPacket(config, lease, random, 0)
      ensures requestedAddress == if lease == null then None else Some(lease.address)
    {
      var options: Options := map[MESSAGE_TYPE := [1], PARAMETER_REQUEST_LIST := config.requested];
      if lease != null {
        requestedAddress := Some(lease.address);
        options := options[REQUESTED_ADDRESS := lease.address];
      } else {
        requestedAddress := None;
      }
      var field := PO.Cons(config.sendOptions + options);
      packet := DhcpPackets.Packet(Discover, random, 0, !config.unicastUnconfigured, ANY, field);
    }

    method MakeRequest(lease: ClientLease)
      modifies this`packet, this`requestedAddress, this`subject
      ensures packet == RequestPacket(config, state, lease, xid, 0) && subject == lease
      ensures requestedAddress == if state.Requesting? || state.Rebooting? then Some(lease.address) else None
    {
      var options: Options := map[MESSAGE_TYPE := [3], PARAMETER_REQUEST_LIST := config.requested];
      if state.Requesting? {
        options := options[SERVER_IDENTIFIER := lease.Server()];
      }
      if state.Requesting? || state.Rebooting? {
        requestedAddress := Some(lease.address);
        options := options[REQUESTED_ADDRESS := lease.address];
      } else {
        requestedAddress := None;
      }
      var field := PO.Cons(config.sendOptions + options);
      if state.Bound? || state.Renewing? || state.Rebinding? {
        packet := DhcpPackets.Packet(Request, xid, 0, false, lease.address, field);
      } else {
        packet := DhcpPackets.Packet(Request, xid, 0, !config.unicastUnconfigured, ANY, field);
      }
      subject := lease;
    }

    method MakeDecline(lease: ClientLease)
      modifies this`packet
      ensures packet == DeclinePacket(config, lease, xid)
    {
      var options: Options :=
        map[MESSAGE_TYPE := [4], SERVER_IDENTIFIER := lease.Server(), REQUESTED_ADDRESS := lease.address];
      if Value(config.sendOptions, CLIENT_IDENTIFIER) != [] {
        options := options[CLIENT_IDENTIFIER := config.sendOptions[CLIENT_IDENTIFIER]];
      }
      var field := PO.Cons(options);
      packet := DhcpPackets.Packet(Decline, xid, 0, false, ANY, field);
    }

    method Send(env: Env, ghost lease: ClientLease?, to: seq<byte>, from: Address)
      modifies this`sent
      ensures sent == After(old(sent), Sending(state, env.now, xid, packet, lease, to, from))
    {
      sent := After(sent, Sending(state, env.now, xid, packet, lease, to, from));
    }

    // ---- discovering ----

    /** Tries the media of the configuration in turn until one works. */
    method SelectMedium(failures: nat) returns (increase: bool)
      requires config.media != []
      modifies this`medium
      ensures medium == M.Chosen(config, old(medium), failures)
      ensures increase == M.Increases(config, old(medium), failures)
    {
      increase := true;
      var n := 0;
      while true
        invariant 0 <= n <= failures
        invariant medium == MediumAfter(config.media, old(medium), n)
        invariant n > 0 ==> medium != []
        invariant n == 0 ==> increase
        decreases failures - n
      {
        if medium != [] {
          medium := medium[1..];
          increase := false;
        }
        if medium == [] {
          medium := config.media;
          increase := true;
        }
        if n == failures { return; }
        n := n + 1;
      }
    }

    /** Sets the interval to the next DHCPDISCOVER. */
    method BackOffDiscover(increase: bool, env: Env)
      requires config.backoffCutoff >= 1 && env.now - firstSending <= config.timeout
      modifies this`interval
      ensures interval == DiscoverInterval(config, increase, old(interval), firstSending, env)
    {
      if increase {
        if interval == 0 {
          interval := config.initialInterval;
        } else {
          interval := interval + Remainder(env.grow, 2 * interval);
        }
        if interval > config.backoffCutoff {
          interval := config.backoffCutoff / 2 + Remainder(env.cut, config.backoffCutoff);
        }
      } else if interval == 0 {
        interval := config.initialInterval;
      }
      if env.now + interval > firstSending + config.timeout {
        interval := firstSending + config.timeout - env.now + 1;
      }
    }

    method SendDiscover(env: Env)
      requires config.backoffCutoff >= 1 && M.Waiting(Now()) && timers == map[]
      requires env.now - firstSending > config.timeout ==> Distinct(M.Recorded(active, leases))
      modifies this
      ensures Now() == M.SentDiscover(config, env, old(Now()))
      decreases if env.now - firstSending <= config.timeout then 0 else 5
    {
      var elapsed := env.now - firstSending;
      if elapsed > config.timeout {
        var _ := StatePanic(env);
      } else {
        TransmitDiscover(env);
      }
    }

    /** The part of send_discover that sends. */
    method TransmitDiscover(env: Env)
      requires config.backoffCutoff >= 1 && M.Waiting(Now()) && timers == map[]
      requires env.now - firstSending <= config.timeout
      modifies this`medium, this`interval, this`secs, this`packet, this`sent, this`timers
      ensures medium == M.Chosen(config, old(medium), env.mediumFailures)
      ensures interval
           == DiscoverInterval(config, M.Increases(config, old(medium), env.mediumFailures), old(interval),
                               firstSending, env)
      ensures secs == Seconds(env.now - firstSending) && packet == old(packet).(secs := secs)
      ensures sent == After(old(sent), Sending(Selecting, env.now, xid, packet, active, BROADCAST, ANY))
      ensures timers == map[M.DiscoverTimer := env.now + interval]
    {
      var elapsed := env.now - firstSending;
      var increase := true;
      if offered == [] && config.media != [] {
        increase := SelectMedium(env.mediumFailures);
      }
      BackOffDiscover(increase, env);
      packet := packet.(secs := if elapsed < 65536 then elapsed % 65536 else 65535);
      secs := packet.secs;
      Send(env, active, BROADCAST, ANY);
      timers := timers[M.DiscoverTimer := env.now + interval];
    }

    method StateInit(env: Env)
      requires config.backoffCutoff >= 1 && offered == [] && timers == map[]
      modifies this
      ensures Now() == M.Restarted(config, env, old(Now()))
      decreases 1, 0
    {
      Begin(env);
      SendDiscover(env);
    }

    /** Prepares the first DHCPDISCOVER of a new transaction. */
    method Begin(env: Env)
      modifies this`packet, this`requestedAddress, this`xid, this`destination, this`state, this`firstSending,
               this`interval
      ensures packet == DiscoverPacket(config, active, env.xid, 0) && xid == env.xid
      ensures requestedAddress == if active == null then None else Some(active.address)
      ensures destination == BROADCAST && state == Selecting
      ensures firstSending == env.now && interval == config.initialInterval
    {
      MakeDiscover(active, env.xid);
      xid := packet.xid;
      destination := BROADCAST;
      state := Selecting;
      firstSending := env.now;
      interval := config.initialInterval;
    }

    // ---- requesting ----

    /** Sets the interval to the next DHCPREQUEST. */
    method BackOffRequest(env: Env)
      requires !state.Requesting? ==> active != null && env.now <= active.expiry
      modifies this`interval
      ensures interval
           == RequestInterval(config, old(interval), if state.Requesting? then None else Some(active.expiry), env)
    {
      if interval == 0 {
        interval := config.initialInterval;
      } else {
        interval := interval + Remainder(env.grow, 2 * interval);
      }
      if interval > config.backoffCutoff {
        interval := config.backoffCutoff / 2 + Remainder(env.cut, interval);
      }
      if !state.Requesting? && env.now + interval > active.expiry {
        interval := active.expiry - env.now + 1;
      }
    }

    /** Where send_request sends to and from. */
    method Direction(env: Env) returns (to: seq<byte>, from: Address)
      requires state.Requesting? || state.Rebooting? || state.Renewing?
      requires !state.Requesting? ==> active != null
      requires state.Renewing? ==> destination == M.Server(active)
      ensures state.Requesting? ==> to == BROADCAST && from == ANY
      ensures !state.Requesting? ==> to == Target(state, env.now, active) && from == active.address
    {
      to, from := BROADCAST, ANY;
      if !(state.Requesting? || state.Rebooting? || env.now > active.rebind) {
        to := destination;
      }
      if !state.Requesting? {
        from := active.address;
      }
    }

    method SendRequest(env: Env)
      requires config.backoffCutoff >= 1 && M.Asks(Now()) && offered == [] && timers == map[]
      modifies this
      ensures Now() == M.Requested(config, env, old(Now()))
      decreases 2
    {
      var elapsed := env.now - firstSending;
      if (state.Rebooting? || state.Requesting?) && elapsed > config.rebootTimeout {
        Cancel(env);
        return;
      }
      if state.Rebooting? && medium == [] && active.medium != [] {
        if !env.mediumSet {
          Cancel(env);
          return;
        }
        medium := active.medium;
      }
      if !state.Requesting? && env.now > active.expiry {
        state := Init;
        StateInit(env);
        return;
      }
      Repeat(env);
    }

    /** The rest of send_request, once it is known that there is something to send. */
    method Repeat(env: Env)
      requires M.Asks(Now()) && timers == map[] && !M.Expired(env, Now())
      modifies this
      ensures Now() == M.Asked(config, env, old(Now()))
    {
      TransmitRequest(env);
    }

    /** The part of send_request that sends. */
    method TransmitRequest(env: Env)
      requires M.Asks(Now()) && timers == map[] && (!state.Requesting? ==> env.now <= subject.expiry)
      modifies this`interval, this`packet, this`sent, this`timers
      ensures interval
           == RequestInterval(config, old(interval), if state.Requesting? then None else Some(subject.expiry), env)
      ensures packet
           == old(packet).(secs := if state.Requesting? then secs else Seconds(env.now - firstSending))
      ensures sent == After(old(sent), Sending(state, env.now, xid, packet, subject, Target(state, env.now, subject),
                                               if state.Requesting? then ANY else subject.address))
      ensures timers == map[M.RequestTimer := env.now + interval]
    {
      var elapsed := env.now - firstSending;
      BackOffRequest(env);
      var to, from := Direction(env);
      if state.Requesting? {
        packet := packet.(secs := secs);
      } else {
        packet := packet.(secs := if elapsed < 65536 then elapsed % 65536 else 65535);
      }
      Send(env, subject, to, from);
      timers := timers[M.RequestTimer := env.now + interval];
    }

    /** Gives the transaction up and starts over. */
    method Cancel(env: Env)
      requires config.backoffCutoff >= 1 && offered == [] && timers == map[]
      modifies this
      ensures Now() == M.Restarted(config, env, old(Now()))
      decreases 1, 1
    {
      state := Init;
      timers := timers - {M.RequestTimer};
      StateInit(env);
    }

    method StateBound(env: Env)
      requires config.backoffCutoff >= 1 && state == Bound && active != null && offered == [] && timers == map[]
      modifies this
      ensures Now() == M.Renewed(config, env, old(Now()))
      decreases 3
    {
      PrepareRenewal(env);
      SendRequest(env);
    }

    /** Prepares the first DHCPREQUEST of a renewal. */
    method PrepareRenewal(env: Env)
      requires state == Bound && active != null
      modifies this`packet, this`requestedAddress, this`subject, this`xid, this`destination, this`firstSending,
               this`interval, this`state
      ensures packet == RequestPacket(config, Bound, active, xid, 0) && subject == active
      ensures requestedAddress == None && destination == M.Server(active) && xid == old(xid)
      ensures firstSending == env.now && interval == config.initialInterval && state == Renewing
    {
      MakeRequest(active);
      xid := packet.xid;
      if |active.Server()| == 4 {
        destination := active.Server();
      } else {
        destination := BROADCAST;
      }
      firstSending := env.now;
      interval := config.initialInterval;
      state := Renewing;
    }

    // ---- panicking ----

    /** Moves the active lease to the end of the list and the head of the list into its place. */
    method Rotate()
      requires leases != []
      modifies this`active, this`leases
      ensures var all := old(leases) + (if old(active) == null then [] else [old(active)]);
              active == all[0] && leases == all[1..]
    {
      var all := leases;
      if active != null {
        all := all + [active];
      }
      active, leases := all[0], all[1..];
    }

    /** Of `order`, lease number `k` is in use, those after it and then those before it are in reserve. */
    ghost predicate Turning(order: seq<ClientLease>, k: nat)
      reads this`active, this`leases
    {
      k < |order| && active == Turned(order, k)[0] && leases == Turned(order, k)[1..]
    }

    /** The next one. */
    method TurnOn(ghost order: seq<ClientLease>, ghost k: nat)
      requires Turning(order, k) && leases != []
      modifies this`active, this`leases
      ensures active == Turned(order, k + 1)[0] && leases == Turned(order, k + 1)[1..]
      ensures k + 1 < |order| ==> active == order[k + 1]
      ensures k + 1 == |order| ==> Turned(order, k + 1) == order
    {
      Rotate();
      TurnedHead(order, k + 1);
    }

    /** Runs the script for the active lease, number `k`, unless it has expired. */
    method TryActive(env: Env, ghost order: seq<ClientLease>, ghost k: nat, before: seq<ClientLease>)
      returns (works: bool, tried: seq<ClientLease>)
      requires k < |order| && active == order[k] && before == Tried(order, env.now, k)
      ensures tried == Tried(order, env.now, k + 1)
      ensures works == Works(order[k], env) && FirstWorking(order, env, k) == if works then k
                                               else FirstWorking(order, env, k + 1)
    {
      works, tried := false, before;
      if active.expiry > env.now {
        tried := tried + [active];
        works := env.usable(active);
      }
    }

    /** The search of state_panic: runs the script for one recorded lease after the other. */
    method TryLeases(env: Env) returns (found: bool, tried: seq<ClientLease>)
      requires Distinct(M.Recorded(active, leases))
      modifies this`active, this`leases
      ensures var order, k := old(M.Recorded(active, leases)), FirstWorking(old(M.Recorded(active, leases)), env, 0);
              && found == (k < |order|)
              && tried == Tried(order, env.now, if found then k + 1 else k)
              && (found ==> active == Turned(order, k)[0] && leases == Turned(order, k)[1..])
              && (!found ==> if |order| <= 1 then active == null && leases == order
                             else active == order[0] && leases == order[1..])
    {
      found, tried := false, [];
      ghost var order := M.Recorded(active, leases);
      if active == null && leases == [] {
        return;
      }
      if active == null {
        Rotate();
      }
      var loop := active;
      ghost var k, first := 0, FirstWorking(order, env, 0);
      while true
        invariant Turning(order, k) && active == order[k] && loop == order[0]
        invariant first == FirstWorking(order, env, k)
        invariant tried == Tried(order, env.now, k)
        decreases |order| - k
      {
        found, tried := TryActive(env, order, k, tried);
        if found {
          return;
        }
        if leases == [] {
          leases := [active];
          active := null;
          return;
        }
        TurnOn(order, k);
        k := k + 1;
        if active == loop {
          HeadReturns(order, k);
          return;
        }
      }
    }

    /** Takes the active lease into use, renewing it if it is time. */
    method Use(env: Env)
      requires config.backoffCutoff >= 1 && active != null && offered == [] && timers == map[]
      modifies this
      ensures Now() == if env.now < old(active).renewal then
                         old(Now()).(state := Bound, timers := map[M.BoundTimer := old(active).renewal])
                       else
                         M.Renewed(config, env, old(Now()).(state := Bound))
      decreases 4, 0
    {
      state := Bound;
      if env.now < active.renewal {
        timers := timers[M.BoundTimer := active.renewal];
      } else {
        StateBound(env);
      }
    }

    /** The same, in terms of the whole state. */
    method FindWorking(env: Env) returns (found: bool, tried: seq<ClientLease>)
      requires Distinct(M.Recorded(active, leases))
      modifies this`active, this`leases
      ensures var order, k := old(M.Recorded(active, leases)), FirstWorking(old(M.Recorded(active, leases)), env, 0);
              && found == (k < |order|)
              && tried == Tried(order, env.now, if found then k + 1 else k)
              && (found ==> Now() == M.TurnedTo(old(Now()), k) && active == order[k])
              && (!found ==> Now() == M.GivenUp(old(Now())))
    {
      ghost var order := M.Recorded(active, leases);
      found, tried := TryLeases(env);
      TurnedHead(order, FirstWorking(order, env, 0));
    }

    /** Nobody offered anything: use a recorded lease if one works, or sleep. Returns the leases tried. */
    method StatePanic(env: Env) returns (tried: seq<ClientLease>)
      requires config.backoffCutoff >= 1 && offered == [] && timers == map[]
      requires Distinct(M.Recorded(active, leases))
      modifies this
      ensures Now() == M.Panicked(config, env, old(Now()))
      ensures var order, k := old(M.Recorded(active, leases)), FirstWorking(old(M.Recorded(active, leases)), env, 0);
              tried == Tried(order, env.now, if k < |order| then k + 1 else k)
      decreases 4
    {
      var found;
      found, tried := FindWorking(env);
      if found {
        Use(env);
      } else {
        state := Init;
        timers := timers[M.InitTimer := env.now + config.retryInterval];
      }
    }

    // ---- binding and selecting ----

    /** Replaces the active lease by `lease`, on the medium it was obtained on, and sets its renewal up. */
    method BindLease(lease: ClientLease)
      modifies this`active, this`timers, this`state
      ensures active != null && fresh(active)
      ensures active.address == lease.address && active.options == lease.options && active.isBootp == lease.isBootp
      ensures active.expiry == lease.expiry && active.renewal == lease.renewal && active.rebind == lease.rebind
      ensures active.medium == medium
      ensures state == Bound && timers == old(timers)[M.BoundTimer := lease.renewal]
    {
      active := new ClientLease(lease.address, lease.expiry, lease.renewal, lease.rebind, lease.isBootp, medium,
                                lease.options);
      timers := timers[M.BoundTimer := active.renewal];
      state := Bound;
    }

    /** make_decline and send_decline, for the offer number `n`. */
    method Refuse(env: Env, n: nat, ghost log: Log)
      requires state == Selecting && n < |offered| && sent == Declined(log, config, offered, env.now, xid, n)
      modifies this`packet, this`sent
      ensures packet == DeclinePacket(config, offered[n], xid)
      ensures sent == Declined(log, config, offered, env.now, xid, n + 1)
    {
      MakeDecline(offered[n]);
      Send(env, offered[n], BROADCAST, ANY);
    }

    /** The search of state_selecting: declines offers until one is for a free address; lets all others go. */
    method Pick(env: Env) returns (picked: ClientLease?)
      requires state == Selecting
      modifies this`packet, this`sent, this`offered
      ensures var k := FirstFree(old(offered), env, 0);
              && picked == (if k == |old(offered)| then null else old(offered)[k])
              && sent == Declined(old(sent), config, old(offered), env.now, xid, k)
              && packet == if k == 0 then old(packet) else DeclinePacket(config, old(offered)[k - 1], xid)
      ensures offered == []
    {
      picked := null;
      var n := 0;
      ghost var all, k, log, was := offered, 0, sent, packet;
      while n < |offered|
        invariant k <= n <= |all| && offered == all
        invariant FirstFree(all, env, 0) == FirstFree(all, env, k)
        invariant if picked == null then k == n else k < |all| && picked == all[k] && env.free(all[k])
        invariant sent == Declined(log, config, all, env.now, xid, k)
        invariant packet == if k == 0 then was else DeclinePacket(config, all[k - 1], xid)
      {
        if picked == null {
          if env.free(offered[n]) {
            picked := offered[n];
          } else {
            Refuse(env, n, log);
            k := k + 1;
          }
        }
        n := n + 1;
      }
      offered := [];
    }

    /** Ends the selection: no timeout is pending and no offer is held any more. */
    method Choose(env: Env) returns (picked: ClientLease?)
      requires state == Selecting && timers.Keys <= {M.SelectingTimer, M.DiscoverTimer}
      modifies this`packet, this`sent, this`offered, this`timers
      ensures var k := FirstFree(old(offered), env, 0);
              && picked == (if k == |old(offered)| then null else old(offered)[k])
              && Now() == M.PassedOver(config, env, old(Now()), k)
    {
      picked := Pick(env);
      timers := timers - {M.SelectingTimer};
      timers := timers - {M.DiscoverTimer};
      assert timers == map[];
    }

    /** Takes the address of a BOOTREPLY right away, with made-up times. */
    method TakeBootp(env: Env, picked: ClientLease)
      requires timers == map[]
      modifies this`active, this`timers, this`state
      ensures active != null && fresh(active) && Now() == M.BoundTo(old(Now()), active)
      ensures active.address == picked.address && active.options == picked.options && active.medium == medium
      ensures active.expiry == env.now + 12000 && active.renewal == env.now + 8000 && active.rebind == env.now + 10000
      ensures active.isBootp == picked.isBootp
    {
      var lease := new ClientLease(picked.address, env.now + 12000, env.now + 8000, env.now + 10000,
                                   picked.isBootp, picked.medium, picked.options);
      state := Requesting;
      BindLease(lease);
    }

    /** Asks for the offer picked. */
    method Ask(env: Env, picked: ClientLease)
      requires config.backoffCutoff >= 1 && offered == [] && timers == map[]
      modifies this
      ensures Now() == M.Requested(config, env, M.Picked(config, env, old(Now()), picked))
    {
      PrepareRequest(env, picked);
      SendRequest(env);
    }

    /**
      * state_selecting has run on `v`. An offer made by BOOTP is taken right away, with made-up times; what happens
      * otherwise is a move of DhcpMachine.
      */
    ghost predicate SelectedFrom(env: Env, v: M.Snapshot)
      reads this
    {
      var k := FirstFree(v.offered, env, 0);
      if k < |v.offered| && M.IsBootp(v.offered[k]) then
        && active != null && Now() == M.BoundTo(M.PassedOver(config, env, v, k), active)
        && active.address == v.offered[k].address && active.options == v.offered[k].options
        && active.expiry == env.now + 12000 && active.renewal == env.now + 8000 && active.rebind == env.now + 10000
        && active.medium == v.medium && active.isBootp == v.offered[k].isBootp
      else
        config.backoffCutoff >= 1 && Now() == M.Selected(config, env, v)
    }

    method StateSelecting(env: Env)
      requires config.backoffCutoff >= 1 && state == Selecting
      requires timers.Keys <= {M.SelectingTimer, M.DiscoverTimer}
      modifies this
      ensures SelectedFrom(env, old(Now()))
      ensures active == old(active) || fresh(active)
    {
      var picked := Choose(env);
      if picked == null {
        state := Init;
        StateInit(env);
      } else if Value(picked.options, MESSAGE_TYPE) == [] {
        TakeBootp(env, picked);
      } else {
        Ask(env, picked);
      }
    }

    /** state_selecting leads to a well-formed state. */
    lemma {:induction false} SelectingIsValid(env: Env, v: M.Snapshot)
      requires M.Core(config, v) && v.state.Selecting? && SelectedFrom(env, v)
      requires LastDiscover(v.sent).Some?
      requires LastDiscover(v.sent).value.xid == v.xid && LastDiscover(v.sent).value.secs == v.secs
      requires active == v.active || active !in v.leases
      ensures Valid()
    {
      var k := FirstFree(v.offered, env, 0);
      if k < |v.offered| && M.IsBootp(v.offered[k]) {
        M.PassedOverIsCore(config, env, v, k);
        if active !in v.leases {
          M.BoundToIsValid(config, M.PassedOver(config, env, v, k), active);
        }
      } else {
        M.SelectedIsValid(config, env, v);
      }
    }

    /**
      * After state_selecting, whichever offers are free: those before the first free one, number `k`, have been
      * declined, one by one, and no others. That one is bound if it was made by BOOTP, and asked for otherwise; only if
      * there is none does the client start over.
      */
    lemma {:induction false} SelectsFirstFree(env: Env, v: M.Snapshot, k: nat)
      requires SelectedFrom(env, v) && config.backoffCutoff >= 1 && B.FirstOfFree(v.offered, env, k)
      ensures offered == []
      ensures if k == |v.offered| then B.DeclinesAndSends(Now(), v, k) && B.StartsOver(Now(), env)
              else if Value(v.offered[k].options, MESSAGE_TYPE) == [] then
                && state == Bound && active != null && active.address == v.offered[k].address
                && active.expiry == env.now + 12000 && active.rebind == env.now + 10000
                && active.renewal == env.now + 8000 && timers == map[M.BoundTimer := env.now + 8000]
                && Length(sent) == Length(v.sent) + k && Declines(sent, v.sent, v.offered, k)
              else
                B.DeclinesAndSends(Now(), v, k) && B.Requests(Now(), env, Requesting, v.offered[k])
    {
      B.OnlyOneFirst(v.offered, env, k);
      B.SelectionAsksForFirstFree(config, env, v, k);
      B.PassedOverDeclines(config, env, v, k);
    }

    /** state_selecting, from a well-formed state whose timeout may be gone. */
    method Settle(env: Env)
      requires M.Core(config, Now()) && state == Selecting && timers.Keys <= {M.SelectingTimer, M.DiscoverTimer}
      requires LastDiscover(sent).Some? && LastDiscover(sent).value.xid == xid && LastDiscover(sent).value.secs == secs
      modifies this
      ensures Valid() && SelectedFrom(env, old(Now()))
    {
      StateSelecting(env);
      SelectingIsValid(env, old(Now()));
    }

    /** Prepares the first DHCPREQUEST for the offer picked. */
    method PrepareRequest(env: Env, lease: ClientLease)
      modifies this`packet, this`requestedAddress, this`subject, this`xid, this`destination, this`firstSending,
               this`interval, this`state
      ensures packet == RequestPacket(config, Requesting, lease, xid, 0) && subject == lease
      ensures requestedAddress == Some(lease.address) && destination == BROADCAST && xid == old(xid)
      ensures firstSending == env.now && interval == config.initialInterval && state == Requesting
    {
      destination := BROADCAST;
      state := Requesting;
      firstSending := env.now;
      interval := config.initialInterval;
      MakeRequest(lease);
      xid := packet.xid;
    }

    // ---- packets ----

    /** dhcpack has run on `v`: the client is bound to the address given, for the time given. */
    ghost predicate Acked(env: Env, reply: Reply, v: M.Snapshot)
      reads this
    {
      if Hears(config, v, reply) then
        && Value(reply.options, LEASE_TIME) != []
        && active != null && Now() == M.BoundTo(v, active)
        && active.address == reply.yiaddr && active.options == reply.options && active.medium == v.medium
        && Times(active.expiry, active.renewal, active.rebind) == LeaseTimes(config, env, reply)
        && AsMeant(config, env, reply, Times(active.expiry, active.renewal, active.rebind))
      else
        Now() == v
    }

    /** dhcpnak has run on `v`: the active lease is gone and discovering starts over. */
    ghost predicate Refused(env: Env, reply: Reply, v: M.Snapshot)
      reads this
    {
      && config.backoffCutoff >= 1
      && Now() == if Hears(config, v, reply) && v.active != null then M.Restarted(config, env, M.Lost(v)) else v
    }

    /** dhcpoffer has run on `v`: the offer is held as `lease`, and the end of the selection is set or has come. */
    ghost predicate Offered(env: Env, reply: Reply, v: M.Snapshot, lease: ClientLease?)
      reads this
    {
      if Accepts(config, v, reply) then
        && lease != null
        && lease.address == reply.yiaddr && lease.options == reply.options && lease.medium == v.medium
        && lease.isBootp == M.IsBootp(lease)
        && var stop, w := M.StopSelecting(config, env, v, lease), M.Recording(v, lease);
           if stop <= 0 then SelectedFrom(env, w) else Now() == w.(timers := map[M.SelectingTimer := stop])
      else
        Now() == v
    }

    /**
      * A DHCPACK for this transaction and interface binds the client to the address in it exactly while a request is
      * being repeated; until the time in it has passed the client sends nothing more.
      */
    lemma {:induction false} AcknowledgementBinds(env: Env, reply: Reply, v: M.Snapshot)
      requires M.Valid(config, v) && Acked(env, reply, v)
      ensures if M.RequestTimer in v.timers && reply.xid == v.xid && reply.hardware == config.hardware then
                && state == Bound && active != null && active.address == reply.yiaddr
                && AsMeant(config, env, reply, Times(active.expiry, active.renewal, active.rebind))
                && timers == map[M.BoundTimer := active.renewal] && sent == v.sent && leases == v.leases
              else
                Now() == v
    {
    }

    /** A DHCPNAK so heard takes the active lease away, if there is one, and discovering starts over at once. */
    lemma {:induction false} RefusalStartsOver(env: Env, reply: Reply, v: M.Snapshot)
      requires M.Valid(config, v) && Refused(env, reply, v)
      ensures if M.RequestTimer in v.timers && reply.xid == v.xid && reply.hardware == config.hardware
                 && v.active != null then
                active == null && leases == v.leases && B.StartsOver(Now(), env) && sent.before == v.sent
              else
                Now() == v
    {
      if M.RequestTimer in v.timers {
        B.RestartedStartsOver(config, env, M.Lost(v));
      }
    }

    /**
      * An offer is held exactly while selecting, for this transaction and interface, when it has every option required
      * and no offer held is for its address. Then it is among those selected from, now or later.
      */
    lemma {:induction false} OfferIsHeld(env: Env, reply: Reply, v: M.Snapshot, lease: ClientLease?)
      requires M.Valid(config, v) && Offered(env, reply, v, lease)
      ensures if v.state == Selecting && reply.xid == v.xid && reply.hardware == config.hardware
                 && (forall r :: r in config.required ==> Value(reply.options, r) != [])
                 && (forall i :: 0 <= i < |v.offered| ==> v.offered[i].address != reply.yiaddr) then
                && lease != null && lease.address == reply.yiaddr && lease.options == reply.options
                && (SelectedFrom(env, M.Recording(v, lease))
                    || (&& multiset(offered) == multiset(v.offered) + multiset{lease}
                        && timers.Keys == {M.SelectingTimer} && sent == v.sent))
              else
                Now() == v
    {
      SeenIs(v.offered, reply.yiaddr, |v.offered|);
    }

    method DhcpAck(env: Env, reply: Reply) returns (crashed: bool)
      requires Valid()
      modifies this
      ensures crashed <==> Hears(config, old(Now()), reply) && Value(reply.options, LEASE_TIME) == []
      ensures crashed ==> Now() == old(Now()).(timers := map[])
      ensures !crashed ==> Valid() && Acked(env, reply, old(Now()))
    {
      if xid != reply.xid || config.hardware != reply.hardware {
        return false;
      }
      if state != Rebooting && state != Requesting && state != Renewing && state != Rebinding {
        return false;
      }
      timers := timers - {M.RequestTimer};
      assert timers == map[];
      if Value(reply.options, LEASE_TIME) == [] {
        return true;
      }
      LeaseTimesAsMeant(config, env, reply);
      Bind(env, reply);
      M.BoundToIsValid(config, old(Now()), active);
      return false;
    }

    /** Binds the lease that a DHCPACK gives. */
    method Bind(env: Env, reply: Reply)
      requires timers == map[] && Value(reply.options, LEASE_TIME) != []
      modifies this`active, this`timers, this`state
      ensures active != null && fresh(active) && Now() == M.BoundTo(old(Now()), active)
      ensures active.address == reply.yiaddr && active.options == reply.options && active.medium == medium
      ensures Times(active.expiry, active.renewal, active.rebind) == LeaseTimes(config, env, reply)
    {
      var times := LeaseTimes(config, env, reply);
      var lease := new ClientLease(reply.yiaddr, times.expiry, times.renewal, times.rebind, false, [], reply.options);
      BindLease(lease);
    }

    method DhcpNak(env: Env, reply: Reply)
      requires Valid()
      modifies this
      ensures Valid()
      ensures Refused(env, reply, old(Now()))
    {
      if xid != reply.xid || config.hardware != reply.hardware {
        return;
      }
      if state != Rebooting && state != Requesting && state != Renewing && state != Rebinding {
        return;
      }
      if active == null {
        return;
      }
      M.LostIsCore(config, Now());
      M.RestartedIsValid(config, env, M.Lost(Now()));
      Lose(env);
    }

    /** Drops the active lease and starts over. */
    method Lose(env: Env)
      requires config.backoffCutoff >= 1 && offered == [] && timers.Keys <= {M.RequestTimer}
      modifies this
      ensures Now() == M.Restarted(config, env, M.Lost(old(Now())))
    {
      active := null;
      timers := timers - {M.RequestTimer};
      assert timers == map[];
      state := Init;
      StateInit(env);
    }

    /** The reply carries every option the configuration requires. */
    method CheckRequired(reply: Reply) returns (ok: bool)
      ensures ok <==> Satisfies(config, reply)
    {
      var i := 0;
      while i < |config.required|
        invariant 0 <= i <= |config.required|
        invariant forall j :: 0 <= j < i ==> Value(reply.options, config.required[j]) != []
      {
        if Value(reply.options, config.required[i]) == [] {
          return false;
        }
        i := i + 1;
      }
      return true;
    }

    /** The address has been offered before. */
    method AlreadySeen(address: Address) returns (seen: bool)
      ensures seen == Seen(offered, address, |offered|)
    {
      var i := 0;
      while i < |offered|
        invariant 0 <= i <= |offered| && !Seen(offered, address, i)
      {
        if offered[i].address == address {
          SeenIs(offered, address, |offered|);
          return true;
        }
        i := i + 1;
      }
      return false;
    }

    /** Puts an offer in the list; returns when the selection is to end. */
    method Record(env: Env, lease: ClientLease) returns (stop: int)
      modifies this`offered
      ensures offered == M.Recording(old(Now()), lease).offered
      ensures stop == M.StopSelecting(config, env, old(Now()), lease)
    {
      var wait := if env.arpSent then 2 else 0;
      stop := firstSending + config.selectInterval;
      if requestedAddress == Some(lease.address) {
        offered := [lease] + offered;
      } else {
        if offered != [] && env.now + wait > stop {
          wait := 0;
        }
        offered := offered + [lease];
      }
      if stop - env.now < wait {
        stop := env.now + wait;
      }
    }

    /** Records an offer, and ends the selection or sets its end. */
    method Take(env: Env, lease: ClientLease)
      requires Valid() && state == Selecting && !Seen(offered, lease.address, |offered|)
      modifies this
      ensures Valid()
      ensures var stop, w := M.StopSelecting(config, env, old(Now()), lease), M.Recording(old(Now()), lease);
              if stop <= 0 then SelectedFrom(env, w) else Now() == w.(timers := map[M.SelectingTimer := stop])
    {
      var stop := Record(env, lease);
      M.RecordingIsValid(config, old(Now()), lease, stop);
      if stop <= 0 {
        Settle(env);
      } else {
        Await(stop);
      }
    }

    /** Sets the end of the selection. */
    method Await(stop: int)
      requires timers.Keys <= {M.SelectingTimer, M.DiscoverTimer}
      modifies this`timers
      ensures timers == map[M.SelectingTimer := stop]
    {
      timers := timers[M.SelectingTimer := stop];
      timers := timers - {M.DiscoverTimer};
      assert timers == map[M.SelectingTimer := stop];
    }

    /** Records an acceptable offer. */
    method DhcpOffer(env: Env, reply: Reply) returns (ghost lease: ClientLease?)
      requires Valid()
      modifies this
      ensures Valid()
      ensures Offered(env, reply, old(Now()), lease)
      ensures lease != null ==> fresh(lease)
    {
      lease := null;
      if state != Selecting || xid != reply.xid || config.hardware != reply.hardware {
        return;
      }
      var satisfies := CheckRequired(reply);
      if !satisfies {
        return;
      }
      var seen := AlreadySeen(reply.yiaddr);
      if seen {
        return;
      }
      var offer := new ClientLease(reply.yiaddr, 0, 0, 0, Value(reply.options, MESSAGE_TYPE) == [], medium,
                                   reply.options);
      lease := offer;
      Take(env, offer);
    }

    /**
      * do_packet, dhcp and bootp: a reply goes to the handler for its type, unless its sender is on the reject list.
      * The one kind of reply that a client does not survive is a DHCPACK without a lease time.
      */
    method Receive(env: Env, reply: Reply) returns (crashed: bool, ghost lease: ClientLease?)
      requires Valid()
      modifies this
      ensures crashed <==> Crashes(config, old(Now()), reply)
      ensures crashed ==> Now() == old(Now()).(timers := map[])
      ensures !crashed ==> Valid()
      ensures !crashed ==>
        var t := Value(reply.options, MESSAGE_TYPE);
        if reply.sender in config.rejected then Now() == old(Now())
        else if !reply.valid || t == [] || t[0] == 0 then
          if reply.op == BOOTREPLY then Offered(env, reply, old(Now()), lease) else Now() == old(Now())
        else if t[0] == DHCPOFFER then Offered(env, reply, old(Now()), lease)
        else if t[0] == DHCPACK then Acked(env, reply, old(Now()))
        else if t[0] == DHCPNAK then Refused(env, reply, old(Now()))
        else Now() == old(Now())
    {
      crashed, lease := false, null;
      var kind := reply.Type();
      if kind == 0 && reply.op != BOOTREPLY {
        return;
      }
      if kind != 0 && kind != DHCPOFFER && kind != DHCPACK && kind != DHCPNAK {
        return;
      }
      if reply.sender in config.rejected {
        return;
      }
      if kind == 0 || kind == DHCPOFFER {
        lease := DhcpOffer(env, reply);
      } else if kind == DHCPACK {
        crashed := DhcpAck(env, reply);
      } else {
        DhcpNak(env, reply);
      }
    }

    // ---- events ----

    /** What the pending timeout does when it is due; state_selecting is described by SelectedFrom. */
    ghost predicate Fired(env: Env, v: M.Snapshot)
      reads this
      requires M.Valid(config, v)
    {
      var w := v.(timers := map[]);
      match M.Pending(v)
      case InitTimer => Now() == M.Restarted(config, env, w)
      case SelectingTimer => SelectedFrom(env, w)
      case DiscoverTimer => Now() == M.SentDiscover(config, env, w)
      case RequestTimer => Now() == M.Requested(config, env, w)
      case BoundTimer => v.active != null && Now() == M.Renewed(config, env, w)
    }

    /** The expiry part of dispatch: the pending handler runs once it is due, with its timeout gone. */
    method Expire(env: Env)
      requires Valid()
      modifies this
      ensures Valid()
      ensures if old(timers[M.Pending(Now())]) <= env.now then Fired(env, old(Now())) else Now() == old(Now())
    {
      if M.DiscoverTimer in timers {
        if timers[M.DiscoverTimer] <= env.now {
          M.SentDiscoverIsValid(config, env, Now(), map[]);
          timers := map[];
          SendDiscover(env);
        }
      } else if M.SelectingTimer in timers {
        if timers[M.SelectingTimer] <= env.now {
          timers := map[];
          Settle(env);
        }
      } else if M.RequestTimer in timers {
        if timers[M.RequestTimer] <= env.now {
          timers := map[];
          M.RequestedIsValid(config, env, Now());
          SendRequest(env);
        }
      } else if M.BoundTimer in timers {
        if timers[M.BoundTimer] <= env.now {
          timers := map[];
          M.RenewedIsValid(config, env, Now());
          StateBound(env);
        }
      } else if timers[M.InitTimer] <= env.now {
        timers := map[];
        M.RestartedIsValid(config, env, Now());
        StateInit(env);
      }
    }

    /** state_reboot: how the client starts. */
    method StateReboot(env: Env)
      requires M.Core(config, Now()) && offered == [] && timers == map[]
      modifies this
      ensures Valid() && Now() == M.Rebooted(config, env, old(Now()))
    {
      M.RebootedIsValid(config, env, Now());
      if active == null || active.isBootp {
        StateInit(env);
        return;
      }
      PrepareReboot(env);
      SendRequest(env);
    }

    /** Prepares the first DHCPREQUEST for the lease remembered. */
    method PrepareReboot(env: Env)
      requires active != null
      modifies this`packet, this`requestedAddress, this`subject, this`xid, this`destination, this`firstSending,
               this`interval, this`state, this`medium
      ensures packet == RequestPacket(config, Rebooting, active, xid, 0) && subject == active
      ensures requestedAddress == Some(active.address) && destination == BROADCAST && xid == env.rebootXid
      ensures firstSending == env.now && interval == config.initialInterval && state == Rebooting && medium == []
    {
      state := Rebooting;
      xid := env.rebootXid;
      MakeRequest(active);
      destination := BROADCAST;
      firstSending := env.now;
      interval := config.initialInterval;
      medium := [];
    }

    /**
      * Any events, in any order, at any times. Returns how many the client has survived: all of them, unless one is a
      * DHCPACK without a lease time.
      */
    method Run(events: seq<(Event, Env)>) returns (survived: nat)
      requires Valid()
      modifies this
      ensures survived <= |events| && M.Core(config, Now())
      ensures survived == |events| ==> Valid()
      ensures survived < |events| ==> events[survived].0.Packet? && LacksLeaseTime(events[survived].0.reply)
    {
      survived := 0;
      while survived < |events|
        invariant survived <= |events| && Valid()
      {
        match events[survived].0 {
          case Timeout =>
            Expire(events[survived].1);
          case Packet(reply) =>
            var crashed, _ := Receive(events[survived].1, reply);
            if crashed {
              return;
            }
        }
        survived := survived + 1;
      }
    }
  }

  predicate LacksLeaseTime(reply: Reply) { reply.Type() == DHCPACK && Value(reply.options, LEASE_TIME) == [] }

  /**
    * A whole life of the client: started on any leases read from the lease file and driven by any events, it either
    * ends in a well-formed state or falls to a DHCPACK without a lease time. Every DHCPREQUEST it has sent carries its
    * transaction number and meets Table 4 exactly when it can.
    */
  method Live(config: Config, active: ClientLease?, leases: seq<ClientLease>, start: Env, events: seq<(Event, Env)>)
    returns (client: Client, survived: nat)
    requires config.backoffCutoff >= 1
    requires Distinct(M.Recorded(active, leases))
    ensures client.config == config && survived <= |events|
    ensures survived < |events| ==> events[survived].0.Packet? && LacksLeaseTime(events[survived].0.reply)
    ensures survived == |events| ==>
              && client.Valid()
              && client.timers.Keys == {M.Pending(client.Now())} && client.state != Rebinding
              && (client.state == Rebooting || client.state == Bound || client.state == Renewing ==>
                    client.active != null)
    ensures forall i :: 0 <= i < Length(client.sent) && Nth(client.sent, i).packet.kind.Request? ==>
              GoodRequest(config, Nth(client.sent, i))
  {
    client := new Client(config, active, leases);
    client.StateReboot(start);
    survived := client.Run(events);
    forall i | 0 <= i < Length(client.sent) && Nth(client.sent, i).packet.kind.Request?
      ensures GoodRequest(config, Nth(client.sent, i))
    {
      RunMeetsTableFour(config, client.sent, i);
    }
  }
}
