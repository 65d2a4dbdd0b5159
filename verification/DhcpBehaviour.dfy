/**
  * What the moves of the DHCP client come to, without the decisions they are made of: which packet goes out, when a
  * request is given up, and how long the client waits.
  */
module DhcpBehaviour {
  import opened Bytes
  import opened DhcpPackets
  import opened DhcpTimes
  import opened DhcpLeases
  import opened DhcpMachine

  /** The first `k` offers are for addresses that others answer for, and offer number `k`, if there is one, is not. */
  ghost predicate FirstOfFree(offers: seq<ClientLease>, env: Env, k: nat) {
    && k <= |offers| && (k < |offers| ==> env.free(offers[k]))
    && forall i :: 0 <= i < k ==> !env.free(offers[i])
  }

  /** The client waits in `state`; the last packet it has sent is a DHCPREQUEST for `lease`, sent now, the next is due
      after the interval. */
  ghost predicate Requests(w: Snapshot, env: Env, state: State, lease: ClientLease) {
    && w.state == state && w.subject == lease && w.timers == map[RequestTimer := env.now + w.interval]
    && w.sent.After? && w.sent.last.packet.kind.Request? && w.sent.last.lease == lease
    && w.sent.last.state == state && w.sent.last.now == env.now
  }

  /** The client is discovering, and the last packet it has sent is a DHCPDISCOVER of a new transaction, sent now. */
  ghost predicate StartsOver(w: Snapshot, env: Env) {
    && w.state == Selecting && w.offered == [] && w.timers == map[DiscoverTimer := env.now + w.interval]
    && w.sent.After? && w.sent.last.packet.kind.Discover? && w.sent.last.now == env.now
    && w.xid == env.xid == w.sent.last.packet.xid && w.firstSending == env.now && w.sent.last.packet.secs == 0
  }

  lemma {:induction false} RestartedStartsOver(c: Config, env: Env, v: Snapshot)
    requires c.backoffCutoff >= 1 && v.offered == []
    ensures StartsOver(Restarted(c, env, v), env) && Restarted(c, env, v).sent.before == v.sent
  {
  }

  lemma {:induction false} AskedRequests(c: Config, env: Env, v: Snapshot)
    requires v.subject != null && v.packet.kind.Request? && (!v.state.Requesting? ==> env.now <= v.subject.expiry)
    ensures var w := Asked(c, env, v);
            && Requests(w, env, v.state, v.subject) && w.sent.before == v.sent && w.offered == v.offered
            && w.firstSending == v.firstSending && w.active == v.active && w.xid == v.xid
  {
  }

  /**
    * Packets say how many seconds ago the first of their kind was sent, as far as 16 bits can; those for an offer say
    * what the last DHCPDISCOVER did.
    */
  lemma {:induction false} SecondsAreSent(c: Config, env: Env, v: Snapshot)
    requires c.backoffCutoff >= 1 && v.firstSending <= env.now
    ensures env.now <= v.firstSending + c.timeout ==>
              Discovered(c, env, v).sent.last.packet.secs == Min(env.now - v.firstSending, 0xffff)
    ensures v.subject != null && (!v.state.Requesting? ==> env.now <= v.subject.expiry) ==>
              Asked(c, env, v).sent.last.packet.secs
              == if v.state.Requesting? then v.secs else Min(env.now - v.firstSending, 0xffff)
  {
    SecondsAreCutOff(env.now - v.firstSending);
  }

  // ---- selecting ----

  /** One packet behind the DHCPDECLINEs for the offers before number `k`. */
  ghost predicate DeclinesAndSends(w: Snapshot, v: Snapshot, k: nat) {
    w.sent.After? && Length(w.sent) == Length(v.sent) + k + 1 && Declines(w.sent, v.sent, v.offered, k)
  }

  lemma {:induction false} OnlyOneFirst(offers: seq<ClientLease>, env: Env, k: nat)
    requires FirstOfFree(offers, env, k)
    ensures FirstFree(offers, env, 0) == k
  {
    FirstFreeIs(offers, env, 0);
  }

  lemma {:induction false} PassedOverDeclines(c: Config, env: Env, v: Snapshot, k: nat)
    requires k <= |v.offered|
    ensures Declines(PassedOver(c, env, v, k).sent, v.sent, v.offered, k)
    ensures Length(PassedOver(c, env, v, k).sent) == Length(v.sent) + k
  {
    DeclinedDeclines(v.sent, c, v.offered, env.now, v.xid, k);
  }

  lemma {:induction false} PickedIsAskedFor(c: Config, env: Env, u: Snapshot, lease: ClientLease)
    requires c.backoffCutoff >= 1 && u.offered == []
    ensures var w := Requested(c, env, Picked(c, env, u, lease));
            && Requests(w, env, Requesting, lease) && w.sent.before == u.sent && w.offered == []
            && w.firstSending == env.now
  {
    AskedRequests(c, env, Picked(c, env, u, lease));
  }

  /**
    * After state_selecting: the offers before the first free one are declined, one by one, and no others. The first
    * free one is asked for; only if there is none does the client start over.
    */
  lemma {:induction false} SelectionAsksForFirstFree(c: Config, env: Env, v: Snapshot, k: nat)
    requires c.backoffCutoff >= 1 && FirstOfFree(v.offered, env, k)
    ensures var w := Selected(c, env, v);
            && w.offered == [] && DeclinesAndSends(w, v, k)
            && (if k == |v.offered| then StartsOver(w, env)
                else Requests(w, env, Requesting, v.offered[k]) && w.firstSending == env.now)
  {
    OnlyOneFirst(v.offered, env, k);
    PassedOverDeclines(c, env, v, k);
    var u, w := PassedOver(c, env, v, k), Selected(c, env, v);
    if k == |v.offered| {
      RestartedStartsOver(c, env, u.(state := Init));
    } else {
      PickedIsAskedFor(c, env, u, v.offered[k]);
    }
    OneMoreStays(u.sent, v.sent, v.offered, k, w.sent);
  }

  /** A free offer for the address the client would like to keep is the one it asks for, whatever else was offered. */
  lemma {:induction false} WantedAddressIsAskedFor(c: Config, env: Env, v: Snapshot, lease: ClientLease)
    requires c.backoffCutoff >= 1 && v.requestedAddress == Some(lease.address) && env.free(lease)
    ensures Requests(Selected(c, env, Recording(v, lease)), env, Requesting, lease)
    ensures multiset(Recording(v, lease).offered) == multiset(v.offered) + multiset{lease}
  {
    SelectionAsksForFirstFree(c, env, Recording(v, lease), 0);
  }

  /** Any other offer is put behind those there are, so that it does not displace them. */
  lemma {:induction false} OtherOffersWait(c: Config, env: Env, v: Snapshot, lease: ClientLease, k: nat)
    requires c.backoffCutoff >= 1 && v.requestedAddress != Some(lease.address)
    requires k < |v.offered| && FirstOfFree(v.offered, env, k)
    ensures Requests(Selected(c, env, Recording(v, lease)), env, Requesting, v.offered[k])
  {
    SelectionAsksForFirstFree(c, env, Recording(v, lease), k);
  }

  // ---- renewing ----

  /** state_bound asks for the lease in use, in the same transaction. */
  lemma {:induction false} RenewalAsksForLease(c: Config, env: Env, v: Snapshot)
    requires c.backoffCutoff >= 1 && v.active != null && env.now <= v.active.expiry
    ensures var w := Renewed(c, env, v);
            && Requests(w, env, Renewing, v.active) && w.sent.before == v.sent && w.active == v.active
            && w.firstSending == env.now && w.xid == v.xid
  {
    AskedRequests(c, env, Due(c, env, v));
  }

  // ---- panicking ----

  /** The recorded leases up to number `k` have expired or do not work, and number `k`, if there is one, does. */
  ghost predicate FirstOfUsable(order: seq<ClientLease>, env: Env, k: nat) {
    && k <= |order|
    && (k < |order| ==> order[k].expiry > env.now && env.usable(order[k]))
    && forall i :: 0 <= i < k ==> order[i].expiry <= env.now || !env.usable(order[i])
  }

  /**
    * state_panic turns the recorded leases so that the one it uses comes first. Without one they are in order, and the
    * first is active unless it is alone.
    */
  lemma {:induction false} PanicTurnsLeases(c: Config, env: Env, v: Snapshot, k: nat)
    requires Core(c, v) && FirstOfUsable(Recorded(v.active, v.leases), env, k)
    ensures var w, order := Panicked(c, env, v), Recorded(v.active, v.leases);
            && Recorded(w.active, w.leases) == order[k..] + order[..k]
            && (w.active == null <==> k == |order| <= 1)
  {
    var order := Recorded(v.active, v.leases);
    if k < |order| {
      FirstWorkingFound(order, env, k, 0);
      TurnedToIsCore(c, v, k);
      TurnedIs(order, k);
      RenewedKeepsLeases(c, env, TurnedTo(v, k).(state := Bound));
    } else {
      FirstWorkingIs(order, env, 0);
      GivenUpIsCore(c, v);
    }
  }

  /**
    * After state_panic the client uses the first recorded lease that has not expired and works, renewing it if it is
    * time; only if there is none does it sleep, for the retry interval.
    */
  lemma {:induction false} PanicUsesFirstUsable(c: Config, env: Env, v: Snapshot, k: nat)
    requires Core(c, v) && FirstOfUsable(Recorded(v.active, v.leases), env, k)
    ensures var w, order := Panicked(c, env, v), Recorded(v.active, v.leases);
            if k == |order| then
              w.state == Init && w.timers == map[InitTimer := env.now + c.retryInterval] && w.sent == v.sent
            else
              && w.active == order[k]
              && (if env.now < order[k].renewal
                  then w.state == Bound && w.timers == map[BoundTimer := order[k].renewal] && w.sent == v.sent
                  else Requests(w, env, Renewing, order[k]))
  {
    var order := Recorded(v.active, v.leases);
    if k < |order| {
      FirstWorkingFound(order, env, k, 0);
      TurnedToIsCore(c, v, k);
      RenewalAsksForLease(c, env, TurnedTo(v, k).(state := Bound));
    } else {
      FirstWorkingIs(order, env, 0);
    }
  }

  // ---- how long a request is repeated ----

  /** The first wait of each kind, where nothing cuts it off: between one and three times the configured interval. */
  lemma {:induction false} FirstWaits(c: Config, env: Env, v: Snapshot, lease: ClientLease)
    requires c.initialInterval >= 1 && 3 * c.initialInterval - 1 <= c.backoffCutoff
    requires 3 * c.initialInterval <= c.timeout
    ensures c.initialInterval <= Restarted(c, env, v).interval <= 3 * c.initialInterval - 1
    ensures c.initialInterval <= Requested(c, env, Picked(c, env, v, lease)).interval <= 3 * c.initialInterval - 1
  {
    DiscoverBackoffBounds(c, c.initialInterval, env.grow, env.cut);
    RequestBackoffBounds(c, c.initialInterval, env.grow, env.cut);
  }

  /** The next DHCPREQUEST is due later than this one, and in the second after the expiry of the lease at the latest. */
  lemma {:induction false} NextRequestIsLater(c: Config, env: Env, v: Snapshot)
    requires c.initialInterval >= 1 && c.backoffCutoff >= 2
    requires v.subject != null && (!v.state.Requesting? ==> env.now <= v.subject.expiry)
    ensures var w := Asked(c, env, v);
            && env.now < w.timers[RequestTimer] == env.now + w.interval
            && (!v.state.Requesting? ==> w.timers[RequestTimer] <= v.subject.expiry + 1)
  {
    RequestIntervalBounds(c, v.interval, if v.state.Requesting? then env.now else v.subject.expiry, env);
  }

  /** A request that nobody answers, at the next timeout. */
  ghost predicate Unheard(c: Config, v: Snapshot) {
    CanAsk(c, v) && (v.state.Requesting? || v.state.Rebooting?)
  }

  /** The medium of a lease that is asked for again can be had, and the lease has not expired. */
  predicate CanReboot(env: Env, v: Snapshot) {
    v.state.Rebooting? ==>
      && (v.medium == [] && v.active != null && v.active.medium != [] ==> env.mediumSet)
      && (v.active != null ==> env.now <= v.active.expiry)
  }

  /** It is repeated up to the reboot timeout, counted from when it was first sent, and given up at once after it. */
  lemma {:induction false} RequestIsRepeatedOrGivenUp(c: Config, env: Env, v: Snapshot)
    requires Unheard(c, v) && CanReboot(env, v)
    ensures var w := Requested(c, env, v);
            if env.now <= v.firstSending + c.rebootTimeout
            then Requests(w, env, v.state, v.subject) && w.firstSending == v.firstSending && w.active == v.active
            else StartsOver(w, env)
  {
    if env.now > v.firstSending + c.rebootTimeout {
      RestartedStartsOver(c, env, v);
    } else {
      AskedRequests(c, env, WithMedium(v));
    }
  }

  lemma {:induction false} RebootingAsks(c: Config, env: Env, v: Snapshot)
    requires c.backoffCutoff >= 1 && v.offered == [] && v.state == Rebooting && v.medium == []
    requires v.active != null && v.subject == v.active && v.firstSending == env.now && v.packet.kind.Request?
    ensures var w, lease := Requested(c, env, v), v.active;
            if env.now <= lease.expiry && (lease.medium != [] ==> env.mediumSet)
            then Requests(w, env, Rebooting, lease) && w.firstSending == env.now && w.xid == v.xid
            else StartsOver(w, env)
  {
    if env.now > v.active.expiry || (NeedsMedium(v) && !env.mediumSet) {
      RestartedStartsOver(c, env, v);
    } else {
      AskedRequests(c, env, WithMedium(v));
    }
  }

  /** state_reboot asks for the lease remembered, or starts over where it cannot. */
  lemma {:induction false} RebootAsksForLease(c: Config, env: Env, v: Snapshot)
    requires c.backoffCutoff >= 1 && v.offered == []
    ensures var w, lease := Rebooted(c, env, v), v.active;
            if lease != null && !lease.isBootp && env.now <= lease.expiry && (lease.medium != [] ==> env.mediumSet)
            then Requests(w, env, Rebooting, lease) && w.firstSending == env.now && w.xid == env.rebootXid
            else StartsOver(w, env)
  {
    if v.active == null || v.active.isBootp {
      RestartedStartsOver(c, env, v);
    } else {
      RebootingAsks(c, env,
        v.(state := Rebooting, xid := env.rebootXid,
           packet := RequestPacket(c, Rebooting, v.active, env.rebootXid, 0),
           requestedAddress := Some(v.active.address), subject := v.active, destination := BROADCAST,
           firstSending := env.now, interval := c.initialInterval, medium := []));
    }
  }

  /** A lease is asked to be renewed as long as it has not expired. */
  lemma {:induction false} RenewalIsRepeatedUntilExpiry(c: Config, env: Env, v: Snapshot)
    requires CanAsk(c, v) && v.state.Renewing? && v.active != null
    ensures var w := Requested(c, env, v);
            if env.now <= v.active.expiry then Requests(w, env, Renewing, v.active) else StartsOver(w, env)
  {
    if env.now > v.active.expiry {
      RestartedStartsOver(c, env, v);
    } else {
      AskedRequests(c, env, v);
    }
  }

  /** The next timeout of a client whose request for an offer nobody answers. */
  function AtTimeout(c: Config, env: Env, v: Snapshot): Snapshot
    requires c.backoffCutoff >= 1
  {
    if v.state.Requesting? && v.subject != null then Requested(c, env, v.(timers := map[])) else v
  }

  /** `states` are those of such a client, from one timeout to the next. */
  ghost predicate GoesOn(c: Config, envs: seq<Env>, states: seq<Snapshot>) {
    && c.backoffCutoff >= 1 && |states| == |envs| + 1
    && forall i {:trigger envs[i]} :: 0 <= i < |envs| ==> states[i + 1] == AtTimeout(c, envs[i], states[i])
  }

  /** None of the first `n` timeouts comes after `limit`. */
  predicate AllBy(envs: seq<Env>, limit: int, n: nat)
    requires n <= |envs|
  {
    forall i :: 0 <= i < n ==> envs[i].now <= limit
  }

  /** The request is still being repeated, `n` times so far. */
  ghost predicate StillAsking(u: Snapshot, v: Snapshot, n: nat) {
    && u.state.Requesting? && u.subject == v.subject && u.firstSending == v.firstSending
    && Length(u.sent) == Length(v.sent) + n
  }

  /** As long as the timeouts come in time the request is repeated at each; then the client is discovering. */
  ghost predicate KeepsDeadline(c: Config, envs: seq<Env>, v: Snapshot, n: nat, u: Snapshot)
    requires n <= |envs|
  {
    Valid(c, u) &&
    if AllBy(envs, v.firstSending + c.rebootTimeout, n) then StillAsking(u, v, n)
    else u.state.Selecting? && u.offered == []
  }

  /** At one timeout the request is repeated or given up; afterwards nothing more is asked. */
  ghost predicate OnceMore(c: Config, env: Env, u: Snapshot, w: Snapshot) {
    && Valid(c, w)
    && (if !u.state.Requesting? then w == u
        else if env.now <= u.firstSending + c.rebootTimeout then StillAsking(w, u, 1)
        else w.state.Selecting? && w.offered == [])
  }

  lemma {:induction false} AskedOnceMore(c: Config, env: Env, u: Snapshot, w: Snapshot)
    requires Valid(c, u) && w == AtTimeout(c, env, u)
    ensures OnceMore(c, env, u, w)
  {
    if u.state.Requesting? {
      RequestedIsValid(c, env, u.(timers := map[]));
      RequestIsRepeatedOrGivenUp(c, env, u.(timers := map[]));
    }
  }

  lemma {:induction false} OneMoreBy(envs: seq<Env>, limit: int, n: nat)
    requires 0 < n <= |envs|
    ensures AllBy(envs, limit, n) <==> AllBy(envs, limit, n - 1) && envs[n - 1].now <= limit
  {
  }

  lemma {:induction false} OneTimeoutMore(c: Config, envs: seq<Env>, v: Snapshot, n: nat, u: Snapshot, w: Snapshot)
    requires 0 < n <= |envs| && KeepsDeadline(c, envs, v, n - 1, u) && OnceMore(c, envs[n - 1], u, w)
    ensures KeepsDeadline(c, envs, v, n, w)
  {
    OneMoreBy(envs, v.firstSending + c.rebootTimeout, n);
  }

  /**
    * A client whose request for an offer nobody answers is discovering again at the first timeout that comes after the
    * reboot timeout has passed since the request was first sent, and at none before; until then it has repeated the
    * request at every timeout.
    */
  lemma {:induction false} RequestDeadline(c: Config, envs: seq<Env>, states: seq<Snapshot>, n: nat)
    requires GoesOn(c, envs, states) && n <= |envs|
    requires Valid(c, states[0]) && states[0].state.Requesting?
    ensures KeepsDeadline(c, envs, states[0], n, states[n])
  {
    if n > 0 {
      RequestDeadline(c, envs, states, n - 1);
      AskedOnceMore(c, envs[n - 1], states[n - 1], states[n]);
      OneTimeoutMore(c, envs, states[0], n, states[n - 1], states[n]);
    }
  }
}
