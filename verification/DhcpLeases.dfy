/**
  * The lists of leases the DHCP client walks: the recorded ones state_panic tries in turn, and the offered ones
  * state_selecting probes and declines.
  */
module DhcpLeases {
  import opened DhcpPackets
  import opened DhcpTimes

  /** The lease `l` stands among the first `n` of `s`. */
  ghost predicate Among(s: seq<ClientLease>, l: ClientLease, n: nat)
    requires n <= |s|
  {
    n > 0 && (s[n - 1] == l || Among(s, l, n - 1))
  }

  /** No lease stands among the first `n` of `s` twice. */
  ghost predicate NoneTwice(s: seq<ClientLease>, n: nat)
    requires n <= |s|
  {
    n == 0 || (!Among(s, s[n - 1], n - 1) && NoneTwice(s, n - 1))
  }

  ghost predicate Distinct(s: seq<ClientLease>) { NoneTwice(s, |s|) }

  lemma {:induction false} AmongIs(s: seq<ClientLease>, l: ClientLease, n: nat)
    requires n <= |s|
    ensures Among(s, l, n) <==> exists i :: 0 <= i < n && s[i] == l
  {
    if n > 0 {
      AmongIs(s, l, n - 1);
    }
  }

  lemma {:induction false} NoneTwiceIs(s: seq<ClientLease>, n: nat)
    requires n <= |s|
    ensures NoneTwice(s, n) <==> forall i, j :: 0 <= i < j < n ==> s[i] != s[j]
  {
    if n > 0 {
      NoneTwiceIs(s, n - 1);
      AmongIs(s, s[n - 1], n - 1);
    }
  }

  lemma {:induction false} ExtendedIsDistinct(s: seq<ClientLease>, l: ClientLease)
    requires Distinct(s) && l !in s
    ensures Distinct([l] + s)
  {
    NoneTwiceIs(s, |s|);
    var t := [l] + s;
    forall i, j | 0 <= i < j < |t| ensures t[i] != t[j] {
      assert t[j] == s[j - 1];
    }
    NoneTwiceIs(t, |t|);
  }

  // ---- the order in which recorded leases are tried ----

  predicate Works(lease: ClientLease, env: Env) { lease.expiry > env.now && env.usable(lease) }

  /** The first lease of `order`, from `k` on, that has not expired and whose script succeeds. */
  function FirstWorking(order: seq<ClientLease>, env: Env, k: nat): (r: nat)
    requires k <= |order|
    ensures k <= r <= |order|
    decreases |order| - k
  {
    if k == |order| || Works(order[k], env) then k else FirstWorking(order, env, k + 1)
  }

  lemma {:induction false} FirstWorkingIs(order: seq<ClientLease>, env: Env, k: nat)
    requires k <= |order|
    ensures var r := FirstWorking(order, env, k);
            && (r < |order| ==> Works(order[r], env))
            && (forall i :: k <= i < r ==> !Works(order[i], env))
    decreases |order| - k
  {
    if k < |order| && !Works(order[k], env) {
      FirstWorkingIs(order, env, k + 1);
    }
  }

  /** `k` is the first lease of `order` that works. */
  ghost predicate IsFirstWorking(order: seq<ClientLease>, env: Env, k: nat) {
    k < |order| && Works(order[k], env) && forall j :: 0 <= j < k ==> !Works(order[j], env)
  }

  lemma {:induction false} FirstWorkingFound(order: seq<ClientLease>, env: Env, k: nat, from: nat)
    requires IsFirstWorking(order, env, k) && from <= k
    ensures FirstWorking(order, env, from) == k
    decreases k - from
  {
    if from < k {
      FirstWorkingFound(order, env, k, from + 1);
    }
  }

  /** The leases among the first `n` whose script is run. */
  function Tried(order: seq<ClientLease>, now: int, n: nat): seq<ClientLease>
    requires n <= |order|
  {
    if n == 0 then []
    else if order[n - 1].expiry > now then Tried(order, now, n - 1) + [order[n - 1]]
    else Tried(order, now, n - 1)
  }

  /** The script is run for a lease if and only if it has not expired. */
  lemma {:induction false} TriedIsUnexpired(order: seq<ClientLease>, now: int, n: nat, l: ClientLease)
    requires n <= |order|
    ensures l in Tried(order, now, n) <==> l in order[..n] && l.expiry > now
  {
    if n > 0 {
      TriedIsUnexpired(order, now, n - 1, l);
      assert order[..n] == order[..n - 1] + [order[n - 1]];
    }
  }

  /** No lease is tried more often than it is recorded. */
  lemma {:induction false} TriedOnce(order: seq<ClientLease>, now: int, n: nat)
    requires n <= |order|
    ensures multiset(Tried(order, now, n)) <= multiset(order[..n])
  {
    if n > 0 {
      TriedOnce(order, now, n - 1);
      var t, l := Tried(order, now, n - 1), order[n - 1];
      assert order[..n] == order[..n - 1] + [l];
      assert multiset(order[..n]) == multiset(order[..n - 1]) + multiset{l};
      assert multiset(t + [l]) == multiset(t) + multiset{l};
    }
  }

  /** The order after moving its head to its tail `k` times. */
  function Turned(order: seq<ClientLease>, k: nat): (t: seq<ClientLease>)
    requires k <= |order|
    ensures |t| == |order|
  {
    if k == 0 then order
    else
      var t := Turned(order, k - 1);
      t[1..] + [t[0]]
  }

  lemma {:induction false} TurnedIs(order: seq<ClientLease>, k: nat)
    requires k <= |order|
    ensures Turned(order, k) == order[k..] + order[..k]
  {
    if k > 0 {
      TurnedIs(order, k - 1);
      assert order[..k] == order[..k - 1] + [order[k - 1]];
    }
  }

  /** Rotating an order keeps its leases. */
  lemma {:induction false} TurnedConserves(order: seq<ClientLease>, k: nat)
    requires k <= |order|
    ensures multiset(Turned(order, k)) == multiset(order)
  {
    TurnedIs(order, k);
    assert order == order[..k] + order[k..];
  }

  lemma {:induction false} TurnedIsDistinct(order: seq<ClientLease>, k: nat)
    requires k <= |order| && Distinct(order)
    ensures Distinct(Turned(order, k))
  {
    TurnedIs(order, k);
    NoneTwiceIs(order, |order|);
    var t := Turned(order, k);
    forall i, j | 0 <= i < j < |t| ensures t[i] != t[j] {
      var p := if i + k < |order| then i + k else i + k - |order|;
      var q := if j + k < |order| then j + k else j + k - |order|;
      assert t[i] == order[p] && t[j] == order[q] && p != q;
      assert if p < q then order[p] != order[q] else order[q] != order[p];
    }
    NoneTwiceIs(t, |t|);
  }

  lemma {:induction false} TurnedHead(order: seq<ClientLease>, k: nat)
    requires k <= |order|
    ensures k < |order| ==> Turned(order, k)[0] == order[k]
    ensures k == |order| ==> Turned(order, k) == order
  {
    TurnedIs(order, k);
  }

  /** Only a full turn brings the first lease back to the head. */
  lemma {:induction false} HeadReturns(order: seq<ClientLease>, k: nat)
    requires Distinct(order) && 0 < k <= |order| && Turned(order, k)[0] == order[0]
    ensures k == |order|
  {
    TurnedHead(order, k);
    NoneTwiceIs(order, |order|);
  }

  // ---- offers ----

  /** The first offer whose address nobody answers for. */
  function FirstFree(offers: seq<ClientLease>, env: Env, k: nat): (r: nat)
    requires k <= |offers|
    ensures k <= r <= |offers|
    decreases |offers| - k
  {
    if k == |offers| || env.free(offers[k]) then k else FirstFree(offers, env, k + 1)
  }

  lemma {:induction false} FirstFreeIs(offers: seq<ClientLease>, env: Env, k: nat)
    requires k <= |offers|
    ensures var r := FirstFree(offers, env, k);
            (r < |offers| ==> env.free(offers[r])) && forall i :: k <= i < r ==> !env.free(offers[i])
    decreases |offers| - k
  {
    if k < |offers| && !env.free(offers[k]) {
      FirstFreeIs(offers, env, k + 1);
    }
  }

  /** The log after declining the first `n` offers. */
  ghost function Declined(log: Log, config: Config, offers: seq<ClientLease>, now: int, xid: Word, n: nat): Log
    requires n <= |offers|
  {
    if n == 0 then log
    else
      var lease := offers[n - 1];
      After(Declined(log, config, offers, now, xid, n - 1),
            Sending(Selecting, now, xid, DeclinePacket(config, lease, xid), lease, BROADCAST, ANY))
  }

  /** Every offer passed over is declined, to everyone, in the transaction it was made in. */
  lemma {:induction false} DeclinedIsProper(log: Log, config: Config, offers: seq<ClientLease>, now: int, xid: Word,
                                            n: nat)
    requires n <= |offers| && AllProper(config, log)
    requires LastDiscover(log).Some? && LastDiscover(log).value.xid == xid
    ensures AllProper(config, Declined(log, config, offers, now, xid, n))
    ensures LastDiscover(Declined(log, config, offers, now, xid, n)) == LastDiscover(log)
    ensures Length(Declined(log, config, offers, now, xid, n)) == Length(log) + n
  {
    if n > 0 {
      DeclinedIsProper(log, config, offers, now, xid, n - 1);
    }
  }

  /** The packet is a DHCPDECLINE for the lease, to everyone. */
  ghost predicate Refuses(e: Sending, lease: ClientLease) {
    e.packet.kind.Decline? && e.lease == lease && e.to == BROADCAST
  }

  /** The log holds the old one and then a DHCPDECLINE for each of the first `n` offers, in their order. */
  ghost predicate Declines(log: Log, before: Log, offers: seq<ClientLease>, n: nat) {
    && n <= |offers| && Length(before) + n <= Length(log) && Prefix(log, Length(before)) == before
    && forall i :: 0 <= i < n ==> Refuses(Nth(log, Length(before) + i), offers[i])
  }

  lemma {:induction false} DeclinedDeclines(log: Log, config: Config, offers: seq<ClientLease>, now: int, xid: Word,
                                            n: nat)
    requires n <= |offers|
    ensures Length(Declined(log, config, offers, now, xid, n)) == Length(log) + n
    ensures Declines(Declined(log, config, offers, now, xid, n), log, offers, n)
  {
    if n > 0 {
      var less, all := Declined(log, config, offers, now, xid, n - 1), Declined(log, config, offers, now, xid, n);
      DeclinedDeclines(log, config, offers, now, xid, n - 1);
      OneMoreStays(less, log, offers, n - 1, all);
      assert Nth(all, Length(log) + (n - 1)) == all.last;
    }
  }

  lemma {:induction false} OneMoreStays(log: Log, before: Log, offers: seq<ClientLease>, n: nat, more: Log)
    requires Declines(log, before, offers, n) && more.After? && more.before == log
    ensures Declines(more, before, offers, n)
  {
    assert Prefix(more, Length(before)) == Prefix(log, Length(before));
    forall i | 0 <= i < n ensures Refuses(Nth(more, Length(before) + i), offers[i]) {
      assert Nth(more, Length(before) + i) == Nth(log, Length(before) + i);
    }
  }

  /** The address `a` stands among those of the first `n` offers. */
  predicate Seen(offers: seq<ClientLease>, a: Address, n: nat)
    requires n <= |offers|
  {
    n > 0 && (offers[n - 1].address == a || Seen(offers, a, n - 1))
  }

  /** The first `n` offers are for different addresses. */
  ghost predicate Different(offers: seq<ClientLease>, n: nat)
    requires n <= |offers|
  {
    n == 0 || (!Seen(offers, offers[n - 1].address, n - 1) && Different(offers, n - 1))
  }

  lemma {:induction false} SeenIs(offers: seq<ClientLease>, a: Address, n: nat)
    requires n <= |offers|
    ensures Seen(offers, a, n) <==> exists i :: 0 <= i < n && offers[i].address == a
  {
    if n > 0 {
      SeenIs(offers, a, n - 1);
    }
  }

  lemma {:induction false} DifferentIs(offers: seq<ClientLease>, n: nat)
    requires n <= |offers|
    ensures Different(offers, n) <==> forall i, j :: 0 <= i < j < n ==> offers[i].address != offers[j].address
  {
    if n > 0 {
      DifferentIs(offers, n - 1);
      SeenIs(offers, offers[n - 1].address, n - 1);
    }
  }

  /** An offer for an address not seen yet can be put at either end. */
  lemma {:induction false} StillDifferent(offers: seq<ClientLease>, lease: ClientLease)
    requires Different(offers, |offers|) && !Seen(offers, lease.address, |offers|)
    ensures Different([lease] + offers, |offers| + 1) && Different(offers + [lease], |offers| + 1)
  {
    SeenIs(offers, lease.address, |offers|);
    DifferentIs(offers, |offers|);
    DifferentIs([lease] + offers, |offers| + 1);
    DifferentIs(offers + [lease], |offers| + 1);
  }
}
