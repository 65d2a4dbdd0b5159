/**
  * The arithmetic of the DHCP client: lease times, the retransmission intervals, and the walk over the list of media.
  * `Env` is what one event finds outside the client: the clock, random numbers and scripts.
  */
module DhcpTimes {
  import opened Arithmetic
  import opened Bytes
  import opened DhcpPackets

  const TIME_MAX: int := 0x7fff_ffff

  /** What the clock says, up to the last time that a host with 32-bit times knows. */
  type Time = t: int | 0 <= t <= TIME_MAX

  function Min(a: int, b: int): int { if a <= b then a else b }

  // ---- lease times ----

  /** Storing an integer in a signed time of 32 bits, or of 64 on a wide host. */
  function Wrap(x: int, wide: bool): int {
    if wide then (x + 0x8000_0000_0000_0000) % 0x1_0000_0000_0000_0000 - 0x8000_0000_0000_0000
    else (x + 0x8000_0000) % 0x1_0000_0000 - 0x8000_0000
  }

  /** The division of C, which drops the fraction. */
  function Truncated(x: int, d: int): int
    requires d > 0
  {
    if x >= 0 then x / d else -((-x) / d)
  }

  /** Adding the clock to a duration; a sum that comes out before now is taken for a very late time. */
  function Deadline(now: Time, x: int, wide: bool): int {
    var t := Wrap(x + now, wide);
    if t < now then TIME_MAX else t
  }

  /** The times a DHCPACK gives a lease; None stands for an option the server left out. */
  datatype Times = Times(expiry: int, renewal: int, rebind: int)

  function AckTimes(wide: bool, now: Time, lease: Word, renewal: Option<Word>, rebind: Option<Word>): Times {
    var e := if Wrap(lease, wide) < 0 then TIME_MAX else Wrap(lease, wide);
    var r := if renewal.Some? then Wrap(renewal.value, wide) else Truncated(e, 2);
    var b := if rebind.Some? then Wrap(rebind.value, wide) else Wrap(r + Truncated(r, 2) + Truncated(r, 4), wide);
    Times(Deadline(now, e, wide), Deadline(now, r, wide), Deadline(now, b, wide))
  }

  /** Times of 64 bits have room for anything that comes up here. */
  lemma {:induction false} WideIsExact(now: Time, x: int)
    requires 0 <= x <= 0x2_0000_0000
    ensures Wrap(x, true) == x && Deadline(now, x, true) == now + x
  {
  }

  lemma {:induction false} DeadlineSaturates(now: Time, x: int)
    requires -0x8000_0000 <= x <= TIME_MAX
    ensures Deadline(now, x, false) == if x < 0 then TIME_MAX else Min(now + x, TIME_MAX)
  {
  }

  lemma {:induction false} WrapWord(w: Word)
    ensures Wrap(w, false) == if w <= TIME_MAX then w else w - 0x1_0000_0000
  {
  }

  /** The last time of a narrow host cuts off later ones. */
  function Cut(t: int, wide: bool): int { if wide then t else Min(t, TIME_MAX) }

  lemma {:induction false} GivenSaturates(wide: bool, now: Time, given: Word)
    ensures Deadline(now, Wrap(given, wide), wide) == Cut(now + given, wide)
  {
    if wide {
      WideIsExact(now, given);
    } else {
      WrapWord(given);
      DeadlineSaturates(now, Wrap(given, false));
    }
  }

  /**
    * The durations meant by the server count from now. On a narrow host they are cut off at the last 32-bit time,
    * whatever wraps on the way.
    */
  lemma {:induction false} AckTimesSaturate(wide: bool, now: Time, lease: Word, renewal: Option<Word>,
                                            rebind: Option<Word>)
    ensures var t := AckTimes(wide, now, lease, renewal, rebind);
            && t.expiry == Cut(now + lease, wide)
            && (renewal.Some? ==> t.renewal == Cut(now + renewal.value, wide))
            && (renewal.None? ==> t.renewal == Cut(now + Cut(lease, wide) / 2, wide))
            && (rebind.Some? ==> t.rebind == Cut(now + rebind.value, wide))
  {
    GivenSaturates(wide, now, lease);
    if wide {
      WideIsExact(now, lease);
      WideIsExact(now, lease / 2);
    } else {
      WrapWord(lease);
      DeadlineSaturates(now, TIME_MAX);
      DeadlineSaturates(now, Truncated(Min(lease, TIME_MAX), 2));
    }
    if renewal.Some? {
      GivenSaturates(wide, now, renewal.value);
    }
    if rebind.Some? {
      GivenSaturates(wide, now, rebind.value);
    }
  }

  /** Seven quarters of `m`, as the default for the rebinding time computes them. */
  function SevenQuarters(m: nat): nat { m + m / 2 + m / 4 }

  lemma {:induction false} SevenQuartersBounds(m: nat)
    ensures m <= SevenQuarters(m) && 4 * SevenQuarters(m) <= 7 * m
  {
  }

  lemma {:induction false} WrapOnce(x: int)
    requires -0x1_8000_0000 <= x < 0x1_8000_0000
    ensures Wrap(x, false)
         == if x < -0x8000_0000 then x + 0x1_0000_0000 else if x > TIME_MAX then x - 0x1_0000_0000 else x
  {
  }

  lemma {:induction false} RebindFromRenewal(now: Time, r: int)
    requires 0 <= r <= TIME_MAX
    ensures Deadline(now, Wrap(r + Truncated(r, 2) + Truncated(r, 4), false), false)
         == Min(now + SevenQuarters(r), TIME_MAX)
  {
    var b: int := SevenQuarters(r);
    SevenQuartersBounds(r);
    assert r + Truncated(r, 2) + Truncated(r, 4) == b;
    WrapOnce(b);
    DeadlineSaturates(now, Wrap(b, false));
  }

  lemma {:induction false} RebindFromNegative(now: Time, r: int)
    requires -0x8000_0000 <= r < 0
    ensures Deadline(now, Wrap(r + Truncated(r, 2) + Truncated(r, 4), false), false)
         == if SevenQuarters(-r) <= 0x8000_0000 then TIME_MAX
            else Min(now + 0x1_0000_0000 - SevenQuarters(-r), TIME_MAX)
  {
    var b: int := SevenQuarters(-r);
    SevenQuartersBounds(-r);
    assert r + Truncated(r, 2) + Truncated(r, 4) == -b;
    WrapOnce(-b);
    DeadlineSaturates(now, Wrap(-b, false));
  }

  /** On a wide host the default rebinding time is never before the renewal time. */
  lemma {:induction false} WideRebind(now: Time, lease: Word, renewal: Option<Word>)
    ensures AckTimes(true, now, lease, renewal, None).rebind >= AckTimes(true, now, lease, renewal, None).renewal
  {
    WideIsExact(now, lease);
    if renewal.Some? {
      WideIsExact(now, renewal.value);
    }
    var r: int := if renewal.Some? then renewal.value else lease / 2;
    SevenQuartersBounds(r);
    WideIsExact(now, r);
    WideIsExact(now, SevenQuarters(r));
  }

  /**
    * The default rebinding time is never before the renewal time, except on a host with 32-bit times when the renewal
    * time the server gave is so large that it looks negative and seven quarters of it wrap around to a small positive
    * number.
    */
  lemma {:induction false} DefaultRebind(wide: bool, now: Time, lease: Word, renewal: Option<Word>)
    ensures var t := AckTimes(wide, now, lease, renewal, None);
            t.rebind < t.renewal <==>
              && !wide && renewal.Some? && renewal.value > TIME_MAX
              && var m := SevenQuarters(0x1_0000_0000 - renewal.value);
              m > 0x8000_0000 && now + 0x1_0000_0000 - m < TIME_MAX
  {
    if wide {
      WideRebind(now, lease, renewal);
    } else {
      WrapWord(lease);
      var e := if Wrap(lease, false) < 0 then TIME_MAX else Wrap(lease, false);
      var r := if renewal.Some? then Wrap(renewal.value, false) else Truncated(e, 2);
      if renewal.Some? { WrapWord(renewal.value); }
      DeadlineSaturates(now, r);
      if r >= 0 {
        RebindFromRenewal(now, r);
      } else {
        RebindFromNegative(now, r);
      }
    }
  }

  /** Such a renewal time: the lease would be renewed at the end of time, but rebound in seventeen years. */
  lemma {:induction false} RebindCanComeFirst()
    ensures AckTimes(false, 0, 86400, Some(0x8000_0000), None) == Times(86400, TIME_MAX, 0x2000_0000)
  {
  }

  // ---- what an event finds outside ----

  /**
    * The clock, the random numbers an event draws, and how scripts end: `usable` for a recorded lease under
    * TIMEOUT, `free` for an offered address under ARPCHECK, `arpSent` for ARPSEND, `mediumSet` for the medium
    * of a recorded lease, `mediumFailures` for the media that do not work before one does. `stray` is what happens to
    * stand in memory behind the copy of an option.
    */
  datatype Env = Env(
    now: Time, xid: Word, rebootXid: Word, stray: nat -> byte, grow: nat, cut: nat, mediumFailures: nat,
    mediumSet: bool, arpSent: bool, usable: ClientLease -> bool, free: ClientLease -> bool)

  /** What stands in memory at place `i` of an option: its bytes, a NUL, and whatever is behind it. */
  function InMemory(data: seq<byte>, i: nat, env: Env): byte {
    if i < |data| then data[i] else if i == |data| then 0 else env.stray(i - |data| - 1)
  }

  /** The 32-bit number at the front of an option, most significant byte first; the length is not looked at. */
  function GetULong(data: seq<byte>, env: Env): Word
    requires data != []
  {
    0x100_0000 * InMemory(data, 0, env) + 0x1_0000 * InMemory(data, 1, env)
    + 0x100 * InMemory(data, 2, env) + InMemory(data, 3, env)
  }

  /** A 32-bit number as it stands in an option, most significant byte first. */
  function InNetworkOrder(w: Word): seq<byte> { [w / 0x100_0000, w / 0x1_0000 % 0x100, w / 0x100 % 0x100, w % 0x100] }

  /** The option begins with the number. */
  predicate Says(data: seq<byte>, w: Word) { |data| >= 4 && data[..4] == InNetworkOrder(w) }

  lemma {:induction false} FourDigits(w: Word)
    ensures 0x100_0000 * (w / 0x100_0000) + 0x1_0000 * (w / 0x1_0000 % 0x100) + 0x100 * (w / 0x100 % 0x100) + w % 0x100
         == w
  {
    var a := w / 0x100;
    var b := a / 0x100;
    assert w / 0x1_0000 == b && w / 0x100_0000 == b / 0x100;
  }

  /** Every number is read back, whatever follows it in the option and in memory. */
  lemma {:induction false} ReadsNumber(data: seq<byte>, w: Word, env: Env)
    requires Says(data, w)
    ensures GetULong(data, env) == w
  {
    FourDigits(w);
    var digits := InNetworkOrder(w);
    assert data[0] == digits[0] && data[1] == digits[1] && data[2] == digits[2] && data[3] == digits[3];
  }

  /** The time is as much from now as the option says, if it says anything. */
  ghost predicate Means(data: seq<byte>, t: int, now: Time, wide: bool) {
    forall w: Word :: Says(data, w) ==> t == Cut(now + w, wide)
  }

  lemma {:induction false} NumberIsMeant(data: seq<byte>, t: int, env: Env, wide: bool)
    requires data != [] ==> t == Cut(env.now + GetULong(data, env), wide)
    ensures Means(data, t, env.now, wide)
  {
    forall w: Word | Says(data, w) ensures t == Cut(env.now + w, wide) {
      ReadsNumber(data, w, env);
    }
  }

  /** On average twice the interval; the first one is the configured one. */
  function Grown(config: Config, interval: nat, random: nat): nat {
    if interval == 0 then config.initialInterval else interval + Remainder(random, 2 * interval)
  }

  function DiscoverBackoff(config: Config, interval: nat, grow: nat, cut: nat): nat
    requires config.backoffCutoff >= 1
  {
    var g := Grown(config, interval, grow);
    if g > config.backoffCutoff then config.backoffCutoff / 2 + Remainder(cut, config.backoffCutoff) else g
  }

  function RequestBackoff(config: Config, interval: nat, grow: nat, cut: nat): nat {
    var g := Grown(config, interval, grow);
    if g > config.backoffCutoff then config.backoffCutoff / 2 + Remainder(cut, g) else g
  }

  /** The interval after a DHCPDISCOVER, which never reaches past the moment to panic. */
  function DiscoverInterval(config: Config, increase: bool, interval: nat, firstSending: int, env: Env): nat
    requires config.backoffCutoff >= 1
    requires env.now - firstSending <= config.timeout
  {
    var g :=
      if increase then DiscoverBackoff(config, interval, env.grow, env.cut)
      else if interval == 0 then config.initialInterval else interval;
    if env.now + g > firstSending + config.timeout then firstSending + config.timeout - env.now + 1 else g
  }

  /** The interval after a DHCPREQUEST, which never reaches past the expiry of the lease, if there is one yet. */
  function RequestInterval(config: Config, interval: nat, expiry: Option<int>, env: Env): nat
    requires expiry.Some? ==> env.now <= expiry.value
  {
    var g := RequestBackoff(config, interval, env.grow, env.cut);
    if expiry.Some? && env.now + g > expiry.value then expiry.value - env.now + 1 else g
  }

  /** A DHCPDISCOVER is repeated, strictly later, before the panic timeout has passed by more than a second. */
  lemma {:induction false} DiscoverIntervalBounds(config: Config, increase: bool, interval: nat, firstSending: int,
                                                  env: Env)
    requires config.initialInterval >= 1 && config.backoffCutoff >= 2
    requires env.now - firstSending <= config.timeout
    ensures 0 < DiscoverInterval(config, increase, interval, firstSending, env)
    ensures env.now + DiscoverInterval(config, increase, interval, firstSending, env)
         <= firstSending + config.timeout + 1
  {
  }

  /** Both conditions are needed: without them some draw of random numbers leaves the interval at zero. */
  lemma {:induction false} BackoffIsPositive(config: Config)
    requires config.backoffCutoff >= 1
    ensures (forall i: nat, grow: nat, cut: nat :: DiscoverBackoff(config, i, grow, cut) > 0)
        <==> config.initialInterval >= 1 && config.backoffCutoff >= 2
  {
    if config.initialInterval == 0 {
      assert DiscoverBackoff(config, 0, 0, 0) == 0;
    } else if config.backoffCutoff == 1 {
      assert DiscoverBackoff(config, 2, 0, 0) == 0;
    } else {
      forall i: nat, grow: nat, cut: nat ensures DiscoverBackoff(config, i, grow, cut) > 0 {
      }
    }
  }

  /**
    * Before the cutoff the interval does not shrink and is less than tripled; past it, it is drawn from half of the
    * cutoff to one and a half times as much.
    */
  lemma {:induction false} DiscoverBackoffBounds(config: Config, interval: nat, grow: nat, cut: nat)
    requires config.backoffCutoff >= 1
    ensures var r, cutoff := DiscoverBackoff(config, interval, grow, cut), config.backoffCutoff;
            var most := if interval == 0 then config.initialInterval else 3 * interval - 1;
            && r < cutoff / 2 + cutoff + 1
            && (most <= cutoff ==> interval <= r <= most)
            && (interval > cutoff || (interval == 0 && most > cutoff) ==> cutoff / 2 <= r < cutoff / 2 + cutoff)
            && (cutoff / 2 <= r || interval <= r <= most)
  {
  }

  /** The same for a DHCPREQUEST. */
  lemma {:induction false} RequestBackoffIsPositive(config: Config)
    ensures (forall i: nat, grow: nat, cut: nat :: RequestBackoff(config, i, grow, cut) > 0)
        <==> config.initialInterval >= 1 && config.backoffCutoff >= 2
  {
    if config.initialInterval == 0 {
      assert RequestBackoff(config, 0, 0, 0) == 0;
    } else if config.backoffCutoff <= 1 {
      assert Grown(config, 2, 0) == 2;
      assert RequestBackoff(config, 2, 0, 0) == 0;
    } else {
      forall i: nat, grow: nat, cut: nat ensures RequestBackoff(config, i, grow, cut) > 0 {
      }
    }
  }

  /**
    * The interval to the next DHCPREQUEST. It starts with the configured one; it does not shrink and is less than
    * tripled, except past the cutoff, where the client draws anew from half of it on. The draw reaches as far as the
    * interval did before it was cut, so that the cutoff is not a bound for it.
    */
  lemma {:induction false} RequestBackoffBounds(config: Config, interval: nat, grow: nat, cut: nat)
    ensures var r := RequestBackoff(config, interval, grow, cut);
            var most := if interval == 0 then config.initialInterval else 3 * interval - 1;
            && (r < interval ==> config.backoffCutoff / 2 <= r)
            && (r <= config.backoffCutoff ==> r <= most || config.backoffCutoff / 2 <= r)
            && (r > config.backoffCutoff ==> r < config.backoffCutoff / 2 + most)
            && (most <= config.backoffCutoff ==> interval <= r <= most)
  {
  }

  /** It never reaches past the second after the expiry of the lease. */
  lemma {:induction false} RequestIntervalBounds(config: Config, interval: nat, expiry: int, env: Env)
    requires env.now <= expiry && config.initialInterval >= 1 && config.backoffCutoff >= 2
    ensures env.now < env.now + RequestInterval(config, interval, Some(expiry), env) <= expiry + 1
    ensures RequestInterval(config, interval, None, env) > 0
  {
    RequestBackoffIsPositive(config);
    assert RequestBackoff(config, interval, env.grow, env.cut) > 0;
  }

  /** A cutoff of one second makes the interval zero. */
  lemma {:induction false} ShortCutoffGivesZero(config: Config)
    requires config.initialInterval == 5 && config.backoffCutoff == 1
    ensures DiscoverBackoff(config, 0, 0, 0) == 0
  {
  }

  /** The seconds field: 16 bits, cut off at the top. */
  function Seconds(elapsed: int): nat {
    if elapsed < 65536 then elapsed % 65536 else 65535
  }

  lemma {:induction false} SecondsAreCutOff(elapsed: nat)
    ensures Seconds(elapsed) == Min(elapsed, 0xffff)
  {
  }

  // ---- media ----

  /** The medium tried after `medium`: the rest of the list, or the whole list again. */
  function NextMedium(media: seq<string>, medium: seq<string>): seq<string> {
    if |medium| <= 1 then media else medium[1..]
  }

  /** The medium tried after `n` failures. */
  function MediumAfter(media: seq<string>, medium: seq<string>, n: nat): seq<string> {
    if n == 0 then medium else NextMedium(media, MediumAfter(media, medium, n - 1))
  }

  lemma {:induction false} SmallRemainder(k: nat, n: nat)
    requires k < n
    ensures k % n == k
  {
  }

  /** The media are tried in turn, as they stand in the configuration, and from its beginning again. */
  lemma {:induction false} MediaInTurn(media: seq<string>, k: nat, n: nat)
    requires k < |media|
    ensures MediumAfter(media, media[k..], n) == media[(k + n) % |media|..]
  {
    if n > 0 {
      MediaInTurn(media, k, n - 1);
      OneOn(k + n - 1, |media|);
    } else {
      OneOn(k, |media|);
      SmallRemainder(k, |media|);
    }
  }
}
