/** The IP and UDP headers that contrib/dhcp/common/packet.c puts on a packet and takes off again. */
module PacketHeaders {
  import opened Bytes
  import opened Checksum

  const UDP: byte := 17

  /** A 16-bit number in network byte order, cut off at the top. */
  function Net16(x: int): (b: seq<byte>)
    ensures |b| == 2
  {
    [(x / 256) % 256, x % 256]
  }

  function Host16(s: seq<byte>, i: nat): nat
    requires i + 1 < |s|
  {
    256 * s[i] as int + s[i + 1]
  }

  /** The checksum loop, over `n` bytes of `buf`; a negative count is none. */
  method Sum(buf: array<byte>, from: nat, n: int, start: nat) returns (sum: nat)
    requires from + n <= buf.Length && from <= buf.Length
    ensures sum == Folded(if n > 0 then buf[from..from + n] else [], 0, start)
  {
    ghost var s := if n > 0 then buf[from..from + n] else [];
    sum := start;
    var i := 0;
    while i < n - n % 2
      invariant i % 2 == 0 && 0 <= i && (i <= n || i == 0)
      invariant Folded(s, 0, start) == Folded(s, i, sum)
      decreases n - i
    {
      assert s[i] == buf[from + i] && s[i + 1] == buf[from + i + 1];
      sum := sum + 256 * buf[from + i] as int + buf[from + i + 1];
      if sum > 0xffff {
        sum := sum - 0xffff;
      }
      i := i + 2;
    }
    if i < n {
      assert s[i] == buf[from + i];
      sum := sum + 256 * buf[from + i] as int;
      if sum > 0xffff {
        sum := sum - 0xffff;
      }
    }
  }

  // ---- what the headers are ----

  /** An IP header without options for a UDP packet of `length` bytes in all, with `sum` for its checksum. */
  function IpHeader(src: seq<byte>, dst: seq<byte>, length: int, sum: nat): (h: seq<byte>)
    requires |src| == 4 && |dst| == 4
    ensures |h| == 20
  {
    [0x45, 0x10] + Net16(length) + [0, 0, 0, 0, 16, UDP] + Net16(sum) + src + dst
  }

  function UdpHeader(sport: seq<byte>, dport: seq<byte>, length: int, sum: nat): (h: seq<byte>)
    requires |sport| == 2 && |dport| == 2
    ensures |h| == 8
  {
    sport + dport + Net16(length) + Net16(sum)
  }

  /** The checksum of a UDP packet: the addresses, the protocol and the length, then the data, then the header. */
  function UdpSum(addresses: seq<byte>, header: seq<byte>, data: seq<byte>): nat
    requires |header| == 8
  {
    Wrapped(Folded(header, 0, Folded(data, 0, Folded(addresses, 0, UDP + Host16(header, 4)))))
  }

  /** Both headers, as assemble_udp_ip_header builds them. */
  function Headers(src: seq<byte>, dst: seq<byte>, sport: seq<byte>, dport: seq<byte>, data: seq<byte>): (h: seq<byte>)
    requires |src| == 4 && |dst| == 4 && |sport| == 2 && |dport| == 2
    ensures |h| == 28
  {
    var ip := IpHeader(src, dst, 28 + |data|, 0);
    var udp := UdpHeader(sport, dport, 8 + |data|, 0);
    IpHeader(src, dst, 28 + |data|, Wrapped(Folded(ip, 0, 0)))
    + UdpHeader(sport, dport, 8 + |data|, UdpSum(src + dst, udp, data))
  }

  /** A packet taken in: nothing, or the length of the headers and where it came from. */
  datatype Decoded = Rejected | Accepted(headers: nat, address: seq<byte>, port: seq<byte>)

  /** The checksum of a packet whose UDP header, its checksum cleared, stands at `n` with `len` bytes behind it. */
  function Resummed(q: seq<byte>, n: nat, len: int): nat
    requires |q| >= 20 && n + 8 <= |q| && n + 8 + len <= |q|
  {
    UdpSum(q[12..20], q[n..n + 8], if len > 0 then q[n + 8..n + 8 + len] else [])
  }

  /** Where the UDP header stands, behind the IP header. */
  function UdpAt(p: seq<byte>): nat
    requires |p| > 0
  {
    4 * (p[0] % 16) as int
  }

  /** The packet is for us, its IP header is sound, and it is not longer than what was received. */
  predicate Passes(p: seq<byte>, length: int, local: Option<seq<byte>>)
    requires |p| >= 68
  {
    var n := UdpAt(p);
    && (local.Some? ==> p[9] == UDP && p[n..n + 8][2..4] == local.value)
    && Sound(p[..n])
    && n + Host16(p[n..n + 8], 4) <= length
  }

  /**
    * decode_udp_ip_header on what stands in the buffer from the IP header on, `length` bytes of which were received,
    * with the data behind the headers. `local` is the port served, if packets to others are to be dropped.
    */
  function Decode(p: seq<byte>, length: int, local: Option<seq<byte>>): Decoded
    requires |p| >= 68 && length <= |p|
  {
    var n := UdpAt(p);
    var udp := p[n..n + 8];
    if !Passes(p, length, local) then Rejected
    else
      var sum := Host16(udp, 6);
      if sum != 0 && sum != Resummed(p[n + 6 := 0][n + 7 := 0], n, Host16(udp, 4) - 8) then Rejected
      else Accepted(n + 8, p[12..16], udp[..2])
  }

  lemma {:induction false} Net16Is(x: int)
    requires 0 <= x <= 0xffff
    ensures Host16(Net16(x), 0) == x
  {
  }

  /** Filling the complement of its checksum in makes an IP header sound. */
  lemma {:induction false} IpHeaderIsSound(src: seq<byte>, dst: seq<byte>, length: int)
    requires |src| == 4 && |dst| == 4
    ensures Sound(IpHeader(src, dst, length, Wrapped(Folded(IpHeader(src, dst, length, 0), 0, 0))))
  {
    var h := IpHeader(src, dst, length, 0);
    var sum := Folded(h, 0, 0);
    FoldedIs(h, 0, 0);
    var g := IpHeader(src, dst, length, Wrapped(sum));
    assert g == WithWord(h, 10, Wrapped(sum));
    TotalWithWord(h, 10, Wrapped(sum), 0);
    TotalIsZero(h, 0);
    assert h[0] == 0x45;
    SoundIs(g);
    Complemented(Total(h, 0), sum);
  }

  lemma {:induction false} Complemented(total: nat, sum: nat)
    requires 0 < sum <= 0xffff && sum % 0xffff == total % 0xffff
    ensures (total + Wrapped(sum)) % 0xffff == 0
  {
  }

  /**
    * The round trip: a packet with these headers is accepted, whatever follows it in the buffer, and gives back the
    * address and the port it was sent from.
    */
  lemma {:induction false} HeadersAreAccepted(src: seq<byte>, dst: seq<byte>, sport: seq<byte>, dport: seq<byte>,
                                              data: seq<byte>, rest: seq<byte>, local: Option<seq<byte>>)
    requires |src| == 4 && |dst| == 4 && |sport| == 2 && |dport| == 2
    requires 28 + |data| <= 0xffff && |data| + |rest| >= 40
    requires local.Some? ==> local.value == dport
    ensures Decode(Headers(src, dst, sport, dport, data) + data + rest, 28 + |data|, local) == Accepted(28, src, sport)
  {
    var p := Headers(src, dst, sport, dport, data) + data + rest;
    var ip := IpHeader(src, dst, 28 + |data|, Wrapped(Folded(IpHeader(src, dst, 28 + |data|, 0), 0, 0)));
    var bare := UdpHeader(sport, dport, 8 + |data|, 0);
    var sum := UdpSum(src + dst, bare, data);
    var udp := UdpHeader(sport, dport, 8 + |data|, sum);
    IpHeaderIsSound(src, dst, 28 + |data|);
    Parts(ip, udp, data, rest);
    IpParts(src, dst, 28 + |data|, Wrapped(Folded(IpHeader(src, dst, 28 + |data|, 0), 0, 0)));
    UdpParts(sport, dport, 8 + |data|, sum);
    assert p[12..20] == p[..20][12..20] && p[12..16] == p[..20][12..16];
    assert p[0] == p[..20][0] && p[9] == p[..20][9];
    var q := p[26 := 0][27 := 0];
    assert q[12..20] == p[12..20] && q[28..28 + |data|] == p[28..28 + |data|];
    assert q[20..28] == udp[..6] + [0, 0];
  }

  // ---- headers that change on the way ----

  /** What is asked of the UDP header that stands at `n`, once the IP header in front of it is sound. */
  predicate Delivers(p: seq<byte>, n: nat, length: int, local: Option<seq<byte>>)
    requires |p| >= 68 && length <= |p| && n <= 60
  {
    var udp := p[n..n + 8];
    && (local.Some? ==> p[9] == UDP && udp[2..4] == local.value)
    && n + Host16(udp, 4) <= length
    && (Host16(udp, 6) == 0 || Host16(udp, 6) == Resummed(p[n + 6 := 0][n + 7 := 0], n, Host16(udp, 4) - 8))
  }

  lemma {:induction false} AcceptedWhen(p: seq<byte>, length: int, local: Option<seq<byte>>)
    requires |p| >= 68 && length <= |p|
    ensures Decode(p, length, local).Accepted? <==> Sound(p[..UdpAt(p)]) && Delivers(p, UdpAt(p), length, local)
  {
  }

  /** What the sum of a header gains, or loses, if it ends at `m` and not at `n`. */
  function Gained(p: seq<byte>, n: nat, m: nat): int
    requires n <= |p| && m <= |p|
  {
    if n <= m then Total(p[n..m], 0) else 0 - Total(p[m..n], 0)
  }

  /** The change is made up for, modulo 65535, by what the header gains or loses at its end. */
  predicate Balanced(p: seq<byte>, k: nat, w: nat, m: nat)
    requires |p| >= 68 && k + 1 < |p| && m <= |p|
  {
    m > 0 && (w - WordAt(p, k) + Gained(p, UdpAt(p), m)) % 0xffff == 0
  }

  lemma {:induction false} TotalOfChanged(p: seq<byte>, k: nat, w: nat, n: nat, m: nat)
    requires |p| >= 68 && k % 2 == 0 && n % 2 == 0 && m % 2 == 0 && n <= 60 && m <= 60 && w <= 0xffff
    requires k + 1 < n && k + 1 < m
    ensures Total(WithWord(p, k, w)[..m], 0) == Total(p[..n], 0) - WordAt(p, k) + w + Gained(p, n, m)
  {
    TotalWithWord(p[..m], k, w, 0);
    assert WithWord(p, k, w)[..m] == WithWord(p[..m], k, w);
    if n <= m {
      TotalOfBoth(p[..n], p[n..m], 0);
      assert p[..m] == p[..n] + p[n..m];
    } else {
      TotalOfBoth(p[..m], p[m..n], 0);
      assert p[..n] == p[..m] + p[m..n];
    }
  }

  /** A word of the IP header changes: the changed header is sound exactly when the change is balanced. */
  lemma {:induction false} ChangedHeaderIsSound(p: seq<byte>, k: nat, w: nat)
    requires |p| >= 68 && Sound(p[..UdpAt(p)])
    requires k % 2 == 0 && k + 1 < UdpAt(p) && w <= 0xffff
    ensures var g := WithWord(p, k, w); Sound(g[..UdpAt(g)]) <==> Balanced(p, k, w, UdpAt(g))
  {
    var g := WithWord(p, k, w);
    var m := UdpAt(g);
    SoundIs(p[..UdpAt(p)]);
    SoundIs(g[..m]);
    if m > 0 {
      TotalOfChanged(p, k, w, UdpAt(p), m);
      TotalIsZero(g[..m], 0);
      assert g[..m][0] == g[0];
      Shifted(Total(p[..UdpAt(p)], 0), w - WordAt(p, k) + Gained(p, UdpAt(p), m));
    }
  }

  lemma {:induction false} Shifted(total: int, gain: int)
    requires total % 0xffff == 0
    ensures (total + gain) % 0xffff == 0 <==> gain % 0xffff == 0
  {
  }

  /**
    * A packet that is accepted is still accepted after a change of one word of its IP header if and only if the change
    * is balanced and the UDP header that is found then passes its tests.
    */
  lemma {:induction false} ChangeIsAccepted(p: seq<byte>, length: int, local: Option<seq<byte>>, k: nat, w: nat)
    requires |p| >= 68 && length <= |p| && Decode(p, length, local).Accepted?
    requires k % 2 == 0 && k + 1 < UdpAt(p) && w <= 0xffff
    ensures var g := WithWord(p, k, w);
            Decode(g, length, local).Accepted? <==>
              Balanced(p, k, w, UdpAt(g)) && Delivers(g, UdpAt(g), length, local)
  {
    AcceptedWhen(p, length, local);
    AcceptedWhen(WithWord(p, k, w), length, local);
    ChangedHeaderIsSound(p, k, w);
  }

  /**
    * If the change leaves the header as long as it was: the packet is still accepted if and only if one of 0x0000 and
    * 0xFFFF has become the other.
    */
  lemma {:induction false} ChangeIsNoticed(p: seq<byte>, length: int, local: Option<seq<byte>>, k: nat, w: nat)
    requires |p| >= 68 && length <= |p| && Decode(p, length, local).Accepted?
    requires k % 2 == 0 && k + 1 < UdpAt(p) && w <= 0xffff && w != WordAt(p, k)
    requires UdpAt(WithWord(p, k, w)) == UdpAt(p)
    ensures Decode(WithWord(p, k, w), length, local).Accepted? <==> Exchanged(WordAt(p, k), w)
  {
    ChangeIsAccepted(p, length, local, k, w);
    assert p[UdpAt(p)..UdpAt(p)] == [];
    BalancedInPlace(WordAt(p, k), w);
    if Exchanged(WordAt(p, k), w) {
      AcceptedWhen(p, length, local);
      ExchangeDelivers(p, UdpAt(p), length, local, k, w);
    }
  }

  lemma {:induction false} BalancedInPlace(was: nat, w: nat)
    requires was <= 0xffff && w <= 0xffff && w != was
    ensures (w - was) % 0xffff == 0 <==> Exchanged(was, w)
  {
  }

  /** Changing a word leaves the bytes behind it as they were. */
  lemma {:induction false} BehindWord(p: seq<byte>, k: nat, w: nat, i: nat, j: nat)
    requires k + 1 < i <= j <= |p| && w <= 0xffff
    ensures WithWord(p, k, w)[i..j] == p[i..j]
  {
  }

  /** It does not matter which is changed first, a word or two bytes behind it. */
  lemma {:induction false} ClearedBehind(p: seq<byte>, k: nat, w: nat, i: nat)
    requires k + 1 < i && i + 1 < |p| && w <= 0xffff
    ensures WithWord(p, k, w)[i := 0][i + 1 := 0] == WithWord(p[i := 0][i + 1 := 0], k, w)
  {
  }

  /** An exchange does not matter to the UDP checksum either, which covers the addresses. */
  lemma {:induction false} ExchangeDelivers(p: seq<byte>, n: nat, length: int, local: Option<seq<byte>>, k: nat, w: nat)
    requires |p| >= 68 && length <= |p| && n <= 60 && Delivers(p, n, length, local)
    requires k % 2 == 0 && k + 1 < n && w <= 0xffff && Exchanged(WordAt(p, k), w)
    ensures Delivers(WithWord(p, k, w), n, length, local)
  {
    BehindWord(p, k, w, n, n + 8);
    ClearedBehind(p, k, w, n + 6);
    var udp := p[n..n + 8];
    if Host16(udp, 6) != 0 {
      ExchangeKeepsSum(p[n + 6 := 0][n + 7 := 0], n, Host16(udp, 4) - 8, k, w);
    }
  }

  lemma {:induction false} ExchangeKeepsSum(q: seq<byte>, n: nat, len: int, k: nat, w: nat)
    requires |q| >= 68 && n <= 60 && n + 8 + len <= |q| && q[n + 6] == 0 && q[n + 7] == 0
    requires k % 2 == 0 && k + 1 < n && w <= 0xffff && Exchanged(WordAt(q, k), w)
    ensures Resummed(WithWord(q, k, w), n, len) == Resummed(q, n, len)
  {
    var g := WithWord(q, k, w);
    BehindWord(q, k, w, n, n + 8);
    if len > 0 {
      BehindWord(q, k, w, n + 8, n + 8 + len);
    }
    if 12 <= k < 20 {
      assert g[12..20] == WithWord(q[12..20], k - 12, w);
      ExchangeKeepsUdpSum(q[12..20], q[n..n + 8], if len > 0 then q[n + 8..n + 8 + len] else [], k - 12, w);
    } else {
      assert g[12..20] == q[12..20];
    }
  }

  lemma {:induction false} ExchangeKeepsUdpSum(ends: seq<byte>, udp: seq<byte>, data: seq<byte>, k: nat, w: nat)
    requires |ends| == 8 && |udp| == 8 && udp[6] == 0 && udp[7] == 0
    requires k % 2 == 0 && k + 1 < 8 && w <= 0xffff && Exchanged(WordAt(ends, k), w)
    ensures UdpSum(WithWord(ends, k, w), udp, data) == UdpSum(ends, udp, data)
  {
    var start := UDP + Host16(udp, 4);
    var one, other := Folded(ends, 0, start), Folded(WithWord(ends, k, w), 0, start);
    ExchangedFolded(ends, k, w, 0, start);
    NearFolded(data, 0, one, other);
    NearMeets(udp, Folded(data, 0, one), Folded(data, 0, other));
  }

  /** The header that LengthChangeCanSlip is about, and the ports behind it, in words. */
  ghost predicate Fragile(p: seq<byte>) {
    && |p| == 68
    && p[0] == 0x45 && p[1] == 0x10 && WordAt(p, 8) == 0x1000 + UDP && WordAt(p, 10) == 0xaade
    && p[20] == 0xfe && p[21] == 0xff
    && forall i :: 2 <= i < 68 && i !in {8, 9, 10, 11, 20, 21} ==> p[i] == 0
  }

  /**
    * A change that moves the end of the header can go unnoticed: here the header length in the first byte grows by
    * one word, and the ports, which become part of the header, make up for the difference.
    */
  lemma {:induction false} LengthChangeCanSlip(p: seq<byte>)
    requires Fragile(p)
    ensures Decode(p, 68, None) == Accepted(28, p[12..16], [0xfe, 0xff])
    ensures Decode(WithWord(p, 0, 0x4610), 68, None) == Accepted(32, p[12..16], [0, 0])
  {
    FragileIsSound(p);
    ChangedIsSound(p);
    var g := WithWord(p, 0, 0x4610);
    assert g[12..16] == p[12..16];
    EmptyIsAccepted(p, 20);
    EmptyIsAccepted(g, 24);
    assert p[20..22] == [0xfe, 0xff] && g[24..26] == [0, 0];
  }

  lemma {:induction false} EmptyIsAccepted(p: seq<byte>, n: nat)
    requires |p| == 68 && UdpAt(p) == n && Sound(p[..n])
    requires p[n + 4] == 0 && p[n + 5] == 0 && p[n + 6] == 0 && p[n + 7] == 0
    ensures Decode(p, 68, None) == Accepted(n + 8, p[12..16], p[n..n + 2])
  {
    assert p[n..n + 8][..2] == p[n..n + 2];
  }

  lemma {:induction false} FragileIsSound(p: seq<byte>)
    requires Fragile(p)
    ensures Sound(p[..20])
  {
    var h := p[..20];
    ThreeWords(h, 0);
    ThreeWords(h, 6);
    ThreeWords(h, 12);
    SoundIs(h);
  }

  lemma {:induction false} ChangedIsSound(p: seq<byte>)
    requires Fragile(p)
    ensures Sound(WithWord(p, 0, 0x4610)[..24])
  {
    var h := WithWord(p, 0, 0x4610)[..24];
    ThreeWords(h, 0);
    ThreeWords(h, 6);
    ThreeWords(h, 12);
    ThreeWords(h, 18);
    SoundIs(h);
  }

  lemma {:induction false} ThreeWords(s: seq<byte>, i: nat)
    requires i + 5 < |s|
    ensures Total(s, i) == WordAt(s, i) + WordAt(s, i + 2) + WordAt(s, i + 4) + Total(s, i + 6)
  {
    assert Total(s, i + 2) == WordAt(s, i + 2) + Total(s, i + 4);
  }

  lemma {:induction false} Parts(ip: seq<byte>, udp: seq<byte>, data: seq<byte>, rest: seq<byte>)
    requires |ip| == 20 && |udp| == 8
    ensures var p := (ip + udp) + data + rest;
            p[..20] == ip && p[20..28] == udp && p[28..28 + |data|] == data
  {
  }

  lemma {:induction false} IpParts(src: seq<byte>, dst: seq<byte>, length: int, sum: nat)
    requires |src| == 4 && |dst| == 4
    ensures var h := IpHeader(src, dst, length, sum);
            h[0] == 0x45 && h[9] == UDP && h[12..20] == src + dst && h[12..16] == src
  {
  }

  lemma {:induction false} UdpParts(sport: seq<byte>, dport: seq<byte>, length: nat, sum: nat)
    requires |sport| == 2 && |dport| == 2 && length <= 0xffff && sum <= 0xffff
    ensures var h := UdpHeader(sport, dport, length, sum);
            && h[..2] == sport && h[2..4] == dport && Host16(h, 4) == length && Host16(h, 6) == sum
            && h[..6] + [0, 0] == UdpHeader(sport, dport, length, 0)
  {
    Net16Is(length);
    Net16Is(sum);
  }

  // ---- the program ----

  /** assemble_udp_ip_header: writes both headers at `bufix`, and moves it on. */
  method Assemble(buf: array<byte>, bufix: nat, src: seq<byte>, dst: seq<byte>, sport: seq<byte>, dport: seq<byte>,
                  data: seq<byte>)
    returns (next: nat)
    requires |src| == 4 && |dst| == 4 && |sport| == 2 && |dport| == 2
    requires bufix + 28 <= buf.Length
    modifies buf
    ensures next == bufix + 28 && buf[bufix..next] == Headers(src, dst, sport, dport, data)
    ensures forall i :: 0 <= i < buf.Length && !(bufix <= i < next) ==> buf[i] == old(buf[i])
  {
    var ipSum := SumOf(IpHeader(src, dst, 28 + |data|, 0), 0);
    next := Put(buf, bufix, IpHeader(src, dst, 28 + |data|, Wrapped(ipSum)));

    var udp := UdpHeader(sport, dport, 8 + |data|, 0);
    var udpSum := SumOf(src + dst, UDP + Host16(udp, 4));
    udpSum := SumOf(data, udpSum);
    udpSum := SumOf(udp, udpSum);
    ghost var middle := buf[..];
    next := Put(buf, next, UdpHeader(sport, dport, 8 + |data|, Wrapped(udpSum)));
    assert buf[bufix..bufix + 20] == middle[bufix..bufix + 20];
    assert buf[bufix..next] == buf[bufix..bufix + 20] + buf[bufix + 20..next];
  }

  method SumOf(data: seq<byte>, start: nat) returns (sum: nat)
    ensures sum == Folded(data, 0, start)
  {
    var a := new byte[|data|](i requires 0 <= i < |data| => data[i]);
    assert a[0..|data|] == data;
    sum := Sum(a, 0, |data|, start);
  }

  /** memcpy of a header into the buffer. */
  method Put(buf: array<byte>, at: nat, data: seq<byte>) returns (next: nat)
    requires at + |data| <= buf.Length
    modifies buf
    ensures next == at + |data| && buf[at..next] == data
    ensures forall i :: 0 <= i < buf.Length && !(at <= i < next) ==> buf[i] == old(buf[i])
  {
    next := at + |data|;
    forall i | at <= i < next {
      buf[i] := data[i - at];
    }
  }

  /** decode_udp_ip_header, with the data in the buffer. The checksum field of the UDP header is cleared on the way. */
  method DecodeHeaders(buf: array<byte>, bufix: nat, length: int, local: Option<seq<byte>>) returns (r: Decoded)
    requires bufix + 68 <= buf.Length && bufix + length <= buf.Length
    modifies buf
    ensures r == Decode(old(buf[bufix..]), length, local)
    ensures var n := bufix + 4 * (old(buf[bufix]) % 16) as int;
            forall i :: 0 <= i < buf.Length && i != n + 6 && i != n + 7 ==> buf[i] == old(buf[i])
  {
    var n := 4 * (buf[bufix] % 16) as int;
    var passes := Check(buf, bufix, n, length, local);
    if !passes {
      return Rejected;
    }
    var udp := buf[bufix + n..bufix + n + 8];
    var address := buf[bufix + 12..bufix + 16];
    Window(buf[..], bufix, n, n + 8);
    Window(buf[..], bufix, 12, 16);
    var usum := Host16(udp, 6);
    var sum := SumInPlace(buf, bufix, n, Host16(udp, 4) as int - 8);
    if usum != 0 && usum != Wrapped(sum) {
      return Rejected;
    }
    return Accepted(n + 8, address, udp[..2]);
  }

  /** The tests made before anything is changed. */
  method Check(buf: array<byte>, bufix: nat, n: nat, length: int, local: Option<seq<byte>>) returns (passes: bool)
    requires bufix + 68 <= buf.Length && n == UdpAt(buf[bufix..])
    ensures passes == Passes(buf[bufix..], length, local)
  {
    var udp := buf[bufix + n..bufix + n + 8];
    Window(buf[..], bufix, n, n + 8);
    Window(buf[..], bufix, 0, n);
    if local.Some? && (buf[bufix + 9] != UDP || udp[2..4] != local.value) {
      return false;
    }
    var sum := Sum(buf, bufix, n, 0);
    assert n == 0 ==> buf[bufix..][0..n] == [];
    if Wrapped(sum) != 0 {
      return false;
    }
    return n + Host16(udp, 4) <= length;
  }

  /** Clears the checksum of the UDP header `n` bytes behind `bufix`, and sums the packet up. */
  method SumInPlace(buf: array<byte>, bufix: nat, n: nat, len: int) returns (sum: nat)
    requires bufix + 20 <= buf.Length && bufix + n + 8 <= buf.Length && bufix + n + 8 + len <= buf.Length
    modifies buf
    ensures Wrapped(sum) == Resummed(old(buf[bufix..])[n + 6 := 0][n + 7 := 0], n, len)
    ensures forall i :: 0 <= i < buf.Length && i != bufix + n + 6 && i != bufix + n + 7 ==> buf[i] == old(buf[i])
  {
    buf[bufix + n + 6] := 0;
    buf[bufix + n + 7] := 0;
    assert buf[bufix..] == old(buf[bufix..])[n + 6 := 0][n + 7 := 0];
    sum := SumPacket(buf, bufix, n, len);
  }

  method SumPacket(buf: array<byte>, bufix: nat, n: nat, len: int) returns (sum: nat)
    requires bufix + 20 <= buf.Length && bufix + n + 8 <= buf.Length && bufix + n + 8 + len <= buf.Length
    ensures Wrapped(sum) == Resummed(buf[bufix..], n, len)
  {
    var at := bufix + n;
    Window(buf[..], bufix, 12, 20);
    Window(buf[..], bufix, n, n + 8);
    if len > 0 {
      Window(buf[..], bufix, n + 8, n + 8 + len);
    }
    sum := Sum(buf, bufix + 12, 8, UDP + Host16(buf[at..at + 8], 4));
    sum := Sum(buf, at + 8, len, sum);
    sum := Sum(buf, at, 8, sum);
  }

  lemma {:induction false} Window(s: seq<byte>, from: nat, i: nat, j: nat)
    requires from + j <= |s| && i <= j
    ensures s[from..][i..j] == s[from + i..from + j]
  {
  }
}
