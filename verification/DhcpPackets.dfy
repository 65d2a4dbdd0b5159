/**
  * What the DHCP client of contrib/dhcp/client/dhclient.c sends and remembers: leases, the packets that
  * make_discover, make_request and make_decline build, the log of everything sent, and the requirements that
  * Table 4 in section 4.3.6 of RFC 2131 puts on a DHCPREQUEST.
  */
module DhcpPackets {
  import opened Bytes
  import opened OptionValues
  import opened PacketOptions

  type Word = x: int | 0 <= x < 0x1_0000_0000

  type Address = a: seq<byte> | |a| == 4 witness [0, 0, 0, 0]

  const BROADCAST: Address := [255, 255, 255, 255]
  const ANY: Address := [0, 0, 0, 0]

  // Option codes.
  const REQUESTED_ADDRESS: byte := 50
  const LEASE_TIME: byte := 51
  const MESSAGE_TYPE: byte := 53
  const SERVER_IDENTIFIER: byte := 54
  const PARAMETER_REQUEST_LIST: byte := 55
  const MESSAGE: byte := 56
  const RENEWAL_TIME: byte := 58
  const REBINDING_TIME: byte := 59
  const CLIENT_IDENTIFIER: byte := 61

  /** A recorded lease. Leases are compared by identity, as the client compares pointers. */
  class ClientLease {
    const address: Address
    const expiry: int
    const renewal: int
    const rebind: int
    const isBootp: bool
    const medium: seq<string>
    const options: Options

    constructor (address: Address, expiry: int, renewal: int, rebind: int, isBootp: bool, medium: seq<string>,
                 options: Options)
      ensures this.address == address && this.options == options
      ensures this.expiry == expiry && this.renewal == renewal && this.rebind == rebind
      ensures this.isBootp == isBootp && this.medium == medium
    {
      this.address, this.expiry, this.renewal, this.rebind := address, expiry, renewal, rebind;
      this.isBootp, this.medium, this.options := isBootp, medium, options;
    }

    function Server(): seq<byte> { Value(options, SERVER_IDENTIFIER) }
  }

  /** What the configuration file says, and the interface and the host. */
  datatype Config = Config(
    timeout: nat, initialInterval: nat, retryInterval: nat, selectInterval: nat, rebootTimeout: nat,
    backoffCutoff: nat, media: seq<string>, required: seq<byte>, requested: seq<byte>, sendOptions: Options,
    rejected: seq<Address>, hardware: seq<byte>, unicastUnconfigured: bool, wideTime: bool)

  datatype State = Rebooting | Init | Selecting | Requesting | Bound | Renewing | Rebinding

  datatype Kind = Discover | Request | Decline

  /** A packet, with its options field as it goes out. */
  datatype Packet = Packet(kind: Kind, xid: Word, secs: nat, broadcastFlag: bool, ciaddr: Address, field: seq<byte>)
  {
    /** The value of an option, as the receiver reads it. */
    function Option(code: byte): seq<byte> { Value(Received(field), code) }
  }

  /** The options the client fixes itself win over those the configuration file wants sent. */
  function WithConfig(config: Config, fixed: Options): Options { config.sendOptions + fixed }

  function DiscoverOptions(config: Config, lease: ClientLease?): Options {
    WithConfig(config,
      if lease != null then
        map[MESSAGE_TYPE := [1], PARAMETER_REQUEST_LIST := config.requested, REQUESTED_ADDRESS := lease.address]
      else
        map[MESSAGE_TYPE := [1], PARAMETER_REQUEST_LIST := config.requested])
  }

  function DiscoverPacket(config: Config, lease: ClientLease?, xid: Word, secs: nat): Packet {
    Packet(Discover, xid, secs, !config.unicastUnconfigured, ANY, Field(DiscoverOptions(config, lease)))
  }

  /** The options of a DHCPREQUEST made in state `state`. */
  function RequestOptions(config: Config, state: State, lease: ClientLease): Options {
    var all := map[MESSAGE_TYPE := [3], PARAMETER_REQUEST_LIST := config.requested];
    WithConfig(config,
      match state
      case Requesting => all[SERVER_IDENTIFIER := lease.Server()][REQUESTED_ADDRESS := lease.address]
      case Rebooting => all[REQUESTED_ADDRESS := lease.address]
      case _ => all)
  }

  predicate Owns(state: State) { state.Bound? || state.Renewing? || state.Rebinding? }

  function RequestPacket(config: Config, state: State, lease: ClientLease, xid: Word, secs: nat): Packet {
    Packet(Request, xid, secs, !Owns(state) && !config.unicastUnconfigured,
           if Owns(state) then lease.address else ANY, Field(RequestOptions(config, state, lease)))
  }

  function DeclineOptions(config: Config, lease: ClientLease): Options {
    var all := map[MESSAGE_TYPE := [4], SERVER_IDENTIFIER := lease.Server(), REQUESTED_ADDRESS := lease.address];
    if Value(config.sendOptions, CLIENT_IDENTIFIER) != [] then
      all[CLIENT_IDENTIFIER := config.sendOptions[CLIENT_IDENTIFIER]]
    else all
  }

  function DeclinePacket(config: Config, lease: ClientLease, xid: Word): Packet {
    Packet(Decline, xid, 0, false, ANY, Field(DeclineOptions(config, lease)))
  }

  /**
    * One packet handed to the network: the client's state, the time and the client's transaction number; the packet;
    * the lease it was made from; and the addresses it is sent to and from.
    */
  datatype Sending = Sending(
    state: State, now: int, xid: Word, packet: Packet, lease: ClientLease?, to: seq<byte>, from: Address)

  /** Everything sent so far, the latest last. */
  datatype Log = Nothing | After(before: Log, last: Sending)

  /** The latest DHCPDISCOVER in the log. */
  function LastDiscover(log: Log): Option<Packet> {
    match log
    case Nothing => None
    case After(before, last) => if last.packet.kind.Discover? then Some(last.packet) else LastDiscover(before)
  }

  /** Where a DHCPREQUEST goes: the server, when it is known and time T2 has not passed; otherwise everyone. */
  function Target(state: State, now: int, lease: ClientLease): seq<byte> {
    if state.Renewing? && now <= lease.rebind && |lease.Server()| == 4 then lease.Server() else BROADCAST
  }

  /** `e` is what the client's rules send in its current transaction, given the last DHCPDISCOVER before it. */
  ghost predicate Proper(config: Config, e: Sending, discover: Option<Packet>) {
    match e.packet.kind
    case Discover =>
      && e.state.Selecting?
      && e.packet == DiscoverPacket(config, e.lease, e.xid, e.packet.secs)
      && e.to == BROADCAST && e.from == ANY
    case Request =>
      && (e.state.Requesting? || e.state.Rebooting? || e.state.Renewing?)
      && e.lease != null
      && e.packet == RequestPacket(config, e.state, e.lease, e.xid, e.packet.secs)
      && e.to == Target(e.state, e.now, e.lease)
      && e.from == (if e.state.Requesting? then ANY else e.lease.address)
      && (e.state.Requesting? ==>
            discover.Some? && e.xid == discover.value.xid && e.packet.secs == discover.value.secs)
    case Decline =>
      && e.state.Selecting?
      && e.lease != null
      && e.packet == DeclinePacket(config, e.lease, e.xid)
      && e.to == BROADCAST && e.from == ANY
      && discover.Some? && e.xid == discover.value.xid
  }

  ghost predicate AllProper(config: Config, log: Log) {
    match log
    case Nothing => true
    case After(before, last) => AllProper(config, before) && Proper(config, last, LastDiscover(before))
  }

  /**
    * Whatever is sent asks for its answer by broadcast exactly when the client has no address yet, wants an answer, and
    * cannot be reached by unicast then; and it names the client's address exactly when it has one.
    */
  lemma {:induction false} BroadcastIsAskedFor(config: Config, e: Sending, discover: Option<Packet>)
    requires Proper(config, e, discover)
    ensures e.packet.broadcastFlag <==>
              !e.state.Renewing? && !e.packet.kind.Decline? && !config.unicastUnconfigured
    ensures e.packet.ciaddr == if e.state.Renewing? then e.lease.address else ANY
    ensures e.packet.kind.Decline? ==> e.packet.secs == 0
  {
  }

  /**
    * Table 4 in section 4.3.6 of RFC 2131. The client's S_REQUESTING is the table's SELECTING column, and its
    * S_RENEWING is the column RENEWING up to time T2 and the column REBINDING after it.
    */
  ghost predicate TableFour(e: Sending)
    requires e.lease != null
  {
    match e.state
    case Requesting =>
      && e.packet.Option(SERVER_IDENTIFIER) == e.lease.Server() != []
      && e.packet.Option(REQUESTED_ADDRESS) == e.lease.address
      && e.packet.ciaddr == ANY && e.to == BROADCAST
    case Rebooting =>
      && e.packet.Option(SERVER_IDENTIFIER) == []
      && e.packet.Option(REQUESTED_ADDRESS) == e.lease.address
      && e.packet.ciaddr == ANY && e.to == BROADCAST
    case Renewing =>
      && e.packet.Option(SERVER_IDENTIFIER) == [] && e.packet.Option(REQUESTED_ADDRESS) == []
      && e.packet.ciaddr == e.lease.address
      && (if e.now <= e.lease.rebind then e.to == e.lease.Server() else e.to == BROADCAST)
    case _ => false
  }

  // ---- which requests meet the table ----

  /** The server identifier cons_options is given: the lease's, or what the configuration file wants sent. */
  function ServerGiven(config: Config, state: State, lease: ClientLease): seq<byte> {
    if state.Requesting? then lease.Server() else Value(config.sendOptions, SERVER_IDENTIFIER)
  }

  /** The requested address cons_options is given. */
  function AddressGiven(config: Config, state: State, lease: ClientLease): seq<byte> {
    if state.Requesting? || state.Rebooting? then lease.address else Value(config.sendOptions, REQUESTED_ADDRESS)
  }

  /** The bytes that the message type takes up, which is stored first. */
  const TYPE_ROOM: nat := 3

  predicate ServerFits(config: Config, state: State, lease: ClientLease) {
    TYPE_ROOM + Encoded(|ServerGiven(config, state, lease)|) <= ROOM
  }

  /**
    * What is stored before the requested address: the message type, a server identifier, and a lease time and a
    * message if the configuration file wants them sent, each unless it finds no room.
    */
  function BeforeAddress(config: Config, state: State, lease: ClientLease): nat {
    var server := Taken(TYPE_ROOM, |ServerGiven(config, state, lease)|);
    Taken(Taken(server, |Value(config.sendOptions, LEASE_TIME)|), |Value(config.sendOptions, MESSAGE)|)
  }

  predicate AddressFits(config: Config, state: State, lease: ClientLease) {
    BeforeAddress(config, state, lease) + Encoded(|AddressGiven(config, state, lease)|) <= ROOM
  }

  /**
    * When a request meets Table 4: the lease says which server it is from; the options the table wants find room in
    * the packet; and the configuration file does not send one of them, short enough to find room, where the table
    * forbids it.
    */
  predicate CanMeetTableFour(config: Config, state: State, now: int, lease: ClientLease) {
    match state
    case Requesting => lease.Server() != [] && ServerFits(config, state, lease) && AddressFits(config, state, lease)
    case Rebooting =>
      && (Value(config.sendOptions, SERVER_IDENTIFIER) == [] || !ServerFits(config, state, lease))
      && AddressFits(config, state, lease)
    case Renewing =>
      && (Value(config.sendOptions, SERVER_IDENTIFIER) == [] || !ServerFits(config, state, lease))
      && (Value(config.sendOptions, REQUESTED_ADDRESS) == [] || !AddressFits(config, state, lease))
      && (now <= lease.rebind ==> |lease.Server()| == 4)
    case _ => false
  }

  /** The options cons_options is given that come first in its list. */
  lemma {:induction false} GivenFirst(config: Config, state: State, lease: ClientLease)
    ensures var all := RequestOptions(config, state, lease);
            && |Value(all, MESSAGE_TYPE)| == 1
            && Value(all, SERVER_IDENTIFIER) == ServerGiven(config, state, lease)
            && Value(all, LEASE_TIME) == Value(config.sendOptions, LEASE_TIME)
            && Value(all, MESSAGE) == Value(config.sendOptions, MESSAGE)
            && Value(all, REQUESTED_ADDRESS) == AddressGiven(config, state, lease)
  {
  }

  lemma {:induction false} ListedFirst()
    ensures |PRIORITY| > 5 && PRIORITY[..5] == [MESSAGE_TYPE, SERVER_IDENTIFIER, LEASE_TIME, MESSAGE, REQUESTED_ADDRESS]
  {
    assert PRIORITY[..4] == MANDATORY && PRIORITY[4] == NAMED[0];
  }

  /** The bytes taken up when the turn of the server identifier and of the requested address comes. */
  lemma {:induction false} UsedFirst(options: Options, priority: seq<byte>)
    requires |priority| > 5
    requires priority[..5] == [MESSAGE_TYPE, SERVER_IDENTIFIER, LEASE_TIME, MESSAGE, REQUESTED_ADDRESS]
    requires |Value(options, MESSAGE_TYPE)| == 1
    ensures Used(options, priority, 1) == TYPE_ROOM
    ensures Used(options, priority, 4)
         == Taken(Taken(Taken(TYPE_ROOM, |Value(options, SERVER_IDENTIFIER)|), |Value(options, LEASE_TIME)|),
                  |Value(options, MESSAGE)|)
    ensures priority[1] !in priority[..1] && priority[4] !in priority[..4]
  {
    var first := priority[..5];
    assert forall i :: 0 <= i < 5 ==> priority[i] == first[i];
    UsedStep(options, priority, 0, first[0]);
    UsedStep(options, priority, 1, first[1]);
    UsedStep(options, priority, 2, first[2]);
    UsedStep(options, priority, 3, first[3]);
  }

  lemma {:induction false} UsedStep(options: Options, priority: seq<byte>, k: nat, code: byte)
    requires k < |priority| && priority[k] == code && code !in priority[..k]
    ensures Used(options, priority, k + 1) == Taken(Used(options, priority, k), |Value(options, code)|)
  {
  }

  /** The identifying options of a request as its receiver reads them. */
  lemma {:induction false} RequestCarries(config: Config, state: State, lease: ClientLease, xid: Word, secs: nat)
    ensures var p := RequestPacket(config, state, lease, xid, secs);
            && p.Option(SERVER_IDENTIFIER)
               == (if ServerFits(config, state, lease) then ServerGiven(config, state, lease) else [])
            && p.Option(REQUESTED_ADDRESS)
               == (if AddressFits(config, state, lease) then AddressGiven(config, state, lease) else [])
  {
    var all := RequestOptions(config, state, lease);
    GivenFirst(config, state, lease);
    ListedFirst();
    UsedFirst(all, PRIORITY);
    Carried(all, 1);
    Carried(all, 4);
    assert PRIORITY[1] == PRIORITY[..5][1] && PRIORITY[4] == PRIORITY[..5][4];
  }

  /** The message type comes first and is always there. */
  lemma {:induction false} TypeIsRead(options: Options)
    requires |Value(options, MESSAGE_TYPE)| == 1
    ensures Value(Received(Field(options)), MESSAGE_TYPE) == Value(options, MESSAGE_TYPE)
  {
    ListedFirst();
    Carried(options, 0);
    assert PRIORITY[0] == PRIORITY[..5][0];
  }

  /** The receiver of a packet reads the type that section 9.6 of RFC 2132 gives its kind. */
  lemma {:induction false} TypesAreRead(config: Config, state: State, lease: ClientLease, known: ClientLease?,
                                        xid: Word, secs: nat)
    ensures DiscoverPacket(config, known, xid, secs).Option(MESSAGE_TYPE) == [1]
    ensures RequestPacket(config, state, lease, xid, secs).Option(MESSAGE_TYPE) == [3]
    ensures DeclinePacket(config, lease, xid).Option(MESSAGE_TYPE) == [4]
  {
    TypeIsRead(DiscoverOptions(config, known));
    TypeIsRead(RequestOptions(config, state, lease));
    TypeIsRead(DeclineOptions(config, lease));
  }

  /**
    * A DHCPDISCOVER asks for the address of the lease known, if there is room for it behind what the configuration file
    * sends, and without one for the address in the configuration file at most.
    */
  lemma {:induction false} DiscoverCarries(config: Config, known: ClientLease?, xid: Word, secs: nat)
    ensures var p := DiscoverPacket(config, known, xid, secs);
            if known != null then
              p.Option(REQUESTED_ADDRESS) == if AddressFits(config, Rebooting, known) then known.address else []
            else
              Value(config.sendOptions, REQUESTED_ADDRESS) == [] ==> p.Option(REQUESTED_ADDRESS) == []
  {
    var all := DiscoverOptions(config, known);
    ListedFirst();
    UsedFirst(all, PRIORITY);
    Carried(all, 4);
    assert PRIORITY[4] == PRIORITY[..5][4];
  }

  /**
    * A DHCPDECLINE names the address that is declined and the server that offered it, as far as a server identifier of
    * that length leaves room for both.
    */
  lemma {:induction false} DeclineCarries(config: Config, lease: ClientLease, xid: Word)
    ensures var p := DeclinePacket(config, lease, xid);
            && p.xid == xid
            && (TYPE_ROOM + Encoded(|lease.Server()|) <= ROOM ==> p.Option(SERVER_IDENTIFIER) == lease.Server())
            && (|lease.Server()| <= 278 ==>
                  p.Option(SERVER_IDENTIFIER) == lease.Server() && p.Option(REQUESTED_ADDRESS) == lease.address)
  {
    var all := DeclineOptions(config, lease);
    ListedFirst();
    UsedFirst(all, PRIORITY);
    Carried(all, 1);
    Carried(all, 4);
    assert PRIORITY[1] == PRIORITY[..5][1] && PRIORITY[4] == PRIORITY[..5][4];
    RoomForAddress(|lease.Server()|);
    assert Value(all, LEASE_TIME) == [] && Value(all, MESSAGE) == [];
  }

  /** A request sent by the client's rules meets Table 4 exactly when it can. */
  lemma {:induction false} RequestMeetsTableFour(config: Config, e: Sending, discover: Option<Packet>)
    requires e.packet.kind.Request? && Proper(config, e, discover)
    ensures TableFour(e) <==> CanMeetTableFour(config, e.state, e.now, e.lease)
  {
    RequestCarries(config, e.state, e.lease, e.xid, e.packet.secs);
  }

  /**
    * Without options from the configuration file: a request for an offer meets the table if and only if the server's
    * identifier is there and has at most 278 bytes. A longer one leaves no room for the address, or has none itself.
    */
  lemma {:induction false} PlainRequestMeetsTableFour(config: Config, e: Sending, discover: Option<Packet>)
    requires config.sendOptions == map[]
    requires e.packet.kind.Request? && e.state.Requesting? && Proper(config, e, discover)
    ensures TableFour(e) <==> 1 <= |e.lease.Server()| <= 278
    ensures |e.lease.Server()| == 281 ==> e.packet.Option(REQUESTED_ADDRESS) == []
  {
    RequestMeetsTableFour(config, e, discover);
    RequestCarries(config, e.state, e.lease, e.xid, e.packet.secs);
    RoomForAddress(|e.lease.Server()|);
  }

  lemma {:induction false} RoomForAddress(n: nat)
    ensures TYPE_ROOM + Encoded(n) <= ROOM && Taken(TYPE_ROOM, n) + Encoded(4) <= ROOM <==> n <= 278
    ensures n == 281 ==> Taken(TYPE_ROOM, n) + Encoded(4) > ROOM
  {
  }

  // ---- whole runs ----

  /** The number of packets in a log, and its packets in order. */
  function Length(log: Log): nat {
    match log
    case Nothing => 0
    case After(before, last) => 1 + Length(before)
  }

  function Nth(log: Log, i: nat): Sending
    requires i < Length(log)
  {
    if i == Length(log) - 1 then log.last else Nth(log.before, i)
  }

  function Prefix(log: Log, i: nat): Log
    requires i <= Length(log)
  {
    if i == Length(log) then log else Prefix(log.before, i)
  }

  /** A DHCPREQUEST that meets Table 4 exactly when it can, in the client's current transaction. */
  ghost predicate GoodRequest(config: Config, e: Sending) {
    && e.lease != null && e.packet.xid == e.xid
    && (TableFour(e) <==> CanMeetTableFour(config, e.state, e.now, e.lease))
  }

  /**
    * Over a whole run: every DHCPREQUEST ever sent carries the client's transaction number and meets Table 4 exactly
    * when it can; for an offer, the transaction and the seconds are those of the latest DHCPDISCOVER.
    */
  lemma {:induction false} RunMeetsTableFour(config: Config, log: Log, i: nat)
    requires AllProper(config, log) && i < Length(log) && Nth(log, i).packet.kind.Request?
    ensures GoodRequest(config, Nth(log, i))
    ensures var e, d := Nth(log, i), LastDiscover(Prefix(log, i));
            e.state.Requesting? ==> d.Some? && e.xid == d.value.xid && e.packet.secs == d.value.secs
  {
    if i == Length(log) - 1 {
      assert Prefix(log, i) == log.before;
      RequestMeetsTableFour(config, log.last, LastDiscover(log.before));
    } else {
      RunMeetsTableFour(config, log.before, i);
    }
  }

  /**
    * A configuration file that sends option 50 makes every request of a client that is renewing carry a requested
    * address, which the table forbids.
    */
  lemma {:induction false} ConfigCanBreakTableFour(config: Config, e: Sending, discover: Option<Packet>)
    requires config.sendOptions == map[REQUESTED_ADDRESS := [192, 168, 1, 7]]
    requires e.packet.kind.Request? && e.state.Renewing? && Proper(config, e, discover)
    ensures e.packet.Option(REQUESTED_ADDRESS) == [192, 168, 1, 7] && !TableFour(e)
  {
    RequestCarries(config, e.state, e.lease, e.xid, e.packet.secs);
  }
}
