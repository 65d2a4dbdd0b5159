# Proofs about the compressors and the DHCP client

This project models the parts of the repository that transform data or keep state under a protocol, and proves what
they are for.

* **The compressors of `tools/ProgramStore`.** miniLZO (`minilzo.c`), LZRW1/KH (`ProgramStore.cpp`) and the coder of
  NRV2B/NRV2D (`n2b_99.c`). For each format there is an independent definition of what a decoder makes of a stream
  (`LzoFormat.Decode`, `LzrwFormat.Decode`, `NrvFormat.ReadItems`). The compressors are methods over arrays, with the
  loops and the back-patching of the C code, and what they write is proved to decode to what they read. The
  decompressors are proved to compute the definition. Hash functions are parameters: nothing depends on them, neither
  the round trips nor how short a source of equal bytes comes out. `Crc` has the word-buffered CRC of the same tool,
  against division bit by bit, and `CrcErrors` that no change within two successive bytes (CCITT) or four goes
  unnoticed.
* **The DHCP client of `contrib/dhcp/client`.** `DhcpClient.Client` is the client for one interface, with the fields
  and handlers of `dhclient.c`. Clock, random numbers and exit codes of scripts are inputs (`DhcpTimes.Env`). What a
  handler does is a move between states that are values (`DhcpMachine`), and every move is proved to keep the
  invariant `DhcpMachine.Valid`. `DhcpBehaviour` says what the moves come to: which offer is asked for, how long a
  request is repeated and when it is given up. Everything sent is recorded in a ghost log, so that properties of packets
  hold over whole runs.
* **The data structures below it, in `contrib/dhcp/common`.** The sorted lease list with its insertion point, the hash
  tables and the chains of leases with one key, with what superseding a lease does to them, options on the wire and
  which of them fit, the timeout queue, option values built from trees, and the checksums and headers of `packet.c`.

Some things that one might expect hold only under a condition, and the project proves the condition in both directions,
with an input for which they fail:

* A DHCPREQUEST meets Table 4 in section 4.3.6 of RFC 2131, as its receiver reads it, if and only if the lease says
  which server it is from, the options that the table wants find room in the packet when their turn comes, and the
  configuration file does not send option 50 or 54 where the table forbids it
  (`DhcpPackets.RequestMeetsTableFour`). With nothing in the configuration file, a request for an offer meets it exactly
  for server identifiers of 1 to 278 bytes (`DhcpPackets.PlainRequestMeetsTableFour`).
* A client survives a DHCPACK that it hears if and only if the lease time is there (`DhcpClient.Client.DhcpAck`,
  `DhcpClient.AckWithoutTimeCrashes`).
* A packet with a changed word in its IP header is still accepted if and only if the change is made up for, modulo
  65535, by the words that the header gains or loses at its end, and the UDP header found there passes its tests
  (`PacketHeaders.ChangeIsAccepted`). If the header keeps its length, that means that 0x0000 and 0xFFFF have been
  exchanged (`PacketHeaders.ChangeIsNoticed`); if not, it may go unnoticed (`PacketHeaders.LengthChangeCanSlip`).
* `lzo1x_decompress_safe` reads memory behind its input if and only if the input ends inside an opcode, behind the
  length of the opcode, before the output is full (`LzoCheckedDecompressor.DecompressSafe`).
* `last_lease` stays the tail of the lease list, except when the search of `supersede_lease` starts at the tail and
  the tail ends at the same time as the lease that is moved (`LeaseList.LastStaysTail`).
* The retransmission interval of a DHCPDISCOVER is positive for all random numbers if and only if `initial_interval` is
  at least 1 and `backoff_cutoff` at least 2 (`DhcpTimes.BackoffIsPositive`), and the default rebinding time comes out
  before the renewal time for certain huge renewal times on hosts with 32-bit times only (`DhcpTimes.DefaultRebind`).
* The estimate of the cost of a match bounds what coding the match takes, wherever it is and whatever was coded before
  it, if and only if the match is no longer than `max_match` and so coded in one piece
  (`NrvPieces.BoundsIsOnePiece`); at the last offset every longer match costs more (`NrvPieces.PiecesCostMore`), nine
  bytes in pieces of five and four for example (`NrvPieces.NineInPieces`). The program does not get there: it asks for
  no match longer than `max_match`, to which it limits the match finder (`n2b_99.c:406`, `ucl_swd.ch:290`).
* An option stored across a cutoff is cut, so that it does not cross the boundary. But the code and the length of the
  fragment are not counted, and it crosses the boundary if and only if it would have uncut
  (`OptionHunks.CutCrossesToo`), as `OptionHunks.ThreeBytesCross` shows, by two bytes at most
  (`OptionHunks.StopsAtCutoffs`).
* A lease that has been superseded is found under its new identifier if and only if that is shorter than 32 bytes: a
  longer one is moved out of the lease passed in before the test whether there is one to enter
  (`LeaseKeys.FoundAfterwards`, `LeaseKeys.LongUidIsLost`). Under its hardware address, if it has one, it is always
  found. So is what a client gets after any calls when its lease is searched for along the chains in memory
  (`LeaseKeys.Serve`).
* An option value built from a tree is right, whatever the buffer held before, if and only if evaluation itself leaves
  every byte of it (`Tree.RightIsCompleteness`). Without a limit inside another that means that every limit is met
  (`Tree.RightIsLong`); a lookup without an address, limited to four bytes as the parser does, is not
  (`Tree.NoAddressIsStale`).

`dafny verify dfyconfig.toml` checks everything.

## Model

| member | source | states |
|---|---|---|
| RoundTrips.Lzo | tools/ProgramStore/minilzo.c:1576-2344 | Decompressing what the compressor wrote returns LZO_E_OK and the source, byte for byte, for every source, every hash function and whatever the dictionary held before |
| RoundTrips.LzoChecked | tools/ProgramStore/minilzo.c:1821-2845 | The checked decoder does the same with an output limit of exactly the length of the source, and without reading a byte behind the compressed data |
| RoundTrips.LzoAgree | tools/ProgramStore/minilzo.c:1971-2845 | On any input: where the checked decoder finds a complete stream, the unchecked decoder returns the same code and the same bytes |
| LzoCompressor.FindMatch | tools/ProgramStore/minilzo.c:1607-1675 | Whatever the dictionary holds, a match is found if and only if the position in the slot looked at lies before the current one and within M4 range, its three bytes are equal, and a fourth is where the match would otherwise cost what it saves; the second slot is looked at exactly where the first has a position in range that fails only for its fourth byte |
| LzoCompressor.DoCompress | tools/ProgramStore/minilzo.c:1576-1819 | The output of the main loop is the code of blocks of literals and matches that stand for all but the last `left` bytes of the source |
| LzoCompressor.Compress | tools/ProgramStore/minilzo.c:1821-1874 | The stream decodes to the source and ends where the output ends; its length is at most 17/16 of the source and six bytes, for every input, hash function and dictionary; n equal bytes, if more than 18, take at most n/255 + 13 bytes |
| LzoBlocks.StreamDecodes | tools/ProgramStore/minilzo.c:1683-1873 | A stream of blocks of literals and matches, final literals and the end code decodes to what the blocks stand for; in particular literal counts OR-ed into an earlier match do not change how that match is read |
| LzoBlocks.StreamCost | tools/ProgramStore/minilzo.c:1683-1873 | Each match saves at least the header of the literals before it, up to one byte in sixteen |
| LzoEncoding.PatchLeads | tools/ProgramStore/minilzo.c:1686-1709 | One to three literals whose number is patched into the match two bytes back are read as such, however the stream goes on |
| LzoEncoding.MatchLeads | tools/ProgramStore/minilzo.c:1712-1807 | Every match, M2, M3 or M4, is read back with its distance and length, however the stream goes on and whatever is patched into it later |
| LzoEncoding.ReadsShort | tools/ProgramStore/minilzo.c:2084-2344 | The short matches that only other compressors write are read with their distance: three bytes long behind a run of literals, two elsewhere |
| LzoEncoding.EndLeads | tools/ProgramStore/minilzo.c:1866-1870 | The end code is taken for the end, and nothing before it is |
| LzoDecompressor.CopyWords | tools/ProgramStore/minilzo.c:2290-2317 | Copying by words of four bytes where source and target are far enough apart gives the same as byte by byte, also where they overlap |
| LzoDecompressor.Decompress | tools/ProgramStore/minilzo.c:1971-2344 | The unchecked decoder writes exactly what the stream stands for, and its code says whether the stream ends at, before or behind `in_len` |
| LzoCheckedDecompressor.DecompressSafe | tools/ProgramStore/minilzo.c:2365-2845 | On any input and any limit, nothing at or past the limit is written, and the call succeeds if and only if the input holds a complete stream whose output fits, which is then the output; memory behind the input is read if and only if the input ends inside an opcode, behind its length, before the output is full |
| LzoCheckedDecompressor.StreamIsWhole | tools/ProgramStore/minilzo.c:2453-2845 | A complete stream is decoded without reading behind it, whatever the output limit |
| LzoCheckedDecompressor.ShortMatchIsTorn | tools/ProgramStore/minilzo.c:2453-2845 | Four bytes of input that make the decoder read a fifth |
| Overlap.CopyReproduces | tools/ProgramStore/minilzo.c:2290-2317 | A copy from a distance back, overlapping itself or not, reproduces a source that repeats itself at that distance |
| RoundTrips.Lzrw | tools/ProgramStore/ProgramStore.cpp:1193-1464 | Decompression after Compression gives every nonempty source back, for every hash function |
| LzrwCompressor.GetMatch | tools/ProgramStore/ProgramStore.cpp:1146-1189 | The place the table holds for the three bytes, if it is within the last 4095 bytes, is compared as far as it goes, up to 18 bytes, and is a match exactly if 3 of them are equal; otherwise the present place is entered and nothing else changes |
| LzrwCompressor.NextToken | tools/ProgramStore/ProgramStore.cpp:1239-1304 | The token stands for the source bytes it consumes; it is a repeat of the whole run if and only if that has 16 bytes or more, and else the match there is or a literal |
| LzrwCompressor.CommandIsControlWord | tools/ProgramStore/ProgramStore.cpp:1308-1316 | Shifting the command word up by the number of missing flags puts the flags of the last group where a reader looks for them, whatever earlier flags stood above |
| LzrwCompressor.Compression | tools/ProgramStore/ProgramStore.cpp:1193-1333 | The block decodes to the source, and through the stored block it is never more than one byte longer; n equal bytes take at most 6 for every 4095 and 105 more |
| LzrwCompressor.Finish | tools/ProgramStore/ProgramStore.cpp:1312-1331 | The source is stored if and only if packing it takes more bytes than it has; either way the block decodes to the source |
| LzrwBlocks.ReadsItem | tools/ProgramStore/ProgramStore.cpp:1251-1304 | Every literal, repeat and match is read back as what it is: a repeat never looks like a match, nor a match like a repeat |
| LzrwBlocks.BlockDecodes | tools/ProgramStore/ProgramStore.cpp:1338-1464 | A block of full groups and a last group, each behind its control word, decodes to what its tokens stand for |
| LzrwDecompressor.Decompression | tools/ProgramStore/ProgramStore.cpp:1338-1464 | Every block that decodes is decompressed to exactly what it stands for |
| LzrwDecompressor.PutRepeat | tools/ProgramStore/ProgramStore.cpp:1412-1432 | A repeat is put out in full with its size kept in a `short`, which never overflows: a repeat has only twelve bits for its size |
| Crc.ComputeCrc | tools/ProgramStore/ProgramStore.cpp:869-993 | For every length and both polynomials the result is the complement of the register after dividing the message bit by bit, in the low 16 bits for CCITT |
| Crc.WordIsBytes | tools/ProgramStore/ProgramStore.cpp:931-951 | Dividing by a word of several bytes is the same as dividing by its bytes in turn |
| Crc.UpIsDown | tools/ProgramStore/ProgramStore.cpp:936-950 | Looking always at the top bit and shifting the word up visits the bits of a shorter number from its top down |
| Crc.Flush | tools/ProgramStore/ProgramStore.cpp:911-922 | The partial word at the end, moved up and shifted by fewer places, completes the division of the message |
| Crc.PolynomialsAreStandard | tools/ProgramStore/ProgramStore.cpp:893-902 | A bit shifted out of a register that holds nothing else leaves the polynomial of CCITT and that of IEEE 802.3, by their exponents |
| CrcErrors.BurstIsNoticed | tools/ProgramStore/ProgramStore.cpp:869-993 | Two messages of one length that differ only within as many successive bytes as the register has, two or four, have the same checksum if and only if they are the same |
| CrcErrors.StayDifferent | tools/ProgramStore/ProgramStore.cpp:931-951 | Shifting in the same bits never makes different registers equal |
| NrvCodes.ReadsSs11 | tools/ProgramStore/n2b_99.c:90-109 | Every natural number is read back from its ss11 code, whatever follows |
| NrvCodes.Ss11IsPrefixFree | tools/ProgramStore/n2b_99.c:90-109 | No ss11 code is the beginning of another; two sequences that start with ss11 codes agree only if the numbers do |
| NrvCodes.ReadsSs12 | tools/ProgramStore/n2b_99.c:113-133 | Every natural number is read back from its ss12 code, whatever follows |
| NrvCodes.Ss12IsPrefixFree | tools/ProgramStore/n2b_99.c:113-133 | No ss12 code is the beginning of another |
| NrvCoder.Coder.CodePrefixSs11 | tools/ProgramStore/n2b_99.c:90-109 | The loop over masks emits the ss11 code of every number |
| NrvCoder.Coder.CodePrefixSs12 | tools/ProgramStore/n2b_99.c:113-133 | The loops that subtract and divide by four emit the ss12 code of every number |
| NrvCoder.Coder.CodeMatch | tools/ProgramStore/n2b_99.c:137-204 | Any match is coded, split into pieces that add up to it if it is too long; the output stays the code of the items so far, and the counters say how many bytes they stand for |
| NrvCoder.Coder.CodeRun | tools/ProgramStore/n2b_99.c:207-219 | Each byte of the run becomes one literal behind the items so far |
| NrvCoder.Coder.Finish | tools/ProgramStore/n2b_99.c:556-564 | After the end code a reader gets exactly the items that were coded, whatever padding follows |
| NrvFormat.ReadsItem | tools/ProgramStore/n2b_99.c:137-219 | Every literal, match and end code is read back, given the last offset, whatever follows |
| NrvFormat.CodableIsReadable | tools/ProgramStore/n2b_99.c:137-233 | What `len_of_coded_match` refuses is exactly what no code stands for: a match can be coded if and only if a reader gets it from some sequence of bits and bytes |
| NrvFormat.EndIsNoOffset | tools/ProgramStore/n2b_99.c:556-564 | The prefix 0x1000000 that stands for the end is larger than that of any offset in the dictionary |
| NrvFormat.ReadsStream | tools/ProgramStore/n2b_99.c:324-587 | A whole stream of items with the end behind it is read back as it was |
| NrvEstimate.EstimateIsBound | tools/ProgramStore/n2b_99.c:226-268 | What lazy matching takes for the cost of a match is never less than the bits the match really takes up |
| NrvEstimate.EstimateIsClose | tools/ProgramStore/n2b_99.c:226-268 | It is at most six bits more, and at most two at the last offset |
| NrvCoder.Coder.LenOfCodedMatch | tools/ProgramStore/n2b_99.c:226-268 | It refuses exactly the matches that cannot be coded; for all others up to the longest piece it bounds the bits by which coding the match lengthens the output, and at the last offset for no others |
| NrvPieces.OnePieceCosts | tools/ProgramStore/n2b_99.c:137-268 | Coding a match in one piece lengthens any output by no more than the estimate |
| NrvPieces.PiecesCostMore | tools/ProgramStore/n2b_99.c:137-268 | Behind any items, at their last offset, the estimate bounds the cost of a match if and only if the match is coded in one piece; the program asks for no others |
| NrvPieces.BoundsIsOnePiece | tools/ProgramStore/n2b_99.c:137-268 | The estimate bounds the cost of matches of a length at all offsets and behind all items if and only if the length is at most `max_match` |
| NrvPieces.NineInPieces | tools/ProgramStore/n2b_99.c:137-268 | A match of nine bytes that is coded in pieces of five and four takes 12 bits where 11 are estimated, in both formats; an input of the function only, as the match finder is limited to `max_match` |
| DhcpMachine.DiscoveredIsValid | contrib/dhcp/client/dhclient.c:996-1098 | Sending a DHCPDISCOVER leaves one pending `send_discover` that is not past the panic timeout by more than a second, and keeps the rest of the invariant |
| DhcpMachine.RestartedIsValid | contrib/dhcp/client/dhclient.c:379-398 | Starting over leads from any state between handlers to a well-formed SELECTING state |
| DhcpMachine.RequestedIsValid | contrib/dhcp/client/dhclient.c:1201-1354 | Retransmitting a request keeps the invariant, whether it is sent, given up, or the lease has expired |
| DhcpMachine.RenewedIsValid | contrib/dhcp/client/dhclient.c:626-652 | Renewing from BOUND keeps the invariant |
| DhcpMachine.PanickedIsValid | contrib/dhcp/client/dhclient.c:1105-1199 | Panicking leads to BOUND, RENEWING, SELECTING or INIT with the one timeout that belongs to it |
| DhcpMachine.PanicConserves | contrib/dhcp/client/dhclient.c:1105-1199 | The active and recorded leases together are the same multiset before and after panicking |
| DhcpMachine.PanicUsesFirstWorking | contrib/dhcp/client/dhclient.c:1105-1199 | The lease taken into use is the first in the recorded order that is unexpired and passes the script, then BOUND or RENEWING by its renewal time; without one the client sleeps in INIT with a retry timer |
| DhcpMachine.DiscoveryDeadline | contrib/dhcp/client/dhclient.c:996-1098 | For every sequence of random numbers, the timeouts of a client without offers get strictly later and none is set beyond `first_sending + timeout + 1`, so it panics after at most so many |
| DhcpMachine.SelectedIsValid | contrib/dhcp/client/dhclient.c:403-488 | Selecting declines what does not work and leads to a well-formed REQUESTING or SELECTING state |
| DhcpMachine.BoundToIsValid | contrib/dhcp/client/dhclient.c:579-619 | Binding a lease leads to BOUND with `state_bound` pending at its renewal time |
| DhcpMachine.RecordingIsValid | contrib/dhcp/client/dhclient.c:732-856 | Recording an offer for a new address keeps the offers different and leaves one pending `state_selecting` |
| DhcpMachine.RebootedIsValid | contrib/dhcp/client/dhclient.c:342-373 | Starting with or without a remembered lease leads to a well-formed state |
| DhcpMachine.SelectionEnds | contrib/dhcp/client/dhclient.c:800-845 | Selection ends when the configured interval since the first DHCPDISCOVER is over, or now if it is; two seconds are left for an answer to ARP, unless another offer waits and the address is not the one wanted |
| DhcpMachine.GrowsWithEveryRound | contrib/dhcp/client/dhclient.c:1015-1045 | Media are tried in the order of the configuration, round and round, and the interval grows exactly with a DHCPDISCOVER that goes out on the first of them |
| DhcpMachine.GrowsWithoutMedia | contrib/dhcp/client/dhclient.c:1015-1045 | Without media to choose from the interval grows with every DHCPDISCOVER |
| DhcpBehaviour.SecondsAreSent | contrib/dhcp/client/dhclient.c:1077-1340 | Packets say how many seconds ago the first of their kind was sent, at most 65535; a request for an offer says what the last DHCPDISCOVER said |
| DhcpBehaviour.SelectionAsksForFirstFree | contrib/dhcp/client/dhclient.c:403-488 | The last packet sent by a selection is a DHCPREQUEST for the first offer whose address nobody answers for, behind one DHCPDECLINE for each offer before it; it is a DHCPDISCOVER only if there is none |
| DhcpBehaviour.WantedAddressIsAskedFor | contrib/dhcp/client/dhclient.c:812-841 | An offer of the address the client would like to keep is asked for before all others, if it is free |
| DhcpBehaviour.OtherOffersWait | contrib/dhcp/client/dhclient.c:812-841 | Any other offer is asked for only if none before it is free |
| DhcpBehaviour.PanicUsesFirstUsable | contrib/dhcp/client/dhclient.c:1105-1199 | Panicking takes the first recorded lease that has not expired and works: it waits for its renewal time, or asks to renew it at once; only without one does it sleep for the retry interval |
| DhcpBehaviour.PanicTurnsLeases | contrib/dhcp/client/dhclient.c:1105-1199 | The recorded leases are those from the one used on, and then those before it, in their order; where none can be used the first is active unless it is alone |
| DhcpBehaviour.RequestIsRepeatedOrGivenUp | contrib/dhcp/client/dhclient.c:1214-1231 | A request for an offer or for the lease remembered is sent again up to the reboot timeout after the first, and given up, with a DHCPDISCOVER, at the first timeout after it |
| DhcpBehaviour.RequestDeadline | contrib/dhcp/client/dhclient.c:1201-1354 | Over any timeouts of a client whose request for an offer nobody answers: at every one up to the reboot timeout the request goes out once more, and from the first one after it the client is discovering |
| DhcpBehaviour.RenewalIsRepeatedUntilExpiry | contrib/dhcp/client/dhclient.c:1201-1354 | A renewal is asked for at every timeout until the lease has expired, and then discovering starts over |
| DhcpBehaviour.RebootAsksForLease | contrib/dhcp/client/dhclient.c:342-373 | The client starts with a DHCPREQUEST for the lease remembered if and only if that is not a BOOTP one, has not expired and its medium can be had; otherwise with a DHCPDISCOVER |
| DhcpBehaviour.RenewalAsksForLease | contrib/dhcp/client/dhclient.c:626-652 | A bound client whose renewal time has come asks for its lease at once, in the same transaction |
| DhcpBehaviour.FirstWaits | contrib/dhcp/client/dhclient.c:379-487 | The first DHCPDISCOVER and the first DHCPREQUEST for an offer are repeated after one to three times the configured interval, where neither the cutoff nor the panic timeout comes before that |
| DhcpBehaviour.NextRequestIsLater | contrib/dhcp/client/dhclient.c:1274-1354 | The next DHCPREQUEST is due strictly later, and for a lease the client holds at the latest in the second after its expiry |
| DhcpTimes.AckTimesSaturate | contrib/dhcp/client/dhclient.c:528-577 | The expiry, renewal and rebinding times count from now; where times have 32 bits they are cut off at the last one, whatever wraps around on the way, and where they have 64 they are exact |
| DhcpTimes.DefaultRebind | contrib/dhcp/client/dhclient.c:546-577 | The default rebinding time is before the renewal time exactly when times have 32 bits, the server's renewal time looks negative, and seven quarters of it wrap around to a small number |
| DhcpTimes.RebindCanComeFirst | contrib/dhcp/client/dhclient.c:546-577 | A renewal time for which a host with 32-bit times rebinds before it renews |
| DhcpTimes.DiscoverIntervalBounds | contrib/dhcp/client/dhclient.c:1047-1075 | The next DHCPDISCOVER is strictly later and no later than a second past the panic timeout |
| DhcpTimes.BackoffIsPositive | contrib/dhcp/client/dhclient.c:1047-1066 | The interval is positive for every draw of random numbers if and only if the initial interval is at least 1 and the cutoff at least 2 |
| DhcpTimes.ShortCutoffGivesZero | contrib/dhcp/client/dhclient.c:1047-1066 | A cutoff and random numbers for which the interval is zero |
| DhcpTimes.ReadsNumber | contrib/dhcp/common/convert.c:51-58 | Every number written as four bytes, most significant first, is read back, whatever follows it in the option and in memory |
| DhcpTimes.DiscoverBackoffBounds | contrib/dhcp/client/dhclient.c:1047-1066 | Up to the cutoff the interval does not shrink and is less than tripled; past it the interval is drawn from half of the cutoff to one and a half times as much |
| DhcpTimes.RequestBackoffIsPositive | contrib/dhcp/client/dhclient.c:1274-1289 | The interval after a DHCPREQUEST is positive for all random numbers under the same condition |
| DhcpTimes.RequestBackoffBounds | contrib/dhcp/client/dhclient.c:1274-1289 | It is at most less than tripled up to the cutoff; past it, it starts at half of the cutoff but reaches as far again as the interval did, which the cutoff does not bound |
| DhcpTimes.RequestIntervalBounds | contrib/dhcp/client/dhclient.c:1274-1298 | The next DHCPREQUEST is strictly later, and no later than a second after the lease expires |
| DhcpTimes.MediaInTurn | contrib/dhcp/client/dhclient.c:1015-1040 | After any number of failures the medium is the one so many places on in the configuration, from its beginning again |
| DhcpPackets.RequestCarries | contrib/dhcp/client/dhclient.c:1495-1613 | Which server identifier and requested address the receiver of a request reads in each state: the lease's or the configuration file's, if there is room for it when its turn comes |
| DhcpPackets.RequestMeetsTableFour | contrib/dhcp/client/dhclient.c:1201-1613 | A request sent by the client, as its receiver reads it, meets Table 4 in section 4.3.6 of RFC 2131 if and only if its server said who it is, what the table wants finds room, and the configuration file does not send options 50 and 54 where the table forbids them and there is room |
| DhcpPackets.PlainRequestMeetsTableFour | contrib/dhcp/client/dhclient.c:1495-1613 | With nothing in the configuration file, a request for an offer meets the table if and only if the server identifier has 1 to 278 bytes; one of 281 bytes pushes the requested address out |
| DhcpPackets.RunMeetsTableFour | contrib/dhcp/client/dhclient.c:1201-1613 | The same for every request of a whole run; each carries the client's current transaction number, and for an offer that and the seconds are those of the latest DHCPDISCOVER |
| DhcpPackets.ConfigCanBreakTableFour | contrib/dhcp/client/dhclient.c:1495-1613 | A concrete configuration under which every renewal violates the table |
| DhcpPackets.TypesAreRead | contrib/dhcp/client/dhclient.c:1394-1704 | The receiver reads the message type 1, 3 or 4, whatever the configuration file wants sent |
| DhcpPackets.DiscoverCarries | contrib/dhcp/client/dhclient.c:1394-1492 | The receiver of a DHCPDISCOVER reads the address of the lease known exactly when there is room for it, and without one none but that of the configuration file |
| DhcpPackets.DeclineCarries | contrib/dhcp/client/dhclient.c:1615-1704 | The receiver of a DHCPDECLINE reads the address declined and the server declined to, wherever they find room |
| DhcpPackets.BroadcastIsAskedFor | contrib/dhcp/client/dhclient.c:1394-1704 | Everything sent asks for its answer by broadcast exactly where the client has no address yet, wants an answer and is not configured to be reached without one, and names its address exactly where it has one |
| DhcpLeases.TriedOnce | contrib/dhcp/client/dhclient.c:1130-1175 | The script of state_panic runs at most once for each recorded lease |
| DhcpLeases.TriedIsUnexpired | contrib/dhcp/client/dhclient.c:1130-1175 | The script runs for exactly those of them that have not expired, in their order |
| DhcpLeases.TurnedConserves | contrib/dhcp/client/dhclient.c:1130-1190 | Moving heads to the tail, any number of times, loses no lease |
| DhcpLeases.DeclinedIsProper | contrib/dhcp/client/dhclient.c:403-451 | Every offer passed over is declined exactly once, to everyone, in the transaction of the latest DHCPDISCOVER |
| DhcpClient.Client.StateReboot | contrib/dhcp/client/dhclient.c:342-373 | From any recorded leases the client comes to a well-formed state, asking for the active lease unless it is a BOOTP one |
| DhcpClient.Client.StateInit | contrib/dhcp/client/dhclient.c:379-398 | A new transaction is begun and its DHCPDISCOVER sent |
| DhcpClient.Client.StateSelecting | contrib/dhcp/client/dhclient.c:403-488 | The offers before the first free one are declined, that one is asked for or bound at once if it came by BOOTP, and without one discovering starts over; DhcpClient.Client.SelectsFirstFree says so without the search |
| DhcpClient.Client.SelectsFirstFree | contrib/dhcp/client/dhclient.c:403-488 | Whichever addresses are answered for: exactly the offers before the first free one are declined, one by one; that one is bound for 12000 seconds if it came by BOOTP and is asked for otherwise; discovering starts over only if no offer is free |
| DhcpClient.Client.DhcpAck | contrib/dhcp/client/dhclient.c:493-577 | An acknowledgement of the current transaction binds the address given for the time given, and the invariant is kept; any other changes nothing, and only one without a lease time is fatal. The times are the numbers in options 51, 58 and 59, most significant byte first, counted from now |
| DhcpClient.LeaseTimesAsMeant | contrib/dhcp/client/dhclient.c:528-577 | If option 51, 58 or 59 begins with a number of four bytes, most significant first, the lease expires, is renewed or rebound that long from now, cut off at the last 32-bit time on narrow hosts; without option 58 it is renewed after half of its time |
| DhcpClient.Client.AcknowledgementBinds | contrib/dhcp/client/dhclient.c:493-619 | A DHCPACK takes effect exactly while a request is being repeated, in its transaction and on its interface; then the address in it is bound for the times its options mean, and nothing is sent before the renewal time |
| DhcpClient.AckWithoutTimeCrashes | contrib/dhcp/client/dhclient.c:528-538 | An acknowledgement with nothing but its type is fatal in every state that waits for one |
| DhcpClient.Client.BindLease | contrib/dhcp/client/dhclient.c:579-619 | The lease replaces the active one with the medium it was obtained on, and its renewal is set up |
| DhcpClient.Client.StateBound | contrib/dhcp/client/dhclient.c:626-652 | A renewal goes to the server of the active lease, in the same transaction |
| DhcpClient.Client.Receive | contrib/dhcp/common/options.c:608-647 | A reply reaches the handler for its type, or that for BOOTP if its options overrun, unless its sender is rejected; the invariant is kept unless it is a heard DHCPACK without a lease time, and only then the client does not survive |
| DhcpClient.Client.DhcpOffer | contrib/dhcp/client/dhclient.c:732-856 | An offer is recorded exactly when it belongs to the transaction, carries what is required and is for a new address; then the end of the selection is set or has come |
| DhcpClient.Client.OfferIsHeld | contrib/dhcp/client/dhclient.c:732-856 | An offer is held exactly if it comes while selecting, for the transaction and interface, with every option required and for an address no held offer has; then it is among those selected from |
| DhcpClient.Client.DhcpNak | contrib/dhcp/client/dhclient.c:947-990 | A refusal in a state that waits for an answer drops the active lease and starts over, if there is an active lease |
| DhcpClient.Client.RefusalStartsOver | contrib/dhcp/client/dhclient.c:947-990 | A DHCPNAK takes effect exactly while a request is being repeated for it to answer and a lease is active; then that lease is gone and a DHCPDISCOVER of a new transaction goes out at once |
| DhcpClient.Client.SendDiscover | contrib/dhcp/client/dhclient.c:996-1098 | The DHCPDISCOVER is repeated with its interval backed off, or the client panics once the timeout has passed |
| DhcpClient.Client.SelectMedium | contrib/dhcp/client/dhclient.c:1015-1040 | Media are tried in turn until one works; the interval grows only after a pass through all of them |
| DhcpClient.Client.TryLeases | contrib/dhcp/client/dhclient.c:1105-1190 | The search terminates, runs the script for the unexpired leases up to the first that works, and leaves the leases rotated to that one |
| DhcpClient.Client.StatePanic | contrib/dhcp/client/dhclient.c:1105-1199 | The first recorded lease that works is bound or renewed, otherwise the client sleeps, and the scripts run are exactly those tried |
| DhcpClient.Client.SendRequest | contrib/dhcp/client/dhclient.c:1201-1354 | The request is repeated to and from the addresses that the state and the rebinding time call for, or given up after the reboot timeout or the expiry of the lease; which of them comes about when is said by DhcpBehaviour.RequestDeadline and DhcpBehaviour.RenewalIsRepeatedUntilExpiry |
| DhcpClient.Client.MakeDiscover | contrib/dhcp/client/dhclient.c:1394-1492 | The packet asks for the address of the given lease, and remembers that it did |
| DhcpClient.Client.MakeRequest | contrib/dhcp/client/dhclient.c:1495-1613 | The packet identifies lease and server as the state calls for, in the current transaction |
| DhcpClient.Client.MakeDecline | contrib/dhcp/client/dhclient.c:1615-1704 | The packet names the address declined and its server, with the configured client identifier |
| DhcpClient.Client.Expire | contrib/dhcp/common/dispatch.c:554-564 | The one pending handler runs once it is due, and the invariant is kept |
| DhcpClient.Client.Run | contrib/dhcp/client/dhclient.c:342-1354 | Any sequence of packets and timeouts, with any clock and random numbers, keeps the invariant, as long as no DHCPACK lacks its lease time |
| DhcpClient.Live | contrib/dhcp/client/dhclient.c:342-1613 | From any lease file through any events, unless cut short by a DHCPACK without a lease time: one timeout is pending, of the kind the state fixes; REBINDING is never entered; a lease is active in REBOOTING, BOUND and RENEWING. In any case every request ever sent carries the client's transaction number and meets Table 4 exactly when it can |
| LeaseList.PlaceKeepsOrder | contrib/dhcp/common/memory.c:580-635 | From any starting point and in either direction the search finds a place that keeps the list sorted |
| LeaseList.SupersedeConserves | contrib/dhcp/common/memory.c:564-635 | The list has the same leases afterwards |
| LeaseList.LastStaysTail | contrib/dhcp/common/memory.c:564-635 | `last_lease` stays the tail except when the search starts at the tail, which ends at the same time as the lease moved |
| LeaseList.LastCanBeWrong | contrib/dhcp/common/memory.c:564-635 | Two leases after which `last_lease` is not the tail |
| LeaseList.SharedNetwork.Supersede | contrib/dhcp/common/memory.c:564-635 | The links stay inverse and acyclic and the list sorted; the lease goes from its place to the one found, all others keep their order, and the insertion point is on the list |
| LeaseList.SharedNetwork.Unlink | contrib/dhcp/common/memory.c:564-577 | Exactly one lease leaves the list, and `last_lease` follows it if it was the last |
| LeaseList.SharedNetwork.Search | contrib/dhcp/common/memory.c:593-623 | Walking the links stops next to the place that belongs to the ending time |
| LeaseList.SharedNetwork.AddAddress | contrib/dhcp/common/memory.c:258-298 | A new lease is linked in at the head; the list stays sorted if and only if no lease on it has been given out yet |
| LeaseIndex.Index.Find | contrib/dhcp/common/memory.c:689-705 | The first lease added under the key, or none |
| LeaseIndex.Index.Add | contrib/dhcp/common/memory.c:709-799 | The lease joins the end of the chain of its key; all other chains, and the links of all leases outside, are as before |
| LeaseIndex.Index.Delete | contrib/dhcp/common/memory.c:739-841 | The lease leaves its chain, the next one taking its place in the table if it was the head; deleting one that is not there changes nothing |
| LeaseIndex.MinusIs | contrib/dhcp/common/memory.c:739-841 | Deleting takes one lease off the chain of its key and leaves every other chain alone |
| LeaseIndex.Replay | contrib/dhcp/common/memory.c:709-841 | After any sequence of additions and deletions the index finds for every key the leases added and not deleted since, in the order they were added |
| LeaseKeys.Server.Supersede | contrib/dhcp/common/memory.c:463-562 | A lease in use by another client stays as it is; otherwise the new data replaces the old, and the changes to both indexes are those that its keys call for |
| LeaseKeys.RunIsKept | contrib/dhcp/common/memory.c:463-562 | After any calls of `supersede_lease`, nothing has been added to an index twice, and each holds exactly the leases that have a key for it, under that key alone |
| LeaseKeys.FoundAfterwards | contrib/dhcp/common/memory.c:502-562 | From a server's beginning: a lease just superseded is found under its new identifier if and only if that is shorter than `uid_buf`, and under its hardware address if and only if it has one |
| LeaseKeys.LongUidIsLost | contrib/dhcp/common/memory.c:525-557 | A lease is given an identifier of 32 bytes and is not found under it |
| LeaseKeys.InUseStays | contrib/dhcp/common/memory.c:478-500 | After any calls, a lease in use and both indexes stay as they are in a call for another client that is not for an abandoned lease |
| LeaseKeys.LeaseStaysWithClient | contrib/dhcp/common/memory.c:478-500 | Over any further calls made before its end and for other clients, a lease stays with its client, and is found by its key where it was |
| LeaseKeys.OthersCanBeHad | contrib/dhcp/common/memory.c:478-545 | A lease that has expired, is for the same client or is abandoned is never answered with a conflict, and holds the new data afterwards |
| LeaseKeys.StaticOrCorrupt | contrib/dhcp/common/memory.c:471-545 | A static lease changes nothing; the program ends exactly for an identifier of 32 bytes or more that claims to stand in the buffer |
| LeaseKeys.FindOn | contrib/dhcp/server/dhcp.c:1380-1389 | Along the chain from where the hash table leads, the first wanted lease with the key |
| LeaseKeys.Serve | contrib/dhcp/server/dhcp.c:1378-1441 | After any calls from a server's beginning, with the indexes in memory as the calls leave them: a wanted lease is found by identifier if and only if there is one and the identifier is shorter than `uid_buf`, by hardware address if and only if there is one, and what is found is the one entered first |
| HashTable.DoHash | contrib/dhcp/common/hash.c:62-79 | Folding the carries back in makes the hash of a name depend only on the sum of its bytes |
| HashTable.Table.Add | contrib/dhcp/common/hash.c:81-107 | The value comes before those entered earlier under the name; no other name is affected |
| HashTable.Table.Delete | contrib/dhcp/common/hash.c:109-141 | The latest value under the name goes, and uncovers the one before it; no other name is affected |
| HashTable.Table.Lookup | contrib/dhcp/common/hash.c:143-164 | The latest value under the name, found if there is one |
| HashTable.UnderRemoved | contrib/dhcp/common/hash.c:120-137 | Cutting the first entry of a name out of a bucket removes that value alone, also where names share the bucket |
| OptionHunks.RoundTrip | contrib/dhcp/common/options.c:91-427 | Reading what was stored gives for every code the full value, across fragments, if the option was stored, and nothing otherwise |
| OptionHunks.StoreIs | contrib/dhcp/common/options.c:322-427 | Every option is stored entirely or not at all, and once, whatever the cutoffs; nothing is written past the limit |
| OptionHunks.AllKept | contrib/dhcp/common/options.c:322-427 | If the options with two bytes per fragment and two for each cutoff fit the buffer, none is left out |
| OptionHunks.StopsAtCutoffs | contrib/dhcp/common/options.c:384-403 | A fragment that starts before a cutoff ends at most two bytes behind it: those of its code and length, which the code does not count although it says that it goes up to the boundary only |
| OptionHunks.CutCrossesToo | contrib/dhcp/common/options.c:384-403 | So a fragment that starts before a cutoff crosses it if and only if it would have without being cut |
| OptionHunks.ThreeBytesCross | contrib/dhcp/common/options.c:384-403 | An option that is cut and crosses the cutoff all the same |
| OptionHunks.ParseEnds | contrib/dhcp/common/options.c:91-156 | Fragments followed by the end marker or the end of the buffer are valid and read as the options they are of |
| Options.ParseOptionBuffer | contrib/dhcp/common/options.c:91-156 | Any bytes are read as fragments up to the end marker, repeated codes joined, and rejected where one overruns the buffer |
| Options.StoreOptions | contrib/dhcp/common/options.c:322-427 | The buffer holds exactly the fragments of the options that fit, in the order of the priority list, and never more than its limit |
| Options.StoreOption | contrib/dhcp/common/options.c:372-420 | One option is written in fragments, or the buffer is as before |
| Options.ConsOptions | contrib/dhcp/common/options.c:162-273 | The options stored stand between the cookie and the end marker, which always fits, and a receiver that looks at least that far reads them back |
| PacketOptions.Carried | contrib/dhcp/common/options.c:207-273 | A receiver reads exactly the options for which there is room, when their turn in the priority list comes, behind those stored before; each with its full value |
| PacketOptions.KeptWhen | contrib/dhcp/common/options.c:322-427 | An option is stored if and only if it fits behind those before it in the list, counting two bytes for every 255 |
| PacketOptions.UsedIs | contrib/dhcp/common/options.c:322-427 | The room taken is found by adding up lengths alone, without building the packet |
| PacketOptions.Cons | contrib/dhcp/common/options.c:162-273 | The options field the client sends is the cookie, the options that fit, and the end marker |
| Options.ParseOptions | contrib/dhcp/common/options.c:54-85 | Without the cookie nothing is read; the file and sname fields are read when, and only when, the overload option says so |
| Options.OverloadSays | contrib/dhcp/common/options.c:54-85 | Which of the file and sname fields are read, for each value of the overload option, and that neither is without it |
| TimerQueue.AfterIsMap | contrib/dhcp/common/dispatch.c:742-828 | The additions and cancellations of one handler keep the queue sorted with one entry for each handler, and do to it what they do to a map |
| TimerQueue.RanIsMap | contrib/dhcp/common/dispatch.c:554-828 | Any interleaving of additions, cancellations and expiries, whatever the handlers add and cancel, keeps the queue sorted with one entry for each handler, and does to it what it does to a map from handlers to deadlines |
| TimerQueue.FiredIsFirst | contrib/dhcp/common/dispatch.c:554-564 | In any such run an expiry fires if and only if something is due, and then one of those with the least deadline |
| TimerOrder.AfterIsInOrder | contrib/dhcp/common/dispatch.c:742-828 | Whatever has been added and cancelled, of two timeouts with the same deadline the one added first stands first |
| TimerOrder.RanIsInOrder | contrib/dhcp/common/dispatch.c:554-828 | The same in any interleaving with expiries and what their handlers do: of two with the same deadline one stands before the other if and only if it was added before it |
| TimerOrder.FiredIsEarliest | contrib/dhcp/common/dispatch.c:554-564 | The timeout that fires was added before every other one held with its deadline |
| TimerQueue.AddedKeeps | contrib/dhcp/common/dispatch.c:742-802 | Adding keeps the queue sorted and its keys apart |
| TimerQueue.AddedIsUpdate | contrib/dhcp/common/dispatch.c:742-802 | Adding sets one deadline, also of a handler that has one, and no other |
| TimerQueue.AddedIsLast | contrib/dhcp/common/dispatch.c:777-801 | A timeout goes behind all others with its deadline |
| TimerQueue.WithoutIsRemoval | contrib/dhcp/common/dispatch.c:804-828 | Cancelling forgets one deadline and no other |
| TimerQueue.HeadIsFirst | contrib/dhcp/common/dispatch.c:554-564 | The timeout that fires has the least deadline, and the others stay |
| TimerQueue.Queue.AddTimeout | contrib/dhcp/common/dispatch.c:742-802 | The linked list becomes the queue with the timeout added, using the old structure for the handler, a free one or a new one, and stays disjoint from the free list |
| TimerQueue.Queue.CancelTimeout | contrib/dhcp/common/dispatch.c:804-828 | The timeout goes to the free list, and the queue is the one without it |
| TimerQueue.Queue.Expire | contrib/dhcp/common/dispatch.c:554-564 | If the first timeout is due it fires, and the queue is what its handler, which may add and cancel, makes of the rest; otherwise nothing happens |
| TimerQueue.Queue.Run | contrib/dhcp/common/dispatch.c:554-828 | The linked lists go through any interleaving with the pending list sorted, one entry for each handler, disjoint from the free list, and equal to the map |
| Tree.SizeIsLength | contrib/dhcp/common/tree.c:240-282 | Evaluation gets the length of a value right if and only if no outer limited tree is shorter than its limit |
| Tree.HoldsUntilFirstEnd | contrib/dhcp/common/tree.c:240-282 | A value holds until the earliest end among the lookups of its tree, and without a lookup until the last time there is |
| Tree.TreeConcat | contrib/dhcp/common/tree.c:129-169 | Folding constants changes neither the value nor how long it holds |
| Tree.TreeLimit | contrib/dhcp/common/tree.c:171-192 | The value is the front of the tree's value, whether cut at once or later |
| Tree.DataCopy | contrib/dhcp/common/tree.c:394-412 | What fits is copied, the index moves by all there is, and no other byte changes |
| Tree.EvaluateRecurse | contrib/dhcp/common/tree.c:240-282 | In a buffer of any size, exactly the bytes the pieces leave are written, later pieces over earlier ones, and all others stay; the least of the timeouts is returned |
| Tree.RightIsCompleteness | contrib/dhcp/common/tree.c:240-282 | The value is right in every buffer if and only if its length is right and evaluation leaves each byte of it |
| Tree.RightIsLong | contrib/dhcp/common/tree.c:240-282 | Trees whose limits are all met are right; without a limit inside another no other trees are |
| Tree.NoAddressIsStale | contrib/dhcp/server/confpars.c:846-848 | A host lookup without an address, limited to four bytes, gives the four bytes the buffer held before |
| Tree.InnerLimitCanBeUnmet | contrib/dhcp/common/tree.c:268-273 | A limit that is not met does not matter inside one that is |
| Tree.TreeCache.Evaluate | contrib/dhcp/common/tree.c:194-238 | The value is what evaluation makes of the buffer the cache had, or of a new one if it did not fit, with its least timeout; for a right tree it is the flattened value |
| Checksum.FoldedIs | contrib/dhcp/common/packet.c:57-92 | The sum stays within 16 bits, is congruent to the plain sum of words modulo 65535, and is zero only for all zeros |
| Checksum.WordChangeIsNoticed | contrib/dhcp/common/packet.c:57-112 | Changing one word of a sound header leaves it sound if and only if 0x0000 and 0xFFFF are exchanged and the header does not become all zeros |
| PacketHeaders.Sum | contrib/dhcp/common/packet.c:57-92 | The loop adds the words up in one's complement, a byte left over being the high byte of a word |
| PacketHeaders.Assemble | contrib/dhcp/common/packet.c:135-191 | Both headers stand in the buffer with their checksums, and nothing else is touched |
| PacketHeaders.IpHeaderIsSound | contrib/dhcp/common/packet.c:135-169 | An IP header with the complement of its sum filled in passes the test of the receiver |
| PacketHeaders.DecodeHeaders | contrib/dhcp/common/packet.c:213-320 | The packet is accepted or rejected as the headers say, and only the UDP checksum field may change in the buffer |
| PacketHeaders.HeadersAreAccepted | contrib/dhcp/common/packet.c:135-320 | Whatever was assembled is accepted, whatever follows it in the buffer, and gives back the source address and port |
| PacketHeaders.ChangeIsAccepted | contrib/dhcp/common/packet.c:213-320 | An accepted packet is still accepted after a change of one word of its IP header if and only if the change is made up for by the words the header gains or loses at its end, modulo 65535, and the UDP header then found passes its tests |
| PacketHeaders.ChangeIsNoticed | contrib/dhcp/common/packet.c:213-320 | If the header keeps its length, the packet is still accepted if and only if 0x0000 and 0xFFFF have been exchanged; the UDP checksum, which covers the addresses, does not notice that either |
| PacketHeaders.LengthChangeCanSlip | contrib/dhcp/common/packet.c:213-320 | A concrete packet that is accepted, from another port, after its header length has been changed |

## Left out

- LzoCompressor.Compress: the caller's output buffer must hold 17/16 of the input and six bytes, where the C code trusts the n + n/16 + 64 + 3 of its documentation, which is more; the OR of literal counts is written as arithmetic on the two low bits.
- LzoDecompressor.Decompress: run lengths are unbounded, so that a stream whose length counter would overflow `lzo_uint` is not modelled; of the build variants only the byte path with COPY4 is there.
- LzoCheckedDecompressor.DecompressSafe: an empty input is followed by a byte that is at most 17, because the code reads that byte untested; above 17 it goes on into memory that is not modelled. Where the input ends inside an opcode, six bytes of memory behind it are there to be read.
- RoundTrips.LzoAgree: the same.
- LzrwCompressor.Compression: not for an empty source, where the original leaves `SaveY` unset; `CompressFile` refuses empty files. Two readable bytes behind the source, which GetMatch looks at.
- Crc.ComputeCrc: `reverse` is 0, and `unsigned long` is unbounded for the data word, whose upper bits are proved not to matter.
- NrvCoder.Coder.CodeMatch: bits and bytes go to a log in the order a reader asks for them, not into the bit buffer; codes do not wrap around at 32 bits; the statistics in `result[]` are not kept.
- NrvFormat.ReadsStream: the reader is a definition given here, because the decompressors of NRV2B and NRV2D are not part of this model; nor is the match finder.
- DhcpClient.Client.BindLease: leases are immutable objects, and a renewed one is a new object; `server_name`, `filename` and the alias are not kept, nor is the lease file written.
- DhcpClient.Client.DhcpAck: the clock stays before the last 32-bit time on all hosts. An option shorter than four bytes is read with what stands behind it in memory (`Env.stray`), as the code does; the null pointer of a missing lease time ends the run.
- DhcpClient.Client.SelectMedium: an event ends with a medium that works; a configuration of which no medium ever works keeps the original in its loop.
- DhcpClient.Client.SendDiscover: the cutoff must be at least 1, since the original divides by it.
- DhcpClient.Client.Run: one interface; sockets, scripts, daemonising, DHCPRELEASE and all printing are outside, and the header fields that are the same in every packet (`htype`, `hops`, `giaddr`, hardware address) are left out of it.
- DhcpClient.Client.Expire: timeouts are a map from handler to deadline here; that the linked list of dispatch.c is one is proved in TimerQueue.
- LeaseList.SharedNetwork.Supersede: the part before it, which compares the two leases and decides on their keys, is LeaseKeys.Server.Supersede; the lease passed in is not the one on the list.
- LeaseKeys.Server.Supersede: what is done to the indexes is logged, and LeaseIndex.Replay does it in memory (LeaseKeys.Serve); `starts`, `host`, `flags` and the write to the lease file are left out, and the lease passed in has an identifier of its own.
- LeaseIndex.Index.Add: one class stands for both indexes, by uid and by hardware address; a lease that gets another key, which happens only out of the index, goes on as another entry.
- LeaseKeys.FindOn: which leases are wanted (network, flags) is a parameter, and depends on the lease alone; fixed leases of hosts are not modelled.
- LeaseIndex.Replay: no lease is added twice without being deleted in between, which would make a chain a circle; `supersede_lease` never does that (LeaseKeys.RunIsKept).
- HashTable.Table.Add: a bucket is a sequence, so that the links within it are not modelled; names are never empty, where the original would measure them with strlen.
- HashTable.DoHash: a length of zero, which the original takes to mean a C string, is the hash of the empty name.
- Options.StoreOptions: the priority list is a parameter, of codes other than 0 and 255; allocation does not fail.
- Options.ConsOptions: the call the client makes, without overloading: what is split over the file and sname fields is not modelled, and neither is the relay agent's part. Packets are padded to 300 bytes behind the end marker, which changes nothing for a receiver.
- TimerQueue.Queue.Expire: one turn of the loop; polling is outside, and a handler is the sequence of additions and cancellations it makes.
- TimerQueue.Queue.AddTimeout: that the list stays sorted is said of the queue as a value (TimerQueue.AddedKeeps) and of whole runs (TimerQueue.Queue.Run).
- Tree.TreeConcat: trees are values, so that the original's reuse of the left node's memory is not visible; a host lookup is a leaf with a fixed answer.
- PacketHeaders.DecodeHeaders: the data follows the headers in the same buffer, of at least 68 bytes; the counters of bad packets are left out.
- PacketHeaders.HeadersAreAccepted: packets of at most 65535 bytes, the most the length field holds.
- Not modelled: `enter_subnet`, the dangling-lease pass of `new_address_range`, parsing and printing of configuration and lease files, the network back ends: either plumbing or without a property the code keeps.
- Not modelled: the other tools (autossh, the image writers, `tools/config`, LZMA): file handling and fixed layouts.
