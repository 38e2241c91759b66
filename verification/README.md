# Transparent proxy gateway: a Dafny model

The gateway intercepts TCP, UDP and DNS traffic, redirects TCP connections to a local
proxy by rewriting packets, answers DNS queries over HTTPS, filters names and relays
bytes between client and upstream. This project models its packet arithmetic, its
state machines and its matchers, and proves what they promise for all inputs, all
reachable states and all interleavings.

Verify everything with `dafny verify dfyconfig.toml`.

| module | component |
|---|---|
| `Bytes`, `Common`, `Headers` | big-endian access, fixed widths, shared constants, header parsers |
| `Checksum`, `Rewrite` | one's-complement sums, RFC 1624 updates, in-place NAT rewriting |
| `Fragment4`, `Segment6`, `UdpPackets`, `Sni` | IPv4 fragmentation, IPv6 TCP re-segmentation, UDP packets, ClientHello walk |
| `NatSessions`, `UdpFlow` | the redirector's session table and the UDP flow table over whole histories |
| `Glob`, `RuleIndex` | the two wildcard matchers and the compiled rule index |
| `DnsMessage`, `DnsWire`, `DnsCache`, `Coalesce`, `DnsEngine`, `DnsCalls` | names, queries, error responses, an encoder of messages, TTL cache, singleflight, their composition in one call and in many at once |
| `Pipe`, `PacCache` | the two-pump relay and the PAC decision cache |

Buffers that the program edits in place are arrays, objects whose fields change are
classes, loops are loops; each such method is tied to a function of its input or old
state, and the theorems are about those functions. Concurrent code (`Coalesce`, `Pipe`,
`DnsCalls`, the counters in `DnsCache` and `PacCache`, the evaluations in `PacCache`) is a machine of atomic steps
that interleave freely.

## Where the code does less than one might expect

Each of these is a lemma with the input that shows it and, where there is one, the exact
condition under which the code does meet the property.

- An incremental checksum equals the full one exactly when the new words are not all zero
  (`Checksum.AdjustExact`); IPv4's first byte and the protocol number in the pseudo-header
  rule the bad case out.
- Port 0 means "keep" to the rewriter, so a rewrite can be undone exactly when no port that
  was 0 has been replaced (`Rewrite.RewriteRoundTrip`), and a reply is translated back
  exactly when the destination port was not 0 and the listener is outside 40000-48999 or
  was addressed directly (`NatSessions.ReplyRestored`). Only fallback listen ports are kept
  out of that range (`NatSessions.AcquireListener`).
- Re-segmenting an IPv6 TCP packet preserves the stream exactly when it has no SYN
  (`Segment6.SegmentsPreserveStream`); fragmenting a packet that is itself a fragment loses
  its offset or its MF bit (`Fragment4.RefragmentationExact`).
- Length fields of built UDP packets are cut to 16 bits; they are right exactly up to 65507
  (IPv4) and 65527 bytes (`UdpPackets.Packet4Lengths`), while a DoH answer may have 65535.
- A dot inside a DNS label is lost in the name's text (`DnsWire.DottedLabelCollides`).
- Domain rules take what follows `*.` literally, and so rules with `?` but no `*`; exactly these
  rules miss hosts that they match as patterns (`RuleIndex.ReadingExact`).
- The PAC matcher tests equality before `*`, so it decides globs exactly on subjects
  without a literal `*` (`Glob.GreedyExact`).
- The DNS name parser reads the reserved length bytes 0x40-0xBF as labels, follows forward
  pointers and has no length limit; apart from that it accepts RFC 1035 names
  (`DnsMessage.AcceptedNamesExact`). An error response repeats the questions exactly when
  each name reads alike in it (`DnsMessage.ErrorResponseReparses`), which fails for a name
  that points into the header (`DnsMessage.HeaderPointerLost`).
- A coalescing key is ambiguous exactly as `Coalesce.CoalesceKeyExact` says, which takes a
  colon in a name; a cache key is shared by an IPv4 server and its zero-padded IPv6 twin
  (`DnsCache.CacheKeyExact`).
- A DNS cache purge leaves the count right exactly when nothing is left to count at its last
  step (`DnsCache.PurgeExact`), as when nothing overlaps it (`DnsCache.PurgeAlone`); a
  store in between spoils it (`DnsCache.PurgeOvertaken`).
- UDP flow cleanups read another clock than checks; they show exactly when a check finds a
  flow known that an earlier cleanup found expired (`UdpFlow.CleanupExact`), which one second
  of skew can bring about (`UdpFlow.SkewObservable`).
- The deadline that EOF sets for the other direction can cost it bytes: exactly in which runs,
  `Pipe.DrainExact` says. With an idle timeout it can give up a direction that would have been
  kept (`Pipe.IdleRelayCut`, `Pipe.IdleRelayKept`), though only after the idle timeout's
  silence; a relay without one, as interactive protocols get (internal/proxy/server.go:319-326),
  is cut in mid-stream, and exactly such relays are (`Pipe.CutExact`).
- A PAC resolution overtaken by a configuration update stores the old configuration's
  decision after the purge; `PacCache.HitsAreRecent` says exactly when. A cleanup overtaken by
  an update spoils the size; `PacCache.SizeError` says by how much.

## Model

| member | source | states |
|---|---|---|
| `Checksum.AdjustExact` | internal/interceptor/packet_parser.go:464-500 | the RFC 1624 update of a full checksum is the full checksum of the new words if and only if their sum is not zero |
| `Checksum.AdjustKeepsAcceptance` | internal/interceptor/packet_parser.go:464-500 | whatever the checksum was, the receiver's verdict before and after the update is the same |
| `Checksum.UpdateChecksum16` | internal/interceptor/packet_parser.go:467-473 | the fold loop computes the update by one replaced word |
| `Checksum.UpdateChecksum32` | internal/interceptor/packet_parser.go:476-486 | the same for the two words of an IPv4 address |
| `Checksum.UpdateChecksumIPv6Bytes` | internal/interceptor/packet_parser.go:489-500 | the same for the eight words of an IPv6 address, without 32-bit overflow |
| `Checksum.CalculateIPv4HeaderChecksum` | internal/interceptor/packet_parser.go:884-896 | the loop computes the complement of the folded word sum with the checksum field left out |
| `Checksum.CalculateTCPChecksumIPv6` | internal/interceptor/packet_parser.go:761-785 | the full TCP checksum with pseudo-header, odd lengths included, without 32-bit overflow |
| `Checksum.CalculateUDPChecksumIPv4` | internal/interceptor/packet_parser.go:899-929 | the full UDP checksum, never zero |
| `Checksum.CalculateUDPChecksumIPv6` | internal/interceptor/packet_parser.go:932-963 | the same for IPv6 |
| `Checksum.CsumAccepted` | internal/interceptor/packet_parser.go:884-896 | a full checksum passes the receiver's one's-complement check |
| `Checksum.UdpCsumAccepted` | internal/interceptor/packet_parser.go:899-963 | a UDP checksum, with 0 sent as 0xffff, passes the receiver's check and is never 0 |
| `Checksum.PseudoHeader4` | internal/interceptor/packet_parser.go:899-917 | what is summed before a segment is the pseudo-header of RFC 768, byte for byte |
| `Checksum.PseudoHeader6` | internal/interceptor/packet_parser.go:761-775 | and that of RFC 8200 section 8.1 |
| `Rewrite.RewriteIPv4TCP` | internal/interceptor/packet_parser.go:504-565 | fails exactly on short packets, leaving them alone; otherwise the buffer becomes the rewritten packet |
| `Rewrite.RewriteIPv6TCP` | internal/interceptor/packet_parser.go:569-630 | the same for IPv6, also refusing other versions |
| `Rewrite.RewriteChecksums` | internal/interceptor/packet_parser.go:504-630 | for any combination of new addresses and ports, any options and payload parity: full checksums stay equal to full recomputation, and the receiver's verdict never changes |
| `Rewrite.RewriteFields` | internal/interceptor/packet_parser.go:504-630 | exactly the requested fields change; every other byte but the checksums is kept |
| `Rewrite.RewriteRoundTrip` | internal/interceptor/packet_parser.go:504-630 | rewriting back restores the packet byte for byte if and only if no replaced port was 0 |
| `Rewrite.FamiliesAreProper` | internal/interceptor/packet_parser.go:64-92 | packets that the parsers accept meet what the two theorems above ask |
| `Fragment4.FragmentIPv4` | internal/interceptor/packet_parser.go:634-693 | the loop produces the specified fragments, or the packet itself when it does not split |
| `Fragment4.FragmentsWithinMtu` | internal/interceptor/packet_parser.go:634-660 | for every packet and MTU, what is sent fits the MTU if and only if the packet does or is an IPv4 packet with a whole header, a payload and room for 8 bytes of it; what fits or cannot be split is sent as it is |
| `Fragment4.FragmentsFillMtu` | internal/interceptor/packet_parser.go:653-665 | all fragments but the last are within 8 bytes of the MTU |
| `Fragment4.FragmentReassembly` | internal/interceptor/packet_parser.go:634-693 | fragments placed at their offsets in any order rebuild the original payload, and close the datagram at exactly its length |
| `Fragment4.FragmentsFit` | internal/interceptor/packet_parser.go:634-693 | every fragment is within the MTU, at its 8-aligned contiguous offset (which never reaches the MF bit), with MF on all but the last, a true length and an accepted header checksum; no byte is in two |
| `Fragment4.RefragmentationExact` | internal/interceptor/packet_parser.go:634-693 | the fragments put the receiver where the packet itself would (same bytes, same end) if and only if the packet has offset 0 and no MF |
| `Segment6.FragmentIPv6TCP` | internal/interceptor/packet_parser.go:697-758 | the loop produces the specified segments, or the packet itself when it does not split |
| `Segment6.SegmentsWithinMtu` | internal/interceptor/packet_parser.go:697-720 | for every packet and MTU, what is sent fits the MTU if and only if the packet does or is an IPv6 TCP packet with whole headers, data and room for some; what fits or cannot be split is sent as it is |
| `Segment6.SegmentsFillMtu` | internal/interceptor/packet_parser.go:716-728 | all segments but the last are as long as the MTU |
| `Segment6.SegmentsPreserveStream` | internal/interceptor/packet_parser.go:697-758 | the segments fill the sequence space, modulo 2^32, exactly as the packet does (bytes, SYN and FIN) if and only if it has no SYN |
| `Segment6.SegmentsFit` | internal/interceptor/packet_parser.go:697-758 | each segment is within the MTU, has an accepted checksum and true length, and FIN and PSH only on the last if set originally |
| `UdpPackets.BuildIPv4UDPPacket` | internal/interceptor/packet_parser.go:802-841 | the buffer writes give the specified packet; missing addresses give none |
| `UdpPackets.BuildIPv6UDPPacket` | internal/interceptor/packet_parser.go:844-881 | the same for IPv6 |
| `UdpPackets.Packet4Delivers` | internal/interceptor/packet_parser.go:802-841 | parsing a built packet returns its addresses, ports, payload; both checksums are accepted and the UDP one is not 0 |
| `UdpPackets.Packet4Lengths` | internal/interceptor/packet_parser.go:802-841 | the length fields are right if and only if the payload is within 65507 and 65527 bytes |
| `UdpPackets.Packet4IsWhole` | internal/interceptor/packet_parser.go:812-821 | to the receiver a built packet is a whole datagram, its payload at offset 0 and closed at its length, with DF set and a TTL of 64 |
| `UdpPackets.Packet6Delivers` | internal/interceptor/packet_parser.go:844-881 | the same round trip for IPv6, with its exact length limit |
| `UdpPackets.Packet6Header` | internal/interceptor/packet_parser.go:858-868 | hop limit 64, no traffic class, no flow label |
| `Sni.ExtractTLS_SNI` | internal/interceptor/packet_parser.go:217-327 | the cursor loop, which never indexes out of range, computes the specified walk |
| `Sni.ExtractFindsName` | internal/interceptor/packet_parser.go:217-327 | every encoded ClientHello, of any record version and with entries of other types before the host name, and every truncation or extension of it that still holds the whole server_name extension, yields its host name |
| `Sni.ExtractSound` | internal/interceptor/packet_parser.go:217-327 | a name that is returned is the first host_name of the list in a type-0 extension that stands, after whole extensions, in the hello's extension block |
| `Sni.ExtractPlaced` | internal/interceptor/packet_parser.go:217-284 | by positions in the data: no hello is reported exactly when a part before the extensions is missing or not a ClientHello's; otherwise the walk is over the extension bytes that are there |
| `Sni.ShortServerNameEnds` | internal/interceptor/packet_parser.go:295-300 | a server_name extension too short for a list ends the walk |
| `NatSessions.AcceptKeyAgrees` | internal/interceptor/interceptor.go:45-72 | the accept path's key is the packet path's if and only if the client's IPv6 address is not IPv4-mapped |
| `NatSessions.KeysAreInjective` | internal/interceptor/interceptor.go:45-58 | different clients have different keys, across families too |
| `NatSessions.FlowExact` | internal/interceptor/redirector.go:366-378 | the loop takes exactly the IPv4 and IPv6 TCP packets with whole headers, and reads addresses, ports and flags from their standard positions |
| `NatSessions.SessionsAreLatest` | internal/interceptor/redirector.go:434-495 | in every run a session holds the destination, and non-zero interface, of its client's latest forward packet |
| `NatSessions.SessionRenewed` | internal/interceptor/redirector.go:443-466 | a SYN without ACK or a new destination starts the session anew with the packet's interface; other packets replace the interface only if they have one |
| `NatSessions.NoOwnSessions` | internal/interceptor/redirector.go:390-495 | in every run no session key has a port in 40000-48999 or the proxy's port |
| `NatSessions.LastSeenLag` | internal/interceptor/redirector.go:401-412 | the recorded time is at most one second behind the latest activity, and equal to it for IPv6 |
| `NatSessions.LastSeenNotAhead` | internal/interceptor/redirector.go:401-495 | with a clock that does not go back the recorded time is never ahead of the latest activity |
| `NatSessions.CollectIdle` | internal/interceptor/redirector.go:819-836 | collection removes only sessions idle for more than 24 h - 1 s, and all idle for more than 24 h |
| `NatSessions.SessionSurvives` | internal/interceptor/redirector.go:803-836 | a session outlives every stretch of history without its delete or a long silence |
| `NatSessions.ReplyRestored` | internal/interceptor/redirector.go:401-495 | a reply with the swapped addresses of the packet that was sent to the proxy leaves as original destination to original client, with the exact condition on ports |
| `NatSessions.ForwardFields` | internal/interceptor/redirector.go:482-490 | a redirected packet goes from the client to the listener's port at the target address |
| `NatSessions.ForwardSent` | internal/interceptor/redirector.go:482-494 | a client's packet is given to the driver once, from the client to the listener's port at the listener's address (or the client's own), otherwise unchanged |
| `NatSessions.ReplySent4` | internal/interceptor/redirector.go:401-428 | an IPv4 reply is given to the driver in packets of at most 1500 bytes from the original destination that do at the client what the whole reply would, unless it is longer and was itself a fragment |
| `NatSessions.ReplySent6` | internal/interceptor/redirector.go:607-640 | an IPv6 reply goes out whole, and after a refused send over 1280 bytes in segments of at most 1280 that fill the same sequence space exactly when it is not a SYN |
| `NatSessions.OthersSent` | internal/interceptor/redirector.go:390-399 | what is not TCP, comes from a reserved port or answers no session goes out as it is |
| `NatSessions.LookupFindsDestination` | internal/interceptor/redirector.go:286-301 | the accept path is given the destination of the client's latest forward packet |
| `NatSessions.OutKeepsChecksums` | internal/interceptor/redirector.go:414-490 | forward and reverse NAT keep exact checksums exact, whatever the table holds |
| `NatSessions.OwnConnectionsUntouched` | internal/proxy/dialer_windows.go:40-44 | for every counter value the dialed port is one whose packets are neither recorded nor changed |
| `NatSessions.DialPortsCycle` | internal/proxy/dialer_windows.go:40-44 | the dialed ports lie in 40000-48999, and 9000 consecutive connections have different ones |
| `NatSessions.AcquireListener` | internal/proxy/server.go:47-113 | the first usable candidate is taken; only fallbacks are guaranteed outside the reserved range |
| `NatSessions.Redirector.ProcessPacket` | internal/interceptor/redirector.go:366-495 | one TCP packet: the table and the buffer take the specified step and the split packets are what is sent |
| `NatSessions.Redirector.LookupOriginalDestination` | internal/interceptor/redirector.go:286-301 | answers from the table and refreshes the session |
| `NatSessions.Redirector.DeleteSession` | internal/interceptor/redirector.go:312-317 | removes exactly the client's session |
| `NatSessions.Redirector.CollectSessions` | internal/interceptor/redirector.go:824-836 | the key-by-key loop removes exactly the stale sessions |
| `UdpFlow.CleanupExact` | internal/interceptor/udp_flow.go:75-108 | a run gives the same new/known answers with and without cleanups if and only if no check finds its flow known after some cleanup, since the flow's stamp, found it expired |
| `UdpFlow.CleanupUnobservable` | internal/interceptor/udp_flow.go:75-108 | in particular when no check reads a time before an earlier cleanup's, for any TTL |
| `UdpFlow.SkewObservable` | internal/interceptor/udp_flow.go:75-108 | one second of skew between the clocks makes a cleanup visible |
| `UdpFlow.NewMeansSilence` | internal/interceptor/udp_flow.go:75-94 | in a run that meets the condition of `CleanupExact` a repeated "new" means more than ttl - 4 seconds of silence |
| `UdpFlow.SilenceBoundTight` | internal/interceptor/udp_flow.go:75-94 | that bound cannot be improved |
| `UdpFlow.SilenceMeansNew` | internal/interceptor/udp_flow.go:75-94 | more than ttl seconds of silence always gives "new" |
| `UdpFlow.UDPFlowTable.CheckAndRecord` | internal/interceptor/udp_flow.go:75-94 | the answer is the next one of the run |
| `UdpFlow.UDPFlowTable.Cleanup` | internal/interceptor/udp_flow.go:97-108 | removes exactly the expired flows and counts them |
| `Glob.WildcardMatch` | internal/pac/js_engine.go:308-341 | terminates, never accepts wrongly, and decides the glob relation on subjects without `*` |
| `Glob.GreedyExact` | internal/pac/js_engine.go:308-341 | deciding the glob relation for every pattern is equivalent to the subject having no literal `*` |
| `Glob.MatchWildcard` | internal/filter/engine.go:179-218 | the recursive matcher decides the same glob relation on every subject |
| `RuleIndex.IndexAgrees` | internal/filter/engine.go:33-64 | the compiled index hits a host exactly when a scan of the raw rules, each read as the engine reads it, matches |
| `RuleIndex.ReadingExact` | internal/filter/engine.go:45-64 | a rule is read as it is meant (equal to the host, parent of it, or a glob matching it) on every host without wildcards if and only if no wildcard follows `*.` and, elsewhere, no `?` comes without a `*` |
| `RuleIndex.IndexMeans` | internal/filter/engine.go:33-64 | a hit is always meant by some raw rule; every list drawn from given rules hits exactly the meant hosts if and only if all the rules meet that condition |
| `RuleIndex.StarAfterDotMissed` | internal/filter/engine.go:51-55 | the rule *.a*.com misses x.ab.com, which it matches as a pattern |
| `RuleIndex.QuestionMarkMissed` | internal/filter/engine.go:59-63 | the rule a?.com misses ab.com |
| `RuleIndex.Engine.UpdateRules` | internal/filter/engine.go:33-95 | the engine afterwards holds the compiled form of the given rules and mode |
| `RuleIndex.Engine.MatchHost` | internal/filter/engine.go:149-175 | the set lookups and pattern loop decide an index hit |
| `RuleIndex.Engine.ShouldBlock` | internal/filter/engine.go:98-118 | the verdict is the policy on the engine's reading of the raw rules, and on their meaning when they meet the condition above |
| `RuleIndex.VerdictMeans` | internal/filter/engine.go:98-118 | in any case a blacklist blocks only, and a whitelist lets through only, what the rules mean |
| `RuleIndex.ModesSpelled` | internal/filter/engine.go:98-118 | the modes in any case: none, off, disabled, all and passthrough block nothing, blacklist what matches, all others what does not |
| `RuleIndex.TrimSpelled` | internal/filter/engine.go:46 | rules lose the spaces at both ends, and all of them |
| `RuleIndex.LowerSpelled` | internal/filter/engine.go:46 | exactly A to Z are lower-cased |
| `RuleIndex.TrimDotSpelled` | internal/filter/engine.go:150 | a host loses one final dot |
| `Coalesce.StepKeepsInv` | internal/dns/coalesce.go:39-89 | every atomic step of every thread keeps the protocol invariant |
| `Coalesce.OneFlightPerKey` | internal/dns/coalesce.go:39-89 | in every interleaving at most one fn runs per key |
| `Coalesce.LeaderOwnsItsEntry` | internal/dns/coalesce.go:59-79 | a leader deletes its own entry and no other, and signals once |
| `Coalesce.JoinsLiveFlight` | internal/dns/coalesce.go:42-52 | whoever joins a flight joins a listed one of its own key |
| `Coalesce.RepliesAreTheLeaders` | internal/dns/coalesce.go:42-89 | nobody reads before the write; every reply is its leader's value or error, an error if it panicked |
| `Coalesce.ValuesComeFromFn` | internal/dns/coalesce.go:39-89 | a value comes from the fn of a caller with the same key, one's own if not coalesced |
| `Coalesce.NoWaiterLeftBehind` | internal/dns/coalesce.go:42-79 | a waiter can go on exactly when its leader has finished |
| `Coalesce.NoDeadlock` | internal/dns/coalesce.go:39-89 | while a call is unfinished some thread can step |
| `Coalesce.StepsRunOut` | internal/dns/coalesce.go:39-89 | each step brings its own thread strictly closer to the end and moves no other |
| `Coalesce.EveryCallFinishes` | internal/dns/coalesce.go:39-89 | a run has at most five steps for each call, and when no step is left every call has finished |
| `Coalesce.CoalesceKeyExact` | internal/dns/coalesce.go:29-31 | exactly which questions share a key: equal ones, and those of one type whose server and name run together around different colons |
| `Coalesce.CoalesceKeyInjective` | internal/dns/coalesce.go:29-31 | different questions have different keys when names hold no colon |
| `Coalesce.CoalesceKeyCollides` | internal/dns/coalesce.go:29-31 | server 2001:db8::1 with name 2:x shares a flight with server 2001:db8::1:2 with name x |
| `DnsMessage.ParseDomainName` | internal/dns/parser.go:105-162 | terminates on every input; the result is the specified name, ending after its start and within the data |
| `DnsWire.TextOfName` | internal/dns/parser.go:161 | the text of a name holds its labels in order, in lower case, with a dot before every label but the first |
| `DnsWire.CutTextOfName` | internal/dns/parser.go:161 | cutting it at the dots gives the labels back, if they hold none |
| `DnsWire.TextExact` | internal/dns/parser.go:161 | such names have the same text exactly when they are equal up to case |
| `DnsWire.DottedLabelCollides` | internal/dns/parser.go:161 | a dot inside a label is lost |
| `DnsMessage.ParserDecidesNames` | internal/dns/parser.go:105-162 | accepts exactly what can be read through at most 10 pointers, with its labels |
| `DnsMessage.AcceptedNamesExact` | internal/dns/parser.go:105-162 | an accepted name is one of RFC 1035 (section 4.1.4, and 255 octets of section 2.3.4) if and only if no length byte read is reserved, every pointer read goes back and the length is within bounds; every such name of at most 10 pointers is accepted |
| `DnsMessage.EncodedNameAt` | internal/dns/parser.go:105-162 | every encoded name is an RFC 1035 name without pointers, so it parses back, to its end |
| `DnsMessage.ReservedLengthAccepted` | internal/dns/parser.go:117-159 | a 64-byte label is accepted although the RFC reserves its length byte |
| `DnsMessage.ForwardPointerAccepted` | internal/dns/parser.go:131-148 | a name behind its own pointer is accepted although the RFC asks for a prior occurrence |
| `DnsMessage.ParseQuery` | internal/dns/parser.go:63-102 | the loop computes the specified header and question list, or the error |
| `DnsWire.QueryRoundTrip` | internal/dns/parser.go:63-102 | every encoded query, with anything behind it, is parsed back: header fields, and for every question its name, type and class |
| `DnsWire.PointerRoundTrip` | internal/dns/parser.go:139 | a pointer to any 14-bit position is read as that position |
| `DnsMessage.SkipAgrees` | internal/dns/parser.go:176-199 | the skip loop of error responses ends where the parser ended, for every accepted question section |
| `DnsMessage.BuildErrorResponse` | internal/dns/parser.go:166-220 | the buffer writes give the specified response |
| `DnsMessage.ErrorResponseReparses` | internal/dns/parser.go:166-220 | re-parsing gives the same ID and questions, with zero record counts, if and only if each name reads alike in the response; so when every byte the names are read from is one the response repeats |
| `DnsMessage.RepeatedBytes` | internal/dns/parser.go:201-217 | the response repeats the ID, the question count and the whole question section |
| `DnsMessage.UncompressedQueries` | internal/dns/parser.go:63-102 | uncompressed names are read from the question section alone |
| `DnsMessage.HeaderPointerLost` | internal/dns/parser.go:166-220 | a name that points into the overwritten header makes the response of an accepted query unreadable |
| `DnsMessage.ErrorFlagBits` | internal/dns/parser.go:205-212 | QR is set, RD preserved and RCODE as asked |
| `DnsMessage.ShortErrorResponse` | internal/dns/parser.go:166-173 | too short a query gets a header alone, with QR, RD, RA and the asked RCODE |
| `DnsMessage.ExtractMinTTL` | internal/dns/parser.go:224-277 | the least positive TTL of the answers, or the default |
| `DnsWire.TtlsRoundTrip` | internal/dns/parser.go:224-262 | the TTLs it goes by are those of the encoded answer records, owner names written out or pointing to the question |
| `DnsCache.CacheKeyExact` | internal/dns/cache.go:49-59 | exactly which questions share an entry |
| `DnsCache.Cache.Get` | internal/dns/cache.go:62-83 | a hit exactly for a live entry, with the asker's ID; an expired one is removed |
| `DnsCache.Cache.Set` | internal/dns/cache.go:86-116 | lifetime is the least answer TTL clamped to maxTTL and 5 s, so within every answer's own TTL apart from the floor; a new entry beyond 10000 evicts exactly the expired ones; count kept |
| `DnsCache.Cache.EvictExpired` | internal/dns/cache.go:128-139 | exactly the expired entries go |
| `DnsCache.Cache.Purge` | internal/dns/cache.go:119-125 | nothing is left and the count is 0 |
| `DnsCache.CountExact` | internal/dns/cache.go:62-139 | in every interleaving of lookups, stores, evictions and purges (each a range of deletes and then a store) the counter is off by exactly the entries purges deleted since the last such store, less what that store forgot |
| `DnsCache.CountStaysExact` | internal/dns/cache.go:62-139 | without purges count plus pending adjustments is the number of entries |
| `DnsCache.PurgeExact` | internal/dns/cache.go:119-125 | a purge leaves the balance right if and only if at its store the entries equal the pending additions less the pending removals |
| `DnsCache.PurgeAlone` | internal/dns/cache.go:119-125 | a purge that nothing overlaps empties the cache, balanced if and only if the steps pending before it cancel |
| `DnsCache.PurgeOvertaken` | internal/dns/cache.go:119-125 | a store between the range and the reset leaves one entry counted as none, with nothing pending |
| `DnsEngine.FlightsAreHonest` | internal/dns/engine.go:116-120 | in every interleaving a coalesced call returns upstream's answer to a question with the same flight key |
| `DnsEngine.QuestionOnWire` | internal/dns/engine.go:71-78 | what an encoded query is cached and coalesced under is its first question's dotted lower-case name and its type |
| `DnsEngine.SharedOnWire` | internal/dns/engine.go:101-120 | two encoded queries share a cache entry if and only if name and type agree and the servers are equal or twins |
| `DnsEngine.Engine.ProcessDNSQuery` | internal/dns/engine.go:63-153 | every answer has the query's ID; a blocked name gives the NXDOMAIN echo whatever the cache holds; any other answer is SERVFAIL or, apart from the ID, upstream's answer of this flight or one cached at most max(5 s, maxTTL) ago for the same key; and exactly which of these, or a pass-through, each case gives |
| `DnsEngine.Engine.UpdateConfig` | internal/dns/engine.go:156-181 | the cache stays accounted for; disabling it empties it, otherwise the new limit holds and entries stay |
| `DnsCalls.AnswersAreSourced` | internal/dns/engine.go:101-137 | for any number of calls whose lookups, coalescing steps and stores interleave freely: a cached answer is upstream's for the same key, stored at most max(5 s, maxTTL) before the lookup; any other is the outcome of the call's flight |
| `DnsCalls.LogIsHistory` | internal/dns/engine.go:134-137 | every such store was made by a call of the history, at that time |
| `Pipe.DeliveredIsPrefix` | internal/proxy/forwarder.go:292-520 | in every interleaving each side got a prefix of buffered bytes and peer stream, the counter is its length, a clean EOF delivered everything |
| `Pipe.ClosedOnlyByFailure` | internal/proxy/forwarder.go:375-409 | before the end both connections close together, exactly after a failure |
| `Pipe.DrainExact` | internal/proxy/forwarder.go:397-406 | for every relay, with or without idle timeout, and every run: the deadline that EOF sets changes no later state if and only if no read of the other direction comes between it and the deadline its own pump has set |
| `Pipe.CutExact` | internal/proxy/forwarder.go:390-406 | some run gives up a direction with bytes to come, other than for the idle timeout's silence, if and only if there is no idle timeout and not everything was buffered |
| `Pipe.RetryRearms` | internal/proxy/forwarder.go:349-357 | with an idle timeout a read that timed out early, by the drain deadline or not, is retried with the full idle timeout ahead |
| `Pipe.TimeoutVerdict` | internal/proxy/forwarder.go:390-396 | a timed-out read gives its direction up exactly when nothing came for the idle timeout |
| `Pipe.ReadsArm` | internal/proxy/forwarder.go:349-372 | a start and incoming bytes set the read deadline, not more often than the interval |
| `Pipe.IntervalSpelled` | internal/proxy/forwarder.go:300-311 | that interval, for every idle timeout |
| `Pipe.EofLeavesDeadline` | internal/proxy/forwarder.go:397-406 | EOF leaves the other direction the idle timeout, but at most a minute, and a minute if there is none |
| `Pipe.IdleMeansSilence` | internal/proxy/forwarder.go:390-396 | with an idle timeout a direction is given up only when neither direction brought a byte for it |
| `Pipe.PermanentRelayCut` | internal/proxy/forwarder.go:390-406 | one nanosecond after a byte has come, the drain deadline of the other direction's EOF loses the rest of any stream |
| `Pipe.IdleRelayCut` | internal/proxy/forwarder.go:390-406 | with a two-minute idle timeout, a byte at 29 s and EOF at 100 s: the other direction is given up at 160 s |
| `Pipe.IdleRelayKept` | internal/proxy/forwarder.go:349-357 | without that deadline it goes on, and a byte at 200 s is delivered |
| `PacCache.SizeIsExact` | internal/pac/resolver.go:346-363 | when each store, update and cleanup is one step, cacheSize is the number of entries and at most 2000 in every state of every run |
| `PacCache.SizeError` | internal/pac/resolver.go:346-363 | in every interleaving of the single operations of stores, updates and cleanups the size is off by exactly what these found missing or extra since the last reset, less what that reset forgot |
| `PacCache.CleanupOvertaken` | internal/pac/resolver.go:266-273 | a cleanup overtaken by an update leaves the size of the empty cache at -1 |
| `PacCache.HitsAreRecent` | internal/pac/resolver.go:166-242 | a cached answer is the script's for that URL, at most 10 min (1 min after an error) old, stored by a resolution that the history shows, and of the present configuration if and only if no update came since that resolution read it |
| `PacCache.StaleWasUnderway` | internal/pac/resolver.go:134-138 | an answer of an old configuration comes from a resolution of that URL that was under way at the last update |
| `PacCache.StaleAfterUpdate` | internal/pac/resolver.go:134-138 | an evaluation overtaken by an update is served after it |
| `PacCache.StaleBeforeLookup` | internal/pac/resolver.go:167-172 | so is one whose configuration was read before the update and whose lookup came after |
| `PacCache.Resolver.StoreCache` | internal/pac/resolver.go:346-363 | stores, clearing everything first when the bound would be passed |
| `PacCache.StoredKeeps` | internal/pac/resolver.go:346-363 | a store keeps all other entries, unless it is new and 2000 are there: then it is alone; it is served until its time |
| `PacCache.SweptSpelled` | internal/pac/resolver.go:266-273 | a cleanup takes the entries past their time and no other |
| `PacCache.Resolver.Cleanup` | internal/pac/resolver.go:266-273 | the loop removes exactly the expired entries and adjusts the size |

## Left out

- WinDivert, SSPI, WinHTTP, TCP tables, netsh and iptables: foreign calls; the driver's own checksum pass after a rewrite is not modelled either, it would change nothing on exact checksums.
- Dry-run mode, QUIC drop and the DNS hand-off of the packet loop: only the TCP branches touch the session table.
- Races between packet workers inside one packet's load-then-store: a packet is one step.
- `fallbackScanSNI`, HTTP host extraction and banner detection: heuristics; the walk's hand-over to the scan is kept as the result `Scan`.
- IP and CIDR rules, `net.ParseIP` and `SplitHostPort`: addresses are byte strings, and the verdict of the IP rules is a parameter.
- Lower-casing and trimming are ASCII only, and strings are sequences of characters where Go indexes bytes; the two agree on ASCII.
- Choice of the DNS target (replacement of private and loopback servers), the capability probe and the DoH transport: parameters of `ProcessDNSQuery`.
- DnsEngine.Engine.ProcessDNSQuery: one call is one step; what holds of many calls at once is stated by `DnsCalls`, for a fixed cache limit and without the filter and the parsing, which share no state.
- DnsMessage.ErrorResponseReparses: exact in terms of the names; the condition in terms of bytes is sufficient only, since names that point into the header may survive by chance.
- The URG pointer of re-segmented TCP packets is copied as the code does, and nothing is claimed about it.
- `Pipe`: liveness, panics inside a pump, buffer pooling, write deadlines and deadlines left over from the handshake; a read is served at one instant, so past its deadline a connection only times out.
- `PacCache`: where decisions come from is stated for stores and updates as one step each, the size also for their single operations; static-proxy mode, `parseFirstProxy` and `normalizeProxyURL` are left out.
- One round of the session collector is one step of the session machine, where the program ranges over the table with a load and a delete for each key.
- Conversion of a cache limit beyond 2^32 seconds: taken modulo 2^32, where Go leaves the float conversion to the platform.
- No capacity bound for the DNS cache: the code only evicts expired entries, so none holds.
- goja, HTTP and TLS clients, configuration loading, logging and the command line.
