# Packet-carrying core: models and proofs

A Dafny model of the code that carries packets: the fake-address DNS table, the ring buffer and the TCP splice of the
tunnel, the DNS router and its probe protocol, and the stream disguises of the client. `dafny verify dfyconfig.toml`
checks everything.

**Mapped DNS** (`HevList`, `NameTree`, `LruModel`, `MappedDns`, `MappedDnsReply`, `MappedDnsHandle`,
`MappedDnsPromises`, `DnsWire`, `MappedDnsWire`). The table hands out addresses for names and maps them back. It is kept
in four views: a search tree, a list by recency, an array by index and a counter. The class works on linked heap nodes
as the C code does; every method is tied to an abstract LRU table, and what the table promises is proved about runs of
that table. `Handle` rewrites request and reply arrays in place and is tied to a description of the reply in terms of
the request; `MappedDnsWire` says which questions that description sees in the bytes of a request.

**Ring buffer and splice** (`RingBuffer`, `TcpSplice`). Bytes are written, handed to lwIP by reference, and released by
acknowledgements. Three adjacent windows of cells stand for the three phases; the splice carries ghost histories of
bytes received, cells handed over and bytes acknowledged. Its invariant holds after every method, so in any
interleaving of socket reads, pushes and acknowledgements.

**Session set** (`SessionSet`). The session list follows from the history of insertions, updates and deletions.

**DNS router** (`RouterBackend`, `RouterRuns`, `DomainRoutes`). The class is one connection used by one goroutine at a
time. `RouterRuns` is a state machine over the atomic steps of any number of goroutines, with an unbounded ghost counter
behind the 16-bit ids. `DomainRoutes` holds the two ways a name is matched to a route.

**Probe protocol** (`DnsText`, `DnsNames`, `Base32`, `TxtRecord`, `ProbeServer`, `ProbeClient`, `ProbePromises`,
`ProbeWire`, `RealismProbe`). Both ends, byte for byte. HMAC is any function with a 32-byte result; random numbers are
parameters.

**Streams** (`WsFrame`, `WsStream`, `Checksum`, `IcmpReject`, `SniSplit`). WebSocket frames between client and server,
the Internet checksum of the ICMP rejections, and the splitting of the ClientHello inside its server name. `Connection`
holds what they are sent over: any write may fail after some of its bytes.

`Bits`, `Sequences` and `Options` are shared definitions.

Where the code is worth a remark:

- The answer pointer of the DNS reply is cut to one byte, so `ReplyAnswer` states when it still points at its question.
- The route label loop of `findVerifyRoute` accepts proper subdomains only, while `findBackend` also takes the name
  itself; the agreement is therefore stated for proper subdomains, with the exact match in `FindBackend`.
- `testTunnelRealism` reserves ten bytes but needs nine: `WithinBudget` gives the exact bound.
- `handleVerify` does not limit a size taken from an EDNS record, where a client's wish above 4096 bytes also stands:
  `AnsweredIff` and `ClientAnsweredIff` give the exact condition for an answer, `OversizeStops` a query without one.
- An address given in a reply may be taken away again by a later question of the same request: `AnswersResolve` gives the
  exact condition, `TwoNamesOneSlot` such a request.
- After a refused `tcp_write` the bytes count as handed over in the ring buffer but are never acknowledged, so the drain
  loop cannot end by its zero test: see `Drained`.
- `wsToTCP` sends the pong to the TCP side: `OutputsAreData` gives the exact condition for a faithful stream.
- `hev_mapped_dns_lookup` does not compare the network part of an address; nothing is said of foreign addresses.

## Model

| member | source | states |
|---|---|---|
| `HevList.List.AddTail` | app/src/main/cpp/hev-socks5-tunnel-src/src/misc/hev-list.c:14-25 | on the doubly linked nodes, appends to the abstract sequence; next and prev links mirror each other afterwards, as Valid demands |
| `HevList.List.Del` | app/src/main/cpp/hev-socks5-tunnel-src/src/misc/hev-list.c:27-39 | removes exactly the node from the abstract sequence, wherever it stands, links mirrored afterwards |
| `NameTree.InsertOrdered` | app/src/main/cpp/hev-socks5-tunnel-src/src/hev-mapped-dns.c:105-128 | linking a new name where the search by strcmp ended keeps the tree ordered and adds just that node |
| `NameTree.EraseOrdered` | app/src/main/cpp/hev-socks5-tunnel-src/src/hev-mapped-dns.c:141-141 | erasing a node keeps the order and removes just that node |
| `NameTree.StrCmpTransitive` | app/src/main/cpp/hev-socks5-tunnel-src/src/hev-mapped-dns.c:109-109 | the byte order of C strings is transitive, on which the search rests |
| `MappedDns.MappedDns.Find` | app/src/main/cpp/hev-socks5-tunnel-src/src/hev-mapped-dns.c:98-150 | the linked implementation refines one step of the abstract table, allocation failure included; tree, recency list, records and use stay in agreement (Valid) |
| `MappedDns.MappedDns.Lookup` | app/src/main/cpp/hev-socks5-tunnel-src/src/hev-mapped-dns.c:253-271 | refines the abstract lookup: the name that owns the index, moved to the back of the recency list; nothing for a free or out-of-range index |
| `MappedDns.AddressIsSum` | app/src/main/cpp/hev-socks5-tunnel-src/src/hev-mapped-dns.c:224-224 | in a network without host bits the address of an index is the network plus the index |
| `MappedDns.MappedDns.Search` | app/src/main/cpp/hev-socks5-tunnel-src/src/hev-mapped-dns.c:105-121 | the walk down the tree finds a node exactly when its name is on the list |
| `MappedDns.MappedDns.Append` | app/src/main/cpp/hev-socks5-tunnel-src/src/hev-mapped-dns.c:127-132 | a miss with room gives the new node the next index and leaves all others |
| `MappedDns.MappedDns.Replace` | app/src/main/cpp/hev-socks5-tunnel-src/src/hev-mapped-dns.c:127-149 | a miss on a full table takes the index and the place of the first list node in all four views |
| `MappedDns.New` | app/src/main/cpp/hev-socks5-tunnel-src/src/hev-mapped-dns.c:44-63 | construction succeeds exactly when there is memory and max fits the host mask, and starts with an empty table |
| `LruModel.StepConsistent` | app/src/main/cpp/hev-socks5-tunnel-src/src/hev-mapped-dns.c:98-150 | every step keeps distinct names, one index for each, and no more of them than max |
| `LruModel.MissEvictsOldest` | app/src/main/cpp/hev-socks5-tunnel-src/src/hev-mapped-dns.c:133-149 | a miss on a full table forgets the least recently touched name alone, and only its slot changes hands |
| `LruModel.RunIsMostRecent` | app/src/main/cpp/hev-socks5-tunnel-src/src/hev-mapped-dns.c:98-150 | after any run of finds and lookups the table holds exactly the max most recently touched distinct names of the history, oldest first |
| `LruModel.ResidentIffRecent` | app/src/main/cpp/hev-socks5-tunnel-src/src/hev-mapped-dns.c:98-150 | a name is resident after any run if and only if fewer than max distinct names were touched since its last touch |
| `LruModel.IndexIsSticky` | app/src/main/cpp/hev-socks5-tunnel-src/src/hev-mapped-dns.c:98-150 | a name keeps its index through any run in which it stays recent: at every moment fewer than max distinct names were touched since its last touch, however many others come and go |
| `LruModel.FoundNameResolves` | app/src/main/cpp/hev-socks5-tunnel-src/src/hev-mapped-dns.c:253-271 | the index a find gave looks up to that name after any run in which the name stays recent |
| `LruModel.FewOthersResolve` | app/src/main/cpp/hev-socks5-tunnel-src/src/hev-mapped-dns.c:253-271 | so it does after any run that touches fewer than max other names |
| `MappedDns.AddressesResolve` | app/src/main/cpp/hev-socks5-tunnel-src/src/hev-mapped-dns.c:224-224 | or-ing an index into the network and masking it out again are inverse for every index below max, if and only if the network has no host bits (host mask of the form 2^k - 1) |
| `MappedDns.FoundAddressResolves` | app/src/main/cpp/hev-socks5-tunnel-src/src/hev-mapped-dns.c:253-271 | the same for addresses: an address given to a name looks up to it while it stays recent, so through any calls that touch fewer than max others |
| `MappedDnsHandle.Handle` | app/src/main/cpp/hev-socks5-tunnel-src/src/hev-mapped-dns.c:174-251 | rewriting both buffers in place, the reply bytes and the new table are those of the specification Outcome on what the buffers held, also for a request shorter than its header |
| `MappedDnsHandle.WalkName` | app/src/main/cpp/hev-socks5-tunnel-src/src/hev-mapped-dns.c:203-216 | turning length bytes into dots in place leaves the dotted name behind, and fails exactly where a label overruns the request |
| `MappedDnsHandle.ReadQuestions` | app/src/main/cpp/hev-socks5-tunnel-src/src/hev-mapped-dns.c:201-230 | the question loop resolves exactly the A/IN questions of the untouched request, in order, although it has overwritten the earlier ones |
| `MappedDnsWire.QuestionOnWire` | app/src/main/cpp/hev-socks5-tunnel-src/src/hev-mapped-dns.c:203-219 | a question written as labels, zero, type and class is read with exactly these labels, ends five bytes past them, and is resolved if and only if type and class are both 1 (section 4.1.2 of RFC 1035) |
| `MappedDnsWire.QuestionsOnWire` | app/src/main/cpp/hev-socks5-tunnel-src/src/hev-mapped-dns.c:201-230 | the same for any number of questions, one behind the other |
| `MappedDnsPromises.FlagsMeaning` | app/src/main/cpp/hev-socks5-tunnel-src/src/hev-mapped-dns.c:247-247 | the flag arithmetic sets QR, copies RD to RA and changes no other bit |
| `MappedDnsPromises.ReplyHeader` | app/src/main/cpp/hev-socks5-tunnel-src/src/hev-mapped-dns.c:191-196 | id and question count kept, ANCOUNT is the number of answers, NSCOUNT and ARCOUNT zero, question section byte for byte (section 4.1.1 of RFC 1035) |
| `MappedDnsPromises.ReplyAnswer` | app/src/main/cpp/hev-socks5-tunnel-src/src/hev-mapped-dns.c:236-244 | fields of each 16-byte answer; its pointer reaches its own question if and only if that starts within the first 256 bytes |
| `MappedDnsPromises.NameWhole` | app/src/main/cpp/hev-socks5-tunnel-src/src/hev-mapped-dns.c:222-222 | the C string taken from the rewritten request is the whole dotted name of the question if and only if no label holds a NUL byte |
| `MappedDnsPromises.AnswersResolve` | app/src/main/cpp/hev-socks5-tunnel-src/src/hev-mapped-dns.c:219-227 | whatever allocations fail, every answered address looks up to its question name after the whole request if and only if the distinct names answered are at most max |
| `MappedDnsPromises.TwoNamesOneSlot` | app/src/main/cpp/hev-socks5-tunnel-src/src/hev-mapped-dns.c:133-146 | a failing input: two names and a table for one, where the first address leads to the second name |
| `MappedDnsPromises.ReplyPromise` | app/src/main/cpp/hev-socks5-tunnel-src/src/hev-mapped-dns.c:174-251 | all of it together for every request that gets a reply, with the same exact condition for its addresses |
| `MappedDnsWire.RequestAnswered` | app/src/main/cpp/hev-socks5-tunnel-src/src/hev-mapped-dns.c:174-251 | with memory, a request of any well-formed questions is answered if and only if they are at most 32 and the reply has room; ANCOUNT is then the number of those with type and class 1, and all of them stand in the reply |
| `MappedDnsWire.OneAskAnswered` | app/src/main/cpp/hev-socks5-tunnel-src/src/hev-mapped-dns.c:219-226 | one A/IN question gets one address, which looks up to the name asked for; any other type or class gets none, and the table stays |
| `SessionSet.SessionSet.Insert` | app/src/main/cpp/hev-socks5-tunnel-src/src/hev-socks5-tunnel.c:115-131 | appends, counts, and names the first session for termination exactly when a limit is set and reached |
| `SessionSet.SessionSet.Delete` | app/src/main/cpp/hev-socks5-tunnel-src/src/hev-socks5-tunnel.c:133-138 | the list stays the live sessions by age, and the count its length |
| `SessionSet.SessionSet.Update` | app/src/main/cpp/hev-socks5-tunnel-src/src/hev-socks5-tunnel.c:140-151 | moves to the back when a limit is set, else nothing |
| `SessionSet.ByAgeIsLive` | app/src/main/cpp/hev-socks5-tunnel-src/src/hev-socks5-tunnel.c:115-151 | over any history the list holds exactly the live sessions, once each |
| `SessionSet.TerminatedIsOldest` | app/src/main/cpp/hev-socks5-tunnel-src/src/hev-socks5-tunnel.c:128-130 | the session chosen for termination is the one whose last insertion or update lies furthest back in the history |
| `RingBuffer.RingBuffer.Partition` | app/src/main/cpp/hev-socks5-tunnel-src/src/misc/hev-ring-buffer.c:64-85 | the cells offered for writing are exactly those that hold neither an unread nor an in-flight byte |
| `RingBuffer.RingBuffer.WriteIndex` | app/src/main/cpp/hev-socks5-tunnel-src/src/misc/hev-ring-buffer.c:87-93 | rda_size <= use_size <= max_size and wp == (rp + rda_size) mod max_size in every reachable state, across the reset to zero |
| `RingBuffer.RingBuffer.Reading` | app/src/main/cpp/hev-socks5-tunnel-src/src/misc/hev-ring-buffer.c:25-45 | one or two stretches that are the unread cells in order |
| `RingBuffer.RingBuffer.Writing` | app/src/main/cpp/hev-socks5-tunnel-src/src/misc/hev-ring-buffer.c:64-85 | one or two stretches that are the free cells in order |
| `RingBuffer.RingBuffer.ReadFinish` | app/src/main/cpp/hev-socks5-tunnel-src/src/misc/hev-ring-buffer.c:47-52 | moves the first bytes from unread to in flight, without moving or changing a byte |
| `RingBuffer.RingBuffer.ReadRelease` | app/src/main/cpp/hev-socks5-tunnel-src/src/misc/hev-ring-buffer.c:54-62 | drops the oldest in-flight bytes and nothing else, the reset to zero included |
| `RingBuffer.RingBuffer.WriteFinish` | app/src/main/cpp/hev-socks5-tunnel-src/src/misc/hev-ring-buffer.c:87-93 | appends what stands in the first free cells to the unread bytes; in-flight cells stay |
| `TcpSplice.TcpSplice.SpliceBackward` | app/src/main/cpp/hev-socks5-tunnel-src/src/hev-socks5-session-tcp.c:85-131 | reads, hands on and reports: 1 if and only if there was something to hand on, no tcp_write refused it and tcp_output succeeded, 0 if and only if the connection lives and there was nothing, otherwise -1; what was handed over only grows and, unless a stretch was refused (which is told exactly), is everything received, in order; use_size stays received minus acked |
| `TcpSplice.TcpSplice.Sent` | app/src/main/cpp/hev-socks5-tunnel-src/src/hev-socks5-session-tcp.c:154-163 | an acknowledgement advances the released prefix by its length, after a refused tcp_write too |
| `TcpSplice.TcpSplice.HandedUnchanged` | app/src/main/cpp/hev-socks5-tunnel-src/src/hev-socks5-session-tcp.c:85-131 | in every state of any interleaving, each cell lwIP still refers to holds the byte the socket delivered at that place of the stream |
| `TcpSplice.TcpSplice.Drained` | app/src/main/cpp/hev-socks5-tunnel-src/src/hev-socks5-session-tcp.c:255-261 | the zero test of the drain loop means exactly that every received byte was handed over and acknowledged; after a refused tcp_write it never holds |
| `TcpSplice.TcpSplice.Drain` | app/src/main/cpp/hev-socks5-tunnel-src/src/hev-socks5-session-tcp.c:255-261 | for every order of acknowledgements, losses and wake-ups: ending by the zero test means that no tcp_write was refused and everything was acknowledged, and acknowledgements are conserved otherwise |
| `RouterRuns.StepConsistent` | cybergate/internal/dnsrouter/router.go:154-187 | counting, storing, writing, undoing, replying, observing and expiring, interleaved in any order, keep the pending map, the stores and the forwarded replies in agreement |
| `RouterRuns.CountEffect` | cybergate/internal/dnsrouter/router.go:168-168 | an increment takes the next counter value for one goroutine and touches nothing else |
| `RouterRuns.StoreEffect` | cybergate/internal/dnsrouter/router.go:165-174 | a store under a free id makes that id live for this goroutine, as its last store, and lets it write; a taken id leaves the map and the stores alone, and the goroutine counts again until its 65536 tries are spent |
| `RouterRuns.RemovalEffect` | cybergate/internal/dnsrouter/router.go:184-187 | undo and expiry free their id, and no other |
| `RouterRuns.WaitEffect` | cybergate/internal/dnsrouter/router.go:180-187 | a write that succeeds sends the packet under the stored id and is over, one that fails stands before its undo; observing only remembers an id |
| `RouterRuns.CountedIsServed` | cybergate/internal/dnsrouter/router.go:165-243 | in every reachable state, a goroutine that counted to a free id stores it, sends its packet with just the id replaced, and a reply under that id is forwarded to its client with its own id restored |
| `RouterRuns.ArrivalIsServed` | cybergate/internal/dnsrouter/router.go:154-243 | so is every query that arrives while the next id is free, after any run |
| `RouterRuns.OwnerStays` | cybergate/internal/dnsrouter/router.go:167-174 | whatever runs between two states of a run, an id that stays live keeps belonging to the same query |
| `RouterRuns.ReplyRouting` | cybergate/internal/dnsrouter/router.go:221-245 | in every reachable state a reply goes to the client and under the transaction id of the last successful store of its id, all other bytes unchanged, and frees the id; a reply to another id goes nowhere |
| `RouterRuns.ForwardedOnce` | cybergate/internal/dnsrouter/router.go:235-243 | each stored query gets at most one reply, always its own client and id |
| `RouterRuns.StoresApart` | cybergate/internal/dnsrouter/router.go:165-178 | in any run two stores of one id are at least 65536 counter increments apart |
| `RouterRuns.RecentOwner` | cybergate/internal/dnsrouter/router.go:184-187 | within 65536 increments the holder of an id is the query that stored it, so undo and expiry meet their own entry |
| `RouterRuns.RoutedIffLatest` | cybergate/internal/dnsrouter/router.go:221-261 | a live id belongs to a given store if and only if the id was not given out again since |
| `RouterBackend.BackendConn.Allocate` | cybergate/internal/dnsrouter/router.go:165-178 | without interference the loop stores if and only if fewer than 65536 entries are pending, under the first free candidate, across the wrap of the 32-bit counter |
| `RouterBackend.RoomIffFree` | cybergate/internal/dnsrouter/router.go:163-164 | fewer than 65536 ids taken if and only if some id is free |
| `RouterBackend.CandidatesCover` | cybergate/internal/dnsrouter/router.go:167-168 | 65536 consecutive counter values reach every id |
| `RouterBackend.BackendConn.SendQuery` | cybergate/internal/dnsrouter/router.go:151-187 | one query alone: its id rewritten in the packet, its entry stored, and removed again when the write fails |
| `RouterBackend.BackendConn.HandleReply` | cybergate/internal/dnsrouter/router.go:234-243 | restores the stored id in place, changes no other byte, removes the entry |
| `RouterBackend.BackendConn.CleanPending` | cybergate/internal/dnsrouter/router.go:251-261 | removes exactly the entries older than ten seconds |
| `RouterBackend.Echo` | cybergate/internal/dnsrouter/router.go:154-243 | a query sent and answered by an echo comes back to its client byte for byte |
| `DomainRoutes.ExtractDomain` | cybergate/internal/dnsrouter/parser.go:7-38 | the loop reads the labels of the question name; the text is empty for none or for an overrun |
| `DomainRoutes.Router.FindBackend` | cybergate/internal/dnsrouter/router.go:263-282 | an exact match if there is one, otherwise some route above the name, otherwise the default |
| `DomainRoutes.Router.FindVerifyRoute` | cybergate/internal/dnsrouter/verify.go:178-201 | none if and only if no registered route matches; a route if and only if it matches, label by label and properly above the name, and none before it does |
| `DomainRoutes.FirstMatchLaw` | cybergate/internal/dnsrouter/verify.go:178-201 | the route chosen is none if and only if no route matches, and a given one if and only if it matches at some place with no match before it |
| `DomainRoutes.Router.AddVerifyRoute` | cybergate/internal/dnsrouter/router.go:74-83 | the new route comes last, and its labels are the only dot-free ones that spell the lower-cased domain: those it was given as, in lower case, with or without a final dot |
| `DomainRoutes.SuffixByLabels` | cybergate/internal/dnsrouter/router.go:263-282 | on dot-free labels the dotted-suffix test is the label test, for proper subdomains |
| `DomainRoutes.SuffixTestsAgree` | cybergate/internal/dnsrouter/verify.go:178-201 | the two tests agree on names and routes as they are registered, whatever their case |
| `ProbePromises.RoutesAgree` | cybergate/internal/dnsrouter/parser.go:7-38 | the two tests agree on every packet: the output of extractDomain against the labels handleVerify reads |
| `ProbeWire.DomainOnWire` | cybergate/internal/dnsrouter/parser.go:7-38 | a name written in the packet, ended by a zero or a pointer, is read as its labels with a dot after each |
| `DnsNames.EncodeDNSName` | cli/scanner.go:328-342 | the wire form of the labels, empty ones left out, long ones cut to 63 bytes |
| `DnsNames.DecodeDNSName` | cli/scanner.go:443-471 | ends on every packet, pointer cycles included, by the offsets not yet visited |
| `DnsNames.DecodeEncoded` | cli/scanner.go:443-471 | any name of non-empty dot-free labels of at most 63 bytes that the encoder wrote at any offset of any packet decodes to itself |
| `DnsNames.DecodeAnyEncoded` | cli/scanner.go:328-342 | any text at all, encoded at any offset, decodes to the labels the encoder keeps of it: the non-empty ones, cut to 63 bytes |
| `DnsNames.FinalDot` | cli/scanner.go:328-342 | a final dot changes nothing on the wire |
| `DnsNames.DecodeThroughPointer` | cli/scanner.go:455-462 | labels followed by a compression pointer to an earlier name decode to the labels and that name (section 4.1.4 of RFC 1035) |
| `DnsNames.SkipPastName` | cli/scanner.go:429-441 | skipping lands just past a written name, whether a zero or a pointer ends it |
| `DnsNames.SkipName` | cybergate/internal/dnsrouter/verify.go:294-307 | the same walk, with -1 when the name runs out of the packet |
| `Base32.Base32Encode` | cli/scanner.go:494-512 | the bit-shuffling loop over a wrapping 64-bit register gives the unpadded base32 text, for data of any length |
| `Base32.TextIsNumber` | cli/scanner.go:494-512 | the text is the data as a number written in base 32 with the letters of the alphabet, after fewer than five zero bits at its end (section 6 of RFC 4648) |
| `Base32.DecodeEncode` | cli/scanner.go:536-538 | decoding the lowercase encoding gives the data back (section 6 of RFC 4648) |
| `Base32.DecodeEncodeUpper` | cli/scanner.go:492-512 | what the scanner encodes in capitals decodes, lower-cased as the server does, to its input |
| `TxtRecord.BuildStrings` | cybergate/internal/dnsrouter/verify.go:225-236 | the loop cuts data into character-strings of at most 255 bytes |
| `TxtRecord.StringsOfChunks` | cli/scanner.go:631-643 | putting the strings together again gives the data |
| `TxtRecord.ExtractTXTRawData` | cli/scanner.go:607-648 | the data of the first TXT record behind the questions, read to its end or to a string that overruns it |
| `ProbeWire.ExtractedOnWire` | cli/scanner.go:607-648 | for any written questions and answers, records of other types and empty ones among them: the strings of the first TXT record with data |
| `ProbeServer.HandleVerify` | cybergate/internal/dnsrouter/verify.go:43-163 | forwards, answers or stops as the specification Respond says, whatever bytes the pooled buffer held before |
| `ProbeServer.FillFastRandom` | cybergate/internal/dnsrouter/verify.go:165-175 | every byte of the padding is fresh, none left from the buffer's past |
| `ProbeServer.ParseEDNS0PayloadSize` | cybergate/internal/dnsrouter/verify.go:252-292 | the payload size of the first OPT record behind the other sections, 0 when anything overruns |
| `ProbeWire.EdnsOnWire` | cybergate/internal/dnsrouter/verify.go:252-292 | for any written answers, authorities and additional records: the class field of the first additional OPT record, 0 without one |
| `ProbeServer.BuildResponse` | cybergate/internal/dnsrouter/verify.go:205-250 | the response bytes for any data and advertised size: question copied, one TXT record, one OPT record |
| `ProbeServer.ReadShape` | cybergate/internal/dnsrouter/verify.go:56-83 | a question that passes as a probe ends where skipping its name ends |
| `ProbeClient.MakeProbe` | cli/scanner.go:546-580 | nonce and query bytes, the wanted size in the last two nonce bytes |
| `ProbeClient.CheckReply` | cli/scanner.go:585-603 | accepts exactly the replies without error code whose data begins with the expected digest |
| `ProbePromises.QuestionReads` | cybergate/internal/dnsrouter/verify.go:56-74 | the server reads the labels the client's encoder wrote, in lower case |
| `ProbePromises.ReadOnWire` | cybergate/internal/dnsrouter/verify.go:43-114 | a packet with one written question is a probe if and only if it is a query for TXT whose name lies properly below the domain of a first matching route and decodes to at least 32 bytes, of which the first 16 are the nonce and the next 16 the proof |
| `ProbePromises.ResponseFields` | cybergate/internal/dnsrouter/verify.go:205-250 | every field of a response at its offset: flags, counts, question, name pointer, type, class, TTL and length |
| `ProbePromises.ResponseAdvertises` | cybergate/internal/dnsrouter/verify.go:242-247 | the router's own reader finds 4096 in the OPT record of a response |
| `ProbePromises.AcceptsIff` | cli/scanner.go:585-602 | accepted if and only if it has a header, no error code, and the expected digest at the front of its data |
| `ProbePromises.TargetRange` | cybergate/internal/dnsrouter/verify.go:135-139 | the target lies above three quarters of the chosen size and not above it, but never below 200, and every size in that range comes of some draw |
| `ProbePromises.ExtractResponse` | cli/scanner.go:607-648 | for every question the server can read and all data up to 4096 bytes, the client extracts from the response exactly that data |
| `ProbePromises.ProbeEndToEnd` | cli/scanner.go:546-648 | for every key, nonce, domain and every wish that comes to a size from 4 to 4096: the server answers the client's query if and only if its key makes the same proof, the answer fits the client's buffer, its first 32 bytes are HMAC(key, nonce || 1), and the client accepts exactly when that is the digest it expects |
| `ProbePromises.ReplySize` | cybergate/internal/dnsrouter/verify.go:135-156 | reply size for every target the padding pool allows: total - 2, or total - 3 when the payload is 0 or 1 modulo 256, or qEnd + 56 when clamped |
| `ProbePromises.AnsweredIff` | cybergate/internal/dnsrouter/verify.go:125-156 | a probe is answered whatever the random draw if and only if its proof holds and the chosen size is from 4 to qEnd + 4138 |
| `ProbePromises.ClientAnsweredIff` | cli/scanner.go:557-580 | the same for the query of the client, in terms of the size it wishes for, its domain and the two keys |
| `ProbePromises.OversizeStops` | cli/scanner.go:576-580 | a failing input: a client with the right key that wishes for 5000 bytes stops the handler when the draw takes nothing off |
| `ProbePromises.ClientSizes` | cli/scanner.go:553-562 | wishes from 200 to 65535 are met, through the nonce or the EDNS record; smaller ones leave the size to the route |
| `RealismProbe.SplitLabels` | cli/scanner.go:514-524 | a partition: the pieces are non-empty, at most maxLen long, and concatenate to the input |
| `RealismProbe.MakeRealismQuery` | cli/scanner.go:195-225 | the query for a budget, from the random bytes to the packet |
| `RealismProbe.WithinBudget` | cli/scanner.go:195-225 | the query keeps to a budget of at least 50 bytes if and only if the domain leaves nine bytes of it |
| `RealismProbe.RandLenLaw` | cli/scanner.go:195-225 | the number of random bytes: 100 for a budget below 50, else five ninths of the room left, within 5 and 100 |
| `RealismProbe.BudgetUsed` | cli/scanner.go:195-225 | the budget is used up to a ninth of that room and a byte, unless 100 bytes are sent |
| `RealismProbe.PayloadSurvives` | cli/scanner.go:215-225 | the labels the server reads below the domain decode to the random bytes that were sent |
| `WsFrame.ParsePrinted` | cli/ssh_transport.go:311-393 | reading a printed frame gives it back with whatever follows left over, for all three length forms, masked or not (sections 5.2 and 5.3 of RFC 6455) |
| `WsFrame.ParseCut` | cli/ssh_transport.go:311-355 | no proper beginning of a frame reads as a frame |
| `WsFrame.PrintedUnambiguous` | cli/ssh_transport.go:357-393 | a stream splits into a frame and a rest in one way only |
| `WsFrame.FrameBytes` | cli/ssh_transport.go:357-391 | a frame byte by byte: 128 plus opcode, mask bit plus length or 126 or 127, each form in its own range, length big-endian, key, and payload under the key (section 5.2 of RFC 6455) |
| `Bits.XorLaw` | cli/ssh_transport.go:385-387 | masking is the bitwise exclusive or |
| `WsFrame.FlagsIgnored` | cli/ssh_transport.go:316-316 | the flags in front of the opcode are not looked at: a fragment reads like a whole frame |
| `WsFrame.ReadFrame` | cybergate/internal/proxy/stuntls.go:308-352 | the reader consumes from the stream exactly one frame, or fails when it breaks off |
| `WsFrame.WriteFrame` | cli/ssh_transport.go:357-393 | the masked frame goes out whole, or a part of it and the connection is broken |
| `WsFrame.WriteWSFrame` | cybergate/internal/proxy/stuntls.go:354-382 | the two writes send the unmasked frame whole, or a part of it and the connection is broken |
| `WsStream.WsToTCP` | cybergate/internal/proxy/stuntls.go:270-289 | the loop ends, and has written what Served says of the whole stream, or a beginning of it when the TCP side broke |
| `WsStream.ServedFrames` | cybergate/internal/proxy/stuntls.go:270-289 | wherever a stream of frames breaks off, the server has written what its whole frames call for |
| `WsStream.FrameKinds` | cybergate/internal/proxy/stuntls.go:270-289 | what one frame does at either end, by its opcode: 0, 1 and 2 are data, 8 closes, 9 is answered, others pass unnoticed |
| `WsStream.OutputsAreData` | cybergate/internal/proxy/stuntls.go:277-287 | the server passes on exactly the application data if and only if no ping precedes the close: the pong goes to the TCP side |
| `WsStream.ClientToServer` | cli/ssh_transport.go:294-302 | for all client writes, keys and break-off points the server delivers exactly the concatenation of the writes that arrived whole |
| `WsStream.TcpToWS` | cybergate/internal/proxy/stuntls.go:291-306 | one binary frame for each non-empty read, then the close frame with status 1000, or a beginning of these when the connection broke |
| `WsStream.FirstBytes` | cybergate/internal/proxy/stuntls.go:291-306 | data frames begin with 0x82, pongs with 0x8A, and the close frame is 0x88 0x02 0x03 0xE8 |
| `WsStream.WsConn.Read` | cli/ssh_transport.go:262-292 | one Read into a buffer of any size: result, remaining buffer, stream and pongs, ending although frames may be skipped |
| `WsStream.ReadAnswersPings` | cli/ssh_transport.go:262-292 | past any frames without data a Read takes the first that closes or carries data, and answers exactly the pings before it, in order |
| `WsStream.WsConn.Write` | cli/ssh_transport.go:294-302 | one masked binary frame, or a part of it and an error; nothing for an empty write |
| `WsStream.ReadsDeliver` | cli/ssh_transport.go:262-292 | under any sequence of buffer sizes the reads return a beginning of the incoming data, lose nothing, and as many non-empty buffers as there are bytes return all of it |
| `WsStream.ServerToClient` | cli/ssh_transport.go:262-292 | the client reads exactly the bytes that came in on the server's TCP side, then the end of the stream |
| `WsStream.CutStreamToClient` | cli/ssh_transport.go:262-292 | wherever a stream without a close frame breaks off, the client reads exactly the data of its whole frames, pings or not, and then an error |
| `Checksum.Fold` | app/src/main/cpp/hev-socks5-tunnel-src/src/hev-socks5-tunnel.c:379-380 | the fold ends, is at most 0xFFFF, keeps the sum modulo 65535, and is zero only for zero |
| `Checksum.Sum` | app/src/main/cpp/hev-socks5-tunnel-src/src/hev-socks5-tunnel.c:395-404 | both loops on the buffer, odd lengths included, without 32-bit overflow |
| `Checksum.ChecksumVerifies` | app/src/main/cpp/hev-socks5-tunnel-src/src/hev-socks5-tunnel.c:405-407 | any data with a zero checksum field verifies (folds to 0xFFFF) once the complement is stored (RFC 1071) |
| `Checksum.OneWordDetected` | app/src/main/cpp/hev-socks5-tunnel-src/src/hev-socks5-tunnel.c:376-383 | changing one word of verified data is detected, but for 0 against 0xFFFF |
| `Checksum.OneByteDetected` | app/src/main/cpp/hev-socks5-tunnel-src/src/hev-socks5-tunnel.c:376-383 | changing one byte of verified data is always detected |
| `Checksum.ByteWeight` | app/src/main/cpp/hev-socks5-tunnel-src/src/hev-socks5-tunnel.c:376-383 | each byte counts 256-fold at an even offset and once at an odd one, the odd last byte included |
| `IcmpReject.ParseUdpPacket` | app/src/main/cpp/hev-socks5-tunnel-src/src/hev-socks5-tunnel.c:303-331 | non-zero exactly for IPv4 UDP packets long enough, then with header length and port |
| `IcmpReject.SendIcmpPortUnreachable` | app/src/main/cpp/hev-socks5-tunnel-src/src/hev-socks5-tunnel.c:341-412 | the buffer filled in place is the message of the specification, or nothing for a short packet or no memory |
| `IcmpReject.Admit` | app/src/main/cpp/hev-socks5-tunnel-src/src/hev-socks5-tunnel.c:434-450 | which packets go on to the stack, and what is written back for the others |
| `IcmpReject.RejectedIff` | app/src/main/cpp/hev-socks5-tunnel-src/src/hev-socks5-tunnel.c:434-450 | a packet of given parts is turned away if and only if its protocol is 17, it has 28 bytes, and its destination port is not 53 (when only DNS may pass) or is 443 (when QUIC may not) |
| `IcmpReject.OtherVersionsPass` | app/src/main/cpp/hev-socks5-tunnel-src/src/hev-socks5-tunnel.c:303-331 | what is not IPv4 always passes |
| `IcmpReject.ReplyIsWellFormed` | app/src/main/cpp/hev-socks5-tunnel-src/src/hev-socks5-tunnel.c:366-407 | both parts of every emitted message verify, addresses are swapped, lengths and fixed fields are as given, and the quoted bytes tell the ports (RFC 792) |
| `SniSplit.FindSNIHostnameOffset` | cli/sni_fragment.go:94-149 | the walk of the finder, for any bytes |
| `SniSplit.FindsHostName` | cli/sni_fragment.go:94-149 | on every single-record ClientHello whose first server_name extension begins with a host name, the result is that name's exact offset (section 4.1.2 of RFC 8446, section 3 of RFC 6066) |
| `SniSplit.CutInsideName` | cli/sni_fragment.go:44-65 | the sni_split cut falls in the middle of the host name, strictly inside it if and only if it has at least two bytes |
| `SniSplit.PlainStrategies` | cli/sni_fragment.go:41-92 | where the name plays no part: two halves, or runs of exactly 24 bytes but for the last |
| `SniSplit.SplitClientHello` | cli/sni_fragment.go:41-75 | the chunks for any bytes and strategy name |
| `SniSplit.SplitMulti` | cli/sni_fragment.go:82-92 | non-empty runs of at most the chunk size that concatenate to the data |
| `SniSplit.SplitKeepsBytes` | cli/sni_fragment.go:41-92 | for any input and strategy the chunks concatenate to the input |
| `SniSplit.FragmentConn.Write` | cli/sni_fragment.go:18-39 | only the first ClientHello of a connection is split; every byte goes out in order, or the connection broke on the way |
| `SniSplit.HelloIsSplit` | cli/sni_fragment.go:18-39 | every serialized ClientHello in a handshake record counts as one: written first, it goes out in its chunks, and all later writes whole |
| `SniSplit.EarlierWhole` | cli/sni_fragment.go:18-39 | writes before the first ClientHello go out whole |
| `SniSplit.SegmentsKeepBytes` | cli/sni_fragment.go:18-39 | over any run of writes the peer receives the bytes that were written |

## Left out

- MappedDnsHandle.Handle: the request buffer is longer than 12 bytes and than the request, and the reply buffer holds 12 bytes unless it is shorter than the request, as the code reads and writes these bytes whatever the lengths.
- MappedDns.MappedDns.Lookup: takes addresses as non-negative numbers; C passes a signed int, with the same low bits.
- MappedDns.New: a table for no names is not built; a find on it would use the node it just freed.
- NameTree.EraseOrdered: the tree is a plain ordered tree; colours and rotations of hev_rbtree (not part of this model) do not change the order.
- TcpSplice.TcpSplice.SpliceBackward: is not called again after a refused tcp_write, as in the splice loop; which cells lwIP holds then is not related to the stream any more, only how many.
- TcpSplice.TcpSplice.Drain: acknowledgements never exceed the bytes handed over, which lwIP guarantees.
- RouterRuns.StepConsistent: time is abstracted: any pending entry may be observed as stale.
- RouterBackend.BackendConn.Allocate: alone on its connection; interference is the matter of RouterRuns.
- DomainRoutes.SuffixTestsAgree: letter case is that of ASCII; names outside it are not modelled.
- Base32.DecodeEncode: the library decoder is modelled on whole alphabets; its skipping of line breaks and its treatment of impossible lengths are not.
- ProbePromises.ProbeEndToEnd: a reply to a wish above 4096 bytes may not fit the client's read buffer; whether there is one is the matter of ClientAnsweredIff.
- WsStream.ClientToServer: a break of the connection to the server's TCP side is the matter of WsToTCP.
- WsFrame.ReadFrame: allocating a payload of any announced length succeeds.
- Checksum.Sum: buffers of at most 65535 bytes, as an IP packet has.
- SniSplit.FindsHostName: one record, extensions as in the standard; what the finder does on other bytes is only that of FindSNIHostnameOffset.
- The forward direction of the TCP splice (pbuf queue to socket) and UDP sessions: sockets and lwIP internals.
- Sockets, deadlines, reconnect loops, SOCKS and the coroutine scheduler: steps and parameters stand for them.
- The payload banner scan of stuntls.go, the second copy of the framing in vless.go, and the text and NS record readers of scanner.go: nothing harder than what is here.
- System administration, key material, TLS, CLI, Android and configuration code: calls into other programs and libraries.
