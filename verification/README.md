# Wireline, modelled in Dafny

Wireline is a small authenticated request/response protocol carried over TCP and, with its own
acknowledgements, retransmission and deduplication, over UDP. This project models its frame
codec, its stream parsers, the server's session state machine, both transports with both ends of
each, and the capture analyser, and proves what holds over every input, every chunking of a stream
and every run of the protocol.

Main results, hardest first.

- **UDP is an atomic, in-order remote call where it can be.** `UdpSystem` joins one client and the
  server's peer for its address by a network that never forgets a datagram, so it loses, duplicates
  and reorders without bound, and in which third parties inject any bytes that fail the MAC.
  `UdpRpc.Refinement` maps every run without give-up and without copies older than the window to
  an atomic call service; `UdpRpc.InOrderExactlyOnce` reads the result off. `UdpRpc.WindowDecides`
  gives the exact boundary: a copy is replayed if and only if its number is within `size` of the last
  one, and fatal to the session if and only if it is older. `UdpRpc.TwoDeliveriesFinish` shows that no
  reachable state of such a run is stuck, and `UdpRpc.ErrorFreeIffRecent` that, while the client is patient,
  the server sends no ERROR if and only if no copy delivered to it was older than the window.
- **Without those assumptions**, in every run: a request that returns, returns its own reply
  (`UdpSystem.ReplyCorrelation`), and the handler served it (`UdpSystem.ReturnedMeansServed`); and only
  issued requests are executed and, within one session, each at most once
  (`UdpSystem.AtMostOnceInEveryRun`).
- **For any number of clients.** `UdpFleet.EachAddressIsASystem` shows that every client of one server goes
  through a run of that two-party system, so both results hold for each (`UdpFleet.FleetReplies`,
  `UdpFleet.FleetInOrder`).
- **At most once, exactly.** `UdpPeer.NextServes` says when a frame is executed, after any history, and
  `UdpPeer.NextDispatches` when it reaches `_dispatch` at all. `UdpPeer.AtMostOnceExactly` says that no number
  is executed (or reaches `_dispatch`) twice if and only if no repeated delivery meets that condition. Two
  kinds of run do: `UdpPeer.AtMostOnceEndsWithTheSession` and `UdpPeer.EvictionEndsIt`.
- **One language, four parsers.** `pop`/`drain` under every chunking, `read_frame`, `decode`,
  `split_datagram` and `try_parse_wireline` agree with each other and with `encode`, up to and
  including where the first error falls, and the encoding is prefix-free.
- **How requests fail**, in every run: a raised code has its reason (`UdpSystem.RaisedHasReason`), and the
  reasons have their effect (`UdpSystem.ReasonsRaise`, `UdpSystem.ErrorEndsRequest`). Which fault of malformed
  bytes is reported is fixed for all inputs (`Codec.HeaderPrecedence`, `Codec.DatagramPrecedence`).
- **TCP.** The server's transcript grammar, numbering and states for every input stream, its causality,
  the lockstep of client and server connected in a closed loop, and the client's refusal of replays from
  any server.
- **Observer side.** Interleaving-independent reassembly, builder/dissector and capture-file round trips
  (cut files and opposite byte order included), and the checksum of section 1 of RFC 1071.

## How it is laid out

| file | source |
|---|---|
| `Bytes.dfy`, `Protocol.dfy` | fixed-width fields; message types, limits, error codes |
| `Codec.dfy`, `Messages.dfy` | `protocol/codec.py`, the ACK payload of `protocol/messages.py` |
| `Framing.dfy`, `Parsers.dfy` | `FrameBuffer`; `read_frame`, `split_datagram`, `try_parse_wireline` |
| `Sessions.dfy` | `session.py` |
| `Dedup.dfy`, `UdpPeer.dfy`, `UdpServers.dfy` | `DedupWindow`, one peer of `UdpServer`, the whole server |
| `UdpClients.dfy`, `UdpSystem.dfy`, `UdpRpc.dfy`, `UdpFleet.dfy` | `UdpClient`; the distributed system; its refinement; many clients |
| `TcpServer.dfy`, `TcpClients.dfy` | the handler loop of `server.py`; `client.py` |
| `Checksums.dfy`, `Packets.dfy` | header builders of `tools/make_pcap_fixture.py`, `_dissect_packet` |
| `Pcap.dfy`, `Reassembly.dfy` | `sniff/pcap.py`; `reassemble_flows` |

Classes of the source are classes here (`FrameBuffer`, `ServerSession`, `DedupWindow`, `UdpServer`,
`UdpClient`, `WirelineServer`, `WirelineClient`), and its loops are loops. Each method is proved equal to
a function of the old state, and the theorems are about those functions. Python's exceptions are
`Result` values and outcome datatypes. The CRC, the MAC and the JSON codecs are the fields of a
`Library` value, about which nothing is assumed beyond the size of their results. The identity a
session is created with, and the nonce it answers with, enter as the HELLO_ACK payload it will send.

## Where the code and its documentation disagree

The model follows the code.

- `reassemble_flows` says that it stops following a direction after an error
  (src/wireline/sniff/dissect.py:205-206). It replaces the buffer and follows the later payloads as a
  direction of their own (`Reassembly.FollowingResumes`).
- `try_parse_wireline` says that what does not start with the magic is skipped
  (src/wireline/sniff/dissect.py:93-94). Skipped it is not: the scan ends there, and frames behind it are not
  reported (`Parsers.ScanStopsAtForeignBytes`).
- ADR 5 says that the session never sees a duplicate (docs/adr/0005-stop-and-wait-over-udp.md:40-42),
  and `request` says that resending cannot execute a request twice (src/wireline/transport/udp.py:303-305).
  The session sees a duplicate that has left the window (`UdpPeer.DuplicateIsReplayedOrFatal`). A repeated
  request is executed again exactly when it is a readable HELLO and no session is stored, or the stored
  session is behind its number and it is of a type READY serves (`UdpPeer.NextServes`); a DATA, for one,
  needs a new HELLO first.
- The diagram of section 5 of the protocol (docs/PROTOCOL.md:85-89) passes through HANDSHAKE and CLOSING.
  The server occupies neither (`TcpServer.TranscriptGrammar`), as the text below the diagram says of the first.

## Model

| member | source | states |
|---|---|---|
| `UdpRpc.Refinement` | src/wireline/transport/udp.py:177-337 | every calm run (no give-up, no copy older than the window) starts as, and moves at each step like, an atomic call service that asks, executes the oldest unexecuted request, and returns the reply computed for the oldest request not returned; the frames returned are those in the outcomes the caller got |
| `UdpRpc.CalmStep` | src/wireline/transport/udp.py:177-337 | each action of client, server or network keeps the order invariant of calm runs and is one step of the atomic service or none |
| `UdpRpc.InOrderExactlyOnce` | src/wireline/transport/udp.py:288-310 | in a calm run the handler served the issued requests in order, refused nothing, and computed their replies; exactly the requests before the one in flight have an outcome, and it is the reply computed for them |
| `UdpRpc.NeverAnError` | src/wireline/transport/udp.py:203-211 | in a calm run no datagram the server sends ends in ERROR, so ERR_SEQ is never answered |
| `UdpRpc.ErrorFreeIffRecent` | src/wireline/transport/udp.py:193-213 | in a run with scripted requests and no give-up, the server sent a datagram ending in ERROR if and only if some delivered copy was older than the window |
| `UdpRpc.WindowDecides` | src/wireline/transport/udp.py:193-213 | in a calm state a client frame is replayed iff `last - size < n <= last`, ends the session iff `n <= last - size`, and a replay is the remembered answer of that number |
| `UdpRpc.NextIsServed` | src/wireline/transport/udp.py:203-211 | the next request in order is executed, keeps the session, and is answered with its own reply |
| `UdpRpc.WindowIsContiguous` | src/wireline/transport/udp.py:82-86 | in a calm run the cached numbers are a contiguous interval ending at the last accepted one |
| `UdpRpc.InFlightHolds` | src/wireline/transport/udp.py:295-297 | in every run the outstanding request is on the network in its current form |
| `UdpRpc.TwoDeliveriesFinish` | src/wireline/transport/udp.py:288-337 | from any state of a calm run with an outstanding request and a window of at least one, two deliveries finish it and the run stays calm |
| `UdpFleet.EachAddressIsASystem` | src/wireline/transport/udp.py:119-337 | in every run of any number of clients and one server, each address goes through a run of the two-party system made of its own actions alone, ending with the same client, network and stored peer |
| `UdpFleet.FleetReplies` | src/wireline/transport/udp.py:285-337 | so every client's returned requests returned their own replies |
| `UdpFleet.FleetInOrder` | src/wireline/transport/udp.py:288-310 | and a client whose own run is calm was served its requests in order, each once, and got their replies, however the others behave |
| `UdpSystem.ReplyCorrelation` | src/wireline/transport/udp.py:285-337 | in every run a request that returns, returns the reply to itself (for DATA the payload sent), whatever is lost, repeated, late, evicted or answered by a replacement session |
| `UdpSystem.ReturnedMeansServed` | src/wireline/transport/udp.py:203-211 | in every run a request that returned reached the handler and was served by it, as the client issued it |
| `UdpSystem.RaisedHasReason` | src/wireline/transport/udp.py:288-337 | in every run a request that raised code c has a reason: ERR_LENGTH for an oversized payload, ERR_TIMEOUT for giving up, or an ERROR with code c that the server sent in answer to this request |
| `UdpSystem.ReasonsRaise` | src/wireline/transport/udp.py:288-310 | an oversized request has raised ERR_LENGTH and a request given up has raised ERR_TIMEOUT |
| `UdpSystem.ErrorEndsRequest` | src/wireline/transport/udp.py:333-336 | an ERROR in answer to the request in flight ends it with the code it carries, when it arrives |
| `UdpSystem.EveryRequestEndsOnce` | src/wireline/transport/udp.py:288-310 | in every run exactly the requests before the one in flight have ended, and an end never changes |
| `UdpSystem.InvariantStep` | src/wireline/transport/udp.py:177-337 | every action keeps: requests on the network are the client's, every datagram to the client and every cached reply answers the request it acknowledges, every outcome matches its request |
| `UdpSystem.AtMostOnceInEveryRun` | src/wireline/transport/udp.py:177-213 | in every run only issued requests reach `_dispatch` or are executed, under their own numbers, in increasing order within a session, and the answers of a number are the same bytes unless a late copy ends the session |
| `UdpPeer.LifeInvariantHolds` | src/wireline/transport/udp.py:189-213 | in every reachable state a stored session is READY, has accepted strictly increasing numbers ending in its last peer number, and its window is the last `size` of them with their answers |
| `UdpPeer.DuplicateIsReplayedOrFatal` | src/wireline/transport/udp.py:193-213 | a number not above the last accepted one is replayed with its first answer and no other change exactly when it is among the last `size` accepted, and otherwise gets ERR_SEQ and ends the session |
| `UdpPeer.AtMostOnceSameBytes` | src/wireline/transport/udp.py:193-211 | over all deliveries to an address and all window sizes, dispatches of one session strictly increase and repeated answers are byte-identical unless they end the session |
| `UdpPeer.NextDispatches` | src/wireline/transport/udp.py:189-206 | after any deliveries a frame reaches `_dispatch` if and only if no session is stored for the address or the stored one has not reached its number |
| `UdpPeer.NextServes` | src/wireline/transport/udp.py:189-206 | after any deliveries a frame is executed if and only if it is a readable HELLO and no session is stored, or its number is above the stored session's and it is a PING, PONG, DATA, ACK, BYE or readable ERROR |
| `UdpPeer.AtMostOnceExactly` | src/wireline/transport/udp.py:189-213 | over a whole history, across sessions, no number is executed twice if and only if no delivery of a number executed before meets the condition of `NextServes`; and the same for reaching `_dispatch` and the condition of `NextDispatches` |
| `UdpPeer.AtMostOnceEndsWithTheSession` | src/wireline/transport/udp.py:189-213 | one kind of run outside that condition: HELLO, BYE and a late copy of the HELLO execute the same number in two sessions |
| `UdpPeer.EvictionEndsIt` | src/wireline/transport/udp.py:203-213 | the other kind: after a copy older than the window, a late copy of any number reaches `_dispatch`, and is executed there exactly if it is a readable HELLO |
| `UdpPeer.HandleMeaning` | src/wireline/transport/udp.py:205-213 | an open session survives a frame exactly when the frame is welcome, and then its last peer number is the frame's |
| `UdpPeer.HandleContents` | src/wireline/transport/udp.py:203-208 | the frames of an answer to the last number and byte of payload: the ACK naming the frame exactly if flag 0x01 is set, then what the session replies, each under the session's next number, which moves by as many |
| `UdpPeer.AnswersNumberedHolds` | src/wireline/session.py:50-56 | in every reachable state the frames of all the answers of the stored session are numbered 0, 1, 2, ... mod 2^32 without a gap |
| `UdpPeer.DispatchesMeaning` | src/wireline/transport/udp.py:205-206 | a frame that is not replayed reaches `_dispatch` exactly if the session moves to its number |
| `UdpPeer.ServesMeaning` | src/wireline/transport/udp.py:193-208 | on an open session a frame is executed exactly if it is not replayed and nothing it is answered with is an ERROR |
| `UdpServers.PeerIsolation` | src/wireline/transport/udp.py:177-213 | what is stored for and sent to an address is a function of its own authenticated frames in order, for every interleaving with other peers and undecodable datagrams |
| `UdpServers.StepIsolation` | src/wireline/transport/udp.py:177-213 | one datagram steps the peer of its address if it authenticates, no other peer, and changes nothing if it does not |
| `UdpServers.EveryDatagramIsCounted` | src/wireline/transport/udp.py:197-207 | every authenticated datagram is counted once: `duplicates` grows by those answered from the window and `handled` by the others |
| `UdpServers.StepCounts` | src/wireline/transport/udp.py:197-207 | a replay counts as a duplicate, any other authenticated datagram as handled, and a datagram that fails its checks not at all |
| `UdpServers.EveryPeerIsSound` | src/wireline/transport/udp.py:177-213 | after any events, the peer stored for any address satisfies the session and window invariant and the at-most-once history of its own frames |
| `UdpServers.UdpServer.OnDatagram` | src/wireline/transport/udp.py:177-213 | the method on session and window objects takes the whole server from one state to the next and sends what the step function says |
| `UdpServers.UdpServer.Execute` | src/wireline/transport/udp.py:203-213 | a frame that is not cached is run and answered, the answer is remembered, and a session that ends is forgotten |
| `UdpServers.UdpServer.Answer` | src/wireline/transport/udp.py:205-211 | the ACK and the reply are joined into one datagram, which is put in the window; `HandleContents` says which frames these are |
| `UdpClients.ExchangeMeaning` | src/wireline/transport/udp.py:288-310 | a request sends the same frame under one number at most `max_retries + 1` times, flagged as a retransmission from the second on, stops at the first attempt answered with what that answer says, raises ERR_TIMEOUT when none is answered, and counts its retransmissions |
| `UdpClients.OversizedExchange` | src/wireline/transport/udp.py:292-297 | a payload over 1 MiB raises ERR_LENGTH before anything is sent and uses up its number |
| `UdpClients.AwaitIsReceiving` | src/wireline/transport/udp.py:312-337 | the waiting loop ends a request exactly as handing it the datagrams one by one does |
| `UdpClients.VerdictOnFrames` | src/wireline/transport/udp.py:321-337 | for every list of frames in a datagram: it ends the request exactly if its first frame is the ACK of the request, with the code in its last frame if that is an ERROR and with that frame otherwise |
| `UdpClients.VerdictNeedsFrames` | src/wireline/transport/udp.py:321-332 | nothing ends a request but a datagram that is the encoding of frames starting with its ACK |
| `UdpClients.ErrorAnswerRaises` | src/wireline/transport/udp.py:333-336 | an answer of ACK, anything and an ERROR raises the code the ERROR carries |
| `UdpClients.AwaitFinds` | src/wireline/transport/udp.py:312-337 | what the waiting loop ends with is the verdict on a datagram that arrived, behind none that would have ended it |
| `UdpClients.AwaitEnds` | src/wireline/transport/udp.py:312-337 | the first arriving datagram that ends the request ends the loop |
| `UdpClients.UdpClient.Request` | src/wireline/transport/udp.py:288-310 | the retry loop sends, returns or raises, and leaves the counters as the exchange function of its scripts of arriving datagrams says |
| `UdpClients.UdpClient.AwaitReply` | src/wireline/transport/udp.py:312-337 | returns or raises what the first datagram that ends the request says, and ignores the others; `VerdictOnFrames` says which datagrams do and with what |
| `Dedup.WindowMeaning` | src/wireline/transport/udp.py:72-92 | after any puts, repeated keys included, a key is found exactly when fewer than `size` other keys were put since its latest put, with the reply of that put |
| `Dedup.WindowSize` | src/wireline/transport/udp.py:85-86 | the window holds min(size, distinct keys) entries |
| `Dedup.WindowOrder` | src/wireline/transport/udp.py:82-86 | the window holds its keys in the order of their latest puts |
| `Dedup.WindowIsTail` | src/wireline/transport/udp.py:82-86 | the window is a tail of what a window that never evicts would hold |
| `Dedup.DedupWindow.Put` | src/wireline/transport/udp.py:82-86 | assigning, moving to the end and evicting from the front leaves the last `size` entries with the key newest |
| `Framing.ChunkingIndependence` | src/wireline/transport/framing.py:58-78 | feeding and draining any chunks from a drained buffer gives the frames, the first error and the bytes left over of the one-shot parse of the whole stream |
| `Framing.ParseSplits` | src/wireline/transport/framing.py:61-78 | parsing a stream in two parts is parsing the second part behind what the first one kept |
| `Framing.PopIsStable` | src/wireline/transport/framing.py:61-73 | a frame or an error once popped is not changed by bytes that arrive later |
| `Framing.PopIffWire` | src/wireline/transport/framing.py:61-73 | `pop` emits a frame and leaves a rest exactly when the buffer is the frame's encoding followed by that rest |
| `Framing.ParseConserves` | src/wireline/transport/framing.py:40-78 | the bytes fed are the encoding of the frames emitted followed by the bytes not emitted, which are the buffer when nothing was refused |
| `Framing.ParseKeepsPartial` | src/wireline/transport/framing.py:43-46 | after an error-free drain less than one maximal frame is kept |
| `Framing.StreamRoundTrip` | src/wireline/transport/framing.py:58-78 | encoded frames, concatenated and cut anywhere, drain back to the same frames with an empty buffer |
| `Framing.WireIsPrefixFree` | src/wireline/protocol/codec.py:82-102 | no encoding is a proper prefix of another |
| `Framing.WireAllInjective` | src/wireline/protocol/codec.py:82-102 | a byte stream is the encoding of at most one list of frames |
| `Framing.FrameBuffer.Pop` | src/wireline/transport/framing.py:61-73 | a refused header leaves the buffer; a complete frame leaves it whether accepted or not |
| `Framing.FrameBuffer.Drain` | src/wireline/transport/framing.py:75-78 | yields the frames, keeps the bytes and stops with the error of the one-shot parse of its buffer |
| `Parsers.ReadFrameAgreesWithPop` | src/wireline/transport/framing.py:27-37 | on every stream `read_frame` gives the frame and rest, or the error, that `pop` gives, and ends where `pop` needs more; only a refused header is consumed by one and kept by the other |
| `Parsers.ReadFrame` | src/wireline/transport/framing.py:27-37 | three exact reads give the frame, the error or the stream's end of its bytes, however they arrive |
| `Parsers.Reader.ReadExactly` | src/wireline/transport/framing.py:30-31 | n bytes in order or none, whatever chunks they arrive in |
| `Parsers.SplitIffWireAll` | src/wireline/transport/udp.py:95-102 | a datagram splits into a list of frames exactly when it is their encoding |
| `Parsers.DecodeIffSplit` | src/wireline/transport/udp.py:95-102 | `decode` returns a frame exactly when `split_datagram` returns that frame alone |
| `Parsers.SplitDatagram` | src/wireline/transport/udp.py:95-102 | the frames of a datagram, the first error in it, or ERR_LENGTH for trailing bytes |
| `Parsers.SplitFails` | src/wireline/transport/udp.py:95-102 | bytes behind the whole frames of a datagram give ERR_LENGTH when they are too few to tell, and otherwise their own fault |
| `Parsers.ScanAgreesWithDrain` | src/wireline/sniff/dissect.py:87-110 | the frames an observer drains are a prefix of those the payload scan reports, and all of them exactly when no CRC fails |
| `Parsers.TryParseWireline` | src/wireline/sniff/dissect.py:87-110 | the offset loop finds the headers whose bodies are complete, one behind the other, up to the first that is refused or cut |
| `Parsers.ScanStopsAtForeignBytes` | src/wireline/sniff/dissect.py:87-110 | the scan reports the frames in front of bytes that are no header, and nothing behind them |
| `Codec.DecodeIffEncode` | src/wireline/protocol/codec.py:82-179 | with a key, `decode` accepts a byte string as a frame exactly when encoding the frame succeeds with those bytes |
| `Codec.PartsIff` | src/wireline/protocol/codec.py:150-170 | header, body and MAC are accepted as a frame exactly when together they are its encoding |
| `Codec.HeaderRoundTrip` | src/wireline/protocol/codec.py:105-128 | a packed header with known flags and an allowed length is read back field by field |
| `Codec.HeaderInverse` | src/wireline/protocol/codec.py:105-128 | an accepted header packs back to the same 19 bytes |
| `Codec.ObserverReadsEncoding` | src/wireline/protocol/codec.py:150-170 | without the key every encoding decodes to its frame |
| `Codec.DamagedDatagram` | src/wireline/protocol/codec.py:105-179 | the error that one changed byte causes, for each part of a datagram where the MAC is not needed to find it |
| `Codec.DamagedHeader` | src/wireline/protocol/codec.py:105-128 | the error that one changed byte of a header causes, or which field it changes |
| `Codec.HeaderPrecedence` | src/wireline/protocol/codec.py:105-128 | for all 19 bytes: the first fault in the order magic, version, length, flags, type decides the error, and a header without one is read field by field |
| `Codec.DatagramPrecedence` | src/wireline/protocol/codec.py:150-179 | for all bytes: too short, then the header's fault, then a body of another length, then the CRC, then the MAC; and accepted otherwise |
| `Codec.EncodeLayout` | src/wireline/protocol/codec.py:82-102 | every field of an encoded frame at its offset, with its value in the tables of the protocol: "WIRE", version 1, type 1 to 8, flags, number, length and CRC most significant byte first, then the payload, then the MAC over all of it |
| `Messages.AckRoundTrip` | src/wireline/protocol/messages.py:76-85 | the number in an ACK payload is read back |
| `Messages.AckIsJson` | src/wireline/protocol/messages.py:76-77 | the ACK payload is the JSON text {"ack_seq":N} without spaces |
| `Messages.DecimalRoundTrip` | src/wireline/protocol/messages.py:22-23 | a printed number is a decimal without leading zeros and of the same value |
| `Sessions.OnFrameMeaning` | src/wireline/session.py:72-149 | an open session stays open exactly on a welcome frame and then sends what it owes; otherwise it closes with BYE for BYE, silently for a readable ERROR, and else with one ERROR giving the reason |
| `Sessions.OnFrameReplies` | src/wireline/session.py:72-149 | the frames an open session sends for a frame, numbered from its next number |
| `Sessions.RunsMeaning` | src/wireline/session.py:72-87 | a frame reaches `_dispatch` exactly when the session records its number, and then the reaction is the handler's result or its error; otherwise it is ERR_SEQ, or silence after a close |
| `Sessions.AcceptsMeaning` | src/wireline/session.py:101-144 | `_dispatch` serves a readable HELLO only in NEW, and in READY a PING, PONG, DATA, ACK, BYE or readable ERROR |
| `Sessions.ServedMeansNoError` | src/wireline/session.py:72-87 | an open session answers with ERROR exactly the frames that do not reach `_dispatch` or are refused there |
| `Sessions.ServerSession.OnFrame` | src/wireline/session.py:72-87 | the method's new fields and reaction, for every state, frame and failing handler |
| `Sessions.ServerSession.Dispatch` | src/wireline/session.py:101-136 | the handler's reaction, or its error with no field changed |
| `Sessions.ServerSession.OnHello` | src/wireline/session.py:138-144 | a readable HELLO makes the session READY and is answered with HELLO_ACK; an unreadable one changes nothing |
| `TcpServer.TranscriptGrammar` | src/wireline/server.py:90-135 | for every input and every way it stops, what is written is a prefix of HELLO_ACK (PONG or DATA)* (BYE or ERROR) or a lone ERROR, numbered 0, 1, 2, ... mod 2^32, and at every turn of the loop and behind it the session is in NEW, READY or CLOSED |
| `TcpServer.ForeignClient` | src/wireline/server.py:110-120 | a new connection whose first 19 bytes do not start with "WIRE" is answered with exactly one frame, ERROR(ERR_MAGIC) numbered 0, whatever follows and however it ends, and is closed |
| `TcpServer.BrokenStream` | src/wireline/server.py:117-120 | bytes with a header fault behind whole frames are answered, if the session is still open, with one ERROR of that fault under the session's next number, as the last frame |
| `TcpServer.TimeoutIsQuiet` | src/wireline/server.py:114-116 | a timeout writes nothing and closes the session; the stream's end or reset writes nothing either |
| `TcpServer.ReadyTranscript` | src/wireline/server.py:104-124 | from READY the loop writes consecutively numbered echoes and at most one closing frame, which is last |
| `TcpServer.ServeIsConverse` | src/wireline/server.py:104-124 | the loop gives the session exactly the frames of the one-shot parse of the stream, then its first error |
| `TcpServer.ServeIsCausal` | src/wireline/server.py:104-124 | for arbitrary bytes, what is written after part of a stream is a prefix of what is written after all of it |
| `TcpServer.ServeInParts` | src/wireline/server.py:104-124 | serving whole frames and then the rest, with the session kept in between, is serving the whole stream |
| `TcpServer.AdvanceIsModular` | src/wireline/session.py:50-53 | the k-th number of a sequence is its start plus k modulo 2^32 |
| `TcpServer.WirelineServer.Handle` | src/wireline/server.py:90-135 | the loop on reader and session objects writes what the fold of the session over the stream writes, passes through the same sessions, and counts the connection |
| `TcpServer.WirelineServer.Turn` | src/wireline/server.py:104-124 | one turn of the loop on those objects: a frame, a timeout, an error or the end of the stream |
| `TcpClients.Lockstep` | src/wireline/client.py:92-145 | on whole byte streams: for a valid handshake and fewer than 2^32 calls the server answers request n with reply n of the same payload, and against those bytes the client writes exactly those requests and accepts every reply |
| `TcpClients.ConnectionLockstep` | src/wireline/client.py:92-145 | in the closed loop, where each call is written only when the one before has returned and the server keeps its session, the n-th of fewer than 2^32 calls after a valid handshake returns the echo numbered n |
| `TcpClients.ConnectedEchoes` | src/wireline/client.py:112-145 | from any point of a connection in step, every further call in the closed loop returns its own echo and leaves nothing unread |
| `TcpClients.ServerEchoes` | src/wireline/session.py:110-149 | calls numbered from n are answered with the echoes numbered from n |
| `TcpClients.ClientTalks` | src/wireline/client.py:112-145 | against those echoes the client writes the calls and accepts every reply |
| `TcpClients.ReplyAt` | src/wireline/session.py:116-121 | the i-th reply carries the i-th call's number and payload, as PONG for PING and DATA for DATA |
| `TcpClients.RepliesAreCausal` | src/wireline/client.py:117-118 | after the bytes of the first j calls the server has written the first j replies and no others, and they are a prefix of what it writes in the end |
| `TcpClients.NumbersRunOut` | src/wireline/client.py:142-145 | once the last number was accepted the client's next frame has number 0 and the server answers ERR_SEQ |
| `TcpClients.AcceptedNumbersIncrease` | src/wireline/client.py:129-140 | against any stream the frames a client returns have strictly increasing numbers |
| `TcpClients.RequestWrites` | src/wireline/client.py:112-127 | a ready client writes the frame asked for, type, payload and flags, under its next number, which is used up even when the frame cannot be encoded |
| `TcpClients.RequestReads` | src/wireline/client.py:129-140 | the next frame is returned if its number is above every accepted one, and otherwise consumed and refused with ERR_SEQ |
| `TcpClients.RequestBreaks` | src/wireline/client.py:129-134 | a header with a fault fails the request with that fault |
| `TcpClients.HandshakeGates` | src/wireline/client.py:92-118 | the handshake succeeds only on a readable HELLO_ACK, and after any other outcome every request fails with ERR_STATE and writes nothing |
| `TcpClients.HandshakeMeaning` | src/wireline/client.py:92-104 | by the frame that answers it: READY on a readable HELLO_ACK; failure with the code an ERROR carries, with the reason a HELLO_ACK cannot be read, or with ERR_STATE for another type; HANDSHAKE until then |
| `TcpClients.WirelineClient.HandshakeWith` | src/wireline/client.py:92-104 | what is written, returned and stored, the session id included, for every reply and every way the stream stops |
| `TcpClients.WirelineClient.Request` | src/wireline/client.py:112-118 | what is written, returned and stored by one request |
| `TcpClients.WirelineClient.Recv` | src/wireline/client.py:129-140 | a frame above the last accepted number, ERR_SEQ for another, or the stream's error or end |
| `TcpClients.WirelineClient.Send` | src/wireline/client.py:122-127 | the number is taken before encoding, also when encoding fails |
| `Checksums.InsertedChecksumVerifies` | tools/make_pcap_fixture.py:33-55 | written into its zeroed field at any even offset, the checksum makes the whole check out |
| `Checksums.ChecksumAccepts` | tools/make_pcap_fixture.py:33-41 | the check accepts exactly the data whose words sum to a nonzero multiple of 65535 |
| `Checksums.OddLength` | tools/make_pcap_fixture.py:34-38 | data of odd length is summed as if a zero byte followed it |
| `Checksums.FoldMeaning` | tools/make_pcap_fixture.py:39-40 | folding carries reduces modulo 65535, and only zero gives zero |
| `Checksums.Checksum` | tools/make_pcap_fixture.py:33-41 | both loops end and compute the complement of the folded word sum of the padded data |
| `Packets.TcpPacketRoundTrip` | src/wireline/sniff/dissect.py:113-168 | a TCP segment built over IPv4 and Ethernet dissects to its addresses, ports, flags and payload, padding excluded |
| `Packets.UdpPacketRoundTrip` | src/wireline/sniff/dissect.py:113-168 | the same for a UDP datagram |
| `Packets.Ipv4ChecksumVerifies` | tools/make_pcap_fixture.py:48-55 | the header checksum of every built IPv4 packet verifies |
| `Packets.Ipv4Layout` | tools/make_pcap_fixture.py:48-55 | every field of a built IPv4 header at its offset |
| `Packets.TcpLayout` | tools/make_pcap_fixture.py:58-60 | every field of a built TCP header at its offset |
| `Packets.UdpLayout` | tools/make_pcap_fixture.py:63-64 | every field of a built UDP header at its offset |
| `Packets.EthernetLayout` | tools/make_pcap_fixture.py:44-45 | destination, source and type 0x0800 |
| `Packets.NetworkRoundTrip` | src/wireline/sniff/dissect.py:133-141 | the addresses, protocol and body of a built IPv4 packet are read back whatever follows it |
| `Packets.TcpPacketWithOptions` | src/wireline/sniff/dissect.py:113-168 | a TCP segment with any options in an IPv4 packet with any options, over Ethernet, raw IP or loopback, dissects to its addresses, ports, flags and exact payload |
| `Packets.TcpOptionsAreSkipped` | src/wireline/sniff/dissect.py:144-152 | the payload starts where the data offset says, behind 0 to 40 bytes of options |
| `Packets.TcpPayloadStart` | src/wireline/sniff/dissect.py:148-152 | and for every data offset, also inside the fixed header or past the end |
| `Packets.Ipv4LengthsAreObeyed` | src/wireline/sniff/dissect.py:137-141 | the body starts behind the IPv4 options and ends where the total length says; a total length of zero, or one beyond what was captured, gives everything |
| `Packets.UdpLengthIsObeyed` | src/wireline/sniff/dissect.py:153-159 | the same for the UDP length, where less than 8 gives everything |
| `Packets.NoTransportHeader` | src/wireline/sniff/dissect.py:144-162 | too little for a TCP or UDP header leaves the row as it is, and another protocol is noted |
| `Packets.NotIpv4IsNoted` | src/wireline/sniff/dissect.py:134-136 | what is too short or of another IP version is noted and not looked into |
| `Packets.LinkLayers` | src/wireline/sniff/dissect.py:117-131 | Ethernet, raw IP, loopback behind any four bytes, other ethertypes and other link types |
| `Packets.DissectPacket` | src/wireline/sniff/dissect.py:113-168 | the filled row for every packet, link type and truncation |
| `Pcap.CaptureRoundTrip` | src/wireline/sniff/pcap.py:42-90 | a written file, in either byte order, reads back to its link type and packets |
| `Pcap.CutCapture` | src/wireline/sniff/pcap.py:42-71 | a file cut anywhere behind its header yields exactly the records wholly in the cut, and raises unless cut between records: for the header or for the data of the record it cuts |
| `Pcap.AnyRecord` | src/wireline/sniff/pcap.py:59-71 | a record with any time and any original length, also one captured short, in either byte order, reads back to all of them |
| `Pcap.NotACapture` | src/wireline/sniff/pcap.py:45-53 | a file too short for its header, or with another magic, yields nothing and raises |
| `Pcap.FileLayout` | src/wireline/sniff/pcap.py:81-83 | every field of a written file header at its offset |
| `Pcap.WritePackets` | src/wireline/sniff/pcap.py:74-90 | the little-endian file of a list of packets |
| `Pcap.ReadPackets` | src/wireline/sniff/pcap.py:42-71 | the link type, the packets and the error of a file |
| `Pcap.ReadRecord` | src/wireline/sniff/pcap.py:60-71 | one turn of the loop yields the next record and moves behind it, or gives the error of the cut |
| `Reassembly.FlowIsolation` | src/wireline/sniff/dissect.py:185-208 | the frames of a direction, told by its two addresses and two ports, are those of its own payloads processed alone, for every interleaving |
| `Reassembly.KeysAreDirections` | src/wireline/sniff/dissect.py:181-182 | two rows have one key exactly if they agree in both addresses and both ports |
| `Reassembly.FlowsReported` | src/wireline/sniff/dissect.py:197-203 | a direction is reported exactly if a TCP or UDP row with payload was captured of it |
| `Reassembly.ReassemblyIsOneParse` | src/wireline/sniff/dissect.py:185-208 | on a direction without errors the frames are those of one parse of its concatenated payloads |
| `Reassembly.FollowingResumes` | src/wireline/sniff/dissect.py:204-207 | after a refused payload the frames before it stay and the later payloads, whatever they are, are followed as a direction of their own, so more is reported if and only if they report something alone |
| `Reassembly.FramesAfterErrorAreFound` | src/wireline/sniff/dissect.py:204-207 | frames sent behind a refused payload are found again |
| `Reassembly.ObserverSeesEncodedFrames` | src/wireline/sniff/dissect.py:185-192 | the frames a peer encoded into a captured direction are found without the key |
| `Reassembly.ReassembleFlows` | src/wireline/sniff/dissect.py:185-208 | the loop over rows with one buffer object a direction finds the frames of every direction, as `FlowIsolation` tells them |

## Left out

- Event loops, sockets, TLS and certificates: a stream is the list of chunks that arrive and the way it stops, and a timeout is one of these ways.
- CRC32 and HMAC-SHA256 as functions: `Library` fields with no assumed law. Nothing is claimed about forging. `UdpSystem` states its ideal MAC as a condition on what third parties can inject.
- Third parties that cut or splice genuine datagrams into others that pass the MAC, or send one client's datagrams from another's address: not actions of `UdpSystem` and `UdpFleet`.
- JSON of HELLO, HELLO_ACK and ERROR, and ACK payloads in other spellings than the one printed: `Library` fields that return a value or a protocol error. A JSON failure the source does not turn into a protocol error, such as nesting too deep, is not modelled.
- Human-readable reasons and log lines: the payload of an ERROR depends on its code only.
- Nonces, session ids and the random loss of `LossyLink`: inputs, or choices of the network.
- Empty datagrams at the UDP client: the source fails indexing the missing first frame (src/wireline/transport/udp.py:324), so the client's methods require nonempty ones.
- A negative window size: the eviction loop would pop from an empty dictionary; sizes are natural numbers.
- UdpSystem.ReplyCorrelation: one client lifetime of at most 2^32 requests, one at a time, because two requests that share a number cannot be told apart by their acknowledgements.
- UdpRpc.Refinement: requests are a HELLO and then PING, PONG, DATA and ACK; a BYE or an ERROR ends the session by design and with it the regime.
- `UdpClient.connect` and `send_data`: `request` with a fixed type, followed by reading one payload field.
- Which of the two server timeouts applies (handshake or idle): both act alike, and a timeout is one way a stream stops.
- Opening and closing the TCP client, and its state after a timeout in the middle of a frame.
- Failing writes, concurrent requests on one client, and several client lifetimes on one address.
- Checksums of TCP and UDP headers: the builders leave them zero.
- Addresses and flags as text, and row timestamps: addresses stay four or six bytes, capture times are whole microseconds.
- The command line, configuration, benchmarks, tables, and the fixture session of `tools/make_pcap_fixture.py`: presentation.
