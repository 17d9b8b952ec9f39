# Verified models of the DNS, sniffing and stream cores of a Rust port of Xray-core

This project models five parts of the system in Dafny and proves properties of them over every arrival
order, chunking, interleaving or input:

- **DNS query orchestration**: policy groups and the parallel query over every completion order, the
  serial query, the merge of errors, the choice of name servers, static hosts with bounded redirects, and
  the entry point that joins them.
- **DNS cache**: copy-on-write records shared with readers, the two-phase cleanup with writers in
  between, lifetimes and stale serving.
- **Streams that must not care about chunking**: the XUDP codec, the frame rewriter, the UDP session, the
  byte stream over a link with its counters, and the caching reader with its retry loop.
- **Protocol recognisers**: TLS ClientHello, QUIC CRYPTO reassembly, uTP, and the shrinking sniffer set.
- **The commander's listener**: a bounded queue whose `add`, `accept` and `close` interleave step by step.

Code that updates state in place is a class or a method with loops, proved against a specification on
values; the properties are lemmas about those specifications. I/O is a sequence of answers the other side
will give. Time, randomness, the domain matchers, lower-casing, error display and the individual name
servers are parameters, so that every behaviour of theirs is covered.

## What the proofs found

These are places where a promise of the code or its documentation does not hold on all inputs. Each has an
input that shows it and the exact condition under which the promise holds; for names found in QUIC data that
arrive out of order the condition is sufficient, and "Left out" says why it has no converse.

- XUDP metadata is assembled in a 32-byte buffer that truncates silently, so a frame with a domain target
  reads back as written only up to 28 bytes of name (`Xudp.MetaRoundTrip`; `Xudp.LongDomainLost` is one of 29).
  The rewriter and the UDP session inherit the limit (`EndpointOverride.MeaningPreserved`,
  `UdpSession.RequestsDecode`).
- A response frame New or Keep without data makes `recv_packet` wait with the frame still buffered, and
  everything behind it is stuck. Responses are all delivered exactly when no payload is behind such a frame
  (`UdpSession.AllDelivered`; `UdpSession.StallLosesPayload` is an instance).
- The rewriter waits for more bytes whenever the head of its buffer is no complete frame, also when it can never
  become one: a header with an unknown status or a bad address stops the stream for good
  (`StuckHeader.BadStatusSticks`; `StuckHeader.StuckExactly` says exactly when).
- `retain_at` uses relative positions for absolute indices. The sniffers that should survive do exactly
  when at most one is kept (`SnifferSet.RetainIntended`); with HTTP and TLS both waiting, TLS is lost
  (`SnifferSet.TlsProbeLost`). A TLS connection whose first read brings one to four bytes is therefore never
  recognised (`TcpSniffing.ShortReadNeverRecognised`); one whose first read brings five or more is, once its
  record has been read (`TcpSniffing.RecognisedExactly`). The comment beside the function says otherwise; the
  model follows the code.
- `close` uses `notify_waiters`, which leaves no permit. An acceptor whose wait is created after the
  broadcast sleeps on a closed listener, for good unless an `add` is still on its way
  (`Listener.SleepAfterClose`, `ListenerClose.CloseCanBeMissed`, `ListenerClose.WakesExactly`).
- A skipped FakeDNS server counts as an empty response in the parallel query and not at all in the serial
  one (`DnsQuery.SkipChangesError`). `DnsQuery.SkippedErrorsAgree` says exactly when the two report the same error.
- With serve-stale on and limit 0, cleanup removes answers that the query path would still serve
  (`DnsCache.UnlimitedStaleLost`). The same holds at a limit of exactly 2^31 seconds for answers overdue by more
  than that, because the lifetime saturates below it; for all other limits the two agree
  (`DnsRecords.ServedButExpired`).
- A read of a link stream into an empty buffer drops the pending bytes (`LinkStream.EmptyReadLoses`). The stream
  is intact under every schedule exactly when no read has an empty buffer
  (`LinkStream.IntactUnderAllSchedules`).
- QUIC CRYPTO data are parsed after every packet, with gaps reading as zeros. A missing session id length can
  make the sniffer report a name the client never sent (`QuicGaps.GapMisleads`). The name is right when the data
  arrive in order (`QuicGaps.NameRecoveredInOrder`), and in any order as long as no packet leaves a full-length
  buffer with a wrong type or length byte (`QuicGaps.NameRecovered`).
- An `add` that reads the flag before `close` sets it can push after the queue was cleared. The connection is
  then queued in a closed listener (`ListenerClose.QueuedInClosed`); `ListenerClose.QueueAfterClose` says exactly when.

## Model

| member | source | states |
|---|---|---|
| Xudp.HeaderStable | crates/xray-xudp/src/packet.rs:205-225 | a header that parses, or fails for good, parses the same whatever bytes follow |
| Xudp.ParsedWellFormed | crates/xray-xudp/src/packet.rs:205-288 | whatever parses is a well-formed metadata value, so it can be written again |
| Xudp.TargetRoundTrip | crates/xray-common/src/protocol/address_parser.rs:23-125 | port and address read back as written, with any bytes behind them, for every target that fits the buffer |
| Xudp.TargetCut | crates/xray-common/src/protocol/address_parser.rs:43-62 | a target that does not fit is cut to 32 bytes, and reads back as itself only by taking bytes that follow it |
| Xudp.MetaRoundTrip | crates/xray-xudp/src/packet.rs:158-288 | metadata reads back as written, with any bytes behind it, if and only if its domain has at most 28 bytes |
| Xudp.LongDomainLost | crates/xray-xudp/src/packet.rs:167-194 | a header for a domain of 29 letters does not read back, whatever follows it |
| Xudp.SampleHeaders | crates/xray-xudp/src/packet.rs:158-194 | headers byte by byte, one of each status, address type and option: lengths, type bytes, ports and ids are where the format has them |
| Xudp.NextStable | crates/xray-app-dispatcher/src/endpoint_override.rs:29-48 | a complete frame at the front of a stream is the same frame when more bytes arrive |
| Xudp.CopiedFrame | crates/xray-app-dispatcher/src/endpoint_override.rs:29-48 | a frame cut out of a stream and put before other bytes is recognised as the same frame |
| Xudp.EncodedFrame | crates/xray-xudp/src/packet.rs:158-194 | written metadata with its payload is recognised as that frame exactly when the metadata fits |
| EndpointOverride.RewriteCompleteFrames | crates/xray-app-dispatcher/src/endpoint_override.rs:25-67 | the loop over the buffer produces the rewritten complete frames and how far it got; what they mean is `MeaningPreserved` and `UntouchedIsCopied` |
| EndpointOverride.RewriteSplit | crates/xray-app-dispatcher/src/endpoint_override.rs:25-67 | rewriting a stream in two pieces, carrying the unparsed tail over, equals one pass over the whole, for every cut |
| EndpointOverride.RewrittenFrame | crates/xray-app-dispatcher/src/endpoint_override.rs:50-64 | a rewritten frame reads back as the overridden one exactly when the new address fits |
| EndpointOverride.MeaningPreserved | crates/xray-app-dispatcher/src/endpoint_override.rs:25-67 | the rewritten stream decodes to the old frames in order, each with its status, flag, id and payload; a target with the old address has the new one and its own port, any other target is as before; if and only if the new address fits or no frame is for the old one |
| EndpointOverride.UntouchedIsCopied | crates/xray-app-dispatcher/src/endpoint_override.rs:50-64 | without a frame for the old address the output is the input, byte for byte, up to the end of the last complete frame |
| EndpointOverride.OverrideWriter.WriteMultiBuffer | crates/xray-app-dispatcher/src/endpoint_override.rs:139-158 | after any writes, the forwarded bytes and the held-back tail are one rewrite of all input |
| EndpointOverride.OverrideReader.Absorb | crates/xray-app-dispatcher/src/endpoint_override.rs:94-102 | one more part emits what one rewrite of all input adds, and nothing only if no frame completed |
| EndpointOverride.OverrideReader.ReadMultiBuffer | crates/xray-app-dispatcher/src/endpoint_override.rs:88-119 | takes answers up to the first that completes a frame, ends the stream or fails, and no further; at the end exactly one rewrite of all input and then the unparsed tail have been emitted, a failure is reported, and before that no read returns nothing |
| StuckHeader.StuckExactly | crates/xray-app-dispatcher/src/endpoint_override.rs:29-35 | more bytes can let the rewriter move on if and only if what it holds can still become a header: length at least four, known status, and an address that fits the header and is UTF-8, as far as they are there |
| StuckHeader.StuckForGood | crates/xray-app-dispatcher/src/endpoint_override.rs:25-67 | otherwise nothing behind it is ever rewritten or forwarded, whatever arrives |
| StuckHeader.BadStatusSticks | crates/xray-app-dispatcher/src/endpoint_override.rs:29-35 | a header with an unknown status in front of any bytes: all of them stay |
| UdpSession.RequestsDecode | crates/xray-app-dispatcher/src/udp_session.rs:80-104 | the request stream decodes to exactly the sent datagrams: as many frames, each with data, its own target and its own payload, the first New with the session id, all later ones Keep without one; if and only if every target fits |
| UdpSession.TryReadPacket | crates/xray-xudp/src/packet.rs:411-451 | the packet reader's loop over frames without data, against its recursive meaning, with the bytes it used |
| UdpSession.ReadStable | crates/xray-xudp/src/packet.rs:411-451 | a packet or error found in a prefix is found unchanged when more bytes follow |
| UdpSession.DrainSplit | crates/xray-app-dispatcher/src/udp_session.rs:110-151 | the events of a response stream do not depend on how it is cut |
| UdpSession.ResponsesDrain | crates/xray-app-dispatcher/src/udp_session.rs:110-151 | an encoded response stream yields its payloads in order with their targets, up to the first frame that stalls |
| UdpSession.BadFrameSkipped | crates/xray-xudp/src/packet.rs:411-430 | a frame that cannot be read is reported once and skipped, whole or, if its length is too small, by its length field; what follows is read as if it came first |
| UdpSession.PartialFrameWaits | crates/xray-xudp/src/packet.rs:411-440 | every strict prefix of a frame reports nothing and stays in the buffer |
| UdpSession.AllDelivered | crates/xray-app-dispatcher/src/udp_session.rs:118-140 | every payload is delivered if and only if none is behind a New or Keep frame without data |
| UdpSession.StallLosesPayload | crates/xray-app-dispatcher/src/udp_session.rs:118-140 | an empty Keep frame before one with a payload: the payload is never delivered |
| UdpSession.Pump | crates/xray-app-dispatcher/src/udp_session.rs:118-151 | the loop stops at the first buffer that holds a packet or a bad frame, and otherwise at the first end, the first failure or the last answer, and says which |
| UdpSession.Session.SendPacket | crates/xray-app-dispatcher/src/udp_session.rs:80-104 | payloads of length 1 to 65535 join the sent list in order, others change nothing, and the bytes written are always the stream of the sent list |
| UdpSession.Session.RecvPacket | crates/xray-app-dispatcher/src/udp_session.rs:110-151 | events come in stream order under every chunking; a reply comes from its frame's target, or from the first destination if the frame has none; no answer is taken past the first decision, end or failure; an end is reported as closed and a failure as an error; a parse error consumes buffered bytes; with nothing to report nothing parseable is left |
| ClientHello.ScanNames | crates/xray-app-dispatcher/src/sniffer.rs:439-475 | the server-name loop acts on the first host_name entry; how its name decides is the round trips below |
| ClientHello.ScanExtensions | crates/xray-app-dispatcher/src/sniffer.rs:430-481 | the extension loop acts on the first server_name extension |
| ClientHello.ScanBody | crates/xray-app-dispatcher/src/sniffer.rs:394-482 | the offset walk over the hello body equals field-by-field parsing |
| ClientHello.ParseHandshake | crates/xray-app-dispatcher/src/sniffer.rs:373-482 | the handshake parser computes the layered parse, and refuses any other message type |
| ClientHello.ParseRecord | crates/xray-app-dispatcher/src/sniffer.rs:346-370 | the record parser computes the layered parse, and refuses any other record type or major version |
| ClientHello.HandshakeRoundTrip | crates/xray-app-dispatcher/src/sniffer.rs:373-482 | an encoded hello is judged by its first host name, after any other extensions and entries and with any bytes behind: the name if it has no byte up to 0x20 and no dot at its end, NeedMoreData exactly if it has such a byte, refused exactly for the dot otherwise |
| ClientHello.RecordRoundTrip | crates/xray-app-dispatcher/src/sniffer.rs:346-482 | the same for records, also with trailing bytes |
| ClientHello.RecordPrefix | crates/xray-app-dispatcher/src/sniffer.rs:346-370 | every strict prefix of a record gives NoClue below five bytes and NeedMoreData otherwise |
| ClientHello.HandshakePrefix | crates/xray-app-dispatcher/src/sniffer.rs:373-392 | every strict prefix of a handshake message only asks to be tried again |
| ClientHello.FoundInHandshake | crates/xray-app-dispatcher/src/sniffer.rs:373-482 | a name is found if and only if it has no byte up to 0x20 and no dot at its end, and the bytes start with an encoded hello whose first host name it is |
| ClientHello.FoundInRecord | crates/xray-app-dispatcher/src/sniffer.rs:346-482 | the same for records: never a wrong name, and none missed |
| ClientHello.NoHostName | crates/xray-app-dispatcher/src/sniffer.rs:439-475 | a server name list without host_name entries is refused |
| ClientHello.NoServerName | crates/xray-app-dispatcher/src/sniffer.rs:430-481 | so is an extension block without a server_name extension |
| ClientHello.BodyCut | crates/xray-app-dispatcher/src/sniffer.rs:394-428 | a hello body that ends early: no clue before the end of the extension length field, NeedMoreData inside the block, and from its end on the name decides |
| QuicCrypto.WideRoundTrip | crates/xray-app-dispatcher/src/sniffer.rs:591-617 | the variable-length integers the decoder accepts read back as written, with their width |
| QuicCrypto.SampleIntegers | crates/xray-app-dispatcher/src/sniffer.rs:591-617 | the sample integers of RFC 9000, section A.1, of which those up to 65535 are read |
| QuicCrypto.WalkFrames | crates/xray-app-dispatcher/src/sniffer.rs:821-900 | the in-place loop over one packet leaves buffer and length as the frame-by-frame scan says, or stops where it does |
| QuicCrypto.PacketScanned | crates/xray-app-dispatcher/src/sniffer.rs:821-900 | an encoded packet has the effect of its frames, ACK and CONNECTION_CLOSE included |
| QuicCrypto.WalkEnds | crates/xray-app-dispatcher/src/sniffer.rs:821-900 | behind well-formed frames an unknown type or a cut-off CRYPTO frame ends the walk with what has been read, data outside the buffer or an unreadable integer is an error |
| QuicCrypto.CryptoRefused | crates/xray-app-dispatcher/src/sniffer.rs:857-884 | which CRYPTO frames those are: every one that ends outside the buffer, every one whose data is cut |
| QuicCrypto.SampleFrames | crates/xray-app-dispatcher/src/sniffer.rs:821-884 | padding, ping, acknowledgement and CRYPTO frames byte by byte |
| QuicCrypto.Reassembled | crates/xray-app-dispatcher/src/sniffer.rs:857-884 | for any frames that agree with one message, the buffer is the message where covered and unchanged elsewhere, and the length is the largest end |
| QuicCrypto.OrderIrrelevant | crates/xray-app-dispatcher/src/sniffer.rs:857-884 | two sequences covering the same positions with the same largest end leave the same state, whatever order, overlap or repeats |
| QuicCrypto.CompleteIsMessage | crates/xray-app-dispatcher/src/sniffer.rs:857-911 | once the message is covered, the bytes parsed are the message |
| QuicCrypto.SniffDecrypted | crates/xray-app-dispatcher/src/sniffer.rs:821-918 | the loop over packets computes the verdict of the packet-by-packet specification |
| QuicGaps.SafeBuffer | crates/xray-app-dispatcher/src/sniffer.rs:902-911 | a buffer with gaps that holds every type and length byte the walk through the hello reads (or is shorter than the hello, or does not look like one) can give no name but the message's |
| QuicGaps.NameRecovered | crates/xray-app-dispatcher/src/sniffer.rs:821-918 | for every cut into frames and packets and every order of arrival: if each packet leaves such a buffer, the result is the message's name |
| QuicGaps.NameRecoveredInOrder | crates/xray-app-dispatcher/src/sniffer.rs:821-918 | if after every packet the covered positions are a part of the message from its start, with any overlaps and repeats, the message's name is found, with no other condition |
| QuicGaps.InOrderExactly | crates/xray-app-dispatcher/src/sniffer.rs:821-918 | packets that carry a hello in order give its name if they carry all of it, and otherwise the request for more data |
| QuicGaps.GapMisleads | crates/xray-app-dispatcher/src/sniffer.rs:902-911 | two packets that together carry a hello for "a" exactly, of which the first lacks the session id length: the result is "b" |
| QuicGaps.MissingLengthIsHarmless | crates/xray-app-dispatcher/src/sniffer.rs:373-392 | not every other buffer misleads: with the hello's length missing no name is found |
| Utp.Sniff | crates/xray-app-dispatcher/src/sniffer.rs:931-984 | the offset loop accepts exactly what the recursive description accepts |
| Utp.SynAccepted | crates/xray-app-dispatcher/src/sniffer.rs:931-984 | every encoded SYN with valid extensions is accepted |
| Utp.AcceptedIsSyn | crates/xray-app-dispatcher/src/sniffer.rs:931-984 | every accepted packet is the encoding of some SYN with valid extensions, with nothing left over |
| Utp.ExactLanguage | crates/xray-app-dispatcher/src/sniffer.rs:931-984 | accepted if and only if an encoding |
| SnifferSet.Retain | crates/xray-app-dispatcher/src/sniffer.rs:168-171 | the iterator loop keeps what taking relative positions keeps |
| SnifferSet.RetainIntended | crates/xray-app-dispatcher/src/sniffer.rs:168-171 | for ascending indices the kept sniffers are those at the indices if and only if there is at most one index |
| SnifferSet.RetainSubsequence | crates/xray-app-dispatcher/src/sniffer.rs:168-171 | whatever is kept is a subsequence of the set |
| SnifferSet.Sniffer.Sniff | crates/xray-app-dispatcher/src/sniffer.rs:83-131 | the first sniffer that hits or needs data decides; a hit leaves the set unchanged; otherwise the set shrinks by the waiting ones; verdict and set are those of the round specification |
| SnifferSet.RoundExactly | crates/xray-app-dispatcher/src/sniffer.rs:83-131 | the round in terms of the answers: only content sniffers of this network count, the first hit or incomplete message decides, and without either a retry is asked for exactly if some sniffer asks for one |
| SnifferSet.Sniffer.SniffMetadata | crates/xray-app-dispatcher/src/sniffer.rs:133-164 | the metadata round: first hit wins and leaves the set alone, otherwise content sniffers are kept with the waiting ones |
| SnifferSet.SurvivorsIntended | crates/xray-app-dispatcher/src/sniffer.rs:83-131 | after a round without a decision the survivors are the waiting sniffers if and only if at most one waits |
| SnifferSet.TlsProbeLost | crates/xray-app-dispatcher/src/sniffer.rs:995-1004 | with the default set, HTTP and TLS both waiting leaves HTTP and BitTorrent |
| TcpSniffing.BeginsWithMethod | crates/xray-app-dispatcher/src/sniffer.rs:242-258 | the loop over the methods, with its early exits, computes the scan: undecided at the first method longer than the payload |
| TcpSniffing.HttpOnTls | crates/xray-app-dispatcher/src/sniffer.rs:242-258 | the HTTP sniffer is undecided about the start of a TLS record below seven bytes and out from there on |
| TcpSniffing.ShortFirstRound | crates/xray-app-dispatcher/src/sniffer.rs:83-131 | a first round with one to four bytes of a TLS record leaves HTTP and BitTorrent, without TLS |
| TcpSniffing.ShortReadNeverRecognised | crates/xray-app-dispatcher/src/sniffer.rs:83-171 | with the default set, a TLS stream whose first bytes read are one to four is not recognised in any later round, for every timing |
| TcpSniffing.RecognisedExactly | crates/xray-app-dispatcher/src/default.rs:631-668 | a ClientHello whose record was read in full is recognised, with its name, if and only if the first bytes read were at least five |
| TcpSniffing.SniffTcp | crates/xray-app-dispatcher/src/default.rs:626-668 | from the reads of a connection to the outcome: the loop's verdicts are those of the shrinking set, the stream is unchanged, and a first read of one to four bytes of a TLS record leads to no recognition |
| SniffLoop.CachedReader.ReadFirst | crates/xray-app-dispatcher/src/default.rs:1522-1538 | caches the first packet, keeps an earlier one, and what a consumer will see stays the same |
| SniffLoop.CachedReader.ReadMore | crates/xray-app-dispatcher/src/default.rs:1545-1564 | appends one packet, tells end and failure apart, and what a consumer will see stays the same |
| SniffLoop.CachedReader.ReadMultiBuffer | crates/xray-app-dispatcher/src/default.rs:1574-1591 | hands out the cache once and then the source: what it returns and what is left are what was left |
| SniffLoop.CachedReader.ReadAll | crates/xray-app-dispatcher/src/default.rs:1574-1591 | a handler reading on receives exactly the stream, cached part first |
| SniffLoop.Conclude | crates/xray-app-dispatcher/src/default.rs:653-667 | the end of a round: which verdicts end the loop, and that attempts and budget otherwise leave room for another |
| SniffLoop.SniffConnection | crates/xray-app-dispatcher/src/default.rs:631-668 | for every sniffer and timing: payload k is the cache and all answers of the first k rounds, one answer a round; every read before the last succeeded in time, and the loop ends with exactly the outcome of the first read or verdict that ends it; at most two rounds are empty or without clue; the stream seen afterwards is unchanged |
| SniffLoop.GoesOnExactly | crates/xray-app-dispatcher/src/default.rs:631-668 | the loop goes on after n rounds if and only if each was inconclusive, at most one was empty or without clue, and together they took less than 200 milliseconds |
| LinkStream.SizeStatReader.Poll | crates/xray-app-dispatcher/src/stats.rs:123-132 | the counter is always the number of bytes of successful reads |
| LinkStream.SizeStatWriter.Poll | crates/xray-app-dispatcher/src/stats.rs:52-65 | a pending write passes on and counts nothing; a completed one is counted once, failed or not |
| LinkStream.ReadTo | crates/xray-buf/src/multi.rs:288-308 | moves the first bytes out, as many as fit, and leaves the rest in order |
| LinkStream.Stream.PollRead | crates/xray-app-dns/src/dial.rs:163-200 | out bytes, status, pending bytes and answers used are those of the read specification: pending bytes first, then the inner reader until it gives bytes, ends, fails or waits; an empty buffer drops what it meets |
| LinkStream.Stream.PollWrite | crates/xray-app-dns/src/dial.rs:203-225 | a write is reported written with its full length, closed, failed or pending exactly as the inner writer answers; only a reported one reaches it, and every completed one is counted |
| LinkStream.Stream.Run | crates/xray-app-dns/src/dial.rs:162-225 | for every list of calls and every schedule, the results and the final state are those of the traced run; what reached the inner writer is the concatenation of the first n bytes of every buffer whose write reported n, and the counters are the totals |
| LinkStream.EmptyReadLoses | crates/xray-app-dns/src/dial.rs:170-178 | two bytes, read with buffers of one, zero and two bytes: the second byte is never delivered |
| LinkStream.ReadBytes | crates/xray-app-dns/src/dial.rs:163-200 | a read into a non-empty buffer hands out and keeps exactly the pending and arriving bytes in order; into an empty one it keeps none |
| LinkStream.ReadEnds | crates/xray-app-dns/src/dial.rs:163-200 | bytes mean success, and fewer than asked for leave nothing pending; otherwise the last answer taken decides between end, failure and waiting, and only answers with bytes are passed over |
| LinkStream.IntactExactly | crates/xray-app-dns/src/dial.rs:162-225 | under a given schedule, delivered plus pending is the source stream if and only if no read into an empty buffer meets pending or arriving bytes |
| LinkStream.IntactUnderAllSchedules | crates/xray-app-dns/src/dial.rs:162-225 | a list of calls keeps the stream intact under every schedule if and only if none of its reads has an empty buffer |
| Listener.OutboundListener.TryPush | crates/xray-app-commander/src/server.rs:65-70 | the lock section of add: queued at the end unless full |
| Listener.OutboundListener.PopFront | crates/xray-app-commander/src/server.rs:96-98 | the lock section of accept takes the oldest connection |
| Listener.Perform | crates/xray-app-commander/src/server.rs:61-115 | every atomic step of the listener object is the corresponding step of the machine |
| Listener.Execute | crates/xray-app-commander/src/server.rs:61-115 | every schedule run on the listener object ends in the fold of the machine's steps over the actions enabled in turn, in a reachable state that meets the invariant |
| Listener.RunIsScheduled | crates/xray-app-commander/src/server.rs:61-115 | every run of the machine is such a schedule, so the object goes through all of them |
| Listener.ReachableInv | crates/xray-app-commander/src/server.rs:61-115 | the invariant holds in every state of every interleaving |
| Listener.NoLostWakeup | crates/xray-app-commander/src/server.rs:61-103 | the acceptor never sleeps on a non-empty queue unless some add still owes its notification |
| Listener.Bounded | crates/xray-app-commander/src/server.rs:65-70 | the queue never holds more than four connections |
| Listener.OnePlace | crates/xray-app-commander/src/server.rs:61-115 | each connection past its lock section is in exactly one of queued, accepted, cleared or dropped |
| Listener.AcceptOrder | crates/xray-app-commander/src/server.rs:61-103 | connections are accepted in push order, and before a close none is skipped |
| Listener.SleepAfterClose | crates/xray-app-commander/src/server.rs:100-115 | a sleeping acceptor of a closed listener will be woken by the close if and only if its wait was created before the broadcast |
| ListenerClose.CloseCanBeMissed | crates/xray-app-commander/src/server.rs:92-115 | a run exists after which the listener is closed, the acceptor sleeps, and no further run wakes it |
| ListenerClose.WakesExactly | crates/xray-app-commander/src/server.rs:61-115 | the sleeping acceptor of a closed listener can still be woken if and only if a close has not broadcast yet, or an add is on its way that saw the listener open |
| ListenerClose.QueueAfterClose | crates/xray-app-commander/src/server.rs:61-72 | a closed, emptied queue can fill again if and only if some add loaded the flag before the close and has not pushed yet |
| ListenerClose.QueuedInClosed | crates/xray-app-commander/src/server.rs:61-115 | a run exists after which all calls are over, the listener is closed and a connection is still queued |
| ListenerClose.AddAlone | crates/xray-app-commander/src/server.rs:61-72 | an add without interference: refused by a closed listener and by four queued connections, otherwise queued last with exactly one wake-up or permit |
| ListenerClose.CloseAlone | crates/xray-app-commander/src/server.rs:105-115 | a close without interference: nothing if closed already, otherwise the queue is emptied into the cleared ones and the waiter woken, no permit stored |
| ListenerClose.AcceptAlone | crates/xray-app-commander/src/server.rs:87-103 | one pass of accept without interference: nothing from a closed listener, the oldest connection, or a wait |
| ListenerClose.PollAlone | crates/xray-app-commander/src/server.rs:100-101 | the wait ends at once with a permit, which it uses up, or after a broadcast since its creation, and registers otherwise |
| ListenerClose.NothingAfterClose | crates/xray-app-commander/src/server.rs:92-98 | in every run from a closed listener nothing more is accepted, except by a call that has already looked at the flag |
| DnsMerge.MergeQueryErrors | crates/xray-app-dns/src/server.rs:564-607 | the loop with its early exit computes the summary: none, one kind with its first error, or several |
| DnsMerge.MergedKind | crates/xray-app-dns/src/server.rs:564-613 | the kind of the merged error is determined by the set of kinds other than RecordNotFound |
| DnsMerge.MergedErrorIs | crates/xray-app-dns/src/server.rs:564-607 | the merged error is the first that is not RecordNotFound if all others are RecordNotFound or of its variant, and the texts of all of them if not |
| DnsMerge.JoinedAppend | crates/xray-app-dns/src/server.rs:591-597 | the texts come in order with one separator between every two |
| DnsMerge.SameKinds | crates/xray-app-dns/src/server.rs:564-613 | non-empty lists with the same kinds merge to the same kind, whatever the order and repeats |
| DnsQuery.MakeGroups | crates/xray-app-dns/src/server.rs:354-378 | groups and group numbers are exactly the ranges between policy changes |
| DnsQuery.GroupsAreRuns | crates/xray-app-dns/src/server.rs:348-378 | two clients share a group if and only if all policies between them are equal |
| DnsQuery.AdvanceGroups | crates/xray-app-dns/src/server.rs:486-529 | finds a winner if and only if the outcomes settle on one, resuming from the groups already passed |
| DnsQuery.ParallelQuery | crates/xray-app-dns/src/server.rs:397-480 | for every arrival order the result is the winner of the first stage that settles, or the merged raw errors if none does |
| DnsQuery.OkExactlyWhenGood | crates/xray-app-dns/src/server.rs:397-480 | for every order, panic and skipped server: Ok if and only if some queried client has a non-empty answer |
| DnsRace.AskedExactly | crates/xray-app-dns/src/server.rs:421-428 | a client is passed over if and only if the query does not allow fake answers and it is called FakeDNS, in any case |
| DnsRace.ParallelExactly | crates/xray-app-dns/src/server.rs:397-529 | for every order: the answer is that of the first client in the list that is ahead at the first arrival after which one is (it has answered and all earlier groups are known to have failed), or of the first client with an answer if panics keep that from happening; without any answer it is the merge of one error per client |
| DnsQuery.WinnerInLowestGroup | crates/xray-app-dns/src/server.rs:397-529 | the answer is one client's, from the lowest group that has a non-empty answer |
| DnsQuery.FirstArrivalWins | crates/xray-app-dns/src/server.rs:456-462 | when the deciding arrival is from the winner's group, it is the winner |
| DnsQuery.FirstGoodWins | crates/xray-app-dns/src/server.rs:397-480 | if neighbouring policies differ, the first client in the list with a non-empty answer wins, whatever the order |
| DnsQuery.OrderIndependent | crates/xray-app-dns/src/server.rs:397-480 | two arrival orders agree on Ok and on the error, and on the whole result if neighbouring policies differ |
| DnsQuery.SerialQuery | crates/xray-app-dns/src/server.rs:310-339 | the result is that of the first queried client that does not fail, or the merged errors in order |
| DnsQuery.ParallelMatchesSerial | crates/xray-app-dns/src/server.rs:310-480 | with differing neighbours and no panic: a serial answer is the parallel one if and only if it is not empty; a serial error is a parallel error, the same one if no server is skipped |
| DnsQuery.SkipKeepsError | crates/xray-app-dns/src/server.rs:316-338 | with a skipped server the summary of the errors stays the same if and only if no server was asked or the only kind besides RecordNotFound is EmptyResponse |
| DnsQuery.SkipKeepsMergedError | crates/xray-app-dns/src/server.rs:564-607 | the same for the rendered error a caller receives |
| DnsQuery.SkippedErrorsAgree | crates/xray-app-dns/src/server.rs:310-480 | so with a skipped server the parallel and the serial query report the same error exactly then, for every arrival order |
| DnsQuery.SkipChangesError | crates/xray-app-dns/src/server.rs:421-428 | a skipped FakeDNS server beside one that finds nothing: RecordNotFound serially, EmptyResponse in parallel |
| SortClients.Order | crates/xray-app-dns/src/server.rs:136-202 | the two marking loops with their early returns give the matched clients, then the fallback ones, cut after the first final client, or the first client if that is nothing |
| SortClients.MatchedMembers | crates/xray-app-dns/src/server.rs:152-174 | the matched list holds exactly the clients some reported rule points to, each once |
| SortClients.MatchedByRule | crates/xray-app-dns/src/server.rs:153-166 | matched clients come in the order of the smallest rule that points to them |
| SortClients.FallbackMembers | crates/xray-app-dns/src/server.rs:179-192 | the fallback list holds exactly the unused clients not marked skip_fallback, in configuration order |
| SortClients.ChosenShape | crates/xray-app-dns/src/server.rs:136-202 | no duplicates, only existing clients, and at least one whenever there is one |
| SortClients.FirstChoice | crates/xray-app-dns/src/server.rs:152-174 | with a match the first client asked is that of the smallest matching rule, whatever order the matcher reports |
| SortClients.ChosenExactly | crates/xray-app-dns/src/server.rs:136-202 | who is asked under the two flags: only matching clients and, where both flags and skip_fallback leave them, others; all of these unless a final one ends the list; nobody behind a final one; the first client if that leaves nobody |
| SortClients.ChosenOrder | crates/xray-app-dns/src/server.rs:152-192 | matching clients come before others, which keep the configured order |
| SortClients.ChosenByRule | crates/xray-app-dns/src/server.rs:152-174 | of two matching clients the one with the smaller matching rule is asked first |
| Hosts.FilterIpEntries | crates/xray-app-dns/src/hosts.rs:230-244 | the loop keeps the addresses of enabled families in order |
| Hosts.FilteredSelects | crates/xray-app-dns/src/hosts.rs:230-244 | what the loop keeps is exactly the addresses of the families asked for, all of them and in order |
| Hosts.EntriesInOrder | crates/xray-app-dns/src/hosts.rs:136-146 | the entries of a name are those of each reported rule in the order reported, rules without a response passed over |
| Hosts.LookupInner | crates/xray-app-dns/src/hosts.rs:128-176 | at every depth the recursion follows the redirect relation: the answer or code of the first name that does not redirect, otherwise the last target |
| Hosts.LookupHosts | crates/xray-app-dns/src/hosts.rs:120-126 | the same six names deep, on every table, cycles included; nothing without a matcher |
| Hosts.FollowsUnique | crates/xray-app-dns/src/hosts.rs:120-176 | that description determines the answer |
| Hosts.ChainDecides | crates/xray-app-dns/src/hosts.rs:120-176 | from the recorded entries: a chain of up to five single-name entries is answered by the entries of its last name (the first response code, else the addresses of the families asked for, else the name itself), a chain of six by its last name |
| Hosts.FoundShape | crates/xray-app-dns/src/hosts.rs:154-176 | a found list is one replacement name or only addresses of enabled families |
| Hosts.ReplacementIs | crates/xray-app-dns/src/hosts.rs:158-172 | a replacement name is the end of the redirect chain: an unrecorded name, or the sixth target |
| Hosts.CycleComesBack | crates/xray-app-dns/src/hosts.rs:117-126 | two names redirecting to each other send the first one itself to the name servers |
| DnsService.ToNetIp | crates/xray-app-dns/src/config.rs:112-124 | succeeds if and only if all are addresses, and then keeps them in order |
| DnsService.LookupIp | crates/xray-app-dns/src/server.rs:208-276 | end to end: hosts is consulted once with the clamped families; an address answer has only enabled families and lifetime 10; a name or its replacement goes to the chosen name servers, in parallel or serially; every error case is as stated |
| DnsService.AskNameservers | crates/xray-app-dns/src/server.rs:265-275 | the chosen clients in order are asked, and the result is that of the parallel or serial query over them |
| DnsService.AnsweredExactlyWhenGood | crates/xray-app-dns/src/server.rs:208-276 | in parallel, a name that hosts does not answer is answered if and only if a chosen server that is asked has addresses for it or its replacement, whatever the order of arrival, and the answer is that of such a server |
| DnsService.AnsweredSerially | crates/xray-app-dns/src/server.rs:310-339 | serially, the answer is that of the first chosen server that is asked and does not fail, and there is an error if and only if all fail |
| DnsService.LookupChain | crates/xray-app-dns/src/server.rs:208-276 | from the recorded entries to the answer: code, addresses with lifetime 10, EmptyResponse if none is of a family asked for, or the name servers asked for the end of the chain |
| DnsService.ClampIs | crates/xray-app-dns/src/server.rs:221-239 | which families each strategy leaves |
| DnsService.TrimmedIs | crates/xray-app-dns/src/server.rs:213-214 | one dot at the end of the name is taken off and nothing else |
| DnsRecords.TtlSign | crates/xray-app-dns/src/dnscommon.rs:160-168 | rounding and saturation keep the sign of the remaining lifetime |
| DnsRecords.TtlAbove | crates/xray-app-dns/src/dnscommon.rs:160-168 | a rounded lifetime is above -s if and only if the record is overdue by at most s - 1 seconds |
| DnsRecords.LifetimeSeconds | crates/xray-app-dns/src/dnscommon.rs:160-168 | the exact number of seconds, rounded up, saturated at 2^31 - 1, and negated for an overdue record |
| DnsRecords.MergeRecords | crates/xray-app-dns/src/dnscommon.rs:178-232 | the loop over the two families with its early returns computes the merge that the next row describes |
| DnsRecords.MergedIs | crates/xray-app-dns/src/dnscommon.rs:143-232 | on the records: both families give all addresses, IPv4 first, the smallest of the two lifetimes and 600, and an error exactly if there is no address, which one by the response codes; one family gives its own; a missing half gives RecordNotFound; no family gives nothing |
| DnsRecords.MergedTtl | crates/xray-app-dns/src/dnscommon.rs:178-232 | the merged lifetime is no longer than that of any half used |
| DnsRecords.StaleAgrees | crates/xray-app-dns/src/cache_controller.rs:267-275 | with stale serving and a limit S, a merge above -S used no half that cleanup counts as expired |
| DnsRecords.FreshAgrees | crates/xray-app-dns/src/cache_controller.rs:267-275 | without stale serving the same for a positive lifetime |
| DnsRecords.ServedButExpired | crates/xray-app-dns/src/nameserver/cached.rs:122-173 | for every 32-bit limit, a half the query path may serve counts as expired if and only if it has addresses and stale serving is unlimited and it is overdue, or the limit is 2^31 and it is overdue by more than that |
| DnsRecords.ServedIsKept | crates/xray-app-dns/src/nameserver/cached.rs:116-139 | a half of a served answer is removed by cleanup at that instant if and only if it is one of those |
| DnsRecords.StaleResult | crates/xray-app-dns/src/nameserver/cached.rs:149-173 | a stale answer is the addresses of all enabled families, and none if a family is missing, negative or empty |
| DnsRecords.ServeCached | crates/xray-app-dns/src/nameserver/cached.rs:116-139 | the branches of the query path compute what the next two rows describe |
| DnsRecords.ServedOne | crates/xray-app-dns/src/nameserver/cached.rs:116-139 | one family: live addresses, a live negative answer, overdue addresses within the stale limit, or a miss, by these tests on its record |
| DnsRecords.ServedBoth | crates/xray-app-dns/src/nameserver/cached.rs:116-173 | both families: live exactly while both are, stale exactly if both have addresses and are within the limit, and then all addresses |
| DnsRecords.ExpiredExactly | crates/xray-app-dns/src/cache_controller.rs:267-275 | what cleanup calls expired, in seconds overdue, for every 32-bit limit |
| DnsCache.CleanedHalf | crates/xray-app-dns/src/cache_controller.rs:173-193 | cleanup drops a half if and only if its name was collected and it is expired at that moment |
| DnsCache.CleanedIsSwept | crates/xray-app-dns/src/cache_controller.rs:173-193 | the result does not depend on the order in which the expired keys were collected |
| DnsCache.TwoPhaseSafe | crates/xray-app-dns/src/cache_controller.rs:124-231 | with any writes in between: live halves stay as they are, collected halves still expired go, nothing else changes |
| DnsCache.ExpiredIsGone | crates/xray-app-dns/src/cache_controller.rs:143-193 | a half expired when the keys were collected is gone unless it was written in between |
| DnsCache.NoBlankKept | crates/xray-app-dns/src/cache_controller.rs:124-193 | no entry with both halves empty is kept |
| DnsCache.NothingExpiredLeft | crates/xray-app-dns/src/cache_controller.rs:143-193 | without writers in between no expired half is left |
| DnsCache.HitSurvives | crates/xray-app-dns/src/nameserver/cached.rs:116-139 | what the query path serves from the cache is served unchanged after a cleanup at that instant, unless a half it uses is one of those |
| DnsCache.HitLost | crates/xray-app-dns/src/nameserver/cached.rs:116-139 | in those cases, if the name was collected, the query misses after the cleanup |
| DnsCache.UnlimitedStaleLost | crates/xray-app-dns/src/cache_controller.rs:267-275 | with limit 0, an answer that may be served is removed |
| DnsCache.WatermarkCovers | crates/xray-app-dns/src/cache_controller.rs:163-219 | after every cleanup the mark is at or above the number of entries |
| DnsCache.WatermarkIs | crates/xray-app-dns/src/cache_controller.rs:195-219 | when the table is rebuilt or shrunk, in numbers, and what happens to the mark |
| DnsCache.CacheController.constructor | crates/xray-app-dns/src/cache_controller.rs:74-93 | starts empty, with the limit converted to a signed 32-bit number and negated, with wrap-around, for every limit |
| DnsCache.CacheController.FindRecords | crates/xray-app-dns/src/cache_controller.rs:117-119 | hands out a counted share of the stored record and changes no contents |
| DnsCache.CacheController.MakeMut | crates/xray-app-dns/src/cache_controller.rs:129-130 | gives an exclusive record with the same contents; shared ones are copied and left to their readers |
| DnsCache.CacheController.Upsert | crates/xray-app-dns/src/cache_controller.rs:124-137 | the map changes as if updated in place, while all handles keep what they show |
| DnsCache.CacheController.CollectExpiredKeys | crates/xray-app-dns/src/cache_controller.rs:143-158 | the keys are exactly the names with an expired half at the effective time |
| DnsCache.CacheController.CleanupAndMaybeShrink | crates/xray-app-dns/src/cache_controller.rs:163-219 | the contents are those of the key-by-key cleanup, handles keep what they show, and the mark and shrink decision follow the sizes |
| DnsCache.CacheController.RunCleanup | crates/xray-app-dns/src/cache_controller.rs:224-231 | collecting, any writes of others, then deleting: the contents are the cleanup of the written map with the keys collected before, and the mark covers them |
| DnsCache.CacheController.Perform | crates/xray-app-dns/src/cache_controller.rs:117-231 | after any sequence of writes and two-phase cleanups the contents are those operations applied in order, and all handles keep what they show |
| DnsCache.CacheController.ReadAfter | crates/xray-app-dns/src/cache_controller.rs:117-231 | a handle taken before any sequence of writes and cleanups still shows what the map held when it was taken, while the map is that of the operations applied in order |

## Left out

- QUIC header protection, key derivation and decryption: the model starts at decrypted frame bytes.
- QuicCrypto.PacketScanned: ACK frames only carry the integers that the short decoder accepts.
- QuicGaps.NameRecovered: has no converse. A wrong type or length byte may be harmless (`QuicGaps.MissingLengthIsHarmless`) or even lead to the right name by chance; which it is depends on the bytes of the message that get read in the wrong place.
- TcpSniffing.SniffTcp: the parser of HTTP headers and the conversion of a name to a string are parameters; of the HTTP sniffer only the method test in front of that parser is modelled. The set of sniffers passes from round to round as a value; `SnifferSet.Sniffer.Sniff` is proved to make the same step in place.
- ClientHello.ParseHandshake: a name that is not UTF-8 is kept as bytes, the lossy conversion to a string is not modelled.
- Xudp.MetaRoundTrip: the metadata buffer is taken to have exactly the 32 bytes asked for; an allocator that hands out more would move the limit.
- EndpointOverride.OverrideWriter.WriteMultiBuffer: failures of the inner writer are not modelled.
- UdpSession.Session.SendPacket: a failing write to the link is not modelled, and the dispatcher task behind the link is left out.
- Listener.Execute: one acceptor, as the commander has; cancelling a pending accept is not modelled, nor is liveness beyond the wake-up claims.
- LinkStream.Stream.PollWrite: the inner writer takes all or nothing, as pipes do; a pipe that discards on overflow is not distinguished from one that accepts.
- LinkStream.SizeStatReader.Poll: counters are unbounded, the 64-bit limit of a single count is not modelled.
- DnsRecords.TtlAbove: seconds are rounded exactly on integer nanoseconds; the rounding of the floating-point conversion is not modelled, nor the 0.65 shrink ratio as a float.
- DnsCache.CacheController.constructor: a build with overflow checks stops at a limit of exactly 2^31; the model wraps around there, as a release build does.
- DnsCache.CacheController.RunCleanup: lock sections are atomic steps; waiting for locks, the periodic task and the broadcast channel are left out.
- DnsQuery.SerialQuery: a panic of a name server is an outcome of the call, not an unwinding stack.
- DnsQuery.SkipKeepsMergedError: the text display of errors is a parameter of which only one fact is used, that a resolution error shows its own text.
- SniffLoop.SniffConnection: a timed-out read consumes nothing, and a source with no further answer runs into the timeout; metadata sniffing and the destination override around the loop are left out.
- Domain matchers, system route probing, the individual name servers, the fetch behind a cache miss and FakeDNS pools: parameters or left out, they are network I/O or other components.
- Configuration parsing, gRPC services, the commander's lifecycle, dispatching, access logs and splice admission: thin delegation that would only add easy members.
