# A verified model of the z-net transport core

This project models the parts of z-net whose correctness is hardest to see by reading one function, and
proves what they promise. `dafny verify dfyconfig.toml` checks everything.

| file | what it models |
|---|---|
| `RingGeometry.dfy` | remainders of growing counters; the one or two free slices of the body ring |
| `RingProtocol.dfy` | the body ring as a concurrent protocol of one producer and one consumer, byte by byte |
| `RingWrap.dfy` | the same protocol with 64-bit counters that wrap |
| `BodyRing.dfy` | the ring descriptor as an object, `Sink.write`, and the ring branch of `net_read` |
| `NetEngine.dfy` | the engine's tables of connections, rings and bindings, with `net_read` and `poll` |
| `Backpressure.dfy` | pausing at 95 percent and resuming below 50 percent, load by load |
| `Glob.dfy` | the PAC glob matcher |
| `DnsName.dfy`, `DnsMessage.dfy`, `DnsCache.dfy` | domain names, response messages and the answer cache |
| `Auth.dfy` | the 401/407 state machine and the concurrent requests that share it |
| `Pipeline.dfy` | the redirect loop and the request metrics |
| `Connect.dfy` | the HTTP CONNECT handshake over a socket that may split replies anywhere |
| `Bytes.dfy`, `Wrappers.dfy` | bytes, big-endian numbers, optional values |

## Assumptions

- One producer at a time writes to a ring. The consumer is not part of the repository: it is an environment
  that loads `head`, reads committed bytes from slot `counter % capacity`, and then advances `tail` by what it read.
- Every atomic load, every byte copied and every atomic update is one step of a run; steps interleave freely.
- `capacity` is positive, `capacity * 95` does not overflow, rings in one engine do not share memory, and the
  poll registry never fails. A vectored read fills the slices in order.
- A ring stays registered and bound while its connection is paused: `NetEngine.Engine.Poll` leaves a paused connection
  alone when its ring is not registered, and the runs of `Backpressure` have no step that takes the ring away.
- Sockets, clocks, the network and URL resolution are parameters of the methods: all their behaviours are covered.
  Number parsing in the CONNECT status line is a parameter too; where it matters it is one fixed parser that reads some
  text as 200 and some other as something else, as decimal parsing does (`Connect.DecimalDiscerns`).
- The meaning of a domain name is that of section 4.1.4 of RFC 1035, and does not include the limit of 255 bytes of
  section 3.1; `DnsName.Legal` adds that limit.
- The source traps on an index outside the data or on a record type that is not in its enumeration; the model
  returns `OutOfBounds` or `UnknownType` there.

## What turned out not to hold everywhere

- A ring whose capacity does not divide 2^64 corrupts the stream when the counters wrap
  (`RingWrap.SafeCapacities`: safe for good exactly when the capacity divides 2^64).
- A one-byte ring pauses its connection for ever (`Backpressure.LiveCapacities`: live exactly from two bytes on).
- Skipping a question whose name ends in a pointer goes one byte too far (`DnsMessage.SkipRightIffSpeltOut`), and the
  answers are then read one byte late (`DnsMessage.AnswersReadOneByteLate`); `DnsMessage.CompressedQuestionLosesAnswer`
  is a 36-byte message whose answer is lost that way.
- A domain name cut off by the end of the data is accepted (`DnsName.CutOffNameAccepted`). Every name accepted inside
  the data has a meaning exactly when no byte from 1 to 63 counts the bytes left after it (`DnsName.AcceptedIsMeantIff`).
- Neither parser nor encoder enforces the limit of 255 bytes on a name (`DnsName.OverlongNameAccepted`). A name with a
  meaning is legal exactly when its text has at most 253 bytes (`DnsName.LegalIffShort`), and an encoded name stays within
  the limit exactly when its text has at most 253 bytes (`DnsName.EncodedWithinLimitIff`).
- A name with an empty label, or one of more than 63 bytes, is encoded but not read back (`DnsName.EncodeParseRoundTrip`;
  the empty name is one, `DnsName.EmptyNameMisread`).
- engine/src/protocols/auth.rs:59-61 says a connection is never retried more than once. The code resets the mark on
  every challenge, so the promise holds exactly when no two requests share a key (`Auth.RetryOnceIff`).
- src/z_compression/compression.zig:76-77 says a write fails at a 95 percent limit. The code tests for a completely full
  ring: whatever fits is written, past 95 percent too (`BodyRing.Ring.Write`).
- Bytes behind a 407 header are left for the second attempt or thrown away, depending on how the socket splits them
  (`Connect.LeftoverBytesMatter`). A first reply that fits the buffer is safe from splits exactly when its status is not
  407 (or there is none), or nothing stands behind its header (`Connect.SplitsIgnoredIff`).

## Model

| member | source | states |
|---|---|---|
| `RingGeometry.SlicesInOrder` | src/z_body_ring.zig:52-77 | for every occupancy the slices hold capacity - (head - tail) bytes, and byte k goes to slot (head + k) mod capacity |
| `RingGeometry.SlicesAreTheFreeSlots` | src/z_body_ring.zig:57-76 | a slot is offered to the producer if and only if no unread byte is in it |
| `RingGeometry.ZigAndRustAgree` | engine/src/lib.rs:457-473 | the buffers of `net_read` and the slices of `getWriteBuffers` are the same bytes in the same order, and both are empty together |
| `RingProtocol.CopyStep` | src/z_compression/compression.zig:84-91 | one byte copied from slices computed with a possibly stale tail keeps the invariant and touches no unread byte |
| `RingProtocol.StepKeeps` | src/z_compression/compression.zig:78-95 | every step of producer or consumer keeps the invariant, overwrites no unread byte, and changes the queue in the slots by exactly what it sends or receives |
| `RingProtocol.RunIsFifo` | src/z_body_ring.zig:52-81 | over every interleaved run, queue before + bytes sent = bytes received + queue after |
| `RingProtocol.NothingLostOrInvented` | engine/src/lib.rs:457-478 | from an empty ring, on every run, the bytes committed are the bytes consumed followed by the bytes in the occupied slots |
| `RingProtocol.RefusedIffFull` | engine/src/lib.rs:457-461 | a producer is refused if and only if the ring it has loaded is full; otherwise it is offered all capacity - (head - tail) bytes |
| `RingProtocol.WhatFitsCanBeSent` | src/z_compression/compression.zig:78-95 | from every state with a producer at rest some run sends exactly any given bytes that fit |
| `RingProtocol.WholeWindowCanBeReceived` | src/z_body_ring.zig:52-81 | from every state with a waiting consumer some run receives exactly the unread bytes and leaves the ring empty |
| `RingProtocol.EveryRunCanGoOn` | engine/src/lib.rs:457-478 | the same after every run from an empty ring: what fits can be sent, and what was sent and not yet received can be received |
| `RingWrap.WordSlotIff` | engine/src/lib.rs:462-463 | a wrapped counter names the right slot if and only if the laps lost in wrapping are whole laps of the ring |
| `RingWrap.StepSimulates` | engine/src/lib.rs:457-478 | a step with 64-bit wrapping counters is a step of the unbounded ring it stands for, sending and receiving the same bytes |
| `RingWrap.RunSimulates` | engine/src/lib.rs:457-486 | the same for whole runs, when the capacity divides 2^64 or fewer than 2^64 bytes are ever sent |
| `RingWrap.WordRingConserves` | engine/src/lib.rs:457-486 | under that condition no byte is lost or invented with wrapping counters |
| `RingWrap.WordRefusedIffFull` | engine/src/lib.rs:457-461 | with wrapping counters, too, a producer is refused if and only if the ring it has loaded is full |
| `RingWrap.BreaksAtWrap` | engine/src/lib.rs:462-478 | for every other capacity a run, built step by step to the wrap-around, on which the received bytes differ from the sent ones |
| `RingWrap.SafeCapacities` | engine/src/lib.rs:457-478 | all runs conserve bytes if and only if the capacity divides 2^64 |
| `BodyRing.WatermarksInFull` | engine/src/lib.rs:487-490 | the pause test is 100 * occupied > 95 * capacity and the resume test 2 * occupied + 2 <= capacity, without rounding |
| `BodyRing.Ring.AvailableWrite` | src/z_body_ring.zig:39-43 | the room reported is the total length of the slices |
| `BodyRing.Ring.Fill` | src/z_compression/compression.zig:84-91 | the slices take as much as fits, in order, and every other slot keeps its byte |
| `BodyRing.Ring.Stage` | src/z_compression/compression.zig:82-91 | with slices from a stale tail the bytes land behind head and the unread bytes stay |
| `BodyRing.Ring.Commit` | src/z_body_ring.zig:79-81 | the staged bytes become the next bytes of the stream |
| `BodyRing.Ring.Write` | src/z_compression/compression.zig:76-96 | terminates with a moving consumer; Done exactly when all bytes were appended; on Full a proper prefix was and the ring is completely full; bytes that fit on entry are always all written; the `n == 0` exit cannot be taken |
| `BodyRing.Ring.Receive` | engine/src/lib.rs:457-484 | what the socket delivers is appended in order up to the room there was; nothing is taken only if nothing came or the ring is full |
| `NetEngine.Engine.Connect` | engine/src/lib.rs:389-412 | a connection gets an id not in use and is watched and not paused |
| `NetEngine.Engine.Close` | engine/src/lib.rs:417-430 | the connection and its registration go away; failure exactly when there was none |
| `NetEngine.Engine.NetRead` | engine/src/lib.rs:434-497 | delivered bytes join the bound ring's stream; the connection is paused afterwards exactly if it was or 100 times the unread bytes exceed 95 times the capacity; every connection is watched exactly when not paused; others are untouched |
| `NetEngine.Engine.Visit` | engine/src/lib.rs:286-303 | one connection is resumed exactly when it is paused and twice its unread bytes plus two are at most the capacity |
| `NetEngine.Engine.Poll` | engine/src/lib.rs:284-304 | every paused connection whose ring is low on entry is resumed, only paused ones whose ring is low on return are, whatever consumers do meanwhile |
| `Backpressure.StepKeeps` | engine/src/lib.rs:485-490 | every load, commit, pause, resume and consumption keeps: registered exactly when not paused, and pauses paid for in consumed bytes |
| `Backpressure.PauseBound` | engine/src/lib.rs:284-304 | over every run (pauses - 1) * (95c/100 - 50c/100 + 2) is at most the bytes consumed, and registered exactly when not paused |
| `Backpressure.PauseBoundIsMet` | engine/src/lib.rs:485-490 | for every n and every capacity from two on, a run with n pauses on which exactly (n - 1) * (95c/100 - 50c/100 + 2) bytes are consumed |
| `Backpressure.WatermarksSurviveWrapping` | engine/src/lib.rs:486-487 | with wrapping 64-bit counters both watermark tests answer as with unbounded ones |
| `Backpressure.EmptyRingResumes` | engine/src/lib.rs:288-301 | a poll that finds the ring empty ends the pause exactly when the capacity is at least two |
| `Backpressure.DrainAndPoll` | engine/src/lib.rs:284-304 | from every reachable paused state, in the middle of any operation, some steps lead out of the pause |
| `Backpressure.OneByteRingStaysPaused` | engine/src/lib.rs:292-299 | with one byte of capacity a paused connection stays paused on every run |
| `Backpressure.LiveCapacities` | engine/src/lib.rs:485-490 | no run gets stuck in a pause if and only if the capacity is at least two |
| `Glob.MatchesIffTiled` | engine/src/protocols/proxy.rs:287-314 | a pattern matches if and only if the text falls into one piece per pattern character: any text for a star, any one character for a question mark, the character itself otherwise |
| `Glob.NewStar` | engine/src/protocols/proxy.rs:295-298 | moving the retry point to a newer star loses no match |
| `Glob.Retry` | engine/src/protocols/proxy.rs:302-305 | a failed comparison rules out only the current retry point |
| `Glob.EndOfText` | engine/src/protocols/proxy.rs:310-313 | with the text used up, a match is left exactly if the rest of the pattern matches nothing |
| `Glob.GlobMatch` | engine/src/protocols/proxy.rs:287-314 | true exactly when the pattern matches; at most n(m + 1) + m rounds |
| `DnsName.ParseDomainName` | src/z_dns/dns.zig:417-458 | computes the labels and the end of the name on every input without leaving the data, and follows exactly the pointers that `Hops` lists |
| `DnsName.HopsGoBack` | src/z_dns/dns.zig:432-443 | those are at most 16 pointers, each from a position in the data to a strictly earlier one |
| `DnsName.LabelsThenZero` | src/z_dns/dns.zig:428-431 | labels and a zero byte give those labels, and the offset just past the zero |
| `DnsName.LabelsThenPointer` | src/z_dns/dns.zig:432-444 | labels and a pointer give those labels joined to the name at the target, and the offset just past the pointer |
| `DnsName.ParserMeetsRfc1035` | src/z_dns/dns.zig:426-457 | a name has a meaning under section 4.1.4 of RFC 1035 with at most 16 pointers if and only if the parser finds these labels and ends at a zero byte |
| `DnsName.SixteenPointersFollowed` | src/z_dns/dns.zig:424-443 | for every chain of pointers to a spelt-out name: found, with that name's text and the offset past the first pointer, if and only if there are at most 16 pointers |
| `DnsName.ArithmeticIsBits` | src/z_dns/dns.zig:432-443 | comparisons and products used for length bytes and pointers are the masks and shifts of the code |
| `DnsName.CutOffNameAccepted` | src/z_dns/dns.zig:426-431 | a name without its zero byte is accepted though it denotes nothing |
| `DnsName.AcceptedIsMeantIff` | src/z_dns/dns.zig:426-457 | wherever it starts in the data, an accepted name has a meaning, if and only if no label ends exactly where the data ends |
| `DnsName.OverlongNameAccepted` | src/z_dns/dns.zig:447-453 | five labels of 63 bytes are accepted, in data without a flush label, and are no legal name |
| `DnsName.LegalIffShort` | src/z_dns/dns.zig:447-457 | a name with a meaning is legal if and only if its text has at most 253 bytes |
| `DnsName.AcceptedIsLegalIff` | src/z_dns/dns.zig:426-457 | in data without a flush label an accepted name is legal if and only if the text returned has at most 253 bytes |
| `DnsName.AllLegalIff` | src/z_dns/dns.zig:426-457 | all names accepted inside the data are legal if and only if there is no flush label and no accepted text above 253 bytes |
| `DnsName.NameLengthBound` | src/z_dns/dns.zig:451-453 | the text of a name is at most 17 times the length of the data |
| `DnsName.ParseMovesForward` | src/z_dns/dns.zig:456-457 | a successful parse moves the offset strictly forward and not past the end |
| `DnsName.SplitAtDots` | src/z_dns/dns.zig:310-311 | the labels of a text hold no byte 46, and byte 46 joins them to that text |
| `DnsName.EncodeName` | src/z_dns/dns.zig:309-315 | the dot-separated labels with length bytes and a final zero; stopped exactly by a label of 256 bytes or more |
| `DnsName.EncodedWithinLimitIff` | src/z_dns/dns.zig:310-315 | the encoded name is two bytes longer than its text, so within 255 bytes if and only if the text has at most 253 |
| `DnsName.BadLabelMisread` | src/z_dns/dns.zig:311-314 | an empty or overlong label makes the parser fail or stop early |
| `DnsName.EncodeParseRoundTrip` | src/z_dns/dns.zig:309-315 | anywhere in a message the encoded name parses back to itself and the right offset if and only if every label has 1 to 63 bytes |
| `DnsName.EmptyNameMisread` | src/z_dns/dns.zig:310-315 | the empty name is written as two zero bytes, of which the parser takes one |
| `DnsMessage.KnownTypeIff` | src/z_dns/dns.zig:19-28 | the accepted record types are exactly the numbers of the eight names in the enumeration |
| `DnsMessage.AnswerIff` | src/z_dns/dns.zig:362-384 | an answer is read if and only if there is a name and, at these places behind it, a known type, a TTL, a length and that many bytes; out of bounds exactly when the record does not fit |
| `Bytes.BigEndian` | src/z_dns/dns.zig:365-374 | numbers on the wire are sums over their bytes, most significant first |
| `DnsMessage.ParseAnswer` | src/z_dns/dns.zig:362-384 | one answer read as the record layout says, or the reason why not |
| `DnsMessage.ParseDnsResponse` | src/z_dns/dns.zig:323-388 | the counts, the skipped questions and the collected answers, on every input |
| `DnsMessage.RecordsFit` | src/z_dns/dns.zig:361-385 | a successful parse of any data gives as many answers as announced, of known types, each with its bytes from its own record, the records lying one behind the other |
| `DnsMessage.ParsedResponseFits` | src/z_dns/dns.zig:338-387 | a parsed response has as many answers as its header says, from records behind the header that do not overlap and fit the data |
| `DnsMessage.AnswersParse` | src/z_dns/dns.zig:361-385 | records laid out one after the other are read back in order, with names that may be compressed |
| `DnsMessage.ResponseReadsMessage` | src/z_dns/dns.zig:323-388 | for every well-formed message with spelt-out question names the parser returns exactly its answers, with name, type, TTL and data, however the answer names are compressed |
| `DnsMessage.UsualMessageRoundTrip` | src/z_dns/dns.zig:361-387 | encoding and parsing back any message, with or without questions, whose answer names are spelt out or end in a pointer to the first question |
| `DnsMessage.SkipNameIff` | src/z_dns/dns.zig:348-355 | on any data the skip stops exactly at a zero byte behind whole labels, or two bytes behind the start of a byte from 64 on |
| `DnsMessage.SkipRightIffSpeltOut` | src/z_dns/dns.zig:348-357 | a question is skipped to its end if and only if its name is spelt out |
| `DnsMessage.AnswersReadOneByteLate` | src/z_dns/dns.zig:348-362 | after spelt-out questions and a last one ending in a pointer, the answers are read from one byte behind their start |
| `DnsMessage.CompressedQuestionLosesAnswer` | src/z_dns/dns.zig:348-377 | a message with a compressed second question and a readable answer on which the parser runs off the data |
| `DnsCache.KeyInjective` | src/z_dns/dns.zig:237-250 | two (name, type) pairs share a key only if they are equal |
| `DnsCache.KeyOfA` | src/z_dns/dns.zig:237 | the name `a` with type 28 has the key `a:28` |
| `DnsCache.LifetimeIsLongest` | src/z_dns/dns.zig:255-258 | answers are kept for at least 300 seconds and at least every TTL, and for no longer than the larger of these |
| `DnsCache.Cache.Get` | src/z_dns/dns.zig:236-247 | the stored answers while now is before their expiry, nothing otherwise |
| `DnsCache.Cache.Put` | src/z_dns/dns.zig:249-267 | replaces the entry of that key; expiry is now plus the larger of 300 and the largest TTL |
| `DnsCache.Cache.Cleanup` | src/z_dns/dns.zig:269-283 | removes exactly the expired entries |
| `DnsCache.CleanupVisibleIff` | src/z_dns/dns.zig:269-283 | a cleanup changes a lookup if and only if the clock has gone back behind an expiry that the cleanup had seen pass |
| `DnsCache.LookupIsLatest` | src/z_dns/dns.zig:236-283 | after every history with a forward clock a lookup gives the answers of the latest put for that name and type while they live, and nothing otherwise |
| `Auth.AuthEngine.Observe` | engine/src/protocols/auth.rs:295-327 | a challenge exactly for 401 with an origin offer, then that offer for `Authorization`, and for 407 with a proxy offer, then that one for `ProxyAuthorization`; the new state of this key in every case; every other key keeps its state |
| `Auth.AuthEngine.BuildRetryHeader` | engine/src/protocols/auth.rs:330-340 | the challenge's header exactly when not yet retried and the scheme is Basic, Negotiate with Kerberos, or NTLM with no challenge or one of at least 32 bytes; marks only this key |
| `Auth.StepKeeps` | src/z_pipeline/pipeline.rs:301-324 | every atomic call by any request keeps the invariants of every key and every request |
| `Auth.EveryRun` | src/z_pipeline/pipeline.rs:301-324 | under every interleaving: marked retried exactly when the latest challenge or retry of the key is a retry; retried implies authenticated; a received challenge is unretried with a scheme; retries never outnumber challenges; no request is sent more than twice |
| `Auth.ChallengeBetweenRetries` | engine/src/protocols/auth.rs:333-338 | between two successful retries of a key there is a challenge for it |
| `Auth.AttachedAnswersOwnOffer` | src/z_pipeline/pipeline.rs:301-324 | under every interleaving each header attached answers the offer its own request was given before, `Authorization` after 401 and `ProxyAuthorization` after 407; one response and at most one header per request; phase, scheme and realm of a key follow from its responses and headers |
| `Auth.ResentIff` | src/z_pipeline/pipeline.rs:312-323 | at any time in any run a challenged request gets its header if and only if the key's latest challenge or retry is no retry and a token can be built |
| `Auth.RetryOnceIff` | engine/src/protocols/auth.rs:59-61 | a key is retried at most once on every run if and only if no two requests share a key |
| `Pipeline.Client.Fetch` | src/z_pipeline/pipeline.rs:187-232 | at most max_redirects + 1 requests; after k redirects url, redirects and final_url are the chain visited; the limit fails exactly when all replies allowed redirect; metrics change only for a delivered final response |
| `Pipeline.FollowedIff` | src/z_pipeline/pipeline.rs:206-215 | a sequence of URLs is the chain of a fetch if and only if it starts with url, every reply but the last has a status from 300 to 399 and a location, and each next URL resolves that location against the one before |
| `Pipeline.Client.UpdateMetrics` | src/z_pipeline/pipeline.rs:625-659 | one update of counters and rolling average, with the cast to 64 bits |
| `Pipeline.CountersCount` | src/z_pipeline/pipeline.rs:628-640 | after any calls the counters are the numbers of calls below status 400, of cache hits, and of the others |
| `Pipeline.RollingAverage` | src/z_pipeline/pipeline.rs:655-658 | after n calls summing to S: 0 <= S - n*A <= n(n-1)/2, A is between smallest and largest duration, total = successful + failed = hits + misses |
| `Pipeline.DriftIsReal` | src/z_pipeline/pipeline.rs:655-658 | durations 0, 1, 2, ... reach that bound: the average stays zero |
| `Connect.ReadResponse` | src/z_proxy/connect.zig:57-69 | the bytes read up to the call after which an empty line is in the buffer, or failure |
| `Connect.ReadSucceedsIff` | src/z_proxy/connect.zig:57-69 | for every split, success exactly when CRLFCRLF ends within the first 8192 bytes |
| `Connect.StatusTextIff` | src/z_proxy/connect.zig:71-78 | the status text is the second word of the first line, found if and only if the reply has a first line of at least two words |
| `Connect.UsualStatusLine` | src/z_proxy/connect.zig:71-78 | `version code reason` and `version code` both give the code, whatever follows |
| `Connect.StatusIgnoresSplits` | src/z_proxy/connect.zig:71-78 | the status is the same for every split |
| `Connect.Connect` | src/z_proxy/connect.zig:22-55 | at most two requests, the second exactly after 407; a tunnel exactly after 200, or after 407 and then 200; proxy authentication required exactly after two 407; unexpected response exactly when the last status is another one; handshake failure exactly when the last request brought no status |
| `Connect.FirstReplyOutcome` | src/z_proxy/connect.zig:46-53 | on a healthy socket a first reply whose empty line ends within 8192 bytes gives a tunnel if its code parses as 200, handshake failure if it does not parse, an error for any other than 407 |
| `Connect.SecondReplyOutcome` | src/z_proxy/connect.zig:46-53 | after a 407 with nothing behind its header the second reply gives a tunnel for 200, proxy authentication required for 407, failure or an error otherwise |
| `Connect.NoTunnelWithoutStatus` | src/z_proxy/connect.zig:44-52 | on any socket no tunnel without an empty line within the first 8192 bytes and a first status of 200 or 407 |
| `Connect.HandshakeIgnoresSplits` | src/z_proxy/connect.zig:46-53 | the outcome of the whole handshake does not depend on splits when nothing follows the first header within the buffer |
| `Connect.FirstStatusSettles` | src/z_proxy/connect.zig:47-53 | without a status, or with another than 407, the first reply gives one outcome for all splits |
| `Connect.SplitsIgnoredIff` | src/z_proxy/connect.zig:29-69 | with one fixed number parser, a first reply of at most 8192 bytes gives one outcome for all splits and second replies if and only if it has no status, or one other than 407, or nothing behind its header |
| `Connect.LeftoverBytesMatter` | src/z_proxy/connect.zig:57-66 | with bytes behind a 407 header two splits of the same bytes give a tunnel and an error |

## Left out

- The Gzip, Deflate, Brotli and Zstd decoders: library code that is not part of this model; `IdentityDecoder` is one call of `Sink.write`.
- `BodyRingManager` and closing a ring: a map and a flag.
- Sockets, TLS, QUIC and the reads of connections without a ring in engine/src/lib.rs.
- Zig traps on `head - tail` once the 64-bit counters have wrapped; the wrapping model follows the Rust code, which subtracts with wrap-around.
- The PAC interpreter around the glob matcher, and `znet_proxy_parse_first`.
- Header integers of `encodeDnsQuery`, DNS over HTTPS and the order of resolvers.
- `readResponse` in src/z_proxy/connect.zig returns a slice of its own stack buffer (lines 58 and 65), whose frame is gone when `connect` parses it; the model parses the bytes as they were read.
- Freeing of cache keys in `DnsCache`: keys are values here, so the model does not show use after free.
- Overflow of `now + max_ttl`, of request counts and of time totals.
- Texts of auth challenges and tokens: a challenge is its scheme, realm, payload length and header.
- The connection pool, the rate limiter and the response cache of the pipeline.
- DnsMessage.UsualMessageRoundTrip: pointers only to the first question, as servers use them; `DnsMessage.ResponseReadsMessage` has no such limit.
- Connect.SplitsIgnoredIff: first replies longer than the 8192-byte buffer, whose leftovers can hold whole replies of their own; for those `Connect.HandshakeIgnoresSplits` gives one direction.
- src/z_cache/cache.zig, event loop, monitoring, WebTransport and deployment code.
