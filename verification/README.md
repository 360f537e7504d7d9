# webrtc-doctor: a verified model

webrtc-doctor probes a WebRTC deployment: it resolves a host, asks a STUN server
for the address it is seen from, allocates a TURN relay over UDP or TLS with the
long-term credential mechanism, echoes packets through that relay, and gathers
ICE candidates. This project models its hand-written STUN/TURN wire layer and
the state machines on top of it, and proves properties of the model with Dafny
4.11. `dafny verify dfyconfig.toml` checks all of it.

## How it is laid out

| module | what it models |
|---|---|
| `Words`, `Wrappers`, `StunTypes`, `Primitives` | bytes and 16/32-bit words, bitwise exclusive or, options and results, fixed-size byte strings, the library functions the program calls |
| `StunCodec` | header, attribute walking, address attributes, ERROR-CODE |
| `TurnCodec`, `Requests` | building messages in a buffer, MESSAGE-INTEGRITY, the requests that are sent |
| `AllocateResponse`, `Binding` | reading Allocate and Binding responses |
| `Handshake`, `Framing` | the two-round Allocate exchange, a server following section 10.2.2 of RFC 5389 and section 6.2 of RFC 5766, messages on a byte stream |
| `DataIndication`, `EchoLoop` | the second attribute walker, the echo payload, the loop that collects echoes |
| `Context`, `Checks`, `Pipeline` | the shared context, the six checks over it, the runner |
| `StreamHandshake`, `UnpreparedPassword` | the TLS allocation in a closed loop with a server, a password the two sides hash differently |
| `TurnCommand`, `TurnsCommand`, `IceCommand` | the `turn`, `turns` and `ice` commands from end to end |
| `WireExamples` | messages written out byte by byte, as in the program's tests and RFC 5769 |
| `Endpoint` | printing and parsing `host:port` |

Code that mutates is modelled by classes and methods with loops (`MessageBuffer`,
`TlsStream`, `ProbeContext`, `Pipeline`, the walkers and parsers, the echo loop,
the checks), each proved equal to a function; the properties are lemmas about
those functions.

Conventions that matter when reading the statements:

- MD5, HMAC-SHA1, SASLprep (which only servers run), lossy UTF-8 decoding, and
  printing and parsing of socket addresses are fields of a `Primitives` value; every
  statement holds for all of them, save the example in `UnpreparedPassword`, which
  picks some. Two laws are stated where needed: a byte string is valid UTF-8 exactly
  when lossy decoding leaves it alone (`ValidUtf8`), and a printed address parses
  back to itself (`ReadsBack`).
- What the network does is an argument: a `Round` per request and reply, a list of
  `Poll`s for the echo loop, resolver and interface lists. A check's behaviour in
  one run is a function of its context, since a run performs each check once.
  Transaction ids are arguments. Times are in nanoseconds; a difference of two
  instants saturates at zero, as the standard library's does.
- `AsU16` is the truncating cast `as u16`; words are otherwise bounded integers,
  and an IPv4 address is its 32-bit word.

## Where code and documentation differ

- The echo check calls its guard for a missing TURN session unreachable
  (turn_echo.rs:118). It is reachable: `TurnCommand.NoSessionReached` gives runs of
  the `turn` command that take it, with the servers' replies written out, and
  `TurnCommand.CommandOutcome` says for which behaviour of resolver, STUN server and
  TURN server it is taken. All other such guards are unreachable
  (`Pipeline.ReachableGuards`).
- Section 15 of RFC 5389 lets a receiver look at the first occurrence of an
  attribute; Allocate responses are read by the last one. The two readings differ
  (`AllocateResponse.ReadingsDiffer`: two ERROR-CODEs, first 401 and then 403);
  `AllocateResponse.ReadingsAgree` says on exactly which responses they agree, and
  `AllocateResponse.FirstOccurrenceReading` that repeating none of the types read is
  enough.
- turns_alloc.rs:13 cites section 7.2.2 of RFC 5389 for putting a 2-byte length
  before each message. That section leaves messages unframed where STUN is the only
  protocol on the stream, and a peer that reads them so never sees one
  (`StreamHandshake.FramedIsNotBare`), so the TLS check fails against it
  (`StreamHandshake.BareServerFails`). It works against a peer that undoes the framing
  (`StreamHandshake.StreamHandshakeSucceeds`).
- Section 15.6 bounds the number byte of ERROR-CODE by 99; the code does not check
  it, so two further encodings are taken for 401 (`StunCodec.UnauthorizedEncodings`).
- Sections 15.6 to 15.8 of RFC 5389 allow reason phrase, realm and nonce fewer than
  128 characters each, so a challenge of up to 1560 bytes; their byte counts alone
  would give 2328 (`Handshake.ChallengeLength`). Over UDP the client reads 1500, and a
  longer challenge makes the handshake fail (`Handshake.HandshakeSucceeds`, with a
  server in `Handshake.LongChallengeFails`). Over TLS the same server is passed
  (`StreamHandshake.LongChallengeNeedsStream`).
- Section 15.4 of RFC 5389 derives the key from the password after SASLprep;
  `long_term_key`, which cites it, hashes the password as it is. The handshake then
  succeeds exactly when both keys give the same digest (`Handshake.HandshakeOutcome`,
  `StreamHandshake.StreamHandshakeOutcome`), so for every password that SASLprep
  leaves alone; `UnpreparedPassword.UnpreparedPasswordFails` has one that it changes.
- ice_gather.rs:19 says that the UDP allocation, if it ran, has left its relay in the
  session. After an anonymous allocation it has not, and the `ice` command does not
  list that relay (`IceCommand.IceOutcome`, `IceCommand.AnonymousRelayDropped`).
- docs/PROTOCOLS.md describes the echo as going out in a Send Indication; the
  code sends plain datagrams to the relay, and so does the model.
- The length casts in the builders lose information from 65536 bytes on
  (`TurnCodec.MessageRoundTrip`, `Framing.FrameRoundTrip`).

## Model

| member | source | states |
|---|---|---|
| StunCodec.HeaderAccepted | crates/probe-core/src/stun_codec.rs:58-81 | a buffer is accepted with a given type and length if and only if its first 20 bytes are that header for that transaction and the declared bytes are there |
| StunCodec.HeaderRefused | crates/probe-core/src/stun_codec.rs:58-81 | each refusal in terms of the bytes: too short, another cookie, another transaction, fewer bytes than declared |
| StunCodec.WalkAttrs | crates/probe-core/src/stun_codec.rs:92-111 | the walk returns what the recursive grammar gives for the declared section, so it depends on bytes 20..20+attrs_len only and stays inside them |
| StunCodec.WalkVisits | crates/probe-core/src/stun_codec.rs:92-111 | for the offsets the walk visits: it errs exactly when the last one overruns the section, and otherwise yields the attributes at exactly those offsets in order |
| StunCodec.VisitsExist | crates/probe-core/src/stun_codec.rs:92-111 | every section has such a list of visited offsets: the walk terminates on every buffer |
| StunCodec.VisitsAligned | crates/probe-core/src/stun_codec.rs:96-108 | visited offsets are 4-aligned |
| StunCodec.VisitsDisjoint | crates/probe-core/src/stun_codec.rs:96-108 | the value of a visited attribute ends before any later one starts, so offsets increase and slices do not overlap |
| TurnCodec.LeftoversIgnored | crates/probe-core/src/stun_codec.rs:96-109 | one to three left-over bytes behind a well-formed section change nothing |
| TurnCodec.FinalPaddingOptional | crates/probe-core/src/stun_codec.rs:97-108 | the padding of the final value may be missing, in whole or in part |
| StunCodec.ParseXorAddress | crates/probe-core/src/stun_codec.rs:115-146 | for every byte string, errors included, decoding equals plain decoding after masking bytes 2-3 with the cookie's high half and bytes 4-19 with cookie and transaction id |
| StunCodec.BuildXorAddress | crates/probe-core/src/stun_codec.rs:153-178 | encoding is the plain MAPPED-ADDRESS body under the same mask |
| StunCodec.XorAddressRoundTrip | crates/probe-core/src/stun_codec.rs:115-178 | decoding undoes encoding for every IPv4 and IPv6 address, port and transaction id |
| StunCodec.MappedRoundTrip | crates/probe-core/src/stun_codec.rs:181-205 | the unmasked body of every address is decoded to that address |
| StunCodec.MappedAccepted | crates/probe-core/src/stun_codec.rs:181-205 | a value is decoded to an address if and only if, but for the reserved first byte, it begins with that address's body |
| Words.XorInvolution | crates/probe-core/src/stun_codec.rs:121-140 | applying the same mask twice gives the word back |
| Words.XorU32 | crates/probe-core/src/stun_codec.rs:127-128 | masking a 32-bit word is masking its four bytes |
| StunCodec.UnauthorizedEncodings | crates/probe-core/src/stun_codec.rs:214-223 | the computed code is 401 exactly for masked class and number (4,1), (3,101), (2,201), so only for (4,1) within section 15.6's range |
| StunCodec.ErrorCodeRoundTrip | crates/probe-core/src/stun_codec.rs:214-223 | every code from 300 to 699 is read back from its class and number, whatever the reserved bits and the reason |
| StunCodec.LastIsFirst | crates/probe-core/src/turn_codec.rs:195-231 | without repeats of a type, last-wins and first-wins readings of it agree |
| TurnCodec.MessageBuffer.constructor | crates/probe-core/src/turn_codec.rs:60-67 | a fresh message is the 20 header bytes with a zero length |
| TurnCodec.MessageBuffer.AppendAttr | crates/probe-core/src/turn_codec.rs:71-79 | appends type, truncated length, value and zero padding, leaving earlier bytes alone |
| TurnCodec.MessageBuffer.SetAttrsLength | crates/probe-core/src/turn_codec.rs:82-85 | rewrites bytes 2 and 3 with the truncated body length and nothing else |
| TurnCodec.MessageBuffer.AttachMessageIntegrity | crates/probe-core/src/turn_codec.rs:91-103 | sets the length to include the attribute, then appends the digest of everything so far |
| TurnCodec.SectionAppend | crates/probe-core/src/turn_codec.rs:71-79 | bytes appended to an aligned, well-formed section leave its attributes parsing unchanged |
| TurnCodec.SectionBound | crates/probe-core/src/stun_codec.rs:92-111 | what a walk returns, written out again, exceeds the section by at most its missing final padding |
| TurnCodec.MessageRoundTrip | crates/probe-core/src/turn_codec.rs:60-85 | header, repeated append and length fix-up are undone by header parsing and walking if and only if the padded attributes take fewer than 65536 bytes |
| TurnCodec.IntegrityAttached | crates/probe-core/src/turn_codec.rs:91-103 | for any aligned message that parses and is small enough: the rest of the header and all earlier attributes are unchanged, the length field is exact, the digest comes last and is over everything before it |
| TurnCodec.IntegrityVerifies | crates/probe-core/src/turn_codec.rs:86-103 | a receiver that recomputes the digest as section 15.4 of RFC 5389 says accepts the result if and only if its key gives the same digest as the sender's |
| TurnCodec.AttachedLength | crates/probe-core/src/turn_codec.rs:91-93 | the header length is right after attaching if and only if the message was small enough for 16 bits |
| TurnCodec.SignedVerifies | crates/probe-core/src/turn_codec.rs:138-156 | what a signing builder emits decodes to the attributes put in plus the integrity attribute, and is accepted under exactly the keys that give the same digest |
| Requests.BuildAllocateUnauth | crates/probe-core/src/turn_codec.rs:123-133 | the challenge-step request is the message with REQUESTED-TRANSPORT for UDP only |
| Requests.BuildAllocateAuthed | crates/probe-core/src/turn_codec.rs:138-156 | the authenticated request is the signed message with transport, USERNAME, REALM and NONCE |
| Requests.BuildCreatePermission | crates/probe-core/src/checks/turn_echo.rs:306-322 | the permission request is the signed message with the masked peer address and the credentials |
| Requests.AuthedRequestVerifies | crates/probe-core/src/checks/turn_echo.rs:306-322 | both authenticated requests, when small enough, decode to exactly their attributes and pass a recomputing verifier under exactly the keys that give the same digest |
| Requests.AuthedRequestLength | crates/probe-core/src/turn_codec.rs:138-156 | the length field of such a request points at its end if and only if it takes fewer than 65536 bytes after the header |
| AllocateResponse.ParseAllocateResponse | crates/probe-core/src/turn_codec.rs:184-243 | the parser's outcome is determined by the last ERROR-CODE, REALM, NONCE, XOR-RELAYED-ADDRESS and the last LIFETIME of at least four bytes, with the first undecodable relay address as error |
| AllocateResponse.ScanSuccess | crates/probe-core/src/turn_codec.rs:192-212 | the loop over a success response computes that reading |
| AllocateResponse.ScanError | crates/probe-core/src/turn_codec.rs:213-240 | the loop over an error response computes that reading |
| AllocateResponse.LastIndex | crates/probe-core/src/turn_codec.rs:195-231 | the value read for a type is the one at the last position of that type, and none exactly when there is none |
| AllocateResponse.RelaysDecode | crates/probe-core/src/turn_codec.rs:197-199 | no relay address error is reported if and only if every XOR-RELAYED-ADDRESS decodes |
| AllocateResponse.LastLifetimeIs | crates/probe-core/src/turn_codec.rs:203-206 | the lifetime reported is that of the last LIFETIME of at least four bytes, and 0 when there is none |
| AllocateResponse.MissingIsNamed | crates/probe-core/src/turn_codec.rs:208-242 | a grant without a relay address, a 401 without realm or without nonce, and a message of another type are each refused as such |
| AllocateResponse.RejectionIsRead | crates/probe-core/src/turn_codec.rs:213-240 | a reply is reported as a rejection with a code and reason if and only if on the wire it is an Allocate error whose last ERROR-CODE says them, and it is not 401 |
| AllocateResponse.ReadingsAgree | crates/probe-core/src/turn_codec.rs:184-243 | for every buffer: the parser's outcome, errors included, equals that of a receiver looking at first occurrences only (section 15 of RFC 5389) if and only if first and last occurrences of the types read say the same |
| AllocateResponse.FirstOccurrenceReading | crates/probe-core/src/turn_codec.rs:184-243 | when none of the types read from a response repeats, the whole outcome, errors included, is the first-occurrence reading; other types may repeat |
| AllocateResponse.ReadingsDiffer | crates/probe-core/src/turn_codec.rs:213-240 | a response with a 401 and then a 403 ERROR-CODE is read as a rejection with 403, where first occurrences make it a challenge |
| Binding.BuildBindingRequest | crates/probe-core/src/checks/stun.rs:132-140 | the request decodes as a Binding request without attributes |
| Binding.FirstMappedSkips | crates/probe-core/src/checks/stun.rs:157-163 | the first attribute of either mapped-address type decides |
| Binding.ReflectsIsRead | crates/probe-core/src/checks/stun.rs:152-165 | a reply is understood to say an address if and only if it is a Binding success for the transaction whose first mapped address decodes to it |
| Binding.BindingRoundTrip | crates/probe-core/src/checks/stun.rs:152-165 | a server's XOR-MAPPED-ADDRESS is understood whatever stands around it, provided no mapped address comes first |
| Binding.LegacyRoundTrip | crates/probe-core/src/checks/stun.rs:157-163 | so is an unmasked MAPPED-ADDRESS, for every address, transaction and surrounding attributes |
| Handshake.CredentialsOnlyAfterChallenge | crates/probe-core/src/checks/turn_alloc.rs:84-212 | over every pair of replies at most two requests go out; the one with credentials exactly after a 401 matching the first transaction with both credentials known, answering its realm and nonce; a relay is reported exactly on a grant of the right transaction, and it is that grant's |
| Handshake.FailureReasons | crates/probe-core/src/checks/turn_alloc.rs:84-212 | over every pair of replies: a missing answer, a rejection in either round and a second challenge are each reported as what they are, and only then |
| Handshake.ChallengeIsRead | crates/probe-core/src/turn_codec.rs:213-240 | the client takes a reply for a challenge if and only if on the wire it is an Allocate error for its transaction with a last ERROR-CODE of 401, REALM and NONCE |
| Handshake.GrantIsRead | crates/probe-core/src/turn_codec.rs:192-212 | the client takes a reply for a grant of a relay if and only if on the wire it is an Allocate success for its transaction in which every relay address decodes and the last says that relay |
| Handshake.SecondRequestReads | crates/probe-core/src/checks/turn_alloc.rs:152-157 | the server reads the requested transport, its own nonce and user back from the second request, and its realm exactly when that is valid UTF-8 |
| Handshake.ConversationOutcome | crates/probe-core/src/checks/turn_alloc.rs:84-201 | against a server following section 10.2.2 of RFC 5389 and section 6.2 of RFC 5766 the exchange ends authenticated, with the server's relay, lifetime, nonce and key, if and only if the challenge fits 1500 bytes, the second request fits its length field and the server's digest check accepts it |
| Handshake.ChallengeLength | crates/probe-core/src/checks/turn_alloc.rs:90-91 | how long that challenge is: a multiple of 4, at most 2328 bytes by the byte counts of RFC 5389 and at most 1560 by its character counts |
| Handshake.DigestAccepted | crates/probe-core/src/turn_codec.rs:105-117 | the server, which runs SASLprep on the password, accepts the digest if and only if its key gives the same one as the client's |
| Handshake.ValidRealmVerifies | crates/probe-core/src/turn_codec.rs:105-117 | with a valid UTF-8 realm and a password that SASLprep leaves alone the digest is accepted by a server that hashes user, realm and password as section 15.4 of RFC 5389 spells out |
| Handshake.HandshakeOutcome | crates/probe-core/src/checks/turn_alloc.rs:84-201 | with a valid realm and a user name of RFC size the handshake succeeds if and only if the challenge fits the 1500-byte buffer and both sides' keys give the same digest |
| Handshake.HandshakeSucceeds | crates/probe-core/src/checks/turn_alloc.rs:84-201 | if SASLprep leaves the password alone it succeeds if and only if the challenge fits |
| Handshake.LongChallengeFails | crates/probe-core/src/checks/turn_alloc.rs:90-105 | a server with 127 characters in each of reason, realm and nonce, whose challenge of 1560 bytes is the longest the limits allow, so that the handshake fails over UDP |
| UnpreparedPassword.UnpreparedPasswordFails | crates/probe-core/src/turn_codec.rs:105-117 | with a no-break space as password, and digests that tell keys apart, every server within the limits refuses the client that holds its password |
| StreamHandshake.ConnectedStream | crates/probe-core/src/checks/turns_alloc.rs:118-226 | connected to a server that undoes the framing and frames its answers, what the check reads is one stream only: the framed challenge and the framed answer to the second request |
| StreamHandshake.StreamConversation | crates/probe-core/src/checks/turns_alloc.rs:118-226 | in that closed loop, with the server's credentials, the TLS check passes with the server's relay if and only if the server accepts the digest, and otherwise reports rejected credentials; the size of the challenge plays no part |
| StreamHandshake.StreamHandshakeOutcome | crates/probe-core/src/checks/turns_alloc.rs:118-226 | with a valid realm and a user name of RFC size the TLS check passes against such a server if and only if both sides' keys give the same digest |
| StreamHandshake.StreamHandshakeSucceeds | crates/probe-core/src/checks/turns_alloc.rs:118-226 | if SASLprep leaves the password alone it always passes, with the server's relay |
| StreamHandshake.LongChallengeNeedsStream | crates/probe-core/src/checks/turns_alloc.rs:118-226 | a server with a long challenge is passed over TLS and fails over UDP |
| StreamHandshake.FramedIsNotBare | crates/probe-core/src/checks/turns_alloc.rs:11-16 | no beginning of a stream of framed messages has a STUN header, for any transaction |
| StreamHandshake.BareServerSilent | crates/probe-core/src/checks/turns_alloc.rs:246-251 | a server that reads unframed messages answers nothing to the first request |
| StreamHandshake.BareServerFails | crates/probe-core/src/checks/turns_alloc.rs:118-226 | in a closed loop with such a server the TLS check fails for want of an answer and leaves the context alone |
| Framing.TlsStream.SendFramed | crates/probe-core/src/checks/turns_alloc.rs:246-251 | writes the truncated length and the message behind what was written before |
| Framing.TlsStream.RecvFramed | crates/probe-core/src/checks/turns_alloc.rs:253-260 | takes the first framed message off the stream and nothing else, or fails when not all its bytes are there |
| Framing.FrameRoundTrip | crates/probe-core/src/checks/turns_alloc.rs:246-260 | a frame is read back with the rest of the stream untouched if and only if the message is shorter than 65536 bytes |
| Framing.FramesRoundTrip | crates/probe-core/src/checks/turns_alloc.rs:246-260 | reading as many messages as were sent returns exactly that list and leaves exactly what followed |
| Framing.FramesInjective | crates/probe-core/src/checks/turns_alloc.rs:246-260 | equal streams come from equal lists of messages |
| DataIndication.ParseDataIndication | crates/probe-core/src/checks/turn_echo.rs:369-402 | the second walker's outcome is the first DATA among the attributes the first walker reads before it ends or fails; without one it fails exactly when the first walker does |
| DataIndication.WalkersAgree | crates/probe-core/src/checks/turn_echo.rs:369-402 | where walk_attrs succeeds it returns that walk's first DATA value or none; where walk_attrs fails it fails exactly when no DATA attribute precedes the overrunning one |
| DataIndication.IndicationRefused | crates/probe-core/src/checks/turn_echo.rs:369-388 | datagrams too short, of another type, with another cookie or with fewer bytes than declared are refused as such |
| DataIndication.MakePayload | crates/probe-core/src/checks/turn_echo.rs:75-80 | the payload is the prefix and the little-endian sequence number |
| DataIndication.PayloadRecognised | crates/probe-core/src/checks/turn_echo.rs:85-94 | a payload is recognised as a number if and only if it is exactly the payload sent with that number |
| DataIndication.EchoRecognised | crates/probe-core/src/checks/turn_echo.rs:75-94 | a Data Indication carrying the payload, with any other attributes around it and no DATA before it, is decoded to its number, for every 32-bit number |
| DataIndication.EchoCarriesPayload | crates/probe-core/src/checks/turn_echo.rs:222-229 | a datagram counts as an echo of a number if and only if its first DATA value is exactly that payload |
| EchoLoop.CollectEchoes | crates/probe-core/src/checks/turn_echo.rs:204-241 | the loop over arrays and counters computes the tally of the recursive specification |
| EchoLoop.CollectRefinesSet | crates/probe-core/src/checks/turn_echo.rs:204-285 | for every list of polls, however the run ends: received is the number of distinct numbers validly echoed in time, the filled slots are exactly those, the verdict is whether that set is full, partial or empty, and the run fails if and only if the set is not full and a receive error cuts it off |
| EchoLoop.TimelyDecides | crates/probe-core/src/checks/turn_echo.rs:208-218 | late polls, timeouts and errors end the loop without touching the tally of the datagrams before them |
| EchoLoop.TimelyIs | crates/probe-core/src/checks/turn_echo.rs:208-218 | a poll counts exactly when it and all before it are datagrams polled before the deadline |
| EchoLoop.CollectSound | crates/probe-core/src/checks/turn_echo.rs:204-241 | over any run received counts the filled slots, at the end of every prefix |
| EchoLoop.EchoesConserved | crates/probe-core/src/checks/turn_echo.rs:230-240 | over any run received and duplicates together are the valid echoes consumed |
| EchoLoop.SlotsAreFirstArrivals | crates/probe-core/src/checks/turn_echo.rs:230-240 | over any run a filled slot holds the first valid arrival among the polls consumed |
| EchoLoop.SlotsDetermined | crates/probe-core/src/checks/turn_echo.rs:208-241 | stopping early at full receipt loses no first arrival |
| EchoLoop.SlotsAreTimely | crates/probe-core/src/checks/turn_echo.rs:208-241 | over every run each slot holds the time of the first valid arrival among the datagrams in time, or nothing |
| EchoLoop.FirstRttExact | crates/probe-core/src/checks/turn_echo.rs:230-239 | there is a time exactly when there is a valid echo; it runs from that packet's own sending to its first echo, and is zero if the clock ran backwards |
| EchoLoop.NoiseIndependence | crates/probe-core/src/checks/turn_echo.rs:208-241 | under a monotone clock, deleting every wrong-source, malformed, unrelated or out-of-range datagram changes neither times nor counters nor failure |
| EchoLoop.EchoIs | crates/probe-core/src/checks/turn_echo.rs:219-229 | a datagram counts for a number exactly when it comes from the server, the number was sent, and its first DATA value is that number's payload |
| EchoLoop.OrderIndependence | crates/probe-core/src/checks/turn_echo.rs:208-285 | two runs whose datagrams in time are permutations of each other have the same received count and filled slots |
| EchoLoop.RepeatsOnlyDuplicate | crates/probe-core/src/checks/turn_echo.rs:235-240 | removing repeats changes only the duplicates counter |
| EchoLoop.DuplicatesDependOnOrder | crates/probe-core/src/checks/turn_echo.rs:208-240 | duplicates itself depends on arrival order, because the loop stops at full receipt |
| Checks.MeasureEchoes | crates/probe-core/src/checks/turn_echo.rs:174-285 | sends the numbered payloads to the relay, all of them or up to and including the first whose send fails, and reports the tally and status of the collection |
| Checks.TimelyInTime | crates/probe-core/src/checks/turn_echo.rs:128-218 | the polls that decide the check are exactly those that, with all before them, are datagrams polled before the configured timeout, or five seconds, has passed since some send |
| Checks.RunTurnEcho | crates/probe-core/src/checks/turn_echo.rs:115-286 | the check's result is that of its specification; the permission request is for our own reflexive address and goes to the session's server; packets go to its relay, only once permission is granted, in order and no further than the first failed send |
| Checks.SendPackets | crates/probe-core/src/checks/turn_echo.rs:179-190 | sends the payloads to the relay in order; the last one sent is the first whose send fails, or all went out and every send time is recorded |
| Checks.EveryPacketHasSendTime | crates/probe-core/src/checks/turn_echo.rs:231-234 | once the loop starts every send time is present, so the branch for a missing one is unreachable |
| Checks.EchoCheckOutcome | crates/probe-core/src/checks/turn_echo.rs:115-286 | for every list of polls: the whole check passes, warns or fails as all, some or none of the packets came back in time, records each first arrival, and fails on a receive error only while packets are missing |
| Checks.WorkingRelayPasses | crates/probe-core/src/checks/turn_echo.rs:128-282 | a relay that returns every packet before the timeout has passed since some send, wrapped in a Data Indication with any other attributes, makes the check pass |
| Checks.EchoTimesExact | crates/probe-core/src/checks/turn_echo.rs:193-239 | each slot the check records holds the time from that packet's own sending to its first valid echo in time, zero if the clock ran backwards, and is empty exactly when there is none |
| Checks.EchoFailsEarly | crates/probe-core/src/checks/turn_echo.rs:149-190 | without a granted permission, or with a send that fails, the check fails |
| Checks.PermissionIsRead | crates/probe-core/src/checks/turn_echo.rs:342-360 | the permission is taken as granted, or refused with a code, if and only if the reply on the wire says so |
| Checks.PermissionRoundTrip | crates/probe-core/src/checks/turn_echo.rs:342-360 | a permission success grants; a permission error is reported with its first ERROR-CODE |
| Checks.RunTurnAllocate | crates/probe-core/src/checks/turn_alloc.rs:54-212 | what is sent, all of it to the server, the result, the relay entry and the session are those of the two-round exchange; only an authenticated end leaves a session |
| Checks.SessionFromGrant | crates/probe-core/src/checks/turn_alloc.rs:107-187 | a new session only after a challenge of the first transaction and a grant of the second, holding that challenge's realm and nonce, the key derived from them and that grant's relay; a pass always records the granted relay; other entries stay |
| Checks.AllocOutcome | crates/probe-core/src/checks/turn_alloc.rs:71-212 | the UDP check fails without a socket, warns exactly on a challenge it has no credentials for, and leaves the context alone when it fails |
| Checks.TurnsOutcome | crates/probe-core/src/checks/turns_alloc.rs:100-237 | so does the TLS check, without a connection |
| Checks.RunTurnsAllocate | crates/probe-core/src/checks/turns_alloc.rs:60-237 | the same exchange over framed messages; what is written is the framed requests; no session is left |
| Checks.TransportAgreement | crates/probe-core/src/checks/turns_alloc.rs:118-236 | for the same transactions, credentials and pair of replies of at most 1500 bytes, UDP and TLS give the same status, outcome and relay address, and only UDP records a session |
| Checks.OversizedReplyFails | crates/probe-core/src/checks/turn_alloc.rs:90-105 | a well-formed reply longer than the buffer is refused over UDP |
| Checks.RunDns | crates/probe-core/src/checks/dns.rs:43-106 | the check stores the resolved addresses and passes exactly when there are any |
| Checks.DistinctIs | crates/probe-core/src/checks/dns.rs:68-76 | the stored list has the resolver's addresses, none twice, and starts with its first |
| Checks.DnsOutcome | crates/probe-core/src/checks/dns.rs:43-106 | with a host the check passes exactly when the resolver gives an address, and otherwise fails and leaves the context alone |
| Checks.GuardsSkip | crates/probe-core/src/checks/turn_alloc.rs:54-62 | whatever a check misses in the context makes it a skip that leaves the context alone, never a failure |
| Checks.RunStun | crates/probe-core/src/checks/stun.rs:45-129 | once a socket is bound, exactly one datagram goes to the server and decodes as a Binding request of this transaction; the check stores the reflexive address it passes with and touches nothing otherwise |
| Checks.BindingPasses | crates/probe-core/src/checks/stun.rs:45-129 | the check passes with an address, and stores it, if and only if a reply arrives whose first mapped address decodes to it; otherwise it fails and stores none |
| Checks.RunIceGather | crates/probe-core/src/checks/ice_gather.rs:97-192 | the check's result is that of its specification over interfaces and context |
| Checks.UsefulV4Ranges | crates/probe-core/src/checks/ice_gather.rs:224-239 | the IPv4 addresses kept are exactly those outside loopback, 169.254/16, multicast, unspecified and broadcast |
| Checks.UsefulV6Ranges | crates/probe-core/src/checks/ice_gather.rs:241-258 | the IPv6 addresses kept are exactly those outside fe80::/10, ff00::/8, `::` and `::1` |
| Checks.IceListing | crates/probe-core/src/checks/ice_gather.rs:97-192 | the candidates are one host per interface with an address outside those ranges, in the order of the interfaces, then the reflexive address and the session's relay; counts and status follow from that list; it fails when the interfaces cannot be read |
| Checks.CountKinds | crates/probe-core/src/checks/ice_gather.rs:202-213 | the counters are the numbers of candidates of each kind |
| Checks.GatheredCounts | crates/probe-core/src/checks/ice_gather.rs:128-171 | the three counts add up to the total; srflx and relay are counted once, exactly when the context has them |
| Pipeline.Pipeline.Push | crates/probe-core/src/pipeline.rs:111-114 | a pushed check comes last |
| Pipeline.Pipeline.RunAll | crates/probe-core/src/pipeline.rs:117-152 | results and final context are those of the run specification |
| Pipeline.Gating | crates/probe-core/src/pipeline.rs:117-152 | for any pipeline and behaviour: one result per check in order; a body runs, on the context its predecessors left, if and only if every required id passed strictly earlier; otherwise the check is skipped, naming exactly the missing ids, and the context is untouched |
| Pipeline.MissingSplits | crates/probe-core/src/pipeline.rs:117-152 | the missing ids are named in the order they are required |
| Pipeline.SkipsCascade | crates/probe-core/src/pipeline.rs:3-6 | if an id never passes, every check that transitively requires it is skipped |
| Pipeline.PerformSupplies | crates/probe-core/src/checks/turn_alloc.rs:54-212 | each check keeps what its predecessors put into the context, adds its own on passing, and reaches none of the missing-context guards |
| Pipeline.RunSupplies | crates/probe-core/src/check.rs:15-39 | over whole runs from a fresh context: a dns pass means addresses, a binding pass a readable reflexive address, and a session exists exactly after an authenticated UDP allocation |
| Pipeline.ReachableGuards | crates/probe-core/src/checks/turn_echo.rs:116-125 | in every pipeline of the six checks no guard for a missing host, port, address, reflexive address or candidate is taken, ice.gather never warns, and the no-session skip is taken exactly when the echo check runs without a session, which needs an anonymous allocation |
| TurnCommand.CommandOutcome | crates/webrtc-doctor/src/main.rs:239-264 | in terms of the replies on the wire: the echo check is skipped for want of a session if and only if the name resolves, the STUN reply says an address and the first TURN reply grants a relay; it works on a session if and only if instead the first challenges, credentials are known and the second grants |
| TurnCommand.NoSessionReached | crates/probe-core/src/checks/turn_echo.rs:116-120 | the skip for want of a session happens: for every address, relay and transaction, replies are given under which the first three checks pass and the echo check takes it |
| TurnCommand.SessionReached | crates/webrtc-doctor/src/main.rs:239-264 | against a TURN server following its RFCs, with a challenge that fits and a password SASLprep leaves alone, the first three checks pass and the echo check works on a session with that server's relay, realm, nonce and key, for the address the STUN server reported |
| TurnCommand.AllPass | crates/webrtc-doctor/src/main.rs:239-264 | all four checks pass when, in addition, the server's reply permits and every packet comes back before the timeout has passed since some send |
| TurnCommand.PermissionVerifies | crates/probe-core/src/checks/turn_echo.rs:138-151 | the permission request of such a run goes to that server, asks for the address the STUN server reported, and passes the server's credential and digest checks |
| TurnsCommand.TurnsRuns | crates/webrtc-doctor/src/main.rs:265-284 | in the turns command the TLS check runs on the resolved addresses if and only if the name resolves, and is skipped for want of dns otherwise |
| TurnsCommand.TurnsPasses | crates/webrtc-doctor/src/main.rs:265-284 | connected to a server following its RFCs, with its credentials, both checks pass and its relay is recorded |
| IceCommand.IceOutcome | crates/webrtc-doctor/src/main.rs:368-388 | candidates are listed if and only if the name resolves, the STUN reply says an address and interfaces can be read; one is reflexive, and one is a relay exactly when the allocation authenticates |
| IceCommand.AnonymousRelayDropped | crates/probe-core/src/checks/ice_gather.rs:146-158 | replies under which the allocation check passes with a relay and the candidates have none |
| Endpoint.EndpointRoundTrip | crates/webrtc-doctor/src/main.rs:575-602 | parsing undoes printing, for every port, if and only if the address is bracketed and free of a closing bracket, or unbracketed, non-empty and not starting with an opening bracket |
| Endpoint.PortRoundTrip | crates/webrtc-doctor/src/main.rs:600 | the decimal port is parsed back for every port |
| Endpoint.BracketedSplit | crates/webrtc-doctor/src/render.rs:99-106 | a bracketed endpoint is split where it was put together, exactly when the address has no closing bracket |
| Endpoint.PlainSplit | crates/webrtc-doctor/src/main.rs:586-596 | an unbracketed endpoint is split at its last colon |
| WireExamples.PlainRequests | crates/probe-core/src/turn_codec.rs:264-278 | the Binding and first Allocate requests, byte by byte |
| WireExamples.SampleV4 | crates/probe-core/src/stun_codec.rs:115-146 | the IPv4 sample of section 2.2 of RFC 5769 is decoded to its address |
| WireExamples.SampleV6 | crates/probe-core/src/stun_codec.rs:115-146 | so is the IPv6 sample of section 2.3 |
| WireExamples.GrantExample | crates/probe-core/src/turn_codec.rs:334-373 | the grant of the program's own test, byte by byte |
| WireExamples.ChallengeExample | crates/probe-core/src/turn_codec.rs:305-332 | a challenge, byte by byte |
| WireExamples.LegacyExample | crates/probe-core/src/checks/stun.rs:157-163 | a Binding success with MAPPED-ADDRESS, byte by byte |
| WireExamples.RefusalExample | crates/probe-core/src/checks/turn_echo.rs:455-478 | the 438 of the program's own test, byte by byte |
| WireExamples.PermitsExample | crates/probe-core/src/checks/turn_echo.rs:441-453 | a permission success, byte by byte |
| WireExamples.HelloExample | crates/probe-core/src/checks/turn_echo.rs:480-497 | the Data Indication of the program's own test, byte by byte |
| WireExamples.FrameAndPayload | crates/probe-core/src/checks/turn_echo.rs:75-80 | a frame with its length first, and a payload with the prefix in ASCII and the number's lowest byte first |
| Endpoint.EndpointAccepted | crates/webrtc-doctor/src/main.rs:575-602 | a text is an endpoint if and only if it is a bracketed host without a closing bracket, or a plain one without colon or opening bracket, then a colon and a port |
| Endpoint.EndpointRefused | crates/webrtc-doctor/src/main.rs:586-600 | a second colon without brackets, and a port above 65535, are refused as such |
| Endpoint.PortAccepted | crates/webrtc-doctor/src/main.rs:600 | a text is read as a port if and only if it is a plus sign or none, any zeros and the decimal form of a number below 65536 |

## Left out

- Sockets, timeouts, the TLS handshake, scheduling and interface enumeration: their outcomes are arguments.
- MD5, HMAC-SHA1, SASLprep, UTF-8 decoding and the text form of addresses: arbitrary functions, no cryptographic claim.
- `new_txid`: transaction ids are arguments; nothing is claimed about their uniqueness.
- The DTLS and signaling checks: they appear only as arbitrary checks of a pipeline.
- Summary strings, JSON detail, latencies, `stats` and `loss_pct`: only the facts they print are kept, in `Note`.
- `via` labels of ICE candidates, and the text form of their addresses.
- `Report::verdict` and `counts`, exit codes, `parse_stun_like`, secrets read from stdin, and `full`, which concatenates runs.
- A partial write before a stream error: a failed send leaves the written bytes as they were.
- Behaviour the program does not have: nonce refresh on 438, retransmission, checking the integrity of responses, FINGERPRINT.
