/**
 The allocation over TLS in a closed loop: the frames the check writes reach a
 server that undoes the framing of RFC 4571, and that server's framed answers are
 what the check reads.
 */
module StreamHandshake {
  import opened Words
  import opened Wrappers
  import opened StunTypes
  import opened Primitives
  import opened StunCodec
  import opened TurnCodec
  import opened Requests
  import opened AllocateResponse
  import opened Handshake
  import opened Framing
  import opened Context
  import opened Checks

  function Framed(answer: Option<bytes>): bytes {
    match answer
    case None => []
    case Some(msg) => Frame(msg)
  }

  /** What a server writes that takes one framed message after the other off `stream` and frames its answers. */
  function Served(p: Primitives, s: Server, stream: bytes): bytes
    decreases |stream|
  {
    match Unframe(stream)
    case None => []
    case Some((msg, rest)) => Framed(Answer(p, s, msg)) + Served(p, s, rest)
  }

  /** The check is connected to this server: it reads what the server makes of what it writes. */
  predicate Connected(p: Primitives, s: Server, io: TlsIo, c: Context) {
    io.connectOk && io.writes >= 2 && io.incoming == Served(p, s, Frames(TlsExchange(p, io, c).requests))
  }

  /** The check gets as far as the exchange, with the server's own user and password. */
  predicate Enrolled(s: Server, c: Context) {
    c.host.Some? && c.port.Some? && c.resolvedIps != [] && c.turnUser == Some(s.user) && c.turnPass == Some(s.pass)
  }

  /** The client's second request fits a frame, and so its own length field. */
  predicate SecondRequestFramed(p: Primitives, s: Server) {
    HEADER_LENGTH + AuthedLength(4, s.user, p.fromUtf8Lossy(s.realm), s.nonce) < 0x1_0000
  }

  function SecondAnswerOf(p: Primitives, s: Server, txid: TxId): bytes {
    if VerifyIntegrity(p, s.ServerKey(p), SecondRequest(p, s, txid))
    then Signed(p, s.ServerKey(p), ALLOCATE_SUCCESS, txid, GrantAttrs(s, txid))
    else Challenge(s, txid)
  }

  lemma ServedFrame(p: Primitives, s: Server, msg: bytes, rest: bytes)
    requires |msg| < 0x1_0000
    ensures Served(p, s, Frame(msg) + rest) == Framed(Answer(p, s, msg)) + Served(p, s, rest)
  {
    hide Frame, Unframe, Answer;
    FrameRoundTrip(msg, rest);
  }

  lemma ServedNothing(p: Primitives, s: Server)
    ensures Served(p, s, []) == []
  {
  }

  lemma FirstRequestLength(txid: TxId)
    ensures |AllocateUnauth(txid)| == 28
  {
    hide Tlv;
    OneTlv(REQUESTED_TRANSPORT, TRANSPORT_UDP);
    assert Padding(4) == 0;
  }

  lemma SecondRequestLength(p: Primitives, s: Server, txid: TxId)
    requires SecondRequestFramed(p, s)
    ensures SecondRequestFits(p, s) && |SecondRequest(p, s, txid)| < 0x1_0000
  {
    hide Signed, Decode, VerifyIntegrity, AuthedLength, LongTermKey;
    var realm := p.fromUtf8Lossy(s.realm);
    AuthedRequestVerifies(p, ALLOCATE_REQUEST, txid, TRANSPORT_ATTR, s.user, realm, s.nonce, LongTermKey(p, s.user, realm, s.pass));
  }

  /** What the server writes back, request by request. */
  lemma ServedRequests(p: Primitives, s: Server, txid1: TxId, txid2: TxId)
    requires SecondRequestFramed(p, s)
    ensures Served(p, s, Frames([AllocateUnauth(txid1)])) == Frame(Challenge(s, txid1))
    ensures Served(p, s, Frames([AllocateUnauth(txid1), SecondRequest(p, s, txid2)])) ==
            Frame(Challenge(s, txid1)) + Frame(SecondAnswerOf(p, s, txid2))
  {
    hide Answer, Frame, Frames, Served, AllocateUnauth, SecondRequest, Challenge, SecondRequestFramed, SecondRequestFits;
    hide Signed, VerifyIntegrity, LongTermKey;
    var req1, req2 := AllocateUnauth(txid1), SecondRequest(p, s, txid2);
    FirstRequestLength(txid1);
    SecondRequestLength(p, s, txid2);
    FirstRequestChallenged(p, s, txid1);
    SecondAnswer(p, s, txid2);
    FramesOfOne(req1);
    FramesOfTwo(req1, req2);
    ServedFrame(p, s, req1, []);
    ServedFrame(p, s, req1, Frame(req2));
    ServedFrame(p, s, req2, []);
    ServedNothing(p, s);
    assert Frame(req1) + [] == Frame(req1) && Frame(req2) + [] == Frame(req2);
    assert Framed(Answer(p, s, req1)) + [] == Framed(Answer(p, s, req1));
    assert Framed(Answer(p, s, req2)) + [] == Framed(Answer(p, s, req2));
  }

  /** Once the challenge is what the stream brings first, both requests go out and the rest of the stream decides. */
  lemma AfterChallenge(p: Primitives, s: Server, io: TlsIo, c: Context, rest: bytes)
    requires Enrolled(s, c) && s.WithinLimits() && io.writes >= 2 && io.incoming == Frame(Challenge(s, io.txid1)) + rest
    ensures var x := TlsExchange(p, io, c); var realm := p.fromUtf8Lossy(s.realm);
            && x.requests == [AllocateUnauth(io.txid1), SecondRequest(p, s, io.txid2)]
            && x.end == SecondRound(p, io.txid2, FrameRound(io.writes - 1, rest).0, realm, s.nonce, ClientKey(p, s), s.user)
  {
    hide Frame, Unframe, AllocateUnauth, AllocateAuthed, Challenge, LongTermKey, ReadAllocate, SecondRound;
    ChallengeLength(s, io.txid1);
    FrameRoundTrip(Challenge(s, io.txid1), rest);
    ChallengeRead(p, s, io.txid1);
  }

  /** Only one stream closes the loop: the framed challenge, then the framed answer to the second request. */
  lemma ConnectedStream(p: Primitives, s: Server, io: TlsIo, c: Context)
    requires Enrolled(s, c) && s.WithinLimits() && SecondRequestFramed(p, s)
    ensures Connected(p, s, io, c) <==>
            io.connectOk && io.writes >= 2 && io.incoming == Frames([Challenge(s, io.txid1), SecondAnswerOf(p, s, io.txid2)])
  {
    hide Frame, Frames, Unframe, Served, AllocateUnauth, SecondRequest, Challenge, SecondAnswerOf, Exchange, FrameRound, SecondRound;
    hide LongTermKey, Answer;
    var first, second := Frame(Challenge(s, io.txid1)), Frame(SecondAnswerOf(p, s, io.txid2));
    FramesOfTwo(Challenge(s, io.txid1), SecondAnswerOf(p, s, io.txid2));
    ServedRequests(p, s, io.txid1, io.txid2);
    if io.writes >= 2 && io.incoming == first + second {
      AfterChallenge(p, s, io, c, second);
    }
    if Connected(p, s, io, c) {
      ServedFirst(p, s, io, c);
      var rest := io.incoming[|first|..];
      assert io.incoming == first + rest;
      AfterChallenge(p, s, io, c, rest);
    }
  }

  /** Whatever comes of the exchange, its first request is the one without credentials, and the server challenges it. */
  lemma ServedFirst(p: Primitives, s: Server, io: TlsIo, c: Context)
    requires Connected(p, s, io, c)
    ensures var first := Frame(Challenge(s, io.txid1)); |first| <= |io.incoming| && io.incoming[..|first|] == first
  {
    hide Frame, Unframe, Served, AllocateUnauth, AllocateAuthed, Challenge, FrameRound, SecondRound, ReadAllocate, LongTermKey, Answer;
    var req1 := AllocateUnauth(io.txid1);
    var requests := TlsExchange(p, io, c).requests;
    assert requests[0] == req1;
    FirstRequestLength(io.txid1);
    FirstRequestChallenged(p, s, io.txid1);
    ServedFrame(p, s, req1, Frames(requests[1..]));
  }

  /**
   Over TLS, in a closed loop with a server that follows section 10.2.2 of
   RFC 5389 and section 6.2 of RFC 5766: with that server's user and password the
   check passes exactly when the server accepts the digest of the second request,
   and then reports the server's relay. The size of the challenge does not matter.
   */
  lemma StreamConversation(p: Primitives, s: Server, io: TlsIo, c: Context)
    requires Enrolled(s, c) && s.WithinLimits() && SecondRequestFramed(p, s) && Connected(p, s, io, c)
    ensures var (r, next) := TurnsBody(p, io, c);
            if VerifyIntegrity(p, s.ServerKey(p), SecondRequest(p, s, io.txid2))
            then && r.status == Pass && r.note.Allocation? && r.note.end.Authenticated?
                 && r.note.end.relayed == s.relay && r.note.end.lifetime == s.lifetime
                 && next == c.(scratch := c.scratch["relayed" := p.showAddr(s.relay)])
            else r == CheckResult(TURN_TLS, Fail, Allocation(Failed(CredentialsRejected))) && next == c
  {
    hide Frame, Frames, Unframe, Served, AllocateUnauth, SecondRequest, Challenge, Exchange, ReadAllocate, VerifyIntegrity;
    hide LongTermKey, Signed, TlsExchange, GrantAttrs;
    var second := SecondAnswerOf(p, s, io.txid2);
    ConnectedStream(p, s, io, c);
    FramesOfTwo(Challenge(s, io.txid1), second);
    AfterChallenge(p, s, io, c, Frame(second));
    GrantRead(p, s, io.txid2);
    ChallengeRead(p, s, io.txid2);
    ChallengeLength(s, io.txid2);
    FrameRoundTrip(second, []);
    assert Frame(second) + [] == Frame(second);
  }

  /** With a valid realm and a user name of RFC size only a password that SASLprep changes can make it fail. */
  lemma StreamHandshakeOutcome(p: Primitives, s: Server, io: TlsIo, c: Context)
    requires Enrolled(s, c) && s.WithinLimits() && p.ValidUtf8(s.realm) && |s.user| < 513 && Connected(p, s, io, c)
    ensures TurnsBody(p, io, c).0.status == Pass <==>
            SameDigest(p, ClientKey(p, s), s.ServerKey(p), SecondRequest(p, s, io.txid2))
  {
    hide TurnsBody, Connected, VerifyIntegrity, SecondRequest, SameDigest, LongTermKey, Characters;
    UsualRequestFramed(p, s);
    DigestAccepted(p, s, io.txid2);
    StreamConversation(p, s, io, c);
  }

  lemma UsualRequestFramed(p: Primitives, s: Server)
    requires s.WithinLimits() && p.ValidUtf8(s.realm) && |s.user| < 513
    ensures SecondRequestFramed(p, s) && SecondRequestFits(p, s)
  {
    hide Padding, Characters;
    PaddingAligns(4);
    PaddingAligns(|s.user|);
    PaddingAligns(|s.realm|);
    PaddingAligns(|s.nonce|);
  }

  /** With a password that SASLprep leaves alone nothing is left that could make it fail. */
  lemma StreamHandshakeSucceeds(p: Primitives, s: Server, io: TlsIo, c: Context)
    requires Enrolled(s, c) && s.WithinLimits() && p.ValidUtf8(s.realm) && |s.user| < 513 && p.saslPrep(s.pass) == s.pass
    requires Connected(p, s, io, c)
    ensures var (r, next) := TurnsBody(p, io, c);
            && r.status == Pass && r.note.end.Authenticated? && r.note.end.relayed == s.relay
            && "relayed" in next.scratch && next.scratch["relayed"] == p.showAddr(s.relay)
  {
    hide TurnsBody, Connected, VerifyIntegrity, SecondRequest, LongTermKey, Characters;
    UsualRequestFramed(p, s);
    ValidRealmVerifies(p, s, io.txid2);
    StreamConversation(p, s, io, c);
  }

  /** Where the transports part: a server with a long challenge is passed over TLS, and is refused over UDP. */
  lemma LongChallengeNeedsStream(p: Primitives, user: Text, pass: Text, relay: SocketAddr, lifetime: u32, io: TlsIo, c: Context)
    requires var s := LongWinded(user, pass, relay, lifetime);
             && Enrolled(s, c) && p.ValidUtf8(s.realm) && |user| < 513 && p.saslPrep(pass) == pass
             && Connected(p, s, io, c)
    ensures TurnsBody(p, io, c).0.status == Pass
    ensures !Conversation(p, LongWinded(user, pass, relay, lifetime), io.txid1, io.txid2).end.Authenticated?
  {
    hide TurnsBody, Connected, Conversation, Faces, Characters;
    LongChallengeFails(p, user, pass, relay, lifetime, io.txid1, io.txid2);
    StreamHandshakeSucceeds(p, LongWinded(user, pass, relay, lifetime), io, c);
  }

  /**
   A peer that does not undo the framing never sees a message: with the 2-byte
   length in front, no beginning of the stream has a STUN header, for any
   transaction. Section 7.2.2 of RFC 5389 allows such a peer where STUN is the only
   protocol on the stream.
   */
  lemma FramedIsNotBare(msg: bytes, rest: bytes, k: nat, txid: TxId)
    requires |msg| >= HEADER_LENGTH && msg[4..8] == COOKIE_BYTES && k <= |Frame(msg) + rest|
    ensures ParseHeader((Frame(msg) + rest)[..k], txid).Err?
  {
    hide High, Low, AsU16;
    var stream := Frame(msg) + rest;
    if HEADER_LENGTH <= k {
      var buf := stream[..k];
      assert stream[6] == msg[4] == msg[4..8][0] && stream[7] == msg[5] == msg[4..8][1];
      assert buf[4..8][2] == 0x21;
      CookieBytes(buf[4..8]);
    }
  }

  /** So a server that reads bare messages answers nothing to the check's first request, however much of the stream it takes. */
  lemma BareServerSilent(p: Primitives, s: Server, txid: TxId, rest: bytes, k: nat)
    requires k <= |Frame(AllocateUnauth(txid)) + rest|
    ensures Answer(p, s, (Frame(AllocateUnauth(txid)) + rest)[..k]).None?
  {
    hide Frame, AsU16, Tlv, ParseHeader, VerifyIntegrity, Signed, Challenge, High, Low;
    var req := AllocateUnauth(txid);
    var buf := (Frame(req) + rest)[..k];
    FirstRequestLength(txid);
    HeaderWithLength(ALLOCATE_REQUEST, txid, Tlvs([TRANSPORT_ATTR]), AsU16(|Tlvs([TRANSPORT_ATTR])|));
    assert req[4..8] == COOKIE_BYTES;
    if k >= HEADER_LENGTH {
      FramedIsNotBare(req, rest, k, buf[8..20]);
    }
  }

  /** Over a stream that brings nothing, the check sends its first request and reports that no answer came. */
  lemma SilenceFails(p: Primitives, io: TlsIo, c: Context)
    requires TlsReached(io, c) && io.incoming == []
    ensures TurnsBody(p, io, c) == (CheckResult(TURN_TLS, Fail, Allocation(Failed(Transport))), c)
    ensures TlsExchange(p, io, c).requests == [AllocateUnauth(io.txid1)]
  {
    hide AllocateUnauth, AllocateAuthed, ReadAllocate, LongTermKey;
  }

  /**
   What a server writes that reads bare messages: it looks for one at the start of
   the stream, at every length it may take for one, and answers the first it sees.
   */
  function BareServed(p: Primitives, s: Server, stream: bytes, upTo: nat): bytes
    requires upTo <= |stream|
  {
    var earlier := if upTo == 0 then [] else BareServed(p, s, stream, upTo - 1);
    if earlier != [] then earlier
    else
      match Answer(p, s, stream[..upTo])
      case None => []
      case Some(msg) => msg
  }

  lemma {:induction false} BareServedNothing(p: Primitives, s: Server, txid: TxId, rest: bytes, upTo: nat)
    requires upTo <= |Frame(AllocateUnauth(txid)) + rest|
    ensures BareServed(p, s, Frame(AllocateUnauth(txid)) + rest, upTo) == []
  {
    hide Frame, AllocateUnauth, Answer;
    if upTo > 0 {
      BareServedNothing(p, s, txid, rest, upTo - 1);
    }
    BareServerSilent(p, s, txid, rest, upTo);
  }

  /** In a closed loop with such a server the check fails for want of an answer, whatever its credentials, and changes nothing. */
  lemma BareServerFails(p: Primitives, s: Server, io: TlsIo, c: Context)
    requires TlsReached(io, c)
    requires var written := Frames(TlsExchange(p, io, c).requests); io.incoming == BareServed(p, s, written, |written|)
    ensures TurnsBody(p, io, c) == (CheckResult(TURN_TLS, Fail, Allocation(Failed(Transport))), c)
  {
    hide Frame, AllocateUnauth, AllocateAuthed, BareServed, TurnsBody, FrameRound, SecondRound, ReadAllocate, LongTermKey;
    var requests := TlsExchange(p, io, c).requests;
    assert requests[0] == AllocateUnauth(io.txid1);
    var written := Frames(requests);
    assert written == Frame(AllocateUnauth(io.txid1)) + Frames(requests[1..]);
    BareServedNothing(p, s, io.txid1, Frames(requests[1..]), |written|);
    SilenceFails(p, io, c);
  }
}
