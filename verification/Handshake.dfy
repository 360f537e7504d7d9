/**
 The long-term-credential Allocate exchange (section 10.2 of RFC 5389, section 6
 of RFC 5766): what the client does for every pair of replies, and what comes of
 it against a server that follows section 10.2.2 of RFC 5389.
 */
module Handshake {
  import opened Words
  import opened Wrappers
  import opened StunTypes
  import opened Primitives
  import opened StunCodec
  import opened TurnCodec
  import opened Requests
  import opened AllocateResponse

  /** How sending a request and waiting for its answer went. */
  datatype Round = SendFailed | NoReply | Reply(data: bytes)

  /** A round over UDP: a datagram longer than the receive buffer is cut off. */
  function OverUdp(round: Round): Round {
    if round.Reply? then Reply(Cut(round.data)) else round
  }

  datatype Failure = Transport | Malformed(error: AllocateError) | ServerError(code: u16) | CredentialsRejected

  datatype End =
    | Failed(why: Failure)
    | ChallengeOnly(challengeRealm: Text)
    | Anonymous(anonymousRelay: SocketAddr)
    | Authenticated(relayed: SocketAddr, lifetime: u32, realm: Text, nonce: bytes, key: Key, user: Text)

  datatype Exchanged = Exchanged(end: End, requests: seq<bytes>)

  /** The exchange as a function of the two rounds; `requests` are handed to the transport in this order. */
  function Exchange(p: Primitives, user: Option<Text>, pass: Option<Text>,
                    txid1: TxId, txid2: TxId, round1: Round, round2: Round): Exchanged {
    var req1 := AllocateUnauth(txid1);
    if !round1.Reply? then Exchanged(Failed(Transport), [req1])
    else
      match ReadAllocate(p, round1.data, txid1)
      case Err(e) => Exchanged(Failed(Malformed(e)), [req1])
      case Ok(Success(relayed, _)) => Exchanged(Anonymous(relayed), [req1])
      case Ok(Rejected(code, _)) => Exchanged(Failed(ServerError(code)), [req1])
      case Ok(Unauthorized(realm, nonce)) =>
        if user.None? || pass.None? then Exchanged(ChallengeOnly(realm), [req1])
        else
          var key := LongTermKey(p, user.value, realm, pass.value);
          var req2 := AllocateAuthed(p, txid2, user.value, realm, nonce, key);
          Exchanged(SecondRound(p, txid2, round2, realm, nonce, key, user.value), [req1, req2])
  }

  function SecondRound(p: Primitives, txid: TxId, round: Round, realm: Text, nonce: bytes, key: Key, user: Text): End {
    if !round.Reply? then Failed(Transport)
    else
      match ReadAllocate(p, round.data, txid)
      case Err(e) => Failed(Malformed(e))
      case Ok(Success(relayed, lifetime)) => Authenticated(relayed, lifetime, realm, nonce, key, user)
      case Ok(Unauthorized(_, _)) => Failed(CredentialsRejected)
      case Ok(Rejected(code, _)) => Failed(ServerError(code))
  }

  // ----- safety over every pair of replies -----

  /** On the wire: an Allocate error for this transaction whose last ERROR-CODE says 401 and which carries REALM and NONCE. */
  predicate Challenges(data: bytes, txid: TxId) {
    match Decode(data, txid)
    case Err(_) => false
    case Ok((h, attrs)) =>
      && h.msgType == ALLOCATE_ERROR && !ShortErrorCode(attrs)
      && Last(attrs, ERROR_CODE).Some? && |Last(attrs, ERROR_CODE).value| >= 4 && ErrorNumber(Last(attrs, ERROR_CODE).value) == 401
      && Last(attrs, REALM).Some? && Last(attrs, NONCE).Some?
  }

  /** On the wire: an Allocate success for this transaction in which every relay address decodes, the last to `relayed`. */
  predicate Grants(data: bytes, txid: TxId, relayed: SocketAddr) {
    var r := Decode(data, txid);
    && r.Ok? && r.value.0.msgType == ALLOCATE_SUCCESS && AllRelaysDecode(r.value.1, txid)
    && Last(r.value.1, XOR_RELAYED_ADDRESS).Some? && XorAddress(Last(r.value.1, XOR_RELAYED_ADDRESS).value, txid) == Ok(relayed)
  }

  predicate AllRelaysDecode(attrs: seq<Attr>, txid: TxId) {
    forall a :: a in attrs ==> RelayDecodes(a, txid)
  }

  ghost predicate GivesRelay(data: bytes, txid: TxId) {
    exists relayed :: Grants(data, txid, relayed)
  }

  lemma ChallengeIsRead(p: Primitives, data: bytes, txid: TxId)
    ensures Challenges(data, txid) <==> ReadAllocate(p, data, txid).Ok? && ReadAllocate(p, data, txid).value.Unauthorized?
    ensures Challenges(data, txid) ==>
              var attrs := Decode(data, txid).value.1;
              ReadAllocate(p, data, txid) == Ok(Unauthorized(p.fromUtf8Lossy(Last(attrs, REALM).value), Last(attrs, NONCE).value))
  {
    hide XorAddress, Decode, Last;
    if Decode(data, txid).Ok? {
      LastIndex(Decode(data, txid).value.1, ERROR_CODE);
    }
  }

  /** The client takes a reply for a grant of `relayed` exactly when it is one on the wire. */
  lemma GrantIsRead(p: Primitives, data: bytes, txid: TxId)
    ensures var r := ReadAllocate(p, data, txid);
            && (forall relayed :: Grants(data, txid, relayed) <==> r.Ok? && r.value.Success? && r.value.relayed == relayed)
            && (GivesRelay(data, txid) <==> r.Ok? && r.value.Success?)
  {
    hide XorAddress, Decode, Last, RelayDecodes;
    var r := ReadAllocate(p, data, txid);
    if Decode(data, txid).Ok? {
      RelaysDecode(Decode(data, txid).value.1, txid);
    }
    assert r.Ok? && r.value.Success? ==> Grants(data, txid, r.value.relayed);
  }

  /**
   Over every pair of replies at most two requests go out; the one that carries
   credentials follows exactly when both credentials are known and the first
   reply is a challenge matching the first transaction; it answers that
   challenge's realm and nonce. A relay is reported exactly on a grant: of the
   first transaction without credentials, of the second with them.
   */
  lemma CredentialsOnlyAfterChallenge(p: Primitives, user: Option<Text>, pass: Option<Text>,
                                      txid1: TxId, txid2: TxId, round1: Round, round2: Round)
    ensures var x := Exchange(p, user, pass, txid1, txid2, round1, round2);
            && 1 <= |x.requests| <= 2 && x.requests[0] == AllocateUnauth(txid1)
            && (|x.requests| == 2 <==> user.Some? && pass.Some? && round1.Reply? && Challenges(round1.data, txid1))
            && (|x.requests| == 2 ==>
                  var attrs := Decode(round1.data, txid1).value.1;
                  var realm := p.fromUtf8Lossy(Last(attrs, REALM).value);
                  var key := LongTermKey(p, user.value, realm, pass.value);
                  x.requests[1] == AllocateAuthed(p, txid2, user.value, realm, Last(attrs, NONCE).value, key))
            && (x.end.Anonymous? <==> round1.Reply? && GivesRelay(round1.data, txid1))
            && (x.end.Anonymous? ==> |x.requests| == 1 && Grants(round1.data, txid1, x.end.anonymousRelay))
            && (x.end.Authenticated? <==> |x.requests| == 2 && round2.Reply? && GivesRelay(round2.data, txid2))
            && (x.end.Authenticated? ==> Grants(round2.data, txid2, x.end.relayed))
            && (x.end.ChallengeOnly? <==> round1.Reply? && Challenges(round1.data, txid1) && (user.None? || pass.None?))
  {
    hide XorAddress, Decode, Last, AllocateAuthed, AllocateUnauth, LongTermKey, ReadAllocate, Challenges, Grants, GivesRelay;
    if round1.Reply? {
      ChallengeIsRead(p, round1.data, txid1);
      GrantIsRead(p, round1.data, txid1);
    }
    if round2.Reply? {
      GrantIsRead(p, round2.data, txid2);
    }
  }

  ghost predicate RejectsWith(p: Primitives, data: bytes, txid: TxId, code: u16) {
    exists reason :: Rejects(p, data, txid, code, reason)
  }

  lemma RejectionCode(p: Primitives, data: bytes, txid: TxId)
    ensures var r := ReadAllocate(p, data, txid);
            forall code: u16 :: RejectsWith(p, data, txid, code) <==> r.Ok? && r.value.Rejected? && r.value.code == code
  {
    hide Rejects;
    var r := ReadAllocate(p, data, txid);
    forall code: u16, reason
      ensures Rejects(p, data, txid, code, reason) <==> r == Ok(Rejected(code, reason))
    {
      RejectionIsRead(p, data, txid, code, reason);
    }
    hide ReadAllocate;
    assert r.Ok? && r.value.Rejected? ==> Rejects(p, data, txid, r.value.code, r.value.reason);
  }

  /**
   Why an exchange fails: no answer; a rejection in either round, with its code; a
   second challenge; and a reply that is none of these and no grant otherwise.
   */
  lemma FailureReasons(p: Primitives, user: Option<Text>, pass: Option<Text>, txid1: TxId, txid2: TxId, round1: Round, round2: Round)
    ensures var x := Exchange(p, user, pass, txid1, txid2, round1, round2);
            && (x.end == Failed(Transport) <==> !round1.Reply? || (|x.requests| == 2 && !round2.Reply?))
            && (forall code: u16 :: x.end == Failed(ServerError(code)) <==>
                  || (round1.Reply? && RejectsWith(p, round1.data, txid1, code))
                  || (|x.requests| == 2 && round2.Reply? && RejectsWith(p, round2.data, txid2, code)))
            && (x.end == Failed(CredentialsRejected) <==> |x.requests| == 2 && round2.Reply? && Challenges(round2.data, txid2))
  {
    hide ReadAllocate, AllocateAuthed, AllocateUnauth, LongTermKey, Challenges, RejectsWith;
    if round1.Reply? {
      RejectionCode(p, round1.data, txid1);
      ChallengeIsRead(p, round1.data, txid1);
    }
    if round2.Reply? {
      RejectionCode(p, round2.data, txid2);
      ChallengeIsRead(p, round2.data, txid2);
    }
  }

  // ----- a server following section 10.2.2 of RFC 5389 -----

  /** The characters of UTF-8 text: its bytes, less those that continue a character. */
  function Characters(text: Text): nat {
    if text == [] then 0 else (if 0x80 <= text[0] < 0xC0 then 0 else 1) + Characters(text[1..])
  }

  /** Sections 15.6 to 15.8 of RFC 5389: fewer than 128 characters, and at most 763 bytes. */
  predicate Limited(text: Text) {
    Characters(text) < 128 && |text| <= 763
  }

  /** No character takes more than the four bytes that UTF-8 has for it. */
  predicate FourBytesEach(text: Text) {
    |text| <= 4 * Characters(text)
  }

  datatype Server = Server(realm: Text, nonce: bytes, user: Text, pass: Text, reason: Text, relay: SocketAddr, lifetime: u32)
  {
    /** Reason phrase, REALM and NONCE keep to the sizes RFC 5389 allows. */
    predicate WithinLimits() {
      Limited(reason) && Limited(realm) && Limited(nonce)
    }

    /** Section 15.4 of RFC 5389: `MD5(username ":" realm ":" SASLprep(password))`. The client hashes the password as it is. */
    function ServerKey(p: Primitives): Key {
      var colon := 0x3A;
      p.md5(user + [colon] + realm + [colon] + p.saslPrep(pass))
    }
  }

  function ErrorAttrs(s: Server, number: byte): seq<Attr> {
    [Attr(ERROR_CODE, [0, 0, 4, number] + s.reason), Attr(REALM, s.realm), Attr(NONCE, s.nonce)]
  }

  function Challenge(s: Server, txid: TxId): bytes {
    Message(ALLOCATE_ERROR, txid, ErrorAttrs(s, 1))
  }

  function GrantAttrs(s: Server, txid: TxId): seq<Attr> {
    [Attr(XOR_RELAYED_ADDRESS, XorAddressBytes(s.relay, txid)), Attr(LIFETIME, U32Bytes(s.lifetime))]
  }

  /**
   Section 10.2.2 of RFC 5389: 401 without MESSAGE-INTEGRITY, 400 without
   credentials, 438 for a wrong nonce, 401 for a wrong user or digest. Then
   section 6.2 of RFC 5766: 400 unless REQUESTED-TRANSPORT is there and
   well-formed, 442 unless it asks for UDP, else a grant.
   */
  function Answer(p: Primitives, s: Server, req: bytes): Option<bytes> {
    if |req| < HEADER_LENGTH then None
    else
      var txid: TxId := req[8..20];
      match Decode(req, txid)
      case Err(_) => None
      case Ok((h, attrs)) =>
        if h.msgType != ALLOCATE_REQUEST || |req| != HEADER_LENGTH + h.attrsLen then None
        else if First(attrs, MESSAGE_INTEGRITY).None? then Some(Challenge(s, txid))
        else if First(attrs, USERNAME).None? || First(attrs, REALM).None? || First(attrs, NONCE).None? then
          Some(Message(ALLOCATE_ERROR, txid, [Attr(ERROR_CODE, [0, 0, 4, 0])]))
        else if First(attrs, NONCE).value != s.nonce then Some(Message(ALLOCATE_ERROR, txid, ErrorAttrs(s, 38)))
        else if First(attrs, USERNAME).value != s.user || !VerifyIntegrity(p, s.ServerKey(p), req) then Some(Challenge(s, txid))
        else
          match First(attrs, REQUESTED_TRANSPORT)
          case None => Some(Signed(p, s.ServerKey(p), ALLOCATE_ERROR, txid, [Attr(ERROR_CODE, [0, 0, 4, 0])]))
          case Some(transport) =>
            if |transport| != 4 then Some(Signed(p, s.ServerKey(p), ALLOCATE_ERROR, txid, [Attr(ERROR_CODE, [0, 0, 4, 0])]))
            else if transport[0] != 17 then Some(Signed(p, s.ServerKey(p), ALLOCATE_ERROR, txid, [Attr(ERROR_CODE, [0, 0, 4, 42])]))
            else Some(Signed(p, s.ServerKey(p), ALLOCATE_SUCCESS, txid, GrantAttrs(s, txid)))
  }

  function Told(answer: Option<bytes>): Round {
    match answer
    case None => NoReply
    case Some(d) => Reply(d)
  }

  function SecondRequest(p: Primitives, s: Server, txid: TxId): bytes {
    var realm := p.fromUtf8Lossy(s.realm);
    AllocateAuthed(p, txid, s.user, realm, s.nonce, LongTermKey(p, s.user, realm, s.pass))
  }

  /** The whole conversation: each reply is the server's answer to the request the client sent. */
  function Conversation(p: Primitives, s: Server, txid1: TxId, txid2: TxId): Exchanged {
    Exchange(p, Some(s.user), Some(s.pass), txid1, txid2,
             OverUdp(Told(Answer(p, s, AllocateUnauth(txid1)))), OverUdp(Told(Answer(p, s, SecondRequest(p, s, txid2)))))
  }

  /** The client's second request fits the 16-bit length field. */
  predicate SecondRequestFits(p: Primitives, s: Server) {
    AuthedLength(4, s.user, p.fromUtf8Lossy(s.realm), s.nonce) < 0x1_0000
  }

  lemma HeaderOf(buf: bytes, txid: TxId)
    requires ParseHeader(buf, txid).Ok?
    ensures buf[8..20] == txid
  {
  }

  lemma FirstRequestChallenged(p: Primitives, s: Server, txid: TxId)
    ensures Answer(p, s, AllocateUnauth(txid)) == Some(Challenge(s, txid))
  {
    hide Tlv, Section, Challenge;
    var req := AllocateUnauth(txid);
    var attrs := [TRANSPORT_ATTR];
    OneTlv(REQUESTED_TRANSPORT, TRANSPORT_UDP);
    assert Padding(4) == 0;
    hide Tlvs;
    MessageRoundTrip(ALLOCATE_REQUEST, txid, attrs);
    hide HeaderBytes, WithLength;
    assert |req| == HEADER_LENGTH + |Tlvs(attrs)|;
    HeaderOf(req, txid);
    assert First(attrs, MESSAGE_INTEGRITY) == First(attrs[1..], MESSAGE_INTEGRITY) == None;
  }

  lemma CredentialsFound(first: Attr, user: Text, realm: Text, nonce: bytes, integrity: Attr)
    requires first.attrType !in {USERNAME, REALM, NONCE, MESSAGE_INTEGRITY} && integrity.attrType == MESSAGE_INTEGRITY
    ensures var attrs := [first] + Credentials(user, realm, nonce) + [integrity];
            && First(attrs, USERNAME) == Some(user) && First(attrs, REALM) == Some(realm) && First(attrs, NONCE) == Some(nonce)
            && First(attrs, MESSAGE_INTEGRITY).Some? && First(attrs, first.attrType) == Some(first.value)
  {
    var attrs := [first] + Credentials(user, realm, nonce) + [integrity];
    var a1 := attrs[1..];
    var a2 := a1[1..];
    var a3 := a2[1..];
    assert a1[0] == Attr(USERNAME, user) && a2[0] == Attr(REALM, realm) && a3[0] == Attr(NONCE, nonce);
    FirstMember(attrs, MESSAGE_INTEGRITY);
    assert attrs[4] == integrity;
    assert forall t :: t in {USERNAME, REALM, NONCE} ==> First(attrs, t) == First(a1, t);
    assert First(a1, REALM) == First(a2, REALM) && First(a1, NONCE) == First(a2, NONCE) == First(a3, NONCE);
  }

  /** The server reads back the transport, nonce and user it knows, and the realm exactly when that is valid UTF-8. */
  lemma SecondRequestReads(p: Primitives, s: Server, txid: TxId)
    requires SecondRequestFits(p, s)
    ensures var r := Decode(SecondRequest(p, s, txid), txid);
            && r.Ok? && r.value.0.msgType == ALLOCATE_REQUEST && |SecondRequest(p, s, txid)| == HEADER_LENGTH + r.value.0.attrsLen
            && SecondRequest(p, s, txid)[8..20] == txid
            && First(r.value.1, REQUESTED_TRANSPORT) == Some(TRANSPORT_UDP)
            && First(r.value.1, MESSAGE_INTEGRITY).Some?
            && First(r.value.1, USERNAME) == Some(s.user) && First(r.value.1, NONCE) == Some(s.nonce)
            && First(r.value.1, REALM) == Some(p.fromUtf8Lossy(s.realm))
            && (First(r.value.1, REALM) == Some(s.realm) <==> p.ValidUtf8(s.realm))
  {
    hide Signed, LongTermKey, Section, VerifyIntegrity, AuthedLength, First;
    var realm := p.fromUtf8Lossy(s.realm);
    var key := LongTermKey(p, s.user, realm, s.pass);
    AuthedRequestVerifies(p, ALLOCATE_REQUEST, txid, TRANSPORT_ATTR, s.user, realm, s.nonce, key);
    var m := Signed(p, key, ALLOCATE_REQUEST, txid, [TRANSPORT_ATTR] + Credentials(s.user, realm, s.nonce));
    CredentialsFound(TRANSPORT_ATTR, s.user, realm, s.nonce, Attr(MESSAGE_INTEGRITY, p.hmacSha1(key, m[..|m| - INTEGRITY_LENGTH])));
    HeaderOf(SecondRequest(p, s, txid), txid);
  }

  lemma ChallengeRead(p: Primitives, s: Server, txid: TxId)
    requires s.WithinLimits()
    ensures var r := ReadAllocate(p, Cut(Challenge(s, txid)), txid);
            if |Challenge(s, txid)| <= RECEIVE_BUFFER then r == Ok(Unauthorized(p.fromUtf8Lossy(s.realm), s.nonce))
            else r.Err?
    ensures ReadAllocate(p, Challenge(s, txid), txid) == Ok(Unauthorized(p.fromUtf8Lossy(s.realm), s.nonce))
  {
    var attrs := ErrorAttrs(s, 1);
    ErrorAttrsSize(s, 1);
    MessageRoundTrip(ALLOCATE_ERROR, txid, attrs);
    ErrorAttrsRead(p, s);
    hide Section, Tlvs, ReadError;
    var msg := Challenge(s, txid);
    AsU16Small(|Tlvs(attrs)|);
    HeaderWithLength(ALLOCATE_ERROR, txid, Tlvs(attrs), |Tlvs(attrs)|);
    if |msg| > RECEIVE_BUFFER {
      assert Cut(msg)[2] == msg[2] && Cut(msg)[3] == msg[3];
    }
  }

  function PaddedLength(len: nat): nat {
    len + Padding(len)
  }

  /** The longest challenge within the limits of RFC 5389, and the bound their byte counts alone would give. */
  const LONGEST_CHALLENGE := 1560
  const CHALLENGE_BYTE_BOUND := 2328

  lemma PaddedAtMost(len: nat)
    ensures len <= PaddedLength(len) < len + 4
    ensures len <= 763 ==> PaddedLength(len) <= 764
    ensures len <= 508 ==> PaddedLength(len) <= 508
    ensures PaddedLength(508) == 508
  {
    PaddingAligns(len);
  }

  /** How long the challenge is: at most 2328 bytes by the byte counts of RFC 5389, at most 1560 by its character counts. */
  lemma ChallengeLength(s: Server, txid: TxId)
    ensures |Challenge(s, txid)| == HEADER_LENGTH + 16 + PaddedLength(|s.reason|) + PaddedLength(|s.realm|) + PaddedLength(|s.nonce|)
    ensures |Challenge(s, txid)| % 4 == 0
    ensures s.WithinLimits() ==> |Challenge(s, txid)| <= CHALLENGE_BYTE_BOUND
    ensures s.WithinLimits() && FourBytesEach(s.reason) && FourBytesEach(s.realm) && FourBytesEach(s.nonce) ==>
              |Challenge(s, txid)| <= LONGEST_CHALLENGE
  {
    hide PaddedLength, Padding, Tlvs, ErrorAttrs, HeaderBytes, AsU16, Characters;
    ErrorAttrsSize(s, 1);
    PaddedAtMost(|s.reason|);
    PaddedAtMost(|s.realm|);
    PaddedAtMost(|s.nonce|);
    assert |Challenge(s, txid)| == HEADER_LENGTH + |Tlvs(ErrorAttrs(s, 1))|;
    TlvsAligned(ErrorAttrs(s, 1));
  }

  lemma ErrorAttrsSize(s: Server, number: byte)
    ensures |Tlvs(ErrorAttrs(s, number))| == 16 + PaddedLength(|s.reason|) + PaddedLength(|s.realm|) + PaddedLength(|s.nonce|)
    ensures s.WithinLimits() ==> |Tlvs(ErrorAttrs(s, number))| < 0x1_0000
  {
    assert Padding(4 + |s.reason|) == Padding(|s.reason|);
    var first := [0, 0, 4, number] + s.reason;
    hide Tlvs, Padding;
    OneTlv(ERROR_CODE, first);
    TlvsOfOneMore([Attr(ERROR_CODE, first)], REALM, s.realm);
    TlvsOfOneMore([Attr(ERROR_CODE, first)] + [Attr(REALM, s.realm)], NONCE, s.nonce);
    assert ErrorAttrs(s, number) == [Attr(ERROR_CODE, first)] + [Attr(REALM, s.realm)] + [Attr(NONCE, s.nonce)];
    PaddingAligns(|s.reason|);
    PaddingAligns(|s.realm|);
    PaddingAligns(|s.nonce|);
  }

  lemma ErrorAttrsRead(p: Primitives, s: Server)
    ensures ReadError(p, ErrorAttrs(s, 1)) == Ok(Unauthorized(p.fromUtf8Lossy(s.realm), s.nonce))
  {
    var attrs := ErrorAttrs(s, 1);
    assert attrs[1..][0] == attrs[1] && attrs[1..][1..][0] == attrs[2];
    assert ErrorNumber(attrs[0].value) == 401;
    assert First(attrs, REALM) == First(attrs[1..], REALM) == Some(s.realm);
    assert First(attrs, NONCE) == First(attrs[1..], NONCE) == First(attrs[1..][1..], NONCE) == Some(s.nonce);
    hide Last;
    RefusalOnce(p, attrs);
    hide ReadError;
  }

  lemma GrantSize(s: Server, txid: TxId)
    ensures |Tlvs(GrantAttrs(s, txid))| <= 40
  {
    var attrs := GrantAttrs(s, txid);
    assert |attrs[0].value| <= 20;
    hide XorAddressBytes, U32Bytes, Tlvs, Padding;
    PaddingAligns(|attrs[0].value|);
    PaddingAligns(4);
    OneTlv(XOR_RELAYED_ADDRESS, attrs[0].value);
    TlvsOfOneMore([attrs[0]], LIFETIME, attrs[1].value);
    assert attrs == [attrs[0]] + [attrs[1]];
  }

  lemma GrantRead(p: Primitives, s: Server, txid: TxId)
    ensures var msg := Signed(p, s.ServerKey(p), ALLOCATE_SUCCESS, txid, GrantAttrs(s, txid));
            Cut(msg) == msg && ReadAllocate(p, msg, txid) == Ok(Success(s.relay, s.lifetime))
  {
    hide XorAddressBytes, XorAddress, U32Bytes, Tlvs, Padding, Signed, Section, VerifyIntegrity, SameDigest, ReadSuccess;
    var attrs := GrantAttrs(s, txid);
    var key := s.ServerKey(p);
    XorAddressRoundTrip(s.relay, txid);
    GrantSize(s, txid);
    assert First(attrs, MESSAGE_INTEGRITY).None? by { FirstMember(attrs, MESSAGE_INTEGRITY); }
    SignedVerifies(p, key, ALLOCATE_SUCCESS, txid, attrs);
    var msg := Signed(p, key, ALLOCATE_SUCCESS, txid, attrs);
    var integrity := Attr(MESSAGE_INTEGRITY, p.hmacSha1(key, msg[..|msg| - INTEGRITY_LENGTH]));
    GrantAttrsRead(attrs, integrity, txid);
  }

  lemma GrantAttrsRead(attrs: seq<Attr>, integrity: Attr, txid: TxId)
    requires |attrs| == 2 && attrs[0].attrType == XOR_RELAYED_ADDRESS && attrs[1].attrType == LIFETIME && |attrs[1].value| == 4
    requires integrity.attrType == MESSAGE_INTEGRITY && XorAddress(attrs[0].value, txid).Ok?
    ensures ReadSuccess(attrs + [integrity], txid) == Ok(Success(XorAddress(attrs[0].value, txid).value, U32Of(attrs[1].value)))
  {
    hide XorAddress, U32Of;
    var all := attrs + [integrity];
    assert First(all, XOR_RELAYED_ADDRESS) == Some(attrs[0].value);
    assert all[1..][0] == attrs[1] && First(all, LIFETIME) == First(all[1..], LIFETIME) == Some(attrs[1].value);
    GrantOnce(all, txid);
    hide ReadSuccess;
  }

  /**
   End to end: with the server's own user and password the exchange ends
   authenticated, with the server's relay address, exactly when the challenge
   fits the client's receive buffer, the second request fits the length field,
   and the server's digest check accepts it.
   */
  lemma ConversationOutcome(p: Primitives, s: Server, txid1: TxId, txid2: TxId)
    requires s.WithinLimits()
    ensures var x := Conversation(p, s, txid1, txid2);
            && (x.end.Authenticated? <==>
                  && |Challenge(s, txid1)| <= RECEIVE_BUFFER && SecondRequestFits(p, s)
                  && VerifyIntegrity(p, s.ServerKey(p), SecondRequest(p, s, txid2)))
            && (x.end.Authenticated? ==>
                  && x.requests == [AllocateUnauth(txid1), SecondRequest(p, s, txid2)]
                  && x.end.relayed == s.relay && x.end.lifetime == s.lifetime && x.end.nonce == s.nonce && x.end.user == s.user
                  && x.end.realm == p.fromUtf8Lossy(s.realm) && x.end.key == LongTermKey(p, s.user, x.end.realm, s.pass))
  {
    hide Challenge, AllocateUnauth, ReadAllocate, LongTermKey, VerifyIntegrity, Signed, GrantAttrs;
    FirstRequestChallenged(p, s, txid1);
    ChallengeRead(p, s, txid1);
    ChallengeRead(p, s, txid2);
    GrantRead(p, s, txid2);
    SecondAnswer(p, s, txid2);
  }

  lemma SecondAnswer(p: Primitives, s: Server, txid: TxId)
    ensures var a := Answer(p, s, SecondRequest(p, s, txid));
            if !SecondRequestFits(p, s) then a.None?
            else if VerifyIntegrity(p, s.ServerKey(p), SecondRequest(p, s, txid))
            then a == Some(Signed(p, s.ServerKey(p), ALLOCATE_SUCCESS, txid, GrantAttrs(s, txid)))
            else a == Some(Challenge(s, txid))
  {
    hide Challenge, LongTermKey, VerifyIntegrity, Signed, GrantAttrs, AuthedLength;
    var realm := p.fromUtf8Lossy(s.realm);
    var req := SecondRequest(p, s, txid);
    if SecondRequestFits(p, s) {
      SecondRequestReads(p, s, txid);
      hide SecondRequest, Decode;
    } else {
      AuthedRequestLength(p, ALLOCATE_REQUEST, txid, TRANSPORT_ATTR, s.user, realm, s.nonce, LongTermKey(p, s.user, realm, s.pass));
      hide SecondRequest, Section;
    }
  }

  /** The client's key; it takes realm and password as they are. */
  function ClientKey(p: Primitives, s: Server): Key {
    LongTermKey(p, s.user, p.fromUtf8Lossy(s.realm), s.pass)
  }

  /** The client's text is the standard's, so with a realm and password that decoding and SASLprep leave alone the keys are one. */
  lemma KeysAgree(p: Primitives, s: Server)
    requires p.ValidUtf8(s.realm) && p.saslPrep(s.pass) == s.pass
    ensures ClientKey(p, s) == s.ServerKey(p)
  {
  }

  /** The server accepts the digest exactly when its key gives the same one as the client's. */
  lemma DigestAccepted(p: Primitives, s: Server, txid: TxId)
    requires SecondRequestFits(p, s)
    ensures VerifyIntegrity(p, s.ServerKey(p), SecondRequest(p, s, txid)) <==>
            SameDigest(p, ClientKey(p, s), s.ServerKey(p), SecondRequest(p, s, txid))
  {
    hide VerifyIntegrity, Decode, Signed, LongTermKey, AuthedLength, SameDigest;
    var realm := p.fromUtf8Lossy(s.realm);
    AuthedRequestVerifies(p, ALLOCATE_REQUEST, txid, TRANSPORT_ATTR, s.user, realm, s.nonce, ClientKey(p, s));
  }

  /** A valid realm and a password that SASLprep leaves alone give both sides the same key, so the digest is accepted. */
  lemma ValidRealmVerifies(p: Primitives, s: Server, txid: TxId)
    requires p.ValidUtf8(s.realm) && p.saslPrep(s.pass) == s.pass && SecondRequestFits(p, s)
    ensures VerifyIntegrity(p, s.ServerKey(p), SecondRequest(p, s, txid))
  {
    KeysAgree(p, s);
    hide VerifyIntegrity, Decode, Signed, LongTermKey, AuthedLength;
    AuthedRequestVerifies(p, ALLOCATE_REQUEST, txid, TRANSPORT_ATTR, s.user, s.realm, s.nonce, ClientKey(p, s));
  }

  lemma UsualRequestFits(p: Primitives, s: Server)
    requires s.WithinLimits() && p.ValidUtf8(s.realm) && |s.user| < 513
    ensures SecondRequestFits(p, s)
  {
    hide Padding, Characters;
    PaddingAligns(4);
    PaddingAligns(|s.user|);
    PaddingAligns(|s.realm|);
    PaddingAligns(|s.nonce|);
  }

  /**
   With a valid realm and a user name below the 513 bytes of section 15.3 of
   RFC 5389, two things can keep the handshake from succeeding: a challenge longer
   than the client's 1500-byte buffer, and a password that gives client and server
   different digests because the client does not run SASLprep on it.
   */
  lemma HandshakeOutcome(p: Primitives, s: Server, txid1: TxId, txid2: TxId)
    requires s.WithinLimits() && p.ValidUtf8(s.realm) && |s.user| < 513
    ensures Conversation(p, s, txid1, txid2).end.Authenticated? <==>
            && |Challenge(s, txid1)| <= RECEIVE_BUFFER
            && SameDigest(p, ClientKey(p, s), s.ServerKey(p), SecondRequest(p, s, txid2))
  {
    hide Conversation, Challenge, VerifyIntegrity, SameDigest, SecondRequest, SecondRequestFits, LongTermKey;
    UsualRequestFits(p, s);
    DigestAccepted(p, s, txid2);
    ConversationOutcome(p, s, txid1, txid2);
  }

  /** With a password that SASLprep leaves alone, only a challenge longer than the buffer can keep it from succeeding. */
  lemma HandshakeSucceeds(p: Primitives, s: Server, txid1: TxId, txid2: TxId)
    requires s.WithinLimits() && p.ValidUtf8(s.realm) && |s.user| < 513 && p.saslPrep(s.pass) == s.pass
    ensures Conversation(p, s, txid1, txid2).end.Authenticated? <==> |Challenge(s, txid1)| <= RECEIVE_BUFFER
  {
    hide Conversation, Challenge, VerifyIntegrity, SecondRequest, SecondRequestFits, LongTermKey;
    UsualRequestFits(p, s);
    ValidRealmVerifies(p, s, txid2);
    ConversationOutcome(p, s, txid1, txid2);
  }

  // ----- servers within the RFCs that the client cannot authenticate to -----

  /** `n` times U+1F600, a character of four bytes. */
  function Faces(n: nat): Text {
    if n == 0 then [] else [0xF0, 0x9F, 0x98, 0x80] + Faces(n - 1)
  }

  lemma {:induction false} FacesSize(n: nat)
    ensures |Faces(n)| == 4 * n && Characters(Faces(n)) == n
  {
    if n > 0 {
      FacesSize(n - 1);
      var text := Faces(n);
      assert text[1..][1..][1..][1..] == Faces(n - 1);
      assert Characters(text) == 1 + Characters(text[1..]) && Characters(text[1..]) == Characters(text[1..][1..]);
      assert Characters(text[1..][1..]) == Characters(text[1..][1..][1..]) == Characters(Faces(n - 1));
    }
  }

  /** A server whose reason, realm and nonce have as many characters as RFC 5389 allows, each of four bytes. */
  function LongWinded(user: Text, pass: Text, relay: SocketAddr, lifetime: u32): Server {
    Server(Faces(127), Faces(127), user, pass, Faces(127), relay, lifetime)
  }

  /** Such a server keeps to the limits, its challenge is the longest there is, and no credentials get through over UDP. */
  lemma LongChallengeFails(p: Primitives, user: Text, pass: Text, relay: SocketAddr, lifetime: u32, txid1: TxId, txid2: TxId)
    ensures var s := LongWinded(user, pass, relay, lifetime);
            && s.WithinLimits() && |Challenge(s, txid1)| == LONGEST_CHALLENGE > RECEIVE_BUFFER
            && !Conversation(p, s, txid1, txid2).end.Authenticated?
  {
    hide Conversation, Challenge, VerifyIntegrity, PaddedLength, Characters, Faces;
    var s := LongWinded(user, pass, relay, lifetime);
    FacesSize(127);
    ChallengeLength(s, txid1);
    PaddedAtMost(508);
    ConversationOutcome(p, s, txid1, txid2);
  }
}
