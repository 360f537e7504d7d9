/** The requests the checks send. */
module Requests {
  import opened Words
  import opened Wrappers
  import opened StunTypes
  import opened Primitives
  import opened StunCodec
  import opened TurnCodec

  /** `MD5(username ":" realm ":" password)`, the key of the long-term credential mechanism. */
  function LongTermKey(p: Primitives, user: Text, realm: Text, pass: Text): Key {
    p.md5(user + [0x3A] + realm + [0x3A] + pass)
  }

  const TRANSPORT_ATTR := Attr(REQUESTED_TRANSPORT, TRANSPORT_UDP)

  function Credentials(user: Text, realm: Text, nonce: bytes): seq<Attr> {
    [Attr(USERNAME, user), Attr(REALM, realm), Attr(NONCE, nonce)]
  }

  function AllocateUnauth(txid: TxId): bytes {
    Message(ALLOCATE_REQUEST, txid, [TRANSPORT_ATTR])
  }

  function AllocateAuthed(p: Primitives, txid: TxId, user: Text, realm: Text, nonce: bytes, key: Key): bytes {
    Signed(p, key, ALLOCATE_REQUEST, txid, [TRANSPORT_ATTR] + Credentials(user, realm, nonce))
  }

  function CreatePermission(p: Primitives, txid: TxId, user: Text, realm: Text, nonce: bytes, key: Key, peer: SocketAddr): bytes {
    Signed(p, key, CREATE_PERMISSION_REQUEST, txid, [Attr(XOR_PEER_ADDRESS, XorAddressBytes(peer, txid))] + Credentials(user, realm, nonce))
  }

  lemma TlvsOfOneMore(attrs: seq<Attr>, attrType: u16, value: bytes)
    ensures Tlvs(attrs + [Attr(attrType, value)]) == Tlvs(attrs) + Tlv(attrType, value)
  {
    hide Tlv;
    if attrs == [] {
      assert attrs + [Attr(attrType, value)] == [Attr(attrType, value)];
      assert Tlvs([Attr(attrType, value)][1..]) == [];
    } else {
      TlvsOfOneMore(attrs[1..], attrType, value);
      assert (attrs + [Attr(attrType, value)])[1..] == attrs[1..] + [Attr(attrType, value)];
    }
  }

  method BuildAllocateUnauth(txid: TxId) returns (msg: bytes)
    ensures msg == AllocateUnauth(txid)
  {
    hide Tlv, HeaderBytes, Tlvs;
    var b := new MessageBuffer(ALLOCATE_REQUEST, txid);
    b.AppendAttr(REQUESTED_TRANSPORT, TRANSPORT_UDP);
    OneTlv(REQUESTED_TRANSPORT, TRANSPORT_UDP);
    b.SetAttrsLength();
    return b.data;
  }

  lemma OneTlv(attrType: u16, value: bytes)
    ensures Tlvs([Attr(attrType, value)]) == Tlv(attrType, value)
  {
  }

  lemma CredentialTlvs(first: Attr, user: Text, realm: Text, nonce: bytes)
    ensures Tlvs([first] + Credentials(user, realm, nonce)) ==
            Tlv(first.attrType, first.value) + Tlv(USERNAME, user) + Tlv(REALM, realm) + Tlv(NONCE, nonce)
  {
    hide Tlv, Tlvs;
    OneTlv(first.attrType, first.value);
    TlvsOfOneMore([first], USERNAME, user);
    TlvsOfOneMore([first] + [Attr(USERNAME, user)], REALM, realm);
    TlvsOfOneMore([first] + [Attr(USERNAME, user)] + [Attr(REALM, realm)], NONCE, nonce);
    assert [first] + Credentials(user, realm, nonce) == [first] + [Attr(USERNAME, user)] + [Attr(REALM, realm)] + [Attr(NONCE, nonce)];
  }

  /** Appending the attributes one by one writes the same bytes as writing them together. */
  lemma AppendedInOrder(header: bytes, first: Attr, user: Text, realm: Text, nonce: bytes)
    ensures header + Tlv(first.attrType, first.value) + Tlv(USERNAME, user) + Tlv(REALM, realm) + Tlv(NONCE, nonce) ==
            header + Tlvs([first] + Credentials(user, realm, nonce))
  {
    hide Tlv, Tlvs, Credentials;
    CredentialTlvs(first, user, realm, nonce);
  }

  method BuildAllocateAuthed(p: Primitives, txid: TxId, user: Text, realm: Text, nonce: bytes, key: Key) returns (msg: bytes)
    ensures msg == AllocateAuthed(p, txid, user, realm, nonce, key)
  {
    hide Tlv, HeaderBytes, Tlvs, Attached, Credentials, AsU16, High, Low, Padding;
    var b := new MessageBuffer(ALLOCATE_REQUEST, txid);
    b.AppendAttr(REQUESTED_TRANSPORT, TRANSPORT_UDP);
    b.AppendAttr(USERNAME, user);
    b.AppendAttr(REALM, realm);
    b.AppendAttr(NONCE, nonce);
    AppendedInOrder(HeaderBytes(ALLOCATE_REQUEST, 0, txid), TRANSPORT_ATTR, user, realm, nonce);
    b.AttachMessageIntegrity(p, key);
    return b.data;
  }

  method BuildCreatePermission(p: Primitives, txid: TxId, user: Text, realm: Text, nonce: bytes, key: Key, peer: SocketAddr)
    returns (msg: bytes)
    ensures msg == CreatePermission(p, txid, user, realm, nonce, key, peer)
  {
    hide Tlv, HeaderBytes, Tlvs, Attached, Masked, MappedBytes, Credentials, AsU16, High, Low, Padding;
    var b := new MessageBuffer(CREATE_PERMISSION_REQUEST, txid);
    var peerAttr := BuildXorAddress(peer, txid);
    b.AppendAttr(XOR_PEER_ADDRESS, peerAttr);
    b.AppendAttr(USERNAME, user);
    b.AppendAttr(REALM, realm);
    b.AppendAttr(NONCE, nonce);
    AppendedInOrder(HeaderBytes(CREATE_PERMISSION_REQUEST, 0, txid), Attr(XOR_PEER_ADDRESS, peerAttr), user, realm, nonce);
    b.AttachMessageIntegrity(p, key);
    return b.data;
  }

  /** The bytes an authenticated request takes, padding and MESSAGE-INTEGRITY included. */
  function AuthedLength(first: nat, user: Text, realm: Text, nonce: bytes): (n: nat)
    ensures n >= INTEGRITY_LENGTH
  {
    (4 + first + Padding(first)) + (4 + |user| + Padding(|user|))
    + (4 + |realm| + Padding(|realm|)) + (4 + |nonce| + Padding(|nonce|)) + INTEGRITY_LENGTH
  }

  /**
   What the two authenticated builders emit, when it is small enough for the
   length field: a receiver decodes exactly the attributes put in, finds the
   credentials, and its recomputed MESSAGE-INTEGRITY agrees.
   */
  lemma AuthedRequestVerifies(p: Primitives, msgType: u16, txid: TxId, first: Attr, user: Text, realm: Text, nonce: bytes, key: Key)
    requires first.attrType !in {USERNAME, REALM, NONCE, MESSAGE_INTEGRITY}
    requires AuthedLength(|first.value|, user, realm, nonce) < 0x1_0000
    ensures var m := Signed(p, key, msgType, txid, [first] + Credentials(user, realm, nonce));
            && |m| == HEADER_LENGTH + AuthedLength(|first.value|, user, realm, nonce)
            && Decode(m, txid) == Ok((Header(msgType, |m| - HEADER_LENGTH, txid),
                                      [first] + Credentials(user, realm, nonce)
                                      + [Attr(MESSAGE_INTEGRITY, p.hmacSha1(key, m[..|m| - INTEGRITY_LENGTH]))]))
            && VerifyIntegrity(p, key, m)
            && forall other: Key :: VerifyIntegrity(p, other, m) <==> SameDigest(p, key, other, m)
  {
    hide Tlv, Tlvs, Signed, Decode, VerifyIntegrity, SameDigest, Padding;
    CredentialTlvs(first, user, realm, nonce);
    assert First([first] + Credentials(user, realm, nonce), MESSAGE_INTEGRITY).None? by {
      FirstMember([first] + Credentials(user, realm, nonce), MESSAGE_INTEGRITY);
    }
    SignedVerifies(p, key, msgType, txid, [first] + Credentials(user, realm, nonce));
  }

  /** Beyond that size the length field no longer points at the end of the message. */
  lemma AuthedRequestLength(p: Primitives, msgType: u16, txid: TxId, first: Attr, user: Text, realm: Text, nonce: bytes, key: Key)
    ensures var m := Signed(p, key, msgType, txid, [first] + Credentials(user, realm, nonce));
            |m| >= HEADER_LENGTH && (U16At(m, 2) == |m| - HEADER_LENGTH <==> AuthedLength(|first.value|, user, realm, nonce) < 0x1_0000)
  {
    hide Tlv, Tlvs, WithLength, Padding, AsU16;
    CredentialTlvs(first, user, realm, nonce);
    AttachedLength(p, key, HeaderBytes(msgType, 0, txid) + Tlvs([first] + Credentials(user, realm, nonce)));
  }
}
