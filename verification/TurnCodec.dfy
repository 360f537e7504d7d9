/**
 Building TURN messages in place (RFC 5389 section 15, RFC 5766) and signing them
 with MESSAGE-INTEGRITY (RFC 5389 section 15.4).
 */
module TurnCodec {
  import opened Words
  import opened Wrappers
  import opened StunTypes
  import opened Primitives
  import opened StunCodec

  const ALLOCATE_REQUEST: u16 := 0x0003
  const ALLOCATE_SUCCESS: u16 := 0x0103
  const ALLOCATE_ERROR: u16 := 0x0113
  const CREATE_PERMISSION_REQUEST: u16 := 0x0008
  const CREATE_PERMISSION_SUCCESS: u16 := 0x0108
  const CREATE_PERMISSION_ERROR: u16 := 0x0118

  /** IANA protocol 17 in the top byte, three reserved zero bytes. */
  const TRANSPORT_UDP: bytes := [17, 0, 0, 0]

  /** Bytes MESSAGE-INTEGRITY takes: a 4-byte attribute header and the digest. */
  const INTEGRITY_LENGTH := 24

  // ----- the bytes a builder writes -----

  function Zeros(n: nat): (z: bytes)
    ensures |z| == n
  {
    seq(n, _ => 0)
  }

  /** One attribute: type, length cast to 16 bits, value, zero padding. */
  function Tlv(attrType: u16, value: bytes): (b: bytes)
    ensures |b| == 4 + |value| + Padding(|value|)
  {
    hide High, Low, Padding, AsU16;
    U16Bytes(attrType) + U16Bytes(AsU16(|value|)) + value + Zeros(Padding(|value|))
  }

  function Tlvs(attrs: seq<Attr>): bytes {
    if attrs == [] then [] else Tlv(attrs[0].attrType, attrs[0].value) + Tlvs(attrs[1..])
  }

  function WithLength(msg: bytes, n: u16): (r: bytes)
    requires |msg| >= HEADER_LENGTH
    ensures |r| == |msg|
  {
    hide High, Low, Padding, AsU16;
    msg[..2] + U16Bytes(n) + msg[4..]
  }

  /** A message whose length field is what `set_attrs_length` writes: the body length cast to 16 bits. */
  function Message(msgType: u16, txid: TxId, attrs: seq<Attr>): bytes {
    hide High, Low, Padding, AsU16;
    var msg := HeaderBytes(msgType, 0, txid) + Tlvs(attrs);
    WithLength(msg, AsU16(|Tlvs(attrs)|))
  }

  /** A message with MESSAGE-INTEGRITY attached: the length is set first, then everything so far is digested. */
  function Attached(p: Primitives, key: Key, msg: bytes): bytes
    requires |msg| >= HEADER_LENGTH
  {
    hide High, Low, Padding, AsU16;
    var sized := WithLength(msg, AsU16(|msg| - HEADER_LENGTH + INTEGRITY_LENGTH));
    sized + Tlv(MESSAGE_INTEGRITY, p.hmacSha1(key, sized))
  }

  function Signed(p: Primitives, key: Key, msgType: u16, txid: TxId, attrs: seq<Attr>): bytes {
    Attached(p, key, HeaderBytes(msgType, 0, txid) + Tlvs(attrs))
  }

  lemma DigestNeedsNoPadding()
    ensures Padding(20) == 0 && AsU16(20) == 20
  {
  }

  /** Where the parts of an attribute are. */
  lemma TlvParts(attrType: u16, value: bytes)
    requires |value| < 0x1_0000
    ensures var t := Tlv(attrType, value);
            && U16At(t, 0) == attrType && U16At(t, 2) == |value|
            && t[2..4] == U16Bytes(|value|) && t[4..4 + |value|] == value
            && After(t, |value|) == []
  {
    hide High, Low, Padding, AsU16;
    AsU16Small(|value|);
    var t := Tlv(attrType, value);
    assert t[..2] == U16Bytes(attrType) && t[2..4] == U16Bytes(|value|);
    assert t[0] == U16Bytes(attrType)[0] && t[1] == U16Bytes(attrType)[1];
    assert t[2] == U16Bytes(|value|)[0] && t[3] == U16Bytes(|value|)[1];
  }

  lemma WithLengthParts(msg: bytes, n: u16)
    requires |msg| >= HEADER_LENGTH
    ensures var r := WithLength(msg, n);
            && r[..2] == msg[..2] && r[4..] == msg[4..] && U16At(r, 2) == n
            && r[HEADER_LENGTH..] == msg[HEADER_LENGTH..]
  {
  }

  lemma WithLengthAgain(msg: bytes)
    requires |msg| >= HEADER_LENGTH
    ensures WithLength(msg, U16At(msg, 2)) == msg
  {
  }

  class MessageBuffer {
    var data: bytes

    constructor (msgType: u16, txid: TxId)
      ensures data == HeaderBytes(msgType, 0, txid)
    {
      hide High, Low;
      data := U16Bytes(msgType) + U16Bytes(0) + COOKIE_BYTES + txid;
    }

    method AppendAttr(attrType: u16, value: bytes)
      modifies this
      ensures data == old(data) + Tlv(attrType, value)
    {
      hide High, Low, Padding, AsU16;
      data := data + U16Bytes(attrType);
      data := data + U16Bytes(AsU16(|value|));
      data := data + value;
      ghost var unpadded := data;
      for i := 0 to Padding(|value|)
        invariant data == unpadded + Zeros(i)
      {
        data := data + [0];
      }
    }

    method SetAttrsLength()
      requires |data| >= HEADER_LENGTH
      modifies this
      ensures data == WithLength(old(data), AsU16(|old(data)| - HEADER_LENGTH))
    {
      hide High, Low, Padding, AsU16;
      var b := U16Bytes(AsU16(|data| - HEADER_LENGTH));
      data := data[2 := b[0]][3 := b[1]];
    }

    method AttachMessageIntegrity(p: Primitives, key: Key)
      requires |data| >= HEADER_LENGTH
      modifies this
      ensures data == Attached(p, key, old(data))
    {
      hide High, Low, Padding, AsU16;
      var b := U16Bytes(AsU16(|data| - HEADER_LENGTH + INTEGRITY_LENGTH));
      data := data[2 := b[0]][3 := b[1]];
      assert data == WithLength(old(data), AsU16(|old(data)| - HEADER_LENGTH + INTEGRITY_LENGTH));
      DigestNeedsNoPadding();
      var digest := p.hmacSha1(key, data);
      data := data + U16Bytes(MESSAGE_INTEGRITY);
      data := data + U16Bytes(20);
      data := data + digest;
    }
  }

  // ----- reading back what was written -----

  lemma PaddingFits(len: nat, n: nat)
    requires 4 + len <= n && n % 4 == 0
    ensures 4 + len + Padding(len) <= n && (n - (4 + len + Padding(len))) % 4 == 0
  {
    hide Padding;
    PaddingAligns(len);
    var j, k := (len + Padding(len)) / 4, n / 4;
    assert len + Padding(len) == 4 * j && n == 4 * k;
    assert j < k;
    assert n - (4 + len + Padding(len)) == 4 * (k - j - 1);
  }

  /** Bytes appended to an aligned section do not disturb its first attribute. */
  lemma AppendStep(sec: bytes, x: bytes)
    requires |sec| >= 4 && |sec| % 4 == 0 && 4 + U16At(sec, 2) <= |sec|
    ensures var len := U16At(sec, 2);
            && |After(sec, len)| % 4 == 0 && |After(sec, len)| == |sec| - (4 + len + Padding(len))
            && After(sec + x, len) == After(sec, len) + x
            && (sec + x)[4..4 + len] == sec[4..4 + len]
  {
    hide High, Low, Padding, AsU16;
    var len := U16At(sec, 2);
    PaddingFits(len, |sec|);
    assert (sec + x)[4 + len + Padding(len)..] == sec[4 + len + Padding(len)..] + x;
  }

  /** Appending to an aligned, well-formed section leaves its attributes parsing unchanged. */
  lemma {:induction false} SectionAppend(sec: bytes, x: bytes)
    requires |sec| % 4 == 0 && Section(sec).Ok?
    ensures Section(sec + x) == Prepend(Section(sec).value, Section(x))
    decreases |sec|
  {
    hide High, Low, Padding, AsU16;
    hide Section, After;
    if |sec| < 4 {
      assert sec + x == x;
      SectionAtEnd(sec);
      assert Section(x).Ok? ==> [] + Section(x).value == Section(x).value;
    } else {
      var len := U16At(sec, 2);
      SectionStep(sec);
      AppendStep(sec, x);
      SectionAppend(After(sec, len), x);
      SectionStep(sec + x);
      PrependAssociates([Attr(U16At(sec, 0), sec[4..4 + len])], Section(After(sec, len)).value, Section(x));
    }
  }

  lemma PrependAssociates(a: seq<Attr>, b: seq<Attr>, r: Result<seq<Attr>, CodecError>)
    ensures Prepend(a, Prepend(b, r)) == Prepend(a + b, r)
  {
    if r.Ok? {
      assert a + (b + r.value) == a + b + r.value;
    }
  }

  lemma TlvReads(attrType: u16, value: bytes)
    requires |value| < 0x1_0000
    ensures Section(Tlv(attrType, value)) == Ok([Attr(attrType, value)])
    ensures |Tlv(attrType, value)| % 4 == 0
  {
    hide High, Low, Padding, AsU16;
    PaddingAligns(|value|);
    TlvParts(attrType, value);
    hide Tlv, After, Section;
    SectionStep(Tlv(attrType, value));
    SectionAtEnd([]);
    assert [Attr(attrType, value)] + [] == [Attr(attrType, value)];
  }

  lemma {:induction false} TlvsAligned(attrs: seq<Attr>)
    ensures |Tlvs(attrs)| % 4 == 0
    ensures forall a :: a in attrs ==> 4 + |a.value| <= |Tlvs(attrs)|
  {
    hide High, Low, Padding, AsU16;
    if attrs != [] {
      PaddingAligns(|attrs[0].value|);
      TlvsAligned(attrs[1..]);
    }
  }

  lemma {:induction false} TlvsRead(attrs: seq<Attr>)
    requires forall a :: a in attrs ==> |a.value| < 0x1_0000
    ensures Section(Tlvs(attrs)) == Ok(attrs)
  {
    hide High, Low, Padding, AsU16;
    if attrs != [] {
      TlvReads(attrs[0].attrType, attrs[0].value);
      TlvsRead(attrs[1..]);
      SectionAppend(Tlv(attrs[0].attrType, attrs[0].value), Tlvs(attrs[1..]));
      assert [attrs[0]] + attrs[1..] == attrs;
    }
  }

  /** One to three bytes left over behind a well-formed section are ignored. */
  lemma LeftoversIgnored(sec: bytes, tail: bytes)
    requires |sec| % 4 == 0 && Section(sec).Ok? && |tail| < 4
    ensures Section(sec + tail) == Section(sec)
  {
    SectionAppend(sec, tail);
    SectionAtEnd(tail);
    hide Section;
    assert Section(sec).value + [] == Section(sec).value;
  }

  /** The padding of the final value may be missing, in whole or in part. */
  lemma FinalPaddingOptional(sec: bytes, attrType: u16, value: bytes, kept: nat)
    requires |sec| % 4 == 0 && Section(sec).Ok? && |value| < 0x1_0000 && kept <= Padding(|value|)
    ensures Section(sec + Tlv(attrType, value)[..4 + |value| + kept]) == Ok(Section(sec).value + [Attr(attrType, value)])
  {
    hide High, Low, AsU16, Tlv, Section, After;
    var last := Tlv(attrType, value)[..4 + |value| + kept];
    TlvParts(attrType, value);
    SectionStep(last);
    ShortFinal(last, |value|);
    SectionAtEnd([]);
    SectionAppend(sec, last);
    assert last[4..4 + |value|] == value && [Attr(attrType, value)] + [] == [Attr(attrType, value)];
  }

  lemma ShortFinal(last: bytes, len: nat)
    requires 4 + len <= |last| <= 4 + len + Padding(len)
    ensures After(last, len) == []
  {
  }

  /** What a walk returns fits, when written out again, in the section plus its missing final padding. */
  lemma {:induction false} SectionBound(sec: bytes)
    requires Section(sec).Ok?
    ensures |Tlvs(Section(sec).value)| <= |sec| + 3
    decreases |sec|
  {
    hide High, Low, Padding, AsU16;
    if |sec| >= 4 {
      var len := U16At(sec, 2);
      PaddingAligns(len);
      var rest := Section(After(sec, len)).value;
      SectionBound(After(sec, len));
      var attrs := Section(sec).value;
      assert attrs[1..] == rest;
      if 4 + len + Padding(len) > |sec| {
        assert Section([]) == Ok([]);
      }
    }
  }

  function Decode(buf: bytes, txid: TxId): Result<(Header, seq<Attr>), CodecError> {
    match ParseHeader(buf, txid)
    case Err(e) => Err(e)
    case Ok(h) =>
      match Section(buf[HEADER_LENGTH..HEADER_LENGTH + h.attrsLen])
      case Err(e) => Err(e)
      case Ok(attrs) => Ok((h, attrs))
  }

  lemma HeaderWithLength(msgType: u16, txid: TxId, body: bytes, n: u16)
    ensures WithLength(HeaderBytes(msgType, 0, txid) + body, n) == HeaderBytes(msgType, n, txid) + body
  {
  }

  lemma DecodeWritten(msgType: u16, txid: TxId, n: u16, body: bytes)
    requires n <= |body|
    ensures Decode(HeaderBytes(msgType, n, txid) + body, txid) ==
            match Section(body[..n]) case Err(e) => Err(e) case Ok(attrs) => Ok((Header(msgType, n, txid), attrs))
  {
    hide High, Low, Padding, AsU16;
    var buf := HeaderBytes(msgType, n, txid) + body;
    HeaderAccepted(buf, txid, msgType, n);
    assert buf[HEADER_LENGTH..HEADER_LENGTH + n] == body[..n];
  }

  /**
   Header, repeated `append_attr` and `set_attrs_length` are undone by
   `parse_header` and `walk_attrs` exactly when the padded attributes take fewer
   than 65536 bytes: beyond that the length casts lose information.
   */
  lemma MessageRoundTrip(msgType: u16, txid: TxId, attrs: seq<Attr>)
    ensures |Tlvs(attrs)| < 0x1_0000 <==>
            exists h :: Decode(Message(msgType, txid, attrs), txid) == Ok((h, attrs))
    ensures |Tlvs(attrs)| < 0x1_0000 ==>
            Decode(Message(msgType, txid, attrs), txid) == Ok((Header(msgType, |Tlvs(attrs)|, txid), attrs))
  {
    hide High, Low, Padding, AsU16;
    hide Section, Tlvs, Decode, HeaderBytes, WithLength;
    var body := Tlvs(attrs);
    var n := AsU16(|body|);
    AsU16Small(|body|);
    TlvsAligned(attrs);
    HeaderWithLength(msgType, txid, body, n);
    DecodeWritten(msgType, txid, n, body);
    if |body| < 0x1_0000 {
      TlvsRead(attrs);
      assert body[..n] == body;
    } else if Section(body[..n]).Ok? {
      SectionBound(body[..n]);
      TlvsAligned(Section(body[..n]).value);
      AsU16Aligned(|body|);
    }
  }

  // ----- MESSAGE-INTEGRITY -----

  /** Where the first MESSAGE-INTEGRITY attribute of a section starts. */
  function IntegrityOffset(sec: bytes): Option<nat>
    decreases |sec|
  {
    if |sec| < 4 || 4 + U16At(sec, 2) > |sec| then None
    else if U16At(sec, 0) == MESSAGE_INTEGRITY then Some(0)
    else
      var len := U16At(sec, 2);
      match IntegrityOffset(After(sec, len))
      case None => None
      case Some(off) => Some(4 + len + Padding(len) + off)
  }

  /**
   The receiver's check of section 15.4 of RFC 5389: recompute the digest over
   the message up to the attribute, with the length pointing at its end.
   */
  predicate VerifyIntegrity(p: Primitives, key: Key, msg: bytes) {
    hide High, Low, Padding, AsU16;
    |msg| >= HEADER_LENGTH &&
    match IntegrityOffset(msg[HEADER_LENGTH..])
    case None => false
    case Some(off) =>
      var start := HEADER_LENGTH + off;
      && start + INTEGRITY_LENGTH <= |msg|
      && msg[start + 2..start + 4] == U16Bytes(20)
      && p.hmacSha1(key, WithLength(msg, AsU16(off + INTEGRITY_LENGTH))[..start]) == msg[start + 4..start + INTEGRITY_LENGTH]
  }

  lemma {:induction false} IntegrityOffsetAppend(sec: bytes, digest: Digest)
    requires |sec| % 4 == 0 && Section(sec).Ok? && First(Section(sec).value, MESSAGE_INTEGRITY).None?
    ensures IntegrityOffset(sec + Tlv(MESSAGE_INTEGRITY, digest)) == Some(|sec|)
    decreases |sec|
  {
    hide High, Low, Padding, AsU16;
    hide Tlv, After, Section;
    var tlv := Tlv(MESSAGE_INTEGRITY, digest);
    TlvParts(MESSAGE_INTEGRITY, digest);
    if |sec| < 4 {
      assert sec + tlv == tlv;
    } else {
      var len := U16At(sec, 2);
      SectionStep(sec);
      AppendStep(sec, tlv);
      PaddingFits(len, |sec|);
      var attrs := Section(sec).value;
      assert attrs[0].attrType == U16At(sec, 0) && attrs[1..] == Section(After(sec, len)).value;
      IntegrityOffsetAppend(After(sec, len), digest);
    }
  }

  lemma SplitsAt(a: bytes, b: bytes)
    requires |a| >= HEADER_LENGTH
    ensures (a + b)[..|a|] == a && (a + b)[..2] == a[..2] && (a + b)[4..|a|] == a[4..]
    ensures (a + b)[HEADER_LENGTH..] == a[HEADER_LENGTH..] + b
    ensures (a + b)[2] == a[2] && (a + b)[3] == a[3]
  {
  }

  /** `Attached` with the sized message and the digest named. */
  lemma AttachedIs(p: Primitives, key: Key, msg: bytes) returns (sized: bytes, digest: Digest)
    requires |msg| >= HEADER_LENGTH && |msg| + 4 < 0x1_0000
    ensures sized == WithLength(msg, |msg| - HEADER_LENGTH + INTEGRITY_LENGTH) && digest == p.hmacSha1(key, sized)
    ensures Attached(p, key, msg) == sized + Tlv(MESSAGE_INTEGRITY, digest) && |Tlv(MESSAGE_INTEGRITY, digest)| == INTEGRITY_LENGTH
  {
    hide High, Low, Padding, AsU16, Tlv, WithLength;
    var n := |msg| - HEADER_LENGTH + INTEGRITY_LENGTH;
    DigestNeedsNoPadding();
    AsU16Small(n);
    sized := WithLength(msg, n);
    digest := p.hmacSha1(key, sized);
  }

  /** How an attached message is put together, and that its length field points at its end. */
  lemma AttachedParts(p: Primitives, key: Key, msg: bytes)
    requires |msg| >= HEADER_LENGTH && |msg| + 4 < 0x1_0000
    ensures var m := Attached(p, key, msg);
            var digest := p.hmacSha1(key, m[..|msg|]);
            && m == m[..|msg|] + Tlv(MESSAGE_INTEGRITY, digest)
            && |m| == |msg| + INTEGRITY_LENGTH
            && m[..2] == msg[..2] && m[4..|msg|] == msg[4..] && U16At(m, 2) == |m| - HEADER_LENGTH
            && m[HEADER_LENGTH..] == msg[HEADER_LENGTH..] + Tlv(MESSAGE_INTEGRITY, digest)
  {
    hide High, Low, Padding, AsU16, Tlv, WithLength, Attached;
    var sized, digest := AttachedIs(p, key, msg);
    WithLengthParts(msg, |msg| - HEADER_LENGTH + INTEGRITY_LENGTH);
    SplitsAt(sized, Tlv(MESSAGE_INTEGRITY, digest));
  }

  /**
   Section 15.4 of RFC 5389, for any aligned message whose attributes parse and
   which is small enough for the length field: attaching the attribute leaves the
   rest of the header and all earlier attributes alone, makes the length field
   exact, puts the digest last, and the digest is over everything before it.
   */
  lemma IntegrityAttached(p: Primitives, key: Key, msg: bytes)
    requires |msg| >= HEADER_LENGTH && |msg| % 4 == 0 && Section(msg[HEADER_LENGTH..]).Ok?
    requires |msg| + 4 < 0x1_0000
    ensures var m := Attached(p, key, msg);
            var digest := p.hmacSha1(key, m[..|m| - INTEGRITY_LENGTH]);
            && |m| == |msg| + INTEGRITY_LENGTH
            && m[..2] == msg[..2] && m[4..|msg|] == msg[4..] && U16At(m, 2) == |m| - HEADER_LENGTH
            && Section(m[HEADER_LENGTH..]) == Ok(Section(msg[HEADER_LENGTH..]).value + [Attr(MESSAGE_INTEGRITY, digest)])
  {
    hide High, Low, Padding, AsU16, Tlv, WithLength, Attached, Section;
    AttachedParts(p, key, msg);
    var digest := p.hmacSha1(key, Attached(p, key, msg)[..|msg|]);
    TlvReads(MESSAGE_INTEGRITY, digest);
    SectionAppend(msg[HEADER_LENGTH..], Tlv(MESSAGE_INTEGRITY, digest));
  }

  /** Two keys give the same digest of all that stands before a final MESSAGE-INTEGRITY. */
  predicate SameDigest(p: Primitives, a: Key, b: Key, msg: bytes) {
    |msg| >= INTEGRITY_LENGTH
    && p.hmacSha1(a, msg[..|msg| - INTEGRITY_LENGTH]) == p.hmacSha1(b, msg[..|msg| - INTEGRITY_LENGTH])
  }

  /**
   A recomputing receiver accepts what `attach_message_integrity` made of such a
   message exactly when its key gives the same digest, so always with the same key.
   */
  lemma IntegrityVerifies(p: Primitives, key: Key, other: Key, msg: bytes)
    requires |msg| >= HEADER_LENGTH && |msg| % 4 == 0 && Section(msg[HEADER_LENGTH..]).Ok?
    requires |msg| + 4 < 0x1_0000 && First(Section(msg[HEADER_LENGTH..]).value, MESSAGE_INTEGRITY).None?
    ensures VerifyIntegrity(p, other, Attached(p, key, msg)) <==> SameDigest(p, key, other, Attached(p, key, msg))
  {
    hide High, Low, Padding, AsU16, Tlv, WithLength, Attached, Section, IntegrityOffset;
    AttachedParts(p, key, msg);
    var m := Attached(p, key, msg);
    var digest := p.hmacSha1(key, m[..|msg|]);
    var tlv := Tlv(MESSAGE_INTEGRITY, digest);
    AsU16Small(|m| - HEADER_LENGTH);
    WithLengthAgain(m);
    TlvParts(MESSAGE_INTEGRITY, digest);
    IntegrityOffsetAppend(msg[HEADER_LENGTH..], digest);
    assert |m| == |msg| + INTEGRITY_LENGTH;
    assert m[|msg| + 2..|msg| + 4] == tlv[2..4];
    assert m[|msg| + 4..|msg| + INTEGRITY_LENGTH] == tlv[4..24];
  }

  /** The header length is right after attaching exactly when the message was small enough. */
  lemma AttachedLength(p: Primitives, key: Key, msg: bytes)
    requires |msg| >= HEADER_LENGTH
    ensures var m := Attached(p, key, msg); U16At(m, 2) == |m| - HEADER_LENGTH <==> |msg| + 4 < 0x1_0000
  {
  }

  lemma SameKeySameDigest(p: Primitives, key: Key, msg: bytes)
    requires |msg| >= INTEGRITY_LENGTH
    ensures SameDigest(p, key, key, msg)
  {
  }

  /** Everything the signing builders emit is decoded to what was put in, and a recomputing verifier accepts it. */
  lemma SignedVerifies(p: Primitives, key: Key, msgType: u16, txid: TxId, attrs: seq<Attr>)
    requires |Tlvs(attrs)| + INTEGRITY_LENGTH < 0x1_0000 && First(attrs, MESSAGE_INTEGRITY).None?
    ensures var m := Signed(p, key, msgType, txid, attrs);
            && |m| == HEADER_LENGTH + |Tlvs(attrs)| + INTEGRITY_LENGTH
            && Decode(m, txid) == Ok((Header(msgType, |m| - HEADER_LENGTH, txid),
                                      attrs + [Attr(MESSAGE_INTEGRITY, p.hmacSha1(key, m[..|m| - INTEGRITY_LENGTH]))]))
            && VerifyIntegrity(p, key, m)
            && forall other: Key :: VerifyIntegrity(p, other, m) <==> SameDigest(p, key, other, m)
  {
    hide High, Low, Padding, AsU16;
    hide Section, Tlvs, Tlv, Decode, HeaderBytes, WithLength, VerifyIntegrity, SameDigest;
    var body := Tlvs(attrs);
    var msg := HeaderBytes(msgType, 0, txid) + body;
    var n := |body| + INTEGRITY_LENGTH;
    TlvsAligned(attrs);
    TlvsRead(attrs);
    assert msg[HEADER_LENGTH..] == body;
    IntegrityAttached(p, key, msg);
    forall other: Key
      ensures VerifyIntegrity(p, other, Attached(p, key, msg)) <==> SameDigest(p, key, other, Attached(p, key, msg))
    {
      IntegrityVerifies(p, key, other, msg);
    }
    SameKeySameDigest(p, key, Attached(p, key, msg));
    var m := Attached(p, key, msg);
    HeaderWithLength(msgType, txid, body, n);
    AsU16Small(n);
    assert m == HeaderBytes(msgType, n, txid) + m[HEADER_LENGTH..];
    DecodeWritten(msgType, txid, n, m[HEADER_LENGTH..]);
    assert m[HEADER_LENGTH..][..n] == m[HEADER_LENGTH..];
  }
}
