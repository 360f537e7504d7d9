/** Messages written out byte by byte: those of the program's own tests, and the sample addresses of RFC 5769. */
module WireExamples {
  import opened Words
  import opened Wrappers
  import opened StunTypes
  import opened Primitives
  import opened StunCodec
  import opened TurnCodec
  import opened Requests
  import opened AllocateResponse
  import opened Binding
  import opened Framing
  import opened DataIndication
  import opened Checks

  lemma Word(high: byte, low: byte)
    ensures U16Bytes(0x100 * high + low) == [high, low]
  {
    U16BytesOf([high, low], 0);
    assert [high, low][0..2] == [high, low];
  }

  /** An attribute with a short value. */
  lemma ShortTlv(high: byte, low: byte, value: bytes)
    requires |value| < 0x100
    ensures Tlv(0x100 * high + low, value) == [high, low, 0, |value|] + value + Zeros(Padding(|value|))
  {
    hide High, Low, Padding;
    Word(high, low);
    Word(0, |value|);
    AsU16Small(|value|);
    assert [high, low] + [0, |value|] == [high, low, 0, |value|];
  }

  /** A short message: type, length, cookie, transaction id, body. */
  lemma ShortMessage(high: byte, low: byte, txid: TxId, attrs: seq<Attr>)
    requires |Tlvs(attrs)| < 0x100
    ensures Message(0x100 * high + low, txid, attrs) ==
            [high, low, 0, |Tlvs(attrs)|, 0x21, 0x12, 0xA4, 0x42] + txid + Tlvs(attrs)
  {
    hide High, Low, Tlvs;
    var n := |Tlvs(attrs)|;
    Word(high, low);
    Word(0, n);
    AsU16Small(n);
    HeaderWithLength(0x100 * high + low, txid, Tlvs(attrs), n);
  }

  /** The two requests sent without credentials, whole. */
  lemma PlainRequests(txid: TxId)
    ensures AllocateUnauth(txid) ==
            [0x00, 0x03, 0x00, 0x08, 0x21, 0x12, 0xA4, 0x42] + txid + [0x00, 0x19, 0x00, 0x04, 17, 0, 0, 0]
    ensures HeaderBytes(BINDING_REQUEST, 0, txid) == [0x00, 0x01, 0x00, 0x00, 0x21, 0x12, 0xA4, 0x42] + txid
  {
    hide High, Low, Tlv, Tlvs;
    assert Padding(4) == 0;
    OneTlv(REQUESTED_TRANSPORT, TRANSPORT_UDP);
    ShortTlv(0x00, 0x19, TRANSPORT_UDP);
    assert Tlv(REQUESTED_TRANSPORT, TRANSPORT_UDP) == [0x00, 0x19, 0x00, 0x04, 17, 0, 0, 0];
    ShortMessage(0x00, 0x03, txid, [TRANSPORT_ATTR]);
    Word(0, 1);
    Word(0, 0);
  }

  const SAMPLE_TXID: TxId := [0xB7, 0xE7, 0xA7, 0x01, 0xBC, 0x34, 0xD6, 0x86, 0xFA, 0x87, 0xDF, 0xAE]

  /** Section 2.2 of RFC 5769: 192.0.2.1, port 32853. */
  lemma SampleV4()
    ensures XorAddress([0x00, 0x01, 0xA1, 0x47, 0xE1, 0x12, 0xA6, 0x43], SAMPLE_TXID) == Ok(SocketAddr(V4(0xC000_0201), 32853))
  {
    hide Xor, XorByte, XorBytes;
    var value: bytes := [0x00, 0x01, 0xA1, 0x47, 0xE1, 0x12, 0xA6, 0x43];
    var plain: bytes := [0x00, 0x01, 0x80, 0x55, 0xC0, 0x00, 0x02, 0x01];
    SamplePort();
    SampleWord();
    MaskedByte(value, SAMPLE_TXID);
    assert Masked(value, SAMPLE_TXID) == plain;
    assert plain[4..8] == [0xC0, 0x00, 0x02, 0x01];
  }

  const SAMPLE_V6_VALUE: bytes := [0x00, 0x02, 0xA1, 0x47, 0x01, 0x13, 0xA9, 0xFA, 0xA5, 0xD3,
                                   0xF1, 0x79, 0xBC, 0x25, 0xF4, 0xB5, 0xBE, 0xD2, 0xB9, 0xD9]
  const SAMPLE_V6: Octets := [0x20, 0x01, 0x0D, 0xB8, 0x12, 0x34, 0x56, 0x78, 0x00, 0x11, 0x22, 0x33, 0x44, 0x55, 0x66, 0x77]

  /** Section 2.3 of RFC 5769: 2001:db8:1234:5678:11:2233:4455:6677, port 32853. */
  lemma SampleV6()
    ensures XorAddress(SAMPLE_V6_VALUE, SAMPLE_TXID) == Ok(SocketAddr(V6(SAMPLE_V6), 32853))
  {
    hide Masked;
    var m := Masked(SAMPLE_V6_VALUE, SAMPLE_TXID);
    SampleV6Head();
    SampleV6Octets();
    assert m[4..20] == SAMPLE_V6;
  }

  lemma SampleV6Head()
    ensures var m := Masked(SAMPLE_V6_VALUE, SAMPLE_TXID); |m| == 20 && m[0] == 0 && m[1] == 2 && m[2] == 0x80 && m[3] == 0x55
  {
    hide Xor, XorByte, XorBytes, Masked;
    SamplePort();
    MaskedByte(SAMPLE_V6_VALUE, SAMPLE_TXID);
  }

  lemma SampleV6Octets()
    ensures var m := Masked(SAMPLE_V6_VALUE, SAMPLE_TXID);
            |m| == 20 && forall i :: 0 <= i < 16 ==> m[4 + i] == SAMPLE_V6[i]
  {
    hide Xor, XorByte, XorBytes, Masked;
    var m := Masked(SAMPLE_V6_VALUE, SAMPLE_TXID);
    SampleOctets();
    MaskedByte(SAMPLE_V6_VALUE, SAMPLE_TXID);
    assert m[4] == 0x20 && m[5] == 0x01 && m[6] == 0x0D && m[7] == 0xB8;
    assert m[8] == 0x12 && m[9] == 0x34 && m[10] == 0x56 && m[11] == 0x78;
    assert m[12] == 0x00 && m[13] == 0x11 && m[14] == 0x22 && m[15] == 0x33;
    assert m[16] == 0x44 && m[17] == 0x55 && m[18] == 0x66 && m[19] == 0x77;
  }

  /** From the third byte on each byte meets one of the mask. */
  lemma MaskedByte(value: bytes, txid: TxId)
    ensures |value| >= 2 ==> Masked(value, txid)[0] == value[0] && Masked(value, txid)[1] == value[1]
    ensures forall i :: 2 <= i < |value| && i < 20 ==>
              Masked(value, txid)[i] ==
              XorByte(value[i], if i == 2 || i == 4 then 0x21 else if i == 3 || i == 5 then 0x12 else if i == 6 then 0xA4
                                else if i == 7 then 0x42 else txid[i - 8])
  {
    hide Xor, XorByte;
  }

  lemma Nibbles()
    ensures Xor(0x0, 0x2) == 0x2 && Xor(0x1, 0x1) == 0x0 && Xor(0x1, 0x7) == 0x6 && Xor(0x2, 0x2) == 0x0
            && Xor(0x2, 0x3) == 0x1 && Xor(0x2, 0x7) == 0x5 && Xor(0x3, 0x2) == 0x1 && Xor(0x3, 0x7) == 0x4
    ensures Xor(0x4, 0x1) == 0x5 && Xor(0x4, 0x4) == 0x0 && Xor(0x4, 0x6) == 0x2 && Xor(0x5, 0x4) == 0x1
            && Xor(0x5, 0x6) == 0x3 && Xor(0x5, 0x7) == 0x2 && Xor(0x6, 0x4) == 0x2 && Xor(0x7, 0x0) == 0x7
    ensures Xor(0x7, 0x2) == 0x5 && Xor(0x9, 0x1) == 0x8 && Xor(0x9, 0x4) == 0xD && Xor(0x9, 0xE) == 0x7
            && Xor(0x9, 0xF) == 0x6 && Xor(0xA, 0x1) == 0xB && Xor(0xA, 0x2) == 0x8 && Xor(0xA, 0xA) == 0x0
    ensures Xor(0xA, 0xB) == 0x1 && Xor(0xB, 0x8) == 0x3 && Xor(0xB, 0xB) == 0x0 && Xor(0xB, 0xD) == 0x6
            && Xor(0xB, 0xF) == 0x4 && Xor(0xC, 0xC) == 0x0 && Xor(0xD, 0x8) == 0x5 && Xor(0xD, 0xA) == 0x7
    ensures Xor(0xD, 0xE) == 0x3 && Xor(0xE, 0x2) == 0xC && Xor(0xE, 0xA) == 0x4 && Xor(0xF, 0x4) == 0xB
            && Xor(0xF, 0xA) == 0x5 && Xor(0xF, 0xD) == 0x2
  {
    hide Xor;
    Nibbles0();
    Nibbles1();
    Nibbles2();
    Nibbles3();
    Nibbles4();
  }

  lemma Nibbles0()
    ensures Xor(0x0, 0x2) == 0x2 && Xor(0x1, 0x1) == 0x0 && Xor(0x1, 0x7) == 0x6 && Xor(0x2, 0x2) == 0x0
            && Xor(0x2, 0x3) == 0x1 && Xor(0x2, 0x7) == 0x5 && Xor(0x3, 0x2) == 0x1 && Xor(0x3, 0x7) == 0x4
  {
  }

  lemma Nibbles1()
    ensures Xor(0x4, 0x1) == 0x5 && Xor(0x4, 0x4) == 0x0 && Xor(0x4, 0x6) == 0x2 && Xor(0x5, 0x4) == 0x1
            && Xor(0x5, 0x6) == 0x3 && Xor(0x5, 0x7) == 0x2 && Xor(0x6, 0x4) == 0x2 && Xor(0x7, 0x0) == 0x7
  {
  }

  lemma Nibbles2()
    ensures Xor(0x7, 0x2) == 0x5 && Xor(0x9, 0x1) == 0x8 && Xor(0x9, 0x4) == 0xD && Xor(0x9, 0xE) == 0x7
            && Xor(0x9, 0xF) == 0x6 && Xor(0xA, 0x1) == 0xB && Xor(0xA, 0x2) == 0x8 && Xor(0xA, 0xA) == 0x0
  {
  }

  lemma Nibbles3()
    ensures Xor(0xA, 0xB) == 0x1 && Xor(0xB, 0x8) == 0x3 && Xor(0xB, 0xB) == 0x0 && Xor(0xB, 0xD) == 0x6
            && Xor(0xB, 0xF) == 0x4 && Xor(0xC, 0xC) == 0x0 && Xor(0xD, 0x8) == 0x5 && Xor(0xD, 0xA) == 0x7
  {
  }

  lemma Nibbles4()
    ensures Xor(0xD, 0xE) == 0x3 && Xor(0xE, 0x2) == 0xC && Xor(0xE, 0xA) == 0x4 && Xor(0xF, 0x4) == 0xB
            && Xor(0xF, 0xA) == 0x5 && Xor(0xF, 0xD) == 0x2
  {
  }

  lemma SamplePort()
    ensures XorByte(0xA1, 0x21) == 0x80 && XorByte(0x47, 0x12) == 0x55
  {
    hide Xor;
    Nibbles();
    XorNibbles(0xA, 0x1, 0x2, 0x1);
    XorNibbles(0x4, 0x7, 0x1, 0x2);
  }

  lemma SampleWord()
    ensures XorByte(0xE1, 0x21) == 0xC0 && XorByte(0x12, 0x12) == 0x00
    ensures XorByte(0xA6, 0xA4) == 0x02 && XorByte(0x43, 0x42) == 0x01
  {
    hide Xor;
    Nibbles();
    XorNibbles(0xE, 0x1, 0x2, 0x1);
    XorNibbles(0x1, 0x2, 0x1, 0x2);
    XorNibbles(0xA, 0x6, 0xA, 0x4);
    XorNibbles(0x4, 0x3, 0x4, 0x2);
  }

  lemma SampleOctets()
    ensures XorByte(0x01, 0x21) == 0x20 && XorByte(0x13, 0x12) == 0x01 && XorByte(0xA9, 0xA4) == 0x0D && XorByte(0xFA, 0x42) == 0xB8
    ensures XorByte(0xA5, 0xB7) == 0x12 && XorByte(0xD3, 0xE7) == 0x34 && XorByte(0xF1, 0xA7) == 0x56 && XorByte(0x79, 0x01) == 0x78
    ensures XorByte(0xBC, 0xBC) == 0x00 && XorByte(0x25, 0x34) == 0x11 && XorByte(0xF4, 0xD6) == 0x22 && XorByte(0xB5, 0x86) == 0x33
    ensures XorByte(0xBE, 0xFA) == 0x44 && XorByte(0xD2, 0x87) == 0x55 && XorByte(0xB9, 0xDF) == 0x66 && XorByte(0xD9, 0xAE) == 0x77
  {
    hide XorByte;
    SampleOctets0();
    SampleOctets4();
    SampleOctets8();
    SampleOctets12();
  }

  lemma SampleOctets0()
    ensures XorByte(0x01, 0x21) == 0x20 && XorByte(0x13, 0x12) == 0x01
    ensures XorByte(0xA9, 0xA4) == 0x0D && XorByte(0xFA, 0x42) == 0xB8
  {
    hide Xor;
    Nibbles();
    XorNibbles(0x0, 0x1, 0x2, 0x1);
    XorNibbles(0x1, 0x3, 0x1, 0x2);
    XorNibbles(0xA, 0x9, 0xA, 0x4);
    XorNibbles(0xF, 0xA, 0x4, 0x2);
  }

  lemma SampleOctets4()
    ensures XorByte(0xA5, 0xB7) == 0x12 && XorByte(0xD3, 0xE7) == 0x34
    ensures XorByte(0xF1, 0xA7) == 0x56 && XorByte(0x79, 0x01) == 0x78
  {
    hide Xor;
    Nibbles();
    XorNibbles(0xA, 0x5, 0xB, 0x7);
    XorNibbles(0xD, 0x3, 0xE, 0x7);
    XorNibbles(0xF, 0x1, 0xA, 0x7);
    XorNibbles(0x7, 0x9, 0x0, 0x1);
  }

  lemma SampleOctets8()
    ensures XorByte(0xBC, 0xBC) == 0x00 && XorByte(0x25, 0x34) == 0x11
    ensures XorByte(0xF4, 0xD6) == 0x22 && XorByte(0xB5, 0x86) == 0x33
  {
    hide Xor;
    Nibbles();
    XorNibbles(0xB, 0xC, 0xB, 0xC);
    XorNibbles(0x2, 0x5, 0x3, 0x4);
    XorNibbles(0xF, 0x4, 0xD, 0x6);
    XorNibbles(0xB, 0x5, 0x8, 0x6);
  }

  lemma SampleOctets12()
    ensures XorByte(0xBE, 0xFA) == 0x44 && XorByte(0xD2, 0x87) == 0x55
    ensures XorByte(0xB9, 0xDF) == 0x66 && XorByte(0xD9, 0xAE) == 0x77
  {
    hide Xor;
    Nibbles();
    XorNibbles(0xB, 0xE, 0xF, 0xA);
    XorNibbles(0xD, 0x2, 0x8, 0x7);
    XorNibbles(0xB, 0x9, 0xD, 0xF);
    XorNibbles(0xD, 0x9, 0xA, 0xE);
  }

  const RELAY_VALUE: bytes := [0x00, 0x01, 0xE1, 0x12, 0xEA, 0x12, 0xD5, 0x40]
  const LIFE_VALUE: bytes := [0x00, 0x00, 0x02, 0x58]
  const GRANT_BODY: bytes := [0x00, 0x16, 0x00, 0x08, 0x00, 0x01, 0xE1, 0x12, 0xEA, 0x12, 0xD5, 0x40,
                              0x00, 0x0D, 0x00, 0x04, 0x00, 0x00, 0x02, 0x58]

  function GrantExampleAttrs(): seq<Attr> {
    [Attr(XOR_RELAYED_ADDRESS, RELAY_VALUE)] + [Attr(LIFETIME, LIFE_VALUE)]
  }

  lemma GrantExampleBody()
    ensures Tlvs(GrantExampleAttrs()) == GRANT_BODY
  {
    hide Tlv, Tlvs, High, Low;
    OneTlv(XOR_RELAYED_ADDRESS, RELAY_VALUE);
    TlvsOfOneMore([Attr(XOR_RELAYED_ADDRESS, RELAY_VALUE)], LIFETIME, LIFE_VALUE);
    assert Padding(8) == 0 && Padding(4) == 0;
    ShortTlv(0x00, 0x16, RELAY_VALUE);
    ShortTlv(0x00, 0x0D, LIFE_VALUE);
  }

  lemma GrantExampleRead(txid: TxId)
    ensures ReadSuccess(GrantExampleAttrs(), txid) == Ok(Success(SocketAddr(V4(0xCB00_7102), 49152), 600))
  {
    hide Xor, XorByte, XorAddress, ReadSuccess, High, Low;
    var attrs := GrantExampleAttrs();
    GrantedRelay(txid);
    assert First(attrs, LIFETIME) == First(attrs[1..], LIFETIME) == Some(LIFE_VALUE);
    GrantOnce(attrs, txid);
  }

  /** A grant, whole: relay 203.0.113.2, port 49152, for 600 seconds. */
  lemma GrantExample(p: Primitives, txid: TxId)
    ensures ReadAllocate(p, [0x01, 0x03, 0x00, 0x14, 0x21, 0x12, 0xA4, 0x42] + txid + GRANT_BODY, txid) ==
            Ok(Success(SocketAddr(V4(0xCB00_7102), 49152), 600))
  {
    hide Section, Tlvs, ReadSuccess, High, Low, Decode, Message, GrantExampleAttrs;
    GrantExampleBody();
    ShortMessage(0x01, 0x03, txid, GrantExampleAttrs());
    MessageRoundTrip(ALLOCATE_SUCCESS, txid, GrantExampleAttrs());
    GrantExampleRead(txid);
  }

  lemma GrantedRelay(txid: TxId)
    ensures XorAddress([0x00, 0x01, 0xE1, 0x12, 0xEA, 0x12, 0xD5, 0x40], txid) == Ok(SocketAddr(V4(0xCB00_7102), 49152))
  {
    hide Xor, XorByte, XorBytes;
    var value: bytes := [0x00, 0x01, 0xE1, 0x12, 0xEA, 0x12, 0xD5, 0x40];
    var plain: bytes := [0x00, 0x01, 0xC0, 0x00, 0xCB, 0x00, 0x71, 0x02];
    GrantedBytes();
    MaskedByte(value, txid);
    assert Masked(value, txid) == plain;
    assert plain[4..8] == [0xCB, 0x00, 0x71, 0x02];
  }

  lemma GrantedBytes()
    ensures XorByte(0xE1, 0x21) == 0xC0 && XorByte(0x12, 0x12) == 0x00
    ensures XorByte(0xEA, 0x21) == 0xCB && XorByte(0xD5, 0xA4) == 0x71
    ensures XorByte(0x40, 0x42) == 0x02
  {
    hide Xor;
    Nibbles();
    XorNibbles(0xE, 0x1, 0x2, 0x1);
    XorNibbles(0x1, 0x2, 0x1, 0x2);
    XorNibbles(0xE, 0xA, 0x2, 0x1);
    XorNibbles(0xD, 0x5, 0xA, 0x4);
    XorNibbles(0x4, 0x0, 0x4, 0x2);
  }

  const CODE_VALUE: bytes := [0x00, 0x00, 0x04, 0x01]
  const CHALLENGE_BODY: bytes := [0x00, 0x09, 0x00, 0x04, 0x00, 0x00, 0x04, 0x01,
                                  0x00, 0x14, 0x00, 0x01, 0x72, 0x00, 0x00, 0x00,
                                  0x00, 0x15, 0x00, 0x01, 0x6E, 0x00, 0x00, 0x00]

  function ChallengeExampleAttrs(): seq<Attr> {
    [Attr(ERROR_CODE, CODE_VALUE)] + [Attr(REALM, [0x72])] + [Attr(NONCE, [0x6E])]
  }

  lemma ChallengeExampleBody()
    ensures Tlvs(ChallengeExampleAttrs()) == CHALLENGE_BODY
  {
    hide Tlv, Tlvs, High, Low;
    OneTlv(ERROR_CODE, CODE_VALUE);
    TlvsOfOneMore([Attr(ERROR_CODE, CODE_VALUE)], REALM, [0x72]);
    TlvsOfOneMore([Attr(ERROR_CODE, CODE_VALUE)] + [Attr(REALM, [0x72])], NONCE, [0x6E]);
    assert Padding(4) == 0 && Padding(1) == 3;
    ShortTlv(0x00, 0x09, CODE_VALUE);
    ShortTlv(0x00, 0x14, [0x72]);
    ShortTlv(0x00, 0x15, [0x6E]);
  }

  lemma ChallengeExampleRead(p: Primitives)
    ensures ReadError(p, ChallengeExampleAttrs()) == Ok(Unauthorized(p.fromUtf8Lossy([0x72]), [0x6E]))
  {
    hide ReadError, High, Low;
    var attrs := ChallengeExampleAttrs();
    assert attrs[1..][0] == attrs[1] && attrs[1..][1..][0] == attrs[2];
    assert First(attrs, REALM) == First(attrs[1..], REALM) == Some([0x72]);
    assert First(attrs, NONCE) == First(attrs[1..], NONCE) == First(attrs[1..][1..], NONCE) == Some([0x6E]);
    RefusalOnce(p, attrs);
  }

  /** A challenge, whole: 401, realm "r", nonce "n". */
  lemma ChallengeExample(p: Primitives, txid: TxId)
    ensures ReadAllocate(p, [0x01, 0x13, 0x00, 0x18, 0x21, 0x12, 0xA4, 0x42] + txid + CHALLENGE_BODY, txid) ==
            Ok(Unauthorized(p.fromUtf8Lossy([0x72]), [0x6E]))
  {
    hide Section, Tlvs, ReadError, High, Low, Decode, Message, ChallengeExampleAttrs;
    ChallengeExampleBody();
    ShortMessage(0x01, 0x13, txid, ChallengeExampleAttrs());
    MessageRoundTrip(ALLOCATE_ERROR, txid, ChallengeExampleAttrs());
    ChallengeExampleRead(p);
  }

  /** A legacy Binding success, whole: MAPPED-ADDRESS with 192.0.2.1, port 1234. */
  lemma LegacyExample(txid: TxId)
    ensures var data := [0x01, 0x01, 0x00, 0x0C, 0x21, 0x12, 0xA4, 0x42] + txid
                        + [0x00, 0x01, 0x00, 0x08, 0x00, 0x01, 0x04, 0xD2, 0xC0, 0x00, 0x02, 0x01];
            ParseBindingResponse(data, txid) == Ok(SocketAddr(V4(0xC000_0201), 1234))
  {
    hide Section, Tlv, Tlvs, High, Low, Message, ParseMappedAddress, MappedBytes;
    var addr := SocketAddr(V4(0xC000_0201), 1234);
    MappedExample();
    var a := Attr(MAPPED_ADDRESS, MappedBytes(addr));
    assert [] + [a] + [] == [a];
    OneTlv(MAPPED_ADDRESS, a.value);
    assert Padding(8) == 0;
    ShortTlv(0x00, 0x01, a.value);
    assert Tlvs([a]) == [0x00, 0x01, 0x00, 0x08, 0x00, 0x01, 0x04, 0xD2, 0xC0, 0x00, 0x02, 0x01];
    ShortMessage(0x01, 0x01, txid, [a]);
    LegacyRoundTrip(txid, addr, [], []);
  }

  lemma MappedExample()
    ensures MappedBytes(SocketAddr(V4(0xC000_0201), 1234)) == [0x00, 0x01, 0x04, 0xD2, 0xC0, 0x00, 0x02, 0x01]
  {
    hide High, Low;
    Word(0x04, 0xD2);
    U32BytesOf([0xC0, 0x00, 0x02, 0x01]);
  }

  /** A refusal of a CreatePermission request, whole: 438. */
  lemma RefusalExample(p: Primitives, txid: TxId)
    ensures ReadPermission(p, [0x01, 0x18, 0x00, 0x08, 0x21, 0x12, 0xA4, 0x42] + txid
                              + [0x00, 0x09, 0x00, 0x04, 0x00, 0x00, 0x04, 38], txid) == Ok(Refused(438))
  {
    hide Section, Tlv, Tlvs, High, Low, Message, ReadPermission;
    var code: bytes := [0x00, 0x00, 0x04, 38];
    var a := Attr(ERROR_CODE, code);
    assert [] + [a] + [] == [a] && First([], ERROR_CODE) == None;
    OneTlv(ERROR_CODE, code);
    assert Padding(4) == 0;
    ShortTlv(0x00, 0x09, code);
    assert Tlvs([a]) == [0x00, 0x09, 0x00, 0x04, 0x00, 0x00, 0x04, 38];
    ShortMessage(0x01, 0x18, txid, [a]);
    PermissionRoundTrip(p, txid, [], [], code);
  }

  /** Its acceptance, whole. */
  lemma PermitsExample(p: Primitives, txid: TxId)
    ensures ReadPermission(p, [0x01, 0x08, 0x00, 0x00, 0x21, 0x12, 0xA4, 0x42] + txid, txid) == Ok(Granted)
  {
    hide Section, High, Low;
    var data := [0x01, 0x08, 0x00, 0x00, 0x21, 0x12, 0xA4, 0x42] + txid;
    Word(0x01, 0x08);
    Word(0, 0);
    assert data == HeaderBytes(CREATE_PERMISSION_SUCCESS, 0, txid);
    assert data[..HEADER_LENGTH] == data;
    assert Permits(data, txid);
    PermissionIsRead(p, data, txid, 0);
  }

  /** A frame, and the payload of packet 0x01020304: the prefix in ASCII, then the number with its lowest byte first. */
  lemma FrameAndPayload()
    ensures Frame([0xAA, 0xBB, 0xCC]) == [0x00, 0x03, 0xAA, 0xBB, 0xCC]
    ensures EchoPayload(0x0102_0304) == Ascii("webrtc-doctor-echo-probe") + [0x04, 0x03, 0x02, 0x01]
  {
    hide High, Low;
    Word(0, 3);
    AsU16Small(3);
    U32LeBytesOf([0x04, 0x03, 0x02, 0x01]);
    assert [0x04, 0x03, 0x02, 0x01] == U32LeBytes(0x0102_0304);
  }

  /** A Data Indication that carries "hello", whole. */
  lemma HelloExample(txid: TxId)
    ensures DataOf([0x00, 0x17, 0x00, 0x0C, 0x21, 0x12, 0xA4, 0x42] + txid
                   + [0x00, 0x13, 0x00, 0x05, 0x68, 0x65, 0x6C, 0x6C, 0x6F, 0x00, 0x00, 0x00]) == Ok(Some(Ascii("hello")))
  {
    hide Section, ReadPrefix, Tlv, Tlvs, High, Low, Message;
    var a := Attr(DATA, Ascii("hello"));
    assert a.value == [0x68, 0x65, 0x6C, 0x6C, 0x6F] && Padding(5) == 3;
    OneTlv(DATA, a.value);
    ShortTlv(0x00, 0x13, a.value);
    assert Tlvs([a]) == [0x00, 0x13, 0x00, 0x05, 0x68, 0x65, 0x6C, 0x6C, 0x6F, 0x00, 0x00, 0x00];
    ShortMessage(0x00, 0x17, txid, [a]);
    MessageRoundTrip(DATA_INDICATION, txid, [a]);
    FirstOfOne(a, DATA);
    var buf := Message(DATA_INDICATION, txid, [a]);
    PrefixIsSection(buf[HEADER_LENGTH..HEADER_LENGTH + U16At(buf, 2)]);
  }

  function Ascii(text: string): bytes {
    seq(|text|, i requires 0 <= i < |text| => AsciiByte(text[i]))
  }

  function AsciiByte(c: char): byte {
    if (c as int) < 0x80 then c as int else 0
  }
}
