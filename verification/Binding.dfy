/** The STUN binding request and its response. */
module Binding {
  import opened Words
  import opened Wrappers
  import opened StunTypes
  import opened StunCodec
  import opened TurnCodec

  const BINDING_REQUEST: u16 := 0x0001
  const BINDING_SUCCESS: u16 := 0x0101

  datatype BindingError = Codec(error: CodecError) | WrongType(msgType: u16) | NoMappedAddress

  method BuildBindingRequest(txid: TxId) returns (msg: bytes)
    ensures Decode(msg, txid) == Ok((Header(BINDING_REQUEST, 0, txid), [])) && |msg| == HEADER_LENGTH
  {
    hide High, Low;
    msg := U16Bytes(BINDING_REQUEST);
    msg := msg + [0, 0];
    msg := msg + COOKIE_BYTES;
    msg := msg + txid;
    assert U16Bytes(0) == [0, 0] by { U16BytesOf([0, 0], 0); }
    assert msg == HeaderBytes(BINDING_REQUEST, 0, txid) + [];
    DecodeWritten(BINDING_REQUEST, txid, 0, []);
  }

  predicate IsMapped(a: Attr) {
    a.attrType == XOR_MAPPED_ADDRESS || a.attrType == MAPPED_ADDRESS
  }

  function MappedValue(a: Attr, txid: TxId): Result<SocketAddr, BindingError>
    requires IsMapped(a)
  {
    match (if a.attrType == XOR_MAPPED_ADDRESS then XorAddress(a.value, txid) else ParseMappedAddress(a.value))
    case Ok(addr) => Ok(addr)
    case Err(e) => Err(Codec(e))
  }

  /** The first attribute of either kind decides, whether or not it decodes. */
  function FirstMapped(attrs: seq<Attr>, txid: TxId): Result<SocketAddr, BindingError> {
    if attrs == [] then Err(NoMappedAddress)
    else if IsMapped(attrs[0]) then MappedValue(attrs[0], txid)
    else FirstMapped(attrs[1..], txid)
  }

  function ParseBindingResponse(buf: bytes, txid: TxId): Result<SocketAddr, BindingError> {
    match ParseHeader(buf, txid)
    case Err(e) => Err(Codec(e))
    case Ok(h) =>
      if h.msgType != BINDING_SUCCESS then Err(WrongType(h.msgType))
      else
        match Section(buf[HEADER_LENGTH..HEADER_LENGTH + h.attrsLen])
        case Err(e) => Err(Codec(e))
        case Ok(attrs) => FirstMapped(attrs, txid)
  }

  lemma {:induction false} FirstMappedSkips(before: seq<Attr>, a: Attr, after: seq<Attr>, txid: TxId)
    requires (forall b :: b in before ==> !IsMapped(b)) && IsMapped(a)
    ensures FirstMapped(before + [a] + after, txid) == MappedValue(a, txid)
  {
    hide IsMapped, MappedValue;
    var attrs := before + [a] + after;
    if before == [] {
      assert attrs[0] == a;
    } else {
      assert attrs[0] == before[0] && attrs[1..] == before[1..] + [a] + after;
      FirstMappedSkips(before[1..], a, after, txid);
    }
  }

  /** The first mapped address among these attributes stands at `k`. */
  predicate FirstMappedAt(attrs: seq<Attr>, k: nat) {
    k < |attrs| && IsMapped(attrs[k]) && forall a :: a in attrs[..k] ==> !IsMapped(a)
  }

  lemma {:induction false} MappedPosition(attrs: seq<Attr>, txid: TxId) returns (k: nat)
    requires FirstMapped(attrs, txid).Ok?
    ensures FirstMappedAt(attrs, k)
  {
    hide IsMapped, MappedValue;
    if IsMapped(attrs[0]) {
      k := 0;
    } else {
      k := MappedPosition(attrs[1..], txid);
      assert attrs[..k + 1] == [attrs[0]] + attrs[1..][..k];
      k := k + 1;
    }
  }

  lemma MappedAt(attrs: seq<Attr>, txid: TxId, k: nat)
    requires FirstMappedAt(attrs, k)
    ensures FirstMapped(attrs, txid) == MappedValue(attrs[k], txid)
  {
    hide FirstMapped, IsMapped, MappedValue;
    FirstMappedSkips(attrs[..k], attrs[k], attrs[k + 1..], txid);
    assert attrs == attrs[..k] + [attrs[k]] + attrs[k + 1..];
  }

  /** On the wire: a Binding success for this transaction whose first mapped address says `addr`. */
  predicate Reflects(data: bytes, txid: TxId, addr: SocketAddr) {
    var r := Decode(data, txid);
    r.Ok? && r.value.0.msgType == BINDING_SUCCESS
    && exists k: nat :: k < |r.value.1| && FirstMappedAt(r.value.1, k) && Says(r.value.1[k], txid, addr)
  }

  /** Section 15.2 of RFC 5389 for the masked attribute, section 15.1 for the plain one. */
  predicate Says(a: Attr, txid: TxId, addr: SocketAddr) {
    && (a.attrType == XOR_MAPPED_ADDRESS ==> XorAddress(a.value, txid) == Ok(addr))
    && (a.attrType == MAPPED_ADDRESS ==> ParseMappedAddress(a.value) == Ok(addr))
  }

  lemma ValueSays(a: Attr, txid: TxId, addr: SocketAddr)
    requires IsMapped(a)
    ensures MappedValue(a, txid) == Ok(addr) <==> Says(a, txid, addr)
  {
    hide XorAddress, ParseMappedAddress;
  }

  lemma ParsedByDecode(data: bytes, txid: TxId)
    ensures var r := Decode(data, txid);
            if r.Ok? && r.value.0.msgType == BINDING_SUCCESS then ParseBindingResponse(data, txid) == FirstMapped(r.value.1, txid)
            else ParseBindingResponse(data, txid).Err?
  {
    hide Section, FirstMapped;
  }

  /** A reply is understood to say an address exactly when its first mapped address says it. */
  lemma ReflectsIsRead(data: bytes, txid: TxId, addr: SocketAddr)
    ensures ParseBindingResponse(data, txid) == Ok(addr) <==> Reflects(data, txid, addr)
  {
    hide Decode, FirstMapped, MappedValue, IsMapped, Says, ParseBindingResponse;
    ParsedByDecode(data, txid);
    var r := Decode(data, txid);
    if ParseBindingResponse(data, txid) == Ok(addr) {
      var k := MappedPosition(r.value.1, txid);
      MappedAt(r.value.1, txid, k);
      ValueSays(r.value.1[k], txid, addr);
    }
    if Reflects(data, txid, addr) {
      var k: nat :| k < |r.value.1| && FirstMappedAt(r.value.1, k) && Says(r.value.1[k], txid, addr);
      MappedAt(r.value.1, txid, k);
      ValueSays(r.value.1[k], txid, addr);
    }
  }

  /**
   A server that reports an address as XOR-MAPPED-ADDRESS is understood, whatever
   stands around it, as long as no mapped address comes first.
   */
  lemma BindingRoundTrip(txid: TxId, addr: SocketAddr, before: seq<Attr>, after: seq<Attr>)
    requires forall b :: b in before ==> !IsMapped(b)
    requires |Tlvs(before + [Attr(XOR_MAPPED_ADDRESS, XorAddressBytes(addr, txid))] + after)| < 0x1_0000
    ensures var attrs := before + [Attr(XOR_MAPPED_ADDRESS, XorAddressBytes(addr, txid))] + after;
            ParseBindingResponse(Message(BINDING_SUCCESS, txid, attrs), txid) == Ok(addr)
  {
    var a := Attr(XOR_MAPPED_ADDRESS, XorAddressBytes(addr, txid));
    XorAddressRoundTrip(addr, txid);
    hide XorAddressBytes, XorAddress, Section, Tlvs, Message;
    MessageRoundTrip(BINDING_SUCCESS, txid, before + [a] + after);
    FirstMappedSkips(before, a, after, txid);
  }

  /** So is a server of the older RFC 3489, which reports the address unmasked as MAPPED-ADDRESS. */
  lemma LegacyRoundTrip(txid: TxId, addr: SocketAddr, before: seq<Attr>, after: seq<Attr>)
    requires forall b :: b in before ==> !IsMapped(b)
    requires |Tlvs(before + [Attr(MAPPED_ADDRESS, MappedBytes(addr))] + after)| < 0x1_0000
    ensures var attrs := before + [Attr(MAPPED_ADDRESS, MappedBytes(addr))] + after;
            ParseBindingResponse(Message(BINDING_SUCCESS, txid, attrs), txid) == Ok(addr)
  {
    var a := Attr(MAPPED_ADDRESS, MappedBytes(addr));
    MappedRoundTrip(addr);
    hide MappedBytes, ParseMappedAddress, Section, Tlvs, Message;
    MessageRoundTrip(BINDING_SUCCESS, txid, before + [a] + after);
    FirstMappedSkips(before, a, after, txid);
  }
}
