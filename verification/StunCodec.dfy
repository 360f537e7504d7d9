/**
 The STUN wire format (RFC 5389): header, attribute walking, address attributes
 and ERROR-CODE.
 */
module StunCodec {
  import opened Words
  import opened Wrappers
  import opened StunTypes
  import opened Primitives

  const MAGIC_COOKIE: u32 := 0x2112_A442
  const COOKIE_BYTES: bytes := [0x21, 0x12, 0xA4, 0x42]
  const HEADER_LENGTH := 20

  const MAPPED_ADDRESS: u16 := 0x0001
  const USERNAME: u16 := 0x0006
  const MESSAGE_INTEGRITY: u16 := 0x0008
  const ERROR_CODE: u16 := 0x0009
  const LIFETIME: u16 := 0x000D
  const XOR_PEER_ADDRESS: u16 := 0x0012
  const DATA: u16 := 0x0013
  const REALM: u16 := 0x0014
  const NONCE: u16 := 0x0015
  const XOR_RELAYED_ADDRESS: u16 := 0x0016
  const REQUESTED_TRANSPORT: u16 := 0x0019
  const XOR_MAPPED_ADDRESS: u16 := 0x0020

  datatype CodecError = Short(len: nat) | BadCookie(cookie: u32) | TxIdMismatch | TruncatedAttr | BadFamily(family: byte)

  datatype Header = Header(msgType: u16, attrsLen: u16, txid: TxId)

  datatype Attr = Attr(attrType: u16, value: bytes)

  /** The client's receive buffer holds 1500 bytes; a longer datagram is cut off. */
  const RECEIVE_BUFFER := 1500

  function Cut(datagram: bytes): bytes {
    if |datagram| <= RECEIVE_BUFFER then datagram else datagram[..RECEIVE_BUFFER]
  }

  // ----- header -----

  /** The 20 header bytes of a message. */
  function HeaderBytes(msgType: u16, attrsLen: u16, txid: TxId): (b: bytes)
    ensures |b| == HEADER_LENGTH
  {
    U16Bytes(msgType) + U16Bytes(attrsLen) + COOKIE_BYTES + txid
  }

  function ParseHeader(buf: bytes, expected: TxId): Result<Header, CodecError> {
    if |buf| < HEADER_LENGTH then Err(Short(|buf|))
    else
      var attrsLen := U16At(buf, 2);
      var cookie := U32Of(buf[4..8]);
      if cookie != MAGIC_COOKIE then Err(BadCookie(cookie))
      else if buf[8..20] != expected then Err(TxIdMismatch)
      else if |buf| < HEADER_LENGTH + attrsLen then Err(TruncatedAttr)
      else Ok(Header(U16At(buf, 0), attrsLen, expected))
  }

  lemma CookieBytes(b: bytes)
    requires |b| == 4
    ensures U32Of(b) == MAGIC_COOKIE <==> b == COOKIE_BYTES
  {
  }

  /** What `ParseHeader` accepts is exactly a header of RFC 5389 with enough bytes behind it. */
  lemma HeaderAccepted(buf: bytes, txid: TxId, msgType: u16, attrsLen: u16)
    ensures ParseHeader(buf, txid) == Ok(Header(msgType, attrsLen, txid)) <==>
            |buf| >= HEADER_LENGTH + attrsLen && buf[..HEADER_LENGTH] == HeaderBytes(msgType, attrsLen, txid)
  {
    hide Xor, XorByte, High, Low;
    var h := HeaderBytes(msgType, attrsLen, txid);
    assert h[0..2] == U16Bytes(msgType) && h[2..4] == U16Bytes(attrsLen) && h[4..8] == COOKIE_BYTES && h[8..20] == txid;
    if |buf| >= HEADER_LENGTH {
      var b := buf[..HEADER_LENGTH];
      assert b[4..8] == buf[4..8] && b[8..20] == buf[8..20];
      U16BytesOf(b, 0);
      U16BytesOf(b, 2);
      CookieBytes(b[4..8]);
      if ParseHeader(buf, txid) == Ok(Header(msgType, attrsLen, txid)) {
        assert b == [b[0], b[1]] + [b[2], b[3]] + b[4..8] + b[8..20];
      }
      if b == h {
        assert b[0] == U16Bytes(msgType)[0] && b[1] == U16Bytes(msgType)[1];
        assert b[2] == U16Bytes(attrsLen)[0] && b[3] == U16Bytes(attrsLen)[1];
      }
    }
  }

  /** Each refusal, in terms of the bytes. */
  lemma HeaderRefused(buf: bytes, txid: TxId)
    ensures var r := ParseHeader(buf, txid);
            && (|buf| < HEADER_LENGTH <==> r == Err(Short(|buf|)))
            && ((exists cookie :: r == Err(BadCookie(cookie))) <==> |buf| >= HEADER_LENGTH && buf[4..8] != COOKIE_BYTES)
            && (r == Err(TxIdMismatch) <==> |buf| >= HEADER_LENGTH && buf[4..8] == COOKIE_BYTES && buf[8..20] != txid)
            && (r == Err(TruncatedAttr) <==>
                  && |buf| >= HEADER_LENGTH && buf[4..20] == COOKIE_BYTES + txid && |buf| < HEADER_LENGTH + U16At(buf, 2))
  {
    hide High, Low;
    if |buf| >= HEADER_LENGTH {
      CookieBytes(buf[4..8]);
      assert buf[4..20] == buf[4..8] + buf[8..20];
      assert buf[4..20][..4] == buf[4..8] && buf[4..20][4..] == buf[8..20];
      var cookie := U32Of(buf[4..8]);
      assert cookie != MAGIC_COOKIE ==> ParseHeader(buf, txid) == Err(BadCookie(cookie));
    }
  }

  // ----- the attribute section -----

  /** Bytes needed to bring a value of `len` bytes to a 4-byte boundary. */
  function Padding(len: nat): nat {
    (4 - len % 4) % 4
  }

  function Prepend(front: seq<Attr>, r: Result<seq<Attr>, CodecError>): Result<seq<Attr>, CodecError> {
    if r.Ok? then Ok(front + r.value) else r
  }

  /** What remains of a section after a first attribute of `len` bytes and its padding, if that much is there. */
  function After(sec: bytes, len: nat): (rest: bytes)
    ensures |sec| > 0 ==> |rest| < |sec|
  {
    var next := 4 + len + Padding(len);
    if next <= |sec| then sec[next..] else []
  }

  /**
   The grammar of an attribute section: attributes follow one another on 4-byte
   boundaries; up to three left-over bytes, and a final value whose padding is
   missing, are accepted; a value longer than what is left is an error.
   */
  function Section(sec: bytes): Result<seq<Attr>, CodecError>
    decreases |sec|
  {
    if |sec| < 4 then Ok([])
    else
      var len := U16At(sec, 2);
      if 4 + len > |sec| then Err(TruncatedAttr)
      else Prepend([Attr(U16At(sec, 0), sec[4..4 + len])], Section(After(sec, len)))
  }

  /** The grammar unfolded once. */
  lemma SectionStep(sec: bytes)
    requires |sec| >= 4
    ensures var len := U16At(sec, 2);
            Section(sec) ==
            if 4 + len > |sec| then Err(TruncatedAttr)
            else Prepend([Attr(U16At(sec, 0), sec[4..4 + len])], Section(After(sec, len)))
  {
  }

  lemma PrependTwice(front: seq<Attr>, a: Attr, r: Result<seq<Attr>, CodecError>)
    ensures Prepend(front, Prepend([a], r)) == Prepend(front + [a], r)
  {
    if r.Ok? {
      assert front + ([a] + r.value) == front + [a] + r.value;
    }
  }

  // ----- what the walk visits -----

  function LengthAt(sec: bytes, off: nat): nat
    requires off + 4 <= |sec|
  {
    U16At(sec, off + 2)
  }

  /** The value of the attribute at `off` ends inside the section. */
  predicate Fits(sec: bytes, off: nat)
    requires off + 4 <= |sec|
  {
    off + 4 + LengthAt(sec, off) <= |sec|
  }

  function Following(sec: bytes, off: nat): nat
    requires off + 4 <= |sec|
  {
    off + 4 + LengthAt(sec, off) + Padding(LengthAt(sec, off))
  }

  function AttrAt(sec: bytes, off: nat): Attr
    requires off + 4 <= |sec| && Fits(sec, off)
  {
    Attr(U16At(sec, off), sec[off + 4..off + 4 + LengthAt(sec, off)])
  }

  /** The section from `off` on; nothing when `off` lies behind its end. */
  function From(sec: bytes, off: nat): bytes {
    if off <= |sec| then sec[off..] else []
  }

  lemma SectionAtEnd(sec: bytes)
    requires |sec| < 4
    ensures Section(sec) == Ok([])
  {
  }

  /** One step of the grammar, seen at an offset of the whole section. */
  lemma SectionAt(sec: bytes, off: nat)
    requires off + 4 <= |sec|
    ensures Section(From(sec, off)) ==
            if Fits(sec, off) then Prepend([AttrAt(sec, off)], Section(From(sec, Following(sec, off)))) else Err(TruncatedAttr)
  {
    hide Padding;
    var rest := sec[off..];
    var len := LengthAt(sec, off);
    assert rest[2] == sec[off + 2] && rest[3] == sec[off + 3];
    if Fits(sec, off) {
      assert rest[4..4 + len] == sec[off + 4..off + 4 + len];
      assert After(rest, len) == From(sec, Following(sec, off));
    }
  }

  method WalkAttrs(buf: bytes, attrsLen: u16) returns (r: Result<seq<Attr>, CodecError>)
    requires |buf| >= HEADER_LENGTH + attrsLen
    ensures r == Section(buf[HEADER_LENGTH..HEADER_LENGTH + attrsLen])
  {
    hide Padding, Section;
    var out: seq<Attr> := [];
    var i := HEADER_LENGTH;
    var end := HEADER_LENGTH + attrsLen;
    ghost var sec := buf[..end];
    ghost var whole := Section(sec[i..]);
    assert sec[i..] == buf[i..end];
    assert whole.Ok? ==> [] + whole.value == whole.value;
    while i + 4 <= end
      invariant HEADER_LENGTH <= i
      invariant whole == Prepend(out, Section(From(sec, i)))
      decreases end - i
    {
      SectionAt(sec, i);
      var attrType := U16At(buf, i);
      var attrLen := U16At(buf, i + 2);
      var valStart := i + 4;
      var valEnd := valStart + attrLen;
      if valEnd > end {
        return Err(TruncatedAttr);
      }
      var a := Attr(attrType, buf[valStart..valEnd]);
      assert a.value == sec[valStart..valEnd];
      PrependTwice(out, a, Section(From(sec, Following(sec, i))));
      out := out + [a];
      i := valEnd + Padding(attrLen);
    }
    SectionAtEnd(From(sec, i));
    assert out + [] == out;
    return Ok(out);
  }

  /** The attribute at `offs[k]` fits, and `offs[k + 1]` is the boundary behind it. */
  predicate Linked(sec: bytes, offs: seq<nat>, k: nat)
    requires k + 1 < |offs|
  {
    offs[k] + 4 <= |sec| && Fits(sec, offs[k]) && offs[k + 1] == Following(sec, offs[k])
  }

  /**
   `offs` are the offsets at which attributes start: from 0 to the first place
   where no attribute header is left, or to the first attribute that overruns.
   */
  ghost predicate Visits(sec: bytes, offs: seq<nat>) {
    if |sec| < 4 then offs == []
    else
      && |offs| > 0 && offs[0] == 0
      && (forall k :: 0 <= k < |offs| - 1 ==> Linked(sec, offs, k))
      && var last := offs[|offs| - 1];
      && last + 4 <= |sec| && (Fits(sec, last) ==> Following(sec, last) + 4 > |sec|)
  }

  function OffsetsFrom(sec: bytes, off: nat): seq<nat>
    requires off + 4 <= |sec|
    decreases |sec| - off
  {
    if Fits(sec, off) && Following(sec, off) + 4 <= |sec| then [off] + OffsetsFrom(sec, Following(sec, off)) else [off]
  }

  lemma {:induction false} OffsetsFromLinked(sec: bytes, off: nat)
    requires off + 4 <= |sec|
    ensures var offs := OffsetsFrom(sec, off);
            && |offs| > 0 && offs[0] == off
            && (forall k :: 0 <= k < |offs| - 1 ==> Linked(sec, offs, k))
            && var last := offs[|offs| - 1];
            && last + 4 <= |sec| && (Fits(sec, last) ==> Following(sec, last) + 4 > |sec|)
    decreases |sec| - off
  {
    hide Padding, U16At;
    if Fits(sec, off) && Following(sec, off) + 4 <= |sec| {
      var rest := OffsetsFrom(sec, Following(sec, off));
      OffsetsFromLinked(sec, Following(sec, off));
      var offs := [off] + rest;
      forall k | 0 <= k < |offs| - 1
        ensures Linked(sec, offs, k)
      {
        assert k > 0 ==> Linked(sec, rest, k - 1);
      }
    }
  }

  lemma VisitsExist(sec: bytes)
    ensures exists offs :: Visits(sec, offs)
  {
    if |sec| < 4 {
      assert Visits(sec, []);
    } else {
      OffsetsFromLinked(sec, 0);
      assert Visits(sec, OffsetsFrom(sec, 0));
    }
  }

  lemma PaddingAligns(len: nat)
    ensures Padding(len) < 4 && (len + Padding(len)) % 4 == 0
  {
  }

  predicate ReadAt(sec: bytes, off: nat, a: Attr) {
    off + 4 <= |sec| && Fits(sec, off) && a == AttrAt(sec, off)
  }

  /** The attributes at the visited offsets from the `k`-th on. */
  ghost predicate Yields(sec: bytes, offs: seq<nat>, k: nat, attrs: seq<Attr>) {
    && k + |attrs| == |offs|
    && forall j :: 0 <= j < |attrs| ==> ReadAt(sec, offs[k + j], attrs[j])
  }

  lemma YieldsOneMore(sec: bytes, offs: seq<nat>, k: nat, rest: seq<Attr>)
    requires Yields(sec, offs, k + 1, rest) && offs[k] + 4 <= |sec| && Fits(sec, offs[k])
    ensures Yields(sec, offs, k, [AttrAt(sec, offs[k])] + rest)
  {
  }

  lemma {:induction false} SectionFromVisit(sec: bytes, offs: seq<nat>, k: nat)
    requires Visits(sec, offs) && k < |offs|
    ensures offs[k] + 4 <= |sec|
    ensures var last := offs[|offs| - 1]; var r := Section(From(sec, offs[k]));
            if Fits(sec, last) then r.Ok? && Yields(sec, offs, k, r.value) else r == Err(TruncatedAttr)
    decreases |offs| - k
  {
    hide Padding, Section;
    assert k + 1 < |offs| ==> Linked(sec, offs, k);
    SectionAt(sec, offs[k]);
    if k + 1 < |offs| {
      SectionFromVisit(sec, offs, k + 1);
      var rest := Section(From(sec, offs[k + 1]));
      if rest.Ok? {
        YieldsOneMore(sec, offs, k, rest.value);
      }
    } else if Fits(sec, offs[k]) {
      SectionAtEnd(From(sec, Following(sec, offs[k])));
    }
  }

  /** Visited offsets are 4-aligned. */
  lemma {:induction false} VisitsAligned(sec: bytes, offs: seq<nat>, k: nat)
    requires Visits(sec, offs) && k < |offs|
    ensures offs[k] % 4 == 0
  {
    hide Padding;
    if k > 0 {
      VisitsAligned(sec, offs, k - 1);
      assert Linked(sec, offs, k - 1);
      var len := LengthAt(sec, offs[k - 1]);
      PaddingAligns(len);
      assert (offs[k - 1] + (len + Padding(len))) % 4 == 0;
    }
  }

  /** The attribute at a visited offset ends before the next ones start. */
  lemma {:induction false} VisitsDisjoint(sec: bytes, offs: seq<nat>, j: nat, k: nat)
    requires Visits(sec, offs) && j < k < |offs|
    ensures offs[j] + 4 <= |sec| && offs[j] + 4 + LengthAt(sec, offs[j]) <= offs[k]
    decreases k
  {
    hide Padding;
    assert Linked(sec, offs, j) && Linked(sec, offs, k - 1);
    if j < k - 1 {
      VisitsDisjoint(sec, offs, j, k - 1);
    }
  }

  /**
   The walk errs exactly when the last offset it reaches overruns the section;
   otherwise it yields the attributes at exactly the visited offsets, in order.
   */
  lemma WalkVisits(sec: bytes, offs: seq<nat>)
    requires Visits(sec, offs)
    ensures if offs == [] || Fits(sec, offs[|offs| - 1])
            then Section(sec).Ok? && Yields(sec, offs, 0, Section(sec).value)
            else Section(sec) == Err(TruncatedAttr)
  {
    if |offs| > 0 {
      assert sec[offs[0]..] == sec;
      SectionFromVisit(sec, offs, 0);
    }
  }

  // ----- reading by attribute type -----

  function First(attrs: seq<Attr>, attrType: u16): Option<bytes> {
    if attrs == [] then None
    else if attrs[0].attrType == attrType then Some(attrs[0].value)
    else First(attrs[1..], attrType)
  }

  function Last(attrs: seq<Attr>, attrType: u16): Option<bytes> {
    if attrs == [] then None
    else
      var n := |attrs| - 1;
      if attrs[n].attrType == attrType then Some(attrs[n].value) else Last(attrs[..n], attrType)
  }

  lemma {:induction false} FirstSkips(front: seq<Attr>, attrs: seq<Attr>, attrType: u16)
    ensures First(front + attrs, attrType) ==
            if First(front, attrType).Some? then First(front, attrType) else First(attrs, attrType)
  {
    if front == [] {
      assert front + attrs == attrs;
    } else {
      assert (front + attrs)[1..] == front[1..] + attrs;
      FirstSkips(front[1..], attrs, attrType);
    }
  }

  /** Without repeats of a type, the last-wins reading and the first-wins reading of it agree. */
  lemma {:induction false} LastIsFirst(attrs: seq<Attr>, attrType: u16)
    requires forall i, j :: 0 <= i < j < |attrs| ==> attrs[i].attrType != attrType || attrs[j].attrType != attrType
    ensures Last(attrs, attrType) == First(attrs, attrType)
  {
    if attrs != [] {
      var n := |attrs| - 1;
      LastIsFirst(attrs[..n], attrType);
      assert attrs == attrs[..n] + [attrs[n]];
      FirstSkips(attrs[..n], [attrs[n]], attrType);
      FirstMember(attrs[..n], attrType);
    }
  }

  lemma {:induction false} FirstMember(attrs: seq<Attr>, attrType: u16)
    ensures First(attrs, attrType).Some? <==> exists i :: 0 <= i < |attrs| && attrs[i].attrType == attrType
    ensures First(attrs, attrType).Some? ==> Attr(attrType, First(attrs, attrType).value) in attrs
  {
    if attrs != [] {
      FirstMember(attrs[1..], attrType);
      assert forall i :: 0 <= i < |attrs[1..]| ==> attrs[1..][i] == attrs[i + 1];
    }
  }

  // ----- addresses -----

  function ParseMappedAddress(value: bytes): Result<SocketAddr, CodecError> {
    if |value| < 4 then Err(TruncatedAttr)
    else
      var port := U16At(value, 2);
      match value[1]
      case 1 => if |value| < 8 then Err(TruncatedAttr) else Ok(SocketAddr(V4(U32Of(value[4..8])), port))
      case 2 => if |value| < 20 then Err(TruncatedAttr) else Ok(SocketAddr(V6(value[4..20]), port))
      case f => Err(BadFamily(f))
  }

  lemma CookieWords()
    ensures U16At(COOKIE_BYTES, 0) == MAGIC_COOKIE / 0x1_0000 && U32Of(COOKIE_BYTES) == MAGIC_COOKIE
  {
  }

  /** The mask of section 15.2 of RFC 5389, from the port on: the cookie's high half, the cookie, the transaction id. */
  function AddressMask(txid: TxId): bytes {
    COOKIE_BYTES[..2] + COOKIE_BYTES + txid
  }

  function Masked(value: bytes, txid: TxId): (r: bytes)
    ensures |r| == |value|
  {
    if |value| < 2 then value else value[..2] + XorBytes(value[2..], AddressMask(txid))
  }

  function XorAddress(value: bytes, txid: TxId): Result<SocketAddr, CodecError> {
    ParseMappedAddress(Masked(value, txid))
  }

  /** An address as the plain body of a MAPPED-ADDRESS attribute. */
  function MappedBytes(addr: SocketAddr): bytes {
    match addr.ip
    case V4(bits) => [0, 1] + U16Bytes(addr.port) + U32Bytes(bits)
    case V6(octets) => [0, 2] + U16Bytes(addr.port) + octets
  }

  function XorAddressBytes(addr: SocketAddr, txid: TxId): bytes {
    Masked(MappedBytes(addr), txid)
  }

  lemma MaskedAt(value: bytes, txid: TxId)
    requires |value| >= 4
    ensures Masked(value, txid)[1] == value[1]
    ensures U16At(Masked(value, txid), 2) == Xor(U16At(value, 2), MAGIC_COOKIE / 0x1_0000)
    ensures |value| >= 8 ==> U32Of(Masked(value, txid)[4..8]) == Xor(U32Of(value[4..8]), MAGIC_COOKIE)
    ensures |value| >= 20 ==> Masked(value, txid)[4..20] == XorBytes(value[4..20], COOKIE_BYTES + txid)
  {
    hide Xor, XorByte, High, Low;
    var m := Masked(value, txid);
    CookieWords();
    XorU16(value, 2, COOKIE_BYTES, 0);
    if |value| >= 8 {
      XorU32(value[4..8], COOKIE_BYTES);
      assert m[4..8] == XorBytes(value[4..8], COOKIE_BYTES);
    }
  }

  /** The byte loop shared by the IPv6 branches of decoding and encoding. */
  method XorOctets(octets: bytes, mask: bytes) returns (out: bytes)
    requires |octets| == 16 && |mask| == 16
    ensures out == XorBytes(octets, mask)
  {
    out := [];
    for i := 0 to 16
      invariant out == XorBytes(octets, mask)[..i]
    {
      out := out + [XorByte(octets[i], mask[i])];
    }
  }

  method ParseXorAddress(value: bytes, txid: TxId) returns (r: Result<SocketAddr, CodecError>)
    ensures r == ParseMappedAddress(Masked(value, txid))
  {
    if |value| < 4 {
      return Err(TruncatedAttr);
    }
    hide Xor, XorBytes, Masked;
    MaskedAt(value, txid);
    var family := value[1];
    var xport := U16At(value, 2);
    var port := Xor(xport, MAGIC_COOKIE / 0x1_0000);
    if family == 1 {
      if |value| < 8 {
        return Err(TruncatedAttr);
      }
      var xaddr := U32Of(value[4..8]);
      return Ok(SocketAddr(V4(Xor(xaddr, MAGIC_COOKIE)), port));
    } else if family == 2 {
      if |value| < 20 {
        return Err(TruncatedAttr);
      }
      var mask := COOKIE_BYTES + txid;
      var addr := XorOctets(value[4..20], mask);
      return Ok(SocketAddr(V6(addr), port));
    } else {
      return Err(BadFamily(family));
    }
  }

  lemma MaskedHead(value: bytes, txid: TxId)
    requires |value| >= 2
    ensures Masked(value, txid)[..2] == value[..2]
  {
    hide XorBytes;
  }

  lemma XorAddressLayout(addr: SocketAddr, txid: TxId)
    ensures Xor(addr.port, MAGIC_COOKIE / 0x1_0000) < 0x1_0000
    ensures addr.ip.V4? ==> Xor(addr.ip.bits, MAGIC_COOKIE) < 0x1_0000_0000
    ensures XorAddressBytes(addr, txid) ==
            match addr.ip
            case V4(bits) => [0, 1] + U16Bytes(Xor(addr.port, MAGIC_COOKIE / 0x1_0000)) + U32Bytes(Xor(bits, MAGIC_COOKIE))
            case V6(octets) => [0, 2] + U16Bytes(Xor(addr.port, MAGIC_COOKIE / 0x1_0000)) + XorBytes(octets, COOKIE_BYTES + txid)
  {
    hide Xor, XorByte, XorBytes, Masked, High, Low;
    var plain := MappedBytes(addr);
    var m := Masked(plain, txid);
    MaskedAt(plain, txid);
    MaskedHead(plain, txid);
    assert plain[2] == U16Bytes(addr.port)[0] && plain[3] == U16Bytes(addr.port)[1];
    U16BytesOf(m, 2);
    assert m == m[..2] + [m[2], m[3]] + m[4..];
    match addr.ip
    case V4(bits) =>
      assert plain[4..8] == U32Bytes(bits);
      U32BytesOf(m[4..8]);
      assert m[4..] == m[4..8];
    case V6(octets) =>
      assert plain[4..20] == octets;
      assert m[4..] == m[4..20];
  }

  method BuildXorAddress(addr: SocketAddr, txid: TxId) returns (out: bytes)
    ensures out == Masked(MappedBytes(addr), txid)
  {
    hide Xor, XorBytes, U16Bytes, U32Bytes, Masked, MappedBytes;
    XorAddressLayout(addr, txid);
    out := [0];
    var xport := Xor(addr.port, MAGIC_COOKIE / 0x1_0000);
    match addr.ip {
      case V4(bits) =>
        var xaddr := Xor(bits, MAGIC_COOKIE);
        out := out + [1] + U16Bytes(xport) + U32Bytes(xaddr);
      case V6(octets) =>
        out := out + [2] + U16Bytes(xport);
        var mask := COOKIE_BYTES + txid;
        var raw := XorOctets(octets, mask);
        out := out + raw;
    }
  }

  lemma MappedRoundTrip(addr: SocketAddr)
    ensures ParseMappedAddress(MappedBytes(addr)) == Ok(addr)
  {
    hide Xor, XorByte, High, Low;
    var b := MappedBytes(addr);
    assert b[2] == U16Bytes(addr.port)[0] && b[3] == U16Bytes(addr.port)[1];
    match addr.ip
    case V4(bits) => assert b[4..8] == U32Bytes(bits);
    case V6(octets) => assert b[4..20] == octets;
  }

  /** Exactly the values that begin like the body of an address, but for the reserved first byte, are decoded to it. */
  lemma MappedAccepted(value: bytes, addr: SocketAddr)
    ensures ParseMappedAddress(value) == Ok(addr) <==>
            var body := MappedBytes(addr);
            |body| <= |value| && value[1..|body|] == body[1..]
  {
    hide Xor, XorByte, High, Low;
    var body := MappedBytes(addr);
    assert body[2..4] == U16Bytes(addr.port) && body[4..] == if addr.ip.V4? then U32Bytes(addr.ip.bits) else addr.ip.octets;
    if |body| <= |value| && value[1..|body|] == body[1..] {
      assert forall i :: 1 <= i < |body| ==> value[i] == value[1..|body|][i - 1] == body[1..][i - 1] == body[i];
      U16Same(value, 2, body, 2) by { assert value[2..4] == body[2..4]; }
      assert value[4..|body|] == body[4..];
      assert value[1] == body[1];
      assert body[2] == U16Bytes(addr.port)[0] && body[3] == U16Bytes(addr.port)[1];
    }
    if ParseMappedAddress(value) == Ok(addr) {
      U16BytesOf(value, 2);
      if value[1] == 1 {
        U32BytesOf(value[4..8]);
        assert value[..8] == [value[0], value[1]] + value[2..4] + value[4..8];
        assert value[1..8] == body[1..];
      } else {
        assert value[1..20] == [value[1]] + value[2..4] + value[4..20];
        assert value[1..20] == body[1..];
      }
    }
  }

  lemma MaskedInvolution(value: bytes, txid: TxId)
    ensures Masked(Masked(value, txid), txid) == value
  {
    if |value| >= 2 {
      var tail := XorBytes(value[2..], AddressMask(txid));
      XorBytesInvolution(value[2..], AddressMask(txid));
      assert Masked(value, txid)[..2] == value[..2] && Masked(value, txid)[2..] == tail;
    }
  }

  /** Section 15.2 of RFC 5389: decoding undoes encoding for every address, port and transaction id. */
  lemma XorAddressRoundTrip(addr: SocketAddr, txid: TxId)
    ensures XorAddress(XorAddressBytes(addr, txid), txid) == Ok(addr)
  {
    MaskedInvolution(MappedBytes(addr), txid);
    MappedRoundTrip(addr);
  }

  // ----- ERROR-CODE -----

  /** `(class & 7) * 100 + number` as computed, whatever the number byte holds. */
  function ErrorNumber(value: bytes): u16
    requires |value| >= 4
  {
    var hundreds: int := value[2] % 8;
    100 * hundreds + value[3]
  }

  datatype ErrorCode = ErrorCode(code: u16, reason: Text)

  function ParseErrorCode(p: Primitives, value: bytes): Result<ErrorCode, CodecError> {
    if |value| < 4 then Err(TruncatedAttr) else Ok(ErrorCode(ErrorNumber(value), p.fromUtf8Lossy(value[4..])))
  }

  /** Section 15.6 of RFC 5389: class and number give the code, whatever reserved bits and bytes hold. */
  lemma ErrorCodeRoundTrip(code: nat, reserved: seq<byte>, bits: nat, reason: bytes)
    requires 300 <= code < 700 && |reserved| == 2 && bits < 0x20
    ensures ErrorNumber(reserved + [8 * bits + code / 100, code % 100] + reason) == code
  {
    var hundreds, number := code / 100, code % 100;
    var value := reserved + [8 * bits + hundreds, number] + reason;
    assert value[2] == 8 * bits + hundreds && value[3] == number;
  }

  /** The three encodings the client takes for 401; only the first has a number below 100, as section 15.6 of RFC 5389 demands. */
  lemma UnauthorizedEncodings(value: bytes)
    requires |value| >= 4
    ensures ErrorNumber(value) == 401 <==> (value[2] % 8, value[3]) in {(4, 1), (3, 101), (2, 201)}
    ensures value[3] < 100 ==> (ErrorNumber(value) == 401 <==> value[2] % 8 == 4 && value[3] == 1)
  {
  }
}
