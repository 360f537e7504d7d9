/** Reading a server's answer to an Allocate request. */
module AllocateResponse {
  import opened Words
  import opened Wrappers
  import opened StunTypes
  import opened Primitives
  import opened StunCodec
  import opened TurnCodec

  datatype AllocateOutcome =
    | Success(relayed: SocketAddr, lifetime: u32)
    | Unauthorized(realm: Text, nonce: bytes)
    | Rejected(code: u16, reason: Text)

  datatype AllocateError = Codec(error: CodecError) | WrongType(msgType: u16) | MissingAttr(name: string)

  // ----- what an answer says, by the position of its attributes -----

  /** The error of the earliest XOR-RELAYED-ADDRESS that does not decode. */
  function FirstRelayError(attrs: seq<Attr>, txid: TxId): Option<CodecError> {
    if attrs == [] then None
    else
      var n := |attrs| - 1;
      var earlier := FirstRelayError(attrs[..n], txid);
      if earlier.Some? || attrs[n].attrType != XOR_RELAYED_ADDRESS then earlier
      else
        match XorAddress(attrs[n].value, txid)
        case Ok(_) => None
        case Err(e) => Some(e)
  }

  /** The last LIFETIME of at least four bytes; 0 without one. */
  function LastLifetime(attrs: seq<Attr>): u32 {
    if attrs == [] then 0
    else
      var n := |attrs| - 1;
      if attrs[n].attrType == LIFETIME && |attrs[n].value| >= 4 then U32Of(attrs[n].value) else LastLifetime(attrs[..n])
  }

  predicate ShortErrorCode(attrs: seq<Attr>) {
    exists i :: 0 <= i < |attrs| && attrs[i].attrType == ERROR_CODE && |attrs[i].value| < 4
  }

  function ReadSuccess(attrs: seq<Attr>, txid: TxId): Result<AllocateOutcome, AllocateError> {
    if FirstRelayError(attrs, txid).Some? then Err(Codec(FirstRelayError(attrs, txid).value))
    else
      match Last(attrs, XOR_RELAYED_ADDRESS)
      case None => Err(MissingAttr("XOR-RELAYED-ADDRESS"))
      case Some(v) =>
        match XorAddress(v, txid)
        case Ok(relayed) => Ok(Success(relayed, LastLifetime(attrs)))
        case Err(e) => Err(Codec(e))
  }

  function LastErrorCode(p: Primitives, attrs: seq<Attr>): ErrorCode
    requires !ShortErrorCode(attrs)
  {
    match Last(attrs, ERROR_CODE)
    case None => ErrorCode(0, [])
    case Some(v) =>
      LastIndex(attrs, ERROR_CODE);
      ErrorCode(ErrorNumber(v), p.fromUtf8Lossy(v[4..]))
  }

  function ReadError(p: Primitives, attrs: seq<Attr>): Result<AllocateOutcome, AllocateError> {
    if ShortErrorCode(attrs) then Err(Codec(TruncatedAttr))
    else
      var ec := LastErrorCode(p, attrs);
      if ec.code != 401 then Ok(Rejected(ec.code, ec.reason))
      else
        match (Last(attrs, REALM), Last(attrs, NONCE))
        case (None, _) => Err(MissingAttr("REALM"))
        case (_, None) => Err(MissingAttr("NONCE"))
        case (Some(realm), Some(nonce)) => Ok(Unauthorized(p.fromUtf8Lossy(realm), nonce))
  }

  /** The outcome as determined by the last occurrence of each attribute the client looks at. */
  function ReadAllocate(p: Primitives, buf: bytes, txid: TxId): Result<AllocateOutcome, AllocateError> {
    match Decode(buf, txid)
    case Err(e) => Err(Codec(e))
    case Ok((h, attrs)) =>
      if h.msgType == ALLOCATE_SUCCESS then ReadSuccess(attrs, txid)
      else if h.msgType == ALLOCATE_ERROR then ReadError(p, attrs)
      else Err(WrongType(h.msgType))
  }

  lemma {:induction false} LastIndex(attrs: seq<Attr>, attrType: u16)
    ensures match Last(attrs, attrType)
            case None => forall i :: 0 <= i < |attrs| ==> attrs[i].attrType != attrType
            case Some(v) => exists k: nat :: IsLast(attrs, attrType, k) && attrs[k].value == v
  {
    if attrs != [] {
      var n := |attrs| - 1;
      var front := attrs[..n];
      LastIndex(front, attrType);
      if attrs[n].attrType == attrType {
        assert IsLast(attrs, attrType, n);
      } else if Last(front, attrType).Some? {
        var k: nat :| IsLast(front, attrType, k) && front[k].value == Last(front, attrType).value;
        assert forall j :: k < j < n ==> attrs[j] == front[j];
        assert IsLast(attrs, attrType, k);
      } else {
        assert forall j :: 0 <= j < n ==> attrs[j] == front[j];
      }
    }
  }

  /** `k` is the position of the last attribute of this type. */
  predicate IsLast(attrs: seq<Attr>, attrType: u16, k: nat) {
    k < |attrs| && attrs[k].attrType == attrType && forall j :: k < j < |attrs| ==> attrs[j].attrType != attrType
  }

  // ----- the parser -----

  lemma {:induction false} RelayErrorStays(attrs: seq<Attr>, k: nat, txid: TxId)
    requires k <= |attrs| && FirstRelayError(attrs[..k], txid).Some?
    ensures FirstRelayError(attrs, txid) == FirstRelayError(attrs[..k], txid)
    decreases |attrs|
  {
    hide XorAddress;
    if k == |attrs| {
      assert attrs[..k] == attrs;
    } else {
      var n := |attrs| - 1;
      assert attrs[..n][..k] == attrs[..k];
      RelayErrorStays(attrs[..n], k, txid);
    }
  }

  method ScanSuccess(attrs: seq<Attr>, txid: TxId) returns (r: Result<AllocateOutcome, AllocateError>)
    ensures r == ReadSuccess(attrs, txid)
  {
    hide XorAddress;
    var relayed: Option<SocketAddr> := None;
    var lifetime: u32 := 0;
    for k := 0 to |attrs|
      invariant FirstRelayError(attrs[..k], txid).None? && lifetime == LastLifetime(attrs[..k])
      invariant match Last(attrs[..k], XOR_RELAYED_ADDRESS)
                case None => relayed.None?
                case Some(v) => relayed.Some? && XorAddress(v, txid) == Ok(relayed.value)
    {
      var a := attrs[k];
      assert attrs[..k + 1][..k] == attrs[..k] && attrs[..k + 1][k] == a;
      if a.attrType == XOR_RELAYED_ADDRESS {
        var addr := ParseXorAddress(a.value, txid);
        XorAddressIs(a.value, txid);
        if addr.Err? {
          RelayErrorStays(attrs, k + 1, txid);
          return Err(Codec(addr.error));
        }
        relayed := Some(addr.value);
      } else if a.attrType == LIFETIME && |a.value| >= 4 {
        lifetime := U32Of(a.value);
      }
    }
    assert attrs[..|attrs|] == attrs;
    if relayed.None? {
      return Err(MissingAttr("XOR-RELAYED-ADDRESS"));
    }
    return Ok(Success(relayed.value, lifetime));
  }

  lemma XorAddressIs(value: bytes, txid: TxId)
    ensures XorAddress(value, txid) == ParseMappedAddress(Masked(value, txid))
  {
  }

  method ScanError(p: Primitives, attrs: seq<Attr>) returns (r: Result<AllocateOutcome, AllocateError>)
    ensures r == ReadError(p, attrs)
  {
    var code: u16 := 0;
    var reason: Text := [];
    var realm: Option<Text> := None;
    var nonce: Option<bytes> := None;
    for k := 0 to |attrs|
      invariant !ShortErrorCode(attrs[..k]) && ErrorCode(code, reason) == LastErrorCode(p, attrs[..k])
      invariant realm == match Last(attrs[..k], REALM) case None => None case Some(v) => Some(p.fromUtf8Lossy(v))
      invariant nonce == Last(attrs[..k], NONCE)
    {
      var a := attrs[k];
      assert attrs[..k + 1] == attrs[..k] + [a];
      if a.attrType == ERROR_CODE {
        var ec := ParseErrorCode(p, a.value);
        if ec.Err? {
          assert ShortErrorCode(attrs);
          return Err(Codec(ec.error));
        }
        code := ec.value.code;
        reason := ec.value.reason;
      } else if a.attrType == REALM {
        realm := Some(p.fromUtf8Lossy(a.value));
      } else if a.attrType == NONCE {
        nonce := Some(a.value);
      }
    }
    assert attrs[..|attrs|] == attrs;
    if code == 401 {
      if realm.None? {
        return Err(MissingAttr("REALM"));
      }
      if nonce.None? {
        return Err(MissingAttr("NONCE"));
      }
      return Ok(Unauthorized(realm.value, nonce.value));
    }
    return Ok(Rejected(code, reason));
  }

  method ParseAllocateResponse(p: Primitives, buf: bytes, txid: TxId) returns (r: Result<AllocateOutcome, AllocateError>)
    ensures r == ReadAllocate(p, buf, txid)
  {
    hide Section, ReadSuccess, ReadError;
    var header := ParseHeader(buf, txid);
    if header.Err? {
      return Err(Codec(header.error));
    }
    var attrs := WalkAttrs(buf, header.value.attrsLen);
    if attrs.Err? {
      return Err(Codec(attrs.error));
    }
    if header.value.msgType == ALLOCATE_SUCCESS {
      r := ScanSuccess(attrs.value, txid);
    } else if header.value.msgType == ALLOCATE_ERROR {
      r := ScanError(p, attrs.value);
    } else {
      r := Err(WrongType(header.value.msgType));
    }
  }

  // ----- properties of the reading -----

  predicate RelayDecodes(a: Attr, txid: TxId) {
    a.attrType == XOR_RELAYED_ADDRESS ==> XorAddress(a.value, txid).Ok?
  }

  /** No relay address is reported as failing exactly when all of them decode. */
  lemma {:induction false} RelaysDecode(attrs: seq<Attr>, txid: TxId)
    ensures FirstRelayError(attrs, txid).None? <==> forall a :: a in attrs ==> RelayDecodes(a, txid)
  {
    hide XorAddress;
    if attrs != [] {
      var n := |attrs| - 1;
      RelaysDecode(attrs[..n], txid);
      assert attrs == attrs[..n] + [attrs[n]];
      assert FirstRelayError(attrs, txid).None? <==> FirstRelayError(attrs[..n], txid).None? && RelayDecodes(attrs[n], txid);
      assert forall a :: a in attrs <==> a in attrs[..n] || a == attrs[n];
    }
  }

  /** The lifetime reported is that of the last LIFETIME with at least four bytes, and 0 without one. */
  lemma {:induction false} LastLifetimeIs(attrs: seq<Attr>)
    ensures || (LastLifetime(attrs) == 0 && forall j :: 0 <= j < |attrs| ==> !TimesOut(attrs[j]))
            || exists k: nat :: k < |attrs| && LastToTimeOut(attrs, k) && LastLifetime(attrs) == U32Of(attrs[k].value)
  {
    hide U32Of;
    if attrs != [] {
      var n := |attrs| - 1;
      var front := attrs[..n];
      LastLifetimeIs(front);
      if TimesOut(attrs[n]) {
        assert LastToTimeOut(attrs, n);
      } else if exists k: nat :: k < |front| && LastToTimeOut(front, k) && LastLifetime(front) == U32Of(front[k].value) {
        var k: nat :| k < |front| && LastToTimeOut(front, k) && LastLifetime(front) == U32Of(front[k].value);
        assert forall j :: k < j < n ==> attrs[j] == front[j];
        assert attrs[k] == front[k] && LastToTimeOut(attrs, k);
      } else {
        assert forall j :: 0 <= j < n ==> attrs[j] == front[j];
      }
    }
  }

  /** A LIFETIME long enough to be read. */
  predicate TimesOut(a: Attr) {
    a.attrType == LIFETIME && |a.value| >= 4
  }

  predicate LastToTimeOut(attrs: seq<Attr>, k: nat) {
    k < |attrs| && TimesOut(attrs[k]) && forall j :: k < j < |attrs| ==> !TimesOut(attrs[j])
  }

  /**
   On the wire: an Allocate error for this transaction whose last ERROR-CODE says
   `code` with reason `reason`, not 401, or that has none and leaves both blank.
   */
  predicate Rejects(p: Primitives, data: bytes, txid: TxId, code: u16, reason: Text) {
    var r := Decode(data, txid);
    && r.Ok? && r.value.0.msgType == ALLOCATE_ERROR
    && (forall a :: a in r.value.1 && a.attrType == ERROR_CODE ==> |a.value| >= 4)
    && match Last(r.value.1, ERROR_CODE)
       case None => code == 0 && reason == []
       case Some(v) => |v| >= 4 && code == ErrorNumber(v) != 401 && reason == p.fromUtf8Lossy(v[4..])
  }

  /** A reply is reported as a rejection with this code and reason exactly when it is one on the wire. */
  lemma RejectionIsRead(p: Primitives, data: bytes, txid: TxId, code: u16, reason: Text)
    ensures ReadAllocate(p, data, txid) == Ok(Rejected(code, reason)) <==> Rejects(p, data, txid, code, reason)
  {
    hide Decode, Last, ReadSuccess, ErrorNumber;
    var r := Decode(data, txid);
    SuccessIsNoRejection(p, data, txid);
    if r.Ok? {
      var attrs := r.value.1;
      LastIndex(attrs, ERROR_CODE);
      assert ShortErrorCode(attrs) <==> exists a :: a in attrs && a.attrType == ERROR_CODE && |a.value| < 4 by {
        if a :| a in attrs && a.attrType == ERROR_CODE && |a.value| < 4 {
          var i :| 0 <= i < |attrs| && attrs[i] == a;
          assert attrs[i].attrType == ERROR_CODE;
        }
      }
    }
  }

  /**
   What a reply lacks is named: a grant its relay address, a 401 its realm or else
   its nonce; and a message of another type is refused with that type.
   */
  lemma MissingIsNamed(p: Primitives, data: bytes, txid: TxId)
    requires Decode(data, txid).Ok?
    ensures var (h, attrs) := Decode(data, txid).value; var r := ReadAllocate(p, data, txid);
            && (h.msgType == ALLOCATE_SUCCESS && (forall a :: a in attrs ==> a.attrType != XOR_RELAYED_ADDRESS) ==>
                  r == Err(MissingAttr("XOR-RELAYED-ADDRESS")))
            && (h.msgType == ALLOCATE_ERROR && Refuses401(attrs) && (forall a :: a in attrs ==> a.attrType != REALM) ==>
                  r == Err(MissingAttr("REALM")))
            && (h.msgType == ALLOCATE_ERROR && Refuses401(attrs) && (forall a :: a in attrs ==> a.attrType != NONCE) ==>
                  (exists a :: a in attrs && a.attrType == REALM) ==> r == Err(MissingAttr("NONCE")))
            && (h.msgType != ALLOCATE_SUCCESS && h.msgType != ALLOCATE_ERROR ==> r == Err(WrongType(h.msgType)))
  {
    hide Decode, XorAddress, First, Last, FirstRelayError, LastLifetime;
    var attrs := Decode(data, txid).value.1;
    FirstAndLast(attrs, XOR_RELAYED_ADDRESS);
    FirstAndLast(attrs, REALM);
    FirstAndLast(attrs, NONCE);
    FirstMember(attrs, XOR_RELAYED_ADDRESS);
    FirstMember(attrs, REALM);
    FirstMember(attrs, NONCE);
    RelaysDecode(attrs, txid);
  }

  /** The last ERROR-CODE says 401, and none is too short. */
  predicate Refuses401(attrs: seq<Attr>) {
    !ShortErrorCode(attrs) && Last(attrs, ERROR_CODE).Some? && |Last(attrs, ERROR_CODE).value| >= 4
    && ErrorNumber(Last(attrs, ERROR_CODE).value) == 401
  }

  lemma SuccessIsNoRejection(p: Primitives, data: bytes, txid: TxId)
    ensures var r := Decode(data, txid);
            r.Ok? && r.value.0.msgType == ALLOCATE_SUCCESS ==>
              !(ReadAllocate(p, data, txid).Ok? && ReadAllocate(p, data, txid).value.Rejected?)
  {
    hide Decode, XorAddress;
  }

  // ----- last against first occurrence -----

  /** At most one attribute has this type. */
  predicate Once(attrs: seq<Attr>, attrType: u16) {
    forall i, j :: 0 <= i < j < |attrs| ==> attrs[i].attrType != attrType || attrs[j].attrType != attrType
  }

  function FirstLifetime(attrs: seq<Attr>): u32 {
    match First(attrs, LIFETIME)
    case Some(v) => if |v| >= 4 then U32Of(v) else 0
    case None => 0
  }

  function FirstSuccess(attrs: seq<Attr>, txid: TxId): Result<AllocateOutcome, AllocateError> {
    match First(attrs, XOR_RELAYED_ADDRESS)
    case None => Err(MissingAttr("XOR-RELAYED-ADDRESS"))
    case Some(v) =>
      match XorAddress(v, txid)
      case Ok(relayed) => Ok(Success(relayed, FirstLifetime(attrs)))
      case Err(e) => Err(Codec(e))
  }

  function FirstError(p: Primitives, attrs: seq<Attr>): Result<AllocateOutcome, AllocateError> {
    match First(attrs, ERROR_CODE)
    case None => Ok(Rejected(0, []))
    case Some(v) =>
      if |v| < 4 then Err(Codec(TruncatedAttr))
      else if ErrorNumber(v) != 401 then Ok(Rejected(ErrorNumber(v), p.fromUtf8Lossy(v[4..])))
      else
        match (First(attrs, REALM), First(attrs, NONCE))
        case (None, _) => Err(MissingAttr("REALM"))
        case (_, None) => Err(MissingAttr("NONCE"))
        case (Some(realm), Some(nonce)) => Ok(Unauthorized(p.fromUtf8Lossy(realm), nonce))
  }

  /** The outcome for a receiver that looks at the first occurrence of each attribute only, as section 15 of RFC 5389 lets it. */
  function ReadAllocateFirst(p: Primitives, buf: bytes, txid: TxId): Result<AllocateOutcome, AllocateError> {
    match Decode(buf, txid)
    case Err(e) => Err(Codec(e))
    case Ok((h, attrs)) =>
      if h.msgType == ALLOCATE_SUCCESS then FirstSuccess(attrs, txid)
      else if h.msgType == ALLOCATE_ERROR then FirstError(p, attrs)
      else Err(WrongType(h.msgType))
  }

  lemma {:induction false} LifetimeIsFirst(attrs: seq<Attr>)
    requires Once(attrs, LIFETIME)
    ensures LastLifetime(attrs) == FirstLifetime(attrs)
  {
    LastIsFirst(attrs, LIFETIME);
    if attrs != [] {
      var n := |attrs| - 1;
      LifetimeIsFirst(attrs[..n]);
      LastIsFirst(attrs[..n], LIFETIME);
      if attrs[n].attrType == LIFETIME && |attrs[n].value| < 4 {
        LastIndex(attrs[..n], LIFETIME);
      }
    }
  }

  /**
   No relay address; or a first one that does not decode; or all decode and the last
   says the address of the first, with the lifetime of the first LIFETIME.
   */
  predicate GrantUnambiguous(attrs: seq<Attr>, txid: TxId) {
    match (First(attrs, XOR_RELAYED_ADDRESS), Last(attrs, XOR_RELAYED_ADDRESS))
    case (Some(first), Some(last)) =>
      || XorAddress(first, txid).Err?
      || (&& (forall a :: a in attrs ==> RelayDecodes(a, txid))
          && XorAddress(last, txid) == XorAddress(first, txid) && LastLifetime(attrs) == FirstLifetime(attrs))
    case _ => true
  }

  /** No ERROR-CODE; or a first one that is too short; or none too short, and the last says what the first does. */
  predicate RefusalUnambiguous(p: Primitives, attrs: seq<Attr>) {
    match (First(attrs, ERROR_CODE), Last(attrs, ERROR_CODE))
    case (Some(first), Some(last)) =>
      || |first| < 4
      || (&& !ShortErrorCode(attrs) && |last| >= 4 && ErrorNumber(last) == ErrorNumber(first)
          && (if ErrorNumber(first) == 401 then ChallengeUnambiguous(p, attrs)
              else p.fromUtf8Lossy(last[4..]) == p.fromUtf8Lossy(first[4..])))
    case _ => true
  }

  /** REALM or NONCE is missing, or the last of each says what the first does. */
  predicate ChallengeUnambiguous(p: Primitives, attrs: seq<Attr>) {
    match (First(attrs, REALM), First(attrs, NONCE), Last(attrs, REALM), Last(attrs, NONCE))
    case (Some(realm), Some(nonce), Some(lastRealm), Some(lastNonce)) =>
      p.fromUtf8Lossy(lastRealm) == p.fromUtf8Lossy(realm) && lastNonce == nonce
    case _ => true
  }

  /** A type is missing from the front exactly when it is missing from the back. */
  lemma FirstAndLast(attrs: seq<Attr>, attrType: u16)
    ensures First(attrs, attrType).Some? <==> Last(attrs, attrType).Some?
    ensures First(attrs, attrType).Some? ==> Attr(attrType, First(attrs, attrType).value) in attrs
  {
    FirstMember(attrs, attrType);
    LastIndex(attrs, attrType);
  }

  lemma GrantReadings(attrs: seq<Attr>, txid: TxId)
    ensures ReadSuccess(attrs, txid) == FirstSuccess(attrs, txid) <==> GrantUnambiguous(attrs, txid)
  {
    hide XorAddress, First, Last, FirstRelayError, LastLifetime, FirstLifetime;
    FirstAndLast(attrs, XOR_RELAYED_ADDRESS);
    RelaysDecode(attrs, txid);
    FirstRelayIs(attrs, txid);
  }

  /** If the first relay address does not decode, its error is the one reported. */
  lemma {:induction false} FirstRelayIs(attrs: seq<Attr>, txid: TxId)
    ensures match First(attrs, XOR_RELAYED_ADDRESS)
            case None => FirstRelayError(attrs, txid).None?
            case Some(v) => XorAddress(v, txid).Err? ==> FirstRelayError(attrs, txid) == Some(XorAddress(v, txid).error)
  {
    hide XorAddress;
    if attrs != [] {
      var n := |attrs| - 1;
      FirstRelayIs(attrs[..n], txid);
      assert attrs == attrs[..n] + [attrs[n]] && [attrs[n]][1..] == [];
      FirstSkips(attrs[..n], [attrs[n]], XOR_RELAYED_ADDRESS);
    }
  }

  lemma RefusalReadings(p: Primitives, attrs: seq<Attr>)
    ensures ReadError(p, attrs) == FirstError(p, attrs) <==> RefusalUnambiguous(p, attrs)
  {
    hide First, Last;
    FirstAndLast(attrs, ERROR_CODE);
    FirstAndLast(attrs, REALM);
    FirstAndLast(attrs, NONCE);
    LastIndex(attrs, ERROR_CODE);
    FirstMember(attrs, ERROR_CODE);
  }

  /** Both readings of the types that matter here make the same of these attributes. */
  predicate Unambiguous(p: Primitives, msgType: u16, attrs: seq<Attr>, txid: TxId) {
    && (msgType == ALLOCATE_SUCCESS ==> GrantUnambiguous(attrs, txid))
    && (msgType == ALLOCATE_ERROR ==> RefusalUnambiguous(p, attrs))
  }

  /**
   Section 15 of RFC 5389 lets a receiver look at the first occurrence of an
   attribute only; this parser goes through all and keeps the last. On a
   response the two outcomes, errors included, are the same exactly when its
   first and last occurrences say the same.
   */
  lemma ReadingsAgree(p: Primitives, buf: bytes, txid: TxId)
    ensures ReadAllocate(p, buf, txid) == ReadAllocateFirst(p, buf, txid) <==>
            match Decode(buf, txid) case Err(_) => true case Ok((h, attrs)) => Unambiguous(p, h.msgType, attrs, txid)
  {
    hide Decode, GrantUnambiguous, RefusalUnambiguous, ReadSuccess, ReadError, FirstSuccess, FirstError;
    if Decode(buf, txid).Ok? {
      var attrs := Decode(buf, txid).value.1;
      GrantReadings(attrs, txid);
      RefusalReadings(p, attrs);
    }
  }

  /** None of the types read from such a response repeats; others may. */
  predicate ReadTypesOnce(msgType: u16, attrs: seq<Attr>) {
    && (msgType == ALLOCATE_SUCCESS ==> Once(attrs, XOR_RELAYED_ADDRESS) && Once(attrs, LIFETIME))
    && (msgType == ALLOCATE_ERROR ==> Once(attrs, ERROR_CODE) && Once(attrs, REALM) && Once(attrs, NONCE))
  }

  lemma GrantOnce(attrs: seq<Attr>, txid: TxId)
    requires Once(attrs, XOR_RELAYED_ADDRESS) && Once(attrs, LIFETIME)
    ensures ReadSuccess(attrs, txid) == FirstSuccess(attrs, txid)
  {
    hide XorAddress, First, Last, FirstRelayError, LastLifetime, FirstLifetime, Once;
    GrantReadings(attrs, txid);
    RelayOnce(attrs, txid);
    LifetimeIsFirst(attrs);
  }

  lemma RelayOnce(attrs: seq<Attr>, txid: TxId)
    requires Once(attrs, XOR_RELAYED_ADDRESS)
    ensures Last(attrs, XOR_RELAYED_ADDRESS) == First(attrs, XOR_RELAYED_ADDRESS)
    ensures match First(attrs, XOR_RELAYED_ADDRESS)
            case None => true
            case Some(v) => XorAddress(v, txid).Ok? ==> forall a :: a in attrs ==> RelayDecodes(a, txid)
  {
    hide XorAddress, First, Last;
    LastIsFirst(attrs, XOR_RELAYED_ADDRESS);
    FirstMember(attrs, XOR_RELAYED_ADDRESS);
  }

  lemma RefusalOnce(p: Primitives, attrs: seq<Attr>)
    requires Once(attrs, ERROR_CODE) && Once(attrs, REALM) && Once(attrs, NONCE)
    ensures ReadError(p, attrs) == FirstError(p, attrs)
  {
    hide First, Last;
    RefusalReadings(p, attrs);
    LastIsFirst(attrs, ERROR_CODE);
    LastIsFirst(attrs, REALM);
    LastIsFirst(attrs, NONCE);
    FirstMember(attrs, ERROR_CODE);
  }

  /** On a response that repeats none of the types read from it, the whole outcome, errors included, is the first-occurrence reading. */
  lemma FirstOccurrenceReading(p: Primitives, buf: bytes, txid: TxId)
    requires match Decode(buf, txid) case Err(_) => true case Ok((h, attrs)) => ReadTypesOnce(h.msgType, attrs)
    ensures ReadAllocate(p, buf, txid) == ReadAllocateFirst(p, buf, txid)
  {
    hide Decode, ReadSuccess, ReadError, FirstSuccess, FirstError, Once;
    if Decode(buf, txid).Ok? {
      var (h, attrs) := Decode(buf, txid).value;
      if h.msgType == ALLOCATE_SUCCESS {
        GrantOnce(attrs, txid);
      } else if h.msgType == ALLOCATE_ERROR {
        RefusalOnce(p, attrs);
      }
    }
  }

  /** A challenge followed by a second ERROR-CODE that says 403. */
  function TwoCodes(realm: bytes, nonce: bytes): seq<Attr> {
    [Attr(ERROR_CODE, [0, 0, 4, 1]), Attr(REALM, realm), Attr(NONCE, nonce), Attr(ERROR_CODE, [0, 0, 4, 3])]
  }

  /** The readings do differ: a response whose first ERROR-CODE says 401 and whose last says 403. */
  lemma ReadingsDiffer(p: Primitives, txid: TxId, realm: bytes, nonce: bytes)
    requires |Tlvs(TwoCodes(realm, nonce))| < 0x1_0000
    ensures var buf := Message(ALLOCATE_ERROR, txid, TwoCodes(realm, nonce));
            && ReadAllocate(p, buf, txid) == Ok(Rejected(403, p.fromUtf8Lossy([])))
            && ReadAllocateFirst(p, buf, txid) == Ok(Unauthorized(p.fromUtf8Lossy(realm), nonce))
  {
    hide Tlvs, Message;
    var attrs := TwoCodes(realm, nonce);
    MessageRoundTrip(ALLOCATE_ERROR, txid, attrs);
    hide Decode;
    TwoCodesRead(p, realm, nonce);
    hide ReadError, FirstError;
  }

  lemma TwoCodesRead(p: Primitives, realm: bytes, nonce: bytes)
    ensures var attrs := TwoCodes(realm, nonce);
            && ReadError(p, attrs) == Ok(Rejected(403, p.fromUtf8Lossy([])))
            && FirstError(p, attrs) == Ok(Unauthorized(p.fromUtf8Lossy(realm), nonce))
  {
    var attrs := TwoCodes(realm, nonce);
    var code, last := attrs[0].value, attrs[3].value;
    assert ErrorNumber(code) == 401 && ErrorNumber(last) == 403 && last[4..] == [];
    assert Last(attrs, ERROR_CODE) == Some(last);
    assert attrs[1..][0] == attrs[1] && attrs[1..][1..][0] == attrs[2];
    assert First(attrs, REALM) == First(attrs[1..], REALM) == Some(realm);
    assert First(attrs, NONCE) == First(attrs[1..], NONCE) == First(attrs[1..][1..], NONCE) == Some(nonce);
  }
}
