/** Data Indications: the second attribute walker, and the echo payload they carry back. */
module DataIndication {
  import opened Words
  import opened Wrappers
  import opened StunTypes
  import opened StunCodec
  import opened TurnCodec

  const DATA_INDICATION: u16 := 0x0017

  /** The ASCII bytes of "webrtc-doctor-echo-probe". */
  const ECHO_PREFIX: bytes :=
    [0x77, 0x65, 0x62, 0x72, 0x74, 0x63, 0x2D, 0x64, 0x6F, 0x63, 0x74, 0x6F,
     0x72, 0x2D, 0x65, 0x63, 0x68, 0x6F, 0x2D, 0x70, 0x72, 0x6F, 0x62, 0x65]

  // ----- the walker -----

  /** The attributes a walk reads before it ends or meets one that overruns. */
  function ReadPrefix(sec: bytes): seq<Attr>
    decreases |sec|
  {
    if |sec| < 4 || 4 + U16At(sec, 2) > |sec| then []
    else [Attr(U16At(sec, 0), sec[4..4 + U16At(sec, 2)])] + ReadPrefix(After(sec, U16At(sec, 2)))
  }

  predicate HasIndicationHeader(buf: bytes) {
    && |buf| >= HEADER_LENGTH && U16At(buf, 0) == DATA_INDICATION && U32Of(buf[4..8]) == MAGIC_COOKIE
    && |buf| >= HEADER_LENGTH + U16At(buf, 2)
  }

  function SectionOf(buf: bytes): bytes
    requires HasIndicationHeader(buf)
  {
    buf[HEADER_LENGTH..HEADER_LENGTH + U16At(buf, 2)]
  }

  /** The outcome in terms of what `walk_attrs` makes of the same section. */
  function DataOf(buf: bytes): Result<Option<bytes>, CodecError> {
    if |buf| < HEADER_LENGTH then Err(Short(|buf|))
    else if U16At(buf, 0) != DATA_INDICATION then Ok(None)
    else if U32Of(buf[4..8]) != MAGIC_COOKIE then Err(BadCookie(U32Of(buf[4..8])))
    else if |buf| < HEADER_LENGTH + U16At(buf, 2) then Err(TruncatedAttr)
    else
      match First(ReadPrefix(SectionOf(buf)), DATA)
      case Some(data) => Ok(Some(data))
      case None => if Section(SectionOf(buf)).Ok? then Ok(None) else Err(TruncatedAttr)
  }

  lemma PrefixStep(sec: bytes)
    requires |sec| >= 4
    ensures ReadPrefix(sec) ==
            if 4 + U16At(sec, 2) > |sec| then []
            else [Attr(U16At(sec, 0), sec[4..4 + U16At(sec, 2)])] + ReadPrefix(After(sec, U16At(sec, 2)))
  {
    hide Padding;
  }

  lemma PrefixAt(sec: bytes, off: nat)
    requires off + 4 <= |sec|
    ensures ReadPrefix(From(sec, off)) ==
            if Fits(sec, off) then [AttrAt(sec, off)] + ReadPrefix(From(sec, Following(sec, off))) else []
  {
    hide Padding, ReadPrefix;
    var rest := sec[off..];
    var len := LengthAt(sec, off);
    PrefixStep(rest);
    assert rest[2] == sec[off + 2] && rest[3] == sec[off + 3];
    if Fits(sec, off) {
      assert rest[4..4 + len] == sec[off + 4..off + 4 + len];
      assert After(rest, len) == From(sec, Following(sec, off));
    }
  }

  method ParseDataIndication(buf: bytes) returns (r: Result<Option<bytes>, CodecError>)
    ensures r == DataOf(buf)
  {
    hide Padding, Section, ReadPrefix;
    if |buf| < HEADER_LENGTH {
      return Err(Short(|buf|));
    }
    var msgType := U16At(buf, 0);
    if msgType != DATA_INDICATION {
      return Ok(None);
    }
    var attrsLen := U16At(buf, 2);
    var cookie := U32Of(buf[4..8]);
    if cookie != MAGIC_COOKIE {
      return Err(BadCookie(cookie));
    }
    if |buf| < HEADER_LENGTH + attrsLen {
      return Err(TruncatedAttr);
    }
    var i := HEADER_LENGTH;
    var end := HEADER_LENGTH + attrsLen;
    ghost var sec := buf[..end];
    ghost var whole := SectionOf(buf);
    assert From(sec, i) == whole;
    while i + 4 <= end
      invariant HEADER_LENGTH <= i
      invariant First(ReadPrefix(whole), DATA) == First(ReadPrefix(From(sec, i)), DATA)
      invariant Section(whole).Ok? <==> Section(From(sec, i)).Ok?
      decreases end - i
    {
      PrefixAt(sec, i);
      SectionAt(sec, i);
      var at := U16At(buf, i);
      var al := U16At(buf, i + 2);
      var valStart := i + 4;
      var valEnd := valStart + al;
      if valEnd > end {
        return Err(TruncatedAttr);
      }
      assert AttrAt(sec, i) == Attr(at, buf[valStart..valEnd]);
      FirstSkips([AttrAt(sec, i)], ReadPrefix(From(sec, Following(sec, i))), DATA);
      FirstOfOne(AttrAt(sec, i), DATA);
      if at == DATA {
        return Ok(Some(buf[valStart..valEnd]));
      }
      i := valEnd + Padding(al);
    }
    SectionAtEnd(From(sec, i));
    PrefixAtEnd(From(sec, i));
    return Ok(None);
  }

  lemma FirstOfOne(a: Attr, attrType: u16)
    ensures First([a], attrType) == if a.attrType == attrType then Some(a.value) else None
  {
  }

  lemma PrefixAtEnd(sec: bytes)
    requires |sec| < 4
    ensures ReadPrefix(sec) == []
  {
  }

  /** A walk that succeeds returns the prefix. */
  lemma {:induction false} PrefixIsSection(sec: bytes)
    ensures Section(sec).Ok? ==> Section(sec).value == ReadPrefix(sec)
    decreases |sec|
  {
    if |sec| >= 4 {
      hide Padding;
      PrefixIsSection(After(sec, U16At(sec, 2)));
    }
  }

  /** The visited offsets whose attribute fits: all but the overrunning one. */
  function Fitting(sec: bytes, offs: seq<nat>): seq<nat>
    requires forall k :: 0 <= k < |offs| ==> offs[k] + 4 <= |sec|
  {
    if offs != [] && !Fits(sec, offs[|offs| - 1]) then offs[..|offs| - 1] else offs
  }

  lemma {:induction false} PrefixFromVisit(sec: bytes, offs: seq<nat>, k: nat)
    requires Visits(sec, offs) && k < |offs|
    requires forall k :: 0 <= k < |offs| ==> offs[k] + 4 <= |sec|
    ensures Yields(sec, Fitting(sec, offs), k, ReadPrefix(From(sec, offs[k])))
    decreases |offs| - k
  {
    hide Padding, ReadPrefix;
    assert k + 1 < |offs| ==> Linked(sec, offs, k);
    PrefixAt(sec, offs[k]);
    if k + 1 < |offs| {
      PrefixFromVisit(sec, offs, k + 1);
      YieldsOneMore(sec, Fitting(sec, offs), k, ReadPrefix(From(sec, offs[k + 1])));
    } else if Fits(sec, offs[k]) {
      PrefixAtEnd(From(sec, Following(sec, offs[k])));
    }
  }

  lemma {:induction false} VisitsInBounds(sec: bytes, offs: seq<nat>, k: nat)
    requires Visits(sec, offs) && k < |offs|
    ensures offs[k] + 4 <= |sec|
  {
    if k + 1 < |offs| {
      assert Linked(sec, offs, k);
    }
  }

  /**
   The two walkers on a buffer with a Data Indication header: where `walk_attrs`
   succeeds this one returns its first DATA value; where it fails this one fails
   exactly when no DATA precedes the attribute that overruns.
   */
  lemma WalkersAgree(buf: bytes, offs: seq<nat>)
    requires HasIndicationHeader(buf) && Visits(SectionOf(buf), offs)
    ensures Section(SectionOf(buf)).Ok? ==> DataOf(buf) == Ok(First(Section(SectionOf(buf)).value, DATA))
    ensures Section(SectionOf(buf)).Err? ==>
              && offs != [] && offs[|offs| - 1] + 4 <= |SectionOf(buf)| && !Fits(SectionOf(buf), offs[|offs| - 1])
              && (DataOf(buf).Err? <==> forall k :: 0 <= k < |offs| - 1 ==> !DataAt(SectionOf(buf), offs[k]))
  {
    hide Padding, First;
    var sec := SectionOf(buf);
    PrefixIsSection(sec);
    WalkVisits(sec, offs);
    if Section(sec).Err? {
      forall k | 0 <= k < |offs|
        ensures offs[k] + 4 <= |sec|
      {
        VisitsInBounds(sec, offs, k);
      }
      PrefixFromVisit(sec, offs, 0);
      assert From(sec, offs[0]) == sec;
      var read := ReadPrefix(sec);
      FirstMember(read, DATA);
      assert forall k :: 0 <= k < |read| ==> ReadAt(sec, offs[k], read[k]) by {
        assert forall k :: 0 <= k < |read| ==> Fitting(sec, offs)[0 + k] == offs[k];
      }
      hide ReadPrefix, Section;
      assert forall k :: 0 <= k < |read| ==> (DataAt(sec, offs[k]) <==> read[k].attrType == DATA);
    }
  }

  /** What comes of a datagram without such a header: not an indication at all, or one that is not readable. */
  lemma IndicationRefused(buf: bytes)
    ensures |buf| < HEADER_LENGTH <==> DataOf(buf) == Err(Short(|buf|))
    ensures |buf| >= HEADER_LENGTH && buf[..2] != [0x00, 0x17] ==> DataOf(buf) == Ok(None)
    ensures (exists cookie :: DataOf(buf) == Err(BadCookie(cookie))) <==>
            |buf| >= HEADER_LENGTH && buf[..2] == [0x00, 0x17] && buf[4..8] != COOKIE_BYTES
    ensures |buf| >= HEADER_LENGTH && buf[..2] == [0x00, 0x17] && buf[4..8] == COOKIE_BYTES && |buf| < HEADER_LENGTH + U16At(buf, 2) ==>
              DataOf(buf) == Err(TruncatedAttr)
  {
    hide High, Low, Section, ReadPrefix;
    if |buf| >= HEADER_LENGTH {
      CookieBytes(buf[4..8]);
      assert buf[..2] == [buf[0], buf[1]];
      assert U16At(buf, 0) == DATA_INDICATION <==> buf[0] == 0x00 && buf[1] == 0x17;
      var cookie := U32Of(buf[4..8]);
      assert buf[..2] == [0x00, 0x17] && cookie != MAGIC_COOKIE ==> DataOf(buf) == Err(BadCookie(cookie));
    }
  }

  /** A DATA attribute starts at `off`. */
  predicate DataAt(sec: bytes, off: nat) {
    off + 4 <= |sec| && U16At(sec, off) == DATA
  }

  // ----- the payload -----

  function EchoPayload(seqNo: u32): bytes {
    ECHO_PREFIX + U32LeBytes(seqNo)
  }

  method MakePayload(seqNo: u32) returns (payload: bytes)
    ensures payload == EchoPayload(seqNo)
  {
    payload := ECHO_PREFIX;
    payload := payload + U32LeBytes(seqNo);
  }

  function ParseSeq(payload: bytes): Option<u32> {
    if |payload| != |ECHO_PREFIX| + 4 || payload[..|ECHO_PREFIX|] != ECHO_PREFIX then None
    else Some(U32LeOf(payload[|ECHO_PREFIX|..]))
  }

  /** Exactly the payloads the check sends are recognised, each as its own sequence number. */
  lemma PayloadRecognised(payload: bytes, seqNo: u32)
    ensures ParseSeq(payload) == Some(seqNo) <==> payload == EchoPayload(seqNo)
  {
    hide U32LeOf, U32LeBytes;
    var sent := EchoPayload(seqNo);
    assert sent[..|ECHO_PREFIX|] == ECHO_PREFIX && sent[|ECHO_PREFIX|..] == U32LeBytes(seqNo);
    if ParseSeq(payload).Some? {
      U32LeBytesOf(payload[|ECHO_PREFIX|..]);
      assert payload == payload[..|ECHO_PREFIX|] + payload[|ECHO_PREFIX|..];
    }
  }

  /** The sequence number a datagram echoes, if it is a well-formed echo. */
  function EchoSeq(datagram: bytes): Option<u32> {
    match DataOf(datagram)
    case Ok(Some(data)) => ParseSeq(data)
    case _ => None
  }

  /** Whatever is counted as an echo of `seqNo` carries, as its first DATA value, exactly the payload sent with that number. */
  lemma EchoCarriesPayload(datagram: bytes, seqNo: u32)
    ensures EchoSeq(datagram) == Some(seqNo) <==> DataOf(datagram) == Ok(Some(EchoPayload(seqNo)))
  {
    hide DataOf, ParseSeq, EchoPayload;
    if DataOf(datagram).Ok? && DataOf(datagram).value.Some? {
      PayloadRecognised(DataOf(datagram).value.value, seqNo);
    }
  }

  /** A relay that wraps the payload in a Data Indication, with any other attributes around it, is recognised for every number. */
  lemma EchoRecognised(txid: TxId, before: seq<Attr>, after: seq<Attr>, seqNo: u32)
    requires First(before, DATA).None?
    requires |Tlvs(before + [Attr(DATA, EchoPayload(seqNo))] + after)| < 0x1_0000
    ensures EchoSeq(Message(DATA_INDICATION, txid, before + [Attr(DATA, EchoPayload(seqNo))] + after)) == Some(seqNo)
  {
    var data := Attr(DATA, EchoPayload(seqNo));
    var attrs := before + [data] + after;
    var buf := Message(DATA_INDICATION, txid, attrs);
    hide EchoPayload, Section, ReadPrefix, Tlvs, First;
    MessageRoundTrip(DATA_INDICATION, txid, attrs);
    assert before + [data] + after == before + ([data] + after);
    FirstSkips(before, [data] + after, DATA);
    FirstSkips([data], after, DATA);
    FirstOfOne(data, DATA);
    hide HeaderBytes, WithLength;
    var sec := buf[HEADER_LENGTH..HEADER_LENGTH + U16At(buf, 2)];
    PrefixIsSection(sec);
    assert DataOf(buf) == Ok(Some(data.value));
    PayloadRecognised(data.value, seqNo);
  }

  /** `datagram` is a Data Indication carrying the payload of `seqNo` between other attributes, short enough for the receive buffer. */
  predicate WrapsAs(datagram: bytes, seqNo: u32, txid: TxId, before: seq<Attr>, after: seq<Attr>) {
    && First(before, DATA).None? && |datagram| <= RECEIVE_BUFFER
    && datagram == Message(DATA_INDICATION, txid, before + [Attr(DATA, EchoPayload(seqNo))] + after)
  }

  lemma WrappedRecognised(datagram: bytes, seqNo: u32, txid: TxId, before: seq<Attr>, after: seq<Attr>)
    requires WrapsAs(datagram, seqNo, txid, before, after)
    ensures EchoSeq(datagram) == Some(seqNo)
  {
    hide First, Tlvs, EchoPayload, EchoSeq, AsU16, HeaderBytes;
    EchoRecognised(txid, before, after, seqNo);
  }
}
