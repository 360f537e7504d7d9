/** A password that SASLprep changes: the client hashes it as it is, a server following section 15.4 of RFC 5389 does not. */
module UnpreparedPassword {
  import opened Words
  import opened Wrappers
  import opened StunTypes
  import opened Primitives
  import opened StunCodec
  import opened TurnCodec
  import opened Requests
  import opened Handshake

  /** A no-break space, which section 2.3 of RFC 4013 maps to a space. */
  const NO_BREAK_SPACE: Text := [0xC2, 0xA0]

  /**
   Library functions under which a key repeats the last byte of the text it is made
   from and a digest begins with its key; SASLprep maps a no-break space to a space.
   */
  function Telling(): Primitives {
    Primitives(
      text => seq(16, _ => if text == [] then 0 else text[|text| - 1]),
      (key: Key, text: bytes) => key + [0, 0, 0, 0],
      text => text,
      text => if text == NO_BREAK_SPACE then [0x20] else text,
      _ => "",
      _ => None)
  }

  /** A server whose password SASLprep changes refuses the client that holds it, whatever else it sends. */
  lemma UnpreparedPasswordFails(s: Server, txid1: TxId, txid2: TxId)
    requires s.WithinLimits() && |s.user| < 513 && s.pass == NO_BREAK_SPACE
    ensures Telling().ValidUtf8(s.realm) && !Conversation(Telling(), s, txid1, txid2).end.Authenticated?
  {
    hide Conversation, Challenge, SecondRequest, Characters, LongTermKey, SameDigest;
    var p := Telling();
    KeysDiffer(s);
    DigestsDiffer(ClientKey(p, s), s.ServerKey(p), SecondRequest(p, s, txid2));
    HandshakeOutcome(p, s, txid1, txid2);
  }

  lemma DigestsDiffer(a: Key, b: Key, msg: bytes)
    requires a[0] != b[0]
    ensures !SameDigest(Telling(), a, b, msg)
  {
    assert (a + [0, 0, 0, 0])[0] == a[0] && (b + [0, 0, 0, 0])[0] == b[0];
  }

  lemma KeysDiffer(s: Server)
    requires s.pass == NO_BREAK_SPACE
    ensures ClientKey(Telling(), s)[0] == 0xA0 && s.ServerKey(Telling())[0] == 0x20
  {
    var front := s.user + [0x3A] + s.realm + [0x3A];
    assert front + s.pass == (front + s.pass)[..|front| + 1] + [0xA0];
    assert (front + [0x20])[|front|] == 0x20;
  }
}
