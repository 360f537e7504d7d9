/** Messages on a byte stream, each behind a 2-byte length (RFC 4571). */
module Framing {
  import opened Words
  import opened Wrappers

  function Frame(msg: bytes): bytes {
    U16Bytes(AsU16(|msg|)) + msg
  }

  /** The first message of a stream and what follows it, if all its bytes are there. */
  function Unframe(stream: bytes): Option<(bytes, bytes)> {
    if |stream| < 2 || |stream| < 2 + U16At(stream, 0) then None
    else
      var end := 2 + U16At(stream, 0);
      Some((stream[2..end], stream[end..]))
  }

  function Frames(msgs: seq<bytes>): bytes {
    if msgs == [] then [] else Frame(msgs[0]) + Frames(msgs[1..])
  }

  /** `n` messages read one after the other. */
  function UnframeMany(stream: bytes, n: nat): Option<(seq<bytes>, bytes)> {
    if n == 0 then Some(([], stream))
    else
      match Unframe(stream)
      case None => None
      case Some((msg, rest)) =>
        match UnframeMany(rest, n - 1)
        case None => None
        case Some((msgs, last)) => Some(([msg] + msgs, last))
  }

  class TlsStream {
    var written: bytes
    var unread: bytes
    /** How many more messages the transport takes before writing fails. */
    var writesLeft: nat

    constructor (incoming: bytes, writes: nat)
      ensures written == [] && unread == incoming && writesLeft == writes
    {
      written, unread, writesLeft := [], incoming, writes;
    }

    method SendFramed(msg: bytes) returns (ok: bool)
      modifies this`written, this`writesLeft
      ensures ok <==> old(writesLeft) > 0
      ensures ok ==> written == old(written) + Frame(msg) && writesLeft == old(writesLeft) - 1
      ensures !ok ==> written == old(written) && writesLeft == old(writesLeft)
    {
      if writesLeft == 0 {
        return false;
      }
      writesLeft := writesLeft - 1;
      written := written + U16Bytes(AsU16(|msg|));
      written := written + msg;
      assert written == old(written) + Frame(msg);
      return true;
    }

    /** Takes exactly `n` bytes off the stream; a stream that ends before that is an error. */
    method ReadExact(n: nat) returns (r: Option<bytes>)
      modifies this`unread
      ensures if n <= |old(unread)| then r == Some(old(unread)[..n]) && unread == old(unread)[n..] else r == None && unread == []
    {
      if n <= |unread| {
        r := Some(unread[..n]);
        unread := unread[n..];
      } else {
        r := None;
        unread := [];
      }
    }

    method RecvFramed() returns (r: Option<bytes>)
      modifies this`unread
      ensures match Unframe(old(unread))
              case None => r == None && unread == []
              case Some((msg, rest)) => r == Some(msg) && unread == rest
    {
      ghost var stream := unread;
      var lenBuf := ReadExact(2);
      if lenBuf.None? {
        return None;
      }
      var msgLen := U16At(lenBuf.value, 0);
      U16Same(lenBuf.value, 0, stream, 0);
      assert 2 + msgLen <= |stream| ==> stream[2..][..msgLen] == stream[2..2 + msgLen] && stream[2..][msgLen..] == stream[2 + msgLen..];
      r := ReadExact(msgLen);
    }
  }

  /** A frame is read back, with the rest of the stream untouched, exactly when its length fits 16 bits. */
  lemma FrameRoundTrip(msg: bytes, rest: bytes)
    ensures Unframe(Frame(msg) + rest) == Some((msg, rest)) <==> |msg| < 0x1_0000
  {
  }

  /** Reading as many messages as were sent gives exactly those, and leaves exactly what came after them. */
  lemma {:induction false} FramesRoundTrip(msgs: seq<bytes>, rest: bytes)
    requires forall m :: m in msgs ==> |m| < 0x1_0000
    ensures UnframeMany(Frames(msgs) + rest, |msgs|) == Some((msgs, rest))
  {
    hide Frame, Unframe;
    if msgs == [] {
      assert [] + rest == rest;
    } else {
      FrameRoundTrip(msgs[0], Frames(msgs[1..]) + rest);
      FramesRoundTrip(msgs[1..], rest);
      assert Frames(msgs) + rest == Frame(msgs[0]) + (Frames(msgs[1..]) + rest);
      assert [msgs[0]] + msgs[1..] == msgs;
    }
  }

  lemma FramesNotEmpty(msgs: seq<bytes>)
    ensures Frames(msgs) == [] <==> msgs == []
  {
  }

  /** Two lists of messages with the same stream are the same list: no frame boundary is ambiguous. */
  lemma {:induction false} FramesInjective(a: seq<bytes>, b: seq<bytes>)
    requires forall m :: m in a ==> |m| < 0x1_0000
    requires forall m :: m in b ==> |m| < 0x1_0000
    requires Frames(a) == Frames(b)
    ensures a == b
  {
    FramesNotEmpty(a);
    FramesNotEmpty(b);
    if a != [] && b != [] {
      FrameRoundTrip(a[0], Frames(a[1..]));
      FrameRoundTrip(b[0], Frames(b[1..]));
      hide Frame, Unframe;
      FramesInjective(a[1..], b[1..]);
    }
  }
}
