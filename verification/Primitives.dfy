/**
 The library functions the program calls and the model does not look into. Every
 theorem holds for all of them; the few laws a theorem needs are stated there.
 */
module Primitives {
  import opened Words
  import opened Wrappers
  import opened StunTypes

  /** Text is kept as its UTF-8 bytes. */
  type Text = bytes

  datatype Primitives = Primitives(
    md5: bytes -> Key,
    hmacSha1: (Key, bytes) -> Digest,
    fromUtf8Lossy: bytes -> Text,
    saslPrep: Text -> Text,
    showAddr: SocketAddr -> string,
    readAddr: string -> Option<SocketAddr>)
  {
    /** Lossy decoding changes a byte string exactly when it is not valid UTF-8. */
    predicate ValidUtf8(b: bytes) {
      fromUtf8Lossy(b) == b
    }

    /** Printing an address and parsing it again gives the address back. */
    ghost predicate ReadsBack() {
      forall a :: readAddr(showAddr(a)) == Some(a)
    }
  }
}

/** Fixed-size byte strings and addresses. */
module StunTypes {
  import opened Words

  type TxId = b: bytes | |b| == 12 witness [0, 0, 0, 0, 0, 0, 0, 0, 0, 0, 0, 0]
  type Octets = b: bytes | |b| == 16 witness [0, 0, 0, 0, 0, 0, 0, 0, 0, 0, 0, 0, 0, 0, 0, 0]
  type Key = b: bytes | |b| == 16 witness [0, 0, 0, 0, 0, 0, 0, 0, 0, 0, 0, 0, 0, 0, 0, 0]
  type Digest = b: bytes | |b| == 20 witness [0, 0, 0, 0, 0, 0, 0, 0, 0, 0, 0, 0, 0, 0, 0, 0, 0, 0, 0, 0]

  datatype Ip = V4(bits: u32) | V6(octets: Octets)
  datatype SocketAddr = SocketAddr(ip: Ip, port: u16)
}
