/** The context the checks share, and the result of a check. */
module Context {
  import opened Words
  import opened Wrappers
  import opened StunTypes
  import opened Primitives
  import opened Handshake
  import opened EchoLoop

  datatype TurnSession = TurnSession(server: SocketAddr, relayed: SocketAddr, realm: Text, nonce: bytes, key: Key, user: Text)

  datatype Context = Context(
    defaultTimeout: nat,
    host: Option<Text>,
    port: Option<u16>,
    resolvedIps: seq<Ip>,
    turnUser: Option<Text>,
    turnPass: Option<Text>,
    echoCount: u32,
    turnSession: Option<TurnSession>,
    scratch: map<string, string>)

  class ProbeContext {
    var defaultTimeout: nat
    var host: Option<Text>
    var port: Option<u16>
    var resolvedIps: seq<Ip>
    var turnUser: Option<Text>
    var turnPass: Option<Text>
    var echoCount: u32
    var turnSession: Option<TurnSession>
    var scratch: map<string, string>

    constructor (c: Context)
      ensures Snapshot() == c
    {
      defaultTimeout, host, port, resolvedIps := c.defaultTimeout, c.host, c.port, c.resolvedIps;
      turnUser, turnPass, echoCount := c.turnUser, c.turnPass, c.echoCount;
      turnSession, scratch := c.turnSession, c.scratch;
    }

    function Snapshot(): Context
      reads this
    {
      Context(defaultTimeout, host, port, resolvedIps, turnUser, turnPass, echoCount, turnSession, scratch)
    }

    method Restore(c: Context)
      modifies this
      ensures Snapshot() == c
    {
      defaultTimeout, host, port, resolvedIps := c.defaultTimeout, c.host, c.port, c.resolvedIps;
      turnUser, turnPass, echoCount := c.turnUser, c.turnPass, c.echoCount;
      turnSession, scratch := c.turnSession, c.scratch;
    }
  }

  datatype Status = Pass | Warn | Fail | Skip

  datatype Candidate = Candidate(kind: string, ip: Ip, port: u16, interface: Option<string>)

  datatype KindCounts = KindCounts(host: nat, srflx: nat, relay: nat)

  /** What a result's summary and detail say, as far as the model needs it. */
  datatype Note =
    | Missing(ids: seq<string>)
    | NoHost | NoPort | NoIp | NoSession | NoSrflx | NoCandidates
    | IoFailed | BadResponse
    | Resolved | Reflexive(srflx: SocketAddr)
    | Allocation(end: End)
    | Echoes(tally: Tally)
    | Gathered(candidates: seq<Candidate>, counts: KindCounts)
    | Other(text: string)

  datatype CheckResult = CheckResult(id: string, status: Status, note: Note)

  const DNS := "dns"
  const STUN := "stun.binding"
  const TURN_UDP := "turn.alloc.udp"
  const TURN_TLS := "turn.alloc.tls"
  const TURN_ECHO := "turn.echo.udp"
  const ICE := "ice.gather"
}
