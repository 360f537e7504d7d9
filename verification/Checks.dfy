/**
 The checks: what each reads from the context, what it sends, what it writes back.
 Each is a method over the mutable context, proved against a function of the
 context's value.
 */
module Checks {
  import opened Words
  import opened Wrappers
  import opened StunTypes
  import opened Primitives
  import opened StunCodec
  import opened TurnCodec
  import opened Requests
  import opened AllocateResponse
  import opened Handshake
  import opened Framing
  import opened Binding
  import opened DataIndication
  import opened EchoLoop
  import opened Context

  // ----- dns -----

  /** Each address once, in the order the resolver first gave it. */
  function Distinct(ips: seq<Ip>): seq<Ip> {
    if ips == [] then []
    else
      var n := |ips| - 1;
      var front := Distinct(ips[..n]);
      if ips[n] in front then front else front + [ips[n]]
  }

  lemma DistinctOf(ips: seq<Ip>)
    ensures Distinct(ips) == [] <==> ips == []
  {
  }

  /** The list handed on has the resolver's addresses, none twice, and starts with the resolver's first. */
  lemma {:induction false} DistinctIs(ips: seq<Ip>)
    ensures forall ip :: ip in Distinct(ips) <==> ip in ips
    ensures forall i, j :: 0 <= i < j < |Distinct(ips)| ==> Distinct(ips)[i] != Distinct(ips)[j]
    ensures ips != [] ==> Distinct(ips) != [] && Distinct(ips)[0] == ips[0]
  {
    if ips != [] {
      var n := |ips| - 1;
      DistinctIs(ips[..n]);
      assert ips == ips[..n] + [ips[n]];
    }
  }

  function DnsBody(lookup: Option<seq<Ip>>, c: Context): (CheckResult, Context) {
    if c.host.None? then (CheckResult(DNS, Skip, NoHost), c)
    else if lookup.None? || lookup.value == [] then (CheckResult(DNS, Fail, IoFailed), c)
    else (CheckResult(DNS, Pass, Resolved), c.(resolvedIps := Distinct(lookup.value)))
  }

  /** With a host the check passes exactly if the resolver gives an address, and fails otherwise, leaving the context alone. */
  lemma DnsOutcome(lookup: Option<seq<Ip>>, c: Context)
    requires c.host.Some?
    ensures var (r, next) := DnsBody(lookup, c);
            && (r.status == Pass <==> lookup.Some? && exists ip :: ip in lookup.value)
            && (r.status == Pass ==> next == c.(resolvedIps := Distinct(lookup.value)))
            && (r.status != Pass ==> r.status == Fail && next == c)
  {
    if lookup.Some? && lookup.value != [] {
      assert lookup.value[0] in lookup.value;
    }
  }

  method RunDns(ctx: ProbeContext, lookup: Option<seq<Ip>>) returns (r: CheckResult)
    modifies ctx
    ensures (r, ctx.Snapshot()) == DnsBody(lookup, old(ctx.Snapshot()))
  {
    if ctx.host.None? {
      return CheckResult(DNS, Skip, NoHost);
    }
    if lookup.None? {
      return CheckResult(DNS, Fail, IoFailed);
    }
    var ips: seq<Ip> := [];
    for k := 0 to |lookup.value|
      invariant ips == Distinct(lookup.value[..k])
      invariant ctx.Snapshot() == old(ctx.Snapshot())
    {
      assert lookup.value[..k + 1][..k] == lookup.value[..k];
      if lookup.value[k] !in ips {
        ips := ips + [lookup.value[k]];
      }
    }
    assert lookup.value[..|lookup.value|] == lookup.value;
    DistinctOf(lookup.value);
    if ips == [] {
      return CheckResult(DNS, Fail, IoFailed);
    }
    ctx.resolvedIps := ips;
    return CheckResult(DNS, Pass, Resolved);
  }

  // ----- datagram transports -----

  /** A datagram handed to a socket, and where it goes. */
  datatype Sent = Sent(to: SocketAddr, data: bytes)

  function SentTo(to: SocketAddr, msgs: seq<bytes>): (sent: seq<Sent>)
    ensures |sent| == |msgs|
  {
    seq(|msgs|, i requires 0 <= i < |msgs| => Sent(to, msgs[i]))
  }

  datatype StunIo = StunIo(bindOk: bool, txid: TxId, round: Round)

  function StunBody(p: Primitives, io: StunIo, c: Context): (CheckResult, Context) {
    if c.port.None? then (CheckResult(STUN, Skip, NoPort), c)
    else if c.resolvedIps == [] then (CheckResult(STUN, Skip, NoIp), c)
    else if !io.bindOk || !io.round.Reply? then (CheckResult(STUN, Fail, IoFailed), c)
    else
      match ParseBindingResponse(Cut(io.round.data), io.txid)
      case Err(_) => (CheckResult(STUN, Fail, BadResponse), c)
      case Ok(srflx) => (CheckResult(STUN, Pass, Reflexive(srflx)), c.(scratch := c.scratch["srflx" := p.showAddr(srflx)]))
  }

  /** The check got as far as sending its request. */
  predicate StunReached(io: StunIo, c: Context) {
    c.port.Some? && c.resolvedIps != [] && io.bindOk
  }

  method RunStun(p: Primitives, ctx: ProbeContext, io: StunIo) returns (r: CheckResult, sent: seq<Sent>)
    modifies ctx
    ensures (r, ctx.Snapshot()) == StunBody(p, io, old(ctx.Snapshot()))
    ensures var c := old(ctx.Snapshot());
            if StunReached(io, c)
            then |sent| == 1 && sent[0].to == SocketAddr(c.resolvedIps[0], c.port.value)
                 && Decode(sent[0].data, io.txid) == Ok((Header(BINDING_REQUEST, 0, io.txid), [])) && |sent[0].data| == HEADER_LENGTH
            else sent == []
  {
    hide ParseBindingResponse, Decode;
    sent := [];
    if ctx.port.None? {
      return CheckResult(STUN, Skip, NoPort), sent;
    }
    if ctx.resolvedIps == [] {
      return CheckResult(STUN, Skip, NoIp), sent;
    }
    var server := SocketAddr(ctx.resolvedIps[0], ctx.port.value);
    var request := BuildBindingRequest(io.txid);
    if !io.bindOk {
      return CheckResult(STUN, Fail, IoFailed), sent;
    }
    sent := [Sent(server, request)];
    if io.round.SendFailed? || io.round.NoReply? {
      return CheckResult(STUN, Fail, IoFailed), sent;
    }
    var srflx := ParseBindingResponse(Cut(io.round.data), io.txid);
    if srflx.Err? {
      return CheckResult(STUN, Fail, BadResponse), sent;
    }
    ctx.scratch := ctx.scratch["srflx" := p.showAddr(srflx.value)];
    return CheckResult(STUN, Pass, Reflexive(srflx.value)), sent;
  }

  /**
   The check passes with an address exactly when a reply arrived whose first mapped
   address decodes to it; it then stores that address, and otherwise fails and stores none.
   */
  lemma BindingPasses(p: Primitives, io: StunIo, c: Context, srflx: SocketAddr)
    requires c.port.Some? && c.resolvedIps != []
    ensures StunBody(p, io, c).0 == CheckResult(STUN, Pass, Reflexive(srflx)) <==>
            io.bindOk && io.round.Reply? && Reflects(Cut(io.round.data), io.txid, srflx)
    ensures var (r, next) := StunBody(p, io, c);
            if r.status == Pass then r.note.Reflexive? && next == c.(scratch := c.scratch["srflx" := p.showAddr(r.note.srflx)])
            else r == CheckResult(STUN, Fail, if io.bindOk && io.round.Reply? then BadResponse else IoFailed) && next == c
  {
    hide ParseBindingResponse, Reflects;
    if io.round.Reply? {
      ReflectsIsRead(Cut(io.round.data), io.txid, srflx);
    }
  }

  // ----- Allocate over UDP -----

  datatype AllocIo = AllocIo(bindOk: bool, txid1: TxId, round1: Round, txid2: TxId, round2: Round)

  function StatusOf(end: End): Status {
    match end
    case Failed(_) => Fail
    case ChallengeOnly(_) => Warn
    case Anonymous(_) => Pass
    case Authenticated(_, _, _, _, _, _) => Pass
  }

  /** The relay address an exchange reports, if any. */
  function RelayOf(end: End): Option<SocketAddr> {
    match end
    case Anonymous(relayed) => Some(relayed)
    case Authenticated(relayed, _, _, _, _, _) => Some(relayed)
    case _ => None
  }

  function WithRelay(p: Primitives, end: End, c: Context): Context {
    if RelayOf(end).Some? then c.(scratch := c.scratch["relayed" := p.showAddr(RelayOf(end).value)]) else c
  }

  /** Only an authenticated allocation leaves a session behind. */
  function WithSession(server: SocketAddr, end: End, c: Context): Context {
    match end
    case Authenticated(relayed, _, realm, nonce, key, user) =>
      c.(turnSession := Some(TurnSession(server, relayed, realm, nonce, key, user)))
    case _ => c
  }

  function AllocExchange(p: Primitives, io: AllocIo, c: Context): Exchanged {
    Exchange(p, c.turnUser, c.turnPass, io.txid1, io.txid2, OverUdp(io.round1), OverUdp(io.round2))
  }

  function AllocBody(p: Primitives, io: AllocIo, c: Context): (CheckResult, Context) {
    if c.port.None? then (CheckResult(TURN_UDP, Skip, NoPort), c)
    else if c.resolvedIps == [] then (CheckResult(TURN_UDP, Skip, NoIp), c)
    else if !io.bindOk then (CheckResult(TURN_UDP, Fail, IoFailed), c)
    else
      var end := AllocExchange(p, io, c).end;
      var server := SocketAddr(c.resolvedIps[0], c.port.value);
      (CheckResult(TURN_UDP, StatusOf(end), Allocation(end)), WithSession(server, end, WithRelay(p, end, c)))
  }

  /** The exchange happens at all: the check got as far as sending its first request. */
  predicate AllocReached(io: AllocIo, c: Context) {
    c.port.Some? && c.resolvedIps != [] && io.bindOk
  }

  method RunTurnAllocate(p: Primitives, ctx: ProbeContext, io: AllocIo) returns (r: CheckResult, sent: seq<Sent>)
    modifies ctx
    ensures (r, ctx.Snapshot()) == AllocBody(p, io, old(ctx.Snapshot()))
    ensures var c := old(ctx.Snapshot());
            sent == if AllocReached(io, c) then SentTo(SocketAddr(c.resolvedIps[0], c.port.value), AllocExchange(p, io, c).requests) else []
  {
    hide ReadAllocate, AllocateUnauth, AllocateAuthed, LongTermKey;
    sent := [];
    if ctx.port.None? {
      return CheckResult(TURN_UDP, Skip, NoPort), sent;
    }
    if ctx.resolvedIps == [] {
      return CheckResult(TURN_UDP, Skip, NoIp), sent;
    }
    var server := SocketAddr(ctx.resolvedIps[0], ctx.port.value);
    if !io.bindOk {
      return CheckResult(TURN_UDP, Fail, IoFailed), sent;
    }
    var req1 := BuildAllocateUnauth(io.txid1);
    sent := sent + [Sent(server, req1)];
    if !io.round1.Reply? {
      return CheckResult(TURN_UDP, Fail, Allocation(Failed(Transport))), sent;
    }
    var outcome1 := ParseAllocateResponse(p, Cut(io.round1.data), io.txid1);
    if outcome1.Err? {
      return CheckResult(TURN_UDP, Fail, Allocation(Failed(Malformed(outcome1.error)))), sent;
    }
    var realm: Text, nonce: bytes := [], [];
    match outcome1.value {
      case Unauthorized(challengeRealm, challengeNonce) =>
        realm, nonce := challengeRealm, challengeNonce;
      case Success(relayed, _) =>
        ctx.scratch := ctx.scratch["relayed" := p.showAddr(relayed)];
        return CheckResult(TURN_UDP, Pass, Allocation(Anonymous(relayed))), sent;
      case Rejected(code, _) =>
        return CheckResult(TURN_UDP, Fail, Allocation(Failed(ServerError(code)))), sent;
    }
    if ctx.turnUser.None? || ctx.turnPass.None? {
      return CheckResult(TURN_UDP, Warn, Allocation(ChallengeOnly(realm))), sent;
    }
    var user, pass := ctx.turnUser.value, ctx.turnPass.value;
    var key := LongTermKey(p, user, realm, pass);
    var req2 := BuildAllocateAuthed(p, io.txid2, user, realm, nonce, key);
    sent := sent + [Sent(server, req2)];
    if !io.round2.Reply? {
      return CheckResult(TURN_UDP, Fail, Allocation(Failed(Transport))), sent;
    }
    var outcome2 := ParseAllocateResponse(p, Cut(io.round2.data), io.txid2);
    if outcome2.Err? {
      return CheckResult(TURN_UDP, Fail, Allocation(Failed(Malformed(outcome2.error)))), sent;
    }
    match outcome2.value {
      case Success(relayed, lifetime) =>
        ctx.scratch := ctx.scratch["relayed" := p.showAddr(relayed)];
        ctx.turnSession := Some(TurnSession(server, relayed, realm, nonce, key, user));
        r := CheckResult(TURN_UDP, Pass, Allocation(Authenticated(relayed, lifetime, realm, nonce, key, user)));
      case Unauthorized(_, _) =>
        r := CheckResult(TURN_UDP, Fail, Allocation(Failed(CredentialsRejected)));
      case Rejected(code, _) =>
        r := CheckResult(TURN_UDP, Fail, Allocation(Failed(ServerError(code))));
    }
  }

  /**
   What the allocation check leaves behind stands for something on the wire: a new
   session only after a challenge of the first transaction and a grant of the
   second, with that challenge's realm and nonce and that grant's relay; a pass
   always records the granted relay address.
   */
  lemma SessionFromGrant(p: Primitives, io: AllocIo, c: Context)
    ensures var (r, next) := AllocBody(p, io, c);
            && (next.turnSession != c.turnSession ==>
                  && next.turnSession.Some? && AllocReached(io, c) && io.round1.Reply? && io.round2.Reply?
                  && c.turnUser.Some? && c.turnPass.Some? && Challenges(Cut(io.round1.data), io.txid1)
                  && var attrs, s := Decode(Cut(io.round1.data), io.txid1).value.1, next.turnSession.value;
                  && s.server == SocketAddr(c.resolvedIps[0], c.port.value) && s.user == c.turnUser.value
                  && s.realm == p.fromUtf8Lossy(Last(attrs, REALM).value) && s.nonce == Last(attrs, NONCE).value
                  && s.key == LongTermKey(p, s.user, s.realm, c.turnPass.value)
                  && Grants(Cut(io.round2.data), io.txid2, s.relayed))
            && (r.status == Pass ==>
                  && "relayed" in next.scratch
                  && exists relayed :: next.scratch["relayed"] == p.showAddr(relayed)
                                       && (|| Grants(Cut(io.round1.data), io.txid1, relayed)
                                           || (io.round2.Reply? && Grants(Cut(io.round2.data), io.txid2, relayed))))
            && forall k :: k in c.scratch && k != "relayed" ==> k in next.scratch && next.scratch[k] == c.scratch[k]
  {
    hide ReadAllocate, Decode, Last, AllocateUnauth, AllocateAuthed, LongTermKey, Challenges, Grants, GivesRelay;
    if io.round1.Reply? {
      ChallengeIsRead(p, Cut(io.round1.data), io.txid1);
      GrantIsRead(p, Cut(io.round1.data), io.txid1);
    }
    if io.round2.Reply? {
      GrantIsRead(p, Cut(io.round2.data), io.txid2);
    }
  }

  /** The status of an exchange: pass on a grant, warn on a challenge without credentials to answer it, fail on anything else. */
  lemma EndStatus(p: Primitives, user: Option<Text>, pass: Option<Text>, txid1: TxId, txid2: TxId, round1: Round, round2: Round)
    ensures var x := Exchange(p, user, pass, txid1, txid2, round1, round2);
            && (StatusOf(x.end) == Pass <==>
                  || (round1.Reply? && GivesRelay(round1.data, txid1))
                  || (|x.requests| == 2 && round2.Reply? && GivesRelay(round2.data, txid2)))
            && (StatusOf(x.end) == Warn <==> round1.Reply? && Challenges(round1.data, txid1) && (user.None? || pass.None?))
            && StatusOf(x.end) != Skip
  {
    hide Exchange, GivesRelay, Challenges, Grants;
    CredentialsOnlyAfterChallenge(p, user, pass, txid1, txid2, round1, round2);
  }

  /** What both allocation checks say of an exchange they get to, and that they fail when there is no socket or connection. */
  lemma AllocOutcome(p: Primitives, io: AllocIo, c: Context)
    requires c.port.Some? && c.resolvedIps != []
    ensures var r := AllocBody(p, io, c).0;
            if !io.bindOk then r == CheckResult(TURN_UDP, Fail, IoFailed) && AllocBody(p, io, c).1 == c
            else && r.note == Allocation(AllocExchange(p, io, c).end)
                 && (r.status == Warn <==>
                       && OverUdp(io.round1).Reply? && Challenges(OverUdp(io.round1).data, io.txid1)
                       && (c.turnUser.None? || c.turnPass.None?))
                 && (r.status in {Pass, Warn} || (r.status == Fail && AllocBody(p, io, c).1 == c))
  {
    hide Exchange, GivesRelay, Challenges;
    EndStatus(p, c.turnUser, c.turnPass, io.txid1, io.txid2, OverUdp(io.round1), OverUdp(io.round2));
  }

  // ----- Allocate over TLS -----

  datatype TlsIo = TlsIo(connectOk: bool, txid1: TxId, txid2: TxId, incoming: bytes, writes: nat)

  /** A round over the stream: a message that is not all there counts as no reply. */
  function FrameRound(writes: nat, stream: bytes): (Round, bytes) {
    if writes == 0 then (SendFailed, stream)
    else
      match Unframe(stream)
      case None => (NoReply, [])
      case Some((msg, rest)) => (Reply(msg), rest)
  }

  function TlsExchange(p: Primitives, io: TlsIo, c: Context): Exchanged {
    var (round1, rest) := FrameRound(io.writes, io.incoming);
    var (round2, _) := FrameRound(if io.writes == 0 then 0 else io.writes - 1, rest);
    Exchange(p, c.turnUser, c.turnPass, io.txid1, io.txid2, round1, round2)
  }

  function TurnsBody(p: Primitives, io: TlsIo, c: Context): (CheckResult, Context) {
    if c.port.None? then (CheckResult(TURN_TLS, Skip, NoPort), c)
    else if c.resolvedIps == [] then (CheckResult(TURN_TLS, Skip, NoIp), c)
    else if c.host.None? then (CheckResult(TURN_TLS, Skip, NoHost), c)
    else if !io.connectOk then (CheckResult(TURN_TLS, Fail, IoFailed), c)
    else
      var end := TlsExchange(p, io, c).end;
      (CheckResult(TURN_TLS, StatusOf(end), Allocation(end)), WithRelay(p, end, c))
  }

  predicate TlsReached(io: TlsIo, c: Context) {
    c.port.Some? && c.resolvedIps != [] && c.host.Some? && io.connectOk
  }

  /** Sends one request and waits for one message. */
  method FramedRound(tls: TlsStream, req: bytes) returns (round: Round)
    modifies tls
    ensures (round, tls.unread) == FrameRound(old(tls.writesLeft), old(tls.unread))
    ensures tls.written == if old(tls.writesLeft) > 0 then old(tls.written) + Frame(req) else old(tls.written)
    ensures tls.writesLeft == if old(tls.writesLeft) > 0 then old(tls.writesLeft) - 1 else 0
  {
    hide Unframe, Frame;
    var ok := tls.SendFramed(req);
    if !ok {
      return SendFailed;
    }
    var resp := tls.RecvFramed();
    round := if resp.Some? then Reply(resp.value) else NoReply;
  }

  /** The second round: the authenticated request and what its answer means. */
  method AuthenticateOverTls(p: Primitives, ctx: ProbeContext, tls: TlsStream, txid: TxId,
                             user: Text, pass: Text, realm: Text, nonce: bytes)
    returns (r: CheckResult, req: bytes)
    modifies ctx, tls
    ensures var key := LongTermKey(p, user, realm, pass);
            var end := SecondRound(p, txid, FrameRound(old(tls.writesLeft), old(tls.unread)).0, realm, nonce, key, user);
            && req == AllocateAuthed(p, txid, user, realm, nonce, key)
            && r == CheckResult(TURN_TLS, StatusOf(end), Allocation(end)) && ctx.Snapshot() == WithRelay(p, end, old(ctx.Snapshot()))
    ensures tls.written == if old(tls.writesLeft) > 0 then old(tls.written) + Frame(req) else old(tls.written)
  {
    hide ReadAllocate, AllocateAuthed, LongTermKey, FrameRound, Frame;
    var key := LongTermKey(p, user, realm, pass);
    req := BuildAllocateAuthed(p, txid, user, realm, nonce, key);
    var round := FramedRound(tls, req);
    if !round.Reply? {
      return CheckResult(TURN_TLS, Fail, Allocation(Failed(Transport))), req;
    }
    var outcome := ParseAllocateResponse(p, round.data, txid);
    if outcome.Err? {
      return CheckResult(TURN_TLS, Fail, Allocation(Failed(Malformed(outcome.error)))), req;
    }
    match outcome.value {
      case Success(relayed, lifetime) =>
        ctx.scratch := ctx.scratch["relayed" := p.showAddr(relayed)];
        r := CheckResult(TURN_TLS, Pass, Allocation(Authenticated(relayed, lifetime, realm, nonce, key, user)));
      case Unauthorized(_, _) =>
        r := CheckResult(TURN_TLS, Fail, Allocation(Failed(CredentialsRejected)));
      case Rejected(code, _) =>
        r := CheckResult(TURN_TLS, Fail, Allocation(Failed(ServerError(code))));
    }
  }

  lemma NothingSent(stream: bytes)
    ensures FrameRound(0, stream) == (SendFailed, stream)
  {
  }

  /** Both rounds over a fresh stream. */
  method ExchangeOverTls(p: Primitives, ctx: ProbeContext, tls: TlsStream, io: TlsIo) returns (r: CheckResult)
    requires tls.written == [] && tls.unread == io.incoming && tls.writesLeft == io.writes
    modifies ctx, tls
    ensures var end := TlsExchange(p, io, old(ctx.Snapshot())).end;
            r == CheckResult(TURN_TLS, StatusOf(end), Allocation(end)) && ctx.Snapshot() == WithRelay(p, end, old(ctx.Snapshot()))
    ensures tls.written == Frames(Taken(TlsExchange(p, io, old(ctx.Snapshot())).requests, io.writes))
  {
    hide ReadAllocate, AllocateUnauth, AllocateAuthed, LongTermKey, Unframe, Frame, Frames, FrameRound, SecondRound;
    FramesNotEmpty([]);
    NothingSent(io.incoming);
    var req1 := BuildAllocateUnauth(io.txid1);
    FramesOfOne(req1);
    var round1 := FramedRound(tls, req1);
    if !round1.Reply? {
      return CheckResult(TURN_TLS, Fail, Allocation(Failed(Transport)));
    }
    var outcome1 := ParseAllocateResponse(p, round1.data, io.txid1);
    if outcome1.Err? {
      return CheckResult(TURN_TLS, Fail, Allocation(Failed(Malformed(outcome1.error))));
    }
    var realm: Text, nonce: bytes := [], [];
    match outcome1.value {
      case Unauthorized(challengeRealm, challengeNonce) =>
        realm, nonce := challengeRealm, challengeNonce;
      case Success(relayed, _) =>
        ctx.scratch := ctx.scratch["relayed" := p.showAddr(relayed)];
        return CheckResult(TURN_TLS, Pass, Allocation(Anonymous(relayed)));
      case Rejected(code, _) =>
        return CheckResult(TURN_TLS, Fail, Allocation(Failed(ServerError(code))));
    }
    if ctx.turnUser.None? || ctx.turnPass.None? {
      return CheckResult(TURN_TLS, Warn, Allocation(ChallengeOnly(realm)));
    }
    var req2;
    r, req2 := AuthenticateOverTls(p, ctx, tls, io.txid2, ctx.turnUser.value, ctx.turnPass.value, realm, nonce);
    FramesOfTwo(req1, req2);
    assert [req1, req2][..1] == [req1];
  }

  method RunTurnsAllocate(p: Primitives, ctx: ProbeContext, io: TlsIo) returns (r: CheckResult, written: bytes)
    modifies ctx
    ensures (r, ctx.Snapshot()) == TurnsBody(p, io, old(ctx.Snapshot()))
    ensures var c := old(ctx.Snapshot());
            written == if TlsReached(io, c) then Frames(Taken(TlsExchange(p, io, c).requests, io.writes)) else []
  {
    hide TlsExchange, Frames, Taken, StatusOf, WithRelay;
    written := [];
    if ctx.port.None? {
      return CheckResult(TURN_TLS, Skip, NoPort), written;
    }
    if ctx.resolvedIps == [] {
      return CheckResult(TURN_TLS, Skip, NoIp), written;
    }
    if ctx.host.None? {
      return CheckResult(TURN_TLS, Skip, NoHost), written;
    }
    if !io.connectOk {
      return CheckResult(TURN_TLS, Fail, IoFailed), written;
    }
    var tls := new TlsStream(io.incoming, io.writes);
    r := ExchangeOverTls(p, ctx, tls, io);
    written := tls.written;
  }

  lemma TurnsOutcome(p: Primitives, io: TlsIo, c: Context)
    requires c.port.Some? && c.resolvedIps != [] && c.host.Some?
    ensures var r := TurnsBody(p, io, c).0; var round1 := FrameRound(io.writes, io.incoming).0;
            if !io.connectOk then r == CheckResult(TURN_TLS, Fail, IoFailed) && TurnsBody(p, io, c).1 == c
            else && r.note == Allocation(TlsExchange(p, io, c).end)
                 && (r.status == Warn <==> round1.Reply? && Challenges(round1.data, io.txid1) && (c.turnUser.None? || c.turnPass.None?))
                 && (r.status in {Pass, Warn} || (r.status == Fail && TurnsBody(p, io, c).1 == c))
  {
    hide Exchange, GivesRelay, Challenges, Unframe;
    var (round1, rest) := FrameRound(io.writes, io.incoming);
    var (round2, _) := FrameRound(if io.writes == 0 then 0 else io.writes - 1, rest);
    EndStatus(p, c.turnUser, c.turnPass, io.txid1, io.txid2, round1, round2);
  }

  /** Of the requests handed to the transport, those it took. */
  function Taken(requests: seq<bytes>, writes: nat): seq<bytes> {
    if writes < |requests| then requests[..writes] else requests
  }

  lemma FramesOfOne(msg: bytes)
    ensures Frames([msg]) == Frame(msg)
  {
  }

  lemma FramesOfTwo(first: bytes, second: bytes)
    ensures Frames([first, second]) == Frame(first) + Frame(second)
  {
    hide Frame;
    assert [first, second][1..] == [second];
    FramesOfOne(second);
  }

  /**
   Both transports bring an allocation to the same end: for the same transaction
   ids and credentials and the same two replies, each of at most 1500 bytes and
   none lost, status and relay address agree; only UDP records a session.
   */
  lemma TransportAgreement(p: Primitives, txid1: TxId, txid2: TxId, reply1: bytes, reply2: bytes, rest: bytes, c: Context)
    requires c.port.Some? && c.host.Some? && c.resolvedIps != []
    requires |reply1| <= 1500 && |reply2| <= 1500
    ensures var (udp, udpContext) := AllocBody(p, AllocIo(true, txid1, Reply(reply1), txid2, Reply(reply2)), c);
            var (tls, tlsContext) := TurnsBody(p, TlsIo(true, txid1, txid2, Frames([reply1, reply2]) + rest, 2), c);
            && udp.status == tls.status && udp.note == tls.note
            && udpContext.scratch == tlsContext.scratch
            && udpContext == tlsContext.(turnSession := udpContext.turnSession) && tlsContext.turnSession == c.turnSession
            && (udpContext.turnSession != c.turnSession ==> udp.note.end.Authenticated?)
  {
    hide ReadAllocate, AllocateUnauth, AllocateAuthed, LongTermKey, Unframe, Frame, Frames, Exchange;
    FramesOfTwo(reply1, reply2);
    FrameRoundTrip(reply1, Frame(reply2) + rest);
    FrameRoundTrip(reply2, rest);
    assert Frames([reply1, reply2]) + rest == Frame(reply1) + (Frame(reply2) + rest);
  }

  /** The bound matters: a well-formed reply longer than the buffer is refused over UDP, whatever it says. */
  lemma OversizedReplyFails(p: Primitives, data: bytes, txid: TxId)
    requires |data| > 1500 && ParseHeader(data, txid).Ok? && |data| == HEADER_LENGTH + U16At(data, 2)
    ensures ReadAllocate(p, Cut(data), txid) == Err(AllocateError.Codec(TruncatedAttr))
  {
  }

  // ----- the echo check -----

  datatype PermissionError = NotReadable(error: CodecError) | NotPermission(msgType: u16) | NoErrorCode

  datatype Permission = Granted | Refused(code: u16)

  function ReadPermission(p: Primitives, buf: bytes, txid: TxId): Result<Permission, PermissionError> {
    match ParseHeader(buf, txid)
    case Err(e) => Err(NotReadable(e))
    case Ok(h) =>
      if h.msgType == CREATE_PERMISSION_SUCCESS then Ok(Granted)
      else if h.msgType != CREATE_PERMISSION_ERROR then Err(NotPermission(h.msgType))
      else
        match Section(buf[HEADER_LENGTH..HEADER_LENGTH + h.attrsLen])
        case Err(e) => Err(NotReadable(e))
        case Ok(attrs) =>
          match First(attrs, ERROR_CODE)
          case None => Err(NoErrorCode)
          case Some(v) =>
            match ParseErrorCode(p, v)
            case Err(e) => Err(NotReadable(e))
            case Ok(ec) => Ok(Refused(ec.code))
  }

  /** A server's answer is understood: a success grants, an error is reported with its first code, whatever stands around it. */
  lemma PermissionRoundTrip(p: Primitives, txid: TxId, before: seq<Attr>, after: seq<Attr>, code: bytes)
    requires First(before, ERROR_CODE).None? && |code| >= 4
    requires |Tlvs(before + [Attr(ERROR_CODE, code)] + after)| < 0x1_0000
    ensures var attrs := before + [Attr(ERROR_CODE, code)] + after;
            && ReadPermission(p, Message(CREATE_PERMISSION_ERROR, txid, attrs), txid) == Ok(Refused(ErrorNumber(code)))
            && ReadPermission(p, Message(CREATE_PERMISSION_SUCCESS, txid, attrs), txid) == Ok(Granted)
  {
    var ec := Attr(ERROR_CODE, code);
    var attrs := before + [ec] + after;
    hide Section, Tlvs, First, Message;
    assert attrs == before + ([ec] + after);
    FirstSkips(before, [ec] + after, ERROR_CODE);
    FirstSkips([ec], after, ERROR_CODE);
    FirstOfOne(ec, ERROR_CODE);
    MessageRoundTrip(CREATE_PERMISSION_ERROR, txid, attrs);
    MessageRoundTrip(CREATE_PERMISSION_SUCCESS, txid, attrs);
  }

  /** `sendAt` and `sendOk` say when packet `i` was sent and whether the send succeeded. */
  datatype EchoIo = EchoIo(txid: TxId, permission: Round, sendAt: nat -> nat, sendOk: nat -> bool, polls: seq<Poll>)

  const FIVE_SECONDS: nat := 5_000_000_000

  function EchoCount(c: Context): (n: nat)
    ensures 0 < n < 0x1_0000_0000
  {
    if c.echoCount == 0 then 1 else c.echoCount
  }

  function RecvTimeout(c: Context): nat {
    if c.defaultTimeout == 0 then FIVE_SECONDS else c.defaultTimeout
  }

  function SrflxOf(p: Primitives, c: Context): Option<SocketAddr> {
    if "srflx" in c.scratch then p.readAddr(c.scratch["srflx"]) else None
  }

  function Latest(sendAt: nat -> nat, n: nat): nat {
    if n == 0 then 0 else if Latest(sendAt, n - 1) < sendAt(n - 1) then sendAt(n - 1) else Latest(sendAt, n - 1)
  }

  function SendTimes(sendAt: nat -> nat, n: nat): (times: seq<Option<nat>>)
    ensures |times| == n
  {
    seq(n, i requires 0 <= i < n => Some(sendAt(i)))
  }

  function EchoWindow(io: EchoIo, c: Context): Window
    requires c.turnSession.Some?
  {
    Window(c.turnSession.value.server, Latest(io.sendAt, EchoCount(c)) + RecvTimeout(c), SendTimes(io.sendAt, EchoCount(c)))
  }

  predicate AllSendsOk(io: EchoIo, n: nat) {
    forall i :: 0 <= i < n ==> io.sendOk(i)
  }

  function EchoStatus(received: nat, count: nat): Status {
    match VerdictOf(received, count)
    case NoneEchoed => Fail
    case AllEchoed => Pass
    case SomeEchoed => Warn
  }

  predicate PermissionGranted(p: Primitives, io: EchoIo) {
    io.permission.Reply? && ReadPermission(p, Cut(io.permission.data), io.txid) == Ok(Granted)
  }

  function EchoBody(p: Primitives, io: EchoIo, c: Context): CheckResult {
    if c.turnSession.None? then CheckResult(TURN_ECHO, Skip, NoSession)
    else if SrflxOf(p, c).None? then CheckResult(TURN_ECHO, Skip, NoSrflx)
    else if !io.permission.Reply? then CheckResult(TURN_ECHO, Fail, IoFailed)
    else if !PermissionGranted(p, io) then CheckResult(TURN_ECHO, Fail, BadResponse)
    else Measured(io, c)
  }

  /** The steps after the permission: send all packets, then collect. */
  function Measured(io: EchoIo, c: Context): CheckResult
    requires c.turnSession.Some?
  {
    if !AllSendsOk(io, EchoCount(c)) then CheckResult(TURN_ECHO, Fail, IoFailed)
    else
      var (tally, failed) := Collect(EchoWindow(io, c), Blank(EchoCount(c)), io.polls);
      if failed then CheckResult(TURN_ECHO, Fail, IoFailed)
      else CheckResult(TURN_ECHO, EchoStatus(tally.received, EchoCount(c)), Echoes(tally))
  }

  /** The CreatePermission request to the server, for our own reflexive address, on the allocation the session stands for. */
  function PermissionRequest(p: Primitives, io: EchoIo, c: Context): Option<Sent> {
    if c.turnSession.None? || SrflxOf(p, c).None? then None
    else
      var s := c.turnSession.value;
      Some(Sent(s.server, CreatePermission(p, io.txid, s.user, s.realm, s.nonce, s.key, SrflxOf(p, c).value)))
  }

  /** Packet 0 onwards to the relay: every one of them, or as far as the first whose send fails, and no further. */
  ghost predicate SentInOrder(io: EchoIo, relay: SocketAddr, count: nat, packets: seq<Sent>) {
    && |packets| <= count < 0x1_0000_0000
    && (forall i :: 0 <= i < |packets| ==> packets[i] == Sent(relay, EchoPayload(i)))
    && (forall i :: 0 <= i < |packets| - 1 ==> io.sendOk(i))
    && (AllSendsOk(io, count) ==> |packets| == count)
    && (!AllSendsOk(io, count) ==> packets != [] && !io.sendOk(|packets| - 1))
  }

  /** Sends the packets, recording when each went out; stops at the first failure. */
  method SendPackets(count: nat, relay: SocketAddr, io: EchoIo) returns (ok: bool, sendTimes: array<Option<nat>>, packets: seq<Sent>)
    requires count < 0x1_0000_0000
    ensures fresh(sendTimes)
    ensures ok <==> AllSendsOk(io, count)
    ensures sendTimes.Length == count && (ok ==> sendTimes[..] == SendTimes(io.sendAt, count))
    ensures SentInOrder(io, relay, count, packets)
  {
    hide EchoPayload;
    sendTimes := new Option<nat>[count](_ => None);
    packets := [];
    for s := 0 to count
      invariant |packets| == s && forall i :: 0 <= i < s ==> packets[i] == Sent(relay, EchoPayload(i))
      invariant forall i :: 0 <= i < s ==> io.sendOk(i) && sendTimes[i] == Some(io.sendAt(i))
    {
      var payload := MakePayload(s);
      var now := io.sendAt(s);
      packets := packets + [Sent(relay, payload)];
      if !io.sendOk(s) {
        ok := false;
        return;
      }
      sendTimes[s] := Some(now);
    }
    ok := true;
    assert sendTimes[..] == SendTimes(io.sendAt, count);
  }

  /** The latest of the recorded send times. */
  method LastSend(sendTimes: array<Option<nat>>, ghost sendAt: nat -> nat) returns (last: nat)
    requires sendTimes[..] == SendTimes(sendAt, sendTimes.Length)
    ensures last == Latest(sendAt, sendTimes.Length)
  {
    last := 0;
    for i := 0 to sendTimes.Length
      invariant last == Latest(sendAt, i)
    {
      assert sendTimes[i] == sendTimes[..][i];
      if sendTimes[i].Some? && last < sendTimes[i].value {
        last := sendTimes[i].value;
      }
    }
  }

  /** Sends `count` packets, then collects echoes until the deadline. */
  method MeasureEchoes(server: SocketAddr, relay: SocketAddr, count: nat, recvTimeout: nat, ghost ctx: ProbeContext, io: EchoIo)
    returns (r: CheckResult, packets: seq<Sent>)
    requires ctx.turnSession.Some? && server == ctx.turnSession.value.server
    requires count == EchoCount(ctx.Snapshot()) && recvTimeout == RecvTimeout(ctx.Snapshot())
    ensures r == Measured(io, ctx.Snapshot())
    ensures SentInOrder(io, relay, count, packets)
  {
    hide EchoPayload, Collect, Latest, SendTimes, AllSendsOk, Blank, SentInOrder;
    var ok, sendTimes, sent := SendPackets(count, relay, io);
    packets := sent;
    if !ok {
      return CheckResult(TURN_ECHO, Fail, IoFailed), packets;
    }
    var last := LastSend(sendTimes, io.sendAt);
    var rtts, received, duplicates, failed := CollectEchoes(server, last + recvTimeout, sendTimes, io.polls);
    if failed {
      return CheckResult(TURN_ECHO, Fail, IoFailed), packets;
    }
    var tally := Tally(rtts[..], received, duplicates);
    if received == 0 {
      r := CheckResult(TURN_ECHO, Fail, Echoes(tally));
    } else if received == count {
      r := CheckResult(TURN_ECHO, Pass, Echoes(tally));
    } else {
      r := CheckResult(TURN_ECHO, Warn, Echoes(tally));
    }
  }

  method RunTurnEcho(p: Primitives, ctx: ProbeContext, io: EchoIo) returns (r: CheckResult, permission: Option<Sent>, packets: seq<Sent>)
    ensures r == EchoBody(p, io, ctx.Snapshot())
    ensures permission == PermissionRequest(p, io, ctx.Snapshot())
    ensures if ctx.turnSession.Some? && SrflxOf(p, ctx.Snapshot()).Some? && PermissionGranted(p, io)
            then packets != [] && SentInOrder(io, ctx.turnSession.value.relayed, EchoCount(ctx.Snapshot()), packets)
            else packets == []
  {
    hide CreatePermission, EchoPayload, ReadPermission, Measured;
    permission, packets := None, [];
    if ctx.turnSession.None? {
      return CheckResult(TURN_ECHO, Skip, NoSession), permission, packets;
    }
    var session := ctx.turnSession.value;
    var srflx := if "srflx" in ctx.scratch then p.readAddr(ctx.scratch["srflx"]) else None;
    if srflx.None? {
      return CheckResult(TURN_ECHO, Skip, NoSrflx), permission, packets;
    }
    var recvTimeout := if ctx.defaultTimeout == 0 then FIVE_SECONDS else ctx.defaultTimeout;
    var count: nat := if ctx.echoCount == 0 then 1 else ctx.echoCount;
    var request := BuildCreatePermission(p, io.txid, session.user, session.realm, session.nonce, session.key, srflx.value);
    permission := Some(Sent(session.server, request));
    if io.permission.SendFailed? || io.permission.NoReply? {
      return CheckResult(TURN_ECHO, Fail, IoFailed), permission, packets;
    }
    var outcome := ReadPermission(p, Cut(io.permission.data), io.txid);
    if outcome.Err? || outcome.value.Refused? {
      return CheckResult(TURN_ECHO, Fail, BadResponse), permission, packets;
    }
    r, packets := MeasureEchoes(session.server, session.relayed, count, recvTimeout, ctx, io);
  }

  /** Once the collect loop starts every packet has a send time: the loop's branch for a missing one is unreachable. */
  lemma EveryPacketHasSendTime(io: EchoIo, c: Context)
    requires c.turnSession.Some?
    ensures AllSent(EchoWindow(io, c)) && |EchoWindow(io, c).sent| == EchoCount(c)
  {
  }

  lemma {:induction false} LatestIs(sendAt: nat -> nat, n: nat)
    ensures forall i :: 0 <= i < n ==> sendAt(i) <= Latest(sendAt, n)
    ensures n > 0 && Latest(sendAt, n) > 0 ==> exists i :: 0 <= i < n && sendAt(i) == Latest(sendAt, n)
  {
    if n > 0 {
      LatestIs(sendAt, n - 1);
    }
  }

  /**
   The check as a whole, once the permission is granted and every packet goes out,
   for every list of polls: a receive error before the deadline with packets still
   missing makes it fail; otherwise its status says whether all, some or none of
   the packets came back in time, and each recorded time is the first arrival's.
   */
  lemma EchoCheckOutcome(p: Primitives, io: EchoIo, c: Context)
    requires c.turnSession.Some? && SrflxOf(p, c).Some? && PermissionGranted(p, io) && AllSendsOk(io, EchoCount(c))
    ensures var w, r := EchoWindow(io, c), EchoBody(p, io, c);
            var timely := Timely(w, io.polls); var echoed := Echoed(w, timely);
            && AllSent(w) && |w.sent| == EchoCount(c)
            && (if BreaksOff(w, io.polls) && echoed != Below(EchoCount(c)) then r == CheckResult(TURN_ECHO, Fail, IoFailed)
                else && r.note.Echoes? && r.note.tally.received == |echoed|
                     && r.status == (if echoed == {} then Fail else if echoed == Below(EchoCount(c)) then Pass else Warn)
                     && |r.note.tally.rtts| == EchoCount(c)
                     && forall s :: 0 <= s < EchoCount(c) ==> r.note.tally.rtts[s] == FirstRtt(w, timely, s))
  {
    hide SrflxOf, ReadPermission, Collect, Echoed, Below, SendTimes, Latest, FirstRtt, Timely, BreaksOff;
    EveryPacketHasSendTime(io, c);
    var w := EchoWindow(io, c);
    CollectRefinesSet(w, io.polls);
    forall s | 0 <= s < |w.sent|
      ensures Collect(w, Blank(|w.sent|), io.polls).0.rtts[s] == FirstRtt(w, Timely(w, io.polls), s)
    {
      SlotsAreTimely(w, io.polls, s);
    }
    BelowIs(|w.sent|);
  }

  /** The timeout has not passed yet since some of the first `count` packets went out. */
  ghost predicate Within(sendAt: nat -> nat, count: nat, timeout: nat, now: nat) {
    exists k: nat :: k < count && now < sendAt(k) + timeout
  }

  /**
   Poll `i` is looked at: it and all before it are datagrams, each polled before the
   configured timeout, five seconds if there is none, has passed since some send.
   */
  ghost predicate InTime(io: EchoIo, c: Context, i: nat) {
    var timeout := if c.defaultTimeout == 0 then 5_000_000_000 else c.defaultTimeout;
    var count := if c.echoCount == 0 then 1 else c.echoCount;
    && i < |io.polls|
    && forall j :: 0 <= j <= i ==> io.polls[j].outcome.Datagram? && Within(io.sendAt, count, timeout, io.polls[j].now)
  }

  /** The deadline is one timeout after the latest send. */
  lemma DeadlineIs(io: EchoIo, c: Context, now: nat)
    requires c.turnSession.Some?
    ensures var timeout := if c.defaultTimeout == 0 then 5_000_000_000 else c.defaultTimeout;
            var count := if c.echoCount == 0 then 1 else c.echoCount;
            now < EchoWindow(io, c).deadline <==> Within(io.sendAt, count, timeout, now)
  {
    hide Latest;
    var count: nat := EchoCount(c);
    LatestIs(io.sendAt, count);
    if now < EchoWindow(io, c).deadline {
      if Latest(io.sendAt, count) == 0 {
        assert now < io.sendAt(0) + RecvTimeout(c);
      } else {
        var k :| 0 <= k < count && io.sendAt(k) == Latest(io.sendAt, count);
        assert now < io.sendAt(k) + RecvTimeout(c);
      }
    }
  }

  /** The polls that decide a check are exactly those in time. */
  lemma TimelyInTime(io: EchoIo, c: Context, i: nat)
    requires c.turnSession.Some?
    ensures i < |Timely(EchoWindow(io, c), io.polls)| <==> InTime(io, c, i)
  {
    hide EchoWindow, Timely, Within;
    TimelyIs(EchoWindow(io, c), io.polls, i);
    forall j | 0 <= j < |io.polls|
      ensures var timeout := if c.defaultTimeout == 0 then 5_000_000_000 else c.defaultTimeout;
              var count := if c.echoCount == 0 then 1 else c.echoCount;
              io.polls[j].now < EchoWindow(io, c).deadline <==> Within(io.sendAt, count, timeout, io.polls[j].now)
    {
      DeadlineIs(io, c, io.polls[j].now);
    }
  }

  /** A relay that returns every packet in time, wrapped in a Data Indication from the server, makes the check pass. */
  lemma WorkingRelayPasses(p: Primitives, io: EchoIo, c: Context, count: nat,
                           arrival: nat -> nat, txid: nat -> TxId, before: nat -> seq<Attr>, after: nat -> seq<Attr>)
    requires c.turnSession.Some? && SrflxOf(p, c).Some? && PermissionGranted(p, io)
    requires count == (if c.echoCount == 0 then 1 else c.echoCount) && AllSendsOk(io, count)
    requires forall s: nat :: s < count ==>
               && InTime(io, c, arrival(s)) && io.polls[arrival(s)].outcome.from == c.turnSession.value.server
               && WrapsAs(io.polls[arrival(s)].outcome.data, s, txid(s), before(s), after(s))
    ensures EchoBody(p, io, c).status == Pass
  {
    hide SrflxOf, ReadPermission, EchoBody, EchoSeq, Echoed, WrapsAs, Latest, Timely, BreaksOff, InTime;
    var w := EchoWindow(io, c);
    var timely := Timely(w, io.polls);
    EchoCheckOutcome(p, io, c);
    BelowIs(count);
    forall s: nat | s < count
      ensures s in Echoed(w, timely)
    {
      TimelyInTime(io, c, arrival(s));
      var o := timely[arrival(s)].outcome;
      assert timely[arrival(s)] == io.polls[arrival(s)];
      WrappedRecognised(o.data, s, txid(s), before(s), after(s));
      WrappedShort(o.data, s, txid(s), before(s), after(s));
      EchoedMembers(w, timely, s);
      assert EchoOf(w, o) == Some(s);
    }
    EchoedBelow(w, timely);
    assert 0 in Echoed(w, timely);
  }

  lemma WrappedShort(datagram: bytes, seqNo: u32, txid: TxId, before: seq<Attr>, after: seq<Attr>)
    requires WrapsAs(datagram, seqNo, txid, before, after)
    ensures Cut(datagram) == datagram
  {
  }

  /** Poll `i` brings the first valid echo of `s` in time. */
  ghost predicate FirstInTime(io: EchoIo, c: Context, s: nat, i: nat)
    requires c.turnSession.Some?
  {
    InTime(io, c, i) && FirstEcho(EchoWindow(io, c), io.polls, s, i)
  }

  /**
   Each slot the check records holds the time from that packet's own sending to its
   first valid echo in time, zero if the clock ran backwards in between, and is
   empty exactly when there is no such echo.
   */
  lemma EchoTimesExact(p: Primitives, io: EchoIo, c: Context, s: nat)
    requires c.turnSession.Some? && SrflxOf(p, c).Some? && PermissionGranted(p, io) && AllSendsOk(io, EchoCount(c))
    requires s < EchoCount(c)
    ensures var note := EchoBody(p, io, c).note;
            note.Echoes? ==>
              && |note.tally.rtts| == EchoCount(c)
              && match note.tally.rtts[s]
                 case None => forall i: nat :: !FirstInTime(io, c, s, i)
                 case Some(d) => exists i: nat :: FirstInTime(io, c, s, i) && Took(io.sendAt(s), io.polls[i].outcome.at, d)
  {
    hide EchoOf, Latest, FirstRtt, SrflxOf, PermissionGranted, EchoBody, Echoed, AllSendsOk, BreaksOff, Timely, Below, InTime;
    EveryPacketHasSendTime(io, c);
    EchoCheckOutcome(p, io, c);
    var w := EchoWindow(io, c);
    var timely := Timely(w, io.polls);
    assert w.sent[s] == Some(io.sendAt(s));
    assert forall i :: 0 <= i < |timely| ==> timely[i] == io.polls[i];
    FirstRttExact(w, timely, s);
    if FirstRtt(w, timely, s).Some? {
      var i: nat :| FirstEcho(w, timely, s, i) && Took(io.sendAt(s), timely[i].outcome.at, FirstRtt(w, timely, s).value);
      TimelyInTime(io, c, i);
      assert FirstInTime(io, c, s, i);
    } else {
      forall i: nat
        ensures !FirstInTime(io, c, s, i)
      {
        TimelyInTime(io, c, i);
      }
    }
  }

  /** What a check needs and does not find in the context makes it a skip, never a failure, and it then leaves the context alone. */
  lemma GuardsSkip(p: Primitives, lookup: Option<seq<Ip>>, stunIo: StunIo, allocIo: AllocIo, tlsIo: TlsIo, echoIo: EchoIo, c: Context)
    ensures c.host.None? ==> DnsBody(lookup, c) == (CheckResult(DNS, Skip, NoHost), c)
    ensures c.port.None? || c.resolvedIps == [] ==>
              && StunBody(p, stunIo, c).0.status == Skip && StunBody(p, stunIo, c).1 == c
              && AllocBody(p, allocIo, c).0.status == Skip && AllocBody(p, allocIo, c).1 == c
    ensures c.port.None? || c.resolvedIps == [] || c.host.None? ==>
              TurnsBody(p, tlsIo, c).0.status == Skip && TurnsBody(p, tlsIo, c).1 == c
    ensures c.turnSession.None? ==> EchoBody(p, echoIo, c) == CheckResult(TURN_ECHO, Skip, NoSession)
    ensures c.turnSession.Some? && SrflxOf(p, c).None? ==> EchoBody(p, echoIo, c) == CheckResult(TURN_ECHO, Skip, NoSrflx)
  {
    hide Exchange, ParseBindingResponse, ReadPermission;
  }

  /** Without a granted permission, or with a send that fails, the check fails; it says which of the three it was. */
  lemma EchoFailsEarly(p: Primitives, io: EchoIo, c: Context)
    requires c.turnSession.Some? && SrflxOf(p, c).Some?
    requires !PermissionGranted(p, io) || !AllSendsOk(io, EchoCount(c))
    ensures EchoBody(p, io, c) ==
            CheckResult(TURN_ECHO, Fail, if io.permission.Reply? && !PermissionGranted(p, io) then BadResponse else IoFailed)
  {
    hide SrflxOf, ReadPermission;
  }

  /** On the wire: a CreatePermission success for this transaction, with all the bytes it declares. */
  ghost predicate Permits(data: bytes, txid: TxId) {
    exists n: u16 :: |data| >= HEADER_LENGTH + n && data[..HEADER_LENGTH] == HeaderBytes(CREATE_PERMISSION_SUCCESS, n, txid)
  }

  /** On the wire: a CreatePermission error for this transaction whose first ERROR-CODE says `code`. */
  predicate Denies(data: bytes, txid: TxId, code: u16) {
    var r := Decode(data, txid);
    && r.Ok? && r.value.0.msgType == CREATE_PERMISSION_ERROR
    && var ec := First(r.value.1, ERROR_CODE); ec.Some? && |ec.value| >= 4 && ErrorNumber(ec.value) == code
  }

  /** The permission is taken as granted or refused exactly when the reply says so. */
  lemma PermissionIsRead(p: Primitives, data: bytes, txid: TxId, code: u16)
    ensures ReadPermission(p, data, txid) == Ok(Granted) <==> Permits(data, txid)
    ensures ReadPermission(p, data, txid) == Ok(Refused(code)) <==> Denies(data, txid, code)
  {
    hide Section, HeaderBytes, First;
    var r := ParseHeader(data, txid);
    if ReadPermission(p, data, txid) == Ok(Granted) {
      HeaderAccepted(data, txid, CREATE_PERMISSION_SUCCESS, r.value.attrsLen);
    }
    if Permits(data, txid) {
      var n: u16 :| |data| >= HEADER_LENGTH + n && data[..HEADER_LENGTH] == HeaderBytes(CREATE_PERMISSION_SUCCESS, n, txid);
      HeaderAccepted(data, txid, CREATE_PERMISSION_SUCCESS, n);
    }
  }

  // ----- ice.gather -----

  datatype Iface = Iface(name: string, ip: Ip)

  predicate UsefulHost(ip: Ip) {
    match ip
    case V4(bits) =>
      var first, second := bits / 0x100_0000, bits / 0x1_0000 % 0x100;
      && first != 127 && !(first == 169 && second == 254) && bits != 0 && !(224 <= first < 240) && bits != 0xFFFF_FFFF
    case V6(o) =>
      && o != [0, 0, 0, 0, 0, 0, 0, 0, 0, 0, 0, 0, 0, 0, 0, 1] && o != [0, 0, 0, 0, 0, 0, 0, 0, 0, 0, 0, 0, 0, 0, 0, 0]
      && o[0] != 0xFF && !(o[0] == 0xFE && 0x80 <= o[1] < 0xC0)
  }

  /** The addresses kept are those outside loopback, link-local, unspecified, multicast and broadcast ranges. */
  lemma UsefulV4Ranges(bits: u32)
    ensures UsefulHost(V4(bits)) <==>
            && !(0x7F00_0000 <= bits <= 0x7FFF_FFFF) && !(0xA9FE_0000 <= bits <= 0xA9FE_FFFF)
            && bits != 0 && !(0xE000_0000 <= bits <= 0xEFFF_FFFF) && bits != 0xFFFF_FFFF
  {
    var first, second, low := bits / 0x100_0000, bits / 0x1_0000 % 0x100, bits % 0x1_0000;
    assert bits == 0x100_0000 * first + 0x1_0000 * second + low;
  }

  /** The same for IPv6: outside link-local fe80::/10, multicast ff00::/8, `::` and `::1`. */
  lemma UsefulV6Ranges(octets: Octets)
    ensures UsefulHost(V6(octets)) <==>
            && !(0xFE80 <= U16At(octets, 0) <= 0xFEBF) && U16At(octets, 0) < 0xFF00
            && !(octets[15] <= 1 && forall i :: 0 <= i < 15 ==> octets[i] == 0)
  {
    var loopback, unspecified := seq(15, _ => 0) + [1], seq(15, _ => 0) + [0];
    assert loopback == [0, 0, 0, 0, 0, 0, 0, 0, 0, 0, 0, 0, 0, 0, 0, 1];
    assert unspecified == [0, 0, 0, 0, 0, 0, 0, 0, 0, 0, 0, 0, 0, 0, 0, 0];
    if octets[15] <= 1 && forall i :: 0 <= i < 15 ==> octets[i] == 0 {
      assert octets == if octets[15] == 1 then loopback else unspecified;
    } else {
      assert octets != loopback && octets != unspecified by {
        assert forall i :: 0 <= i < 15 ==> loopback[i] == 0 && unspecified[i] == 0;
      }
    }
  }

  function HostCandidates(ifaces: seq<Iface>): seq<Candidate> {
    if ifaces == [] then []
    else
      var n := |ifaces| - 1;
      HostCandidates(ifaces[..n]) + if UsefulHost(ifaces[n].ip) then [Candidate("host", ifaces[n].ip, 0, Some(ifaces[n].name))] else []
  }

  function Candidates(p: Primitives, ifaces: seq<Iface>, c: Context): seq<Candidate> {
    HostCandidates(ifaces)
    + (if SrflxOf(p, c).Some? then [Candidate("srflx", SrflxOf(p, c).value.ip, SrflxOf(p, c).value.port, None)] else [])
    + (if c.turnSession.Some? then [Candidate("relay", c.turnSession.value.relayed.ip, c.turnSession.value.relayed.port, None)] else [])
  }

  function CountOf(cands: seq<Candidate>, kind: string): nat {
    if cands == [] then 0
    else
      var n := |cands| - 1;
      CountOf(cands[..n], kind) + (if cands[n].kind == kind then 1 else 0)
  }

  method CountKinds(cands: seq<Candidate>) returns (k: KindCounts)
    ensures k == KindCounts(CountOf(cands, "host"), CountOf(cands, "srflx"), CountOf(cands, "relay"))
  {
    k := KindCounts(0, 0, 0);
    for i := 0 to |cands|
      invariant k == KindCounts(CountOf(cands[..i], "host"), CountOf(cands[..i], "srflx"), CountOf(cands[..i], "relay"))
    {
      assert cands[..i + 1][..i] == cands[..i];
      if cands[i].kind == "host" {
        k := k.(host := k.host + 1);
      } else if cands[i].kind == "srflx" {
        k := k.(srflx := k.srflx + 1);
      } else if cands[i].kind == "relay" {
        k := k.(relay := k.relay + 1);
      }
    }
    assert cands[..|cands|] == cands;
  }

  function IceBody(p: Primitives, ifaces: Option<seq<Iface>>, c: Context): CheckResult {
    if ifaces.None? then CheckResult(ICE, Fail, IoFailed)
    else
      var cands := Candidates(p, ifaces.value, c);
      if cands == [] then CheckResult(ICE, Warn, NoCandidates)
      else CheckResult(ICE, Pass, Gathered(cands, KindCounts(CountOf(cands, "host"), CountOf(cands, "srflx"), CountOf(cands, "relay"))))
  }

  method RunIceGather(p: Primitives, ctx: ProbeContext, ifaces: Option<seq<Iface>>) returns (r: CheckResult)
    ensures r == IceBody(p, ifaces, ctx.Snapshot())
  {
    if ifaces.None? {
      return CheckResult(ICE, Fail, IoFailed);
    }
    var candidates: seq<Candidate> := [];
    for k := 0 to |ifaces.value|
      invariant candidates == HostCandidates(ifaces.value[..k])
    {
      assert ifaces.value[..k + 1][..k] == ifaces.value[..k];
      var ifa := ifaces.value[k];
      if !UsefulHost(ifa.ip) {
        continue;
      }
      candidates := candidates + [Candidate("host", ifa.ip, 0, Some(ifa.name))];
    }
    assert ifaces.value[..|ifaces.value|] == ifaces.value;
    var c := ctx.Snapshot();
    if "srflx" in ctx.scratch {
      var addr := p.readAddr(ctx.scratch["srflx"]);
      if addr.Some? {
        candidates := candidates + [Candidate("srflx", addr.value.ip, addr.value.port, None)];
      }
    }
    if ctx.turnSession.Some? {
      var relayed := ctx.turnSession.value.relayed;
      candidates := candidates + [Candidate("relay", relayed.ip, relayed.port, None)];
    }
    assert candidates == Candidates(p, ifaces.value, c);
    var counts := CountKinds(candidates);
    r := if candidates == [] then CheckResult(ICE, Warn, NoCandidates) else CheckResult(ICE, Pass, Gathered(candidates, counts));
  }

  /** An address another host may reach: not in the ranges of `UsefulV4Ranges` and `UsefulV6Ranges`. */
  predicate Reachable(ip: Ip) {
    match ip
    case V4(bits) =>
      && !(0x7F00_0000 <= bits <= 0x7FFF_FFFF) && !(0xA9FE_0000 <= bits <= 0xA9FE_FFFF)
      && bits != 0 && !(0xE000_0000 <= bits <= 0xEFFF_FFFF) && bits != 0xFFFF_FFFF
    case V6(octets) =>
      && !(0xFE80 <= U16At(octets, 0) <= 0xFEBF) && U16At(octets, 0) < 0xFF00
      && !(octets[15] <= 1 && forall i :: 0 <= i < 15 ==> octets[i] == 0)
  }

  /** `kept` are the positions, in order, of the interfaces with a reachable address. */
  ghost predicate Keeps(ifaces: seq<Iface>, kept: seq<nat>) {
    && (forall k :: 0 <= k < |kept| ==> kept[k] < |ifaces|)
    && (forall j, k :: 0 <= j < k < |kept| ==> kept[j] < kept[k])
    && (forall i: nat :: i < |ifaces| ==> (i in kept <==> Reachable(ifaces[i].ip)))
  }

  /** One host candidate per position, with that interface's address and name and no port. */
  function HostsAt(ifaces: seq<Iface>, kept: seq<nat>): (hosts: seq<Candidate>)
    requires forall k :: 0 <= k < |kept| ==> kept[k] < |ifaces|
    ensures |hosts| == |kept|
  {
    seq(|kept|, k requires 0 <= k < |kept| => Candidate("host", ifaces[kept[k]].ip, 0, Some(ifaces[kept[k]].name)))
  }

  lemma ReachableIsUseful(ip: Ip)
    ensures Reachable(ip) <==> UsefulHost(ip)
  {
    match ip
    case V4(bits) => UsefulV4Ranges(bits);
    case V6(octets) => UsefulV6Ranges(octets);
  }

  lemma {:induction false} HostsKept(ifaces: seq<Iface>) returns (kept: seq<nat>)
    ensures Keeps(ifaces, kept) && HostCandidates(ifaces) == HostsAt(ifaces, kept)
  {
    hide UsefulHost, Reachable;
    kept := [];
    if ifaces != [] {
      var n := |ifaces| - 1;
      var front := ifaces[..n];
      kept := HostsKept(front);
      ghost var before := kept;
      assert HostsAt(ifaces, before) == HostsAt(front, before);
      assert n !in before;
      assert forall i :: 0 <= i < n ==> ifaces[i] == front[i];
      ReachableIsUseful(ifaces[n].ip);
      if Reachable(ifaces[n].ip) {
        kept := before + [n];
        assert HostsAt(ifaces, kept) == HostsAt(ifaces, before) + [Candidate("host", ifaces[n].ip, 0, Some(ifaces[n].name))];
      } else {
        assert HostCandidates(ifaces) == HostCandidates(front) + [];
      }
    }
  }

  /**
   What the check lists: one host candidate for each interface with a reachable
   address, in the order of the interfaces, then the reflexive address and the
   session's relay if there are any; it warns exactly when that list is empty, and
   fails when the interfaces cannot be read.
   */
  lemma IceListing(p: Primitives, ifaces: seq<Iface>, c: Context)
    ensures exists kept :: Keeps(ifaces, kept) && Lists(p, ifaces, kept, c, IceBody(p, Some(ifaces), c))
    ensures IceBody(p, None, c) == CheckResult(ICE, Fail, IoFailed)
  {
    var kept := HostsKept(ifaces);
    CountOfHosts(ifaces);
    GatheredCounts(p, ifaces, c);
    hide HostCandidates, CountOf, HostsAt, Reachable;
    assert Lists(p, ifaces, kept, c, IceBody(p, Some(ifaces), c));
  }

  predicate Lists(p: Primitives, ifaces: seq<Iface>, kept: seq<nat>, c: Context, r: CheckResult)
    requires forall k :: 0 <= k < |kept| ==> kept[k] < |ifaces|
  {
    var srflx := match SrflxOf(p, c) case Some(a) => [Candidate("srflx", a.ip, a.port, None)] case None => [];
    var relay := match c.turnSession case Some(s) => [Candidate("relay", s.relayed.ip, s.relayed.port, None)] case None => [];
    var all := HostsAt(ifaces, kept) + srflx + relay;
    r == if all == [] then CheckResult(ICE, Warn, NoCandidates)
         else CheckResult(ICE, Pass, Gathered(all, KindCounts(|kept|, |srflx|, |relay|)))
  }

  lemma {:induction false} CountOfHosts(ifaces: seq<Iface>)
    ensures var hosts := HostCandidates(ifaces);
            CountOf(hosts, "host") == |hosts| && CountOf(hosts, "srflx") == 0 && CountOf(hosts, "relay") == 0
  {
    if ifaces != [] {
      var n := |ifaces| - 1;
      CountOfHosts(ifaces[..n]);
      var front := HostCandidates(ifaces[..n]);
      if UsefulHost(ifaces[n].ip) {
        assert HostCandidates(ifaces)[..|front|] == front;
      } else {
        assert HostCandidates(ifaces) == front;
      }
    }
  }

  lemma CountOneMore(cands: seq<Candidate>, a: Candidate, kind: string)
    ensures CountOf(cands + [a], kind) == CountOf(cands, kind) + (if a.kind == kind then 1 else 0)
  {
  }

  /** The three counts add up to the candidate total; srflx and relay are counted once, exactly when the context has them. */
  lemma GatheredCounts(p: Primitives, ifaces: seq<Iface>, c: Context)
    ensures var cands := Candidates(p, ifaces, c);
            && CountOf(cands, "host") + CountOf(cands, "srflx") + CountOf(cands, "relay") == |cands|
            && CountOf(cands, "srflx") == (if SrflxOf(p, c).Some? then 1 else 0)
            && CountOf(cands, "relay") == (if c.turnSession.Some? then 1 else 0)
  {
    CountOfHosts(ifaces);
    var hosts := HostCandidates(ifaces);
    hide CountOf, HostCandidates, SrflxOf;
    var some := hosts;
    if SrflxOf(p, c).Some? {
      var a := Candidate("srflx", SrflxOf(p, c).value.ip, SrflxOf(p, c).value.port, None);
      CountOneMore(some, a, "host");
      CountOneMore(some, a, "srflx");
      CountOneMore(some, a, "relay");
      some := some + [a];
    }
    assert some ==
           hosts + (if SrflxOf(p, c).Some? then [Candidate("srflx", SrflxOf(p, c).value.ip, SrflxOf(p, c).value.port, None)] else []);
    if c.turnSession.Some? {
      var a := Candidate("relay", c.turnSession.value.relayed.ip, c.turnSession.value.relayed.port, None);
      CountOneMore(some, a, "host");
      CountOneMore(some, a, "srflx");
      CountOneMore(some, a, "relay");
      some := some + [a];
    }
    assert Candidates(p, ifaces, c) == some;
  }
}
