/**
 The `turn` command from end to end: what resolver, STUN server and TURN server do
 decides what its four checks say.
 */
module TurnCommand {
  import opened Words
  import opened Wrappers
  import opened StunTypes
  import opened Primitives
  import opened StunCodec
  import opened TurnCodec
  import opened Requests
  import opened AllocateResponse
  import opened Binding
  import opened DataIndication
  import opened Handshake
  import opened EchoLoop
  import opened Context
  import opened Checks
  import opened Pipeline

  /** Dns, binding and allocation, as several commands start, and one more check. */
  function Probing(lookup: Option<seq<Ip>>, stunIo: StunIo, allocIo: AllocIo, last: Check): seq<Check> {
    [Dns(lookup), StunBinding(stunIo), TurnAllocate(allocIo), last]
  }

  /** The order of the `turn` command: dns, binding, allocation, echo. */
  function Command(lookup: Option<seq<Ip>>, stunIo: StunIo, allocIo: AllocIo, echoIo: EchoIo): seq<Check> {
    Probing(lookup, stunIo, allocIo, TurnEcho(echoIo))
  }

  // ----- what the outside world does -----

  predicate Resolves(lookup: Option<seq<Ip>>) {
    lookup.Some? && lookup.value != []
  }

  /** A reply arrives whose first mapped address says some address. */
  ghost predicate BindingWorks(io: StunIo) {
    io.bindOk && io.round.Reply? && exists addr :: Reflects(Cut(io.round.data), io.txid, addr)
  }

  /** The first reply is a grant of the first transaction: the server does not ask for credentials. */
  ghost predicate GrantsAtOnce(io: AllocIo) {
    io.bindOk && io.round1.Reply? && GivesRelay(Cut(io.round1.data), io.txid1)
  }

  /** The first reply challenges, the command has credentials, and the second reply is a grant of the second transaction. */
  ghost predicate Authenticates(io: AllocIo, c: Context) {
    && io.bindOk && io.round1.Reply? && Challenges(Cut(io.round1.data), io.txid1)
    && c.turnUser.Some? && c.turnPass.Some?
    && io.round2.Reply? && GivesRelay(Cut(io.round2.data), io.txid2)
  }

  lemma DnsStage(lookup: Option<seq<Ip>>, c: Context)
    requires Fresh(c)
    ensures var (r, next) := DnsBody(lookup, c);
            && (r.status == Pass <==> Resolves(lookup))
            && (Resolves(lookup) ==> next == c.(resolvedIps := Distinct(lookup.value)) && next.resolvedIps != [])
  {
    DistinctOf(if lookup.Some? then lookup.value else []);
  }

  lemma StunStage(p: Primitives, io: StunIo, c: Context)
    requires c.port.Some? && c.resolvedIps != []
    ensures var (r, next) := StunBody(p, io, c);
            (r.status == Pass <==> BindingWorks(io)) && next == c.(scratch := next.scratch)
  {
    hide ParseBindingResponse, Reflects;
    if io.round.Reply? {
      var data := Cut(io.round.data);
      forall addr
        ensures Reflects(data, io.txid, addr) <==> ParseBindingResponse(data, io.txid) == Ok(addr)
      {
        ReflectsIsRead(data, io.txid, addr);
      }
      var r := ParseBindingResponse(data, io.txid);
      assert r.Ok? ==> Reflects(data, io.txid, r.value);
    }
  }

  lemma AllocStage(p: Primitives, io: AllocIo, c: Context)
    requires c.port.Some? && c.resolvedIps != []
    ensures var r := AllocBody(p, io, c).0;
            (AnonymousPass(r) <==> GrantsAtOnce(io)) && (LeavesSession(r) <==> Authenticates(io, c))
  {
    hide Exchange, GivesRelay, Challenges, Grants;
    CredentialsOnlyAfterChallenge(p, c.turnUser, c.turnPass, io.txid1, io.txid2, OverUdp(io.round1), OverUdp(io.round2));
  }

  /** Host names resolve, so binding and allocation run, each on the resolved addresses and the command's credentials. */
  lemma Stages(p: Primitives, lookup: Option<seq<Ip>>, stunIo: StunIo, allocIo: AllocIo, last: Check, c: Context)
    requires Fresh(c)
    ensures var run := RunFrom(p, Probing(lookup, stunIo, allocIo, last), c, {});
            && |run.results| == 4 && |run.contexts| == 5
            && (run.results[0].status == Pass <==> Resolves(lookup))
            && (if Resolves(lookup)
                then && run.contexts[1] == c.(resolvedIps := Distinct(lookup.value)) && run.contexts[1].resolvedIps != []
                     && (run.results[1], run.contexts[2]) == StunBody(p, stunIo, run.contexts[1])
                     && run.contexts[2] == run.contexts[1].(scratch := run.contexts[2].scratch)
                     && (run.results[2], run.contexts[3]) == AllocBody(p, allocIo, run.contexts[2])
                else && run.results[1].note.Missing? && run.results[2].note.Missing?
                     && run.results[1].status == Skip && run.results[2].status == Skip)
  {
    hide RunFrom, Perform, DnsBody, StunBody, AllocBody, Resolves, Distinct, BindingWorks;
    var checks := Probing(lookup, stunIo, allocIo, last);
    var run := RunFrom(p, checks, c, {});
    DnsRuns(p, checks, c);
    AfterDns(p, checks, c, 1);
    AfterDns(p, checks, c, 2);
    DnsStage(lookup, c);
    PerformIs(p, checks[0], c);
    PerformIs(p, checks[1], run.contexts[1]);
    PerformIs(p, checks[2], run.contexts[2]);
    if Resolves(lookup) {
      StunStage(p, stunIo, run.contexts[1]);
    }
  }

  lemma PerformIs(p: Primitives, check: Check, c: Context)
    ensures match check
            case Dns(lookup) => Perform(p, check, c) == DnsBody(lookup, c)
            case StunBinding(io) => Perform(p, check, c) == StunBody(p, io, c)
            case TurnAllocate(io) => Perform(p, check, c) == AllocBody(p, io, c)
            case TurnEcho(io) => Perform(p, check, c) == (EchoBody(p, io, c), c)
            case TurnsAllocate(io) => Perform(p, check, c) == TurnsBody(p, io, c)
            case IceGather(ifaces) => Perform(p, check, c) == (IceBody(p, ifaces, c), c)
            case Custom(_, _, behave) => Perform(p, check, c) == behave(c)
  {
    hide DnsBody, StunBody, AllocBody, TurnsBody, EchoBody, IceBody;
  }

  lemma DnsRuns(p: Primitives, checks: seq<Check>, c: Context)
    requires checks != [] && checks[0].Dns?
    ensures var run := RunFrom(p, checks, c, {});
            WellFormed(checks, run) && (run.results[0], run.contexts[1]) == Perform(p, checks[0], c)
  {
    hide RunFrom, Turn;
    RunLengths(p, checks, c, {});
    RunAt(p, checks, c, {}, 0);
    FirstNeedsNothing(p, checks[0], c, {} + PassedBefore(checks, RunFrom(p, checks, c, {}).results, 0));
  }

  lemma FirstNeedsNothing(p: Primitives, check: Check, c: Context, passed: set<string>)
    requires check.Requires() == []
    ensures Turn(p, check, c, passed) == Perform(p, check, c)
  {
    hide Perform;
  }

  /** A check that needs dns only, in a pipeline where dns comes first and only once. */
  lemma AfterDns(p: Primitives, checks: seq<Check>, c: Context, i: nat)
    requires 0 < i < |checks| && checks[0].Id() == DNS && checks[i].Requires() == [DNS] && forall j :: 0 < j < i ==> checks[j].Id() != DNS
    ensures var run := RunFrom(p, checks, c, {});
            && WellFormed(checks, run)
            && (if run.results[0].status == Pass then (run.results[i], run.contexts[i + 1]) == Perform(p, checks[i], run.contexts[i])
                else run.results[i].status == Skip && run.results[i].note.Missing? && run.contexts[i + 1] == run.contexts[i])
  {
    hide RunFrom, Perform;
    Gating(p, checks, c, i);
    var run := RunFrom(p, checks, c, {});
    assert PassedEarlier(checks, run, i, DNS) <==> run.results[0].status == Pass;
    assert DNS in checks[i].Requires();
  }

  /** What the results of binding and allocation say, in terms of the network's behaviour. */
  lemma Inputs(p: Primitives, lookup: Option<seq<Ip>>, stunIo: StunIo, allocIo: AllocIo, last: Check, c: Context)
    requires Fresh(c)
    ensures var run := RunFrom(p, Probing(lookup, stunIo, allocIo, last), c, {});
            && |run.results| == 4
            && (run.results[1].status == Pass <==> Resolves(lookup) && BindingWorks(stunIo))
            && (AnonymousPass(run.results[2]) <==> Resolves(lookup) && GrantsAtOnce(allocIo))
            && (LeavesSession(run.results[2]) <==> Resolves(lookup) && Authenticates(allocIo, c))
  {
    hide RunFrom, StunBody, AllocBody, BindingWorks, GrantsAtOnce, GivesRelay, Challenges, Resolves, Probing;
    var run := RunFrom(p, Probing(lookup, stunIo, allocIo, last), c, {});
    Stages(p, lookup, stunIo, allocIo, last, c);
    if Resolves(lookup) {
      StunStage(p, stunIo, run.contexts[1]);
      AllocStage(p, allocIo, run.contexts[2]);
    }
  }

  /** The echo check of this command, in terms of the two results before it. */
  lemma EchoAfter(p: Primitives, lookup: Option<seq<Ip>>, stunIo: StunIo, allocIo: AllocIo, echoIo: EchoIo, c: Context)
    requires p.ReadsBack() && Fresh(c)
    ensures var run := RunFrom(p, Command(lookup, stunIo, allocIo, echoIo), c, {});
            && |run.results| == 4
            && (run.results[3].note.Missing? <==>
                  run.results[1].status != Pass || !(LeavesSession(run.results[2]) || AnonymousPass(run.results[2])))
  {
    hide RunFrom, SrflxOf, Perform, LeavesSession, AnonymousPass, PassedBefore, MissingOf, Defensive;
    var checks := Command(lookup, stunIo, allocIo, echoIo);
    var run := RunFrom(p, checks, c, {});
    ReachableGuards(p, checks, c, 2);
    ReachableGuards(p, checks, c, 3);
    assert checks[1].Id() == STUN && checks[2].Id() == TURN_UDP && checks[3].Requires() == [TURN_UDP, STUN];
    assert PassedEarlier(checks, run, 3, STUN) <==> run.results[1].status == Pass;
    assert PassedEarlier(checks, run, 3, TURN_UDP) <==> run.results[2].status == Pass;
    assert TURN_UDP in checks[3].Requires() && STUN in checks[3].Requires();
  }

  lemma SessionAfter(p: Primitives, lookup: Option<seq<Ip>>, stunIo: StunIo, allocIo: AllocIo, echoIo: EchoIo, c: Context)
    requires p.ReadsBack() && Fresh(c)
    ensures var run := RunFrom(p, Command(lookup, stunIo, allocIo, echoIo), c, {});
            && |run.results| == 4 && |run.contexts| == 5
            && (run.results[3].note == NoSession <==> !run.results[3].note.Missing? && !LeavesSession(run.results[2]))
            && (run.contexts[4].turnSession.Some? <==> LeavesSession(run.results[2]))
  {
    hide RunFrom, SrflxOf, Perform, PassedBefore, PassedEarlier;
    var checks := Command(lookup, stunIo, allocIo, echoIo);
    var run := RunFrom(p, checks, c, {});
    RunSupplies(p, checks, c, 4);
    ReachableGuards(p, checks, c, 0);
    ReachableGuards(p, checks, c, 1);
    ReachableGuards(p, checks, c, 3);
    assert checks[0].Id() == DNS && checks[1].Id() == STUN && checks[3].Id() == TURN_ECHO;
    assert !LeavesSession(run.results[0]) && !LeavesSession(run.results[1]) && !LeavesSession(run.results[3]);
  }

  /**
   In the `turn` command, from what resolver, STUN server and TURN server do: the
   echo check is skipped for want of a session exactly when the name resolves,
   binding works and the server grants a relay at once; it works on a session
   exactly when the name resolves, binding works and the exchange authenticates;
   a session is left exactly when the exchange authenticates.
   */
  lemma CommandOutcome(p: Primitives, lookup: Option<seq<Ip>>, stunIo: StunIo, allocIo: AllocIo, echoIo: EchoIo, c: Context)
    requires p.ReadsBack() && Fresh(c)
    ensures var run := RunFrom(p, Command(lookup, stunIo, allocIo, echoIo), c, {});
            && |run.results| == 4 && |run.contexts| == 5
            && (run.results[3].note == NoSession <==> Resolves(lookup) && BindingWorks(stunIo) && GrantsAtOnce(allocIo))
            && (!run.results[3].note.Missing? && run.results[3].note != NoSession <==>
                  Resolves(lookup) && BindingWorks(stunIo) && Authenticates(allocIo, c))
            && (run.contexts[4].turnSession.Some? <==> Resolves(lookup) && Authenticates(allocIo, c))
  {
    hide RunFrom, Probing, Resolves, BindingWorks, GrantsAtOnce, Authenticates;
    Inputs(p, lookup, stunIo, allocIo, TurnEcho(echoIo), c);
    EchoAfter(p, lookup, stunIo, allocIo, echoIo, c);
    SessionAfter(p, lookup, stunIo, allocIo, echoIo, c);
  }

  // ----- runs that reach the echo check -----

  /** The plainest answer of a STUN server that reports `addr`, and of a TURN server that grants `addr`. */
  function AddressReply(msgType: u16, attrType: u16, txid: TxId, addr: SocketAddr): bytes {
    Message(msgType, txid, [Attr(attrType, XorAddressBytes(addr, txid))])
  }

  lemma AddressReplyRead(msgType: u16, attrType: u16, txid: TxId, addr: SocketAddr)
    ensures var data := AddressReply(msgType, attrType, txid, addr); var r := Decode(data, txid);
            Cut(data) == data && r.Ok? && r.value.0.msgType == msgType && r.value.1 == [Attr(attrType, XorAddressBytes(addr, txid))]
  {
    var value := XorAddressBytes(addr, txid);
    assert |value| <= 20;
    PaddingAligns(|value|);
    hide XorAddressBytes, Tlv, Tlvs, Padding, AsU16, Decode;
    OneTlv(attrType, value);
    MessageRoundTrip(msgType, txid, [Attr(attrType, value)]);
  }

  lemma BindingReplyWorks(txid: TxId, addr: SocketAddr)
    ensures Reflects(Cut(AddressReply(BINDING_SUCCESS, XOR_MAPPED_ADDRESS, txid, addr)), txid, addr)
  {
    hide XorAddressBytes, XorAddress, Decode, AddressReply, Cut, ParseBindingResponse, Reflects;
    ReflectsIsRead(AddressReply(BINDING_SUCCESS, XOR_MAPPED_ADDRESS, txid, addr), txid, addr);
    var data := AddressReply(BINDING_SUCCESS, XOR_MAPPED_ADDRESS, txid, addr);
    AddressReplyRead(BINDING_SUCCESS, XOR_MAPPED_ADDRESS, txid, addr);
    ParsedByDecode(data, txid);
    XorAddressRoundTrip(addr, txid);
  }

  lemma GrantReplyRead(p: Primitives, txid: TxId, addr: SocketAddr)
    ensures ReadAllocate(p, Cut(AddressReply(ALLOCATE_SUCCESS, XOR_RELAYED_ADDRESS, txid, addr)), txid) == Ok(Success(addr, 0))
    ensures GivesRelay(Cut(AddressReply(ALLOCATE_SUCCESS, XOR_RELAYED_ADDRESS, txid, addr)), txid)
  {
    hide XorAddressBytes, XorAddress, Decode, AddressReply, Cut, ReadSuccess, GivesRelay, Grants;
    GrantIsRead(p, AddressReply(ALLOCATE_SUCCESS, XOR_RELAYED_ADDRESS, txid, addr), txid);
    var attrs := [Attr(XOR_RELAYED_ADDRESS, XorAddressBytes(addr, txid))];
    AddressReplyRead(ALLOCATE_SUCCESS, XOR_RELAYED_ADDRESS, txid, addr);
    XorAddressRoundTrip(addr, txid);
    GrantOnce(attrs, txid);
    assert First(attrs, LIFETIME) == First(attrs[1..], LIFETIME) == None;
  }

  /**
   The guard for a missing session is reached: a name that resolves, a STUN server
   that reports any address, and a TURN server that grants any relay without a
   challenge make the first three checks pass and the echo check stop at it.
   */
  lemma NoSessionReached(p: Primitives, c: Context, ip: Ip, txid: TxId, addr: SocketAddr, txid1: TxId, relay: SocketAddr,
                         txid2: TxId, round2: Round, echoIo: EchoIo)
    requires p.ReadsBack() && Fresh(c)
    ensures var stunIo := StunIo(true, txid, Reply(AddressReply(BINDING_SUCCESS, XOR_MAPPED_ADDRESS, txid, addr)));
            var allocIo := AllocIo(true, txid1, Reply(AddressReply(ALLOCATE_SUCCESS, XOR_RELAYED_ADDRESS, txid1, relay)), txid2, round2);
            var results := RunFrom(p, Command(Some([ip]), stunIo, allocIo, echoIo), c, {}).results;
            && |results| == 4
            && results[0].status == Pass && results[1].status == Pass && results[2].status == Pass && AnonymousPass(results[2])
            && results[3].note == NoSession
  {
    hide RunFrom, AddressReply, Probing, Cut, StunBody, AllocBody, Reflects, GivesRelay;
    var stunIo := StunIo(true, txid, Reply(AddressReply(BINDING_SUCCESS, XOR_MAPPED_ADDRESS, txid, addr)));
    var allocIo := AllocIo(true, txid1, Reply(AddressReply(ALLOCATE_SUCCESS, XOR_RELAYED_ADDRESS, txid1, relay)), txid2, round2);
    BindingReplyWorks(txid, addr);
    GrantReplyRead(p, txid1, relay);
    Stages(p, Some([ip]), stunIo, allocIo, TurnEcho(echoIo), c);
    Inputs(p, Some([ip]), stunIo, allocIo, TurnEcho(echoIo), c);
    CommandOutcome(p, Some([ip]), stunIo, allocIo, echoIo, c);
  }

  /** What a UDP socket brings when server `s` answers both requests. */
  function ServedBy(p: Primitives, s: Server, txid1: TxId, txid2: TxId): AllocIo {
    AllocIo(true, txid1, Told(Answer(p, s, AllocateUnauth(txid1))), txid2, Told(Answer(p, s, SecondRequest(p, s, txid2))))
  }

  /** A server within the limits of RFC 5389 whose challenge fits the buffer, and a command that holds its credentials. */
  predicate CanServe(p: Primitives, s: Server, txid: TxId, c: Context) {
    && s.WithinLimits() && p.ValidUtf8(s.realm) && |s.user| < 513 && |Challenge(s, txid)| <= RECEIVE_BUFFER
    && p.saslPrep(s.pass) == s.pass && c.turnUser == Some(s.user) && c.turnPass == Some(s.pass)
  }

  lemma ServedAuthenticates(p: Primitives, s: Server, txid1: TxId, txid2: TxId, c: Context)
    requires CanServe(p, s, txid1, c)
    ensures var end := AllocExchange(p, ServedBy(p, s, txid1, txid2), c).end;
            end == Authenticated(s.relay, s.lifetime, s.realm, s.nonce, s.ServerKey(p), s.user)
  {
    hide Exchange, Answer, AllocateUnauth, SecondRequest, Challenge, LongTermKey, Cut;
    KeysAgree(p, s);
    assert AllocExchange(p, ServedBy(p, s, txid1, txid2), c) == Conversation(p, s, txid1, txid2);
    HandshakeSucceeds(p, s, txid1, txid2);
    ConversationOutcome(p, s, txid1, txid2);
  }

  /** The session such a run hands to the echo check. */
  function SessionAt(p: Primitives, s: Server, server: SocketAddr): TurnSession {
    TurnSession(server, s.relay, s.realm, s.nonce, s.ServerKey(p), s.user)
  }

  lemma AuthenticatedRun(p: Primitives, s: Server, txid1: TxId, txid2: TxId, c: Context)
    requires CanServe(p, s, txid1, c) && c.port.Some? && c.resolvedIps != []
    ensures var (r, next) := AllocBody(p, ServedBy(p, s, txid1, txid2), c);
            && r.status == Pass && LeavesSession(r)
            && next.turnSession == Some(SessionAt(p, s, SocketAddr(c.resolvedIps[0], c.port.value)))
            && next.scratch == c.scratch["relayed" := p.showAddr(s.relay)]
  {
    hide AllocExchange, Answer, AllocateUnauth, SecondRequest, CanServe, LongTermKey;
    ServedAuthenticates(p, s, txid1, txid2, c);
  }

  /**
   From end to end: when the name resolves, a STUN server's first mapped address
   is `addr`, and the TURN server follows its RFCs, holds the command's credentials
   and sends a challenge that fits the buffer, the first three checks pass and the
   echo check works on a session with that server's relay, realm, nonce and key,
   and on `addr`.
   */
  lemma SessionReached(p: Primitives, s: Server, c: Context, ips: seq<Ip>, stunIo: StunIo, addr: SocketAddr,
                       txid1: TxId, txid2: TxId, echoIo: EchoIo)
    requires p.ReadsBack() && Fresh(c) && CanServe(p, s, txid1, c) && ips != []
    requires stunIo.bindOk && stunIo.round.Reply? && Reflects(Cut(stunIo.round.data), stunIo.txid, addr)
    ensures var run := RunFrom(p, Command(Some(ips), stunIo, ServedBy(p, s, txid1, txid2), echoIo), c, {});
            && |run.results| == 4 && |run.contexts| == 5
            && (forall i :: 0 <= i < 3 ==> run.results[i].status == Pass)
            && run.contexts[3].turnSession == Some(SessionAt(p, s, SocketAddr(ips[0], c.port.value)))
            && run.contexts[3].echoCount == c.echoCount && run.contexts[3].defaultTimeout == c.defaultTimeout
            && SrflxOf(p, run.contexts[3]) == Some(addr)
            && run.results[3] == EchoBody(p, echoIo, run.contexts[3])
  {
    hide RunFrom, AllocBody, EchoBody, CanServe, ServedBy, ParseBindingResponse, Reflects, Cut, Distinct, SessionAt;
    var allocIo := ServedBy(p, s, txid1, txid2);
    var run := RunFrom(p, Command(Some(ips), stunIo, allocIo, echoIo), c, {});
    ReflectsIsRead(Cut(stunIo.round.data), stunIo.txid, addr);
    DistinctIs(ips);
    Stages(p, Some(ips), stunIo, allocIo, TurnEcho(echoIo), c);
    ServableStays(p, s, txid1, c, run.contexts[2]);
    AuthenticatedRun(p, s, txid1, txid2, run.contexts[2]);
    AllocKeeps(p, allocIo, run.contexts[2]);
    assert run.results[0].status == Pass && run.results[1].status == Pass && run.results[2].status == Pass;
    assert "srflx" in run.contexts[3].scratch && run.contexts[3].scratch["srflx"] == p.showAddr(addr) by {
      assert "srflx"[0] != "relayed"[0];
    }
    EchoRuns(p, Some(ips), stunIo, allocIo, echoIo, c);
  }

  lemma ServableStays(p: Primitives, s: Server, txid: TxId, a: Context, b: Context)
    requires CanServe(p, s, txid, a) && a.turnUser == b.turnUser && a.turnPass == b.turnPass
    ensures CanServe(p, s, txid, b)
  {
  }

  lemma AllocKeeps(p: Primitives, io: AllocIo, c: Context)
    ensures var next := AllocBody(p, io, c).1; next == c.(scratch := next.scratch, turnSession := next.turnSession)
  {
    hide AllocExchange;
  }

  lemma EchoRuns(p: Primitives, lookup: Option<seq<Ip>>, stunIo: StunIo, allocIo: AllocIo, echoIo: EchoIo, c: Context)
    requires p.ReadsBack() && Fresh(c)
    requires var run := RunFrom(p, Command(lookup, stunIo, allocIo, echoIo), c, {});
             |run.results| == 4 && run.results[1].status == Pass && run.results[2].status == Pass
    ensures var run := RunFrom(p, Command(lookup, stunIo, allocIo, echoIo), c, {});
            |run.contexts| == 5 && run.results[3] == EchoBody(p, echoIo, run.contexts[3])
  {
    hide RunFrom, Perform, EchoBody, PassedBefore, MissingOf;
    var checks := Command(lookup, stunIo, allocIo, echoIo);
    var run := RunFrom(p, checks, c, {});
    Gating(p, checks, c, 3);
    assert checks[1].Id() == STUN && checks[2].Id() == TURN_UDP && checks[3].Requires() == [TURN_UDP, STUN];
    assert PassedEarlier(checks, run, 3, STUN) && PassedEarlier(checks, run, 3, TURN_UDP);
    PerformIs(p, checks[3], run.contexts[3]);
  }

  /**
   All four checks pass when, in addition, the server's reply permits, every packet
   goes out, and each comes back in time, wrapped in a Data Indication from the
   server with any other attributes around it.
   */
  lemma AllPass(p: Primitives, s: Server, c: Context, ips: seq<Ip>, stunIo: StunIo, addr: SocketAddr,
                txid1: TxId, txid2: TxId, echoIo: EchoIo, count: nat,
                arrival: nat -> nat, txid: nat -> TxId, before: nat -> seq<Attr>, after: nat -> seq<Attr>)
    requires p.ReadsBack() && Fresh(c) && CanServe(p, s, txid1, c) && ips != []
    requires stunIo.bindOk && stunIo.round.Reply? && Reflects(Cut(stunIo.round.data), stunIo.txid, addr)
    requires echoIo.permission.Reply? && Permits(Cut(echoIo.permission.data), echoIo.txid)
    requires count == (if c.echoCount == 0 then 1 else c.echoCount) && AllSendsOk(echoIo, count)
    requires forall k: nat :: k < count ==>
               && InTime(echoIo, c, arrival(k)) && echoIo.polls[arrival(k)].outcome.from == SocketAddr(ips[0], c.port.value)
               && WrapsAs(echoIo.polls[arrival(k)].outcome.data, k, txid(k), before(k), after(k))
    ensures var results := RunFrom(p, Command(Some(ips), stunIo, ServedBy(p, s, txid1, txid2), echoIo), c, {}).results;
            |results| == 4 && forall i :: 0 <= i < 4 ==> results[i].status == Pass
  {
    hide RunFrom, CanServe, ServedBy, Reflects, Cut, Command, EchoBody, AllSendsOk, InTime, WrapsAs, Permits;
    hide SrflxOf, ReadPermission;
    var run := RunFrom(p, Command(Some(ips), stunIo, ServedBy(p, s, txid1, txid2), echoIo), c, {});
    SessionReached(p, s, c, ips, stunIo, addr, txid1, txid2, echoIo);
    PermissionIsRead(p, Cut(echoIo.permission.data), echoIo.txid, 0);
    var session := run.contexts[3];
    forall k: nat | InTime(echoIo, c, k)
      ensures InTime(echoIo, session, k)
    {
      InTimeStays(echoIo, c, session, k);
    }
    WorkingRelayPasses(p, echoIo, session, count, arrival, txid, before, after);
  }

  lemma InTimeStays(io: EchoIo, a: Context, b: Context, i: nat)
    requires a.defaultTimeout == b.defaultTimeout && a.echoCount == b.echoCount
    requires InTime(io, a, i)
    ensures InTime(io, b, i)
  {
    hide Within;
  }

  /**
   The permission request of such a run goes to that server, asks for the address
   the STUN server reported as peer under the server's user, realm and nonce, and
   carries the digest the server computes under its own key.
   */
  lemma PermissionVerifies(p: Primitives, s: Server, c: Context, ips: seq<Ip>, stunIo: StunIo, addr: SocketAddr,
                           txid1: TxId, txid2: TxId, echoIo: EchoIo)
    requires p.ReadsBack() && Fresh(c) && CanServe(p, s, txid1, c) && ips != []
    requires stunIo.bindOk && stunIo.round.Reply? && Reflects(Cut(stunIo.round.data), stunIo.txid, addr)
    ensures var run := RunFrom(p, Command(Some(ips), stunIo, ServedBy(p, s, txid1, txid2), echoIo), c, {});
            && |run.contexts| == 5
            && var request := PermissionRequest(p, echoIo, run.contexts[3]);
            && request.Some? && request.value.to == SocketAddr(ips[0], c.port.value)
            && AsksFor(p, s, request.value.data, echoIo.txid, addr)
  {
    hide RunFrom, ServedBy, Reflects, Cut, Command, EchoBody, SrflxOf, CreatePermission, LongTermKey, Challenge, Characters;
    hide AsksFor;
    SessionReached(p, s, c, ips, stunIo, addr, txid1, txid2, echoIo);
    PermissionAsks(p, s, echoIo.txid, addr);
  }

  /** A CreatePermission request that a server reads as asking for `peer`, with its own credentials and a digest it accepts. */
  predicate AsksFor(p: Primitives, s: Server, data: bytes, txid: TxId, peer: SocketAddr) {
    var r := Decode(data, txid);
    && r.Ok? && r.value.0.msgType == CREATE_PERMISSION_REQUEST
    && var attrs := r.value.1;
    && First(attrs, XOR_PEER_ADDRESS).Some? && XorAddress(First(attrs, XOR_PEER_ADDRESS).value, txid) == Ok(peer)
    && First(attrs, USERNAME) == Some(s.user) && First(attrs, REALM) == Some(s.realm) && First(attrs, NONCE) == Some(s.nonce)
    && VerifyIntegrity(p, s.ServerKey(p), data)
  }

  lemma PermissionAsks(p: Primitives, s: Server, txid: TxId, peer: SocketAddr)
    requires s.WithinLimits() && |s.user| < 513
    ensures AsksFor(p, s, CreatePermission(p, txid, s.user, s.realm, s.nonce, s.ServerKey(p), peer), txid, peer)
  {
    hide VerifyIntegrity, Signed, Padding, XorAddressBytes, XorAddress, Decode, Characters, SameDigest, First;
    var value := XorAddressBytes(peer, txid);
    var first, key := Attr(XOR_PEER_ADDRESS, value), s.ServerKey(p);
    PeerLength(peer, txid);
    PaddingAligns(|value|);
    PaddingAligns(|s.user|);
    PaddingAligns(|s.realm|);
    PaddingAligns(|s.nonce|);
    XorAddressRoundTrip(peer, txid);
    AuthedRequestVerifies(p, CREATE_PERMISSION_REQUEST, txid, first, s.user, s.realm, s.nonce, key);
    var m := CreatePermission(p, txid, s.user, s.realm, s.nonce, key, peer);
    CredentialsFound(first, s.user, s.realm, s.nonce, Attr(MESSAGE_INTEGRITY, p.hmacSha1(key, m[..|m| - INTEGRITY_LENGTH])));
  }

  lemma PeerLength(addr: SocketAddr, txid: TxId)
    ensures |XorAddressBytes(addr, txid)| <= 20
  {
  }
}
