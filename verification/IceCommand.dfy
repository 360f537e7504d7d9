/** The `ice` command for a `turn:` URL: which relay candidate its last check can report. */
module IceCommand {
  import opened Words
  import opened Wrappers
  import opened StunTypes
  import opened Primitives
  import opened StunCodec
  import opened TurnCodec
  import opened Handshake
  import opened Binding
  import opened Context
  import opened Checks
  import opened Pipeline
  import opened TurnCommand

  /** The last check starts with a reflexive address if binding passed, and with a session exactly if the allocation authenticated. */
  lemma BeforeLast(p: Primitives, lookup: Option<seq<Ip>>, stunIo: StunIo, allocIo: AllocIo, last: Check, c: Context)
    requires p.ReadsBack() && Fresh(c) && !last.Custom?
    ensures var run := RunFrom(p, Probing(lookup, stunIo, allocIo, last), c, {});
            && |run.results| == 4 && |run.contexts| == 5
            && (run.results[1].status == Pass ==> SrflxOf(p, run.contexts[3]).Some?)
            && (run.contexts[3].turnSession.Some? <==> LeavesSession(run.results[2]))
  {
    hide RunFrom, SrflxOf, Perform, PassedBefore, PassedEarlier, Defensive, AnonymousPass, Turn, MissingOf;
    var checks := Probing(lookup, stunIo, allocIo, last);
    var run := RunFrom(p, checks, c, {});
    RunSupplies(p, checks, c, 3);
    PassedIs(checks, run.results, 3, STUN);
    ReachableGuards(p, checks, c, 0);
    ReachableGuards(p, checks, c, 1);
    assert checks[0].Id() == DNS && checks[1].Id() == STUN;
    assert !LeavesSession(run.results[0]) && !LeavesSession(run.results[1]);
  }

  /** The last check runs exactly when binding passed. */
  lemma GatherRuns(p: Primitives, lookup: Option<seq<Ip>>, stunIo: StunIo, allocIo: AllocIo, ifaces: Option<seq<Iface>>, c: Context)
    requires Fresh(c)
    ensures var run := RunFrom(p, Probing(lookup, stunIo, allocIo, IceGather(ifaces)), c, {});
            && |run.results| == 4 && |run.contexts| == 5
            && (if run.results[1].status == Pass then run.results[3] == IceBody(p, ifaces, run.contexts[3])
                else run.results[3].note.Missing?)
  {
    hide RunFrom, Perform, IceBody, PassedBefore, MissingOf;
    var checks := Probing(lookup, stunIo, allocIo, IceGather(ifaces));
    var run := RunFrom(p, checks, c, {});
    Gating(p, checks, c, 3);
    assert checks[0].Id() == DNS && checks[1].Id() == STUN && checks[2].Id() == TURN_UDP && checks[3].Requires() == [STUN];
    assert PassedEarlier(checks, run, 3, STUN) <==> run.results[1].status == Pass;
    assert STUN in checks[3].Requires();
    PerformIs(p, checks[3], run.contexts[3]);
  }

  lemma GatheredFrom(p: Primitives, ifaces: Option<seq<Iface>>, c: Context)
    requires SrflxOf(p, c).Some?
    ensures var note := IceBody(p, ifaces, c).note;
            && (note.Gathered? <==> ifaces.Some?)
            && (note.Gathered? ==> note.counts.srflx == 1 && note.counts.relay == if c.turnSession.Some? then 1 else 0)
  {
    hide SrflxOf, CountOf, HostCandidates;
    if ifaces.Some? {
      GatheredCounts(p, ifaces.value, c);
    }
  }

  /**
   The candidates are listed exactly when the name resolves, binding works and the
   interfaces can be read. There is then one reflexive candidate, and one relay
   candidate exactly when the allocation was authenticated: the relay that a server
   grants at once is not among them.
   */
  lemma IceOutcome(p: Primitives, lookup: Option<seq<Ip>>, stunIo: StunIo, allocIo: AllocIo, ifaces: Option<seq<Iface>>, c: Context)
    requires p.ReadsBack() && Fresh(c)
    ensures var run := RunFrom(p, Probing(lookup, stunIo, allocIo, IceGather(ifaces)), c, {});
            && |run.results| == 4
            && var note := run.results[3].note;
            && (note.Gathered? <==> Resolves(lookup) && BindingWorks(stunIo) && ifaces.Some?)
            && (note.Gathered? ==> note.counts.srflx == 1 && note.counts.relay == if Authenticates(allocIo, c) then 1 else 0)
  {
    hide RunFrom, Probing, Resolves, BindingWorks, Authenticates, GrantsAtOnce, SrflxOf, IceBody;
    var run := RunFrom(p, Probing(lookup, stunIo, allocIo, IceGather(ifaces)), c, {});
    Inputs(p, lookup, stunIo, allocIo, IceGather(ifaces), c);
    BeforeLast(p, lookup, stunIo, allocIo, IceGather(ifaces), c);
    GatherRuns(p, lookup, stunIo, allocIo, ifaces, c);
    if run.results[1].status == Pass {
      GatheredFrom(p, ifaces, run.contexts[3]);
    }
  }

  /** A relay that was granted, and reported by a passing allocation check, is missing from the candidates. */
  lemma AnonymousRelayDropped(p: Primitives, c: Context, ip: Ip, txid: TxId, addr: SocketAddr, txid1: TxId, relay: SocketAddr,
                              txid2: TxId, round2: Round, ifaces: seq<Iface>)
    requires p.ReadsBack() && Fresh(c)
    ensures var stunIo := StunIo(true, txid, Reply(AddressReply(BINDING_SUCCESS, XOR_MAPPED_ADDRESS, txid, addr)));
            var allocIo := AllocIo(true, txid1, Reply(AddressReply(ALLOCATE_SUCCESS, XOR_RELAYED_ADDRESS, txid1, relay)), txid2, round2);
            var results := RunFrom(p, Probing(Some([ip]), stunIo, allocIo, IceGather(Some(ifaces))), c, {}).results;
            && |results| == 4 && AnonymousPass(results[2])
            && results[3].note.Gathered? && results[3].note.counts.relay == 0
  {
    hide RunFrom, AddressReply, Probing, Cut, Reflects, GivesRelay;
    var stunIo := StunIo(true, txid, Reply(AddressReply(BINDING_SUCCESS, XOR_MAPPED_ADDRESS, txid, addr)));
    var allocIo := AllocIo(true, txid1, Reply(AddressReply(ALLOCATE_SUCCESS, XOR_RELAYED_ADDRESS, txid1, relay)), txid2, round2);
    BindingReplyWorks(txid, addr);
    GrantReplyRead(p, txid1, relay);
    GrantsDoNotChallenge(allocIo);
    Inputs(p, Some([ip]), stunIo, allocIo, IceGather(Some(ifaces)), c);
    IceOutcome(p, Some([ip]), stunIo, allocIo, Some(ifaces), c);
  }

  lemma GrantsDoNotChallenge(io: AllocIo)
    requires GrantsAtOnce(io)
    ensures !Challenges(Cut(io.round1.data), io.txid1)
  {
    hide Decode, Last, Cut;
  }
}
