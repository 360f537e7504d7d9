/**
 The pipeline runner, and what holds over whole runs of it: gating, cascading
 skips, and the state the checks hand each other through the context.
 */
module Pipeline {
  import opened Words
  import opened Wrappers
  import opened StunTypes
  import opened Primitives
  import opened Handshake
  import opened EchoLoop
  import opened Context
  import opened Checks

  /** The six checks modelled here, each with what the outside world does to it, and any other check. */
  datatype Check =
    | Dns(lookup: Option<seq<Ip>>)
    | StunBinding(stunIo: StunIo)
    | TurnAllocate(allocIo: AllocIo)
    | TurnsAllocate(tlsIo: TlsIo)
    | TurnEcho(echoIo: EchoIo)
    | IceGather(ifaces: Option<seq<Iface>>)
    | Custom(id: string, needs: seq<string>, behave: Context -> (CheckResult, Context))
  {
    function Id(): string {
      match this
      case Dns(_) => DNS
      case StunBinding(_) => STUN
      case TurnAllocate(_) => TURN_UDP
      case TurnsAllocate(_) => TURN_TLS
      case TurnEcho(_) => TURN_ECHO
      case IceGather(_) => ICE
      case Custom(id, _, _) => id
    }

    function Requires(): seq<string> {
      match this
      case Dns(_) => []
      case StunBinding(_) => [DNS]
      case TurnAllocate(_) => [DNS]
      case TurnsAllocate(_) => [DNS]
      case TurnEcho(_) => [TURN_UDP, STUN]
      case IceGather(_) => [STUN]
      case Custom(_, needs, _) => needs
    }
  }

  /** What a check's body returns and leaves in the context. */
  function Perform(p: Primitives, check: Check, c: Context): (CheckResult, Context) {
    match check
    case Dns(lookup) => DnsBody(lookup, c)
    case StunBinding(io) => StunBody(p, io, c)
    case TurnAllocate(io) => AllocBody(p, io, c)
    case TurnsAllocate(io) => TurnsBody(p, io, c)
    case TurnEcho(io) => (EchoBody(p, io, c), c)
    case IceGather(ifaces) => (IceBody(p, ifaces, c), c)
    case Custom(_, _, behave) => behave(c)
  }

  /** The required ids that have not passed, in the order they are listed. */
  function MissingOf(needs: seq<string>, passed: set<string>): seq<string> {
    if needs == [] then []
    else
      var n := |needs| - 1;
      MissingOf(needs[..n], passed) + if needs[n] in passed then [] else [needs[n]]
  }

  function Turn(p: Primitives, check: Check, c: Context, passed: set<string>): (CheckResult, Context) {
    var missing := MissingOf(check.Requires(), passed);
    if missing == [] then Perform(p, check, c) else (CheckResult(check.Id(), Skip, Missing(missing)), c)
  }

  function Passing(check: Check, r: CheckResult): set<string> {
    if r.status == Pass then {check.Id()} else {}
  }

  /** A run: the results in order, and the context before each check and at the end. */
  datatype Run = Run(results: seq<CheckResult>, contexts: seq<Context>)

  function RunFrom(p: Primitives, checks: seq<Check>, c: Context, passed: set<string>): Run {
    if checks == [] then Run([], [c])
    else
      var (r, next) := Turn(p, checks[0], c, passed);
      var rest := RunFrom(p, checks[1..], next, passed + Passing(checks[0], r));
      Run([r] + rest.results, [c] + rest.contexts)
  }

  method RunBody(p: Primitives, check: Check, ctx: ProbeContext) returns (r: CheckResult)
    modifies ctx
    ensures (r, ctx.Snapshot()) == Perform(p, check, old(ctx.Snapshot()))
  {
    hide DnsBody, StunBody, AllocBody, TurnsBody, EchoBody, IceBody, AllocExchange, TlsExchange, AllocReached, TlsReached;
    match check {
      case Dns(lookup) => r := RunDns(ctx, lookup);
      case StunBinding(io) =>
        var result, sent := RunStun(p, ctx, io);
        r := result;
      case TurnAllocate(io) =>
        var result, sent := RunTurnAllocate(p, ctx, io);
        r := result;
      case TurnsAllocate(io) =>
        var result, written := RunTurnsAllocate(p, ctx, io);
        r := result;
      case TurnEcho(io) =>
        var result, permission, packets := RunTurnEcho(p, ctx, io);
        r := result;
      case IceGather(ifaces) => r := RunIceGather(p, ctx, ifaces);
      case Custom(_, _, behave) =>
        var out := behave(ctx.Snapshot());
        ctx.Restore(out.1);
        r := out.0;
    }
  }

  class Pipeline {
    var checks: seq<Check>

    constructor ()
      ensures checks == []
    {
      checks := [];
    }

    method Push(check: Check)
      modifies this
      ensures checks == old(checks) + [check]
    {
      checks := checks + [check];
    }

    method RunAll(p: Primitives, ctx: ProbeContext) returns (results: seq<CheckResult>)
      modifies ctx
      ensures var run := RunFrom(p, checks, old(ctx.Snapshot()), {});
              results == run.results && |run.contexts| > 0 && ctx.Snapshot() == run.contexts[|run.contexts| - 1]
    {
      hide Turn, Perform;
      results := [];
      var passed: set<string> := {};
      ghost var whole := RunFrom(p, checks, ctx.Snapshot(), {});
      assert checks[0..] == checks;
      for k := 0 to |checks|
        invariant whole.results == results + RunFrom(p, checks[k..], ctx.Snapshot(), passed).results
        invariant EndsAlike(whole, RunFrom(p, checks[k..], ctx.Snapshot(), passed))
      {
        var check := checks[k];
        ghost var before := ctx.Snapshot();
        assert checks[k..][0] == check && checks[k..][1..] == checks[k + 1..];
        var result := RunTurn(p, check, ctx, passed);
        RunNotEmpty(p, checks[k + 1..], ctx.Snapshot(), passed + Passing(check, result));
        if result.status == Pass {
          passed := passed + {check.Id()};
        }
        assert passed + {} == passed;
        results := results + [result];
      }
    }
  }

  predicate EndsAlike(a: Run, b: Run) {
    |a.contexts| > 0 && |b.contexts| > 0 && a.contexts[|a.contexts| - 1] == b.contexts[|b.contexts| - 1]
  }

  lemma RunNotEmpty(p: Primitives, checks: seq<Check>, c: Context, passed: set<string>)
    ensures |RunFrom(p, checks, c, passed).contexts| > 0
  {
  }

  /** One iteration of the runner: collect what is missing, run the body or skip. */
  method RunTurn(p: Primitives, check: Check, ctx: ProbeContext, passed: set<string>) returns (r: CheckResult)
    modifies ctx
    ensures (r, ctx.Snapshot()) == Turn(p, check, old(ctx.Snapshot()), passed)
  {
    hide Perform;
    var needs := check.Requires();
    var missing: seq<string> := [];
    for k := 0 to |needs|
      invariant missing == MissingOf(needs[..k], passed) && ctx.Snapshot() == old(ctx.Snapshot())
    {
      assert needs[..k + 1][..k] == needs[..k];
      if needs[k] !in passed {
        missing := missing + [needs[k]];
      }
    }
    assert needs[..|needs|] == needs;
    if missing == [] {
      r := RunBody(p, check, ctx);
    } else {
      r := CheckResult(check.Id(), Skip, Missing(missing));
    }
  }

  // ----- gating, for every pipeline and every check behaviour -----

  /** The ids that passed among the first `i` checks. */
  function PassedBefore(checks: seq<Check>, results: seq<CheckResult>, i: nat): set<string>
    requires i <= |checks| && i <= |results|
  {
    if i == 0 then {} else PassedBefore(checks, results, i - 1) + Passing(checks[i - 1], results[i - 1])
  }

  predicate WellFormed(checks: seq<Check>, run: Run) {
    |run.results| == |checks| && |run.contexts| == |checks| + 1
  }

  lemma {:induction false} RunLengths(p: Primitives, checks: seq<Check>, c: Context, passed: set<string>)
    ensures WellFormed(checks, RunFrom(p, checks, c, passed)) && RunFrom(p, checks, c, passed).contexts[0] == c
  {
    hide Turn;
    if checks != [] {
      var (r, next) := Turn(p, checks[0], c, passed);
      RunLengths(p, checks[1..], next, passed + Passing(checks[0], r));
    }
  }

  lemma {:induction false} PassedBeforeShift(checks: seq<Check>, results: seq<CheckResult>, i: nat)
    requires |checks| == |results| && 0 < i <= |checks|
    ensures PassedBefore(checks, results, i) == Passing(checks[0], results[0]) + PassedBefore(checks[1..], results[1..], i - 1)
  {
    if i == 1 {
      assert PassedBefore(checks, results, 0) == {};
    } else {
      PassedBeforeShift(checks, results, i - 1);
    }
  }

  lemma {:induction false} RunAt(p: Primitives, checks: seq<Check>, c: Context, passed: set<string>, i: nat)
    requires i < |checks|
    ensures var run := RunFrom(p, checks, c, passed);
            && WellFormed(checks, run)
            && (run.results[i], run.contexts[i + 1]) == Turn(p, checks[i], run.contexts[i], passed + PassedBefore(checks, run.results, i))
  {
    hide Turn, Passing;
    var run := RunFrom(p, checks, c, passed);
    RunLengths(p, checks, c, passed);
    var (r, next) := Turn(p, checks[0], c, passed);
    var rest := RunFrom(p, checks[1..], next, passed + Passing(checks[0], r));
    RunLengths(p, checks[1..], next, passed + Passing(checks[0], r));
    assert run.results[1..] == rest.results && run.contexts[1..] == rest.contexts;
    if i == 0 {
      assert passed + PassedBefore(checks, run.results, 0) == passed;
    } else {
      RunAt(p, checks[1..], next, passed + Passing(checks[0], r), i - 1);
      PassedBeforeShift(checks, run.results, i);
      assert passed + Passing(checks[0], r) + PassedBefore(checks[1..], rest.results, i - 1) ==
             passed + PassedBefore(checks, run.results, i);
      assert run.contexts[i] == rest.contexts[i - 1] && run.contexts[i + 1] == rest.contexts[i] && run.results[i] == rest.results[i - 1];
    }
  }

  lemma {:induction false} MissingIs(needs: seq<string>, passed: set<string>)
    ensures forall id :: id in MissingOf(needs, passed) <==> id in needs && id !in passed
  {
    if needs != [] {
      var n := |needs| - 1;
      MissingIs(needs[..n], passed);
      assert needs == needs[..n] + [needs[n]];
    }
  }

  /** The missing ids are named in the order they are required. */
  lemma {:induction false} MissingSplits(first: seq<string>, rest: seq<string>, passed: set<string>)
    ensures MissingOf(first + rest, passed) == MissingOf(first, passed) + MissingOf(rest, passed)
  {
    if rest == [] {
      assert first + rest == first;
    } else {
      var n := |rest| - 1;
      MissingSplits(first, rest[..n], passed);
      assert (first + rest)[..|first| + n] == first + rest[..n];
    }
  }

  lemma {:induction false} PassedIs(checks: seq<Check>, results: seq<CheckResult>, i: nat, id: string)
    requires i <= |checks| == |results|
    ensures id in PassedBefore(checks, results, i) <==> exists j :: 0 <= j < i && checks[j].Id() == id && results[j].status == Pass
  {
    if i > 0 {
      PassedIs(checks, results, i - 1, id);
    }
  }

  /** Some check with this id passed strictly before position `i`. */
  predicate PassedEarlier(checks: seq<Check>, run: Run, i: nat, id: string)
    requires WellFormed(checks, run) && i <= |checks|
  {
    exists j :: 0 <= j < i && checks[j].Id() == id && run.results[j].status == Pass
  }

  /**
   For every pipeline and every behaviour of its checks: there is one result per
   check in order; a body runs, on the context its predecessors left, exactly
   when every required id passed strictly earlier; otherwise the check is skipped
   with the missing ids named and the context untouched.
   */
  lemma Gating(p: Primitives, checks: seq<Check>, c: Context, i: nat)
    requires i < |checks|
    ensures var run := RunFrom(p, checks, c, {}); var check := checks[i];
            && WellFormed(checks, run)
            && (if forall id :: id in check.Requires() ==> PassedEarlier(checks, run, i, id)
                then (run.results[i], run.contexts[i + 1]) == Perform(p, check, run.contexts[i])
                else && run.results[i].id == check.Id() && run.results[i].status == Skip && run.results[i].note.Missing?
                     && run.contexts[i + 1] == run.contexts[i]
                     && forall id :: id in run.results[i].note.ids <==> id in check.Requires() && !PassedEarlier(checks, run, i, id))
  {
    hide Perform, RunFrom, MissingOf, PassedBefore;
    var run := RunFrom(p, checks, c, {});
    RunAt(p, checks, c, {}, i);
    var passed := PassedBefore(checks, run.results, i);
    assert {} + passed == passed;
    MissingIs(checks[i].Requires(), passed);
    forall id
      ensures id in passed <==> PassedEarlier(checks, run, i, id)
    {
      PassedIs(checks, run.results, i, id);
    }
    var missing := MissingOf(checks[i].Requires(), passed);
    assert missing != [] ==> missing[0] in missing;
  }

  /** `id` needs `root`, directly or through other ids, in at most `depth` steps. */
  predicate DependsOn(needs: string -> seq<string>, id: string, root: string, depth: nat)
    decreases depth
  {
    depth > 0 && exists k :: 0 <= k < |needs(id)| && (needs(id)[k] == root || DependsOn(needs, needs(id)[k], root, depth - 1))
  }

  ghost predicate NeverPasses(checks: seq<Check>, run: Run, id: string)
    requires WellFormed(checks, run)
  {
    forall j :: 0 <= j < |checks| && checks[j].Id() == id ==> run.results[j].status != Pass
  }

  /**
   A failure cascades: if an id never passes in a run, every check whose id
   requires it transitively is skipped, where requirements are a function of id.
   */
  lemma {:induction false} SkipsCascade(p: Primitives, checks: seq<Check>, c: Context,
                                        needs: string -> seq<string>, root: string, i: nat, depth: nat)
    requires forall j :: 0 <= j < |checks| ==> checks[j].Requires() == needs(checks[j].Id())
    requires i < |checks| && DependsOn(needs, checks[i].Id(), root, depth)
    requires WellFormed(checks, RunFrom(p, checks, c, {})) && NeverPasses(checks, RunFrom(p, checks, c, {}), root)
    ensures var run := RunFrom(p, checks, c, {});
            run.results[i].status == Skip && run.results[i].note.Missing? && NeverPasses(checks, run, checks[i].Id())
    decreases depth
  {
    hide RunFrom, Perform;
    var run := RunFrom(p, checks, c, {});
    var id := checks[i].Id();
    var k :| 0 <= k < |needs(id)| && (needs(id)[k] == root || DependsOn(needs, needs(id)[k], root, depth - 1));
    var needed := needs(id)[k];
    forall j | 0 <= j < |checks| && checks[j].Id() == needed
      ensures run.results[j].status != Pass
    {
      if needed != root {
        SkipsCascade(p, checks, c, needs, root, j, depth - 1);
      }
    }
    forall j | 0 <= j < |checks| && checks[j].Id() == id
      ensures run.results[j].status == Skip && run.results[j].note.Missing?
    {
      Gating(p, checks, c, j);
      assert needed in checks[j].Requires() && !PassedEarlier(checks, run, j, needed);
    }
  }

  // ----- what the checks hand each other, over whole runs of the six checks -----

  predicate Builtin(checks: seq<Check>) {
    forall i :: 0 <= i < |checks| ==> !checks[i].Custom?
  }

  /** Host and port stay; a dns pass means addresses; a binding pass means a readable reflexive address. */
  ghost predicate Supplied(p: Primitives, c: Context, passed: set<string>) {
    && c.host.Some? && c.port.Some?
    && (DNS in passed ==> c.resolvedIps != [])
    && (STUN in passed ==> SrflxOf(p, c).Some?)
  }

  /** A result that reports an authenticated allocation over UDP. */
  predicate LeavesSession(r: CheckResult) {
    r.id == TURN_UDP && r.note.Allocation? && r.note.end.Authenticated?
  }

  predicate AnonymousPass(r: CheckResult) {
    r.id == TURN_UDP && r.status == Pass && r.note.Allocation? && r.note.end.Anonymous?
  }

  /** The checks' own guards against missing context that the pipeline makes unreachable. */
  predicate Defensive(r: CheckResult) {
    r.note in {NoHost, NoPort, NoIp, NoSrflx, NoCandidates}
  }

  lemma StunSupplies(p: Primitives, io: StunIo, c: Context, passed: set<string>)
    requires p.ReadsBack() && Supplied(p, c, passed) && DNS in passed
    ensures var (r, next) := StunBody(p, io, c);
            && Supplied(p, next, passed) && (r.status == Pass ==> SrflxOf(p, next).Some?) && !Defensive(r) && r.id == STUN
            && next.turnSession == c.turnSession
  {
  }

  lemma AllocSupplies(p: Primitives, io: AllocIo, c: Context, passed: set<string>)
    requires Supplied(p, c, passed) && DNS in passed
    ensures var (r, next) := AllocBody(p, io, c);
            && Supplied(p, next, passed) && !Defensive(r) && r.id == TURN_UDP
            && (r.status == Pass <==> LeavesSession(r) || AnonymousPass(r))
            && next.turnSession.Some? == (c.turnSession.Some? || LeavesSession(r))
  {
    hide Exchange;
  }

  lemma TurnsSupplies(p: Primitives, io: TlsIo, c: Context, passed: set<string>)
    requires Supplied(p, c, passed) && DNS in passed
    ensures var (r, next) := TurnsBody(p, io, c);
            Supplied(p, next, passed) && !Defensive(r) && r.id == TURN_TLS && next.turnSession == c.turnSession
  {
    hide Exchange;
  }

  /** A check that runs keeps what its predecessors supplied, adds its own, and meets none of the unreachable guards. */
  lemma PerformSupplies(p: Primitives, check: Check, c: Context, passed: set<string>)
    requires p.ReadsBack() && !check.Custom? && Supplied(p, c, passed)
    requires forall id :: id in check.Requires() ==> id in passed
    ensures var (r, next) := Perform(p, check, c);
            && Supplied(p, next, passed + Passing(check, r)) && !Defensive(r) && !r.note.Missing? && r.id == check.Id()
            && next.turnSession.Some? == (c.turnSession.Some? || LeavesSession(r))
            && (check.TurnAllocate? ==> (r.status == Pass <==> LeavesSession(r) || AnonymousPass(r)))
            && (check.IceGather? ==> r.status != Warn)
            && (r.note == NoSession <==> check.TurnEcho? && c.turnSession.None?)
  {
    hide StunBody, AllocBody, TurnsBody, SrflxOf, HostCandidates, CountOf, Collect;
    match check
    case Dns(lookup) => SrflxOnly(p, c, DnsBody(lookup, c).1); DistinctOf(if lookup.Some? then lookup.value else []);
    case StunBinding(io) => assert DNS in check.Requires(); StunSupplies(p, io, c, passed); StunNote(p, io, c);
    case TurnAllocate(io) => assert DNS in check.Requires(); AllocSupplies(p, io, c, passed); AllocNote(p, io, c);
    case TurnsAllocate(io) => assert DNS in check.Requires(); TurnsSupplies(p, io, c, passed); TurnsNote(p, io, c);
    case TurnEcho(io) => assert STUN in check.Requires();
    case IceGather(ifaces) => assert STUN in check.Requires();
  }

  lemma SrflxOnly(p: Primitives, a: Context, b: Context)
    requires a.scratch == b.scratch
    ensures SrflxOf(p, a) == SrflxOf(p, b)
  {
  }

  lemma StunNote(p: Primitives, io: StunIo, c: Context)
    ensures var r := StunBody(p, io, c).0; r.note != NoSession && !r.note.Missing? && !LeavesSession(r)
  {
  }

  lemma AllocNote(p: Primitives, io: AllocIo, c: Context)
    ensures var r := AllocBody(p, io, c).0; r.note != NoSession && !r.note.Missing?
  {
  }

  lemma TurnsNote(p: Primitives, io: TlsIo, c: Context)
    ensures var r := TurnsBody(p, io, c).0; r.note != NoSession && !r.note.Missing? && !LeavesSession(r)
  {
  }

  /** A fresh context with host and port set, as every command line run starts from. */
  predicate Fresh(c: Context) {
    c.host.Some? && c.port.Some? && c.resolvedIps == [] && c.turnSession.None? && c.scratch == map[]
  }

  /** One turn of the runner, skips included. */
  lemma TurnSupplies(p: Primitives, check: Check, c: Context, passed: set<string>)
    requires p.ReadsBack() && !check.Custom? && Supplied(p, c, passed)
    ensures var (r, next) := Turn(p, check, c, passed);
            && Supplied(p, next, passed + Passing(check, r))
            && next.turnSession.Some? == (c.turnSession.Some? || LeavesSession(r))
  {
    hide Perform, SrflxOf, MissingOf;
    MissingIs(check.Requires(), passed);
    if MissingOf(check.Requires(), passed) == [] {
      PerformSupplies(p, check, c, passed);
    } else {
      assert passed + {} == passed;
    }
  }

  lemma {:induction false} RunSupplies(p: Primitives, checks: seq<Check>, c: Context, i: nat)
    requires p.ReadsBack() && Builtin(checks) && Fresh(c) && i <= |checks|
    ensures var run := RunFrom(p, checks, c, {});
            && WellFormed(checks, run)
            && Supplied(p, run.contexts[i], PassedBefore(checks, run.results, i))
            && (run.contexts[i].turnSession.Some? <==> exists j :: 0 <= j < i && LeavesSession(run.results[j]))
  {
    hide RunFrom, Turn, SrflxOf, LeavesSession, Passing;
    RunLengths(p, checks, c, {});
    if i > 0 {
      RunSupplies(p, checks, c, i - 1);
      RunAt(p, checks, c, {}, i - 1);
      var run := RunFrom(p, checks, c, {});
      var before := PassedBefore(checks, run.results, i - 1);
      assert {} + before == before;
      TurnSupplies(p, checks[i - 1], run.contexts[i - 1], before);
    }
  }

  /**
   In every pipeline of the six checks, from a fresh context with host and port:
   none of the guards for a missing host, port, address, reflexive address or
   candidate is ever taken, so `ice.gather` never warns; a session exists exactly
   after an authenticated UDP allocation; and the echo check's "no session" skip,
   which its source calls unreachable, is reached only after an anonymous one.
   */
  lemma ReachableGuards(p: Primitives, checks: seq<Check>, c: Context, i: nat)
    requires p.ReadsBack() && Builtin(checks) && Fresh(c) && i < |checks|
    ensures var run := RunFrom(p, checks, c, {});
            && WellFormed(checks, run)
            && run.results[i].id == checks[i].Id() && !Defensive(run.results[i])
            && (checks[i].IceGather? ==> run.results[i].status != Warn)
            && (run.contexts[i].turnSession.Some? <==> exists j :: 0 <= j < i && LeavesSession(run.results[j]))
            && (checks[i].TurnAllocate? ==>
                  (run.results[i].status == Pass <==> LeavesSession(run.results[i]) || AnonymousPass(run.results[i])))
            && (run.results[i].note.Missing? <==> exists id :: id in checks[i].Requires() && !PassedEarlier(checks, run, i, id))
            && (run.results[i].note == NoSession <==>
                  checks[i].TurnEcho? && !run.results[i].note.Missing? && run.contexts[i].turnSession.None?)
            && (run.results[i].note == NoSession ==> exists j :: 0 <= j < i && AnonymousPass(run.results[j]))
  {
    hide RunFrom, SrflxOf, PassedBefore, MissingOf, Perform;
    RunSupplies(p, checks, c, i);
    RunAt(p, checks, c, {}, i);
    var run := RunFrom(p, checks, c, {});
    var check, before := checks[i], PassedBefore(checks, run.results, i);
    assert {} + before == before;
    MissingIs(check.Requires(), before);
    forall id
      ensures id in before <==> PassedEarlier(checks, run, i, id)
    {
      PassedIs(checks, run.results, i, id);
    }
    var missing := MissingOf(check.Requires(), before);
    if missing == [] {
      PerformSupplies(p, check, run.contexts[i], before);
      if run.results[i].note == NoSession {
        assert TURN_UDP in check.Requires();
        var j :| 0 <= j < i && checks[j].Id() == TURN_UDP && run.results[j].status == Pass;
        AllocationKind(p, checks, c, j);
      }
    } else {
      assert missing[0] in missing;
    }
  }

  /** A UDP allocation that passed was either authenticated or anonymous. */
  lemma AllocationKind(p: Primitives, checks: seq<Check>, c: Context, j: nat)
    requires p.ReadsBack() && Builtin(checks) && Fresh(c) && j < |checks| && checks[j].Id() == TURN_UDP
    requires WellFormed(checks, RunFrom(p, checks, c, {})) && RunFrom(p, checks, c, {}).results[j].status == Pass
    ensures var r := RunFrom(p, checks, c, {}).results[j]; LeavesSession(r) || AnonymousPass(r)
  {
    hide RunFrom, Perform, SrflxOf;
    RunSupplies(p, checks, c, j);
    RunAt(p, checks, c, {}, j);
    var run := RunFrom(p, checks, c, {});
    var before := PassedBefore(checks, run.results, j);
    assert {} + before == before;
    MissingIs(checks[j].Requires(), before);
    if MissingOf(checks[j].Requires(), before) == [] {
      PerformSupplies(p, checks[j], run.contexts[j], before);
    }
  }
}
