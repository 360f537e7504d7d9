/** The `turns` command from end to end: dns, then the allocation over TLS. */
module TurnsCommand {
  import opened Words
  import opened Wrappers
  import opened StunTypes
  import opened Primitives
  import opened Handshake
  import opened Context
  import opened Checks
  import opened Pipeline
  import opened TurnCommand
  import S = StreamHandshake

  function Turns(lookup: Option<seq<Ip>>, tlsIo: TlsIo): seq<Check> {
    [Dns(lookup), TurnsAllocate(tlsIo)]
  }

  /** The context the second check starts from when the name resolves. */
  function ResolvedTo(c: Context, ips: seq<Ip>): Context {
    c.(resolvedIps := Distinct(ips))
  }

  /** The TLS check runs, on the addresses found, exactly when the name resolves; otherwise it is skipped for want of dns. */
  lemma TurnsRuns(p: Primitives, lookup: Option<seq<Ip>>, tlsIo: TlsIo, c: Context)
    requires Fresh(c)
    ensures var run := RunFrom(p, Turns(lookup, tlsIo), c, {});
            && |run.results| == 2 && |run.contexts| == 3
            && (run.results[0].status == Pass <==> Resolves(lookup))
            && (if Resolves(lookup) then (run.results[1], run.contexts[2]) == TurnsBody(p, tlsIo, ResolvedTo(c, lookup.value))
                else run.results[1].status == Skip && run.results[1].note.Missing? && run.contexts[2] == c)
  {
    hide RunFrom, Perform, DnsBody, TurnsBody, Resolves, Distinct;
    var checks := Turns(lookup, tlsIo);
    var run := RunFrom(p, checks, c, {});
    DnsRuns(p, checks, c);
    AfterDns(p, checks, c, 1);
    DnsStage(lookup, c);
    PerformIs(p, checks[0], c);
    PerformIs(p, checks[1], run.contexts[1]);
    if !Resolves(lookup) {
      DnsKeeps(lookup, c);
    }
  }

  lemma DnsKeeps(lookup: Option<seq<Ip>>, c: Context)
    requires Fresh(c) && !Resolves(lookup)
    ensures DnsBody(lookup, c).1 == c
  {
  }

  /** The server the TLS check is connected to follows its RFCs and knows the credentials the command holds. */
  ghost predicate Secured(p: Primitives, s: Server, tlsIo: TlsIo, c: Context) {
    && s.WithinLimits() && p.ValidUtf8(s.realm) && |s.user| < 513 && p.saslPrep(s.pass) == s.pass
    && c.turnUser == Some(s.user) && c.turnPass == Some(s.pass)
    && S.Connected(p, s, tlsIo, c)
  }

  lemma ConnectedStays(p: Primitives, s: Server, tlsIo: TlsIo, a: Context, b: Context)
    requires a.turnUser == b.turnUser && a.turnPass == b.turnPass
    ensures S.Connected(p, s, tlsIo, a) <==> S.Connected(p, s, tlsIo, b)
  {
    hide Exchange;
  }

  /** With such a server both checks pass, and the relay it granted is what the second one leaves. */
  lemma TurnsPasses(p: Primitives, s: Server, ips: seq<Ip>, tlsIo: TlsIo, c: Context)
    requires Fresh(c) && ips != [] && Secured(p, s, tlsIo, c)
    ensures var run := RunFrom(p, Turns(Some(ips), tlsIo), c, {});
            && |run.results| == 2 && |run.contexts| == 3
            && run.results[0].status == Pass && run.results[1].status == Pass
            && "relayed" in run.contexts[2].scratch && run.contexts[2].scratch["relayed"] == p.showAddr(s.relay)
  {
    hide RunFrom, Turns, TurnsBody, S.Connected, Characters, Distinct;
    var resolved := ResolvedTo(c, ips);
    TurnsRuns(p, Some(ips), tlsIo, c);
    DistinctIs(ips);
    ConnectedStays(p, s, tlsIo, c, resolved);
    S.StreamHandshakeSucceeds(p, s, tlsIo, resolved);
  }
}
