/**
 The collection loop of the echo check: a receiver fed by a network that may
 lose, repeat, reorder and inject datagrams, until every sequence number is
 accounted for or the deadline passes.
 */
module EchoLoop {
  import opened Words
  import opened Wrappers
  import opened StunTypes
  import opened StunCodec
  import opened TurnCodec
  import opened Requests
  import opened DataIndication

  datatype Outcome = Datagram(from: SocketAddr, data: bytes, at: nat) | RecvFailed | TimedOut

  /** One turn of the loop: the clock when it starts, then what waiting brought. */
  datatype Poll = Poll(now: nat, outcome: Outcome)

  /** What the loop knows beforehand: the server, the deadline, and when each packet was sent. */
  datatype Window = Window(server: SocketAddr, deadline: nat, sent: seq<Option<nat>>)

  datatype Tally = Tally(rtts: seq<Option<nat>>, received: nat, duplicates: nat)

  predicate AllSent(w: Window) {
    forall s :: 0 <= s < |w.sent| ==> w.sent[s].Some?
  }

  /** The sequence number this outcome echoes: right source, well-formed, in range. */
  function EchoOf(w: Window, o: Outcome): (echo: Option<nat>)
    ensures echo.Some? ==> o.Datagram? && echo.value < |w.sent|
  {
    if !o.Datagram? || o.from != w.server then None
    else
      match EchoSeq(Cut(o.data))
      case None => None
      case Some(s) => if s < |w.sent| then Some(s) else None
  }

  /** `recv_at - send_at` on monotonic clock readings, which saturates at zero. */
  function Elapsed(at: nat, sent: nat): nat {
    if at < sent then 0 else at - sent
  }

  function Step(w: Window, t: Tally, o: Outcome): (t': Tally)
    requires |t.rtts| == |w.sent|
    ensures |t'.rtts| == |w.sent|
  {
    match EchoOf(w, o)
    case None => t
    case Some(s) =>
      if w.sent[s].None? then t
      else if t.rtts[s].Some? then t.(duplicates := t.duplicates + 1)
      else t.(rtts := t.rtts[s := Some(Elapsed(o.at, w.sent[s].value))], received := t.received + 1)
  }

  /** The loop goes no further: everything received, out of polls or of time, or nothing came. */
  predicate Stops(w: Window, t: Tally, polls: seq<Poll>) {
    t.received >= |w.sent| || polls == [] || polls[0].now >= w.deadline || !polls[0].outcome.Datagram?
  }

  /** The tally when the loop stops, and whether it stopped on a receive error. */
  function Collect(w: Window, t: Tally, polls: seq<Poll>): (r: (Tally, bool))
    requires |t.rtts| == |w.sent|
    ensures |r.0.rtts| == |w.sent|
    decreases |polls|
  {
    hide Step;
    if Stops(w, t, polls) then
      (t, t.received < |w.sent| && polls != [] && polls[0].now < w.deadline && polls[0].outcome.RecvFailed?)
    else Collect(w, Step(w, t, polls[0].outcome), polls[1..])
  }

  /** The loop unfolded once, for polls that are in time. */
  lemma CollectTurn(w: Window, t: Tally, polls: seq<Poll>)
    requires |t.rtts| == |w.sent| && OnTime(w, polls)
    ensures OnTime(w, polls[if polls == [] then 0 else 1..])
    ensures Collect(w, t, polls) ==
            if t.received >= |w.sent| || polls == [] then (t, false) else Collect(w, Step(w, t, polls[0].outcome), polls[1..])
    ensures Echoed(w, polls) == if polls == [] then {} else EchoSet(w, polls[0].outcome) + Echoed(w, polls[1..])
  {
  }

  function Blank(n: nat): Tally {
    Tally(seq(n, _ => None), 0, 0)
  }

  method CollectEchoes(server: SocketAddr, deadline: nat, sendTimes: array<Option<nat>>, polls: seq<Poll>)
    returns (rtts: array<Option<nat>>, received: nat, duplicates: nat, failed: bool)
    ensures var w := Window(server, deadline, sendTimes[..]);
            (Tally(rtts[..], received, duplicates), failed) == Collect(w, Blank(|w.sent|), polls)
  {
    hide EchoSeq, DataOf, ParseSeq;
    var count := sendTimes.Length;
    ghost var w := Window(server, deadline, sendTimes[..]);
    rtts := new Option<nat>[count](_ => None);
    received, duplicates, failed := 0, 0, false;
    assert rtts[..] == Blank(count).rtts;
    var k := 0;
    while received < count
      invariant 0 <= k <= |polls| && rtts.Length == count && sendTimes[..] == w.sent && !failed
      invariant Collect(w, Blank(count), polls) == Collect(w, Tally(rtts[..], received, duplicates), polls[k..])
      decreases |polls| - k
    {
      ghost var t := Tally(rtts[..], received, duplicates);
      if k == |polls| {
        break;
      }
      var poll := polls[k];
      if poll.now >= deadline {
        break;
      }
      if poll.outcome.RecvFailed? {
        failed := true;
        return;
      }
      if poll.outcome.TimedOut? {
        break;
      }
      k := k + 1;
      assert polls[k - 1..][1..] == polls[k..];
      if poll.outcome.from != server {
        continue;
      }
      EchoSeqIs(Cut(poll.outcome.data));
      var data := ParseDataIndication(Cut(poll.outcome.data));
      if data.Err? || data.value.None? {
        continue;
      }
      var seqNo := ParseSeq(data.value.value);
      if seqNo.None? || seqNo.value >= count {
        continue;
      }
      var s: nat := seqNo.value;
      if sendTimes[s].None? {
        continue;
      }
      if rtts[s].Some? {
        duplicates := duplicates + 1;
        continue;
      }
      rtts[s] := Some(Elapsed(poll.outcome.at, sendTimes[s].value));
      received := received + 1;
      assert rtts[..] == t.rtts[s := rtts[s]];
    }
  }

  lemma EchoSeqIs(datagram: bytes)
    ensures EchoSeq(datagram) == match DataOf(datagram) case Ok(Some(data)) => ParseSeq(data) case _ => None
  {
  }

  // ----- the set-level specification -----

  /** The slots that hold a round-trip time. */
  function Filled(rtts: seq<Option<nat>>): set<nat> {
    set s: nat | s < |rtts| && rtts[s].Some?
  }

  /** `received` counts the filled slots. */
  predicate Sound(w: Window, t: Tally) {
    |t.rtts| == |w.sent| && t.received == |Filled(t.rtts)|
  }

  function Below(n: nat): set<nat> {
    if n == 0 then {} else Below(n - 1) + {n - 1}
  }

  lemma {:induction false} BelowIs(n: nat)
    ensures |Below(n)| == n && forall s: nat :: s in Below(n) <==> s < n
  {
    if n > 0 {
      BelowIs(n - 1);
    }
  }

  lemma SubsetSize<T>(a: set<T>, b: set<T>)
    requires a <= b
    ensures |a| <= |b| && (|a| == |b| ==> a == b)
  {
    assert b == a + (b - a);
    assert |b| == |a| + |b - a|;
  }

  /** Everything is received exactly when every slot is filled. */
  lemma FullMeansAllFilled(w: Window, t: Tally)
    requires Sound(w, t)
    ensures t.received <= |w.sent| && (t.received == |w.sent| <==> Filled(t.rtts) == Below(|w.sent|))
  {
    BelowIs(|w.sent|);
    SubsetSize(Filled(t.rtts), Below(|w.sent|));
  }

  lemma BlankSound(w: Window)
    ensures Sound(w, Blank(|w.sent|)) && Filled(Blank(|w.sent|).rtts) == {}
  {
  }

  /** One datagram fills at most the slot it echoes, and never empties or changes a filled one. */
  lemma StepFills(w: Window, t: Tally, o: Outcome)
    requires Sound(w, t) && AllSent(w)
    ensures var t' := Step(w, t, o); var e := EchoOf(w, o);
            && Sound(w, t')
            && Filled(t'.rtts) == Filled(t.rtts) + EchoSet(w, o)
            && t'.received + t'.duplicates == t.received + t.duplicates + (if e.Some? then 1 else 0)
            && forall s :: 0 <= s < |t.rtts| ==>
                 t'.rtts[s] == if t.rtts[s].None? && e == Some(s) then Some(Elapsed(o.at, w.sent[s].value)) else t.rtts[s]
  {
    hide EchoSeq;
    var t' := Step(w, t, o);
    match EchoOf(w, o)
    case None =>
    case Some(s) =>
      assert Filled(t'.rtts) == Filled(t.rtts) + {s};
  }

  /** Every poll happens before the deadline and brings a datagram. */
  predicate OnTime(w: Window, polls: seq<Poll>) {
    forall i :: 0 <= i < |polls| ==> polls[i].now < w.deadline && polls[i].outcome.Datagram?
  }

  function EchoSet(w: Window, o: Outcome): set<nat> {
    match EchoOf(w, o)
    case None => {}
    case Some(s) => {s}
  }

  /** The sequence numbers with a valid echo among `polls`. */
  function Echoed(w: Window, polls: seq<Poll>): set<nat> {
    if polls == [] then {}
    else EchoSet(w, polls[0].outcome) + Echoed(w, polls[1..])
  }

  lemma {:induction false} EchoedMembers(w: Window, polls: seq<Poll>, s: nat)
    ensures s in Echoed(w, polls) <==> exists i :: 0 <= i < |polls| && EchoOf(w, polls[i].outcome) == Some(s)
    ensures s in Echoed(w, polls) ==> s < |w.sent|
  {
    hide EchoSeq;
    if polls != [] {
      EchoedMembers(w, polls[1..], s);
      assert forall i :: 0 <= i < |polls| - 1 ==> polls[1..][i] == polls[i + 1];
      if s in Echoed(w, polls[1..]) {
        var i :| 0 <= i < |polls[1..]| && EchoOf(w, polls[1..][i].outcome) == Some(s);
        assert polls[i + 1] == polls[1..][i];
      }
    }
  }

  /** Whatever arrives, `received` counts the filled slots at every turn of the loop: at the end of every prefix of a run. */
  lemma {:induction false} CollectSound(w: Window, t: Tally, polls: seq<Poll>)
    requires Sound(w, t) && AllSent(w)
    ensures Sound(w, Collect(w, t, polls).0)
    decreases |polls|
  {
    hide Step, EchoOf;
    if !Stops(w, t, polls) {
      StepFills(w, t, polls[0].outcome);
      CollectSound(w, Step(w, t, polls[0].outcome), polls[1..]);
    }
  }

  /** The loop fills exactly the slots of the numbers echoed in time, even though it stops as soon as all are filled. */
  lemma {:induction false} CollectFills(w: Window, t: Tally, polls: seq<Poll>)
    requires Sound(w, t) && AllSent(w) && OnTime(w, polls)
    ensures Filled(Collect(w, t, polls).0.rtts) == Filled(t.rtts) + Echoed(w, polls)
    ensures !Collect(w, t, polls).1
    decreases |polls|
  {
    hide Step, EchoOf, Filled, Below, EchoSet, Collect, Echoed, OnTime;
    CollectTurn(w, t, polls);
    if t.received >= |w.sent| {
      FullMeansAllFilled(w, t);
      EchoedBelow(w, polls);
    } else if polls != [] {
      var t1 := Step(w, t, polls[0].outcome);
      StepFills(w, t, polls[0].outcome);
      CollectFills(w, t1, polls[1..]);
      UnionAssociates(Filled(t.rtts), EchoSet(w, polls[0].outcome), Echoed(w, polls[1..]));
    }
  }

  lemma UnionAssociates<T>(a: set<T>, b: set<T>, c: set<T>)
    ensures a + b + c == a + (b + c)
  {
  }

  lemma EchoedBelow(w: Window, polls: seq<Poll>)
    ensures Echoed(w, polls) <= Below(|w.sent|)
  {
    hide Echoed;
    BelowIs(|w.sent|);
    forall s | s in Echoed(w, polls)
      ensures s in Below(|w.sent|)
    {
      EchoedMembers(w, polls, s);
    }
  }

  datatype Verdict = AllEchoed | SomeEchoed | NoneEchoed

  /** Pass, warn or fail of the check. */
  function VerdictOf(received: nat, count: nat): Verdict {
    if received == 0 then NoneEchoed else if received == count then AllEchoed else SomeEchoed
  }

  /** What arrives before the loop has to stop anyway: the datagrams up to the first late poll, timeout or receive error. */
  function Timely(w: Window, polls: seq<Poll>): (timely: seq<Poll>)
    ensures OnTime(w, timely) && timely <= polls
  {
    if polls == [] || polls[0].now >= w.deadline || !polls[0].outcome.Datagram? then []
    else [polls[0]] + Timely(w, polls[1..])
  }

  /** A poll is among them exactly when it and all before it are datagrams before the deadline. */
  lemma {:induction false} TimelyIs(w: Window, polls: seq<Poll>, i: nat)
    ensures i < |Timely(w, polls)| <==>
            i < |polls| && forall j :: 0 <= j <= i ==> polls[j].now < w.deadline && polls[j].outcome.Datagram?
  {
    if polls != [] && i > 0 {
      TimelyIs(w, polls[1..], i - 1);
      assert forall j :: 0 < j < |polls| ==> polls[j] == polls[1..][j - 1];
    }
  }

  lemma {:induction false} AllTimely(w: Window, polls: seq<Poll>)
    requires OnTime(w, polls)
    ensures Timely(w, polls) == polls
  {
    if polls != [] {
      AllTimely(w, polls[1..]);
      assert [polls[0]] + polls[1..] == polls;
    }
  }

  /** The timely datagrams are followed by a receive error before the deadline. */
  predicate BreaksOff(w: Window, polls: seq<Poll>) {
    var n := |Timely(w, polls)|;
    n < |polls| && polls[n].now < w.deadline && polls[n].outcome.RecvFailed?
  }

  /**
   Over any run the tally is that of the timely datagrams, and the run fails exactly
   when a receive error follows them and something is still missing.
   */
  lemma {:induction false} TimelyDecides(w: Window, t: Tally, polls: seq<Poll>)
    requires |t.rtts| == |w.sent|
    ensures Collect(w, t, polls).0 == Collect(w, t, Timely(w, polls)).0
    ensures Collect(w, t, polls).1 <==> Collect(w, t, polls).0.received < |w.sent| && BreaksOff(w, polls)
    decreases |polls|
  {
    hide Step;
    if polls != [] && polls[0].now < w.deadline && polls[0].outcome.Datagram? {
      var timely := Timely(w, polls);
      assert timely[0] == polls[0] && timely[1..] == Timely(w, polls[1..]);
      assert BreaksOff(w, polls) <==> BreaksOff(w, polls[1..]);
      if t.received < |w.sent| {
        TimelyDecides(w, Step(w, t, polls[0].outcome), polls[1..]);
      }
    }
  }

  /**
   The loop refines a set: over every run, however it ends, `received` is the
   number of distinct sequence numbers with a valid echo among the datagrams that
   came in time, and the verdict is whether that set is full, partial or empty.
   The run fails exactly when the set is not full and a receive error cuts it off.
   */
  lemma CollectRefinesSet(w: Window, polls: seq<Poll>)
    requires AllSent(w) && |w.sent| > 0
    ensures var (t, failed) := Collect(w, Blank(|w.sent|), polls); var v := VerdictOf(t.received, |w.sent|);
            var echoed := Echoed(w, Timely(w, polls));
            && t.received == |echoed| && Filled(t.rtts) == echoed
            && (v == AllEchoed <==> echoed == Below(|w.sent|)) && (v == NoneEchoed <==> echoed == {})
            && (failed <==> echoed != Below(|w.sent|) && BreaksOff(w, polls))
  {
    hide Collect, EchoOf, Echoed, Timely, BreaksOff;
    var timely := Timely(w, polls);
    BlankSound(w);
    TimelyDecides(w, Blank(|w.sent|), polls);
    CollectFills(w, Blank(|w.sent|), timely);
    CollectSound(w, Blank(|w.sent|), timely);
    FullMeansAllFilled(w, Collect(w, Blank(|w.sent|), timely).0);
    assert {} + Echoed(w, timely) == Echoed(w, timely);
  }

  // ----- every valid echo that is looked at is counted once -----

  /** How many polls the loop consumes. */
  function Consumed(w: Window, t: Tally, polls: seq<Poll>): (n: nat)
    requires |t.rtts| == |w.sent|
    ensures n <= |polls|
    decreases |polls|
  {
    hide Step;
    if Stops(w, t, polls) then 0 else 1 + Consumed(w, Step(w, t, polls[0].outcome), polls[1..])
  }

  function CountEchoes(w: Window, polls: seq<Poll>): nat {
    if polls == [] then 0 else (if EchoOf(w, polls[0].outcome).Some? then 1 else 0) + CountEchoes(w, polls[1..])
  }

  /** Over any run, with errors, timeouts or a deadline: received and duplicates together are the valid echoes consumed. */
  lemma {:induction false} EchoesConserved(w: Window, t: Tally, polls: seq<Poll>)
    requires Sound(w, t) && AllSent(w)
    ensures var t' := Collect(w, t, polls).0;
            t'.received + t'.duplicates == t.received + t.duplicates + CountEchoes(w, polls[..Consumed(w, t, polls)])
    decreases |polls|
  {
    hide Step, EchoOf;
    if Stops(w, t, polls) {
      assert polls[..0] == [];
    } else {
      var t1 := Step(w, t, polls[0].outcome);
      StepFills(w, t, polls[0].outcome);
      EchoesConserved(w, t1, polls[1..]);
      var n := Consumed(w, t1, polls[1..]);
      assert polls[..1 + n] == [polls[0]] + polls[1..][..n];
      assert polls[..1 + n][1..] == polls[1..][..n];
    }
  }

  // ----- first arrivals -----

  /** The round-trip time of the first valid echo of `s`. */
  function FirstRtt(w: Window, polls: seq<Poll>, s: nat): Option<nat>
    requires s < |w.sent| && w.sent[s].Some?
  {
    if polls == [] then None
    else if EchoOf(w, polls[0].outcome) == Some(s) then Some(Elapsed(polls[0].outcome.at, w.sent[s].value))
    else FirstRtt(w, polls[1..], s)
  }

  /** Over any run, a slot holds the first arrival among the polls consumed, or what it held before. */
  lemma {:induction false} SlotsAreFirstArrivals(w: Window, t: Tally, polls: seq<Poll>, s: nat)
    requires Sound(w, t) && AllSent(w) && s < |w.sent|
    ensures Collect(w, t, polls).0.rtts[s] ==
            if t.rtts[s].Some? then t.rtts[s] else FirstRtt(w, polls[..Consumed(w, t, polls)], s)
    decreases |polls|
  {
    hide Step, EchoOf;
    if Stops(w, t, polls) {
      assert polls[..0] == [];
    } else {
      var t1 := Step(w, t, polls[0].outcome);
      StepFills(w, t, polls[0].outcome);
      SlotsAreFirstArrivals(w, t1, polls[1..], s);
      var n := Consumed(w, t1, polls[1..]);
      assert polls[..1 + n] == [polls[0]] + polls[1..][..n];
      assert polls[..1 + n][1..] == polls[1..][..n];
    }
  }

  /** When nothing comes late, stopping early loses no first arrival: each slot is determined by the whole sequence. */
  lemma {:induction false} SlotsDetermined(w: Window, t: Tally, polls: seq<Poll>, s: nat)
    requires Sound(w, t) && AllSent(w) && OnTime(w, polls) && s < |w.sent|
    ensures Collect(w, t, polls).0.rtts[s] == if t.rtts[s].Some? then t.rtts[s] else FirstRtt(w, polls, s)
    decreases |polls|
  {
    hide Step, EchoOf;
    if t.received >= |w.sent| {
      FullMeansAllFilled(w, t);
      BelowIs(|w.sent|);
      assert s in Below(|w.sent|) && s in Filled(t.rtts);
    } else if polls != [] {
      StepFills(w, t, polls[0].outcome);
      SlotsDetermined(w, Step(w, t, polls[0].outcome), polls[1..], s);
    }
  }

  /** Over every run from the start, the time in each slot is that of the first timely arrival. */
  lemma SlotsAreTimely(w: Window, polls: seq<Poll>, s: nat)
    requires AllSent(w) && s < |w.sent|
    ensures Collect(w, Blank(|w.sent|), polls).0.rtts[s] == FirstRtt(w, Timely(w, polls), s)
  {
    hide Collect, FirstRtt, Timely;
    BlankSound(w);
    TimelyDecides(w, Blank(|w.sent|), polls);
    SlotsDetermined(w, Blank(|w.sent|), Timely(w, polls), s);
  }

  /** Poll `i` brings the first valid echo of `s`. */
  predicate FirstEcho(w: Window, polls: seq<Poll>, s: nat, i: nat) {
    && i < |polls| && EchoOf(w, polls[i].outcome) == Some(s)
    && forall j :: 0 <= j < i ==> EchoOf(w, polls[j].outcome) != Some(s)
  }

  /** `d` is the time from `sent` to `at`, or zero if the clock has run backwards between them. */
  predicate Took(sent: nat, at: nat, d: nat) {
    if at < sent then d == 0 else at == sent + d
  }

  /** There is a time exactly when there is a valid echo, and it is that of the first one, counted from that packet's own sending. */
  lemma {:induction false} FirstRttExact(w: Window, polls: seq<Poll>, s: nat)
    requires AllSent(w) && s < |w.sent|
    ensures match FirstRtt(w, polls, s)
            case None => forall i :: 0 <= i < |polls| ==> EchoOf(w, polls[i].outcome) != Some(s)
            case Some(d) => exists i: nat :: FirstEcho(w, polls, s, i) && Took(w.sent[s].value, polls[i].outcome.at, d)
  {
    hide EchoOf;
    if polls != [] && EchoOf(w, polls[0].outcome) == Some(s) {
      assert FirstEcho(w, polls, s, 0);
    } else if polls != [] {
      var rest := polls[1..];
      assert forall i :: 0 <= i < |rest| ==> rest[i] == polls[i + 1];
      FirstRttExact(w, rest, s);
      if FirstRtt(w, polls, s).Some? {
        var d := FirstRtt(w, rest, s).value;
        var i: nat :| FirstEcho(w, rest, s, i) && Took(w.sent[s].value, rest[i].outcome.at, d);
        assert polls[i + 1] == rest[i];
        assert forall j :: 0 < j < i + 1 ==> polls[j] == rest[j - 1];
        assert FirstEcho(w, polls, s, i + 1);
      } else {
        assert forall i :: 0 < i < |polls| ==> polls[i] == rest[i - 1];
      }
    }
  }

  // ----- noise, order, repeats -----

  /** Exactly these outcomes are echoes; every other datagram is noise. */
  lemma EchoIs(w: Window, o: Outcome, s: u32)
    ensures EchoOf(w, o) == Some(s) <==>
            o.Datagram? && o.from == w.server && s < |w.sent| && DataOf(Cut(o.data)) == Ok(Some(EchoPayload(s)))
  {
    hide EchoSeq, DataOf;
    if o.Datagram? {
      EchoCarriesPayload(Cut(o.data), s);
    }
  }

  predicate Noise(w: Window, poll: Poll) {
    poll.outcome.Datagram? && EchoOf(w, poll.outcome).None?
  }

  function WithoutNoise(w: Window, polls: seq<Poll>): seq<Poll> {
    if polls == [] then []
    else (if Noise(w, polls[0]) then [] else [polls[0]]) + WithoutNoise(w, polls[1..])
  }

  predicate MonotoneClock(polls: seq<Poll>) {
    forall i, j :: 0 <= i < j < |polls| ==> polls[i].now <= polls[j].now
  }

  lemma {:induction false} WithoutNoiseLater(w: Window, polls: seq<Poll>, now: nat)
    requires forall i :: 0 <= i < |polls| ==> now <= polls[i].now
    ensures WithoutNoise(w, polls) != [] ==> now <= WithoutNoise(w, polls)[0].now
  {
    if polls != [] {
      WithoutNoiseLater(w, polls[1..], now);
    }
  }

  /**
   Deleting every wrong-source, malformed, unrelated or out-of-range datagram
   changes nothing: not the round-trip times, not the counters, not whether a
   receive error ends the check; on any run under a monotone clock.
   */
  lemma {:induction false} NoiseIndependence(w: Window, t: Tally, polls: seq<Poll>)
    requires |t.rtts| == |w.sent| && MonotoneClock(polls)
    ensures Collect(w, t, WithoutNoise(w, polls)) == Collect(w, t, polls)
    decreases |polls|
  {
    hide EchoOf;
    if polls != [] {
      var rest := polls[1..];
      assert MonotoneClock(rest);
      if Noise(w, polls[0]) {
        assert WithoutNoise(w, polls) == WithoutNoise(w, rest);
        NoiseIndependence(w, t, rest);
        if polls[0].now >= w.deadline {
          WithoutNoiseLater(w, rest, polls[0].now);
        }
      } else {
        var clean := WithoutNoise(w, polls);
        assert clean[0] == polls[0] && clean[1..] == WithoutNoise(w, rest);
        if !Stops(w, t, polls) {
          NoiseIndependence(w, Step(w, t, polls[0].outcome), rest);
        }
      }
    }
  }

  /** Source and bytes of what arrived, in order. */
  function Arrivals(polls: seq<Poll>): seq<(SocketAddr, bytes)>
    requires forall i :: 0 <= i < |polls| ==> polls[i].outcome.Datagram?
  {
    seq(|polls|, i requires 0 <= i < |polls| => (polls[i].outcome.from, polls[i].outcome.data))
  }

  lemma EchoedFromArrivals(w: Window, a: seq<Poll>, b: seq<Poll>)
    requires OnTime(w, a) && OnTime(w, b)
    requires forall x :: x in Arrivals(a) ==> x in Arrivals(b)
    ensures Echoed(w, a) <= Echoed(w, b)
  {
    hide Echoed, EchoSeq;
    forall s | s in Echoed(w, a)
      ensures s in Echoed(w, b)
    {
      EchoedMembers(w, a, s);
      EchoedMembers(w, b, s);
      var i :| 0 <= i < |a| && EchoOf(w, a[i].outcome) == Some(s);
      assert Arrivals(a)[i] in Arrivals(b);
      var j :| 0 <= j < |b| && Arrivals(b)[j] == Arrivals(a)[i];
      assert EchoOf(w, b[j].outcome) == Some(s);
    }
  }

  /** Two runs whose timely datagrams are the same up to order, at whatever times, give the same count and the same filled slots. */
  lemma OrderIndependence(w: Window, a: seq<Poll>, b: seq<Poll>)
    requires AllSent(w) && |w.sent| > 0
    requires multiset(Arrivals(Timely(w, a))) == multiset(Arrivals(Timely(w, b)))
    ensures var ta, tb := Collect(w, Blank(|w.sent|), a).0, Collect(w, Blank(|w.sent|), b).0;
            ta.received == tb.received && Filled(ta.rtts) == Filled(tb.rtts)
  {
    hide Collect, Echoed, Arrivals, Timely, BreaksOff;
    var x, y := Timely(w, a), Timely(w, b);
    assert forall d :: d in Arrivals(x) <==> d in multiset(Arrivals(x));
    assert forall d :: d in Arrivals(y) <==> d in multiset(Arrivals(y));
    EchoedFromArrivals(w, x, y);
    EchoedFromArrivals(w, y, x);
    assert Echoed(w, x) == Echoed(w, y);
    CollectRefinesSet(w, a);
    CollectRefinesSet(w, b);
  }

  /** The polls that are not an echo of a number seen before. */
  function WithoutRepeats(w: Window, polls: seq<Poll>, seen: set<nat>): seq<Poll> {
    if polls == [] then []
    else
      match EchoOf(w, polls[0].outcome)
      case None => [polls[0]] + WithoutRepeats(w, polls[1..], seen)
      case Some(s) => (if s in seen then [] else [polls[0]]) + WithoutRepeats(w, polls[1..], seen + {s})
  }

  /** Removing repeats changes nothing but `duplicates`, which does not grow any more. */
  lemma {:induction false} RepeatsOnlyDuplicate(w: Window, t: Tally, u: Tally, polls: seq<Poll>)
    requires Sound(w, t) && AllSent(w) && OnTime(w, polls)
    requires u == t.(duplicates := u.duplicates)
    ensures var a, b := Collect(w, t, polls).0, Collect(w, u, WithoutRepeats(w, polls, Filled(t.rtts))).0;
            a.rtts == b.rtts && a.received == b.received && b.duplicates == u.duplicates
    decreases |polls|
  {
    hide EchoOf, Filled;
    var clean := WithoutRepeats(w, polls, Filled(t.rtts));
    if t.received < |w.sent| && polls != [] {
      var o := polls[0].outcome;
      StepFills(w, t, o);
      var e := EchoOf(w, o);
      assert EchoSet(w, o) == if e.Some? then {e.value} else {};
      if e.Some? && e.value in Filled(t.rtts) {
        assert Filled(t.rtts) + {e.value} == Filled(t.rtts);
        assert e.value < |w.sent| && t.rtts[e.value].Some? by { FilledMember(t.rtts, e.value); }
        assert clean == WithoutRepeats(w, polls[1..], Filled(t.rtts));
        RepeatsOnlyDuplicate(w, Step(w, t, o), u, polls[1..]);
      } else {
        assert clean[0] == polls[0];
        if e.Some? {
          assert e.value < |w.sent| && t.rtts[e.value].None? by { FilledMember(t.rtts, e.value); }
          assert clean[1..] == WithoutRepeats(w, polls[1..], Filled(t.rtts) + {e.value});
        } else {
          assert Filled(t.rtts) + {} == Filled(t.rtts);
          assert clean[1..] == WithoutRepeats(w, polls[1..], Filled(t.rtts));
        }
        RepeatsOnlyDuplicate(w, Step(w, t, o), Step(w, u, o), polls[1..]);
      }
    }
  }

  lemma FilledMember(rtts: seq<Option<nat>>, s: nat)
    ensures s in Filled(rtts) <==> s < |rtts| && rtts[s].Some?
  {
  }

  /** The plainest echo a relay can send back. */
  function EchoDatagram(txid: TxId, seqNo: u32): bytes {
    Message(DATA_INDICATION, txid, [] + [Attr(DATA, EchoPayload(seqNo))] + [])
  }

  lemma EchoDatagramIs(w: Window, txid: TxId, seqNo: u32, at: nat)
    requires seqNo < |w.sent|
    ensures EchoOf(w, Datagram(w.server, EchoDatagram(txid, seqNo), at)) == Some(seqNo)
  {
    var payload := Attr(DATA, EchoPayload(seqNo));
    assert [] + [payload] + [] == [payload];
    OneTlv(DATA, payload.value);
    assert |EchoPayload(seqNo)| == 28;
    PaddingAligns(28);
    hide Tlvs, EchoPayload, EchoSeq, AsU16, HeaderBytes, Padding;
    assert WrapsAs(EchoDatagram(txid, seqNo), seqNo, txid, [], []);
    WrappedRecognised(EchoDatagram(txid, seqNo), seqNo, txid, [], []);
  }

  /**
   `duplicates` itself depends on the order: with two packets, a repeat before the
   last first arrival is counted, one after it is never read.
   */
  lemma DuplicatesDependOnOrder(server: SocketAddr, txid: TxId)
    ensures var w := Window(server, 1, [Some(0), Some(0)]);
            var zero, one := Poll(0, Datagram(server, EchoDatagram(txid, 0), 0)), Poll(0, Datagram(server, EchoDatagram(txid, 1), 0));
            Collect(w, Blank(2), [zero, zero, one]).0.duplicates == 1 && Collect(w, Blank(2), [zero, one, zero]).0.duplicates == 0
  {
    hide EchoSeq, EchoDatagram, EchoOf;
    var w := Window(server, 1, [Some(0), Some(0)]);
    var zero, one := Poll(0, Datagram(server, EchoDatagram(txid, 0), 0)), Poll(0, Datagram(server, EchoDatagram(txid, 1), 0));
    EchoDatagramIs(w, txid, 0, 0);
    EchoDatagramIs(w, txid, 1, 0);
    var t0 := Blank(2);
    var t1 := Step(w, t0, zero.outcome);
    var t2 := Step(w, t1, zero.outcome);
    var t3 := Step(w, t2, one.outcome);
    var u2 := Step(w, t1, one.outcome);
    assert [zero, zero, one][1..] == [zero, one] && [zero, one][1..] == [one] && [one][1..] == [];
    assert [zero, one, zero][1..] == [one, zero] && [one, zero][1..] == [zero];
    assert Collect(w, t3, []) == (t3, false);
    assert Collect(w, t2, [one]) == Collect(w, t3, []);
    assert Collect(w, t1, [zero, one]) == Collect(w, t2, [one]);
    assert Collect(w, u2, [zero]) == (u2, false);
    assert Collect(w, t1, [one, zero]) == Collect(w, u2, [zero]);
  }
}
