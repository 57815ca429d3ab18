/** The connection state machine of esp_mqtt_task in components/espmqtt/mqtt_client.c. */
module LinkSpec {
  import opened Bytes

  const RECONNECT_TIMEOUT: int := 10000  // MQTT_RECONNECT_TIMEOUT_MS

  datatype State = Init | Connected | WaitTimeout

  /** Milliseconds as platform_tick_get_ms returns them: cut to a signed 32-bit int. */
  function Tick(ms: int): int {
    S32(ms)
  }

  /** What the loop does that others can see. */
  datatype LogEvent =
    | Attempt(time: int)       // transport_connect is called
    | Accepted(fresh?: bool)   // the buffer holds an accepting CONNACK; fresh? if this attempt read it
    | ConnectedEvent           // MQTT_EVENT_CONNECTED is dispatched
    | DisconnectedEvent(time: int)

  datatype Link = Link(state: State, run: bool, reconnectTick: int)

  /** One pass of the loop: its first and its second reading of the clock, and what the outside
      answered. No pass reads the clock more often; start also dates an attempt to connect. */
  datatype Pass = Pass(start: int, end: int, transportUp: bool, accepted: bool, fresh?: bool, receiveFails: bool)

  datatype Outcome = Outcome(link: Link, log: seq<LogEvent>)

  /** esp_mqtt_abort_connection */
  function Abort(l: Link, time: int): Outcome {
    Outcome(Link(WaitTimeout, l.run, Tick(time)), [DisconnectedEvent(time)])
  }

  /** The switch in the loop. */
  function StepLink(l: Link, autoReconnect: bool, p: Pass): Outcome {
    match l.state
    case Init =>
      if !p.transportUp || !p.accepted then
        var o := Abort(l, p.end);
        Outcome(o.link, [Attempt(p.start)] + o.log)
      else Outcome(l.(state := Connected), [Attempt(p.start), Accepted(p.fresh?), ConnectedEvent])
    case Connected =>
      if p.receiveFails then Abort(l, p.end) else Outcome(l, [])
    case WaitTimeout =>
      if !autoReconnect then Outcome(l.(run := false), [])
      else if Tick(Tick(p.start) - l.reconnectTick) > RECONNECT_TIMEOUT then
        Outcome(Link(Init, l.run, Tick(p.end)), [])
      else Outcome(l, [])
  }

  /** Where each state leads. Without auto_reconnect the wait ends the loop, otherwise it goes on until the
      ticks differ by more than ten seconds; a connection lasts until a read fails. */
  lemma PassLeads(l: Link, auto: bool, p: Pass)
    ensures l.state == Init ==>
      StepLink(l, auto, p).link ==
        if p.transportUp && p.accepted then Link(Connected, l.run, l.reconnectTick)
        else Link(WaitTimeout, l.run, Tick(p.end))
    ensures l.state == Connected ==>
      StepLink(l, auto, p).link == if p.receiveFails then Link(WaitTimeout, l.run, Tick(p.end)) else l
    ensures l.state == WaitTimeout && !auto ==>
      StepLink(l, auto, p) == Outcome(Link(WaitTimeout, false, l.reconnectTick), [])
    ensures l.state == WaitTimeout && auto ==>
      StepLink(l, auto, p).link.run == l.run
      && (StepLink(l, auto, p).link.state == Init <==> Tick(Tick(p.start) - l.reconnectTick) > 10000)
      && (StepLink(l, auto, p).link.state != Init ==> StepLink(l, auto, p).link == l)
  {
    hide Tick;
  }

  /** Passes whose clock never goes back. */
  predicate Monotone(ps: seq<Pass>, now: int)
    decreases |ps|
  {
    ps == [] || (now <= ps[0].start <= ps[0].end && Monotone(ps[1..], ps[0].end))
  }

  /** The loop, as long as run is set. */
  function RunLoop(l: Link, autoReconnect: bool, ps: seq<Pass>): Outcome
    decreases |ps|
  {
    if ps == [] || !l.run then Outcome(l, [])
    else
      var o := StepLink(l, autoReconnect, ps[0]);
      var r := RunLoop(o.link, autoReconnect, ps[1..]);
      Outcome(r.link, o.log + r.log)
  }

  /** Any two CONNECTED events have a DISCONNECTED event between them. */
  ghost predicate Separated(log: seq<LogEvent>) {
    forall i, j :: 0 <= i < j < |log| && log[i].ConnectedEvent? && log[j].ConnectedEvent? ==>
      exists k :: i < k < j && log[k].DisconnectedEvent?
  }

  /** Every attempt comes more than the timeout after every earlier DISCONNECTED event. */
  ghost predicate Spaced(log: seq<LogEvent>) {
    forall i, j :: 0 <= i < j < |log| && log[i].DisconnectedEvent? && log[j].Attempt? ==>
      log[j].time - log[i].time > RECONNECT_TIMEOUT
  }

  /** No CONNECTED event without a DISCONNECTED event after it. */
  ghost predicate Closed(log: seq<LogEvent>) {
    forall i :: 0 <= i < |log| && log[i].ConnectedEvent? ==> exists k :: i < k < |log| && log[k].DisconnectedEvent?
  }

  /** Every DISCONNECTED event is more than d before time now. */
  ghost predicate Past(log: seq<LogEvent>, now: int, d: int) {
    forall i :: 0 <= i < |log| && log[i].DisconnectedEvent? ==> now - log[i].time > d
  }

  /** What every reachable state satisfies, with last the time of the last abort. */
  ghost predicate Inv(l: Link, log: seq<LogEvent>, now: int, last: int) {
    && Separated(log) && Spaced(log)
    && (l.state != Connected ==> Closed(log))
    && Past(log, last, -1) && last <= now
    && (l.state == WaitTimeout ==> l.reconnectTick == Tick(last))
    && (l.state == Init ==> Past(log, now, RECONNECT_TIMEOUT))
  }

  /** When the wrapping tick difference reports the timeout: exactly when the time elapsed, modulo the
      counter's period, lies above the timeout and below half the period. */
  lemma ElapsedExact(now: int, last: int)
    ensures Tick(Tick(now) - Tick(last)) > RECONNECT_TIMEOUT
       <==> RECONNECT_TIMEOUT < (now - last) % 0x1_0000_0000 < 0x8000_0000
  {
    hide Tick;
    TickDifference(now, last);
    TickCut(now - last);
  }

  /** The upper half of the period reads as negative. */
  lemma TickCut(n: int)
    ensures var r := n % 0x1_0000_0000; Tick(n) == if r < 0x8000_0000 then r else r - 0x1_0000_0000
  {
    var r := n % 0x1_0000_0000;
    TickPeriodic(r, n / 0x1_0000_0000);
    assert n == r + n / 0x1_0000_0000 * 0x1_0000_0000;
  }

  /** So it is never reported early. */
  lemma ElapsedSound(now: int, last: int)
    requires last <= now
    requires Tick(Tick(now) - Tick(last)) > RECONNECT_TIMEOUT
    ensures now - last > RECONNECT_TIMEOUT
  {
    ElapsedExact(now, last);
  }

  lemma TickDifference(now: int, last: int)
    ensures Tick(Tick(now) - Tick(last)) == Tick(now - last)
  {
    var a, b := (now + 0x8000_0000) / 0x1_0000_0000, (last + 0x8000_0000) / 0x1_0000_0000;
    assert Tick(now) == now - a * 0x1_0000_0000;
    assert Tick(last) == last - b * 0x1_0000_0000;
    TickPeriodic(now - last, b - a);
  }

  lemma TickPeriodic(n: int, k: int)
    ensures Tick(n + k * 0x1_0000_0000) == Tick(n)
  {
  }

  /** Appending an abort closes the log again. */
  lemma AppendAbort(log: seq<LogEvent>, time: int, now: int, last: int)
    requires Separated(log) && Spaced(log) && Past(log, last, -1)
    requires last <= now <= time
    ensures var log' := log + [DisconnectedEvent(time)];
      Separated(log') && Spaced(log') && Closed(log') && Past(log', time, -1)
  {
    var log' := log + [DisconnectedEvent(time)];
    assert log'[|log|].DisconnectedEvent?;
    forall i, j | 0 <= i < j < |log'| && log'[i].ConnectedEvent? && log'[j].ConnectedEvent?
      ensures exists k :: i < k < j && log'[k].DisconnectedEvent?
    {
      assert log[i].ConnectedEvent? && log[j].ConnectedEvent?;
      var k :| i < k < j && log[k].DisconnectedEvent?;
      assert log'[k].DisconnectedEvent?;
    }
  }

  /** So does an attempt, once the timeout has passed. */
  lemma AppendAttempt(log: seq<LogEvent>, start: int, now: int, last: int)
    requires Separated(log) && Spaced(log) && Closed(log) && Past(log, last, -1)
    requires Past(log, now, RECONNECT_TIMEOUT) && last <= now <= start
    ensures var log' := log + [Attempt(start)];
      Separated(log') && Spaced(log') && Closed(log') && Past(log', last, -1)
  {
    var log' := log + [Attempt(start)];
    forall i, j | 0 <= i < j < |log'| && log'[i].ConnectedEvent? && log'[j].ConnectedEvent?
      ensures exists k :: i < k < j && log'[k].DisconnectedEvent?
    {
      var k :| i < k < j && log[k].DisconnectedEvent?;
      assert log'[k].DisconnectedEvent?;
    }
    forall i | 0 <= i < |log'| && log'[i].ConnectedEvent?
      ensures exists k :: i < k < |log'| && log'[k].DisconnectedEvent?
    {
      var k :| i < k < |log| && log[k].DisconnectedEvent?;
      assert log'[k].DisconnectedEvent?;
    }
  }

  /** A successful connect ends the closed log with a CONNECTED event. */
  lemma AppendConnected(log: seq<LogEvent>, fresh?: bool, last: int)
    requires Separated(log) && Spaced(log) && Closed(log) && Past(log, last, -1)
    ensures var log' := log + [Accepted(fresh?), ConnectedEvent];
      Separated(log') && Spaced(log') && Past(log', last, -1)
  {
    var log' := log + [Accepted(fresh?), ConnectedEvent];
    forall i, j | 0 <= i < j < |log'| && log'[i].ConnectedEvent? && log'[j].ConnectedEvent?
      ensures exists k :: i < k < j && log'[k].DisconnectedEvent?
    {
      assert log[i].ConnectedEvent?;
      if j < |log| {
        var k :| i < k < j && log[k].DisconnectedEvent?;
        assert log'[k].DisconnectedEvent?;
      } else {
        var k :| i < k < |log| && log[k].DisconnectedEvent?;
        assert log'[k].DisconnectedEvent?;
      }
    }
  }

  /** One pass keeps the invariant. */
  lemma StepInv(l: Link, log: seq<LogEvent>, auto: bool, p: Pass, now: int, last: int) returns (last': int)
    requires Inv(l, log, now, last) && now <= p.start <= p.end
    ensures Inv(StepLink(l, auto, p).link, log + StepLink(l, auto, p).log, p.end, last')
  {
    hide Separated, Spaced, Closed, Tick;
    var o := StepLink(l, auto, p);
    last' := last;
    match l.state {
      case Init =>
        AppendAttempt(log, p.start, now, last);
        var log1 := log + [Attempt(p.start)];
        if !p.transportUp || !p.accepted {
          AppendAbort(log1, p.end, p.start, last);
          last' := p.end;
          assert log + o.log == log1 + [DisconnectedEvent(p.end)];
        } else {
          AppendConnected(log1, p.fresh?, last);
          assert log + o.log == log1 + [Accepted(p.fresh?), ConnectedEvent];
        }
      case Connected =>
        if p.receiveFails {
          AppendAbort(log, p.end, now, last);
          last' := p.end;
        } else {
          assert log + [] == log;
        }
      case WaitTimeout =>
        assert log + [] == log;
        if o.link.state == Init {
          ElapsedSound(p.start, last);
        }
    }
  }

  lemma {:induction false} RunInv(l: Link, log: seq<LogEvent>, auto: bool, ps: seq<Pass>, now: int, last: int)
    returns (now': int, last': int)
    requires Inv(l, log, now, last) && Monotone(ps, now)
    ensures Inv(RunLoop(l, auto, ps).link, log + RunLoop(l, auto, ps).log, now', last')
    decreases |ps|
  {
    hide Inv, StepLink;
    now', last' := now, last;
    if ps == [] || !l.run {
      assert log + [] == log;
    } else {
      var o := StepLink(l, auto, ps[0]);
      var last1 := StepInv(l, log, auto, ps[0], now, last);
      now', last' := RunInv(o.link, log + o.log, auto, ps[1..], ps[0].end, last1);
      var r := RunLoop(o.link, auto, ps[1..]);
      assert log + (o.log + r.log) == log + o.log + r.log;
    }
  }

  /** Pass k, reached with the loop running and nothing connected, finds the transport up and a CONNACK
      accepted; the events logged before it are followed by those of the attempt, CONNECTED at place j. */
  predicate Connects(l: Link, auto: bool, ps: seq<Pass>, k: nat, j: nat) {
    k < |ps|
    && var before := RunLoop(l, auto, ps[..k]);
    && before.link.run && before.link.state == Init
    && ps[k].transportUp && ps[k].accepted
    && j == |before.log| + 2
  }

  lemma RunFirst(l: Link, auto: bool, ps: seq<Pass>, k: nat)
    requires l.run && 0 < k <= |ps|
    ensures var o := StepLink(l, auto, ps[0]); var r := RunLoop(o.link, auto, ps[1..][..k - 1]);
      RunLoop(l, auto, ps[..k]) == Outcome(r.link, o.log + r.log)
  {
    hide StepLink;
    assert ps[..k][1..] == ps[1..][..k - 1];
  }

  /** Each CONNECTED event of a run comes from such a pass. */
  lemma {:induction false} ConnectedFrom(l: Link, auto: bool, ps: seq<Pass>, j: nat) returns (k: nat)
    requires j < |RunLoop(l, auto, ps).log| && RunLoop(l, auto, ps).log[j].ConnectedEvent?
    ensures Connects(l, auto, ps, k, j)
    decreases |ps|
  {
    hide Tick;
    var o := StepLink(l, auto, ps[0]);
    if j < |o.log| {
      k := 0;
      assert ps[..0] == [];
    } else {
      var m := ConnectedFrom(o.link, auto, ps[1..], j - |o.log|);
      k := m + 1;
      RunFirst(l, auto, ps, k);
    }
  }

  /** Each such pass dispatches CONNECTED, right after its acceptance. */
  lemma {:induction false} ConnectsGives(l: Link, auto: bool, ps: seq<Pass>, k: nat, j: nat)
    requires Connects(l, auto, ps, k, j)
    ensures var log := RunLoop(l, auto, ps).log;
      j < |log| && log[j].ConnectedEvent? && log[j - 1] == Accepted(ps[k].fresh?)
    decreases |ps|
  {
    hide Tick;
    if k == 0 {
      assert ps[..0] == [];
    } else {
      Running(l, auto, ps[..k]);
      RunFirst(l, auto, ps, k);
      var o := StepLink(l, auto, ps[0]);
      ConnectsGives(o.link, auto, ps[1..], k - 1, j - |o.log|);
    }
  }

  lemma Running(l: Link, auto: bool, ps: seq<Pass>)
    requires RunLoop(l, auto, ps).link.run
    ensures l.run
  {
  }

  /** Place j holds a CONNECTED event exactly if such a pass put it there. */
  ghost predicate ExactAt(l: Link, auto: bool, ps: seq<Pass>, log: seq<LogEvent>, j: nat) {
    (j < |log| && log[j].ConnectedEvent?) <==> exists k: nat :: Connects(l, auto, ps, k, j)
  }

  /** No attempt to connect comes after a DISCONNECTED event. */
  ghost predicate NoAttemptAfter(log: seq<LogEvent>) {
    forall i, j :: 0 <= i < j < |log| && log[i].DisconnectedEvent? ==> !log[j].Attempt?
  }

  /** A client that is not to reconnect does not: from the first DISCONNECTED on the loop only ends. */
  lemma {:induction false} NoReconnect(l: Link, ps: seq<Pass>)
    ensures var r := RunLoop(l, false, ps);
      && NoAttemptAfter(r.log)
      && (l.state == WaitTimeout ==> r.log == [] && (ps != [] ==> !r.link.run))
      && (l.state == Connected ==> forall i :: 0 <= i < |r.log| ==> !r.log[i].Attempt?)
    decreases |ps|
  {
    hide Tick;
    if ps != [] && l.run {
      var o := StepLink(l, false, ps[0]);
      NoReconnect(o.link, ps[1..]);
    }
  }

  /** Exactly those passes dispatch CONNECTED. */
  ghost predicate ConnectedExactly(l: Link, auto: bool, ps: seq<Pass>, log: seq<LogEvent>) {
    forall j: nat :: ExactAt(l, auto, ps, log, j)
  }

  lemma LoopConnectsAt(l: Link, auto: bool, ps: seq<Pass>, j: nat)
    ensures ExactAt(l, auto, ps, RunLoop(l, auto, ps).log, j)
  {
    hide RunLoop, Connects;
    var log := RunLoop(l, auto, ps).log;
    if j < |log| && log[j].ConnectedEvent? {
      var k := ConnectedFrom(l, auto, ps, j);
    } else if k: nat :| Connects(l, auto, ps, k, j) {
      ConnectsGives(l, auto, ps, k, j);
      assert false;
    }
  }

  lemma LoopConnects(l: Link, auto: bool, ps: seq<Pass>)
    ensures ConnectedExactly(l, auto, ps, RunLoop(l, auto, ps).log)
  {
    hide RunLoop, ExactAt;
    forall j: nat ensures ExactAt(l, auto, ps, RunLoop(l, auto, ps).log, j) {
      LoopConnectsAt(l, auto, ps, j);
    }
  }

  /** In every run of the client loop under a clock that never goes back: two CONNECTED events always
      have a DISCONNECTED event between them, CONNECTED is dispatched exactly by the passes that accept a
      CONNACK, and each connection attempt comes more than the timeout after every DISCONNECTED event
      before it, even though the tick counter wraps. */
  lemma ClientLoop(auto: bool, ps: seq<Pass>, now: int)
    requires Monotone(ps, now)
    ensures var l := Link(Init, true, 0); var log := RunLoop(l, auto, ps).log;
      Separated(log) && Spaced(log) && ConnectedExactly(l, auto, ps, log)
  {
    hide RunLoop, ConnectedExactly;
    var start := Link(Init, true, 0);
    var now', last' := RunInv(start, [], auto, ps, now, now);
    var log := RunLoop(start, auto, ps).log;
    assert [] + log == log;
    LoopConnects(start, auto, ps);
  }
}
