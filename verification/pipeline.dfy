/**
 * `SensorWorker.processarDados` as a whole: the lines of a chunk are
 * classified in order, unknown lines are logged as warnings, and every
 * reading is handed to `publicarNoMQTT`, whose attempts draw on one broker
 * script shared by the whole chunk.
 */
module Pipeline {
  import opened Wrappers
  import opened JavaText
  import opened Decoder
  import opened Publisher

  /** What the worker visibly does while handling a chunk. */
  datatype Observation = Warned(line: string) | Client(action: Action)

  /** A run: what was observed, how many broker attempts were used, and how
      many readings were delivered (their publish call returned normally). */
  datatype DispatchResult = DispatchResult(observations: seq<Observation>, attempts: nat, delivered: nat)

  /** The broker as seen by a publish call that starts after `offset`
      attempts have already been made. */
  function Shift(broker: Broker, offset: nat): Broker {
    (i: nat) => broker(offset + i)
  }

  lemma ShiftAt(broker: Broker, offset: nat, i: nat)
    ensures Shift(broker, offset)(i) == broker(offset + i)
  {
  }

  /** `a` is a transport publish of reading `e`: its topic, a payload that
      decodes to its value, and QoS 2. */
  predicate PublishOf(a: Action, e: Event) {
    a.TransportPublish? && e.Publish? && a.topic == e.topic &&
    Utf8.Decode(a.payload) == Some(e.value) && a.qos == QosExactlyOnce
  }

  function Lift(trace: seq<Action>): (obs: seq<Observation>)
    ensures |obs| == |trace|
  {
    if |trace| == 0 then [] else [Client(trace[0])] + Lift(trace[1..])
  }

  /** What handling one event does, starting at attempt `offset` of the
      broker script: a warning is logged, or a reading goes through one
      `publicarNoMQTT` call, which is either delivered or reported once. */
  function Handle(cfg: RetryConfig, e: Event, broker: Broker, offset: nat): (h: DispatchResult)
    requires cfg.maxAttempts >= 1
    ensures Warnings(h.observations) == WarnLines([e])
    ensures Reports(h.observations) + h.delivered == PublishCount([e])
    ensures e.Warn? ==> h.attempts == 0
    ensures e.Publish? ==> 1 <= h.attempts <= cfg.maxAttempts
    ensures e.Publish? && h.delivered == 0 ==> h.attempts == cfg.maxAttempts
    // A warning touches no client; a reading only drives the client, and
    // every transport publish carries its own topic and value.
    ensures e.Warn? ==> h.observations == [Warned(e.line)]
    ensures e.Publish? ==> forall o | o in h.observations ::
      o.Client? && (o.action.TransportPublish? ==> PublishOf(o.action, e))
  {
    var one := [e];
    assert one[1..] == [];
    match e
    case Warn(line) =>
      var obs := [Warned(line)];
      assert obs[1..] == [];
      DispatchResult(obs, 0, 0)
    case Publish(topic, value) =>
      var r := PublishOutcome(cfg, topic, value, Shift(broker, offset));
      LiftViews(r.trace);
      DispatchResult(Lift(r.trace), r.attempts, if r.delivered then 1 else 0)
  }

  /** A reading is delivered exactly when some attempt within the budget,
      counted from `offset`, succeeds. */
  lemma HandleDelivered(cfg: RetryConfig, e: Event, broker: Broker, offset: nat)
    requires cfg.maxAttempts >= 1 && e.Publish?
    ensures Handle(cfg, e, broker, offset).delivered == 1 <==>
      exists i :: 0 <= i < cfg.maxAttempts && Shift(broker, offset)(i).Succeeds()
  {
    var p := PublishOutcome(cfg, e.topic, e.value, Shift(broker, offset));
    HandlePublishCall(cfg, e.topic, e.value, broker, offset, p);
  }

  /** Handling the events in order, each publish call starting where the
      previous one left the broker script. Every reading is handed to the
      publisher, whatever happened to the ones before it. */
  function DispatchEvents(cfg: RetryConfig, events: seq<Event>, broker: Broker): (r: DispatchResult)
    requires cfg.maxAttempts >= 1
    // Exactly the unknown lines are warned about, in order.
    ensures Warnings(r.observations) == WarnLines(events)
    // Every reading is either delivered or reported, exactly once.
    ensures Reports(r.observations) + r.delivered == PublishCount(events)
    // Every reading gets at least one attempt (see `DispatchAttempts` for
    // the upper bound).
    ensures PublishCount(events) <= r.attempts
    // Whatever the broker does, the transport only receives the readings'
    // own topics and values, at QoS 2.
    ensures forall o | o in r.observations && o.Client? && o.action.TransportPublish? ::
      exists e | e in events :: PublishOf(o.action, e)
    decreases |events|
  {
    if |events| == 0 then DispatchResult([], 0, 0)
    else
      var init, last := events[..|events| - 1], events[|events| - 1];
      var prev := DispatchEvents(cfg, init, broker);
      var h := Handle(cfg, last, broker, prev.attempts);
      SplitLast(events);
      ExpectedAppend(init, [last]);
      WarningsAppend(prev.observations, h.observations);
      ReportsAppend(prev.observations, h.observations);
      DispatchResult(prev.observations + h.observations, prev.attempts + h.attempts, prev.delivered + h.delivered)
  }

  /** One more event extends the run by what handling it does. */
  lemma DispatchEventsSnoc(cfg: RetryConfig, events: seq<Event>, e: Event, broker: Broker)
    requires cfg.maxAttempts >= 1
    ensures var prev := DispatchEvents(cfg, events, broker);
      var h := Handle(cfg, e, broker, prev.attempts);
      DispatchEvents(cfg, events + [e], broker) ==
        DispatchResult(prev.observations + h.observations, prev.attempts + h.attempts, prev.delivered + h.delivered)
  {
    var all := events + [e];
    assert all[..|all| - 1] == events && all[|all| - 1] == e;
  }

  // ---------------------------------------------------------------------
  // Views of a run: what was published, what was warned about
  // ---------------------------------------------------------------------

  /** The transport publishes of a run, in order. */
  function Published(obs: seq<Observation>): seq<Action> {
    if |obs| == 0 then []
    else
      var head := if obs[0].Client? && obs[0].action.TransportPublish? then [obs[0].action] else [];
      head + Published(obs[1..])
  }

  /** The lines a run warned about, in order. */
  function Warnings(obs: seq<Observation>): seq<string> {
    if |obs| == 0 then [] else (if obs[0].Warned? then [obs[0].line] else []) + Warnings(obs[1..])
  }

  /** How many error reports a run made. */
  function Reports(obs: seq<Observation>): nat {
    if |obs| == 0 then 0 else (if obs[0] == Client(ReportError) then 1 else 0) + Reports(obs[1..])
  }

  /** The messages the decoded events ask for, in order. */
  function Expected(events: seq<Event>): seq<Action> {
    if |events| == 0 then []
    else
      var head := if events[0].Publish? then [Message(events[0].topic, events[0].value)] else [];
      head + Expected(events[1..])
  }

  /** The lines the decoded events warn about, in order. */
  function WarnLines(events: seq<Event>): seq<string> {
    if |events| == 0 then [] else (if events[0].Warn? then [events[0].line] else []) + WarnLines(events[1..])
  }

  /** How many publishes the decoded events ask for. */
  function PublishCount(events: seq<Event>): nat {
    if |events| == 0 then 0 else (if events[0].Publish? then 1 else 0) + PublishCount(events[1..])
  }

  lemma {:induction false} PublishedAppend(a: seq<Observation>, b: seq<Observation>)
    ensures Published(a + b) == Published(a) + Published(b)
    decreases |a|
  {
    if |a| == 0 {
      assert a + b == b;
    } else {
      assert (a + b)[0] == a[0];
      assert (a + b)[1..] == a[1..] + b;
      PublishedAppend(a[1..], b);
      ConcatAssoc(if a[0].Client? && a[0].action.TransportPublish? then [a[0].action] else [],
        Published(a[1..]), Published(b));
    }
  }

  lemma {:induction false} WarningsAppend(a: seq<Observation>, b: seq<Observation>)
    ensures Warnings(a + b) == Warnings(a) + Warnings(b)
    decreases |a|
  {
    if |a| == 0 {
      assert a + b == b;
    } else {
      assert (a + b)[0] == a[0];
      assert (a + b)[1..] == a[1..] + b;
      WarningsAppend(a[1..], b);
      ConcatAssoc(if a[0].Warned? then [a[0].line] else [], Warnings(a[1..]), Warnings(b));
    }
  }

  lemma {:induction false} ReportsAppend(a: seq<Observation>, b: seq<Observation>)
    ensures Reports(a + b) == Reports(a) + Reports(b)
    decreases |a|
  {
    if |a| == 0 {
      assert a + b == b;
    } else {
      assert (a + b)[0] == a[0];
      assert (a + b)[1..] == a[1..] + b;
      ReportsAppend(a[1..], b);
    }
  }

  lemma {:induction false} ExpectedAppend(a: seq<Event>, b: seq<Event>)
    ensures Expected(a + b) == Expected(a) + Expected(b)
    ensures WarnLines(a + b) == WarnLines(a) + WarnLines(b)
    ensures PublishCount(a + b) == PublishCount(a) + PublishCount(b)
    decreases |a|
  {
    if |a| == 0 {
      assert a + b == b;
    } else {
      assert (a + b)[0] == a[0];
      assert (a + b)[1..] == a[1..] + b;
      ExpectedAppend(a[1..], b);
      ConcatAssoc(if a[0].Publish? then [Message(a[0].topic, a[0].value)] else [],
        Expected(a[1..]), Expected(b));
      ConcatAssoc(if a[0].Warn? then [a[0].line] else [], WarnLines(a[1..]), WarnLines(b));
    }
  }

  /** Client actions never read as warnings, and count their reports. */
  lemma {:induction false} LiftViews(trace: seq<Action>)
    ensures Warnings(Lift(trace)) == []
    ensures Reports(Lift(trace)) == Count(trace, ErrorKind)
    ensures forall o | o in Lift(trace) :: o.Client? && o.action in trace
    decreases |trace|
  {
    if |trace| > 0 {
      LiftViews(trace[1..]);
    }
  }

  /** The decoded events of `lines` with the last line split off. */
  lemma DecodeLastLine(lines: seq<string>)
    requires |lines| > 0
    ensures DecodeLines(lines) ==
      DecodeLines(lines[..|lines| - 1]) + ToSeq(ClassifyLine(lines[|lines| - 1]))
  {
    var last := lines[|lines| - 1];
    SplitLast(lines);
    DecodeLinesAppend(lines[..|lines| - 1], [last]);
    DecodeOneLine(last);
  }

  // ---------------------------------------------------------------------
  // Properties of a whole chunk
  // ---------------------------------------------------------------------

  /** A broker that is always connected and always accepts. */
  ghost predicate Healthy(broker: Broker) {
    forall i: nat :: broker(i).connectedAtStart && broker(i).Succeeds()
  }

  /** A broker on which no attempt ever succeeds. */
  ghost predicate NeverSucceeds(broker: Broker) {
    forall i: nat :: !broker(i).Succeeds()
  }

  /** Against a healthy broker, the transport receives exactly the messages
      the decoded readings ask for, in order, and every reading is delivered. */
  lemma {:induction false} DispatchHealthy(cfg: RetryConfig, events: seq<Event>, broker: Broker)
    requires cfg.maxAttempts >= 1
    requires Healthy(broker)
    ensures Published(DispatchEvents(cfg, events, broker).observations) == Expected(events)
    ensures DispatchEvents(cfg, events, broker).delivered == PublishCount(events)
    decreases |events|
  {
    if |events| > 0 {
      var init, last := events[..|events| - 1], events[|events| - 1];
      var prev := DispatchEvents(cfg, init, broker);
      var h := Handle(cfg, last, broker, prev.attempts);
      DispatchHealthy(cfg, init, broker);
      SplitLast(events);
      ExpectedAppend(init, [last]);
      DispatchEventsSnoc(cfg, init, last, broker);
      PublishedAppend(prev.observations, h.observations);
      var one := [last];
      assert one[1..] == [];
      if last.Publish? {
        var shifted := Shift(broker, prev.attempts);
        ShiftAt(broker, prev.attempts, 0);
        PublishOnHealthyBroker(cfg, last.topic, last.value, shifted);
        assert h.observations == [Client(Message(last.topic, last.value))];
        assert h.delivered == 1;
      }
    }
  }

  /** The broker attempts a chunk may use at most: the retry budget once
      per reading. */
  function Budget(cfg: RetryConfig, events: seq<Event>): nat {
    if |events| == 0 then 0
    else (if events[0].Publish? then cfg.maxAttempts else 0) + Budget(cfg, events[1..])
  }

  lemma {:induction false} BudgetAppend(cfg: RetryConfig, a: seq<Event>, b: seq<Event>)
    ensures Budget(cfg, a + b) == Budget(cfg, a) + Budget(cfg, b)
    decreases |a|
  {
    if |a| == 0 {
      assert a + b == b;
    } else {
      assert (a + b)[0] == a[0];
      assert (a + b)[1..] == a[1..] + b;
      BudgetAppend(cfg, a[1..], b);
    }
  }

  /** The budget is `maxAttempts` times the number of readings. */
  lemma {:induction false} BudgetIsProduct(cfg: RetryConfig, events: seq<Event>)
    ensures Budget(cfg, events) == cfg.maxAttempts * PublishCount(events)
    decreases |events|
  {
    if |events| > 0 {
      BudgetIsProduct(cfg, events[1..]);
      var m, n := cfg.maxAttempts, PublishCount(events[1..]);
      assert m * (n + 1) == m + m * n;
    }
  }

  /** One more event adds what handling it uses to the run, and its share to
      the budget. */
  lemma BudgetSnoc(cfg: RetryConfig, init: seq<Event>, last: Event, broker: Broker)
    requires cfg.maxAttempts >= 1
    ensures var prev := DispatchEvents(cfg, init, broker);
      var h := Handle(cfg, last, broker, prev.attempts);
      var all := DispatchEvents(cfg, init + [last], broker);
      all.attempts == prev.attempts + h.attempts &&
      all.delivered == prev.delivered + h.delivered &&
      Budget(cfg, init + [last]) == Budget(cfg, init) + (if last.Publish? then cfg.maxAttempts else 0)
  {
    DispatchEventsSnoc(cfg, init, last, broker);
    BudgetAppend(cfg, init, [last]);
    var one := [last];
    assert one[1..] == [];
  }

  /** A chunk uses at most `maxAttempts` broker attempts per reading. */
  lemma DispatchAttempts(cfg: RetryConfig, events: seq<Event>, broker: Broker)
    requires cfg.maxAttempts >= 1
    ensures DispatchEvents(cfg, events, broker).attempts <= cfg.maxAttempts * PublishCount(events)
  {
    DispatchWithinBudget(cfg, events, broker);
    BudgetIsProduct(cfg, events);
  }

  lemma {:induction false} DispatchWithinBudget(cfg: RetryConfig, events: seq<Event>, broker: Broker)
    requires cfg.maxAttempts >= 1
    ensures DispatchEvents(cfg, events, broker).attempts <= Budget(cfg, events)
    decreases |events|
  {
    if |events| > 0 {
      var init, last := events[..|events| - 1], events[|events| - 1];
      DispatchWithinBudget(cfg, init, broker);
      SplitLast(events);
      BudgetSnoc(cfg, init, last, broker);
    }
  }

  /** Against a broker that never accepts, a reading uses the whole budget
      and is not delivered. */
  lemma HandleNeverSucceeds(cfg: RetryConfig, e: Event, broker: Broker, offset: nat)
    requires cfg.maxAttempts >= 1 && e.Publish?
    requires NeverSucceeds(broker)
    ensures Handle(cfg, e, broker, offset).delivered == 0
    ensures Handle(cfg, e, broker, offset).attempts == cfg.maxAttempts
  {
    HandleDelivered(cfg, e, broker, offset);
    forall i | 0 <= i < cfg.maxAttempts
      ensures !Shift(broker, offset)(i).Succeeds()
    {
      ShiftAt(broker, offset, i);
    }
  }

  /** Against a broker that never accepts, every reading uses the whole retry
      budget and is reported once; the failures of earlier readings do not
      stop later ones from being tried. */
  lemma DispatchNeverSucceeds(cfg: RetryConfig, events: seq<Event>, broker: Broker)
    requires cfg.maxAttempts >= 1
    requires NeverSucceeds(broker)
    ensures DispatchEvents(cfg, events, broker).delivered == 0
    ensures Reports(DispatchEvents(cfg, events, broker).observations) == PublishCount(events)
    ensures DispatchEvents(cfg, events, broker).attempts == cfg.maxAttempts * PublishCount(events)
  {
    DispatchExhaustsBudget(cfg, events, broker);
    BudgetIsProduct(cfg, events);
  }

  lemma {:induction false} DispatchExhaustsBudget(cfg: RetryConfig, events: seq<Event>, broker: Broker)
    requires cfg.maxAttempts >= 1
    requires NeverSucceeds(broker)
    ensures DispatchEvents(cfg, events, broker).delivered == 0
    ensures DispatchEvents(cfg, events, broker).attempts == Budget(cfg, events)
    decreases |events|
  {
    if |events| > 0 {
      var init, last := events[..|events| - 1], events[|events| - 1];
      DispatchExhaustsBudget(cfg, init, broker);
      SplitLast(events);
      BudgetSnoc(cfg, init, last, broker);
      if last.Publish? {
        HandleNeverSucceeds(cfg, last, broker, DispatchEvents(cfg, init, broker).attempts);
      }
    }
  }

  /** Against a healthy broker, a temperature line then a humidity line
      publish the two values on their topics, in that order. */
  lemma TwoReadingsPublished(cfg: RetryConfig, broker: Broker, t: string, h: string, end: LineEnd)
    requires cfg.maxAttempts >= 1
    requires Healthy(broker)
    requires IsWireValue(t) && IsWireValue(h)
    ensures Published(DispatchEvents(cfg, Decode(TemperaturePrefix + t + Eol(end) + (HumidityPrefix + h + Eol(end))), broker).observations)
      == [Message(TemperatureTopic, t), Message(HumidityTopic, h)]
  {
    var chunk := TemperaturePrefix + t + Eol(end) + (HumidityPrefix + h + Eol(end));
    DispatchHealthy(cfg, Decode(chunk), broker);
    DecodeTwoReadings(t, h, end);
    ExpectedTwo(Publish(TemperatureTopic, t), Publish(HumidityTopic, h));
  }

  /** Two readings ask for their two messages, in order. */
  lemma ExpectedTwo(a: Event, b: Event)
    requires a.Publish? && b.Publish?
    ensures Expected([a, b]) == [Message(a.topic, a.value), Message(b.topic, b.value)]
  {
    var events := [a, b];
    var tail := events[1..];
    assert tail[0] == b && tail[1..] == [];
    assert Expected(tail) == [Message(b.topic, b.value)] + [];
  }

  /** Against a healthy broker, the chunk `TEMP:22.5\nUMID:55.3\n` publishes
      `22.5` on the temperature topic and then `55.3` on the humidity topic. */
  lemma TemperatureThenHumidityPublished(cfg: RetryConfig, broker: Broker)
    requires cfg.maxAttempts >= 1
    requires Healthy(broker)
    ensures Published(DispatchEvents(cfg, Decode("TEMP:22.5\nUMID:55.3\n"), broker).observations)
      == [Message(TemperatureTopic, "22.5"), Message(HumidityTopic, "55.3")]
  {
    assert IsWireValue("22.5") && IsWireValue("55.3");
    assert "TEMP:" + "22.5" + "\n" + ("UMID:" + "55.3" + "\n") == "TEMP:22.5\nUMID:55.3\n";
    TwoReadingsPublished(cfg, broker, "22.5", "55.3", LF);
  }

  /** Whatever the broker does, a chunk holding one unknown line warns once,
      quoting it, and does nothing to the client. */
  lemma UnknownLineWarnsOnly(cfg: RetryConfig, line: string, broker: Broker)
    requires cfg.maxAttempts >= 1
    requires '\n' !in line && !IsBlank(line)
    requires !StartsWith(line, TemperaturePrefix) && !StartsWith(line, HumidityPrefix)
    ensures DispatchEvents(cfg, Decode(line), broker).observations == [Warned(line)]
  {
    DecodeUnknownLine(line);
    var events: seq<Event> := [];
    DispatchEventsSnoc(cfg, events, Warn(line), broker);
    assert events + [Warn(line)] == [Warn(line)];
  }

  /** The chunk `INVALID_DATA` leads to one warning and no client action. */
  lemma InvalidDataWarnsOnly(cfg: RetryConfig, broker: Broker)
    requires cfg.maxAttempts >= 1
    ensures DispatchEvents(cfg, Decode("INVALID_DATA"), broker).observations == [Warned("INVALID_DATA")]
  {
    var line := "INVALID_DATA";
    assert !IsTrimmable(line[0]);
    assert line[0] != TemperaturePrefix[0] && line[0] != HumidityPrefix[0];
    FirstCharRulesOutPrefix(line, TemperaturePrefix);
    FirstCharRulesOutPrefix(line, HumidityPrefix);
    UnknownLineWarnsOnly(cfg, line, broker);
  }

  /** The run `acc` continued by one line: nothing for a blank line, and
      otherwise what handling its event does. */
  function LineStep(cfg: RetryConfig, line: string, broker: Broker, acc: DispatchResult): (next: DispatchResult)
    requires cfg.maxAttempts >= 1
    // The run only grows: a blank line leaves it as it was, and any other
    // line uses at most one publish call's budget and delivers at most once.
    ensures |acc.observations| <= |next.observations| && next.observations[..|acc.observations|] == acc.observations
    ensures IsBlank(line) ==> next == acc
    ensures acc.attempts <= next.attempts <= acc.attempts + cfg.maxAttempts
    ensures acc.delivered <= next.delivered <= acc.delivered + 1
  {
    ClassifyLineCases(line);
    match ClassifyLine(line)
    case None => acc
    case Some(e) =>
      var h := Handle(cfg, e, broker, acc.attempts);
      DispatchResult(acc.observations + h.observations, acc.attempts + h.attempts, acc.delivered + h.delivered)
  }

  /** Handling one more line extends the run by what handling its event does. */
  lemma DispatchNextLine(cfg: RetryConfig, lines: seq<string>, i: nat, broker: Broker)
    requires cfg.maxAttempts >= 1 && i < |lines|
    ensures DispatchEvents(cfg, DecodeLines(lines[..i + 1]), broker) ==
      LineStep(cfg, lines[i], broker, DispatchEvents(cfg, DecodeLines(lines[..i]), broker))
  {
    var done := DecodeLines(lines[..i]);
    assert DecodeLines(lines[..i + 1]) == done + ToSeq(ClassifyLine(lines[i])) by {
      DecodeLastLine(lines[..i + 1]);
      assert lines[..i + 1][..i] == lines[..i] && lines[..i + 1][i] == lines[i];
    }
    DispatchClassified(cfg, done, lines[i], broker);
  }

  /** Handling the event of one more line, if it has one, is one `LineStep`. */
  lemma DispatchClassified(cfg: RetryConfig, done: seq<Event>, line: string, broker: Broker)
    requires cfg.maxAttempts >= 1
    ensures DispatchEvents(cfg, done + ToSeq(ClassifyLine(line)), broker) ==
      LineStep(cfg, line, broker, DispatchEvents(cfg, done, broker))
  {
    var c := ClassifyLine(line);
    if c.Some? {
      assert ToSeq(c) == [c.value];
      DispatchEventsSnoc(cfg, done, c.value, broker);
    } else {
      assert done + ToSeq(c) == done;
    }
  }

  /** Handling a reading is one publish call against the rest of the script. */
  lemma HandlePublishCall(cfg: RetryConfig, topic: string, value: string, broker: Broker, offset: nat, p: PublishResult)
    requires cfg.maxAttempts >= 1
    requires p == PublishOutcome(cfg, topic, value, Shift(broker, offset))
    ensures Handle(cfg, Publish(topic, value), broker, offset) ==
      DispatchResult(Lift(p.trace), p.attempts, if p.delivered then 1 else 0)
  {
  }

  /** One line of `processarDados`'s loop, continuing the run `acc`: a blank
      line does nothing, an unknown one is logged, a reading is published
      against the rest of the broker script. */
  method HandleLine(cfg: RetryConfig, line: string, broker: Broker, acc: DispatchResult) returns (next: DispatchResult)
    requires cfg.maxAttempts >= 1
    ensures next == LineStep(cfg, line, broker, acc)
  {
    match ClassifyLine(line) {
      case None =>
        next := acc;
      case Some(Warn(l)) =>
        next := DispatchResult(acc.observations + [Warned(l)], acc.attempts, acc.delivered);
      case Some(Publish(topic, value)) =>
        var p := Publisher.Publish(cfg, topic, value, Shift(broker, acc.attempts));
        var h := DispatchResult(Lift(p.trace), p.attempts, if p.delivered then 1 else 0);
        assert Handle(cfg, Publish(topic, value), broker, acc.attempts) == h by {
          HandlePublishCall(cfg, topic, value, broker, acc.attempts, p);
        }
        next := DispatchResult(acc.observations + h.observations, acc.attempts + h.attempts, acc.delivered + h.delivered);
    }
  }

  /** The loop of `processarDados` over the lines of a chunk: each line is
      classified and its event handled at once, which amounts to handling the
      decoded events in order. */
  method DispatchLines(cfg: RetryConfig, lines: seq<string>, broker: Broker) returns (r: DispatchResult)
    requires cfg.maxAttempts >= 1
    ensures r == DispatchEvents(cfg, DecodeLines(lines), broker)
  {
    r := DispatchResult([], 0, 0);
    var i := 0;
    assert lines[..0] == [] && DecodeLines([]) == [];
    while i < |lines|
      invariant i <= |lines|
      invariant r == DispatchEvents(cfg, DecodeLines(lines[..i]), broker)
    {
      DispatchNextLine(cfg, lines, i, broker);
      r := HandleLine(cfg, lines[i], broker, r);
      i := i + 1;
    }
    assert lines[..i] == lines;
  }

  /** `processarDados`: the chunk is split into lines and dispatched. */
  method ProcessData(cfg: RetryConfig, chunk: string, broker: Broker) returns (r: DispatchResult)
    requires cfg.maxAttempts >= 1
    ensures r == DispatchEvents(cfg, Decode(chunk), broker)
    ensures Warnings(r.observations) == WarnLines(Decode(chunk))
    ensures Reports(r.observations) + r.delivered == PublishCount(Decode(chunk))
    ensures PublishCount(Decode(chunk)) <= r.attempts <= cfg.maxAttempts * PublishCount(Decode(chunk))
    ensures Healthy(broker) ==>
      Published(r.observations) == Expected(Decode(chunk)) && Reports(r.observations) == 0
    ensures NeverSucceeds(broker) ==> Reports(r.observations) == PublishCount(Decode(chunk))
    ensures forall o | o in r.observations && o.Client? && o.action.TransportPublish? ::
      exists e | e in Decode(chunk) :: PublishOf(o.action, e)
  {
    var lines := SplitLines(chunk);
    r := DispatchLines(cfg, lines, broker);
    DispatchAttempts(cfg, Decode(chunk), broker);
    if Healthy(broker) {
      DispatchHealthy(cfg, Decode(chunk), broker);
    }
    if NeverSucceeds(broker) {
      DispatchNeverSucceeds(cfg, Decode(chunk), broker);
    }
  }
}
