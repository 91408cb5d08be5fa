/**
 * `SensorWorker.publicarNoMQTT` and `doPublicar`: one message published to
 * the broker with QoS 2, each attempt reconnecting first when the client
 * reports it is disconnected, attempts repeated by the retry policy until
 * one succeeds or the budget is spent, and a spent budget reported once
 * instead of raised.
 *
 * The broker is a scripted oracle: for every attempt it says whether the
 * client reports itself connected, whether `reconnect()` returns normally,
 * whether the client reports itself connected at the second check, and
 * whether the transport's `publish` returns normally.
 */
module Publisher {
  import Utf8
  import opened Wrappers

  /** The retry policy: how many attempts in all, and the wait between them
      (the wait is kept as configuration only; time is not modelled). */
  datatype RetryConfig = RetryConfig(maxAttempts: nat, waitMillis: nat)

  /** The policy the production constructor builds: three attempts, two
      seconds apart. */
  const ProductionRetry := RetryConfig(3, 2000)

  /** Every message is published with MQTT QoS 2 (exactly once). */
  const QosExactlyOnce := 2

  /** What the broker does during one attempt. */
  datatype AttemptScript = AttemptScript(
    connectedAtStart: bool,  // first `isConnected()`
    reconnectOk: bool,       // `reconnect()` returns instead of throwing
    connectedAtCheck: bool,  // second `isConnected()`, asked on every attempt
    publishOk: bool)         // transport `publish` returns instead of throwing
  {
    /** The attempt gets as far as handing the message to the transport:
        the reconnect (if one was needed) did not throw and the client then
        reports itself connected. */
    predicate ReachesTransport() {
      (connectedAtStart || reconnectOk) && connectedAtCheck
    }

    /** The attempt returns normally. */
    predicate Succeeds() {
      ReachesTransport() && publishOk
    }
  }

  /** The script for the whole call: the broker's behaviour on attempt `i`. */
  type Broker = nat -> AttemptScript

  /** What the worker visibly does to the client, and its one error report. */
  datatype Action =
    | Reconnect
    | TransportPublish(topic: string, payload: seq<Utf8.byte>, qos: int)
    | ReportError

  datatype Kind = ReconnectKind | PublishKind | ErrorKind

  function KindOf(a: Action): Kind {
    match a
    case Reconnect => ReconnectKind
    case TransportPublish(_, _, _) => PublishKind
    case ReportError => ErrorKind
  }

  /** How many actions of kind `k` a trace holds. */
  function Count(trace: seq<Action>, k: Kind): nat {
    if |trace| == 0 then 0
    else (if KindOf(trace[0]) == k then 1 else 0) + Count(trace[1..], k)
  }

  lemma {:induction false} CountAppend(s: seq<Action>, t: seq<Action>, k: Kind)
    ensures Count(s + t, k) == Count(s, k) + Count(t, k)
    decreases |s|
  {
    if |s| == 0 {
      assert s + t == t;
    } else {
      assert (s + t)[0] == s[0];
      assert (s + t)[1..] == s[1..] + t;
      CountAppend(s[1..], t, k);
    }
  }

  /** The message `doPublicar` hands to the transport: the topic, the UTF-8
      bytes of the text, QoS 2. */
  function Message(topic: string, value: string): (m: Action)
    ensures m.TransportPublish? && m.topic == topic && m.qos == QosExactlyOnce
    ensures Utf8.Decode(m.payload) == Some(value)
  {
    Utf8.DecodeEncode(value);
    TransportPublish(topic, Utf8.Encode(value), QosExactlyOnce)
  }

  /** Every transport publish in `trace` carries the given topic, a payload
      that decodes back to the given text, and QoS 2. */
  predicate CarriesOnly(trace: seq<Action>, topic: string, value: string) {
    forall e | e in trace && e.TransportPublish? ::
      e.topic == topic && Utf8.Decode(e.payload) == Some(value) && e.qos == QosExactlyOnce
  }

  datatype AttemptResult = AttemptResult(actions: seq<Action>, ok: bool)

  /** One run of `doPublicar`: reconnect when the client reports itself
      disconnected; fail without publishing when it still does; otherwise
      publish, which may itself fail. */
  function Attempt(topic: string, value: string, a: AttemptScript): (r: AttemptResult)
    ensures r.ok <==> a.Succeeds()
    ensures Count(r.actions, ReconnectKind) == if a.connectedAtStart then 0 else 1
    ensures Count(r.actions, PublishKind) == if a.ReachesTransport() then 1 else 0
    ensures Count(r.actions, ErrorKind) == 0
    ensures CarriesOnly(r.actions, topic, value)
    // The reconnect, when there is one, comes before the publish.
    ensures !a.connectedAtStart ==> r.actions[0] == Reconnect
  {
    Utf8.DecodeEncode(value);
    var reconnect := if a.connectedAtStart then [] else [Reconnect];
    if !a.connectedAtStart && !a.reconnectOk then
      AttemptResult(reconnect, false)
    else if !a.connectedAtCheck then
      AttemptResult(reconnect, false)
    else
      var publish := [Message(topic, value)];
      CountAppend(reconnect, publish, ReconnectKind);
      CountAppend(reconnect, publish, PublishKind);
      CountAppend(reconnect, publish, ErrorKind);
      AttemptResult(reconnect + publish, a.publishOk)
  }

  /** How many of the first `n` attempts reach the transport. */
  function Reaching(broker: Broker, n: nat): (c: nat)
    ensures c <= n
  {
    if n == 0 then 0 else Reaching(broker, n - 1) + (if broker(n - 1).ReachesTransport() then 1 else 0)
  }

  /** How many of the first `n` attempts start disconnected. */
  function Disconnected(broker: Broker, n: nat): (c: nat)
    ensures c <= n
  {
    if n == 0 then 0 else Disconnected(broker, n - 1) + (if broker(n - 1).connectedAtStart then 0 else 1)
  }

  /** The actions of the first `n` attempts, in order. */
  function AttemptsTrace(topic: string, value: string, broker: Broker, n: nat): (trace: seq<Action>)
    ensures Count(trace, PublishKind) == Reaching(broker, n)
    ensures Count(trace, ReconnectKind) == Disconnected(broker, n)
    ensures Count(trace, ErrorKind) == 0
    ensures CarriesOnly(trace, topic, value)
  {
    if n == 0 then []
    else
      var prefix := AttemptsTrace(topic, value, broker, n - 1);
      var last := Attempt(topic, value, broker(n - 1)).actions;
      CountAppend(prefix, last, PublishKind);
      CountAppend(prefix, last, ReconnectKind);
      CountAppend(prefix, last, ErrorKind);
      prefix + last
  }

  /** The first attempt at or after `i` and before `max` that succeeds, or
      `max` when none does. */
  function FirstSuccess(broker: Broker, i: nat, max: nat): (r: nat)
    requires i <= max
    ensures i <= r <= max
    ensures forall j :: i <= j < r ==> !broker(j).Succeeds()
    ensures r < max ==> broker(r).Succeeds()
    decreases max - i
  {
    if i == max || broker(i).Succeeds() then i else FirstSuccess(broker, i + 1, max)
  }

  datatype PublishResult = PublishResult(trace: seq<Action>, attempts: nat, delivered: bool)

  /** What one `publicarNoMQTT` call does against `broker`: the attempts up to
      and including the first successful one, all of them when none succeeds,
      and then a single error report when none did. The call always returns. */
  function PublishOutcome(cfg: RetryConfig, topic: string, value: string, broker: Broker): (r: PublishResult)
    requires cfg.maxAttempts >= 1
    // Bounded retry, stopping at the first success.
    ensures 1 <= r.attempts <= cfg.maxAttempts
    ensures forall i :: 0 <= i < r.attempts - 1 ==> !broker(i).Succeeds()
    ensures r.delivered <==> broker(r.attempts - 1).Succeeds()
    ensures r.delivered <==> exists i :: 0 <= i < cfg.maxAttempts && broker(i).Succeeds()
    ensures !r.delivered ==> r.attempts == cfg.maxAttempts
    // Exactly one error report on exhaustion, none on success; it comes last.
    ensures Count(r.trace, ErrorKind) == if r.delivered then 0 else 1
    ensures !r.delivered ==> r.trace[|r.trace| - 1] == ReportError
    // One transport publish per attempt that reached the transport, one
    // reconnect per attempt that started disconnected.
    ensures Count(r.trace, PublishKind) == Reaching(broker, r.attempts)
    ensures Count(r.trace, ReconnectKind) == Disconnected(broker, r.attempts)
    ensures CarriesOnly(r.trace, topic, value)
  {
    var first := FirstSuccess(broker, 0, cfg.maxAttempts);
    var delivered := first < cfg.maxAttempts;
    var attempts := if delivered then first + 1 else cfg.maxAttempts;
    var tried := AttemptsTrace(topic, value, broker, attempts);
    var report := if delivered then [] else [ReportError];
    CountAppend(tried, report, ErrorKind);
    CountAppend(tried, report, PublishKind);
    CountAppend(tried, report, ReconnectKind);
    PublishResult(tried + report, attempts, delivered)
  }

  /** `publicarNoMQTT` as a loop with an attempt counter, as the retry
      decorator runs it. */
  method Publish(cfg: RetryConfig, topic: string, value: string, broker: Broker)
    returns (r: PublishResult)
    requires cfg.maxAttempts >= 1
    ensures r == PublishOutcome(cfg, topic, value, broker)
  {
    var trace: seq<Action> := [];
    var attempt: nat := 0;
    var delivered := false;
    while attempt < cfg.maxAttempts && !delivered
      invariant attempt <= cfg.maxAttempts
      invariant trace == AttemptsTrace(topic, value, broker, attempt)
      invariant forall i :: 0 <= i < attempt - 1 ==> !broker(i).Succeeds()
      invariant delivered <==> attempt > 0 && broker(attempt - 1).Succeeds()
      decreases cfg.maxAttempts - attempt
    {
      var result := Attempt(topic, value, broker(attempt));
      trace := trace + result.actions;
      attempt := attempt + 1;
      delivered := result.ok;
    }
    if !delivered {
      trace := trace + [ReportError];
    }
    FirstSuccessIs(broker, cfg.maxAttempts, if delivered then attempt - 1 else attempt);
    PublishOutcomeAt(cfg, topic, value, broker, attempt, delivered);
    r := PublishResult(trace, attempt, delivered);
  }

  /** The outcome once the number of attempts and whether the last one
      succeeded are known. */
  lemma PublishOutcomeAt(cfg: RetryConfig, topic: string, value: string, broker: Broker, n: nat, ok: bool)
    requires cfg.maxAttempts >= 1
    requires FirstSuccess(broker, 0, cfg.maxAttempts) == if ok then n - 1 else n
    requires if ok then 1 <= n <= cfg.maxAttempts else n == cfg.maxAttempts
    ensures PublishOutcome(cfg, topic, value, broker) ==
      PublishResult(AttemptsTrace(topic, value, broker, n) + (if ok then [] else [ReportError]), n, ok)
  {
  }

  /** The first success is the attempt that succeeds after only failures,
      or `max` when all of them fail. */
  lemma FirstSuccessIs(broker: Broker, max: nat, k: nat)
    requires k <= max
    requires forall j :: 0 <= j < k ==> !broker(j).Succeeds()
    requires k == max || broker(k).Succeeds()
    ensures FirstSuccess(broker, 0, max) == k
  {
  }

  // ---------------------------------------------------------------------
  // Properties of one publish call
  // ---------------------------------------------------------------------

  /** When each of the first `n` attempts reaches the transport, each of them
      publishes. */
  lemma {:induction false} ReachingAll(broker: Broker, n: nat)
    requires forall i :: 0 <= i < n ==> broker(i).ReachesTransport()
    ensures Reaching(broker, n) == n
  {
    if n > 0 {
      ReachingAll(broker, n - 1);
    }
  }

  /** When none of the first `n` attempts reaches the transport, nothing is
      published. */
  lemma {:induction false} ReachingNone(broker: Broker, n: nat)
    requires forall i :: 0 <= i < n ==> !broker(i).ReachesTransport()
    ensures Reaching(broker, n) == 0
  {
    if n > 0 {
      ReachingNone(broker, n - 1);
    }
  }

  /** If the transport rejects the first `k - 1` publishes and accepts the
      `k`-th, within the budget, exactly `k` publishes happen and nothing is
      reported. */
  lemma RetryStopsAtFirstSuccess(cfg: RetryConfig, topic: string, value: string, broker: Broker, k: nat)
    requires 1 <= k <= cfg.maxAttempts
    requires forall i :: 0 <= i < k ==> broker(i).ReachesTransport()
    requires forall i :: 0 <= i < k - 1 ==> !broker(i).publishOk
    requires broker(k - 1).publishOk
    ensures PublishOutcome(cfg, topic, value, broker).delivered
    ensures PublishOutcome(cfg, topic, value, broker).attempts == k
    ensures Count(PublishOutcome(cfg, topic, value, broker).trace, PublishKind) == k
    ensures Count(PublishOutcome(cfg, topic, value, broker).trace, ErrorKind) == 0
  {
    assert broker(k - 1).Succeeds();
    ReachingAll(broker, k);
  }

  /** If every attempt in the budget reaches the transport and is rejected,
      the call publishes `maxAttempts` times, then reports once, and returns. */
  lemma RetryExhausted(cfg: RetryConfig, topic: string, value: string, broker: Broker)
    requires cfg.maxAttempts >= 1
    requires forall i :: 0 <= i < cfg.maxAttempts ==> broker(i).ReachesTransport() && !broker(i).publishOk
    ensures !PublishOutcome(cfg, topic, value, broker).delivered
    ensures Count(PublishOutcome(cfg, topic, value, broker).trace, PublishKind) == cfg.maxAttempts
    ensures Count(PublishOutcome(cfg, topic, value, broker).trace, ErrorKind) == 1
  {
    ReachingAll(broker, cfg.maxAttempts);
  }

  /** A broker that stays unreachable for the whole budget receives nothing;
      the failure is reported once and the call returns. */
  lemma UnreachableBrokerPublishesNothing(cfg: RetryConfig, topic: string, value: string, broker: Broker)
    requires cfg.maxAttempts >= 1
    requires forall i :: 0 <= i < cfg.maxAttempts ==> !broker(i).ReachesTransport()
    ensures Count(PublishOutcome(cfg, topic, value, broker).trace, PublishKind) == 0
    ensures Count(PublishOutcome(cfg, topic, value, broker).trace, ErrorKind) == 1
    ensures PublishOutcome(cfg, topic, value, broker).attempts == cfg.maxAttempts
  {
    ReachingNone(broker, cfg.maxAttempts);
  }

  /** A client found disconnected that comes back on `reconnect()` is
      reconnected once and publishes once, on the first attempt. */
  lemma ReconnectThenPublish(cfg: RetryConfig, topic: string, value: string, broker: Broker)
    requires cfg.maxAttempts >= 1
    requires broker(0) == AttemptScript(false, true, true, true)
    ensures PublishOutcome(cfg, topic, value, broker).trace == [Reconnect, Message(topic, value)]
  {
    var r := PublishOutcome(cfg, topic, value, broker);
    assert r.attempts == 1;
    assert AttemptsTrace(topic, value, broker, 1) == [] + Attempt(topic, value, broker(0)).actions;
  }

  /** A client that is connected and whose first publish goes through sees
      exactly that one publish: no reconnect, no retry, no report. */
  lemma PublishOnHealthyBroker(cfg: RetryConfig, topic: string, value: string, broker: Broker)
    requires cfg.maxAttempts >= 1
    requires broker(0).connectedAtStart && broker(0).Succeeds()
    ensures PublishOutcome(cfg, topic, value, broker).trace == [Message(topic, value)]
  {
    var r := PublishOutcome(cfg, topic, value, broker);
    assert r.attempts == 1;
    assert AttemptsTrace(topic, value, broker, 1) == [] + Attempt(topic, value, broker(0)).actions;
  }

  /** With the production policy a call never publishes more than three times. */
  lemma ProductionBudget(topic: string, value: string, broker: Broker)
    ensures PublishOutcome(ProductionRetry, topic, value, broker).attempts <= 3
    ensures Count(PublishOutcome(ProductionRetry, topic, value, broker).trace, PublishKind) <= 3
  {
  }
}
