# SensorWorker: serial lines to MQTT, modelled in Dafny

`SensorWorker` bridges a sensor on a serial port to an MQTT broker. Each
chunk of text read from the port is handed to `processarDados`, which splits
it into lines with `split("\\r?\\n")` and classifies each line by its prefix:
`TEMP:<v>` is published on `sensores/temperatura`, `UMID:<v>` on
`sensores/umidade` (the value is everything after the five-character prefix,
trimmed), any other non-blank line is logged as unknown data, and blank lines
are ignored. Publishing goes through `publicarNoMQTT`, which runs
`doPublicar` under a retry policy of three attempts: an attempt reconnects
when the client reports it is disconnected, fails when it still is, and
otherwise hands a QoS 2 message holding the UTF-8 bytes of the value to the
client. When every attempt fails the error is logged once and the call
returns normally.

The model is split the way the code is:

- `wrappers.dfy` — `Option` and three small sequence facts.
- `java_text.dfy` (`JavaText`) — `String.trim()` (drops characters at or
  below U+0020), `startsWith`, and `split("\\r?\\n")` including Java's rules
  (no match gives `[s]`; trailing empty strings are removed).
- `utf8.dfy` (`Utf8`) — `getBytes(UTF_8)` and a strict decoder, so the
  payload can be shown to determine the text.
- `decoder.dfy` (`Decoder`) — the classification of `processarDados` as a
  pure function `Decode(chunk): seq<Event>`, with
  `Event = Publish(topic, value) | Warn(line)`, plus the sensor's own line
  format (`Render`) as its partner for a round trip.
- `publisher.dfy` (`Publisher`) — one attempt (`Attempt`), the retry policy
  as a declarative outcome (`PublishOutcome`) and as an explicit loop with an
  attempt counter (`Publish`). The broker is a scripted oracle: for attempt
  `i` it says whether the client is connected at the start, whether
  `reconnect()` returns normally, whether the client is connected at the
  second check, and whether the transport's `publish` returns normally. A
  call's trace records `Reconnect`, `TransportPublish(topic, payload, qos)`
  and `ReportError`.
- `pipeline.dfy` (`Pipeline`) — `processarDados` as a fold of one event
  handler (`Handle`) over the decoded events (`DispatchEvents`), and as the
  loop over lines the code runs (`DispatchLines`, `ProcessData`), which is
  proved to give the same result. The broker script is shared by the whole
  chunk: each publish call starts where the previous one left it.

The retry budget is a parameter `RetryConfig(maxAttempts, waitMillis)` with
`maxAttempts >= 1`; `ProductionRetry` is the policy built at
src/main/java/com/leitor/SensorWorker.java:78-81 (3 attempts, 2 s). The
constructor taking an existing client (line 94) uses the retry library's
defaults, which are not part of this model.

Behaviour of the code worth noting:

- Trimming is Java's `trim()`: every character at or below U+0020 is
  dropped from both ends, not only Unicode whitespace.
- A `\r` directly before a `\n` belongs to the separator of
  `split("\\r?\\n")`; any other `\r` stays in its line. A chunk without a
  `\n` is one line, a final `\r` included, so `TEMP:1\r` alone is published
  as `1` only because `trim()` drops the `\r`, and an unknown line `X\r` is
  warned about with its `\r`.
- A disconnected client is reconnected within the same attempt
  (src/test/java/com/leitor/SensorWorkerTest.java:52-65): `isConnected()`
  answers false, `reconnect()` runs, the second `isConnected()` answers true,
  and the message is published.
- The second `isConnected()` check (line 218) is made on every attempt, not
  only after a reconnect, so the oracle answers it separately.
- `reconnect()` can itself throw `MqttException`. That fails the attempt
  before the second check, so the oracle has a field for it.
- The retry wraps each publish call separately: a reading that exhausts its
  budget is reported and the loop goes on with the next line.

## Model

| member | source | states |
|---|---|---|
| JavaText.Trim | src/main/java/com/leitor/SensorWorker.java:167 | `trim()` returns an infix of the line with no character at or below U+0020 at either end, and everything it drops is such a character. It is empty exactly when the line is blank. |
| JavaText.TrimUnique | src/main/java/com/leitor/SensorWorker.java:167 | Any trimmed infix surrounded only by trimmable characters is the result of `trim()`, the empty infix of a blank line included, so `trim()` is determined by that description on every input. |
| JavaText.TrimOfTrimmed | src/main/java/com/leitor/SensorWorker.java:170 | `trim()` leaves an already trimmed value unchanged, so trimming is idempotent. |
| JavaText.TrimIgnoresTrailing | src/main/java/com/leitor/SensorWorker.java:167 | A trailing character at or below U+0020, such as a `\r`, does not change what `trim()` returns. |
| JavaText.SplitLines | src/main/java/com/leitor/SensorWorker.java:164 | `split("\\r?\\n")` returns `[s]` when `s` has no `\n`, a trailing `\r` included. Otherwise it returns the fragments up to the last non-empty one, and everything cut off is empty. The fragments are the strings without `\n` that, joined with `\n`, give the chunk with the `\r` of every `\r\n` removed. |
| JavaText.SplitNaiveJoin | src/main/java/com/leitor/SensorWorker.java:164 | The fragments of `\r?\n` contain no `\n`, and joining them with `\n` gives the chunk with the `\r` before every `\n` removed: a `\r` directly before `\n` belongs to the separator, and any other `\r` stays in its line. |
| JavaText.JoinLFInjective | src/main/java/com/leitor/SensorWorker.java:164 | Two lists of one-line strings with the same `\n`-join are equal, so the description in `SplitNaiveJoin` determines the fragments. |
| JavaText.SplitNaiveAppend | src/main/java/com/leitor/SensorWorker.java:164 | Splitting `a + "\n" + b` gives the fragments of `a` followed by those of `b`, unless `a` ends in `\r`. |
| JavaText.SplitNaiveAppendCRLF | src/main/java/com/leitor/SensorWorker.java:164 | Splitting `a + "\r\n" + b` gives the fragments of `a` followed by those of `b`, whatever `a` ends with. |
| Decoder.ClassifyLine | src/main/java/com/leitor/SensorWorker.java:166-175 | A published value is trimmed and goes to one of the two known topics. A warning quotes the line itself, and only a non-blank line is warned about. |
| Decoder.ClassifyLineCases | src/main/java/com/leitor/SensorWorker.java:166-175 | A line is ignored exactly when it is blank. `TEMP:` is tested first and on the untrimmed line, and it publishes the trimmed rest on the temperature topic. Otherwise `UMID:` does the same on the humidity topic. Any other non-blank line is warned about verbatim. Each case holds in both directions. |
| Decoder.DecodeLines | src/main/java/com/leitor/SensorWorker.java:165-176 | Each line yields at most one event. Warnings never quote a blank line. Publishes go only to the two known topics and carry trimmed values. |
| Decoder.Decode | src/main/java/com/leitor/SensorWorker.java:164-176 | A warning quotes a single non-blank line. A publish goes to one of the two topics with a trimmed value. |
| Decoder.DecodeIgnoresTrailingEmpty | src/main/java/com/leitor/SensorWorker.java:164 | Java's removal of trailing empty strings cannot be observed: decoding the split that keeps every fragment gives the same events. |
| Decoder.DecodeSingleLine | src/main/java/com/leitor/SensorWorker.java:164-175 | A chunk without `\n` yields exactly the event of that one line, a trailing `\r` included. |
| Decoder.DecodeAppend | src/main/java/com/leitor/SensorWorker.java:164-165 | Decoding keeps no state and processes lines in order: when `a` does not end in `\r`, the events of `a + "\n" + b` are the events of `a` followed by those of `b`. |
| Decoder.DecodeAppendCRLF | src/main/java/com/leitor/SensorWorker.java:164-165 | The events of `a + "\r\n" + b` are the events of `a` followed by those of `b`, whatever `a` ends with. |
| Decoder.DecodeLineBreak | src/main/java/com/leitor/SensorWorker.java:164-165 | Every `\n` ends a line: the events of `a + "\n" + b` are those of `a` without a final `\r`, followed by those of `b`. |
| Decoder.DecodeReadingFirst | src/main/java/com/leitor/SensorWorker.java:164-171 | The first line of a chunk, when it starts with `TEMP:`/`UMID:` and is ended by `\n` or `\r\n`, yields exactly one publish of its trimmed remainder on the matching topic, before the events of the rest of the chunk. |
| Decoder.DecodeReadingInContext | src/main/java/com/leitor/SensorWorker.java:166-171 | A `TEMP:`/`UMID:` line that follows a `\n`, ended by `\n` or `\r\n`, yields exactly one publish of its trimmed remainder on the matching topic, between the events of the text around it. This holds also when the remainder is empty. |
| Decoder.DecodeUnknownFirst | src/main/java/com/leitor/SensorWorker.java:164-175 | The first line of a chunk, when it is any other non-blank line ended by `\n` or `\r\n`, yields exactly one warning quoting it without the separator, before the events of the rest of the chunk. |
| Decoder.DecodeUnknownInContext | src/main/java/com/leitor/SensorWorker.java:172-175 | Any other non-blank line that follows a `\n`, ended by `\n` or `\r\n`, yields exactly one warning quoting it without the separator, and no publish. |
| Decoder.IndentedReadingIsUnknown | src/main/java/com/leitor/SensorWorker.java:166-172 | Leading whitespace before `TEMP:`/`UMID:` makes the line unknown data, because prefixes are matched before trimming. |
| Decoder.DecodeRender | src/main/java/com/leitor/SensorWorker.java:164-171 | Round trip of the line protocol: decoding `TEMP:v`/`UMID:v` lines, each ended by `\n` or each by `\r\n`, written for readings with trimmed one-line values, gives one publish per reading, in order, with the value unchanged. |
| Decoder.DecodeTemperatureThenHumidity | src/test/java/com/leitor/SensorWorkerTest.java:163-177 | `TEMP:22.5\nUMID:55.3\n` decodes to a temperature publish of `22.5` followed by a humidity publish of `55.3`. |
| Decoder.DecodeTemperatureThenHumidityCRLF | src/main/java/com/leitor/SensorWorker.java:164-171 | The same two readings ended by `\r\n` decode to the same two publishes; no `\r` reaches a value. |
| Decoder.DecodeUnknownLine | src/main/java/com/leitor/SensorWorker.java:172-175 | A chunk that is one non-blank line without either prefix yields exactly one warning quoting that line. |
| Decoder.DecodeInvalidData | src/test/java/com/leitor/SensorWorkerTest.java:68-107 | `INVALID_DATA` decodes to a single warning quoting it. |
| Utf8.Encode | src/main/java/com/leitor/SensorWorker.java:221 | The UTF-8 payload of a text has at least as many bytes as the text has characters and at most four times as many. |
| Utf8.DecodeEncode | src/main/java/com/leitor/SensorWorker.java:221 | The UTF-8 payload decodes back to the published text. |
| Utf8.EncodeInjective | src/main/java/com/leitor/SensorWorker.java:221 | Two different texts never produce the same payload. |
| Publisher.Message | src/main/java/com/leitor/SensorWorker.java:221-222 | The message for a reading is a transport publish on its topic, at QoS 2, whose payload decodes back to the value. |
| Publisher.Attempt | src/main/java/com/leitor/SensorWorker.java:212-223 | One attempt reconnects exactly when the client starts disconnected, and the reconnect comes first. It publishes once exactly when it reaches the transport, with the given topic, the UTF-8 payload and QoS 2. It succeeds exactly when it reaches the transport and the publish returns. |
| Publisher.AttemptsTrace | src/main/java/com/leitor/SensorWorker.java:190-198 | Over the first `n` attempts there is one transport publish per attempt that reached the transport, one reconnect per attempt that started disconnected, and no error report. |
| Publisher.PublishOutcome | src/main/java/com/leitor/SensorWorker.java:189-203 | A call makes between 1 and `maxAttempts` attempts and stops at the first success. It delivers exactly when some attempt within the budget succeeds, and otherwise uses the whole budget. It reports exactly once, as its last action, when no attempt succeeded, and never reports on success. Every publish carries the topic, the value's bytes and QoS 2. |
| Publisher.Publish | src/main/java/com/leitor/SensorWorker.java:189-203 | The attempt-counter loop computes exactly the declarative outcome of the retry policy. |
| Publisher.RetryStopsAtFirstSuccess | src/main/java/com/leitor/SensorWorker.java:197-198 | If `k-1` transport publishes fail and the `k`-th succeeds, with `k <= maxAttempts`, there are exactly `k` publishes, `k` attempts, delivery, and no report. |
| Publisher.RetryExhausted | src/main/java/com/leitor/SensorWorker.java:197-202 | If every attempt reaches the transport and fails, there are exactly `maxAttempts` publishes and exactly one report, and the call still returns. |
| Publisher.UnreachableBrokerPublishesNothing | src/main/java/com/leitor/SensorWorker.java:213-220 | If the client never becomes connected, nothing is published, the whole budget is used, and the failure is reported once. |
| Publisher.ReconnectThenPublish | src/main/java/com/leitor/SensorWorker.java:213-223 | A client that is disconnected and comes back on `reconnect()` gives exactly one reconnect followed by one publish. |
| Publisher.PublishOnHealthyBroker | src/main/java/com/leitor/SensorWorker.java:213-223 | A connected client whose publish returns gives exactly one publish, with no reconnect, no retry and no report. |
| Publisher.ProductionBudget | src/main/java/com/leitor/SensorWorker.java:78-81 | Under the production policy a call makes at most three attempts and at most three transport publishes. |
| Pipeline.Handle | src/main/java/com/leitor/SensorWorker.java:166-175 | Handling one event: an unknown line is warned about once and uses no attempt. A reading goes through one `publicarNoMQTT` call of 1 to `maxAttempts` attempts, is either delivered or reported exactly once, and uses the whole budget when not delivered. A warning touches no client. A reading only drives the client, and every transport publish it makes carries its own topic, a payload that decodes to its own value, and QoS 2. |
| Pipeline.HandleDelivered | src/main/java/com/leitor/SensorWorker.java:189-203 | A reading is delivered exactly when some attempt within the budget, counted from where the chunk has got to in the broker script, succeeds. |
| Pipeline.DispatchEvents | src/main/java/com/leitor/SensorWorker.java:165-176 | Handling the decoded events in order warns about exactly the unknown lines, in order. Every reading is delivered or reported, exactly once each, so reports plus deliveries equal the number of readings. Every reading gets at least one attempt, whatever happened to the ones before it. Whatever the broker does, every transport publish of the run carries the topic, value and QoS 2 of one of the decoded readings. |
| Pipeline.DispatchNextLine | src/main/java/com/leitor/SensorWorker.java:165-176 | Classifying one more line and handling its event at once is the same as handling the decoded events of all lines so far. |
| Pipeline.DispatchAttempts | src/main/java/com/leitor/SensorWorker.java:166-171 | A chunk uses at most `maxAttempts` broker attempts per reading it contains. |
| Pipeline.DispatchHealthy | src/main/java/com/leitor/SensorWorker.java:164-171 | Against a broker that always accepts, the transport receives exactly the messages the decoded readings ask for, in line order, and every reading is delivered. |
| Pipeline.DispatchNeverSucceeds | src/main/java/com/leitor/SensorWorker.java:189-203 | Against a broker on which no attempt succeeds, nothing is delivered, every reading is reported exactly once and uses the whole budget, so the chunk uses exactly `maxAttempts` attempts per reading. A failed reading does not stop later ones from being tried. |
| Pipeline.TwoReadingsPublished | src/main/java/com/leitor/SensorWorker.java:164-171 | Against a healthy broker, a temperature line and then a humidity line, ended by `\n` or `\r\n`, publish the two values on their topics in that order. |
| Pipeline.TemperatureThenHumidityPublished | src/test/java/com/leitor/SensorWorkerTest.java:163-177 | Against a healthy broker, `TEMP:22.5\nUMID:55.3\n` publishes `22.5` on the temperature topic and then `55.3` on the humidity topic. |
| Pipeline.UnknownLineWarnsOnly | src/main/java/com/leitor/SensorWorker.java:172-175 | A chunk that is one non-blank line without either prefix leads to one warning quoting it and no client action, whatever the broker does. |
| Pipeline.InvalidDataWarnsOnly | src/test/java/com/leitor/SensorWorkerTest.java:68-107 | `INVALID_DATA` leads to one warning quoting it and no client action, whatever the broker does. |
| Pipeline.LineStep | src/main/java/com/leitor/SensorWorker.java:166-175 | One turn of the loop only extends the run: a blank line leaves it unchanged, and any other line adds at most `maxAttempts` attempts and at most one delivery. |
| Pipeline.HandleLine | src/main/java/com/leitor/SensorWorker.java:166-175 | One turn of the loop as the code runs it, calling the retrying publish loop for a reading, gives exactly the step of handling the line's event against the rest of the broker script. |
| Pipeline.DispatchLines | src/main/java/com/leitor/SensorWorker.java:165-176 | The loop over lines, classifying each line and handling its event at once, gives exactly the run of handling the decoded events in order. |
| Pipeline.ProcessData | src/main/java/com/leitor/SensorWorker.java:160-181 | Processing a chunk warns about exactly the unknown lines. Reports plus deliveries equal the number of readings. It uses between one and `maxAttempts` attempts per reading. Against a healthy broker it publishes exactly the decoded readings, in order, with no report; against a broker that never accepts, it reports every reading. Against any broker, every transport publish carries the topic, value and QoS 2 of one of the chunk's readings. |

## Left out

- Serial transport: opening the port, the data listener, `bytesAvailable`/`readBytes` and decoding the bytes read as UTF-8 (src/main/java/com/leitor/SensorWorker.java:100-130). These are foreign-library I/O. The decoder's input is an already decoded string.
- Client construction, the initial `connect`, connect options and in-memory persistence (lines 57-76). These are network and library wrappers; only their per-attempt outcomes appear, through the broker script.
- `pararLeitura`, `main`, and the listener getter and setter (lines 135-153, 228-291). These are lifecycle, console and stdin plumbing.
- The two-second wait between attempts: time is not modelled. `waitMillis` is kept in the configuration only.
- Threading: callbacks on the serial thread, and `pararLeitura` racing an in-flight retry. The source has no guard against this race.
- Log and console text. A warning is recorded as `Warned(line)` and the exhaustion log as `ReportError`; the informational "received" and "published" logs are not recorded.
- The catch-all at lines 177-180. In the model nothing inside `processarDados` can fail: classification is total and `publicarNoMQTT` never propagates an error. The catch therefore has no reachable path to model.
- Failures other than `MqttException` inside an attempt (for example a missing client). The retry library would retry these like any other exception; the model's attempt failures stand for all of them.
- Java strings are UTF-16, and an unpaired surrogate would be encoded by `getBytes` as `?`. Dafny characters are Unicode scalar values, so such strings are not representable here.
- The broker is a script of per-attempt answers, not a model of the client's connection state, so `isConnected()` answers need not be consistent with one another.
