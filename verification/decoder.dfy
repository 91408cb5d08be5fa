/**
 * The line decoder of `SensorWorker.processarDados`: a chunk of text read
 * from the serial port is split into lines, and each line becomes at most
 * one event — a reading to publish, or a warning about unknown data.
 */
module Decoder {
  import opened Wrappers
  import opened JavaText

  const TemperatureTopic: string := "sensores/temperatura"
  const HumidityTopic: string := "sensores/umidade"
  const TemperaturePrefix: string := "TEMP:"
  const HumidityPrefix: string := "UMID:"

  /** What one line leads to: a publish of `value` on `topic`, or a warning
      naming the unrecognised line. Blank lines lead to nothing. */
  datatype Event = Publish(topic: string, value: string) | Warn(line: string)

  predicate IsKnownTopic(topic: string) {
    topic == TemperatureTopic || topic == HumidityTopic
  }

  /** Classifies one line. The prefixes are tested on the line as read,
      `TEMP:` first; only the value after the five-character prefix and the
      blank test use `trim()`. */
  function ClassifyLine(line: string): (r: Option<Event>)
    ensures r.Some? && r.value.Publish? ==> IsKnownTopic(r.value.topic) && IsTrimmed(r.value.value)
    ensures r.Some? && r.value.Warn? ==> r.value.line == line && !IsBlank(line)
  {
    if StartsWith(line, TemperaturePrefix) then Some(Publish(TemperatureTopic, Trim(line[5..])))
    else if StartsWith(line, HumidityPrefix) then Some(Publish(HumidityTopic, Trim(line[5..])))
    else if !IsBlank(line) then Some(Warn(line))
    else None
  }

  /** The four outcomes of classifying a line, each with the condition that
      leads to it. */
  lemma ClassifyLineCases(line: string)
    // A line leads to nothing exactly when it is blank.
    ensures ClassifyLine(line).None? <==> IsBlank(line)
    // The prefix decides the topic; `TEMP:` wins over `UMID:`.
    ensures StartsWith(line, TemperaturePrefix) <==>
      |line| >= 5 && ClassifyLine(line) == Some(Publish(TemperatureTopic, Trim(line[5..])))
    ensures !StartsWith(line, TemperaturePrefix) && StartsWith(line, HumidityPrefix) <==>
      |line| >= 5 && ClassifyLine(line) == Some(Publish(HumidityTopic, Trim(line[5..])))
    // Otherwise a warning quotes the whole line, untrimmed.
    ensures ClassifyLine(line) == Some(Warn(line)) <==>
      !StartsWith(line, TemperaturePrefix) && !StartsWith(line, HumidityPrefix) && !IsBlank(line)
  {
    if StartsWith(line, TemperaturePrefix) {
      assert line[0] == 'T' && !IsTrimmable(line[0]);
    } else if StartsWith(line, HumidityPrefix) {
      assert line[0] == 'U' && !IsTrimmable(line[0]);
    }
  }

  /** The events of a sequence of lines, in line order, at most one per line. */
  function DecodeLines(lines: seq<string>): (events: seq<Event>)
    ensures |events| <= |lines|
    ensures forall e | e in events :: e.Warn? ==> !IsBlank(e.line)
    ensures (forall k :: 0 <= k < |lines| ==> '\n' !in lines[k]) ==>
      forall e | e in events :: e.Warn? ==> '\n' !in e.line
    ensures forall e | e in events :: e.Publish? ==> IsKnownTopic(e.topic) && IsTrimmed(e.value)
  {
    if |lines| == 0 then [] else ToSeq(ClassifyLine(lines[0])) + DecodeLines(lines[1..])
  }

  /** `processarDados` without its side effects: the events of a chunk. */
  function Decode(chunk: string): (events: seq<Event>)
    ensures forall e | e in events :: e.Warn? ==> '\n' !in e.line && !IsBlank(e.line)
    ensures forall e | e in events :: e.Publish? ==> IsKnownTopic(e.topic) && IsTrimmed(e.value)
  {
    DecodeLines(SplitLines(chunk))
  }

  // ---------------------------------------------------------------------
  // Properties of the decoder
  // ---------------------------------------------------------------------

  /** Lines are decoded independently: the events of two runs of lines are
      the events of the first run followed by those of the second. */
  lemma {:induction false} DecodeLinesAppend(a: seq<string>, b: seq<string>)
    ensures DecodeLines(a + b) == DecodeLines(a) + DecodeLines(b)
    decreases |a|
  {
    if |a| == 0 {
      assert a + b == b;
    } else {
      assert (a + b)[0] == a[0];
      assert (a + b)[1..] == a[1..] + b;
      DecodeLinesAppend(a[1..], b);
    }
  }

  /** A single line contributes its own event, if any. */
  lemma DecodeOneLine(line: string)
    ensures DecodeLines([line]) == ToSeq(ClassifyLine(line))
  {
    var one := [line];
    assert one[1..] == [];
  }

  /** Blank lines contribute no events. */
  lemma {:induction false} DecodeBlankLines(lines: seq<string>)
    requires forall k :: 0 <= k < |lines| ==> IsBlank(lines[k])
    ensures DecodeLines(lines) == []
    decreases |lines|
  {
    if |lines| > 0 {
      ClassifyLineCases(lines[0]);
      DecodeBlankLines(lines[1..]);
    }
  }

  /** Empty lines at the end contribute no events. */
  lemma DecodeDropTrailingEmpty(lines: seq<string>)
    ensures DecodeLines(DropTrailingEmpty(lines)) == DecodeLines(lines)
  {
    var kept := DropTrailingEmpty(lines);
    var dropped := lines[|kept|..];
    PrefixThenRest(lines, kept);
    DecodeLinesAppend(kept, dropped);
    forall k | 0 <= k < |dropped|
      ensures IsBlank(dropped[k])
    {
      assert dropped[k] == lines[|kept| + k] == [];
    }
    DecodeBlankLines(dropped);
  }

  /** Java's `split` drops trailing empty strings; since an empty line yields
      nothing, decoding the full naive split gives the same events. */
  lemma DecodeIgnoresTrailingEmpty(chunk: string)
    ensures Decode(chunk) == DecodeLines(SplitNaive(chunk))
  {
    if '\n' in chunk {
      DecodeDropTrailingEmpty(SplitNaive(chunk));
    } else {
      SplitNaiveSingle(chunk);
    }
  }

  /** A chunk holding a single line (no `\n`) decodes to that line's event;
      without a following `\n` a trailing `\r` stays part of the line. */
  lemma DecodeSingleLine(line: string)
    requires '\n' !in line
    ensures Decode(line) == ToSeq(ClassifyLine(line))
  {
  }

  /** Decoding keeps no state: the events of `a`, a newline, then `b` are the
      events of `a` followed by the events of `b`. The one exception the
      precondition rules out is a carriage return ending `a`, which the
      joining `\n` turns into a `\r\n` separator. */
  lemma DecodeAppend(a: string, b: string)
    requires |a| == 0 || a[|a| - 1] != '\r'
    ensures Decode(a + "\n" + b) == Decode(a) + Decode(b)
  {
    DecodeIgnoresTrailingEmpty(a + "\n" + b);
    DecodeIgnoresTrailingEmpty(a);
    DecodeIgnoresTrailingEmpty(b);
    SplitNaiveAppend(a, b);
    DecodeLinesAppend(SplitNaive(a), SplitNaive(b));
  }

  /** The same across a `\r\n`, with no exception: the carriage return
      belongs to the separator, whatever `a` ends with. */
  lemma DecodeAppendCRLF(a: string, b: string)
    ensures Decode(a + "\r\n" + b) == Decode(a) + Decode(b)
  {
    DecodeIgnoresTrailingEmpty(a + "\r\n" + b);
    DecodeIgnoresTrailingEmpty(a);
    DecodeIgnoresTrailingEmpty(b);
    SplitNaiveAppendCRLF(a, b);
    DecodeLinesAppend(SplitNaive(a), SplitNaive(b));
  }

  /** Every `\n` in a chunk ends a line: the events of `a + "\n" + b` are those
      of `a`, less a carriage return just before the `\n`, followed by those
      of `b`. */
  lemma DecodeLineBreak(a: string, b: string)
    ensures Decode(a + "\n" + b) == Decode(StripCR(a)) + Decode(b)
  {
    if |a| > 0 && a[|a| - 1] == '\r' {
      var a0 := StripCR(a);
      assert a + "\n" + b == a0 + "\r\n" + b;
      DecodeAppendCRLF(a0, b);
    } else {
      DecodeAppend(a, b);
    }
  }

  /** A line followed by `\n` contributes its own event, without a carriage
      return that ends it, ahead of the rest. */
  lemma DecodeLineThen(line: string, after: string)
    requires '\n' !in line
    ensures Decode(line + "\n" + after) == ToSeq(ClassifyLine(StripCR(line))) + Decode(after)
  {
    DecodeLineBreak(line, after);
    assert '\n' !in StripCR(line) by {
      assert StripCR(line) <= line;
    }
    DecodeSingleLine(StripCR(line));
  }

  /** The topic a reading prefix is published on. */
  function PrefixTopic(prefix: string): string {
    if prefix == TemperaturePrefix then TemperatureTopic else HumidityTopic
  }

  /** A line made of a reading prefix and a one-line remainder is that reading. */
  lemma ClassifyReadingLine(prefix: string, rest: string)
    requires prefix == TemperaturePrefix || prefix == HumidityPrefix
    ensures ClassifyLine(prefix + rest) == Some(Publish(PrefixTopic(prefix), Trim(rest)))
  {
    var line := prefix + rest;
    assert line[..5] == prefix;
    assert line[5..] == rest;
    if prefix == HumidityPrefix {
      assert line[0] == 'U';
    }
  }

  /** A reading line ending in `\r` is read as the same reading: the `\r` is
      either part of the separator or trimmed from the value. */
  lemma StripCRReadingLine(prefix: string, rest: string)
    requires prefix == TemperaturePrefix || prefix == HumidityPrefix
    requires '\n' !in rest
    ensures '\n' !in prefix + rest
    ensures ClassifyLine(StripCR(prefix + rest)) == Some(Publish(PrefixTopic(prefix), Trim(rest)))
  {
    var r0 := StripCR(rest);
    assert StripCR(prefix + rest) == prefix + r0 by {
      StripCRAppend(prefix, rest);
    }
    assert Trim(r0) == Trim(rest) by {
      if r0 != rest {
        TrimIgnoresTrailing(r0, '\r');
      }
    }
    ClassifyReadingLine(prefix, r0);
  }

  /** The first line of a chunk, starting with `TEMP:` or `UMID:` and ended
      by `\n` or `\r\n`, yields exactly one publish of its trimmed remainder,
      before the events of the rest of the chunk. */
  lemma DecodeReadingFirst(prefix: string, rest: string, after: string)
    requires prefix == TemperaturePrefix || prefix == HumidityPrefix
    requires '\n' !in rest
    ensures Decode(prefix + rest + "\n" + after) == [Publish(PrefixTopic(prefix), Trim(rest))] + Decode(after)
  {
    StripCRReadingLine(prefix, rest);
    DecodeLineThen(prefix + rest, after);
  }

  /** The first line of a chunk, when it is any other non-blank line ended by
      `\n` or `\r\n`, yields exactly one warning quoting it without the
      separator, before the events of the rest of the chunk. */
  lemma DecodeUnknownFirst(line: string, after: string)
    requires '\n' !in line
    requires !StartsWith(StripCR(line), TemperaturePrefix) && !StartsWith(StripCR(line), HumidityPrefix)
    requires !IsBlank(StripCR(line))
    ensures Decode(line + "\n" + after) == [Warn(StripCR(line))] + Decode(after)
  {
    ClassifyLineCases(StripCR(line));
    DecodeLineThen(line, after);
  }

  /** A line starting with `TEMP:` or `UMID:` that follows a `\n`, ended by
      `\n` or `\r\n`, yields exactly one publish of its trimmed remainder,
      between the events of the text around it. */
  lemma DecodeReadingInContext(before: string, prefix: string, rest: string, after: string)
    requires prefix == TemperaturePrefix || prefix == HumidityPrefix
    requires '\n' !in rest
    ensures Decode(before + "\n" + (prefix + rest + "\n" + after)) ==
      Decode(StripCR(before)) + [Publish(PrefixTopic(prefix), Trim(rest))] + Decode(after)
  {
    var line := prefix + rest;
    var p := Publish(PrefixTopic(prefix), Trim(rest));
    StripCRReadingLine(prefix, rest);
    var tail := line + "\n" + after;
    DecodeLineThen(line, after);
    DecodeLineBreak(before, tail);
    var d1, d2 := Decode(StripCR(before)), Decode(after);
    assert Decode(before + "\n" + tail) == d1 + ([p] + d2);
    ConcatAssoc(d1, [p], d2);
  }

  /** Any other non-blank line that follows a `\n`, ended by `\n` or `\r\n`, yields exactly one
      warning quoting it without the separator, and no publish. */
  lemma DecodeUnknownInContext(before: string, line: string, after: string)
    requires '\n' !in line
    requires !StartsWith(StripCR(line), TemperaturePrefix) && !StartsWith(StripCR(line), HumidityPrefix)
    requires !IsBlank(StripCR(line))
    ensures Decode(before + "\n" + (line + "\n" + after)) ==
      Decode(StripCR(before)) + [Warn(StripCR(line))] + Decode(after)
  {
    var tail := line + "\n" + after;
    var w := Warn(StripCR(line));
    ClassifyLineCases(StripCR(line));
    DecodeLineThen(line, after);
    DecodeLineBreak(before, tail);
    var d1, d2 := Decode(StripCR(before)), Decode(after);
    assert Decode(before + "\n" + tail) == d1 + ([w] + d2);
    ConcatAssoc(d1, [w], d2);
  }

  /** Prefix matching happens before trimming, so leading whitespace turns a
      reading into unknown data. */
  lemma IndentedReadingIsUnknown(indent: string, prefix: string, rest: string)
    requires |indent| > 0 && IsBlank(indent)
    requires prefix == TemperaturePrefix || prefix == HumidityPrefix
    ensures ClassifyLine(indent + prefix + rest) == Some(Warn(indent + prefix + rest))
  {
    var line := indent + prefix + rest;
    assert line[0] == indent[0];
    assert line[|indent|] == prefix[0];
    FirstCharRulesOutPrefix(line, TemperaturePrefix);
    FirstCharRulesOutPrefix(line, HumidityPrefix);
    ClassifyLineCases(line);
  }

  // ---------------------------------------------------------------------
  // The line protocol as the sensor writes it
  // ---------------------------------------------------------------------

  /** The readings a sensor sends, one per line. */
  datatype Reading = Temperature(value: string) | Humidity(value: string)

  /** A value the decoder can carry unchanged: already trimmed, on one line. */
  predicate IsWireValue(v: string) {
    IsTrimmed(v) && '\n' !in v
  }

  /** The event a reading should lead to. */
  function ReadingEvent(r: Reading): Event {
    match r
    case Temperature(v) => Publish(TemperatureTopic, v)
    case Humidity(v) => Publish(HumidityTopic, v)
  }

  /** The events a sequence of readings should lead to, in order. */
  function ReadingEvents(rs: seq<Reading>): (events: seq<Event>)
    ensures |events| == |rs|
    ensures forall k :: 0 <= k < |rs| ==> events[k] == ReadingEvent(rs[k])
  {
    if |rs| == 0 then [] else [ReadingEvent(rs[0])] + ReadingEvents(rs[1..])
  }

  /** How the sensor writes one reading. */
  function RenderReading(r: Reading): (line: string)
    ensures '\n' in line ==> '\n' in r.value
  {
    match r
    case Temperature(v) => TemperaturePrefix + v
    case Humidity(v) => HumidityPrefix + v
  }

  /** The two line endings a sensor may use. */
  datatype LineEnd = LF | CRLF

  function Eol(e: LineEnd): string {
    match e
    case LF => "\n"
    case CRLF => "\r\n"
  }

  /** How the sensor writes a sequence of readings: each line ends in `end`. */
  function Render(rs: seq<Reading>, end: LineEnd): string {
    if |rs| == 0 then [] else RenderReading(rs[0]) + Eol(end) + Render(rs[1..], end)
  }

  /** One rendered reading is classified as that reading. */
  lemma ClassifyRenderReading(r: Reading)
    requires IsWireValue(r.value)
    ensures ClassifyLine(RenderReading(r)) == Some(ReadingEvent(r))
    ensures '\n' !in RenderReading(r)
  {
    var line := RenderReading(r);
    assert line[5..] == r.value;
    TrimOfTrimmed(r.value);
    assert forall k :: 0 <= k < |line| ==> line[k] == if k < 5 then line[..5][k] else r.value[k - 5];
    if r.Humidity? {
      assert line[0] == 'U';
    }
  }

  /** The first rendered reading decodes to its event, ahead of the rest. */
  lemma DecodeRenderHead(rs: seq<Reading>, end: LineEnd)
    requires |rs| > 0 && IsWireValue(rs[0].value)
    ensures Decode(Render(rs, end)) == [ReadingEvent(rs[0])] + Decode(Render(rs[1..], end))
  {
    var line := RenderReading(rs[0]);
    var rest := Render(rs[1..], end);
    ClassifyRenderReading(rs[0]);
    DecodeSingleLine(line);
    if end == LF {
      assert line[|line| - 1] != '\r' by {
        assert line[|line| - 1] == (if |rs[0].value| == 0 then ':' else rs[0].value[|rs[0].value| - 1]);
      }
      DecodeAppend(line, rest);
    } else {
      assert Render(rs, end) == line + "\r\n" + rest;
      DecodeAppendCRLF(line, rest);
    }
  }

  /** Round trip of the line protocol: decoding what the sensor writes, with
      either line ending, gives back one publish per reading, in order, with
      its value unchanged. */
  lemma {:induction false} DecodeRender(rs: seq<Reading>, end: LineEnd)
    requires forall k :: 0 <= k < |rs| ==> IsWireValue(rs[k].value)
    ensures Decode(Render(rs, end)) == ReadingEvents(rs)
    decreases |rs|
  {
    if |rs| == 0 {
      assert Decode([]) == [];
    } else {
      DecodeRenderHead(rs, end);
      DecodeRender(rs[1..], end);
    }
  }

  /** A temperature line followed by a humidity line, both ending in `end`,
      decodes to the two readings in order. */
  lemma DecodeTwoReadings(t: string, h: string, end: LineEnd)
    requires IsWireValue(t) && IsWireValue(h)
    ensures Decode(TemperaturePrefix + t + Eol(end) + (HumidityPrefix + h + Eol(end))) ==
      [Publish(TemperatureTopic, t), Publish(HumidityTopic, h)]
  {
    var rs := [Temperature(t), Humidity(h)];
    assert Render(rs, end) == TemperaturePrefix + t + Eol(end) + (HumidityPrefix + h + Eol(end)) by {
      var tail := rs[1..];
      assert tail == [Humidity(h)] && tail[1..] == [];
      assert Render(tail, end) == HumidityPrefix + h + Eol(end) + [];
      assert HumidityPrefix + h + Eol(end) + [] == HumidityPrefix + h + Eol(end);
    }
    assert ReadingEvents(rs) == [Publish(TemperatureTopic, t), Publish(HumidityTopic, h)] by {
      assert ReadingEvents(rs)[0] == ReadingEvent(rs[0]) && ReadingEvents(rs)[1] == ReadingEvent(rs[1]);
    }
    DecodeRender(rs, end);
  }

  /** The chunk `TEMP:22.5\nUMID:55.3\n` publishes the temperature, then the
      humidity. */
  lemma DecodeTemperatureThenHumidity()
    ensures Decode("TEMP:22.5\nUMID:55.3\n") ==
      [Publish(TemperatureTopic, "22.5"), Publish(HumidityTopic, "55.3")]
  {
    assert IsWireValue("22.5") && IsWireValue("55.3");
    assert "TEMP:" + "22.5" + "\n" + ("UMID:" + "55.3" + "\n") == "TEMP:22.5\nUMID:55.3\n";
    DecodeTwoReadings("22.5", "55.3", LF);
  }

  /** The same readings sent with `\r\n` line endings decode the same way:
      no carriage return reaches a value. */
  lemma DecodeTemperatureThenHumidityCRLF()
    ensures Decode("TEMP:22.5\r\nUMID:55.3\r\n") ==
      [Publish(TemperatureTopic, "22.5"), Publish(HumidityTopic, "55.3")]
  {
    assert IsWireValue("22.5") && IsWireValue("55.3");
    assert "TEMP:" + "22.5" + "\r\n" + ("UMID:" + "55.3" + "\r\n") == "TEMP:22.5\r\nUMID:55.3\r\n";
    DecodeTwoReadings("22.5", "55.3", CRLF);
  }

  /** A chunk that is one non-blank line without either prefix yields a
      single warning quoting it. */
  lemma DecodeUnknownLine(line: string)
    requires '\n' !in line && !IsBlank(line)
    requires !StartsWith(line, TemperaturePrefix) && !StartsWith(line, HumidityPrefix)
    ensures Decode(line) == [Warn(line)]
  {
    ClassifyLineCases(line);
    DecodeSingleLine(line);
  }

  /** The chunk `INVALID_DATA` yields a single warning quoting it. */
  lemma DecodeInvalidData()
    ensures Decode("INVALID_DATA") == [Warn("INVALID_DATA")]
  {
    var line := "INVALID_DATA";
    assert !IsTrimmable(line[0]);
    assert line[0] != TemperaturePrefix[0] && line[0] != HumidityPrefix[0];
    FirstCharRulesOutPrefix(line, TemperaturePrefix);
    FirstCharRulesOutPrefix(line, HumidityPrefix);
    DecodeUnknownLine(line);
  }
}
