/** The SenML handler of the MQTT-to-InfluxDB converter: one inbound message
    (a topic and a pack of resolved SenML records, section 4.6 of RFC 8428)
    becomes a sequence of time-series points handed to a sink in record
    order, until the pack ends or a record aborts the rest of the message. */
module Senml {
  import opened Wrappers
  import opened GoStrings

  // ---------------------------------------------------------------------
  // Data model
  // ---------------------------------------------------------------------

  /** A resolved SenML record as the normaliser hands it over. The time is a
      real number of seconds; the value is a pointer in the library and may
      be absent for records that carry a string, boolean or data value. */
  datatype Record = Record(name: string, time: real, unit: string, value: Option<real>)

  /** The two parts of a parsed URN (section 2 of RFC 8141): the namespace
      identifier and the namespace-specific string. */
  datatype Urn = Urn(nid: string, nss: string)

  /** Why decoding or normalising the payload failed. */
  datatype PayloadError = DecodeFailed | NormalizeFailed

  /** Everything that ends the handling of a message early. */
  datatype Failure =
    | TopicMismatch(topic: string)
    | PayloadRejected(error: PayloadError)
    | InvalidUrn(name: string)
    | MissingDevSubtype(nss: string)
      /** A namespace other than `dev`: the device body stays nil and
          indexing it panics. */
    | UnsupportedNamespace(nid: string)
      /** A record without a numeric value: dereferencing it panics. */
    | MissingValue(name: string)

  datatype Status = Completed | Aborted(failure: Failure)

  /** One output point; `timestamp` counts nanoseconds since the Unix epoch. */
  datatype Point = Point(
    timestamp: int,
    measurement: string,
    deviceTagIdentifier: string,
    deviceTagValue: string,
    field: string,
    unit: string,
    value: real)
  {
    function Measurement(): string { measurement }

    /** The tag set: the unit and the device tag. A device tag whose key is
        `unit` replaces the unit, as the later entry of the Go map literal. */
    function Tags(): (tags: map<string, string>)
      ensures tags.Keys == {"unit", deviceTagIdentifier}
      ensures tags[deviceTagIdentifier] == deviceTagValue
      ensures deviceTagIdentifier != "unit" ==> tags["unit"] == unit
    {
      map["unit" := unit][deviceTagIdentifier := deviceTagValue]
    }

    /** The field set: exactly one field, holding the record's value. */
    function Fields(): (fields: map<string, real>)
      ensures fields.Keys == {field} && fields[field] == value
    {
      map[field := value]
    }

    function Time(): int { timestamp }
  }

  /** What one message ends with: the points the sink received, in order,
      and whether the loop ran to the end of the pack. */
  datatype Conversion = Conversion(points: seq<Point>, status: Status)

  // ---------------------------------------------------------------------
  // Topic parsing: ^(.*)/([^/]*)$
  // ---------------------------------------------------------------------

  /** The two submatches of the topic pattern. `.` does not match a newline
      in Go's regular expressions, so the text before the last `/` must
      hold none; the class `[^/]` matches any character but `/`. */
  function MatchTopic(topic: string): (groups: Option<(string, string)>)
    ensures groups.Some? ==>
      && topic == groups.value.0 + ['/'] + groups.value.1
      && '/' !in groups.value.1
      && '\n' !in groups.value.0
    ensures '/' !in topic ==> groups.None?
  {
    match LastIndex(topic, '/')
    case None => None
    case Some(i) =>
      if '\n' in topic[..i] then None
      else
        assert topic == topic[..i] + ['/'] + topic[i + 1..];
        Some((topic[..i], topic[i + 1..]))
  }

  /** Every way of writing the topic that the pattern describes is found:
      the measurement is exactly the text after the last `/`. */
  lemma MatchTopicComplete(topic: string, prefix: string, segment: string)
    requires topic == prefix + ['/'] + segment
    requires '/' !in segment && '\n' !in prefix
    ensures MatchTopic(topic) == Some((prefix, segment))
  {
    assert topic[|prefix| + 1..] == segment;
    LastIndexAt(topic, '/', |prefix|);
    assert topic[..|prefix|] == prefix;
  }

  // ---------------------------------------------------------------------
  // Identifier parsing
  // ---------------------------------------------------------------------

  /** The device tag and field a record name resolves to. */
  datatype Identity = Identity(deviceTagIdentifier: string, deviceTagValue: string, field: string)

  /** The outcome of parsing a record name: an identity, a record to skip
      (no `/` in the namespace-specific string), or a failure that aborts
      the message. */
  datatype Parsed = Identified(identity: Identity) | NoField | Rejected(failure: Failure)

  /** `nss` is `key:value[:...]/field` with `rest` the dropped `:`-pieces. */
  ghost predicate DevNss(nss: string, id: Identity, rest: string)
  {
    && nss == id.deviceTagIdentifier + [':'] + id.deviceTagValue + rest + ['/'] + id.field
    && ':' !in id.deviceTagIdentifier && ':' !in id.deviceTagValue
    && '/' !in id.deviceTagIdentifier && '/' !in id.deviceTagValue && '/' !in rest
    && (rest == [] || rest[0] == ':')
  }

  /** Resolves a record name: URN parse, split of the namespace-specific
      string on its first `/`, and for `dev` the split of the device part on
      every `:`. */
  function ParseIdentifier(name: string, parseUrn: string -> Option<Urn>): Parsed
  {
    match parseUrn(name)
    case None => Rejected(InvalidUrn(name))
    case Some(urn) =>
      var parts := SplitFirst(urn.nss, '/');
      if |parts| < 2 then NoField
      else if urn.nid == "dev" then
        var body := Split(parts[0], ':');
        if |body| < 2 then Rejected(MissingDevSubtype(urn.nss))
        else Identified(Identity(body[0], body[1], parts[1]))
      else Rejected(UnsupportedNamespace(urn.nid))
  }

  /** Which names abort, which are skipped: an unparsable URN aborts; no
      `/` in the namespace-specific string skips; a namespace other than
      `dev` aborts (the nil device body); a `dev` device part without `:`
      aborts. */
  lemma ParseIdentifierOutcomes(name: string, parseUrn: string -> Option<Urn>)
    ensures ParseIdentifier(name, parseUrn) == Rejected(InvalidUrn(name)) <==> parseUrn(name).None?
    ensures ParseIdentifier(name, parseUrn).NoField? <==>
      parseUrn(name).Some? && '/' !in parseUrn(name).value.nss
    ensures ParseIdentifier(name, parseUrn).Rejected? && ParseIdentifier(name, parseUrn).failure.UnsupportedNamespace? <==>
      parseUrn(name).Some? && '/' in parseUrn(name).value.nss && parseUrn(name).value.nid != "dev"
    ensures ParseIdentifier(name, parseUrn).Rejected? && ParseIdentifier(name, parseUrn).failure.MissingDevSubtype? <==>
      && parseUrn(name).Some? && parseUrn(name).value.nid == "dev"
      && '/' in parseUrn(name).value.nss
      && ':' !in SplitFirst(parseUrn(name).value.nss, '/')[0]
  {
  }

  /** The first two `:`-pieces of a device part are the tag key and value. */
  lemma SplitDevicePart(key: string, value: string, rest: string)
    requires ':' !in key && ':' !in value
    requires rest == [] || rest[0] == ':'
    ensures |Split(key + [':'] + value + rest, ':')| >= 2
    ensures Split(key + [':'] + value + rest, ':')[0] == key
    ensures Split(key + [':'] + value + rest, ':')[1] == value
  {
    var device := key + [':'] + value + rest;
    var tail := value + rest;
    assert device[..|key|] == key && device[|key|] == ':' && device[|key| + 1..] == tail;
    SplitAtFirst(device, ':', |key|);
    if rest == [] {
      assert tail == value;
      SplitAbsent(value, ':');
    } else {
      assert tail[..|value|] == value && tail[|value|] == ':';
      SplitAtFirst(tail, ':', |value|);
    }
  }

  /** For the `dev` namespace, a name `key:value[:...]/field` yields exactly
      that key, value and field; `/` after the first stays in the field. */
  lemma ParseDevIdentifier(name: string, parseUrn: string -> Option<Urn>, id: Identity, rest: string)
    requires parseUrn(name).Some? && parseUrn(name).value.nid == "dev"
    requires DevNss(parseUrn(name).value.nss, id, rest)
    ensures ParseIdentifier(name, parseUrn) == Identified(id)
  {
    var nss := parseUrn(name).value.nss;
    var device := id.deviceTagIdentifier + [':'] + id.deviceTagValue + rest;
    assert nss == device + ['/'] + id.field;
    assert '/' !in device;
    SplitFirstAt(device, '/', id.field);
    SplitDevicePart(id.deviceTagIdentifier, id.deviceTagValue, rest);
  }

  /** Conversely, an identity comes only from a `dev` URN whose
      namespace-specific string is `key:value[:...]/field`. */
  lemma ParsedIdentityIsDev(name: string, parseUrn: string -> Option<Urn>)
    requires ParseIdentifier(name, parseUrn).Identified?
    ensures parseUrn(name).Some? && parseUrn(name).value.nid == "dev"
    ensures exists rest :: DevNss(parseUrn(name).value.nss, ParseIdentifier(name, parseUrn).identity, rest)
  {
    var urn := parseUrn(name).value;
    var parts := SplitFirst(urn.nss, '/');
    var body := Split(parts[0], ':');
    assert ParseIdentifier(name, parseUrn) == Identified(Identity(body[0], body[1], parts[1]));
    DevNssOfSplits(urn.nss, parts, body);
  }

  /** The two splits of a `dev` identifier describe a `DevNss` string. */
  lemma DevNssOfSplits(nss: string, parts: seq<string>, body: seq<string>)
    requires |parts| == 2 && nss == parts[0] + ['/'] + parts[1] && '/' !in parts[0]
    requires body == Split(parts[0], ':') && |body| >= 2
    ensures exists rest :: DevNss(nss, Identity(body[0], body[1], parts[1]), rest)
  {
    var id := Identity(body[0], body[1], parts[1]);
    SplitLeadingPieces(parts[0], ':');
    var n := |body[0]| + 1 + |body[1]|;
    assert ':' !in body[0] && ':' !in body[1];
    DevNssOfDevicePart(nss, parts[0], parts[1], id, n);
    assert DevNss(nss, id, parts[0][n..]);
  }

  /** A device part that begins `key:value`, followed by nothing or by `:`,
      makes the namespace-specific string a `DevNss` one. */
  lemma DevNssOfDevicePart(nss: string, device: string, field: string, id: Identity, n: nat)
    requires nss == device + ['/'] + field && '/' !in device && id.field == field
    requires n == |id.deviceTagIdentifier| + 1 + |id.deviceTagValue| <= |device|
    requires device[..n] == id.deviceTagIdentifier + [':'] + id.deviceTagValue
    requires n == |device| || device[n] == ':'
    requires ':' !in id.deviceTagIdentifier && ':' !in id.deviceTagValue
    ensures DevNss(nss, id, device[n..])
  {
    var key, value, rest := id.deviceTagIdentifier, id.deviceTagValue, device[n..];
    assert device == key + [':'] + value + rest;
    assert '/' !in key && '/' !in value && '/' !in rest by {
      forall k | 0 <= k < |key| ensures key[k] != '/' { assert key[k] == device[k]; }
      forall k | 0 <= k < |value| ensures value[k] != '/' { assert value[k] == device[|key| + 1 + k]; }
      forall k | 0 <= k < |rest| ensures rest[k] != '/' { assert rest[k] == device[n + k]; }
    }
  }

  // ---------------------------------------------------------------------
  // Timestamp rule
  // ---------------------------------------------------------------------

  /** `1 << 28`: times below it are offsets from now, in milliseconds. */
  const RelativeLimit: real := 268435456.0
  const NanosPerMilli: int := 1_000_000
  const NanosPerSecond: int := 1_000_000_000

  /** Conversion of a float to an integer in Go: truncation toward zero. */
  function Trunc(t: real): (n: int)
    ensures 0.0 <= t ==> n as real <= t < n as real + 1.0
    ensures t < 0.0 ==> n as real - 1.0 < t <= n as real
  {
    if t >= 0.0 then t.Floor else -((-t).Floor)
  }

  /** Two's-complement wrap-around of a 64-bit signed product. */
  function WrapInt64(x: int): (r: int)
    ensures -0x8000_0000_0000_0000 <= r < 0x8000_0000_0000_0000
    ensures (x - r) % 0x1_0000_0000_0000_0000 == 0
    ensures -0x8000_0000_0000_0000 <= x < 0x8000_0000_0000_0000 ==> r == x
  {
    (x + 0x8000_0000_0000_0000) % 0x1_0000_0000_0000_0000 - 0x8000_0000_0000_0000
  }

  /** The point in time of a record: below `1 << 28` the truncated time is a
      `time.Duration` of that many milliseconds (a 64-bit nanosecond count)
      added to `now`; from `1 << 28` on it is whole Unix seconds. The
      comparison is on the signed value. */
  function Timestamp(t: real, now: int): int
  {
    if t < RelativeLimit then now + WrapInt64(Trunc(t) * NanosPerMilli)
    else Trunc(t) * NanosPerSecond
  }

  /** From `1 << 28` on, the timestamp is the time in whole seconds,
      truncated, and lies at or after `1 << 28` seconds. */
  lemma TimestampAbsolute(t: real, now: int)
    requires RelativeLimit <= t
    ensures var ns := Timestamp(t, now);
      && (ns as real) <= t * 1_000_000_000.0 < (ns as real) + 1_000_000_000.0
      && ns % NanosPerSecond == 0
      && ns >= 268435456 * NanosPerSecond
  {
    var n := Trunc(t);
    assert n >= 268435456;
    assert Timestamp(t, now) == n * NanosPerSecond;
    assert (n * NanosPerSecond) as real == (n as real) * 1_000_000_000.0;
  }

  /** Below `1 << 28`, a non-negative time is now plus its truncated
      milliseconds; the product stays within 64 bits. */
  lemma TimestampRelative(t: real, now: int)
    requires 0.0 <= t < RelativeLimit
    ensures var ns := Timestamp(t, now);
      && ((ns - now) as real) <= t * 1_000_000.0 < ((ns - now) as real) + 1_000_000.0
      && (ns - now) % NanosPerMilli == 0
  {
    var n := Trunc(t);
    assert 0 <= n < 268435456;
    assert 0 <= n * NanosPerMilli < 268435456 * NanosPerMilli;
    assert Timestamp(t, now) - now == n * NanosPerMilli;
    assert (n * NanosPerMilli) as real == (n as real) * 1_000_000.0;
  }

  /** A negative time is now minus its truncated milliseconds, as long as
      the product stays within 64 bits. */
  lemma TimestampRelativeNegative(t: real, now: int)
    requires -9223372036855.0 < t < 0.0
    ensures var ns := Timestamp(t, now);
      && ((ns - now) as real) - 1_000_000.0 < t * 1_000_000.0 <= ((ns - now) as real)
      && (ns - now) % NanosPerMilli == 0
  {
    var n := Trunc(t);
    assert -9223372036854 <= n <= 0;
    assert -9223372036854 * NanosPerMilli <= n * NanosPerMilli <= 0;
    assert Timestamp(t, now) - now == n * NanosPerMilli;
    assert (n * NanosPerMilli) as real == (n as real) * 1_000_000.0;
  }

  /** Far enough in the past the millisecond product leaves 64 bits and
      wraps: a time of -10^13 (about 317 years before now, in milliseconds)
      lands about 268 years after now. */
  lemma TimestampWrapsFarPast(now: int)
    ensures Timestamp(-10_000_000_000_000.0, now) == now + 8_446_744_073_709_551_616
  {
  }

  // ---------------------------------------------------------------------
  // One record, the record loop, the whole message
  // ---------------------------------------------------------------------

  /** What one record contributes: one point, nothing, or the end. */
  datatype Step = Emit(point: Point) | Skip | Stop(failure: Failure)

  function ConvertRecord(measurement: string, record: Record, now: int, parseUrn: string -> Option<Urn>): Step
  {
    match ParseIdentifier(record.name, parseUrn)
    case NoField => Skip
    case Rejected(f) => Stop(f)
    case Identified(id) =>
      var timestamp := Timestamp(record.time, now);
      if record.value.None? then Stop(MissingValue(record.name))
      else Emit(Point(timestamp, measurement, id.deviceTagIdentifier, id.deviceTagValue,
                      id.field, record.unit, record.value.value))
  }

  /** A record gives a point exactly when its name resolves and it has a
      value; the point carries the topic's measurement, the record's unit and
      value, the resolved identity and the timestamp rule's result. A record
      is skipped exactly when its name has no field; every other outcome
      stops the message. */
  lemma ConvertRecordOutcomes(measurement: string, record: Record, now: int, parseUrn: string -> Option<Urn>)
    ensures ConvertRecord(measurement, record, now, parseUrn).Skip? <==>
      ParseIdentifier(record.name, parseUrn).NoField?
    ensures ConvertRecord(measurement, record, now, parseUrn).Emit? <==>
      ParseIdentifier(record.name, parseUrn).Identified? && record.value.Some?
    ensures ConvertRecord(measurement, record, now, parseUrn).Emit? ==>
      var p := ConvertRecord(measurement, record, now, parseUrn).point;
      && p.measurement == measurement
      && p.unit == record.unit
      && p.value == record.value.value
      && p.timestamp == Timestamp(record.time, now)
      && Identity(p.deviceTagIdentifier, p.deviceTagValue, p.field) == ParseIdentifier(record.name, parseUrn).identity
  {
  }

  /** The step of every record of the pack, in order. */
  function Steps(measurement: string, records: seq<Record>, now: int, parseUrn: string -> Option<Urn>): seq<Step>
  {
    Map(records, StepOf(measurement, now, parseUrn))
  }

  /** The conversion of one record, for the given topic, time and parser. */
  function StepOf(measurement: string, now: int, parseUrn: string -> Option<Urn>): Record -> Step
  {
    r => ConvertRecord(measurement, r, now, parseUrn)
  }

  /** `f` applied to every element, in order. */
  function Map<A, B>(xs: seq<A>, f: A -> B): seq<B>
  {
    seq(|xs|, i requires 0 <= i < |xs| => f(xs[i]))
  }

  /** Mapping a sequence without its element `k` gives the mapped sequence
      without its element `k`. */
  lemma MapWithout<A, B>(xs: seq<A>, f: A -> B, k: nat)
    requires k < |xs|
    ensures Map(xs[..k] + xs[k + 1..], f) == Map(xs, f)[..k] + Map(xs, f)[k + 1..]
  {
    var ys := Map(xs, f);
    var without := xs[..k] + xs[k + 1..];
    var lhs := Map(without, f);
    var rhs := ys[..k] + ys[k + 1..];
    forall j | 0 <= j < |without|
      ensures lhs[j] == rhs[j]
    {
      if j < k {
        assert without[j] == xs[j] && rhs[j] == ys[j];
      } else {
        assert without[j] == xs[j + 1] && rhs[j] == ys[j + 1];
      }
    }
  }

  /** The record loop as the sink sees it: the points of the steps in order,
      up to the first step that stops the message. */
  function Run(steps: seq<Step>): (c: Conversion)
    ensures |c.points| <= |steps|
  {
    if |steps| == 0 then Conversion([], Completed)
    else match steps[0]
      case Stop(f) => Conversion([], Aborted(f))
      case Skip => Run(steps[1..])
      case Emit(p) =>
        var rest := Run(steps[1..]);
        Conversion([p] + rest.points, rest.status)
  }

  /** The points of the emitting steps, in step order. */
  function EmitPoints(steps: seq<Step>): (points: seq<Point>)
    ensures |points| <= |steps|
  {
    if |steps| == 0 then []
    else if steps[0].Emit? then [steps[0].point] + EmitPoints(steps[1..])
    else EmitPoints(steps[1..])
  }

  /** The sink receives one point per emitting step, in step order: all of
      them when the loop completes, and those before the first stopping step
      otherwise. */
  lemma {:induction false} RunEmitPoints(steps: seq<Step>)
    ensures Run(steps).status == Completed ==> Run(steps).points == EmitPoints(steps)
    ensures Run(steps).status.Aborted? ==>
      exists j :: 0 <= j < |steps| && steps[j] == Stop(Run(steps).status.failure)
                  && Run(steps).points == EmitPoints(steps[..j])
    decreases |steps|
  {
    if |steps| > 0 {
      RunEmitPoints(steps[1..]);
      var rest := Run(steps[1..]);
      if steps[0].Stop? {
        assert steps[..0] == [];
      } else if rest.status.Aborted? {
        var j :| 0 <= j < |steps[1..]| && steps[1..][j] == Stop(rest.status.failure)
                 && rest.points == EmitPoints(steps[1..][..j]);
        assert steps[..j + 1][0] == steps[0] && steps[..j + 1][1..] == steps[1..][..j];
        assert steps[j + 1] == Stop(Run(steps).status.failure);
      }
    }
  }

  /** What the sink has seen after one more step: a step after the end
      changes nothing; otherwise its point is appended, or it is skipped, or
      it ends the message. */
  function Feed(c: Conversion, s: Step): Conversion
  {
    if c.status.Aborted? then c
    else match s
      case Emit(p) => Conversion(c.points + [p], Completed)
      case Skip => c
      case Stop(f) => Conversion(c.points, Aborted(f))
  }

  /** Records are handled one after the other: running one more step feeds
      it to what the steps before it produced, so each point is handed to
      the sink after those of earlier records. */
  lemma {:induction false} RunSnoc(steps: seq<Step>, s: Step)
    ensures Run(steps + [s]) == Feed(Run(steps), s)
    decreases |steps|
  {
    var all := steps + [s];
    if |steps| == 0 {
      assert all == [s] && all[1..] == [];
    } else {
      assert all[0] == steps[0] && all[1..] == steps[1..] + [s];
      RunSnoc(steps[1..], s);
      if steps[0].Emit? && s.Emit? {
        var rest := Run(steps[1..]);
        assert [steps[0].point] + (rest.points + [s.point]) == ([steps[0].point] + rest.points) + [s.point];
      }
    }
  }

  /** Points handed to the sink stay emitted: the points of a prefix of the
      steps start the points of the whole, and once a prefix has stopped,
      the steps after it add nothing. */
  lemma {:induction false} RunPrefix(steps: seq<Step>, i: nat)
    requires i <= |steps|
    ensures Run(steps[..i]).points <= Run(steps).points
    ensures Run(steps[..i]).status.Aborted? ==> Run(steps) == Run(steps[..i])
    decreases i
  {
    if i > 0 {
      var prefix := steps[..i];
      assert prefix[0] == steps[0] && prefix[1..] == steps[1..][..i - 1];
      RunPrefix(steps[1..], i - 1);
      if steps[0].Emit? {
        var shorter := Run(prefix[1..]);
        var longer := Run(steps[1..]);
        assert [steps[0].point] + shorter.points <= [steps[0].point] + longer.points;
      }
    }
  }

  /** The loop runs to the end of the pack exactly when no step stops it. */
  lemma {:induction false} RunCompletedIffNoStop(steps: seq<Step>)
    ensures Run(steps).status == Completed <==> forall k :: 0 <= k < |steps| ==> !steps[k].Stop?
    decreases |steps|
  {
    if |steps| > 0 {
      RunCompletedIffNoStop(steps[1..]);
      assert forall k :: 1 <= k < |steps| ==> steps[k] == steps[1..][k - 1];
    }
  }

  /** The first step that stops the loop decides the failure, and the points
      are exactly those of the steps before it. */
  lemma {:induction false} RunAbortedAtFirstStop(steps: seq<Step>, j: nat)
    requires j < |steps| && steps[j].Stop?
    requires forall k :: 0 <= k < j ==> !steps[k].Stop?
    ensures Run(steps[..j]).status == Completed
    ensures Run(steps) == Conversion(Run(steps[..j]).points, Aborted(steps[j].failure))
    decreases j
  {
    if j > 0 {
      assert forall k :: 0 <= k < j - 1 ==> steps[1..][k] == steps[k + 1];
      RunAbortedAtFirstStop(steps[1..], j - 1);
      assert steps[..j][0] == steps[0] && steps[..j][1..] == steps[1..][..j - 1];
    }
  }

  /** A skipped step is dropped alone: the loop runs as if it were absent. */
  lemma {:induction false} RunSkipDropped(steps: seq<Step>, k: nat)
    requires k < |steps| && steps[k].Skip?
    ensures Run(steps[..k] + steps[k + 1..]) == Run(steps)
    decreases k
  {
    var without := steps[..k] + steps[k + 1..];
    if k == 0 {
      assert without == steps[1..];
    } else {
      assert without[0] == steps[0];
      assert without[1..] == steps[1..][..k - 1] + steps[1..][k..];
      RunSkipDropped(steps[1..], k - 1);
    }
  }

  /** Every point handed to the sink is the point of one of the steps. */
  lemma {:induction false} RunPointsFromSteps(steps: seq<Step>)
    ensures forall p :: p in Run(steps).points ==> Emit(p) in steps
    decreases |steps|
  {
    if |steps| > 0 {
      RunPointsFromSteps(steps[1..]);
      assert forall s :: s in steps[1..] ==> s in steps;
    }
  }

  /** `Run` from the step at `i` on: that step's outcome, then the rest. */
  lemma RunAt(steps: seq<Step>, i: nat)
    requires i < |steps|
    ensures steps[i].Stop? ==> Run(steps[i..]) == Conversion([], Aborted(steps[i].failure))
    ensures steps[i].Skip? ==> Run(steps[i..]) == Run(steps[i + 1..])
    ensures steps[i].Emit? ==>
      Run(steps[i..]) == Conversion([steps[i].point] + Run(steps[i + 1..]).points, Run(steps[i + 1..]).status)
  {
    assert steps[i..][0] == steps[i] && steps[i..][1..] == steps[i + 1..];
  }

  /** The record loop of one message. */
  function ConvertRecords(measurement: string, records: seq<Record>, now: int, parseUrn: string -> Option<Urn>): Conversion
  {
    Run(Steps(measurement, records, now, parseUrn))
  }

  /** A record without a `/` in its namespace-specific string is dropped
      alone: the message converts as if it were not in the pack. */
  lemma SkippedRecordDropped(measurement: string, records: seq<Record>, k: nat,
                             now: int, parseUrn: string -> Option<Urn>)
    requires k < |records|
    requires ParseIdentifier(records[k].name, parseUrn).NoField?
    ensures ConvertRecords(measurement, records[..k] + records[k + 1..], now, parseUrn)
         == ConvertRecords(measurement, records, now, parseUrn)
  {
    var steps := Steps(measurement, records, now, parseUrn);
    StepsWithout(measurement, records, k, now, parseUrn);
    RunSkipDropped(steps, k);
  }

  /** The steps of a pack without its record `k` are its steps without step `k`. */
  lemma StepsWithout(measurement: string, records: seq<Record>, k: nat, now: int, parseUrn: string -> Option<Urn>)
    requires k < |records|
    ensures Steps(measurement, records[..k] + records[k + 1..], now, parseUrn)
         == Steps(measurement, records, now, parseUrn)[..k] + Steps(measurement, records, now, parseUrn)[k + 1..]
  {
    MapWithout(records, StepOf(measurement, now, parseUrn), k);
  }

  /** Every point of a message carries the measurement taken from its topic,
      and the unit, value and timestamp of the record it comes from. */
  lemma PointsFromRecords(measurement: string, records: seq<Record>, now: int, parseUrn: string -> Option<Urn>)
    ensures forall p :: p in ConvertRecords(measurement, records, now, parseUrn).points ==>
      && p.measurement == measurement
      && exists j :: 0 <= j < |records| && ConvertRecord(measurement, records[j], now, parseUrn) == Emit(p)
  {
    var steps := Steps(measurement, records, now, parseUrn);
    RunPointsFromSteps(steps);
    forall p | p in Run(steps).points
      ensures p.measurement == measurement
      ensures exists j :: 0 <= j < |records| && ConvertRecord(measurement, records[j], now, parseUrn) == Emit(p)
    {
      var j :| 0 <= j < |steps| && steps[j] == Emit(p);
      ConvertRecordOutcomes(measurement, records[j], now, parseUrn);
    }
  }

  /** The whole handler: topic, then payload, then the record loop. */
  function Convert(topic: string, payload: Result<seq<Record>, PayloadError>, now: int,
                   parseUrn: string -> Option<Urn>): (c: Conversion)
    ensures MatchTopic(topic).None? ==> c == Conversion([], Aborted(TopicMismatch(topic)))
    ensures payload.Err? && MatchTopic(topic).Some? ==> c == Conversion([], Aborted(PayloadRejected(payload.error)))
  {
    match MatchTopic(topic)
    case None => Conversion([], Aborted(TopicMismatch(topic)))
    case Some(groups) =>
      match payload
      case Err(e) => Conversion([], Aborted(PayloadRejected(e)))
      case Ok(records) => ConvertRecords(groups.1, records, now, parseUrn)
  }

  /** The handler as the Go code runs it: a loop over the records that
      appends each finished point to what the sink has received, skips a
      record with `continue` and ends the message with `return`. */
  method Handle(topic: string, payload: Result<seq<Record>, PayloadError>, now: int,
                parseUrn: string -> Option<Urn>) returns (emitted: seq<Point>, status: Status)
    ensures Conversion(emitted, status) == Convert(topic, payload, now, parseUrn)
  {
    var groups := MatchTopic(topic);
    if groups.None? {
      return [], Aborted(TopicMismatch(topic));
    }
    var measurement := groups.value.1;
    if payload.Err? {
      return [], Aborted(PayloadRejected(payload.error));
    }
    var records := payload.value;
    ghost var steps := Steps(measurement, records, now, parseUrn);
    assert Convert(topic, payload, now, parseUrn) == Run(steps);
    emitted := [];
    var i := 0;
    while i < |records|
      invariant 0 <= i <= |records|
      invariant Run(steps).points == emitted + Run(steps[i..]).points
      invariant Run(steps).status == Run(steps[i..]).status
    {
      var record := records[i];
      ghost var parsed := ParseIdentifier(record.name, parseUrn);
      ghost var step := ConvertRecord(measurement, record, now, parseUrn);
      assert steps[i] == step;
      RunAt(steps, i);
      var urn := parseUrn(record.name);
      if urn.None? {
        assert parsed == Rejected(InvalidUrn(record.name));
        assert step == Stop(InvalidUrn(record.name));
        return emitted, Aborted(InvalidUrn(record.name));
      }
      var parts := SplitFirst(urn.value.nss, '/');
      if |parts| < 2 {
        assert parsed == NoField;
        assert step == Skip;
        i := i + 1;
        continue;
      }
      var body: seq<string>;
      if urn.value.nid == "dev" {
        body := Split(parts[0], ':');
        if |body| < 2 {
          assert parsed == Rejected(MissingDevSubtype(urn.value.nss));
          assert step == Stop(MissingDevSubtype(urn.value.nss));
          return emitted, Aborted(MissingDevSubtype(urn.value.nss));
        }
      } else {
        assert parsed == Rejected(UnsupportedNamespace(urn.value.nid));
        assert step == Stop(UnsupportedNamespace(urn.value.nid));
        return emitted, Aborted(UnsupportedNamespace(urn.value.nid));
      }
      assert parsed == Identified(Identity(body[0], body[1], parts[1]));
      var timestamp := Timestamp(record.time, now);
      if record.value.None? {
        assert step == Stop(MissingValue(record.name));
        return emitted, Aborted(MissingValue(record.name));
      }
      var point := Point(timestamp, measurement, body[0], body[1], parts[1], record.unit, record.value.value);
      assert step == Emit(point);
      assert emitted + ([point] + Run(steps[i + 1..]).points) == (emitted + [point]) + Run(steps[i + 1..]).points;
      emitted := emitted + [point];
      i := i + 1;
    }
    assert steps[i..] == [];
    status := Completed;
  }

  // ---------------------------------------------------------------------
  // The recorded example
  // ---------------------------------------------------------------------

  /** The pack `[{"bn":"urn:dev:ow:10e2073a0108006/","bt":1.276020076001e+09,
      "bu":"A","n":"voltage","u":"V","v":120.1},{"n":"current","v":1.7}]` on
      topic `piegn/tele/senml/24v-bmv/meas` resolves to the two records below
      and yields two points at 2010-06-06T18:01:16Z, whatever `now` is. */
  lemma ExamplePack(topic: string, records: seq<Record>, now: int, parseUrn: string -> Option<Urn>)
    requires topic == "piegn/tele/senml/24v-bmv/meas"
    requires records == [Record("urn:dev:ow:10e2073a0108006/voltage", 1276020076.001, "V", Some(120.1)),
                         Record("urn:dev:ow:10e2073a0108006/current", 1276020076.001, "A", Some(1.7))]
    requires parseUrn("urn:dev:ow:10e2073a0108006/voltage") == Some(Urn("dev", "ow:10e2073a0108006/voltage"))
    requires parseUrn("urn:dev:ow:10e2073a0108006/current") == Some(Urn("dev", "ow:10e2073a0108006/current"))
    ensures Convert(topic, Ok(records), now, parseUrn)
         == Conversion([Point(1276020076000000000, "meas", "ow", "10e2073a0108006", "voltage", "V", 120.1),
                        Point(1276020076000000000, "meas", "ow", "10e2073a0108006", "current", "A", 1.7)],
                       Completed)
  {
    ExampleTopic(topic);
    ExampleRecords(records, now, parseUrn);
  }

  lemma ExampleRecords(records: seq<Record>, now: int, parseUrn: string -> Option<Urn>)
    requires records == [Record("urn:dev:ow:10e2073a0108006/voltage", 1276020076.001, "V", Some(120.1)),
                         Record("urn:dev:ow:10e2073a0108006/current", 1276020076.001, "A", Some(1.7))]
    requires parseUrn("urn:dev:ow:10e2073a0108006/voltage") == Some(Urn("dev", "ow:10e2073a0108006/voltage"))
    requires parseUrn("urn:dev:ow:10e2073a0108006/current") == Some(Urn("dev", "ow:10e2073a0108006/current"))
    ensures ConvertRecords("meas", records, now, parseUrn)
         == Conversion([Point(1276020076000000000, "meas", "ow", "10e2073a0108006", "voltage", "V", 120.1),
                        Point(1276020076000000000, "meas", "ow", "10e2073a0108006", "current", "A", 1.7)],
                       Completed)
  {
    assert "ow:10e2073a0108006/voltage" == "ow:10e2073a0108006/" + "voltage";
    assert "ow:10e2073a0108006/current" == "ow:10e2073a0108006/" + "current";
    var pv := ExampleRecord(records[0], "voltage", now, parseUrn);
    var pc := ExampleRecord(records[1], "current", now, parseUrn);
    ExampleTwoRecords(records, pv, pc, now, parseUrn);
  }

  /** Two records that each give a point give the two points in order. */
  lemma ExampleTwoRecords(records: seq<Record>, pv: Point, pc: Point, now: int, parseUrn: string -> Option<Urn>)
    requires |records| == 2
    requires ConvertRecord("meas", records[0], now, parseUrn) == Emit(pv)
    requires ConvertRecord("meas", records[1], now, parseUrn) == Emit(pc)
    ensures ConvertRecords("meas", records, now, parseUrn) == Conversion([pv, pc], Completed)
  {
    assert Steps("meas", records, now, parseUrn) == [Emit(pv), Emit(pc)];
    ExampleTwoSteps(pv, pc);
  }

  lemma ExampleTwoSteps(pv: Point, pc: Point)
    ensures Run([Emit(pv), Emit(pc)]) == Conversion([pv, pc], Completed)
  {
    assert [Emit(pv), Emit(pc)][1..] == [Emit(pc)];
    assert Run([Emit(pc)]) == Conversion([pc], Completed) by {
      assert [Emit(pc)][1..] == [];
    }
  }

  lemma ExampleTopic(topic: string)
    requires topic == "piegn/tele/senml/24v-bmv/meas"
    ensures MatchTopic(topic) == Some(("piegn/tele/senml/24v-bmv", "meas"))
  {
    MatchTopicComplete(topic, "piegn/tele/senml/24v-bmv", "meas");
  }

  /** One record of the example: device `ow:10e2073a0108006`, the field
      after the `/`, and 1276020076 whole seconds. */
  lemma ExampleRecord(record: Record, field: string, now: int, parseUrn: string -> Option<Urn>) returns (p: Point)
    requires parseUrn(record.name) == Some(Urn("dev", "ow:10e2073a0108006/" + field))
    requires record.time == 1276020076.001 && record.value.Some?
    ensures p == Point(1276020076000000000, "meas", "ow", "10e2073a0108006", field, record.unit, record.value.value)
    ensures ConvertRecord("meas", record, now, parseUrn) == Emit(p)
  {
    ExampleIdentifier(record.name, field, parseUrn);
    ExampleTime(record.time, now);
    p := Point(1276020076000000000, "meas", "ow", "10e2073a0108006", field, record.unit, record.value.value);
  }

  lemma ExampleIdentifier(name: string, field: string, parseUrn: string -> Option<Urn>)
    requires parseUrn(name) == Some(Urn("dev", "ow:10e2073a0108006/" + field))
    ensures ParseIdentifier(name, parseUrn) == Identified(Identity("ow", "10e2073a0108006", field))
  {
    ExampleNss(field);
    ParseDevIdentifier(name, parseUrn, Identity("ow", "10e2073a0108006", field), []);
  }

  lemma ExampleNss(field: string)
    ensures DevNss("ow:10e2073a0108006/" + field, Identity("ow", "10e2073a0108006", field), [])
  {
    assert "ow:10e2073a0108006/" == "ow" + [':'] + "10e2073a0108006" + [] + ['/'];
    assert ':' !in "ow" && ':' !in "10e2073a0108006" && '/' !in "ow" && '/' !in "10e2073a0108006";
  }

  lemma ExampleTime(t: real, now: int)
    requires t == 1276020076.001
    ensures Timestamp(t, now) == 1276020076000000000
  {
    assert Trunc(t) == 1276020076;
  }
}
