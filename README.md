# SenML handler of go-mqtt-to-influx, in Dafny

This project models the SenML converter of the MQTT-to-InfluxDB bridge
(`converter/senml.go`). One inbound MQTT message is a topic and a payload. The
handler takes the measurement name from the last segment of the topic. It
decodes and normalises the payload into resolved SenML records (RFC 8428).
For each record, in order, it:

- parses the record name as a URN;
- takes the device tag (`key:value`) and the field from the
  namespace-specific string of a `dev` URN;
- picks a timestamp: an offset in milliseconds from the current time, or
  whole Unix seconds;
- hands one point to the output sink.

A record without a `/` in its namespace-specific string is skipped. Every
other problem ends the message, including the two cases in which the Go code
panics. Points already handed to the sink stay emitted.

Files:

- `wrappers.dfy`: `Option` and `Result`.
- `gostrings.dfy`: the two `strings` calls of the handler,
  `SplitN(s, sep, 2)` (`SplitFirst`) and `Split`, with their helpers:
  - `Index` is the search for the first separator inside both;
  - `LastIndex` is the choice of the last `/` that the anchored topic
    pattern forces; it is not a `strings` call;
  - `Join` is not used by the handler; it is the reference inverse that
    pins `Split` down (`JoinSplit`, `SplitJoin`).
- `senml.dfy`: the data model and the handler:
  - the records, the output point and its accessors;
  - the topic pattern `^(.*)/([^/]*)$`;
  - the URN identifier rule and the timestamp rule;
  - one record as a `Step`, and the record loop as `Run` over the steps of
    a pack;
  - the whole message as the function `Convert` and as the imperative
    method `Handle`, which mirrors the Go loop (`continue` for a skipped
    record, `return` for an abort) and is proved equal to `Convert`;
  - the recorded example of the test suite.

Abstractions:

- The URN parser of the `gooseberry/urn` library is a parameter
  `parseUrn: string -> Option<Urn>`.
- Decoding and normalising the payload is a parameter
  `payload: Result<seq<Record>, PayloadError>`.
- `time.Now()` is a parameter `now`, in nanoseconds since the Unix epoch.
- The sink is the sequence of points emitted, in call order.
- `Status` says whether the loop ran to the end of the pack or which failure
  ended the message.

Three behaviours of the code that the model keeps:

- A URN namespace other than `dev`: the device body is declared as a fresh
  nil slice on every iteration (`converter/senml.go:88`) and only the `dev`
  branch fills it. Indexing it at lines 100-101 panics, so the model ends
  the message with `Aborted(UnsupportedNamespace(nid))`.
- The time threshold: the code compares the signed time with `1 << 28`
  (`converter/senml.go:105`), so every negative time is a millisecond
  offset from now.
- The record value: the code dereferences `*record.Value`
  (`converter/senml.go:118`), which panics when the value is nil, as for a
  record with a string, boolean or data value. The model ends the message
  with `Aborted(MissingValue(name))`.

## Model

| member | source | states |
|---|---|---|
| GoStrings.Index | converter/senml.go:81 | The result is absent exactly when the separator does not occur; otherwise it is the position of its first occurrence. |
| GoStrings.LastIndex | converter/senml.go:25 | The result is absent exactly when the character does not occur; otherwise it is the position of its last occurrence. |
| GoStrings.IndexAt | converter/senml.go:81 | A position holding the first occurrence is the one found. |
| GoStrings.LastIndexAt | converter/senml.go:25 | A position holding the last occurrence is the one found. |
| GoStrings.SplitFirst | converter/senml.go:81 | `SplitN(s, "/", 2)` gives one part (the whole text) exactly when `/` does not occur. Otherwise it gives two parts: the first is free of `/`, and the text is first part, `/`, second part. |
| GoStrings.SplitFirstAt | converter/senml.go:81 | Splitting `head/tail`, where head has no `/`, gives exactly `[head, tail]`, whatever the tail holds. |
| GoStrings.Split | converter/senml.go:91 | `Split` gives at least one piece. No piece contains the separator. There is exactly one piece when the separator does not occur. |
| GoStrings.JoinSplit | converter/senml.go:91 | Joining the pieces of `Split` with the separator gives back the original text. |
| GoStrings.SplitJoin | converter/senml.go:91 | Splitting the join of separator-free pieces gives back the pieces. |
| GoStrings.SplitFirstPiece | converter/senml.go:91 | The first piece of `Split` runs up to the first separator or to the end. |
| GoStrings.SplitLeadingPieces | converter/senml.go:91 | With a separator present, the text starts with the first piece, the separator and the second piece, followed by nothing or by a separator. |
| Senml.Point.Tags | converter/senml.go:127-132 | The tags are exactly `unit` and the device tag key. The device key maps to the device value. `unit` maps to the record unit unless the device key is itself `unit`, in which case the later map entry wins. |
| Senml.Point.Fields | converter/senml.go:134-138 | The field set is exactly one field, named by the URN field and holding the record value. |
| Senml.MatchTopic | converter/senml.go:48-53 | A match splits the topic at its last `/`, and the prefix holds no newline (`.` does not match one). A topic without `/` does not match. |
| Senml.MatchTopicComplete | converter/senml.go:48-53 | Every decomposition `prefix/segment` that the pattern describes is the one found, so the measurement is the text after the last `/`. |
| Senml.ParseIdentifierOutcomes | converter/senml.go:72-98 | Each outcome, in both directions: an unparsable name aborts with `InvalidUrn`; a parsed name with no `/` is skipped; a `/` with a namespace other than `dev` aborts; a `dev` name with no `:` before the `/` aborts with `MissingDevSubtype`. |
| Senml.SplitDevicePart | converter/senml.go:91-101 | For a device part `key:value` or `key:value:...`, the first two `:`-pieces are the key and the value. |
| Senml.ParseDevIdentifier | converter/senml.go:79-102 | A `dev` URN whose namespace-specific string is `key:value[:...]/field` yields exactly that key, value and field. Further `/` characters stay in the field. |
| Senml.ParsedIdentityIsDev | converter/senml.go:79-102 | Every identity produced comes from a `dev` URN of that shape: the converse of `ParseDevIdentifier`. |
| Senml.Trunc | converter/senml.go:106 | The float-to-integer conversion truncates toward zero. The result lies within one unit of the time, on the side of zero. |
| Senml.WrapInt64 | converter/senml.go:106 | The 64-bit product lies in the int64 range. It is congruent to the exact product modulo 2^64, and equal to it when it fits. |
| Senml.TimestampAbsolute | converter/senml.go:105-108 | From `1 << 28` on, the timestamp is the time truncated to whole seconds. It is a whole number of seconds, at or after `1 << 28` seconds. |
| Senml.TimestampRelative | converter/senml.go:105-106 | For `0 <= t < 1 << 28`, the timestamp is now plus `t` milliseconds truncated to a whole millisecond. |
| Senml.TimestampRelativeNegative | converter/senml.go:105-106 | A negative time is now minus its milliseconds truncated toward zero, while the product fits in 64 bits. |
| Senml.TimestampWrapsFarPast | converter/senml.go:106 | A time of -10^13 overflows the `time.Duration` product. The timestamp lands about 268 years after now instead of in the past. |
| Senml.ConvertRecordOutcomes | converter/senml.go:72-119 | A record is skipped exactly when its name has no field. It gives a point exactly when its identifier resolves and it has a value. The point carries the topic measurement, the resolved identity, the record unit and value, and the timestamp rule result. |
| Senml.Run | converter/senml.go:70-120 | The sink receives at most one point per record. |
| Senml.RunEmitPoints | converter/senml.go:70-120 | The sink receives one point per emitting record, in record order. When the loop completes, these are the points of all the emitting records. When it aborts, the failure is that of a stopping record, and the points are those of the emitting records before it. |
| Senml.RunSnoc | converter/senml.go:70-120 | One more record feeds its step to the result so far: its point is appended after those of earlier records, it is skipped, or it ends the message. Nothing happens after an abort. |
| Senml.RunPrefix | converter/senml.go:70-120 | The points of any prefix of the pack start the points of the whole pack. Once a prefix has aborted, later records change nothing. |
| Senml.RunCompletedIffNoStop | converter/senml.go:70-120 | The message completes exactly when no record stops it. |
| Senml.RunAbortedAtFirstStop | converter/senml.go:70-120 | The first stopping record decides the failure. The points are exactly those of the records before it. |
| Senml.RunSkipDropped | converter/senml.go:83-86 | A skipped step is dropped alone: the rest runs as if it were absent. |
| Senml.RunPointsFromSteps | converter/senml.go:111-119 | Every point sent to the sink is the point of one of the steps. |
| Senml.SkippedRecordDropped | converter/senml.go:83-86 | A record whose name has no `/` field part is skipped alone: the message converts as if that record were not in the pack. |
| Senml.PointsFromRecords | converter/senml.go:111-119 | Every point carries the measurement from the topic and is the point of one record of the pack. |
| Senml.Convert | converter/senml.go:46-68 | A topic that does not match ends the message before any point is emitted, and so does a payload that cannot be decoded or normalised. |
| Senml.Handle | converter/senml.go:46-121 | The imperative loop emits exactly the points, and ends with exactly the status, of the functional model `Convert`. |
| Senml.ExamplePack | converter/senml_test.go:19-33 | The recorded pack on topic `piegn/tele/senml/24v-bmv/meas` gives the points `meas,ow=10e2073a0108006,unit=V voltage=120.1` and `...,unit=A current=1.7`, both at 1276020076000000000 ns, and completes. |
| Senml.ExampleTime | converter/senml_test.go:23 | The base time 1.276020076001e+09 is past `1 << 28` and becomes 1276020076 whole seconds. |

## Left out

- SenML decoding and normalisation (`senml.Decode`, `senml.Normalize`): these belong to the library. The payload is their result, or their error.
- URN syntax and validation (`urn.TryParseString`): this belongs to the library. The parser is an arbitrary total function given to the model.
- Logging, the converter name in log lines and the handler registration (`init`, `registerHandler`): these have no effect on the points.
- `time.Now()`: the current time is a parameter, so every record of one message sees the same `now`, as in the code.
- Senml.Trunc: float64 semantics are not modelled. SenML times are real numbers, and NaN, infinities and rounding of float64 arithmetic are absent. Go's conversion of a float64 outside the int64 range is implementation-defined; in the model it is exact truncation.
- Senml.TimestampAbsolute: the product `int64(t)` seconds is not wrapped. `time.Unix` accepts any int64 number of seconds, and the model keeps an unbounded count.
- Senml.TimestampRelativeNegative: stated only for times whose millisecond product fits in 64 bits. The wrapping case is shown by `TimestampWrapsFarPast` and is defined by `WrapInt64`.
- Turning a point into an InfluxDB line and the iteration order of the tag map: these lie outside the handler.
- The gomock test harness: only the recorded stimulus and its expected points are modelled.
