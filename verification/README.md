# HomeKit accessory server: model and proofs

This project models the parts of the Go package `hap` that carry its protocol: the
TLV8 codec, the encrypted record layer, Adaptive Lighting, the server's pairings,
sessions and timed writes, and the accessory and characteristic model. Each part has
a specification made of datatypes and functions, the source's algorithms as classes
and methods with loops that are proved equal to it, and theorems about it. Section
numbers refer to the HomeKit Accessory Protocol Specification, Non-Commercial
Version, Release R2, and to RFC 8439.

| file | what it holds |
|---|---|
| `Options.dfy`, `Bytes.dfy` | optional values; little-endian numbers, two's complement, concatenation |
| `Tlv8Format.dfy` | items, fragmentation, delimiters, and the fold of a stream into buckets |
| `Tlv8Schema.dfy` | schemas, values, and what encoding and decoding mean |
| `Tlv8Scalars.dfy` | single fields and lists, byte by byte: how they are written, and what any bytes are read as |
| `Tlv8RoundTrip.dfy`, `Tlv8Exact.dfy` | what an encoding reads back as; the round trip and exactly when it holds |
| `Tlv8Termination.dfy`, `Tlv8Divergence.dfy` | when decoding ends, and for which schemas always |
| `Tlv8Outcomes.dfy` | which fields and lists end with which error |
| `Tlv8Codec.dfy` | writer, reader, encoder and decoder as methods |
| `AdaptiveTlv.dfy`, `AdaptiveBytes.dfy` | the Adaptive Lighting payloads as schemas; their bytes |
| `RecordLayer.dfy` | frames, nonces, the session object |
| `Curve.dfy` | the schedule evaluator |
| `Schedule.dfy` | a running transition and its clock |
| `ControllerSteps.dfy`, `ControllerOverlap.dfy` | the controller as interleaved critical sections; what overlapping calls can spoil |
| `Controller.dfy` | the controller as an object |
| `PairingStore.dfy` | pairings in the flat key-value store |
| `Characteristic.dfy`, `Accessory.dfy` | values and listeners; ids and lookup |
| `ServerSteps.dfy`, `Server.dfy` | the server as a transition system, and as an object |
| `ServerWrites.dfy`, `ServerStores.dfy` | what one write request can change, with the writes of its handlers and listeners; what it stores |
| `ServerSessions.dfy`, `ServerAdmin.dfy`, `ServerTimed.dfy`, `ServerValues.dfy` | theorems over all runs of the server |

Cryptography, JSON, float conversions and clocks are parameters. `RecordLayer.Correct`
is what section 2.8 of RFC 8439 promises of an AEAD, `PairingStore.Correct` what the
JSON form of a pairing promises; a lemma beside each gives an instance. The real
numbers of `Curve.dfy` stand for float64.

## What the code does that its documentation or tests do not say

- A required nested struct that is missing is left unset without an error, because
  the `break` at `tlv8/decoder.go:228` leaves the `switch`, not the loop
  (`Tlv8Outcomes.EofIff`).
- A named list swallows an element whose bytes cannot be cut into items, and all that
  follow it (`tlv8/decoder.go:190-194`, `Tlv8Outcomes.ListSwallowsIff`,
  `Tlv8Outcomes.ElementLost`).
- A list element of more than 255 bytes behind others gives its tail to the first one
  and takes its own head and the elements in between with it; the elements after it
  survive (`tlv8/reader.go:223`, `Tlv8Format.LongValueSurvivors`).
- An inline list ends on every input exactly when its elements have a required scalar
  field of their own. With a required nested struct only, or with optional fields
  only, it does not end when an item of another tag is left
  (`Tlv8Divergence.DivergesIff`, `Tlv8Divergence.RequiredStructDiverges`).
- An int64 is written in four bytes (`tlv8/writer.go:86`).
- A transition with one entry, or whose first entry has an offset, is disabled by its
  first tick, and the answer to the write then dereferences the missing transition
  (`adaptive/controller.go:152-154`). So does a disable that comes between the enable
  and the answer (`ControllerOverlap.AnswersFindIff`).
- An inverted brightness range makes dimming cool the light
  (`Curve.DimmingWarmsIff`). Calls that overlap can leave the active-transition count
  wrong: when another thread can clear the transition while the count of an enable is
  still to be set, or when a count is still to be cleared for a transition that has been
  replaced (`ControllerOverlap.CountRightIff`).
- A pairing name that is not valid UTF-8 is changed by the JSON form, so deleting that
  pairing, alone (`ServerAdmin.DeletedIff`, `ServerAdmin.DeletedButStored`) or with all
  others (`PairingStore.DeleteAllLeaves`), leaves it in the store.
- Values do not change by requests alone: the application writes them at any time, and a
  request's handler may write other characteristics, read-only ones among them
  (`adaptive/controller.go:203` and `236`). What then still holds is
  `ServerValues.ValueChanges`.
- `server_test.go:30-36` adds an accessory again after a service was appended to it and
  expects this to succeed. `server.go:282` restarts the count of instance ids at one,
  so the appended service clashes with the first (`AccessoryModel.AddAgainIff`).
- Every permitted write to a uint64 characteristic fails a type assertion
  (`characteristic/c.go:158`, `Characteristic.PanicIff`), and the reply to a write is the value before it was
  limited (`characteristic/c.go:152`).

## Model

| member | source | states |
|---|---|---|
| `Tlv8Format.ReadAccepts` | tlv8/reader.go:197-234 | reading succeeds exactly on streams that are a sequence of whole items |
| `Tlv8Format.DelimiterFreeBuckets` | tlv8/reader.go:218-231 | without delimiters the bucket of a tag is the concatenation, in order, of all payloads of that tag; nothing empty is kept |
| `Tlv8Format.ReorderDelimiterFree` | tlv8/reader.go:218-231 | streams that agree on the order of equal tags read to the same map |
| `Tlv8Format.LongValueAfterDelimiter` | tlv8/reader.go:219-224 | a second fragment after a delimiter is glued to the oldest bucket and the later buckets are dropped |
| `Tlv8Format.WrittenValueReadsBack` | tlv8/writer.go:23-43 | a written value of any length reads back as exactly that value; an empty one leaves no trace |
| `Tlv8Format.WrittenLength` | tlv8/writer.go:23-43 | a value takes its length plus two bytes for each started 255 |
| `Tlv8Format.DelimitedReadsBack` | tlv8/reader.go:197-234 | a delimited list reads back exactly when no value is empty and all but the first fit one fragment; otherwise values are lost |
| `Tlv8Format.DelimitedKeeps` | tlv8/reader.go:197-234 | what any delimited list reads back as: the fold that drops empty values and glues the tails of long ones to the oldest |
| `Tlv8Format.LongValueSurvivors` | tlv8/reader.go:219-224 | a long value behind others removes those between it and the first, gives the first its tail, and leaves what follows alone |
| `Tlv8RoundTrip.ReadEncoding` | tlv8/reader.go:197-234 | reading the encoding of any value gives, for each field, what is kept of the values it wrote |
| `Tlv8RoundTrip.LeafRoundTrip` | tlv8/writer.go:45-107 | every scalar except a wide int64 is read from its own bytes as the value that was written |
| `Tlv8RoundTrip.SignedRoundTripLeaf` | tlv8/writer.go:57-87 | a signed number survives writing and reading exactly when it fits the bytes that are written |
| `Tlv8Scalars.ValueBytes` | tlv8/writer.go:23-43 | a value is its tag, its length and its bytes, in pieces of 255 bytes; an empty one is nothing |
| `Tlv8Scalars.BrokenOff` | tlv8/reader.go:197-234 | whole items and a broken one fail with the plain end-of-file error if it breaks off before its value, and with the unexpected one inside it |
| `Tlv8Scalars.LeafBytes` | tlv8/writer.go:45-115 | unsigned numbers take their width, low byte first, signed ones the same modulo their width and an int64 modulo four bytes; a bool is one byte, the rest as it is |
| `Tlv8Scalars.UnsignedReads` | tlv8/reader.go:75-120 | any bytes under the tag of an unsigned field are read as the number that their longest prefix of 1, 2, 4 or 8 bytes within the width spells |
| `Tlv8Scalars.ShortUnsigned` | tlv8/reader.go:75-120 | so a number in fewer bytes than the field has is read as that number |
| `Tlv8Scalars.SignedReads` | tlv8/reader.go:122-186 | signed fields likewise, in two's complement, but a prefix of one byte as 0 to 255 |
| `Tlv8Scalars.ShortSigned` | tlv8/reader.go:122-186 | the low bytes of a signed number are read as that number exactly when it fits them, a single byte exactly when it is one |
| `Tlv8Scalars.OthersRead` | tlv8/decoder.go:67-163 | a bool is true exactly when its first byte is one, a float32 takes four bytes and panics on fewer, strings and data take all |
| `Tlv8Scalars.MissingReads` | tlv8/decoder.go:59-245 | a field without bytes is left at zero, and only a required scalar fails, with the end-of-file error |
| `Tlv8Scalars.NestedReads` | tlv8/decoder.go:219-245 | a nested struct is what its bytes decode to; the end-of-file error inside leaves it unset, any other failure is the field's |
| `Tlv8Scalars.ElementBytes` | tlv8/encoder.go:95-114 | one more element of a named list is two zero bytes, unless it is the first, and its encoding under the tag |
| `Tlv8Scalars.InlineBytes` | tlv8/encoder.go:95-114 | in an inline list the element's fields stand there themselves |
| `Tlv8Exact.ExactRoundTrip` | tlv8/unmarshal.go:17-28 | the round trip: for every schema with distinct tags on each level and one-field inline elements, and every value of it, decoding the encoding gives back exactly that value and uses up the input if and only if the value is exact: a condition on its fields that covers empty required bytes, wide int64s, structs and pointers that encode to nothing, elements that delimiters cannot keep apart, and inline lists that are not the last thing to read |
| `Tlv8Exact.ZerosEnd` | tlv8/decoder.go:43-246 | how decoding an encoded zero value ends: with the end-of-file error at the first required byte string, or never if an empty open-ended inline list comes before other items |
| `Tlv8Exact.ListFreeEnds` | tlv8/decoder.go:43-246 | without lists, decoding what was encoded ends normally or with the end-of-file error and sets zero values right |
| `Tlv8Exact.NamedListRoundTrip` | tlv8/decoder.go:171-213 | a named list of exact elements comes back if and only if each encodes to something and all but the first to at most 255 bytes |
| `Tlv8Exact.InlineListRoundTrip` | tlv8/decoder.go:171-213 | an inline list of one-field elements comes back if and only if: for a required scalar, no payload is empty and all but the first fit one fragment; for any other scalar, a struct or a pointer, there is exactly one element or the same holds of more than one |
| `Tlv8Exact.Int64RoundTrip` | tlv8/writer.go:75-87 | an int64 field comes back if and only if it fits 32 bits |
| `Tlv8Exact.ReorderedItemsDecodeAlike` | tlv8/decoder.go:43-246 | reordering items of different tags does not change the decoded struct |
| `Tlv8Termination.DecodingEnds` | tlv8/decoder.go:43-246 | decoding ends on every input if each inline list has elements with a required scalar field of their own, and without float32 fields never reads out of bounds |
| `Tlv8Termination.InlineRunsToEnd` | tlv8/decoder.go:171-213 | the inline loop is said to diverge exactly when no number of iterations ends it |
| `Tlv8Termination.OptionalElementsDiverge` | tlv8/decoder.go:171-213 | when the elements are made of optional scalars the loop runs for ever if and only if some remaining tag is none of the element's and no bucket of a float32 is short |
| `Tlv8Divergence.DivergesIff` | tlv8/decoder.go:43-246 | for every schema with distinct tags on each level and one tag to spare, decoding ends on all inputs if and only if each inline list, at any depth, has elements with a required scalar field of their own |
| `Tlv8Divergence.PanicsIff` | tlv8/decoder.go:130-137 | of the schemas that always end, the ones that never read out of bounds are exactly those without float32 fields |
| `Tlv8Divergence.RequiredStructDiverges` | tlv8/decoder.go:219-228 | three bytes on which an inline list whose elements require only a nested struct does not end |
| `Tlv8Outcomes.EofIff` | tlv8/decoder.go:43-246 | a field ends with the end-of-file error if and only if it is a required scalar that is missing, or a named list with an element that ends so before the input does |
| `Tlv8Outcomes.ListOutcome` | tlv8/decoder.go:171-213 | a named list gives the elements before the first bad bucket, and that bucket decides its length and its status |
| `Tlv8Outcomes.ListSwallowsIff` | tlv8/decoder.go:186-213 | it loses buckets without an error if and only if one cannot be cut into items, or the very last one breaks off inside a nested item |
| `Tlv8Outcomes.ElementLost` | tlv8/decoder.go:186-194 | three bytes whose one list element is lost without an error |
| `Tlv8Codec.Writer.WriteBytes` | tlv8/writer.go:23-43 | appends the fragments of the value to what was written before |
| `Tlv8Codec.Writer.WriteLeaf` | tlv8/writer.go:45-115 | appends one scalar in its wire form |
| `Tlv8Codec.StructPayload` | tlv8/encoder.go:50-128 | the loop over the fields gives the encoding that the round trip is about |
| `Tlv8Codec.WriteField` | tlv8/encoder.go:64-124 | appends one field, nil pointers and lists included |
| `Tlv8Codec.WriteList` | tlv8/encoder.go:95-114 | appends a named list with its delimiters |
| `Tlv8Codec.WriteInline` | tlv8/encoder.go:95-114 | appends an inline list with its delimiters |
| `Tlv8Codec.NewReader` | tlv8/reader.go:197-234 | the reading loop folds the stream into the map, or reports which end of file it met |
| `Tlv8Codec.Reader.ReadBytes` | tlv8/reader.go:41-56 | takes the oldest bucket of a tag, never an empty one, and shrinks the map |
| `Tlv8Codec.Reader.ReadUnsigned` | tlv8/reader.go:75-120 | reads an unsigned number as `Tlv8Scalars.UnsignedReads` says, always within bounds |
| `Tlv8Codec.Reader.ReadSigned` | tlv8/reader.go:122-186 | reads a signed number as `Tlv8Scalars.SignedReads` says |
| `Tlv8Codec.Reader.ReadLeaf` | tlv8/decoder.go:67-163 | one scalar field: value, missing optional, missing required, or panic |
| `Tlv8Codec.Unmarshal` | tlv8/unmarshal.go:21-28 | decoding bytes into a zero struct is the decoding of the round trip and of `Tlv8Scalars` |
| `Tlv8Codec.DecodeInto` | tlv8/decoder.go:59-245 | sets the fields in place until an error, keeping those already set |
| `Tlv8Codec.DecodeListInto` | tlv8/decoder.go:171-213 | the named-list loop, ending for every reader |
| `Tlv8Codec.DecodeInlineInto` | tlv8/decoder.go:171-213 | the inline-list loop, with divergence detected where nothing is taken |
| `AdaptiveTlv.ControlWriteRoundTrip` | adaptive/tlv.go:35-79 | a transition control write comes back if and only if its transition id and start time are both there, or its parameters are empty altogether |
| `AdaptiveTlv.ReadResponseRoundTrip` | adaptive/controller.go:337-385 | so does the configuration read back from the controller |
| `AdaptiveTlv.StatusResponseRoundTrip` | adaptive/tlv.go:82-102 | so does the status after a write |
| `AdaptiveBytes.EntryIs` | adaptive/tlv.go:69-74 | the 24 bytes of a curve entry: factor, temperature, time and hold under the tags 1 to 4 |
| `AdaptiveBytes.EntriesAre` | adaptive/tlv.go:63-67 | entries follow each other under tag 1 with two zero bytes between them |
| `AdaptiveBytes.CurveIs` | adaptive/tlv.go:63-79 | entries, adjusted characteristic and brightness range, lower bound first, under the tags 1 to 3 |
| `AdaptiveBytes.ParametersAre` | adaptive/tlv.go:57-61 | transition id, start time and an unknown value under the tags 1 to 3, each left out if empty |
| `AdaptiveBytes.ConfigIs` | adaptive/tlv.go:48-55 | id, parameters, enable flag, curve, update interval and notification threshold under the tags 1, 2, 3, 5, 6 and 8 |
| `AdaptiveBytes.ControlWriteIs` | adaptive/tlv.go:35-46 | the id to read under tag 1 and the configuration to write under tag 2, each only if there |
| `AdaptiveBytes.ReadResponseIs` | adaptive/controller.go:337-385 | the bytes of the configuration read back |
| `AdaptiveBytes.StatusResponseIs` | adaptive/tlv.go:82-102 | the bytes of the status: id, parameters and elapsed time under the tags 1 to 3, inside tag 1 |
| `AdaptiveBytes.EntryNeeds` | adaptive/tlv.go:69-74 | an entry decodes exactly with its first three values, the floats in four bytes; an absent hold is zero |
| `AdaptiveBytes.OthersNeed` | adaptive/tlv.go:40-79 | parameters need id and start time, a brightness range both bounds, a read its id |
| `AdaptiveBytes.ConfigNeeds` | adaptive/tlv.go:48-67 | a configuration ends with the end-of-file error exactly without its id, a curve without entries exactly without the id of what it adjusts |
| `RecordLayer.PacketsSplit` | session.go:173-195 | a message is cut into ceil(n/1024) packets, all but the last full, none empty, that join to it |
| `RecordLayer.PacketsWithSize` | session.go:173-195 | the splitting loop gives these packets and uses up the reader |
| `RecordLayer.FrameLayout` | session.go:91-108 | a frame is the length in two bytes, low byte first, and the text and tag of sealing under any eight bytes that spell the counter, with the length authenticated |
| `RecordLayer.NonceSpells` | session.go:92-96 | eight bytes are the nonce of a frame exactly when they spell its counter, low byte first |
| `RecordLayer.SealedBytes` | session.go:88-112 | what a session writes for a message, byte for byte, from the first frame, whose nonce spells the counter, to the last |
| `RecordLayer.CountedFrames` | session.go:173-195 | a message counts one frame for each started 1024 bytes |
| `RecordLayer.AdvanceIsSum` | session.go:92-96 | n frames advance the counter by n, modulo 2^64 |
| `RecordLayer.OpenedBytes` | session.go:115-160 | what one call makes of any stream of bytes: each frame is opened under the nonce that spells the counter, a frame that fails is counted, a truncated one is not, and one shorter than 1024 bytes ends the call |
| `RecordLayer.FrameBoundary` | session.go:115-160 | after any number of full frames the receiver goes on with exactly the counter that sealed the next one |
| `RecordLayer.MessageDecrypts` | session.go:115-160 | a call that starts at a message's first frame returns the message and stops behind it unless its length is a multiple of 1024; then it runs on |
| `RecordLayer.BoundaryKept` | session.go:153-156 | a message is returned alone if and only if its length is no multiple of 1024 or nothing follows it |
| `RecordLayer.CallDecryptsGroup` | session.go:115-160 | one call on a stream of messages returns them up to the first whose length is no multiple of 1024 |
| `RecordLayer.ConversationDecrypts` | session.go:88-160 | for any messages sealed by one session, repeated calls by the peer never fail, return plaintexts that join to the joined messages, and end with equal counters |
| `RecordLayer.FrameAt` | session.go:91-109 | the frames of a run use consecutive counters |
| `RecordLayer.NonceReuse` | session.go:92-96 | two frames share a nonce if and only if they are a multiple of 2^64 apart |
| `RecordLayer.EveryFrameFresh` | session.go:88-112 | over any number of calls with at most 2^64 frames, frame j is the length, text and tag of the j-th packet sealed under the eight bytes that spell the j-th counter, and no earlier frame used these bytes |
| `RecordLayer.NewSession` | session.go:65-84 | the accessory's keys by direction and both counters zero, or nothing exactly when one of the keys cannot be derived |
| `RecordLayer.Session.Encrypt` | session.go:88-112 | returns the bytes of `RecordLayer.SealedBytes` and advances the counter by the frames |
| `RecordLayer.Session.Decrypt` | session.go:115-160 | opens frames as `RecordLayer.OpenedBytes` says, leaves the rest of the stream, and counts frames that fail too |
| `Curve.Evaluate` | adaptive/curve.go:25-70 | the loop finds the reading that `Curve.ScheduleReads` pins down |
| `Curve.ScheduleReads` | adaptive/curve.go:34-69 | in plain arithmetic: the first segment that contains the offset gives the whole number nearest to temperature plus factor times limited brightness while it holds, and nearest to the straight line between its two points on the ramp, ties away from zero |
| `Curve.ScheduleOver` | adaptive/curve.go:34-51 | there is no value exactly when no segment contains the offset, the times being sums of ramps and holds |
| `Curve.ClampIs` | adaptive/curve.go:62-67 | a value within the range is left alone, one outside becomes the end it is beyond |
| `Curve.RoundIsNearest` | adaptive/curve.go:69 | rounding gives the nearest whole number, of two the one away from zero |
| `Curve.SucceedsIff` | adaptive/curve.go:34-60 | evaluation finds a segment exactly with two or more points and an offset between the first and the last |
| `Curve.UndefinedIff` | adaptive/curve.go:53-60 | the division by zero happens exactly at the start of a curve whose first segment is empty |
| `Curve.BetweenKnots` | adaptive/curve.go:52-69 | the result lies between the rounded values of the two bracketing points at the limited brightness |
| `Curve.MonotoneInTime` | adaptive/curve.go:34-69 | if the value does not fall from point to point, it does not fall over time, across segments, holds and rounding |
| `Curve.AnyWindowAgrees` | adaptive/curve.go:34-47 | with positive ramps every segment that contains the offset gives the value that the search gives |
| `Curve.PiecewiseLinear` | adaptive/curve.go:34-69 | with positive ramps the schedule is the continuous piecewise-linear function: hold, then a straight line, with no search |
| `Curve.DimmingWarmsIff` | adaptive/curve.go:62-69 | with factors that are never positive, lowering the brightness never lowers the mired value, also after the lamp's limits, if and only if the brightness range is not inverted |
| `Schedule.OffsetIsElapsed` | adaptive/controller.go:181-200 | with wrap-around 64-bit arithmetic the schedule offset is the time elapsed since enable, for any start time |
| `Schedule.RunningIff` | adaptive/controller.go:213-229 | a tick finds a value exactly with two or more entries and an elapsed time on the curve |
| `Schedule.ReadEchoesWrite` | adaptive/controller.go:351-385 | the configuration read back is the one written, a missing interval replaced by 60000, whenever the float32 values of its own entries survive the conversion to float64 and back |
| `Schedule.SetupFields` | adaptive/controller.go:171-200 | each field of a transition from its configuration: times, temperatures and factors of the points, the start in milliseconds since 2001 from up to eight bytes, and a minute for a missing update interval |
| `ControllerSteps.StepKeepsSafe` | adaptive/controller.go:148-266 | every critical section, the answer to a write among them, every call and every timer firing keeps the invariant |
| `ControllerSteps.EveryInterleaving` | adaptive/controller.go:187-266 | in every interleaving at most one timer is armed, none while inactive, and an active controller has an armed timer or a thread that will arm one or disable |
| `ControllerSteps.SettledIff` | adaptive/controller.go:213-266 | with no thread in flight the controller is active exactly when one timer is armed |
| `ControllerSteps.ThreadsFinish` | adaptive/controller.go:213-266 | without new calls the threads in flight take a bounded number of steps, in any order |
| `ControllerSteps.CallEffect` | adaptive/controller.go:148-335 | what each call leaves behind when nothing overlaps it, and when its answer fails |
| `ControllerSteps.CountMatchesActive` | adaptive/controller.go:203-261 | in every run of calls that do not overlap the count is one exactly when active, and exactly then one timer is armed |
| `ControllerOverlap.CountRightIff` | adaptive/controller.go:187-266 | for every state and every stretch of time on a clock that does not go back: every way to run the threads to the end leaves the count one exactly when active, if and only if: inactive, no count of one is pending and the count is not one or about to be cleared; active, no count of one is pending beside another thread that may clear the transition, and unless that must happen no count of zero is pending and the count is one or about to be |
| `ControllerOverlap.AnswersFindIff` | adaptive/controller.go:148-157 | and no such run makes an answer dereference a missing transition, if and only if no thread in flight may clear it before an answer that is due |
| `ControllerOverlap.WrittenTransition` | adaptive/controller.go:171-229 | which threads may clear: within a stretch of time after it was set up, a written transition can be over exactly when it has fewer than two entries or the stretch begins before its first point or ends after its last, and can have a value exactly when it has two and the stretch meets the time between |
| `ControllerOverlap.DisableOverEnable` | adaptive/controller.go:201-261 | a disable on top of an enable that has not set its count yet violates both conditions, whatever the state before and the time |
| `ControllerOverlap.SettledIsSafe` | adaptive/controller.go:187-266 | between calls that do not overlap both conditions hold |
| `ControllerObject.EnablingWrite` | adaptive/controller.go:139-157 | a write with the flag one and a curve leaves the described transition active, with one timer of its interval and the count one, and reports it, exactly when its first tick is on the curve, and otherwise dereferences nil, which is when the interleaved system fails too |
| `ControllerObject.DisablingWrite` | adaptive/controller.go:140-147 | every other update, with another flag or without entries, leaves no transition, no armed timer and the count zero, and is answered so |
| `ControllerObject.OtherWrites` | adaptive/controller.go:120-169 | a write without an update changes nothing: undecodable ones are rejected, a read is answered exactly while a transition is active |
| `ControllerObject.PromptWriteSucceeds` | adaptive/controller.go:148-157 | with the tick at once this means two or more entries, the first at offset zero |
| `ControllerObject.StatusTime` | adaptive/controller.go:270-282 | the status reports the time since the transition was set up, zero if the clock went back |
| `ControllerObject.ReadAfterWrite` | adaptive/controller.go:160-166 | a read after a successful write returns its parameters, entries, limits and intervals and changes nothing, whenever its entries survive the conversion to float64 and back |
| `ControllerObject.ScheduleEnds` | adaptive/controller.go:213-247 | with ticks at least one interval apart the controller is inactive once they exceed the curve |
| `ControllerObject.Controller.Tick` | adaptive/controller.go:213-247 | applies the limited value of the schedule and rearms, or disables, as the transition system does alone |
| `ControllerObject.Controller.Disable` | adaptive/controller.go:250-266 | clears timer, transition and count |
| `ControllerObject.Controller.Enable` | adaptive/controller.go:171-209 | replaces the transition, sets the count and ticks |
| `ControllerObject.Controller.Restore` | adaptive/controller.go:321-335 | resumes a saved transition in the same way; nothing saved is no error, malformed data is one, and both change nothing |
| `ControllerObject.Controller.HandleBrightnessChanged` | adaptive/controller.go:297-301 | ticks when active and does nothing otherwise |
| `ControllerObject.Controller.HandleControlWrite` | adaptive/controller.go:120-169 | the branches of a control write: state and answer |
| `PairingStore.KeysApart` | fs.go:221-228 | pairing keys are injective in the name, untouched by the file store's renaming, and never a key of other data |
| `PairingStore.KeySpells` | fs.go:221-228 | a key is the lower-case hexadecimal form of the name and the suffix |
| `PairingStore.SaveRefines` | fs.go:162-169 | saving refines a map update and keeps every other key |
| `PairingStore.DeleteRefines` | fs.go:172-174 | deleting refines removal from the map |
| `PairingStore.LookupRefines` | fs.go:157-159 | reading a pairing refines a map lookup |
| `PairingStore.ListRefines` | fs.go:177-188 | listing gives exactly the values of the map |
| `PairingStore.DeleteAllLeaves` | server.go:470-475 | deleting all pairings leaves exactly those whose name is not valid UTF-8, so none if and only if all names are valid |
| `PairingStore.Storer.SavePairing` | fs.go:162-169 | updates the map, leaving the other data of the store alone |
| `PairingStore.Storer.DeletePairing` | fs.go:172-174 | removes one name, leaving the other data alone; only the file store reports that there was nothing to delete |
| `PairingStore.Storer.PairingNamed` | fs.go:157-159 | finds the pairing of a name, if there is one |
| `PairingStore.Storer.Pairings` | fs.go:177-188 | the loop over the keys lists all pairings and nothing else |
| `PairingStore.Storer.IsPaired` | server.go:189-191 | whether any pairing is stored |
| `PairingStore.Storer.DeleteAllPairings` | server.go:470-475 | the loop deletes by the names inside the records |
| `PairingStore.Storer.PairedWithAdmin` | server.go:477-485 | whether some stored pairing is an admin |
| `Characteristic.PanicIff` | characteristic/c.go:140-199 | a write panics exactly when its sender may write and the format is uint64, or its handler is called and panics; it then stores nothing |
| `Characteristic.StoredIs` | characteristic/c.go:150-189 | what a successful write stores: the nearest number within the bounds, the converted bool, or the value itself |
| `Characteristic.ReplyIs` | characteristic/c.go:140-199 | the answer to a write that no handler takes: -70404, -70410 or zero, with the exact condition of each |
| `Characteristic.HandlerReplies` | characteristic/c.go:176-199 | a handler is asked exactly where the value would have been stored, and its code decides; it can replace the reply but not the stored value |
| `Characteristic.LimitedIff` | characteristic/c.go:361-383 | limiting lands within the bounds for every value exactly when they are not inverted |
| `Characteristic.ReplyMatchesIff` | characteristic/c.go:150-199 | where no handler answers, the reply equals the stored value exactly when the written one was within the bounds |
| `Characteristic.NotifiedIsSound` | characteristic/c.go:150-199 | every stored change is within bounds and in the valid set, whatever was there before |
| `Characteristic.StaysSound` | characteristic/c.go:140-199 | over any run of local and remote writes, whatever the handler answers to each, the value stays within bounds and in the valid set |
| `Characteristic.ChainExtends` | characteristic/c.go:187-196 | one more change extends an unbroken chain |
| `Characteristic.C.OnCValueUpdate` | characteristic/c.go:132-136 | a new listener starts its chain at the current value |
| `Characteristic.C.SetValueRequest` | characteristic/c.go:140-199 | the write as it runs; each listener's changes form an unbroken chain from its registration to the stored value |
| `AccessoryModel.FreshNumbering` | server.go:281-302 | ids that all start at zero become 1..N in traversal order, all distinct |
| `AccessoryModel.MissingInOrder` | server.go:281-302 | set ids stay, the first missing one becomes 1 and each later one the successor of the one before it |
| `AccessoryModel.AppendKeepsIds` | server.go:281-302 | appending services leaves the earlier ids as they were |
| `AccessoryModel.AddAgainIff` | server.go:281-306 | a numbered accessory can be added again, with anything appended, exactly when the completed ids of the old objects and, counted from one again, of the new ones are distinct and have none in common; if every old id was missing at first, the new ones must be set, distinct and beyond the old |
| `AccessoryModel.NumberServices` | server.go:281-325 | numbering succeeds exactly when no object occurs twice and the completed ids are distinct |
| `AccessoryModel.Add` | server.go:269-326 | every id that is set stays, and on success every accessory has a name, an id, and distinct ids for all its objects; for accessories that share no object it succeeds exactly when each has a name and can be numbered, and completes all ids |
| `AccessoryModel.FindC` | characteristics.go:260-278 | the three loops find the first characteristic with the ids |
| `AccessoryModel.FindsOwn` | characteristics.go:260-278 | with distinct ids each characteristic is found by its own pair and the pair of a service finds nothing |
| `ServerSessions.OpenOrigin` | pair-verify.go:124-195 | in every run an established session was installed by a final pair-verify message that consumed the handshake of its own address and was genuine for the stored pairing |
| `ServerSessions.HandshakeOpensIff` | pair-verify.go:59-195 | a handshake establishes a session exactly when its final message is genuine for a stored pairing, and touches nothing else |
| `ServerSessions.TooShortCloses` | pair-verify.go:124-150 | a final message too short for a tag costs its sender the connection exactly when the handshake has come that far |
| `ServerSessions.DeleteRevokes` | pairings.go:97-147 | after a delete, whatever the names, no live connection has a session of a name that the delete removed |
| `ServerSessions.SessionsBacked` | pairings.go:47-147 | in every run over valid names an established session on a live connection names a stored pairing |
| `ServerSessions.SessionsBackedIff` | pairings.go:47-147 | this holds for all runs over a kind of names exactly when none of them is mangled |
| `ServerAdmin.AfterDelete` | pairings.go:113-147 | what a delete leaves, whatever the names and in either store: the name in the record is gone, every other valid name too if no admin is left, and exactly the right connections are closed |
| `ServerAdmin.DeleteEffect` | pairings.go:88-147 | a delete request does this exactly when its sender is an admin and the pairing exists, and else nothing |
| `ServerAdmin.AddEffect` | pairings.go:48-86 | an add request stores the pairing, or a known one's new permission, exactly when its sender is an admin and the public key is not another one |
| `ServerAdmin.SetupPairsFirstAdmin` | pair-setup.go:33-260 | pair-setup starts exactly while nothing is stored and nobody else has a session, and pairs an admin exactly then and when it was started |
| `ServerAdmin.DeletedIff` | pairings.go:88-112 | a deleted pairing is gone if and only if its name is valid UTF-8 |
| `ServerAdmin.AddThenDelete` | pairings.go:51-112 | in every state an admin who adds a new name and deletes it again finds it gone if and only if it is valid UTF-8 |
| `ServerAdmin.DeletedButStored` | pairings.go:51-112 | a run from an empty store in which a deleted pairing is still stored |
| `ServerAdmin.AfterDeleteIff` | server.go:470-485 | over mangled names, with either store, the store is empty or has an admin exactly when an admin or only valid names remain |
| `ServerAdmin.StepKeepsAdmin` | pairings.go:47-134 | whatever the names, a step keeps the store empty or with an admin exactly when it is not one of two requests: an add without the permission while no other record has it, or a delete of the last admin that leaves invalid names |
| `ServerAdmin.AdminKept` | server.go:477-485 | in every run without such a request the store is always empty or has an admin |
| `ServerAdmin.OnlyDemotionLoses` | server.go:477-485 | over valid names, with backed sessions, the only such request takes the permission from the last admin |
| `ServerAdmin.StoreChanges` | pairings.go:47-134 | in every run the pairings change only by pair-setup on an empty store, or by an add or delete of an address verified as an admin by a genuine handshake of its own; over valid names that admin's pairing is still stored |
| `ServerWrites.PutChanges` | characteristics.go:158-245 | a request changes a value only through an entry that may be written now and that names the characteristic, or whose handler or listeners write it locally |
| `ServerStores.LocalStores` | characteristic/c.go:140-199 | a write of the application stores the limited value exactly when it is valid, and else nothing |
| `ServerStores.LocalsInOrder` | characteristics.go:158-245 | what handlers and listeners write is like writes of the application one after the other, up to the first that panics |
| `ServerStores.EntryPerformed` | characteristics.go:176-216 | a permitted entry, of any characteristic, leaves what the same writes of the application would, its own value between those of its handler and those of its listeners; a panic costs the connection, else the prepare is spent |
| `ServerStores.EntryStores` | characteristics.go:214-216 | a permitted entry that is notified leaves its value in the state unless a listener writes there, and one that is not leaves the old one unless the handler does |
| `ServerStores.EntrySkipped` | characteristics.go:184-213 | an unknown characteristic, a missing value, a passed deadline or another transaction changes nothing, a missing prepare costs the connection |
| `ServerStores.RequestInOrder` | characteristics.go:173-247 | each entry finds what those before it left and the same prepare, and is not reached behind a panic |
| `ServerStores.AcceptedOutcome` | characteristic/c.go:140-199 | whether an entry is accepted does not depend on the old value, and then the limited value is there afterwards |
| `ServerStores.LastAcceptedStays` | characteristics.go:158-247 | when a request completes, a characteristic that its handlers and listeners leave alone holds the value of the last entry accepted for it, or its old value if none was, timed or not |
| `ServerTimed.UnpreparedAborts` | characteristics.go:197-198 | without a prepare the first such entry aborts the request: what came before stays, it and the rest are not written |
| `ServerTimed.DeadlineIs` | server.go:175-180 | the deadline is the time to live in milliseconds after the prepare, the product wrapping as an int64 beyond 292 years |
| `ServerTimed.PreparedWrite` | characteristics.go:197-245 | a prepared write stores its value up to the deadline, `ttl` milliseconds after the prepare, and with the right transaction, and else changes nothing; the prepare is spent either way unless the write panics and the connection is lost |
| `ServerTimed.TimedWriteAuthorised` | characteristics.go:176-245 | in every run an entry for a timed-write characteristic is let through only after a prepare of the same address and transaction that nothing has reset and within its milliseconds |
| `ServerTimed.TimedValueChanges` | characteristics.go:176-245 | in every run the value of such a characteristic changes only by a local write, of the application or during a permitted entry, or through an entry that names it and is let through |
| `ServerTimed.PrepareUsedOnce` | server.go:175-186 | entries let through in a completed and in a later request of an address rely on different prepares, the second made after the first request |
| `ServerValues.ValuesStaySound` | characteristics.go:158-245 | over every run of the server, with all local writes and handlers, all values stay within their bounds and valid sets |
| `ServerValues.ValueChanges` | characteristics.go:158-245 | in every run a value changes only by a local write of the application, or by a request with a permitted entry that names it or makes a handler or listener write it, for a pairing proved by a genuine handshake of the same address; over valid names that pairing is still stored |
| `ServerObject.Server.ConnStateClosed` | server.go:381-389 | a closed connection loses its session |
| `ServerObject.Server.CloseConnectionsOf` | pairings.go:136-147 | the loop closes exactly the live connections with a session of the name |
| `ServerObject.Server.PairSetupM1` | pair-setup.go:110-118 | starts pair-setup unless refused |
| `ServerObject.Server.PairSetupM5` | pair-setup.go:164-260 | stores the admin pairing of a finished pair-setup; a message that does not decrypt, parse or verify changes nothing, one too short for a tag loses the connection |
| `ServerObject.Server.PairVerifyM1` | pair-verify.go:59-122 | starts a handshake, replacing whatever session the address had |
| `ServerObject.Server.PairVerifyM3` | pair-verify.go:124-195 | consumes the handshake, checks the stored pairing and installs the session; a bad message changes nothing, one too short for a tag loses the connection |
| `ServerObject.Server.AddPairingRequest` | pairings.go:48-86 | adds or updates a pairing as the step says |
| `ServerObject.Server.DeletePairingRequest` | pairings.go:88-147 | deletes, cascades when no admin is left, and closes connections as the step says, or stops where the file store has nothing to delete |
| `ServerObject.Server.PrepareCharacteristics` | characteristics.go:280-298 | replaces the outstanding prepare of the session |
| `ServerObject.Server.PutCharacteristics` | characteristics.go:158-245 | writes entry by entry as `ServerStores.RequestInOrder` and `ServerStores.LastAcceptedStays` say, aborts where the source panics, and otherwise spends the prepare |
| `ServerObject.Server.Write` | characteristics.go:214-216 | one entry as `ServerStores.EntryPerformed` says: the handler's own writes, the value, then the listeners' writes, up to the first panic |
| `ServerObject.Server.SetValue` | characteristic/c.go:140-199 | a local write of the application |

## Left out

- Cryptographic primitives and key agreement (`chacha20poly1305`, `ed25519`, `curve25519`, `hkdf`, SRP) and the message exchange of pair-setup: uninterpreted functions; the check of the final pair-verify message is one predicate.
- `conn.go`, `listener.go`, `chunked_writer.go`, HTTP routing, dnssd, logging, notifications and JSON responses: input and output; `Decrypt` reads a plain byte stream.
- Response bodies and status codes of the server's handlers, event subscriptions and value reads: they do not change what the theorems are about.
- Reflection, struct tags and the `xiam/to` conversions: schemas and conversion functions instead; a nil and an empty byte slice are one value, structs are decoded from zero, and the inline tag is always a list.
- `slicePayload` (tlv8/encoder.go:130-149): it writes no delimiters, so it has no reader in this codec.
- Tlv8Exact.ExactRoundTrip: leaves out tags that a level uses twice and inline elements of several fields, because only the first item after a delimiter opens a new bucket.
- Tlv8Termination.OptionalElementsDiverge: is exact for each reader and elements of optional scalars; for every other element Tlv8Divergence.DivergesIff is exact for each schema, not for each input.
- Bit patterns of floats and rounding of float64 arithmetic: float32 is four opaque bytes in the codec, and curves are computed over real numbers. What int() makes of the division by zero is left undefined.
- Curve.Evaluate: computes over real numbers, where the source rounds to float64.
- Curve.ScheduleReads: holds over real numbers; float64 rounding is not modelled.
- Curve.BetweenKnots: holds over real numbers; float64 rounding is not modelled.
- Curve.MonotoneInTime: holds over real numbers; float64 rounding is not modelled.
- Curve.AnyWindowAgrees: holds over real numbers; float64 rounding is not modelled.
- Curve.PiecewiseLinear: holds over real numbers; float64 rounding is not modelled.
- Curve.DimmingWarmsIff: holds over real numbers; float64 rounding is not modelled.
- Overflow of the sums of times on a curve: a configuration from the wire would need more than 2^31 entries for it. Negative times can only come from a saved transition.
- Concurrency outside the Adaptive Lighting controller: each request is one atomic step, with the local writes of its handlers inside it; frames of one session are written in order.
- In the interleaved controller the value handed to the lamp is no state; it is the result of `Controller.Tick`. `OnStateChange` callbacks, the JSON form of a saved transition and the constant supported configuration are not modelled.
- What follows the nil dereference of a control write: the controller's mutex stays held.
- Characteristic.C.SetValueRequest: the handler is an answer given with the request and listeners only record; what both write to characteristics is in `ServerSteps.Item`, as lists of local writes after which no further listener is called.
- Assignments to the exported value field of a characteristic, which bypass its bounds, and values that are JSON arrays or objects.
- Read and write errors of the file store other than deleting what is not there. Migration from older stores, `configHash` and the version counter are data handling.
- The server's handlers find a characteristic in a map by its pair of ids; that the search through the accessories is such a map is AccessoryModel.FindsOwn.
- Generated services, characteristics and accessories under `service/`, `characteristic/`, `accessory/` and `gen/`.
