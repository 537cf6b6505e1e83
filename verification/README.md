# Buffered transcoding in qubit-codec

A Dafny model of the buffered transcode core of qubit-codec: the converter that pulls one value at a time out of a
partly visible source and pushes it into a bounded output window, the decode and encode engines below it, their cursor
state, pending-value slot, lifecycle guard, progress contract and output bounds, and the code built around them (batch
input, asynchronous encode output, owned single values, codec registry, codec IDs).

`dafny verify dfyconfig.toml` checks everything.

## How it is put together

* `Codecs` holds codecs and policy hooks as records of functions over a state, with the contract each has to keep.
  Everything else is proved for every record that keeps it. `SourceConforms`, `TargetConforms`, `ProtocolConforms` and
  `VariableConforms` show that the concrete codecs of the fuzz targets and benchmarks do.
* `Streaming` is one theory of resumable streaming: a machine with a `step` (what a call can do with a visible prefix and
  some output room) and an `ideal` (what it would do with everything). A machine whose steps either stop or agree with
  `ideal` is `Faithful`, and no driver can observe how a faithful machine's input and output were cut. `Decoding`,
  `Encoding` and `Converting` give the three instances, `Schedules` what follows for each engine, and `CallBounds` when
  the decode engine needs no more calls than the converter.
* `DecodeEngines`, `EncodeEngines` and `ConvertEngines` are the engines as classes: mutable codec and hook state, guard,
  slot, cursors, output arrays, and the loops of the source. Each method is proved to do exactly what `Streaming.Call` or
  the outcome functions of `Lifecycles` say, on every path including failures.
* `PartitionDriver`, `PairFuzz` and `DecodeFuzz` are the drivers, codecs and oracles of the two fuzz targets; their
  assertions are theorems here, for every payload and schedule.
* `Policies`, `Stops` and `StreamEnds` tie the specification functions to the fields of codecs and hooks: what each
  decision of a codec or policy does to the stream, when a call may stop, and what happens at the ends of a stream.
* `Fusion`, `EarlyFinish`, `Capacity`, `Conservation`, `RoundTrip` and `Restart` hold the laws that span operations.
* `DecodeInput`, `EncodeOutput`, `OwnedValues`, `Registry` and `CodecIds` are the parts around the core.

Method bodies use `hide` to keep definitions out of proofs that do not need them.

### Assumed of codecs and hooks

These come from the trait documentation (src/codec/codec/codec.rs:37-51, 261-273, 362-376, 488-504) and are the fields of
`ConformsDecode` and `ConformsEncode`:

* `decode` on a visible prefix of at least the minimum width is either incomplete, asking for more than it saw and no more
  than the maximum width, or agrees with `decode_eof` on the whole rest of the stream. A failed decode has no next state
  at all.
* `encode` writes exactly `encode_len` units, never more than the declared maximum.
* Hook decisions depend on hook and codec state, the error and the value. Spans to skip or replace stay within the
  available input, replacements are encodable, stream-end output stays within its bounds, and an overridden encode bound
  is at least the number of values times the maximum width.
* The one-shot theorems for decoding and converting also need the decode bound to cover `Capacity.Demand`; that is proved
  for the default bound and for the strict one.

## Model

| member | source | states |
|---|---|---|
| Streaming.CallFollowsOracle | src/transcode/engine/transcode_convert_engine.rs:856-897 | One call on any visible prefix, with any output room, is a piece of the run over the whole payload: what it wrote and what remains add up to the oracle's outcome, failures are the oracle's own, and each stop reason tells the truth |
| Streaming.AnsweredStopPays | src/transcode/engine/transcode_convert_engine.rs:1099-1121 | A call that gets the room an output stop asked for settles a value or consumes input; one value causes at most one output stop |
| Streaming.ScheduleIndependence | fuzz/fuzz_targets/transcode_convert_engine_partition.rs:375-448 | From any state a driver can be in, every adaptive strategy ends within the call bound as the oracle does: with its output and final state, or with its error, state and output. Windows and the growth of the visible prefix are the strategy's choice in every turn, and units may arrive and end of input be announced while output is being drained |
| Schedules.ConvertScheduleFree | fuzz/fuzz_targets/transcode_convert_engine_partition.rs:375-448 | Conversion under every schedule ends within `2n + 2` calls with the same output and final states, so every hook has decided equally often, or with the same error at the same source position, even when the rejected value had been retained across calls |
| Schedules.DecodeScheduleFree | fuzz/fuzz_targets/transcode_decode_engine.rs:207-255 | The same for the decode engine, within `3n + 2` calls, a bound that is attained |
| Schedules.EncodeScheduleFree | src/transcode/engine/transcode_encode_engine.rs:396-418 | The same for the encode engine, within `2n + 2` calls |
| CallBounds.DecodeMeetsConverterBound | src/transcode/engine/transcode_decode_engine.rs:880-918 | The decode engine stays within the converter's `2n + 2` calls, for every conforming codec and policy, payload and state, under every driver that never offers an empty window, and under every driver at all when the codec never starves with its minimum width in view, as one of fixed width does |
| CallBounds.BoundHoldsExactlyWhen | src/transcode/engine/transcode_decode_engine.rs:880-918 | All runs of all conforming codecs with given minimum and maximum widths, under all drivers with windows of at least `w`, stay within `2n + 2` calls if and only if `w` is positive or the two widths are equal |
| CallBounds.GreedyExceeds | src/transcode/engine/transcode_decode_engine.rs:880-918 | For any two different widths, a codec, a payload and a driver that exceed the bound: each unit costs three calls |
| Decoding.EventIsFinal | src/transcode/engine/transcode_decode_engine.rs:754-837 | More visible input can turn a starved decode attempt into an event, never one event into another; a starved attempt asks for more than is there and never happens at end of input |
| Decoding.DecodeFaithful | src/transcode/engine/transcode_decode_engine.rs:866-921 | The decode loop keeps the streaming contract for every conforming codec and policy |
| Decoding.DecodeFillsOutput | src/transcode/engine/transcode_decode_engine.rs:880-918 | A decode call stops for output only when all of its window is written and the minimum width, or everything there will be, is in view; it asks for exactly one slot, and can fail only while a slot is left |
| Stops.DecodeStopsAreDue | src/transcode/engine/transcode_decode_engine.rs:880-918 | A decode call never stops early: for input only in front of a value the units in view do not decide, asking for what the codec asks, and for output only in front of units it could look at, with every slot written |
| Stops.StarvesExactlyWhenUndecided | src/transcode/engine/transcode_decode_engine.rs:772-800 | A decode attempt is starved if and only if the stream is open and the units in view are fewer than the minimum, or the codec finds them incomplete, and asks for exactly what is missing |
| Policies.DecodedValueGoesOn | src/transcode/engine/transcode_decode_engine.rs:754-837 | A decoded value is delivered and decoding goes on behind exactly the units the codec took, in the state it left |
| Policies.InvalidIsSettled | src/transcode/engine/transcode_decode_engine.rs:945-964 | For every conforming codec and policy: skipping and replacing invalid units take exactly as many as the policy says and go on in its state, rejecting reports the codec's error and span at this position, a refusal passes through |
| Policies.TailIsSettled | src/transcode/engine/transcode_decode_engine.rs:984-1019 | For every conforming codec and policy: skipping and replacing an incomplete tail take all that is left and end the stream, rejecting reports the codec's error or else the missing units, a refusal passes through |
| Encoding.RoomOnlyDelays | src/transcode/engine/transcode_encode_engine.rs:549-571 | Output room decides only when a value is encoded, never how; a blocked attempt asks for at most the maximum width and consults no hook, and the shortage branch behind a replacement cannot be reached |
| Stops.BlocksExactlyWhenShort | src/transcode/engine/transcode_encode_engine.rs:549-618 | An encode attempt is blocked if and only if fewer slots are free than the value needs, its exact width when the codec accepts it and the maximum width otherwise, and asks for exactly those |
| Stops.EncodeStopsAreDue | src/transcode/engine/transcode_encode_engine.rs:396-418 | An encode call stops only in front of a value that does not fit, asking for exactly what it needs |
| Policies.EncodableIsWritten | src/transcode/engine/transcode_encode_engine.rs:593-618 | An accepted value is written as the codec writes it and encoding goes on in its state; its failure is reported at the value's position |
| Policies.UnencodableIsSettled | src/transcode/engine/transcode_encode_engine.rs:642-712 | An unencodable value is skipped, replaced by the encoding of the replacement, rejected at its position or refused, each in the state the policy left |
| Encoding.EncodeFaithful | src/transcode/engine/transcode_encode_engine.rs:396-418 | The encode loop keeps the streaming contract for every conforming codec and policy |
| Converting.ConvertFaithful | src/transcode/engine/transcode_convert_engine.rs:974-1018 | The conversion loop with its retained value keeps the streaming contract for every conforming pair of sides |
| Stops.ConvertStopsAreDue | src/transcode/engine/transcode_convert_engine.rs:856-897 | A conversion call stops for output only with a retained value that does not fit, asking for exactly what it needs, and for input only with an empty slot in front of an undecided value |
| ConvertEngines.ConvertEngine.EncodePending | src/transcode/engine/transcode_convert_engine.rs:1099-1121 | One attempt on a taken value: encoded, rejected with the value attached, or put back into a slot that is empty, with codec, hooks and output untouched |
| ConvertEngines.ConvertEngine.DrainPending | src/transcode/engine/transcode_convert_engine.rs:1010-1018 | A retained value goes first; an empty slot changes nothing |
| ConvertEngines.ConvertEngine.ConvertNext | src/transcode/engine/transcode_convert_engine.rs:974-992 | Decodes one event and encodes its value at once, staying on the call's track and always consuming input |
| ConvertEngines.ConvertEngine.Run | src/transcode/engine/transcode_convert_engine.rs:870-897 | The loop of one conversion call does exactly what the machine's call says: progress, output array, both states and the slot |
| ConvertEngines.ConvertEngine.Transcode | src/transcode/engine/transcode_convert_engine.rs:856-897 | Refused by guard or indices with nothing but the guard touched, or exactly the machine's call; successful progress is valid for the call's bounds and never asks for input at end of input |
| ConvertEngines.ConvertEngine.EncodeValues | src/transcode/engine/transcode_convert_engine.rs:939-951 | Stream-end values of the source are encoded in order within their reserved room; the reserve assertion cannot fire |
| ConvertEngines.ConvertEngine.DrainDecoderReset | src/transcode/engine/transcode_convert_engine.rs:922-953 | Source reset runs in every case and its values go to the target |
| ConvertEngines.ConvertEngine.DrainDecoderFinish | src/transcode/engine/transcode_convert_engine.rs:1043-1078 | Source finish runs in every case, its guard never refuses, and its values go to the target |
| ConvertEngines.ConvertEngine.Reset | src/transcode/engine/transcode_convert_engine.rs:594-616 | A failed preflight changes no phase, slot, codec, hook or output; otherwise target reset, then source reset values, from any earlier state, and the outer guard is Fresh or Poisoned with the inner ones following it |
| ConvertEngines.ConvertEngine.Finish | src/transcode/engine/transcode_convert_engine.rs:739-768 | A failed preflight changes nothing; otherwise retained value, source finish values and target trailer in that order, within the reserved room, and an inner guard never refuses |
| EarlyFinish.FinishSettlesRetained | src/transcode/engine/transcode_convert_engine.rs:750-768 | Finishing from any state is finishing what the main phase leaves behind at the end of the payload: a retained value is delivered first, or rejected at its own position |
| EarlyFinish.EveryReadStateFinishes | src/transcode/engine/transcode_convert_engine.rs:739-768 | In every state any driver reaches, once all input has been read, finishing gives the complete converted stream, also while a value waits for output |
| EarlyFinish.FinishAfterOneCall | src/transcode/engine/transcode_convert_engine.rs:739-768 | The same on a real engine: reset, one call into a window of any size, and finish as soon as that call has read everything |
| ConvertEngines.ConvertEngine.StepKeepsTrack | src/transcode/engine/transcode_convert_engine.rs:878-894 | One machine step keeps a half-done call equal to the whole call |
| ConvertEngines.ConvertEngine.MainPhaseFits | src/transcode/engine/transcode_convert_engine.rs:479-484 | With the advertised main-phase bound as room a conversion at end of input runs to completion and retains nothing |
| ConvertEngines.ConvertEngine.BoundsInClosedForm | src/transcode/engine/transcode_convert_engine.rs:479-563 | Reset, main-phase and finish bounds in closed form, overflow included, when the target reserves its widest encoding for each value |
| ConvertEngines.ConvertEngine.TotalParts | src/transcode/engine/transcode_convert_engine.rs:558-563 | The total bound is the sum of the three, whenever they and the sum are in range |
| ConvertEngines.ConvertEngine.TranscodeCompleteInto | src/transcode/transcoder.rs:730-775 | One-shot conversion into an output as long as the total bound is the converted stream or its rejection; it never runs out of output, and a failed preflight changes nothing |
| DecodeEngines.DecodeEngine.AttemptOne | src/transcode/engine/transcode_decode_engine.rs:754-837 | One decode attempt with its policy reaction: the event, the state behind it, and a read within the available input |
| DecodeEngines.DecodeEngine.SettleTail | src/transcode/engine/transcode_decode_engine.rs:984-1019 | An incomplete tail is rejected, skipped or replaced whole, as the policy decides |
| DecodeEngines.DecodeEngine.Turn | src/transcode/engine/transcode_decode_engine.rs:880-918 | One turn of the loop: short input first, then a full window, and only then the codec; each stop leaves state, cursors and output alone |
| DecodeEngines.DecodeEngine.Run | src/transcode/engine/transcode_decode_engine.rs:878-921 | The decode loop does exactly what the machine's call says |
| DecodeEngines.DecodeEngine.Transcode | src/transcode/engine/transcode_decode_engine.rs:866-921 | Refusals touch neither state nor output; otherwise the machine's call, with valid progress and no input stop at end of input |
| DecodeEngines.DecodeEngine.Reset | src/transcode/engine/transcode_decode_engine.rs:528-542 | A failed preflight changes nothing; hooks reset before the codec; Fresh on success, Poisoned on failure |
| StreamEnds.DecodeResetStartsFromHooks | src/transcode/engine/transcode_decode_engine.rs:528-542 | The codec starts the new stream in the state the hooks' reset leaves behind; its values or its error are the outcome |
| DecodeEngines.DecodeEngine.Finish | src/transcode/engine/transcode_decode_engine.rs:660-683 | A failed preflight changes nothing; the codec finishes before its hooks, whose output follows |
| StreamEnds.DecodeFinishRunsCodecFirst | src/transcode/engine/transcode_decode_engine.rs:660-683 | The hooks finish in the state the codec's finish leaves behind, their values follow the codec's, and the codec's are not taken back when they fail |
| DecodeEngines.DecodeEngine.TranscodeCompleteInto | src/transcode/engine/transcode_decode_engine.rs:713-719 | One-shot decoding into an output as long as the total bound is the decoded stream or its rejection |
| EncodeEngines.EncodeEngine.AttemptOne | src/transcode/engine/transcode_encode_engine.rs:549-571 | At most one value and one policy decision; a blocked attempt leaves state and output as they were; a replacement is never blocked |
| EncodeEngines.EncodeEngine.EncodeAccepted | src/transcode/engine/transcode_encode_engine.rs:593-618 | An encodable value is written at its exact width, or not at all when the room is short |
| EncodeEngines.EncodeEngine.Transcode | src/transcode/engine/transcode_encode_engine.rs:396-418 | Refusals touch neither state nor output; otherwise the machine's call, with valid progress that never asks for input |
| EncodeEngines.EncodeEngine.EofIsIgnored | src/transcode/engine/transcode_encode_engine.rs:396-418 | End of input makes no difference to an encode call |
| EncodeEngines.EncodeEngine.TranscodeEof | src/transcode/transcoder.rs:523-546 | The default end-of-input wrapper over the encode engine: indices are checked before the guard, and its contract and incomplete-input branches are dead |
| EncodeEngines.EncodeEngine.Reset | src/transcode/engine/transcode_encode_engine.rs:347-361 | A failed preflight changes nothing; hooks reset before the codec |
| StreamEnds.EncodeResetStartsFromHooks | src/transcode/engine/transcode_encode_engine.rs:347-361 | The same for encoding |
| EncodeEngines.EncodeEngine.Finish | src/transcode/engine/transcode_encode_engine.rs:455-482 | A failed preflight changes nothing; the codec's trailer, then the hooks' |
| StreamEnds.EncodeFinishRunsCodecFirst | src/transcode/engine/transcode_encode_engine.rs:455-482 | The same for encoding |
| EncodeEngines.EncodeEngine.TranscodeCompleteInto | src/transcode/engine/transcode_encode_engine.rs:512-518 | One-shot encoding into an output as long as the total bound is the encoded stream or its rejection |
| Lifecycle.LifecycleGuard.OnTranscode | src/transcode/internal/lifecycle_guard.rs:84-101 | Each refusing phase with its own failure, the phases that let a transcode through, and that a refusal keeps the phase |
| Lifecycle.LifecycleGuard.OnFinishAttempt | src/transcode/internal/lifecycle_guard.rs:121-135 | Each refusing phase with its own failure, and the phases that let a finish through |
| Progress.ValidateIffHonest | src/transcode/transcode_progress.rs:213-276 | For indices of real slices the validator accepts exactly the honest reports, and its overflow branches cannot be reached |
| Progress.CompleteProgressWritten | src/transcode/transcoder.rs:39-64 | A one-shot caller gets the written count exactly when the progress is complete, and otherwise the position and amount that is missing |
| Basics.Preflight | src/transcode/transcode_failure.rs:454-461 | A lifecycle operation passes exactly when the phase allows it, the bound does not overflow and the room is there; the first failing check decides |
| Fusion.MainPhaseFuses | src/transcode/engine/transcode_convert_engine.rs:974-1018 | The converter's main phase is decoding followed by encoding: same output, same final states, and on failure the error of whichever side fails first |
| Fusion.ConversionFuses | src/transcode/engine/transcode_convert_engine.rs:594-616 | One-shot conversion succeeds exactly when one-shot decoding succeeds and one-shot encoding of what it decoded succeeds, and then both outputs and final states are equal; source reset values follow the target's reset, source finish values precede its finish |
| Fusion.ConversionFusesCompletely | src/transcode/engine/transcode_convert_engine.rs:594-616 | Failures included: output, error and final states of a conversion are those of encoding everything the source produces, the target's reset first, the source's failure only behind everything encodable before it, the target's finish last |
| Fusion.SourceTrailIsStream | src/transcode/engine/transcode_convert_engine.rs:922-953 | What the source produces, located, has the values, the error and the states of the decoded stream |
| Fusion.TrailIsDecodeOracle | src/transcode/engine/transcode_decode_engine.rs:866-921 | Forgetting source positions turns the located decoding into the decode engine's own run |
| Fusion.TrailIsEncodeOracle | src/transcode/engine/transcode_encode_engine.rs:396-418 | Encoding located values one by one is the encode engine's own run |
| Capacity.DefaultBoundCovers | src/transcode/engine/transcode_decode_hooks.rs:183-185 | The default decode bound covers every slot the loop can demand, also for skipped and rejected events |
| Capacity.StrictDemand | src/transcode/engine/transcode_decode_engine.rs:880-918 | Strict decoding demands at most one slot per minimum width, a rejected shorter tail included |
| Capacity.StrictBoundCovers | src/transcode/adapter/internal/codec_transcode_decode_hooks.rs:43-45 | For codecs whose successes consume at least the minimum width, `ceil(n / MIN)` slots are enough for strict decoding of `n` units |
| Codecs.StrictDecodeBoundIsLeast | src/transcode/adapter/internal/codec_transcode_decode_hooks.rs:43-45 | The strict bound is the least number of minimum widths that covers the input |
| Capacity.DecodeNeverBlocks | src/transcode/engine/transcode_decode_engine.rs:880-918 | A decode call at end of input with the demanded slots completes |
| Capacity.EncodeNeverBlocks | src/transcode/engine/transcode_encode_hooks.rs:161-165 | An encode call with the maximum width in reserve for each value completes, also where the policy skips or rejects |
| Codecs.StrictEncodeBoundIsExact | src/transcode/engine/transcode_encode_hooks.rs:161-165 | The default encode bound is the maximum width of each value, and fails exactly when that overflows |
| Capacity.ConvertNeverBlocks | src/transcode/engine/transcode_convert_engine.rs:479-484 | A conversion call at end of input with the demanded room completes and writes no more than that |
| Conservation.CallConserves | src/transcode/engine/transcode_convert_engine.rs:974-1018 | Across one call, decoded values in order stay equal to the settled ones followed by the retained one |
| Conservation.EveryStateConserves | src/transcode/internal/pending_value_slot.rs:83-95 | The same in every state any driver reaches after any number of calls; a completed run has settled everything |
| RoundTrip.MainPhaseInverts | src/transcode/engine/transcode_decode_engine.rs:866-921 | Decoding what a strict encoder wrote gives the values back and keeps both sides in step, when each single value round-trips |
| RoundTrip.StreamInverts | src/transcode/engine/transcode_encode_engine.rs:396-418 | The same between an encoding driver and a decoding driver under two unrelated schedules |
| RoundTrip.OneShotInverts | src/transcode/transcoder.rs:730-775 | The same for complete one-shot lifecycles from any two states, when the stream ends are silent |
| RoundTrip.VariableEncodes | benches/transcode.rs:109-117 | The variable-width codec encodes every byte sequence |
| RoundTrip.VariableRoundTrips | benches/transcode.rs:95-117 | The variable-width codec decodes each of its encodings, whatever follows, to the same value and width |
| RoundTrip.VariableStreamInverts | benches/transcode.rs:85-118 | Any bytes sent through the variable-width codec under any two schedules arrive unchanged |
| Restart.CleanConvertRestart | src/transcode/engine/transcode_convert_engine.rs:594-616 | When both sides' resets reach a canonical state, a successful reset makes any used state stream like a new one |
| Restart.HooksMakeResetsCanonical | src/transcode/engine/transcode_decode_engine.rs:528-542 | Hooks whose reset maps every state to one state make the resets of their side canonical, whatever the codec does |
| Restart.CleanRestartFromHooks | src/transcode/engine/transcode_convert_engine.rs:594-616 | With such hooks on both sides, neither whether a reset succeeds nor the stream behind it depends on what happened before |
| Restart.RestartedRun | src/transcode/internal/lifecycle_guard.rs:59-67 | Two engines, one used in any way (poisoned, half-way, with a retained value) and one new, run the same payload under unrelated schedules to the same output or error |
| PartitionDriver.TurnKeepsInvariant | fuzz/fuzz_targets/transcode_convert_engine_partition.rs:393-440 | Each turn of the driver keeps the invariant that delivered output and remaining run make up the oracle, within the call bound |
| PartitionDriver.FeedPartition | fuzz/fuzz_targets/transcode_convert_engine_partition.rs:387-441 | The driver loop on a real engine, for every payload and schedule: the oracle's output in at most `2n + 2` calls, or its error after a prefix of its output; every progress validates |
| PartitionDriver.RunPartition | fuzz/fuzz_targets/transcode_convert_engine_partition.rs:375-448 | The same with reset and finish: the complete converted stream |
| PairFuzz.SourceConforms | fuzz/fuzz_targets/transcode_convert_engine_partition.rs:91-108 | The pair source with each of its policies keeps the decode contract, and its bound covers its demand |
| PairFuzz.TargetConforms | fuzz/fuzz_targets/transcode_convert_engine_partition.rs:132-169 | The variable target with each of its policies keeps the encode contract |
| PairFuzz.SemanticOracle | fuzz/fuzz_targets/transcode_convert_engine_partition.rs:248-312 | The direct model of the protocol, written without codecs or engines, agrees with the converted stream on output, rejection and the number of decisions of each hook |
| PairFuzz.RunComplete | fuzz/fuzz_targets/transcode_convert_engine_partition.rs:450-467 | The one-shot run in an output of exactly the advertised size delivers the converted stream and its decision counts |
| PairFuzz.FuzzTarget | fuzz/fuzz_targets/transcode_convert_engine_partition.rs:469-507 | Partitioned and one-shot runs both give the oracle's output with its exact decision counts, or both give its error, for every payload, policy, marker flag and schedule |
| DecodeFuzz.ProtocolConforms | fuzz/fuzz_targets/transcode_decode_engine.rs:62-84 | The protocol codec with each of its policies keeps the decode contract |
| DecodeFuzz.ReferenceOutput | fuzz/fuzz_targets/transcode_decode_engine.rs:145-175 | The reference's output, or rejection position, kind and prefix, is the decode engine's |
| DecodeFuzz.FeedDecoder | fuzz/fuzz_targets/transcode_decode_engine.rs:207-255 | The decode driver's loop: accepted payloads within `3n + 2` calls; rejected ones stop with everything before the rejection delivered |
| DecodeFuzz.DecodeFuzzTarget | fuzz/fuzz_targets/transcode_decode_engine.rs:177-294 | Every assertion of the target for every payload, policy, stride and first window |
| DecodeFuzz.DecodeExceedsConverterBound | src/transcode/engine/transcode_decode_engine.rs:880-918 | A concrete one-unit payload of the fuzz protocol that takes five calls: more than `2n + 2`, and all of the `3n + 2` |
| DecodeInput.OracleShifts | src/transcode/io/transcode_decode_input.rs:408-414 | Dropping consumed units changes no later value or state, and moves the position in the error by exactly their number, unless a hook refused with an error of its own |
| DecodeInput.CallContinues | src/transcode/io/transcode_decode_input.rs:318-333 | One decoder call on the unread units is a piece of the decoding of everything, failures included |
| DecodeInput.TranscodeDecodeInput.FillMore | src/transcode/io/transcode_decode_input.rs:1079-1085 | Fetching moves a chunk from the source to the unread units, clears the retry flag exactly then, and changes nothing when it fails or the source has ended |
| DecodeInput.TranscodeDecodeInput.FillUntil | src/transcode/io/transcode_decode_input.rs:253-263 | Fetching keeps unread units and source together in order; it falls short only when the source has ended or has failed, and clears the retry flag exactly when it fetched something |
| DecodeInput.TranscodeDecodeInput.Step | src/transcode/io/transcode_decode_input.rs:318-333 | One decoder call on the unread units, consuming exactly what it read: its values, written at its place and nowhere else, followed by the decoding of what is left are the decoding of everything; a failure consumes nothing and is the error that decoding everything ends with |
| DecodeInput.TranscodeDecodeInput.EofStep | src/transcode/io/transcode_decode_input.rs:367-396 | The same at end of input; a short result means that everything has been decoded, and the retry flag is set exactly when the output ran out |
| DecodeInput.TranscodeDecodeInput.Transcode | src/transcode/io/transcode_decode_input.rs:794-877 | A batch writes the next values of the stream inside its range and nothing outside it, consumes a prefix of what is left, and comes back short only when nothing is left; a decoder error is the one decoding everything ends with, its position counted from the first unit not consumed; a failing source leaves a state to go on from; its loop terminates |
| DecodeInput.TranscodeDecodeInput.ReadAll | fuzz/fuzz_targets/transcode_decode_input_lifecycle.rs:84-107 | Batches of any positive sizes until a short one read exactly the decoded stream, however the source is chunked, or end with its error at its position behind a prefix of its values |
| DecodeInput.TranscodeDecodeInput.ReadStream | fuzz/fuzz_targets/transcode_decode_input_lifecycle.rs:84-118 | With reset and finish around them: exactly the one-shot stream, or its error at its position behind a prefix of its values |
| OwnedValues.SingleValueStream | src/value/codec_value_lifecycle.rs:72-138 | Strict streaming of one value, step by step |
| OwnedValues.CodecValueEncoder.BoundsAgree | src/value/codec_value_lifecycle.rs:34-43 | The owned encoder reserves exactly what the streaming one-shot advertises for a single value |
| OwnedValues.CodecValueEncoder.EncodeReserved | src/value/codec_value_lifecycle.rs:72-138 | The owned encode lifecycle writes the units, or has the error and state, of the strict one-element stream; its capacity error is unreachable |
| OwnedValues.CodecValueEncoder.EncodeInto | src/value/codec_value_encoder.rs:172-198 | Appends exactly that encoding; every failure restores the destination |
| OwnedValues.FirstEvent | src/value/codec_value_lifecycle.rs:183-206 | The first event of strict streaming at end of input is the owned decoder's only one |
| OwnedValues.CodecValueDecoder.DecodeExact | src/value/codec_value_lifecycle.rs:167-218 | Too small a scratch buffer is refused untouched; otherwise exactly the stream of one value, split at its ends, or the stream's error; trailing input is reported exactly when the codec's first value leaves units over |
| OwnedValues.CodecValueDecoder.DecodeLifecycle | src/value/codec_value_decoder.rs:203-222 | The value with its reset and finish values is exactly the strict stream; with scratch at the declared bounds the capacity refusal cannot happen |
| OwnedValues.CodecValueDecoder.Decode | src/value/codec_value_decoder.rs:170-177 | For codecs without stream-end values it returns `v` exactly when the strict stream is `[v]`; others are refused untouched |
| EncodeOutput.AsyncEncodeOutput.PollTranscode | src/transcode/io/async_transcode_encode_output.rs:416-480 | A poll is pending if and only if the room behind the buffer, after what the sink took, is less than it needs: what the last output stop asked for, the bound of one value, or one slot. Then neither encoder nor unit order has changed. Otherwise it makes exactly one encoder call, which consumes at least one value or fails, and commits its units behind the earlier ones |
| EncodeOutput.AsyncEncodeOutput.CommitStep | src/transcode/io/async_transcode_encode_output.rs:450-480 | The encoder call of a ready step is the machine's, into all the spare room; its validator cannot fail, and an output stop is remembered as the room the next call needs |
| EncodeOutput.AsyncEncodeOutput.ReadyCallConsumes | src/transcode/io/async_transcode_encode_output.rs:450-480 | With the encoder's bound for one value to spare, an encode call on a non-empty input consumes something or fails |
| EncodeOutput.AsyncEncodeOutput.PollSpare | src/transcode/io/async_transcode_encode_output.rs:440-449 | The sink takes a prefix, in order; the buffer is ready exactly when the required room is spare |
| EncodeOutput.AsyncEncodeOutput.OneCall | src/transcode/io/async_transcode_encode_output.rs:450-462 | A call on part of the input is a piece of the encoding of all of it |
| EncodeOutput.AsyncEncodeOutput.PollRepeatedly | src/transcode/io/async_transcode_encode_output.rs:416-480 | Over any number of polls and any behaviour of the sink, delivered and buffered units are the encoding of exactly the consumed values; a sink that takes everything lets every poll consume something |
| Registry.Build | src/value/value_codec_registry.rs:160-186 | Fails exactly when an ID occurs twice, with the least such ID and all its sources sorted; otherwise it holds exactly the input's entries in ID order, and lookup equals linear search of the input |
| Registry.AtMostIsLexicographic | src/value/value_codec_registry.rs:161-161 | The order of IDs and sources by positions: a prefix, or smaller where the keys first differ |
| Registry.SourcesByPosition | src/value/value_codec_registry.rs:165-169 | The reported sources are those at exactly the positions of the input with this ID |
| Registry.FirstNeighbours | src/value/value_codec_registry.rs:161-180 | The first equal neighbours of the sorted entries are the least duplicated ID, and all its entries follow |
| Registry.IndexFinds | src/value/value_codec_registry.rs:181-202 | The index over distinct sorted entries answers like linear search of the unsorted input |
| Registry.OrderDoesNotMatter | src/value/value_codec_registry.rs:145-160 | Any rearrangement of the input gives the same error, or the same entries in the same order and the same answers |
| CodecIds.Validate | src/value/value_codec_id.rs:115-135 | Accepts exactly the grammar, reports the error of the left-to-right specification, and never asks for an empty segment |
| CodecIds.ValidateSegment | src/value/value_codec_id.rs:156-169 | Accepts exactly a letter followed by letters, digits and underscores |
| CodecIds.ErrorFreeIffInGrammar | src/value/value_codec_id.rs:115-169 | The left-to-right specification is error-free exactly on non-empty dot-joined sequences of segments |
| CodecIds.FirstBadPieceDecides | src/value/value_codec_id.rs:115-169 | The first piece between dots that is not a segment decides the error: empty or invalid, except that a trailing dot right behind it is noticed first |
| CodecIds.CharacterClasses | src/value/value_codec_id.rs:156-169 | Letters, word characters and the separator |

## Left out

- Hooks receive the codec mutably, so each side has one state for codec and hooks together; hooks do not see the cursor and availability fields of their context, which the contract says decisions must not depend on.
- Codecs see the units from the cursor on rather than the whole slice with an index, and a failing codec or hook writes nothing before it fails.
- Mutating codec or hooks in mid-stream (`codec_mut`, `hooks_mut`): the documentation asks for a reset or leaves the contract to the caller.
- Codecs and hooks that break their contract: the assertions guarding against them are shown not to fire for conforming ones, and that is all.
- The per-engine cursor wrappers (src/transcode/internal/decode_state.rs, encode_state.rs, convert_state.rs) are folded into `Buffers.TranscodeState` and the engines' own turns; their range assertions are proof obligations there.
- Lowering an output slice to a sub-slice: the batch driver works on a copy of the range and writes it back, and calls with a shortened input pass a copy of the prefix.
- `usize` is 64 bits wide.
- Filling the scratch buffers of the owned decoder: their sizes are checked, their contents are returned as values.
- DecodeInput.TranscodeDecodeInput.FillUntil: all failures of fetching, I/O and allocation alike, are one error.
- EncodeOutput.AsyncEncodeOutput.PollTranscode: what the sink does in a poll is a parameter, and all its failures are one error; allocating the retained buffer never fails.
- DecodeInput.OracleShifts: positions inside an error that a hook made itself are the hook's business and are not shifted.
- Other allocation failures, wakers, pinning and seeking. A source is a sequence delivered in arbitrary chunks that may fail between any two of them, a sink accepts arbitrary prefixes.
- The single-value and raw-read methods of the batch input, its checks of reset and finish ranges, the asynchronous reset, flush and finish, and the synchronous encode output.
- Registration IDs and sources are sequences of numbers compared lexicographically; the library's stable sort is an insertion sort on values, so sorting in place is not modelled.
- `debug_assert!`s about the step budget of the fuzz drivers are implied by the proved call bounds.
- Schedules.DecodeScheduleFree: the call bound is `3n + 2` rather than `2n + 2`, because the decode engine asks for an output slot before it looks at the units and may then still ask for input; CallBounds.BoundHoldsExactlyWhen says exactly when `2n + 2` is guaranteed.
- Restart.CleanConvertRestart: says nothing about resets that do not reach a canonical state; what survives such a reset is up to the codec.
- RoundTrip.StreamInverts: the encoding side is the strict policy, because a policy that skips or replaces values does not give them back.
- JSON codecs, byte-order markers, type-erased descriptors, registration macros and link-time inventories: thin wrappers without an algorithm of their own.
