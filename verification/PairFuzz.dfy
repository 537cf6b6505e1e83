/**
  * The codecs, policies and oracle of the converter's fuzz target.
  *
  * `SemanticOracle` models the protocol directly, without any codec or engine.  `FuzzTarget` proves what the fuzz
  * target samples: for every payload, policy, marker flag and schedule, the partitioned run and the one-shot run both
  * give the oracle's output, or its error, and consult each hook exactly as often.
  */
module PairFuzz {
  import opened Basics
  import opened Codecs
  import opened Streaming
  import opened Decoding
  import opened Encoding
  import opened Converting
  import opened Lifecycles
  import opened Capacity
  import opened Fusion
  import opened Buffers
  import opened PartitionDriver
  import ConvertEngines

  datatype DecodeMode = RejectUnits | SkipUnits | EmitSubstitute

  datatype EncodeMode = RejectUnencodable | SkipUnencodable | ReplaceUnencodable

  datatype PairError = InvalidToken

  /** The state of either side is the number of hook decisions made so far. */
  type Decisions = nat

  // ---------------------------------------------------------------------------------------------------------
  // PairSource with its policy
  // ---------------------------------------------------------------------------------------------------------

  /** Two units add up, wrapping; a leading 0xff is invalid alone. */
  function PairDecode(s: Decisions, units: seq<byte>): DecodeResult<Decisions, byte, PairError> {
    if |units| < 2 then Incomplete(None, 2)
    else if units[0] == 0xff then Invalid(InvalidToken, Some(1))
    else Decoded(WrappingAdd(units[0], units[1]), 2, s)
  }

  function PairSource(): DecodeCodec<Decisions, byte, byte, PairError> {
    DecodeCodec(2, 2, 0, 0,
                (s, units) => PairDecode(s, units), (s, units) => PairDecode(s, units),
                s => Wrote([], s), s => Wrote([], s))
  }

  function InvalidPolicy(mode: DecodeMode, s: Decisions, span: Option<nat>)
    : Ruling<Decisions, InvalidAction<byte>, DecodeError<PairError>>
  {
    var consumed := if span.Some? then span.value else 1;
    match mode
    case RejectUnits => Ruled(RejectInvalid, s + 1)
    case SkipUnits => Ruled(SkipInvalid(consumed), s + 1)
    case EmitSubstitute => Ruled(EmitInvalid(7, consumed), s + 1)
  }

  function IncompletePolicy(mode: DecodeMode, s: Decisions)
    : Ruling<Decisions, IncompleteAction<byte>, DecodeError<PairError>>
  {
    match mode
    case RejectUnits => Ruled(RejectTail, s + 1)
    case SkipUnits => Ruled(SkipTail, s + 1)
    case EmitSubstitute => Ruled(EmitTail(9), s + 1)
  }

  function SourceSide(invalid: DecodeMode, incomplete: DecodeMode): DecodeSide<Decisions, byte, byte, PairError> {
    DecodeSide(PairSource(),
               DecodeHooks((s, _, span) => InvalidPolicy(invalid, s, span),
                           (s, _, _) => IncompletePolicy(incomplete, s),
                           s => s, s => Wrote([], s), (n: usize) => Some(n), 0))
  }

  lemma SourceConforms(invalid: DecodeMode, incomplete: DecodeMode)
    ensures ConformsDecode(SourceSide(invalid, incomplete))
    ensures DecodeBoundCovers(SourceSide(invalid, incomplete))
  {
    var dec := SourceSide(invalid, incomplete);
    assert ConformsDecode(dec);
    forall payload: seq<byte>, s: Decisions | |payload| <= USIZE_MAX ensures DemandCovered(dec, payload, s) {
      DefaultBoundCovers(dec, payload, s, 0);
    }
  }

  // ---------------------------------------------------------------------------------------------------------
  // VariableTarget with its policy
  // ---------------------------------------------------------------------------------------------------------

  /** Even values take a complement byte behind them. */
  function TargetBytes(value: byte): (units: seq<byte>)
    ensures |units| == TargetLen(value)
  {
    if value % 2 == 0 then [value, 255 - value] else [value]
  }

  function TargetLen(value: byte): usize { if value % 2 == 0 then 2 else 1 }

  function Marker(markers: bool, unit: byte, t: Decisions): Written<Decisions, byte, PairError> {
    Wrote(if markers then [unit] else [], t)
  }

  function VariableTarget(markers: bool): EncodeCodec<Decisions, byte, byte, PairError> {
    EncodeCodec(2, 1, 1,
                (_, value) => value != 0xfe, (_, value) => TargetLen(value),
                (t, value) => Wrote(TargetBytes(value), t),
                t => Marker(markers, 0xa0, t), t => Marker(markers, 0xa1, t))
  }

  function UnencodablePolicy(mode: EncodeMode, t: Decisions)
    : Ruling<Decisions, UnencodableAction<byte>, EncodeError<PairError, byte>>
  {
    match mode
    case RejectUnencodable => Ruled(RejectValue, t + 1)
    case SkipUnencodable => Ruled(SkipValue, t + 1)
    case ReplaceUnencodable => Ruled(ReplaceValue(3), t + 1)
  }

  function TargetSide(mode: EncodeMode, markers: bool): EncodeSide<Decisions, byte, byte, PairError> {
    EncodeSide(VariableTarget(markers),
               EncodeHooks((t, _) => UnencodablePolicy(mode, t), t => t, t => Wrote([], t), DefaultEncodeBound(2), 0))
  }

  lemma TargetConforms(mode: EncodeMode, markers: bool)
    ensures ConformsEncode(TargetSide(mode, markers))
  {
    var enc := TargetSide(mode, markers);
    forall k: usize ensures BoundCovers(enc, k) {
    }
  }

  // ---------------------------------------------------------------------------------------------------------
  // The oracle
  // ---------------------------------------------------------------------------------------------------------

  datatype ModelError =
    | DecodeRejected(position: nat)
    | IncompleteRejected(position: nat)
    | UnencodableRejected(position: nat, value: byte)

  datatype Model = Model(output: seq<byte>, decodeDecisions: nat, encodeDecisions: nat)

  /** The converter error that stands for a model error. */
  function AsConvertError(error: ModelError): ConvertError<PairError, byte> {
    match error
    case DecodeRejected(position) => ConvertDecodeDomain(MainError(InvalidToken, position, Some(1)))
    case IncompleteRejected(position) => ConvertFramework(IncompleteInput(position, 2, 1))
    case UnencodableRejected(position, value) => ConvertUnencodable(position, Some(value))
  }

  ghost predicate ModelAgrees(
    stream: Outcome<Conv<Decisions, Decisions, byte>, byte, ConvertError<PairError, byte>>,
    model: Result<Model, ModelError>)
  {
    match model
    case Ok(m) => stream == Done(m.output, Conv(m.decodeDecisions, m.encodeDecisions, None))
    case Err(error) => stream.Rejected? && stream.error == AsConvertError(error)
  }

  /** What one pass through the oracle's loop does at `index`. */
  lemma OracleTurn(
    invalid: DecodeMode, incomplete: DecodeMode, unencodable: EncodeMode, markers: bool, payload: seq<byte>, index: nat,
    s: Decisions, t: Decisions)
    requires index < |payload|
    requires Faithful(PairMachine(invalid, incomplete, unencodable, markers))
    ensures
      var m := PairMachine(invalid, incomplete, unencodable, markers);
      var here := Oracle(m, payload, Conv(s, t, None), index);
      var tail := |payload| - index < 2;
      var bad := !tail && payload[index] == 0xff;
      var mode := if tail then incomplete else invalid;
      var read := if tail || bad then 1 else 2;
      var s' := if tail || bad then s + 1 else s;
      if (tail || bad) && mode.RejectUnits? then
        here.Rejected? && here.out == [] &&
        here.error == AsConvertError(if tail then IncompleteRejected(index) else DecodeRejected(index))
      else if (tail || bad) && mode.SkipUnits? then
        here == Oracle(m, payload, Conv(s', t, None), index + read)
      else
        var value := if tail then 9 else if bad then 7 else WrappingAdd(payload[index], payload[index + 1]);
        if value == 0xfe && unencodable.RejectUnencodable? then
          here.Rejected? && here.out == [] && here.error == AsConvertError(UnencodableRejected(index, value))
        else
          var units := if value != 0xfe then TargetBytes(value)
                       else if unencodable.SkipUnencodable? then [] else TargetBytes(3);
          here == Prepend(units,
                          Oracle(m, payload, Conv(s', if value == 0xfe then t + 1 else t, None), index + read))
  {
    hide Oracle, Faithful, DecodeOne, EncodeOne, ConformsDecode, ConformsEncode;
    var dec, enc := SourceSide(invalid, incomplete), TargetSide(unencodable, markers);
    SourceConforms(invalid, incomplete);
    TargetConforms(unencodable, markers);
    EventIsFinal(dec, s, payload[index..], payload[index..], index, true);
    var e := FinalEvent(dec, s, payload[index..], index);
    TurnEvent(invalid, incomplete, payload, index, s);
    match e
    case Skipped(read, next) =>
      SkipFuses(dec, enc, payload, s, t, index, read, next);
    case Refuted(error, after) =>
      ConvertOracleUnfolds(dec, enc, payload, Conv(s, t, None), index,
                           Fail(FromDecodeError(error), Conv(after, t, None)));
    case Emitted(value, read, next) =>
      ValueFuses(dec, enc, payload, s, t, index, value, read, next);
      TurnAttempt(unencodable, markers, t, value, index);
  }

  /** The decode half of a pass. */
  lemma TurnEvent(invalid: DecodeMode, incomplete: DecodeMode, payload: seq<byte>, index: nat, s: Decisions)
    requires index < |payload|
    ensures
      var e := FinalEvent(SourceSide(invalid, incomplete), s, payload[index..], index);
      var tail := |payload| - index < 2;
      var bad := !tail && payload[index] == 0xff;
      var mode := if tail then incomplete else invalid;
      if tail || bad then
        match mode
        case RejectUnits =>
          e == Refuted(if tail then DecodeFramework(IncompleteInput(index, 2, 1))
                       else DecodeDomain(MainError(InvalidToken, index, Some(1))), s + 1)
        case SkipUnits => e == Skipped(1, s + 1)
        case EmitSubstitute => e == Emitted(if tail then 9 else 7, 1, s + 1)
      else e == Emitted(WrappingAdd(payload[index], payload[index + 1]), 2, s)
  {
    var rest := payload[index..];
    assert rest[0] == payload[index];
    if |rest| >= 2 {
      assert rest[1] == payload[index + 1];
    }
  }

  /** The encode half of a pass. */
  lemma TurnAttempt(unencodable: EncodeMode, markers: bool, t: Decisions, value: byte, index: nat)
    ensures
      var a := EncodeFreely(TargetSide(unencodable, markers), t, value, index);
      if value != 0xfe then a == Encoded(TargetBytes(value), t)
      else match unencodable
        case RejectUnencodable => a == Rejection(EncodeUnencodable(index, None), t + 1)
        case SkipUnencodable => a == Encoded([], t + 1)
        case ReplaceUnencodable => a == Encoded(TargetBytes(3), t + 1)
  {
  }

  function PairMachine(invalid: DecodeMode, incomplete: DecodeMode, unencodable: EncodeMode, markers: bool)
    : Machine<Conv<Decisions, Decisions, byte>, byte, byte, ConvertError<PairError, byte>>
  {
    ConvertMachine(SourceSide(invalid, incomplete), TargetSide(unencodable, markers))
  }

  lemma PairFaithful(invalid: DecodeMode, incomplete: DecodeMode, unencodable: EncodeMode, markers: bool)
    ensures Faithful(PairMachine(invalid, incomplete, unencodable, markers))
  {
    SourceConforms(invalid, incomplete);
    TargetConforms(unencodable, markers);
    ConvertFaithful(SourceSide(invalid, incomplete), TargetSide(unencodable, markers));
  }

  /** The converted stream of this pair, from fresh decision counters. */
  ghost function PairStream(
    payload: seq<byte>, invalid: DecodeMode, incomplete: DecodeMode, unencodable: EncodeMode, markers: bool)
    : Outcome<Conv<Decisions, Decisions, byte>, byte, ConvertError<PairError, byte>>
  {
    SourceConforms(invalid, incomplete);
    TargetConforms(unencodable, markers);
    ConvertStream(SourceSide(invalid, incomplete), TargetSide(unencodable, markers), Conv(0, 0, None), payload)
  }

  lemma NothingLeft(
    payload: seq<byte>, invalid: DecodeMode, incomplete: DecodeMode, unencodable: EncodeMode, markers: bool,
    s: Decisions, t: Decisions)
    requires Faithful(PairMachine(invalid, incomplete, unencodable, markers))
    ensures Oracle(PairMachine(invalid, incomplete, unencodable, markers), payload, Conv(s, t, None), |payload|)
            == Done([], Conv(s, t, None))
  {
    FinalStop(PairMachine(invalid, incomplete, unencodable, markers), payload, Conv(s, t, None));
  }

  /** Reset and finish of this pair add nothing but the markers. */
  lemma PairStreamEnds(
    payload: seq<byte>, invalid: DecodeMode, incomplete: DecodeMode, unencodable: EncodeMode, markers: bool)
    requires Faithful(PairMachine(invalid, incomplete, unencodable, markers))
    ensures
      var main := Oracle(PairMachine(invalid, incomplete, unencodable, markers), payload, Conv(0, 0, None), 0);
      var first, last := if markers then [0xa0] else [], if markers then [0xa1] else [];
      var stream := PairStream(payload, invalid, incomplete, unencodable, markers);
      if main.Rejected? then stream == Rejected(first + main.out, main.error, main.after)
      else main.final.pending == None ==> stream == Done(first + main.out + last, main.final)
  {
    hide Oracle, Faithful, ConformsDecode, ConformsEncode;
  }

  /** The reference model of the protocol. */
  method SemanticOracle(
    payload: seq<byte>, invalid: DecodeMode, incomplete: DecodeMode, unencodable: EncodeMode, markers: bool)
    returns (model: Result<Model, ModelError>)
    ensures ModelAgrees(PairStream(payload, invalid, incomplete, unencodable, markers), model)
  {
    hide Oracle, Faithful, PairMachine, PairStream, WrappingAdd, TargetBytes, AsConvertError;
    PairFaithful(invalid, incomplete, unencodable, markers);
    ghost var m := PairMachine(invalid, incomplete, unencodable, markers);
    var output: seq<byte>, decodeDecisions: nat, encodeDecisions: nat := [], 0, 0;
    if markers {
      output := output + [0xa0];
    }
    ghost var main: seq<byte> := [];
    ghost var whole := Oracle(m, payload, Conv(0, 0, None), 0);
    var index: nat := 0;
    PrependNested([], [], whole);
    PairStreamEnds(payload, invalid, incomplete, unencodable, markers);
    while index < |payload|
      invariant index <= |payload|
      invariant output == (if markers then [0xa0] else []) + main
      invariant whole == Prepend(main, Oracle(m, payload, Conv(decodeDecisions, encodeDecisions, None), index))
    {
      OracleTurn(invalid, incomplete, unencodable, markers, payload, index, decodeDecisions, encodeDecisions);
      ghost var before := main;
      var value: byte;
      if |payload| - index < 2 {
        decodeDecisions := decodeDecisions + 1;
        match incomplete {
          case RejectUnits => return Err(IncompleteRejected(index));
          case SkipUnits =>
            index := |payload|;
            continue;
          case EmitSubstitute => value := 9;
        }
      } else if payload[index] == 0xff {
        decodeDecisions := decodeDecisions + 1;
        match invalid {
          case RejectUnits => return Err(DecodeRejected(index));
          case SkipUnits =>
            index := index + 1;
            continue;
          case EmitSubstitute => value := 7;
        }
      } else {
        value := WrappingAdd(payload[index], payload[index + 1]);
      }
      if value == 0xfe {
        encodeDecisions := encodeDecisions + 1;
        match unencodable {
          case RejectUnencodable => return Err(UnencodableRejected(index, value));
          case SkipUnencodable =>
          case ReplaceUnencodable =>
            output := output + TargetBytes(3);
            main := main + TargetBytes(3);
        }
      } else {
        output := output + TargetBytes(value);
        main := main + TargetBytes(value);
      }
      index := index + if |payload| - index < 2 then 1 else if payload[index] == 0xff then 1 else 2;
      PrependNested(before, main[|before|..], Oracle(m, payload, Conv(decodeDecisions, encodeDecisions, None), index));
    }
    NothingLeft(payload, invalid, incomplete, unencodable, markers, decodeDecisions, encodeDecisions);
    if markers {
      output := output + [0xa1];
    }
    return Ok(Model(output, decodeDecisions, encodeDecisions));
  }

  // ---------------------------------------------------------------------------------------------------------
  // The fuzz target
  // ---------------------------------------------------------------------------------------------------------

  type Engine = ConvertEngines.ConvertEngine<Decisions, Decisions, byte, byte, byte, PairError>

  ghost predicate IsFreshEngine(
    engine: Engine, invalid: DecodeMode, incomplete: DecodeMode, unencodable: EncodeMode, markers: bool)
    reads engine.decoder, engine.encoder, engine.pending
    reads engine.lifecycle, engine.decoder.lifecycle, engine.encoder.lifecycle
  {
    && engine.Conforms() && engine.Coupled() && engine.State() == Conv(0, 0, None)
    && engine.decoder.side == SourceSide(invalid, incomplete) && engine.encoder.side == TargetSide(unencodable, markers)
  }

  method MakeEngine(invalid: DecodeMode, incomplete: DecodeMode, unencodable: EncodeMode, markers: bool)
    returns (engine: Engine)
    ensures IsFreshEngine(engine, invalid, incomplete, unencodable, markers)
    ensures fresh(engine.decoder) && fresh(engine.encoder) && fresh(engine.pending) && fresh(engine.lifecycle)
    ensures fresh(engine.decoder.lifecycle) && fresh(engine.encoder.lifecycle)
  {
    hide ConformsDecode, ConformsEncode, Faithful;
    SourceConforms(invalid, incomplete);
    TargetConforms(unencodable, markers);
    engine := new ConvertEngines.ConvertEngine(
      SourceSide(invalid, incomplete), TargetSide(unencodable, markers), 0, 0);
  }

  /** Bounds of this pair: one marker at either end, and two units for each value or substitute. */
  lemma PairBounds(
    engine: Engine, invalid: DecodeMode, incomplete: DecodeMode, unencodable: EncodeMode, markers: bool, n: usize)
    requires engine.decoder.side == SourceSide(invalid, incomplete)
    requires engine.encoder.side == TargetSide(unencodable, markers)
    requires 2 * n + 6 <= USIZE_MAX
    ensures engine.MaxResetOutputLen() == Some(1)
    ensures engine.MaxTranscodeOutputLen(n) == Some(2 * n + 2)
    ensures engine.MaxFinishOutputLen() == Some(3)
    ensures engine.MaxTotalOutputLen(n) == Some(2 * n + 6)
  {
  }

  /** The one-shot run on a fresh engine with an output of exactly the advertised size. */
  method RunComplete(
    payload: seq<byte>, invalid: DecodeMode, incomplete: DecodeMode, unencodable: EncodeMode, markers: bool)
    returns (r: Result<seq<byte>, ConvertError<PairError, byte>>, decodeDecisions: nat, encodeDecisions: nat)
    requires 2 * |payload| + 6 <= USIZE_MAX
    ensures match PairStream(payload, invalid, incomplete, unencodable, markers)
            case Done(out, q) => r == Ok(out) && decodeDecisions == q.source && encodeDecisions == q.target
            case Rejected(_, error, q) =>
              r == Err(error) && decodeDecisions == q.source && encodeDecisions == q.target
  {
    hide ConformsDecode, ConformsEncode, Faithful, ConvertStream, Landed, DecodeBoundCovers;
    var engine := MakeEngine(invalid, incomplete, unencodable, markers);
    PairBounds(engine, invalid, incomplete, unencodable, markers, |payload|);
    SourceConforms(invalid, incomplete);
    var output := new byte[engine.MaxTotalOutputLen(|payload|).value];
    ghost var blank := output[..];
    var written := engine.TranscodeCompleteInto(payload, output);
    LandedInScratch(PairStream(payload, invalid, incomplete, unencodable, markers), written, blank, output[..],
                    engine.State());
    decodeDecisions, encodeDecisions := engine.decoder.state, engine.encoder.state;
    if written.Err? {
      r := Err(written.error);
    } else {
      r := Ok(output[..written.value]);
    }
  }

  /** Everything the fuzz target asserts, for every input: the partitioned run and the one-shot run agree with the
      oracle on output or error, and with each other on how often each hook decided. */
  method FuzzTarget(
    payload: seq<byte>, schedule: seq<byte>, invalid: DecodeMode, incomplete: DecodeMode, unencodable: EncodeMode,
    markers: bool)
    returns (expected: Result<Model, ModelError>, partition: Partition<byte, ConvertError<PairError, byte>>,
             complete: Result<seq<byte>, ConvertError<PairError, byte>>, partitionCounts: (nat, nat),
             completeCounts: (nat, nat))
    requires 2 * |payload| + 6 <= USIZE_MAX
    ensures expected.Ok? ==>
              && partition.Converted? && partition.output == expected.value.output
              && partition.steps <= 2 * |payload| + 2
              && complete == Ok(expected.value.output)
              && partitionCounts == completeCounts == (expected.value.decodeDecisions, expected.value.encodeDecisions)
    ensures expected.Err? ==>
              && partition.Interrupted? && partition.error == AsConvertError(expected.error)
              && complete == Err(AsConvertError(expected.error))
              && partitionCounts == completeCounts
  {
    hide ConformsDecode, ConformsEncode, Faithful, ConvertStream;
    expected := SemanticOracle(payload, invalid, incomplete, unencodable, markers);
    var engine := MakeEngine(invalid, incomplete, unencodable, markers);
    PairBounds(engine, invalid, incomplete, unencodable, markers, |payload|);
    partition := RunPartition(engine, payload, schedule);
    partitionCounts := (engine.decoder.state, engine.encoder.state);
    var decodes, encodes;
    complete, decodes, encodes := RunComplete(payload, invalid, incomplete, unencodable, markers);
    completeCounts := (decodes, encodes);
  }
}
