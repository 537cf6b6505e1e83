/**
  * The codec, policy and reference of the decode engine's fuzz target.
  *
  * `ReferenceOutput` models the protocol directly, without codec or engine.  `DecodeFuzzTarget` proves what the fuzz
  * target samples, for every payload, policy, stride and first window.
  */
module DecodeFuzz {
  import opened Basics
  import opened Progress
  import opened Codecs
  import opened Streaming
  import opened Decoding
  import opened Lifecycle
  import opened Buffers
  import opened PartitionDriver
  import opened Fusion
  import opened Schedules
  import opened CallBounds
  import DecodeEngines

  datatype Policy = Reject | Skip | Emit

  datatype ProtocolError = InvalidByte | IncompleteByte

  /** Codec and hooks are stateless. */
  type Stateless = ()

  /** 0xff is invalid, 0xfe needs a byte behind it (which it does not consume), everything else is itself. */
  function ProtocolDecode(s: Stateless, units: seq<byte>): DecodeResult<Stateless, byte, ProtocolError>
    requires units != []
  {
    if units[0] == 0xff then Invalid(InvalidByte, Some(1))
    else if units[0] == 0xfe && |units| == 1 then Incomplete(Some(IncompleteByte), 2)
    else Decoded(units[0], 1, s)
  }

  function ProtocolCodec(): DecodeCodec<Stateless, byte, byte, ProtocolError> {
    var decode := (s: Stateless, units: seq<byte>) =>
      if units == [] then Incomplete(None, 1) else ProtocolDecode(s, units);
    DecodeCodec(1, 2, 0, 0, decode, decode, s => Wrote([], s), s => Wrote([], s))
  }

  /** The substitute value, `b'?'`. */
  const Question: byte := 0x3f

  function InvalidRuling(policy: Policy, s: Stateless, span: Option<nat>)
    : Ruling<Stateless, InvalidAction<byte>, DecodeError<ProtocolError>>
  {
    match policy
    case Reject => Ruled(RejectInvalid, s)
    case Skip => Ruled(SkipInvalid(if span.Some? then span.value else 1), s)
    case Emit => Ruled(EmitInvalid(Question, if span.Some? then span.value else 1), s)
  }

  function TailRuling(policy: Policy, s: Stateless)
    : Ruling<Stateless, IncompleteAction<byte>, DecodeError<ProtocolError>>
  {
    match policy
    case Reject => Ruled(RejectTail, s)
    case Skip => Ruled(SkipTail, s)
    case Emit => Ruled(EmitTail(Question), s)
  }

  function ProtocolSide(invalid: Policy, incomplete: Policy): DecodeSide<Stateless, byte, byte, ProtocolError> {
    DecodeSide(ProtocolCodec(),
               DecodeHooks((s, _, span) => InvalidRuling(invalid, s, span), (s, _, _) => TailRuling(incomplete, s),
                           s => s, s => Wrote([], s), (n: usize) => Some(n), 0))
  }

  /** The codec of the fuzz target keeps the codec contract. */
  lemma ProtocolConforms(invalid: Policy, incomplete: Policy)
    ensures ConformsDecode(ProtocolSide(invalid, incomplete))
  {
    var dec := ProtocolSide(invalid, incomplete);
    forall s, seen, rest | dec.codec.minUnits <= |seen| && seen <= rest ensures DecodeAgrees(dec, s, seen, rest) {
      assert seen[0] == rest[0];
    }
  }

  // ---------------------------------------------------------------------------------------------------------
  // The reference
  // ---------------------------------------------------------------------------------------------------------

  datatype Reference = Accepted(output: seq<byte>) | RejectedAt(position: nat, prefix: seq<byte>, incomplete: bool)

  function AsDecodeError(position: nat, incomplete: bool): DecodeError<ProtocolError> {
    DecodeDomain(if incomplete then MainError(IncompleteByte, position, None)
                 else MainError(InvalidByte, position, Some(1)))
  }

  ghost predicate ReferenceAgrees(
    stream: Outcome<Stateless, byte, DecodeError<ProtocolError>>, expected: Reference)
  {
    match expected
    case Accepted(output) => stream == Done(output, ())
    case RejectedAt(position, prefix, incomplete) =>
      stream == Rejected(prefix, AsDecodeError(position, incomplete), ())
  }

  /** The reference's reading of one byte: keep it, substitute it, drop it, or reject here. */
  lemma ReferenceByte(invalid: Policy, incomplete: Policy, payload: seq<byte>, position: nat)
    requires position < |payload| && Faithful(DecodeMachine(ProtocolSide(invalid, incomplete)))
    ensures
      var m := DecodeMachine(ProtocolSide(invalid, incomplete));
      var here := Oracle(m, payload, (), position);
      var bad := payload[position] == 0xff;
      var tail := payload[position] == 0xfe && position + 1 == |payload|;
      var policy := if bad then invalid else incomplete;
      var rest := Oracle(m, payload, (), position + 1);
      if !bad && !tail then here == Prepend([payload[position]], rest)
      else match policy
        case Reject => here == Rejected([], AsDecodeError(position, tail), ())
        case Skip => here == rest
        case Emit => here == Prepend([Question], rest)
  {
    hide Oracle, Faithful;
    var dec := ProtocolSide(invalid, incomplete);
    assert payload[position..][0] == payload[position];
    DecodeOracleUnfolds(dec, payload, (), position, FinalEvent(dec, (), payload[position..], position));
  }

  /** The reference model of the protocol. */
  method ReferenceOutput(payload: seq<byte>, invalid: Policy, incomplete: Policy) returns (expected: Reference)
    requires ConformsDecode(ProtocolSide(invalid, incomplete))
    requires Faithful(DecodeMachine(ProtocolSide(invalid, incomplete)))
    ensures ReferenceAgrees(Oracle(DecodeMachine(ProtocolSide(invalid, incomplete)), payload, (), 0), expected)
  {
    hide Oracle, Faithful, ConformsDecode;
    ghost var m := DecodeMachine(ProtocolSide(invalid, incomplete));
    ghost var whole := Oracle(m, payload, (), 0);
    var output: seq<byte> := [];
    PrependNested([], [], whole);
    for position := 0 to |payload|
      invariant whole == Prepend(output, Oracle(m, payload, (), position))
    {
      ReferenceByte(invalid, incomplete, payload, position);
      ghost var before := output;
      var byte := payload[position];
      if byte == 0xff {
        match invalid {
          case Reject => return RejectedAt(position, output, false);
          case Skip =>
          case Emit => output := output + [Question];
        }
      } else if byte == 0xfe && position + 1 == |payload| {
        match incomplete {
          case Reject => return RejectedAt(position, output, true);
          case Skip =>
          case Emit => output := output + [Question];
        }
      } else {
        output := output + [byte];
      }
      PrependNested(before, output[|before|..], Oracle(m, payload, (), position + 1));
    }
    FinalStop(m, payload, ());
    return Accepted(output);
  }

  // ---------------------------------------------------------------------------------------------------------
  // The driver
  // ---------------------------------------------------------------------------------------------------------

  datatype FuzzRun<+X> = Drained(output: seq<byte>, steps: nat) | Stuck(delivered: seq<byte>, error: X)

  /** The run is the oracle's: its output, or its rejection with everything before it delivered. */
  ghost predicate IsDecodeOracle<X>(oracle: Outcome<Stateless, byte, X>, run: FuzzRun<X>, n: nat) {
    match oracle
    case Done(out, _) => run.Drained? && run.output == out && run.steps <= 3 * n + 2
    case Rejected(out, error, _) => run == Stuck(out, error)
  }

  /** One call on the visible prefix with a fresh output window; its progress passes the validator. */
  method CallOnce(
    decoder: DecodeEngines.DecodeEngine<Stateless, byte, byte, ProtocolError>, visible: seq<byte>, cursor: usize,
    window: usize, eof: bool)
    returns (progress: Result<TranscodeProgress, DecodeError<ProtocolError>>, units: seq<byte>)
    requires decoder.Conforms() && cursor <= |visible| <= USIZE_MAX && window <= 1
    requires TranscodeRefusal(decoder.lifecycle.phase).None?
    modifies decoder, decoder.lifecycle
    ensures decoder.lifecycle.phase == Phase.Streaming
    ensures match Call(DecodeMachine(decoder.side), old(decoder.state), visible, cursor, window, eof)
            case Failed(out, error, after) => out == [] && progress == Err(error) && decoder.state == after
            case Stopped(status, read, out, next) =>
              progress == Ok(TranscodeProgress(status, read, |out|)) && units == out && decoder.state == next
    ensures progress.Ok? ==>
              && Honest(progress.value, |visible| - cursor, window) && (eof ==> !progress.value.status.NeedInput?)
              && (progress.value.status.NeedOutput? ==> progress.value.status.required == 1)
              && (progress.value.status.NeedOutput? && window == 1 ==> progress.value.read > 0)
  {
    hide Call, Faithful, ConformsDecode, Splice, Validate, DecodeStep;
    var slot := new byte[window];
    ghost var blank := slot[..];
    DecodeFillsOutput(decoder.side, decoder.state, visible, cursor, window, eof);
    ghost var c := Call(DecodeMachine(decoder.side), decoder.state, visible, cursor, window, eof);
    progress := decoder.Transcode(visible, cursor, slot, 0, eof);
    if progress.Err? {
      return progress, [];
    }
    ValidateIffHonest(progress.value, |visible|, cursor, window, 0);
    assert Validate(progress.value, cursor, |visible| - cursor, 0, window).None?;
    SplicePrefix(blank, c.out);
    units := slot[..progress.value.written];
  }

  /** The loop of the fuzz target: growing prefixes, and an output window that opens once it is asked for. */
  method FeedDecoder(
    decoder: DecodeEngines.DecodeEngine<Stateless, byte, byte, ProtocolError>, payload: seq<byte>, stride: nat,
    firstWindow: bool) returns (run: FuzzRun<DecodeError<ProtocolError>>)
    requires decoder.Conforms() && decoder.lifecycle.phase == Fresh && stride > 0 && |payload| <= USIZE_MAX
    modifies decoder, decoder.lifecycle
    ensures IsDecodeOracle(Oracle(DecodeMachine(decoder.side), payload, (), 0), run, |payload|)
    ensures decoder.lifecycle.phase == Phase.Streaming
  {
    hide Call, Oracle, Faithful, ConformsDecode, DriverOK, React;
    ghost var m := DecodeMachine(decoder.side);
    var cursor: usize, visible: usize, output: seq<byte>, eof, steps: nat := 0, 0, [], false, 0;
    var outputWindow: usize := if firstWindow then 1 else 0;
    ghost var d := Driver((), 0, 0, false, 0, [], 0);
    FreshDriverOK(m, payload, (), 0, false);
    while true
      invariant decoder.lifecycle.phase == Fresh || decoder.lifecycle.phase == Phase.Streaming
      invariant decoder.state == ()
      invariant d == Driver((), cursor, visible, eof, d.owed, output, steps) && d.owed <= outputWindow <= 1
      invariant cursor <= visible <= |payload| && (eof ==> visible == |payload|)
      invariant DriverOK(m, payload, (), d) && steps < 3 * |payload| + 2
      decreases 3 * |payload| + 2 - steps
    {
      steps := steps + 1;
      assert steps <= 16 * (|payload| + 1) + 32;
      ghost var choice := Choice(outputWindow, stride - 1, 0, false);
      TurnKeepsInvariant(m, payload, (), d, choice, outputWindow);
      ghost var c := Call(m, d.q, payload[..d.visible], d.cursor, outputWindow, d.eof);
      ReactUnfolds(d, |payload|, choice, c);
      var progress, units := CallOnce(decoder, payload[..visible], cursor, outputWindow, eof);
      if progress.Err? {
        assert output + [] == output;
        return Stuck(output, progress.error);
      }
      cursor := cursor + progress.value.read;
      output := output + units;
      match progress.value.status {
        case NeedOutput(_) =>
          if outputWindow == 0 {
            outputWindow := 1;
          } else {
            assert progress.value.read > 0;
          }
        case NeedInput(_) =>
          assert !eof;
          if visible < |payload| {
            visible := Min(visible + stride, |payload|);
          } else {
            eof := true;
          }
        case Complete =>
          if visible < |payload| {
            visible := Min(visible + stride, |payload|);
          } else if !eof {
            eof := true;
          } else {
            return Drained(output, steps);
          }
      }
      d := React(d, |payload|, choice, c).driver;
    }
  }

  /** Everything the fuzz target asserts, for every input: accepted payloads decode to the reference output and finish
      adds nothing; rejected ones stop at the reference's position, with its kind of error, after exactly its prefix. */
  method DecodeFuzzTarget(payload: seq<byte>, invalid: Policy, incomplete: Policy, stride: nat, firstWindow: bool)
    returns (expected: Reference, run: FuzzRun<DecodeError<ProtocolError>>)
    requires stride > 0 && |payload| <= USIZE_MAX
    ensures expected.Accepted? ==> run.Drained? && run.output == expected.output && run.steps <= 3 * |payload| + 2
    ensures expected.RejectedAt? ==>
              run == Stuck(expected.prefix, AsDecodeError(expected.position, expected.incomplete))
  {
    hide Oracle, Faithful, ConformsDecode;
    ProtocolConforms(invalid, incomplete);
    var dec := ProtocolSide(invalid, incomplete);
    DecodeFaithful(dec);
    expected := ReferenceOutput(payload, invalid, incomplete);
    var decoder := new DecodeEngines.DecodeEngine(dec, ());
    var none := new byte[0];
    var reset := decoder.Reset(none, 0);
    assert reset == Ok(0);
    run := FeedDecoder(decoder, payload, stride, firstWindow);
    if run.Drained? {
      var finish := new byte[31];
      var finished := decoder.Finish(finish, 0);
      assert finished == Ok(0);
    }
  }

  // ---------------------------------------------------------------------------------------------------------
  // The call bound of the decode engine
  // ---------------------------------------------------------------------------------------------------------

  /** The calls that a lone 0xfe can see. */
  lemma LoneTailCalls()
    requires ConformsDecode(ProtocolSide(Emit, Emit)) && Faithful(DecodeMachine(ProtocolSide(Emit, Emit)))
    ensures var m := DecodeMachine(ProtocolSide(Emit, Emit));
            && Call(m, (), [], 0, 0, false) == Stopped(Complete, 0, [], ())
            && (forall eof :: Call(m, (), [0xfe], 0, 0, eof) == Stopped(NeedOutput(1), 0, [], ()))
            && Call(m, (), [0xfe], 0, 1, false) == Stopped(NeedInput(2), 0, [], ())
            && Call(m, (), [0xfe], 0, 1, true) == Stopped(Complete, 1, [Question], ())
  {
    hide Call, Faithful, ConformsDecode;
    var dec := ProtocolSide(Emit, Emit);
    DecodeCallUnfolds(dec, (), [], 0, 0, false, Stop(Complete));
    forall eof ensures Call(DecodeMachine(dec), (), [0xfe], 0, 0, eof) == Stopped(NeedOutput(1), 0, [], ()) {
      DecodeCallUnfolds(dec, (), [0xfe], 0, 0, eof, Stop(NeedOutput(1)));
    }
    assert [0xfe as byte][0..] == [0xfe];
    DecodeCallUnfolds(dec, (), [0xfe], 0, 1, false, Stop(NeedInput(2)));
    DecodeCallUnfolds(dec, (), [0xfe], 0, 1, true, Go(1, [Question], ()));
    DecodeCallUnfolds(dec, (), [0xfe], 1, 0, true, Stop(Complete));
  }

  /** How the driver reacts to them, one after the other. */
  lemma LoneTailReactions()
    ensures LoneTailTurn(Driver((), 0, 0, false, 0, [], 0), Stopped(Complete, 0, [], ()))
            == Running(Driver((), 0, 1, false, 0, [], 1))
    ensures LoneTailTurn(Driver((), 0, 1, false, 0, [], 1), Stopped(NeedOutput(1), 0, [], ()))
            == Running(Driver((), 0, 1, false, 1, [], 2))
    ensures LoneTailTurn(Driver((), 0, 1, false, 1, [], 2), Stopped(NeedInput(2), 0, [], ()))
            == Running(Driver((), 0, 1, true, 0, [], 3))
    ensures LoneTailTurn(Driver((), 0, 1, true, 0, [], 3), Stopped(NeedOutput(1), 0, [], ()))
            == Running(Driver((), 0, 1, true, 1, [], 4))
    ensures LoneTailTurn(Driver((), 0, 1, true, 1, [], 4), Stopped(Complete, 1, [Question], ()))
            == Completed([Question], (), 5)
  {
  }

  function LoneTailTurn(
    d: Driver<Stateless, byte>, c: CallResult<Stateless, byte, DecodeError<ProtocolError>>)
    : Turn<Stateless, byte, DecodeError<ProtocolError>>
    requires d.visible <= 1
  {
    React(d, 1, Choice(0, 0, 0, false), c)
  }

  /** The converter's bound of `2n + 2` calls does not hold for the decode engine: it asks for an output slot, then
      for input, then for a slot again, before it settles the only unit of this payload in its fifth call. */
  lemma DecodeExceedsConverterBound()
    requires ConformsDecode(ProtocolSide(Emit, Emit))
    ensures DecodeRun(ProtocolSide(Emit, Emit), (), [0xfe], 0, Idle()) == Completed([Question], (), 5)
  {
    hide Drive, Oracle, Faithful, DriverOK, ConformsDecode, Call, React, ProtocolSide;
    var dec := ProtocolSide(Emit, Emit);
    var m: Machine<Stateless, byte, byte, DecodeError<ProtocolError>>, payload: seq<byte> := DecodeMachine(dec), [0xfe];
    DecodeFaithful(dec);
    FreshDriverOK(m, payload, (), 0, false);
    LoneTailCalls();
    LoneTailReactions();
    assert payload[..0] == [] && payload[..1] == payload;
    IdleTurn(m, payload, (), Driver((), 0, 0, false, 0, [], 0), Stopped(Complete, 0, [], ()));
    IdleTurn(m, payload, (), Driver((), 0, 1, false, 0, [], 1), Stopped(NeedOutput(1), 0, [], ()));
    IdleTurn(m, payload, (), Driver((), 0, 1, false, 1, [], 2), Stopped(NeedInput(2), 0, [], ()));
    IdleTurn(m, payload, (), Driver((), 0, 1, true, 0, [], 3), Stopped(NeedOutput(1), 0, [], ()));
    IdleTurn(m, payload, (), Driver((), 0, 1, true, 1, [], 4), Stopped(Complete, 1, [Question], ()));
  }
}
