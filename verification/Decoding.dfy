/** Semantics of the decode engine: one event, and the engine as a streaming machine. */
module Decoding {
  import opened Basics
  import opened Progress
  import opened Codecs
  import opened Streaming

  /** What one decode attempt does with the units from the cursor on. */
  datatype Event<+S, +V, +E> =
    | Starved(required: usize)
    | Emitted(value: V, read: nat, next: S)
    | Skipped(read: nat, next: S)
    | Refuted(error: DecodeError<E>, after: S)

  /** The policy's reaction to a tail that is incomplete at end of input. */
  function ApplyIncomplete<S, U, V, E>(
    dec: DecodeSide<S, U, V, E>, s: S, source: Option<E>, required: usize, available: nat, index: nat): Event<S, V, E>
  {
    match dec.hooks.handleIncomplete(s, source, required)
    case Refused(error, after) => Refuted(error, after)
    case Ruled(SkipTail, next) => Skipped(available, next)
    case Ruled(EmitTail(value), next) => Emitted(value, available, next)
    case Ruled(RejectTail, next) =>
      match source {
        case Some(error) => Refuted(DecodeDomain(MainError(error, index, None)), next)
        case None => Refuted(DecodeFramework(IncompleteInput(index, required, available)), next)
      }
  }

  /** The policy's reaction to invalid units. */
  function ApplyInvalid<S, U, V, E>(
    dec: DecodeSide<S, U, V, E>, s: S, error: E, span: Option<nat>, index: nat): Event<S, V, E>
  {
    match dec.hooks.handleInvalid(s, error, span)
    case Refused(refusal, after) => Refuted(refusal, after)
    case Ruled(RejectInvalid, next) => Refuted(DecodeDomain(MainError(error, index, span)), next)
    case Ruled(SkipInvalid(consumed), next) => Skipped(consumed, next)
    case Ruled(EmitInvalid(value, consumed), next) => Emitted(value, consumed, next)
  }

  /** `decode_one` over the visible `units` at absolute position `index`. */
  function DecodeOne<S, U, V, E>(
    dec: DecodeSide<S, U, V, E>, s: S, units: seq<U>, index: nat, eof: bool): Event<S, V, E>
  {
    if |units| < dec.codec.minUnits then
      if eof then ApplyIncomplete(dec, s, None, dec.codec.minUnits, |units|, index)
      else Starved(dec.codec.minUnits)
    else
      match if eof then dec.codec.decodeEof(s, units) else dec.codec.decode(s, units)
      case Decoded(value, consumed, next) => Emitted(value, consumed, next)
      case Incomplete(source, required) =>
        if eof then ApplyIncomplete(dec, s, source, required, |units|, index) else Starved(required)
      case Invalid(error, span) => ApplyInvalid(dec, s, error, span, index)
  }

  /** The event at the head of a complete rest of the stream. */
  function FinalEvent<S, U, V, E>(dec: DecodeSide<S, U, V, E>, s: S, rest: seq<U>, index: nat): Event<S, V, E> {
    DecodeOne(dec, s, rest, index, true)
  }

  ghost predicate EventFits<S, V, E>(e: Event<S, V, E>, available: nat) {
    match e
    case Starved(_) => false
    case Emitted(_, read, _) => 0 < read <= available
    case Skipped(read, _) => 0 < read <= available
    case Refuted(_, _) => true
  }

  /** Seeing more input can turn a starved attempt into an event, never one event into another. */
  lemma EventIsFinal<S(!new), U(!new), V(!new), E(!new)>(
    dec: DecodeSide<S, U, V, E>, s: S, seen: seq<U>, rest: seq<U>, index: nat, eof: bool)
    requires ConformsDecode(dec) && 0 < |seen| && seen <= rest && (eof ==> seen == rest)
    ensures EventFits(FinalEvent(dec, s, rest, index), |rest|)
    ensures var e := DecodeOne(dec, s, seen, index, eof);
            if e.Starved? then !eof && |seen| < e.required
            else e == FinalEvent(dec, s, rest, index) && EventFits(e, |seen|)
  {
    if dec.codec.minUnits <= |rest| {
      assert DecodeAgrees(dec, s, rest, rest);
    }
    if dec.codec.minUnits <= |seen| {
      assert DecodeAgrees(dec, s, seen, rest);
    }
  }

  // ---------------------------------------------------------------------------------------------------------
  // The decode engine as a machine
  // ---------------------------------------------------------------------------------------------------------

  function EventStep<S, V, E>(e: Event<S, V, E>): Step<S, V, DecodeError<E>> {
    match e
    case Starved(required) => Stop(NeedInput(required))
    case Emitted(value, read, next) => Go(read, [value], next)
    case Skipped(read, next) => Go(read, [], next)
    case Refuted(error, after) => Fail(error, after)
  }

  /** One turn of the decode loop: an output slot is demanded before the codec or a hook sees the units. */
  function DecodeStep<S, U, V, E>(
    dec: DecodeSide<S, U, V, E>, s: S, visible: seq<U>, i: nat, room: nat, eof: bool): Step<S, V, DecodeError<E>>
  {
    if i >= |visible| then Stop(Complete)
    else if |visible| - i < dec.codec.minUnits && !eof then Stop(NeedInput(dec.codec.minUnits))
    else if room == 0 then Stop(NeedOutput(1))
    else EventStep(DecodeOne(dec, s, visible[i..], i, eof))
  }

  function DecodeIdeal<S, U, V, E>(dec: DecodeSide<S, U, V, E>, s: S, payload: seq<U>, i: nat)
    : Step<S, V, DecodeError<E>>
  {
    if i >= |payload| then Stop(Complete) else EventStep(FinalEvent(dec, s, payload[i..], i))
  }

  function DecodeMachine<S(!new), U(!new), V(!new), E(!new)>(dec: DecodeSide<S, U, V, E>)
    : Machine<S, U, V, DecodeError<E>>
  {
    Machine((s, visible, i, room, eof) => DecodeStep(dec, s, visible, i, room, eof),
            (s, payload, i) => DecodeIdeal(dec, s, payload, i),
            _ => 0,
            false)
  }

  lemma DecodeStepOK<S(!new), U(!new), V(!new), E(!new)>(
    dec: DecodeSide<S, U, V, E>, payload: seq<U>, v: nat, s: S, i: nat, room: nat, eof: bool)
    requires ConformsDecode(dec) && i <= v <= |payload| && (eof ==> v == |payload|)
    ensures StepOK(DecodeMachine(dec), payload, v, s, i, room, eof)
  {
    if i < v {
      assert payload[..v][i..] <= payload[i..];
      EventIsFinal(dec, s, payload[..v][i..], payload[i..], i, eof);
    }
  }

  /** The decode engine keeps the streaming contract for every conforming codec and policy. */
  lemma DecodeFaithful<S(!new), U(!new), V(!new), E(!new)>(dec: DecodeSide<S, U, V, E>)
    requires ConformsDecode(dec)
    ensures Faithful(DecodeMachine(dec))
  {
    var m := DecodeMachine(dec);
    forall payload, s, i: nat | i <= |payload| ensures IdealOK(m, payload, s, i) {
      if i < |payload| {
        EventIsFinal(dec, s, payload[i..], payload[i..], i, true);
      }
    }
    forall payload, v: nat, s, i: nat, room: nat, eof | i <= v <= |payload| && (eof ==> v == |payload|)
      ensures StepOK(m, payload, v, s, i, room, eof)
    {
      DecodeStepOK(dec, payload, v, s, i, room, eof);
    }
  }

  /** One step of a decode call. */
  lemma DecodeCallUnfolds<S(!new), U(!new), V(!new), E(!new)>(
    dec: DecodeSide<S, U, V, E>, s: S, visible: seq<U>, i: nat, room: nat, eof: bool, step: Step<S, V, DecodeError<E>>)
    requires ConformsDecode(dec) && Faithful(DecodeMachine(dec)) && i <= |visible|
    requires step == DecodeStep(dec, s, visible, i, room, eof)
    ensures step.Go? ==>
              && 0 < step.read <= |visible| - i && |step.out| <= room && |step.out| <= 1
              && Call(DecodeMachine(dec), s, visible, i, room, eof) ==
                 Resume(step.read, step.out,
                        Call(DecodeMachine(dec), step.next, visible, i + step.read, room - |step.out|, eof))
    ensures step.Stop? ==>
              Call(DecodeMachine(dec), s, visible, i, room, eof) == Stopped(step.status, 0, [], s)
    ensures step.Fail? ==>
              Call(DecodeMachine(dec), s, visible, i, room, eof) == Failed([], step.error, step.after)
  {
    hide DecodeStep, DecodeIdeal;
    assert StepOK(DecodeMachine(dec), visible, |visible|, s, i, room, eof) && visible[..|visible|] == visible;
    DecodeStepShape(dec, s, visible, i, room, eof);
  }

  /** Every move of a decode call consumes input and emits at most one value. */
  lemma DecodeStepShape<S(!new), U(!new), V(!new), E(!new)>(
    dec: DecodeSide<S, U, V, E>, s: S, visible: seq<U>, i: nat, room: nat, eof: bool)
    requires ConformsDecode(dec) && i <= |visible|
    ensures var step := DecodeStep(dec, s, visible, i, room, eof);
            step.Go? ==> 0 < step.read <= |visible| - i && |step.out| <= 1
  {
    if i < |visible| {
      EventIsFinal(dec, s, visible[i..], visible[i..], i, eof);
    }
  }

  lemma DecodeStepAtEnd<S(!new), U(!new), V(!new), E(!new)>(
    dec: DecodeSide<S, U, V, E>, s: S, visible: seq<U>, room: nat, eof: bool)
    ensures DecodeStep(dec, s, visible, |visible|, room, eof) == Stop(Complete)
  {
  }

  /** A decode call stops for output only when every slot is filled and the minimum width, or all there will be, is
      in view; it fails only while a slot is left, and never writes more values than it reads units. */
  lemma {:induction false} DecodeFillsOutput<S(!new), U(!new), V(!new), E(!new)>(
    dec: DecodeSide<S, U, V, E>, s: S, visible: seq<U>, i: nat, room: nat, eof: bool)
    requires ConformsDecode(dec) && Faithful(DecodeMachine(dec)) && i <= |visible|
    ensures var c := Call(DecodeMachine(dec), s, visible, i, room, eof);
            && (c.Stopped? && c.status.NeedOutput? ==>
                  |c.out| == room && c.status.required == 1
                  && (eof || dec.codec.minUnits <= |visible| - (i + c.read)))
            && (c.Stopped? ==> |c.out| <= c.read)
            && (c.Failed? ==> |c.out| < room && i < |visible|)
    decreases |visible| - i
  {
    hide DecodeOne, Call, Faithful;
    var step := DecodeStep(dec, s, visible, i, room, eof);
    DecodeCallUnfolds(dec, s, visible, i, room, eof, step);
    if step.Go? {
      DecodeFillsOutput(dec, step.next, visible, i + step.read, room - |step.out|, eof);
    }
  }
}
