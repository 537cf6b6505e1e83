/** The buffered converter, proved against the conversion machine. */
module ConvertEngines {
  import opened Basics
  import opened Progress
  import opened Codecs
  import opened Streaming
  import opened Decoding
  import opened Encoding
  import opened Converting
  import opened Lifecycles
  import opened Capacity
  import opened Lifecycle
  import opened Buffers
  import opened PendingSlot
  import DecodeEngines
  import EncodeEngines

  class ConvertEngine<S(!new), T(!new), U(!new), V(0, !new), W(!new), E(!new)> {
    const decoder: DecodeEngines.DecodeEngine<S, U, V, E>
    const encoder: EncodeEngines.EncodeEngine<T, V, W, E>
    const pending: PendingValueSlot<V>
    const lifecycle: LifecycleGuard

    ghost function Machine(): Machine<Conv<S, T, V>, U, W, ConvertError<E, V>> {
      ConvertMachine(decoder.side, encoder.side)
    }

    ghost predicate Conforms() {
      && decoder.Conforms() && encoder.Conforms() && Faithful(Machine())
      && lifecycle != decoder.lifecycle && lifecycle != encoder.lifecycle && decoder.lifecycle != encoder.lifecycle
    }

    /** The inner guards follow the outer one: both are ready whenever it accepts a call, both are closed once it
        is. */
    ghost predicate Coupled()
      reads lifecycle, decoder.lifecycle, encoder.lifecycle
    {
      && (lifecycle.phase == Fresh || lifecycle.phase == Phase.Streaming ==>
            decoder.lifecycle.phase == Fresh && encoder.lifecycle.phase == Fresh)
      && (lifecycle.phase == Finished ==>
            decoder.lifecycle.phase == Finished && encoder.lifecycle.phase == Finished)
    }

    /** Both codec and hook states, and the retained value. */
    ghost function State(): Conv<S, T, V>
      reads decoder, encoder, pending
    {
      Conv(decoder.state, encoder.state, pending.value)
    }

    constructor (dec: DecodeSide<S, U, V, E>, enc: EncodeSide<T, V, W, E>, source: S, target: T)
      requires ConformsDecode(dec) && ConformsEncode(enc)
      ensures Conforms() && Coupled() && State() == Conv(source, target, None)
      ensures decoder.side == dec && encoder.side == enc
      ensures lifecycle.phase == Uninitialized
      ensures fresh(decoder) && fresh(encoder) && fresh(pending) && fresh(lifecycle)
      ensures fresh(decoder.lifecycle) && fresh(encoder.lifecycle)
    {
      ConvertFaithful(dec, enc);
      decoder := new DecodeEngines.DecodeEngine(dec, source);
      encoder := new EncodeEngines.EncodeEngine(enc, target);
      pending := new PendingValueSlot();
      lifecycle := new LifecycleGuard();
    }

    // -------------------------------------------------------------------------------------------------------
    // Bounds
    // -------------------------------------------------------------------------------------------------------

    function MaxTranscodeOutputLen(inputLen: usize): Option<usize> {
      match (encoder.MaxTranscodeOutputLen(1), decoder.MaxTranscodeOutputLen(inputLen))
      case (Some(pendingUnits), Some(values)) =>
        (match encoder.MaxTranscodeOutputLen(values)
         case Some(converted) => CheckedAdd(converted, pendingUnits)
         case None => None)
      case _ => None
    }

    function MaxResetOutputLen(): Option<usize> {
      match encoder.MaxTranscodeOutputLen(decoder.side.codec.maxResetValues)
      case Some(units) => CheckedAdd(units, encoder.side.codec.maxResetUnits)
      case None => None
    }

    function FinishOutputLen(pendingUnits: Option<usize>): Option<usize> {
      match (pendingUnits, decoder.MaxFinishOutputLen())
      case (Some(first), Some(values)) =>
        (match (encoder.MaxTranscodeOutputLen(values), encoder.MaxFinishOutputLen())
         case (Some(units), Some(trailer)) => CheckedSum(first, units, trailer)
         case _ => None)
      case _ => None
    }

    function MaxFinishOutputLen(): Option<usize> { FinishOutputLen(encoder.MaxTranscodeOutputLen(1)) }

    /** The finish bound of the current state: a retained value counts only while there is one. */
    function CurrentFinishOutputLen(): Option<usize>
      reads pending
    {
      FinishOutputLen(if pending.value.Some? then encoder.MaxTranscodeOutputLen(1) else Some(0))
    }

    function MaxTotalOutputLen(inputLen: usize): Option<usize> {
      match (MaxResetOutputLen(), MaxTranscodeOutputLen(inputLen), MaxFinishOutputLen())
      case (Some(reset), Some(transcode), Some(finish)) => CheckedSum(reset, transcode, finish)
      case _ => None
    }

    /** The three bounds in closed form when the target reserves its widest encoding for each value: reset values,
        values of the input and the retained one, and finish values, each at that width, plus what the target adds
        itself. */
    lemma BoundsInClosedForm(inputLen: usize, values: usize, finishValues: usize)
      requires forall k: usize :: encoder.side.hooks.maxTranscode(k) == CheckedMul(k, encoder.side.codec.maxUnits)
      requires decoder.side.hooks.maxTranscode(inputLen) == Some(values)
      requires decoder.side.codec.maxFinishValues + decoder.side.hooks.maxFinish == finishValues
      ensures var dec, enc := decoder.side, encoder.side;
              var max, retained := enc.codec.maxUnits, if pending.value.Some? then 1 else 0;
              var trailer := enc.codec.maxFinishUnits + enc.hooks.maxFinish;
              && MaxResetOutputLen() == InRange(dec.codec.maxResetValues * max + enc.codec.maxResetUnits)
              && MaxTranscodeOutputLen(inputLen) == InRange(values * max + max)
              && MaxFinishOutputLen() == InRange(max + finishValues * max + trailer)
              && CurrentFinishOutputLen() == InRange(retained * max + finishValues * max + trailer)
    {
      var max := encoder.side.codec.maxUnits;
      assert encoder.MaxTranscodeOutputLen(1) == Some(max);
      assert decoder.MaxFinishOutputLen() == Some(finishValues);
    }

    function InRange(n: int): Option<usize> { if 0 <= n <= USIZE_MAX then Some(n) else None }

    // -------------------------------------------------------------------------------------------------------
    // Single conversions
    // -------------------------------------------------------------------------------------------------------

    /** One machine step from `q` was taken: `end` says whether it ended the call, and the engine and the cursors are
        where the step leads, `at` and `window` being the output cursor and buffer before it. */
    ghost predicate Stepped(
      step: Step<Conv<S, T, V>, W, ConvertError<E, V>>, q: Conv<S, T, V>,
      end: Option<Result<TranscodeProgress, ConvertError<E, V>>>, st: TranscodeState<U, W>, at: nat, window: seq<W>)
      requires st.Valid()
      reads decoder, encoder, pending, st, st.output
    {
      match step
      case Stop(status) =>
        end == Some(Ok(st.Report(status))) && State() == q && st.outputCursor == at && st.output[..] == window
      case Fail(error, after) =>
        end == Some(Err(error)) && State() == after && st.outputCursor == at && st.output[..] == window
      case Go(_, out, next) =>
        && end == None && State() == next && st.outputCursor == at + |out|
        && at + |out| <= |window| && st.output[..] == Splice(window, at, out)
    }

    ghost function TakenStep(q: Conv<S, T, V>, p: PendingValue<V>, room: nat)
      : Step<Conv<S, T, V>, W, ConvertError<E, V>>
    {
      PendingStep(q, p, EncodeOne(encoder.side, q.target, p.value, p.inputIndex, room))
    }

    /** Encodes a value taken from the slot.  When the output is short the value goes back to the slot, which is
        empty: nothing is ever overwritten there. */
    method EncodePending(p: PendingValue<V>, st: TranscodeState<U, W>)
      returns (end: Option<Result<TranscodeProgress, ConvertError<E, V>>>)
      requires Conforms() && st.Valid() && pending.value == None
      modifies encoder, pending, st`outputCursor, st.output
      ensures st.Valid() && st.inputCursor == old(st.inputCursor)
      ensures var q := Conv(decoder.state, old(encoder.state), Some(p));
              Stepped(TakenStep(q, p, old(st.AvailableOutput())), q, end, st, old(st.outputCursor), old(st.output[..]))
    {
      hide EncodeOne, Faithful;
      RoomOnlyDelays(encoder.side, encoder.state, p.value, p.inputIndex, st.AvailableOutput());
      var a := encoder.AttemptOne(p.value, p.inputIndex, st.output, st.outputCursor);
      match a {
        case Rejection(error, _) =>
          return Some(Err(FromEncodeErrorWithValue(error, p.value)));
        case Encoded(units, _) =>
          st.AdvanceOutput(|units|);
          return None;
        case Blocked(required) =>
          assert required > st.AvailableOutput();
          assert pending.value == None;
          pending.Put(p);
          return Some(Ok(st.Report(NeedOutput(required))));
      }
    }

    /** A retained value must reach the output before more input is consumed. */
    method DrainPending(st: TranscodeState<U, W>)
      returns (end: Option<Result<TranscodeProgress, ConvertError<E, V>>>)
      requires Conforms() && st.Valid()
      modifies encoder, pending, st`outputCursor, st.output
      ensures st.Valid() && st.inputCursor == old(st.inputCursor)
      ensures old(pending.value) == None ==>
                && end == None && State() == old(State())
                && st.outputCursor == old(st.outputCursor) && st.output[..] == old(st.output[..])
      ensures old(pending.value).Some? ==>
                Stepped(TakenStep(old(State()), old(pending.value.value), old(st.AvailableOutput())), old(State()), end,
                        st, old(st.outputCursor), old(st.output[..]))
    {
      hide EncodeOne, Faithful;
      var taken := pending.Take();
      if taken.None? {
        return None;
      }
      end := EncodePending(taken.value, st);
    }

    // -------------------------------------------------------------------------------------------------------
    // One call
    // -------------------------------------------------------------------------------------------------------

    /** The call `c0` has settled `out` so far, into a buffer that was `before`, and goes on from here. */
    ghost predicate OnTrack(
      c0: CallResult<Conv<S, T, V>, W, ConvertError<E, V>>, st: TranscodeState<U, W>, out: seq<W>, before: seq<W>,
      eof: bool)
      requires Conforms()
      reads decoder, encoder, pending, st, st.output
    {
      && st.Valid() && |out| == st.outputCursor - st.outputStart
      && Reached(c0, Call(Machine(), State(), st.input, st.inputCursor, st.AvailableOutput(), eof),
                 st.inputCursor - st.inputStart, out, before, st.outputStart, st.output[..])
    }

    /** A machine step keeps a call on track, or ends it as the call says. */
    lemma StepKeepsTrack(
      c0: CallResult<Conv<S, T, V>, W, ConvertError<E, V>>, q: Conv<S, T, V>, input: seq<U>, i: nat, start: nat,
      room: nat, eof: bool, out: seq<W>, before: seq<W>, at: nat, window: seq<W>,
      step: Step<Conv<S, T, V>, W, ConvertError<E, V>>)
      requires Conforms() && start <= i <= |input|
      requires step == ConvertStep(decoder.side, encoder.side, q, input, i, room, eof)
      requires Reached(c0, Call(Machine(), q, input, i, room, eof), i - start, out, before, at, window)
      requires room == |window| - at - |out|
      ensures step.Stop? ==>
                Reported(c0, Ok(TranscodeProgress(step.status, i - start, |out|)), before, at, window, q)
      ensures step.Fail? ==> Reported(c0, Err(step.error), before, at, window, step.after)
      ensures step.Go? ==>
                && i + step.read <= |input| && |step.out| <= room
                && Reached(c0, Call(Machine(), step.next, input, i + step.read, room - |step.out|, eof),
                           i + step.read - start, out + step.out, before, at,
                           Splice(window, at + |out|, step.out))
    {
      hide Call, ConvertStep, Faithful, Splice, Resume, Reported;
      ConvertCallUnfolds(decoder.side, encoder.side, q, input, i, room, eof, step);
      var rest := Call(Machine(), q, input, i, room, eof);
      if step.Go? {
        ReachedMore(c0, rest, i - start, out, before, at, window, step.read, step.out,
                    Call(Machine(), step.next, input, i + step.read, room - |step.out|, eof),
                    Splice(window, at + |out|, step.out));
        assert i - start + step.read == i + step.read - start;
      } else {
        ReachedEnd(c0, rest, i - start, out, before, at, window);
      }
    }

    /** `convert_next`: decodes one event and, if it carries a value, tries to encode it at once. */
    method ConvertNext(
      st: TranscodeState<U, W>, eof: bool, ghost c0: CallResult<Conv<S, T, V>, W, ConvertError<E, V>>,
      ghost before: seq<W>, ghost out: seq<W>)
      returns (end: Option<Result<TranscodeProgress, ConvertError<E, V>>>, ghost out': seq<W>)
      requires Conforms() && OnTrack(c0, st, out, before, eof) && st.HasInput() && pending.value == None
      modifies decoder, encoder, pending, st, st.output
      ensures st.Valid()
      ensures end == None ==>
                OnTrack(c0, st, out', before, eof) && pending.value == None && st.inputCursor > old(st.inputCursor)
      ensures end.Some? ==> Reported(c0, end.value, before, st.outputStart, st.output[..], State())
    {
      hide Call, DecodeOne, EncodeOne, Faithful, Splice, Reported, Reached;
      out' := out;
      ghost var q, i := State(), st.inputCursor;
      ghost var step := ConvertStep(decoder.side, encoder.side, q, st.input, i, st.AvailableOutput(), eof);
      StepKeepsTrack(c0, q, st.input, i, st.inputStart, st.AvailableOutput(), eof, out, before, st.outputStart,
                     st.output[..], step);
      var e := decoder.AttemptOne(st.input, st.inputCursor, eof);
      if e.Emitted? {
        assert pending.value == None;
        pending.Put(PendingValue(e.value, st.inputCursor));
      }
      match e {
        case Starved(required) =>
          return Some(Ok(st.Report(NeedInput(required)))), out;
        case Refuted(error, _) =>
          return Some(Err(FromDecodeError(error))), out;
        case Skipped(read, _) =>
          st.AdvanceInput(read);
        case Emitted(_, read, _) =>
          st.AdvanceInput(read);
      }
      SpliceNothing(st.output[..], st.outputCursor);
      assert out + [] == out;
      assert OnTrack(c0, st, out, before, eof);
      end, out' := DrainOnTrack(st, eof, c0, before, out);
    }

    /** Draining the slot inside a call. */
    method DrainOnTrack(
      st: TranscodeState<U, W>, eof: bool, ghost c0: CallResult<Conv<S, T, V>, W, ConvertError<E, V>>,
      ghost before: seq<W>, ghost out: seq<W>)
      returns (end: Option<Result<TranscodeProgress, ConvertError<E, V>>>, ghost out': seq<W>)
      requires Conforms() && OnTrack(c0, st, out, before, eof)
      modifies encoder, pending, st`outputCursor, st.output
      ensures st.Valid() && st.inputCursor == old(st.inputCursor)
      ensures end == None ==> OnTrack(c0, st, out', before, eof) && pending.value == None
      ensures end.Some? ==> Reported(c0, end.value, before, st.outputStart, st.output[..], State())
    {
      hide Call, DecodeOne, EncodeOne, Faithful, Splice, Reported, Reached;
      out' := out;
      ghost var q, i := State(), st.inputCursor;
      ghost var step := ConvertStep(decoder.side, encoder.side, q, st.input, i, st.AvailableOutput(), eof);
      if pending.value.Some? {
        StepKeepsTrack(c0, q, st.input, i, st.inputStart, st.AvailableOutput(), eof, out, before, st.outputStart,
                       st.output[..], step);
      }
      end := DrainPending(st);
      if q.pending.Some? && end.None? {
        out' := out + step.out;
      }
    }

    /** What the streaming theory says about the call this engine is about to make. */
    lemma CallIsSound(input: seq<U>, i: nat, room: nat, eof: bool, q: Conv<S, T, V>)
      requires Conforms() && i <= |input|
      ensures var c := Call(Machine(), q, input, i, room, eof);
              c.Stopped? ==>
                && Honest(TranscodeProgress(c.status, c.read, |c.out|), |input| - i, room)
                && (eof ==> !c.status.NeedInput?)
                && (!c.status.NeedOutput? ==> c.next.pending == None)
    {
      assert input[..|input|] == input;
      CallFollowsOracle(Machine(), input, |input|, q, i, room, eof);
    }

    /** Converts units until one of the three stopping reasons; a value that does not fit is retained.  The progress
        is always valid for the bounds of the call, and at end of input it never asks for more. */
    method Transcode(input: seq<U>, inputIndex: usize, output: array<W>, outputIndex: usize, eof: bool)
      returns (r: Result<TranscodeProgress, ConvertError<E, V>>)
      requires Conforms() && Coupled() && |input| <= USIZE_MAX && output.Length <= USIZE_MAX
      modifies decoder, encoder, pending, lifecycle, output
      ensures Coupled()
      ensures var refusal := TranscodeRefusal(old(lifecycle.phase));
              var misfit := EnsureTranscodeIndices(|input|, inputIndex, output.Length, outputIndex);
              if refusal.Some? || misfit.Some? then
                && r == Err(ConvertFramework(if refusal.Some? then refusal.value else misfit.value))
                && State() == old(State()) && output[..] == old(output[..])
              else
                && Reported(Call(Machine(), old(State()), input, inputIndex, output.Length - outputIndex, eof),
                            r, old(output[..]), outputIndex, output[..], State())
                && (r.Ok? ==> Honest(r.value, |input| - inputIndex, output.Length - outputIndex)
                              && (eof ==> !r.value.status.NeedInput?))
      ensures lifecycle.phase ==
              if TranscodeRefusal(old(lifecycle.phase)).None? then Phase.Streaming else old(lifecycle.phase)
    {
      hide Call, Faithful, Splice;
      var refusal := lifecycle.OnTranscode();
      if refusal.Some? {
        return Err(ConvertFramework(refusal.value));
      }
      var misfit := EnsureTranscodeIndices(|input|, inputIndex, output.Length, outputIndex);
      if misfit.Some? {
        return Err(ConvertFramework(misfit.value));
      }
      CallIsSound(input, inputIndex, output.Length - outputIndex, eof, State());
      var st := new TranscodeState(input, inputIndex, output, outputIndex);
      r := Run(st, eof);
    }

    /** The loop of one call. */
    method Run(st: TranscodeState<U, W>, eof: bool) returns (r: Result<TranscodeProgress, ConvertError<E, V>>)
      requires Conforms() && st.AtStart()
      modifies decoder, encoder, pending, st, st.output
      ensures Reported(Call(Machine(), old(State()), st.input, st.inputStart, st.Room(), eof),
                       r, old(st.output[..]), st.outputStart, st.output[..], State())
    {
      hide Call, ConvertStep, Faithful, Splice, Resume, Reported, Reached;
      ghost var before := st.output[..];
      ghost var c0 := Call(Machine(), State(), st.input, st.inputStart, st.Room(), eof);
      ReachedStart(c0, before, st.outputStart);
      var end, out := DrainOnTrack(st, eof, c0, before, []);
      if end.Some? {
        return end.value;
      }
      var minUnits := decoder.side.codec.minUnits;
      while st.HasInput()
        invariant OnTrack(c0, st, out, before, eof) && pending.value == None
        decreases |st.input| - st.inputCursor
      {
        if st.AvailableInput() < minUnits && !eof {
          ShortInputStops(State(), st.input, st.inputCursor, st.AvailableOutput());
          StepKeepsTrack(c0, State(), st.input, st.inputCursor, st.inputStart, st.AvailableOutput(), eof, out, before,
                         st.outputStart, st.output[..], Stop(NeedInput(minUnits)));
          return Ok(st.Report(NeedInput(minUnits)));
        }
        end, out := ConvertNext(st, eof, c0, before, out);
        if end.Some? {
          return end.value;
        }
      }
      NothingLeftStops(State(), st.input, st.AvailableOutput(), eof);
      StepKeepsTrack(c0, State(), st.input, st.inputCursor, st.inputStart, st.AvailableOutput(), eof, out, before,
                     st.outputStart, st.output[..], Stop(Complete));
      return Ok(st.Report(Complete));
    }

    lemma ShortInputStops(q: Conv<S, T, V>, input: seq<U>, i: nat, room: nat)
      requires i < |input| && |input| - i < decoder.side.codec.minUnits && q.pending == None
      ensures ConvertStep(decoder.side, encoder.side, q, input, i, room, false)
              == Stop(NeedInput(decoder.side.codec.minUnits))
    {
    }

    lemma NothingLeftStops(q: Conv<S, T, V>, input: seq<U>, room: nat, eof: bool)
      requires q.pending == None
      ensures ConvertStep(decoder.side, encoder.side, q, input, |input|, room, eof) == Stop(Complete)
    {
    }

    // -------------------------------------------------------------------------------------------------------
    // Stream ends
    // -------------------------------------------------------------------------------------------------------

    /** `values` went to the target side, which was in state `t`, as far as it accepted them. */
    ghost predicate ValuesEncoded(
      values: seq<V>, t: T, failure: Option<ConvertError<E, V>>, st: TranscodeState<U, W>, at: nat, window: seq<W>)
      requires st.Valid()
      reads encoder, st, st.output
    {
      var r := EncodeTrail(encoder.side, t, Unlocated(values));
      && at + |r.out| <= |window| && st.output[..] == Splice(window, at, r.out)
      && |r.out| <= |values| * encoder.side.codec.maxUnits
      && match r {
        case Done(out, next) => failure == None && encoder.state == next && st.outputCursor == at + |out|
        case Rejected(_, error, next) => failure == Some(error) && encoder.state == next
      }
    }

    /** Encodes the values a stream end of the source produced.  The caller's bound reserved the widest encoding of
        each, so none of them can be blocked and none can be left in the slot. */
    method EncodeValues(values: seq<V>, st: TranscodeState<U, W>) returns (failure: Option<ConvertError<E, V>>)
      requires Conforms() && st.Valid() && pending.value == None
      requires |values| * encoder.side.codec.maxUnits <= st.AvailableOutput()
      modifies encoder, pending, st`outputCursor, st.output
      ensures st.Valid() && pending.value == None
      ensures ValuesEncoded(values, old(encoder.state), failure, st, old(st.outputCursor), old(st.output[..]))
    {
      hide EncodeOne, Faithful, ConformsDecode, ConformsEncode, Splice, EncodeFreely;
      ghost var ps := Unlocated(values);
      ghost var whole := EncodeTrail(encoder.side, encoder.state, ps);
      ghost var out: seq<W> := [];
      var k := 0;
      PrependNested([], [], whole);
      SpliceNothing(st.output[..], st.outputCursor);
      TrailFits(encoder.side, encoder.state, ps);
      while k < |values|
        invariant k <= |values| && st.Valid() && pending.value == None
        invariant |out| == st.outputCursor - old(st.outputCursor)
        invariant whole == Prepend(out, EncodeTrail(encoder.side, encoder.state, ps[k..]))
        invariant (|values| - k) * encoder.side.codec.maxUnits <= st.AvailableOutput()
        invariant st.output[..] == Splice(old(st.output[..]), old(st.outputCursor), out)
      {
        ghost var t := encoder.state;
        OneMore(|values| - k, encoder.side.codec.maxUnits);
        FirstOfTrail(encoder.side, t, ps[k..], st.AvailableOutput());
        assert ps[k..][1..] == ps[k + 1..];
        var end := EncodePending(PendingValue(values[k], 0), st);
        ghost var a := EncodeFreely(encoder.side, t, values[k], 0);
        if end.Some? {
          assert end.value.Err?;
          assert out + [] == out;
          return Some(end.value.error);
        }
        PrependNested(out, a.units, EncodeTrail(encoder.side, a.next, ps[k + 1..]));
        SpliceTwice(old(st.output[..]), old(st.outputCursor), out, a.units);
        out := out + a.units;
        k := k + 1;
      }
      assert ps[k..] == [];
      assert out + [] == out;
      return None;
    }

    /** The first value of a trail, when the widest encoding fits. */
    lemma FirstOfTrail(enc: EncodeSide<T, V, W, E>, t: T, ps: seq<PendingValue<V>>, room: nat)
      requires ConformsEncode(enc) && ps != [] && enc.codec.maxUnits <= room
      ensures var a := EncodeOne(enc, t, ps[0].value, ps[0].inputIndex, room);
              && a == EncodeFreely(enc, t, ps[0].value, ps[0].inputIndex)
              && !a.Blocked?
              && (a.Encoded? ==>
                    && |a.units| <= enc.codec.maxUnits
                    && EncodeTrail(enc, t, ps) == Prepend(a.units, EncodeTrail(enc, a.next, ps[1..])))
              && (a.Rejection? ==>
                    EncodeTrail(enc, t, ps) ==
                    Rejected([], FromEncodeErrorWithValue(a.error, ps[0].value), a.after))
    {
      RoomOnlyDelays(enc, t, ps[0].value, ps[0].inputIndex, room);
    }

    /** `drain_decoder_reset`: resets the source side and encodes the values that produces. */
    method DrainDecoderReset(st: TranscodeState<U, W>) returns (failure: Option<ConvertError<E, V>>)
      requires Conforms() && st.Valid() && pending.value == None
      requires decoder.side.codec.maxResetValues * encoder.side.codec.maxUnits <= st.AvailableOutput()
      modifies decoder, decoder.lifecycle, encoder, pending, st`outputCursor, st.output
      ensures st.Valid() && pending.value == None
      ensures match DecodeReset(decoder.side, old(decoder.state))
              case Rejected(_, error, after) =>
                && failure == Some(FromDecodeError(error)) && decoder.state == after
                && encoder.state == old(encoder.state)
                && st.output[..] == old(st.output[..])
              case Done(values, after) =>
                && decoder.state == after && decoder.lifecycle.phase == Fresh
                && |values| <= decoder.side.codec.maxResetValues
                && ValuesEncoded(values, old(encoder.state), failure, st, old(st.outputCursor), old(st.output[..]))
    {
      hide Faithful, ConformsDecode, ConformsEncode, DecodeReset, Splice, ValuesEncoded, Landed;
      var valueCount := decoder.side.codec.maxResetValues;
      ghost var decoded := DecodeReset(decoder.side, decoder.state);
      var resetValues := new V[valueCount];
      ghost var scratch := resetValues[..];
      var written := decoder.Reset(resetValues, 0);
      LandedInScratch(decoded, written, scratch, resetValues[..], decoder.state);
      if written.Err? {
        return Some(FromDecodeError(written.error));
      }
      if valueCount == 0 {
        NoValuesEncoded(st);
        return None;
      }
      MulMonotone(written.value, valueCount, encoder.side.codec.maxUnits);
      failure := EncodeValues(resetValues[..written.value], st);
    }

    lemma NoValuesEncoded(st: TranscodeState<U, W>)
      requires st.Valid() && pending.value == None
      ensures ValuesEncoded([], encoder.state, None, st, st.outputCursor, st.output[..])
    {
      SpliceNothing(st.output[..], st.outputCursor);
    }

    /** The part of a reset behind its preflight: target first, then the source and the values it produces. */
    method StartStream(st: TranscodeState<U, W>) returns (r: Result<usize, ConvertError<E, V>>)
      requires Conforms() && st.AtStart() && pending.value == None
      requires MaxResetOutputLen().Some? && MaxResetOutputLen().value <= st.AvailableOutput()
      modifies decoder, decoder.lifecycle, encoder, encoder.lifecycle, pending, st`outputCursor, st.output
      ensures Landed(ConvertReset(decoder.side, encoder.side, old(State())), r, old(st.output[..]), st.outputStart,
                     st.output[..], State())
      ensures r.Ok? ==>
                && r.value <= MaxResetOutputLen().value
                && decoder.lifecycle.phase == Fresh && encoder.lifecycle.phase == Fresh
    {
      hide Faithful, ConformsDecode, ConformsEncode, Splice, DecodeReset, EncodeReset, EncodeTrail;
      BoundIsEnough(encoder.side, decoder.side.codec.maxResetValues);
      ghost var before, q, at := st.output[..], State(), st.outputStart;
      var started := encoder.Reset(st.output, st.outputCursor);
      if started.Err? {
        return Err(FromEncodeError(started.error));
      }
      st.AdvanceOutput(started.value);
      ghost var first, t1 := EncodeReset(encoder.side, q.target).out, encoder.state;
      var failure := DrainDecoderReset(st);
      ghost var decoded := DecodeReset(decoder.side, q.source);
      if decoded.Done? {
        SpliceTwice(before, at, first, EncodeTrail(encoder.side, t1, Unlocated(decoded.out)).out);
        MulMonotone(|decoded.out|, decoder.side.codec.maxResetValues, encoder.side.codec.maxUnits);
      }
      if failure.Some? {
        return Err(failure.value);
      }
      return Ok(st.outputCursor - st.outputStart);
    }

    /** Starts a new logical stream from any state, poisoned or with a retained value.  A refused preflight changes
        nothing at all; the reserved room is always enough for what follows. */
    method Reset(output: array<W>, outputIndex: usize) returns (r: Result<usize, ConvertError<E, V>>)
      requires Conforms() && Coupled() && output.Length <= USIZE_MAX
      modifies decoder, decoder.lifecycle, encoder, encoder.lifecycle, pending, lifecycle, output
      ensures Coupled()
      ensures var refusal := Preflight(None, MaxResetOutputLen(), output.Length, outputIndex);
              if refusal.Some? then
                && r == Err(ConvertFramework(refusal.value))
                && State() == old(State()) && lifecycle.phase == old(lifecycle.phase) && output[..] == old(output[..])
              else
                && Landed(ConvertReset(decoder.side, encoder.side, old(State())), r, old(output[..]), outputIndex,
                          output[..], State())
                && (r.Ok? ==> r.value <= MaxResetOutputLen().value)
                && lifecycle.phase == if r.Ok? then Fresh else Poisoned
    {
      hide Faithful, ConformsDecode, ConformsEncode, Landed;
      var refusal := Preflight(None, MaxResetOutputLen(), output.Length, outputIndex);
      if refusal.Some? {
        return Err(ConvertFramework(refusal.value));
      }
      lifecycle.OnResetStart();
      ResetForgetsPending(State());
      pending.Clear();
      var st := new TranscodeState<U, W>([], 0, output, outputIndex);
      r := StartStream(st);
      if r.Ok? {
        lifecycle.OnResetSuccess();
      }
    }

    lemma ResetForgetsPending(q: Conv<S, T, V>)
      ensures ConvertReset(decoder.side, encoder.side, q) ==
              ConvertReset(decoder.side, encoder.side, Conv(q.source, q.target, None))
    {
    }

    /** `drain_decoder_finish`: finishes the source side and encodes the values that produces.  The source guard
        cannot refuse: it is fresh whenever the converter's own guard lets a finish through. */
    method DrainDecoderFinish(st: TranscodeState<U, W>) returns (failure: Option<ConvertError<E, V>>)
      requires Conforms() && st.Valid() && pending.value == None && decoder.lifecycle.phase == Fresh
      requires decoder.MaxFinishOutputLen().Some?
      requires decoder.MaxFinishOutputLen().value * encoder.side.codec.maxUnits <= st.AvailableOutput()
      modifies decoder, decoder.lifecycle, encoder, pending, st`outputCursor, st.output
      ensures st.Valid() && pending.value == None
      ensures match DecodeFinish(decoder.side, old(decoder.state))
              case Rejected(_, error, after) =>
                && failure == Some(FromDecodeError(error)) && decoder.state == after
                && encoder.state == old(encoder.state)
                && st.output[..] == old(st.output[..])
              case Done(values, after) =>
                && decoder.state == after && decoder.lifecycle.phase == Finished
                && |values| <= decoder.MaxFinishOutputLen().value
                && ValuesEncoded(values, old(encoder.state), failure, st, old(st.outputCursor), old(st.output[..]))
    {
      hide Faithful, ConformsDecode, ConformsEncode, DecodeFinish, Splice, ValuesEncoded, Landed;
      var valueCount := decoder.MaxFinishOutputLen().value;
      ghost var decoded := DecodeFinish(decoder.side, decoder.state);
      var finishValues := new V[valueCount];
      ghost var scratch := finishValues[..];
      var written := decoder.Finish(finishValues, 0);
      LandedInScratch(decoded, written, scratch, finishValues[..], decoder.state);
      if written.Err? {
        return Some(FromDecodeError(written.error));
      }
      if valueCount == 0 {
        NoValuesEncoded(st);
        return None;
      }
      MulMonotone(written.value, valueCount, encoder.side.codec.maxUnits);
      failure := EncodeValues(finishValues[..written.value], st);
    }

    /** A retained value alone, as a trail. */
    lemma PendingIsTrail(q: Conv<S, T, V>, room: nat)
      requires Conforms() && q.pending.Some? && encoder.side.codec.maxUnits <= room
      ensures !TakenStep(q, q.pending.value, room).Stop?
      ensures var step := TakenStep(q, q.pending.value, room);
              var trail := EncodeTrail(encoder.side, q.target, PendingTrail(q.pending));
              && (step.Go? ==>
                    && |step.out| <= encoder.side.codec.maxUnits
                    && step.next == Conv(q.source, step.next.target, None)
                    && trail == Done(step.out, step.next.target))
              && (step.Fail? ==>
                    && step.after == Conv(q.source, step.after.target, None)
                    && trail == Rejected([], step.error, step.after.target))
    {
      hide EncodeOne, EncodeFreely, Faithful;
      var p := q.pending.value;
      FirstOfTrail(encoder.side, q.target, [p], room);
      assert [p][1..] == [];
      var a := EncodeOne(encoder.side, q.target, p.value, p.inputIndex, room);
      if a.Encoded? {
        assert a.units + [] == a.units;
      }
    }

    /** Source finish values and the target trailer. */
    method CloseStream(st: TranscodeState<U, W>) returns (r: Result<usize, ConvertError<E, V>>)
      requires Conforms() && st.Valid() && pending.value == None
      requires decoder.lifecycle.phase == Fresh && encoder.lifecycle.phase == Fresh
      requires FinishOutputLen(Some(0)).Some? && FinishOutputLen(Some(0)).value <= st.AvailableOutput()
      modifies decoder, decoder.lifecycle, encoder, encoder.lifecycle, pending, st`outputCursor, st.output
      ensures Landed(ConvertTrailer(decoder.side, encoder.side, old(decoder.state), old(encoder.state)), r,
                     old(st.output[..]), old(st.outputCursor), st.output[..], State())
      ensures r.Ok? ==>
                && r.value <= FinishOutputLen(Some(0)).value
                && decoder.lifecycle.phase == Finished && encoder.lifecycle.phase == Finished
    {
      hide Faithful, ConformsDecode, ConformsEncode, Splice, DecodeFinish, EncodeFinish, EncodeTrail;
      var values := decoder.MaxFinishOutputLen().value;
      BoundIsEnough(encoder.side, values);
      var at := st.outputCursor;
      ghost var before, q := st.output[..], State();
      var failure := DrainDecoderFinish(st);
      ghost var decoded := DecodeFinish(decoder.side, q.source);
      if failure.Some? {
        SpliceNothing(before, at);
        return Err(failure.value);
      }
      ghost var body := EncodeTrail(encoder.side, q.target, Unlocated(decoded.out)).out;
      MulMonotone(|decoded.out|, values, encoder.side.codec.maxUnits);
      ghost var t1 := encoder.state;
      var closed := encoder.Finish(st.output, st.outputCursor);
      SpliceTwice(before, at, body, EncodeFinish(encoder.side, t1).out);
      if closed.Err? {
        return Err(FromEncodeError(closed.error));
      }
      st.AdvanceOutput(closed.value);
      return Ok(st.outputCursor - at);
    }

    /** The part of a finish behind its preflight: the retained value, then the stream ends. */
    method DrainAndClose(st: TranscodeState<U, W>) returns (r: Result<usize, ConvertError<E, V>>)
      requires Conforms() && st.AtStart()
      requires decoder.lifecycle.phase == Fresh && encoder.lifecycle.phase == Fresh
      requires CurrentFinishOutputLen().Some? && CurrentFinishOutputLen().value <= st.AvailableOutput()
      modifies decoder, decoder.lifecycle, encoder, encoder.lifecycle, pending, st`outputCursor, st.output
      ensures Landed(ConvertFinish(decoder.side, encoder.side, old(State())), r, old(st.output[..]), st.outputStart,
                     st.output[..], State())
      ensures r.Ok? ==>
                && r.value <= old(CurrentFinishOutputLen().value)
                && decoder.lifecycle.phase == Finished && encoder.lifecycle.phase == Finished
    {
      hide Faithful, ConformsDecode, ConformsEncode, Splice, EncodeTrail, ConvertTrailer, EncodeOne, Landed;
      ghost var before, at, q, room := st.output[..], st.outputStart, State(), st.AvailableOutput();
      ghost var trailer := ConvertTrailer(decoder.side, encoder.side, q.source, q.target);
      SpliceNothing(before, at);
      PrependNested([], [], trailer);
      EmptyTrail(q.target);
      if q.pending.Some? {
        BoundIsEnough(encoder.side, 1);
        PendingIsTrail(q, room);
      }
      var end := DrainPending(st);
      if end.Some? {
        assert end.value.Err?;
        LandedRejection(ConvertFinish(decoder.side, encoder.side, q), end.value.error, before, at, State());
        return Err(end.value.error);
      }
      ghost var first := EncodeTrail(encoder.side, q.target, PendingTrail(q.pending)).out;
      ghost var middle, rest := st.output[..], ConvertTrailer(decoder.side, encoder.side, q.source, encoder.state);
      var drained := st.outputCursor - st.outputStart;
      var closed := CloseStream(st);
      r := if closed.Ok? then Ok(drained + closed.value) else closed;
      LandedPrepend(first, rest, closed, before, at, middle, st.output[..], State(), r);
    }

    lemma EmptyTrail(t: T)
      ensures EncodeTrail(encoder.side, t, []) == Done([], t)
    {
    }

    /** Closes the stream.  A refused preflight changes nothing at all; a finish this guard accepts is never refused
        by an inner guard, and its reserved room is always enough. */
    method Finish(output: array<W>, outputIndex: usize) returns (r: Result<usize, ConvertError<E, V>>)
      requires Conforms() && Coupled() && output.Length <= USIZE_MAX
      modifies decoder, decoder.lifecycle, encoder, encoder.lifecycle, pending, lifecycle, output
      ensures Coupled()
      ensures var refusal := Preflight(FinishRefusal(old(lifecycle.phase)), old(CurrentFinishOutputLen()),
                                       output.Length, outputIndex);
              if refusal.Some? then
                && r == Err(ConvertFramework(refusal.value))
                && State() == old(State()) && lifecycle.phase == old(lifecycle.phase) && output[..] == old(output[..])
              else
                && Landed(ConvertFinish(decoder.side, encoder.side, old(State())), r, old(output[..]), outputIndex,
                          output[..], State())
                && (r.Ok? ==> r.value <= old(CurrentFinishOutputLen()).value)
                && lifecycle.phase == if r.Ok? then Finished else Poisoned
    {
      hide Faithful, ConformsDecode, ConformsEncode, Landed, ConvertFinish;
      var refusal := lifecycle.OnFinishAttempt();
      refusal := Preflight(refusal, CurrentFinishOutputLen(), output.Length, outputIndex);
      if refusal.Some? {
        return Err(ConvertFramework(refusal.value));
      }
      assert decoder.lifecycle.phase == Fresh && encoder.lifecycle.phase == Fresh;
      lifecycle.OnFinishStart();
      var st := new TranscodeState<U, W>([], 0, output, outputIndex);
      r := DrainAndClose(st);
      if r.Ok? {
        lifecycle.OnFinishSuccess();
      }
    }

    // -------------------------------------------------------------------------------------------------------
    // One shot
    // -------------------------------------------------------------------------------------------------------

    /** The main phase of a one-shot stream with enough room runs to the end and retains nothing. */
    lemma MainPhaseFits(input: seq<U>, q: Conv<S, T, V>, room: nat)
      requires Conforms() && DecodeBoundCovers(decoder.side) && |input| <= USIZE_MAX && q.pending == None
      requires MaxTranscodeOutputLen(|input|).Some? && MaxTranscodeOutputLen(|input|).value <= room
      ensures var c := Call(Machine(), q, input, 0, room, true);
              if c.Failed? then Oracle(Machine(), input, q, 0) == Rejected(c.out, c.error, c.after)
              else
                && c.status.Complete? && |c.out| <= MaxTranscodeOutputLen(|input|).value && c.next.pending == None
                && Oracle(Machine(), input, q, 0) == Done(c.out, c.next)
    {
      hide Call, Oracle, Faithful;
      assert DemandCovered(decoder.side, input, q.source);
      var values := decoder.MaxTranscodeOutputLen(|input|).value;
      BoundIsEnough(encoder.side, values);
      MulMonotone(Demand(decoder.side, input, q.source, 0), values, encoder.side.codec.maxUnits);
      ConvertNeverBlocks(decoder.side, encoder.side, input, q, 0, room);
      CompleteCallIsOracle(Machine(), input, q, 0, room);
    }

    /** One-shot conversion.  An output as long as the total bound never runs out: the result is the converted stream
        or its rejection.  A refused preflight changes nothing at all. */
    method TranscodeCompleteInto(input: seq<U>, output: array<W>) returns (r: Result<usize, ConvertError<E, V>>)
      requires Conforms() && Coupled() && DecodeBoundCovers(decoder.side)
      requires |input| <= USIZE_MAX && output.Length <= USIZE_MAX
      modifies decoder, decoder.lifecycle, encoder, encoder.lifecycle, pending, lifecycle, output
      ensures Coupled()
      ensures var refusal := Preflight(None, MaxTotalOutputLen(|input|), output.Length, 0);
              if refusal.Some? then
                && r == Err(ConvertFramework(refusal.value))
                && State() == old(State()) && lifecycle.phase == old(lifecycle.phase) && output[..] == old(output[..])
              else
                && Landed(ConvertStream(decoder.side, encoder.side, old(State()), input), r, old(output[..]), 0,
                          output[..], State())
                && (r.Ok? ==> lifecycle.phase == Finished)
    {
      hide Call, Oracle, Faithful, ConformsDecode, ConformsEncode, DecodeBoundCovers, ConvertReset, ConvertFinish,
           Splice, MaxResetOutputLen, MaxTranscodeOutputLen, MaxFinishOutputLen, MaxTotalOutputLen,
           CurrentFinishOutputLen;
      var refusal := Preflight(None, MaxTotalOutputLen(|input|), output.Length, 0);
      if refusal.Some? {
        return Err(ConvertFramework(refusal.value));
      }
      TotalParts(|input|);
      ghost var before, q0 := output[..], State();
      var resetResult := Reset(output, 0);
      if resetResult.Err? {
        return Err(resetResult.error);
      }
      var cursor := resetResult.value;
      ghost var first, q1 := ConvertReset(decoder.side, encoder.side, q0).out, State();
      ResetRetainsNothing(q0);
      MainPhaseFits(input, q1, output.Length - cursor);
      var progress := Transcode(input, 0, output, cursor, true);
      ghost var c := Call(Machine(), q1, input, 0, output.Length - cursor, true);
      SpliceTwice(before, 0, first, c.out);
      if progress.Err? {
        return Err(progress.error);
      }
      var written := CompleteProgressWritten(progress.value, |input|, cursor, output.Length);
      assert written.Ok?;
      cursor := cursor + written.value;
      ghost var last := ConvertFinish(decoder.side, encoder.side, State());
      CurrentFinishIsSmaller();
      r := Finish(output, cursor);
      SpliceTwice(before, 0, first + c.out, last.out);
      if r.Ok? {
        return Ok(cursor + r.value);
      }
    }

    /** The total bound is the sum of the three parts, whenever they and the sum are in range. */
    lemma TotalParts(inputLen: usize)
      ensures var reset, finish := MaxResetOutputLen(), MaxFinishOutputLen();
              var transcode, total := MaxTranscodeOutputLen(inputLen), MaxTotalOutputLen(inputLen);
              && (total.Some? <==>
                    && reset.Some? && transcode.Some? && finish.Some?
                    && reset.value + transcode.value + finish.value <= USIZE_MAX)
              && (total.Some? ==> total.value == reset.value + transcode.value + finish.value)
    {
    }

    lemma ResetRetainsNothing(q: Conv<S, T, V>)
      ensures ConvertReset(decoder.side, encoder.side, q).Done? ==>
                ConvertReset(decoder.side, encoder.side, q).final.pending == None
    {
    }

    /** The finish bound of the current state never exceeds the planned one. */
    lemma CurrentFinishIsSmaller()
      requires MaxFinishOutputLen().Some?
      ensures CurrentFinishOutputLen().Some? && CurrentFinishOutputLen().value <= MaxFinishOutputLen().value
    {
    }
  }
}
