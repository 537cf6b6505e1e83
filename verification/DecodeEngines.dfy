/** The buffered decode engine, proved against the decode machine. */
module DecodeEngines {
  import opened Basics
  import opened Progress
  import opened Codecs
  import opened Streaming
  import opened Decoding
  import opened Capacity
  import opened Lifecycles
  import opened Lifecycle
  import opened Buffers

  class DecodeEngine<S(!new), U(!new), V(!new), E(!new)> {
    const side: DecodeSide<S, U, V, E>
    const lifecycle: LifecycleGuard
    var state: S

    ghost predicate Conforms() { ConformsDecode(side) && Faithful(DecodeMachine(side)) }

    constructor (side: DecodeSide<S, U, V, E>, state: S)
      requires ConformsDecode(side)
      ensures Conforms() && this.side == side && this.state == state
      ensures fresh(lifecycle) && lifecycle.phase == Uninitialized
    {
      DecodeFaithful(side);
      this.side, this.state := side, state;
      lifecycle := new LifecycleGuard();
    }

    function MaxTranscodeOutputLen(inputLen: usize): Option<usize> { side.hooks.maxTranscode(inputLen) }

    function MaxFinishOutputLen(): Option<usize> { CheckedAdd(side.codec.maxFinishValues, side.hooks.maxFinish) }

    function MaxResetOutputLen(): Option<usize> { Some(side.codec.maxResetValues) }

    /** Bound of a complete stream: reset, main phase and finish. */
    function MaxTotalOutputLen(inputLen: usize): Option<usize> {
      match (MaxTranscodeOutputLen(inputLen), MaxFinishOutputLen())
      case (Some(transcode), Some(finish)) => CheckedSum(side.codec.maxResetValues, transcode, finish)
      case _ => None
    }

    /** Starts a new logical stream.  A refused preflight changes nothing at all. */
    method Reset(output: array<V>, outputIndex: usize) returns (r: Result<usize, DecodeError<E>>)
      requires Conforms() && output.Length <= USIZE_MAX
      modifies this, lifecycle, output
      ensures var refusal := Preflight(None, MaxResetOutputLen(), output.Length, outputIndex);
              if refusal.Some? then
                && r == Err(DecodeFramework(refusal.value))
                && state == old(state) && lifecycle.phase == old(lifecycle.phase) && output[..] == old(output[..])
              else
                && Landed(DecodeReset(side, old(state)), r, old(output[..]), outputIndex, output[..], state)
                && (r.Ok? ==> r.value <= side.codec.maxResetValues)
                && lifecycle.phase == if r.Ok? then Fresh else Poisoned
    {
      var required := side.codec.maxResetValues;
      var refusal := EnsureOutputCapacity(output.Length, outputIndex, required);
      if refusal.Some? {
        return Err(DecodeFramework(refusal.value));
      }
      lifecycle.OnResetStart();
      state := side.hooks.resetHooks(state);
      DecodeEnds(side, state);
      match side.codec.decodeReset(state) {
        case WriteFailed(error, after) =>
          state := after;
          SpliceNothing(output[..], outputIndex);
          return Err(DecodeDomain(ResetError(error)));
        case Wrote(values, next) =>
          assert |values| <= required;
          Write(output, outputIndex, values);
          state := next;
          lifecycle.OnResetSuccess();
          return Ok(|values|);
      }
    }

    /** `decode_one`: one attempt on the visible rest of the input. */
    method AttemptOne(input: seq<U>, index: nat, eof: bool) returns (e: Event<S, V, E>)
      requires Conforms() && index < |input|
      modifies this
      ensures e == DecodeOne(side, old(state), input[index..], index, eof)
      ensures match e
              case Starved(_) => state == old(state)
              case Emitted(_, read, next) => state == next && 0 < read <= |input| - index
              case Skipped(read, next) => state == next && 0 < read <= |input| - index
              case Refuted(_, after) => state == after
    {
      var units := input[index..];
      var available := |units|;
      EventIsFinal(side, state, units, units, index, eof);
      if available < side.codec.minUnits {
        if !eof {
          return Starved(side.codec.minUnits);
        }
        e := SettleTail(None, side.codec.minUnits, available, index);
        return;
      }
      assert DecodeAgrees(side, state, units, units);
      var result := if eof then side.codec.decodeEof(state, units) else side.codec.decode(state, units);
      match result {
        case Decoded(value, consumed, next) =>
          assert consumed <= available && consumed <= side.codec.maxUnits;
          state := next;
          return Emitted(value, consumed, next);
        case Incomplete(source, required) =>
          assert available < required <= side.codec.maxUnits;
          if !eof {
            return Starved(required);
          }
          e := SettleTail(source, required, available, index);
        case Invalid(error, span) =>
          match side.hooks.handleInvalid(state, error, span) {
            case Refused(refusal, after) =>
              state := after;
              return Refuted(refusal, after);
            case Ruled(action, next) =>
              state := next;
              match action {
                case RejectInvalid => return Refuted(DecodeDomain(MainError(error, index, span)), next);
                case SkipInvalid(consumed) =>
                  assert 0 < consumed <= available;
                  return Skipped(consumed, next);
                case EmitInvalid(value, consumed) =>
                  assert 0 < consumed <= available;
                  return Emitted(value, consumed, next);
              }
          }
      }
    }

    /** `apply_incomplete_decode`. */
    method SettleTail(source: Option<E>, required: usize, available: nat, index: nat) returns (e: Event<S, V, E>)
      modifies this
      ensures e == ApplyIncomplete(side, old(state), source, required, available, index)
      ensures e.Emitted? || e.Skipped? ==> state == e.next
      ensures e.Refuted? ==> state == e.after
    {
      match side.hooks.handleIncomplete(state, source, required) {
        case Refused(error, after) =>
          state := after;
          return Refuted(error, after);
        case Ruled(action, next) =>
          state := next;
          match action {
            case SkipTail => return Skipped(available, next);
            case EmitTail(value) => return Emitted(value, available, next);
            case RejectTail =>
              if source.Some? {
                return Refuted(DecodeDomain(MainError(source.value, index, None)), next);
              }
              return Refuted(DecodeFramework(IncompleteInput(index, required, available)), next);
          }
      }
    }

    /** One turn of the loop: an output slot is demanded before the codec or a hook sees the units. */
    method Turn(st: TranscodeState<U, V>, eof: bool) returns (end: Option<Result<TranscodeProgress, DecodeError<E>>>)
      requires Conforms() && st.Valid() && st.HasInput()
      modifies this, st, st.output
      ensures st.Valid()
      ensures var step := DecodeStep(side, old(state), st.input, old(st.inputCursor), old(st.AvailableOutput()), eof);
              match step
              case Stop(status) =>
                && end == Some(Ok(st.Report(status)))
                && state == old(state) && unchanged(st) && st.output[..] == old(st.output[..])
              case Fail(error, after) =>
                end == Some(Err(error)) && state == after && unchanged(st) && st.output[..] == old(st.output[..])
              case Go(read, out, next) =>
                && end == None && state == next
                && st.inputCursor == old(st.inputCursor) + read && st.outputCursor == old(st.outputCursor) + |out|
                && st.output[..] == Splice(old(st.output[..]), old(st.outputCursor), out)
    {
      hide DecodeOne, Faithful;
      var minUnits := side.codec.minUnits;
      if st.AvailableInput() < minUnits && !eof {
        return Some(Ok(st.Report(NeedInput(minUnits))));
      }
      if st.outputCursor == st.output.Length {
        return Some(Ok(st.Report(NeedOutput(1))));
      }
      var e := AttemptOne(st.input, st.inputCursor, eof);
      match e {
        case Starved(required) =>
          return Some(Ok(st.Report(NeedInput(required))));
        case Refuted(error, _) =>
          return Some(Err(error));
        case Skipped(read, _) =>
          SpliceNothing(st.output[..], st.outputCursor);
          st.AdvanceInput(read);
          return None;
        case Emitted(value, read, _) =>
          Write(st.output, st.outputCursor, [value]);
          st.AdvanceInput(read);
          st.AdvanceOutput(1);
          return None;
      }
    }

    /** The loop of one call: turns until one of them ends it. */
    method Run(st: TranscodeState<U, V>, eof: bool) returns (r: Result<TranscodeProgress, DecodeError<E>>)
      requires Conforms() && st.AtStart()
      modifies this, st, st.output
      ensures Reported(Call(DecodeMachine(side), old(state), st.input, st.inputStart, st.Room(), eof),
                       r, old(st.output[..]), st.outputStart, st.output[..], state)
    {
      hide Call, DecodeOne, DecodeStep, Faithful, Splice, Resume, Reached, Reported;
      ghost var m, before := DecodeMachine(side), st.output[..];
      ghost var c0 := Call(m, state, st.input, st.inputStart, st.Room(), eof);
      ghost var out: seq<V> := [];
      ReachedStart(c0, before, st.outputStart);
      while st.HasInput()
        invariant st.Valid() && |out| == st.outputCursor - st.outputStart
        invariant Reached(c0, Call(m, state, st.input, st.inputCursor, st.AvailableOutput(), eof),
                          st.inputCursor - st.inputStart, out, before, st.outputStart, st.output[..])
        decreases |st.input| - st.inputCursor
      {
        ghost var i, left, now := st.inputCursor, st.AvailableOutput(), st.output[..];
        ghost var rest := Call(m, state, st.input, i, left, eof);
        ghost var step := DecodeStep(side, state, st.input, i, left, eof);
        DecodeCallUnfolds(side, state, st.input, i, left, eof, step);
        var end := Turn(st, eof);
        if end.Some? {
          ReachedEnd(c0, rest, i - st.inputStart, out, before, st.outputStart, now);
          return end.value;
        }
        ReachedMore(c0, rest, i - st.inputStart, out, before, st.outputStart, now, step.read, step.out,
                    Call(m, state, st.input, st.inputCursor, st.AvailableOutput(), eof), st.output[..]);
        out := out + step.out;
      }
      DecodeStepAtEnd(side, state, st.input, st.AvailableOutput(), eof);
      DecodeCallUnfolds(side, state, st.input, |st.input|, st.AvailableOutput(), eof, Stop(Complete));
      ReachedEnd(c0, Stopped(Complete, 0, [], state), st.inputCursor - st.inputStart, out, before, st.outputStart,
                 st.output[..]);
      return Ok(st.Report(Complete));
    }

    /** Streams input into values until one of the three stopping reasons.  Its progress is always valid for the
        bounds of the call, and at end of input it never asks for more. */
    method Transcode(input: seq<U>, inputIndex: usize, output: array<V>, outputIndex: usize, eof: bool)
      returns (r: Result<TranscodeProgress, DecodeError<E>>)
      requires Conforms() && |input| <= USIZE_MAX && output.Length <= USIZE_MAX
      modifies this, lifecycle, output
      ensures var refusal := TranscodeRefusal(old(lifecycle.phase));
              var misfit := EnsureTranscodeIndices(|input|, inputIndex, output.Length, outputIndex);
              if refusal.Some? || misfit.Some? then
                && r == Err(DecodeFramework(if refusal.Some? then refusal.value else misfit.value))
                && state == old(state) && output[..] == old(output[..])
              else
                && Reported(Call(DecodeMachine(side), old(state), input, inputIndex, output.Length - outputIndex, eof),
                            r, old(output[..]), outputIndex, output[..], state)
                && (r.Ok? ==> Honest(r.value, |input| - inputIndex, output.Length - outputIndex)
                              && (eof ==> !r.value.status.NeedInput?))
      ensures lifecycle.phase ==
              if TranscodeRefusal(old(lifecycle.phase)).None? then Phase.Streaming else old(lifecycle.phase)
    {
      hide Call, Faithful;
      var refusal := lifecycle.OnTranscode();
      if refusal.Some? {
        return Err(DecodeFramework(refusal.value));
      }
      var misfit := EnsureTranscodeIndices(|input|, inputIndex, output.Length, outputIndex);
      if misfit.Some? {
        return Err(DecodeFramework(misfit.value));
      }
      CallIsSound(input, inputIndex, output.Length - outputIndex, eof, state);
      var st := new TranscodeState(input, inputIndex, output, outputIndex);
      r := Run(st, eof);
    }

    /** What the streaming theory says about the call this engine is about to make. */
    lemma CallIsSound(input: seq<U>, i: nat, room: nat, eof: bool, s: S)
      requires Conforms() && i <= |input|
      ensures var c := Call(DecodeMachine(side), s, input, i, room, eof);
              c.Stopped? ==>
                && Honest(TranscodeProgress(c.status, c.read, |c.out|), |input| - i, room)
                && (eof ==> !c.status.NeedInput?)
    {
      assert input[..|input|] == input;
      CallFollowsOracle(DecodeMachine(side), input, |input|, s, i, room, eof);
    }

    /** Closes the stream: codec first, hooks second.  A refused preflight changes nothing at all. */
    method Finish(output: array<V>, outputIndex: usize) returns (r: Result<usize, DecodeError<E>>)
      requires Conforms() && output.Length <= USIZE_MAX
      modifies this, lifecycle, output
      ensures var refusal := Preflight(FinishRefusal(old(lifecycle.phase)), MaxFinishOutputLen(), output.Length,
                                       outputIndex);
              if refusal.Some? then
                && r == Err(DecodeFramework(refusal.value))
                && state == old(state) && lifecycle.phase == old(lifecycle.phase) && output[..] == old(output[..])
              else
                && Landed(DecodeFinish(side, old(state)), r, old(output[..]), outputIndex, output[..], state)
                && (r.Ok? ==> r.value <= MaxFinishOutputLen().value)
                && lifecycle.phase == if r.Ok? then Finished else Poisoned
    {
      hide ConformsDecode, Faithful, Splice, Landed, DecodeFinish;
      var refusal := lifecycle.OnFinishAttempt();
      if refusal.Some? {
        return Err(DecodeFramework(refusal.value));
      }
      var hookRequired := side.hooks.maxFinish;
      var required := CheckedAdd(side.codec.maxFinishValues, hookRequired);
      if required.None? {
        return Err(DecodeFramework(OutputLengthOverflow));
      }
      refusal := EnsureOutputCapacity(output.Length, outputIndex, required.value);
      if refusal.Some? {
        return Err(DecodeFramework(refusal.value));
      }
      lifecycle.OnFinishStart();
      r := Close(output, outputIndex);
      if r.Ok? {
        lifecycle.OnFinishSuccess();
      }
    }

    /** The part of a finish behind its preflight: the codec, then the hooks behind what it wrote. */
    method Close(output: array<V>, at: usize) returns (r: Result<usize, DecodeError<E>>)
      requires Conforms() && MaxFinishOutputLen().Some? && output.Length <= USIZE_MAX
      requires at + MaxFinishOutputLen().value <= output.Length
      modifies this, output
      ensures Landed(DecodeFinish(side, old(state)), r, old(output[..]), at, output[..], state)
      ensures r.Ok? ==> r.value <= MaxFinishOutputLen().value
    {
      hide ConformsDecode, Faithful, Splice;
      DecodeEnds(side, state);
      match side.codec.decodeFinish(state) {
        case WriteFailed(error, after) =>
          state := after;
          SpliceNothing(output[..], at);
          return Err(DecodeDomain(FinishError(error)));
        case Wrote(values, next) =>
          assert |values| <= side.codec.maxFinishValues;
          Write(output, at, values);
          state := next;
          DecodeEnds(side, state);
          match side.hooks.finishHooks(state) {
            case WriteFailed(error, after) =>
              state := after;
              return Err(error);
            case Wrote(more, last) =>
              assert |more| <= side.hooks.maxFinish;
              SpliceTwice(old(output[..]), at, values, more);
              Write(output, at + |values|, more);
              state := last;
              return Ok(|values| + |more|);
          }
      }
    }

    /** The main phase of a one-shot stream with enough room runs to the end. */
    lemma MainPhaseFits(input: seq<U>, s: S, room: nat)
      requires Conforms() && DecodeBoundCovers(side) && |input| <= USIZE_MAX
      requires MaxTranscodeOutputLen(|input|).Some? && MaxTranscodeOutputLen(|input|).value <= room
      ensures var c := Call(DecodeMachine(side), s, input, 0, room, true);
              if c.Failed? then Oracle(DecodeMachine(side), input, s, 0) == Rejected(c.out, c.error, c.after)
              else
                && c.status.Complete? && |c.out| <= MaxTranscodeOutputLen(|input|).value
                && Oracle(DecodeMachine(side), input, s, 0) == Done(c.out, c.next)
    {
      assert DemandCovered(side, input, s);
      DecodeNeverBlocks(side, input, s, 0, room);
      CompleteCallIsOracle(DecodeMachine(side), input, s, 0, room);
    }

    /** The total bound is the sum of the three parts, whenever they and the sum are in range. */
    lemma TotalParts(inputLen: usize)
      ensures MaxResetOutputLen() == Some(side.codec.maxResetValues)
      ensures var transcode, finish := MaxTranscodeOutputLen(inputLen), MaxFinishOutputLen();
              var total := MaxTotalOutputLen(inputLen);
              && (total.Some? <==>
                    && transcode.Some? && finish.Some?
                    && side.codec.maxResetValues + transcode.value + finish.value <= USIZE_MAX)
              && (total.Some? ==> total.value == side.codec.maxResetValues + transcode.value + finish.value)
    {
    }

    /** One-shot decoding.  An output as long as the total bound never runs out: the result is the decoded stream or
        its rejection.  A refused preflight changes nothing at all. */
    method TranscodeCompleteInto(input: seq<U>, output: array<V>) returns (r: Result<usize, DecodeError<E>>)
      requires Conforms() && DecodeBoundCovers(side) && |input| <= USIZE_MAX && output.Length <= USIZE_MAX
      modifies this, lifecycle, output
      ensures var refusal := Preflight(None, MaxTotalOutputLen(|input|), output.Length, 0);
              if refusal.Some? then
                && r == Err(DecodeFramework(refusal.value))
                && state == old(state) && lifecycle.phase == old(lifecycle.phase) && output[..] == old(output[..])
              else
                && Landed(DecodeStream(side, old(state), input), r, old(output[..]), 0, output[..], state)
                && (r.Ok? ==> lifecycle.phase == Finished)
    {
      hide Call, Oracle, Faithful, ConformsDecode, DecodeBoundCovers, DecodeReset, DecodeFinish, Splice,
           MaxTotalOutputLen, MaxTranscodeOutputLen, MaxFinishOutputLen;
      var refusal := Preflight(None, MaxTotalOutputLen(|input|), output.Length, 0);
      if refusal.Some? {
        return Err(DecodeFramework(refusal.value));
      }
      TotalParts(|input|);
      ghost var before, s0 := output[..], state;
      var resetResult := Reset(output, 0);
      if resetResult.Err? {
        return Err(resetResult.error);
      }
      var cursor := resetResult.value;
      ghost var first, s1 := DecodeReset(side, s0).out, state;
      MainPhaseFits(input, s1, output.Length - cursor);
      var progress := Transcode(input, 0, output, cursor, true);
      ghost var c := Call(DecodeMachine(side), s1, input, 0, output.Length - cursor, true);
      SpliceTwice(before, 0, first, c.out);
      if progress.Err? {
        return Err(progress.error);
      }
      var written := CompleteProgressWritten(progress.value, |input|, cursor, output.Length);
      assert written.Ok?;
      cursor := cursor + written.value;
      ghost var last := DecodeFinish(side, state);
      r := Finish(output, cursor);
      SpliceTwice(before, 0, first + c.out, last.out);
      if r.Ok? {
        return Ok(cursor + r.value);
      }
    }
  }
}
