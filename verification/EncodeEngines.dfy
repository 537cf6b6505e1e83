/** The buffered encode engine, proved against the encode machine. */
module EncodeEngines {
  import opened Basics
  import opened Progress
  import opened Codecs
  import opened Streaming
  import opened Encoding
  import opened Lifecycles
  import opened Lifecycle
  import opened Buffers
  import opened Capacity

  class EncodeEngine<T(!new), V(!new), W(!new), E(!new)> {
    const side: EncodeSide<T, V, W, E>
    const lifecycle: LifecycleGuard
    var state: T

    ghost predicate Conforms() { ConformsEncode(side) && Faithful(EncodeMachine(side)) }

    constructor (side: EncodeSide<T, V, W, E>, state: T)
      requires ConformsEncode(side)
      ensures Conforms() && this.side == side && this.state == state
      ensures fresh(lifecycle) && lifecycle.phase == Uninitialized
    {
      EncodeFaithful(side);
      this.side, this.state := side, state;
      lifecycle := new LifecycleGuard();
    }

    function MaxTranscodeOutputLen(inputLen: usize): Option<usize> { side.hooks.maxTranscode(inputLen) }

    function MaxResetOutputLen(): Option<usize> { Some(side.codec.maxResetUnits) }

    function MaxFinishOutputLen(): Option<usize> { CheckedAdd(side.codec.maxFinishUnits, side.hooks.maxFinish) }

    /** Bound of a complete stream: reset, main phase and finish. */
    function MaxTotalOutputLen(inputLen: usize): Option<usize> {
      match (MaxTranscodeOutputLen(inputLen), MaxFinishOutputLen())
      case (Some(transcode), Some(finish)) => CheckedSum(side.codec.maxResetUnits, transcode, finish)
      case _ => None
    }

    /** Starts a new logical stream.  A refused preflight changes nothing at all. */
    method Reset(output: array<W>, outputIndex: usize) returns (r: Result<usize, EncodeError<E, V>>)
      requires Conforms() && output.Length <= USIZE_MAX
      modifies this, lifecycle, output
      ensures var refusal := Preflight(None, MaxResetOutputLen(), output.Length, outputIndex);
              if refusal.Some? then
                && r == Err(EncodeFramework(refusal.value))
                && state == old(state) && lifecycle.phase == old(lifecycle.phase) && output[..] == old(output[..])
              else
                && Landed(EncodeReset(side, old(state)), r, old(output[..]), outputIndex, output[..], state)
                && (r.Ok? ==> r.value <= side.codec.maxResetUnits)
                && lifecycle.phase == if r.Ok? then Fresh else Poisoned
    {
      var required := side.codec.maxResetUnits;
      var refusal := EnsureOutputCapacity(output.Length, outputIndex, required);
      if refusal.Some? {
        return Err(EncodeFramework(refusal.value));
      }
      lifecycle.OnResetStart();
      state := side.hooks.resetHooks(state);
      EncodeEnds(side, state);
      match side.codec.encodeReset(state) {
        case WriteFailed(error, after) =>
          state := after;
          SpliceNothing(output[..], outputIndex);
          return Err(EncodeDomain(ResetError(error)));
        case Wrote(units, next) =>
          assert |units| <= required;
          Write(output, outputIndex, units);
          state := next;
          lifecycle.OnResetSuccess();
          return Ok(|units|);
      }
    }

    /** Encodes one accepted value at its exact width. */
    method EncodeAccepted(v: V, index: nat, output: array<W>, at: usize)
      returns (a: Attempt<T, W, EncodeError<E, V>>)
      requires Conforms() && at <= output.Length && side.codec.canEncode(state, v)
      modifies this, output
      ensures a == EncodeFitting(side, old(state), v, index, output.Length - at)
      ensures Settled(a, old(state), old(output[..]), at, output[..])
    {
      assert EncodeExact(side, state, v);
      SpliceNothing(output[..], at);
      var required := side.codec.encodeLen(state, v);
      assert required <= side.codec.maxUnits;
      if output.Length - at < required {
        return Blocked(required);
      }
      match side.codec.encode(state, v) {
        case WriteFailed(error, after) =>
          state := after;
          return Rejection(EncodeDomain(MainError(error, index, None)), after);
        case Wrote(units, next) =>
          assert |units| == required;
          Write(output, at, units);
          state := next;
          return Encoded(units, next);
      }
    }

    /** State and buffer after an attempt: untouched when it was blocked. */
    ghost predicate Settled(
      a: Attempt<T, W, EncodeError<E, V>>, before: T, window: seq<W>, at: nat, after: seq<W>)
      reads this
    {
      match a
      case Blocked(_) => state == before && after == window
      case Rejection(_, next) => state == next && after == window
      case Encoded(units, next) => state == next && at + |units| <= |window| && after == Splice(window, at, units)
    }

    /** `encode_one`: at most one value, at most one policy decision, and none at all when the output is short. */
    method AttemptOne(v: V, index: nat, output: array<W>, at: usize)
      returns (a: Attempt<T, W, EncodeError<E, V>>)
      requires Conforms() && at <= output.Length
      modifies this, output
      ensures a == EncodeOne(side, old(state), v, index, output.Length - at)
      ensures Settled(a, old(state), old(output[..]), at, output[..])
    {
      if side.codec.canEncode(state, v) {
        a := EncodeAccepted(v, index, output, at);
        return;
      }
      SpliceNothing(output[..], at);
      var required := side.codec.maxUnits;
      if output.Length - at < required {
        return Blocked(required);
      }
      assert ReplacementEncodable(side, state, v);
      RoomOnlyDelays(side, state, v, index, output.Length - at);
      match side.hooks.handleUnencodable(state, v) {
        case Refused(error, after) =>
          state := after;
          return Rejection(error, after);
        case Ruled(action, next) =>
          state := next;
          match action {
            case RejectValue => return Rejection(EncodeUnencodable(index, None), next);
            case SkipValue => return Encoded([], next);
            case ReplaceValue(replacement) =>
              assert side.codec.canEncode(state, replacement);
              a := EncodeAccepted(replacement, index, output, at);
              assert !a.Blocked?;
          }
      }
    }

    /** One turn of the loop. */
    method Turn(st: TranscodeState<V, W>) returns (end: Option<Result<TranscodeProgress, EncodeError<E, V>>>)
      requires Conforms() && st.Valid() && st.HasInput()
      modifies this, st, st.output
      ensures st.Valid()
      ensures var step := EncodeStep(side, old(state), st.input, old(st.inputCursor), old(st.AvailableOutput()));
              match step
              case Stop(status) =>
                && end == Some(Ok(st.Report(status)))
                && state == old(state) && unchanged(st) && st.output[..] == old(st.output[..])
              case Fail(error, after) =>
                end == Some(Err(error)) && state == after && unchanged(st) && st.output[..] == old(st.output[..])
              case Go(read, out, next) =>
                && end == None && state == next
                && st.inputCursor == old(st.inputCursor) + read && st.outputCursor == old(st.outputCursor) + |out|
                && st.output[..] == Splice(old(st.output[..]), old(st.outputCursor), out)
    {
      hide EncodeOne, Faithful;
      var a := AttemptOne(st.input[st.inputCursor], st.inputCursor, st.output, st.outputCursor);
      match a {
        case Blocked(required) =>
          return Some(Ok(st.Report(NeedOutput(required))));
        case Rejection(error, _) =>
          return Some(Err(error));
        case Encoded(units, _) =>
          st.AdvanceInput(1);
          st.AdvanceOutput(|units|);
          return None;
      }
    }

    /** The loop of one call: turns until one of them ends it. */
    method Run(st: TranscodeState<V, W>, ghost eof: bool) returns (r: Result<TranscodeProgress, EncodeError<E, V>>)
      requires Conforms() && st.AtStart()
      modifies this, st, st.output
      ensures Reported(Call(EncodeMachine(side), old(state), st.input, st.inputStart, st.Room(), eof),
                       r, old(st.output[..]), st.outputStart, st.output[..], state)
    {
      hide Call, EncodeOne, EncodeStep, Faithful, Splice, Resume, Reached, Reported;
      ghost var m, before := EncodeMachine(side), st.output[..];
      ghost var c0 := Call(m, state, st.input, st.inputStart, st.Room(), eof);
      ghost var out: seq<W> := [];
      ReachedStart(c0, before, st.outputStart);
      while st.HasInput()
        invariant st.Valid() && |out| == st.outputCursor - st.outputStart
        invariant Reached(c0, Call(m, state, st.input, st.inputCursor, st.AvailableOutput(), eof),
                          st.inputCursor - st.inputStart, out, before, st.outputStart, st.output[..])
        decreases |st.input| - st.inputCursor
      {
        ghost var i, left, now := st.inputCursor, st.AvailableOutput(), st.output[..];
        ghost var rest := Call(m, state, st.input, i, left, eof);
        ghost var step := EncodeStep(side, state, st.input, i, left);
        EncodeStepReads(side, state, st.input, i, left);
        EncodeCallUnfolds(side, state, st.input, i, left, eof, step);
        var end := Turn(st);
        if end.Some? {
          ReachedEnd(c0, rest, i - st.inputStart, out, before, st.outputStart, now);
          return end.value;
        }
        ReachedMore(c0, rest, i - st.inputStart, out, before, st.outputStart, now, step.read, step.out,
                    Call(m, state, st.input, st.inputCursor, st.AvailableOutput(), eof), st.output[..]);
        out := out + step.out;
      }
      EncodeStepAtEnd(side, state, st.input, st.AvailableOutput());
      EncodeCallUnfolds(side, state, st.input, |st.input|, st.AvailableOutput(), eof, Stop(Complete));
      ReachedEnd(c0, Stopped(Complete, 0, [], state), st.inputCursor - st.inputStart, out, before, st.outputStart,
                 st.output[..]);
      return Ok(st.Report(Complete));
    }

    /** What the streaming theory says about the call this engine is about to make: an encoder never asks for
        input. */
    lemma CallIsSound(input: seq<V>, i: nat, room: nat, eof: bool, t: T)
      requires Conforms() && i <= |input|
      ensures var c := Call(EncodeMachine(side), t, input, i, room, eof);
              c.Stopped? ==> Honest(TranscodeProgress(c.status, c.read, |c.out|), |input| - i, room)
      ensures var c := Call(EncodeMachine(side), t, input, i, room, true);
              c.Stopped? ==> !c.status.NeedInput?
    {
      assert input[..|input|] == input;
      CallFollowsOracle(EncodeMachine(side), input, |input|, t, i, room, true);
      EofIsIgnored(input, i, room, eof, t);
    }

    /** Every value is complete on its own, so end of input makes no difference to an encoder. */
    lemma {:induction false} EofIsIgnored(input: seq<V>, i: nat, room: nat, eof: bool, t: T)
      requires Conforms() && i <= |input|
      ensures Call(EncodeMachine(side), t, input, i, room, eof) == Call(EncodeMachine(side), t, input, i, room, true)
      decreases |input| - i
    {
      hide EncodeOne;
      var step := EncodeStep(side, t, input, i, room);
      EncodeStepReads(side, t, input, i, room);
      EncodeCallUnfolds(side, t, input, i, room, eof, step);
      EncodeCallUnfolds(side, t, input, i, room, true, step);
      if step.Go? {
        EofIsIgnored(input, i + 1, room - |step.out|, eof, step.next);
      }
    }

    /** Streams values into units until the input is used up or the output is short.  Its progress is always valid
        for the bounds of the call; the trait's end-of-input wrapper around it never reports an incomplete tail. */
    method Transcode(input: seq<V>, inputIndex: usize, output: array<W>, outputIndex: usize)
      returns (r: Result<TranscodeProgress, EncodeError<E, V>>)
      requires Conforms() && |input| <= USIZE_MAX && output.Length <= USIZE_MAX
      modifies this, lifecycle, output
      ensures var refusal := TranscodeRefusal(old(lifecycle.phase));
              var misfit := EnsureTranscodeIndices(|input|, inputIndex, output.Length, outputIndex);
              if refusal.Some? || misfit.Some? then
                && r == Err(EncodeFramework(if refusal.Some? then refusal.value else misfit.value))
                && state == old(state) && output[..] == old(output[..])
              else
                && Reported(Call(EncodeMachine(side), old(state), input, inputIndex, output.Length - outputIndex, true),
                            r, old(output[..]), outputIndex, output[..], state)
                && (r.Ok? ==> Honest(r.value, |input| - inputIndex, output.Length - outputIndex)
                              && !r.value.status.NeedInput?)
      ensures lifecycle.phase ==
              if TranscodeRefusal(old(lifecycle.phase)).None? then Phase.Streaming else old(lifecycle.phase)
    {
      hide Call, Faithful;
      var refusal := lifecycle.OnTranscode();
      if refusal.Some? {
        return Err(EncodeFramework(refusal.value));
      }
      var misfit := EnsureTranscodeIndices(|input|, inputIndex, output.Length, outputIndex);
      if misfit.Some? {
        return Err(EncodeFramework(misfit.value));
      }
      CallIsSound(input, inputIndex, output.Length - outputIndex, true, state);
      var st := new TranscodeState(input, inputIndex, output, outputIndex);
      r := Run(st, true);
    }

    /** The trait's default `transcode_eof` over this engine: its incomplete-input branch is dead. */
    method TranscodeEof(input: seq<V>, inputIndex: usize, output: array<W>, outputIndex: usize)
      returns (r: Result<TranscodeProgress, EncodeError<E, V>>)
      requires Conforms() && |input| <= USIZE_MAX && output.Length <= USIZE_MAX
      modifies this, lifecycle, output
      ensures var refusal := TranscodeRefusal(old(lifecycle.phase));
              var misfit := EnsureTranscodeIndices(|input|, inputIndex, output.Length, outputIndex);
              if refusal.Some? || misfit.Some? then
                && r == Err(EncodeFramework(if misfit.Some? then misfit.value else refusal.value))
                && state == old(state) && output[..] == old(output[..])
              else
                && Reported(Call(EncodeMachine(side), old(state), input, inputIndex, output.Length - outputIndex, true),
                            r, old(output[..]), outputIndex, output[..], state)
                && (r.Ok? ==> Honest(r.value, |input| - inputIndex, output.Length - outputIndex)
                              && !r.value.status.NeedInput?)
      ensures lifecycle.phase ==
              if TranscodeRefusal(old(lifecycle.phase)).None?
                 && EnsureTranscodeIndices(|input|, inputIndex, output.Length, outputIndex).None?
              then Phase.Streaming else old(lifecycle.phase)
    {
      hide Call, Faithful;
      var misfit := EnsureTranscodeIndices(|input|, inputIndex, output.Length, outputIndex);
      if misfit.Some? {
        return Err(EncodeFramework(misfit.value));
      }
      var availableInput, availableOutput := |input| - inputIndex, output.Length - outputIndex;
      r := Transcode(input, inputIndex, output, outputIndex);
      if r.Ok? {
        ValidateIffHonest(r.value, |input|, inputIndex, output.Length, outputIndex);
        var violation := Validate(r.value, inputIndex, availableInput, outputIndex, availableOutput);
        if violation.Some? {
          // A failure of the progress contract.
          assert false;
        }
        if r.value.status.NeedInput? {
          // An incomplete tail.
          assert false;
        }
      }
    }

    /** Closes the stream: codec first, hooks second.  A refused preflight changes nothing at all. */
    method Finish(output: array<W>, outputIndex: usize) returns (r: Result<usize, EncodeError<E, V>>)
      requires Conforms() && output.Length <= USIZE_MAX
      modifies this, lifecycle, output
      ensures var refusal := Preflight(FinishRefusal(old(lifecycle.phase)), MaxFinishOutputLen(), output.Length,
                                       outputIndex);
              if refusal.Some? then
                && r == Err(EncodeFramework(refusal.value))
                && state == old(state) && lifecycle.phase == old(lifecycle.phase) && output[..] == old(output[..])
              else
                && Landed(EncodeFinish(side, old(state)), r, old(output[..]), outputIndex, output[..], state)
                && (r.Ok? ==> r.value <= MaxFinishOutputLen().value)
                && lifecycle.phase == if r.Ok? then Finished else Poisoned
    {
      hide ConformsEncode, Faithful, Splice, Landed, EncodeFinish;
      var refusal := lifecycle.OnFinishAttempt();
      if refusal.Some? {
        return Err(EncodeFramework(refusal.value));
      }
      var hookRequired := side.hooks.maxFinish;
      var required := CheckedAdd(side.codec.maxFinishUnits, hookRequired);
      if required.None? {
        return Err(EncodeFramework(OutputLengthOverflow));
      }
      refusal := EnsureOutputCapacity(output.Length, outputIndex, required.value);
      if refusal.Some? {
        return Err(EncodeFramework(refusal.value));
      }
      lifecycle.OnFinishStart();
      r := Close(output, outputIndex);
      if r.Ok? {
        lifecycle.OnFinishSuccess();
      }
    }

    /** The part of a finish behind its preflight: the codec, then the hooks behind what it wrote. */
    method Close(output: array<W>, at: usize) returns (r: Result<usize, EncodeError<E, V>>)
      requires Conforms() && MaxFinishOutputLen().Some? && output.Length <= USIZE_MAX
      requires at + MaxFinishOutputLen().value <= output.Length
      modifies this, output
      ensures Landed(EncodeFinish(side, old(state)), r, old(output[..]), at, output[..], state)
      ensures r.Ok? ==> r.value <= MaxFinishOutputLen().value
    {
      hide ConformsEncode, Faithful, Splice;
      EncodeEnds(side, state);
      match side.codec.encodeFinish(state) {
        case WriteFailed(error, after) =>
          state := after;
          SpliceNothing(output[..], at);
          return Err(EncodeDomain(FinishError(error)));
        case Wrote(units, next) =>
          assert |units| <= side.codec.maxFinishUnits;
          Write(output, at, units);
          state := next;
          EncodeEnds(side, state);
          match side.hooks.finishHooks(state) {
            case WriteFailed(error, after) =>
              state := after;
              return Err(error);
            case Wrote(more, last) =>
              assert |more| <= side.hooks.maxFinish;
              SpliceTwice(old(output[..]), at, units, more);
              Write(output, at + |units|, more);
              state := last;
              return Ok(|units| + |more|);
          }
      }
    }

    /** The main phase of a one-shot stream with enough room runs to the end. */
    lemma MainPhaseFits(input: seq<V>, t: T, room: nat)
      requires Conforms() && |input| <= USIZE_MAX
      requires MaxTranscodeOutputLen(|input|).Some? && MaxTranscodeOutputLen(|input|).value <= room
      ensures var c := Call(EncodeMachine(side), t, input, 0, room, true);
              if c.Failed? then Oracle(EncodeMachine(side), input, t, 0) == Rejected(c.out, c.error, c.after)
              else
                && c.status.Complete? && |c.out| <= MaxTranscodeOutputLen(|input|).value
                && Oracle(EncodeMachine(side), input, t, 0) == Done(c.out, c.next)
    {
      assert BoundCovers(side, |input|);
      EncodeNeverBlocks(side, input, t, 0, room, true);
      CompleteCallIsOracle(EncodeMachine(side), input, t, 0, room);
    }

    /** The total bound is the sum of the three parts, whenever they and the sum are in range. */
    lemma TotalParts(inputLen: usize)
      ensures MaxResetOutputLen() == Some(side.codec.maxResetUnits)
      ensures var transcode, finish := MaxTranscodeOutputLen(inputLen), MaxFinishOutputLen();
              var total := MaxTotalOutputLen(inputLen);
              && (total.Some? <==>
                    && transcode.Some? && finish.Some?
                    && side.codec.maxResetUnits + transcode.value + finish.value <= USIZE_MAX)
              && (total.Some? ==> total.value == side.codec.maxResetUnits + transcode.value + finish.value)
    {
    }

    /** One-shot encoding.  An output as long as the total bound never runs out: the result is the encoded stream or
        its rejection.  A refused preflight changes nothing at all. */
    method TranscodeCompleteInto(input: seq<V>, output: array<W>) returns (r: Result<usize, EncodeError<E, V>>)
      requires Conforms() && |input| <= USIZE_MAX && output.Length <= USIZE_MAX
      modifies this, lifecycle, output
      ensures var refusal := Preflight(None, MaxTotalOutputLen(|input|), output.Length, 0);
              if refusal.Some? then
                && r == Err(EncodeFramework(refusal.value))
                && state == old(state) && lifecycle.phase == old(lifecycle.phase) && output[..] == old(output[..])
              else
                && Landed(EncodeStream(side, old(state), input), r, old(output[..]), 0, output[..], state)
                && (r.Ok? ==> lifecycle.phase == Finished)
    {
      hide Call, Oracle, Faithful, ConformsEncode, EncodeReset, EncodeFinish, Splice,
           MaxTotalOutputLen, MaxTranscodeOutputLen, MaxFinishOutputLen;
      var refusal := Preflight(None, MaxTotalOutputLen(|input|), output.Length, 0);
      if refusal.Some? {
        return Err(EncodeFramework(refusal.value));
      }
      TotalParts(|input|);
      ghost var before, t0 := output[..], state;
      var resetResult := Reset(output, 0);
      if resetResult.Err? {
        return Err(resetResult.error);
      }
      var cursor := resetResult.value;
      ghost var first, t1 := EncodeReset(side, t0).out, state;
      MainPhaseFits(input, t1, output.Length - cursor);
      var progress := TranscodeEof(input, 0, output, cursor);
      ghost var c := Call(EncodeMachine(side), t1, input, 0, output.Length - cursor, true);
      SpliceTwice(before, 0, first, c.out);
      if progress.Err? {
        return Err(progress.error);
      }
      var written := CompleteProgressWritten(progress.value, |input|, cursor, output.Length);
      assert written.Ok?;
      cursor := cursor + written.value;
      ghost var last := EncodeFinish(side, state);
      r := Finish(output, cursor);
      SpliceTwice(before, 0, first + c.out, last.out);
      if r.Ok? {
        return Ok(cursor + r.value);
      }
    }
  }
}
