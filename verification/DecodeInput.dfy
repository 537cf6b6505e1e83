/** The buffered input driver: batches of decoded values out of a source that delivers in arbitrary chunks. */
module DecodeInput {
  import opened Basics
  import opened Progress
  import opened Codecs
  import opened Streaming
  import opened Decoding
  import opened Lifecycle
  import opened Lifecycles
  import opened Buffers
  import opened Fusion
  import DecodeEngines

  // ---------------------------------------------------------------------------------------------------------
  // Positions
  // ---------------------------------------------------------------------------------------------------------

  /** The error of a decode attempt, `ahead` units further on. */
  function Shift<E>(error: DecodeError<E>, ahead: nat): DecodeError<E> {
    match error
    case DecodeFramework(IncompleteInput(index, required, available)) =>
      DecodeFramework(IncompleteInput(index + ahead, required, available))
    case DecodeDomain(MainError(source, index, consumed)) => DecodeDomain(MainError(source, index + ahead, consumed))
    case _ => error
  }

  /** The hook consulted about the head of `rest` refuses with an error of its own, which this model keeps free of
      positions. */
  ghost predicate HookRefuses<S(!new), U(!new), V(!new), E(!new)>(dec: DecodeSide<S, U, V, E>, s: S, rest: seq<U>) {
    if |rest| < dec.codec.minUnits then dec.hooks.handleIncomplete(s, None, dec.codec.minUnits).Refused?
    else match dec.codec.decodeEof(s, rest)
      case Decoded(_, _, _) => false
      case Incomplete(source, required) => dec.hooks.handleIncomplete(s, source, required).Refused?
      case Invalid(error, span) => dec.hooks.handleInvalid(s, error, span).Refused?
  }

  /** Decoding from position `i` on ends with a refusal by a hook. */
  ghost predicate EndsInRefusal<S(!new), U(!new), V(!new), E(!new)>(
    dec: DecodeSide<S, U, V, E>, payload: seq<U>, s: S, i: nat)
    requires ConformsDecode(dec) && i <= |payload|
    decreases |payload| - i
  {
    if i == |payload| then false
    else
      EventIsFinal(dec, s, payload[i..], payload[i..], i, true);
      match FinalEvent(dec, s, payload[i..], i)
      case Emitted(_, read, next) => EndsInRefusal(dec, payload, next, i + read)
      case Skipped(read, next) => EndsInRefusal(dec, payload, next, i + read)
      case Refuted(_, _) => HookRefuses(dec, s, payload[i..])
  }

  lemma EndsInRefusalUnfolds<S(!new), U(!new), V(!new), E(!new)>(
    dec: DecodeSide<S, U, V, E>, payload: seq<U>, s: S, i: nat, e: Event<S, V, E>)
    requires ConformsDecode(dec) && i < |payload| && e == FinalEvent(dec, s, payload[i..], i)
    ensures EventFits(e, |payload| - i)
    ensures EndsInRefusal(dec, payload, s, i) ==
            if e.Refuted? then HookRefuses(dec, s, payload[i..]) else EndsInRefusal(dec, payload, e.next, i + e.read)
  {
    hide FinalEvent;
    EventIsFinal(dec, s, payload[i..], payload[i..], i, true);
  }

  /** The same outcome seen from `ahead` units before; `own` tells that the error is a hook's own. */
  function Relocate<S, V, E>(o: Outcome<S, V, DecodeError<E>>, ahead: nat, own: bool): Outcome<S, V, DecodeError<E>> {
    match o
    case Done(_, _) => o
    case Rejected(out, error, after) => Rejected(out, if own then error else Shift(error, ahead), after)
  }

  /** Moving the start of the buffer moves nothing but the positions in errors. */
  lemma EventShifts<S(!new), U(!new), V(!new), E(!new)>(
    dec: DecodeSide<S, U, V, E>, s: S, rest: seq<U>, at: nat, ahead: nat)
    ensures var here, there := FinalEvent(dec, s, rest, at), FinalEvent(dec, s, rest, at + ahead);
            if here.Refuted? then
              there == Refuted(if HookRefuses(dec, s, rest) then here.error else Shift(here.error, ahead), here.after)
            else there == here
  {
  }

  /** Dropping a consumed prefix leaves the same values and states, and the same error at a shifted position. */
  lemma {:induction false} OracleShifts<S(!new), U(!new), V(!new), E(!new)>(
    dec: DecodeSide<S, U, V, E>, payload: seq<U>, s: S, cut: nat, i: nat)
    requires ConformsDecode(dec) && Faithful(DecodeMachine(dec)) && cut + i <= |payload|
    ensures EndsInRefusal(dec, payload, s, cut + i) == EndsInRefusal(dec, payload[cut..], s, i)
    ensures Oracle(DecodeMachine(dec), payload, s, cut + i) ==
            Relocate(Oracle(DecodeMachine(dec), payload[cut..], s, i), cut, EndsInRefusal(dec, payload, s, cut + i))
    decreases |payload| - cut - i
  {
    hide Oracle, FinalEvent, Faithful, ConformsDecode, HookRefuses, EndsInRefusal, Shift;
    var m, rest := DecodeMachine(dec), payload[cut + i..];
    assert payload[cut..][i..] == rest;
    if rest == [] {
      FinalStop(m, payload, s);
      FinalStop(m, payload[cut..], s);
      NoRefusalAtEnd(dec, payload, s);
      NoRefusalAtEnd(dec, payload[cut..], s);
    } else {
      var there, here := FinalEvent(dec, s, rest, cut + i), FinalEvent(dec, s, rest, i);
      EventShifts(dec, s, rest, i, cut);
      EndsInRefusalUnfolds(dec, payload, s, cut + i, there);
      EndsInRefusalUnfolds(dec, payload[cut..], s, i, here);
      DecodeOracleUnfolds(dec, payload, s, cut + i, there);
      DecodeOracleUnfolds(dec, payload[cut..], s, i, here);
      if !here.Refuted? {
        OracleShifts(dec, payload, here.next, cut, i + here.read);
      }
    }
  }

  lemma NoRefusalAtEnd<S(!new), U(!new), V(!new), E(!new)>(dec: DecodeSide<S, U, V, E>, payload: seq<U>, s: S)
    requires ConformsDecode(dec)
    ensures !EndsInRefusal(dec, payload, s, |payload|)
  {
  }

  /** What a call leaves to be decoded ends in a refusal exactly when the whole does. */
  lemma {:induction false} CallKeepsRefusal<S(!new), U(!new), V(!new), E(!new)>(
    dec: DecodeSide<S, U, V, E>, payload: seq<U>, v: nat, s: S, i: nat, room: nat, eof: bool)
    requires ConformsDecode(dec) && Faithful(DecodeMachine(dec)) && i <= v <= |payload| && (eof ==> v == |payload|)
    ensures var c := Call(DecodeMachine(dec), s, payload[..v], i, room, eof);
            c.Stopped? && i + c.read <= v ==>
              EndsInRefusal(dec, payload, c.next, i + c.read) == EndsInRefusal(dec, payload, s, i)
    decreases v - i
  {
    hide Call, Faithful, ConformsDecode, FinalEvent, EndsInRefusal, DecodeStep;
    var step := DecodeStep(dec, s, payload[..v], i, room, eof);
    DecodeCallUnfolds(dec, s, payload[..v], i, room, eof, step);
    if step.Go? {
      MoveIsFinal(dec, payload, v, s, i, room, eof);
      EndsInRefusalUnfolds(dec, payload, s, i, FinalEvent(dec, s, payload[i..], i));
      CallKeepsRefusal(dec, payload, v, step.next, i + step.read, room - |step.out|, eof);
    }
  }

  /** A move of a call is the event at the head of everything that is left. */
  lemma MoveIsFinal<S(!new), U(!new), V(!new), E(!new)>(
    dec: DecodeSide<S, U, V, E>, payload: seq<U>, v: nat, s: S, i: nat, room: nat, eof: bool)
    requires ConformsDecode(dec) && i <= v <= |payload| && (eof ==> v == |payload|)
    ensures var step := DecodeStep(dec, s, payload[..v], i, room, eof);
            step.Go? ==>
              && i < |payload|
              && var e := FinalEvent(dec, s, payload[i..], i);
              (e.Emitted? || e.Skipped?) && e.next == step.next && e.read == step.read
  {
    hide DecodeOne, ConformsDecode;
    if i < v {
      assert payload[..v][i..] <= payload[i..];
      EventIsFinal(dec, s, payload[..v][i..], payload[i..], i, eof);
    }
  }

  // ---------------------------------------------------------------------------------------------------------
  // Decoding in pieces
  // ---------------------------------------------------------------------------------------------------------

  /** What is left of `all` after some prefix of it. */
  ghost predicate IsSuffix<U>(rest: seq<U>, all: seq<U>) {
    |rest| <= |all| && rest == all[|all| - |rest|..]
  }

  /** Decoding `all` from state `s` gives `values` and then whatever decoding `rest` from `s'` gives, with the positions
      of errors counted from the start of `all`. */
  ghost predicate Continues<S(!new), U(!new), V(!new), E(!new)>(
    dec: DecodeSide<S, U, V, E>, all: seq<U>, s: S, values: seq<V>, rest: seq<U>, s': S)
    requires ConformsDecode(dec) && Faithful(DecodeMachine(dec))
  {
    var m, own := DecodeMachine(dec), EndsInRefusal(dec, all, s, 0);
    && IsSuffix(rest, all)
    && own == EndsInRefusal(dec, rest, s', 0)
    && Oracle(m, all, s, 0) == Prepend(values, Relocate(Oracle(m, rest, s', 0), |all| - |rest|, own))
  }

  /** Decoding `all` from state `s` fails in state `s'`: after `consumed` units and at least `values`, the decoder
      reported `error`, with positions counted from there. */
  ghost predicate FailsWith<S(!new), U(!new), V(!new), E(!new)>(
    dec: DecodeSide<S, U, V, E>, all: seq<U>, s: S, values: seq<V>, consumed: nat, error: DecodeError<E>, s': S)
    requires ConformsDecode(dec) && Faithful(DecodeMachine(dec))
  {
    var whole := Oracle(DecodeMachine(dec), all, s, 0);
    && whole.Rejected? && values <= whole.out && whole.after == s'
    && whole.error == if EndsInRefusal(dec, all, s, 0) then error else Shift(error, consumed)
  }

  lemma ContinuesAtStart<S(!new), U(!new), V(!new), E(!new)>(dec: DecodeSide<S, U, V, E>, all: seq<U>, s: S)
    requires ConformsDecode(dec) && Faithful(DecodeMachine(dec))
    ensures Continues(dec, all, s, [], all, s)
  {
    PrependNested([], [], Oracle(DecodeMachine(dec), all, s, 0));
  }

  lemma ContinuesFurther<S(!new), U(!new), V(!new), E(!new)>(
    dec: DecodeSide<S, U, V, E>, all: seq<U>, s: S, values: seq<V>, rest: seq<U>, s1: S, more: seq<V>, rest2: seq<U>,
    s2: S)
    requires ConformsDecode(dec) && Faithful(DecodeMachine(dec))
    requires Continues(dec, all, s, values, rest, s1) && Continues(dec, rest, s1, more, rest2, s2)
    ensures Continues(dec, all, s, values + more, rest2, s2) && |rest2| <= |all|
  {
    hide Oracle, EndsInRefusal, Faithful, ConformsDecode;
    var last := Oracle(DecodeMachine(dec), rest2, s2, 0);
    PrependNested(values, more, Relocate(last, |all| - |rest2|, EndsInRefusal(dec, all, s, 0)));
  }

  lemma FailsFurther<S(!new), U(!new), V(!new), E(!new)>(
    dec: DecodeSide<S, U, V, E>, all: seq<U>, s: S, values: seq<V>, rest: seq<U>, s1: S, more: seq<V>, consumed: nat,
    error: DecodeError<E>, s2: S)
    requires ConformsDecode(dec) && Faithful(DecodeMachine(dec))
    requires Continues(dec, all, s, values, rest, s1) && FailsWith(dec, rest, s1, more, consumed, error, s2)
    ensures |rest| <= |all| && FailsWith(dec, all, s, values + more, |all| - |rest| + consumed, error, s2)
  {
    hide Oracle, EndsInRefusal, Faithful, ConformsDecode;
  }

  lemma FailsHere<S(!new), U(!new), V(!new), E(!new)>(
    dec: DecodeSide<S, U, V, E>, all: seq<U>, s: S, values: seq<V>, rest: seq<U>, s1: S, error: DecodeError<E>, s2: S)
    requires ConformsDecode(dec) && Faithful(DecodeMachine(dec))
    requires Continues(dec, all, s, values, rest, s1) && FailsWith(dec, rest, s1, [], 0, error, s2)
    ensures |rest| <= |all| && FailsWith(dec, all, s, values, |all| - |rest|, error, s2)
  {
    hide Continues, FailsWith, Faithful, ConformsDecode;
    FailsFurther(dec, all, s, values, rest, s1, [], 0, error, s2);
    assert values + [] == values;
  }

  /** A run that has used up its units has delivered everything. */
  lemma ContinuesToEnd<S(!new), U(!new), V(!new), E(!new)>(
    dec: DecodeSide<S, U, V, E>, all: seq<U>, s: S, values: seq<V>, s': S)
    requires ConformsDecode(dec) && Faithful(DecodeMachine(dec)) && Continues(dec, all, s, values, [], s')
    ensures Oracle(DecodeMachine(dec), all, s, 0) == Done(values, s')
  {
    hide Oracle, EndsInRefusal, Faithful, ConformsDecode;
    FinalStop(DecodeMachine(dec), [], s');
    assert values + [] == values;
  }

  /** Values that were delivered on the way are part of the whole. */
  lemma DeliveredPrefix<S(!new), U(!new), V(!new), E(!new)>(
    dec: DecodeSide<S, U, V, E>, all: seq<U>, s: S, values: seq<V>, rest: seq<U>, s': S)
    requires ConformsDecode(dec) && Faithful(DecodeMachine(dec)) && Continues(dec, all, s, values, rest, s')
    ensures values <= Oracle(DecodeMachine(dec), all, s, 0).out
    ensures |Oracle(DecodeMachine(dec), rest, s', 0).out| == |Oracle(DecodeMachine(dec), all, s, 0).out| - |values|
  {
    hide Oracle, EndsInRefusal, Faithful, ConformsDecode;
  }

  /** One call is a piece of the decoding of everything. */
  lemma CallContinues<S(!new), U(!new), V(!new), E(!new)>(
    dec: DecodeSide<S, U, V, E>, all: seq<U>, v: nat, s: S, room: nat, eof: bool)
    requires ConformsDecode(dec) && Faithful(DecodeMachine(dec)) && v <= |all| && (eof ==> v == |all|)
    ensures var c := Call(DecodeMachine(dec), s, all[..v], 0, room, eof);
            if c.Failed? then FailsWith(dec, all, s, [], 0, c.error, c.after)
            else
              && c.read <= v && Continues(dec, all, s, c.out, all[c.read..], c.next)
              && (c.status.NeedOutput? ==> |c.out| == room)
  {
    hide Call, Oracle, EndsInRefusal, Faithful, ConformsDecode;
    var m := DecodeMachine(dec);
    CallFollowsOracle(m, all, v, s, 0, room, eof);
    var c := Call(m, s, all[..v], 0, room, eof);
    DecodeFillsOutput(dec, s, all[..v], 0, room, eof);
    if c.Stopped? {
      OracleShifts(dec, all, c.next, c.read, 0);
      CallKeepsRefusal(dec, all, v, s, 0, room, eof);
    } else {
      ShiftNothing(c.error);
    }
  }

  lemma ShiftNothing<E>(error: DecodeError<E>)
    ensures Shift(error, 0) == error
  {
  }

  // ---------------------------------------------------------------------------------------------------------
  // The driver
  // ---------------------------------------------------------------------------------------------------------

  /** Fetching can fail for want of memory, or because the wrapped input does. */
  datatype SourceFailure = SourceFailure

  datatype BatchError<+E> = RangeExceeded | SourceFailed | DecoderFailed(error: DecodeError<E>)

  class TranscodeDecodeInput<U(!new)> {
    /** Whether fetching may fail. */
    const faulty: bool
    /** Units fetched but not consumed. */
    var unread: seq<U>
    /** Units the source still holds. */
    var source: seq<U>
    /** A call at end of input ran out of output and has to be repeated at end of input. */
    var eofRetryPending: bool

    ghost predicate Valid()
      reads this
    {
      |unread| + |source| <= USIZE_MAX && (eofRetryPending ==> source == [])
    }

    /** Everything that was not consumed yet. */
    ghost function Rest(): seq<U>
      reads this
    {
      unread + source
    }

    constructor (source: seq<U>, faulty: bool)
      requires |source| <= USIZE_MAX
      ensures Valid() && Rest() == source && this.faulty == faulty
    {
      this.faulty, this.unread, this.source, eofRetryPending := faulty, [], source, false;
    }

    /** Fetches one chunk of any positive size; false means the source has ended. */
    method FillMore() returns (more: Result<bool, SourceFailure>)
      requires Valid()
      modifies this
      ensures Valid() && Rest() == old(Rest()) && old(unread) <= unread
      ensures eofRetryPending == (old(eofRetryPending) && more != Ok(true))
      ensures more.Err? ==> faulty
      ensures more.Ok? ==> (more.value <==> old(source) != [])
      ensures if more == Ok(true) then |source| < |old(source)| else unread == old(unread) && source == old(source)
    {
      var failed: bool := *;
      if faulty && failed {
        return Err(SourceFailure);
      }
      if source == [] {
        return Ok(false);
      }
      var chunk: nat :| 1 <= chunk <= |source|;
      assert source == source[..chunk] + source[chunk..];
      unread, source := unread + source[..chunk], source[chunk..];
      eofRetryPending := false;
      return Ok(true);
    }

    /** Fetches chunks until `count` units are unread or the source has ended. */
    method FillUntil(count: usize) returns (enough: Result<bool, SourceFailure>)
      requires Valid()
      modifies this
      ensures Valid() && Rest() == old(Rest()) && old(unread) <= unread && |source| <= |old(source)|
      ensures eofRetryPending == (old(eofRetryPending) && |unread| == |old(unread)|)
      ensures enough.Err? ==> faulty && |unread| < count
      ensures enough.Ok? ==> (enough.value <==> |unread| >= count) && (!enough.value ==> source == [])
      ensures |old(unread)| < count && enough == Ok(true) ==> |source| < |old(source)|
    {
      var more := true;
      while |unread| < count && more
        invariant Valid() && Rest() == old(Rest()) && old(unread) <= unread
        invariant |source| <= |old(source)| && (|unread| > |old(unread)| ==> |source| < |old(source)|)
        invariant eofRetryPending == (old(eofRetryPending) && |unread| == |old(unread)|)
        invariant !more ==> source == []
        decreases |source|, more
      {
        var fetched := FillMore();
        if fetched.Err? {
          return Err(fetched.error);
        }
        more := fetched.value;
      }
      return Ok(|unread| >= count);
    }

    method Consume(count: nat)
      requires Valid() && count <= |unread|
      modifies this`unread
      ensures Valid() && unread == old(unread)[count..] && Rest() == old(Rest())[count..]
    {
      unread := unread[count..];
    }

    /** One decoder call on the unread units, exactly as the machine makes it, followed by consuming what it read; `out`
        are the values it wrote. */
    method Step<S(!new), V(!new), E(!new)>(
      engine: DecodeEngines.DecodeEngine<S, U, V, E>, output: array<V>, outputIndex: usize, eof: bool)
      returns (r: Result<TranscodeProgress, BatchError<E>>, ghost out: seq<V>)
      requires Valid() && engine.Conforms() && output.Length <= USIZE_MAX && outputIndex <= output.Length
      requires TranscodeRefusal(engine.lifecycle.phase).None?
      requires eof ==> source == []
      modifies this`unread, engine, engine.lifecycle, output
      ensures Valid() && engine.lifecycle.phase == Phase.Streaming
      ensures outputIndex + |out| <= output.Length
      ensures output[..] == Splice(old(output[..]), outputIndex, out)
      ensures match Call(DecodeMachine(engine.side), old(engine.state), old(unread), 0, output.Length - outputIndex,
                         eof)
              case Failed(written, error, after) =>
                r == Err(DecoderFailed(error)) && out == written && engine.state == after
              case Stopped(status, read, written, next) =>
                && r == Ok(TranscodeProgress(status, read, |written|)) && out == written && engine.state == next
                && read <= |old(unread)| && unread == old(unread)[read..]
      ensures match r
              case Err(error) =>
                && error.DecoderFailed? && unread == old(unread)
                && FailsWith(engine.side, old(Rest()), old(engine.state), [], 0, error.error, engine.state)
              case Ok(p) =>
                && Honest(p, |old(unread)|, output.Length - outputIndex) && p.read == |old(unread)| - |unread|
                && |out| == p.written
                && Continues(engine.side, old(Rest()), old(engine.state), out, Rest(), engine.state)
                && (eof ==> !p.status.NeedInput?)
                && (p.status.NeedOutput? ==> p.written == output.Length - outputIndex)
    {
      hide Oracle, Call, Faithful, ConformsDecode, Continues, FailsWith, Splice, Unblocks, DecodeMachine, Validate;
      ghost var m, s0, rest := DecodeMachine(engine.side), engine.state, Rest();
      ghost var room := output.Length - outputIndex;
      assert rest[..|unread|] == unread;
      CallContinues(engine.side, rest, |unread|, s0, room, eof);
      out := Call(m, s0, unread, 0, room, eof).out;
      var progress := engine.Transcode(unread, 0, output, outputIndex, eof);
      if progress.Err? {
        return Err(DecoderFailed(progress.error)), out;
      }
      var p := progress.value;
      ValidateIffHonest(p, |unread|, 0, output.Length, outputIndex);
      var violation := Validate(p, 0, |unread|, outputIndex, output.Length - outputIndex);
      if violation.Some? {
        // A failure of the progress contract.
        assert false;
      }
      Consume(p.read);
      return Ok(p), out;
    }

    /** `transcode_eof_step`: one call at end of input, to be repeated there exactly when its output ran out. */
    method EofStep<S(!new), V(!new), E(!new)>(
      engine: DecodeEngines.DecodeEngine<S, U, V, E>, window: array<V>, start: usize)
      returns (r: Result<TranscodeProgress, BatchError<E>>, ghost out: seq<V>)
      requires Valid() && engine.Conforms() && window.Length <= USIZE_MAX && start < window.Length
      requires TranscodeRefusal(engine.lifecycle.phase).None? && source == []
      modifies this, engine, engine.lifecycle, window
      ensures Valid() && engine.lifecycle.phase == Phase.Streaming && source == []
      ensures start + |out| <= window.Length && window[..] == Splice(old(window[..]), start, out)
      ensures match r
              case Err(error) =>
                && error.DecoderFailed? && unread == old(unread) && eofRetryPending == old(eofRetryPending)
                && FailsWith(engine.side, old(Rest()), old(engine.state), [], 0, error.error, engine.state)
              case Ok(p) =>
                && Honest(p, |old(unread)|, window.Length - start) && !p.status.NeedInput? && |out| == p.written
                && eofRetryPending == p.status.NeedOutput?
                && Continues(engine.side, old(Rest()), old(engine.state), out, Rest(), engine.state)
                && (p.written < window.Length - start ==> Rest() == [])
    {
      hide Continues, FailsWith, Faithful, ConformsDecode, Splice;
      r, out := Step(engine, window, start, true);
      if r.Ok? {
        eofRetryPending := r.value.status.NeedOutput?;
      }
    }

    /** A batch over the units `all`, begun in state `s`, has put `total` values into the window so far. */
    ghost predicate OnBatch<S(!new), V(!new), E(!new)>(
      engine: DecodeEngines.DecodeEngine<S, U, V, E>, window: array<V>, total: nat, rest: seq<U>, all: seq<U>, s: S)
      requires engine.Conforms()
      reads engine, window
    {
      total <= window.Length && Continues(engine.side, all, s, window[..total], rest, engine.state)
    }

    /** How a batch ends: with its values in the window, or failing behind the first `total` of them. */
    ghost predicate BatchResult<S(!new), V(!new), E(!new)>(
      engine: DecodeEngines.DecodeEngine<S, U, V, E>, window: array<V>, total: nat, rest: seq<U>, all: seq<U>, s: S,
      r: Result<usize, BatchError<E>>)
      requires engine.Conforms()
      reads engine, window
    {
      && total <= window.Length && |rest| <= |all|
      && match r
         case Ok(written) =>
           written == total && OnBatch(engine, window, total, rest, all, s) && (total < window.Length ==> rest == [])
         case Err(SourceFailed) => faulty && OnBatch(engine, window, total, rest, all, s)
         case Err(DecoderFailed(error)) =>
           FailsWith(engine.side, all, s, window[..total], |all| - |rest|, error, engine.state)
         case Err(RangeExceeded) => false
    }

    /** One open-ended step inside a batch. */
    method BatchStep<S(!new), V(!new), E(!new)>(
      engine: DecodeEngines.DecodeEngine<S, U, V, E>, window: array<V>, total: usize, ghost all: seq<U>, ghost s: S)
      returns (r: Result<TranscodeProgress, BatchError<E>>)
      requires Valid() && engine.Conforms() && total < window.Length <= USIZE_MAX
      requires TranscodeRefusal(engine.lifecycle.phase).None? && OnBatch(engine, window, total, Rest(), all, s)
      modifies this`unread, engine, engine.lifecycle, window
      ensures Valid() && engine.lifecycle.phase == Phase.Streaming
      ensures r.Err? ==> BatchResult(engine, window, total, Rest(), all, s, Err(r.error))
      ensures r.Ok? ==>
                && Honest(r.value, |old(unread)|, window.Length - total) && r.value.read == |old(unread)| - |unread|
                && OnBatch(engine, window, total + r.value.written, Rest(), all, s)
                && (r.value.status.NeedOutput? ==> r.value.written == window.Length - total)
    {
      ghost var before, rest, s1 := window[..total], Rest(), engine.state;
      hide Continues, FailsWith, Faithful, ConformsDecode, Splice;
      ghost var w := window[..];
      ghost var out;
      r, out := Step(engine, window, total, false);
      SpliceParts(w, total, out);
      if r.Err? {
        FailsHere(engine.side, all, s, before, rest, s1, r.error.error, engine.state);
        return;
      }
      ContinuesFurther(engine.side, all, s, before, rest, s1, out, Rest(), engine.state);
    }

    /** The end of a batch at end of input. */
    method BatchEnd<S(!new), V(!new), E(!new)>(
      engine: DecodeEngines.DecodeEngine<S, U, V, E>, window: array<V>, total: usize, ghost all: seq<U>, ghost s: S)
      returns (r: Result<usize, BatchError<E>>, ghost seen: nat)
      requires Valid() && engine.Conforms() && total < window.Length <= USIZE_MAX && source == []
      requires TranscodeRefusal(engine.lifecycle.phase).None? && OnBatch(engine, window, total, Rest(), all, s)
      modifies this, engine, engine.lifecycle, window
      ensures Valid() && engine.lifecycle.phase == Phase.Streaming
      ensures BatchResult(engine, window, seen, Rest(), all, s, r)
    {
      hide Continues, FailsWith, Faithful, ConformsDecode, Splice;
      ghost var before, rest, s1 := window[..total], Rest(), engine.state;
      ghost var w := window[..];
      ghost var out;
      var last;
      last, out := EofStep(engine, window, total);
      SpliceParts(w, total, out);
      if last.Err? {
        FailsHere(engine.side, all, s, before, rest, s1, last.error.error, engine.state);
        return Err(last.error), total;
      }
      ContinuesFurther(engine.side, all, s, before, rest, s1, out, Rest(), engine.state);
      return Ok(total + last.value.written), total + last.value.written;
    }

    /** The batch loop: fetches and decodes until the window is full or the source has ended. */
    method Pump<S(!new), V(!new), E(!new)>(engine: DecodeEngines.DecodeEngine<S, U, V, E>, window: array<V>)
      returns (r: Result<usize, BatchError<E>>, ghost seen: nat)
      requires Valid() && engine.Conforms() && 0 < window.Length <= USIZE_MAX
      requires TranscodeRefusal(engine.lifecycle.phase).None?
      modifies this, engine, engine.lifecycle, window
      ensures Valid() && TranscodeRefusal(engine.lifecycle.phase).None?
      ensures BatchResult(engine, window, seen, Rest(), old(Rest()), old(engine.state), r)
    {
      hide Continues, FailsWith, Faithful, ConformsDecode, OnBatch, BatchResult;
      ghost var all, s := Rest(), engine.state;
      NothingBatched(engine, window);
      if eofRetryPending {
        r, seen := BatchEnd(engine, window, 0, all, s);
        return;
      }
      var total: usize := 0;
      while true
        invariant Valid() && total < window.Length && TranscodeRefusal(engine.lifecycle.phase).None?
        invariant OnBatch(engine, window, total, Rest(), all, s)
        decreases |source|, |unread|
      {
        var atEnd := false;
        if |unread| == 0 {
          var more := FillMore();
          if more.Err? {
            BatchInterrupted(engine, window, total, all, s);
            return Err(SourceFailed), total;
          }
          atEnd := !more.value;
        }
        if !atEnd {
          var step := BatchStep(engine, window, total, all, s);
          if step.Err? {
            return Err(step.error), total;
          }
          total := total + step.value.written;
          if total == window.Length {
            BatchFull(engine, window, all, s);
            return Ok(total), total;
          }
          match step.value.status {
            case Complete =>
            case NeedOutput(_) =>
              // Only a full window stops for output.
              assert false;
            case NeedInput(required) =>
              var enough := FillUntil(required);
              if enough.Err? {
                BatchInterrupted(engine, window, total, all, s);
                return Err(SourceFailed), total;
              }
              atEnd := !enough.value;
          }
        }
        if atEnd {
          r, seen := BatchEnd(engine, window, total, all, s);
          return;
        }
      }
    }

    /** A batch that has not begun. */
    lemma NothingBatched<S(!new), V(!new), E(!new)>(engine: DecodeEngines.DecodeEngine<S, U, V, E>, window: array<V>)
      requires engine.Conforms()
      ensures OnBatch(engine, window, 0, Rest(), Rest(), engine.state)
    {
      ContinuesAtStart(engine.side, Rest(), engine.state);
      assert window[..0] == [];
    }

    lemma BatchInterrupted<S(!new), V(!new), E(!new)>(
      engine: DecodeEngines.DecodeEngine<S, U, V, E>, window: array<V>, total: nat, all: seq<U>, s: S)
      requires engine.Conforms() && faulty && OnBatch(engine, window, total, Rest(), all, s)
      ensures BatchResult<S, V, E>(engine, window, total, Rest(), all, s, Err(SourceFailed))
    {
    }

    lemma BatchFull<S(!new), V(!new), E(!new)>(
      engine: DecodeEngines.DecodeEngine<S, U, V, E>, window: array<V>, all: seq<U>, s: S)
      requires engine.Conforms() && window.Length <= USIZE_MAX && OnBatch(engine, window, window.Length, Rest(), all, s)
      ensures BatchResult<S, V, E>(engine, window, window.Length, Rest(), all, s, Ok(window.Length))
    {
    }

    /** One batch: up to `count` values written from `outputIndex` on.  They are the next values of the stream; fewer
        than `count` come only when everything has been decoded, and units are consumed in order, none twice.  When it
        fails, `seen` are the values it had decoded before, and a decoder's error is the one that decoding everything
        ends with, with positions counted from the first unit not consumed. */
    method Transcode<S(!new), V(!new), E(!new)>(
      engine: DecodeEngines.DecodeEngine<S, U, V, E>, output: array<V>, outputIndex: usize, count: usize)
      returns (r: Result<usize, BatchError<E>>, ghost seen: seq<V>)
      requires Valid() && engine.Conforms() && output.Length <= USIZE_MAX
      requires TranscodeRefusal(engine.lifecycle.phase).None?
      modifies this, engine, engine.lifecycle, output
      ensures Valid() && TranscodeRefusal(engine.lifecycle.phase).None? && |Rest()| <= |old(Rest())|
      ensures outputIndex + count > output.Length <==> r == Err(RangeExceeded)
      ensures r == Err(RangeExceeded) ==>
                Rest() == old(Rest()) && engine.state == old(engine.state) && output[..] == old(output[..])
      ensures outputIndex + count <= output.Length ==>
                && output[..outputIndex] == old(output[..outputIndex])
                && output[outputIndex + count..] == old(output[outputIndex + count..])
                && |seen| <= count && output[outputIndex..outputIndex + |seen|] == seen
                && BatchEnds(engine.side, old(Rest()), old(engine.state), seen, Rest(), engine.state,
                             if r.Ok? then None else Some(r.error))
                && (r.Ok? ==> r.value == |seen| && (|seen| < count ==> Rest() == []))
                && (r == Err(SourceFailed) ==> faulty)
    {
      hide Continues, FailsWith, Faithful, ConformsDecode, Splice;
      if outputIndex > output.Length || count > output.Length - outputIndex {
        return Err(RangeExceeded), [];
      }
      if count == 0 {
        ContinuesAtStart(engine.side, Rest(), engine.state);
        return Ok(0), [];
      }
      var held := output[outputIndex..outputIndex + count];
      var window := new V[count](k requires 0 <= k < |held| => held[k]);
      ghost var total;
      r, total := Pump(engine, window);
      var items := window[..];
      ghost var before := output[..];
      Write(output, outputIndex, items);
      SpliceParts(before, outputIndex, items);
      SplicedPrefix(before, outputIndex, items, total);
      assert output[..outputIndex] == output[..][..outputIndex] && old(output[..outputIndex]) == before[..outputIndex];
      assert output[outputIndex + count..] == output[..][outputIndex + count..];
      assert old(output[outputIndex + count..]) == before[outputIndex + count..];
      seen := items[..total];
      assert window[..total] == seen;
      assert output[outputIndex..outputIndex + total] == output[..][outputIndex..outputIndex + total];
    }

    /** Batches of the caller's choice, repeated until one of them comes back short, read the whole decoded stream.
        `lost` are values of the last batch, when that one failed. */
    method ReadAll<S(!new), V(0, !new), E(!new)>(
      engine: DecodeEngines.DecodeEngine<S, U, V, E>, counts: nat -> usize)
      returns (r: Result<seq<V>, BatchError<E>>, values: seq<V>, ghost lost: seq<V>)
      requires Valid() && engine.Conforms() && TranscodeRefusal(engine.lifecycle.phase).None?
      requires forall k :: 0 < counts(k)
      modifies this, engine, engine.lifecycle
      ensures Valid() && TranscodeRefusal(engine.lifecycle.phase).None? && |Rest()| <= |old(Rest())|
      ensures BatchEnds(engine.side, old(Rest()), old(engine.state), values + lost, Rest(), engine.state,
                        if r.Ok? then None else Some(r.error))
      ensures r.Ok? ==>
                && r.value == values && lost == [] && Rest() == []
                && Oracle(DecodeMachine(engine.side), old(Rest()), old(engine.state), 0) == Done(values, engine.state)
      ensures r.Err? ==> r.error.DecoderFailed? || (r.error.SourceFailed? && faulty)
    {
      hide Oracle, Continues, FailsWith, Faithful, ConformsDecode;
      ghost var all, s, m := Rest(), engine.state, DecodeMachine(engine.side);
      values, lost := [], [];
      var turn: nat := 0;
      ContinuesAtStart(engine.side, all, s);
      while true
        invariant Valid() && TranscodeRefusal(engine.lifecycle.phase).None? && |Rest()| <= |all|
        invariant Continues(engine.side, all, s, values, Rest(), engine.state)
        decreases |Oracle(m, Rest(), engine.state, 0).out|
      {
        ghost var rest, s1 := Rest(), engine.state;
        var count := counts(turn);
        var output := new V[count];
        var written;
        written, lost := Transcode(engine, output, 0, count);
        assert output[0..0 + |lost|] == output[..|lost|];
        BatchEndsFurther(engine.side, all, s, values, rest, s1, lost, Rest(), engine.state,
                         if written.Ok? then None else Some(written.error));
        if written.Err? {
          return Err(written.error), values, lost;
        }
        DeliveredPrefix(engine.side, rest, s1, lost, Rest(), engine.state);
        values := values + output[..written.value];
        if written.value < count {
          ContinuesToEnd(engine.side, all, s, values, engine.state);
          assert values + [] == values;
          return Ok(values), values, [];
        }
        turn := turn + 1;
      }
    }

    /** Reset, batches until one comes back short, finish: the complete one-shot stream of everything the source
        holds.  On failure `values` is the part of it delivered before. */
    method ReadStream<S(!new), V(0, !new), E(!new)>(
      engine: DecodeEngines.DecodeEngine<S, U, V, E>, counts: nat -> usize)
      returns (r: Result<seq<V>, BatchError<E>>, values: seq<V>)
      requires Valid() && engine.Conforms() && engine.MaxFinishOutputLen().Some?
      requires forall k :: 0 < counts(k)
      modifies this, engine, engine.lifecycle
      ensures r == Err(SourceFailed) ==> faulty
      ensures r != Err(SourceFailed) ==>
                match DecodeStream(engine.side, old(engine.state), old(Rest()))
                case Done(out, final) => r == Ok(out) && values == out && engine.state == final && Rest() == []
                case Rejected(out, error, after) =>
                  && r.Err? && r.error.DecoderFailed? && engine.state == after && values <= out
                  && |Rest()| <= |old(Rest())|
                  && error == StreamError(engine.side, old(engine.state), old(Rest()), |old(Rest())| - |Rest()|,
                                          r.error.error)
    {
      hide Oracle, Faithful, ConformsDecode, DecodeReset, DecodeFinish, Splice, Landed, Continues;
      var first := new V[engine.side.codec.maxResetValues];
      ghost var blank, s0, all := first[..], engine.state, Rest();
      var reset := engine.Reset(first, 0);
      LandedInScratch(DecodeReset(engine.side, s0), reset, blank, first[..], engine.state);
      if reset.Err? {
        return Err(DecoderFailed(reset.error)), [];
      }
      values := first[..reset.value];
      var main, more, _ := ReadAll(engine, counts);
      values := values + more;
      if main.Err? {
        return Err(main.error), values;
      }
      var last := new V[engine.MaxFinishOutputLen().value];
      ghost var s2 := engine.state;
      blank := last[..];
      var finish := engine.Finish(last, 0);
      LandedInScratch(DecodeFinish(engine.side, s2), finish, blank, last[..], engine.state);
      if finish.Err? {
        return Err(DecoderFailed(finish.error)), values;
      }
      values := values + last[..finish.value];
      return Ok(values), values;
    }
  }

  /** How reading `all` from state `s` stands after `values`: it goes on with `rest`, or a decoder has failed there. */
  ghost predicate BatchEnds<S(!new), U(!new), V(!new), E(!new)>(
    dec: DecodeSide<S, U, V, E>, all: seq<U>, s: S, values: seq<V>, rest: seq<U>, s': S, failure: Option<BatchError<E>>)
    requires ConformsDecode(dec) && Faithful(DecodeMachine(dec)) && |rest| <= |all|
  {
    match failure
    case Some(DecoderFailed(error)) => FailsWith(dec, all, s, values, |all| - |rest|, error, s')
    case _ => Continues(dec, all, s, values, rest, s')
  }

  lemma BatchEndsFurther<S(!new), U(!new), V(!new), E(!new)>(
    dec: DecodeSide<S, U, V, E>, all: seq<U>, s: S, values: seq<V>, rest: seq<U>, s1: S, more: seq<V>, rest2: seq<U>,
    s2: S, failure: Option<BatchError<E>>)
    requires ConformsDecode(dec) && Faithful(DecodeMachine(dec)) && |rest2| <= |rest| <= |all|
    requires Continues(dec, all, s, values, rest, s1) && BatchEnds(dec, rest, s1, more, rest2, s2, failure)
    ensures BatchEnds(dec, all, s, values + more, rest2, s2, failure)
  {
    hide Continues, FailsWith, Faithful, ConformsDecode;
    if failure.Some? && failure.value.DecoderFailed? {
      FailsFurther(dec, all, s, values, rest, s1, more, |rest| - |rest2|, failure.value.error, s2);
    } else {
      ContinuesFurther(dec, all, s, values, rest, s1, more, rest2, s2);
    }
  }

  /** The error of the whole stream when the driver reported `error` after `consumed` units: positions of the main phase
      count from there, those of the stream ends are the same. */
  ghost function StreamError<S(!new), U(!new), V(!new), E(!new)>(
    dec: DecodeSide<S, U, V, E>, s: S, payload: seq<U>, consumed: nat, error: DecodeError<E>): DecodeError<E>
    requires ConformsDecode(dec)
  {
    DecodeFaithful(dec);
    var reset := DecodeReset(dec, s);
    if reset.Rejected? || Oracle(DecodeMachine(dec), payload, reset.final, 0).Done?
       || EndsInRefusal(dec, payload, reset.final, 0)
    then error else Shift(error, consumed)
  }
}
