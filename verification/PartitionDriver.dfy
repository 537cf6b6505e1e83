/** The partition driver: feeds a converter growing prefixes of a payload and arbitrary output windows. */
module PartitionDriver {
  import opened Basics
  import opened Progress
  import opened Codecs
  import opened Streaming
  import opened Lifecycles
  import opened Lifecycle
  import opened Buffers
  import ConvertEngines

  datatype Partition<+W, +X> = Converted(output: seq<W>, steps: nat) | Interrupted(delivered: seq<W>, error: X)

  /** Control byte of a turn; an empty schedule counts as zeros. */
  function Control(schedule: seq<byte>, turn: nat): byte {
    if schedule == [] then 0 else schedule[turn % |schedule|]
  }

  /** The run of one partition is the converted stream, whatever the schedule. */
  ghost predicate IsStream<Q, W, X>(stream: Outcome<Q, W, X>, r: Partition<W, X>, n: nat, q: Q) {
    match stream
    case Done(out, final) => r.Converted? && r.output == out && q == final && r.steps <= 2 * n + 2
    case Rejected(out, error, after) => r.Interrupted? && r.error == error && q == after && r.delivered <= out
  }

  /** One turn of the main loop as the driver theory sees it. */
  lemma TurnKeepsInvariant<Q(!new), U(!new), W(!new), X(!new)>(
    m: Machine<Q, U, W, X>, payload: seq<U>, start: Q, d: Driver<Q, W>, choice: Choice, room: nat)
    requires Faithful(m) && DriverOK(m, payload, start, d) && d.owed <= room
    ensures var t := React(d, |payload|, choice, Call(m, d.q, payload[..d.visible], d.cursor, room, d.eof));
            TurnOK(m, payload, start, t) && (t.Running? ==> d.calls + 1 < CallBound(m, |payload|))
  {
    ReactKeepsInvariant(m, payload, start, d, choice, room);
    var t := React(d, |payload|, choice, Call(m, d.q, payload[..d.visible], d.cursor, room, d.eof));
    if t.Running? {
      WorkLeft(m, payload, start, t.driver);
    }
  }

  /** One call on the visible prefix with a fresh output window; its progress passes the validator. */
  method CallOnce<S(!new), T(!new), U(!new), V(0, !new), W(0, !new), E(!new)>(
    engine: ConvertEngines.ConvertEngine<S, T, U, V, W, E>, visible: seq<U>, cursor: usize, window: usize, eof: bool)
    returns (progress: Result<TranscodeProgress, ConvertError<E, V>>, units: seq<W>)
    requires engine.Conforms() && engine.Coupled() && cursor <= |visible| <= USIZE_MAX
    requires TranscodeRefusal(engine.lifecycle.phase).None?
    modifies engine.decoder, engine.encoder, engine.pending, engine.lifecycle
    ensures engine.Coupled() && engine.lifecycle.phase == Phase.Streaming
    ensures match Call(engine.Machine(), old(engine.State()), visible, cursor, window, eof)
            case Failed(_, error, after) => progress == Err(error) && engine.State() == after
            case Stopped(status, read, out, next) =>
              progress == Ok(TranscodeProgress(status, read, |out|)) && units == out && engine.State() == next
    ensures progress.Ok? ==>
              Honest(progress.value, |visible| - cursor, window) && (eof ==> !progress.value.status.NeedInput?)
  {
    hide Call, Faithful, ConformsDecode, ConformsEncode, Splice, Validate;
    var buffer := new W[window];
    ghost var blank := buffer[..];
    ghost var c := Call(engine.Machine(), engine.State(), visible, cursor, window, eof);
    progress := engine.Transcode(visible, cursor, buffer, 0, eof);
    if progress.Err? {
      return progress, [];
    }
    ValidateIffHonest(progress.value, |visible|, cursor, window, 0);
    assert Validate(progress.value, cursor, |visible| - cursor, 0, window).None?;
    SplicePrefix(blank, c.out);
    units := buffer[..progress.value.written];
  }

  /** The main loop: every call sees a prefix of the payload and an output window, an output stop is answered with
      exactly the requested window, and any other stop with more input or, once everything is visible, with end of
      input. */
  method FeedPartition<S(!new), T(!new), U(!new), V(0, !new), W(0, !new), E(!new)>(
    engine: ConvertEngines.ConvertEngine<S, T, U, V, W, E>, payload: seq<U>, schedule: seq<byte>)
    returns (r: Partition<W, ConvertError<E, V>>)
    requires engine.Conforms() && engine.Coupled() && |payload| <= USIZE_MAX
    requires engine.lifecycle.phase == Fresh && engine.State().pending == None
    modifies engine.decoder, engine.encoder, engine.pending, engine.lifecycle
    ensures engine.Coupled() && engine.lifecycle.phase == Phase.Streaming
    ensures IsStream(Oracle(engine.Machine(), payload, old(engine.State()), 0), r, |payload|, engine.State())
  {
    hide Call, Oracle, Faithful, ConformsDecode, ConformsEncode, DriverOK, React, Control;
    ghost var m, start := engine.Machine(), engine.State();
    var output := [];
    var cursor: usize, visible: usize, requiredWindow: usize := 0, 0, 0;
    var turn: nat, steps: nat, eof := 0, 0, false;
    ghost var d := Driver(start, 0, 0, false, 0, [], 0);
    FreshDriverOK(m, payload, start, 0, false);
    while true
      invariant engine.Coupled() && (engine.lifecycle.phase == Fresh || engine.lifecycle.phase == Phase.Streaming)
      invariant d == Driver(engine.State(), cursor, visible, eof, requiredWindow, output, steps)
      invariant cursor <= visible <= |payload|
      invariant DriverOK(m, payload, start, d) && steps < 2 * |payload| + 2
      decreases 2 * |payload| + 2 - steps
    {
      steps := steps + 1;
      assert steps <= 64 * (|payload| + 1) + 64;
      var control := Control(schedule, turn);
      var window := if requiredWindow > 0 then requiredWindow else control % 6;
      requiredWindow := 0;
      ghost var choice := Choice(window, control % 16, 0, false);
      TurnKeepsInvariant(m, payload, start, d, choice, window);
      ghost var c := Call(m, d.q, payload[..d.visible], d.cursor, window, d.eof);
      ReactUnfolds(d, |payload|, choice, c);
      var progress, units := CallOnce(engine, payload[..visible], cursor, window, eof);
      if progress.Err? {
        return Interrupted(output, progress.error);
      }
      cursor := cursor + progress.value.read;
      output := output + units;
      match progress.value.status {
        case NeedOutput(required) =>
          requiredWindow := required;
        case NeedInput(_) =>
          if visible < |payload| {
            visible := Min(visible + control % 16 + 1, |payload|);
          } else {
            assert !eof;
            eof := true;
          }
        case Complete =>
          if eof {
            return Converted(output, steps);
          } else if visible < |payload| {
            visible := Min(visible + control % 16 + 1, |payload|);
          } else {
            eof := true;
          }
      }
      d := React(d, |payload|, choice, c).driver;
      turn := turn + 1;
    }
  }

  /** Runs a complete stream over one buffer under a schedule. */
  method RunPartition<S(!new), T(!new), U(!new), V(0, !new), W(0, !new), E(!new)>(
    engine: ConvertEngines.ConvertEngine<S, T, U, V, W, E>, payload: seq<U>, schedule: seq<byte>)
    returns (r: Partition<W, ConvertError<E, V>>)
    requires engine.Conforms() && engine.Coupled() && |payload| <= USIZE_MAX
    requires engine.MaxResetOutputLen().Some? && engine.MaxFinishOutputLen().Some?
    modifies engine.decoder, engine.decoder.lifecycle, engine.encoder, engine.encoder.lifecycle
    modifies engine.pending, engine.lifecycle
    ensures IsStream(ConvertStream(engine.decoder.side, engine.encoder.side, old(engine.State()), payload), r,
                     |payload|, engine.State())
  {
    hide Call, Oracle, Faithful, ConvertReset, ConvertFinish, ConformsDecode, ConformsEncode, Splice, Landed;
    ghost var q0 := engine.State();
    var reset := new W[engine.MaxResetOutputLen().value];
    ghost var scratch := reset[..];
    var resetWritten := engine.Reset(reset, 0);
    LandedInScratch(ConvertReset(engine.decoder.side, engine.encoder.side, q0), resetWritten, scratch, reset[..],
                    engine.State());
    if resetWritten.Err? {
      return Interrupted([], resetWritten.error);
    }
    var first := reset[..resetWritten.value];
    engine.ResetRetainsNothing(q0);
    var main := FeedPartition(engine, payload, schedule);
    if main.Interrupted? {
      return Interrupted(first + main.delivered, main.error);
    }
    var finish := new W[engine.MaxFinishOutputLen().value];
    engine.CurrentFinishIsSmaller();
    ghost var q2 := engine.State();
    scratch := finish[..];
    var written := engine.Finish(finish, 0);
    LandedInScratch(ConvertFinish(engine.decoder.side, engine.encoder.side, q2), written, scratch, finish[..],
                    engine.State());
    if written.Err? {
      return Interrupted(first + main.output, written.error);
    }
    return Converted(first + main.output + finish[..written.value], main.steps);
  }

  /** The reaction of the driver, written out. */
  lemma ReactUnfolds<Q, W, X>(d: Driver<Q, W>, total: nat, choice: Choice, c: CallResult<Q, W, X>)
    requires d.visible <= total && !choice.announce && choice.extra == 0
    ensures var t := React(d, total, choice, c);
            match c
            case Failed(out, error, after) => t == Broken(d.delivered, out, error, after, d.calls + 1)
            case Stopped(status, read, out, next) =>
              var fed := if d.visible < total then Min(d.visible + choice.grow + 1, total) else d.visible;
              var eof := if d.visible < total then false else true;
              match status
              case NeedOutput(required) =>
                t == Running(Driver(next, d.cursor + read, d.visible, d.eof, required, d.delivered + out, d.calls + 1))
              case NeedInput(_) =>
                t == Running(Driver(next, d.cursor + read, fed, eof, 0, d.delivered + out, d.calls + 1))
              case Complete =>
                if d.eof then t == Completed(d.delivered + out, next, d.calls + 1)
                else t == Running(Driver(next, d.cursor + read, fed, eof, 0, d.delivered + out, d.calls + 1))
  {
  }
}
