/** The cancellation-safe asynchronous encode output: a retained buffer between an encoder and a slow sink. */
module EncodeOutput {
  import opened Basics
  import opened Progress
  import opened Codecs
  import opened Streaming
  import opened Encoding
  import opened Lifecycle
  import opened Buffers
  import opened Stops
  import EncodeEngines

  /** Result of polling one step. */
  datatype Poll<+P, +X> = Pending | Ready(result: Result<P, X>)

  datatype SinkFailure = SinkFailure

  /** What the sink does when it is polled: it takes up to `accepts` units, and may fail. */
  datatype SinkTurn = SinkTurn(accepts: nat, fails: bool)

  datatype OutputError<+E, +V> =
    | RangeExceeded
    | CapacityOverflow
    | SinkFailed
    | EncoderFailed(error: EncodeError<E, V>)

  class AsyncEncodeOutput<W(0, !new)> {
    /** Units the sink has accepted. */
    var delivered: seq<W>
    /** Units encoded but not accepted yet. */
    var buffered: seq<W>
    var capacity: usize
    /** Spare room the next encoder call needs. */
    var requiredSpare: usize

    ghost predicate Valid()
      reads this
    {
      |buffered| <= capacity && 1 <= requiredSpare
    }

    /** All encoded units, in order, wherever they are. */
    ghost function Committed(): seq<W>
      reads this
    {
      delivered + buffered
    }

    constructor (capacity: usize)
      ensures Valid() && Committed() == [] && requiredSpare == 1
    {
      delivered, buffered, this.capacity, requiredSpare := [], [], capacity, 1;
    }

    /** Units the sink takes out of the buffer in a turn. */
    ghost function Taken(turn: SinkTurn): nat
      reads this
    {
      Min(turn.accepts, |buffered|)
    }

    /** Lets the sink take a prefix of the buffer and then perhaps fail; otherwise ready exactly when enough room is
        spare. */
    method PollSpare(required: usize, turn: SinkTurn) returns (ready: Poll<(), SinkFailure>)
      requires Valid() && required <= capacity
      modifies this`delivered, this`buffered
      ensures Valid() && Committed() == old(Committed())
      ensures delivered == old(delivered) + old(buffered)[..old(Taken(turn))]
      ensures turn.fails <==> ready.Ready? && ready.result.Err?
      ensures ready.Ready? && ready.result.Ok? <==> !turn.fails && required <= capacity - |buffered|
    {
      var accepted := Min(turn.accepts, |buffered|);
      assert buffered == buffered[..accepted] + buffered[accepted..];
      delivered, buffered := delivered + buffered[..accepted], buffered[accepted..];
      if turn.fails {
        return Ready(Err(SinkFailure));
      }
      return if required <= capacity - |buffered| then Ready(Ok(())) else Pending;
    }

    /** The encoder call of a ready step, into all the spare room there is: its result is the machine's, and what it
        wrote is committed behind the earlier units. */
    method CommitStep<T(!new), V(!new), E(!new)>(
      encoder: EncodeEngines.EncodeEngine<T, V, W, E>, input: seq<V>, inputIndex: usize, inputEnd: usize)
      returns (r: Result<TranscodeProgress, OutputError<E, V>>)
      requires Valid() && encoder.Conforms() && inputIndex <= inputEnd <= |input| <= USIZE_MAX
      requires TranscodeRefusal(encoder.lifecycle.phase).None?
      modifies this`buffered, this`requiredSpare, encoder, encoder.lifecycle
      ensures Valid() && encoder.lifecycle.phase == Phase.Streaming
      ensures match Call(EncodeMachine(encoder.side), old(encoder.state), input[..inputEnd], inputIndex,
                         capacity - |old(buffered)|, true)
              case Failed(_, error, after) =>
                && r == Err(EncoderFailed(error)) && encoder.state == after
                && buffered == old(buffered) && requiredSpare == old(requiredSpare)
              case Stopped(status, read, out, next) =>
                && r == Ok(TranscodeProgress(status, read, |out|)) && encoder.state == next
                && buffered == old(buffered) + out
                && requiredSpare == if status.NeedOutput? then status.required else 1
    {
      hide Oracle, Call, Faithful, ConformsEncode, Splice;
      var window := new W[capacity - |buffered|];
      ghost var blank, t0 := window[..], encoder.state;
      ghost var c := Call(EncodeMachine(encoder.side), t0, input[..inputEnd], inputIndex, window.Length, true);
      var progress := encoder.Transcode(input[..inputEnd], inputIndex, window, 0);
      if progress.Err? {
        return Err(EncoderFailed(progress.error));
      }
      var p := progress.value;
      ValidateIffHonest(p, inputEnd, inputIndex, window.Length, 0);
      var violation := Validate(p, inputIndex, inputEnd - inputIndex, 0, window.Length);
      if violation.Some? {
        // A failure of the progress contract.
        assert false;
      }
      SplicePrefix(blank, c.out);
      buffered := buffered + window[..p.written];
      requiredSpare := if p.status.NeedOutput? then p.status.required else 1;
      return Ok(p);
    }

    /** Room the next encoder call waits for: what the last one asked for, the encoder's bound for one value, and at
        least one slot. */
    ghost function NeededSpare(perValue: usize): usize
      reads this
    {
      Max(requiredSpare, Max(perValue, 1))
    }

    /** One poll of a transcode step.  It is pending exactly while the room behind the buffer is short, and then neither
        the encoder nor the order of units has changed, so the future may be dropped at any time.  Otherwise it makes
        exactly one encoder call, into all the room there is and at least as much as the last call had asked for, which
        consumes at least one value, and commits its units behind the earlier ones. */
    method PollTranscode<T(!new), V(!new), E(!new)>(
      encoder: EncodeEngines.EncodeEngine<T, V, W, E>, input: seq<V>, inputIndex: usize, count: usize, turn: SinkTurn)
      returns (poll: Poll<TranscodeProgress, OutputError<E, V>>)
      requires Valid() && encoder.Conforms() && |input| <= USIZE_MAX
      requires TranscodeRefusal(encoder.lifecycle.phase).None?
      modifies this, encoder, encoder.lifecycle
      ensures Valid() && TranscodeRefusal(encoder.lifecycle.phase).None?
      ensures var bound := encoder.MaxTranscodeOutputLen(1);
              if inputIndex + count > |input| then
                poll == Ready(Err(RangeExceeded)) && Untouched(encoder, old(encoder.state), old(requiredSpare))
                && delivered == old(delivered) && buffered == old(buffered)
              else if count == 0 then
                poll == Ready(Ok(TranscodeProgress(Complete, 0, 0)))
                && Untouched(encoder, old(encoder.state), old(requiredSpare))
                && delivered == old(delivered) && buffered == old(buffered)
              else if bound.None? then
                poll == Ready(Err(CapacityOverflow)) && Untouched(encoder, old(encoder.state), old(requiredSpare))
                && delivered == old(delivered) && buffered == old(buffered)
              else
                var needed := old(NeededSpare(encoder.MaxTranscodeOutputLen(1).value));
                var spare := capacity - (|old(buffered)| - old(Taken(turn)));
                && capacity == Max(old(capacity), needed)
                && delivered == old(delivered) + old(buffered)[..old(Taken(turn))]
                && if turn.fails then
                     poll == Ready(Err(SinkFailed)) && Untouched(encoder, old(encoder.state), old(requiredSpare))
                     && Committed() == old(Committed())
                   else if spare < needed then
                     poll == Pending && Untouched(encoder, old(encoder.state), old(requiredSpare))
                     && Committed() == old(Committed())
                   else
                     CallCommitted(encoder, old(encoder.state), input, inputIndex, count, spare, old(Committed()), poll)
      ensures poll.Pending? ==> encoder.lifecycle.phase == old(encoder.lifecycle.phase)
    {
      hide Oracle, Call, Faithful, ConformsEncode;
      if inputIndex > |input| || count > |input| - inputIndex {
        return Ready(Err(RangeExceeded));
      }
      if count == 0 {
        return Ready(Ok(TranscodeProgress(Complete, 0, 0)));
      }
      var perValue := encoder.MaxTranscodeOutputLen(1);
      if perValue.None? {
        return Ready(Err(CapacityOverflow));
      }
      var required: usize := Max(requiredSpare, Max(perValue.value, 1));
      capacity := Max(capacity, required);
      var ready := PollSpare(required, turn);
      if ready.Pending? {
        return Pending;
      }
      if ready.result.Err? {
        return Ready(Err(SinkFailed));
      }
      ghost var t0, spare := encoder.state, capacity - |buffered|;
      ReadyCallConsumes(encoder, input[..inputIndex + count], inputIndex, spare, t0);
      var step := CommitStep(encoder, input, inputIndex, inputIndex + count);
      return Ready(step);
    }

    /** Neither the encoder nor the remembered requirement has changed. */
    ghost predicate Untouched<T(!new), V(!new), E(!new)>(
      encoder: EncodeEngines.EncodeEngine<T, V, W, E>, t: T, spare: usize)
      reads this, encoder
    {
      encoder.state == t && requiredSpare == spare
    }

    /** One encoder call from state `t` into `room` slots has been made and its units are committed behind `before`. */
    ghost predicate CallCommitted<T(!new), V(!new), E(!new)>(
      encoder: EncodeEngines.EncodeEngine<T, V, W, E>, t: T, input: seq<V>, inputIndex: nat, count: nat, room: nat,
      before: seq<W>, poll: Poll<TranscodeProgress, OutputError<E, V>>)
      requires encoder.Conforms() && inputIndex + count <= |input|
      reads this, encoder
    {
      match Call(EncodeMachine(encoder.side), t, input[..inputIndex + count], inputIndex, room, true)
      case Failed(_, error, after) =>
        poll == Ready(Err(EncoderFailed(error))) && encoder.state == after && Committed() == before
      case Stopped(status, read, out, next) =>
        && poll.Ready? && poll.result == Ok(TranscodeProgress(status, read, |out|)) && encoder.state == next
        && Committed() == before + out && 0 < read <= count && !status.NeedInput?
        && requiredSpare == if status.NeedOutput? then status.required else 1
    }

    /** With the encoder's bound for one value to spare, a call on a non-empty input consumes something or fails. */
    lemma ReadyCallConsumes<T(!new), V(!new), E(!new)>(
      encoder: EncodeEngines.EncodeEngine<T, V, W, E>, visible: seq<V>, i: nat, room: nat, t: T)
      requires encoder.Conforms() && i < |visible|
      requires encoder.MaxTranscodeOutputLen(1).Some? && encoder.MaxTranscodeOutputLen(1).value <= room
      ensures var c := Call(EncodeMachine(encoder.side), t, visible, i, room, true);
              c.Stopped? ==> 0 < c.read <= |visible| - i && !c.status.NeedInput?
    {
      hide Call, Faithful, ConformsEncode, EncodeOne;
      var enc := encoder.side;
      BoundIsEnough(enc, 1);
      RoomOnlyDelays(enc, t, visible[i], i, room);
      EncodeCallUnfolds(enc, t, visible, i, room, true, EncodeStep(enc, t, visible, i, room));
      EncodeStepReads(enc, t, visible, i, room);
      EncodeStopsAreDue(enc, t, visible, i, room, true);
    }

    /** A call on part of the input is a piece of the encoding of all of it. */
    lemma OneCall<T(!new), V(!new), E(!new)>(
      encoder: EncodeEngines.EncodeEngine<T, V, W, E>, input: seq<V>, end: nat, i: nat, room: nat, t: T)
      requires encoder.Conforms() && i <= end <= |input|
      ensures var m := EncodeMachine(encoder.side);
              var c := Call(m, t, input[..end], i, room, true);
              if c.Failed? then Oracle(m, input, t, i) == Rejected(c.out, c.error, c.after)
              else
                && i + c.read <= end && |c.out| <= room
                && Oracle(m, input, t, i) == Prepend(c.out, Oracle(m, input, c.next, i + c.read))
                && (c.status.Complete? ==> i + c.read == end)
    {
      hide Call, Oracle, ConformsEncode, Unblocks;
      encoder.EofIsIgnored(input[..end], i, room, false, t);
      CallFollowsOracle(EncodeMachine(encoder.side), input, end, t, i, room, false);
    }

    /** One poll for everything that is left, in terms of the encoding of all of it. */
    method PollRest<T(!new), V(!new), E(!new)>(
      encoder: EncodeEngines.EncodeEngine<T, V, W, E>, input: seq<V>, cursor: usize, turn: SinkTurn)
      returns (poll: Poll<TranscodeProgress, OutputError<E, V>>, ghost more: seq<W>)
      requires Valid() && encoder.Conforms() && cursor <= |input| <= USIZE_MAX
      requires TranscodeRefusal(encoder.lifecycle.phase).None?
      modifies this, encoder, encoder.lifecycle
      ensures Valid() && TranscodeRefusal(encoder.lifecycle.phase).None? && Committed() == old(Committed()) + more
      ensures poll == Ready(Err(SinkFailed)) ==> turn.fails
      ensures turn == SinkTurn(USIZE_MAX, false) ==> poll.Ready?
      ensures var m := EncodeMachine(encoder.side);
              var here := Oracle(m, input, old(encoder.state), cursor);
              if poll.Ready? && poll.result.Err? && poll.result.error.EncoderFailed? then
                more == [] && here.Rejected? && here.error == poll.result.error.error && here.after == encoder.state
              else
                var read := if poll.Ready? && poll.result.Ok? then poll.result.value.read else 0;
                && cursor + read <= |input| && (poll.Ready? && poll.result.Ok? && cursor < |input| ==> 0 < read)
                && here == Prepend(more, Oracle(m, input, encoder.state, cursor + read))
    {
      hide Oracle, Call, Faithful, ConformsEncode;
      ghost var t, before, room := encoder.state, Committed(), |buffered| - Taken(turn);
      PrependNested([], [], Oracle(EncodeMachine(encoder.side), input, t, cursor));
      poll := PollTranscode(encoder, input, cursor, |input| - cursor, turn);
      assert input[..|input|] == input;
      OneCall(encoder, input, |input|, cursor, if room <= capacity then capacity - room else 0, t);
      more := Committed()[|before|..];
      assert Committed() == before + more;
    }

    /** Any number of polls, whatever the sink does in its turns: the committed units are the encoding of exactly the
        values consumed so far.  A rejection is the oracle's, and what was committed before is a prefix of its output.
        A sink that always takes everything lets every poll consume something. */
    method PollRepeatedly<T(!new), V(!new), E(!new)>(
      encoder: EncodeEngines.EncodeEngine<T, V, W, E>, input: seq<V>, polls: nat, sink: nat -> SinkTurn)
      returns (cursor: usize, failure: Option<OutputError<E, V>>)
      requires Valid() && encoder.Conforms() && |input| <= USIZE_MAX
      requires TranscodeRefusal(encoder.lifecycle.phase).None?
      modifies this, encoder, encoder.lifecycle
      ensures Valid() && cursor <= |input| && old(Committed()) <= Committed()
      ensures var m := EncodeMachine(encoder.side);
              var whole := Oracle(m, input, old(encoder.state), 0);
              var committed := Committed()[|old(Committed())|..];
              match failure
              case Some(EncoderFailed(error)) =>
                whole.Rejected? && whole.error == error && whole.after == encoder.state && committed <= whole.out
              case _ => whole == Prepend(committed, Oracle(m, input, encoder.state, cursor))
      ensures failure == Some(SinkFailed) ==> exists k :: 0 <= k < polls && sink(k).fails
      ensures (forall k :: sink(k) == SinkTurn(USIZE_MAX, false)) && failure == None ==>
                Min(polls, |input|) <= cursor
    {
      hide Oracle, Call, Faithful, ConformsEncode;
      ghost var m, start := EncodeMachine(encoder.side), Committed();
      ghost var whole := Oracle(m, input, encoder.state, 0);
      ghost var committed: seq<W> := [];
      cursor, failure := 0, None;
      PrependNested([], [], whole);
      for k := 0 to polls
        invariant Valid() && TranscodeRefusal(encoder.lifecycle.phase).None? && cursor <= |input|
        invariant Committed() == start + committed
        invariant whole == Prepend(committed, Oracle(m, input, encoder.state, cursor))
        invariant (forall k :: sink(k) == SinkTurn(USIZE_MAX, false)) ==> Min(k, |input|) <= cursor
      {
        var poll;
        ghost var more;
        poll, more := PollRest(encoder, input, cursor, sink(k));
        assert start + committed + more == start + (committed + more);
        ghost var read := if poll.Ready? && poll.result.Ok? then poll.result.value.read else 0;
        PrependNested(committed, more, Oracle(m, input, encoder.state, cursor + read));
        committed := committed + more;
        if poll.Ready? {
          if poll.result.Err? {
            return cursor, Some(poll.result.error);
          }
          cursor := cursor + poll.result.value.read;
        }
      }
    }
  }
}
