/** Semantics of the converter: a decode side feeding an encode side through one retained value. */
module Converting {
  import opened Basics
  import opened Progress
  import opened Codecs
  import opened Streaming
  import opened Decoding
  import opened Encoding

  /** A decoded value that waits for output, with the source position it came from. */
  datatype PendingValue<+V> = PendingValue(value: V, inputIndex: nat)

  /** Converter state: both sides and the retained value. */
  datatype Conv<+S, +T, +V> = Conv(source: S, target: T, pending: Option<PendingValue<V>>)

  function Retained<S, T, V>(q: Conv<S, T, V>): nat { if q.pending.Some? then 1 else 0 }

  /** Effect of an attempt to encode a retained value. */
  function PendingStep<S, T, V, W, E>(q: Conv<S, T, V>, p: PendingValue<V>, a: Attempt<T, W, EncodeError<E, V>>)
    : Step<Conv<S, T, V>, W, ConvertError<E, V>>
  {
    match a
    case Blocked(required) => Stop(NeedOutput(required))
    case Encoded(units, next) => Go(0, units, Conv(q.source, next, None))
    case Rejection(error, after) =>
      Fail(FromEncodeErrorWithValue(error, p.value), Conv(q.source, after, None))
  }

  /** Effect of a decode event at position `i`: an emitted value is retained, not yet encoded. */
  function SourceStep<S, T, V, W, E>(q: Conv<S, T, V>, i: nat, e: Event<S, V, E>)
    : Step<Conv<S, T, V>, W, ConvertError<E, V>>
  {
    match e
    case Starved(required) => Stop(NeedInput(required))
    case Emitted(value, read, next) => Go(read, [], Conv(next, q.target, Some(PendingValue(value, i))))
    case Skipped(read, next) => Go(read, [], Conv(next, q.target, None))
    case Refuted(error, after) => Fail(FromDecodeError(error), Conv(after, q.target, None))
  }

  /** One event of the conversion loop; a retained value goes before any further input. */
  function ConvertStep<S, T, U, V, W, E>(
    dec: DecodeSide<S, U, V, E>, enc: EncodeSide<T, V, W, E>, q: Conv<S, T, V>, visible: seq<U>, i: nat, room: nat,
    eof: bool): Step<Conv<S, T, V>, W, ConvertError<E, V>>
  {
    match q.pending
    case Some(p) => PendingStep(q, p, EncodeOne(enc, q.target, p.value, p.inputIndex, room))
    case None =>
      if i >= |visible| then Stop(Complete)
      else SourceStep(q, i, DecodeOne(dec, q.source, visible[i..], i, eof))
  }

  function ConvertIdeal<S, T, U, V, W, E>(
    dec: DecodeSide<S, U, V, E>, enc: EncodeSide<T, V, W, E>, q: Conv<S, T, V>, payload: seq<U>, i: nat)
    : Step<Conv<S, T, V>, W, ConvertError<E, V>>
  {
    match q.pending
    case Some(p) => PendingStep(q, p, EncodeFreely(enc, q.target, p.value, p.inputIndex))
    case None =>
      if i >= |payload| then Stop(Complete)
      else SourceStep(q, i, FinalEvent(dec, q.source, payload[i..], i))
  }

  function ConvertMachine<S(!new), T(!new), U(!new), V(!new), W(!new), E(!new)>(
    dec: DecodeSide<S, U, V, E>, enc: EncodeSide<T, V, W, E>): Machine<Conv<S, T, V>, U, W, ConvertError<E, V>>
  {
    Machine((q, visible, i, room, eof) => ConvertStep(dec, enc, q, visible, i, room, eof),
            (q, payload, i) => ConvertIdeal(dec, enc, q, payload, i),
            q => Retained(q),
            true)
  }

  lemma PendingStepOK<S(!new), T(!new), U(!new), V(!new), W(!new), E(!new)>(
    dec: DecodeSide<S, U, V, E>, enc: EncodeSide<T, V, W, E>, payload: seq<U>, v: nat, q: Conv<S, T, V>, i: nat,
    room: nat, eof: bool)
    requires ConformsEncode(enc) && i <= v <= |payload| && q.pending.Some?
    ensures StepOK(ConvertMachine(dec, enc), payload, v, q, i, room, eof)
  {
    var m := ConvertMachine(dec, enc);
    var p := q.pending.value;
    RoomOnlyDelays(enc, q.target, p.value, p.inputIndex, room);
    var a := EncodeOne(enc, q.target, p.value, p.inputIndex, room);
    if a.Blocked? {
      forall v': nat, eof', more: nat | SeesMore(v, eof, v', eof', |payload|) && a.required <= more
        ensures Open(m, payload, v', q, i, more, eof')
      {
        RoomOnlyDelays(enc, q.target, p.value, p.inputIndex, more);
      }
    }
  }

  lemma SourceStepOK<S(!new), T(!new), U(!new), V(!new), W(!new), E(!new)>(
    dec: DecodeSide<S, U, V, E>, enc: EncodeSide<T, V, W, E>, payload: seq<U>, v: nat, q: Conv<S, T, V>, i: nat,
    room: nat, eof: bool)
    requires ConformsDecode(dec) && i <= v <= |payload| && (eof ==> v == |payload|) && q.pending.None?
    ensures StepOK(ConvertMachine(dec, enc), payload, v, q, i, room, eof)
  {
    if i < v {
      assert payload[..v][i..] <= payload[i..];
      EventIsFinal(dec, q.source, payload[..v][i..], payload[i..], i, eof);
    }
  }

  /** The converter keeps the streaming contract for every conforming pair of sides. */
  lemma ConvertFaithful<S(!new), T(!new), U(!new), V(!new), W(!new), E(!new)>(
    dec: DecodeSide<S, U, V, E>, enc: EncodeSide<T, V, W, E>)
    requires ConformsDecode(dec) && ConformsEncode(enc)
    ensures Faithful(ConvertMachine(dec, enc))
  {
    var m := ConvertMachine(dec, enc);
    forall payload, q, i: nat | i <= |payload| ensures IdealOK(m, payload, q, i) {
      if q.pending.Some? {
        RoomOnlyDelays(enc, q.target, q.pending.value.value, q.pending.value.inputIndex, 0);
      } else if i < |payload| {
        EventIsFinal(dec, q.source, payload[i..], payload[i..], i, true);
      }
    }
    forall payload, v: nat, q, i: nat, room: nat, eof | i <= v <= |payload| && (eof ==> v == |payload|)
      ensures StepOK(m, payload, v, q, i, room, eof)
    {
      if q.pending.Some? {
        PendingStepOK(dec, enc, payload, v, q, i, room, eof);
      } else {
        SourceStepOK(dec, enc, payload, v, q, i, room, eof);
      }
    }
  }

  /** One step of a conversion call. */
  lemma ConvertCallUnfolds<S(!new), T(!new), U(!new), V(!new), W(!new), E(!new)>(
    dec: DecodeSide<S, U, V, E>, enc: EncodeSide<T, V, W, E>, q: Conv<S, T, V>, visible: seq<U>, i: nat, room: nat,
    eof: bool, step: Step<Conv<S, T, V>, W, ConvertError<E, V>>)
    requires Faithful(ConvertMachine(dec, enc)) && i <= |visible|
    requires step == ConvertStep(dec, enc, q, visible, i, room, eof)
    ensures step.Go? ==>
              && i + step.read <= |visible| && |step.out| <= room
              && Call(ConvertMachine(dec, enc), q, visible, i, room, eof) ==
                 Resume(step.read, step.out,
                        Call(ConvertMachine(dec, enc), step.next, visible, i + step.read, room - |step.out|, eof))
    ensures step.Stop? ==>
              Call(ConvertMachine(dec, enc), q, visible, i, room, eof) == Stopped(step.status, 0, [], q)
    ensures step.Fail? ==>
              Call(ConvertMachine(dec, enc), q, visible, i, room, eof) == Failed([], step.error, step.after)
  {
    hide ConvertStep, ConvertIdeal;
    assert StepOK(ConvertMachine(dec, enc), visible, |visible|, q, i, room, eof) && visible[..|visible|] == visible;
  }
}
