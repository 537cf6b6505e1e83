/** Semantics of the encode engine: one value, and the engine as a streaming machine. */
module Encoding {
  import opened Basics
  import opened Progress
  import opened Codecs
  import opened Streaming

  /** What one encode attempt does with a value. */
  datatype Attempt<+T, +W, +X> =
    | Blocked(required: usize)
    | Encoded(units: seq<W>, next: T)
    | Rejection(error: X, after: T)

  /** Encoding of a value the codec accepts, when its exact width is available. */
  function EncodeFitting<T, V, W, E>(
    enc: EncodeSide<T, V, W, E>, t: T, v: V, index: nat, room: nat): Attempt<T, W, EncodeError<E, V>>
  {
    var required := enc.codec.encodeLen(t, v);
    if room < required then Blocked(required)
    else match enc.codec.encode(t, v)
      case Wrote(units, next) => Encoded(units, next)
      case WriteFailed(error, after) => Rejection(EncodeDomain(MainError(error, index, None)), after)
  }

  /** `encode_one`: the policy for an unencodable value is consulted only once the widest encoding would fit. */
  function EncodeOne<T, V, W, E>(
    enc: EncodeSide<T, V, W, E>, t: T, v: V, index: nat, room: nat): Attempt<T, W, EncodeError<E, V>>
  {
    if enc.codec.canEncode(t, v) then EncodeFitting(enc, t, v, index, room)
    else if room < enc.codec.maxUnits then Blocked(enc.codec.maxUnits)
    else match enc.hooks.handleUnencodable(t, v)
      case Refused(error, after) => Rejection(error, after)
      case Ruled(RejectValue, next) => Rejection(EncodeUnencodable(index, None), next)
      case Ruled(SkipValue, next) => Encoded([], next)
      case Ruled(ReplaceValue(r), next) => EncodeFitting(enc, next, r, index, room)
  }

  /** The attempt with output to spare. */
  function EncodeFreely<T, V, W, E>(enc: EncodeSide<T, V, W, E>, t: T, v: V, index: nat)
    : Attempt<T, W, EncodeError<E, V>>
  {
    EncodeOne(enc, t, v, index, enc.codec.maxUnits)
  }

  /** Output room decides only whether an attempt happens now.  A blocked attempt asks for at most the declared
      width, happens as soon as it gets what it asked for, and leaves codec and hooks untouched until then: a hook
      is never asked twice about one value, since the shortage check behind a replacement cannot fire. */
  lemma RoomOnlyDelays<T(!new), V(!new), W(!new), E(!new)>(
    enc: EncodeSide<T, V, W, E>, t: T, v: V, index: nat, room: nat)
    requires ConformsEncode(enc)
    ensures var a := EncodeOne(enc, t, v, index, room);
            if a.Blocked? then
              && room < a.required <= enc.codec.maxUnits
              && forall more: nat | a.required <= more :: !EncodeOne(enc, t, v, index, more).Blocked?
            else
              && a == EncodeFreely(enc, t, v, index)
              && (a.Encoded? ==> |a.units| <= room && |a.units| <= enc.codec.maxUnits)
    ensures !EncodeFreely(enc, t, v, index).Blocked?
    ensures !enc.codec.canEncode(t, v) && enc.codec.maxUnits <= room ==> !EncodeOne(enc, t, v, index, room).Blocked?
  {
    assert EncodeExact(enc, t, v) && ReplacementEncodable(enc, t, v);
    var ruling := enc.hooks.handleUnencodable(t, v);
    if ruling.Ruled? && ruling.action.ReplaceValue? {
      assert EncodeExact(enc, ruling.next, ruling.action.value);
    }
  }

  // ---------------------------------------------------------------------------------------------------------
  // The encode engine as a machine
  // ---------------------------------------------------------------------------------------------------------

  function AttemptStep<T, W, X>(a: Attempt<T, W, X>): Step<T, W, X> {
    match a
    case Blocked(required) => Stop(NeedOutput(required))
    case Encoded(units, next) => Go(1, units, next)
    case Rejection(error, after) => Fail(error, after)
  }

  function EncodeStep<T, V, W, E>(enc: EncodeSide<T, V, W, E>, t: T, visible: seq<V>, i: nat, room: nat)
    : Step<T, W, EncodeError<E, V>>
  {
    if i >= |visible| then Stop(Complete) else AttemptStep(EncodeOne(enc, t, visible[i], i, room))
  }

  function EncodeIdeal<T, V, W, E>(enc: EncodeSide<T, V, W, E>, t: T, payload: seq<V>, i: nat)
    : Step<T, W, EncodeError<E, V>>
  {
    if i >= |payload| then Stop(Complete) else AttemptStep(EncodeFreely(enc, t, payload[i], i))
  }

  function EncodeMachine<T(!new), V(!new), W(!new), E(!new)>(enc: EncodeSide<T, V, W, E>)
    : Machine<T, V, W, EncodeError<E, V>>
  {
    Machine((t, visible, i, room, _) => EncodeStep(enc, t, visible, i, room),
            (t, payload, i) => EncodeIdeal(enc, t, payload, i),
            _ => 0,
            true)
  }

  /** The encode engine keeps the streaming contract for every conforming codec and policy. */
  lemma EncodeFaithful<T(!new), V(!new), W(!new), E(!new)>(enc: EncodeSide<T, V, W, E>)
    requires ConformsEncode(enc)
    ensures Faithful(EncodeMachine(enc))
  {
    var m := EncodeMachine(enc);
    forall payload, t, i: nat | i <= |payload| ensures IdealOK(m, payload, t, i) {
      if i < |payload| {
        RoomOnlyDelays(enc, t, payload[i], i, 0);
      }
    }
    forall payload, v: nat, t, i: nat, room: nat, eof | i <= v <= |payload| && (eof ==> v == |payload|)
      ensures StepOK(m, payload, v, t, i, room, eof)
    {
      if i < v {
        EncodeStepOK(enc, payload, v, t, i, room, eof);
      }
    }
  }

  lemma EncodeStepOK<T(!new), V(!new), W(!new), E(!new)>(
    enc: EncodeSide<T, V, W, E>, payload: seq<V>, v: nat, t: T, i: nat, room: nat, eof: bool)
    requires ConformsEncode(enc) && i < v <= |payload|
    ensures StepOK(EncodeMachine(enc), payload, v, t, i, room, eof)
  {
    var m := EncodeMachine(enc);
    assert payload[..v][i] == payload[i];
    RoomOnlyDelays(enc, t, payload[i], i, room);
    var a := EncodeOne(enc, t, payload[i], i, room);
    if a.Blocked? {
      forall v': nat, eof', more: nat | SeesMore(v, eof, v', eof', |payload|) && a.required <= more
        ensures Open(m, payload, v', t, i, more, eof')
      {
        assert payload[..v'][i] == payload[i];
        RoomOnlyDelays(enc, t, payload[i], i, more);
      }
    }
  }

  /** One step of an encode call. */
  lemma EncodeCallUnfolds<T(!new), V(!new), W(!new), E(!new)>(
    enc: EncodeSide<T, V, W, E>, t: T, visible: seq<V>, i: nat, room: nat, eof: bool,
    step: Step<T, W, EncodeError<E, V>>)
    requires Faithful(EncodeMachine(enc)) && i <= |visible|
    requires step == EncodeStep(enc, t, visible, i, room)
    ensures step.Go? ==>
              && i + step.read <= |visible| && |step.out| <= room
              && Call(EncodeMachine(enc), t, visible, i, room, eof) ==
                 Resume(step.read, step.out,
                        Call(EncodeMachine(enc), step.next, visible, i + step.read, room - |step.out|, eof))
    ensures step.Stop? ==> Call(EncodeMachine(enc), t, visible, i, room, eof) == Stopped(step.status, 0, [], t)
    ensures step.Fail? ==> Call(EncodeMachine(enc), t, visible, i, room, eof) == Failed([], step.error, step.after)
  {
    hide EncodeOne;
    assert StepOK(EncodeMachine(enc), visible, |visible|, t, i, room, eof) && visible[..|visible|] == visible;
  }

  /** Every move of an encode call consumes exactly one value. */
  lemma EncodeStepReads<T(!new), V(!new), W(!new), E(!new)>(
    enc: EncodeSide<T, V, W, E>, t: T, visible: seq<V>, i: nat, room: nat)
    ensures EncodeStep(enc, t, visible, i, room).Go? ==> EncodeStep(enc, t, visible, i, room).read == 1 && i < |visible|
  {
  }

  lemma EncodeStepAtEnd<T(!new), V(!new), W(!new), E(!new)>(
    enc: EncodeSide<T, V, W, E>, t: T, visible: seq<V>, room: nat)
    ensures EncodeStep(enc, t, visible, |visible|, room) == Stop(Complete)
  {
  }
}
