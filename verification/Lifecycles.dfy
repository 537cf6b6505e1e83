/** Whole streams: reset, main phase, finish.  These are the meanings the engines are proved against. */
module Lifecycles {
  import opened Basics
  import opened Codecs
  import opened Streaming
  import opened Decoding
  import opened Encoding
  import opened Converting

  // ---------------------------------------------------------------------------------------------------------
  // Decode side
  // ---------------------------------------------------------------------------------------------------------

  function DecodeReset<S, U, V, E>(dec: DecodeSide<S, U, V, E>, s: S): Outcome<S, V, DecodeError<E>> {
    match dec.codec.decodeReset(dec.hooks.resetHooks(s))
    case Wrote(values, next) => Done(values, next)
    case WriteFailed(error, after) => Rejected([], DecodeDomain(ResetError(error)), after)
  }

  /** The codec finishes before its hooks. */
  function DecodeFinish<S, U, V, E>(dec: DecodeSide<S, U, V, E>, s: S): Outcome<S, V, DecodeError<E>> {
    match dec.codec.decodeFinish(s)
    case WriteFailed(error, after) => Rejected([], DecodeDomain(FinishError(error)), after)
    case Wrote(values, next) =>
      match dec.hooks.finishHooks(next)
      case WriteFailed(error, after) => Rejected(values, error, after)
      case Wrote(more, last) => Done(values + more, last)
  }

  /** reset, decode everything, finish. */
  ghost function DecodeStream<S(!new), U(!new), V(!new), E(!new)>(dec: DecodeSide<S, U, V, E>, s: S, payload: seq<U>)
    : Outcome<S, V, DecodeError<E>>
    requires ConformsDecode(dec)
  {
    DecodeFaithful(dec);
    match DecodeReset(dec, s)
    case Rejected(out, error, after) => Rejected(out, error, after)
    case Done(first, s1) =>
      match Oracle(DecodeMachine(dec), payload, s1, 0)
      case Rejected(out, error, after) => Rejected(first + out, error, after)
      case Done(main, s2) => Prepend(first + main, DecodeFinish(dec, s2))
  }

  // ---------------------------------------------------------------------------------------------------------
  // Encode side
  // ---------------------------------------------------------------------------------------------------------

  function EncodeReset<T, V, W, E>(enc: EncodeSide<T, V, W, E>, t: T): Outcome<T, W, EncodeError<E, V>> {
    match enc.codec.encodeReset(enc.hooks.resetHooks(t))
    case Wrote(units, next) => Done(units, next)
    case WriteFailed(error, after) => Rejected([], EncodeDomain(ResetError(error)), after)
  }

  function EncodeFinish<T, V, W, E>(enc: EncodeSide<T, V, W, E>, t: T): Outcome<T, W, EncodeError<E, V>> {
    match enc.codec.encodeFinish(t)
    case WriteFailed(error, after) => Rejected([], EncodeDomain(FinishError(error)), after)
    case Wrote(units, next) =>
      match enc.hooks.finishHooks(next)
      case WriteFailed(error, after) => Rejected(units, error, after)
      case Wrote(more, last) => Done(units + more, last)
  }

  /** reset, encode everything, finish. */
  ghost function EncodeStream<T(!new), V(!new), W(!new), E(!new)>(enc: EncodeSide<T, V, W, E>, t: T, values: seq<V>)
    : Outcome<T, W, EncodeError<E, V>>
    requires ConformsEncode(enc)
  {
    EncodeFaithful(enc);
    match EncodeReset(enc, t)
    case Rejected(out, error, after) => Rejected(out, error, after)
    case Done(first, t1) =>
      match Oracle(EncodeMachine(enc), values, t1, 0)
      case Rejected(out, error, after) => Rejected(first + out, error, after)
      case Done(main, t2) => Prepend(first + main, EncodeFinish(enc, t2))
  }

  /** Encodes located values in order, with output to spare. */
  function EncodeTrail<T, V, W, E>(enc: EncodeSide<T, V, W, E>, t: T, ps: seq<PendingValue<V>>)
    : Outcome<T, W, ConvertError<E, V>>
  {
    if ps == [] then Done([], t)
    else match EncodeFreely(enc, t, ps[0].value, ps[0].inputIndex)
      case Blocked(_) => EncodeTrail(enc, t, ps[1..])  // never for a conforming codec
      case Encoded(units, next) => Prepend(units, EncodeTrail(enc, next, ps[1..]))
      case Rejection(error, after) => Rejected([], FromEncodeErrorWithValue(error, ps[0].value), after)
  }

  /** Values of the stream ends have no source position; the converter files them under 0. */
  function Unlocated<V>(vs: seq<V>): (ps: seq<PendingValue<V>>)
    ensures |ps| == |vs| && forall k | 0 <= k < |vs| :: ps[k] == PendingValue(vs[k], 0)
  {
    seq(|vs|, k requires 0 <= k < |vs| => PendingValue(vs[k], 0))
  }

  // ---------------------------------------------------------------------------------------------------------
  // Converter
  // ---------------------------------------------------------------------------------------------------------

  /** Output of the target side, after which the source side is in state `s` and nothing is retained. */
  function OnTarget<S, T, V, W, X>(s: S, r: Outcome<T, W, X>): Outcome<Conv<S, T, V>, W, X> {
    match r
    case Done(out, t) => Done(out, Conv(s, t, None))
    case Rejected(out, error, t) => Rejected(out, error, Conv(s, t, None))
  }

  /** The target starts its stream first, so that source reset values are encoded under its new-stream state. */
  function ConvertReset<S, T, U, V, W, E>(
    dec: DecodeSide<S, U, V, E>, enc: EncodeSide<T, V, W, E>, q: Conv<S, T, V>)
    : Outcome<Conv<S, T, V>, W, ConvertError<E, V>>
  {
    match EncodeReset(enc, q.target)
    case Rejected(out, error, after) => Rejected(out, FromEncodeError(error), Conv(q.source, after, None))
    case Done(first, t1) =>
      match DecodeReset(dec, q.source)
      case Rejected(_, error, after) => Rejected(first, FromDecodeError(error), Conv(after, t1, None))
      case Done(values, s1) => Prepend(first, OnTarget(s1, EncodeTrail(enc, t1, Unlocated(values))))
  }

  /** Source finish values, then the target's own trailer. */
  function ConvertTrailer<S, T, U, V, W, E>(dec: DecodeSide<S, U, V, E>, enc: EncodeSide<T, V, W, E>, s: S, t: T)
    : Outcome<Conv<S, T, V>, W, ConvertError<E, V>>
  {
    match DecodeFinish(dec, s)
    case Rejected(_, error, after) => Rejected([], FromDecodeError(error), Conv(after, t, None))
    case Done(values, s1) =>
      match EncodeTrail(enc, t, Unlocated(values))
      case Rejected(out, error, after) => Rejected(out, error, Conv(s1, after, None))
      case Done(body, t1) =>
        match EncodeFinish(enc, t1)
        case Rejected(out, error, after) => Rejected(body + out, FromEncodeError(error), Conv(s1, after, None))
        case Done(trailer, t2) => Done(body + trailer, Conv(s1, t2, None))
  }

  function PendingTrail<V>(p: Option<PendingValue<V>>): seq<PendingValue<V>> {
    if p.Some? then [p.value] else []
  }

  /** A retained value still goes before anything the stream ends add. */
  function ConvertFinish<S, T, U, V, W, E>(
    dec: DecodeSide<S, U, V, E>, enc: EncodeSide<T, V, W, E>, q: Conv<S, T, V>)
    : Outcome<Conv<S, T, V>, W, ConvertError<E, V>>
  {
    match EncodeTrail(enc, q.target, PendingTrail(q.pending))
    case Rejected(out, error, after) => Rejected(out, error, Conv(q.source, after, None))
    case Done(first, t1) => Prepend(first, ConvertTrailer(dec, enc, q.source, t1))
  }

  /** reset, convert everything, finish. */
  ghost function ConvertStream<S(!new), T(!new), U(!new), V(!new), W(!new), E(!new)>(
    dec: DecodeSide<S, U, V, E>, enc: EncodeSide<T, V, W, E>, q: Conv<S, T, V>, payload: seq<U>)
    : Outcome<Conv<S, T, V>, W, ConvertError<E, V>>
    requires ConformsDecode(dec) && ConformsEncode(enc)
  {
    ConvertFaithful(dec, enc);
    match ConvertReset(dec, enc, q)
    case Rejected(out, error, after) => Rejected(out, error, after)
    case Done(first, q1) =>
      match Oracle(ConvertMachine(dec, enc), payload, q1, 0)
      case Rejected(out, error, after) => Rejected(first + out, error, after)
      case Done(main, q2) => Prepend(first + main, ConvertFinish(dec, enc, q2))
  }
}
