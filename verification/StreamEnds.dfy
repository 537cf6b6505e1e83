/** What codecs and hooks do at the ends of a stream, and in which order. */
module StreamEnds {
  import opened Basics
  import opened Codecs
  import opened Streaming
  import opened Lifecycles

  // ---------------------------------------------------------------------------------------------------------
  // Reset
  // ---------------------------------------------------------------------------------------------------------

  /** The hooks reset first, and the codec starts the new stream in the state they leave behind. */
  lemma DecodeResetStartsFromHooks<S, U, V, E>(dec: DecodeSide<S, U, V, E>, s: S, clean: S, w: Written<S, V, E>)
    requires clean == dec.hooks.resetHooks(s) && w == dec.codec.decodeReset(clean)
    ensures w.Wrote? ==> DecodeReset(dec, s) == Done(w.items, w.next)
    ensures w.WriteFailed? ==> DecodeReset(dec, s) == Rejected([], DecodeDomain(ResetError(w.error)), w.after)
  {
  }

  lemma EncodeResetStartsFromHooks<T, V, W, E>(enc: EncodeSide<T, V, W, E>, t: T, clean: T, w: Written<T, W, E>)
    requires clean == enc.hooks.resetHooks(t) && w == enc.codec.encodeReset(clean)
    ensures w.Wrote? ==> EncodeReset(enc, t) == Done(w.items, w.next)
    ensures w.WriteFailed? ==> EncodeReset(enc, t) == Rejected([], EncodeDomain(ResetError(w.error)), w.after)
  {
  }

  // ---------------------------------------------------------------------------------------------------------
  // Finish
  // ---------------------------------------------------------------------------------------------------------

  /** The codec finishes first; its values go before those of the hooks, which start from the state it leaves behind,
      and are not taken back when the hooks fail. */
  lemma DecodeFinishRunsCodecFirst<S, U, V, E>(
    dec: DecodeSide<S, U, V, E>, s: S, first: Written<S, V, E>, second: Written<S, V, DecodeError<E>>)
    requires first == dec.codec.decodeFinish(s)
    requires first.Wrote? ==> second == dec.hooks.finishHooks(first.next)
    ensures first.WriteFailed? ==>
              DecodeFinish(dec, s) == Rejected([], DecodeDomain(FinishError(first.error)), first.after)
    ensures first.Wrote? && second.Wrote? ==> DecodeFinish(dec, s) == Done(first.items + second.items, second.next)
    ensures first.Wrote? && second.WriteFailed? ==>
              DecodeFinish(dec, s) == Rejected(first.items, second.error, second.after)
  {
  }

  lemma EncodeFinishRunsCodecFirst<T, V, W, E>(
    enc: EncodeSide<T, V, W, E>, t: T, first: Written<T, W, E>, second: Written<T, W, EncodeError<E, V>>)
    requires first == enc.codec.encodeFinish(t)
    requires first.Wrote? ==> second == enc.hooks.finishHooks(first.next)
    ensures first.WriteFailed? ==>
              EncodeFinish(enc, t) == Rejected([], EncodeDomain(FinishError(first.error)), first.after)
    ensures first.Wrote? && second.Wrote? ==> EncodeFinish(enc, t) == Done(first.items + second.items, second.next)
    ensures first.Wrote? && second.WriteFailed? ==>
              EncodeFinish(enc, t) == Rejected(first.items, second.error, second.after)
  {
  }
}
