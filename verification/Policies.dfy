/**
  * What codecs and policy hooks decide, seen from outside: how each decision shows in the run over a whole stream.
  *
  * The laws mention the fields of codecs and hooks, and the oracles of the two engines, and nothing in between.
  */
module Policies {
  import opened Basics
  import opened Codecs
  import opened Streaming
  import opened Decoding
  import opened Encoding
  import opened Fusion

  // ---------------------------------------------------------------------------------------------------------
  // Decode policies
  // ---------------------------------------------------------------------------------------------------------

  /** A decoded value is delivered, and decoding goes on behind the units the codec took. */
  lemma DecodedValueGoesOn<S(!new), U(!new), V(!new), E(!new)>(
    dec: DecodeSide<S, U, V, E>, payload: seq<U>, s: S, i: nat, d: DecodeResult<S, V, E>)
    requires ConformsDecode(dec) && Faithful(DecodeMachine(dec)) && i + dec.codec.minUnits <= |payload|
    requires d == dec.codec.decodeEof(s, payload[i..]) && d.Decoded?
    ensures 0 < d.consumed && i + d.consumed <= |payload|
    ensures Oracle(DecodeMachine(dec), payload, s, i) ==
            Prepend([d.value], Oracle(DecodeMachine(dec), payload, d.next, i + d.consumed))
  {
    hide Oracle;
    DecodeOracleUnfolds(dec, payload, s, i, Emitted(d.value, d.consumed, d.next));
    EventIsFinal(dec, s, payload[i..], payload[i..], i, true);
  }

  /** Invalid units: skipping and replacing take exactly as many as the hook says, rejecting reports the codec's error
      and span at this position, and the hook's own refusal passes through. */
  lemma InvalidIsSettled<S(!new), U(!new), V(!new), E(!new)>(
    dec: DecodeSide<S, U, V, E>, payload: seq<U>, s: S, i: nat, error: E, span: Option<nat>,
    ruling: Ruling<S, InvalidAction<V>, DecodeError<E>>)
    requires ConformsDecode(dec) && Faithful(DecodeMachine(dec)) && i + dec.codec.minUnits <= |payload|
    requires dec.codec.decodeEof(s, payload[i..]) == Invalid(error, span)
    requires ruling == dec.hooks.handleInvalid(s, error, span)
    ensures ruling.Ruled? && ruling.action.SkipInvalid? ==>
              && i < i + ruling.action.consumed <= |payload|
              && Oracle(DecodeMachine(dec), payload, s, i) ==
                 Oracle(DecodeMachine(dec), payload, ruling.next, i + ruling.action.consumed)
    ensures ruling.Ruled? && ruling.action.EmitInvalid? ==>
              && i < i + ruling.action.consumed <= |payload|
              && Oracle(DecodeMachine(dec), payload, s, i) ==
                 Prepend([ruling.action.value],
                         Oracle(DecodeMachine(dec), payload, ruling.next, i + ruling.action.consumed))
    ensures ruling.Ruled? && ruling.action.RejectInvalid? ==>
              Oracle(DecodeMachine(dec), payload, s, i) ==
              Rejected([], DecodeDomain(MainError(error, i, span)), ruling.next)
    ensures ruling.Refused? ==>
              Oracle(DecodeMachine(dec), payload, s, i) == Rejected([], ruling.error, ruling.after)
  {
    hide Oracle;
    EventIsFinal(dec, s, payload[i..], payload[i..], i, true);
    DecodeOracleUnfolds(dec, payload, s, i, FinalEvent(dec, s, payload[i..], i));
  }

  /** The rest of the payload is incomplete: too short for the codec, or found so by it. */
  ghost predicate IncompleteTail<S(!new), U(!new), V(!new), E(!new)>(
    dec: DecodeSide<S, U, V, E>, s: S, rest: seq<U>, source: Option<E>, required: usize)
  {
    if |rest| < dec.codec.minUnits then source == None && required == dec.codec.minUnits
    else dec.codec.decodeEof(s, rest) == Incomplete(source, required)
  }

  /** An incomplete tail: skipping and replacing take all that is left and so end the stream, rejecting reports the
      codec's error if it has one and the missing units otherwise. */
  lemma TailIsSettled<S(!new), U(!new), V(!new), E(!new)>(
    dec: DecodeSide<S, U, V, E>, payload: seq<U>, s: S, i: nat, source: Option<E>, required: usize,
    ruling: Ruling<S, IncompleteAction<V>, DecodeError<E>>)
    requires ConformsDecode(dec) && Faithful(DecodeMachine(dec)) && i < |payload|
    requires IncompleteTail(dec, s, payload[i..], source, required)
    requires ruling == dec.hooks.handleIncomplete(s, source, required)
    ensures var left := |payload| - i;
            var here := Oracle(DecodeMachine(dec), payload, s, i);
            && (ruling.Ruled? && ruling.action.SkipTail? ==> here == Done([], ruling.next))
            && (ruling.Ruled? && ruling.action.EmitTail? ==> here == Done([ruling.action.value], ruling.next))
            && (ruling.Ruled? && ruling.action.RejectTail? && source.Some? ==>
                  here == Rejected([], DecodeDomain(MainError(source.value, i, None)), ruling.next))
            && (ruling.Ruled? && ruling.action.RejectTail? && source.None? ==>
                  here == Rejected([], DecodeFramework(IncompleteInput(i, required, left)), ruling.next))
            && (ruling.Refused? ==> here == Rejected([], ruling.error, ruling.after))
  {
    hide Oracle;
    EventIsFinal(dec, s, payload[i..], payload[i..], i, true);
    DecodeOracleUnfolds(dec, payload, s, i, FinalEvent(dec, s, payload[i..], i));
    if ruling.Ruled? {
      FinalStop(DecodeMachine(dec), payload, ruling.next);
    }
  }

  // ---------------------------------------------------------------------------------------------------------
  // Encode policies
  // ---------------------------------------------------------------------------------------------------------

  /** A value the codec accepts is written as the codec writes it; the codec's failure is reported at its position. */
  lemma EncodableIsWritten<T(!new), V(!new), W(!new), E(!new)>(
    enc: EncodeSide<T, V, W, E>, values: seq<V>, t: T, i: nat, w: Written<T, W, E>)
    requires ConformsEncode(enc) && Faithful(EncodeMachine(enc)) && i < |values|
    requires enc.codec.canEncode(t, values[i]) && w == enc.codec.encode(t, values[i])
    ensures w.Wrote? ==>
              Oracle(EncodeMachine(enc), values, t, i) ==
              Prepend(w.items, Oracle(EncodeMachine(enc), values, w.next, i + 1))
    ensures w.WriteFailed? ==>
              Oracle(EncodeMachine(enc), values, t, i) ==
              Rejected([], EncodeDomain(MainError(w.error, i, None)), w.after)
  {
    assert IdealOK(EncodeMachine(enc), values, t, i);
    assert EncodeExact(enc, t, values[i]);
  }

  /** A value the codec does not accept: skipped, replaced, rejected or refused as the hook decides, once. */
  lemma UnencodableIsSettled<T(!new), V(!new), W(!new), E(!new)>(
    enc: EncodeSide<T, V, W, E>, values: seq<V>, t: T, i: nat,
    ruling: Ruling<T, UnencodableAction<V>, EncodeError<E, V>>)
    requires ConformsEncode(enc) && Faithful(EncodeMachine(enc)) && i < |values|
    requires !enc.codec.canEncode(t, values[i]) && ruling == enc.hooks.handleUnencodable(t, values[i])
    ensures ruling.Ruled? && ruling.action.SkipValue? ==>
              Oracle(EncodeMachine(enc), values, t, i) == Oracle(EncodeMachine(enc), values, ruling.next, i + 1)
    ensures ruling.Ruled? && ruling.action.ReplaceValue? ==>
              var w := enc.codec.encode(ruling.next, ruling.action.value);
              && enc.codec.canEncode(ruling.next, ruling.action.value)
              && (w.Wrote? ==>
                    Oracle(EncodeMachine(enc), values, t, i) ==
                    Prepend(w.items, Oracle(EncodeMachine(enc), values, w.next, i + 1)))
              && (w.WriteFailed? ==>
                    Oracle(EncodeMachine(enc), values, t, i) ==
                    Rejected([], EncodeDomain(MainError(w.error, i, None)), w.after))
    ensures ruling.Ruled? && ruling.action.RejectValue? ==>
              Oracle(EncodeMachine(enc), values, t, i) == Rejected([], EncodeUnencodable(i, None), ruling.next)
    ensures ruling.Refused? ==>
              Oracle(EncodeMachine(enc), values, t, i) == Rejected([], ruling.error, ruling.after)
  {
    assert IdealOK(EncodeMachine(enc), values, t, i);
    assert ReplacementEncodable(enc, t, values[i]);
    if ruling.Ruled? && ruling.action.ReplaceValue? {
      assert EncodeExact(enc, ruling.next, ruling.action.value);
    }
    if ruling.Ruled? && ruling.action.SkipValue? {
      PrependNested([], [], Oracle(EncodeMachine(enc), values, ruling.next, i + 1));
    }
  }
}
