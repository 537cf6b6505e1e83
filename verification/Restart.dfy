/**
  * Clean restarts: a successful reset forgets whatever happened before it.
  *
  * Nothing in the stream state survives a reset except what the codec and hook resets themselves keep.  When those
  * reach a canonical state, an engine that was poisoned, stopped half-way or still retains a value behaves, from its
  * next successful reset on, like one that was never used.
  */
module Restart {
  import opened Basics
  import opened Codecs
  import opened Streaming
  import opened Converting
  import opened Lifecycles
  import opened StreamEnds
  import opened PartitionDriver
  import ConvertEngines

  /** Successful resets of the source side cannot be told apart. */
  ghost predicate CanonicalDecodeReset<S(!new), U(!new), V(!new), E(!new)>(dec: DecodeSide<S, U, V, E>) {
    forall s, s' | DecodeReset(dec, s).Done? && DecodeReset(dec, s').Done? ::
      DecodeReset(dec, s) == DecodeReset(dec, s')
  }

  /** Successful resets of the target side cannot be told apart. */
  ghost predicate CanonicalEncodeReset<T(!new), V(!new), W(!new), E(!new)>(enc: EncodeSide<T, V, W, E>) {
    forall t, t' | EncodeReset(enc, t).Done? && EncodeReset(enc, t').Done? ::
      EncodeReset(enc, t) == EncodeReset(enc, t')
  }

  /** A reset of the converter succeeds only through successful resets of both sides, and retains nothing. */
  lemma ResetParts<S(!new), T(!new), U(!new), V(!new), W(!new), E(!new)>(
    dec: DecodeSide<S, U, V, E>, enc: EncodeSide<T, V, W, E>, q: Conv<S, T, V>)
    requires ConvertReset(dec, enc, q).Done?
    ensures var started := EncodeReset(enc, q.target);
            var values := DecodeReset(dec, q.source);
            && started.Done? && values.Done?
            && ConvertReset(dec, enc, q) ==
               Prepend(started.out, OnTarget(values.final, EncodeTrail(enc, started.final, Unlocated(values.out))))
            && ConvertReset(dec, enc, q).final.pending == None
  {
  }

  /** Clean restart of the converter: from a reset that succeeds, any used state gives the whole stream of a new
      one. */
  lemma CleanConvertRestart<S(!new), T(!new), U(!new), V(!new), W(!new), E(!new)>(
    dec: DecodeSide<S, U, V, E>, enc: EncodeSide<T, V, W, E>, used: Conv<S, T, V>, unused: Conv<S, T, V>,
    payload: seq<U>)
    requires ConformsDecode(dec) && ConformsEncode(enc)
    requires CanonicalDecodeReset(dec) && CanonicalEncodeReset(enc)
    requires ConvertReset(dec, enc, used).Done? && ConvertReset(dec, enc, unused).Done?
    ensures ConvertReset(dec, enc, used) == ConvertReset(dec, enc, unused)
    ensures ConvertReset(dec, enc, used).final.pending == None
    ensures ConvertStream(dec, enc, used, payload) == ConvertStream(dec, enc, unused, payload)
  {
    hide Oracle, Faithful, ConformsDecode, ConformsEncode;
    ResetParts(dec, enc, used);
    ResetParts(dec, enc, unused);
  }

  // ---------------------------------------------------------------------------------------------------------
  // Restarts from the hooks alone
  // ---------------------------------------------------------------------------------------------------------

  /** The hooks' reset maps every state of codec and hooks to one state. */
  ghost predicate ResetsToOneState<S(!new)>(reset: S -> S) {
    forall s, s' :: reset(s) == reset(s')
  }

  /** Hooks that reset to one state make the resets of their side canonical, whatever the codec does in between. */
  lemma HooksMakeResetsCanonical<S(!new), T(!new), U(!new), V(!new), W(!new), E(!new)>(
    dec: DecodeSide<S, U, V, E>, enc: EncodeSide<T, V, W, E>)
    ensures ResetsToOneState(dec.hooks.resetHooks) ==>
              CanonicalDecodeReset(dec) && forall s, s' :: DecodeReset(dec, s) == DecodeReset(dec, s')
    ensures ResetsToOneState(enc.hooks.resetHooks) ==>
              CanonicalEncodeReset(enc) && forall t, t' :: EncodeReset(enc, t) == EncodeReset(enc, t')
  {
    hide DecodeReset, EncodeReset;
    if ResetsToOneState(dec.hooks.resetHooks) {
      forall s, s' ensures DecodeReset(dec, s) == DecodeReset(dec, s') {
        var clean := dec.hooks.resetHooks(s);
        DecodeResetStartsFromHooks(dec, s, clean, dec.codec.decodeReset(clean));
        DecodeResetStartsFromHooks(dec, s', clean, dec.codec.decodeReset(clean));
      }
    }
    if ResetsToOneState(enc.hooks.resetHooks) {
      forall t, t' ensures EncodeReset(enc, t) == EncodeReset(enc, t') {
        var clean := enc.hooks.resetHooks(t);
        EncodeResetStartsFromHooks(enc, t, clean, enc.codec.encodeReset(clean));
        EncodeResetStartsFromHooks(enc, t', clean, enc.codec.encodeReset(clean));
      }
    }
  }

  /** With such hooks on both sides, whether a reset succeeds does not depend on what happened before it either, and
      the whole stream behind it is that of a new converter. */
  lemma CleanRestartFromHooks<S(!new), T(!new), U(!new), V(!new), W(!new), E(!new)>(
    dec: DecodeSide<S, U, V, E>, enc: EncodeSide<T, V, W, E>, used: Conv<S, T, V>, unused: Conv<S, T, V>,
    payload: seq<U>)
    requires ConformsDecode(dec) && ConformsEncode(enc)
    requires ResetsToOneState(dec.hooks.resetHooks) && ResetsToOneState(enc.hooks.resetHooks)
    ensures ConvertReset(dec, enc, used).Done? <==> ConvertReset(dec, enc, unused).Done?
    ensures ConvertReset(dec, enc, used).Done? ==>
              ConvertStream(dec, enc, used, payload) == ConvertStream(dec, enc, unused, payload)
    ensures ConvertReset(dec, enc, used).Rejected? ==>
              && ConvertReset(dec, enc, used).out == ConvertReset(dec, enc, unused).out
              && ConvertReset(dec, enc, used).error == ConvertReset(dec, enc, unused).error
  {
    HooksMakeResetsCanonical(dec, enc);
    hide DecodeReset, EncodeReset, EncodeTrail, Oracle, Faithful, ConformsDecode, ConformsEncode, ConvertStream,
         ResetsToOneState;
    assert DecodeReset(dec, used.source) == DecodeReset(dec, unused.source);
    assert EncodeReset(enc, used.target) == EncodeReset(enc, unused.target);
    if ConvertReset(dec, enc, used).Done? {
      CleanConvertRestart(dec, enc, used, unused, payload);
    }
  }

  /** A converter in any state, and a new one, run the same payload under schedules of their own: if both resets
      succeed, both runs give the same output or the same error and leave the same state behind. */
  method RestartedRun<S(!new), T(!new), U(!new), V(0, !new), W(0, !new), E(!new)>(
    used: ConvertEngines.ConvertEngine<S, T, U, V, W, E>, dec: DecodeSide<S, U, V, E>, enc: EncodeSide<T, V, W, E>,
    s: S, t: T, payload: seq<U>, schedule: seq<byte>, other: seq<byte>)
    returns (r: Partition<W, ConvertError<E, V>>, r': Partition<W, ConvertError<E, V>>, ghost q: Conv<S, T, V>)
    requires used.Conforms() && used.Coupled() && used.decoder.side == dec && used.encoder.side == enc
    requires ConformsDecode(dec) && ConformsEncode(enc) && |payload| <= USIZE_MAX
    requires used.MaxResetOutputLen().Some? && used.MaxFinishOutputLen().Some?
    requires CanonicalDecodeReset(dec) && CanonicalEncodeReset(enc)
    requires ConvertReset(dec, enc, used.State()).Done? && ConvertReset(dec, enc, Conv(s, t, None)).Done?
    modifies used.decoder, used.decoder.lifecycle, used.encoder, used.encoder.lifecycle, used.pending, used.lifecycle
    ensures used.State() == q
    ensures IsStream(ConvertStream(dec, enc, Conv(s, t, None), payload), r', |payload|, q)
    ensures r.Converted? <==> r'.Converted?
    ensures r.Converted? ==> r.output == r'.output && r.steps <= 2 * |payload| + 2
    ensures r.Interrupted? ==> r.error == r'.error
  {
    hide ConformsDecode, ConformsEncode, Faithful, ConvertReset, ConvertStream, CanonicalDecodeReset,
         CanonicalEncodeReset;
    ConvertFaithful(dec, enc);
    CleanConvertRestart(dec, enc, used.State(), Conv(s, t, None), payload);
    var unused := new ConvertEngines.ConvertEngine(dec, enc, s, t);
    assert unused.MaxResetOutputLen() == used.MaxResetOutputLen();
    assert unused.MaxFinishOutputLen() == used.MaxFinishOutputLen();
    r' := RunPartition(unused, payload, other);
    r := RunPartition(used, payload, schedule);
    q := used.State();
  }
}
