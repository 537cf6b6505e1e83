/** Owned single-value encoding and decoding, which must agree with one-shot streaming of one value. */
module OwnedValues {
  import opened Basics
  import opened Codecs
  import opened Streaming
  import opened Decoding
  import opened Encoding
  import opened Lifecycles
  import opened Buffers
  import opened Fusion
  import EncodeEngines

  // ---------------------------------------------------------------------------------------------------------
  // Encoding
  // ---------------------------------------------------------------------------------------------------------

  /** Strict streaming of the single value `v`, step by step. */
  lemma SingleValueStream<T(!new), V(!new), W(!new), E(!new)>(codec: EncodeCodec<T, V, W, E>, t: T, v: V)
    requires ConformsEncode(StrictEncode(codec))
    ensures EncodeStream(StrictEncode(codec), t, [v]) ==
            match codec.encodeReset(t) {
              case WriteFailed(error, after) => Rejected([], EncodeDomain(ResetError(error)), after)
              case Wrote(first, t1) =>
                if !codec.canEncode(t1, v) then Rejected(first, EncodeUnencodable(0, None), t1)
                else match codec.encode(t1, v) {
                  case WriteFailed(error, after) => Rejected(first, EncodeDomain(MainError(error, 0, None)), after)
                  case Wrote(units, t2) =>
                    match codec.encodeFinish(t2) {
                      case WriteFailed(error, after) => Rejected(first + units, EncodeDomain(FinishError(error)), after)
                      case Wrote(last, t3) => Done(first + units + last, t3)
                    }
                }
            }
  {
    var enc := StrictEncode(codec);
    var m := EncodeMachine(enc);
    EncodeFaithful(enc);
    var reset := codec.encodeReset(t);
    if reset.Wrote? {
      var t1 := reset.next;
      SingleValueMain(codec, t1, v);
      var w := codec.encode(t1, v);
      if codec.canEncode(t1, v) && w.Wrote? {
        var end := codec.encodeFinish(w.next);
        if end.Wrote? {
          assert end.items + [] == end.items;
        }
      }
      assert reset.items + [] == reset.items;
    }
  }

  lemma SingleValueMain<T(!new), V(!new), W(!new), E(!new)>(codec: EncodeCodec<T, V, W, E>, t: T, v: V)
    requires ConformsEncode(StrictEncode(codec)) && Faithful(EncodeMachine(StrictEncode(codec)))
    ensures var main := Oracle(EncodeMachine(StrictEncode(codec)), [v], t, 0);
            if !codec.canEncode(t, v) then main == Rejected([], EncodeUnencodable(0, None), t)
            else match codec.encode(t, v) {
              case WriteFailed(error, after) => main == Rejected([], EncodeDomain(MainError(error, 0, None)), after)
              case Wrote(units, next) => main == Done(units, next)
            }
  {
    var m := EncodeMachine(StrictEncode(codec));
    assert EncodeExact(StrictEncode(codec), t, v);
    assert IdealOK(m, [v], t, 0);
    if codec.canEncode(t, v) && codec.encode(t, v).Wrote? {
      FinalStop(m, [v], codec.encode(t, v).next);
      assert codec.encode(t, v).items + [] == codec.encode(t, v).items;
    }
  }

  /** A growable destination. */
  class UnitVec<W(0)> {
    var items: seq<W>

    constructor ()
      ensures items == []
    {
      items := [];
    }

    /** Extends with filler up to `len`. */
    method Resize(len: nat)
      requires |items| <= len
      modifies this
      ensures |items| == len && items[..|old(items)|] == old(items)
    {
      var filler: W := *;
      items := items + seq(len - |items|, _ => filler);
    }

    method Truncate(len: nat)
      requires len <= |items|
      modifies this
      ensures items == old(items)[..len]
    {
      items := items[..len];
    }

    /** A codec writing into a reserved range. */
    method Put(at: nat, units: seq<W>)
      requires at + |units| <= |items|
      modifies this
      ensures items == Splice(old(items), at, units)
    {
      items := Splice(items, at, units);
    }
  }

  class CodecValueEncoder<T(!new), V(!new), W(0, !new), E(!new)> {
    const codec: EncodeCodec<T, V, W, E>
    var state: T

    ghost predicate Conforms() { ConformsEncode(StrictEncode(codec)) }

    constructor (codec: EncodeCodec<T, V, W, E>, state: T)
      requires ConformsEncode(StrictEncode(codec))
      ensures Conforms() && this.codec == codec && this.state == state
    {
      this.codec, this.state := codec, state;
    }

    /** Widest complete encoding: reset, one value and finish. */
    function MaxCompleteUnits(): Option<usize> {
      CheckedSum(codec.maxResetUnits, codec.maxUnits, codec.maxFinishUnits)
    }

    /** The owned bound is the streaming bound of a single value. */
    lemma BoundsAgree(engine: EncodeEngines.EncodeEngine<T, V, W, E>)
      requires engine.side == StrictEncode(codec)
      ensures engine.MaxTotalOutputLen(1) == MaxCompleteUnits()
    {
    }

    /** `encode_complete_value_into_reserved`: the whole lifecycle into a reserved range.  The capacity check behind
        the reset never fires. */
    method EncodeReserved(v: V, output: UnitVec<W>, at: usize, reserved: usize)
      returns (r: Result<usize, EncodeError<E, V>>)
      requires Conforms() && |output.items| <= USIZE_MAX
      requires MaxCompleteUnits() == Some(reserved) && at + reserved == |output.items|
      modifies this, output
      ensures Landed(EncodeStream(StrictEncode(codec), old(state), [v]), r, old(output.items), at, output.items, state)
    {
      hide Splice;
      ghost var before := output.items;
      SingleValueStream(codec, state, v);
      SpliceNothing(before, at);
      assert EncodeEndsBounded(StrictEncode(codec), state);
      var t1, first := state, [];
      match codec.encodeReset(state) {
        case WriteFailed(error, after) =>
          state := after;
          return Err(EncodeDomain(ResetError(error)));
        case Wrote(units, next) =>
          t1, first := next, units;
      }
      output.Put(at, first);
      state := t1;
      if !codec.canEncode(state, v) {
        return Err(EncodeUnencodable(0, None));
      }
      assert EncodeExact(StrictEncode(codec), state, v);
      var valueUnits := codec.encodeLen(state, v);
      var valueAndFinish := CheckedAdd(valueUnits, codec.maxFinishUnits);
      if valueAndFinish.None? {
        return Err(EncodeFramework(OutputLengthOverflow));
      }
      var valueIndex := at + |first|;
      var refusal := EnsureOutputCapacity(|output.items|, valueIndex, valueAndFinish.value);
      if refusal.Some? {
        assert false;
      }
      var t2, body := state, [];
      match codec.encode(state, v) {
        case WriteFailed(error, after) =>
          state := after;
          return Err(EncodeDomain(MainError(error, 0, None)));
        case Wrote(units, next) =>
          t2, body := next, units;
      }
      SpliceTwice(before, at, first, body);
      output.Put(valueIndex, body);
      state := t2;
      assert EncodeEndsBounded(StrictEncode(codec), state);
      match codec.encodeFinish(state) {
        case WriteFailed(error, after) =>
          state := after;
          return Err(EncodeDomain(FinishError(error)));
        case Wrote(last, next) =>
          SpliceTwice(before, at, first + body, last);
          output.Put(valueIndex + |body|, last);
          state := next;
          return Ok(|first| + |body| + |last|);
      }
    }

    /** Appends the complete encoding of one value: the units, error and codec state of strict one-shot streaming.
        The destination is restored on every failure. */
    method EncodeInto(v: V, output: UnitVec<W>) returns (r: Result<usize, EncodeError<E, V>>)
      requires Conforms() && |output.items| <= USIZE_MAX
      modifies this, output
      ensures var fits := MaxCompleteUnits().Some? && |old(output.items)| + MaxCompleteUnits().value <= USIZE_MAX;
              if !fits then
                && r == Err(EncodeFramework(OutputLengthOverflow))
                && output.items == old(output.items) && state == old(state)
              else match EncodeStream(StrictEncode(codec), old(state), [v]) {
                case Done(out, final) =>
                  r == Ok(|out|) && output.items == old(output.items) + out && state == final
                case Rejected(_, error, after) =>
                  r == Err(error) && output.items == old(output.items) && state == after
              }
    {
      hide EncodeStream, ConformsEncode;
      var units := MaxCompleteUnits();
      if units.None? {
        return Err(EncodeFramework(OutputLengthOverflow));
      }
      var originalLen: usize := |output.items|;
      var targetLen := CheckedAdd(originalLen, units.value);
      if targetLen.None? {
        return Err(EncodeFramework(OutputLengthOverflow));
      }
      output.Resize(targetLen.value);
      ghost var reserved := output.items;
      r := EncodeReserved(v, output, originalLen, units.value);
      SpliceParts(reserved, originalLen, EncodeStream(StrictEncode(codec), old(state), [v]).out);
      if r.Ok? {
        output.Truncate(originalLen + r.value);
      } else {
        output.Truncate(originalLen);
      }
    }
  }

  // ---------------------------------------------------------------------------------------------------------
  // Decoding
  // ---------------------------------------------------------------------------------------------------------

  /** The first event of strict streaming at end of input is the owned decoder's only one. */
  lemma FirstEvent<S(!new), U(!new), V(!new), E(!new)>(codec: DecodeCodec<S, U, V, E>, s: S, input: seq<U>)
    requires 0 < codec.minUnits && ConformsDecode(StrictDecode(codec)) && Faithful(DecodeMachine(StrictDecode(codec)))
    ensures input == [] ==> Oracle(DecodeMachine(StrictDecode(codec)), input, s, 0) == Done([], s)
    ensures 0 < |input| < codec.minUnits ==>
              Oracle(DecodeMachine(StrictDecode(codec)), input, s, 0)
              == Rejected([], DecodeFramework(IncompleteInput(0, codec.minUnits, |input|)), s)
    ensures codec.minUnits <= |input| ==>
              var d := codec.decodeEof(s, input);
              var main := Oracle(DecodeMachine(StrictDecode(codec)), input, s, 0);
              && (d.Decoded? ==>
                    && 0 < d.consumed <= |input|
                    && main ==
                       Prepend([d.value], Oracle(DecodeMachine(StrictDecode(codec)), input, d.next, d.consumed)))
              && (d.Incomplete? && d.source.Some? ==>
                    main == Rejected([], DecodeDomain(MainError(d.source.value, 0, None)), s))
              && (d.Incomplete? && d.source.None? ==>
                    main == Rejected([], DecodeFramework(IncompleteInput(0, d.requiredTotal, |input|)), s))
              && (d.Invalid? ==> main == Rejected([], DecodeDomain(MainError(d.error, 0, d.span)), s))
  {
    hide Oracle;
    var dec := StrictDecode(codec);
    assert input[0..] == input;
    if input == [] {
      FinalStop(DecodeMachine(dec), input, s);
    } else {
      EventIsFinal(dec, s, input, input, 0, true);
      DecodeOracleUnfolds(dec, input, s, 0, FinalEvent(dec, s, input, 0));
    }
  }

  /** Strict streaming that still has input ahead emits at least one more value before it ends, or rejects. */
  lemma MoreToCome<S(!new), U(!new), V(!new), E(!new)>(codec: DecodeCodec<S, U, V, E>, s: S, input: seq<U>, i: nat)
    requires 0 < codec.minUnits && ConformsDecode(StrictDecode(codec)) && Faithful(DecodeMachine(StrictDecode(codec)))
    requires i < |input|
    ensures var rest := Oracle(DecodeMachine(StrictDecode(codec)), input, s, i);
            rest.Done? ==> |rest.out| > 0
  {
    hide Oracle;
    var dec := StrictDecode(codec);
    EventIsFinal(dec, s, input[i..], input[i..], i, true);
    DecodeOracleUnfolds(dec, input, s, i, FinalEvent(dec, s, input[i..], i));
  }

  /** A value decoded on its own, with what the stream ends added around it. */
  datatype Lifecycle<+V> = Lifecycle(reset: seq<V>, value: V, finish: seq<V>)

  /** The owned decoder stops behind the codec's first value, in state `s`, with units left over. */
  ghost predicate LeftOver<S, U, V, E>(
    codec: DecodeCodec<S, U, V, E>, input: seq<U>, s0: S, consumed: nat, remaining: nat, s: S)
  {
    var reset := codec.decodeReset(s0);
    && reset.Wrote? && codec.minUnits <= |input|
    && var d := codec.decodeEof(reset.next, input);
    d.Decoded? && d.next == s && d.consumed == consumed < |input| && remaining == |input| - consumed
  }

  /** How an owned decode from state `s0` relates to the strict stream over the same input. */
  ghost predicate AgreesWithStream<S, U, V, E>(
    codec: DecodeCodec<S, U, V, E>, input: seq<U>, s0: S, stream: Outcome<S, V, DecodeError<E>>,
    r: Result<Lifecycle<V>, DecodeError<E>>, s: S)
  {
    var reset := codec.decodeReset(s0);
    match r
    case Ok(l) => stream == Done(l.reset + [l.value] + l.finish, s) && reset.Wrote? && l.reset == reset.items
    case Err(error) =>
      if error.DecodeFramework? && error.failure.TrailingInput? then
        // More input than one value: the stream goes on to a second event.
        && LeftOver(codec, input, s0, error.failure.consumed, error.failure.remaining, s)
        && (stream.Rejected? || |stream.out| > |reset.items| + 1)
      else if input == [] && reset.Wrote? then
        // No input at all is an empty stream, but not a value.
        error == DecodeFramework(IncompleteInput(0, codec.minUnits, 0)) && s == reset.next
      else
        stream.Rejected? && stream.error == error && stream.after == s
  }

  class CodecValueDecoder<S(!new), U(!new), V(!new), E(!new)> {
    const codec: DecodeCodec<S, U, V, E>
    var state: S

    ghost predicate Conforms() { 0 < codec.minUnits && ConformsDecode(StrictDecode(codec)) }

    constructor (codec: DecodeCodec<S, U, V, E>, state: S)
      requires 0 < codec.minUnits && ConformsDecode(StrictDecode(codec))
      ensures Conforms() && this.codec == codec && this.state == state
    {
      this.codec, this.state := codec, state;
    }

    /** Whether the two scratch buffers hold whatever the stream ends may add. */
    function ScratchRefusal(resetRoom: usize, finishRoom: usize): (refusal: Option<TranscodeFailure>)
      ensures refusal.None? <==> codec.maxResetValues <= resetRoom && codec.maxFinishValues <= finishRoom
    {
      var refusal := EnsureOutputCapacity(resetRoom, 0, codec.maxResetValues);
      if refusal.Some? then refusal else EnsureOutputCapacity(finishRoom, 0, codec.maxFinishValues)
    }

    /** `decode_exact_complete_value`: exactly one value, no unit left over.  Too small a scratch buffer is refused
        before anything happens. */
    method DecodeExact(input: seq<U>, resetRoom: usize, finishRoom: usize)
      returns (r: Result<Lifecycle<V>, DecodeError<E>>)
      requires Conforms() && |input| <= USIZE_MAX
      modifies this
      ensures var refusal := ScratchRefusal(resetRoom, finishRoom);
              if refusal.Some? then r == Err(DecodeFramework(refusal.value)) && state == old(state)
              else
                var stream := DecodeStream(StrictDecode(codec), old(state), input);
                AgreesWithStream(codec, input, old(state), stream, r, state)
      ensures r.Ok? ==> |r.value.reset| <= codec.maxResetValues && |r.value.finish| <= codec.maxFinishValues
    {
      hide Oracle, ConformsDecode, Faithful, DecodeFinish;
      var refusal := ScratchRefusal(resetRoom, finishRoom);
      if refusal.Some? {
        return Err(DecodeFramework(refusal.value));
      }
      var dec := StrictDecode(codec);
      DecodeFaithful(dec);
      EndsAreBounded(state);
      var first := [];
      match codec.decodeReset(state) {
        case WriteFailed(error, after) =>
          state := after;
          return Err(DecodeDomain(ResetError(error)));
        case Wrote(values, next) =>
          first, state := values, next;
      }
      FirstEvent(codec, state, input);
      if |input| < codec.minUnits {
        return Err(DecodeFramework(IncompleteInput(0, codec.minUnits, |input|)));
      }
      var value, consumed;
      match codec.decodeEof(state, input) {
        case Incomplete(source, required) =>
          if source.Some? {
            return Err(DecodeDomain(MainError(source.value, 0, None)));
          }
          return Err(DecodeFramework(IncompleteInput(0, required, |input|)));
        case Invalid(error, span) =>
          return Err(DecodeDomain(MainError(error, 0, span)));
        case Decoded(v, n, next) =>
          value, consumed, state := v, n, next;
      }
      ghost var main := Oracle(DecodeMachine(dec), input, state, consumed);
      if consumed != |input| {
        MoreToCome(codec, state, input, consumed);
        LongStream(old(state), input, first, value, state, consumed);
        return Err(DecodeFramework(TrailingInput(consumed, |input| - consumed)));
      }
      FinalStop(DecodeMachine(dec), input, state);
      assert [value] + [] == [value];
      StrictFinish(state);
      EndsAreBounded(state);
      match codec.decodeFinish(state) {
        case WriteFailed(error, after) =>
          state := after;
          return Err(DecodeDomain(FinishError(error)));
        case Wrote(last, next) =>
          state := next;
          return Ok(Lifecycle(first, value, last));
      }
    }

    /** `decode_lifecycle`: the value together with everything the stream ends add. */
    method DecodeLifecycle(input: seq<U>) returns (r: Result<Lifecycle<V>, DecodeError<E>>)
      requires Conforms() && |input| <= USIZE_MAX
      modifies this
      ensures AgreesWithStream(codec, input, old(state), DecodeStream(StrictDecode(codec), old(state), input), r, state)
    {
      hide ConformsDecode;
      r := DecodeExact(input, codec.maxResetValues, codec.maxFinishValues);
    }

    lemma EndsAreBounded(s: S)
      requires Conforms()
      ensures WritesAtMost(codec.decodeReset(s), codec.maxResetValues)
      ensures WritesAtMost(codec.decodeFinish(s), codec.maxFinishValues)
    {
      assert DecodeEndsBounded(StrictDecode(codec), s);
    }

    /** Strict finish is the codec's own. */
    lemma StrictFinish(s: S)
      requires Conforms()
      ensures DecodeFinish(StrictDecode(codec), s) ==
              match codec.decodeFinish(s) {
                case WriteFailed(error, after) => Rejected([], DecodeDomain(FinishError(error)), after)
                case Wrote(values, next) => Done(values, next)
              }
    {
      var w := codec.decodeFinish(s);
      if w.Wrote? {
        assert w.items + [] == w.items;
      }
    }

    /** Input behind the first value makes the whole stream longer than one value. */
    lemma LongStream(s0: S, input: seq<U>, first: seq<V>, value: V, s: S, consumed: nat)
      requires Conforms() && Faithful(DecodeMachine(StrictDecode(codec))) && consumed <= |input|
      requires codec.decodeReset(s0).Wrote? && codec.decodeReset(s0).items == first
      requires var main := Oracle(DecodeMachine(StrictDecode(codec)), input, codec.decodeReset(s0).next, 0);
               var rest := Oracle(DecodeMachine(StrictDecode(codec)), input, s, consumed);
               main == Prepend([value], rest) && (rest.Done? ==> |rest.out| > 0)
      ensures var stream := DecodeStream(StrictDecode(codec), s0, input);
              stream.Rejected? || |stream.out| > |first| + 1
    {
      hide Oracle;
    }

    /** Strict decode of a codec without stream-end values: it returns `v` exactly when the strict stream is `[v]`. */
    method Decode(input: seq<U>) returns (r: Result<V, DecodeError<E>>)
      requires Conforms() && |input| <= USIZE_MAX
      modifies this
      ensures var silent := codec.maxResetValues == 0 && codec.maxFinishValues == 0;
              if !silent then
                && r == Err(DecodeFramework(
                              UnsupportedDecodeLifecycleOutput(codec.maxResetValues, codec.maxFinishValues)))
                && state == old(state)
              else
                var stream := DecodeStream(StrictDecode(codec), old(state), input);
                && (r.Ok? <==> stream.Done? && |stream.out| == 1)
                && (r.Ok? ==> stream == Done([r.value], state))
                && (r.Err? ==> AgreesWithStream(codec, input, old(state), stream, Err(r.error), state))
    {
      hide ConformsDecode;
      if codec.maxResetValues != 0 || codec.maxFinishValues != 0 {
        return Err(DecodeFramework(UnsupportedDecodeLifecycleOutput(codec.maxResetValues, codec.maxFinishValues)));
      }
      EmptyStream(state);
      var exact := DecodeExact(input, 0, 0);
      if exact.Err? {
        return Err(exact.error);
      }
      assert exact.value.reset == [] && exact.value.finish == [];
      assert [] + [exact.value.value] + [] == [exact.value.value];
      return Ok(exact.value.value);
    }

    /** Without stream-end values an empty input is an empty stream. */
    lemma EmptyStream(s: S)
      requires Conforms() && codec.maxResetValues == 0 && codec.maxFinishValues == 0
      ensures DecodeStream(StrictDecode(codec), s, []).out == []
    {
      var dec := StrictDecode(codec);
      DecodeFaithful(dec);
      EndsAreBounded(s);
      var reset := codec.decodeReset(s);
      if reset.Wrote? {
        FirstEvent(codec, reset.next, []);
        EndsAreBounded(reset.next);
        StrictFinish(reset.next);
      }
    }
  }
}
