/** Conversion is decoding followed by encoding. */
module Fusion {
  import opened Basics
  import opened Codecs
  import opened Streaming
  import opened Decoding
  import opened Encoding
  import opened Converting
  import opened Lifecycles

  // ---------------------------------------------------------------------------------------------------------
  // Located decoding
  // ---------------------------------------------------------------------------------------------------------

  /** The values decoded from position `i` on, each with the position of its first unit. */
  ghost function DecodeTrail<S(!new), U(!new), V(!new), E(!new)>(
    dec: DecodeSide<S, U, V, E>, payload: seq<U>, s: S, i: nat): Outcome<S, PendingValue<V>, DecodeError<E>>
    requires ConformsDecode(dec) && i <= |payload|
    decreases |payload| - i
  {
    if i == |payload| then Done([], s)
    else
      EventIsFinal(dec, s, payload[i..], payload[i..], i, true);
      match FinalEvent(dec, s, payload[i..], i)
      case Emitted(value, read, next) => Prepend([PendingValue(value, i)], DecodeTrail(dec, payload, next, i + read))
      case Skipped(read, next) => DecodeTrail(dec, payload, next, i + read)
      case Refuted(error, after) => Rejected([], error, after)
  }

  function Values<V>(ps: seq<PendingValue<V>>): (vs: seq<V>)
    ensures |vs| == |ps| && forall k | 0 <= k < |ps| :: vs[k] == ps[k].value
  {
    seq(|ps|, k requires 0 <= k < |ps| => ps[k].value)
  }

  /** One step of the decode engine's oracle. */
  lemma DecodeOracleUnfolds<S(!new), U(!new), V(!new), E(!new)>(
    dec: DecodeSide<S, U, V, E>, payload: seq<U>, s: S, i: nat, e: Event<S, V, E>)
    requires Faithful(DecodeMachine(dec)) && i < |payload| && e == FinalEvent(dec, s, payload[i..], i)
    ensures !e.Starved?
    ensures e.Emitted? ==>
              && i + e.read <= |payload|
              && Oracle(DecodeMachine(dec), payload, s, i) ==
                 Prepend([e.value], Oracle(DecodeMachine(dec), payload, e.next, i + e.read))
    ensures e.Skipped? ==>
              && i + e.read <= |payload|
              && Oracle(DecodeMachine(dec), payload, s, i) == Oracle(DecodeMachine(dec), payload, e.next, i + e.read)
    ensures e.Refuted? ==> Oracle(DecodeMachine(dec), payload, s, i) == Rejected([], e.error, e.after)
  {
    assert IdealOK(DecodeMachine(dec), payload, s, i);
    if e.Skipped? {
      PrependNested([], [], Oracle(DecodeMachine(dec), payload, e.next, i + e.read));
    }
  }

  function Unlocate<S, V, E>(r: Outcome<S, PendingValue<V>, DecodeError<E>>): Outcome<S, V, DecodeError<E>> {
    match r
    case Done(ps, final) => Done(Values(ps), final)
    case Rejected(ps, error, after) => Rejected(Values(ps), error, after)
  }

  lemma UnlocatePrepend<S, V, E>(p: PendingValue<V>, r: Outcome<S, PendingValue<V>, DecodeError<E>>)
    ensures Unlocate(Prepend([p], r)) == Prepend([p.value], Unlocate(r))
  {
    assert Values([p] + r.out) == [p.value] + Values(r.out);
  }

  /** One step of the trail. */
  lemma TrailUnfolds<S(!new), U(!new), V(!new), E(!new)>(
    dec: DecodeSide<S, U, V, E>, payload: seq<U>, s: S, i: nat, e: Event<S, V, E>)
    requires ConformsDecode(dec) && i < |payload| && e == FinalEvent(dec, s, payload[i..], i)
    ensures EventFits(e, |payload| - i)
    ensures e.Emitted? ==>
              DecodeTrail(dec, payload, s, i) ==
              Prepend([PendingValue(e.value, i)], DecodeTrail(dec, payload, e.next, i + e.read))
    ensures e.Skipped? ==> DecodeTrail(dec, payload, s, i) == DecodeTrail(dec, payload, e.next, i + e.read)
    ensures e.Refuted? ==> DecodeTrail(dec, payload, s, i) == Rejected([], e.error, e.after)
  {
    EventIsFinal(dec, s, payload[i..], payload[i..], i, true);
  }

  /** Forgetting positions turns the trail into the decode engine's oracle. */
  lemma {:induction false} TrailIsDecodeOracle<S(!new), U(!new), V(!new), E(!new)>(
    dec: DecodeSide<S, U, V, E>, payload: seq<U>, s: S, i: nat)
    requires ConformsDecode(dec) && i <= |payload| && Faithful(DecodeMachine(dec))
    ensures Oracle(DecodeMachine(dec), payload, s, i) == Unlocate(DecodeTrail(dec, payload, s, i))
    decreases |payload| - i
  {
    hide Oracle, FinalEvent;
    if i == |payload| {
      FinalStop(DecodeMachine(dec), payload, s);
    } else {
      var e := FinalEvent(dec, s, payload[i..], i);
      DecodeOracleUnfolds(dec, payload, s, i, e);
      TrailUnfolds(dec, payload, s, i, e);
      if e.Emitted? {
        TrailIsDecodeOracle(dec, payload, e.next, i + e.read);
        UnlocatePrepend(PendingValue(e.value, i), DecodeTrail(dec, payload, e.next, i + e.read));
      } else if e.Skipped? {
        TrailIsDecodeOracle(dec, payload, e.next, i + e.read);
      }
    }
  }

  // ---------------------------------------------------------------------------------------------------------
  // Encoding in pieces
  // ---------------------------------------------------------------------------------------------------------

  /** Encoding a sequence is encoding its parts one after the other. */
  lemma {:induction false} EncodeTrailSplits<T(!new), V(!new), W(!new), E(!new)>(
    enc: EncodeSide<T, V, W, E>, t: T, a: seq<PendingValue<V>>, b: seq<PendingValue<V>>)
    requires ConformsEncode(enc)
    ensures EncodeTrail(enc, t, a + b) ==
            match EncodeTrail(enc, t, a) {
              case Done(out, next) => Prepend(out, EncodeTrail(enc, next, b))
              case Rejected(out, error, after) => Rejected(out, error, after)
            }
    decreases |a|
  {
    if a == [] {
      assert a + b == b;
      PrependNested([], [], EncodeTrail(enc, t, b));
    } else {
      assert (a + b)[1..] == a[1..] + b;
      RoomOnlyDelays(enc, t, a[0].value, a[0].inputIndex, 0);
      match EncodeFreely(enc, t, a[0].value, a[0].inputIndex)
      case Rejection(_, _) =>
      case Encoded(units, next) =>
        EncodeTrailSplits(enc, next, a[1..], b);
        var head := EncodeTrail(enc, next, a[1..]);
        if head.Done? {
          PrependNested(units, head.out, EncodeTrail(enc, head.final, b));
        }
    }
  }

  /** Same outcome up to the position recorded in an error. */
  ghost predicate SameSuccess<T, W, X, Y>(a: Outcome<T, W, X>, b: Outcome<T, W, Y>) {
    && a.Done? == b.Done?
    && a.out == b.out
    && (a.Done? ==> a.final == b.final)
    && (a.Rejected? ==> a.after == b.after)
  }

  /** The encode engine's oracle on plain values is the encoding of any located copy of them. */
  lemma {:induction false} TrailIsEncodeOracle<T(!new), V(!new), W(!new), E(!new)>(
    enc: EncodeSide<T, V, W, E>, ps: seq<PendingValue<V>>, values: seq<V>, t: T, i: nat)
    requires ConformsEncode(enc) && Faithful(EncodeMachine(enc)) && i <= |values| && Values(ps) == values[i..]
    ensures SameSuccess(EncodeTrail(enc, t, ps), Oracle(EncodeMachine(enc), values, t, i))
    decreases |ps|
  {
    if ps != [] {
      assert values[i..][0] == values[i] && ps[0].value == Values(ps)[0];
      assert Values(ps[1..]) == values[i + 1..];
      RoomOnlyDelays(enc, t, values[i], i, 0);
      RoomOnlyDelays(enc, t, values[i], ps[0].inputIndex, 0);
      var a := EncodeFreely(enc, t, values[i], i);
      if a.Encoded? {
        TrailIsEncodeOracle(enc, ps[1..], values, a.next, i + 1);
      }
    }
  }

  // ---------------------------------------------------------------------------------------------------------
  // Fusion
  // ---------------------------------------------------------------------------------------------------------

  /** `converted` is the encoding of what `trail` decoded, failing as whichever side fails first. */
  ghost predicate FusedFrom<S, T, V, W, E>(
    trail: Outcome<S, PendingValue<V>, DecodeError<E>>, encoded: Outcome<T, W, ConvertError<E, V>>,
    converted: Outcome<Conv<S, T, V>, W, ConvertError<E, V>>)
  {
    && converted.out == encoded.out
    && (converted.Done? <==> trail.Done? && encoded.Done?)
    && (converted.Done? ==> converted.final == Conv(trail.final, encoded.final, None))
    && (encoded.Rejected? ==>
          && converted.error == encoded.error
          && converted.after.target == encoded.after && converted.after.pending == None)
    && (encoded.Done? && trail.Rejected? ==>
          converted.error == FromDecodeError(trail.error)
          && converted.after == Conv(trail.after, encoded.final, None))
  }

  /** The converter's main phase decodes a trail and encodes it: the same output, the same final states, and on
      failure the error of whichever side fails first. */
  lemma {:induction false} MainPhaseFuses<S(!new), T(!new), U(!new), V(!new), W(!new), E(!new)>(
    dec: DecodeSide<S, U, V, E>, enc: EncodeSide<T, V, W, E>, payload: seq<U>, s: S, t: T, i: nat)
    requires ConformsDecode(dec) && ConformsEncode(enc) && Faithful(ConvertMachine(dec, enc)) && i <= |payload|
    ensures var trail := DecodeTrail(dec, payload, s, i);
            FusedFrom(trail, EncodeTrail(enc, t, trail.out),
                      Oracle(ConvertMachine(dec, enc), payload, Conv(s, t, None), i))
    decreases |payload| - i
  {
    hide FinalEvent, Oracle, EncodeFreely, Faithful, ConformsDecode, ConformsEncode;
    if i == |payload| {
      FinalStop(ConvertMachine(dec, enc), payload, Conv(s, t, None));
    } else {
      EventIsFinal(dec, s, payload[i..], payload[i..], i, true);
      match FinalEvent(dec, s, payload[i..], i)
      case Skipped(read, next) =>
        MainPhaseFuses(dec, enc, payload, next, t, i + read);
        SkipFuses(dec, enc, payload, s, t, i, read, next);
      case Refuted(error, after) =>
        ConvertOracleUnfolds(dec, enc, payload, Conv(s, t, None), i,
                             Fail(FromDecodeError(error), Conv(after, t, None)));
      case Emitted(value, read, next) =>
        var a := EncodeFreely(enc, t, value, i);
        if a.Encoded? {
          MainPhaseFuses(dec, enc, payload, next, a.next, i + read);
        }
        EmittedFuses(dec, enc, payload, s, t, i, value, read, next);
    }
  }

  /** A decoded value in front of a rest that fuses. */
  lemma EmittedFuses<S(!new), T(!new), U(!new), V(!new), W(!new), E(!new)>(
    dec: DecodeSide<S, U, V, E>, enc: EncodeSide<T, V, W, E>, payload: seq<U>, s: S, t: T, i: nat,
    value: V, read: nat, next: S)
    requires ConformsDecode(dec) && ConformsEncode(enc) && Faithful(ConvertMachine(dec, enc)) && i < |payload|
    requires FinalEvent(dec, s, payload[i..], i) == Emitted(value, read, next) && i + read <= |payload|
    requires var a := EncodeFreely(enc, t, value, i);
             var rest := DecodeTrail(dec, payload, next, i + read);
             a.Encoded? ==> FusedFrom(rest, EncodeTrail(enc, a.next, rest.out),
                                      Oracle(ConvertMachine(dec, enc), payload, Conv(next, a.next, None), i + read))
    ensures var trail := DecodeTrail(dec, payload, s, i);
            FusedFrom(trail, EncodeTrail(enc, t, trail.out),
                      Oracle(ConvertMachine(dec, enc), payload, Conv(s, t, None), i))
  {
    hide Oracle, FinalEvent, EncodeFreely, DecodeTrail, Faithful, ConformsDecode, ConformsEncode;
    ValueFuses(dec, enc, payload, s, t, i, value, read, next);
    TrailUnfolds(dec, payload, s, i, Emitted(value, read, next));
    var p := PendingValue(value, i);
    var a := EncodeFreely(enc, t, value, i);
    var rest := DecodeTrail(dec, payload, next, i + read);
    var trail := DecodeTrail(dec, payload, s, i);
    assert ([p] + rest.out)[0] == p && ([p] + rest.out)[1..] == rest.out;
    if a.Encoded? {
      FusedPrepend(p, a.units, rest, EncodeTrail(enc, a.next, rest.out),
                   Oracle(ConvertMachine(dec, enc), payload, Conv(next, a.next, None), i + read));
    }
  }

  lemma FusedPrepend<S, T, V, W, E>(
    p: PendingValue<V>, units: seq<W>, trail: Outcome<S, PendingValue<V>, DecodeError<E>>,
    encoded: Outcome<T, W, ConvertError<E, V>>, converted: Outcome<Conv<S, T, V>, W, ConvertError<E, V>>)
    requires FusedFrom(trail, encoded, converted)
    ensures FusedFrom(Prepend([p], trail), Prepend(units, encoded), Prepend(units, converted))
  {
  }

  /** One step of the converter's oracle. */
  lemma ConvertOracleUnfolds<S(!new), T(!new), U(!new), V(!new), W(!new), E(!new)>(
    dec: DecodeSide<S, U, V, E>, enc: EncodeSide<T, V, W, E>, payload: seq<U>, q: Conv<S, T, V>, i: nat,
    move: Step<Conv<S, T, V>, W, ConvertError<E, V>>)
    requires Faithful(ConvertMachine(dec, enc)) && i <= |payload|
    requires move == ConvertIdeal(dec, enc, q, payload, i)
    ensures move.Go? ==>
              && i + move.read <= |payload|
              && Oracle(ConvertMachine(dec, enc), payload, q, i) ==
                 Prepend(move.out, Oracle(ConvertMachine(dec, enc), payload, move.next, i + move.read))
    ensures move.Fail? ==>
              Oracle(ConvertMachine(dec, enc), payload, q, i) == Rejected([], move.error, move.after)
    ensures move.Stop? ==> Oracle(ConvertMachine(dec, enc), payload, q, i) == Done([], q)
  {
    assert IdealOK(ConvertMachine(dec, enc), payload, q, i);
  }

  /** A skipped event changes nothing but the source state and the position. */
  lemma SkipFuses<S(!new), T(!new), U(!new), V(!new), W(!new), E(!new)>(
    dec: DecodeSide<S, U, V, E>, enc: EncodeSide<T, V, W, E>, payload: seq<U>, s: S, t: T, i: nat, read: nat, next: S)
    requires Faithful(ConvertMachine(dec, enc)) && i < |payload|
    requires FinalEvent(dec, s, payload[i..], i) == Skipped(read, next) && i + read <= |payload|
    ensures Oracle(ConvertMachine(dec, enc), payload, Conv(s, t, None), i) ==
            Oracle(ConvertMachine(dec, enc), payload, Conv(next, t, None), i + read)
  {
    ConvertOracleUnfolds(dec, enc, payload, Conv(s, t, None), i, Go(read, [], Conv(next, t, None)));
    PrependNested([], [], Oracle(ConvertMachine(dec, enc), payload, Conv(next, t, None), i + read));
  }

  /** Decoding a value into the slot and encoding it from there takes two steps of the converter. */
  lemma ValueFuses<S(!new), T(!new), U(!new), V(!new), W(!new), E(!new)>(
    dec: DecodeSide<S, U, V, E>, enc: EncodeSide<T, V, W, E>, payload: seq<U>, s: S, t: T, i: nat,
    value: V, read: nat, next: S)
    requires ConformsEncode(enc) && Faithful(ConvertMachine(dec, enc)) && i < |payload|
    requires FinalEvent(dec, s, payload[i..], i) == Emitted(value, read, next) && i + read <= |payload|
    ensures var a := EncodeFreely(enc, t, value, i);
            var converted := Oracle(ConvertMachine(dec, enc), payload, Conv(s, t, None), i);
            match a
            case Encoded(units, t') =>
              converted == Prepend(units, Oracle(ConvertMachine(dec, enc), payload, Conv(next, t', None), i + read))
            case Rejection(error, after) =>
              converted == Rejected([], FromEncodeErrorWithValue(error, value), Conv(next, after, None))
            case Blocked(_) => false
  {
    hide Oracle, FinalEvent, EncodeOne;
    var loaded := Conv(next, t, Some(PendingValue(value, i)));
    RoomOnlyDelays(enc, t, value, i, 0);
    ConvertOracleUnfolds(dec, enc, payload, Conv(s, t, None), i, Go(read, [], loaded));
    var a := EncodeFreely(enc, t, value, i);
    ConvertOracleUnfolds(dec, enc, payload, loaded, i + read, PendingStep(loaded, PendingValue(value, i), a));
    PrependNested([], [], Oracle(ConvertMachine(dec, enc), payload, loaded, i + read));
  }

  /** A complete decoded stream in terms of its trail. */
  lemma DecodedStreamParts<S(!new), U(!new), V(!new), E(!new)>(dec: DecodeSide<S, U, V, E>, s: S, payload: seq<U>)
    requires ConformsDecode(dec)
    ensures var decoded := DecodeStream(dec, s, payload);
            var d0 := DecodeReset(dec, s);
            if d0.Rejected? then decoded.Rejected? else
            var trail := DecodeTrail(dec, payload, d0.final, 0);
            if trail.Rejected? then decoded.Rejected? else
            decoded == Prepend(d0.out + Values(trail.out), DecodeFinish(dec, trail.final))
  {
    DecodeFaithful(dec);
    var d0 := DecodeReset(dec, s);
    if d0.Done? {
      TrailIsDecodeOracle(dec, payload, d0.final, 0);
    }
  }

  /** A complete encoded stream in terms of any located copy of its values. */
  lemma EncodedStreamParts<T(!new), V(!new), W(!new), E(!new)>(
    enc: EncodeSide<T, V, W, E>, t: T, ps: seq<PendingValue<V>>)
    requires ConformsEncode(enc)
    ensures var encoded := EncodeStream(enc, t, Values(ps));
            var e0 := EncodeReset(enc, t);
            if e0.Rejected? then encoded.Rejected? else
            var e := EncodeTrail(enc, e0.final, ps);
            if e.Rejected? then encoded.Rejected? else
            encoded == Prepend(e0.out + e.out, EncodeFinish(enc, e.final))
  {
    EncodeFaithful(enc);
    var e0 := EncodeReset(enc, t);
    if e0.Done? {
      assert Values(ps) == Values(ps)[0..];
      TrailIsEncodeOracle(enc, ps, Values(ps), e0.final, 0);
    }
  }

  /** Three groups of values encode one after the other. */
  lemma EncodeGroups<T(!new), V(!new), W(!new), E(!new)>(
    enc: EncodeSide<T, V, W, E>, t: T, a: seq<PendingValue<V>>, b: seq<PendingValue<V>>, c: seq<PendingValue<V>>)
    requires ConformsEncode(enc)
    ensures var ea := EncodeTrail(enc, t, a);
            var all := EncodeTrail(enc, t, a + b + c);
            if ea.Rejected? then all.Rejected? else
            var eb := EncodeTrail(enc, ea.final, b);
            if eb.Rejected? then all.Rejected? else
            var ec := EncodeTrail(enc, eb.final, c);
            if ec.Rejected? then all.Rejected? else all == Done(ea.out + eb.out + ec.out, ec.final)
  {
    EncodeTrailSplits(enc, t, a + b, c);
    EncodeTrailSplits(enc, t, a, b);
  }

  /** A complete conversion in terms of what the source decodes and how the target encodes it. */
  lemma ConvertedStreamParts<S(!new), T(!new), U(!new), V(!new), W(!new), E(!new)>(
    dec: DecodeSide<S, U, V, E>, enc: EncodeSide<T, V, W, E>, q: Conv<S, T, V>, payload: seq<U>)
    requires ConformsDecode(dec) && ConformsEncode(enc)
    ensures var converted := ConvertStream(dec, enc, q, payload);
            var e0 := EncodeReset(enc, q.target);
            if e0.Rejected? then converted.Rejected? else
            var d0 := DecodeReset(dec, q.source);
            if d0.Rejected? then converted.Rejected? else
            var e1 := EncodeTrail(enc, e0.final, Unlocated(d0.out));
            if e1.Rejected? then converted.Rejected? else
            var trail := DecodeTrail(dec, payload, d0.final, 0);
            var e2 := EncodeTrail(enc, e1.final, trail.out);
            if trail.Rejected? || e2.Rejected? then converted.Rejected? else
            converted == Prepend(e0.out + e1.out + e2.out, ConvertTrailer(dec, enc, trail.final, e2.final))
  {
    ConvertFaithful(dec, enc);
    var e0 := EncodeReset(enc, q.target);
    var d0 := DecodeReset(dec, q.source);
    if e0.Done? && d0.Done? {
      var e1 := EncodeTrail(enc, e0.final, Unlocated(d0.out));
      if e1.Done? {
        MainPhaseFuses(dec, enc, payload, d0.final, e1.final, 0);
        var trail := DecodeTrail(dec, payload, d0.final, 0);
        var e2 := EncodeTrail(enc, e1.final, trail.out);
        if trail.Done? && e2.Done? {
          FinishFuses(dec, enc, trail.final, e2.final);
        }
      }
    }
  }

  /** Encoding everything a source decoded, stream-end values included. */
  lemma EncodedGroupsParts<T(!new), V(!new), W(!new), E(!new)>(
    enc: EncodeSide<T, V, W, E>, t: T, first: seq<V>, trail: seq<PendingValue<V>>, last: seq<V>)
    requires ConformsEncode(enc)
    ensures var encoded := EncodeStream(enc, t, first + Values(trail) + last);
            var e0 := EncodeReset(enc, t);
            if e0.Rejected? then encoded.Rejected? else
            var e1 := EncodeTrail(enc, e0.final, Unlocated(first));
            if e1.Rejected? then encoded.Rejected? else
            var e2 := EncodeTrail(enc, e1.final, trail);
            if e2.Rejected? then encoded.Rejected? else
            var e3 := EncodeTrail(enc, e2.final, Unlocated(last));
            if e3.Rejected? then encoded.Rejected? else
            encoded == Prepend(e0.out + e1.out + e2.out, Prepend(e3.out, EncodeFinish(enc, e3.final)))
  {
    var ps := Unlocated(first) + trail + Unlocated(last);
    assert Values(ps) == first + Values(trail) + last;
    EncodedStreamParts(enc, t, ps);
    var e0 := EncodeReset(enc, t);
    if e0.Done? {
      EncodeGroups(enc, e0.final, Unlocated(first), trail, Unlocated(last));
      var e := EncodeTrail(enc, e0.final, ps);
      if e.Done? {
        var e1 := EncodeTrail(enc, e0.final, Unlocated(first));
        var e2 := EncodeTrail(enc, e1.final, trail);
        var e3 := EncodeTrail(enc, e2.final, Unlocated(last));
        assert e0.out + (e1.out + e2.out + e3.out) == e0.out + e1.out + e2.out + e3.out;
        PrependNested(e0.out + e1.out + e2.out, e3.out, EncodeFinish(enc, e3.final));
      }
    }
  }

  /** Fusion: one-shot conversion succeeds exactly when one-shot decoding succeeds and one-shot encoding of what it
      decoded, stream-end values included, succeeds; then it delivers that encoding and leaves both sides in the
      states their own streams would. */
  lemma ConversionFuses<S(!new), T(!new), U(!new), V(!new), W(!new), E(!new)>(
    dec: DecodeSide<S, U, V, E>, enc: EncodeSide<T, V, W, E>, q: Conv<S, T, V>, payload: seq<U>)
    requires ConformsDecode(dec) && ConformsEncode(enc)
    ensures var decoded := DecodeStream(dec, q.source, payload);
            var converted := ConvertStream(dec, enc, q, payload);
            && (converted.Done? <==> decoded.Done? && EncodeStream(enc, q.target, decoded.out).Done?)
            && (converted.Done? ==>
                  var encoded := EncodeStream(enc, q.target, decoded.out);
                  converted == Done(encoded.out, Conv(decoded.final, encoded.final, None)))
  {
    DecodedStreamParts(dec, q.source, payload);
    ConvertedStreamParts(dec, enc, q, payload);
    var d0 := DecodeReset(dec, q.source);
    if d0.Done? {
      var trail := DecodeTrail(dec, payload, d0.final, 0);
      if trail.Done? {
        var d2 := DecodeFinish(dec, trail.final);
        if d2.Done? {
          EncodedGroupsParts(enc, q.target, d0.out, trail.out, d2.out);
        }
      }
    }
  }

  /** Everything the source produces, located, stream ends included; a stream end that fails produces nothing. */
  ghost function SourceTrail<S(!new), U(!new), V(!new), E(!new)>(dec: DecodeSide<S, U, V, E>, s: S, payload: seq<U>)
    : Outcome<S, PendingValue<V>, DecodeError<E>>
    requires ConformsDecode(dec)
  {
    match DecodeReset(dec, s)
    case Rejected(_, error, after) => Rejected([], error, after)
    case Done(first, s1) =>
      match DecodeTrail(dec, payload, s1, 0)
      case Rejected(ps, error, after) => Rejected(Unlocated(first) + ps, error, after)
      case Done(ps, s2) =>
        match DecodeFinish(dec, s2)
        case Rejected(_, error, after) => Rejected(Unlocated(first) + ps, error, after)
        case Done(last, s3) => Done(Unlocated(first) + ps + Unlocated(last), s3)
  }

  /** Its values are those of the decoded stream, and its error is that stream's error. */
  lemma SourceTrailIsStream<S(!new), U(!new), V(!new), E(!new)>(dec: DecodeSide<S, U, V, E>, s: S, payload: seq<U>)
    requires ConformsDecode(dec)
    ensures var trail, stream := SourceTrail(dec, s, payload), DecodeStream(dec, s, payload);
            && (trail.Done? ==> stream == Done(Values(trail.out), trail.final))
            && (trail.Rejected? ==>
                  && stream.Rejected? && stream.error == trail.error && stream.after == trail.after
                  && Values(trail.out) <= stream.out)
  {
    hide Oracle, DecodeTrail, Faithful, ConformsDecode, DecodeReset, DecodeFinish;
    DecodeFaithful(dec);
    var d0 := DecodeReset(dec, s);
    if d0.Done? {
      TrailIsDecodeOracle(dec, payload, d0.final, 0);
      var main := DecodeTrail(dec, payload, d0.final, 0);
      ValuesOfParts(d0.out, main.out);
    }
  }

  lemma ValuesOfParts<V>(first: seq<V>, ps: seq<PendingValue<V>>)
    ensures Values(Unlocated(first) + ps) == first + Values(ps)
    ensures forall last: seq<V> :: Values(Unlocated(first) + ps + Unlocated(last)) == first + Values(ps) + last
  {
  }

  /** What the target side makes of everything the source produces, and how the two failures combine: the target's reset
      comes first, the source's failure shows only when everything before it could be encoded, and the target finishes
      only when the source has. */
  ghost predicate FusedStream<S, T, V, W, E>(
    q: Conv<S, T, V>, started: Outcome<T, W, EncodeError<E, V>>, trail: Outcome<S, PendingValue<V>, DecodeError<E>>,
    body: Outcome<T, W, ConvertError<E, V>>, closed: Outcome<T, W, EncodeError<E, V>>,
    converted: Outcome<Conv<S, T, V>, W, ConvertError<E, V>>)
  {
    if started.Rejected? then
      converted == Rejected(started.out, FromEncodeError(started.error), Conv(q.source, started.after, None))
    else if body.Rejected? then
      && converted.Rejected? && converted.out == started.out + body.out && converted.error == body.error
      && converted.after.target == body.after && converted.after.pending == None
    else if trail.Rejected? then
      converted == Rejected(started.out + body.out, FromDecodeError(trail.error), Conv(trail.after, body.final, None))
    else if closed.Rejected? then
      converted == Rejected(started.out + body.out + closed.out, FromEncodeError(closed.error),
                            Conv(trail.final, closed.after, None))
    else
      converted == Done(started.out + body.out + closed.out, Conv(trail.final, closed.final, None))
  }

  /** Complete fusion: the converted stream, with its output, error and final states in every case, is what the target
      side makes of everything the source side produces. */
  lemma ConversionFusesCompletely<S(!new), T(!new), U(!new), V(!new), W(!new), E(!new)>(
    dec: DecodeSide<S, U, V, E>, enc: EncodeSide<T, V, W, E>, q: Conv<S, T, V>, payload: seq<U>,
    body: Outcome<T, W, ConvertError<E, V>>, closed: Outcome<T, W, EncodeError<E, V>>)
    requires ConformsDecode(dec) && ConformsEncode(enc)
    requires EncodeReset(enc, q.target).Done? ==>
               body == EncodeTrail(enc, EncodeReset(enc, q.target).final, SourceTrail(dec, q.source, payload).out)
    requires body.Done? ==> closed == EncodeFinish(enc, body.final)
    ensures FusedStream(q, EncodeReset(enc, q.target), SourceTrail(dec, q.source, payload), body, closed,
                        ConvertStream(dec, enc, q, payload))
  {
    hide Oracle, DecodeTrail, EncodeTrail, Faithful, ConformsDecode, ConformsEncode, DecodeReset, EncodeReset,
         DecodeFinish, EncodeFinish, ConvertFinish;
    ConvertFaithful(dec, enc);
    var e0, d0 := EncodeReset(enc, q.target), DecodeReset(dec, q.source);
    if e0.Done? {
      NothingToEncode(enc, e0.final);
      if d0.Done? {
        var first, main := Unlocated(d0.out), DecodeTrail(dec, payload, d0.final, 0);
        var e1 := EncodeTrail(enc, e0.final, first);
        EncodeTrailSplits(enc, e0.final, first, main.out);
        EncodeTrailSplits(enc, e0.final, first + main.out,
                          if main.Done? then Unlocated(DecodeFinish(dec, main.final).out) else []);
        if e1.Done? {
          MainPhaseFuses(dec, enc, payload, d0.final, e1.final, 0);
          var e2 := EncodeTrail(enc, e1.final, main.out);
          assert e0.out + e1.out + e2.out == e0.out + (e1.out + e2.out);
          if main.Done? && e2.Done? {
            FinishFuses(dec, enc, main.final, e2.final);
            var d2 := DecodeFinish(dec, main.final);
            if d2.Done? {
              var e3 := EncodeTrail(enc, e2.final, Unlocated(d2.out));
              assert e0.out + (e1.out + e2.out + e3.out) == e0.out + e1.out + e2.out + e3.out;
              if e3.Done? {
                var last := EncodeFinish(enc, e3.final).out;
                assert e0.out + e1.out + e2.out + (e3.out + last) == e0.out + (e1.out + e2.out + e3.out) + last;
              }
            } else {
              assert e0.out + e1.out + e2.out + [] == e0.out + (e1.out + e2.out);
            }
          }
        }
      }
    }
  }

  lemma NothingToEncode<T, V, W, E>(enc: EncodeSide<T, V, W, E>, t: T)
    ensures EncodeTrail<T, V, W, E>(enc, t, []) == Done([], t)
  {
  }

  /** The converter's finish with nothing retained. */
  lemma FinishFuses<S(!new), T(!new), U(!new), V(!new), W(!new), E(!new)>(
    dec: DecodeSide<S, U, V, E>, enc: EncodeSide<T, V, W, E>, s: S, t: T)
    ensures ConvertFinish(dec, enc, Conv(s, t, None)) == ConvertTrailer(dec, enc, s, t)
  {
    PrependNested([], [], ConvertTrailer(dec, enc, s, t));
  }
}
