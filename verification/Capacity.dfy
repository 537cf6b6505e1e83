/** Output bounds: how much room a stream can ask for, and why the engines' bounds are enough. */
module Capacity {
  import opened Basics
  import opened Codecs
  import opened Streaming
  import opened Decoding
  import opened Encoding
  import opened Converting
  import opened Lifecycles

  // ---------------------------------------------------------------------------------------------------------
  // Decode demand
  // ---------------------------------------------------------------------------------------------------------

  /** Value slots the decode loop needs from position `i` on.  Every event needs a free slot before it happens, also
      when it is then skipped or rejected; only emitted values keep theirs. */
  ghost function Demand<S(!new), U(!new), V(!new), E(!new)>(
    dec: DecodeSide<S, U, V, E>, payload: seq<U>, s: S, i: nat): nat
    requires ConformsDecode(dec) && i <= |payload|
    decreases |payload| - i
  {
    if i == |payload| then 0
    else
      EventIsFinal(dec, s, payload[i..], payload[i..], i, true);
      match FinalEvent(dec, s, payload[i..], i)
      case Emitted(_, read, next) => 1 + Demand(dec, payload, next, i + read)
      case Skipped(read, next) => Max(1, Demand(dec, payload, next, i + read))
      case Refuted(_, _) => 1
  }

  /** One event of the demand. */
  lemma DemandUnfolds<S(!new), U(!new), V(!new), E(!new)>(
    dec: DecodeSide<S, U, V, E>, payload: seq<U>, s: S, i: nat, e: Event<S, V, E>)
    requires ConformsDecode(dec) && i < |payload| && e == FinalEvent(dec, s, payload[i..], i)
    ensures EventFits(e, |payload| - i) && 0 < Demand(dec, payload, s, i)
    ensures e.Emitted? ==> Demand(dec, payload, s, i) == 1 + Demand(dec, payload, e.next, i + e.read)
    ensures e.Skipped? ==> Demand(dec, payload, s, i) == Max(1, Demand(dec, payload, e.next, i + e.read))
    ensures e.Refuted? ==> Demand(dec, payload, s, i) == 1
  {
    hide FinalEvent;
    EventIsFinal(dec, s, payload[i..], payload[i..], i, true);
  }

  /** The policy's streaming bound covers the demand of every payload from every state. */
  ghost predicate DecodeBoundCovers<S(!new), U(!new), V(!new), E(!new)>(dec: DecodeSide<S, U, V, E>)
    requires ConformsDecode(dec)
  {
    forall payload: seq<U>, s: S | |payload| <= USIZE_MAX :: DemandCovered(dec, payload, s)
  }

  ghost predicate DemandCovered<S(!new), U(!new), V(!new), E(!new)>(
    dec: DecodeSide<S, U, V, E>, payload: seq<U>, s: S)
    requires ConformsDecode(dec) && |payload| <= USIZE_MAX
  {
    var bound := dec.hooks.maxTranscode(|payload|);
    bound.Some? ==> Demand(dec, payload, s, 0) <= bound.value
  }

  /** The default decode bound, the number of units, is always enough. */
  lemma {:induction false} DefaultBoundCovers<S(!new), U(!new), V(!new), E(!new)>(
    dec: DecodeSide<S, U, V, E>, payload: seq<U>, s: S, i: nat)
    requires ConformsDecode(dec) && i <= |payload|
    ensures Demand(dec, payload, s, i) <= |payload| - i
    decreases |payload| - i
  {
    if i < |payload| {
      EventIsFinal(dec, s, payload[i..], payload[i..], i, true);
      var e := FinalEvent(dec, s, payload[i..], i);
      if e.Emitted? || e.Skipped? {
        DefaultBoundCovers(dec, payload, e.next, i + e.read);
      }
    }
  }

  /** Successful decodes never consume less than the declared minimum. */
  ghost predicate WideSuccesses<S(!new), U(!new), V(!new), E(!new)>(codec: DecodeCodec<S, U, V, E>) {
    forall s, units: seq<U> | codec.minUnits <= |units| :: WideSuccess(codec, codec.decodeEof(s, units))
  }

  ghost predicate WideSuccess<S(!new), U(!new), V(!new), E(!new)>(
    codec: DecodeCodec<S, U, V, E>, d: DecodeResult<S, V, E>)
  {
    d.Decoded? ==> codec.minUnits <= d.consumed
  }

  /** The strict policy emits only successes and skips nothing. */
  lemma StrictEvents<S(!new), U(!new), V(!new), E(!new)>(
    codec: DecodeCodec<S, U, V, E>, s: S, rest: seq<U>, i: nat, e: Event<S, V, E>)
    requires 0 < codec.minUnits && WideSuccesses(codec) && e == FinalEvent(StrictDecode(codec), s, rest, i)
    ensures !e.Skipped? && (e.Emitted? ==> codec.minUnits <= e.read)
  {
    if codec.minUnits <= |rest| {
      assert WideSuccess(codec, codec.decodeEof(s, rest));
    }
  }

  /** Strict decoding needs at most one slot per minimum width, a shorter rejected tail included. */
  lemma {:induction false} StrictDemand<S(!new), U(!new), V(!new), E(!new)>(
    codec: DecodeCodec<S, U, V, E>, payload: seq<U>, s: S, i: nat)
    requires 0 < codec.minUnits && ConformsDecode(StrictDecode(codec)) && WideSuccesses(codec) && i <= |payload|
    ensures var demand := Demand(StrictDecode(codec), payload, s, i);
            && (i == |payload| ==> demand == 0)
            && (i < |payload| ==> demand * codec.minUnits < |payload| - i + codec.minUnits)
    decreases |payload| - i
  {
    hide FinalEvent;
    var dec := StrictDecode(codec);
    if i < |payload| {
      var e := FinalEvent(dec, s, payload[i..], i);
      DemandUnfolds(dec, payload, s, i, e);
      StrictEvents(codec, s, payload[i..], i, e);
      if e.Emitted? {
        StrictDemand(codec, payload, e.next, i + e.read);
        OneMore(Demand(dec, payload, s, i), codec.minUnits);
      }
    }
  }

  /** The strict bound `ceil(n / MIN)` covers strict decoding. */
  lemma StrictBoundCovers<S(!new), U(!new), V(!new), E(!new)>(codec: DecodeCodec<S, U, V, E>)
    requires 0 < codec.minUnits && ConformsDecode(StrictDecode(codec)) && WideSuccesses(codec)
    ensures DecodeBoundCovers(StrictDecode(codec))
  {
    var dec := StrictDecode(codec);
    forall payload: seq<U>, s: S | |payload| <= USIZE_MAX ensures DemandCovered(dec, payload, s) {
      StrictDemand(codec, payload, s, 0);
      FitsCeiling(Demand(dec, payload, s, 0), |payload|, codec.minUnits);
    }
  }

  lemma FitsCeiling(demand: nat, n: nat, d: nat)
    requires 0 < d && (n == 0 ==> demand == 0) && (0 < n ==> demand * d < n + d)
    ensures demand <= CeilDiv(n, d)
  {
    var q := CeilDiv(n, d);
    assert n + d <= (q + 1) * d;
    if q < demand {
      MulMonotone(q + 1, demand, d);
    }
  }

  lemma MulMonotone(a: nat, b: nat, m: nat)
    requires a <= b
    ensures a * m <= b * m
  {
  }

  // ---------------------------------------------------------------------------------------------------------
  // Calls with enough room
  // ---------------------------------------------------------------------------------------------------------

  /** A decode call at end of input that gets the demanded slots never stops for output. */
  lemma {:induction false} DecodeNeverBlocks<S(!new), U(!new), V(!new), E(!new)>(
    dec: DecodeSide<S, U, V, E>, payload: seq<U>, s: S, i: nat, room: nat)
    requires ConformsDecode(dec) && Faithful(DecodeMachine(dec)) && i <= |payload|
    requires Demand(dec, payload, s, i) <= room
    ensures var c := Call(DecodeMachine(dec), s, payload, i, room, true);
            c.Stopped? ==> c.status.Complete? && |c.out| <= Demand(dec, payload, s, i)
    decreases |payload| - i
  {
    hide DecodeOne, Call, Demand, Faithful;
    var step := DecodeStep(dec, s, payload, i, room, true);
    DecodeCallUnfolds(dec, s, payload, i, room, true, step);
    if i < |payload| {
      DemandUnfolds(dec, payload, s, i, DecodeOne(dec, s, payload[i..], i, true));
      if step.Go? {
        DecodeNeverBlocks(dec, payload, step.next, i + step.read, room - |step.out|);
      }
    }
  }

  /** An encode call with the widest encoding in reserve for each value never stops for output. */
  lemma {:induction false} EncodeNeverBlocks<T(!new), V(!new), W(!new), E(!new)>(
    enc: EncodeSide<T, V, W, E>, values: seq<V>, t: T, i: nat, room: nat, eof: bool)
    requires ConformsEncode(enc) && Faithful(EncodeMachine(enc)) && i <= |values|
    requires (|values| - i) * enc.codec.maxUnits <= room
    ensures var c := Call(EncodeMachine(enc), t, values, i, room, eof);
            c.Stopped? ==> c.status.Complete? && |c.out| <= (|values| - i) * enc.codec.maxUnits
    decreases |values| - i
  {
    hide Call, EncodeOne, EncodeFreely, Faithful, ConformsEncode;
    var step := EncodeStep(enc, t, values, i, room);
    EncodeCallUnfolds(enc, t, values, i, room, eof, step);
    if i < |values| {
      OneMore(|values| - i, enc.codec.maxUnits);
      RoomOnlyDelays(enc, t, values[i], i, room);
      if step.Go? {
        EncodeNeverBlocks(enc, values, step.next, i + 1, room - |step.out|, eof);
      }
    }
  }

  lemma OneMore(k: nat, m: nat)
    requires 0 < k
    ensures k * m == m + (k - 1) * m && m <= k * m
  {
  }

  /** Room the converter can need from here on: the widest encoding for each value still to come. */
  ghost function ConvertDemand<S(!new), T(!new), U(!new), V(!new), W(!new), E(!new)>(
    dec: DecodeSide<S, U, V, E>, enc: EncodeSide<T, V, W, E>, payload: seq<U>, q: Conv<S, T, V>, i: nat): nat
    requires ConformsDecode(dec) && i <= |payload|
  {
    (Demand(dec, payload, q.source, i) + Retained(q)) * enc.codec.maxUnits
  }

  /** Every move of the converter gives back the room it uses. */
  lemma ConvertMovePays<S(!new), T(!new), U(!new), V(!new), W(!new), E(!new)>(
    dec: DecodeSide<S, U, V, E>, enc: EncodeSide<T, V, W, E>, payload: seq<U>, q: Conv<S, T, V>, i: nat, room: nat,
    step: Step<Conv<S, T, V>, W, ConvertError<E, V>>)
    requires ConformsDecode(dec) && ConformsEncode(enc) && i <= |payload|
    requires ConvertDemand(dec, enc, payload, q, i) <= room
    requires step == ConvertStep(dec, enc, q, payload, i, room, true)
    ensures step.Go? ==>
              && i + step.read <= |payload|
              && |step.out| + ConvertDemand(dec, enc, payload, step.next, i + step.read)
                 <= ConvertDemand(dec, enc, payload, q, i)
              && (step.read > 0 || Retained(step.next) < Retained(q))
    ensures step.Stop? ==> step.status.Complete?
  {
    hide DecodeOne, EncodeOne, EncodeFreely, Demand;
    if q.pending.Some? {
      OneMore(Demand(dec, payload, q.source, i) + 1, enc.codec.maxUnits);
      RoomOnlyDelays(enc, q.target, q.pending.value.value, q.pending.value.inputIndex, room);
    } else if i < |payload| {
      var e := DecodeOne(dec, q.source, payload[i..], i, true);
      DemandUnfolds(dec, payload, q.source, i, e);
      if e.Skipped? {
        MulMonotone(Demand(dec, payload, e.next, i + e.read), Demand(dec, payload, q.source, i), enc.codec.maxUnits);
      }
    }
  }

  /** A conversion call at end of input with the demanded room never stops for output. */
  lemma {:induction false} ConvertNeverBlocks<S(!new), T(!new), U(!new), V(!new), W(!new), E(!new)>(
    dec: DecodeSide<S, U, V, E>, enc: EncodeSide<T, V, W, E>, payload: seq<U>, q: Conv<S, T, V>, i: nat, room: nat)
    requires ConformsDecode(dec) && ConformsEncode(enc) && Faithful(ConvertMachine(dec, enc)) && i <= |payload|
    requires ConvertDemand(dec, enc, payload, q, i) <= room
    ensures var c := Call(ConvertMachine(dec, enc), q, payload, i, room, true);
            c.Stopped? ==> c.status.Complete? && |c.out| <= ConvertDemand(dec, enc, payload, q, i)
    decreases |payload| - i, Retained(q)
  {
    hide Call, ConvertDemand, ConvertStep, Faithful;
    var step := ConvertStep(dec, enc, q, payload, i, room, true);
    ConvertCallUnfolds(dec, enc, q, payload, i, room, true, step);
    ConvertMovePays(dec, enc, payload, q, i, room, step);
    if step.Go? {
      ConvertNeverBlocks(dec, enc, payload, step.next, i + step.read, room - |step.out|);
    }
  }

  // ---------------------------------------------------------------------------------------------------------
  // Encoding retained or stream-end values
  // ---------------------------------------------------------------------------------------------------------

  /** Values encoded one after the other never outgrow the widest encoding of each. */
  lemma {:induction false} TrailFits<T(!new), V(!new), W(!new), E(!new)>(
    enc: EncodeSide<T, V, W, E>, t: T, ps: seq<PendingValue<V>>)
    requires ConformsEncode(enc)
    ensures |EncodeTrail(enc, t, ps).out| <= |ps| * enc.codec.maxUnits
    decreases |ps|
  {
    if ps != [] {
      OneMore(|ps|, enc.codec.maxUnits);
      RoomOnlyDelays(enc, t, ps[0].value, ps[0].inputIndex, 0);
      RoomOnlyDelays(enc, t, ps[0].value, ps[0].inputIndex, enc.codec.maxUnits);
      var a := EncodeFreely(enc, t, ps[0].value, ps[0].inputIndex);
      if a.Encoded? {
        TrailFits(enc, a.next, ps[1..]);
      }
    }
  }
}
