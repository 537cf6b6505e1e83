/**
  * Calls stop only when they have to.
  *
  * `CallFollowsOracle` says that a call does nothing but what the whole run would do; the lemmas here say that it does
  * not do less either.  Each stop is justified by the codec: the units in view do not decide the next value, or the
  * next value does not fit.
  */
module Stops {
  import opened Basics
  import opened Progress
  import opened Codecs
  import opened Streaming
  import opened Decoding
  import opened Encoding
  import opened Converting

  // ---------------------------------------------------------------------------------------------------------
  // Single attempts
  // ---------------------------------------------------------------------------------------------------------

  /** Slots that must be free before a value is encoded: its exact width, or the declared maximum while it is open what
      the policy makes of it. */
  function Needs<T, V, W, E>(enc: EncodeSide<T, V, W, E>, t: T, v: V): usize {
    if enc.codec.canEncode(t, v) then enc.codec.encodeLen(t, v) else enc.codec.maxUnits
  }

  /** An attempt is blocked exactly when fewer slots are free than the value needs, and then asks for exactly those. */
  lemma BlocksExactlyWhenShort<T(!new), V(!new), W(!new), E(!new)>(
    enc: EncodeSide<T, V, W, E>, t: T, v: V, index: nat, room: nat)
    requires ConformsEncode(enc)
    ensures var a := EncodeOne(enc, t, v, index, room);
            && (a.Blocked? <==> room < Needs(enc, t, v))
            && (a.Blocked? ==> a.required == Needs(enc, t, v))
  {
    assert EncodeExact(enc, t, v) && ReplacementEncodable(enc, t, v);
    var ruling := enc.hooks.handleUnencodable(t, v);
    if ruling.Ruled? && ruling.action.ReplaceValue? {
      assert EncodeExact(enc, ruling.next, ruling.action.value);
    }
  }

  /** The units `seen` do not decide the next value: there are fewer than the minimum, or the codec says so. */
  ghost predicate Undecided<S(!new), U(!new), V(!new), E(!new)>(
    dec: DecodeSide<S, U, V, E>, s: S, seen: seq<U>, required: usize)
  {
    if |seen| < dec.codec.minUnits then required == dec.codec.minUnits
    else
      var d := dec.codec.decode(s, seen);
      d.Incomplete? && d.requiredTotal == required
  }

  /** An attempt is starved exactly when the stream is still open and the units in view do not decide the value. */
  lemma StarvesExactlyWhenUndecided<S(!new), U(!new), V(!new), E(!new)>(
    dec: DecodeSide<S, U, V, E>, s: S, seen: seq<U>, index: nat, eof: bool, required: usize)
    ensures DecodeOne(dec, s, seen, index, eof) == Starved(required) <==> !eof && Undecided(dec, s, seen, required)
  {
  }

  // ---------------------------------------------------------------------------------------------------------
  // Whole calls
  // ---------------------------------------------------------------------------------------------------------

  /** A decode call stops for input only in front of an undecided value of an open stream, and asks for what the codec
      asks; it stops for output only in front of units it could look at, with every slot written. */
  lemma {:induction false} DecodeStopsAreDue<S(!new), U(!new), V(!new), E(!new)>(
    dec: DecodeSide<S, U, V, E>, s: S, visible: seq<U>, i: nat, room: nat, eof: bool)
    requires ConformsDecode(dec) && Faithful(DecodeMachine(dec)) && i <= |visible|
    ensures var c := Call(DecodeMachine(dec), s, visible, i, room, eof);
            c.Stopped? ==>
              var j := i + c.read;
              && j <= |visible|
              && (c.status.Complete? ==> j == |visible|)
              && (c.status.NeedInput? ==>
                    !eof && j < |visible| && Undecided(dec, c.next, visible[j..], c.status.required)
                    && (dec.codec.minUnits <= |visible| - j ==> |c.out| < room))
              && (c.status.NeedOutput? ==>
                    && c.status.required == 1 && |c.out| == room && j < |visible|
                    && (eof || dec.codec.minUnits <= |visible| - j))
    decreases |visible| - i
  {
    hide Call, Faithful, ConformsDecode, Undecided, DecodeOne;
    var step := DecodeStep(dec, s, visible, i, room, eof);
    DecodeCallUnfolds(dec, s, visible, i, room, eof, step);
    if step.Go? {
      DecodeStopsAreDue(dec, step.next, visible, i + step.read, room - |step.out|, eof);
    } else if step.Stop? && step.status.NeedInput? {
      ShortIsUndecided(dec, s, visible[i..]);
      if eof || dec.codec.minUnits <= |visible| - i {
        assert step == EventStep(DecodeOne(dec, s, visible[i..], i, eof));
        StarvesExactlyWhenUndecided(dec, s, visible[i..], i, eof, step.status.required);
      }
    }
  }

  lemma ShortIsUndecided<S(!new), U(!new), V(!new), E(!new)>(dec: DecodeSide<S, U, V, E>, s: S, seen: seq<U>)
    ensures |seen| < dec.codec.minUnits ==> Undecided(dec, s, seen, dec.codec.minUnits)
  {
  }

  /** An encode call stops for output only in front of a value that does not fit, and asks for exactly what that value
      needs; it never stops for input. */
  lemma {:induction false} EncodeStopsAreDue<T(!new), V(!new), W(!new), E(!new)>(
    enc: EncodeSide<T, V, W, E>, t: T, visible: seq<V>, i: nat, room: nat, eof: bool)
    requires ConformsEncode(enc) && Faithful(EncodeMachine(enc)) && i <= |visible|
    ensures var c := Call(EncodeMachine(enc), t, visible, i, room, eof);
            c.Stopped? ==>
              var j := i + c.read;
              && j <= |visible| && |c.out| <= room && !c.status.NeedInput?
              && (c.status.Complete? ==> j == |visible|)
              && (c.status.NeedOutput? ==>
                    j < |visible| && room - |c.out| < c.status.required == Needs(enc, c.next, visible[j]))
    decreases |visible| - i
  {
    hide Call, Faithful, ConformsEncode, EncodeOne;
    var step := EncodeStep(enc, t, visible, i, room);
    EncodeStepReads(enc, t, visible, i, room);
    EncodeCallUnfolds(enc, t, visible, i, room, eof, step);
    if step.Go? {
      EncodeStopsAreDue(enc, step.next, visible, i + 1, room - |step.out|, eof);
    } else if i < |visible| {
      BlocksExactlyWhenShort(enc, t, visible[i], i, room);
    }
  }

  /** A conversion call stops for output only with a value in the slot that does not fit, asking for exactly what that
      value needs, and for input only with an empty slot, in front of an undecided value of an open stream. */
  lemma {:induction false} ConvertStopsAreDue<S(!new), T(!new), U(!new), V(!new), W(!new), E(!new)>(
    dec: DecodeSide<S, U, V, E>, enc: EncodeSide<T, V, W, E>, q: Conv<S, T, V>, visible: seq<U>, i: nat, room: nat,
    eof: bool)
    requires ConformsDecode(dec) && ConformsEncode(enc) && Faithful(ConvertMachine(dec, enc)) && i <= |visible|
    ensures var c := Call(ConvertMachine(dec, enc), q, visible, i, room, eof);
            c.Stopped? ==>
              var j := i + c.read;
              && j <= |visible| && |c.out| <= room
              && (c.status.Complete? ==> j == |visible| && c.next.pending == None)
              && (c.status.NeedInput? ==>
                    && !eof && c.next.pending == None && j < |visible|
                    && Undecided(dec, c.next.source, visible[j..], c.status.required))
              && (c.status.NeedOutput? ==>
                    && c.next.pending.Some?
                    && room - |c.out| < c.status.required == Needs(enc, c.next.target, c.next.pending.value.value))
    decreases 2 * (|visible| - i) + Retained(q)
  {
    hide Call, Faithful, ConformsDecode, ConformsEncode, Undecided, DecodeOne, EncodeOne;
    var step := ConvertStep(dec, enc, q, visible, i, room, eof);
    ConvertCallUnfolds(dec, enc, q, visible, i, room, eof, step);
    ConvertStepWorks(dec, enc, q, visible, i, room, eof);
    if step.Go? {
      ConvertStopsAreDue(dec, enc, step.next, visible, i + step.read, room - |step.out|, eof);
    } else if q.pending.Some? {
      BlocksExactlyWhenShort(enc, q.target, q.pending.value.value, q.pending.value.inputIndex, room);
    } else if i < |visible| && step.Stop? && step.status.NeedInput? {
      StarvesExactlyWhenUndecided(dec, q.source, visible[i..], i, eof, step.status.required);
    }
  }

  /** Every move of the converter settles the retained value or consumes input. */
  lemma ConvertStepWorks<S(!new), T(!new), U(!new), V(!new), W(!new), E(!new)>(
    dec: DecodeSide<S, U, V, E>, enc: EncodeSide<T, V, W, E>, q: Conv<S, T, V>, visible: seq<U>, i: nat, room: nat,
    eof: bool)
    requires ConformsDecode(dec) && ConformsEncode(enc) && Faithful(ConvertMachine(dec, enc)) && i <= |visible|
    ensures var step := ConvertStep(dec, enc, q, visible, i, room, eof);
            step.Go? ==> Retained(step.next) < Retained(q) + 2 * step.read
    ensures q.pending == None && i < |visible| ==>
              !ConvertStep(dec, enc, q, visible, i, room, eof).Stop? ||
              ConvertStep(dec, enc, q, visible, i, room, eof).status.NeedInput?
  {
    hide DecodeOne, EncodeOne, ConvertIdeal, PendingStep;
    assert StepOK(ConvertMachine(dec, enc), visible, |visible|, q, i, room, eof) && visible[..|visible|] == visible;
  }
}
