/** Value conservation: in every state a driver can reach, the values decoded so far are the values already encoded or
    skipped, in order, followed by the retained one if there is one. */
module Conservation {
  import opened Basics
  import opened Codecs
  import opened Streaming
  import opened Decoding
  import opened Encoding
  import opened Converting
  import opened Lifecycles
  import opened Fusion

  /** Decoding from position `i` in state `s` emits exactly `ps` by the time it reaches `j` in state `s'`. */
  ghost predicate DecodesTo<S(!new), U(!new), V(!new), E(!new)>(
    dec: DecodeSide<S, U, V, E>, payload: seq<U>, s: S, i: nat, ps: seq<PendingValue<V>>, s': S, j: nat)
    requires ConformsDecode(dec) && i <= |payload|
    decreases |payload| - i
  {
    || (i == j && s == s' && ps == [])
    || (i < |payload| &&
        EventFits(FinalEvent(dec, s, payload[i..], i), |payload| - i) &&
        match FinalEvent(dec, s, payload[i..], i)
        case Emitted(value, read, next) =>
          ps != [] && ps[0] == PendingValue(value, i) && DecodesTo(dec, payload, next, i + read, ps[1..], s', j)
        case Skipped(read, next) => DecodesTo(dec, payload, next, i + read, ps, s', j)
        case _ => false)
  }

  /** `ps` splits into values settled on the target side, which wrote `out`, and the retained one. */
  ghost predicate ConservedBy<S(!new), T(!new), U(!new), V(!new), W(!new), E(!new)>(
    dec: DecodeSide<S, U, V, E>, enc: EncodeSide<T, V, W, E>, payload: seq<U>, q0: Conv<S, T, V>,
    ps: seq<PendingValue<V>>, q: Conv<S, T, V>, j: nat, out: seq<W>)
    requires ConformsDecode(dec)
  {
    && j <= |payload| && Retained(q) <= |ps|
    && DecodesTo(dec, payload, q0.source, 0, ps, q.source, j)
    && ps[|ps| - Retained(q)..] == PendingTrail(q.pending)
    && EncodeTrail(enc, q0.target, ps[..|ps| - Retained(q)]) == Done(out, q.target)
  }

  ghost predicate Conserved<S(!new), T(!new), U(!new), V(!new), W(!new), E(!new)>(
    dec: DecodeSide<S, U, V, E>, enc: EncodeSide<T, V, W, E>, payload: seq<U>, q0: Conv<S, T, V>,
    q: Conv<S, T, V>, j: nat, out: seq<W>)
    requires ConformsDecode(dec)
  {
    exists ps :: ConservedBy(dec, enc, payload, q0, ps, q, j, out)
  }

  /** Decoding runs compose. */
  lemma {:induction false} DecodesFurther<S(!new), U(!new), V(!new), E(!new)>(
    dec: DecodeSide<S, U, V, E>, payload: seq<U>, s: S, i: nat, a: seq<PendingValue<V>>, s1: S, j: nat,
    b: seq<PendingValue<V>>, s2: S, k: nat)
    requires ConformsDecode(dec) && i <= |payload| && j <= |payload|
    requires DecodesTo(dec, payload, s, i, a, s1, j) && DecodesTo(dec, payload, s1, j, b, s2, k)
    ensures DecodesTo(dec, payload, s, i, a + b, s2, k)
    decreases |payload| - i
  {
    hide FinalEvent;
    if i == j && s == s1 && a == [] {
      assert a + b == b;
    } else {
      var e := FinalEvent(dec, s, payload[i..], i);
      if e.Emitted? {
        DecodesFurther(dec, payload, e.next, i + e.read, a[1..], s1, j, b, s2, k);
        assert (a + b)[1..] == a[1..] + b;
      } else {
        DecodesFurther(dec, payload, e.next, i + e.read, a, s1, j, b, s2, k);
      }
    }
  }

  /** A single event is a decoding run. */
  lemma OneEvent<S(!new), U(!new), V(!new), E(!new)>(
    dec: DecodeSide<S, U, V, E>, payload: seq<U>, s: S, i: nat, e: Event<S, V, E>)
    requires ConformsDecode(dec) && i < |payload| && e == FinalEvent(dec, s, payload[i..], i)
    requires e.Emitted? || e.Skipped?
    ensures i + e.read <= |payload|
    ensures DecodesTo(dec, payload, s, i, if e.Emitted? then [PendingValue(e.value, i)] else [], e.next, i + e.read)
  {
    hide FinalEvent;
    EventIsFinal(dec, s, payload[i..], payload[i..], i, true);
    assert DecodesTo(dec, payload, e.next, i + e.read, [], e.next, i + e.read);
    if e.Emitted? {
      assert [PendingValue(e.value, i)][1..] == [];
    }
  }

  /** A decode event moves a value into the slot, or none; nothing is encoded. */
  lemma SourceMoveConserves<S(!new), T(!new), U(!new), V(!new), W(!new), E(!new)>(
    dec: DecodeSide<S, U, V, E>, enc: EncodeSide<T, V, W, E>, payload: seq<U>, q0: Conv<S, T, V>,
    ps: seq<PendingValue<V>>, q: Conv<S, T, V>, j: nat, out: seq<W>, e: Event<S, V, E>)
    requires ConformsDecode(dec) && q.pending == None && j < |payload|
    requires ConservedBy(dec, enc, payload, q0, ps, q, j, out)
    requires e == FinalEvent(dec, q.source, payload[j..], j) && (e.Emitted? || e.Skipped?)
    ensures var p := if e.Emitted? then Some(PendingValue(e.value, j)) else None;
            Conserved(dec, enc, payload, q0, Conv(e.next, q.target, p), j + e.read, out)
  {
    hide DecodesTo, FinalEvent;
    var more := if e.Emitted? then [PendingValue(e.value, j)] else [];
    var p := if e.Emitted? then Some(PendingValue(e.value, j)) else None;
    OneEvent(dec, payload, q.source, j, e);
    DecodesFurther(dec, payload, q0.source, 0, ps, q.source, j, more, e.next, j + e.read);
    assert ps[..|ps|] == ps && (ps + more)[..|ps|] == ps && (ps + more)[|ps|..] == more;
    assert ConservedBy(dec, enc, payload, q0, ps + more, Conv(e.next, q.target, p), j + e.read, out);
  }

  /** Encoding the retained value settles it. */
  lemma PendingMoveConserves<S(!new), T(!new), U(!new), V(!new), W(!new), E(!new)>(
    dec: DecodeSide<S, U, V, E>, enc: EncodeSide<T, V, W, E>, payload: seq<U>, q0: Conv<S, T, V>,
    ps: seq<PendingValue<V>>, q: Conv<S, T, V>, j: nat, out: seq<W>, units: seq<W>, next: T)
    requires ConformsDecode(dec) && ConformsEncode(enc) && q.pending.Some?
    requires ConservedBy(dec, enc, payload, q0, ps, q, j, out)
    requires EncodeFreely(enc, q.target, q.pending.value.value, q.pending.value.inputIndex) == Encoded(units, next)
    ensures Conserved(dec, enc, payload, q0, Conv(q.source, next, None), j, out + units)
  {
    hide DecodesTo, EncodeFreely, ConformsEncode;
    var p := q.pending.value;
    var settled := ps[..|ps| - 1];
    assert ps == settled + [p] by {
      assert ps[|ps| - 1..] == [p];
    }
    EncodeTrailSplits(enc, q0.target, settled, [p]);
    assert [p][1..] == [];
    assert units + [] == units;
    assert ps[..|ps|] == ps;
    assert ConservedBy(dec, enc, payload, q0, ps, Conv(q.source, next, None), j, out + units);
  }

  /** Every call of the converter conserves values. */
  lemma {:induction false} CallConserves<S(!new), T(!new), U(!new), V(!new), W(!new), E(!new)>(
    dec: DecodeSide<S, U, V, E>, enc: EncodeSide<T, V, W, E>, payload: seq<U>, q0: Conv<S, T, V>, v: nat,
    q: Conv<S, T, V>, i: nat, out: seq<W>, room: nat, eof: bool)
    requires ConformsDecode(dec) && ConformsEncode(enc) && Faithful(ConvertMachine(dec, enc))
    requires i <= v <= |payload| && (eof ==> v == |payload|)
    requires Conserved(dec, enc, payload, q0, q, i, out)
    ensures var c := Call(ConvertMachine(dec, enc), q, payload[..v], i, room, eof);
            c.Stopped? ==> Conserved(dec, enc, payload, q0, c.next, i + c.read, out + c.out)
    decreases 2 * (v - i) + Retained(q)
  {
    hide Call, Conserved, ConvertStep, ConvertIdeal;
    var m := ConvertMachine(dec, enc);
    assert StepOK(m, payload, v, q, i, room, eof);
    var step := ConvertStep(dec, enc, q, payload[..v], i, room, eof);
    ConvertCallUnfolds(dec, enc, q, payload[..v], i, room, eof, step);
    if step.Go? {
      MoveConserves(dec, enc, payload, q0, q, i, out, step);
      CallConserves(dec, enc, payload, q0, v, step.next, i + step.read, out + step.out, room - |step.out|, eof);
      var c := Call(m, step.next, payload[..v], i + step.read, room - |step.out|, eof);
      assert out + step.out + c.out == out + (step.out + c.out);
    } else {
      assert out + [] == out;
    }
  }

  lemma MoveConserves<S(!new), T(!new), U(!new), V(!new), W(!new), E(!new)>(
    dec: DecodeSide<S, U, V, E>, enc: EncodeSide<T, V, W, E>, payload: seq<U>, q0: Conv<S, T, V>,
    q: Conv<S, T, V>, i: nat, out: seq<W>, move: Step<Conv<S, T, V>, W, ConvertError<E, V>>)
    requires ConformsDecode(dec) && ConformsEncode(enc) && i <= |payload|
    requires Conserved(dec, enc, payload, q0, q, i, out)
    requires move.Go? && move == ConvertIdeal(dec, enc, q, payload, i)
    ensures Conserved(dec, enc, payload, q0, move.next, i + move.read, out + move.out)
  {
    hide EncodeFreely, FinalEvent, ConservedBy;
    var ps :| ConservedBy(dec, enc, payload, q0, ps, q, i, out);
    if q.pending.Some? {
      PendingMoveConserves(dec, enc, payload, q0, ps, q, i, out, move.out, move.next.target);
    } else {
      assert out + [] == out;
      SourceMoveConserves(dec, enc, payload, q0, ps, q, i, out, FinalEvent(dec, q.source, payload[i..], i));
    }
  }

  // ---------------------------------------------------------------------------------------------------------
  // Whole runs
  // ---------------------------------------------------------------------------------------------------------

  /** The driver after `k` turns, or how it ended before that. */
  ghost function After<S(!new), T(!new), U(!new), V(!new), W(!new), E(!new)>(
    dec: DecodeSide<S, U, V, E>, enc: EncodeSide<T, V, W, E>, payload: seq<U>, start: Conv<S, T, V>,
    d: Driver<Conv<S, T, V>, W>, strategy: Driver<Conv<S, T, V>, W> -> Choice, k: nat)
    : (t: Turn<Conv<S, T, V>, W, ConvertError<E, V>>)
    requires Faithful(ConvertMachine(dec, enc)) && DriverOK(ConvertMachine(dec, enc), payload, start, d)
    ensures TurnOK(ConvertMachine(dec, enc), payload, start, t)
  {
    if k == 0 then Running(d)
    else
      var before := After(dec, enc, payload, start, d, strategy, k - 1);
      if before.Running? then
        var choice := strategy(before.driver);
        ReactKeepsInvariant(ConvertMachine(dec, enc), payload, start, before.driver, choice,
                            Max(before.driver.owed, choice.window));
        TakeTurn(ConvertMachine(dec, enc), payload, before.driver, choice)
      else before
  }

  /** A driver on a converter with nothing retained, after `k` turns. */
  ghost function Reached<S(!new), T(!new), U(!new), V(!new), W(!new), E(!new)>(
    dec: DecodeSide<S, U, V, E>, enc: EncodeSide<T, V, W, E>, s: S, t: T, payload: seq<U>, visible: nat,
    strategy: Driver<Conv<S, T, V>, W> -> Choice, k: nat): Turn<Conv<S, T, V>, W, ConvertError<E, V>>
    requires ConformsDecode(dec) && ConformsEncode(enc)
  {
    var v, start := Min(visible, |payload|), Conv(s, t, None);
    ConvertFaithful(dec, enc);
    FreshDriverOK(ConvertMachine(dec, enc), payload, start, v, false);
    After(dec, enc, payload, start, Driver(start, 0, v, false, 0, [], 0), strategy, k)
  }

  /** In every state a driver reaches, under any strategy, values are conserved; a completed run has settled all of
      them. */
  lemma {:induction false} EveryStateConserves<S(!new), T(!new), U(!new), V(!new), W(!new), E(!new)>(
    dec: DecodeSide<S, U, V, E>, enc: EncodeSide<T, V, W, E>, s: S, t: T, payload: seq<U>, visible: nat,
    strategy: Driver<Conv<S, T, V>, W> -> Choice, k: nat)
    requires ConformsDecode(dec) && ConformsEncode(enc)
    ensures var start, turn := Conv(s, t, None), Reached(dec, enc, s, t, payload, visible, strategy, k);
            && (turn.Running? ==>
                  Conserved(dec, enc, payload, start, turn.driver.q, turn.driver.cursor, turn.driver.delivered))
            && (turn.Completed? ==>
                  && turn.final.pending == None
                  && Conserved(dec, enc, payload, start, turn.final, |payload|, turn.delivered))
  {
    hide Call, Conserved, DriverOK, Faithful, ConformsDecode, ConformsEncode;
    var start := Conv(s, t, None);
    ConvertFaithful(dec, enc);
    FreshDriverOK(ConvertMachine(dec, enc), payload, start, Min(visible, |payload|), false);
    if k == 0 {
      NothingYet(dec, enc, payload, start);
    } else {
      EveryStateConserves(dec, enc, s, t, payload, visible, strategy, k - 1);
      var before := Reached(dec, enc, s, t, payload, visible, strategy, k - 1);
      if before.Running? {
        TurnConserves(dec, enc, payload, start, before.driver, strategy(before.driver));
      }
    }
  }

  lemma NothingYet<S(!new), T(!new), U(!new), V(!new), W(!new), E(!new)>(
    dec: DecodeSide<S, U, V, E>, enc: EncodeSide<T, V, W, E>, payload: seq<U>, start: Conv<S, T, V>)
    requires ConformsDecode(dec) && start.pending == None
    ensures Conserved(dec, enc, payload, start, start, 0, [])
  {
    assert ConservedBy(dec, enc, payload, start, [], start, 0, []);
  }

  lemma TurnConserves<S(!new), T(!new), U(!new), V(!new), W(!new), E(!new)>(
    dec: DecodeSide<S, U, V, E>, enc: EncodeSide<T, V, W, E>, payload: seq<U>, start: Conv<S, T, V>,
    d: Driver<Conv<S, T, V>, W>, choice: Choice)
    requires ConformsDecode(dec) && ConformsEncode(enc) && Faithful(ConvertMachine(dec, enc))
    requires DriverOK(ConvertMachine(dec, enc), payload, start, d)
    requires Conserved(dec, enc, payload, start, d.q, d.cursor, d.delivered)
    ensures var t := TakeTurn(ConvertMachine(dec, enc), payload, d, choice);
            && (t.Running? ==>
                  Conserved(dec, enc, payload, start, t.driver.q, t.driver.cursor, t.driver.delivered))
            && (t.Completed? ==>
                  t.final.pending == None && Conserved(dec, enc, payload, start, t.final, |payload|, t.delivered))
  {
    hide Call, Conserved, Faithful, ConformsDecode, ConformsEncode, Oracle;
    var m := ConvertMachine(dec, enc);
    var room := Max(d.owed, choice.window);
    CallConserves(dec, enc, payload, start, d.visible, d.q, d.cursor, d.delivered, room, d.eof);
    CallFollowsOracle(m, payload, d.visible, d.q, d.cursor, room, d.eof);
  }
}
