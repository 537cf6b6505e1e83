/**
  * When the decode engine meets the converter's call bound.
  *
  * The decode engine asks for an output slot before it looks at the units, and may ask for input after it got one.
  * That costs a third call for a unit, so the converter's bound of `2n + 2` calls does not hold in general.  It holds
  * for every run whose driver never offers an empty window, and for every run of a codec of one fixed width; and
  * `BoundHoldsExactlyWhen` says that there is no other guarantee to be had from windows and widths.
  */
module CallBounds {
  import opened Basics
  import opened Progress
  import opened Codecs
  import opened Streaming
  import opened Decoding
  import opened Schedules

  function CallsOf<Q, O, X>(t: Turn<Q, O, X>): nat {
    match t
    case Running(d) => d.calls
    case Completed(_, _, calls) => calls
    case Broken(_, _, _, _, calls) => calls
  }

  /** The minimum width in view is always enough for a decision. */
  ghost predicate NeverStarves<S(!new), U(!new), V(!new), E(!new)>(dec: DecodeSide<S, U, V, E>) {
    forall s, seen: seq<U> | dec.codec.minUnits <= |seen| :: !dec.codec.decode(s, seen).Incomplete?
  }

  lemma FixedWidthNeverStarves<S(!new), U(!new), V(!new), E(!new)>(dec: DecodeSide<S, U, V, E>)
    requires ConformsDecode(dec) && dec.codec.minUnits == dec.codec.maxUnits
    ensures NeverStarves(dec)
  {
    forall s, seen: seq<U> | dec.codec.minUnits <= |seen| ensures !dec.codec.decode(s, seen).Incomplete? {
      assert DecodeAgrees(dec, s, seen, seen);
    }
  }

  // ---------------------------------------------------------------------------------------------------------
  // Where the bound holds
  // ---------------------------------------------------------------------------------------------------------

  /** Every call so far was paid for by a unit read or by growth of the visible input, except one that is still owed
      output; with `eager` windows not even that one. */
  ghost predicate Paced<Q, O>(d: Driver<Q, O>, minUnits: nat, eager: bool) {
    && d.calls <= d.cursor + d.visible + (if d.eof then 1 else 0) + (if !eager && d.owed > 0 then 1 else 0)
    && (d.owed > 0 ==> d.owed == 1 && (d.eof || minUnits <= d.visible - d.cursor))
  }

  /** A call that is offered a slot, with the minimum width or everything in view, reads something or fails. */
  lemma OfferedSlotReads<S(!new), U(!new), V(!new), E(!new)>(
    dec: DecodeSide<S, U, V, E>, s: S, visible: seq<U>, i: nat, room: nat, eof: bool)
    requires ConformsDecode(dec) && Faithful(DecodeMachine(dec)) && NeverStarves(dec) && i < |visible| && 0 < room
    requires eof || dec.codec.minUnits <= |visible| - i
    ensures var c := Call(DecodeMachine(dec), s, visible, i, room, eof);
            c.Stopped? ==> 0 < c.read
  {
    hide Call, Faithful, ConformsDecode;
    EventIsFinal(dec, s, visible[i..], visible[i..], i, eof);
    DecodeCallUnfolds(dec, s, visible, i, room, eof, DecodeStep(dec, s, visible, i, room, eof));
  }

  /** One turn keeps the pace, or ends the run within the bound. */
  lemma TurnKeepsPace<S(!new), U(!new), V(!new), E(!new)>(
    dec: DecodeSide<S, U, V, E>, payload: seq<U>, start: S, d: Driver<S, V>, choice: Choice, eager: bool)
    requires ConformsDecode(dec) && Faithful(DecodeMachine(dec)) && DriverOK(DecodeMachine(dec), payload, start, d)
    requires Paced(d, dec.codec.minUnits, eager)
    requires if eager then 0 < choice.window else NeverStarves(dec)
    ensures var t := TakeTurn(DecodeMachine(dec), payload, d, choice);
            if t.Running? then Paced(t.driver, dec.codec.minUnits, eager) else CallsOf(t) <= 2 * |payload| + 2
  {
    hide Call, Faithful, ConformsDecode, Oracle, NeverStarves;
    var m, room := DecodeMachine(dec), Max(d.owed, choice.window);
    assert d.owed > 0 ==> d.cursor < d.visible;
    CallFollowsOracle(m, payload, d.visible, d.q, d.cursor, room, d.eof);
    DecodeFillsOutput(dec, d.q, payload[..d.visible], d.cursor, room, d.eof);
    if !eager && d.owed > 0 {
      OfferedSlotReads(dec, d.q, payload[..d.visible], d.cursor, room, d.eof);
    }
  }

  lemma {:induction false} PacedRunsAreShort<S(!new), U(!new), V(!new), E(!new)>(
    dec: DecodeSide<S, U, V, E>, payload: seq<U>, start: S, d: Driver<S, V>, strategy: Driver<S, V> -> Choice,
    eager: bool)
    requires ConformsDecode(dec) && Faithful(DecodeMachine(dec)) && DriverOK(DecodeMachine(dec), payload, start, d)
    requires Paced(d, dec.codec.minUnits, eager)
    requires if eager then forall e :: 0 < strategy(e).window else NeverStarves(dec)
    ensures CallsOf(Drive(DecodeMachine(dec), payload, start, d, strategy)) <= 2 * |payload| + 2
    decreases CallBound(DecodeMachine(dec), |payload|) - d.calls
  {
    var m := DecodeMachine(dec);
    var t := TakeTurn(m, payload, d, strategy(d));
    hide Call, Faithful, ConformsDecode, Oracle, DriverOK, Paced, NeverStarves, React, TakeTurn;
    TurnKeepsPace(dec, payload, start, d, strategy(d), eager);
    DriveUnfolds(m, payload, start, d, strategy);
    if t.Running? {
      PacedRunsAreShort(dec, payload, start, t.driver, strategy, eager);
    }
  }

  /** The decode engine meets the converter's bound whenever the driver always offers a window, or the codec has a
      fixed width. */
  lemma DecodeMeetsConverterBound<S(!new), U(!new), V(!new), E(!new)>(
    dec: DecodeSide<S, U, V, E>, s: S, payload: seq<U>, visible: nat, strategy: Driver<S, V> -> Choice)
    requires ConformsDecode(dec)
    requires (forall d :: 0 < strategy(d).window) || NeverStarves(dec)
    ensures CallsOf(DecodeRun(dec, s, payload, visible, strategy)) <= 2 * |payload| + 2
  {
    hide Drive, Faithful, ConformsDecode, Oracle, DriverOK, NeverStarves;
    DecodeFaithful(dec);
    var v := Min(visible, |payload|);
    FreshDriverOK(DecodeMachine(dec), payload, s, v, false);
    PacedRunsAreShort(dec, payload, s, Driver(s, 0, v, false, 0, [], 0), strategy, !NeverStarves(dec));
  }

  // ---------------------------------------------------------------------------------------------------------
  // Where it does not
  // ---------------------------------------------------------------------------------------------------------

  /** A codec that waits for `hi` units to decode one. */
  function Greedy(lo: usize, hi: usize): DecodeSide<(), byte, byte, ()> {
    DecodeSide(
      DecodeCodec(lo, hi, 0, 0,
                  (_, units: seq<byte>) => if |units| < hi then Incomplete(None, hi) else Decoded(0, 1, ()),
                  (_, _) => Decoded(0, 1, ()), _ => Wrote([], ()), _ => Wrote([], ())),
      DecodeHooks((_, _, _) => Ruled(RejectInvalid, ()), (_, _, _) => Ruled(SkipTail, ()), _ => (),
                  _ => Wrote([], ()), (n: usize) => Some(n), 0))
  }

  lemma GreedyConforms(lo: usize, hi: usize)
    requires 0 < lo <= hi
    ensures ConformsDecode(Greedy(lo, hi))
  {
  }

  /** The driver that offers no output until it is asked, and one more unit at a time. */
  function Idle<Q, O>(): Driver<Q, O> -> Choice { _ => Choice(0, 0, 0, false) }

  /** One turn of its run, whose call is `c`. */
  lemma IdleTurn<Q(!new), I(!new), O(!new), X(!new)>(
    m: Machine<Q, I, O, X>, payload: seq<I>, start: Q, d: Driver<Q, O>, c: CallResult<Q, O, X>)
    requires Faithful(m) && DriverOK(m, payload, start, d) && d.cursor <= d.visible <= |payload|
    requires c == Call(m, d.q, payload[..d.visible], d.cursor, d.owed, d.eof)
    ensures var t := React(d, |payload|, Choice(0, 0, 0, false), c);
            if t.Running? then
              && DriverOK(m, payload, start, t.driver) && t.driver.calls <= CallBound(m, |payload|)
              && Drive(m, payload, start, d, Idle()) == Drive(m, payload, start, t.driver, Idle())
            else Drive(m, payload, start, d, Idle()) == t
  {
    hide Call, Oracle, Faithful, DriverOK, React, Drive;
    assert Idle<Q, O>()(d) == Choice(0, 0, 0, false);
    DriveUnfolds(m, payload, start, d, Idle());
  }

  /** With `hi` units in view it stops for output, decodes one of them, stops for output again, and starves. */
  lemma GreedyCalls(lo: usize, hi: usize, visible: seq<byte>, i: nat)
    requires 0 < lo < hi && i + hi == |visible|
    requires ConformsDecode(Greedy(lo, hi)) && Faithful(DecodeMachine(Greedy(lo, hi)))
    ensures var m := DecodeMachine(Greedy(lo, hi));
            && Call(m, (), visible, i, 0, false) == Stopped(NeedOutput(1), 0, [], ())
            && Call(m, (), visible, i, 1, false) == Stopped(NeedOutput(1), 1, [0], ())
            && Call(m, (), visible, i + 1, 1, false) == Stopped(NeedInput(hi), 0, [], ())
  {
    hide Call, Faithful, ConformsDecode;
    var dec := Greedy(lo, hi);
    DecodeCallUnfolds(dec, (), visible, i, 0, false, Stop(NeedOutput(1)));
    DecodeCallUnfolds(dec, (), visible, i, 1, false, Go(1, [0], ()));
    DecodeCallUnfolds(dec, (), visible, i + 1, 0, false, Stop(NeedOutput(1)));
    DecodeCallUnfolds(dec, (), visible, i + 1, 1, false, Stop(NeedInput(hi)));
  }

  /** The driver with `v` units visible, none of the last `hi` decoded. */
  function At(hi: nat, v: nat, delivered: seq<byte>, calls: nat): Driver<(), byte>
    requires hi <= v
  {
    Driver((), v - hi, v, false, 0, delivered, calls)
  }

  /** The driver behind a call that stops with `status`. */
  predicate Reacts(d: Driver<(), byte>, total: nat, status: Status, read: nat, out: seq<byte>, d': Driver<(), byte>)
    requires d.visible <= total
  {
    React<(), byte, DecodeError<()>>(d, total, Choice(0, 0, 0, false), Stopped(status, read, out, ())) == Running(d')
  }

  lemma IdleGoesOn(
    m: Machine<(), byte, byte, DecodeError<()>>, payload: seq<byte>, d: Driver<(), byte>, status: Status, read: nat,
    out: seq<byte>, d': Driver<(), byte>)
    requires Faithful(m) && DriverOK(m, payload, (), d) && d.cursor <= d.visible <= |payload|
    requires Call(m, (), payload[..d.visible], d.cursor, d.owed, d.eof) == Stopped(status, read, out, ())
    requires Reacts(d, |payload|, status, read, out, d')
    ensures DriverOK(m, payload, (), d') && d'.calls <= CallBound(m, |payload|)
    ensures Drive(m, payload, (), d, Idle()) == Drive(m, payload, (), d', Idle())
  {
    hide Call, Oracle, Faithful, DriverOK, React, Drive, CallBound;
    assert d.q == ();
    IdleTurn(m, payload, (), d, Stopped(status, read, out, ()));
  }

  /** One unit costs three calls. */
  lemma GreedyTurns(
    lo: usize, hi: usize, payload: seq<byte>, v: nat, delivered: seq<byte>, calls: nat, d': Driver<(), byte>)
    requires 0 < lo < hi <= v <= |payload|
    requires d' == if v < |payload| then At(hi, v + 1, delivered + [0], calls + 3)
                   else Driver((), v - hi + 1, v, true, 0, delivered + [0], calls + 3)
    requires ConformsDecode(Greedy(lo, hi)) && Faithful(DecodeMachine(Greedy(lo, hi)))
    requires DriverOK(DecodeMachine(Greedy(lo, hi)), payload, (), At(hi, v, delivered, calls))
    ensures var m := DecodeMachine(Greedy(lo, hi));
            && DriverOK(m, payload, (), d') && d'.calls <= CallBound(m, |payload|)
            && Drive(m, payload, (), At(hi, v, delivered, calls), Idle()) == Drive(m, payload, (), d', Idle())
  {
    hide Drive, Oracle, Faithful, DriverOK, ConformsDecode, Call, Greedy, Reacts, DecodeMachine, CallBound;
    var m, d := DecodeMachine(Greedy(lo, hi)), At(hi, v, delivered, calls);
    var d1 := Driver((), v - hi, v, false, 1, delivered, calls + 1);
    var d2 := Driver((), v - hi + 1, v, false, 1, delivered + [0], calls + 2);
    GreedyCalls(lo, hi, payload[..v], v - hi);
    GreedyReactions(hi, |payload|, v, delivered, calls);
    IdleGoesOn(m, payload, d, NeedOutput(1), 0, [], d1);
    IdleGoesOn(m, payload, d1, NeedOutput(1), 1, [0], d2);
    IdleGoesOn(m, payload, d2, NeedInput(hi), 0, [], d');
  }

  lemma GreedyReactions(hi: usize, total: nat, v: nat, delivered: seq<byte>, calls: nat)
    requires hi <= v <= total
    ensures var d1 := Driver((), v - hi, v, false, 1, delivered, calls + 1);
            var d2 := Driver((), v - hi + 1, v, false, 1, delivered + [0], calls + 2);
            var d' := if v < total then At(hi, v + 1, delivered + [0], calls + 3)
                      else Driver((), v - hi + 1, v, true, 0, delivered + [0], calls + 3);
            && Reacts(At(hi, v, delivered, calls), total, NeedOutput(1), 0, [], d1)
            && Reacts(d1, total, NeedOutput(1), 1, [0], d2)
            && Reacts(d2, total, NeedInput(hi), 0, [], d')
  {
    assert delivered + [] == delivered && delivered + [0] + [] == delivered + [0];
  }

  /** Every run makes at least one more call. */
  lemma RunsGoOn<Q(!new), I(!new), O(!new), X(!new)>(
    m: Machine<Q, I, O, X>, payload: seq<I>, start: Q, d: Driver<Q, O>, strategy: Driver<Q, O> -> Choice)
    requires Faithful(m) && DriverOK(m, payload, start, d)
    ensures d.calls < CallsOf(Drive(m, payload, start, d, strategy))
    decreases CallBound(m, |payload|) - d.calls
  {
    var t := TakeTurn(m, payload, d, strategy(d));
    hide Drive, Call, Oracle, Faithful, DriverOK;
    DriveUnfolds(m, payload, start, d, strategy);
    if t.Running? {
      RunsGoOn(m, payload, start, t.driver, strategy);
    }
  }

  /** From there on each further unit costs three calls. */
  lemma {:induction false} GreedyIsSlow(
    lo: usize, hi: usize, payload: seq<byte>, v: nat, delivered: seq<byte>, calls: nat)
    requires 0 < lo < hi <= v <= |payload|
    requires ConformsDecode(Greedy(lo, hi)) && Faithful(DecodeMachine(Greedy(lo, hi)))
    requires DriverOK(DecodeMachine(Greedy(lo, hi)), payload, (), At(hi, v, delivered, calls))
    ensures calls + 3 * (|payload| - v + 1)
            < CallsOf(Drive(DecodeMachine(Greedy(lo, hi)), payload, (), At(hi, v, delivered, calls), Idle()))
    decreases |payload| - v
  {
    hide Drive, Oracle, Faithful, DriverOK, ConformsDecode, Call, Greedy;
    var d' := if v < |payload| then At(hi, v + 1, delivered + [0], calls + 3)
              else Driver((), v - hi + 1, v, true, 0, delivered + [0], calls + 3);
    GreedyTurns(lo, hi, payload, v, delivered, calls, d');
    if v < |payload| {
      GreedyIsSlow(lo, hi, payload, v + 1, delivered + [0], calls + 3);
    } else {
      RunsGoOn(DecodeMachine(Greedy(lo, hi)), payload, (), d', Idle());
    }
  }

  /** `3 * hi` units are enough to exceed the bound. */
  lemma GreedyExceeds(lo: usize, hi: usize)
    requires 0 < lo < hi && ConformsDecode(Greedy(lo, hi))
    ensures var payload := seq(3 * hi, _ => 0 as byte);
            2 * |payload| + 2 < CallsOf(DecodeRun(Greedy(lo, hi), (), payload, hi, Idle()))
  {
    hide Drive, Oracle, Faithful, DriverOK, ConformsDecode, Greedy;
    var dec, payload := Greedy(lo, hi), seq(3 * hi, _ => 0 as byte);
    DecodeFaithful(dec);
    FreshDriverOK(DecodeMachine(dec), payload, (), hi, false);
    GreedyIsSlow(lo, hi, payload, hi, [], 0);
  }

  // ---------------------------------------------------------------------------------------------------------
  // The exact condition
  // ---------------------------------------------------------------------------------------------------------

  /** If `dec` conforms with these widths and the windows are at least `w`, the run meets the converter's bound. */
  ghost predicate MeetsBound(
    lo: usize, hi: usize, w: nat, dec: DecodeSide<(), byte, byte, ()>, payload: seq<byte>, visible: nat,
    strategy: Driver<(), byte> -> Choice)
  {
    ConformsDecode(dec) && dec.codec.minUnits == lo && dec.codec.maxUnits == hi
    && (forall d :: w <= strategy(d).window) ==>
      CallsOf(DecodeRun(dec, (), payload, visible, strategy)) <= 2 * |payload| + 2
  }

  /** All runs of all codecs with minimum width `lo` and maximum width `hi`, under all drivers whose windows are at
      least `w`, meet the converter's bound exactly when no window is empty or the two widths are the same. */
  lemma BoundHoldsExactlyWhen(lo: usize, hi: usize, w: nat)
    requires 0 < lo <= hi
    ensures (forall dec, payload, visible, strategy :: MeetsBound(lo, hi, w, dec, payload, visible, strategy))
            <==> (0 < w || lo == hi)
  {
    hide DecodeRun, ConformsDecode, NeverStarves;
    if 0 < w || lo == hi {
      forall dec, payload, visible, strategy ensures MeetsBound(lo, hi, w, dec, payload, visible, strategy) {
        if ConformsDecode(dec) && dec.codec.minUnits == lo && dec.codec.maxUnits == hi
           && forall d :: w <= strategy(d).window
        {
          if lo == hi {
            FixedWidthNeverStarves(dec);
          }
          DecodeMeetsConverterBound(dec, (), payload, visible, strategy);
        }
      }
    } else {
      GreedyConforms(lo, hi);
      GreedyExceeds(lo, hi);
      assert !MeetsBound(lo, hi, w, Greedy(lo, hi), seq(3 * hi, _ => 0 as byte), hi, Idle());
    }
  }
}
