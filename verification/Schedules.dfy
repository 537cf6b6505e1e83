/** The three engines under any driver: what a run gives depends on the payload alone. */
module Schedules {
  import opened Basics
  import opened Codecs
  import opened Streaming
  import opened Decoding
  import opened Encoding
  import opened Converting

  /** A run from the beginning of the payload.  `visible` units are visible at first; `strategy` decides each output
      window and each extension of the visible prefix, knowing everything that happened so far. */
  ghost function Run<Q(!new), I(!new), O(!new), X(!new)>(
    m: Machine<Q, I, O, X>, payload: seq<I>, start: Q, visible: nat, strategy: Driver<Q, O> -> Choice): Turn<Q, O, X>
    requires Faithful(m) && m.weight(start) == 0
  {
    var v := Min(visible, |payload|);
    FreshDriverOK(m, payload, start, v, false);
    Drive(m, payload, start, Driver(start, 0, v, false, 0, [], 0), strategy)
  }

  /** The run ends as `oracle` does, within `bound` calls; a failing run has delivered everything but what its last
      call had just written. */
  ghost predicate EndsAs<Q, O, X>(run: Turn<Q, O, X>, oracle: Outcome<Q, O, X>, bound: nat) {
    match oracle
    case Done(out, final) => run.Completed? && run.delivered == out && run.final == final && run.calls <= bound
    case Rejected(out, error, after) =>
      && run.Broken? && run.error == error && run.after == after && run.delivered + run.spilled == out
      && run.calls <= bound
  }

  ghost function DecodeRun<S(!new), U(!new), V(!new), E(!new)>(
    dec: DecodeSide<S, U, V, E>, s: S, payload: seq<U>, visible: nat, strategy: Driver<S, V> -> Choice)
    : Turn<S, V, DecodeError<E>>
    requires ConformsDecode(dec)
  {
    DecodeFaithful(dec);
    Run(DecodeMachine(dec), payload, s, visible, strategy)
  }

  ghost function EncodeRun<T(!new), V(!new), W(!new), E(!new)>(
    enc: EncodeSide<T, V, W, E>, t: T, values: seq<V>, visible: nat, strategy: Driver<T, W> -> Choice)
    : Turn<T, W, EncodeError<E, V>>
    requires ConformsEncode(enc)
  {
    EncodeFaithful(enc);
    Run(EncodeMachine(enc), values, t, visible, strategy)
  }

  ghost function ConvertRun<S(!new), T(!new), U(!new), V(!new), W(!new), E(!new)>(
    dec: DecodeSide<S, U, V, E>, enc: EncodeSide<T, V, W, E>, s: S, t: T, payload: seq<U>, visible: nat,
    strategy: Driver<Conv<S, T, V>, W> -> Choice): Turn<Conv<S, T, V>, W, ConvertError<E, V>>
    requires ConformsDecode(dec) && ConformsEncode(enc)
  {
    ConvertFaithful(dec, enc);
    Run(ConvertMachine(dec, enc), payload, Conv(s, t, None), visible, strategy)
  }

  /** The main phase of each engine over the whole payload. */
  ghost function DecodeMain<S(!new), U(!new), V(!new), E(!new)>(dec: DecodeSide<S, U, V, E>, s: S, payload: seq<U>)
    : Outcome<S, V, DecodeError<E>>
    requires ConformsDecode(dec)
  {
    DecodeFaithful(dec);
    Oracle(DecodeMachine(dec), payload, s, 0)
  }

  ghost function EncodeMain<T(!new), V(!new), W(!new), E(!new)>(enc: EncodeSide<T, V, W, E>, t: T, values: seq<V>)
    : Outcome<T, W, EncodeError<E, V>>
    requires ConformsEncode(enc)
  {
    EncodeFaithful(enc);
    Oracle(EncodeMachine(enc), values, t, 0)
  }

  ghost function ConvertMain<S(!new), T(!new), U(!new), V(!new), W(!new), E(!new)>(
    dec: DecodeSide<S, U, V, E>, enc: EncodeSide<T, V, W, E>, s: S, t: T, payload: seq<U>)
    : Outcome<Conv<S, T, V>, W, ConvertError<E, V>>
    requires ConformsDecode(dec) && ConformsEncode(enc)
  {
    ConvertFaithful(dec, enc);
    Oracle(ConvertMachine(dec, enc), payload, Conv(s, t, None), 0)
  }

  /** Decoding does not depend on the schedule. */
  lemma DecodeScheduleFree<S(!new), U(!new), V(!new), E(!new)>(
    dec: DecodeSide<S, U, V, E>, s: S, payload: seq<U>, visible: nat, strategy: Driver<S, V> -> Choice)
    requires ConformsDecode(dec)
    ensures EndsAs(DecodeRun(dec, s, payload, visible, strategy), DecodeMain(dec, s, payload), 3 * |payload| + 2)
  {
    hide Drive, Oracle, Faithful, ConformsDecode;
    DecodeFaithful(dec);
    RunEndsAsOracle(DecodeMachine(dec), payload, s, visible, strategy);
  }

  /** Encoding does not depend on the schedule. */
  lemma EncodeScheduleFree<T(!new), V(!new), W(!new), E(!new)>(
    enc: EncodeSide<T, V, W, E>, t: T, values: seq<V>, visible: nat, strategy: Driver<T, W> -> Choice)
    requires ConformsEncode(enc)
    ensures EndsAs(EncodeRun(enc, t, values, visible, strategy), EncodeMain(enc, t, values), 2 * |values| + 2)
  {
    hide Drive, Oracle, Faithful, ConformsEncode;
    EncodeFaithful(enc);
    RunEndsAsOracle(EncodeMachine(enc), values, t, visible, strategy);
  }

  /** Conversion does not depend on the schedule, although a value may wait for output across any number of calls: same
      output, same final states (hence the same number of decisions of every hook), or the same error at the same
      source position. */
  lemma ConvertScheduleFree<S(!new), T(!new), U(!new), V(!new), W(!new), E(!new)>(
    dec: DecodeSide<S, U, V, E>, enc: EncodeSide<T, V, W, E>, s: S, t: T, payload: seq<U>, visible: nat,
    strategy: Driver<Conv<S, T, V>, W> -> Choice)
    requires ConformsDecode(dec) && ConformsEncode(enc)
    ensures EndsAs(ConvertRun(dec, enc, s, t, payload, visible, strategy), ConvertMain(dec, enc, s, t, payload),
                   2 * |payload| + 2)
  {
    hide Drive, Oracle, Faithful, ConformsDecode, ConformsEncode;
    ConvertFaithful(dec, enc);
    RunEndsAsOracle(ConvertMachine(dec, enc), payload, Conv(s, t, None), visible, strategy);
  }

  lemma RunEndsAsOracle<Q(!new), I(!new), O(!new), X(!new)>(
    m: Machine<Q, I, O, X>, payload: seq<I>, start: Q, visible: nat, strategy: Driver<Q, O> -> Choice)
    requires Faithful(m) && m.weight(start) == 0
    ensures EndsAs(Run(m, payload, start, visible, strategy), Oracle(m, payload, start, 0), CallBound(m, |payload|))
  {
    hide Drive, Oracle, Faithful, DriverOK;
    var v := Min(visible, |payload|);
    FreshDriverOK(m, payload, start, v, false);
    ScheduleIndependence(m, payload, start, Driver(start, 0, v, false, 0, [], 0), strategy);
  }
}
