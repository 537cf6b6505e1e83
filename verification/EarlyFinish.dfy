/** Finishing a converter that still retains a value: the value is delivered before anything the stream ends add. */
module EarlyFinish {
  import opened Basics
  import opened Progress
  import opened Codecs
  import opened Streaming
  import opened Encoding
  import opened Converting
  import opened Lifecycles
  import opened Lifecycle
  import opened Buffers
  import opened Fusion
  import opened PartitionDriver
  import Conservation
  import ConvertEngines

  /** What finishing makes of a main phase. */
  function ThenFinish<S, T, U, V, W, E>(
    dec: DecodeSide<S, U, V, E>, enc: EncodeSide<T, V, W, E>, main: Outcome<Conv<S, T, V>, W, ConvertError<E, V>>)
    : Outcome<Conv<S, T, V>, W, ConvertError<E, V>>
  {
    match main
    case Done(out, q) => Prepend(out, ConvertFinish(dec, enc, q))
    case Rejected(_, _, _) => main
  }

  /** Finishing from any state is finishing what the main phase leaves behind at the end of the payload: a retained
      value is encoded, with its error and position if it fails, and only then the stream ends. */
  lemma FinishSettlesRetained<S(!new), T(!new), U(!new), V(!new), W(!new), E(!new)>(
    dec: DecodeSide<S, U, V, E>, enc: EncodeSide<T, V, W, E>, payload: seq<U>, q: Conv<S, T, V>)
    requires ConformsDecode(dec) && ConformsEncode(enc) && Faithful(ConvertMachine(dec, enc))
    ensures var main := Oracle(ConvertMachine(dec, enc), payload, q, |payload|);
            && ConvertFinish(dec, enc, q) == ThenFinish(dec, enc, main)
            && (main.Done? ==> main.final.pending == None)
  {
    hide Oracle, Faithful, ConformsDecode, ConformsEncode, ConvertTrailer, EncodeFreely, EncodeTrail, EncodeOne;
    var m, n := ConvertMachine(dec, enc), |payload|;
    if q.pending == None {
      FinalStop(m, payload, q);
      PrependNested([], [], ConvertFinish(dec, enc, q));
    } else {
      var p := q.pending.value;
      RoomOnlyDelays(enc, q.target, p.value, p.inputIndex, 0);
      var a := EncodeFreely(enc, q.target, p.value, p.inputIndex);
      RetainedTrail(enc, q.target, p, a);
      ConvertOracleUnfolds(dec, enc, payload, q, n, PendingStep(q, p, a));
      if a.Encoded? {
        var rest := Conv(q.source, a.next, None);
        FinalStop(m, payload, rest);
        FinishFuses(dec, enc, q.source, a.next);
        assert a.units + [] == a.units;
      }
    }
  }

  lemma RetainedTrail<T, V, W, E>(
    enc: EncodeSide<T, V, W, E>, t: T, p: PendingValue<V>, a: Attempt<T, W, EncodeError<E, V>>)
    requires a == EncodeFreely(enc, t, p.value, p.inputIndex) && !a.Blocked?
    ensures EncodeTrail(enc, t, [p]) ==
            if a.Encoded? then Done(a.units, a.next)
            else Rejected([], FromEncodeErrorWithValue(a.error, p.value), a.after)
    ensures EncodeTrail(enc, t, []) == Done([], t)
  {
    assert [p][1..] == [];
    if a.Encoded? {
      assert a.units + [] == a.units;
    }
  }

  /** Output delivered so far, when everything has been read, and the finish behind it. */
  lemma StoppedCallFinishes<S(!new), T(!new), U(!new), V(!new), W(!new), E(!new)>(
    dec: DecodeSide<S, U, V, E>, enc: EncodeSide<T, V, W, E>, payload: seq<U>, start: Conv<S, T, V>, out: seq<W>,
    q: Conv<S, T, V>)
    requires ConformsDecode(dec) && ConformsEncode(enc) && Faithful(ConvertMachine(dec, enc))
    requires Oracle(ConvertMachine(dec, enc), payload, start, 0) ==
             Prepend(out, Oracle(ConvertMachine(dec, enc), payload, q, |payload|))
    ensures ThenFinish(dec, enc, Oracle(ConvertMachine(dec, enc), payload, start, 0)) ==
            Prepend(out, ConvertFinish(dec, enc, q))
  {
    hide Oracle, Faithful, ConformsDecode, ConformsEncode, ConvertFinish;
    FinishSettlesRetained(dec, enc, payload, q);
    var rest := Oracle(ConvertMachine(dec, enc), payload, q, |payload|);
    if rest.Done? {
      PrependNested(out, rest.out, ConvertFinish(dec, enc, rest.final));
    }
  }

  /** A driver that has read everything may finish at once, whatever its last call stopped for: what was delivered,
      followed by the finish, is what the complete main phase and a finish behind it deliver. */
  lemma StoppedDriverFinishes<S(!new), T(!new), U(!new), V(!new), W(!new), E(!new)>(
    dec: DecodeSide<S, U, V, E>, enc: EncodeSide<T, V, W, E>, payload: seq<U>, start: Conv<S, T, V>,
    d: Driver<Conv<S, T, V>, W>)
    requires ConformsDecode(dec) && ConformsEncode(enc) && Faithful(ConvertMachine(dec, enc))
    requires DriverOK(ConvertMachine(dec, enc), payload, start, d) && d.cursor == |payload|
    ensures ThenFinish(dec, enc, Oracle(ConvertMachine(dec, enc), payload, start, 0)) ==
            Prepend(d.delivered, ConvertFinish(dec, enc, d.q))
  {
    hide Oracle, Faithful, ConformsDecode, ConformsEncode, ConvertFinish, Unblocks;
    StoppedCallFinishes(dec, enc, payload, start, d.delivered, d.q);
  }

  /** The converted stream is reset, main phase and finish. */
  lemma StreamIsThenFinish<S(!new), T(!new), U(!new), V(!new), W(!new), E(!new)>(
    dec: DecodeSide<S, U, V, E>, enc: EncodeSide<T, V, W, E>, q: Conv<S, T, V>, payload: seq<U>)
    requires ConformsDecode(dec) && ConformsEncode(enc) && Faithful(ConvertMachine(dec, enc))
    ensures var first := ConvertReset(dec, enc, q);
            first.Done? ==>
              ConvertStream(dec, enc, q, payload) ==
              Prepend(first.out, ThenFinish(dec, enc, Oracle(ConvertMachine(dec, enc), payload, first.final, 0)))
  {
    hide Oracle, Faithful, ConformsDecode, ConformsEncode, ConvertFinish, ConvertReset;
    var first := ConvertReset(dec, enc, q);
    if first.Done? {
      var main := Oracle(ConvertMachine(dec, enc), payload, first.final, 0);
      if main.Done? {
        PrependNested(first.out, main.out, ConvertFinish(dec, enc, main.final));
      }
    }
  }

  /** In every state any driver reaches behind a reset, as soon as all input has been read, finishing gives the complete
      converted stream, also while a value is still waiting for output. */
  lemma EveryReadStateFinishes<S(!new), T(!new), U(!new), V(!new), W(!new), E(!new)>(
    dec: DecodeSide<S, U, V, E>, enc: EncodeSide<T, V, W, E>, q: Conv<S, T, V>, payload: seq<U>, visible: nat,
    strategy: Driver<Conv<S, T, V>, W> -> Choice, k: nat)
    requires ConformsDecode(dec) && ConformsEncode(enc) && ConvertReset(dec, enc, q).Done?
    ensures var first := ConvertReset(dec, enc, q);
            var turn := Conservation.Reached(dec, enc, first.final.source, first.final.target, payload, visible,
                                             strategy, k);
            turn.Running? && turn.driver.cursor == |payload| ==>
              ConvertStream(dec, enc, q, payload) ==
              Prepend(first.out + turn.driver.delivered, ConvertFinish(dec, enc, turn.driver.q))
  {
    hide Oracle, Faithful, ConformsDecode, ConformsEncode, ConvertFinish, ConvertStream, DriverOK, ConvertReset;
    var first := ConvertReset(dec, enc, q);
    var s, t := first.final.source, first.final.target;
    var start := Conv(s, t, None);
    NothingRetained(dec, enc, q);
    ConvertFaithful(dec, enc);
    var v := Min(visible, |payload|);
    FreshDriverOK(ConvertMachine(dec, enc), payload, start, v, false);
    var turn := Conservation.After(dec, enc, payload, start, Driver(start, 0, v, false, 0, [], 0), strategy, k);
    if turn.Running? && turn.driver.cursor == |payload| {
      StreamIsThenFinish(dec, enc, q, payload);
      StoppedDriverFinishes(dec, enc, payload, start, turn.driver);
      PrependNested(first.out, turn.driver.delivered, ConvertFinish(dec, enc, turn.driver.q));
    }
  }

  lemma NothingRetained<S, T, U, V, W, E>(
    dec: DecodeSide<S, U, V, E>, enc: EncodeSide<T, V, W, E>, q: Conv<S, T, V>)
    ensures ConvertReset(dec, enc, q).Done? ==> ConvertReset(dec, enc, q).final.pending == None
  {
  }

  /** Reset, a single call at end of input into a window of any size, and finish as soon as that call has read
      everything: the converted stream, also when the call stopped for output with a value retained. */
  method FinishAfterOneCall<S(!new), T(!new), U(!new), V(0, !new), W(0, !new), E(!new)>(
    engine: ConvertEngines.ConvertEngine<S, T, U, V, W, E>, payload: seq<U>, window: usize)
    returns (r: Option<Result<seq<W>, ConvertError<E, V>>>)
    requires engine.Conforms() && engine.Coupled() && |payload| <= USIZE_MAX
    requires engine.MaxResetOutputLen().Some? && engine.MaxFinishOutputLen().Some?
    modifies engine.decoder, engine.decoder.lifecycle, engine.encoder, engine.encoder.lifecycle
    modifies engine.pending, engine.lifecycle
    ensures r.Some? ==>
              match ConvertStream(engine.decoder.side, engine.encoder.side, old(engine.State()), payload)
              case Done(out, final) => r.value == Ok(out) && engine.State() == final
              case Rejected(_, error, after) => r.value == Err(error) && engine.State() == after
    ensures var first := ConvertReset(engine.decoder.side, engine.encoder.side, old(engine.State()));
            r.None? <==>
              && first.Done?
              && var c := Call(engine.Machine(), first.final, payload, 0, window, true);
              c.Stopped? && c.read < |payload|
  {
    hide Call, Oracle, Faithful, ConvertReset, ConvertFinish, ConformsDecode, ConformsEncode, Splice, Landed, DriverOK;
    ghost var dec, enc, q0 := engine.decoder.side, engine.encoder.side, engine.State();
    ghost var m := engine.Machine();
    var reset := new W[engine.MaxResetOutputLen().value];
    ghost var scratch := reset[..];
    var resetWritten := engine.Reset(reset, 0);
    LandedInScratch(ConvertReset(dec, enc, q0), resetWritten, scratch, reset[..], engine.State());
    if resetWritten.Err? {
      return Some(Err(resetWritten.error));
    }
    var first := reset[..resetWritten.value];
    ghost var q1 := engine.State();
    engine.ResetRetainsNothing(q0);
    StreamIsThenFinish(dec, enc, q0, payload);
    assert payload[..|payload|] == payload;
    CallFollowsOracle(m, payload, |payload|, q1, 0, window, true);
    var progress, units := CallOnce(engine, payload, 0, window, true);
    if progress.Err? {
      return Some(Err(progress.error));
    }
    if progress.value.read < |payload| {
      return None;
    }
    ghost var q2 := engine.State();
    StoppedCallFinishes(dec, enc, payload, q1, units, q2);
    var finish := new W[engine.MaxFinishOutputLen().value];
    engine.CurrentFinishIsSmaller();
    scratch := finish[..];
    var written := engine.Finish(finish, 0);
    LandedInScratch(ConvertFinish(dec, enc, q2), written, scratch, finish[..], engine.State());
    PrependNested(first, units, ConvertFinish(dec, enc, q2));
    if written.Err? {
      return Some(Err(written.error));
    }
    return Some(Ok(first + units + finish[..written.value]));
  }
}
