/** Stream round trips: a codec that inverts its own encodings one value at a time inverts whole streams, however both
    sides are cut. */
module RoundTrip {
  import opened Basics
  import opened Codecs
  import opened Streaming
  import opened Decoding
  import opened Encoding
  import opened Lifecycles
  import opened Schedules

  // ---------------------------------------------------------------------------------------------------------
  // The law
  // ---------------------------------------------------------------------------------------------------------

  /** Encoding `v` and decoding it back, whatever follows, gives `v` and its width, and keeps both sides in step. */
  ghost predicate Inverts<S(!new), T(!new), V(!new), U(!new), E(!new)>(
    dec: DecodeSide<S, U, V, E>, codec: EncodeCodec<T, V, U, E>, inStep: (S, T) -> bool, s: S, t: T, v: V, tail: seq<U>)
  {
    inStep(s, t) && codec.canEncode(t, v) && codec.encode(t, v).Wrote? ==>
      var units := codec.encode(t, v).items;
      var d := dec.codec.decodeEof(s, units + tail);
      && 0 < |units| && dec.codec.minUnits <= |units|
      && d.Decoded? && d.value == v && d.consumed == |units| && inStep(d.next, codec.encode(t, v).next)
  }

  ghost predicate RoundTrips<S(!new), T(!new), V(!new), U(!new), E(!new)>(
    dec: DecodeSide<S, U, V, E>, codec: EncodeCodec<T, V, U, E>, inStep: (S, T) -> bool)
  {
    forall s, t, v, tail :: Inverts(dec, codec, inStep, s, t, v, tail)
  }

  // ---------------------------------------------------------------------------------------------------------
  // Main phase
  // ---------------------------------------------------------------------------------------------------------

  /** A strict encoder that gets past a value has written the codec's own encoding of it. */
  lemma StrictEncodes<T(!new), V(!new), U(!new), E(!new)>(
    codec: EncodeCodec<T, V, U, E>, values: seq<V>, t: T, i: nat)
    requires ConformsEncode(StrictEncode(codec)) && Faithful(EncodeMachine(StrictEncode(codec))) && i < |values|
    requires Oracle(EncodeMachine(StrictEncode(codec)), values, t, i).Done?
    ensures codec.canEncode(t, values[i]) && codec.encode(t, values[i]).Wrote?
    ensures var w := codec.encode(t, values[i]);
            Oracle(EncodeMachine(StrictEncode(codec)), values, t, i)
            == Prepend(w.items, Oracle(EncodeMachine(StrictEncode(codec)), values, w.next, i + 1))
  {
    RoomOnlyDelays(StrictEncode(codec), t, values[i], i, codec.maxUnits);
    assert EncodeExact(StrictEncode(codec), t, values[i]);
  }

  /** Decoding a payload that continues with the encoding of `values[i..]` gives back those values. */
  lemma {:induction false} MainPhaseInverts<S(!new), T(!new), V(!new), U(!new), E(!new)>(
    dec: DecodeSide<S, U, V, E>, codec: EncodeCodec<T, V, U, E>, inStep: (S, T) -> bool, values: seq<V>, i: nat,
    s: S, t: T, payload: seq<U>, at: nat)
    requires ConformsDecode(dec) && ConformsEncode(StrictEncode(codec)) && RoundTrips(dec, codec, inStep)
    requires Faithful(DecodeMachine(dec)) && Faithful(EncodeMachine(StrictEncode(codec)))
    requires i <= |values| && at <= |payload| && inStep(s, t)
    requires var encoded := Oracle(EncodeMachine(StrictEncode(codec)), values, t, i);
             encoded.Done? && encoded.out == payload[at..]
    ensures var decoded := Oracle(DecodeMachine(dec), payload, s, at);
            && decoded.Done? && decoded.out == values[i..]
            && inStep(decoded.final, Oracle(EncodeMachine(StrictEncode(codec)), values, t, i).final)
    decreases |values| - i
  {
    hide Oracle, ConformsDecode, ConformsEncode, Faithful;
    var em, dm := EncodeMachine(StrictEncode(codec)), DecodeMachine(dec);
    if i == |values| {
      FinalStop(em, values, t);
      FinalStop(dm, payload, s);
    } else {
      StrictEncodes(codec, values, t, i);
      var w := codec.encode(t, values[i]);
      var rest := Oracle(em, values, w.next, i + 1);
      assert payload[at..] == w.items + rest.out;
      assert Inverts(dec, codec, inStep, s, t, values[i], rest.out);
      var d := dec.codec.decodeEof(s, payload[at..]);
      var next := at + |w.items|;
      assert payload[next..] == rest.out;
      DecodesOne(dec, payload, s, at, d);
      MainPhaseInverts(dec, codec, inStep, values, i + 1, d.next, w.next, payload, next);
      assert [values[i]] + values[i + 1..] == values[i..];
    }
  }

  lemma DecodesOne<S(!new), V(!new), U(!new), E(!new)>(
    dec: DecodeSide<S, U, V, E>, payload: seq<U>, s: S, at: nat, d: DecodeResult<S, V, E>)
    requires Faithful(DecodeMachine(dec)) && at < |payload| && dec.codec.minUnits <= |payload| - at
    requires d == dec.codec.decodeEof(s, payload[at..]) && d.Decoded? && at + d.consumed <= |payload|
    ensures Oracle(DecodeMachine(dec), payload, s, at) ==
            Prepend([d.value], Oracle(DecodeMachine(dec), payload, d.next, at + d.consumed))
  {
    assert IdealOK(DecodeMachine(dec), payload, s, at);
  }

  // ---------------------------------------------------------------------------------------------------------
  // Any two schedules
  // ---------------------------------------------------------------------------------------------------------

  /** Stream round trip: whatever an encoding driver delivers under one schedule, a decoding driver under any other
      schedule turns back into the values that went in. */
  lemma StreamInverts<S(!new), T(!new), V(!new), U(!new), E(!new)>(
    dec: DecodeSide<S, U, V, E>, codec: EncodeCodec<T, V, U, E>, inStep: (S, T) -> bool, values: seq<V>, s: S, t: T,
    encodeVisible: nat, encodeStrategy: Driver<T, U> -> Choice, decodeVisible: nat,
    decodeStrategy: Driver<S, V> -> Choice)
    requires ConformsDecode(dec) && ConformsEncode(StrictEncode(codec)) && RoundTrips(dec, codec, inStep)
    requires inStep(s, t) && EncodeRun(StrictEncode(codec), t, values, encodeVisible, encodeStrategy).Completed?
    ensures var sent := EncodeRun(StrictEncode(codec), t, values, encodeVisible, encodeStrategy);
            var received := DecodeRun(dec, s, sent.delivered, decodeVisible, decodeStrategy);
            received.Completed? && received.delivered == values
  {
    hide Oracle, Drive, DriverOK, Faithful, ConformsDecode, ConformsEncode, EncodeRun, DecodeRun;
    DecodeFaithful(dec);
    EncodeFaithful(StrictEncode(codec));
    var sent := EncodeRun(StrictEncode(codec), t, values, encodeVisible, encodeStrategy);
    EncodeScheduleFree(StrictEncode(codec), t, values, encodeVisible, encodeStrategy);
    assert sent.delivered == sent.delivered[0..] && values == values[0..];
    MainPhaseInverts(dec, codec, inStep, values, 0, s, t, sent.delivered, 0);
    DecodeScheduleFree(dec, s, sent.delivered, decodeVisible, decodeStrategy);
  }

  /** Neither end of the stream adds anything, and reset puts both sides in step. */
  ghost predicate SilentEnds<S(!new), T(!new), V(!new), U(!new), E(!new)>(
    dec: DecodeSide<S, U, V, E>, codec: EncodeCodec<T, V, U, E>, inStep: (S, T) -> bool)
  {
    && (forall s, t :: ResetInStep(dec, codec, inStep, s, t))
    && (forall s: S :: DecodeFinish(dec, s).Done? && DecodeFinish(dec, s).out == [])
    && (forall t: T :: EncodeFinish(StrictEncode(codec), t).Done? && EncodeFinish(StrictEncode(codec), t).out == [])
  }

  ghost predicate ResetInStep<S(!new), T(!new), V(!new), U(!new), E(!new)>(
    dec: DecodeSide<S, U, V, E>, codec: EncodeCodec<T, V, U, E>, inStep: (S, T) -> bool, s: S, t: T)
  {
    var d, e := DecodeReset(dec, s), EncodeReset(StrictEncode(codec), t);
    d.Done? && e.Done? && d.out == [] && e.out == [] && inStep(d.final, e.final)
  }

  /** One-shot round trip over complete lifecycles, from any two states. */
  lemma OneShotInverts<S(!new), T(!new), V(!new), U(!new), E(!new)>(
    dec: DecodeSide<S, U, V, E>, codec: EncodeCodec<T, V, U, E>, inStep: (S, T) -> bool, values: seq<V>, s: S, t: T)
    requires ConformsDecode(dec) && ConformsEncode(StrictEncode(codec))
    requires RoundTrips(dec, codec, inStep) && SilentEnds(dec, codec, inStep)
    requires EncodeStream(StrictEncode(codec), t, values).Done?
    ensures var decoded := DecodeStream(dec, s, EncodeStream(StrictEncode(codec), t, values).out);
            decoded.Done? && decoded.out == values
  {
    hide Oracle, Faithful, ConformsDecode, ConformsEncode, DecodeReset, DecodeFinish, EncodeReset, EncodeFinish;
    var enc := StrictEncode(codec);
    DecodeFaithful(dec);
    EncodeFaithful(enc);
    assert ResetInStep(dec, codec, inStep, s, t);
    var t1, s1 := EncodeReset(enc, t).final, DecodeReset(dec, s).final;
    var main := Oracle(EncodeMachine(enc), values, t1, 0);
    var out := EncodeStream(enc, t, values).out;
    assert EncodeFinish(enc, main.final).out == [];
    assert out == main.out == out[0..];
    MainPhaseInverts(dec, codec, inStep, values, 0, s1, t1, out, 0);
    var decoded := Oracle(DecodeMachine(dec), out, s1, 0);
    assert DecodeFinish(dec, decoded.final).out == [];
    assert values[0..] == values;
  }

  // ---------------------------------------------------------------------------------------------------------
  // The variable-width codec of the benchmarks
  // ---------------------------------------------------------------------------------------------------------

  /** Its decode errors do not exist. */
  datatype NoError = NoError

  function VariableDecode(units: seq<byte>): DecodeResult<(), byte, NoError> {
    if |units| == 0 then Incomplete(None, 1)
    else if units[0] != 0xff then Decoded(units[0], 1, ())
    else if |units| < 2 then Incomplete(None, 2)
    else Decoded(units[1], 2, ())
  }

  function VariableEncode(value: byte): seq<byte> {
    if value < 128 then [value] else [0xff, value]
  }

  function VariableDecoder(): DecodeCodec<(), byte, byte, NoError> {
    DecodeCodec(1, 2, 0, 0, (_, units) => VariableDecode(units), (_, units) => VariableDecode(units),
                s => Wrote([], s), s => Wrote([], s))
  }

  function VariableEncoder(): EncodeCodec<(), byte, byte, NoError> {
    EncodeCodec(2, 0, 0, (_, _) => true, (_, value) => if value < 128 then 1 else 2,
                (t, value) => Wrote(VariableEncode(value), t), t => Wrote([], t), t => Wrote([], t))
  }

  function AlwaysInStep(): ((), ()) -> bool { (_, _) => true }

  lemma VariableConforms()
    ensures ConformsDecode(StrictDecode(VariableDecoder())) && ConformsEncode(StrictEncode(VariableEncoder()))
    ensures Faithful(DecodeMachine(StrictDecode(VariableDecoder())))
    ensures Faithful(EncodeMachine(StrictEncode(VariableEncoder())))
  {
    var dec, enc := StrictDecode(VariableDecoder()), StrictEncode(VariableEncoder());
    assert ConformsDecode(dec);
    forall k: usize ensures BoundCovers(enc, k) {
    }
    assert ConformsEncode(enc);
    DecodeFaithful(dec);
    EncodeFaithful(enc);
  }

  /** The escape byte 0xff makes every value its own prefix code. */
  lemma VariableRoundTrips()
    ensures RoundTrips(StrictDecode(VariableDecoder()), VariableEncoder(), AlwaysInStep())
    ensures SilentEnds(StrictDecode(VariableDecoder()), VariableEncoder(), AlwaysInStep())
  {
    var dec, codec := StrictDecode(VariableDecoder()), VariableEncoder();
    forall s: (), t: (), v: byte, tail: seq<byte> ensures Inverts(dec, codec, AlwaysInStep(), s, t, v, tail) {
      var units := VariableEncode(v);
      assert (units + tail)[0] == units[0];
      if 128 <= v {
        assert (units + tail)[1] == v;
      }
    }
    forall s: (), t: () ensures ResetInStep(dec, codec, AlwaysInStep(), s, t) {
    }
  }

  /** Every byte sequence is encodable. */
  lemma {:induction false} VariableEncodes(values: seq<byte>, t: (), i: nat)
    requires Faithful(EncodeMachine(StrictEncode(VariableEncoder()))) && i <= |values|
    ensures Oracle(EncodeMachine(StrictEncode(VariableEncoder())), values, t, i).Done?
    decreases |values| - i
  {
    if i < |values| {
      assert EncodeFreely(StrictEncode(VariableEncoder()), t, values[i], i) == Encoded(VariableEncode(values[i]), t);
      VariableEncodes(values, t, i + 1);
    }
  }

  ghost function VariableSent(values: seq<byte>, visible: nat, strategy: Driver<(), byte> -> Choice)
    : Turn<(), byte, EncodeError<NoError, byte>>
  {
    VariableConforms();
    EncodeRun(StrictEncode(VariableEncoder()), (), values, visible, strategy)
  }

  ghost function VariableReceived(units: seq<byte>, visible: nat, strategy: Driver<(), byte> -> Choice)
    : Turn<(), byte, DecodeError<NoError>>
  {
    VariableConforms();
    DecodeRun(StrictDecode(VariableDecoder()), (), units, visible, strategy)
  }

  /** Any bytes, sent and received under any two schedules, arrive unchanged. */
  lemma VariableStreamInverts(
    values: seq<byte>, encodeVisible: nat, encodeStrategy: Driver<(), byte> -> Choice, decodeVisible: nat,
    decodeStrategy: Driver<(), byte> -> Choice)
    ensures var sent := VariableSent(values, encodeVisible, encodeStrategy);
            && sent.Completed?
            && var received := VariableReceived(sent.delivered, decodeVisible, decodeStrategy);
            received.Completed? && received.delivered == values
  {
    hide Oracle, Drive, DriverOK, Faithful, ConformsDecode, ConformsEncode, EncodeRun, DecodeRun;
    VariableConforms();
    VariableRoundTrips();
    VariableEncodes(values, (), 0);
    EncodeScheduleFree(StrictEncode(VariableEncoder()), (), values, encodeVisible, encodeStrategy);
    StreamInverts(StrictDecode(VariableDecoder()), VariableEncoder(), AlwaysInStep(), values, (), (), encodeVisible,
                  encodeStrategy, decodeVisible, decodeStrategy);
  }
}
