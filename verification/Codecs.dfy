/**
  * Codecs and policy hooks, and the contracts they have to keep.
  *
  * A codec or a hook set is a record of functions over a state `S`.  Hooks receive the codec mutably, so one `S`
  * stands for the codec together with its hooks.  The decode half and the encode half of a codec are separate
  * records: an engine only ever uses one of them.
  */
module Codecs {
  import opened Basics

  /** Result of one decode attempt.  Failures carry no state: a failed attempt must not advance it. */
  datatype DecodeResult<+S, +V, +E> =
    | Decoded(value: V, consumed: nat, next: S)
    | Incomplete(source: Option<E>, requiredTotal: usize)
    | Invalid(error: E, span: Option<nat>)

  /** Items written by an operation that fills a reserved range. */
  datatype Written<+S, +A, +X> = Wrote(items: seq<A>, next: S) | WriteFailed(error: X, after: S)

  /** Decision of a policy hook. */
  datatype Ruling<+S, +A, +X> = Ruled(action: A, next: S) | Refused(error: X, after: S)

  datatype InvalidAction<+V> = RejectInvalid | SkipInvalid(consumed: nat) | EmitInvalid(value: V, consumed: nat)

  datatype IncompleteAction<+V> = RejectTail | SkipTail | EmitTail(value: V)

  datatype UnencodableAction<+V> = RejectValue | SkipValue | ReplaceValue(value: V)

  datatype DecodeCodec<!S, !U, !V, !E> = DecodeCodec(
    minUnits: usize,
    maxUnits: usize,
    maxResetValues: usize,
    maxFinishValues: usize,
    decode: (S, seq<U>) -> DecodeResult<S, V, E>,
    decodeEof: (S, seq<U>) -> DecodeResult<S, V, E>,
    decodeReset: S -> Written<S, V, E>,
    decodeFinish: S -> Written<S, V, E>)

  datatype DecodeHooks<!S, !V, !E> = DecodeHooks(
    handleInvalid: (S, E, Option<nat>) -> Ruling<S, InvalidAction<V>, DecodeError<E>>,
    handleIncomplete: (S, Option<E>, nat) -> Ruling<S, IncompleteAction<V>, DecodeError<E>>,
    resetHooks: S -> S,
    finishHooks: S -> Written<S, V, DecodeError<E>>,
    maxTranscode: usize -> Option<usize>,
    maxFinish: usize)

  datatype DecodeSide<!S, !U, !V, !E> = DecodeSide(codec: DecodeCodec<S, U, V, E>, hooks: DecodeHooks<S, V, E>)

  datatype EncodeCodec<!S, !V, !U, !E> = EncodeCodec(
    maxUnits: usize,
    maxResetUnits: usize,
    maxFinishUnits: usize,
    canEncode: (S, V) -> bool,
    encodeLen: (S, V) -> usize,
    encode: (S, V) -> Written<S, U, E>,
    encodeReset: S -> Written<S, U, E>,
    encodeFinish: S -> Written<S, U, E>)

  datatype EncodeHooks<!S, !V, !U, !E> = EncodeHooks(
    handleUnencodable: (S, V) -> Ruling<S, UnencodableAction<V>, EncodeError<E, V>>,
    resetHooks: S -> S,
    finishHooks: S -> Written<S, U, EncodeError<E, V>>,
    maxTranscode: usize -> Option<usize>,
    maxFinish: usize)

  datatype EncodeSide<!S, !V, !U, !E> = EncodeSide(codec: EncodeCodec<S, V, U, E>, hooks: EncodeHooks<S, V, U, E>)

  // ---------------------------------------------------------------------------------------------------------
  // Decode contract
  // ---------------------------------------------------------------------------------------------------------

  /** Units a consuming ruling takes; other rulings take none. */
  function RuledSpan<S, V, X>(ruling: Ruling<S, InvalidAction<V>, X>): Option<nat> {
    match ruling
    case Ruled(SkipInvalid(consumed), _) => Some(consumed)
    case Ruled(EmitInvalid(_, consumed), _) => Some(consumed)
    case _ => None
  }

  /** One decode result over `available` units stays within the declared widths, and so does the policy's reaction
      to it. */
  ghost predicate DecodeSane<S(!new), U(!new), V(!new), E(!new)>(
    dec: DecodeSide<S, U, V, E>, s: S, available: nat, d: DecodeResult<S, V, E>)
  {
    match d
    case Decoded(_, consumed, _) => 0 < consumed <= available && consumed <= dec.codec.maxUnits
    case Incomplete(_, required) => available < required <= dec.codec.maxUnits
    case Invalid(error, span) =>
      var ruled := RuledSpan(dec.hooks.handleInvalid(s, error, span));
      ruled.Some? ==> 0 < ruled.value <= available
  }

  /** Both entry points stay sane, and a decision on the open segment `seen` is the decision on any longer rest of
      the stream. */
  ghost predicate DecodeAgrees<S(!new), U(!new), V(!new), E(!new)>(
    dec: DecodeSide<S, U, V, E>, s: S, seen: seq<U>, rest: seq<U>)
  {
    && DecodeSane(dec, s, |seen|, dec.codec.decode(s, seen))
    && DecodeSane(dec, s, |rest|, dec.codec.decodeEof(s, rest))
    && (!dec.codec.decode(s, seen).Incomplete? ==> dec.codec.decode(s, seen) == dec.codec.decodeEof(s, rest))
  }

  ghost predicate WritesAtMost<S, A, X>(w: Written<S, A, X>, bound: nat) {
    w.Wrote? ==> |w.items| <= bound
  }

  ghost predicate DecodeEndsBounded<S(!new), U(!new), V(!new), E(!new)>(dec: DecodeSide<S, U, V, E>, s: S) {
    && WritesAtMost(dec.codec.decodeReset(s), dec.codec.maxResetValues)
    && WritesAtMost(dec.codec.decodeFinish(s), dec.codec.maxFinishValues)
    && WritesAtMost(dec.hooks.finishHooks(s), dec.hooks.maxFinish)
  }

  ghost predicate ConformsDecode<S(!new), U(!new), V(!new), E(!new)>(dec: DecodeSide<S, U, V, E>) {
    && 0 < dec.codec.minUnits <= dec.codec.maxUnits
    && (forall s, seen, rest | dec.codec.minUnits <= |seen| && seen <= rest :: DecodeAgrees(dec, s, seen, rest))
    && (forall s :: DecodeEndsBounded(dec, s))
  }

  // ---------------------------------------------------------------------------------------------------------
  // Encode contract
  // ---------------------------------------------------------------------------------------------------------

  /** An encodable value is written at exactly its announced width, within the declared maximum. */
  ghost predicate EncodeExact<S(!new), V(!new), U(!new), E(!new)>(enc: EncodeSide<S, V, U, E>, s: S, v: V) {
    enc.codec.canEncode(s, v) ==>
      && enc.codec.encodeLen(s, v) <= enc.codec.maxUnits
      && (enc.codec.encode(s, v).Wrote? ==> |enc.codec.encode(s, v).items| == enc.codec.encodeLen(s, v))
  }

  /** A replacement is encodable in the state the hook leaves behind. */
  ghost predicate ReplacementEncodable<S(!new), V(!new), U(!new), E(!new)>(enc: EncodeSide<S, V, U, E>, s: S, v: V) {
    var ruling := enc.hooks.handleUnencodable(s, v);
    !enc.codec.canEncode(s, v) && ruling.Ruled? && ruling.action.ReplaceValue? ==>
      enc.codec.canEncode(ruling.next, ruling.action.value)
  }

  ghost predicate EncodeEndsBounded<S(!new), V(!new), U(!new), E(!new)>(enc: EncodeSide<S, V, U, E>, s: S) {
    && WritesAtMost(enc.codec.encodeReset(s), enc.codec.maxResetUnits)
    && WritesAtMost(enc.codec.encodeFinish(s), enc.codec.maxFinishUnits)
    && WritesAtMost(enc.hooks.finishHooks(s), enc.hooks.maxFinish)
  }

  /** The streaming bound leaves room for the widest encoding of each of `k` values. */
  ghost predicate BoundCovers<S(!new), V(!new), U(!new), E(!new)>(enc: EncodeSide<S, V, U, E>, k: usize) {
    enc.hooks.maxTranscode(k).Some? ==> k * enc.codec.maxUnits <= enc.hooks.maxTranscode(k).value
  }

  ghost predicate ConformsEncode<S(!new), V(!new), U(!new), E(!new)>(enc: EncodeSide<S, V, U, E>) {
    && (forall s, v :: EncodeExact(enc, s, v))
    && (forall s, v :: ReplacementEncodable(enc, s, v))
    && (forall s :: EncodeEndsBounded(enc, s))
    && (forall k: usize :: BoundCovers(enc, k))
  }

  lemma DecodeEnds<S(!new), U(!new), V(!new), E(!new)>(dec: DecodeSide<S, U, V, E>, s: S)
    requires ConformsDecode(dec)
    ensures DecodeEndsBounded(dec, s)
  {
  }

  lemma EncodeEnds<S(!new), V(!new), U(!new), E(!new)>(enc: EncodeSide<S, V, U, E>, s: S)
    requires ConformsEncode(enc)
    ensures EncodeEndsBounded(enc, s)
  {
  }

  lemma BoundIsEnough<S(!new), V(!new), U(!new), E(!new)>(enc: EncodeSide<S, V, U, E>, k: usize)
    requires ConformsEncode(enc)
    ensures BoundCovers(enc, k)
  {
  }

  // ---------------------------------------------------------------------------------------------------------
  // Default policies
  // ---------------------------------------------------------------------------------------------------------

  /** `usize::div_ceil`. */
  function CeilDiv(n: nat, d: nat): (q: nat)
    requires 0 < d
    ensures q * d < n + d && n <= q * d
    ensures q <= n
  {
    CeilDivBounds(n, d);
    if n % d == 0 then n / d else n / d + 1
  }

  lemma CeilDivBounds(n: nat, d: nat)
    requires 0 < d
    ensures n == n / d * d + n % d && 0 <= n % d < d
    ensures 0 <= n / d <= n && (n % d != 0 ==> n / d < n)
  {
    var q, r := n / d, n % d;
    assert n == q * d + r;
    MulAtLeast(q, d);
  }

  lemma MulAtLeast(q: nat, d: nat)
    requires 0 < d
    ensures q <= q * d
  {
    assert q * (d - 1) >= 0;
  }

  /** The strict decode policy: reject invalid input, reject incomplete tails, add nothing at the stream ends; its
      bound is the input length over the minimum width, rounded up. */
  function StrictDecode<S, U, V, E>(codec: DecodeCodec<S, U, V, E>): DecodeSide<S, U, V, E>
    requires 0 < codec.minUnits
  {
    var min := codec.minUnits;
    DecodeSide(codec, DecodeHooks(
      (s, _, _) => Ruled(RejectInvalid, s),
      (s, _, _) => Ruled(RejectTail, s),
      s => s,
      s => Wrote([], s),
      (n: usize) => if 0 < min then Some(CeilDiv(n, min)) else None,
      0))
  }

  /** The default encode bound: `input_len * MAX_ENCODE_UNITS_PER_VALUE`, unless it overflows. */
  function DefaultEncodeBound(maxUnits: usize): usize -> Option<usize> {
    (n: usize) => CheckedMul(n, maxUnits)
  }

  /** The strict encode policy: reject unencodable values, add nothing at the stream ends. */
  function StrictEncode<S, V, U, E>(codec: EncodeCodec<S, V, U, E>): EncodeSide<S, V, U, E> {
    EncodeSide(codec, EncodeHooks(
      (s, _) => Ruled(RejectValue, s),
      s => s,
      s => Wrote([], s),
      DefaultEncodeBound(codec.maxUnits),
      0))
  }

  /** The strict decode bound is the least number of minimum widths that covers the input. */
  lemma StrictDecodeBoundIsLeast<S(!new), U(!new), V(!new), E(!new)>(codec: DecodeCodec<S, U, V, E>, n: usize)
    requires 0 < codec.minUnits
    ensures var bound := StrictDecode(codec).hooks.maxTranscode(n);
            bound.Some? && n <= bound.value * codec.minUnits < n + codec.minUnits
  {
    var q := CeilDiv(n, codec.minUnits);
  }

  /** The strict encode bound is the widest encoding of each value, as far as `usize` reaches. */
  lemma StrictEncodeBoundIsExact<S(!new), V(!new), U(!new), E(!new)>(codec: EncodeCodec<S, V, U, E>, n: usize)
    ensures var bound := StrictEncode(codec).hooks.maxTranscode(n);
            && (bound.Some? <==> n * codec.maxUnits <= USIZE_MAX)
            && (bound.Some? ==> bound.value == n * codec.maxUnits)
  {
  }
}
