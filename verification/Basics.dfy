/** Shared vocabulary: machine-width sizes, results, and the error types of the transcode layer. */
module Basics {

  /** Largest `usize` on the 64-bit targets the model assumes. */
  const USIZE_MAX: nat := 0xFFFF_FFFF_FFFF_FFFF

  /** Rust's `usize`: every value stored in this type is proved to be in range. */
  type usize = n: nat | n <= USIZE_MAX witness 0

  type byte = b: int | 0 <= b < 256

  /** `u8::wrapping_add`. */
  function WrappingAdd(a: byte, b: byte): (r: byte)
    ensures r == a + b || r == a + b - 256
  {
    (a as int + b as int) % 256
  }

  datatype Option<+T> = None | Some(value: T)

  datatype Result<+T, +X> = Ok(value: T) | Err(error: X)

  /** `usize::checked_add`. */
  function CheckedAdd(a: usize, b: usize): (r: Option<usize>)
    ensures r.Some? <==> a + b <= USIZE_MAX
    ensures r.Some? ==> r.value == a + b
  {
    if a + b <= USIZE_MAX then Some(a + b) else None
  }

  /** `usize::checked_mul`. */
  function CheckedMul(a: usize, b: usize): (r: Option<usize>)
    ensures r.Some? <==> a * b <= USIZE_MAX
    ensures r.Some? ==> r.value == a * b
  {
    if a * b <= USIZE_MAX then Some(a * b) else None
  }

  /** Three bounds added left to right, overflowing as soon as one addition does. */
  function CheckedSum(a: usize, b: usize, c: usize): (r: Option<usize>)
    ensures r.Some? <==> a + b + c <= USIZE_MAX
    ensures r.Some? ==> r.value == a + b + c
  {
    match CheckedAdd(a, b)
    case None => None
    case Some(ab) => CheckedAdd(ab, c)
  }

  /** Violations of the progress contract found by `Progress.Validate`. */
  datatype ContractError =
    | OverRead(read: nat, available: nat)
    | OverWritten(written: nat, available: nat)
    | ProgressIndexOverflow(index: nat, advanced: nat)
    | SatisfiedNeed(required: nat, available: nat)
    | CompleteWithRemainingInput(read: nat, available: nat)

  /** Failures raised by the framework itself rather than by a codec or a hook. */
  datatype TranscodeFailure =
    | InvalidInputIndex(index: nat, inputLen: nat)
    | InvalidOutputIndex(index: nat, outputLen: nat)
    | InsufficientOutput(outputIndex: nat, required: nat, available: nat)
    | OutputLengthOverflow
    | IncompleteInput(inputIndex: nat, required: nat, available: nat)
    | InvalidProgress(source: ContractError)
    | TrailingInput(consumed: nat, remaining: nat)
    | UnsupportedDecodeLifecycleOutput(resetBound: nat, finishBound: nat)
    | TranscodeAfterFinish
    | TranscodeBeforeReset
    | FinishAfterFinish
    | FinishBeforeReset
    | LifecyclePoisoned

  /** A codec error together with the lifecycle phase that raised it. */
  datatype DomainError<+E> =
    | ResetError(source: E)
    | MainError(source: E, inputIndex: nat, inputConsumed: Option<nat>)
    | FinishError(source: E)

  datatype DecodeError<+E> = DecodeFramework(failure: TranscodeFailure) | DecodeDomain(domain: DomainError<E>)

  datatype EncodeError<+E, +V> =
    | EncodeFramework(failure: TranscodeFailure)
    | EncodeUnencodable(inputIndex: nat, value: Option<V>)
    | EncodeDomain(domain: DomainError<E>)

  datatype ConvertError<+E, +V> =
    | ConvertFramework(failure: TranscodeFailure)
    | ConvertDecodeDomain(decodeDomain: DomainError<E>)
    | ConvertEncodeDomain(encodeDomain: DomainError<E>)
    | ConvertUnencodable(inputIndex: nat, value: Option<V>)

  /** Widens a decode error. */
  function FromDecodeError<E, V>(error: DecodeError<E>): (r: ConvertError<E, V>)
    ensures error.DecodeFramework? <==> r.ConvertFramework?
    ensures error.DecodeFramework? ==> r.failure == error.failure
    ensures error.DecodeDomain? ==> r == ConvertDecodeDomain(error.domain)
  {
    match error
    case DecodeFramework(failure) => ConvertFramework(failure)
    case DecodeDomain(domain) => ConvertDecodeDomain(domain)
  }

  /** Widens an encode error, attaching the rejected value when the encoder left it out. */
  function FromEncodeErrorWithValue<E, V>(error: EncodeError<E, V>, fallback: V): (r: ConvertError<E, V>)
    ensures !error.EncodeUnencodable? ==> r == FromEncodeError(error)
    ensures error.EncodeUnencodable? ==>
              && r.ConvertUnencodable? && r.inputIndex == error.inputIndex && r.value.Some?
              && (error.value.Some? ==> r.value == error.value) && (error.value.None? ==> r.value.value == fallback)
  {
    match error
    case EncodeFramework(failure) => ConvertFramework(failure)
    case EncodeUnencodable(index, None) => ConvertUnencodable(index, Some(fallback))
    case EncodeUnencodable(index, value) => ConvertUnencodable(index, value)
    case EncodeDomain(domain) => ConvertEncodeDomain(domain)
  }

  /** Widens an encode error of the stream ends, where there is no value to attach. */
  function FromEncodeError<E, V>(error: EncodeError<E, V>): (r: ConvertError<E, V>)
    ensures error.EncodeFramework? ==> r == ConvertFramework(error.failure)
    ensures error.EncodeUnencodable? ==> r == ConvertUnencodable(error.inputIndex, error.value)
    ensures error.EncodeDomain? ==> r == ConvertEncodeDomain(error.domain)
  {
    match error
    case EncodeFramework(failure) => ConvertFramework(failure)
    case EncodeUnencodable(index, value) => ConvertUnencodable(index, value)
    case EncodeDomain(domain) => ConvertEncodeDomain(domain)
  }

  /** `ensure_transcode_indices`: the first index out of range decides the failure. */
  function EnsureTranscodeIndices(inputLen: nat, inputIndex: nat, outputLen: nat, outputIndex: nat)
    : (r: Option<TranscodeFailure>)
    ensures r.None? <==> inputIndex <= inputLen && outputIndex <= outputLen
    ensures r.Some? && inputLen < inputIndex ==> r.value == InvalidInputIndex(inputIndex, inputLen)
    ensures r.Some? && inputIndex <= inputLen ==> r.value == InvalidOutputIndex(outputIndex, outputLen)
  {
    if inputIndex > inputLen then Some(InvalidInputIndex(inputIndex, inputLen))
    else EnsureOutputIndex(outputLen, outputIndex)
  }

  function EnsureOutputIndex(outputLen: nat, outputIndex: nat): (r: Option<TranscodeFailure>)
    ensures r.None? <==> outputIndex <= outputLen
    ensures r.Some? ==> r.value == InvalidOutputIndex(outputIndex, outputLen)
  {
    if outputIndex > outputLen then Some(InvalidOutputIndex(outputIndex, outputLen)) else None
  }

  /** `ensure_output_capacity`: index first, then the room behind it. */
  function EnsureOutputCapacity(outputLen: nat, outputIndex: nat, required: nat): (r: Option<TranscodeFailure>)
    ensures r.None? <==> outputIndex + required <= outputLen
    ensures r.Some? && outputLen < outputIndex ==> r.value == InvalidOutputIndex(outputIndex, outputLen)
    ensures r.Some? && outputIndex <= outputLen ==>
              r.value == InsufficientOutput(outputIndex, required, outputLen - outputIndex)
  {
    if outputIndex > outputLen then Some(InvalidOutputIndex(outputIndex, outputLen))
    else if outputLen - outputIndex < required then
      Some(InsufficientOutput(outputIndex, required, outputLen - outputIndex))
    else None
  }

  /** Checks a lifecycle operation makes before it touches anything: the phase, then the bound, then the room. */
  function Preflight(refusal: Option<TranscodeFailure>, bound: Option<usize>, outputLen: nat, outputIndex: nat)
    : (r: Option<TranscodeFailure>)
    ensures r.None? <==> refusal.None? && bound.Some? && outputIndex + bound.value <= outputLen
    ensures refusal.Some? ==> r == refusal
    ensures refusal.None? && bound.None? ==> r == Some(OutputLengthOverflow)
    ensures refusal.None? && bound.Some? ==> r == EnsureOutputCapacity(outputLen, outputIndex, bound.value)
  {
    if refusal.Some? then refusal
    else if bound.None? then Some(OutputLengthOverflow)
    else EnsureOutputCapacity(outputLen, outputIndex, bound.value)
  }
}
