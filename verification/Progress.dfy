/** Progress reported by streaming calls, and the contract it has to meet. */
module Progress {
  import opened Basics

  datatype Status = Complete | NeedInput(required: usize) | NeedOutput(required: usize)

  datatype TranscodeProgress = TranscodeProgress(status: Status, read: nat, written: nat)

  /** `TranscodeProgress::validate`: checks progress against the bounds of the call that reported it. */
  function Validate(p: TranscodeProgress, inputIndex: usize, availableInput: usize, outputIndex: usize,
                    availableOutput: usize): (r: Option<ContractError>)
    ensures r == Some(OverRead(p.read, availableInput)) <==> availableInput < p.read
    ensures p.read <= availableInput ==>
              (r == Some(OverWritten(p.written, availableOutput)) <==> availableOutput < p.written)
    ensures r.Some? && r.value.CompleteWithRemainingInput? ==>
              p.status.Complete? && r.value == CompleteWithRemainingInput(p.read, availableInput)
    ensures r.Some? && r.value.SatisfiedNeed? ==>
              && (p.status.NeedInput? ==> r.value == SatisfiedNeed(p.status.required, availableInput - p.read))
              && (p.status.NeedOutput? ==> r.value == SatisfiedNeed(p.status.required, availableOutput - p.written))
              && !p.status.Complete?
  {
    if p.read > availableInput then Some(OverRead(p.read, availableInput))
    else if p.written > availableOutput then Some(OverWritten(p.written, availableOutput))
    else if CheckedAdd(inputIndex, p.read).None? then Some(ProgressIndexOverflow(inputIndex, p.read))
    else if CheckedAdd(outputIndex, p.written).None? then Some(ProgressIndexOverflow(outputIndex, p.written))
    else match p.status
      case Complete =>
        if p.read != availableInput then Some(CompleteWithRemainingInput(p.read, availableInput)) else None
      case NeedInput(required) =>
        var available := availableInput - p.read;
        if required <= available then Some(SatisfiedNeed(required, available)) else None
      case NeedOutput(required) =>
        var available := availableOutput - p.written;
        if required <= available then Some(SatisfiedNeed(required, available)) else None
  }

  /** What a stop promises about the units behind it. */
  ghost predicate Honest(p: TranscodeProgress, availableInput: nat, availableOutput: nat) {
    && p.read <= availableInput
    && p.written <= availableOutput
    && (p.status.Complete? ==> p.read == availableInput)
    && (p.status.NeedInput? ==> availableInput - p.read < p.status.required)
    && (p.status.NeedOutput? ==> availableOutput - p.written < p.status.required)
  }

  /** For indices of real slices the validator accepts exactly the honest progress reports: its overflow branches
      cannot be reached. */
  lemma ValidateIffHonest(p: TranscodeProgress, inputLen: usize, inputIndex: usize, outputLen: usize,
                          outputIndex: usize)
    requires inputIndex <= inputLen && outputIndex <= outputLen
    ensures var r := Validate(p, inputIndex, inputLen - inputIndex, outputIndex, outputLen - outputIndex);
            && (r.None? <==> Honest(p, inputLen - inputIndex, outputLen - outputIndex))
            && (r.Some? ==> !r.value.ProgressIndexOverflow?)
  {
    if p.read <= inputLen - inputIndex && p.written <= outputLen - outputIndex {
      assert inputIndex + p.read <= USIZE_MAX && outputIndex + p.written <= USIZE_MAX;
    }
  }

  /** `complete_progress_written`: what a one-shot caller makes of the progress of its only call. */
  function CompleteProgressWritten(p: TranscodeProgress, inputLen: nat, outputIndex: nat, outputLen: nat)
    : (r: Result<nat, TranscodeFailure>)
    requires outputIndex <= outputLen && Honest(p, inputLen, outputLen - outputIndex)
    ensures r.Ok? <==> p.status.Complete?
    ensures r.Ok? ==> r.value == p.written
    ensures p.status.NeedOutput? ==>
              r == Err(InsufficientOutput(outputIndex + p.written, p.status.required,
                                          outputLen - outputIndex - p.written))
    ensures p.status.NeedInput? ==> r == Err(IncompleteInput(p.read, p.status.required, inputLen - p.read))
  {
    match p.status
    case Complete => Ok(p.written)
    case NeedOutput(required) =>
      Err(InsufficientOutput(outputIndex + p.written, required, outputLen - outputIndex - p.written))
    case NeedInput(required) => Err(IncompleteInput(p.read, required, inputLen - p.read))
  }
}
