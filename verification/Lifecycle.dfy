/** The five-phase lifecycle guard shared by the engines. */
module Lifecycle {
  import opened Basics

  datatype Phase = Uninitialized | Fresh | Streaming | Finished | Poisoned

  /** Why a phase refuses to transcode, if it does. */
  function TranscodeRefusal(phase: Phase): Option<TranscodeFailure> {
    match phase
    case Uninitialized => Some(TranscodeBeforeReset)
    case Finished => Some(TranscodeAfterFinish)
    case Poisoned => Some(LifecyclePoisoned)
    case _ => None
  }

  /** Why a phase refuses to finish, if it does. */
  function FinishRefusal(phase: Phase): Option<TranscodeFailure> {
    match phase
    case Uninitialized => Some(FinishBeforeReset)
    case Finished => Some(FinishAfterFinish)
    case Poisoned => Some(LifecyclePoisoned)
    case _ => None
  }

  class LifecycleGuard {
    var phase: Phase

    constructor ()
      ensures phase == Uninitialized
    {
      phase := Uninitialized;
    }

    /** From here until success the stream state cannot be trusted. */
    method OnResetStart()
      modifies this
      ensures phase == Poisoned
    {
      phase := Poisoned;
    }

    method OnResetSuccess()
      modifies this
      ensures phase == Fresh
    {
      phase := Fresh;
    }

    method OnTranscode() returns (refusal: Option<TranscodeFailure>)
      modifies this
      ensures refusal == TranscodeRefusal(old(phase))
      ensures old(phase) == Uninitialized ==> refusal == Some(TranscodeBeforeReset)
      ensures old(phase) == Finished ==> refusal == Some(TranscodeAfterFinish)
      ensures old(phase) == Poisoned ==> refusal == Some(LifecyclePoisoned)
      ensures old(phase) == Fresh || old(phase) == Streaming ==> refusal == None
      ensures phase == if refusal.None? then Streaming else old(phase)
    {
      refusal := TranscodeRefusal(phase);
      if phase == Fresh {
        phase := Streaming;
      }
    }

    method OnFinishAttempt() returns (refusal: Option<TranscodeFailure>)
      ensures refusal == FinishRefusal(phase)
      ensures phase == Uninitialized ==> refusal == Some(FinishBeforeReset)
      ensures phase == Finished ==> refusal == Some(FinishAfterFinish)
      ensures phase == Poisoned ==> refusal == Some(LifecyclePoisoned)
      ensures phase == Fresh || phase == Streaming ==> refusal == None
    {
      refusal := FinishRefusal(phase);
    }

    method OnFinishStart()
      modifies this
      ensures phase == Poisoned
    {
      phase := Poisoned;
    }

    method OnFinishSuccess()
      modifies this
      ensures phase == Finished
    {
      phase := Finished;
    }
  }
}
