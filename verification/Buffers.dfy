/** Output windows and the cursors of one call. */
module Buffers {
  import opened Basics
  import opened Progress
  import opened Streaming

  /** `s` with `items` written over it from position `at` on. */
  function Splice<T>(s: seq<T>, at: nat, items: seq<T>): (r: seq<T>)
    requires at + |items| <= |s|
    ensures |r| == |s|
  {
    s[..at] + items + s[at + |items|..]
  }

  lemma SpliceTwice<T>(s: seq<T>, at: nat, a: seq<T>, b: seq<T>)
    requires at + |a| + |b| <= |s|
    ensures Splice(Splice(s, at, a), at + |a|, b) == Splice(s, at, a + b)
  {
  }

  lemma SpliceNothing<T>(s: seq<T>, at: nat)
    requires at <= |s|
    ensures Splice(s, at, []) == s
  {
  }

  lemma SplicePrefix<T>(s: seq<T>, items: seq<T>)
    requires |items| <= |s|
    ensures Splice(s, 0, items)[..|items|] == items
  {
  }

  /** The written range, and the rest left alone. */
  lemma SpliceParts<T>(s: seq<T>, at: nat, items: seq<T>)
    requires at + |items| <= |s|
    ensures Splice(s, at, items)[..at] == s[..at]
    ensures Splice(s, at, items)[at..at + |items|] == items
    ensures Splice(s, at, items)[at + |items|..] == s[at + |items|..]
    ensures Splice(s, at, items)[..at + |items|] == s[..at] + items
  {
  }

  /** The first of the written items. */
  lemma SplicedPrefix<T>(s: seq<T>, at: nat, items: seq<T>, n: nat)
    requires at + |items| <= |s| && n <= |items|
    ensures Splice(s, at, items)[at..at + n] == items[..n]
  {
  }

  /** What success of a landed outcome means for a scratch buffer filled from the start. */
  lemma LandedInScratch<Q, O, X>(
    o: Outcome<Q, O, X>, r: Result<usize, X>, before: seq<O>, after: seq<O>, q: Q)
    requires Landed(o, r, before, 0, after, q)
    ensures r.Ok? ==> o.Done? && q == o.final && r.value == |o.out| <= |after| && after[..r.value] == o.out
    ensures r.Err? ==> o.Rejected? && q == o.after && r.error == o.error
  {
    SplicePrefix(before, o.out);
  }

  /** A codec or hook writing its items into a range reserved for it. */
  method Write<T>(output: array<T>, at: nat, items: seq<T>)
    requires at + |items| <= output.Length
    modifies output
    ensures output[..] == Splice(old(output[..]), at, items)
  {
    var k := 0;
    while k < |items|
      invariant k <= |items|
      invariant output[..] == Splice(old(output[..]), at, items[..k])
    {
      output[at + k] := items[k];
      k := k + 1;
    }
    assert items[..k] == items;
  }

  /** The result `r` and the final buffer and state are exactly what `o` says, written from `at` on. */
  ghost predicate Landed<Q, O, X>(
    o: Outcome<Q, O, X>, r: Result<usize, X>, before: seq<O>, at: nat, after: seq<O>, q: Q)
  {
    && at + |o.out| <= |before|
    && after == Splice(before, at, o.out)
    && match o {
      case Done(out, final) => r == Ok(|out|) && q == final
      case Rejected(_, error, final) => r == Err(error) && q == final
    }
  }

  /** A rejection before anything was written. */
  lemma LandedRejection<Q, O, X>(o: Outcome<Q, O, X>, error: X, before: seq<O>, at: nat, q: Q)
    requires at <= |before| && o == Rejected([], error, q)
    ensures Landed(o, Err(error), before, at, before, q)
  {
    SpliceNothing(before, at);
  }

  /** What landed behind `first` landed together with it. */
  lemma LandedPrepend<Q, O, X>(
    first: seq<O>, rest: Outcome<Q, O, X>, r: Result<usize, X>, before: seq<O>, at: nat, middle: seq<O>, after: seq<O>,
    q: Q, total: Result<usize, X>)
    requires at + |first| <= |before| && middle == Splice(before, at, first)
    requires Landed(rest, r, middle, at + |first|, after, q)
    requires r.Ok? ==> total.Ok? && total.value == |first| + r.value
    requires r.Err? ==> total == r
    ensures Landed(Prepend(first, rest), total, before, at, after, q)
  {
    hide Splice;
    SpliceTwice(before, at, first, rest.out);
  }

  /** The progress `r` and the final buffer and state are exactly what the call `c` says. */
  ghost predicate Reported<Q, O, X>(
    c: CallResult<Q, O, X>, r: Result<TranscodeProgress, X>, before: seq<O>, at: nat, after: seq<O>, q: Q)
  {
    && at + |c.out| <= |before|
    && after == Splice(before, at, c.out)
    && match c {
      case Stopped(status, read, out, next) => r == Ok(TranscodeProgress(status, read, |out|)) && q == next
      case Failed(_, error, final) => r == Err(error) && q == final
    }
  }

  /** Half-way through a call: `read` units and `out` items are settled, and `rest` is what remains of `c0`. */
  ghost predicate Reached<Q, O, X>(
    c0: CallResult<Q, O, X>, rest: CallResult<Q, O, X>, read: nat, out: seq<O>, before: seq<O>, at: nat, now: seq<O>)
  {
    && at + |out| <= |before|
    && now == Splice(before, at, out)
    && c0 == Resume(read, out, rest)
  }

  lemma ReachedStart<Q, O, X>(c0: CallResult<Q, O, X>, before: seq<O>, at: nat)
    requires at <= |before|
    ensures Reached(c0, c0, 0, [], before, at, before)
  {
    ResumeNothing(c0);
    SpliceNothing(before, at);
  }

  lemma ReachedMore<Q, O, X>(
    c0: CallResult<Q, O, X>, rest: CallResult<Q, O, X>, read: nat, out: seq<O>, before: seq<O>, at: nat, now: seq<O>,
    moreRead: nat, moreOut: seq<O>, rest': CallResult<Q, O, X>, now': seq<O>)
    requires Reached(c0, rest, read, out, before, at, now)
    requires rest == Resume(moreRead, moreOut, rest')
    requires at + |out| + |moreOut| <= |before| && now' == Splice(now, at + |out|, moreOut)
    ensures Reached(c0, rest', read + moreRead, out + moreOut, before, at, now')
  {
    ResumeTwice(read, out, moreRead, moreOut, rest');
    SpliceTwice(before, at, out, moreOut);
  }

  /** A call that ends here reports what it has settled. */
  lemma ReachedEnd<Q, O, X>(
    c0: CallResult<Q, O, X>, rest: CallResult<Q, O, X>, read: nat, out: seq<O>, before: seq<O>, at: nat, now: seq<O>)
    requires Reached(c0, rest, read, out, before, at, now) && rest.out == []
    ensures rest.Stopped? && rest.read == 0 ==>
              Reported(c0, Ok(TranscodeProgress(rest.status, read, |out|)), before, at, now, rest.next)
    ensures rest.Failed? ==> Reported(c0, Err(rest.error), before, at, now, rest.after)
  {
    assert out + [] == out;
  }

  /** Cursors of one call over an input slice and an output window. */
  class TranscodeState<I, O> {
    const input: seq<I>
    const output: array<O>
    const inputStart: usize
    const outputStart: usize
    var inputCursor: usize
    var outputCursor: usize

    ghost predicate Valid()
      reads this
    {
      && |input| <= USIZE_MAX && output.Length <= USIZE_MAX
      && inputStart <= inputCursor <= |input|
      && outputStart <= outputCursor <= output.Length
    }

    ghost predicate AtStart()
      reads this
    {
      Valid() && inputCursor == inputStart && outputCursor == outputStart
    }

    /** Output slots the call started with. */
    ghost function Room(): nat {
      if outputStart <= output.Length then output.Length - outputStart else 0
    }

    constructor (input: seq<I>, inputIndex: usize, output: array<O>, outputIndex: usize)
      requires |input| <= USIZE_MAX && output.Length <= USIZE_MAX
      requires inputIndex <= |input| && outputIndex <= output.Length
      ensures AtStart()
      ensures this.input == input && this.output == output
      ensures inputStart == inputCursor == inputIndex && outputStart == outputCursor == outputIndex
    {
      this.input, this.output := input, output;
      inputStart, outputStart := inputIndex, outputIndex;
      inputCursor, outputCursor := inputIndex, outputIndex;
    }

    predicate HasInput() reads this { inputCursor < |input| }

    function AvailableInput(): usize
      requires Valid()
      reads this
    {
      |input| - inputCursor
    }

    function AvailableOutput(): usize
      requires Valid()
      reads this
    {
      output.Length - outputCursor
    }

    function Report(status: Status): TranscodeProgress
      requires Valid()
      reads this
    {
      TranscodeProgress(status, inputCursor - inputStart, outputCursor - outputStart)
    }

    /** A step may only read what is there; the addition stays in `usize` range. */
    method AdvanceInput(read: nat)
      requires Valid() && read <= AvailableInput()
      modifies this`inputCursor
      ensures Valid() && inputCursor == old(inputCursor) + read
    {
      inputCursor := inputCursor + read;
    }

    /** A step may only write what was reserved; the addition stays in `usize` range. */
    method AdvanceOutput(written: nat)
      requires Valid() && written <= AvailableOutput()
      modifies this`outputCursor
      ensures Valid() && outputCursor == old(outputCursor) + written
    {
      outputCursor := outputCursor + written;
    }
  }
}
