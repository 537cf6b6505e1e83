/**
  * Resumable streaming as a state machine, independent of what is being transcoded.
  *
  * A machine moves over an input buffer one event at a time.  `step` is what an engine call can do next when it
  * sees only a prefix of the payload and has `room` output slots left; `ideal` is what it would do with the whole
  * payload, at end of input, and with unlimited output.  `Faithful` says that `step` either stops or does exactly
  * what `ideal` does.  From that one property the module derives that no driver can observe how the input and the
  * output were cut.
  */
module Streaming {
  import opened Progress

  datatype Step<+Q, +O, +X> =
    | Stop(status: Status)
    | Go(read: nat, out: seq<O>, next: Q)
    | Fail(error: X, after: Q)

  /** `weight` is 1 while an already consumed event still waits for output, 0 otherwise; a `tight` machine never
      asks for output at a place where it would next ask for input. */
  datatype Machine<!Q, !I, !O, !X> = Machine(
    step: (Q, seq<I>, nat, nat, bool) -> Step<Q, O, X>,
    ideal: (Q, seq<I>, nat) -> Step<Q, O, X>,
    weight: Q -> nat,
    tight: bool)

  // ---------------------------------------------------------------------------------------------------------
  // The contract
  // ---------------------------------------------------------------------------------------------------------

  /** A move never goes past `end`, and shrinks the lexicographic work left. */
  ghost predicate MoveOK<Q(!new), I(!new), O(!new), X(!new)>(
    m: Machine<Q, I, O, X>, q: Q, i: nat, end: nat, move: Step<Q, O, X>)
    requires move.Go?
  {
    && i + move.read <= end
    && m.weight(move.next) < m.weight(q) + 2 * move.read
    && m.weight(move.next) <= m.weight(q) + move.read
  }

  /** A move that pays for an output stop: it settles a retained event or consumes input. */
  ghost predicate Pays<Q(!new), I(!new), O(!new), X(!new)>(m: Machine<Q, I, O, X>, q: Q, move: Step<Q, O, X>) {
    move.Go? ==> m.weight(move.next) < m.weight(q) + move.read
  }

  ghost predicate IdealOK<Q(!new), I(!new), O(!new), X(!new)>(m: Machine<Q, I, O, X>, payload: seq<I>, q: Q, i: nat)
    requires i <= |payload|
  {
    match m.ideal(q, payload, i)
    case Stop(status) => status == Complete && i == |payload| && m.weight(q) == 0
    case Go(_, _, _) => MoveOK(m, q, i, |payload|, m.ideal(q, payload, i))
    case Fail(_, _) => i < |payload| || m.weight(q) > 0
  }

  /** With `room` slots the machine does not stop for output here. */
  ghost predicate Open<Q(!new), I(!new), O(!new), X(!new)>(
    m: Machine<Q, I, O, X>, payload: seq<I>, v: nat, q: Q, i: nat, room: nat, eof: bool)
    requires v <= |payload|
  {
    var s := m.step(q, payload[..v], i, room, eof);
    s.Stop? ==> !m.tight && s.status.NeedInput?
  }

  /** A later view of `n` units: no shorter, and no longer open-ended once it was not. */
  predicate SeesMore(v: nat, eof: bool, v': nat, eof': bool, n: nat) {
    v <= v' <= n && (eof ==> eof') && (eof' ==> v' == n)
  }

  /** Once `required` slots are offered the machine no longer stops for output at this place, even if the visible
      prefix has grown or end of input has been announced in the meantime. */
  ghost predicate Unblocks<Q(!new), I(!new), O(!new), X(!new)>(
    m: Machine<Q, I, O, X>, payload: seq<I>, v: nat, q: Q, i: nat, eof: bool, required: nat)
    requires i <= v <= |payload|
  {
    && (i < v || m.weight(q) > 0)
    && Pays(m, q, m.ideal(q, payload, i))
    && (forall v': nat, eof', room: nat | SeesMore(v, eof, v', eof', |payload|) && required <= room ::
          Open(m, payload, v', q, i, room, eof'))
  }

  /** What one step from `(q, i)` may do when the first `v` units of `payload` are visible. */
  ghost predicate StepOK<Q(!new), I(!new), O(!new), X(!new)>(
    m: Machine<Q, I, O, X>, payload: seq<I>, v: nat, q: Q, i: nat, room: nat, eof: bool)
    requires i <= v <= |payload|
  {
    var s := m.step(q, payload[..v], i, room, eof);
    match s
    case Stop(Complete) =>
      i == v && m.weight(q) == 0
    case Stop(NeedInput(required)) =>
      !eof && i < v && v - i < required && m.weight(q) == 0
    case Stop(NeedOutput(required)) =>
      room < required && Unblocks(m, payload, v, q, i, eof, required)
    case Go(read, out, _) =>
      s == m.ideal(q, payload, i) && |out| <= room && MoveOK(m, q, i, v, s)
    case Fail(_, _) =>
      s == m.ideal(q, payload, i)
  }

  ghost predicate Faithful<Q(!new), I(!new), O(!new), X(!new)>(m: Machine<Q, I, O, X>) {
    && (forall payload, q, i: nat | i <= |payload| :: IdealOK(m, payload, q, i))
    && (forall payload, v: nat, q, i: nat, room: nat, eof | i <= v <= |payload| && (eof ==> v == |payload|) ::
          StepOK(m, payload, v, q, i, room, eof))
  }

  // ---------------------------------------------------------------------------------------------------------
  // One call, and the oracle
  // ---------------------------------------------------------------------------------------------------------

  /** Outcome of one engine call: a resumable stop, or a failure that spilled `out` into a window nobody reads. */
  datatype CallResult<+Q, +O, +X> =
    | Stopped(status: Status, read: nat, out: seq<O>, next: Q)
    | Failed(out: seq<O>, error: X, after: Q)

  function Resume<Q, O, X>(read: nat, out: seq<O>, c: CallResult<Q, O, X>): CallResult<Q, O, X> {
    match c
    case Stopped(status, r, o, next) => Stopped(status, read + r, out + o, next)
    case Failed(o, error, after) => Failed(out + o, error, after)
  }

  lemma ResumeNothing<Q, O, X>(c: CallResult<Q, O, X>)
    ensures Resume(0, [], c) == c
  {
    assert [] + c.out == c.out;
  }

  lemma ResumeTwice<Q, O, X>(r1: nat, o1: seq<O>, r2: nat, o2: seq<O>, c: CallResult<Q, O, X>)
    ensures Resume(r1, o1, Resume(r2, o2, c)) == Resume(r1 + r2, o1 + o2, c)
  {
    assert o1 + (o2 + c.out) == o1 + o2 + c.out;
  }

  /** Everything one call does: steps until one of them stops or fails. */
  ghost function Call<Q(!new), I(!new), O(!new), X(!new)>(
    m: Machine<Q, I, O, X>, q: Q, visible: seq<I>, i: nat, room: nat, eof: bool): CallResult<Q, O, X>
    requires Faithful(m) && i <= |visible|
    decreases 2 * (|visible| - i) + m.weight(q)
  {
    assert StepOK(m, visible, |visible|, q, i, room, eof) && visible[..|visible|] == visible;
    match m.step(q, visible, i, room, eof)
    case Stop(status) => Stopped(status, 0, [], q)
    case Fail(error, after) => Failed([], error, after)
    case Go(read, out, next) => Resume(read, out, Call(m, next, visible, i + read, room - |out|, eof))
  }

  /** Outcome of a whole stream. */
  datatype Outcome<+Q, +O, +X> = Done(out: seq<O>, final: Q) | Rejected(out: seq<O>, error: X, after: Q)

  function Prepend<Q, O, X>(out: seq<O>, r: Outcome<Q, O, X>): Outcome<Q, O, X> {
    match r
    case Done(o, final) => Done(out + o, final)
    case Rejected(o, error, after) => Rejected(out + o, error, after)
  }

  /** The specification: `ideal` steps over the complete payload. */
  ghost function Oracle<Q(!new), I(!new), O(!new), X(!new)>(
    m: Machine<Q, I, O, X>, payload: seq<I>, q: Q, i: nat): Outcome<Q, O, X>
    requires Faithful(m) && i <= |payload|
    decreases 2 * (|payload| - i) + m.weight(q)
  {
    assert IdealOK(m, payload, q, i);
    match m.ideal(q, payload, i)
    case Stop(_) => Done([], q)
    case Fail(error, after) => Rejected([], error, after)
    case Go(read, out, next) => Prepend(out, Oracle(m, payload, next, i + read))
  }

  /** Input units and retained events that have not reached the output yet. */
  ghost function Unsettled<Q(!new), I(!new), O(!new), X(!new)>(
    m: Machine<Q, I, O, X>, payload: seq<I>, q: Q, i: nat): int
  {
    |payload| - i + m.weight(q)
  }

  /** What a caller may rely on after one call on the first `v` units of `payload`. */
  ghost predicate CallOK<Q(!new), I(!new), O(!new), X(!new)>(
    m: Machine<Q, I, O, X>, payload: seq<I>, v: nat, q: Q, i: nat, room: nat, eof: bool, c: CallResult<Q, O, X>)
    requires Faithful(m) && i <= v <= |payload|
  {
    match c
    case Failed(out, error, after) =>
      |out| <= room && Oracle(m, payload, q, i) == Rejected(out, error, after)
    case Stopped(status, read, out, next) =>
      && i + read <= v
      && |out| <= room
      && Oracle(m, payload, q, i) == Prepend(out, Oracle(m, payload, next, i + read))
      && Unsettled(m, payload, next, i + read) <= Unsettled(m, payload, q, i)
      && (match status
          case Complete => i + read == v && m.weight(next) == 0
          case NeedInput(required) => !eof && i + read < v && v - (i + read) < required && m.weight(next) == 0
          case NeedOutput(required) =>
            room - |out| < required && Unblocks(m, payload, v, next, i + read, eof, required))
  }

  lemma PrependNested<Q, O, X>(a: seq<O>, b: seq<O>, r: Outcome<Q, O, X>)
    ensures Prepend(a, Prepend(b, r)) == Prepend(a + b, r)
    ensures Prepend([], r) == r
  {
    match r
    case Done(o, _) => assert a + (b + o) == a + b + o; assert [] + o == o;
    case Rejected(o, _, _) => assert a + (b + o) == a + b + o; assert [] + o == o;
  }

  /** A good rest of a call, resumed after a move of the oracle, is a good call. */
  lemma ResumeKeepsCallOK<Q(!new), I(!new), O(!new), X(!new)>(
    m: Machine<Q, I, O, X>, payload: seq<I>, v: nat, q: Q, i: nat, room: nat, eof: bool,
    read: nat, out: seq<O>, next: Q, c: CallResult<Q, O, X>)
    requires Faithful(m) && i + read <= v <= |payload| && |out| <= room
    requires m.weight(next) <= m.weight(q) + read
    requires Oracle(m, payload, q, i) == Prepend(out, Oracle(m, payload, next, i + read))
    requires CallOK(m, payload, v, next, i + read, room - |out|, eof, c)
    ensures CallOK(m, payload, v, q, i, room, eof, Resume(read, out, c))
  {
    if c.Stopped? {
      PrependNested(out, c.out, Oracle(m, payload, c.next, i + read + c.read));
      assert i + read + c.read == i + (read + c.read);
    }
  }

  /** Every call is a faithful piece of the oracle's run, whatever part of the payload it sees. */
  lemma {:induction false} CallFollowsOracle<Q(!new), I(!new), O(!new), X(!new)>(
    m: Machine<Q, I, O, X>, payload: seq<I>, v: nat, q: Q, i: nat, room: nat, eof: bool)
    requires Faithful(m) && i <= v <= |payload| && (eof ==> v == |payload|)
    ensures CallOK(m, payload, v, q, i, room, eof, Call(m, q, payload[..v], i, room, eof))
    decreases 2 * (v - i) + m.weight(q)
  {
    hide Unblocks;
    var visible := payload[..v];
    assert StepOK(m, payload, v, q, i, room, eof);
    match m.step(q, visible, i, room, eof)
    case Stop(_) =>
      PrependNested([], [], Oracle(m, payload, q, i));
    case Fail(_, _) =>
    case Go(read, out, next) =>
      CallFollowsOracle(m, payload, v, next, i + read, room - |out|, eof);
      ResumeKeepsCallOK(m, payload, v, q, i, room, eof, read, out, next,
                        Call(m, next, visible, i + read, room - |out|, eof));
  }

  /** Answering an output stop with the requested room settles at least one event, or proves that more input is
      needed first (never so for a tight machine). */
  lemma AnsweredStopPays<Q(!new), I(!new), O(!new), X(!new)>(
    m: Machine<Q, I, O, X>, payload: seq<I>, v: nat, q: Q, i: nat, eof: bool, required: nat, room: nat)
    requires Faithful(m) && i <= v <= |payload| && (eof ==> v == |payload|)
    requires Unblocks(m, payload, v, q, i, eof, required) && required <= room
    ensures var c := Call(m, q, payload[..v], i, room, eof);
            c.Stopped? ==>
              || (i + c.read <= v && Unsettled(m, payload, c.next, i + c.read) < Unsettled(m, payload, q, i))
              || (!m.tight && !eof && c.status.NeedInput? && c.read == 0 && c.next == q)
  {
    var visible := payload[..v];
    assert StepOK(m, visible, |visible|, q, i, room, eof) && visible[..|visible|] == visible;
    assert StepOK(m, payload, v, q, i, room, eof) && Open(m, payload, v, q, i, room, eof);
    match m.step(q, visible, i, room, eof)
    case Stop(_) =>
    case Fail(_, _) =>
    case Go(read, out, next) =>
      CallFollowsOracle(m, payload, v, next, i + read, room - |out|, eof);
  }

  // ---------------------------------------------------------------------------------------------------------
  // Drivers
  // ---------------------------------------------------------------------------------------------------------

  /** A driver between two calls.  `owed` is the room the last call asked for, 0 when it did not ask. */
  datatype Driver<+Q, +O> = Driver(
    q: Q, cursor: nat, visible: nat, eof: bool, owed: nat, delivered: seq<O>, calls: nat)

  /** One scheduling decision: the output window of the next call, how much more input a hungry machine gets, how
      much arrives unasked while the machine waits for output, and whether end of input is announced as soon as it is
      true. */
  datatype Choice = Choice(window: nat, grow: nat, extra: nat, announce: bool)

  datatype Turn<+Q, +O, +X> =
    | Running(driver: Driver<Q, O>)
    | Completed(delivered: seq<O>, final: Q, calls: nat)
    | Broken(delivered: seq<O>, spilled: seq<O>, error: X, after: Q, calls: nat)

  function Min(a: nat, b: nat): nat { if a <= b then a else b }

  function Max(a: nat, b: nat): nat { if a <= b then b else a }

  /** More input, or else end of input: the answer to `Complete` and `NeedInput`. */
  function Feed<Q, O>(d: Driver<Q, O>, total: nat, choice: Choice): Driver<Q, O>
    requires d.visible <= total
  {
    if d.visible < total then
      var v := Min(d.visible + choice.grow + 1, total);
      d.(visible := v, eof := v == total && choice.announce)
    else d.(eof := true)
  }

  /** What happens to the input while output is being drained: nothing, or more units, or end of input. */
  function Drift<Q, O>(d: Driver<Q, O>, total: nat, choice: Choice): Driver<Q, O>
    requires d.visible <= total
  {
    var v := Min(d.visible + choice.extra, total);
    d.(visible := v, eof := d.eof || (v == total && choice.announce))
  }

  /** The driver behind a call that stopped. */
  function Advanced<Q, O, X>(d: Driver<Q, O>, c: CallResult<Q, O, X>): Driver<Q, O>
    requires c.Stopped?
  {
    d.(q := c.next, cursor := d.cursor + c.read, delivered := d.delivered + c.out, calls := d.calls + 1)
  }

  /** How the driver reacts to the result of a call. */
  function React<Q, O, X>(d: Driver<Q, O>, total: nat, choice: Choice, c: CallResult<Q, O, X>): Turn<Q, O, X>
    requires d.visible <= total
  {
    match c
    case Failed(out, error, after) => Broken(d.delivered, out, error, after, d.calls + 1)
    case Stopped(status, read, out, next) =>
      var d' := Advanced(d, c);
      match status
      case NeedOutput(required) => Running(Drift(d'.(owed := required), total, choice))
      case _ =>
        if status == Complete && d.eof then Completed(d'.delivered, next, d'.calls)
        else Running(Feed(d'.(owed := 0), total, choice))
  }

  ghost function TakeTurn<Q(!new), I(!new), O(!new), X(!new)>(
    m: Machine<Q, I, O, X>, payload: seq<I>, d: Driver<Q, O>, choice: Choice): Turn<Q, O, X>
    requires Faithful(m) && d.cursor <= d.visible <= |payload|
  {
    var room := Max(d.owed, choice.window);
    React(d, |payload|, choice, Call(m, d.q, payload[..d.visible], d.cursor, room, d.eof))
  }

  /** Calls that `feeds` rounds of new input may cost: a machine that is not tight may stop twice in each but the
      first, before which there is nothing to stop at. */
  function Patience<Q, I, O, X>(m: Machine<Q, I, O, X>, feeds: nat): nat {
    if m.tight || feeds == 0 then feeds else 2 * feeds - 1
  }

  /** Upper bound on the calls of one stream of `n` units: `2n + 2` for a tight machine, `3n + 2` for any other. */
  function CallBound<Q, I, O, X>(m: Machine<Q, I, O, X>, n: nat): nat {
    n + Patience(m, n + 1) + 1
  }

  /** The invariant of every driver loop: what was delivered so far plus what is left is the oracle's outcome, and
      each call made so far has been paid for by settled events or by growth of the visible input.  Nothing is retained
      before the first unit is seen. */
  ghost predicate DriverOK<Q(!new), I(!new), O(!new), X(!new)>(
    m: Machine<Q, I, O, X>, payload: seq<I>, start: Q, d: Driver<Q, O>)
    requires Faithful(m)
  {
    && m.weight(start) == 0
    && d.cursor <= d.visible <= |payload|
    && (d.eof ==> d.visible == |payload|)
    && (d.visible == 0 ==> m.weight(d.q) == 0)
    && Oracle(m, payload, start, 0) == Prepend(d.delivered, Oracle(m, payload, d.q, d.cursor))
    && d.calls + Unsettled(m, payload, d.q, d.cursor)
       <= |payload| + Patience(m, d.visible + if d.eof then 1 else 0) + (if d.owed > 0 then 1 else 0)
    && (d.owed > 0 ==> Unblocks(m, payload, d.visible, d.q, d.cursor, d.eof, d.owed))
  }

  ghost predicate TurnOK<Q(!new), I(!new), O(!new), X(!new)>(
    m: Machine<Q, I, O, X>, payload: seq<I>, start: Q, t: Turn<Q, O, X>)
    requires Faithful(m)
  {
    match t
    case Running(d) => DriverOK(m, payload, start, d)
    case Completed(out, final, calls) =>
      Oracle(m, payload, start, 0) == Done(out, final) && calls <= CallBound(m, |payload|)
    case Broken(out, spilled, error, after, calls) =>
      Oracle(m, payload, start, 0) == Rejected(out + spilled, error, after) && calls <= CallBound(m, |payload|)
  }

  lemma FreshDriverOK<Q(!new), I(!new), O(!new), X(!new)>(
    m: Machine<Q, I, O, X>, payload: seq<I>, start: Q, visible: nat, eof: bool)
    requires Faithful(m) && m.weight(start) == 0 && visible <= |payload| && (eof ==> visible == |payload|)
    ensures DriverOK(m, payload, start, Driver(start, 0, visible, eof, 0, [], 0))
  {
    PrependNested([], [], Oracle(m, payload, start, 0));
  }

  /** The output stop that `d` has just answered, if any, was paid for during the call `c`. */
  ghost predicate Paid<Q(!new), I(!new), O(!new), X(!new)>(
    m: Machine<Q, I, O, X>, payload: seq<I>, d: Driver<Q, O>, c: CallResult<Q, O, X>)
  {
    d.owed > 0 && c.Stopped? ==>
      || Unsettled(m, payload, c.next, d.cursor + c.read) < Unsettled(m, payload, d.q, d.cursor)
      || (!m.tight && !d.eof && c.status.NeedInput?)
  }

  /** Input that arrives while output is being drained disturbs nothing. */
  lemma DriftKeepsInvariant<Q(!new), I(!new), O(!new), X(!new)>(
    m: Machine<Q, I, O, X>, payload: seq<I>, start: Q, d: Driver<Q, O>, choice: Choice)
    requires Faithful(m) && DriverOK(m, payload, start, d)
    ensures DriverOK(m, payload, start, Drift(d, |payload|, choice))
  {
    hide Oracle, Faithful, Pays, Open;
  }

  /** A good call that pays for the last output stop keeps the driver invariant. */
  lemma StopKeepsInvariant<Q(!new), I(!new), O(!new), X(!new)>(
    m: Machine<Q, I, O, X>, payload: seq<I>, start: Q, d: Driver<Q, O>, choice: Choice, room: nat,
    c: CallResult<Q, O, X>)
    requires Faithful(m) && DriverOK(m, payload, start, d) && c.Stopped?
    requires CallOK(m, payload, d.visible, d.q, d.cursor, room, d.eof, c) && Paid(m, payload, d, c)
    ensures TurnOK(m, payload, start, React(d, |payload|, choice, c))
  {
    hide Oracle, Faithful, Drift;
    PrependNested(d.delivered, c.out, Oracle(m, payload, c.next, d.cursor + c.read));
    if c.status.NeedOutput? {
      hide Unblocks;
      DriftKeepsInvariant(m, payload, start, Advanced(d, c).(owed := c.status.required), choice);
    } else if c.status == Complete && d.eof {
      FinalStop(m, payload, c.next);
    }
  }

  /** One turn of any driver keeps the driver invariant or ends the stream as the oracle does. */
  lemma ReactKeepsInvariant<Q(!new), I(!new), O(!new), X(!new)>(
    m: Machine<Q, I, O, X>, payload: seq<I>, start: Q, d: Driver<Q, O>, choice: Choice, room: nat)
    requires Faithful(m) && DriverOK(m, payload, start, d) && d.owed <= room
    ensures TurnOK(m, payload, start,
                   React(d, |payload|, choice, Call(m, d.q, payload[..d.visible], d.cursor, room, d.eof)))
  {
    var c := Call(m, d.q, payload[..d.visible], d.cursor, room, d.eof);
    CallFollowsOracle(m, payload, d.visible, d.q, d.cursor, room, d.eof);
    if d.owed > 0 {
      AnsweredStopPays(m, payload, d.visible, d.q, d.cursor, d.eof, d.owed, room);
    }
    if c.Stopped? {
      StopKeepsInvariant(m, payload, start, d, choice, room, c);
    }
  }

  /** At the end of the payload with nothing retained, the oracle has nothing left to do. */
  lemma FinalStop<Q(!new), I(!new), O(!new), X(!new)>(m: Machine<Q, I, O, X>, payload: seq<I>, q: Q)
    requires Faithful(m) && m.weight(q) == 0
    ensures Oracle(m, payload, q, |payload|) == Done([], q)
  {
    assert IdealOK(m, payload, q, |payload|);
  }

  /** A call at end of input that completes has produced the oracle's whole output. */
  lemma CompleteCallIsOracle<Q(!new), I(!new), O(!new), X(!new)>(
    m: Machine<Q, I, O, X>, payload: seq<I>, q: Q, i: nat, room: nat)
    requires Faithful(m) && i <= |payload|
    ensures var c := Call(m, q, payload, i, room, true);
            if c.Failed? then Oracle(m, payload, q, i) == Rejected(c.out, c.error, c.after)
            else c.status.Complete? ==>
                   && Oracle(m, payload, q, i) == Done(c.out, c.next)
                   && i + c.read == |payload| && m.weight(c.next) == 0
  {
    assert payload[..|payload|] == payload;
    CallFollowsOracle(m, payload, |payload|, q, i, room, true);
    var c := Call(m, q, payload, i, room, true);
    if c.Stopped? && c.status.Complete? {
      FinalStop(m, payload, c.next);
      assert c.out + [] == c.out;
    }
  }

  /** Runs the driver to the end; `strategy` may look at everything the driver knows. */
  ghost function Drive<Q(!new), I(!new), O(!new), X(!new)>(
    m: Machine<Q, I, O, X>, payload: seq<I>, start: Q, d: Driver<Q, O>, strategy: Driver<Q, O> -> Choice)
    : Turn<Q, O, X>
    requires Faithful(m) && DriverOK(m, payload, start, d)
    decreases CallBound(m, |payload|) - d.calls
  {
    var choice := strategy(d);
    var t := TakeTurn(m, payload, d, choice);
    ReactKeepsInvariant(m, payload, start, d, choice, Max(d.owed, choice.window));
    if t.Running? then
      WorkLeft(m, payload, start, t.driver);
      Drive(m, payload, start, t.driver, strategy)
    else t
  }

  /** One turn of a run. */
  lemma DriveUnfolds<Q(!new), I(!new), O(!new), X(!new)>(
    m: Machine<Q, I, O, X>, payload: seq<I>, start: Q, d: Driver<Q, O>, strategy: Driver<Q, O> -> Choice)
    requires Faithful(m) && DriverOK(m, payload, start, d)
    ensures var t := TakeTurn(m, payload, d, strategy(d));
            if t.Running? then
              && DriverOK(m, payload, start, t.driver) && t.driver.calls == d.calls + 1 <= CallBound(m, |payload|)
              && Drive(m, payload, start, d, strategy) == Drive(m, payload, start, t.driver, strategy)
            else Drive(m, payload, start, d, strategy) == t
  {
    var t := TakeTurn(m, payload, d, strategy(d));
    hide Call, Oracle, Faithful, DriverOK;
    ReactKeepsInvariant(m, payload, start, d, strategy(d), Max(d.owed, strategy(d).window));
    if t.Running? {
      WorkLeft(m, payload, start, t.driver);
    }
  }

  /** A running driver has not used up its calls. */
  lemma WorkLeft<Q(!new), I(!new), O(!new), X(!new)>(
    m: Machine<Q, I, O, X>, payload: seq<I>, start: Q, d: Driver<Q, O>)
    requires Faithful(m) && DriverOK(m, payload, start, d)
    ensures d.calls < CallBound(m, |payload|) + 1
  {
    assert Patience(m, d.visible + if d.eof then 1 else 0) <= Patience(m, |payload| + 1);
  }

  /** Schedule independence: whatever prefix is visible first and whatever the strategy decides, the stream ends
      within the call bound, delivers exactly the oracle's output and reaches the oracle's final state; or it fails
      with the oracle's error and state, having delivered all of the oracle's output except what the failing call
      had just written. */
  lemma {:induction false} ScheduleIndependence<Q(!new), I(!new), O(!new), X(!new)>(
    m: Machine<Q, I, O, X>, payload: seq<I>, start: Q, d: Driver<Q, O>, strategy: Driver<Q, O> -> Choice)
    requires Faithful(m) && DriverOK(m, payload, start, d)
    ensures var end := Drive(m, payload, start, d, strategy);
            match Oracle(m, payload, start, 0)
            case Done(out, final) =>
              end.Completed? && end.delivered == out && end.final == final && end.calls <= CallBound(m, |payload|)
            case Rejected(out, error, after) =>
              && end.Broken? && end.error == error && end.after == after
              && end.delivered + end.spilled == out && end.calls <= CallBound(m, |payload|)
    decreases CallBound(m, |payload|) - d.calls
  {
    var choice := strategy(d);
    var t := TakeTurn(m, payload, d, choice);
    ReactKeepsInvariant(m, payload, start, d, choice, Max(d.owed, choice.window));
    if t.Running? {
      WorkLeft(m, payload, start, t.driver);
      ScheduleIndependence(m, payload, start, t.driver, strategy);
    }
  }
}
