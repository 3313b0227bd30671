/** One Rust callback handed to a host dispatcher: calls of run, cancel and the finalizer interleave
    step by step, and the host may run the work often, late, never, or throw. */
module Dispatch {
  import opened Wrappers

  /** Where one call of the completion stands. */
  datatype Pc = Ready | Owning | Calling | Finished | Failed

  datatype Call = Call(execute: bool, pc: Pc)

  /** Where `TryDispatch` stands; `call` is the completion call it waits for. */
  datatype Phase =
    | NotCalled
    | Checking
    | Inline(call: nat)
    | Dispatching
    | Cancelling(call: nat)
    | ReturnedTrue
    | ReturnedFalse
    | Threw

  /** `armed` is the field that still holds the completion, `started` the invocations of it so far;
      `winner` remembers which call took it. */
  datatype State = State(armed: bool, suppressed: bool, finalized: bool, calls: seq<Call>, started: seq<bool>,
                         winner: Option<nat>, phase: Phase)

  datatype Answer = Yes | No | Throws

  datatype Step =
    | Begin(execute: bool)
    | Finalizer
    | Exchange(i: nat)
    | Suppress(i: nat)
    | Invoke(i: nat, throws: bool)
    | Dispatch
    | Access(answer: Answer)
    | InlineEnds
    | HostAnswers(answer: Answer)
    | CancelEnds

  const Initial: State := State(true, false, false, [], [], None, NotCalled)

  function AtPc(s: State, i: nat, pc: Pc): State
    requires i < |s.calls|
  {
    s.(calls := s.calls[i := s.calls[i].(pc := pc)])
  }

  function WithCall(s: State, execute: bool): State { s.(calls := s.calls + [Call(execute, Ready)]) }

  predicate Is(s: State, i: nat, pc: Pc) { i < |s.calls| && s.calls[i].pc == pc }

  function Cancel(s: State): State { WithCall(s, false).(phase := Cancelling(|s.calls|)) }

  /** One atomic step; none when it cannot happen. */
  function Next(s: State, step: Step): Option<State> {
    match step
    case Begin(execute) => Some(WithCall(s, execute))
    case Finalizer => if s.suppressed || s.finalized then None else Some(WithCall(s, false).(finalized := true))
    case Exchange(i) =>
      if !Is(s, i, Ready) then None
      else if s.armed then Some(AtPc(s, i, Owning).(armed := false, winner := Some(i)))
      else Some(AtPc(s, i, Finished))
    case Suppress(i) => if !Is(s, i, Owning) then None else Some(AtPc(s, i, Calling).(suppressed := true))
    case Invoke(i, throws) =>
      if !Is(s, i, Calling) then None
      else Some(AtPc(s, i, if throws then Failed else Finished).(started := s.started + [s.calls[i].execute]))
    case Dispatch => if s.phase.NotCalled? then Some(s.(phase := Checking)) else None
    case Access(answer) =>
      if !s.phase.Checking? then None
      else (match answer
            case Yes => Some(WithCall(s, true).(phase := Inline(|s.calls|)))
            case No => Some(s.(phase := Dispatching))
            case Throws => Some(Cancel(s)))
    case InlineEnds =>
      if !s.phase.Inline? then None
      else if Is(s, s.phase.call, Finished) then Some(s.(phase := ReturnedTrue))
      else if Is(s, s.phase.call, Failed) then Some(Cancel(s))
      else None
    case HostAnswers(answer) =>
      if !s.phase.Dispatching? then None
      else if answer.Yes? then Some(s.(phase := ReturnedTrue))
      else Some(Cancel(s))
    case CancelEnds =>
      if !s.phase.Cancelling? then None
      else if Is(s, s.phase.call, Finished) then Some(s.(phase := ReturnedFalse))
      else if Is(s, s.phase.call, Failed) then Some(s.(phase := Threw))
      else None
  }

  /** The state after a run of steps, if they can all happen. */
  function Play(s: State, steps: seq<Step>): Option<State>
    decreases |steps|
  {
    if steps == [] then Some(s)
    else
      var t := Next(s, steps[0]);
      if t.None? then None else Play(t.value, steps[1..])
  }

  function After(steps: seq<Step>): Option<State> { Play(Initial, steps) }

  lemma {:induction false} PlayConcat(s: State, a: seq<Step>, b: seq<Step>)
    ensures Play(s, a + b) == if Play(s, a).None? then None else Play(Play(s, a).value, b)
    decreases |a|
  {
    hide Next;
    if a == [] {
      assert a + b == b;
    } else {
      assert (a + b)[1..] == a[1..] + b;
      if Next(s, a[0]).Some? {
        PlayConcat(Next(s, a[0]).value, a[1..], b);
      }
    }
  }

  // ---- the invariant --------------------------------------------------------------------------

  /** The winning call has got at least to its invocation. */
  predicate WinnerIn(s: State, pcs: set<Pc>) {
    s.winner.Some? && s.winner.value < |s.calls| && s.calls[s.winner.value].pc in pcs
  }

  /** The completion is in one place: still in the field, with the call that took it, or started. */
  ghost predicate OnePlace(s: State) {
    && (s.armed <==> s.winner.None?)
    && (s.winner.Some? ==> WinnerIn(s, {Owning, Calling, Finished, Failed}))
    && (forall i :: 0 <= i < |s.calls| && s.calls[i].pc in {Owning, Calling, Failed} ==> s.winner == Some(i))
    && s.started == (if WinnerIn(s, {Finished, Failed}) then [s.calls[s.winner.value].execute] else [])
  }

  ghost predicate Consistent(s: State) {
    && (forall i :: 0 <= i < |s.calls| && !s.calls[i].pc.Ready? ==> !s.armed)
    && (s.suppressed <==> WinnerIn(s, {Calling, Finished, Failed}))
    && (s.phase.Inline? || s.phase.Cancelling? ==> s.phase.call < |s.calls|)
    && (s.phase.ReturnedFalse? || s.phase.Threw? ==> !s.armed)
    && (s.finalized ==> |s.calls| > 0)
  }

  ghost predicate Inv(s: State) { OnePlace(s) && Consistent(s) }

  lemma {:induction false} CallKeeps(s: State, t: State, execute: bool)
    requires Inv(s) && t.calls == s.calls + [Call(execute, Ready)]
    requires t == s.(calls := t.calls, phase := t.phase, finalized := t.finalized)
    ensures OnePlace(t)
    ensures !(t.phase.ReturnedFalse? || t.phase.Threw?) && (t.phase.Inline? || t.phase.Cancelling? ==>
        t.phase.call < |t.calls|)
        ==> Consistent(t)
    ensures t.phase == s.phase ==> Consistent(t)
  {
    assert forall i :: 0 <= i < |s.calls| ==> t.calls[i] == s.calls[i];
  }

  lemma {:induction false} ExchangeKeeps(s: State, i: nat)
    requires Inv(s) && Is(s, i, Ready)
    ensures Inv(Next(s, Exchange(i)).value)
  {
    var t := Next(s, Exchange(i)).value;
    assert forall j :: 0 <= j < |s.calls| && j != i ==> t.calls[j] == s.calls[j];
  }

  lemma {:induction false} SuppressKeeps(s: State, i: nat)
    requires Inv(s) && Is(s, i, Owning)
    ensures Inv(Next(s, Suppress(i)).value)
  {
    var t := Next(s, Suppress(i)).value;
    assert forall j :: 0 <= j < |s.calls| && j != i ==> t.calls[j] == s.calls[j];
  }

  lemma {:induction false} InvokeKeeps(s: State, i: nat, throws: bool)
    requires Inv(s) && Is(s, i, Calling)
    ensures Inv(Next(s, Invoke(i, throws)).value)
  {
    var t := Next(s, Invoke(i, throws)).value;
    assert forall j :: 0 <= j < |s.calls| && j != i ==> t.calls[j] == s.calls[j];
  }

  lemma {:induction false} PhaseKeeps(s: State, phase: Phase)
    requires Inv(s) && !phase.Inline? && !phase.Cancelling?
    requires phase in {ReturnedFalse, Threw} ==> !s.armed
    ensures Inv(s.(phase := phase))
  {}

  /** A completion call that has ended has found the field empty, or emptied it. */
  lemma {:induction false} EndedIsTaken(s: State, i: nat)
    requires Inv(s) && (Is(s, i, Finished) || Is(s, i, Failed))
    ensures !s.armed
  {}

  lemma {:induction false} StepKeepsInv(s: State, step: Step)
    requires Inv(s) && Next(s, step).Some?
    ensures Inv(Next(s, step).value)
  {
    hide OnePlace, Consistent;
    var t := Next(s, step).value;
    match step
    case Begin(execute) => CallKeeps(s, t, execute);
    case Finalizer => CallKeeps(s, t, false);
    case Exchange(i) => ExchangeKeeps(s, i);
    case Suppress(i) => SuppressKeeps(s, i);
    case Invoke(i, throws) => InvokeKeeps(s, i, throws);
    case Dispatch => PhaseKeeps(s, Checking);
    case Access(answer) =>
      if answer.No? {
        PhaseKeeps(s, Dispatching);
      } else {
        CallKeeps(s, t, answer.Yes?);
      }
    case InlineEnds =>
      if Is(s, s.phase.call, Finished) {
        PhaseKeeps(s, ReturnedTrue);
      } else {
        CallKeeps(s, t, false);
      }
    case HostAnswers(answer) =>
      if answer.Yes? {
        PhaseKeeps(s, ReturnedTrue);
      } else {
        CallKeeps(s, t, false);
      }
    case CancelEnds =>
      EndedIsTaken(s, s.phase.call);
      PhaseKeeps(s, t.phase);
  }

  lemma {:induction false} PlayKeepsInv(s: State, steps: seq<Step>)
    requires Inv(s) && Play(s, steps).Some?
    ensures Inv(Play(s, steps).value)
    decreases |steps|
  {
    hide Next, Inv;
    if steps != [] {
      StepKeepsInv(s, steps[0]);
      PlayKeepsInv(Next(s, steps[0]).value, steps[1..]);
    }
  }

  lemma {:induction false} RunKeepsInv(steps: seq<Step>)
    requires After(steps).Some?
    ensures Inv(After(steps).value)
  {
    hide Next, Inv, Play;
    InitialOk();
    PlayKeepsInv(Initial, steps);
  }

  lemma {:induction false} InitialOk()
    ensures Inv(Initial)
  {}

  // ---- over every interleaving ----------------------------------------------------------------

  ghost predicate Quiet(s: State) { forall i :: 0 <= i < |s.calls| ==> s.calls[i].pc in {Finished, Failed} }

  /** The completion is started at most once. */
  lemma {:induction false} StartedAtMostOnce(steps: seq<Step>)
    requires After(steps).Some?
    ensures |After(steps).value.started| <= 1
  {
    hide After, Next;
    RunKeepsInv(steps);
  }

  /** When `TryDispatch` has returned false, or thrown out of the completion, the callback has been taken;
      once all calls have ended it has been started exactly once. */
  lemma {:induction false} FalseMeansTaken(steps: seq<Step>)
    requires After(steps).Some? && After(steps).value.phase in {ReturnedFalse, Threw}
    ensures !After(steps).value.armed
    ensures Quiet(After(steps).value) ==> |After(steps).value.started| == 1
  {
    hide After, Next;
    RunKeepsInv(steps);
  }

  /** Likewise once the finalizer has run to its end. */
  lemma {:induction false} FinalizedMeansStarted(steps: seq<Step>)
    requires After(steps).Some? && After(steps).value.finalized && Quiet(After(steps).value)
    ensures |After(steps).value.started| == 1
  {
    hide After, Next;
    RunKeepsInv(steps);
    assert !After(steps).value.calls[0].pc.Ready?;
  }

  /** A callback nobody took is not lost: its finalizer is not suppressed and can still fire, unless it
      already has and its cancel is on its way. The finalizer is suppressed exactly by the call that took
      the callback, before the callback starts. */
  lemma {:induction false} UntakenCanBeFinalized(steps: seq<Step>)
    requires After(steps).Some?
    ensures var s := After(steps).value;
      && (s.armed ==> !s.suppressed)
      && (s.armed && !s.finalized ==> After(steps + [Finalizer]).Some?)
      && (s.started != [] ==> s.suppressed)
  {
    hide Next;
    RunKeepsInv(steps);
    PlayConcat(Initial, steps, [Finalizer]);
    FinalizerEnabled(After(steps).value);
  }

  lemma {:induction false} FinalizerEnabled(s: State)
    ensures !s.suppressed && !s.finalized ==> Next(s, Finalizer).Some?
  {}

  // ---- what "false" means ---------------------------------------------------------------------

  /** Step `k` of the run is the exchange of a call that was begun with `execute`. */
  ghost predicate ExchangesAs(steps: seq<Step>, k: nat, execute: bool) {
    && k < |steps| && steps[k].Exchange? && After(steps[..k]).Some?
    && var calls := After(steps[..k]).value.calls;
    && steps[k].i < |calls| && calls[steps[k].i].execute == execute
  }

  /** Some run exchanges before any cancel does. */
  ghost predicate RunBeforeCancel(steps: seq<Step>) {
    exists k :: 0 <= k < |steps| && ExchangesAs(steps, k, true) && forall j :: 0 <= j < k ==>
        !ExchangesAs(steps, j, false)
  }

  ghost predicate NoExchange(steps: seq<Step>) { forall k :: 0 <= k < |steps| ==> !steps[k].Exchange? }

  lemma {:induction false} StaysArmed(s: State, step: Step)
    requires s.armed && !step.Exchange? && Next(s, step).Some?
    ensures Next(s, step).value.armed
  {}

  /** Only an exchange takes the callback. */
  lemma {:induction false} NoExchangeKeepsArmed(s: State, steps: seq<Step>)
    requires s.armed && NoExchange(steps) && Play(s, steps).Some?
    ensures Play(s, steps).value.armed
    decreases |steps|
  {
    hide Next;
    if steps != [] {
      StaysArmed(s, steps[0]);
      NoExchangeKeepsArmed(Next(s, steps[0]).value, steps[1..]);
    }
  }

  /** Call `i`, begun with `execute`, has taken the callback. */
  ghost predicate TakenBy(s: State, i: nat, execute: bool) {
    !s.armed && s.winner == Some(i) && i < |s.calls| && s.calls[i].execute == execute
  }

  lemma {:induction false} TakerStep(s: State, step: Step, i: nat, execute: bool)
    requires TakenBy(s, i, execute) && Next(s, step).Some?
    ensures TakenBy(Next(s, step).value, i, execute)
  {}

  lemma {:induction false} TakerStays(s: State, steps: seq<Step>, i: nat, execute: bool)
    requires TakenBy(s, i, execute) && Play(s, steps).Some?
    ensures TakenBy(Play(s, steps).value, i, execute)
    decreases |steps|
  {
    hide Next, TakenBy;
    if steps != [] {
      TakerStep(s, steps[0], i, execute);
      TakerStays(Next(s, steps[0]).value, steps[1..], i, execute);
    }
  }

  lemma {:induction false} ArmedIsTaken(s: State, i: nat)
    requires s.armed && Next(s, Exchange(i)).Some?
    ensures i < |s.calls| && TakenBy(Next(s, Exchange(i)).value, i, s.calls[i].execute)
  {}

  lemma {:induction false} QuietTaker(s: State, i: nat, execute: bool)
    requires Inv(s) && Quiet(s) && TakenBy(s, i, execute)
    ensures s.started == [execute]
  {}

  /** The call of the first exchange decides: once all is quiet, the callback was started once, with the
      flag of that call. */
  lemma {:induction false} FirstExchangeDecides(before: seq<Step>, i: nat, later: seq<Step>)
    requires NoExchange(before)
    requires After(before + ([Exchange(i)] + later)).Some? && Quiet(After(before + ([Exchange(i)] + later)).value)
    ensures After(before).Some? && i < |After(before).value.calls|
    ensures After(before + ([Exchange(i)] + later)).value.started == [After(before).value.calls[i].execute]
  {
    hide Next, Inv, Quiet, TakenBy, NoExchange, Play;
    PlayConcat(Initial, before, [Exchange(i)] + later);
    var s := After(before).value;
    NoExchangeKeepsArmed(Initial, before);
    PlayConcat(s, [Exchange(i)], later);
    PlayOne(s, Exchange(i));
    ArmedIsTaken(s, i);
    TakerStays(Next(s, Exchange(i)).value, later, i, s.calls[i].execute);
    RunKeepsInv(before + ([Exchange(i)] + later));
    QuietTaker(After(before + ([Exchange(i)] + later)).value, i, s.calls[i].execute);
  }

  lemma {:induction false} PlayOne(s: State, step: Step)
    ensures Play(s, [step]) == Next(s, step)
  {
    hide Next;
    assert [step][1..] == [];
  }

  lemma {:induction false} FirstExchange(steps: seq<Step>) returns (k: nat)
    requires !NoExchange(steps)
    ensures k < |steps| && steps[k].Exchange? && NoExchange(steps[..k])
  {
    k := 0;
    while !steps[k].Exchange?
      invariant k < |steps| && NoExchange(steps[..k])
      decreases |steps| - k
    {
      if k + 1 == |steps| {
        assert NoExchange(steps);
        assert false;
      }
      k := k + 1;
    }
  }

  /** What a false answer means: the callback was executed exactly when a run exchanged before the first
      cancel did, and cancelled exactly when none did. */
  lemma {:induction false} FalseMeansCancelledExactly(steps: seq<Step>)
    requires After(steps).Some? && After(steps).value.phase.ReturnedFalse? && Quiet(After(steps).value)
    ensures After(steps).value.started == [true] <==> RunBeforeCancel(steps)
    ensures After(steps).value.started == [false] <==> !RunBeforeCancel(steps)
  {
    hide Next, Play, Quiet;
    FalseMeansTaken(steps);
    if NoExchange(steps) {
      NoExchangeKeepsArmed(Initial, steps);
      assert false;
    }
    var k := FirstExchange(steps);
    var i := steps[k].i;
    assert steps == steps[..k] + ([Exchange(i)] + steps[k + 1..]);
    FirstExchangeDecides(steps[..k], i, steps[k + 1..]);
    var execute := After(steps[..k]).value.calls[i].execute;
    assert ExchangesAs(steps, k, execute);
    forall j | 0 <= j < k ensures !ExchangesAs(steps, j, true) && !ExchangesAs(steps, j, false) {
      assert !steps[..k][j].Exchange?;
    }
  }

  /** If no run has begun when the cancel of a rejected dispatch takes its turn, it is never executed. */
  lemma {:induction false} RejectedBeforeAnyRun(before: seq<Step>, i: nat, later: seq<Step>)
    requires After(before).Some? && forall c :: c in After(before).value.calls ==> !c.execute
    requires Is(After(before).value, i, Ready)
    requires After(before + [Exchange(i)] + later).Some?
    ensures true !in After(before + [Exchange(i)] + later).value.started
  {
    hide Next, Inv, Is, Play, WonByCancel;
    var s := After(before).value;
    PlayConcat(Initial, before, [Exchange(i)] + later);
    assert before + ([Exchange(i)] + later) == before + [Exchange(i)] + later;
    RunKeepsInv(before);
    CancelWins(s, i, later);
    CancelWon(Play(s, [Exchange(i)] + later).value);
  }

  lemma {:induction false} CancelWins(s: State, i: nat, later: seq<Step>)
    requires Inv(s) && Is(s, i, Ready) && forall c :: c in s.calls ==> !c.execute
    requires Play(s, [Exchange(i)] + later).Some?
    ensures Inv(Play(s, [Exchange(i)] + later).value) && WonByCancel(Play(s, [Exchange(i)] + later).value)
  {
    hide Next, Inv, Is, WonByCancel;
    assert ([Exchange(i)] + later)[1..] == later;
    TakenByCancel(s, i);
    StepKeepsInv(s, Exchange(i));
    WinnerStays(Next(s, Exchange(i)).value, later);
  }

  ghost predicate WonByCancel(s: State) {
    s.winner.Some? && s.winner.value < |s.calls| && !s.calls[s.winner.value].execute
  }

  lemma {:induction false} CancelWon(s: State)
    requires Inv(s) && WonByCancel(s)
    ensures true !in s.started
  {}

  lemma {:induction false} TakenByCancel(s: State, i: nat)
    requires Inv(s) && Is(s, i, Ready) && forall c :: c in s.calls ==> !c.execute
    ensures Next(s, Exchange(i)).Some? && WonByCancel(Next(s, Exchange(i)).value)
  {}

  lemma {:induction false} WinnerStep(s: State, step: Step)
    requires Inv(s) && WonByCancel(s) && Next(s, step).Some?
    ensures WonByCancel(Next(s, step).value)
  {}

  lemma {:induction false} WinnerStays(s: State, later: seq<Step>)
    requires Inv(s) && WonByCancel(s) && Play(s, later).Some?
    ensures Inv(Play(s, later).value) && WonByCancel(Play(s, later).value)
    decreases |later|
  {
    hide Next, Inv, WonByCancel;
    if later != [] {
      StepKeepsInv(s, later[0]);
      WinnerStep(s, later[0]);
      WinnerStays(Next(s, later[0]).value, later[1..]);
    }
  }

  /** A host that runs the work and then rejects it gets false for a callback that was executed. */
  const RunThenReject: seq<Step> :=
    [Dispatch, Access(No), Begin(true), Exchange(0), Suppress(0), Invoke(0, false), HostAnswers(No), Exchange(1),
        CancelEnds]

  lemma {:induction false} StepTo(s: State, step: Step, rest: seq<Step>, t: State)
    requires Next(s, step) == Some(t)
    ensures Play(s, [step] + rest) == Play(t, rest)
  {
    hide Next;
    assert ([step] + rest)[1..] == rest;
  }

  const Offered: State := State(true, false, false, [Call(true, Ready)], [], None, Dispatching)
  const Taken: State := State(false, false, false, [Call(true, Owning)], [], Some(0), Dispatching)
  const Suppressed: State := State(false, true, false, [Call(true, Calling)], [], Some(0), Dispatching)
  const Executed: State := State(false, true, false, [Call(true, Finished)], [true], Some(0), Dispatching)
  const Rejected: State :=
    State(false, true, false, [Call(true, Finished), Call(false, Ready)], [true], Some(0), Cancelling(1))

  lemma {:induction false} HostRuns(rest: seq<Step>)
    ensures Play(Initial, [Dispatch] + ([Access(No)] + ([Begin(true)] + rest))) == Play(Offered, rest)
  {
    var checking, dispatching := Initial.(phase := Checking), Initial.(phase := Dispatching);
    assert [] + [Call(true, Ready)] == [Call(true, Ready)];
    StepTo(Initial, Dispatch, [Access(No)] + ([Begin(true)] + rest), checking);
    StepTo(checking, Access(No), [Begin(true)] + rest, dispatching);
    StepTo(dispatching, Begin(true), rest, Offered);
  }

  lemma {:induction false} WorkExecutes(rest: seq<Step>)
    ensures Play(Offered, [Exchange(0)] + ([Suppress(0)] + ([Invoke(0, false)] + rest))) == Play(Executed, rest)
  {
    assert Offered.calls[0 := Call(true, Owning)] == Taken.calls;
    assert Taken.calls[0 := Call(true, Calling)] == Suppressed.calls;
    assert Suppressed.calls[0 := Call(true, Finished)] == Executed.calls && [] + [true] == [true];
    assert Suppressed.started + [true] == Executed.started;
    StepTo(Offered, Exchange(0), [Suppress(0)] + ([Invoke(0, false)] + rest), Taken);
    StepTo(Taken, Suppress(0), [Invoke(0, false)] + rest, Suppressed);
    StepTo(Suppressed, Invoke(0, false), rest, Executed);
  }

  lemma {:induction false} HostRejects()
    ensures Play(Executed, [HostAnswers(No)] + ([Exchange(1)] + ([CancelEnds] + []))).Some?
    ensures var s := Play(Executed, [HostAnswers(No)] + ([Exchange(1)] + ([CancelEnds] + []))).value;
      s.phase.ReturnedFalse? && s.started == [true]
  {
    var ended := Rejected.(calls := [Call(true, Finished), Call(false, Finished)]);
    assert Executed.calls + [Call(false, Ready)] == Rejected.calls;
    assert Rejected.calls[1 := Call(false, Finished)] == ended.calls;
    StepTo(Executed, HostAnswers(No), [Exchange(1)] + ([CancelEnds] + []), Rejected);
    StepTo(Rejected, Exchange(1), [CancelEnds] + [], ended);
    StepTo(ended, CancelEnds, [], ended.(phase := ReturnedFalse));
  }

  lemma {:induction false} FalseAfterExecution()
    ensures After(RunThenReject).Some?
    ensures After(RunThenReject).value.phase.ReturnedFalse? && After(RunThenReject).value.started == [true]
  {
    hide Next, Play;
    var reject := [HostAnswers(No)] + ([Exchange(1)] + ([CancelEnds] + []));
    var execute := [Exchange(0)] + ([Suppress(0)] + ([Invoke(0, false)] + reject));
    HostRuns(execute);
    WorkExecutes(reject);
    HostRejects();
    assert RunThenReject == [Dispatch] + ([Access(No)] + ([Begin(true)] + execute));
  }

  // ---- the object, uninterrupted --------------------------------------------------------------

  /** A completion call whose steps nobody interrupts. */
  function Uninterrupted(s: State, execute: bool, throws: bool): State {
    var i := |s.calls|;
    var ready := WithCall(s, execute);
    if !s.armed then AtPc(ready, i, Finished)
    else
      AtPc(ready, i, if throws then Failed else Finished)
        .(armed := false, suppressed := true, winner := Some(i), started := s.started + [execute])
  }

  lemma {:induction false} UninterruptedIsARun(s: State, execute: bool, throws: bool)
    ensures var i, a := |s.calls|, Next(s, Begin(execute)).value;
      var b := Next(a, Exchange(i));
      && b.Some?
      && if s.armed then
           && Next(b.value, Suppress(i)).Some?
           && Next(Next(b.value, Suppress(i)).value, Invoke(i, throws)) == Some(Uninterrupted(s, execute, throws))
         else b == Some(Uninterrupted(s, execute, throws))
  {
    var i, a := |s.calls|, Next(s, Begin(execute)).value;
    var b := Next(a, Exchange(i)).value;
    if s.armed {
      var c := Next(b, Suppress(i)).value;
      var d := Next(c, Invoke(i, throws)).value;
      assert d.calls == Uninterrupted(s, execute, throws).calls;
    }
  }

  /** The steps of such a call once it has begun. */
  function CallSteps(i: nat, armed: bool, throws: bool): seq<Step> {
    if armed then [Exchange(i), Suppress(i), Invoke(i, throws)] else [Exchange(i)]
  }

  lemma {:induction false} CallRuns(s: State, execute: bool, throws: bool)
    ensures Play(WithCall(s, execute), CallSteps(|s.calls|, s.armed, throws)) == Some(Uninterrupted(s, execute, throws))
  {
    UninterruptedIsARun(s, execute, throws);
    var i, a := |s.calls|, WithCall(s, execute);
    var b := Next(a, Exchange(i)).value;
    PlayOne(a, Exchange(i));
    if s.armed {
      var c := Next(b, Suppress(i)).value;
      hide Next;
      assert [Exchange(i), Suppress(i), Invoke(i, throws)][1..] == [Suppress(i), Invoke(i, throws)];
      assert [Suppress(i), Invoke(i, throws)][1..] == [Invoke(i, throws)];
      PlayOne(c, Invoke(i, throws));
    }
  }

  /** The finalizer can run exactly once, and not after it has been suppressed. */
  lemma {:induction false} FinalizerRunsOnce(s: State)
    ensures Next(s, Finalizer).Some? <==> !s.suppressed && !s.finalized
    ensures Next(s, Finalizer).Some? ==> Next(s, Finalizer).value == WithCall(s, false).(finalized := true)
  {}

  /** The dispatch is called at most once. */
  lemma {:induction false} DispatchedOnce(s: State)
    ensures Next(s, Step.Dispatch).Some? <==> s.phase.NotCalled?
  {}

  lemma {:induction false} PlayFurther(s: State, steps: seq<Step>, more: seq<Step>, t: State)
    requires Play(s, steps) == Some(t)
    ensures Play(s, steps + more) == Play(t, more)
  {
    hide Next;
    PlayConcat(s, steps, more);
  }

  /** The steps of `TryDispatch` up to its answer or its cancellation. */
  function Asked(access: Answer, host: Answer, armed: bool, throws: bool, n: nat): seq<Step> {
    [Step.Dispatch] + [Access(access)]
      + match access
        case Yes => CallSteps(n, armed, throws) + [InlineEnds]
        case No => [HostAnswers(host)]
        case Throws => []
  }

  function Cancelled(s: State, throws: bool): seq<Step> { CallSteps(|s.calls|, s.armed, throws) + [CancelEnds] }

  lemma {:induction false} UninterruptedIs(s: State, execute: bool, throws: bool)
    ensures var t := Uninterrupted(s, execute, throws);
      && |t.calls| == |s.calls| + 1 && !t.armed && t.phase == s.phase
      && t.calls[|s.calls|].pc == (if s.armed && throws then Failed else Finished)
      && t.started == s.started + if s.armed then [execute] else []
  {}

  lemma {:induction false} InlineRuns(s: State, throws: bool)
    requires s.phase.Checking?
    ensures var n := |s.calls|; var t := Uninterrupted(s.(phase := Inline(n)), true, throws);
      Play(s, [Access(Yes)] + (CallSteps(n, s.armed, throws) + [InlineEnds]))
        == Some(if s.armed && throws then Cancel(t) else t.(phase := ReturnedTrue))
  {
    var n := |s.calls|;
    var inline := s.(phase := Inline(n));
    var t := Uninterrupted(inline, true, throws);
    UninterruptedIs(inline, true, throws);
    assert Next(s, Access(Yes)) == Some(WithCall(inline, true));
    assert Next(t, InlineEnds) == Some(if s.armed && throws then Cancel(t) else t.(phase := ReturnedTrue));
    hide Next, Cancel, Uninterrupted, CallSteps, WithCall, Play;
    PlayOne(s, Access(Yes));
    CallRuns(inline, true, throws);
    PlayOne(t, InlineEnds);
    PlayFurther(WithCall(inline, true), CallSteps(n, s.armed, throws), [InlineEnds], t);
    PlayFurther(s, [Access(Yes)], CallSteps(n, s.armed, throws) + [InlineEnds], WithCall(inline, true));
  }

  /** Up to the point where the dispatcher's answer is known, and either returned or followed by a
      cancellation. */
  lemma {:induction false} AskedRuns(s: State, access: Answer, host: Answer, throws: bool)
    requires s.phase.NotCalled?
    ensures var inline := Uninterrupted(s.(phase := Inline(|s.calls|)), true, throws);
      Play(s, Asked(access, host, s.armed, throws, |s.calls|)) == Some(
        if access.Yes? then (if s.armed && throws then Cancel(inline) else inline.(phase := ReturnedTrue))
        else if access.No? && host.Yes? then s.(phase := ReturnedTrue)
        else Cancel(s))
  {
    var checking, n := s.(phase := Checking), |s.calls|;
    assert Next(s, Step.Dispatch) == Some(checking);
    PlayOne(s, Step.Dispatch);
    match access
    case Yes =>
      InlineRuns(checking, throws);
      assert checking.(phase := Inline(n)) == s.(phase := Inline(n));
      hide Next, Cancel, Uninterrupted, CallSteps, Play;
      PlayFurther(s, [Step.Dispatch], [Access(Yes)] + (CallSteps(n, s.armed, throws) + [InlineEnds]), checking);
      assert [Step.Dispatch] + [Access(Yes)] + (CallSteps(n, s.armed, throws) + [InlineEnds])
          == [Step.Dispatch] + ([Access(Yes)] + (CallSteps(n, s.armed, throws) + [InlineEnds]));
    case No =>
      var asking := s.(phase := Dispatching);
      assert Next(checking, Access(No)) == Some(asking);
      assert Next(asking, HostAnswers(host)) == Some(if host.Yes? then s.(phase := ReturnedTrue) else Cancel(s));
      hide Next, Cancel, Play;
      PlayOne(checking, Access(No));
      PlayOne(asking, HostAnswers(host));
      PlayFurther(s, [Step.Dispatch], [Access(No)], checking);
      PlayFurther(s, [Step.Dispatch] + [Access(No)], [HostAnswers(host)], asking);
    case Throws =>
      assert Next(checking, Access(Throws)) == Some(Cancel(s));
      hide Next, Cancel, Play;
      PlayOne(checking, Access(Throws));
      PlayFurther(s, [Step.Dispatch], [Access(Throws)], checking);
      assert [Step.Dispatch] + [Access(Throws)] + [] == [Step.Dispatch] + [Access(Throws)];
  }

  lemma {:induction false} CancelRuns(s: State, throws: bool)
    ensures Play(Cancel(s), Cancelled(s, throws))
         == Some(Uninterrupted(s, false, throws).(phase := if s.armed && throws then Threw else ReturnedFalse))
  {
    var cancelling := s.(phase := Cancelling(|s.calls|));
    var t := Uninterrupted(cancelling, false, throws);
    UninterruptedIs(cancelling, false, throws);
    assert Cancel(s) == WithCall(cancelling, false);
    assert Next(t, CancelEnds) == Some(t.(phase := if s.armed && throws then Threw else ReturnedFalse));
    assert t.(phase := if s.armed && throws then Threw else ReturnedFalse)
        == Uninterrupted(s, false, throws).(phase := if s.armed && throws then Threw else ReturnedFalse);
    hide Next, Cancel, Uninterrupted, CallSteps, WithCall, Play;
    CallRuns(cancelling, false, throws);
    PlayOne(t, CancelEnds);
    PlayFurther(WithCall(cancelling, false), CallSteps(|s.calls|, s.armed, throws), [CancelEnds], t);
  }

  class RustDispatchWork {
    var complete: bool
    var finalizerSuppressed: bool
    var finalizerRan: bool
    ghost var calls: seq<Call>
    ghost var started: seq<bool>
    ghost var winner: Option<nat>

    constructor ()
      ensures S(NotCalled) == Initial
    {
      complete, finalizerSuppressed, finalizerRan := true, false, false;
      calls, started, winner := [], [], None;
    }

    ghost function S(phase: Phase): State
      reads this
    {
      State(complete, finalizerSuppressed, finalizerRan, calls, started, winner, phase)
    }

    /** `Interlocked.Exchange(ref _complete, null)`. */
    method ExchangeComplete() returns (taken: bool)
      modifies this`complete
      ensures taken == old(complete) && !complete
    {
      taken := complete;
      complete := false;
    }

    /** `Complete`, when no other call interleaves; `throws` is what the completion does. */
    method Complete(execute: bool, throws: bool) returns (threw: bool)
      modifies this
      ensures threw == (old(complete) && throws)
      ensures forall phase :: S(phase) == Uninterrupted(old(S(phase)), execute, throws)
    {
      ghost var i := |calls|;
      calls := calls + [Call(execute, Ready)];
      var taken := ExchangeComplete();
      if !taken {
        calls := calls[i := Call(execute, Finished)];
        return false;
      }
      winner := Some(i);
      finalizerSuppressed := true;
      started := started + [execute];
      calls := calls[i := Call(execute, if throws then Failed else Finished)];
      threw := throws;
    }

    /** The finalizer, when no other call interleaves. */
    method Finalize(throws: bool)
      requires !finalizerSuppressed && !finalizerRan
      modifies this
      ensures forall phase ::
        Play(old(S(phase)), [Step.Finalizer] + CallSteps(|old(calls)|, old(complete), throws)) == Some(S(phase))
    {
      finalizerRan := true;
      ghost var n := |calls|;
      var threw := Complete(false, throws);
      forall phase
        ensures Play(old(S(phase)), [Step.Finalizer] + CallSteps(n, old(complete), throws)) == Some(S(phase))
      {
        var s := old(S(phase));
        CallRuns(s.(finalized := true), false, throws);
        PlayOne(s, Step.Finalizer);
        PlayFurther(s, [Step.Finalizer], CallSteps(n, s.armed, throws), WithCall(s, false).(finalized := true));
      }
    }

    /** `TryDispatch`, when nothing interleaves: what the dispatcher answers decides whether the work runs
        here, is queued, or is cancelled; an exception of the work run here is not passed on. */
    method TryDispatch(access: Answer, host: Answer, throws: bool) returns (phase: Phase, ghost steps: seq<Step>)
      modifies this
      ensures Play(old(S(NotCalled)), steps) == Some(S(phase))
      ensures phase ==
        if access.Yes? then (if old(complete) && throws then ReturnedFalse else ReturnedTrue)
        else if access.No? && host.Yes? then ReturnedTrue
        else if old(complete) && throws then Threw
        else ReturnedFalse
      ensures access.Yes? ==> started == old(started) + if old(complete) then [true] else []
      ensures !access.Yes? ==> started == old(started) + if old(complete) && !phase.ReturnedTrue? then [false] else []
    {
      hide Play, Next, CallSteps, Cancel, Uninterrupted;
      ghost var s0 := S(NotCalled);
      ghost var rejected := s0;
      steps := Asked(access, host, complete, throws, |calls|);
      AskedRuns(s0, access, host, throws);
      if access.Yes? {
        ghost var n := |calls|;
        assert S(Inline(n)) == s0.(phase := Inline(n));
        UninterruptedIs(s0.(phase := Inline(n)), true, throws);
        rejected := Uninterrupted(s0.(phase := Inline(n)), true, throws);
        var threw := Complete(true, throws);
        assert S(Inline(n)) == rejected && S(ReturnedTrue) == S(Inline(n)).(phase := ReturnedTrue);
        if !threw {
          return ReturnedTrue, steps;
        }
      } else if access.No? && host.Yes? {
        return ReturnedTrue, steps;
      }
      ghost var wasArmed := complete;
      CancelRuns(rejected, throws);
      PlayFurther(s0, steps, Cancelled(rejected, throws), Cancel(rejected));
      steps := steps + Cancelled(rejected, throws);
      UninterruptedIs(rejected, false, throws);
      var threw := Complete(false, throws);
      phase := if threw then Threw else ReturnedFalse;
    }
  }
}
