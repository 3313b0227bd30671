/** The lease of one Rust stream and its single-consumer adapter: release calls, consumers, the
    enumerator and the finalizer interleave step by step. */
module StreamLease {
  import opened Wrappers

  /** Where one call of `Release` stands: before the exchange, holding the callback, after the callback
      but before the finalizer is suppressed, or over. */
  datatype Pc = Ready | Owning | Released | Finished | Failed

  /** Who called: an end of the enumeration, or somebody else. The release after the last element is made
      inside the `try` of `MoveNextAsync`, so that its exception is caught there. */
  datatype Cause = LastElement | EnumerationEnded | Finalizing | Direct

  /** `retried` says that the handler of `MoveNextAsync` has caught the exception of this call. */
  datatype Call = Call(cause: Cause, pc: Pc, retried: bool)

  /** Where one call of `GetAsyncEnumerator` stands. */
  datatype Consumer = Asking | Opening | Refused | Enumerating | Releasing(call: nat) | Broken

  datatype State = State(armed: bool, suppressed: bool, finalized: bool, calls: seq<Call>, invoked: nat,
                         winner: Option<nat>, started: bool, consumers: seq<Consumer>, owner: Option<nat>)

  datatype Step =
    | Ask
    | Start(c: nat)
    | Open(c: nat, throws: bool)
    | OpenReleased(c: nat)
    | MoveNext(moved: bool, throws: bool)
    | Retry(i: nat)
    | Dispose
    | CallRelease
    | Finalizer
    | Exchange(i: nat)
    | Invoke(i: nat, throws: bool)
    | Suppress(i: nat)

  const Initial: State := State(true, false, false, [], 0, None, false, [], None)

  predicate Is(s: State, i: nat, pc: Pc) { i < |s.calls| && s.calls[i].pc == pc }

  function AtPc(s: State, i: nat, pc: Pc): State
    requires i < |s.calls|
  {
    s.(calls := s.calls[i := s.calls[i].(pc := pc)])
  }

  function WithCall(s: State, cause: Cause): State { s.(calls := s.calls + [Call(cause, Ready, false)]) }

  predicate ConsumerIs(s: State, c: nat, k: Consumer) { c < |s.consumers| && s.consumers[c] == k }

  /** An enumerator has been handed out. */
  predicate HasEnumerator(s: State) { s.owner.Some? && ConsumerIs(s, s.owner.value, Enumerating) }

  /** One atomic step; none when it cannot happen. */
  function Next(s: State, step: Step): Option<State> {
    match step
    case Ask => Some(s.(consumers := s.consumers + [Asking]))
    case Start(c) =>
      if !ConsumerIs(s, c, Asking) then None
      else if s.started then Some(s.(consumers := s.consumers[c := Refused]))
      else Some(s.(consumers := s.consumers[c := Opening], started := true, owner := Some(c)))
    case Open(c, throws) =>
      if !ConsumerIs(s, c, Opening) then None
      else if throws then Some(WithCall(s, EnumerationEnded).(consumers := s.consumers[c := Releasing(|s.calls|)]))
      else Some(s.(consumers := s.consumers[c := Enumerating]))
    case OpenReleased(c) =>
      if c < |s.consumers| && s.consumers[c].Releasing?
         && (Is(s, s.consumers[c].call, Finished) || Is(s, s.consumers[c].call, Failed))
      then Some(s.(consumers := s.consumers[c := Broken])) else None
    case MoveNext(moved, throws) =>
      if !HasEnumerator(s) then None
      else if throws then Some(WithCall(s, EnumerationEnded))
      else if moved then Some(s)
      else Some(WithCall(s, LastElement))
    case Retry(i) =>
      if Is(s, i, Failed) && s.calls[i].cause == LastElement && !s.calls[i].retried then
        Some(WithCall(s.(calls := s.calls[i := s.calls[i].(retried := true)]), EnumerationEnded))
      else None
    case Dispose => if HasEnumerator(s) then Some(WithCall(s, EnumerationEnded)) else None
    case CallRelease => Some(WithCall(s, Direct))
    case Finalizer => if s.suppressed || s.finalized then None else Some(WithCall(s, Finalizing).(finalized := true))
    case Exchange(i) =>
      if !Is(s, i, Ready) then None
      else if s.armed then Some(AtPc(s, i, Owning).(armed := false, winner := Some(i)))
      else Some(AtPc(s, i, Finished))
    case Invoke(i, throws) =>
      if !Is(s, i, Owning) then None
      else Some(AtPc(s, i, if throws then Failed else Released).(invoked := s.invoked + 1))
    case Suppress(i) => if Is(s, i, Released) then Some(AtPc(s, i, Finished).(suppressed := true)) else None
  }

  /** The state after a run of steps, if they can all happen. */
  function Play(s: State, steps: seq<Step>): Option<State>
    decreases |steps|
  {
    if steps == [] then Some(s)
    else
      var t := Next(s, steps[0]);
      if t.None? then None else Play(t.value, steps[1..])
  }

  function After(steps: seq<Step>): Option<State> { Play(Initial, steps) }

  // ---- the invariant --------------------------------------------------------------------------

  predicate WinnerIn(s: State, pcs: set<Pc>) {
    s.winner.Some? && s.winner.value < |s.calls| && s.calls[s.winner.value].pc in pcs
  }

  /** The callback is in one place: still in the field, with the call that took it, or invoked once. */
  ghost predicate OnePlace(s: State) {
    && (s.armed <==> s.winner.None?)
    && (s.winner.Some? ==> WinnerIn(s, {Owning, Released, Finished, Failed}))
    && (forall i :: 0 <= i < |s.calls| && s.calls[i].pc in {Owning, Released, Failed} ==> s.winner == Some(i))
    && (forall i :: 0 <= i < |s.calls| && !s.calls[i].pc.Ready? ==> !s.armed)
    && s.invoked == (if WinnerIn(s, {Released, Finished, Failed}) then 1 else 0)
    && (s.suppressed <==> WinnerIn(s, {Finished}))
    && (s.finalized ==> exists i :: 0 <= i < |s.calls| && s.calls[i].cause == Finalizing)
    && (forall i :: 0 <= i < |s.calls| && s.calls[i].cause == Finalizing ==> s.finalized)
  }

  /** At most one consumer has passed the gate. */
  ghost predicate OneConsumer(s: State) {
    && (s.started <==> s.owner.Some?)
    && (s.owner.Some? ==> s.owner.value < |s.consumers|)
    && (forall c :: 0 <= c < |s.consumers| && !s.consumers[c].Asking? && !s.consumers[c].Refused? ==>
        s.owner == Some(c))
    && (forall c :: 0 <= c < |s.consumers| && s.consumers[c].Refused? ==> s.started)
    && (forall c :: 0 <= c < |s.consumers| && s.consumers[c].Releasing? ==> s.consumers[c].call < |s.calls|)
    && (forall c :: 0 <= c < |s.consumers| && s.consumers[c].Broken? ==> !s.armed)
  }

  ghost predicate Inv(s: State) { OnePlace(s) && OneConsumer(s) }

  lemma {:induction false} CallKeeps(s: State, cause: Cause, finalized: bool)
    requires OnePlace(s) && finalized == (s.finalized || cause == Finalizing)
    ensures OnePlace(WithCall(s, cause).(finalized := finalized))
  {
    var t := WithCall(s, cause).(finalized := finalized);
    assert forall i :: 0 <= i < |s.calls| ==> t.calls[i] == s.calls[i];
    assert t.calls[|s.calls|].cause == cause;
  }

  lemma {:induction false} ExchangeKeeps(s: State, i: nat)
    requires OnePlace(s) && Is(s, i, Ready)
    ensures OnePlace(Next(s, Exchange(i)).value)
  {
    var t := Next(s, Exchange(i)).value;
    assert forall j :: 0 <= j < |s.calls| ==> t.calls[j].cause == s.calls[j].cause;
  }

  lemma {:induction false} InvokeKeeps(s: State, i: nat, throws: bool)
    requires OnePlace(s) && Is(s, i, Owning)
    ensures OnePlace(Next(s, Invoke(i, throws)).value)
  {
    var t := Next(s, Invoke(i, throws)).value;
    assert forall j :: 0 <= j < |s.calls| ==> t.calls[j].cause == s.calls[j].cause;
  }

  lemma {:induction false} SuppressKeeps(s: State, i: nat)
    requires OnePlace(s) && Is(s, i, Released)
    ensures OnePlace(Next(s, Suppress(i)).value)
  {
    var t := Next(s, Suppress(i)).value;
    assert forall j :: 0 <= j < |s.calls| ==> t.calls[j].cause == s.calls[j].cause;
  }

  /** Consumers do not hold the callback. */
  lemma {:induction false} ConsumersApart(s: State, consumers: seq<Consumer>, started: bool, owner: Option<nat>)
    requires OnePlace(s)
    ensures OnePlace(s.(consumers := consumers, started := started, owner := owner))
  {}

  lemma {:induction false} RetriedKeeps(s: State, i: nat)
    requires OnePlace(s) && i < |s.calls|
    ensures OnePlace(s.(calls := s.calls[i := s.calls[i].(retried := true)]))
  {
    var t := s.(calls := s.calls[i := s.calls[i].(retried := true)]);
    assert forall j :: 0 <= j < |s.calls| ==> t.calls[j].pc == s.calls[j].pc && t.calls[j].cause == s.calls[j].cause;
  }

  lemma {:induction false} RetryKeeps(s: State, i: nat)
    requires OnePlace(s) && Next(s, Retry(i)).Some?
    ensures OnePlace(Next(s, Retry(i)).value)
  {
    hide OnePlace;
    RetriedKeeps(s, i);
    CallKeeps(s.(calls := s.calls[i := s.calls[i].(retried := true)]), EnumerationEnded, s.finalized);
  }

  lemma {:induction false} OpeningKeeps(s: State, c: nat, throws: bool)
    requires OnePlace(s) && Next(s, Open(c, throws)).Some?
    ensures OnePlace(Next(s, Open(c, throws)).value)
  {
    hide OnePlace;
    var t := Next(s, Open(c, throws)).value;
    CallKeeps(s, EnumerationEnded, s.finalized);
    ConsumersApart(if throws then WithCall(s, EnumerationEnded) else s, t.consumers, t.started, t.owner);
  }

  lemma {:induction false} StepKeepsOnePlace(s: State, step: Step)
    requires OnePlace(s) && Next(s, step).Some?
    ensures OnePlace(Next(s, step).value)
  {
    hide HasEnumerator, ConsumerIs, OnePlace;
    var t := Next(s, step).value;
    match step
    case Exchange(i) => ExchangeKeeps(s, i);
    case Invoke(i, throws) => InvokeKeeps(s, i, throws);
    case Suppress(i) => SuppressKeeps(s, i);
    case Retry(i) => RetryKeeps(s, i);
    case Open(c, throws) => OpeningKeeps(s, c, throws);
    case Finalizer => CallKeeps(s, Finalizing, true);
    case CallRelease => CallKeeps(s, Direct, s.finalized);
    case Dispose => CallKeeps(s, EnumerationEnded, s.finalized);
    case MoveNext(moved, throws) =>
      if throws || !moved {
        CallKeeps(s, if throws then EnumerationEnded else LastElement, s.finalized);
      }
    case _ => ConsumersApart(s, t.consumers, t.started, t.owner);
  }

  lemma {:induction false} ConsumersKeep(s: State, t: State)
    requires OneConsumer(s) && t.consumers == s.consumers && t.started == s.started && t.owner == s.owner
    requires |s.calls| <= |t.calls| && (t.armed ==> s.armed)
    ensures OneConsumer(t)
  {}

  /** A release call that is over has found the field empty, or emptied it. */
  lemma {:induction false} EndedIsTaken(s: State, i: nat)
    requires OnePlace(s) && (Is(s, i, Finished) || Is(s, i, Failed))
    ensures !s.armed
  {}

  lemma {:induction false} AskKeeps(s: State)
    requires OneConsumer(s)
    ensures OneConsumer(Next(s, Ask).value)
  {}

  lemma {:induction false} StartKeeps(s: State, c: nat)
    requires OneConsumer(s) && Next(s, Start(c)).Some?
    ensures OneConsumer(Next(s, Start(c)).value)
  {}

  lemma {:induction false} OpenKeeps(s: State, c: nat, throws: bool)
    requires OneConsumer(s) && Next(s, Open(c, throws)).Some?
    ensures OneConsumer(Next(s, Open(c, throws)).value)
  {}

  lemma {:induction false} OpenReleasedKeeps(s: State, c: nat)
    requires OneConsumer(s) && Next(s, OpenReleased(c)).Some? && !s.armed
    ensures OneConsumer(Next(s, OpenReleased(c)).value)
  {}

  lemma {:induction false} ConsumerStepKeeps(s: State, step: Step)
    requires Inv(s) && Next(s, step).Some? && (step.Ask? || step.Start? || step.Open? || step.OpenReleased?)
    ensures OneConsumer(Next(s, step).value)
  {
    hide OnePlace, OneConsumer, Is;
    match step
    case Ask => AskKeeps(s);
    case Start(c) => StartKeeps(s, c);
    case Open(c, throws) => OpenKeeps(s, c, throws);
    case OpenReleased(c) =>
      EndedIsTaken(s, s.consumers[c].call);
      OpenReleasedKeeps(s, c);
  }

  lemma {:induction false} StepKeepsInv(s: State, step: Step)
    requires Inv(s) && Next(s, step).Some?
    ensures Inv(Next(s, step).value)
  {
    hide OnePlace, OneConsumer;
    StepKeepsOnePlace(s, step);
    if step.Ask? || step.Start? || step.Open? || step.OpenReleased? {
      ConsumerStepKeeps(s, step);
    } else {
      ConsumersKeep(s, Next(s, step).value);
    }
  }

  lemma {:induction false} PlayKeepsInv(s: State, steps: seq<Step>)
    requires Inv(s) && Play(s, steps).Some?
    ensures Inv(Play(s, steps).value)
    decreases |steps|
  {
    hide Next, Inv;
    if steps != [] {
      StepKeepsInv(s, steps[0]);
      PlayKeepsInv(Next(s, steps[0]).value, steps[1..]);
    }
  }

  lemma {:induction false} InitialOk()
    ensures Inv(Initial)
  {}

  lemma {:induction false} RunKeepsInv(steps: seq<Step>)
    requires After(steps).Some?
    ensures Inv(After(steps).value)
  {
    hide Next, Inv, Play;
    InitialOk();
    PlayKeepsInv(Initial, steps);
  }

  // ---- over every interleaving ----------------------------------------------------------------

  ghost predicate Quiet(s: State) { forall i :: 0 <= i < |s.calls| ==> s.calls[i].pc in {Finished, Failed} }

  /** The native release callback is invoked at most once, and exactly once when some release has been
      called and all such calls are over. */
  lemma {:induction false} ReleasedExactlyOnce(steps: seq<Step>)
    requires After(steps).Some?
    ensures After(steps).value.invoked <= 1
    ensures Quiet(After(steps).value) ==> (After(steps).value.invoked == 1 <==> After(steps).value.calls != [])
  {
    hide Next, Play;
    RunKeepsInv(steps);
    var s := After(steps).value;
    if Quiet(s) && s.calls != [] {
      assert !s.calls[0].pc.Ready?;
    }
  }

  /** A consumer past the gate: opening, holding the enumerator, or failed while opening. */
  predicate PastGate(k: Consumer) { !k.Asking? && !k.Refused? }

  /** At most one consumer ever passes the gate, so at most one obtains an enumerator; a consumer is
      refused only if another one passed before. */
  lemma {:induction false} SingleConsumer(steps: seq<Step>, a: nat, b: nat)
    requires After(steps).Some?
    requires a < |After(steps).value.consumers| && b < |After(steps).value.consumers|
    ensures var k := After(steps).value.consumers;
      && (PastGate(k[a]) && PastGate(k[b]) ==> a == b)
      && (k[a].Refused? ==> exists c :: 0 <= c < |k| && PastGate(k[c]))
  {
    hide Next, Play;
    RunKeepsInv(steps);
    GateHolder(steps);
  }

  /** The consumer that passed the gate is still past it. */
  lemma {:induction false} GateHolder(steps: seq<Step>)
    requires After(steps).Some?
    ensures var s := After(steps).value;
      s.owner.Some? ==> s.owner.value < |s.consumers| && PastGate(s.consumers[s.owner.value])
  {
    hide Next, Inv, Play;
    InitialOk();
    HolderStays(Initial, steps);
  }

  ghost predicate Holds(s: State) {
    s.owner.Some? ==> s.owner.value < |s.consumers| && PastGate(s.consumers[s.owner.value])
  }

  lemma {:induction false} HolderStep(s: State, step: Step)
    requires Holds(s) && Next(s, step).Some?
    ensures Holds(Next(s, step).value)
  {}

  lemma {:induction false} HolderStays(s: State, steps: seq<Step>)
    requires Holds(s) && Play(s, steps).Some?
    ensures Holds(Play(s, steps).value)
    decreases |steps|
  {
    hide Next, Holds;
    if steps != [] {
      HolderStep(s, steps[0]);
      HolderStays(Next(s, steps[0]).value, steps[1..]);
    }
  }

  /** A failed opening has released the lease before its exception leaves the adapter. */
  lemma {:induction false} BrokenMeansTaken(steps: seq<Step>, c: nat)
    requires After(steps).Some? && ConsumerIs(After(steps).value, c, Broken)
    ensures !After(steps).value.armed
  {
    hide Next, Play;
    RunKeepsInv(steps);
  }

  /** The finalizer is suppressed only after the callback returned; until the callback is taken it can
      fire, and when the callback throws it may still fire but finds nothing to release. */
  lemma {:induction false} UntakenCanBeFinalized(steps: seq<Step>)
    requires After(steps).Some?
    ensures var s := After(steps).value;
      && (s.suppressed ==> s.invoked == 1)
      && (s.armed ==> !s.suppressed && s.invoked == 0)
      && (s.armed && !s.finalized ==> Next(s, Finalizer).Some?)
  {
    hide Play;
    RunKeepsInv(steps);
  }

  // ---- no early release -----------------------------------------------------------------------

  predicate EndsEnumeration(step: Step) {
    || (step.MoveNext? && (!step.moved || step.throws)) || step.Retry? || step.Dispose?
    || (step.Open? && step.throws)
  }

  predicate Quietly(step: Step) { !EndsEnumeration(step) && !step.Finalizer? && !step.CallRelease? }

  lemma {:induction false} QuietStep(s: State, step: Step)
    requires s.calls == [] && Next(s, step).Some? && Quietly(step)
    ensures Next(s, step).value.calls == [] && Next(s, step).value.armed == s.armed
  {}

  /** While elements keep coming and nobody disposes, finalizes or releases, the producer stays alive. */
  lemma {:induction false} StaysAliveWhileMoving(s: State, steps: seq<Step>)
    requires s.calls == [] && Play(s, steps).Some? && forall k :: 0 <= k < |steps| ==> Quietly(steps[k])
    ensures Play(s, steps).value.calls == [] && Play(s, steps).value.armed == s.armed
    decreases |steps|
  {
    hide Next, Quietly;
    if steps != [] {
      QuietStep(s, steps[0]);
      StaysAliveWhileMoving(Next(s, steps[0]).value, steps[1..]);
    }
  }

  lemma {:induction false} CallsStay(s: State, step: Step, i: nat)
    requires i < |s.calls| && Next(s, step).Some?
    ensures i < |Next(s, step).value.calls| && Next(s, step).value.calls[i].cause == s.calls[i].cause
  {
    hide HasEnumerator, ConsumerIs;
    match step
    case Retry(_) =>
    case Exchange(_) =>
    case Invoke(_, _) =>
    case Suppress(_) =>
    case _ =>
      assert s.calls <= Next(s, step).value.calls;
  }

  lemma {:induction false} CallsGrow(s: State, steps: seq<Step>, i: nat)
    requires i < |s.calls| && Play(s, steps).Some?
    ensures i < |Play(s, steps).value.calls| && Play(s, steps).value.calls[i].cause == s.calls[i].cause
    decreases |steps|
  {
    hide Next;
    if steps != [] {
      CallsStay(s, steps[0], i);
      CallsGrow(Next(s, steps[0]).value, steps[1..], i);
    }
  }

  lemma {:induction false} PlayConcat(s: State, a: seq<Step>, b: seq<Step>)
    requires Play(s, a + b).Some?
    ensures Play(s, a).Some? && Play(s, a + b) == Play(Play(s, a).value, b)
    decreases |a|
  {
    hide Next;
    if a == [] {
      assert a + b == b;
    } else {
      assert (a + b)[1..] == a[1..] + b;
      PlayConcat(Next(s, a[0]).value, a[1..], b);
    }
  }

  /** Every end of an enumeration, a last element, an exception, a disposal or a failed opening, calls
      the release; once that call is over the callback has been taken. */
  lemma {:induction false} EndingReleases(before: seq<Step>, step: Step, later: seq<Step>)
    requires After(before + ([step] + later)).Some? && EndsEnumeration(step)
    ensures After(before).Some?
    ensures var s, t, i := After(before).value, After(before + ([step] + later)).value, |After(before).value.calls|;
      && i < |t.calls| && t.calls[i].cause in {LastElement, EnumerationEnded}
      && (t.calls[i].pc in {Finished, Failed} ==> !t.armed)
  {
    hide Next;
    PlayConcat(Initial, before, [step] + later);
    var s := After(before).value;
    assert ([step] + later)[0] == step && ([step] + later)[1..] == later;
    var next := Next(s, step).value;
    EndCalls(s, step);
    CallsGrow(next, later, |s.calls|);
    RunKeepsInv(before + ([step] + later));
  }

  lemma {:induction false} EndCalls(s: State, step: Step)
    requires EndsEnumeration(step) && Next(s, step).Some?
    ensures var t := Next(s, step).value;
      |s.calls| < |t.calls| && t.calls[|s.calls|].cause in {LastElement, EnumerationEnded}
  {}

  // ---- the object, uninterrupted --------------------------------------------------------------

  /** A release whose steps nobody interrupts. */
  function Uninterrupted(s: State, cause: Cause, throws: bool): State {
    var i, ready := |s.calls|, WithCall(s, cause);
    if !s.armed then AtPc(ready, i, Finished)
    else
      AtPc(ready, i, if throws then Failed else Finished)
        .(armed := false, winner := Some(i), invoked := s.invoked + 1, suppressed := s.suppressed || !throws)
  }

  lemma {:induction false} UninterruptedIsARun(s: State, throws: bool)
    ensures var i, a := |s.calls|, Next(s, CallRelease).value;
      var b := Next(a, Exchange(i));
      && b.Some?
      && if !s.armed then b == Some(Uninterrupted(s, Direct, throws))
         else
           var c := Next(b.value, Invoke(i, throws));
           && c.Some?
           && if throws then c == Some(Uninterrupted(s, Direct, throws))
              else Next(c.value, Suppress(i)) == Some(Uninterrupted(s, Direct, throws))
  {
    var i, a := |s.calls|, Next(s, CallRelease).value;
    var b := Next(a, Exchange(i)).value;
    var u := Uninterrupted(s, Direct, throws);
    if s.armed {
      var c := Next(b, Invoke(i, throws)).value;
      if throws {
        assert c.calls == u.calls;
      } else {
        assert Next(c, Suppress(i)).value.calls == u.calls;
      }
    }
  }

  lemma {:induction false} PlayFurther(s: State, steps: seq<Step>, more: seq<Step>, t: State)
    requires Play(s, steps) == Some(t)
    ensures Play(s, steps + more) == Play(t, more)
    decreases |steps|
  {
    hide Next;
    if steps == [] {
      assert steps + more == more;
    } else {
      assert (steps + more)[1..] == steps[1..] + more;
      PlayFurther(Next(s, steps[0]).value, steps[1..], more, t);
    }
  }

  lemma {:induction false} PlaySingle(s: State, step: Step)
    ensures Play(s, [step]) == Next(s, step)
  {
    hide Next;
    assert [step][1..] == [];
  }

  /** The steps of an undisturbed release once it has been called. */
  function ReleaseSteps(i: nat, armed: bool, throws: bool): seq<Step> {
    [Exchange(i)] + if !armed then [] else [Invoke(i, throws)] + if throws then [] else [Suppress(i)]
  }

  lemma {:induction false} ReleaseRuns(s: State, cause: Cause, throws: bool)
    ensures Play(WithCall(s, cause), ReleaseSteps(|s.calls|, s.armed, throws)) == Some(Uninterrupted(s, cause, throws))
  {
    var i, a, u := |s.calls|, WithCall(s, cause), Uninterrupted(s, cause, throws);
    var b := Next(a, Exchange(i)).value;
    PlaySingle(a, Exchange(i));
    if s.armed {
      var c := Next(b, Invoke(i, throws)).value;
      PlaySingle(b, Invoke(i, throws));
      if throws {
        assert c.calls == u.calls;
        PlayFurther(a, [Exchange(i)], [Invoke(i, true)], b);
        assert [Invoke(i, true)] + [] == [Invoke(i, true)];
      } else {
        assert Next(c, Suppress(i)).value.calls == u.calls;
        PlaySingle(c, Suppress(i));
        PlayFurther(b, [Invoke(i, false)], [Suppress(i)], c);
        PlayFurther(a, [Exchange(i)], [Invoke(i, false)] + [Suppress(i)], b);
      }
    } else {
      assert b.calls == u.calls;
      assert [Exchange(i)] + [] == [Exchange(i)];
    }
  }

  /** After an undisturbed `GetAsyncEnumerator`: a second consumer is refused, a failed opening has released
      the lease. */
  function Opened(s: State, throws: bool, releaseThrows: bool): State {
    if s.started then s.(consumers := s.consumers + [Refused])
    else
      var t := s.(started := true, owner := Some(|s.consumers|));
      if !throws then t.(consumers := s.consumers + [Enumerating])
      else Uninterrupted(t, EnumerationEnded, releaseThrows).(consumers := s.consumers + [Broken])
  }

  function FailedSteps(s: State, c: nat, releaseThrows: bool): seq<Step> {
    ReleaseSteps(|s.calls|, s.armed, releaseThrows) + [OpenReleased(c)]
  }

  function OpenedSteps(s: State, throws: bool, releaseThrows: bool): seq<Step> {
    var c := |s.consumers|;
    [Ask] + [Start(c)]
      + (if s.started then [] else [Open(c, throws)] + (if throws then FailedSteps(s, c, releaseThrows) else []))
  }

  lemma {:induction false} UninterruptedIs(s: State, cause: Cause, throws: bool)
    ensures var t := Uninterrupted(s, cause, throws);
      && |t.calls| == |s.calls| + 1 && !t.armed && t.consumers == s.consumers
      && t.calls[|s.calls|] == Call(cause, if s.armed && throws then Failed else Finished, false)
  {}

  lemma {:induction false} FailedOpeningRuns(s: State, c: nat, releaseThrows: bool)
    requires ConsumerIs(s, c, Opening)
    ensures Play(s, [Open(c, true)] + (ReleaseSteps(|s.calls|, s.armed, releaseThrows) + [OpenReleased(c)]))
         == Some(Uninterrupted(s, EnumerationEnded, releaseThrows).(consumers := s.consumers[c := Broken]))
  {
    var n := |s.calls|;
    var releasing := s.(consumers := s.consumers[c := Releasing(n)]);
    var called := WithCall(releasing, EnumerationEnded);
    var over := Uninterrupted(releasing, EnumerationEnded, releaseThrows);
    var broken := Uninterrupted(s, EnumerationEnded, releaseThrows).(consumers := s.consumers[c := Broken]);
    assert Next(s, Open(c, true)) == Some(called);
    UninterruptedIs(releasing, EnumerationEnded, releaseThrows);
    assert Next(over, OpenReleased(c)).value.consumers == broken.consumers;
    assert Next(over, OpenReleased(c)) == Some(broken);
    hide Next, Uninterrupted, ReleaseSteps, Play, WithCall;
    ReleaseRuns(releasing, EnumerationEnded, releaseThrows);
    PlaySingle(s, Open(c, true));
    PlaySingle(over, OpenReleased(c));
    PlayFurther(called, ReleaseSteps(n, s.armed, releaseThrows), [OpenReleased(c)], over);
    PlayFurther(s, [Open(c, true)], ReleaseSteps(n, s.armed, releaseThrows) + [OpenReleased(c)], called);
  }

  lemma {:induction false} OpenedRuns(s: State, throws: bool, releaseThrows: bool)
    ensures Play(s, OpenedSteps(s, throws, releaseThrows)) == Some(Opened(s, throws, releaseThrows))
  {
    var c := |s.consumers|;
    var asked := s.(consumers := s.consumers + [Asking]);
    assert Next(s, Ask) == Some(asked);
    PlaySingle(s, Ask);
    PlaySingle(asked, Start(c));
    PlayFurther(s, [Ask], [Start(c)], asked);
    if s.started {
      assert Next(asked, Start(c)).value.consumers == s.consumers + [Refused];
      assert [Ask] + [Start(c)] + [] == [Ask] + [Start(c)];
    } else {
      var opening := s.(consumers := s.consumers + [Opening], started := true, owner := Some(c));
      assert Next(asked, Start(c)).value.consumers == opening.consumers;
      assert (s.consumers + [Opening])[c := Enumerating] == s.consumers + [Enumerating];
      assert (s.consumers + [Opening])[c := Broken] == s.consumers + [Broken];
      if throws {
        hide Next, Play, ReleaseSteps;
        FailedOpeningRuns(opening, c, releaseThrows);
        PlayFurther(s, [Ask] + [Start(c)],
                    [Open(c, true)] + (ReleaseSteps(|s.calls|, s.armed, releaseThrows) + [OpenReleased(c)]), opening);
        SameRelease(opening, s.(started := true, owner := Some(c)), releaseThrows, s.consumers + [Broken]);
      } else {
        PlaySingle(opening, Open(c, false));
        PlayFurther(s, [Ask] + [Start(c)], [Open(c, false)], opening);
        assert [Open(c, false)] + [] == [Open(c, false)];
      }
    }
  }

  lemma {:induction false} SameRelease(s: State, t: State, throws: bool, consumers: seq<Consumer>)
    requires s == t.(consumers := s.consumers)
    ensures Uninterrupted(s, EnumerationEnded, throws).(consumers := consumers)
         == Uninterrupted(t, EnumerationEnded, throws).(consumers := consumers)
  {}

  /** After an undisturbed `MoveNextAsync`: an exception and the last element release the lease; when the
      release after the last element throws, the handler releases once more. */
  function Moved(s: State, moved: bool, throws: bool, releaseThrows: bool): State {
    if throws then Uninterrupted(s, EnumerationEnded, releaseThrows)
    else if moved then s
    else
      var t := Uninterrupted(s, LastElement, releaseThrows);
      if s.armed && releaseThrows then Uninterrupted(Caught(t, |s.calls|), EnumerationEnded, releaseThrows) else t
  }

  /** The handler has caught the exception of call `i`. */
  function Caught(s: State, i: nat): State {
    if i < |s.calls| then s.(calls := s.calls[i := s.calls[i].(retried := true)]) else s
  }

  function MovedSteps(s: State, moved: bool, throws: bool, releaseThrows: bool): seq<Step> {
    var n := |s.calls|;
    var again := if !throws && s.armed && releaseThrows then [Retry(n)] + ReleaseSteps(n + 1, false, releaseThrows)
                 else [];
    [MoveNext(moved, throws)]
      + (if moved && !throws then [] else ReleaseSteps(n, s.armed, releaseThrows) + again)
  }

  lemma {:induction false} RetryRuns(s: State, i: nat, releaseThrows: bool)
    requires Is(s, i, Failed) && s.calls[i].cause == LastElement && !s.calls[i].retried && !s.armed
    ensures Play(s, [Retry(i)] + ReleaseSteps(|s.calls|, false, releaseThrows))
         == Some(Uninterrupted(Caught(s, i), EnumerationEnded, releaseThrows))
  {
    var caught := Caught(s, i);
    assert Next(s, Retry(i)) == Some(WithCall(caught, EnumerationEnded));
    hide Next, Uninterrupted, ReleaseSteps, Play, WithCall;
    PlaySingle(s, Retry(i));
    ReleaseRuns(caught, EnumerationEnded, releaseThrows);
    PlayFurther(s, [Retry(i)], ReleaseSteps(|s.calls|, false, releaseThrows), WithCall(caught, EnumerationEnded));
  }

  lemma {:induction false} MovedRuns(s: State, moved: bool, throws: bool, releaseThrows: bool)
    requires HasEnumerator(s)
    ensures Play(s, MovedSteps(s, moved, throws, releaseThrows)) == Some(Moved(s, moved, throws, releaseThrows))
  {
    var n, step := |s.calls|, MoveNext(moved, throws);
    PlaySingle(s, step);
    if moved && !throws {
      assert [step] + [] == [step];
    } else {
      var cause := if throws then EnumerationEnded else LastElement;
      var t := Uninterrupted(s, cause, releaseThrows);
      var release := ReleaseSteps(n, s.armed, releaseThrows);
      assert Next(s, step) == Some(WithCall(s, cause));
      UninterruptedIs(s, cause, releaseThrows);
      hide Next, Uninterrupted, ReleaseSteps, Play, WithCall;
      ReleaseRuns(s, cause, releaseThrows);
      PlayFurther(s, [step], release, WithCall(s, cause));
      if !throws && s.armed && releaseThrows {
        RetryRuns(t, n, releaseThrows);
        PlayFurther(s, [step] + release, [Retry(n)] + ReleaseSteps(n + 1, false, releaseThrows), t);
        assert [step] + release + ([Retry(n)] + ReleaseSteps(n + 1, false, releaseThrows))
            == [step] + (release + ([Retry(n)] + ReleaseSteps(n + 1, false, releaseThrows)));
      } else {
        assert release + [] == release;
      }
    }
  }

  /** `DisposeAsync` and the finalizer, undisturbed. */
  lemma {:induction false} DisposedRuns(s: State, releaseThrows: bool)
    ensures Next(s, Dispose).Some? <==> HasEnumerator(s)
    ensures HasEnumerator(s) ==>
      Play(s, [Dispose] + ReleaseSteps(|s.calls|, s.armed, releaseThrows))
        == Some(Uninterrupted(s, EnumerationEnded, releaseThrows))
    ensures Next(s, Finalizer).Some? <==> !s.suppressed && !s.finalized
    ensures !s.suppressed && !s.finalized ==>
      Play(s, [Finalizer] + ReleaseSteps(|s.calls|, s.armed, releaseThrows))
        == Some(Uninterrupted(s.(finalized := true), Finalizing, releaseThrows))
  {
    var release := ReleaseSteps(|s.calls|, s.armed, releaseThrows);
    var finalizing := s.(finalized := true);
    assert HasEnumerator(s) ==> Next(s, Dispose) == Some(WithCall(s, EnumerationEnded));
    assert !s.suppressed && !s.finalized ==> Next(s, Finalizer) == Some(WithCall(finalizing, Finalizing));
    assert Next(s, Dispose).Some? <==> HasEnumerator(s);
    assert Next(s, Finalizer).Some? <==> !s.suppressed && !s.finalized;
    hide Next, Uninterrupted, ReleaseSteps, Play, WithCall;
    ReleaseRuns(s, EnumerationEnded, releaseThrows);
    ReleaseRuns(finalizing, Finalizing, releaseThrows);
    PlaySingle(s, Dispose);
    PlaySingle(s, Finalizer);
    if HasEnumerator(s) {
      PlayFurther(s, [Dispose], release, WithCall(s, EnumerationEnded));
    }
    if !s.suppressed && !s.finalized {
      PlayFurther(s, [Finalizer], release, WithCall(finalizing, Finalizing));
    }
  }

  /** The handler of a move runs once for a call whose exception it catches. */
  lemma {:induction false} RetriedOnce(s: State, i: nat)
    requires Next(s, Retry(i)).Some?
    ensures Is(s, i, Failed) && s.calls[i].cause == LastElement
    ensures Next(Next(s, Retry(i)).value, Retry(i)).None?
  {}

  /** There is an enumerator exactly when some consumer is enumerating. */
  lemma {:induction false} EnumeratorExactly(s: State)
    requires Inv(s)
    ensures HasEnumerator(s) <==> exists c :: 0 <= c < |s.consumers| && s.consumers[c] == Enumerating
  {
    if HasEnumerator(s) {
      assert s.consumers[s.owner.value] == Enumerating;
    }
  }

  /** Elements come to a consumer that has an enumerator only, and nobody is refused without reason. */
  lemma {:induction false} NeedsEnumerator(s: State, moved: bool, throws: bool)
    ensures Next(s, MoveNext(moved, throws)).Some? <==> HasEnumerator(s)
  {}

  class RustStreamLease {
    var release: bool
    var finalizerSuppressed: bool
    ghost var invoked: nat

    constructor ()
      ensures release && !finalizerSuppressed && invoked == 0
    {
      release, finalizerSuppressed, invoked := true, false, 0;
    }

    /** `Release`, when no other call interleaves; `throws` is what the callback does. */
    method Release(throws: bool) returns (threw: bool)
      modifies this
      ensures !release && threw == (old(release) && throws)
      ensures invoked == old(invoked) + if old(release) then 1 else 0
      ensures finalizerSuppressed == (old(finalizerSuppressed) || (old(release) && !throws))
      ensures forall calls, winner, cause, consumers, started, owner, finalized ::
        var before := State(old(release), old(finalizerSuppressed), finalized, calls, old(invoked), winner, started,
            consumers, owner);
        var after := Uninterrupted(before, cause, throws);
        release == after.armed && finalizerSuppressed == after.suppressed && invoked == after.invoked
    {
      var taken := release;
      release := false;
      if !taken {
        return false;
      }
      invoked := invoked + 1;
      if throws {
        return true;
      }
      finalizerSuppressed := true;
      threw := false;
    }
  }

  /** The adapter with its lease. */
  class RustAsyncEnumerable {
    const lease: RustStreamLease
    var enumerationStarted: bool
    ghost var finalized: bool
    ghost var calls: seq<Call>
    ghost var winner: Option<nat>
    ghost var consumers: seq<Consumer>
    ghost var owner: Option<nat>

    constructor (lease: RustStreamLease)
      requires lease.release && !lease.finalizerSuppressed && lease.invoked == 0
      ensures this.lease == lease && S() == Initial
    {
      this.lease := lease;
      enumerationStarted, finalized, calls, winner := false, false, [], None;
      consumers, owner := [], None;
    }

    ghost function S(): State
      reads this, lease
    {
      State(lease.release, lease.finalizerSuppressed, finalized, calls, lease.invoked, winner, enumerationStarted,
            consumers, owner)
    }

    /** A release of the lease made here. */
    method ReleaseLease(ghost cause: Cause, throws: bool) returns (threw: bool)
      modifies this, lease
      ensures threw == (old(lease.release) && throws)
      ensures S() == Uninterrupted(old(S()), cause, throws)
      ensures enumerationStarted == old(enumerationStarted)
    {
      ghost var s := S();
      threw := lease.Release(throws);
      calls, winner := Uninterrupted(s, cause, throws).calls, Uninterrupted(s, cause, throws).winner;
    }

    /** `GetAsyncEnumerator`, undisturbed; `throws` is what the inner stream does. */
    method GetAsyncEnumerator(throws: bool, releaseThrows: bool) returns (got: bool)
      modifies this, lease
      ensures got == (!old(enumerationStarted) && !throws)
      ensures Play(old(S()), OpenedSteps(old(S()), throws, releaseThrows)) == Some(S())
      ensures S() == Opened(old(S()), throws, releaseThrows)
    {
      OpenedRuns(S(), throws, releaseThrows);
      var started := enumerationStarted;
      enumerationStarted := true;
      if started {
        consumers := consumers + [Refused];
        return false;
      }
      owner := Some(|consumers|);
      if throws {
        var threw := ReleaseLease(EnumerationEnded, releaseThrows);
        consumers := consumers + [Broken];
        return false;
      }
      consumers := consumers + [Enumerating];
      got := true;
    }

    /** `MoveNextAsync`, undisturbed; no result is an exception. */
    method MoveNextAsync(moved: bool, throws: bool, releaseThrows: bool) returns (more: Option<bool>)
      requires HasEnumerator(S())
      modifies this, lease
      ensures more == if throws || (!moved && old(lease.release) && releaseThrows) then None else Some(moved)
      ensures Play(old(S()), MovedSteps(old(S()), moved, throws, releaseThrows)) == Some(S())
      ensures S() == Moved(old(S()), moved, throws, releaseThrows)
    {
      MovedRuns(S(), moved, throws, releaseThrows);
      var failed := throws;
      ghost var n := |calls|;
      if !failed && !moved {
        failed := ReleaseLease(LastElement, releaseThrows);
        if failed {
          calls := calls[n := calls[n].(retried := true)];
        }
      }
      if failed {
        var again := ReleaseLease(EnumerationEnded, releaseThrows);
        return None;
      }
      more := Some(moved);
    }

    /** `DisposeAsync`, undisturbed. */
    method DisposeAsync(releaseThrows: bool) returns (threw: bool)
      requires HasEnumerator(S())
      modifies this, lease
      ensures threw == (old(lease.release) && releaseThrows)
      ensures Play(old(S()), [Dispose] + ReleaseSteps(|old(calls)|, old(lease.release), releaseThrows)) == Some(S())
    {
      DisposedRuns(S(), releaseThrows);
      threw := ReleaseLease(EnumerationEnded, releaseThrows);
    }
  }
}
