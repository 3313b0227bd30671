/** The adaptive loop: run batches, keep what the protocol vouches for, bisect what is left, run
    single leftovers exactly, stop on the attempt or time budget. The apphost and the clock are
    arbitrary functions of the attempt number, so every theorem holds for all of them. */
module Scheduler {
  import opened Order
  import opened Packing
  import opened Protocol
  import opened Wrappers

  type TargetId = string

  /** The qualified name `target::test`; target identities contain no `::`. */
  datatype TestId = TestId(target: TargetId, name: Name)

  datatype Status = TestPassed | TestFailed | TestTimeout | TestCrashed | UpstreamIgnored | PolicySkip

  datatype TestResult = TestResult(status: Status, attempt: Option<nat>)

  type Results = map<TestId, TestResult>

  datatype ProcessOutcome =
    | TimedOut(lines: seq<Line>)
    | Exited(lines: seq<Line>, code: int)

  /** Everything outside the scheduler: the time left at each claim, what each batch process
      prints and returns, and the status of each exact run. */
  datatype World = World(remaining: nat -> real, batch: nat -> ProcessOutcome, exact: nat -> Status)

  datatype Budget = Running | AttemptLimitExhausted | TimeoutExhausted | Complete

  datatype SplitReason = ProtocolReason | TimeoutReason | CrashReason
  datatype Recovery = Completed | Split | ExactFallback
  datatype BatchState = CompletedState | TimeoutSplit | CrashedSplit | Recovered(why: SplitReason, how: Recovery)

  datatype Work = Work(batch: Batch, parent: Option<nat>, depth: nat)

  datatype Attempt = Attempt(id: nat, parent: Option<nat>, depth: nat, requested: Batch, complete: bool,
                             resolved: set<Name>, unresolved: Batch, recovery: Recovery,
                             reason: Option<SplitReason>, state: BatchState)

  function Names(batch: Batch): set<Name> { set n | n in batch }

  function ToStatus(v: Verdict): Status { if v == Passed then TestPassed else TestFailed }

  // ---- what a batch process may be credited with -------------------------------------------

  /** The process end agrees with the transcript: a closed suite exits with the matching code, an
      unclosed one was killed or crashed. */
  ghost predicate Honest(o: ProcessOutcome) {
    if HasEnd(o.lines) then
      o.Exited? && forall line :: line in o.lines && line.SuiteFinished? ==> (line.outcome.failed <==> o.code != 0)
    else
      o.TimedOut? || o.code != 0
  }

  ghost predicate Trustworthy(o: ProcessOutcome, requested: Batch, caseCount: int) {
    Accepts(o.lines, Names(requested), {}, caseCount - |Names(requested)|) && Honest(o)
  }

  ghost function Credited(o: ProcessOutcome, requested: Batch, caseCount: int): set<Name> {
    if Trustworthy(o, requested, caseCount) then EndedIn(o.lines, {Ok, Failed}) else {}
  }

  function Without(batch: Batch, done: set<Name>): Batch {
    if batch == [] then []
    else if batch[|batch| - 1] in done then Without(batch[..|batch| - 1], done)
    else Without(batch[..|batch| - 1], done) + [batch[|batch| - 1]]
  }

  /** A split is put down to a timeout or a crash only when the partial transcript is trusted. */
  ghost function Blame(o: ProcessOutcome, requested: Batch, caseCount: int): SplitReason {
    if !Trustworthy(o, requested, caseCount) then ProtocolReason
    else if o.TimedOut? then TimeoutReason
    else CrashReason
  }

  datatype Judgement = Judgement(trusted: bool, results: map<Name, Verdict>, reason: Option<SplitReason>,
                                 state: Option<BatchState>)

  /** The branch ladder after a batch run. `state` is `None` where the source leaves its variable
      unassigned. */
  function Judge(parsed: Option<Parsed>, o: ProcessOutcome): Judgement {
    if parsed.Some? && parsed.value.complete && parsed.value.terminal.Some? then
      var returncodeMatches := o.Exited? && (parsed.value.terminal.value.failed <==> o.code != 0);
      if returncodeMatches then Judgement(true, parsed.value.results, None, Some(CompletedState))
      else Judgement(false, map[], Some(ProtocolReason), None)
    else if parsed.None? then Judgement(false, map[], Some(ProtocolReason), None)
    else if o.TimedOut? then Judgement(true, parsed.value.results, Some(TimeoutReason), Some(TimeoutSplit))
    else if o.code == 0 then Judgement(false, map[], Some(ProtocolReason), None)
    else Judgement(true, parsed.value.results, Some(CrashReason), Some(CrashedSplit))
  }

  lemma {:induction false} OneEnd(lines: seq<Line>, end: SuiteEnd)
    requires NoRepeats(lines) && SuiteFinished(end) in lines
    ensures forall line :: line in lines && line.SuiteFinished? ==> line.outcome == end
  {
    var i :| 0 <= i < |lines| && lines[i] == SuiteFinished(end);
    forall line | line in lines && line.SuiteFinished? ensures line.outcome == end {
      var j :| 0 <= j < |lines| && lines[j] == line;
      assert !(i < j) && !(j < i);
    }
  }

  lemma {:induction false} JudgeTrusts(parsed: Option<Parsed>, o: ProcessOutcome, requested: Batch, caseCount: int)
    requires parsed.Some? <==> Accepts(o.lines, Names(requested), {}, caseCount - |Names(requested)|)
    requires parsed.Some? ==> Reports(o.lines, parsed.value)
    ensures Judge(parsed, o).trusted <==> Trustworthy(o, requested, caseCount)
    ensures Judge(parsed, o).results == if Judge(parsed, o).trusted then parsed.value.results else map[]
  {
    hide Accepts, EndedIn, NoRepeats;
    if parsed.Some? {
      AcceptedMeans(o.lines, Names(requested), caseCount - |Names(requested)|);
      if parsed.value.complete {
        OneEnd(o.lines, parsed.value.terminal.value);
      }
    }
  }

  lemma {:induction false} JudgeExplains(parsed: Option<Parsed>, o: ProcessOutcome, requested: Batch, caseCount: int)
    requires parsed.Some? <==> Accepts(o.lines, Names(requested), {}, caseCount - |Names(requested)|)
    requires parsed.Some? ==> Reports(o.lines, parsed.value)
    ensures Trustworthy(o, requested, caseCount) && HasEnd(o.lines) ==>
              Judge(parsed, o).state == Some(CompletedState) && Judge(parsed, o).reason == None
    ensures !(Trustworthy(o, requested, caseCount) && HasEnd(o.lines)) ==>
              Judge(parsed, o).reason == Some(Blame(o, requested, caseCount))
  {
    JudgeTrusts(parsed, o, requested, caseCount);
    hide Accepts, Trustworthy, HasEnd;
  }

  /** The ladder keeps exactly what the protocol vouches for, leaves nothing over exactly for a
      complete and trusted run, and has assigned a state in that case. */
  lemma {:induction false} JudgeCredits(parsed: Option<Parsed>, o: ProcessOutcome, requested: Batch, caseCount: int)
    requires parsed.Some? <==> Accepts(o.lines, Names(requested), {}, caseCount - |Names(requested)|)
    requires parsed.Some? ==> Reports(o.lines, parsed.value)
    requires requested != []
    ensures Judge(parsed, o).trusted <==> Trustworthy(o, requested, caseCount)
    ensures Judge(parsed, o).results.Keys == Credited(o, requested, caseCount)
    ensures Credited(o, requested, caseCount) <= Names(requested)
    ensures forall n :: n in Judge(parsed, o).results ==> n in EndedIn(o.lines, {Ok, Failed})
    ensures forall n :: n in Judge(parsed, o).results ==>
              (Judge(parsed, o).results[n] == Passed <==> n in EndedIn(o.lines, {Ok}))
    ensures Credited(o, requested, caseCount) == Names(requested)
       <==> Trustworthy(o, requested, caseCount) && HasEnd(o.lines)
    ensures Credited(o, requested, caseCount) == Names(requested) ==>
              Judge(parsed, o).state == Some(CompletedState) && Judge(parsed, o).reason == None
    ensures Credited(o, requested, caseCount) != Names(requested) ==>
              Judge(parsed, o).reason == Some(Blame(o, requested, caseCount))
    ensures parsed.Some? && parsed.value.complete
       <==> Accepts(o.lines, Names(requested), {}, caseCount - |Names(requested)|) && HasEnd(o.lines)
  {
    assert requested[0] in Names(requested);
    JudgeTrusts(parsed, o, requested, caseCount);
    JudgeExplains(parsed, o, requested, caseCount);
    if parsed.Some? {
      CompleteExactlyWhenAllResolved(o.lines, Names(requested), caseCount - |Names(requested)|, parsed.value);
    }
    hide Accepts, EndedIn, HasEnd, Judge, Honest;
  }

  // ---- one attempt --------------------------------------------------------------------------

  function RecoveryFor(unresolved: Batch): Recovery {
    if unresolved == [] then Completed else if |unresolved| == 1 then ExactFallback else Split
  }

  ghost predicate AcceptedAndClosed(o: ProcessOutcome, requested: Batch, caseCount: int) {
    Accepts(o.lines, Names(requested), {}, caseCount - |Names(requested)|) && HasEnd(o.lines)
  }

  /** The bookkeeping of an attempt that may be credited with `credited`; `closed` says that its
      protocol completed, `clean` that it also may be trusted. */
  ghost predicate Recorded(a: Attempt, credited: set<Name>, closed: bool, clean: bool, blame: SplitReason) {
    && a.requested != []
    && a.resolved == credited <= Names(a.requested)
    && a.unresolved == Without(a.requested, a.resolved)
    && a.recovery == RecoveryFor(a.unresolved)
    && a.complete == closed
    && (a.unresolved == [] <==> clean)
    && a.reason == (if clean then None else Some(blame))
    && a.state == (if clean then CompletedState else Recovered(blame, a.recovery))
  }

  /** A recorded attempt tells the truth about its run. */
  ghost predicate Faithful(a: Attempt, o: ProcessOutcome, caseCount: int) {
    Recorded(a, Credited(o, a.requested, caseCount), AcceptedAndClosed(o, a.requested, caseCount),
             Trustworthy(o, a.requested, caseCount) && HasEnd(o.lines), Blame(o, a.requested, caseCount))
  }

  ghost predicate FromBatch(world: World, a: Attempt, n: Name, r: TestResult) {
    && r.attempt == Some(a.id) && n in a.resolved
    && n in EndedIn(world.batch(a.id).lines, {Ok, Failed})
    && r.status == (if n in EndedIn(world.batch(a.id).lines, {Ok}) then TestPassed else TestFailed)
  }

  ghost predicate FromExact(world: World, a: Attempt, n: Name, r: TestResult) {
    a.unresolved == [n] && r == TestResult(world.exact(a.id), Some(a.id))
  }

  lemma {:induction false} WithoutIsWhatIsLeft(batch: Batch, done: set<Name>)
    ensures forall n :: multiset(Without(batch, done))[n] == if n in done then 0 else multiset(batch)[n]
    ensures |Without(batch, done)| <= |batch|
    ensures Without(batch, done) == [] <==> Names(batch) <= done
  {
    if batch != [] {
      var front, last := batch[..|batch| - 1], batch[|batch| - 1];
      WithoutIsWhatIsLeft(front, done);
      WithoutLast(front, last, done);
      assert batch == front + [last];
    }
  }

  lemma {:induction false} WithoutLast(front: Batch, last: Name, done: set<Name>)
    ensures Without(front + [last], done) == Without(front, done) + (if last in done then [] else [last])
    ensures Names(front + [last]) == Names(front) + {last}
    ensures multiset(front + [last]) == multiset(front) + multiset{last}
  {
    assert (front + [last])[..|front|] == front;
  }

  function Ids(target: TargetId, names: set<Name>): set<TestId> {
    set n | n in names :: TestId(target, n)
  }

  /** The loop that records trusted results; its "resolved twice" branch is dead. */
  method RecordResults(target: TargetId, id: nat, verdicts: map<Name, Verdict>, results: Results)
    returns (newResults: Results)
    requires forall n :: n in verdicts ==> TestId(target, n) !in results
    ensures newResults.Keys == results.Keys + Ids(target, verdicts.Keys)
    ensures forall t :: t in results ==> newResults[t] == results[t]
    ensures forall n :: n in verdicts ==>
      newResults[TestId(target, n)] == TestResult(ToStatus(verdicts[n]), Some(id))
  {
    newResults := results;
    var todo := verdicts.Keys;
    while todo != {}
      invariant todo <= verdicts.Keys
      invariant newResults.Keys == results.Keys + Ids(target, verdicts.Keys - todo)
      invariant forall t :: t in results ==> newResults[t] == results[t]
      invariant forall n :: n in verdicts && n !in todo ==>
        newResults[TestId(target, n)] == TestResult(ToStatus(verdicts[n]), Some(id))
    {
      var name :| name in todo;
      if TestId(target, name) in newResults {
        assert false; // "adaptive batch resolved test twice"
      }
      newResults := newResults[TestId(target, name) := TestResult(ToStatus(verdicts[name]), Some(id))];
      todo := todo - {name};
    }
  }

  /** Parse the transcript and judge the run. */
  method Inspect(o: ProcessOutcome, requested: Batch, caseCount: int) returns (complete: bool, j: Judgement)
    requires requested != []
    ensures j.results.Keys == Credited(o, requested, caseCount) <= Names(requested)
    ensures forall n :: n in j.results ==> n in EndedIn(o.lines, {Ok, Failed})
    ensures forall n :: n in j.results ==> (j.results[n] == Passed <==> n in EndedIn(o.lines, {Ok}))
    ensures j.results.Keys == Names(requested) <==> Trustworthy(o, requested, caseCount) && HasEnd(o.lines)
    ensures j.results.Keys == Names(requested) ==> j.state == Some(CompletedState) && j.reason == None
    ensures j.results.Keys != Names(requested) ==> j.reason == Some(Blame(o, requested, caseCount))
    ensures complete <==> AcceptedAndClosed(o, requested, caseCount)
  {
    hide Accepts, HasEnd, EndedIn, Credited, Trustworthy, Blame, Judge;
    var expected := Names(requested);
    var parsed := ParseBatch(o.lines, expected, {}, caseCount - |expected|);
    JudgeCredits(parsed, o, requested, caseCount);
    j := Judge(parsed, o);
    complete := parsed.Some? && parsed.value.complete;
  }

  /** The `recovery` bookkeeping of one attempt. */
  method Conclude(work: Work, id: nat, complete: bool, j: Judgement, ghost clean: bool, ghost blame: SplitReason)
    returns (attempt: Attempt)
    requires work.batch != []
    requires j.results.Keys <= Names(work.batch)
    requires j.results.Keys == Names(work.batch) <==> clean
    requires clean ==> j.state == Some(CompletedState) && j.reason == None
    requires !clean ==> j.reason == Some(blame)
    ensures Recorded(attempt, j.results.Keys, complete, clean, blame)
    ensures attempt.id == id && attempt.parent == work.parent && attempt.depth == work.depth
    ensures attempt.requested == work.batch && attempt.resolved == j.results.Keys
  {
    WithoutIsWhatIsLeft(work.batch, j.results.Keys);
    var unresolved := Without(work.batch, j.results.Keys);
    var recovery := Completed;
    var reason := j.reason;
    var state := j.state;
    if unresolved != [] {
      recovery := if Bisect(unresolved) != [] then Split else ExactFallback;
      if reason.None? {
        reason := Some(ProtocolReason);
      }
      state := Some(Recovered(reason.value, recovery));
    }
    attempt := Attempt(id, work.parent, work.depth, work.batch, complete, j.results.Keys, unresolved,
                       recovery, reason, state.value);
  }

  /** One pass of the loop body up to its `recovery` bookkeeping. */
  method RunBatch(target: TargetId, work: Work, id: nat, caseCount: int, world: World, results: Results)
    returns (attempt: Attempt, newResults: Results)
    requires work.batch != []
    requires forall n :: n in work.batch ==> TestId(target, n) !in results
    ensures Faithful(attempt, world.batch(id), caseCount)
    ensures attempt.id == id && attempt.parent == work.parent && attempt.depth == work.depth
    ensures attempt.requested == work.batch
    ensures newResults.Keys == results.Keys + Ids(target, attempt.resolved)
    ensures forall t :: t in results ==> newResults[t] == results[t]
    ensures forall n :: n in attempt.resolved ==>
      FromBatch(world, attempt, n, newResults[TestId(target, n)])
  {
    hide Accepts, HasEnd, EndedIn, Credited, Trustworthy, AcceptedAndClosed, Blame, Recorded;
    ghost var o := world.batch(id);
    var complete, j := Inspect(world.batch(id), work.batch, caseCount);
    var resolved := j.results.Keys;
    newResults := RecordResults(target, id, j.results, results);
    attempt := Conclude(work, id, complete, j, Trustworthy(o, work.batch, caseCount) && HasEnd(o.lines),
                        Blame(o, work.batch, caseCount));
  }

  // ---- the queue ----------------------------------------------------------------------------

  function Pending(queue: seq<Work>): multiset<Name> {
    if queue == [] then multiset{}
    else Pending(queue[..|queue| - 1]) + multiset(queue[|queue| - 1].batch)
  }

  /** Batch runs the queued work can still cause at most. */
  function BatchRunsLeft(queue: seq<Work>): int {
    if queue == [] then 0
    else BatchRunsLeft(queue[..|queue| - 1]) + 2 * |queue[|queue| - 1].batch| - 1
  }

  ghost predicate NoEmptyWork(queue: seq<Work>) { forall w :: w in queue ==> w.batch != [] }

  function Settled(target: TargetId, executable: seq<Name>, results: Results): set<Name> {
    set n | n in executable && TestId(target, n) in results
  }

  /** Conservation: every executable name is queued once, held once or settled once. */
  ghost predicate Conserved(target: TargetId, executable: seq<Name>, queue: seq<Work>, held: multiset<Name>,
                            results: Results)
  {
    Pending(queue) + held + multiset(Settled(target, executable, results)) == multiset(executable)
  }

  ghost predicate EachOnce(names: seq<Name>) { forall n :: n in names ==> multiset(names)[n] == 1 }

  /** Queued work descends from the initial batches by bisecting what an attempt left over. */
  ghost predicate Descends(w: Work, initial: seq<Batch>, attempts: seq<Attempt>) {
    match w.parent
    case None => w.batch in initial && w.depth == 0
    case Some(p) =>
      && 1 <= p <= |attempts|
      && w.batch in Bisect(attempts[p - 1].unresolved)
      && w.depth == attempts[p - 1].depth + 1
  }

  lemma {:induction false} PendingOfPair(queue: seq<Work>, a: Work, b: Work)
    ensures Pending(queue + [b, a]) == Pending(queue) + multiset(a.batch) + multiset(b.batch)
    ensures BatchRunsLeft(queue + [b, a]) == BatchRunsLeft(queue) + 2 * (|a.batch| + |b.batch|) - 2
  {
    assert queue + [b, a] == (queue + [b]) + [a];
    assert (queue + [b] + [a])[..|queue| + 1] == queue + [b];
    assert (queue + [b])[..|queue|] == queue;
  }

  lemma {:induction false} BatchRunsLeftNonneg(queue: seq<Work>)
    requires NoEmptyWork(queue)
    ensures 0 <= BatchRunsLeft(queue)
    ensures queue != [] ==> 0 < BatchRunsLeft(queue)
  {
    if queue != [] {
      assert queue[|queue| - 1] in queue;
      BatchRunsLeftNonneg(queue[..|queue| - 1]);
    }
  }

  /** What one attempt requested splits, with multiplicity, into what it resolved and what it left. */
  lemma {:induction false} AttemptPartitions(requested: Batch, resolved: set<Name>)
    requires EachOnce(requested) && resolved <= Names(requested)
    ensures multiset(requested) == multiset(resolved) + multiset(Without(requested, resolved))
  {
    WithoutIsWhatIsLeft(requested, resolved);
    forall n ensures multiset(requested)[n] == multiset(resolved)[n] + multiset(Without(requested, resolved))[n] {
      if n in resolved {
        assert n in requested;
      }
    }
  }

  /** The next batch is free of repeats and of settled names, which is why nothing resolves twice. */
  lemma {:induction false} NextBatchIsFresh(target: TargetId, executable: seq<Name>, queue: seq<Work>, results: Results)
    requires queue != [] && EachOnce(executable)
    requires Conserved(target, executable, queue, multiset{}, results)
    ensures var batch := queue[|queue| - 1].batch;
      && EachOnce(batch)
      && Names(batch) <= Names(executable)
      && forall n :: n in batch ==> TestId(target, n) !in results
  {
    var batch := queue[|queue| - 1].batch;
    var settled := Settled(target, executable, results);
    forall n | n in batch
      ensures multiset(batch)[n] == 1 && n in executable && TestId(target, n) !in results
    {
      assert multiset(batch)[n] <= Pending(queue)[n];
      assert multiset(batch)[n] > 0;
      assert multiset(executable)[n] == Pending(queue)[n] + multiset(settled)[n];
      assert n in multiset(executable);
      assert multiset(executable)[n] == 1;
    }
  }

  /** Settling part of the popped batch leaves exactly its unresolved names in hand. */
  lemma {:induction false} ConservedAfterBatch(target: TargetId, executable: seq<Name>, queue: seq<Work>,
                                               results: Results, newResults: Results, resolved: set<Name>)
    requires queue != [] && EachOnce(executable)
    requires Conserved(target, executable, queue, multiset{}, results)
    requires resolved <= Names(queue[|queue| - 1].batch)
    requires newResults.Keys == results.Keys + Ids(target, resolved)
    ensures Conserved(target, executable, queue[..|queue| - 1],
                      multiset(Without(queue[|queue| - 1].batch, resolved)), newResults)
  {
    NextBatchIsFresh(target, executable, queue, results);
    var batch := queue[|queue| - 1].batch;
    AttemptPartitions(batch, resolved);
    forall n | n in resolved ensures n in executable && TestId(target, n) !in results {
      assert n in batch;
    }
    SettledGrows(target, executable, results, newResults, resolved);
  }

  lemma {:induction false} SettledGrows(target: TargetId, executable: seq<Name>, results: Results, newResults: Results,
                                        resolved: set<Name>)
    requires forall n :: n in resolved ==> n in executable && TestId(target, n) !in results
    requires newResults.Keys == results.Keys + Ids(target, resolved)
    ensures multiset(Settled(target, executable, newResults))
         == multiset(Settled(target, executable, results)) + multiset(resolved)
  {
    var before, after := Settled(target, executable, results), Settled(target, executable, newResults);
    assert forall n :: n in resolved ==> TestId(target, n) in newResults;
    assert after == before + resolved;
    assert before !! resolved;
  }

  lemma {:induction false} ConservedAfterSplit(target: TargetId, executable: seq<Name>, queue: seq<Work>,
                                               results: Results, left: Work, right: Work, unresolved: Batch)
    requires unresolved == left.batch + right.batch
    requires Conserved(target, executable, queue, multiset(unresolved), results)
    ensures Conserved(target, executable, queue + [right, left], multiset{}, results)
  {
    PendingOfPair(queue, left, right);
    assert multiset(unresolved) == multiset(left.batch) + multiset(right.batch);
  }

  lemma {:induction false} ConservedAfterExact(target: TargetId, executable: seq<Name>, queue: seq<Work>,
                                               results: Results, n: Name, r: TestResult)
    requires EachOnce(executable)
    requires Conserved(target, executable, queue, multiset{n}, results)
    ensures n in executable && TestId(target, n) !in results
    ensures Conserved(target, executable, queue, multiset{}, results[TestId(target, n) := r])
  {
    var before := Settled(target, executable, results);
    assert multiset(executable)[n] == Pending(queue)[n] + 1 + multiset(before)[n];
    assert n in multiset(executable);
    assert multiset(executable)[n] == 1;
    assert n !in before;
    assert Settled(target, executable, results[TestId(target, n) := r]) == before + {n};
  }

  lemma {:induction false} NothingPending(target: TargetId, executable: seq<Name>, results: Results)
    requires Conserved(target, executable, [], multiset{}, results)
    ensures Ids(target, Names(executable)) <= results.Keys
  {
    forall t | t in Ids(target, Names(executable)) ensures t in results {
      assert t.name in multiset(executable);
      assert t.name in Settled(target, executable, results);
    }
  }

  lemma {:induction false} InitialQueue(batches: seq<Batch>, queue: seq<Work>)
    requires |queue| == |batches|
    requires forall i :: 0 <= i < |queue| ==> queue[i] == Work(batches[|batches| - 1 - i], None, 0)
    ensures Pending(queue) == multiset(Flatten(batches))
    ensures BatchRunsLeft(queue) == 2 * |Flatten(batches)| - |batches|
  {
    if batches != [] {
      FlattenFront(batches);
      InitialQueue(batches[1..], queue[..|queue| - 1]);
    }
  }

  // ---- the ledger of attempts ---------------------------------------------------------------

  /** Where a settled result came from. */
  ghost predicate Justified(world: World, attempts: seq<Attempt>, n: Name, r: TestResult) {
    && r.attempt.Some?
    && 1 <= r.attempt.value <= |attempts|
    && (FromBatch(world, attempts[r.attempt.value - 1], n, r) || FromExact(world, attempts[r.attempt.value - 1], n, r))
  }

  /** Every attempt is faithful, descends from the initial batches, and its credits are on record. */
  ghost predicate AttemptsOk(world: World, target: TargetId, caseCount: int, initial: seq<Batch>,
                             attempts: seq<Attempt>, results: Results)
  {
    forall k :: 0 <= k < |attempts| ==>
      && attempts[k].id == k + 1
      && Faithful(attempts[k], world.batch(k + 1), caseCount)
      && Descends(Work(attempts[k].requested, attempts[k].parent, attempts[k].depth), initial, attempts[..k])
      && forall n :: n in attempts[k].resolved ==>
           TestId(target, n) in results && FromBatch(world, attempts[k], n, results[TestId(target, n)])
  }

  /** Earlier results are untouched and every new one is justified. */
  ghost predicate ResultsOk(world: World, target: TargetId, executable: seq<Name>, attempts: seq<Attempt>,
                            given: Results, results: Results)
  {
    && (forall t :: t in given ==> t in results && results[t] == given[t])
    && (forall t :: t in results && t !in given ==>
          t.target == target && t.name in executable && Justified(world, attempts, t.name, results[t]))
  }

  lemma {:induction false} DescendsLater(w: Work, initial: seq<Batch>, attempts: seq<Attempt>, a: Attempt)
    requires Descends(w, initial, attempts)
    ensures Descends(w, initial, attempts + [a])
  {}

  lemma {:induction false} AttemptsOkStep(world: World, target: TargetId, caseCount: int, initial: seq<Batch>,
                                          attempts: seq<Attempt>, a: Attempt, results: Results, newResults: Results)
    requires AttemptsOk(world, target, caseCount, initial, attempts, results)
    requires forall t :: t in results ==> t in newResults && newResults[t] == results[t]
    requires a.id == |attempts| + 1
    requires Faithful(a, world.batch(a.id), caseCount)
    requires Descends(Work(a.requested, a.parent, a.depth), initial, attempts)
    requires forall n :: n in a.resolved ==>
      TestId(target, n) in newResults && FromBatch(world, a, n, newResults[TestId(target, n)])
    ensures AttemptsOk(world, target, caseCount, initial, attempts + [a], newResults)
  {
    hide Faithful, FromBatch, Descends;
    var longer := attempts + [a];
    forall k | 0 <= k < |longer|
      ensures longer[k].id == k + 1
      ensures Faithful(longer[k], world.batch(k + 1), caseCount)
      ensures Descends(Work(longer[k].requested, longer[k].parent, longer[k].depth), initial, longer[..k])
      ensures forall n :: n in longer[k].resolved ==>
           TestId(target, n) in newResults && FromBatch(world, longer[k], n, newResults[TestId(target, n)])
    {
      if k < |attempts| {
        assert longer[k] == attempts[k] && longer[..k] == attempts[..k];
      } else {
        assert longer[..k] == attempts;
      }
    }
  }

  lemma {:induction false} ResultsOkStep(world: World, target: TargetId, executable: seq<Name>, attempts: seq<Attempt>,
                                         a: Attempt, given: Results, results: Results, newResults: Results)
    requires ResultsOk(world, target, executable, attempts, given, results)
    requires a.id == |attempts| + 1
    requires a.resolved <= Names(executable)
    requires newResults.Keys == results.Keys + Ids(target, a.resolved)
    requires forall t :: t in results ==> newResults[t] == results[t]
    requires forall n :: n in a.resolved ==> FromBatch(world, a, n, newResults[TestId(target, n)])
    ensures ResultsOk(world, target, executable, attempts + [a], given, newResults)
  {
    var longer := attempts + [a];
    forall t | t in newResults && t !in given
      ensures t.target == target && t.name in executable && Justified(world, longer, t.name, newResults[t])
    {
      if t in results {
        var k := results[t].attempt.value - 1;
        assert longer[k] == attempts[k];
      } else {
        assert t in Ids(target, a.resolved);
        assert longer[a.id - 1] == a;
      }
    }
  }

  // ---- the run of one target ----------------------------------------------------------------

  /** `claim_adaptive_attempt`: the attempt limit is checked before the clock is read. */
  method ClaimAdaptiveAttempt(used: nat, attemptLimit: int, world: World, budget: Budget)
    returns (remaining: Option<real>, newUsed: nat, newBudget: Budget)
    ensures remaining.Some? <==> used < attemptLimit && world.remaining(used) > 0.0
    ensures remaining.Some? ==> remaining.value == world.remaining(used) && newUsed == used + 1 && newBudget == budget
    ensures remaining.None? ==> newUsed == used
    ensures remaining.None? ==>
      newBudget == if used >= attemptLimit then AttemptLimitExhausted else TimeoutExhausted
  {
    if used >= attemptLimit {
      return None, used, AttemptLimitExhausted;
    }
    var left := world.remaining(used);
    if left <= 0.0 {
      return None, used, TimeoutExhausted;
    }
    return Some(left), used + 1, budget;
  }

  /** `terminalize_unresolved_tests`. */
  method TerminalizeUnresolved(selected: seq<TestId>, results: Results, status: Status) returns (newResults: Results)
    ensures newResults.Keys == results.Keys + (set t | t in selected)
    ensures forall t :: t in results ==> newResults[t] == results[t]
    ensures forall t :: t in newResults && t !in results ==> newResults[t] == TestResult(status, None)
  {
    newResults := results;
    for i := 0 to |selected|
      invariant newResults.Keys == results.Keys + (set t | t in selected[..i])
      invariant forall t :: t in results ==> newResults[t] == results[t]
      invariant forall t :: t in newResults && t !in results ==> newResults[t] == TestResult(status, None)
    {
      assert selected[..i + 1] == selected[..i] + [selected[i]];
      if selected[i] !in newResults {
        newResults := newResults[selected[i] := TestResult(status, None)];
      }
    }
    assert selected[..|selected|] == selected;
  }

  function Qualify(target: TargetId, names: seq<Name>): (ids: seq<TestId>)
    ensures (set t | t in ids) == Ids(target, Names(names))
  {
    var ids := seq(|names|, i requires 0 <= i < |names| => TestId(target, names[i]));
    assert forall i :: 0 <= i < |names| ==> ids[i] == TestId(target, names[i]) && ids[i] in ids;
    ids
  }

  /** The queue half of the loop invariant. */
  ghost predicate QueueOk(target: TargetId, executable: seq<Name>, initial: seq<Batch>, queue: seq<Work>,
                          held: multiset<Name>, attempts: seq<Attempt>, results: Results)
  {
    && NoEmptyWork(queue)
    && Conserved(target, executable, queue, held, results)
    && (forall w :: w in queue ==> Descends(w, initial, attempts))
  }

  /** The ledger half of the loop invariant. */
  ghost predicate LedgerOk(world: World, target: TargetId, executable: seq<Name>, caseCount: int,
                           initial: seq<Batch>, given: Results, attempts: seq<Attempt>, results: Results)
  {
    && AttemptsOk(world, target, caseCount, initial, attempts, results)
    && ResultsOk(world, target, executable, attempts, given, results)
  }

  /** The work already done plus the work the queue can still cause stays within the initial bound.
      `exactRuns` counts the exact fallbacks already run. */
  ghost predicate BoundOk(executable: seq<Name>, initial: seq<Batch>, queue: seq<Work>, held: nat,
                          attempts: seq<Attempt>, used: nat, exactRuns: nat)
  {
    && used == |attempts| + exactRuns
    && |attempts| + BatchRunsLeft(queue) <= 2 * |executable| - |initial|
    && exactRuns + |Pending(queue)| + held <= |executable|
  }

  function Held(fallback: Option<Name>): multiset<Name> {
    if fallback.Some? then multiset{fallback.value} else multiset{}
  }

  lemma {:induction false} BisectHalves(names: Batch, left: Batch, right: Batch)
    requires Bisect(names) == [left, right]
    ensures left + right == names
  {
    FlattenFront([left, right]);
    FlattenFront([right]);
    assert [left, right][1..] == [right] && [right][1..] == [];
    assert right + [] == right;
  }

  lemma {:induction false} SplitKeepsRun(target: TargetId, executable: seq<Name>, initial: seq<Batch>, rest: seq<Work>,
                                         attempts: seq<Attempt>, results: Results, left: Work, right: Work,
                                         unresolved: Batch)
    requires unresolved == left.batch + right.batch && left.batch != [] && right.batch != []
    requires QueueOk(target, executable, initial, rest, multiset(unresolved), attempts, results)
    requires Descends(left, initial, attempts) && Descends(right, initial, attempts)
    ensures QueueOk(target, executable, initial, rest + [right, left], multiset{}, attempts, results)
  {
    hide Conserved, Descends;
    ConservedAfterSplit(target, executable, rest, results, left, right, unresolved);
    assert forall w :: w in rest + [right, left] <==> w in rest || w == left || w == right;
  }

  /** The halves of what an attempt left, right half first so that the left one is popped next. */
  function Children(a: Attempt): seq<Work> {
    var halves := Bisect(a.unresolved);
    if halves == [] then [] else
      [Work(halves[1], Some(a.id), a.depth + 1), Work(halves[0], Some(a.id), a.depth + 1)]
  }

  function Fallback(a: Attempt): Option<Name> {
    if |a.unresolved| == 1 then Some(a.unresolved[0]) else None
  }

  lemma {:induction false} RequeueCost(queue: seq<Work>, a: Attempt)
    ensures BatchRunsLeft(queue + Children(a))
         <= BatchRunsLeft(queue) + (if a.unresolved == [] then 0 else 2 * |a.unresolved| - 2)
    ensures |Pending(queue + Children(a))| + |Held(Fallback(a))| == |Pending(queue)| + |a.unresolved|
  {
    var halves := Bisect(a.unresolved);
    if halves == [] {
      assert queue + Children(a) == queue;
    } else {
      PendingOfPair(queue, Children(a)[1], Children(a)[0]);
      BisectHalves(a.unresolved, halves[0], halves[1]);
    }
  }

  lemma {:induction false} NothingToRequeue(target: TargetId, executable: seq<Name>, initial: seq<Batch>,
                                            queue: seq<Work>, a: Attempt, attempts: seq<Attempt>, results: Results)
    requires QueueOk(target, executable, initial, queue, multiset(a.unresolved), attempts, results)
    requires |a.unresolved| <= 1
    ensures QueueOk(target, executable, initial, queue + Children(a), Held(Fallback(a)), attempts, results)
  {
    hide QueueOk;
    assert queue + Children(a) == queue;
    assert a.unresolved == [] || a.unresolved == [a.unresolved[0]];
    assert multiset(a.unresolved) == Held(Fallback(a));
  }

  lemma {:induction false} ChildrenDescend(initial: seq<Batch>, a: Attempt, attempts: seq<Attempt>)
    requires 1 <= a.id <= |attempts| && attempts[a.id - 1] == a
    ensures forall w :: w in Children(a) ==> Descends(w, initial, attempts)
    ensures Children(a) != [] ==>
      && |Children(a)| == 2 && Children(a)[0].batch != [] && Children(a)[1].batch != []
      && a.unresolved == Children(a)[1].batch + Children(a)[0].batch
  {
    if Children(a) != [] {
      BisectHalves(a.unresolved, Bisect(a.unresolved)[0], Bisect(a.unresolved)[1]);
    }
  }

  lemma {:induction false} RequeueKeepsQueue(target: TargetId, executable: seq<Name>, initial: seq<Batch>,
                                             queue: seq<Work>, a: Attempt, attempts: seq<Attempt>, results: Results)
    requires QueueOk(target, executable, initial, queue, multiset(a.unresolved), attempts, results)
    requires 1 <= a.id <= |attempts| && attempts[a.id - 1] == a
    ensures QueueOk(target, executable, initial, queue + Children(a), Held(Fallback(a)), attempts, results)
  {
    hide QueueOk, Descends;
    ChildrenDescend(initial, a, attempts);
    if Children(a) == [] {
      NothingToRequeue(target, executable, initial, queue, a, attempts, results);
    } else {
      var right, left := Children(a)[0], Children(a)[1];
      hide Children;
      assert Children(a) == [right, left];
      SplitKeepsRun(target, executable, initial, queue, attempts, results, left, right, a.unresolved);
    }
  }

  lemma {:induction false} LedgerStep(world: World, target: TargetId, executable: seq<Name>, caseCount: int,
                                      initial: seq<Batch>, given: Results, attempts: seq<Attempt>, a: Attempt,
                                      results: Results, newResults: Results)
    requires LedgerOk(world, target, executable, caseCount, initial, given, attempts, results)
    requires a.id == |attempts| + 1
    requires Faithful(a, world.batch(a.id), caseCount)
    requires Descends(Work(a.requested, a.parent, a.depth), initial, attempts)
    requires a.resolved <= Names(executable)
    requires newResults.Keys == results.Keys + Ids(target, a.resolved)
    requires forall t :: t in results ==> newResults[t] == results[t]
    requires forall n :: n in a.resolved ==> FromBatch(world, a, n, newResults[TestId(target, n)])
    ensures LedgerOk(world, target, executable, caseCount, initial, given, attempts + [a], newResults)
  {
    AttemptsOkStep(world, target, caseCount, initial, attempts, a, results, newResults);
    ResultsOkStep(world, target, executable, attempts, a, given, results, newResults);
  }

  lemma {:induction false} QueueStep(target: TargetId, executable: seq<Name>, initial: seq<Batch>, queue: seq<Work>,
                                     attempts: seq<Attempt>, a: Attempt, results: Results, newResults: Results)
    requires queue != [] && EachOnce(executable)
    requires QueueOk(target, executable, initial, queue, multiset{}, attempts, results)
    requires a.requested == queue[|queue| - 1].batch
    requires a.resolved <= Names(a.requested) && a.unresolved == Without(a.requested, a.resolved)
    requires newResults.Keys == results.Keys + Ids(target, a.resolved)
    ensures QueueOk(target, executable, initial, queue[..|queue| - 1], multiset(a.unresolved), attempts + [a],
        newResults)
    ensures |Pending(queue[..|queue| - 1])| + |a.unresolved| <= |Pending(queue)|
    ensures BatchRunsLeft(queue[..|queue| - 1]) + 2 * |a.requested| - 1 == BatchRunsLeft(queue)
    ensures |a.unresolved| <= |a.requested| && a.requested != []
  {
    assert queue[|queue| - 1] in queue;
    ConservedAfterBatch(target, executable, queue, results, newResults, a.resolved);
    WithoutIsWhatIsLeft(a.requested, a.resolved);
    forall w | w in queue[..|queue| - 1] ensures Descends(w, initial, attempts + [a]) {
      DescendsLater(w, initial, attempts, a);
    }
  }

  // ---- in which order, and under which claims -------------------------------------------------

  /** The queue holds what is left of the list, in its order, the front of the list on top. */
  ghost predicate QueueSorted(executable: seq<Name>, queue: seq<Work>) {
    && (forall w :: w in queue ==> InOrder(executable, w.batch))
    && (forall i, j :: 0 <= i < j < |queue| ==> Ahead(executable, queue[j].batch, queue[i].batch))
  }

  /** A batch comes after an attempt: it is part of what the attempt left, or all of it stands behind. */
  ghost predicate Follows(executable: seq<Name>, a: Attempt, batch: Batch) {
    Within(batch, a.unresolved) || Ahead(executable, a.requested, batch)
  }

  /** Depth first and in the order of the list: of two attempts, the later one repeats part of what the
      earlier one left, or lies behind it. */
  ghost predicate DepthFirst(executable: seq<Name>, attempts: seq<Attempt>) {
    forall i, j :: 0 <= i < j < |attempts| ==> Follows(executable, attempts[i], attempts[j].requested)
  }

  ghost predicate WalkOk(executable: seq<Name>, queue: seq<Work>, attempts: seq<Attempt>) {
    && QueueSorted(executable, queue)
    && DepthFirst(executable, attempts)
    && (forall k, w :: 0 <= k < |attempts| && w in queue ==> Follows(executable, attempts[k], w.batch))
  }

  lemma {:induction false} WalkStarts(executable: seq<Name>, batches: seq<Batch>, queue: seq<Work>)
    requires Flatten(batches) == executable && |queue| == |batches|
    requires forall i :: 0 <= i < |queue| ==> queue[i] == Work(batches[|batches| - 1 - i], None, 0)
    ensures WalkOk(executable, queue, [])
  {
    hide InOrder, Ahead, Flatten;
    ListInOrder(executable);
    SplitInOrder(executable, batches);
  }

  lemma {:induction false} WithoutInOrder(executable: seq<Name>, batch: Batch, done: set<Name>)
    requires InOrder(executable, batch)
    ensures InOrder(executable, Without(batch, done)) && Within(Without(batch, done), batch)
  {
    if batch != [] {
      hide InOrder;
      var front, last := batch[..|batch| - 1], batch[|batch| - 1];
      assert front + [last] == batch;
      PartsInOrder(executable, front, [last]);
      WithoutInOrder(executable, front, done);
      if last !in done {
        SnocInOrder(executable, front, Without(front, done), last);
      }
    }
  }

  lemma {:induction false} ChildrenInOrder(executable: seq<Name>, a: Attempt)
    requires InOrder(executable, a.unresolved)
    ensures QueueSorted(executable, Children(a))
    ensures forall w :: w in Children(a) ==> Within(w.batch, a.unresolved)
  {
    if Children(a) != [] {
      var left, right := Bisect(a.unresolved)[0], Bisect(a.unresolved)[1];
      BisectHalves(a.unresolved, left, right);
      hide Ahead, InOrder, Bisect;
      PartsInOrder(executable, left, right);
    }
  }

  lemma {:induction false} FollowsWithin(executable: seq<Name>, a: Attempt, batch: Batch, part: Batch)
    requires Follows(executable, a, batch) && Within(part, batch)
    ensures Follows(executable, a, part)
  {
    hide Ahead;
    if Ahead(executable, a.requested, batch) {
      AheadWithin(executable, a.requested, batch, a.requested, part);
    }
  }

  lemma {:induction false} QueueStaysSorted(executable: seq<Name>, rest: seq<Work>, top: Work, children: seq<Work>)
    requires QueueSorted(executable, rest + [top]) && QueueSorted(executable, children)
    requires forall w :: w in children ==> Within(w.batch, top.batch)
    ensures QueueSorted(executable, rest + children)
  {
    hide Ahead, InOrder, Within;
    var before, after := rest + [top], rest + children;
    forall i, j | 0 <= i < j < |after| ensures Ahead(executable, after[j].batch, after[i].batch) {
      if j < |rest| {
        assert before[i] == after[i] && before[j] == after[j];
      } else if i >= |rest| {
        assert after[i] == children[i - |rest|] && after[j] == children[j - |rest|];
      } else {
        assert before[i] == after[i] && before[|rest|] == top;
        assert after[j] in children;
        assert Within(rest[i].batch, rest[i].batch) by { WithinItself(rest[i].batch); }
        AheadWithin(executable, top.batch, rest[i].batch, after[j].batch, rest[i].batch);
      }
    }
  }

  lemma {:induction false} WithinItself(x: Batch)
    ensures Within(x, x)
  {}

  lemma {:induction false} WalkStep(executable: seq<Name>, queue: seq<Work>, attempts: seq<Attempt>, a: Attempt)
    requires queue != [] && WalkOk(executable, queue, attempts)
    requires a.requested == queue[|queue| - 1].batch && a.unresolved == Without(a.requested, a.resolved)
    ensures WalkOk(executable, queue[..|queue| - 1] + Children(a), attempts + [a])
  {
    hide Ahead, InOrder, Within, Without, Children, Follows;
    var rest, top, longer := queue[..|queue| - 1], queue[|queue| - 1], attempts + [a];
    assert queue == rest + [top] && top in queue;
    WithoutInOrder(executable, a.requested, a.resolved);
    ChildrenInOrder(executable, a);
    forall w | w in Children(a) ensures Within(w.batch, top.batch) {
      WithinTrans(w.batch, a.unresolved, top.batch);
    }
    QueueStaysSorted(executable, rest, top, Children(a));
    forall i, j | 0 <= i < j < |longer| ensures Follows(executable, longer[i], longer[j].requested) {
      assert longer[i] == attempts[i];
      if j == |attempts| {
        assert Follows(executable, attempts[i], top.batch);
      } else {
        assert longer[j] == attempts[j];
      }
    }
    forall k, w | 0 <= k < |longer| && w in rest + Children(a) ensures Follows(executable, longer[k], w.batch) {
      AttemptBeforeWork(executable, rest, top, attempts, a, k, w);
    }
  }

  lemma {:induction false} WithinTrans(x: Batch, y: Batch, z: Batch)
    requires Within(x, y) && Within(y, z)
    ensures Within(x, z)
  {}

  lemma {:induction false} AttemptBeforeWork(executable: seq<Name>, rest: seq<Work>, top: Work, attempts: seq<Attempt>,
                                             a: Attempt, k: nat, w: Work)
    requires WalkOk(executable, rest + [top], attempts) && a.requested == top.batch && k <= |attempts|
    requires w in rest || (w in Children(a) && Within(w.batch, a.unresolved) && Within(w.batch, top.batch))
    ensures Follows(executable, (attempts + [a])[k], w.batch)
  {
    hide Ahead, InOrder, Within, Children;
    var queue := rest + [top];
    assert top in queue;
    if k < |attempts| {
      hide Follows;
      assert Follows(executable, attempts[k], top.batch);
      if w in rest {
        assert w in queue;
      } else {
        FollowsWithin(executable, attempts[k], top.batch, w.batch);
      }
    } else if w in rest {
      var i :| 0 <= i < |rest| && rest[i] == w;
      assert queue[i] == w && queue[|rest|] == top;
    }
  }

  /** The attempts among the first `n` that leave a single test to an exact run. */
  function Fallbacks(attempts: seq<Attempt>, n: nat): nat
    requires n <= |attempts|
  {
    if n == 0 then 0 else Fallbacks(attempts, n - 1) + (if |attempts[n - 1].unresolved| == 1 then 1 else 0)
  }

  /** The claims made before batch run `k`: one for every batch run and every exact run before it. */
  function BatchClaim(attempts: seq<Attempt>, k: nat): nat
    requires k <= |attempts|
  {
    k + Fallbacks(attempts, k)
  }

  /** The claims made before the exact run that follows batch run `k`. */
  function ExactClaim(attempts: seq<Attempt>, k: nat): nat
    requires k < |attempts|
  {
    BatchClaim(attempts, k) + 1
  }

  /** The exact run after batch run `k` timed out, and it was the recovery deadline that cut it short. */
  predicate CutShort(world: World, attempts: seq<Attempt>, k: nat, exactTimeout: real)
    requires k < |attempts|
  {
    world.exact(k + 1) == TestTimeout && world.remaining(ExactClaim(attempts, k)) < exactTimeout
  }

  /** If batch run `k` left one test, its exact run was not cut short and its status is on record. */
  ghost predicate ExactRecorded(world: World, target: TargetId, attempts: seq<Attempt>, k: nat, exactTimeout: real,
                                results: Results)
    requires k < |attempts|
  {
    |attempts[k].unresolved| == 1 ==>
      && !CutShort(world, attempts, k, exactTimeout)
      && TestId(target, attempts[k].unresolved[0]) in results
      && results[TestId(target, attempts[k].unresolved[0])] == TestResult(world.exact(k + 1), Some(k + 1))
  }

  ghost predicate ExactsRecorded(world: World, target: TargetId, attempts: seq<Attempt>, n: nat, exactTimeout: real,
                                 results: Results)
    requires n <= |attempts|
  {
    forall k: nat :: k < n ==> ExactRecorded(world, target, attempts, k, exactTimeout, results)
  }

  /** No run has settled the test. */
  predicate Unsettled(results: Results, t: TestId) { t in results ==> results[t].attempt.None? }

  /** The last batch run left one test, and no exact run of it has settled it. */
  ghost predicate FallbackOpen(target: TargetId, attempts: seq<Attempt>, results: Results) {
    attempts != [] && |attempts[|attempts| - 1].unresolved| == 1
      && Unsettled(results, TestId(target, attempts[|attempts| - 1].unresolved[0]))
  }

  /** All exact runs are on record, and the claim that comes next is for a batch run. */
  ghost predicate BetweenRounds(world: World, target: TargetId, attempts: seq<Attempt>, used: nat, exactTimeout: real,
                                results: Results)
  {
    used == BatchClaim(attempts, |attempts|)
      && ExactsRecorded(world, target, attempts, |attempts|, exactTimeout, results)
  }

  /** All exact runs but the last are on record, and the claim that comes next is for that one. */
  ghost predicate BeforeExact(world: World, target: TargetId, attempts: seq<Attempt>, used: nat, exactTimeout: real,
                              results: Results)
  {
    FallbackOpen(target, attempts, results) && used == ExactClaim(attempts, |attempts| - 1)
      && ExactsRecorded(world, target, attempts, |attempts| - 1, exactTimeout, results)
  }

  /** Why the loop is over, and with which claims. It has run its course; or the next claim was refused,
      by the limit or else by the clock; or the last exact run was cut short by the recovery deadline. */
  ghost predicate Halted(world: World, target: TargetId, attempts: seq<Attempt>, used: nat, budget: Budget,
                         exactTimeout: real, attemptLimit: int, results: Results)
  {
    var refused := BetweenRounds(world, target, attempts, used, exactTimeout, results)
                || BeforeExact(world, target, attempts, used, exactTimeout, results);
    match budget
    case AttemptLimitExhausted => refused && used >= attemptLimit
    case TimeoutExhausted =>
      || (refused && used < attemptLimit && world.remaining(used) <= 0.0)
      || (used > 0 && BeforeExact(world, target, attempts, used - 1, exactTimeout, results)
          && CutShort(world, attempts, |attempts| - 1, exactTimeout))
    case _ => BetweenRounds(world, target, attempts, used, exactTimeout, results)
  }

  /** Every claim was granted: under the limit, with time left. */
  ghost predicate Granted(world: World, used: nat, attemptLimit: int) {
    forall c: nat :: c < used ==> c < attemptLimit && world.remaining(c) > 0.0
  }

  lemma {:induction false} FallbacksPrefix(attempts: seq<Attempt>, a: Attempt, n: nat)
    requires n <= |attempts|
    ensures Fallbacks(attempts + [a], n) == Fallbacks(attempts, n)
  {
    if n > 0 {
      FallbacksPrefix(attempts, a, n - 1);
    }
  }

  lemma {:induction false} ExactsLater(world: World, target: TargetId, attempts: seq<Attempt>, a: Attempt,
                                       exactTimeout: real, results: Results, newResults: Results)
    requires ExactsRecorded(world, target, attempts, |attempts|, exactTimeout, results)
    requires forall t :: t in results ==> t in newResults && newResults[t] == results[t]
    ensures ExactsRecorded(world, target, attempts + [a], |attempts|, exactTimeout, newResults)
  {
    forall k: nat | k < |attempts|
      ensures ExactRecorded(world, target, attempts + [a], k, exactTimeout, newResults)
    {
      FallbacksPrefix(attempts, a, k);
      assert ExactRecorded(world, target, attempts, k, exactTimeout, results);
    }
  }

  /** After a batch run the next claim is for the exact run of the test it left, if it left just one. */
  lemma {:induction false} AfterBatch(world: World, target: TargetId, attempts: seq<Attempt>, a: Attempt, used: nat,
                                      exactTimeout: real, results: Results, newResults: Results)
    requires BetweenRounds(world, target, attempts, used, exactTimeout, results)
    requires forall t :: t in results ==> t in newResults && newResults[t] == results[t]
    requires |a.unresolved| == 1 ==> TestId(target, a.unresolved[0]) !in newResults
    ensures if |a.unresolved| == 1 then BeforeExact(world, target, attempts + [a], used + 1, exactTimeout, newResults)
            else BetweenRounds(world, target, attempts + [a], used + 1, exactTimeout, newResults)
  {
    ExactsLater(world, target, attempts, a, exactTimeout, results, newResults);
    FallbacksPrefix(attempts, a, |attempts|);
    hide CutShort;
  }

  lemma {:induction false} AfterExact(world: World, target: TargetId, attempts: seq<Attempt>, used: nat,
                                      exactTimeout: real, results: Results)
    requires BeforeExact(world, target, attempts, used, exactTimeout, results)
    requires TestId(target, attempts[|attempts| - 1].unresolved[0]) !in results
    requires !CutShort(world, attempts, |attempts| - 1, exactTimeout)
    ensures var t := TestId(target, attempts[|attempts| - 1].unresolved[0]);
      BetweenRounds(world, target, attempts, used + 1, exactTimeout,
                    results[t := TestResult(world.exact(|attempts|), Some(|attempts|))])
  {
    var t := TestId(target, attempts[|attempts| - 1].unresolved[0]);
    var newResults := results[t := TestResult(world.exact(|attempts|), Some(|attempts|))];
    forall k: nat | k < |attempts| ensures ExactRecorded(world, target, attempts, k, exactTimeout, newResults) {
      if k < |attempts| - 1 {
        assert ExactRecorded(world, target, attempts, k, exactTimeout, results);
      }
    }
  }

  /** Settling the rest without a run does not change why the loop was over. */
  lemma {:induction false} HaltedLater(world: World, target: TargetId, attempts: seq<Attempt>, used: nat,
                                       budget: Budget, exactTimeout: real, attemptLimit: int, results: Results,
                                       newResults: Results)
    requires Halted(world, target, attempts, used, budget, exactTimeout, attemptLimit, results)
    requires forall t :: t in results ==> t in newResults && newResults[t] == results[t]
    requires forall t :: t in newResults && t !in results ==> newResults[t].attempt.None?
    ensures Halted(world, target, attempts, used, budget, exactTimeout, attemptLimit, newResults)
  {
    forall k: nat | k < |attempts| && ExactRecorded(world, target, attempts, k, exactTimeout, results)
      ensures ExactRecorded(world, target, attempts, k, exactTimeout, newResults)
    {}
    hide CutShort, ExactRecorded, BatchClaim;
  }

  /** A target ends on the time budget only when the clock refused the next claim, or when the last claim
      was for an exact run that timed out with less time left than a test may take. */
  lemma {:induction false} TimeoutHasCause(world: World, target: TargetId, attempts: seq<Attempt>, used: nat,
                                           exactTimeout: real, attemptLimit: int, results: Results)
    requires Halted(world, target, attempts, used, TimeoutExhausted, exactTimeout, attemptLimit, results)
    ensures || (used < attemptLimit && world.remaining(used) <= 0.0)
            || (used > 0 && attempts != [] && |attempts[|attempts| - 1].unresolved| == 1
                && world.exact(|attempts|) == TestTimeout && world.remaining(used - 1) < exactTimeout)
  {
    hide ExactsRecorded, FallbackOpen, BatchClaim;
    if used > 0 && BeforeExact(world, target, attempts, used - 1, exactTimeout, results) {
      ClaimedForExact(world, target, attempts, used - 1, exactTimeout, results);
    }
  }

  /** An exact run that was claimed and not cut short settles its test with its status, a timeout of its
      own included, and the loop goes on: its budget is still running unless a later claim is refused. */
  lemma {:induction false} ExactRunIsRecorded(world: World, target: TargetId, attempts: seq<Attempt>, k: nat,
                                              used: nat, budget: Budget, exactTimeout: real, attemptLimit: int,
                                              results: Results)
    requires Halted(world, target, attempts, used, budget, exactTimeout, attemptLimit, results)
    requires k < |attempts| && |attempts[k].unresolved| == 1 && ExactClaim(attempts, k) < used
    requires world.exact(k + 1) != TestTimeout || world.remaining(ExactClaim(attempts, k)) >= exactTimeout
    ensures var t := TestId(target, attempts[k].unresolved[0]);
      t in results && results[t] == TestResult(world.exact(k + 1), Some(k + 1))
    ensures budget == TimeoutExhausted && k == |attempts| - 1 ==>
      used == ExactClaim(attempts, k) + 1 && used < attemptLimit && world.remaining(used) <= 0.0
  {
    assert ExactRecorded(world, target, attempts, k, exactTimeout, results);
  }

  /** A test that is queued or held is not settled. */
  lemma {:induction false} HeldIsOpen(target: TargetId, executable: seq<Name>, queue: seq<Work>, n: Name,
                                      results: Results)
    requires EachOnce(executable) && Conserved(target, executable, queue, multiset{n}, results)
    ensures n in executable && TestId(target, n) !in results
  {
    ConservedAfterExact(target, executable, queue, results, n, TestResult(TestFailed, None));
  }

  /** One batch attempt with its bookkeeping and requeueing. */
  method RunNext(world: World, target: TargetId, ghost executable: seq<Name>, caseCount: int,
                 ghost initial: seq<Batch>, ghost given: Results, queue: seq<Work>, attempts: seq<Attempt>,
                 results: Results)
    returns (newQueue: seq<Work>, newAttempts: seq<Attempt>, newResults: Results, fallback: Option<Name>)
    requires EachOnce(executable) && queue != []
    requires QueueOk(target, executable, initial, queue, multiset{}, attempts, results)
    requires LedgerOk(world, target, executable, caseCount, initial, given, attempts, results)
    requires WalkOk(executable, queue, attempts)
    ensures QueueOk(target, executable, initial, newQueue, Held(fallback), newAttempts, newResults)
    ensures LedgerOk(world, target, executable, caseCount, initial, given, newAttempts, newResults)
    ensures WalkOk(executable, newQueue, newAttempts)
    ensures |newAttempts| == |attempts| + 1 && newAttempts[..|attempts|] == attempts
    ensures forall t :: t in results ==> t in newResults && newResults[t] == results[t]
    ensures fallback == Fallback(newAttempts[|attempts|])
    ensures BatchRunsLeft(newQueue) < BatchRunsLeft(queue)
    ensures |Pending(newQueue)| + |Held(fallback)| <= |Pending(queue)|
  {
    hide Conserved, AttemptsOk, ResultsOk, Trustworthy, Credited, Blame, AcceptedAndClosed, FromBatch, Bisect, Pending,
      WalkOk, Children;
    var work := queue[|queue| - 1];
    assert work in queue;
    NextBatchIsFresh(target, executable, queue, results);
    var attempt;
    attempt, newResults := RunBatch(target, work, |attempts| + 1, caseCount, world, results);
    newAttempts := attempts + [attempt];
    LedgerStep(world, target, executable, caseCount, initial, given, attempts, attempt, results, newResults);
    QueueStep(target, executable, initial, queue, attempts, attempt, results, newResults);
    newQueue, fallback := queue[..|queue| - 1] + Children(attempt), Fallback(attempt);
    RequeueKeepsQueue(target, executable, initial, queue[..|queue| - 1], attempt, newAttempts, newResults);
    RequeueCost(queue[..|queue| - 1], attempt);
    WalkStep(executable, queue, attempts, attempt);
  }

  lemma {:induction false} LedgerAfterExact(world: World, target: TargetId, executable: seq<Name>, caseCount: int,
                                            initial: seq<Batch>, given: Results, attempts: seq<Attempt>,
                                            results: Results, n: Name)
    requires LedgerOk(world, target, executable, caseCount, initial, given, attempts, results)
    requires attempts != [] && attempts[|attempts| - 1].unresolved == [n]
    requires n in executable && TestId(target, n) !in results
    ensures LedgerOk(world, target, executable, caseCount, initial, given, attempts,
                     results[TestId(target, n) := TestResult(world.exact(|attempts|), Some(|attempts|))])
  {
    hide Faithful, Descends, FromBatch;
    var newResults := results[TestId(target, n) := TestResult(world.exact(|attempts|), Some(|attempts|))];
    assert attempts[|attempts| - 1].id == |attempts|;
    forall k, m | 0 <= k < |attempts| && m in attempts[k].resolved
      ensures TestId(target, m) in newResults && FromBatch(world, attempts[k], m, newResults[TestId(target, m)])
    {
      assert TestId(target, m) in results;
    }
  }

  /** What is known once the loop is over: nothing the ledger recorded is disturbed, and unless a
      budget ran out every executable name has its result. */
  ghost predicate Finished(world: World, target: TargetId, executable: seq<Name>, caseCount: int,
                           initial: seq<Batch>, given: Results, attempts: seq<Attempt>, results: Results,
                           budget: Budget)
  {
    && LedgerOk(world, target, executable, caseCount, initial, given, attempts, results)
    && DepthFirst(executable, attempts)
    && (budget == Running <==> Ids(target, Names(executable)) <= results.Keys)
  }

  lemma {:induction false} NoClaimYet(world: World, target: TargetId, exactTimeout: real, given: Results)
    ensures BetweenRounds(world, target, [], 0, exactTimeout, given)
  {}

  lemma {:induction false} WalkedSoFar(executable: seq<Name>, queue: seq<Work>, attempts: seq<Attempt>)
    requires WalkOk(executable, queue, attempts)
    ensures DepthFirst(executable, attempts)
  {
    hide DepthFirst, QueueSorted, Follows;
  }

  lemma {:induction false} QueuedIsOpen(target: TargetId, executable: seq<Name>, initial: seq<Batch>,
                                        queue: seq<Work>, attempts: seq<Attempt>, results: Results)
    requires EachOnce(executable) && queue != []
    requires QueueOk(target, executable, initial, queue, multiset{}, attempts, results)
    ensures !(Ids(target, Names(executable)) <= results.Keys)
  {
    hide Conserved, EachOnce, Descends;
    NextBatchIsFresh(target, executable, queue, results);
    var top := queue[|queue| - 1];
    assert top in queue && top.batch[0] in top.batch;
    assert top.batch[0] in Names(executable);
    assert TestId(target, top.batch[0]) in Ids(target, Names(executable));
  }

  lemma {:induction false} FallbackIsOpen(target: TargetId, executable: seq<Name>, initial: seq<Batch>,
                                          queue: seq<Work>, attempts: seq<Attempt>, results: Results, n: Name)
    requires EachOnce(executable) && QueueOk(target, executable, initial, queue, multiset{n}, attempts, results)
    ensures TestId(target, n) !in results && !(Ids(target, Names(executable)) <= results.Keys)
  {
    hide Conserved, EachOnce, Descends;
    HeldIsOpen(target, executable, queue, n, results);
    assert TestId(target, n) in Ids(target, Names(executable));
  }

  lemma {:induction false} AfterRound(world: World, target: TargetId, attempts: seq<Attempt>,
                                      newAttempts: seq<Attempt>, used: nat, exactTimeout: real, results: Results,
                                      newResults: Results)
    requires |newAttempts| == |attempts| + 1 && newAttempts[..|attempts|] == attempts
    requires BetweenRounds(world, target, attempts, used, exactTimeout, results)
    requires forall t :: t in results ==> t in newResults && newResults[t] == results[t]
    requires var a := newAttempts[|attempts|]; Fallback(a).Some? ==> TestId(target, Fallback(a).value) !in newResults
    ensures if Fallback(newAttempts[|attempts|]).Some?
            then BeforeExact(world, target, newAttempts, used + 1, exactTimeout, newResults)
            else BetweenRounds(world, target, newAttempts, used + 1, exactTimeout, newResults)
  {
    hide BetweenRounds, BeforeExact;
    var a := newAttempts[|attempts|];
    assert newAttempts == attempts + [a];
    AfterBatch(world, target, attempts, a, used, exactTimeout, results, newResults);
  }

  lemma {:induction false} ClaimedForExact(world: World, target: TargetId, attempts: seq<Attempt>, used: nat,
                                           exactTimeout: real, results: Results)
    requires BeforeExact(world, target, attempts, used, exactTimeout, results)
    ensures attempts != [] && |attempts[|attempts| - 1].unresolved| == 1
    ensures CutShort(world, attempts, |attempts| - 1, exactTimeout)
       <==> world.exact(|attempts|) == TestTimeout && world.remaining(used) < exactTimeout
  {
    hide ExactsRecorded;
  }

  /** The exact fallback of a single test: it needs a claim of its own, and a timeout that the recovery
      deadline brought about ends the whole target. */
  method RunExact(world: World, target: TargetId, ghost executable: seq<Name>, ghost caseCount: int,
                  ghost batches: seq<Batch>, ghost given: Results, ghost queue: seq<Work>, attempts: seq<Attempt>,
                  results: Results, used: nat, exactTimeout: real, attemptLimit: int, name: Name)
    returns (newResults: Results, newUsed: nat, budget: Budget)
    requires EachOnce(executable) && attempts != [] && attempts[|attempts| - 1].unresolved == [name]
    requires QueueOk(target, executable, batches, queue, multiset{name}, attempts, results)
    requires LedgerOk(world, target, executable, caseCount, batches, given, attempts, results)
    requires BeforeExact(world, target, attempts, used, exactTimeout, results)
    requires Granted(world, used, attemptLimit) && used <= if attemptLimit > 0 then attemptLimit else 0
    ensures LedgerOk(world, target, executable, caseCount, batches, given, attempts, newResults)
    ensures Granted(world, newUsed, attemptLimit) && newUsed <= if attemptLimit > 0 then attemptLimit else 0
    ensures used <= newUsed <= used + 1 && (budget == Running ==> newUsed == used + 1)
    ensures Halted(world, target, attempts, newUsed, budget, exactTimeout, attemptLimit, newResults)
    ensures budget == Running ==> QueueOk(target, executable, batches, queue, multiset{}, attempts, newResults)
    ensures budget != Running ==> newResults == results && !(Ids(target, Names(executable)) <= results.Keys)
    ensures budget != Complete
  {
    hide QueueOk, LedgerOk, BetweenRounds, BeforeExact, CutShort;
    FallbackIsOpen(target, executable, batches, queue, attempts, results, name);
    ClaimedForExact(world, target, attempts, used, exactTimeout, results);
    newResults := results;
    var remaining;
    remaining, newUsed, budget := ClaimAdaptiveAttempt(used, attemptLimit, world, Running);
    if remaining.None? {
      return;
    }
    var recoveryLimited := remaining.value < exactTimeout;
    var status := world.exact(|attempts|);
    if status == TestTimeout && recoveryLimited {
      budget := TimeoutExhausted;
      return;
    }
    ExactOk(world, target, executable, caseCount, batches, given, queue, attempts, results, name);
    AfterExact(world, target, attempts, used, exactTimeout, results);
    newResults := results[TestId(target, name) := TestResult(status, Some(|attempts|))];
  }

  /** The adaptive loop over one target's queue. */
  method RunQueue(world: World, target: TargetId, executable: seq<Name>, caseCount: int, batches: seq<Batch>,
                  exactTimeout: real, attemptLimit: int, given: Results)
    returns (attempts: seq<Attempt>, results: Results, used: nat, budget: Budget, ghost exactRuns: nat)
    requires EachOnce(executable)
    requires Flatten(batches) == executable && forall b :: b in batches ==> b != []
    requires forall n :: n in executable ==> TestId(target, n) !in given
    ensures Finished(world, target, executable, caseCount, batches, given, attempts, results, budget)
    ensures used <= if attemptLimit > 0 then attemptLimit else 0
    ensures |attempts| <= 2 * |executable| - |batches| && exactRuns <= |executable|
    ensures |attempts| <= used <= |attempts| + exactRuns
    ensures Granted(world, used, attemptLimit)
    ensures Halted(world, target, attempts, used, budget, exactTimeout, attemptLimit, results)
    ensures budget != Complete
  {
    hide QueueOk, LedgerOk, Conserved, Pending, BatchRunsLeft, WalkOk, DepthFirst, BetweenRounds, BeforeExact, CutShort;
    var queue := seq(|batches|, i requires 0 <= i < |batches| => Work(batches[|batches| - 1 - i], None, 0));
    attempts, results, used, budget, exactRuns := [], given, 0, Running, 0;
    StartOk(world, target, executable, caseCount, batches, queue, given);
    WalkStarts(executable, batches, queue);
    NoClaimYet(world, target, exactTimeout, given);
    while queue != []
      invariant QueueOk(target, executable, batches, queue, multiset{}, attempts, results)
      invariant LedgerOk(world, target, executable, caseCount, batches, given, attempts, results)
      invariant BoundOk(executable, batches, queue, 0, attempts, used, exactRuns)
      invariant WalkOk(executable, queue, attempts)
      invariant BetweenRounds(world, target, attempts, used, exactTimeout, results)
      invariant Granted(world, used, attemptLimit)
      invariant used <= if attemptLimit > 0 then attemptLimit else 0
      invariant budget == Running
      decreases BatchRunsLeft(queue)
    {
      QueueNonneg(target, executable, batches, queue, multiset{}, attempts, results);
      var remaining;
      remaining, used, budget := ClaimAdaptiveAttempt(used, attemptLimit, world, budget);
      WalkedSoFar(executable, queue, attempts);
      if remaining.None? {
        QueuedIsOpen(target, executable, batches, queue, attempts, results);
        return;
      }
      ghost var attemptsBefore, resultsBefore := attempts, results;
      var fallback;
      queue, attempts, results, fallback :=
        RunNext(world, target, executable, caseCount, batches, given, queue, attempts, results);
      QueueNonneg(target, executable, batches, queue, Held(fallback), attempts, results);
      WalkedSoFar(executable, queue, attempts);
      if fallback.Some? {
        FallbackIsOpen(target, executable, batches, queue, attempts, results, fallback.value);
      }
      AfterRound(world, target, attemptsBefore, attempts, used - 1, exactTimeout, resultsBefore, results);
      if fallback.Some? {
        ghost var usedBefore := used;
        results, used, budget := RunExact(world, target, executable, caseCount, batches, given, queue, attempts,
                                          results, used, exactTimeout, attemptLimit, fallback.value);
        exactRuns := exactRuns + (used - usedBefore);
        if budget != Running {
          return;
        }
      }
    }
    QueueNonneg(target, executable, batches, queue, multiset{}, attempts, results);
    QueueDone(target, executable, batches, attempts, results);
    WalkedSoFar(executable, queue, attempts);
  }

  lemma {:induction false} StartOk(world: World, target: TargetId, executable: seq<Name>, caseCount: int,
                                   batches: seq<Batch>, queue: seq<Work>, given: Results)
    requires |queue| == |batches|
    requires forall i :: 0 <= i < |queue| ==> queue[i] == Work(batches[|batches| - 1 - i], None, 0)
    requires Flatten(batches) == executable && forall b :: b in batches ==> b != []
    requires forall n :: n in executable ==> TestId(target, n) !in given
    ensures QueueOk(target, executable, batches, queue, multiset{}, [], given)
    ensures LedgerOk(world, target, executable, caseCount, batches, given, [], given)
    ensures BoundOk(executable, batches, queue, 0, [], 0, 0)
  {
    InitialQueue(batches, queue);
    forall w | w in queue ensures w.batch != [] && Descends(w, batches, []) {
      var i :| 0 <= i < |queue| && queue[i] == w;
      assert batches[|batches| - 1 - i] in batches;
    }
    assert Settled(target, executable, given) == {};
    assert |multiset(executable)| == |executable|;
  }

  lemma {:induction false} QueueNonneg(target: TargetId, executable: seq<Name>, initial: seq<Batch>, queue: seq<Work>,
                                       held: multiset<Name>, attempts: seq<Attempt>, results: Results)
    requires QueueOk(target, executable, initial, queue, held, attempts, results)
    ensures 0 <= BatchRunsLeft(queue)
  {
    BatchRunsLeftNonneg(queue);
  }

  lemma {:induction false} ExactOk(world: World, target: TargetId, executable: seq<Name>, caseCount: int,
                                   initial: seq<Batch>, given: Results, queue: seq<Work>, attempts: seq<Attempt>,
                                   results: Results, n: Name)
    requires EachOnce(executable)
    requires QueueOk(target, executable, initial, queue, multiset{n}, attempts, results)
    requires LedgerOk(world, target, executable, caseCount, initial, given, attempts, results)
    requires attempts != [] && attempts[|attempts| - 1].unresolved == [n]
    ensures var newResults := results[TestId(target, n) := TestResult(world.exact(|attempts|), Some(|attempts|))];
      && QueueOk(target, executable, initial, queue, multiset{}, attempts, newResults)
      && LedgerOk(world, target, executable, caseCount, initial, given, attempts, newResults)
  {
    hide LedgerOk, Descends;
    ConservedAfterExact(target, executable, queue, results, n,
                        TestResult(world.exact(|attempts|), Some(|attempts|)));
    LedgerAfterExact(world, target, executable, caseCount, initial, given, attempts, results, n);
  }

  lemma {:induction false} QueueDone(target: TargetId, executable: seq<Name>, initial: seq<Batch>,
                                     attempts: seq<Attempt>, results: Results)
    requires QueueOk(target, executable, initial, [], multiset{}, attempts, results)
    ensures Ids(target, Names(executable)) <= results.Keys
  {
    NothingPending(target, executable, results);
  }

  // ---- one target, then the whole suite -----------------------------------------------------

  /** Where a final result came from: a credited batch, an exact run, or an exhausted budget. */
  ghost predicate Explained(world: World, attempts: seq<Attempt>, budget: Budget, n: Name, r: TestResult) {
    || Justified(world, attempts, n, r)
    || (budget == AttemptLimitExhausted && r == TestResult(TestFailed, None))
    || (budget == TimeoutExhausted && r == TestResult(TestTimeout, None))
  }

  datatype TargetRecord = TargetRecord(target: TargetId, initial: seq<Batch>, attempts: seq<Attempt>,
                                       used: nat, budget: Budget)

  datatype TargetPlan = TargetPlan(target: TargetId, caseCount: int)

  datatype Limits = Limits(batchSize: int, maxBytes: int, exactTimeout: real, attemptLimit: int)

  /** Every test has its result from a run. */
  ghost predicate AllRun(target: TargetId, executable: seq<Name>, results: Results) {
    forall n :: n in executable ==> TestId(target, n) in results && results[TestId(target, n)].attempt.Some?
  }

  /** What a target's record promises: bounds on the work done, honest attempts in order, only granted
      claims, a good reason for the end, explained results. */
  ghost predicate RecordOk(world: World, executable: seq<Name>, caseCount: int, limits: Limits, results: Results,
                           record: TargetRecord)
  {
    && IsSplit(record.initial, executable, limits.batchSize, limits.maxBytes)
    && (record.used <= if limits.attemptLimit > 0 then limits.attemptLimit else 0)
    && |record.attempts| <= 2 * |executable| - |record.initial|
    && |record.attempts| <= record.used <= |record.attempts| + |executable|
    && record.budget != Running
    && Granted(world, record.used, limits.attemptLimit)
    && Halted(world, record.target, record.attempts, record.used, record.budget, limits.exactTimeout,
              limits.attemptLimit, results)
    && DepthFirst(executable, record.attempts)
    && (record.budget == Complete <==> AllRun(record.target, executable, results))
    && AttemptsOk(world, record.target, caseCount, record.initial, record.attempts, results)
    && (forall n :: n in executable ==>
          TestId(record.target, n) in results
          && Explained(world, record.attempts, record.budget, n, results[TestId(record.target, n)]))
  }

  /** The tests of one target get their results, and no others change. */
  ghost predicate TargetOk(world: World, executable: seq<Name>, caseCount: int, limits: Limits,
                           given: Results, results: Results, record: TargetRecord)
  {
    && RecordOk(world, executable, caseCount, limits, results, record)
    && results.Keys == given.Keys + Ids(record.target, Names(executable))
    && (forall t :: t in given ==> results[t] == given[t])
  }

  lemma {:induction false} TerminalizedOk(world: World, target: TargetId, executable: seq<Name>, caseCount: int,
                                          initial: seq<Batch>, given: Results, attempts: seq<Attempt>, results: Results,
                                          budget: Budget, newResults: Results)
    requires Finished(world, target, executable, caseCount, initial, given, attempts, results, budget)
    requires forall n :: n in executable ==> TestId(target, n) !in given
    requires newResults.Keys == results.Keys + Ids(target, Names(executable))
    requires forall t :: t in results ==> newResults[t] == results[t]
    requires budget != Running ==> forall t :: t in newResults && t !in results ==>
               newResults[t] == TestResult(if budget == AttemptLimitExhausted then TestFailed else TestTimeout, None)
    requires budget in {Running, AttemptLimitExhausted, TimeoutExhausted}
    ensures newResults.Keys == given.Keys + Ids(target, Names(executable))
    ensures forall t :: t in given ==> newResults[t] == given[t]
    ensures AttemptsOk(world, target, caseCount, initial, attempts, newResults)
    ensures forall n :: n in executable ==>
              Explained(world, attempts, budget, n, newResults[TestId(target, n)])
  {
    hide Faithful, Descends, FromBatch, FromExact, Justified;
    forall t | t in newResults ensures t in given || t in Ids(target, Names(executable)) {
      if t in results && t !in given {
        assert t == TestId(target, t.name);
      }
    }
    forall n | n in executable ensures Explained(world, attempts, budget, n, newResults[TestId(target, n)]) {
      assert TestId(target, n) in Ids(target, Names(executable));
    }
    forall k, m | 0 <= k < |attempts| && m in attempts[k].resolved
      ensures TestId(target, m) in newResults && FromBatch(world, attempts[k], m, newResults[TestId(target, m)])
    {
      assert TestId(target, m) in results;
    }
  }

  lemma {:induction false} RunIffComplete(world: World, target: TargetId, executable: seq<Name>, caseCount: int,
                                          initial: seq<Batch>, given: Results, attempts: seq<Attempt>,
                                          results: Results, budget: Budget, newResults: Results)
    requires Finished(world, target, executable, caseCount, initial, given, attempts, results, budget)
    requires forall n :: n in executable ==> TestId(target, n) !in given
    requires newResults.Keys == results.Keys + Ids(target, Names(executable))
    requires forall t :: t in results ==> newResults[t] == results[t]
    requires forall t :: t in newResults && t !in results ==> newResults[t].attempt.None?
    ensures budget == Running <==> AllRun(target, executable, newResults)
  {
    hide AttemptsOk, DepthFirst, FromBatch, FromExact;
    if budget == Running {
      forall n | n in executable
        ensures TestId(target, n) in newResults && newResults[TestId(target, n)].attempt.Some?
      {
        assert TestId(target, n) in Ids(target, Names(executable));
        assert TestId(target, n) in results;
      }
    } else {
      var t :| t in Ids(target, Names(executable)) && t !in results;
      assert t == TestId(target, t.name) && t.name in executable;
      assert newResults[t].attempt.None?;
    }
  }

  lemma {:induction false} CompleteIsRunning(world: World, target: TargetId, attempts: seq<Attempt>, used: nat,
                                             limits: Limits, results: Results)
    ensures Halted(world, target, attempts, used, Running, limits.exactTimeout, limits.attemptLimit, results)
       <==> Halted(world, target, attempts, used, Complete, limits.exactTimeout, limits.attemptLimit, results)
  {
    hide BetweenRounds, BeforeExact, CutShort;
  }

  lemma {:induction false} OrderedSoFar(world: World, target: TargetId, executable: seq<Name>, caseCount: int,
                                        initial: seq<Batch>, given: Results, attempts: seq<Attempt>, results: Results,
                                        budget: Budget)
    requires Finished(world, target, executable, caseCount, initial, given, attempts, results, budget)
    ensures DepthFirst(executable, attempts)
  {
    hide DepthFirst, LedgerOk;
  }

  /** The body of the target loop. A name too long to batch aborts the run. */
  method RunTarget(world: World, plan: TargetPlan, executable: seq<Name>, limits: Limits, given: Results)
    returns (record: Option<TargetRecord>, results: Results)
    requires EachOnce(executable)
    requires limits.batchSize > 0 && limits.maxBytes > 0
    requires forall n :: n in executable ==> TestId(plan.target, n) !in given
    ensures record.None? <==> exists n :: n in executable && Width(n) > limits.maxBytes
    ensures record.Some? ==> record.value.target == plan.target
    ensures record.Some? ==> TargetOk(world, executable, plan.caseCount, limits, given, results, record.value)
  {
    hide AttemptsOk, Explained, Flatten, Fits, Finished, EachOnce, Halted, Granted, DepthFirst, AllRun;
    var packed := ExactNameBatches(executable, limits.batchSize, limits.maxBytes);
    results := given;
    if !packed.Packed? {
      return None, results;
    }
    var batches := packed.batches;
    BatchesNonempty(batches, limits);
    var attempts, used, budget;
    ghost var exactRuns;
    attempts, results, used, budget, exactRuns := RunQueue(world, plan.target, executable, plan.caseCount, batches,
                                                           limits.exactTimeout, limits.attemptLimit, given);
    ghost var ended, before := budget, results;
    if budget == AttemptLimitExhausted {
      results := TerminalizeUnresolved(Qualify(plan.target, executable), results, TestFailed);
    } else if budget == TimeoutExhausted {
      results := TerminalizeUnresolved(Qualify(plan.target, executable), results, TestTimeout);
    } else {
      RunningIsSettled(world, plan.target, executable, plan.caseCount, batches, given, attempts, results);
      budget := Complete;
    }
    TerminalizedOk(world, plan.target, executable, plan.caseCount, batches, given, attempts, before, ended, results);
    ExplainedLater(world, attempts, executable, plan.target, results, ended, budget);
    HaltedLater(world, plan.target, attempts, used, ended, limits.exactTimeout, limits.attemptLimit, before, results);
    RunIffComplete(world, plan.target, executable, plan.caseCount, batches, given, attempts, before, ended, results);
    CompleteIsRunning(world, plan.target, attempts, used, limits, results);
    OrderedSoFar(world, plan.target, executable, plan.caseCount, batches, given, attempts, before, ended);
    record := Some(TargetRecord(plan.target, batches, attempts, used, budget));
  }

  lemma {:induction false} BatchesNonempty(batches: seq<Batch>, limits: Limits)
    requires forall b :: b in batches ==> Fits(b, limits.batchSize, limits.maxBytes)
    ensures forall b :: b in batches ==> b != []
  {}

  lemma {:induction false} RunningIsSettled(world: World, target: TargetId, executable: seq<Name>, caseCount: int,
                                            initial: seq<Batch>, given: Results, attempts: seq<Attempt>,
                                            results: Results)
    requires Finished(world, target, executable, caseCount, initial, given, attempts, results, Running)
    ensures results.Keys == results.Keys + Ids(target, Names(executable))
  {}

  lemma {:induction false} ExplainedLater(world: World, attempts: seq<Attempt>, executable: seq<Name>, target: TargetId,
                                          results: Results, before: Budget, after: Budget)
    requires forall n :: n in executable ==> TestId(target, n) in results
    requires forall n :: n in executable ==> Explained(world, attempts, before, n, results[TestId(target, n)])
    requires after == before || before == Running
    ensures forall n :: n in executable ==> Explained(world, attempts, after, n, results[TestId(target, n)])
  {}

  /** The selected names of one target that are not done yet, in selection order. */
  function Executable(selected: seq<TestId>, target: TargetId, done: set<TestId>): seq<Name> {
    if selected == [] then []
    else
      var front, last := Executable(selected[..|selected| - 1], target, done), selected[|selected| - 1];
      if last.target == target && last !in done then front + [last.name] else front
  }

  ghost predicate NoDuplicates(selected: seq<TestId>) {
    forall i, j :: 0 <= i < j < |selected| ==> selected[i] != selected[j]
  }

  lemma {:induction false} ExecutableIs(selected: seq<TestId>, target: TargetId, done: set<TestId>)
    requires NoDuplicates(selected)
    ensures forall n :: n in Executable(selected, target, done)
              <==> TestId(target, n) in selected && TestId(target, n) !in done
    ensures EachOnce(Executable(selected, target, done))
  {
    if selected != [] {
      var last := selected[|selected| - 1];
      var front := Executable(selected[..|selected| - 1], target, done);
      ExecutableIs(selected[..|selected| - 1], target, done);
      assert selected == selected[..|selected| - 1] + [last];
      if last.target == target && last !in done {
        assert last !in selected[..|selected| - 1];
        EachOnceSnoc(front, last.name);
      }
    }
  }

  /** Two tests of a target are tried in the order in which they were selected. */
  lemma {:induction false} ExecutableInOrder(selected: seq<TestId>, target: TargetId, done: set<TestId>, i: nat, j: nat)
    requires i < j < |Executable(selected, target, done)|
    ensures exists k, l ::
      0 <= k < l < |selected|
      && selected[k] == TestId(target, Executable(selected, target, done)[i])
      && selected[l] == TestId(target, Executable(selected, target, done)[j])
  {
    var front, last := selected[..|selected| - 1], selected[|selected| - 1];
    var names := Executable(front, target, done);
    if j < |names| {
      ExecutableInOrder(front, target, done, i, j);
    } else {
      ExecutableAt(front, target, done, i);
    }
  }

  lemma {:induction false} ExecutableAt(selected: seq<TestId>, target: TargetId, done: set<TestId>, i: nat)
    requires i < |Executable(selected, target, done)|
    ensures exists k :: 0 <= k < |selected| && selected[k] == TestId(target, Executable(selected, target, done)[i])
  {
    var front := selected[..|selected| - 1];
    if i < |Executable(front, target, done)| {
      ExecutableAt(front, target, done, i);
    }
  }

  lemma {:induction false} ExecutableSame(selected: seq<TestId>, target: TargetId, done: set<TestId>,
                                          done': set<TestId>)
    requires forall t :: t in selected && t.target == target ==> (t in done <==> t in done')
    ensures Executable(selected, target, done) == Executable(selected, target, done')
  {
    if selected != [] {
      ExecutableSame(selected[..|selected| - 1], target, done, done');
    }
  }

  lemma {:induction false} EachOnceSnoc(names: seq<Name>, n: Name)
    requires EachOnce(names) && n !in names
    ensures EachOnce(names + [n])
  {
    assert multiset(names + [n]) == multiset(names) + multiset{n};
    assert multiset(names)[n] == 0;
  }

  ghost predicate ExplainedBy(worlds: TargetId -> World, records: seq<TargetRecord>, t: TestId, r: TestResult) {
    exists rec :: rec in records && rec.target == t.target
               && Explained(worlds(t.target), rec.attempts, rec.budget, t.name, r)
  }

  /** Everything a selected test's single final result may be. */
  ghost predicate FinalOk(worlds: TargetId -> World, plans: seq<TargetPlan>, records: seq<TargetRecord>,
                          ignored: set<TestId>, skips: set<TestId>, t: TestId, r: TestResult)
  {
    if t in ignored then r == TestResult(UpstreamIgnored, None)
    else if t in skips then r == TestResult(PolicySkip, None)
    else if exists p :: p in plans && p.target == t.target then ExplainedBy(worlds, records, t, r)
    else r == TestResult(TestFailed, None)
  }

  /** Results for the tests that are never run. */
  method Prefill(selected: seq<TestId>, ignored: set<TestId>, skips: set<TestId>) returns (results: Results)
    ensures results.Keys == set t | t in selected && t in ignored + skips
    ensures forall t :: t in results ==>
      results[t] == TestResult(if t in ignored then UpstreamIgnored else PolicySkip, None)
  {
    results := map[];
    for i := 0 to |selected|
      invariant results.Keys == set t | t in selected[..i] && t in ignored + skips
      invariant forall t :: t in results ==>
        results[t] == TestResult(if t in ignored then UpstreamIgnored else PolicySkip, None)
    {
      assert selected[..i + 1] == selected[..i] + [selected[i]];
      if selected[i] in ignored {
        results := results[selected[i] := TestResult(UpstreamIgnored, None)];
      } else if selected[i] in skips {
        results := results[selected[i] := TestResult(PolicySkip, None)];
      }
    }
    assert selected[..|selected|] == selected;
  }

  /** The record of a planned target keeps its promises for the selected tests that were to be run. */
  ghost predicate Accounted(worlds: TargetId -> World, plans: seq<TargetPlan>, selected: seq<TestId>,
                            ignored: set<TestId>, skips: set<TestId>, limits: Limits, results: Results,
                            record: TargetRecord)
  {
    exists p :: p in plans && p.target == record.target
             && RecordOk(worlds(p.target), Executable(selected, p.target, ignored + skips), p.caseCount, limits,
                         results, record)
  }

  /** The target loop's invariant: after the first `done` plans, what has a result is exactly what was
      prefilled or belongs to one of those plans, and every such result is the final one. */
  ghost predicate SuiteOk(worlds: TargetId -> World, plans: seq<TargetPlan>, done: nat, selected: seq<TestId>,
                          ignored: set<TestId>, skips: set<TestId>, limits: Limits, records: seq<TargetRecord>,
                          results: Results)
    requires done <= |plans|
  {
    && (forall t :: t in results ==>
          && t in selected && FinalOk(worlds, plans, records, ignored, skips, t, results[t])
          && (t in ignored + skips || exists p :: p in plans[..done] && p.target == t.target))
    && (forall t ::
          t in selected && (t in ignored + skips || exists p :: p in plans[..done] && p.target == t.target) ==>
          t in results)
    && (forall rec :: rec in records ==>
          && (exists p :: p in plans[..done] && p.target == rec.target)
          && Accounted(worlds, plans, selected, ignored, skips, limits, results, rec))
  }

  lemma {:induction false} RecordLater(world: World, executable: seq<Name>, caseCount: int, limits: Limits,
                                       results: Results, newResults: Results, record: TargetRecord)
    requires RecordOk(world, executable, caseCount, limits, results, record)
    requires forall t :: t in results ==> t in newResults && newResults[t] == results[t]
    requires forall t :: t in newResults && t !in results ==> t.target != record.target
    ensures RecordOk(world, executable, caseCount, limits, newResults, record)
  {
    hide IsSplit, Granted, DepthFirst, Explained, Faithful, Descends, FromBatch, Halted;
    HaltedElsewhere(world, record.target, record.attempts, record.used, record.budget, limits.exactTimeout,
                    limits.attemptLimit, results, newResults);
    var attempts := record.attempts;
    forall k, m | 0 <= k < |attempts| && m in attempts[k].resolved
      ensures TestId(record.target, m) in newResults
      ensures FromBatch(world, attempts[k], m, newResults[TestId(record.target, m)])
    {
      assert TestId(record.target, m) in results;
    }
  }

  /** Results of other targets do not change why the loop was over. */
  lemma {:induction false} HaltedElsewhere(world: World, target: TargetId, attempts: seq<Attempt>, used: nat,
                                           budget: Budget, exactTimeout: real, attemptLimit: int, results: Results,
                                           newResults: Results)
    requires Halted(world, target, attempts, used, budget, exactTimeout, attemptLimit, results)
    requires forall t :: t in results ==> t in newResults && newResults[t] == results[t]
    requires forall t :: t in newResults && t !in results ==> t.target != target
    ensures Halted(world, target, attempts, used, budget, exactTimeout, attemptLimit, newResults)
  {
    forall k: nat | k < |attempts| && ExactRecorded(world, target, attempts, k, exactTimeout, results)
      ensures ExactRecorded(world, target, attempts, k, exactTimeout, newResults)
    {}
    hide CutShort, ExactRecorded, BatchClaim;
  }

  /** A target with something left to run has not had its turn: only prefilled tests of it have results. */
  lemma {:induction false} TargetIsFresh(worlds: TargetId -> World, plans: seq<TargetPlan>, done: nat,
                                         selected: seq<TestId>, ignored: set<TestId>, skips: set<TestId>,
                                         limits: Limits, records: seq<TargetRecord>, results: Results)
    requires done < |plans| && NoDuplicates(selected)
    requires SuiteOk(worlds, plans, done, selected, ignored, skips, limits, records, results)
    requires Executable(selected, plans[done].target, results.Keys) != []
    ensures forall p :: p in plans[..done] ==> p.target != plans[done].target
    ensures Executable(selected, plans[done].target, results.Keys)
         == Executable(selected, plans[done].target, ignored + skips)
  {
    hide FinalOk, NoDuplicates, Executable, Accounted;
    var target := plans[done].target;
    var executable := Executable(selected, target, results.Keys);
    ExecutableIs(selected, target, results.Keys);
    assert executable[0] in executable;
    assert TestId(target, executable[0]).target == target;
    ExecutableSame(selected, target, results.Keys, ignored + skips);
  }

  lemma {:induction false} SuiteStep(worlds: TargetId -> World, plans: seq<TargetPlan>, done: nat,
                                     selected: seq<TestId>, ignored: set<TestId>, skips: set<TestId>, limits: Limits,
                                     records: seq<TargetRecord>, results: Results, record: TargetRecord,
                                     newResults: Results)
    requires done < |plans| && NoDuplicates(selected)
    requires SuiteOk(worlds, plans, done, selected, ignored, skips, limits, records, results)
    requires record.target == plans[done].target
    requires Executable(selected, record.target, results.Keys) != []
    requires TargetOk(worlds(record.target), Executable(selected, record.target, results.Keys),
                      plans[done].caseCount, limits, results, newResults, record)
    ensures SuiteOk(worlds, plans, done + 1, selected, ignored, skips, limits, records + [record], newResults)
  {
    hide NoDuplicates, Executable, RecordOk, Explained, FinalOk;
    var target := record.target;
    var executable := Executable(selected, target, results.Keys);
    ExecutableIs(selected, target, results.Keys);
    TargetIsFresh(worlds, plans, done, selected, ignored, skips, limits, records, results);
    assert plans[..done + 1] == plans[..done] + [plans[done]];
    NewAreOfTarget(target, executable, results, newResults);
    forall t | t in newResults
      ensures t in selected && FinalOk(worlds, plans, records + [record], ignored, skips, t, newResults[t])
      ensures t in ignored + skips || exists p :: p in plans[..done + 1] && p.target == t.target
    {
      if t in results {
        FinalLater(worlds, plans, records, record, ignored, skips, t, results[t]);
      } else {
        assert t == TestId(target, t.name) && t.name in executable;
        FinalByRecord(worlds, plans, done, selected, records, ignored, skips, limits, results, newResults, record,
                      t.name);
      }
    }
    forall t | t in selected && (t in ignored + skips || exists p :: p in plans[..done + 1] && p.target == t.target)
      ensures t in newResults
    {
      if t !in results {
        assert t == TestId(target, t.name);
        assert t.name in executable;
        assert t in Ids(target, Names(executable));
      }
    }
    forall rec | rec in records + [record]
      ensures exists p :: p in plans[..done + 1] && p.target == rec.target
      ensures Accounted(worlds, plans, selected, ignored, skips, limits, newResults, rec)
    {
      if rec in records {
        AccountedLater(worlds, plans, selected, ignored, skips, limits, results, newResults, rec);
      } else {
        assert plans[done] in plans;
      }
    }
  }

  lemma {:induction false} NewAreOfTarget(target: TargetId, executable: seq<Name>, results: Results,
                                          newResults: Results)
    requires newResults.Keys == results.Keys + Ids(target, Names(executable))
    ensures forall t :: t in newResults && t !in results ==> t.target == target && t.name in executable
  {
    forall t | t in newResults && t !in results ensures t.target == target && t.name in executable {
      assert t in Ids(target, Names(executable));
    }
  }

  lemma {:induction false} FinalByRecord(worlds: TargetId -> World, plans: seq<TargetPlan>, done: nat,
                                         selected: seq<TestId>, records: seq<TargetRecord>, ignored: set<TestId>,
                                         skips: set<TestId>, limits: Limits, results: Results, newResults: Results,
                                         record: TargetRecord, n: Name)
    requires done < |plans| && record.target == plans[done].target && NoDuplicates(selected)
    requires RecordOk(worlds(record.target), Executable(selected, record.target, ignored + skips),
                      plans[done].caseCount, limits, newResults, record)
    requires n in Executable(selected, record.target, ignored + skips)
    ensures TestId(record.target, n) in newResults
    ensures FinalOk(worlds, plans, records + [record], ignored, skips, TestId(record.target, n),
                    newResults[TestId(record.target, n)])
  {
    hide Explained, AttemptsOk, IsSplit, Halted, DepthFirst, Granted, NoDuplicates, Executable;
    ExecutableIs(selected, record.target, ignored + skips);
    var t := TestId(record.target, n);
    assert record in records + [record] && plans[done] in plans;
    assert ExplainedBy(worlds, records + [record], t, newResults[t]);
  }

  lemma {:induction false} AccountedLater(worlds: TargetId -> World, plans: seq<TargetPlan>, selected: seq<TestId>,
                                          ignored: set<TestId>, skips: set<TestId>, limits: Limits, results: Results,
                                          newResults: Results, record: TargetRecord)
    requires Accounted(worlds, plans, selected, ignored, skips, limits, results, record)
    requires forall t :: t in results ==> t in newResults && newResults[t] == results[t]
    requires forall t :: t in newResults && t !in results ==> t.target != record.target
    ensures Accounted(worlds, plans, selected, ignored, skips, limits, newResults, record)
  {
    hide RecordOk, Executable;
    var p :| p in plans && p.target == record.target
          && RecordOk(worlds(p.target), Executable(selected, p.target, ignored + skips), p.caseCount, limits,
                      results, record);
    RecordLater(worlds(p.target), Executable(selected, p.target, ignored + skips), p.caseCount, limits, results,
                newResults, record);
  }

  lemma {:induction false} FinalLater(worlds: TargetId -> World, plans: seq<TargetPlan>, records: seq<TargetRecord>,
                                      record: TargetRecord, ignored: set<TestId>, skips: set<TestId>, t: TestId,
                                      r: TestResult)
    requires FinalOk(worlds, plans, records, ignored, skips, t, r)
    ensures FinalOk(worlds, plans, records + [record], ignored, skips, t, r)
  {
    hide Explained;
    if ExplainedBy(worlds, records, t, r) {
      var rec :| rec in records && rec.target == t.target
              && Explained(worlds(t.target), rec.attempts, rec.budget, t.name, r);
      assert rec in records + [record];
    }
  }

  /** A target with nothing left to run is skipped. */
  lemma {:induction false} SuiteSkip(worlds: TargetId -> World, plans: seq<TargetPlan>, done: nat,
                                     selected: seq<TestId>, ignored: set<TestId>, skips: set<TestId>, limits: Limits,
                                     records: seq<TargetRecord>, results: Results)
    requires done < |plans| && NoDuplicates(selected)
    requires SuiteOk(worlds, plans, done, selected, ignored, skips, limits, records, results)
    requires Executable(selected, plans[done].target, results.Keys) == []
    ensures SuiteOk(worlds, plans, done + 1, selected, ignored, skips, limits, records, results)
  {
    hide FinalOk, NoDuplicates, Executable, Accounted;
    ExecutableIs(selected, plans[done].target, results.Keys);
    assert plans[..done + 1] == plans[..done] + [plans[done]];
    forall t | t in selected && exists p :: p in plans[..done + 1] && p.target == t.target
      ensures t in results
    {
      if t.target == plans[done].target {
        assert t == TestId(plans[done].target, t.name);
        assert t.name !in Executable(selected, plans[done].target, results.Keys);
      }
    }
  }

  /** The adaptive part of `main`: for every apphost and clock, a run that is not aborted ends with
      exactly one result per selected test, and every result is accounted for. */
  method RunSuite(worlds: TargetId -> World, plans: seq<TargetPlan>, selected: seq<TestId>, ignored: set<TestId>,
                  skips: set<TestId>, limits: Limits)
    returns (records: Option<seq<TargetRecord>>, results: Results)
    requires NoDuplicates(selected)
    requires limits.batchSize > 0 && limits.maxBytes > 0
    ensures records.Some? ==> results.Keys == set t | t in selected
    ensures records.Some? ==> forall t :: t in selected ==>
      FinalOk(worlds, plans, records.value, ignored, skips, t, results[t])
    ensures records.Some? ==> forall rec :: rec in records.value ==>
      Accounted(worlds, plans, selected, ignored, skips, limits, results, rec)
    ensures records.None? ==> exists t :: t in selected && Width(t.name) > limits.maxBytes
  {
    hide NoDuplicates, Executable, RecordOk, Explained, Accounted;
    results := Prefill(selected, ignored, skips);
    var log: seq<TargetRecord> := [];
    for i := 0 to |plans|
      invariant SuiteOk(worlds, plans, i, selected, ignored, skips, limits, log, results)
    {
      var executable := Executable(selected, plans[i].target, results.Keys);
      ExecutableIs(selected, plans[i].target, results.Keys);
      if executable == [] {
        SuiteSkip(worlds, plans, i, selected, ignored, skips, limits, log, results);
      } else {
        var record, newResults := RunTarget(worlds(plans[i].target), plans[i], executable, limits, results);
        if record.None? {
          return None, results;
        }
        SuiteStep(worlds, plans, i, selected, ignored, skips, limits, log, results, record.value, newResults);
        log, results := log + [record.value], newResults;
      }
    }
    assert plans[..|plans|] == plans;
    ghost var before := results;
    results := TerminalizeUnresolved(selected, results, TestFailed);
    assert forall t :: t in selected && t !in before ==>
      t !in ignored + skips && !exists p :: p in plans && p.target == t.target;
    forall rec | rec in log ensures Accounted(worlds, plans, selected, ignored, skips, limits, results, rec) {
      AccountedLater(worlds, plans, selected, ignored, skips, limits, before, results, rec);
    }
    records := Some(log);
  }
}
