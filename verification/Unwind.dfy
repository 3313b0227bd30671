/** Exception handlers of MIR blocks: cleanup jumps are threaded past blocks that do nothing, without
    changing what runs when a frame unwinds. */
module Unwind {
  import opened Finite
  import opened Wrappers

  type Id = nat

  datatype Reason = Abi | InCleanup

  datatype Action = Continue | Cleanup(target: Id) | Terminate(reason: Reason) | UnreachableAction

  /** The terminators of MIR; `noop` is the answer of drop-glue resolution, `magic` that of the search
      for interop intrinsics. */
  datatype Terminator =
    | Goto(target: Id)
    | Drop(noop: bool, target: Id, unwind: Action)
    | Call(magic: bool, unwind: Action)
    | Assert(unwind: Action)
    | InlineAsm(unwind: Action)
    | FalseUnwind(unwind: Action)
    | FalseEdge
    | SwitchInt
    | CoroutineDrop
    | UnwindTerminate
    | UnwindResume
    | Unreachable
    | TailCall
    | Return
    | Yield

  type Statement = nat

  datatype Block = Block(statements: seq<Statement>, terminator: Option<Terminator>, isCleanup: bool)

  type Graph = seq<Block>

  function UnwindOf(t: Terminator): Option<Action> {
    if t.Drop? || t.Call? || t.Assert? || t.InlineAsm? || t.FalseUnwind? then Some(t.unwind) else None
  }

  /** Only these terminators have no unwind edge. */
  lemma {:induction false} UnwindExactly(t: Terminator)
    ensures UnwindOf(t).None? <==>
      || t.Goto? || t.FalseEdge? || t.SwitchInt? || t.CoroutineDrop? || t.UnwindTerminate? || t.UnwindResume?
      || t.Unreachable? || t.TailCall? || t.Return? || t.Yield?
    ensures UnwindOf(t).Some? ==> UnwindOf(t).value == t.unwind
  {}

  // ---- what runs when a frame unwinds ---------------------------------------------------------

  datatype Place = At(block: Id) | Outside

  datatype Event = Did(statement: Statement) | Ended(block: Id) | TailCalled(block: Id) | Illegal(block: Id)
      | Undefined | Left

  /** Where control goes after an observable terminator is a decision of the running program, which may
      depend on everything that happened. */
  type World = seq<Event> -> Place

  function StatementEvents(ss: seq<Statement>): seq<Event> {
    seq(|ss|, i requires 0 <= i < |ss| => Did(ss[i]))
  }

  /** The events of the first `n` steps from `at`, a step being one block, after the events `past`. */
  function Run(g: Graph, world: World, at: Place, past: seq<Event>, n: nat): seq<Event>
    decreases n
  {
    if n == 0 then past
    else if at.Outside? then past + [Left]
    else if at.block >= |g| then past + [Undefined]
    else
      var b := g[at.block];
      var now := past + StatementEvents(b.statements);
      if b.terminator.None? then now + [Undefined]
      else
        match b.terminator.value
        case Goto(target) => Run(g, world, At(target), now, n - 1)
        case Drop(noop, target, _) =>
          if noop then Run(g, world, At(target), now, n - 1)
          else Run(g, world, world(now + [Ended(at.block)]), now + [Ended(at.block)], n - 1)
        case UnwindResume => Run(g, world, Outside, now, n - 1)
        case Unreachable => now + [Undefined]
        case TailCall => now + [TailCalled(at.block)]
        case Return => now + [Illegal(at.block)]
        case Yield => now + [Illegal(at.block)]
        case FalseEdge => now + [Illegal(at.block)]
        case FalseUnwind(_) => now + [Illegal(at.block)]
        case _ => Run(g, world, world(now + [Ended(at.block)]), now + [Ended(at.block)], n - 1)
  }

  /** A terminator whose own effect other code can observe, or whose successor the program decides. */
  predicate Observable(t: Terminator) {
    (t.Drop? && !t.noop) || t.Call? || t.Assert? || t.InlineAsm? || t.SwitchInt? || t.CoroutineDrop?
    || t.UnwindTerminate?
  }

  lemma {:induction false} RunGrows(g: Graph, world: World, at: Place, past: seq<Event>, n: nat)
    ensures past <= Run(g, world, at, past, n)
    decreases n
  {
    if n > 0 && at.At? && at.block < |g| && g[at.block].terminator.Some? {
      var b := g[at.block];
      var t, now := b.terminator.value, past + StatementEvents(b.statements);
      if t.Goto? || (t.Drop? && t.noop) {
        RunGrows(g, world, At(t.target), now, n - 1);
      } else if t.UnwindResume? {
        RunGrows(g, world, Outside, now, n - 1);
      } else {
        RunGrows(g, world, world(now + [Ended(at.block)]), now + [Ended(at.block)], n - 1);
      }
    }
  }

  /** Nothing a block does stays unseen: its statements, one after the other, then its terminator, which the
      program's next decision may depend on; what must not be there is seen as such, and kept apart. */
  lemma {:induction false} RunShows(g: Graph, world: World, h: Id, past: seq<Event>, n: nat)
    ensures h >= |g| ==> Run(g, world, At(h), past, n + 1) == past + [Undefined]
    ensures h < |g| ==>
      && |StatementEvents(g[h].statements)| == |g[h].statements|
      && (forall i :: 0 <= i < |g[h].statements| ==> StatementEvents(g[h].statements)[i] == Did(g[h].statements[i]))
      && past + StatementEvents(g[h].statements) <= Run(g, world, At(h), past, n + 1)
    ensures h < |g| && g[h].terminator.Some? && Observable(g[h].terminator.value) ==>
      var now := past + StatementEvents(g[h].statements) + [Ended(h)];
      now <= Run(g, world, At(h), past, n + 1) == Run(g, world, world(now), now, n)
    ensures Illicit(g, h) ==> Run(g, world, At(h), past, n + 1) == past + [Illegal(h)]
    ensures DropsEffect(g, h) ==>
      Run(g, world, At(h), past, n + 1)
        == past + [if g[h].terminator.Some? && g[h].terminator.value.TailCall? then TailCalled(h) else Undefined]
  {
    RunGrows(g, world, At(h), past, n + 1);
    if h < |g| {
      var now := past + StatementEvents(g[h].statements);
      if g[h].statements == [] {
        NoStatements(past);
      }
      if g[h].terminator.Some? {
        var t := g[h].terminator.value;
        if t.Goto? || (t.Drop? && t.noop) {
          RunGrows(g, world, At(t.target), now, n);
        } else if t.UnwindResume? {
          RunGrows(g, world, Outside, now, n);
        } else {
          RunGrows(g, world, world(now + [Ended(h)]), now + [Ended(h)], n);
        }
      }
    }
  }

  function Where(handler: Option<Id>): Place { if handler.Some? then At(handler.value) else Outside }

  // ---- threading ------------------------------------------------------------------------------

  datatype Threaded = To(handler: Option<Id>) | Panics | Diverges

  /** The block an empty block hands control to without doing anything. */
  function Skip(g: Graph, h: Id): Option<Id> {
    if h >= |g| || g[h].statements != [] || g[h].terminator.None? then None
    else
      match g[h].terminator.value
      case Goto(target) => Some(target)
      case Drop(noop, target, _) => if noop then Some(target) else None
      case _ => None
  }

  /** `simplify_handler` on an existing handler, cut off after `fuel` jumps. */
  function Thread(g: Graph, h: Id, fuel: nat): Threaded
    requires GraphOk(g) && h < |g|
    decreases fuel
  {
    assert g[h] in g;
    if g[h].statements != [] then To(Some(h))
    else if g[h].terminator.None? then To(None)
    else
      match g[h].terminator.value
      case TailCall => To(None)
      case Goto(target) => if fuel == 0 then Diverges else Thread(g, target, fuel - 1)
      case UnwindResume => To(None)
      case Unreachable => To(None)
      case Return => Panics
      case Drop(noop, target, _) =>
        if noop then (if fuel == 0 then Diverges else Thread(g, target, fuel - 1)) else To(Some(h))
      case Yield => Panics
      case FalseEdge => Panics
      case FalseUnwind(_) => Panics
      case _ => To(Some(h))
  }

  predicate TargetsIn(b: Block, n: nat) {
    b.terminator.Some? ==>
      var t := b.terminator.value;
      && (t.Goto? ==> t.target < n)
      && (t.Drop? ==> t.target < n)
      && (UnwindOf(t).Some? && UnwindOf(t).value.Cleanup? ==> UnwindOf(t).value.target < n)
  }

  predicate GraphOk(g: Graph) { forall b :: b in g ==> TargetsIn(b, |g|) }

  /** `simplify_handler`: the original recursion has no cut-off, and `CutOffIsHarmless` shows that the
      number of blocks is as good as none. */
  function SimplifyHandler(g: Graph, handler: Option<Id>, noUnwind: bool): Threaded
    requires GraphOk(g) && (handler.Some? ==> handler.value < |g|)
  {
    if noUnwind || handler.None? then To(None) else Thread(g, handler.value, |g|)
  }

  lemma {:induction false} SkipStep(g: Graph, h: Id, fuel: nat)
    requires GraphOk(g) && h < |g|
    ensures Skip(g, h).Some? ==> Skip(g, h).value < |g|
    ensures Skip(g, h).Some? && fuel > 0 ==> Thread(g, h, fuel) == Thread(g, Skip(g, h).value, fuel - 1)
    ensures Skip(g, h).Some? && fuel == 0 ==> Thread(g, h, fuel) == Diverges
    ensures Skip(g, h).None? ==> Thread(g, h, fuel) == Thread(g, h, 0) != Diverges
  {
    assert g[h] in g;
  }

  function After(trail: seq<Id>, h: Id, i: nat): Id { if i + 1 < |trail| then trail[i + 1] else h }

  /** `trail` lists the blocks skipped so far, the last one handing control to `h`. */
  ghost predicate Trail(g: Graph, trail: seq<Id>, h: Id) {
    forall i :: 0 <= i < |trail| ==> trail[i] < |g| && Skip(g, trail[i]) == Some(After(trail, h, i))
  }

  /** A trail that returns to itself is skipped forever. */
  lemma {:induction false} CycleDiverges(g: Graph, trail: seq<Id>, h: Id, start: nat, i: nat, fuel: nat)
    requires GraphOk(g) && Trail(g, trail, h) && start <= i < |trail| && trail[start] == h
    ensures Thread(g, trail[i], fuel) == Diverges
    decreases fuel
  {
    hide Skip, Thread;
    SkipStep(g, trail[i], fuel);
    if fuel > 0 {
      var next := if i + 1 < |trail| then i + 1 else start;
      assert After(trail, h, i) == trail[next];
      CycleDiverges(g, trail, h, start, next, fuel - 1);
    }
  }

  lemma {:induction false} TrailGrows(g: Graph, trail: seq<Id>, h: Id)
    requires Trail(g, trail, h) && h < |g| && Skip(g, h).Some?
    ensures Trail(g, trail + [h], Skip(g, h).value)
  {
    hide Skip;
    var longer, next := trail + [h], Skip(g, h).value;
    forall i | 0 <= i < |longer| ensures longer[i] < |g| && Skip(g, longer[i]) == Some(After(longer, next, i)) {
      if i < |trail| {
        assert longer[i] == trail[i];
        assert After(longer, next, i) == longer[i + 1] == After(trail, h, i);
      }
    }
  }

  /** A chain that ends at all ends within as many jumps as there are blocks. */
  lemma {:induction false} EndsSoon(g: Graph, trail: seq<Id>, h: Id, fuel: nat)
    requires GraphOk(g) && h < |g| && Trail(g, trail, h) && Distinct(trail)
    requires Thread(g, h, fuel) != Diverges
    ensures |trail| <= |g| && Thread(g, h, |g| - |trail|) == Thread(g, h, fuel)
    decreases fuel
  {
    hide Skip, Thread;
    if h in trail {
      var start :| 0 <= start < |trail| && trail[start] == h;
      CycleDiverges(g, trail, h, start, start, fuel);
      assert false;
    }
    DistinctIsShort(trail + [h], |g|);
    SkipStep(g, h, fuel);
    SkipStep(g, h, |g| - |trail|);
    if Skip(g, h).Some? {
      TrailGrows(g, trail, h);
      EndsSoon(g, trail + [h], Skip(g, h).value, fuel - 1);
    }
  }

  /** Cutting off after as many jumps as there are blocks changes no answer: a chain cut there never
      ends. */
  lemma {:induction false} CutOffIsHarmless(g: Graph, h: Id, fuel: nat)
    requires GraphOk(g) && h < |g|
    ensures Thread(g, h, fuel) == Diverges || Thread(g, h, fuel) == Thread(g, h, |g|)
  {
    if Thread(g, h, fuel) != Diverges {
      EndsSoon(g, [], h, fuel);
    }
  }

  // ---- threading keeps what runs --------------------------------------------------------------

  /** The block at which the jumps stop. */
  function ChainEnd(g: Graph, h: Id, fuel: nat): Id
    decreases fuel
  {
    if fuel == 0 || Skip(g, h).None? then h else ChainEnd(g, Skip(g, h).value, fuel - 1)
  }

  /** The jumps lead to a block whose own effect is dropped. */
  predicate DropsEffect(g: Graph, h: Id) {
    h < |g| && g[h].statements == []
      && (g[h].terminator.None? || g[h].terminator.value.Unreachable? || g[h].terminator.value.TailCall?)
  }

  /** A block that does something and so must be kept as the handler. */
  predicate Necessary(g: Graph, h: Id) {
    h < |g| && (g[h].statements != [] || (g[h].terminator.Some? && Observable(g[h].terminator.value)))
  }

  /** After `k` silent steps the run from `h` is the run from the threaded handler. */
  ghost predicate SameRun(g: Graph, h: Place, r: Place, k: nat, world: World, past: seq<Event>, n: nat) {
    Run(g, world, h, past, n + k) == Run(g, world, r, past, n)
  }

  ghost predicate AlwaysSame(g: Graph, h: Place, r: Place, k: nat) {
    forall world, past, n: nat :: SameRun(g, h, r, k, world, past, n)
  }

  ghost predicate RunsTheSame(g: Graph, h: Place, r: Place) { exists k: nat :: AlwaysSame(g, h, r, k) }

  lemma {:induction false} NoStatements(past: seq<Event>)
    ensures past + StatementEvents([]) == past
  {}

  lemma {:induction false} SilentStep(g: Graph, world: World, h: Id, past: seq<Event>, n: nat)
    requires GraphOk(g) && h < |g| && Skip(g, h).Some?
    ensures Run(g, world, At(h), past, n + 1) == Run(g, world, At(Skip(g, h).value), past, n)
  {
    NoStatements(past);
  }

  /** What threading answers at the end of a chain. */
  lemma {:induction false} AtTheEnd(g: Graph, h: Id)
    requires GraphOk(g) && h < |g| && Skip(g, h).None?
    ensures Thread(g, h, 0) == To(Some(h)) <==> Necessary(g, h)
    ensures Thread(g, h, 0).To? ==> Thread(g, h, 0).handler in {Some(h), None}
    ensures Thread(g, h, 0) == To(None) && !DropsEffect(g, h)
        ==> AlwaysSame(g, At(h), Outside, 1)
  {
    if Thread(g, h, 0) == To(None) && !DropsEffect(g, h) {
      forall world, past, n: nat ensures SameRun(g, At(h), Outside, 1, world, past, n) {
        NoStatements(past);
      }
    }
  }

  lemma {:induction false} ThreadFollowsChain(g: Graph, h: Id, fuel: nat) returns (k: nat)
    requires GraphOk(g) && h < |g| && Thread(g, h, fuel).To?
    ensures var end := ChainEnd(g, h, fuel);
      && end < |g| && Skip(g, end).None? && Thread(g, h, fuel) == Thread(g, end, 0)
      && AlwaysSame(g, At(h), At(end), k)
    decreases fuel
  {
    hide Skip, Thread, Run;
    SkipStep(g, h, fuel);
    if Skip(g, h).None? {
      k := 0;
    } else {
      var next := Skip(g, h).value;
      var rest := ThreadFollowsChain(g, next, fuel - 1);
      k := rest + 1;
      var end := ChainEnd(g, h, fuel);
      forall world, past, n: nat ensures SameRun(g, At(h), At(end), k, world, past, n) {
        SilentStep(g, world, h, past, n + rest);
        assert SameRun(g, At(next), At(end), rest, world, past, n);
      }
    }
  }

  /** A block that no cleanup path may end in. */
  predicate Illicit(g: Graph, h: Id) {
    h < |g| && g[h].statements == [] && g[h].terminator.Some?
      && var t := g[h].terminator.value; t.Return? || t.Yield? || t.FalseEdge? || t.FalseUnwind?
  }

  predicate Resumes(g: Graph, h: Id) {
    h < |g| && g[h].statements == [] && g[h].terminator.Some? && g[h].terminator.value.UnwindResume?
  }

  /** Every answer of threading, by the block at which the jumps stop: it panics exactly at an illicit one,
      keeps exactly the blocks that do something, and leaves the frame exactly at a resume and where it
      drops an effect; it has no end exactly on a cycle. */
  lemma {:induction false} ThreadExactly(g: Graph, h: Id, fuel: nat)
    requires GraphOk(g) && h < |g|
    ensures ChainEnd(g, h, fuel) < |g|
    ensures var end := ChainEnd(g, h, fuel);
      && (Thread(g, h, fuel) == Diverges <==> Skip(g, end).Some?)
      && (Thread(g, h, fuel) == Panics <==> Illicit(g, end))
      && (forall x :: Thread(g, h, fuel) == To(Some(x)) <==> x == end && Necessary(g, end))
      && (Thread(g, h, fuel) == To(None) <==> Resumes(g, end) || DropsEffect(g, end))
    decreases fuel
  {
    assert g[h] in g;
    if fuel > 0 && Skip(g, h).Some? {
      ThreadExactly(g, Skip(g, h).value, fuel - 1);
    }
  }

  /** A dropped effect shows: the original run ends in it and never leaves the frame. */
  lemma {:induction false} DroppedEffectShows(g: Graph, h: Id, world: World, past: seq<Event>, n: nat)
    requires DropsEffect(g, h)
    ensures Run(g, world, At(h), past, n) != past + [Left]
  {
    NoStatements(past);
    if n > 0 {
      var r := Run(g, world, At(h), past, n);
      assert r == past + [Undefined] || r == past + [TailCalled(h)];
      assert r[|past|] != Left;
    }
  }

  lemma {:induction false} DroppedChainShows(g: Graph, h: Id, fuel: nat, world: World, past: seq<Event>, n: nat)
    requires GraphOk(g) && h < |g| && DropsEffect(g, ChainEnd(g, h, fuel))
    ensures Run(g, world, At(h), past, n) != past + [Left]
    decreases n
  {
    hide DropsEffect;
    if fuel == 0 || Skip(g, h).None? {
      DroppedEffectShows(g, h, world, past, n);
    } else if n == 0 {
      assert |past| != |past + [Left]|;
    } else {
      SilentStep(g, world, h, past, n - 1);
      SkipStep(g, h, 0);
      DroppedChainShows(g, Skip(g, h).value, fuel - 1, world, past, n - 1);
    }
  }

  /** Unwinding to the threaded handler runs the same observable effects as unwinding to the original
      one exactly when the jumps do not end in a block whose effect threading drops: an empty block that
      is unreachable, ends in a tail call or has no terminator. */
  lemma {:induction false} ThreadingKeepsUnwinding(g: Graph, h: Id)
    requires GraphOk(g) && h < |g|
    requires SimplifyHandler(g, Some(h), false).To?
    ensures var r := SimplifyHandler(g, Some(h), false).handler;
      && (r.Some? ==> Necessary(g, r.value))
      && (RunsTheSame(g, At(h), Where(r)) <==> !DropsEffect(g, ChainEnd(g, h, |g|)))
  {
    hide Skip, Thread, Run, DropsEffect, Necessary;
    var end := ChainEnd(g, h, |g|);
    var r := SimplifyHandler(g, Some(h), false).handler;
    var k := ThreadFollowsChain(g, h, |g|);
    AtTheEnd(g, end);
    if DropsEffect(g, end) {
      NeverBoth(g, end);
      DroppedNeverRunsTheSame(g, h);
    } else if r == Some(end) {
      assert AlwaysSame(g, At(h), Where(r), k);
    } else {
      var m := k + 1;
      forall world, past, n: nat ensures SameRun(g, At(h), Where(r), m, world, past, n) {
        assert SameRun(g, At(h), At(end), k, world, past, n + 1);
        assert SameRun(g, At(end), Outside, 1, world, past, n);
        ShiftRun(g, At(h), At(end), k, world, past, n);
      }
      assert AlwaysSame(g, At(h), Where(r), m);
    }
  }

  lemma {:induction false} NeverBoth(g: Graph, h: Id)
    ensures !(DropsEffect(g, h) && Necessary(g, h))
  {}

  lemma {:induction false} ShiftRun(g: Graph, h: Place, end: Place, k: nat, world: World, past: seq<Event>, n: nat)
    requires SameRun(g, h, end, k, world, past, n + 1) && SameRun(g, end, Outside, 1, world, past, n)
    ensures SameRun(g, h, Outside, k + 1, world, past, n)
  {
    hide Run;
    assert n + 1 + k == n + (k + 1);
  }

  lemma {:induction false} DroppedNeverRunsTheSame(g: Graph, h: Id)
    requires GraphOk(g) && h < |g| && DropsEffect(g, ChainEnd(g, h, |g|))
    ensures !RunsTheSame(g, At(h), Outside)
  {
    hide DropsEffect, ChainEnd;
    var world: World := _ => Outside;
    forall k: nat ensures !AlwaysSame(g, At(h), Outside, k) {
      DroppedChainShows(g, h, |g|, world, [], 1 + k);
      assert Run(g, world, Outside, [], 1) == [] + [Left];
      assert !SameRun(g, At(h), Outside, k, world, [], 1);
    }
  }

  // ---- the handler of a block -----------------------------------------------------------------

  /** `handler_from_action`. */
  function HandlerFromAction(a: Action): Option<Id> { if a.Cleanup? then Some(a.target) else None }

  /** `terminate_handler_id`: synthetic blocks one and two past the last block. */
  function TerminateHandlerId(reason: Reason, g: Graph): Id { if reason.Abi? then |g| else |g| + 1 }

  /** `handler_for_block`. */
  function HandlerForBlock(g: Graph, b: Block, noUnwind: bool): Threaded
    requires GraphOk(g) && b in g
  {
    if b.terminator.None? || UnwindOf(b.terminator.value).None? || noUnwind then To(None)
    else
      var t := b.terminator.value;
      match UnwindOf(t).value
      case Terminate(reason) =>
        if t.Call? && t.magic then To(None)
        else if b.isCleanup && t.Drop? then To(None)
        else To(Some(TerminateHandlerId(reason, g)))
      case action => SimplifyHandler(g, HandlerFromAction(action), noUnwind)
  }

  /** Control that leaves a cleanup block within the frame stays in cleanup blocks, and unwinding enters
      them only. */
  predicate CleanupClosed(g: Graph) {
    GraphOk(g) && forall b :: b in g ==> ClosedBlock(g, b)
  }

  predicate ClosedBlock(g: Graph, b: Block)
    requires TargetsIn(b, |g|)
  {
    b.terminator.Some? ==>
      var t := b.terminator.value;
      && (UnwindOf(t).Some? && UnwindOf(t).value.Cleanup? ==> g[UnwindOf(t).value.target].isCleanup)
      && (b.isCleanup && t.Goto? ==> g[t.target].isCleanup)
      && (b.isCleanup && t.Drop? ==> g[t.target].isCleanup)
  }

  lemma {:induction false} ThreadStaysInCleanup(g: Graph, h: Id, fuel: nat)
    requires CleanupClosed(g) && h < |g| && g[h].isCleanup
    ensures Thread(g, h, fuel).To? && Thread(g, h, fuel).handler.Some?
        ==> Thread(g, h, fuel).handler.value < |g| && g[Thread(g, h, fuel).handler.value].isCleanup
    decreases fuel
  {
    hide Thread;
    SkipStep(g, h, fuel);
    if Skip(g, h).None? {
      AtTheEnd(g, h);
    } else if fuel > 0 {
      assert g[h] in g;
      ThreadStaysInCleanup(g, Skip(g, h).value, fuel - 1);
    }
  }

  /** A handler is a cleanup block of the body, or the synthetic block of the terminate reason that the
      block's own terminator names. */
  lemma {:induction false} HandlerIsCleanupOrSynthetic(g: Graph, b: Block, noUnwind: bool)
    requires CleanupClosed(g) && b in g
    requires HandlerForBlock(g, b, noUnwind).To? && HandlerForBlock(g, b, noUnwind).handler.Some?
    ensures var h := HandlerForBlock(g, b, noUnwind).handler.value;
      if h < |g| then g[h].isCleanup else
        && b.terminator.Some? && UnwindOf(b.terminator.value).Some?
        && UnwindOf(b.terminator.value).value.Terminate?
        && h == TerminateHandlerId(UnwindOf(b.terminator.value).value.reason, g)
  {
    hide Thread;
    var a := UnwindOf(b.terminator.value).value;
    if a.Cleanup? {
      ThreadStaysInCleanup(g, a.target, |g|);
    }
  }
}
