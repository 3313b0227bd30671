/** Blocks and exception regions of one method: normal and cleanup blocks are told apart, synthetic
    abort handlers are appended, and a failed statement resets the whole body to one throwing block. */
module Regions {
  import opened Unwind
  import opened Wrappers

  /** A root of the emitted code; a terminate region runs one root and aborts when an exception leaves
      it. */
  datatype Root = Plain(id: nat) | TerminateRegion(protected: nat, reason: Reason)

  datatype CilBlock = CilBlock(id: Id, roots: seq<Root>)

  datatype Region = Region(block: Id, handler: Id)

  datatype MethodBody = MethodBody(normal: seq<CilBlock>, cleanup: seq<CilBlock>, regions: seq<Region>)

  /** A body aborts the compiler when a handler computation does, or when it has no normal block. */
  datatype Assembled = Assembled(body: MethodBody) | Aborted

  /** The code of a terminator: a drop call with an optional null-vtable branch in front of it and the
      jump behind it, or anything else. */
  datatype TerminatorCode = DropCode(nullCheck: Option<nat>, call: nat, jump: nat) | OtherCode(roots: seq<nat>)

  /** A MIR block with the roots its statements lower to, the code of its terminator, and whether a
      statement failed to lower. */
  datatype Lowered = Lowered(block: Block, statements: seq<nat>, code: TerminatorCode, failed: bool)

  datatype Emitted = Emitted(throwing: seq<nat>, abiAbort: seq<nat>, inCleanupAbort: seq<nat>)

  // ---- lowering of one block ------------------------------------------------------------------

  function Plains(ids: seq<nat>): (r: seq<Root>)
    ensures |r| == |ids| && forall i :: 0 <= i < |r| ==> r[i] == Plain(ids[i])
  {
    seq(|ids|, i requires 0 <= i < |ids| => Plain(ids[i]))
  }

  /** The abort guard of a drop: only in a cleanup block and on a terminate edge. */
  function DropGuard(b: Block, noUnwind: bool): Option<Reason> {
    if b.isCleanup && !noUnwind && b.terminator.Some? && b.terminator.value.Drop?
       && b.terminator.value.unwind.Terminate?
    then Some(b.terminator.value.unwind.reason) else None
  }

  function TerminatorRoots(l: Lowered, noUnwind: bool): seq<Root> {
    match l.code
    case OtherCode(roots) => Plains(roots)
    case DropCode(nullCheck, call, jump) =>
      if l.block.terminator.Some? && l.block.terminator.value.Drop? && l.block.terminator.value.noop then [Plain(jump)]
      else
        var guard := DropGuard(l.block, noUnwind);
        (if nullCheck.Some? then [Plain(nullCheck.value)] else [])
          + [if guard.Some? then TerminateRegion(call, guard.value) else Plain(call)] + [Plain(jump)]
  }

  function RootsOf(l: Lowered, noUnwind: bool): seq<Root> { Plains(l.statements) + TerminatorRoots(l, noUnwind) }

  function GraphOf(ls: seq<Lowered>): Graph {
    seq(|ls|, i requires 0 <= i < |ls| => ls[i].block)
  }

  predicate IsDrop(b: Block) { b.terminator.Some? && b.terminator.value.Drop? }

  ghost predicate InputOk(ls: seq<Lowered>) {
    CleanupClosed(GraphOf(ls)) && forall l :: l in ls ==> (l.code.DropCode? <==> IsDrop(l.block))
  }

  function HandlerOf(ls: seq<Lowered>, i: nat, noUnwind: bool): Threaded
    requires InputOk(ls) && i < |ls|
  {
    var g := GraphOf(ls);
    assert g[i] in g;
    HandlerForBlock(g, g[i], noUnwind)
  }

  // ---- the blocks and regions of the first `n` MIR blocks -------------------------------------

  function BlocksOf(ls: seq<Lowered>, noUnwind: bool, cleanup: bool, n: nat): seq<CilBlock>
    requires n <= |ls|
  {
    if n == 0 then []
    else
      BlocksOf(ls, noUnwind, cleanup, n - 1)
        + (if ls[n - 1].block.isCleanup == cleanup then [CilBlock(n - 1, RootsOf(ls[n - 1], noUnwind))] else [])
  }

  ghost predicate AllResolved(ls: seq<Lowered>, noUnwind: bool, n: nat)
    requires InputOk(ls) && n <= |ls|
  {
    forall i :: 0 <= i < n ==> HandlerOf(ls, i, noUnwind).To?
  }

  function RegionsOf(ls: seq<Lowered>, noUnwind: bool, n: nat): seq<Region>
    requires InputOk(ls) && n <= |ls| && AllResolved(ls, noUnwind, n)
  {
    if n == 0 then []
    else
      var handler := HandlerOf(ls, n - 1, noUnwind).handler;
      RegionsOf(ls, noUnwind, n - 1)
        + (if !ls[n - 1].block.isCleanup && handler.Some? then [Region(n - 1, handler.value)] else [])
  }

  /** Some block, normal or cleanup, resolves to the synthetic handler `id`. */
  ghost predicate UsesHandler(ls: seq<Lowered>, noUnwind: bool, n: nat, id: Id)
    requires InputOk(ls) && n <= |ls|
  {
    exists i :: 0 <= i < n && HandlerOf(ls, i, noUnwind) == To(Some(id))
  }

  // ---- what a method body owes its regions ----------------------------------------------------

  function Occurrences(bs: seq<CilBlock>, id: Id): nat {
    if bs == [] then 0
    else Occurrences(bs[..|bs| - 1], id) + (if bs[|bs| - 1].id == id then 1 else 0)
  }

  /** A region guards exactly one normal block, no cleanup block, with exactly one cleanup block that is
      no normal block. */
  ghost predicate RegionResolves(r: Region, m: MethodBody) {
    && Occurrences(m.normal, r.block) == 1 && Occurrences(m.cleanup, r.block) == 0
    && Occurrences(m.cleanup, r.handler) == 1 && Occurrences(m.normal, r.handler) == 0
  }

  ghost predicate RegionsResolve(m: MethodBody) { forall r :: r in m.regions ==> RegionResolves(r, m) }

  lemma {:induction false} BlocksGrow(ls: seq<Lowered>, noUnwind: bool, cleanup: bool, n: nat, id: Id)
    requires n < |ls|
    ensures Occurrences(BlocksOf(ls, noUnwind, cleanup, n + 1), id)
         == Occurrences(BlocksOf(ls, noUnwind, cleanup, n), id)
              + if id == n && ls[n].block.isCleanup == cleanup then 1 else 0
  {
    hide RootsOf, Occurrences;
    var front, last := BlocksOf(ls, noUnwind, cleanup, n), CilBlock(n, RootsOf(ls[n], noUnwind));
    if ls[n].block.isCleanup == cleanup {
      assert BlocksOf(ls, noUnwind, cleanup, n + 1) == front + [last];
      OccurrencesConcat(front, [last], id);
      OccursAlone(last, id);
    } else {
      assert BlocksOf(ls, noUnwind, cleanup, n + 1) == front;
    }
  }

  lemma {:induction false} BlockOccursOnce(ls: seq<Lowered>, noUnwind: bool, cleanup: bool, n: nat, id: Id)
    requires n <= |ls|
    ensures Occurrences(BlocksOf(ls, noUnwind, cleanup, n), id)
         == if id < n && ls[id].block.isCleanup == cleanup then 1 else 0
  {
    if n == 0 {
      hide RootsOf;
      assert BlocksOf(ls, noUnwind, cleanup, 0) == [];
    } else {
      hide *;
      BlockOccursOnce(ls, noUnwind, cleanup, n - 1, id);
      BlocksGrow(ls, noUnwind, cleanup, n - 1, id);
    }
  }

  lemma {:induction false} RegionSource(ls: seq<Lowered>, noUnwind: bool, n: nat, r: Region)
    requires InputOk(ls) && n <= |ls| && AllResolved(ls, noUnwind, n)
    ensures r in RegionsOf(ls, noUnwind, n)
       <==> r.block < n && !ls[r.block].block.isCleanup && HandlerOf(ls, r.block, noUnwind) == To(Some(r.handler))
  {
    hide HandlerOf;
    if n > 0 {
      RegionSource(ls, noUnwind, n - 1, r);
    }
  }

  lemma {:induction false} HandlerExists(ls: seq<Lowered>, noUnwind: bool, i: nat, h: Id)
    requires InputOk(ls) && i < |ls| && HandlerOf(ls, i, noUnwind) == To(Some(h))
    ensures h < |ls| ==> ls[h].block.isCleanup
    ensures h >= |ls| ==> h == |ls| || h == |ls| + 1
  {
    hide HandlerForBlock, CleanupClosed;
    var g := GraphOf(ls);
    assert g[i] in g;
    HandlerIsCleanupOrSynthetic(g, g[i], noUnwind);
  }

  // ---- assembly -------------------------------------------------------------------------------

  /** The abort handlers some block needs, in the order of their ids. */
  function Synthetic(ls: seq<Lowered>, used: set<Id>, emitted: Emitted): seq<CilBlock> {
    (if |ls| in used then [CilBlock(|ls|, Plains(emitted.abiAbort))] else [])
      + (if |ls| + 1 in used then [CilBlock(|ls| + 1, Plains(emitted.inCleanupAbort))] else [])
  }

  lemma {:induction false} OccurrencesConcat(a: seq<CilBlock>, b: seq<CilBlock>, id: Id)
    ensures Occurrences(a + b, id) == Occurrences(a, id) + Occurrences(b, id)
  {
    if b == [] {
      assert a + b == a;
    } else {
      OccurrencesConcat(a, b[..|b| - 1], id);
      assert (a + b)[..|a + b| - 1] == a + b[..|b| - 1];
    }
  }

  lemma {:induction false} OccursAlone(b: CilBlock, id: Id)
    ensures Occurrences([b], id) == if b.id == id then 1 else 0
  {
    assert [b][..0] == [];
  }

  lemma {:induction false} SyntheticOccurs(ls: seq<Lowered>, used: set<Id>, emitted: Emitted, id: Id)
    ensures Occurrences(Synthetic(ls, used, emitted), id)
         == if id in used && (id == |ls| || id == |ls| + 1) then 1 else 0
  {
    var a := if |ls| in used then [CilBlock(|ls|, Plains(emitted.abiAbort))] else [];
    var b := if |ls| + 1 in used then [CilBlock(|ls| + 1, Plains(emitted.inCleanupAbort))] else [];
    OccurrencesConcat(a, b, id);
    OccursAlone(CilBlock(|ls|, Plains(emitted.abiAbort)), id);
    OccursAlone(CilBlock(|ls| + 1, Plains(emitted.inCleanupAbort)), id);
  }

  function Prepended(blocks: seq<CilBlock>, repack: seq<Root>): seq<CilBlock>
    requires blocks != []
  {
    [blocks[0].(roots := repack + blocks[0].roots)] + blocks[1..]
  }

  lemma {:induction false} PrependKeepsIds(blocks: seq<CilBlock>, repack: seq<Root>, id: Id)
    requires blocks != []
    ensures Occurrences(Prepended(blocks, repack), id) == Occurrences(blocks, id)
  {
    hide Occurrences;
    OccurrencesConcat([blocks[0].(roots := repack + blocks[0].roots)], blocks[1..], id);
    OccurrencesConcat([blocks[0]], blocks[1..], id);
    OccursAlone(blocks[0].(roots := repack + blocks[0].roots), id);
    OccursAlone(blocks[0], id);
    assert [blocks[0]] + blocks[1..] == blocks;
  }

  ghost predicate UsedIs(ls: seq<Lowered>, noUnwind: bool, n: nat, used: set<Id>)
    requires InputOk(ls) && n <= |ls|
  {
    forall id :: id in used <==> id >= |ls| && UsesHandler(ls, noUnwind, n, id)
  }

  /** What the block loop gathers when every statement lowers. */
  function Whole(ls: seq<Lowered>, noUnwind: bool, used: set<Id>, repack: seq<nat>, emitted: Emitted): MethodBody
    requires InputOk(ls) && AllResolved(ls, noUnwind, |ls|) && BlocksOf(ls, noUnwind, false, |ls|) != []
  {
    MethodBody(Prepended(BlocksOf(ls, noUnwind, false, |ls|), Plains(repack)),
               BlocksOf(ls, noUnwind, true, |ls|) + Synthetic(ls, used, emitted),
               RegionsOf(ls, noUnwind, |ls|))
  }

  /** `from_region_blocks`: only regions lead to cleanup blocks, so a body without regions keeps none. */
  function FromRegionBlocks(m: MethodBody): MethodBody { if m.regions == [] then m.(cleanup := []) else m }

  /** The body of the method. */
  function Exported(ls: seq<Lowered>, noUnwind: bool, used: set<Id>, repack: seq<nat>, emitted: Emitted): MethodBody
    requires InputOk(ls) && AllResolved(ls, noUnwind, |ls|) && BlocksOf(ls, noUnwind, false, |ls|) != []
  {
    FromRegionBlocks(Whole(ls, noUnwind, used, repack, emitted))
  }

  function Reset(emitted: Emitted): MethodBody { MethodBody([CilBlock(0, Plains(emitted.throwing))], [], []) }

  predicate NoNormalBlock(ls: seq<Lowered>, noUnwind: bool) { BlocksOf(ls, noUnwind, false, |ls|) == [] }

  predicate AnyFailed(ls: seq<Lowered>, n: nat)
    requires n <= |ls|
  {
    exists i :: 0 <= i < n && ls[i].failed
  }

  /** Real handlers are cleanup blocks, synthetic ids never meet the ids of MIR blocks, and each used
      one is there once. */
  lemma {:induction false} ExportedResolves(ls: seq<Lowered>, noUnwind: bool, used: set<Id>, repack: seq<nat>,
                                            emitted: Emitted)
    requires InputOk(ls) && AllResolved(ls, noUnwind, |ls|) && BlocksOf(ls, noUnwind, false, |ls|) != []
    requires UsedIs(ls, noUnwind, |ls|, used)
    ensures RegionsResolve(Exported(ls, noUnwind, used, repack, emitted))
  {
    hide Occurrences, HandlerOf, BlocksOf, RegionsOf, Synthetic, Prepended;
    var m := Whole(ls, noUnwind, used, repack, emitted);
    forall r | r in m.regions ensures RegionResolves(r, m) {
      RegionSource(ls, noUnwind, |ls|, r);
      HandlerExists(ls, noUnwind, r.block, r.handler);
      assert r.handler >= |ls| ==> UsesHandler(ls, noUnwind, |ls|, r.handler);
      OccurrencesInWhole(ls, noUnwind, used, repack, emitted, r.block);
      OccurrencesInWhole(ls, noUnwind, used, repack, emitted, r.handler);
    }
  }

  lemma {:induction false} OccurrencesInWhole(ls: seq<Lowered>, noUnwind: bool, used: set<Id>, repack: seq<nat>,
                                              emitted: Emitted, id: Id)
    requires InputOk(ls) && AllResolved(ls, noUnwind, |ls|) && BlocksOf(ls, noUnwind, false, |ls|) != []
    ensures var m := Whole(ls, noUnwind, used, repack, emitted);
      && Occurrences(m.normal, id) == (if id < |ls| && !ls[id].block.isCleanup then 1 else 0)
      && Occurrences(m.cleanup, id) == (if id < |ls| then (if ls[id].block.isCleanup then 1 else 0)
                                        else if id in used && id <= |ls| + 1 then 1 else 0)
  {
    hide Occurrences, BlocksOf, RegionsOf, Synthetic, Prepended, InputOk, AllResolved;
    BlockOccursOnce(ls, noUnwind, false, |ls|, id);
    BlockOccursOnce(ls, noUnwind, true, |ls|, id);
    PrependKeepsIds(BlocksOf(ls, noUnwind, false, |ls|), Plains(repack), id);
    SyntheticOccurs(ls, used, emitted, id);
    OccurrencesConcat(BlocksOf(ls, noUnwind, true, |ls|), Synthetic(ls, used, emitted), id);
  }

  ghost predicate SomeNormalHandler(ls: seq<Lowered>, noUnwind: bool)
    requires InputOk(ls)
  {
    exists i :: 0 <= i < |ls| && !ls[i].block.isCleanup && HandlerOf(ls, i, noUnwind).To?
      && HandlerOf(ls, i, noUnwind).handler.Some?
  }

  /** Cleanup blocks are kept, all of them, exactly when some normal block has a handler. */
  lemma {:induction false} CleanupKeptExactly(ls: seq<Lowered>, noUnwind: bool, used: set<Id>, repack: seq<nat>,
                                              emitted: Emitted)
    requires InputOk(ls) && AllResolved(ls, noUnwind, |ls|) && BlocksOf(ls, noUnwind, false, |ls|) != []
    ensures Exported(ls, noUnwind, used, repack, emitted).regions != [] <==> SomeNormalHandler(ls, noUnwind)
    ensures Exported(ls, noUnwind, used, repack, emitted).cleanup
         == if SomeNormalHandler(ls, noUnwind) then BlocksOf(ls, noUnwind, true, |ls|) + Synthetic(ls, used, emitted)
            else []
  {
    hide HandlerOf, BlocksOf, RegionsOf, Synthetic, Prepended, InputOk, AllResolved;
    var regions := RegionsOf(ls, noUnwind, |ls|);
    if regions != [] {
      RegionSource(ls, noUnwind, |ls|, regions[0]);
    }
    if SomeNormalHandler(ls, noUnwind) {
      var i :| 0 <= i < |ls| && !ls[i].block.isCleanup && HandlerOf(ls, i, noUnwind).To?
        && HandlerOf(ls, i, noUnwind).handler.Some?;
      RegionSource(ls, noUnwind, |ls|, Region(i, HandlerOf(ls, i, noUnwind).handler.value));
    }
  }

  /** An abort handler is there exactly when the method keeps its cleanup blocks and some block, normal
      or cleanup, resolves to it; every other cleanup block is one of the MIR cleanup blocks. */
  lemma {:induction false} AbortHandlersExactly(ls: seq<Lowered>, noUnwind: bool, used: set<Id>, repack: seq<nat>,
                                                emitted: Emitted, id: Id)
    requires InputOk(ls) && AllResolved(ls, noUnwind, |ls|) && BlocksOf(ls, noUnwind, false, |ls|) != []
    requires UsedIs(ls, noUnwind, |ls|, used) && id >= |ls|
    ensures Occurrences(Exported(ls, noUnwind, used, repack, emitted).cleanup, id)
         == if SomeNormalHandler(ls, noUnwind) && UsesHandler(ls, noUnwind, |ls|, id) then 1 else 0
  {
    assert Occurrences([], id) == 0;
    hide Whole, Occurrences, HandlerOf, BlocksOf, InputOk, SomeNormalHandler;
    CleanupKeptExactly(ls, noUnwind, used, repack, emitted);
    OccurrencesInWhole(ls, noUnwind, used, repack, emitted, id);
    if UsesHandler(ls, noUnwind, |ls|, id) {
      var i :| 0 <= i < |ls| && HandlerOf(ls, i, noUnwind) == To(Some(id));
      HandlerExists(ls, noUnwind, i, id);
    }
  }

  // ---- the code of the blocks -----------------------------------------------------------------

  /** The emitted code a root stands for, guarded or not. */
  function CodeOf(root: Root): nat { if root.Plain? then root.id else root.protected }

  function Codes(roots: seq<Root>): (ids: seq<nat>)
    ensures |ids| == |roots| && forall i :: 0 <= i < |roots| ==> ids[i] == CodeOf(roots[i])
  {
    seq(|roots|, i requires 0 <= i < |roots| => CodeOf(roots[i]))
  }

  /** What a terminator lowers to: for a drop whose glue does nothing only the jump. */
  function TerminatorCodes(l: Lowered): seq<nat> {
    match l.code
    case OtherCode(roots) => roots
    case DropCode(nullCheck, call, jump) =>
      if IsDrop(l.block) && l.block.terminator.value.noop then [jump]
      else if nullCheck.Some? then [nullCheck.value, call, jump]
      else [call, jump]
  }

  /** The block runs `prefix`, the statements of its MIR block in order, and its terminator; only the drop
      on a terminate edge of a cleanup block may be guarded, for the reason of that edge. */
  ghost predicate RunsCode(b: CilBlock, l: Lowered, noUnwind: bool, prefix: seq<nat>) {
    && Codes(b.roots) == prefix + l.statements + TerminatorCodes(l)
    && forall root :: root in b.roots && root.TerminateRegion? ==>
         l.code.DropCode? && root.protected == l.code.call && DropGuard(l.block, noUnwind) == Some(root.reason)
  }

  /** The blocks are the normal, or the cleanup, blocks of the body, all of them, in MIR order, each with
      its code; the first one starts with `prefix`. */
  ghost predicate InMirOrder(blocks: seq<CilBlock>, ls: seq<Lowered>, noUnwind: bool, cleanup: bool,
                             prefix: seq<nat>)
  {
    && (forall k :: 0 <= k < |blocks| ==>
          && blocks[k].id < |ls| && ls[blocks[k].id].block.isCleanup == cleanup
          && RunsCode(blocks[k], ls[blocks[k].id], noUnwind, if k == 0 then prefix else []))
    && (forall j, k :: 0 <= j < k < |blocks| ==> blocks[j].id < blocks[k].id)
    && (forall i :: 0 <= i < |ls| && ls[i].block.isCleanup == cleanup ==>
          exists k :: 0 <= k < |blocks| && blocks[k].id == i)
  }

  /** The abort handlers, that of the ABI first. */
  ghost predicate AreHandlers(blocks: seq<CilBlock>, n: nat, emitted: Emitted) {
    && (forall b :: b in blocks ==>
          (b == CilBlock(n, Plains(emitted.abiAbort)) || b == CilBlock(n + 1, Plains(emitted.inCleanupAbort))))
    && (forall j, k :: 0 <= j < k < |blocks| ==> blocks[j].id < blocks[k].id)
  }

  /** The cleanup blocks of the body in MIR order, then abort handlers. */
  ghost predicate CleanupCode(blocks: seq<CilBlock>, ls: seq<Lowered>, noUnwind: bool, emitted: Emitted) {
    exists n :: 0 <= n <= |blocks|
             && InMirOrder(blocks[..n], ls, noUnwind, true, []) && AreHandlers(blocks[n..], |ls|, emitted)
  }

  lemma {:induction false} CodesConcat(a: seq<Root>, b: seq<Root>)
    ensures Codes(a + b) == Codes(a) + Codes(b)
  {}

  lemma {:induction false} CodesOfPlains(ids: seq<nat>)
    ensures Codes(Plains(ids)) == ids
    ensures forall root :: root in Plains(ids) ==> root.Plain?
  {}

  lemma {:induction false} TerminatorRuns(l: Lowered, noUnwind: bool)
    requires l.code.DropCode? <==> IsDrop(l.block)
    ensures Codes(TerminatorRoots(l, noUnwind)) == TerminatorCodes(l)
    ensures forall root :: root in TerminatorRoots(l, noUnwind) && root.TerminateRegion? ==>
      l.code.DropCode? && root.protected == l.code.call && DropGuard(l.block, noUnwind) == Some(root.reason)
  {
    if l.code.OtherCode? {
      CodesOfPlains(l.code.roots);
    } else {
      assert Codes(TerminatorRoots(l, noUnwind)) == TerminatorCodes(l);
    }
  }

  lemma {:induction false} BlockRuns(l: Lowered, id: Id, noUnwind: bool, prefix: seq<nat>)
    requires l.code.DropCode? <==> IsDrop(l.block)
    ensures RunsCode(CilBlock(id, RootsOf(l, noUnwind)), l, noUnwind, [])
    ensures RunsCode(CilBlock(id, Plains(prefix) + RootsOf(l, noUnwind)), l, noUnwind, prefix)
  {
    hide TerminatorRoots, TerminatorCodes, DropGuard, Codes, Plains;
    var tail := TerminatorRoots(l, noUnwind);
    TerminatorRuns(l, noUnwind);
    CodesOfPlains(l.statements);
    CodesOfPlains(prefix);
    CodesConcat(Plains(l.statements), tail);
    CodesConcat(Plains(prefix), RootsOf(l, noUnwind));
    assert prefix + (l.statements + TerminatorCodes(l)) == prefix + l.statements + TerminatorCodes(l);
    assert [] + l.statements + TerminatorCodes(l) == l.statements + TerminatorCodes(l);
  }

  /** The first `n` MIR blocks have been gone through. */
  ghost predicate InMirOrderTo(blocks: seq<CilBlock>, ls: seq<Lowered>, noUnwind: bool, cleanup: bool, n: nat)
    requires n <= |ls|
  {
    && (forall k :: 0 <= k < |blocks| ==>
          && blocks[k].id < n && ls[blocks[k].id].block.isCleanup == cleanup
          && blocks[k] == CilBlock(blocks[k].id, RootsOf(ls[blocks[k].id], noUnwind)))
    && (forall j, k :: 0 <= j < k < |blocks| ==> blocks[j].id < blocks[k].id)
    && (forall i :: 0 <= i < n && ls[i].block.isCleanup == cleanup ==>
          exists k :: 0 <= k < |blocks| && blocks[k].id == i)
  }

  lemma {:induction false} MirOrderGrows(ls: seq<Lowered>, noUnwind: bool, cleanup: bool, n: nat,
                                         front: seq<CilBlock>, blocks: seq<CilBlock>)
    requires n < |ls| && InMirOrderTo(front, ls, noUnwind, cleanup, n)
    requires blocks == front + if ls[n].block.isCleanup == cleanup then [CilBlock(n, RootsOf(ls[n], noUnwind))] else []
    ensures InMirOrderTo(blocks, ls, noUnwind, cleanup, n + 1)
  {
    hide RootsOf;
    forall k | 0 <= k < |front| ensures blocks[k] == front[k] {}
    forall i | 0 <= i < n + 1 && ls[i].block.isCleanup == cleanup
      ensures exists k :: 0 <= k < |blocks| && blocks[k].id == i
    {
      if i < n {
        var k :| 0 <= k < |front| && front[k].id == i;
        assert blocks[k].id == i;
      } else {
        assert blocks[|front|].id == i;
      }
    }
  }

  lemma {:induction false} BlocksInMirOrder(ls: seq<Lowered>, noUnwind: bool, cleanup: bool, n: nat)
    requires n <= |ls|
    ensures InMirOrderTo(BlocksOf(ls, noUnwind, cleanup, n), ls, noUnwind, cleanup, n)
  {
    hide RootsOf;
    if n > 0 {
      hide InMirOrderTo;
      BlocksInMirOrder(ls, noUnwind, cleanup, n - 1);
      MirOrderGrows(ls, noUnwind, cleanup, n - 1, BlocksOf(ls, noUnwind, cleanup, n - 1),
                    BlocksOf(ls, noUnwind, cleanup, n));
    }
  }

  lemma {:induction false} PrependedCode(ls: seq<Lowered>, noUnwind: bool, blocks: seq<CilBlock>, repack: seq<nat>)
    requires InputOk(ls) && blocks != [] && InMirOrderTo(blocks, ls, noUnwind, false, |ls|)
    ensures InMirOrder(Prepended(blocks, Plains(repack)), ls, noUnwind, false, repack)
  {
    hide RootsOf, RunsCode, Plains;
    var result := Prepended(blocks, Plains(repack));
    forall k | 0 <= k < |result|
      ensures result[k].id == blocks[k].id
      ensures RunsCode(result[k], ls[result[k].id], noUnwind, if k == 0 then repack else [])
    {
      assert ls[blocks[k].id] in ls;
      BlockRuns(ls[blocks[k].id], blocks[k].id, noUnwind, repack);
    }
    forall i | 0 <= i < |ls| && !ls[i].block.isCleanup ensures exists k :: 0 <= k < |result| && result[k].id == i {
      var k :| 0 <= k < |blocks| && blocks[k].id == i;
      assert result[k].id == i;
    }
  }

  lemma {:induction false} PlainCode(ls: seq<Lowered>, noUnwind: bool, blocks: seq<CilBlock>)
    requires InputOk(ls) && InMirOrderTo(blocks, ls, noUnwind, true, |ls|)
    ensures InMirOrder(blocks, ls, noUnwind, true, [])
  {
    hide RootsOf, RunsCode;
    forall k | 0 <= k < |blocks| ensures RunsCode(blocks[k], ls[blocks[k].id], noUnwind, []) {
      assert ls[blocks[k].id] in ls;
      BlockRuns(ls[blocks[k].id], blocks[k].id, noUnwind, []);
    }
  }

  /** No code is lost and none is added: every MIR block that is kept runs its statements and its
      terminator, the repacking code runs first, and blocks come in MIR order. */
  lemma {:induction false} ExportedCode(ls: seq<Lowered>, noUnwind: bool, used: set<Id>, repack: seq<nat>,
                                        emitted: Emitted)
    requires InputOk(ls) && AllResolved(ls, noUnwind, |ls|) && BlocksOf(ls, noUnwind, false, |ls|) != []
    ensures var m := Exported(ls, noUnwind, used, repack, emitted);
      && InMirOrder(m.normal, ls, noUnwind, false, repack)
      && (if m.regions == [] then m.cleanup == [] else CleanupCode(m.cleanup, ls, noUnwind, emitted))
  {
    hide InputOk, AllResolved, InMirOrder, InMirOrderTo, Prepended, BlocksOf, RegionsOf, Plains;
    BlocksInMirOrder(ls, noUnwind, false, |ls|);
    BlocksInMirOrder(ls, noUnwind, true, |ls|);
    PrependedCode(ls, noUnwind, BlocksOf(ls, noUnwind, false, |ls|), repack);
    var blocks, handlers := BlocksOf(ls, noUnwind, true, |ls|), Synthetic(ls, used, emitted);
    PlainCode(ls, noUnwind, blocks);
    assert (blocks + handlers)[..|blocks|] == blocks && (blocks + handlers)[|blocks|..] == handlers;
    assert AreHandlers(handlers, |ls|, emitted);
  }

  /** The block and region part of `add_fn`. */
  method AddFn(ls: seq<Lowered>, noUnwind: bool, repack: seq<nat>, emitted: Emitted) returns (r: Assembled)
    requires InputOk(ls)
    ensures r.Aborted? <==> !AllResolved(ls, noUnwind, |ls|) || (!AnyFailed(ls, |ls|) && NoNormalBlock(ls, noUnwind))
    ensures r.Assembled? && AnyFailed(ls, |ls|) ==>
      r.body == MethodBody([CilBlock(0, Plains(emitted.throwing))], [], [])
    ensures r.Assembled? && !AnyFailed(ls, |ls|) ==>
      exists used :: UsedIs(ls, noUnwind, |ls|, used) && r.body == Exported(ls, noUnwind, used, repack, emitted)
    ensures r.Assembled? ==> RegionsResolve(r.body)
    ensures r.Assembled? && !AnyFailed(ls, |ls|) ==>
      && InMirOrder(r.body.normal, ls, noUnwind, false, repack)
      && (if r.body.regions == [] then r.body.cleanup == [] else CleanupCode(r.body.cleanup, ls, noUnwind, emitted))
  {
    hide HandlerOf, InputOk, Synthetic, Prepended, RegionsResolve, InMirOrder, CleanupCode, RootsOf;
    var normal: seq<CilBlock>, cleanup: seq<CilBlock>, regions: seq<Region>, used: set<Id> := [], [], [], {};
    var failed := false;
    for i := 0 to |ls|
      invariant AllResolved(ls, noUnwind, i)
      invariant normal == BlocksOf(ls, noUnwind, false, i) && cleanup == BlocksOf(ls, noUnwind, true, i)
      invariant regions == RegionsOf(ls, noUnwind, i)
      invariant UsedIs(ls, noUnwind, i, used)
      invariant failed <==> AnyFailed(ls, i)
    {
      failed := failed || ls[i].failed;
      var handler := HandlerOf(ls, i, noUnwind);
      if !handler.To? {
        return Aborted;
      }
      ghost var before := used;
      if handler.handler.Some? && handler.handler.value >= |ls| {
        used := used + {handler.handler.value};
      }
      UsedGrows(ls, noUnwind, i, before, used);
      var bb := CilBlock(i, RootsOf(ls[i], noUnwind));
      if ls[i].block.isCleanup {
        cleanup := cleanup + [bb];
      } else {
        if handler.handler.Some? {
          regions := regions + [Region(i, handler.handler.value)];
        }
        normal := normal + [bb];
      }
    }
    cleanup := cleanup + Synthetic(ls, used, emitted);
    if failed {
      ResetResolves(emitted);
      return Assembled(Reset(emitted));
    }
    if normal == [] {
      return Aborted;
    }
    ExportedResolves(ls, noUnwind, used, repack, emitted);
    ExportedCode(ls, noUnwind, used, repack, emitted);
    r := Assembled(FromRegionBlocks(MethodBody(Prepended(normal, Plains(repack)), cleanup, regions)));
  }

  lemma {:induction false} ResetResolves(emitted: Emitted)
    ensures RegionsResolve(Reset(emitted))
  {}

  lemma {:induction false} UsedGrows(ls: seq<Lowered>, noUnwind: bool, i: nat, used: set<Id>, grown: set<Id>)
    requires InputOk(ls) && i < |ls| && UsedIs(ls, noUnwind, i, used) && HandlerOf(ls, i, noUnwind).To?
    requires var h := HandlerOf(ls, i, noUnwind).handler;
      grown == if h.Some? && h.value >= |ls| then used + {h.value} else used
    ensures UsedIs(ls, noUnwind, i + 1, grown)
  {
    hide HandlerOf, InputOk;
    forall id: Id ensures id in grown <==> id >= |ls| && UsesHandler(ls, noUnwind, i + 1, id) {
      assert UsesHandler(ls, noUnwind, i + 1, id)
        <==> UsesHandler(ls, noUnwind, i, id) || HandlerOf(ls, i, noUnwind) == To(Some(id));
    }
  }

  // ---- what a terminate edge does -------------------------------------------------------------

  function AbortRoots(reason: Reason, emitted: Emitted): seq<Root> {
    if reason.Abi? then Plains(emitted.abiAbort) else Plains(emitted.inCleanupAbort)
  }

  /** The root whose exceptions leave the block along the unwind edge of its terminator. */
  ghost predicate Acts(l: Lowered, noUnwind: bool, root: Root) {
    match l.code
    case OtherCode(roots) => root in Plains(roots)
    case DropCode(_, call, _) =>
      var guard := DropGuard(l.block, noUnwind);
      root == if guard.Some? then TerminateRegion(call, guard.value) else Plain(call)
  }

  /** Block `id` of the emitted body holds the root. */
  ghost predicate Holds(m: MethodBody, cleanup: bool, id: Id, root: Root) {
    exists b :: b in (if cleanup then m.cleanup else m.normal) && b.id == id && root in b.roots
  }

  ghost predicate Guarded(m: MethodBody, i: Id) { exists r :: r in m.regions && r.block == i }

  /** An exception that leaves `root` of block `i` aborts for `reason`: in the root's own terminate
      region, or in the abort handler of the region around the block. */
  ghost predicate AbortsFor(m: MethodBody, i: Id, root: Root, reason: Reason, emitted: Emitted) {
    if root.TerminateRegion? then root.reason == reason
    else exists r :: r in m.regions && r.block == i && CilBlock(r.handler, AbortRoots(reason, emitted)) in m.cleanup
  }

  ghost predicate HasTerminateEdge(b: Block) {
    b.terminator.Some? && UnwindOf(b.terminator.value).Some? && UnwindOf(b.terminator.value).value.Terminate?
  }

  lemma {:induction false} BlockIsEmitted(ls: seq<Lowered>, noUnwind: bool, cleanup: bool, n: nat, i: nat)
    requires i < n <= |ls| && ls[i].block.isCleanup == cleanup
    ensures CilBlock(i, RootsOf(ls[i], noUnwind)) in BlocksOf(ls, noUnwind, cleanup, n)
  {
    if i < n - 1 {
      BlockIsEmitted(ls, noUnwind, cleanup, n - 1, i);
    }
  }

  lemma {:induction false} PrependHolds(blocks: seq<CilBlock>, repack: seq<Root>, b: CilBlock, root: Root)
    requires b in blocks && root in b.roots
    ensures exists c :: c in Prepended(blocks, repack) && c.id == b.id && root in c.roots
  {
    if b == blocks[0] {
      assert Prepended(blocks, repack)[0].id == b.id;
    } else {
      var k :| 0 <= k < |blocks| && blocks[k] == b;
      assert Prepended(blocks, repack)[k] == b;
    }
  }

  lemma {:induction false} ActionIsEmitted(ls: seq<Lowered>, noUnwind: bool, used: set<Id>, repack: seq<nat>,
                                           emitted: Emitted, i: nat, root: Root)
    requires InputOk(ls) && AllResolved(ls, noUnwind, |ls|) && BlocksOf(ls, noUnwind, false, |ls|) != []
    requires i < |ls| && root in RootsOf(ls[i], noUnwind)
    ensures Holds(Whole(ls, noUnwind, used, repack, emitted), ls[i].block.isCleanup, i, root)
  {
    hide BlocksOf, RegionsOf, RootsOf, Synthetic, Prepended, InputOk, AllResolved;
    var cleanup := ls[i].block.isCleanup;
    BlockIsEmitted(ls, noUnwind, cleanup, |ls|, i);
    var b := CilBlock(i, RootsOf(ls[i], noUnwind));
    if cleanup {
      assert b in Whole(ls, noUnwind, used, repack, emitted).cleanup;
    } else {
      PrependHolds(BlocksOf(ls, noUnwind, false, |ls|), Plains(repack), b, root);
    }
  }

  lemma {:induction false} ActionRoots(l: Lowered, noUnwind: bool, root: Root)
    requires (l.code.DropCode? <==> IsDrop(l.block)) && HasTerminateEdge(l.block)
    requires !(IsDrop(l.block) && l.block.terminator.value.noop) && Acts(l, noUnwind, root)
    ensures root in RootsOf(l, noUnwind)
    ensures root.TerminateRegion? <==> !noUnwind && l.block.isCleanup && IsDrop(l.block)
    ensures root.TerminateRegion? ==> root.reason == UnwindOf(l.block.terminator.value).value.reason
  {
    assert root in TerminatorRoots(l, noUnwind);
  }

  lemma {:induction false} ExportHolds(m: MethodBody, cleanup: bool, id: Id, root: Root)
    requires Holds(m, cleanup, id, root)
    ensures Holds(FromRegionBlocks(m), cleanup, id, root) <==> (cleanup ==> m.regions != [])
  {}

  /** An exception at a terminate edge, at any root of the terminator and for any terminator that can
      raise, aborts for the edge's own reason exactly when unwinding is on, the call is not substituted,
      and the block is a normal one or drops. The abort is a region around a normal block and a guard
      inside a cleanup block; calls, assertions and assembly in cleanup blocks have neither. */
  lemma {:induction false} TerminateEdgeAbortsExactly(ls: seq<Lowered>, noUnwind: bool, used: set<Id>, repack: seq<nat>,
                                                      emitted: Emitted, i: nat, root: Root)
    requires InputOk(ls) && AllResolved(ls, noUnwind, |ls|) && BlocksOf(ls, noUnwind, false, |ls|) != []
    requires UsedIs(ls, noUnwind, |ls|, used) && i < |ls| && HasTerminateEdge(ls[i].block)
    requires !(IsDrop(ls[i].block) && ls[i].block.terminator.value.noop) && Acts(ls[i], noUnwind, root)
    ensures var b, t, m := ls[i].block, ls[i].block.terminator.value, Exported(ls, noUnwind, used, repack, emitted);
      var substituted := t.Call? && t.magic;
      && (Holds(m, b.isCleanup, i, root) <==> (b.isCleanup ==> m.regions != []))
      && (Guarded(m, i) <==> !noUnwind && !substituted && !b.isCleanup)
      && (root.TerminateRegion? <==> !noUnwind && b.isCleanup && t.Drop?)
      && (AbortsFor(m, i, root, UnwindOf(t).value.reason, emitted)
          <==> !noUnwind && !substituted && (b.isCleanup ==> t.Drop?))
  {
    hide BlocksOf, RegionsOf, RootsOf, Acts, UsedIs, Holds, HandlerOf;
    var b, m := ls[i].block, Exported(ls, noUnwind, used, repack, emitted);
    var reason := UnwindOf(b.terminator.value).value.reason;
    assert ls[i] in ls;
    ActionRoots(ls[i], noUnwind, root);
    ActionIsEmitted(ls, noUnwind, used, repack, emitted, i, root);
    ExportHolds(Whole(ls, noUnwind, used, repack, emitted), b.isCleanup, i, root);
    TerminateReachesItsAbort(ls, noUnwind, used, repack, emitted, i);
    forall r | r in m.regions && r.block == i
      ensures !b.isCleanup && HandlerOf(ls, i, noUnwind) == To(Some(r.handler))
    {
      RegionSource(ls, noUnwind, |ls|, r);
    }
  }

  /** A terminate edge has no handler exactly for a substituted call, a drop in a cleanup block, or
      when unwinding is off; otherwise its handler is the one block that aborts for its own reason, and
      a normal block gets a region that leads there. */
  lemma {:induction false} TerminateReachesItsAbort(ls: seq<Lowered>, noUnwind: bool, used: set<Id>, repack: seq<nat>,
                                                    emitted: Emitted, i: nat)
    requires InputOk(ls) && AllResolved(ls, noUnwind, |ls|) && BlocksOf(ls, noUnwind, false, |ls|) != []
    requires UsedIs(ls, noUnwind, |ls|, used) && i < |ls|
    requires ls[i].block.terminator.Some?
    requires UnwindOf(ls[i].block.terminator.value).Some? && UnwindOf(ls[i].block.terminator.value).value.Terminate?
    ensures var b, t, m := ls[i].block, ls[i].block.terminator.value, Whole(ls, noUnwind, used, repack, emitted);
      var handler := HandlerOf(ls, i, noUnwind).handler;
      && (handler.None? <==> noUnwind || (t.Call? && t.magic) || (b.isCleanup && t.Drop?))
      && (handler.Some? ==>
            && CilBlock(handler.value, AbortRoots(UnwindOf(t).value.reason, emitted)) in m.cleanup
            && (!b.isCleanup ==> Region(i, handler.value) in m.regions))
  {
    hide BlocksOf, RegionsOf;
    var b, m := ls[i].block, Whole(ls, noUnwind, used, repack, emitted);
    var handler := HandlerOf(ls, i, noUnwind).handler;
    if handler.Some? {
      assert UsesHandler(ls, noUnwind, |ls|, handler.value);
      assert CilBlock(handler.value, AbortRoots(UnwindOf(b.terminator.value).value.reason, emitted))
          in Synthetic(ls, used, emitted);
      RegionSource(ls, noUnwind, |ls|, Region(i, handler.value));
    }
  }

  /** An exception that leaves a block with a cleanup edge runs what its MIR cleanup block would run,
      whether or not a region was recorded for it. */
  lemma {:induction false} CleanupEdgeRunsTheSame(ls: seq<Lowered>, i: nat)
    requires InputOk(ls) && i < |ls| && HandlerOf(ls, i, false).To?
    requires ls[i].block.terminator.Some?
    requires UnwindOf(ls[i].block.terminator.value).Some? && UnwindOf(ls[i].block.terminator.value).value.Cleanup?
    ensures var g, target := GraphOf(ls), UnwindOf(ls[i].block.terminator.value).value.target;
      && target < |g|
      && (RunsTheSame(g, At(target), Where(HandlerOf(ls, i, false).handler))
          <==> !DropsEffect(g, ChainEnd(g, target, |g|)))
  {
    hide Run, Thread, DropsEffect, ChainEnd, Necessary, RunsTheSame;
    var g := GraphOf(ls);
    assert g[i] in g;
    ThreadingKeepsUnwinding(g, UnwindOf(g[i].terminator.value).value.target);
  }

  /** Regions never name an abort handler that only cleanup blocks use: such a block is emitted and left
      unreferenced. */
  lemma {:induction false} AbortHandlerReferencedExactly(ls: seq<Lowered>, noUnwind: bool, used: set<Id>,
                                                         repack: seq<nat>, emitted: Emitted, id: Id)
    requires InputOk(ls) && AllResolved(ls, noUnwind, |ls|) && BlocksOf(ls, noUnwind, false, |ls|) != []
    requires UsedIs(ls, noUnwind, |ls|, used) && id in used
    ensures (exists r :: r in Exported(ls, noUnwind, used, repack, emitted).regions && r.handler == id)
       <==> exists i :: 0 <= i < |ls| && !ls[i].block.isCleanup && HandlerOf(ls, i, noUnwind) == To(Some(id))
  {
    hide HandlerOf, BlocksOf, RegionsOf, InputOk, UsedIs, AllResolved;
    var regions := RegionsOf(ls, noUnwind, |ls|);
    forall r | r in regions
      ensures r.block < |ls| && !ls[r.block].block.isCleanup && HandlerOf(ls, r.block, noUnwind) == To(Some(r.handler))
    {
      RegionSource(ls, noUnwind, |ls|, r);
    }
    forall i | 0 <= i < |ls| && !ls[i].block.isCleanup && HandlerOf(ls, i, noUnwind) == To(Some(id))
      ensures Region(i, id) in regions
    {
      RegionSource(ls, noUnwind, |ls|, Region(i, id));
    }
    assert Exported(ls, noUnwind, used, repack, emitted).regions == regions;
  }

  /** A normal block that calls, and the cleanup block of that call, which calls in turn. */
  const CleanupCall: seq<Lowered> :=
    [Lowered(Block([], Some(Call(false, Cleanup(1))), false), [], OtherCode([5]), false),
     Lowered(Block([], Some(Call(false, Terminate(InCleanup))), true), [], OtherCode([7]), false)]

  lemma {:induction false} CleanupCallIsInput()
    ensures InputOk(CleanupCall)
  {
    var g := GraphOf(CleanupCall);
    assert forall b :: b in g ==> b == CleanupCall[0].block || b == CleanupCall[1].block;
  }

  lemma {:induction false} CleanupCallHandlers()
    requires InputOk(CleanupCall)
    ensures HandlerOf(CleanupCall, 0, false) == To(Some(1)) && HandlerOf(CleanupCall, 1, false) == To(Some(3))
  {
    hide InputOk;
  }

  lemma {:induction false} CleanupCallBlocks()
    requires InputOk(CleanupCall) && AllResolved(CleanupCall, false, 2)
    requires HandlerOf(CleanupCall, 0, false) == To(Some(1))
    ensures BlocksOf(CleanupCall, false, false, 2) != []
    ensures RegionsOf(CleanupCall, false, 2) == [Region(0, 1)]
  {
    hide InputOk, HandlerOf, RootsOf;
    var ls := CleanupCall;
    assert BlocksOf(ls, false, false, 1) == [CilBlock(0, RootsOf(ls[0], false))];
    assert RegionsOf(ls, false, 0) == [] && RegionsOf(ls, false, 1) == [Region(0, 1)];
  }

  /** That happens: when the first call throws, its region leads to a cleanup block whose own call must not
      unwind. The abort handler of that call is there, no region names it, and an exception at the call
      aborts nowhere. */
  lemma {:induction false} UnreferencedAbortHandler(emitted: Emitted)
    ensures InputOk(CleanupCall) && UsesHandler(CleanupCall, false, 2, 3) && AllResolved(CleanupCall, false, 2)
    ensures UsedIs(CleanupCall, false, 2, {3}) && BlocksOf(CleanupCall, false, false, 2) != []
    ensures !AnyFailed(CleanupCall, 2)
    ensures var m := Exported(CleanupCall, false, {3}, [], emitted);
      && Holds(m, false, 0, Plain(5)) && m.regions == [Region(0, 1)] && Holds(m, true, 1, Plain(7))
      && CilBlock(3, Plains(emitted.inCleanupAbort)) in m.cleanup && (forall r :: r in m.regions ==> r.handler != 3)
      && !AbortsFor(m, 1, Plain(7), InCleanup, emitted)
  {
    hide InputOk, HandlerOf, BlocksOf, RegionsOf, Holds;
    var ls := CleanupCall;
    CleanupCallIsInput();
    CleanupCallHandlers();
    CleanupCallBlocks();
    assert Plains([5])[0] == Plain(5) && Plains([7])[0] == Plain(7);
    ActionIsEmitted(ls, false, {3}, [], emitted, 0, Plain(5));
    ActionIsEmitted(ls, false, {3}, [], emitted, 1, Plain(7));
  }
}
