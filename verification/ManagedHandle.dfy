/** The table of managed handles: a list of references with a null first entry and a stack of free
    indices that is only used while it holds more than one. */
module ManagedHandle {
  import opened Finite
  import opened Wrappers

  /** A managed reference, possibly null. */
  type Reference = Option<nat>

  type Handle = nat

  datatype Table = Table(ts: seq<Reference>, free: seq<nat>)

  datatype Op = Create(reference: Reference) | Free(handle: Handle)

  const Empty: Table := Table([None], [])

  // ---- the operations on values ---------------------------------------------------------------

  function Created(t: Table, reference: Reference): (Table, Handle) {
    if |t.free| > 1 && t.free[|t.free| - 1] < |t.ts| then
      var last := t.free[|t.free| - 1];
      (Table(t.ts[last := reference], t.free[..|t.free| - 1]), last)
    else (Table(t.ts + [reference], t.free), |t.ts|)
  }

  function Freed(t: Table, h: Handle): Table
    requires h < |t.ts|
  {
    if h == |t.ts| - 1 then Table(t.ts[..h], t.free) else Table(t.ts[h := None], t.free + [h])
  }

  // ---- what a program may observe -------------------------------------------------------------

  /** The handles a program holds, each with the reference it was created for. */
  type Held = map<Handle, Reference>

  /** Every index is the null entry, held, or free, and only one of these; held handles read back what
      they were created for. */
  ghost predicate Ok(t: Table, held: Held) {
    && |t.ts| > 0 && t.ts[0] == None && 0 !in held && 0 !in t.free
    && Distinct(t.free)
    && (forall i :: i in t.free ==> 0 < i < |t.ts| && i !in held)
    && (forall i :: 0 < i < |t.ts| ==> i in held || i in t.free)
    && (forall h :: h in held ==> 0 < h < |t.ts| && t.ts[h] == held[h])
  }

  lemma {:induction false} Partition(t: Table, held: Held)
    requires Ok(t, held)
    ensures forall i: nat :: i < |t.ts| <==> i == 0 || i in held.Keys || i in t.free
    ensures 0 !in held.Keys && forall i :: i in t.free ==> i != 0 && i !in held.Keys
    ensures Distinct(t.free)
  {
    hide Distinct;
  }

  lemma {:induction false} DisjointSizes(n: nat, a: set<nat>, b: set<nat>)
    requires forall i: nat :: i < n <==> i == 0 || i in a || i in b
    requires 0 !in a && forall i :: i in b ==> i != 0 && i !in a
    ensures n == 1 + |a| + |b|
  {
    assert Below(n) == {0} + (a + b);
    assert {0} !! a + b && a !! b;
  }

  /** The table has one entry more than there are held and free handles. */
  lemma {:induction false} SizeIsConserved(t: Table, held: Held)
    requires Ok(t, held)
    ensures |t.ts| == 1 + |held| + |t.free|
  {
    hide *;
    Partition(t, held);
    DistinctCount(t.free);
    DisjointSizes(|t.ts|, held.Keys, Members(t.free));
  }

  lemma {:induction false} CreateKeeps(t: Table, held: Held, reference: Reference)
    requires Ok(t, held)
    ensures var (u, h) := Created(t, reference);
      && h != 0 && h !in held
      && Ok(u, held[h := reference])
  {
    var (u, h) := Created(t, reference);
    if |t.free| > 1 {
      assert t.free[|t.free| - 1] in t.free;
      assert forall i :: i in t.free <==> i in u.free || i == h;
      assert h !in u.free;
    } else {
      assert forall i :: 0 <= i < |t.ts| ==> u.ts[i] == t.ts[i];
    }
  }

  lemma {:induction false} FreeKeeps(t: Table, held: Held, h: Handle)
    requires Ok(t, held) && h in held
    ensures Ok(Freed(t, h), held - {h})
  {
    var u := Freed(t, h);
    assert forall i :: i in u.free <==> i in t.free || (i == h && h != |t.ts| - 1);
  }

  // ---- over every run -------------------------------------------------------------------------

  /** What a program holds after an operation, and the most it ever held at once. */
  datatype Account = Account(table: Table, held: Held, peak: nat)

  function Max(a: nat, b: nat): nat { if a < b then b else a }

  /** One operation; freeing a handle that is not held is no operation of a correct program. */
  function Step(a: Account, op: Op): Option<Account> {
    match op
    case Create(reference) =>
      var (u, h) := Created(a.table, reference);
      var held := a.held[h := reference];
      Some(Account(u, held, Max(a.peak, |held|)))
    case Free(h) =>
      if h !in a.held || h >= |a.table.ts| then None
      else Some(Account(Freed(a.table, h), a.held - {h}, a.peak))
  }

  function Run(a: Account, ops: seq<Op>): Option<Account>
    decreases |ops|
  {
    if ops == [] then Some(a)
    else
      var b := Step(a, ops[0]);
      if b.None? then None else Run(b.value, ops[1..])
  }

  const Fresh: Account := Account(Empty, map[], 0)

  /** The table never outgrows the peak by more than the null entry and the one hole it does not reuse. */
  ghost predicate Bounded(a: Account) { Ok(a.table, a.held) && |a.held| <= a.peak && |a.table.ts| <= a.peak + 2 }

  lemma {:induction false} StepKeeps(a: Account, op: Op)
    requires Bounded(a) && Step(a, op).Some?
    ensures Bounded(Step(a, op).value)
  {
    hide Ok;
    var b := Step(a, op).value;
    match op
    case Create(reference) =>
      CreateKeeps(a.table, a.held, reference);
      SizeIsConserved(b.table, b.held);
      SizeIsConserved(a.table, a.held);
      CreateGrowth(a.table, a.held, reference);
    case Free(h) =>
      FreeKeeps(a.table, a.held, h);
      assert (a.held - {h}).Keys == a.held.Keys - {h};
  }

  lemma {:induction false} CreateGrowth(t: Table, held: Held, reference: Reference)
    requires Ok(t, held)
    ensures var (u, h) := Created(t, reference); |u.ts| == |t.ts| || (|u.ts| == |t.ts| + 1 && |u.free| <= 1)
  {
    if |t.free| > 1 {
      assert t.free[|t.free| - 1] in t.free;
    }
  }

  lemma {:induction false} RunKeeps(a: Account, ops: seq<Op>)
    requires Bounded(a) && Run(a, ops).Some?
    ensures Bounded(Run(a, ops).value)
    decreases |ops|
  {
    hide Bounded, Step;
    if ops != [] {
      StepKeeps(a, ops[0]);
      RunKeeps(Step(a, ops[0]).value, ops[1..]);
    }
  }

  /** Over every run of creations and frees of held handles: held handles are nonzero and read back what
      they were created for, the free list has no duplicates, is in range and names no held handle, the
      sizes add up, the next handle created is nonzero and not held, and a correct program's next free
      never fails. */
  lemma {:induction false} EveryRun(ops: seq<Op>)
    requires Run(Fresh, ops).Some?
    ensures var a := Run(Fresh, ops).value;
      && (forall h :: h in a.held ==> h != 0 && h < |a.table.ts| && a.table.ts[h] == a.held[h])
      && Distinct(a.table.free)
      && (forall i :: i in a.table.free ==> 0 < i < |a.table.ts| && i !in a.held)
      && |a.table.ts| == 1 + |a.held| + |a.table.free|
      && |a.table.ts| <= a.peak + 2
      && (forall reference :: var (u, h) := Created(a.table, reference); h != 0 && h !in a.held)
      && (forall h :: h in a.held ==> Step(a, Free(h)).Some?)
  {
    hide Run, Step;
    assert Bounded(Fresh);
    RunKeeps(Fresh, ops);
    var a := Run(Fresh, ops).value;
    SizeIsConserved(a.table, a.held);
    forall reference ensures var (u, h) := Created(a.table, reference); h != 0 && h !in a.held {
      CreateKeeps(a.table, a.held, reference);
    }
    forall h | h in a.held ensures Step(a, Free(h)).Some? {
      FreeSucceeds(a, h);
    }
  }

  lemma {:induction false} RunSnoc(a: Account, ops: seq<Op>, op: Op)
    ensures Run(a, ops + [op]) == if Run(a, ops).None? then None else Step(Run(a, ops).value, op)
    decreases |ops|
  {
    hide Step;
    if ops == [] {
      assert ([op])[1..] == [];
      assert [] + [op] == [op];
    } else {
      assert (ops + [op])[1..] == ops[1..] + [op];
      if Step(a, ops[0]).Some? {
        RunSnoc(Step(a, ops[0]).value, ops[1..], op);
      }
    }
  }

  /** Every run can go on: a creation is always possible and holds one more handle, a free is possible
      exactly for a held handle, and the peak is the most that was ever held. */
  lemma {:induction false} RunsGoOn(ops: seq<Op>, op: Op)
    requires Run(Fresh, ops).Some?
    ensures Run(Fresh, []) == Some(Account(Empty, map[], 0))
    ensures var a, next := Run(Fresh, ops).value, Run(Fresh, ops + [op]);
      && (next.Some? <==> (op.Free? ==> op.handle in a.held))
      && (next.Some? && op.Create? ==>
            && (exists h: Handle :: h != 0 && h !in a.held && next.value.held == a.held[h := op.reference])
            && next.value.peak == (if a.peak < |a.held| + 1 then |a.held| + 1 else a.peak))
      && (next.Some? && op.Free? ==> next.value.held == a.held - {op.handle} && next.value.peak == a.peak)
  {
    assert Run(Fresh, []) == Some(Fresh);
    RunSnoc(Fresh, ops, op);
    hide Run;
    EveryRun(ops);
    var a := Run(Fresh, ops).value;
    if op.Create? {
      CreationStep(a, op.reference);
    }
  }

  lemma {:induction false} CreationStep(a: Account, reference: Reference)
    requires Created(a.table, reference).1 != 0 && Created(a.table, reference).1 !in a.held
    ensures var next := Step(a, Create(reference));
      && next.Some?
      && (exists h: Handle :: h != 0 && h !in a.held && next.value.held == a.held[h := reference])
      && next.value.peak == (if a.peak < |a.held| + 1 then |a.held| + 1 else a.peak)
  {
    hide Created;
    var h := Created(a.table, reference).1;
    assert a.held[h := reference].Keys == a.held.Keys + {h};
    assert |a.held[h := reference].Keys| == |a.held.Keys| + 1;
  }

  lemma {:induction false} FreeSucceeds(a: Account, h: Handle)
    requires h in a.held && h < |a.table.ts|
    ensures Step(a, Free(h)).Some?
  {}

  // ---- the table in place ---------------------------------------------------------------------

  class HandleTable {
    var ts: seq<Reference>
    var free: seq<nat>

    constructor ()
      ensures T() == Empty
    {
      ts, free := [None], [];
    }

    function T(): Table
      reads this
    {
      Table(ts, free)
    }

    /** `new ManagedHandle(reference)`. */
    method Create(reference: Reference, ghost held: Held) returns (refId: Handle)
      requires Ok(T(), held)
      modifies this
      ensures (T(), refId) == Created(old(T()), reference)
      ensures refId != 0 && refId !in held && Ok(T(), held[refId := reference])
    {
      CreateKeeps(T(), held, reference);
      if |free| > 1 {
        var last := free[|free| - 1];
        assert last in free;
        free := free[..|free| - 1];
        ts := ts[last := reference];
        refId := last;
      } else {
        var lastIndex := |ts|;
        ts := ts + [reference];
        refId := lastIndex;
      }
    }

    /** `FreeHandle` on a held handle. */
    method FreeHandle(refId: Handle, ghost held: Held)
      requires Ok(T(), held) && refId in held
      modifies this
      ensures T() == Freed(old(T()), refId)
      ensures Ok(T(), held - {refId})
    {
      FreeKeeps(T(), held, refId);
      ts := ts[refId := None];
      if refId == |ts| - 1 {
        ts := ts[..refId];
      } else {
        free := free + [refId];
      }
    }

    /** `GetRef` on a held handle. */
    method GetRef(refId: Handle, ghost held: Held) returns (reference: Reference)
      requires Ok(T(), held) && refId in held
      ensures reference == held[refId]
    {
      reference := ts[refId];
    }
  }
}
