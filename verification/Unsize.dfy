/** Unsizing coercions: a recursive walk over two layouts produces a copy plan, and the plan is
    emitted as stores. The stores are executed on a byte memory. Types are layouts; trait selection
    and vtable slots are inputs. */
module Unsize {
  import opened Arithmetic
  import opened Wrappers

  type Byte = b: nat | b < 256

  type Memory = int -> Byte

  /** The tail of a pointee, as `struct_lockstep_tails_for_codegen` leaves it: an array type, another sized
      type, a slice or a trait object. */
  datatype Tail = Array(id: nat, length: nat) | Slice | Dynamic(principal: nat) | SizedTail(id: nat)

  datatype Field = Field(offset: nat, ty: Ty)

  datatype Ty =
    | Pointer(fat: bool, pointee: Tail)
    | Pat(base: Ty)
    | Adt(def: nat, size: nat, fields: seq<Field>)
    | Opaque(id: nat, size: nat)

  datatype FieldCopy = FieldCopy(from: nat, to: nat, ty: Ty)

  datatype PointerCoercion = PointerCoercion(from: nat, to: nat, source: Ty, destination: Ty)

  /** Answers of the compiler queries: the coerced field of a definition, supertrait vtable slots,
      and vtable addresses. */
  datatype Queries = Queries(coerceField: nat -> nat, slot: (nat, nat) -> Option<nat>, vtable: (Tail, nat) -> nat)

  // ---- layouts ------------------------------------------------------------------------------

  function Size(t: Ty): nat {
    match t
    case Pointer(fat, _) => if fat then 16 else 8
    case Pat(base) => Size(base)
    case Adt(_, size, _) => size
    case Opaque(_, size) => size
  }

  /** A thin pointer is one word, a fat one two. */
  lemma {:induction false} PointerSizes(fat: bool, pointee: Tail)
    ensures Size(Pointer(fat, pointee)) == 8 * if fat then 2 else 1
  {}

  /** `peel_pattern_type`. */
  function Peel(t: Ty): (p: Ty)
    ensures !p.Pat? && Size(p) == Size(t)
    ensures p == t || p < t
  {
    if t.Pat? then Peel(t.base) else t
  }

  function End(f: Field): nat { f.offset + Size(f.ty) }

  predicate Covers(f: Field, o: int) { f.offset <= o < End(f) }

  /** Fields lie inside their aggregate and do not share bytes. */
  ghost predicate LayoutOk(t: Ty) {
    match t
    case Pat(base) => LayoutOk(base)
    case Adt(_, size, fields) =>
      && (forall f :: f in fields ==> End(f) <= size && LayoutOk(f.ty))
      && (forall i, j :: 0 <= i < j < |fields| && Size(fields[i].ty) > 0 && Size(fields[j].ty) > 0 ==>
            End(fields[i]) <= fields[j].offset || End(fields[j]) <= fields[i].offset)
    case _ => true
  }

  lemma {:induction false} PeelLayout(t: Ty)
    requires LayoutOk(t)
    ensures LayoutOk(Peel(t))
  {
    if t.Pat? {
      PeelLayout(t.base);
    }
  }

  /** A coercion the planner accepts: one chain of coerced fields down to a pointer, everything else
      unchanged or zero-sized. */
  predicate Unsizable(q: Queries, source: Ty, destination: Ty)
    decreases source
  {
    var s, d := Peel(source), Peel(destination);
    if s.Pointer? && d.Pointer? then true
    else if s.Adt? && d.Adt? then
      && s.def == d.def
      && |s.fields| == |d.fields|
      && q.coerceField(s.def) < |s.fields|
      && (forall i :: 0 <= i < |s.fields| && i != q.coerceField(s.def) ==> Unchanged(s.fields[i].ty, d.fields[i].ty))
      && Unsizable(q, s.fields[q.coerceField(s.def)].ty, d.fields[q.coerceField(s.def)].ty)
    else false
  }

  predicate Unchanged(s: Ty, d: Ty) { (Size(s) == 0 && Size(d) == 0) || s == d }

  lemma {:induction false} PeelUnsizable(q: Queries, source: Ty, destination: Ty)
    requires Unsizable(q, source, destination)
    ensures Unsizable(q, Peel(source), Peel(destination))
    ensures Peel(source).Pointer? <==> Peel(destination).Pointer?
    ensures Peel(source).Pointer? || (Peel(source).Adt? && Peel(destination).Adt?)
  {}

  lemma {:induction false} UnsizableFields(q: Queries, s: Ty, d: Ty)
    requires Unsizable(q, s, d) && s.Adt? && d.Adt?
    ensures |s.fields| == |d.fields| && q.coerceField(s.def) < |s.fields|
    ensures Unsizable(q, s.fields[q.coerceField(s.def)].ty, d.fields[q.coerceField(s.def)].ty)
    ensures forall i :: 0 <= i < |s.fields| && i != q.coerceField(s.def) ==> Unchanged(s.fields[i].ty, d.fields[i].ty)
  {}

  lemma {:induction false} FieldLayout(t: Ty, i: nat)
    requires LayoutOk(t) && t.Adt? && i < |t.fields|
    ensures LayoutOk(t.fields[i].ty) && End(t.fields[i]) <= t.size
  {
    assert t.fields[i] in t.fields;
  }

  // ---- the plan -----------------------------------------------------------------------------

  /** The copies contributed by field `i` of two aggregates. */
  function FieldPlan(q: Queries, s: Ty, d: Ty, i: nat, from: nat, to: nat): seq<FieldCopy>
    requires Unsizable(q, s, d) && s.Adt? && d.Adt? && i < |s.fields|
    decreases s, 0
  {
    var a, b := s.fields[i], d.fields[i];
    if i == q.coerceField(s.def) then Copies(q, a.ty, b.ty, from + a.offset, to + b.offset)
    else if Size(a.ty) == 0 && Size(b.ty) == 0 then []
    else [FieldCopy(from + a.offset, to + b.offset, a.ty)]
  }

  function FieldPlans(q: Queries, s: Ty, d: Ty, n: nat, from: nat, to: nat): seq<FieldCopy>
    requires Unsizable(q, s, d) && s.Adt? && d.Adt? && n <= |s.fields|
    decreases s, 1, n
  {
    if n == 0 then [] else FieldPlans(q, s, d, n - 1, from, to) + FieldPlan(q, s, d, n - 1, from, to)
  }

  function Copies(q: Queries, source: Ty, destination: Ty, from: nat, to: nat): seq<FieldCopy>
    requires Unsizable(q, source, destination)
    decreases source, 2
  {
    var s, d := Peel(source), Peel(destination);
    if s.Pointer? then [] else FieldPlans(q, s, d, |s.fields|, from, to)
  }

  function Leaf(q: Queries, source: Ty, destination: Ty, from: nat, to: nat): PointerCoercion
    requires Unsizable(q, source, destination)
    decreases source
  {
    var s, d := Peel(source), Peel(destination);
    if s.Pointer? then PointerCoercion(from, to, s, d)
    else
      var a, b := s.fields[q.coerceField(s.def)], d.fields[q.coerceField(s.def)];
      Leaf(q, a.ty, b.ty, from + a.offset, to + b.offset)
  }

  lemma {:induction false} PointerPlan(q: Queries, source: Ty, destination: Ty, from: nat, to: nat)
    requires Peel(source).Pointer? && Peel(destination).Pointer?
    ensures Unsizable(q, source, destination) && Copies(q, source, destination, from, to) == []
    ensures Leaf(q, source, destination, from, to) == PointerCoercion(from, to, Peel(source), Peel(destination))
  {}

  lemma {:induction false} AggregateUnsizable(q: Queries, source: Ty, destination: Ty)
    requires !Peel(source).Pointer? || !Peel(destination).Pointer?
    ensures var s, d := Peel(source), Peel(destination);
      && (Unsizable(q, source, destination) <==> Unsizable(q, s, d))
      && (Unsizable(q, source, destination) <==>
          && s.Adt? && d.Adt? && s.def == d.def && |s.fields| == |d.fields|
          && q.coerceField(s.def) < |s.fields|
          && (forall i :: 0 <= i < |s.fields| && i != q.coerceField(s.def) ==>
                Unchanged(s.fields[i].ty, d.fields[i].ty))
          && Unsizable(q, s.fields[q.coerceField(s.def)].ty, d.fields[q.coerceField(s.def)].ty))
  {
    hide Unchanged;
  }

  lemma {:induction false} AggregatePlan(q: Queries, source: Ty, destination: Ty, from: nat, to: nat)
    requires Unsizable(q, source, destination) && !Peel(source).Pointer?
    ensures var s, d := Peel(source), Peel(destination);
      && s.Adt? && d.Adt? && Unsizable(q, s, d)
      && Copies(q, source, destination, from, to) == FieldPlans(q, s, d, |s.fields|, from, to)
      && Leaf(q, source, destination, from, to) == Leaf(q, s, d, from, to)
      && FieldPlans(q, s, d, 0, from, to) == []
  {
    hide Unchanged;
  }

  /** What field `i` adds to a plan. */
  lemma {:induction false} FieldPlansGrow(q: Queries, s: Ty, d: Ty, i: nat, from: nat, to: nat)
    requires Unsizable(q, s, d) && s.Adt? && d.Adt? && i < |s.fields|
    ensures |s.fields| == |d.fields| && q.coerceField(s.def) < |s.fields|
    ensures var a, b := s.fields[i], d.fields[i];
      && (i == q.coerceField(s.def) ==>
          && Unsizable(q, a.ty, b.ty)
          && Leaf(q, s, d, from, to) == Leaf(q, a.ty, b.ty, from + a.offset, to + b.offset))
      && FieldPlans(q, s, d, i + 1, from, to) == FieldPlans(q, s, d, i, from, to)
           + (if i == q.coerceField(s.def) then Copies(q, a.ty, b.ty, from + a.offset, to + b.offset)
              else if Size(a.ty) == 0 && Size(b.ty) == 0 then []
              else [FieldCopy(from + a.offset, to + b.offset, a.ty)])
  {
    hide Copies, Unchanged, Size;
  }

  /** `build_unsize_plan`: appends the copies and sets the pointer leaf; `ok` is false where the
      source panics. */
  method BuildUnsizePlan(q: Queries, source: Ty, destination: Ty, from: nat, to: nat,
                         copies: seq<FieldCopy>, pointer: Option<PointerCoercion>)
    returns (ok: bool, newCopies: seq<FieldCopy>, newPointer: Option<PointerCoercion>)
    requires pointer.None?
    ensures ok <==> Unsizable(q, source, destination)
    ensures ok ==> newCopies == copies + Copies(q, source, destination, from, to)
    ensures ok ==> newPointer == Some(Leaf(q, source, destination, from, to))
    decreases source
  {
    hide Unsizable, FieldPlans, FieldPlan, Copies, Leaf, Size;
    var s, d := Peel(source), Peel(destination);
    newCopies, newPointer := copies, pointer;
    if s.Pointer? && d.Pointer? {
      if newPointer.Some? {
        assert false; // "more than one pointer leaf"
      }
      newPointer := Some(PointerCoercion(from, to, s, d));
      PointerPlan(q, source, destination, from, to);
      return true, newCopies, newPointer;
    }
    AggregateUnsizable(q, source, destination);
    if Unsizable(q, source, destination) {
      AggregatePlan(q, source, destination, from, to);
    }
    if !s.Adt? || !d.Adt? || s.def != d.def {
      return false, newCopies, newPointer;
    }
    var coerced := q.coerceField(s.def);
    if |s.fields| != |d.fields| || coerced >= |s.fields| {
      return false, newCopies, newPointer;
    }
    for i := 0 to |s.fields|
      invariant forall j :: 0 <= j < i && j != coerced ==> Unchanged(s.fields[j].ty, d.fields[j].ty)
      invariant i > coerced ==> Unsizable(q, s.fields[coerced].ty, d.fields[coerced].ty)
      invariant newPointer.Some? <==> i > coerced
      invariant Unsizable(q, s, d) ==> newCopies == copies + FieldPlans(q, s, d, i, from, to)
      invariant Unsizable(q, s, d) && i > coerced ==> newPointer == Some(Leaf(q, s, d, from, to))
    {
      var a, b := s.fields[i], d.fields[i];
      if Unsizable(q, s, d) {
        FieldPlansGrow(q, s, d, i, from, to);
      }
      if i == coerced {
        ok, newCopies, newPointer :=
          BuildUnsizePlan(q, a.ty, b.ty, from + a.offset, to + b.offset, newCopies, newPointer);
        if !ok {
          return;
        }
      } else if Size(a.ty) == 0 && Size(b.ty) == 0 {
      } else {
        if a.ty != b.ty || Size(a.ty) != Size(b.ty) {
          return false, newCopies, newPointer;
        }
        newCopies := newCopies + [FieldCopy(from + a.offset, to + b.offset, a.ty)];
      }
    }
    ok := true;
  }

  // ---- the reference: which source byte belongs in a destination byte -------------------------

  /** The field among the first `n` that holds byte `o`. */
  function FieldAt(fields: seq<Field>, n: nat, o: int): (i: Option<nat>)
    requires n <= |fields|
    ensures i.Some? ==> i.value < n && Covers(fields[i.value], o)
    ensures i.None? ==> forall j :: 0 <= j < n ==> !Covers(fields[j], o)
  {
    if n == 0 then None else if Covers(fields[n - 1], o) then Some(n - 1) else FieldAt(fields, n - 1, o)
  }

  function Shift(x: Option<nat>, start: nat): Option<nat> { if x.None? then None else Some(x.value + start) }

  /** Byte by byte and top down: the source byte that a coerced value keeps at destination byte `o`,
      unless `o` is padding or belongs to the pointer leaf. */
  function Moves(q: Queries, source: Ty, destination: Ty, o: int): Option<nat>
    requires Unsizable(q, source, destination)
    decreases source, 1
  {
    var s, d := Peel(source), Peel(destination);
    if s.Pointer? then None
    else
      var i := FieldAt(d.fields, |d.fields|, o);
      if i.None? then None else FieldMoves(q, s, d, i.value, o)
  }

  function FieldMoves(q: Queries, s: Ty, d: Ty, i: nat, o: int): Option<nat>
    requires Unsizable(q, s, d) && s.Adt? && d.Adt? && i < |s.fields|
    requires Covers(d.fields[i], o)
    decreases s, 0
  {
    var a, b := s.fields[i], d.fields[i];
    if i == q.coerceField(s.def) then Shift(Moves(q, a.ty, b.ty, o - b.offset), a.offset)
    else Some(a.offset + (o - b.offset))
  }

  // ---- the plan against the reference ---------------------------------------------------------

  predicate CopyCovers(c: FieldCopy, o: int) { c.to <= o < c.to + Size(c.ty) }

  /** Where the last of the copies that write byte `o` takes it from. */
  function SourceOf(copies: seq<FieldCopy>, o: int): Option<nat> {
    if copies == [] then None
    else
      var c := copies[|copies| - 1];
      if CopyCovers(c, o) then Some(c.from + (o - c.to)) else SourceOf(copies[..|copies| - 1], o)
  }

  /** How many copies write byte `o`. */
  function Writes(copies: seq<FieldCopy>, o: int): nat {
    if copies == [] then 0
    else Writes(copies[..|copies| - 1], o) + (if CopyCovers(copies[|copies| - 1], o) then 1 else 0)
  }

  lemma {:induction false} SourceOfConcat(a: seq<FieldCopy>, b: seq<FieldCopy>, o: int)
    ensures SourceOf(a + b, o) == if SourceOf(b, o).Some? then SourceOf(b, o) else SourceOf(a, o)
    ensures Writes(a + b, o) == Writes(a, o) + Writes(b, o)
  {
    if b == [] {
      assert a + b == a;
    } else {
      SourceOfConcat(a, b[..|b| - 1], o);
      assert (a + b)[..|a + b| - 1] == a + b[..|b| - 1];
    }
  }

  lemma {:induction false} SourceOfOne(c: FieldCopy, o: int)
    ensures SourceOf([c], o) == if CopyCovers(c, o) then Some(c.from + (o - c.to)) else None
    ensures Writes([c], o) == if CopyCovers(c, o) then 1 else 0
  {
    assert [c][..0] == [];
  }

  /** Moved bytes lie inside both values. */
  lemma {:induction false} MovesInBounds(q: Queries, source: Ty, destination: Ty, o: int)
    requires Unsizable(q, source, destination) && LayoutOk(source) && LayoutOk(destination)
    ensures Moves(q, source, destination, o).Some? ==>
              0 <= o < Size(destination) && Moves(q, source, destination, o).value < Size(source)
    decreases source, 1
  {
    hide LayoutOk, Unsizable, FieldMoves;
    var s, d := Peel(source), Peel(destination);
    PeelLayout(source);
    PeelLayout(destination);
    PeelUnsizable(q, source, destination);
    if s.Adt? {
      UnsizableFields(q, s, d);
      var i := FieldAt(d.fields, |d.fields|, o);
      if i.Some? {
        FieldMovesInBounds(q, s, d, i.value, o);
      }
    }
  }

  lemma {:induction false} FieldMovesInBounds(q: Queries, s: Ty, d: Ty, i: nat, o: int)
    requires Unsizable(q, s, d) && s.Adt? && d.Adt? && i < |s.fields|
    requires LayoutOk(s) && LayoutOk(d) && Covers(d.fields[i], o)
    ensures 0 <= o < d.size
    ensures FieldMoves(q, s, d, i, o).Some? ==> FieldMoves(q, s, d, i, o).value < s.size
    decreases s, 0
  {
    hide LayoutOk, Unsizable, Moves;
    UnsizableFields(q, s, d);
    FieldLayout(s, i);
    FieldLayout(d, i);
    if i == q.coerceField(s.def) {
      MovesInBounds(q, s.fields[i].ty, d.fields[i].ty, o - d.fields[i].offset);
    }
  }

  /** What one field's copies do to byte `o`. */
  ghost predicate FieldAgrees(q: Queries, s: Ty, d: Ty, i: nat, from: nat, to: nat, o: int)
    requires Unsizable(q, s, d) && s.Adt? && d.Adt? && i < |s.fields|
  {
    var copies := FieldPlan(q, s, d, i, from, to);
    if Covers(d.fields[i], o - to) then
      && SourceOf(copies, o) == Shift(FieldMoves(q, s, d, i, o - to), from)
      && Writes(copies, o) == (if FieldMoves(q, s, d, i, o - to).Some? then 1 else 0)
    else
      SourceOf(copies, o) == None && Writes(copies, o) == 0
  }

  lemma {:induction false} FieldPlanAgrees(q: Queries, s: Ty, d: Ty, i: nat, from: nat, to: nat, o: int)
    requires Unsizable(q, s, d) && s.Adt? && d.Adt? && i < |s.fields|
    requires LayoutOk(s) && LayoutOk(d)
    ensures FieldAgrees(q, s, d, i, from, to, o)
    decreases s, 0
  {
    hide LayoutOk, Unsizable, Moves, Copies;
    UnsizableFields(q, s, d);
    FieldLayout(s, i);
    FieldLayout(d, i);
    var a, b := s.fields[i], d.fields[i];
    if i == q.coerceField(s.def) {
      PlanAgrees(q, a.ty, b.ty, from + a.offset, to + b.offset, o);
      MovesInBounds(q, a.ty, b.ty, o - to - b.offset);
    } else if Size(a.ty) != 0 || Size(b.ty) != 0 {
      SourceOfOne(FieldCopy(from + a.offset, to + b.offset, a.ty), o);
    }
  }

  lemma {:induction false} FieldPlansAgree(q: Queries, s: Ty, d: Ty, n: nat, from: nat, to: nat, o: int)
    requires Unsizable(q, s, d) && s.Adt? && d.Adt? && n <= |s.fields|
    requires LayoutOk(s) && LayoutOk(d)
    ensures var i := FieldAt(d.fields, n, o - to);
            var copies := FieldPlans(q, s, d, n, from, to);
      && SourceOf(copies, o) == (if i.None? then None else Shift(FieldMoves(q, s, d, i.value, o - to), from))
      && Writes(copies, o) == (if i.Some? && FieldMoves(q, s, d, i.value, o - to).Some? then 1 else 0)
    decreases s, 1, n
  {
    hide LayoutOk, Unsizable, FieldMoves, FieldPlan;
    UnsizableFields(q, s, d);
    if n > 0 {
      FieldPlansAgree(q, s, d, n - 1, from, to, o);
      FieldPlanAgrees(q, s, d, n - 1, from, to, o);
      SourceOfConcat(FieldPlans(q, s, d, n - 1, from, to), FieldPlan(q, s, d, n - 1, from, to), o);
      if Covers(d.fields[n - 1], o - to) {
        OnlyOneCovers(d, n - 1, o - to);
      }
    }
  }

  lemma {:induction false} OnlyOneCovers(d: Ty, i: nat, o: int)
    requires LayoutOk(d) && d.Adt? && i < |d.fields| && Covers(d.fields[i], o)
    ensures FieldAt(d.fields, i, o) == None
  {}

  /** The flattened plan writes each destination byte at most once, and from exactly the source byte
      that the reference names. */
  lemma {:induction false} PlanAgrees(q: Queries, source: Ty, destination: Ty, from: nat, to: nat, o: int)
    requires Unsizable(q, source, destination) && LayoutOk(source) && LayoutOk(destination)
    ensures var copies := Copies(q, source, destination, from, to);
      && SourceOf(copies, o) == Shift(Moves(q, source, destination, o - to), from)
      && Writes(copies, o) == (if Moves(q, source, destination, o - to).Some? then 1 else 0)
    decreases source, 2
  {
    hide LayoutOk, Unsizable, FieldMoves, FieldPlans;
    var s, d := Peel(source), Peel(destination);
    PeelLayout(source);
    PeelLayout(destination);
    PeelUnsizable(q, source, destination);
    if s.Adt? {
      UnsizableFields(q, s, d);
      FieldPlansAgree(q, s, d, |s.fields|, from, to, o);
    }
  }

  /** The pointer leaf lies inside both values. */
  lemma {:induction false} LeafInside(q: Queries, source: Ty, destination: Ty, from: nat, to: nat)
    requires Unsizable(q, source, destination) && LayoutOk(source) && LayoutOk(destination)
    ensures var leaf := Leaf(q, source, destination, from, to);
      && leaf.source.Pointer? && leaf.destination.Pointer?
      && from <= leaf.from && leaf.from + Size(leaf.source) <= from + Size(source)
      && to <= leaf.to && leaf.to + Size(leaf.destination) <= to + Size(destination)
    decreases source
  {
    hide LayoutOk, Unsizable, Peel;
    var s, d := Peel(source), Peel(destination);
    PeelLayout(source);
    PeelLayout(destination);
    PeelUnsizable(q, source, destination);
    if s.Adt? {
      UnsizableFields(q, s, d);
      var c := q.coerceField(s.def);
      FieldLayout(s, c);
      FieldLayout(d, c);
      LeafInside(q, s.fields[c].ty, d.fields[c].ty, from + s.fields[c].offset, to + d.fields[c].offset);
    }
  }

  /** A byte of the coerced field is governed by that field alone. */
  lemma {:induction false} CoercedByte(q: Queries, source: Ty, destination: Ty, o: int)
    requires Unsizable(q, source, destination) && LayoutOk(destination) && Peel(source).Adt?
    requires var s, d := Peel(source), Peel(destination);
             Covers(d.fields[q.coerceField(s.def)], o)
    ensures var s, d := Peel(source), Peel(destination);
            var c := q.coerceField(s.def);
      Moves(q, source, destination, o) == Shift(Moves(q, s.fields[c].ty, d.fields[c].ty, o - d.fields[c].offset),
          s.fields[c].offset)
  {
    hide Peel, LayoutOk, Unsizable, Covers;
    var s, d := Peel(source), Peel(destination);
    PeelLayout(destination);
    PeelUnsizable(q, source, destination);
    UnsizableFields(q, s, d);
    CoveredFieldIsFound(d, q.coerceField(s.def), o);
  }

  /** Below the top level the leaf is the coerced field's leaf, and its bytes are that field's. */
  lemma {:induction false} LeafOfField(q: Queries, source: Ty, destination: Ty, from: nat, to: nat, o: int)
    requires Unsizable(q, source, destination) && LayoutOk(source) && LayoutOk(destination)
    requires Peel(source).Adt?
    requires var leaf := Leaf(q, source, destination, from, to); leaf.to <= o < leaf.to + Size(leaf.destination)
    ensures var s, d := Peel(source), Peel(destination);
            var a, b := s.fields[q.coerceField(s.def)], d.fields[q.coerceField(s.def)];
            var leaf := Leaf(q, a.ty, b.ty, from + a.offset, to + b.offset);
      && Unsizable(q, a.ty, b.ty) && LayoutOk(a.ty) && LayoutOk(b.ty)
      && leaf.to <= o < leaf.to + Size(leaf.destination)
      && Covers(b, o - to)
      && a.ty < source
  {
    hide LayoutOk, Unsizable, Peel;
    var s, d := Peel(source), Peel(destination);
    PeelLayout(source);
    PeelLayout(destination);
    PeelUnsizable(q, source, destination);
    UnsizableFields(q, s, d);
    var c := q.coerceField(s.def);
    FieldLayout(s, c);
    FieldLayout(d, c);
    LeafInside(q, s.fields[c].ty, d.fields[c].ty, from + s.fields[c].offset, to + d.fields[c].offset);
  }

  /** The pointer leaf shares no byte with any copy. */
  lemma {:induction false} LeafIsApart(q: Queries, source: Ty, destination: Ty, from: nat, to: nat, o: int)
    requires Unsizable(q, source, destination) && LayoutOk(source) && LayoutOk(destination)
    requires var leaf := Leaf(q, source, destination, from, to); leaf.to <= o < leaf.to + Size(leaf.destination)
    ensures Moves(q, source, destination, o - to) == None
    decreases source
  {
    hide LayoutOk, Unsizable, Peel, FieldMoves, Leaf, Covers, Size;
    if Peel(source).Adt? {
      var s, d := Peel(source), Peel(destination);
      PeelUnsizable(q, source, destination);
      UnsizableFields(q, s, d);
      LeafOfField(q, source, destination, from, to, o);
      var a, b := s.fields[q.coerceField(s.def)], d.fields[q.coerceField(s.def)];
      CoercedByte(q, source, destination, o - to);
      LeafIsApart(q, a.ty, b.ty, from + a.offset, to + b.offset, o);
      assert o - to - b.offset == o - (to + b.offset);
    } else {
      PeelUnsizable(q, source, destination);
    }
  }

  lemma {:induction false} CoveredFieldIsFound(d: Ty, i: nat, o: int)
    requires LayoutOk(d) && d.Adt? && i < |d.fields| && Covers(d.fields[i], o)
    ensures FieldAt(d.fields, |d.fields|, o) == Some(i)
  {}

  /** Every copy reads inside the source value and writes inside the destination value. */
  ghost predicate CopiesInside(copies: seq<FieldCopy>, from: nat, sourceEnd: nat, to: nat, destinationEnd: nat) {
    forall c :: c in copies ==>
      from <= c.from && c.from + Size(c.ty) <= sourceEnd && to <= c.to && c.to + Size(c.ty) <= destinationEnd
  }

  lemma {:induction false} PlanInside(q: Queries, source: Ty, destination: Ty, from: nat, to: nat)
    requires Unsizable(q, source, destination) && LayoutOk(source) && LayoutOk(destination)
    ensures CopiesInside(Copies(q, source, destination, from, to), from, from + Size(source), to,
        to + Size(destination))
    decreases source, 1
  {
    hide LayoutOk, Unsizable, Peel, FieldPlans;
    var s, d := Peel(source), Peel(destination);
    PeelLayout(source);
    PeelLayout(destination);
    PeelUnsizable(q, source, destination);
    if s.Adt? {
      UnsizableFields(q, s, d);
      FieldPlansInside(q, s, d, |s.fields|, from, to);
    }
  }

  lemma {:induction false} FieldPlansInside(q: Queries, s: Ty, d: Ty, n: nat, from: nat, to: nat)
    requires Unsizable(q, s, d) && s.Adt? && d.Adt? && n <= |s.fields|
    requires LayoutOk(s) && LayoutOk(d)
    ensures CopiesInside(FieldPlans(q, s, d, n, from, to), from, from + s.size, to, to + d.size)
    decreases s, 0, n
  {
    hide LayoutOk, Unsizable, Copies;
    UnsizableFields(q, s, d);
    if n > 0 {
      FieldPlansInside(q, s, d, n - 1, from, to);
      var i := n - 1;
      FieldLayout(s, i);
      FieldLayout(d, i);
      if i == q.coerceField(s.def) {
        PlanInside(q, s.fields[i].ty, d.fields[i].ty, from + s.fields[i].offset, to + d.fields[i].offset);
      }
    }
  }

  // ---- emission and execution -----------------------------------------------------------------

  datatype Metadata = Length(n: nat) | OldMetadata | VtableSlot(index: nat) | Vtable(address: nat)

  datatype Root = StInd(to: nat, from: nat, size: nat) | SetData(to: nat, from: nat)
                | SetMetadata(to: nat, metadata: Metadata, prior: nat)

  const U32_LIMIT: nat := 0x1_0000_0000

  /** The unsizings there are: an array becomes a slice; anything becomes a trait object, a trait object
      only with the metadata it has. */
  predicate TailsCoerce(source: Tail, destination: Tail, hasOld: bool) {
    (source.Array? && destination.Slice?) || (destination.Dynamic? && (source.Dynamic? ==> hasOld))
  }

  /** `unsized_info`; `None` where the source panics. */
  function UnsizedInfo(q: Queries, source: Tail, destination: Tail, hasOld: bool): (m: Option<Metadata>)
    ensures m.Some? <==> TailsCoerce(source, destination, hasOld)
  {
    if source.Array? && destination.Slice? then Some(Length(source.length))
    else if source.Dynamic? && destination.Dynamic? then
      if !hasOld then None
      else if source.principal == destination.principal then Some(OldMetadata)
      else
        var slot := q.slot(source.principal, destination.principal);
        Some(if slot.Some? then VtableSlot(slot.value) else OldMetadata)
    else if destination.Dynamic? then Some(Vtable(q.vtable(source, destination.principal)))
    else None
  }

  /** A leaf whose destination is a fat pointer to what the source's pointee unsizes to. */
  predicate LeafCoerces(leaf: PointerCoercion) {
    leaf.source.Pointer? && leaf.destination.Pointer? && leaf.destination.fat
      && TailsCoerce(leaf.source.pointee, leaf.destination.pointee, leaf.source.fat)
  }

  function LeafMetadata(q: Queries, leaf: PointerCoercion): (m: Option<Metadata>)
    ensures m.Some? <==> LeafCoerces(leaf)
  {
    if leaf.source.Pointer? && leaf.destination.Pointer? && leaf.destination.fat then
      UnsizedInfo(q, leaf.source.pointee, leaf.destination.pointee, leaf.source.fat)
    else None
  }

  function Stores(copies: seq<FieldCopy>): seq<Root> {
    if copies == [] then []
    else
      var c := copies[|copies| - 1];
      Stores(copies[..|copies| - 1]) + (if Size(c.ty) == 0 then [] else [StInd(c.to, c.from, Size(c.ty))])
  }

  function LeafRoots(q: Queries, leaf: PointerCoercion): seq<Root>
    requires LeafCoerces(leaf)
  {
    [SetData(leaf.to, leaf.from), SetMetadata(leaf.to + 8, LeafMetadata(q, leaf).value, leaf.from + 8)]
  }

  /** `UnsizePlan::emit`: one store per sized copy, then the data pointer, then the metadata. */
  method Emit(q: Queries, copies: seq<FieldCopy>, pointer: PointerCoercion) returns (roots: Option<seq<Root>>)
    ensures roots.Some? <==> LeafCoerces(pointer)
    ensures roots.Some? ==> roots.value == Stores(copies) + LeafRoots(q, pointer)
  {
    var out: seq<Root> := [];
    for i := 0 to |copies|
      invariant out == Stores(copies[..i])
    {
      assert copies[..i + 1][..i] == copies[..i];
      if Size(copies[i].ty) != 0 {
        out := out + [StInd(copies[i].to, copies[i].from, Size(copies[i].ty))];
      }
    }
    assert copies[..|copies|] == copies;
    var metadata := LeafMetadata(q, pointer);
    if metadata.None? {
      return None;
    }
    return Some(out + [SetData(pointer.to, pointer.from), SetMetadata(pointer.to + 8, metadata.value,
        pointer.from + 8)]);
  }

  function LeByte(v: nat, k: nat): Byte { if k == 0 then v % 256 else LeByte(v / 256, k - 1) }

  /** The little-endian word of `n` bytes at address `a`. */
  function WordAt(mem: Memory, a: int, n: nat): nat
    decreases n
  {
    if n == 0 then 0 else mem(a) + 256 * WordAt(mem, a + 1, n - 1)
  }

  function MetadataValue(m: Metadata, mem: Memory, prior: int): nat {
    match m
    case Length(n) => n
    case OldMetadata => WordAt(mem, prior, 8)
    case VtableSlot(index) => WordAt(mem, WordAt(mem, prior, 8) + (index * 8) % U32_LIMIT, 8)
    case Vtable(address) => address
  }

  datatype Site = Site(source: int, destination: int)

  function CopyBytes(mem: Memory, to: int, from: int, n: nat): Memory {
    a => if to <= a < to + n then mem(from + (a - to)) else mem(a)
  }

  function StoreWord(mem: Memory, to: int, v: nat): Memory {
    a => if to <= a < to + 8 then LeByte(v, a - to) else mem(a)
  }

  function Step(root: Root, site: Site, mem: Memory): Memory {
    match root
    case StInd(to, from, size) => CopyBytes(mem, site.destination + to, site.source + from, size)
    case SetData(to, from) => CopyBytes(mem, site.destination + to, site.source + from, 8)
    case SetMetadata(to, m, prior) => StoreWord(mem, site.destination + to, MetadataValue(m, mem, site.source + prior))
  }

  function Exec(roots: seq<Root>, site: Site, mem: Memory): Memory {
    if roots == [] then mem else Step(roots[|roots| - 1], site, Exec(roots[..|roots| - 1], site, mem))
  }

  lemma {:induction false} ExecSnoc(roots: seq<Root>, root: Root, site: Site, mem: Memory)
    ensures Exec(roots + [root], site, mem) == Step(root, site, Exec(roots, site, mem))
  {
    assert (roots + [root])[..|roots|] == roots;
  }

  /** Source and destination values do not share memory. */
  predicate Apart(site: Site, sourceSize: nat, destinationSize: nat) {
    site.source + sourceSize <= site.destination || site.destination + destinationSize <= site.source
  }

  predicate InRange(x: int, start: int, size: nat) { start <= x < start + size }

  /** Two values are apart exactly when they share no byte. */
  lemma {:induction false} ApartExactly(site: Site, sourceSize: nat, destinationSize: nat)
    requires sourceSize > 0 && destinationSize > 0
    ensures Apart(site, sourceSize, destinationSize)
       <==> forall x :: !(InRange(x, site.source, sourceSize) && InRange(x, site.destination, destinationSize))
  {
    var x := if site.source < site.destination then site.destination else site.source;
    assert InRange(x, site.source, sourceSize) && InRange(x, site.destination, destinationSize)
      <==> !Apart(site, sourceSize, destinationSize);
  }

  /** Byte `a` after the copies: from the source byte the last covering copy names, else unchanged. */
  ghost predicate CopiedAt(copies: seq<FieldCopy>, site: Site, before: Memory, after: Memory, a: int) {
    var x := SourceOf(copies, a - site.destination);
    after(a) == if x.Some? then before(site.source + x.value) else before(a)
  }

  lemma {:induction false} OutsideIsUntouched(copies: seq<FieldCopy>, sourceSize: nat, destinationSize: nat, o: int)
    requires CopiesInside(copies, 0, sourceSize, 0, destinationSize)
    requires o < 0 || o >= destinationSize
    ensures SourceOf(copies, o) == None
  {
    if copies != [] {
      assert copies[|copies| - 1] in copies;
      OutsideIsUntouched(copies[..|copies| - 1], sourceSize, destinationSize, o);
    }
  }

  /** One more store on a memory where byte `a` and the byte it reads from are as expected. */
  lemma {:induction false} OneStore(front: seq<FieldCopy>, c: FieldCopy, site: Site, before: Memory, mid: Memory,
                                    after: Memory, a: int)
    requires after == CopyBytes(mid, site.destination + c.to, site.source + c.from, Size(c.ty))
    requires CopiedAt(front, site, before, mid, a)
    requires CopyCovers(c, a - site.destination) ==>
      var b := site.source + c.from + (a - (site.destination + c.to)); mid(b) == before(b)
    ensures CopiedAt(front + [c], site, before, after, a)
  {
    SourceOfConcat(front, [c], a - site.destination);
    SourceOfOne(c, a - site.destination);
    hide SourceOf, Size;
    var b := site.source + c.from + (a - (site.destination + c.to));
    assert site.source + (c.from + (a - site.destination - c.to)) == b;
  }

  lemma {:induction false} StoresSnoc(front: seq<FieldCopy>, c: FieldCopy, site: Site, mem: Memory)
    requires Size(c.ty) != 0
    ensures Exec(Stores(front + [c]), site, mem)
         == CopyBytes(Exec(Stores(front), site, mem), site.destination + c.to, site.source + c.from, Size(c.ty))
  {
    hide Size;
    assert (front + [c])[..|front|] == front;
    ExecSnoc(Stores(front), StInd(c.to, c.from, Size(c.ty)), site, mem);
  }

  lemma {:induction false} EmptyStore(front: seq<FieldCopy>, c: FieldCopy, site: Site, before: Memory, mid: Memory,
                                      a: int)
    requires Size(c.ty) == 0 && CopiedAt(front, site, before, mid, a)
    ensures Stores(front + [c]) == Stores(front)
    ensures CopiedAt(front + [c], site, before, mid, a)
  {
    assert (front + [c])[..|front|] == front;
  }

  lemma {:induction false} SourceIsOutside(site: Site, sourceSize: nat, destinationSize: nat, b: int)
    requires Apart(site, sourceSize, destinationSize)
    requires site.source <= b < site.source + sourceSize
    ensures b - site.destination < 0 || b - site.destination >= destinationSize
  {}

  /** Copies leave the source value as it was. */
  lemma {:induction false} SourceByteKept(copies: seq<FieldCopy>, site: Site, sourceSize: nat, destinationSize: nat,
                                          before: Memory, after: Memory, b: int)
    requires CopiesInside(copies, 0, sourceSize, 0, destinationSize)
    requires CopiedAt(copies, site, before, after, b)
    requires b - site.destination < 0 || b - site.destination >= destinationSize
    ensures after(b) == before(b)
  {
    OutsideIsUntouched(copies, sourceSize, destinationSize, b - site.destination);
  }

  lemma {:induction false} NothingCopied(site: Site, mem: Memory, a: int)
    ensures CopiedAt([], site, mem, Exec(Stores([]), site, mem), a)
  {}

  lemma {:induction false} InsideSnoc(front: seq<FieldCopy>, c: FieldCopy, sourceSize: nat, destinationSize: nat)
    requires CopiesInside(front + [c], 0, sourceSize, 0, destinationSize)
    ensures CopiesInside(front, 0, sourceSize, 0, destinationSize)
    ensures c.from + Size(c.ty) <= sourceSize
  {
    assert c in front + [c] && forall x :: x in front ==> x in front + [c];
  }

  lemma {:induction false} StoresCopy(copies: seq<FieldCopy>, site: Site, sourceSize: nat, destinationSize: nat,
                                      mem: Memory, a: int)
    requires CopiesInside(copies, 0, sourceSize, 0, destinationSize)
    requires Apart(site, sourceSize, destinationSize)
    ensures CopiedAt(copies, site, mem, Exec(Stores(copies), site, mem), a)
    decreases |copies|
  {
    hide *;
    if copies == [] {
      NothingCopied(site, mem, a);
    } else {
      var front, c := copies[..|copies| - 1], copies[|copies| - 1];
      assert copies == front + [c];
      InsideSnoc(front, c, sourceSize, destinationSize);
      var mid := Exec(Stores(front), site, mem);
      StoresCopy(front, site, sourceSize, destinationSize, mem, a);
      if Size(c.ty) == 0 {
        EmptyStore(front, c, site, mem, mid, a);
      } else {
        StoresSnoc(front, c, site, mem);
        if CopyCovers(c, a - site.destination) {
          var b := site.source + c.from + (a - (site.destination + c.to));
          CoveredSource(c, site, sourceSize, a);
          SourceIsOutside(site, sourceSize, destinationSize, b);
          StoresCopy(front, site, sourceSize, destinationSize, mem, b);
          SourceByteKept(front, site, sourceSize, destinationSize, mem, mid, b);
        }
        OneStore(front, c, site, mem, mid, Exec(Stores(copies), site, mem), a);
      }
    }
  }

  lemma {:induction false} CoveredSource(c: FieldCopy, site: Site, sourceSize: nat, a: int)
    requires CopyCovers(c, a - site.destination) && c.from + Size(c.ty) <= sourceSize
    ensures site.source <= site.source + c.from + (a - (site.destination + c.to)) < site.source + sourceSize
  {}

  // ---- the whole coercion -----------------------------------------------------------------------

  /** Byte `a` of the memory the coercion should leave: the leaf holds the source data pointer and the
      metadata, every other moved byte comes from its source byte, nothing else changes. */
  ghost function Coerced(q: Queries, source: Ty, destination: Ty, site: Site, before: Memory, metadata: nat,
                         a: int): Byte
    requires Unsizable(q, source, destination)
  {
    var leaf := Leaf(q, source, destination, 0, 0);
    var o := a - site.destination;
    if leaf.to <= o < leaf.to + 8 then before(site.source + leaf.from + (o - leaf.to))
    else if leaf.to + 8 <= o < leaf.to + 16 then LeByte(metadata, o - leaf.to - 8)
    else
      var x := Moves(q, source, destination, o);
      if x.Some? then before(site.source + x.value) else before(a)
  }

  /** The words the metadata is computed from lie outside the destination. */
  ghost predicate MetadataReadable(m: Metadata, mem: Memory, prior: int, site: Site, destinationSize: nat) {
    m.VtableSlot? ==>
      var slot := WordAt(mem, prior, 8) + (m.index * 8) % U32_LIMIT;
      slot + 8 <= site.destination || site.destination + destinationSize <= slot
  }

  lemma {:induction false} SameWord(m: Memory, n: Memory, a: int, k: nat)
    requires forall b :: a <= b < a + k ==> m(b) == n(b)
    ensures WordAt(m, a, k) == WordAt(n, a, k)
    decreases k
  {
    if k > 0 {
      SameWord(m, n, a + 1, k - 1);
    }
  }

  /** Memories that agree outside the destination give the same metadata. */
  lemma {:induction false} SameMetadata(m: Metadata, before: Memory, after: Memory, prior: int, site: Site,
                                        destinationSize: nat)
    requires MetadataReadable(m, before, prior, site, destinationSize)
    requires forall b :: !(site.destination <= b < site.destination + destinationSize) ==> after(b) == before(b)
    requires !m.Length? && !m.Vtable? ==> prior + 8 <= site.destination || site.destination + destinationSize <= prior
    ensures MetadataValue(m, after, prior) == MetadataValue(m, before, prior)
  {
    hide WordAt;
    if m.OldMetadata? || m.VtableSlot? {
      SameWord(after, before, prior, 8);
    }
    if m.VtableSlot? {
      SameWord(after, before, WordAt(before, prior, 8) + (m.index * 8) % U32_LIMIT, 8);
    }
  }

  /** The main result: for every well-formed nest of aggregates ending in one pointer, running the
      emitted stores leaves exactly the coerced memory. */
  lemma {:induction false} UnsizeIsCorrect(q: Queries, source: Ty, destination: Ty, site: Site, mem: Memory, a: int)
    requires Unsizable(q, source, destination) && LayoutOk(source) && LayoutOk(destination)
    requires Apart(site, Size(source), Size(destination))
    requires var leaf := Leaf(q, source, destination, 0, 0);
      && LeafCoerces(leaf)
      && MetadataReadable(LeafMetadata(q, leaf).value, mem, site.source + (leaf.from + 8), site, Size(destination))
    ensures var leaf := Leaf(q, source, destination, 0, 0);
      var roots := Stores(Copies(q, source, destination, 0, 0)) + LeafRoots(q, leaf);
      Exec(roots, site, mem)(a)
        == Coerced(q, source, destination, site, mem,
                   MetadataValue(LeafMetadata(q, leaf).value, mem, site.source + (leaf.from + 8)), a)
  {
    hide *;
    var leaf := Leaf(q, source, destination, 0, 0);
    var m := LeafMetadata(q, leaf).value;
    var copies := Copies(q, source, destination, 0, 0);
    var copied := Exec(Stores(copies), site, mem);
    LeafInside(q, source, destination, 0, 0);
    LeafSizes(q, leaf);
    PlanInside(q, source, destination, 0, 0);
    LeafStores(q, leaf, Stores(copies), site, mem);
    forall b ensures CopiedAt(copies, site, mem, copied, b) {
      StoresCopy(copies, site, Size(source), Size(destination), mem, b);
    }
    LeafBytes(leaf, m, copies, site, Size(source), Size(destination), mem, copied, a);
    CoercedIs(q, source, destination, site, mem, MetadataValue(m, mem, site.source + (leaf.from + 8)), a);
  }

  lemma {:induction false} LeafSizes(q: Queries, leaf: PointerCoercion)
    requires LeafCoerces(leaf)
    ensures Size(leaf.destination) == 16 && 8 <= Size(leaf.source)
    ensures var m := LeafMetadata(q, leaf).value; !m.Length? && !m.Vtable? ==> Size(leaf.source) == 16
  {}

  /** The reference in terms of the plan. */
  lemma {:induction false} CoercedIs(q: Queries, source: Ty, destination: Ty, site: Site, mem: Memory, metadata: nat,
                                     a: int)
    requires Unsizable(q, source, destination) && LayoutOk(source) && LayoutOk(destination)
    ensures Coerced(q, source, destination, site, mem, metadata, a)
      == LeafByte(Leaf(q, source, destination, 0, 0), Copies(q, source, destination, 0, 0), site, mem, metadata, a)
  {
    hide LayoutOk, Unsizable, Copies, Leaf, Moves, SourceOf;
    PlanAgrees(q, source, destination, 0, 0, a - site.destination);
  }

  function LeafByte(leaf: PointerCoercion, copies: seq<FieldCopy>, site: Site, mem: Memory, metadata: nat,
                    a: int): Byte {
    var o := a - site.destination;
    if leaf.to <= o < leaf.to + 8 then mem(site.source + leaf.from + (o - leaf.to))
    else if leaf.to + 8 <= o < leaf.to + 16 then LeByte(metadata, o - leaf.to - 8)
    else
      var x := SourceOf(copies, o);
      if x.Some? then mem(site.source + x.value) else mem(a)
  }

  /** The two leaf roots run after the copies. */
  lemma {:induction false} LeafStores(q: Queries, leaf: PointerCoercion, stores: seq<Root>, site: Site, mem: Memory)
    requires LeafCoerces(leaf)
    ensures Exec(stores + LeafRoots(q, leaf), site, mem)
         == WriteLeaf(leaf, LeafMetadata(q, leaf).value, site, Exec(stores, site, mem))
  {
    hide LeafMetadata, MetadataValue, CopyBytes, StoreWord;
    var first := SetData(leaf.to, leaf.from);
    var second := SetMetadata(leaf.to + 8, LeafMetadata(q, leaf).value, leaf.from + 8);
    assert stores + LeafRoots(q, leaf) == (stores + [first]) + [second];
    ExecSnoc(stores, first, site, mem);
    ExecSnoc(stores + [first], second, site, mem);
    hide Exec;
  }

  function WriteLeaf(leaf: PointerCoercion, m: Metadata, site: Site, copied: Memory): Memory {
    var pointed := CopyBytes(copied, site.destination + leaf.to, site.source + leaf.from, 8);
    StoreWord(pointed, site.destination + (leaf.to + 8), MetadataValue(m, pointed, site.source + (leaf.from + 8)))
  }

  lemma {:induction false} PointedOutside(leaf: PointerCoercion, site: Site, destinationSize: nat, copied: Memory,
                                          b: int)
    requires leaf.to + 8 <= destinationSize
    requires b - site.destination < 0 || b - site.destination >= destinationSize
    ensures CopyBytes(copied, site.destination + leaf.to, site.source + leaf.from, 8)(b) == copied(b)
  {}

  lemma {:induction false} WriteLeafAt(leaf: PointerCoercion, m: Metadata, site: Site, copied: Memory, metadata: nat,
                                       a: int)
    requires var pointed := CopyBytes(copied, site.destination + leaf.to, site.source + leaf.from, 8);
             metadata == MetadataValue(m, pointed, site.source + (leaf.from + 8))
    ensures var o := a - site.destination;
      WriteLeaf(leaf, m, site, copied)(a) ==
        if leaf.to <= o < leaf.to + 8 then copied(site.source + leaf.from + (o - leaf.to))
        else if leaf.to + 8 <= o < leaf.to + 16 then LeByte(metadata, o - leaf.to - 8)
        else copied(a)
  {
    hide MetadataValue;
    var o := a - site.destination;
    assert site.source + leaf.from + (a - (site.destination + leaf.to)) == site.source + leaf.from + (o - leaf.to);
    assert a - (site.destination + (leaf.to + 8)) == o - leaf.to - 8;
  }

  /** What the leaf roots leave at byte `a`, in terms of the memory before the copies. */
  lemma {:induction false} LeafBytes(leaf: PointerCoercion, m: Metadata, copies: seq<FieldCopy>, site: Site,
                                     sourceSize: nat, destinationSize: nat, mem: Memory, copied: Memory, a: int)
    requires CopiesInside(copies, 0, sourceSize, 0, destinationSize)
    requires Apart(site, sourceSize, destinationSize)
    requires leaf.to + 16 <= destinationSize && leaf.from + 8 <= sourceSize
    requires !m.Length? && !m.Vtable? ==> leaf.from + 16 <= sourceSize
    requires MetadataReadable(m, mem, site.source + (leaf.from + 8), site, destinationSize)
    requires forall b :: CopiedAt(copies, site, mem, copied, b)
    ensures WriteLeaf(leaf, m, site, copied)(a)
         == LeafByte(leaf, copies, site, mem, MetadataValue(m, mem, site.source + (leaf.from + 8)), a)
  {
    hide SourceOf, CopiesInside, MetadataValue, MetadataReadable, WriteLeaf, CopyBytes, LeByte;
    var pointed := CopyBytes(copied, site.destination + leaf.to, site.source + leaf.from, 8);
    forall b | !(site.destination <= b < site.destination + destinationSize) ensures pointed(b) == mem(b) {
      assert CopiedAt(copies, site, mem, copied, b);
      SourceByteKept(copies, site, sourceSize, destinationSize, mem, copied, b);
      PointedOutside(leaf, site, destinationSize, copied, b);
    }
    SameMetadata(m, mem, pointed, site.source + (leaf.from + 8), site, destinationSize);
    WriteLeafAt(leaf, m, site, copied, MetadataValue(m, mem, site.source + (leaf.from + 8)), a);
    var o := a - site.destination;
    assert CopiedAt(copies, site, mem, copied, a);
    if leaf.to <= o < leaf.to + 8 {
      var b := site.source + leaf.from + (o - leaf.to);
      SourceIsOutside(site, sourceSize, destinationSize, b);
      assert CopiedAt(copies, site, mem, copied, b);
      SourceByteKept(copies, site, sourceSize, destinationSize, mem, copied, b);
    }
  }

  // ---- what the metadata means ------------------------------------------------------------------

  /** Reading back a stored word. */
  lemma {:induction false} WordRoundTrip(mem: Memory, a: int, v: nat, n: nat)
    requires v < Pow256(n)
    requires forall c :: a <= c < a + n ==> mem(c) == LeByte(v, c - a)
    ensures WordAt(mem, a, n) == v
    decreases n
  {
    if n > 0 {
      assert mem(a) == LeByte(v, 0);
      WordRoundTrip(mem, a + 1, v / 256, n - 1);
    }
  }

  lemma {:induction false} ShiftedWord(m: Memory, a: int, n: Memory, b: int, k: nat)
    requires forall c :: a <= c < a + k ==> m(c) == n(c + (b - a))
    ensures WordAt(m, a, k) == WordAt(n, b, k)
    decreases k
  {
    if k > 0 {
      assert m(a) == n(a + (b - a)) == n(b);
      assert b + 1 - (a + 1) == b - a;
      ShiftedWord(m, a + 1, n, b + 1, k - 1);
    }
  }

  /** The fat pointer the coercion leaves behind: the source's data pointer and the metadata. */
  lemma {:induction false} CoercedPointer(q: Queries, source: Ty, destination: Ty, site: Site, before: Memory,
                                          after: Memory, metadata: nat)
    requires Unsizable(q, source, destination) && metadata < Pow256(8)
    requires forall a :: after(a) == Coerced(q, source, destination, site, before, metadata, a)
    ensures var leaf := Leaf(q, source, destination, 0, 0);
      && WordAt(after, site.destination + leaf.to, 8) == WordAt(before, site.source + leaf.from, 8)
      && WordAt(after, site.destination + leaf.to + 8, 8) == metadata
  {
    hide *;
    var leaf := Leaf(q, source, destination, 0, 0);
    var to, from := site.destination + leaf.to, site.source + leaf.from;
    forall c | to <= c < to + 16
      ensures after(c) == if c < to + 8 then before(c + (from - to)) else LeByte(metadata, c - (to + 8))
    {
      CoercedLeafByte(q, source, destination, site, before, metadata, c);
    }
    ShiftedWord(after, to, before, from, 8);
    WordRoundTrip(after, to + 8, metadata, 8);
  }

  lemma {:induction false} CoercedLeafByte(q: Queries, source: Ty, destination: Ty, site: Site, before: Memory,
                                           metadata: nat, c: int)
    requires Unsizable(q, source, destination)
    requires var leaf := Leaf(q, source, destination, 0, 0); leaf.to <= c - site.destination < leaf.to + 16
    ensures var leaf := Leaf(q, source, destination, 0, 0);
            var to, from := site.destination + leaf.to, site.source + leaf.from;
      && (c >= to + 8 ==> c - (to + 8) >= 0)
      && Coerced(q, source, destination, site, before, metadata, c)
         == if c < to + 8 then before(c + (from - to)) else LeByte(metadata, c - (to + 8))
  {
    hide Unsizable, Leaf, Moves, LeByte;
    var leaf := Leaf(q, source, destination, 0, 0);
    var to, from := site.destination + leaf.to, site.source + leaf.from;
    assert c + (from - to) == site.source + leaf.from + (c - site.destination - leaf.to);
    assert c - (to + 8) == c - site.destination - leaf.to - 8;
  }

  /** What the program's traits are: which types implement which, and which are proper supertraits. */
  datatype Traits = Traits(implements: (nat, nat) -> bool, supertrait: (nat, nat) -> bool)

  ghost predicate Upcasts(q: Queries, mem: Memory, valid: (nat, nat, nat) -> bool, a: nat, c: nat, p: nat, r: nat) {
    var slot := q.slot(p, r);
    if slot.Some? then slot.value * 8 < U32_LIMIT && valid(WordAt(mem, a + slot.value * 8, 8), c, r)
    else valid(a, c, r)
  }

  /** `valid(address, concrete, principal)`: a vtable of `concrete` usable for `principal` is laid out
      at `address`. The vtable of an implementation is valid, the slot of a supertrait holds a valid
      vtable, and a vtable without such a slot already serves the supertrait. */
  ghost predicate VtablesOk(q: Queries, mem: Memory, traits: Traits, valid: (nat, nat, nat) -> bool) {
    && (forall t: Tail, p: nat :: (t.SizedTail? || t.Array?) && traits.implements(t.id, p) ==>
          valid(q.vtable(t, p), t.id, p))
    && (forall a: nat, c: nat, p: nat, r: nat :: valid(a, c, p) && traits.supertrait(p, r) ==>
        Upcasts(q, mem, valid, a, c, p, r))
  }

  /** The coercion is one that Rust allows: an array to a slice, or to a trait object: from the same trait or
      a supertrait behind a fat pointer, and from a sized type that implements the trait. */
  ghost predicate CoercionOk(traits: Traits, source: Tail, fat: bool, destination: Tail, concrete: nat) {
    if destination.Dynamic? then
      if source.Dynamic? then
        fat && (source.principal == destination.principal || traits.supertrait(source.principal, destination.principal))
      else !source.Slice? && source.id == concrete && traits.implements(concrete, destination.principal)
    else source.Array? && destination.Slice?
  }

  /** What the metadata word has to be. */
  ghost predicate GoodMetadata(valid: (nat, nat, nat) -> bool, source: Tail, destination: Tail, concrete: nat,
                               value: nat)
  {
    if destination.Dynamic? then valid(value, concrete, destination.principal)
    else source.Array? && value == source.length
  }

  /** Every coercion that Rust allows has metadata, and it is right: an array's length, or a vtable of the
      concrete type for the new trait. */
  lemma {:induction false} MetadataIsValid(q: Queries, source: Tail, destination: Tail, fat: bool, mem: Memory,
                                           prior: int, traits: Traits, valid: (nat, nat, nat) -> bool, concrete: nat)
    requires VtablesOk(q, mem, traits, valid) && CoercionOk(traits, source, fat, destination, concrete)
    requires source.Dynamic? ==> valid(WordAt(mem, prior, 8), concrete, source.principal)
    ensures UnsizedInfo(q, source, destination, fat).Some?
    ensures GoodMetadata(valid, source, destination, concrete,
                         MetadataValue(UnsizedInfo(q, source, destination, fat).value, mem, prior))
  {
    hide WordAt;
    if source.Dynamic? && destination.Dynamic? && source.principal != destination.principal {
      var slot := q.slot(source.principal, destination.principal);
      assert Upcasts(q, mem, valid, WordAt(mem, prior, 8), concrete, source.principal, destination.principal);
      if slot.Some? {
        SmallRemainder(slot.value * 8, U32_LIMIT);
      }
    }
  }

  lemma {:induction false} WordIsSmall(mem: Memory, a: int, n: nat)
    ensures WordAt(mem, a, n) < Pow256(n)
    decreases n
  {
    if n > 0 {
      WordIsSmall(mem, a + 1, n - 1);
    }
  }

  /** Lengths and vtable addresses fit a word. */
  ghost predicate WordsFit(q: Queries, source: Tail) {
    && (source.Array? ==> source.length < Pow256(8))
    && (forall t: Tail, p: nat :: q.vtable(t, p) < Pow256(8))
  }

  lemma {:induction false} MetadataIsSmall(q: Queries, source: Tail, destination: Tail, fat: bool, mem: Memory,
                                           prior: int)
    requires TailsCoerce(source, destination, fat) && WordsFit(q, source)
    ensures MetadataValue(UnsizedInfo(q, source, destination, fat).value, mem, prior) < Pow256(8)
  {
    hide WordAt, Pow256;
    var m := UnsizedInfo(q, source, destination, fat).value;
    WordIsSmall(mem, prior, 8);
    if m.VtableSlot? {
      WordIsSmall(mem, WordAt(mem, prior, 8) + (m.index * 8) % U32_LIMIT, 8);
    }
  }

  /** End to end: after the emitted stores, the fat pointer inside the destination points to the source's
      data and carries the right metadata, for every coercion that Rust allows. */
  lemma {:induction false} CoercionIsCorrect(q: Queries, source: Ty, destination: Ty, site: Site, mem: Memory,
                                             traits: Traits, valid: (nat, nat, nat) -> bool, concrete: nat)
    requires Unsizable(q, source, destination) && LayoutOk(source) && LayoutOk(destination)
    requires Apart(site, Size(source), Size(destination))
    requires var leaf := Leaf(q, source, destination, 0, 0);
      && leaf.source.Pointer? && leaf.destination.Pointer? && leaf.destination.fat
      && CoercionOk(traits, leaf.source.pointee, leaf.source.fat, leaf.destination.pointee, concrete)
      && WordsFit(q, leaf.source.pointee) && VtablesOk(q, mem, traits, valid)
      && (leaf.source.pointee.Dynamic? ==>
            valid(WordAt(mem, site.source + (leaf.from + 8), 8), concrete, leaf.source.pointee.principal))
      && MetadataReadable(LeafMetadata(q, leaf).value, mem, site.source + (leaf.from + 8), site, Size(destination))
    ensures var leaf := Leaf(q, source, destination, 0, 0);
      var after := Exec(Stores(Copies(q, source, destination, 0, 0)) + LeafRoots(q, leaf), site, mem);
      && WordAt(after, site.destination + leaf.to, 8) == WordAt(mem, site.source + leaf.from, 8)
      && GoodMetadata(valid, leaf.source.pointee, leaf.destination.pointee, concrete,
                      WordAt(after, site.destination + leaf.to + 8, 8))
  {
    hide Unsizable, LayoutOk, Apart, Size, Leaf, Copies, Stores, LeafRoots, Exec, WordAt, Coerced, VtablesOk,
      MetadataReadable, MetadataValue, Upcasts, WordsFit, UnsizedInfo, GoodMetadata, Pow256;
    var leaf := Leaf(q, source, destination, 0, 0);
    var s, d, prior := leaf.source.pointee, leaf.destination.pointee, site.source + (leaf.from + 8);
    MetadataIsValid(q, s, d, leaf.source.fat, mem, prior, traits, valid, concrete);
    MetadataIsSmall(q, s, d, leaf.source.fat, mem, prior);
    var value := MetadataValue(LeafMetadata(q, leaf).value, mem, prior);
    var after := Exec(Stores(Copies(q, source, destination, 0, 0)) + LeafRoots(q, leaf), site, mem);
    forall a ensures after(a) == Coerced(q, source, destination, site, mem, value, a) {
      UnsizeIsCorrect(q, source, destination, site, mem, a);
    }
    CoercedPointer(q, source, destination, site, mem, after, value);
  }

  // ---- an honest notion of validity -----------------------------------------------------------

  /** Type 0 implements the unrelated traits 0 and 1, and trait 2, whose supertrait 1 has slot 3. */
  const Example: Traits := Traits((c, p) => c == 0 && p <= 2, (p, r) => p == 2 && r == 1)

  const ExampleQueries: Queries :=
    Queries(def => 0, (p, r) => if p == 2 && r == 1 then Some(3) else None, (t, p) => 1000 + 100 * p)

  function ExampleMemory(a: int): Byte { if 1224 <= a < 1232 then LeByte(1100, a - 1224) else 0 }

  /** A vtable is valid for the trait it was made for, and for no other. */
  function OwnVtable(a: nat, c: nat, p: nat): bool { c == 0 && p <= 2 && a == 1000 + 100 * p }

  /** The hypothesis on vtables tells unrelated traits apart: it holds although no vtable of trait 0 is
      one of trait 1. */
  lemma {:induction false} VtablesOkIsHonest()
    ensures VtablesOk(ExampleQueries, ExampleMemory, Example, OwnVtable)
    ensures OwnVtable(1000, 0, 0) && !OwnVtable(1000, 0, 1)
    ensures Example.supertrait(2, 1) && !Example.supertrait(0, 1) && ExampleQueries.slot(2, 1) == Some(3)
  {
    hide WordAt, LeByte;
    assert Pow256(2) == 65536;
    assert Pow256(8) >= 65536;
    WordRoundTrip(ExampleMemory, 1224, 1100, 8);
  }
}
