/** The value surface synthesized for managed records: equality, hashing, operators, the primary
    constructor and deconstruction, as CIL programs with an evaluator. */
module Records {
  import opened Wrappers

  type Ty = nat

  /** A declared field; the CIL field is named by both. */
  datatype FieldDesc = FieldDesc(name: string, ty: Ty)

  datatype Value = Null | Ref(address: nat) | I32(n: int) | Bool(b: bool) | Data(id: nat) | OutSlot(slot: nat)

  type Object = map<FieldDesc, Value>

  datatype Expr =
    | LdArg(index: nat)
    | LdLoc(index: nat)
    | Const(value: Value)
    | LdField(obj: Expr, field: FieldDesc)
    | ComparerEquals(ty: Ty, left: Expr, right: Expr)
    | ComparerHash(ty: Ty, operand: Expr)
    | RecordComparerEquals(left: Expr, right: Expr)
    | TypedEquals(self: Expr, other: Expr)
    | IsInst(operand: Expr)
    | CheckedCast(operand: Expr)
    | Mul(left: Expr, right: Expr)
    | Add(left: Expr, right: Expr)
    | EqBool(left: Expr, right: Expr)

  datatype Root =
    | BranchEq(target: nat, left: Expr, right: Expr)
    | BranchFalse(target: nat, cond: Expr)
    | StLoc(index: nat, value: Expr)
    | SetField(field: FieldDesc, obj: Expr, value: Expr)
    | StInd(address: Expr, value: Expr)
    | CallBase
    | Ret(value: Expr)
    | VoidRet

  type Code = seq<seq<Root>>

  /** The framework: the default comparer of every field type, and what the base constructor leaves of
      the object. `typedEquals` is the record's own typed method. */
  datatype World = World(equals: (Ty, Value, Value) -> bool, hash: (Ty, Value) -> int,
                         baseCtor: Object -> Object, typedEquals: (Value, Value) -> bool)

  /** Objects and which of them are instances of the record, out parameters, and locals. */
  datatype State = State(objects: map<nat, Object>, records: set<nat>, outs: map<nat, Value>, locals: map<nat, Value>)

  datatype Outcome = Returned(value: Value, state: State) | VoidReturned(state: State) | Faulted

  // ---- 32-bit arithmetic ----------------------------------------------------------------------

  const Modulus := 0x1_0000_0000

  function Wrap(x: int): (r: int)
    ensures -0x8000_0000 <= r < 0x8000_0000
  {
    var m := x % Modulus;
    if m >= 0x8000_0000 then m - Modulus else m
  }

  // ---- evaluation -----------------------------------------------------------------------------

  predicate IsRecord(s: State, v: Value) { v.Ref? && v.address in s.records }

  /** `EqualityComparer<Record>.Default`. */
  function DefaultRecordEquals(w: World, left: Value, right: Value): bool {
    if left == Null then right == Null
    else if right == Null then false
    else w.typedEquals(left, right)
  }

  /** No value means an exception. */
  function Eval(w: World, args: seq<Value>, s: State, e: Expr): Option<Value> {
    match e
    case LdArg(i) => if i < |args| then Some(args[i]) else None
    case LdLoc(i) => if i in s.locals then Some(s.locals[i]) else None
    case Const(v) => Some(v)
    case LdField(obj, field) =>
      var o := Eval(w, args, s, obj);
      if o.Some? && o.value.Ref? && o.value.address in s.objects && field in s.objects[o.value.address]
      then Some(s.objects[o.value.address][field]) else None
    case ComparerEquals(ty, left, right) =>
      var l, r := Eval(w, args, s, left), Eval(w, args, s, right);
      if l.Some? && r.Some? then Some(Bool(w.equals(ty, l.value, r.value))) else None
    case ComparerHash(ty, operand) =>
      var o := Eval(w, args, s, operand);
      if o.Some? then Some(I32(Wrap(w.hash(ty, o.value)))) else None
    case RecordComparerEquals(left, right) =>
      var l, r := Eval(w, args, s, left), Eval(w, args, s, right);
      if l.Some? && r.Some? then Some(Bool(DefaultRecordEquals(w, l.value, r.value))) else None
    case TypedEquals(self, other) =>
      var l, r := Eval(w, args, s, self), Eval(w, args, s, other);
      if l.Some? && r.Some? then Some(Bool(w.typedEquals(l.value, r.value))) else None
    case IsInst(operand) =>
      var o := Eval(w, args, s, operand);
      if o.Some? then Some(Bool(IsRecord(s, o.value))) else None
    case CheckedCast(operand) =>
      var o := Eval(w, args, s, operand);
      if o.Some? && (o.value == Null || IsRecord(s, o.value)) then o else None
    case Mul(left, right) =>
      var l, r := Eval(w, args, s, left), Eval(w, args, s, right);
      if l.Some? && r.Some? && l.value.I32? && r.value.I32? then Some(I32(Wrap(l.value.n * r.value.n))) else None
    case Add(left, right) =>
      var l, r := Eval(w, args, s, left), Eval(w, args, s, right);
      if l.Some? && r.Some? && l.value.I32? && r.value.I32? then Some(I32(Wrap(l.value.n + r.value.n))) else None
    case EqBool(left, right) =>
      var l, r := Eval(w, args, s, left), Eval(w, args, s, right);
      if l.Some? && r.Some? && l.value.Bool? && r.value.Bool? then Some(Bool(l.value == r.value)) else None
  }

  /** Runs block `b` from root `i`; jumps go forward only. */
  function Run(w: World, code: Code, b: nat, i: nat, args: seq<Value>, s: State): Outcome
    decreases |code| - b, if b < |code| then |code[b]| - i else 0
  {
    if b >= |code| || i >= |code[b]| then Faulted
    else
      match code[b][i]
      case Ret(e) =>
        var v := Eval(w, args, s, e);
        if v.Some? then Returned(v.value, s) else Faulted
      case VoidRet => VoidReturned(s)
      case BranchEq(target, left, right) =>
        var l, r := Eval(w, args, s, left), Eval(w, args, s, right);
        if l.None? || r.None? || target <= b then Faulted
        else if l.value == r.value then Run(w, code, target, 0, args, s)
        else Run(w, code, b, i + 1, args, s)
      case BranchFalse(target, cond) =>
        var c := Eval(w, args, s, cond);
        if c.None? || !c.value.Bool? || target <= b then Faulted
        else if !c.value.b then Run(w, code, target, 0, args, s)
        else Run(w, code, b, i + 1, args, s)
      case StLoc(index, e) =>
        var v := Eval(w, args, s, e);
        if v.None? then Faulted else Run(w, code, b, i + 1, args, s.(locals := s.locals[index := v.value]))
      case SetField(field, obj, e) =>
        var o, v := Eval(w, args, s, obj), Eval(w, args, s, e);
        if o.None? || v.None? || !o.value.Ref? || o.value.address !in s.objects then Faulted
        else
          var a := o.value.address;
          Run(w, code, b, i + 1, args, s.(objects := s.objects[a := s.objects[a][field := v.value]]))
      case StInd(address, e) =>
        var d, v := Eval(w, args, s, address), Eval(w, args, s, e);
        if d.None? || v.None? || !d.value.OutSlot? then Faulted
        else Run(w, code, b, i + 1, args, s.(outs := s.outs[d.value.slot := v.value]))
      case CallBase =>
        if args == [] || !args[0].Ref? || args[0].address !in s.objects then Faulted
        else
          var a := args[0].address;
          Run(w, code, b, i + 1, args, s.(objects := s.objects[a := w.baseCtor(s.objects[a])]))
  }

  // ---- the emitted code -----------------------------------------------------------------------

  function FieldCheck(f: FieldDesc): Root {
    BranchFalse(1, ComparerEquals(f.ty, LdField(LdArg(0), f), LdField(LdArg(1), f)))
  }

  function FieldHash(f: FieldDesc): Root {
    StLoc(0, Add(Mul(LdLoc(0), Const(I32(-1521134295))), ComparerHash(f.ty, LdField(LdArg(0), f))))
  }

  function FieldOut(f: FieldDesc, i: nat): Root { StInd(LdArg(i + 1), LdField(LdArg(0), f)) }

  function FieldInit(f: FieldDesc, i: nat, baseArgs: nat): Root { SetField(f, LdArg(0), LdArg(baseArgs + i + 1)) }

  function Checks(fields: seq<FieldDesc>): (r: seq<Root>)
    ensures |r| == |fields| && forall i :: 0 <= i < |fields| ==> r[i] == FieldCheck(fields[i])
  {
    seq(|fields|, i requires 0 <= i < |fields| => FieldCheck(fields[i]))
  }

  function Hashes(fields: seq<FieldDesc>): (r: seq<Root>)
    ensures |r| == |fields| && forall i :: 0 <= i < |fields| ==> r[i] == FieldHash(fields[i])
  {
    seq(|fields|, i requires 0 <= i < |fields| => FieldHash(fields[i]))
  }

  function Outs(fields: seq<FieldDesc>): (r: seq<Root>)
    ensures |r| == |fields| && forall i :: 0 <= i < |fields| ==> r[i] == FieldOut(fields[i], i)
  {
    seq(|fields|, i requires 0 <= i < |fields| => FieldOut(fields[i], i))
  }

  function Inits(fields: seq<FieldDesc>, baseArgs: nat): (r: seq<Root>)
    ensures |r| == |fields| && forall i :: 0 <= i < |fields| ==> r[i] == FieldInit(fields[i], i, baseArgs)
  {
    seq(|fields|, i requires 0 <= i < |fields| => FieldInit(fields[i], i, baseArgs))
  }

  function EqualsCode(fields: seq<FieldDesc>): Code {
    [[BranchEq(1, LdArg(1), Const(Null))] + Checks(fields) + [Ret(Const(Bool(true)))],
     [Ret(Const(Bool(false)))]]
  }

  const ObjectEqualsCode: Code :=
    [[BranchFalse(1, IsInst(LdArg(1))), Ret(TypedEquals(LdArg(0), CheckedCast(LdArg(1))))], [Ret(Const(Bool(false)))]]

  function HashCode(fields: seq<FieldDesc>): Code {
    [[StLoc(0, Const(I32(0)))] + Hashes(fields) + [Ret(LdLoc(0))]]
  }

  function DeconstructCode(fields: seq<FieldDesc>): Code {
    [Outs(fields) + [VoidRet]]
  }

  function CtorCode(fields: seq<FieldDesc>, baseArgs: nat): Code {
    [[CallBase] + Inits(fields, baseArgs) + [VoidRet]]
  }

  function OperatorCode(negate: bool): Code {
    var equal := RecordComparerEquals(LdArg(0), LdArg(1));
    [[Ret(if negate then EqBool(equal, Const(Bool(false))) else equal)]]
  }

  method EmitEquals(fields: seq<FieldDesc>) returns (code: Code)
    ensures code == EqualsCode(fields)
  {
    var roots := [BranchEq(1, LdArg(1), Const(Null))];
    for i := 0 to |fields|
      invariant roots == [BranchEq(1, LdArg(1), Const(Null))] + Checks(fields)[..i]
    {
      roots := roots + [FieldCheck(fields[i])];
    }
    assert Checks(fields)[..|fields|] == Checks(fields);
    code := [roots + [Ret(Const(Bool(true)))], [Ret(Const(Bool(false)))]];
  }

  method EmitHash(fields: seq<FieldDesc>) returns (code: Code)
    ensures code == HashCode(fields)
  {
    var roots := [StLoc(0, Const(I32(0)))];
    for i := 0 to |fields|
      invariant roots == [StLoc(0, Const(I32(0)))] + Hashes(fields)[..i]
    {
      roots := roots + [FieldHash(fields[i])];
    }
    assert Hashes(fields)[..|fields|] == Hashes(fields);
    code := [roots + [Ret(LdLoc(0))]];
  }

  method EmitDeconstruct(fields: seq<FieldDesc>) returns (code: Code)
    ensures code == DeconstructCode(fields)
  {
    var roots: seq<Root> := [];
    for i := 0 to |fields|
      invariant roots == Outs(fields)[..i]
    {
      roots := roots + [FieldOut(fields[i], i)];
    }
    assert Outs(fields)[..|fields|] == Outs(fields);
    code := [roots + [VoidRet]];
  }

  method EmitCtor(fields: seq<FieldDesc>, baseArgs: nat) returns (code: Code)
    ensures code == CtorCode(fields, baseArgs)
  {
    var roots := [CallBase];
    for i := 0 to |fields|
      invariant roots == [CallBase] + Inits(fields, baseArgs)[..i]
    {
      roots := roots + [FieldInit(fields[i], i, baseArgs)];
    }
    assert Inits(fields, baseArgs)[..|fields|] == Inits(fields, baseArgs);
    code := [roots + [VoidRet]];
  }

  // ---- equality -------------------------------------------------------------------------------

  ghost predicate HasFields(s: State, v: Value, fields: seq<FieldDesc>) {
    v.Ref? && v.address in s.objects && forall f :: f in fields ==> f in s.objects[v.address]
  }

  function Field(s: State, v: Value, f: FieldDesc): Value {
    if v.Ref? && v.address in s.objects && f in s.objects[v.address] then s.objects[v.address][f] else Null
  }

  lemma {:induction false} LoadsField(w: World, args: seq<Value>, s: State, i: nat, f: FieldDesc,
                                      fields: seq<FieldDesc>)
    requires i < |args| && HasFields(s, args[i], fields) && f in fields
    ensures Eval(w, args, s, LdField(LdArg(i), f)) == Some(Field(s, args[i], f))
  {
    assert Eval(w, args, s, LdArg(i)) == Some(args[i]);
  }

  predicate FieldEqual(w: World, s: State, a: Value, b: Value, f: FieldDesc) {
    w.equals(f.ty, Field(s, a, f), Field(s, b, f))
  }

  /** Field-wise equality from field `k` on. */
  ghost predicate AllEqual(w: World, s: State, a: Value, b: Value, fields: seq<FieldDesc>, k: nat) {
    forall i :: k <= i < |fields| ==> FieldEqual(w, s, a, b, fields[i])
  }

  lemma {:induction false} ChecksDecide(w: World, fields: seq<FieldDesc>, s: State, args: seq<Value>, k: nat)
    requires |args| == 2 && k <= |fields| && HasFields(s, args[0], fields) && HasFields(s, args[1], fields)
    ensures Run(w, EqualsCode(fields), 0, k + 1, args, s)
         == Returned(Bool(AllEqual(w, s, args[0], args[1], fields, k)), s)
    decreases |fields| - k
  {
    var code := EqualsCode(fields);
    if k < |fields| {
      var f := fields[k];
      assert code[0][k + 1] == FieldCheck(f);
      assert f in fields;
      ChecksDecide(w, fields, s, args, k + 1);
      LoadsField(w, args, s, 0, f, fields);
      LoadsField(w, args, s, 1, f, fields);
      assert Eval(w, args, s, FieldCheck(f).cond) == Some(Bool(FieldEqual(w, s, args[0], args[1], f)));
      if !FieldEqual(w, s, args[0], args[1], f) {
        assert Run(w, code, 1, 0, args, s) == Returned(Bool(false), s);
      }
    }
  }

  /** Typed equality is true exactly when the other record is there and all fields are comparer-equal. */
  lemma {:induction false} EqualsExactly(w: World, fields: seq<FieldDesc>, s: State, self: Value, other: Value)
    requires HasFields(s, self, fields) && (other == Null || HasFields(s, other, fields))
    ensures Run(w, EqualsCode(fields), 0, 0, [self, other], s)
         == Returned(Bool(other != Null && AllEqual(w, s, self, other, fields, 0)), s)
  {
    var args, code := [self, other], EqualsCode(fields);
    assert Eval(w, args, s, LdArg(1)) == Some(other);
    if other == Null {
      assert Run(w, code, 1, 0, args, s) == Returned(Bool(false), s);
    } else {
      ChecksDecide(w, fields, s, args, 0);
    }
  }

  /** A framework whose typed equality is the emitted one, in state `s`. */
  ghost predicate RunsEmittedEquals(w: World, fields: seq<FieldDesc>, s: State) {
    forall a, b :: IsRecord(s, a) && (b == Null || IsRecord(s, b)) ==>
      Run(w, EqualsCode(fields), 0, 0, [a, b], s) == Returned(Bool(w.typedEquals(a, b)), s)
  }

  ghost predicate RecordsOk(s: State, fields: seq<FieldDesc>) {
    forall a :: a in s.records ==> HasFields(s, Ref(a), fields)
  }

  lemma {:induction false} ReturnRuns(w: World, code: Code, b: nat, i: nat, args: seq<Value>, s: State, v: Value)
    requires b < |code| && i < |code[b]| && code[b][i].Ret? && Eval(w, args, s, code[b][i].value) == Some(v)
    ensures Run(w, code, b, i, args, s) == Returned(v, s)
  {
    hide Eval;
  }

  lemma {:induction false} ConstIs(w: World, args: seq<Value>, s: State, v: Value)
    ensures Eval(w, args, s, Const(v)) == Some(v)
  {}

  /** A test on a record and on anything else. */
  lemma {:induction false} InstanceBranch(w: World, s: State, self: Value, other: Value)
    ensures Run(w, ObjectEqualsCode, 0, 0, [self, other], s)
         == if IsRecord(s, other) then Run(w, ObjectEqualsCode, 0, 1, [self, other], s)
            else Run(w, ObjectEqualsCode, 1, 0, [self, other], s)
  {
    hide IsRecord;
    assert Eval(w, [self, other], s, LdArg(1)) == Some(other);
    assert Eval(w, [self, other], s, IsInst(LdArg(1))) == Some(Bool(IsRecord(s, other)));
    assert ObjectEqualsCode[0][0] == BranchFalse(1, IsInst(LdArg(1)));
  }

  /** A cast lets null and records through, and nothing else. */
  lemma {:induction false} CastIsChecked(w: World, args: seq<Value>, s: State, i: nat)
    requires i < |args|
    ensures Eval(w, args, s, CheckedCast(LdArg(i)))
         == if args[i] == Null || IsRecord(s, args[i]) then Some(args[i]) else None
  {
    hide IsRecord;
    assert Eval(w, args, s, LdArg(i)) == Some(args[i]);
  }

  lemma {:induction false} TypedCall(w: World, s: State, self: Value, other: Value)
    requires IsRecord(s, other)
    ensures Eval(w, [self, other], s, TypedEquals(LdArg(0), CheckedCast(LdArg(1))))
         == Some(Bool(w.typedEquals(self, other)))
  {
    hide IsRecord;
    assert Eval(w, [self, other], s, LdArg(0)) == Some(self) && Eval(w, [self, other], s, LdArg(1)) == Some(other);
    assert Eval(w, [self, other], s, CheckedCast(LdArg(1))) == Some(other);
  }

  /** Object equality is typed equality on records, and false on null and on anything else. */
  lemma {:induction false} ObjectEqualsExactly(w: World, fields: seq<FieldDesc>, s: State, self: Value, other: Value)
    requires RecordsOk(s, fields) && RunsEmittedEquals(w, fields, s) && IsRecord(s, self)
    ensures Run(w, ObjectEqualsCode, 0, 0, [self, other], s)
         == Returned(Bool(IsRecord(s, other) && AllEqual(w, s, self, other, fields, 0)), s)
  {
    hide Run, Eval, AllEqual;
    InstanceBranch(w, s, self, other);
    if IsRecord(s, other) {
      assert self == Ref(self.address) && other == Ref(other.address);
      EqualsExactly(w, fields, s, self, other);
      TypedCall(w, s, self, other);
      ReturnRuns(w, ObjectEqualsCode, 0, 1, [self, other], s, Bool(w.typedEquals(self, other)));
    } else {
      ConstIs(w, [self, other], s, Bool(false));
      ReturnRuns(w, ObjectEqualsCode, 1, 0, [self, other], s, Bool(false));
    }
  }

  /** What `==` means on records and null. */
  ghost predicate SameRecord(w: World, fields: seq<FieldDesc>, s: State, a: Value, b: Value) {
    (a == Null && b == Null) || (a != Null && b != Null && AllEqual(w, s, a, b, fields, 0))
  }

  /** The operators: `==` treats null as equal to null only, and `!=` is its negation. */
  lemma {:induction false} OperatorsExactly(w: World, fields: seq<FieldDesc>, s: State, a: Value, b: Value)
    requires RecordsOk(s, fields) && RunsEmittedEquals(w, fields, s)
    requires (a == Null || IsRecord(s, a)) && (b == Null || IsRecord(s, b))
    ensures Run(w, OperatorCode(false), 0, 0, [a, b], s) == Returned(Bool(SameRecord(w, fields, s, a, b)), s)
    ensures Run(w, OperatorCode(true), 0, 0, [a, b], s) == Returned(Bool(!SameRecord(w, fields, s, a, b)), s)
  {
    var args := [a, b];
    if a != Null && b != Null {
      assert a == Ref(a.address) && b == Ref(b.address);
      EqualsExactly(w, fields, s, a, b);
    }
    var equal := RecordComparerEquals(LdArg(0), LdArg(1));
    assert Eval(w, args, s, LdArg(0)) == Some(a) && Eval(w, args, s, LdArg(1)) == Some(b);
    assert Eval(w, args, s, equal) == Some(Bool(SameRecord(w, fields, s, a, b)));
    assert Eval(w, args, s, EqBool(equal, Const(Bool(false)))) == Some(Bool(!SameRecord(w, fields, s, a, b)));
  }

  /** The comparer of every field type is an equivalence. */
  ghost predicate ComparersOk(w: World) {
    && (forall ty, x :: w.equals(ty, x, x))
    && (forall ty, x, y :: w.equals(ty, x, y) ==> w.equals(ty, y, x))
    && (forall ty, x, y, z :: w.equals(ty, x, y) && w.equals(ty, y, z) ==> w.equals(ty, x, z))
  }

  /** Then `==` is one as well. */
  lemma {:induction false} EqualityIsEquivalence(w: World, fields: seq<FieldDesc>, s: State, a: Value, b: Value,
                                                 c: Value)
    requires ComparersOk(w)
    ensures SameRecord(w, fields, s, a, a)
    ensures SameRecord(w, fields, s, a, b) ==> SameRecord(w, fields, s, b, a)
    ensures SameRecord(w, fields, s, a, b) && SameRecord(w, fields, s, b, c) ==> SameRecord(w, fields, s, a, c)
  {
    forall i | 0 <= i < |fields|
      ensures FieldEqual(w, s, a, a, fields[i])
      ensures FieldEqual(w, s, a, b, fields[i]) ==> FieldEqual(w, s, b, a, fields[i])
      ensures FieldEqual(w, s, a, b, fields[i]) && FieldEqual(w, s, b, c, fields[i]) ==>
          FieldEqual(w, s, a, c, fields[i])
    {}
  }

  // ---- hashing --------------------------------------------------------------------------------

  const Multiplier := -1521134295

  /** The polynomial of the first `n` field hashes, without wrapping. */
  function Horner(w: World, s: State, v: Value, fields: seq<FieldDesc>, n: nat): int
    requires n <= |fields|
  {
    if n == 0 then 0
    else Horner(w, s, v, fields, n - 1) * Multiplier + w.hash(fields[n - 1].ty, Field(s, v, fields[n - 1]))
  }

  lemma {:induction false} WrapShifts(x: int, k: int)
    ensures Wrap(x + k * Modulus) == Wrap(x)
  {
    assert (x + k * Modulus) % Modulus == x % Modulus;
  }

  lemma {:induction false} WrapIsShift(x: int) returns (k: int)
    ensures Wrap(x) == x + k * Modulus
  {
    k := if x % Modulus >= 0x8000_0000 then -(x / Modulus) - 1 else -(x / Modulus);
  }

  /** Wrapping early is as good as wrapping once at the end. */
  lemma {:induction false} WrapStep(h: int, f: int)
    ensures Wrap(Wrap(Wrap(h) * Multiplier) + Wrap(f)) == Wrap(h * Multiplier + f)
  {
    hide Wrap;
    var a := WrapIsShift(h);
    var b := WrapIsShift(Wrap(h) * Multiplier);
    var c := WrapIsShift(f);
    var total := a * Multiplier + b + c;
    assert Wrap(Wrap(h) * Multiplier) + Wrap(f) == h * Multiplier + f + total * Modulus;
    WrapShifts(h * Multiplier + f, total);
  }

  lemma {:induction false} StoreRuns(w: World, code: Code, b: nat, i: nat, args: seq<Value>, s: State, v: Value)
    requires b < |code| && i < |code[b]| && code[b][i].StLoc? && Eval(w, args, s, code[b][i].value) == Some(v)
    ensures Run(w, code, b, i, args, s)
         == Run(w, code, b, i + 1, args, s.(locals := s.locals[code[b][i].index := v]))
  {
    hide Eval;
  }

  lemma {:induction false} LocalIs(w: World, args: seq<Value>, s: State, i: nat)
    requires i in s.locals
    ensures Eval(w, args, s, LdLoc(i)) == Some(s.locals[i])
  {}

  lemma {:induction false} HashesFold(w: World, fields: seq<FieldDesc>, s: State, self: Value, k: nat)
    requires k <= |fields| && HasFields(s, self, fields)
    requires 0 in s.locals && s.locals[0] == I32(Wrap(Horner(w, s, self, fields, k)))
    ensures var r := Run(w, HashCode(fields), 0, k + 1, [self], s);
      r.Returned? && r.value == I32(Wrap(Horner(w, s, self, fields, |fields|)))
    decreases |fields| - k
  {
    hide Wrap, Run, Eval, Horner;
    var code, args := HashCode(fields), [self];
    if k < |fields| {
      var f := fields[k];
      assert code[0][k + 1] == FieldHash(f);
      assert f in fields;
      HashStep(w, s, self, fields, k);
      var next := s.(locals := s.locals[0 := I32(Wrap(Horner(w, s, self, fields, k + 1)))]);
      HornerFrame(w, s, next, self, fields, k + 1);
      HornerFrame(w, s, next, self, fields, |fields|);
      HashesFold(w, fields, next, self, k + 1);
      StoreRuns(w, code, 0, k + 1, args, s, I32(Wrap(Horner(w, s, self, fields, k + 1))));
    } else {
      LocalIs(w, args, s, 0);
      ReturnRuns(w, code, 0, k + 1, args, s, s.locals[0]);
    }
  }

  lemma {:induction false} HashStep(w: World, s: State, self: Value, fields: seq<FieldDesc>, k: nat)
    requires k < |fields| && HasFields(s, self, fields)
    requires 0 in s.locals && s.locals[0] == I32(Wrap(Horner(w, s, self, fields, k)))
    ensures Eval(w, [self], s, FieldHash(fields[k]).value) == Some(I32(Wrap(Horner(w, s, self, fields, k + 1))))
  {
    hide Wrap;
    var f := fields[k];
    assert f in fields;
    var h := Horner(w, s, self, fields, k);
    WrapStep(h, w.hash(f.ty, Field(s, self, f)));
    LoadsField(w, [self], s, 0, f, fields);
    assert Eval(w, [self], s, Mul(LdLoc(0), Const(I32(-1521134295)))) == Some(I32(Wrap(Wrap(h) * Multiplier)));
    assert Eval(w, [self], s, ComparerHash(f.ty, LdField(LdArg(0), f)))
        == Some(I32(Wrap(w.hash(f.ty, Field(s, self, f)))));
  }

  lemma {:induction false} HornerFrame(w: World, s: State, t: State, v: Value, fields: seq<FieldDesc>, n: nat)
    requires n <= |fields| && s.objects == t.objects
    ensures Horner(w, s, v, fields, n) == Horner(w, t, v, fields, n)
    decreases n
  {
    if n > 0 {
      HornerFrame(w, s, t, v, fields, n - 1);
    }
  }

  /** The hash code is the polynomial of the field hashes, wrapped to 32 bits. */
  lemma {:induction false} HashExactly(w: World, fields: seq<FieldDesc>, s: State, self: Value)
    requires HasFields(s, self, fields)
    ensures var r := Run(w, HashCode(fields), 0, 0, [self], s);
      r.Returned? && r.value == I32(Wrap(Horner(w, s, self, fields, |fields|)))
  {
    var next := s.(locals := s.locals[0 := I32(0)]);
    HornerFrame(w, s, next, self, fields, |fields|);
    HashesFold(w, fields, next, self, 0);
    assert HashCode(fields)[0][0] == StLoc(0, Const(I32(0)));
  }

  /** The contract of a comparer: equal values hash equally. */
  ghost predicate HashesOk(w: World) { forall ty, x, y :: w.equals(ty, x, y) ==> w.hash(ty, x) == w.hash(ty, y) }

  lemma {:induction false} EqualHorner(w: World, fields: seq<FieldDesc>, s: State, a: Value, b: Value, n: nat)
    requires HashesOk(w) && n <= |fields| && AllEqual(w, s, a, b, fields, 0)
    ensures Horner(w, s, a, fields, n) == Horner(w, s, b, fields, n)
    decreases n
  {
    if n > 0 {
      EqualHorner(w, fields, s, a, b, n - 1);
      assert FieldEqual(w, s, a, b, fields[n - 1]);
    }
  }

  /** Records that are equal have equal hash codes. */
  lemma {:induction false} EqualRecordsHashEqually(w: World, fields: seq<FieldDesc>, s: State, a: Value, b: Value)
    requires HashesOk(w) && HasFields(s, a, fields) && HasFields(s, b, fields)
    requires Run(w, EqualsCode(fields), 0, 0, [a, b], s) == Returned(Bool(true), s)
    ensures Run(w, HashCode(fields), 0, 0, [a], s).Returned? && Run(w, HashCode(fields), 0, 0, [b], s).Returned?
    ensures Run(w, HashCode(fields), 0, 0, [a], s).value == Run(w, HashCode(fields), 0, 0, [b], s).value
  {
    hide Run, Horner;
    EqualsExactly(w, fields, s, a, b);
    HashExactly(w, fields, s, a);
    HashExactly(w, fields, s, b);
    EqualHorner(w, fields, s, a, b, |fields|);
  }

  // ---- construction and deconstruction --------------------------------------------------------

  ghost predicate DistinctFields(fields: seq<FieldDesc>) {
    forall i, j :: 0 <= i < j < |fields| ==> fields[i] != fields[j]
  }

  /** The first `k` fields hold their constructor arguments. */
  ghost predicate Initialized(s: State, a: nat, fields: seq<FieldDesc>, args: seq<Value>, baseArgs: nat, k: nat)
    requires |args| == 1 + baseArgs + |fields|
  {
    && a in s.objects && k <= |fields|
    && forall i :: 0 <= i < k ==> fields[i] in s.objects[a] && s.objects[a][fields[i]] == args[baseArgs + i + 1]
  }

  lemma {:induction false} InitsStore(w: World, fields: seq<FieldDesc>, s: State, a: nat, args: seq<Value>,
                                      baseArgs: nat, k: nat)
    requires DistinctFields(fields) && |args| == 1 + baseArgs + |fields| && args[0] == Ref(a)
    requires Initialized(s, a, fields, args, baseArgs, k)
    ensures var r := Run(w, CtorCode(fields, baseArgs), 0, k + 1, args, s);
      && r.VoidReturned? && Initialized(r.state, a, fields, args, baseArgs, |fields|)
      && r.state.records == s.records && r.state.outs == s.outs
      && forall o :: o in s.objects && o != a ==> o in r.state.objects && r.state.objects[o] == s.objects[o]
    decreases |fields| - k
  {
    var code := CtorCode(fields, baseArgs);
    if k < |fields| {
      var f := fields[k];
      assert code[0][k + 1] == FieldInit(f, k, baseArgs);
      var next := s.(objects := s.objects[a := s.objects[a][f := args[baseArgs + k + 1]]]);
      forall i | 0 <= i < k + 1
        ensures fields[i] in next.objects[a] && next.objects[a][fields[i]] == args[baseArgs + i + 1]
      {
        if i < k {
          assert fields[i] != f;
        }
      }
      InitsStore(w, fields, next, a, args, baseArgs, k + 1);
    }
  }

  lemma {:induction false} CtorInitializes(w: World, fields: seq<FieldDesc>, s: State, a: nat, args: seq<Value>,
                                           baseArgs: nat)
    requires DistinctFields(fields) && |args| == 1 + baseArgs + |fields| && args[0] == Ref(a) && a in s.objects
    ensures var r := Run(w, CtorCode(fields, baseArgs), 0, 0, args, s);
      && r.VoidReturned? && Initialized(r.state, a, fields, args, baseArgs, |fields|)
      && r.state.records == s.records && r.state.outs == s.outs
      && forall o :: o in s.objects && o != a ==> o in r.state.objects && r.state.objects[o] == s.objects[o]
  {
    assert CtorCode(fields, baseArgs)[0][0] == CallBase;
    InitsStore(w, fields, s.(objects := s.objects[a := w.baseCtor(s.objects[a])]), a, args, baseArgs, 0);
  }

  /** Out parameters are distinct slots. */
  ghost predicate OutsOk(outs: seq<Value>) {
    && (forall i :: 0 <= i < |outs| ==> outs[i].OutSlot?)
    && (forall i, j :: 0 <= i < j < |outs| ==> outs[i] != outs[j])
  }

  ghost predicate Delivered(s: State, a: nat, fields: seq<FieldDesc>, outs: seq<Value>, k: nat)
    requires |outs| == |fields| && OutsOk(outs) && a in s.objects
  {
    forall i :: 0 <= i < k <= |fields| ==>
      fields[i] in s.objects[a] && outs[i].slot in s.outs && s.outs[outs[i].slot] == s.objects[a][fields[i]]
  }

  lemma {:induction false} OutRuns(w: World, code: Code, b: nat, i: nat, args: seq<Value>, s: State, d: Value,
                                   v: Value)
    requires b < |code| && i < |code[b]| && code[b][i].StInd? && d.OutSlot?
    requires Eval(w, args, s, code[b][i].address) == Some(d) && Eval(w, args, s, code[b][i].value) == Some(v)
    ensures Run(w, code, b, i, args, s) == Run(w, code, b, i + 1, args, s.(outs := s.outs[d.slot := v]))
  {
    hide Eval;
  }

  lemma {:induction false} VoidRuns(w: World, code: Code, b: nat, i: nat, args: seq<Value>, s: State)
    requires b < |code| && i < |code[b]| && code[b][i].VoidRet?
    ensures Run(w, code, b, i, args, s) == VoidReturned(s)
  {}

  lemma {:induction false} ArgumentIs(w: World, args: seq<Value>, s: State, i: nat)
    requires i < |args|
    ensures Eval(w, args, s, LdArg(i)) == Some(args[i])
  {}

  /** Storing one more field keeps the slots of the others. */
  lemma {:induction false} DeliversOne(s: State, a: nat, fields: seq<FieldDesc>, outs: seq<Value>, k: nat)
    requires |outs| == |fields| && OutsOk(outs) && a in s.objects && k < |fields| && fields[k] in s.objects[a]
    requires Delivered(s, a, fields, outs, k)
    ensures Delivered(s.(outs := s.outs[outs[k].slot := s.objects[a][fields[k]]]), a, fields, outs, k + 1)
  {
    var next := s.(outs := s.outs[outs[k].slot := s.objects[a][fields[k]]]);
    forall i | 0 <= i < k + 1
      ensures fields[i] in next.objects[a] && outs[i].slot in next.outs
          && next.outs[outs[i].slot] == next.objects[a][fields[i]]
    {
      if i < k {
        assert outs[i] != outs[k];
      }
    }
  }

  lemma {:induction false} OutsStore(w: World, fields: seq<FieldDesc>, s: State, a: nat, outs: seq<Value>, k: nat)
    requires |outs| == |fields| && OutsOk(outs) && HasFields(s, Ref(a), fields)
    requires k <= |fields| && Delivered(s, a, fields, outs, k)
    ensures var r := Run(w, DeconstructCode(fields), 0, k, [Ref(a)] + outs, s);
      && r.VoidReturned? && r.state.objects == s.objects
      && Delivered(r.state, a, fields, outs, |fields|)
      && forall o :: o in s.outs && OutSlot(o) !in outs ==> o in r.state.outs && r.state.outs[o] == s.outs[o]
    decreases |fields| - k
  {
    hide Run, Eval;
    var code, args := DeconstructCode(fields), [Ref(a)] + outs;
    if k < |fields| {
      var f := fields[k];
      assert f in fields && outs[k] in outs;
      assert code[0][k] == FieldOut(f, k);
      var next := s.(outs := s.outs[outs[k].slot := s.objects[a][f]]);
      DeliversOne(s, a, fields, outs, k);
      OutsStore(w, fields, next, a, outs, k + 1);
      ArgumentIs(w, args, s, k + 1);
      LoadsField(w, args, s, 0, f, fields);
      OutRuns(w, code, 0, k, args, s, outs[k], s.objects[a][f]);
    } else {
      assert code[0][k] == VoidRet;
      VoidRuns(w, code, 0, k, args, s);
    }
  }

  /** Deconstruction returns what the primary constructor was given, field by field and behind the
      arguments of the base constructor. */
  lemma {:induction false} DeconstructUndoesConstruction(w: World, fields: seq<FieldDesc>, s: State, a: nat,
                                                         args: seq<Value>, baseArgs: nat, outs: seq<Value>)
    requires DistinctFields(fields) && |args| == 1 + baseArgs + |fields| && args[0] == Ref(a) && a in s.objects
    requires |outs| == |fields| && OutsOk(outs)
    ensures var built := Run(w, CtorCode(fields, baseArgs), 0, 0, args, s);
      && built.VoidReturned?
      && var r := Run(w, DeconstructCode(fields), 0, 0, [Ref(a)] + outs, built.state);
      && r.VoidReturned?
      && forall i :: 0 <= i < |fields| ==>
        outs[i].slot in r.state.outs && r.state.outs[outs[i].slot] == args[baseArgs + i + 1]
  {
    hide Run;
    CtorInitializes(w, fields, s, a, args, baseArgs);
    var built := Run(w, CtorCode(fields, baseArgs), 0, 0, args, s);
    OutsStore(w, fields, built.state, a, outs, 0);
  }
}
