/** Integer `as` casts lowered to CIL conversions, evaluated on the CIL stack of ECMA-335
    Partition III (sections 1.1.1 and 3.27) for a 64-bit target. A stack slot is a bit pattern;
    sub-32-bit values live in int32 slots and are correct only in the canonical form that their
    type's own extension produces. */
module Casts {
  import opened Arithmetic
  import opened Wrappers

  datatype IntTy = I8 | I16 | I32 | I64 | I128 | ISize | U8 | U16 | U32 | U64 | U128 | USize

  datatype Type = Int(i: IntTy) | Bool | Ptr(pointee: nat)

  datatype Extend = SignExtend | ZeroExtend

  datatype Operator = OpImplicit | OpExplicit

  datatype Node =
    | Load(id: nat)
    | Field(id: nat, ty: IntTy)
    | Const(ty: IntTy, value: int)
    | IntCast(input: Node, target: IntTy, extend: Extend)
    | Call128(owner: IntTy, op: Operator, src: Type, result: Type, arg: Node)
    | CastPtr(input: Node, pointee: nat)

  // ---- Rust's types and `as` ----------------------------------------------------------------

  predicate Signed(t: IntTy) { t in {I8, I16, I32, I64, I128, ISize} }

  predicate Is128(t: IntTy) { t in {I128, U128} }

  function Unsigned(t: IntTy): IntTy {
    match t
    case I8 => U8 case I16 => U16 case I32 => U32 case I64 => U64 case I128 => U128 case ISize => USize
    case _ => t
  }

  function Modulus(t: IntTy): (m: int)
    ensures m > 0
  {
    match t
    case I8 | U8 => 0x100
    case I16 | U16 => 0x1_0000
    case I32 | U32 => 0x1_0000_0000
    case I64 | U64 | ISize | USize => 0x1_0000_0000_0000_0000
    case I128 | U128 => 0x1_0000_0000_0000_0000_0000_0000_0000_0000
  }

  /** The value of type `t` congruent to `v` modulo 2^width: Rust's `as`. */
  function Wrap(t: IntTy, v: int): (w: int)
    ensures InRange(Int(t), w)
    ensures (w - v) % Modulus(t) == 0
  {
    var m := Modulus(t);
    var u := v % m;
    if Signed(t) && u >= m / 2 then u - m else u
  }

  predicate InRange(t: Type, v: int) {
    match t
    case Int(i) => if Signed(i) then -Modulus(i) / 2 <= v < Modulus(i) / 2 else 0 <= v < Modulus(i)
    case Bool => v == 0 || v == 1
    case Ptr(_) => 0 <= v < Modulus(USize)
  }

  /** The ranges of Rust's types. */
  lemma {:induction false} RangesAre(v: int)
    ensures InRange(Bool, v) <==> v in {0, 1}
    ensures forall p :: InRange(Ptr(p), v) <==> 0 <= v <= 0xFFFF_FFFF_FFFF_FFFF
    ensures InRange(Int(USize), v) <==> 0 <= v <= 0xFFFF_FFFF_FFFF_FFFF
    ensures InRange(Int(U64), v) <==> InRange(Int(USize), v)
    ensures InRange(Int(U8), v) <==> 0 <= v <= 255
    ensures InRange(Int(I8), v) <==> -128 <= v <= 127
    ensures InRange(Int(U16), v) <==> 0 <= v <= 65535
    ensures InRange(Int(I16), v) <==> -32768 <= v <= 32767
    ensures InRange(Int(U32), v) <==> 0 <= v <= 0xFFFF_FFFF
    ensures InRange(Int(I32), v) <==> -0x8000_0000 <= v <= 0x7FFF_FFFF
    ensures InRange(Int(I64), v) <==> -0x8000_0000_0000_0000 <= v <= 0x7FFF_FFFF_FFFF_FFFF
    ensures InRange(Int(I64), v) <==> InRange(Int(ISize), v)
    ensures InRange(Int(U128), v) <==> 0 <= v <= 0xFFFF_FFFF_FFFF_FFFF_FFFF_FFFF_FFFF_FFFF
    ensures InRange(Int(I128), v) <==>
      -0x8000_0000_0000_0000_0000_0000_0000_0000 <= v <= 0x7FFF_FFFF_FFFF_FFFF_FFFF_FFFF_FFFF_FFFF
  {}

  lemma {:induction false} RemainderOf(v: int, m: int)
    requires m > 0
    ensures 0 <= v < m ==> v % m == v
    ensures -m <= v < 0 ==> v % m == v + m
  {
    if -m <= v < 0 {
      SameRemainder(v, v + m, m, -1);
    }
  }

  lemma {:induction false} WrapOfCongruent(t: IntTy, a: int, b: int)
    requires a % Modulus(t) == b % Modulus(t)
    ensures Wrap(t, a) == Wrap(t, b)
  {}

  lemma {:induction false} WrapInRange(t: IntTy, v: int)
    requires InRange(Int(t), v)
    ensures Wrap(t, v) == v
  {
    RemainderOf(v, Modulus(t));
  }

  /** There is only one value of type `t` congruent to `v`. */
  lemma {:induction false} WrapIsTheOnlyCandidate(t: IntTy, v: int, w: int)
    requires InRange(Int(t), w) && (w - v) % Modulus(t) == 0
    ensures w == Wrap(t, v)
  {
    hide Modulus, Wrap, InRange;
    var m := Modulus(t);
    var q := (w - v) / m;
    assert w - v == m * q + (w - v) % m;
    SameRemainder(w, v, m, q);
    WrapOfCongruent(t, w, v);
    WrapInRange(t, w);
  }

  // ---- the CIL stack ------------------------------------------------------------------------

  datatype Kind = Int32 | Int64 | Native | Wide

  datatype Item = Item(kind: Kind, bits: nat)

  const M8: nat := 0x100
  const M16: nat := 0x1_0000
  const M32: nat := 0x1_0000_0000
  const M64: nat := 0x1_0000_0000_0000_0000
  const M128: nat := 0x1_0000_0000_0000_0000_0000_0000_0000_0000

  function KindOf(t: Type): Kind {
    match t
    case Bool => Int32
    case Ptr(_) => Native
    case Int(i) =>
      match i
      case I8 | U8 | I16 | U16 | I32 | U32 => Int32
      case I64 | U64 => Int64
      case ISize | USize => Native
      case I128 | U128 => Wide
  }

  function Capacity(k: Kind): nat {
    match k case Int32 => M32 case Int64 => M64 case Native => M64 case Wide => M128
  }

  /** The canonical slot of value `v` of type `t`. */
  function Canonical(t: Type, v: int): Item { Item(KindOf(t), v % Capacity(KindOf(t))) }

  /** Two's-complement reading of the low bits below modulus `m`, stored back in a slot of capacity `c`. */
  function SignedLow(bits: nat, m: nat, c: nat): nat
    requires 0 < m <= c
  {
    var low := bits % m;
    if low >= m / 2 then low + (c - m) else low
  }

  /** `conv.i1` ... `conv.u`: what `emit_int_cast` picks for a target and an extension. */
  function Convert(target: IntTy, extend: Extend, x: Item): Option<Item> {
    if x.kind == Wide then None else
    match target
    case I8 | U8 => Some(Item(Int32, if extend == SignExtend then SignedLow(x.bits, M8, M32) else x.bits % M8))
    case I16 | U16 => Some(Item(Int32, if extend == SignExtend then SignedLow(x.bits, M16, M32) else x.bits % M16))
    case I32 | U32 => Some(Item(Int32, x.bits % M32))
    case I64 | U64 => Some(Item(Int64, Widen(extend, x)))
    case ISize | USize => Some(Item(Native, Widen(extend, x)))
    case I128 | U128 => None
  }

  function Widen(extend: Extend, x: Item): nat {
    if x.kind == Int32 && extend == SignExtend then SignedLow(x.bits, M32, M64) else x.bits
  }

  /** The value a callee of parameter type `t` receives; narrow parameters are truncated on entry. */
  function Receive(t: Type, x: Item): int {
    match t
    case Int(i) => Wrap(i, x.bits)
    case Bool => if x.bits == 0 then 0 else 1
    case Ptr(_) => x.bits
  }

  /** Evaluation; `None` is code the exporter or the verifier refuses. 128-bit operators keep the
      value modulo the width of their result. */
  function Eval(n: Node, env: nat -> Item): Option<Item> {
    match n
    case Load(id) => Some(env(id))
    case Field(id, _) => Some(env(id))
    case Const(ty, v) => Some(Canonical(Int(ty), v))
    case IntCast(input, target, extend) =>
      var x := Eval(input, env);
      if x.None? then None else Convert(target, extend, x.value)
    case Call128(owner, op, src, result, arg) =>
      var x := Eval(arg, env);
      if x.None? || x.value.kind != KindOf(src) || !Is128(owner) || (src != Int(owner)
          && result != Int(owner)) || !result.Int?
      then None
      else Some(Canonical(result, Wrap(result.i, Receive(src, x.value))))
    case CastPtr(input, _) =>
      var x := Eval(input, env);
      if x.None? || x.value.kind != Native then None else x
  }

  /** Loads, fields and constants have a value, a 128-bit operator one on operands of its own type only;
      booleans and narrow integers are 32-bit slots. */
  lemma {:induction false} LeavesEvaluate(id: nat, ty: IntTy, v: int, env: nat -> Item)
    ensures Eval(Load(id), env) == Some(env(id)) && Eval(Field(id, ty), env) == Some(env(id))
    ensures Eval(Const(ty, v), env) == Some(Canonical(Int(ty), v))
    ensures forall owner, op, src, result: IntTy ::
      (Eval(Call128(owner, op, src, Int(result), Load(id)), env).Some? <==>
       Is128(owner) && env(id).kind == KindOf(src) && (src == Int(owner) || result == owner))
    ensures KindOf(Bool) == Int32 && (Modulus(ty) <= M32 ==> KindOf(Int(ty)) == Int32)
  {}

  // ---- the lowering -------------------------------------------------------------------------

  /** `to_int`; its `todo!` targets are excluded. */
  function ToInt(target: Type, operand: Node): Node
    requires target.Int? ==> !Is128(target.i)
    requires !target.Bool?
  {
    match target
    case Int(i) => IntCast(operand, i, if Signed(i) then SignExtend else ZeroExtend)
    case Ptr(p) => CastPtr(IntCast(operand, USize, ZeroExtend), p)
  }

  /** `int_to_int`, arm by arm. */
  function IntToInt(src: Type, target: Type, operand: Node): Node
    requires !target.Bool? || src == target
  {
    if src == target then operand
    else if src.Int? && src.i in {U32, U16, U8, U64, USize} && target.Int?
        && target.i in {ISize, I64, I32, I16, I8} then
      IntCast(IntCast(operand, Unsigned(target.i), ZeroExtend), target.i, SignExtend)
    else if src.Int? && src.i in {ISize, U32} && target == Int(I128) then
      Call128(I128, OpImplicit, src, target, operand)
    else if src == Int(ISize) && target == Int(U128) then
      Call128(U128, OpExplicit, Int(I64), target, IntCast(operand, I64, SignExtend))
    else if src == Bool && target == Int(U128) then
      Call128(U128, OpExplicit, Int(I32), target, IntCast(operand, I32, SignExtend))
    else if src == Bool && target == Int(I128) then
      Call128(I128, OpImplicit, Int(I32), target, IntCast(operand, I32, SignExtend))
    else if src.Int? && src.i in {I64, I32, I16, I8} && target.Int? && target.i in {USize, U64} then
      IntCast(operand, target.i, SignExtend)
    else if (src == Int(U128) && target == Int(I128)) || (src.Int? && src.i in {I8, I16, I32, I64}
        && target == Int(U128)) then
      Call128(U128, OpExplicit, src, target, operand)
    else if src.Ptr? && target.Int? && Is128(target.i) then
      Call128(target.i, OpExplicit, Int(USize), target, IntCast(operand, USize, ZeroExtend))
    else if target == Int(I128) then
      Call128(I128, OpImplicit, src, target, operand)
    else if src == Int(I128) && target == Int(U128) then
      Call128(I128, OpExplicit, src, target, operand)
    else if target == Int(U128) then
      Call128(U128, OpImplicit, src, target, operand)
    else if src.Int? && Is128(src.i) && target.Ptr? then
      CastPtr(Call128(src.i, OpExplicit, src, Int(USize), operand), target.pointee)
    else if src.Int? && Is128(src.i) then
      Call128(src.i, OpExplicit, src, target, operand)
    else
      ToInt(target, operand)
  }

  // ---- conversions on canonical slots -------------------------------------------------------

  /** Reducing modulo a multiple first changes nothing. */
  lemma {:induction false} Tower(v: int, m: int, k: int)
    requires m > 0 && k > 0
    ensures m * k > 0
    ensures (v % (m * k)) % m == v % m
  {
    var c := m * k;
    assert v % c - v == m * (-k * (v / c)) by {
      assert v == c * (v / c) + v % c;
      assert m * (-k * (v / c)) == -(c * (v / c));
    }
    SameRemainder(v % c, v, m, -k * (v / c));
  }

  lemma {:induction false} TowerFacts(v: int)
    ensures (v % M32) % M8 == v % M8 && (v % M64) % M8 == v % M8 && (v % M128) % M8 == v % M8
    ensures (v % M32) % M16 == v % M16 && (v % M64) % M16 == v % M16 && (v % M128) % M16 == v % M16
    ensures (v % M64) % M32 == v % M32 && (v % M128) % M32 == v % M32 && (v % M128) % M64 == v % M64
    ensures (v % M32) % M32 == v % M32 && (v % M64) % M64 == v % M64 && (v % M128) % M128 == v % M128
  {
    Tower(v, M8, M32 / M8);
    Tower(v, M8, M64 / M8);
    Tower(v, M8, M128 / M8);
    Tower(v, M16, M32 / M16);
    Tower(v, M16, M64 / M16);
    Tower(v, M16, M128 / M16);
    Tower(v, M32, M64 / M32);
    Tower(v, M32, M128 / M32);
    Tower(v, M64, M128 / M64);
  }

  /** The slot of a wrapped value, written with remainders only. */
  lemma {:induction false} CanonicalOfWrap(t: IntTy, v: int)
    ensures Canonical(Int(t), Wrap(t, v)).bits ==
      (match t
       case I8 => SignedLow(v % M8, M8, M32)
       case I16 => SignedLow(v % M16, M16, M32)
       case U8 => v % M8
       case U16 => v % M16
       case I32 | U32 => v % M32
       case I64 | U64 | ISize | USize => v % M64
       case I128 | U128 => v % M128)
  {
    var m, w := Modulus(t), Wrap(t, v);
    RemainderOf(w, Capacity(KindOf(Int(t))));
    RemainderOf(v % m, m);
  }

  lemma {:induction false} NarrowConversion(bits: nat, kind: Kind, v: int, target: IntTy, extend: Extend)
    requires kind != Wide && target in {I8, U8, I16, U16, I32, U32}
    requires target in {I8, I16, U8, U16} ==> (extend == SignExtend <==> Signed(target))
    requires bits % M8 == v % M8 && bits % M16 == v % M16 && bits % M32 == v % M32
    ensures Convert(target, extend, Item(kind, bits)) == Some(Canonical(Int(target), Wrap(target, v)))
  {
    hide Wrap;
    CanonicalOfWrap(target, v);
  }

  lemma {:induction false} WidenSlot(src: Type, v: int, extend: Extend)
    requires InRange(src, v) && KindOf(src) != Wide
    requires KindOf(src) == Int32 ==> if extend == SignExtend then v < 0x8000_0000 else v >= 0
    ensures Widen(extend, Canonical(src, v)) == v % M64
  {
    if KindOf(src) == Int32 {
      RemainderOf(v, M32);
      RemainderOf(v, M64);
      RemainderOf(v % M32, M32);
    }
  }

  /** A matching conversion of at most 64 bits computes `as`. Widening an int32 slot is right when
      the extension agrees with the value's sign. */
  lemma {:induction false} MatchingConversion(src: Type, v: int, target: IntTy, extend: Extend)
    requires InRange(src, v) && KindOf(src) != Wide && !Is128(target)
    requires target in {I8, I16, U8, U16} ==> (extend == SignExtend <==> Signed(target))
    requires Modulus(target) == M64 && KindOf(src) == Int32 ==>
               if extend == SignExtend then v < 0x8000_0000 else v >= 0
    ensures Convert(target, extend, Canonical(src, v)) == Some(Canonical(Int(target), Wrap(target, v)))
  {
    hide Wrap, SignedLow;
    CanonicalOfWrap(target, v);
    if Modulus(target) == M64 {
      WidenSlot(src, v, extend);
    } else {
      TowerFacts(v);
      NarrowConversion(Canonical(src, v).bits, KindOf(src), v, target, extend);
    }
  }

  /** Reducing modulo a wider type first changes nothing. */
  lemma {:induction false} TowerOf(inner: IntTy, outer: IntTy, v: int)
    requires Modulus(outer) <= Modulus(inner)
    ensures (v % Modulus(inner)) % Modulus(outer) == v % Modulus(outer)
  {
    Widths(inner, outer);
    Tower(v, Modulus(outer), Modulus(inner) / Modulus(outer));
  }

  lemma {:induction false} Widths(inner: IntTy, outer: IntTy)
    requires Modulus(outer) <= Modulus(inner)
    ensures Modulus(outer) * (Modulus(inner) / Modulus(outer)) == Modulus(inner)
    ensures Modulus(inner) / Modulus(outer) > 0
  {}

  lemma {:induction false} SlotCapacity(t: IntTy, v: int)
    ensures Canonical(Int(t), v).bits % Modulus(t) == v % Modulus(t)
  {
    TowerFacts(v);
  }

  /** A parameter receives exactly the value its canonical slot stands for. */
  lemma {:induction false} ReceiveCanonical(t: Type, v: int)
    requires InRange(t, v)
    ensures Receive(t, Canonical(t, v)) == v
  {
    if t.Int? {
      hide Wrap, Canonical, Modulus;
      SlotCapacity(t.i, v);
      WrapOfCongruent(t.i, Canonical(t, v).bits, v);
      WrapInRange(t.i, v);
    }
  }

  lemma {:induction false} WrapTwice(inner: IntTy, outer: IntTy, v: int)
    requires Modulus(outer) <= Modulus(inner)
    ensures Wrap(outer, Wrap(inner, v)) == Wrap(outer, v)
  {
    hide Wrap, Modulus;
    WrapCongruent(inner, v);
    TowerOf(inner, outer, v);
    TowerOf(inner, outer, Wrap(inner, v));
    WrapOfCongruent(outer, Wrap(inner, v), v);
  }

  lemma {:induction false} WrapCongruent(t: IntTy, v: int)
    ensures Wrap(t, v) % Modulus(t) == v % Modulus(t)
  {
    var m := Modulus(t);
    if Wrap(t, v) < 0 {
      SameRemainder(Wrap(t, v), v % m, m, -1);
    }
  }

  lemma {:induction false} ThroughUnsigned(src: Type, t: IntTy, v: int)
    requires InRange(src, v) && v >= 0 && KindOf(src) != Wide && Signed(t) && !Is128(t)
    ensures Convert(Unsigned(t), ZeroExtend, Canonical(src, v))
        == Some(Canonical(Int(Unsigned(t)), Wrap(Unsigned(t), v)))
    ensures Convert(t, SignExtend, Canonical(Int(Unsigned(t)), Wrap(Unsigned(t), v)))
        == Some(Canonical(Int(t), Wrap(t, v)))
  {
    hide Convert, Canonical, Wrap;
    MatchingConversion(src, v, Unsigned(t), ZeroExtend);
    MatchingConversion(Int(Unsigned(t)), Wrap(Unsigned(t), v), t, SignExtend);
    WrapTwice(Unsigned(t), t, v);
  }

  /** A 128-bit operator applied to a canonical argument. */
  lemma {:induction false} CallOnCanonical(owner: IntTy, op: Operator, src: Type, result: IntTy, arg: Node, v: int,
                                           env: nat -> Item)
    requires InRange(src, v) && Eval(arg, env) == Some(Canonical(src, v))
    requires Is128(owner) && (src == Int(owner) || result == owner)
    ensures Eval(Call128(owner, op, src, Int(result), arg), env) == Some(Canonical(Int(result), Wrap(result, v)))
  {
    hide Wrap;
    ReceiveCanonical(src, v);
  }

  lemma {:induction false} WideCast(src: Type, t: IntTy, v: int, operand: Node, env: nat -> Item)
    requires InRange(src, v) && src != Int(t)
    requires Is128(t) || (src.Int? && Is128(src.i))
    requires Eval(operand, env) == Some(Canonical(src, v))
    ensures Eval(IntToInt(src, Int(t), operand), env) == Some(Canonical(Int(t), Wrap(t, v)))
  {
    hide Wrap, Canonical, Convert, Eval;
    if src == Int(ISize) && t == U128 {
      CastThenCall(U128, OpExplicit, src, I64, SignExtend, t, v, operand, env);
    } else if src == Bool {
      CastThenCall(t, if t == U128 then OpExplicit else OpImplicit, src, I32, SignExtend, t, v, operand, env);
    } else if src.Ptr? {
      CastThenCall(t, OpExplicit, src, USize, ZeroExtend, t, v, operand, env);
    } else {
      var n := IntToInt(src, Int(t), operand);
      assert n.Call128? && n.arg == operand && n.src == src && n.result == Int(t);
      CallOnCanonical(n.owner, n.op, src, t, operand, v, env);
    }
  }

  lemma {:induction false} CastThenCall(owner: IntTy, op: Operator, src: Type, through: IntTy, extend: Extend, t: IntTy,
                                        v: int, operand: Node, env: nat -> Item)
    requires Is128(owner) && t == owner
    requires InRange(src, v) && KindOf(src) != Wide
    requires (src == Int(ISize) && through == I64 && extend == SignExtend)
          || (src == Bool && through == I32 && extend == SignExtend)
          || (src.Ptr? && through == USize && extend == ZeroExtend)
    requires Eval(operand, env) == Some(Canonical(src, v))
    ensures Eval(Call128(owner, op, Int(through), Int(t), IntCast(operand, through, extend)), env)
         == Some(Canonical(Int(t), Wrap(t, v)))
  {
    MatchingConversion(src, v, through, extend);
    WrapInRange(through, v);
    CallOnCanonical(owner, op, Int(through), t, IntCast(operand, through, extend), v, env);
  }

  // ---- the main results ---------------------------------------------------------------------

  /** Every integer, bool and 128-bit cast: from the canonical slot of the source value the emitted
      tree computes the canonical slot of Rust's result. */
  lemma {:induction false} IntToIntComputesAs(src: Type, target: Type, v: int, operand: Node, env: nat -> Item)
    requires InRange(src, v) && target.Int?
    requires Eval(operand, env) == Some(Canonical(src, v))
    ensures Eval(IntToInt(src, target, operand), env) == Some(Canonical(target, Wrap(target.i, v)))
  {
    hide Wrap, Canonical, Convert;
    var t := target.i;
    if src == target {
      WrapInRange(t, v);
    } else if src.Int? && src.i in {U32, U16, U8, U64, USize} && t in {ISize, I64, I32, I16, I8} {
      ThroughUnsigned(src, t, v);
    } else if Is128(t) || (src.Int? && Is128(src.i)) {
      WideCast(src, t, v, operand, env);
    } else {
      var n := IntToInt(src, target, operand);
      assert n == IntCast(operand, t, n.extend);
      MatchingConversion(src, v, t, n.extend);
    }
  }

  /** What `as *const T` means for an integer: the address `v as usize`. */
  function AddressOf(v: int): int { Wrap(USize, v) }

  /** Integer to pointer: the tree yields the address of `v as usize` exactly when the source is not
      a negative 8-, 16- or 32-bit integer, which the lowering zero-extends. */
  lemma {:induction false} IntToPointerExactly(src: IntTy, pointee: nat, v: int, operand: Node, env: nat -> Item)
    requires InRange(Int(src), v)
    requires Eval(operand, env) == Some(Canonical(Int(src), v))
    ensures Eval(IntToInt(Int(src), Ptr(pointee), operand), env) == Some(Canonical(Ptr(pointee), AddressOf(v)))
       <==> !(src in {I8, I16, I32} && v < 0)
  {
    hide Wrap, Canonical, Convert, Modulus;
    if Is128(src) {
      CallOnCanonical(src, OpExplicit, Int(src), USize, operand, v, env);
      SamePointerSlot(pointee, v);
    } else {
      var n := IntToInt(Int(src), Ptr(pointee), operand);
      assert n == CastPtr(IntCast(operand, USize, ZeroExtend), pointee);
      PointerSlotExactly(src, pointee, v);
    }
  }

  lemma {:induction false} SamePointerSlot(pointee: nat, v: int)
    ensures Canonical(Int(USize), Wrap(USize, v)) == Canonical(Ptr(pointee), AddressOf(v))
    ensures Canonical(Int(USize), Wrap(USize, v)).kind == Native
  {}

  lemma {:induction false} PointerSlotExactly(src: IntTy, pointee: nat, v: int)
    requires InRange(Int(src), v) && !Is128(src)
    ensures var x := Convert(USize, ZeroExtend, Canonical(Int(src), v));
      && x.Some? && x.value.kind == Native
      && (x.value == Canonical(Ptr(pointee), AddressOf(v)) <==> !(src in {I8, I16, I32} && v < 0))
  {
    hide Wrap;
    SamePointerSlot(pointee, v);
    if src in {I8, I16, I32} && v < 0 {
      RemainderOf(v, M32);
      RemainderOf(v, M64);
      assert Wrap(USize, v) == v % M64 by { AddressRemainder(v); }
      RemainderOf(v + M64, M64);
    } else {
      MatchingConversion(Int(src), v, USize, ZeroExtend);
    }
  }

  lemma {:induction false} AddressRemainder(v: int)
    ensures Wrap(USize, v) == v % M64
  {}

  // ---- the cast peephole --------------------------------------------------------------------

  /** `opt_int_cast`: the rewrites applied to one cast node, with fuel to spare. */
  function OptIntCast(input: Node, target: IntTy, extend: Extend): Node {
    var original := IntCast(input, target, extend);
    match input
    case Field(_, ty) => if ty == target then input else original
    case Const(ty, v) =>
      if ty == U64 && target == USize then Const(USize, v)
      else if ty == I64 && target == ISize then Const(ISize, v)
      else if ty == target && ty in {U64, I64, U32, I32} then input
      else if ty == I32 && target == U32 then Const(U32, Wrap(U32, v))
      else if ty == U64 && target == U8 then Const(U8, Wrap(U8, v))
      else if ty == I32 && target == USize then
        Const(USize, if extend == SignExtend then Wrap(U64, v) else Wrap(U32, v))
      else original
    case IntCast(input2, target2, extend2) =>
      if target == target2 && extend == extend2 then input
      else if {target, target2} <= {USize, ISize} || {target, target2} <= {U64, I64}
          || {target, target2} <= {U32, I32} then
        IntCast(input2, target, extend2)
      else original
    case _ => original
  }

  /** A field slot holds a canonical value of the field's type. */
  ghost predicate FieldsCanonical(n: Node, env: nat -> Item) {
    match n
    case Field(id, ty) => exists v :: InRange(Int(ty), v) && env(id) == Canonical(Int(ty), v)
    case Const(ty, v) => InRange(Int(ty), v)
    case _ => true
  }

  /** The extension a cast to `target` uses everywhere in `IntToInt`; free above 16 bits. */
  predicate OwnExtension(target: IntTy, extend: Extend) {
    target in {I8, I16, U8, U16} ==> (extend == SignExtend <==> Signed(target))
  }

  /** The peephole keeps the value of every cast that uses its target's own extension. */
  lemma {:induction false} PeepholeKeepsValue(input: Node, target: IntTy, extend: Extend, env: nat -> Item)
    requires OwnExtension(target, extend) && FieldsCanonical(input, env)
    requires Eval(IntCast(input, target, extend), env).Some?
    ensures Eval(OptIntCast(input, target, extend), env) == Eval(IntCast(input, target, extend), env)
  {
    hide Wrap, Convert, Canonical, Modulus, OwnExtension, FieldsCanonical, Eval, OptIntCast;
    match input
    case Field(_, _) => PeepholeField(input, target, extend, env);
    case Const(ty, v) => PeepholeConst(ty, v, target, extend, env);
    case IntCast(_, _, _) => PeepholeCast(input, target, extend, env);
    case _ => PeepholeOther(input, target, extend);
  }

  lemma {:induction false} PeepholeOther(input: Node, target: IntTy, extend: Extend)
    requires !input.Field? && !input.Const? && !input.IntCast?
    ensures OptIntCast(input, target, extend) == IntCast(input, target, extend)
  {}

  lemma {:induction false} ConvertNeeds(target: IntTy, extend: Extend, x: Item)
    ensures Convert(target, extend, x).Some? <==> !Is128(target) && x.kind != Wide
  {}

  lemma {:induction false} PeepholeField(input: Node, target: IntTy, extend: Extend, env: nat -> Item)
    requires OwnExtension(target, extend) && FieldsCanonical(input, env) && input.Field?
    requires Eval(IntCast(input, target, extend), env).Some?
    ensures Eval(OptIntCast(input, target, extend), env) == Eval(IntCast(input, target, extend), env)
  {
    hide Wrap, Convert, Canonical, Modulus, OwnExtension;
    ConvertNeeds(target, extend, env(input.id));
    if input.ty == target {
      var v :| InRange(Int(target), v) && env(input.id) == Canonical(Int(target), v);
      SameTypeConversion(target, v, extend);
    }
  }

  lemma {:induction false} PeepholeCast(input: Node, target: IntTy, extend: Extend, env: nat -> Item)
    requires input.IntCast?
    requires Eval(IntCast(input, target, extend), env).Some?
    ensures Eval(OptIntCast(input, target, extend), env) == Eval(IntCast(input, target, extend), env)
  {
    hide Convert, Modulus;
    var x := Eval(input.input, env).value;
    ConvertNeeds(input.target, input.extend, x);
    if OptIntCast(input, target, extend) != IntCast(input, target, extend) {
      ConvertTwice(input.target, input.extend, target, extend, x);
    }
  }

  lemma {:induction false} SameTypeConversion(ty: IntTy, v: int, extend: Extend)
    requires InRange(Int(ty), v) && !Is128(ty) && OwnExtension(ty, extend)
    ensures Convert(ty, extend, Canonical(Int(ty), v)) == Some(Canonical(Int(ty), v))
  {
    MatchingConversion(Int(ty), v, ty, extend);
    WrapInRange(ty, v);
  }

  lemma {:induction false} PeepholeConst(ty: IntTy, v: int, target: IntTy, extend: Extend, env: nat -> Item)
    requires FieldsCanonical(Const(ty, v), env) && OwnExtension(target, extend)
    requires Eval(IntCast(Const(ty, v), target, extend), env).Some?
    ensures Eval(OptIntCast(Const(ty, v), target, extend), env) == Eval(IntCast(Const(ty, v), target, extend), env)
  {
    if ty == I32 && target == USize {
      SignExtendedConst(v);
    } else if ty == target && ty in {U64, I64, U32, I32} {
      SameTypeConversion(ty, v, extend);
    } else if (ty == I32 && target == U32) || (ty == U64 && target == U8) {
      ConstArm(ty, v, target, extend);
    }
  }

  lemma {:induction false} ConstArm(ty: IntTy, v: int, target: IntTy, extend: Extend)
    requires InRange(Int(ty), v)
    requires (ty == I32 && target == U32) || (ty == U64 && target == U8 && extend == ZeroExtend)
    ensures Convert(target, extend, Canonical(Int(ty), v)) == Some(Canonical(Int(target), Wrap(target, v)))
  {
    hide Wrap, Convert, Canonical;
    MatchingConversion(Int(ty), v, target, extend);
  }

  lemma {:induction false} SignExtendedConst(v: int)
    requires InRange(Int(I32), v)
    ensures SignedLow(v % M32, M32, M64) == v % M64
    ensures Wrap(U64, v) == v % M64 && Wrap(U32, v) == v % M32
    ensures (v % M64) % M64 == v % M64 && (v % M32) % M64 == v % M32 && (v % M32) % M32 == v % M32
  {
    RemainderOf(v, M32);
    RemainderOf(v, M64);
    RemainderOf(v % M32, M64);
    RemainderOf(v % M32, M32);
    RemainderOf(v % M64, M64);
  }

  lemma {:induction false} ConvertIdempotent(t: IntTy, extend: Extend, x: Item)
    requires x.kind != Wide && !Is128(t)
    ensures var once := Convert(t, extend, x);
      once.Some? && Convert(t, extend, once.value) == once
  {
    hide SignedLow;
    TowerFacts(x.bits);
    SignedLowTwice(x.bits, M8);
    SignedLowTwice(x.bits, M16);
  }

  lemma {:induction false} ConvertTwice(inner: IntTy, innerExtend: Extend, outer: IntTy, outerExtend: Extend, x: Item)
    requires x.kind != Wide && !Is128(inner)
    requires (inner == outer && innerExtend == outerExtend)
          || {outer, inner} <= {USize, ISize} || {outer, inner} <= {U64, I64} || {outer, inner} <= {U32, I32}
    ensures var once := Convert(inner, innerExtend, x);
      && once.Some?
      && Convert(outer, outerExtend, once.value)
         == (if inner == outer && innerExtend == outerExtend then once else Convert(outer, innerExtend, x))
  {
    hide SignedLow;
    if inner == outer && innerExtend == outerExtend {
      ConvertIdempotent(inner, innerExtend, x);
    } else {
      TowerFacts(x.bits);
    }
  }

  lemma {:induction false} SignedLowTwice(bits: nat, m: nat)
    requires m in {M8, M16}
    ensures SignedLow(SignedLow(bits, m, M32), m, M32) == SignedLow(bits, m, M32)
  {
    var low := bits % m;
    if low >= m / 2 {
      Tower(low + (M32 - m), m, 1);
      SameRemainder(low + (M32 - m), low, m, if m == M8 then M32 / M8 - 1 else M32 / M16 - 1);
    }
  }

  /** The other type's extension keeps a slot exactly when its top bit is clear. */
  lemma {:induction false} OtherExtension(ty: IntTy, v: int, extend: Extend)
    requires InRange(Int(ty), v) && !Is128(ty) && !OwnExtension(ty, extend)
    ensures Convert(ty, extend, Canonical(Int(ty), v)) == Some(Canonical(Int(ty), v)) <==> 0 <= v < Modulus(ty) / 2
  {}

  /** The field arm ignores the extension. It keeps the value exactly for the type's own extension,
      from 32 bits up, and for values below half the type's range. */
  lemma {:induction false} FieldArmExactly(ty: IntTy, v: int, extend: Extend, id: nat, env: nat -> Item)
    requires InRange(Int(ty), v) && !Is128(ty) && env(id) == Canonical(Int(ty), v)
    ensures Eval(OptIntCast(Field(id, ty), ty, extend), env) == Eval(IntCast(Field(id, ty), ty, extend), env)
       <==> OwnExtension(ty, extend) || 0 <= v < Modulus(ty) / 2
  {
    var x := Canonical(Int(ty), v);
    assert Eval(Field(id, ty), env) == Some(x);
    assert Eval(IntCast(Field(id, ty), ty, extend), env) == Convert(ty, extend, x);
    assert OptIntCast(Field(id, ty), ty, extend) == Field(id, ty);
    hide Eval, OptIntCast, Convert, Canonical, Modulus;
    if OwnExtension(ty, extend) {
      SameTypeConversion(ty, v, extend);
    } else {
      OtherExtension(ty, v, extend);
    }
  }

  // ---- the peephole on what the lowering emits ------------------------------------------------

  /** The peephole applied to every cast above `operand`, innermost first. */
  function Optimize(n: Node, operand: Node): Node {
    if n == operand then n
    else
      match n
      case IntCast(input, target, extend) => OptIntCast(Optimize(input, operand), target, extend)
      case Call128(owner, op, src, result, arg) => Call128(owner, op, src, result, Optimize(arg, operand))
      case CastPtr(input, pointee) => CastPtr(Optimize(input, operand), pointee)
      case _ => n
  }

  /** Every cast above `operand` uses its target's own extension. */
  predicate OwnThroughout(n: Node, operand: Node) {
    n == operand ||
    match n
    case IntCast(input, target, extend) => OwnExtension(target, extend) && OwnThroughout(input, operand)
    case Call128(_, _, _, _, arg) => OwnThroughout(arg, operand)
    case CastPtr(input, _) => OwnThroughout(input, operand)
    case _ => true
  }

  /** `int_to_int` emits only such casts. */
  lemma {:induction false} IntToIntUsesOwnExtensions(src: Type, target: Type, operand: Node)
    requires !target.Bool? || src == target
    ensures OwnThroughout(IntToInt(src, target, operand), operand)
  {}

  lemma {:induction false} CastAfterOptimize(input: Node, optimized: Node, target: IntTy, extend: Extend,
                                             env: nat -> Item)
    requires OwnExtension(target, extend) && FieldsCanonical(optimized, env) && Eval(optimized, env) == Eval(input, env)
    requires Eval(IntCast(input, target, extend), env).Some?
    ensures Eval(OptIntCast(optimized, target, extend), env) == Eval(IntCast(input, target, extend), env)
  {
    hide OptIntCast, Convert, OwnExtension, FieldsCanonical;
    PeepholeKeepsValue(optimized, target, extend, env);
  }

  /** What the peephole leaves of a cast is the operand's own leaf, a constant in range, or a cast. */
  lemma {:induction false} StillCanonical(input: Node, target: IntTy, extend: Extend, env: nat -> Item)
    requires FieldsCanonical(input, env)
    ensures FieldsCanonical(OptIntCast(input, target, extend), env)
  {
    hide Canonical, Convert;
    if input.Const? {
      WrapRange(target, input.value);
    }
  }

  lemma {:induction false} WrapRange(t: IntTy, v: int)
    ensures InRange(Int(t), Wrap(t, v))
    ensures InRange(Int(U64), v) && t == USize ==> InRange(Int(t), v)
    ensures InRange(Int(I64), v) && t == ISize ==> InRange(Int(t), v)
    ensures t == USize ==> InRange(Int(t), Wrap(U64, v)) && InRange(Int(t), Wrap(U32, v))
  {}

  /** The peephole does not change what a chain of casts evaluates to. */
  lemma {:induction false} OptimizeKeepsValue(n: Node, operand: Node, env: nat -> Item)
    requires OwnThroughout(n, operand) && FieldsCanonical(operand, env) && Eval(n, env).Some?
    requires n == operand || n.IntCast? || n.Call128?
    requires n != operand && n.IntCast? && n.input != operand ==> n.input.IntCast? && n.input.input == operand
    requires n != operand && n.Call128? && n.arg != operand ==> n.arg.IntCast? && n.arg.input == operand
    ensures Eval(Optimize(n, operand), env) == Eval(n, env) && FieldsCanonical(Optimize(n, operand), env)
    decreases n
  {
    hide OptIntCast, Convert, OwnExtension, FieldsCanonical, Wrap, Canonical;
    if n != operand {
      if n.IntCast? {
        OptimizeKeepsValue(n.input, operand, env);
        var optimized := Optimize(n.input, operand);
        CastAfterOptimize(n.input, optimized, n.target, n.extend, env);
        StillCanonical(optimized, n.target, n.extend, env);
      } else {
        OptimizeKeepsValue(n.arg, operand, env);
        CallsAreCanonical(Optimize(n, operand), env);
      }
    }
  }

  lemma {:induction false} CallsAreCanonical(n: Node, env: nat -> Item)
    requires n.Call128?
    ensures FieldsCanonical(n, env)
  {}

  lemma {:induction false} LoweringShape(src: Type, target: Type, operand: Node)
    requires target.Int?
    ensures var n := IntToInt(src, target, operand);
      && (n == operand || n.IntCast? || n.Call128?)
      && (n != operand && n.IntCast? && n.input != operand ==> n.input.IntCast? && n.input.input == operand)
      && (n != operand && n.Call128? && n.arg != operand ==> n.arg.IntCast? && n.arg.input == operand)
  {}

  /** Lowering and peephole together: the optimized tree still computes Rust's `as` on canonical slots,
      whatever leaf or tree the operand is. */
  lemma {:induction false} OptimizedCastComputesAs(src: Type, target: Type, v: int, operand: Node, env: nat -> Item)
    requires InRange(src, v) && target.Int? && FieldsCanonical(operand, env)
    requires Eval(operand, env) == Some(Canonical(src, v))
    ensures Eval(Optimize(IntToInt(src, target, operand), operand), env) == Some(Canonical(target, Wrap(target.i, v)))
  {
    hide Wrap, Canonical, Eval, IntToInt, Optimize, OwnThroughout, FieldsCanonical;
    IntToIntComputesAs(src, target, v, operand, env);
    IntToIntUsesOwnExtensions(src, target, operand);
    LoweringShape(src, target, operand);
    OptimizeKeepsValue(IntToInt(src, target, operand), operand, env);
  }

  // ---- integers to pointers as MIR casts them -------------------------------------------------

  /** `PointerWithExposedProvenance` relabels the operand's slot. The result is the address `v as usize`
      exactly for operands of pointer width; any other operand is refused. */
  lemma {:induction false} ExposedPointerExactly(src: IntTy, pointee: nat, v: int, operand: Node, env: nat -> Item)
    requires InRange(Int(src), v) && Eval(operand, env) == Some(Canonical(Int(src), v))
    ensures Eval(CastPtr(operand, pointee), env) == Some(Canonical(Ptr(pointee), AddressOf(v)))
        <==> src in {ISize, USize}
    ensures Eval(CastPtr(operand, pointee), env).None? <==> src !in {ISize, USize}
  {
    hide Wrap, Modulus, InRange;
    if src in {ISize, USize} {
      AddressRemainder(v);
    }
  }

  /** An integer cast to `usize` first and then to a pointer gives the address, whatever its type. */
  lemma {:induction false} ExposedThroughUsize(src: IntTy, pointee: nat, v: int, operand: Node, env: nat -> Item)
    requires InRange(Int(src), v) && Eval(operand, env) == Some(Canonical(Int(src), v))
    ensures Eval(CastPtr(IntToInt(Int(src), Int(USize), operand), pointee), env)
         == Some(Canonical(Ptr(pointee), AddressOf(v)))
  {
    hide Wrap, Canonical, IntToInt;
    IntToIntComputesAs(Int(src), Int(USize), v, operand, env);
    SamePointerSlot(pointee, v);
  }
}
