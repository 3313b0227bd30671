/** The physical argument list of a Rust callable: tuple spreading at the caller, tuple rebuilding at
    the callee, the hidden caller location, and function pointers without a closure receiver. */
module RustCall {
  import opened Finite
  import opened Wrappers

  datatype CilType = Void | NonVoid(id: nat)

  /** A value of the void type has no content. */
  datatype Value = Uninit | Content(id: nat)

  datatype Kind = Plain | Ignored | ClosureReceiver | CallerLocation

  datatype Argument = Argument(cilType: CilType, kind: Kind)

  datatype Plan = Plan(arguments: seq<Argument>, output: CilType, rustCall: bool, variadic: bool, fixedCount: nat)

  datatype Signature = Signature(inputs: seq<CilType>, output: CilType)

  /** A tuple object: the value of `ItemN` for every element that is not void. */
  type Items = map<nat, Value>

  /** An operand and, when its type is a tuple, its element types and items. */
  datatype Tuple = Tuple(elements: seq<CilType>, items: Items)

  datatype Operand = Operand(value: Value, tuple: Option<Tuple>)

  predicate TupleOk(t: Tuple) {
    forall i :: 0 <= i < |t.elements| && t.elements[i] != Void ==> i + 1 in t.items
  }

  function SlotOf(arguments: seq<Argument>, kind: Kind): (slot: Option<nat>)
    ensures slot.Some? ==> slot.value < |arguments| && arguments[slot.value].kind == kind
    ensures slot.Some? ==> forall i :: 0 <= i < slot.value ==> arguments[i].kind != kind
    ensures slot.None? ==> forall i :: 0 <= i < |arguments| ==> arguments[i].kind != kind
  {
    if arguments == [] then None
    else if arguments[0].kind == kind then Some(0)
    else
      var rest := SlotOf(arguments[1..], kind);
      assert forall i :: 1 <= i < |arguments| ==> arguments[i] == arguments[1..][i - 1];
      if rest.Some? then Some(rest.value + 1) else None
  }

  function LocationSlot(p: Plan): Option<nat> { SlotOf(p.arguments, CallerLocation) }

  function ReceiverSlot(p: Plan): Option<nat> { SlotOf(p.arguments, ClosureReceiver) }

  function Inputs(arguments: seq<Argument>): (inputs: seq<CilType>)
    ensures |inputs| == |arguments| && forall i :: 0 <= i < |arguments| ==> inputs[i] == arguments[i].cilType
  {
    seq(|arguments|, i requires 0 <= i < |arguments| => arguments[i].cilType)
  }

  function SignatureOf(p: Plan): Signature { Signature(Inputs(p.arguments), p.output) }

  /** `from_fn_abi` lets only the last slot be a caller location. */
  ghost predicate PlanOk(p: Plan) {
    forall i :: 0 <= i < |p.arguments| && p.arguments[i].kind == CallerLocation ==> i == |p.arguments| - 1
  }

  function Trailing(p: Plan): nat { if LocationSlot(p).Some? then 1 else 0 }

  // ---- the caller -----------------------------------------------------------------------------

  /** The operands a RustCall passes unspread. */
  function Prefix(p: Plan, args: seq<Operand>): seq<Operand> {
    if p.rustCall && args != [] then args[..|args| - 1] else args
  }

  function SpreadElements(p: Plan, args: seq<Operand>): seq<CilType> {
    if p.rustCall && args != [] && args[|args| - 1].tuple.Some? then args[|args| - 1].tuple.value.elements else []
  }

  /** The value a tuple element is passed as. */
  function ElementValue(t: Tuple, i: nat): Value
    requires i < |t.elements|
  {
    if t.elements[i] == Void || i + 1 !in t.items then Uninit else t.items[i + 1]
  }

  /** The operands fit the plan. */
  predicate CallFits(p: Plan, args: seq<Operand>) {
    var ordinary := |Prefix(p, args)| + |SpreadElements(p, args)|;
    && (p.rustCall ==> args != [] && args[|args| - 1].tuple.Some?)
    && (LocationSlot(p).Some? ==> ordinary == LocationSlot(p).value)
    && (if p.variadic then ordinary + Trailing(p) >= p.fixedCount else ordinary + Trailing(p) == |p.arguments|)
  }

  /** What each slot of a frame holds: prefix operands, then tuple elements, then the location. */
  ghost predicate FrameHolds(p: Plan, args: seq<Operand>, location: Value, frame: seq<Value>)
    requires p.rustCall ==> args != [] && args[|args| - 1].tuple.Some?
  {
    var prefix, elements := Prefix(p, args), SpreadElements(p, args);
    && |frame| == |prefix| + |elements| + Trailing(p)
    && (forall k :: 0 <= k < |prefix| ==> frame[k] == prefix[k].value)
    && (p.rustCall ==> forall k :: |prefix| <= k < |prefix| + |elements| ==>
          frame[k] == ElementValue(args[|args| - 1].tuple.value, k - |prefix|))
    && (Trailing(p) == 1 ==> frame[|frame| - 1] == location)
  }

  /** `lower_call_args`: it fails exactly when the operands do not fit the plan. */
  method LowerCallArgs(p: Plan, args: seq<Operand>, location: Value) returns (frame: Option<seq<Value>>)
    requires forall o :: o in args && o.tuple.Some? ==> TupleOk(o.tuple.value)
    ensures frame.Some? <==> CallFits(p, args)
    ensures frame.Some? ==> FrameHolds(p, args, location, frame.value)
  {
    var lowered: seq<Value> := [];
    var plain := args;
    if p.rustCall {
      if args == [] || args[|args| - 1].tuple.None? {
        return None;
      }
      plain := args[..|args| - 1];
    }
    for k := 0 to |plain|
      invariant |lowered| == k && forall j :: 0 <= j < k ==> lowered[j] == plain[j].value
    {
      lowered := lowered + [plain[k].value];
    }
    assert plain == Prefix(p, args);
    if p.rustCall {
      var tuple := args[|args| - 1].tuple.value;
      assert args[|args| - 1] in args;
      for i := 0 to |tuple.elements|
        invariant |lowered| == |plain| + i
        invariant forall j :: 0 <= j < |plain| ==> lowered[j] == plain[j].value
        invariant forall k :: |plain| <= k < |plain| + i ==> lowered[k] == ElementValue(tuple, k - |plain|)
      {
        if tuple.elements[i] == Void {
          lowered := lowered + [Uninit];
        } else {
          lowered := lowered + [tuple.items[i + 1]];
        }
      }
    }
    var slot := LocationSlot(p);
    if slot.Some? {
      if |lowered| != slot.value {
        return None;
      }
      lowered := lowered + [location];
    }
    if p.variadic {
      if |lowered| < p.fixedCount {
        return None;
      }
    } else if |lowered| != |p.arguments| {
      return None;
    }
    frame := Some(lowered);
  }

  // ---- the callee -----------------------------------------------------------------------------

  datatype TupleField = TupleField(slot: nat, cilType: CilType)

  /** `rust_call_tuple_fields` for a body whose spread argument is MIR local `spread`. */
  function RustCallTupleFields(p: Plan, spread: Option<nat>, elements: seq<CilType>): (r: Option<seq<TupleField>>)
    requires spread.Some? ==> spread.value >= 1
  {
    if spread.None? then (if p.rustCall then None else Some([]))
    else if !p.rustCall then None
    else
      var first := spread.value - 1;
      if first + |elements| + Trailing(p) != |p.arguments| then None
      else Some(seq(|elements|, i requires 0 <= i < |elements| => TupleField(first + i, elements[i])))
  }

  datatype SetField = SetField(item: nat, slot: nat)

  /** The stores that rebuild the tuple from its first `n` fields. */
  function Repacks(fields: seq<TupleField>, n: nat): seq<SetField>
    requires n <= |fields|
  {
    if n == 0 then []
    else
      Repacks(fields, n - 1) + (if fields[n - 1].cilType == Void then [] else [SetField(n, fields[n - 1].slot)])
  }

  /** The tuple part of `add_fn`. */
  method EmitRepack(fields: seq<TupleField>) returns (stores: seq<SetField>)
    ensures stores == Repacks(fields, |fields|)
  {
    stores := [];
    for i := 0 to |fields|
      invariant stores == Repacks(fields, i)
    {
      if fields[i].cilType == Void {
        continue;
      }
      stores := stores + [SetField(i + 1, fields[i].slot)];
    }
  }

  function Execute(stores: seq<SetField>, frame: seq<Value>, before: Items): Items {
    if stores == [] then before
    else
      var last := stores[|stores| - 1];
      var done := Execute(stores[..|stores| - 1], frame, before);
      if last.slot < |frame| then done[last.item := frame[last.slot]] else done
  }

  lemma {:induction false} ExecuteConcat(a: seq<SetField>, s: SetField, frame: seq<Value>, before: Items)
    requires s.slot < |frame|
    ensures Execute(a + [s], frame, before) == Execute(a, frame, before)[s.item := frame[s.slot]]
  {
    assert (a + [s])[..|a|] == a;
  }

  predicate InFrame(fields: seq<TupleField>, frame: seq<Value>) {
    forall i :: 0 <= i < |fields| ==> fields[i].slot < |frame|
  }

  /** One more field is one more store, unless the field is void. */
  lemma {:induction false} RepackStep(fields: seq<TupleField>, n: nat, frame: seq<Value>, before: Items)
    requires 0 < n <= |fields| && InFrame(fields, frame)
    ensures Execute(Repacks(fields, n), frame, before)
      == var done := Execute(Repacks(fields, n - 1), frame, before);
         if fields[n - 1].cilType == Void then done else done[n := frame[fields[n - 1].slot]]
  {
    hide Execute;
    var slot := fields[n - 1].slot;
    if fields[n - 1].cilType != Void {
      ExecuteConcat(Repacks(fields, n - 1), SetField(n, slot), frame, before);
    } else {
      assert Repacks(fields, n) == Repacks(fields, n - 1);
    }
  }

  lemma {:induction false} RepackSetsItem(fields: seq<TupleField>, n: nat, frame: seq<Value>, before: Items, i: nat)
    requires i < n <= |fields| && InFrame(fields, frame) && fields[i].cilType != Void
    ensures var after := Execute(Repacks(fields, n), frame, before);
      i + 1 in after && after[i + 1] == frame[fields[i].slot]
    decreases n
  {
    hide Execute, Repacks;
    RepackStep(fields, n, frame, before);
    if i < n - 1 {
      RepackSetsItem(fields, n - 1, frame, before, i);
    }
  }

  lemma {:induction false} RepackSetsOnly(fields: seq<TupleField>, n: nat, frame: seq<Value>, before: Items, item: nat)
    requires n <= |fields| && InFrame(fields, frame)
    requires item in Execute(Repacks(fields, n), frame, before)
    ensures item in before || (1 <= item <= n && fields[item - 1].cilType != Void)
    decreases n
  {
    if n > 0 {
      hide Execute, Repacks;
      RepackStep(fields, n, frame, before);
      if item != n || fields[n - 1].cilType == Void {
        RepackSetsOnly(fields, n - 1, frame, before, item);
      }
    }
  }

  lemma {:induction false} RepackKeeps(fields: seq<TupleField>, n: nat, frame: seq<Value>, before: Items, item: nat)
    requires n <= |fields| && InFrame(fields, frame) && item in before && !(1 <= item <= n)
    ensures var after := Execute(Repacks(fields, n), frame, before);
      item in after && after[item] == before[item]
    decreases n
  {
    if n > 0 {
      hide Execute, Repacks;
      RepackStep(fields, n, frame, before);
      RepackKeeps(fields, n - 1, frame, before, item);
    }
  }

  /** The stores set the item of every non-void field to its slot, and nothing else. */
  lemma {:induction false} RepackSets(fields: seq<TupleField>, n: nat, frame: seq<Value>, before: Items)
    requires n <= |fields| && InFrame(fields, frame)
    ensures var after := Execute(Repacks(fields, n), frame, before);
      && (forall i :: 0 <= i < n && fields[i].cilType != Void ==>
          i + 1 in after && after[i + 1] == frame[fields[i].slot])
      && (forall item :: item in after ==> item in before || (1 <= item <= n && fields[item - 1].cilType != Void))
      && (forall item :: item in before && !(1 <= item <= n) ==> item in after && after[item] == before[item])
  {
    hide Execute, Repacks;
    var after := Execute(Repacks(fields, n), frame, before);
    forall i | 0 <= i < n && fields[i].cilType != Void ensures i + 1 in after && after[i + 1] == frame[fields[i].slot] {
      RepackSetsItem(fields, n, frame, before, i);
    }
    forall item | item in after ensures item in before || (1 <= item <= n && fields[item - 1].cilType != Void) {
      RepackSetsOnly(fields, n, frame, before, item);
    }
    forall item | item in before && !(1 <= item <= n) ensures item in after && after[item] == before[item] {
      RepackKeeps(fields, n, frame, before, item);
    }
  }

  // ---- spreading and rebuilding ---------------------------------------------------------------

  function Upto(n: nat): (s: seq<nat>)
    ensures |s| == n && forall i :: 0 <= i < n ==> s[i] == i
  {
    seq(n, i => i)
  }

  function Slots(fields: seq<TupleField>): (s: seq<nat>)
    ensures |s| == |fields| && forall i :: 0 <= i < |s| ==> s[i] == fields[i].slot
  {
    seq(|fields|, i requires 0 <= i < |fields| => fields[i].slot)
  }

  /** The checks of both sides together fix the split: the callee's tuple starts right after the caller's
      prefix, and plain arguments, tuple fields and the caller location list every slot exactly once. */
  lemma {:induction false} SlotsAreCoveredOnce(p: Plan, args: seq<Operand>, spread: nat)
    requires PlanOk(p) && p.rustCall && !p.variadic && spread >= 1 && CallFits(p, args)
    requires RustCallTupleFields(p, Some(spread), SpreadElements(p, args)).Some?
    ensures var fields := RustCallTupleFields(p, Some(spread), SpreadElements(p, args)).value;
      && spread - 1 == |Prefix(p, args)|
      && Upto(spread - 1) + Slots(fields) + (if LocationSlot(p).Some? then [LocationSlot(p).value] else [])
         == Upto(|p.arguments|)
  {}

  /** The callee finds its tuple exactly when its spread argument is the one behind the caller's prefix. */
  lemma {:induction false} TupleFieldsExactly(p: Plan, args: seq<Operand>, spread: nat)
    requires PlanOk(p) && p.rustCall && !p.variadic && spread >= 1 && CallFits(p, args)
    ensures RustCallTupleFields(p, Some(spread), SpreadElements(p, args)).Some? <==> spread == |args|
    ensures RustCallTupleFields(p, None, SpreadElements(p, args)).None?
  {
    hide SlotOf;
  }

  /** A callable of another ABI spreads nothing. */
  lemma {:induction false} NothingSpread(p: Plan, spread: Option<nat>, elements: seq<CilType>)
    requires !p.rustCall && (spread.Some? ==> spread.value >= 1)
    ensures RustCallTupleFields(p, spread, elements) == if spread.None? then Some([]) else None
  {}

  /** A call whose last operand is `tuple`, and the frame it fills. */
  ghost predicate Spreads(p: Plan, args: seq<Operand>, location: Value, frame: seq<Value>, tuple: Tuple) {
    && p.rustCall && CallFits(p, args) && FrameHolds(p, args, location, frame)
    && args[|args| - 1].tuple == Some(tuple)
  }

  lemma {:induction false} FieldSlots(p: Plan, args: seq<Operand>, location: Value, frame: seq<Value>, tuple: Tuple,
                                      spread: nat)
    requires PlanOk(p) && !p.variadic && spread >= 1 && Spreads(p, args, location, frame, tuple)
    requires RustCallTupleFields(p, Some(spread), tuple.elements).Some?
    ensures var fields := RustCallTupleFields(p, Some(spread), tuple.elements).value;
      && |args| >= 1 && |fields| == |tuple.elements|
      && forall i :: 0 <= i < |fields| ==> fields[i] == TupleField(|args| - 1 + i, tuple.elements[i])
  {
    hide SlotOf, Upto, Slots;
    SlotsAreCoveredOnce(p, args, spread);
  }

  lemma {:induction false} FrameReaches(p: Plan, args: seq<Operand>, location: Value, frame: seq<Value>, tuple: Tuple)
    requires Spreads(p, args, location, frame, tuple)
    ensures 0 <= |args| - 1 <= |args| - 1 + |tuple.elements| <= |frame|
  {
    hide SlotOf;
  }

  /** Element `i` sits in its slot, counted from `first`. */
  predicate ItemArrives(tuple: Tuple, frame: seq<Value>, first: nat, i: nat) {
    first + i < |frame| && i + 1 in tuple.items && frame[first + i] == tuple.items[i + 1]
  }

  lemma {:induction false} RebuiltFromSlots(tuple: Tuple, fields: seq<TupleField>, frame: seq<Value>, first: nat,
                                            blank: Items)
    requires |fields| == |tuple.elements| && first + |fields| <= |frame|
    requires forall i :: 0 <= i < |fields| ==> fields[i] == TupleField(first + i, tuple.elements[i])
    requires forall i :: 0 <= i < |fields| && tuple.elements[i] != Void ==> ItemArrives(tuple, frame, first, i)
    ensures Rebuilds(tuple, Execute(Repacks(fields, |fields|), frame, blank), blank)
  {
    hide Execute, Repacks;
    RepackSets(fields, |fields|, frame, blank);
    forall i | 0 <= i < |fields| && tuple.elements[i] != Void
      ensures i + 1 in tuple.items && frame[fields[i].slot] == tuple.items[i + 1]
    {
      assert ItemArrives(tuple, frame, first, i);
    }
  }

  lemma {:induction false} SlotHoldsItem(p: Plan, args: seq<Operand>, location: Value, frame: seq<Value>,
                                         tuple: Tuple, i: nat)
    requires Spreads(p, args, location, frame, tuple) && TupleOk(tuple)
    requires i < |tuple.elements| && tuple.elements[i] != Void
    ensures |args| >= 1 && ItemArrives(tuple, frame, |args| - 1, i)
  {
    hide SlotOf;
    var k := |Prefix(p, args)| + i;
    assert frame[k] == ElementValue(tuple, k - |Prefix(p, args)|);
  }

  /** Items `rebuilt` over `blank` are those of the tuple, element by element. */
  ghost predicate Rebuilds(tuple: Tuple, rebuilt: Items, blank: Items) {
    && (forall i :: 0 <= i < |tuple.elements| && tuple.elements[i] != Void ==>
          i + 1 in rebuilt && i + 1 in tuple.items && rebuilt[i + 1] == tuple.items[i + 1])
    && (forall item :: item in rebuilt && item !in blank ==>
          1 <= item <= |tuple.elements| && tuple.elements[item - 1] != Void)
  }

  lemma {:induction false} RebuiltByCallee(p: Plan, args: seq<Operand>, location: Value, frame: seq<Value>,
                                           tuple: Tuple, spread: nat, blank: Items)
    requires PlanOk(p) && !p.variadic && spread >= 1 && Spreads(p, args, location, frame, tuple) && TupleOk(tuple)
    requires RustCallTupleFields(p, Some(spread), tuple.elements).Some?
    ensures var fields := RustCallTupleFields(p, Some(spread), tuple.elements).value;
      Rebuilds(tuple, Execute(Repacks(fields, |fields|), frame, blank), blank)
  {
    hide *;
    FieldSlots(p, args, location, frame, tuple, spread);
    FrameReaches(p, args, location, frame, tuple);
    forall i | 0 <= i < |tuple.elements| && tuple.elements[i] != Void
      ensures ItemArrives(tuple, frame, |args| - 1, i)
    {
      SlotHoldsItem(p, args, location, frame, tuple, i);
    }
    RebuiltFromSlots(tuple, RustCallTupleFields(p, Some(spread), tuple.elements).value, frame, |args| - 1, blank);
  }

  /** The callee rebuilds exactly the tuple the caller spread, element by element. */
  lemma {:induction false} RebuildUndoesSpread(p: Plan, args: seq<Operand>, location: Value, frame: seq<Value>,
                                               spread: nat, blank: Items)
    requires PlanOk(p) && p.rustCall && !p.variadic && spread >= 1 && CallFits(p, args)
    requires FrameHolds(p, args, location, frame)
    requires TupleOk(args[|args| - 1].tuple.value)
    requires RustCallTupleFields(p, Some(spread), SpreadElements(p, args)).Some?
    ensures var fields := RustCallTupleFields(p, Some(spread), SpreadElements(p, args)).value;
      Rebuilds(args[|args| - 1].tuple.value, Execute(Repacks(fields, |fields|), frame, blank), blank)
  {
    hide PlanOk, FrameHolds, TupleOk, RustCallTupleFields, Execute, Repacks, Rebuilds, LocationSlot, Trailing;
    RebuiltByCallee(p, args, location, frame, args[|args| - 1].tuple.value, spread, blank);
  }

  datatype Load = FromLocal(index: nat) | FromArgument(slot: nat)

  /** `local_get`: where the callee reads a MIR local. */
  function LocalGet(local: nat, spread: Option<nat>, declared: nat, argCount: nat): Load
    requires argCount <= declared
  {
    if spread == Some(local) then FromLocal(declared - argCount)
    else if local == 0 then FromLocal(0)
    else if local > argCount then FromLocal(local - argCount)
    else FromArgument(local - 1)
  }

  /** The rebuilt tuple has a CIL local of its own, behind the return place and the other locals, and
      every unspread argument is read from the slot its operand was passed in. */
  lemma {:induction false} CalleeReadsItsArguments(p: Plan, args: seq<Operand>, location: Value, frame: seq<Value>,
                                                   spread: nat, declared: nat)
    requires PlanOk(p) && p.rustCall && !p.variadic && CallFits(p, args) && FrameHolds(p, args, location, frame)
    requires 1 <= spread < declared
    requires RustCallTupleFields(p, Some(spread), SpreadElements(p, args)).Some?
    ensures forall local :: 1 <= local < spread ==>
      var load := LocalGet(local, Some(spread), declared, spread);
      load.FromArgument? && load.slot < |args| - 1 && frame[load.slot] == args[local - 1].value
    ensures forall local ::
      0 <= local < declared && local != spread && LocalGet(local, Some(spread), declared, spread).FromLocal? ==>
      LocalGet(local, Some(spread), declared, spread) != LocalGet(spread, Some(spread), declared, spread)
  {
    hide SlotOf;
    SlotsAreCoveredOnce(p, args, spread);
  }

  /** No two MIR locals share a CIL local or an argument slot, and both kinds of slot are in range: the
      return place, the locals that are no arguments, and behind them the rebuilt tuple. */
  lemma {:induction false} LocalsAreApart(a: nat, b: nat, spread: Option<nat>, declared: nat, argCount: nat)
    requires a < declared && b < declared && argCount < declared
    requires spread.Some? ==> 1 <= spread.value <= argCount
    ensures a != b ==> LocalGet(a, spread, declared, argCount) != LocalGet(b, spread, declared, argCount)
    ensures LocalGet(a, spread, declared, argCount).FromArgument? <==> 1 <= a <= argCount && spread != Some(a)
    ensures match LocalGet(a, spread, declared, argCount)
            case FromArgument(slot) => slot == a - 1
            case FromLocal(index) => index < declared - argCount + (if spread.Some? then 1 else 0)
  {}

  // ---- argument names -------------------------------------------------------------------------

  method Resize<T>(s: seq<T>, n: nat, fill: T) returns (r: seq<T>)
    ensures |r| == n
    ensures forall i :: 0 <= i < n ==> r[i] == if i < |s| then s[i] else fill
  {
    r := seq(n, i requires 0 <= i < n => if i < |s| then s[i] else fill);
  }

  /** `physical_argument_names`: one name a slot; plain arguments keep their MIR names, spread fields and
      the caller location have none. */
  method PhysicalArgumentNames(p: Plan, names: seq<Option<string>>, spread: Option<nat>, elements: seq<CilType>)
    returns (r: seq<Option<string>>)
    requires PlanOk(p) && (spread.Some? ==> spread.value >= 1)
    ensures |r| == |p.arguments|
    ensures forall i :: 0 <= i < |r| ==>
      r[i] == if i < |names| && i < |p.arguments| - Trailing(p) && (spread.Some? ==> i < spread.value - 1)
              then names[i] else None
  {
    r := names;
    if spread.Some? {
      var index := spread.value - 1;
      r := if index < |r| then r[..index] else r;
      r := Resize(r, index + |elements|, None);
    }
    var ordinary := |p.arguments| - Trailing(p);
    r := Resize(r, ordinary, None);
    if LocationSlot(p).Some? {
      r := r + [None];
    }
  }

  // ---- function pointers without a closure receiver -------------------------------------------

  function Without(inputs: seq<CilType>, slot: nat): seq<CilType>
    requires slot < |inputs|
  {
    inputs[..slot] + inputs[slot + 1..]
  }

  /** `bare_fn_pointer_signature`; none is a failed assertion. */
  function BareFnPointerSignature(p: Plan): Option<(Signature, seq<nat>)> {
    var receiver := ReceiverSlot(p);
    if receiver.None? then Some((SignatureOf(p), []))
    else if p.arguments[receiver.value].cilType != Void then None
    else Some((Signature(Without(Inputs(p.arguments), receiver.value), p.output), [receiver.value]))
  }

  /** `ignored_slots_for_fn_pointer`. */
  function IgnoredSlotsForFnPointer(p: Plan, target: Signature): Option<seq<nat>> {
    if SignatureOf(p) == target then Some([])
    else
      var receiver := ReceiverSlot(p);
      if receiver.None? || p.arguments[receiver.value].cilType != Void then None
      else if Without(Inputs(p.arguments), receiver.value) != target.inputs || p.output != target.output then None
      else Some([receiver.value])
  }

  /** The first `n` elements that are not at an ignored index. */
  function Retained<T>(s: seq<T>, ignored: seq<nat>, n: nat): (r: seq<T>)
    requires n <= |s|
    ensures |r| <= n
  {
    if n == 0 then [] else Retained(s, ignored, n - 1) + (if n - 1 in ignored then [] else [s[n - 1]])
  }

  /** The target slot that feeds a real slot: the number of retained slots before it. */
  function TargetSlot(full: seq<CilType>, ignored: seq<nat>, i: nat): Option<nat>
    requires i <= |full|
  {
    if i in ignored then None else Some(|Retained(full, ignored, i)|)
  }

  /** The slots an adapter may ignore: different ones, in range, all of them void. */
  ghost predicate Ignorable(full: seq<CilType>, ignored: seq<nat>) {
    Distinct(ignored) && forall j :: j in ignored ==> j < |full| && full[j] == Void
  }

  /** The assertions on the ignored slots. */
  method IgnoredAreFine(full: seq<CilType>, ignored: seq<nat>) returns (fine: bool)
    ensures fine <==> Ignorable(full, ignored)
  {
    var seen: set<nat> := {};
    for i := 0 to |ignored|
      invariant seen == set j | 0 <= j < i :: ignored[j]
      invariant forall j, k :: 0 <= j < k < i ==> ignored[j] != ignored[k]
      invariant forall j :: 0 <= j < i ==> ignored[j] < |full| && full[ignored[j]] == Void
    {
      if ignored[i] in seen {
        return false;
      }
      if ignored[i] >= |full| {
        assert ignored[i] in ignored;
        return false;
      }
      if full[ignored[i]] != Void {
        assert ignored[i] in ignored;
        return false;
      }
      seen := seen + {ignored[i]};
    }
    fine := true;
  }

  /** The slot map of an adapter from a method to a target signature: for every real slot the target
      slot it is loaded from, if any. None is a failed assertion. */
  method AdapterSlots(own: Signature, target: Signature, ignored: seq<nat>)
    returns (slotMap: Option<seq<Option<nat>>>)
    ensures slotMap.Some? <==>
      && own.output == target.output && Ignorable(own.inputs, ignored)
      && Retained(own.inputs, ignored, |own.inputs|) == target.inputs
    ensures slotMap.Some? ==> |slotMap.value| == |own.inputs|
    ensures slotMap.Some? ==>
      forall i :: 0 <= i < |own.inputs| ==> slotMap.value[i] == TargetSlot(own.inputs, ignored, i)
  {
    hide Distinct;
    var full := own.inputs;
    if own.output != target.output {
      return None;
    }
    var fine := IgnoredAreFine(full, ignored);
    if !fine {
      return None;
    }
    var next, slots: seq<Option<nat>> := 0, [];
    for i := 0 to |full|
      invariant |slots| == i && next == |Retained(full, ignored, i)| && Retained(full, ignored, i) <= target.inputs
      invariant forall j :: 0 <= j < i ==> slots[j] == TargetSlot(full, ignored, j)
    {
      if i in ignored {
        slots := slots + [None];
      } else {
        if next >= |target.inputs| || full[i] != target.inputs[next] {
          RetainedPrefix(full, ignored, i + 1);
          assert Retained(full, ignored, i + 1)[next] == full[i];
          return None;
        }
        slots := slots + [Some(next)];
        next := next + 1;
      }
    }
    if next != |target.inputs| {
      return None;
    }
    slotMap := Some(slots);
  }

  lemma {:induction false} RetainedPrefix<T>(s: seq<T>, ignored: seq<nat>, n: nat)
    requires n <= |s|
    ensures Retained(s, ignored, n) <= Retained(s, ignored, |s|)
    decreases |s| - n
  {
    if n < |s| {
      RetainedPrefix(s, ignored, n + 1);
    }
  }

  /** What the adapter passes on. */
  function Forwarded(slots: seq<Option<nat>>, frame: seq<Value>): (r: seq<Value>)
    ensures |r| == |slots|
    ensures forall i :: 0 <= i < |slots| ==>
      r[i] == if slots[i].Some? && slots[i].value < |frame| then frame[slots[i].value] else Uninit
  {
    seq(|slots|, i requires 0 <= i < |slots| =>
      if slots[i].Some? && slots[i].value < |frame| then frame[slots[i].value] else Uninit)
  }

  /** The first receiver slot holds a value, so that it cannot be dropped. */
  ghost predicate ReceiverIsKept(p: Plan) {
    exists i :: 0 <= i < |p.arguments| && p.arguments[i].kind == ClosureReceiver && p.arguments[i].cilType != Void
             && forall j :: 0 <= j < i ==> p.arguments[j].kind != ClosureReceiver
  }

  /** The two ways to a bare function pointer agree on the signature and on the slot they drop. A receiver
      that holds a value can be dropped by neither. */
  lemma {:induction false} BarePointerAgrees(p: Plan)
    ensures BareFnPointerSignature(p).None? <==> ReceiverIsKept(p)
    ensures BareFnPointerSignature(p).None? ==>
      forall target :: IgnoredSlotsForFnPointer(p, target).Some? <==> target == SignatureOf(p)
    ensures BareFnPointerSignature(p).Some? ==>
      var (bare, ignored) := BareFnPointerSignature(p).value;
      && (forall target :: IgnoredSlotsForFnPointer(p, target).Some? && target != SignatureOf(p)
           <==> target == bare && ignored != [])
      && IgnoredSlotsForFnPointer(p, bare) == Some(ignored)
      && IgnoredSlotsForFnPointer(p, SignatureOf(p)) == Some([])
  {
    var receiver := ReceiverSlot(p);
    if receiver.Some? && p.arguments[receiver.value].cilType == Void {
      assert |BareFnPointerSignature(p).value.0.inputs| != |p.arguments|;
    }
  }

  /** The slot map of an adapter for `full`. */
  ghost predicate IsSlotMap(full: seq<CilType>, ignored: seq<nat>, slots: seq<Option<nat>>) {
    |slots| == |full| && forall i :: 0 <= i < |full| ==> slots[i] == TargetSlot(full, ignored, i)
  }

  lemma {:induction false} ForwardedInOrder(full: seq<CilType>, ignored: seq<nat>, slots: seq<Option<nat>>,
                                            frame: seq<Value>, n: nat)
    requires IsSlotMap(full, ignored, slots) && n <= |full| && |frame| == |Retained(full, ignored, |full|)|
    ensures |Retained(full, ignored, n)| <= |frame|
    ensures Retained(Forwarded(slots, frame), ignored, n) == frame[..|Retained(full, ignored, n)|]
    decreases n
  {
    RetainedPrefix(full, ignored, n);
    if n > 0 {
      ForwardedInOrder(full, ignored, slots, frame, n - 1);
      assert slots[n - 1] == TargetSlot(full, ignored, n - 1);
    }
  }

  lemma {:induction false} RetainedAll<T>(s: seq<T>, n: nat)
    requires n <= |s|
    ensures Retained(s, [], n) == s[..n]
    decreases n
  {
    if n > 0 {
      RetainedAll(s, n - 1);
    }
  }

  lemma {:induction false} RetainedButOne<T>(s: seq<T>, slot: nat, n: nat)
    requires slot < |s| && n <= |s|
    ensures Retained(s, [slot], n) == if n <= slot then s[..n] else s[..slot] + s[slot + 1..n]
    decreases n
  {
    if n > 0 {
      var front := Retained(s, [slot], n - 1);
      RetainedButOne(s, slot, n - 1);
      assert Retained(s, [slot], n) == front + if n - 1 == slot then [] else [s[n - 1]];
      hide Retained;
      if n <= slot {
        assert s[..n] == s[..n - 1] + [s[n - 1]];
      } else if n - 1 == slot {
        assert s[slot + 1..n] == [];
      } else {
        assert s[slot + 1..n] == s[slot + 1..n - 1] + [s[n - 1]];
      }
    }
  }

  /** An adapter hands every retained real slot the argument of its target slot, in order, and every
      ignored slot an empty value. */
  lemma {:induction false} AdapterForwards(full: seq<CilType>, ignored: seq<nat>, slots: seq<Option<nat>>,
                                           frame: seq<Value>)
    requires IsSlotMap(full, ignored, slots) && |frame| == |Retained(full, ignored, |full|)|
    ensures Retained(Forwarded(slots, frame), ignored, |full|) == frame
    ensures forall i :: 0 <= i < |full| && i in ignored ==> Forwarded(slots, frame)[i] == Uninit
  {
    ForwardedInOrder(full, ignored, slots, frame, |full|);
  }

  lemma {:induction false} NothingIgnored(inputs: seq<CilType>)
    ensures Ignorable(inputs, []) && Retained(inputs, [], |inputs|) == inputs
  {
    hide Retained;
    RetainedAll(inputs, |inputs|);
    assert inputs[..|inputs|] == inputs;
  }

  lemma {:induction false} OneIgnored(inputs: seq<CilType>, slot: nat)
    requires slot < |inputs| && inputs[slot] == Void
    ensures Ignorable(inputs, [slot]) && Retained(inputs, [slot], |inputs|) == Without(inputs, slot)
  {
    hide Retained;
    RetainedButOne(inputs, slot, |inputs|);
    assert inputs[slot + 1..|inputs|] == inputs[slot + 1..];
  }

  lemma {:induction false} AcceptedIsIgnorable(p: Plan, target: Signature)
    requires IgnoredSlotsForFnPointer(p, target).Some?
    ensures p.output == target.output
    ensures var ignored := IgnoredSlotsForFnPointer(p, target).value;
      && |ignored| <= 1 && Ignorable(Inputs(p.arguments), ignored)
      && Retained(Inputs(p.arguments), ignored, |p.arguments|) == target.inputs
  {
    var ignored, inputs := IgnoredSlotsForFnPointer(p, target).value, Inputs(p.arguments);
    if ignored == [] {
      NothingIgnored(inputs);
      assert inputs == target.inputs;
    } else {
      var slot := ignored[0];
      assert ignored == [slot] && slot < |inputs| && inputs[slot] == Void;
      assert Without(inputs, slot) == target.inputs && p.output == target.output;
      hide *;
      OneIgnored(inputs, slot);
    }
  }

  lemma {:induction false} ForwardedAll(full: seq<CilType>, slots: seq<Option<nat>>, frame: seq<Value>)
    requires IsSlotMap(full, [], slots) && |frame| == |full|
    ensures Forwarded(slots, frame) == frame
  {
    forall i | 0 <= i < |full| ensures slots[i] == Some(i) {
      RetainedAll(full, i);
    }
  }

  lemma {:induction false} ForwardedButOne(full: seq<CilType>, slot: nat, slots: seq<Option<nat>>, frame: seq<Value>)
    requires slot < |full| && IsSlotMap(full, [slot], slots) && |frame| == |full| - 1
    ensures Forwarded(slots, frame) == frame[..slot] + [Uninit] + frame[slot..]
  {
    forall i | 0 <= i < |full|
      ensures slots[i] == if i == slot then None else Some(if i < slot then i else i - 1)
    {
      RetainedButOne(full, slot, i);
    }
  }

  /** An accepted coercion always has an adapter. It passes every argument on in order and puts an empty
      value in the place of the dropped receiver. */
  lemma {:induction false} AdapterDeliversArguments(p: Plan, target: Signature, slots: seq<Option<nat>>,
                                                    frame: seq<Value>)
    requires IgnoredSlotsForFnPointer(p, target).Some? && |frame| == |target.inputs|
    requires IsSlotMap(Inputs(p.arguments), IgnoredSlotsForFnPointer(p, target).value, slots)
    ensures var ignored, inputs := IgnoredSlotsForFnPointer(p, target).value, Inputs(p.arguments);
      && p.output == target.output && Ignorable(inputs, ignored)
      && Retained(inputs, ignored, |inputs|) == target.inputs
      && if ignored == [] then inputs == target.inputs && Forwarded(slots, frame) == frame
         else
           && ignored[0] < |inputs| && Without(inputs, ignored[0]) == target.inputs
           && Forwarded(slots, frame) == frame[..ignored[0]] + [Uninit] + frame[ignored[0]..]
  {
    hide SlotOf, TargetSlot, Retained, Ignorable;
    AcceptedIsIgnorable(p, target);
    var ignored, inputs := IgnoredSlotsForFnPointer(p, target).value, Inputs(p.arguments);
    if ignored == [] {
      ForwardedAll(inputs, slots, frame);
    } else {
      assert ignored == [ignored[0]];
      ForwardedButOne(inputs, ignored[0], slots, frame);
    }
  }
}
