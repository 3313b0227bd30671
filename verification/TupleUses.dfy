/** The use-based exemption of RustCall tuple locals from the GC-reference wall: three counters over
    the places of a MIR body decide which tuple locals are nothing but ABI packs. */
module TupleUses {
  import opened Wrappers

  type Local = nat

  const RETURN_PLACE: Local := 0

  datatype Projection = FieldOf(index: nat) | Deref | IndexBy(local: Local) | OtherProjection

  datatype Place = Place(local: Local, projection: seq<Projection>)

  datatype Access = CopyRead | MoveRead | Store | Borrow | CallResult | DropValue | OtherAccess

  datatype Operand = CopyOf(place: Place) | MoveOf(place: Place) | Constant

  datatype Occurrence = Occurrence(place: Place, access: Access)

  datatype Rvalue = TupleAggregate(operands: seq<Operand>) | OtherRvalue(places: seq<Occurrence>)

  datatype Statement = Assign(destination: Place, rvalue: Rvalue) | OtherStatement(places: seq<Occurrence>)

  datatype Terminator =
    | Call(rustCall: bool, callee: Operand, args: seq<Operand>, destination: Option<Place>)
    | Return
    | OtherTerminator(places: seq<Occurrence>)

  datatype Block = Block(statements: seq<Statement>, terminator: Option<Terminator>)

  /** A body with its spread argument, whether its own ABI is RustCall, and the locals whose type is a
      tuple of transient managed elements. */
  datatype Body = Body(blocks: seq<Block>, spread: Option<Local>, rustCallInstance: bool, transient: set<Local>)

  // ---- the places the visitor meets -----------------------------------------------------------

  /** A whole-tuple construction, the whole value as last operand of a RustCall, or anything else. */
  datatype Role = Definition | CallOperand | OtherUse

  datatype Use = Use(place: Place, access: Access, role: Role)

  function OperandUses(o: Operand, role: Role): seq<Use> {
    match o
    case CopyOf(p) => [Use(p, CopyRead, role)]
    case MoveOf(p) => [Use(p, MoveRead, role)]
    case Constant => []
  }

  function OperandsUses(os: seq<Operand>): seq<Use> {
    if os == [] then [] else OperandsUses(os[..|os| - 1]) + OperandUses(os[|os| - 1], OtherUse)
  }

  function OtherUses(places: seq<Occurrence>): seq<Use> {
    seq(|places|, i requires 0 <= i < |places| => Use(places[i].place, places[i].access, OtherUse))
  }

  function StatementUses(s: Statement): seq<Use> {
    match s
    case Assign(d, TupleAggregate(operands)) =>
      [Use(d, Store, if d.projection == [] then Definition else OtherUse)] + OperandsUses(operands)
    case Assign(d, OtherRvalue(places)) => [Use(d, Store, OtherUse)] + OtherUses(places)
    case OtherStatement(places) => OtherUses(places)
  }

  /** `operand_local`. */
  function OperandLocal(o: Operand): Option<Local> {
    match o
    case CopyOf(p) => if p.projection == [] then Some(p.local) else None
    case MoveOf(p) => if p.projection == [] then Some(p.local) else None
    case Constant => None
  }

  /** The last operand of a RustCall is handed over as a whole when it names a local, copied or moved. */
  function LastRole(rustCall: bool, o: Operand): Role {
    if rustCall && !o.Constant? && o.place.projection == [] then CallOperand else OtherUse
  }

  function ArgumentUses(rustCall: bool, args: seq<Operand>): seq<Use> {
    if args == [] then []
    else
      var last := args[|args| - 1];
      OperandsUses(args[..|args| - 1]) + OperandUses(last, LastRole(rustCall, last))
  }

  function TerminatorUses(t: Terminator): seq<Use> {
    match t
    case Call(rustCall, callee, args, destination) =>
      OperandUses(callee, OtherUse) + ArgumentUses(rustCall, args)
        + (if destination.Some? then [Use(destination.value, CallResult, OtherUse)] else [])
    case Return => []
    case OtherTerminator(places) => OtherUses(places)
  }

  function StatementsUses(ss: seq<Statement>): seq<Use> {
    if ss == [] then [] else StatementsUses(ss[..|ss| - 1]) + StatementUses(ss[|ss| - 1])
  }

  function BlockUses(b: Block): seq<Use> {
    StatementsUses(b.statements) + (if b.terminator.Some? then TerminatorUses(b.terminator.value) else [])
  }

  function Uses(blocks: seq<Block>): seq<Use> {
    if blocks == [] then [] else Uses(blocks[..|blocks| - 1]) + BlockUses(blocks[|blocks| - 1])
  }

  // ---- no place is missed, none is added ------------------------------------------------------

  /** What the visitor reports, without roles and order. */
  function Met(uses: seq<Use>): multiset<Occurrence> {
    if uses == [] then multiset{}
    else Met(uses[..|uses| - 1]) + multiset{Occurrence(uses[|uses| - 1].place, uses[|uses| - 1].access)}
  }

  function OperandOccurrences(o: Operand): multiset<Occurrence> {
    match o
    case CopyOf(p) => multiset{Occurrence(p, CopyRead)}
    case MoveOf(p) => multiset{Occurrence(p, MoveRead)}
    case Constant => multiset{}
  }

  function OperandsOccurrences(os: seq<Operand>): multiset<Occurrence> {
    if os == [] then multiset{} else OperandsOccurrences(os[..|os| - 1]) + OperandOccurrences(os[|os| - 1])
  }

  /** Every place of a statement: what it stores to, and what its right-hand side names. */
  function StatementOccurrences(s: Statement): multiset<Occurrence> {
    if s.OtherStatement? then multiset(s.places)
    else
      multiset{Occurrence(s.destination, Store)}
        + (if s.rvalue.TupleAggregate? then OperandsOccurrences(s.rvalue.operands) else multiset(s.rvalue.places))
  }

  function TerminatorOccurrences(t: Terminator): multiset<Occurrence> {
    if t.OtherTerminator? then multiset(t.places)
    else if t.Return? then multiset{}
    else
      OperandOccurrences(t.callee) + OperandsOccurrences(t.args)
        + (if t.destination.Some? then multiset{Occurrence(t.destination.value, CallResult)} else multiset{})
  }

  function StatementsOccurrences(ss: seq<Statement>): multiset<Occurrence> {
    if ss == [] then multiset{} else StatementsOccurrences(ss[..|ss| - 1]) + StatementOccurrences(ss[|ss| - 1])
  }

  /** Every place of a body, with its number of occurrences. */
  function BodyOccurrences(blocks: seq<Block>): multiset<Occurrence> {
    if blocks == [] then multiset{}
    else
      var last := blocks[|blocks| - 1];
      BodyOccurrences(blocks[..|blocks| - 1]) + StatementsOccurrences(last.statements)
        + (if last.terminator.Some? then TerminatorOccurrences(last.terminator.value) else multiset{})
  }

  lemma {:induction false} MetConcat(a: seq<Use>, b: seq<Use>)
    ensures Met(a + b) == Met(a) + Met(b)
  {
    if b == [] {
      assert a + b == a;
    } else {
      assert (a + b)[..|a + b| - 1] == a + b[..|b| - 1];
      MetConcat(a, b[..|b| - 1]);
    }
  }

  lemma {:induction false} MetOne(u: Use)
    ensures Met([u]) == multiset{Occurrence(u.place, u.access)}
  {
    assert [u][..0] == [];
  }

  lemma {:induction false} OperandMet(o: Operand, role: Role)
    ensures Met(OperandUses(o, role)) == OperandOccurrences(o)
  {
    if !o.Constant? {
      MetOne(OperandUses(o, role)[0]);
    }
  }

  lemma {:induction false} OperandsMet(os: seq<Operand>)
    ensures Met(OperandsUses(os)) == OperandsOccurrences(os)
  {
    if os != [] {
      var front, last := os[..|os| - 1], os[|os| - 1];
      OperandsMet(front);
      OperandMet(last, OtherUse);
      MetConcat(OperandsUses(front), OperandUses(last, OtherUse));
    }
  }

  lemma {:induction false} OthersMet(places: seq<Occurrence>)
    ensures Met(OtherUses(places)) == multiset(places)
  {
    if places != [] {
      var n := |places| - 1;
      OthersMet(places[..n]);
      assert OtherUses(places)[..n] == OtherUses(places[..n]);
      assert places == places[..n] + [places[n]];
    }
  }

  lemma {:induction false} StatementMet(s: Statement)
    ensures Met(StatementUses(s)) == StatementOccurrences(s)
  {
    hide Met, OperandsUses, OtherUses, OperandsOccurrences;
    match s
    case Assign(d, TupleAggregate(operands)) =>
      var first := Use(d, Store, if d.projection == [] then Definition else OtherUse);
      MetOne(first);
      OperandsMet(operands);
      MetConcat([first], OperandsUses(operands));
    case Assign(d, OtherRvalue(places)) =>
      MetOne(Use(d, Store, OtherUse));
      OthersMet(places);
      MetConcat([Use(d, Store, OtherUse)], OtherUses(places));
    case OtherStatement(places) => OthersMet(places);
  }

  lemma {:induction false} ArgumentsMet(rustCall: bool, args: seq<Operand>)
    ensures Met(ArgumentUses(rustCall, args)) == OperandsOccurrences(args)
  {
    hide OperandsUses;
    if args != [] {
      var front, last := args[..|args| - 1], args[|args| - 1];
      OperandsMet(front);
      OperandMet(last, LastRole(rustCall, last));
      MetConcat(OperandsUses(front), OperandUses(last, LastRole(rustCall, last)));
    }
  }

  lemma {:induction false} TerminatorMet(t: Terminator)
    ensures Met(TerminatorUses(t)) == TerminatorOccurrences(t)
  {
    match t
    case Call(rustCall, callee, args, destination) =>
      hide Met, ArgumentUses, OperandUses, OperandsOccurrences, OperandOccurrences;
      var result := if destination.Some? then [Use(destination.value, CallResult, OtherUse)] else [];
      OperandMet(callee, OtherUse);
      ArgumentsMet(rustCall, args);
      MetConcat(OperandUses(callee, OtherUse), ArgumentUses(rustCall, args));
      MetConcat(OperandUses(callee, OtherUse) + ArgumentUses(rustCall, args), result);
      MetNothing();
      if destination.Some? {
        MetOne(Use(destination.value, CallResult, OtherUse));
      }
    case Return =>
    case OtherTerminator(places) => OthersMet(places);
  }

  lemma {:induction false} MetNothing()
    ensures Met([]) == multiset{}
  {}

  lemma {:induction false} StatementsMet(ss: seq<Statement>)
    ensures Met(StatementsUses(ss)) == StatementsOccurrences(ss)
  {
    hide StatementUses, StatementOccurrences;
    if ss != [] {
      var front, last := ss[..|ss| - 1], ss[|ss| - 1];
      StatementsMet(front);
      StatementMet(last);
      MetConcat(StatementsUses(front), StatementUses(last));
    }
  }

  /** The visitor meets every place of the body, with the access it has there, as often as it occurs. */
  lemma {:induction false} UsesAreOccurrences(blocks: seq<Block>)
    ensures Met(Uses(blocks)) == BodyOccurrences(blocks)
  {
    hide StatementsUses, TerminatorUses, StatementsOccurrences, TerminatorOccurrences;
    if blocks != [] {
      var front, last := blocks[..|blocks| - 1], blocks[|blocks| - 1];
      UsesAreOccurrences(front);
      StatementsMet(last.statements);
      var tail := if last.terminator.Some? then TerminatorUses(last.terminator.value) else [];
      if last.terminator.Some? {
        TerminatorMet(last.terminator.value);
      }
      MetConcat(StatementsUses(last.statements), tail);
      MetConcat(Uses(front), BlockUses(last));
    }
  }

  // ---- what an exempted local may do ----------------------------------------------------------

  /** One whole-tuple construction, one RustCall operand, no other place anywhere in the body. */
  ghost predicate PackedOnce(uses: seq<Use>, l: Local) {
    exists i, j :: 0 <= i < |uses| && 0 <= j < |uses|
      && uses[i].place.local == l && uses[i].role == Definition
      && uses[j].place.local == l && uses[j].role == CallOperand
      && forall k :: 0 <= k < |uses| && uses[k].place.local == l ==> k == i || k == j
  }

  /** A single place, forwarding the whole value to a RustCall. */
  ghost predicate ForwardedOnce(uses: seq<Use>, l: Local) {
    exists j :: 0 <= j < |uses|
      && uses[j].place.local == l && uses[j].role == CallOperand
      && forall k :: 0 <= k < |uses| && uses[k].place.local == l ==> k == j
  }

  /** A read, by copy or by move, of one direct field. */
  ghost predicate FieldRead(u: Use) {
    |u.place.projection| == 1 && u.place.projection[0].FieldOf? && u.access in {CopyRead, MoveRead}
  }

  /** Only reads of direct fields, at least one. */
  ghost predicate ReadByField(uses: seq<Use>, l: Local) {
    && (exists k :: 0 <= k < |uses| && uses[k].place.local == l)
    && (forall k :: 0 <= k < |uses| && uses[k].place.local == l ==> FieldRead(uses[k]))
  }

  ghost predicate Exempt(body: Body, l: Local) {
    var uses := Uses(body.blocks);
    l in body.transient &&
    (PackedOnce(uses, l)
     || (body.spread == Some(l) && body.rustCallInstance && (ForwardedOnce(uses, l) || ReadByField(uses, l))))
  }

  // ---- counting -------------------------------------------------------------------------------

  function Count(uses: seq<Use>, l: Local, roles: set<Role>): nat {
    if uses == [] then 0
    else
      var last := uses[|uses| - 1];
      Count(uses[..|uses| - 1], l, roles) + (if last.place.local == l && last.role in roles then 1 else 0)
  }

  const AnyRole: set<Role> := {Definition, CallOperand, OtherUse}

  lemma {:induction false} CountConcat(a: seq<Use>, b: seq<Use>, l: Local, roles: set<Role>)
    ensures Count(a + b, l, roles) == Count(a, l, roles) + Count(b, l, roles)
  {
    if b == [] {
      assert a + b == a;
    } else {
      CountConcat(a, b[..|b| - 1], l, roles);
      assert (a + b)[..|a + b| - 1] == a + b[..|b| - 1];
    }
  }

  lemma {:induction false} CountSplits(uses: seq<Use>, l: Local)
    ensures Count(uses, l, AnyRole)
         == Count(uses, l, {Definition}) + Count(uses, l, {CallOperand}) + Count(uses, l, {OtherUse})
  {
    if uses != [] {
      CountSplits(uses[..|uses| - 1], l);
    }
  }

  ghost predicate Matches(u: Use, l: Local, roles: set<Role>) { u.place.local == l && u.role in roles }

  lemma {:induction false} CountZero(uses: seq<Use>, l: Local, roles: set<Role>)
    ensures Count(uses, l, roles) == 0 <==> forall k :: 0 <= k < |uses| ==> !Matches(uses[k], l, roles)
  {
    if uses != [] {
      var front, last := uses[..|uses| - 1], uses[|uses| - 1];
      CountZero(front, l, roles);
      assert forall k :: 0 <= k < |front| ==> front[k] == uses[k];
      if Matches(last, l, roles) {
        assert Matches(uses[|uses| - 1], l, roles);
      }
    }
  }

  ghost predicate OnlyAt(uses: seq<Use>, l: Local, roles: set<Role>, i: nat) {
    && i < |uses| && Matches(uses[i], l, roles)
    && forall k :: 0 <= k < |uses| && Matches(uses[k], l, roles) ==> k == i
  }

  lemma {:induction false} CountOne(uses: seq<Use>, l: Local, roles: set<Role>) returns (i: nat)
    ensures Count(uses, l, roles) == 1 ==> OnlyAt(uses, l, roles, i)
  {
    i := 0;
    if Count(uses, l, roles) == 1 {
      var front, last := uses[..|uses| - 1], uses[|uses| - 1];
      assert forall k :: 0 <= k < |front| ==> front[k] == uses[k];
      if Matches(last, l, roles) {
        CountZero(front, l, roles);
        i := |uses| - 1;
      } else {
        i := CountOne(front, l, roles);
      }
    }
  }

  lemma {:induction false} OnlyAtCounts(uses: seq<Use>, l: Local, roles: set<Role>, i: nat)
    requires OnlyAt(uses, l, roles, i)
    ensures Count(uses, l, roles) == 1
  {
    var front := uses[..|uses| - 1];
    assert forall k :: 0 <= k < |front| ==> front[k] == uses[k];
    if i == |uses| - 1 {
      forall k | 0 <= k < |front| ensures !Matches(front[k], l, roles) {
        assert front[k] == uses[k];
      }
      CountZero(front, l, roles);
    } else {
      assert !Matches(uses[|uses| - 1], l, roles);
      OnlyAtCounts(front, l, roles, i);
    }
  }

  lemma {:induction false} RoleIsOneOfThree(role: Role)
    ensures role == Definition || role == CallOperand || role == OtherUse
  {}

  /** The three counters say exactly that a local is packed once. */
  lemma {:induction false} CountersDecidePacked(uses: seq<Use>, l: Local)
    ensures Count(uses, l, {Definition}) == 1 && Count(uses, l, {CallOperand}) == 1 && Count(uses, l, AnyRole) == 2
       <==> PackedOnce(uses, l)
  {
    hide Count;
    CountSplits(uses, l);
    CountZero(uses, l, {OtherUse});
    var i := CountOne(uses, l, {Definition});
    var j := CountOne(uses, l, {CallOperand});
    if Count(uses, l, {Definition}) == 1 && Count(uses, l, {CallOperand}) == 1 && Count(uses, l, AnyRole) == 2 {
      forall k | 0 <= k < |uses| && uses[k].place.local == l ensures k == i || k == j {
        assert !Matches(uses[k], l, {OtherUse});
        RoleIsOneOfThree(uses[k].role);
        assert Matches(uses[k], l, {Definition}) || Matches(uses[k], l, {CallOperand});
      }
    }
    if PackedOnce(uses, l) {
      var x, y :| 0 <= x < |uses| && 0 <= y < |uses|
        && uses[x].place.local == l && uses[x].role == Definition
        && uses[y].place.local == l && uses[y].role == CallOperand
        && forall k :: 0 <= k < |uses| && uses[k].place.local == l ==> k == x || k == y;
      OnlyAtCounts(uses, l, {Definition}, x);
      OnlyAtCounts(uses, l, {CallOperand}, y);
    }
  }

  /** Likewise for a spread argument that is only forwarded. */
  lemma {:induction false} CountersDecideForwarded(uses: seq<Use>, l: Local)
    ensures Count(uses, l, {CallOperand}) == 1 && Count(uses, l, AnyRole) == 1 <==> ForwardedOnce(uses, l)
  {
    hide Count;
    CountSplits(uses, l);
    CountZero(uses, l, {OtherUse});
    CountZero(uses, l, {Definition});
    var j := CountOne(uses, l, {CallOperand});
    if Count(uses, l, {CallOperand}) == 1 && Count(uses, l, AnyRole) == 1 {
      forall k | 0 <= k < |uses| && uses[k].place.local == l ensures k == j {
        assert !Matches(uses[k], l, {OtherUse}) && !Matches(uses[k], l, {Definition});
        RoleIsOneOfThree(uses[k].role);
        assert Matches(uses[k], l, {CallOperand});
      }
    }
    if ForwardedOnce(uses, l) {
      var y :| 0 <= y < |uses| && uses[y].place.local == l && uses[y].role == CallOperand
        && forall k :: 0 <= k < |uses| && uses[k].place.local == l ==> k == y;
      OnlyAtCounts(uses, l, {CallOperand}, y);
    }
  }

  // ---- the scan -------------------------------------------------------------------------------

  type Counter = map<Local, nat>

  function At(c: Counter, l: Local): nat { if l in c then c[l] else 0 }

  function Bump(c: Counter, l: Local): (d: Counter)
    ensures forall m :: At(d, m) == At(c, m) + (if m == l then 1 else 0)
  {
    c[l := At(c, l) + 1]
  }

  lemma {:induction false} CountNext(uses: seq<Use>, i: nat, l: Local)
    requires i < |uses|
    ensures Count(uses[..i + 1], l, AnyRole)
         == Count(uses[..i], l, AnyRole) + (if l == uses[i].place.local then 1 else 0)
  {
    assert uses[..i + 1][..i] == uses[..i];
    RoleIsOneOfThree(uses[i].role);
  }

  /** `SemanticPlaceUseCounter` over the places of one statement or terminator. */
  method VisitPlaces(uses: seq<Use>, counts: Counter) returns (newCounts: Counter)
    ensures forall l :: At(newCounts, l) == At(counts, l) + Count(uses, l, AnyRole)
  {
    newCounts := counts;
    for i := 0 to |uses|
      invariant forall l :: At(newCounts, l) == At(counts, l) + Count(uses[..i], l, AnyRole)
    {
      forall l: Local ensures Count(uses[..i + 1], l, AnyRole)
                           == Count(uses[..i], l, AnyRole) + (if l == uses[i].place.local then 1 else 0)
      {
        CountNext(uses, i, l);
      }
      newCounts := Bump(newCounts, uses[i].place.local);
    }
    assert uses[..|uses|] == uses;
  }

  ghost predicate OnlyOther(uses: seq<Use>) { forall k :: 0 <= k < |uses| ==> uses[k].role == OtherUse }

  lemma {:induction false} OnlyOtherCounts(uses: seq<Use>, l: Local)
    requires OnlyOther(uses)
    ensures Count(uses, l, {Definition}) == 0 && Count(uses, l, {CallOperand}) == 0
  {
    CountZero(uses, l, {Definition});
    CountZero(uses, l, {CallOperand});
  }

  lemma {:induction false} OperandsAreOther(os: seq<Operand>)
    ensures OnlyOther(OperandsUses(os))
  {
    if os != [] {
      OperandsAreOther(os[..|os| - 1]);
    }
  }

  lemma {:induction false} CountOfOne(u: Use, l: Local, roles: set<Role>)
    ensures Count([u], l, roles) == if u.place.local == l && u.role in roles then 1 else 0
  {
    assert [u][..0] == [];
  }

  /** The local a statement defines as a whole tuple, if it does. */
  function DefinedTuple(s: Statement): Option<Local> {
    if s.Assign? && s.rvalue.TupleAggregate? && s.destination.projection == [] then Some(s.destination.local) else None
  }

  /** The local a terminator hands to a RustCall as its last operand, if it does. */
  function PassedTuple(t: Terminator): Option<Local> {
    if t.Call? && t.rustCall && t.args != [] then OperandLocal(t.args[|t.args| - 1]) else None
  }

  lemma {:induction false} StatementRoles(s: Statement, l: Local)
    ensures Count(StatementUses(s), l, {Definition}) == if DefinedTuple(s) == Some(l) then 1 else 0
    ensures Count(StatementUses(s), l, {CallOperand}) == 0
  {
    hide Count;
    match s
    case Assign(d, TupleAggregate(operands)) =>
      var head := Use(d, Store, if d.projection == [] then Definition else OtherUse);
      OperandsAreOther(operands);
      OnlyOtherCounts(OperandsUses(operands), l);
      CountConcat([head], OperandsUses(operands), l, {Definition});
      CountConcat([head], OperandsUses(operands), l, {CallOperand});
      CountOfOne(head, l, {Definition});
      CountOfOne(head, l, {CallOperand});
    case Assign(d, OtherRvalue(places)) =>
      OnlyOtherCounts(StatementUses(s), l);
    case OtherStatement(places) =>
      OnlyOtherCounts(StatementUses(s), l);
  }

  lemma {:induction false} ArgumentRoles(rustCall: bool, args: seq<Operand>, l: Local)
    requires args != []
    ensures Count(ArgumentUses(rustCall, args), l, {Definition}) == 0
    ensures Count(ArgumentUses(rustCall, args), l, {CallOperand})
         == if rustCall && OperandLocal(args[|args| - 1]) == Some(l) then 1 else 0
  {
    hide Count;
    var front, last := args[..|args| - 1], args[|args| - 1];
    OperandsAreOther(front);
    OnlyOtherCounts(OperandsUses(front), l);
    var tail := OperandUses(last, LastRole(rustCall, last));
    CountConcat(OperandsUses(front), tail, l, {Definition});
    CountConcat(OperandsUses(front), tail, l, {CallOperand});
    if last.Constant? {
      OnlyOtherCounts(tail, l);
    } else {
      CountOfOne(tail[0], l, {Definition});
      CountOfOne(tail[0], l, {CallOperand});
      assert tail == [tail[0]];
    }
  }

  lemma {:induction false} TerminatorRoles(t: Terminator, l: Local)
    ensures Count(TerminatorUses(t), l, {Definition}) == 0
    ensures Count(TerminatorUses(t), l, {CallOperand}) == if PassedTuple(t) == Some(l) then 1 else 0
  {
    hide Count, ArgumentUses;
    match t
    case Call(rustCall, callee, args, destination) =>
      var a, b := OperandUses(callee, OtherUse), ArgumentUses(rustCall, args);
      var c := if destination.Some? then [Use(destination.value, CallResult, OtherUse)] else [];
      OnlyOtherCounts(a, l);
      OnlyOtherCounts(c, l);
      NoArguments(rustCall);
      OnlyOtherCounts([], l);
      if args != [] {
        ArgumentRoles(rustCall, args, l);
      }
      CountConcat(a, b, l, {Definition});
      CountConcat(a, b, l, {CallOperand});
      CountConcat(a + b, c, l, {Definition});
      CountConcat(a + b, c, l, {CallOperand});
    case Return => OnlyOtherCounts([], l);
    case OtherTerminator(places) => OnlyOtherCounts(TerminatorUses(t), l);
  }

  lemma {:induction false} NoArguments(rustCall: bool)
    ensures ArgumentUses(rustCall, []) == []
  {}

  /** The three counters agree with the uses read so far. */
  ghost predicate Counted(body: Body, uses: seq<Use>, definitions: Counter, rustCallUses: Counter, counts: Counter) {
    forall l: Local ::
      && At(counts, l) == Count(uses, l, AnyRole)
      && At(definitions, l) == (if l in body.transient then Count(uses, l, {Definition}) else 0)
      && At(rustCallUses, l) == Count(uses, l, {CallOperand})
  }

  method ScanStatement(body: Body, s: Statement, ghost before: seq<Use>, definitions: Counter, rustCallUses: Counter,
                       counts: Counter)
    returns (newDefinitions: Counter, newCounts: Counter)
    requires Counted(body, before, definitions, rustCallUses, counts)
    ensures Counted(body, before + StatementUses(s), newDefinitions, rustCallUses, newCounts)
  {
    hide Count, StatementUses;
    newCounts := VisitPlaces(StatementUses(s), counts);
    newDefinitions := definitions;
    var defined := DefinedTuple(s);
    if defined.Some? && defined.value in body.transient {
      newDefinitions := Bump(definitions, defined.value);
    }
    forall l: Local
      ensures At(newCounts, l) == Count(before + StatementUses(s), l, AnyRole)
      ensures At(newDefinitions, l) == (if l in body.transient then Count(before + StatementUses(s), l,
          {Definition}) else 0)
      ensures At(rustCallUses, l) == Count(before + StatementUses(s), l, {CallOperand})
    {
      CountConcat(before, StatementUses(s), l, AnyRole);
      CountConcat(before, StatementUses(s), l, {Definition});
      CountConcat(before, StatementUses(s), l, {CallOperand});
      StatementRoles(s, l);
    }
  }

  method ScanTerminator(body: Body, t: Terminator, ghost before: seq<Use>, definitions: Counter, rustCallUses: Counter,
                        counts: Counter)
    returns (newRustCallUses: Counter, newCounts: Counter)
    requires Counted(body, before, definitions, rustCallUses, counts)
    ensures Counted(body, before + TerminatorUses(t), definitions, newRustCallUses, newCounts)
  {
    hide Count, TerminatorUses;
    newCounts := VisitPlaces(TerminatorUses(t), counts);
    newRustCallUses := rustCallUses;
    var passed := PassedTuple(t);
    if passed.Some? {
      newRustCallUses := Bump(rustCallUses, passed.value);
    }
    forall l: Local
      ensures At(newCounts, l) == Count(before + TerminatorUses(t), l, AnyRole)
      ensures At(definitions, l) == (if l in body.transient then Count(before + TerminatorUses(t), l,
          {Definition}) else 0)
      ensures At(newRustCallUses, l) == Count(before + TerminatorUses(t), l, {CallOperand})
    {
      CountConcat(before, TerminatorUses(t), l, AnyRole);
      CountConcat(before, TerminatorUses(t), l, {Definition});
      CountConcat(before, TerminatorUses(t), l, {CallOperand});
      TerminatorRoles(t, l);
    }
  }

  /** One block of the scan. */
  method ScanBlock(body: Body, b: Block, ghost before: seq<Use>, definitions: Counter, rustCallUses: Counter,
                   counts: Counter)
    returns (newDefinitions: Counter, newRustCallUses: Counter, newCounts: Counter)
    requires Counted(body, before, definitions, rustCallUses, counts)
    ensures Counted(body, before + BlockUses(b), newDefinitions, newRustCallUses, newCounts)
  {
    hide Counted, StatementUses, TerminatorUses;
    newDefinitions, newRustCallUses, newCounts := definitions, rustCallUses, counts;
    assert before + StatementsUses([]) == before;
    for i := 0 to |b.statements|
      invariant Counted(body, before + StatementsUses(b.statements[..i]), newDefinitions, newRustCallUses, newCounts)
    {
      ghost var sofar := before + StatementsUses(b.statements[..i]);
      assert b.statements[..i + 1][..i] == b.statements[..i];
      assert before + StatementsUses(b.statements[..i + 1]) == sofar + StatementUses(b.statements[i]);
      newDefinitions, newCounts := ScanStatement(body, b.statements[i], sofar, newDefinitions, newRustCallUses,
          newCounts);
    }
    assert b.statements[..|b.statements|] == b.statements;
    ghost var sofar := before + StatementsUses(b.statements);
    if b.terminator.Some? {
      newRustCallUses, newCounts :=
        ScanTerminator(body, b.terminator.value, sofar, newDefinitions, newRustCallUses, newCounts);
      assert before + BlockUses(b) == sofar + TerminatorUses(b.terminator.value);
    } else {
      assert before + BlockUses(b) == sofar;
    }
  }

  method ScanBody(body: Body) returns (definitions: Counter, rustCallUses: Counter, counts: Counter)
    ensures Counted(body, Uses(body.blocks), definitions, rustCallUses, counts)
  {
    definitions, rustCallUses, counts := map[], map[], map[];
    for i := 0 to |body.blocks|
      invariant Counted(body, Uses(body.blocks[..i]), definitions, rustCallUses, counts)
    {
      assert body.blocks[..i + 1][..i] == body.blocks[..i];
      definitions, rustCallUses, counts :=
        ScanBlock(body, body.blocks[i], Uses(body.blocks[..i]), definitions, rustCallUses, counts);
    }
    assert body.blocks[..|body.blocks|] == body.blocks;
  }

  /** `RustCallSpreadUseProof` over one block's places. */
  method ProveSpreadUses(uses: seq<Use>, spread: Local) returns (sawFieldRead: bool, valid: bool)
    ensures valid && sawFieldRead <==> ReadByField(uses, spread)
  {
    sawFieldRead, valid := false, true;
    for k := 0 to |uses|
      invariant valid <==> forall j :: 0 <= j < k && uses[j].place.local == spread ==> FieldRead(uses[j])
      invariant sawFieldRead <==> exists j :: 0 <= j < k && uses[j].place.local == spread && FieldRead(uses[j])
    {
      if uses[k].place.local == spread {
        var place, access := uses[k].place, uses[k].access;
        if |place.projection| == 1 && place.projection[0].FieldOf? && (access.CopyRead? || access.MoveRead?) {
          sawFieldRead := true;
        } else {
          valid := false;
        }
      }
    }
  }

  /** `transient_rust_call_tuple_locals`: exactly the exempt locals are proven. */
  method TransientRustCallTupleLocals(body: Body) returns (proven: set<Local>)
    ensures forall l :: l in proven <==> Exempt(body, l)
  {
    hide PackedOnce, ForwardedOnce, ReadByField, Count, Uses;
    var definitions, rustCallUses, counts := ScanBody(body);
    var uses := Uses(body.blocks);
    proven := set l | l in definitions && definitions[l] == 1 && At(rustCallUses, l) == 1 && At(counts, l) == 2;
    forall l: Local ensures l in proven <==> l in body.transient && PackedOnce(uses, l) {
      CountersDecidePacked(uses, l);
      assert At(definitions, l) == (if l in body.transient then Count(uses, l, {Definition}) else 0);
    }
    if body.spread.Some? && body.rustCallInstance && body.spread.value in body.transient {
      var spread := body.spread.value;
      var sawFieldRead, valid := ProveSpreadUses(uses, spread);
      CountersDecideForwarded(uses, spread);
      if (At(rustCallUses, spread) == 1 && At(counts, spread) == 1) || (valid && sawFieldRead) {
        proven := proven + {spread};
      }
    }
  }

  // ---- the implicit read of the return place --------------------------------------------------

  /** `return` moves the return place out of the body: one read a return, reported by no place visit. */
  function ImplicitUses(blocks: seq<Block>): seq<Use> {
    if blocks == [] then []
    else
      ImplicitUses(blocks[..|blocks| - 1])
        + (if blocks[|blocks| - 1].terminator == Some(Return)
           then [Use(Place(RETURN_PLACE, []), MoveRead, OtherUse)] else [])
  }

  /** Every use of the body's locals. */
  function AllUses(body: Body): seq<Use> { Uses(body.blocks) + ImplicitUses(body.blocks) }

  /** The local is the return place of a body that returns. */
  ghost predicate IsReturned(body: Body, l: Local) {
    l == RETURN_PLACE && exists b :: b in body.blocks && b.terminator == Some(Return)
  }

  /** A local is only stored as a whole tuple and passed to a RustCall. */
  ghost predicate NeverEscapes(body: Body, l: Local) {
    forall u :: u in AllUses(body) && u.place.local == l ==>
        (u.role == Definition && u.access == Store) || u.role == CallOperand
  }

  lemma {:induction false} ImplicitUsesAre(blocks: seq<Block>)
    ensures forall u :: u in ImplicitUses(blocks) ==> u == Use(Place(RETURN_PLACE, []), MoveRead, OtherUse)
    ensures ImplicitUses(blocks) != [] <==> exists b :: b in blocks && b.terminator == Some(Return)
  {
    if blocks != [] {
      var front, last := blocks[..|blocks| - 1], blocks[|blocks| - 1];
      ImplicitUsesAre(front);
      assert forall b :: b in blocks <==> b in front || b == last;
    }
  }

  lemma {:induction false} DefinitionsAreStores(blocks: seq<Block>, u: Use)
    requires u in Uses(blocks) && u.role == Definition
    ensures u.access == Store
  {
    var last := blocks[|blocks| - 1];
    if u in BlockUses(last) {
      if u in StatementsUses(last.statements) {
        StatementDefinitions(last.statements, u);
      } else {
        TerminatorHasNoDefinition(last.terminator.value, u);
      }
    } else {
      DefinitionsAreStores(blocks[..|blocks| - 1], u);
    }
  }

  lemma {:induction false} StatementDefinitions(ss: seq<Statement>, u: Use)
    requires u in StatementsUses(ss) && u.role == Definition
    ensures u.access == Store
  {
    var last := ss[|ss| - 1];
    if u in StatementUses(last) {
      if last.Assign? && last.rvalue.TupleAggregate? {
        OperandsAreOther(last.rvalue.operands);
      }
    } else {
      StatementDefinitions(ss[..|ss| - 1], u);
    }
  }

  lemma {:induction false} ArgumentsHaveNoDefinition(rustCall: bool, args: seq<Operand>, u: Use)
    requires u in ArgumentUses(rustCall, args)
    ensures u.role != Definition
  {
    var front := args[..|args| - 1];
    hide OperandsUses;
    OperandsAreOther(front);
    if u in OperandsUses(front) {
      var k :| 0 <= k < |OperandsUses(front)| && OperandsUses(front)[k] == u;
    }
  }

  lemma {:induction false} TerminatorHasNoDefinition(t: Terminator, u: Use)
    requires u in TerminatorUses(t)
    ensures u.role != Definition
  {
    hide ArgumentUses;
    if t.Call? && u in ArgumentUses(t.rustCall, t.args) {
      ArgumentsHaveNoDefinition(t.rustCall, t.args, u);
    }
  }

  lemma {:induction false} PackedAmongAll(seen: seq<Use>, implicit: seq<Use>, l: Local)
    requires PackedOnce(seen, l)
    requires forall u :: u in implicit ==> u.role == OtherUse
    ensures PackedOnce(seen + implicit, l) <==> forall u :: u in implicit ==> u.place.local != l
  {
    var all := seen + implicit;
    assert forall k :: 0 <= k < |implicit| ==> all[|seen| + k] == implicit[k];
    if forall u :: u in implicit ==> u.place.local != l {
      var i, j :| 0 <= i < |seen| && 0 <= j < |seen|
        && seen[i].place.local == l && seen[i].role == Definition
        && seen[j].place.local == l && seen[j].role == CallOperand
        && forall k :: 0 <= k < |seen| && seen[k].place.local == l ==> k == i || k == j;
      assert all[i] == seen[i] && all[j] == seen[j];
    } else {
      var u :| u in implicit && u.place.local == l;
      var k :| 0 <= k < |implicit| && implicit[k] == u;
      assert all[|seen| + k] == u;
    }
  }

  /** Counted over all uses, a packed local is still packed once, and never escapes, exactly when the body
      does not return it. */
  lemma {:induction false} PackedLocalNeverEscapesExactly(body: Body, l: Local)
    requires PackedOnce(Uses(body.blocks), l)
    ensures PackedOnce(AllUses(body), l) <==> !IsReturned(body, l)
    ensures NeverEscapes(body, l) <==> !IsReturned(body, l)
  {
    hide Uses, ImplicitUses;
    var seen, implicit := Uses(body.blocks), ImplicitUses(body.blocks);
    ImplicitUsesAre(body.blocks);
    PackedAmongAll(seen, implicit, l);
    assert implicit != [] ==> implicit[0] in implicit && implicit[0] in AllUses(body);
    forall u | u in seen && u.place.local == l
      ensures (u.role == Definition && u.access == Store) || u.role == CallOperand
    {
      if u.role == Definition {
        DefinitionsAreStores(body.blocks, u);
      }
    }
  }

  const Packed: Place := Place(RETURN_PLACE, [])

  function PackedCall(callee: Operand): Terminator {
    Call(true, callee, [CopyOf(Packed)], Some(Place(1, [])))
  }

  /** Packs a tuple into the return place, copies it into a RustCall, and returns. */
  function ReturnedTuple(callee: Operand): Body {
    Body([Block([Assign(Packed, TupleAggregate([Constant]))], Some(PackedCall(callee))), Block([], Some(Return))],
         None, false, {RETURN_PLACE})
  }

  lemma {:induction false} PackedCallUses(callee: Operand)
    requires callee.Constant?
    ensures TerminatorUses(PackedCall(callee))
         == [Use(Packed, CopyRead, CallOperand), Use(Place(1, []), CallResult, OtherUse)]
  {
    assert [CopyOf(Packed)][..0] == [];
  }

  lemma {:induction false} PackUses()
    ensures StatementsUses([Assign(Packed, TupleAggregate([Constant]))]) == [Use(Packed, Store, Definition)]
  {
    var s := Assign(Packed, TupleAggregate([Constant]));
    assert [Constant][..0] == [] && [s][..0] == [];
    assert StatementUses(s) == [Use(Packed, Store, Definition)];
  }

  lemma {:induction false} ReturnUses()
    ensures BlockUses(Block([], Some(Return))) == []
  {}

  lemma {:induction false} ReturnedTupleUses(callee: Operand)
    requires callee.Constant?
    ensures Uses(ReturnedTuple(callee).blocks)
         == [Use(Packed, Store, Definition), Use(Packed, CopyRead, CallOperand),
             Use(Place(1, []), CallResult, OtherUse)]
  {
    hide PackedCall, TerminatorUses, StatementsUses;
    PackedCallUses(callee);
    PackUses();
    var first, second := ReturnedTuple(callee).blocks[0], ReturnedTuple(callee).blocks[1];
    assert BlockUses(first) == [Use(Packed, Store, Definition), Use(Packed, CopyRead, CallOperand),
                                Use(Place(1, []), CallResult, OtherUse)];
    ReturnUses();
    hide BlockUses;
    assert ReturnedTuple(callee).blocks == [first, second];
    assert [first, second][..1] == [first] && [first][..0] == [];
    assert Uses([first]) == BlockUses(first);
    assert Uses([first, second]) == Uses([first]) + BlockUses(second);
  }

  /** The exemption does meet that case: a returned tuple that is also copied into a RustCall. */
  lemma {:induction false} ReturnedTupleIsExempt(callee: Operand)
    requires callee.Constant?
    ensures Exempt(ReturnedTuple(callee), RETURN_PLACE) && !NeverEscapes(ReturnedTuple(callee), RETURN_PLACE)
  {
    hide Uses;
    ReturnedTupleUses(callee);
    var body := ReturnedTuple(callee);
    var uses := Uses(body.blocks);
    assert uses[0].role == Definition && uses[1].role == CallOperand && uses[2].place.local == 1;
    assert PackedOnce(uses, RETURN_PLACE);
    assert body.blocks[1] in body.blocks && body.blocks[1].terminator == Some(Return);
    PackedLocalNeverEscapesExactly(body, RETURN_PLACE);
  }
}
