/** The GC-reference wall: a depth-first search for a managed value nested in a type, over a finite
    graph of interned types that may be cyclic. Layout and trait queries are the graph's data. */
module ManagedStorage {
  import opened Finite
  import opened Wrappers

  datatype Kind = NakedReference | ManagedByRef | OpaqueManagedValue

  type Ty = nat

  datatype Shape =
    | Adt(fields: seq<Ty>, transparent: bool, ownsGenericStorage: bool, typeArgs: seq<Ty>)
    | Closure(upvars: seq<Ty>)
    | Coroutine(upvars: seq<Ty>, states: seq<seq<Ty>>)
    | Tuple(elements: seq<Ty>)
    | ArrayOrSlice(element: Ty)
    | Ref(pointee: Ty)
    | Pattern(base: Ty)
    | UnsafeBinder(inner: Ty)
    | Unresolved
    | Plain

  /** What the compiler knows of one type: the storage capability, its direct managed kind, whether it
      is zero-sized, and its shape. */
  datatype Info = Info(nativeStorageSafe: bool, direct: Option<Kind>, zeroSized: bool, shape: Shape)

  type Graph = seq<Info>

  datatype Label = FieldLabel(i: nat) | OwnedLabel(i: nat) | CaptureLabel(i: nat) | StateLabel(variant: nat, i: nat)
                 | TupleLabel(i: nat) | ElementLabel | ReferentLabel

  datatype Violation = Violation(kind: Kind, path: seq<Label>)

  /** A nested type with the path suffix it is reached by, if any. */
  datatype Edge = Edge(target: Ty, suffix: Option<Label>)

  // ---- the nested types of a shape, in the order they are visited -----------------------------

  function Labelled(tys: seq<Ty>, mark: nat -> Label): (edges: seq<Edge>)
    ensures |edges| == |tys|
    ensures forall i :: 0 <= i < |tys| ==> edges[i] == Edge(tys[i], Some(mark(i)))
  {
    seq(|tys|, i requires 0 <= i < |tys| => Edge(tys[i], Some(mark(i))))
  }

  function StateEdges(states: seq<seq<Ty>>, n: nat): seq<Edge>
    requires n <= |states|
  {
    if n == 0 then [] else StateEdges(states, n - 1) + Labelled(states[n - 1], (i: nat) => StateLabel(n - 1, i))
  }

  function Edges(shape: Shape): seq<Edge> {
    match shape
    case Adt(fields, _, owns, typeArgs) =>
      Labelled(fields, (i: nat) => FieldLabel(i)) + (if owns then Labelled(typeArgs, (i: nat) => OwnedLabel(i)) else [])
    case Closure(upvars) => Labelled(upvars, (i: nat) => CaptureLabel(i))
    case Coroutine(upvars, states) => Labelled(upvars, (i: nat) => CaptureLabel(i)) + StateEdges(states, |states|)
    case Tuple(elements) => Labelled(elements, (i: nat) => TupleLabel(i))
    case ArrayOrSlice(element) => [Edge(element, Some(ElementLabel))]
    case Ref(pointee) => [Edge(pointee, Some(ReferentLabel))]
    case Pattern(base) => [Edge(base, None)]
    case UnsafeBinder(inner) => [Edge(inner, None)]
    case Unresolved => []
    case Plain => []
  }

  // ---- the specification ----------------------------------------------------------------------

  /** `t` is number `i` of the list. */
  predicate IsAt(tys: seq<Ty>, i: nat, t: Ty) { i < |tys| && tys[i] == t }

  /** A value of this shape stores or refers to a `t`, under this label: a field; a generic argument of an
      owner of generic storage; a capture; a field of a coroutine state; a tuple element; the element of
      an array or slice; a referent; and, without a label, what a pattern or a binder is about. */
  predicate Nested(shape: Shape, t: Ty, suffix: Option<Label>) {
    match suffix
    case None => (shape.Pattern? && shape.base == t) || (shape.UnsafeBinder? && shape.inner == t)
    case Some(FieldLabel(i)) => shape.Adt? && IsAt(shape.fields, i, t)
    case Some(OwnedLabel(i)) => shape.Adt? && shape.ownsGenericStorage && IsAt(shape.typeArgs, i, t)
    case Some(CaptureLabel(i)) => (shape.Closure? || shape.Coroutine?) && IsAt(shape.upvars, i, t)
    case Some(StateLabel(v, i)) => shape.Coroutine? && v < |shape.states| && IsAt(shape.states[v], i, t)
    case Some(TupleLabel(i)) => shape.Tuple? && IsAt(shape.elements, i, t)
    case Some(ElementLabel) => shape.ArrayOrSlice? && shape.element == t
    case Some(ReferentLabel) => shape.Ref? && shape.pointee == t
  }

  lemma {:induction false} LabelledAre(tys: seq<Ty>, mark: nat -> Label, e: Edge)
    ensures e in Labelled(tys, mark) <==> exists i: nat :: IsAt(tys, i, e.target) && e.suffix == Some(mark(i))
  {
    if e in Labelled(tys, mark) {
      var i :| 0 <= i < |tys| && Labelled(tys, mark)[i] == e;
      assert IsAt(tys, i, e.target);
    }
    if i: nat :| IsAt(tys, i, e.target) && e.suffix == Some(mark(i)) {
      assert Labelled(tys, mark)[i] == e;
    }
  }

  lemma {:induction false} StateEdgesAre(states: seq<seq<Ty>>, n: nat, e: Edge)
    requires n <= |states|
    ensures e in StateEdges(states, n) <==>
      e.suffix.Some? && e.suffix.value.StateLabel? && e.suffix.value.variant < n
      && IsAt(states[e.suffix.value.variant], e.suffix.value.i, e.target)
  {
    if n > 0 {
      StateEdgesAre(states, n - 1, e);
      LabelledAre(states[n - 1], (i: nat) => StateLabel(n - 1, i), e);
    }
  }

  lemma {:induction false} AdtEdges(shape: Shape, e: Edge)
    requires shape.Adt?
    ensures e in Edges(shape) <==> Nested(shape, e.target, e.suffix)
  {
    hide IsAt;
    LabelledAre(shape.fields, (i: nat) => FieldLabel(i), e);
    LabelledAre(shape.typeArgs, (i: nat) => OwnedLabel(i), e);
  }

  lemma {:induction false} CoroutineEdges(shape: Shape, e: Edge)
    requires shape.Coroutine?
    ensures e in Edges(shape) <==> Nested(shape, e.target, e.suffix)
  {
    hide IsAt, StateEdges;
    LabelledAre(shape.upvars, (i: nat) => CaptureLabel(i), e);
    StateEdgesAre(shape.states, |shape.states|, e);
  }

  /** The visit meets exactly the nested types, each with its label. */
  lemma {:induction false} EdgesAreNested(shape: Shape, e: Edge)
    ensures e in Edges(shape) <==> Nested(shape, e.target, e.suffix)
  {
    match shape
    case Adt(fields, _, owns, typeArgs) => AdtEdges(shape, e);
    case Closure(upvars) => LabelledAre(upvars, (i: nat) => CaptureLabel(i), e);
    case Coroutine(upvars, states) => CoroutineEdges(shape, e);
    case Tuple(elements) => LabelledAre(elements, (i: nat) => TupleLabel(i), e);
    case _ =>
  }

  ghost predicate GraphOk(g: Graph) {
    forall t, e: Edge :: 0 <= t < |g| && Nested(g[t].shape, e.target, e.suffix) ==> e.target < |g|
  }

  /** A managed value, or a type whose representation is unknown, that no capability or zero size
      excuses. */
  predicate Violating(x: Info) {
    !x.nativeStorageSafe && (x.direct.Some? || (!x.zeroSized && x.shape.Unresolved?))
  }

  function ViolationKind(x: Info): Kind { if x.direct.Some? then x.direct.value else OpaqueManagedValue }

  /** A type whose nested types are storage of its own. */
  predicate Transparent(x: Info) {
    !x.nativeStorageSafe && x.direct.None? && !x.zeroSized && !x.shape.Unresolved?
  }

  /** `walk` leads from `t` to `leaf` through types that are searched. */
  ghost predicate IsWalk(g: Graph, t: Ty, walk: seq<Edge>, leaf: Ty)
    decreases |walk|
  {
    if walk == [] then t == leaf
    else
      t < |g| && Transparent(g[t]) && Nested(g[t].shape, walk[0].target, walk[0].suffix)
        && IsWalk(g, walk[0].target, walk[1..], leaf)
  }

  function Labels(walk: seq<Edge>): seq<Label> {
    if walk == [] then []
    else (if walk[0].suffix.Some? then [walk[0].suffix.value] else []) + Labels(walk[1..])
  }

  /** Some violating type is nested in `t`. */
  ghost predicate ReachesViolation(g: Graph, t: Ty) {
    exists walk: seq<Edge>, leaf: Ty :: leaf < |g| && Violating(g[leaf]) && IsWalk(g, t, walk, leaf)
  }

  /** `v` names a real violating type and the path that leads to it. */
  ghost predicate Witnesses(g: Graph, t: Ty, walk: seq<Edge>, leaf: Ty, path: seq<Label>, v: Violation) {
    leaf < |g| && Violating(g[leaf]) && IsWalk(g, t, walk, leaf)
      && v == Violation(ViolationKind(g[leaf]), path + Labels(walk))
  }

  // ---- the search -----------------------------------------------------------------------------

  /** `t` itself is no violation and, if it is searched, the search has entered it. */
  ghost predicate Passed(g: Graph, t: Ty, seen: set<Ty>) {
    t < |g| && !Violating(g[t]) && (Transparent(g[t]) ==> t in seen)
  }

  /** Everything nested directly in `t` is passed. */
  ghost predicate Cleared(g: Graph, t: Ty, seen: set<Ty>) {
    t < |g| && forall e: Edge :: Nested(g[t].shape, e.target, e.suffix) ==> Passed(g, e.target, seen)
  }

  /** The types entered since `before` are cleared: the shared `seen` set forgets nothing. */
  ghost predicate Explored(g: Graph, before: set<Ty>, seen: set<Ty>) {
    before <= seen && forall t :: t in seen - before ==> Cleared(g, t, seen)
  }

  /** Only searched types are entered. */
  ghost predicate InGraph(g: Graph, seen: set<Ty>) { forall t :: t in seen ==> t < |g| && Transparent(g[t]) }

  lemma {:induction false} PassedLater(g: Graph, t: Ty, seen: set<Ty>, later: set<Ty>)
    requires seen <= later
    ensures Passed(g, t, seen) ==> Passed(g, t, later)
    ensures Cleared(g, t, seen) ==> Cleared(g, t, later)
  {}

  lemma {:induction false} ExploredTrans(g: Graph, a: set<Ty>, b: set<Ty>, c: set<Ty>)
    requires Explored(g, a, b) && Explored(g, b, c)
    ensures Explored(g, a, c)
  {
    hide Cleared;
    forall t | t in c - a ensures Cleared(g, t, c) {
      if t in b {
        PassedLater(g, t, b, c);
      }
    }
  }

  lemma {:induction false} SeenIsSmall(g: Graph, seen: set<Ty>)
    requires InGraph(g, seen)
    ensures |seen| <= |g|
  {
    IndexSetSize(seen, |g|);
  }

  /** `storage_violation_inner`. */
  method Search(g: Graph, ty: Ty, path: seq<Label>, seen: set<Ty>)
    returns (violation: Option<Violation>, newSeen: set<Ty>, ghost walk: seq<Edge>, ghost leaf: Ty)
    requires GraphOk(g) && ty < |g| && InGraph(g, seen)
    ensures violation.None? ==> InGraph(g, newSeen) && Explored(g, seen, newSeen) && Passed(g, ty, newSeen)
    ensures violation.Some? ==> Witnesses(g, ty, walk, leaf, path, violation.value)
    decreases |g| - |seen|, 1
  {
    walk, leaf := [], ty;
    newSeen := seen;
    SeenIsSmall(g, seen);
    var x := g[ty];
    if x.nativeStorageSafe {
      return None, newSeen, walk, leaf;
    }
    if x.direct.Some? {
      return Some(Violation(x.direct.value, path)), newSeen, walk, leaf;
    }
    if x.zeroSized {
      return None, newSeen, walk, leaf;
    }
    if ty in seen {
      return None, newSeen, walk, leaf;
    }
    if x.shape.Unresolved? {
      return Some(Violation(OpaqueManagedValue, path)), newSeen + {ty}, walk, leaf;
    }
    SeenIsSmall(g, seen + {ty});
    violation, newSeen, walk, leaf := SearchNested(g, ty, path, seen + {ty});
    if violation.None? {
      EnteredIsExplored(g, ty, seen, newSeen);
    }
  }

  lemma {:induction false} EnteredIsExplored(g: Graph, ty: Ty, seen: set<Ty>, newSeen: set<Ty>)
    requires Explored(g, seen + {ty}, newSeen) && Cleared(g, ty, newSeen)
    ensures Explored(g, seen, newSeen)
  {
    hide Cleared;
  }

  /** The visit of all types nested in `ty`, in order, until the first violation. */
  method SearchNested(g: Graph, ty: Ty, path: seq<Label>, seen: set<Ty>)
    returns (violation: Option<Violation>, newSeen: set<Ty>, ghost walk: seq<Edge>, ghost leaf: Ty)
    requires GraphOk(g) && ty < |g| && InGraph(g, seen) && Transparent(g[ty])
    requires |seen| <= |g|
    ensures violation.None? ==> InGraph(g, newSeen) && Explored(g, seen, newSeen) && Cleared(g, ty, newSeen)
    ensures violation.Some? ==> Witnesses(g, ty, walk, leaf, path, violation.value)
    decreases |g| - |seen|, 2
  {
    hide Transparent, Violating, Edges, Nested;
    newSeen, walk, leaf := seen, [], ty;
    var edges := Edges(g[ty].shape);
    for i := 0 to |edges|
      invariant InGraph(g, newSeen)
      invariant Explored(g, seen, newSeen)
      invariant forall j :: 0 <= j < i ==> Passed(g, edges[j].target, newSeen)
    {
      var e := edges[i];
      EdgesAreNested(g[ty].shape, e);
      SubsetSize(seen, newSeen);
      SeenIsSmall(g, newSeen);
      ghost var before := newSeen;
      violation, newSeen, walk, leaf :=
        Search(g, e.target, path + (if e.suffix.Some? then [e.suffix.value] else []), newSeen);
      if violation.Some? {
        WalkThrough(g, ty, e, walk, leaf, path, violation.value);
        walk := [e] + walk;
        return;
      }
      ExploredTrans(g, seen, before, newSeen);
      forall j | 0 <= j < i ensures Passed(g, edges[j].target, newSeen) {
        PassedLater(g, edges[j].target, before, newSeen);
      }
    }
    forall e: Edge | Nested(g[ty].shape, e.target, e.suffix) ensures Passed(g, e.target, newSeen) {
      EdgesAreNested(g[ty].shape, e);
    }
    violation := None;
  }

  lemma {:induction false} WalkThrough(g: Graph, ty: Ty, e: Edge, walk: seq<Edge>, leaf: Ty, path: seq<Label>,
                                       v: Violation)
    requires ty < |g| && Transparent(g[ty]) && Nested(g[ty].shape, e.target, e.suffix)
    requires Witnesses(g, e.target, walk, leaf, path + (if e.suffix.Some? then [e.suffix.value] else []), v)
    ensures Witnesses(g, ty, [e] + walk, leaf, path, v)
  {
    hide Violating, Transparent, Nested;
    var first := if e.suffix.Some? then [e.suffix.value] else [];
    assert ([e] + walk)[1..] == walk;
    assert Labels([e] + walk) == first + Labels(walk);
    assert IsWalk(g, ty, [e] + walk, leaf);
    hide Labels, IsWalk;
    assert path + (first + Labels(walk)) == path + first + Labels(walk);
  }

  /** From a passed type, walks stay among passed types once everything seen is cleared. */
  lemma {:induction false} WalksStayPassed(g: Graph, t: Ty, walk: seq<Edge>, leaf: Ty, seen: set<Ty>)
    requires Explored(g, {}, seen) && Passed(g, t, seen) && IsWalk(g, t, walk, leaf)
    ensures Passed(g, leaf, seen)
    decreases |walk|
  {
    if walk != [] {
      assert t in seen - {};
      WalksStayPassed(g, walk[0].target, walk[1..], leaf, seen);
    }
  }

  /** `storage_violation`: it reports nothing exactly when no violating type is nested in `ty`, and
      what it reports is a real one. */
  method StorageViolation(g: Graph, ty: Ty) returns (violation: Option<Violation>)
    requires GraphOk(g) && ty < |g|
    ensures violation.None? <==> !ReachesViolation(g, ty)
    ensures violation.Some? ==> exists walk, leaf :: Witnesses(g, ty, walk, leaf, [], violation.value)
  {
    var seen;
    ghost var walk, leaf;
    violation, seen, walk, leaf := Search(g, ty, [], {});
    if violation.None? {
      forall w: seq<Edge>, l: Ty | l < |g| && IsWalk(g, ty, w, l) ensures !Violating(g[l]) {
        WalksStayPassed(g, ty, w, l, seen);
      }
    }
  }

  // ---- direct values and their transparent wrappers -------------------------------------------

  function Physical(g: Graph, fields: seq<Ty>): (r: seq<Ty>)
    ensures forall t :: t in r ==> t in fields
  {
    if fields == [] then []
    else
      var front, last := Physical(g, fields[..|fields| - 1]), fields[|fields| - 1];
      if last < |g| && !g[last].zeroSized then front + [last] else front
  }

  /** The only physical field of a transparent wrapper. */
  function SoleField(g: Graph, t: Ty): Option<Ty> {
    if t < |g| && g[t].shape.Adt? && g[t].shape.transparent then
      var fields := Physical(g, g[t].shape.fields);
      if |fields| == 1 then Some(fields[0]) else None
    else None
  }

  predicate IsPhysical(g: Graph, t: Ty) { t < |g| && !g[t].zeroSized }

  lemma {:induction false} PhysicalAre(g: Graph, fields: seq<Ty>)
    ensures Physical(g, fields) == [] <==> forall i :: 0 <= i < |fields| ==> !IsPhysical(g, fields[i])
    ensures |Physical(g, fields)| == 1 <==> exists i :: 0 <= i < |fields| && OnlyPhysical(g, fields, i)
    ensures forall i :: 0 <= i < |fields| && OnlyPhysical(g, fields, i) ==> Physical(g, fields) == [fields[i]]
  {
    if fields != [] {
      var n := |fields| - 1;
      var front := fields[..n];
      PhysicalAre(g, front);
      assert forall i :: 0 <= i < n ==> front[i] == fields[i];
      if IsPhysical(g, fields[n]) {
        assert Physical(g, front) == [] ==> OnlyPhysical(g, fields, n);
      } else {
        assert forall i :: 0 <= i < n ==> (OnlyPhysical(g, front, i) <==> OnlyPhysical(g, fields, i));
      }
    }
  }

  /** Field `i` is the only one that takes space. */
  predicate OnlyPhysical(g: Graph, fields: seq<Ty>, i: nat)
    requires i < |fields|
  {
    IsPhysical(g, fields[i]) && forall j :: 0 <= j < |fields| && IsPhysical(g, fields[j]) ==> j == i
  }

  /** A layer is unwrapped exactly when it is a transparent aggregate with one field that takes space. */
  lemma {:induction false} SoleFieldExactly(g: Graph, t: Ty, field: Ty)
    ensures SoleField(g, t) == Some(field) <==>
      && t < |g| && g[t].shape.Adt? && g[t].shape.transparent
      && exists i :: 0 <= i < |g[t].shape.fields| && g[t].shape.fields[i] == field
                     && OnlyPhysical(g, g[t].shape.fields, i)
  {
    hide Physical, OnlyPhysical;
    if t < |g| && g[t].shape.Adt? {
      PhysicalAre(g, g[t].shape.fields);
    }
  }

  /** The managed kind found after unwrapping at most `n` transparent layers. */
  function ChainKind(g: Graph, t: Ty, n: nat): Option<Kind>
    decreases n
  {
    if t >= |g| then None
    else if g[t].direct.Some? then g[t].direct
    else if n == 0 || SoleField(g, t).None? then None
    else ChainKind(g, SoleField(g, t).value, n - 1)
  }

  ghost predicate EffectivelyDirect(g: Graph, t: Ty) { exists n: nat :: ChainKind(g, t, n).Some? }

  function After(trail: seq<Ty>, t: Ty, i: nat): Ty { if i + 1 < |trail| then trail[i + 1] else t }

  /** `trail` lists the layers unwrapped so far, all of them without a managed kind, ending above `t`. */
  ghost predicate Trail(g: Graph, trail: seq<Ty>, t: Ty) {
    forall i :: 0 <= i < |trail| ==>
      && trail[i] < |g| && g[trail[i]].direct.None?
      && SoleField(g, trail[i]) == Some(After(trail, t, i))
  }

  /** A trail that returns to itself never meets a managed kind. */
  lemma {:induction false} CycleHasNoKind(g: Graph, trail: seq<Ty>, t: Ty, start: nat, i: nat, n: nat)
    requires Trail(g, trail, t) && start < |trail| && trail[start] == t
    requires start <= i < |trail|
    ensures ChainKind(g, trail[i], n).None?
    decreases n
  {
    hide SoleField;
    assert g[trail[i]].direct.None? && SoleField(g, trail[i]) == Some(After(trail, t, i));
    if n > 0 {
      var next := if i + 1 < |trail| then i + 1 else start;
      assert After(trail, t, i) == trail[next];
      CycleHasNoKind(g, trail, t, start, next, n - 1);
    }
  }

  lemma {:induction false} TrailGrows(g: Graph, trail: seq<Ty>, t: Ty, next: Ty)
    requires Trail(g, trail, t) && t < |g| && g[t].direct.None? && SoleField(g, t) == Some(next)
    ensures Trail(g, trail + [t], next)
  {
    hide SoleField;
    var longer := trail + [t];
    forall i | 0 <= i < |longer|
      ensures longer[i] < |g| && g[longer[i]].direct.None?
      ensures SoleField(g, longer[i]) == Some(After(longer, next, i))
    {
      if i < |trail| {
        assert longer[i] == trail[i];
        assert After(longer, next, i) == longer[i + 1] == After(trail, t, i);
      }
    }
  }

  lemma {:induction false} FieldsInGraph(g: Graph, t: Ty)
    requires GraphOk(g) && t < |g| && SoleField(g, t).Some?
    ensures SoleField(g, t).value < |g|
  {
    var fields := g[t].shape.fields;
    var f := SoleField(g, t).value;
    assert f in fields;
    var i :| 0 <= i < |fields| && fields[i] == f;
    assert Nested(g[t].shape, f, Edge(f, Some(FieldLabel(i))).suffix);
  }

  /** `effective_direct_managed_kind`: the cut on repeated layers loses nothing. */
  method EffectiveDirectKind(g: Graph, ty: Ty, seen: set<Ty>, ghost trail: seq<Ty>) returns (kind: Option<Kind>)
    requires GraphOk(g) && ty < |g|
    requires Trail(g, trail, ty) && seen == (set t | t in trail) && |seen| <= |g|
    ensures kind.Some? ==> exists n: nat :: ChainKind(g, ty, n) == kind
    ensures kind.None? ==> !EffectivelyDirect(g, ty)
    decreases |g| - |seen|
  {
    if g[ty].direct.Some? {
      assert ChainKind(g, ty, 0) == g[ty].direct;
      return g[ty].direct;
    }
    if ty in seen {
      ghost var start :| 0 <= start < |trail| && trail[start] == ty;
      forall n: nat ensures ChainKind(g, ty, n).None? {
        CycleHasNoKind(g, trail, ty, start, start, n);
      }
      return None;
    }
    var field := SoleField(g, ty);
    if field.None? {
      return None;
    }
    FieldsInGraph(g, ty);
    ghost var longer := trail + [ty];
    assert forall t :: t in longer <==> t in trail || t == ty;
    assert seen + {ty} == set t | t in longer;
    IndexSetSize(seen + {ty}, |g|);
    TrailGrows(g, trail, ty, field.value);
    kind := EffectiveDirectKind(g, field.value, seen + {ty}, longer);
    if kind.Some? {
      ghost var n: nat :| ChainKind(g, field.value, n) == kind;
      assert ChainKind(g, ty, n + 1) == kind;
    } else {
      forall n: nat ensures ChainKind(g, ty, n).None? {
        if n > 0 {
          assert ChainKind(g, field.value, n - 1).None?;
        }
      }
    }
  }

  /** What a local may hold: a direct managed value, a reference to one, or a type without one. */
  ghost predicate LocalAllowed(g: Graph, t: Ty) {
    || EffectivelyDirect(g, t)
    || (t < |g| && g[t].shape.Ref? && EffectivelyDirect(g, g[t].shape.pointee))
    || !ReachesViolation(g, t)
  }

  /** `local_storage_violation`. */
  method LocalStorageViolation(g: Graph, ty: Ty) returns (violation: Option<Violation>)
    requires GraphOk(g) && ty < |g|
    ensures violation.None? <==> LocalAllowed(g, ty)
    ensures violation.Some? ==> exists walk, leaf :: Witnesses(g, ty, walk, leaf, [], violation.value)
  {
    hide ReachesViolation, EffectivelyDirect, ChainKind, Witnesses;
    var kind := EffectiveDirectKind(g, ty, {}, []);
    DirectWhenFound(g, ty, kind);
    if kind.None? && g[ty].shape.Ref? {
      var e := Edge(g[ty].shape.pointee, Some(ReferentLabel));
      assert Nested(g[ty].shape, e.target, e.suffix);
      kind := EffectiveDirectKind(g, g[ty].shape.pointee, {}, []);
      DirectWhenFound(g, g[ty].shape.pointee, kind);
    }
    if kind.Some? {
      return None;
    }
    violation := StorageViolation(g, ty);
  }

  lemma {:induction false} DirectWhenFound(g: Graph, t: Ty, kind: Option<Kind>)
    requires kind.Some? ==> exists n: nat :: ChainKind(g, t, n) == kind
    ensures kind.Some? ==> EffectivelyDirect(g, t)
  {}

  /** A tuple of transient values, at least one of them managed. */
  ghost predicate TransientTuple(g: Graph, t: Ty) {
    && t < |g| && g[t].shape.Tuple?
    && (forall e :: e in g[t].shape.elements ==> LocalAllowed(g, e))
    && (exists e :: e in g[t].shape.elements && ReachesViolation(g, e))
  }

  /** `tuple_has_only_transient_managed_elements`. */
  method IsTransientTuple(g: Graph, ty: Ty) returns (transient: bool)
    requires GraphOk(g) && ty < |g|
    ensures transient <==> TransientTuple(g, ty)
  {
    hide ReachesViolation, LocalAllowed;
    if !g[ty].shape.Tuple? {
      return false;
    }
    var elements := g[ty].shape.elements;
    var hasDirectManagedValue := false;
    for i := 0 to |elements|
      invariant forall j :: 0 <= j < i ==> LocalAllowed(g, elements[j])
      invariant hasDirectManagedValue <==> exists j :: 0 <= j < i && ReachesViolation(g, elements[j])
    {
      ghost var e := Edge(elements[i], Some(TupleLabel(i)));
      assert Nested(g[ty].shape, e.target, e.suffix);
      var blocked := LocalStorageViolation(g, elements[i]);
      if blocked.Some? {
        assert elements[i] in elements;
        return false;
      }
      var managed := StorageViolation(g, elements[i]);
      hasDirectManagedValue := hasDirectManagedValue || managed.Some?;
    }
    transient := hasDirectManagedValue;
    assert forall j :: 0 <= j < |elements| ==> elements[j] in elements;
  }
}
