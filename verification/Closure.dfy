/** The monomorphization closure of one alias target: a depth-first walk over items and allocations
    that emits every reachable item after what it depends on. */
module Closure {
  import opened Finite
  import opened Wrappers

  type Id = nat

  /** What the compiler answers about an item. A magic function is substituted by the backend; drop glue
      that is empty or compiled elsewhere is no dependency; a static without initializer has no
      provenance. */
  datatype ItemInfo =
    | Fn(magic: bool, used: seq<Id>)
    | Static(dropGlue: Option<Id>, provenance: seq<Id>, threadLocalShim: Option<Id>)
    | GlobalAsm

  datatype AllocInfo =
    | StaticAlloc(item: Id, local: bool)
    | Memory(provenance: seq<Id>)
    | FunctionAlloc(item: Id, local: bool)
    | VTable(alloc: Id)
    | TypeId

  datatype Graph = Graph(items: seq<ItemInfo>, allocs: seq<AllocInfo>)

  datatype Node = ItemNode(item: Id) | AllocNode(alloc: Id)

  function Nodes(g: Graph): set<Node> {
    (set i | 0 <= i < |g.items| :: ItemNode(i)) + (set a | 0 <= a < |g.allocs| :: AllocNode(a))
  }

  function ItemNodes(ids: seq<Id>): (r: seq<Node>)
    ensures |r| == |ids| && forall i :: 0 <= i < |ids| ==> r[i] == ItemNode(ids[i])
  {
    seq(|ids|, i requires 0 <= i < |ids| => ItemNode(ids[i]))
  }

  function AllocNodes(ids: seq<Id>): (r: seq<Node>)
    ensures |r| == |ids| && forall i :: 0 <= i < |ids| ==> r[i] == AllocNode(ids[i])
  {
    seq(|ids|, i requires 0 <= i < |ids| => AllocNode(ids[i]))
  }

  function Optional(id: Option<Id>): seq<Node> { if id.Some? then [ItemNode(id.value)] else [] }

  /** The direct dependencies of a node, in the order they are visited. */
  function Succs(g: Graph, x: Node): seq<Node> {
    match x
    case ItemNode(i) =>
      if i >= |g.items| then []
      else (match g.items[i]
            case Fn(magic, used) => if magic then [] else ItemNodes(used)
            case Static(drop, provenance, shim) => Optional(drop) + AllocNodes(provenance) + Optional(shim)
            case GlobalAsm => [])
    case AllocNode(a) =>
      if a >= |g.allocs| then []
      else (match g.allocs[a]
            case StaticAlloc(item, local) => if local then [ItemNode(item)] else []
            case Memory(provenance) => AllocNodes(provenance)
            case FunctionAlloc(item, local) => if local then [ItemNode(item)] else []
            case VTable(alloc) => [AllocNode(alloc)]
            case TypeId => [])
  }

  ghost predicate GraphOk(g: Graph) { forall x, y :: x in Nodes(g) && y in Succs(g, x) ==> y in Nodes(g) }

  predicate Magic(g: Graph, x: Node) {
    x.ItemNode? && x.item < |g.items| && g.items[x.item].Fn? && g.items[x.item].magic
  }

  // ---- reachability ---------------------------------------------------------------------------

  ghost predicate IsPath(g: Graph, p: seq<Node>) {
    forall i, j :: 0 <= i < j < |p| && j == i + 1 ==> p[j] in Succs(g, p[i])
  }

  ghost predicate PathFrom(g: Graph, x: Node, y: Node, p: seq<Node>) {
    |p| >= 1 && p[0] == x && p[|p| - 1] == y && IsPath(g, p)
  }

  ghost predicate Reaches(g: Graph, x: Node, y: Node) { exists p :: PathFrom(g, x, y, p) }

  lemma {:induction false} PathReaches(g: Graph, p: seq<Node>, i: nat, j: nat)
    requires IsPath(g, p) && i <= j < |p|
    ensures Reaches(g, p[i], p[j])
  {
    hide Succs;
    assert PathFrom(g, p[i], p[j], p[i..j + 1]);
  }

  /** What is closed under dependencies and holds a node holds everything it reaches. */
  lemma {:induction false} ClosedHoldsReachable(g: Graph, closed: seq<Node>, p: seq<Node>, i: nat)
    requires IsPath(g, p) && i < |p| && p[0] in closed
    requires forall x, y :: x in closed && y in Succs(g, x) ==> y in closed
    ensures p[i] in closed
    decreases i
  {
    hide Succs;
    if i > 0 {
      ClosedHoldsReachable(g, closed, p, i - 1);
      assert p[i] in Succs(g, p[i - 1]);
    }
  }

  // ---- the state of the walk ------------------------------------------------------------------

  ghost predicate Entered(active: seq<Node>, done: seq<Node>, x: Node) { x in active || x in done }

  function Last(walk: seq<Node>): Node { if walk == [] then ItemNode(0) else walk[|walk| - 1] }

  /** A walk out of `x` none of whose nodes leads back to `x`. */
  ghost predicate FreeWalk(g: Graph, x: Node, walk: seq<Node>) {
    walk != [] && IsPath(g, [x] + walk) && forall y :: y in walk ==> !Reaches(g, y, x)
  }

  /** Everything on a free walk out of a finished node finished before it. */
  ghost predicate Settled(g: Graph, done: seq<Node>, k: nat)
    requires k < |done|
  {
    forall walk :: FreeWalk(g, done[k], walk) ==> Last(walk) in done[..k]
  }

  /** The stack of the walk is a path from the root; what is finished has had its dependencies entered. */
  ghost predicate StackOk(g: Graph, root: Node, active: seq<Node>, done: seq<Node>) {
    && Distinct(active) && Distinct(done) && (forall x :: x in active ==> x !in done)
    && IsPath(g, active) && (forall x :: x in active || x in done ==> x in Nodes(g))
    && (active != [] ==> active[0] == root)
    && (forall x, y :: x in done && y in Succs(g, x) ==> Entered(active, done, y))
    && (forall x :: x in done ==> Reaches(g, root, x))
  }

  ghost predicate AllSettled(g: Graph, done: seq<Node>) { forall k :: 0 <= k < |done| ==> Settled(g, done, k) }

  ghost predicate DfsOk(g: Graph, root: Node, active: seq<Node>, done: seq<Node>) {
    StackOk(g, root, active, done) && AllSettled(g, done)
  }

  /** A call on `x` comes from the node on top of the stack, or starts the walk. */
  ghost predicate Called(g: Graph, root: Node, active: seq<Node>, done: seq<Node>, x: Node) {
    x in Nodes(g) && if active == [] then done == [] && x == root else x in Succs(g, active[|active| - 1])
  }

  lemma {:induction false} PushKeeps(g: Graph, root: Node, active: seq<Node>, done: seq<Node>, x: Node)
    requires DfsOk(g, root, active, done) && Called(g, root, active, done, x) && !Entered(active, done, x)
    ensures DfsOk(g, root, active + [x], done)
  {
    hide Succs, Nodes, AllSettled, Reaches;
    var taller := active + [x];
    forall i, j | 0 <= i < j < |taller| && j == i + 1 ensures taller[j] in Succs(g, taller[i]) {
      if j < |active| {
        assert taller[i] == active[i] && taller[j] == active[j];
      } else {
        assert taller[i] == active[|active| - 1];
      }
    }
    forall y | Entered(active, done, y) ensures Entered(taller, done, y) {}
  }

  lemma {:induction false} TopIsReachable(g: Graph, root: Node, active: seq<Node>, done: seq<Node>)
    requires StackOk(g, root, active, done) && active != []
    ensures Reaches(g, root, active[|active| - 1])
  {
    PathReaches(g, active, 0, |active| - 1);
  }

  /** Once all its dependencies are entered, everything on a free walk out of the top is finished. */
  lemma {:induction false} FreeWalkIsDone(g: Graph, root: Node, active: seq<Node>, done: seq<Node>, walk: seq<Node>,
                                          i: nat)
    requires StackOk(g, root, active, done) && active != []
    requires forall y :: y in Succs(g, active[|active| - 1]) ==> Entered(active, done, y)
    requires FreeWalk(g, active[|active| - 1], walk) && i < |walk|
    ensures walk[i] in done
    decreases i
  {
    hide Succs, Nodes, Reaches;
    var x := active[|active| - 1];
    var path := [x] + walk;
    assert path[i + 1] == walk[i] && path[i + 1] in Succs(g, path[i]);
    if i > 0 {
      FreeWalkIsDone(g, root, active, done, walk, i - 1);
      assert path[i] == walk[i - 1];
    }
    assert Entered(active, done, walk[i]);
    if walk[i] in active {
      var j :| 0 <= j < |active| && active[j] == walk[i];
      PathReaches(g, active, j, |active| - 1);
      assert false;
    }
  }

  lemma {:induction false} PopSettles(g: Graph, root: Node, active: seq<Node>, done: seq<Node>)
    requires DfsOk(g, root, active, done) && active != []
    requires forall y :: y in Succs(g, active[|active| - 1]) ==> Entered(active, done, y)
    ensures AllSettled(g, done + [active[|active| - 1]])
  {
    hide Succs, Nodes, FreeWalk;
    var x := active[|active| - 1];
    var longer := done + [x];
    forall k | 0 <= k < |longer| ensures Settled(g, longer, k) {
      if k < |done| {
        assert Settled(g, done, k);
        assert longer[..k] == done[..k] && longer[k] == done[k];
      } else {
        assert longer[..k] == done;
        forall walk | FreeWalk(g, x, walk) ensures Last(walk) in done {
          WalkNotEmpty(g, x, walk);
          FreeWalkIsDone(g, root, active, done, walk, |walk| - 1);
        }
      }
    }
  }

  lemma {:induction false} WalkNotEmpty(g: Graph, x: Node, walk: seq<Node>)
    requires FreeWalk(g, x, walk)
    ensures walk != []
  {}

  lemma {:induction false} PopKeeps(g: Graph, root: Node, active: seq<Node>, done: seq<Node>)
    requires DfsOk(g, root, active, done) && active != []
    requires forall y :: y in Succs(g, active[|active| - 1]) ==> Entered(active, done, y)
    ensures DfsOk(g, root, active[..|active| - 1], done + [active[|active| - 1]])
  {
    hide AllSettled;
    PopSettles(g, root, active, done);
    PopStack(g, root, active, done);
  }

  lemma {:induction false} PopStack(g: Graph, root: Node, active: seq<Node>, done: seq<Node>)
    requires StackOk(g, root, active, done) && active != []
    requires forall y :: y in Succs(g, active[|active| - 1]) ==> Entered(active, done, y)
    ensures StackOk(g, root, active[..|active| - 1], done + [active[|active| - 1]])
  {
    hide Succs, Nodes, Reaches;
    TopIsReachable(g, root, active, done);
    var x, below := active[|active| - 1], active[..|active| - 1];
    var longer := done + [x];
    assert active == below + [x];
    assert forall y :: y in longer <==> y in done || y == x;
    assert forall y :: y in active <==> y in below || y == x;
    assert x !in below;
    forall y, z | y in longer && z in Succs(g, y) ensures Entered(below, longer, z) {
      assert Entered(active, done, z);
    }
  }

  // ---- what is emitted ------------------------------------------------------------------------

  /** The items of `done` that are not magic, in order. */
  function Emitted(g: Graph, done: seq<Node>): seq<Id> {
    if done == [] then []
    else
      var last := done[|done| - 1];
      Emitted(g, done[..|done| - 1]) + (if last.ItemNode? && !Magic(g, last) then [last.item] else [])
  }

  ghost predicate Before<T(!new)>(s: seq<T>, x: T, y: T) {
    exists i, j :: 0 <= i < j < |s| && s[i] == x && s[j] == y
  }

  lemma {:induction false} EmittedExactly(g: Graph, done: seq<Node>, i: Id)
    ensures i in Emitted(g, done) <==> ItemNode(i) in done && !Magic(g, ItemNode(i))
  {
    if done != [] {
      var front, last := done[..|done| - 1], done[|done| - 1];
      EmittedExactly(g, front, i);
      assert done == front + [last];
    }
  }

  lemma {:induction false} EmittedOnce(g: Graph, done: seq<Node>)
    requires Distinct(done)
    ensures Distinct(Emitted(g, done))
  {
    if done != [] {
      var front, last := done[..|done| - 1], done[|done| - 1];
      assert done == front + [last];
      EmittedOnce(g, front);
      if last.ItemNode? {
        EmittedExactly(g, front, last.item);
      }
    }
  }

  lemma {:induction false} EmittedKeepsOrder(g: Graph, done: seq<Node>, i: nat, j: nat)
    requires i < j < |done| && done[i].ItemNode? && done[j].ItemNode?
    requires !Magic(g, done[i]) && !Magic(g, done[j])
    ensures Before(Emitted(g, done), done[i].item, done[j].item)
  {
    var front, last := done[..|done| - 1], done[|done| - 1];
    var emitted := Emitted(g, front);
    if j == |done| - 1 {
      assert front[i] == done[i];
      EmittedExactly(g, front, done[i].item);
      var a :| 0 <= a < |emitted| && emitted[a] == done[i].item;
      var longer := Emitted(g, done);
      assert longer == emitted + [last.item];
      assert longer[a] == done[i].item && longer[|emitted|] == done[j].item;
    } else {
      EmittedKeepsOrder(g, front, i, j);
      var a, b :| 0 <= a < b < |emitted| && emitted[a] == done[i].item && emitted[b] == done[j].item;
      var longer := Emitted(g, done);
      assert longer[a] == emitted[a] && longer[b] == emitted[b];
    }
  }

  // ---- the state of the closure ---------------------------------------------------------------

  /** The fields of the closure, with the stack of open nodes and the nodes finished so far. */
  datatype State = State(visiting: set<Id>, visited: set<Id>, allocations: set<Id>, ordered: seq<Id>,
                         active: seq<Node>, done: seq<Node>)

  ghost predicate EnteredIn(s: State, x: Node) { Entered(s.active, s.done, x) }

  ghost predicate Coupled(g: Graph, s: State) {
    && (forall i :: i in s.visiting <==> ItemNode(i) in s.active)
    && (forall i :: i in s.visited <==> ItemNode(i) in s.done)
    && (forall a :: a in s.allocations <==> EnteredIn(s, AllocNode(a)))
    && s.ordered == Emitted(g, s.done)
  }

  ghost predicate Ok(g: Graph, root: Node, s: State) {
    GraphOk(g) && DfsOk(g, root, s.active, s.done) && Coupled(g, s)
  }

  ghost predicate CanCall(g: Graph, root: Node, s: State, x: Node) { Called(g, root, s.active, s.done, x) }

  /** The nodes not entered yet. */
  ghost function Rest(g: Graph, s: State): set<Node> { set x | x in Nodes(g) && !EnteredIn(s, x) }

  ghost predicate Extends(before: State, after: State) { after.active == before.active && before.done <= after.done }

  /** A finished call on `x`: it is entered, and if it was not before, it finished last. */
  ghost predicate Advances(before: State, after: State, x: Node) {
    Extends(before, after) && EnteredIn(after, x)
      && (!EnteredIn(before, x) ==> after.done != [] && after.done[|after.done| - 1] == x)
  }

  /** The first `n` dependencies of the top node are entered. */
  ghost predicate EnteredFirst(s: State, succs: seq<Node>, n: nat) {
    n <= |succs| && forall k :: 0 <= k < n ==> EnteredIn(s, succs[k])
  }

  ghost function Top(s: State): Node { Last(s.active) }

  function WithItem(s: State, item: Id): State {
    s.(visiting := s.visiting + {item}, active := s.active + [ItemNode(item)])
  }

  function WithoutItem(g: Graph, s: State, item: Id): State
    requires s.active != []
  {
    s.(visiting := s.visiting - {item}, visited := s.visited + {item},
       ordered := if Magic(g, ItemNode(item)) then s.ordered else s.ordered + [item],
       active := s.active[..|s.active| - 1], done := s.done + [ItemNode(item)])
  }

  function WithAlloc(s: State, alloc: Id): State {
    s.(allocations := s.allocations + {alloc}, active := s.active + [AllocNode(alloc)])
  }

  function WithoutAlloc(s: State, alloc: Id): State
    requires s.active != []
  {
    s.(active := s.active[..|s.active| - 1], done := s.done + [AllocNode(alloc)])
  }

  lemma {:induction false} RestShrinks(g: Graph, s: State, t: State, x: Node)
    requires t.active == s.active + [x] && t.done == s.done && x in Nodes(g) && !EnteredIn(s, x)
    ensures Rest(g, t) == Rest(g, s) - {x} && x in Rest(g, s)
  {
    hide Nodes;
    assert forall y :: EnteredIn(t, y) <==> EnteredIn(s, y) || y == x;
  }

  lemma {:induction false} RestStaysSmall(g: Graph, s: State, t: State)
    requires Extends(s, t)
    ensures Rest(g, t) <= Rest(g, s)
    ensures forall x :: EnteredIn(s, x) ==> EnteredIn(t, x)
  {
    hide Nodes;
    assert forall y :: y in s.done ==> y in t.done;
  }

  lemma {:induction false} EnterItem(g: Graph, root: Node, s: State, item: Id)
    requires Ok(g, root, s) && CanCall(g, root, s, ItemNode(item)) && item !in s.visited && item !in s.visiting
    ensures item < |g.items| && !EnteredIn(s, ItemNode(item))
    ensures Ok(g, root, WithItem(s, item)) && Top(WithItem(s, item)) == ItemNode(item)
    ensures Rest(g, WithItem(s, item)) == Rest(g, s) - {ItemNode(item)} && ItemNode(item) in Rest(g, s)
  {
    hide DfsOk, Succs, Emitted, Rest, GraphOk;
    PushKeeps(g, root, s.active, s.done, ItemNode(item));
    RestShrinks(g, s, WithItem(s, item), ItemNode(item));
  }

  lemma {:induction false} EnterAlloc(g: Graph, root: Node, s: State, alloc: Id)
    requires Ok(g, root, s) && CanCall(g, root, s, AllocNode(alloc)) && alloc !in s.allocations
    ensures alloc < |g.allocs| && !EnteredIn(s, AllocNode(alloc))
    ensures Ok(g, root, WithAlloc(s, alloc)) && Top(WithAlloc(s, alloc)) == AllocNode(alloc)
    ensures Rest(g, WithAlloc(s, alloc)) == Rest(g, s) - {AllocNode(alloc)} && AllocNode(alloc) in Rest(g, s)
  {
    hide DfsOk, Succs, Emitted, Rest, GraphOk;
    PushKeeps(g, root, s.active, s.done, AllocNode(alloc));
    RestShrinks(g, s, WithAlloc(s, alloc), AllocNode(alloc));
  }

  ghost predicate TopEntered(g: Graph, s: State) { EnteredFirst(s, Succs(g, Top(s)), |Succs(g, Top(s))|) }

  lemma {:induction false} TopCanLeave(g: Graph, root: Node, s: State)
    requires Ok(g, root, s) && s.active != [] && TopEntered(g, s)
    ensures DfsOk(g, root, s.active[..|s.active| - 1], s.done + [Top(s)])
    ensures Top(s) !in s.done && Top(s) !in s.active[..|s.active| - 1]
  {
    hide Succs, Emitted, GraphOk, AllSettled, Nodes, IsPath;
    forall y | y in Succs(g, Top(s)) ensures Entered(s.active, s.done, y) {
      var k :| 0 <= k < |Succs(g, Top(s))| && Succs(g, Top(s))[k] == y;
      assert EnteredIn(s, Succs(g, Top(s))[k]);
    }
    PopKeeps(g, root, s.active, s.done);
  }

  lemma {:induction false} EmittedNext(g: Graph, done: seq<Node>, x: Node)
    ensures Emitted(g, done + [x]) == Emitted(g, done) + (if x.ItemNode? && !Magic(g, x) then [x.item] else [])
  {
    assert (done + [x])[..|done|] == done;
  }

  lemma {:induction false} LeaveItem(g: Graph, root: Node, s: State, item: Id)
    requires Ok(g, root, s) && s.active != [] && Top(s) == ItemNode(item) && TopEntered(g, s)
    ensures item !in s.visited && Ok(g, root, WithoutItem(g, s, item))
  {
    hide DfsOk, Succs, GraphOk, TopEntered, Magic, Emitted;
    TopCanLeave(g, root, s);
    EmittedNext(g, s.done, ItemNode(item));
    var below, t := s.active[..|s.active| - 1], WithoutItem(g, s, item);
    assert s.active == below + [ItemNode(item)];
    assert forall y :: y in s.active <==> y in t.active || y == ItemNode(item);
    assert forall y :: y in t.done <==> y in s.done || y == ItemNode(item);
  }

  lemma {:induction false} LeaveAlloc(g: Graph, root: Node, s: State, alloc: Id)
    requires Ok(g, root, s) && s.active != [] && Top(s) == AllocNode(alloc) && TopEntered(g, s)
    ensures Ok(g, root, WithoutAlloc(s, alloc))
  {
    hide DfsOk, Succs, GraphOk, TopEntered, Magic, Emitted;
    TopCanLeave(g, root, s);
    EmittedNext(g, s.done, AllocNode(alloc));
    var below, t := s.active[..|s.active| - 1], WithoutAlloc(s, alloc);
    assert s.active == below + [AllocNode(alloc)];
    assert forall y :: y in s.active <==> y in t.active || y == AllocNode(alloc);
    assert forall y :: y in t.done <==> y in s.done || y == AllocNode(alloc);
  }

  /** A dependency of the top node may be called. */
  lemma {:induction false} KidCanBeCalled(g: Graph, root: Node, s: State, k: nat)
    requires Ok(g, root, s) && s.active != [] && k < |Succs(g, Top(s))|
    ensures CanCall(g, root, s, Succs(g, Top(s))[k])
  {
    hide Succs, Emitted, AllSettled, Nodes, IsPath;
    assert Succs(g, Top(s))[k] in Succs(g, Top(s));
    assert Top(s) in s.active;
  }

  lemma {:induction false} KidEntered(g: Graph, s: State, t: State, k: nat)
    requires k < |Succs(g, Top(s))| && EnteredFirst(s, Succs(g, Top(s)), k)
    requires Advances(s, t, Succs(g, Top(s))[k])
    ensures EnteredFirst(t, Succs(g, Top(t)), k + 1) && Top(t) == Top(s) && Rest(g, t) <= Rest(g, s)
  {
    hide Succs, Rest;
    RestStaysSmall(g, s, t);
  }

  // ---- the walk as a function of the state ----------------------------------------------------

  function Open(s: State, x: Node): State { if x.ItemNode? then WithItem(s, x.item) else WithAlloc(s, x.alloc) }

  function Close(g: Graph, s: State, x: Node): State
    requires s.active != []
  {
    if x.ItemNode? then WithoutItem(g, s, x.item) else WithoutAlloc(s, x.alloc)
  }

  /** A depth-first walk from `x`. */
  ghost function Walk(g: Graph, s: State, x: Node): (r: State)
    ensures Extends(s, r)
    decreases Rest(g, s), 0
  {
    if EnteredIn(s, x) || x !in Nodes(g) then s
    else
      RestShrinks(g, s, Open(s, x), x);
      Close(g, WalkAll(g, Open(s, x), Succs(g, x), 0), x)
  }

  ghost function WalkAll(g: Graph, s: State, succs: seq<Node>, k: nat): (r: State)
    requires k <= |succs|
    ensures Extends(s, r)
    decreases Rest(g, s), 1 + |succs| - k
  {
    if k == |succs| then s
    else
      var t := Walk(g, s, succs[k]);
      RestStaysSmall(g, s, t);
      WalkAll(g, t, succs, k + 1)
  }

  /** Leaving the node a call opened. */
  lemma {:induction false} CallReturns(s: State, entered: State, filled: State, left: State, x: Node)
    requires entered.active == s.active + [x] && entered.done == s.done && Extends(entered, filled)
    requires left.active == filled.active[..|filled.active| - 1] && left.done == filled.done + [x]
    ensures Advances(s, left, x)
  {}

  lemma {:induction false} EnteredItem(g: Graph, root: Node, s: State, item: Id)
    requires Ok(g, root, s) && (item in s.visited || item in s.visiting)
    ensures Advances(s, s, ItemNode(item)) && Walk(g, s, ItemNode(item)) == s
  {}

  lemma {:induction false} EnteredAlloc(g: Graph, root: Node, s: State, alloc: Id)
    requires Ok(g, root, s) && alloc in s.allocations
    ensures Advances(s, s, AllocNode(alloc)) && Walk(g, s, AllocNode(alloc)) == s
  {}

  // ---- a node whose dependencies are being visited --------------------------------------------

  /** `s` is the state after the first `k` dependencies of the node `x` that `entered` opened. */
  ghost predicate Midway(g: Graph, root: Node, entered: State, s: State, x: Node, k: nat) {
    && Ok(g, root, s) && s.active != [] && Extends(entered, s) && Top(s) == x
    && EnteredFirst(s, Succs(g, x), k) && Rest(g, s) <= Rest(g, entered)
    && WalkAll(g, s, Succs(g, x), k) == WalkAll(g, entered, Succs(g, x), 0)
  }

  lemma {:induction false} MidwayStart(g: Graph, root: Node, s: State, x: Node)
    requires Ok(g, root, s) && s.active != [] && Top(s) == x
    ensures Midway(g, root, s, s, x, 0)
  {
    hide Ok, Rest, WalkAll, Succs, Top;
  }

  lemma {:induction false} MidwayCall(g: Graph, root: Node, entered: State, s: State, x: Node, k: nat)
    requires Midway(g, root, entered, s, x, k) && k < |Succs(g, x)|
    ensures Ok(g, root, s) && CanCall(g, root, s, Succs(g, x)[k])
    ensures Rest(g, s) <= Rest(g, entered)
  {
    hide Ok, Rest, WalkAll, Succs, Top, CanCall;
    KidCanBeCalled(g, root, s, k);
  }

  lemma {:induction false} MidwayStep(g: Graph, root: Node, entered: State, s: State, t: State, x: Node, k: nat)
    requires Midway(g, root, entered, s, x, k) && k < |Succs(g, x)|
    requires Ok(g, root, t) && Advances(s, t, Succs(g, x)[k]) && t == Walk(g, s, Succs(g, x)[k])
    ensures Midway(g, root, entered, t, x, k + 1)
  {
    hide Ok, Rest, Succs, Top, EnteredFirst, Walk;
    KidEntered(g, s, t, k);
  }

  lemma {:induction false} MidwayEnd(g: Graph, root: Node, entered: State, s: State, x: Node)
    requires Midway(g, root, entered, s, x, |Succs(g, x)|)
    ensures Ok(g, root, s) && s.active != [] && Top(s) == x && TopEntered(g, s) && Extends(entered, s)
    ensures s == WalkAll(g, entered, Succs(g, x), 0)
  {
    hide Ok, Rest, Succs, Top, EnteredFirst;
  }

  lemma {:induction false} WalkOpens(g: Graph, root: Node, s: State, x: Node)
    requires CanCall(g, root, s, x) && !EnteredIn(s, x)
    ensures Walk(g, s, x) == Close(g, WalkAll(g, Open(s, x), Succs(g, x), 0), x)
  {
    hide WalkAll, Succs, Nodes, Close, Open;
  }

  lemma {:induction false} FnSuccs(g: Graph, item: Id)
    requires item < |g.items| && g.items[item].Fn?
    ensures Succs(g, ItemNode(item)) == if g.items[item].magic then [] else ItemNodes(g.items[item].used)
    ensures Magic(g, ItemNode(item)) == g.items[item].magic
  {}

  lemma {:induction false} AsmSuccs(g: Graph, item: Id)
    requires item < |g.items| && g.items[item].GlobalAsm?
    ensures Succs(g, ItemNode(item)) == [] && !Magic(g, ItemNode(item))
  {}

  lemma {:induction false} ThreeParts(a: seq<Node>, b: seq<Node>, c: seq<Node>)
    ensures var s := a + b + c;
      && |s| == |a| + |b| + |c|
      && (a != [] ==> s[0] == a[0])
      && (forall k :: 0 <= k < |b| ==> s[|a| + k] == b[k])
      && (c != [] ==> s[|s| - 1] == c[|c| - 1])
  {}

  predicate StaticOrder(first: Option<Id>, ids: seq<Id>, last: Option<Id>, s: seq<Node>) {
    s == Optional(first) + AllocNodes(ids) + Optional(last)
  }

  lemma {:induction false} StaticParts(g: Graph, item: Id)
    requires item < |g.items| && g.items[item].Static?
    ensures var info := g.items[item];
      StaticOrder(info.dropGlue, info.provenance, info.threadLocalShim, Succs(g, ItemNode(item)))
    ensures !Magic(g, ItemNode(item))
  {
    hide AllocNodes, Optional, ItemNodes;
  }

  lemma {:induction false} OptionalIs(id: Option<Id>)
    ensures |Optional(id)| == if id.Some? then 1 else 0
    ensures id.Some? ==> Optional(id)[0] == ItemNode(id.value)
  {}

  lemma {:induction false} PartsAre(first: Option<Id>, ids: seq<Id>, last: Option<Id>, s: seq<Node>)
    requires StaticOrder(first, ids, last, s)
    ensures var n := if first.Some? then 1 else 0;
      && |s| == n + |ids| + (if last.Some? then 1 else 0)
      && (first.Some? ==> s[0] == ItemNode(first.value))
      && (forall k :: 0 <= k < |ids| ==> s[n + k] == AllocNode(ids[k]))
      && (last.Some? ==> s[|s| - 1] == ItemNode(last.value))
  {
    hide AllocNodes, Optional;
    OptionalIs(first);
    OptionalIs(last);
    ThreeParts(Optional(first), AllocNodes(ids), Optional(last));
  }

  lemma {:induction false} StaticSuccs(g: Graph, item: Id)
    requires item < |g.items| && g.items[item].Static?
    ensures var info, succs := g.items[item], Succs(g, ItemNode(item));
      var drops := if info.dropGlue.Some? then 1 else 0;
      && |succs| == drops + |info.provenance| + (if info.threadLocalShim.Some? then 1 else 0)
      && (info.dropGlue.Some? ==> succs[0] == ItemNode(info.dropGlue.value))
      && (forall k :: 0 <= k < |info.provenance| ==> succs[drops + k] == AllocNode(info.provenance[k]))
      && (info.threadLocalShim.Some? ==> succs[|succs| - 1] == ItemNode(info.threadLocalShim.value))
    ensures !Magic(g, ItemNode(item))
  {
    hide Succs, Magic, StaticOrder;
    var info, succs := g.items[item], Succs(g, ItemNode(item));
    StaticParts(g, item);
    PartsAre(info.dropGlue, info.provenance, info.threadLocalShim, succs);
  }

  lemma {:induction false} AllocSuccs(g: Graph, alloc: Id)
    requires alloc < |g.allocs|
    ensures Succs(g, AllocNode(alloc)) ==
      match g.allocs[alloc]
      case StaticAlloc(item, local) => if local then [ItemNode(item)] else []
      case Memory(provenance) => AllocNodes(provenance)
      case FunctionAlloc(item, local) => if local then [ItemNode(item)] else []
      case VTable(table) => [AllocNode(table)]
      case TypeId => []
  {}

  // ---- the walk -------------------------------------------------------------------------------

  class AliasMonoClosure {
    const g: Graph
    const root: Node
    var visiting: set<Id>
    var visited: set<Id>
    var allocations: set<Id>
    var ordered: seq<Id>
    ghost var active: seq<Node>
    ghost var done: seq<Node>

    constructor (g: Graph, target: Id)
      requires GraphOk(g) && target < |g.items|
      ensures this.g == g && root == ItemNode(target)
      ensures S() == State({}, {}, {}, [], [], []) && Ok(g, root, S())
    {
      this.g, this.root := g, ItemNode(target);
      visiting, visited, allocations, ordered := {}, {}, {}, [];
      active, done := [], [];
    }

    ghost function S(): State
      reads this
    {
      State(visiting, visited, allocations, ordered, active, done)
    }

    /** `visit`. */
    method Visit(item: Id)
      requires Ok(g, root, S()) && CanCall(g, root, S(), ItemNode(item))
      modifies this
      ensures Ok(g, root, S()) && Advances(old(S()), S(), ItemNode(item))
      ensures S() == Walk(g, old(S()), ItemNode(item))
      decreases Rest(g, S()), 0
    {
      hide Ok, CanCall, Advances, Extends, Midway, TopEntered, Rest, Succs, Top, Magic, EnteredIn, Walk, WalkAll;
      ghost var s, x := S(), ItemNode(item);
      if item in visited || item in visiting {
        EnteredItem(g, root, s, item);
        return;
      }
      EnterItem(g, root, s, item);
      WalkOpens(g, root, s, x);
      visiting := visiting + {item};
      active := active + [x];
      ghost var entered := S();
      assert entered == Open(s, x);
      MidwayStart(g, root, entered, x);
      match g.items[item] {
        case Fn(magic, used) =>
          FnSuccs(g, item);
          if magic {
            MidwayEnd(g, root, entered, entered, x);
            LeaveItem(g, root, entered, item);
            visiting := visiting - {item};
            visited := visited + {item};
            active, done := active[..|active| - 1], done + [x];
            assert S() == WithoutItem(g, entered, item);
            CallReturns(s, entered, entered, S(), x);
            return;
          }
          for k := 0 to |used|
            invariant Midway(g, root, entered, S(), x, k)
          {
            ghost var before := S();
            MidwayCall(g, root, entered, before, x, k);
            Visit(used[k]);
            MidwayStep(g, root, entered, before, S(), x, k);
          }
        case Static(_, _, _) =>
          StaticSuccs(g, item);
          VisitStatic(item);
        case GlobalAsm =>
          AsmSuccs(g, item);
      }
      ghost var filled := S();
      MidwayEnd(g, root, entered, filled, x);
      LeaveItem(g, root, filled, item);
      visiting := visiting - {item};
      active, done := active[..|active| - 1], done + [x];
      if item !in visited {
        visited := visited + {item};
        ordered := ordered + [item];
      }
      assert S() == WithoutItem(g, filled, item);
      CallReturns(s, entered, filled, S(), x);
    }

    /** `visit_static`. */
    method VisitStatic(item: Id)
      requires Ok(g, root, S()) && active != [] && Top(S()) == ItemNode(item)
      requires item < |g.items| && g.items[item].Static?
      modifies this
      ensures Midway(g, root, old(S()), S(), ItemNode(item), |Succs(g, ItemNode(item))|)
      decreases Rest(g, S()), 1
    {
      hide Ok, CanCall, Advances, Extends, Midway, TopEntered, Rest, Succs, Top, Magic, EnteredIn, Walk, WalkAll;
      var info := g.items[item];
      ghost var entered, x, c := S(), ItemNode(item), 0;
      MidwayStart(g, root, entered, x);
      StaticSuccs(g, item);
      if info.dropGlue.Some? {
        MidwayCall(g, root, entered, entered, x, 0);
        Visit(info.dropGlue.value);
        MidwayStep(g, root, entered, entered, S(), x, 0);
        c := 1;
      }
      for k := 0 to |info.provenance|
        invariant Midway(g, root, entered, S(), x, c + k)
      {
        ghost var before := S();
        assert Succs(g, x)[c + k] == AllocNode(info.provenance[k]);
        MidwayCall(g, root, entered, before, x, c + k);
        VisitAllocation(info.provenance[k]);
        MidwayStep(g, root, entered, before, S(), x, c + k);
      }
      if info.threadLocalShim.Some? {
        ghost var before := S();
        MidwayCall(g, root, entered, before, x, c + |info.provenance|);
        Visit(info.threadLocalShim.value);
        MidwayStep(g, root, entered, before, S(), x, c + |info.provenance|);
      }
    }

    /** `visit_allocation`. */
    method VisitAllocation(alloc: Id)
      requires Ok(g, root, S()) && CanCall(g, root, S(), AllocNode(alloc))
      modifies this
      ensures Ok(g, root, S()) && Advances(old(S()), S(), AllocNode(alloc))
      ensures S() == Walk(g, old(S()), AllocNode(alloc))
      decreases Rest(g, S()), 0
    {
      hide Ok, CanCall, Advances, Extends, Midway, TopEntered, Rest, Succs, Top, Magic, EnteredIn, Walk, WalkAll;
      ghost var s, x := S(), AllocNode(alloc);
      if alloc in allocations {
        EnteredAlloc(g, root, s, alloc);
        return;
      }
      EnterAlloc(g, root, s, alloc);
      WalkOpens(g, root, s, x);
      allocations := allocations + {alloc};
      active := active + [x];
      ghost var entered := S();
      assert entered == Open(s, x);
      MidwayStart(g, root, entered, x);
      AllocSuccs(g, alloc);
      match g.allocs[alloc] {
        case StaticAlloc(item, local) =>
          if local {
            MidwayCall(g, root, entered, entered, x, 0);
            Visit(item);
            MidwayStep(g, root, entered, entered, S(), x, 0);
          }
        case Memory(provenance) =>
          for k := 0 to |provenance|
            invariant Midway(g, root, entered, S(), x, k)
          {
            ghost var before := S();
            MidwayCall(g, root, entered, before, x, k);
            VisitAllocation(provenance[k]);
            MidwayStep(g, root, entered, before, S(), x, k);
          }
        case FunctionAlloc(item, local) =>
          if local {
            MidwayCall(g, root, entered, entered, x, 0);
            Visit(item);
            MidwayStep(g, root, entered, entered, S(), x, 0);
          }
        case VTable(table) =>
          MidwayCall(g, root, entered, entered, x, 0);
          VisitAllocation(table);
          MidwayStep(g, root, entered, entered, S(), x, 0);
        case TypeId =>
      }
      ghost var filled := S();
      MidwayEnd(g, root, entered, filled, x);
      LeaveAlloc(g, root, filled, alloc);
      active, done := active[..|active| - 1], done + [x];
      assert S() == WithoutAlloc(filled, alloc);
      CallReturns(s, entered, filled, S(), x);
    }
  }

  // ---- the walk keeps its promises ------------------------------------------------------------

  /** A walk from a node that may be called keeps the state in order and enters the node. */
  lemma {:induction false} WalkKeeps(g: Graph, root: Node, s: State, x: Node)
    requires Ok(g, root, s) && CanCall(g, root, s, x)
    ensures Ok(g, root, Walk(g, s, x)) && Advances(s, Walk(g, s, x), x)
    decreases Rest(g, s), 0
  {
    hide Ok, CanCall, Advances, Extends, Midway, TopEntered, Rest, Succs, Top, Magic, EnteredIn, Walk, WalkAll;
    EnteredOrNew(g, root, s, x);
    if EnteredIn(s, x) {
      WalkAgain(g, s, x);
    } else {
      WalkOpens(g, root, s, x);
      var o := Open(s, x);
      OpenKeeps(g, root, s, x);
      MidwayStart(g, root, o, x);
      WalkAllKeeps(g, root, o, o, x, 0);
      var filled := WalkAll(g, o, Succs(g, x), 0);
      MidwayEnd(g, root, o, filled, x);
      CloseKeeps(g, root, filled, x);
      CallReturns(s, o, filled, Close(g, filled, x), x);
    }
  }

  lemma {:induction false} WalkAllKeeps(g: Graph, root: Node, entered: State, s: State, x: Node, k: nat)
    requires k <= |Succs(g, x)| && Midway(g, root, entered, s, x, k)
    ensures Midway(g, root, entered, WalkAll(g, s, Succs(g, x), k), x, |Succs(g, x)|)
    decreases Rest(g, s), 1 + |Succs(g, x)| - k
  {
    hide Ok, CanCall, Advances, Extends, Midway, Rest, Succs, Walk;
    if k < |Succs(g, x)| {
      var t := Walk(g, s, Succs(g, x)[k]);
      MidwayCall(g, root, entered, s, x, k);
      WalkKeeps(g, root, s, Succs(g, x)[k]);
      MidwayStep(g, root, entered, s, t, x, k);
      RestStaysSmall(g, s, t);
      WalkAllKeeps(g, root, entered, t, x, k + 1);
    }
  }

  lemma {:induction false} EnteredOrNew(g: Graph, root: Node, s: State, x: Node)
    requires Ok(g, root, s) && CanCall(g, root, s, x)
    ensures EnteredIn(s, x) ==> Advances(s, s, x)
    ensures !EnteredIn(s, x) ==>
      if x.ItemNode? then x.item !in s.visited && x.item !in s.visiting else x.alloc !in s.allocations
  {
    hide Succs, Emitted, DfsOk, Nodes;
  }

  lemma {:induction false} OpenKeeps(g: Graph, root: Node, s: State, x: Node)
    requires Ok(g, root, s) && CanCall(g, root, s, x) && !EnteredIn(s, x)
    ensures Ok(g, root, Open(s, x)) && Open(s, x).active == s.active + [x] && Open(s, x).done == s.done
    ensures Top(Open(s, x)) == x && Rest(g, Open(s, x)) == Rest(g, s) - {x} && x in Rest(g, s)
  {
    hide Ok, CanCall, EnteredIn, Rest, Top;
    EnteredOrNew(g, root, s, x);
    if x.ItemNode? {
      EnterItem(g, root, s, x.item);
    } else {
      EnterAlloc(g, root, s, x.alloc);
    }
  }

  lemma {:induction false} CloseKeeps(g: Graph, root: Node, s: State, x: Node)
    requires Ok(g, root, s) && s.active != [] && Top(s) == x && TopEntered(g, s)
    ensures Ok(g, root, Close(g, s, x))
    ensures Close(g, s, x).active == s.active[..|s.active| - 1] && Close(g, s, x).done == s.done + [x]
  {
    hide Ok, Top, TopEntered;
    if x.ItemNode? {
      LeaveItem(g, root, s, x.item);
    } else {
      LeaveAlloc(g, root, s, x.alloc);
    }
  }

  // ---- the state in which a node is entered ---------------------------------------------------

  /** The state in which a walk from `x` calls the new node `u`. */
  ghost function EntryIn(g: Graph, s: State, x: Node, u: Node): Option<State>
    decreases Rest(g, s), 0
  {
    if EnteredIn(s, x) || x !in Nodes(g) then None
    else if x == u then Some(s)
    else
      RestShrinks(g, s, Open(s, x), x);
      EntryInAll(g, Open(s, x), Succs(g, x), 0, u)
  }

  ghost function EntryInAll(g: Graph, s: State, succs: seq<Node>, k: nat, u: Node): Option<State>
    requires k <= |succs|
    decreases Rest(g, s), 1 + |succs| - k
  {
    if k == |succs| then None
    else
      var e := EntryIn(g, s, succs[k], u);
      if e.Some? then e
      else
        RestStaysSmall(g, s, Walk(g, s, succs[k]));
        EntryInAll(g, Walk(g, s, succs[k]), succs, k + 1, u)
  }

  /** `e` is a state of the run in which `u` is called for the first time, and the run goes on to `done`. */
  ghost predicate Enters(g: Graph, root: Node, e: State, u: Node, done: seq<Node>) {
    Ok(g, root, e) && CanCall(g, root, e, u) && !EnteredIn(e, u) && Walk(g, e, u).done <= done
  }

  lemma {:induction false} EntersLater(g: Graph, root: Node, e: State, u: Node, done: seq<Node>, later: seq<Node>)
    requires Enters(g, root, e, u, done) && done <= later
    ensures Enters(g, root, e, u, later)
  {
    hide Ok, CanCall, EnteredIn, Walk;
  }

  lemma {:induction false} EntryIsEntered(g: Graph, root: Node, s: State, x: Node, u: Node)
    requires Ok(g, root, s) && CanCall(g, root, s, x)
    requires u in Walk(g, s, x).done && u !in s.done
    ensures EntryIn(g, s, x, u).Some? && Enters(g, root, EntryIn(g, s, x, u).value, u, Walk(g, s, x).done)
    decreases Rest(g, s), 0
  {
    hide Ok, CanCall, Advances, Extends, Midway, TopEntered, Rest, Succs, Top, Magic, Walk, WalkAll;
    if EnteredIn(s, x) {
      WalkAgain(g, s, x);
      assert false;
    }
    CallIsInGraph(g, root, s, x);
    WalkOpens(g, root, s, x);
    if x != u {
      var o := Open(s, x);
      OpenKeeps(g, root, s, x);
      MidwayStart(g, root, o, x);
      var filled := WalkAll(g, o, Succs(g, x), 0);
      WalkAllKeeps(g, root, o, o, x, 0);
      MidwayEnd(g, root, o, filled, x);
      CloseKeeps(g, root, filled, x);
      EntryAllIsEntered(g, root, o, o, x, 0, u);
      EntersLater(g, root, EntryIn(g, s, x, u).value, u, filled.done, Walk(g, s, x).done);
    }
  }

  lemma {:induction false} CallIsInGraph(g: Graph, root: Node, s: State, x: Node)
    requires CanCall(g, root, s, x)
    ensures x in Nodes(g)
  {}

  lemma {:induction false} EntryAllIsEntered(g: Graph, root: Node, entered: State, s: State, x: Node, k: nat, u: Node)
    requires k <= |Succs(g, x)| && Midway(g, root, entered, s, x, k)
    requires u in WalkAll(g, s, Succs(g, x), k).done && u !in s.done
    ensures EntryInAll(g, s, Succs(g, x), k, u).Some?
    ensures Enters(g, root, EntryInAll(g, s, Succs(g, x), k, u).value, u, WalkAll(g, s, Succs(g, x), k).done)
    decreases Rest(g, s), 1 + |Succs(g, x)| - k
  {
    hide Ok, CanCall, Advances, Midway, Rest, Succs, Walk, Enters, EntryIn;
    var kid := Succs(g, x)[k];
    var t := Walk(g, s, kid);
    MidwayCall(g, root, entered, s, x, k);
    MidwayIsOk(g, root, entered, s, x, k);
    RestStaysSmall(g, s, t);
    if u in t.done {
      EntryIsEntered(g, root, s, kid, u);
      EntersLater(g, root, EntryIn(g, s, kid, u).value, u, t.done, WalkAll(g, s, Succs(g, x), k).done);
    } else {
      WalkKeeps(g, root, s, kid);
      MidwayStep(g, root, entered, s, t, x, k);
      EntryAllIsEntered(g, root, entered, t, x, k + 1, u);
      NoEarlierEntry(g, root, s, kid, u);
    }
  }

  lemma {:induction false} MidwayIsOk(g: Graph, root: Node, entered: State, s: State, x: Node, k: nat)
    requires Midway(g, root, entered, s, x, k)
    ensures Ok(g, root, s)
  {
    hide Ok;
  }

  /** A walk that does not finish `u` does not enter it. */
  lemma {:induction false} NoEarlierEntry(g: Graph, root: Node, s: State, x: Node, u: Node)
    requires Ok(g, root, s) && CanCall(g, root, s, x) && u !in Walk(g, s, x).done
    ensures EntryIn(g, s, x, u).None?
    decreases Rest(g, s), 0
  {
    hide Ok, CanCall, Advances, Extends, Midway, TopEntered, Rest, Succs, Top, Magic, Walk, WalkAll;
    if !EnteredIn(s, x) {
      CallIsInGraph(g, root, s, x);
      WalkOpens(g, root, s, x);
      var o := Open(s, x);
      OpenKeeps(g, root, s, x);
      MidwayStart(g, root, o, x);
      var filled := WalkAll(g, o, Succs(g, x), 0);
      WalkAllKeeps(g, root, o, o, x, 0);
      MidwayEnd(g, root, o, filled, x);
      CloseKeeps(g, root, filled, x);
      assert x in Walk(g, s, x).done;
      NoEarlierEntryAll(g, root, o, o, x, 0, u);
    }
  }

  lemma {:induction false} NoEarlierEntryAll(g: Graph, root: Node, entered: State, s: State, x: Node, k: nat, u: Node)
    requires k <= |Succs(g, x)| && Midway(g, root, entered, s, x, k)
    requires u !in WalkAll(g, s, Succs(g, x), k).done
    ensures EntryInAll(g, s, Succs(g, x), k, u).None?
    decreases Rest(g, s), 1 + |Succs(g, x)| - k
  {
    hide Ok, CanCall, Advances, Midway, Rest, Succs, Walk, EntryIn;
    if k < |Succs(g, x)| {
      var kid := Succs(g, x)[k];
      var t := Walk(g, s, kid);
      MidwayCall(g, root, entered, s, x, k);
      MidwayIsOk(g, root, entered, s, x, k);
      RestStaysSmall(g, s, t);
      WalkKeeps(g, root, s, kid);
      MidwayStep(g, root, entered, s, t, x, k);
      assert t.done <= WalkAll(g, s, Succs(g, x), k).done;
      NoEarlierEntry(g, root, s, kid, u);
      NoEarlierEntryAll(g, root, entered, t, x, k + 1, u);
    }
  }

  // ---- what the closure promises --------------------------------------------------------------

  /** The walk is over: everything reachable is finished, in an order that respects dependencies. */
  lemma {:induction false} FinishedExactly(g: Graph, root: Node, s: State, x: Node)
    requires Ok(g, root, s) && s.active == [] && root in s.done
    ensures x in s.done <==> Reaches(g, root, x)
  {
    hide Succs, Emitted, AllSettled, Nodes, Coupled;
    forall y, z | y in s.done && z in Succs(g, y) ensures z in s.done {
      assert Entered(s.active, s.done, z);
    }
    if Reaches(g, root, x) {
      var p :| PathFrom(g, root, x, p);
      ClosedHoldsReachable(g, s.done, p, |p| - 1);
    }
  }

  /** A walk out of `u` whose nodes cannot lead back to `u` ends in an item that comes before `u`. */
  lemma {:induction false} FreeDependencyPrecedes(g: Graph, root: Node, s: State, u: Id, v: Id, walk: seq<Node>)
    requires Ok(g, root, s) && u in s.ordered
    requires FreeWalk(g, ItemNode(u), walk) && Last(walk) == ItemNode(v) && !Magic(g, ItemNode(v))
    ensures Before(s.ordered, v, u)
  {
    hide StackOk, FreeWalk, Emitted, Magic, Before;
    EmittedExactly(g, s.done, u);
    var j :| 0 <= j < |s.done| && s.done[j] == ItemNode(u);
    assert Settled(g, s.done, j);
    var i :| 0 <= i < j && s.done[..j][i] == ItemNode(v);
    EmittedKeepsOrder(g, s.done, i, j);
  }

  lemma {:induction false} DirectWalkIsFree(g: Graph, x: Node, y: Node)
    requires y in Succs(g, x) && !Reaches(g, y, x)
    ensures FreeWalk(g, x, [y]) && Last([y]) == y
  {
    hide Succs, Reaches;
  }

  /** `collect`. A dependency precedes its user when no node on the way to it leads back to the user; for
      the dependencies a function names directly that is the dependency itself. */
  method Collect(g: Graph, target: Id) returns (ordered: seq<Id>)
    requires GraphOk(g) && target < |g.items|
    ensures Distinct(ordered)
    ensures forall i :: i in ordered <==> Reaches(g, ItemNode(target), ItemNode(i)) && !Magic(g, ItemNode(i))
    ensures !Magic(g, ItemNode(target)) ==> ordered != [] && ordered[|ordered| - 1] == target
    ensures forall u, v, walk ::
      u in ordered && FreeWalk(g, ItemNode(u), walk) && Last(walk) == ItemNode(v) && !Magic(g, ItemNode(v)) ==>
        Before(ordered, v, u)
    ensures forall u, v ::
      u in ordered && v in ordered && ItemNode(v) in Succs(g, ItemNode(u)) && !Reaches(g, ItemNode(v), ItemNode(u)) ==>
        Before(ordered, v, u)
    ensures ordered == CollectOrder(g, target)
    ensures forall u, v :: u in ordered && v in ordered && u != v ==>
      && EntryState(g, target, u).Some?
      && (Before(ordered, v, u) <==> FinishedByReturn(g, EntryState(g, target, u).value, u, v))
  {
    hide Succs, Emitted, Magic, Reaches, FreeWalk, DfsOk, Walk, Nodes, Before, EntryState, FinishedByReturn;
    var closure := new AliasMonoClosure(g, target);
    var root := ItemNode(target);
    RootCanBeCalled(g, target);
    closure.Visit(target);
    ghost var s := closure.S();
    ordered := closure.ordered;
    assert Ok(g, root, s) && s.active == [] && root in s.done;
    assert s.done[|s.done| - 1] == root;
    EndOrder(g, target, s);
    forall i ensures i in ordered <==> Reaches(g, root, ItemNode(i)) && !Magic(g, ItemNode(i)) {
      EmittedExactly(g, s.done, i);
      FinishedExactly(g, root, s, ItemNode(i));
    }
    forall u, v, walk | u in ordered && FreeWalk(g, ItemNode(u), walk) && Last(walk) == ItemNode(v)
        && !Magic(g, ItemNode(v))
      ensures Before(ordered, v, u)
    {
      FreeDependencyPrecedes(g, root, s, u, v, walk);
    }
    forall u, v | u in ordered && v in ordered && ItemNode(v) in Succs(g, ItemNode(u))
        && !Reaches(g, ItemNode(v), ItemNode(u))
      ensures Before(ordered, v, u)
    {
      DirectWalkIsFree(g, ItemNode(u), ItemNode(v));
      FreeDependencyPrecedes(g, root, s, u, v, [ItemNode(v)]);
    }
    forall u, v | u in ordered && v in ordered && u != v
      ensures EntryState(g, target, u).Some?
      ensures Before(ordered, v, u) <==> FinishedByReturn(g, EntryState(g, target, u).value, u, v)
    {
      CollectOrderExactly(g, target, u, v);
    }
  }

  const Blank: State := State({}, {}, {}, [], [], [])

  /** The order the closure emits. */
  ghost function CollectOrder(g: Graph, target: Id): seq<Id> { Walk(g, Blank, ItemNode(target)).ordered }

  lemma {:induction false} RootCanBeCalled(g: Graph, target: Id)
    requires target < |g.items|
    ensures CanCall(g, ItemNode(target), Blank, ItemNode(target))
    ensures !EnteredIn(Blank, ItemNode(target))
  {}

  lemma {:induction false} EndOrder(g: Graph, target: Id, s: State)
    requires Ok(g, ItemNode(target), s) && s.done != [] && s.done[|s.done| - 1] == ItemNode(target)
    ensures Distinct(s.ordered)
    ensures !Magic(g, ItemNode(target)) ==> s.ordered != [] && s.ordered[|s.ordered| - 1] == target
  {
    hide Magic, AllSettled, Succs, Nodes, Reaches, IsPath;
    EmittedOnce(g, s.done);
  }

  // ---- what one call finishes, exactly --------------------------------------------------------

  ghost predicate PathAvoiding(g: Graph, open: seq<Node>, x: Node, y: Node, p: seq<Node>) {
    PathFrom(g, x, y, p) && forall z :: z in p ==> z !in open
  }

  /** `x` reaches `y` past none of the open nodes. */
  ghost predicate ReachesAvoiding(g: Graph, open: seq<Node>, x: Node, y: Node) {
    exists p :: PathAvoiding(g, open, x, y, p)
  }

  lemma {:induction false} ThroughKid(g: Graph, open: seq<Node>, x: Node, kid: Node, y: Node)
    requires kid in Succs(g, x) && x !in open && ReachesAvoiding(g, open + [x], kid, y)
    ensures ReachesAvoiding(g, open, x, y)
  {
    hide Succs;
    var p :| PathAvoiding(g, open + [x], kid, y, p);
    assert forall z :: z in open ==> z in open + [x];
    assert PathAvoiding(g, open, x, y, [x] + p);
  }

  lemma {:induction false} AloneReaches(g: Graph, open: seq<Node>, x: Node)
    requires x !in open
    ensures ReachesAvoiding(g, open, x, x)
  {
    assert PathAvoiding(g, open, x, x, [x]);
  }

  /** A call finishes only what its node reaches past the open nodes. */
  lemma {:induction false} WalkFinishesReachable(g: Graph, s: State, x: Node, y: Node)
    requires y in Walk(g, s, x).done && y !in s.done
    ensures ReachesAvoiding(g, s.active, x, y)
    decreases Rest(g, s), 0
  {
    hide Succs, Nodes, Rest, ReachesAvoiding;
    var o := Open(s, x);
    RestShrinks(g, s, o, x);
    AloneReaches(g, s.active, x);
    if y != x {
      var kid := WalkAllFinishesReachable(g, o, Succs(g, x), 0, y);
      ThroughKid(g, s.active, x, kid, y);
    }
  }

  lemma {:induction false} WalkAllFinishesReachable(g: Graph, s: State, succs: seq<Node>, k: nat, y: Node)
    returns (kid: Node)
    requires k <= |succs| && y in WalkAll(g, s, succs, k).done && y !in s.done
    ensures kid in succs && ReachesAvoiding(g, s.active, kid, y)
    decreases Rest(g, s), 1 + |succs| - k
  {
    hide Succs, Nodes, Rest, ReachesAvoiding, Walk;
    var t := Walk(g, s, succs[k]);
    RestStaysSmall(g, s, t);
    if y in t.done {
      kid := succs[k];
      WalkFinishesReachable(g, s, kid, y);
    } else {
      kid := WalkAllFinishesReachable(g, t, succs, k + 1, y);
    }
  }

  lemma {:induction false} PathIsFinished(g: Graph, root: Node, t: State, p: seq<Node>, i: nat)
    requires Ok(g, root, t) && IsPath(g, p) && i < |p| && p[0] in t.done
    requires forall z :: z in p ==> z !in t.active
    ensures p[i] in t.done
    decreases i
  {
    hide Succs, Nodes, Emitted, AllSettled, Coupled;
    if i > 0 {
      PathIsFinished(g, root, t, p, i - 1);
      assert p[i] in Succs(g, p[i - 1]);
      assert Entered(t.active, t.done, p[i]);
    }
  }

  /** When a call on a new node returns, what is finished is what was finished before and what the node
      reaches past the nodes that were open; the node itself is finished last. An item is therefore
      emitted before its user exactly when one of these holds at the call that enters the user. */
  lemma {:induction false} CallFinishesExactly(g: Graph, root: Node, s: State, x: Node, y: Node)
    requires Ok(g, root, s) && CanCall(g, root, s, x) && !EnteredIn(s, x)
    ensures y in Walk(g, s, x).done <==> y in s.done || ReachesAvoiding(g, s.active, x, y)
    ensures Walk(g, s, x).done != [] && Last(Walk(g, s, x).done) == x
  {
    hide Ok, CanCall, Walk, Succs, Nodes, IsPath;
    var t := Walk(g, s, x);
    WalkKeeps(g, root, s, x);
    if y in t.done && y !in s.done {
      WalkFinishesReachable(g, s, x, y);
    }
    if ReachesAvoiding(g, s.active, x, y) {
      var p :| PathAvoiding(g, s.active, x, y, p);
      PathIsFinished(g, root, t, p, |p| - 1);
    }
  }

  lemma {:induction false} NotBoth<T(!new)>(s: seq<T>, x: T, y: T)
    requires Distinct(s) && Before(s, x, y)
    ensures !Before(s, y, x)
  {
    var i, j :| 0 <= i < j < |s| && s[i] == x && s[j] == y;
  }

  /** `v` was finished before the call on `u`, or `u` reaches it past the nodes that are open then. */
  ghost predicate FinishedByReturn(g: Graph, s: State, u: Id, v: Id) {
    ItemNode(v) in s.done || ReachesAvoiding(g, s.active, ItemNode(u), ItemNode(v))
  }

  /** Two emitted items: one precedes the other exactly when it was finished before the call that
      entered the other, or is reached from there past the nodes open at that call. */
  lemma {:induction false} EmittedBeforeExactly(g: Graph, root: Node, s: State, u: Id, v: Id, final: State)
    requires Enters(g, root, s, ItemNode(u), final.done)
    requires Ok(g, root, final) && u in final.ordered && v in final.ordered && u != v
    ensures Before(final.ordered, v, u) <==> FinishedByReturn(g, s, u, v)
  {
    hide Walk, CanCall, Succs, Nodes, IsPath, Magic, Emitted, AllSettled, ReachesAvoiding, Before;
    var t := Walk(g, s, ItemNode(u));
    CallFinishesExactly(g, root, s, ItemNode(u), ItemNode(v));
    EmittedExactly(g, final.done, u);
    EmittedExactly(g, final.done, v);
    EmittedOnce(g, final.done);
    var i :| 0 <= i < |final.done| && final.done[i] == ItemNode(v);
    var j := |t.done| - 1;
    assert final.done[j] == t.done[j] == ItemNode(u);
    if i < j {
      assert t.done[i] == final.done[i];
      EmittedKeepsOrder(g, final.done, i, j);
    } else {
      assert ItemNode(v) !in t.done by { AfterIsOutside(t.done, final.done, i); }
      EmittedKeepsOrder(g, final.done, j, i);
      NotBoth(final.ordered, u, v);
    }
  }

  /** The state of the run in which item `u` is entered. */
  ghost function EntryState(g: Graph, target: Id, u: Id): Option<State> {
    EntryIn(g, Blank, ItemNode(target), ItemNode(u))
  }

  lemma {:induction false} BlankOk(g: Graph, target: Id)
    requires GraphOk(g) && target < |g.items|
    ensures Ok(g, ItemNode(target), Blank)
  {}

  /** In the order the closure emits, one item precedes another exactly when it was finished before the
      call that enters the other, or is reached from there past the nodes open at that call. */
  lemma {:induction false} CollectOrderExactly(g: Graph, target: Id, u: Id, v: Id)
    requires GraphOk(g) && target < |g.items|
    requires u in CollectOrder(g, target) && v in CollectOrder(g, target) && u != v
    ensures EntryState(g, target, u).Some?
    ensures Enters(g, ItemNode(target), EntryState(g, target, u).value, ItemNode(u), Walk(g, Blank,
        ItemNode(target)).done)
    ensures Before(CollectOrder(g, target), v, u) <==> FinishedByReturn(g, EntryState(g, target, u).value, u, v)
  {
    hide Walk, CanCall, Succs, Nodes, GraphOk, DfsOk, Magic, Emitted, Before, EntryIn, Enters, FinishedByReturn;
    var root := ItemNode(target);
    BlankOk(g, target);
    RootCanBeCalled(g, target);
    WalkKeeps(g, root, Blank, root);
    var final := Walk(g, Blank, root);
    EmittedExactly(g, final.done, u);
    EntryIsEntered(g, root, Blank, root, ItemNode(u));
    EmittedBeforeExactly(g, root, EntryState(g, target, u).value, u, v, final);
  }

  lemma {:induction false} AfterIsOutside(front: seq<Node>, whole: seq<Node>, i: nat)
    requires front <= whole && Distinct(whole) && |front| <= i < |whole|
    ensures whole[i] !in front
  {
    forall k | 0 <= k < |front| ensures front[k] != whole[i] {
      assert front[k] == whole[k];
    }
  }

  // ---- a static behind a shared allocation ----------------------------------------------------

  /** Function 0 uses static 1, which points at memory 0, which points at static 2 and function 3;
      static 2 points back at memory 0. */
  const Shared: Graph :=
    Graph([Fn(false, [1]), Static(None, [0], None), Static(None, [0], None), Fn(false, [])],
          [Memory([1, 2]), StaticAlloc(2, true), FunctionAlloc(3, true)])

  lemma {:induction false} SharedNodes(x: Node)
    ensures x in Nodes(Shared) <==> if x.ItemNode? then x.item < 4 else x.alloc < 3
  {}

  lemma {:induction false} SharedSuccs()
    ensures Succs(Shared, ItemNode(0)) == [ItemNode(1)] && Succs(Shared, ItemNode(1)) == [AllocNode(0)]
    ensures Succs(Shared, ItemNode(2)) == [AllocNode(0)] && Succs(Shared, ItemNode(3)) == []
    ensures Succs(Shared, AllocNode(0)) == [AllocNode(1), AllocNode(2)]
    ensures Succs(Shared, AllocNode(1)) == [ItemNode(2)] && Succs(Shared, AllocNode(2)) == [ItemNode(3)]
    ensures !Magic(Shared, ItemNode(0)) && !Magic(Shared, ItemNode(1))
    ensures !Magic(Shared, ItemNode(2)) && !Magic(Shared, ItemNode(3))
  {}

  lemma {:induction false} SharedOk()
    ensures GraphOk(Shared)
  {
    hide Succs, Nodes;
    SharedSuccs();
    forall x, y | x in Nodes(Shared) && y in Succs(Shared, x) ensures y in Nodes(Shared) {
      SharedNodes(x);
      SharedNodes(y);
      assert x in {ItemNode(0), ItemNode(1), ItemNode(2), ItemNode(3), AllocNode(0), AllocNode(1), AllocNode(2)};
    }
  }

  lemma {:induction false} WalkNode(g: Graph, s: State, x: Node)
    requires x in Nodes(g) && !EnteredIn(s, x)
    ensures Walk(g, s, x) == Close(g, WalkAll(g, Open(s, x), Succs(g, x), 0), x)
  {
    hide WalkAll, Succs, Nodes, Close, Open;
  }

  lemma {:induction false} WalkAgain(g: Graph, s: State, x: Node)
    requires EnteredIn(s, x)
    ensures Walk(g, s, x) == s
  {}

  lemma {:induction false} WalkNone(g: Graph, s: State)
    ensures WalkAll(g, s, [], 0) == s
  {}

  lemma {:induction false} WalkOne(g: Graph, s: State, x: Node)
    ensures WalkAll(g, s, [x], 0) == Walk(g, s, x)
  {
    hide Walk;
    assert WalkAll(g, Walk(g, s, x), [x], 1) == Walk(g, s, x);
  }

  lemma {:induction false} WalkTwo(g: Graph, s: State, x: Node, y: Node)
    ensures WalkAll(g, s, [x, y], 0) == Walk(g, Walk(g, s, x), y)
  {
    hide Walk;
    var t := Walk(g, s, x);
    assert WalkAll(g, t, [x, y], 1) == WalkAll(g, Walk(g, t, y), [x, y], 2);
  }

  /** The nodes open while memory 0 is visited. */
  const Path: seq<Node> := [ItemNode(0), ItemNode(1), AllocNode(0)]

  const InMemory: State := State({0, 1}, {}, {0}, [], Path, [])
  const AfterOne: State := State({0, 1}, {2}, {0, 1}, [2], Path, [ItemNode(2), AllocNode(1)])
  const AfterTwo: State :=
    State({0, 1}, {2, 3}, {0, 1, 2}, [2, 3], Path, [ItemNode(2), AllocNode(1), ItemNode(3), AllocNode(2)])

  lemma {:induction false} VisitsOne()
    ensures Walk(Shared, InMemory, AllocNode(1)) == AfterOne
  {
    hide Succs, Nodes, Walk, WalkAll, Magic;
    SharedSuccs();
    var s3 := Open(InMemory, AllocNode(1));
    var s4 := Open(s3, ItemNode(2));
    SharedNodes(AllocNode(1));
    SharedNodes(ItemNode(2));
    WalkNode(Shared, InMemory, AllocNode(1));
    WalkOne(Shared, s3, ItemNode(2));
    WalkNode(Shared, s3, ItemNode(2));
    WalkOne(Shared, s4, AllocNode(0));
    assert s4.active[2] == AllocNode(0);
    WalkAgain(Shared, s4, AllocNode(0));
    var t3 := Close(Shared, s4, ItemNode(2));
    assert t3.active == s3.active && t3.visiting == {0, 1};
    assert Close(Shared, t3, AllocNode(1)).active == Path;
  }

  lemma {:induction false} VisitsTwo()
    ensures Walk(Shared, AfterOne, AllocNode(2)) == AfterTwo
  {
    hide Succs, Nodes, Walk, WalkAll, Magic;
    SharedSuccs();
    var s5 := Open(AfterOne, AllocNode(2));
    var s6 := Open(s5, ItemNode(3));
    SharedNodes(AllocNode(2));
    SharedNodes(ItemNode(3));
    WalkNode(Shared, AfterOne, AllocNode(2));
    WalkOne(Shared, s5, ItemNode(3));
    WalkNode(Shared, s5, ItemNode(3));
    WalkNone(Shared, s6);
    var t5 := Close(Shared, s6, ItemNode(3));
    assert t5.active == s5.active && t5.visiting == {0, 1};
    assert Close(Shared, t5, AllocNode(2)).active == Path;
  }

  lemma {:induction false} OpensMemory()
    ensures Open(Open(Open(Blank, ItemNode(0)), ItemNode(1)), AllocNode(0)) == InMemory
  {
    assert [ItemNode(0)] + [ItemNode(1)] + [AllocNode(0)] == Path;
  }

  lemma {:induction false} ClosesAll()
    ensures Close(Shared, Close(Shared, Close(Shared, AfterTwo, AllocNode(0)), ItemNode(1)), ItemNode(0)).ordered
        == [2, 3, 1, 0]
  {
    hide Succs, Magic;
    SharedSuccs();
    assert Path[..2] == [ItemNode(0), ItemNode(1)] && Path[..2][..1] == [ItemNode(0)];
  }

  lemma {:induction false} SharedOrder()
    ensures CollectOrder(Shared, 0) == [2, 3, 1, 0]
  {
    hide Succs, Nodes, Walk, WalkAll, Magic, Close;
    SharedSuccs();
    VisitsOne();
    VisitsTwo();
    OpensMemory();
    ClosesAll();
    SharedNodes(ItemNode(0));
    SharedNodes(ItemNode(1));
    SharedNodes(AllocNode(0));
    var s0 := Open(Blank, ItemNode(0));
    var s1 := Open(s0, ItemNode(1));
    WalkNode(Shared, Blank, ItemNode(0));
    WalkOne(Shared, s0, ItemNode(1));
    WalkNode(Shared, s0, ItemNode(1));
    WalkOne(Shared, s1, AllocNode(0));
    WalkNode(Shared, s1, AllocNode(0));
    WalkTwo(Shared, InMemory, AllocNode(1), AllocNode(2));
  }

  /** Static 2 depends on function 3, which depends on nothing, and yet is emitted before it. */
  lemma {:induction false} SharedAllocationBreaksOrder()
    ensures GraphOk(Shared) && Shared.items[0].Fn? && CollectOrder(Shared, 0) == [2, 3, 1, 0]
    ensures IsPath(Shared, [ItemNode(2), AllocNode(0), AllocNode(2), ItemNode(3)])
    ensures !Reaches(Shared, ItemNode(3), ItemNode(2))
    ensures !Before(CollectOrder(Shared, 0), 3, 2)
  {
    hide Succs, Nodes, Walk, Magic, CollectOrder;
    SharedOk();
    SharedSuccs();
    SharedOrder();
    FunctionReachesNothing();
  }

  lemma {:induction false} FirstStep(g: Graph, p: seq<Node>)
    requires IsPath(g, p) && |p| > 1
    ensures p[1] in Succs(g, p[0])
  {}

  lemma {:induction false} FunctionReachesNothing()
    ensures !Reaches(Shared, ItemNode(3), ItemNode(2))
  {
    hide Succs;
    SharedSuccs();
    forall p | IsPath(Shared, p) && |p| > 0 && p[0] == ItemNode(3) ensures |p| == 1 {
      if |p| > 1 {
        FirstStep(Shared, p);
        assert false;
      }
    }
  }
}
