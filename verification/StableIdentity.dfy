/** Structural identities of CIL types: the byte stream that is hashed for a type name. Hashing is
    left out; every theorem is about its input. A byte is a character below 256. */
module StableIdentity {
  import opened Arithmetic
  import opened Wrappers

  type Bytes = string

  // ---- framing ------------------------------------------------------------------------------

  function LittleEndian(n: nat, width: nat): (b: Bytes)
    ensures |b| == width
  {
    if width == 0 then [] else [(n % 256) as char] + LittleEndian(n / 256, width - 1)
  }

  function U64Bytes(n: nat): (b: Bytes)
    ensures |b| == 8
  {
    LittleEndian(n, 8)
  }

  /** One field: its length in eight little-endian bytes, then its bytes. */
  function Frame(value: Bytes): Bytes { U64Bytes(|value|) + value }

  lemma {:induction false} LittleEndianInjective(a: nat, b: nat, width: nat)
    requires a < Pow256(width) && b < Pow256(width)
    requires LittleEndian(a, width) == LittleEndian(b, width)
    ensures a == b
  {
    if width > 0 {
      var x, y := LittleEndian(a, width), LittleEndian(b, width);
      assert x[0] == y[0];
      assert x[1..] == LittleEndian(a / 256, width - 1) && y[1..] == LittleEndian(b / 256, width - 1);
      LittleEndianInjective(a / 256, b / 256, width - 1);
    }
  }

  lemma {:induction false} U64BytesInjective(a: nat, b: nat)
    requires a < U64_LIMIT && b < U64_LIMIT && U64Bytes(a) == U64Bytes(b)
    ensures a == b
  {
    assert Pow256(8) == U64_LIMIT by {
      assert Pow256(2) == 0x1_0000 && Pow256(4) == 0x1_0000_0000 && Pow256(6) == 0x1_0000_0000_0000;
    }
    LittleEndianInjective(a, b, 8);
  }

  /** No framed field is a prefix of another one's stream. */
  lemma {:induction false} FramePrefixFree(a: Bytes, b: Bytes, s: Bytes, t: Bytes)
    requires |a| < U64_LIMIT && |b| < U64_LIMIT
    requires Frame(a) + s == Frame(b) + t
    ensures a == b && s == t
  {
    hide LittleEndian;
    var x, y := Frame(a) + s, Frame(b) + t;
    assert x[..8] == U64Bytes(|a|) && y[..8] == U64Bytes(|b|);
    U64BytesInjective(|a|, |b|);
    assert x[8..8 + |a|] == a && y[8..8 + |b|] == b;
    assert x[8 + |a|..] == s && y[8 + |b|..] == t;
  }

  /** Dropping equal heads. */
  lemma {:induction false} DropEqualHead(head: Bytes, s: Bytes, t: Bytes)
    requires head + s == head + t
    ensures s == t
  {
    assert (head + s)[|head|..] == s && (head + t)[|head|..] == t;
  }

  function Fields(values: seq<Bytes>): Bytes {
    if values == [] then [] else Fields(values[..|values| - 1]) + Frame(values[|values| - 1])
  }

  const Version: Bytes := "rustc_codegen_clr.identity.v1"

  /** The stream of `digest_fields`: version, domain, then the fields. */
  function IdentityStream(domain: Bytes, fields: seq<Bytes>): Bytes {
    Frame(Version) + Frame(domain) + Fields(fields)
  }

  lemma {:induction false} FieldsFront(values: seq<Bytes>)
    requires values != []
    ensures Fields(values) == Frame(values[0]) + Fields(values[1..])
  {
    if |values| > 1 {
      var front := values[..|values| - 1];
      FieldsFront(front);
      assert front[1..] == values[1..][..|values| - 2];
    }
  }

  ghost predicate AllShort(values: seq<Bytes>) { forall v :: v in values ==> |v| < U64_LIMIT }

  lemma {:induction false} FieldsInjective(a: seq<Bytes>, b: seq<Bytes>)
    requires AllShort(a) && AllShort(b) && Fields(a) == Fields(b)
    ensures a == b
  {
    hide Frame, LittleEndian;
    if a != [] && b != [] {
      FieldsFront(a);
      FieldsFront(b);
      FramePrefixFree(a[0], b[0], Fields(a[1..]), Fields(b[1..]));
      FieldsInjective(a[1..], b[1..]);
      assert a == [a[0]] + a[1..] && b == [b[0]] + b[1..];
    } else if a != [] {
      FieldsFront(a);
      FrameNonempty(a[0]);
    } else if b != [] {
      FieldsFront(b);
      FrameNonempty(b[0]);
    }
  }

  lemma {:induction false} FrameNonempty(value: Bytes)
    ensures |Frame(value)| >= 8
  {}

  /** Two identities have the same stream only for the same domain and the same field boundaries. */
  lemma {:induction false} IdentityStreamInjective(domain: Bytes, fields: seq<Bytes>, domain': Bytes,
                                                   fields': seq<Bytes>)
    requires |domain| < U64_LIMIT && |domain'| < U64_LIMIT && AllShort(fields) && AllShort(fields')
    requires IdentityStream(domain, fields) == IdentityStream(domain', fields')
    ensures domain == domain' && fields == fields'
  {
    hide Frame, LittleEndian;
    var s, t := Frame(domain) + Fields(fields), Frame(domain') + Fields(fields');
    assert IdentityStream(domain, fields) == Frame(Version) + s;
    assert IdentityStream(domain', fields') == Frame(Version) + t;
    DropEqualHead(Frame(Version), s, t);
    FramePrefixFree(domain, domain', Fields(fields), Fields(fields'));
    FieldsInjective(fields, fields');
  }

  // ---- types as trees, free of arena indices ------------------------------------------------

  datatype Tree =
    | Ptr(inner: Tree)
    | Ref(inner: Tree)
    | Int(name: Bytes)
    | Float(name: Bytes)
    | Simd(name: Bytes)
    | Class(asmName: Bytes, name: Bytes, isValueType: bool, generics: seq<Tree>)
    | PlatformString
    | PlatformChar
    | PlatformGeneric(index: nat, kind: Bytes)
    | PlatformObject
    | Bool
    | Void
    | PlatformArray(dims: nat, elem: Tree)
    | FnPtr(inputs: seq<Tree>, output: Tree)

  function Tag(t: Tree): Bytes {
    match t
    case Ptr(_) => "ptr"
    case Ref(_) => "ref"
    case Int(_) => "int"
    case Float(_) => "float"
    case Simd(_) => "simd"
    case Class(_, _, _, _) => "class"
    case PlatformString => "platform-string"
    case PlatformChar => "platform-char"
    case PlatformGeneric(_, _) => "platform-generic"
    case PlatformObject => "platform-object"
    case Bool => "bool"
    case Void => "void"
    case PlatformArray(_, _) => "platform-array"
    case FnPtr(_, _) => "fnptr"
  }

  function FlagU64(b: bool): nat { if b then 1 else 0 }

  /** The stream after the tag. */
  function Body(t: Tree): Bytes
    decreases t, 0
  {
    match t
    case Ptr(inner) => Encode(inner)
    case Ref(inner) => Encode(inner)
    case Int(name) => Frame(name)
    case Float(name) => Frame(name)
    case Simd(name) => Frame(name)
    case Class(asmName, name, isValueType, generics) =>
      Frame(asmName) + (Frame(name) + (Frame(U64Bytes(if isValueType then 1 else 0))
        + (Frame(U64Bytes(|generics|)) + EncodeAll(generics))))
    case PlatformGeneric(index, kind) => Frame(U64Bytes(index)) + Frame(kind)
    case PlatformArray(dims, elem) => Frame(U64Bytes(dims)) + Encode(elem)
    case FnPtr(inputs, output) => Frame(U64Bytes(|inputs|)) + (EncodeAll(inputs) + Encode(output))
    case _ => []
  }

  function Encode(t: Tree): Bytes
    decreases t, 1
  {
    Frame(Tag(t)) + Body(t)
  }

  function EncodeAll(ts: seq<Tree>): Bytes
    decreases ts, 2
  {
    if ts == [] then [] else EncodeAll(ts[..|ts| - 1]) + Encode(ts[|ts| - 1])
  }

  /** Every length and number fits the u64 it is written as. */
  predicate Fits(t: Tree) {
    match t
    case Ptr(inner) => Fits(inner)
    case Ref(inner) => Fits(inner)
    case Int(name) => |name| < U64_LIMIT
    case Float(name) => |name| < U64_LIMIT
    case Simd(name) => |name| < U64_LIMIT
    case Class(asmName, name, _, generics) =>
      |asmName| < U64_LIMIT && |name| < U64_LIMIT && |generics| < U64_LIMIT && forall g :: g in generics ==> Fits(g)
    case PlatformGeneric(index, kind) => index < U64_LIMIT && |kind| < U64_LIMIT
    case PlatformArray(dims, elem) => dims < U64_LIMIT && Fits(elem)
    case FnPtr(inputs, output) => |inputs| < U64_LIMIT && Fits(output) && forall i :: i in inputs ==> Fits(i)
    case _ => true
  }

  /** Types without a name or a number always fit. */
  lemma {:induction false} ConstantsFit(t: Tree)
    requires t.PlatformString? || t.PlatformChar? || t.PlatformObject? || t.Bool? || t.Void?
    ensures Fits(t)
  {}

  /** The tag names the constructor. */
  function TagIndex(tag: Bytes): nat {
    if tag == "ptr" then 0 else if tag == "ref" then 1 else if tag == "int" then 2 else if tag == "float" then 3
    else if tag == "simd" then 4 else if tag == "class" then 5 else if tag == "platform-string" then 6
    else if tag == "platform-char" then 7 else if tag == "platform-generic" then 8
    else if tag == "platform-object" then 9 else if tag == "bool" then 10 else if tag == "void" then 11
    else if tag == "platform-array" then 12 else 13
  }

  function Constructor(t: Tree): nat {
    match t
    case Ptr(_) => 0 case Ref(_) => 1 case Int(_) => 2 case Float(_) => 3 case Simd(_) => 4
    case Class(_, _, _, _) => 5 case PlatformString => 6 case PlatformChar => 7 case PlatformGeneric(_, _) => 8
    case PlatformObject => 9 case Bool => 10 case Void => 11 case PlatformArray(_, _) => 12 case FnPtr(_, _) => 13
  }

  lemma {:induction false} TagNamesConstructor(t: Tree)
    ensures TagIndex(Tag(t)) == Constructor(t)
    ensures |Tag(t)| < U64_LIMIT
  {}

  /** Reading one field off the front of two equal streams. */
  lemma {:induction false} PeelFrame(a: Bytes, restA: Bytes, s: Bytes, b: Bytes, restB: Bytes, t: Bytes)
    requires |a| < U64_LIMIT && |b| < U64_LIMIT
    requires (Frame(a) + restA) + s == (Frame(b) + restB) + t
    ensures a == b && restA + s == restB + t
  {
    hide Frame;
    assert (Frame(a) + restA) + s == Frame(a) + (restA + s);
    assert (Frame(b) + restB) + t == Frame(b) + (restB + t);
    FramePrefixFree(a, b, restA + s, restB + t);
  }

  lemma {:induction false} PeelU64(m: nat, restA: Bytes, s: Bytes, n: nat, restB: Bytes, t: Bytes)
    requires m < U64_LIMIT && n < U64_LIMIT
    requires (Frame(U64Bytes(m)) + restA) + s == (Frame(U64Bytes(n)) + restB) + t
    ensures m == n && restA + s == restB + t
  {
    hide Frame;
    PeelFrame(U64Bytes(m), restA, s, U64Bytes(n), restB, t);
    U64BytesInjective(m, n);
  }

  /** The main result: a type's stream is a prefix-free code for its structure. Whatever follows,
      equal streams come from structurally equal types and equal remainders. */
  lemma {:induction false} PrefixFree(a: Tree, b: Tree, s: Bytes, t: Bytes)
    requires Fits(a) && Fits(b)
    requires Encode(a) + s == Encode(b) + t
    ensures a == b && s == t
    decreases a, 1
  {
    hide Frame, LittleEndian, U64Bytes, Tag, Body, TagIndex, EncodeAll;
    TagNamesConstructor(a);
    TagNamesConstructor(b);
    PeelFrame(Tag(a), Body(a), s, Tag(b), Body(b), t);
    assert Constructor(a) == Constructor(b);
    match a
    case Ptr(inner) => BodyOfPointer(a); BodyOfPointer(b); PrefixFree(inner, b.inner, s, t);
    case Ref(inner) => BodyOfPointer(a); BodyOfPointer(b); PrefixFree(inner, b.inner, s, t);
    case Int(_) => NamedPrefixFree(a, b, s, t);
    case Float(_) => NamedPrefixFree(a, b, s, t);
    case Simd(_) => NamedPrefixFree(a, b, s, t);
    case Class(_, _, _, _) =>
      ClassHeader(a, b, s, t);
      AllPrefixFree(a.generics, b.generics, s, t);
    case PlatformGeneric(_, _) => GenericPrefixFree(a, b, s, t);
    case PlatformArray(_, _) =>
      ArrayHeader(a, b, s, t);
      PrefixFree(a.elem, b.elem, s, t);
    case FnPtr(inputs, output) =>
      FnPtrHeader(a, b, s, t);
      AllPrefixFree(inputs, b.inputs, Encode(output) + s, Encode(b.output) + t);
      PrefixFree(output, b.output, s, t);
    case _ => BodyOfUnit(a, s); BodyOfUnit(b, t);
  }

  lemma {:induction false} BodyOfPointer(t: Tree)
    requires t.Ptr? || t.Ref?
    ensures Body(t) == Encode(t.inner)
  {}

  lemma {:induction false} BodyOfUnit(t: Tree, s: Bytes)
    requires Constructor(t) in {6, 7, 9, 10, 11}
    ensures Body(t) + s == s
  {}

  lemma {:induction false} NamedPrefixFree(a: Tree, b: Tree, s: Bytes, t: Bytes)
    requires (a.Int? && b.Int?) || (a.Float? && b.Float?) || (a.Simd? && b.Simd?)
    requires Fits(a) && Fits(b) && Body(a) + s == Body(b) + t
    ensures a == b && s == t
  {
    hide Frame;
    FramePrefixFree(a.name, b.name, s, t);
  }

  lemma {:induction false} GenericPrefixFree(a: Tree, b: Tree, s: Bytes, t: Bytes)
    requires a.PlatformGeneric? && b.PlatformGeneric?
    requires Fits(a) && Fits(b) && Body(a) + s == Body(b) + t
    ensures a == b && s == t
  {
    hide Frame, U64Bytes;
    PeelU64(a.index, Frame(a.kind), s, b.index, Frame(b.kind), t);
    FramePrefixFree(a.kind, b.kind, s, t);
  }

  lemma {:induction false} ArrayHeader(a: Tree, b: Tree, s: Bytes, t: Bytes)
    requires a.PlatformArray? && b.PlatformArray?
    requires Fits(a) && Fits(b) && Body(a) + s == Body(b) + t
    ensures a.dims == b.dims && Encode(a.elem) + s == Encode(b.elem) + t
  {
    hide Frame, U64Bytes, Encode;
    PeelU64(a.dims, Encode(a.elem), s, b.dims, Encode(b.elem), t);
  }

  lemma {:induction false} FnPtrHeader(a: Tree, b: Tree, s: Bytes, t: Bytes)
    requires a.FnPtr? && b.FnPtr?
    requires Fits(a) && Fits(b) && Body(a) + s == Body(b) + t
    ensures |a.inputs| == |b.inputs|
    ensures EncodeAll(a.inputs) + (Encode(a.output) + s) == EncodeAll(b.inputs) + (Encode(b.output) + t)
  {
    hide Frame, U64Bytes, Encode, EncodeAll;
    var x, y := EncodeAll(a.inputs) + Encode(a.output), EncodeAll(b.inputs) + Encode(b.output);
    PeelU64(|a.inputs|, x, s, |b.inputs|, y, t);
    assert x + s == EncodeAll(a.inputs) + (Encode(a.output) + s);
    assert y + t == EncodeAll(b.inputs) + (Encode(b.output) + t);
  }

  lemma {:induction false} ClassHeader(a: Tree, b: Tree, s: Bytes, t: Bytes)
    requires a.Class? && b.Class?
    requires Fits(a) && Fits(b) && Body(a) + s == Body(b) + t
    ensures a.asmName == b.asmName && a.name == b.name && a.isValueType == b.isValueType
    ensures |a.generics| == |b.generics|
    ensures EncodeAll(a.generics) + s == EncodeAll(b.generics) + t
  {
    hide Frame, U64Bytes, Encode, EncodeAll;
    var a1, b1 := Frame(U64Bytes(|a.generics|)) + EncodeAll(a.generics),
        Frame(U64Bytes(|b.generics|)) + EncodeAll(b.generics);
    var a2, b2 := Frame(U64Bytes(FlagU64(a.isValueType))) + a1, Frame(U64Bytes(FlagU64(b.isValueType))) + b1;
    var a3, b3 := Frame(a.name) + a2, Frame(b.name) + b2;
    PeelFrame(a.asmName, a3, s, b.asmName, b3, t);
    PeelFrame(a.name, a2, s, b.name, b2, t);
    PeelU64(FlagU64(a.isValueType), a1, s, FlagU64(b.isValueType), b1, t);
    PeelU64(|a.generics|, EncodeAll(a.generics), s, |b.generics|, EncodeAll(b.generics), t);
  }

  lemma {:induction false} EncodeAllFront(ts: seq<Tree>)
    requires ts != []
    ensures EncodeAll(ts) == Encode(ts[0]) + EncodeAll(ts[1..])
  {
    hide Encode;
    if |ts| > 1 {
      var front := ts[..|ts| - 1];
      EncodeAllFront(front);
      assert front[1..] == ts[1..][..|ts| - 2];
      var x, y, z := Encode(ts[0]), EncodeAll(front[1..]), Encode(ts[|ts| - 1]);
      assert (x + y) + z == x + (y + z);
    } else {
      assert ts[..0] == [] && ts[1..] == [];
      assert [] + Encode(ts[0]) == Encode(ts[0]) + [];
    }
  }

  lemma {:induction false} AllPrefixFree(as': seq<Tree>, bs: seq<Tree>, s: Bytes, t: Bytes)
    requires |as'| == |bs|
    requires (forall x :: x in as' ==> Fits(x)) && (forall x :: x in bs ==> Fits(x))
    requires EncodeAll(as') + s == EncodeAll(bs) + t
    ensures as' == bs && s == t
    decreases as', 0
  {
    hide Encode;
    if as' != [] {
      EncodeAllFront(as');
      EncodeAllFront(bs);
      var x, y := EncodeAll(as'[1..]), EncodeAll(bs[1..]);
      assert (Encode(as'[0]) + x) + s == Encode(as'[0]) + (x + s);
      assert (Encode(bs[0]) + y) + t == Encode(bs[0]) + (y + t);
      PrefixFree(as'[0], bs[0], x + s, y + t);
      AllPrefixFree(as'[1..], bs[1..], s, t);
      assert as' == [as'[0]] + as'[1..] && bs == [bs[0]] + bs[1..];
    } else {
      hide EncodeAll;
      EncodeNone(s);
      EncodeNone(t);
    }
  }

  lemma {:induction false} EncodeNone(s: Bytes)
    ensures EncodeAll([]) + s == s
  {}

  // ---- types as arena indices ---------------------------------------------------------------

  datatype Type =
    | PtrTo(inner: nat)
    | RefTo(inner: nat)
    | IntType(name: Bytes)
    | FloatType(name: Bytes)
    | SimdType(name: Bytes)
    | ClassRef(classIndex: nat)
    | StringType
    | CharType
    | GenericType(index: nat, kind: Bytes)
    | ObjectType
    | BoolType
    | VoidType
    | ArrayOf(elem: nat, dims: nat)
    | FnPtrTo(sig: nat)

  datatype ClassData = ClassData(asmName: Option<nat>, name: nat, isValueType: bool, generics: seq<Type>)

  datatype SigData = SigData(inputs: seq<Type>, output: Type)

  datatype Arena = Arena(types: seq<Type>, strings: seq<Bytes>, classes: seq<ClassData>, sigs: seq<SigData>)

  /** Interned type `ty` stands for the finite structure `tree`. A missing assembly name is written
      as an empty one. */
  ghost predicate Denotes(arena: Arena, ty: Type, tree: Tree)
    decreases tree, 0
  {
    match tree
    case Ptr(inner) => ty.PtrTo? && ty.inner < |arena.types| && Denotes(arena, arena.types[ty.inner], inner)
    case Ref(inner) => ty.RefTo? && ty.inner < |arena.types| && Denotes(arena, arena.types[ty.inner], inner)
    case Int(name) => ty == IntType(name)
    case Float(name) => ty == FloatType(name)
    case Simd(name) => ty == SimdType(name)
    case Class(asmName, name, isValueType, generics) =>
      && ty.ClassRef? && ty.classIndex < |arena.classes|
      && var c := arena.classes[ty.classIndex];
      && (c.asmName.Some? ==> c.asmName.value < |arena.strings|)
      && (if c.asmName.Some? && c.asmName.value < |arena.strings| then asmName == arena.strings[c.asmName.value]
          else asmName == "")
      && c.name < |arena.strings| && name == arena.strings[c.name]
      && isValueType == c.isValueType
      && DenotesAll(arena, c.generics, generics)
    case PlatformString => ty == StringType
    case PlatformChar => ty == CharType
    case PlatformGeneric(index, kind) => ty == GenericType(index, kind)
    case PlatformObject => ty == ObjectType
    case Bool => ty == BoolType
    case Void => ty == VoidType
    case PlatformArray(dims, elem) =>
      ty.ArrayOf? && ty.dims == dims && ty.elem < |arena.types| && Denotes(arena, arena.types[ty.elem], elem)
    case FnPtr(inputs, output) =>
      && ty.FnPtrTo? && ty.sig < |arena.sigs|
      && DenotesAll(arena, arena.sigs[ty.sig].inputs, inputs)
      && Denotes(arena, arena.sigs[ty.sig].output, output)
  }

  ghost predicate DenotesAll(arena: Arena, tys: seq<Type>, trees: seq<Tree>)
    decreases trees, 1
  {
    |tys| == |trees| && forall i :: 0 <= i < |trees| ==> Denotes(arena, tys[i], trees[i])
  }

  function AssemblyName(arena: Arena, c: ClassData): Bytes {
    if c.asmName.Some? && c.asmName.value < |arena.strings| then arena.strings[c.asmName.value] else ""
  }

  /** The builder whose `digest` is what has been fed to the hash so far. */
  class IdentityBuilder {
    var digest: Bytes

    constructor (domain: Bytes)
      ensures digest == IdentityStream(domain, [])
    {
      digest := [];
      new;
      WriteBytes(Version);
      WriteBytes(domain);
    }

    method WriteBytes(value: Bytes)
      modifies this
      ensures digest == old(digest) + Frame(value)
    {
      digest := digest + U64Bytes(|value|);
      digest := digest + value;
    }

    method WriteU64(value: nat)
      modifies this
      ensures digest == old(digest) + Frame(U64Bytes(value))
    {
      WriteBytes(U64Bytes(value));
    }
  }

  /** `digest_fields`, up to the hash. */
  method DigestFields(domain: Bytes, fields: seq<Bytes>) returns (identity: IdentityBuilder)
    ensures fresh(identity)
    ensures identity.digest == IdentityStream(domain, fields)
  {
    identity := new IdentityBuilder(domain);
    for i := 0 to |fields|
      invariant identity.digest == IdentityStream(domain, fields[..i])
    {
      assert fields[..i + 1][..i] == fields[..i];
      identity.WriteBytes(fields[i]);
    }
    assert fields[..|fields|] == fields;
  }

  /** `write_type`: the stream grows by the code of the structure that `ty` stands for. */
  method WriteType(identity: IdentityBuilder, ty: Type, arena: Arena, ghost tree: Tree)
    requires Denotes(arena, ty, tree)
    modifies identity
    ensures identity.digest == old(identity.digest) + Encode(tree)
    decreases tree, 2
  {
    hide Frame, U64Bytes, EncodeAll, Encode, Body, Tag;
    match ty
    case PtrTo(inner) =>
      EncodePointer(tree);
      identity.WriteBytes("ptr");
      WriteType(identity, arena.types[inner], arena, tree.inner);
    case RefTo(inner) =>
      EncodePointer(tree);
      identity.WriteBytes("ref");
      WriteType(identity, arena.types[inner], arena, tree.inner);
    case ClassRef(index) => WriteClass(identity, arena.classes[index], arena, tree);
    case ArrayOf(elem, dims) =>
      EncodeArray(tree);
      identity.WriteBytes("platform-array");
      identity.WriteU64(dims);
      WriteType(identity, arena.types[elem], arena, tree.elem);
    case FnPtrTo(index) => WriteFnPtr(identity, arena.sigs[index], arena, tree);
    case _ => WriteLeaf(identity, ty, arena, tree);
  }

  lemma {:induction false} EncodePointer(t: Tree)
    requires t.Ptr? || t.Ref?
    ensures forall d: Bytes :: (d + Frame(if t.Ptr? then "ptr" else "ref")) + Encode(t.inner) == d + Encode(t)
  {
    hide Frame, Tag, Body;
    assert Tag(t) == (if t.Ptr? then "ptr" else "ref") by { PointerTag(t); }
    BodyOfPointer(t);
    forall d: Bytes ensures (d + Frame(Tag(t))) + Body(t) == d + Encode(t) {
      assert (d + Frame(Tag(t))) + Body(t) == d + (Frame(Tag(t)) + Body(t));
    }
  }

  lemma {:induction false} PointerTag(t: Tree)
    requires t.Ptr? || t.Ref?
    ensures Tag(t) == if t.Ptr? then "ptr" else "ref"
  {}

  lemma {:induction false} EncodeArray(t: Tree)
    requires t.PlatformArray?
    ensures forall d: Bytes ::
      ((d + Frame("platform-array")) + Frame(U64Bytes(t.dims))) + Encode(t.elem) == d + Encode(t)
  {
    hide Frame, U64Bytes;
  }

  /** The arms of `write_type` that do not recurse. */
  method WriteLeaf(identity: IdentityBuilder, ty: Type, arena: Arena, ghost tree: Tree)
    requires Denotes(arena, ty, tree)
    requires !ty.PtrTo? && !ty.RefTo? && !ty.ClassRef? && !ty.ArrayOf? && !ty.FnPtrTo?
    modifies identity
    ensures identity.digest == old(identity.digest) + Encode(tree)
    decreases tree, 1
  {
    hide Frame, U64Bytes, EncodeAll, Encode, Body, Tag;
    EncodeLeaf(tree);
    match ty
    case IntType(name) => WriteNamed(identity, "int", name);
    case FloatType(name) => WriteNamed(identity, "float", name);
    case SimdType(name) => WriteNamed(identity, "simd", name);
    case GenericType(index, kind) =>
      identity.WriteBytes("platform-generic");
      identity.WriteU64(index);
      identity.WriteBytes(kind);
    case StringType => WriteUnit(identity, "platform-string");
    case CharType => WriteUnit(identity, "platform-char");
    case ObjectType => WriteUnit(identity, "platform-object");
    case BoolType => WriteUnit(identity, "bool");
    case VoidType => WriteUnit(identity, "void");
  }

  lemma {:induction false} EncodeLeaf(t: Tree)
    ensures t.Int? ==> Encode(t) == Frame("int") + Frame(t.name)
    ensures t.Float? ==> Encode(t) == Frame("float") + Frame(t.name)
    ensures t.Simd? ==> Encode(t) == Frame("simd") + Frame(t.name)
    ensures t.PlatformGeneric? ==>
      Encode(t) == Frame("platform-generic") + (Frame(U64Bytes(t.index)) + Frame(t.kind))
    ensures t.PlatformString? ==> Encode(t) == Frame("platform-string") + []
    ensures t.PlatformChar? ==> Encode(t) == Frame("platform-char") + []
    ensures t.PlatformObject? ==> Encode(t) == Frame("platform-object") + []
    ensures t.Bool? ==> Encode(t) == Frame("bool") + []
    ensures t.Void? ==> Encode(t) == Frame("void") + []
  {
    hide Frame, U64Bytes, EncodeAll;
  }

  method WriteNamed(identity: IdentityBuilder, tag: Bytes, name: Bytes)
    modifies identity
    ensures identity.digest == old(identity.digest) + (Frame(tag) + Frame(name))
  {
    hide Frame;
    identity.WriteBytes(tag);
    identity.WriteBytes(name);
  }

  method WriteUnit(identity: IdentityBuilder, tag: Bytes)
    modifies identity
    ensures identity.digest == old(identity.digest) + (Frame(tag) + [])
  {
    hide Frame;
    identity.WriteBytes(tag);
    assert Frame(tag) + [] == Frame(tag);
  }

  /** The class arm of `write_type`. */
  method WriteClass(identity: IdentityBuilder, c: ClassData, arena: Arena, ghost tree: Tree)
    requires tree.Class? && c.name < |arena.strings|
    requires tree.asmName == AssemblyName(arena, c) && tree.name == arena.strings[c.name]
    requires tree.isValueType == c.isValueType && DenotesAll(arena, c.generics, tree.generics)
    modifies identity
    ensures identity.digest == old(identity.digest) + Encode(tree)
    decreases tree, 1
  {
    hide Frame, U64Bytes, EncodeAll, Denotes, AssemblyName;
    identity.WriteBytes("class");
    identity.WriteBytes(AssemblyName(arena, c));
    identity.WriteBytes(arena.strings[c.name]);
    identity.WriteU64(FlagU64(c.isValueType));
    identity.WriteU64(|c.generics|);
    ghost var d := old(identity.digest);
    ghost var f1, f2, f3 := Frame("class"), Frame(tree.asmName), Frame(tree.name);
    ghost var f4, f5 := Frame(U64Bytes(FlagU64(tree.isValueType))), Frame(U64Bytes(|tree.generics|));
    WriteAll(identity, c.generics, arena, tree.generics, tree);
    Regroup(d, f1, f2, f3, f4, f5, EncodeAll(tree.generics));
  }

  lemma {:induction false} Regroup(d: Bytes, a: Bytes, b: Bytes, c: Bytes, e: Bytes, f: Bytes, g: Bytes)
    ensures d + a + b + c + e + f + g == d + (a + (b + (c + (e + (f + g)))))
  {}

  /** The function-pointer arm of `write_type`. */
  method WriteFnPtr(identity: IdentityBuilder, sig: SigData, arena: Arena, ghost tree: Tree)
    requires tree.FnPtr?
    requires DenotesAll(arena, sig.inputs, tree.inputs) && Denotes(arena, sig.output, tree.output)
    modifies identity
    ensures identity.digest == old(identity.digest) + Encode(tree)
    decreases tree, 1
  {
    hide Frame, U64Bytes, EncodeAll, Denotes;
    identity.WriteBytes("fnptr");
    identity.WriteU64(|sig.inputs|);
    WriteAll(identity, sig.inputs, arena, tree.inputs, tree);
    WriteType(identity, sig.output, arena, tree.output);
    ghost var d, tag, count := old(identity.digest), Frame("fnptr"), Frame(U64Bytes(|tree.inputs|));
    Regroup(d, tag, count, EncodeAll(tree.inputs), Encode(tree.output), [], []);
    assert Encode(tree.output) + ([] + []) == Encode(tree.output);
  }

  /** The loop over generics or inputs of `parent`. */
  method WriteAll(identity: IdentityBuilder, tys: seq<Type>, arena: Arena, ghost trees: seq<Tree>, ghost parent: Tree)
    requires DenotesAll(arena, tys, trees)
    requires forall i :: 0 <= i < |trees| ==> trees[i] < parent
    modifies identity
    ensures identity.digest == old(identity.digest) + EncodeAll(trees)
    decreases parent, 0
  {
    hide Encode, Body;
    for i := 0 to |tys|
      invariant identity.digest == old(identity.digest) + EncodeAll(trees[..i])
    {
      assert trees[..i + 1][..i] == trees[..i];
      WriteType(identity, tys[i], arena, trees[i]);
    }
    assert trees[..|tys|] == trees;
  }

  /** An interned type stands for one structure only. */
  lemma {:induction false} DenotesOnce(arena: Arena, ty: Type, a: Tree, b: Tree)
    requires Denotes(arena, ty, a) && Denotes(arena, ty, b)
    ensures a == b
    decreases a
  {
    match a
    case Ptr(inner) => DenotesOnce(arena, arena.types[ty.inner], inner, b.inner);
    case Ref(inner) => DenotesOnce(arena, arena.types[ty.inner], inner, b.inner);
    case PlatformArray(_, elem) => DenotesOnce(arena, arena.types[ty.elem], elem, b.elem);
    case Class(_, _, _, generics) =>
      forall i | 0 <= i < |generics| ensures generics[i] == b.generics[i] {
        DenotesOnce(arena, arena.classes[ty.classIndex].generics[i], generics[i], b.generics[i]);
      }
    case FnPtr(inputs, output) =>
      DenotesOnce(arena, arena.sigs[ty.sig].output, output, b.output);
      forall i | 0 <= i < |inputs| ensures inputs[i] == b.inputs[i] {
        DenotesOnce(arena, arena.sigs[ty.sig].inputs[i], inputs[i], b.inputs[i]);
      }
    case _ =>
  }

  lemma {:induction false} EncodeInjective(a: Tree, b: Tree)
    requires Fits(a) && Fits(b)
    ensures Encode(a) == Encode(b) <==> a == b
  {
    hide *;
    if Encode(a) == Encode(b) {
      assert Encode(a) + [] == Encode(b) + [];
      PrefixFree(a, b, [], []);
    }
  }

  /** The streams written from two arenas agree exactly when the two types have the same structure,
      whatever their indices are. */
  lemma {:induction false} StreamsAgreeExactly(arena: Arena, ty: Type, tree: Tree, arena': Arena, ty': Type,
                                               tree': Tree)
    requires Denotes(arena, ty, tree) && Denotes(arena', ty', tree')
    requires Fits(tree) && Fits(tree')
    ensures Encode(tree) == Encode(tree') <==> Denotes(arena', ty', tree)
  {
    hide *;
    EncodeInjective(tree, tree');
    if Denotes(arena', ty', tree) {
      DenotesOnce(arena', ty', tree, tree');
    }
  }
}
