/** Array-repeat lowering: `[x; N]` becomes element stores and doubling block copies. The emitted
    roots are executed on a byte memory; a block copy whose ranges overlap is undefined
    (ECMA-335 Partition III section 3.30). */
module Repeat {
  import opened Arithmetic
  import opened Wrappers

  type Byte = int

  type Memory = int -> Byte

  /** The repeated operand: a value already on the stack, or a load that is evaluated at every use. */
  datatype Element = Value(bytes: seq<Byte>) | LoadFrom(address: int)

  /** Where the array lives, and what is repeated. */
  datatype Site = Site(base: int, size: nat, element: Element)

  datatype Root =
    | SetItem(index: nat)
    | CpBlk(offset: nat, length: nat)
    | InitBlk(count: nat)

  const SIMPLE_REPEAT_CAP: nat := 16
  const ISIZE_MAX: nat := 0x7FFF_FFFF_FFFF_FFFF

  // ---- execution ----------------------------------------------------------------------------

  /** Bytes taken by `count` elements. */
  function Span(count: nat, size: nat): nat { count * size }

  /** Position of a byte offset inside its element. */
  function Phase(offset: int, size: nat): (p: nat)
    requires size > 0
    ensures p < size
  {
    offset % size
  }

  function ElementBytes(site: Site, mem: Memory): (b: seq<Byte>)
    requires site.element.Value? ==> |site.element.bytes| == site.size
    ensures |b| == site.size
  {
    match site.element
    case Value(bytes) => bytes
    case LoadFrom(address) => seq(site.size, i => mem(address + i))
  }

  function Store(mem: Memory, address: int, bytes: seq<Byte>): Memory {
    a => if address <= a < address + |bytes| then bytes[a - address] else mem(a)
  }

  function Copied(mem: Memory, to: int, from: int, length: nat, a: int): Byte {
    if to <= a < to + length then mem(from + (a - to)) else mem(a)
  }

  function Copy(mem: Memory, to: int, from: int, length: nat): Memory { a => Copied(mem, to, from, length, a) }

  predicate Overlap(a: int, b: int, length: nat) { a < b + length && b < a + length }

  predicate InRange(x: int, start: int, length: nat) { start <= x < start + length }

  /** Overlapping ranges are those that share a byte. */
  lemma {:induction false} OverlapExactly(a: int, b: int, length: nat)
    ensures Overlap(a, b, length) <==> exists x :: InRange(x, a, length) && InRange(x, b, length)
  {
    if Overlap(a, b, length) {
      var x := if a < b then b else a;
      assert InRange(x, a, length) && InRange(x, b, length);
    }
  }

  function Step(root: Root, site: Site, mem: Memory): Option<Memory>
    requires site.element.Value? ==> |site.element.bytes| == site.size
  {
    match root
    case SetItem(index) => Some(Store(mem, site.base + Span(index, site.size), ElementBytes(site, mem)))
    case CpBlk(offset, length) =>
      var to, n := site.base + Span(offset, site.size), Span(length, site.size);
      if Overlap(to, site.base, n) then None else Some(Copy(mem, to, site.base, n))
    case InitBlk(count) =>
      if site.size != 1 then None
      else
        var bytes := ElementBytes(site, mem);
        Some(a => if site.base <= a < site.base + count then bytes[0] else mem(a))
  }

  /** A block copy onto an overlapping range is undefined. */
  lemma {:induction false} UndefinedSteps(site: Site, mem: Memory, offset: nat, length: nat)
    requires site.element.Value? ==> |site.element.bytes| == site.size
    requires exists x ::
      InRange(x, site.base + Span(offset, site.size), Span(length, site.size))
      && InRange(x, site.base, Span(length, site.size))
    ensures Step(CpBlk(offset, length), site, mem) == None
  {
    OverlapExactly(site.base + Span(offset, site.size), site.base, Span(length, site.size));
  }

  function Exec(roots: seq<Root>, site: Site, mem: Memory): Option<Memory>
    requires site.element.Value? ==> |site.element.bytes| == site.size
  {
    if roots == [] then Some(mem)
    else
      var before := Exec(roots[..|roots| - 1], site, mem);
      if before.None? then None else Step(roots[|roots| - 1], site, before.value)
  }

  /** A place of `times` elements that the operand does not read from. */
  ghost predicate WellPlaced(site: Site, times: nat) {
    && site.size > 0
    && (site.element.Value? ==> |site.element.bytes| == site.size)
    && (site.element.LoadFrom? ==>
          site.element.address + site.size <= site.base || site.base + Span(times, site.size) <= site.element.address)
  }

  /** The first `count` elements hold `bytes`; every other address is as in `before`. */
  ghost predicate Filled(site: Site, bytes: seq<Byte>, count: nat, before: Memory, after: Memory)
    requires |bytes| == site.size > 0
  {
    forall a :: FilledAt(site, bytes, count, before, after, a)
  }

  ghost predicate FilledAt(site: Site, bytes: seq<Byte>, count: nat, before: Memory, after: Memory, a: int)
    requires |bytes| == site.size > 0
  {
    after(a) == if site.base <= a < site.base + Span(count, site.size)
                then bytes[Phase(a - site.base, site.size)] else before(a)
  }

  // ---- emission -----------------------------------------------------------------------------

  function Stores(count: nat): seq<Root> {
    if count == 0 then [] else Stores(count - 1) + [SetItem(count - 1)]
  }

  function Min(a: nat, b: nat): nat { if a < b then a else b }

  /** The doubling copies that start from `done` initialised elements. */
  function Copies(done: nat, times: nat): seq<Root>
    requires done > 0
    decreases times - done
  {
    if done >= times then [] else [CpBlk(done, Min(done, times - done))] + Copies(2 * done, times)
  }

  function Plan(times: nat, size: nat): seq<Root> {
    if size == 1 then [InitBlk(times)]
    else if times > SIMPLE_REPEAT_CAP then Stores(SIMPLE_REPEAT_CAP) + Copies(SIMPLE_REPEAT_CAP, times)
    else Stores(times)
  }

  /** `repeat`: the loops emit the plan, and the u64 doubling never wraps. Zero-sized elements are
      removed before this point, and an array is at most isize::MAX bytes. */
  method EmitRepeat(times: nat, size: nat) returns (branches: seq<Root>)
    requires size > 0 && Span(times, size) <= ISIZE_MAX
    ensures branches == Plan(times, size)
  {
    hide Span;
    if size == 1 {
      return [InitBlk(times)];
    }
    branches := [];
    if times > SIMPLE_REPEAT_CAP {
      for idx := 0 to SIMPLE_REPEAT_CAP
        invariant branches == Stores(idx)
      {
        branches := branches + [SetItem(idx)];
      }
      TimesFitsHalf(times, size);
      hide Copies;
      var currLen := SIMPLE_REPEAT_CAP;
      while currLen < times
        invariant 0 < currLen
        invariant branches + Copies(currLen, times) == Plan(times, size)
        decreases times - currLen
      {
        var currCopySize := if currLen < times - currLen then currLen else times - currLen;
        CopiesStep(branches, currLen, times);
        branches := branches + [CpBlk(currLen, currCopySize)];
        SmallRemainder(currLen * 2, U64_LIMIT);
        currLen := (currLen * 2) % U64_LIMIT;
      }
      CopiesDone(branches, currLen, times);
    } else {
      for idx := 0 to times
        invariant branches == Stores(idx)
      {
        branches := branches + [SetItem(idx)];
      }
    }
  }

  lemma {:induction false} CopiesStep(branches: seq<Root>, done: nat, times: nat)
    requires 0 < done < times
    ensures branches + Copies(done, times)
         == (branches + [CpBlk(done, Min(done, times - done))]) + Copies(2 * done, times)
  {}

  lemma {:induction false} CopiesDone(branches: seq<Root>, done: nat, times: nat)
    requires 0 < done && done >= times
    ensures branches + Copies(done, times) == branches
  {}

  lemma {:induction false} TimesFitsHalf(times: nat, size: nat)
    requires size >= 2 && Span(times, size) <= ISIZE_MAX
    ensures times * 2 <= ISIZE_MAX
  {
    assert times * 2 <= times * size;
  }

  // ---- the plan fills the array -------------------------------------------------------------

  lemma {:induction false} SpanSum(a: nat, b: nat, size: nat)
    ensures Span(a + b, size) == Span(a, size) + Span(b, size)
    ensures Span(1, size) == size
  {}

  lemma {:induction false} SpanMonotone(a: nat, b: nat, size: nat)
    requires a <= b
    ensures Span(a, size) <= Span(b, size)
  {
    assert Span(b, size) - Span(a, size) == (b - a) * size;
  }

  /** Whole elements do not change the phase. */
  lemma {:induction false} PhaseShift(offset: int, count: nat, size: nat)
    requires size > 0
    ensures Phase(offset + Span(count, size), size) == Phase(offset, size)
    ensures 0 <= offset < size ==> Phase(offset, size) == offset
  {
    SameRemainder(offset + Span(count, size), offset, size, count);
  }

  /** The operand still reads the same bytes once part of the array is filled. */
  lemma {:induction false} ElementUnchanged(site: Site, times: nat, count: nat, bytes: seq<Byte>, before: Memory,
                                            after: Memory)
    requires WellPlaced(site, times) && count <= times && bytes == ElementBytes(site, before)
    requires Filled(site, bytes, count, before, after)
    ensures ElementBytes(site, after) == bytes
  {
    hide Span, Phase;
    SpanMonotone(count, times, site.size);
    if site.element.LoadFrom? {
      forall i | 0 <= i < site.size ensures ElementBytes(site, after)[i] == bytes[i] {
        assert FilledAt(site, bytes, count, before, after, site.element.address + i);
      }
    }
  }

  lemma {:induction false} StoreExtends(site: Site, times: nat, count: nat, bytes: seq<Byte>, before: Memory,
                                        after: Memory)
    requires WellPlaced(site, times) && count < times && bytes == ElementBytes(site, before)
    requires Filled(site, bytes, count, before, after)
    ensures Step(SetItem(count), site, after).Some?
    ensures Filled(site, bytes, count + 1, before, Step(SetItem(count), site, after).value)
  {
    ElementUnchanged(site, times, count, bytes, before, after);
    var next := Step(SetItem(count), site, after).value;
    hide Span, Phase, FilledAt, Store;
    var grown := count + 1;
    forall a ensures FilledAt(site, bytes, grown, before, next, a) {
      StoredByte(site, count, bytes, before, after, next, a);
    }
  }

  lemma {:induction false} StoredByte(site: Site, count: nat, bytes: seq<Byte>, before: Memory, after: Memory,
                                      next: Memory, a: int)
    requires |bytes| == site.size > 0
    requires next == Store(after, site.base + Span(count, site.size), bytes)
    requires FilledAt(site, bytes, count, before, after, a)
    ensures FilledAt(site, bytes, count + 1, before, next, a)
  {
    hide Span, Phase;
    SpanSum(count, 1, site.size);
    PhaseShift(a - (site.base + Span(count, site.size)), count, site.size);
  }

  /** A copy of `length` of the `done` elements, placed right behind them, fills `length` more. */
  lemma {:induction false} CopyExtends(site: Site, done: nat, length: nat, bytes: seq<Byte>, before: Memory,
                                       after: Memory)
    requires |bytes| == site.size > 0 && 0 < length <= done
    requires site.element.Value? ==> |site.element.bytes| == site.size
    requires Filled(site, bytes, done, before, after)
    ensures Step(CpBlk(done, length), site, after).Some?
    ensures Filled(site, bytes, done + length, before, Step(CpBlk(done, length), site, after).value)
  {
    hide Span, Phase, FilledAt, Copy, Step;
    CopyIsDefined(site, done, length, after);
    var next := Step(CpBlk(done, length), site, after).value;
    var grown := done + length;
    forall a ensures FilledAt(site, bytes, grown, before, next, a) {
      CopiedByte(site, done, length, bytes, before, after, next, a);
    }
  }

  /** Copying no more than what precedes the destination never overlaps. */
  lemma {:induction false} CopyIsDefined(site: Site, done: nat, length: nat, mem: Memory)
    requires site.element.Value? ==> |site.element.bytes| == site.size
    requires length <= done
    ensures Step(CpBlk(done, length), site, mem)
         == Some(Copy(mem, site.base + Span(done, site.size), site.base, Span(length, site.size)))
  {
    hide Span, Copy;
    SpanMonotone(length, done, site.size);
  }

  lemma {:induction false} CopyAt(mem: Memory, to: int, from: int, length: nat, a: int)
    ensures Copy(mem, to, from, length)(a) == Copied(mem, to, from, length, a)
  {
    hide Copied;
  }

  /** The new byte is the one `filled` bytes before it, and that one was right. */
  lemma {:induction false} CopiedInside(base: int, filled: nat, copied: nat, bytes: seq<Byte>, after: Memory,
                                        next: Memory, a: int)
    requires |bytes| > 0 && copied <= filled && base + filled <= a < base + filled + copied
    requires next == Copy(after, base + filled, base, copied)
    requires after(a - filled) == bytes[Phase(a - filled - base, |bytes|)]
    requires Phase(a - filled - base, |bytes|) == Phase(a - base, |bytes|)
    ensures next(a) == bytes[Phase(a - base, |bytes|)]
  {
    hide Copy, Phase;
    CopyAt(after, base + filled, base, copied, a);
    assert base + (a - (base + filled)) == a - filled;
  }

  lemma {:induction false} CopiedByte(site: Site, done: nat, length: nat, bytes: seq<Byte>, before: Memory,
                                      after: Memory, next: Memory, a: int)
    requires |bytes| == site.size > 0 && length <= done
    requires next == Copy(after, site.base + Span(done, site.size), site.base, Span(length, site.size))
    requires FilledAt(site, bytes, done, before, after, a)
    requires FilledAt(site, bytes, done, before, after, a - Span(done, site.size))
    ensures FilledAt(site, bytes, done + length, before, next, a)
  {
    hide Span, Phase, Copy;
    MirroredOffset(site, done, length, a);
    var filled, copied := Span(done, site.size), Span(length, site.size);
    if site.base + filled <= a < site.base + filled + copied {
      CopiedInside(site.base, filled, copied, bytes, after, next, a);
    } else {
      CopyAt(after, site.base + filled, site.base, copied, a);
    }
  }

  /** The source byte of a copied byte lies in the filled part, at the same phase. */
  lemma {:induction false} MirroredOffset(site: Site, done: nat, length: nat, a: int)
    requires site.size > 0 && length <= done
    ensures Span(done + length, site.size) == Span(done, site.size) + Span(length, site.size)
    ensures Span(length, site.size) <= Span(done, site.size)
    ensures Phase(a - Span(done, site.size) - site.base, site.size) == Phase(a - site.base, site.size)
  {
    SpanMonotone(length, done, site.size);
    SpanSum(done, length, site.size);
    hide Span, Phase;
    PhaseShift(a - Span(done, site.size) - site.base, done, site.size);
  }

  lemma {:induction false} ExecConcat(a: seq<Root>, b: seq<Root>, site: Site, mem: Memory)
    requires site.element.Value? ==> |site.element.bytes| == site.size
    ensures Exec(a + b, site, mem)
         == (var m := Exec(a, site, mem); if m.None? then None else Exec(b, site, m.value))
  {
    if b == [] {
      assert a + b == a;
    } else {
      ExecConcat(a, b[..|b| - 1], site, mem);
      assert (a + b)[..|a + b| - 1] == a + b[..|b| - 1];
    }
  }

  lemma {:induction false} NothingFilled(site: Site, bytes: seq<Byte>, mem: Memory)
    requires |bytes| == site.size > 0
    ensures Filled(site, bytes, 0, mem, mem)
  {}

  lemma {:induction false} StoresFill(count: nat, times: nat, site: Site, mem: Memory)
    requires WellPlaced(site, times) && count <= times
    ensures Exec(Stores(count), site, mem).Some?
    ensures Filled(site, ElementBytes(site, mem), count, mem, Exec(Stores(count), site, mem).value)
  {
    hide Span, Phase, Step;
    if count == 0 {
      NothingFilled(site, ElementBytes(site, mem), mem);
    } else {
      StoresFill(count - 1, times, site, mem);
      var prefix := Stores(count - 1);
      assert Stores(count)[..|Stores(count)| - 1] == prefix;
      StoreExtends(site, times, count - 1, ElementBytes(site, mem), mem, Exec(prefix, site, mem).value);
    }
  }

  lemma {:induction false} CopiesFill(done: nat, times: nat, site: Site, bytes: seq<Byte>, before: Memory,
                                      after: Memory)
    requires 0 < done && |bytes| == site.size > 0
    requires site.element.Value? ==> |site.element.bytes| == site.size
    requires Filled(site, bytes, done, before, after)
    ensures Exec(Copies(done, times), site, after).Some?
    ensures done <= times ==> Filled(site, bytes, times, before, Exec(Copies(done, times), site, after).value)
    decreases times - done
  {
    hide Span, Phase, Step;
    if done < times {
      var length := Min(done, times - done);
      var head := [CpBlk(done, length)];
      CopyExtends(site, done, length, bytes, before, after);
      ExecConcat(head, Copies(2 * done, times), site, after);
      assert Exec(head, site, after) == Step(head[0], site, after) by { assert head[..0] == []; }
      var next := Step(head[0], site, after).value;
      if length == done {
        CopiesFill(2 * done, times, site, bytes, before, next);
      } else {
        assert Copies(2 * done, times) == [];
      }
    }
  }

  lemma {:induction false} InitFills(times: nat, site: Site, mem: Memory)
    requires WellPlaced(site, times) && site.size == 1
    ensures Exec([InitBlk(times)], site, mem).Some?
    ensures Filled(site, ElementBytes(site, mem), times, mem, Exec([InitBlk(times)], site, mem).value)
  {
    assert [InitBlk(times)][..0] == [];
  }

  /** The main result: whatever the memory, the emitted roots run without an overlapping copy, fill
      all `times` elements with the operand's bytes, and touch nothing else. */
  lemma {:induction false} PlanFills(times: nat, site: Site, mem: Memory)
    requires WellPlaced(site, times)
    ensures Exec(Plan(times, site.size), site, mem).Some?
    ensures Filled(site, ElementBytes(site, mem), times, mem, Exec(Plan(times, site.size), site, mem).value)
  {
    var bytes := ElementBytes(site, mem);
    if site.size == 1 {
      InitFills(times, site, mem);
    } else if times > SIMPLE_REPEAT_CAP {
      StoresFill(SIMPLE_REPEAT_CAP, times, site, mem);
      var after := Exec(Stores(SIMPLE_REPEAT_CAP), site, mem).value;
      ExecConcat(Stores(SIMPLE_REPEAT_CAP), Copies(SIMPLE_REPEAT_CAP, times), site, mem);
      CopiesFill(SIMPLE_REPEAT_CAP, times, site, bytes, mem, after);
    } else {
      StoresFill(times, times, site, mem);
    }
  }

  // ---- how many roots -----------------------------------------------------------------------

  function Pow2(k: nat): nat { if k == 0 then 1 else 2 * Pow2(k - 1) }

  /** The number of block copies is the least one that doubling allows. */
  lemma {:induction false} CopiesCount(done: nat, times: nat)
    requires 0 < done < times
    ensures var k := |Copies(done, times)|;
      k > 0 && done * Pow2(k - 1) < times <= done * Pow2(k)
    decreases times - done
  {
    if 2 * done < times {
      CopiesCount(2 * done, times);
      var k := |Copies(2 * done, times)|;
      DoublePow(done, k);
      DoublePow(done, k - 1);
    } else {
      assert Copies(2 * done, times) == [];
      DoublePow(done, 0);
    }
  }

  lemma {:induction false} DoublePow(done: nat, k: nat)
    ensures done * Pow2(k + 1) == (2 * done) * Pow2(k)
    ensures done * Pow2(0) == done
  {}

  /** Doubling a u64 from 16 up to `times` stays below 2^64 exactly when `times` is at most 2^63. */
  lemma {:induction false} DoublingFitsExactly(times: nat)
    requires SIMPLE_REPEAT_CAP < times < U64_LIMIT
    ensures SIMPLE_REPEAT_CAP * Pow2(|Copies(SIMPLE_REPEAT_CAP, times)|) < U64_LIMIT <==> times <= 0x8000_0000_0000_0000
  {
    var k := |Copies(SIMPLE_REPEAT_CAP, times)|;
    CopiesCount(SIMPLE_REPEAT_CAP, times);
    Pow2Of59();
    if k <= 59 {
      Pow2Monotone(k, 59);
    } else {
      Pow2Monotone(60, k);
      Pow2Monotone(59, k - 1);
    }
  }

  lemma {:induction false} Pow2Of59()
    ensures 16 * Pow2(59) == 0x8000_0000_0000_0000 && Pow2(60) == 2 * Pow2(59)
  {
    assert Pow2(8) == 0x100;
    Pow2Sum(8, 8);
    Pow2Sum(16, 16);
    Pow2Sum(32, 16);
    Pow2Sum(48, 8);
    assert Pow2(3) == 8;
    Pow2Sum(56, 3);
  }

  lemma {:induction false} Pow2Sum(a: nat, b: nat)
    ensures Pow2(a + b) == Pow2(a) * Pow2(b)
  {
    if b > 0 {
      Pow2Sum(a, b - 1);
    }
  }

  lemma {:induction false} Pow2Monotone(a: nat, b: nat)
    requires a <= b
    ensures Pow2(a) <= Pow2(b)
    decreases b - a
  {
    if a < b {
      Pow2Monotone(a, b - 1);
    }
  }
}
