/** Exact-name batching of test names: the greedy packer and the stable bisection that the
    adaptive loop falls back to. A name is its fs-encoded byte string, so its command-line
    width is its length plus one separator. */
module Packing {
  type Name = string
  type Batch = seq<Name>

  datatype PackResult =
    | Packed(batches: seq<Batch>)
    | BadCaps
    | NameTooLong(name: Name)

  function Width(name: Name): nat { |name| + 1 }

  function Bytes(batch: Batch): nat {
    if batch == [] then 0 else Bytes(batch[..|batch| - 1]) + Width(batch[|batch| - 1])
  }

  /** The names of a batch as they stand on a command line, each followed by a separator. */
  function CommandLine(batch: Batch): string {
    if batch == [] then "" else CommandLine(batch[..|batch| - 1]) + batch[|batch| - 1] + " "
  }

  /** The bytes counted for a batch are those of its command line. */
  lemma {:induction false} BytesOfCommandLine(batch: Batch)
    ensures Bytes(batch) == |CommandLine(batch)|
  {
    if batch != [] {
      BytesOfCommandLine(batch[..|batch| - 1]);
    }
  }

  function Flatten(batches: seq<Batch>): seq<Name> {
    if batches == [] then [] else Flatten(batches[..|batches| - 1]) + batches[|batches| - 1]
  }

  /** What the caller may put on one command line. */
  ghost predicate Fits(batch: Batch, maxTests: int, maxBytes: int) {
    0 < |batch| <= maxTests && Bytes(batch) <= maxBytes
  }

  /** Any order-preserving split of `names` into batches within both caps. */
  ghost predicate IsSplit(batches: seq<Batch>, names: seq<Name>, maxTests: int, maxBytes: int) {
    && Flatten(batches) == names
    && forall b :: b in batches ==> Fits(b, maxTests, maxBytes)
  }

  /** `batch` could not also have taken `name`. */
  ghost predicate Full(batch: Batch, name: Name, maxTests: int, maxBytes: int) {
    |batch| >= maxTests || Bytes(batch) + Width(name) > maxBytes
  }

  /** No batch could also have taken the first name of its successor. */
  ghost predicate Greedy(batches: seq<Batch>, maxTests: int, maxBytes: int) {
    |batches| <= 1 ||
    (var last := |batches| - 1;
     && Greedy(batches[..last], maxTests, maxBytes)
     && (batches[last] != [] ==> Full(batches[last - 1], batches[last][0], maxTests, maxBytes)))
  }

  lemma {:induction false} GreedyTail(batches: seq<Batch>, maxTests: int, maxBytes: int)
    requires batches != [] && Greedy(batches, maxTests, maxBytes)
    ensures Greedy(batches[1..], maxTests, maxBytes)
    ensures |batches| > 1 && batches[1] != [] ==> Full(batches[0], batches[1][0], maxTests, maxBytes)
  {
    var last := |batches| - 1;
    if last > 1 {
      GreedyTail(batches[..last], maxTests, maxBytes);
      assert batches[1..][..last - 1] == batches[..last][1..];
    }
  }

  lemma {:induction false} BytesOfConcat(a: Batch, b: Batch)
    ensures Bytes(a + b) == Bytes(a) + Bytes(b)
  {
    if b == [] {
      assert a + b == a;
    } else {
      BytesOfConcat(a, b[..|b| - 1]);
      assert (a + b)[..|a + b| - 1] == a + b[..|b| - 1];
    }
  }

  lemma {:induction false} FlattenOfConcat(a: seq<Batch>, b: seq<Batch>)
    ensures Flatten(a + b) == Flatten(a) + Flatten(b)
  {
    if b == [] {
      assert a + b == a;
    } else {
      FlattenOfConcat(a, b[..|b| - 1]);
      assert (a + b)[..|a + b| - 1] == a + b[..|b| - 1];
    }
  }

  lemma {:induction false} FlattenFront(batches: seq<Batch>)
    requires batches != []
    ensures Flatten(batches) == batches[0] + Flatten(batches[1..])
  {
    FlattenOfConcat([batches[0]], batches[1..]);
    assert [batches[0]] + batches[1..] == batches;
    assert Flatten([batches[0]]) == batches[0] by {
      assert [batches[0]][..0] == [];
    }
  }

  /** Greedy stays ahead: a rival that still has `lead` extra names to place in front of the
      greedy remainder needs at least as many batches. */
  lemma {:induction false} GreedyStaysAhead(greedy: seq<Batch>, rival: seq<Batch>, lead: seq<Name>,
                                            maxTests: int, maxBytes: int)
    requires forall b :: b in greedy ==> Fits(b, maxTests, maxBytes)
    requires forall b :: b in rival ==> Fits(b, maxTests, maxBytes)
    requires Greedy(greedy, maxTests, maxBytes)
    requires Flatten(rival) == lead + Flatten(greedy)
    ensures |greedy| <= |rival|
    decreases |rival|
  {
    if greedy == [] {
      return;
    }
    FlattenFront(greedy);
    assert greedy[0] in greedy;
    if rival == [] {
      assert false;
    }
    FlattenFront(rival);
    var first, rest := rival[0], rival[1..];
    assert first in rival;
    assert forall b :: b in rest ==> b in rival;
    assert first + Flatten(rest) == lead + Flatten(greedy);
    if |first| <= |lead| {
      assert first == lead[..|first|] by {
        assert (first + Flatten(rest))[..|first|] == (lead + Flatten(greedy))[..|first|];
      }
      assert Flatten(rest) == lead[|first|..] + Flatten(greedy) by {
        assert (first + Flatten(rest))[|first|..] == (lead + Flatten(greedy))[|first|..];
      }
      GreedyStaysAhead(greedy, rest, lead[|first|..], maxTests, maxBytes);
    } else {
      RivalBatchEndsInside(greedy, first, Flatten(rest), lead, maxTests, maxBytes);
      var taken := |first| - |lead|;
      assert Flatten(rest) == greedy[0][taken..] + Flatten(greedy[1..]) by {
        assert (first + Flatten(rest))[|first|..] == (lead + (greedy[0] + Flatten(greedy[1..])))[|first|..];
      }
      GreedyTail(greedy, maxTests, maxBytes);
      GreedyStaysAhead(greedy[1..], rest, greedy[0][taken..], maxTests, maxBytes);
    }
  }

  lemma {:induction false} BytesOfOne(name: Name)
    ensures Bytes([name]) == Width(name)
  {
    assert [name][..0] == [];
  }

  lemma {:induction false} BytesOfPrefix(batch: Batch, count: nat)
    requires count <= |batch|
    ensures Bytes(batch[..count]) <= Bytes(batch)
  {
    BytesOfConcat(batch[..count], batch[count..]);
    assert batch[..count] + batch[count..] == batch;
  }

  /** A rival batch reaching past its lead ends no later than the first greedy batch. */
  lemma {:induction false} RivalBatchEndsInside(greedy: seq<Batch>, first: Batch, after: seq<Name>, lead: seq<Name>,
                                                maxTests: int, maxBytes: int)
    requires greedy != []
    requires forall b :: b in greedy ==> Fits(b, maxTests, maxBytes)
    requires Greedy(greedy, maxTests, maxBytes)
    requires Fits(first, maxTests, maxBytes)
    requires first + after == lead + Flatten(greedy)
    requires |first| > |lead|
    ensures |first| - |lead| <= |greedy[0]|
  {
    FlattenFront(greedy);
    GreedyTail(greedy, maxTests, maxBytes);
    var tail := Flatten(greedy[1..]);
    if |first| - |lead| > |greedy[0]| {
      assert |first + after| == |lead| + |greedy[0]| + |tail|;
      FlattenFront(greedy[1..]);
      assert greedy[1] in greedy;
      assert tail[0] == greedy[1][0];
      OverlongBatch(first, after, lead, greedy[0], tail, maxTests, maxBytes);
    }
  }

  lemma {:induction false} OverlongBatch(first: Batch, after: seq<Name>, lead: seq<Name>, own: Batch, tail: seq<Name>,
                                         maxTests: int, maxBytes: int)
    requires first + after == lead + (own + tail)
    requires tail != [] && |first| > |lead| + |own|
    requires Fits(first, maxTests, maxBytes)
    ensures !Full(own, tail[0], maxTests, maxBytes)
  {
    var cut := |lead| + |own| + 1;
    assert first[..cut] == lead + (own + [tail[0]]) by {
      assert first[..cut] == (first + after)[..cut];
    }
    BytesOfPrefix(first, cut);
    BytesOfConcat(lead, own + [tail[0]]);
    BytesOfConcat(own, [tail[0]]);
    BytesOfOne(tail[0]);
  }

  /** Closing `current` and opening a new batch keeps the greedy shape. */
  lemma {:induction false} GreedyAfterClose(batches: seq<Batch>, current: Batch, name: Name, maxTests: int,
                                            maxBytes: int)
    requires Greedy(batches + [current], maxTests, maxBytes)
    requires Full(current, name, maxTests, maxBytes)
    ensures Greedy(batches + [current] + [[name]], maxTests, maxBytes)
  {
    var next := batches + [current] + [[name]];
    assert next[..|next| - 1] == batches + [current];
  }

  lemma {:induction false} GreedyAfterGrow(batches: seq<Batch>, current: Batch, name: Name, maxTests: int,
                                           maxBytes: int)
    requires Greedy(batches + [current], maxTests, maxBytes)
    requires current == [] ==> batches == []
    ensures Greedy(batches + [current + [name]], maxTests, maxBytes)
  {
    var before, next := batches + [current], batches + [current + [name]];
    assert before[..|before| - 1] == batches == next[..|next| - 1];
  }

  lemma {:induction false} FlattenNone()
    ensures Flatten([]) == [] && Bytes([]) == 0
  {}

  lemma {:induction false} GreedyStart(maxTests: int, maxBytes: int)
    ensures Greedy([[]], maxTests, maxBytes)
  {}

  lemma {:induction false} FlattenSnoc(batches: seq<Batch>, batch: Batch)
    ensures Flatten(batches + [batch]) == Flatten(batches) + batch
  {
    assert (batches + [batch])[..|batches|] == batches;
  }

  lemma {:induction false} NoSplitIsShorter(batches: seq<Batch>, names: seq<Name>, maxTests: int, maxBytes: int)
    requires Flatten(batches) == names && (batches == [] || Greedy(batches, maxTests, maxBytes))
    requires forall b :: b in batches ==> Fits(b, maxTests, maxBytes)
    ensures forall rival :: IsSplit(rival, names, maxTests, maxBytes) ==> |batches| <= |rival|
  {
    hide Flatten, Bytes;
    forall rival | IsSplit(rival, names, maxTests, maxBytes) ensures |batches| <= |rival| {
      assert names == [] + Flatten(batches);
      GreedyStaysAhead(batches, rival, [], maxTests, maxBytes);
    }
  }

  /** `exact_name_batches`: the split it returns is valid, and no valid split is shorter. */
  method ExactNameBatches(names: seq<Name>, maxTests: int, maxBytes: int) returns (r: PackResult)
    ensures r.BadCaps? <==> maxTests <= 0 || maxBytes <= 0
    ensures r.NameTooLong? <==> maxTests > 0 && maxBytes > 0 && exists n :: n in names && Width(n) > maxBytes
    ensures r.NameTooLong? ==>
      exists i :: 0 <= i < |names| && r.name == names[i] && Width(names[i]) > maxBytes
               && forall j :: 0 <= j < i ==> Width(names[j]) <= maxBytes
    ensures r.Packed? ==> IsSplit(r.batches, names, maxTests, maxBytes)
    ensures r.Packed? ==>
      forall rival :: IsSplit(rival, names, maxTests, maxBytes) ==> |r.batches| <= |rival|
  {
    hide Flatten, Greedy, Bytes;
    if maxTests <= 0 || maxBytes <= 0 {
      return BadCaps;
    }
    var batches: seq<Batch> := [];
    var current: Batch := [];
    var currentBytes := 0;
    FlattenNone();
    GreedyStart(maxTests, maxBytes);
    assert batches + [current] == [[]];
    for i := 0 to |names|
      invariant forall j :: 0 <= j < i ==> Width(names[j]) <= maxBytes
      invariant Flatten(batches) + current == names[..i]
      invariant currentBytes == Bytes(current)
      invariant current == [] ==> batches == []
      invariant |current| <= maxTests && Bytes(current) <= maxBytes
      invariant forall b :: b in batches ==> Fits(b, maxTests, maxBytes)
      invariant Greedy(batches + [current], maxTests, maxBytes)
    {
      var name := names[i];
      var nameBytes := Width(name);
      if nameBytes > maxBytes {
        return NameTooLong(name);
      }
      assert names[..i + 1] == names[..i] + [name];
      BytesOfOne(name);
      if current != [] && (|current| >= maxTests || currentBytes + nameBytes > maxBytes) {
        GreedyAfterClose(batches, current, name, maxTests, maxBytes);
        FlattenSnoc(batches, current);
        batches := batches + [current];
        current := [];
        currentBytes := 0;
        FlattenNone();
      } else {
        GreedyAfterGrow(batches, current, name, maxTests, maxBytes);
        BytesOfConcat(current, [name]);
      }
      assert current == [] ==> current + [name] == [name];
      current := current + [name];
      currentBytes := currentBytes + nameBytes;
    }
    assert names[..|names|] == names;
    FlattenNone();
    if current != [] {
      FlattenSnoc(batches, current);
      batches := batches + [current];
    } else {
      assert batches == [];
    }
    NoSplitIsShorter(batches, names, maxTests, maxBytes);
    return Packed(batches);
  }

  /** `bisect_exact_name_batch`: two nonempty shorter halves in order, or nothing for at most
      one name. */
  function Bisect(names: Batch): (children: seq<Batch>)
    ensures |names| <= 1 <==> children == []
    ensures children != [] ==> Flatten(children) == names
    ensures children != [] ==> |children| == 2 && 0 < |children[0]| <= |children[1]| <= |children[0]| + 1
    ensures forall c :: c in children ==> |c| < |names|
  {
    if |names| <= 1 then []
    else
      var midpoint := |names| / 2;
      var children := [names[..midpoint], names[midpoint..]];
      FlattenFront(children);
      FlattenFront(children[1..]);
      assert Flatten(children) == names;
      children
  }
}
