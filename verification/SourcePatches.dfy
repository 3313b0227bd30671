/** Source compatibility edits: transforming one file, digesting a tree as if it were patched, and
    patching it. The hash is left out: a digest is the byte stream that is hashed. */
module SourcePatches {
  import opened Arithmetic
  import opened Wrappers

  type Byte = b: int | 0 <= b < 256

  type Bytes = seq<Byte>

  /** A path inside the suite root. */
  datatype Path = Path(absolute: bool, parts: seq<Bytes>)

  datatype Patch = Patch(path: Path, marker: Bytes, insertion: Bytes)

  datatype Rewrite = Rewrite(path: Path, marker: Bytes, replacement: Bytes)

  datatype Error = Escapes(path: Path) | EmptyText | Occurrences(count: nat) | Missing(path: Path)

  datatype Result<T> = Ok(value: T) | Err(error: Error)

  const DotDot: Bytes := [46, 46]

  /** `_validate_source_patch_path` refuses it. */
  predicate EscapesRoot(p: Path) { p.absolute || DotDot in p.parts }

  // ---- searching bytes ------------------------------------------------------------------------

  predicate OccursAt(s: Bytes, m: Bytes, i: nat) { i + |m| <= |s| && s[i..i + |m|] == m }

  /** The first occurrence at or after `i`. */
  function Find(s: Bytes, m: Bytes, i: nat): (r: Option<nat>)
    ensures r.Some? ==> r.value >= i && OccursAt(s, m, r.value)
    ensures r.Some? ==> forall j :: i <= j < r.value ==> !OccursAt(s, m, j)
    ensures r.None? ==> forall j :: i <= j ==> !OccursAt(s, m, j)
    decreases |s| - i
  {
    if i + |m| > |s| then None
    else if OccursAt(s, m, i) then Some(i)
    else if i == |s| then None
    else Find(s, m, i + 1)
  }

  predicate Contains(s: Bytes, m: Bytes) { Find(s, m, 0).Some? }

  /** Non-overlapping occurrences, left to right. */
  function Count(s: Bytes, m: Bytes, i: nat): nat
    requires m != []
    decreases |s| - i
  {
    var j := Find(s, m, i);
    if j.None? then 0 else 1 + Count(s, m, j.value + |m|)
  }

  // ---- one edit -------------------------------------------------------------------------------

  datatype Edit = Insert(patch: Patch) | Replace(rewrite: Rewrite)

  /** An edit finds its work done and leaves the contents alone. */
  predicate Done(e: Edit, c: Bytes) {
    match e
    case Insert(p) => Contains(c, p.insertion)
    case Replace(r) => Contains(c, r.replacement) && !Contains(c, r.marker)
  }

  function Marker(e: Edit): Bytes { if e.Insert? then e.patch.marker else e.rewrite.marker }

  function Text(e: Edit): Bytes { if e.Insert? then e.patch.insertion else e.rewrite.replacement }

  function PathOf(e: Edit): Path { if e.Insert? then e.patch.path else e.rewrite.path }

  /** What takes the place of the marker. */
  function Substitute(e: Edit): Bytes {
    if e.Insert? then e.patch.marker + e.patch.insertion else e.rewrite.replacement
  }

  function ApplyEdit(c: Bytes, e: Edit): Result<Bytes> {
    if EscapesRoot(PathOf(e)) then Err(Escapes(PathOf(e)))
    else if Marker(e) == [] || Text(e) == [] then Err(EmptyText)
    else if Done(e, c) then Ok(c)
    else if Count(c, Marker(e), 0) != 1 then Err(Occurrences(Count(c, Marker(e), 0)))
    else
      var i := Find(c, Marker(e), 0).value;
      Ok(c[..i] + Substitute(e) + c[i + |Marker(e)|..])
  }

  ghost predicate Occurs(s: Bytes, m: Bytes) { exists i: nat :: OccursAt(s, m, i) }

  /** The text occurs at `i`, and wherever else it occurs it overlaps that place from behind. */
  ghost predicate OnlyAt(s: Bytes, m: Bytes, i: nat) {
    OccursAt(s, m, i) && forall j: nat :: OccursAt(s, m, j) ==> i <= j < i + |m|
  }

  lemma {:induction false} CountOneExactly(s: Bytes, m: Bytes)
    requires m != []
    ensures Count(s, m, 0) == 1 <==> Find(s, m, 0).Some? && OnlyAt(s, m, Find(s, m, 0).value)
    ensures forall i: nat :: OnlyAt(s, m, i) ==> Find(s, m, 0) == Some(i)
  {
    hide OccursAt;
    if Find(s, m, 0).Some? {
      var i := Find(s, m, 0).value;
      assert Count(s, m, 0) == 1 + Count(s, m, i + |m|);
      assert Count(s, m, i + |m|) == 0 <==> Find(s, m, i + |m|).None?;
    }
  }

  lemma {:induction false} ContainsExactly(s: Bytes, m: Bytes)
    ensures Contains(s, m) <==> Occurs(s, m)
  {
    hide OccursAt;
  }

  /** What an edit finds done: its insertion is there; its replacement is there and its marker gone. */
  ghost predicate FoundDone(e: Edit, c: Bytes) {
    match e
    case Insert(p) => Occurs(c, p.insertion)
    case Replace(r) => Occurs(c, r.replacement) && !Occurs(c, r.marker)
  }

  /** Contents `d` are `c` with the marker at `i` kept and followed by the insertion, or replaced. */
  predicate EditedAt(c: Bytes, e: Edit, i: nat, d: Bytes) {
    i + |Marker(e)| <= |c|
      && d == c[..i] + (if e.Insert? then Marker(e) else []) + Text(e) + c[i + |Marker(e)|..]
  }

  lemma {:induction false} SubstituteEdits(c: Bytes, e: Edit, i: nat)
    requires i + |Marker(e)| <= |c|
    ensures EditedAt(c, e, i, c[..i] + Substitute(e) + c[i + |Marker(e)|..])
  {
    var tail := c[i + |Marker(e)|..];
    if e.Insert? {
      assert c[..i] + (Marker(e) + Text(e)) == c[..i] + Marker(e) + Text(e);
    } else {
      assert c[..i] + [] + Text(e) == c[..i] + Text(e);
    }
  }

  /** One edit, without counting: it is refused outside the root and with empty texts; it leaves finished
      work alone; otherwise the marker occurs in one place only, and the insertion goes behind it, or the
      replacement in its place. */
  lemma {:induction false} ApplyEditExactly(c: Bytes, e: Edit, d: Bytes)
    ensures ApplyEdit(c, e) == Ok(d) <==>
      && !EscapesRoot(PathOf(e)) && Marker(e) != [] && Text(e) != []
      && if FoundDone(e, c) then d == c
         else exists i: nat :: OnlyAt(c, Marker(e), i) && EditedAt(c, e, i, d)
  {
    ContainsExactly(c, Text(e));
    ContainsExactly(c, Marker(e));
    if Marker(e) != [] {
      CountOneExactly(c, Marker(e));
    }
    assert Done(e, c) <==> FoundDone(e, c);
    var at := Find(c, Marker(e), 0);
    if at.Some? {
      SubstituteEdits(c, e, at.value);
    }
    hide OccursAt, OnlyAt, Contains, Count, Find, EscapesRoot, Occurs, FoundDone, Done, Substitute;
    assert at.Some? ==> forall x, y :: EditedAt(c, e, at.value, x) && EditedAt(c, e, at.value, y) ==> x == y;
  }

  function Transform(c: Bytes, edits: seq<Edit>): Result<Bytes> {
    if edits == [] then Ok(c)
    else
      var before := Transform(c, edits[..|edits| - 1]);
      if before.Err? then before else ApplyEdit(before.value, edits[|edits| - 1])
  }

  /** The edits of one file: its patches in order, then its rewrites in order. */
  function Inserts(patches: seq<Patch>, path: Path): seq<Edit> {
    if patches == [] then []
    else
      var last := patches[|patches| - 1];
      Inserts(patches[..|patches| - 1], path) + (if last.path == path then [Insert(last)] else [])
  }

  function Replaces(rewrites: seq<Rewrite>, path: Path): seq<Edit> {
    if rewrites == [] then []
    else
      var last := rewrites[|rewrites| - 1];
      Replaces(rewrites[..|rewrites| - 1], path) + (if last.path == path then [Replace(last)] else [])
  }

  function EditsOf(patches: seq<Patch>, rewrites: seq<Rewrite>, path: Path): seq<Edit> {
    Inserts(patches, path) + Replaces(rewrites, path)
  }

  // ---- which edits a file gets ----------------------------------------------------------------

  /** `indices` lists, in order, exactly the numbers below `n` that are chosen. */
  ghost predicate Lists(indices: seq<nat>, n: nat, chosen: nat -> bool) {
    && (forall i, j :: 0 <= i < j < |indices| ==> indices[i] < indices[j])
    && (forall k: nat :: k in indices <==> k < n && chosen(k))
  }

  ghost predicate ListsPatches(indices: seq<nat>, patches: seq<Patch>, path: Path) {
    Lists(indices, |patches|, k => 0 <= k < |patches| && patches[k].path == path)
  }

  ghost predicate ListsRewrites(indices: seq<nat>, rewrites: seq<Rewrite>, path: Path) {
    Lists(indices, |rewrites|, k => 0 <= k < |rewrites| && rewrites[k].path == path)
  }

  /** The edits of a file are the listed patches, then the listed rewrites. */
  ghost predicate AreEdits(edits: seq<Edit>, patches: seq<Patch>, rewrites: seq<Rewrite>, ps: seq<nat>, rs: seq<nat>) {
    && |edits| == |ps| + |rs|
    && (forall i :: 0 <= i < |ps| ==> ps[i] < |patches| && edits[i] == Insert(patches[ps[i]]))
    && (forall i :: 0 <= i < |rs| ==> rs[i] < |rewrites| && edits[|ps| + i] == Replace(rewrites[rs[i]]))
  }

  /** All patches with this path in their order, then all rewrites with it in theirs, and no other edits. */
  ghost predicate EditsFor(edits: seq<Edit>, patches: seq<Patch>, rewrites: seq<Rewrite>, path: Path) {
    exists ps, rs :: ListsPatches(ps, patches, path) && ListsRewrites(rs, rewrites, path)
                  && AreEdits(edits, patches, rewrites, ps, rs)
  }

  lemma {:induction false} ListsGrow(indices: seq<nat>, n: nat, chosen: nat -> bool, chosen': nat -> bool)
    requires Lists(indices, n, chosen) && forall k: nat :: k < n ==> (chosen(k) <==> chosen'(k))
    ensures Lists(if chosen'(n) then indices + [n] else indices, n + 1, chosen')
  {
    var longer := if chosen'(n) then indices + [n] else indices;
    forall i, j | 0 <= i < j < |longer| ensures longer[i] < longer[j] {
      if j == |indices| {
        assert indices[i] in indices;
      }
    }
  }

  lemma {:induction false} OnePatchMore(patches: seq<Patch>, path: Path, before: seq<nat>)
    requires patches != [] && ListsPatches(before, patches[..|patches| - 1], path)
    ensures var n := |patches| - 1;
      ListsPatches(if patches[n].path == path then before + [n] else before, patches, path)
  {
    hide Lists;
    var n := |patches| - 1;
    var front := patches[..n];
    ListsGrow(before, n, k => 0 <= k < |front| && front[k].path == path,
              k => 0 <= k < |patches| && patches[k].path == path);
  }

  /** Edit by edit, the patches with these numbers. */
  predicate AreInserts(edits: seq<Edit>, patches: seq<Patch>, ps: seq<nat>) {
    |edits| == |ps|
      && forall i :: 0 <= i < |ps| ==> ps[i] < |patches| && edits[i] == Insert(patches[ps[i]])
  }

  lemma {:induction false} InsertsGrow(edits: seq<Edit>, patches: seq<Patch>, ps: seq<nat>)
    requires patches != [] && AreInserts(edits, patches[..|patches| - 1], ps)
    ensures AreInserts(edits, patches, ps)
    ensures var n := |patches| - 1; AreInserts(edits + [Insert(patches[n])], patches, ps + [n])
  {}

  lemma {:induction false} InsertsAreListed(patches: seq<Patch>, path: Path) returns (ps: seq<nat>)
    ensures ListsPatches(ps, patches, path) && AreInserts(Inserts(patches, path), patches, ps)
  {
    if patches == [] {
      ps := [];
    } else {
      hide ListsPatches, AreInserts;
      var n := |patches| - 1;
      var before := InsertsAreListed(patches[..n], path);
      OnePatchMore(patches, path, before);
      InsertsGrow(Inserts(patches[..n], path), patches, before);
      ps := if patches[n].path == path then before + [n] else before;
      assert Inserts(patches, path)
          == Inserts(patches[..n], path) + if patches[n].path == path then [Insert(patches[n])] else [];
    }
  }

  lemma {:induction false} OneRewriteMore(rewrites: seq<Rewrite>, path: Path, before: seq<nat>)
    requires rewrites != [] && ListsRewrites(before, rewrites[..|rewrites| - 1], path)
    ensures var n := |rewrites| - 1;
      ListsRewrites(if rewrites[n].path == path then before + [n] else before, rewrites, path)
  {
    hide Lists;
    var n := |rewrites| - 1;
    var front := rewrites[..n];
    ListsGrow(before, n, k => 0 <= k < |front| && front[k].path == path,
              k => 0 <= k < |rewrites| && rewrites[k].path == path);
  }

  /** Edit by edit, the rewrites with these numbers. */
  predicate AreReplaces(edits: seq<Edit>, rewrites: seq<Rewrite>, rs: seq<nat>) {
    |edits| == |rs|
      && forall i :: 0 <= i < |rs| ==> rs[i] < |rewrites| && edits[i] == Replace(rewrites[rs[i]])
  }

  lemma {:induction false} ReplacesGrow(edits: seq<Edit>, rewrites: seq<Rewrite>, rs: seq<nat>)
    requires rewrites != [] && AreReplaces(edits, rewrites[..|rewrites| - 1], rs)
    ensures AreReplaces(edits, rewrites, rs)
    ensures var n := |rewrites| - 1; AreReplaces(edits + [Replace(rewrites[n])], rewrites, rs + [n])
  {}

  lemma {:induction false} ReplacesAreListed(rewrites: seq<Rewrite>, path: Path) returns (rs: seq<nat>)
    ensures ListsRewrites(rs, rewrites, path) && AreReplaces(Replaces(rewrites, path), rewrites, rs)
  {
    if rewrites == [] {
      rs := [];
    } else {
      hide ListsRewrites, AreReplaces;
      var n := |rewrites| - 1;
      var before := ReplacesAreListed(rewrites[..n], path);
      OneRewriteMore(rewrites, path, before);
      ReplacesGrow(Replaces(rewrites[..n], path), rewrites, before);
      rs := if rewrites[n].path == path then before + [n] else before;
      assert Replaces(rewrites, path)
          == Replaces(rewrites[..n], path) + if rewrites[n].path == path then [Replace(rewrites[n])] else [];
    }
  }

  /** The selection of edits misses none and adds none. */
  lemma {:induction false} EditsAreSelected(patches: seq<Patch>, rewrites: seq<Rewrite>, path: Path)
    ensures EditsFor(EditsOf(patches, rewrites, path), patches, rewrites, path)
  {
    hide Inserts, Replaces, ListsPatches, ListsRewrites;
    var ps := InsertsAreListed(patches, path);
    var rs := ReplacesAreListed(rewrites, path);
    assert AreEdits(EditsOf(patches, rewrites, path), patches, rewrites, ps, rs);
  }

  lemma {:induction false} NothingListed(a: seq<nat>, n: nat, chosen: nat -> bool)
    requires Lists(a, n, chosen)
    ensures a == [] <==> forall k: nat :: k < n ==> !chosen(k)
  {
    if a != [] {
      assert a[0] in a;
    }
  }

  /** Lists of the same numbers are the same. */
  lemma {:induction false} ListsOnce(a: seq<nat>, b: seq<nat>, n: nat, chosen: nat -> bool)
    requires Lists(a, n, chosen) && Lists(b, n, chosen)
    ensures a == b
    decreases |a|
  {
    NothingListed(a, n, chosen);
    NothingListed(b, n, chosen);
    if a != [] {
      var x, y := a[|a| - 1], b[|b| - 1];
      assert x in a && y in b;
      LastListed(a, n, chosen);
      LastListed(b, n, chosen);
      assert x == y;
      hide Lists;
      ListsOnce(a[..|a| - 1], b[..|b| - 1], x, chosen);
      assert a == a[..|a| - 1] + [x] && b == b[..|b| - 1] + [y];
    }
  }

  lemma {:induction false} LastListed(a: seq<nat>, n: nat, chosen: nat -> bool)
    requires Lists(a, n, chosen) && a != []
    ensures Lists(a[..|a| - 1], a[|a| - 1], chosen)
    ensures a[|a| - 1] < n && forall k: nat :: k in a ==> k <= a[|a| - 1]
  {
    var front, last := a[..|a| - 1], a[|a| - 1];
    assert last in a;
    forall k: nat ensures k in front <==> k < last && chosen(k) {
      if k in front {
        var i :| 0 <= i < |front| && front[i] == k;
        assert a[i] == k && k in a;
      }
      if k < last && chosen(k) {
        assert k in a;
        var i :| 0 <= i < |a| && a[i] == k;
        assert front[i] == k;
      }
    }
  }

  lemma {:induction false} EditsForOnce(e: seq<Edit>, f: seq<Edit>, patches: seq<Patch>, rewrites: seq<Rewrite>,
                                        path: Path)
    requires EditsFor(e, patches, rewrites, path) && EditsFor(f, patches, rewrites, path)
    ensures e == f
  {
    hide Lists;
    var ps, rs :| ListsPatches(ps, patches, path) && ListsRewrites(rs, rewrites, path)
               && AreEdits(e, patches, rewrites, ps, rs);
    var qs, ts :| ListsPatches(qs, patches, path) && ListsRewrites(ts, rewrites, path)
               && AreEdits(f, patches, rewrites, qs, ts);
    ListsOnce(ps, qs, |patches|, k => 0 <= k < |patches| && patches[k].path == path);
    ListsOnce(rs, ts, |rewrites|, k => 0 <= k < |rewrites| && rewrites[k].path == path);
    forall i | 0 <= i < |e| ensures e[i] == f[i] {
      if i >= |ps| {
        var k := i - |ps|;
        assert e[|ps| + k] == Replace(rewrites[rs[k]]) && f[|qs| + k] == Replace(rewrites[ts[k]]);
      }
    }
  }

  /** Contents `c` of the file become `d` under all its edits. */
  ghost predicate Becomes(c: Bytes, patches: seq<Patch>, rewrites: seq<Rewrite>, path: Path, d: Bytes) {
    exists edits :: EditsFor(edits, patches, rewrites, path) && Transform(c, edits) == Ok(d)
  }

  /** Some edit of the file fails. */
  ghost predicate Fails(c: Bytes, patches: seq<Patch>, rewrites: seq<Rewrite>, path: Path) {
    exists edits :: EditsFor(edits, patches, rewrites, path) && Transform(c, edits).Err?
  }

  lemma {:induction false} BecomesExactly(c: Bytes, patches: seq<Patch>, rewrites: seq<Rewrite>, path: Path, d: Bytes)
    ensures Becomes(c, patches, rewrites, path, d) <==> Transform(c, EditsOf(patches, rewrites, path)) == Ok(d)
    ensures Fails(c, patches, rewrites, path) <==> Transform(c, EditsOf(patches, rewrites, path)).Err?
  {
    hide EditsFor, EditsOf, Transform;
    var own := EditsOf(patches, rewrites, path);
    EditsAreSelected(patches, rewrites, path);
    forall edits | EditsFor(edits, patches, rewrites, path) ensures edits == own {
      EditsForOnce(edits, own, patches, rewrites, path);
    }
  }

  /** `_transformed_file_bytes` on the edits selected for a file. */
  method TransformedFileBytes(original: Bytes, patches: seq<Edit>, rewrites: seq<Edit>) returns (r: Result<Bytes>)
    requires forall e :: e in patches ==> e.Insert?
    requires forall e :: e in rewrites ==> e.Replace?
    ensures r == Transform(original, patches + rewrites)
  {
    hide ApplyEdit;
    var edits := patches + rewrites;
    var contents := original;
    for k := 0 to |edits|
      invariant Transform(original, edits[..k]) == Ok(contents)
    {
      assert edits[..k + 1][..k] == edits[..k];
      var e := edits[k];
      r := ApplyEdit(contents, e);
      if r.Err? {
        ErrorsStick(original, edits, k + 1);
        return;
      }
      contents := r.value;
    }
    assert edits[..|edits|] == edits;
    r := Ok(contents);
  }

  lemma {:induction false} ErrorsStick(c: Bytes, edits: seq<Edit>, k: nat)
    requires k <= |edits| && Transform(c, edits[..k]).Err?
    ensures Transform(c, edits) == Transform(c, edits[..k])
    decreases |edits| - k
  {
    hide ApplyEdit;
    if k == |edits| {
      assert edits[..k] == edits;
    } else {
      assert edits[..k + 1][..k] == edits[..k];
      ErrorsStick(c, edits, k + 1);
    }
  }

  // ---- transforming twice ---------------------------------------------------------------------

  lemma {:induction false} ContainsByWitness(s: Bytes, m: Bytes, i: nat)
    requires OccursAt(s, m, i)
    ensures Contains(s, m)
  {}

  /** An applied edit is done, except for a rewrite that leaves its own marker. */
  lemma {:induction false} AppliedIsDone(c: Bytes, e: Edit)
    requires ApplyEdit(c, e).Ok?
    ensures var d := ApplyEdit(c, e).value;
      && Contains(d, Text(e))
      && (Done(e, d) <==> e.Insert? || !Contains(d, e.rewrite.marker))
  {
    hide Find, Count;
    if !Done(e, c) {
      hide Contains;
      MarkerFound(c, Marker(e));
      var i := Find(c, Marker(e), 0).value;
      var d := ApplyEdit(c, e).value;
      var at := if e.Insert? then i + |Marker(e)| else i;
      assert d[at..at + |Text(e)|] == Text(e);
      ContainsByWitness(d, Text(e), at);
    }
  }

  lemma {:induction false} MarkerFound(c: Bytes, m: Bytes)
    requires m != [] && Count(c, m, 0) == 1
    ensures Find(c, m, 0).Some?
  {}

  /** No edit after `e` undoes it: with `e` done before, it is done after, and a rewrite leaves its own
      marker nowhere. */
  ghost predicate Undisturbed(c: Bytes, edits: seq<Edit>) {
    && (forall j, k :: 0 <= j < k < |edits| && Reached(c, edits, k) && Done(edits[j], At(c, edits, k)) ==>
          Reached(c, edits, k + 1) ==> Done(edits[j], At(c, edits, k + 1)))
    && (forall k :: 0 <= k < |edits| && edits[k].Replace? && Reached(c, edits, k + 1) ==>
          !Contains(At(c, edits, k + 1), edits[k].rewrite.marker))
  }

  predicate Reached(c: Bytes, edits: seq<Edit>, k: int) { 0 <= k <= |edits| && Transform(c, edits[..k]).Ok? }

  /** The contents after the first `k` edits. */
  function At(c: Bytes, edits: seq<Edit>, k: int): Bytes {
    if Reached(c, edits, k) then Transform(c, edits[..k]).value else []
  }

  lemma {:induction false} ReachedBefore(c: Bytes, edits: seq<Edit>, k: nat)
    requires Reached(c, edits, k + 1)
    ensures Reached(c, edits, k) && ApplyEdit(At(c, edits, k), edits[k]) == Ok(At(c, edits, k + 1))
  {
    hide ApplyEdit;
    assert edits[..k + 1][..k] == edits[..k];
  }

  lemma {:induction false} StaysDone(c: Bytes, edits: seq<Edit>, j: nat, k: nat)
    requires Undisturbed(c, edits) && j < k && Reached(c, edits, k)
    ensures Done(edits[j], At(c, edits, k))
    decreases k
  {
    hide ApplyEdit, Transform, Done, Contains;
    ReachedBefore(c, edits, k - 1);
    if k == j + 1 {
      var before := At(c, edits, j);
      assert Reached(c, edits, j + 1);
      AppliedIsDone(before, edits[j]);
    } else {
      StaysDone(c, edits, j, k - 1);
      var m := k - 1;
      assert Reached(c, edits, m) && Done(edits[j], At(c, edits, m));
      assert Reached(c, edits, m + 1);
    }
  }

  ghost predicate AllDone(edits: seq<Edit>, c: Bytes) { forall e :: e in edits ==> Done(e, c) }

  ghost predicate WellFormed(edits: seq<Edit>) {
    forall e :: e in edits ==> !EscapesRoot(PathOf(e)) && Marker(e) != [] && Text(e) != []
  }

  lemma {:induction false} AllDoneIsFixed(c: Bytes, edits: seq<Edit>)
    requires AllDone(edits, c) && WellFormed(edits)
    ensures Transform(c, edits) == Ok(c)
  {
    hide Done;
    if edits != [] {
      var front, last := edits[..|edits| - 1], edits[|edits| - 1];
      assert forall e :: e in front ==> e in edits;
      AllDoneIsFixed(c, front);
      assert last in edits;
    }
  }

  /** A transformation that succeeds has only well-formed edits. */
  lemma {:induction false} SuccessIsWellFormed(c: Bytes, edits: seq<Edit>)
    requires Transform(c, edits).Ok?
    ensures WellFormed(edits)
  {
    hide Done, Count, Find;
    if edits != [] {
      SuccessIsWellFormed(c, edits[..|edits| - 1]);
      assert forall e :: e in edits ==> e in edits[..|edits| - 1] || e == edits[|edits| - 1];
    }
  }

  /** Transforming twice is transforming once when no edit destroys the work of an earlier one or leaves
      the marker of a rewrite. */
  lemma {:induction false} TwiceIsOnce(c: Bytes, edits: seq<Edit>)
    requires Transform(c, edits).Ok? && Undisturbed(c, edits)
    ensures Transform(Transform(c, edits).value, edits) == Transform(c, edits)
  {
    hide ApplyEdit, Transform, Done, Contains, Undisturbed, WellFormed;
    var d := Transform(c, edits).value;
    assert edits[..|edits|] == edits;
    forall e | e in edits ensures Done(e, d) {
      var j :| 0 <= j < |edits| && edits[j] == e;
      StaysDone(c, edits, j, |edits|);
    }
    SuccessIsWellFormed(c, edits);
    AllDoneIsFixed(d, edits);
  }

  /** The edit leaves the contents alone: its work is done, or it rewrites the one occurrence of its marker
      by the same text. */
  predicate Idle(e: Edit, c: Bytes) {
    || Done(e, c)
    || (e.Replace? && e.rewrite.marker == e.rewrite.replacement != [] && Count(c, e.rewrite.marker, 0) == 1)
  }

  lemma {:induction false} SubstituteLength(c: Bytes, e: Edit)
    requires ApplyEdit(c, e).Ok? && !Done(e, c)
    ensures |ApplyEdit(c, e).value| - |c| == |Substitute(e)| - |Marker(e)|
    ensures ApplyEdit(c, e).value == c ==> Substitute(e) == Marker(e)
    ensures Substitute(e) == Marker(e) ==> ApplyEdit(c, e).value == c
  {
    hide Done, Count;
    MarkerFound(c, Marker(e));
    var i, m := Find(c, Marker(e), 0).value, |Marker(e)|;
    var d := c[..i] + Substitute(e) + c[i + m..];
    assert c == c[..i] + Marker(e) + c[i + m..];
    assert d[i..i + |Substitute(e)|] == Substitute(e);
  }

  lemma {:induction false} IdleExactly(c: Bytes, e: Edit)
    requires !EscapesRoot(PathOf(e)) && Marker(e) != [] && Text(e) != []
    ensures ApplyEdit(c, e) == Ok(c) <==> Idle(e, c)
  {
    hide Done, Count, EscapesRoot;
    if ApplyEdit(c, e).Ok? && !Done(e, c) {
      SubstituteLength(c, e);
    }
  }

  ghost predicate AllIdle(edits: seq<Edit>, c: Bytes) { forall e :: e in edits ==> Idle(e, c) }

  lemma {:induction false} IdleIsFixed(c: Bytes, edits: seq<Edit>, k: nat)
    requires AllIdle(edits, c) && WellFormed(edits) && k <= |edits|
    ensures Transform(c, edits[..k]) == Ok(c)
  {
    hide Idle, ApplyEdit, EscapesRoot;
    if k > 0 {
      IdleIsFixed(c, edits, k - 1);
      assert edits[..k][..k - 1] == edits[..k - 1];
      assert edits[k - 1] in edits;
      IdleExactly(c, edits[k - 1]);
    }
  }

  /** A second pass changes nothing at any edit exactly when every edit is idle on the result of the first:
      done, or a rewrite of its marker by itself. */
  lemma {:induction false} SecondPassIsIdleExactly(c: Bytes, edits: seq<Edit>)
    requires Transform(c, edits).Ok?
    ensures var d := Transform(c, edits).value;
      (forall k: nat :: k <= |edits| ==> Transform(d, edits[..k]) == Ok(d)) <==> AllIdle(edits, d)
  {
    hide Idle, ApplyEdit, EscapesRoot;
    var d := Transform(c, edits).value;
    SuccessIsWellFormed(c, edits);
    if AllIdle(edits, d) {
      forall k: nat | k <= |edits| ensures Transform(d, edits[..k]) == Ok(d) {
        IdleIsFixed(d, edits, k);
      }
    }
    if forall k: nat :: k <= |edits| ==> Transform(d, edits[..k]) == Ok(d) {
      forall e | e in edits ensures Idle(e, d) {
        var k: nat :| k < |edits| && edits[k] == e;
        assert edits[..k + 1][..k] == edits[..k];
        assert Transform(d, edits[..k + 1]) == Ok(d) && Transform(d, edits[..k]) == Ok(d);
        IdleExactly(d, e);
      }
    }
  }

  /** A patch, a rewrite that lengthens, or one that changes nothing. */
  predicate Lengthens(e: Edit) { |Substitute(e)| > |Marker(e)| || Substitute(e) == Marker(e) }

  lemma {:induction false} EditGrows(c: Bytes, e: Edit)
    requires Lengthens(e) && ApplyEdit(c, e).Ok?
    ensures |ApplyEdit(c, e).value| >= |c|
    ensures |ApplyEdit(c, e).value| == |c| ==> ApplyEdit(c, e).value == c
  {
    hide Done, Count, EscapesRoot, Substitute;
    if !Done(e, c) {
      SubstituteLength(c, e);
    }
  }

  lemma {:induction false} EditsGrow(c: Bytes, edits: seq<Edit>)
    requires (forall e :: e in edits ==> Lengthens(e)) && Transform(c, edits).Ok? && WellFormed(edits)
    ensures |Transform(c, edits).value| >= |c|
    ensures |Transform(c, edits).value| == |c| ==> AllIdle(edits, c) && Transform(c, edits).value == c
  {
    hide ApplyEdit, Idle, Lengthens, EscapesRoot;
    if edits != [] {
      var front, last := edits[..|edits| - 1], edits[|edits| - 1];
      assert forall e :: e in edits <==> e in front || e == last;
      EditsGrow(c, front);
      EditGrows(Transform(c, front).value, last);
      IdleExactly(c, last);
    }
  }

  /** Edits that never shorten a file: transforming twice is transforming once exactly when every edit is
      idle on the result. */
  lemma {:induction false} GrowingTwiceExactly(c: Bytes, edits: seq<Edit>)
    requires (forall e :: e in edits ==> Lengthens(e)) && Transform(c, edits).Ok?
    ensures var once := Transform(c, edits); Transform(once.value, edits) == once <==> AllIdle(edits, once.value)
  {
    hide Transform, AllIdle, WellFormed, Lengthens;
    var d := Transform(c, edits).value;
    SuccessIsWellFormed(c, edits);
    if AllIdle(edits, d) {
      IdleIsFixed(d, edits, |edits|);
      assert edits[..|edits|] == edits;
    }
    if Transform(d, edits) == Ok(d) {
      EditsGrow(d, edits);
    }
  }

  /** Patches alone: transforming twice is transforming once exactly when every insertion survives. */
  lemma {:induction false} PatchesTwiceExactly(c: Bytes, edits: seq<Edit>)
    requires (forall e :: e in edits ==> e.Insert?) && Transform(c, edits).Ok?
    ensures var once := Transform(c, edits);
      (Transform(once.value, edits) == once) <==> (forall e :: e in edits ==> Contains(once.value, e.patch.insertion))
  {
    hide Transform, Contains;
    SuccessIsWellFormed(c, edits);
    GrowingTwiceExactly(c, edits);
  }

  lemma {:induction false} OccurrenceStarts(s: Bytes, m: Bytes, i: nat)
    requires m != [] && OccursAt(s, m, i)
    ensures i < |s| && s[i] == m[0] && s[i + |m| - 1] == m[|m| - 1]
  {
    assert s[i..i + |m|][0] == m[0] && s[i..i + |m|][|m| - 1] == m[|m| - 1];
  }

  lemma {:induction false} NotContained(s: Bytes, m: Bytes)
    requires m != []
    requires forall i: nat :: i + |m| <= |s| ==> s[i] != m[0] || s[i + |m| - 1] != m[|m| - 1]
    ensures !Contains(s, m)
  {
    if Contains(s, m) {
      OccurrenceStarts(s, m, Find(s, m, 0).value);
    }
  }

  lemma {:induction false} CountsOne(s: Bytes, b: Byte, i: nat)
    requires i < |s| && s[i] == b && forall j: nat :: j < |s| && s[j] == b ==> j == i
    ensures Find(s, [b], 0) == Some(i) && Count(s, [b], 0) == 1
  {
    assert OccursAt(s, [b], i);
    forall j: nat | OccursAt(s, [b], j) ensures j == i { OccurrenceStarts(s, [b], j); }
    assert Find(s, [b], i + 1).None?;
  }

  lemma {:induction false} InsertsAt(path: Path, s: Bytes, b: Byte, insertion: Bytes, i: nat)
    requires !EscapesRoot(path) && insertion != [] && !Contains(s, insertion)
    requires i < |s| && s[i] == b && forall j: nat :: j < |s| && s[j] == b ==> j == i
    ensures ApplyEdit(s, Insert(Patch(path, [b], insertion))) == Ok(s[..i] + ([b] + insertion) + s[i + 1..])
  {
    hide Find, Count, Contains;
    CountsOne(s, b, i);
  }

  /** A patch that splits an earlier insertion: the second pass inserts again. */
  lemma {:induction false} SplitInsertionIsRepeated(path: Path)
    requires !EscapesRoot(path)
    ensures var edits := [Insert(Patch(path, [1], [2, 3])), Insert(Patch(path, [2], [9]))];
      && Transform([1], edits) == Ok([1, 2, 9, 3])
      && Transform([1, 2, 9, 3], edits) == Ok([1, 2, 3, 2, 9, 3])
  {
    hide ApplyEdit, Contains;
    var a, b := Insert(Patch(path, [1], [2, 3])), Insert(Patch(path, [2], [9]));
    NotContained([1], [2, 3]);
    InsertsAt(path, [1], 1, [2, 3], 0);
    assert [1][..0] + ([1] + [2, 3]) + [1][1..] == [1, 2, 3];
    NotContained([1, 2, 3], [9]);
    InsertsAt(path, [1, 2, 3], 2, [9], 1);
    assert [1, 2, 3][..1] + ([2] + [9]) + [1, 2, 3][2..] == [1, 2, 9, 3];
    NotContained([1, 2, 9, 3], [2, 3]);
    InsertsAt(path, [1, 2, 9, 3], 1, [2, 3], 0);
    assert [1, 2, 9, 3][..0] + ([1] + [2, 3]) + [1, 2, 9, 3][1..] == [1, 2, 3, 2, 9, 3];
    AlreadyThere([1, 2, 3, 2, 9, 3], b, 4);
    TwoEdits([1], a, b);
    TwoEdits([1, 2, 9, 3], a, b);
  }

  lemma {:induction false} AlreadyThere(s: Bytes, e: Edit, i: nat)
    requires !EscapesRoot(PathOf(e)) && e.Insert? && Marker(e) != [] && Text(e) != [] && OccursAt(s, Text(e), i)
    ensures ApplyEdit(s, e) == Ok(s)
  {
    ContainsByWitness(s, Text(e), i);
  }

  lemma {:induction false} TwoEdits(c: Bytes, a: Edit, b: Edit)
    requires ApplyEdit(c, a).Ok?
    ensures Transform(c, [a, b]) == ApplyEdit(ApplyEdit(c, a).value, b)
  {
    hide ApplyEdit;
    assert [a, b][..1] == [a] && [a][..0] == [];
    assert Transform(c, [a]) == ApplyEdit(c, a);
  }

  lemma {:induction false} CountWhole(m: Bytes)
    requires m != []
    ensures Find(m, m, 0) == Some(0) && Count(m, m, 0) == 1
  {
    assert OccursAt(m, m, 0);
    assert Find(m, m, |m|).None?;
  }

  lemma {:induction false} ReplacesWhole(path: Path, s: Bytes, replacement: Bytes)
    requires !EscapesRoot(path) && s != [] && replacement != []
    ensures ApplyEdit(s, Replace(Rewrite(path, s, replacement))) == Ok(replacement)
  {
    CountWhole(s);
    ContainsByWitness(s, s, 0);
    hide Find, Count, Contains;
    assert s[..0] + replacement + s[|s|..] == replacement;
  }

  /** With rewrites, work that is undone is no obstacle: here a rewrite removes what a patch inserted, the
      second pass inserts and removes it again, and both passes end in the same contents. */
  lemma {:induction false} UndoneEditCanBeHarmless(path: Path)
    requires !EscapesRoot(path)
    ensures var edits := [Insert(Patch(path, [1], [2])), Replace(Rewrite(path, [1, 2], [1]))];
      && Transform([1], edits) == Ok([1]) && Transform(Transform([1], edits).value, edits) == Transform([1], edits)
      && !Done(edits[0], Transform([1], edits).value)
  {
    hide ApplyEdit, Contains;
    var a, b := Insert(Patch(path, [1], [2])), Replace(Rewrite(path, [1, 2], [1]));
    NotContained([1], [2]);
    InsertsAt(path, [1], 1, [2], 0);
    assert [1][..0] + ([1] + [2]) + [1][1..] == [1, 2];
    ReplacesWhole(path, [1, 2], [1]);
    TwoEdits([1], a, b);
  }

  // ---- digesting a tree -----------------------------------------------------------------------

  /** The regular files below a root. */
  type Tree = map<Path, Bytes>

  /** The relative path in POSIX form. */
  function PathBytes(p: Path): Bytes { Joined(p.parts) }

  function Joined(parts: seq<Bytes>): Bytes {
    if parts == [] then []
    else if |parts| == 1 then parts[0]
    else Joined(parts[..|parts| - 1]) + [47] + parts[|parts| - 1]
  }

  /** Eight bytes, most significant first; lengths of real files fit. */
  function BigEndian(n: nat, width: nat): (r: Bytes)
    ensures |r| == width
    decreases width
  {
    if width == 0 then [] else BigEndian(n / 256, width - 1) + [n % 256]
  }

  const FileTag: Bytes := [102, 105, 108, 101, 0]

  function FileStream(path: Bytes, contents: Bytes): Bytes {
    FileTag + BigEndian(|path|, 8) + path + BigEndian(|contents|, 8) + contents
  }

  /** The bytes hashed for the files of `listing`, in that order. */
  function Stream(tree: Tree, listing: seq<Path>): Bytes
    requires forall p :: p in listing ==> p in tree
  {
    if listing == [] then []
    else
      var last := listing[|listing| - 1];
      Stream(tree, listing[..|listing| - 1]) + FileStream(PathBytes(last), tree[last])
  }

  /** One file is hashed in five updates. */
  method DigestFile(digest: Bytes, relative: Bytes, contents: Bytes) returns (r: Bytes)
    ensures r == digest + FileStream(relative, contents)
  {
    hide BigEndian;
    r := digest + FileTag;
    r := r + BigEndian(|relative|, 8);
    r := r + relative;
    r := r + BigEndian(|contents|, 8);
    r := r + contents;
  }

  /** `tree_digest` over the included files in sorted order. */
  method TreeStream(tree: Tree, listing: seq<Path>) returns (digest: Bytes)
    requires forall p :: p in listing ==> p in tree
    ensures digest == Stream(tree, listing)
  {
    hide FileStream, PathBytes;
    digest := [];
    for k := 0 to |listing|
      invariant digest == Stream(tree, listing[..k])
    {
      assert listing[..k + 1][..k] == listing[..k];
      digest := DigestFile(digest, PathBytes(listing[k]), tree[listing[k]]);
    }
    assert listing[..|listing|] == listing;
  }

  // ---- patching a tree ------------------------------------------------------------------------

  function Transformed(tree: Tree, patches: seq<Patch>, rewrites: seq<Rewrite>, p: Path): (r: Result<Bytes>)
    requires p in tree
    ensures forall d :: r == Ok(d) <==> Becomes(tree[p], patches, rewrites, p, d)
    ensures r.Err? <==> Fails(tree[p], patches, rewrites, p)
  {
    TransformedIs(tree[p], patches, rewrites, p);
    Transform(tree[p], EditsOf(patches, rewrites, p))
  }

  lemma {:induction false} TransformedIs(c: Bytes, patches: seq<Patch>, rewrites: seq<Rewrite>, p: Path)
    ensures forall d :: Transform(c, EditsOf(patches, rewrites, p)) == Ok(d) <==> Becomes(c, patches, rewrites, p, d)
    ensures Transform(c, EditsOf(patches, rewrites, p)).Err? <==> Fails(c, patches, rewrites, p)
  {
    hide Becomes, Fails, Transform, EditsOf;
    BecomesExactly(c, patches, rewrites, p, []);
    forall d ensures Transform(c, EditsOf(patches, rewrites, p)) == Ok(d) <==> Becomes(c, patches, rewrites, p, d) {
      BecomesExactly(c, patches, rewrites, p, d);
    }
  }

  function Targets(patches: seq<Patch>, rewrites: seq<Rewrite>): (r: set<Path>)
    ensures forall p :: p in r <==>
      (exists x :: x in patches && x.path == p) || (exists x :: x in rewrites && x.path == p)
  {
    (set x | x in patches :: x.path) + (set x | x in rewrites :: x.path)
  }

  /** Patching can go through: every target is there, stays inside the root and transforms. */
  ghost predicate Patchable(tree: Tree, patches: seq<Patch>, rewrites: seq<Rewrite>) {
    forall p :: p in Targets(patches, rewrites) ==>
      !EscapesRoot(p) && p in tree && !Fails(tree[p], patches, rewrites, p)
  }

  /** Every file has become what its edits make of it; a file without edits stays as it is. */
  ghost predicate PatchedTo(tree: Tree, patches: seq<Patch>, rewrites: seq<Rewrite>, after: Tree) {
    after.Keys == tree.Keys && forall p :: p in tree ==> Becomes(tree[p], patches, rewrites, p, after[p])
  }

  /** The paths of all edits, refused at the first one outside the root. */
  method ValidatedTargets(patches: seq<Patch>, rewrites: seq<Rewrite>) returns (seen: Result<set<Path>>)
    ensures seen.Ok? <==> forall p :: p in Targets(patches, rewrites) ==> !EscapesRoot(p)
    ensures seen.Ok? ==> seen.value == Targets(patches, rewrites)
  {
    hide EscapesRoot;
    var paths: set<Path> := {};
    for k := 0 to |patches|
      invariant paths == set j | 0 <= j < k :: patches[j].path
      invariant forall p :: p in paths ==> !EscapesRoot(p)
    {
      if EscapesRoot(patches[k].path) {
        assert patches[k] in patches;
        return Err(Escapes(patches[k].path));
      }
      paths := paths + {patches[k].path};
    }
    ghost var first := paths;
    for k := 0 to |rewrites|
      invariant paths == first + set j | 0 <= j < k :: rewrites[j].path
      invariant forall p :: p in paths ==> !EscapesRoot(p)
    {
      if EscapesRoot(rewrites[k].path) {
        assert rewrites[k] in rewrites;
        return Err(Escapes(rewrites[k].path));
      }
      paths := paths + {rewrites[k].path};
    }
    seen := Ok(paths);
  }

  /** `_apply_source_patches`: the targets are visited in any order. */
  method ApplySourcePatches(tree: Tree, patches: seq<Patch>, rewrites: seq<Rewrite>) returns (r: Result<Tree>)
    ensures r.Ok? <==> Patchable(tree, patches, rewrites)
    ensures r.Ok? ==> PatchedTo(tree, patches, rewrites, r.value)
  {
    hide Transform, Targets, Inserts, Replaces, EscapesRoot, Becomes, Fails;
    var seen := ValidatedTargets(patches, rewrites);
    if seen.Err? {
      return Err(seen.error);
    }
    var targets := seen.value;
    var after, rest := tree, targets;
    while rest != {}
      invariant rest <= targets && after.Keys == tree.Keys
      invariant forall p :: p in targets - rest ==> p in tree && Transformed(tree, patches, rewrites, p).Ok?
      invariant forall p :: p in tree ==>
        after[p] == if p in targets - rest then Transformed(tree, patches, rewrites, p).value else tree[p]
      decreases rest
    {
      var p :| p in rest;
      if p !in tree {
        return Err(Missing(p));
      }
      InsertsAreInserts(patches, p);
      ReplacesAreReplaces(rewrites, p);
      var transformed := TransformedFileBytes(after[p], Inserts(patches, p), Replaces(rewrites, p));
      assert transformed == Transformed(tree, patches, rewrites, p);
      if transformed.Err? {
        return Err(transformed.error);
      }
      if transformed.value != after[p] {
        after := after[p := transformed.value];
      }
      rest := rest - {p};
    }
    forall p | p in tree ensures Becomes(tree[p], patches, rewrites, p, after[p]) {
      if p !in targets {
        UntouchedFile(tree[p], patches, rewrites, p);
      }
      assert Transformed(tree, patches, rewrites, p) == Ok(after[p]);
    }
    r := Ok(after);
  }

  lemma {:induction false} InsertsAreInserts(patches: seq<Patch>, p: Path)
    ensures forall e :: e in Inserts(patches, p) ==> e.Insert?
    ensures (exists x :: x in patches && x.path == p) <==> Inserts(patches, p) != []
  {
    if patches != [] {
      InsertsAreInserts(patches[..|patches| - 1], p);
    }
  }

  lemma {:induction false} ReplacesAreReplaces(rewrites: seq<Rewrite>, p: Path)
    ensures forall e :: e in Replaces(rewrites, p) ==> e.Replace?
    ensures (exists x :: x in rewrites && x.path == p) <==> Replaces(rewrites, p) != []
  {
    if rewrites != [] {
      ReplacesAreReplaces(rewrites[..|rewrites| - 1], p);
    }
  }

  /** `is_file` on a target: a file of the tree, or a file that an escaping path leads to. */
  ghost predicate IsFile(tree: Tree, outside: set<Path>, p: Path) { p in tree || (EscapesRoot(p) && p in outside) }

  /** What `_patched_tree_digest` can digest: included files transform, and every target is a file. */
  ghost predicate Digestible(tree: Tree, outside: set<Path>, listing: seq<Path>, patches: seq<Patch>,
                             rewrites: seq<Rewrite>)
    requires forall p :: p in listing ==> p in tree
  {
    && (forall p :: p in listing ==> !Fails(tree[p], patches, rewrites, p))
    && (forall p :: p in Targets(patches, rewrites) ==> IsFile(tree, outside, p))
  }

  /** The stream of the tree as it will be once patched. */
  function PatchedStream(tree: Tree, listing: seq<Path>, patches: seq<Patch>, rewrites: seq<Rewrite>): Bytes
    requires forall p :: p in listing ==> p in tree && Transformed(tree, patches, rewrites, p).Ok?
  {
    if listing == [] then []
    else
      var last := listing[|listing| - 1];
      PatchedStream(tree, listing[..|listing| - 1], patches, rewrites)
        + FileStream(PathBytes(last), Transformed(tree, patches, rewrites, last).value)
  }

  /** The listed files have become what their edits make of them. */
  ghost predicate ListedBecome(tree: Tree, listing: seq<Path>, patches: seq<Patch>, rewrites: seq<Rewrite>,
                               after: Tree)
    requires forall p :: p in listing ==> p in tree
  {
    forall p :: p in listing ==> p in after && Becomes(tree[p], patches, rewrites, p, after[p])
  }

  lemma {:induction false} PatchedStreamIs(tree: Tree, listing: seq<Path>, patches: seq<Patch>, rewrites: seq<Rewrite>,
                                           after: Tree)
    requires forall p :: p in listing ==> p in tree && Transformed(tree, patches, rewrites, p).Ok?
    requires ListedBecome(tree, listing, patches, rewrites, after)
    ensures PatchedStream(tree, listing, patches, rewrites) == Stream(after, listing)
    decreases |listing|
  {
    hide FileStream, PathBytes, Becomes, Transform, EditsOf;
    if listing != [] {
      var last := listing[|listing| - 1];
      assert Transformed(tree, patches, rewrites, last) == Ok(after[last]);
      PatchedStreamIs(tree, listing[..|listing| - 1], patches, rewrites, after);
    }
  }

  lemma {:induction false} StreamOfPatched(tree: Tree, listing: seq<Path>, patches: seq<Patch>, rewrites: seq<Rewrite>)
    returns (after: Tree)
    requires forall p :: p in listing ==> p in tree && Transformed(tree, patches, rewrites, p).Ok?
    ensures ListedBecome(tree, listing, patches, rewrites, after)
    ensures PatchedStream(tree, listing, patches, rewrites) == Stream(after, listing)
  {
    hide Becomes, Stream, PatchedStream;
    after := map p | p in listing :: Transformed(tree, patches, rewrites, p).value;
    PatchedStreamIs(tree, listing, patches, rewrites, after);
  }

  /** The checks after the walk: a patch or rewrite whose target is no file. */
  method MissingTarget(tree: Tree, outside: set<Path>, patches: seq<Patch>, rewrites: seq<Rewrite>)
    returns (missing: Option<Path>)
    ensures missing.None? <==> forall p :: p in Targets(patches, rewrites) ==> IsFile(tree, outside, p)
    ensures missing.Some? ==> missing.value in Targets(patches, rewrites) && !IsFile(tree, outside, missing.value)
  {
    hide EscapesRoot;
    for k := 0 to |patches|
      invariant forall j :: 0 <= j < k ==> IsFile(tree, outside, patches[j].path)
    {
      var path := patches[k].path;
      if path !in tree && !(EscapesRoot(path) && path in outside) {
        assert patches[k] in patches && !IsFile(tree, outside, path);
        return Some(path);
      }
    }
    for k := 0 to |rewrites|
      invariant forall j :: 0 <= j < k ==> IsFile(tree, outside, rewrites[j].path)
    {
      var path := rewrites[k].path;
      if path !in tree && !(EscapesRoot(path) && path in outside) {
        assert rewrites[k] in rewrites && !IsFile(tree, outside, path);
        return Some(path);
      }
    }
    missing := None;
  }

  /** `_patched_tree_digest`. */
  method PatchedTreeStream(tree: Tree, outside: set<Path>, listing: seq<Path>, patches: seq<Patch>,
                           rewrites: seq<Rewrite>)
    returns (r: Result<Bytes>)
    requires forall p :: p in listing ==> p in tree
    ensures r.Ok? <==> Digestible(tree, outside, listing, patches, rewrites)
    ensures r.Ok? ==> exists after ::
      ListedBecome(tree, listing, patches, rewrites, after) && r.value == Stream(after, listing)
  {
    hide Becomes, Fails, Stream, Transform, FileStream, PathBytes, Inserts, Replaces, Targets, IsFile;
    var digest: Bytes := [];
    for k := 0 to |listing|
      invariant forall p :: p in listing[..k] ==> Transformed(tree, patches, rewrites, p).Ok?
      invariant digest == PatchedStream(tree, listing[..k], patches, rewrites)
    {
      assert listing[..k + 1][..k] == listing[..k];
      var p := listing[k];
      InsertsAreInserts(patches, p);
      ReplacesAreReplaces(rewrites, p);
      var contents := TransformedFileBytes(tree[p], Inserts(patches, p), Replaces(rewrites, p));
      if contents.Err? {
        assert p in listing && Transformed(tree, patches, rewrites, p).Err?;
        return Err(contents.error);
      }
      digest := DigestFile(digest, PathBytes(p), contents.value);
    }
    assert listing[..|listing|] == listing;
    var missing := MissingTarget(tree, outside, patches, rewrites);
    if missing.Some? {
      return Err(Missing(missing.value));
    }
    ghost var after := StreamOfPatched(tree, listing, patches, rewrites);
    r := Ok(digest);
  }

  lemma {:induction false} UntouchedFile(c: Bytes, patches: seq<Patch>, rewrites: seq<Rewrite>, p: Path)
    requires p !in Targets(patches, rewrites)
    ensures Transform(c, EditsOf(patches, rewrites, p)) == Ok(c)
  {
    InsertsAreInserts(patches, p);
    ReplacesAreReplaces(rewrites, p);
  }

  /** Digesting as if patched is digesting what patching leaves: a patched tree can be digested as patched,
      and whatever the listed files become, their stream is that of the patched tree. */
  lemma {:induction false} DigestAgreesWithPatching(tree: Tree, outside: set<Path>, listing: seq<Path>,
                                                    patches: seq<Patch>, rewrites: seq<Rewrite>, after: Tree)
    requires forall p :: p in listing ==> p in tree
    requires Patchable(tree, patches, rewrites) && PatchedTo(tree, patches, rewrites, after)
    ensures Digestible(tree, outside, listing, patches, rewrites)
    ensures forall digested :: ListedBecome(tree, listing, patches, rewrites, digested) ==>
      Stream(digested, listing) == Stream(after, listing)
  {
    hide Becomes, Fails, Transform, EditsOf, Stream, PatchedStream;
    forall p | p in listing ensures Transformed(tree, patches, rewrites, p) == Ok(after[p]) {}
    PatchedStreamIs(tree, listing, patches, rewrites, after);
    forall digested | ListedBecome(tree, listing, patches, rewrites, digested)
      ensures Stream(digested, listing) == Stream(after, listing)
    {
      PatchedStreamIs(tree, listing, patches, rewrites, digested);
    }
  }

  /** A tree can be patched exactly when it can be digested as patched, no target escapes the root, and the
      targets that the digest excludes transform. */
  lemma {:induction false} PatchableExactly(tree: Tree, outside: set<Path>, listing: seq<Path>, patches: seq<Patch>,
                                            rewrites: seq<Rewrite>)
    requires forall p :: p in listing ==> p in tree
    ensures Patchable(tree, patches, rewrites) <==>
      && Digestible(tree, outside, listing, patches, rewrites)
      && forall p :: p in Targets(patches, rewrites) ==>
           !EscapesRoot(p) && (p in tree && p !in listing ==> !Fails(tree[p], patches, rewrites, p))
  {
    hide Transform, EditsOf, EscapesRoot;
    forall p | p in listing && p !in Targets(patches, rewrites)
      ensures Transformed(tree, patches, rewrites, p).Ok?
    {
      UntouchedFile(tree[p], patches, rewrites, p);
    }
  }

  /** Digesting and patching accept the same trees when no target is outside the root or left out of the
      digest. */
  lemma {:induction false} DigestibleExactly(tree: Tree, outside: set<Path>, listing: seq<Path>, patches: seq<Patch>,
                                             rewrites: seq<Rewrite>)
    requires forall p :: p in listing ==> p in tree
    requires forall p :: p in Targets(patches, rewrites) && IsFile(tree, outside, p) ==>
               !EscapesRoot(p) && p in listing
    ensures Digestible(tree, outside, listing, patches, rewrites) <==> Patchable(tree, patches, rewrites)
  {
    hide Transform, EditsOf, EscapesRoot;
    PatchableExactly(tree, outside, listing, patches, rewrites);
  }

  // ---- the stream determines the tree ---------------------------------------------------------

  lemma {:induction false} BigEndianInjective(a: nat, b: nat, width: nat)
    requires BigEndian(a, width) == BigEndian(b, width)
    requires a < Pow256(width) && b < Pow256(width)
    ensures a == b
    decreases width
  {
    if width > 0 {
      var x, y := BigEndian(a / 256, width - 1), BigEndian(b / 256, width - 1);
      assert (x + [a % 256])[..width - 1] == x && (y + [b % 256])[..width - 1] == y;
      assert (x + [a % 256])[width - 1] == (y + [b % 256])[width - 1];
      BigEndianInjective(a / 256, b / 256, width - 1);
    }
  }

  /** The framed files of two lists, read from the front. */
  datatype File = File(path: Bytes, contents: Bytes)

  function Framed(files: seq<File>): Bytes {
    if files == [] then [] else FileStream(files[0].path, files[0].contents) + Framed(files[1..])
  }

  ghost predicate LengthsFit(f: File) { |f.path| < Pow256(8) && |f.contents| < Pow256(8) }

  lemma {:induction false} CutEqual(a: Bytes, b: Bytes, x: Bytes, y: Bytes)
    requires a + x == b + y && |a| == |b|
    ensures a == b && x == y
  {
    assert (a + x)[..|a|] == a && (b + y)[..|b|] == b;
    assert (a + x)[|a|..] == x && (b + y)[|b|..] == y;
  }

  lemma {:induction false} FileFrame(a: File, b: File, x: Bytes, y: Bytes)
    requires LengthsFit(a) && LengthsFit(b)
    requires FileStream(a.path, a.contents) + x == FileStream(b.path, b.contents) + y
    ensures a == b && x == y
  {
    hide BigEndian, Pow256;
    var la, lb := BigEndian(|a.path|, 8), BigEndian(|b.path|, 8);
    var ca, cb := BigEndian(|a.contents|, 8), BigEndian(|b.contents|, 8);
    var ra, rb := ca + a.contents + x, cb + b.contents + y;
    assert FileTag + (la + (a.path + ra)) == FileStream(a.path, a.contents) + x;
    assert FileTag + (lb + (b.path + rb)) == FileStream(b.path, b.contents) + y;
    CutEqual(FileTag, FileTag, la + (a.path + ra), lb + (b.path + rb));
    CutEqual(la, lb, a.path + ra, b.path + rb);
    BigEndianInjective(|a.path|, |b.path|, 8);
    CutEqual(a.path, b.path, ra, rb);
    assert ca + (a.contents + x) == ra && cb + (b.contents + y) == rb;
    CutEqual(ca, cb, a.contents + x, b.contents + y);
    BigEndianInjective(|a.contents|, |b.contents|, 8);
    CutEqual(a.contents, b.contents, x, y);
  }

  /** Equal streams come from equal lists of files: paths and contents are framed without ambiguity. */
  lemma {:induction false} FramedInjective(a: seq<File>, b: seq<File>)
    requires (forall f :: f in a ==> LengthsFit(f)) && (forall f :: f in b ==> LengthsFit(f))
    requires Framed(a) == Framed(b)
    ensures a == b
    decreases |a|
  {
    hide LengthsFit, BigEndian;
    if a == [] || b == [] {
      FramesAreNotEmpty(a);
      FramesAreNotEmpty(b);
    } else {
      FileFrame(a[0], b[0], Framed(a[1..]), Framed(b[1..]));
      FramedInjective(a[1..], b[1..]);
      assert a == [a[0]] + a[1..] && b == [b[0]] + b[1..];
    }
  }

  lemma {:induction false} FramesAreNotEmpty(a: seq<File>)
    ensures Framed(a) == [] <==> a == []
  {
    if a != [] {
      assert Framed(a)[0] == 102;
    }
  }

  function FilesOf(tree: Tree, listing: seq<Path>): seq<File>
    requires forall p :: p in listing ==> p in tree
  {
    if listing == [] then [] else [File(PathBytes(listing[0]), tree[listing[0]])] + FilesOf(tree, listing[1..])
  }

  lemma {:induction false} FramedConcat(a: seq<File>, b: seq<File>)
    ensures Framed(a + b) == Framed(a) + Framed(b)
    decreases |a|
  {
    hide FileStream;
    if a == [] {
      assert a + b == b;
    } else {
      assert (a + b)[1..] == a[1..] + b;
      FramedConcat(a[1..], b);
    }
  }

  lemma {:induction false} FilesOfSnoc(tree: Tree, listing: seq<Path>)
    requires listing != [] && forall p :: p in listing ==> p in tree
    ensures var last := listing[|listing| - 1];
      FilesOf(tree, listing) == FilesOf(tree, listing[..|listing| - 1]) + [File(PathBytes(last), tree[last])]
    decreases |listing|
  {
    hide PathBytes;
    if |listing| > 1 {
      FilesOfSnoc(tree, listing[1..]);
      assert listing[1..][..|listing| - 2] == listing[..|listing| - 1][1..];
    }
  }

  lemma {:induction false} StreamIsFramed(tree: Tree, listing: seq<Path>)
    requires forall p :: p in listing ==> p in tree
    ensures Stream(tree, listing) == Framed(FilesOf(tree, listing))
    decreases |listing|
  {
    hide FileStream, PathBytes;
    if listing != [] {
      var front, last := listing[..|listing| - 1], listing[|listing| - 1];
      StreamIsFramed(tree, front);
      FilesOfSnoc(tree, listing);
      FramedConcat(FilesOf(tree, front), [File(PathBytes(last), tree[last])]);
      assert Framed([File(PathBytes(last), tree[last])]) == FileStream(PathBytes(last), tree[last]) + Framed([]);
    }
  }

  /** Two trees with the same stream have the same included paths and contents. */
  lemma {:induction false} StreamDeterminesTree(t: Tree, lt: seq<Path>, u: Tree, lu: seq<Path>)
    requires (forall p :: p in lt ==> p in t) && (forall p :: p in lu ==> p in u)
    requires (forall f :: f in FilesOf(t, lt) ==> LengthsFit(f)) && (forall f :: f in FilesOf(u, lu) ==> LengthsFit(f))
    ensures Stream(t, lt) == Stream(u, lu) <==> FilesOf(t, lt) == FilesOf(u, lu)
  {
    hide Stream, Framed, FilesOf;
    StreamIsFramed(t, lt);
    StreamIsFramed(u, lu);
    if Stream(t, lt) == Stream(u, lu) {
      FramedInjective(FilesOf(t, lt), FilesOf(u, lu));
    }
  }

  // ---- paths in POSIX form --------------------------------------------------------------------

  /** A relative path of at least one component, none with a slash in it. */
  predicate Proper(p: Path) { !p.absolute && p.parts != [] && forall part :: part in p.parts ==> 47 !in part }

  function LastSlash(b: Bytes): (i: Option<nat>)
    ensures i.Some? ==> i.value < |b| && b[i.value] == 47 && 47 !in b[i.value + 1..]
    ensures i.None? ==> 47 !in b
  {
    if b == [] then None
    else if b[|b| - 1] == 47 then Some(|b| - 1)
    else
      var i := LastSlash(b[..|b| - 1]);
      assert i.Some? ==> b[i.value + 1..] == b[..|b| - 1][i.value + 1..] + [b[|b| - 1]];
      i
  }

  /** The components between the slashes. */
  function Components(b: Bytes): seq<Bytes>
    decreases |b|
  {
    var i := LastSlash(b);
    if i.None? then [b] else Components(b[..i.value]) + [b[i.value + 1..]]
  }

  lemma {:induction false} SlashBefore(front: Bytes, last: Bytes)
    requires 47 !in last
    ensures LastSlash(front + [47] + last) == Some(|front|)
  {
    if last == [] {
      assert front + [47] + [] == front + [47];
    } else {
      var n := |last| - 1;
      assert last[n] in last;
      SlashBefore(front, last[..n]);
      assert (front + [47] + last)[..|front| + 1 + n] == front + [47] + last[..n];
    }
  }

  lemma {:induction false} ComponentsSnoc(before: Bytes, last: Bytes)
    requires 47 !in last
    ensures Components(before + [47] + last) == Components(before) + [last]
  {
    hide LastSlash;
    SlashBefore(before, last);
    var b := before + [47] + last;
    assert b[..|before|] == before && b[|before| + 1..] == last;
  }

  lemma {:induction false} JoinedSnoc(front: seq<Bytes>, last: Bytes)
    requires front != []
    ensures Joined(front + [last]) == Joined(front) + [47] + last
  {
    assert (front + [last])[..|front|] == front;
  }

  /** Splitting at the slashes undoes joining. */
  lemma {:induction false} ComponentsOfJoined(parts: seq<Bytes>)
    requires parts != [] && forall part :: part in parts ==> 47 !in part
    ensures Components(Joined(parts)) == parts
  {
    var front, last := parts[..|parts| - 1], parts[|parts| - 1];
    assert last in parts && front + [last] == parts;
    if front != [] {
      hide *;
      assert forall part :: part in front ==> part in parts;
      ComponentsOfJoined(front);
      JoinedSnoc(front, last);
      ComponentsSnoc(Joined(front), last);
    }
  }

  lemma {:induction false} SamePathBytes(p: Path, q: Path)
    requires Proper(p) && Proper(q) && PathBytes(p) == PathBytes(q)
    ensures p == q
  {
    ComponentsOfJoined(p.parts);
    ComponentsOfJoined(q.parts);
  }

  lemma {:induction false} SameFiles(t: Tree, lt: seq<Path>, u: Tree, lu: seq<Path>)
    requires (forall p :: p in lt ==> p in t && Proper(p)) && (forall p :: p in lu ==> p in u && Proper(p))
    ensures FilesOf(t, lt) == FilesOf(u, lu) <==> lt == lu && forall p :: p in lt ==> p in u && t[p] == u[p]
  {
    hide PathBytes, Proper;
    FilesAre(t, lt);
    FilesAre(u, lu);
    if FilesOf(t, lt) == FilesOf(u, lu) {
      forall i | 0 <= i < |lt| ensures lt[i] == lu[i] && t[lt[i]] == u[lu[i]] {
        assert FilesOf(t, lt)[i] == FilesOf(u, lu)[i];
        SamePathBytes(lt[i], lu[i]);
      }
    }
    if lt == lu && forall p :: p in lt ==> p in u && t[p] == u[p] {
      forall i | 0 <= i < |lt| ensures FilesOf(t, lt)[i] == FilesOf(u, lu)[i] {
        assert lt[i] in lt;
      }
    }
  }

  lemma {:induction false} FilesAre(t: Tree, listing: seq<Path>)
    requires forall p :: p in listing ==> p in t
    ensures |FilesOf(t, listing)| == |listing|
    ensures forall i :: 0 <= i < |listing| ==> FilesOf(t, listing)[i] == File(PathBytes(listing[i]), t[listing[i]])
  {
    hide PathBytes;
    if listing != [] {
      FilesAre(t, listing[1..]);
    }
  }

  /** Two trees have the same stream exactly when they list the same paths with the same contents. */
  lemma {:induction false} StreamIsTheTree(t: Tree, lt: seq<Path>, u: Tree, lu: seq<Path>)
    requires (forall p :: p in lt ==> p in t && Proper(p)) && (forall p :: p in lu ==> p in u && Proper(p))
    requires (forall f :: f in FilesOf(t, lt) ==> LengthsFit(f)) && (forall f :: f in FilesOf(u, lu) ==> LengthsFit(f))
    ensures Stream(t, lt) == Stream(u, lu) <==> lt == lu && forall p :: p in lt ==> p in u && t[p] == u[p]
  {
    hide Stream, FilesOf, Proper, LengthsFit;
    StreamDeterminesTree(t, lt, u, lu);
    SameFiles(t, lt, u, lu);
  }

  // ---- paths that stay inside -----------------------------------------------------------------

  /** How deep below the root the first `n` components lead; a component `..` leads up. */
  function Depth(parts: seq<Bytes>, n: nat): int
    requires n <= |parts|
  {
    if n == 0 then 0 else Depth(parts, n - 1) + if parts[n - 1] == [46, 46] then -1 else 1
  }

  lemma {:induction false} DepthWithoutUp(parts: seq<Bytes>, n: nat)
    requires n <= |parts| && [46, 46] !in parts
    ensures Depth(parts, n) == n
  {
    if n > 0 {
      assert parts[n - 1] in parts;
      DepthWithoutUp(parts, n - 1);
    }
  }

  /** What is not refused is a relative path that only leads down; what is refused is absolute or has a
      component `..`. */
  lemma {:induction false} AcceptedStaysInside(p: Path)
    ensures EscapesRoot(p) <==> p.absolute || [46, 46] in p.parts
    ensures !EscapesRoot(p) ==> !p.absolute && forall n: nat :: n <= |p.parts| ==> Depth(p.parts, n) == n
    ensures Depth([[46, 46]], 1) == -1
  {
    if !EscapesRoot(p) {
      forall n: nat | n <= |p.parts| ensures Depth(p.parts, n) == n {
        DepthWithoutUp(p.parts, n);
      }
    }
  }
}
