/** The order of a list without repeats, and batches that keep it. */
module Order {
  import opened Packing

  /** `a` stands before `b` in the list. */
  ghost predicate Precedes(list: seq<Name>, a: Name, b: Name) {
    exists i, j :: 0 <= i < j < |list| && list[i] == a && list[j] == b
  }

  /** Every name of `x` stands before every name of `y`. */
  ghost predicate Ahead(list: seq<Name>, x: Batch, y: Batch) {
    forall i, j :: 0 <= i < |x| && 0 <= j < |y| ==> Precedes(list, x[i], y[j])
  }

  ghost predicate InOrder(list: seq<Name>, x: Batch) {
    forall i, j :: 0 <= i < j < |x| ==> Precedes(list, x[i], x[j])
  }

  /** All names of `x` are among those of `y`. */
  ghost predicate Within(x: Batch, y: Batch) { forall n :: n in x ==> n in y }

  lemma {:induction false} AheadWithin(list: seq<Name>, x: Batch, y: Batch, x': Batch, y': Batch)
    requires Ahead(list, x, y) && Within(x', x) && Within(y', y)
    ensures Ahead(list, x', y')
  {
    forall i, j | 0 <= i < |x'| && 0 <= j < |y'| ensures Precedes(list, x'[i], y'[j]) {
      assert x'[i] in x && y'[j] in y;
      var k, l :| 0 <= k < |x| && x[k] == x'[i] && 0 <= l < |y| && y[l] == y'[j];
      assert Precedes(list, x[k], y[l]);
    }
  }

  /** Both parts of a batch keep its order, and the first is ahead of the second. */
  lemma {:induction false} PartsInOrder(list: seq<Name>, x: Batch, y: Batch)
    requires InOrder(list, x + y)
    ensures InOrder(list, x) && InOrder(list, y) && Ahead(list, x, y)
  {
    var all := x + y;
    forall i, j | 0 <= i < j < |x| ensures Precedes(list, x[i], x[j]) {
      assert all[i] == x[i] && all[j] == x[j];
    }
    forall i, j | 0 <= i < j < |y| ensures Precedes(list, y[i], y[j]) {
      assert all[|x| + i] == y[i] && all[|x| + j] == y[j];
    }
    forall i, j | 0 <= i < |x| && 0 <= j < |y| ensures Precedes(list, x[i], y[j]) {
      assert all[i] == x[i] && all[|x| + j] == y[j];
    }
  }

  lemma {:induction false} ListInOrder(list: seq<Name>)
    ensures InOrder(list, list)
  {}

  /** A batch stays in order when an element is left out at the end of a prefix. */
  lemma {:induction false} SnocInOrder(list: seq<Name>, x: Batch, kept: Batch, last: Name)
    requires InOrder(list, x + [last]) && InOrder(list, kept) && Within(kept, x)
    ensures InOrder(list, kept + [last])
  {
    PartsInOrder(list, x, [last]);
    AheadWithin(list, x, [last], kept, [last]);
    var all := kept + [last];
    forall i, j | 0 <= i < j < |all| ensures Precedes(list, all[i], all[j]) {
      if j == |kept| {
        assert all[i] == kept[i] && all[j] == [last][0];
      }
    }
  }

  /** The batches of a split follow one another in the order of the list. */
  lemma {:induction false} SplitInOrder(list: seq<Name>, batches: seq<Batch>)
    requires InOrder(list, Flatten(batches))
    ensures forall i :: 0 <= i < |batches| ==> InOrder(list, batches[i]) && Within(batches[i], Flatten(batches))
    ensures forall i, j :: 0 <= i < j < |batches| ==> Ahead(list, batches[i], batches[j])
  {
    if batches != [] {
      var front, last := batches[..|batches| - 1], batches[|batches| - 1];
      PartsInOrder(list, Flatten(front), last);
      SplitInOrder(list, front);
      forall i | 0 <= i < |front| ensures Ahead(list, batches[i], last) && Within(batches[i], Flatten(batches)) {
        assert front[i] == batches[i];
        AheadWithin(list, Flatten(front), last, front[i], last);
      }
      forall i, j | 0 <= i < j < |batches| ensures Ahead(list, batches[i], batches[j]) {
        if j < |front| {
          assert front[i] == batches[i] && front[j] == batches[j];
        }
      }
      forall i | 0 <= i < |batches| ensures InOrder(list, batches[i]) {
        if i < |front| {
          assert front[i] == batches[i];
        }
      }
    }
  }
}
