/** The class tree of H-FSC: which classes are active, and how the activity counts
    and the lists of active children say so. Classes are numbered from the root, 0,
    every class after its parent. */
module HfscTree {
  import opened Lists

  ghost predicate TreeOk(parent: seq<nat>) {
    && |parent| > 0 && parent[0] == 0
    && (forall c :: 0 < c < |parent| ==> parent[c] < c)
  }

  predicate IsParent(parent: seq<nat>, c: nat) {
    exists k :: 0 < k < |parent| && parent[k] == c
  }

  ghost predicate ChildList(parent: seq<nat>, c: nat, list: seq<nat>) {
    && Distinct(list)
    && (forall n :: 0 <= n < |list| ==> 0 < list[n] < |parent| && parent[list[n]] == c)
  }

  /** Activity: queues (packet lengths), active counts, lists of active children. */
  datatype Activity = Activity(queue: seq<seq<nat>>, nactive: seq<int>, actc: seq<seq<nat>>)

  ghost predicate Shaped(parent: seq<nat>, a: Activity) {
    && TreeOk(parent)
    && |a.queue| == |parent| && |a.nactive| == |parent| && |a.actc| == |parent|
    && (forall c :: 0 <= c < |parent| && IsParent(parent, c) ==> a.queue[c] == [])
    && (forall c :: 0 <= c < |parent| ==> ChildList(parent, c, a.actc[c]))
  }

  /** How many children of c are active; for a leaf, whether it has packets. */
  ghost function Count(parent: seq<nat>, a: Activity, c: nat): int
    requires Shaped(parent, a) && c < |parent|
  {
    if IsParent(parent, c) then |a.actc[c]| else if a.queue[c] == [] then 0 else 1
  }

  /** Class c counts right, or delta too few if it is class at; it is listed by its count. */
  ghost predicate Counts(parent: seq<nat>, a: Activity, c: nat, at: nat, delta: int)
    requires Shaped(parent, a) && 0 < c < |parent|
  {
    && a.nactive[c] + (if c == at then delta else 0) == Count(parent, a, c)
    && a.nactive[c] >= 0
    && (c in a.actc[parent[c]] <==> a.nactive[c] > 0)
  }

  /** Every class but the root counts right, except for class at, which is off. */
  ghost predicate RightBut(parent: seq<nat>, a: Activity, at: nat, delta: int)
    requires Shaped(parent, a)
  {
    forall c :: 0 < c < |parent| ==> Counts(parent, a, c, at, delta)
  }

  ghost predicate Right(parent: seq<nat>, a: Activity) {
    Shaped(parent, a) && RightBut(parent, a, 0, 0)
  }

  /** The root's count is not used. */
  lemma RootRight(parent: seq<nat>, a: Activity, delta: int)
    requires Shaped(parent, a) && RightBut(parent, a, 0, delta)
    ensures Right(parent, a)
  {
    forall c | 0 < c < |parent|
      ensures Counts(parent, a, c, 0, 0)
    {
      assert Counts(parent, a, c, 0, delta);
    }
  }

  /** Off by nothing is right, at any class. */
  lemma RightNowhere(parent: seq<nat>, a: Activity, k: nat)
    requires Shaped(parent, a)
    ensures RightBut(parent, a, 0, 0) <==> RightBut(parent, a, k, 0)
  {
    assert forall c :: 0 < c < |parent| ==> (Counts(parent, a, c, 0, 0) <==> Counts(parent, a, c, k, 0));
  }

  // ----- what it means

  ghost predicate AtOrBelow(parent: seq<nat>, leaf: nat, c: nat)
    requires TreeOk(parent) && leaf < |parent|
    decreases leaf
  {
    leaf == c || (leaf > 0 && AtOrBelow(parent, parent[leaf], c))
  }

  /** Some leaf at or below c has packets. */
  ghost predicate Backlogged(parent: seq<nat>, a: Activity, c: nat)
    requires Shaped(parent, a)
  {
    exists leaf :: 0 <= leaf < |parent| && a.queue[leaf] != [] && AtOrBelow(parent, leaf, c)
  }

  lemma {:induction false} BelowParent(parent: seq<nat>, leaf: nat, k: nat)
    requires TreeOk(parent) && leaf < |parent| && 0 < k < |parent| && AtOrBelow(parent, leaf, k)
    ensures AtOrBelow(parent, leaf, parent[k])
    decreases leaf
  {
    if leaf != k {
      BelowParent(parent, parent[leaf], k);
    } else {
      assert AtOrBelow(parent, parent[k], parent[k]);
    }
  }

  /** A class with a positive count has a backlogged leaf. */
  lemma {:induction false} CountedBacklogged(parent: seq<nat>, a: Activity, c: nat)
    requires Right(parent, a) && c < |parent| && Count(parent, a, c) > 0
    ensures Backlogged(parent, a, c)
    decreases |parent| - c
  {
    if IsParent(parent, c) {
      var k := a.actc[c][0];
      assert ChildList(parent, c, a.actc[c]);
      assert Counts(parent, a, k, 0, 0);
      CountedBacklogged(parent, a, k);
      var leaf :| 0 <= leaf < |parent| && a.queue[leaf] != [] && AtOrBelow(parent, leaf, k);
      BelowParent(parent, leaf, k);
    } else {
      assert AtOrBelow(parent, c, c);
    }
  }

  lemma {:induction false} BackloggedCounted(parent: seq<nat>, a: Activity, leaf: nat, c: nat)
    requires Right(parent, a) && leaf < |parent| && c < |parent| && AtOrBelow(parent, leaf, c)
    requires Count(parent, a, leaf) > 0
    ensures Count(parent, a, c) > 0
    decreases leaf
  {
    if leaf != c {
      assert Counts(parent, a, leaf, 0, 0);
      assert leaf in a.actc[parent[leaf]];
      assert IsParent(parent, parent[leaf]);
      BackloggedCounted(parent, a, parent[leaf], c);
    }
  }

  /** A class is on its parent's active list exactly when some leaf at or below it
      has packets. */
  lemma ActiveIff(parent: seq<nat>, a: Activity, c: nat)
    requires Right(parent, a) && 0 < c < |parent|
    ensures c in a.actc[parent[c]] <==> Backlogged(parent, a, c)
  {
    assert Counts(parent, a, c, 0, 0);
    if Count(parent, a, c) > 0 {
      CountedBacklogged(parent, a, c);
    } else if Backlogged(parent, a, c) {
      var leaf :| 0 <= leaf < |parent| && a.queue[leaf] != [] && AtOrBelow(parent, leaf, c);
      BackloggedCounted(parent, a, leaf, c);
    }
  }

  /** Any packet anywhere makes the root's list non-empty, unless the root is a leaf. */
  lemma {:induction false} RootActive(parent: seq<nat>, a: Activity, leaf: nat)
    requires Right(parent, a) && leaf < |parent| && a.queue[leaf] != []
    ensures Count(parent, a, 0) > 0
  {
    BelowRoot(parent, leaf);
    BackloggedCounted(parent, a, leaf, 0);
  }

  lemma {:induction false} BelowRoot(parent: seq<nat>, c: nat)
    requires TreeOk(parent) && c < |parent|
    ensures AtOrBelow(parent, c, 0)
  {
    if c > 0 {
      BelowRoot(parent, parent[c]);
    }
  }

  // ----- one step up the tree

  /** Sequences that differ by one inserted, or one removed, element. */
  ghost predicate Inserted(list: seq<nat>, r: seq<nat>, c: nat) {
    && |r| == |list| + 1 && Distinct(r)
    && (forall x :: x in r <==> x == c || x in list)
  }

  lemma ListOf(parent: seq<nat>, p: nat, from: seq<nat>, list: seq<nat>, c: nat)
    requires ChildList(parent, p, from) && Distinct(list)
    requires 0 < c < |parent| && parent[c] == p && forall x :: x in list ==> x == c || x in from
    ensures ChildList(parent, p, list)
  {
    forall n | 0 <= n < |list|
      ensures 0 < list[n] < |parent| && parent[list[n]] == p
    {
      assert list[n] in list;
    }
  }

  /** Class c counts one more. If it was not active it joins its parent's list, and
      then the parent counts one too few. */
  lemma JoinRight(parent: seq<nat>, a: Activity, c: nat, list: seq<nat>)
    requires Shaped(parent, a) && 0 < c < |parent| && RightBut(parent, a, c, 1)
    requires a.nactive[c] == 0 && Inserted(a.actc[parent[c]], list, c)
    ensures var a' := a.(nactive := a.nactive[c := 1], actc := a.actc[parent[c] := list]);
      Shaped(parent, a') && RightBut(parent, a', parent[c], 1)
  {
    var p := parent[c];
    var a' := a.(nactive := a.nactive[c := 1], actc := a.actc[p := list]);
    assert IsParent(parent, p);
    ListOf(parent, p, a.actc[p], list, c);
    assert Shaped(parent, a');
    forall k | 0 < k < |parent|
      ensures Counts(parent, a', k, p, 1)
    {
      assert Counts(parent, a, k, c, 1);
    }
  }

  lemma CountRight(parent: seq<nat>, a: Activity, c: nat)
    requires Shaped(parent, a) && 0 < c < |parent| && RightBut(parent, a, c, 1) && a.nactive[c] != 0
    ensures var a' := a.(nactive := a.nactive[c := a.nactive[c] + 1]);
      Shaped(parent, a') && RightBut(parent, a', 0, 0)
  {
    var a' := a.(nactive := a.nactive[c := a.nactive[c] + 1]);
    forall k | 0 < k < |parent|
      ensures Counts(parent, a', k, 0, 0)
    {
      assert Counts(parent, a, k, c, 1);
    }
  }

  /** Class c counts one less. If none is left it leaves its parent's list, and then
      the parent counts one too many. */
  lemma LeaveRight(parent: seq<nat>, a: Activity, c: nat, list: seq<nat>)
    requires Shaped(parent, a) && 0 < c < |parent| && RightBut(parent, a, c, -1)
    requires a.nactive[c] == 1 && Inserted(list, a.actc[parent[c]], c) && c !in list && Distinct(list)
    ensures var a' := a.(nactive := a.nactive[c := 0], actc := a.actc[parent[c] := list]);
      Shaped(parent, a') && RightBut(parent, a', parent[c], -1)
  {
    var p := parent[c];
    var a' := a.(nactive := a.nactive[c := 0], actc := a.actc[p := list]);
    assert IsParent(parent, p);
    ListOf(parent, p, a.actc[p], list, c);
    assert Shaped(parent, a');
    forall k | 0 < k < |parent|
      ensures Counts(parent, a', k, p, -1)
    {
      assert Counts(parent, a, k, c, -1);
    }
  }

  lemma LessRight(parent: seq<nat>, a: Activity, c: nat)
    requires Shaped(parent, a) && 0 < c < |parent| && RightBut(parent, a, c, -1) && a.nactive[c] > 1
    ensures var a' := a.(nactive := a.nactive[c := a.nactive[c] - 1]);
      Shaped(parent, a') && RightBut(parent, a', 0, 0)
  {
    var a' := a.(nactive := a.nactive[c := a.nactive[c] - 1]);
    forall k | 0 < k < |parent|
      ensures Counts(parent, a', k, 0, 0)
    {
      assert Counts(parent, a, k, c, -1);
    }
  }

  /** Reordering a list changes nothing. */
  lemma ReorderRight(parent: seq<nat>, a: Activity, p: nat, list: seq<nat>)
    requires Right(parent, a) && p < |parent| && |list| == |a.actc[p]| && Distinct(list)
    requires forall x :: x in list <==> x in a.actc[p]
    ensures Right(parent, a.(actc := a.actc[p := list]))
  {
    var a' := a.(actc := a.actc[p := list]);
    if list != [] {
      assert list[0] in list;
      ListOf(parent, p, a.actc[p], list, list[0]);
    }
    assert Shaped(parent, a');
    forall k | 0 < k < |parent|
      ensures Counts(parent, a', k, 0, 0)
    {
      assert Counts(parent, a, k, 0, 0);
    }
  }
}
