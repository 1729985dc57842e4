/** The sorted lists of H-FSC: classes in order of a key (eligible time or virtual
    time), searched from the ends. The lines marked as not reachable in the code are
    not reached, sorted or not. */
module HfscList {
  import opened HfscTree
  import opened Lists
  import opened Options

  ghost predicate Sorted(key: seq<nat>, list: seq<nat>)
    requires Within(list, |key|)
  {
    forall n, k :: 0 <= n < k < |list| ==> key[list[n]] <= key[list[k]]
  }

  ghost predicate Within(list: seq<nat>, size: nat) {
    forall n :: 0 <= n < |list| ==> list[n] < size
  }

  /** The same classes in another order. */
  ghost predicate Reordered(list: seq<nat>, r: seq<nat>) {
    |r| == |list| && Distinct(r) && forall x :: x in r <==> x in list
  }

  function At(list: seq<nat>, n: nat, c: nat): seq<nat>
    requires n <= |list|
  {
    list[..n] + [c] + list[n..]
  }

  function Without(list: seq<nat>, i: nat): seq<nat>
    requires i < |list|
  {
    list[..i] + list[i + 1..]
  }

  lemma AtElements(list: seq<nat>, n: nat, c: nat)
    requires n <= |list| && Distinct(list) && c !in list
    ensures Inserted(list, At(list, n, c), c)
  {
    var r := At(list, n, c);
    assert forall k :: 0 <= k < |r| ==> r[k] == if k < n then list[k] else if k == n then c else list[k - 1];
    forall x | x in list
      ensures x in r
    {
      var k :| 0 <= k < |list| && list[k] == x;
      assert r[if k < n then k else k + 1] == x;
    }
    assert r[n] == c;
  }

  lemma WithoutElements(list: seq<nat>, i: nat)
    requires i < |list| && Distinct(list)
    ensures var w := Without(list, i); Distinct(w) && list[i] !in w && At(w, i, list[i]) == list
  {
    var w := Without(list, i);
    assert forall k :: 0 <= k < |w| ==> w[k] == list[if k < i then k else k + 1];
  }

  lemma AtSorted(key: seq<nat>, list: seq<nat>, n: nat, c: nat)
    requires Within(list, |key|) && c < |key| && n <= |list| && Sorted(key, list)
    requires forall k :: 0 <= k < n ==> key[list[k]] <= key[c]
    requires n < |list| ==> key[c] <= key[list[n]]
    ensures Within(At(list, n, c), |key|) && Sorted(key, At(list, n, c))
  {
    var r := At(list, n, c);
    assert forall k :: 0 <= k < |r| ==> r[k] == if k < n then list[k] else if k == n then c else list[k - 1];
  }

  /** The first entry from n on with a key above k. */
  function FirstAbove(list: seq<nat>, key: seq<nat>, k: nat, n: nat): (r: nat)
    requires Within(list, |key|) && n <= |list|
    ensures n <= r <= |list|
    decreases |list| - n
  {
    if n == |list| || key[list[n]] > k then n else FirstAbove(list, key, k, n + 1)
  }

  /** The place of a class with key k: at the end if the last entry is not above it,
      else before the first that is. */
  function PlaceIn(list: seq<nat>, key: seq<nat>, k: nat): (r: nat)
    requires Within(list, |key|)
    ensures r <= |list|
  {
    if list == [] || key[list[|list| - 1]] <= k then |list| else FirstAbove(list, key, k, 0)
  }

  /** Put c before the first entry with a larger key; the last entry is tried first. */
  method Insert(list: seq<nat>, key: seq<nat>, c: nat) returns (r: seq<nat>)
    requires Within(list, |key|) && c < |key| && Distinct(list) && c !in list
    ensures r == At(list, PlaceIn(list, key, key[c]), c)
    ensures Within(r, |key|) && Inserted(list, r, c)
    ensures Sorted(key, list) ==> Sorted(key, r)
  {
    var n := 0;
    if list == [] || key[list[|list| - 1]] <= key[c] {
      n := |list|;
    } else {
      while key[list[n]] <= key[c]
        invariant 0 <= n < |list|
        invariant FirstAbove(list, key, key[c], 0) == FirstAbove(list, key, key[c], n)
        decreases |list| - n
      {
        if n + 1 == |list| {
          assert false;
        }
        n := n + 1;
      }
    }
    r := At(list, n, c);
    PlacedIn(list, key, c);
  }

  ghost function Index(list: seq<nat>, c: nat): (i: nat)
    requires c in list
    ensures i < |list| && list[i] == c
  {
    var i :| 0 <= i < |list| && list[i] == c;
    i
  }

  /** What placing a class does, wherever the list is searched from. */
  lemma PlacedIn(list: seq<nat>, key: seq<nat>, c: nat)
    requires Within(list, |key|) && c < |key| && Distinct(list) && c !in list
    ensures var r := At(list, PlaceIn(list, key, key[c]), c);
      Within(r, |key|) && Inserted(list, r, c) && (Sorted(key, list) ==> Sorted(key, r))
  {
    var n := PlaceIn(list, key, key[c]);
    AtElements(list, n, c);
    BelowPlace(list, key, key[c], 0);
    if Sorted(key, list) {
      AtSorted(key, list, n, c);
    }
  }

  lemma {:induction false} BelowPlace(list: seq<nat>, key: seq<nat>, k: nat, n: nat)
    requires Within(list, |key|) && n <= |list|
    ensures var r := FirstAbove(list, key, k, n);
      (forall m :: n <= m < r ==> key[list[m]] <= k) && (r < |list| ==> key[list[r]] > k)
    decreases |list| - n
  {
    if n < |list| && key[list[n]] <= k {
      BelowPlace(list, key, k, n + 1);
    }
  }

  method Remove(list: seq<nat>, key: seq<nat>, c: nat) returns (r: seq<nat>)
    requires Within(list, |key|) && Distinct(list) && c in list
    ensures r == Dropped(list, c)
    ensures Within(r, |key|) && Distinct(r) && c !in r && Inserted(r, list, c)
    ensures Sorted(key, list) ==> Sorted(key, r)
  {
    var i := Position(list, c);
    r := Without(list, i);
    Removed(list, key, i);
  }

  lemma Removed(list: seq<nat>, key: seq<nat>, i: nat)
    requires Within(list, |key|) && Distinct(list) && i < |list|
    ensures var r := Without(list, i);
      && Within(r, |key|) && Distinct(r) && list[i] !in r && Inserted(r, list, list[i])
      && (Sorted(key, list) ==> Sorted(key, r))
  {
    var r := Without(list, i);
    WithoutElements(list, i);
    AtElements(r, i, list[i]);
    assert forall k :: 0 <= k < |r| ==> r[k] == list[if k < i then k else k + 1];
    assert Sorted(key, list) ==> Sorted(key, r);
  }

  /** Behind which entries the one at i belongs: where it is if the next is above it,
      else at the end or before the first above it. With eager, an entry of the same key
      counts as one to follow. */
  function PlaceFrom(list: seq<nat>, key: seq<nat>, i: nat, eager: bool): (p: nat)
    requires Within(list, |key|) && i < |list|
    ensures i < p <= |list|
  {
    var k := key[list[i]];
    if i + 1 < |list| && (key[list[i + 1]] < k || (key[list[i + 1]] == k && eager)) then
      if key[list[|list| - 1]] <= k then |list| else FirstAbove(list, key, k, i + 1)
    else i + 1
  }

  /** The list without c. */
  ghost function Dropped(list: seq<nat>, c: nat): seq<nat> {
    if c in list then Without(list, Index(list, c)) else list
  }

  /** The list with c where its key belongs. */
  ghost function Shifted(list: seq<nat>, key: seq<nat>, c: nat, eager: bool): seq<nat>
    requires Within(list, |key|)
  {
    if c in list then
      var i := Index(list, c);
      At(Without(list, i), PlaceFrom(list, key, i, eager) - 1, c)
    else list
  }

  /** Move c, whose key may have grown, behind the entries it now follows. */
  method Update(list: seq<nat>, key: seq<nat>, c: nat, eager: bool, ghost was: nat) returns (r: seq<nat>)
    requires Within(list, |key|) && Distinct(list) && c in list
    ensures r == Shifted(list, key, c, eager)
    ensures Within(r, |key|) && Reordered(list, r)
    ensures was <= key[c] && Sorted(key[c := was], list) ==> Sorted(key, r)
  {
    var i := Position(list, c);
    var p := Place(list, key, i, eager);
    r := At(Without(list, i), p - 1, c);
    assert Index(list, c) == i;
    PlacedFrom(list, key, c, was, eager);
  }

  lemma Updated(list: seq<nat>, key: seq<nat>, i: nat, p: nat, was: nat)
    requires Within(list, |key|) && Distinct(list) && i < p <= |list|
    requires SortedAfter(list, key, i) ==> forall k :: i < k < p ==> key[list[k]] <= key[list[i]]
    requires p < |list| ==> key[list[i]] <= key[list[p]]
    ensures var r := At(Without(list, i), p - 1, list[i]);
      && Within(r, |key|) && Reordered(list, r)
      && (was <= key[list[i]] && Sorted(key[list[i] := was], list) ==> Sorted(key, r))
  {
    var r := At(Without(list, i), p - 1, list[i]);
    Moved(list, i, p - 1);
    assert forall n :: 0 <= n < |r| ==> r[n] in list;
    if was <= key[list[i]] && Sorted(key[list[i] := was], list) {
      OthersSorted(list, key, i, was);
      MovedSorted(key, list, i, p, was);
    }
  }

  lemma FromPlace(list: seq<nat>, key: seq<nat>, i: nat, eager: bool)
    requires Within(list, |key|) && i < |list|
    ensures var p := PlaceFrom(list, key, i, eager);
      && (SortedAfter(list, key, i) ==> forall k :: i < k < p ==> key[list[k]] <= key[list[i]])
      && (p < |list| ==> key[list[i]] <= key[list[p]])
  {
    BelowPlace(list, key, key[list[i]], i + 1);
  }

  /** What moving a class does. */
  lemma PlacedFrom(list: seq<nat>, key: seq<nat>, c: nat, was: nat, eager: bool)
    requires Within(list, |key|) && Distinct(list) && c in list
    ensures var r := Shifted(list, key, c, eager);
      && Within(r, |key|) && Reordered(list, r)
      && (was <= key[c] && Sorted(key[c := was], list) ==> Sorted(key, r))
  {
    var i := Index(list, c);
    var p := PlaceFrom(list, key, i, eager);
    FromPlace(list, key, i, eager);
    Updated(list, key, i, p, was);
  }

  lemma OthersSorted(list: seq<nat>, key: seq<nat>, i: nat, was: nat)
    requires Within(list, |key|) && Distinct(list) && i < |list| && Sorted(key[list[i] := was], list)
    ensures SortedAfter(list, key, i)
  {
    assert forall n :: i < n < |list| ==> key[list[i] := was][list[n]] == key[list[n]];
  }

  ghost predicate SortedAfter(list: seq<nat>, key: seq<nat>, i: nat)
    requires Within(list, |key|)
  {
    forall n, k :: i < n < k < |list| ==> key[list[n]] <= key[list[k]]
  }

  method Place(list: seq<nat>, key: seq<nat>, i: nat, eager: bool) returns (p: nat)
    requires Within(list, |key|) && i < |list|
    ensures p == PlaceFrom(list, key, i, eager)
  {
    p := i + 1;
    var k := key[list[i]];
    if p < |list| && (key[list[p]] < k || (key[list[p]] == k && eager)) {
      if key[list[|list| - 1]] <= k {
        p := |list|;
      } else {
        while key[list[p]] <= k
          invariant i < p < |list|
          invariant FirstAbove(list, key, k, i + 1) == FirstAbove(list, key, k, p)
          decreases |list| - p
        {
          if p + 1 == |list| {
            assert false;
          }
          p := p + 1;
        }
      }
    }
  }

  lemma Moved(list: seq<nat>, i: nat, n: nat)
    requires i < |list| && n < |list| && Distinct(list)
    ensures Reordered(list, At(Without(list, i), n, list[i]))
  {
    WithoutElements(list, i);
    AtElements(Without(list, i), i, list[i]);
    AtElements(Without(list, i), n, list[i]);
  }

  lemma MovedSorted(key: seq<nat>, list: seq<nat>, i: nat, p: nat, was: nat)
    requires Within(list, |key|) && Distinct(list) && i < p <= |list| && was <= key[list[i]]
    requires Sorted(key[list[i] := was], list)
    requires forall k :: i < k < p ==> key[list[k]] <= key[list[i]]
    requires p < |list| ==> key[list[i]] <= key[list[p]]
    ensures var r := At(Without(list, i), p - 1, list[i]); Within(r, |key|) && Sorted(key, r)
  {
    var w, c := Without(list, i), list[i];
    RestSorted(key, list, i, was);
    forall k | 0 <= k < p - 1
      ensures key[w[k]] <= key[c]
    {
      if k < i {
        assert key[c := was][list[k]] <= key[c := was][list[i]];
      }
    }
    AtSorted(key, w, p - 1, c);
  }

  lemma RestSorted(key: seq<nat>, list: seq<nat>, i: nat, was: nat)
    requires Within(list, |key|) && Distinct(list) && i < |list| && Sorted(key[list[i] := was], list)
    ensures var w := Without(list, i); Within(w, |key|) && Sorted(key, w)
    ensures forall k :: 0 <= k < |list| - 1 ==> Without(list, i)[k] == list[if k < i then k else k + 1]
  {
    var w, key' := Without(list, i), key[list[i] := was];
    assert forall k :: 0 <= k < |w| ==> w[k] == list[if k < i then k else k + 1] && key'[w[k]] == key[w[k]];
    forall n, k | 0 <= n < k < |w|
      ensures key[w[n]] <= key[w[k]]
    {
      var n', k' := if n < i then n else n + 1, if k < i then k else k + 1;
      assert key'[list[n']] <= key'[list[k']];
    }
  }

  /** The class with the least deadline among those already eligible: the head of the
      list up to the first that is not. */
  method MinDeadline(list: seq<nat>, eligible: seq<nat>, deadline: seq<nat>, now: nat) returns (best: Option<nat>)
    requires Within(list, |eligible|) && |deadline| == |eligible| && Sorted(eligible, list)
    ensures best.None? ==> forall c :: c in list ==> eligible[c] > now
    ensures best.Some? ==> best.value in list && eligible[best.value] <= now
    ensures best.Some? ==> forall c :: c in list && eligible[c] <= now ==> deadline[best.value] <= deadline[c]
  {
    best := None;
    var n := 0;
    while n < |list| && eligible[list[n]] <= now
      invariant 0 <= n <= |list|
      invariant forall k :: 0 <= k < n ==> eligible[list[k]] <= now
      invariant best.None? <==> n == 0
      invariant best.Some? ==> best.value in list && eligible[best.value] <= now
      invariant best.Some? ==> forall k :: 0 <= k < n ==> deadline[best.value] <= deadline[list[k]]
    {
      var c := list[n];
      if best.None? || deadline[c] < deadline[best.value] {
        best := Some(c);
      }
      n := n + 1;
    }
    assert forall k :: n <= k < |list| ==> eligible[list[k]] > now;
  }

  /** Class c fits now, and nothing before it on the list does. */
  ghost predicate FirstFitting(list: seq<nat>, fit: seq<nat>, now: nat, c: nat)
    requires Within(list, |fit|)
  {
    exists n :: 0 <= n < |list| && list[n] == c && fit[list[n]] <= now && forall k :: 0 <= k < n ==> fit[list[k]] > now
  }

  /** The first class that fits now. */
  method FirstFit(list: seq<nat>, fit: seq<nat>, now: nat) returns (first: Option<nat>)
    requires Within(list, |fit|)
    ensures first.None? ==> forall n :: 0 <= n < |list| ==> fit[list[n]] > now
    ensures first.Some? ==> FirstFitting(list, fit, now, first.value)
  {
    var n := 0;
    while n < |list|
      invariant 0 <= n <= |list|
      invariant forall k :: 0 <= k < n ==> fit[list[k]] > now
    {
      if fit[list[n]] <= now {
        return Some(list[n]);
      }
      n := n + 1;
    }
    return None;
  }
}
