/** What the walks up the class tree of H-FSC keep: activity counts and lists, the order
    of virtual times, and fit times. Everything is right except at the class the walk
    has come to. */
module HfscWalk {
  import opened HfscTree
  import opened HfscList
  import opened HfscCurve
  import opened HfscVirtual
  import opened HfscLinks
  import opened Marks
  import opened Options

  // ----- counts

  /** Counts and lists are right, but class at counts delta too few children. */
  ghost predicate CountsOk(t: Tree, q: seq<seq<nat>>, l: Links, at: nat, delta: int) {
    var a := Activity(q, l.nactive, l.actc);
    && Shaped(t.parent, a) && RightBut(t.parent, a, at, delta)
    && (delta == 0 && 0 < at < |t.parent| ==> at in l.actc[t.parent[at]])
  }

  ghost predicate Counting(t: Tree, q: seq<seq<nat>>, l: Links, at: nat, delta: int) {
    forall n {:trigger Inside(n)} :: Inside(n) ==> CountsOk(t, q, l, at, delta)
  }

  /** The class that the walk has come to is listed exactly if it counts a child. */
  lemma Listed(t: Tree, q: seq<seq<nat>>, l: Links, k: nat, delta: int)
    requires Counting(t, q, l, k, delta) && 0 < k < |t.parent|
    ensures |l.nactive| == |t.parent| && TreeOk(t.parent) && ChildLists(t.parent, l.actc)
    ensures l.nactive[k] >= 0 && (k in l.actc[t.parent[k]] <==> l.nactive[k] > 0)
    ensures delta <= 0 ==> l.nactive[k] > 0
  {
    assert Inside(0);
    assert Counts(t.parent, Activity(q, l.nactive, l.actc), k, k, delta);
  }

  /** A count that is right at a listed class. */
  lemma RightCounting(t: Tree, q: seq<seq<nat>>, l: Links, k: nat)
    requires Right(t.parent, Activity(q, l.nactive, l.actc)) && 0 < k < |t.parent| && k in l.actc[t.parent[k]]
    ensures Counting(t, q, l, k, 0)
  {
    RightNowhere(t.parent, Activity(q, l.nactive, l.actc), k);
  }

  /** Then it is right at the next class up, which is listed too. */
  lemma CountingAbove(t: Tree, q: seq<seq<nat>>, l: Links, k: nat)
    requires Counting(t, q, l, k, 0) && 0 < k < |t.parent| && TreeOk(t.parent)
    ensures Counting(t, q, l, t.parent[k], 0)
  {
    assert Inside(0);
    var p, a := t.parent[k], Activity(q, l.nactive, l.actc);
    RightNowhere(t.parent, a, k);
    RightNowhere(t.parent, a, p);
    if p > 0 {
      assert IsParent(t.parent, p);
      assert Counts(t.parent, a, p, 0, 0);
    }
  }

  /** At the root nothing is left to correct. */
  lemma RootCounting(t: Tree, q: seq<seq<nat>>, l: Links, delta: int)
    requires Counting(t, q, l, 0, delta)
    ensures Counting(t, q, l, 0, 0)
  {
    assert Inside(0);
    RootRight(t.parent, Activity(q, l.nactive, l.actc), delta);
  }

  lemma JoinedCounting(t: Tree, q: seq<seq<nat>>, l: Links, k: nat)
    requires Counting(t, q, l, k, 1) && 0 < k < |t.parent| && Formed(t, l) && l.nactive[k] == 0
    ensures Counting(t, q, Joined(t, l, k), t.parent[k], 1)
  {
    Listed(t, q, l, k, 1);
    assert Inside(0);
    var p, r := t.parent[k], Joined(t, l, k);
    assert ChildList(t.parent, p, l.actc[p]);
    PlacedIn(l.actc[p], Vts(r.sh), k);
    JoinRight(t.parent, Activity(q, l.nactive, l.actc), k, r.actc[p]);
  }

  lemma CountedCounting(t: Tree, q: seq<seq<nat>>, l: Links, k: nat)
    requires Counting(t, q, l, k, 1) && 0 < k < |t.parent| && Formed(t, l) && l.nactive[k] != 0
    ensures Counting(t, q, l.(nactive := l.nactive[k := l.nactive[k] + 1]), k, 0)
  {
    Listed(t, q, l, k, 1);
    assert Inside(0);
    CountRight(t.parent, Activity(q, l.nactive, l.actc), k);
    RightCounting(t, q, l.(nactive := l.nactive[k := l.nactive[k] + 1]), k);
  }

  lemma RetiredCounting(t: Tree, q: seq<seq<nat>>, l: Links, k: nat, len: nat)
    requires Counting(t, q, l, k, -1) && 0 < k < |t.parent| && Formed(t, l) && l.nactive[k] == 1
    ensures Counting(t, q, Retired(t, l, k, len), t.parent[k], -1)
  {
    Listed(t, q, l, k, -1);
    assert Inside(0);
    var p := t.parent[k];
    assert ChildList(t.parent, p, l.actc[p]);
    Removed(l.actc[p], Vts(l.sh), Index(l.actc[p], k));
    LeaveRight(t.parent, Activity(q, l.nactive, l.actc), k, Dropped(l.actc[p], k));
  }

  lemma LessCounting(t: Tree, q: seq<seq<nat>>, l: Links, k: nat)
    requires Counting(t, q, l, k, -1) && 0 < k < |t.parent| && Formed(t, l) && l.nactive[k] != 1
    ensures Counting(t, q, l.(nactive := l.nactive[k := l.nactive[k] - 1]), k, 0)
  {
    Listed(t, q, l, k, -1);
    assert Inside(0);
    LessRight(t.parent, Activity(q, l.nactive, l.actc), k);
    RightCounting(t, q, l.(nactive := l.nactive[k := l.nactive[k] - 1]), k);
  }

  lemma ReorderedCounting(t: Tree, q: seq<seq<nat>>, l: Links, k: nat, list: seq<nat>)
    requires Counting(t, q, l, k, 0) && 0 < k < |t.parent| && Formed(t, l) && Reordered(l.actc[t.parent[k]], list)
    ensures Counting(t, q, l.(actc := l.actc[t.parent[k] := list]), t.parent[k], 0)
  {
    Listed(t, q, l, k, 0);
    assert Inside(0);
    var p, a := t.parent[k], Activity(q, l.nactive, l.actc);
    RightNowhere(t.parent, a, k);
    ReorderRight(t.parent, a, p, list);
    var r := l.(actc := l.actc[p := list]);
    RightCounting(t, q, r, k);
    CountingAbove(t, q, r, k);
  }

  // ----- order of virtual times

  /** The curves have the form the fair curves allow, and while steady the active lists
      are in order of virtual time. */
  ghost predicate Sharing(t: Tree, sh: seq<Share>, actc: seq<seq<nat>>, steady: bool) {
    forall n {:trigger Inside(n)} :: Inside(n) ==> CurvesFit(t.fsc, sh) && (steady ==> InOrder(t.fsc, sh, actc))
  }

  lemma RenewedSharing(t: Tree, l: Links, steady: bool, p: nat)
    requires Formed(t, l) && p < |t.parent| && Sharing(t, l.sh, l.actc, steady) && ChildLists(t.parent, l.actc) && l.actc[p] == []
    ensures Sharing(t, Renewed(t.parent, l.sh, p), l.actc, steady)
  {
    assert Inside(0);
    if steady {
      StillInOrder(t.parent, t.fsc, l.sh, Renewed(t.parent, l.sh, p), l.actc);
    }
  }

  /** A class on no list gets a new virtual time and curve. */
  lemma BegunSharing(t: Tree, sh: seq<Share>, actc: seq<seq<nat>>, steady: bool, k: nat, vt: nat, parentPeriod: nat)
    requires TreeOk(t.parent) && |sh| == |t.fsc| == |t.parent| && 0 < k < |t.parent| && Sharing(t, sh, actc, steady)
    requires ChildLists(t.parent, actc) && k !in actc[t.parent[k]]
    ensures Sharing(t, sh[k := Begun(sh[k], t.fsc[k], vt, parentPeriod)], actc, steady)
  {
    assert Inside(0);
    BegunOnCourse(sh[k], t.fsc[k], vt, parentPeriod);
    if steady {
      StillInOrder(t.parent, t.fsc, sh, sh[k := Begun(sh[k], t.fsc[k], vt, parentPeriod)], actc);
    }
  }

  lemma StartedSharing(t: Tree, l: Links, steady: bool, k: nat)
    requires Formed(t, l) && 0 < k < |t.parent| && Sharing(t, l.sh, l.actc, steady)
    requires ChildLists(t.parent, l.actc) && k !in l.actc[t.parent[k]]
    ensures Sharing(t, Started(t, l, k), l.actc, steady)
  {
    var p, sh := t.parent[k], Found(t, l, k);
    if l.actc[p] == [] {
      RenewedSharing(t, l, steady, p);
    }
    BegunSharing(t, sh, l.actc, steady, k, StartVt(t, l, k), sh[p].period + if l.nactive[p] == 0 then 1 else 0);
  }

  /** Still steady, if the class is on course. */
  ghost predicate StillSteady(t: Tree, l: Links, steady: bool, k: nat)
    requires Formed(t, l) && 0 < k < |t.parent|
  {
    steady && OnCourse(Started(t, l, k)[k], t.fsc[k])
  }

  lemma InsertedSharing(t: Tree, sh: seq<Share>, actc: seq<seq<nat>>, p: nat, k: nat)
    requires ChildLists(t.parent, actc) && p < |t.parent| && k < |t.parent| == |t.fsc| == |sh| && k !in actc[p] && Within(actc[p], |sh|)
    requires Sharing(t, sh, actc, true) && OnCourse(sh[k], t.fsc[k])
    ensures Sharing(t, sh, actc[p := At(actc[p], PlaceIn(actc[p], Vts(sh), sh[k].vt), k)], true)
  {
    assert Inside(0);
    var list := At(actc[p], PlaceIn(actc[p], Vts(sh), sh[k].vt), k);
    assert Ordered(t.fsc, sh, actc[p]) && ChildList(t.parent, p, actc[p]);
    PlacedIn(actc[p], Vts(sh), k);
    InsertedOrder(t.fsc, sh, actc[p], list, k);
    ListInOrder(t.fsc, sh, actc, p, list);
  }

  lemma NotSteady(t: Tree, sh: seq<Share>, actc: seq<seq<nat>>, steady: bool, actc': seq<seq<nat>>)
    requires Sharing(t, sh, actc, steady)
    ensures Sharing(t, sh, actc', false)
  {
    assert Inside(0);
  }

  lemma JoinedSharing(t: Tree, l: Links, steady: bool, k: nat)
    requires Formed(t, l) && 0 < k < |t.parent| && Sharing(t, l.sh, l.actc, steady)
    requires ChildLists(t.parent, l.actc) && k !in l.actc[t.parent[k]]
    ensures var r := Joined(t, l, k); Sharing(t, r.sh, r.actc, StillSteady(t, l, steady, k))
  {
    var p, r := t.parent[k], Joined(t, l, k);
    StartedSharing(t, l, steady, k);
    if StillSteady(t, l, steady, k) {
      InsertedSharing(t, r.sh, l.actc, p, k);
    } else {
      NotSteady(t, r.sh, l.actc, steady, r.actc);
    }
  }

  lemma RetiredSharing(t: Tree, l: Links, steady: bool, k: nat, len: nat)
    requires Formed(t, l) && 0 < k < |t.parent| && Sharing(t, l.sh, l.actc, steady)
    requires ChildLists(t.parent, l.actc) && k in l.actc[t.parent[k]]
    ensures var r := Retired(t, l, k, len); Sharing(t, r.sh, r.actc, steady)
  {
    assert Inside(0);
    var p, r := t.parent[k], Retired(t, l, k, len);
    var list, rest := l.actc[p], r.actc[p];
    if steady {
      assert Ordered(t.fsc, l.sh, list) && ChildList(t.parent, p, list);
      Removed(list, Vts(l.sh), Index(list, k));
      assert OnCourse(l.sh[k], t.fsc[k]);
      InsertedOrder(t.fsc, l.sh, list, rest, k);
      ListInOrder(t.fsc, l.sh, l.actc, p, rest);
      RestChildren(t.parent, l.actc, p, rest, k);
      StillInOrder(t.parent, t.fsc, l.sh, r.sh, r.actc);
    }
  }

  /** Class k goes on as x: on course if it was, and no earlier. */
  ghost predicate GoesOn(s: Share, x: Share, isc: Isc) {
    x.curve == s.curve && (OnCourse(s, isc) ==> OnCourse(x, isc) && x.vt >= s.vt)
  }

  lemma ProceededOrder(t: Tree, l: Links, k: nat, x: Share, list: seq<nat>)
    requires Formed(t, l) && 0 < k < |t.parent| && InOrder(t.fsc, l.sh, l.actc)
    requires ChildLists(t.parent, l.actc) && k in l.actc[t.parent[k]] && GoesOn(l.sh[k], x, t.fsc[k])
    requires Within(l.actc[t.parent[k]], |l.sh|) && list == Shifted(l.actc[t.parent[k]], Vts(l.sh[k := x]), k, true)
    ensures InOrder(t.fsc, l.sh[k := x], l.actc[t.parent[k] := list])
  {
    var p := t.parent[k];
    assert Ordered(t.fsc, l.sh, l.actc[p]) && ChildList(t.parent, p, l.actc[p]);
    assert OnCourse(l.sh[k], t.fsc[k]);
    PlacedFrom(l.actc[p], Vts(l.sh[k := x]), k, l.sh[k].vt, true);
    ServedOrder(t.parent, t.fsc, l.sh, l.actc, k, x, list);
  }

  lemma ProceededSharing(t: Tree, l: Links, steady: bool, k: nat, x: Share, list: seq<nat>)
    requires Formed(t, l) && 0 < k < |t.parent| && Sharing(t, l.sh, l.actc, steady)
    requires ChildLists(t.parent, l.actc) && k in l.actc[t.parent[k]] && GoesOn(l.sh[k], x, t.fsc[k])
    requires Within(l.actc[t.parent[k]], |l.sh|) && list == Shifted(l.actc[t.parent[k]], Vts(l.sh[k := x]), k, true)
    ensures Sharing(t, l.sh[k := x], l.actc[t.parent[k] := list], steady)
  {
    assert Inside(0);
    assert CurveOk(l.sh[k].curve, t.fsc[k]);
    if steady {
      ProceededOrder(t, l, k, x, list);
    }
  }

  lemma RaisedSharing(t: Tree, l: Links, steady: bool, p: nat, c: nat)
    requires Formed(t, l) && Sharing(t, l.sh, l.actc, steady) && ChildLists(t.parent, l.actc) && p < |t.parent| && c < |t.parent|
    ensures Sharing(t, Raise(l.sh, p, c), l.actc, steady)
  {
    assert Inside(0);
    if steady {
      StillInOrder(t.parent, t.fsc, l.sh, Raise(l.sh, p, c), l.actc);
    }
  }

  // ----- fit times

  /** Fit times follow limits and children, except perhaps at one class. */
  ghost predicate Limits(t: Tree, actc: seq<seq<nat>>, ft: seq<Fit>, at: nat) {
    forall n {:trigger Inside(n)} :: Inside(n) ==> FitsBut(t.parent, actc, ft, at) && (Unlimited(t.usc) ==> Free(ft))
  }

  lemma LimitsAnywhere(t: Tree, actc: seq<seq<nat>>, ft: seq<Fit>, at: nat)
    requires Limits(t, actc, ft, 0)
    ensures Limits(t, actc, ft, at)
  {
    assert Inside(0);
  }

  lemma JoinedLimits(t: Tree, l: Links, k: nat, list: seq<nat>, a: Fit)
    requires Formed(t, l) && 0 < k < |t.parent| && Limits(t, l.actc, l.ft, k) && k in list && Within(list, |l.ft|)
    requires ChildLists(t.parent, l.actc[t.parent[k] := list]) && forall c :: c in list && c != k ==> c in l.actc[t.parent[k]]
    requires a.least == l.ft[k].least && a.f == 0 && (t.usc[k].None? ==> a.own == l.ft[k].own)
    ensures var p := t.parent[k]; Limits(t, l.actc[p := list], Settled(l.ft, list, k, p, a), p)
  {
    assert Inside(0);
    var p := t.parent[k];
    ListFits(t.parent, l.actc, l.ft, k, list);
    SettledFits(t.parent, l.actc[p := list], l.ft, k, a, true);
    if Unlimited(t.usc) {
      SettledFree(l.ft, list, k, p, a);
    }
  }

  lemma ReorderedLimits(t: Tree, l: Links, k: nat, list: seq<nat>, a: Fit)
    requires Formed(t, l) && 0 < k < |t.parent| && Limits(t, l.actc, l.ft, k) && k in list && Within(list, |l.ft|)
    requires ChildLists(t.parent, l.actc[t.parent[k] := list]) && Reordered(l.actc[t.parent[k]], list)
    requires a.least == l.ft[k].least && a.f == l.ft[k].f && (t.usc[k].None? ==> a.own == l.ft[k].own)
    ensures var p := t.parent[k]; Limits(t, l.actc[p := list], Settled(l.ft, list, k, p, a), p)
  {
    assert Inside(0);
    var p := t.parent[k];
    ReorderedFits(t.parent, l.actc, l.ft, k, list);
    SettledFits(t.parent, l.actc[p := list], l.ft, k, a, false);
    if Unlimited(t.usc) {
      SettledFree(l.ft, list, k, p, a);
    }
  }

  lemma RetiredLimits(t: Tree, l: Links, k: nat, list: seq<nat>)
    requires Formed(t, l) && 0 < k < |t.parent| && Limits(t, l.actc, l.ft, k) && k !in list && Within(list, |l.ft|)
    requires ChildLists(t.parent, l.actc[t.parent[k] := list]) && forall c :: c in list ==> c in l.actc[t.parent[k]]
    ensures var p := t.parent[k]; Limits(t, l.actc[p := list], Recomputed(l.ft, list, p), p)
  {
    assert Inside(0);
    var p := t.parent[k];
    ListFits(t.parent, l.actc, l.ft, k, list);
    RecomputedFits(t.parent, l.actc[p := list], l.ft, p);
    if Unlimited(t.usc) {
      RecomputedFree(l.ft, list, p);
    }
  }

  /** Where an inner class fits, one of its active children does. */
  lemma FitBelow(t: Tree, l: Links, c: nat, now: nat)
    requires Formed(t, l) && Limits(t, l.actc, l.ft, 0) && 0 < c < |t.parent| && l.actc[c] != []
    requires c in l.actc[t.parent[c]] && l.ft[c].f <= now
    ensures exists n :: 0 <= n < |l.actc[c]| && l.ft[l.actc[c][n]].f <= now
  {
    assert Inside(0);
    assert Covered(l.ft, l.actc[c], l.ft[c].least);
  }

  // ----- all three

  ghost predicate Walk(t: Tree, q: seq<seq<nat>>, l: Links, steady: bool, at: nat, delta: int) {
    && Formed(t, l) && |q| == |t.parent|
    && Counting(t, q, l, at, delta) && Sharing(t, l.sh, l.actc, steady) && Limits(t, l.actc, l.ft, at)
  }

  /** Nothing is active. */
  lemma IdleWalk(t: Tree, q: seq<seq<nat>>, l: Links)
    requires Formed(t, l) && |q| == |t.parent| && CurvesFit(t.fsc, l.sh) && Free(l.ft)
    requires forall c :: 0 <= c < |q| ==> q[c] == [] && l.nactive[c] == 0 && l.actc[c] == []
    ensures Walk(t, q, l, true, 0, 0)
  {
    assert forall c :: 0 < c < |t.parent| ==> Counts(t.parent, Activity(q, l.nactive, l.actc), c, 0, 0);
  }

  /** A first packet makes a leaf count one too few. */
  lemma ArriveWalk(t: Tree, q: seq<seq<nat>>, l: Links, steady: bool, c: nat, len: nat)
    requires Walk(t, q, l, steady, 0, 0) && c < |t.parent| && !IsParent(t.parent, c) && q[c] == []
    ensures Walk(t, q[c := [len]], l, steady, c, 1)
  {
    LimitsAnywhere(t, l.actc, l.ft, c);
    ArriveCounting(t, q, l, c, len);
  }

  lemma ArriveCounting(t: Tree, q: seq<seq<nat>>, l: Links, c: nat, len: nat)
    requires Counting(t, q, l, 0, 0) && c < |t.parent| == |q| && !IsParent(t.parent, c) && q[c] == []
    ensures Counting(t, q[c := [len]], l, c, 1)
  {
    assert Inside(0);
    var a := Activity(q[c := [len]], l.nactive, l.actc);
    forall k | 0 < k < |t.parent|
      ensures Counts(t.parent, a, k, c, 1)
    {
      assert Counts(t.parent, Activity(q, l.nactive, l.actc), k, 0, 0);
    }
  }

  /** A packet more or less in a leaf that stays backlogged changes no count. */
  lemma MoreWalk(t: Tree, q: seq<seq<nat>>, l: Links, steady: bool, c: nat, qc: seq<nat>)
    requires Walk(t, q, l, steady, 0, 0) && c < |t.parent| && q[c] != [] && qc != []
    ensures Walk(t, q[c := qc], l, steady, 0, 0) && Walk(t, q[c := qc], l, steady, c, 0)
  {
    LimitsAnywhere(t, l.actc, l.ft, c);
    MoreCounting(t, q, l, c, qc);
  }

  lemma MoreCounting(t: Tree, q: seq<seq<nat>>, l: Links, c: nat, qc: seq<nat>)
    requires Counting(t, q, l, 0, 0) && c < |t.parent| == |q| && q[c] != [] && qc != []
    ensures Counting(t, q[c := qc], l, 0, 0) && Counting(t, q[c := qc], l, c, 0)
  {
    assert Inside(0);
    var a := Activity(q[c := qc], l.nactive, l.actc);
    forall k | 0 < k < |t.parent|
      ensures Counts(t.parent, a, k, 0, 0)
    {
      assert Counts(t.parent, Activity(q, l.nactive, l.actc), k, 0, 0);
    }
    RightNowhere(t.parent, a, c);
    if c > 0 {
      assert Counts(t.parent, Activity(q, l.nactive, l.actc), c, 0, 0);
    }
  }

  /** Losing the last packet makes a leaf count one too many. */
  lemma DepartWalk(t: Tree, q: seq<seq<nat>>, l: Links, steady: bool, c: nat)
    requires Walk(t, q, l, steady, 0, 0) && c < |t.parent| && q[c] != []
    ensures Walk(t, q[c := []], l, steady, c, -1)
  {
    LimitsAnywhere(t, l.actc, l.ft, c);
    DepartCounting(t, q, l, c);
  }

  lemma DepartCounting(t: Tree, q: seq<seq<nat>>, l: Links, c: nat)
    requires Counting(t, q, l, 0, 0) && c < |t.parent| == |q| && q[c] != []
    ensures Counting(t, q[c := []], l, c, -1)
  {
    assert Inside(0);
    var a := Activity(q[c := []], l.nactive, l.actc);
    forall k | 0 < k < |t.parent|
      ensures Counts(t.parent, a, k, c, -1)
    {
      assert Counts(t.parent, Activity(q, l.nactive, l.actc), k, 0, 0);
    }
  }

  /** Some packet, so something to descend to. */
  lemma RootListed(t: Tree, q: seq<seq<nat>>, l: Links, steady: bool, leaf: nat)
    requires Walk(t, q, l, steady, 0, 0) && leaf < |q| && q[leaf] != []
    ensures if IsParent(t.parent, 0) then l.actc[0] != [] else q[0] != []
  {
    RootCounted(t, q, l, leaf);
  }

  lemma RootCounted(t: Tree, q: seq<seq<nat>>, l: Links, leaf: nat)
    requires Formed(t, l) && Counting(t, q, l, 0, 0) && leaf < |q| == |t.parent| && q[leaf] != []
    ensures if IsParent(t.parent, 0) then l.actc[0] != [] else q[0] != []
  {
    assert Inside(0);
    RootActive(t.parent, Activity(q, l.nactive, l.actc), leaf);
  }

  /** Without upper limits some child of the root always fits. */
  lemma NeverBlocked(t: Tree, q: seq<seq<nat>>, l: Links, steady: bool, leaf: nat, now: nat)
    requires Walk(t, q, l, steady, 0, 0) && leaf < |q| && q[leaf] != [] && Unlimited(t.usc) && IsParent(t.parent, 0)
    ensures exists k :: k in l.actc[0] && k < |l.ft| && l.ft[k].f <= now
  {
    RootListed(t, q, l, steady, leaf);
    AllFree(t, l);
    assert l.actc[0][0] in l.actc[0] && l.ft[l.actc[0][0]].f == 0;
  }

  lemma AllFree(t: Tree, l: Links)
    requires Limits(t, l.actc, l.ft, 0) && Unlimited(t.usc)
    ensures Free(l.ft)
  {
    assert Inside(0);
  }

  /** So at every active class: a listed child, or for a leaf a packet. */
  lemma BelowListed(t: Tree, q: seq<seq<nat>>, l: Links, c: nat)
    requires Formed(t, l) && |q| == |t.parent| && Counting(t, q, l, 0, 0) && 0 < c < |t.parent| && c in l.actc[t.parent[c]]
    ensures if IsParent(t.parent, c) then l.actc[c] != [] else q[c] != []
  {
    assert Inside(0);
    assert Counts(t.parent, Activity(q, l.nactive, l.actc), c, 0, 0);
  }

  lemma Children(t: Tree, q: seq<seq<nat>>, l: Links, at: nat, delta: int)
    requires Counting(t, q, l, at, delta)
    ensures ChildLists(t.parent, l.actc)
  {
    assert Inside(0);
  }

  lemma JoinedWalk(t: Tree, q: seq<seq<nat>>, l: Links, steady: bool, k: nat, now: nat)
    requires Walk(t, q, l, steady, k, 1) && 0 < k < |t.parent| && l.nactive[k] == 0
    ensures Walk(t, q, Limited(t, Joined(t, l, k), k, true, now), StillSteady(t, l, steady, k), t.parent[k], 1)
  {
    var p, r := t.parent[k], Joined(t, l, k);
    Listed(t, q, l, k, 1);
    JoinedCounting(t, q, l, k);
    Children(t, q, r, p, 1);
    JoinedSharing(t, l, steady, k);
    assert ChildList(t.parent, p, l.actc[p]);
    PlacedIn(l.actc[p], Vts(r.sh), k);
    JoinedLimits(t, l, k, r.actc[p], Opened(l.ft[k], t.usc[k], r.sh[k].total, now));
    assert Counting(t, q, Limited(t, r, k, true, now), p, 1) by {
      SameCounting(t, q, r, Limited(t, r, k, true, now), p, 1);
    }
  }

  lemma SameCounting(t: Tree, q: seq<seq<nat>>, l: Links, r: Links, at: nat, delta: int)
    requires Counting(t, q, l, at, delta) && r.nactive == l.nactive && r.actc == l.actc
    ensures Counting(t, q, r, at, delta)
  {
    assert Inside(0);
  }

  lemma LimitedWalk(t: Tree, q: seq<seq<nat>>, l: Links, steady: bool, k: nat, now: nat)
    requires Walk(t, q, l, steady, k, 0) && 0 < k < |t.parent|
    ensures Walk(t, q, Limited(t, l, k, false, now), steady, t.parent[k], 0)
  {
    var p, r := t.parent[k], Limited(t, l, k, false, now);
    Listed(t, q, l, k, 0);
    CountingAbove(t, q, l, k);
    SameCounting(t, q, l, r, p, 0);
    assert l.actc[p := l.actc[p]] == l.actc && ChildList(t.parent, p, l.actc[p]);
    ReorderedLimits(t, l, k, l.actc[p], l.ft[k]);
  }

  lemma CountedWalk(t: Tree, q: seq<seq<nat>>, l: Links, steady: bool, k: nat)
    requires Walk(t, q, l, steady, k, 1) && 0 < k < |t.parent| && l.nactive[k] != 0
    ensures Walk(t, q, l.(nactive := l.nactive[k := l.nactive[k] + 1]), steady, k, 0)
  {
    CountedCounting(t, q, l, k);
  }

  /** One class of the walk up from a class that became active. */
  lemma ClimbedWalk(t: Tree, q: seq<seq<nat>>, l: Links, steady: bool, k: nat, active: bool, now: nat)
    requires Walk(t, q, l, steady, k, if active then 1 else 0) && 0 < k < |t.parent|
    ensures var joins := active && l.nactive[k] == 0;
      Walk(t, q, Climbed(t, l, k, active, now), if joins then StillSteady(t, l, steady, k) else steady,
           t.parent[k], if joins then 1 else 0)
  {
    if active && l.nactive[k] == 0 {
      JoinedWalk(t, q, l, steady, k, now);
      assert Climbed(t, l, k, active, now) == Limited(t, Joined(t, l, k), k, true, now);
    } else if active {
      var l1 := l.(nactive := l.nactive[k := l.nactive[k] + 1]);
      CountedWalk(t, q, l, steady, k);
      LimitedWalk(t, q, l1, steady, k, now);
      assert Climbed(t, l, k, active, now) == Limited(t, l1, k, false, now);
    } else {
      LimitedWalk(t, q, l, steady, k, now);
      assert Climbed(t, l, k, active, now) == Limited(t, l, k, false, now);
    }
  }

  lemma RetiredWalk(t: Tree, q: seq<seq<nat>>, l: Links, steady: bool, k: nat, len: nat)
    requires Walk(t, q, l, steady, k, -1) && 0 < k < |t.parent| && l.nactive[k] == 1
    ensures Walk(t, q, Retired(t, l, k, len), steady, t.parent[k], -1)
  {
    var p, r := t.parent[k], Retired(t, l, k, len);
    Listed(t, q, l, k, -1);
    RetiredCounting(t, q, l, k, len);
    Children(t, q, r, p, -1);
    RetiredSharing(t, l, steady, k, len);
    assert ChildList(t.parent, p, l.actc[p]);
    Removed(l.actc[p], Vts(l.sh), Index(l.actc[p], k));
    RetiredLimits(t, l, k, r.actc[p]);
  }

  lemma WentWalk(t: Tree, q: seq<seq<nat>>, l: Links, steady: bool, k: nat, x: Share, a: Fit)
    requires Walk(t, q, l, steady, k, 0) && 0 < k < |t.parent| && GoesOn(l.sh[k], x, t.fsc[k])
    requires a.least == l.ft[k].least && a.f == l.ft[k].f && (t.usc[k].None? ==> a.own == l.ft[k].own)
    ensures Walk(t, q, Went(t, l, k, x, a, false), steady, t.parent[k], 0)
  {
    var p, list := t.parent[k], Shifted(l.actc[t.parent[k]], Vts(l.sh[k := x]), k, true);
    Listed(t, q, l, k, 0);
    assert ChildList(t.parent, p, l.actc[p]);
    PlacedFrom(l.actc[p], Vts(l.sh[k := x]), k, 0, true);
    WentParts(t, q, l, steady, k, x, a, list);
  }

  lemma WentParts(t: Tree, q: seq<seq<nat>>, l: Links, steady: bool, k: nat, x: Share, a: Fit, list: seq<nat>)
    requires Walk(t, q, l, steady, k, 0) && 0 < k < |t.parent| && GoesOn(l.sh[k], x, t.fsc[k])
    requires a.least == l.ft[k].least && a.f == l.ft[k].f && (t.usc[k].None? ==> a.own == l.ft[k].own)
    requires ChildLists(t.parent, l.actc) && k in l.actc[t.parent[k]] && Reordered(l.actc[t.parent[k]], list)
    requires Within(list, |l.sh|) && list == Shifted(l.actc[t.parent[k]], Vts(l.sh[k := x]), k, true)
    ensures Walk(t, q, Went(t, l, k, x, a, false), steady, t.parent[k], 0)
  {
    var p, r := t.parent[k], Went(t, l, k, x, a, false);
    ReorderedCounting(t, q, l, k, list);
    SameCounting(t, q, l.(actc := l.actc[p := list]), r, p, 0);
    Children(t, q, r, p, 0);
    ProceededSharing(t, l, steady, k, x, list);
    ReorderedLimits(t, l, k, list, a);
  }

  lemma ServedGoesOn(s: Share, isc: Isc, len: nat, vtmin: nat)
    ensures GoesOn(s, Served(s, len, vtmin), isc)
  {
    if OnCourse(s, isc) {
      ServedLater(s, isc, len, vtmin);
    }
  }

  lemma ProceededWalk(t: Tree, q: seq<seq<nat>>, l: Links, steady: bool, k: nat, len: nat, now: nat)
    requires Walk(t, q, l, steady, k, 0) && 0 < k < |t.parent|
    ensures Walk(t, q, Proceeded(t, l, k, len, false, now), steady, t.parent[k], 0)
  {
    var x := Served(l.sh[k], len, l.sh[t.parent[k]].vtmin);
    ServedGoesOn(l.sh[k], t.fsc[k], len, l.sh[t.parent[k]].vtmin);
    WentWalk(t, q, l, steady, k, x, Passed(l.ft[k], t.usc[k], x.total, now, t.tick));
  }

  /** One class of the walk up from a class that was served or became passive. */
  lemma SteppedWalk(t: Tree, q: seq<seq<nat>>, l: Links, steady: bool, k: nat, len: nat, passive: bool, now: nat)
    requires Walk(t, q, l, steady, k, if passive then -1 else 0) && 0 < k < |t.parent|
    ensures Walk(t, q, Stepped(t, l, k, len, passive, now), steady, t.parent[k], if passive && l.nactive[k] == 1 then -1 else 0)
  {
    if passive && l.nactive[k] == 1 {
      RetiredWalk(t, q, l, steady, k, len);
    } else if passive {
      LessCounting(t, q, l, k);
      ProceededWalk(t, q, l.(nactive := l.nactive[k := l.nactive[k] - 1]), steady, k, len, now);
    } else {
      ProceededWalk(t, q, l, steady, k, len, now);
    }
  }

  lemma RaisedWalk(t: Tree, q: seq<seq<nat>>, l: Links, steady: bool, p: nat, c: nat)
    requires Walk(t, q, l, steady, 0, 0) && p < |t.parent| && c < |t.parent|
    ensures Walk(t, q, l.(sh := Raise(l.sh, p, c)), steady, 0, 0) && Vts(Raise(l.sh, p, c)) == Vts(l.sh)
  {
    Children(t, q, l, 0, 0);
    RaisedSharing(t, l, steady, p, c);
    SameCounting(t, q, l, l.(sh := Raise(l.sh, p, c)), 0, 0);
  }

  /** The first child of class p that fits; while steady, the least that does. */
  lemma ChildFits(t: Tree, q: seq<seq<nat>>, l: Links, steady: bool, p: nat, c: nat, now: nat)
    requires Walk(t, q, l, steady, 0, 0) && p < |t.parent| && FirstFitting(l.actc[p], Fits(l.ft), now, c)
    ensures 0 < c < |t.parent| && t.parent[c] == p
    ensures steady ==> LeastFit(t.parent, l.actc, Vts(l.sh), Fits(l.ft), c, now)
  {
    Children(t, q, l, 0, 0);
    assert ChildList(t.parent, p, l.actc[p]);
    if steady {
      LeastChild(t, l, p, c, now);
    }
  }

  lemma LeastChild(t: Tree, l: Links, p: nat, c: nat, now: nat)
    requires Formed(t, l) && ChildLists(t.parent, l.actc) && Sharing(t, l.sh, l.actc, true)
    requires p < |t.parent| && FirstFitting(l.actc[p], Fits(l.ft), now, c) && c < |t.parent| && t.parent[c] == p
    ensures LeastFit(t.parent, l.actc, Vts(l.sh), Fits(l.ft), c, now)
  {
    assert Inside(0);
    var list, fit := l.actc[p], Fits(l.ft);
    assert Ordered(t.fsc, l.sh, list) && ChildList(t.parent, p, list);
    var n :| 0 <= n < |list| && list[n] == c && fit[list[n]] <= now && forall k :: 0 <= k < n ==> fit[list[k]] > now;
    FirstIsLeast(t.parent, l.actc, Vts(l.sh), fit, p, n, now);
  }

  lemma RootWalk(t: Tree, q: seq<seq<nat>>, l: Links, steady: bool, delta: int)
    requires Walk(t, q, l, steady, 0, delta)
    ensures Walk(t, q, l, steady, 0, 0)
  {
    RootCounting(t, q, l, delta);
  }
}
