/** Link sharing in H-FSC as steps on values: how virtual times, lists of active
    children and fit times change, from a class up to the root, when the class becomes
    active, is served or becomes passive. */
module HfscLinks {
  import opened HfscTree
  import opened HfscList
  import opened HfscCurve
  import opened HfscVirtual
  import opened Options

  /** The class tree, with fair curves, upper limits and the length of a system tick. */
  datatype Tree = Tree(parent: seq<nat>, fsc: seq<Isc>, usc: seq<Option<Isc>>, tick: nat)

  /** Per class: the time from which it fits, the time that its own upper limit gives,
      the adjustment of that, the least fit time of its active children, and its
      upper-limit curve. */
  datatype Fit = Fit(f: nat, own: nat, adj: nat, least: nat, curve: Rtsc)

  datatype Links = Links(nactive: seq<int>, actc: seq<seq<nat>>, sh: seq<Share>, ft: seq<Fit>)

  function Fits(ft: seq<Fit>): (k: seq<nat>)
    ensures |k| == |ft| && forall c :: 0 <= c < |ft| ==> k[c] == ft[c].f
  {
    seq(|ft|, c requires 0 <= c < |ft| => ft[c].f)
  }

  ghost predicate Formed(t: Tree, l: Links) {
    && TreeOk(t.parent) && |t.fsc| == |t.usc| == |t.parent|
    && |l.nactive| == |l.actc| == |l.sh| == |l.ft| == |t.parent|
    && (forall p :: 0 <= p < |l.actc| ==> Within(l.actc[p], |t.parent|))
  }

  // ----- fit times

  function Max(a: nat, b: nat): (m: nat)
    ensures m >= a && m >= b && (m == a || m == b)
  {
    if a > b then a else b
  }

  /** The least fit time on a list, 0 if it is empty. */
  ghost predicate Earliest(ft: seq<Fit>, list: seq<nat>, f: nat)
    requires Within(list, |ft|)
  {
    if list == [] then f == 0
    else (exists n :: 0 <= n < |list| && ft[list[n]].f == f) && forall n :: 0 <= n < |list| ==> f <= ft[list[n]].f
  }

  ghost function Soonest(ft: seq<Fit>, list: seq<nat>): (f: nat)
    requires Within(list, |ft|)
    ensures Earliest(ft, list, f)
  {
    EarliestExists(ft, list);
    var f: nat :| Earliest(ft, list, f);
    f
  }

  lemma {:induction false} EarliestExists(ft: seq<Fit>, list: seq<nat>)
    requires Within(list, |ft|)
    ensures exists f: nat :: Earliest(ft, list, f)
  {
    if list == [] {
      assert Earliest(ft, list, 0);
    } else {
      var rest, last := list[..|list| - 1], ft[list[|list| - 1]].f;
      EarliestExists(ft, rest);
      var f: nat :| Earliest(ft, rest, f);
      if rest == [] || last < f {
        assert Earliest(ft, list, last);
      } else {
        var n :| 0 <= n < |rest| && ft[rest[n]].f == f;
        assert ft[list[n]].f == f;
        assert Earliest(ft, list, f);
      }
    }
  }

  lemma SameEarliest(ft: seq<Fit>, list: seq<nat>, f: nat, g: nat)
    requires Within(list, |ft|) && Earliest(ft, list, f) && Earliest(ft, list, g)
    ensures f == g
  {
  }

  /** One class more on the list. */
  lemma EarliestMore(ft: seq<Fit>, list: seq<nat>, n: nat, f: nat)
    requires Within(list, |ft|) && n < |list| && Within(list[..n], |ft|) && Earliest(ft, list[..n], f)
    ensures var g := ft[list[n]].f; Within(list[..n + 1], |ft|) && Earliest(ft, list[..n + 1], if n == 0 || g < f then g else f)
  {
    var more := list[..n + 1];
    assert more[n] == list[n] && more[..n] == list[..n];
    if n > 0 {
      var m :| 0 <= m < n && ft[list[..n][m]].f == f;
      assert ft[more[m]].f == f;
      assert forall i :: 0 <= i < n ==> more[i] == list[..n][i];
    }
  }

  lemma EarliestZero(ft: seq<Fit>, list: seq<nat>, n: nat)
    requires Within(list, |ft|) && n < |list| && ft[list[n]].f == 0
    ensures Earliest(ft, list, 0)
  {
  }

  /** Class p takes the least fit time of its active children anew. */
  ghost function Recomputed(ft: seq<Fit>, list: seq<nat>, p: nat): (r: seq<Fit>)
    requires Within(list, |ft|) && p < |ft|
    ensures |r| == |ft|
  {
    ft[p := ft[p].(least := Soonest(ft, list))]
  }

  /** Before it was ever active. */
  function Unopened(usc: Option<Isc>): Fit {
    Fit(0, 0, 0, 0, if usc.Some? then Restart(usc.value, 0, 0) else Rtsc(0, 0, 0, 0, 0, 0, 0, 0))
  }

  /** A class that becomes active: its upper limit is updated and read. */
  function Opened(a: Fit, usc: Option<Isc>, total: nat, now: nat): Fit {
    if usc.None? then a.(f := 0)
    else
      var curve := Min(a.curve, usc.value, now, total);
      a.(f := 0, curve := curve, own := Y2X(curve, total), adj := 0)
  }

  /** A class that was served: the time its upper limit gives, brought up to the clock
      when more than a tick behind. */
  function Passed(a: Fit, usc: Option<Isc>, total: nat, now: nat, tick: nat): Fit {
    if usc.None? then a
    else
      var own := (a.adj + Y2X(a.curve, total)) % WORD;
      if own < Less64(now - tick) then a.(own := now, adj := (a.adj + Less64(now - own)) % WORD)
      else a.(own := own)
  }

  /** The time that the limit gives is where its curve reaches the bytes, with the
      adjustment; and it is at most a tick behind the clock, the adjustment growing only
      to bring it up to that. */
  ghost predicate OwnTime(a: Fit, total: nat) {
    a.own == a.adj + Y2X(a.curve, total)
  }

  lemma OpenedOwn(a: Fit, usc: Isc, total: nat, now: nat)
    ensures var r := Opened(a, Some(usc), total, now);
      OwnTime(r, total) && r.adj == 0 && r.f == 0 && (X2Y(a.curve, now) > total ==> r.own >= now)
  {
    if X2Y(a.curve, now) > total {
      MinStarts(a.curve, usc, now, total);
    }
  }

  lemma PassedOwn(a: Fit, usc: Isc, total: nat, now: nat, tick: nat)
    requires tick <= now < WORD && a.adj + Y2X(a.curve, total) < WORD
    ensures var r := Passed(a, Some(usc), total, now, tick);
      && OwnTime(r, total) && r.own >= now - tick && r.adj >= a.adj
      && (r.adj > a.adj ==> r.own == now && a.adj + Y2X(a.curve, total) < now - tick)
  {
  }

  /** A class's own fit time follows its limit and its children, and its parent's least
      follows it if that is a change. */
  ghost function Settled(ft: seq<Fit>, list: seq<nat>, k: nat, p: nat, a: Fit): (r: seq<Fit>)
    requires Within(list, |ft|) && p < |ft| && k < |ft|
    ensures |r| == |ft|
  {
    var f := Max(a.own, a.least);
    if f == a.f then ft[k := a] else Recomputed(ft[k := a.(f := f)], list, p)
  }

  // ----- becoming active

  /** The children of class p in a new backlog period of it. */
  function Renewed(parent: seq<nat>, sh: seq<Share>, p: nat): (r: seq<Share>)
    requires |sh| == |parent| && p < |sh|
    ensures |r| == |sh|
  {
    seq(|sh|, c requires 0 <= c < |sh| =>
      if c == p then sh[p].(vtmin := 0, vtmax := 0)
      else if 0 < c && parent[c] == p then sh[c].(off := sh[c].off + sh[p].vtmax)
      else sh[c])
  }

  /** The classes as class k finds them when it becomes active. */
  function Found(t: Tree, l: Links, k: nat): (r: seq<Share>)
    requires |l.sh| == |l.actc| == |t.parent| && k < |t.parent| && t.parent[k] < |t.parent|
    ensures |r| == |l.sh|
  {
    if l.actc[t.parent[k]] == [] then Renewed(t.parent, l.sh, t.parent[k]) else l.sh
  }

  /** The virtual time it joins at. */
  ghost function StartVt(t: Tree, l: Links, k: nat): nat
    requires Formed(t, l) && 0 < k < |t.parent|
  {
    var list := l.actc[t.parent[k]];
    if list == [] then 0 else Joining(l.sh[k], l.sh[t.parent[k]], l.sh[list[|list| - 1]].vt)
  }

  ghost function Started(t: Tree, l: Links, k: nat): (r: seq<Share>)
    requires Formed(t, l) && 0 < k < |t.parent|
    ensures |r| == |l.sh|
  {
    var p, sh := t.parent[k], Found(t, l, k);
    sh[k := Begun(sh[k], t.fsc[k], StartVt(t, l, k), sh[p].period + if l.nactive[p] == 0 then 1 else 0)]
  }

  ghost function Joined(t: Tree, l: Links, k: nat): (r: Links)
    requires Formed(t, l) && 0 < k < |t.parent|
    ensures Formed(t, r)
  {
    var p, sh := t.parent[k], Started(t, l, k);
    var list := At(l.actc[p], PlaceIn(l.actc[p], Vts(sh), sh[k].vt), k);
    Links(l.nactive[k := 1], l.actc[p := list], sh, l.ft)
  }

  ghost function Limited(t: Tree, l: Links, k: nat, joins: bool, now: nat): (r: Links)
    requires Formed(t, l) && 0 < k < |t.parent|
    ensures Formed(t, r)
  {
    var p := t.parent[k];
    var a := if joins then Opened(l.ft[k], t.usc[k], l.sh[k].total, now) else l.ft[k];
    l.(ft := Settled(l.ft, l.actc[p], k, p, a))
  }

  /** One class of the walk: while active, it counts one more child. */
  ghost function Climbed(t: Tree, l: Links, k: nat, active: bool, now: nat): (r: Links)
    requires Formed(t, l) && 0 < k < |t.parent|
    ensures Formed(t, r)
  {
    if active && l.nactive[k] == 0 then Limited(t, Joined(t, l, k), k, true, now)
    else if active then Limited(t, l.(nactive := l.nactive[k := l.nactive[k] + 1]), k, false, now)
    else Limited(t, l, k, false, now)
  }

  ghost function InitFrom(t: Tree, l: Links, k: nat, active: bool, now: nat): (r: Links)
    requires Formed(t, l) && k < |t.parent|
    decreases k
  {
    if k == 0 then l
    else InitFrom(t, Climbed(t, l, k, active, now), t.parent[k], active && l.nactive[k] == 0, now)
  }

  // ----- being served and becoming passive

  lemma StaysWithin(list: seq<nat>, key: seq<nat>, k: nat)
    requires Within(list, |key|)
    ensures Within(Dropped(list, k), |key|) && Within(Shifted(list, key, k, true), |key|)
  {
    if k in list {
      var i := Index(list, k);
      WithoutWithin(list, i, |key|);
      AtWithin(Without(list, i), PlaceFrom(list, key, i, true) - 1, k, |key|);
    }
  }

  lemma WithoutWithin(list: seq<nat>, i: nat, size: nat)
    requires Within(list, size) && i < |list|
    ensures Within(Without(list, i), size)
  {
  }

  lemma AtWithin(list: seq<nat>, n: nat, k: nat, size: nat)
    requires Within(list, size) && n <= |list| && k < size
    ensures Within(At(list, n, k), size)
  {
  }

  ghost function Retired(t: Tree, l: Links, k: nat, len: nat): (r: Links)
    requires Formed(t, l) && 0 < k < |t.parent|
    ensures Formed(t, r)
  {
    var p := t.parent[k];
    var list := Dropped(l.actc[p], k);
    StaysWithin(l.actc[p], Vts(l.sh), k);
    var sh := l.sh[k := l.sh[k].(total := l.sh[k].total + len)];
    var sh' := if sh[k].vt > sh[p].vtmax then sh[p := sh[p].(vtmax := sh[k].vt)] else sh;
    Links(l.nactive[k := 0], l.actc[p := list], sh', Recomputed(l.ft, list, p))
  }

  /** Class k goes on as x, with the limit a. */
  ghost function Went(t: Tree, l: Links, k: nat, x: Share, a: Fit, passive: bool): (r: Links)
    requires Formed(t, l) && 0 < k < |t.parent|
    ensures Formed(t, r)
  {
    var p, sh := t.parent[k], l.sh[k := x];
    var list := Shifted(l.actc[p], Vts(sh), k, true);
    StaysWithin(l.actc[p], Vts(sh), k);
    Links(if passive then l.nactive[k := l.nactive[k] - 1] else l.nactive, l.actc[p := list], sh, Settled(l.ft, list, k, p, a))
  }

  ghost function Proceeded(t: Tree, l: Links, k: nat, len: nat, passive: bool, now: nat): (r: Links)
    requires Formed(t, l) && 0 < k < |t.parent|
    ensures Formed(t, r)
  {
    var x := Served(l.sh[k], len, l.sh[t.parent[k]].vtmin);
    Went(t, l, k, x, Passed(l.ft[k], t.usc[k], x.total, now, t.tick), passive)
  }

  /** One class of the walk: len more bytes, and while passive one active child less. */
  ghost function Stepped(t: Tree, l: Links, k: nat, len: nat, passive: bool, now: nat): (r: Links)
    requires Formed(t, l) && 0 < k < |t.parent|
    ensures Formed(t, r)
  {
    if passive && l.nactive[k] == 1 then Retired(t, l, k, len) else Proceeded(t, l, k, len, passive, now)
  }

  ghost function UpdateFrom(t: Tree, l: Links, k: nat, len: nat, passive: bool, now: nat): (r: Links)
    requires Formed(t, l) && k < |t.parent|
    decreases k
  {
    if k == 0 then l
    else UpdateFrom(t, Stepped(t, l, k, len, passive, now), t.parent[k], len, passive && l.nactive[k] == 1, now)
  }

  /** A class that becomes passive leaves its virtual time with its parent, if that is the
      largest so far. */
  lemma RetiredMax(t: Tree, l: Links, k: nat, len: nat)
    requires Formed(t, l) && 0 < k < |t.parent|
    ensures var p, r := t.parent[k], Retired(t, l, k, len);
      && r.sh[p].vtmax >= l.sh[k].vt && r.sh[p].vtmax >= l.sh[p].vtmax
      && (r.sh[p].vtmax == l.sh[k].vt || r.sh[p].vtmax == l.sh[p].vtmax)
  {
  }

  /** So in a new period of the parent no child that was behind the largest starts earlier
      than it ended: virtual time 0 with its new offset is not before its virtual time
      with the old one. */
  lemma RenewedLater(parent: seq<nat>, sh: seq<Share>, p: nat, c: nat)
    requires |sh| == |parent| && p < |sh| && p < c < |sh| && parent[c] == p && sh[c].vt <= sh[p].vtmax
    ensures var r := Renewed(parent, sh, p);
      r[c].off >= sh[c].off + sh[c].vt && r[c] == sh[c].(off := r[c].off) && r[p].vtmax == 0 && r[p].vtmin == 0
  {
  }

  // ----- choosing

  function Raise(sh: seq<Share>, p: nat, c: nat): (r: seq<Share>)
    requires p < |sh| && c < |sh|
    ensures |r| == |sh|
  {
    if sh[p].vtmin < sh[c].vt then sh[p := sh[p].(vtmin := sh[c].vt)] else sh
  }

  /** On the way down to class c the least virtual time lately served goes up to that
      of the child taken, at every class. */
  function Raised(parent: seq<nat>, sh: seq<Share>, c: nat): (r: seq<Share>)
    requires |sh| == |parent| && c < |parent|
    requires forall k :: 0 < k < |parent| ==> parent[k] < k
    ensures |r| == |sh|
    decreases c
  {
    if c == 0 then sh else Raise(Raised(parent, sh, parent[c]), parent[c], c)
  }

  // ----- what the fit times of an active class say

  /** Some class on the list fits by that time. */
  ghost predicate Covered(ft: seq<Fit>, list: seq<nat>, time: nat)
    requires Within(list, |ft|)
  {
    list == [] || exists n :: 0 <= n < |list| && ft[list[n]].f <= time
  }

  /** Every list has a class that fits by the time kept for it, except perhaps one. */
  ghost predicate CoveredBut(actc: seq<seq<nat>>, ft: seq<Fit>, at: Option<nat>) {
    && (forall p :: 0 <= p < |actc| ==> Within(actc[p], |ft|)) && |ft| == |actc|
    && (forall p :: 0 <= p < |actc| && Some(p) != at ==> Covered(ft, actc[p], ft[p].least))
  }

  /** Active classes fit by their own limit and not before their children, except
      perhaps one. */
  ghost predicate LimitedBut(parent: seq<nat>, actc: seq<seq<nat>>, ft: seq<Fit>, at: nat) {
    && TreeOk(parent) && |ft| == |actc| == |parent|
    && (forall c :: 0 < c < |parent| && c != at && c in actc[parent[c]] ==> ft[c].f == Max(ft[c].own, ft[c].least))
  }

  ghost predicate FitsBut(parent: seq<nat>, actc: seq<seq<nat>>, ft: seq<Fit>, at: nat) {
    LimitedBut(parent, actc, ft, at) && CoveredBut(actc, ft, None)
  }

  lemma RecomputedFits(parent: seq<nat>, actc: seq<seq<nat>>, ft: seq<Fit>, p: nat)
    requires ChildLists(parent, actc) && p < |parent| && LimitedBut(parent, actc, ft, p) && CoveredBut(actc, ft, Some(p))
    ensures FitsBut(parent, actc, Recomputed(ft, actc[p], p), p)
  {
    var r := Recomputed(ft, actc[p], p);
    forall q | 0 <= q < |actc|
      ensures Covered(r, actc[q], r[q].least)
    {
      assert forall n :: 0 <= n < |actc[q]| ==> r[actc[q][n]].f == ft[actc[q][n]].f;
      if q != p {
        assert Covered(ft, actc[q], ft[q].least);
      }
    }
  }

  /** The fit time of one class changed. */
  lemma ChangedCovered(parent: seq<nat>, actc: seq<seq<nat>>, ft: seq<Fit>, k: nat, a: Fit)
    requires TreeOk(parent) && ChildLists(parent, actc) && 0 < k < |parent|
    requires CoveredBut(actc, ft, Some(parent[k])) && a.least == ft[k].least
    ensures CoveredBut(actc, ft[k := a], Some(parent[k]))
  {
    var r := ft[k := a];
    forall q | 0 <= q < |actc| && q != parent[k]
      ensures Covered(r, actc[q], r[q].least)
    {
      assert ChildList(parent, q, actc[q]) && Covered(ft, actc[q], ft[q].least);
      assert forall n :: 0 <= n < |actc[q]| ==> actc[q][n] != k;
    }
  }

  /** After a class has settled only its parent's own fit time may be out of date. */
  lemma SettledFits(parent: seq<nat>, actc: seq<seq<nat>>, ft: seq<Fit>, k: nat, a: Fit, joins: bool)
    requires ChildLists(parent, actc) && 0 < k < |parent| && LimitedBut(parent, actc, ft, k) && k in actc[parent[k]]
    requires CoveredBut(actc, ft, if joins then Some(parent[k]) else None)
    requires a.least == ft[k].least && a.f == if joins then 0 else ft[k].f
    ensures FitsBut(parent, actc, Settled(ft, actc[parent[k]], k, parent[k], a), parent[k])
  {
    var p, f := parent[k], Max(a.own, a.least);
    ChangedCovered(parent, actc, ft, k, a.(f := f));
    if f != a.f {
      RecomputedFits(parent, actc, ft[k := a.(f := f)], p);
    } else {
      StillCovered(parent, actc, ft, k, a, joins);
    }
  }

  lemma StillCovered(parent: seq<nat>, actc: seq<seq<nat>>, ft: seq<Fit>, k: nat, a: Fit, joins: bool)
    requires TreeOk(parent) && ChildLists(parent, actc) && 0 < k < |parent| && k in actc[parent[k]]
    requires CoveredBut(actc, ft, if joins then Some(parent[k]) else None)
    requires a.least == ft[k].least && a.f == if joins then 0 else ft[k].f
    ensures CoveredBut(actc, ft[k := a], None)
  {
    var p, r := parent[k], ft[k := a];
    ChangedCovered(parent, actc, ft, k, a);
    if joins {
      var n :| 0 <= n < |actc[p]| && actc[p][n] == k;
      assert r[actc[p][n]].f == 0;
    } else {
      assert Covered(ft, actc[p], ft[p].least);
      assert forall n :: 0 <= n < |actc[p]| ==> r[actc[p][n]].f == ft[actc[p][n]].f;
    }
    assert Covered(r, actc[p], r[p].least);
  }

  /** A list with one class more, or one less, or in another order. */
  lemma ListFits(parent: seq<nat>, actc: seq<seq<nat>>, ft: seq<Fit>, k: nat, list: seq<nat>)
    requires 0 < k < |parent| && FitsBut(parent, actc, ft, k) && Within(list, |ft|)
    requires forall c :: c in list && c != k ==> c in actc[parent[k]]
    ensures LimitedBut(parent, actc[parent[k] := list], ft, k)
    ensures CoveredBut(actc[parent[k] := list], ft, Some(parent[k]))
  {
  }

  lemma ReorderedFits(parent: seq<nat>, actc: seq<seq<nat>>, ft: seq<Fit>, k: nat, list: seq<nat>)
    requires 0 < k < |parent| && FitsBut(parent, actc, ft, k) && Within(list, |ft|) && Reordered(actc[parent[k]], list)
    ensures FitsBut(parent, actc[parent[k] := list], ft, k)
  {
    var p := parent[k];
    ListFits(parent, actc, ft, k, list);
    assert Covered(ft, actc[p], ft[p].least);
    ReorderedCovered(ft, actc[p], list, ft[p].least);
  }

  lemma ReorderedCovered(ft: seq<Fit>, list: seq<nat>, list': seq<nat>, time: nat)
    requires Within(list, |ft|) && Within(list', |ft|) && Reordered(list, list') && Covered(ft, list, time)
    ensures Covered(ft, list', time)
  {
    if list != [] {
      var n :| 0 <= n < |list| && ft[list[n]].f <= time;
      assert list[n] in list';
    }
  }

  // ----- without upper limits every class fits at all times

  ghost predicate Unlimited(usc: seq<Option<Isc>>) {
    forall c :: 0 <= c < |usc| ==> usc[c].None?
  }

  ghost predicate Free(ft: seq<Fit>) {
    forall c :: 0 <= c < |ft| ==> ft[c].f == ft[c].own == ft[c].least == 0
  }

  lemma SettledFree(ft: seq<Fit>, list: seq<nat>, k: nat, p: nat, a: Fit)
    requires Free(ft) && Within(list, |ft|) && k < |ft| && p < |ft| && a.f == a.own == a.least == 0
    ensures Free(Settled(ft, list, k, p, a))
  {
  }

  lemma RecomputedFree(ft: seq<Fit>, list: seq<nat>, p: nat)
    requires Free(ft) && Within(list, |ft|) && p < |ft|
    ensures Free(Recomputed(ft, list, p))
  {
  }

  // ----- the time kept for the children is not always their earliest

  /** A class keeps the earliest fit time of its active children. */
  ghost predicate Tight(ft: seq<Fit>, list: seq<nat>, p: nat)
    requires Within(list, |ft|) && p < |ft|
  {
    Earliest(ft, list, ft[p].least)
  }

  /** The time from which class k fits if it becomes active now. */
  function JoinFit(t: Tree, l: Links, k: nat, now: nat): nat
    requires k < |l.ft| == |l.sh| == |t.usc|
  {
    Max(Opened(l.ft[k], t.usc[k], l.sh[k].total, now).own, l.ft[k].least)
  }

  /** When class k joins, this stays so exactly unless it fits from 0 on and its siblings
      do not: the code then leaves the parent's time as it is. */
  lemma TightIff(t: Tree, l: Links, k: nat, now: nat)
    requires Formed(t, l) && 0 < k < |t.parent| && k !in l.actc[t.parent[k]] && Tight(l.ft, l.actc[t.parent[k]], t.parent[k])
    ensures var p, r := t.parent[k], Limited(t, Joined(t, l, k), k, true, now);
      Tight(r.ft, r.actc[p], p) <==> JoinFit(t, l, k, now) != 0 || l.ft[p].least == 0
  {
    var p, j := t.parent[k], Joined(t, l, k);
    var r, list := Limited(t, j, k, true, now), j.actc[p];
    var n := PlaceIn(l.actc[p], Vts(j.sh), j.sh[k].vt);
    assert list[n] == k;
    assert j.sh[k].total == l.sh[k].total;
    var a, f := Opened(j.ft[k], t.usc[k], j.sh[k].total, now), JoinFit(t, l, k, now);
    if f != 0 {
      var ft := j.ft[k := a.(f := f)];
      assert forall m :: 0 <= m < |list| ==> r.ft[list[m]].f == ft[list[m]].f;
      assert Earliest(ft, list, r.ft[p].least);
    } else {
      assert r.ft[list[n]].f == 0 && r.ft[p].least == l.ft[p].least;
    }
  }
}
