/** What the scheduler's curves remember: the starts of all backlog periods of a class,
    and the curves as updated at each of them. */
module HfscPast {
  import opened HfscTree
  import opened HfscList
  import opened HfscCurve
  import opened HfscVirtual
  import opened HfscLinks
  import opened HfscRestarts
  import opened Marks
  import opened Options

  /** The periods of a class at which its deadline curve, its upper limit and its fair
      curve were updated. The fair curve is moved when it is restarted; base is by how
      much in all, and its periods are told in the times of the first. */
  datatype Memory = Memory(deadline: seq<Period>, limit: seq<Period>, fair: seq<Period>, base: nat)

  const NONE: Memory := Memory([], [], [], 0)

  // ----- link sharing

  ghost predicate ShareKnown(s: Share, isc: Isc, m: Memory) {
    Displaced(s.curve, m.base) == Restarts(isc, m.fair)
  }

  ghost predicate FitKnown(a: Fit, usc: Option<Isc>, m: Memory) {
    usc.Some? ==> a.curve == Restarts(usc.value, m.limit)
  }

  ghost predicate Known(t: Tree, l: Links, past: seq<Memory>) {
    && |past| == |l.sh| == |l.ft| == |t.fsc| == |t.usc|
    && (forall c :: 0 <= c < |past| ==> ShareKnown(l.sh[c], t.fsc[c], past[c]) && FitKnown(l.ft[c], t.usc[c], past[c]))
  }

  /** Class c becomes active at the virtual time vt, its offset being that of s. */
  ghost function Joins(m: Memory, s: Share, isc: Isc, vt: nat, now: nat): Memory {
    var x := vt + s.off;
    m.(fair := m.fair + [Period(x + m.base, s.total)],
       base := if Min(s.curve, isc, x, s.total).x == x then m.base + s.off else m.base,
       limit := m.limit + [Period(now, s.total)])
  }

  /** The curve with which a period starts. */
  ghost predicate StartsWith(m: Memory, isc: Isc, curve: Rtsc, x: nat, y: nat) {
    forall n {:trigger Deeper(n)} :: Deeper(n) ==> Displaced(curve, m.base) == Restarts(isc, m.fair + [Period(x + m.base, y)])
  }

  lemma StartsUpdated(m: Memory, s: Share, isc: Isc, x: nat)
    requires ShareKnown(s, isc, m)
    ensures StartsWith(m, isc, Min(s.curve, isc, x, s.total), x, s.total)
  {
    RestartsMore(isc, m.fair, Period(x + m.base, s.total));
    DisplacedMin(s.curve, isc, m.base, x, s.total);
  }

  lemma BegunKnown(m: Memory, s: Share, isc: Isc, curve: Rtsc, vt: nat, parentPeriod: nat, m': Memory)
    requires StartsWith(m, isc, curve, vt + s.off, s.total) && m'.fair == m.fair + [Period(vt + s.off + m.base, s.total)]
    requires m'.base == if curve.x == vt + s.off then m.base + s.off else m.base
    ensures ShareKnown(BegunWith(s, curve, vt, parentPeriod), isc, m')
  {
    assert Deeper(0);
  }

  lemma JoinsShare(m: Memory, s: Share, isc: Isc, vt: nat, parentPeriod: nat, now: nat)
    requires ShareKnown(s, isc, m)
    ensures ShareKnown(Begun(s, isc, vt, parentPeriod), isc, Joins(m, s, isc, vt, now))
  {
    StartsUpdated(m, s, isc, vt + s.off);
    BegunKnown(m, s, isc, Min(s.curve, isc, vt + s.off, s.total), vt, parentPeriod, Joins(m, s, isc, vt, now));
  }

  lemma JoinsFit(m: Memory, a: Fit, usc: Option<Isc>, s: Share, isc: Isc, vt: nat, now: nat)
    requires FitKnown(a, usc, m)
    ensures FitKnown(Opened(a, usc, s.total, now), usc, Joins(m, s, isc, vt, now))
  {
    if usc.Some? {
      RestartsMore(usc.value, m.limit, Period(now, s.total));
    }
  }

  /** The same curves. */
  ghost predicate SameCurves(l: Links, r: Links) {
    && |r.sh| == |l.sh| && |r.ft| == |l.ft|
    && (forall c :: 0 <= c < |l.sh| ==> r.sh[c].curve == l.sh[c].curve)
    && (forall c :: 0 <= c < |l.ft| ==> r.ft[c].curve == l.ft[c].curve)
  }

  lemma SameKnown(t: Tree, l: Links, r: Links, past: seq<Memory>)
    requires Known(t, l, past) && SameCurves(l, r)
    ensures Known(t, r, past)
  {
    forall c | 0 <= c < |past|
      ensures ShareKnown(r.sh[c], t.fsc[c], past[c]) && FitKnown(r.ft[c], t.usc[c], past[c])
    {
      assert ShareKnown(l.sh[c], t.fsc[c], past[c]) && FitKnown(l.ft[c], t.usc[c], past[c]);
    }
  }

  lemma SettledCurves(ft: seq<Fit>, list: seq<nat>, k: nat, p: nat, a: Fit)
    requires Within(list, |ft|) && p < |ft| && k < |ft|
    ensures var r := Settled(ft, list, k, p, a);
      |r| == |ft| && r[k].curve == a.curve && forall c :: 0 <= c < |ft| && c != k ==> r[c].curve == ft[c].curve
  {
  }

  /** The share that class k starts its period from. */
  ghost function Before(t: Tree, l: Links, k: nat): Share
    requires Formed(t, l) && 0 < k < |t.parent|
  {
    Found(t, l, k)[k]
  }

  lemma StartedCurves(t: Tree, l: Links, k: nat)
    requires Formed(t, l) && 0 < k < |t.parent|
    ensures var r, s := Started(t, l, k), Before(t, l, k);
      && |r| == |l.sh| && (forall c :: 0 <= c < |l.sh| && c != k ==> r[c].curve == l.sh[c].curve)
      && s.curve == l.sh[k].curve && s.total == l.sh[k].total
      && exists parentPeriod :: r[k] == Begun(s, t.fsc[k], StartVt(t, l, k), parentPeriod)
  {
  }

  /** What is remembered after one class of the walk up from a leaf that became active. */
  ghost function ClimbedPast(t: Tree, l: Links, past: seq<Memory>, k: nat, active: bool, now: nat): (r: seq<Memory>)
    requires Formed(t, l) && 0 < k < |t.parent| == |past|
    ensures |r| == |past|
  {
    if active && l.nactive[k] == 0 then past[k := Joins(past[k], Before(t, l, k), t.fsc[k], StartVt(t, l, k), now)] else past
  }

  lemma JoinedKnown(t: Tree, l: Links, past: seq<Memory>, k: nat, now: nat)
    requires Formed(t, l) && 0 < k < |t.parent| == |past| && Known(t, l, past)
    ensures Known(t, Limited(t, Joined(t, l, k), k, true, now),
                  past[k := Joins(past[k], Before(t, l, k), t.fsc[k], StartVt(t, l, k), now)])
  {
    var j, s, p := Joined(t, l, k), Before(t, l, k), t.parent[k];
    var r, m := Limited(t, j, k, true, now), Joins(past[k], s, t.fsc[k], StartVt(t, l, k), now);
    StartedCurves(t, l, k);
    var parentPeriod :| j.sh[k] == Begun(s, t.fsc[k], StartVt(t, l, k), parentPeriod);
    assert ShareKnown(l.sh[k], t.fsc[k], past[k]) && FitKnown(l.ft[k], t.usc[k], past[k]);
    JoinsShare(past[k], s, t.fsc[k], StartVt(t, l, k), parentPeriod, now);
    JoinsFit(past[k], l.ft[k], t.usc[k], s, t.fsc[k], StartVt(t, l, k), now);
    SettledCurves(j.ft, j.actc[p], k, p, Opened(j.ft[k], t.usc[k], j.sh[k].total, now));
    KnownButOne(t, l, r, past, k, m);
  }

  lemma KnownButOne(t: Tree, l: Links, r: Links, past: seq<Memory>, k: nat, m: Memory)
    requires Known(t, l, past) && k < |past| && |r.sh| == |l.sh| && |r.ft| == |l.ft|
    requires forall c :: 0 <= c < |l.sh| && c != k ==> r.sh[c].curve == l.sh[c].curve
    requires forall c :: 0 <= c < |l.ft| && c != k ==> r.ft[c].curve == l.ft[c].curve
    requires ShareKnown(r.sh[k], t.fsc[k], m) && FitKnown(r.ft[k], t.usc[k], m)
    ensures Known(t, r, past[k := m])
  {
    forall c | 0 <= c < |past|
      ensures ShareKnown(r.sh[c], t.fsc[c], past[k := m][c]) && FitKnown(r.ft[c], t.usc[c], past[k := m][c])
    {
      assert ShareKnown(l.sh[c], t.fsc[c], past[c]) && FitKnown(l.ft[c], t.usc[c], past[c]);
    }
  }

  lemma ClimbedKnown(t: Tree, l: Links, past: seq<Memory>, k: nat, active: bool, now: nat)
    requires Formed(t, l) && 0 < k < |t.parent| == |past| && Known(t, l, past)
    ensures Known(t, Climbed(t, l, k, active, now), ClimbedPast(t, l, past, k, active, now))
  {
    if active && l.nactive[k] == 0 {
      JoinedKnown(t, l, past, k, now);
    } else {
      var p := t.parent[k];
      SettledCurves(l.ft, l.actc[p], k, p, l.ft[k]);
      SameKnown(t, l, Climbed(t, l, k, active, now), past);
    }
  }

  /** What is remembered after the whole walk. */
  ghost function InitPast(t: Tree, l: Links, past: seq<Memory>, k: nat, active: bool, now: nat): (r: seq<Memory>)
    requires Formed(t, l) && k < |t.parent| == |past|
    ensures |r| == |past|
    decreases k
  {
    if k == 0 then past
    else InitPast(t, Climbed(t, l, k, active, now), ClimbedPast(t, l, past, k, active, now), t.parent[k],
                  active && l.nactive[k] == 0, now)
  }

  lemma {:induction false} InitKnown(t: Tree, l: Links, past: seq<Memory>, k: nat, active: bool, now: nat)
    requires Formed(t, l) && k < |t.parent| == |past| && Known(t, l, past)
    ensures Known(t, InitFrom(t, l, k, active, now), InitPast(t, l, past, k, active, now))
    decreases k
  {
    if k > 0 {
      ClimbedKnown(t, l, past, k, active, now);
      InitKnown(t, Climbed(t, l, k, active, now), ClimbedPast(t, l, past, k, active, now), t.parent[k],
                active && l.nactive[k] == 0, now);
    }
  }

  /** Deadlines are remembered apart. */
  lemma {:induction false} InitDeadlines(t: Tree, l: Links, past: seq<Memory>, k: nat, active: bool, now: nat)
    requires Formed(t, l) && k < |t.parent| == |past|
    ensures forall c :: 0 <= c < |past| ==> InitPast(t, l, past, k, active, now)[c].deadline == past[c].deadline
    decreases k
  {
    if k > 0 {
      InitDeadlines(t, Climbed(t, l, k, active, now), ClimbedPast(t, l, past, k, active, now), t.parent[k],
                    active && l.nactive[k] == 0, now);
    }
  }

  // ----- service changes no curve

  lemma RetiredCurves(t: Tree, l: Links, k: nat, len: nat)
    requires Formed(t, l) && 0 < k < |t.parent|
    ensures SameCurves(l, Retired(t, l, k, len))
  {
  }

  lemma WentCurves(t: Tree, l: Links, k: nat, x: Share, a: Fit, passive: bool)
    requires Formed(t, l) && 0 < k < |t.parent| && x.curve == l.sh[k].curve && a.curve == l.ft[k].curve
    ensures SameCurves(l, Went(t, l, k, x, a, passive))
  {
    var p, sh := t.parent[k], l.sh[k := x];
    StaysWithin(l.actc[p], Vts(sh), k);
    SettledCurves(l.ft, Shifted(l.actc[p], Vts(sh), k, true), k, p, a);
  }

  lemma SteppedCurves(t: Tree, l: Links, k: nat, len: nat, passive: bool, now: nat)
    requires Formed(t, l) && 0 < k < |t.parent|
    ensures SameCurves(l, Stepped(t, l, k, len, passive, now))
  {
    if passive && l.nactive[k] == 1 {
      RetiredCurves(t, l, k, len);
    } else {
      var x := Served(l.sh[k], len, l.sh[t.parent[k]].vtmin);
      WentCurves(t, l, k, x, Passed(l.ft[k], t.usc[k], x.total, now, t.tick), passive);
    }
  }

  lemma {:induction false} UpdateCurves(t: Tree, l: Links, k: nat, len: nat, passive: bool, now: nat)
    requires Formed(t, l) && k < |t.parent|
    ensures SameCurves(l, UpdateFrom(t, l, k, len, passive, now))
    decreases k
  {
    if k > 0 {
      SteppedCurves(t, l, k, len, passive, now);
      UpdateCurves(t, Stepped(t, l, k, len, passive, now), t.parent[k], len, passive && l.nactive[k] == 1, now);
    }
  }

  lemma {:induction false} RaisedCurves(parent: seq<nat>, sh: seq<Share>, c: nat)
    requires |sh| == |parent| && c < |parent| && forall k :: 0 < k < |parent| ==> parent[k] < k
    ensures var r := Raised(parent, sh, c); forall k :: 0 <= k < |sh| ==> r[k].curve == sh[k].curve
    decreases c
  {
    if c > 0 {
      RaisedCurves(parent, sh, parent[c]);
    }
  }
}
