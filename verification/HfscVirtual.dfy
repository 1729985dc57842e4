/** Link sharing in H-FSC: the virtual times of the classes, read from curves in fixed
    point, and the lists of active children that are kept in their order. */
module HfscVirtual {
  import opened HfscTree
  import opened HfscList
  import opened HfscCurve
  import opened Lists

  const WORD: nat := 0x1_0000_0000_0000_0000

  /** A difference in 64-bit arithmetic. */
  function Less64(n: int): nat {
    if n >= 0 then n else n % WORD
  }

  /** Per class: bytes served, virtual time, its offset to the curve, its adjustment for
      times it did not fit, the curve, the number of backlog periods, the parent's when
      this one started, and for its children the least virtual time lately served and
      the largest of those that became passive. */
  datatype Share = Share(total: nat, vt: nat, off: nat, adj: nat, curve: Rtsc,
                         period: nat, parentPeriod: nat, vtmin: nat, vtmax: nat)

  function Vts(sh: seq<Share>): (k: seq<nat>)
    ensures |k| == |sh| && forall c :: 0 <= c < |sh| ==> k[c] == sh[c].vt
  {
    seq(|sh|, c requires 0 <= c < |sh| => sh[c].vt)
  }

  /** The curve has reached the class's virtual time by the bytes it was served. */
  ghost predicate OnCourse(s: Share, isc: Isc) {
    CurveOk(s.curve, isc) && s.vt + s.off <= Y2X(s.curve, s.total) + s.adj
  }

  // ----- becoming active

  /** The virtual time of a class that joins siblings of which the last has vt last:
      between the least lately served and the last, but not before its own unless a new
      period of the parent has begun. */
  function Joining(s: Share, p: Share, last: nat): nat {
    var vt := if p.vtmin != 0 then (p.vtmin + last) / 2 else last;
    if p.period != s.parentPeriod || vt > s.vt then vt else s.vt
  }

  /** It joins half way between the least lately served and the last, rounded down, or at
      the last if none was served lately; within the parent's period never before its own
      virtual time, and then later only if that is half way. */
  lemma JoiningBetween(s: Share, p: Share, last: nat)
    ensures exists mid :: Middle(p.vtmin, last, mid) && JoinsAt(s, p, mid, Joining(s, p, last))
  {
    var mid := if p.vtmin != 0 then (p.vtmin + last) / 2 else last;
    assert Middle(p.vtmin, last, mid) && JoinsAt(s, p, mid, Joining(s, p, last));
  }

  ghost predicate Middle(least: nat, last: nat, mid: nat) {
    if least == 0 then mid == last else least + last - 1 <= 2 * mid <= least + last
  }

  ghost predicate JoinsAt(s: Share, p: Share, mid: nat, vt: nat) {
    && mid <= vt && (vt == mid || (vt == s.vt && p.period == s.parentPeriod))
    && (p.period == s.parentPeriod ==> vt >= s.vt)
  }

  /** A class that becomes active at a virtual time. A curve that starts there is moved
      to the parent's new period. */
  function Begun(s: Share, isc: Isc, vt: nat, parentPeriod: nat): Share {
    BegunWith(s, Min(s.curve, isc, vt + s.off, s.total), vt, parentPeriod)
  }

  function BegunWith(s: Share, curve: Rtsc, vt: nat, parentPeriod: nat): Share {
    if curve.x == vt + s.off then
      s.(vt := vt, curve := curve.(x := vt), off := 0, adj := 0, period := s.period + 1, parentPeriod := parentPeriod)
    else
      s.(vt := vt, curve := curve, adj := 0, period := s.period + 1, parentPeriod := parentPeriod)
  }

  lemma ShiftBack(c: Rtsc, off: nat, y: nat)
    requires off <= c.x
    ensures Y2X(c.(x := c.x - off), y) + off == Y2X(c, y)
  {
  }

  /** The curve that a class starts with gives its bytes no earlier than its virtual
      time. */
  predicate Reaches(s: Share, isc: Isc, vt: nat) {
    Y2X(Min(s.curve, isc, vt + s.off, s.total), s.total) >= vt + s.off
  }

  /** A class starts on course exactly then. */
  lemma BegunOnCourse(s: Share, isc: Isc, vt: nat, parentPeriod: nat)
    requires CurveOk(s.curve, isc)
    ensures var r := Begun(s, isc, vt, parentPeriod);
      CurveOk(r.curve, isc) && (OnCourse(r, isc) <==> Reaches(s, isc, vt))
  {
    MinOk(s.curve, isc, vt + s.off, s.total);
    BegunCourse(s, isc, Min(s.curve, isc, vt + s.off, s.total), vt, parentPeriod);
  }

  /** So it does whenever its curve was above its bytes and is restarted. */
  lemma RestartReaches(s: Share, isc: Isc, vt: nat)
    requires X2Y(s.curve, vt + s.off) > s.total
    ensures Reaches(s, isc, vt)
  {
    MinStarts(s.curve, isc, vt + s.off, s.total);
  }

  lemma BegunCourse(s: Share, isc: Isc, curve: Rtsc, vt: nat, parentPeriod: nat)
    requires CurveOk(curve, isc)
    ensures var r := BegunWith(s, curve, vt, parentPeriod);
      CurveOk(r.curve, isc) && (OnCourse(r, isc) <==> Y2X(curve, s.total) >= vt + s.off)
  {
    if curve.x == vt + s.off {
      ShiftBack(curve, s.off, s.total);
    }
  }

  /** A curve above the bytes served is restarted there, and then reads x for them. */
  lemma MinStarts(c: Rtsc, isc: Isc, x: nat, y: nat)
    requires X2Y(c, x) > y
    ensures var r := Min(c, isc, x, y); r.x == x && r.y == y && Y2X(r, y) >= x
  {
  }

  // ----- being served

  /** A class after len more bytes; virtual times below vtmin are brought up to it. */
  function Served(s: Share, len: nat, vtmin: nat): Share {
    var total := s.total + len;
    var vt := Less64(Y2X(s.curve, total) - s.off + s.adj);
    if vt < vtmin then s.(total := total, vt := vtmin, adj := s.adj + vtmin - vt)
    else s.(total := total, vt := vt)
  }

  /** The virtual time is where the curve reaches the bytes, less the offset and with the
      adjustment; it is not below vtmin, and the adjustment grows exactly by what it was
      below. */
  lemma ServedFollows(s: Share, len: nat, vtmin: nat)
    requires s.off <= Y2X(s.curve, s.total + len) + s.adj
    ensures var r := Served(s, len, vtmin);
      && r.total == s.total + len && r.curve == s.curve && r.off == s.off && r.vt >= vtmin && r.adj >= s.adj
      && r.vt + r.off == Y2X(r.curve, r.total) + r.adj
      && (r.vt > vtmin ==> r.adj == s.adj)
  {
  }

  /** On course, the virtual time never decreases, and the class stays on course. */
  lemma ServedLater(s: Share, isc: Isc, len: nat, vtmin: nat)
    requires OnCourse(s, isc)
    ensures OnCourse(Served(s, len, vtmin), isc) && Served(s, len, vtmin).vt >= s.vt
  {
    Y2XMono(s.curve, isc, s.total, s.total + len);
  }

  /** A service during a backlog period: the bytes, and the least virtual time lately
      served among the siblings. */
  datatype Service = Service(len: nat, vtmin: nat)

  /** Over these services the virtual time neither decreases nor goes below 0. */
  ghost predicate Rises(s: Share, services: seq<Service>)
    decreases |services|
  {
    services == [] ||
    var r := Served(s, services[0].len, services[0].vtmin);
    s.off <= Y2X(s.curve, s.total + services[0].len) + s.adj && r.vt >= s.vt && Rises(r, services[1..])
  }

  /** Whatever is served in the period. */
  ghost predicate AlwaysRises(s: Share) {
    forall services :: Rises(s, services)
  }

  lemma {:induction false} CourseRises(s: Share, isc: Isc, services: seq<Service>)
    requires OnCourse(s, isc)
    ensures Rises(s, services)
    decreases |services|
  {
    if services != [] {
      Y2XMono(s.curve, isc, s.total, s.total + services[0].len);
      ServedLater(s, isc, services[0].len, services[0].vtmin);
      CourseRises(Served(s, services[0].len, services[0].vtmin), isc, services[1..]);
    }
  }

  lemma SetBack(s: Share, isc: Isc)
    requires CurveOk(s.curve, isc) && !OnCourse(s, isc)
    ensures !Rises(s, [Service(0, 0)])
  {
    var r := Served(s, 0, 0);
    if s.off <= Y2X(s.curve, s.total) + s.adj {
      assert r.vt < s.vt;
    }
  }

  /** Off course, a service of no bytes sets the class back: one of its classes is
      emptied from outside. */
  lemma RisesIff(s: Share, isc: Isc)
    requires CurveOk(s.curve, isc)
    ensures AlwaysRises(s) <==> OnCourse(s, isc)
  {
    if OnCourse(s, isc) {
      forall services
        ensures Rises(s, services)
      {
        CourseRises(s, isc, services);
      }
    } else {
      SetBack(s, isc);
    }
  }

  /** So the virtual time of a class that becomes active never decreases, whatever it is
      served in the period, exactly if its curve reaches the virtual time it joins at. */
  lemma BegunRises(s: Share, isc: Isc, vt: nat, parentPeriod: nat)
    requires CurveOk(s.curve, isc)
    ensures AlwaysRises(Begun(s, isc, vt, parentPeriod)) <==> Reaches(s, isc, vt)
  {
    BegunOnCourse(s, isc, vt, parentPeriod);
    RisesIff(Begun(s, isc, vt, parentPeriod), isc);
  }

  // ----- the lists of active children

  /** The same virtual time, read from the same curve. */
  predicate SameCourse(s: Share, t: Share) {
    t.total == s.total && t.vt == s.vt && t.off == s.off && t.adj == s.adj && t.curve == s.curve
  }

  /** In order of virtual time, and every class on course. */
  ghost predicate Ordered(fsc: seq<Isc>, sh: seq<Share>, list: seq<nat>)
    requires |fsc| == |sh|
  {
    && Within(list, |sh|) && Sorted(Vts(sh), list)
    && (forall n :: 0 <= n < |list| ==> OnCourse(sh[list[n]], fsc[list[n]]))
  }

  ghost predicate InOrder(fsc: seq<Isc>, sh: seq<Share>, actc: seq<seq<nat>>) {
    |fsc| == |sh| == |actc| && forall p :: 0 <= p < |actc| ==> Ordered(fsc, sh, actc[p])
  }

  ghost predicate ChildLists(parent: seq<nat>, actc: seq<seq<nat>>) {
    |actc| == |parent| && forall p :: 0 <= p < |parent| ==> ChildList(parent, p, actc[p])
  }

  ghost predicate CurvesFit(fsc: seq<Isc>, sh: seq<Share>) {
    |fsc| == |sh| && forall c :: 0 <= c < |sh| ==> CurveOk(sh[c].curve, fsc[c])
  }

  lemma SameOrder(fsc: seq<Isc>, sh: seq<Share>, sh': seq<Share>, list: seq<nat>)
    requires |fsc| == |sh| == |sh'| && Ordered(fsc, sh, list)
    requires forall n :: 0 <= n < |list| ==> SameCourse(sh[list[n]], sh'[list[n]])
    ensures Ordered(fsc, sh', list)
  {
    assert forall n :: 0 <= n < |list| ==> Vts(sh')[list[n]] == Vts(sh)[list[n]];
  }

  /** Changes of classes on no list, and of what concerns children, change no order. */
  lemma StillInOrder(parent: seq<nat>, fsc: seq<Isc>, sh: seq<Share>, sh': seq<Share>, actc: seq<seq<nat>>)
    requires InOrder(fsc, sh, actc) && |sh'| == |sh| == |parent| && ChildLists(parent, actc)
    requires TreeOk(parent) && forall c :: 0 < c < |sh| && c in actc[parent[c]] ==> SameCourse(sh[c], sh'[c])
    ensures InOrder(fsc, sh', actc)
  {
    forall p | 0 <= p < |actc|
      ensures Ordered(fsc, sh', actc[p])
    {
      assert Ordered(fsc, sh, actc[p]) && ChildList(parent, p, actc[p]);
      assert forall n :: 0 <= n < |actc[p]| ==> actc[p][n] in actc[parent[actc[p][n]]];
      SameOrder(fsc, sh, sh', actc[p]);
    }
  }

  /** One list changed. */
  lemma ListInOrder(fsc: seq<Isc>, sh: seq<Share>, actc: seq<seq<nat>>, p: nat, list: seq<nat>)
    requires InOrder(fsc, sh, actc) && p < |actc| && Ordered(fsc, sh, list)
    ensures InOrder(fsc, sh, actc[p := list])
  {
    var actc' := actc[p := list];
    forall q | 0 <= q < |actc'|
      ensures Ordered(fsc, sh, actc'[q])
    {
      assert q != p ==> Ordered(fsc, sh, actc[q]);
    }
  }

  /** The lists without a class that leaves one. */
  lemma RestChildren(parent: seq<nat>, actc: seq<seq<nat>>, p: nat, children: seq<nat>, k: nat)
    requires ChildLists(parent, actc) && p < |parent| && Distinct(children) && Inserted(children, actc[p], k) && k !in children
    ensures ChildLists(parent, actc[p := children])
  {
    assert ChildList(parent, p, actc[p]);
    forall n | 0 <= n < |children|
      ensures 0 < children[n] < |parent| && parent[children[n]] == p
    {
      assert children[n] in children && children[n] in actc[p];
    }
  }

  lemma InsertedOrder(fsc: seq<Isc>, sh: seq<Share>, list: seq<nat>, list': seq<nat>, k: nat)
    requires |fsc| == |sh| && k < |sh| && Ordered(fsc, sh, list) && OnCourse(sh[k], fsc[k])
    requires Within(list', |sh|) && Sorted(Vts(sh), list') && forall x :: x in list' ==> x == k || x in list
    ensures Ordered(fsc, sh, list')
  {
    forall n | 0 <= n < |list'|
      ensures OnCourse(sh[list'[n]], fsc[list'[n]])
    {
      var x := list'[n];
      assert x in list';
      if x != k {
        var m :| 0 <= m < |list| && list[m] == x;
      }
    }
  }

  /** The served class moves behind those it has overtaken. */
  lemma ServedOrder(parent: seq<nat>, fsc: seq<Isc>, sh: seq<Share>, actc: seq<seq<nat>>, k: nat, s: Share, list: seq<nat>)
    requires InOrder(fsc, sh, actc) && |sh| == |parent| && TreeOk(parent) && ChildLists(parent, actc)
    requires 0 < k < |parent| && k in actc[parent[k]] && OnCourse(s, fsc[k]) && s.vt >= sh[k].vt
    requires var sh' := sh[k := s];
      Within(list, |sh|) && Reordered(actc[parent[k]], list)
      && (Sorted(Vts(sh')[k := sh[k].vt], actc[parent[k]]) ==> Sorted(Vts(sh'), list))
    ensures InOrder(fsc, sh[k := s], actc[parent[k] := list])
  {
    var p, sh' := parent[k], sh[k := s];
    assert Ordered(fsc, sh, actc[p]);
    assert Vts(sh')[k := sh[k].vt] == Vts(sh);
    var actc' := actc[p := list];
    forall q | 0 <= q < |actc'|
      ensures Ordered(fsc, sh', actc'[q])
    {
      assert Ordered(fsc, sh, actc[q]) && ChildList(parent, q, actc[q]);
      if q == p {
        ServedList(fsc, sh, actc[p], k, s, list);
      } else {
        assert k !in actc[q];
        SameOrder(fsc, sh, sh', actc[q]);
      }
    }
  }

  lemma ServedList(fsc: seq<Isc>, sh: seq<Share>, before: seq<nat>, k: nat, s: Share, list: seq<nat>)
    requires |fsc| == |sh| && k < |sh| && Ordered(fsc, sh, before) && OnCourse(s, fsc[k])
    requires Within(list, |sh|) && Reordered(before, list) && Sorted(Vts(sh[k := s]), list)
    ensures Ordered(fsc, sh[k := s], list)
  {
    forall n | 0 <= n < |list|
      ensures OnCourse(sh[k := s][list[n]], fsc[list[n]])
    {
      var x := list[n];
      assert x in list;
      var m :| 0 <= m < |before| && before[m] == x;
    }
  }

  // ----- descending by least virtual time

  /** Of the active children of its parent that fit now, none has a smaller virtual time. */
  ghost predicate LeastFit(parent: seq<nat>, actc: seq<seq<nat>>, vts: seq<nat>, fit: seq<nat>, c: nat, now: nat)
    requires |parent| == |actc| == |vts| == |fit| && c < |parent| && parent[c] < |parent|
  {
    && c in actc[parent[c]] && fit[c] <= now
    && (forall k :: k in actc[parent[c]] && k < |fit| && fit[k] <= now ==> vts[c] <= vts[k])
  }

  /** And so on up to the root. */
  ghost predicate LeastPath(parent: seq<nat>, actc: seq<seq<nat>>, vts: seq<nat>, fit: seq<nat>, c: nat, now: nat)
    requires TreeOk(parent) && |parent| == |actc| == |vts| == |fit| && c < |parent|
    decreases c
  {
    c == 0 || (LeastFit(parent, actc, vts, fit, c, now) && LeastPath(parent, actc, vts, fit, parent[c], now))
  }

  /** Every class at or above c is the first on its parent's list that fits. */
  ghost predicate FirstPath(parent: seq<nat>, actc: seq<seq<nat>>, fit: seq<nat>, c: nat, now: nat)
    requires TreeOk(parent) && |parent| == |actc| == |fit| && c < |parent|
    decreases c
  {
    c == 0 || (Within(actc[parent[c]], |fit|) && FirstFitting(actc[parent[c]], fit, now, c)
               && FirstPath(parent, actc, fit, parent[c], now))
  }

  /** The first that fits, of a list in order, is the least that fits. */
  lemma FirstIsLeast(parent: seq<nat>, actc: seq<seq<nat>>, vts: seq<nat>, fit: seq<nat>, p: nat, n: nat, now: nat)
    requires |parent| == |actc| == |vts| == |fit| && p < |parent| && ChildList(parent, p, actc[p])
    requires Sorted(vts, actc[p]) && n < |actc[p]| && fit[actc[p][n]] <= now
    requires forall k :: 0 <= k < n ==> fit[actc[p][k]] > now
    ensures LeastFit(parent, actc, vts, fit, actc[p][n], now)
  {
    var c := actc[p][n];
    forall k | k in actc[p] && k < |fit| && fit[k] <= now
      ensures vts[c] <= vts[k]
    {
      var m :| 0 <= m < |actc[p]| && actc[p][m] == k;
      assert m >= n;
    }
  }

  /** Both slopes of a class of 4.27 Gbit per second, by a clock of 2^30 Hz. */
  const FAST: Isc := Isc(8339843, 2059, 0, 0, 8339843, 2059)

  /** Before it was ever active. */
  function Idle(isc: Isc): Share {
    Share(0, 0, 0, 0, Restart(isc, 0, 0), 0, 0, 0, 0)
  }

  /** The virtual time of a class does not always increase during its backlog period:
      of two such classes one becomes passive with 60000 bytes, and the other is served
      60028 bytes. The first joins again at the other's virtual time, which its curve
      has not reached by the rounded inverse slope, keeps the curve, and is set back by
      the next 20 bytes. */
  lemma FallsBack()
    ensures FAST == Sc2Isc(4_270_000_000, 0, 4_270_000_000, 0x4000_0000)
    ensures var first := Begun(Idle(FAST), FAST, 0, 1).(total := 60000);
      var second := Served(Begun(Idle(FAST), FAST, 0, 1), 60028, 0);
      var joined := Begun(first, FAST, Joining(first, Idle(FAST), second.vt), 1);
      joined.vt == 120700 && Served(joined, 20, 0).vt == 120684
  {
    var first := Begun(Idle(FAST), FAST, 0, 1).(total := 60000);
    var second := Served(Begun(Idle(FAST), FAST, 0, 1), 60028, 0);
    assert second.vt == 120700 && Joining(first, Idle(FAST), second.vt) == 120700;
    assert X2Y(first.curve, 120700) == 59999;
  }
}
