/** The H-FSC scheduler over a fixed class tree: real-time service by least deadline
    among the eligible classes, otherwise link sharing down the tree of active
    classes that fit, by least virtual time. The clock is given to every operation, so
    what is proved holds whatever it shows. */
module Hfsc {
  import opened HfscTree
  import opened HfscList
  import opened HfscCurve
  import opened HfscVirtual
  import opened HfscLinks
  import opened HfscWalk
  import opened HfscRestarts
  import opened HfscRounding
  import opened HfscPast
  import opened Marks
  import opened Lists
  import opened Options

  function Total(queue: seq<seq<nat>>): nat {
    if queue == [] then 0 else |queue[0]| + Total(queue[1..])
  }

  lemma {:induction false} TotalUpdate(queue: seq<seq<nat>>, c: nat, q: seq<nat>)
    requires c < |queue|
    ensures Total(queue[c := q]) == Total(queue) - |queue[c]| + |q|
  {
    if c == 0 {
      assert queue[c := q][1..] == queue[1..];
    } else {
      assert queue[c := q][1..] == queue[1..][c - 1 := q];
      TotalUpdate(queue[1..], c - 1, q);
    }
  }

  lemma {:induction false} TotalLeast(queue: seq<seq<nat>>, c: nat)
    requires c < |queue|
    ensures Total(queue) >= |queue[c]|
  {
    if c > 0 {
      TotalLeast(queue[1..], c - 1);
    }
  }

  lemma {:induction false} TotalNone(queue: seq<seq<nat>>)
    requires forall c :: 0 <= c < |queue| ==> queue[c] == []
    ensures Total(queue) == 0
  {
    if queue != [] {
      TotalNone(queue[1..]);
    }
  }

  lemma {:induction false} TotalSome(queue: seq<seq<nat>>) returns (c: nat)
    requires Total(queue) > 0
    ensures c < |queue| && queue[c] != []
  {
    if queue[0] != [] {
      c := 0;
    } else {
      c := TotalSome(queue[1..]);
      c := c + 1;
    }
  }

  // ----- real-time service

  /** Per class: bytes served by real-time criteria, eligible time, deadline, and the
      curves these are read from. */
  datatype RealTime = RealTime(cumul: nat, e: nat, d: nat, deadline: Rtsc, eligible: Rtsc)

  ghost predicate CurvesOk(rt: RealTime, isc: Isc) {
    CurveOk(rt.deadline, isc) && CurveOk(rt.eligible, isc)
  }

  function Keys(rt: seq<RealTime>): (k: seq<nat>)
    ensures |k| == |rt| && forall c :: 0 <= c < |rt| ==> k[c] == rt[c].e
  {
    seq(|rt|, c requires 0 <= c < |rt| => rt[c].e)
  }

  function Deadlines(rt: seq<RealTime>): (k: seq<nat>)
    ensures |k| == |rt| && forall c :: 0 <= c < |rt| ==> k[c] == rt[c].d
  {
    seq(|rt|, c requires 0 <= c < |rt| => rt[c].d)
  }

  /** For a concave curve the deadline curve itself, for a convex one its second slope. */
  function EligibleCurve(deadline: Rtsc, isc: Isc): Rtsc {
    if isc.sm1 <= isc.sm2 then deadline.(dx := 0, dy := 0) else deadline
  }

  /** The class's curves have the form its service curve allows, and while it has
      packets its eligible time is the one its served bytes give, and its deadline
      the one they give with the first packet. */
  ghost predicate ClassOk(rt: RealTime, rsc: Option<Isc>, queue: seq<nat>) {
    rsc.Some? ==> forall n {:trigger Deeper(n)} :: Deeper(n) ==> CurvesOk(rt, rsc.value) && (queue != [] ==> Timed(rt, rsc.value, queue[0]))
  }

  ghost predicate Timed(rt: RealTime, isc: Isc, head: nat) {
    && rt.eligible == EligibleCurve(rt.deadline, isc)
    && rt.e == Y2X(rt.eligible, rt.cumul) && rt.d == Y2X(rt.deadline, rt.cumul + head)
  }

  /** The eligible list holds exactly the real-time classes with packets, in order of
      eligible time. */
  ghost predicate ListOk(rsc: seq<Option<Isc>>, queue: seq<seq<nat>>, rt: seq<RealTime>, list: seq<nat>) {
    && |rt| == |rsc| == |queue|
    && Distinct(list) && Within(list, |rt|) && Sorted(Keys(rt), list)
    && (forall c :: 0 <= c < |rsc| ==> (c in list <==> rsc[c].Some? && queue[c] != []))
    && (forall c :: 0 <= c < |rsc| ==> ClassOk(rt[c], rsc[c], queue[c]))
  }

  /** Before it was ever backlogged. */
  function Untimed(rsc: Option<Isc>): RealTime {
    var curve := if rsc.Some? then Restart(rsc.value, 0, 0) else Rtsc(0, 0, 0, 0, 0, 0, 0, 0);
    RealTime(0, 0, 0, curve, curve)
  }

  /** Starting a backlog period with a first packet of len bytes. */
  function Begin(rt: RealTime, isc: Isc, now: nat, len: nat): RealTime {
    var deadline := Min(rt.deadline, isc, now, rt.cumul);
    var eligible := EligibleCurve(deadline, isc);
    RealTime(rt.cumul, Y2X(eligible, rt.cumul), Y2X(deadline, rt.cumul + len), deadline, eligible)
  }

  /** After service of len bytes, with a next packet of next bytes. */
  function Continue(rt: RealTime, realtime: bool, len: nat, next: nat): RealTime {
    if realtime then
      var cumul := rt.cumul + len;
      rt.(cumul := cumul, e := Y2X(rt.eligible, cumul), d := Y2X(rt.deadline, cumul + next))
    else rt.(d := Y2X(rt.deadline, rt.cumul + next))
  }

  /** After a packet was taken from the queue q of a class, eligible or not. */
  function Progress(rt: RealTime, rsc: Option<Isc>, eligible: bool, q: seq<nat>): RealTime
    requires q != []
  {
    if rsc.None? then rt
    else if |q| > 1 then Continue(rt, eligible, q[0], q[1])
    else rt.(cumul := rt.cumul + if eligible then q[0] else 0)
  }

  lemma BeginOk(rt: RealTime, isc: Isc, now: nat, len: nat)
    requires CurvesOk(rt, isc)
    ensures CurvesOk(Begin(rt, isc, now, len), isc) && Timed(Begin(rt, isc, now, len), isc, len)
  {
    MinOk(rt.deadline, isc, now, rt.cumul);
  }

  /** If its curve is above the bytes served, a class starts its period from now: it is
      eligible no earlier, and its curve starts here. So it is for a convex curve that is
      at the bytes served. Otherwise the curve goes on. */
  lemma BeginStarts(rt: RealTime, isc: Isc, now: nat, len: nat)
    ensures var r, v := Begin(rt, isc, now, len), X2Y(rt.deadline, now);
      if v > rt.cumul || (v == rt.cumul && isc.sm1 <= isc.sm2) then
        r.deadline.x == now && r.deadline.y == rt.cumul && r.e >= now && (isc.sm1 <= isc.sm2 ==> r.e == now)
      else r.deadline == rt.deadline
  {
    RestartsIff(rt.deadline, isc, now, rt.cumul);
  }

  /** A convex curve is eligible at its second slope all along. */
  lemma EligibleLinear(deadline: Rtsc, isc: Isc, t: nat)
    requires isc.sm1 <= isc.sm2 && t >= deadline.x
    ensures X2Y(EligibleCurve(deadline, isc), t) == deadline.y + SegX2Y(t - deadline.x, deadline.sm2)
  {
    SegZeroStep(deadline.sm2);
  }

  /** Within a backlog period the eligible time never decreases. */
  lemma ContinueLater(rt: RealTime, isc: Isc, realtime: bool, len: nat, next: nat)
    requires CurvesOk(rt, isc) && exists head :: Timed(rt, isc, head)
    ensures CurvesOk(Continue(rt, realtime, len, next), isc) && Timed(Continue(rt, realtime, len, next), isc, next)
    ensures Continue(rt, realtime, len, next).e >= rt.e
    ensures Continue(rt, realtime, len, next).cumul == rt.cumul + if realtime then len else 0
  {
    Y2XMono(rt.eligible, isc, rt.cumul, rt.cumul + len);
  }

  /** The eligible list as it should be, used where Inside is mentioned. */
  ghost predicate Timing(rsc: seq<Option<Isc>>, queue: seq<seq<nat>>, rt: seq<RealTime>, list: seq<nat>) {
    && |rt| == |rsc| == |queue| && Within(list, |rt|)
    && (forall n {:trigger Inside(n)} :: Inside(n) ==> ListOk(rsc, queue, rt, list))
  }

  lemma InTime(rsc: seq<Option<Isc>>, queue: seq<seq<nat>>, rt: seq<RealTime>, list: seq<nat>)
    requires Timing(rsc, queue, rt, list)
    ensures Sorted(Keys(rt), list) && forall c :: c in list ==> c < |rsc| && rsc[c].Some? && queue[c] != []
    ensures forall c :: 0 <= c < |rsc| && rsc[c].Some? && queue[c] != [] ==> c in list
  {
    assert Inside(0);
    assert forall c :: c in list ==> 0 <= c < |rsc|;
  }

  /** A class becomes backlogged. */
  lemma BeginTiming(rsc: seq<Option<Isc>>, queue: seq<seq<nat>>, rt: seq<RealTime>, list: seq<nat>, c: nat, x: RealTime)
    requires c < |queue| == |rsc| && rsc[c].Some? && queue[c] != [] && Timing(rsc, queue[c := []], rt, list) && ClassOk(x, rsc[c], queue[c])
    ensures c !in list && Distinct(list) && Timing(rsc, queue, rt[c := x], At(list, PlaceIn(list, Keys(rt[c := x]), x.e), c))
  {
    assert Inside(0);
    KeysAgree(rt, rt[c := x], list, c);
    PlacedIn(list, Keys(rt[c := x]), c);
    Enlisted(rsc, queue, rt, list, c, x, At(list, PlaceIn(list, Keys(rt[c := x]), x.e), c));
  }

  lemma BegunClass(rsc: seq<Option<Isc>>, queue: seq<seq<nat>>, rt: seq<RealTime>, list: seq<nat>, c: nat, len: nat, now: nat)
    requires c < |queue| == |rsc| && rsc[c].Some? && queue[c] == [len] && Timing(rsc, queue[c := []], rt, list)
    ensures ClassOk(Begin(rt[c], rsc[c].value, now, len), rsc[c], queue[c])
  {
    assert Inside(0);
    assert ClassOk(rt[c], rsc[c], []) && Deeper(0);
    BeginOk(rt[c], rsc[c].value, now, len);
  }

  lemma Enlisted(rsc: seq<Option<Isc>>, queue: seq<seq<nat>>, rt: seq<RealTime>, list: seq<nat>, c: nat, x: RealTime, list': seq<nat>)
    requires c < |queue| == |rsc| && rsc[c].Some? && queue[c] != [] && ListOk(rsc, queue[c := []], rt, list)
    requires ClassOk(x, rsc[c], queue[c]) && Inserted(list, list', c) && Within(list', |rt|) && Sorted(Keys(rt[c := x]), list')
    ensures ListOk(rsc, queue, rt[c := x], list')
  {
  }

  /** A backlogged class is on the list, with its times. */
  lemma ListedClass(rsc: seq<Option<Isc>>, queue: seq<seq<nat>>, rt: seq<RealTime>, list: seq<nat>, c: nat)
    requires Timing(rsc, queue, rt, list) && c < |rsc| && rsc[c].Some? && queue[c] != []
    ensures c in list && Distinct(list) && Sorted(Keys(rt), list)
    ensures CurvesOk(rt[c], rsc[c].value) && Timed(rt[c], rsc[c].value, queue[c][0])
  {
    assert Inside(0);
    assert ClassOk(rt[c], rsc[c], queue[c]) && Deeper(0);
  }

  lemma RelistedTiming(rsc: seq<Option<Isc>>, queue: seq<seq<nat>>, rt: seq<RealTime>, list: seq<nat>, c: nat,
                       q: seq<nat>, x: RealTime, list': seq<nat>)
    requires Timing(rsc, queue, rt, list) && c < |rsc| && queue[c] != [] && q != [] && ClassOk(x, rsc[c], q)
    requires Reordered(list, list') && Within(list', |rt|) && Sorted(Keys(rt[c := x]), list')
    ensures Timing(rsc, queue[c := q], rt[c := x], list')
  {
    assert Inside(0);
    Relisted(rsc, queue, rt, list, c, q, x, list');
  }

  /** One class changed, and the list is in order again. */
  lemma Relisted(rsc: seq<Option<Isc>>, queue: seq<seq<nat>>, rt: seq<RealTime>, list: seq<nat>, c: nat,
                 q: seq<nat>, x: RealTime, list': seq<nat>)
    requires ListOk(rsc, queue, rt, list) && c < |rsc| && queue[c] != [] && q != [] && ClassOk(x, rsc[c], q)
    requires Reordered(list, list') && Within(list', |rt|) && Sorted(Keys(rt[c := x]), list')
    ensures ListOk(rsc, queue[c := q], rt[c := x], list')
  {
  }

  /** A class loses its last packet. */
  lemma LeaveTiming(rsc: seq<Option<Isc>>, queue: seq<seq<nat>>, rt: seq<RealTime>, list: seq<nat>, c: nat)
    requires Timing(rsc, queue, rt, list) && c < |rsc| && queue[c] != []
    ensures Distinct(list) && (rsc[c].Some? <==> c in list)
    ensures var list' := if rsc[c].Some? then Dropped(list, c) else list;
      c !in list' && (forall k :: k in list' ==> k in list) && Timing(rsc, queue[c := []], rt, list')
  {
    assert Inside(0);
    var list' := if rsc[c].Some? then Dropped(list, c) else list;
    if rsc[c].Some? {
      Removed(list, Keys(rt), Index(list, c));
    }
    Delisted(rsc, queue, rt, list, c, list');
  }

  lemma Delisted(rsc: seq<Option<Isc>>, queue: seq<seq<nat>>, rt: seq<RealTime>, list: seq<nat>, c: nat, list': seq<nat>)
    requires ListOk(rsc, queue, rt, list) && c < |rsc| && c !in list' && Distinct(list') && Within(list', |rt|) && Sorted(Keys(rt), list')
    requires forall k :: k in list <==> k in list' || (k == c && c in list)
    ensures ListOk(rsc, queue[c := []], rt, list')
  {
    assert ClassOk(rt[c], rsc[c], queue[c]) && Deeper(0);
  }

  /** Packets behind the first. */
  lemma SameTiming(rsc: seq<Option<Isc>>, queue: seq<seq<nat>>, rt: seq<RealTime>, list: seq<nat>, c: nat, q: seq<nat>)
    requires Timing(rsc, queue, rt, list) && c < |queue| && queue[c] != [] && q != [] && q[0] == queue[c][0]
    ensures Timing(rsc, queue[c := q], rt, list)
  {
    assert Inside(0);
    assert ListOk(rsc, queue[c := q], rt, list);
  }

  /** The queue of a class without a real-time curve. */
  lemma OtherTiming(rsc: seq<Option<Isc>>, queue: seq<seq<nat>>, rt: seq<RealTime>, list: seq<nat>, c: nat, q: seq<nat>)
    requires Timing(rsc, queue, rt, list) && c < |queue| && rsc[c].None?
    ensures Timing(rsc, queue[c := q], rt, list)
  {
    assert Inside(0);
    assert ListOk(rsc, queue[c := q], rt, list);
  }

  /** The last packet of a class counts as real-time service. */
  lemma ServedTiming(rsc: seq<Option<Isc>>, queue: seq<seq<nat>>, rt: seq<RealTime>, list: seq<nat>, c: nat, len: nat)
    requires Timing(rsc, queue, rt, list) && c < |queue| && queue[c] == [] && c !in list
    ensures Timing(rsc, queue, rt[c := rt[c].(cumul := rt[c].cumul + len)], list)
  {
    assert Inside(0);
    var rt' := rt[c := rt[c].(cumul := rt[c].cumul + len)];
    KeysAgree(rt, rt', list, c);
    assert ListOk(rsc, queue, rt', list);
  }

  // ----- what the curves remember

  /** The deadline curve is that of all periods so far. */
  ghost predicate DeadlineKnown(x: RealTime, rsc: Option<Isc>, m: Memory) {
    rsc.Some? ==> x.deadline == Restarts(rsc.value, m.deadline)
  }

  ghost predicate DeadlinesKnown(rsc: seq<Option<Isc>>, rt: seq<RealTime>, past: seq<Memory>) {
    |past| == |rt| == |rsc| && forall c :: 0 <= c < |rsc| ==> DeadlineKnown(rt[c], rsc[c], past[c])
  }

  /** All curves are what the periods so far make of them; used where Inside is
      mentioned. */
  ghost predicate Remembered(rsc: seq<Option<Isc>>, t: Tree, rt: seq<RealTime>, l: Links, past: seq<Memory>) {
    && |past| == |t.parent|
    && forall n {:trigger Inside(n)} :: Inside(n) ==> Known(t, l, past) && DeadlinesKnown(rsc, rt, past)
  }

  ghost predicate SameDeadlines(rt: seq<RealTime>, rt': seq<RealTime>) {
    |rt'| == |rt| && forall c :: 0 <= c < |rt| ==> rt'[c].deadline == rt[c].deadline
  }

  lemma StillRemembered(rsc: seq<Option<Isc>>, t: Tree, rt: seq<RealTime>, l: Links, past: seq<Memory>, rt': seq<RealTime>, l': Links)
    requires Remembered(rsc, t, rt, l, past) && SameDeadlines(rt, rt') && SameCurves(l, l')
    ensures Remembered(rsc, t, rt', l', past)
  {
    assert Inside(0);
    SameKnown(t, l, l', past);
    forall c | 0 <= c < |rsc|
      ensures DeadlineKnown(rt'[c], rsc[c], past[c])
    {
      assert DeadlineKnown(rt[c], rsc[c], past[c]);
    }
  }

  lemma UpdateRemembered(rsc: seq<Option<Isc>>, t: Tree, rt: seq<RealTime>, l: Links, past: seq<Memory>, rt': seq<RealTime>,
                         k: nat, len: nat, passive: bool, now: nat)
    requires Formed(t, l) && k < |t.parent| && Remembered(rsc, t, rt, l, past) && SameDeadlines(rt, rt')
    ensures Remembered(rsc, t, rt', UpdateFrom(t, l, k, len, passive, now), past)
  {
    UpdateCurves(t, l, k, len, passive, now);
    StillRemembered(rsc, t, rt, l, past, rt', UpdateFrom(t, l, k, len, passive, now));
  }

  lemma RaisedRemembered(rsc: seq<Option<Isc>>, t: Tree, rt: seq<RealTime>, l: Links, past: seq<Memory>, p: nat, c: nat)
    requires Remembered(rsc, t, rt, l, past) && p < |l.sh| && c < |l.sh|
    ensures Remembered(rsc, t, rt, l.(sh := Raise(l.sh, p, c)), past)
  {
    StillRemembered(rsc, t, rt, l, past, rt, l.(sh := Raise(l.sh, p, c)));
  }

  /** A class that becomes backlogged: its deadline curve is updated at the clock and the
      bytes served by real-time criteria, and link sharing goes up the tree. */
  ghost function NextPast(rsc: seq<Option<Isc>>, t: Tree, rt: seq<RealTime>, l: Links, past: seq<Memory>, c: nat, now: nat): (r: seq<Memory>)
    requires Formed(t, l) && c < |t.parent| == |past| == |rt| == |rsc|
    ensures |r| == |past|
  {
    InitPast(t, l, if rsc[c].Some? then past[c := Backlogged(past[c], rt[c], now)] else past, c, true, now)
  }

  ghost function Backlogged(m: Memory, x: RealTime, now: nat): Memory {
    m.(deadline := m.deadline + [Period(now, x.cumul)])
  }

  lemma BacklogKnown(rsc: seq<Option<Isc>>, t: Tree, rt: seq<RealTime>, l: Links, past: seq<Memory>, c: nat, now: nat, len: nat)
    requires c < |past| && Known(t, l, past) && DeadlinesKnown(rsc, rt, past) && rsc[c].Some?
    ensures var m := past[c := Backlogged(past[c], rt[c], now)];
      Known(t, l, m) && DeadlinesKnown(rsc, rt[c := Begin(rt[c], rsc[c].value, now, len)], m)
  {
    var m := past[c := Backlogged(past[c], rt[c], now)];
    RestartsMore(rsc[c].value, past[c].deadline, Period(now, rt[c].cumul));
    assert DeadlineKnown(rt[c], rsc[c], past[c]);
    assert ShareKnown(l.sh[c], t.fsc[c], past[c]) && FitKnown(l.ft[c], t.usc[c], past[c]);
    KnownButOne(t, l, l, past, c, m[c]);
  }

  lemma DeadlinesApart(rsc: seq<Option<Isc>>, rt: seq<RealTime>, past: seq<Memory>, past': seq<Memory>)
    requires DeadlinesKnown(rsc, rt, past) && |past'| == |past| && forall c :: 0 <= c < |past| ==> past'[c].deadline == past[c].deadline
    ensures DeadlinesKnown(rsc, rt, past')
  {
    forall c | 0 <= c < |rsc|
      ensures DeadlineKnown(rt[c], rsc[c], past'[c])
    {
      assert DeadlineKnown(rt[c], rsc[c], past[c]);
    }
  }

  lemma NextRemembered(rsc: seq<Option<Isc>>, t: Tree, rt: seq<RealTime>, l: Links, past: seq<Memory>, c: nat, now: nat, len: nat)
    requires Formed(t, l) && c < |t.parent| == |rt| == |rsc| && Remembered(rsc, t, rt, l, past)
    ensures Remembered(rsc, t, if rsc[c].Some? then rt[c := Begin(rt[c], rsc[c].value, now, len)] else rt,
                       InitFrom(t, l, c, true, now), NextPast(rsc, t, rt, l, past, c, now))
  {
    assert Inside(0);
    var m, rt' := past, rt;
    if rsc[c].Some? {
      BacklogKnown(rsc, t, rt, l, past, c, now, len);
      m, rt' := past[c := Backlogged(past[c], rt[c], now)], rt[c := Begin(rt[c], rsc[c].value, now, len)];
    }
    InitKnown(t, l, m, c, true, now);
    InitDeadlines(t, l, m, c, true, now);
    DeadlinesApart(rsc, rt', m, InitPast(t, l, m, c, true, now));
  }

  lemma NothingRemembered(rsc: seq<Option<Isc>>, t: Tree, rt: seq<RealTime>, l: Links, past: seq<Memory>)
    requires |past| == |t.parent| == |rsc| == |rt| == |l.sh| == |l.ft| == |t.fsc| == |t.usc|
    requires forall c :: 0 <= c < |past| ==>
      past[c] == NONE && rt[c] == Untimed(rsc[c]) && l.sh[c] == Idle(t.fsc[c]) && l.ft[c] == Unopened(t.usc[c])
    ensures Remembered(rsc, t, rt, l, past)
  {
    forall c | 0 <= c < |past|
      ensures ShareKnown(l.sh[c], t.fsc[c], past[c]) && FitKnown(l.ft[c], t.usc[c], past[c])
      ensures DeadlineKnown(rt[c], rsc[c], past[c])
    {
      assert past[c] == NONE;
    }
  }

  /** Before anything has happened. */
  lemma Fresh(t: Tree, rsc: seq<Option<Isc>>, queue: seq<seq<nat>>, l: Links, rt: seq<RealTime>, past: seq<Memory>)
    requires TreeOk(t.parent) && |past| == |rsc| == |rt| == |queue| == |t.fsc| == |t.usc| == |t.parent|
    requires |l.nactive| == |l.actc| == |l.sh| == |l.ft| == |t.parent|
    requires forall c :: 0 <= c < |past| ==> past[c] == NONE && rt[c] == Untimed(rsc[c])
    requires forall c :: 0 <= c < |past| ==> l.sh[c] == Idle(t.fsc[c]) && l.ft[c] == Unopened(t.usc[c])
    requires forall c :: 0 <= c < |past| ==> queue[c] == [] && l.nactive[c] == 0 && l.actc[c] == [] && IscOk(t.fsc[c])
    requires forall c :: 0 <= c < |rsc| && rsc[c].Some? ==> IscOk(rsc[c].value)
    ensures Walk(t, queue, l, true, 0, 0) && Timing(rsc, queue, rt, []) && Total(queue) == 0 && Remembered(rsc, t, rt, l, past)
  {
    TotalNone(queue);
    NothingRemembered(rsc, t, rt, l, past);
    NothingTimed(rsc, queue, rt);
    IdleLinks(t, queue, l);
  }

  lemma NothingTimed(rsc: seq<Option<Isc>>, queue: seq<seq<nat>>, rt: seq<RealTime>)
    requires |rsc| == |rt| == |queue| && forall c :: 0 <= c < |rt| ==> rt[c] == Untimed(rsc[c]) && queue[c] == []
    requires forall c :: 0 <= c < |rsc| && rsc[c].Some? ==> IscOk(rsc[c].value)
    ensures Timing(rsc, queue, rt, [])
  {
    assert ListOk(rsc, queue, rt, []);
  }

  lemma IdleLinks(t: Tree, queue: seq<seq<nat>>, l: Links)
    requires Formed(t, l) && |queue| == |t.parent|
    requires forall c :: 0 <= c < |queue| ==> l.sh[c] == Idle(t.fsc[c]) && l.ft[c] == Unopened(t.usc[c])
    requires forall c :: 0 <= c < |queue| ==> queue[c] == [] && l.nactive[c] == 0 && l.actc[c] == [] && IscOk(t.fsc[c])
    ensures Walk(t, queue, l, true, 0, 0)
  {
    IdleWalk(t, queue, l);
  }

  /** Misplaced: the default class has children, and the packet goes into a queue that
      link sharing does not look at; what follows is not known. */
  datatype Arrival = Queued | Refused | Misplaced

  datatype Outcome = Nothing | Packet(class_: nat, len: nat) | Panic

  class Scheduler {
    const parent: seq<nat>
    const rsc: seq<Option<Isc>>
    const fsc: seq<Isc>
    const usc: seq<Option<Isc>>
    const tick: nat
    const limit: seq<nat>
    const fallback: Option<nat>
    var queue: seq<seq<nat>>
    var nactive: seq<int>
    var actc: seq<seq<nat>>
    var sh: seq<Share>
    var ft: seq<Fit>
    var rt: seq<RealTime>
    var list: seq<nat>
    var packets: int
    var cache: Option<nat>
    /** Some class was purged since the last poll. */
    ghost var purged: bool
    /** So far every class was on course when it became active. */
    ghost var steady: bool
    /** The starts of all backlog periods so far, for each class. */
    ghost var past: seq<Memory>

    ghost function T(): Tree {
      Tree(parent, fsc, usc, tick)
    }

    ghost function Now(): Links
      reads this
    {
      Links(nactive, actc, sh, ft)
    }

    ghost predicate Fixed() {
      && |rsc| == |fsc| == |usc| == |limit| == |parent|
      && (fallback.Some? ==> fallback.value < |parent|)
    }

    ghost predicate Valid()
      reads this
    {
      && Fixed() && Walk(T(), queue, Now(), steady, 0, 0) && Timing(rsc, queue, rt, list)
      && packets == Total(queue) && Remembered(rsc, T(), rt, Now(), past)
      && (cache.Some? ==> cache.value < |parent| && (queue[cache.value] != [] || purged))
    }

    constructor (tree: Tree, curves: seq<Option<Isc>>, limits: seq<nat>, other: Option<nat>)
      requires TreeOk(tree.parent) && |curves| == |tree.fsc| == |tree.usc| == |limits| == |tree.parent|
      requires forall c :: 0 <= c < |tree.fsc| ==> IscOk(tree.fsc[c])
      requires other.Some? ==> other.value < |tree.parent|
      requires forall c :: 0 <= c < |curves| && curves[c].Some? ==> IscOk(curves[c].value)
      ensures Valid() && steady && T() == tree && rsc == curves && limit == limits && fallback == other
      ensures queue == seq(|parent|, c => []) && list == [] && packets == 0
      ensures Now() == Links(seq(|parent|, c => 0), seq(|parent|, c => []),
                             seq(|parent|, c requires 0 <= c < |fsc| => Idle(fsc[c])),
                             seq(|parent|, c requires 0 <= c < |usc| => Unopened(usc[c])))
      ensures rt == seq(|parent|, c requires 0 <= c < |rsc| => Untimed(rsc[c]))
      ensures cache.None? && !purged && past == seq(|parent|, c => NONE)
    {
      parent, rsc, fsc, usc, tick := tree.parent, curves, tree.fsc, tree.usc, tree.tick;
      limit, fallback := limits, other;
      queue := seq(|tree.parent|, c => []);
      nactive := seq(|tree.parent|, c => 0);
      actc := seq(|tree.parent|, c => []);
      sh := seq(|tree.parent|, c requires 0 <= c < |tree.fsc| => Idle(tree.fsc[c]));
      ft := seq(|tree.parent|, c requires 0 <= c < |tree.usc| => Unopened(tree.usc[c]));
      rt := seq(|tree.parent|, c requires 0 <= c < |curves| => Untimed(curves[c]));
      list := [];
      packets := 0;
      cache := None;
      purged, steady := false, true;
      past := seq(|tree.parent|, c => NONE);
      new;
      Fresh(T(), rsc, queue, Now(), rt, past);
    }

    // ----- the curves over the whole run

    /** While the clock does not go back: the deadline curve of a class with a concave
        curve is close to the pointwise minimum of that curve restarted at the start of
        each of its backlog periods, at the bytes served by real-time criteria by then;
        its upper limit likewise, at all its bytes. */
    lemma DeadlineNear(c: nat, t: nat)
      requires Valid() && c < |parent| && rsc[c].Some? && c < |rt| == |past|
      requires rsc[c].value.sm1 > rsc[c].value.sm2 && rsc[c].value.dy == SegX2Y(rsc[c].value.dx, rsc[c].value.sm1)
      requires OnTime(past[c].deadline) && Over(past[c].deadline, t)
      ensures NearLeast(rt[c].deadline, rsc[c].value, past[c].deadline, t)
    {
      RememberedCurves(rsc, T(), rt, Now(), past, c);
      AllPeriods(rsc[c].value, past[c].deadline, t);
    }

    lemma LimitNear(c: nat, t: nat)
      requires Valid() && c < |parent| && usc[c].Some? && c < |ft| == |past|
      requires usc[c].value.sm1 > usc[c].value.sm2 && usc[c].value.dy == SegX2Y(usc[c].value.dx, usc[c].value.sm1)
      requires OnTime(past[c].limit) && Over(past[c].limit, t)
      ensures NearLeast(ft[c].curve, usc[c].value, past[c].limit, t)
    {
      RememberedCurves(rsc, T(), rt, Now(), past, c);
      AllPeriods(usc[c].value, past[c].limit, t);
    }

    /** While its virtual times do not go back, counted on over the periods of its parent:
        the fair curve of a class, where it would be if it had never been moved. */
    lemma FairNear(c: nat, t: nat)
      requires Valid() && c < |parent| == |sh| == |past|
      requires fsc[c].sm1 > fsc[c].sm2 && fsc[c].dy == SegX2Y(fsc[c].dx, fsc[c].sm1)
      requires OnTime(past[c].fair) && Over(past[c].fair, t)
      ensures NearLeast(Displaced(sh[c].curve, past[c].base), fsc[c], past[c].fair, t)
    {
      RememberedCurves(rsc, T(), rt, Now(), past, c);
      AllPeriods(fsc[c], past[c].fair, t);
    }

    // ----- becoming active

    /** Class c has just become backlogged: count it in, up the tree. */
    method InitVf(c: nat, now: nat)
      requires Fixed() && c < |parent| && Walk(T(), queue, Now(), steady, c, 1)
      modifies `nactive, `actc, `sh, `ft, `steady
      ensures Walk(T(), queue, Now(), steady, 0, 0) && (steady ==> old(steady))
      ensures Now() == InitFrom(T(), old(Now()), c, true, now)
    {
      var k: nat := c;
      var active := true;
      while k != 0
        invariant k < |parent| && Walk(T(), queue, Now(), steady, k, if active then 1 else 0) && (steady ==> old(steady))
        invariant InitFrom(T(), Now(), k, active, now) == InitFrom(T(), old(Now()), c, true, now)
        decreases k
      {
        active := Climb(k, active, now);
        k := parent[k];
      }
      RootWalk(T(), queue, Now(), steady, if active then 1 else 0);
    }

    method Climb(k: nat, was: bool, now: nat) returns (active: bool)
      requires Fixed() && 0 < k < |parent| && Walk(T(), queue, Now(), steady, k, if was then 1 else 0)
      modifies `nactive, `actc, `sh, `ft, `steady
      ensures Walk(T(), queue, Now(), steady, parent[k], if active then 1 else 0) && (steady ==> old(steady))
      ensures active <==> was && old(nactive[k]) == 0
      ensures Now() == Climbed(T(), old(Now()), k, was, now)
    {
      ClimbedWalk(T(), queue, Now(), steady, k, was, now);
      Listed(T(), queue, Now(), k, if was then 1 else 0);
      assert ChildList(parent, parent[k], actc[parent[k]]);
      active := false;
      ghost var l := Now();
      if was {
        active := Join(k);
      }
      ghost var l1 := Now();
      Limit(k, active, now);
      assert Now() == Limited(T(), l1, k, active, now) == Climbed(T(), l, k, was, now);
    }

    method Join(k: nat) returns (active: bool)
      requires Fixed() && 0 < k < |parent| && Formed(T(), Now()) && Distinct(actc[parent[k]])
      requires nactive[k] == 0 ==> k !in actc[parent[k]]
      modifies `nactive, `actc, `sh, `steady
      ensures active <==> old(nactive[k]) == 0
      ensures steady == if active then StillSteady(T(), old(Now()), old(steady), k) else old(steady)
      ensures Now() ==
        if active then Joined(T(), old(Now()), k) else old(Now()).(nactive := old(nactive)[k := old(nactive)[k] + 1])
    {
      active := nactive[k] == 0;
      if active {
        var p := parent[k];
        StartSharing(k);
        var children := Insert(actc[p], Vts(sh), k);
        nactive := nactive[k := 1];
        actc := actc[p := children];
      } else {
        nactive := nactive[k := nactive[k] + 1];
      }
    }

    /** A new virtual time and curve for a class that becomes active. */
    method StartSharing(k: nat)
      requires Fixed() && 0 < k < |parent| && Formed(T(), Now())
      modifies `sh, `steady
      ensures sh == Started(T(), old(Now()), k) && steady == StillSteady(T(), old(Now()), old(steady), k)
    {
      var p := parent[k];
      var vt := 0;
      if actc[p] == [] {
        NewPeriod(p);
      } else {
        var last := actc[p][|actc[p]| - 1];
        vt := Joining(sh[k], sh[p], sh[last].vt);
      }
      sh := sh[k := Begun(sh[k], fsc[k], vt, sh[p].period + if nactive[p] == 0 then 1 else 0)];
      steady := steady && OnCourse(sh[k], fsc[k]);
    }

    /** The first child of a new backlog period of class p: the offsets of all children
        grow past the virtual times of the last period. */
    method NewPeriod(p: nat)
      requires p < |parent| == |sh| && TreeOk(parent)
      modifies `sh
      ensures |old(sh)| == |parent| && sh == Renewed(parent, old(sh), p)
    {
      var vtmax := sh[p].vtmax;
      ghost var before := sh;
      var c := 1;
      while c < |parent|
        invariant 1 <= c <= |parent| && |sh| == |before|
        invariant forall k :: 0 <= k < |sh| ==>
          sh[k] == if 0 < k < c && parent[k] == p then before[k].(off := before[k].off + vtmax) else before[k]
      {
        if parent[c] == p {
          sh := sh[c := sh[c].(off := sh[c].off + vtmax)];
        }
        c := c + 1;
      }
      sh := sh[p := sh[p].(vtmin := 0, vtmax := 0)];
    }

    // ----- fit times

    /** The fit time of a class that became active or has a child that did. */
    method Limit(k: nat, joins: bool, now: nat)
      requires Fixed() && 0 < k < |parent| && Formed(T(), Now())
      modifies `ft
      ensures Now() == Limited(T(), old(Now()), k, joins, now)
    {
      var a := if joins then Opened(ft[k], usc[k], sh[k].total, now) else ft[k];
      Settle(k, a);
    }

    method Settle(k: nat, a: Fit)
      requires Fixed() && 0 < k < |parent| && Formed(T(), Now())
      modifies `ft
      ensures ft == Settled(old(ft), actc[parent[k]], k, parent[k], a)
    {
      var p := parent[k];
      assert Within(actc[p], |ft|);
      var f := Max(a.own, a.least);
      if f == a.f {
        ft := ft[k := a];
      } else {
        ft := ft[k := a.(f := f)];
        UpdateLeast(p);
      }
    }

    /** Find the least fit time of the active children of class p. */
    method UpdateLeast(p: nat)
      requires |ft| == |actc| && p < |actc| && Within(actc[p], |ft|)
      modifies `ft
      ensures |old(ft)| == |actc| && ft == Recomputed(old(ft), actc[p], p)
    {
      var children, all := actc[p], ft;
      var least := 0;
      var n := 0;
      while n < |children|
        invariant 0 <= n <= |children| && ft == all && Earliest(all, children[..n], least)
      {
        EarliestMore(all, children, n, least);
        var f := all[children[n]].f;
        if n == 0 || f < least {
          least := f;
        }
        n := n + 1;
        if f == 0 {
          EarliestZero(all, children, n - 1);
          n := |children|;
        }
        assert children[..|children|] == children;
      }
      assert children[..|children|] == children;
      SameEarliest(all, children, least, Soonest(all, children));
      ft := ft[p := ft[p].(least := least)];
    }

    // ----- being served and becoming passive

    /** Class c was served len bytes or emptied: update virtual times up the tree, and
        count it out if it has no packets left. */
    method UpdateVf(c: nat, len: nat, now: nat)
      requires Fixed() && c < |parent| == |queue| && Walk(T(), queue, Now(), steady, c, if queue[c] == [] then -1 else 0)
      modifies `nactive, `actc, `sh, `ft
      ensures Walk(T(), queue, Now(), steady, 0, 0)
      ensures Now() == UpdateFrom(T(), old(Now()), c, len, queue[c] == [], now)
    {
      var k: nat := c;
      var passive := queue[c] == [];
      while k != 0
        invariant k < |parent| && Walk(T(), queue, Now(), steady, k, if passive then -1 else 0)
        invariant UpdateFrom(T(), Now(), k, len, passive, now) == UpdateFrom(T(), old(Now()), c, len, queue[c] == [], now)
        decreases k
      {
        Listed(T(), queue, Now(), k, if passive then -1 else 0);
        if nactive[k] == 0 {
          assert false;
        }
        passive := Leave(k, len, passive, now);
        k := parent[k];
      }
      RootWalk(T(), queue, Now(), steady, if passive then -1 else 0);
    }

    method Leave(k: nat, len: nat, was: bool, now: nat) returns (passive: bool)
      requires Fixed() && 0 < k < |parent| && Walk(T(), queue, Now(), steady, k, if was then -1 else 0)
      modifies `nactive, `actc, `sh, `ft
      ensures Walk(T(), queue, Now(), steady, parent[k], if passive then -1 else 0)
      ensures passive <==> was && old(nactive[k]) == 1
      ensures Now() == Stepped(T(), old(Now()), k, len, was, now)
    {
      SteppedWalk(T(), queue, Now(), steady, k, len, was, now);
      Listed(T(), queue, Now(), k, if was then -1 else 0);
      assert ChildList(parent, parent[k], actc[parent[k]]);
      passive := was && nactive[k] == 1;
      if passive {
        Retire(k, len);
      } else {
        Proceed(k, len, was, now);
      }
    }

    /** Class k becomes passive; its parent keeps the largest virtual time. */
    method Retire(k: nat, len: nat)
      requires Fixed() && 0 < k < |parent| && Formed(T(), Now()) && k in actc[parent[k]] && Distinct(actc[parent[k]])
      modifies `nactive, `actc, `sh, `ft
      ensures Now() == Retired(T(), old(Now()), k, len)
    {
      var p := parent[k];
      StaysWithin(actc[p], Vts(sh), k);
      nactive := nactive[k := 0];
      sh := sh[k := sh[k].(total := sh[k].total + len)];
      if sh[k].vt > sh[p].vtmax {
        sh := sh[p := sh[p].(vtmax := sh[k].vt)];
      }
      var children := Remove(actc[p], Vts(sh), k);
      actc := actc[p := children];
      UpdateLeast(p);
    }

    /** Class k was served and stays active. */
    method Proceed(k: nat, len: nat, less: bool, now: nat)
      requires Fixed() && 0 < k < |parent| && Formed(T(), Now()) && k in actc[parent[k]] && Distinct(actc[parent[k]])
      modifies `nactive, `actc, `sh, `ft
      ensures Now() == Proceeded(T(), old(Now()), k, len, less, now)
    {
      var p := parent[k];
      if less {
        nactive := nactive[k := nactive[k] - 1];
      }
      sh := sh[k := Served(sh[k], len, sh[p].vtmin)];
      StaysWithin(actc[p], Vts(sh), k);
      Shift(k, p);
      Settle(k, Passed(ft[k], usc[k], sh[k].total, now, tick));
    }

    /** Move class k on the list of class p to where its virtual time belongs. */
    method Shift(k: nat, p: nat)
      requires p < |actc| && Within(actc[p], |sh|) && k in actc[p] && Distinct(actc[p])
      modifies `actc
      ensures p < |old(actc)| && actc == old(actc)[p := Shifted(old(actc)[p], Vts(sh), k, true)]
    {
      var children := Update(actc[p], Vts(sh), k, true, sh[k].vt);
      actc := actc[p := children];
    }

    // ----- real-time list

    method InitEd(c: nat, len: nat, now: nat)
      requires c < |parent| == |queue| && Fixed() && rsc[c].Some? && queue[c] == [len]
      requires Timing(rsc, queue[c := []], rt, list)
      modifies `rt, `list
      ensures Timing(rsc, queue, rt, list)
      ensures rt == old(rt)[c := Begin(old(rt)[c], rsc[c].value, now, len)]
      ensures forall k :: k in old(list) ==> k in list && rt[k] == old(rt[k])
    {
      BegunClass(rsc, queue, rt, list, c, len, now);
      BeginTiming(rsc, queue, rt, list, c, Begin(rt[c], rsc[c].value, now, len));
      rt := rt[c := Begin(rt[c], rsc[c].value, now, len)];
      list := Insert(list, Keys(rt), c);
    }

    method RemoveEd(c: nat, ghost was: seq<nat>)
      requires c < |parent| == |queue| && Fixed() && queue[c] == []
      requires was != [] && Timing(rsc, queue[c := was], rt, list)
      modifies `list
      ensures Timing(rsc, queue, rt, list)
      ensures c !in list && forall k :: k in list ==> k in old(list)
    {
      LeaveTiming(rsc, queue[c := was], rt, list, c);
      assert queue[c := was][c := []] == queue;
      if rsc[c].Some? {
        list := Remove(list, Keys(rt), c);
      }
    }

    method UpdateEd(c: nat, realtime: bool, len: nat, ghost was: seq<nat>)
      requires c < |parent| == |queue| && Fixed() && rsc[c].Some? && queue[c] != [] && was != []
      requires Timing(rsc, queue[c := was], rt, list)
      modifies `rt, `list
      ensures Timing(rsc, queue, rt, list) && rt[c].e >= old(rt[c].e)
      ensures rt == old(rt)[c := Continue(old(rt)[c], realtime, len, queue[c][0])] && Reordered(old(list), list)
    {
      ListedClass(rsc, queue[c := was], rt, list, c);
      ContinueLater(rt[c], rsc[c].value, realtime, len, queue[c][0]);
      Replace(c, Continue(rt[c], realtime, len, queue[c][0]), realtime, was);
    }

    /** New times for class c; as real-time service it may move on the list. */
    method Replace(c: nat, x: RealTime, realtime: bool, ghost was: seq<nat>)
      requires c < |parent| == |queue| && Fixed() && rsc[c].Some? && queue[c] != [] && was != []
      requires Timing(rsc, queue[c := was], rt, list) && ClassOk(x, rsc[c], queue[c])
      requires if realtime then x.e >= rt[c].e else x.e == rt[c].e
      modifies `rt, `list
      ensures Timing(rsc, queue, rt, list) && rt == old(rt)[c := x] && Reordered(old(list), list)
    {
      ghost var rt0, list0 := rt, list;
      ListedClass(rsc, queue[c := was], rt, list, c);
      rt := rt[c := x];
      assert Keys(rt)[c := rt0[c].e] == Keys(rt0);
      if realtime {
        list := Update(list, Keys(rt), c, false, rt0[c].e);
      } else {
        assert Keys(rt) == Keys(rt0);
      }
      RelistedTiming(rsc, queue[c := was], rt0, list0, c, queue[c], x, list);
      assert queue[c := was][c := queue[c]] == queue;
    }

    // ----- packets in

    /** Queue a packet of len bytes for a class; the fallback class takes those of no
        class and of inner classes. */
    method Enqueue(class_: Option<nat>, len: nat, now: nat) returns (o: Arrival)
      requires Valid() && (class_.Some? ==> class_.value < |parent|)
      modifies this
      ensures var c := if class_.None? || IsParent(parent, class_.value) then fallback else class_;
        && (o.Refused? <==> c.None? || |old(queue[c.value])| >= limit[c.value])
        && (o.Misplaced? <==> !o.Refused? && IsParent(parent, c.value))
        && (o.Refused? ==> queue == old(queue))
        && (o.Queued? ==> Added(c.value, len, now) && packets == old(packets) + 1)
        && (o.Queued? && old(queue[c.value]) == [] && rsc[c.value].Some? ==>
              X2Y(old(rt[c.value].deadline), now) > old(rt[c.value].cumul) ==> rt[c.value].e >= now)
      ensures !o.Misplaced? ==>
        && Valid() && cache == old(cache) && purged == old(purged) && (steady ==> old(steady))
        && (forall k :: k in old(list) ==> k in list && rt[k] == old(rt[k]))
    {
      var to := if class_.None? || IsParent(parent, class_.value) then fallback else class_;
      if to.None? || |queue[to.value]| >= limit[to.value] {
        return Refused;
      }
      if IsParent(parent, to.value) {
        return Misplaced;
      }
      if rsc[to.value].Some? {
        BeginStarts(rt[to.value], rsc[to.value].value, now, len);
      }
      Add(to.value, len, now);
      o := Queued;
    }

    /** Class c has a packet more, and if it is its first, the class has become active. */
    twostate predicate Added(c: nat, len: nat, now: nat)
      requires old(Valid()) && c < |parent|
      reads this
    {
      && queue == old(queue)[c := old(queue[c]) + [len]]
      && if old(queue[c]) == [] then
           && Now() == InitFrom(T(), old(Now()), c, true, now)
           && rt == (if rsc[c].Some? then old(rt)[c := Begin(old(rt[c]), rsc[c].value, now, len)] else old(rt))
           && Formed(T(), old(Now())) && |old(past)| == |old(rt)| == |rsc| == |parent|
           && past == NextPast(rsc, T(), old(rt), old(Now()), old(past), c, now)
         else Now() == old(Now()) && rt == old(rt) && past == old(past)
    }

    method Add(c: nat, len: nat, now: nat)
      requires Valid() && c < |parent| && !IsParent(parent, c)
      modifies `queue, `packets, `nactive, `actc, `sh, `ft, `rt, `list, `steady, `past
      ensures Valid() && Added(c, len, now) && packets == old(packets) + 1 && (steady ==> old(steady))
      ensures forall k :: k in old(list) ==> k in list && rt[k] == old(rt[k])
    {
      TotalUpdate(queue, c, queue[c] + [len]);
      if queue[c] == [] {
        assert queue[c] + [len] == [len];
        AddFirst(c, len, now);
      } else {
        MoreWalk(T(), queue, Now(), steady, c, queue[c] + [len]);
        SameTiming(rsc, queue, rt, list, c, queue[c] + [len]);
        queue := queue[c := queue[c] + [len]];
        packets := packets + 1;
      }
    }

    method AddFirst(c: nat, len: nat, now: nat)
      requires Fixed() && Walk(T(), queue, Now(), steady, 0, 0) && Timing(rsc, queue, rt, list)
      requires Remembered(rsc, T(), rt, Now(), past) && c < |parent| && !IsParent(parent, c) && queue[c] == []
      modifies `queue, `packets, `nactive, `actc, `sh, `ft, `rt, `list, `steady, `past
      ensures queue == old(queue)[c := [len]] && packets == old(packets) + 1 && (steady ==> old(steady))
      ensures Walk(T(), queue, Now(), steady, 0, 0) && Timing(rsc, queue, rt, list) && Remembered(rsc, T(), rt, Now(), past)
      ensures Now() == InitFrom(T(), old(Now()), c, true, now)
      ensures rt == if rsc[c].Some? then old(rt)[c := Begin(old(rt[c]), rsc[c].value, now, len)] else old(rt)
      ensures |old(past)| == |old(rt)| == |rsc| && past == NextPast(rsc, T(), old(rt), old(Now()), old(past), c, now)
      ensures forall k :: k in old(list) ==> k in list && rt[k] == old(rt[k])
    {
      NextRemembered(rsc, T(), rt, Now(), past, c, now, len);
      past := NextPast(rsc, T(), rt, Now(), past, c, now);
      queue := queue[c := [len]];
      packets := packets + 1;
      SetActive(c, len, now, old(queue));
    }

    /** The first packet of class c has come. */
    method SetActive(c: nat, len: nat, now: nat, ghost before: seq<seq<nat>>)
      requires Fixed() && c < |parent| == |before| && !IsParent(parent, c) && before[c] == [] && queue == before[c := [len]]
      requires Walk(T(), before, Now(), steady, 0, 0) && Timing(rsc, before, rt, list)
      modifies `nactive, `actc, `sh, `ft, `rt, `list, `steady
      ensures Walk(T(), queue, Now(), steady, 0, 0) && Timing(rsc, queue, rt, list) && (steady ==> old(steady))
      ensures Now() == InitFrom(T(), old(Now()), c, true, now)
      ensures rt == if rsc[c].Some? then old(rt)[c := Begin(old(rt[c]), rsc[c].value, now, len)] else old(rt)
      ensures forall k :: k in old(list) ==> k in list && rt[k] == old(rt[k])
    {
      ArriveWalk(T(), before, Now(), steady, c, len);
      assert queue[c := []] == before;
      if rsc[c].Some? {
        InitEd(c, len, now);
      } else {
        OtherTiming(rsc, before, rt, list, c, [len]);
      }
      InitVf(c, now);
    }

    // ----- packets out

    ghost predicate SomeEligible(now: nat)
      requires |rt| == |parent| && Within(list, |rt|)
      reads this
    {
      exists k :: k in list && rt[k].e <= now
    }

    /** No active child of the root fits now. */
    ghost predicate Blocked(now: nat)
      requires |ft| == |parent| == |actc|
      reads this
    {
      IsParent(parent, 0) && forall k :: k in actc[0] && k < |ft| ==> ft[k].f > now
    }

    /** No class that stays backlogged is eligible earlier than before. */
    twostate predicate NoneEarlier()
      requires old(Valid()) && |rt| == |parent| && Within(list, |rt|)
      reads this
    {
      forall k :: k in old(list) && k in list ==> rt[k].e >= old(rt[k].e)
    }

    /** Down the tree by least virtual time, every class at or above c. */
    ghost predicate Fairest(c: nat, now: nat)
      requires Valid() && c < |parent|
      reads this
    {
      LeastPath(parent, actc, Vts(sh), Fits(ft), c, now)
    }

    /** The class to serve: by least deadline if some class is eligible, else down the
        tree by least virtual time among those that fit; none exactly if no child of the
        root fits. */
    method Choose(now: nat) returns (choice: Option<nat>, realtime: bool)
      requires Valid() && packets != 0
      modifies `sh
      ensures Valid()
      ensures choice.Some? ==> choice.value < |parent| && queue[choice.value] != []
      ensures realtime <==> SomeEligible(now)
      ensures realtime ==> choice.Some? && old(Foremost(choice.value, now)) && sh == old(sh)
      ensures choice.Some? ==> (realtime <==> rsc[choice.value].Some? && rt[choice.value].e <= now)
      ensures steady && !realtime && choice.Some? ==> old(Fairest(choice.value, now))
      ensures !realtime && choice.Some? ==> sh == Raised(parent, old(sh), choice.value)
      ensures !realtime && choice.Some? ==> old(FirstPath(parent, actc, Fits(ft), choice.value, now))
      ensures choice.None? <==> !realtime && old(Blocked(now))
    {
      InTime(rsc, queue, rt, list);
      choice := MinDeadline(list, Keys(rt), Deadlines(rt), now);
      realtime := choice.Some?;
      if realtime {
        return;
      }
      choice := Descend(now);
    }

    method Descend(now: nat) returns (choice: Option<nat>)
      requires Valid() && packets != 0
      modifies `sh
      ensures Valid()
      ensures choice.Some? ==> choice.value < |parent| && queue[choice.value] != [] && sh == Raised(parent, old(sh), choice.value)
      ensures steady && choice.Some? ==> LeastPath(parent, actc, Vts(old(sh)), Fits(ft), choice.value, now)
      ensures choice.Some? ==> FirstPath(parent, actc, Fits(ft), choice.value, now)
      ensures choice.None? <==> Blocked(now)
    {
      var c: nat := 0;
      ghost var leaf := TotalSome(queue);
      RootListed(T(), queue, Now(), steady, leaf);
      while IsParent(parent, c)
        invariant c < |parent| && Valid() && sh == Raised(parent, old(sh), c) && Vts(sh) == Vts(old(sh))
        invariant OnPath(c, now)
        decreases |parent| - c
      {
        var child := Down(c, now);
        if child.None? {
          return None;
        }
        c := child.value;
      }
      return Some(c);
    }

    /** The way down to class c led over first children that fit, while steady of least
        virtual time, and goes on below it. */
    ghost predicate OnPath(c: nat, now: nat)
      requires Formed(T(), Now()) && |queue| == |parent| && c < |parent|
      reads this
    {
      && (if IsParent(parent, c) then actc[c] != [] else queue[c] != [])
      && (steady ==> LeastPath(parent, actc, Vts(sh), Fits(ft), c, now)) && FirstPath(parent, actc, Fits(ft), c, now)
      && (c > 0 ==> c in actc[parent[c]] && ft[c].f <= now && !Blocked(now))
    }

    lemma NotBlocked(p: nat, c: nat, now: nat)
      requires Formed(T(), Now()) && p < |parent| && FirstFitting(actc[p], Fits(ft), now, c)
      ensures c in actc[p] && c < |ft| && ft[c].f <= now && (p == 0 ==> !Blocked(now))
    {
    }

    /** From class p to its first child that fits; the least virtual time served there
        goes up to it. There is one unless p is the root. */
    method Down(p: nat, now: nat) returns (child: Option<nat>)
      requires Valid() && p < |parent| && IsParent(parent, p) && OnPath(p, now)
      modifies `sh
      ensures Valid() && Vts(sh) == Vts(old(sh))
      ensures child.None? ==> Blocked(now)
      ensures child.Some? ==> var c := child.value;
        0 < c < |parent| && parent[c] == p && |old(sh)| == |parent| && sh == Raise(old(sh), p, c) && OnPath(c, now)
    {
      child := FirstFit(actc[p], Fits(ft), now);
      if child.None? {
        if p > 0 {
          FitBelow(T(), Now(), p, now);
        }
        return;
      }
      var c := child.value;
      NotBlocked(p, c, now);
      ChildFits(T(), queue, Now(), steady, p, c, now);
      RaisedWalk(T(), queue, Now(), steady, p, c);
      BelowListed(T(), queue, Now(), c);
      RaisedRemembered(rsc, T(), rt, Now(), past, p, c);
      if sh[p].vtmin < sh[c].vt {
        sh := sh[p := sh[p].(vtmin := sh[c].vt)];
      }
    }

    /** Take or only show the next packet at time now. A class shown by a poll is
        taken by the next removal without choosing again. */
    method Dequeue(remove: bool, now: nat) returns (o: Outcome)
      requires Valid()
      modifies this
      ensures o != Panic ==> Valid()
      ensures steady == old(steady) && past == old(past)
      ensures o.Panic? <==> remove && old(packets != 0 && cache.Some? && queue[cache.value] == [])
      ensures !old(purged) ==> !o.Panic?
      ensures o.Packet? && remove ==> old(packets) > 0 && packets == old(packets) - 1
      ensures old(packets) == 0 ==> o.Nothing?
      ensures !o.Panic? ==> NoneEarlier()
      ensures old(packets != 0 && cache.Some?) && remove && !o.Panic? ==>
        o.Packet? && o.class_ == old(cache.value) && Taken(o.class_, o.len, now, old(Now()))
      ensures old(packets) != 0 && !(remove && old(cache.Some?)) ==> Answered(remove, now, o)
      ensures old(packets) != 0 && Unlimited(usc) && !o.Panic? ==> o.Packet?
    {
      if packets == 0 {
        return Nothing;
      }
      if remove && cache.Some? {
        o := TakeShown(now);
      } else {
        if Unlimited(usc) && IsParent(parent, 0) {
          ghost var leaf := TotalSome(queue);
          NeverBlocked(T(), queue, Now(), steady, leaf, now);
        }
        o := TakeBest(remove, now);
      }
    }

    /** By least deadline if some class is eligible, else down the tree to the class that
        least virtual time gives, with nothing exactly if no child of the root fits. The
        packet is the first of its class, and is taken or only shown. */
    twostate predicate Answered(remove: bool, now: nat, o: Outcome)
      requires old(Valid()) && |ft| == |queue| == |rt| == |parent|
      reads this
    {
      && (o.Nothing? <==> !old(SomeEligible(now)) && old(Blocked(now)))
      && (o.Nothing? ==> queue == old(queue))
      && (o.Packet? ==>
           && o.class_ < |parent|
           && (old(SomeEligible(now)) ==> old(Foremost(o.class_, now)))
           && (!old(SomeEligible(now)) ==> old(FirstPath(parent, actc, Fits(ft), o.class_, now)))
           && (old(steady && !SomeEligible(now)) ==> old(Fairest(o.class_, now)))
           && var l := old(Now()).(sh := if old(SomeEligible(now)) then old(sh) else Raised(parent, old(sh), o.class_));
              if remove then Taken(o.class_, o.len, now, l) else Shown(o.class_, o.len, l))
      && (remove ==> cache == old(cache))
    }

    twostate predicate Shown(c: nat, len: nat, l: Links)
      requires old(Valid()) && c < |parent|
      reads this
    {
      && queue == old(queue) && queue[c] != [] && len == queue[c][0] && cache == Some(c) && !purged
      && rt == old(rt) && list == old(list) && packets == old(packets) && Now() == l
    }

    method TakeBest(remove: bool, now: nat) returns (o: Outcome)
      requires Valid() && packets != 0 && !(remove && cache.Some?)
      modifies this
      ensures Valid() && steady == old(steady) && past == old(past) && !o.Panic? && NoneEarlier() && Answered(remove, now, o)
      ensures o.Packet? && remove ==> packets == old(packets) - 1
    {
      var choice, realtime := Choose(now);
      if choice.None? {
        return Nothing;
      }
      var c := choice.value;
      if remove {
        o := TakeChosen(c, realtime, now);
      } else {
        o := Show(c);
      }
    }

    method Show(c: nat) returns (o: Outcome)
      requires Valid() && c < |parent| && queue[c] != []
      modifies `cache, `purged
      ensures Valid() && o.Packet? && o.class_ == c && Shown(c, o.len, old(Now()))
    {
      o := Packet(c, queue[c][0]);
      cache := Some(c);
      purged := false;
    }

    /** The class shown by the last poll. */
    method TakeShown(now: nat) returns (o: Outcome)
      requires Valid() && packets != 0 && cache.Some?
      modifies this
      ensures o != Panic ==> Valid()
      ensures steady == old(steady) && past == old(past) && (o.Panic? <==> old(queue[cache.value]) == []) && !o.Nothing?
      ensures o.Packet? ==> o.class_ == old(cache.value) && Taken(o.class_, o.len, now, old(Now())) && packets == old(packets) - 1
      ensures !o.Panic? ==> NoneEarlier()
    {
      var c := cache.value;
      cache := None;
      var realtime := rsc[c].Some? && rt[c].e <= now;
      if queue[c] == [] {
        return Panic;
      }
      o := Packet(c, queue[c][0]);
      Take(c, realtime, now);
    }

    /** A class chosen now. */
    method TakeChosen(c: nat, realtime: bool, now: nat) returns (o: Outcome)
      requires Valid() && cache.None? && c < |parent| && queue[c] != []
      requires realtime <==> rsc[c].Some? && rt[c].e <= now
      modifies `queue, `packets, `nactive, `actc, `sh, `ft, `rt, `list
      ensures Valid() && o.Packet? && o.class_ == c && NoneEarlier() && packets == old(packets) - 1
      ensures Taken(c, o.len, now, old(Now()))
    {
      o := Packet(c, queue[c][0]);
      Take(c, realtime, now);
    }

    /** The first packet of class c was removed, as real-time service if c was eligible,
        and link sharing went on from l. */
    twostate predicate Taken(c: nat, len: nat, now: nat, l: Links)
      requires old(Valid())
      reads this
    {
      && c < |parent| && old(queue[c]) != [] && len == old(queue[c])[0]
      && queue == old(queue)[c := old(queue[c])[1..]]
      && rt == old(rt)[c := Progress(old(rt[c]), rsc[c], old(rt[c].e) <= now, old(queue[c]))]
      && Formed(T(), l) && Now() == UpdateFrom(T(), l, c, len, |old(queue[c])| == 1, now)
    }

    /** Class c is eligible, and none of the eligible classes has an earlier deadline. */
    ghost predicate Foremost(c: nat, now: nat)
      requires Valid()
      reads this
    {
      c in list && rt[c].e <= now && forall k :: k in list && rt[k].e <= now ==> rt[c].d <= rt[k].d
    }

    /** Class c has just lost its last packet. */
    method SetPassive(c: nat, len: nat, now: nat, ghost before: seq<seq<nat>>)
      requires Fixed() && c < |parent| == |before| && before[c] != [] && queue == before[c := []]
      requires Walk(T(), before, Now(), steady, 0, 0) && Timing(rsc, before, rt, list)
      modifies `nactive, `actc, `sh, `ft, `list
      ensures Walk(T(), queue, Now(), steady, 0, 0) && Timing(rsc, queue, rt, list)
      ensures Now() == UpdateFrom(T(), old(Now()), c, len, true, now)
      ensures c !in list && forall k :: k in list ==> k in old(list)
    {
      DepartWalk(T(), before, Now(), steady, c);
      UpdateVf(c, len, now);
      assert queue[c := before[c]] == before;
      RemoveEd(c, before[c]);
    }

    /** Remove the first packet of class c. */
    method Take(c: nat, realtime: bool, now: nat)
      requires Valid() && c < |parent| && queue[c] != [] && cache.None?
      requires realtime <==> rsc[c].Some? && rt[c].e <= now
      modifies `queue, `packets, `nactive, `actc, `sh, `ft, `rt, `list
      ensures Valid() && Taken(c, old(queue[c])[0], now, old(Now())) && NoneEarlier() && packets == old(packets) - 1
    {
      TotalUpdate(queue, c, queue[c][1..]);
      if |queue[c]| > 1 {
        TakeOne(c, realtime, now);
      } else {
        TakeLast(c, realtime, now);
      }
    }

    method TakeOne(c: nat, realtime: bool, now: nat)
      requires Valid() && c < |parent| && |queue[c]| > 1 && cache.None?
      requires realtime <==> rsc[c].Some? && rt[c].e <= now
      requires Total(queue[c := queue[c][1..]]) == Total(queue) - 1
      modifies `queue, `packets, `nactive, `actc, `sh, `ft, `rt, `list
      ensures Valid() && Taken(c, old(queue[c])[0], now, old(Now())) && NoneEarlier() && packets == old(packets) - 1
    {
      var len := queue[c][0];
      ghost var before := queue;
      MoreWalk(T(), queue, Now(), steady, c, queue[c][1..]);
      queue := queue[c := queue[c][1..]];
      packets := packets - 1;
      UpdateVf(c, len, now);
      assert queue[c := before[c]] == before;
      if rsc[c].Some? {
        UpdateEd(c, realtime, len, before[c]);
      } else {
        OtherTiming(rsc, before, rt, list, c, queue[c]);
      }
      UpdateRemembered(rsc, T(), old(rt), old(Now()), past, rt, c, len, false, now);
    }

    method TakeLast(c: nat, realtime: bool, now: nat)
      requires Valid() && c < |parent| && |queue[c]| == 1 && cache.None?
      requires realtime <==> rsc[c].Some? && rt[c].e <= now
      requires Total(queue[c := queue[c][1..]]) == Total(queue) - 1
      modifies `queue, `packets, `nactive, `actc, `sh, `ft, `rt, `list
      ensures Valid() && Taken(c, old(queue[c])[0], now, old(Now())) && NoneEarlier() && packets == old(packets) - 1
    {
      var len := queue[c][0];
      ghost var before := queue;
      assert queue[c][1..] == [];
      queue := queue[c := []];
      packets := packets - 1;
      SetPassive(c, len, now, before);
      Count(c, realtime, len);
      UpdateRemembered(rsc, T(), old(rt), old(Now()), past, rt, c, len, true, now);
    }

    /** Real-time service of a last packet is only counted. */
    method Count(c: nat, realtime: bool, len: nat)
      requires Fixed() && c < |parent| == |queue| && queue[c] == [] && c !in list && Timing(rsc, queue, rt, list)
      modifies `rt
      ensures Timing(rsc, queue, rt, list)
      ensures rt == old(rt)[c := old(rt[c]).(cumul := old(rt[c].cumul) + if realtime then len else 0)]
    {
      if realtime {
        ServedTiming(rsc, queue, rt, list, c, len);
        rt := rt[c := rt[c].(cumul := rt[c].cumul + len)];
      }
    }

    /** Drop all packets of class c. */
    method PurgeClass(c: nat)
      requires Valid() && c < |parent|
      modifies `queue, `packets, `nactive, `actc, `sh, `ft, `list, `purged
      ensures Valid() && queue == old(queue)[c := []] && purged
      ensures Now() == if old(queue[c]) == [] then old(Now()) else UpdateFrom(T(), old(Now()), c, 0, true, 0)
    {
      purged := true;
      if queue[c] != [] {
        EmptyClass(c);
      }
      assert queue == old(queue)[c := []];
    }

    method EmptyClass(c: nat)
      requires Fixed() && Walk(T(), queue, Now(), steady, 0, 0) && Timing(rsc, queue, rt, list) && packets == Total(queue)
      requires c < |parent| && queue[c] != [] && Remembered(rsc, T(), rt, Now(), past)
      modifies `queue, `packets, `nactive, `actc, `sh, `ft, `list
      ensures Walk(T(), queue, Now(), steady, 0, 0) && Timing(rsc, queue, rt, list) && packets == Total(queue)
      ensures queue == old(queue)[c := []] && Remembered(rsc, T(), rt, Now(), past)
      ensures Now() == UpdateFrom(T(), old(Now()), c, 0, true, 0)
    {
      ghost var before := queue;
      TotalUpdate(queue, c, []);
      UpdateRemembered(rsc, T(), rt, Now(), past, rt, c, 0, true, 0);
      Drain(c);
      SetPassive(c, 0, 0, before);
    }

    method Drain(c: nat)
      requires c < |queue|
      modifies `queue, `packets
      ensures queue == old(queue)[c := []] && packets == old(packets) - |old(queue[c])|
    {
      while queue[c] != []
        invariant |queue| == |old(queue)| && queue == old(queue)[c := queue[c]]
        invariant packets == old(packets) - |old(queue[c])| + |queue[c]|
        decreases |queue[c]|
      {
        queue := queue[c := queue[c][1..]];
        packets := packets - 1;
      }
    }

    /** Drop all packets. */
    method Purge()
      requires Valid()
      modifies `queue, `packets, `nactive, `actc, `sh, `ft, `list, `purged
      ensures Valid() && (forall c :: 0 <= c < |parent| ==> queue[c] == []) && packets == 0
    {
      var c := 0;
      while c < |parent|
        invariant 0 <= c <= |parent| && Valid()
        invariant forall k :: 0 <= k < c ==> queue[k] == []
      {
        PurgeClass(c);
        c := c + 1;
      }
      if packets > 0 {
        ghost var k := TotalSome(queue);
        assert false;
      }
    }
  }

  /** From a valid scheduler's curves. */
  lemma RememberedCurves(rsc: seq<Option<Isc>>, t: Tree, rt: seq<RealTime>, l: Links, past: seq<Memory>, c: nat)
    requires Remembered(rsc, t, rt, l, past) && c < |past|
    ensures |past| == |rsc| == |rt| == |l.sh| == |l.ft| == |t.fsc| == |t.usc|
    ensures rsc[c].Some? ==> rt[c].deadline == Restarts(rsc[c].value, past[c].deadline)
    ensures t.usc[c].Some? ==> l.ft[c].curve == Restarts(t.usc[c].value, past[c].limit)
    ensures Displaced(l.sh[c].curve, past[c].base) == Restarts(t.fsc[c], past[c].fair)
  {
    assert Inside(0);
    assert DeadlineKnown(rt[c], rsc[c], past[c]);
    assert ShareKnown(l.sh[c], t.fsc[c], past[c]) && FitKnown(l.ft[c], t.usc[c], past[c]);
  }

  /** Changing the key of an unlisted class keeps a list sorted. */
  lemma KeysAgree(rt: seq<RealTime>, rt': seq<RealTime>, list: seq<nat>, c: nat)
    requires |rt'| == |rt| && Within(list, |rt|) && Sorted(Keys(rt), list) && c !in list
    requires forall k :: 0 <= k < |rt| && k != c ==> rt'[k] == rt[k]
    ensures Sorted(Keys(rt'), list)
  {
    assert forall n :: 0 <= n < |list| ==> list[n] in list && Keys(rt')[list[n]] == Keys(rt)[list[n]];
  }
}
