/** Runs of the H-FSC scheduler in which something goes wrong: a removal after a purge,
    link sharing that misses the least virtual time, and a class that waits for a limit
    it does not have. */
module HfscRuns {
  import opened HfscTree
  import opened HfscList
  import opened HfscCurve
  import opened HfscVirtual
  import opened HfscLinks
  import opened Hfsc
  import opened Marks
  import opened Lists
  import opened Options

  // ----- a purge between poll and removal

  lemma FastOk()
    ensures IscOk(FAST)
  {
  }

  /** Two classes below the root, without upper limits. */
  function TwoClasses(): Tree {
    Tree([0, 0, 0], [FAST, FAST, FAST], [None, None, None], 10_737_418)
  }

  /** A new scheduler for them; the first may have a real-time curve. */
  method Make(curve: Option<Isc>) returns (s: Scheduler)
    requires curve.Some? ==> IscOk(curve.value)
    ensures fresh(s) && s.Valid() && s.T() == TwoClasses() && s.rsc == [None, curve, None] && s.limit == [50, 50, 50]
    ensures s.queue == [[], [], []] && s.Now() == Pair(Idle(FAST), Idle(FAST), 0, 0, []) && s.rt[1] == Untimed(curve)
    ensures s.cache.None? && s.fallback.None?
  {
    FastOk();
    s := new Scheduler(TwoClasses(), [None, curve, None], [50, 50, 50], None);
  }

  /** A scheduler whose class 1 was shown by a poll. */
  method Polled() returns (s: Scheduler)
    ensures fresh(s) && s.Valid() && s.cache == Some(1) && s.fallback.None?
    ensures s.parent == [0, 0, 0] && s.limit == [50, 50, 50]
  {
    s := Make(None);
    var queued := s.Enqueue(Some(1), 100, 0);
    var o := s.Dequeue(false, 0);
  }

  /** A purge does not forget the class last shown by a poll: if other packets come
      before the removal, the removal finds that class empty. */
  method PollPurgeRemove() returns (o: Outcome)
    ensures o.Panic?
  {
    var s := Polled();
    s.Purge();
    var queued := s.Enqueue(Some(2), 100, 0);
    o := s.Dequeue(true, 0);
  }

  // ----- link sharing out of order

  /** A class with some bytes served, on the curve it started with. */
  function Fair(total: nat, vt: nat, period: nat, parentPeriod: nat): Share {
    Share(total, vt, 0, 0, Restart(FAST, 0, 0), period, parentPeriod, 0, 0)
  }

  function Pair(first: Share, second: Share, n1: int, n2: int, list: seq<nat>): Links {
    var free := Unopened(None);
    Links([0, n1, n2], [list, [], []], [Idle(FAST), first, second], [free, free, free])
  }

  lemma PairFormed(first: Share, second: Share, n1: int, n2: int, list: seq<nat>)
    requires forall n :: 0 <= n < |list| ==> list[n] < 3
    ensures Formed(TwoClasses(), Pair(first, second, n1, n2, list))
  {
  }

  /** Below the root and without limits, one class is all that changes. */
  lemma OneUp(t: Tree, l: Links, k: nat, now: nat)
    requires Formed(t, l) && 0 < k < |t.parent| && t.parent[k] == 0 && l.nactive[k] == 0
    requires t.usc[k].None? && l.ft[k].f == l.ft[k].own == l.ft[k].least == 0
    ensures InitFrom(t, l, k, true, now) == Joined(t, l, k)
  {
    var j := Joined(t, l, k);
    assert Opened(j.ft[k], t.usc[k], j.sh[k].total, now) == j.ft[k] && j.ft[k := j.ft[k]] == j.ft;
    assert Limited(t, j, k, true, now) == j;
    assert Climbed(t, l, k, true, now) == j;
  }

  lemma OneOn(t: Tree, l: Links, k: nat, len: nat, now: nat, x: Share)
    requires Formed(t, l) && 0 < k < |t.parent| && t.parent[k] == 0
    requires l.actc[0] != [] && l.actc[0][|l.actc[0]| - 1] == k && Distinct(l.actc[0])
    requires t.usc[k].None? && l.ft[k].f == l.ft[k].own == l.ft[k].least == 0
    requires x == Served(l.sh[k], len, l.sh[0].vtmin)
    ensures UpdateFrom(t, l, k, len, false, now) == l.(sh := l.sh[k := x])
  {
    OneWent(t, l, k, x);
    assert Stepped(t, l, k, len, false, now) == Went(t, l, k, x, l.ft[k], false);
  }

  lemma PairOn(first: Share, second: Share, n1: int, n2: int, list: seq<nat>, k: nat, len: nat, now: nat, x: Share)
    requires k == 1 || k == 2
    requires list != [] && list[|list| - 1] == k && Distinct(list) && Within(list, 3)
    requires x == Served(if k == 1 then first else second, len, 0)
    ensures Formed(TwoClasses(), Pair(first, second, n1, n2, list))
    ensures UpdateFrom(TwoClasses(), Pair(first, second, n1, n2, list), k, len, false, now) ==
      Pair(if k == 1 then x else first, if k == 1 then second else x, n1, n2, list)
  {
    var l := Pair(first, second, n1, n2, list);
    PairFormed(first, second, n1, n2, list);
    OneOn(TwoClasses(), l, k, len, now, x);
    assert l.sh[k := x] == [Idle(FAST), if k == 1 then x else first, if k == 1 then second else x];
  }

  lemma OneWent(t: Tree, l: Links, k: nat, x: Share)
    requires Formed(t, l) && 0 < k < |t.parent| && t.parent[k] == 0
    requires l.actc[0] != [] && l.actc[0][|l.actc[0]| - 1] == k && Distinct(l.actc[0])
    requires l.ft[k].f == l.ft[k].own == l.ft[k].least == 0
    ensures Went(t, l, k, x, l.ft[k], false) == l.(sh := l.sh[k := x])
  {
    var list := Shifted(l.actc[0], Vts(l.sh[k := x]), k, true);
    assert list == l.actc[0] by {
      ShiftedLast(l.actc[0], Vts(l.sh[k := x]), |l.actc[0]| - 1);
    }
    assert l.ft[k := l.ft[k]] == l.ft && l.actc[0 := list] == l.actc;
  }

  /** Class 1 joins an idle tree. */
  lemma FirstJoins(now: nat)
    ensures var l := Pair(Idle(FAST), Idle(FAST), 0, 0, []);
      Formed(TwoClasses(), l) && InitFrom(TwoClasses(), l, 1, true, now) == Pair(Fair(0, 0, 1, 1), Idle(FAST), 1, 0, [1])
  {
    var t, l := TwoClasses(), Pair(Idle(FAST), Idle(FAST), 0, 0, []);
    OneUp(t, l, 1, now);
    assert Renewed(t.parent, l.sh, 0) == l.sh;
    assert Begun(Idle(FAST), FAST, 0, 1) == Fair(0, 0, 1, 1);
    assert Started(t, l, 1) == [Idle(FAST), Fair(0, 0, 1, 1), Idle(FAST)];
    assert At([], 0, 1) == [1];
  }

  /** Class 2 joins it. */
  lemma SecondJoins(now: nat)
    ensures var l := Pair(Fair(0, 0, 1, 1), Idle(FAST), 1, 0, [1]);
      Formed(TwoClasses(), l) && InitFrom(TwoClasses(), l, 2, true, now) == Pair(Fair(0, 0, 1, 1), Fair(0, 0, 1, 1), 1, 1, [1, 2])
  {
    var t, l := TwoClasses(), Pair(Fair(0, 0, 1, 1), Idle(FAST), 1, 0, [1]);
    OneUp(t, l, 2, now);
    assert Begun(Idle(FAST), FAST, 0, 1) == Fair(0, 0, 1, 1);
    assert Started(t, l, 2) == [Idle(FAST), Fair(0, 0, 1, 1), Fair(0, 0, 1, 1)];
    assert At([1], 1, 2) == [1, 2];
  }

  lemma OneOff(t: Tree, l: Links, k: nat, len: nat, now: nat)
    requires Formed(t, l) && 0 < k < |t.parent| && t.parent[k] == 0 && l.nactive[k] == 1
    requires Free(l.ft) && l.sh[k].vt <= l.sh[0].vtmax
    ensures UpdateFrom(t, l, k, len, true, now) ==
      Links(l.nactive[k := 0], l.actc[0 := Dropped(l.actc[0], k)], l.sh[k := l.sh[k].(total := l.sh[k].total + len)], l.ft)
  {
    var r := Retired(t, l, k, len);
    assert Recomputed(l.ft, Dropped(l.actc[0], k), 0) == l.ft by {
      assert l.ft[0 := l.ft[0]] == l.ft;
    }
    assert Stepped(t, l, k, len, true, now) == r;
  }

  /** Class 1 leaves with 60000 bytes. */
  lemma FirstLeaves(now: nat)
    ensures var l := Pair(Fair(0, 0, 1, 1), Fair(0, 0, 1, 1), 1, 1, [1, 2]);
      Formed(TwoClasses(), l) && UpdateFrom(TwoClasses(), l, 1, 60000, true, now) == Pair(Fair(60000, 0, 1, 1), Fair(0, 0, 1, 1), 0, 1, [2])
  {
    var t, l := TwoClasses(), Pair(Fair(0, 0, 1, 1), Fair(0, 0, 1, 1), 1, 1, [1, 2]);
    assert Dropped([1, 2], 1) == [2] by {
      assert Index([1, 2], 1) == 0;
    }
    assert l.sh[1 := l.sh[1].(total := 60000)] == [Idle(FAST), Fair(60000, 0, 1, 1), Fair(0, 0, 1, 1)];
    OneOff(t, l, 1, 60000, now);
  }

  lemma ServedOnce()
    ensures Served(Fair(0, 0, 1, 1), 60028, 0) == Fair(60028, 120700, 1, 1)
  {
  }

  lemma ServedTwice()
    ensures Served(Fair(60000, 120700, 2, 1), 20, 0) == Fair(60020, 120684, 2, 1)
  {
  }

  /** The last of a list stays where it is. */
  lemma ShiftedLast(list: seq<nat>, key: seq<nat>, i: nat)
    requires Within(list, |key|) && |list| == i + 1 && Distinct(list)
    ensures Shifted(list, key, list[i], true) == list
  {
    assert Index(list, list[i]) == i && At(Without(list, i), i, list[i]) == list;
  }

  /** Class 2 is served 60028 bytes. */
  lemma SecondServed(now: nat)
    ensures var l := Pair(Fair(60000, 0, 1, 1), Fair(0, 0, 1, 1), 0, 1, [2]);
      && Formed(TwoClasses(), l)
      && UpdateFrom(TwoClasses(), l, 2, 60028, false, now) == Pair(Fair(60000, 0, 1, 1), Fair(60028, 120700, 1, 1), 0, 1, [2])
  {
    ServedOnce();
    PairOn(Fair(60000, 0, 1, 1), Fair(0, 0, 1, 1), 0, 1, [2], 2, 60028, now, Fair(60028, 120700, 1, 1));
  }

  lemma BegunAgain()
    ensures Begun(Fair(60000, 0, 1, 1), FAST, 120700, 1) == Fair(60000, 120700, 2, 1)
  {
    assert X2Y(Restart(FAST, 0, 0), 120700) == 59999;
  }

  /** Class 1 joins again, at a virtual time its curve has not reached. */
  lemma FirstRejoins(now: nat)
    ensures var l := Pair(Fair(60000, 0, 1, 1), Fair(60028, 120700, 1, 1), 0, 1, [2]);
      Formed(TwoClasses(), l) && InitFrom(TwoClasses(), l, 1, true, now) == Pair(Fair(60000, 120700, 2, 1), Fair(60028, 120700, 1, 1), 1, 1, [2, 1])
  {
    var t, l := TwoClasses(), Pair(Fair(60000, 0, 1, 1), Fair(60028, 120700, 1, 1), 0, 1, [2]);
    OneUp(t, l, 1, now);
    BegunAgain();
    assert StartVt(t, l, 1) == 120700 && Found(t, l, 1) == l.sh;
    assert Started(t, l, 1) == [Idle(FAST), Fair(60000, 120700, 2, 1), Fair(60028, 120700, 1, 1)];
    assert At([2], 1, 1) == [2, 1];
  }

  /** And is set back. */
  lemma FirstSetBack(now: nat)
    ensures var l := Pair(Fair(60000, 120700, 2, 1), Fair(60028, 120700, 1, 1), 1, 1, [2, 1]);
      && Formed(TwoClasses(), l)
      && UpdateFrom(TwoClasses(), l, 1, 20, false, now) == Pair(Fair(60020, 120684, 2, 1), Fair(60028, 120700, 1, 1), 1, 1, [2, 1])
  {
    ServedTwice();
    PairOn(Fair(60000, 120700, 2, 1), Fair(60028, 120700, 1, 1), 1, 1, [2, 1], 1, 20, now, Fair(60020, 120684, 2, 1));
  }

  /** The scheduler with packets q1 and q2 in the queues of the two classes, and link
      sharing at l; class 1 has real-time service r. */
  ghost predicate Stands(s: Scheduler, q1: seq<nat>, q2: seq<nat>, l: Links, r: RealTime)
    reads s
  {
    && s.Valid() && s.T() == TwoClasses() && s.rsc == [None, Some(FAST), None] && s.limit == [50, 50, 50]
    && |s.queue| == 3 && s.queue[0] == [] && s.queue[1] == q1 && s.queue[2] == q2
    && s.Now() == l && s.rt[1] == r && s.cache.None?
  }

  /** One more packet for class 1. */
  method SendFirst(s: Scheduler, len: nat, ghost q1: seq<nat>, ghost q2: seq<nat>, ghost l: Links, ghost r: RealTime)
    requires |q1| < 50 && Stands(s, q1, q2, l, r)
    modifies s
    ensures Stands(s, q1 + [len], q2, if q1 == [] then InitFrom(TwoClasses(), l, 1, true, 0) else l, if q1 == [] then Begin(r, FAST, 0, len) else r)
  {
    var queued := s.Enqueue(Some(1), len, 0);
  }

  /** One more packet for class 2. */
  method SendSecond(s: Scheduler, len: nat, ghost q1: seq<nat>, ghost q2: seq<nat>, ghost l: Links, ghost r: RealTime)
    requires |q2| < 50 && Stands(s, q1, q2, l, r)
    modifies s
    ensures Stands(s, q1, q2 + [len], if q2 == [] then InitFrom(TwoClasses(), l, 2, true, 0) else l, r)
  {
    var queued := s.Enqueue(Some(2), len, 0);
  }

  /** Class 1 is served as real-time service once it is eligible. */
  method TakeFirst(s: Scheduler, now: nat, ghost q1: seq<nat>, ghost q2: seq<nat>, ghost l: Links, ghost r: RealTime)
    requires q1 != [] && r.e <= now && Stands(s, q1, q2, l, r)
    modifies s
    ensures Stands(s, q1[1..], q2, UpdateFrom(TwoClasses(), l, 1, q1[0], |q1| == 1, now), Progress(r, Some(FAST), true, q1))
  {
    InTime(s.rsc, s.queue, s.rt, s.list);
    TotalLeast(s.queue, 1);
    assert s.SomeEligible(now);
    var o := s.Dequeue(true, now);
  }

  /** Otherwise link sharing finds class 2, if it comes first. */
  method TakeSecond(s: Scheduler, remove: bool, now: nat, ghost q1: seq<nat>, ghost q2: seq<nat>, ghost l: Links, ghost r: RealTime)
    returns (o: Outcome)
    requires q2 != [] && (q1 == [] || r.e > now) && Stands(s, q1, q2, l, r)
    requires l.actc[0] != [] && l.actc[0][0] == 2 && Free(l.ft)
    modifies s
    ensures o == Packet(2, q2[0]) && |l.sh| == 3
    ensures var l1 := l.(sh := Raise(l.sh, 0, 2));
      if remove then Stands(s, q1, q2[1..], UpdateFrom(TwoClasses(), l1, 2, q2[0], |q2| == 1, now), r)
      else s.Valid() && s.Now() == l1
  {
    InTime(s.rsc, s.queue, s.rt, s.list);
    TotalLeast(s.queue, 2);
    assert !s.SomeEligible(now);
    assert TwoClasses().parent[2] == 0 && IsParent(TwoClasses().parent, 0);
    assert !s.Blocked(now) by {
      assert 2 in l.actc[0] && l.ft[2].f == 0;
    }
    o := s.Dequeue(remove, now);
    OnlySecond(TwoClasses().parent, l.actc, Fits(l.ft), o.class_, now);
    assert Raised(TwoClasses().parent, l.sh, 2) == Raise(l.sh, 0, 2) by {
      assert Raised(TwoClasses().parent, l.sh, 0) == l.sh;
    }
  }

  lemma OnlySecond(parent: seq<nat>, actc: seq<seq<nat>>, fit: seq<nat>, c: nat, now: nat)
    requires parent == [0, 0, 0] && |actc| == |fit| == 3 && c < 3 && c > 0 && FirstPath(parent, actc, fit, c, now)
    requires actc[0] != [] && actc[0][0] == 2 && fit[2] == 0
    ensures c == 2
  {
  }

  /** The real-time service of class 1 after its first packet came and after it went. */
  function Early(): RealTime {
    Begin(Untimed(Some(FAST)), FAST, 0, 60000)
  }

  function Later(): RealTime {
    Early().(cumul := 60000)
  }

  lemma Times()
    ensures Early().e == 0 && Progress(Early(), Some(FAST), true, [60000]) == Later()
    ensures Begin(Later(), FAST, 0, 20).e == 120644
    ensures Progress(Begin(Later(), FAST, 0, 20), Some(FAST), true, [20, 20]).e == 120684
  {
  }

  /** How the run goes on: class 1 has come, class 2 has come, the long packets have
      gone, class 1 has come again. */
  ghost predicate StageIs(s: Scheduler, n: nat)
    reads s
  {
    match n
    case 0 => Stands(s, [60000], [], Pair(Fair(0, 0, 1, 1), Idle(FAST), 1, 0, [1]), Early())
    case 1 => Stands(s, [60000], [60028, 20], Pair(Fair(0, 0, 1, 1), Fair(0, 0, 1, 1), 1, 1, [1, 2]), Early())
    case 2 => Stands(s, [], [20], Pair(Fair(60000, 0, 1, 1), Fair(60028, 120700, 1, 1), 0, 1, [2]), Later())
    case _ => Stands(s, [20, 20], [20], Pair(Fair(60000, 120700, 2, 1), Fair(60028, 120700, 1, 1), 1, 1, [2, 1]), Begin(Later(), FAST, 0, 20))
  }

  ghost predicate Stage(s: Scheduler, n: nat)
    reads s
  {
    forall m {:trigger Inside(m)} :: Inside(m) ==> StageIs(s, n)
  }

  method Fill() returns (s: Scheduler)
    ensures fresh(s) && Stage(s, 0)
  {
    FastOk();
    s := Make(Some(FAST));
    FirstJoins(0);
    SendFirst(s, 60000, [], [], Pair(Idle(FAST), Idle(FAST), 0, 0, []), Untimed(Some(FAST)));
    assert [] + [60000] == [60000];
    assert StageIs(s, 0);
  }

  method FillSecond(s: Scheduler)
    requires Stage(s, 0)
    modifies s
    ensures Stage(s, 1)
  {
    assert Inside(0);
    SendBoth(s, Early());
    assert StageIs(s, 1);
  }

  method SendBoth(s: Scheduler, ghost r: RealTime)
    requires Stands(s, [60000], [], Pair(Fair(0, 0, 1, 1), Idle(FAST), 1, 0, [1]), r)
    modifies s
    ensures Stands(s, [60000], [60028, 20], Pair(Fair(0, 0, 1, 1), Fair(0, 0, 1, 1), 1, 1, [1, 2]), r)
  {
    SecondJoins(0);
    SendSecond(s, 60028, [60000], [], Pair(Fair(0, 0, 1, 1), Idle(FAST), 1, 0, [1]), r);
    assert [] + [60028] == [60028] && [60028] + [20] == [60028, 20];
    SendSecond(s, 20, [60000], [60028], Pair(Fair(0, 0, 1, 1), Fair(0, 0, 1, 1), 1, 1, [1, 2]), r);
  }

  method Empty(s: Scheduler)
    requires Stage(s, 1)
    modifies s
    ensures Stage(s, 2)
  {
    assert Inside(0);
    Times();
    FirstLeaves(0);
    TakeFirst(s, 0, [60000], [60028, 20], Pair(Fair(0, 0, 1, 1), Fair(0, 0, 1, 1), 1, 1, [1, 2]), Early());
    assert [60000][1..] == [];
    TakeLong(s, Later());
    assert StageIs(s, 2);
  }

  method TakeLong(s: Scheduler, ghost r: RealTime)
    requires Stands(s, [], [60028, 20], Pair(Fair(60000, 0, 1, 1), Fair(0, 0, 1, 1), 0, 1, [2]), r)
    modifies s
    ensures Stands(s, [], [20], Pair(Fair(60000, 0, 1, 1), Fair(60028, 120700, 1, 1), 0, 1, [2]), r)
  {
    ghost var l := Pair(Fair(60000, 0, 1, 1), Fair(0, 0, 1, 1), 0, 1, [2]);
    SecondServed(0);
    assert l.(sh := Raise(l.sh, 0, 2)) == l;
    assert [60028, 20][1..] == [20];
    var o := TakeSecond(s, true, 0, [], [60028, 20], l, r);
  }

  method Refill(s: Scheduler)
    requires Stage(s, 2)
    modifies s
    ensures Stage(s, 3)
  {
    assert Inside(0);
    FirstRejoins(0);
    SendFirst(s, 20, [], [20], Pair(Fair(60000, 0, 1, 1), Fair(60028, 120700, 1, 1), 0, 1, [2]), Later());
    assert [] + [20] == [20] && [20] + [20] == [20, 20];
    SendFirst(s, 20, [20], [20], Pair(Fair(60000, 120700, 2, 1), Fair(60028, 120700, 1, 1), 1, 1, [2, 1]), Begin(Later(), FAST, 0, 20));
    assert StageIs(s, 3);
  }

  /** Class 1 is served as real-time service and set back; then class 2 is chosen,
      which has the larger virtual time. */
  method ServeSetBack(s: Scheduler) returns (o: Outcome)
    requires Stage(s, 3)
    modifies s
    ensures s.Valid() && o == Packet(2, 20) && |s.sh| == |s.ft| == 3
    ensures s.actc[0] == [2, 1] && s.ft[1].f == 0 && s.sh[1].vt == 120684 && s.sh[2].vt == 120700
  {
    assert Inside(0);
    ghost var l := Pair(Fair(60000, 120700, 2, 1), Fair(60028, 120700, 1, 1), 1, 1, [2, 1]);
    ghost var r := Begin(Later(), FAST, 0, 20);
    Times();
    FirstSetBack(120644);
    TakeFirst(s, 120644, [20, 20], [20], l, r);
    assert [20, 20][1..] == [20];
    o := ShowOther(s, Progress(r, Some(FAST), true, [20, 20]));
  }

  method ShowOther(s: Scheduler, ghost r: RealTime) returns (o: Outcome)
    requires Stands(s, [20], [20], Pair(Fair(60020, 120684, 2, 1), Fair(60028, 120700, 1, 1), 1, 1, [2, 1]), r) && r.e > 120644
    modifies s
    ensures s.Valid() && o == Packet(2, 20) && |s.sh| == |s.ft| == 3
    ensures s.actc[0] == [2, 1] && s.ft[1].f == 0 && s.sh[1].vt == 120684 && s.sh[2].vt == 120700
  {
    o := TakeSecond(s, false, 120644, [20], [20], Pair(Fair(60020, 120684, 2, 1), Fair(60028, 120700, 1, 1), 1, 1, [2, 1]), r);
  }

  /** A class with a smaller virtual time is passed over: class 1 joins again behind
      class 2 at the same virtual time, is set back when it is served as real-time
      service, and stays where it is. */
  method PassedOver() returns (s: Scheduler, o: Outcome)
    ensures s.Valid() && o == Packet(2, 20) && |s.sh| == |s.ft| == 3
    ensures s.actc[0] == [2, 1] && s.ft[1].f == 0 && s.sh[1].vt == 120684 && s.sh[2].vt == 120700
  {
    s := Fill();
    FillSecond(s);
    Empty(s);
    Refill(s);
    o := ServeSetBack(s);
  }

  // ----- a limit of a sibling

  const START: nat := 0x4000_0000

  /** Class 1 has the children 2, with an upper limit, and 3. */
  function Siblings(): Tree {
    Tree([0, 0, 1, 1], [FAST, FAST, FAST, FAST], [None, None, Some(FAST), None], 10_737_418)
  }

  function NoLimit(f: nat, least: nat): Fit {
    Unopened(None).(f := f, least := least)
  }

  function Capped(f: nat): Fit {
    Fit(f, f, 0, 0, Restart(FAST, START, 0))
  }

  /** Class 2 active and alone, with some bytes served and fitting from f on. */
  function Alone(total: nat, vt: nat, f: nat): Links {
    Links([0, 1, 1, 0], [[1], [2], [], []],
          [Idle(FAST), Fair(total, vt, 1, 1), Fair(total, vt, 1, 1), Idle(FAST)],
          [NoLimit(0, f), NoLimit(f, f), Capped(f), NoLimit(0, 0)])
  }

  function Asleep(): Links {
    Links([0, 0, 0, 0], [[], [], [], []], [Idle(FAST), Idle(FAST), Idle(FAST), Idle(FAST)],
          [NoLimit(0, 0), NoLimit(0, 0), Unopened(Some(FAST)), NoLimit(0, 0)])
  }

  /** Halfway: class 2 has joined, class 1 not yet. */
  function Half(): Links {
    Links([0, 0, 1, 0], [[], [2], [], []], [Idle(FAST), Idle(FAST), Fair(0, 0, 1, 1), Idle(FAST)],
          [NoLimit(0, 0), NoLimit(0, START), Capped(START), NoLimit(0, 0)])
  }

  lemma CappedJoins()
    ensures Formed(Siblings(), Asleep()) && Climbed(Siblings(), Asleep(), 2, true, START) == Half()
  {
    var t, l := Siblings(), Asleep();
    assert Renewed(t.parent, l.sh, 1) == l.sh;
    assert Begun(Idle(FAST), FAST, 0, 1) == Fair(0, 0, 1, 1);
    assert Started(t, l, 2) == [Idle(FAST), Idle(FAST), Fair(0, 0, 1, 1), Idle(FAST)];
    assert At([], 0, 2) == [2];
    var j := Joined(t, l, 2);
    assert Opened(j.ft[2], t.usc[2], 0, START) == Capped(START).(f := 0);
    var ft := j.ft[2 := Capped(START)];
    assert Soonest(ft, [2]) == START;
    assert Recomputed(ft, [2], 1) == Half().ft;
    assert Limited(t, j, 2, true, START) == Half();
  }

  lemma AboveJoins()
    ensures Formed(Siblings(), Half()) && Climbed(Siblings(), Half(), 1, true, START) == Alone(0, 0, START)
  {
    var t, l := Siblings(), Half();
    assert Renewed(t.parent, l.sh, 0) == l.sh;
    assert Begun(Idle(FAST), FAST, 0, 1) == Fair(0, 0, 1, 1);
    assert Started(t, l, 1) == [Idle(FAST), Fair(0, 0, 1, 1), Fair(0, 0, 1, 1), Idle(FAST)];
    assert At([], 0, 1) == [1];
    var j := Joined(t, l, 1);
    assert Opened(j.ft[1], t.usc[1], 0, START) == NoLimit(0, START);
    var ft := j.ft[1 := NoLimit(START, START)];
    assert Soonest(ft, [1]) == START;
    assert Recomputed(ft, [1], 0) == Alone(0, 0, START).ft;
    assert Limited(t, j, 1, true, START) == Alone(0, 0, START);
  }

  lemma ServedFair()
    ensures Served(Fair(0, 0, 1, 1), 1500, 0) == Fair(1500, 3016, 1, 1)
  {
  }

  lemma Small(n: nat)
    requires n < WORD
    ensures n % WORD == n
  {
  }

  lemma PassedCap()
    ensures Passed(Capped(START), Some(FAST), 1500, START, 10_737_418) == Capped(START + 3016).(f := START)
  {
    assert Y2X(Restart(FAST, START, 0), 1500) == START + 3016;
    Small(START + 3016);
  }

  /** Halfway: class 2 has been served, class 1 not yet. */
  function HalfServed(): Links {
    var f := START + 3016;
    Links([0, 1, 1, 0], [[1], [2], [], []], [Idle(FAST), Fair(0, 0, 1, 1), Fair(1500, 3016, 1, 1), Idle(FAST)],
          [NoLimit(0, START), NoLimit(START, f), Capped(f), NoLimit(0, 0)])
  }

  /** A service of class k alone on its list, in its parts. */
  lemma SteppedAs(t: Tree, l: Links, k: nat, len: nat, now: nat, x: Share, a: Fit)
    requires Formed(t, l) && 0 < k < |t.parent| && l.actc[t.parent[k]] == [k]
    requires x == Served(l.sh[k], len, l.sh[t.parent[k]].vtmin) && a == Passed(l.ft[k], t.usc[k], x.total, now, t.tick)
    ensures Stepped(t, l, k, len, false, now) == l.(sh := l.sh[k := x], ft := Settled(l.ft, [k], k, t.parent[k], a))
  {
    WentAs(t, l, k, x, a);
  }

  lemma WentAs(t: Tree, l: Links, k: nat, x: Share, a: Fit)
    requires Formed(t, l) && 0 < k < |t.parent| && l.actc[t.parent[k]] == [k]
    ensures Went(t, l, k, x, a, false) == l.(sh := l.sh[k := x], ft := Settled(l.ft, [k], k, t.parent[k], a))
  {
    var list := Shifted([k], Vts(l.sh[k := x]), k, true);
    assert list == [k] by {
      ShiftedLast([k], Vts(l.sh[k := x]), 0);
    }
    assert l.actc[t.parent[k] := list] == l.actc;
  }

  lemma SettledOnly(ft: seq<Fit>, k: nat, p: nat, a: Fit, f: nat)
    requires k < |ft| && p < |ft| && k != p && f == Max(a.own, a.least) != a.f
    ensures Settled(ft, [k], k, p, a) == ft[k := a.(f := f)][p := ft[p].(least := f)]
  {
    var ft' := ft[k := a.(f := f)];
    assert Soonest(ft', [k]) == ft'[k].f;
  }

  lemma CappedServed()
    ensures var l := Alone(0, 0, START);
      Formed(Siblings(), l) && Stepped(Siblings(), l, 2, 1500, false, START) == HalfServed()
  {
    var l, f := Alone(0, 0, START), START + 3016;
    ServedFair();
    PassedCap();
    SteppedAs(Siblings(), l, 2, 1500, START, Fair(1500, 3016, 1, 1), Capped(f).(f := START));
    SettledOnly(l.ft, 2, 1, Capped(f).(f := START), f);
  }

  lemma AboveServed()
    ensures Formed(Siblings(), HalfServed())
    ensures Stepped(Siblings(), HalfServed(), 1, 1500, false, START) == Alone(1500, 3016, START + 3016)
  {
    var l, f := HalfServed(), START + 3016;
    ServedFair();
    assert Passed(l.ft[1], None, 1500, START, 10_737_418) == NoLimit(START, f);
    assert l.sh[1 := Fair(1500, 3016, 1, 1)] == Alone(1500, 3016, f).sh;
    assert l.ft[1 := NoLimit(f, f)][0 := NoLimit(0, f)] == Alone(1500, 3016, f).ft;
    SteppedAs(Siblings(), l, 1, 1500, START, Fair(1500, 3016, 1, 1), NoLimit(START, f));
    SettledOnly(l.ft, 1, 0, NoLimit(START, f), f);
  }

  /** Class 3 joins class 2, and the time kept for both stays as it is. */
  lemma FreeJoins()
    ensures var l, r := Alone(1500, 3016, START + 3016), InitFrom(Siblings(), Alone(1500, 3016, START + 3016), 3, true, START);
      Formed(Siblings(), l) && r.actc[0] == [1] && r.ft == l.ft
  {
    var t, l := Siblings(), Alone(1500, 3016, START + 3016);
    var j := Joined(t, l, 3);
    assert Opened(j.ft[3], t.usc[3], j.sh[3].total, START) == j.ft[3] && j.ft[3 := j.ft[3]] == j.ft;
    assert Limited(t, j, 3, true, START) == j == Climbed(t, l, 3, true, START);
    var c := j.(nactive := j.nactive[1 := 2]);
    assert c.ft[1 := c.ft[1]] == c.ft;
    assert Limited(t, c, 1, false, START) == c == Climbed(t, j, 1, true, START);
  }

  /** The scheduler with packets q2 and q3 in the queues of the siblings. */
  ghost predicate Rests(s: Scheduler, q2: seq<nat>, q3: seq<nat>, l: Links)
    reads s
  {
    && s.Valid() && s.T() == Siblings() && s.rsc == [None, None, None, None] && s.limit == [50, 50, 50, 50]
    && |s.queue| == 4 && s.queue[0] == s.queue[1] == [] && s.queue[2] == q2 && s.queue[3] == q3
    && s.Now() == l && s.cache.None?
  }

  method Build() returns (s: Scheduler)
    ensures fresh(s) && Rests(s, [], [], Asleep())
  {
    FastOk();
    s := new Scheduler(Siblings(), [None, None, None, None], [50, 50, 50, 50], None);
  }

  lemma BothJoin()
    ensures Formed(Siblings(), Asleep()) && InitFrom(Siblings(), Asleep(), 2, true, START) == Alone(0, 0, START)
  {
    CappedJoins();
    AboveJoins();
    assert InitFrom(Siblings(), Alone(0, 0, START), 0, true, START) == Alone(0, 0, START);
  }

  method SendCapped(s: Scheduler, ghost q: seq<nat>, ghost l: Links)
    requires |q| < 50 && Rests(s, q, [], l)
    modifies s
    ensures Rests(s, q + [1500], [], if q == [] then InitFrom(Siblings(), l, 2, true, START) else l)
  {
    var queued := s.Enqueue(Some(2), 1500, START);
  }

  /** Two packets for class 2. */
  method Load() returns (s: Scheduler)
    ensures fresh(s) && Rests(s, [1500, 1500], [], Alone(0, 0, START))
  {
    s := Build();
    BothJoin();
    SendCapped(s, [], Asleep());
    assert [] + [1500] == [1500] && [1500] + [1500] == [1500, 1500];
    SendCapped(s, [1500], Alone(0, 0, START));
  }

  lemma Downward(c: nat)
    requires 0 < c < 4
    ensures Raised(Siblings().parent, Alone(0, 0, START).sh, c) == Alone(0, 0, START).sh
  {
    var sh := Alone(0, 0, START).sh;
    assert Raised(Siblings().parent, sh, 0) == sh;
    assert Raised(Siblings().parent, sh, 1) == sh;
  }

  /** The first of them goes. */
  method Drain(s: Scheduler)
    requires Rests(s, [1500, 1500], [], Alone(0, 0, START))
    modifies s
    ensures Rests(s, [1500], [], Alone(1500, 3016, START + 3016))
  {
    InTime(s.rsc, s.queue, s.rt, s.list);
    TotalLeast(s.queue, 2);
    assert !s.SomeEligible(START);
    assert !s.Blocked(START) by {
      assert 1 in s.actc[0] && s.ft[1].f == START;
    }
    var o := s.Dequeue(true, START);
    Downward(o.class_);
    CappedServed();
    AboveServed();
    assert [1500, 1500][1..] == [1500];
  }

  /** A class without a limit, nor one above it, has to wait for its sibling's: it joins
      when the sibling does not fit yet, and the class above both still waits. */
  method Waits() returns (s: Scheduler, o: Outcome)
    ensures s.Valid() && s.T() == Siblings() && s.queue[3] == [100] && o.Nothing?
  {
    s := Load();
    Drain(s);
    SendFree(s);
    o := FindNone(s);
  }

  method SendFree(s: Scheduler)
    requires Rests(s, [1500], [], Alone(1500, 3016, START + 3016))
    modifies s
    ensures exists l :: Rests(s, [1500], [100], l) && l.actc[0] == [1] && l.ft == Alone(1500, 3016, START + 3016).ft
  {
    FreeJoins();
    var queued := s.Enqueue(Some(3), 100, START);
    assert [] + [100] == [100];
    assert Rests(s, [1500], [100], s.Now());
  }

  method FindNone(s: Scheduler) returns (o: Outcome)
    requires exists l :: Rests(s, [1500], [100], l) && l.actc[0] == [1] && l.ft == Alone(1500, 3016, START + 3016).ft
    modifies s
    ensures s.Valid() && s.T() == Siblings() && s.queue[3] == [100] && o.Nothing?
  {
    InTime(s.rsc, s.queue, s.rt, s.list);
    TotalLeast(s.queue, 3);
    assert s.Blocked(START) by {
      assert s.parent[1] == 0 && IsParent(s.parent, 0);
    }
    o := s.Dequeue(true, START);
  }
}
