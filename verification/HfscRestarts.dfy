/** Runtime curves over whole histories: a curve that is updated at the start of each
    backlog period stays close to the pointwise minimum of the class's curve restarted
    at every one of them. */
module HfscRestarts {
  import opened HfscCurve
  import opened HfscRounding
  import opened Products
  import X = HfscExact

  /** Where a backlog period starts: the time, real or virtual, and the bytes served by
      then. */
  datatype Period = Period(x: nat, y: nat)

  /** The curve from the origin, updated at the start of each period. */
  ghost function Restarts(isc: Isc, periods: seq<Period>): Rtsc {
    if periods == [] then Restart(isc, 0, 0)
    else
      var last := periods[|periods| - 1];
      Min(Restarts(isc, periods[..|periods| - 1]), isc, last.x, last.y)
  }

  lemma RestartsMore(isc: Isc, periods: seq<Period>, p: Period)
    ensures Restarts(isc, periods + [p]) == Min(Restarts(isc, periods), isc, p.x, p.y)
  {
    assert (periods + [p])[..|periods|] == periods;
  }

  /** The least height at t of the class's curve from the origin and from the start of
      each period. */
  ghost function LeastHeight(isc: Isc, periods: seq<Period>, t: nat): real {
    if periods == [] then Height(Restart(isc, 0, 0), isc, t)
    else
      var last := periods[|periods| - 1];
      X.Least(LeastHeight(isc, periods[..|periods| - 1], t), Height(Restart(isc, last.x, last.y), isc, t))
  }

  /** It is one of these heights, and no larger than any. */
  lemma {:induction false} LeastHeightIs(isc: Isc, periods: seq<Period>, t: nat)
    ensures var h := LeastHeight(isc, periods, t);
      && h <= Height(Restart(isc, 0, 0), isc, t)
      && (forall i :: 0 <= i < |periods| ==> h <= Height(Restart(isc, periods[i].x, periods[i].y), isc, t))
      && (h == Height(Restart(isc, 0, 0), isc, t)
          || exists i :: 0 <= i < |periods| && h == Height(Restart(isc, periods[i].x, periods[i].y), isc, t))
  {
    if periods != [] {
      var before := periods[..|periods| - 1];
      LeastHeightIs(isc, before, t);
      assert forall i :: 0 <= i < |before| ==> periods[i] == before[i];
    }
  }

  /** Times do not go back. */
  ghost predicate OnTime(periods: seq<Period>) {
    forall i, j :: 0 <= i <= j < |periods| ==> periods[i].x <= periods[j].x
  }

  ghost predicate Over(periods: seq<Period>, t: nat) {
    periods != [] ==> periods[|periods| - 1].x <= t
  }

  /** What rounding can add up to: for each period three bytes above, two bytes and a
      tick of slope difference below. */
  ghost predicate NearLeast(c: Rtsc, isc: Isc, periods: seq<Period>, t: nat) {
    var least, n := LeastHeight(isc, periods, t), |periods| as real;
    least - Times(Slope(isc.sm1) - Slope(isc.sm2) + 2.0, n) <= Height(c, isc, t) <= least + Times(3.0, n)
  }

  lemma OneMore(m: real, n: nat)
    ensures Times(m, (n + 1) as real) == Times(m, n as real) + m
  {
    assert (n + 1) as real == n as real + 1.0;
    Distribute(m, n as real, 1.0);
    Product(m, 1.0);
  }

  lemma NearMore(h: real, before: real, least: real, restart: real, p: real, n: nat)
    requires least - Times(p + 2.0, n as real) <= before <= least + Times(3.0, n as real)
    requires p > 0.0 && X.Least(before, restart) - p - 2.0 < h < X.Least(before, restart) + 3.0
    ensures var l := X.Least(least, restart);
      l - Times(p + 2.0, (n + 1) as real) <= h <= l + Times(3.0, (n + 1) as real)
  {
    OneMore(p + 2.0, n);
    OneMore(3.0, n);
    Product(p + 2.0, n as real);
    Product(3.0, n as real);
    assert (p + 2.0) * n as real >= 0.0;
  }

  /** A concave curve, after any number of periods in order of time, from the last on. */
  lemma {:induction false} AllPeriods(isc: Isc, periods: seq<Period>, t: nat)
    requires isc.sm1 > isc.sm2 && isc.dy == SegX2Y(isc.dx, isc.sm1) && OnTime(periods) && Over(periods, t)
    ensures Updatable(Restarts(isc, periods), isc, t) && NearLeast(Restarts(isc, periods), isc, periods, t)
    decreases |periods|
  {
    if periods == [] {
      Zero(3.0);
      Zero(Slope(isc.sm1) - Slope(isc.sm2) + 2.0);
    } else {
      var n := |periods| - 1;
      var before, last := periods[..n], periods[n];
      assert forall i :: 0 <= i < n ==> before[i] == periods[i];
      AllPeriods(isc, before, last.x);
      AllPeriods(isc, before, t);
      var c := Restarts(isc, before);
      MinRound(c, isc, last.x, last.y, t);
      SlopesOrdered(isc);
      NearMore(Height(Min(c, isc, last.x, last.y), isc, t), Height(c, isc, t), LeastHeight(isc, before, t),
               Height(Restart(isc, last.x, last.y), isc, t), Slope(isc.sm1) - Slope(isc.sm2), n);
    }
  }

  // ----- errors do add up

  /** Slopes of 1001 bytes and 1 byte a tick, the first for ten ticks. */
  const STEEP: Isc := Isc(1001 * 0x100_0000, 1, 10, 10010, 0x100_0000, 1024)

  const TWICE: seq<Period> := [Period(10, 9410), Period(1210, 10010)]

  lemma SteepSeg(x: nat, k: nat)
    ensures SegX2Y(x, k * SM_SHIFT) == x * k
  {
    SegX2YExact(x, k * SM_SHIFT);
    assert x * (k * SM_SHIFT) == x * k * SM_SHIFT;
    DivAdd(x * k, 0, SM_SHIFT);
  }

  lemma TwiceCurve()
    ensures Restarts(STEEP, TWICE) == Rtsc(1210, 10010, STEEP.sm1, 1, 0, 0, STEEP.sm2, 1024)
  {
    var c0 := Restart(STEEP, 0, 0);
    assert TWICE[..1] == [TWICE[0]] && TWICE[..1][..0] == [];
    SteepSeg(10, 1001);
    SteepSeg(10, 1);
    assert X2Y(c0, 10) == 10010 && X2Y(c0, 20) == 10020;
    var c1 := Min(c0, STEEP, 10, 9410);
    SteepSeg(0, 1001);
    assert Meeting(c0, STEEP, 10, 9410) == 600 * SM_SHIFT / (1000 * SM_SHIFT) == 0;
    assert c1 == Rtsc(10, 9410, STEEP.sm1, 1, 0, 0, STEEP.sm2, 1024);
    SteepSeg(1200, 1);
    SteepSeg(1210, 1);
    assert X2Y(c1, 1210) == 10610 && X2Y(c1, 1220) == 10620;
    assert Meeting(c1, STEEP, 1210, 10010) == 600 * SM_SHIFT / (1000 * SM_SHIFT) == 0;
    assert Restarts(STEEP, TWICE[..1]) == c1;
  }

  lemma SteepHeight(x: nat, y: nat, dx: nat, t: nat)
    requires x + dx <= t
    ensures X.Value(ShapeOf(STEEP), X.Curve(x as real, y as real, dx as real), t as real)
         == (y + 1001 * dx + (t - x - dx)) as real
  {
    Product(1001.0, dx as real);
    Product(1001.0, t as real - x as real);
    Product(1.0, t as real - x as real - dx as real);
    assert Slope(STEEP.sm1) == 1001.0 && Slope(STEEP.sm2) == 1.0;
  }

  /** One period costs at most two bytes and a tick of slope difference, here 1002; two
      such periods cost 1200. */
  lemma ErrorsAdd()
    ensures OnTime(TWICE) && TWICE[0].y <= TWICE[1].y && Slope(STEEP.sm1) - Slope(STEEP.sm2) + 2.0 == 1002.0
    ensures Height(Restarts(STEEP, TWICE), STEEP, 1220) == LeastHeight(STEEP, TWICE, 1220) - 1200.0
  {
    TwiceCurve();
    SteepHeight(1210, 10010, 0, 1220);
    SteepHeight(0, 0, 10, 1220);
    SteepHeight(10, 9410, 10, 1220);
    SteepHeight(1210, 10010, 10, 1220);
    assert TWICE[..1] == [TWICE[0]] && TWICE[..1][..0] == [];
    assert LeastHeight(STEEP, [], 1220) == 11220.0;
    assert LeastHeight(STEEP, TWICE[..1], 1220) == 11220.0;
  }

  // ----- convex curves

  /** A convex curve is always the class's own, from the origin or from the start of one
      of the periods. */
  lemma {:induction false} ConvexPeriods(isc: Isc, periods: seq<Period>)
    requires isc.sm1 <= isc.sm2
    ensures var c := Restarts(isc, periods);
      c == Restart(isc, 0, 0) || exists i :: 0 <= i < |periods| && c == Restart(isc, periods[i].x, periods[i].y)
  {
    if periods != [] {
      var n := |periods| - 1;
      var before := periods[..n];
      ConvexPeriods(isc, before);
      assert forall i :: 0 <= i < n ==> before[i] == periods[i];
      var c := Restarts(isc, before);
      if X2Y(c, periods[n].x) >= periods[n].y {
        assert Restarts(isc, periods) == Restart(isc, periods[n].x, periods[n].y);
      }
    }
  }

  // ----- when the curve is restarted

  /** A curve above the bytes served is restarted there, a convex one also if it is at
      them: it reads that time for them, or later. Otherwise it goes on. */
  lemma RestartsIff(c: Rtsc, isc: Isc, x: nat, y: nat)
    ensures var r := Min(c, isc, x, y);
      if X2Y(c, x) > y || (X2Y(c, x) == y && isc.sm1 <= isc.sm2) then r.x == x && r.y == y && Y2X(r, y) >= x else r == c
  {
  }

  // ----- moved curves

  function Displaced(c: Rtsc, b: nat): Rtsc {
    c.(x := c.x + b)
  }

  lemma DisplacedX2Y(c: Rtsc, b: nat, x: nat)
    ensures X2Y(Displaced(c, b), x + b) == X2Y(c, x)
  {
  }

  /** Updating a moved curve is moving the updated one. */
  lemma DisplacedMin(c: Rtsc, isc: Isc, b: nat, x: nat, y: nat)
    ensures Min(Displaced(c, b), isc, x + b, y) == Displaced(Min(c, isc, x, y), b)
  {
    DisplacedX2Y(c, b, x);
    DisplacedX2Y(c, b, x + isc.dx);
    assert x + b + isc.dx == x + isc.dx + b;
  }
}
