/** What rounding down costs the fixed-point curves: the projection stays within two
    bytes of the exact curve, and the update within a few bytes of the exact minimum. */
module HfscRounding {
  import opened HfscCurve
  import opened Products
  import X = HfscExact

  const SCALE: real := 16777216.0

  ghost function Slope(sm: nat): real {
    sm as real / SCALE
  }

  /** The exact curve with the same start and first piece. */
  ghost function Exact(c: Rtsc): X.Curve {
    X.Curve(c.x as real, c.y as real, c.dx as real)
  }

  ghost function ShapeOf(isc: Isc): X.Shape {
    X.Shape(Slope(isc.sm1), Slope(isc.sm2), isc.dx as real)
  }

  /** The exact height of a runtime curve at t. */
  ghost function Height(c: Rtsc, isc: Isc, t: nat): real {
    X.Value(ShapeOf(isc), Exact(c), t as real)
  }

  lemma FloorReal(n: nat, d: nat)
    requires d > 0
    ensures n as real / d as real - 1.0 < (n / d) as real <= n as real / d as real
  {
    var q, r := n / d, n % d;
    assert n == q * d + r;
    QuotientReal(n as real, d as real, q as real, r as real);
  }

  lemma QuotientReal(n: real, d: real, q: real, r: real)
    requires d > 0.0 && n == q * d + r && 0.0 <= r < d
    ensures n / d - 1.0 < q <= n / d
  {
    Quotient(d, n);
    Product(d, q);
    Product(d, q + 1.0);
    Order(d, q, n / d);
    Order(d, q + 1.0, n / d);
  }

  lemma ScaledProduct(x: nat, sm: nat)
    ensures Times(Slope(sm), x as real) == (x * sm) as real / SCALE
  {
    Product(Slope(sm), x as real);
    var a, b := x as real, sm as real;
    assert (x * sm) as real == a * b;
    assert b / SCALE * a == a * b / SCALE;
  }

  /** One piece rounds down by less than one byte. */
  lemma SegRound(x: nat, sm: nat)
    ensures Times(Slope(sm), x as real) - 1.0 < SegX2Y(x, sm) as real <= Times(Slope(sm), x as real)
  {
    SegX2YExact(x, sm);
    FloorReal(x * sm, SM_SHIFT);
    ScaledProduct(x, sm);
  }

  ghost predicate Matches(c: Rtsc, isc: Isc) {
    c.sm1 == isc.sm1 && c.sm2 == isc.sm2 && c.dy == SegX2Y(c.dx, c.sm1) && isc.dy == SegX2Y(isc.dx, isc.sm1)
  }

  /** The projection is the exact curve less rounding of under two bytes. */
  lemma X2YRound(c: Rtsc, isc: Isc, t: nat)
    requires Matches(c, isc)
    ensures Height(c, isc, t) - 2.0 < X2Y(c, t) as real <= Height(c, isc, t)
  {
    if t > c.x {
      if t <= c.x + c.dx {
        SegRound(t - c.x, c.sm1);
        assert (t - c.x) as real == t as real - c.x as real;
      } else {
        SegRound(c.dx, c.sm1);
        SegRound(t - c.x - c.dx, c.sm2);
        assert (t - c.x - c.dx) as real == t as real - c.x as real - c.dx as real;
      }
    }
  }

  // ----- the update

  /** A concave class curve and a runtime curve started before x whose first piece
      exceeds the class's by at most one byte's worth. */
  ghost predicate Updatable(c: Rtsc, isc: Isc, x: nat) {
    && Matches(c, isc) && isc.sm1 > isc.sm2 && c.x <= x
    && Times(Slope(isc.sm1) - Slope(isc.sm2), c.dx as real) <=
       Times(Slope(isc.sm1) - Slope(isc.sm2), isc.dx as real) + 1.0
  }

  /** The result is between these bounds of the exact minimum at t. */
  ghost predicate NearMin(r: Rtsc, c: Rtsc, isc: Isc, x: nat, y: nat, t: nat) {
    var least := X.Least(Height(c, isc, t), Height(Restart(isc, x, y), isc, t));
    least - (Slope(isc.sm1) - Slope(isc.sm2)) - 2.0 < Height(r, isc, t) < least + 3.0
  }

  lemma SlopesOrdered(isc: Isc)
    requires isc.sm1 > isc.sm2
    ensures Slope(isc.sm1) > Slope(isc.sm2) >= 0.0
  {
  }

  /** Height of a restart, from its start on. */
  lemma RestartHeight(isc: Isc, x: nat, y: nat, dx: nat, t: nat)
    requires isc.sm1 > isc.sm2 && x <= t
    ensures var m1, m2, u := Slope(isc.sm1), Slope(isc.sm2), t as real - x as real;
      X.Value(ShapeOf(isc), X.Curve(x as real, y as real, dx as real), t as real) ==
      X.Least(y as real + Times(m1, u), y as real + Times(m1 - m2, dx as real) + Times(m2, u))
  {
    SlopesOrdered(isc);
    X.TwoLines(ShapeOf(isc), X.Curve(x as real, y as real, dx as real), x as real, t as real);
    X.NewCurve(ShapeOf(isc), x as real, y as real, dx as real);
  }

  /** The old curve: its steep and flat heights at x, and its height from x on. */
  lemma OldHeight(c: Rtsc, isc: Isc, x: nat, t: nat)
    requires Updatable(c, isc, x) && x <= t
    ensures var m1, m2, u := Slope(isc.sm1), Slope(isc.sm2), t as real - x as real;
      var s, f := X.Steep(ShapeOf(isc), Exact(c), x as real), X.Flat(ShapeOf(isc), Exact(c), x as real);
      && Height(c, isc, t) == X.Least(s + Times(m1, u), f + Times(m2, u))
      && Height(c, isc, x) == X.Least(s, f)
      && f - s == Times(m1 - m2, c.x as real + c.dx as real - x as real)
  {
    SlopesOrdered(isc);
    X.TwoLines(ShapeOf(isc), Exact(c), x as real, t as real);
    X.ValueLeast(ShapeOf(isc), Exact(c), x as real);
    X.Gap(ShapeOf(isc), Exact(c), x as real);
  }

  lemma KeepNear(c: Rtsc, isc: Isc, x: nat, y: nat, t: nat)
    requires Updatable(c, isc, x) && x <= t && X2Y(c, x) <= y
    ensures NearMin(c, c, isc, x, y, t)
  {
    var p, u := Slope(isc.sm1) - Slope(isc.sm2), t as real - x as real;
    SlopesOrdered(isc);
    X2YRound(c, isc, x);
    OldHeight(c, isc, x, t);
    RestartHeight(isc, x, y, isc.dx, t);
    var r := c.x as real + c.dx as real - x as real;
    Sign(p, r);
    Order(p, r, c.dx as real);
    Sign(p, isc.dx as real);
    Slopes(Slope(isc.sm1), Slope(isc.sm2), u);
    Sign(p, u);
  }

  /** The old curve at the end of the class's first piece, as projected. */
  lemma EndRound(c: Rtsc, isc: Isc, x: nat, y: nat)
    requires Updatable(c, isc, x)
    ensures var p, k := Slope(isc.sm1) - Slope(isc.sm2), ShapeOf(isc);
      var s, f := X.Steep(k, Exact(c), x as real), X.Flat(k, Exact(c), x as real);
      var end := X.Least(s - y as real, f - (y as real + Times(p, isc.dx as real)));
      && (X2Y(c, x + isc.dx) >= y + isc.dy ==> end > -1.0)
      && (X2Y(c, x + isc.dx) < y + isc.dy ==> end < 1.0)
  {
    SlopesOrdered(isc);
    X2YRound(c, isc, x + isc.dx);
    assert (x + isc.dx) as real == x as real + isc.dx as real;
    X.AtEnd(ShapeOf(isc), Exact(c), x as real, y as real);
    SegRound(isc.dx, isc.sm1);
  }

  lemma ReplaceNear(c: Rtsc, isc: Isc, x: nat, y: nat, t: nat)
    requires Updatable(c, isc, x) && x <= t && X2Y(c, x) > y && X2Y(c, x + isc.dx) >= y + isc.dy
    ensures NearMin(Restart(isc, x, y), c, isc, x, y, t)
  {
    SlopesOrdered(isc);
    X2YRound(c, isc, x);
    EndRound(c, isc, x, y);
    OldHeight(c, isc, x, t);
    RestartHeight(isc, x, y, isc.dx, t);
  }

  /** Projections add up over consecutive steps of one piece. */
  lemma SegSum(a: nat, b: nat, sm: nat)
    ensures SegX2Y(a + b, sm) >= SegX2Y(a, sm) + SegX2Y(b, sm)
  {
    SegX2YExact(a + b, sm);
    SegX2YExact(a, sm);
    SegX2YExact(b, sm);
    var q := a * sm / SM_SHIFT;
    assert (a + b) * sm == a * sm + b * sm;
    DivBelow(a * sm, SM_SHIFT);
    DivAdd(q, a * sm - q * SM_SHIFT + b * sm, SM_SHIFT);
    DivMono(b * sm, a * sm - q * SM_SHIFT + b * sm, SM_SHIFT);
  }

  /** The curves meet only past the first piece of the old curve. */
  lemma MeetPast(c: Rtsc, isc: Isc, x: nat, y: nat)
    requires Updatable(c, isc, x) && X2Y(c, x) > y && X2Y(c, x + isc.dx) < y + isc.dy
    ensures x + isc.dx > c.x + c.dx
  {
    if x + isc.dx <= c.x + c.dx {
      SegSum(x - c.x, isc.dx, isc.sm1);
      if x == c.x {
        SegZeroStep(isc.sm1);
      }
      assert false;
    }
  }

  lemma SegZeroStep(sm: nat)
    ensures SegX2Y(0, sm) == 0
  {
  }

  /** The meeting point, in bytes: rounding loses less than one clock tick. */
  lemma MeetRound(h: nat, isc: Isc)
    requires isc.sm1 > isc.sm2
    ensures var p := Slope(isc.sm1) - Slope(isc.sm2);
      h as real - p < Times(p, (h * SM_SHIFT / (isc.sm1 - isc.sm2)) as real) <= h as real
  {
    var n, d := h * SM_SHIFT, isc.sm1 - isc.sm2;
    var q, r := n / d, n % d;
    assert n == q * d + r;
    ScaledProduct(q, d);
    SlopeMinus(isc);
    assert Slope(d) == Slope(isc.sm1) - Slope(isc.sm2);
    assert (q * d) as real == h as real * SCALE - r as real;
    assert (q * d) as real / SCALE == h as real - r as real / SCALE;
  }

  lemma SlopeMinus(isc: Isc)
    requires isc.sm1 > isc.sm2
    ensures Slope(isc.sm1 - isc.sm2) == Slope(isc.sm1) - Slope(isc.sm2)
  {
  }

  /** The flat line after a meeting: close below the old curve's, and at most a byte
      above the restarted curve's. */
  lemma MeetFlat(c: Rtsc, isc: Isc, x: nat, y: nat)
    requires Updatable(c, isc, x) && X2Y(c, x) > y && X2Y(c, x + isc.dx) < y + isc.dy
    ensures var p := Slope(isc.sm1) - Slope(isc.sm2);
      var f, flat := X.Flat(ShapeOf(isc), Exact(c), x as real), y as real + Times(p, Meeting(c, isc, x, y) as real);
      f - 2.0 - p < flat <= f && f < y as real + Times(p, isc.dx as real) + 1.0
  {
    var p := Slope(isc.sm1) - Slope(isc.sm2);
    SlopesOrdered(isc);
    X2YRound(c, isc, x);
    OldHeight(c, isc, x, x);
    EndRound(c, isc, x, y);
    MeetPast(c, isc, x, y);
    var h := X2Y(c, x) - y;
    MeetRound(h, isc);
    var rest := if c.x + c.dx > x then c.x + c.dx - x else 0;
    Distribute(p, (h * SM_SHIFT / (isc.sm1 - isc.sm2)) as real, rest as real);
    assert Meeting(c, isc, x, y) as real == (h * SM_SHIFT / (isc.sm1 - isc.sm2)) as real + rest as real;
    Zero(p);
    var r := c.x as real + c.dx as real - x as real;
    Sign(p, r);
    Order(p, isc.dx as real, r);
  }

  lemma MeetNear(c: Rtsc, isc: Isc, x: nat, y: nat, t: nat)
    requires Updatable(c, isc, x) && x <= t && X2Y(c, x) > y && X2Y(c, x + isc.dx) < y + isc.dy
    ensures NearMin(Min(c, isc, x, y), c, isc, x, y, t)
  {
    SlopesOrdered(isc);
    X2YRound(c, isc, x);
    OldHeight(c, isc, x, t);
    MeetFlat(c, isc, x, y);
    RestartHeight(isc, x, y, isc.dx, t);
    RestartHeight(isc, x, y, Meeting(c, isc, x, y), t);
  }

  /** The fixed-point update of a concave curve: from x on it stays within three bytes
      above, and two bytes and one tick's service below, the pointwise minimum of the
      old and the restarted curve; and it can be updated again at any later time. */
  lemma MinRound(c: Rtsc, isc: Isc, x: nat, y: nat, t: nat)
    requires Updatable(c, isc, x) && x <= t
    ensures NearMin(Min(c, isc, x, y), c, isc, x, y, t)
    ensures Updatable(Min(c, isc, x, y), isc, t)
  {
    if X2Y(c, x) <= y {
      KeepNear(c, isc, x, y, t);
    } else if X2Y(c, x + isc.dx) >= y + isc.dy {
      ReplaceNear(c, isc, x, y, t);
    } else {
      MeetNear(c, isc, x, y, t);
      MeetFlat(c, isc, x, y);
    }
  }

  /** The same bound on the projections themselves. */
  lemma MinProjection(c: Rtsc, isc: Isc, x: nat, y: nat, t: nat)
    requires Updatable(c, isc, x) && x <= t
    ensures var r, a, b := X2Y(Min(c, isc, x, y), t), X2Y(c, t), X2Y(Restart(isc, x, y), t);
      var least := if a <= b then a else b;
      least as real - (Slope(isc.sm1) - Slope(isc.sm2)) - 4.0 < r as real < least as real + 5.0
  {
    MinRound(c, isc, x, y, t);
    X2YRound(c, isc, t);
    X2YRound(Restart(isc, x, y), isc, t);
    X2YRound(Min(c, isc, x, y), isc, t);
  }
}
