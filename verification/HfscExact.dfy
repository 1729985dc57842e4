/** Concave service curves in exact arithmetic: the update keeps a runtime curve at
    the pointwise minimum of all its restarts. */
module HfscExact {
  import opened Products

  // ----- curves

  /** Slope m1 for dx from the point (x, y), then slope m2. */
  datatype Curve = Curve(x: real, y: real, dx: real)

  /** A concave service curve. */
  datatype Shape = Shape(m1: real, m2: real, dx: real)

  ghost predicate ShapeOk(k: Shape) {
    k.m1 > k.m2 >= 0.0 && k.dx >= 0.0
  }

  ghost function Value(k: Shape, c: Curve, t: real): real {
    if t <= c.x then c.y
    else if t <= c.x + c.dx then c.y + Times(k.m1, t - c.x)
    else c.y + Times(k.m1, c.dx) + Times(k.m2, t - c.x - c.dx)
  }

  ghost function Least(a: real, b: real): real {
    if a <= b then a else b
  }

  /** The update in exact arithmetic, for a concave curve. */
  ghost function Min(k: Shape, c: Curve, x: real, y: real): Curve
    requires k.m1 > k.m2
  {
    var y1 := Value(k, c, x);
    if y1 <= y then c
    else if Value(k, c, x + k.dx) >= y + Times(k.m1, k.dx) then Curve(x, y, k.dx)
    else Curve(x, y, (y1 - y) / (k.m1 - k.m2) + Rest(c, x))
  }

  /** What is left of the first piece after x. */
  ghost function Rest(c: Curve, x: real): real {
    if c.x + c.dx > x then c.x + c.dx - x else 0.0
  }

  // ----- a curve as the lesser of two lines

  /** From x on, a curve is the lesser of a steep and a flat line; Steep and Flat are
      their heights at x. */
  ghost function Steep(k: Shape, c: Curve, x: real): real {
    c.y + Times(k.m1, x - c.x)
  }

  ghost function Flat(k: Shape, c: Curve, x: real): real {
    c.y + Times(k.m1, c.dx) + Times(k.m2, x - c.x - c.dx)
  }

  /** The heights of the two lines differ by what is left of the first piece. */
  lemma Gap(k: Shape, c: Curve, x: real)
    ensures Flat(k, c, x) - Steep(k, c, x) == Times(k.m1 - k.m2, c.x + c.dx - x)
  {
    var r := c.x + c.dx - x;
    Distribute(k.m1, x - c.x, r);
    assert x - c.x + r == c.dx;
    Distribute(k.m2, 0.0, r);
    Zero(k.m2);
    assert 0.0 - r == x - c.x - c.dx;
    Slopes(k.m1, k.m2, r);
  }

  lemma ValueLeast(k: Shape, c: Curve, t: real)
    requires ShapeOk(k) && c.dx >= 0.0 && c.x <= t
    ensures Value(k, c, t) == Least(Steep(k, c, t), Flat(k, c, t))
  {
    Gap(k, c, t);
    Sign(k.m1 - k.m2, c.x + c.dx - t);
    Zero(k.m1);
  }

  lemma TwoLines(k: Shape, c: Curve, x: real, t: real)
    requires ShapeOk(k) && c.dx >= 0.0 && c.x <= x <= t
    ensures Value(k, c, t) == Least(Steep(k, c, x) + Times(k.m1, t - x), Flat(k, c, x) + Times(k.m2, t - x))
  {
    Distribute(k.m1, x - c.x, t - x);
    assert x - c.x + (t - x) == t - c.x;
    Distribute(k.m2, x - c.x - c.dx, t - x);
    assert x - c.x - c.dx + (t - x) == t - c.x - c.dx;
    ValueLeast(k, c, t);
  }

  // ----- one update

  /** The first piece of a runtime curve is no longer than the class's own. */
  ghost predicate CurveOk(k: Shape, c: Curve) {
    ShapeOk(k) && 0.0 <= c.dx <= k.dx
  }

  lemma NewCurve(k: Shape, x: real, y: real, d: real)
    ensures Steep(k, Curve(x, y, d), x) == y
    ensures Flat(k, Curve(x, y, d), x) == y + Times(k.m1 - k.m2, d)
  {
    Gap(k, Curve(x, y, d), x);
    Zero(k.m1);
  }

  /** At the end of the class's first piece. */
  lemma AtEnd(k: Shape, c: Curve, x: real, y: real)
    requires ShapeOk(k) && c.dx >= 0.0 && c.x <= x
    ensures Value(k, c, x + k.dx) - (y + Times(k.m1, k.dx)) ==
            Least(Steep(k, c, x) - y, Flat(k, c, x) - (y + Times(k.m1 - k.m2, k.dx)))
  {
    TwoLines(k, c, x, x + k.dx);
    assert x + k.dx - x == k.dx;
    Slopes(k.m1, k.m2, k.dx);
  }

  /** From x on, the updated curve's lines are the lesser of the old curve's and the
      restarted curve's; a steep line that is already past does not matter. */
  lemma MinLines(k: Shape, c: Curve, x: real, y: real)
    requires CurveOk(k, c) && c.x <= x
    ensures var r := Min(k, c, x, y);
      && CurveOk(k, r) && r.x <= x
      && Flat(k, r, x) == Least(Flat(k, c, x), y + Times(k.m1 - k.m2, k.dx))
      && (Steep(k, r, x) == Least(Steep(k, c, x), y) || (r == c && Flat(k, c, x) <= Least(Steep(k, c, x), y)))
  {
    var p, y1, r := k.m1 - k.m2, Value(k, c, x), Min(k, c, x, y);
    Gap(k, c, x);
    Sign(p, c.x + c.dx - x);
    Sign(p, k.dx);
    Order(p, c.x + c.dx - x, k.dx);
    ValueLeast(k, c, x);
    AtEnd(k, c, x, y);
    NewCurve(k, x, y, r.dx);
    if y1 > y && Value(k, c, x + k.dx) < y + Times(k.m1, k.dx) {
      Distribute(p, (y1 - y) / p, Rest(c, x));
      Quotient(p, y1 - y);
      Zero(p);
      Order(p, r.dx, k.dx);
      Order(p, 0.0, r.dx);
    }
  }

  /** For a concave curve, the update gives the pointwise minimum, from x on, of the
      old curve and the curve restarted at (x, y); its first piece is no longer than
      the class's own. */
  lemma MinPointwise(k: Shape, c: Curve, x: real, y: real, t: real)
    requires CurveOk(k, c) && c.x <= x <= t
    ensures CurveOk(k, Min(k, c, x, y)) && Min(k, c, x, y).x <= x
    ensures Value(k, Min(k, c, x, y), t) == Least(Value(k, c, t), Value(k, Curve(x, y, k.dx), t))
  {
    MinLines(k, c, x, y);
    TwoLines(k, c, x, t);
    TwoLines(k, Curve(x, y, k.dx), x, t);
    TwoLines(k, Min(k, c, x, y), x, t);
    NewCurve(k, x, y, k.dx);
    Zero(k.m1);
    Slopes(k.m1, k.m2, t - x);
    Sign(k.m1 - k.m2, t - x);
  }

  // ----- whole histories

  /** Where a backlog period starts: the clock and the service received so far. */
  datatype Start = Start(x: real, y: real)

  ghost predicate InOrder(x: real, starts: seq<Start>)
    decreases |starts|
  {
    starts != [] ==> x <= starts[0].x && InOrder(starts[0].x, starts[1..])
  }

  ghost function MinAll(k: Shape, c: Curve, starts: seq<Start>): Curve
    requires k.m1 > k.m2
    decreases |starts|
  {
    if starts == [] then c else MinAll(k, Min(k, c, starts[0].x, starts[0].y), starts[1..])
  }

  ghost function Lowest(k: Shape, c: Curve, starts: seq<Start>, t: real): real
    decreases |starts|
  {
    if starts == [] then Value(k, c, t)
    else Least(Value(k, Curve(starts[0].x, starts[0].y, k.dx), t), Lowest(k, c, starts[1..], t))
  }

  ghost function LastStart(x: real, starts: seq<Start>): real
    decreases |starts|
  {
    if starts == [] then x else LastStart(starts[0].x, starts[1..])
  }

  lemma {:induction false} LastLater(x: real, starts: seq<Start>)
    requires InOrder(x, starts)
    ensures x <= LastStart(x, starts)
    decreases |starts|
  {
    if starts != [] {
      LastLater(starts[0].x, starts[1..]);
    }
  }

  lemma {:induction false} LowestLeast(k: Shape, c: Curve, c': Curve, starts: seq<Start>, t: real, v: real)
    requires Value(k, c', t) == Least(Value(k, c, t), v)
    ensures Lowest(k, c', starts, t) == Least(Lowest(k, c, starts, t), v)
    decreases |starts|
  {
    if starts != [] {
      LowestLeast(k, c, c', starts[1..], t, v);
    }
  }

  /** After any number of restarts, in order of time, the two-piece runtime curve is,
      from the last restart on, the pointwise minimum of the first curve and every
      restarted curve. */
  lemma {:induction false} AllRestarts(k: Shape, c: Curve, x: real, starts: seq<Start>, t: real)
    requires CurveOk(k, c) && c.x <= x && InOrder(x, starts) && LastStart(x, starts) <= t
    ensures CurveOk(k, MinAll(k, c, starts))
    ensures Value(k, MinAll(k, c, starts), t) == Lowest(k, c, starts, t)
    decreases |starts|
  {
    if starts != [] {
      var s := starts[0];
      LastLater(s.x, starts[1..]);
      MinPointwise(k, c, s.x, s.y, t);
      var c' := Min(k, c, s.x, s.y);
      AllRestarts(k, c', s.x, starts[1..], t);
      LowestLeast(k, c, c', starts[1..], t, Value(k, Curve(s.x, s.y, k.dx), t));
    }
  }
}
