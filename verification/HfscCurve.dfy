/** Service curves of H-FSC: two-piece linear curves in fixed point, their inverse,
    and the update that keeps a runtime curve at the minimum of its restarts. */
module HfscCurve {
  import opened Bits

  const SM_SHIFT: nat := 0x100_0000
  const ISM_SHIFT: nat := 0x400
  const SHIFTS: nat := 0x4_0000_0000
  const HT_INFINITY: nat := 0xffff_ffff_ffff_ffff

  /** A service curve of a class: slopes (scaled by SM_SHIFT), inverse slopes (scaled
      by ISM_SHIFT) and the extent of the first piece. */
  datatype Isc = Isc(sm1: nat, ism1: nat, dx: nat, dy: nat, sm2: nat, ism2: nat)

  /** A runtime curve: a service curve from the point (x, y) on. */
  datatype Rtsc = Rtsc(x: nat, y: nat, sm1: nat, ism1: nat, dx: nat, dy: nat, sm2: nat, ism2: nat)

  // ----- fixed-point pieces

  function SegX2Y(x: nat, sm: nat): nat {
    x / SM_SHIFT * sm + x % SM_SHIFT * sm / SM_SHIFT
  }

  function SegY2X(y: nat, ism: nat): nat {
    if y == 0 then 0
    else if ism == HT_INFINITY then HT_INFINITY
    else y / ISM_SHIFT * ism + y % ISM_SHIFT * ism / ISM_SHIFT
  }

  lemma FloorSplit(q: nat, r: nat, s: nat, sm: nat)
    requires s > 0
    ensures q * sm + r * sm / s == (q * s + r) * sm / s
  {
    var p, m := r * sm, q * sm;
    assert (q * s + r) * sm == m * s + p by {
      assert q * s * sm == m * s;
    }
    DivAdd(m, p, s);
  }

  lemma DivAdd(m: nat, p: nat, s: nat)
    requires s > 0
    ensures (m * s + p) / s == m + p / s
  {
    var d, e := p / s, p % s;
    assert m * s + p == (m + d) * s + e;
    DivModUnique(m * s + p, s, m + d, e);
  }

  /** Splitting the product to avoid overflow loses nothing: the result is the whole
      product rounded down. */
  lemma SegX2YExact(x: nat, sm: nat)
    ensures SegX2Y(x, sm) == x * sm / SM_SHIFT
  {
    FloorSplit(x / SM_SHIFT, x % SM_SHIFT, SM_SHIFT, sm);
  }

  lemma SegY2XExact(y: nat, ism: nat)
    requires ism != HT_INFINITY
    ensures SegY2X(y, ism) == y * ism / ISM_SHIFT
  {
    FloorSplit(y / ISM_SHIFT, y % ISM_SHIFT, ISM_SHIFT, ism);
  }

  // ----- conversion from bits per second and milliseconds

  function M2Sm(m: nat, freq: nat): nat
    requires freq > 0
  {
    m * SM_SHIFT / 8 / freq
  }

  function M2Ism(m: nat, freq: nat): nat {
    if m == 0 then HT_INFINITY else freq * ISM_SHIFT * 8 / m
  }

  function Sc2Isc(m1: nat, d: nat, m2: nat, freq: nat): Isc
    requires freq > 0
  {
    var dx := d * freq / 1000;
    Isc(M2Sm(m1, freq), M2Ism(m1, freq), dx, SegX2Y(dx, M2Sm(m1, freq)), M2Sm(m2, freq), M2Ism(m2, freq))
  }

  /** The two roundings together never overshoot: slope times inverse slope is at
      most one, in scaled terms. */
  lemma SlopeProduct(m: nat, freq: nat)
    requires freq > 0 && m > 0
    ensures M2Sm(m, freq) * M2Ism(m, freq) <= SHIFTS
  {
    var sm, ism := M2Sm(m, freq), M2Ism(m, freq);
    assert sm * freq <= m * 0x20_0000 by {
      DivBelow(m * SM_SHIFT / 8, freq);
    }
    assert ism * m <= freq * 0x2000 by {
      DivBelow(freq * ISM_SHIFT * 8, m);
    }
    Products(sm, ism, m, freq);
  }

  lemma DivBelow(n: nat, d: nat)
    requires d > 0
    ensures n / d * d <= n
  {
  }

  lemma Products(sm: nat, ism: nat, m: nat, freq: nat)
    requires m > 0 && freq > 0 && sm * freq <= m * 0x20_0000 && ism * m <= freq * 0x2000
    ensures sm * ism <= SHIFTS
  {
    MulLe(sm * freq, m * 0x20_0000, ism * m, freq * 0x2000);
    var k := m * freq;
    assert sm * freq * (ism * m) == sm * ism * k;
    assert m * 0x20_0000 * (freq * 0x2000) == SHIFTS * k;
    if sm * ism > SHIFTS {
      MulLt(SHIFTS, sm * ism, k);
    }
  }

  lemma MulLe(a: nat, b: nat, c: nat, d: nat)
    requires a <= b && c <= d
    ensures a * c <= b * d
  {
    assert a * c <= b * c;
    assert b * c <= b * d;
  }

  lemma MulLt(a: nat, b: nat, k: nat)
    requires a < b && k > 0
    ensures a * k < b * k
  {
  }

  // ----- runtime curves

  function Restart(isc: Isc, x: nat, y: nat): Rtsc {
    Rtsc(x, y, isc.sm1, isc.ism1, isc.dx, isc.dy, isc.sm2, isc.ism2)
  }

  function X2Y(c: Rtsc, x: nat): nat {
    if x <= c.x then c.y
    else if x <= c.x + c.dx then c.y + SegX2Y(x - c.x, c.sm1)
    else c.y + c.dy + SegX2Y(x - c.x - c.dx, c.sm2)
  }

  function Y2X(c: Rtsc, y: nat): nat {
    if y < c.y then c.x
    else if y <= c.y + c.dy then
      if c.dy == 0 then c.x + c.dx else c.x + SegY2X(y - c.y, c.ism1)
    else c.x + c.dx + SegY2X(y - c.y - c.dy, c.ism2)
  }

  function Min(c: Rtsc, isc: Isc, x: nat, y: nat): Rtsc {
    if isc.sm1 <= isc.sm2 then
      if X2Y(c, x) < y then c else c.(x := x, y := y)
    else if X2Y(c, x) <= y then c
    else if X2Y(c, x + isc.dx) >= y + isc.dy then c.(x := x, y := y, dx := isc.dx, dy := isc.dy)
    else
      var dx := Meeting(c, isc, x, y);
      c.(x := x, y := y, dx := dx, dy := SegX2Y(dx, isc.sm1))
  }

  /** Where the restarted curve meets the old one, counted from x. */
  function Meeting(c: Rtsc, isc: Isc, x: nat, y: nat): nat
    requires isc.sm1 > isc.sm2 && X2Y(c, x) >= y
  {
    (X2Y(c, x) - y) * SM_SHIFT / (isc.sm1 - isc.sm2) + (if c.x + c.dx > x then c.x + c.dx - x else 0)
  }

  // ----- the inverse is monotone

  /** The second slope is positive and slopes match inverse slopes. */
  ghost predicate IscOk(isc: Isc) {
    && isc.dy == SegX2Y(isc.dx, isc.sm1)
    && isc.ism2 != HT_INFINITY
    && (isc.dy > 0 ==> isc.ism1 != HT_INFINITY && isc.sm1 * isc.ism1 <= SHIFTS)
    && (isc.ism1 == HT_INFINITY ==> isc.sm1 == 0)
    && (isc.ism1 != HT_INFINITY ==> isc.sm1 * isc.ism1 <= SHIFTS)
  }

  ghost predicate CurveOk(c: Rtsc, isc: Isc) {
    && IscOk(isc)
    && c.sm1 == isc.sm1 && c.ism1 == isc.ism1 && c.sm2 == isc.sm2 && c.ism2 == isc.ism2
    && c.dy == SegX2Y(c.dx, c.sm1)
  }

  lemma SegZero(x: nat)
    ensures SegX2Y(x, 0) == 0
  {
  }

  lemma InfinityNotFinite(m: nat, freq: nat)
    requires 0 < freq < 0x1_0000_0000 && m > 0
    ensures M2Ism(m, freq) != HT_INFINITY
  {
    DivBelow(freq * ISM_SHIFT * 8, m);
  }

  /** Curves made from rates in bits per second are well formed. */
  lemma Sc2IscOk(m1: nat, d: nat, m2: nat, freq: nat)
    requires 0 < freq < 0x1_0000_0000 && m2 > 0
    ensures IscOk(Sc2Isc(m1, d, m2, freq))
  {
    InfinityNotFinite(m2, freq);
    if m1 == 0 {
      SegZero(d * freq / 1000);
      assert M2Sm(0, freq) == 0;
    } else {
      InfinityNotFinite(m1, freq);
      SlopeProduct(m1, freq);
    }
  }

  lemma DivMono(a: nat, b: nat, d: nat)
    requires a <= b && d > 0
    ensures a / d <= b / d
  {
    var q := a / d;
    DivBelow(a, d);
    DivAdd(q, b - q * d, d);
  }

  lemma SegY2XMono(y: nat, y': nat, ism: nat)
    requires y <= y' && ism != HT_INFINITY
    ensures SegY2X(y, ism) <= SegY2X(y', ism)
  {
    SegY2XExact(y, ism);
    SegY2XExact(y', ism);
    MulMono(y, y', ism);
    DivMono(y * ism, y' * ism, ISM_SHIFT);
  }

  /** There and back over one piece never gains. */
  lemma SegBack(dx: nat, sm: nat, ism: nat)
    requires sm * ism <= SHIFTS && ism != HT_INFINITY
    ensures SegY2X(SegX2Y(dx, sm), ism) <= dx
  {
    var dy := SegX2Y(dx, sm);
    SegX2YExact(dx, sm);
    SegY2XExact(dy, ism);
    DivBelow(dx * sm, SM_SHIFT);
    var back := dy * ism / ISM_SHIFT;
    DivBelow(dy * ism, ISM_SHIFT);
    assert back * ISM_SHIFT <= dy * ism;
    assert dy * SM_SHIFT <= dx * sm;
    BackBound(dx, sm, ism, dy, back);
  }

  lemma BackBound(dx: nat, sm: nat, ism: nat, dy: nat, back: nat)
    requires back * ISM_SHIFT <= dy * ism && dy * SM_SHIFT <= dx * sm && sm * ism <= SHIFTS
    ensures back <= dx
  {
    MulLe(dy * SM_SHIFT, dx * sm, ism, ism);
    MulLe(dx, dx, sm * ism, SHIFTS);
    assert dx * sm * ism == dx * (sm * ism);
    assert dy * SM_SHIFT * ism == dy * ism * SM_SHIFT;
  }

  lemma FirstPiece(c: Rtsc, isc: Isc, y: nat)
    requires CurveOk(c, isc) && c.dy > 0 && c.y <= y <= c.y + c.dy
    ensures c.ism1 != HT_INFINITY && SegY2X(y - c.y, c.ism1) <= c.dx
  {
    if c.ism1 == HT_INFINITY {
      SegZero(c.dx);
    } else {
      SegY2XMono(y - c.y, c.dy, c.ism1);
      SegBack(c.dx, c.sm1, c.ism1);
    }
  }

  /** More service is reached no earlier, also across the break between the pieces. */
  lemma Y2XMono(c: Rtsc, isc: Isc, y: nat, y': nat)
    requires CurveOk(c, isc) && y <= y'
    ensures Y2X(c, y) <= Y2X(c, y')
  {
    if c.y <= y {
      if y' <= c.y + c.dy {
        if c.dy > 0 {
          FirstPiece(c, isc, y);
          SegY2XMono(y - c.y, y' - c.y, c.ism1);
        }
      } else if y <= c.y + c.dy {
        if c.dy > 0 {
          FirstPiece(c, isc, y);
        }
      } else {
        SegY2XMono(y - c.y - c.dy, y' - c.y - c.dy, c.ism2);
      }
    }
  }

  lemma MinOk(c: Rtsc, isc: Isc, x: nat, y: nat)
    requires CurveOk(c, isc)
    ensures CurveOk(Min(c, isc, x, y), isc)
  {
  }
}
