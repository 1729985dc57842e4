/** Products that matter through their laws only. */
module Products {
  import opened Bits
  import opened Marks

  ghost predicate IsProduct(a: real, b: real, p: real) {
    forall n: nat {:trigger Inside(n)} :: Inside(n) ==> p == a * b
  }

  /** The product of two reals. */
  ghost function Times(a: real, b: real): real {
    assert IsProduct(a, b, a * b);
    var p :| IsProduct(a, b, p);
    p
  }

  lemma Product(a: real, b: real)
    ensures Times(a, b) == a * b
  {
    assert Inside(0);
  }

  lemma Distribute(m: real, a: real, b: real)
    ensures Times(m, a + b) == Times(m, a) + Times(m, b)
    ensures Times(m, a - b) == Times(m, a) - Times(m, b)
  {
    Product(m, a + b);
    Product(m, a - b);
    Product(m, a);
    Product(m, b);
  }

  lemma Slopes(m1: real, m2: real, d: real)
    ensures Times(m1 - m2, d) == Times(m1, d) - Times(m2, d)
  {
    Product(m1 - m2, d);
    Product(m1, d);
    Product(m2, d);
  }

  lemma Zero(m: real)
    ensures Times(m, 0.0) == 0.0
  {
    Product(m, 0.0);
  }

  lemma Sign(p: real, d: real)
    requires p > 0.0
    ensures d > 0.0 <==> Times(p, d) > 0.0
    ensures d < 0.0 <==> Times(p, d) < 0.0
  {
    Product(p, d);
  }

  lemma Order(p: real, a: real, b: real)
    requires p > 0.0
    ensures a <= b <==> Times(p, a) <= Times(p, b)
  {
    Distribute(p, b, a);
    Sign(p, b - a);
  }

  lemma Quotient(p: real, h: real)
    requires p > 0.0
    ensures Times(p, h / p) == h
  {
    Product(p, h / p);
  }

  // ----- whole numbers

  ghost function Whole(a: int, b: int): (p: int)
    ensures a >= 0 && b >= 0 ==> p >= 0
  {
    RealProduct(a, b);
    Times(a as real, b as real).Floor
  }

  lemma RealProduct(a: int, b: int)
    ensures Times(a as real, b as real) == (a * b) as real
    ensures a >= 0 && b >= 0 ==> a * b >= 0
  {
    Product(a as real, b as real);
  }

  lemma WholeProduct(a: int, b: int)
    ensures Whole(a, b) == a * b
  {
    RealProduct(a, b);
  }

  lemma Sum(a: int, b: int, c: int)
    ensures Whole(a + b, c) == Whole(a, c) + Whole(b, c)
  {
    WholeProduct(a, c);
    WholeProduct(b, c);
    WholeProduct(a + b, c);
    MulDistr(a, b, c);
  }

  lemma Mono(a: int, b: int, c: nat)
    requires a <= b
    ensures Whole(a, c) <= Whole(b, c)
  {
    WholeProduct(a, c);
    WholeProduct(b, c);
    MulMono(a, b, c);
  }

  lemma Unit(c: int)
    ensures Whole(0, c) == 0 && Whole(1, c) == c
  {
    WholeProduct(0, c);
    WholeProduct(1, c);
  }
}
