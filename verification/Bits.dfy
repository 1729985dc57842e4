/** Unsigned machine arithmetic on natural numbers: powers of two, bitwise
    operators, and bit strings written most significant bit first. */
module Bits {

  type u8 = x: nat | x < 256

  function Pow2(n: nat): (p: nat)
    ensures p >= 1
  {
    if n == 0 then 1 else 2 * Pow2(n - 1)
  }

  lemma {:induction false} Pow2Add(a: nat, b: nat)
    ensures Pow2(a + b) == Pow2(a) * Pow2(b)
  {
    if a == 0 {
    } else {
      Pow2Add(a - 1, b);
    }
  }

  lemma {:induction false} Pow2Mono(a: nat, b: nat)
    requires a <= b
    ensures Pow2(a) <= Pow2(b)
  {
    if a < b {
      Pow2Mono(a, b - 1);
    }
  }

  /** The powers that C integer widths and field widths turn into literals. */
  lemma Pow2Values()
    ensures Pow2(4) == 16 && Pow2(8) == 256 && Pow2(9) == 512 && Pow2(10) == 1024
    ensures Pow2(11) == 2048 && Pow2(12) == 4096 && Pow2(13) == 8192 && Pow2(14) == 16384
    ensures Pow2(15) == 32768 && Pow2(16) == 65536 && Pow2(24) == 0x100_0000
    ensures Pow2(32) == 0x1_0000_0000
  {
    Pow2Add(8, 8);
    Pow2Add(16, 8);
    Pow2Add(16, 16);
  }

  // ----- bitwise operators

  function Or(a: nat, b: nat): nat {
    if a == 0 && b == 0 then 0
    else 2 * Or(a / 2, b / 2) + (if a % 2 == 1 || b % 2 == 1 then 1 else 0)
  }

  function And(a: nat, b: nat): nat {
    if a == 0 || b == 0 then 0
    else 2 * And(a / 2, b / 2) + (if a % 2 == 1 && b % 2 == 1 then 1 else 0)
  }

  function Xor(a: nat, b: nat): nat {
    if a == 0 && b == 0 then 0
    else 2 * Xor(a / 2, b / 2) + (a + b) % 2
  }

  /** Shift left. */
  function Shl(a: nat, n: nat): nat {
    if n == 0 then a else 2 * Shl(a, n - 1)
  }

  lemma {:induction false} ShlPow2(a: nat, n: nat)
    ensures Shl(a, n) == a * Pow2(n)
  {
    if n > 0 {
      ShlPow2(a, n - 1);
    }
  }

  lemma {:induction false} XorBound(a: nat, b: nat, n: nat)
    requires a < Pow2(n) && b < Pow2(n)
    ensures Xor(a, b) < Pow2(n)
  {
    if n == 0 {
    } else {
      XorBound(a / 2, b / 2, n - 1);
    }
  }

  lemma {:induction false} OrBound(a: nat, b: nat, n: nat)
    requires a < Pow2(n) && b < Pow2(n)
    ensures Or(a, b) < Pow2(n)
  {
    if n == 0 {
    } else {
      OrBound(a / 2, b / 2, n - 1);
    }
  }

  lemma {:induction false} AndBound(a: nat, b: nat)
    ensures And(a, b) <= a && And(a, b) <= b
  {
    if a == 0 || b == 0 {
    } else {
      AndBound(a / 2, b / 2);
    }
  }

  lemma {:induction false} OrZero(a: nat)
    ensures Or(a, 0) == a
  {
    if a != 0 {
      OrZero(a / 2);
    }
  }

  /** Operands with no bit in common: the bitwise or is the sum. */
  lemma {:induction false} OrDisjoint(a: nat, b: nat, k: nat)
    requires b < Pow2(k)
    ensures Or(a * Pow2(k), b) == a * Pow2(k) + b
  {
    if k == 0 {
      OrZero(a);
    } else {
      var x := a * Pow2(k);
      var h := a * Pow2(k - 1);
      assert x == 2 * h;
      OrDisjoint(a, b / 2, k - 1);
      if x == 0 && b == 0 {
      } else {
        assert Or(x, b) == 2 * Or(h, b / 2) + (if b % 2 == 1 then 1 else 0);
      }
    }
  }

  // ----- bit strings

  /** The number a bit string denotes. */
  function Num(b: seq<bool>): nat {
    if b == [] then 0
    else 2 * Num(b[..|b| - 1]) + (if b[|b| - 1] then 1 else 0)
  }

  /** The low w bits of v. */
  function BitsOf(v: nat, w: nat): (b: seq<bool>)
    ensures |b| == w
  {
    if w == 0 then [] else BitsOf(v / 2, w - 1) + [v % 2 == 1]
  }

  lemma {:induction false} NumBound(b: seq<bool>)
    ensures Num(b) < Pow2(|b|)
  {
    if b != [] {
      NumBound(b[..|b| - 1]);
    }
  }

  lemma {:induction false} NumAppend(a: seq<bool>, b: seq<bool>)
    ensures Num(a + b) == Num(a) * Pow2(|b|) + Num(b)
  {
    if b == [] {
      assert a + b == a;
    } else {
      var b', bit := b[..|b| - 1], if b[|b| - 1] then 1 else 0;
      assert (a + b)[..|a + b| - 1] == a + b' && (a + b)[|a + b| - 1] == b[|b| - 1];
      NumAppend(a, b');
      assert Pow2(|b|) == 2 * Pow2(|b'|);
      OneMoreBit(Num(a), Pow2(|b'|), Num(b'), bit);
    }
  }

  lemma OneMoreBit(n: nat, p: nat, m: nat, bit: nat)
    ensures 2 * (n * p + m) + bit == n * (2 * p) + (2 * m + bit)
  {
  }

  lemma {:induction false} NumBitsOf(v: nat, w: nat)
    requires v < Pow2(w)
    ensures Num(BitsOf(v, w)) == v
  {
    if w > 0 {
      NumBitsOf(v / 2, w - 1);
      assert BitsOf(v, w)[..w - 1] == BitsOf(v / 2, w - 1);
    }
  }

  lemma {:induction false} BitsOfNum(b: seq<bool>)
    ensures BitsOf(Num(b), |b|) == b
  {
    if b != [] {
      BitsOfNum(b[..|b| - 1]);
    }
  }

  lemma MulAssoc(a: nat, b: nat, c: nat)
    ensures a * b * c == a * (b * c)
  {
  }

  lemma MulDistr(a: int, b: int, c: int)
    ensures (a + b) * c == a * c + b * c
  {
  }

  lemma MulMono(a: int, b: int, c: nat)
    requires a <= b
    ensures a * c <= b * c
  {
  }

  lemma DivModUnique(x: nat, d: nat, q: int, r: nat)
    requires d > 0 && r < d && x == q * d + r
    ensures x / d == q && x % d == r
  {
    var q', r' := x / d, x % d;
    assert x == q' * d + r';
    if q' < q {
      MulMono(q' + 1, q, d);
      MulDistr(q', 1, d);
    } else if q' > q {
      MulMono(q + 1, q', d);
      MulDistr(q, 1, d);
    }
  }

  lemma ScaledBound(v: nat, p: nat, f: nat)
    requires v < p && f > 0
    ensures v * f < p * f
  {
    MulMono(v + 1, p, f);
    MulDistr(v, 1, f);
  }

  lemma ScaleSum(n: nat, p: nat, v: nat, f: nat)
    ensures (n * p + v) * f == n * (p * f) + v * f
  {
    MulDistr(n * p, v, f);
    MulAssoc(n, p, f);
  }

  /** A 32-bit register that holds the bits q left-justified. */
  function Left32(q: seq<bool>): nat
    requires |q| <= 32
  {
    Num(q) * Pow2(32 - |q|)
  }

  lemma Left32Bound(q: seq<bool>)
    requires |q| <= 32
    ensures Left32(q) < 0x1_0000_0000
  {
    NumBound(q);
    ScaledBound(Num(q), Pow2(|q|), Pow2(32 - |q|));
    Pow2Add(|q|, 32 - |q|);
    Pow2Values();
  }

  /** Or-ing a w-bit field y in just below the bits the register x already holds. */
  lemma Left32Or(x: nat, y: nat, q: seq<bool>, v: nat, w: nat)
    requires |q| + w <= 32 && v < Pow2(w)
    requires x == Left32(q) && y == v * Pow2(32 - |q| - w)
    ensures Or(x, y) == Left32(q + BitsOf(v, w))
  {
    var s := 32 - |q| - w;
    Left32Append(q, v, w, s);
    OrField(x, y, Num(q), v, w, s);
  }

  lemma Left32Append(q: seq<bool>, v: nat, w: nat, s: nat)
    requires |q| + w + s == 32 && v < Pow2(w)
    ensures Left32(q) == Num(q) * Pow2(w + s)
    ensures Left32(q + BitsOf(v, w)) == (Num(q) * Pow2(w) + v) * Pow2(s)
  {
    NumAppend(q, BitsOf(v, w));
    NumBitsOf(v, w);
    assert 32 - |q| == w + s;
    assert 32 - |q + BitsOf(v, w)| == s;
  }

  lemma OrField(x: nat, y: nat, n: nat, v: nat, w: nat, s: nat)
    requires v < Pow2(w) && x == n * Pow2(w + s) && y == v * Pow2(s)
    ensures Or(x, y) == (n * Pow2(w) + v) * Pow2(s)
  {
    var p, f := Pow2(w), Pow2(s);
    Pow2Add(w, s);
    ScaledBound(v, p, f);
    ScaleSum(n, p, v, f);
    OrDisjoint(n, v * f, w + s);
  }

  /** Shifting the register right exposes its top n bits; shifting it left by n,
      with 32-bit truncation, drops them. */
  lemma Left32Take(q: seq<bool>, n: nat)
    requires n <= |q| <= 32
    ensures Left32(q) / Pow2(32 - n) == Num(q[..n])
    ensures Left32(q) * Pow2(n) % 0x1_0000_0000 == Left32(q[n..])
  {
    var r := q[n..];
    var m, t := |r|, 32 - |q|;
    assert q == q[..n] + r;
    NumAppend(q[..n], r);
    NumBound(r);
    Left32Bound(r);
    assert 32 - n == m + t && 32 - |r| == t + n;
    TakeArith(Left32(q), Num(q[..n]), Num(r), m, t, n, Left32(r));
  }

  lemma TakeArith(x: nat, hi: nat, low: nat, m: nat, t: nat, n: nat, y: nat)
    requires n + m + t == 32 && low < Pow2(m)
    requires x == (hi * Pow2(m) + low) * Pow2(t)
    requires y == low * Pow2(t + n) && y < 0x1_0000_0000
    ensures x / Pow2(m + t) == hi
    ensures x * Pow2(n) % 0x1_0000_0000 == y
  {
    Pow2Add(m, t);
    Pow2Add(t, n);
    Pow2Add(m + t, n);
    Pow2Values();
    ShiftArith(x, hi, low, Pow2(m), Pow2(t), Pow2(n), y);
  }

  lemma ShiftArith(x: nat, hi: nat, low: nat, M: nat, T: nat, N: nat, y: nat)
    requires M * T * N == 0x1_0000_0000 && low < M && T > 0
    requires x == (hi * M + low) * T
    requires y == low * (T * N) && y < 0x1_0000_0000
    ensures M * T > 0 && x / (M * T) == hi
    ensures x * N % 0x1_0000_0000 == y
  {
    assert x == hi * (M * T) + low * T by {
      ScaleSum(hi, M, low, T);
    }
    ScaledBound(low, M, T);
    DivModUnique(x, M * T, hi, low * T);
    assert x * N == hi * (M * T * N) + y by {
      ScaleSum(hi, M * T, low * T, N);
      MulAssoc(low, T, N);
    }
    DivModUnique(x * N, 0x1_0000_0000, hi, y);
  }

  // ----- byte strings as bit strings

  function BytesBits(s: seq<u8>): (b: seq<bool>)
    ensures |b| == 8 * |s|
  {
    if s == [] then [] else BytesBits(s[..|s| - 1]) + BitsOf(s[|s| - 1], 8)
  }

  lemma BytesBitsSnoc(s: seq<u8>, x: u8)
    ensures BytesBits(s + [x]) == BytesBits(s) + BitsOf(x, 8)
  {
    assert (s + [x])[..|s|] == s;
  }

  lemma {:induction false} BytesBitsAppend(a: seq<u8>, b: seq<u8>)
    ensures BytesBits(a + b) == BytesBits(a) + BytesBits(b)
  {
    if b == [] {
      assert a + b == a;
    } else {
      var b' := b[..|b| - 1];
      assert (a + b)[..|a + b| - 1] == a + b';
      BytesBitsAppend(a, b');
    }
  }
}
