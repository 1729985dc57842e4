/** The double-hashed table that stores a BSD-Compress dictionary. Slots are
    never wiped: clearing the dictionary only lowers the largest code in use, so
    a slot may hold the remains of an earlier dictionary. */
module HashTable {
  import opened Bits
  import opened Lzw
  import opened Options

  /** The code that no slot in use ever carries. */
  const BADCODEM1: nat := 32767

  /** One table slot. The fields fcode and codem1 describe the entry stored in
      the slot; cptr belongs to the code numbered like the slot, and says where
      that code's entry was stored last. */
  datatype Slot = Slot(fcode: nat, codem1: nat, cptr: nat)

  function Key(e: Entry): nat {
    e.suffix * 65536 + e.prefix
  }

  /** The two halves of a stored key. */
  function KeyEntry(fcode: nat): Entry {
    Entry(fcode % 65536, fcode / 65536 % 256)
  }

  lemma KeyRoundTrip(e: Entry)
    requires e.prefix < 65536
    ensures KeyEntry(Key(e)) == e
  {
  }

  function Hash(e: Entry, hshift: nat): nat {
    Xor(Shl(e.suffix, hshift), e.prefix)
  }

  // ----- the table sizes

  /** Table size and hash shift for each supported code size. */
  function HashSize(bits: nat): nat {
    if bits <= 12 then 5003
    else if bits == 13 then 9001
    else if bits == 14 then 18013
    else 35023
  }

  function HashShift(bits: nat): nat {
    if bits <= 12 then 4
    else if bits == 13 then 5
    else if bits == 14 then 6
    else 7
  }

  /** Where the search for an entry starts. */
  function Home(e: Entry, bits: nat): nat {
    Hash(e, HashShift(bits))
  }

  /** Hash values are table indices, and the table is larger than the code space. */
  lemma HashInRange(e: Entry, bits: nat)
    requires 9 <= bits <= 15 && e.prefix <= MaxCode(bits)
    ensures Home(e, bits) < HashSize(bits)
    ensures MaxCode(bits) < HashSize(bits)
  {
    var n := HashShift(bits) + 8;
    Pow2Values();
    Pow2Mono(bits, n);
    assert Pow2(5) == 32 && Pow2(6) == 64 && Pow2(7) == 128;
    ShlPow2(e.suffix, HashShift(bits));
    XorBound(Shl(e.suffix, HashShift(bits)), e.prefix, n);
  }

  ghost predicate Prime(p: nat) {
    p >= 2 && forall d :: 2 <= d < p ==> p % d != 0
  }

  /** No divisor of p from d up to its square root. */
  predicate NoDivisorFrom(p: nat, d: nat)
    requires d >= 1
    decreases p - d
  {
    if d >= p || d * d > p then true
    else
      && p % d != 0 && p % (d + 1) != 0 && p % (d + 2) != 0
      && p % (d + 3) != 0 && p % (d + 4) != 0 && p % (d + 5) != 0
      && NoDivisorFrom(p, d + 6)
  }

  lemma {:induction false} NoDivisorAt(p: nat, d: nat, k: nat)
    requires 1 <= d <= k && NoDivisorFrom(p, d) && k * k <= p && k < p
    ensures p % k != 0
    decreases k - d
  {
    MulMono(d, k, d);
    MulMono(d, k, k);
    if k >= d + 6 {
      NoDivisorAt(p, d + 6, k);
    } else {
      assert k == d || k == d + 1 || k == d + 2 || k == d + 3 || k == d + 4 || k == d + 5;
    }
  }

  lemma PrimeBySearch(p: nat)
    requires p >= 2 && NoDivisorFrom(p, 2)
    ensures Prime(p)
  {
    forall d | 2 <= d < p
      ensures p % d != 0
    {
      if p % d == 0 {
        var k := SmallDivisor(p, d);
        NoDivisorAt(p, 2, k);
      }
    }
  }

  /** A number with a proper divisor has one up to its square root. */
  lemma SmallDivisor(p: nat, d: nat) returns (k: nat)
    requires 2 <= d < p && p % d == 0
    ensures 2 <= k < p && k * k <= p && p % k == 0
  {
    var q := p / d;
    assert p == d * q;
    CofactorBounds(p, d, q);
    if d <= q {
      MulMono(d, q, d);
      k := d;
    } else {
      MulMono(q, d, q);
      k := q;
    }
  }

  lemma CofactorBounds(p: nat, d: nat, q: nat)
    requires p == d * q && 2 <= d < p
    ensures 2 <= q < p && p % q == 0
  {
    MulMono(2, d, q);
    DivModUnique(p, q, d, 0);
  }

  /** The table sizes are prime. */
  lemma HashSizePrime(bits: nat)
    ensures Prime(HashSize(bits))
  {
    NoDivisor5003();
    NoDivisor9001();
    NoDivisor18013();
    NoDivisor35023();
    PrimeBySearch(HashSize(bits));
  }

  lemma NoDivisor5003()
    ensures NoDivisorFrom(5003, 2)
  {
    assert NoDivisorFrom(5003, 44);
  }

  lemma NoDivisor9001()
    ensures NoDivisorFrom(9001, 2)
  {
    assert NoDivisorFrom(9001, 50);
  }

  lemma NoDivisor18013()
    ensures NoDivisorFrom(18013, 2)
  {
    assert NoDivisorFrom(18013, 104);
    assert NoDivisorFrom(18013, 74);
    assert NoDivisorFrom(18013, 38);
  }

  lemma NoDivisor35023()
    ensures NoDivisorFrom(35023, 2)
  {
    NoLargeDivisor35023();
    assert NoDivisorFrom(35023, 68);
    assert NoDivisorFrom(35023, 38);
  }

  lemma NoLargeDivisor35023()
    ensures NoDivisorFrom(35023, 98)
  {
    assert NoDivisorFrom(35023, 158);
    assert NoDivisorFrom(35023, 128);
  }

  /** A prime divides no product of two smaller positive numbers. */
  lemma {:induction false} PrimeProduct(p: nat, k: nat, d: nat)
    requires Prime(p) && 0 < k < p && 0 < d < p
    ensures k * d % p != 0
    decreases d
  {
    if d == 1 {
    } else {
      var q, r := p / d, p % d;
      assert p == q * d + r;
      if k * d % p == 0 {
        PrimeProduct(p, k, r);
        var m := k * d / p;
        assert k * d == m * p;
        RemainderProduct(p, k, d, q, r, m);
      }
    }
  }

  lemma RemainderProduct(p: nat, k: nat, d: nat, q: nat, r: nat, m: nat)
    requires p > 0 && p == q * d + r && k * d == m * p
    ensures k * r % p == 0
  {
    calc {
      k * r;
      k * (p - q * d);
      k * p - k * (q * d);
      { assert k * (q * d) == q * (k * d); }
      k * p - q * (m * p);
      { assert q * (m * p) == (q * m) * p; }
      k * p - (q * m) * p;
      { MulDistr(k, -(q * m), p); }
      (k - q * m) * p;
    }
    DivModUnique(k * r, p, k - q * m, 0);
  }

  // ----- probing

  /** The probe step for a start slot. */
  function Step(h: nat): nat {
    if h == 0 then 1 else h
  }

  /** A slot index carried around the end of the table. */
  function Wrap(h: nat, hsize: nat): nat {
    if h >= hsize then h - hsize else h
  }

  /** The slot of probe number j. */
  function Probe(h: nat, j: nat, hsize: nat): (s: nat)
    requires h < hsize && 1 < hsize
    ensures s < hsize
  {
    if j == 0 then h
    else
      Wrap(Probe(h, j - 1, hsize) + Step(h), hsize)
  }

  lemma {:induction false} ProbeClosed(h: nat, j: nat, hsize: nat)
    requires h < hsize && 1 < hsize
    ensures Probe(h, j, hsize) == (h + j * Step(h)) % hsize
  {
    if j > 0 {
      ProbeClosed(h, j - 1, hsize);
      var x := h + (j - 1) * Step(h);
      assert h + j * Step(h) == x + Step(h) by {
        MulDistr(j - 1, 1, Step(h));
      }
      AddMod(x, Step(h), hsize);
    }
  }

  lemma AddMod(x: nat, y: nat, m: nat)
    requires y < m
    ensures (x + y) % m == Wrap(x % m + y, m)
  {
    var q, r := x / m, x % m;
    var s := r + y;
    if s >= m {
      MulDistr(q, 1, m);
      DivModUnique(x + y, m, q + 1, s - m);
    } else {
      DivModUnique(x + y, m, q, s);
    }
  }

  /** Different probes reach different slots. */
  lemma ProbeDistinct(h: nat, i: nat, j: nat, hsize: nat)
    requires Prime(hsize) && h < hsize && i < j < hsize
    ensures Probe(h, i, hsize) != Probe(h, j, hsize)
  {
    var d := Step(h);
    PrimeProduct(hsize, j - i, d);
    ProbeClosed(h, i, hsize);
    ProbeClosed(h, j, hsize);
    if Probe(h, i, hsize) == Probe(h, j, hsize) {
      MulMono(i, j, d);
      ProductDifference(i, j, d);
      SameRemainder(h + i * d, h + j * d, hsize);
    }
  }

  lemma ProductDifference(i: nat, j: nat, d: nat)
    ensures j * d - i * d == (j - i) * d
  {
  }

  lemma SameRemainder(x: nat, y: nat, m: nat)
    requires m > 0 && x <= y && x % m == y % m
    ensures (y - x) % m == 0
  {
    var a, b := x / m, y / m;
    assert x == a * m + x % m && y == b * m + x % m;
    MulDistr(b, -a, m);
    if b < a {
      MulMono(b + 1, a, m);
      MulDistr(b, 1, m);
    }
    DivModUnique(y - x, m, b - a, 0);
  }

  lemma {:induction false} PigeonHole(s: seq<nat>, m: nat)
    requires forall i :: 0 <= i < |s| ==> s[i] < m
    requires forall i, j :: 0 <= i < j < |s| ==> s[i] != s[j]
    ensures |s| <= m
  {
    if s != [] {
      assert s[0] < m;
      if m - 1 in s {
        var k :| 0 <= k < |s| && s[k] == m - 1;
        PigeonHole(s[..k] + s[k + 1..], m - 1);
      } else {
        PigeonHole(s, m - 1);
      }
    }
  }

  // ----- a table that stores a dictionary

  ghost predicate Shape(t: seq<Slot>, bits: nat) {
    9 <= bits <= 15 && |t| == HashSize(bits) && forall s :: 0 <= s < |t| ==> t[s].cptr < |t|
  }

  /** A slot that carries a code, current or stale, is where that code was stored
      last; so no two slots carry the same code. */
  ghost predicate Owned(t: seq<Slot>, bits: nat)
    requires Shape(t, bits)
  {
    MaxCode(bits) < |t| &&
    forall s :: 0 <= s < |t| && t[s].codem1 != BADCODEM1 ==>
      CLEAR <= t[s].codem1 < MaxCode(bits) && t[t[s].codem1 + 1].cptr == s
  }

  /** Code FIRST + i leads to a slot that stores entry i. */
  ghost predicate Stores(t: seq<Slot>, bits: nat, d: seq<Entry>)
    requires Shape(t, bits) && FIRST + |d| <= |t|
  {
    forall i :: 0 <= i < |d| ==>
      var s := t[FIRST + i].cptr; t[s].codem1 == CLEAR + i && t[s].fcode == Key(d[i])
  }

  /** The first j probes from h all meet codes up to the bound. */
  ghost predicate PathBelow(t: seq<Slot>, h: nat, j: nat, bound: nat)
    requires h < |t| && 1 < |t|
  {
    forall k :: 0 <= k < j ==> t[Probe(h, k, |t|)].codem1 < bound
  }

  /** Probe j for entry i is its slot, and the probes before it meet older codes. */
  ghost predicate ReachedAt(t: seq<Slot>, h: nat, i: nat, j: nat)
    requires h < |t| && FIRST + i < |t|
  {
    j < |t| && Probe(h, j, |t|) == t[FIRST + i].cptr && PathBelow(t, h, j, CLEAR + i)
  }

  ghost predicate Reached(t: seq<Slot>, bits: nat, d: seq<Entry>)
    requires Shape(t, bits) && FIRST + |d| <= |t|
  {
    forall i :: 0 <= i < |d| ==>
      Home(d[i], bits) < |t| && exists j: nat :: ReachedAt(t, Home(d[i], bits), i, j)
  }

  /** The table stores the dictionary d. */
  ghost predicate Represents(t: seq<Slot>, bits: nat, d: seq<Entry>) {
    && Shape(t, bits)
    && WellFormed(d) && MaxEnt(d) <= MaxCode(bits) <= BADCODEM1
    && Owned(t, bits)
    && Stores(t, bits, d)
    && Reached(t, bits, d)
  }

  /** Lowering the largest code in use forgets the dictionary, whatever the slots
      still hold. */
  lemma ForgetAll(t: seq<Slot>, bits: nat, d: seq<Entry>)
    requires Represents(t, bits, d)
    ensures Represents(t, bits, [])
  {
    Pow2Values();
  }

  /** A fresh table. */
  lemma FreshTable(t: seq<Slot>, bits: nat)
    requires 9 <= bits <= 15 && |t| == HashSize(bits)
    requires forall s :: 0 <= s < |t| ==> t[s].codem1 == BADCODEM1 && t[s].cptr == 0
    ensures Represents(t, bits, [])
  {
    Pow2Values();
  }

  lemma PrefixBound(d: seq<Entry>, i: nat, limit: nat)
    requires WellFormed(d) && i < |d| && MaxEnt(d) <= limit
    ensures d[i].prefix <= limit
  {
    assert IsCode(d[..i], d[i].prefix);
  }

  lemma KeyInjective(a: Entry, b: Entry)
    requires a.prefix < 65536 && b.prefix < 65536 && Key(a) == Key(b)
    ensures a == b
  {
    KeyRoundTrip(a);
    KeyRoundTrip(b);
  }

  /** Probing meets a slot not in use before it has gone through the table. */
  lemma ProbeEnds(t: seq<Slot>, bits: nat, h: nat, j: nat, maxEnt: nat)
    requires Shape(t, bits) && Owned(t, bits) && maxEnt <= MaxCode(bits) <= BADCODEM1
    requires h < |t| && j <= |t| && PathBelow(t, h, j, maxEnt)
    ensures j < |t|
  {
    if j == |t| {
      HashSizePrime(bits);
      var codes := ProbedCodes(t, h, j);
      forall a, b | 0 <= a < b < j
        ensures codes[a] != codes[b]
      {
        ProbeDistinct(h, a, b, |t|);
        OwnedDistinct(t, bits, Probe(h, a, |t|), Probe(h, b, |t|), maxEnt);
      }
      PigeonHole(codes, maxEnt);
    }
  }

  lemma OwnedDistinct(t: seq<Slot>, bits: nat, a: nat, b: nat, maxEnt: nat)
    requires Shape(t, bits) && Owned(t, bits) && maxEnt <= BADCODEM1
    requires a < |t| && b < |t| && a != b && t[a].codem1 < maxEnt
    ensures t[a].codem1 != t[b].codem1
  {
    assert t[t[a].codem1 + 1].cptr == a;
  }

  ghost function ProbedCodes(t: seq<Slot>, h: nat, j: nat): (codes: seq<nat>)
    requires h < |t| && 1 < |t|
    ensures |codes| == j
    ensures forall k :: 0 <= k < j ==> codes[k] == t[Probe(h, k, |t|)].codem1
  {
    seq(j, k requires 0 <= k < j => t[Probe(h, k, |t|)].codem1)
  }

  /** What the search loop knows after j fruitless probes. */
  ghost predicate Searched(t: seq<Slot>, h: nat, j: nat, maxEnt: nat, key: nat)
    requires h < |t| && 1 < |t|
  {
    forall k :: 0 <= k < j ==> t[Probe(h, k, |t|)].codem1 < maxEnt && t[Probe(h, k, |t|)].fcode != key
  }

  lemma PathExtends(t: seq<Slot>, home: nat, j: nat, maxEnt: nat)
    requires home < |t| && 1 < |t| && PathBelow(t, home, j, maxEnt)
    requires t[Probe(home, j, |t|)].codem1 < maxEnt
    ensures PathBelow(t, home, j + 1, maxEnt)
  {
    forall k | 0 <= k < j + 1
      ensures t[Probe(home, k, |t|)].codem1 < maxEnt
    {
      if k == j {
      }
    }
  }

  lemma SearchedPath(t: seq<Slot>, home: nat, j: nat, maxEnt: nat, key: nat)
    requires home < |t| && 1 < |t| && Searched(t, home, j, maxEnt, key)
    ensures PathBelow(t, home, j, maxEnt)
  {
    forall k | 0 <= k < j
      ensures t[Probe(home, k, |t|)].codem1 < maxEnt
    {
    }
  }

  lemma SearchExtends(t: seq<Slot>, home: nat, j: nat, maxEnt: nat, key: nat)
    requires home < |t| && 1 < |t| && Searched(t, home, j, maxEnt, key)
    requires t[Probe(home, j, |t|)].codem1 < maxEnt && t[Probe(home, j, |t|)].fcode != key
    ensures Searched(t, home, j + 1, maxEnt, key)
  {
    forall k | 0 <= k < j + 1
      ensures t[Probe(home, k, |t|)].codem1 < maxEnt && t[Probe(home, k, |t|)].fcode != key
    {
      if k == j {
      }
    }
  }

  /** One more probe that meets a code in use. */
  lemma ProbeOn(t: seq<Slot>, bits: nat, home: nat, j: nat, h: nat, maxEnt: nat)
    requires Shape(t, bits) && Owned(t, bits) && maxEnt <= MaxCode(bits) <= BADCODEM1
    requires home < |t| && j < |t| && PathBelow(t, home, j, maxEnt)
    requires h == Probe(home, j, |t|) && t[h].codem1 < maxEnt
    ensures j + 1 < |t| && PathBelow(t, home, j + 1, maxEnt)
    ensures Probe(home, j + 1, |t|) == Wrap(h + Step(home), |t|)
  {
    PathExtends(t, home, j, maxEnt);
    ProbeEnds(t, bits, home, j + 1, maxEnt);
  }

  /** One more fruitless probe. */
  lemma SearchOn(t: seq<Slot>, bits: nat, home: nat, j: nat, h: nat, maxEnt: nat, key: nat)
    requires Shape(t, bits) && Owned(t, bits) && maxEnt <= MaxCode(bits) <= BADCODEM1
    requires home < |t| && j < |t| && Searched(t, home, j, maxEnt, key)
    requires h == Probe(home, j, |t|) && t[h].codem1 < maxEnt && t[h].fcode != key
    ensures j + 1 < |t| && Searched(t, home, j + 1, maxEnt, key)
    ensures Probe(home, j + 1, |t|) == Wrap(h + Step(home), |t|)
  {
    SearchedPath(t, home, j, maxEnt, key);
    ProbeOn(t, bits, home, j, h, maxEnt);
    SearchExtends(t, home, j, maxEnt, key);
  }

  /** A search cannot leave the codes in use before it has met every code of its key. */
  lemma SearchCovers(t: seq<Slot>, bits: nat, d: seq<Entry>, h: nat, key: nat, j: nat, i: nat)
    requires Shape(t, bits) && FIRST + |d| <= |t| && Stores(t, bits, d) && h < |t| && i < |d|
    requires Searched(t, h, j, MaxEnt(d), key)
    requires exists j': nat :: ReachedAt(t, h, i, j')
    ensures Key(d[i]) == key ==> t[Probe(h, j, |t|)].codem1 <= CLEAR + i
  {
    var j': nat :| ReachedAt(t, h, i, j');
    if j < j' {
      assert t[Probe(h, j, |t|)].codem1 < CLEAR + i;
    }
  }

  /** A search that meets a slot not in use has shown the entry absent. */
  lemma SearchMiss(t: seq<Slot>, bits: nat, d: seq<Entry>, e: Entry, j: nat)
    requires Represents(t, bits, d) && Home(e, bits) < |t|
    requires Searched(t, Home(e, bits), j, MaxEnt(d), Key(e))
    requires t[Probe(Home(e, bits), j, |t|)].codem1 >= MaxEnt(d)
    ensures Lookup(d, e) == None
  {
    forall i | 0 <= i < |d|
      ensures d[i] != e
    {
      SearchCoversEntry(t, bits, d, e, j, i);
    }
    LookupFinds(d, e);
  }

  lemma SearchCoversEntry(t: seq<Slot>, bits: nat, d: seq<Entry>, e: Entry, j: nat, i: nat)
    requires Represents(t, bits, d) && Home(e, bits) < |t| && i < |d|
    requires Searched(t, Home(e, bits), j, MaxEnt(d), Key(e))
    ensures d[i] == e ==> t[Probe(Home(e, bits), j, |t|)].codem1 <= CLEAR + i
  {
    if d[i] == e {
      SearchCovers(t, bits, d, Home(e, bits), Key(e), j, i);
    }
  }

  /** A search that meets the key has found the entry's code. */
  lemma SearchHit(t: seq<Slot>, bits: nat, d: seq<Entry>, e: Entry, j: nat, s: nat)
    requires Represents(t, bits, d) && e.prefix < 65536 && Home(e, bits) < |t|
    requires Searched(t, Home(e, bits), j, MaxEnt(d), Key(e))
    requires s == Probe(Home(e, bits), j, |t|)
    requires t[s].codem1 < MaxEnt(d) && t[s].fcode == Key(e)
    ensures Lookup(d, e) == Some(t[s].codem1 + 1)
  {
    var i := HitEntry(t, bits, d, e, s);
    forall i' | 0 <= i' < i
      ensures d[i'] != e
    {
      SearchCoversEntry(t, bits, d, e, j, i');
    }
    LookupFirst(d, e, i);
  }

  lemma HitEntry(t: seq<Slot>, bits: nat, d: seq<Entry>, e: Entry, s: nat) returns (i: nat)
    requires Represents(t, bits, d) && e.prefix < 65536 && s < |t|
    requires t[s].codem1 < MaxEnt(d) && t[s].fcode == Key(e)
    ensures i < |d| && t[s].codem1 == CLEAR + i && d[i] == e
  {
    SlotEntry(t, bits, d, s);
    i := t[s].codem1 - CLEAR;
    KeyInjective(d[i], e);
  }

  lemma LookupFirst(d: seq<Entry>, e: Entry, i: nat)
    requires i < |d| && d[i] == e && forall i' :: 0 <= i' < i ==> d[i'] != e
    ensures Lookup(d, e) == Some(FIRST + i)
  {
    LookupFinds(d, e);
  }

  /** A slot in use stores the entry its code names. */
  lemma SlotEntry(t: seq<Slot>, bits: nat, d: seq<Entry>, s: nat)
    requires Represents(t, bits, d) && s < |t| && t[s].codem1 < MaxEnt(d)
    ensures t[s].codem1 >= CLEAR
    ensures var i := t[s].codem1 - CLEAR; d[i].prefix < 65536 && t[s].fcode == Key(d[i])
  {
    var i := t[s].codem1 - CLEAR;
    assert t[FIRST + i].cptr == s;
    PrefixBound(d, i, MaxCode(bits));
  }

  /** The end of a fruitless search is where the entry belongs. */
  lemma SearchedFree(t: seq<Slot>, bits: nat, e: Entry, j: nat, h: nat, maxEnt: nat)
    requires Home(e, bits) < |t| && 1 < |t| && j < |t| && h == Probe(Home(e, bits), j, |t|)
    requires Searched(t, Home(e, bits), j, maxEnt, Key(e)) && t[h].codem1 >= maxEnt
    ensures Free(t, bits, e, j, h, maxEnt)
  {
  }

  /** Slot h, not in use, ends the probe path of e. */
  ghost predicate Free(t: seq<Slot>, bits: nat, e: Entry, j: nat, h: nat, maxEnt: nat) {
    && Home(e, bits) < |t| && 1 < |t| && j < |t|
    && h == Probe(Home(e, bits), j, |t|)
    && PathBelow(t, Home(e, bits), j, maxEnt)
    && t[h].codem1 >= maxEnt
  }

  // ----- entering a new code

  /** The table after code maxEnt + 1 takes over slot h: the slot that carried the
      code before is invalidated first. */
  function TakeOver(t: seq<Slot>, h: nat, maxEnt: nat, key: nat): (t': seq<Slot>)
    requires h < |t| && maxEnt + 1 < |t| && t[maxEnt + 1].cptr < |t|
    ensures |t'| == |t|
  {
    var was := t[maxEnt + 1].cptr;
    var t1 := if t[was].codem1 == maxEnt then t[was := t[was].(codem1 := BADCODEM1)] else t;
    var t2 := t1[maxEnt + 1 := t1[maxEnt + 1].(cptr := h)];
    t2[h := t2[h].(codem1 := maxEnt, fcode := key)]
  }

  /** Taking over a slot not in use leaves the slots in use alone. */
  lemma TakeOverFrame(t: seq<Slot>, h: nat, maxEnt: nat, key: nat)
    requires h < |t| && maxEnt + 1 < |t| && (forall s :: 0 <= s < |t| ==> t[s].cptr < |t|)
    requires t[h].codem1 >= maxEnt
    ensures var t' := TakeOver(t, h, maxEnt, key);
      && (forall s :: 0 <= s < |t| && t[s].codem1 < maxEnt ==>
            t'[s].codem1 == t[s].codem1 && t'[s].fcode == t[s].fcode)
      && (forall s :: 0 <= s < |t| && s != maxEnt + 1 ==> t'[s].cptr == t[s].cptr)
      && t'[maxEnt + 1].cptr == h && t'[h].codem1 == maxEnt && t'[h].fcode == key
      && (forall s :: 0 <= s < |t| ==> t'[s].cptr < |t|)
  {
  }

  lemma TakeOverOwned(t: seq<Slot>, bits: nat, h: nat, maxEnt: nat, key: nat)
    requires Shape(t, bits) && Owned(t, bits) && CLEAR <= maxEnt < MaxCode(bits) <= BADCODEM1
    requires h < |t| && t[h].codem1 >= maxEnt
    ensures var t' := TakeOver(t, h, maxEnt, key); Shape(t', bits) && Owned(t', bits)
  {
    var t' := TakeOver(t, h, maxEnt, key);
    TakeOverFrame(t, h, maxEnt, key);
    forall s | 0 <= s < |t'| && t'[s].codem1 != BADCODEM1
      ensures CLEAR <= t'[s].codem1 < MaxCode(bits) && t'[t'[s].codem1 + 1].cptr == s
    {
      if s != h {
        assert t'[s].codem1 == t[s].codem1 != maxEnt;
      }
    }
  }

  lemma TakeOverPath(t: seq<Slot>, t': seq<Slot>, h: nat, j: nat, bound: nat, maxEnt: nat)
    requires |t| == |t'| > 1 && h < |t| && bound <= maxEnt && PathBelow(t, h, j, bound)
    requires forall s :: 0 <= s < |t| && t[s].codem1 < maxEnt ==> t'[s].codem1 == t[s].codem1
    ensures PathBelow(t', h, j, bound)
  {
  }

  lemma TakeOverStores(t: seq<Slot>, bits: nat, d: seq<Entry>, h: nat, e: Entry)
    requires Shape(t, bits) && FIRST + |d| < |t| && Stores(t, bits, d)
    requires h < |t| && t[h].codem1 >= MaxEnt(d)
    ensures var t' := TakeOver(t, h, MaxEnt(d), Key(e)); Shape(t', bits) && Stores(t', bits, d + [e])
  {
    var t' := TakeOver(t, h, MaxEnt(d), Key(e));
    var d' := d + [e];
    TakeOverFrame(t, h, MaxEnt(d), Key(e));
    forall i | 0 <= i < |d'|
      ensures var s := t'[FIRST + i].cptr; t'[s].codem1 == CLEAR + i && t'[s].fcode == Key(d'[i])
    {
      if i < |d| {
        assert d'[i] == d[i];
        var s := t[FIRST + i].cptr;
        assert t[s].codem1 == CLEAR + i;
      }
    }
  }

  lemma TakeOverReached(t: seq<Slot>, bits: nat, d: seq<Entry>, e: Entry, j: nat, h: nat)
    requires Shape(t, bits) && FIRST + |d| < |t| && Reached(t, bits, d) && Home(e, bits) < |t|
    requires j < |t| && PathBelow(t, Home(e, bits), j, MaxEnt(d))
    requires h == Probe(Home(e, bits), j, |t|) && t[h].codem1 >= MaxEnt(d)
    ensures var t' := TakeOver(t, h, MaxEnt(d), Key(e)); Shape(t', bits) && Reached(t', bits, d + [e])
  {
    TakeOverFrame(t, h, MaxEnt(d), Key(e));
    forall i | 0 <= i < |d + [e]|
      ensures var t' := TakeOver(t, h, MaxEnt(d), Key(e));
        Home((d + [e])[i], bits) < |t'| && exists j': nat :: ReachedAt(t', Home((d + [e])[i], bits), i, j')
    {
      StillReached(t, bits, d, e, j, h, i);
    }
  }

  lemma StillReached(t: seq<Slot>, bits: nat, d: seq<Entry>, e: Entry, j: nat, h: nat, i: nat)
    requires Shape(t, bits) && FIRST + |d| < |t| && Reached(t, bits, d) && Home(e, bits) < |t|
    requires j < |t| && PathBelow(t, Home(e, bits), j, MaxEnt(d))
    requires h == Probe(Home(e, bits), j, |t|) && t[h].codem1 >= MaxEnt(d) && i <= |d|
    ensures var t', hi := TakeOver(t, h, MaxEnt(d), Key(e)), Home((d + [e])[i], bits);
      hi < |t'| && exists j': nat :: ReachedAt(t', hi, i, j')
  {
    var t', hi := TakeOver(t, h, MaxEnt(d), Key(e)), Home((d + [e])[i], bits);
    TakeOverFrame(t, h, MaxEnt(d), Key(e));
    if i < |d| {
      assert (d + [e])[i] == d[i];
      var j': nat :| ReachedAt(t, hi, i, j');
      TakeOverPath(t, t', hi, j', CLEAR + i, MaxEnt(d));
      assert ReachedAt(t', hi, i, j');
    } else {
      TakeOverPath(t, t', hi, j, MaxEnt(d), MaxEnt(d));
      assert ReachedAt(t', hi, i, j);
    }
  }

  /** Entering e at the end of its probe path extends the dictionary by e. */
  lemma TakeOverRepresents(t: seq<Slot>, bits: nat, d: seq<Entry>, e: Entry, j: nat, h: nat)
    requires Represents(t, bits, d) && MaxEnt(d) < MaxCode(bits) && IsCode(d, e.prefix)
    requires Home(e, bits) < |t|
    requires j < |t| && PathBelow(t, Home(e, bits), j, MaxEnt(d))
    requires h == Probe(Home(e, bits), j, |t|) && t[h].codem1 >= MaxEnt(d)
    ensures Represents(TakeOver(t, h, MaxEnt(d), Key(e)), bits, d + [e])
  {
    WellFormedSnoc(d, e);
    TakeOverOwned(t, bits, h, MaxEnt(d), Key(e));
    TakeOverStores(t, bits, d, h, e);
    TakeOverReached(t, bits, d, e, j, h);
  }
}
