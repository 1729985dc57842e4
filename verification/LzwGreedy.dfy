/** The compressor is greedy: each code that it puts out stands for the longest string
    of its dictionary with which the rest of the data goes on. */
module LzwGreedy {
  import opened Bits
  import opened Lzw
  import opened Options

  lemma PrefixIsCode(d: seq<Entry>, code: nat)
    requires WellFormed(d) && IsCode(d, code) && code > LAST
    ensures IsCode(d, d[code - FIRST].prefix) && d[code - FIRST].prefix < code
  {
    assert IsCode(d[..code - FIRST], d[code - FIRST].prefix);
  }

  lemma SnocEqual<T>(s: seq<T>, x: T, t: seq<T>, y: T)
    requires s + [x] == t + [y]
    ensures s == t && x == y
  {
    assert |s + [x]| == |t + [y]|;
    assert s == (s + [x])[..|s|] && t == (t + [y])[..|t|];
    assert (s + [x])[|s|] == (t + [y])[|t|];
  }

  /** No two codes stand for the same string. */
  lemma {:induction false} ExpandInjective(d: seq<Entry>, a: nat, b: nat)
    requires WellFormed(d) && Distinct(d) && IsCode(d, a) && IsCode(d, b) && Expand(d, a) == Expand(d, b)
    ensures a == b
    decreases a
  {
    if a > LAST && b > LAST {
      var e, e' := d[a - FIRST], d[b - FIRST];
      PrefixIsCode(d, a);
      PrefixIsCode(d, b);
      SnocEqual(Expand(d, e.prefix), e.suffix, Expand(d, e'.prefix), e'.suffix);
      ExpandInjective(d, e.prefix, e'.prefix);
    }
  }

  /** With a string the dictionary has all its beginnings that have a code of their own. */
  lemma {:induction false} NextEntry(d: seq<Entry>, code: nat, q: nat, t: seq<u8>)
    requires WellFormed(d) && Distinct(d) && IsCode(d, code) && IsCode(d, q) && t != []
    requires Expand(d, q) == Expand(d, code) + t
    ensures Entry(code, t[0]) in d
    decreases q
  {
    assert q > LAST;
    var e := d[q - FIRST];
    PrefixIsCode(d, q);
    var t', x := t[..|t| - 1], t[|t| - 1];
    assert t == t' + [x];
    assert Expand(d, code) + t == Expand(d, code) + t' + [x];
    SnocEqual(Expand(d, e.prefix), e.suffix, Expand(d, code) + t', x);
    if t' == [] {
      assert Expand(d, code) + t' == Expand(d, code);
      ExpandInjective(d, e.prefix, code);
      assert d[q - FIRST] == Entry(code, t[0]);
    } else {
      NextEntry(d, code, e.prefix, t');
    }
  }

  /** A code n bytes into the data from which the dictionary has no way on is the longest
      match there is. */
  lemma NothingLonger(d: seq<Entry>, ent: nat, data: seq<u8>, first: nat, n: nat, q: nat, k: nat)
    requires WellFormed(d) && Distinct(d) && IsCode(d, ent) && IsCode(d, first) && IsCode(d, q) && n < k <= |data|
    requires Expand(d, first) == Expand(d, ent) + data[..n] && Entry(first, data[n]) !in d
    ensures Expand(d, q) != Expand(d, ent) + data[..k]
  {
    if Expand(d, q) == Expand(d, ent) + data[..k] {
      SplitAt(Expand(d, ent), data, n, k);
      NextEntry(d, first, q, data[n..k]);
    }
  }

  lemma SplitAt(a: seq<u8>, data: seq<u8>, n: nat, k: nat)
    requires n < k <= |data|
    ensures a + data[..k] == a + data[..n] + data[n..k] && data[n..k][0] == data[n]
  {
    assert data[..k] == data[..n] + data[n..k];
  }

  /** No code stands for the string of code ent and more than n bytes of the data. */
  ghost predicate NoLonger(d: seq<Entry>, ent: nat, data: seq<u8>, n: nat)
    requires WellFormed(d) && IsCode(d, ent)
  {
    forall q, k :: IsCode(d, q) && n < k <= |data| ==> Expand(d, q) != Expand(d, ent) + data[..k]
  }

  lemma NoneLonger(d: seq<Entry>, ent: nat, data: seq<u8>)
    requires WellFormed(d) && Distinct(d) && IsCode(d, ent) && data != [] && Entry(ent, data[0]) !in d
    ensures NoLonger(d, ent, data, 0)
  {
    assert Expand(d, ent) + data[..0] == Expand(d, ent);
    forall q, k | IsCode(d, q) && 0 < k <= |data|
      ensures Expand(d, q) != Expand(d, ent) + data[..k]
    {
      NothingLonger(d, ent, data, ent, 0, q, k);
    }
  }

  lemma ShiftNoLonger(d: seq<Entry>, ent: nat, data: seq<u8>, code: nat, n: nat)
    requires WellFormed(d) && IsCode(d, ent) && data != [] && FIRST <= code <= MaxEnt(d)
    requires d[code - FIRST] == Entry(ent, data[0]) && NoLonger(d, code, data[1..], n)
    ensures NoLonger(d, ent, data, n + 1)
  {
    forall q, k | IsCode(d, q) && n + 1 < k <= |data|
      ensures Expand(d, q) != Expand(d, ent) + data[..k]
    {
      ShiftMatch(d, ent, data, code, k - 1);
    }
  }

  /** What compression does once the first match is known. */
  ghost predicate GoesOn(d: seq<Entry>, width: nat, first: nat, data: seq<u8>, n: nat, limit: nat, e: Encoded) {
    && n <= |data|
    && if n == |data| then e == Encoded([Code(first, width)], d, width)
       else
         var (d', width') := Enter(d, width, Entry(first, data[n]), limit);
         e == After([Code(first, width)], Encode(d', width', data[n], data[n + 1..], limit))
  }

  lemma ShiftGoesOn(d: seq<Entry>, width: nat, first: nat, data: seq<u8>, n: nat, limit: nat, e: Encoded)
    requires data != [] && GoesOn(d, width, first, data[1..], n, limit, e)
    ensures GoesOn(d, width, first, data, n + 1, limit, e)
  {
    if n + 1 < |data| {
      assert data[1..][n] == data[n + 1] && data[1..][n + 1..] == data[n + 2..];
    }
  }

  /** Data that goes on from the string of code ent: the first code put out stands for
      that string and the n bytes after it, no code stands for that string and more of
      the bytes, and unless the data ends there, the match with the next byte is the
      next entry while there is room, and compression goes on from that byte. */
  lemma {:induction false} FirstIsLongest(d: seq<Entry>, width: nat, ent: nat, data: seq<u8>, limit: nat)
    returns (first: nat, n: nat)
    requires WellFormed(d) && Distinct(d) && IsCode(d, ent)
    ensures n <= |data| && IsCode(d, first) && Expand(d, first) == Expand(d, ent) + data[..n]
    ensures NoLonger(d, ent, data, n)
    ensures GoesOn(d, width, first, data, n, limit, Encode(d, width, ent, data, limit))
    decreases |data|
  {
    if data == [] {
      first, n := ent, 0;
      assert Expand(d, ent) + data[..0] == Expand(d, ent);
    } else {
      var e := Entry(ent, data[0]);
      LookupFinds(d, e);
      var r := Lookup(d, e);
      if r.None? {
        first, n := ent, 0;
        assert Expand(d, ent) + data[..0] == Expand(d, ent);
        NoneLonger(d, ent, data);
      } else {
        var n';
        first, n' := FirstIsLongest(d, width, r.value, data[1..], limit);
        n := n' + 1;
        ShiftMatch(d, ent, data, r.value, n');
        ShiftNoLonger(d, ent, data, r.value, n');
        ShiftGoesOn(d, width, first, data, n', limit, Encode(d, width, ent, data, limit));
      }
    }
  }

  lemma ShiftMatch(d: seq<Entry>, ent: nat, data: seq<u8>, code: nat, k: nat)
    requires WellFormed(d) && IsCode(d, ent) && k < |data| && FIRST <= code <= MaxEnt(d)
    requires d[code - FIRST] == Entry(ent, data[0])
    ensures Expand(d, code) + data[1..][..k] == Expand(d, ent) + data[..k + 1]
  {
    assert data[..k + 1] == [data[0]] + data[1..][..k];
    assert Expand(d, code) == Expand(d, ent) + [data[0]];
  }
}
