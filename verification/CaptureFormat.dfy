/** The record format of capture buffers: a header with the time, the captured and the
    original length and the header's own length, then the captured bytes; records
    start at word boundaries. */
module CaptureFormat {
  import opened Bits
  import opened Marks

  /** Word size (8, or 4 for 32-bit readers) and header length. */
  datatype Form = Form(word: nat, hdr: nat)

  datatype Record = Record(sec: nat, usec: nat, wire: nat, data: seq<u8>)

  /** Round up to a multiple of the word size. */
  function Align(n: nat, word: nat): nat {
    if word == 8 then (n + 7) / 8 * 8 else (n + 3) / 4 * 4
  }

  /** The next multiple of 8, or of 4. */
  lemma AlignRounds(n: nat, word: nat)
    ensures var w := if word == 8 then 8 else 4; exists q :: Align(n, word) == q * w && n <= q * w < n + w
  {
    var q := if word == 8 then (n + 7) / 8 else (n + 3) / 4;
    assert Align(n, word) == q * if word == 8 then 8 else 4;
  }

  /** The size of the header fields. */
  function HeaderSize(word: nat): nat {
    if word == 8 then 32 else 20
  }

  /** The header length that puts the network header, after a link header of the given
      size, on a word boundary. */
  function HeaderLength(link: nat, word: nat): nat {
    var whole := Align(link + HeaderSize(word), word);
    if whole >= link then whole - link else 0
  }

  ghost predicate FormOk(f: Form) {
    (f.word == 8 || f.word == 4) && HeaderSize(f.word) <= f.hdr < 0x1_0000
  }

  predicate Aligned(n: nat, word: nat) {
    if word == 8 then n % 8 == 0 else n % 4 == 0
  }

  lemma AlignUp(n: nat, word: nat)
    ensures n <= Align(n, word) && Aligned(Align(n, word), word)
  {
  }

  /** Aligned start, then aligned length: the next start is aligned. */
  lemma AlignSum(p: nat, n: nat, word: nat)
    requires Aligned(p, word)
    ensures Align(p + n, word) == p + Align(n, word)
  {
    if word == 8 {
      Rounding(p / 8, n + 7, 8);
      assert p == p / 8 * 8;
    } else {
      Rounding(p / 4, n + 3, 4);
      assert p == p / 4 * 4;
    }
  }

  lemma Rounding(k: nat, m: nat, d: nat)
    requires d > 0
    ensures (k * d + m) / d * d == k * d + m / d * d
  {
    var q, r := m / d, m % d;
    assert m == q * d + r;
    MulDistr(k, q, d);
    DivModUnique(k * d + m, d, k + q, r);
  }

  lemma HeaderLengthOk(link: nat, word: nat)
    requires word == 8 || word == 4
    ensures HeaderLength(link, word) >= HeaderSize(word) && Aligned(link + HeaderLength(link, word), word)
  {
    AlignUp(link + HeaderSize(word), word);
  }

  // ----- numbers in bytes, least significant first

  ghost function Number(b: seq<u8>, pos: nat, n: nat): nat
    requires pos + n <= |b|
    decreases n
  {
    if n == 0 then 0 else b[pos] + 256 * Number(b, pos + 1, n - 1)
  }

  function Bytes(v: nat, n: nat): (s: seq<u8>)
    ensures |s| == n
  {
    if n == 0 then [] else [v % 256] + Bytes(v / 256, n - 1)
  }

  function Limit(n: nat): nat {
    if n == 0 then 1 else 256 * Limit(n - 1)
  }

  lemma {:induction false} NumberBytes(b: seq<u8>, pos: nat, v: nat, n: nat)
    requires pos + n <= |b| && b[pos..pos + n] == Bytes(v, n) && v < Limit(n)
    ensures Number(b, pos, n) == v
    decreases n
  {
    if n > 0 {
      assert b[pos] == b[pos..pos + n][0];
      assert b[pos + 1..pos + n] == b[pos..pos + n][1..];
      NumberBytes(b, pos + 1, v / 256, n - 1);
    }
  }

  lemma {:induction false} NumberSame(b: seq<u8>, b': seq<u8>, pos: nat, n: nat)
    requires pos + n <= |b| && pos + n <= |b'| && forall k :: pos <= k < pos + n ==> b'[k] == b[k]
    ensures Number(b', pos, n) == Number(b, pos, n)
    decreases n
  {
    if n > 0 {
      NumberSame(b, b', pos + 1, n - 1);
    }
  }

  // ----- records

  ghost predicate HeaderAt(b: seq<u8>, pos: nat, f: Form, r: Record)
    requires FormOk(f) && pos + f.hdr <= |b|
  {
    && Number(b, pos, f.word) == r.sec
    && Number(b, pos + f.word, f.word) == r.usec
    && Number(b, pos + 2 * f.word, 4) == |r.data|
    && Number(b, pos + 2 * f.word + 4, 4) == r.wire
    && Number(b, pos + 2 * f.word + 8, 2) == f.hdr
  }

  /** The header fields one after the other. */
  function Header(f: Form, r: Record): (s: seq<u8>)
    ensures |s| == 2 * f.word + 10
  {
    Bytes(r.sec, f.word) + Bytes(r.usec, f.word) + Bytes(|r.data|, 4) + Bytes(r.wire, 4) + Bytes(f.hdr, 2)
  }

  lemma Piece(b: seq<u8>, pos: nat, s: seq<u8>, before: seq<u8>, v: nat, n: nat, after: seq<u8>)
    requires pos + |s| <= |b| && b[pos..pos + |s|] == s && s == before + Bytes(v, n) + after && v < Limit(n)
    ensures Number(b, pos + |before|, n) == v
  {
    var p := pos + |before|;
    forall k | 0 <= k < n
      ensures b[p + k] == Bytes(v, n)[k]
    {
      assert b[p + k] == b[pos..pos + |s|][|before| + k];
      assert s[|before| + k] == Bytes(v, n)[k];
    }
    assert b[p..p + n] == Bytes(v, n);
    NumberBytes(b, p, v, n);
  }

  /** Numbers of the sizes the header has room for. */
  ghost predicate Encodable(f: Form, r: Record) {
    r.sec < Limit(f.word) && r.usec < Limit(f.word) && |r.data| < Limit(4) && r.wire < Limit(4) && f.hdr < Limit(2)
  }

  lemma Times(b: seq<u8>, pos: nat, w: nat, x: nat, y: nat, rest: seq<u8>)
    requires pos + 2 * w + |rest| <= |b| && x < Limit(w) && y < Limit(w)
    requires b[pos..pos + 2 * w + |rest|] == Bytes(x, w) + Bytes(y, w) + rest
    ensures Number(b, pos, w) == x && Number(b, pos + w, w) == y
    ensures b[pos + 2 * w..pos + 2 * w + |rest|] == rest
  {
    var s := Bytes(x, w) + Bytes(y, w) + rest;
    assert s == [] + Bytes(x, w) + (Bytes(y, w) + rest);
    Piece(b, pos, s, [], x, w, Bytes(y, w) + rest);
    Piece(b, pos, s, Bytes(x, w), y, w, rest);
    assert s[2 * w..] == rest;
    assert b[pos + 2 * w..pos + 2 * w + |rest|] == b[pos..pos + 2 * w + |rest|][2 * w..];
  }

  lemma HeaderWritten(b: seq<u8>, pos: nat, f: Form, r: Record)
    requires FormOk(f) && pos + f.hdr <= |b| && Encodable(f, r)
    requires b[pos..pos + 2 * f.word + 10] == Header(f, r)
    ensures HeaderAt(b, pos, f, r)
  {
    var s3, s4, s5 := Bytes(|r.data|, 4), Bytes(r.wire, 4), Bytes(f.hdr, 2);
    assert Header(f, r) == Bytes(r.sec, f.word) + Bytes(r.usec, f.word) + (s3 + s4 + s5);
    Times(b, pos, f.word, r.sec, r.usec, s3 + s4 + s5);
    Times(b, pos + 2 * f.word, 4, |r.data|, r.wire, s5);
    NumberBytes(b, pos + 2 * f.word + 8, f.hdr, 2);
  }

  ghost predicate RecordAt(b: seq<u8>, pos: nat, f: Form, r: Record)
    requires FormOk(f)
  {
    && pos + f.hdr + |r.data| <= |b|
    && HeaderAt(b, pos, f, r)
    && b[pos + f.hdr..pos + f.hdr + |r.data|] == r.data
  }

  /** How far the records reach. */
  ghost function Extent(f: Form, recs: seq<Record>): nat
    requires FormOk(f)
  {
    if recs == [] then 0
    else Align(Extent(f, recs[..|recs| - 1]), f.word) + f.hdr + |recs[|recs| - 1].data|
  }

  /** Where record k starts. */
  ghost function Begins(f: Form, recs: seq<Record>, k: nat): nat
    requires FormOk(f) && k <= |recs|
  {
    Align(Extent(f, recs[..k]), f.word)
  }

  /** The bytes hold these records; used where Inside is mentioned. */
  ghost predicate Holds(b: seq<u8>, f: Form, recs: seq<Record>)
    requires FormOk(f)
  {
    forall n: nat {:trigger Inside(n)} :: Inside(n) ==>
      forall k :: 0 <= k < |recs| ==> RecordAt(b, Begins(f, recs, k), f, recs[k])
  }

  lemma HoldsAt(b: seq<u8>, f: Form, recs: seq<Record>, k: nat)
    requires FormOk(f) && Holds(b, f, recs) && k < |recs|
    ensures RecordAt(b, Begins(f, recs, k), f, recs[k])
  {
    assert Inside(0);
  }

  lemma RecordSame(b: seq<u8>, b': seq<u8>, pos: nat, f: Form, r: Record, n: nat)
    requires FormOk(f) && RecordAt(b, pos, f, r) && pos + f.hdr + |r.data| <= n <= |b|
    requires n <= |b'| && forall k :: 0 <= k < n ==> b'[k] == b[k]
    ensures RecordAt(b', pos, f, r)
  {
    NumberSame(b, b', pos, f.word);
    NumberSame(b, b', pos + f.word, f.word);
    NumberSame(b, b', pos + 2 * f.word, 4);
    NumberSame(b, b', pos + 2 * f.word + 4, 4);
    NumberSame(b, b', pos + 2 * f.word + 8, 2);
    assert b'[pos + f.hdr..pos + f.hdr + |r.data|] == b[pos + f.hdr..pos + f.hdr + |r.data|];
  }

  /** Each record ends where the extent up to it says. */
  lemma BeginsNext(f: Form, recs: seq<Record>, k: nat)
    requires FormOk(f) && k < |recs|
    ensures Extent(f, recs[..k + 1]) == Begins(f, recs, k) + f.hdr + |recs[k].data|
  {
    assert recs[..k + 1][..k] == recs[..k];
    assert recs[..k + 1][k] == recs[k];
  }

  lemma {:induction false} ExtentGrows(f: Form, recs: seq<Record>, k: nat)
    requires FormOk(f) && k <= |recs|
    ensures Extent(f, recs[..k]) <= Extent(f, recs)
    decreases |recs| - k
  {
    if k == |recs| {
      assert recs[..k] == recs;
    } else {
      BeginsNext(f, recs, k);
      AlignUp(Extent(f, recs[..k]), f.word);
      ExtentGrows(f, recs, k + 1);
    }
  }

  /** Bytes beyond the extent do not matter. */
  lemma HoldsSame(b: seq<u8>, b': seq<u8>, f: Form, recs: seq<Record>)
    requires FormOk(f) && Holds(b, f, recs) && Extent(f, recs) <= |b| && Extent(f, recs) <= |b'|
    requires forall k :: 0 <= k < Extent(f, recs) ==> b'[k] == b[k]
    ensures Holds(b', f, recs)
  {
    forall k | 0 <= k < |recs|
      ensures RecordAt(b', Begins(f, recs, k), f, recs[k])
    {
      HoldsAt(b, f, recs, k);
      BeginsNext(f, recs, k);
      ExtentGrows(f, recs, k + 1);
      RecordSame(b, b', Begins(f, recs, k), f, recs[k], Extent(f, recs));
    }
  }

  /** A record at the next word boundary is appended. */
  lemma HoldsAppend(b: seq<u8>, f: Form, recs: seq<Record>, r: Record)
    requires FormOk(f) && Holds(b, f, recs) && RecordAt(b, Align(Extent(f, recs), f.word), f, r)
    ensures Holds(b, f, recs + [r]) && Extent(f, recs + [r]) == Align(Extent(f, recs), f.word) + f.hdr + |r.data|
  {
    var all := recs + [r];
    assert all[..|recs|] == recs;
    forall k | 0 <= k < |all|
      ensures RecordAt(b, Begins(f, all, k), f, all[k])
    {
      assert all[..k] == recs[..k];
      if k < |recs| {
        HoldsAt(b, f, recs, k);
      } else {
        assert recs[..k] == recs;
      }
    }
  }

  /** Writing a record behind the others keeps them and appends it. */
  lemma Appended(b: seq<u8>, b': seq<u8>, f: Form, recs: seq<Record>, r: Record, cur: nat)
    requires FormOk(f) && Holds(b, f, recs) && Extent(f, recs) <= |b| == |b'| && cur == Align(Extent(f, recs), f.word)
    requires RecordAt(b', cur, f, r) && forall k :: 0 <= k < cur && k < |b| ==> b'[k] == b[k]
    ensures Holds(b', f, recs + [r]) && Extent(f, recs + [r]) == cur + f.hdr + |r.data|
  {
    AlignUp(Extent(f, recs), f.word);
    HoldsSame(b, b', f, recs);
    HoldsAppend(b', f, recs, r);
  }

  /** A buffer filled up to len, with exactly these records; used where Deeper is
      mentioned. */
  ghost predicate Filled(b: seq<u8>, f: Form, recs: seq<Record>, len: nat)
    requires FormOk(f)
  {
    forall n: nat {:trigger Deeper(n)} :: Deeper(n) ==>
      len == Extent(f, recs) <= |b| && Holds(b, f, recs) && (recs == [] <==> len == 0)
  }

  lemma FilledNone(b: seq<u8>, f: Form)
    requires FormOk(f)
    ensures Filled(b, f, [], 0)
  {
  }

  lemma FilledLength(b: seq<u8>, f: Form, recs: seq<Record>, len: nat)
    requires FormOk(f) && Filled(b, f, recs, len)
    ensures len <= |b| && (recs == [] <==> len == 0)
  {
    assert Deeper(0);
  }

  /** The filled part alone holds the same records, and ends with them. */
  lemma FilledPart(b: seq<u8>, f: Form, recs: seq<Record>, len: nat)
    requires FormOk(f) && Filled(b, f, recs, len)
    ensures len <= |b| && Holds(b[..len], f, recs) && |b[..len]| == Extent(f, recs)
  {
    assert Deeper(0);
    HoldsSame(b, b[..len], f, recs);
  }

  lemma FilledMore(b: seq<u8>, b': seq<u8>, f: Form, recs: seq<Record>, len: nat, r: Record, cur: nat)
    requires FormOk(f) && Filled(b, f, recs, len) && |b'| == |b| && cur == Align(len, f.word)
    requires RecordAt(b', cur, f, r) && forall k :: 0 <= k < cur && k < |b| ==> b'[k] == b[k]
    ensures Filled(b', f, recs + [r], cur + f.hdr + |r.data|)
  {
    assert Deeper(0);
    Appended(b, b', f, recs, r, cur);
  }

  // ----- the reader's walk

  method GetNumber(b: seq<u8>, pos: nat, n: nat) returns (v: nat)
    requires pos + n <= |b|
    ensures v == Number(b, pos, n)
  {
    v := 0;
    var k := n;
    while k > 0
      invariant 0 <= k <= n
      invariant v == Number(b, pos + k, n - k)
    {
      k := k - 1;
      v := b[pos + k] + 256 * v;
    }
  }

  /** From one start to the next: header and captured length, rounded up. */
  lemma BeginsAfter(f: Form, recs: seq<Record>, k: nat)
    requires FormOk(f) && k < |recs|
    ensures Begins(f, recs, k + 1) == Begins(f, recs, k) + Align(f.hdr + |recs[k].data|, f.word)
  {
    BeginsNext(f, recs, k);
    AlignUp(Extent(f, recs[..k]), f.word);
    AlignSum(Begins(f, recs, k), f.hdr + |recs[k].data|, f.word);
  }

  /** Step from header to header by header length plus captured length, rounded up:
      exactly the records come out, in order. */
  method Walk(b: seq<u8>, f: Form, ghost recs: seq<Record>) returns (out: seq<Record>)
    requires FormOk(f) && Holds(b, f, recs) && |b| == Extent(f, recs)
    ensures out == recs
  {
    out := [];
    var pos := 0;
    ghost var k := 0;
    while pos < |b|
      invariant 0 <= k <= |recs| && out == recs[..k] && pos == Begins(f, recs, k)
      decreases |recs| - k
    {
      NotDone(f, recs, k, |b|);
      HoldsAt(b, f, recs, k);
      BeginsAfter(f, recs, k);
      var r, hdr := ReadRecord(b, f, pos, recs[k]);
      pos := pos + Align(hdr + |r.data|, f.word);
      out := out + [r];
      k := k + 1;
    }
    Done(f, recs, k, |b|);
  }

  method ReadRecord(b: seq<u8>, f: Form, pos: nat, ghost expected: Record) returns (r: Record, hdr: nat)
    requires FormOk(f) && RecordAt(b, pos, f, expected)
    ensures r == expected && hdr == f.hdr
  {
    var sec := GetNumber(b, pos, f.word);
    var usec := GetNumber(b, pos + f.word, f.word);
    var cap := GetNumber(b, pos + 2 * f.word, 4);
    var wire := GetNumber(b, pos + 2 * f.word + 4, 4);
    hdr := GetNumber(b, pos + 2 * f.word + 8, 2);
    r := Record(sec, usec, wire, b[pos + hdr..pos + hdr + cap]);
  }

  /** Before the end there is a record to come; at the end there is none. */
  lemma NotDone(f: Form, recs: seq<Record>, k: nat, n: nat)
    requires FormOk(f) && k <= |recs| && n == Extent(f, recs) && Begins(f, recs, k) < n
    ensures k < |recs|
  {
    AlignUp(Extent(f, recs[..k]), f.word);
    assert recs[..|recs|] == recs;
  }

  lemma Done(f: Form, recs: seq<Record>, k: nat, n: nat)
    requires FormOk(f) && k <= |recs| && n == Extent(f, recs) && Begins(f, recs, k) >= n
    ensures k == |recs|
  {
    if k < |recs| {
      BeginsNext(f, recs, k);
      ExtentGrows(f, recs, k + 1);
    }
  }
}
