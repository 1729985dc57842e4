/** Packet data as the filter machine reads it: from one buffer, or from a chain
    of mbufs. */
module BpfPacket {
  import opened Bits
  import opened Mbufs

  type u32 = x: nat | x < 0x1_0000_0000

  /** The result of a read: a value, an offset outside the packet, or a read of
      memory outside the buffers. */
  datatype Fetch = Value(value: u32) | Outside | Wild

  function Big16(a: u8, b: u8): (v: u32) {
    0x100 * (a as int) + b
  }

  function Big32(a: u8, b: u8, c: u8, d: u8): (v: u32) {
    0x100_0000 * (a as int) + 0x1_0000 * (b as int) + 0x100 * (c as int) + d
  }

  // ----- one buffer

  function FlatWord(p: seq<u8>, k: nat): Fetch {
    if k > |p| || 4 > |p| - k then Outside else Value(Big32(p[k], p[k + 1], p[k + 2], p[k + 3]))
  }

  function FlatHalf(p: seq<u8>, k: nat): Fetch {
    if k > |p| || 2 > |p| - k then Outside else Value(Big16(p[k], p[k + 1]))
  }

  function FlatByte(p: seq<u8>, k: nat): Fetch {
    if k >= |p| then Outside else Value(p[k])
  }

  // ----- a chain

  /** A position in a chain. */
  datatype Place = Place(buffer: nat, offset: nat) | Nowhere

  /** The position of byte number k, counted from buffer i. */
  function Locate(chain: Chain, i: nat, k: nat): (r: Place)
    ensures r.Place? ==> i <= r.buffer < |chain| && r.offset < |chain[r.buffer]|
    decreases |chain| - i
  {
    if i >= |chain| then Nowhere
    else if k >= |chain[i]| then Locate(chain, i + 1, k - |chain[i]|)
    else Place(i, k)
  }

  /** Find byte number k of a non-empty chain. */
  method Index(chain: Chain, k0: nat) returns (r: Place)
    requires |chain| >= 1
    ensures r == Locate(chain, 0, k0)
  {
    var i, k := 0, k0;
    var len := |chain[0]|;
    while k >= len
      invariant 0 <= i < |chain| && len == |chain[i]| && k >= 0
      invariant Locate(chain, 0, k0) == Locate(chain, i, k)
      decreases |chain| - i
    {
      k := k - len;
      i := i + 1;
      if i == |chain| {
        return Nowhere;
      }
      len := |chain[i]|;
    }
    return Place(i, k);
  }

  function ChainByte(chain: Chain, k: nat): Fetch {
    match Locate(chain, 0, k)
    case Nowhere => Outside
    case Place(i, off) => Value(chain[i][off])
  }

  /** Two bytes: from one buffer, or the last of one and the first of the next,
      which is read without asking whether the next holds anything. */
  function ChainHalf(chain: Chain, k: nat): Fetch {
    match Locate(chain, 0, k)
    case Nowhere => Outside
    case Place(i, off) =>
      var cp := chain[i];
      if |cp| >= off + 2 then Value(Big16(cp[off], cp[off + 1]))
      else if i + 1 == |chain| then Outside
      else if chain[i + 1] == [] then Wild
      else Value(Big16(cp[off], chain[i + 1][0]))
  }

  /** Four bytes: from one buffer, or split between it and the next one only. */
  function ChainWord(chain: Chain, k: nat): Fetch {
    match Locate(chain, 0, k)
    case Nowhere => Outside
    case Place(i, off) =>
      var cp := chain[i];
      if |cp| >= off + 4 then Value(Big32(cp[off], cp[off + 1], cp[off + 2], cp[off + 3]))
      else if i + 1 == |chain| || |chain[i + 1]| + |cp| - off < 4 then Outside
      else
        var np := chain[i + 1];
        if |cp| - off == 1 then Value(Big32(cp[off], np[0], np[1], np[2]))
        else if |cp| - off == 2 then Value(Big32(cp[off], cp[off + 1], np[0], np[1]))
        else Value(Big32(cp[off], cp[off + 1], cp[off + 2], np[0]))
  }

  // ----- chain and buffer compared

  /** A located byte is that byte of the flattened chain. */
  lemma {:induction false} LocateTail(chain: Chain, i: nat, k: nat)
    ensures Locate(chain, i, k).Nowhere? <==> k >= |Tail(chain, i)|
    ensures Locate(chain, i, k).Place? ==>
      var r := Locate(chain, i, k);
      && chain[r.buffer][r.offset..] + Tail(chain, r.buffer + 1) == Tail(chain, i)[k..]
    decreases |chain| - i
  {
    if i < |chain| {
      var buf, rest := chain[i], Tail(chain, i + 1);
      if k >= |buf| {
        LocateTail(chain, i + 1, k - |buf|);
        if k - |buf| <= |rest| {
          assert (buf + rest)[k..] == rest[k - |buf|..];
        }
      } else {
        assert (buf + rest)[k..] == buf[k..] + rest;
      }
    }
  }

  ghost predicate NoEmpty(chain: Chain) {
    forall i :: 0 <= i < |chain| ==> |chain[i]| > 0
  }

  /** Every buffer but the first and the last holds at least three bytes. */
  ghost predicate MiddleLong(chain: Chain) {
    forall i :: 0 < i < |chain| - 1 ==> |chain[i]| >= 3
  }

  /** No empty buffer directly follows one that holds data. */
  ghost predicate NoGap(chain: Chain) {
    forall i :: 0 <= i < |chain| - 1 && |chain[i]| > 0 ==> |chain[i + 1]| > 0
  }

  lemma ByteAgrees(chain: Chain, k: nat)
    ensures ChainByte(chain, k) == FlatByte(Flatten(chain), k)
  {
    LocateTail(chain, 0, k);
    var r := Locate(chain, 0, k);
    if r.Place? {
      assert (chain[r.buffer][r.offset..] + Tail(chain, r.buffer + 1))[0] == Flatten(chain)[k..][0];
    }
  }

  lemma HalfAgrees(chain: Chain, k: nat)
    requires NoEmpty(chain)
    ensures ChainHalf(chain, k) == FlatHalf(Flatten(chain), k)
  {
    LocateTail(chain, 0, k);
    var r := Locate(chain, 0, k);
    if r.Place? {
      var i := r.buffer;
      var here, next := chain[i][r.offset..], Tail(chain, i + 1);
      var s := Flatten(chain)[k..];
      assert here + next == s;
      if |here| == 1 && i + 1 < |chain| {
        assert next[0] == chain[i + 1][0];
        assert s[1] == next[0];
      }
      if |s| >= 2 {
        assert s[0] == Flatten(chain)[k] && s[1] == Flatten(chain)[k + 1];
      }
    }
  }

  /** Four bytes at k lie in at most two neighbouring buffers. */
  ghost predicate WordInTwo(chain: Chain, k: nat)
    requires Locate(chain, 0, k).Place?
  {
    var r := Locate(chain, 0, k);
    var i, left := r.buffer, |chain[r.buffer]| - r.offset;
    left >= 4 || i + 2 >= |chain| || left + |chain[i + 1]| >= 4
  }

  /** A word read agrees with the flat packet unless the word spans three buffers. */
  lemma WordAgrees(chain: Chain, k: nat)
    requires Locate(chain, 0, k).Place? ==> WordInTwo(chain, k)
    ensures ChainWord(chain, k) == FlatWord(Flatten(chain), k)
  {
    LocateTail(chain, 0, k);
    var r := Locate(chain, 0, k);
    if r.Place? {
      var i := r.buffer;
      var here, next := chain[i][r.offset..], Tail(chain, i + 1);
      var s := Flatten(chain)[k..];
      assert here + next == s;
      WordBytes(chain, i, here, next);
      if |s| >= 4 {
        assert s[0] == Flatten(chain)[k] && s[1] == Flatten(chain)[k + 1];
        assert s[2] == Flatten(chain)[k + 2] && s[3] == Flatten(chain)[k + 3];
      }
    }
  }

  /** The bytes after the current buffer start with the next buffer. */
  lemma WordBytes(chain: Chain, i: nat, here: seq<u8>, next: seq<u8>)
    requires i < |chain| && next == Tail(chain, i + 1)
    ensures i + 1 < |chain| ==> next == chain[i + 1] + Tail(chain, i + 2)
    ensures i + 2 >= |chain| ==> |next| == if i + 1 < |chain| then |chain[i + 1]| else 0
  {
  }

  /** With no empty buffer, reads agree at every offset if and only if the packet
      is shorter than a word or no inner buffer is shorter than three bytes. */
  lemma WordsAgreeIff(chain: Chain)
    requires NoEmpty(chain)
    ensures (forall k: nat :: ChainWord(chain, k) == FlatWord(Flatten(chain), k))
        <==> |Flatten(chain)| < 4 || MiddleLong(chain)
  {
    if MiddleLong(chain) {
      forall k: nat
        ensures ChainWord(chain, k) == FlatWord(Flatten(chain), k)
      {
        WordAgrees(chain, k);
      }
    } else if |Flatten(chain)| < 4 {
      forall k: nat
        ensures ChainWord(chain, k) == FlatWord(Flatten(chain), k)
      {
        ShortPacket(chain, k);
      }
    } else {
      var k := SplitWord(chain);
    }
  }

  lemma ShortPacket(chain: Chain, k: nat)
    requires |Flatten(chain)| < 4
    ensures ChainWord(chain, k) == Outside
  {
    LocateTail(chain, 0, k);
    var r := Locate(chain, 0, k);
    if r.Place? {
      WordBytes(chain, r.buffer, chain[r.buffer][r.offset..], Tail(chain, r.buffer + 1));
    }
  }

  /** The offset of the first byte of buffer i. */
  function StartOf(chain: Chain, i: nat): nat
    requires i <= |chain|
  {
    if i == 0 then 0 else StartOf(chain, i - 1) + |chain[i - 1]|
  }

  lemma {:induction false} LocateStart(chain: Chain, i: nat, off: nat, j: nat)
    requires j <= i < |chain| && off < |chain[i]|
    ensures StartOf(chain, j) <= StartOf(chain, i)
    ensures Locate(chain, j, StartOf(chain, i) - StartOf(chain, j) + off) == Place(i, off)
    decreases i - j
  {
    if j < i {
      LocateStart(chain, i, off, j + 1);
    }
  }

  lemma {:induction false} StartTail(chain: Chain, i: nat)
    requires i <= |chain|
    ensures StartOf(chain, i) + |Tail(chain, i)| == |Flatten(chain)|
  {
    if i > 0 {
      StartTail(chain, i - 1);
    }
  }

  /** A word that starts off bytes into buffer j and does not fit buffers j and j + 1. */
  lemma WordCut(chain: Chain, j: nat, off: nat)
    requires j + 1 < |chain| && off < |chain[j]| && |chain[j]| - off + |chain[j + 1]| < 4
    ensures ChainWord(chain, StartOf(chain, j) + off) == Outside
  {
    LocateStart(chain, j, off, 0);
  }

  /** A short inner buffer of a packet of at least a word splits some word in three. */
  lemma SplitWord(chain: Chain) returns (k: nat)
    requires NoEmpty(chain) && |Flatten(chain)| >= 4 && !MiddleLong(chain)
    ensures k + 4 <= |Flatten(chain)| && ChainWord(chain, k) == Outside
    ensures FlatWord(Flatten(chain), k).Value?
  {
    var i :| 0 < i < |chain| - 1 && |chain[i]| < 3;
    var before, after := |chain[i - 1]|, |Tail(chain, i + 1)|;
    SplitSizes(chain, i);
    if |chain[i]| + after >= 3 {
      k := StartOf(chain, i - 1) + before - 1;
      WordCut(chain, i - 1, before - 1);
    } else if before >= 2 {
      k := StartOf(chain, i - 1) + before - 2;
      WordCut(chain, i - 1, before - 2);
    } else {
      k := StartOf(chain, i - 2) + |chain[i - 2]| - 1;
      WordCut(chain, i - 2, |chain[i - 2]| - 1);
    }
  }

  lemma SplitSizes(chain: Chain, i: nat)
    requires NoEmpty(chain) && 0 < i < |chain| - 1
    ensures StartOf(chain, i - 1) + |chain[i - 1]| + |chain[i]| + |Tail(chain, i + 1)| == |Flatten(chain)|
    ensures |Tail(chain, i + 1)| >= 1
    ensures i >= 2 ==> StartOf(chain, i - 1) == StartOf(chain, i - 2) + |chain[i - 2]|
  {
    StartTail(chain, i);
  }
}
