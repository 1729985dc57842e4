/** The BSD-Compress database as the driver keeps it: arrays updated in place,
    bytes packed through a 32-bit accumulator. Every operation is proved against
    the value model of the dictionary and of the packet. */
module BsdComp {
  import opened Bits
  import opened Lzw
  import opened HashTable
  import opened BsdPacket
  import opened Mbufs
  import opened Marks
  import opened Options

  const CI_BSD_COMPRESS: nat := 21
  const CILEN_BSD_COMPRESS: nat := 3
  const BSD_CURRENT_VERSION: nat := 1

  /** A negotiated option that asks for codes of the given size. */
  predicate OptionOk(options: seq<u8>) {
    && |options| >= CILEN_BSD_COMPRESS
    && options[0] == CI_BSD_COMPRESS
    && options[1] == CILEN_BSD_COMPRESS
    && options[2] / 32 == BSD_CURRENT_VERSION
  }

  function OptionBits(options: seq<u8>): nat
    requires OptionOk(options)
  {
    options[2] % 32
  }

  // The large parts of the invariants, each folded under a mark of its own.

  const REGISTER: nat := 0
  const TABLE: nat := 1
  const LENS: nat := 2
  const CODING: nat := 3
  const COUNTING: nat := 4
  const DECODING: nat := 5

  // ----- the bit accumulator

  /** The accumulator: bits q, fewer than a byte between codes, left-justified in
      32 bits; bitno counts the free bits. */
  ghost predicate Holds(accm: nat, bitno: nat, q: seq<bool>) {
    |q| + bitno == 32 && forall n: nat {:trigger InPart(REGISTER, n)} :: InPart(REGISTER, n) ==> accm == Left32(q)
  }

  /** Append an n-bit code: shift it in below the bits held, then move whole bytes
      out. */
  method Output(accm0: nat, bitno0: nat, out0: seq<u8>, code: nat, n: nat, ghost q0: seq<bool>)
      returns (accm: nat, bitno: nat, out: seq<u8>, ghost q: seq<bool>)
    requires Holds(accm0, bitno0, q0) && |q0| < 8
    requires 9 <= n <= 15 && code < Pow2(n)
    ensures Holds(accm, bitno, q) && |q| < 8
    ensures BytesBits(out) + q == BytesBits(out0) + q0 + BitsOf(code, n)
  {
    assert InPart(REGISTER, 0);
    out := out0;
    bitno := bitno0 - n;
    var field := code * Pow2(bitno);
    Left32Or(accm0, field, q0, code, n);
    accm := Or(accm0, field);
    q := q0 + BitsOf(code, n);
    assert BytesBits(out) + q == BytesBits(out0) + q0 + BitsOf(code, n);
    while true
      invariant Holds(accm, bitno, q) && 8 <= |q| < 24
      invariant BytesBits(out) + q == BytesBits(out0) + q0 + BitsOf(code, n)
      decreases |q|
    {
      accm, out, q := PutByte(accm, out, q);
      bitno := bitno + 8;
      if bitno > 24 {
        break;
      }
    }
  }

  /** Move the top byte of the accumulator out. */
  method PutByte(accm0: nat, out0: seq<u8>, ghost q0: seq<bool>)
      returns (accm: nat, out: seq<u8>, ghost q: seq<bool>)
    requires 8 <= |q0| <= 32 && accm0 == Left32(q0)
    ensures q == q0[8..] && accm == Left32(q)
    ensures BytesBits(out) + q == BytesBits(out0) + q0
  {
    var top := accm0 / 0x100_0000;
    accm := accm0 * 256 % 0x1_0000_0000;
    ByteOut(accm0, q0, top, accm, out0);
    out := out0 + [top];
    q := q0[8..];
  }

  lemma ByteOut(accm0: nat, q0: seq<bool>, top: nat, accm: nat, out: seq<u8>)
    requires 8 <= |q0| <= 32 && accm0 == Left32(q0)
    requires top == accm0 / 0x100_0000 && accm == accm0 * 256 % 0x1_0000_0000
    ensures top < 256 && accm == Left32(q0[8..])
    ensures BytesBits(out + [top]) + q0[8..] == BytesBits(out) + q0
  {
    TopByte(accm0, q0);
    BytesBitsSnoc(out, top);
    PutTogether(BytesBits(out), q0);
  }

  lemma PutTogether(b: seq<bool>, q: seq<bool>)
    requires |q| >= 8
    ensures b + q[..8] + q[8..] == b + q
  {
  }

  lemma TopByte(accm: nat, q: seq<bool>)
    requires 8 <= |q| <= 32 && accm == Left32(q)
    ensures var top := accm / 0x100_0000; top < 256 && BitsOf(top, 8) == q[..8]
    ensures accm * 256 % 0x1_0000_0000 == Left32(q[8..])
  {
    assert Pow2(8) == 256 && Pow2(24) == 0x100_0000 by {
      Pow2Values();
    }
    Left32Take(q, 8);
    NumBound(q[..8]);
    BitsOfNum(q[..8]);
  }

  lemma {:induction false} AllOnes(n: nat)
    ensures BitsOf(Pow2(n) - 1, n) == Ones(n)
  {
    if n > 0 {
      AllOnes(n - 1);
    }
  }

  /** Or-ing ones in below the bits held fills their byte. */
  lemma FilledByte(accm: nat, field: nat, q: seq<bool>)
    requires 0 < |q| < 8 && accm == Left32(q) && field == 255 * Pow2(24 - |q|)
    ensures var top := Or(accm, field) / 0x100_0000;
      top < 256 && BitsOf(top, 8) == q + Ones(8 - |q|)
  {
    var q1 := q + Ones(8);
    assert Pow2(8) == 256 by {
      Pow2Values();
    }
    AllOnes(8);
    Left32Or(accm, field, q, 255, 8);
    TopByte(Or(accm, field), q1);
    assert q1[..8] == q + Ones(8 - |q|);
  }

  /** The last, partial byte of a packet is filled up with ones. */
  method PadByte(accm: nat, bitno: nat, out0: seq<u8>, ghost q: seq<bool>) returns (out: seq<u8>)
    requires Holds(accm, bitno, q) && 0 < |q| < 8
    ensures BytesBits(out) == BytesBits(out0) + q + Ones(8 - |q|)
  {
    assert InPart(REGISTER, 0);
    var field := 255 * Pow2(bitno - 8);
    FilledByte(accm, field, q);
    var top := Or(accm, field) / 0x100_0000;
    out := out0 + [top];
    BytesBitsSnoc(out0, top);
  }

  lemma PadLength(out: seq<u8>, q: seq<bool>, b: seq<bool>)
    requires BytesBits(out) + q == b && |q| < 8
    ensures PadOnes(b) == if q == [] then BytesBits(out) else BytesBits(out) + q + Ones(8 - |q|)
  {
    assert |b| % 8 == |q|;
    assert BytesBits(out) + [] == BytesBits(out);
    assert b + Ones(0) == b;
  }

  /** End a packet: a CLEAR if the dictionary was cleared, and the padding. */
  method CloseBits(accm0: nat, bitno0: nat, out0: seq<u8>, nb: nat, clear: bool, ghost q0: seq<bool>, ghost codes: seq<Code>)
      returns (out: seq<u8>)
    requires Holds(accm0, bitno0, q0) && |q0| < 8 && BytesBits(out0) + q0 == CodeBits(codes)
    requires 9 <= nb <= 15
    ensures out == Pack(PadOnes(CodeBits(if clear then codes + [Code(CLEAR, nb)] else codes)))
  {
    var accm, bitno := accm0, bitno0;
    ghost var q := q0;
    out := out0;
    if clear {
      ClearFits(nb);
      CodeBitsSnoc(codes, Code(CLEAR, nb));
      accm, bitno, out, q := Output(accm, bitno, out, CLEAR, nb, q);
    }
    ghost var b := CodeBits(if clear then codes + [Code(CLEAR, nb)] else codes);
    PadLength(out, q, b);
    if bitno != 32 {
      out := PadByte(accm, bitno, out, q);
    }
    PackedAs(out, b);
  }

  /** Shift a received byte in below the bits held. */
  method TakeByte(accm0: nat, bitno0: nat, b: u8, ghost q0: seq<bool>, ghost rest: seq<u8>)
      returns (accm: nat, bitno: nat, ghost q: seq<bool>)
    requires Holds(accm0, bitno0, q0) && |q0| <= 24 && rest != [] && rest[0] == b
    ensures Holds(accm, bitno, q) && q == q0 + BitsOf(b, 8)
    ensures q0 + BytesBits(rest) == q + BytesBits(rest[1..])
  {
    assert InPart(REGISTER, 0);
    bitno := bitno0 - 8;
    var field := b * Pow2(bitno);
    ShiftIn(accm0, field, q0, b);
    accm := Or(accm0, field);
    q := q0 + BitsOf(b, 8);
    FirstByteBits(rest);
    assert q0 + (BitsOf(b, 8) + BytesBits(rest[1..])) == q + BytesBits(rest[1..]);
  }

  lemma ShiftIn(accm: nat, field: nat, q: seq<bool>, b: u8)
    requires |q| <= 24 && accm == Left32(q) && field == b * Pow2(24 - |q|)
    ensures Or(accm, field) == Left32(q + BitsOf(b, 8))
  {
    Pow2Values();
    Left32Or(accm, field, q, b, 8);
  }

  lemma HoldsNothing()
    ensures Holds(0, 32, [])
  {
  }

  lemma FirstByteBits(rest: seq<u8>)
    requires rest != []
    ensures BytesBits(rest) == BitsOf(rest[0], 8) + BytesBits(rest[1..])
  {
    assert rest == [rest[0]] + rest[1..];
    BytesBitsAppend([rest[0]], rest[1..]);
    BytesBitsSnoc([], rest[0]);
    assert [] + [rest[0]] == [rest[0]];
  }

  /** Take the top n bits off the accumulator. */
  method TakeBits(accm0: nat, bitno0: nat, n: nat, ghost q0: seq<bool>)
      returns (code: nat, accm: nat, bitno: nat, ghost q: seq<bool>)
    requires Holds(accm0, bitno0, q0) && n <= |q0|
    ensures code == Num(q0[..n]) && q == q0[n..] && Holds(accm, bitno, q)
  {
    assert InPart(REGISTER, 0);
    Left32Take(q0, n);
    code := accm0 / Pow2(32 - n);
    accm := accm0 * Pow2(n) % 0x1_0000_0000;
    bitno := bitno0 + n;
    q := q0[n..];
  }

  lemma TodoSplit(todo: seq<bool>, q: seq<bool>, tail: seq<bool>, n: nat)
    requires todo == q + tail && n <= |q|
    ensures |todo| >= n && todo[..n] == q[..n] && todo[n..] == q[n..] + tail
  {
  }

  lemma WidthBound(d: seq<Entry>, width: nat, limit: nat, maxbits: nat)
    requires WidthOk(d, width, limit) && limit == MaxCode(maxbits) && maxbits <= 15
    ensures 9 <= width <= 15
  {
    if width > 15 {
      Pow2Mono(16, width);
      Pow2Mono(maxbits, 15);
    }
  }

  /** The bytes that follow offset off of buffer i. */
  method BytesFollowing(chain: Chain, i: nat, off: nat) returns (n: nat)
    requires i < |chain| && off <= |chain[i]|
    ensures n == |Rest(chain, i, off)|
  {
    n := |chain[i]| - off;
    var k := i + 1;
    while k < |chain|
      invariant i + 1 <= k <= |chain|
      invariant n + |Tail(chain, k)| == |Rest(chain, i, off)|
    {
      n := n + |chain[k]|;
      k := k + 1;
    }
  }

  /** The next byte of a chain and the position after it. */
  method NextByte(chain: Chain, i0: nat, off0: nat) returns (ok: bool, b: u8, i: nat, off: nat)
    requires i0 < |chain| && off0 <= |chain[i0]|
    ensures ok <==> Rest(chain, i0, off0) != []
    ensures ok ==> i < |chain| && off <= |chain[i]|
    ensures ok ==> b == Rest(chain, i0, off0)[0] && Rest(chain, i, off) == Rest(chain, i0, off0)[1..]
  {
    i, off, b := i0, off0, 0;
    while off >= |chain[i]|
      invariant i < |chain| && off <= |chain[i]| && Rest(chain, i, off) == Rest(chain, i0, off0)
      decreases |chain| - i
    {
      RestNext(chain, i);
      i := i + 1;
      if i == |chain| {
        return false, b, i, off;
      }
      off := 0;
      RestStart(chain, i);
    }
    RestByte(chain, i, off);
    b := chain[i][off];
    return true, b, i, off + 1;
  }

  /** The sequence number behind the header. */
  method TakeNumber(chain: Chain) returns (ok: bool, number: nat, i: nat, off: nat)
    requires |chain| >= 1 && |chain[0]| >= PPP_HDRLEN
    ensures ok <==> |Flatten(chain)| >= PPP_HDRLEN + BSD_OVHD
    ensures ok ==> number == Word(Flatten(chain)[4], Flatten(chain)[5])
    ensures ok ==> i < |chain| && off <= |chain[i]| && Rest(chain, i, off) == Flatten(chain)[PPP_HDRLEN + BSD_OVHD..]
  {
    ghost var p := Flatten(chain);
    HeaderBytes(chain);
    RestFlatten(chain, PPP_HDRLEN);
    number := 0;
    var hi, lo;
    ok, hi, i, off := NextByte(chain, 0, PPP_HDRLEN);
    if !ok {
      return;
    }
    ok, lo, i, off := NextByte(chain, i, off);
    if !ok {
      return;
    }
    assert p[PPP_HDRLEN..][1..][1..] == p[PPP_HDRLEN + BSD_OVHD..];
    number := Word(hi, lo);
  }

  // ----- the database

  ghost predicate Stored(t: seq<Slot>, bits: nat, d: seq<Entry>) {
    forall n: nat {:trigger InPart(TABLE, n)} :: InPart(TABLE, n) ==> Represents(t, bits, d)
  }

  ghost predicate Lengths(lens: seq<nat>, d: seq<Entry>)
    requires WellFormed(d) && MaxEnt(d) < |lens|
  {
    forall n: nat {:trigger InPart(LENS, n)} :: InPart(LENS, n) ==>
      forall code {:trigger lens[code]} :: 0 <= code && IsCode(d, code) ==> lens[code] == |Expand(d, code)|
  }

  lemma Taken(t: seq<Slot>, bits: nat, d: seq<Entry>, e: Entry, j: nat, h: nat) returns (t': seq<Slot>)
    requires Stored(t, bits, d) && MaxEnt(d) < MaxCode(bits) && IsCode(d, e.prefix)
    requires Free(t, bits, e, j, h, MaxEnt(d))
    ensures MaxEnt(d) + 1 < |t| && t[MaxEnt(d) + 1].cptr < |t|
    ensures t' == TakeOver(t, h, MaxEnt(d), Key(e)) && WellFormed(d + [e]) && Stored(t', bits, d + [e])
  {
    assert InPart(TABLE, 0);
    WellFormedSnoc(d, e);
    t' := TakeOver(t, h, MaxEnt(d), Key(e));
    TakeOverRepresents(t, bits, d, e, j, h);
  }

  /** All that a packet compresses to: what was sent, then what the rest gives. */
  ghost predicate Remains(all: Encoded, sent: seq<Code>, d: seq<Entry>, width: nat, ent: nat, rest: seq<u8>, limit: nat) {
    forall n: nat {:trigger InPart(CODING, n)} :: InPart(CODING, n) ==> all == After(sent, Encode(d, width, ent, rest, limit))
  }

  /** Compressing the data gives e. */
  ghost predicate Compresses(e: Encoded, d: seq<Entry>, width: nat, ent: nat, data: seq<u8>, limit: nat) {
    Remains(e, [], d, width, ent, data, limit)
  }

  /** Counting and checking a packet that compresses to e leads to the state after
      it, and these are the codes to send. */
  ghost predicate Passes(db: Db, e: Encoded, n: nat, after: Db, codes: seq<Code>) {
    forall k: nat {:trigger InPart(COUNTING, k)} :: InPart(COUNTING, k) ==> after == Checked(db, e, n) && codes == Closed(db, e, n)
  }

  /** The compressor's result on a packet, from what its data compresses to. */
  lemma CompressResult(db: Db, p: seq<u8>, first: nat, data: seq<u8>, maxolen: int, e: Encoded, n: nat, codes: seq<Code>, after: Db,
                       total: seq<u8>, limit: int)
    requires DbOk(db) && |p| >= PPP_HDRLEN && Eligible(p)
    requires first == p[3] && data == p[PPP_HDRLEN..]
    requires Compresses(e, db.dict, db.width, first, data, MaxCode(db.bits))
    requires n == DataLength(p) && Passes(db, e, n, after, codes)
    requires total == Header(db, p) + Pack(PadOnes(CodeBits(codes)))
    requires limit == if maxolen > |p| then |p| else maxolen
    ensures BsdPacket.Compress(db, p, maxolen) == Sent(after, if |total| > limit then None else Some(total), |total|)
    ensures DbOk(after)
  {
    assert InPart(CODING, 0) && InPart(COUNTING, 0);
    assert e == Codes(db, p);
    AfterPacketOk(db, p);
  }

  lemma IncompResult(db: Db, p: seq<u8>, first: nat, data: seq<u8>, e: Encoded, n: nat, codes: seq<Code>, after: Db)
    requires DbOk(db) && |p| >= PPP_HDRLEN && Eligible(p)
    requires first == p[3] && data == p[PPP_HDRLEN..]
    requires Compresses(e, db.dict, db.width, first, data, MaxCode(db.bits))
    requires n == DataLength(p) && Passes(db, e, n, after, codes)
    ensures BsdPacket.Incomp(db, p) == after && DbOk(after)
  {
    assert InPart(CODING, 0) && InPart(COUNTING, 0);
    assert e == Codes(db, p);
    AfterPacketOk(db, p);
  }

  lemma NothingSent(d: seq<Entry>, width: nat, ent: nat, data: seq<u8>, limit: nat) returns (all: Encoded)
    ensures Compresses(all, d, width, ent, data, limit)
  {
    all := Encode(d, width, ent, data, limit);
    assert [] + all.codes == all.codes;
  }

  lemma NothingLeft(all: Encoded, sent: seq<Code>, d: seq<Entry>, width: nat, ent: nat, limit: nat)
    requires Remains(all, sent, d, width, ent, [], limit)
    ensures all == Encoded(sent + [Code(ent, width)], d, width)
  {
    assert InPart(CODING, 0);
  }

  /** The three ways a probe of a search can come out. */
  lemma ProbeMisses(t: seq<Slot>, bits: nat, d: seq<Entry>, e: Entry, j: nat, h: nat)
    requires Stored(t, bits, d) && Home(e, bits) < |t| && 1 < |t| && j < |t|
    requires Searched(t, Home(e, bits), j, MaxEnt(d), Key(e))
    requires h == Probe(Home(e, bits), j, |t|) && t[h].codem1 >= MaxEnt(d)
    ensures Lookup(d, e) == None && Free(t, bits, e, j, h, MaxEnt(d))
  {
    assert InPart(TABLE, 0);
    SearchMiss(t, bits, d, e, j);
    SearchedFree(t, bits, e, j, h, MaxEnt(d));
  }

  lemma ProbeHits(t: seq<Slot>, bits: nat, d: seq<Entry>, e: Entry, j: nat, h: nat)
    requires Stored(t, bits, d) && e.prefix < 65536 && Home(e, bits) < |t| && 1 < |t|
    requires Searched(t, Home(e, bits), j, MaxEnt(d), Key(e))
    requires h == Probe(Home(e, bits), j, |t|) && t[h].codem1 < MaxEnt(d) && t[h].fcode == Key(e)
    ensures Lookup(d, e) == Some(t[h].codem1 + 1)
  {
    assert InPart(TABLE, 0);
    SearchHit(t, bits, d, e, j, h);
  }

  lemma ProbeGoesOn(t: seq<Slot>, bits: nat, d: seq<Entry>, home: nat, j: nat, h: nat, key: nat)
    requires Stored(t, bits, d) && home < |t| && 1 < |t| && j < |t|
    requires Searched(t, home, j, MaxEnt(d), key)
    requires h == Probe(home, j, |t|) && t[h].codem1 < MaxEnt(d) && t[h].fcode != key
    ensures j + 1 < |t| && Searched(t, home, j + 1, MaxEnt(d), key)
    ensures Probe(home, j + 1, |t|) == Wrap(h + Step(home), |t|)
  {
    assert InPart(TABLE, 0);
    SearchOn(t, bits, home, j, h, MaxEnt(d), key);
  }

  lemma CodeFits(d: seq<Entry>, width: nat, ent: nat, limit: nat, maxbits: nat)
    requires IsCode(d, ent) && WidthOk(d, width, limit) && limit == MaxCode(maxbits) && maxbits <= 15
    ensures ent < Pow2(width) && 9 <= width <= 15
  {
    if width > 15 {
      Pow2Mono(16, width);
      Pow2Mono(maxbits, 15);
    }
  }

  lemma CodeBitsSnoc(codes: seq<Code>, code: Code)
    ensures CodeBits(codes + [code]) == CodeBits(codes) + BitsOf(code.value, code.width)
  {
    CodeBitsAppend(codes, [code]);
    CodeBitsCons(code, []);
    assert CodeBits([code]) == BitsOf(code.value, code.width);
  }

  /** The slot that a code's entry is stored in. */
  lemma CodeSlot(t: seq<Slot>, bits: nat, d: seq<Entry>, code: nat)
    requires Stored(t, bits, d) && FIRST <= code <= MaxEnt(d)
    ensures code < |t| && t[code].cptr < |t|
    ensures KeyEntry(t[t[code].cptr].fcode) == d[code - FIRST]
  {
    assert InPart(TABLE, 0);
    assert d[code - FIRST].prefix < 65536 by {
      PrefixBound(d, code - FIRST, MaxCode(bits));
    }
    KeyRoundTrip(d[code - FIRST]);
  }

  /** One step back through the string of a code. */
  lemma ExpandStep(d: seq<Entry>, code: nat, w: seq<u8>)
    requires WellFormed(d) && IsCode(d, code) && code > LAST
    ensures var e := d[code - FIRST];
      && IsCode(d, e.prefix) && e.prefix < code
      && Expand(d, code) + w == Expand(d, e.prefix) + ([e.suffix] + w)
  {
    var e := d[code - FIRST];
    assert IsCode(d[..code - FIRST], e.prefix);
    assert Expand(d, e.prefix) + [e.suffix] + w == Expand(d, e.prefix) + ([e.suffix] + w);
  }

  lemma LengthOf(lens: seq<nat>, d: seq<Entry>, code: nat)
    requires WellFormed(d) && MaxEnt(d) < |lens| && Lengths(lens, d) && IsCode(d, code)
    ensures lens[code] == |Expand(d, code)|
  {
    assert InPart(LENS, 0);
  }

  /** What one received byte leads to. */
  datatype ReadStep = More | SawClear | Stop(outcome: Outcome)

  lemma AcceptWidth(s: Decoder, code: nat, limit: nat)
    requires WellFormed(s.dict) && IsCode(s.dict, if code > MaxEnt(s.dict) then s.prev else code)
    ensures Accept(s, code, limit).width >= s.width
  {
  }

  /** Reading the bits from state s on has the result r. */
  ghost predicate Reading(r: Decoded, s: Decoder, todo: seq<bool>, limit: nat, mru: nat, maxbits: nat) {
    limit == MaxCode(maxbits) &&
    forall n: nat {:trigger InPart(DECODING, n)} :: InPart(DECODING, n) ==>
      DecoderOk(s, limit) && r == Decode(s, todo, limit, mru, maxbits)
  }

  lemma ReadingAll(s: Decoder, todo: seq<bool>, limit: nat, mru: nat, maxbits: nat) returns (r: Decoded)
    requires limit == MaxCode(maxbits) && DecoderOk(s, limit)
    ensures Reading(r, s, todo, limit, mru, maxbits)
  {
    r := Decode(s, todo, limit, mru, maxbits);
  }

  lemma ReadingOk(r: Decoded, s: Decoder, todo: seq<bool>, limit: nat, mru: nat, maxbits: nat)
    requires Reading(r, s, todo, limit, mru, maxbits) && maxbits <= 15
    ensures DecoderOk(s, limit) && 9 <= s.width <= 15
  {
    assert InPart(DECODING, 0);
    WidthBound(s.dict, s.width, limit, maxbits);
  }

  lemma ReadingEnd(r: Decoded, s: Decoder, todo: seq<bool>, limit: nat, mru: nat, maxbits: nat)
    requires Reading(r, s, todo, limit, mru, maxbits) && |todo| < s.width
    ensures r == Decoded(Finished, s)
  {
    assert InPart(DECODING, 0);
  }

  lemma ReadingClear(r: Decoded, s: Decoder, todo: seq<bool>, limit: nat, mru: nat, maxbits: nat)
    requires Reading(r, s, todo, limit, mru, maxbits)
    requires |todo| >= s.width && Num(todo[..s.width]) == CLEAR
    ensures r == Decoded(if |todo| - s.width >= 8 then Fatal else Cleared, s)
  {
    assert InPart(DECODING, 0);
  }

  lemma ReadingStops(r: Decoded, s: Decoder, todo: seq<bool>, code: nat, limit: nat, mru: nat, maxbits: nat)
    requires Reading(r, s, todo, limit, mru, maxbits) && DecoderOk(s, limit)
    requires |todo| >= s.width && code == Num(todo[..s.width]) != CLEAR
    requires Verdict(s, code, limit, mru).Some?
    ensures r == Decoded(Verdict(s, code, limit, mru).value, s)
  {
    assert InPart(DECODING, 0);
  }

  lemma ReadingGoesOn(r: Decoded, s: Decoder, todo: seq<bool>, code: nat, limit: nat, mru: nat, maxbits: nat, s': Decoder)
    requires Reading(r, s, todo, limit, mru, maxbits) && DecoderOk(s, limit)
    requires |todo| >= s.width && code == Num(todo[..s.width]) != CLEAR
    requires Verdict(s, code, limit, mru).None? && s' == Accept(s, code, limit)
    ensures Reading(r, s', todo[s.width..], limit, mru, maxbits)
  {
    assert InPart(DECODING, 0);
    AcceptOk(s, code, limit, maxbits);
  }

  /** A packet whose codes read as r ends in this status and state, if both are
      determined. */
  ghost predicate Concludes(db: Db, r: Decoded, len: nat, status: Option<Status>, after: Db) {
    forall n: nat {:trigger InPart(COUNTING, n)} :: InPart(COUNTING, n) ==>
      var c := Conclude(db, r, len, 0, 0);
      if status.None? then c.Undetermined? else c.Received? && c.status == status.value && c.db == after
  }

  /** The state a packet's codes leave, the packet counted, and a settled packet. */
  lemma SettleResult(db: Db, r: Decoded, len: nat, counted: Db, after: Db)
    requires r.outcome.Finished? || r.outcome.Cleared?
    requires counted == if r.outcome.Cleared? then BsdPacket.Clear(db.(dict := r.state.dict, width := r.state.width))
                        else db.(dict := r.state.dict, width := r.state.width,
                                 bytesOut := db.bytesOut + len, inCount := db.inCount + |r.state.out|)
    requires after == BsdPacket.Check(counted).0
    ensures Concludes(db, r, len, Some(DecompOk), after)
  {
  }

  lemma StopResult(db: Db, r: Decoded, len: nat)
    requires !r.outcome.Finished? && !r.outcome.Cleared?
    ensures var status := match r.outcome case Fatal => Some(DecompFatalError) case TooLong => Some(DecompError) case _ => None;
      Concludes(db, r, len, status, db.(dict := r.state.dict, width := r.state.width))
  {
  }

  lemma DecompressResult(db: Db, mru: nat, p: seq<u8>, start: Decoder, data: seq<u8>, todo: seq<bool>, r: Decoded, db1: Db,
                         status: Option<Status>, dmp: Option<seq<u8>>, after: Db)
    requires DbOk(db) && |p| >= PPP_HDRLEN + BSD_OVHD && Word(p[4], p[5]) == db.seqno
    requires start == Decoder(db.dict, db.width, CLEAR, []) && data == p[PPP_HDRLEN + BSD_OVHD..] && todo == BytesBits(data)
    requires Reading(r, start, todo, MaxCode(db.bits), mru, db.bits)
    requires db1 == db.(seqno := (db.seqno + 1) % 65536)
    requires Concludes(db1, r, |data|, status, after)
    requires dmp == if status == Some(DecompOk) then Some([p[0], p[1], 0] + r.state.out) else None
    ensures status.None? <==> BsdPacket.Decompress(db, mru, p).Undetermined?
    ensures status.Some? ==> BsdPacket.Decompress(db, mru, p) == Received(after, status.value, dmp) && DbOk(after)
  {
    assert r == ReadData(db, mru, data) by {
      assert InPart(DECODING, 0);
    }
    var hdr := p[..PPP_HDRLEN + BSD_OVHD];
    assert p == hdr + data;
    DecompressAs(db, mru, hdr, data);
    ConcludesAs(db1, r, |data|, status, after, p[0], p[1]);
    ConcludeOk(db1, r, |data|, p[0], p[1]);
  }

  /** The address and control bytes only show in the packet. */
  lemma ConcludesAs(db: Db, r: Decoded, len: nat, status: Option<Status>, after: Db, addr: u8, ctrl: u8)
    requires Concludes(db, r, len, status, after)
    ensures Conclude(db, r, len, addr, ctrl) == if status.None? then Undetermined
      else Received(after, status.value, if status == Some(DecompOk) then Some([addr, ctrl, 0] + r.state.out) else None)
  {
    assert InPart(COUNTING, 0);
  }

  lemma HeaderBytes(chain: Chain)
    requires |chain| >= 1 && |chain[0]| >= PPP_HDRLEN
    ensures |Flatten(chain)| >= PPP_HDRLEN
    ensures forall k :: 0 <= k < PPP_HDRLEN ==> Flatten(chain)[k] == chain[0][k]
  {
  }

  lemma ClearFits(width: nat)
    requires width >= 9
    ensures CLEAR < Pow2(width)
  {
    Pow2Values();
    Pow2Mono(9, width);
  }

  /** Bytes whose bits are b, padded, are the packed b. */
  lemma PackedAs(out: seq<u8>, b: seq<bool>)
    requires BytesBits(out) == PadOnes(b)
    ensures out == Pack(PadOnes(b))
  {
    BytesBitsPack(PadOnes(b));
    BytesBitsInjective(out, Pack(PadOnes(b)));
  }

  /** The length of the string that the newest code stands for. */
  lemma NewestLength(before: seq<nat>, lens: seq<nat>, d: seq<Entry>, e: Entry)
    requires WellFormed(d) && IsCode(d, e.prefix) && MaxEnt(d) + 1 < |before| && Lengths(before, d)
    requires lens == before[MaxEnt(d) + 1 := before[e.prefix] + 1]
    ensures WellFormed(d + [e]) && Lengths(lens, d + [e])
  {
    var d' := d + [e];
    WellFormedSnoc(d, e);
    assert InPart(LENS, 0);
    forall code | 0 <= code && IsCode(d', code)
      ensures lens[code] == |Expand(d', code)|
    {
      if code == MaxEnt(d') {
        ExpandPrefix(d, d', e.prefix);
      } else {
        ExpandPrefix(d, d', code);
      }
    }
  }

  class Database {
    const bits: nat
    const decomp: bool
    const dict: array<Slot>
    const lens: array<nat>
    var mru: nat
    var nBits: nat
    var maxEnt: nat
    var seqno: nat
    var inCount: nat
    var bytesOut: nat
    var ratio: nat
    var checkpoint: nat
    ghost var entries: seq<Entry>

    /** The arrays have the sizes the code size calls for. */
    ghost predicate Allocated() {
      && 9 <= bits <= 15
      && dict.Length == HashSize(bits)
      && (decomp ==> lens.Length == MaxCode(bits) + 1)
    }

    /** The table stores the entries. */
    ghost predicate TableOk()
      reads this, dict
    {
      && Allocated() && maxEnt == MaxEnt(entries)
      && WellFormed(entries) && MaxEnt(entries) <= MaxCode(bits) <= BADCODEM1
      && Stored(dict[..], bits, entries)
    }

    /** A decompressor knows the length of every string. */
    ghost predicate LensOk()
      reads this, lens
    {
      && Allocated() && WellFormed(entries) && MaxEnt(entries) <= MaxCode(bits)
      && (decomp ==> Lengths(lens[..], entries))
    }

    ghost function State(): Db
      reads this
    {
      Db(bits, entries, nBits, seqno, inCount, bytesOut, ratio, checkpoint)
    }

    ghost predicate Valid()
      reads this, dict, lens
    {
      TableOk() && LensOk() && DbOk(State())
    }

    /** Allocate for codes of the given size. */
    constructor (bits: nat, decomp: bool)
      requires 9 <= bits <= 15
      ensures this.bits == bits && this.decomp == decomp && Allocated()
      ensures fresh(dict) && fresh(lens)
    {
      this.bits := bits;
      this.decomp := decomp;
      dict := new Slot[HashSize(bits)](_ => Slot(0, 0, 0));
      lens := new nat[if decomp then MaxCode(bits) + 1 else 0];
      mru, nBits, maxEnt, seqno := 0, 0, 0, 0;
      inCount, bytesOut, ratio, checkpoint := 0, 0, 0, 0;
      entries := [];
    }

    /** Allocate as a negotiated option asks; refused when it is malformed or its code
        size is not supported. */
    static method Allocate(options: seq<u8>, decomp: bool) returns (db: Database?)
      ensures db == null <==> !OptionOk(options) || !(9 <= OptionBits(options) <= 15)
      ensures db != null <==> |options| >= 3 && options[0] == 21 && options[1] == 3 && 32 + 9 <= options[2] <= 32 + 15
      ensures db != null ==> 32 + db.bits == options[2]
      ensures db != null ==> fresh(db) && fresh(db.dict) && fresh(db.lens)
      ensures db != null ==> db.bits == OptionBits(options) && db.decomp == decomp && db.Allocated()
    {
      if !OptionOk(options) {
        return null;
      }
      var bits := OptionBits(options);
      if bits < 9 || bits > 15 {
        return null;
      }
      db := new Database(bits, decomp);
    }

    /** Forget the dictionary. The table is left as it is. */
    method Clear()
      requires Allocated() && Stored(dict[..], bits, entries) && LensOk()
      modifies this
      ensures State() == BsdPacket.Clear(old(State()))
      ensures TableOk() && LensOk()
      ensures mru == old(mru)
    {
      assert InPart(TABLE, 0) && InPart(LENS, 0);
      ForgetAll(dict[..], bits, entries);
      maxEnt := FIRST - 1;
      nBits := INIT_BITS;
      ratio := 0;
      bytesOut := 0;
      inCount := 0;
      checkpoint := CHECK_GAP;
      entries := [];
    }

    method Reset()
      requires Allocated() && Stored(dict[..], bits, entries) && LensOk()
      modifies this
      ensures Valid() && mru == old(mru)
      ensures State() == BsdPacket.Reset(old(State()))
    {
      seqno := 0;
      Clear();
      ClearOk(old(State()).(seqno := 0));
    }

    /** See whether it is time to forget a full dictionary. */
    method Check() returns (clear: bool)
      requires TableOk() && LensOk()
      modifies this
      ensures TableOk() && LensOk() && mru == old(mru)
      ensures (State(), clear) == BsdPacket.Check(old(State()))
      ensures Judged(old(State()), State(), clear)
    {
      CheckDecides(State());
      if inCount >= checkpoint {
        if inCount >= RATIO_MAX || bytesOut >= RATIO_MAX {
          inCount := inCount - inCount / 4;
          bytesOut := bytesOut - bytesOut / 4;
        }
        checkpoint := inCount + CHECK_GAP;
        assert State() == Age(old(State()));
        if maxEnt >= MaxCode(bits) {
          var newRatio := inCount * RATIO_SCALE;
          if bytesOut != 0 {
            newRatio := newRatio / bytesOut;
          }
          assert newRatio == Ratio(State());
          if newRatio < ratio || newRatio < RATIO_SCALE {
            Clear();
            return true;
          }
          ratio := newRatio;
        }
      }
      return false;
    }

    /** Prepare an allocated database. */
    method Init(options: seq<u8>, mru: nat) returns (ok: bool)
      requires Allocated()
      modifies this, dict, lens
      ensures ok <==> |options| >= 3 && options[0] == 21 && options[1] == 3 && options[2] == 32 + bits
      ensures ok ==> Valid() && this.mru == mru
      ensures ok ==> State() == BsdPacket.Reset(Db(bits, [], 0, 0, 0, 0, 0, 0))
    {
      if !OptionOk(options) || OptionBits(options) != bits {
        return false;
      }
      Pow2Values();
      Pow2Mono(9, bits);
      var i;
      if decomp {
        i := LAST + 1;
        while i != 0
          invariant 0 <= i <= LAST + 1
          invariant forall k :: i <= k <= LAST ==> lens[k] == 1
        {
          i := i - 1;
          lens[i] := 1;
        }
      }
      i := dict.Length;
      while i != 0
        invariant 0 <= i <= dict.Length
        invariant decomp ==> forall k :: 0 <= k <= LAST ==> lens[k] == 1
        invariant forall k :: i <= k < dict.Length ==> dict[k].codem1 == BADCODEM1 && dict[k].cptr == 0
      {
        i := i - 1;
        dict[i] := dict[i].(codem1 := BADCODEM1, cptr := 0);
      }
      this.mru := mru;
      entries := [];
      FreshTable(dict[..], bits);
      Reset();
      return true;
    }

    /** Look (ent, c) up: the slot that stores it, or the free slot where it belongs. */
    method Search(ent: nat, c: u8) returns (found: bool, h: nat, ghost j: nat)
      requires TableOk() && IsCode(entries, ent)
      ensures h < dict.Length
      ensures found ==> Lookup(entries, Entry(ent, c)) == Some(dict[h].codem1 + 1)
      ensures !found ==> Lookup(entries, Entry(ent, c)) == None && Free(dict[..], bits, Entry(ent, c), j, h, maxEnt)
    {
      ghost var t := dict[..];
      ghost var e := Entry(ent, c);
      HashInRange(e, bits);
      var fcode := Key(Entry(ent, c));
      h := Hash(Entry(ent, c), HashShift(bits));
      ghost var home := h;
      j := 0;
      var disp := Step(h);
      while true
        invariant 0 <= j < |t| && h == Probe(home, j, |t|)
        invariant Searched(t, home, j, maxEnt, fcode)
        decreases |t| - j
      {
        if dict[h].codem1 >= maxEnt {
          ProbeMisses(t, bits, entries, e, j, h);
          return false, h, j;
        }
        if dict[h].fcode == fcode {
          ProbeHits(t, bits, entries, e, j, h);
          return true, h, j;
        }
        ProbeGoesOn(t, bits, entries, home, j, h, fcode);
        h := Wrap(h + disp, dict.Length);
        j := j + 1;
      }
    }

    /** Look for the free slot where (ent, c) belongs, whether or not it is stored
        already. */
    method SearchFree(ent: nat, c: u8) returns (h: nat, ghost j: nat)
      requires TableOk() && IsCode(entries, ent)
      ensures h < dict.Length && Free(dict[..], bits, Entry(ent, c), j, h, maxEnt)
    {
      ghost var t := dict[..];
      assert InPart(TABLE, 0);
      HashInRange(Entry(ent, c), bits);
      h := Hash(Entry(ent, c), HashShift(bits));
      ghost var home := h;
      j := 0;
      var disp := Step(h);
      while dict[h].codem1 < maxEnt
        invariant 0 <= j < |t| && h == Probe(home, j, |t|)
        invariant PathBelow(t, home, j, maxEnt)
        decreases |t| - j
      {
        ProbeOn(t, bits, home, j, h, maxEnt);
        h := Wrap(h + disp, dict.Length);
        j := j + 1;
      }
    }

    /** Give the next code to (ent, c), stored in slot h. */
    method Claim(h: nat, ent: nat, c: u8, ghost j: nat)
      requires TableOk() && maxEnt < MaxCode(bits) && IsCode(entries, ent)
      requires h < dict.Length && Free(dict[..], bits, Entry(ent, c), j, h, maxEnt)
      modifies this`maxEnt, this`entries, dict
      ensures TableOk() && entries == old(entries) + [Entry(ent, c)]
    {
      ghost var t := dict[..];
      ghost var e := Entry(ent, c);
      ghost var t' := Taken(t, bits, entries, e, j, h);
      var was := dict[maxEnt + 1].cptr;
      if dict[was].codem1 == maxEnt {
        dict[was] := dict[was].(codem1 := BADCODEM1);
      }
      dict[maxEnt + 1] := dict[maxEnt + 1].(cptr := h);
      dict[h] := dict[h].(codem1 := maxEnt, fcode := Key(Entry(ent, c)));
      assert dict[..] == t';
      maxEnt := maxEnt + 1;
      entries := entries + [e];
    }
  
    /** Enter (ent, c) under the next code, in the free slot h. */
    method Install(h: nat, ent: nat, c: u8, ghost j: nat)
      requires TableOk() && LensOk() && maxEnt < MaxCode(bits) && IsCode(entries, ent)
      requires h < dict.Length && Free(dict[..], bits, Entry(ent, c), j, h, maxEnt)
      modifies this`maxEnt, this`entries, dict, lens
      ensures TableOk() && LensOk() && entries == old(entries) + [Entry(ent, c)]
    {
      Claim(h, ent, c, j);
      if decomp {
        ghost var before := lens[..];
        lens[maxEnt] := lens[ent] + 1;
        NewestLength(before, lens[..], old(entries), Entry(ent, c));
      }
    }

    /** Take one byte into the current match, or end the match and enter it. */
    method Advance(ent0: nat, nb0: nat, c: u8) returns (emit: bool, ent: nat, nb: nat)
      requires TableOk() && LensOk() && IsCode(entries, ent0)
      requires WidthOk(entries, nb0, MaxCode(bits)) && nBits == nb0
      modifies this`nBits, this`maxEnt, this`entries, dict, lens
      ensures TableOk() && LensOk() && IsCode(entries, ent)
      ensures WidthOk(entries, nb, MaxCode(bits)) && nBits == nb
      ensures !emit ==> Lookup(old(entries), Entry(ent0, c)) == Some(ent) && entries == old(entries) && nb == nb0
      ensures emit ==> Lookup(old(entries), Entry(ent0, c)) == None && ent == c
      ensures emit ==> (entries, nb) == Enter(old(entries), nb0, Entry(ent0, c), MaxCode(bits))
    {
      nb := nb0;
      var found, h;
      ghost var j;
      found, h, j := Search(ent0, c);
      if found {
        emit, ent := false, dict[h].codem1 + 1;
      } else {
        emit, ent := true, c;
        EnterKeeps(entries, nb0, Entry(ent0, c), MaxCode(bits), bits);
        if maxEnt < MaxCode(bits) {
          if maxEnt >= MaxCode(nb) {
            nb := nb + 1;
            nBits := nb;
          }
          Install(h, ent0, c, j);
        }
      }
    }
  
    /** Compress one more byte; rest is what is left, from this byte on. */
    method CompressByte(ent0: nat, nb0: nat, c: u8, accm0: nat, bitno0: nat, out0: seq<u8>,
                        ghost q0: seq<bool>, ghost sent0: seq<Code>, ghost all: Encoded, ghost rest: seq<u8>)
        returns (ent: nat, nb: nat, accm: nat, bitno: nat, out: seq<u8>, ghost q: seq<bool>, ghost sent: seq<Code>)
      requires TableOk() && LensOk() && IsCode(entries, ent0)
      requires WidthOk(entries, nb0, MaxCode(bits)) && nBits == nb0
      requires Holds(accm0, bitno0, q0) && |q0| < 8 && BytesBits(out0) + q0 == CodeBits(sent0)
      requires rest != [] && rest[0] == c && Remains(all, sent0, entries, nb0, ent0, rest, MaxCode(bits))
      modifies this`nBits, this`maxEnt, this`entries, dict, lens
      ensures TableOk() && LensOk() && IsCode(entries, ent)
      ensures WidthOk(entries, nb, MaxCode(bits)) && nBits == nb
      ensures Holds(accm, bitno, q) && |q| < 8 && BytesBits(out) + q == CodeBits(sent)
      ensures Remains(all, sent, entries, nb, ent, rest[1..], MaxCode(bits))
    {
      assert InPart(CODING, 0);
      accm, bitno, out, q, sent := accm0, bitno0, out0, q0, sent0;
      CodeFits(entries, nb0, ent0, MaxCode(bits), bits);
      EncodeByte(entries, nb0, ent0, c, rest[1..], MaxCode(bits));
      assert rest == [c] + rest[1..];
      var emit;
      emit, ent, nb := Advance(ent0, nb0, c);
      if emit {
        accm, bitno, out, q := Output(accm0, bitno0, out0, ent0, nb0, q0);
        CodeBitsSnoc(sent0, Code(ent0, nb0));
        AfterAfter(sent0, [Code(ent0, nb0)], Encode(entries, nb, ent, rest[1..], MaxCode(bits)));
        sent := sent0 + [Code(ent0, nb0)];
      }
    }

    /** Compress the bytes of a chain after the header, up to the last match, which
        is returned rather than put out. */
    method CompressData(chain: Chain, proto: nat)
        returns (ent: nat, nb: nat, accm: nat, bitno: nat, out: seq<u8>, ilen: nat, ghost q: seq<bool>, ghost sent: seq<Code>)
      requires Valid() && |chain| >= 1 && |chain[0]| >= PPP_HDRLEN && proto <= LAST
      modifies this`nBits, this`maxEnt, this`entries, dict, lens
      ensures TableOk() && LensOk() && IsCode(entries, ent)
      ensures WidthOk(entries, nb, MaxCode(bits)) && nBits == nb
      ensures Compresses(Encoded(sent + [Code(ent, nb)], entries, nb),
                         old(entries), old(nBits), proto, Flatten(chain)[PPP_HDRLEN..], MaxCode(bits))
      ensures Holds(accm, bitno, q) && |q| < 8 && BytesBits(out) + q == CodeBits(sent)
      ensures ilen == |Flatten(chain)| - PPP_HDRLEN + 1
    {
      ghost var limit := MaxCode(bits);
      ghost var data := Flatten(chain)[PPP_HDRLEN..];
      ghost var all := NothingSent(entries, nBits, proto, data, limit);
      ent, nb := proto, nBits;
      accm, bitno, out := 0, 32, [];
      q, sent := [], [];
      var i, off := 0, PPP_HDRLEN;
      ilen := |chain[0]| - PPP_HDRLEN + 1;
      RestFlatten(chain, PPP_HDRLEN);
      ghost var rest := data;
      HoldsNothing();
      while true
        invariant 0 <= i < |chain| && 0 <= off <= |chain[i]|
        invariant TableOk() && LensOk() && IsCode(entries, ent)
        invariant WidthOk(entries, nb, limit) && nBits == nb
        invariant rest == Rest(chain, i, off) && Remains(all, sent, entries, nb, ent, rest, limit)
        invariant Holds(accm, bitno, q) && |q| < 8 && BytesBits(out) + q == CodeBits(sent)
        invariant ilen + |Tail(chain, i + 1)| == |data| + 1
        decreases |chain| - i, |chain[i]| - off
      {
        if off >= |chain[i]| {
          RestNext(chain, i);
          i := i + 1;
          if i == |chain| {
            NothingLeft(all, sent, entries, nb, ent, limit);
            break;
          }
          off := 0;
          RestStart(chain, i);
          ilen := ilen + |chain[i]|;
          continue;
        }
        var c := chain[i][off];
        RestByte(chain, i, off);
        off := off + 1;
        ent, nb, accm, bitno, out, q, sent :=
          CompressByte(ent, nb, c, accm, bitno, out, q, sent, all, rest);
        rest := rest[1..];
      }
    }
  
    /** Compress a packet. The result is the compressed packet, unless it is not
        wanted, and its length. */
    method Compress(chain: Chain, slen: nat, maxolen: int) returns (mret: Option<seq<u8>>, length: nat)
      requires Valid() && |chain| >= 1 && |chain[0]| >= PPP_HDRLEN && slen == |Flatten(chain)|
      modifies this, dict, lens
      ensures Valid() && mru == old(mru)
      ensures BsdPacket.Compress(old(State()), Flatten(chain), maxolen) == Sent(State(), mret, length)
      ensures Sends(old(State()), Flatten(chain), maxolen, Sent(State(), mret, length))
    {
      ghost var db, p := State(), Flatten(chain);
      HeaderBytes(chain);
      CompressSends(db, p, maxolen);
      var proto := Word(chain[0][2], chain[0][3]);
      if proto < 0x21 || proto > 0xf9 {
        return None, slen;
      }
      var limit := if maxolen > slen then slen else maxolen;
      var header := [chain[0][0], chain[0][1], 0, PPP_COMP, seqno / 256, seqno % 256];
      assert header == Header(db, p);
      var packed;
      ghost var e, codes, n;
      packed, e, codes, n := CompressBody(chain, proto);
      var total := header + packed;
      CompressResult(db, p, proto, Flatten(chain)[PPP_HDRLEN..], maxolen, e, n, codes, State(), total, limit);
      return if |total| > limit then None else Some(total), |total|;
    }

    method CompressBody(chain: Chain, proto: nat) returns (out: seq<u8>, ghost e: Encoded, ghost codes: seq<Code>, ghost n: nat)
      requires Valid() && |chain| >= 1 && |chain[0]| >= PPP_HDRLEN && proto == chain[0][3]
      modifies this, dict, lens
      ensures TableOk() && LensOk() && mru == old(mru)
      ensures Compresses(e, old(entries), old(nBits), proto, Flatten(chain)[PPP_HDRLEN..], MaxCode(bits))
      ensures n == |Flatten(chain)| - PPP_HDRLEN + 1 && Passes(old(State()), e, n, State(), codes)
      ensures out == Pack(PadOnes(CodeBits(codes)))
    {
      ghost var db := State();
      HeaderBytes(chain);
      var ent, nb, accm, bitno, ilen;
      ghost var q, sent;
      ent, nb, accm, bitno, out, ilen, q, sent := CompressData(chain, proto);
      e := Encoded(sent + [Code(ent, nb)], entries, nb);
      CodeFits(entries, nb, ent, MaxCode(bits), bits);
      CodeBitsSnoc(sent, Code(ent, nb));
      accm, bitno, out, q := Output(accm, bitno, out, ent, nb, q);
      var clear;
      n := ilen;
      clear, codes := CountPacket(db, e, nb, |out| + (if bitno < 32 then 1 else 0), ilen);
      out := CloseBits(accm, bitno, out, nb, clear, q, e.codes);
    }

    /** Count a packet of ilen bytes that came to bytes output bytes, check the
        ratio, and settle the code width for the next packet. */
    method CountPacket(ghost db: Db, ghost e: Encoded, nb: nat, bytes: nat, ilen: nat)
        returns (clear: bool, ghost codes: seq<Code>)
      requires TableOk() && LensOk()
      requires e.dict == entries && e.width == nb == nBits && bytes == BytesFor(|CodeBits(e.codes)|)
      requires State() == db.(dict := entries, width := nb)
      modifies this
      ensures TableOk() && LensOk() && mru == old(mru)
      ensures Passes(db, e, ilen, State(), codes)
      ensures codes == if clear then e.codes + [Code(CLEAR, nb)] else e.codes
    {
      seqno := (seqno + 1) % 65536;
      bytesOut := bytesOut + bytes;
      inCount := inCount + ilen;
      assert State() == Count(db, e, ilen);
      var full := maxEnt;
      clear := Check();
      if full >= MaxCode(nb) && full < MaxCode(bits) {
        nBits := nBits + 1;
      }
      codes := Closed(db, e, ilen);
    }
  
    /** Go through the bytes of a chain as CompressData does, only counting bits. */
    method IncompData(chain: Chain, proto: nat)
        returns (ent: nat, nb: nat, bitno: nat, ilen: nat, ghost sent: seq<Code>)
      requires Valid() && |chain| >= 1 && |chain[0]| >= PPP_HDRLEN && proto <= LAST
      modifies this`nBits, this`maxEnt, this`entries, dict, lens
      ensures TableOk() && LensOk() && nBits == nb
      ensures Compresses(Encoded(sent + [Code(ent, nb)], entries, nb),
                         old(entries), old(nBits), proto, Flatten(chain)[PPP_HDRLEN..], MaxCode(bits))
      ensures bitno == 7 + |CodeBits(sent)|
      ensures ilen == |Flatten(chain)| - PPP_HDRLEN + 1
    {
      ghost var limit := MaxCode(bits);
      ghost var data := Flatten(chain)[PPP_HDRLEN..];
      ghost var all := NothingSent(entries, nBits, proto, data, limit);
      ent, nb, bitno, ilen, sent := proto, nBits, 7, 1, [];
      var i, off := 0, PPP_HDRLEN;
      RestFlatten(chain, PPP_HDRLEN);
      ghost var rest := data;
      while true
        invariant 0 <= i < |chain| && 0 <= off <= |chain[i]|
        invariant TableOk() && LensOk() && IsCode(entries, ent)
        invariant WidthOk(entries, nb, limit) && nBits == nb
        invariant rest == Rest(chain, i, off) && Remains(all, sent, entries, nb, ent, rest, limit)
        invariant bitno == 7 + |CodeBits(sent)|
        invariant ilen + |rest| == |data| + 1
        decreases |chain| - i, |chain[i]| - off
      {
        if off >= |chain[i]| {
          RestNext(chain, i);
          i := i + 1;
          if i == |chain| {
            NothingLeft(all, sent, entries, nb, ent, limit);
            break;
          }
          off := 0;
          RestStart(chain, i);
          continue;
        }
        ilen := ilen + |chain[i]| - off;
        ent, nb, bitno, sent, rest := IncompBuffer(chain, i, off, ent, nb, bitno, sent, all, rest);
        off := |chain[i]|;
      }
    }

    /** The rest of one buffer. */
    method IncompBuffer(chain: Chain, i: nat, off0: nat, ent0: nat, nb0: nat, bitno0: nat, ghost sent0: seq<Code>,
                        ghost all: Encoded, ghost rest0: seq<u8>)
        returns (ent: nat, nb: nat, bitno: nat, ghost sent: seq<Code>, ghost rest: seq<u8>)
      requires i < |chain| && off0 <= |chain[i]|
      requires TableOk() && LensOk() && IsCode(entries, ent0)
      requires WidthOk(entries, nb0, MaxCode(bits)) && nBits == nb0
      requires bitno0 == 7 + |CodeBits(sent0)|
      requires rest0 == Rest(chain, i, off0) && Remains(all, sent0, entries, nb0, ent0, rest0, MaxCode(bits))
      modifies this`nBits, this`maxEnt, this`entries, dict, lens
      ensures TableOk() && LensOk() && IsCode(entries, ent)
      ensures WidthOk(entries, nb, MaxCode(bits)) && nBits == nb
      ensures bitno == 7 + |CodeBits(sent)|
      ensures rest == Rest(chain, i, |chain[i]|) && Remains(all, sent, entries, nb, ent, rest, MaxCode(bits))
    {
      ent, nb, bitno, sent := ent0, nb0, bitno0, sent0;
      var off := off0;
      rest := rest0;
      while off < |chain[i]|
        invariant 0 <= off <= |chain[i]|
        invariant TableOk() && LensOk() && IsCode(entries, ent)
        invariant WidthOk(entries, nb, MaxCode(bits)) && nBits == nb
        invariant rest == Rest(chain, i, off) && Remains(all, sent, entries, nb, ent, rest, MaxCode(bits))
        invariant bitno == 7 + |CodeBits(sent)|
      {
        var c := chain[i][off];
        RestByte(chain, i, off);
        off := off + 1;
        ent, nb, bitno, sent := IncompByte(ent, nb, c, bitno, sent, all, rest);
        rest := rest[1..];
      }
    }

    method IncompByte(ent0: nat, nb0: nat, c: u8, bitno0: nat, ghost sent0: seq<Code>, ghost all: Encoded, ghost rest: seq<u8>)
        returns (ent: nat, nb: nat, bitno: nat, ghost sent: seq<Code>)
      requires TableOk() && LensOk() && IsCode(entries, ent0)
      requires WidthOk(entries, nb0, MaxCode(bits)) && nBits == nb0
      requires bitno0 == 7 + |CodeBits(sent0)|
      requires rest != [] && rest[0] == c && Remains(all, sent0, entries, nb0, ent0, rest, MaxCode(bits))
      modifies this`nBits, this`maxEnt, this`entries, dict, lens
      ensures TableOk() && LensOk() && IsCode(entries, ent)
      ensures WidthOk(entries, nb, MaxCode(bits)) && nBits == nb
      ensures bitno == 7 + |CodeBits(sent)|
      ensures Remains(all, sent, entries, nb, ent, rest[1..], MaxCode(bits))
    {
      assert InPart(CODING, 0);
      bitno, sent := bitno0, sent0;
      EncodeByte(entries, nb0, ent0, c, rest[1..], MaxCode(bits));
      assert rest == [c] + rest[1..];
      var emit;
      emit, ent, nb := Advance(ent0, nb0, c);
      if emit {
        bitno := bitno0 + nb0;
        CodeBitsSnoc(sent0, Code(ent0, nb0));
        AfterAfter(sent0, [Code(ent0, nb0)], Encode(entries, nb, ent, rest[1..], MaxCode(bits)));
        sent := sent0 + [Code(ent0, nb0)];
      }
    }

    /** Keep the dictionary in step with a packet that came uncompressed. */
    method Incomp(chain: Chain)
      requires Valid() && |chain| >= 1 && |chain[0]| >= PPP_HDRLEN
      modifies this, dict, lens
      ensures Valid() && mru == old(mru)
      ensures |Flatten(chain)| >= PPP_HDRLEN && State() == BsdPacket.Incomp(old(State()), Flatten(chain))
    {
      ghost var db, p := State(), Flatten(chain);
      HeaderBytes(chain);
      var proto := Word(chain[0][2], chain[0][3]);
      if proto < 0x21 || proto > 0xf9 {
        return;
      }
      var ent, nb, bitno, ilen;
      ghost var sent, codes;
      ent, nb, bitno, ilen, sent := IncompData(chain, proto);
      ghost var e := Encoded(sent + [Code(ent, nb)], entries, nb);
      CodeBitsSnoc(sent, Code(ent, nb));
      bitno := bitno + nb;
      var clear;
      clear, codes := CountPacket(db, e, nb, bitno / 8, ilen);
      IncompResult(db, p, proto, Flatten(chain)[PPP_HDRLEN..], e, ilen, codes, State());
    }
  
    /** The string of a code, found back to front. */
    method WriteString(code: nat) returns (w: seq<u8>)
      requires TableOk() && IsCode(entries, code)
      ensures w == Expand(entries, code)
    {
      var finchar: nat := code;
      ghost var all := Expand(entries, code);
      w := [];
      while finchar > LAST
        invariant IsCode(entries, finchar) && all == Expand(entries, finchar) + w
        decreases finchar
      {
        CodeSlot(dict[..], bits, entries, finchar);
        var e := KeyEntry(dict[dict[finchar].cptr].fcode);
        ExpandStep(entries, finchar, w);
        w := [e.suffix] + w;
        finchar := e.prefix;
      }
      w := [finchar] + w;
    }

    /** Take a received code that is not CLEAR: the reason to stop, if there is one,
        or else the bytes it adds and the entry it completes. */
    method TakeCode(code: nat, prev: nat, nb0: nat, out0: seq<u8>) returns (stop: Option<Outcome>, nb: nat, out: seq<u8>)
      requires decomp && TableOk() && LensOk() && nBits == nb0 && code != CLEAR
      requires DecoderOk(Decoder(entries, nb0, prev, out0), MaxCode(bits))
      modifies this`nBits, this`maxEnt, this`entries, dict, lens
      ensures TableOk() && LensOk() && nBits == nb
      ensures stop == Verdict(Decoder(old(entries), nb0, prev, out0), code, MaxCode(bits), mru)
      ensures stop.Some? ==> entries == old(entries) && nb == nb0 && out == out0
      ensures stop.None? ==> Decoder(entries, nb, code, out) == Accept(Decoder(old(entries), nb0, prev, out0), code, MaxCode(bits))
    {
      nb, out := nb0, out0;
      ghost var s := Decoder(entries, nb0, prev, out0);
      if code > maxEnt + 2 || code > MaxCode(bits) || (code > maxEnt && prev == CLEAR) {
        return Some(Fatal), nb, out;
      }
      var finchar, extra := code, 0;
      if code > maxEnt {
        finchar, extra := prev, 1;
      }
      if finchar > maxEnt {
        // The length of this code was never set; the source uses what it finds.
        return Some(Undefined), nb, out;
      }
      LengthOf(lens[..], entries, finchar);
      var codelen := lens[finchar];
      assert codelen + extra == |CodeString(s, code)|;
      if |out| + codelen + extra > mru + 1 {
        return Some(Fatal), nb, out;
      }
      if codelen + extra > CLUSTER {
        return Some(TooLong), nb, out;
      }
      if prev > maxEnt {
        // The source enters a string that is its own prefix and goes on.
        return Some(Undefined), nb, out;
      }
      var w := WriteString(finchar);
      var first := w[0];
      if extra == 1 {
        w := w + [first];
      }
      assert w == CodeString(s, code);
      out := out + w;
      if prev != CLEAR && maxEnt < MaxCode(bits) {
        var h;
        ghost var j;
        h, j := SearchFree(prev, first);
        Install(h, prev, first, j);
        if maxEnt >= MaxCode(nb) && maxEnt < MaxCode(bits) {
          nb := nb + 1;
          nBits := nb;
        }
      }
      return None, nb, out;
    }
  
    /** Take one received byte; when it completes a code, take that too. */
    method ReadByte(b: u8, accm0: nat, bitno0: nat, nb0: nat, prev0: nat, out0: seq<u8>,
                    ghost q0: seq<bool>, ghost rest: seq<u8>, ghost todo0: seq<bool>, ghost r: Decoded)
        returns (step: ReadStep, accm: nat, bitno: nat, nb: nat, prev: nat, out: seq<u8>, ghost q: seq<bool>, ghost todo: seq<bool>)
      requires decomp && TableOk() && LensOk() && nBits == nb0
      requires Reading(r, Decoder(entries, nb0, prev0, out0), todo0, MaxCode(bits), mru, bits)
      requires Holds(accm0, bitno0, q0) && |q0| < nb0
      requires rest != [] && rest[0] == b && todo0 == q0 + BytesBits(rest)
      modifies this`nBits, this`maxEnt, this`entries, dict, lens
      ensures TableOk() && LensOk() && nBits == nb
      ensures step.More? ==> Reading(r, Decoder(entries, nb, prev, out), todo, MaxCode(bits), mru, bits)
      ensures step.More? ==> Holds(accm, bitno, q) && |q| < nb && todo == q + BytesBits(rest[1..])
      ensures step.SawClear? ==> r == Decoded(if |rest| > 1 then Fatal else Cleared, Decoder(entries, nb, prev, out))
      ensures step.Stop? ==> r == Decoded(step.outcome, Decoder(entries, nb, prev, out)) && step.outcome != Finished
    {
      nb, prev, out, todo := nb0, prev0, out0, todo0;
      ghost var s := Decoder(entries, nb0, prev0, out0);
      ReadingOk(r, s, todo0, MaxCode(bits), mru, bits);
      accm, bitno, q := TakeByte(accm0, bitno0, b, q0, rest);
      if 32 - nb < bitno {
        return More, accm, bitno, nb, prev, out, q, todo;
      }
      var code;
      TodoSplit(todo, q, BytesBits(rest[1..]), nb);
      code, accm, bitno, q := TakeBits(accm, bitno, nb, q);
      if code == CLEAR {
        ReadingClear(r, s, todo0, MaxCode(bits), mru, bits);
        return SawClear, accm, bitno, nb, prev, out, q, todo;
      }
      var stop;
      stop, nb, out := TakeCode(code, prev0, nb0, out0);
      if stop.Some? {
        ReadingStops(r, s, todo0, code, MaxCode(bits), mru, bits);
        return Stop(stop.value), accm, bitno, nb, prev, out, q, todo;
      }
      prev := code;
      ReadingGoesOn(r, s, todo0, code, MaxCode(bits), mru, bits, Decoder(entries, nb, prev, out));
      todo := todo0[nb0..];
      AcceptWidth(s, code, MaxCode(bits));
      return More, accm, bitno, nb, prev, out, q, todo;
    }

    /** Read the rest of one buffer, or up to where the packet ends. */
    method ReadBuffer(buf: seq<u8>, off0: nat, accm0: nat, bitno0: nat, nb0: nat, prev0: nat, out0: seq<u8>,
                      ghost q0: seq<bool>, ghost later: seq<u8>, ghost todo0: seq<bool>, ghost r: Decoded)
        returns (step: ReadStep, off: nat, accm: nat, bitno: nat, nb: nat, prev: nat, out: seq<u8>,
                 ghost q: seq<bool>, ghost todo: seq<bool>)
      requires decomp && TableOk() && LensOk() && nBits == nb0 && off0 <= |buf|
      requires Reading(r, Decoder(entries, nb0, prev0, out0), todo0, MaxCode(bits), mru, bits)
      requires Holds(accm0, bitno0, q0) && |q0| < nb0 && todo0 == q0 + BytesBits(buf[off0..] + later)
      modifies this`nBits, this`maxEnt, this`entries, dict, lens
      ensures TableOk() && LensOk() && nBits == nb && off0 <= off <= |buf|
      ensures step.More? ==> Reading(r, Decoder(entries, nb, prev, out), todo, MaxCode(bits), mru, bits)
      ensures step.More? ==> Holds(accm, bitno, q) && |q| < nb && todo == q + BytesBits(later)
      ensures step.SawClear? ==>
        r == Decoded(if |buf| - off + |later| > 0 then Fatal else Cleared, Decoder(entries, nb, prev, out))
      ensures step.Stop? ==> r == Decoded(step.outcome, Decoder(entries, nb, prev, out)) && step.outcome != Finished
    {
      off, accm, bitno, nb, prev, out := off0, accm0, bitno0, nb0, prev0, out0;
      q, todo := q0, todo0;
      while off < |buf|
        invariant off0 <= off <= |buf|
        invariant TableOk() && LensOk() && nBits == nb
        invariant Reading(r, Decoder(entries, nb, prev, out), todo, MaxCode(bits), mru, bits)
        invariant Holds(accm, bitno, q) && |q| < nb && todo == q + BytesBits(buf[off..] + later)
      {
        ghost var rest := buf[off..] + later;
        var b := buf[off];
        off := off + 1;
        assert rest[1..] == buf[off..] + later;
        step, accm, bitno, nb, prev, out, q, todo := ReadByte(b, accm, bitno, nb, prev, out, q, rest, todo, r);
        if !step.More? {
          return;
        }
      }
      assert buf[off..] + later == later;
      step := More;
    }

    /** Read the codes in the bytes from offset off of buffer i on. */
    method DecompressData(chain: Chain, i0: nat, off0: nat, ghost data: seq<u8>, ghost todo0: seq<bool>, ghost start: Decoder)
        returns (outcome: Outcome, out: seq<u8>, ilen: nat, ghost r: Decoded, ghost end: Decoder)
      requires Valid() && decomp
      requires i0 < |chain| && off0 <= |chain[i0]| && data == Rest(chain, i0, off0)
      requires start == Decoder(entries, nBits, CLEAR, []) && todo0 == BytesBits(data)
      modifies this`nBits, this`maxEnt, this`entries, dict, lens
      ensures TableOk() && LensOk()
      ensures Reading(r, start, todo0, MaxCode(bits), mru, bits)
      ensures r == Decoded(outcome, end) && end.dict == entries && end.width == nBits && end.out == out
      ensures outcome.Finished? ==> ilen == |data|
    {
      r := ReadingAll(start, todo0, MaxCode(bits), mru, bits);
      var i, off := i0, off0;
      var nb, prev, accm, bitno := nBits, CLEAR, 0, 32;
      ghost var q, todo, rest := [], todo0, data;
      out := [];
      ilen := |chain[i]| - off;
      HoldsNothing();
      while true
        invariant 0 <= i < |chain| && 0 <= off <= |chain[i]|
        invariant TableOk() && LensOk() && nBits == nb
        invariant Reading(r, Decoder(entries, nb, prev, out), todo, MaxCode(bits), mru, bits)
        invariant Holds(accm, bitno, q) && |q| < nb && todo == q + BytesBits(rest)
        invariant rest == Rest(chain, i, off)
        invariant ilen + |Tail(chain, i + 1)| == |data|
        decreases |chain| - i
      {
        var step;
        ghost var later := Tail(chain, i + 1);
        step, off, accm, bitno, nb, prev, out, q, todo :=
          ReadBuffer(chain[i], off, accm, bitno, nb, prev, out, q, later, todo, r);
        if step.SawClear? {
          var more := BytesFollowing(chain, i, off);
          outcome := if more > 0 then Fatal else Cleared;
          break;
        } else if step.Stop? {
          outcome := step.outcome;
          break;
        }
        i := i + 1;
        rest := later;
        if i == |chain| {
          ReadingEnd(r, Decoder(entries, nb, prev, out), todo, MaxCode(bits), mru, bits);
          outcome := Finished;
          break;
        }
        off := 0;
        RestStart(chain, i);
        ilen := ilen + |chain[i]|;
      }
      end := Decoder(entries, nb, prev, out);
    }

    /** Decompress a packet. Without a status nothing is known of the database. */
    method Decompress(chain: Chain) returns (status: Option<Status>, dmp: Option<seq<u8>>)
      requires Valid() && decomp && |chain| >= 1 && |chain[0]| >= PPP_HDRLEN
      modifies this, dict, lens
      ensures mru == old(mru) && |Flatten(chain)| >= PPP_HDRLEN
      ensures status.None? <==> BsdPacket.Decompress(old(State()), mru, Flatten(chain)).Undetermined?
      ensures status.Some? ==>
        Valid() && BsdPacket.Decompress(old(State()), mru, Flatten(chain)) == Received(State(), status.value, dmp)
    {
      ghost var db, p := State(), Flatten(chain);
      HeaderBytes(chain);
      var ok, number, i, off := TakeNumber(chain);
      if !ok || number != seqno {
        return Some(DecompError), None;
      }
      ghost var data := Rest(chain, i, off);
      ghost var start := Decoder(entries, nBits, CLEAR, []);
      ghost var todo := BytesBits(data);
      var outcome, out, ilen;
      ghost var r, end;
      outcome, out, ilen, r, end := DecompressData(chain, i, off, data, todo, start);
      seqno := (seqno + 1) % 65536;
      ghost var db1 := db.(seqno := seqno);
      status := Settle(db1, r, outcome, |out|, ilen, |data|);
      dmp := if status == Some(DecompOk) then Some([chain[0][0], chain[0][1], 0] + out) else None;
      DecompressResult(db, mru, p, start, data, todo, r, db1, status, dmp, State());
    }

    /** Bring the counters up to date once a packet's codes are read. */
    method Settle(ghost db: Db, ghost r: Decoded, outcome: Outcome, explen: nat, ilen: nat, ghost len: nat) returns (status: Option<Status>)
      requires TableOk() && LensOk()
      requires r.outcome == outcome && r.state.dict == entries && r.state.width == nBits && |r.state.out| == explen
      requires outcome.Finished? ==> ilen == len
      requires State() == db.(dict := entries, width := nBits)
      modifies this
      ensures TableOk() && LensOk() && mru == old(mru)
      ensures Concludes(db, r, len, status, State())
    {
      match outcome {
        case Fatal =>
          StopResult(db, r, len);
          return Some(DecompFatalError);
        case TooLong =>
          StopResult(db, r, len);
          return Some(DecompError);
        case Undefined =>
          StopResult(db, r, len);
          return None;
        case Cleared =>
          Clear();
        case Finished =>
          bytesOut := bytesOut + ilen;
          inCount := inCount + explen;
      }
      ghost var counted := State();
      var peerShouldHaveCleared := Check();
      SettleResult(db, r, len, counted, State());
      return Some(DecompOk);
    }
  }
}
