/** What one packet does to a BSD-Compress peer, on plain values: the counters
    that decide when the dictionary is cleared, the compressed packet, what the
    receiver makes of it, and the stream theorem. */
module BsdPacket {
  import opened Bits
  import opened Lzw
  import opened LzwEnds
  import opened Options

  const INIT_BITS: nat := 9
  const CHECK_GAP: nat := 10000
  const RATIO_SCALE: nat := 256
  const RATIO_MAX: nat := 0x7f_ffff
  const PPP_HDRLEN: nat := 4
  const BSD_OVHD: nat := 2
  const PPP_COMP: nat := 0xfd

  /** The part of a peer's state that both ends must agree on. */
  datatype Db = Db(bits: nat, dict: seq<Entry>, width: nat, seqno: nat,
                   inCount: nat, bytesOut: nat, ratio: nat, checkpoint: nat)

  ghost predicate DbOk(db: Db) {
    && 9 <= db.bits <= 15
    && WellFormed(db.dict)
    && WidthReady(db.dict, db.width, MaxCode(db.bits))
    && db.seqno < 65536
  }

  function Clear(db: Db): Db {
    db.(dict := [], width := INIT_BITS, ratio := 0, bytesOut := 0, inCount := 0, checkpoint := CHECK_GAP)
  }

  function Reset(db: Db): Db {
    Clear(db.(seqno := 0))
  }

  function Aged(n: nat): nat {
    n - n / 4
  }

  /** The counts when a check is due: cut by a quarter once they are large, with the
      next check a gap further on. */
  function Age(db: Db): Db {
    var age := db.inCount >= RATIO_MAX || db.bytesOut >= RATIO_MAX;
    var inCount := if age then Aged(db.inCount) else db.inCount;
    var bytesOut := if age then Aged(db.bytesOut) else db.bytesOut;
    db.(inCount := inCount, bytesOut := bytesOut, checkpoint := inCount + CHECK_GAP)
  }

  /** The compression ratio in fixed point. */
  function Ratio(db: Db): nat {
    var scaled := db.inCount * RATIO_SCALE;
    if db.bytesOut != 0 then scaled / db.bytesOut else scaled
  }

  /** The ratio check at the end of a packet: the new state, and whether the
      dictionary was cleared. */
  function Check(db: Db): (Db, bool) {
    if db.inCount < db.checkpoint then (db, false)
    else
      var db1 := Age(db);
      if MaxEnt(db1.dict) < MaxCode(db1.bits) then (db1, false)
      else if Ratio(db1) < db1.ratio || Ratio(db1) < RATIO_SCALE then (Clear(db1), true)
      else (db1.(ratio := Ratio(db1)), false)
  }

  // ----- what the check decides, by the counters alone

  /** Three quarters of a count, rounded up, where the counts are cut; else the count. */
  ghost predicate CutTo(n: nat, i: nat, cut: bool) {
    if cut then 3 * n <= 4 * i < 3 * n + 4 else i == n
  }

  /** With i bytes in and o bytes out: the peer compresses worse than when it last
      looked, or not at all. */
  ghost predicate Worse(i: nat, o: nat, ratio: nat) {
    if o == 0 then i == 0 || RATIO_SCALE * i < ratio else RATIO_SCALE * i < ratio * o || i < o
  }

  /** A ratio in fixed point. */
  ghost predicate RatioOf(i: nat, o: nat, r: nat) {
    if o == 0 then r == RATIO_SCALE * i else r * o <= RATIO_SCALE * i < (r + 1) * o
  }

  /** A check that is due, with the counts i and o. */
  ghost predicate Decided(db: Db, i: nat, o: nat, after: Db, clear: bool) {
    var full := MaxEnt(db.dict) >= MaxCode(db.bits);
    && (clear <==> full && Worse(i, o, db.ratio))
    && (clear ==> after == Db(db.bits, [], INIT_BITS, db.seqno, 0, 0, 0, CHECK_GAP))
    && (!clear ==>
          && after == db.(inCount := i, bytesOut := o, checkpoint := i + CHECK_GAP, ratio := after.ratio)
          && (if full then RatioOf(i, o, after.ratio) else after.ratio == db.ratio))
  }

  ghost predicate Judged(db: Db, after: Db, clear: bool) {
    if db.inCount < db.checkpoint then after == db && !clear
    else
      var cut := db.inCount >= RATIO_MAX || db.bytesOut >= RATIO_MAX;
      exists i, o :: CutTo(db.inCount, i, cut) && CutTo(db.bytesOut, o, cut) && Decided(db, i, o, after, clear)
  }

  lemma QuotientLess(s: nat, o: nat, r: nat)
    requires o > 0
    ensures s / o < r <==> s < r * o
    ensures s / o * o <= s < (s / o + 1) * o
  {
    var q := s / o;
    MulDistr(q, 1, o);
    if q < r {
      MulMono(q + 1, r, o);
    } else {
      MulMono(r, q, o);
    }
  }

  lemma RatioDecides(i: nat, o: nat, ratio: nat)
    ensures var q := if o != 0 then i * RATIO_SCALE / o else i * RATIO_SCALE;
      && (Worse(i, o, ratio) <==> q < ratio || q < RATIO_SCALE)
      && RatioOf(i, o, q)
  {
    if o != 0 {
      QuotientLess(i * RATIO_SCALE, o, ratio);
      QuotientLess(i * RATIO_SCALE, o, RATIO_SCALE);
    }
  }

  /** Before the checkpoint nothing changes. At it the counts are cut if they are large,
      the next check is set, and a full dictionary is cleared exactly if the ratio fell
      or is below one; otherwise the ratio is recorded. */
  lemma CheckDecides(db: Db)
    ensures Judged(db, Check(db).0, Check(db).1)
  {
    if db.inCount >= db.checkpoint {
      var cut := db.inCount >= RATIO_MAX || db.bytesOut >= RATIO_MAX;
      var aged := Age(db);
      assert CutTo(db.inCount, aged.inCount, cut) && CutTo(db.bytesOut, aged.bytesOut, cut);
      RatioDecides(aged.inCount, aged.bytesOut, db.ratio);
      assert Decided(db, aged.inCount, aged.bytesOut, Check(db).0, Check(db).1);
    }
  }

  lemma SameRatio(i: nat, o: nat, r: nat, r': nat)
    requires RatioOf(i, o, r) && RatioOf(i, o, r')
    ensures r == r'
  {
    if r < r' {
      MulMono(r + 1, r', o);
    } else if r' < r {
      MulMono(r' + 1, r, o);
    }
  }

  /** That leaves nothing open. */
  lemma JudgedOnce(db: Db, after: Db, clear: bool, after': Db, clear': bool)
    requires Judged(db, after, clear) && Judged(db, after', clear')
    ensures after == after' && clear == clear'
  {
    if db.inCount >= db.checkpoint {
      var cut := db.inCount >= RATIO_MAX || db.bytesOut >= RATIO_MAX;
      var i, o :| CutTo(db.inCount, i, cut) && CutTo(db.bytesOut, o, cut) && Decided(db, i, o, after, clear);
      var i', o' :| CutTo(db.inCount, i', cut) && CutTo(db.bytesOut, o', cut) && Decided(db, i', o', after', clear');
      assert i == i' && o == o';
      if !clear && MaxEnt(db.dict) >= MaxCode(db.bits) {
        SameRatio(i, o, after.ratio, after'.ratio);
      }
    }
  }

  // ----- packets

  function Word(hi: nat, lo: nat): nat {
    256 * hi + lo
  }

  function Protocol(p: seq<u8>): nat
    requires |p| >= PPP_HDRLEN
  {
    Word(p[2], p[3])
  }

  /** The protocols that are compressed. */
  predicate Eligible(p: seq<u8>)
    requires |p| >= PPP_HDRLEN
  {
    0x21 <= Protocol(p) <= 0xf9
  }

  /** The match codes of a packet: its protocol byte, then its data. */
  function Codes(db: Db, p: seq<u8>): Encoded
    requires |p| >= PPP_HDRLEN
  {
    Encode(db.dict, db.width, p[3], p[PPP_HDRLEN..], MaxCode(db.bits))
  }

  function BytesFor(bits: nat): nat {
    (bits + 7) / 8
  }

  /** The state with a packet of n bytes entered and counted, before the check. */
  function Count(db: Db, e: Encoded, n: nat): Db {
    db.(dict := e.dict, width := e.width, seqno := (db.seqno + 1) % 65536,
        inCount := db.inCount + n, bytesOut := db.bytesOut + BytesFor(|CodeBits(e.codes)|))
  }

  /** The state once the check is done and the width settled for the next packet. */
  function Checked(db: Db, e: Encoded, n: nat): Db {
    var checked := Check(Count(db, e, n)).0;
    if MaxEnt(e.dict) >= MaxCode(e.width) && MaxEnt(e.dict) < MaxCode(db.bits)
    then checked.(width := checked.width + 1)
    else checked
  }

  /** The codes to send, with CLEAR when the check asks for it. */
  function Closed(db: Db, e: Encoded, n: nat): seq<Code> {
    if Check(Count(db, e, n)).1 then e.codes + [Code(CLEAR, e.width)] else e.codes
  }

  /** The bytes a packet counts for: its protocol byte and its data. */
  function DataLength(p: seq<u8>): nat
    requires |p| >= PPP_HDRLEN
  {
    |p| - PPP_HDRLEN + 1
  }

  function Counted(db: Db, p: seq<u8>): Db
    requires |p| >= PPP_HDRLEN
  {
    Count(db, Codes(db, p), DataLength(p))
  }

  /** The state after an eligible packet, however it travels. */
  function AfterPacket(db: Db, p: seq<u8>): Db
    requires |p| >= PPP_HDRLEN
  {
    Checked(db, Codes(db, p), DataLength(p))
  }

  /** The codes of the compressed packet. */
  function AllCodes(db: Db, p: seq<u8>): seq<Code>
    requires |p| >= PPP_HDRLEN
  {
    Closed(db, Codes(db, p), DataLength(p))
  }

  // ----- packing bits into bytes

  function Ones(n: nat): (b: seq<bool>)
    ensures |b| == n
  {
    seq(n, i => true)
  }

  /** The missing bits of the last byte are ones. */
  function PadOnes(b: seq<bool>): (r: seq<bool>)
    ensures |r| % 8 == 0 && |b| <= |r| < |b| + 8
  {
    b + Ones((8 - |b| % 8) % 8)
  }

  function Octet(b: seq<bool>): (x: u8)
    requires |b| == 8
    ensures BitsOf(x, 8) == b
  {
    NumBound(b);
    Pow2Values();
    BitsOfNum(b);
    Num(b)
  }

  function Pack(b: seq<bool>): (r: seq<u8>)
    requires |b| % 8 == 0
    ensures 8 * |r| == |b|
  {
    if b == [] then [] else Pack(b[..|b| - 8]) + [Octet(b[|b| - 8..])]
  }

  lemma {:induction false} BytesBitsPack(b: seq<bool>)
    requires |b| % 8 == 0
    ensures BytesBits(Pack(b)) == b
    decreases |b|
  {
    if b != [] {
      var front, x := PackSplit(b);
      BytesBitsPack(front);
      OneByteMore(Pack(front), x, front, BitsOf(x, 8));
    }
  }

  lemma PackSplit(b: seq<bool>) returns (front: seq<bool>, x: u8)
    requires |b| % 8 == 0 && b != []
    ensures |front| % 8 == 0 && |front| < |b| && b == front + BitsOf(x, 8) && Pack(b) == Pack(front) + [x]
  {
    var n := |b| - 8;
    front, x := b[..n], Octet(b[n..]);
    assert b == b[..n] + b[n..];
  }

  lemma OneByteMore(s: seq<u8>, x: u8, b: seq<bool>, c: seq<bool>)
    requires BytesBits(s) == b && BitsOf(x, 8) == c
    ensures BytesBits(s + [x]) == b + c
  {
    BytesBitsSnoc(s, x);
  }

  lemma SplitEqual(a: seq<bool>, b: seq<bool>, c: seq<bool>, d: seq<bool>)
    requires a + b == c + d && |a| == |c|
    ensures a == c && b == d
  {
    assert a == (a + b)[..|a|] && c == (c + d)[..|a|];
    assert b == (a + b)[|a|..] && d == (c + d)[|a|..];
  }

  lemma OctetInjective(x: u8, y: u8)
    requires BitsOf(x, 8) == BitsOf(y, 8)
    ensures x == y
  {
    Pow2Values();
    NumBitsOf(x, 8);
    NumBitsOf(y, 8);
  }

  /** A byte string is determined by its bits. */
  lemma {:induction false} BytesBitsInjective(s: seq<u8>, t: seq<u8>)
    requires BytesBits(s) == BytesBits(t)
    ensures s == t
  {
    if s != [] {
      var s', t' := s[..|s| - 1], t[..|t| - 1];
      var x, y := s[|s| - 1], t[|t| - 1];
      SplitEqual(BytesBits(s'), BitsOf(x, 8), BytesBits(t'), BitsOf(y, 8));
      BytesBitsInjective(s', t');
      OctetInjective(x, y);
      assert s == s' + [x] && t == t' + [y];
    }
  }

  // ----- sending

  datatype Sent = Sent(db: Db, packet: Option<seq<u8>>, length: nat)

  /** The PPP header with the protocol changed, and the sequence number. */
  function Header(db: Db, p: seq<u8>): (h: seq<u8>)
    requires |p| >= PPP_HDRLEN && db.seqno < 65536
    ensures |h| == PPP_HDRLEN + BSD_OVHD
  {
    [p[0], p[1], 0, PPP_COMP, db.seqno / 256, db.seqno % 256]
  }

  function CompressedPacket(db: Db, p: seq<u8>): seq<u8>
    requires |p| >= PPP_HDRLEN && db.seqno < 65536
  {
    Header(db, p) + Pack(PadOnes(CodeBits(AllCodes(db, p))))
  }

  /** The compressor on one packet: nothing for other protocols; otherwise the
      compressed packet, unless it came out longer than allowed or than the
      original. */
  function Compress(db: Db, p: seq<u8>, maxolen: int): Sent
    requires |p| >= PPP_HDRLEN && db.seqno < 65536
  {
    if !Eligible(p) then Sent(db, None, |p|)
    else
      var c := CompressedPacket(db, p);
      var limit := if maxolen > |p| then |p| else maxolen;
      Sent(AfterPacket(db, p), if |c| > limit then None else Some(c), |c|)
  }

  /** The data of a packet that goes out compressed: its match codes, CLEAR if the check
      cleared the dictionary, and ones up to the next byte. */
  ghost predicate Carries(data: seq<u8>, e: Encoded, clear: bool) {
    exists pad: seq<bool> :: |pad| < 8 && (forall i :: 0 <= i < |pad| ==> pad[i])
      && BytesBits(data) == CodeBits(e.codes) + (if clear then BitsOf(CLEAR, e.width) else []) + pad
  }

  /** The peer once a packet is counted: as many bytes in as its protocol byte and data,
      as many out as the match codes fill. */
  ghost predicate CountedAs(db: Db, p: seq<u8>, e: Encoded, counted: Db) {
    var bits := |CodeBits(e.codes)|;
    && counted == db.(dict := e.dict, width := e.width, seqno := counted.seqno, inCount := counted.inCount,
                      bytesOut := counted.bytesOut)
    && counted.seqno == (if db.seqno == 65535 then 0 else db.seqno + 1)
    && counted.inCount + PPP_HDRLEN == db.inCount + |p| + 1
    && bits <= 8 * (counted.bytesOut - db.bytesOut) < bits + 8
  }

  /** What the compressor makes of an eligible packet: counted, checked and sent. */
  ghost predicate Passed(db: Db, p: seq<u8>, counted: Db, checked: Db, clear: bool, after: Db, c: seq<u8>)
    requires |p| >= PPP_HDRLEN
  {
    var e := Encode(db.dict, db.width, p[3], p[PPP_HDRLEN..], MaxCode(db.bits));
    && CountedAs(db, p, e, counted) && Judged(counted, checked, clear)
    && after == checked.(width := after.width)
    && |c| >= PPP_HDRLEN + BSD_OVHD && c[..PPP_HDRLEN] == [p[0], p[1], 0, PPP_COMP] && Word(c[4], c[5]) == db.seqno
    && Carries(c[PPP_HDRLEN + BSD_OVHD..], e, clear)
  }

  ghost predicate Sends(db: Db, p: seq<u8>, maxolen: int, s: Sent)
    requires |p| >= PPP_HDRLEN
  {
    if 0x21 <= Word(p[2], p[3]) <= 0xf9 then
      && (s.packet.Some? <==> s.length <= maxolen && s.length <= |p|)
      && exists counted, checked, clear, c ::
           && Passed(db, p, counted, checked, clear, s.db, c) && s.length == |c|
           && (s.packet.Some? ==> s.packet.value == c)
    else s == Sent(db, None, |p|)
  }

  lemma CarriesAs(data: seq<u8>, e: Encoded, clear: bool, pad: seq<bool>)
    requires |pad| < 8 && forall i :: 0 <= i < |pad| ==> pad[i]
    requires BytesBits(data) == CodeBits(e.codes) + ((if clear then BitsOf(CLEAR, e.width) else []) + pad)
    ensures Carries(data, e, clear)
  {
    var mid := if clear then BitsOf(CLEAR, e.width) else [];
    assert CodeBits(e.codes) + (mid + pad) == CodeBits(e.codes) + mid + pad;
  }

  lemma CarriesCodes(db: Db, p: seq<u8>)
    requires |p| >= PPP_HDRLEN
    ensures Carries(Pack(PadOnes(CodeBits(AllCodes(db, p)))), Codes(db, p), Check(Counted(db, p)).1)
  {
    var bits := PadOnes(CodeBits(AllCodes(db, p)));
    BytesBitsPack(bits);
    PackedBits(db, p);
    var pad := TailPad(db, p);
    CarriesAs(Pack(bits), Codes(db, p), Check(Counted(db, p)).1, pad);
  }

  lemma TailPad(db: Db, p: seq<u8>) returns (pad: seq<bool>)
    requires |p| >= PPP_HDRLEN
    ensures TailBits(db, p) == (if Check(Counted(db, p)).1 then BitsOf(CLEAR, Codes(db, p).width) else []) + pad
    ensures |pad| < 8 && forall i :: 0 <= i < |pad| ==> pad[i]
  {
    pad := Ones((8 - |CodeBits(AllCodes(db, p))| % 8) % 8);
  }

  lemma CountedRight(db: Db, p: seq<u8>)
    requires |p| >= PPP_HDRLEN && db.seqno < 65536
    ensures CountedAs(db, p, Codes(db, p), Counted(db, p))
  {
  }

  lemma HeaderRight(db: Db, p: seq<u8>, data: seq<u8>)
    requires |p| >= PPP_HDRLEN && db.seqno < 65536
    ensures var c := Header(db, p) + data;
      c[..PPP_HDRLEN] == [p[0], p[1], 0, PPP_COMP] && Word(c[4], c[5]) == db.seqno && c[PPP_HDRLEN + BSD_OVHD..] == data
  {
  }

  lemma PassedRight(db: Db, p: seq<u8>)
    requires |p| >= PPP_HDRLEN && db.seqno < 65536
    ensures var counted := Counted(db, p);
      Passed(db, p, counted, Check(counted).0, Check(counted).1, AfterPacket(db, p), CompressedPacket(db, p))
  {
    CountedRight(db, p);
    CheckDecides(Counted(db, p));
    CarriesCodes(db, p);
    HeaderRight(db, p, Pack(PadOnes(CodeBits(AllCodes(db, p)))));
  }

  /** Every packet: what is not eligible stays uncompressed; what is eligible is counted,
      checked and put out with CLEAR at its end exactly if the check cleared the
      dictionary; the packet is given up if it is longer than allowed or than it was. */
  lemma CompressSends(db: Db, p: seq<u8>, maxolen: int)
    requires |p| >= PPP_HDRLEN && db.seqno < 65536
    ensures Sends(db, p, maxolen, Compress(db, p, maxolen))
  {
    if Eligible(p) {
      PassedRight(db, p);
    }
  }

  // ----- receiving

  datatype Status = DecompOk | DecompError | DecompFatalError

  /** What a packet does to the receiver. Undetermined: the packet goes on after a code
      that no entry has, and neither the state nor the outcome is known. */
  datatype Received = Received(db: Db, status: Status, packet: Option<seq<u8>>) | Undetermined

  /** The state after the codes of a received packet: a CLEAR forgets everything,
      otherwise the packet is counted; then the same check as the sender's. */
  function Settle(db: Db, r: Decoded, len: nat): Db {
    var db1 := db.(dict := r.state.dict, width := r.state.width);
    var db2 := if r.outcome.Cleared? then Clear(db1)
               else db1.(bytesOut := db.bytesOut + len, inCount := db.inCount + |r.state.out|);
    Check(db2).0
  }

  /** The result of a packet that started with the bytes addr and ctrl. */
  function Conclude(db: Db, r: Decoded, len: nat, addr: u8, ctrl: u8): Received {
    match r.outcome
    case Fatal => Received(db.(dict := r.state.dict, width := r.state.width), DecompFatalError, None)
    case TooLong => Received(db.(dict := r.state.dict, width := r.state.width), DecompError, None)
    case Undefined => Undetermined
    case Finished => Received(Settle(db, r, len), DecompOk, Some([addr, ctrl, 0] + r.state.out))
    case Cleared => Received(Settle(db, r, len), DecompOk, Some([addr, ctrl, 0] + r.state.out))
  }

  /** What the codes in the data part of a packet say. */
  function ReadData(db: Db, mru: nat, data: seq<u8>): (r: Decoded)
    requires DbOk(db)
    ensures DecoderOk(r.state, MaxCode(db.bits))
  {
    Decode(Decoder(db.dict, db.width, CLEAR, []), BytesBits(data), MaxCode(db.bits), mru, db.bits)
  }

  function Decompress(db: Db, mru: nat, c: seq<u8>): Received
    requires |c| >= PPP_HDRLEN && DbOk(db)
  {
    if |c| < PPP_HDRLEN + BSD_OVHD || Word(c[4], c[5]) != db.seqno then Received(db, DecompError, None)
    else
      var data := c[PPP_HDRLEN + BSD_OVHD..];
      Conclude(db.(seqno := (db.seqno + 1) % 65536), ReadData(db, mru, data), |data|, c[0], c[1])
  }

  /** The receiver's dictionary upkeep for a packet that came uncompressed. */
  function Incomp(db: Db, p: seq<u8>): Db
    requires |p| >= PPP_HDRLEN
  {
    if Eligible(p) then AfterPacket(db, p) else db
  }

  // ----- one packet across the link

  lemma ClearOk(db: Db)
    requires 9 <= db.bits <= 15 && db.seqno < 65536
    ensures DbOk(Clear(db))
  {
    Pow2Values();
    Pow2Mono(9, db.bits);
  }

  /** Both ends start a packet in step. */
  lemma StartInStep(db: Db, ent: nat)
    requires DbOk(db) && ent <= LAST
    ensures InStep(db.dict, db.width, ent, Decoder(db.dict, db.width, CLEAR, []), MaxCode(db.bits))
  {
  }

  /** A clear is only ever asked for when the dictionary is full. */
  lemma CheckClears(db: Db)
    ensures Check(db).1 ==> MaxEnt(db.dict) >= MaxCode(db.bits) && Check(db).0 == Clear(Check(db).0)
    ensures !Check(db).1 ==> Check(db).0.dict == db.dict && Check(db).0.width == db.width
    ensures Check(db).0.bits == db.bits && Check(db).0.seqno == db.seqno
  {
  }

  lemma AfterPacketOk(db: Db, p: seq<u8>)
    requires DbOk(db) && |p| >= PPP_HDRLEN
    ensures DbOk(AfterPacket(db, p))
  {
    var limit := MaxCode(db.bits);
    var e := Codes(db, p);
    EncodeKeeps(db.dict, db.width, p[3], p[PPP_HDRLEN..], limit, db.bits);
    CheckClears(Counted(db, p));
    if Check(Counted(db, p)).1 {
      ClearOk(Check(Counted(db, p)).0);
    } else if MaxEnt(e.dict) >= MaxCode(e.width) && MaxEnt(e.dict) < limit {
      MaxCodeWiden(e.width, limit, db.bits);
    }
  }

  /** The bits that follow the match codes: padding, after a CLEAR if there is one. */
  function TailBits(db: Db, p: seq<u8>): seq<bool>
    requires |p| >= PPP_HDRLEN
  {
    var e := Codes(db, p);
    var n := |CodeBits(AllCodes(db, p))|;
    (if Check(Counted(db, p)).1 then BitsOf(CLEAR, e.width) else []) + Ones((8 - n % 8) % 8)
  }

  lemma PackedBits(db: Db, p: seq<u8>)
    requires |p| >= PPP_HDRLEN
    ensures PadOnes(CodeBits(AllCodes(db, p))) == CodeBits(Codes(db, p).codes) + TailBits(db, p)
  {
    var e := Codes(db, p);
    if Check(Counted(db, p)).1 {
      var last := [Code(CLEAR, e.width)];
      CodeBitsAppend(e.codes, last);
      CodeBitsCons(last[0], []);
      assert CodeBits(last) == BitsOf(CLEAR, e.width);
    }
  }

  /** What is left of a compressed packet once its match codes are read ends it,
      the dictionary being cleared exactly when the sender cleared its own. */
  lemma DecodeTail(db: Db, p: seq<u8>, s: Decoder, mru: nat)
    requires DbOk(db) && |p| >= PPP_HDRLEN
    requires CaughtUp(s, Codes(db, p), s.out, MaxCode(db.bits))
    ensures Decode(s, TailBits(db, p), MaxCode(db.bits), mru, db.bits)
         == Decoded(if Check(Counted(db, p)).1 then Cleared else Finished, s)
  {
    var e := Codes(db, p);
    if Check(Counted(db, p)).1 {
      CheckClears(Counted(db, p));
      assert s.width == e.width;
      var tail := TailBits(db, p);
      assert tail[..s.width] == BitsOf(CLEAR, e.width);
      Pow2Values();
      Pow2Mono(9, e.width);
      NumBitsOf(CLEAR, e.width);
    }
  }

  /** Decoding the data of a compressed packet. */
  lemma DecodePacket(db: Db, p: seq<u8>, mru: nat) returns (s: Decoder)
    requires DbOk(db) && |p| >= PPP_HDRLEN && |p| - PPP_HDRLEN <= mru && Short(Codes(db, p))
    ensures CaughtUp(s, Codes(db, p), [p[3]] + p[PPP_HDRLEN..], MaxCode(db.bits))
    ensures Decode(Decoder(db.dict, db.width, CLEAR, []), PadOnes(CodeBits(AllCodes(db, p))), MaxCode(db.bits), mru, db.bits)
         == Decoded(if Check(Counted(db, p)).1 then Cleared else Finished, s)
  {
    var limit := MaxCode(db.bits);
    var start := Decoder(db.dict, db.width, CLEAR, []);
    StartInStep(db, p[3]);
    s := ReadEncoded(db.dict, db.width, p[3], p[PPP_HDRLEN..], start, limit, mru, db.bits);
    assert [] + [p[3]] + p[PPP_HDRLEN..] == [p[3]] + p[PPP_HDRLEN..];
    PackedBits(db, p);
    DecodeFollows(start, Codes(db, p).codes, s, TailBits(db, p), limit, mru, db.bits);
    DecodeTail(db, p, s, mru);
  }

  /** The receiver settles in the sender's state: it clears when the sender
      cleared, and otherwise counts the same bytes in and out. */
  lemma SettleCleared(db: Db, p: seq<u8>, s: Decoder, len: nat)
    requires |p| >= PPP_HDRLEN && Check(Counted(db, p)).1
    ensures Settle(db.(seqno := (db.seqno + 1) % 65536), Decoded(Cleared, s), len) == AfterPacket(db, p)
  {
    CheckClears(Counted(db, p));
  }

  lemma SettleFinished(db: Db, p: seq<u8>, s: Decoder, len: nat)
    requires |p| >= PPP_HDRLEN && !Check(Counted(db, p)).1
    requires CaughtUp(s, Codes(db, p), [p[3]] + p[PPP_HDRLEN..], MaxCode(db.bits))
    requires len == BytesFor(|CodeBits(Codes(db, p).codes)|)
    ensures Settle(db.(seqno := (db.seqno + 1) % 65536), Decoded(Finished, s), len) == AfterPacket(db, p)
  {
    var e := Codes(db, p);
    var counted := Counted(db, p);
    CheckClears(counted);
    CheckIgnoresWidth(counted, s.width);
    var db1 := db.(seqno := (db.seqno + 1) % 65536);
    assert db1.(dict := s.dict, width := s.width, bytesOut := db.bytesOut + len, inCount := db.inCount + |s.out|)
        == counted.(width := s.width);
  }

  /** The check does not look at the code width. */
  lemma CheckIgnoresWidth(db: Db, width: nat)
    requires !Check(db).1
    ensures Check(db.(width := width)) == (Check(db).0.(width := width), false)
  {
  }

  /** A packet with the expected sequence number is read and concluded. */
  lemma DecompressAs(db: Db, mru: nat, hdr: seq<u8>, data: seq<u8>)
    requires DbOk(db) && |hdr| == PPP_HDRLEN + BSD_OVHD && Word(hdr[4], hdr[5]) == db.seqno
    ensures Decompress(db, mru, hdr + data)
         == Conclude(db.(seqno := (db.seqno + 1) % 65536), ReadData(db, mru, data), |data|, hdr[0], hdr[1])
  {
    var c := hdr + data;
    assert c[PPP_HDRLEN + BSD_OVHD..] == data && c[0] == hdr[0] && c[1] == hdr[1] && c[4] == hdr[4] && c[5] == hdr[5];
  }

  /** A packet with the expected sequence number whose data decodes. */
  lemma DecompressData(db: Db, mru: nat, hdr: seq<u8>, data: seq<u8>, r: Decoded)
    requires DbOk(db) && |hdr| == PPP_HDRLEN + BSD_OVHD && Word(hdr[4], hdr[5]) == db.seqno
    requires r == ReadData(db, mru, data)
    requires r.outcome.Finished? || r.outcome.Cleared?
    ensures Decompress(db, mru, hdr + data)
         == Received(Settle(db.(seqno := (db.seqno + 1) % 65536), r, |data|), DecompOk,
                     Some([hdr[0], hdr[1], 0] + r.state.out))
  {
    DecompressAs(db, mru, hdr, data);
  }

  lemma OriginalPacket(p: seq<u8>)
    requires |p| >= PPP_HDRLEN && Eligible(p)
    ensures [p[0], p[1], 0] + ([p[3]] + p[PPP_HDRLEN..]) == p
  {
    assert p[2] == 0;
  }

  lemma DecompressCompressed(db: Db, p: seq<u8>, mru: nat)
    requires DbOk(db) && |p| >= PPP_HDRLEN && |p| - PPP_HDRLEN <= mru && Eligible(p) && Short(Codes(db, p))
    ensures Decompress(db, mru, CompressedPacket(db, p)) == Received(AfterPacket(db, p), DecompOk, Some(p))
  {
    var padded := PadOnes(CodeBits(AllCodes(db, p)));
    var data := Pack(padded);
    BytesBitsPack(padded);
    var s := DecodePacket(db, p, mru);
    var clear := Check(Counted(db, p)).1;
    DecompressData(db, mru, Header(db, p), data, Decoded(if clear then Cleared else Finished, s));
    if clear {
      SettleCleared(db, p, s, |data|);
    } else {
      SettleFinished(db, p, s, |data|);
    }
    OriginalPacket(p);
  }

  /** With a string too long for a buffer the receiver gives up, one packet ahead. */
  lemma DecompressTooLong(db: Db, p: seq<u8>, mru: nat)
    requires DbOk(db) && |p| >= PPP_HDRLEN && |p| - PPP_HDRLEN <= mru && Eligible(p) && !Short(Codes(db, p))
    ensures var r := Decompress(db, mru, CompressedPacket(db, p));
      r.Received? && r.status == DecompError && r.packet == None && r.db.seqno == (db.seqno + 1) % 65536
  {
    var padded := PadOnes(CodeBits(AllCodes(db, p)));
    var data := Pack(padded);
    BytesBitsPack(padded);
    StartInStep(db, p[3]);
    PackedBits(db, p);
    ReadTooLong(db.dict, db.width, p[3], p[PPP_HDRLEN..], Decoder(db.dict, db.width, CLEAR, []), TailBits(db, p),
                MaxCode(db.bits), mru, db.bits);
    assert ReadData(db, mru, data).outcome == TooLong;
    DecompressAs(db, mru, Header(db, p), data);
  }

  /** A compressed packet, decompressed by a peer in the same state, is the original
      packet and leaves the two peers in the same state again, exactly if none of its
      codes stands for more than a buffer holds. */
  lemma RoundTrip(db: Db, p: seq<u8>, maxolen: int, mru: nat)
    requires DbOk(db) && |p| >= PPP_HDRLEN && |p| - PPP_HDRLEN <= mru
    requires Compress(db, p, maxolen).packet.Some?
    ensures var s := Compress(db, p, maxolen);
      && |s.packet.value| >= PPP_HDRLEN
      && (Short(Codes(db, p)) <==> Decompress(db, mru, s.packet.value) == Received(s.db, DecompOk, Some(p)))
  {
    if Short(Codes(db, p)) {
      DecompressCompressed(db, p, mru);
    } else {
      DecompressTooLong(db, p, mru);
    }
  }

  /** So it is for every packet that is no longer than a buffer, and with code sizes up
      to 11 for every packet. */
  lemma SizedCodes(db: Db, p: seq<u8>)
    requires DbOk(db) && |p| >= PPP_HDRLEN && Sized(DataLength(p), MaxCode(db.bits))
    ensures Short(Codes(db, p))
  {
    SizedShort(db.dict, db.width, p[3], p[PPP_HDRLEN..], MaxCode(db.bits), db.bits);
  }

  /** What the receiver says once a packet is read: a code that cannot be, or a packet
      too long for the unit size, is fatal; a string too long for a buffer is an error;
      otherwise the packet is delivered, with no more than the unit size behind its
      protocol byte. */
  ghost predicate Says(db: Db, mru: nat, c: seq<u8>, read: Decoded, r: Received)
    requires |c| >= 2
  {
    && (r.Undetermined? <==> read.outcome.Undefined?)
    && (r.Received? ==>
          && (r.status == DecompFatalError <==> read.outcome.Fatal?)
          && (r.status == DecompError <==> read.outcome.TooLong?)
          && (r.packet.Some? <==> r.status == DecompOk)
          && r.db.seqno == (if db.seqno == 65535 then 0 else db.seqno + 1)
          && (r.packet.Some? ==> r.packet.value == [c[0], c[1], 0] + read.state.out && |read.state.out| <= mru + 1))
  }

  lemma ConcludeSays(db: Db, mru: nat, c: seq<u8>, read: Decoded, len: nat)
    requires |c| >= 2 && db.seqno < 65536 && |read.state.out| <= mru + 1
    ensures Says(db, mru, c, read, Conclude(db.(seqno := (db.seqno + 1) % 65536), read, len, c[0], c[1]))
  {
    SettleKeepsNumber(db.(seqno := (db.seqno + 1) % 65536), read, len);
  }

  /** A packet that is too short or has another number changes nothing. */
  lemma DecompressSays(db: Db, mru: nat, c: seq<u8>)
    requires |c| >= PPP_HDRLEN && DbOk(db)
    ensures if |c| >= 6 && Word(c[4], c[5]) == db.seqno
      then Says(db, mru, c, ReadData(db, mru, c[6..]), Decompress(db, mru, c))
      else Decompress(db, mru, c) == Received(db, DecompError, None)
  {
    if |c| >= 6 && Word(c[4], c[5]) == db.seqno {
      var data := c[6..];
      NeverLonger(Decoder(db.dict, db.width, CLEAR, []), BytesBits(data), MaxCode(db.bits), mru, db.bits);
      ConcludeSays(db, mru, c, ReadData(db, mru, data), |data|);
    }
  }

  lemma SettleKeepsNumber(db: Db, r: Decoded, len: nat)
    ensures Settle(db, r, len).seqno == db.seqno
  {
    var db1 := db.(dict := r.state.dict, width := r.state.width);
    CheckClears(if r.outcome.Cleared? then Clear(db1)
                else db1.(bytesOut := db.bytesOut + len, inCount := db.inCount + |r.state.out|));
  }

  // ----- what arriving packets keep

  lemma ConcludeOk(db: Db, r: Decoded, len: nat, addr: u8, ctrl: u8)
    requires DbOk(db) && DecoderOk(r.state, MaxCode(db.bits))
    ensures var c := Conclude(db, r, len, addr, ctrl); c.Received? ==> DbOk(c.db)
  {
    SettleOk(db, r, len);
  }

  lemma SettleOk(db: Db, r: Decoded, len: nat)
    requires DbOk(db) && DecoderOk(r.state, MaxCode(db.bits))
    ensures DbOk(Settle(db, r, len))
  {
    var db1 := db.(dict := r.state.dict, width := r.state.width);
    ClearOk(db1);
    var db2 := if r.outcome.Cleared? then Clear(db1)
               else db1.(bytesOut := db.bytesOut + len, inCount := db.inCount + |r.state.out|);
    CheckClears(db2);
    ClearOk(Check(db2).0);
  }

  /** Whatever arrives leaves the receiver well formed, unless it is a packet whose
      outcome is not determined. */
  lemma DecompressOk(db: Db, mru: nat, c: seq<u8>)
    requires DbOk(db) && |c| >= PPP_HDRLEN
    ensures var r := Decompress(db, mru, c); r.Received? ==> DbOk(r.db)
  {
    if |c| >= PPP_HDRLEN + BSD_OVHD && Word(c[4], c[5]) == db.seqno {
      var data := c[PPP_HDRLEN + BSD_OVHD..];
      var r := Conclude(db.(seqno := (db.seqno + 1) % 65536), ReadData(db, mru, data), |data|, c[0], c[1]);
      assert Decompress(db, mru, c) == r;
      assert r.Received? ==> DbOk(r.db) by {
        ConcludeOk(db.(seqno := (db.seqno + 1) % 65536), ReadData(db, mru, data), |data|, c[0], c[1]);
      }
    }
  }

  /** And that is exactly a packet with the expected number that goes on after a code
      two above the largest at its place. */
  lemma UndeterminedIff(db: Db, mru: nat, c: seq<u8>)
    requires DbOk(db) && |c| >= PPP_HDRLEN
    ensures Decompress(db, mru, c).Undetermined? <==>
      && |c| >= PPP_HDRLEN + BSD_OVHD && Word(c[4], c[5]) == db.seqno
      && GoesAstray(Decoder(db.dict, db.width, CLEAR, []), BytesBits(c[PPP_HDRLEN + BSD_OVHD..]), MaxCode(db.bits), mru)
  {
    if |c| >= PPP_HDRLEN + BSD_OVHD && Word(c[4], c[5]) == db.seqno {
      var data := c[PPP_HDRLEN + BSD_OVHD..];
      AstrayData(db, mru, data);
      assert Decompress(db, mru, c) == Conclude(db.(seqno := (db.seqno + 1) % 65536), ReadData(db, mru, data), |data|, c[0], c[1]);
    }
  }

  lemma AstrayData(db: Db, mru: nat, data: seq<u8>)
    requires DbOk(db)
    ensures ReadData(db, mru, data).outcome == Undefined <==>
      GoesAstray(Decoder(db.dict, db.width, CLEAR, []), BytesBits(data), MaxCode(db.bits), mru)
  {
    UndefinedIff(Decoder(db.dict, db.width, CLEAR, []), BytesBits(data), MaxCode(db.bits), mru, db.bits);
  }

  // ----- such a packet

  /** A peer just reset. */
  function Fresh(bits: nat): Db {
    Reset(Db(bits, [], 0, 0, 0, 0, 0, 0))
  }

  /** The codes 97, 258 and 97 of nine bits each. */
  function StrayData(): seq<u8> {
    Pack(PadOnes(CodeBits([Code(97, 9), Code(258, 9), Code(97, 9)])))
  }

  /** On a fresh receiver of nine bits, 258 is two above the largest code and is
      accepted, and the entry that the last code would complete is its own prefix. */
  lemma StrayCode(mru: nat, hdr: seq<u8>)
    requires mru >= 3 && |hdr| == PPP_HDRLEN + BSD_OVHD && hdr[4] == hdr[5] == 0
    ensures DbOk(Fresh(9)) && Decompress(Fresh(9), mru, hdr + StrayData()).Undetermined?
    ensures var r := ReadData(Fresh(9), mru, StrayData());
      r.state.prev == 258 && MaxEnt(r.state.dict) == 257 && !WellFormed(r.state.dict + [Entry(r.state.prev, 97)])
  {
    var s2 := Decoder([Entry(97, 97)], 9, 258, [97, 97, 97]);
    StrayBits();
    StrayRead(StrayData(), s2, mru);
    OwnPrefix(s2, MaxCode(9), 97);
    StrayPacket(Fresh(9), mru, hdr, StrayData());
  }

  lemma StrayPacket(db: Db, mru: nat, hdr: seq<u8>, data: seq<u8>)
    requires DbOk(db) && |hdr| == PPP_HDRLEN + BSD_OVHD && Word(hdr[4], hdr[5]) == db.seqno
    requires ReadData(db, mru, data).outcome == Undefined
    ensures Decompress(db, mru, hdr + data).Undetermined?
  {
    DecompressAs(db, mru, hdr, data);
  }

  lemma StrayRead(data: seq<u8>, s2: Decoder, mru: nat)
    requires BytesBits(data) == BitsOf(97, 9) + (BitsOf(258, 9) + (BitsOf(97, 9) + Ones(5)))
    requires s2 == Decoder([Entry(97, 97)], 9, 258, [97, 97, 97]) && mru >= 3
    ensures DbOk(Fresh(9)) && DecoderOk(s2, MaxCode(9)) && ReadData(Fresh(9), mru, data) == Decoded(Undefined, s2)
  {
    ClearOk(Db(9, [], 0, 0, 0, 0, 0, 0));
    var tail := BitsOf(97, 9) + Ones(5);
    StrayStart(Decoder([], 9, CLEAR, []), BitsOf(258, 9) + tail, mru);
    StrayNext(s2, tail, mru);
    StrayEnd(s2, mru);
  }

  lemma StrayBits()
    ensures BytesBits(StrayData()) == BitsOf(97, 9) + (BitsOf(258, 9) + (BitsOf(97, 9) + Ones(5)))
  {
    var a, b, c := Code(97, 9), Code(258, 9), Code(97, 9);
    ThreeCodes(a, b, c, Ones(5));
    BytesBitsPack(PadOnes(CodeBits([a, b, c])));
  }

  lemma ThreeCodes(a: Code, b: Code, c: Code, tail: seq<bool>)
    ensures |CodeBits([a, b, c])| == a.width + b.width + c.width
    ensures CodeBits([a, b, c]) + tail
         == BitsOf(a.value, a.width) + (BitsOf(b.value, b.width) + (BitsOf(c.value, c.width) + tail))
  {
    CodeBitsCons(a, [b, c]);
    CodeBitsCons(b, [c]);
    CodeBitsCons(c, []);
    assert [a] + [b, c] == [a, b, c] && [b] + [c] == [b, c] && [c] + [] == [c];
    var x, y, z := BitsOf(a.value, a.width), BitsOf(b.value, b.width), BitsOf(c.value, c.width);
    assert CodeBits([a, b, c]) == x + (y + (z + []));
  }

  lemma StrayStart(start: Decoder, bits: seq<bool>, mru: nat)
    requires start == Decoder([], 9, CLEAR, [])
    ensures DecoderOk(start, MaxCode(9)) && DecoderOk(Decoder([], 9, 97, [97]), MaxCode(9))
    ensures Decode(start, BitsOf(97, 9) + bits, MaxCode(9), mru, 9) == Decode(Decoder([], 9, 97, [97]), bits, MaxCode(9), mru, 9)
  {
    Pow2Values();
    assert Expand([], 97) == [97] && [] + [97] == [97];
    DecodeCode(start, Code(97, 9), bits, MaxCode(9), mru, 9);
  }

  lemma StrayNext(s2: Decoder, tail: seq<bool>, mru: nat)
    requires s2 == Decoder([Entry(97, 97)], 9, 258, [97, 97, 97]) && mru >= 3
    ensures DecoderOk(s2, MaxCode(9)) && DecoderOk(Decoder([], 9, 97, [97]), MaxCode(9))
    ensures Decode(Decoder([], 9, 97, [97]), BitsOf(258, 9) + tail, MaxCode(9), mru, 9) == Decode(s2, tail, MaxCode(9), mru, 9)
  {
    Pow2Values();
    var s1 := Decoder([], 9, 97, [97]);
    assert Expand([], 97) == [97];
    assert Accept(s1, 258, MaxCode(9)) == s2;
    DecodeCode(s1, Code(258, 9), tail, MaxCode(9), mru, 9);
  }

  lemma StrayEnd(s2: Decoder, mru: nat)
    requires s2 == Decoder([Entry(97, 97)], 9, 258, [97, 97, 97]) && mru >= 3
    ensures DecoderOk(s2, MaxCode(9))
    ensures Decode(s2, BitsOf(97, 9) + Ones(5), MaxCode(9), mru, 9) == Decoded(Undefined, s2)
  {
    Pow2Values();
    var bits := BitsOf(97, 9) + Ones(5);
    assert bits[..9] == BitsOf(97, 9);
    NumBitsOf(97, 9);
    assert Expand(s2.dict, 97) == [97];
    DanglingContinues(s2, bits, MaxCode(9), mru, 9);
  }
}
