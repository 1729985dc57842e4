/** Two BSD-Compress peers on a link: what the PPP driver sends and what it makes
    of what arrives, over whole streams of packets and resets. */
module PppLink {
  import opened Bits
  import opened Lzw
  import opened BsdPacket
  import opened BsdComp
  import opened Mbufs
  import opened Marks
  import opened Options

  /** A packet handed to the sender, with the output limit and whether compressed
      packets may be sent yet; or a reset of both ends. */
  datatype Event = Packet(data: seq<u8>, maxolen: int, ccpUp: bool) | ResetBoth

  /** Packets the driver hands down: they carry a header, fit the receiver's
      buffer, and are not themselves marked as compressed. */
  predicate EventOk(e: Event, mru: nat) {
    e.Packet? ==>
      && |e.data| >= PPP_HDRLEN
      && (Eligible(e.data) ==> |e.data| - PPP_HDRLEN <= mru)
      && Protocol(e.data) != PPP_COMP
  }

  /** What travels: the compressed packet if there is one and it may be sent, the
      original otherwise. */
  function Wire(db: Db, e: Event): seq<u8>
    requires e.Packet? && |e.data| >= PPP_HDRLEN && db.seqno < 65536
  {
    var s := Compress(db, e.data, e.maxolen);
    if s.packet.Some? && e.ccpUp then s.packet.value else e.data
  }

  function Receive(db: Db, mru: nat, wire: seq<u8>): Received
    requires |wire| >= PPP_HDRLEN && DbOk(db)
  {
    if Protocol(wire) == PPP_COMP then Decompress(db, mru, wire)
    else Received(Incomp(db, wire), DecompOk, Some(wire))
  }

  /** None of the codes of a packet that is compressed stands for more than a buffer
      of the receiver holds. */
  ghost predicate Fits(db: Db, e: Event)
    requires e.Packet? && |e.data| >= PPP_HDRLEN
  {
    Eligible(e.data) ==> Short(Codes(db, e.data))
  }

  lemma WireHeader(db: Db, e: Event)
    requires DbOk(db) && e.Packet? && |e.data| >= PPP_HDRLEN
    ensures |Wire(db, e)| >= PPP_HDRLEN && DbOk(Compress(db, e.data, e.maxolen).db)
  {
    if Eligible(e.data) {
      AfterPacketOk(db, e.data);
    }
  }

  /** One packet crosses the link between peers in the same state. */
  lemma Crossing(db: Db, mru: nat, e: Event)
    requires DbOk(db) && e.Packet? && EventOk(e, mru) && Fits(db, e)
    ensures |Wire(db, e)| >= PPP_HDRLEN
    ensures var s := Compress(db, e.data, e.maxolen);
      DbOk(s.db) && Receive(db, mru, Wire(db, e)) == Received(s.db, DecompOk, Some(e.data))
  {
    WireHeader(db, e);
    var s := Compress(db, e.data, e.maxolen);
    if s.packet.Some? && e.ccpUp {
      RoundTrip(db, e.data, e.maxolen, mru);
      assert Protocol(s.packet.value) == PPP_COMP;
    }
  }

  /** The two ends and what the receiver has delivered upwards. The receiver's state is
      unknown once a packet has left it undetermined. */
  datatype Link = Link(tx: Db, rx: Option<Db>, delivered: seq<seq<u8>>)

  ghost predicate LinkOk(l: Link) {
    DbOk(l.tx) && (l.rx.Some? ==> DbOk(l.rx.value))
  }

  lemma ReceiveOk(db: Db, mru: nat, wire: seq<u8>)
    requires DbOk(db) && |wire| >= PPP_HDRLEN
    ensures var r := Receive(db, mru, wire); r.Received? ==> DbOk(r.db)
  {
    if Protocol(wire) == PPP_COMP {
      DecompressOk(db, mru, wire);
    } else if Eligible(wire) {
      AfterPacketOk(db, wire);
    }
  }

  /** What one event leads to; the ends need not be in step. */
  function Effect(l: Link, mru: nat, e: Event): (r: Link)
    requires LinkOk(l) && EventOk(e, mru)
    ensures LinkOk(r)
  {
    match e
    case ResetBoth =>
      ClearOk(l.tx.(seqno := 0));
      if l.rx.None? then l.(tx := Reset(l.tx))
      else
        ClearOk(l.rx.value.(seqno := 0));
        l.(tx := Reset(l.tx), rx := Some(Reset(l.rx.value)))
    case Packet(data, maxolen, _) =>
      WireHeader(l.tx, e);
      var tx := Compress(l.tx, data, maxolen).db;
      if l.rx.None? then l.(tx := tx)
      else
        ReceiveOk(l.rx.value, mru, Wire(l.tx, e));
        match Receive(l.rx.value, mru, Wire(l.tx, e))
        case Undetermined => l.(tx := tx, rx := None)
        case Received(rx, _, packet) =>
          Link(tx, Some(rx), if packet.Some? then l.delivered + [packet.value] else l.delivered)
  }

  /** This is the effect; used where Inside is mentioned. */
  ghost predicate Happens(l: Link, mru: nat, e: Event, r: Link) {
    LinkOk(r) && forall n: nat {:trigger Inside(n)} :: Inside(n) ==> LinkOk(l) && EventOk(e, mru) && r == Effect(l, mru, e)
  }

  /** One event. */
  ghost function Happen(l: Link, mru: nat, e: Event): (r: Link)
    requires LinkOk(l) && EventOk(e, mru)
    ensures LinkOk(r)
  {
    assert Happens(l, mru, e, Effect(l, mru, e));
    var r :| Happens(l, mru, e, r);
    r
  }

  lemma HappenIs(l: Link, mru: nat, e: Event)
    requires LinkOk(l) && EventOk(e, mru)
    ensures Happen(l, mru, e) == Effect(l, mru, e)
  {
    assert Inside(0);
  }

  ghost predicate Orderly(events: seq<Event>, mru: nat) {
    forall e :: e in events ==> EventOk(e, mru)
  }

  ghost function Run(l: Link, mru: nat, events: seq<Event>): (r: Link)
    requires LinkOk(l) && Orderly(events, mru)
    ensures LinkOk(r)
    decreases |events|
  {
    if events == [] then l else Run(Happen(l, mru, events[0]), mru, events[1..])
  }

  function Packets(events: seq<Event>): seq<seq<u8>> {
    if events == [] then []
    else Handed(events[0]) + Packets(events[1..])
  }

  function Handed(e: Event): seq<seq<u8>> {
    if e.Packet? then [e.data] else []
  }

  lemma HappenFaithful(l: Link, mru: nat, e: Event)
    requires LinkOk(l) && l.rx == Some(l.tx) && EventOk(e, mru) && (e.Packet? ==> Fits(l.tx, e))
    ensures var r := Happen(l, mru, e);
      r.rx == Some(r.tx) && r.delivered == l.delivered + Handed(e)
  {
    HappenIs(l, mru, e);
    if e.Packet? {
      Crossing(l.tx, mru, e);
    } else {
      assert l.delivered + Handed(e) == l.delivered;
    }
  }

  lemma HappenBits(l: Link, mru: nat, e: Event)
    requires LinkOk(l) && EventOk(e, mru)
    ensures Happen(l, mru, e).tx.bits == l.tx.bits
  {
    HappenIs(l, mru, e);
    if e.Packet? && Eligible(e.data) {
      CheckClears(Counted(l.tx, e.data));
    }
  }

  /** Packets no longer than a buffer, or codes too few for longer strings. */
  predicate SizedEvent(e: Event, bits: nat) {
    e.Packet? && |e.data| >= PPP_HDRLEN && Eligible(e.data) ==> Sized(DataLength(e.data), MaxCode(bits))
  }

  ghost predicate AllSized(events: seq<Event>, bits: nat) {
    forall e :: e in events ==> SizedEvent(e, bits)
  }

  lemma SizedFits(db: Db, e: Event)
    requires DbOk(db) && SizedEvent(e, db.bits)
    ensures e.Packet? && |e.data| >= PPP_HDRLEN ==> Fits(db, e)
  {
    if e.Packet? && |e.data| >= PPP_HDRLEN && Eligible(e.data) {
      SizedCodes(db, e.data);
    }
  }

  /** Over any stream of such packets and resets, from peers in the same state, every
      packet is delivered as it was handed in, in order, and the peers end in the
      same state: same dictionary, code width, sequence number and counters. */
  lemma {:induction false} StreamFaithful(l: Link, mru: nat, events: seq<Event>)
    requires LinkOk(l) && l.rx == Some(l.tx) && Orderly(events, mru) && AllSized(events, l.tx.bits)
    ensures var r := Run(l, mru, events);
      r.rx == Some(r.tx) && r.delivered == l.delivered + Packets(events)
    decreases |events|
  {
    if events == [] {
      assert l.delivered + Packets(events) == l.delivered;
    } else {
      var e, rest := events[0], events[1..];
      var l1 := Happen(l, mru, e);
      SizedFits(l.tx, e);
      HappenFaithful(l, mru, e);
      HappenBits(l, mru, e);
      StreamFaithful(l1, mru, rest);
      assert l.delivered + (Handed(e) + Packets(rest)) == l.delivered + Handed(e) + Packets(rest);
    }
  }

  /** A reset brings any two peers of the same code size back in step. */
  lemma ResetResynchronises(l: Link, mru: nat, events: seq<Event>)
    requires LinkOk(l) && l.rx.Some? && l.tx.bits == l.rx.value.bits && Orderly(events, mru) && AllSized(events, l.tx.bits)
    ensures var r := Run(l, mru, [ResetBoth] + events);
      r.rx == Some(r.tx) && r.delivered == l.delivered + Packets(events)
  {
    var all := [ResetBoth] + events;
    assert all[1..] == events;
    HappenIs(l, mru, ResetBoth);
    StreamFaithful(Happen(l, mru, ResetBoth), mru, events);
  }

  // ----- the counters stay small

  /** Packets of at most 64 Kbytes. */
  const MAX_PACKET: nat := 65536

  /** The counters after a packet: the next check is less than a gap away, and the
      bytes put out since the last check are at most twice the bytes taken in. */
  ghost predicate CountersOk(db: Db) {
    && CHECK_GAP <= db.checkpoint <= RATIO_MAX + CHECK_GAP
    && db.checkpoint - CHECK_GAP <= db.inCount < db.checkpoint
    && db.bytesOut <= RATIO_MAX + 2 * (db.inCount + CHECK_GAP - db.checkpoint)
  }

  lemma {:induction false} CodeBitsLength(codes: seq<Code>)
    requires forall i :: 0 <= i < |codes| ==> codes[i].width <= 15
    ensures |CodeBits(codes)| <= 15 * |codes|
  {
    if codes != [] {
      CodeBitsLength(codes[1..]);
    }
  }

  lemma {:induction false} EncodeSize(d: seq<Entry>, width: nat, ent: nat, data: seq<u8>, limit: nat, maxbits: nat)
    requires limit == MaxCode(maxbits)
    requires WellFormed(d) && IsCode(d, ent) && WidthOk(d, width, limit)
    ensures var e := Encode(d, width, ent, data, limit);
      |e.codes| <= |data| + 1 && forall i :: 0 <= i < |e.codes| ==> e.codes[i].width <= maxbits
    decreases |data|
  {
    if width > maxbits {
      Pow2Mono(maxbits + 1, width);
    }
    if data != [] {
      var c := data[0];
      match Lookup(d, Entry(ent, c))
      case Some(code) =>
        EncodeSize(d, width, code, data[1..], limit, maxbits);
      case None =>
        var (d1, w1) := Enter(d, width, Entry(ent, c), limit);
        EnterKeeps(d, width, Entry(ent, c), limit, maxbits);
        EncodeSize(d1, w1, c, data[1..], limit, maxbits);
    }
  }

  /** A packet of n bytes is counted as at most 2n bytes out. */
  lemma BytesOutBound(db: Db, p: seq<u8>)
    requires DbOk(db) && |p| >= PPP_HDRLEN
    ensures BytesFor(|CodeBits(Codes(db, p).codes)|) <= 2 * (|p| - PPP_HDRLEN + 1)
  {
    var e := Codes(db, p);
    EncodeSize(db.dict, db.width, p[3], p[PPP_HDRLEN..], MaxCode(db.bits), db.bits);
    CodeBitsLength(e.codes);
  }

  /** No counter ever overflows 32 bits, and the shift in the ratio check is safe:
      when it happens the byte count is at most RATIO_MAX. */
  lemma CountersBounded(db: Db, p: seq<u8>)
    requires DbOk(db) && CountersOk(db) && PPP_HDRLEN <= |p| <= MAX_PACKET
    ensures CountersOk(AfterPacket(db, p))
    ensures var counted := Counted(db, p);
      && counted.inCount < 0x1_0000_0000 && counted.bytesOut < 0x1_0000_0000
      && Age(counted).inCount <= RATIO_MAX && Age(counted).inCount * RATIO_SCALE < 0x1_0000_0000
  {
    BytesOutBound(db, p);
  }

  // ----- the driver's own databases

  /** Two databases that share no storage. */
  ghost predicate Apart(tx: Database, rx: Database) {
    tx != rx && tx.dict != rx.dict && tx.lens != rx.lens
  }

  /** Hand a packet to the sender's database and what it puts on the wire to the
      receiver's. */
  method Carry(tx: Database, rx: Database, packet: Chain, maxolen: int, ccpUp: bool) returns (status: Option<Status>, delivered: Option<seq<u8>>)
    requires Apart(tx, rx) && tx.Valid() && rx.Valid() && rx.decomp && tx.State() == rx.State()
    requires |packet| >= 1 && |packet[0]| >= PPP_HDRLEN
    requires var e := Packet(Flatten(packet), maxolen, ccpUp); EventOk(e, rx.mru) && SizedEvent(e, rx.bits)
    modifies tx, tx.dict, tx.lens, rx, rx.dict, rx.lens
    ensures tx.Valid() && rx.Valid() && rx.mru == old(rx.mru) && tx.State() == rx.State()
    ensures status == Some(DecompOk) && delivered == Some(Flatten(packet))
  {
    ghost var db := tx.State();
    ghost var e := Packet(Flatten(packet), maxolen, ccpUp);
    SizedFits(db, e);
    Crossing(db, rx.mru, e);
    var slen := BytesFollowing(packet, 0, 0);
    RestStart(packet, 0);
    var mcomp, length := tx.Compress(packet, slen, maxolen);
    assert rx.Valid() && rx.State() == db;
    if mcomp.Some? && ccpUp {
      assert mcomp.value == Wire(db, e);
      var wire := [mcomp.value];
      assert Flatten(wire) == mcomp.value + Mbufs.Tail(wire, 1) == mcomp.value;
      assert Protocol(mcomp.value) == PPP_COMP;
      status, delivered := rx.Decompress(wire);
    } else {
      rx.Incomp(packet);
      status, delivered := Some(DecompOk), Some(Flatten(packet));
    }
  }

  /** Any number of packets, one after the other. */
  method CarryAll(tx: Database, rx: Database, packets: seq<Chain>, maxolen: int, ccpUp: bool) returns (delivered: seq<seq<u8>>)
    requires Apart(tx, rx) && tx.Valid() && rx.Valid() && rx.decomp && tx.State() == rx.State()
    requires forall p :: p in packets ==>
      |p| >= 1 && |p[0]| >= PPP_HDRLEN && EventOk(Packet(Flatten(p), maxolen, ccpUp), rx.mru)
      && SizedEvent(Packet(Flatten(p), maxolen, ccpUp), rx.bits)
    modifies tx, tx.dict, tx.lens, rx, rx.dict, rx.lens
    ensures tx.Valid() && rx.Valid() && tx.State() == rx.State()
    ensures |delivered| == |packets| && forall i :: 0 <= i < |packets| ==> delivered[i] == Flatten(packets[i])
  {
    delivered := [];
    for k := 0 to |packets|
      invariant tx.Valid() && rx.Valid() && rx.mru == old(rx.mru) && tx.State() == rx.State()
      invariant |delivered| == k && forall i :: 0 <= i < k ==> delivered[i] == Flatten(packets[i])
    {
      var status, got := Carry(tx, rx, packets[k], maxolen, ccpUp);
      delivered := delivered + [got.value];
    }
  }
}
