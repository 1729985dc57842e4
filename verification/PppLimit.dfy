/** When every stream gets through: the receiver gives up on a code whose string is
    longer than one of its buffers, so large packets and large codes do not go together.
    The stream that fails sends runs of one letter, each a byte longer than the last. */
module PppLimit {
  import opened Bits
  import opened Lzw
  import opened BsdPacket
  import opened PppLink
  import opened Options

  /** Two peers just reset. */
  function Start(bits: nat): (l: Link)
    requires 9 <= bits <= 15
    ensures LinkOk(l)
  {
    ClearOk(Db(bits, [], 0, 0, 0, 0, 0, 0));
    Link(Fresh(bits), Some(Fresh(bits)), [])
  }

  /** Whatever is handed in, from the start on, is delivered. */
  ghost predicate AlwaysFaithful(bits: nat, mru: nat)
    requires 9 <= bits <= 15
  {
    forall events: seq<Event> :: Orderly(events, mru) ==> Run(Start(bits), mru, events).delivered == Packets(events)
  }

  // ----- a dictionary of runs of one letter

  const A: nat := 97

  /** The code of the run of j + 1 letters. */
  function At(j: nat): nat {
    if j == 0 then A else FIRST + j - 1
  }

  /** The runs of 2 to k + 1 letters. */
  function Ladder(k: nat): (d: seq<Entry>)
    ensures |d| == k
  {
    seq(k, i requires 0 <= i => Entry(At(i), A))
  }

  lemma LadderOk(k: nat)
    ensures WellFormed(Ladder(k))
  {
    var d := Ladder(k);
    forall i | 0 <= i < |d|
      ensures IsCode(d[..i], d[i].prefix)
    {
      assert d[i] == Entry(At(i), A);
    }
  }

  lemma {:induction false} LadderString(k: nat, j: nat)
    requires j <= k
    ensures WellFormed(Ladder(k)) && IsCode(Ladder(k), At(j)) && |Expand(Ladder(k), At(j))| == j + 1
    decreases j
  {
    LadderOk(k);
    if j > 0 {
      LadderString(k, j - 1);
      assert Ladder(k)[j - 1] == Entry(At(j - 1), A);
    }
  }

  lemma LadderLookup(k: nat, j: nat)
    ensures Lookup(Ladder(k), Entry(At(j), A)) == if j < k then Some(At(j + 1)) else None
  {
    var d, e := Ladder(k), Entry(At(j), A);
    assert j < k ==> d[j] == e && e in d;
    LookupFinds(d, e);
    var r := Lookup(d, e);
    if r.Some? {
      assert d[r.value - FIRST] == Entry(At(r.value - FIRST), A);
    }
  }

  function Letters(n: nat): (s: seq<u8>)
    ensures |s| == n
  {
    seq(n, i => A)
  }

  lemma {:induction false} Climb(k: nat, width: nat, j: nat, m: nat, limit: nat)
    requires j + m <= k
    ensures Encode(Ladder(k), width, At(j), Letters(m), limit) == Encoded([Code(At(j + m), width)], Ladder(k), width)
    decreases m
  {
    if m > 0 {
      LadderLookup(k, j);
      assert Letters(m)[1..] == Letters(m - 1);
      Climb(k, width, j + 1, m - 1, limit);
    }
  }

  /** One letter more than the longest run known makes the next one. */
  lemma {:induction false} ClimbOver(k: nat, width: nat, j: nat, m: nat, limit: nat)
    requires j + m == k + 1 && m > 0 && MaxEnt(Ladder(k)) < limit
    ensures var e := Encode(Ladder(k), width, At(j), Letters(m), limit);
      e.dict == Ladder(k + 1) && |e.codes| == 2 && e.codes[0].value == At(k) && e.codes[1].value == A
    decreases m
  {
    LadderLookup(k, j);
    assert Letters(m)[1..] == Letters(m - 1);
    if m == 1 {
      var (d1, w1) := Enter(Ladder(k), width, Entry(At(k), A), limit);
      assert d1 == Ladder(k + 1);
      assert Encode(d1, w1, A, [], limit) == Encoded([Code(A, w1)], d1, w1);
    } else {
      ClimbOver(k, width, j + 1, m - 1, limit);
    }
  }

  // ----- the stream

  /** A packet of n letters after one that is its protocol. */
  function Letter(n: nat): seq<u8> {
    [0xff, 0x03, 0, A] + Letters(n)
  }

  lemma LetterPacket(n: nat)
    ensures var p := Letter(n);
      && |p| == PPP_HDRLEN + n && p[3] == A && p[PPP_HDRLEN..] == Letters(n)
      && Eligible(p) && DataLength(p) == n + 1 && Protocol(p) == A
  {
  }

  function Send(n: nat): Event {
    Packet(Letter(n), |Letter(n)|, true)
  }

  lemma SendOk(n: nat, mru: nat)
    requires n <= mru
    ensures EventOk(Send(n), mru)
  {
    LetterPacket(n);
  }

  function Climbing(k: nat): (events: seq<Event>) {
    if k == 0 then [] else Climbing(k - 1) + [Send(k)]
  }

  /** One packet of the stream gets through and adds one run. */
  lemma Grow(db: Db, k: nat)
    requires DbOk(db) && db.dict == Ladder(k) && k < CLUSTER && db.bits >= 12
    ensures |Letter(k + 1)| >= PPP_HDRLEN && Short(Codes(db, Letter(k + 1)))
    ensures AfterPacket(db, Letter(k + 1)).dict == Ladder(k + 1) && AfterPacket(db, Letter(k + 1)).bits == db.bits
  {
    var p, limit := Letter(k + 1), MaxCode(db.bits);
    LetterPacket(k + 1);
    Roomy(db.bits);
    ClimbOver(k, db.width, 0, k + 1, limit);
    var e := Codes(db, p);
    GrowShort(e, k);
    CheckClears(Counted(db, p));
  }

  lemma GrowShort(e: Encoded, k: nat)
    requires e.dict == Ladder(k + 1) && |e.codes| == 2 && e.codes[0].value == At(k) && e.codes[1].value == A && k < CLUSTER
    ensures Short(e)
  {
    LadderString(k + 1, k);
    LadderString(k + 1, 0);
    assert At(0) == A;
  }

  lemma Roomy(bits: nat)
    requires bits >= 12
    ensures MaxCode(bits) >= 4095
  {
    Pow2Values();
    Pow2Mono(12, bits);
  }

  lemma {:induction false} RunSnoc(l: Link, mru: nat, events: seq<Event>, e: Event)
    requires LinkOk(l) && Orderly(events, mru) && EventOk(e, mru)
    ensures Orderly(events + [e], mru) && Run(l, mru, events + [e]) == Happen(Run(l, mru, events), mru, e)
    decreases |events|
  {
    if events == [] {
      assert events + [e] == [e];
    } else {
      assert (events + [e])[1..] == events[1..] + [e];
      RunSnoc(Happen(l, mru, events[0]), mru, events[1..], e);
    }
  }

  lemma {:induction false} PacketsSnoc(events: seq<Event>, e: Event)
    ensures Packets(events + [e]) == Packets(events) + Handed(e)
    decreases |events|
  {
    if events == [] {
      assert events + [e] == [e] && Packets([e]) == Handed(e) + [];
    } else {
      assert (events + [e])[1..] == events[1..] + [e];
      PacketsSnoc(events[1..], e);
    }
  }

  /** The stream is delivered and leaves both ends with all runs up to the last. */
  lemma {:induction false} RunClimbing(bits: nat, mru: nat, k: nat)
    requires 12 <= bits <= 15 && k <= CLUSTER <= mru
    ensures Orderly(Climbing(k), mru)
    ensures var l := Run(Start(bits), mru, Climbing(k));
      l.rx == Some(l.tx) && l.tx.dict == Ladder(k) && l.tx.bits == bits && l.delivered == Packets(Climbing(k))
    decreases k
  {
    if k == 0 {
      assert Ladder(0) == [];
    } else {
      RunClimbing(bits, mru, k - 1);
      var l, e := Run(Start(bits), mru, Climbing(k - 1)), Send(k);
      SendOk(k, mru);
      GrowLink(l, mru, k);
      RunSnoc(Start(bits), mru, Climbing(k - 1), e);
      PacketsSnoc(Climbing(k - 1), e);
    }
  }

  lemma GrowLink(l: Link, mru: nat, k: nat)
    requires LinkOk(l) && l.rx == Some(l.tx) && 0 < k <= CLUSTER <= mru && l.tx.dict == Ladder(k - 1) && l.tx.bits >= 12
    ensures EventOk(Send(k), mru)
    ensures var r := Happen(l, mru, Send(k));
      && r.rx == Some(r.tx) && r.tx.dict == Ladder(k) && r.tx.bits == l.tx.bits
      && r.delivered == l.delivered + Handed(Send(k))
  {
    SendOk(k, mru);
    LetterPacket(k);
    Grow(l.tx, k - 1);
    HappenFaithful(l, mru, Send(k));
    HappenIs(l, mru, Send(k));
  }

  /** The longest run is one code, and the packet goes out compressed. */
  lemma LastPacket(db: Db)
    requires DbOk(db) && db.dict == Ladder(CLUSTER) && db.bits >= 12
    ensures |Letter(CLUSTER)| >= PPP_HDRLEN && !Short(Codes(db, Letter(CLUSTER)))
    ensures Compress(db, Letter(CLUSTER), |Letter(CLUSTER)|).packet == Some(CompressedPacket(db, Letter(CLUSTER)))
  {
    var p, limit := Letter(CLUSTER), MaxCode(db.bits);
    LetterPacket(CLUSTER);
    Roomy(db.bits);
    Climb(CLUSTER, db.width, 0, CLUSTER, limit);
    assert At(0) == A;
    var e := Codes(db, p);
    assert e == Encoded([Code(At(CLUSTER), db.width)], Ladder(CLUSTER), db.width);
    LadderString(CLUSTER, CLUSTER);
    assert !Short(e) by {
      assert |Expand(e.dict, e.codes[0].value)| > CLUSTER;
    }
    CheckClears(Counted(db, p));
    assert AllCodes(db, p) == e.codes;
    EncodeSize(db.dict, db.width, p[3], p[PPP_HDRLEN..], limit, db.bits);
    CodeBitsLength(e.codes);
    assert |Pack(PadOnes(CodeBits(e.codes)))| <= 2;
  }

  /** After the stream one more packet is lost. */
  lemma LastLost(bits: nat, mru: nat)
    requires 12 <= bits <= 15 && CLUSTER <= mru
    ensures var events := Climbing(CLUSTER) + [Send(CLUSTER)];
      Orderly(events, mru) && Run(Start(bits), mru, events).delivered != Packets(events)
  {
    RunClimbing(bits, mru, CLUSTER);
    var l, e := Run(Start(bits), mru, Climbing(CLUSTER)), Send(CLUSTER);
    SendOk(CLUSTER, mru);
    LetterPacket(CLUSTER);
    LastPacket(l.tx);
    DecompressTooLong(l.tx, e.data, mru);
    assert Protocol(CompressedPacket(l.tx, e.data)) == PPP_COMP;
    HappenIs(l, mru, e);
    assert Happen(l, mru, e).delivered == l.delivered;
    RunSnoc(Start(bits), mru, Climbing(CLUSTER), e);
    PacketsSnoc(Climbing(CLUSTER), e);
  }

  lemma Enough(bits: nat, mru: nat, events: seq<Event>)
    requires 9 <= bits <= 15 && (mru < CLUSTER || bits <= 11) && Orderly(events, mru)
    ensures Run(Start(bits), mru, events).delivered == Packets(events)
  {
    if bits <= 11 {
      Pow2Values();
      Pow2Mono(bits, 11);
    }
    StreamFaithful(Start(bits), mru, events);
    assert [] + Packets(events) == Packets(events);
  }

  /** Every stream is delivered exactly if no packet exceeds a buffer, or the codes are
      too small to name a longer string. */
  lemma FaithfulIff(bits: nat, mru: nat)
    requires 9 <= bits <= 15
    ensures AlwaysFaithful(bits, mru) <==> mru < CLUSTER || bits <= 11
  {
    if mru < CLUSTER || bits <= 11 {
      forall events: seq<Event> | Orderly(events, mru)
        ensures Run(Start(bits), mru, events).delivered == Packets(events)
      {
        Enough(bits, mru, events);
      }
    } else {
      LastLost(bits, mru);
    }
  }
}
