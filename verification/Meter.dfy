/** Token-bucket meters of the traffic conditioner: what may be marked in profile
    over any sequence of arrivals, for the single bucket and for the two-rate
    three-color marker (section 3 of RFC 2698). */
module Meter {
  import opened Bits
  import opened Products

  const TB_SCALE: nat := 0x1_0000_0000
  const NEVER: nat := 0xffff_ffff_ffff_ffff

  // ----- buckets

  /** Tokens and depth in bytes, rate in bytes per clock tick, all scaled by TB_SCALE. */
  datatype Bucket = Bucket(rate: nat, depth: nat, fill: nat, token: nat, last: nat)

  function Import(bitRate: nat, depth: nat, freq: nat, now: nat): Bucket
    requires freq > 0
  {
    var rate := bitRate / 8 * TB_SCALE / freq;
    var deep := depth * TB_SCALE;
    Bucket(rate, deep, FillTime(deep, rate), deep, now)
  }

  function FillTime(depth: nat, rate: nat): nat {
    if rate > 0 then depth / rate else NEVER
  }

  /** The fill time, plus one tick, suffices to fill the bucket; an idle one never fills. */
  ghost predicate BucketOk(b: Bucket) {
    b.token <= b.depth && (b.depth <= Whole(b.fill + 1, b.rate) || b.fill == NEVER)
  }

  /** A bucket just created is full. */
  ghost predicate Fresh(b: Bucket, now: nat) {
    BucketOk(b) && b.token == b.depth && b.last == now
  }

  lemma ImportOk(bitRate: nat, depth: nat, freq: nat, now: nat)
    requires freq > 0
    ensures var b := Import(bitRate, depth, freq, now);
      && Fresh(b, now) && b.depth == depth * TB_SCALE
      && Whole(b.rate, freq) <= bitRate / 8 * TB_SCALE < Whole(b.rate + 1, freq)
      && (b.rate > 0 ==> Whole(b.fill, b.rate) <= b.depth < Whole(b.fill + 1, b.rate))
  {
    var b := Import(bitRate, depth, freq, now);
    Divided(bitRate / 8 * TB_SCALE, freq);
    if b.rate > 0 {
      Divided(b.depth, b.rate);
    }
  }

  lemma Divided(n: nat, d: nat)
    requires d > 0
    ensures Whole(n / d, d) <= n < Whole(n / d + 1, d)
  {
    var q, r := n / d, n % d;
    assert n == q * d + r;
    WholeProduct(q, d);
    WholeProduct(q + 1, d);
    MulDistr(q, 1, d);
  }

  /** Credit the time since the last refill, up to the depth. */
  ghost function Refill(b: Bucket, now: nat): Bucket
    requires b.last <= now
  {
    var token := if now - b.last >= b.fill then b.depth else b.token + Whole(now - b.last, b.rate);
    b.(token := if token > b.depth then b.depth else token, last := now)
  }

  /** A packet refills the bucket only if the tokens at hand do not suffice. */
  ghost function Arrive(b: Bucket, size: nat, now: nat): Bucket
    requires b.last <= now
  {
    if b.token < size then Refill(b, now) else b
  }

  // ----- what must be in profile

  /** The tokens at hand cover a packet, or the bucket is deep enough for it and has been
      idle for its fill time, or for long enough at its rate. */
  ghost predicate Covers(b: Bucket, size: nat, now: nat)
    requires b.last <= now
  {
    || size <= b.token
    || (size <= b.depth && (now - b.last >= b.fill || size <= b.token + Whole(now - b.last, b.rate)))
  }

  /** A packet is in profile exactly then, and then the tokens that are left are at least
      the credit less the packet, up to the depth. */
  lemma CoversIff(b: Bucket, size: nat, now: nat)
    requires b.last <= now
    ensures size <= Arrive(b, size, now).token <==> Covers(b, size, now)
    ensures var r := Refill(b, now); r.token == b.depth || r.token == b.token + Whole(now - b.last, b.rate)
  {
  }

  /** A bucket that is topped up at every packet, and what it lets pass: a profile by the
      letter. */
  datatype Profile = Profile(rate: nat, depth: nat, level: nat, at: nat)

  ghost function Level(q: Profile, now: nat): nat
    requires q.at <= now
  {
    var full := q.level + Whole(now - q.at, q.rate);
    if full > q.depth then q.depth else full
  }

  /** Packets, with their sizes and times, that all keep to the profile. */
  ghost predicate Keeps(q: Profile, s: seq<(nat, nat)>)
    decreases |s|
  {
    s == [] ||
    (q.at <= s[0].1 < NEVER && s[0].0 <= Level(q, s[0].1)
     && Keeps(q.(level := Level(q, s[0].1) - s[0].0, at := s[0].1), s[1..]))
  }

  /** The bucket has at least the credit that the profile has. */
  ghost predicate Backs(b: Bucket, q: Profile) {
    && q.rate == b.rate && q.depth == b.depth && q.level <= b.depth && b.last <= q.at
    && q.level <= b.token + Whole(q.at - b.last, b.rate)
  }

  /** All packets are in profile, one after the other. */
  ghost predicate AllCovered(b: Bucket, s: seq<(nat, nat)>)
    decreases |s|
  {
    s == [] ||
    (b.last <= s[0].1 && Covers(b, s[0].0, s[0].1) && s[0].0 <= Arrive(b, s[0].0, s[0].1).token
     && AllCovered(Pay(Arrive(b, s[0].0, s[0].1), s[0].0), s[1..]))
  }

  lemma BacksOn(b: Bucket, q: Profile, size: nat, now: nat)
    requires Backs(b, q) && q.at <= now && size <= Level(q, now) && BucketOk(b)
    ensures b.last <= now && size <= Arrive(b, size, now).token
    ensures Backs(Pay(Arrive(b, size, now), size), q.(level := Level(q, now) - size, at := now))
  {
    Sum(q.at - b.last, now - q.at, b.rate);
    Unit(b.rate);
  }

  /** Whoever keeps to the profile is in profile: from a bucket with the profile's credit
      on, and so from a full one, every packet is. */
  lemma {:induction false} KeepersPass(b: Bucket, q: Profile, s: seq<(nat, nat)>)
    requires Backs(b, q) && BucketOk(b) && Keeps(q, s)
    ensures AllCovered(b, s)
    decreases |s|
  {
    if s != [] {
      var size, now := s[0].0, s[0].1;
      BacksOn(b, q, size, now);
      CoversIff(b, size, now);
      NextBound(b, Arrival(size, now, true));
      KeepersPass(Pay(Arrive(b, size, now), size), q.(level := Level(q, now) - size, at := now), s[1..]);
    }
  }

  function Pay(b: Bucket, size: nat): Bucket
    requires size <= b.token
  {
    b.(token := b.token - size)
  }

  // ----- one bucket over many arrivals

  /** An arrival of a packet of scaled size, and whether it is charged to the bucket. */
  datatype Arrival = Arrival(size: nat, now: nat, charged: bool)

  /** The clock is below its 64-bit limit and not before the last refill, and a packet
      is charged only if the tokens suffice. */
  ghost predicate Chargeable(b: Bucket, a: Arrival) {
    b.last <= a.now < NEVER && (a.charged ==> a.size <= Arrive(b, a.size, a.now).token)
  }

  ghost function Next(b: Bucket, a: Arrival): Bucket
    requires Chargeable(b, a)
  {
    var r := Arrive(b, a.size, a.now);
    if a.charged then Pay(r, a.size) else r
  }

  ghost predicate Proper(b: Bucket, s: seq<Arrival>)
    decreases |s|
  {
    s == [] || (Chargeable(b, s[0]) && (|s| > 1 ==> s[0].now <= s[1].now) && Proper(Next(b, s[0]), s[1..]))
  }

  ghost function End(b: Bucket, s: seq<Arrival>): Bucket
    requires Proper(b, s)
    decreases |s|
  {
    if s == [] then b else End(Next(b, s[0]), s[1..])
  }

  ghost function Refills(b: Bucket, s: seq<Arrival>): nat
    requires Proper(b, s)
    decreases |s|
  {
    if s == [] then 0 else (if b.token < s[0].size then 1 else 0) + Refills(Next(b, s[0]), s[1..])
  }

  function Charge(a: Arrival): nat {
    if a.charged then a.size else 0
  }

  ghost function Charged(s: seq<Arrival>): nat {
    if s == [] then 0 else Charge(s[0]) + Charged(s[1..])
  }

  /** A full refill adds less than one tick's worth more than the time since the last
      one allows: the fill time is rounded down. */
  lemma RefillBound(b: Bucket, now: nat)
    requires BucketOk(b) && b.last <= now < NEVER
    ensures BucketOk(Refill(b, now)) && Refill(b, now).last == now
    ensures Refill(b, now).token <= b.token + Whole(now - b.last + 1, b.rate)
  {
    var i := now - b.last;
    Sum(i, 1, b.rate);
    Unit(b.rate);
    Mono(0, i, b.rate);
    if i >= b.fill {
      Mono(b.fill + 1, i + 1, b.rate);
    }
  }

  lemma NextBound(b: Bucket, a: Arrival)
    requires BucketOk(b) && Chargeable(b, a)
    ensures var b' := Next(b, a);
      && BucketOk(b') && b'.rate == b.rate && b'.depth == b.depth && b'.last == (if b.token < a.size then a.now else b.last)
      && b'.token + Charge(a) <= b.token + (if b.token < a.size then Whole(a.now - b.last + 1, b.rate) else 0)
  {
    RefillBound(b, a.now);
  }

  /** Whatever was charged was there, or was credited for the time that passed and one
      tick per refill. */
  lemma {:induction false} Budget(b: Bucket, s: seq<Arrival>)
    requires BucketOk(b) && Proper(b, s)
    ensures var e := End(b, s);
      && BucketOk(e) && e.last >= b.last && e.depth == b.depth
      && e.token + Charged(s) <= b.token + Whole(e.last - b.last + Refills(b, s), b.rate)
    decreases |s|
  {
    if s != [] {
      var b' := Next(b, s[0]);
      NextBound(b, s[0]);
      Budget(b', s[1..]);
      var x, y := (if b.token < s[0].size then s[0].now - b.last + 1 else 0), End(b, s).last - b'.last + Refills(b', s[1..]);
      Sum(x, y, b.rate);
      Unit(b.rate);
    } else {
      Unit(b.rate);
    }
  }

  lemma {:induction false} LastRefill(b: Bucket, s: seq<Arrival>)
    requires Proper(b, s) && s != []
    ensures End(b, s).last <= s[|s| - 1].now && s[0].now <= s[|s| - 1].now
    decreases |s|
  {
    if |s| > 1 {
      LastRefill(Next(b, s[0]), s[1..]);
    }
  }

  /** Tokens never exceed the depth, and since any moment a bucket was charged at most
      the tokens it had then and its rate over the time since its last refill and one
      tick per refill. For a bucket just created, that is its depth and the time since. */
  lemma {:induction false} Since(b: Bucket, s: seq<Arrival>)
    requires BucketOk(b) && s != [] && Proper(b, s)
    ensures End(b, s).token <= b.depth
    ensures Charged(s) <= b.token + Whole(s[|s| - 1].now - b.last + Refills(b, s), b.rate)
  {
    Budget(b, s);
    LastRefill(b, s);
    Mono(End(b, s).last - b.last + Refills(b, s), s[|s| - 1].now - b.last + Refills(b, s), b.rate);
  }

  lemma {:induction false} WindowFrom(b: Bucket, s: seq<Arrival>)
    requires BucketOk(b) && Proper(b, s) && s != []
    ensures Charged(s) <= b.token + b.depth + Whole(s[|s| - 1].now - s[0].now + Refills(b, s), b.rate)
    decreases |s|
  {
    var b' := Next(b, s[0]);
    var last := s[|s| - 1].now;
    NextBound(b, s[0]);
    LastRefill(b, s);
    if b.token < s[0].size {
      Budget(b', s[1..]);
      Mono(End(b, s).last - b'.last + Refills(b', s[1..]), last - s[0].now + Refills(b, s), b.rate);
    } else if |s| > 1 {
      WindowFrom(b', s[1..]);
      Mono(last - s[1].now + Refills(b', s[1..]), last - s[0].now + Refills(b, s), b.rate);
    } else {
      Mono(0, last - s[0].now + Refills(b, s), b.rate);
      Unit(b.rate);
    }
  }

  /** Over any window of a run: at most twice the depth, and the rate over the window
      and one tick per refill. */
  lemma {:induction false} Window(b: Bucket, before: seq<Arrival>, window: seq<Arrival>)
    requires BucketOk(b) && Proper(b, before) && window != [] && Proper(End(b, before), window)
    ensures Charged(window) <=
      2 * b.depth + Whole(window[|window| - 1].now - window[0].now + Refills(End(b, before), window), b.rate)
  {
    Budget(b, before);
    SameRate(b, before);
    WindowFrom(End(b, before), window);
  }

  lemma {:induction false} SameRate(b: Bucket, s: seq<Arrival>)
    requires Proper(b, s)
    ensures End(b, s).rate == b.rate
    decreases |s|
  {
    if s != [] {
      SameRate(Next(b, s[0]), s[1..]);
    }
  }

  // ----- the two-rate three-color marker

  datatype Color = Green | Yellow | Red

  /** Committed and peak bucket, and the code points that stand for the colors. */
  datatype Marker = Marker(committed: Bucket, peak: Bucket, aware: bool, green: nat, yellow: nat, red: nat)

  datatype Packet = Packet(size: nat, dscp: nat, now: nat)

  /** The color of a packet, by the color it came with (green unless color-aware) and
      the tokens at hand after refilling. */
  ghost function ColorOf(m: Marker, p: Packet): Color
    requires m.committed.last <= p.now && m.peak.last <= p.now
  {
    var came := if m.aware && (p.dscp == m.yellow || p.dscp == m.red) then p.dscp else m.green;
    if came == m.red || Arrive(m.peak, p.size, p.now).token < p.size then Red
    else if came == m.yellow || Arrive(m.committed, p.size, p.now).token < p.size then Yellow
    else Green
  }

  /** Green packets are charged to both buckets, yellow ones to the peak bucket. */
  ghost function Marked(m: Marker, p: Packet): Marker
    requires m.committed.last <= p.now < NEVER && m.peak.last <= p.now
  {
    var c := ColorOf(m, p);
    m.(committed := Next(m.committed, Arrival(p.size, p.now, c == Green)),
       peak := Next(m.peak, Arrival(p.size, p.now, c != Red)))
  }

  ghost predicate Ordered(m: Marker, s: seq<Packet>)
    decreases |s|
  {
    s == [] ||
    (m.committed.last <= s[0].now < NEVER && m.peak.last <= s[0].now
     && (|s| > 1 ==> s[0].now <= s[1].now) && Ordered(Marked(m, s[0]), s[1..]))
  }

  ghost function Colors(m: Marker, s: seq<Packet>): (c: seq<Color>)
    requires Ordered(m, s)
    ensures |c| == |s|
    decreases |s|
  {
    if s == [] then [] else [ColorOf(m, s[0])] + Colors(Marked(m, s[0]), s[1..])
  }

  /** What one bucket sees of a run: the packets of the charged colors. */
  ghost function Seen(s: seq<Packet>, c: seq<Color>, charged: set<Color>): (r: seq<Arrival>)
    requires |c| == |s|
    ensures |r| == |s| && forall k :: 0 <= k < |s| ==> r[k] == Arrival(s[k].size, s[k].now, c[k] in charged)
  {
    seq(|s|, k requires 0 <= k < |s| => Arrival(s[k].size, s[k].now, c[k] in charged))
  }

  /** Each bucket of the marker behaves as a bucket on its own, charged with the green
      packets, and with the green and yellow packets. */
  lemma {:induction false} TwoBuckets(m: Marker, s: seq<Packet>)
    requires Ordered(m, s)
    ensures Proper(m.committed, Greens(m, s)) && Proper(m.peak, NotReds(m, s))
    decreases |s|
  {
    if s != [] {
      var m' := Marked(m, s[0]);
      TwoBuckets(m', s[1..]);
      var c := Colors(m, s);
      assert c[1..] == Colors(m', s[1..]);
      assert Seen(s, c, {Green})[1..] == Seen(s[1..], c[1..], {Green});
      assert Seen(s, c, {Green, Yellow})[1..] == Seen(s[1..], c[1..], {Green, Yellow});
    }
  }

  ghost function Greens(m: Marker, s: seq<Packet>): seq<Arrival>
    requires Ordered(m, s)
  {
    Seen(s, Colors(m, s), {Green})
  }

  ghost function NotReds(m: Marker, s: seq<Packet>): seq<Arrival>
    requires Ordered(m, s)
  {
    Seen(s, Colors(m, s), {Green, Yellow})
  }

  /** Green is bounded by the committed profile, green and yellow together by the peak
      profile. */
  lemma {:induction false} MarkerSince(m: Marker, s: seq<Packet>)
    requires BucketOk(m.committed) && BucketOk(m.peak) && s != [] && Ordered(m, s)
    ensures var green, both := Greens(m, s), NotReds(m, s);
      && Proper(m.committed, green) && Proper(m.peak, both)
      && Charged(green) <= m.committed.token
           + Whole(s[|s| - 1].now - m.committed.last + Refills(m.committed, green), m.committed.rate)
      && Charged(both) <= m.peak.token + Whole(s[|s| - 1].now - m.peak.last + Refills(m.peak, both), m.peak.rate)
  {
    TwoBuckets(m, s);
    SinceSeen(m.committed, s, Greens(m, s));
    SinceSeen(m.peak, s, NotReds(m, s));
  }

  lemma {:induction false} SinceSeen(b: Bucket, s: seq<Packet>, seen: seq<Arrival>)
    requires BucketOk(b) && s != [] && |seen| == |s| && seen[|s| - 1].now == s[|s| - 1].now && Proper(b, seen)
    ensures Charged(seen) <= b.token + Whole(s[|s| - 1].now - b.last + Refills(b, seen), b.rate)
  {
    Since(b, seen);
  }

  ghost function MarkAll(m: Marker, s: seq<Packet>): Marker
    requires Ordered(m, s)
    decreases |s|
  {
    if s == [] then m else MarkAll(Marked(m, s[0]), s[1..])
  }

  /** The same over any window of a run, with twice the depth. */
  lemma {:induction false} MarkerWindow(m: Marker, before: seq<Packet>, window: seq<Packet>)
    requires BucketOk(m.committed) && BucketOk(m.peak) && Ordered(m, before)
    requires window != [] && Ordered(MarkAll(m, before), window)
    ensures var m' := MarkAll(m, before);
      var green, both := Greens(m', window), NotReds(m', window);
      && Proper(m'.committed, green) && Proper(m'.peak, both)
      && Charged(green) <= m.committed.depth + m.committed.depth
           + Whole(window[|window| - 1].now - window[0].now + Refills(m'.committed, green), m.committed.rate)
      && Charged(both) <= m.peak.depth + m.peak.depth
           + Whole(window[|window| - 1].now - window[0].now + Refills(m'.peak, both), m.peak.rate)
  {
    var m' := MarkAll(m, before);
    MarkAllOk(m, before);
    TwoBuckets(m', window);
    WindowFrom(m'.committed, Greens(m', window));
    WindowFrom(m'.peak, NotReds(m', window));
  }

  lemma {:induction false} MarkAllOk(m: Marker, s: seq<Packet>)
    requires BucketOk(m.committed) && BucketOk(m.peak) && Ordered(m, s)
    ensures var m' := MarkAll(m, s);
      && BucketOk(m'.committed) && BucketOk(m'.peak)
      && m'.committed.depth == m.committed.depth && m'.committed.rate == m.committed.rate
      && m'.peak.depth == m.peak.depth && m'.peak.rate == m.peak.rate
    decreases |s|
  {
    if s != [] {
      var c := ColorOf(m, s[0]);
      NextBound(m.committed, Arrival(s[0].size, s[0].now, c == Green));
      NextBound(m.peak, Arrival(s[0].size, s[0].now, c != Red));
      MarkAllOk(Marked(m, s[0]), s[1..]);
    }
  }

  // ----- the meters themselves

  class TokenBucket {
    const rate: nat
    const depth: nat
    const fill: nat
    var token: nat
    var last: nat

    ghost function Now(): Bucket
      reads this
    {
      Bucket(rate, depth, fill, token, last)
    }

    constructor (bitRate: nat, bytes: nat, freq: nat, now: nat)
      requires freq > 0
      ensures Now() == Import(bitRate, bytes, freq, now) && Fresh(Now(), now)
    {
      rate := bitRate / 8 * TB_SCALE / freq;
      depth := bytes * TB_SCALE;
      fill := FillTime(bytes * TB_SCALE, bitRate / 8 * TB_SCALE / freq);
      token := bytes * TB_SCALE;
      last := now;
      new;
      ImportOk(bitRate, bytes, freq, now);
    }

    method RefillFor(size: nat, now: nat)
      requires last <= now
      modifies this
      ensures Now() == Arrive(old(Now()), size, now)
    {
      if token < size {
        var interval := now - last;
        if interval >= fill {
          token := depth;
        } else {
          WholeProduct(interval, rate);
          token := token + interval * rate;
          if token > depth {
            token := depth;
          }
        }
        last := now;
      }
    }

    /** Meter a packet: in profile exactly when the tokens at hand, refilled if need
        be, cover it; then it is charged. */
    method Input(len: nat, now: nat) returns (conforms: bool)
      requires last <= now < NEVER && BucketOk(Now())
      modifies this
      ensures var a := Arrival(len * TB_SCALE, now, conforms);
        Chargeable(old(Now()), a) && Now() == Next(old(Now()), a) && BucketOk(Now())
      ensures conforms <==> Covers(old(Now()), len * TB_SCALE, now)
    {
      var size := len * TB_SCALE;
      CoversIff(Now(), size, now);
      RefillFor(size, now);
      conforms := size <= token;
      if conforms {
        token := token - size;
      }
      NextBound(old(Now()), Arrival(size, now, conforms));
    }
  }

  class ColorMarker {
    const committed: TokenBucket
    const peak: TokenBucket
    const aware: bool
    const green: nat
    const yellow: nat
    const red: nat

    ghost function Now(): Marker
      reads this, committed, peak
    {
      Marker(committed.Now(), peak.Now(), aware, green, yellow, red)
    }

    constructor (cir: nat, cbs: nat, pir: nat, pbs: nat, freq: nat, now: nat, coloraware: bool, g: nat, y: nat, r: nat)
      requires freq > 0
      ensures committed != peak && fresh(committed) && fresh(peak)
      ensures Now() == Marker(Import(cir, cbs, freq, now), Import(pir, pbs, freq, now), coloraware, g, y, r)
    {
      var c := new TokenBucket(cir, cbs, freq, now);
      var p := new TokenBucket(pir, pbs, freq, now);
      committed, peak := c, p;
      aware, green, yellow, red := coloraware, g, y, r;
    }

    method Input(len: nat, dscp: nat, now: nat) returns (color: Color)
      requires committed != peak && committed.last <= now < NEVER && peak.last <= now
      modifies committed, peak
      ensures var p := Packet(len * TB_SCALE, dscp, now);
        color == ColorOf(old(Now()), p) && Now() == Marked(old(Now()), p)
      ensures var size, came := len * TB_SCALE, if aware && (dscp == yellow || dscp == red) then dscp else green;
        && (color.Red? <==> came == red || !Covers(old(peak.Now()), size, now))
        && (color.Green? <==> came != red && came != yellow
                              && Covers(old(peak.Now()), size, now) && Covers(old(committed.Now()), size, now))
    {
      var size := len * TB_SCALE;
      CoversIff(committed.Now(), size, now);
      CoversIff(peak.Now(), size, now);
      var came := green;
      if aware && (dscp == yellow || dscp == red) {
        came := dscp;
      }
      committed.RefillFor(size, now);
      peak.RefillFor(size, now);
      if came == red || peak.token < size {
        return Red;
      }
      peak.token := peak.token - size;
      if came == yellow || committed.token < size {
        return Yellow;
      }
      committed.token := committed.token - size;
      return Green;
    }
  }
}
