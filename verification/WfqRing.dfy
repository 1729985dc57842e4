/** Weighted fair queueing by deficit round robin: a ring of active queues, each
    with a quota that is topped up when the round-robin pointer reaches it and
    used up by the packets it sends. The ring is listed from the pointer on. */
module WfqRing {
  import opened Marks
  import opened Bits
  import opened Options

  const WFQ_QUOTA: nat := 512

  datatype Pkt = Pkt(id: nat, len: nat)

  datatype Queue = Queue(packets: seq<Pkt>, bytes: int, quota: int, weight: nat, xmit: nat)

  datatype State = State(queue: seq<Queue>, ring: seq<nat>, bytes: int, hwm: int)

  function Length(packets: seq<Pkt>): nat {
    if packets == [] then 0 else packets[0].len + Length(packets[1..])
  }

  /** What one visit of the pointer adds to a queue's quota. */
  function Quantum(q: Queue): (n: nat)
    ensures 100 * n <= WFQ_QUOTA * q.weight < 100 * n + 100
  {
    WFQ_QUOTA * q.weight / 100
  }

  function TopUp(q: Queue): Queue {
    q.(quota := q.quota + Quantum(q))
  }

  function SumBytes(queue: seq<Queue>): int {
    if queue == [] then 0 else queue[0].bytes + SumBytes(queue[1..])
  }

  lemma {:induction false} SumZero(queue: seq<Queue>)
    requires forall i :: 0 <= i < |queue| ==> queue[i].bytes == 0
    ensures SumBytes(queue) == 0
  {
    if queue != [] {
      SumZero(queue[1..]);
    }
  }

  /** The most bytes a queue of this weight can hold with a share that rounds to 0. */
  function Unseen(weight: nat): (n: nat) {
    if weight == 0 then 0 else (weight - 1) / 100
  }

  function SumUnseen(queue: seq<Queue>): nat {
    if queue == [] then 0 else Unseen(queue[0].weight) + SumUnseen(queue[1..])
  }

  // ----- the invariant

  ghost predicate QueueOk(q: Queue, maxLen: nat) {
    && q.bytes == Length(q.packets)
    && (forall p :: p in q.packets ==> 1 <= p.len <= maxLen)
  }

  ghost predicate RingOk(s: State) {
    && (forall n :: 0 <= n < |s.ring| ==> s.ring[n] < |s.queue|)
    && (forall n, k :: 0 <= n < k < |s.ring| ==> s.ring[n] != s.ring[k])
    && (forall i :: 0 <= i < |s.queue| && s.queue[i].packets != [] ==> i in s.ring)
  }

  /** Quotas on the ring: within a packet below zero and a quantum above; positive
      only at the pointer. A queue that was never on the ring has none. */
  ghost predicate QuotasOk(s: State, maxLen: nat)
    requires RingOk(s)
  {
    && (forall n :: 0 <= n < |s.ring| ==>
          var q := s.queue[s.ring[n]]; 0 < q.quota + maxLen && q.quota <= Quantum(q) && (n > 0 ==> q.quota <= 0))
    && (s.ring == [] ==> forall i :: 0 <= i < |s.queue| ==> s.queue[i].quota == 0)
  }

  ghost predicate Valid(s: State, maxLen: nat) {
    && s.hwm >= 0 && maxLen >= 1
    && (forall i :: 0 <= i < |s.queue| ==> QueueOk(s.queue[i], maxLen))
    && RingOk(s)
    && QuotasOk(s, maxLen)
    && s.bytes == SumBytes(s.queue)
  }

  // ----- the moves of the pointer

  /** On to the next queue, which gets its quantum. */
  function Advance(s: State): State
    requires RingOk(s) && s.ring != []
  {
    var ring := s.ring[1..] + [s.ring[0]];
    s.(ring := ring, queue := s.queue[ring[0] := TopUp(s.queue[ring[0]])])
  }

  /** The queue at the pointer leaves the ring; the next gets its quantum. */
  function Drop(s: State): State
    requires RingOk(s) && |s.ring| > 1
  {
    var ring := s.ring[1..];
    s.(ring := ring, queue := s.queue[ring[0] := TopUp(s.queue[ring[0]])])
  }

  /** The queue at the pointer sends its first packet. */
  function Send(s: State): State
    requires RingOk(s) && s.ring != [] && s.queue[s.ring[0]].packets != []
  {
    var h := s.ring[0];
    var q := s.queue[h];
    var len := q.packets[0].len;
    s.(queue := s.queue[h := q.(packets := q.packets[1..], bytes := q.bytes - len, quota := q.quota - len, xmit := q.xmit + len)],
       bytes := s.bytes - len)
  }

  lemma {:induction false} SumUpdate(queue: seq<Queue>, i: nat, q: Queue)
    requires i < |queue|
    ensures SumBytes(queue[i := q]) == SumBytes(queue) - queue[i].bytes + q.bytes
  {
    if i == 0 {
      assert queue[i := q][1..] == queue[1..];
    } else {
      assert queue[i := q][1..] == queue[1..][i - 1 := q];
      SumUpdate(queue[1..], i - 1, q);
    }
  }

  lemma QuantumBounds(q: Queue)
    requires q.weight >= 1
    ensures Quantum(q) >= 5
  {
  }

  lemma AdvanceRing(s: State)
    requires RingOk(s) && s.ring != []
    ensures var s' := Advance(s);
      && RingOk(s') && |s'.ring| == |s.ring|
      && (forall n :: 0 <= n < |s.ring| - 1 ==> s'.ring[n] == s.ring[n + 1])
      && s'.ring[|s.ring| - 1] == s.ring[0]
      && (forall i :: i in s.ring <==> i in s'.ring)
  {
    var s' := Advance(s);
    assert forall n :: 0 <= n < |s'.ring| ==> s'.ring[n] == s.ring[if n == |s.ring| - 1 then 0 else n + 1];
    assert forall i :: i in s.ring ==> i in s'.ring;
  }

  lemma AdvanceQuotas(s: State, maxLen: nat)
    requires RingOk(s) && QuotasOk(s, maxLen) && s.ring != [] && s.queue[s.ring[0]].quota <= 0
    ensures RingOk(Advance(s)) && QuotasOk(Advance(s), maxLen)
  {
    AdvanceRing(s);
  }

  /** Moving the pointer past a queue that has used up its quota. */
  lemma AdvanceValid(s: State, maxLen: nat)
    requires Valid(s, maxLen) && s.ring != [] && s.queue[s.ring[0]].quota <= 0
    ensures Valid(Advance(s), maxLen)
  {
    AdvanceRing(s);
    AdvanceQuotas(s, maxLen);
    var h := Advance(s).ring[0];
    SumUpdate(s.queue, h, TopUp(s.queue[h]));
  }

  lemma DropRing(s: State)
    requires RingOk(s) && |s.ring| > 1 && s.queue[s.ring[0]].packets == []
    ensures RingOk(Drop(s))
    ensures forall i :: i in s.ring <==> i == s.ring[0] || i in Drop(s).ring
  {
    var s' := Drop(s);
    assert forall i :: i in s.ring ==> i == s.ring[0] || i in s'.ring;
  }

  /** Taking an empty queue off the ring. */
  lemma DropValid(s: State, maxLen: nat)
    requires Valid(s, maxLen) && |s.ring| > 1 && s.queue[s.ring[0]].packets == []
    ensures Valid(Drop(s), maxLen)
  {
    DropRing(s);
    var h := Drop(s).ring[0];
    SumUpdate(s.queue, h, TopUp(s.queue[h]));
  }

  lemma SendValid(s: State, maxLen: nat)
    requires Valid(s, maxLen) && s.ring != [] && s.queue[s.ring[0]].packets != [] && s.queue[s.ring[0]].quota > 0
    ensures Valid(Send(s), maxLen)
  {
    var h := s.ring[0];
    SumUpdate(s.queue, h, Send(s).queue[h]);
  }

  // ----- finding the queue to serve

  /** The position of a queue on the ring. */
  function Pos(ring: seq<nat>, k: nat): (p: nat)
    requires k in ring
    ensures p < |ring| && ring[p] == k && k !in ring[..p]
  {
    if ring[0] == k then 0 else
      var p := 1 + Pos(ring[1..], k);
      assert ring[..p] == [ring[0]] + ring[1..][..p - 1];
      p
  }

  /** How far queue k is from being served: quantum still missing, then distance. */
  function Missing(s: State, k: nat): int
    requires RingOk(s) && k in s.ring
  {
    2 * (Quantum(s.queue[k]) - s.queue[k].quota) + (if s.ring[0] == k then 1 else 0)
  }

  lemma PosAt(ring: seq<nat>, k: nat, n: nat)
    requires n < |ring| && ring[n] == k && forall a, b :: 0 <= a < b < |ring| ==> ring[a] != ring[b]
    ensures k in ring && Pos(ring, k) == n
  {
  }

  /** Moving on brings every backlogged queue nearer to service. */
  lemma AdvanceNearer(s: State, k: nat, maxLen: nat)
    requires Valid(s, maxLen) && k in s.ring && s.queue[k].weight >= 1 && s.queue[s.ring[0]].quota <= 0
    ensures var s' := Advance(s);
      && Valid(s', maxLen) && k in s'.ring
      && (Missing(s', k) < Missing(s, k) || (Missing(s', k) == Missing(s, k) && Pos(s'.ring, k) < Pos(s.ring, k)))
  {
    AdvanceValid(s, maxLen);
    AdvanceRing(s);
    QuantumBounds(s.queue[k]);
    var n := Pos(s.ring, k);
    if n > 0 {
      PosAt(Advance(s).ring, k, n - 1);
    }
  }

  lemma DropNearer(s: State, k: nat, maxLen: nat)
    requires Valid(s, maxLen) && k in s.ring && s.queue[k].weight >= 1
    requires |s.ring| > 1 && s.queue[s.ring[0]].packets == [] && k != s.ring[0]
    ensures var s' := Drop(s);
      && Valid(s', maxLen) && k in s'.ring
      && (Missing(s', k) < Missing(s, k) || (Missing(s', k) == Missing(s, k) && Pos(s'.ring, k) < Pos(s.ring, k)))
  {
    DropValid(s, maxLen);
    DropRing(s);
    QuantumBounds(s.queue[k]);
    var n := Pos(s.ring, k);
    PosAt(Drop(s).ring, k, n - 1);
  }

  lemma MissingNat(s: State, k: nat, maxLen: nat)
    requires Valid(s, maxLen) && k in s.ring
    ensures Missing(s, k) >= 0
  {
    var n := Pos(s.ring, k);
  }

  /** The queue at the pointer can send. */
  ghost predicate Ready(s: State) {
    && s.ring != [] && s.ring[0] < |s.queue|
    && s.queue[s.ring[0]].quota > 0 && s.queue[s.ring[0]].packets != []
  }

  /** Queue k has packets and is granted quota. */
  ghost predicate Served(s: State, k: nat) {
    k in s.ring && k < |s.queue| && s.queue[k].packets != [] && s.queue[k].weight >= 1
  }

  /** Move the pointer until it stands at a queue that can send. Queue k is why there
      is one. */
  ghost function Seek(s: State, k: nat, maxLen: nat): (r: State)
    requires Valid(s, maxLen) && Served(s, k)
    ensures Valid(r, maxLen) && Ready(r)
    decreases Missing(s, k), Pos(s.ring, k)
  {
    MissingNat(s, k, maxLen);
    var q := s.queue[s.ring[0]];
    if q.quota > 0 then
      if q.packets != [] then s
      else
        assert |s.ring| > 1;
        DropNearer(s, k, maxLen);
        Seek(Drop(s), k, maxLen)
    else
      AdvanceNearer(s, k, maxLen);
      Seek(Advance(s), k, maxLen)
  }

  // ----- when there is none to serve

  ghost predicate Servable(s: State) {
    exists k :: Served(s, k)
  }

  /** With packets, but none in a queue that is granted quota, the pointer does not
      stand at a queue that can send, and wherever it moves next this stays so: the
      search never ends. */
  lemma Endless(s: State, maxLen: nat)
    requires Valid(s, maxLen) && s.bytes > 0 && !Servable(s)
    ensures !Ready(s) && s.ring != []
    ensures var next := if s.queue[s.ring[0]].quota > 0 then (if |s.ring| > 1 then Drop(s) else s) else Advance(s);
      && (s.queue[s.ring[0]].quota > 0 ==> |s.ring| > 1)
      && Valid(next, maxLen) && next.bytes == s.bytes && !Servable(next)
  {
    var k := Backlogged(s, maxLen);
    var q := s.queue[s.ring[0]];
    assert !Served(s, s.ring[0]) && !Served(s, k);
    var next;
    if q.quota > 0 {
      DropValid(s, maxLen);
      DropRing(s);
      next := Drop(s);
    } else {
      AdvanceValid(s, maxLen);
      AdvanceRing(s);
      next := Advance(s);
    }
    forall j
      ensures !Served(next, j)
    {
      assert !Served(s, j);
    }
  }

  // ----- arriving packets

  /** A queue's backlog relative to its weight. */
  function Share(q: Queue): int
    requires q.weight > 0
  {
    q.bytes * 100 / q.weight
  }

  /** The first n queues of the ring have weights to divide by. */
  ghost predicate Weighed(s: State, n: nat) {
    RingOk(s) && n <= |s.ring| && forall m :: 0 <= m < n ==> s.queue[s.ring[m]].weight >= 1
  }

  /** The place of the first of the largest numbers, if it is positive. */
  function FirstMax(a: seq<int>): (r: Option<nat>)
    ensures r.Some? ==> r.value < |a| && a[r.value] > 0
  {
    if a == [] then None
    else
      var n := |a| - 1;
      var best := FirstMax(a[..n]);
      if a[n] > (if best.None? then 0 else a[best.value]) then Some(n) else best
  }

  lemma {:induction false} FirstMaxIs(a: seq<int>)
    ensures var r := FirstMax(a);
      && (r.None? ==> forall m :: 0 <= m < |a| ==> a[m] <= 0)
      && (r.Some? ==> forall m :: 0 <= m < |a| ==> a[m] <= a[r.value] && (m < r.value ==> a[m] < a[r.value]))
  {
    if a != [] {
      var b := a[..|a| - 1];
      FirstMaxIs(b);
      assert forall m :: 0 <= m < |b| ==> b[m] == a[m];
    }
  }

  /** The shares of the first n queues of the ring. */
  ghost function Shares(s: State, n: nat): (a: seq<int>)
    requires Weighed(s, n)
    ensures |a| == n
  {
    seq(n, m requires 0 <= m < n => Share(s.queue[s.ring[m]]))
  }

  /** These are the shares; used where Inside is mentioned. */
  ghost predicate SharesAre(s: State, n: nat, a: seq<int>) {
    |a| == n && forall k: nat {:trigger Inside(k)} :: Inside(k) ==> Weighed(s, n) && a == Shares(s, n)
  }

  lemma NoShares(s: State)
    requires RingOk(s)
    ensures SharesAre(s, 0, [])
  {
  }

  lemma OneShare(s: State, n: nat, a: seq<int>, share: int)
    requires SharesAre(s, n, a) && n < |s.ring| && s.ring[n] < |s.queue|
    requires s.queue[s.ring[n]].weight >= 1 && share == Share(s.queue[s.ring[n]])
    ensures SharesAre(s, n + 1, a + [share])
  {
    assert Inside(0);
    assert Shares(s, n + 1) == Shares(s, n) + [share];
  }

  lemma LongestOf(s: State, a: seq<int>)
    requires SharesAre(s, |s.ring|, a)
    ensures Weighed(s, |s.ring|)
    ensures var r := FirstMax(a); Longest(s, |s.ring|) == if r.None? then None else Some(s.ring[r.value])
  {
    assert Inside(0);
  }

  /** The first queue with the largest share among the first n of the ring; none if
      all their shares are 0. */
  ghost function Longest(s: State, n: nat): (r: Option<nat>)
    requires Weighed(s, n)
    ensures r.Some? ==> r.value in s.ring[..n] && s.queue[r.value].weight >= 1 && Share(s.queue[r.value]) > 0
  {
    var r := FirstMax(Shares(s, n));
    if r.None? then None
    else
      assert s.ring[..n][r.value] == s.ring[r.value];
      Some(s.ring[r.value])
  }

  /** It has the largest share of all, and those before it on the ring have less. */
  lemma LongestMax(s: State, n: nat)
    requires Weighed(s, n)
    ensures var r := Longest(s, n);
      && (r.None? ==> forall m :: 0 <= m < n ==> Shares(s, n)[m] <= 0)
      && (r.Some? ==> exists k :: 0 <= k < n && s.ring[k] == r.value && Tops(Shares(s, n), k))
  {
    FirstMaxIs(Shares(s, n));
    var r := FirstMax(Shares(s, n));
    if r.Some? {
      assert Tops(Shares(s, n), r.value);
    }
  }

  /** No number is larger than the one at place k, and those before it are smaller. */
  ghost predicate Tops(a: seq<int>, k: nat) {
    k < |a| && a[k] > 0 && forall m :: 0 <= m < |a| ==> a[m] <= a[k] && (m < k ==> a[m] < a[k])
  }

  // ----- the longest queue, by bytes and weights alone

  lemma QuotientLess(a: int, d: int, r: int)
    requires d > 0
    ensures a / d < r <==> a < r * d
  {
    var q := a / d;
    assert q * d <= a < q * d + d;
    if q < r {
      MulMono(q + 1, r, d);
      MulDistr(q, 1, d);
    } else {
      MulMono(r, q, d);
    }
  }

  /** The queue at place p holds r hundredths of its weight in bytes, or more but not
      r + 1; no queue holds r + 1 of its own, and those before it do not hold r. */
  ghost predicate HeaviestAt(s: State, p: nat, r: nat) {
    && RingOk(s) && p < |s.ring| && r >= 1
    && (var q := s.queue[s.ring[p]]; r * q.weight <= 100 * q.bytes < (r + 1) * q.weight)
    && forall m :: 0 <= m < |s.ring| ==>
         var q := s.queue[s.ring[m]]; 100 * q.bytes < (r + 1) * q.weight && (m < p ==> 100 * q.bytes < r * q.weight)
  }

  ghost predicate Heaviest(s: State, k: nat) {
    exists p: nat, r: nat :: HeaviestAt(s, p, r) && s.ring[p] == k
  }

  /** No queue holds a hundredth of its weight. */
  ghost predicate AllLight(s: State) {
    RingOk(s) && forall m :: 0 <= m < |s.ring| ==> 100 * s.queue[s.ring[m]].bytes < s.queue[s.ring[m]].weight
  }

  lemma ShareLess(q: Queue, r: int)
    requires q.weight >= 1
    ensures Share(q) < r <==> 100 * q.bytes < r * q.weight
  {
    QuotientLess(q.bytes * 100, q.weight, r);
  }

  lemma TopIsHeaviest(s: State, p: nat)
    requires Weighed(s, |s.ring|) && Tops(Shares(s, |s.ring|), p)
    ensures HeaviestAt(s, p, Shares(s, |s.ring|)[p])
  {
    var a := Shares(s, |s.ring|);
    var r := a[p];
    ShareLess(s.queue[s.ring[p]], r);
    forall m | 0 <= m < |s.ring|
      ensures var q := s.queue[s.ring[m]]; 100 * q.bytes < (r + 1) * q.weight && (m < p ==> 100 * q.bytes < r * q.weight)
    {
      assert a[m] == Share(s.queue[s.ring[m]]);
      ShareLess(s.queue[s.ring[m]], r + 1);
      ShareLess(s.queue[s.ring[m]], r);
    }
  }

  /** The queue chosen is the heaviest, and there is none exactly if all are light. */
  lemma LongestHeaviest(s: State)
    requires Weighed(s, |s.ring|)
    ensures var k := Longest(s, |s.ring|); if k.None? then AllLight(s) else Heaviest(s, k.value)
  {
    var n := |s.ring|;
    LongestMax(s, n);
    var k := Longest(s, n);
    if k.None? {
      forall m | 0 <= m < n
        ensures 100 * s.queue[s.ring[m]].bytes < s.queue[s.ring[m]].weight
      {
        assert Shares(s, n)[m] == Share(s.queue[s.ring[m]]);
        ShareLess(s.queue[s.ring[m]], 1);
      }
    } else {
      var p :| 0 <= p < n && s.ring[p] == k.value && Tops(Shares(s, n), p);
      TopIsHeaviest(s, p);
    }
  }

  lemma HeaviestHas(s: State, p: nat, r: nat)
    requires HeaviestAt(s, p, r)
    ensures 100 * s.queue[s.ring[p]].bytes >= s.queue[s.ring[p]].weight >= 1
  {
    var q := s.queue[s.ring[p]];
    MulDistr(r, 1, q.weight);
    MulMono(1, r, q.weight);
  }

  lemma HeaviestRatio(s: State, p: nat, r: nat, p': nat, r': nat)
    requires HeaviestAt(s, p, r) && HeaviestAt(s, p', r')
    ensures r' <= r && (r == r' ==> p' <= p)
  {
    if r < r' {
      MulMono(r + 1, r', s.queue[s.ring[p']].weight);
    }
  }

  /** There is only one. */
  lemma HeaviestOnce(s: State, k: nat, k': nat)
    requires Heaviest(s, k) && Heaviest(s, k')
    ensures k == k' && !AllLight(s)
  {
    var p: nat, r: nat :| HeaviestAt(s, p, r) && s.ring[p] == k;
    var p': nat, r': nat :| HeaviestAt(s, p', r') && s.ring[p'] == k';
    HeaviestHas(s, p, r);
    HeaviestRatio(s, p, r, p', r');
    HeaviestRatio(s, p', r', p, r);
  }

  lemma CrossLess(a: int, b: int, u: nat, w: nat, r: nat)
    requires a < (r + 1) * w && r * u <= b && w >= 1
    ensures u >= 1 ==> a * u < (b + u) * w
    ensures u >= 1 && a < r * w ==> a * u < b * w
  {
    if u >= 1 {
      ScaleLess(a, (r + 1) * w, u);
      assert (r + 1) * w * u == (r * u + u) * w;
      MulMono(r * u + u, b + u, w);
      if a < r * w {
        ScaleLess(a, r * w, u);
        assert r * w * u == r * u * w;
        MulMono(r * u, b, w);
      }
    }
  }

  lemma ScaleLess(a: int, b: int, u: nat)
    requires a < b && u >= 1
    ensures a * u < b * u
  {
    MulMono(a + 1, b, u);
    MulDistr(a, 1, u);
  }

  /** Compared with any other queue j: for its weight it holds at least as many bytes,
      up to a hundredth of its weight; and more bytes than a queue before it. */
  lemma HeaviestCompares(s: State, p: nat, r: nat, m: nat)
    requires HeaviestAt(s, p, r) && m < |s.ring|
    ensures var q, j := s.queue[s.ring[p]], s.queue[s.ring[m]];
      && j.bytes * 100 * q.weight < (q.bytes * 100 + q.weight) * j.weight
      && (m < p ==> j.bytes * 100 * q.weight < q.bytes * 100 * j.weight)
  {
    var q, j := s.queue[s.ring[p]], s.queue[s.ring[m]];
    HeaviestHas(s, p, r);
    if j.weight == 0 {
      assert 100 * j.bytes < 0;
      ScaleLess(j.bytes * 100, 0, q.weight);
    } else {
      CrossLess(100 * j.bytes, 100 * q.bytes, q.weight, j.weight, r);
    }
  }

  /** Of two queues of the same weight, the one before it holds fewer bytes. */
  lemma SameWeightFewer(s: State, p: nat, r: nat, m: nat)
    requires HeaviestAt(s, p, r) && m < p && s.queue[s.ring[m]].weight == s.queue[s.ring[p]].weight
    ensures s.queue[s.ring[m]].bytes < s.queue[s.ring[p]].bytes
  {
  }

  lemma {:induction false} BytesSomewhere(queue: seq<Queue>) returns (i: nat)
    requires SumBytes(queue) > 0
    ensures i < |queue| && queue[i].bytes > 0
  {
    if queue[0].bytes > 0 {
      i := 0;
    } else {
      i := BytesSomewhere(queue[1..]);
      i := i + 1;
    }
  }

  lemma {:induction false} SumNat(queue: seq<Queue>, maxLen: nat)
    requires forall i :: 0 <= i < |queue| ==> QueueOk(queue[i], maxLen)
    ensures SumBytes(queue) >= 0
  {
    if queue != [] {
      SumNat(queue[1..], maxLen);
    }
  }

  lemma BytesNat(s: State, maxLen: nat)
    requires Valid(s, maxLen)
    ensures s.bytes >= 0
  {
    SumNat(s.queue, maxLen);
  }

  lemma Backlogged(s: State, maxLen: nat) returns (k: nat)
    requires Valid(s, maxLen) && s.bytes > 0
    ensures k in s.ring && s.queue[k].packets != []
  {
    k := BytesSomewhere(s.queue);
    assert QueueOk(s.queue[k], maxLen);
  }

  lemma DivPositive(a: int, d: int)
    requires d >= 1
    ensures a / d > 0 <==> a >= d
  {
    var q := a / d;
    if q <= 0 {
      MulMono(q, 0, d);
    } else {
      MulMono(1, q, d);
    }
  }

  lemma UnseenBound(bytes: int, weight: nat)
    requires weight >= 1
    ensures bytes * 100 >= weight <==> bytes > Unseen(weight)
  {
  }

  /** A share rounds to 0 exactly if the queue holds no more than it can unseen. */
  lemma ShareOfBytes(q: Queue)
    requires q.weight >= 1
    ensures Share(q) > 0 <==> q.bytes > Unseen(q.weight)
  {
    DivPositive(q.bytes * 100, q.weight);
    UnseenBound(q.bytes, q.weight);
  }

  lemma LengthPositive(packets: seq<Pkt>)
    requires packets != [] && packets[0].len >= 1
    ensures Length(packets) >= packets[0].len
  {
  }

  lemma {:induction false} AllUnseen(queue: seq<Queue>)
    requires forall i :: 0 <= i < |queue| ==> queue[i].bytes <= Unseen(queue[i].weight)
    ensures SumBytes(queue) <= SumUnseen(queue)
  {
    if queue != [] {
      AllUnseen(queue[1..]);
    }
  }

  /** All weights are positive, and the bytes that all queues together can hold with
      shares that round to 0 are within the limit. */
  ghost predicate Light(queue: seq<Queue>, hwm: int) {
    (forall i :: 0 <= i < |queue| ==> queue[i].weight >= 1) && SumUnseen(queue) <= hwm
  }

  /** Some queue has a share that does not round to 0. */
  lemma SeenSomewhere(s: State, maxLen: nat) returns (n: nat)
    requires Valid(s, maxLen) && Light(s.queue, s.hwm) && s.bytes > s.hwm
    ensures n < |s.ring| && Share(s.queue[s.ring[n]]) > 0
  {
    if forall i :: 0 <= i < |s.queue| ==> s.queue[i].bytes <= Unseen(s.queue[i].weight) {
      AllUnseen(s.queue);
      assert false;
    }
    var i :| 0 <= i < |s.queue| && s.queue[i].bytes > Unseen(s.queue[i].weight);
    assert QueueOk(s.queue[i], maxLen);
    ShareOfBytes(s.queue[i]);
    n := Pos(s.ring, i);
  }

  /** Then, when the total is over the limit, some queue is longest. */
  lemma LongestExists(s: State, maxLen: nat)
    requires Valid(s, maxLen) && Light(s.queue, s.hwm) && s.bytes > s.hwm
    ensures Weighed(s, |s.ring|) && Longest(s, |s.ring|).Some?
  {
    var n := SeenSomewhere(s, maxLen);
    LongestMax(s, |s.ring|);
    assert Shares(s, |s.ring|)[n] > 0;
  }

  /** The longest queue has a packet to drop. */
  lemma LongestBusy(s: State, maxLen: nat)
    requires Valid(s, maxLen) && Weighed(s, |s.ring|) && Longest(s, |s.ring|).Some?
    ensures var k := Longest(s, |s.ring|).value; k in s.ring && s.queue[k].packets != []
  {
    assert s.ring[..|s.ring|] == s.ring;
    var k := Longest(s, |s.ring|).value;
    assert QueueOk(s.queue[k], maxLen);
    ShareOfBytes(s.queue[k]);
  }

  ghost predicate SameWeights(queue: seq<Queue>, queue': seq<Queue>) {
    |queue| == |queue'| && forall i :: 0 <= i < |queue| ==> queue[i].weight == queue'[i].weight
  }

  lemma {:induction false} UnseenSame(queue: seq<Queue>, queue': seq<Queue>)
    requires SameWeights(queue, queue')
    ensures SumUnseen(queue) == SumUnseen(queue')
  {
    if queue != [] {
      UnseenSame(queue[1..], queue'[1..]);
    }
  }

  /** Lose the first packet of a queue. */
  function DropPacket(s: State, k: nat): State
    requires k < |s.queue| && s.queue[k].packets != []
  {
    var q := s.queue[k];
    var len := q.packets[0].len;
    s.(queue := s.queue[k := q.(packets := q.packets[1..], bytes := q.bytes - len)], bytes := s.bytes - len)
  }

  lemma DropPacketValid(s: State, k: nat, maxLen: nat)
    requires Valid(s, maxLen) && k < |s.queue| && s.queue[k].packets != []
    ensures Valid(DropPacket(s, k), maxLen) && DropPacket(s, k).bytes < s.bytes
  {
    SumUpdate(s.queue, k, DropPacket(s, k).queue[k]);
    assert QueueOk(s.queue[k], maxLen);
    assert s.queue[k].packets[0] in s.queue[k].packets;
  }

  /** Drop from the longest queue until the total is within the limit. None: a queue on
      the ring has no weight to divide by, or no share is positive and no queue is
      found to drop from. */
  ghost function Trim(s: State, maxLen: nat): (r: Option<State>)
    requires Valid(s, maxLen)
    ensures r.Some? ==> Valid(r.value, maxLen) && r.value.bytes <= r.value.hwm
    decreases s.bytes
  {
    if s.bytes <= s.hwm then Some(s)
    else if !Weighed(s, |s.ring|) then None
    else
      var r := Longest(s, |s.ring|);
      if r.None? then None
      else
        LongestBusy(s, maxLen);
        DropPacketValid(s, r.value, maxLen);
        Trim(DropPacket(s, r.value), maxLen)
  }

  /** Append a packet; a queue not on the ring joins it, at the pointer if the ring
      was empty, else at the end without quota. */
  function Append(s: State, i: nat, p: Pkt): State
    requires i < |s.queue|
  {
    var q := s.queue[i];
    var q1 := q.(packets := q.packets + [p], bytes := q.bytes + p.len);
    var s1 := s.(queue := s.queue[i := q1], bytes := s.bytes + p.len);
    if i in s.ring then s1
    else if s.ring == [] then s1.(ring := [i], queue := s.queue[i := TopUp(q1)])
    else s1.(ring := s.ring + [i], queue := s.queue[i := q1.(quota := 0)])
  }

  lemma {:induction false} LengthAppend(packets: seq<Pkt>, p: Pkt)
    ensures Length(packets + [p]) == Length(packets) + p.len
  {
    if packets == [] {
      assert packets + [p] == [p];
    } else {
      assert (packets + [p])[1..] == packets[1..] + [p];
      LengthAppend(packets[1..], p);
    }
  }

  lemma AppendRing(s: State, i: nat, p: Pkt)
    requires RingOk(s) && i < |s.queue|
    ensures RingOk(Append(s, i, p)) && s.ring <= Append(s, i, p).ring
  {
    var s' := Append(s, i, p);
    if i !in s.ring {
      assert s'.ring == s.ring + [i];
      assert s'.ring[|s.ring|] == i;
    }
  }

  lemma AppendQuotas(s: State, i: nat, p: Pkt, maxLen: nat)
    requires RingOk(s) && QuotasOk(s, maxLen) && i < |s.queue| && maxLen >= 1
    ensures RingOk(Append(s, i, p)) && QuotasOk(Append(s, i, p), maxLen)
  {
    AppendRing(s, i, p);
  }

  lemma AppendValid(s: State, i: nat, p: Pkt, maxLen: nat)
    requires Valid(s, maxLen) && i < |s.queue| && 1 <= p.len <= maxLen
    ensures Valid(Append(s, i, p), maxLen)
  {
    var s' := Append(s, i, p);
    LengthAppend(s.queue[i].packets, p);
    SumUpdate(s.queue, i, s'.queue[i]);
    assert QueueOk(s.queue[i], maxLen);
    AppendQuotas(s, i, p, maxLen);
  }

  // ----- operations and runs

  datatype Event = Enqueue(queue: nat, packet: Pkt) | Dequeue | Poll

  ghost predicate EventOk(e: Event, n: nat, maxLen: nat) {
    e.Enqueue? ==> e.queue < n && 1 <= e.packet.len <= maxLen
  }

  /** A dequeue or a poll comes to an end. */
  ghost predicate Ends(s: State) {
    s.bytes == 0 || Servable(s)
  }

  /** The pointer position that a dequeue or a poll settles on. */
  ghost function Settle(s: State, maxLen: nat): (r: State)
    requires Valid(s, maxLen) && Ends(s)
    ensures Valid(r, maxLen) && (s.bytes != 0 ==> Ready(r))
  {
    if s.bytes == 0 then s
    else
      var k :| Served(s, k);
      Seek(s, k, maxLen)
  }

  /** The state after an operation; none if it does not come to an end, or fails. */
  ghost function After(s: State, e: Event, maxLen: nat): (r: Option<State>)
    requires Valid(s, maxLen) && EventOk(e, |s.queue|, maxLen)
    ensures r.Some? ==> Valid(r.value, maxLen)
  {
    match e
    case Enqueue(i, p) =>
      AppendValid(s, i, p, maxLen);
      Trim(Append(s, i, p), maxLen)
    case Poll => if Ends(s) then Some(Settle(s, maxLen)) else None
    case Dequeue =>
      if !Ends(s) then None
      else
        var r := Settle(s, maxLen);
        if s.bytes == 0 then Some(r)
        else
          SendValid(r, maxLen);
          Some(Send(r))
  }

  /** The same queues hold the same packets. */
  ghost predicate SamePackets(s: State, s': State) {
    && SameWeights(s.queue, s'.queue) && s'.bytes == s.bytes && s'.hwm == s.hwm
    && (forall i :: 0 <= i < |s.queue| ==> s'.queue[i].packets == s.queue[i].packets)
  }

  lemma MovesKeep(s: State)
    requires RingOk(s) && s.ring != []
    ensures SamePackets(s, Advance(s)) && (|s.ring| > 1 ==> SamePackets(s, Drop(s)))
  {
  }

  lemma SameTrans(s: State, s': State, s'': State)
    requires SamePackets(s, s') && SamePackets(s', s'')
    ensures SamePackets(s, s'')
  {
  }

  lemma {:induction false} SeekKeeps(s: State, k: nat, maxLen: nat)
    requires Valid(s, maxLen) && Served(s, k)
    ensures SamePackets(s, Seek(s, k, maxLen))
    decreases Missing(s, k), Pos(s.ring, k)
  {
    MissingNat(s, k, maxLen);
    var q := s.queue[s.ring[0]];
    if q.quota <= 0 || q.packets == [] {
      MovesKeep(s);
      var s1: State;
      if q.quota > 0 {
        DropNearer(s, k, maxLen);
        s1 := Drop(s);
      } else {
        AdvanceNearer(s, k, maxLen);
        s1 := Advance(s);
      }
      SeekKeeps(s1, k, maxLen);
      SameTrans(s, s1, Seek(s1, k, maxLen));
    }
  }

  /** The packet a poll shows and a dequeue takes. */
  ghost function Next(s: State, maxLen: nat): Option<Pkt>
    requires Valid(s, maxLen) && Ends(s)
  {
    var r := Settle(s, maxLen);
    if s.bytes == 0 then None else Some(r.queue[r.ring[0]].packets[0])
  }

  lemma SettleKeeps(s: State, maxLen: nat)
    requires Valid(s, maxLen) && Ends(s)
    ensures SamePackets(s, Settle(s, maxLen))
  {
    if s.bytes != 0 {
      var k :| Served(s, k) && Settle(s, maxLen) == Seek(s, k, maxLen);
      SeekKeeps(s, k, maxLen);
    }
  }

  /** A poll takes nothing, and a following poll or dequeue shows or takes the same
      packet and leaves the same state as it would have without the poll. */
  lemma PollThenTake(s: State, e: Event, maxLen: nat)
    requires Valid(s, maxLen) && Ends(s) && !e.Enqueue?
    ensures var polled := After(s, Poll, maxLen);
      && polled.Some? && SamePackets(s, polled.value) && Ends(polled.value)
      && Next(polled.value, maxLen) == Next(s, maxLen)
      && After(polled.value, e, maxLen) == After(s, e, maxLen)
  {
    SettleKeeps(s, maxLen);
    if s.bytes != 0 {
      var r := Settle(s, maxLen);
      ReadyServed(r, maxLen);
      var k :| Served(r, k) && Settle(r, maxLen) == Seek(r, k, maxLen);
      assert Seek(r, k, maxLen) == r;
    }
  }

  /** A queue that can send is granted quota. */
  lemma ReadyServed(s: State, maxLen: nat)
    requires Valid(s, maxLen) && Ready(s)
    ensures Served(s, s.ring[0])
  {
  }

  /** From s to s' only queue h changed its packets: it lost its first, p. */
  ghost predicate TookFirst(s: State, s': State, h: nat, p: Pkt) {
    && h < |s.queue| && SameWeights(s.queue, s'.queue) && s'.hwm == s.hwm
    && s.queue[h].packets == [p] + s'.queue[h].packets
    && s'.bytes == s.bytes - p.len
    && (forall i :: 0 <= i < |s.queue| && i != h ==> s'.queue[i].packets == s.queue[i].packets)
  }

  lemma SendTakes(s: State)
    requires RingOk(s) && Ready(s)
    ensures TookFirst(s, Send(s), s.ring[0], s.queue[s.ring[0]].packets[0])
  {
    var h := s.ring[0];
    assert s.queue[h].packets == [s.queue[h].packets[0]] + Send(s).queue[h].packets;
  }

  lemma SameTook(s: State, r: State, s': State, h: nat, p: Pkt)
    requires SamePackets(s, r) && TookFirst(r, s', h, p)
    ensures TookFirst(s, s', h, p)
  {
  }

  /** A dequeue takes a packet exactly when there are bytes, and it takes the first
      packet of one queue; every other queue keeps its packets. */
  lemma DequeueTakes(s: State, maxLen: nat)
    requires Valid(s, maxLen) && Ends(s)
    ensures
      var s', p := After(s, Dequeue, maxLen), Next(s, maxLen);
      && s'.Some? && (p.None? <==> s.bytes == 0)
      && (p.None? ==> s'.value == s)
      && (p.Some? ==> TookFirst(s, s'.value, Settle(s, maxLen).ring[0], p.value))
  {
    SettleKeeps(s, maxLen);
    if s.bytes != 0 {
      var r := Settle(s, maxLen);
      SendTakes(r);
      SameTook(s, r, Send(r), r.ring[0], r.queue[r.ring[0]].packets[0]);
    }
  }

  /** The first packet of the longest queue goes, and trimming goes on. */
  lemma TrimStep(s: State, maxLen: nat) returns (k: nat)
    requires Valid(s, maxLen) && s.bytes > s.hwm && Weighed(s, |s.ring|) && Longest(s, |s.ring|).Some?
    ensures k in s.ring && k < |s.queue| && s.queue[k].packets != [] && Longest(s, |s.ring|) == Some(k)
    ensures Valid(DropPacket(s, k), maxLen) && DropPacket(s, k).bytes < s.bytes
    ensures Trim(s, maxLen) == Trim(DropPacket(s, k), maxLen)
  {
    k := Longest(s, |s.ring|).value;
    LongestBusy(s, maxLen);
    DropPacketValid(s, k, maxLen);
  }

  lemma {:induction false} TrimKeeps(s: State, maxLen: nat)
    requires Valid(s, maxLen)
    ensures var r := Trim(s, maxLen); r.Some? ==> SameWeights(s.queue, r.value.queue) && r.value.hwm == s.hwm
    decreases s.bytes
  {
    if s.bytes > s.hwm && Weighed(s, |s.ring|) && Longest(s, |s.ring|).Some? {
      var k := TrimStep(s, maxLen);
      DropPacketWeights(s, k);
      TrimKeeps(DropPacket(s, k), maxLen);
    }
  }

  // ----- what is dropped

  /** The queue k without its first packet; all else as it was. */
  ghost predicate Lost(s: State, k: nat, s': State) {
    && k < |s.queue| && s.queue[k].packets != []
    && s'.ring == s.ring && s'.hwm == s.hwm && s'.bytes + s.queue[k].packets[0].len == s.bytes
    && |s'.queue| == |s.queue| && (forall i :: 0 <= i < |s.queue| && i != k ==> s'.queue[i] == s.queue[i])
    && s'.queue[k] == s.queue[k].(packets := s.queue[k].packets[1..], bytes := s'.queue[k].bytes)
    && s'.queue[k].bytes + s.queue[k].packets[0].len == s.queue[k].bytes
  }

  /** The heaviest queue loses a packet. */
  ghost predicate Dropped(s: State, k: nat, s': State) {
    forall n {:trigger Inside(n)} :: Inside(n) ==> Heaviest(s, k) && Lost(s, k, s')
  }

  /** From s to s' the heaviest queue of the moment loses a packet again and again, as
      long as there are more bytes than the limit. */
  ghost predicate Drops(s: State, steps: nat, s': State)
    decreases steps
  {
    if steps == 0 then s == s'
    else s.bytes > s.hwm && exists k, s1 :: Dropped(s, k, s1) && Drops(s1, steps - 1, s')
  }

  /** What stops the dropping before the limit is met. */
  ghost predicate Stuck(s: State) {
    s.bytes > s.hwm && (AllLight(s) || exists n :: 0 <= n < |s.ring| && s.ring[n] < |s.queue| && s.queue[s.ring[n]].weight == 0)
  }

  /** Trimming drops so until the limit is met; it fails where that gets stuck. */
  lemma {:induction false} TrimDrops(s: State, maxLen: nat) returns (steps: nat, s': State)
    requires Valid(s, maxLen)
    ensures Drops(s, steps, s')
    ensures var r := Trim(s, maxLen); if r.Some? then r.value == s' && s'.bytes <= s'.hwm else Stuck(s')
    decreases s.bytes
  {
    steps, s' := 0, s;
    if s.bytes > s.hwm {
      var k, s1 := TrimOne(s, maxLen);
      if Trim(s, maxLen).Some? || !Stuck(s) {
        var n;
        n, s' := TrimDrops(s1, maxLen);
        steps := n + 1;
        assert Dropped(s, k, s1) && Drops(s1, n, s');
      }
    }
  }

  ghost predicate DropsTo(s: State, s': State) {
    exists steps: nat :: Drops(s, steps, s')
  }

  /** Over the limit, a packet of the heaviest queue goes, or the dropping is stuck. */
  lemma TrimOne(s: State, maxLen: nat) returns (k: nat, s1: State)
    requires Valid(s, maxLen) && s.bytes > s.hwm
    ensures
      || (Trim(s, maxLen).None? && Stuck(s))
      || (Dropped(s, k, s1) && Valid(s1, maxLen) && s1.bytes < s.bytes && Trim(s, maxLen) == Trim(s1, maxLen))
  {
    k, s1 := 0, s;
    if Weighed(s, |s.ring|) {
      LongestHeaviest(s);
      if Longest(s, |s.ring|).Some? {
        k := TrimStep(s, maxLen);
        DropsOne(s, k);
        s1 := DropPacket(s, k);
      }
    }
  }

  lemma DropsOne(s: State, k: nat)
    requires k < |s.queue| && s.queue[k].packets != [] && Heaviest(s, k)
    ensures Dropped(s, k, DropPacket(s, k))
  {
    assert Lost(s, k, DropPacket(s, k));
  }

  lemma KeepsLast(s: State, k: nat, s1: State, i: nat) returns (n: nat)
    requires Dropped(s, k, s1) && i < |s.queue|
    ensures |s1.queue| == |s.queue| && n <= |s.queue[i].packets| && s1.queue[i].packets == s.queue[i].packets[n..]
  {
    assert Inside(0);
    n := if i == k then 1 else 0;
  }

  /** Each queue keeps its last packets, in order. */
  lemma {:induction false} DropsKeepLast(s: State, steps: nat, s': State, i: nat) returns (n: nat)
    requires Drops(s, steps, s') && i < |s.queue|
    ensures |s'.queue| == |s.queue| && n <= |s.queue[i].packets| && s'.queue[i].packets == s.queue[i].packets[n..]
    decreases steps
  {
    n := 0;
    if steps > 0 {
      var k, s1 :| Dropped(s, k, s1) && Drops(s1, steps - 1, s');
      var n1 := KeepsLast(s, k, s1, i);
      var n2 := DropsKeepLast(s1, steps - 1, s', i);
      assert s.queue[i].packets[n1..][n2..] == s.queue[i].packets[n1 + n2..];
      n := n1 + n2;
    }
  }

  lemma {:induction false} TrimReturns(s: State, maxLen: nat)
    requires Valid(s, maxLen) && Light(s.queue, s.hwm)
    ensures Trim(s, maxLen).Some?
    decreases s.bytes
  {
    if s.bytes > s.hwm {
      LongestExists(s, maxLen);
      var k := TrimStep(s, maxLen);
      DropPacketWeights(s, k);
      TrimReturns(DropPacket(s, k), maxLen);
    }
  }

  lemma DropPacketWeights(s: State, k: nat)
    requires k < |s.queue| && s.queue[k].packets != []
    ensures var s' := DropPacket(s, k);
      SameWeights(s.queue, s'.queue) && s'.hwm == s.hwm && (Light(s.queue, s.hwm) ==> Light(s'.queue, s'.hwm))
  {
    UnseenSame(s.queue, DropPacket(s, k).queue);
  }

  ghost predicate SameSetting(s: State, s': State) {
    SameWeights(s.queue, s'.queue) && s'.hwm == s.hwm
  }

  lemma AppendKeeps(s: State, i: nat, p: Pkt)
    requires i < |s.queue|
    ensures SameSetting(s, Append(s, i, p))
  {
  }

  lemma SendKeeps(s: State)
    requires RingOk(s) && Ready(s)
    ensures SameSetting(s, Send(s))
  {
  }

  lemma SettingTrans(s: State, s': State, s'': State)
    requires SameSetting(s, s') && SameSetting(s', s'')
    ensures SameSetting(s, s'')
  {
  }

  /** Operations keep the weights and the limit. */
  lemma AfterKeeps(s: State, e: Event, maxLen: nat)
    requires Valid(s, maxLen) && EventOk(e, |s.queue|, maxLen)
    ensures var r := After(s, e, maxLen); r.Some? ==> SameWeights(s.queue, r.value.queue) && r.value.hwm == s.hwm
  {
    match e
    case Enqueue(i, p) =>
      var s1 := Append(s, i, p);
      AppendValid(s, i, p, maxLen);
      AppendKeeps(s, i, p);
      TrimKeeps(s1, maxLen);
      if Trim(s1, maxLen).Some? {
        SettingTrans(s, s1, Trim(s1, maxLen).value);
      }
    case Poll =>
      if Ends(s) {
        SettleKeeps(s, maxLen);
      }
    case Dequeue =>
      if Ends(s) {
        SettleKeeps(s, maxLen);
        var r := Settle(s, maxLen);
        if s.bytes != 0 {
          SendKeeps(r);
          SettingTrans(s, r, Send(r));
        }
      }
  }

  /** With light weights every operation comes to an end. */
  lemma AfterReturns(s: State, e: Event, maxLen: nat)
    requires Valid(s, maxLen) && EventOk(e, |s.queue|, maxLen) && Light(s.queue, s.hwm)
    ensures After(s, e, maxLen).Some?
  {
    if e.Enqueue? {
      AppendValid(s, e.queue, e.packet, maxLen);
      UnseenSame(s.queue, Append(s, e.queue, e.packet).queue);
      TrimReturns(Append(s, e.queue, e.packet), maxLen);
    } else {
      BytesNat(s, maxLen);
      if s.bytes != 0 {
        var k := Backlogged(s, maxLen);
        assert Served(s, k);
      }
    }
  }
}
