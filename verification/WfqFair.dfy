/** Fairness of the round robin: over any stretch of events during which two queues
    both stay backlogged, what they send is proportional to their quanta, up to a
    constant. Proved by an account of every quantum granted and every byte sent. */
module WfqFair {
  import opened WfqRing
  import opened Bits
  import opened Lists
  import opened Options

  /** How many moves of the pointer until queue x is granted its next quantum. */
  function Turn(ring: seq<nat>, x: nat): nat
    requires x in ring
  {
    var p := Pos(ring, x);
    if p == 0 then |ring| else p
  }

  /** 1 if j is granted its next quantum before i, else 0. */
  function Lead(ring: seq<nat>, i: nat, j: nat): int
    requires i in ring && j in ring
  {
    if Turn(ring, i) < Turn(ring, j) then 0 else 1
  }

  /** Queue i's account from s to s': n quanta granted, less what was sent. */
  ghost predicate Account(s: State, s': State, i: nat, n: int) {
    && i < |s.queue| == |s'.queue|
    && s'.queue[i].weight == s.queue[i].weight
    && s'.queue[i].quota - s.queue[i].quota == n * Quantum(s.queue[i]) - (s'.queue[i].xmit - s.queue[i].xmit)
  }

  /** From s to s', queue i was granted a quanta and queue j was granted b, taking
      turns: they differ only by whose turn is next. */
  ghost predicate Shared(s: State, s': State, i: nat, j: nat, a: int, b: int) {
    && i != j
    && i in s.ring && j in s.ring && i in s'.ring && j in s'.ring
    && Account(s, s', i, a) && Account(s, s', j, b)
    && a - b == Lead(s'.ring, i, j) - Lead(s.ring, i, j)
  }

  lemma AccountTrans(s: State, s': State, s'': State, i: nat, m: int, n: int)
    requires Account(s, s', i, m) && Account(s', s'', i, n)
    ensures Account(s, s'', i, m + n)
  {
    MulDistr(m, n, Quantum(s.queue[i]));
  }

  lemma SharedTrans(s: State, s': State, s'': State, i: nat, j: nat, a: int, b: int, a': int, b': int) returns (c: int, d: int)
    requires Shared(s, s', i, j, a, b) && Shared(s', s'', i, j, a', b')
    ensures c == a + a' && d == b + b' && Shared(s, s'', i, j, c, d)
  {
    c, d := a + a', b + b';
    AccountTrans(s, s', s'', i, a, a');
    AccountTrans(s, s', s'', j, b, b');
  }

  // ----- one move

  /** After a rotation everyone is one move nearer; who was next now waits a round. */
  lemma TurnRotate(ring: seq<nat>, x: nat)
    requires Distinct(ring) && x in ring
    ensures
      var r := ring[1..] + [ring[0]];
      x in r && Turn(r, x) == if Turn(ring, x) == 1 then |ring| else Turn(ring, x) - 1
    ensures Turn(ring, x) == 1 <==> (ring[1..] + [ring[0]])[0] == x
  {
    var r := ring[1..] + [ring[0]];
    var p := Pos(ring, x);
    var n := if p == 0 then |ring| - 1 else p - 1;
    assert forall k :: 0 <= k < |r| ==> r[k] == ring[if k == |ring| - 1 then 0 else k + 1];
    assert r[n] == x;
    PosAt(r, x, n);
  }

  lemma TurnDistinct(ring: seq<nat>, i: nat, j: nat)
    requires i in ring && j in ring && i != j
    ensures Turn(ring, i) != Turn(ring, j) && 1 <= Turn(ring, i) <= |ring|
  {
  }

  lemma AdvanceShared(s: State, i: nat, j: nat) returns (a: int, b: int)
    requires RingOk(s) && i in s.ring && j in s.ring && i != j
    ensures Shared(s, Advance(s), i, j, a, b)
  {
    var s' := Advance(s);
    var h := s'.ring[0];
    a := if h == i then 1 else 0;
    b := if h == j then 1 else 0;
    TurnRotate(s.ring, i);
    TurnRotate(s.ring, j);
    TurnDistinct(s.ring, i, j);
    TurnDistinct(s.ring, j, i);
    assert a - b == Lead(s'.ring, i, j) - Lead(s.ring, i, j);
  }

  lemma TurnDrop(ring: seq<nat>, x: nat)
    requires Distinct(ring) && x in ring && x != ring[0]
    ensures x in ring[1..] && Turn(ring[1..], x) == if Turn(ring, x) == 1 then |ring| - 1 else Turn(ring, x) - 1
    ensures Turn(ring, x) == 1 <==> ring[1..][0] == x
  {
    var p := Pos(ring, x);
    PosAt(ring[1..], x, p - 1);
  }

  lemma DropShared(s: State, i: nat, j: nat) returns (a: int, b: int)
    requires RingOk(s) && i in s.ring && j in s.ring && i != j && s.ring[0] !in {i, j}
    ensures |s.ring| > 1 && Shared(s, Drop(s), i, j, a, b)
  {
    TurnDrop(s.ring, i);
    TurnDrop(s.ring, j);
    var s' := Drop(s);
    var h := s'.ring[0];
    a := if h == i then 1 else 0;
    b := if h == j then 1 else 0;
    TurnDistinct(s.ring, i, j);
    assert Turn(s.ring, i) < |s.ring| && Turn(s.ring, j) < |s.ring|;
    assert a - b == Lead(s'.ring, i, j) - Lead(s.ring, i, j);
  }

  /** A step that keeps the ring, and changes no account of i or j. */
  lemma StillShared(s: State, s': State, i: nat, j: nat)
    requires i != j && i in s.ring && j in s.ring && s'.ring == s.ring
    requires Account(s, s', i, 0) && Account(s, s', j, 0)
    ensures Shared(s, s', i, j, 0, 0)
  {
  }

  lemma SendShared(s: State, i: nat, j: nat)
    requires RingOk(s) && Ready(s) && i in s.ring && j in s.ring && i != j
    ensures Shared(s, Send(s), i, j, 0, 0)
  {
    StillShared(s, Send(s), i, j);
  }

  lemma DropPacketShared(s: State, k: nat, i: nat, j: nat)
    requires RingOk(s) && k < |s.queue| && s.queue[k].packets != [] && i in s.ring && j in s.ring && i != j
    ensures Shared(s, DropPacket(s, k), i, j, 0, 0)
  {
    StillShared(s, DropPacket(s, k), i, j);
  }

  lemma TurnAppend(ring: seq<nat>, k: nat, x: nat)
    requires Distinct(ring + [k]) && x in ring
    ensures x in ring + [k] && Pos(ring + [k], x) == Pos(ring, x)
  {
    PosAt(ring + [k], x, Pos(ring, x));
  }

  lemma AppendShared(s: State, k: nat, p: Pkt, i: nat, j: nat)
    requires RingOk(s) && k < |s.queue| && i in s.ring && j in s.ring && i != j
    ensures Shared(s, Append(s, k, p), i, j, 0, 0)
  {
    AppendRing(s, k, p);
    if k in s.ring {
      StillShared(s, Append(s, k, p), i, j);
    } else {
      TurnAppend(s.ring, k, i);
      TurnAppend(s.ring, k, j);
    }
  }

  // ----- whole operations

  ghost predicate Busy(s: State, i: nat) {
    i < |s.queue| && s.queue[i].packets != []
  }

  lemma {:induction false} SeekShared(s: State, k: nat, i: nat, j: nat, maxLen: nat) returns (a: int, b: int)
    requires Valid(s, maxLen) && Served(s, k) && Busy(s, i) && Busy(s, j) && i != j
    ensures Shared(s, Seek(s, k, maxLen), i, j, a, b)
    decreases Missing(s, k), Pos(s.ring, k)
  {
    MissingNat(s, k, maxLen);
    var q := s.queue[s.ring[0]];
    if q.quota > 0 && q.packets != [] {
      a, b := 0, 0;
    } else {
      var s1: State;
      if q.quota > 0 {
        a, b := DropShared(s, i, j);
        DropNearer(s, k, maxLen);
        s1 := Drop(s);
      } else {
        a, b := AdvanceShared(s, i, j);
        AdvanceNearer(s, k, maxLen);
        s1 := Advance(s);
      }
      var a', b' := SeekShared(s1, k, i, j, maxLen);
      a, b := SharedTrans(s, s1, Seek(s1, k, maxLen), i, j, a, b, a', b');
    }
  }

  lemma {:induction false} TrimShared(s: State, i: nat, j: nat, maxLen: nat)
    requires Valid(s, maxLen) && i in s.ring && j in s.ring && i != j && Trim(s, maxLen).Some?
    ensures Shared(s, Trim(s, maxLen).value, i, j, 0, 0)
    decreases s.bytes
  {
    if s.bytes > s.hwm {
      LongestBusy(s, maxLen);
      var k := Longest(s, |s.ring|).value;
      DropPacketValid(s, k, maxLen);
      DropPacketShared(s, k, i, j);
      TrimShared(DropPacket(s, k), i, j, maxLen);
      var a, b := SharedTrans(s, DropPacket(s, k), Trim(s, maxLen).value, i, j, 0, 0, 0, 0);
    }
  }

  lemma AfterShared(s: State, e: Event, i: nat, j: nat, maxLen: nat) returns (a: int, b: int)
    requires Valid(s, maxLen) && EventOk(e, |s.queue|, maxLen) && Busy(s, i) && Busy(s, j) && i != j
    requires After(s, e, maxLen).Some?
    ensures Shared(s, After(s, e, maxLen).value, i, j, a, b)
  {
    match e {
      case Enqueue(k, p) =>
        AppendValid(s, k, p, maxLen);
        AppendShared(s, k, p, i, j);
        TrimShared(Append(s, k, p), i, j, maxLen);
        a, b := SharedTrans(s, Append(s, k, p), After(s, e, maxLen).value, i, j, 0, 0, 0, 0);
      case Poll =>
        a, b := SettleShared(s, i, j, maxLen);
      case Dequeue =>
        a, b := SettleShared(s, i, j, maxLen);
        if s.bytes != 0 {
          var r := Settle(s, maxLen);
          SendShared(r, i, j);
          a, b := SharedTrans(s, r, Send(r), i, j, a, b, 0, 0);
        }
    }
  }

  lemma SettleShared(s: State, i: nat, j: nat, maxLen: nat) returns (a: int, b: int)
    requires Valid(s, maxLen) && Ends(s) && Busy(s, i) && Busy(s, j) && i != j
    ensures Shared(s, Settle(s, maxLen), i, j, a, b)
  {
    if s.bytes == 0 {
      a, b := 0, 0;
    } else {
      var k :| Served(s, k) && Settle(s, maxLen) == Seek(s, k, maxLen);
      a, b := SeekShared(s, k, i, j, maxLen);
    }
  }

  // ----- whole runs

  ghost predicate EventsOk(events: seq<Event>, n: nat, maxLen: nat) {
    forall e :: e in events ==> EventOk(e, n, maxLen)
  }

  /** The state after a run; none if some operation does not come to an end. */
  ghost function Run(s: State, events: seq<Event>, maxLen: nat): (r: Option<State>)
    requires Valid(s, maxLen) && EventsOk(events, |s.queue|, maxLen)
    ensures r.Some? ==> Valid(r.value, maxLen)
    decreases |events|
  {
    if events == [] then Some(s)
    else
      AfterKeeps(s, events[0], maxLen);
      var r := After(s, events[0], maxLen);
      if r.None? then None else Run(r.value, events[1..], maxLen)
  }

  /** The run comes to an end, and queues i and j have packets all through it. */
  ghost predicate StayBusy(s: State, events: seq<Event>, i: nat, j: nat, maxLen: nat)
    requires Valid(s, maxLen) && EventsOk(events, |s.queue|, maxLen)
    decreases |events|
  {
    && Busy(s, i) && Busy(s, j)
    && (events != [] ==> (
          AfterKeeps(s, events[0], maxLen);
          var r := After(s, events[0], maxLen);
          r.Some? && StayBusy(r.value, events[1..], i, j, maxLen)))
  }

  lemma {:induction false} RunShared(s: State, events: seq<Event>, i: nat, j: nat, maxLen: nat) returns (a: int, b: int)
    requires Valid(s, maxLen) && EventsOk(events, |s.queue|, maxLen) && i != j
    requires StayBusy(s, events, i, j, maxLen)
    ensures var r := Run(s, events, maxLen); r.Some? && Shared(s, r.value, i, j, a, b)
    decreases |events|
  {
    if events == [] {
      a, b := 0, 0;
    } else {
      a, b := AfterShared(s, events[0], i, j, maxLen);
      AfterKeeps(s, events[0], maxLen);
      var s1 := After(s, events[0], maxLen).value;
      var a', b' := RunShared(s1, events[1..], i, j, maxLen);
      a, b := SharedTrans(s, s1, Run(s1, events[1..], maxLen).value, i, j, a, b, a', b');
    }
  }

  // ----- the bound

  function Sent(s: State, s': State, i: nat): int
    requires i < |s.queue| && i < |s'.queue|
  {
    s'.queue[i].xmit - s.queue[i].xmit
  }

  ghost function Abs(x: real): real {
    if x < 0.0 then -x else x
  }

  /** With sent = n quanta up to less than a quantum and a packet, service in
      quanta is within 1 + maxLen / quantum of n. */
  lemma Rate(sent: int, n: int, quantum: int, maxLen: nat)
    requires quantum > 0 && n * quantum - quantum - maxLen < sent < n * quantum + quantum + maxLen
    ensures Abs(sent as real / quantum as real - n as real) < 1.0 + maxLen as real / quantum as real
  {
    RateReal(sent as real, n as real, quantum as real, maxLen as real);
  }

  lemma RateReal(sent: real, n: real, q: real, m: real)
    requires q > 0.0 && n * q - q - m < sent < n * q + q + m
    ensures Abs(sent / q - n) < 1.0 + m / q
  {
    Quotient(sent, q);
    Quotient(m, q);
    var x, y := sent / q, m / q;
    Spread(q, n, -1.0, -y);
    Spread(q, n, 1.0, y);
    assert q * -y == -(q * y);
    Cancel(n + -1.0 + -y, x, q);
    Cancel(x, n + 1.0 + y, q);
  }

  lemma Spread(q: real, n: real, c: real, y: real)
    ensures q * (n + c + y) == n * q + c * q + q * y
  {
  }

  lemma Quotient(x: real, q: real)
    requires q > 0.0
    ensures q * (x / q) == x
  {
  }

  lemma Cancel(x: real, y: real, q: real)
    requires q > 0.0 && q * x < q * y
    ensures x < y
  {
  }

  lemma SentBound(s: State, s': State, i: nat, n: int, maxLen: nat)
    requires Valid(s, maxLen) && Valid(s', maxLen) && i in s.ring && i in s'.ring && Account(s, s', i, n)
    requires s.queue[i].weight >= 1
    ensures var q := Quantum(s.queue[i]);
      q > 0 && n * q - q - maxLen < Sent(s, s', i) < n * q + q + maxLen
  {
    var p, p' := Pos(s.ring, i), Pos(s'.ring, i);
    QuantumBounds(s.queue[i]);
  }

  /** Two services within their bounds of counts that differ by at most one. */
  lemma Apart(x: real, a: int, d: real, y: real, b: int, e: real)
    requires Abs(x - a as real) < 1.0 + d && Abs(y - b as real) < 1.0 + e && -1 <= a - b <= 1
    ensures Abs(x - y) < 3.0 + d + e
  {
  }

  lemma FairRates(x: int, a: int, p: int, y: int, b: int, q: int, maxLen: nat)
    requires p > 0 && a * p - p - maxLen < x < a * p + p + maxLen
    requires q > 0 && b * q - q - maxLen < y < b * q + q + maxLen
    requires -1 <= a - b <= 1
    ensures Abs(x as real / p as real - y as real / q as real) < 3.0 + maxLen as real / p as real + maxLen as real / q as real
  {
    Rate(x, a, p, maxLen);
    Rate(y, b, q, maxLen);
    Apart(x as real / p as real, a, maxLen as real / p as real, y as real / q as real, b, maxLen as real / q as real);
  }

  lemma SharedFair(s: State, s': State, i: nat, j: nat, a: int, b: int, maxLen: nat)
    requires Valid(s, maxLen) && Valid(s', maxLen) && Shared(s, s', i, j, a, b)
    requires s.queue[i].weight >= 1 && s.queue[j].weight >= 1
    ensures
      var qi, qj := Quantum(s.queue[i]), Quantum(s.queue[j]);
      && |s'.queue| == |s.queue| && qi > 0 && qj > 0
      && Abs(Sent(s, s', i) as real / qi as real - Sent(s, s', j) as real / qj as real)
           < 3.0 + maxLen as real / qi as real + maxLen as real / qj as real
  {
    SentBound(s, s', i, a, maxLen);
    SentBound(s, s', j, b, maxLen);
    FairRates(Sent(s, s', i), a, Quantum(s.queue[i]), Sent(s, s', j), b, Quantum(s.queue[j]), maxLen);
  }

  /** While i and j stay backlogged, their service measured in quanta differs by less
      than 3 + maxLen / Qi + maxLen / Qj, whatever the weights and the other queues. */
  lemma Fairness(s: State, events: seq<Event>, i: nat, j: nat, maxLen: nat)
    requires Valid(s, maxLen) && EventsOk(events, |s.queue|, maxLen) && i != j
    requires StayBusy(s, events, i, j, maxLen) && s.queue[i].weight >= 1 && s.queue[j].weight >= 1
    ensures Run(s, events, maxLen).Some?
    ensures
      var s' := Run(s, events, maxLen).value;
      var qi, qj := Quantum(s.queue[i]), Quantum(s.queue[j]);
      && |s'.queue| == |s.queue| && qi > 0 && qj > 0
      && 100 * qi <= 512 * s.queue[i].weight < 100 * qi + 100 && 100 * qj <= 512 * s.queue[j].weight < 100 * qj + 100
      && Abs(Sent(s, s', i) as real / qi as real - Sent(s, s', j) as real / qj as real)
           < 3.0 + maxLen as real / qi as real + maxLen as real / qj as real
  {
    var a, b := RunShared(s, events, i, j, maxLen);
    SharedFair(s, Run(s, events, maxLen).value, i, j, a, b, maxLen);
  }
}
