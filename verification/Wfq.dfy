/** The scheduler object: enqueue with overflow drops, and dequeue or poll by moving
    the round-robin pointer, each in place. */
module Wfq {
  import opened WfqRing
  import opened Options

  /** What becomes of an arriving packet. Refused: a packet of its queue was dropped.
      Failed: there was no weight to divide by, or no queue to drop from. */
  datatype Arrival = Queued | Refused | Failed

  class Scheduler {
    var queue: seq<Queue>
    /** The active queues, listed from the round-robin pointer on. */
    var ring: seq<nat>
    var bytes: int
    const hwm: int
    ghost const maxLen: nat

    ghost function Now(): State
      reads this
    {
      State(queue, ring, bytes, hwm)
    }

    constructor (weights: seq<nat>, limit: nat, ghost longest: nat)
      requires longest >= 1
      ensures Valid(Now(), maxLen) && maxLen == longest && |queue| == |weights| && ring == [] && bytes == 0 && hwm == limit
      ensures forall i :: 0 <= i < |weights| ==> queue[i] == Queue([], 0, 0, weights[i], 0)
    {
      queue := seq(|weights|, i requires 0 <= i < |weights| => Queue([], 0, 0, weights[i], 0));
      ring := [];
      bytes := 0;
      hwm := limit;
      maxLen := longest;
      new;
      SumZero(queue);
    }

    /** The longest queue relative to its weight. Without ok a queue has no weight to
        divide by. */
    method MaxQueue() returns (ok: bool, best: Option<nat>)
      requires Valid(Now(), maxLen)
      ensures ok <==> Weighed(Now(), |ring|)
      ensures ok ==> best == Longest(Now(), |ring|)
      ensures ok ==> if best.None? then AllLight(Now()) else Heaviest(Now(), best.value)
    {
      best := None;
      var most := 0;
      var n := 0;
      ghost var a: seq<int> := [];
      NoShares(Now());
      while n < |ring|
        invariant 0 <= n <= |ring| && SharesAre(Now(), n, a)
        invariant var r := FirstMax(a);
          if r.None? then best.None? && most == 0 else best == Some(ring[r.value]) && most == a[r.value]
      {
        var q := queue[ring[n]];
        if q.weight == 0 {
          return false, None;
        }
        var share := Relative(q);
        OneShare(Now(), n, a, share);
        assert (a + [share])[..n] == a;
        a := a + [share];
        if share > most {
          best, most := Some(ring[n]), share;
        }
        n := n + 1;
      }
      LongestOf(Now(), a);
      LongestHeaviest(Now());
      ok := true;
    }

    static method Relative(q: Queue) returns (share: int)
      requires q.weight >= 1
      ensures share == Share(q)
    {
      share := q.bytes * 100 / q.weight;
    }

    /** Add a packet to the queue of its class, queue 0 if it has none, and keep the
        total within the limit. Refused when a packet of that queue was dropped. */
    method Enqueue(class_: Option<nat>, p: Pkt) returns (o: Arrival)
      requires Valid(Now(), maxLen) && |queue| > 0
      requires class_.Some? ==> class_.value < |queue|
      requires 1 <= p.len <= maxLen
      modifies this
      ensures
        var k := if class_.None? then 0 else class_.value;
        var r := After(old(Now()), Event.Enqueue(k, p), maxLen);
        && (o.Failed? <==> r.None?)
        && (r.Some? ==>
              && Now() == r.value && bytes <= hwm && |queue| == |old(queue)|
              && (o.Queued? <==> queue[k].packets == old(queue[k].packets) + [p]))
      ensures !o.Failed? ==> DropsTo(Append(old(Now()), if class_.None? then 0 else class_.value, p), Now())
    {
      var k := if class_.None? then 0 else class_.value;
      AppendValid(Now(), k, p, maxLen);
      Add(k, p);
      ghost var steps, s' := TrimDrops(Now(), maxLen);
      o := Shrink(k);
    }

    method Add(k: nat, p: Pkt)
      requires k < |queue|
      modifies this
      ensures Now() == Append(old(Now()), k, p)
    {
      var q := queue[k];
      queue := queue[k := q.(packets := q.packets + [p], bytes := q.bytes + p.len)];
      bytes := bytes + p.len;
      if k !in ring {
        if ring == [] {
          ring := [k];
          queue := queue[k := TopUp(queue[k])];
        } else {
          ring := ring + [k];
          queue := queue[k := queue[k].(quota := 0)];
        }
      }
    }

    method DropHead(i: nat)
      requires i < |queue| && queue[i].packets != []
      modifies this
      ensures Now() == DropPacket(old(Now()), i)
    {
      var q := queue[i];
      var len := q.packets[0].len;
      queue := queue[i := q.(packets := q.packets[1..], bytes := q.bytes - len)];
      bytes := bytes - len;
    }

    /** Drop from the longest queue until the total is within the limit. */
    method Shrink(k: nat) returns (o: Arrival)
      requires Valid(Now(), maxLen) && k < |queue|
      modifies this
      ensures var r := Trim(old(Now()), maxLen);
        && (o.Failed? <==> r.None?)
        && (r.Some? ==>
              && Now() == r.value && bytes <= hwm && |queue| == |old(queue)|
              && (o.Queued? <==> queue[k].packets == old(queue[k].packets)))
    {
      o := Queued;
      while bytes > hwm
        invariant Valid(Now(), maxLen) && |queue| == |old(queue)| && !o.Failed?
        invariant Trim(Now(), maxLen) == Trim(old(Now()), maxLen)
        invariant if o.Refused? then |queue[k].packets| < |old(queue[k].packets)| else queue[k].packets == old(queue[k].packets)
        decreases bytes
      {
        var ok, longest := MaxQueue();
        if !ok || longest.None? {
          return Failed;
        }
        ghost var i' := TrimStep(Now(), maxLen);
        LongestBusy(Now(), maxLen);
        var i := longest.value;
        DropPacketValid(Now(), i, maxLen);
        DropHead(i);
        if i == k {
          o := Refused;
        }
      }
    }

    /** Take the next packet, or only show it. */
    method Dequeue(remove: bool) returns (p: Option<Pkt>)
      requires Valid(Now(), maxLen) && Ends(Now())
      modifies this
      ensures Valid(Now(), maxLen)
      ensures Some(Now()) == After(old(Now()), if remove then Event.Dequeue else Poll, maxLen)
      ensures p == Next(old(Now()), maxLen)
    {
      if bytes == 0 || ring == [] {
        return None;
      }
      FindReady();
      p := Some(queue[ring[0]].packets[0]);
      if remove {
        SendValid(Now(), maxLen);
        SendFirst();
      }
    }

    /** The queue at the pointer leaves the ring. */
    method LeaveRing()
      requires RingOk(Now()) && |ring| > 1
      modifies `queue, `ring
      ensures Now() == Drop(old(Now()))
    {
      ring := ring[1..];
      queue := queue[ring[0] := TopUp(queue[ring[0]])];
    }

    /** The pointer moves on. */
    method MoveOn()
      requires RingOk(Now()) && ring != []
      modifies `queue, `ring
      ensures Now() == Advance(old(Now()))
    {
      ring := ring[1..] + [ring[0]];
      queue := queue[ring[0] := TopUp(queue[ring[0]])];
    }

    /** The queue at the pointer sends its first packet. */
    method SendFirst()
      requires RingOk(Now()) && ring != [] && queue[ring[0]].packets != []
      modifies `queue, `bytes
      ensures Now() == Send(old(Now()))
    {
      var h := ring[0];
      var q := queue[h];
      var len := q.packets[0].len;
      queue := queue[h := q.(packets := q.packets[1..], bytes := q.bytes - len, quota := q.quota - len, xmit := q.xmit + len)];
      bytes := bytes - len;
    }

    /** Move the pointer to a queue that can send. */
    method FindReady()
      requires Valid(Now(), maxLen) && bytes != 0 && Ends(Now())
      modifies `queue, `ring
      ensures Valid(Now(), maxLen) && Ready(Now())
      ensures Now() == Settle(old(Now()), maxLen)
    {
      ghost var k :| Served(Now(), k) && Settle(Now(), maxLen) == Seek(Now(), k, maxLen);
      ghost var goal := Settle(Now(), maxLen);
      while true
        invariant Valid(Now(), maxLen) && Served(Now(), k) && Seek(Now(), k, maxLen) == goal
        decreases Missing(Now(), k), Pos(ring, k)
      {
        ghost var s := Now();
        MissingNat(s, k, maxLen);
        var h := ring[0];
        if queue[h].quota > 0 {
          Nothing(queue[h], maxLen);
          if queue[h].bytes <= 0 {
            if |ring| == 1 {
              assert false;
            }
            DropNearer(s, k, maxLen);
            LeaveRing();
          } else {
            return;
          }
        } else {
          AdvanceNearer(s, k, maxLen);
          MoveOn();
        }
      }
    }
  }

  lemma Nothing(q: Queue, maxLen: nat)
    requires QueueOk(q, maxLen)
    ensures q.bytes <= 0 <==> q.packets == []
  {
    if q.packets != [] {
      LengthPositive(q.packets);
    }
  }
}
