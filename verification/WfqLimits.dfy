/** Which weights a scheduler can be given: the operations come to an end in every run
    exactly if all weights are positive and light enough for the limit. */
module WfqLimits {
  import opened WfqRing
  import opened WfqFair
  import opened Options

  /** A scheduler with queues of these weights, all empty. */
  function Idle(weights: seq<nat>, hwm: nat): State {
    State(seq(|weights|, i requires 0 <= i < |weights| => Queue([], 0, 0, weights[i], 0)), [], 0, hwm)
  }

  lemma IdleValid(weights: seq<nat>, hwm: nat, maxLen: nat)
    requires maxLen >= 1
    ensures Valid(Idle(weights, hwm), maxLen) && |Idle(weights, hwm).queue| == |weights|
  {
    SumZero(Idle(weights, hwm).queue);
  }

  /** Every run from the start comes to an end. */
  ghost predicate AlwaysReturns(weights: seq<nat>, hwm: nat) {
    forall events: seq<Event>, maxLen: nat :: maxLen >= 1 && EventsOk(events, |weights|, maxLen) ==>
      RunsOut(weights, hwm, events, maxLen)
  }

  ghost predicate RunsOut(weights: seq<nat>, hwm: nat, events: seq<Event>, maxLen: nat)
    requires maxLen >= 1 && EventsOk(events, |weights|, maxLen)
  {
    IdleValid(weights, hwm, maxLen);
    Run(Idle(weights, hwm), events, maxLen).Some?
  }

  // ----- light weights

  lemma {:induction false} LightRuns(s: State, events: seq<Event>, maxLen: nat)
    requires Valid(s, maxLen) && EventsOk(events, |s.queue|, maxLen) && Light(s.queue, s.hwm)
    ensures Run(s, events, maxLen).Some?
    decreases |events|
  {
    if events != [] {
      AfterReturns(s, events[0], maxLen);
      AfterKeeps(s, events[0], maxLen);
      var s1 := After(s, events[0], maxLen).value;
      UnseenSame(s.queue, s1.queue);
      LightRuns(s1, events[1..], maxLen);
    }
  }

  // ----- a weight of 0

  /** One packet in a queue of weight 0, and a request for it. */
  lemma ZeroStops(weights: seq<nat>, hwm: nat, i: nat)
    requires i < |weights| && weights[i] == 0
    ensures !AlwaysReturns(weights, hwm)
  {
    var events := [Enqueue(i, Pkt(0, 1)), Dequeue];
    var s := Idle(weights, hwm);
    IdleValid(weights, hwm, 1);
    var s1 := Append(s, i, Pkt(0, 1));
    AppendValid(s, i, Pkt(0, 1), 1);
    assert s1.bytes == 1 && s1.ring == [i] && s1.ring[0] == i;
    if 1 <= hwm {
      assert After(s, events[0], 1) == Some(s1);
      assert forall k :: !Served(s1, k);
      assert events[1..][0] == Dequeue;
      assert After(s1, Dequeue, 1) == None;
      AfterKeeps(s, events[0], 1);
      assert Run(s1, events[1..], 1) == None;
    } else {
      assert !Weighed(s1, 1);
      assert After(s, events[0], 1) == None;
    }
    assert !RunsOut(weights, hwm, events, 1);
  }

  // ----- weights too heavy for the limit

  /** One packet for each of the first i queues: as much as it can hold unseen. */
  function Filling(weights: seq<nat>, i: nat): seq<Event>
    requires i <= |weights|
  {
    if i == 0 then []
    else if Unseen(weights[i - 1]) == 0 then Filling(weights, i - 1)
    else Filling(weights, i - 1) + [Enqueue(i - 1, Pkt(0, Unseen(weights[i - 1])))]
  }

  lemma {:induction false} RunSnoc(s: State, events: seq<Event>, e: Event, maxLen: nat)
    requires Valid(s, maxLen) && EventsOk(events, |s.queue|, maxLen) && EventOk(e, |s.queue|, maxLen)
    ensures var r := Run(s, events, maxLen);
      && EventsOk(events + [e], |s.queue|, maxLen) && (r.Some? ==> SameWeights(s.queue, r.value.queue) && r.value.hwm == s.hwm)
      && Run(s, events + [e], maxLen) == if r.None? then None else After(r.value, e, maxLen)
    decreases |events|
  {
    if events == [] {
      assert events + [e] == [e];
      AfterKeeps(s, e, maxLen);
    } else {
      AfterKeeps(s, events[0], maxLen);
      assert (events + [e])[1..] == events[1..] + [e];
      var r := After(s, events[0], maxLen);
      if r.Some? {
        RunSnoc(r.value, events[1..], e, maxLen);
      }
    }
  }

  /** The first i queues hold as much as they can unseen, the others nothing. */
  ghost predicate FilledTo(s: State, weights: seq<nat>, i: nat) {
    |s.queue| == |weights| && forall k :: 0 <= k < |weights| ==>
      s.queue[k].weight == weights[k] && s.queue[k].bytes == if k < i then Unseen(weights[k]) else 0
  }

  /** Over the limit with all shares rounded to 0, nothing is found to drop from. */
  lemma NothingSeen(s: State, maxLen: nat)
    requires Valid(s, maxLen) && s.bytes > s.hwm
    requires forall k :: 0 <= k < |s.queue| ==> s.queue[k].weight >= 1 && s.queue[k].bytes <= Unseen(s.queue[k].weight)
    ensures Trim(s, maxLen) == None
  {
    var r := Longest(s, |s.ring|);
    if r.Some? {
      LongestBusy(s, maxLen);
      ShareOfBytes(s.queue[r.value]);
    }
  }

  /** The run failed on the way or filled the first i queues. */
  ghost predicate Fills(r: Option<State>, weights: seq<nat>, hwm: nat, i: nat) {
    r.Some? ==> FilledTo(r.value, weights, i) && r.value.bytes <= hwm == r.value.hwm
  }

  lemma {:induction false} FillingRun(s: State, weights: seq<nat>, hwm: nat, i: nat, maxLen: nat)
    requires i <= |weights| == |s.queue| && Valid(s, maxLen) && Fills(Some(s), weights, hwm, 0)
    requires forall k :: 0 <= k < |weights| ==> weights[k] >= 1 && Unseen(weights[k]) <= maxLen
    ensures EventsOk(Filling(weights, i), |weights|, maxLen)
    ensures Fills(Run(s, Filling(weights, i), maxLen), weights, hwm, i)
    decreases i
  {
    if i > 0 {
      FillingRun(s, weights, hwm, i - 1, maxLen);
      FillingStep(s, Filling(weights, i - 1), weights, hwm, i, maxLen);
    }
  }

  lemma FillingStep(s: State, before: seq<Event>, weights: seq<nat>, hwm: nat, i: nat, maxLen: nat)
    requires 0 < i <= |weights| == |s.queue| && Valid(s, maxLen) && EventsOk(before, |weights|, maxLen)
    requires forall k :: 0 <= k < |weights| ==> weights[k] >= 1 && Unseen(weights[k]) <= maxLen
    requires Fills(Run(s, before, maxLen), weights, hwm, i - 1)
    ensures var n := Unseen(weights[i - 1]);
      var events := if n == 0 then before else before + [Enqueue(i - 1, Pkt(0, n))];
      EventsOk(events, |weights|, maxLen) && Fills(Run(s, events, maxLen), weights, hwm, i)
  {
    var n, r := Unseen(weights[i - 1]), Run(s, before, maxLen);
    if n > 0 {
      RunSnoc(s, before, Enqueue(i - 1, Pkt(0, n)), maxLen);
      if r.Some? {
        FillOne(r.value, weights, hwm, i, maxLen);
      }
    }
  }

  lemma FillOne(s: State, weights: seq<nat>, hwm: nat, i: nat, maxLen: nat)
    requires 0 < i <= |weights| && 1 <= Unseen(weights[i - 1]) <= maxLen && forall k :: 0 <= k < |weights| ==> weights[k] >= 1
    requires Valid(s, maxLen) && FilledTo(s, weights, i - 1) && s.bytes <= s.hwm == hwm
    ensures Fills(After(s, Enqueue(i - 1, Pkt(0, Unseen(weights[i - 1]))), maxLen), weights, hwm, i)
  {
    var p := Pkt(0, Unseen(weights[i - 1]));
    AppendValid(s, i - 1, p, maxLen);
    FillAppend(s, weights, i, p);
    TrimFilled(Append(s, i - 1, p), weights, i, maxLen);
  }

  lemma FillAppend(s: State, weights: seq<nat>, i: nat, p: Pkt)
    requires 0 < i <= |weights| && p.len == Unseen(weights[i - 1]) && FilledTo(s, weights, i - 1)
    ensures FilledTo(Append(s, i - 1, p), weights, i) && Append(s, i - 1, p).hwm == s.hwm
  {
  }

  lemma TrimFilled(s: State, weights: seq<nat>, i: nat, maxLen: nat)
    requires Valid(s, maxLen) && FilledTo(s, weights, i) && forall k :: 0 <= k < |weights| ==> weights[k] >= 1
    ensures Trim(s, maxLen) == if s.bytes <= s.hwm then Some(s) else None
  {
    if s.bytes > s.hwm {
      NothingSeen(s, maxLen);
    }
  }

  lemma {:induction false} SumFilled(queue: seq<Queue>)
    requires forall k :: 0 <= k < |queue| ==> queue[k].bytes == Unseen(queue[k].weight)
    ensures SumBytes(queue) == SumUnseen(queue)
  {
    if queue != [] {
      SumFilled(queue[1..]);
    }
  }

  lemma {:induction false} UnseenLeast(queue: seq<Queue>, k: nat)
    requires k < |queue|
    ensures Unseen(queue[k].weight) <= SumUnseen(queue)
  {
    if k > 0 {
      UnseenLeast(queue[1..], k - 1);
    }
  }

  /** Filling all queues goes over the limit at some point, and fails there. */
  lemma HeavyStops(weights: seq<nat>, hwm: nat)
    requires (forall k :: 0 <= k < |weights| ==> weights[k] >= 1) && SumUnseen(Idle(weights, hwm).queue) > hwm
    ensures !AlwaysReturns(weights, hwm)
  {
    var s := Idle(weights, hwm);
    var maxLen, events := 1 + SumUnseen(s.queue), Filling(weights, |weights|);
    forall k | 0 <= k < |weights|
      ensures Unseen(weights[k]) <= maxLen
    {
      UnseenLeast(s.queue, k);
    }
    IdleValid(weights, hwm, maxLen);
    FillingRun(s, weights, hwm, |weights|, maxLen);
    var r := Run(s, events, maxLen);
    if r.Some? {
      SumFilled(r.value.queue);
      UnseenSame(r.value.queue, s.queue);
    }
    assert !RunsOut(weights, hwm, events, maxLen);
  }

  /** Enqueue, dequeue and poll come to an end in every run exactly if all weights are
      positive and the bytes that all queues together can hold with shares that round to
      0 are within the limit. */
  lemma ReturnsIff(weights: seq<nat>, hwm: nat)
    ensures AlwaysReturns(weights, hwm) <==> Light(Idle(weights, hwm).queue, hwm)
  {
    var s := Idle(weights, hwm);
    if Light(s.queue, hwm) {
      forall events: seq<Event>, maxLen: nat | maxLen >= 1 && EventsOk(events, |weights|, maxLen)
        ensures RunsOut(weights, hwm, events, maxLen)
      {
        IdleValid(weights, hwm, maxLen);
        LightRuns(s, events, maxLen);
      }
    } else if k :| 0 <= k < |weights| && weights[k] == 0 {
      ZeroStops(weights, hwm, k);
    } else {
      assert forall k :: 0 <= k < |weights| ==> s.queue[k].weight == weights[k];
      HeavyStops(weights, hwm);
    }
  }
}
