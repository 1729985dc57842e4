/** The configuration update of the spanning tree protocol (IEEE 802.1D-1998, clause
    8.6): which port leads to the root, and for which segments this bridge is the
    designated one. */
module StpUpdate {
  import opened Options

  datatype PortState = Disabled | Listening | Learning | Forwarding | Blocking

  datatype Timer = Timer(active: bool, value: nat)

  /** A bridge port: its own identity, the priority vector last heard or set for its
      segment (root, cost, bridge, port), its state and its timers. */
  datatype Port = Port(
    stp: bool, id: nat, pathCost: nat,
    root: nat, cost: nat, bridge: nat, port: nat,
    state: PortState, age: Timer, delay: Timer, hold: Timer,
    ack: bool, pending: bool, detect: bool)

  /** This bridge is the designated bridge of the port's segment, through this port. */
  predicate Designated(p: Port, id: nat) {
    p.bridge == id && p.port == p.id
  }

  /** The port may lead to the root. */
  predicate Candidate(p: Port, id: nat) {
    p.stp && !Designated(p, id) && p.state != Disabled && p.root < id
  }

  /** Lexicographic order of vectors. */
  predicate Less(a: seq<nat>, b: seq<nat>)
    requires |a| == |b|
  {
    |a| > 0 && (a[0] < b[0] || (a[0] == b[0] && Less(a[1..], b[1..])))
  }

  /** What a candidate is ranked by. */
  function Rank(p: Port): seq<nat> {
    [p.root, p.cost + p.pathCost, p.bridge, p.port, p.id]
  }

  /** What the port's segment has heard; what this bridge would say there. */
  function Heard(p: Port): seq<nat> {
    [p.root, p.cost, p.bridge, p.port]
  }

  function Own(p: Port, root: nat, cost: nat, id: nat): seq<nat> {
    [root, cost, id, p.id]
  }

  // ----- order

  lemma Less4(a: seq<nat>, b: seq<nat>)
    requires |a| == |b| == 4
    ensures Less(a, b) <==>
      a[0] < b[0] || (a[0] == b[0] && (a[1] < b[1] || (a[1] == b[1] && (a[2] < b[2] || (a[2] == b[2] && a[3] < b[3])))))
  {
    var a1, b1 := a[1..], b[1..];
    var a2, b2 := a1[1..], b1[1..];
    var a3, b3 := a2[1..], b2[1..];
    assert Less(a3, b3) <==> a3[0] < b3[0];
    assert Less(a2, b2) <==> a2[0] < b2[0] || (a2[0] == b2[0] && Less(a3, b3));
    assert Less(a1, b1) <==> a1[0] < b1[0] || (a1[0] == b1[0] && Less(a2, b2));
  }

  lemma Less5(a: seq<nat>, b: seq<nat>)
    requires |a| == |b| == 5
    ensures Less(a, b) <==>
      a[0] < b[0] || (a[0] == b[0] && (a[1] < b[1] || (a[1] == b[1] && (a[2] < b[2] || (a[2] == b[2] &&
        (a[3] < b[3] || (a[3] == b[3] && a[4] < b[4])))))))
  {
    Less4(a[1..], b[1..]);
  }

  lemma {:induction false} LessStrict(a: seq<nat>, b: seq<nat>)
    requires |a| == |b| && Less(a, b)
    ensures !Less(b, a)
  {
    if a[0] == b[0] {
      LessStrict(a[1..], b[1..]);
    }
  }

  lemma {:induction false} LessAt(a: seq<nat>, b: seq<nat>, i: nat)
    requires i < |a| == |b| && a[..i] == b[..i] && a[i] < b[i]
    ensures Less(a, b)
  {
    if i > 0 {
      assert a[..i][0] == b[..i][0];
      assert a[1..][..i - 1] == a[..i][1..] && b[1..][..i - 1] == b[..i][1..];
      LessAt(a[1..], b[1..], i - 1);
    }
  }

  lemma {:induction false} FirstDifference(a: seq<nat>, b: seq<nat>) returns (i: nat)
    requires |a| == |b| && Less(a, b)
    ensures i < |a| && a[..i] == b[..i] && a[i] < b[i]
  {
    i := 0;
    if a[0] == b[0] {
      var n := FirstDifference(a[1..], b[1..]);
      assert a[..n + 1] == [a[0]] + a[1..][..n] && b[..n + 1] == [b[0]] + b[1..][..n];
      i := n + 1;
    }
  }

  /** The order is that of the first place where the vectors differ. */
  lemma LessMeans(a: seq<nat>, b: seq<nat>)
    requires |a| == |b|
    ensures Less(a, b) <==> exists i :: 0 <= i < |a| && a[..i] == b[..i] && a[i] < b[i]
  {
    if Less(a, b) {
      var i := FirstDifference(a, b);
    }
    forall i | 0 <= i < |a| && a[..i] == b[..i] && a[i] < b[i]
      ensures Less(a, b)
    {
      LessAt(a, b, i);
    }
  }

  lemma {:induction false} NotLessTrans(a: seq<nat>, b: seq<nat>, c: seq<nat>)
    requires |a| == |b| == |c| && !Less(a, b) && !Less(b, c)
    ensures !Less(a, c)
  {
    if a != [] && a[0] == b[0] == c[0] {
      NotLessTrans(a[1..], b[1..], c[1..]);
    }
  }

  // ----- root selection

  /** The first of the least candidates among the first n ports. */
  ghost function Pick(ports: seq<Port>, id: nat, n: nat): (r: Option<nat>)
    requires n <= |ports|
    ensures r.Some? ==> r.value < n && Candidate(ports[r.value], id)
  {
    if n == 0 then None
    else
      var best := Pick(ports, id, n - 1);
      if Candidate(ports[n - 1], id) && (best.None? || Less(Rank(ports[n - 1]), Rank(ports[best.value]))) then Some(n - 1)
      else best
  }

  /** It is there if there is a candidate, and no candidate ranks before it; those
      earlier in the list rank after it. */
  lemma {:induction false} PickLeast(ports: seq<Port>, id: nat, n: nat, k: nat)
    requires k < n <= |ports| && Candidate(ports[k], id)
    ensures var r := Pick(ports, id, n);
      && r.Some? && !Less(Rank(ports[k]), Rank(ports[r.value]))
      && (k < r.value ==> Less(Rank(ports[r.value]), Rank(ports[k])))
  {
    var best := Pick(ports, id, n - 1);
    var r := Pick(ports, id, n);
    if k < n - 1 {
      PickLeast(ports, id, n - 1, k);
      var x, y, z := Rank(ports[r.value]), Rank(ports[best.value]), Rank(ports[k]);
      if r.value == n - 1 {
        Follows(x, y, z);
        LessStrict(x, z);
      }
    } else {
      Irreflexive(Rank(ports[k]));
    }
  }

  lemma {:induction false} Irreflexive(a: seq<nat>)
    ensures !Less(a, a)
  {
    if a != [] {
      Irreflexive(a[1..]);
    }
  }

  lemma {:induction false} Follows(x: seq<nat>, y: seq<nat>, z: seq<nat>)
    requires |x| == |y| == |z| && Less(x, y) && !Less(z, y)
    ensures Less(x, z)
  {
    if x[0] == y[0] == z[0] {
      Follows(x[1..], y[1..], z[1..]);
    }
  }

  datatype Tree = Tree(ports: seq<Port>, rootPort: Option<nat>, root: nat, cost: nat)

  /** What root selection sets. */
  ghost function Select(ports: seq<Port>, id: nat): Tree {
    var r := Pick(ports, id, |ports|);
    if r.None? then Tree(ports, None, id, 0)
    else Tree(ports, r, ports[r.value].root, ports[r.value].cost + ports[r.value].pathCost)
  }

  // ----- designated port selection

  function Become(p: Port, root: nat, cost: nat, id: nat): Port {
    p.(root := root, cost := cost, bridge := id, port := p.id)
  }

  /** This bridge takes over the port's segment. */
  predicate Takes(p: Port, root: nat, cost: nat, id: nat) {
    p.stp &&
    (Designated(p, id) || p.root != root || cost < p.cost ||
     (cost == p.cost && (id < p.bridge || (id == p.bridge && p.id <= p.port))))
  }

  function Settled(p: Port, root: nat, cost: nat, id: nat): Port {
    if Takes(p, root, cost, id) then Become(p, root, cost, id) else p
  }

  ghost function Update(ports: seq<Port>, id: nat): (t: Tree)
    ensures |t.ports| == |ports|
  {
    var t := Select(ports, id);
    t.(ports := seq(|ports|, k requires 0 <= k < |ports| => Settled(ports[k], t.root, t.cost, id)))
  }

  // ----- what the update achieves

  /** Afterwards no port's segment has heard anything worse than this bridge would
      say there; where it has heard better, another bridge or port is designated. */
  lemma NoWorse(ports: seq<Port>, id: nat, k: nat)
    requires k < |ports| && ports[k].stp
    ensures var t := Update(ports, id);
      && !Less(Own(t.ports[k], t.root, t.cost, id), Heard(t.ports[k]))
      && (Designated(t.ports[k], id) <==> !Less(Heard(t.ports[k]), Own(t.ports[k], t.root, t.cost, id)))
  {
    var t := Update(ports, id);
    var p := t.ports[k];
    Less4(Own(p, t.root, t.cost, id), Heard(p));
    Less4(Heard(p), Own(p, t.root, t.cost, id));
  }

  /** The port takes part, hears of a root before this bridge, and hears it from another
      bridge or another port. */
  ghost predicate HearsBetter(p: Port, id: nat) {
    p.stp && p.state != Disabled && p.root < id && (p.bridge != id || p.port != p.id)
  }

  /** There is a root port exactly if some port hears of a better root. It is such a
      port, and by root, cost of the path through it, bridge, port and own port no such
      port comes before it; its root is the bridge's, at that cost. Without one the
      bridge is the root. */
  lemma UpdateLeast(ports: seq<Port>, id: nat)
    ensures var t := Update(ports, id);
      && (t.rootPort.Some? <==> exists k :: 0 <= k < |ports| && HearsBetter(ports[k], id))
      && (t.rootPort.None? ==> t.root == id && t.cost == 0)
      && (t.rootPort.Some? ==>
            var r := ports[t.rootPort.value];
            && HearsBetter(r, id) && t.root == r.root < id && t.cost == r.cost + r.pathCost
            && forall k :: 0 <= k < |ports| && HearsBetter(ports[k], id) ==>
                 var p := ports[k];
                 !Less([p.root, p.cost + p.pathCost, p.bridge, p.port, p.id], [r.root, r.cost + r.pathCost, r.bridge, r.port, r.id]))
  {
    forall k | 0 <= k < |ports| && HearsBetter(ports[k], id)
      ensures var r := Pick(ports, id, |ports|); r.Some? && !Less(Rank(ports[k]), Rank(ports[r.value]))
    {
      PickLeast(ports, id, |ports|, k);
    }
  }

  /** The port costs nothing to cross and this bridge ranks before the one heard there. */
  predicate Claims(p: Port, id: nat) {
    p.pathCost == 0 && (id < p.bridge || (id == p.bridge && p.id <= p.port))
  }

  /** A chosen root port is itself taken over exactly when this bridge claims it. */
  lemma RootKept(ports: seq<Port>, id: nat)
    ensures var t := Update(ports, id);
      t.rootPort.Some? ==>
        && (!Claims(ports[t.rootPort.value], id) ==> t.ports[t.rootPort.value] == ports[t.rootPort.value])
        && (Claims(ports[t.rootPort.value], id) ==> Designated(t.ports[t.rootPort.value], id))
  {
  }

  /** Ports that are not taken over keep their candidacy, and no port gains it. */
  lemma Candidates(ports: seq<Port>, id: nat, k: nat)
    requires k < |ports|
    ensures var t := Update(ports, id); Candidate(t.ports[k], id) ==> t.ports[k] == ports[k]
  {
  }

  /** A second selection picks the same port when the candidates are some of the
      former ones, of the same rank, and the former choice is among them. */
  lemma {:induction false} PickAgain(ports: seq<Port>, ports': seq<Port>, id: nat, n: nat, r: nat)
    requires n <= |ports| == |ports'| && r < |ports| && Candidate(ports'[r], id) && Candidate(ports[r], id)
    requires forall k :: 0 <= k < |ports| && Candidate(ports'[k], id) ==> Candidate(ports[k], id) && Rank(ports'[k]) == Rank(ports[k])
    requires forall k :: 0 <= k < |ports| && Candidate(ports[k], id) && k != r ==>
      !Less(Rank(ports[k]), Rank(ports[r])) && (k < r ==> Less(Rank(ports[r]), Rank(ports[k])))
    ensures n > r ==> Pick(ports', id, n) == Some(r)
  {
    if n > r + 1 {
      PickAgain(ports, ports', id, n - 1, r);
    } else if n == r + 1 {
      var best := Pick(ports', id, r);
    }
  }

  lemma RankedFirst(ports: seq<Port>, id: nat, r: nat)
    requires Pick(ports, id, |ports|) == Some(r)
    ensures forall k :: 0 <= k < |ports| && Candidate(ports[k], id) && k != r ==>
      !Less(Rank(ports[k]), Rank(ports[r])) && (k < r ==> Less(Rank(ports[r]), Rank(ports[k])))
  {
    forall k | 0 <= k < |ports| && Candidate(ports[k], id)
      ensures !Less(Rank(ports[k]), Rank(ports[r])) && (k < r ==> Less(Rank(ports[r]), Rank(ports[k])))
    {
      PickLeast(ports, id, |ports|, k);
    }
  }

  lemma SelectAgain(ports: seq<Port>, id: nat)
    requires var r := Pick(ports, id, |ports|); r.Some? ==> !Claims(ports[r.value], id)
    ensures var t := Update(ports, id); Pick(t.ports, id, |ports|) == t.rootPort
  {
    var t := Update(ports, id);
    RootKept(ports, id);
    if t.rootPort.Some? {
      RankedFirst(ports, id, t.rootPort.value);
      PickAgain(ports, t.ports, id, |ports|, t.rootPort.value);
    } else {
      var again := Pick(t.ports, id, |ports|);
      if again.Some? {
        PickLeast(ports, id, |ports|, again.value);
      }
    }
  }

  /** Updating twice is updating once exactly when this bridge does not claim its own
      root port; so always with path costs of at least 1. */
  lemma IdempotentIff(ports: seq<Port>, id: nat)
    ensures Update(Update(ports, id).ports, id) == Update(ports, id) <==>
      var r := Pick(ports, id, |ports|); r.Some? ==> !Claims(ports[r.value], id)
    ensures (forall k :: 0 <= k < |ports| && ports[k].stp ==> ports[k].pathCost >= 1) ==>
      Update(Update(ports, id).ports, id) == Update(ports, id)
  {
    var t := Update(ports, id);
    var t' := Update(t.ports, id);
    RootKept(ports, id);
    if t.rootPort.Some? && Claims(ports[t.rootPort.value], id) {
      assert !Candidate(t.ports[t.rootPort.value], id);
      assert t'.rootPort != t.rootPort;
    } else {
      SelectAgain(ports, id);
      assert t'.root == t.root && t'.cost == t.cost;
      assert t'.ports == t.ports;
    }
  }

  /** With a path cost of 0 it is not: the root port is itself taken over, and then no
      longer leads to the root. */
  lemma FreePath()
    ensures exists ports: seq<Port>, id :: |ports| == 1 && Update(Update(ports, id).ports, id).root != Update(ports, id).root
  {
    var off := Timer(false, 0);
    var p := Port(true, 1, 0, 5, 0, 20, 1, Listening, off, off, off, false, false, true);
    var ports := [p];
    assert Pick(ports, 10, 0) == None;
    assert Pick(ports, 10, 1) == Some(0);
    var t := Update(ports, 10);
    assert t.root == 5 && Designated(t.ports[0], 10);
    assert Pick(t.ports, 10, 0) == None;
    assert Pick(t.ports, 10, 1) == None;
    assert Update(t.ports, 10).root == 10;
  }
}
