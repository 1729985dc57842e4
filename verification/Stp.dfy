/** A bridge running the spanning tree protocol: reception of configuration and
    topology-change messages, timers and management, over any number of ports. */
module Stp {
  import opened StpUpdate
  import opened Marks
  import opened Options

  const TICK: nat := 256
  const AGE_STEP: nat := 256

  /** A received configuration message. */
  datatype Config = Config(root: nat, cost: nat, bridge: nat, port: nat,
                           age: nat, maxAge: nat, hello: nat, delay: nat, change: bool, ack: bool)

  datatype Times = Times(maxAge: nat, hello: nat, delay: nat)

  const OFF: Timer := Timer(false, 0)

  /** A later value of a timer or an age: the fields have 16 bits. */
  function Later(value: nat, step: nat): (r: nat)
    ensures r < 0x1_0000 && (value + step < 0x1_0000 ==> r == value + step)
    ensures 0x1_0000 <= value + step < 0x2_0000 ==> r == value + step - 0x1_0000
  {
    (value + step) % 0x1_0000
  }

  function Start(v: nat): Timer {
    Timer(true, v)
  }

  /** A message ranks at least as high as what the port has heard. */
  predicate Supersedes(p: Port, id: nat, c: Config) {
    if c.root != p.root then c.root < p.root
    else if c.cost != p.cost then c.cost < p.cost
    else if c.bridge != p.bridge then c.bridge < p.bridge
    else id != c.bridge || c.port <= p.port
  }

  /** What a port's segment has heard of the root, the cost to it and the bridge. */
  function Vector(p: Port): seq<nat> {
    [p.root, p.cost, p.bridge]
  }

  /** A message is taken up if its vector comes before what the port has heard, or is
      the same and not from a later port of this bridge. */
  lemma SupersedesLess(p: Port, id: nat, c: Config)
    ensures var v := [c.root, c.cost, c.bridge];
      Supersedes(p, id, c) <==> Less(v, Vector(p)) || (v == Vector(p) && (c.bridge != id || c.port <= p.port))
  {
    var v, h := [c.root, c.cost, c.bridge], Vector(p);
    assert v[1..] == [c.cost, c.bridge] && h[1..] == [p.cost, p.bridge];
    assert v[1..][1..] == [c.bridge] && h[1..][1..] == [p.bridge];
    assert Less(v[1..][1..], h[1..][1..]) <==> c.bridge < p.bridge;
    assert Less(v[1..], h[1..]) <==> c.cost < p.cost || (c.cost == p.cost && c.bridge < p.bridge);
    if v == h {
      Irreflexive(v);
      assert v[0] == h[0] && v[1] == h[1] && v[2] == h[2];
    }
  }

  /** Through an update a port's information stays, or the bridge takes the port over. */
  lemma TakenOrKept(before: seq<Port>, id: nat, root: nat, rootPort: Option<nat>, cost: nat, after: seq<Port>, j: nat)
    requires Updated(before, id, root, rootPort, cost, after) && j < |before|
    ensures |after| == |before| && after[j].stp == before[j].stp
    ensures Designated(after[j], id) || Vector(after[j]) == Vector(before[j])
  {
    assert Inside(0);
    var t := Update(before, id);
    assert SameInfo(t.ports[j], after[j]);
    assert Heard(after[j])[0] == Heard(t.ports[j])[0] && Heard(after[j])[1] == Heard(t.ports[j])[1];
    assert Heard(after[j])[2] == Heard(t.ports[j])[2] && Heard(after[j])[3] == Heard(t.ports[j])[3];
  }

  /** No port hears worse than before, except those the bridge has taken over. */
  ghost predicate NoneWorse(ports: seq<Port>, ports': seq<Port>, id: nat) {
    && |ports'| == |ports|
    && forall j :: 0 <= j < |ports| ==>
         ports'[j].stp == ports[j].stp && (Designated(ports'[j], id) || !Less(Vector(ports[j]), Vector(ports'[j])))
  }

  lemma RecordedNoneWorse(ports: seq<Port>, k: nat, c: Config, id: nat, root: nat, rootPort: Option<nat>, cost: nat, after: seq<Port>)
    requires k < |ports| && Supersedes(ports[k], id, c)
    requires Updated(ports[k := Recorded(ports[k], c)], id, root, rootPort, cost, after)
    ensures NoneWorse(ports, after, id)
  {
    var before := ports[k := Recorded(ports[k], c)];
    TakenOrKept(before, id, root, rootPort, cost, after, k);
    forall j | 0 <= j < |ports|
      ensures after[j].stp == ports[j].stp && (Designated(after[j], id) || !Less(Vector(ports[j]), Vector(after[j])))
    {
      TakenOrKept(before, id, root, rootPort, cost, after, j);
      Irreflexive(Vector(ports[j]));
      if j == k {
        SupersedesLess(ports[k], id, c);
        if Less(Vector(before[k]), Vector(ports[k])) {
          LessStrict(Vector(before[k]), Vector(ports[k]));
        }
      }
    }
  }

  lemma SameNoneWorse(ports: seq<Port>, after: seq<Port>, id: nat)
    requires SameInfos(ports, after)
    ensures NoneWorse(ports, after, id)
  {
    forall j | 0 <= j < |ports|
      ensures after[j].stp == ports[j].stp && (Designated(after[j], id) || !Less(Vector(ports[j]), Vector(after[j])))
    {
      assert SameInfo(ports[j], after[j]);
      assert Heard(after[j])[0] == Heard(ports[j])[0] && Heard(after[j])[1] == Heard(ports[j])[1];
      assert Heard(after[j])[2] == Heard(ports[j])[2];
      Irreflexive(Vector(ports[j]));
    }
  }

  /** Each view of the ports follows the one before without anything worse heard. */
  ghost predicate Improves(trace: seq<seq<Port>>, id: nat) {
    forall n :: 0 < n < |trace| ==> NoneWorse(trace[n - 1], trace[n], id)
  }

  /** The bridge does not take port j over between the moments m and n. */
  ghost predicate Untaken(trace: seq<seq<Port>>, m: nat, n: nat, j: nat, id: nat) {
    forall i :: m < i <= n && i < |trace| && j < |trace[i]| ==> !Designated(trace[i][j], id)
  }

  lemma {:induction false} SameLengths(trace: seq<seq<Port>>, id: nat, n: nat)
    requires Improves(trace, id) && n < |trace|
    ensures |trace[n]| == |trace[0]|
  {
    if n > 0 {
      SameLengths(trace, id, n - 1);
      assert NoneWorse(trace[n - 1], trace[n], id);
    }
  }

  /** From any moment to any later one, a port that is not taken over in between hears
      nothing worse. */
  lemma {:induction false} OnlyBetter(trace: seq<seq<Port>>, id: nat, m: nat, n: nat, j: nat)
    requires Improves(trace, id) && m <= n < |trace| && j < |trace[0]| && Untaken(trace, m, n, j, id)
    ensures |trace[m]| == |trace[n]| == |trace[0]| && !Less(Vector(trace[m][j]), Vector(trace[n][j]))
    decreases n
  {
    SameLengths(trace, id, m);
    SameLengths(trace, id, n);
    if m == n {
      Irreflexive(Vector(trace[m][j]));
    } else {
      OnlyBetter(trace, id, m, n - 1, j);
      assert NoneWorse(trace[n - 1], trace[n], id);
      NotLessTrans(Vector(trace[m][j]), Vector(trace[n - 1][j]), Vector(trace[n][j]));
    }
  }

  /** The message carries this bridge's and this very port's identity. */
  predicate Echo(p: Port, id: nat, c: Config) {
    c.bridge == id && c.port == p.id
  }

  /** A port changes its state only to listening, if it is the root port or designated,
      and else to blocking; such a port never stays blocked. */
  lemma StatesFollow(ports: seq<Port>, rootPort: Option<nat>, id: nat)
    ensures forall k :: 0 <= k < |ports| ==>
      var p := ports[k];
      var role := rootPort == Some(k) || Designated(p, id);
      var s := NextState(p, rootPort == Some(k), id);
      && (s != p.state ==> s == if role then Listening else Blocking)
      && (p.stp && s == Blocking ==> !role)
  {
  }

  // ----- the invariant

  predicate Open(s: PortState) {
    s in {Listening, Learning, Forwarding}
  }

  /** Only the root port and designated ports are open, and the forward-delay timer
      runs exactly while the port is on its way to forwarding. */
  ghost predicate PortOk(p: Port, k: nat, rootPort: Option<nat>, id: nat) {
    && (p.stp && Open(p.state) ==> rootPort == Some(k) || Designated(p, id))
    && DelayOk(p)
  }

  ghost predicate DelayOk(p: Port) {
    p.delay.active <==> p.state in {Listening, Learning}
  }

  /** Where a port's role takes its state: towards forwarding, or to blocking. */
  function NextState(p: Port, isRoot: bool, id: nat): PortState {
    if !p.stp || p.state == Disabled then p.state
    else if isRoot || Designated(p, id) then if p.state == Blocking then Listening else p.state
    else Blocking
  }

  ghost predicate RootOk(rootPort: Option<nat>, root: nat, id: nat, n: nat) {
    && root <= id
    && (rootPort.None? <==> root == id)
    && (rootPort.Some? ==> rootPort.value < n)
  }

  /** The port's identity and what it has heard are the same, and so is whether it is
      enabled. */
  predicate SameInfo(p: Port, p': Port) {
    && p'.stp == p.stp && p'.id == p.id && p'.pathCost == p.pathCost
    && Heard(p') == Heard(p) && (p'.state == Disabled <==> p.state == Disabled)
  }

  ghost predicate SameInfos(ports: seq<Port>, ports': seq<Port>) {
    |ports'| == |ports| && forall k :: 0 <= k < |ports| ==> SameInfo(ports[k], ports'[k])
  }

  /** The outcome of an update of the given ports, as far as information goes; used
      where Inside is mentioned. */
  ghost predicate Updated(before: seq<Port>, id: nat, root: nat, rootPort: Option<nat>, cost: nat, after: seq<Port>) {
    forall n: nat {:trigger Inside(n)} :: Inside(n) ==>
      var t := Update(before, id);
      root == t.root && rootPort == t.rootPort && cost == t.cost && SameInfos(t.ports, after)
  }

  lemma UpdatedNow(before: seq<Port>, id: nat, root: nat, rootPort: Option<nat>, cost: nat, after: seq<Port>, last: seq<Port>)
    requires Tree(after, rootPort, root, cost) == Update(before, id) && SameInfos(after, last)
    ensures Updated(before, id, root, rootPort, cost, last)
  {
  }

  lemma UpdatedThen(before: seq<Port>, id: nat, root: nat, rootPort: Option<nat>, cost: nat, after: seq<Port>, last: seq<Port>)
    requires Updated(before, id, root, rootPort, cost, after) && SameInfos(after, last)
    ensures Updated(before, id, root, rootPort, cost, last)
  {
    assert Inside(0);
  }

  ghost predicate PathsCost(ports: seq<Port>) {
    forall k :: 0 <= k < |ports| && ports[k].stp ==> ports[k].pathCost >= 1
  }

  class Bridge {
    var id: nat
    var root: nat
    var rootPort: Option<nat>
    var rootCost: nat
    var ports: seq<Port>
    var times: Times
    const own: Times
    const changeTime: nat
    const holdTime: nat
    var change: bool
    var detected: bool
    var helloTimer: Timer
    var changeTimer: Timer
    var tcnTimer: Timer
    /** A topology change notification was due without a root port to send it to. */
    var failed: bool
    /** So far all path costs were positive, no message echoed the receiving port, and no
        start took its root port from information of before. */
    ghost var careful: bool

    ghost predicate Valid()
      reads this
    {
      && RootOk(rootPort, root, id, |ports|)
      && (forall k :: 0 <= k < |ports| ==> PortOk(ports[k], k, rootPort, id))
      && (careful ==> Careful())
    }

    /** What holds also while ports have yet to be adapted. */
    ghost predicate Usable()
      reads this
    {
      && RootOk(rootPort, root, id, |ports|)
      && (forall k :: 0 <= k < |ports| ==> DelayOk(ports[k]))
      && (careful ==> Careful())
    }

    /** While careful: a running notification timer means there is a root port, and
        the root port still leads to the root. */
    ghost predicate Careful()
      reads this
    {
      && !failed && PathsCost(ports)
      && (tcnTimer.active ==> rootPort.Some?)
      && (rootPort.Some? ==> rootPort.value < |ports| && Candidate(ports[rootPort.value], id))
    }

    /** The bridge's view is the outcome of updating the given ports: that root, that
        root port, and that information on every port. */
    ghost predicate Shows(before: seq<Port>)
      reads this
    {
      Updated(before, id, root, rootPort, rootCost, ports)
    }

    // ----- configuration update

    method RootSelection()
      modifies `rootPort, `root, `rootCost
      ensures var t := Select(ports, id); rootPort == t.rootPort && root == t.root && rootCost == t.cost
    {
      var best: Option<nat> := None;
      var k := 0;
      while k < |ports|
        invariant 0 <= k <= |ports|
        invariant best == Pick(ports, id, k)
      {
        var p := ports[k];
        if p.stp && !Designated(p, id) && p.state != Disabled && p.root < id {
          if best.None? {
            best := Some(k);
          } else {
            var b := ports[best.value];
            Less5(Rank(p), Rank(b));
            if p.root != b.root {
              if p.root < b.root { best := Some(k); }
            } else if p.cost + p.pathCost != b.cost + b.pathCost {
              if p.cost + p.pathCost < b.cost + b.pathCost { best := Some(k); }
            } else if p.bridge != b.bridge {
              if p.bridge < b.bridge { best := Some(k); }
            } else if p.port != b.port {
              if p.port < b.port { best := Some(k); }
            } else if p.id < b.id {
              best := Some(k);
            }
          }
        }
        k := k + 1;
      }
      rootPort := best;
      if best.None? {
        root, rootCost := id, 0;
      } else {
        root, rootCost := ports[best.value].root, ports[best.value].cost + ports[best.value].pathCost;
      }
    }

    method DesignatedPortSelection()
      modifies `ports
      ensures |ports| == |old(ports)|
      ensures forall k :: 0 <= k < |ports| ==> ports[k] == Settled(old(ports[k]), root, rootCost, id)
    {
      var k := 0;
      while k < |ports|
        invariant 0 <= k <= |ports| == |old(ports)|
        invariant forall j :: 0 <= j < |ports| ==>
          ports[j] == if j < k then Settled(old(ports[j]), root, rootCost, id) else old(ports[j])
      {
        var p := ports[k];
        if p.stp {
          var keep := !Designated(p, id) && p.root == root
                      && (p.cost < rootCost
                          || (p.cost == rootCost && (p.bridge < id || (p.bridge == id && p.port < p.id))));
          if !keep {
            ports := ports[k := Become(p, root, rootCost, id)];
          }
        }
        k := k + 1;
      }
    }

    method ConfigurationUpdate()
      modifies `rootPort, `root, `rootCost, `ports
      ensures var t := Update(old(ports), id);
        ports == t.ports && rootPort == t.rootPort && root == t.root && rootCost == t.cost
      ensures RootOk(rootPort, root, id, |ports|)
    {
      RootSelection();
      DesignatedPortSelection();
      assert ports == Update(old(ports), id).ports;
    }

    // ----- port states and topology changes

    method TransmitTcn()
      modifies `failed
      ensures failed <==> old(failed) || rootPort.None?
    {
      if rootPort.None? {
        failed := true;
      }
    }

    method TopologyChangeDetection()
      requires RootOk(rootPort, root, id, |ports|)
      modifies `change, `changeTimer, `tcnTimer, `detected, `failed
      ensures failed == old(failed) && detected
      ensures root == id ==> change && changeTimer == Start(0) && tcnTimer == old(tcnTimer)
      ensures root != id ==> change == old(change) && changeTimer == old(changeTimer)
                             && tcnTimer == if old(detected) then old(tcnTimer) else Start(0)
    {
      if root == id {
        change := true;
        changeTimer := Start(0);
      } else if !detected {
        TransmitTcn();
        tcnTimer := Start(0);
      }
      detected := true;
    }

    /** A notification timer that runs was running before or has a root port. */
    twostate predicate TcnKept()
      reads this
    {
      failed == old(failed) && (tcnTimer.active ==> old(tcnTimer.active) || rootPort.Some?)
    }

    /** A detected change stays detected, and a running notification timer runs on or
        starts anew. */
    twostate predicate ChangeKept()
      reads this
    {
      (old(detected) ==> detected) && (old(tcnTimer.active) ==> tcnTimer == old(tcnTimer) || tcnTimer == Start(0))
    }

    method PortStateSelection()
      requires RootOk(rootPort, root, id, |ports|) && forall k :: 0 <= k < |ports| ==> DelayOk(ports[k])
      modifies `ports, `change, `changeTimer, `tcnTimer, `detected, `failed
      ensures SameInfos(old(ports), ports) && TcnKept() && ChangeKept()
      ensures forall k :: 0 <= k < |ports| ==> PortOk(ports[k], k, rootPort, id)
      ensures forall k :: 0 <= k < |ports| ==> ports[k].state == NextState(old(ports[k]), rootPort == Some(k), id)
      ensures forall k :: 0 <= k < |ports| && ports[k].state != old(ports[k]).state ==>
        ports[k].state == if rootPort == Some(k) || Designated(ports[k], id) then Listening else Blocking
      ensures forall k :: 0 <= k < |ports| && ports[k].stp && ports[k].state == Blocking ==>
        rootPort != Some(k) && !Designated(ports[k], id)
    {
      StatesFollow(ports, rootPort, id);
      var k := 0;
      while k < |ports|
        invariant 0 <= k <= |ports|
        invariant SameInfos(old(ports), ports) && TcnKept() && ChangeKept()
        invariant forall j :: 0 <= j < |ports| ==> DelayOk(ports[j])
        invariant forall j :: 0 <= j < k ==> PortOk(ports[j], j, rootPort, id)
        invariant forall j :: 0 <= j < |ports| ==>
          ports[j].state == if j < k then NextState(old(ports[j]), rootPort == Some(j), id) else old(ports[j]).state
        invariant forall j :: k <= j < |ports| ==> ports[j] == old(ports[j])
      {
        if ports[k].stp {
          SelectState(k);
        }
        k := k + 1;
      }
    }

    method SelectState(k: nat)
      requires RootOk(rootPort, root, id, |ports|) && k < |ports| && DelayOk(ports[k])
      modifies `ports, `change, `changeTimer, `tcnTimer, `detected, `failed
      ensures |ports| == |old(ports)| && SameInfo(old(ports[k]), ports[k]) && TcnKept() && ChangeKept()
      ensures PortOk(ports[k], k, rootPort, id)
      ensures old(ports[k]).stp ==> ports[k].state == NextState(old(ports[k]), rootPort == Some(k), id)
      ensures forall j :: 0 <= j < |ports| && j != k ==> ports[j] == old(ports[j])
    {
      var p := ports[k];
      if rootPort == Some(k) || Designated(p, id) {
        if rootPort == Some(k) {
          p := p.(pending := false, ack := false);
        } else {
          p := p.(age := OFF);
        }
        if p.state == Blocking {
          p := p.(state := Listening, delay := Start(0));
        }
      } else {
        p := p.(pending := false, ack := false);
        if Open(p.state) {
          if p.state != Listening && p.detect {
            TopologyChangeDetection();
          }
          p := p.(state := Blocking, delay := OFF);
        }
      }
      ports := ports[k := p];
    }

    /** Update the configuration and then the port states. */
    method Reconfigure()
      requires forall k :: 0 <= k < |ports| ==> DelayOk(ports[k])
      requires PathsCost(ports) || !careful
      modifies `rootPort, `root, `rootCost, `ports, `change, `changeTimer, `tcnTimer, `detected, `failed
      ensures RootOk(rootPort, root, id, |ports|) && |ports| == |old(ports)| && Shows(old(ports))
      ensures forall k :: 0 <= k < |ports| ==> PortOk(ports[k], k, rootPort, id)
      ensures forall k :: 0 <= k < |ports| ==> Kept(old(ports[k]), ports[k])
      ensures forall k :: 0 <= k < |ports| && Candidate(old(ports[k]), id) ==> rootPort.Some?
      ensures TcnKept() && ChangeKept()
      ensures (forall k :: 0 <= k < |ports| ==> !Candidate(old(ports[k]), id)) ==>
        rootPort.None? && forall k :: 0 <= k < |ports| ==> !Candidate(ports[k], id)
      ensures careful ==> PathsCost(ports) && (rootPort.Some? ==> Candidate(ports[rootPort.value], id))
    {
      UpdateStates(ports, id);
      ConfigurationUpdate();
      ghost var updated := ports;
      PortStateSelection();
      UpdatedNow(old(ports), id, root, rootPort, rootCost, updated, ports);
      Reconfigured(old(ports), ports, id, careful);
    }

    // ----- sending

    /** The information from the root is young enough to be passed on. */
    ghost predicate Young()
      requires RootOk(rootPort, root, id, |ports|)
      reads this
    {
      Age() < times.maxAge
    }

    /** The age of that information when it is passed on. */
    ghost function Age(): nat
      requires RootOk(rootPort, root, id, |ports|)
      reads this
    {
      if root == id then 0 else Later(ports[rootPort.value].age.value, AGE_STEP)
    }

    /** This bridge's view as it is announced on a port. */
    ghost function Announcement(p: Port): Config
      requires RootOk(rootPort, root, id, |ports|)
      reads this
    {
      Config(root, rootCost, id, p.id, Age(), times.maxAge, times.hello, times.delay, change, p.ack)
    }

    /** Announce this bridge's view on port k, unless it did so a moment ago. */
    method TransmitConfig(k: nat) returns (sent: Option<Config>)
      requires RootOk(rootPort, root, id, |ports|) && k < |ports|
      modifies `ports
      ensures |ports| == |old(ports)| && SendingOnly(old(ports[k]), ports[k])
      ensures forall j :: 0 <= j < |ports| && j != k ==> ports[j] == old(ports[j])
      ensures sent == if old(Young()) && !old(ports[k]).hold.active then Some(old(Announcement(ports[k]))) else None
      ensures var age := if root == id then 0 else old(Later(ports[rootPort.value].age.value, AGE_STEP));
        sent.Some? <==> !old(ports[k].hold.active) && age < times.maxAge
      ensures sent.Some? ==>
        && sent.value.root == root && sent.value.cost == rootCost && sent.value.bridge == id && sent.value.port == ports[k].id
        && (root == id ==> sent.value.age == 0)
        && (root != id ==> sent.value.age == old(Later(ports[rootPort.value].age.value, AGE_STEP)))
        && !ports[k].pending && !ports[k].ack && ports[k].hold == Start(0) && sent.value.ack == old(ports[k].ack)
      ensures sent.None? ==> ports[k] == old(ports[k]).(pending := old(ports[k].pending || ports[k].hold.active))
      ensures ports[k] == Announced(old(ports[k]), old(Young()))
    {
      var p := ports[k];
      sent := None;
      if p.hold.active {
        ports := ports[k := p.(pending := true)];
        return;
      }
      var age := if root == id then 0 else Later(ports[rootPort.value].age.value, AGE_STEP);
      if age < times.maxAge {
        ports := ports[k := p.(ack := false, pending := false, hold := Start(0))];
        sent := Some(Config(root, rootCost, id, p.id, age, times.maxAge, times.hello, times.delay, change, p.ack));
      }
    }

    method ConfigGeneration()
      requires RootOk(rootPort, root, id, |ports|)
      modifies `ports
      ensures |ports| == |old(ports)| && forall k :: 0 <= k < |ports| ==> SendingOnly(old(ports[k]), ports[k])
      ensures forall k :: 0 <= k < |ports| ==>
        ports[k] == if Announces(old(ports[k]), id) then Announced(old(ports[k]), old(Young())) else old(ports[k])
    {
      var k := 0;
      while k < |ports|
        invariant 0 <= k <= |ports| == |old(ports)|
        invariant forall j :: 0 <= j < |ports| ==> SendingOnly(old(ports[j]), ports[j])
        invariant RootOk(rootPort, root, id, |ports|) && (Young() <==> old(Young()))
        invariant forall j :: k <= j < |ports| ==> ports[j] == old(ports[j])
        invariant forall j :: 0 <= j < k ==>
          ports[j] == if Announces(old(ports[j]), id) then Announced(old(ports[j]), old(Young())) else old(ports[j])
      {
        if ports[k].stp && Designated(ports[k], id) && ports[k].state != Disabled {
          var sent := TransmitConfig(k);
        }
        k := k + 1;
      }
    }

    // ----- messages

    method ReceivedConfig(k: nat, c: Config)
      requires Valid() && k < |ports| && ports[k].stp
      modifies this
      ensures Valid() && |ports| == |old(ports)| && id == old(id)
      ensures careful <==> old(careful) && !Echo(old(ports[k]), id, c)
      ensures failed ==> old(failed)
      ensures var p, v := old(ports[k]), [c.root, c.cost, c.bridge];
        if p.state != Disabled && (Less(v, Vector(p)) || (v == Vector(p) && (c.bridge != id || c.port <= p.port))) then
          && Shows(old(ports)[k := p.(root := c.root, cost := c.cost, bridge := c.bridge, port := c.port, age := Start(c.age))])
          && (rootPort == Some(k) ==> times == Times(c.maxAge, c.hello, c.delay))
        else
          SameInfos(old(ports), ports) && root == old(root) && rootPort == old(rootPort) && times == old(times)
      ensures NoneWorse(old(ports), ports, id)
      ensures root != id && old(root == id && detected && ports[k].state != Disabled && Supersedes(ports[k], id, c)) && !c.ack ==>
        tcnTimer == Start(0)
      ensures !c.ack && old(tcnTimer.active) ==> tcnTimer == old(tcnTimer) || tcnTimer == Start(0)
    {
      SupersedesLess(ports[k], id, c);
      SameNoneWorse(ports, ports, id);
      if Echo(ports[k], id, c) {
        careful := false;
      }
      if ports[k].state == Disabled {
        return;
      }
      if Supersedes(ports[k], id, c) {
        Record(k, c);
        RecordedNoneWorse(old(ports), k, c, id, root, rootPort, rootCost, ports);
      } else {
        Answer(k);
        SameNoneWorse(old(ports), ports, id);
      }
    }

    /** A stretch of messages, with the ports as they were before it and after each of
        them: while the bridge does not take a port over, what the port has heard only
        gets better. */
    method Hear(messages: seq<(nat, Config)>) returns (ghost trace: seq<seq<Port>>)
      requires Valid() && forall i :: 0 <= i < |messages| ==> messages[i].0 < |ports| && ports[messages[i].0].stp
      modifies this
      ensures Valid() && id == old(id) && |trace| == |messages| + 1 && trace[0] == old(ports) && trace[|messages|] == ports
      ensures Improves(trace, id)
      ensures forall m, n, j :: 0 <= m <= n < |trace| && 0 <= j < |ports| && Untaken(trace, m, n, j, id) ==>
        |trace[m]| == |trace[n]| == |ports| && !Less(Vector(trace[m][j]), Vector(trace[n][j]))
    {
      trace := [ports];
      var n := 0;
      while n < |messages|
        invariant 0 <= n <= |messages| && Valid() && id == old(id) && |trace| == n + 1
        invariant trace[0] == old(ports) && trace[n] == ports && Improves(trace, id)
        invariant forall i :: 0 <= i < |messages| ==> messages[i].0 < |ports| && ports[messages[i].0].stp
      {
        ReceivedConfig(messages[n].0, messages[n].1);
        trace := trace + [ports];
        n := n + 1;
      }
      SameLengths(trace, id, n);
      forall m, n, j | 0 <= m <= n < |trace| && 0 <= j < |ports| && Untaken(trace, m, n, j, id)
        ensures |trace[m]| == |trace[n]| == |ports| && !Less(Vector(trace[m][j]), Vector(trace[n][j]))
      {
        OnlyBetter(trace, id, m, n, j);
      }
    }

    /** A designated port answers with what it knows. */
    method Answer(k: nat)
      requires Valid() && k < |ports|
      modifies `ports
      ensures Valid() && SameInfos(old(ports), ports)
    {
      if Designated(ports[k], id) {
        var sent := TransmitConfig(k);
      }
    }

    /** Take over better information and act on it. */
    method Record(k: nat, c: Config)
      requires Valid() && k < |ports| && ports[k].stp && ports[k].state != Disabled && Supersedes(ports[k], id, c)
      requires careful ==> !Echo(ports[k], id, c)
      modifies this
      ensures Valid() && |ports| == |old(ports)| && id == old(id) && careful == old(careful)
      ensures failed ==> old(failed)
      ensures Shows(old(ports)[k := Recorded(old(ports[k]), c)])
      ensures rootPort == Some(k) ==> times == Times(c.maxAge, c.hello, c.delay)
      ensures !c.ack && root != id && old(root == id && detected) ==> tcnTimer == Start(0)
      ensures !c.ack && old(tcnTimer.active) ==> tcnTimer == old(tcnTimer) || tcnTimer == Start(0)
    {
      var wasRoot := root == id;
      TakeOver(k, c);
      ghost var after := ports;
      Follow(k, c, wasRoot);
      UpdatedThen(old(ports)[k := Recorded(old(ports[k]), c)], id, root, rootPort, rootCost, after, ports);
    }

    method TakeOver(k: nat, c: Config)
      requires Valid() && k < |ports| && ports[k].stp && ports[k].state != Disabled && Supersedes(ports[k], id, c)
      requires careful ==> !Echo(ports[k], id, c)
      modifies `rootPort, `root, `rootCost, `ports, `change, `changeTimer, `tcnTimer, `detected, `failed
      ensures Valid() && |ports| == |old(ports)| && failed == old(failed) && ChangeKept()
      ensures Shows(old(ports)[k := Recorded(old(ports[k]), c)])
    {
      Store(k, c);
      Reconfigure();
    }

    method Store(k: nat, c: Config)
      requires Valid() && k < |ports| && ports[k].stp && ports[k].state != Disabled && Supersedes(ports[k], id, c)
      requires careful ==> !Echo(ports[k], id, c)
      modifies `ports
      ensures ports == old(ports)[k := Recorded(old(ports[k]), c)]
      ensures (forall j :: 0 <= j < |ports| ==> DelayOk(ports[j])) && (careful ==> PathsCost(ports))
      ensures careful && rootPort.Some? ==> rootPort.value < |ports| && Candidate(ports[rootPort.value], id)
    {
      ports := ports[k := Recorded(ports[k], c)];
    }

    /** React to the change: as a former root, and as a follower of the root port. */
    method Follow(k: nat, c: Config, wasRoot: bool)
      requires RootOk(rootPort, root, id, |ports|) && forall j :: 0 <= j < |ports| ==> PortOk(ports[j], j, rootPort, id)
      requires careful ==> Careful()
      modifies `helloTimer, `changeTimer, `tcnTimer, `failed, `times, `change, `ports, `detected
      ensures Valid() && |ports| == |old(ports)| && failed == old(failed) && SameInfos(old(ports), ports)
      ensures rootPort == Some(k) ==> times == Times(c.maxAge, c.hello, c.delay)
      ensures !c.ack && root != id && wasRoot && old(detected) ==> tcnTimer == Start(0)
      ensures !c.ack && old(tcnTimer.active) ==> tcnTimer == old(tcnTimer) || tcnTimer == Start(0)
    {
      if root != id && wasRoot {
        LoseRoot();
      }
      if rootPort == Some(k) {
        FollowRoot(c);
      }
    }

    /** The bridge was the root and no longer is. */
    method LoseRoot()
      requires rootPort.Some?
      modifies `helloTimer, `changeTimer, `tcnTimer, `failed
      ensures failed == old(failed) && helloTimer == OFF
      ensures tcnTimer == if detected then Start(0) else old(tcnTimer)
    {
      helloTimer := OFF;
      if detected {
        changeTimer := OFF;
        TransmitTcn();
        tcnTimer := Start(0);
      }
    }

    /** A message on the root port sets the times, and is passed on. */
    method FollowRoot(c: Config)
      requires RootOk(rootPort, root, id, |ports|)
      modifies `times, `change, `ports, `detected, `tcnTimer
      ensures |ports| == |old(ports)| && forall k :: 0 <= k < |ports| ==> SendingOnly(old(ports[k]), ports[k])
      ensures tcnTimer == if c.ack then OFF else old(tcnTimer)
      ensures times == Times(c.maxAge, c.hello, c.delay) && change == c.change
    {
      times := Times(c.maxAge, c.hello, c.delay);
      change := c.change;
      ConfigGeneration();
      if c.ack {
        detected := false;
        tcnTimer := OFF;
      }
    }

    method ReceivedTcn(k: nat)
      requires Valid() && k < |ports| && ports[k].stp
      modifies this
      ensures Valid() && |ports| == |old(ports)| && id == old(id) && careful == old(careful) && failed == old(failed)
      ensures SameInfos(old(ports), ports) && root == old(root) && rootPort == old(rootPort)
      ensures old(ports[k]).state != Disabled && Designated(old(ports[k]), id) ==>
        detected && if root == id then change && changeTimer == Start(0) else (old(detected) || tcnTimer == Start(0))
    {
      if ports[k].state != Disabled && Designated(ports[k], id) {
        TopologyChangeDetection();
        ports := ports[k := ports[k].(ack := true)];
        var sent := TransmitConfig(k);
      }
    }

    // ----- management

    /** The bridge has become the root, if it was not before. */
    method BecomeRoot(wasRoot: bool)
      requires RootOk(rootPort, root, id, |ports|)
      modifies `times, `ports, `change, `changeTimer, `tcnTimer, `detected, `failed, `helloTimer
      ensures |ports| == |old(ports)| && forall k :: 0 <= k < |ports| ==> SendingOnly(old(ports[k]), ports[k])
      ensures failed == old(failed)
      ensures tcnTimer == if root == id && !wasRoot then OFF else old(tcnTimer)
    {
      if root == id && !wasRoot {
        times := own;
        TopologyChangeDetection();
        tcnTimer := OFF;
        ConfigGeneration();
        helloTimer := Start(0);
      }
    }

    method EnablePort(k: nat)
      requires Usable() && k < |ports|
      modifies this
      ensures Valid() && |ports| == |old(ports)| && id == old(id) && failed == old(failed)
      ensures careful <==> old(careful) && (old(ports[k]).state == Disabled || rootPort != Some(k))
      ensures old(ports[k]).stp ==> ports[k].state == Listening && Designated(ports[k], id)
      ensures root == old(root) && rootPort == old(rootPort) && rootCost == old(rootCost)
      ensures SamePort(ports[k], old(ports[k])) && Heard(ports[k]) == Own(ports[k], root, rootCost, id)
      ensures forall j :: 0 <= j < |ports| && j != k ==> SameInfo(old(ports[j]), ports[j])
    {
      InitializePort(k);
      SettleStates();
    }

    method InitializePort(k: nat)
      requires Usable() && k < |ports|
      modifies `ports, `careful
      ensures Usable() && ports == old(ports)[k := Initial(old(ports[k]), root, rootCost, id)]
      ensures careful <==> old(careful) && (old(ports[k]).state == Disabled || rootPort != Some(k))
    {
      if rootPort == Some(k) && ports[k].state != Disabled {
        careful := false;
      }
      ports := ports[k := Initial(ports[k], root, rootCost, id)];
    }

    /** Port states follow the roles, and nothing else changes. */
    method SettleStates()
      requires Usable()
      modifies `ports, `change, `changeTimer, `tcnTimer, `detected, `failed
      ensures Valid() && failed == old(failed) && SameInfos(old(ports), ports)
      ensures forall k :: 0 <= k < |ports| ==> ports[k].state == NextState(old(ports[k]), rootPort == Some(k), id)
    {
      PortStateSelection();
      if careful && rootPort.Some? {
        CandidateInfo(old(ports[rootPort.value]), ports[rootPort.value], id);
      }
    }

    /** Change a port, or the bridge's own identity, and adapt. */
    method Adapt(wasRoot: bool)
      requires forall k :: 0 <= k < |ports| ==> DelayOk(ports[k])
      requires careful ==> !failed && PathsCost(ports) && (wasRoot ==> !tcnTimer.active)
      modifies `rootPort, `root, `rootCost, `ports, `change, `changeTimer, `tcnTimer, `detected, `failed, `times, `helloTimer
      ensures Valid() && failed == old(failed) && |ports| == |old(ports)| && Shows(old(ports))
      ensures forall k :: 0 <= k < |ports| ==> Kept(old(ports[k]), ports[k])
      ensures (forall k :: 0 <= k < |ports| ==> !Candidate(old(ports[k]), id)) ==>
        rootPort.None? && forall k :: 0 <= k < |ports| ==> !Candidate(ports[k], id)
    {
      Reconfigure();
      ghost var after := ports;
      BecomeRoot(wasRoot);
      UpdatedThen(old(ports), id, root, rootPort, rootCost, after, ports);
    }

    method DisablePort(k: nat)
      requires Usable() && k < |ports|
      modifies this
      ensures Valid() && |ports| == |old(ports)| && id == old(id) && careful == old(careful) && failed == old(failed)
      ensures ports[k].state == Disabled && Shows(old(ports)[k := Off(old(ports[k]), old(root), old(rootCost), id)])
      ensures SamePort(ports[k], old(ports[k]))
      ensures forall j :: 0 <= j < |ports| && j != k ==> Kept(old(ports[j]), ports[j])
      ensures (forall j :: 0 <= j < |ports| ==> !Candidate(old(ports[j]), id)) ==>
        rootPort.None? && forall j :: 0 <= j < |ports| ==> !Candidate(ports[j], id)
    {
      var wasRoot := root == id;
      ports := ports[k := Off(ports[k], root, rootCost, id)];
      Adapt(wasRoot);
    }

    method SetBridgeId(new_: nat)
      requires Valid()
      modifies this
      ensures Valid() && |ports| == |old(ports)| && id == new_ && careful == old(careful) && failed == old(failed)
      ensures Shows(Renamed(old(ports), old(id), new_))
    {
      var wasRoot := root == id;
      var k := 0;
      while k < |ports|
        invariant 0 <= k <= |ports| == |old(ports)|
        invariant forall j :: 0 <= j < |ports| ==> ports[j] == if j < k then Rename(old(ports[j]), id, new_) else old(ports[j])
        modifies `ports
      {
        if ports[k].stp && Designated(ports[k], id) {
          ports := ports[k := ports[k].(bridge := new_)];
        }
        k := k + 1;
      }
      assert ports == Renamed(old(ports), id, new_);
      id := new_;
      Adapt(wasRoot);
    }

    method SetPathCost(k: nat, pathCost: nat)
      requires Valid() && k < |ports|
      modifies this
      ensures Valid() && |ports| == |old(ports)| && id == old(id) && failed == old(failed)
      ensures careful <==> old(careful) && pathCost >= 1
      ensures Shows(old(ports)[k := old(ports[k]).(pathCost := pathCost)]) && ChangeKept()
    {
      if pathCost == 0 {
        careful := false;
      }
      ports := ports[k := ports[k].(pathCost := pathCost)];
      assert careful && old(rootPort.Some?) ==> Candidate(ports[old(rootPort.value)], id);
      Reconfigure();
    }

    // ----- timers

    method MessageAgeExpiry(k: nat)
      requires Valid() && k < |ports|
      modifies this
      ensures Valid() && |ports| == |old(ports)| && id == old(id) && careful == old(careful) && failed == old(failed)
      ensures Shows(old(ports)[k := Become(old(ports[k]), old(root), old(rootCost), id)])
      ensures forall j :: 0 <= j < |ports| ==> Kept(old(ports[j]), ports[j])
    {
      var wasRoot := root == id;
      ports := ports[k := Become(ports[k], root, rootCost, id)];
      Adapt(wasRoot);
    }

    /** One tick of a port's message-age timer: what the port heard is given up when,
        and only when, it runs out. */
    method AgeTick(k: nat)
      requires Valid() && k < |ports|
      modifies this
      ensures Valid() && |ports| == |old(ports)| && id == old(id) && careful == old(careful) && failed == old(failed)
      ensures forall j :: 0 <= j < |ports| ==> Kept(old(ports[j]), ports[j])
      ensures var t := old(ports[k]).age;
        if t.active && Later(t.value, TICK) >= old(times).maxAge then
          Shows(old(ports)[k := Become(old(ports[k]).(age := OFF), old(root), old(rootCost), id)])
        else SameInfos(old(ports), ports) && root == old(root) && rootPort == old(rootPort)
    {
      var t, expired := Advance(ports[k].age, times.maxAge);
      ghost var p := ports[k].(age := OFF);
      ports := ports[k := ports[k].(age := t)];
      if expired {
        assert old(ports)[k := p][k := Become(p, root, rootCost, id)] == old(ports)[k := Become(p, root, rootCost, id)];
        MessageAgeExpiry(k);
      }
    }

    /** One tick of a port's forward-delay timer: from listening to learning to
        forwarding, a step each time it runs out. */
    method DelayTick(k: nat)
      requires Valid() && k < |ports|
      modifies this
      ensures Valid() && |ports| == |old(ports)| && id == old(id) && careful == old(careful) && failed == old(failed)
      ensures forall j :: 0 <= j < |ports| && j != k ==> ports[j] == old(ports[j])
      ensures var p := old(ports[k]);
        var due := p.delay.active && Later(p.delay.value, TICK) >= old(times).delay;
        ports[k] == p.(delay := ports[k].delay, state := if !due then p.state else if p.state == Listening then Learning else Forwarding)
    {
      var t, expired := Advance(ports[k].delay, times.delay);
      var p := ports[k];
      if !expired {
        ports := ports[k := p.(delay := t)];
      } else if p.state == Listening {
        ports := ports[k := p.(state := Learning, delay := Start(0))];
      } else {
        ports := ports[k := p.(state := Forwarding, delay := t)];
        if p.detect && DesignatedForSome() {
          TopologyChangeDetection();
        }
      }
    }

    predicate DesignatedForSome()
      reads this
    {
      exists k :: 0 <= k < |ports| && ports[k].stp && ports[k].bridge == id
    }

    method HoldTick(k: nat)
      requires Valid() && k < |ports|
      modifies `ports
      ensures Valid() && |ports| == |old(ports)|
      ensures forall j :: 0 <= j < |ports| && j != k ==> ports[j] == old(ports[j])
      ensures var p := old(ports[k]);
        var due := p.hold.active && Later(p.hold.value, TICK) >= holdTime;
        if due && p.pending then ports[k] == Announced(p.(hold := OFF), old(Young()))
        else ports[k] == p.(hold := ports[k].hold) && (due ==> !ports[k].hold.active)
    {
      var t, expired := Advance(ports[k].hold, holdTime);
      ports := ports[k := ports[k].(hold := t)];
      if expired && ports[k].pending {
        var sent := TransmitConfig(k);
      }
    }

    method HelloTick()
      requires Valid()
      modifies `helloTimer, `ports
      ensures Valid() && |ports| == |old(ports)| && helloTimer.active == old(helloTimer.active)
      ensures var due := old(helloTimer.active && Later(helloTimer.value, TICK) >= times.hello);
        forall k :: 0 <= k < |ports| ==>
          ports[k] == if due && Announces(old(ports[k]), id) then Announced(old(ports[k]), old(Young())) else old(ports[k])
    {
      var t, expired := Advance(helloTimer, times.hello);
      helloTimer := t;
      if expired {
        ConfigGeneration();
        helloTimer := Start(0);
      }
    }

    method TcnTick()
      requires Valid()
      modifies `tcnTimer, `failed
      ensures Valid()
      ensures tcnTimer.active == old(tcnTimer.active)
      ensures failed <==> old(failed || (tcnTimer.active && Later(tcnTimer.value, TICK) >= own.hello && rootPort.None?))
    {
      var t, expired := Advance(tcnTimer, own.hello);
      tcnTimer := t;
      if expired {
        TransmitTcn();
        tcnTimer := Start(0);
      }
    }

    method ChangeTick()
      requires Valid()
      modifies `changeTimer, `detected, `change
      ensures Valid()
      ensures var due := old(changeTimer.active && Later(changeTimer.value, TICK) >= changeTime);
        detected == (old(detected) && !due) && change == (old(change) && !due)
    {
      var t, expired := Advance(changeTimer, changeTime);
      changeTimer := t;
      if expired {
        detected, change := false, false;
      }
    }

    /** Follow the state of the links: then exactly the ports with a link are enabled. */
    method Links(up: seq<bool>)
      requires Valid() && |up| == |ports|
      modifies this
      ensures Valid() && |ports| == |old(ports)| && id == old(id) && careful == old(careful) && failed == old(failed)
      ensures forall k :: 0 <= k < |ports| && ports[k].stp ==> (ports[k].state == Disabled <==> !up[k])
      ensures LinksSteady(old(ports), up) ==> ports == old(ports) && rootPort == old(rootPort) && tcnTimer == old(tcnTimer)
    {
      var k := 0;
      while k < |ports|
        invariant 0 <= k <= |ports| == |old(ports)|
        invariant Valid() && id == old(id) && careful == old(careful) && failed == old(failed)
        invariant forall j :: 0 <= j < k && ports[j].stp ==> (ports[j].state == Disabled <==> !up[j])
        invariant LinksSteady(old(ports), up) ==> ports == old(ports) && rootPort == old(rootPort) && tcnTimer == old(tcnTimer)
      {
        if ports[k].stp {
          if up[k] && ports[k].state == Disabled {
            EnablePort(k);
          } else if !up[k] && ports[k].state != Disabled {
            DisablePort(k);
          }
        }
        k := k + 1;
      }
    }

    /** One clock tick. While careful, every notification had a root port to go to. */
    method Tick(up: seq<bool>)
      requires Valid() && |up| == |ports|
      modifies this
      ensures Valid() && |ports| == |old(ports)| && id == old(id) && careful == old(careful)
      ensures careful ==> !failed
      ensures LinksSteady(old(ports), up) ==>
        (failed <==> old(failed || (tcnTimer.active && Later(tcnTimer.value, TICK) >= own.hello && rootPort.None?)))
    {
      Links(up);
      HelloTick();
      TcnTick();
      ChangeTick();
      PortTimers();
    }

    method PortTimers()
      requires Valid()
      modifies this
      ensures Valid() && |ports| == |old(ports)| && id == old(id) && careful == old(careful) && failed == old(failed)
    {
      var k := 0;
      while k < |ports|
        invariant 0 <= k <= |ports| == |old(ports)|
        invariant Valid() && id == old(id) && careful == old(careful) && failed == old(failed)
      {
        if ports[k].stp {
          AgeTick(k);
        }
        k := k + 1;
      }
      k := 0;
      while k < |ports|
        invariant 0 <= k <= |ports| == |old(ports)|
        invariant Valid() && id == old(id) && careful == old(careful) && failed == old(failed)
      {
        if ports[k].stp {
          DelayTick(k);
          HoldTick(k);
        }
        k := k + 1;
      }
    }

    // ----- initialization

    /** From ports that are all disabled: every port is enabled or kept out, and the
        bridge takes itself for the root. */
    constructor (bridgeId: nat, members: seq<Port>, ownTimes: Times, forChange: nat, forHold: nat)
      requires forall k :: 0 <= k < |members| ==> members[k].state == Disabled && !members[k].delay.active
      ensures Valid() && !failed && (careful <==> PathsCost(members))
      ensures id == bridgeId && root == id && rootPort.None? && |ports| == |members|
      ensures own == ownTimes && changeTime == forChange && holdTime == forHold
      ensures Begun(members, ports, |ports|)
      ensures Joined(members, ports, |ports|, id)
    {
      id, root, rootPort, rootCost := bridgeId, bridgeId, None, 0;
      ports := members;
      own, times, changeTime, holdTime := ownTimes, ownTimes, forChange, forHold;
      change, detected, failed := false, false, false;
      helloTimer, changeTimer, tcnTimer := OFF, OFF, OFF;
      careful := PathsCost(members);
      new;
      Restart(bridgeId);
    }

    /** Start under an identity, whatever the ports were doing: the bridge takes itself
        for the root if no member without the protocol comes before a port that still
        has information of a better root. */
    method Restart(new_: nat)
      requires Usable()
      modifies this
      ensures Valid() && |ports| == |old(ports)| && id == new_ && failed == old(failed)
      ensures Begun(old(ports), ports, |ports|)
      ensures NoneBehind(old(ports), new_) ==>
        root == id && rootPort.None? && careful == old(careful) && Joined(old(ports), ports, |ports|, id)
      ensures Keeps(old(ports), new_) ==> var r := Behind(old(ports), new_); rootPort == r && root == old(ports)[r.value].root < id
      ensures OnlyOne(old(ports)) ==> (root == id <==> NoneBehind(old(ports), new_))
    {
      ClearView(new_);
      ghost var cleared := Seen();
      StartPorts();
      ghost var started := Seen();
      FinishStart();
      StartedLast(cleared, started, ports, id);
      OneIff(old(ports), id, root);
    }

    /** Forget the view of the tree. */
    method ClearView(new_: nat)
      requires Usable()
      modifies `id, `root, `rootPort, `rootCost, `times, `change, `detected, `changeTimer, `tcnTimer
      ensures Usable() && id == new_ && root == id && rootPort.None? && rootCost == 0
    {
      id, root, rootPort, rootCost := new_, new_, None, 0;
      times := own;
      change, detected := false, false;
      changeTimer, tcnTimer := OFF, OFF;
    }

    method StartPorts()
      requires Usable() && root == id && rootPort.None? && rootCost == 0
      modifies this
      ensures Usable() && |ports| == |old(ports)| && id == old(id) && failed == old(failed)
      ensures Started(old(Seen()), Seen(), |ports|, id)
    {
      var k := 0;
      ghost var v := Seen();
      StartedFirst(v, id);
      while k < |ports|
        invariant 0 <= k <= |ports| == |v.ports|
        invariant Usable() && id == old(id) && failed == old(failed) && Started(v, Seen(), k, id)
      {
        StartNext(k, v);
        k := k + 1;
      }
    }

    method StartNext(k: nat, ghost v: View)
      requires Usable() && k < |ports| == |v.ports| && Started(v, Seen(), k, id)
      modifies this
      ensures Usable() && |ports| == |old(ports)| && id == old(id) && failed == old(failed)
      ensures Started(v, Seen(), k + 1, id)
    {
      ghost var before := Seen();
      StartPort(k);
      StartedNext(v, before, Seen(), k, id);
    }

    ghost function Seen(): View
      reads this
    {
      View(ports, root, rootPort, rootCost, careful)
    }

    /** One member joins the protocol or is kept out. */
    method StartPort(k: nat)
      requires Usable() && k < |ports|
      modifies this
      ensures Usable() && Valid() && |ports| == |old(ports)| && id == old(id) && failed == old(failed)
      ensures Step(old(Seen()), Seen(), k, id)
    {
      if ports[k].stp {
        EnablePort(k);
      } else {
        DisablePort(k);
      }
      assert StepIs(old(Seen()), Seen(), k, id);
    }

    /** Settle the states and announce. */
    method FinishStart()
      requires Usable()
      modifies `ports, `change, `changeTimer, `tcnTimer, `detected, `failed, `helloTimer
      ensures Valid() && failed == old(failed) && SameInfos(old(ports), ports)
    {
      SettleStates();
      ConfigGeneration();
      helloTimer := Start(0);
    }
  }

  /** No member without the protocol comes before a port that leads to a better root. */
  ghost predicate NoneBehind(ports: seq<Port>, id: nat) {
    forall k, j :: 0 <= k < j < |ports| && !ports[k].stp ==> !Candidate(ports[j], id)
  }

  /** What a bridge has seen of the tree. */
  datatype View = View(ports: seq<Port>, root: nat, rootPort: Option<nat>, cost: nat, careful: bool)

  /** Member k joins the protocol, which changes nothing else, or is kept out, which
      updates the configuration. */
  ghost predicate StepIs(v: View, v': View, k: nat, id: nat)
    requires k < |v.ports|
  {
    && |v'.ports| == |v.ports| && (forall j :: 0 <= j < |v.ports| ==> SamePort(v'.ports[j], v.ports[j]))
    && (forall j :: 0 <= j < |v.ports| && j != k ==> (v'.ports[j].state == Disabled <==> v.ports[j].state == Disabled))
    && if v.ports[k].stp then Enabled(v, v', k, id) else KeptOut(v, v', k, id)
  }

  ghost predicate Enabled(v: View, v': View, k: nat, id: nat)
    requires k < |v.ports| == |v'.ports|
  {
    && v'.ports[k].state != Disabled && Designated(v'.ports[k], id)
    && v'.root == v.root && v'.rootPort == v.rootPort && v'.cost == v.cost
    && Heard(v'.ports[k]) == Own(v'.ports[k], v.root, v.cost, id)
    && (forall j :: 0 <= j < |v.ports| && j != k ==> SameInfo(v.ports[j], v'.ports[j]))
    && (v'.careful <==> v.careful && (v.ports[k].state == Disabled || v.rootPort != Some(k)))
  }

  ghost predicate KeptOut(v: View, v': View, k: nat, id: nat)
    requires k < |v.ports| == |v'.ports|
  {
    && v'.careful == v.careful
    && Updated(v.ports[k := Off(v.ports[k], v.root, v.cost, id)], id, v'.root, v'.rootPort, v'.cost, v'.ports)
    && ((forall j :: 0 <= j < |v.ports| ==> !Candidate(v.ports[j], id)) ==>
          v'.rootPort.None? && forall j :: 0 <= j < |v.ports| ==> !Candidate(v'.ports[j], id))
  }

  ghost predicate Step(v: View, v': View, k: nat, id: nat) {
    k < |v.ports| && forall n {:trigger Inside(n)} :: Inside(n) ==> StepIs(v, v', k, id)
  }

  /** Without a member that comes before a port to a better root the bridge stays root. */
  ghost predicate StaysRoot(v0: View, v: View, k: nat, id: nat) {
    NoneBehind(v0.ports, id) ==>
      && v.rootPort.None? && v.cost == 0 && v.careful == v0.careful && v.root == id
      && Leftover(v0.ports, v.ports, k, id) && Joined(v0.ports, v.ports, k, id)
  }

  ghost predicate KeepsRoot(v0: View, v: View, k: nat, id: nat) {
    Keeps(v0.ports, id) ==> Stays(v0.ports, v.ports, k, id, v.root, v.rootPort)
  }

  /** How the first k members have started, whatever was there before. */
  ghost predicate Started(v0: View, v: View, k: nat, id: nat) {
    forall n {:trigger Inside(n)} :: Inside(n) ==>
      Begun(v0.ports, v.ports, k) && StaysRoot(v0, v, k, id) && KeepsRoot(v0, v, k, id)
  }

  lemma StartedFirst(v: View, id: nat)
    requires v.rootPort.None? && v.cost == 0 && v.root == id
    ensures Started(v, v, 0, id)
  {
  }

  lemma StartedNext(v0: View, v: View, v': View, k: nat, id: nat)
    requires Started(v0, v, k, id) && Step(v, v', k, id) && |v.ports| == |v0.ports|
    ensures Started(v0, v', k + 1, id)
  {
    BegunNext(v0, v, v', k, id);
    RootNext(v0, v, v', k, id);
    KeptNext(v0, v, v', k, id);
  }

  lemma BegunNext(v0: View, v: View, v': View, k: nat, id: nat)
    requires Started(v0, v, k, id) && Step(v, v', k, id) && |v.ports| == |v0.ports|
    ensures Begun(v0.ports, v'.ports, k + 1)
  {
    assert Inside(0);
    assert v.ports[k].stp == v0.ports[k].stp;
  }

  lemma RootNext(v0: View, v: View, v': View, k: nat, id: nat)
    requires Started(v0, v, k, id) && Step(v, v', k, id) && |v.ports| == |v0.ports|
    ensures StaysRoot(v0, v', k + 1, id)
  {
    assert Inside(0);
    assert v.ports[k].stp == v0.ports[k].stp;
    if NoneBehind(v0.ports, id) {
      LeftoverNext(v0.ports, v.ports, v'.ports, k, id);
      if v.ports[k].stp {
        JoinedNext(v0.ports, v.ports, v'.ports, k, id);
      } else {
        JoinedStill(v0.ports, v.ports, v'.ports, k, id, Off(v.ports[k], v.root, v.cost, id), v'.root, v'.rootPort, v'.cost);
      }
    }
  }

  lemma KeptNext(v0: View, v: View, v': View, k: nat, id: nat)
    requires Started(v0, v, k, id) && Step(v, v', k, id) && |v.ports| == |v0.ports|
    ensures KeepsRoot(v0, v', k + 1, id)
  {
    assert Inside(0);
    assert v.ports[k].stp == v0.ports[k].stp;
    if Keeps(v0.ports, id) {
      if v.ports[k].stp {
        StaysEnabled(v0.ports, v.ports, v'.ports, k, id, v.root, v.rootPort);
      } else {
        StaysUpdated(v0, v, v', k, id);
      }
    }
  }

  /** Settling the states at the end changes no information. */
  lemma StartedLast(v0: View, v: View, ports: seq<Port>, id: nat)
    requires Started(v0, v, |v.ports|, id) && |v.ports| == |v0.ports| && SameInfos(v.ports, ports)
    ensures Begun(v0.ports, ports, |ports|)
    ensures NoneBehind(v0.ports, id) ==>
      v.rootPort.None? && v.root == id && v.careful == v0.careful && Joined(v0.ports, ports, |ports|, id)
    ensures Keeps(v0.ports, id) ==> var r := Behind(v0.ports, id); v.rootPort == r && v.root == v0.ports[r.value].root
  {
    assert Inside(0);
    if NoneBehind(v0.ports, id) {
      forall j | 0 <= j < |ports| && v0.ports[j].stp
        ensures AtStart(ports[j], v0.ports[j], id)
      {
        assert AtStart(v.ports[j], v0.ports[j], id) && SameInfo(v.ports[j], ports[j]);
      }
    }
  }

  /** Of these ports the first k have joined the protocol, or are kept out. */
  ghost predicate Begun(before: seq<Port>, ports: seq<Port>, k: nat) {
    && |ports| == |before|
    && (forall j :: 0 <= j < |ports| ==> SamePort(ports[j], before[j]))
    && (forall j :: 0 <= j < |ports| && j < k && before[j].stp ==> ports[j].state != Disabled)
  }

  /** Only ports yet to start may still lead to a better root, and did before. */
  ghost predicate Leftover(before: seq<Port>, ports: seq<Port>, k: nat, id: nat) {
    |ports| == |before| && forall j :: 0 <= j < |ports| && Candidate(ports[j], id) ==> j >= k && Candidate(before[j], id)
  }

  ghost predicate Joined(before: seq<Port>, ports: seq<Port>, k: nat, id: nat) {
    |ports| == |before| && forall j :: 0 <= j < |ports| && j < k && before[j].stp ==> AtStart(ports[j], before[j], id)
  }

  lemma LeftoverNext(before: seq<Port>, mid: seq<Port>, after: seq<Port>, k: nat, id: nat)
    requires NoneBehind(before, id) && Leftover(before, mid, k, id) && Begun(before, mid, k) && k < |before| == |after|
    requires before[k].stp ==> Designated(after[k], id) && forall j :: 0 <= j < |mid| && j != k ==> SameInfo(mid[j], after[j])
    requires !before[k].stp && (forall j :: 0 <= j < |mid| ==> !Candidate(mid[j], id)) ==>
      forall j :: 0 <= j < |after| ==> !Candidate(after[j], id)
    ensures Leftover(before, after, k + 1, id)
    ensures !before[k].stp ==> forall j :: 0 <= j < |mid| ==> !Candidate(mid[j], id)
  {
    if before[k].stp {
      forall j | 0 <= j < |after| && Candidate(after[j], id)
        ensures j > k && Candidate(before[j], id)
      {
        CandidateInfo(mid[j], after[j], id);
      }
    } else {
      forall j | 0 <= j < |mid|
        ensures !Candidate(mid[j], id)
      {
        assert j == k ==> SamePort(mid[j], before[j]);
      }
    }
  }

  lemma JoinedNext(before: seq<Port>, mid: seq<Port>, after: seq<Port>, k: nat, id: nat)
    requires Joined(before, mid, k, id) && k < |before| == |after| && AtStart(after[k], before[k], id)
    requires forall j :: 0 <= j < |mid| && j != k ==> SameInfo(mid[j], after[j])
    ensures Joined(before, after, k + 1, id)
  {
    forall j | 0 <= j <= k && before[j].stp
      ensures AtStart(after[j], before[j], id)
    {
      if j < k {
        assert AtStart(mid[j], before[j], id) && SameInfo(mid[j], after[j]);
      }
    }
  }

  lemma JoinedStill(before: seq<Port>, mid: seq<Port>, after: seq<Port>, k: nat, id: nat, out: Port,
                    root: nat, rootPort: Option<nat>, cost: nat)
    requires Joined(before, mid, k, id) && k < |before| == |after| && !before[k].stp && !out.stp
    requires Updated(mid[k := out], id, root, rootPort, cost, after)
    requires forall j :: 0 <= j < |mid| ==> !Candidate(mid[j], id)
    ensures Joined(before, after, k + 1, id) && cost == 0 && root == id
  {
    assert Inside(0);
    var ports := mid[k := out];
    var t := Update(ports, id);
    assert t.rootPort.None?;
    forall j | 0 <= j < k && before[j].stp
      ensures AtStart(after[j], before[j], id)
    {
      assert AtStart(mid[j], before[j], id) && SameInfo(t.ports[j], after[j]);
      assert t.ports[j] == Settled(mid[j], id, 0, id);
    }
  }

  // ----- a start that keeps an old root

  /** The first member without the protocol. */
  ghost function FirstOut(ports: seq<Port>): (m: nat)
    ensures m <= |ports| && (forall k :: 0 <= k < m ==> ports[k].stp) && (m < |ports| ==> !ports[m].stp)
  {
    if ports == [] || !ports[0].stp then 0 else FirstOut(ports[1..]) + 1
  }

  /** The ports as that member leaves them: those before it have started. */
  ghost function Masked(ports: seq<Port>, m: nat): (r: seq<Port>)
    ensures |r| == |ports| && forall k :: 0 <= k < |ports| ==> r[k] == if k < m then ports[k].(stp := false) else ports[k]
  {
    seq(|ports|, k requires 0 <= k < |ports| => if k < m then ports[k].(stp := false) else ports[k])
  }

  /** The root port that it finds. */
  ghost function Behind(ports: seq<Port>, id: nat): (r: Option<nat>)
    ensures r.Some? ==> FirstOut(ports) < r.value < |ports| && Candidate(ports[r.value], id)
  {
    Pick(Masked(ports, FirstOut(ports)), id, |ports|)
  }

  /** One member only is without the protocol. */
  ghost predicate OnlyOne(ports: seq<Port>) {
    FirstOut(ports) < |ports| && forall k :: FirstOut(ports) < k < |ports| ==> ports[k].stp
  }

  /** That port comes after all members without the protocol, and it costs something to
      cross, or there is one such member only. */
  ghost predicate Keeps(ports: seq<Port>, id: nat) {
    var r := Behind(ports, id);
    && r.Some? && (forall k :: r.value < k < |ports| ==> ports[k].stp)
    && (ports[r.value].pathCost >= 1 || OnlyOne(ports))
  }

  lemma OneKeeps(ports: seq<Port>, id: nat)
    requires OnlyOne(ports) && !NoneBehind(ports, id)
    ensures Keeps(ports, id)
  {
    var k, j :| 0 <= k < j < |ports| && !ports[k].stp && Candidate(ports[j], id);
    var all := Masked(ports, FirstOut(ports));
    PickLeast(all, id, |all|, j);
  }

  lemma OneIff(ports: seq<Port>, id: nat, root: nat)
    requires (NoneBehind(ports, id) ==> root == id) && (Keeps(ports, id) ==> root == ports[Behind(ports, id).value].root)
    ensures OnlyOne(ports) ==> (root == id <==> NoneBehind(ports, id))
  {
    if OnlyOne(ports) && !NoneBehind(ports, id) {
      OneKeeps(ports, id);
    }
  }

  /** Of the first k ports none leads to a better root any more; of the others those
      that do still rank as before, the one to be kept among them while it matters; and
      past the first member without the protocol it is the root port. */
  ghost predicate Stays(before: seq<Port>, ports: seq<Port>, k: nat, id: nat, root: nat, rootPort: Option<nat>)
    requires Keeps(before, id)
  {
    var m, r := FirstOut(before), Behind(before, id).value;
    && |ports| == |before| && (forall j :: 0 <= j < |ports| ==> SamePort(ports[j], before[j]))
    && (forall j :: 0 <= j < |ports| && Candidate(ports[j], id) ==> j >= k && Candidate(before[j], id) && Rank(ports[j]) == Rank(before[j]))
    && (k <= r && (k <= m || before[r].pathCost >= 1) ==> Candidate(ports[r], id))
    && (k > m ==> root == before[r].root && rootPort == Some(r))
  }

  /** A member with the protocol joins. */
  lemma StaysEnabled(before: seq<Port>, mid: seq<Port>, after: seq<Port>, k: nat, id: nat, root: nat, rootPort: Option<nat>)
    requires Keeps(before, id) && Stays(before, mid, k, id, root, rootPort) && k < |before| == |after| && before[k].stp
    requires Designated(after[k], id) && forall j :: 0 <= j < |mid| ==> SamePort(after[j], mid[j])
    requires forall j :: 0 <= j < |mid| && j != k ==> SameInfo(mid[j], after[j])
    ensures Stays(before, after, k + 1, id, root, rootPort)
  {
    forall j | 0 <= j < |after| && j != k
      ensures (Candidate(after[j], id) <==> Candidate(mid[j], id)) && Rank(after[j]) == Rank(mid[j])
    {
      CandidateInfo(mid[j], after[j], id);
    }
  }

  /** A member without it is kept out, and the configuration updated. */
  lemma StaysUpdated(v0: View, v: View, v': View, k: nat, id: nat)
    requires k < |v.ports| == |v0.ports| == |v'.ports| && !v0.ports[k].stp && !v.ports[k].stp && KeptOut(v, v', k, id)
    requires Keeps(v0.ports, id) && Stays(v0.ports, v.ports, k, id, v.root, v.rootPort)
    requires forall j :: 0 <= j < |v.ports| ==> SamePort(v'.ports[j], v.ports[j])
    ensures Stays(v0.ports, v'.ports, k + 1, id, v'.root, v'.rootPort)
  {
    assert Inside(0);
    var out := Off(v.ports[k], v.root, v.cost, id);
    KeptChoice(v0.ports, v.ports, k, id, out, v.root, v.rootPort);
    StaysNext(v0.ports, v.ports, v'.ports, k, id, out, v'.root, v'.rootPort, v'.cost, v.root, v.rootPort);
  }

  lemma StaysNext(before: seq<Port>, mid: seq<Port>, after: seq<Port>, k: nat, id: nat, out: Port,
                  root: nat, rootPort: Option<nat>, cost: nat, oldRoot: nat, oldPort: Option<nat>)
    requires Keeps(before, id) && Stays(before, mid, k, id, oldRoot, oldPort) && k < |before| == |after| && !before[k].stp && !out.stp
    requires var r := Behind(before, id).value;
      k < r && Candidate(mid[r], id) && Rank(mid[r]) == Rank(before[r]) && Pick(mid[k := out], id, |mid|) == Some(r)
    requires var t := Update(mid[k := out], id); root == t.root && rootPort == t.rootPort && SameInfos(t.ports, after)
    requires forall j :: 0 <= j < |mid| ==> SamePort(after[j], mid[j])
    ensures Stays(before, after, k + 1, id, root, rootPort)
  {
    var r, ports := Behind(before, id).value, mid[k := out];
    var t := Update(ports, id);
    RootKept(ports, id);
    forall j | 0 <= j < |after|
      ensures (Candidate(after[j], id) <==> Candidate(t.ports[j], id)) && Rank(after[j]) == Rank(t.ports[j])
      ensures Candidate(t.ports[j], id) ==> t.ports[j] == ports[j] && j != k
    {
      CandidateInfo(t.ports[j], after[j], id);
      Candidates(ports, id, j);
    }
    assert Rank(mid[r])[0] == mid[r].root && Rank(before[r])[0] == before[r].root;
  }

  /** The update picks the port to be kept. */
  lemma KeptChoice(before: seq<Port>, mid: seq<Port>, k: nat, id: nat, out: Port, root: nat, rootPort: Option<nat>)
    requires Keeps(before, id) && k < |before| && !before[k].stp && !out.stp && Stays(before, mid, k, id, root, rootPort)
    ensures var r := Behind(before, id).value;
      |mid| == |before| && k < r && Candidate(mid[r], id) && Rank(mid[r]) == Rank(before[r]) && Pick(mid[k := out], id, |mid|) == Some(r)
  {
    var m, r, ports := FirstOut(before), Behind(before, id).value, mid[k := out];
    var all := Masked(before, m);
    assert m <= k < r;
    RankedFirst(all, id, r);
    assert forall j :: 0 <= j < |ports| && Candidate(ports[j], id) ==> j > k && ports[j] == mid[j] && all[j] == before[j];
    PickAgain(all, ports, id, |ports|, r);
  }

  /** The links are as the port states have them. */
  predicate LinksSteady(ports: seq<Port>, up: seq<bool>)
    requires |up| == |ports|
  {
    forall k :: 0 <= k < |ports| && ports[k].stp ==> (ports[k].state == Disabled <==> !up[k])
  }

  /** A timer a tick later, and whether it has run out. */
  method Advance(t: Timer, limit: nat) returns (t': Timer, expired: bool)
    ensures !t.active ==> t' == t && !expired
    ensures t.active ==> (expired <==> Later(t.value, TICK) >= limit)
    ensures t.active ==> t' == if expired then OFF else Timer(true, Later(t.value, TICK))
  {
    if !t.active {
      return t, false;
    }
    if Later(t.value, TICK) >= limit {
      return OFF, true;
    }
    return Timer(true, Later(t.value, TICK)), false;
  }

  /** A port that comes into use. */
  function Initial(p: Port, root: nat, cost: nat, id: nat): Port {
    Become(p, root, cost, id).(state := Blocking, ack := false, pending := false, detect := true, age := OFF, delay := OFF, hold := OFF)
  }

  /** A port taken out of use. */
  function Off(p: Port, root: nat, cost: nat, id: nat): Port {
    Become(p, root, cost, id).(state := Disabled, ack := false, pending := false, age := OFF, delay := OFF)
  }

  /** A port's identity and path cost. */
  predicate SamePort(p: Port, q: Port) {
    p.stp == q.stp && p.id == q.id && p.pathCost == q.pathCost
  }

  /** A port in use on a bridge that takes itself for the root. */
  predicate AtStart(p: Port, q: Port, id: nat) {
    SamePort(p, q) && p.state != Disabled && Heard(p) == Own(p, id, 0, id)
  }

  /** A designated port's information under the bridge's new identity. */
  function Rename(p: Port, id: nat, new_: nat): Port {
    if p.stp && Designated(p, id) then p.(bridge := new_) else p
  }

  function Renamed(ports: seq<Port>, id: nat, new_: nat): seq<Port> {
    seq(|ports|, k requires 0 <= k < |ports| => Rename(ports[k], id, new_))
  }

  /** Identity, path cost and being enabled are unchanged. */
  predicate Kept(p: Port, p': Port) {
    p'.stp == p.stp && p'.id == p.id && p'.pathCost == p.pathCost && (p'.state == Disabled <==> p.state == Disabled)
  }

  /** A port on which this bridge announces its view. */
  predicate Announces(p: Port, id: nat) {
    p.stp && Designated(p, id) && p.state != Disabled
  }

  /** A port after an announcement: put off while one is held back, dropped when the
      information has become too old. */
  function Announced(p: Port, young: bool): Port {
    if p.hold.active then p.(pending := true)
    else if young then p.(ack := false, pending := false, hold := Start(0))
    else p
  }

  /** Only what concerns sending changed. */
  predicate SendingOnly(p: Port, p': Port) {
    p' == p.(hold := p'.hold, ack := p'.ack, pending := p'.pending)
  }

  predicate SameStates(p: Port, p': Port) {
    Kept(p, p') && p'.state == p.state && p'.delay == p.delay
  }

  lemma CandidateInfo(p: Port, p': Port, id: nat)
    requires SameInfo(p, p')
    ensures (Candidate(p', id) <==> Candidate(p, id)) && Rank(p') == Rank(p)
  {
    assert Heard(p)[0] == p.root && Heard(p)[1] == p.cost && Heard(p)[2] == p.bridge && Heard(p)[3] == p.port;
    assert Heard(p')[0] == p'.root && Heard(p')[1] == p'.cost && Heard(p')[2] == p'.bridge && Heard(p')[3] == p'.port;
  }

  lemma StillNone(before: seq<Port>, after: seq<Port>, id: nat)
    requires |after| == |before| && SameInfos(Update(before, id).ports, after)
    ensures (forall k :: 0 <= k < |before| ==> !Candidate(before[k], id)) ==>
      forall k :: 0 <= k < |after| ==> !Candidate(after[k], id)
  {
    forall k | 0 <= k < |after| && Candidate(after[k], id)
      ensures Candidate(before[k], id)
    {
      var t := Update(before, id);
      CandidateInfo(t.ports[k], after[k], id);
      Candidates(before, id, k);
    }
  }

  lemma UpdateStates(ports: seq<Port>, id: nat)
    ensures var t := Update(ports, id); forall k :: 0 <= k < |ports| ==> SameStates(ports[k], t.ports[k])
  {
  }

  /** What holds after an update followed by changes of states and timers only. */
  lemma Reconfigured(before: seq<Port>, after: seq<Port>, id: nat, careful: bool)
    requires SameInfos(Update(before, id).ports, after) && (PathsCost(before) || !careful)
    ensures forall k :: 0 <= k < |after| ==> Kept(before[k], after[k])
    ensures var t := Update(before, id);
      && (forall k :: 0 <= k < |before| && Candidate(before[k], id) ==> t.rootPort.Some?)
      && (careful ==> PathsCost(after) && (t.rootPort.Some? ==> Candidate(after[t.rootPort.value], id)))
      && ((forall k :: 0 <= k < |before| ==> !Candidate(before[k], id)) ==>
            t.rootPort.None? && forall k :: 0 <= k < |after| ==> !Candidate(after[k], id))
  {
    var t := Update(before, id);
    UpdateStates(before, id);
    forall k | 0 <= k < |before| && Candidate(before[k], id)
      ensures t.rootPort.Some?
    {
      UpdateLeast(before, id);
      assert HearsBetter(before[k], id);
    }
    RootKept(before, id);
    if careful && t.rootPort.Some? {
      CandidateInfo(t.ports[t.rootPort.value], after[t.rootPort.value], id);
    }
    StillNone(before, after, id);
  }

  function Recorded(p: Port, c: Config): Port {
    p.(root := c.root, cost := c.cost, bridge := c.bridge, port := c.port, age := Start(c.age))
  }

  // ----- why costs of 0 and echoes are excluded

  lemma OneLeads(p: Port, id: nat)
    ensures var t := Update([p], id);
      && t.rootPort == (if Candidate(p, id) then Some(0) else None)
      && t.root == (if Candidate(p, id) then p.root else id)
      && t.ports[0] == Settled(p, t.root, t.cost, id)
  {
    assert Pick([p], id, 0) == None;
  }

  /** A bridge with one port whose only neighbour leads to the root, and a topology
      change that it has to report. */
  method Notifying(pathCost: nat) returns (b: Bridge)
    ensures fresh(b) && b.Valid() && |b.ports| == 1 && b.id == 10 && b.own.hello == TICK
    ensures b.rootPort == Some(0) && b.tcnTimer == Start(0)
    ensures var p := b.ports[0];
      p.stp && p.id == 1 && p.pathCost == pathCost && p.state != Disabled && p.root == 5
    ensures b.careful <==> pathCost >= 1
    ensures pathCost == 0 ==> Designated(b.ports[0], b.id)
  {
    var port := Port(true, 1, pathCost, 0, 0, 0, 0, Disabled, OFF, OFF, OFF, false, false, true);
    b := new Bridge(10, [port], Times(5120, TICK, 3840), 8960, TICK);
    assert AtStart(b.ports[0], [port][0], 10);
    b.ReceivedTcn(0);
    var c := Config(5, 0, 20, 1, 0, 5120, 512, 3840, false, false);
    ghost var p := b.ports[0];
    b.ReceivedConfig(0, c);
    OneLeads(Recorded(p, c), 10);
    assert Inside(0);
  }

  /** A bridge whose second port leads to the root, behind one without the protocol. */
  method SecondHeard() returns (b: Bridge)
    ensures fresh(b) && b.Valid() && |b.ports| == 2 && b.id == 10 && !b.ports[0].stp
    ensures Candidate(b.ports[1], 10) && b.ports[1].root == 5 && b.ports[1].pathCost == 1
  {
    var plain := Port(false, 0, 1, 0, 0, 0, 0, Disabled, OFF, OFF, OFF, false, false, true);
    var port := Port(true, 1, 1, 0, 0, 0, 0, Disabled, OFF, OFF, OFF, false, false, true);
    b := new Bridge(10, [plain, port], Times(5120, TICK, 3840), 8960, TICK);
    assert AtStart(b.ports[1], [plain, port][1], 10) && SamePort(b.ports[0], [plain, port][0]);
    var c := Config(5, 0, 20, 1, 0, 5120, 512, 3840, false, false);
    ghost var before := b.ports[1 := Recorded(b.ports[1], c)];
    b.ReceivedConfig(1, c);
    assert Inside(0);
    SecondLeads(before, 10);
    CandidateInfo(before[1], b.ports[1], 10);
  }

  /** A start makes that port the root port and then takes it over, so that the bridge
      follows a root of which it hears nothing and that never expires. */
  method StaleStart() returns (b: Bridge)
    ensures b.Valid() && b.root == 5 && b.id == 10 && b.rootPort == Some(1) && |b.ports| == 2
    ensures Designated(b.ports[1], b.id)
  {
    b := SecondHeard();
    ghost var heard := b.ports;
    b.ClearView(10);
    b.StartPort(0);
    assert Inside(0);
    SecondLeads(heard[0 := Off(heard[0], 10, 0, 10)], 10);
    b.StartPort(1);
    b.FinishStart();
  }

  lemma SecondLeads(ports: seq<Port>, id: nat)
    requires |ports| == 2 && !ports[0].stp && Candidate(ports[1], id)
    ensures var t := Update(ports, id);
      && t.rootPort == Some(1) && t.root == ports[1].root && t.ports[0] == ports[0]
      && (ports[1].pathCost >= 1 ==> t.ports[1] == ports[1])
  {
    assert Pick(ports, id, 0) == None && Pick(ports, id, 1) == None;
  }

  /** A message that echoes the receiving port, heard on the root port, makes the bridge
      the root although nothing expired, and the notification has no port to go to. */
  method EchoUproots() returns (b: Bridge)
    ensures b.failed
  {
    b := Notifying(1);
    var c := Config(4, 0, 10, 1, 0, 5120, 512, 3840, false, false);
    ghost var p := b.ports[0];
    b.ReceivedConfig(0, c);
    OneLeads(Recorded(p, c), 10);
    assert Inside(0);
    b.Tick([true]);
  }

  /** With a path cost of 0 the bridge takes over its own root port, and the next
      update, here for a new path cost, leaves it without one. */
  method FreePathUproots() returns (b: Bridge)
    ensures b.failed
  {
    b := Notifying(0);
    ghost var p := b.ports[0];
    b.SetPathCost(0, 1);
    OneLeads(p.(pathCost := 1), 10);
    assert Inside(0);
    b.Tick([true]);
  }
}
