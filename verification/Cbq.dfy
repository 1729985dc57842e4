/** The CBQ scheduler: rings of classes by priority, counts of backlogged classes, and
    the search for a class to serve. Whether a class is within its limit, given the
    cutoff depth, is asked of the limits in force at the time. */
module Cbq {
  import opened CbqTree
  import opened Lists
  import opened Marks
  import opened Options

  const MAXPRIO: nat := 8
  const MAXDEPTH: nat := 32

  /** Priority, packets (lengths), queue limit, whether it may borrow from its parent,
      and its share in the weighted round. */
  datatype Class = Class(pri: nat, queue: seq<nat>, limit: nat, borrows: bool, weight: int)

  /** Freed: a removal uses the memory of a class that was deleted after the poll. */
  datatype Outcome = Nothing | Packet(class_: nat, len: nat) | Panic | Freed

  /** The backlogged classes of a priority. */
  ghost function Busy(classes: map<nat, Class>, p: nat): set<nat> {
    set c | c in classes && classes[c].pri == p && classes[c].queue != []
  }

  /** A ring holds exactly the classes of its priority. */
  ghost predicate RingOk(classes: map<nat, Class>, ring: seq<nat>, p: nat) {
    Distinct(ring) && forall c :: c in ring <==> c in classes && classes[c].pri == p
  }

  ghost predicate RingsOk(classes: map<nat, Class>, rings: seq<seq<nat>>) {
    && |rings| == MAXPRIO
    && (forall p :: 0 <= p < MAXPRIO ==> RingOk(classes, rings[p], p))
    && (forall c :: c in classes ==> classes[c].pri < MAXPRIO)
  }

  /** Each priority's count is the number of its backlogged classes. */
  ghost predicate CountsOk(classes: map<nat, Class>, na: seq<int>) {
    |na| == MAXPRIO && forall p :: 0 <= p < MAXPRIO ==> na[p] == |Busy(classes, p)|
  }

  // The parts of the invariant, each folded under a mark of its own.

  const TREE: nat := 0
  const RINGS: nat := 1
  const COUNTS: nat := 2
  const BOUNDS: nat := 3

  ghost predicate Treed(parent: Parents, depth: map<nat, nat>) {
    forall n: nat {:trigger InPart(TREE, n)} :: InPart(TREE, n) ==> TreeOk(parent) && Depths(parent, depth)
  }

  ghost predicate Ringed(classes: map<nat, Class>, rings: seq<seq<nat>>) {
    forall n: nat {:trigger InPart(RINGS, n)} :: InPart(RINGS, n) ==> RingsOk(classes, rings)
  }

  ghost predicate Counted(classes: map<nat, Class>, na: seq<int>) {
    forall n: nat {:trigger InPart(COUNTS, n)} :: InPart(COUNTS, n) ==> CountsOk(classes, na)
  }

  ghost predicate Bounded(classes: map<nat, Class>, created: nat) {
    forall n: nat {:trigger InPart(BOUNDS, n)} :: InPart(BOUNDS, n) ==> forall c :: c in classes ==> c < created
  }

  lemma BoundedNew(classes: map<nat, Class>, created: nat, new_: Class)
    requires Bounded(classes, created)
    ensures created !in classes && (forall k :: k in classes ==> k < created)
    ensures Bounded(classes[created := new_], created + 1)
  {
    assert InPart(BOUNDS, 0);
  }

  lemma BoundedLess(classes: map<nat, Class>, created: nat, c: nat, x: Class)
    requires Bounded(classes, created) && c in classes
    ensures Bounded(classes - {c}, created) && Bounded(classes[c := x], created)
  {
    assert InPart(BOUNDS, 0);
  }

  /** A class that may be served. */
  ghost predicate Waiting(classes: map<nat, Class>, c: nat) {
    c in classes && classes[c].queue != []
  }

  /** Backlogged and within its limit. */
  ghost predicate Able(classes: map<nat, Class>, cutoff: nat, c: nat, under: (nat, nat) -> bool) {
    Waiting(classes, c) && under(cutoff, c)
  }

  ghost predicate SomeAble(classes: map<nat, Class>, cutoff: nat, under: (nat, nat) -> bool) {
    exists c :: Able(classes, cutoff, c, under)
  }

  /** Able, and of the highest priority among those that are. */
  ghost predicate Best(classes: map<nat, Class>, cutoff: nat, c: nat, under: (nat, nat) -> bool) {
    && Able(classes, cutoff, c, under)
    && (forall k :: Able(classes, cutoff, k, under) ==> classes[k].pri <= classes[c].pri)
  }

  // ----- changing one queue

  lemma BusyChange(classes: map<nat, Class>, c: nat, q: seq<nat>, p: nat)
    requires c in classes
    ensures var classes' := classes[c := classes[c].(queue := q)];
      Busy(classes', p) ==
        if classes[c].pri != p then Busy(classes, p)
        else if q != [] then Busy(classes, p) + {c} else Busy(classes, p) - {c}
  {
  }

  lemma CountChange(classes: map<nat, Class>, na: seq<int>, c: nat, q: seq<nat>)
    requires Counted(classes, na) && |na| == MAXPRIO && c in classes && classes[c].pri < MAXPRIO
    ensures var p := classes[c].pri;
      Counted(classes[c := classes[c].(queue := q)], na[p := na[p] + One(q) - One(classes[c].queue)])
  {
    assert InPart(COUNTS, 0);
    var classes' := classes[c := classes[c].(queue := q)];
    forall p | 0 <= p < MAXPRIO
      ensures |Busy(classes', p)| == na[p] + if p != classes[c].pri then 0 else One(q) - One(classes[c].queue)
    {
      SizeChange(classes, c, q, p);
    }
  }

  lemma SizeChange(classes: map<nat, Class>, c: nat, q: seq<nat>, p: nat)
    requires c in classes
    ensures |Busy(classes[c := classes[c].(queue := q)], p)| ==
      |Busy(classes, p)| + if p != classes[c].pri then 0 else One(q) - One(classes[c].queue)
  {
    BusyChange(classes, c, q, p);
    var b := Busy(classes, p);
    if p == classes[c].pri {
      if c in b {
        assert b + {c} == b && |b - {c}| == |b| - 1;
      } else {
        assert b - {c} == b && |b + {c}| == |b| + 1;
      }
    }
  }

  function One(q: seq<nat>): int {
    if q != [] then 1 else 0
  }

  lemma RingsChange(classes: map<nat, Class>, rings: seq<seq<nat>>, c: nat, q: seq<nat>)
    requires Ringed(classes, rings) && c in classes
    ensures Ringed(classes[c := classes[c].(queue := q)], rings)
  {
    assert InPart(RINGS, 0);
    var classes' := classes[c := classes[c].(queue := q)];
    forall p | 0 <= p < MAXPRIO
      ensures RingOk(classes', rings[p], p)
    {
      assert RingOk(classes, rings[p], p);
    }
  }

  /** A positive count means the ring is not empty. */
  lemma RingBusy(classes: map<nat, Class>, rings: seq<seq<nat>>, na: seq<int>, p: nat)
    requires Ringed(classes, rings) && Counted(classes, na) && p < MAXPRIO
    ensures |rings| == MAXPRIO && |na| == MAXPRIO
    ensures forall c :: c in rings[p] <==> c in classes && classes[c].pri == p
    ensures na[p] == 0 <==> forall c :: c in rings[p] ==> classes[c].queue == []
  {
    assert InPart(RINGS, 0) && InPart(COUNTS, 0);
    if na[p] == 0 {
      forall c | c in rings[p]
        ensures classes[c].queue == []
      {
        assert RingOk(classes, rings[p], p);
        assert c !in Busy(classes, p);
      }
    } else {
      var c :| c in Busy(classes, p);
      assert RingOk(classes, rings[p], p);
      assert c in rings[p];
    }
  }

  /** Turning a ring keeps its classes. */
  lemma Turned(classes: map<nat, Class>, ring: seq<nat>, p: nat, n: nat)
    requires RingOk(classes, ring, p) && n <= |ring|
    ensures RingOk(classes, ring[n..] + ring[..n], p)
  {
    var r := ring[n..] + ring[..n];
    assert forall k :: 0 <= k < |r| ==> r[k] == ring[if k < |ring| - n then k + n else k - (|ring| - n)];
    forall c | c in ring
      ensures c in r
    {
      var k :| 0 <= k < |ring| && ring[k] == c;
      assert r[if k >= n then k - n else k + (|ring| - n)] == c;
    }
  }

  lemma TurnedRings(classes: map<nat, Class>, rings: seq<seq<nat>>, p: nat, n: nat)
    requires Ringed(classes, rings) && |rings| == MAXPRIO && p < MAXPRIO && n <= |rings[p]|
    ensures Ringed(classes, rings[p := rings[p][n..] + rings[p][..n]])
  {
    assert InPart(RINGS, 0);
    assert RingOk(classes, rings[p], p);
    Turned(classes, rings[p], p, n);
  }

  lemma ParentIn(parent: Parents, depth: map<nat, nat>, c: nat)
    requires Treed(parent, depth) && c in parent && parent[c].Some?
    ensures parent[c].value in depth
  {
    assert InPart(TREE, 0);
  }

  // ----- the classes that a class may send at the expense of

  /** The class that c borrows from. */
  function Lender(classes: map<nat, Class>, parent: Parents, c: nat): Option<nat> {
    if c in classes && c in parent && classes[c].borrows then parent[c] else None
  }

  /** Class k is c or one that c borrows from, directly or not. */
  ghost predicate Lends(classes: map<nat, Class>, parent: Parents, c: nat, k: nat)
    decreases c
  {
    k == c || (c in classes && c in parent && classes[c].borrows && parent[c].Some? && parent[c].value < c
      && Lends(classes, parent, parent[c].value, k))
  }

  /** The cutoff is the least of what it was and the depths of the lenders of c that are
      within their limits. */
  ghost predicate CutTo(classes: map<nat, Class>, parent: Parents, depth: map<nat, nat>, c: nat, idle: nat -> bool, was: nat, now: nat) {
    && now <= was
    && (forall k :: Lends(classes, parent, c, k) && k in depth && idle(k) ==> now <= depth[k])
    && (now == was || exists k :: Lends(classes, parent, c, k) && k in depth && idle(k) && now == depth[k])
  }

  lemma LenderIn(classes: map<nat, Class>, parent: Parents, depth: map<nat, nat>, c: nat)
    requires Treed(parent, depth) && parent.Keys == classes.Keys == depth.Keys
    ensures var up := Lender(classes, parent, c);
      up.Some? ==> up.value < c && up.value in depth && up.value in classes && depth[c] < depth[up.value]
  {
    assert InPart(TREE, 0);
    var up := Lender(classes, parent, c);
    if up.Some? {
      assert DepthOk(parent, depth, up.value) && ChildOf(parent, c, up.value);
    }
  }

  /** Lenders are nowhere lower than the class that borrows. */
  lemma {:induction false} LendersDeeper(classes: map<nat, Class>, parent: Parents, depth: map<nat, nat>, c: nat)
    requires Treed(parent, depth) && parent.Keys == classes.Keys == depth.Keys && c in classes
    ensures forall k :: Lends(classes, parent, c, k) ==> k in depth && depth[c] <= depth[k]
    decreases c
  {
    LenderIn(classes, parent, depth, c);
    var up := Lender(classes, parent, c);
    if up.Some? {
      LendersDeeper(classes, parent, depth, up.value);
    }
  }

  /** Lending goes on from class to class. */
  lemma {:induction false} LendsOn(classes: map<nat, Class>, parent: Parents, c: nat, k: nat)
    requires Lends(classes, parent, c, k)
    ensures var up := Lender(classes, parent, k);
      up.Some? && up.value < k ==> Lends(classes, parent, c, up.value)
    decreases c
  {
    if k != c {
      LendsOn(classes, parent, Lender(classes, parent, c).value, k);
    } else {
      var up := Lender(classes, parent, c);
      if up.Some? && up.value < c {
        assert Lends(classes, parent, up.value, up.value);
      }
    }
  }

  // ----- the scheduler

  class Scheduler {
    const efficient: bool
    const weighted: bool
    var parent: Parents
    var depth: map<nat, nat>
    var classes: map<nat, Class>
    /** The classes of each priority, from the active one on. */
    var rings: seq<seq<nat>>
    var na: seq<int>
    /** What is left of each class's share in the round. */
    var alloc: map<nat, int>
    var cutoff: nat
    const root: nat
    var created: nat
    var cache: Option<nat>
    /** Some queue was emptied from outside since the last poll. */
    ghost var purged: bool

    ghost predicate Valid()
      reads this
    {
      && parent.Keys == classes.Keys && alloc.Keys == classes.Keys
      && Treed(parent, depth) && depth.Keys == classes.Keys
      && Ringed(classes, rings) && |rings| == MAXPRIO && Counted(classes, na) && |na| == MAXPRIO
      && root in classes && Bounded(classes, created)
      && (cache.Some? && !purged ==> Waiting(classes, cache.value))
    }

    constructor (isEfficient: bool, isWeighted: bool, limit: nat, weight: int)
      ensures Valid() && cache.None? && !purged && classes == map[0 := Class(0, [], limit, false, weight)] && root == 0
      ensures parent == map[0 := None]
    {
      efficient, weighted := isEfficient, isWeighted;
      parent, depth := map[0 := None], map[0 := 0];
      classes := map[0 := Class(0, [], limit, false, weight)];
      rings := [[0], [], [], [], [], [], [], []];
      na := [0, 0, 0, 0, 0, 0, 0, 0];
      alloc := map[0 := 0];
      cutoff, root, created, cache, purged := MAXDEPTH, 0, 1, None, false;
      new;
      FreshOk(classes, rings, na, parent, depth);
    }

    // ----- classes

    method NewClass(pri: nat, limit: nat, up: nat, borrows: bool, weight: int) returns (c: Option<nat>)
      requires Valid() && up in classes
      modifies this
      ensures Valid() && cache == old(cache) && purged == old(purged) && (c.None? <==> pri >= MAXPRIO)
      ensures c.Some? ==> c.value !in old(classes) && parent == old(parent)[c.value := Some(up)]
                          && classes == old(classes)[c.value := Class(pri, [], limit, borrows, weight)]
      ensures c.None? ==> classes == old(classes) && parent == old(parent)
    {
      if pri >= MAXPRIO {
        return None;
      }
      var id := Enrol(Class(pri, [], limit, borrows, weight), up);
      c := Some(id);
    }

    method Enrol(new_: Class, up: nat) returns (id: nat)
      requires Valid() && up in classes && new_.pri < MAXPRIO && new_.queue == []
      modifies `classes, `parent, `depth, `alloc, `rings, `created
      ensures Valid() && id !in old(classes) && parent == old(parent)[id := Some(up)] && classes == old(classes)[id := new_]
    {
      id := created;
      BoundedNew(classes, created, new_);
      JoinRings(classes, rings, na, id, new_);
      Sprout(id, up);
      classes := classes[id := new_];
      alloc := alloc[id := 0];
      rings := rings[new_.pri := rings[new_.pri] + [id]];
      created := created + 1;
    }

    method Sprout(id: nat, up: nat)
      requires Treed(parent, depth) && parent.Keys == depth.Keys && up in parent && id !in parent && forall k :: k in parent ==> k < id
      modifies `parent, `depth
      ensures Treed(parent, depth) && parent == old(parent)[id := Some(up)] && depth.Keys == parent.Keys
    {
      assert InPart(TREE, 0);
      NewTree(parent, id, Some(up));
      NewLeaf(parent, depth, id, Some(up));
      parent := parent[id := Some(up)];
      depth := Raise(parent, depth[id := 0], id);
    }

    method Wither(c: nat)
      requires Treed(parent, depth) && parent.Keys == depth.Keys && c in parent && forall k :: !ChildOf(parent, k, c)
      modifies `parent, `depth
      ensures Treed(parent, depth) && parent == old(parent) - {c} && depth.Keys == parent.Keys
    {
      assert InPart(TREE, 0);
      var up := parent[c];
      GoneLeaf(parent, depth, c);
      parent, depth := parent - {c}, depth - {c};
      depth := Recompute(parent, depth, up);
    }

    /** Take an empty class off its ring. */
    method Leave(c: nat)
      requires Ringed(classes, rings) && Counted(classes, na) && Bounded(classes, created)
      requires |rings| == MAXPRIO && c in classes && classes[c].queue == []
      modifies `classes, `rings
      ensures Ringed(classes, rings) && Counted(classes, na) && Bounded(classes, created)
      ensures |rings| == MAXPRIO && classes == old(classes) - {c}
    {
      var pri := classes[c].pri;
      RingMember(classes, rings, c);
      var n := Position(rings[pri], c);
      LeaveRings(classes, rings, na, c, n);
      BoundedLess(classes, created, c, classes[c]);
      classes := classes - {c};
      rings := rings[pri := rings[pri][..n] + rings[pri][n + 1..]];
    }

    method DeleteClass(c: nat)
      requires Valid() && c in classes && c != root && forall k :: !ChildOf(parent, k, c)
      modifies this
      ensures Valid() && classes == old(classes) - {c} && parent == old(parent) - {c}
      ensures purged && cache == old(cache)
    {
      DropAll(c);
      Leave(c);
      Wither(c);
      alloc := alloc - {c};
    }

    // ----- queues

    method SetQueue(c: nat, q: seq<nat>)
      requires Valid() && c in classes && (cache.Some? && cache.value == c && q == [] ==> purged)
      modifies `classes, `na
      ensures Valid() && classes == old(classes)[c := old(classes[c]).(queue := q)]
    {
      RingMember(classes, rings, c);
      CountChange(classes, na, c, q);
      RingsChange(classes, rings, c, q);
      BoundedLess(classes, created, c, classes[c].(queue := q));
      var p := classes[c].pri;
      if classes[c].queue == [] && q != [] {
        na := na[p := na[p] + 1];
      } else if classes[c].queue != [] && q == [] {
        na := na[p := na[p] - 1];
      }
      classes := classes[c := classes[c].(queue := q)];
    }

    /** A packet for c brings the cutoff down to the depth of the lowest class that c may
        send at the expense of and that is within its limit. */
    method LowerCutoff(c: nat, idle: nat -> bool)
      requires Valid() && c in classes
      modifies `cutoff
      ensures CutTo(classes, parent, depth, c, idle, old(cutoff), cutoff)
    {
      if cutoff == 0 {
        return;
      }
      if idle(c) {
        LendersDeeper(classes, parent, depth, c);
        assert Lends(classes, parent, c, c);
        if cutoff > depth[c] {
          cutoff := depth[c];
        }
        return;
      }
      var at := Lender(classes, parent, c);
      LenderIn(classes, parent, depth, c);
      while at.Some? && depth[at.value] < cutoff
        invariant cutoff == old(cutoff) && (at.Some? ==> at.value in classes && Lends(classes, parent, c, at.value))
        invariant forall k :: Lends(classes, parent, c, k) && idle(k) ==> at.Some? && Lends(classes, parent, at.value, k)
        decreases if at.Some? then at.value + 1 else 0
      {
        LendersDeeper(classes, parent, depth, at.value);
        if idle(at.value) {
          cutoff := depth[at.value];
          return;
        }
        LenderIn(classes, parent, depth, at.value);
        LendsOn(classes, parent, c, at.value);
        at := Lender(classes, parent, at.value);
      }
      if at.Some? {
        LendersDeeper(classes, parent, depth, at.value);
      }
    }

    /** Queue a packet; over the limit, the first one goes. */
    method Enqueue(c: nat, len: nat, idle: nat -> bool) returns (dropped: bool)
      requires Valid() && c in classes
      modifies this
      ensures Valid() && cache == old(cache) && purged == old(purged) && parent == old(parent) && depth == old(depth)
      ensures CutTo(old(classes), parent, depth, c, idle, old(cutoff), cutoff)
      ensures dropped <==> |old(classes[c].queue)| >= old(classes[c].limit)
      ensures var q := old(classes[c].queue) + [len];
        classes == old(classes)[c := old(classes[c]).(queue := if dropped then q[1..] else q)]
    {
      LowerCutoff(c, idle);
      ghost var before := classes;
      var q := classes[c].queue + [len];
      SetQueue(c, q);
      dropped := |q| > classes[c].limit;
      if dropped {
        SetQueue(c, q[1..]);
        SetTwice(before, c, before[c].(queue := q), before[c].(queue := q[1..]));
      }
    }

    method DropAll(c: nat)
      requires Valid() && c in classes
      modifies `classes, `na, `purged
      ensures Valid() && purged && classes == old(classes)[c := old(classes[c]).(queue := [])]
    {
      purged := true;
      SetQueue(c, []);
    }

    // ----- choosing a class

    /** One round over the classes of priority p: the first backlogged one within its
        limit, and with something left of its share unless this is the second round.
        Remembers the first backlogged one that is over its limit but may borrow. */
    method Round(p: nat, second: bool, under: (nat, nat) -> bool, before: Option<nat>)
      returns (found: Option<nat>, first: Option<nat>, starved: bool)
      requires Valid() && p < MAXPRIO && (before.Some? ==> MayBorrow(before.value))
      modifies `alloc
      ensures alloc.Keys == old(alloc.Keys) && (first.Some? ==> MayBorrow(first.value))
      ensures found.Some? ==> Waiting(classes, found.value) && classes[found.value].pri == p && under(cutoff, found.value)
      ensures starved ==> weighted && !second && exists c :: c in rings[p] && Able(classes, cutoff, c, under)
      ensures found.None? && !starved ==> forall c :: c in rings[p] ==> !Able(classes, cutoff, c, under)
    {
      found, first, starved := None, before, false;
      RingBusy(classes, rings, na, p);
      var ring := rings[p];
      var n := 0;
      ghost var who: nat := 0;
      while n < |ring|
        invariant 0 <= n <= |ring| && alloc.Keys == classes.Keys
        invariant first.Some? ==> MayBorrow(first.value)
        invariant starved ==> weighted && !second && who in ring && Able(classes, cutoff, who, under)
        invariant !starved ==> forall k :: 0 <= k < n ==> !Able(classes, cutoff, ring[k], under)
      {
        var c := ring[n];
        var take, starving;
        take, starving, first := Consider(c, second, under, first);
        if take {
          found := Some(c);
          return;
        }
        if starving {
          starved, who := true, c;
        }
        n := n + 1;
      }
    }

    /** One class in a round. */
    method Consider(c: nat, second: bool, under: (nat, nat) -> bool, before: Option<nat>)
      returns (take: bool, starving: bool, first: Option<nat>)
      requires c in classes && c in parent && alloc.Keys == classes.Keys && (before.Some? ==> MayBorrow(before.value))
      modifies `alloc
      ensures alloc.Keys == classes.Keys && (first.Some? ==> MayBorrow(first.value))
      ensures take || starving <==> Able(classes, cutoff, c, under)
      ensures starving ==> weighted && !second && !take
      ensures first == if before.None? && Waiting(classes, c) && !under(cutoff, c) && classes[c].borrows && parent[c].Some? then Some(c) else before
      ensures var share := if !second && old(alloc[c]) <= 0 then old(alloc[c]) + classes[c].weight else old(alloc[c]);
        && (take ==> !weighted || second || share > 0)
        && alloc == if !weighted then old(alloc) else old(alloc)[c := if take then share else 0]
    {
      take, starving, first := false, false, before;
      if weighted && !second && alloc[c] <= 0 {
        alloc := alloc[c := alloc[c] + classes[c].weight];
      }
      if classes[c].queue != [] {
        if under(cutoff, c) {
          take := !weighted || alloc[c] > 0 || second;
          starving := !take;
        } else if first.None? && classes[c].borrows && parent[c].Some? {
          first := Some(c);
        }
      }
      if weighted && !take {
        alloc := alloc[c := 0];
      }
    }

    ghost predicate MayBorrow(c: nat)
      reads this
    {
      Waiting(classes, c) && c in parent && parent[c].Some?
    }

    /** All priorities, highest first: a class within its limit, of the highest priority
        that has one; none only if there is none. */
    method Search(under: (nat, nat) -> bool, before: Option<nat>) returns (found: Option<nat>, first: Option<nat>)
      requires Valid() && (before.Some? ==> MayBorrow(before.value))
      modifies `alloc
      ensures alloc.Keys == old(alloc.Keys) && (first.Some? ==> MayBorrow(first.value))
      ensures found.Some? ==> Best(classes, cutoff, found.value, under)
      ensures found.None? ==> !SomeAble(classes, cutoff, under)
    {
      found, first := None, before;
      Priorities(classes, rings);
      var p := MAXPRIO;
      while p > 0
        invariant 0 <= p <= MAXPRIO && alloc.Keys == old(alloc.Keys) && found.None?
        invariant first.Some? ==> MayBorrow(first.value)
        invariant forall c :: Able(classes, cutoff, c, under) ==> classes[c].pri < p
      {
        p := p - 1;
        RingBusy(classes, rings, na, p);
        if na[p] != 0 {
          var starved;
          found, first, starved := Round(p, false, under, first);
          if found.None? && starved {
            found, first, starved := Round(p, true, under, first);
          }
          if found.Some? {
            return;
          }
        }
      }
    }

    /** Raise the cutoff until a class is found or all depths are allowed; then, if the
        link is to be kept busy, the first that may borrow. */
    method Choose(under: (nat, nat) -> bool) returns (choice: Option<nat>, first: Option<nat>)
      requires Valid()
      modifies `alloc, `cutoff
      ensures alloc.Keys == old(alloc.Keys)
      ensures choice.Some? ==> Waiting(classes, choice.value)
      ensures choice.Some? && choice != first ==> Best(classes, cutoff, choice.value, under) && old(cutoff) <= cutoff
      ensures choice.Some? && choice == first ==> efficient && MayBorrow(choice.value) && cutoff == BorrowDepth(choice.value)
      ensures choice.None? ==> cutoff == MAXDEPTH
      ensures SomeAble(classes, old(cutoff), under) ==> choice.Some? && choice != first && cutoff == old(cutoff)
    {
      var found;
      found, first := Search(under, None);
      while found.None? && first.Some? && cutoff < depth[root]
        invariant alloc.Keys == old(alloc.Keys) && (first.Some? ==> MayBorrow(first.value))
        invariant found.Some? ==> Best(classes, cutoff, found.value, under)
        invariant old(cutoff) <= cutoff
        invariant SomeAble(classes, old(cutoff), under) ==> found.Some? && cutoff == old(cutoff)
        decreases found.None?, depth[root] - cutoff
      {
        cutoff := cutoff + 1;
        found, first := Search(under, first);
      }
      if found.Some? {
        return found, None;
      }
      cutoff := MAXDEPTH;
      if !efficient || first.None? {
        return None, None;
      }
      cutoff := BorrowDepth(first.value);
      choice := first;
    }

    function BorrowDepth(c: nat): nat
      requires Valid() && MayBorrow(c)
      reads this
    {
      ParentIn(parent, depth, c);
      depth[parent[c].value]
    }

    /** Take or only show the next packet. */
    method Dequeue(remove: bool, under: (nat, nat) -> bool) returns (o: Outcome)
      requires Valid()
      modifies this
      ensures !o.Panic? && !o.Freed? ==> Valid() && parent == old(parent)
      ensures o.Panic? <==> remove && old(cache.Some? && cache.value in classes && classes[cache.value].queue == [])
      ensures o.Freed? <==> remove && old(cache.Some? && cache.value !in classes)
      ensures !old(purged) ==> !o.Panic? && !o.Freed?
      ensures o.Packet? ==> old(Waiting(classes, o.class_)) && o.len == old(classes[o.class_].queue[0])
      ensures o.Packet? ==>
        var served := old(classes[o.class_]).(queue := old(classes[o.class_].queue[1..]));
        classes == if remove then old(classes)[o.class_ := served] else old(classes)
      ensures o.Nothing? ==> classes == old(classes)
      ensures !remove && o.Packet? ==> cache == Some(o.class_) && !purged
      ensures remove && old(cache.Some?) && o.Packet? ==> o.class_ == old(cache.value)
      ensures !(remove && old(cache.Some?)) && SomeAble(old(classes), old(cutoff), under) ==>
        o.Packet? && Best(old(classes), old(cutoff), o.class_, under)
    {
      if remove && cache.Some? {
        o := TakeShown(under);
        return;
      }
      cache := None;
      var choice, first := Choose(under);
      if choice.None? {
        return Nothing;
      }
      var c := choice.value;
      o := Packet(c, classes[c].queue[0]);
      if remove {
        Take(c, first);
      } else {
        cache, purged := choice, false;
      }
    }

    /** The class shown by the last poll. */
    method TakeShown(under: (nat, nat) -> bool) returns (o: Outcome)
      requires Valid() && cache.Some?
      modifies this
      ensures !o.Panic? && !o.Freed? ==> Valid() && parent == old(parent)
      ensures o.Panic? <==> old(cache.value in classes && classes[cache.value].queue == [])
      ensures o.Freed? <==> old(cache.value !in classes)
      ensures !o.Nothing? && (o.Packet? ==> o.class_ == old(cache.value) && o.len == old(classes[cache.value].queue[0]))
      ensures o.Packet? ==> classes == old(classes)[o.class_ := old(classes[cache.value]).(queue := old(classes[cache.value].queue[1..]))]
    {
      var c := cache.value;
      if c !in classes {
        return Freed;
      }
      if classes[c].queue == [] {
        return Panic;
      }
      var first := if weighted && efficient && !under(cutoff, c) then cache else None;
      cache := None;
      o := Packet(c, classes[c].queue[0]);
      Take(c, first);
    }

    method Take(c: nat, first: Option<nat>)
      requires Valid() && Waiting(classes, c) && cache.None?
      modifies `classes, `na, `alloc, `rings
      ensures Valid() && classes == old(classes)[c := old(classes[c]).(queue := old(classes[c].queue[1..]))]
    {
      var len, p := classes[c].queue[0], classes[c].pri;
      RingMember(classes, rings, c);
      SetQueue(c, classes[c].queue[1..]);
      if weighted && alloc[c] > 0 {
        alloc := alloc[c := alloc[c] - len];
      }
      Advance(c, p, !weighted || alloc[c] <= 0 || first == Some(c));
    }

    /** The ring of class c goes on from c, or from the one after it. */
    method Advance(c: nat, p: nat, past: bool)
      requires Valid() && c in classes && classes[c].pri == p < MAXPRIO
      modifies `rings
      ensures Valid() && rings == old(rings)[p := rings[p]] && |rings[p]| == |old(rings)[p]| > 0
      ensures if past then rings[p][|rings[p]| - 1] == c else rings[p][0] == c
    {
      RingMember(classes, rings, c);
      var n := Position(rings[p], c);
      var start := if past then n + 1 else n;
      TurnedRings(classes, rings, p, start);
      rings := rings[p := rings[p][start..] + rings[p][..start]];
    }
  }

  /** A class with a packet, below the root. */
  method Loaded() returns (s: Scheduler, c: nat)
    ensures fresh(s) && s.Valid() && s.cache.None? && c != s.root
    ensures s.parent == map[s.root := None, c := Some(s.root)]
    ensures s.classes.Keys == {s.root, c} && s.classes[c].queue == [100] && s.classes[s.root].queue == []
  {
    s := new Scheduler(true, true, 50, 1000);
    var made := s.NewClass(1, 50, 0, true, 1000);
    c := made.value;
    var dropped := s.Enqueue(c, 100, k => true);
  }

  /** And a poll has just shown it. */
  method Polled() returns (s: Scheduler, c: nat)
    ensures fresh(s) && s.Valid() && s.cache == Some(c) && c in s.classes && c != s.root
    ensures s.parent == map[s.root := None, c := Some(s.root)]
  {
    s, c := Loaded();
    var all := (cutoff, class_) => true;
    assert Able(s.classes, s.cutoff, c, all);
    var o := s.Dequeue(false, all);
  }

  /** Emptying the class last shown by a poll leaves the poll remembered, and the
      removal finds that class empty. */
  method PollDropRemove() returns (o: Outcome)
    ensures o.Panic?
  {
    var s, c := Polled();
    s.DropAll(c);
    o := s.Dequeue(true, (cutoff, class_) => true);
  }

  /** Deleting it leaves the removal with a class that is gone. */
  method PollDeleteRemove() returns (o: Outcome)
    ensures o.Freed?
  {
    var s, c := Polled();
    assert forall k :: !ChildOf(s.parent, k, c);
    s.DeleteClass(c);
    o := s.Dequeue(true, (cutoff, class_) => true);
  }

  lemma SetTwice(m: map<nat, Class>, c: nat, x: Class, y: Class)
    ensures m[c := x][c := y] == m[c := y]
  {
  }

  lemma RingMember(classes: map<nat, Class>, rings: seq<seq<nat>>, c: nat)
    requires Ringed(classes, rings) && c in classes
    ensures |rings| == MAXPRIO && classes[c].pri < MAXPRIO && c in rings[classes[c].pri]
  {
    assert InPart(RINGS, 0);
    assert RingOk(classes, rings[classes[c].pri], classes[c].pri);
  }

  lemma Priorities(classes: map<nat, Class>, rings: seq<seq<nat>>)
    requires Ringed(classes, rings)
    ensures forall c :: c in classes ==> classes[c].pri < MAXPRIO
  {
    assert InPart(RINGS, 0);
  }

  lemma FreshOk(classes: map<nat, Class>, rings: seq<seq<nat>>, na: seq<int>, parent: Parents, depth: map<nat, nat>)
    requires classes.Keys == {0} && classes[0].pri == 0 && classes[0].queue == []
    requires rings == [[0], [], [], [], [], [], [], []] && na == [0, 0, 0, 0, 0, 0, 0, 0]
    requires parent == map[0 := None] && depth == map[0 := 0]
    ensures Ringed(classes, rings) && Counted(classes, na) && Treed(parent, depth)
  {
    assert forall p :: 0 <= p < MAXPRIO ==> Busy(classes, p) == {};
  }

  lemma JoinRings(classes: map<nat, Class>, rings: seq<seq<nat>>, na: seq<int>, id: nat, new_: Class)
    requires Ringed(classes, rings) && |rings| == MAXPRIO && Counted(classes, na)
    requires id !in classes && new_.pri < MAXPRIO && new_.queue == []
    ensures Ringed(classes[id := new_], rings[new_.pri := rings[new_.pri] + [id]])
    ensures Counted(classes[id := new_], na)
  {
    assert InPart(RINGS, 0) && InPart(COUNTS, 0);
    var classes', rings' := classes[id := new_], rings[new_.pri := rings[new_.pri] + [id]];
    forall p | 0 <= p < MAXPRIO
      ensures RingOk(classes', rings'[p], p) && Busy(classes', p) == Busy(classes, p)
    {
      assert RingOk(classes, rings[p], p);
    }
  }

  lemma LeaveRings(classes: map<nat, Class>, rings: seq<seq<nat>>, na: seq<int>, c: nat, n: nat)
    requires Ringed(classes, rings) && |rings| == MAXPRIO && Counted(classes, na)
    requires c in classes && classes[c].queue == [] && classes[c].pri < MAXPRIO
    requires n < |rings[classes[c].pri]| && rings[classes[c].pri][n] == c
    ensures var pri := classes[c].pri;
      Ringed(classes - {c}, rings[pri := rings[pri][..n] + rings[pri][n + 1..]]) && Counted(classes - {c}, na)
  {
    assert InPart(RINGS, 0) && InPart(COUNTS, 0);
    var pri := classes[c].pri;
    var r := rings[pri][..n] + rings[pri][n + 1..];
    var classes', rings' := classes - {c}, rings[pri := r];
    Taken(classes, rings[pri], pri, n);
    forall p | 0 <= p < MAXPRIO
      ensures RingOk(classes', rings'[p], p) && Busy(classes', p) == Busy(classes, p)
    {
      assert RingOk(classes, rings[p], p);
    }
  }

  lemma Taken(classes: map<nat, Class>, ring: seq<nat>, p: nat, n: nat)
    requires RingOk(classes, ring, p) && n < |ring|
    ensures RingOk(classes - {ring[n]}, ring[..n] + ring[n + 1..], p)
  {
    var r := ring[..n] + ring[n + 1..];
    assert forall k :: 0 <= k < |r| ==> r[k] == ring[if k < n then k else k + 1];
    forall c | c in ring && c != ring[n]
      ensures c in r
    {
      var k :| 0 <= k < |ring| && ring[k] == c;
      assert r[if k < n then k else k - 1] == c;
    }
  }
}
