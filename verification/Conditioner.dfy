/** The traffic conditioner of one interface: meters and plain elements whose actions
    may lead to other meters, kept alive by reference counts. */
module Conditioner {
  import opened Marks
  import opened Options

  /** What to do with a packet; Next hands it to another block. */
  datatype Action = Nothing | Pass | Drop | Mark(dscp: nat) | Next(block: nat)

  /** An action as a user gives it; a handle names a block. */
  datatype Request = AskPass | AskDrop | AskMark(dscp: nat) | AskHandle(handle: nat) | AskOther

  /** Blocks are numbered in order of creation. A meter chooses among its actions. */
  datatype Block = Block(meter: bool, actions: seq<Action>)

  function Occurs(actions: seq<Action>, b: nat): nat {
    if actions == [] then 0 else (if actions[0] == Next(b) then 1 else 0) + Occurs(actions[1..], b)
  }

  /** How often the listed blocks refer to block b. */
  function Mentions(blocks: map<nat, Block>, list: seq<nat>, b: nat): nat
    requires forall k :: 0 <= k < |list| ==> list[k] in blocks
  {
    if list == [] then 0 else Occurs(blocks[list[0]].actions, b) + Mentions(blocks, list[1..], b)
  }

  /** Newest first; used where Inside is mentioned. */
  ghost predicate Descending(list: seq<nat>) {
    forall n: nat {:trigger Inside(n)} :: Inside(n) ==> forall k, j :: 0 <= k < j < |list| ==> list[k] > list[j]
  }

  /** The list holds exactly the live blocks. */
  ghost predicate Listed(blocks: map<nat, Block>, list: seq<nat>) {
    && (forall k :: 0 <= k < |list| ==> list[k] in blocks)
    && (forall b :: b in blocks ==> b in list)
    && Descending(list)
  }

  /** An action of block b leads only to a live block created before b. */
  ghost predicate LeadsBack(blocks: map<nat, Block>, b: nat, a: Action) {
    a.Next? ==> a.block in blocks && a.block < b
  }

  /** Every link leads to a meter. */
  ghost predicate ToMeters(blocks: map<nat, Block>) {
    forall b, k :: b in blocks && 0 <= k < |blocks[b].actions| && blocks[b].actions[k].Next? ==>
      blocks[b].actions[k].block in blocks && blocks[blocks[b].actions[k].block].meter
  }

  ghost predicate BlockOk(blocks: map<nat, Block>, b: nat)
    requires b in blocks
  {
    && (blocks[b].meter ==> |blocks[b].actions| >= 1)
    && (!blocks[b].meter ==> |blocks[b].actions| == 1)
    && (forall k :: 0 <= k < |blocks[b].actions| ==> LeadsBack(blocks, b, blocks[b].actions[k]))
  }

  lemma {:induction false} OccursNone(actions: seq<Action>, b: nat)
    requires forall k :: 0 <= k < |actions| ==> actions[k] != Next(b)
    ensures Occurs(actions, b) == 0
  {
    if actions != [] {
      OccursNone(actions[1..], b);
    }
  }

  lemma {:induction false} OccursSome(actions: seq<Action>, b: nat, k: nat)
    requires k < |actions| && actions[k] == Next(b)
    ensures Occurs(actions, b) > 0
  {
    if k > 0 {
      OccursSome(actions[1..], b, k - 1);
    }
  }

  lemma {:induction false} MentionsNone(blocks: map<nat, Block>, list: seq<nat>, b: nat)
    requires forall k :: 0 <= k < |list| ==> list[k] in blocks
    requires forall k :: 0 <= k < |list| ==> Occurs(blocks[list[k]].actions, b) == 0
    ensures Mentions(blocks, list, b) == 0
  {
    if list != [] {
      MentionsNone(blocks, list[1..], b);
    }
  }

  /** Blocks outside the list do not matter. */
  lemma {:induction false} MentionsSame(blocks: map<nat, Block>, blocks': map<nat, Block>, list: seq<nat>, b: nat)
    requires forall k :: 0 <= k < |list| ==> list[k] in blocks && list[k] in blocks' && blocks[list[k]] == blocks'[list[k]]
    ensures Mentions(blocks, list, b) == Mentions(blocks', list, b)
  {
    if list != [] {
      MentionsSame(blocks, blocks', list[1..], b);
    }
  }

  lemma {:induction false} MentionsWithout(blocks: map<nat, Block>, list: seq<nat>, i: nat, b: nat)
    requires i < |list| && forall k :: 0 <= k < |list| ==> list[k] in blocks
    ensures Mentions(blocks, list[..i] + list[i + 1..], b) == Mentions(blocks, list, b) - Occurs(blocks[list[i]].actions, b)
  {
    if i == 0 {
      assert list[..i] + list[i + 1..] == list[1..];
    } else {
      MentionsWithout(blocks, list[1..], i - 1, b);
      assert (list[..i] + list[i + 1..])[1..] == list[1..][..i - 1] + list[1..][i..];
    }
  }

  /** Who has no reference is mentioned nowhere; the newest block is one of those. */
  lemma {:induction false} MentionsZero(blocks: map<nat, Block>, list: seq<nat>, b: nat, k: nat)
    requires k < |list| && forall j :: 0 <= j < |list| ==> list[j] in blocks
    requires Mentions(blocks, list, b) == 0
    ensures Occurs(blocks[list[k]].actions, b) == 0
  {
    if k > 0 {
      MentionsZero(blocks, list[1..], b, k - 1);
    }
  }

  lemma {:induction false} NewestFree(blocks: map<nat, Block>, list: seq<nat>)
    requires Listed(blocks, list) && list != [] && Linked(blocks)
    ensures Mentions(blocks, list, list[0]) == 0
  {
    assert Inside(0);
    forall k | 0 <= k < |list|
      ensures Occurs(blocks[list[k]].actions, list[0]) == 0
    {
      assert BlockOk(blocks, list[k]);
      OccursNone(blocks[list[k]].actions, list[0]);
    }
    MentionsNone(blocks, list, list[0]);
  }

  ghost predicate Linked(blocks: map<nat, Block>) {
    forall b :: b in blocks ==> BlockOk(blocks, b)
  }

  /** Every live block is counted as often as live blocks lead to it. */
  ghost predicate Counted(blocks: map<nat, Block>, list: seq<nat>, refs: map<nat, int>) {
    && Listed(blocks, list) && refs.Keys == blocks.Keys
    && forall b :: b in blocks ==> refs[b] == Mentions(blocks, list, b)
  }

  class Top {
    var blocks: map<nat, Block>
    /** Live blocks, newest first. */
    var list: seq<nat>
    var refs: map<nat, int>
    var created: nat

    ghost predicate Valid()
      reads this
    {
      && Counted(blocks, list, refs) && Linked(blocks)
      && (forall b :: b in blocks ==> b < created)
    }

    constructor ()
      ensures Valid() && blocks == map[]
    {
      blocks, list, refs, created := map[], [], map[], 0;
    }

    /** A handle is good if it names a live block. */
    predicate Good(r: Request)
      reads this
    {
      match r
      case AskHandle(h) => h in blocks
      case AskOther => false
      case _ => true
    }

    /** Create a block with the given actions: refused if one of them is not good. */
    method Create(meter: bool, requests: seq<Request>) returns (b: Option<nat>)
      requires Valid() && if meter then |requests| >= 1 else |requests| == 1
      modifies this
      ensures Valid()
      ensures b.None? <==> exists k :: 0 <= k < |requests| && !old(Good(requests[k]))
      ensures b.None? ==> blocks == old(blocks)
      ensures b.Some? ==> b.value !in old(blocks) && blocks == old(blocks)[b.value := Block(meter, AllImported(requests))]
    {
      var k := 0;
      while k < |requests|
        invariant 0 <= k <= |requests|
        invariant forall j :: 0 <= j < k ==> Good(requests[j])
      {
        if !Good(requests[k]) {
          return None;
        }
        k := k + 1;
      }
      var actions := ImportAll(requests);
      var id := created;
      Added(blocks, list, refs, Block(meter, actions), id);
      blocks := blocks[id := Block(meter, actions)];
      refs := refs[id := 0];
      list := [id] + list;
      created := created + 1;
      b := Some(id);
    }

    /** Turn handles into links, and count them. */
    method ImportAll(requests: seq<Request>) returns (actions: seq<Action>)
      requires Valid() && forall k :: 0 <= k < |requests| ==> Good(requests[k])
      modifies `refs
      ensures actions == AllImported(requests) && CountedWith(blocks, list, refs, actions)
    {
      actions := [];
      var k := 0;
      while k < |requests|
        invariant 0 <= k <= |requests| && |actions| == k
        invariant forall j :: 0 <= j < k ==> actions[j] == Imported(requests[j])
        invariant CountedWith(blocks, list, refs, actions)
      {
        var a := Imported(requests[k]);
        CountOne(blocks, list, refs, actions, a);
        if a.Next? {
          refs := refs[a.block := refs[a.block] + 1];
        }
        actions := actions + [a];
        k := k + 1;
      }
    }

    /** Destroy a block, unless something still leads to it. */
    method Destroy(b: nat) returns (done: bool)
      requires Valid() && b in blocks
      modifies this
      ensures Valid() && (done <==> old(refs[b]) == 0)
      ensures blocks == if done then old(blocks) - {b} else old(blocks)
      ensures done ==> |list| == |old(list)| - 1
    {
      if refs[b] > 0 {
        return false;
      }
      Release(b);
      var i := Index(b);
      Removed(blocks, list, refs, i);
      list := list[..i] + list[i + 1..];
      blocks := blocks - {b};
      refs := refs - {b};
      done := true;
    }

    method Release(b: nat)
      requires Valid() && b in blocks
      modifies `refs
      ensures CountedBut(blocks, list, refs, blocks[b].actions)
    {
      var actions := blocks[b].actions;
      assert BlockOk(blocks, b);
      assert forall k :: 0 <= k < |actions| ==> LeadsBack(blocks, b, actions[k]);
      InvalidateAll(actions);
    }

    /** Take the links among some actions off the counts. */
    method InvalidateAll(actions: seq<Action>)
      requires CountedBut(blocks, list, refs, [])
      requires forall k :: 0 <= k < |actions| && actions[k].Next? ==> actions[k].block in blocks
      modifies `refs
      ensures CountedBut(blocks, list, refs, actions)
    {
      var k := 0;
      while k < |actions|
        invariant 0 <= k <= |actions| && CountedBut(blocks, list, refs, actions[..k])
      {
        var a := actions[k];
        CountOneLess(blocks, list, refs, actions[..k], a);
        if a.Next? {
          refs := refs[a.block := refs[a.block] - 1];
        }
        TakeOne(actions, k);
        k := k + 1;
      }
      assert actions[..k] == actions;
    }

    method Index(b: nat) returns (i: nat)
      requires b in list
      ensures i < |list| && list[i] == b
    {
      i := 0;
      while list[i] != b
        invariant 0 <= i < |list|
        invariant forall j :: 0 <= j < i ==> list[j] != b
        decreases |list| - i
      {
        if i + 1 == |list| {
          assert false;
        }
        i := i + 1;
      }
    }

    /** Destroy everything: there is always a block nothing leads to. */
    method DestroyAll()
      requires Valid()
      modifies this
      ensures Valid() && blocks == map[] && list == []
    {
      while list != []
        invariant Valid()
        decreases |list|
      {
        var k := 0;
        while k < |list| && refs[list[k]] > 0
          invariant 0 <= k <= |list|
          invariant k > 0 ==> refs[list[0]] > 0
        {
          k := k + 1;
        }
        NewestFree(blocks, list);
        if k < |list| {
          var done := Destroy(list[k]);
        } else {
          assert false;
        }
      }
      assert blocks.Keys == {};
    }

    /** Take a packet through the blocks, from the one it was classified to, letting
        each meter pick its action, until something is done with it. None: a link leads
        to an element, which has no input function to call. */
    method Input(start: Option<nat>, pick: nat -> nat) returns (verdict: Option<Action>)
      requires Valid() && (start.Some? ==> start.value in blocks)
      ensures verdict.Some? ==> !verdict.value.Next?
      ensures verdict == if start.None? then Some(Pass) else Outcome(blocks, First(blocks, start.value), pick, created)
      ensures ToMeters(blocks) ==> verdict.Some?
    {
      if start.None? {
        return Some(Pass);
      }
      var a := First(blocks, start.value);
      assert BlockOk(blocks, start.value);
      ghost var bound: nat := created;
      while a.Next?
        invariant a.Next? ==> a.block in blocks && a.block < bound
        invariant a.Next? && ToMeters(blocks) ==> blocks[a.block].meter
        invariant bound <= created
        invariant Outcome(blocks, a, pick, bound) == Outcome(blocks, First(blocks, start.value), pick, created)
        decreases bound
      {
        var b := a.block;
        assert BlockOk(blocks, b);
        if !blocks[b].meter {
          return None;
        }
        a := Chosen(blocks[b], pick(b));
        assert LeadsBack(blocks, b, a);
        bound := b;
      }
      verdict := Some(a);
    }
  }

  /** A handle may name an element, and then the packet loop has nothing to call. */
  method LinkToElement() returns (verdict: Option<Action>)
    ensures verdict.None?
  {
    var top := new Top();
    var element := top.Create(false, [AskDrop]);
    var meter := top.Create(true, [AskHandle(element.value)]);
    verdict := top.Input(meter, n => 0);
    var b := top.blocks[meter.value];
    assert b.actions[0] == Next(element.value) && !top.blocks[element.value].meter;
  }

  /** An action as asked for; a code point keeps its upper six bits. */
  function Imported(r: Request): (a: Action)
    ensures r.AskHandle? ==> a == Next(r.handle)
    ensures r.AskMark? ==> a.Mark? && a.dscp % 4 == 0 && a.dscp <= r.dscp % 0x100 < a.dscp + 4
  {
    match r
    case AskPass => Pass
    case AskDrop => Drop
    case AskMark(d) => Mark(d % 0x100 / 4 * 4)
    case AskHandle(h) => Next(h)
    case AskOther => Nothing
  }

  /** Where a block starts: a meter with itself, an element with its action. */
  function First(blocks: map<nat, Block>, b: nat): Action
    requires b in blocks && (blocks[b].meter || |blocks[b].actions| == 1)
  {
    if blocks[b].meter then Next(b) else blocks[b].actions[0]
  }

  function Chosen(b: Block, n: nat): Action
    requires |b.actions| >= 1
  {
    b.actions[n % |b.actions|]
  }

  /** Where the links lead from an action, each block being older than bound and older
      than the one before; nowhere from an element. */
  ghost function Outcome(blocks: map<nat, Block>, a: Action, pick: nat -> nat, bound: nat): Option<Action>
    decreases bound
  {
    if !a.Next? then Some(a)
    else if a.block < bound && a.block in blocks && blocks[a.block].meter && |blocks[a.block].actions| >= 1 then
      Outcome(blocks, Chosen(blocks[a.block], pick(a.block)), pick, a.block)
    else None
  }

  // ----- when every packet has a verdict

  /** From every block, whatever the meters choose. */
  ghost predicate AlwaysVerdict(blocks: map<nat, Block>, created: nat)
    requires Linked(blocks)
  {
    forall b, pick :: b in blocks ==> Ends(blocks, b, pick, created)
  }

  ghost predicate Ends(blocks: map<nat, Block>, b: nat, pick: nat -> nat, created: nat)
    requires Linked(blocks) && b in blocks
  {
    assert BlockOk(blocks, b);
    Outcome(blocks, First(blocks, b), pick, created).Some?
  }

  lemma {:induction false} MetersEnd(blocks: map<nat, Block>, a: Action, pick: nat -> nat, bound: nat)
    requires Linked(blocks) && ToMeters(blocks)
    requires a.Next? ==> a.block in blocks && a.block < bound && blocks[a.block].meter
    ensures Outcome(blocks, a, pick, bound).Some?
    decreases bound
  {
    if a.Next? {
      var b := blocks[a.block];
      assert BlockOk(blocks, a.block);
      var next := Chosen(b, pick(a.block));
      assert LeadsBack(blocks, a.block, next);
      MetersEnd(blocks, next, pick, a.block);
    }
  }

  /** The packet that arrives at a link to an element has no verdict. */
  lemma ElementStops(blocks: map<nat, Block>, created: nat, b: nat, k: nat)
    requires Linked(blocks) && b in blocks && k < |blocks[b].actions| && b < created
    requires var a := blocks[b].actions[k]; a.Next? && a.block in blocks && !blocks[a.block].meter
    ensures !Ends(blocks, b, n => k, created)
  {
    assert BlockOk(blocks, b);
    var a := blocks[b].actions[k];
    if blocks[b].meter {
      assert Chosen(blocks[b], k) == a;
      assert Outcome(blocks, a, n => k, b).None?;
    }
  }

  /** Every packet has a verdict exactly if every link leads to a meter. */
  lemma VerdictIff(blocks: map<nat, Block>, created: nat)
    requires Linked(blocks) && forall b :: b in blocks ==> b < created
    ensures AlwaysVerdict(blocks, created) <==> ToMeters(blocks)
  {
    if ToMeters(blocks) {
      forall b, pick | b in blocks
        ensures Ends(blocks, b, pick, created)
      {
        assert BlockOk(blocks, b);
        MetersEnd(blocks, First(blocks, b), pick, created);
      }
    } else {
      var b, k :| b in blocks && 0 <= k < |blocks[b].actions| && blocks[b].actions[k].Next?
        && !(blocks[b].actions[k].block in blocks && blocks[blocks[b].actions[k].block].meter);
      assert BlockOk(blocks, b) && LeadsBack(blocks, b, blocks[b].actions[k]);
      ElementStops(blocks, created, b, k);
    }
  }

  lemma {:induction false} OccursAppend(actions: seq<Action>, a: Action, b: nat)
    ensures Occurs(actions + [a], b) == Occurs(actions, b) + if a == Next(b) then 1 else 0
  {
    if actions == [] {
      assert actions + [a] == [a];
    } else {
      assert (actions + [a])[1..] == actions[1..] + [a];
      OccursAppend(actions[1..], a, b);
    }
  }

  lemma TakeOne(actions: seq<Action>, k: nat)
    requires k < |actions|
    ensures actions[..k + 1] == actions[..k] + [actions[k]]
  {
  }

  /** The counts with those of some actions added, or taken off. */
  ghost predicate CountedWith(blocks: map<nat, Block>, list: seq<nat>, refs: map<nat, int>, actions: seq<Action>) {
    && (forall k :: 0 <= k < |list| ==> list[k] in blocks) && refs.Keys == blocks.Keys
    && forall b :: b in blocks ==> refs[b] == Mentions(blocks, list, b) + Occurs(actions, b)
  }

  ghost predicate CountedBut(blocks: map<nat, Block>, list: seq<nat>, refs: map<nat, int>, actions: seq<Action>) {
    && (forall k :: 0 <= k < |list| ==> list[k] in blocks) && refs.Keys == blocks.Keys
    && forall b :: b in blocks ==> refs[b] == Mentions(blocks, list, b) - Occurs(actions, b)
  }

  lemma CountOne(blocks: map<nat, Block>, list: seq<nat>, refs: map<nat, int>, actions: seq<Action>, a: Action)
    requires CountedWith(blocks, list, refs, actions) && (a.Next? ==> a.block in blocks)
    ensures CountedWith(blocks, list, if a.Next? then refs[a.block := refs[a.block] + 1] else refs, actions + [a])
  {
    forall b | b in blocks
      ensures Occurs(actions + [a], b) == Occurs(actions, b) + if a == Next(b) then 1 else 0
    {
      OccursAppend(actions, a, b);
    }
  }

  lemma CountOneLess(blocks: map<nat, Block>, list: seq<nat>, refs: map<nat, int>, actions: seq<Action>, a: Action)
    requires CountedBut(blocks, list, refs, actions) && (a.Next? ==> a.block in blocks)
    ensures CountedBut(blocks, list, if a.Next? then refs[a.block := refs[a.block] - 1] else refs, actions + [a])
  {
    forall b | b in blocks
      ensures Occurs(actions + [a], b) == Occurs(actions, b) + if a == Next(b) then 1 else 0
    {
      OccursAppend(actions, a, b);
    }
  }

  function AllImported(requests: seq<Request>): seq<Action> {
    seq(|requests|, k requires 0 <= k < |requests| => Imported(requests[k]))
  }

  lemma {:induction false} AddedLinks(blocks: map<nat, Block>, new_: Block, id: nat)
    requires Linked(blocks) && id !in blocks
    requires forall k :: 0 <= k < |new_.actions| ==> LeadsBack(blocks, id, new_.actions[k])
    requires if new_.meter then |new_.actions| >= 1 else |new_.actions| == 1
    ensures Linked(blocks[id := new_])
  {
    var after := blocks[id := new_];
    forall b | b in after
      ensures BlockOk(after, b)
    {
      assert b != id ==> BlockOk(blocks, b);
      forall k | 0 <= k < |after[b].actions|
        ensures LeadsBack(after, b, after[b].actions[k])
      {
        assert LeadsBack(blocks, b, after[b].actions[k]);
      }
    }
  }

  /** A new block adds its own links, and nothing leads to it. */
  lemma {:induction false} Added(blocks: map<nat, Block>, list: seq<nat>, refs: map<nat, int>, new_: Block, id: nat)
    requires Listed(blocks, list) && Linked(blocks) && refs.Keys == blocks.Keys
    requires forall b :: b in blocks ==> b < id && refs[b] == Mentions(blocks, list, b) + Occurs(new_.actions, b)
    requires forall k :: 0 <= k < |new_.actions| ==> LeadsBack(blocks, id, new_.actions[k])
    requires if new_.meter then |new_.actions| >= 1 else |new_.actions| == 1
    ensures Linked(blocks[id := new_]) && Counted(blocks[id := new_], [id] + list, refs[id := 0])
  {
    var after, all := blocks[id := new_], [id] + list;
    AddedLinks(blocks, new_, id);
    AddedList(blocks, list, new_, id);
    NewestFree(after, all);
    forall b | b in blocks
      ensures Mentions(after, all, b) == refs[b]
    {
      AddedMentions(blocks, list, new_, id, b);
    }
  }

  lemma {:induction false} AddedList(blocks: map<nat, Block>, list: seq<nat>, new_: Block, id: nat)
    requires Listed(blocks, list) && forall b :: b in blocks ==> b < id
    ensures Listed(blocks[id := new_], [id] + list)
  {
    assert Inside(0);
    var all := [id] + list;
    assert forall b :: b in list ==> b in all;
    assert all[0] == id;
  }

  lemma {:induction false} AddedMentions(blocks: map<nat, Block>, list: seq<nat>, new_: Block, id: nat, b: nat)
    requires Listed(blocks, list) && id !in blocks && Listed(blocks[id := new_], [id] + list)
    ensures Mentions(blocks[id := new_], [id] + list, b) == Mentions(blocks, list, b) + Occurs(new_.actions, b)
  {
    assert ([id] + list)[1..] == list;
    MentionsSame(blocks, blocks[id := new_], list, b);
  }

  lemma {:induction false} RemovedList(blocks: map<nat, Block>, list: seq<nat>, i: nat)
    requires Listed(blocks, list) && i < |list|
    ensures Listed(blocks - {list[i]}, list[..i] + list[i + 1..])
  {
    assert Inside(0);
    var after, rest := blocks - {list[i]}, list[..i] + list[i + 1..];
    assert forall k :: 0 <= k < |rest| ==> rest[k] == list[if k < i then k else k + 1];
    forall c | c in after
      ensures c in rest
    {
      var k :| 0 <= k < |list| && list[k] == c;
      assert rest[if k < i then k else k - 1] == c;
    }
  }

  /** Without a block nothing leads to, the rest is as it was. */
  lemma {:induction false} Removed(blocks: map<nat, Block>, list: seq<nat>, refs: map<nat, int>, i: nat)
    requires Listed(blocks, list) && Linked(blocks) && refs.Keys == blocks.Keys
    requires i < |list| && Mentions(blocks, list, list[i]) == 0
    requires forall c :: c in blocks ==> refs[c] == Mentions(blocks, list, c) - Occurs(blocks[list[i]].actions, c)
    ensures var b := list[i];
      Linked(blocks - {b}) && Counted(blocks - {b}, list[..i] + list[i + 1..], refs - {b})
  {
    var b, after, rest := list[i], blocks - {list[i]}, list[..i] + list[i + 1..];
    RemovedList(blocks, list, i);
    forall c | c in after
      ensures BlockOk(after, c)
    {
      assert BlockOk(blocks, c);
      Unmentioned(blocks, list, b, c);
    }
    forall c | c in after
      ensures Mentions(after, rest, c) == refs[c]
    {
      RemovedMentions(blocks, list, i, c);
    }
  }

  lemma {:induction false} RemovedMentions(blocks: map<nat, Block>, list: seq<nat>, i: nat, c: nat)
    requires Listed(blocks, list) && i < |list| && Listed(blocks - {list[i]}, list[..i] + list[i + 1..])
    ensures Mentions(blocks - {list[i]}, list[..i] + list[i + 1..], c) ==
            Mentions(blocks, list, c) - Occurs(blocks[list[i]].actions, c)
  {
    MentionsWithout(blocks, list, i, c);
    MentionsSame(blocks, blocks - {list[i]}, list[..i] + list[i + 1..], c);
  }

  lemma {:induction false} Unmentioned(blocks: map<nat, Block>, list: seq<nat>, b: nat, c: nat)
    requires Listed(blocks, list) && b in blocks && c in blocks && c != b && Mentions(blocks, list, b) == 0 && BlockOk(blocks, c)
    ensures BlockOk(blocks - {b}, c)
  {
    var k :| 0 <= k < |list| && list[k] == c;
    MentionsZero(blocks, list, b, k);
    forall j | 0 <= j < |blocks[c].actions|
      ensures LeadsBack(blocks - {b}, c, blocks[c].actions[j])
    {
      assert LeadsBack(blocks, c, blocks[c].actions[j]);
      if blocks[c].actions[j] == Next(b) {
        OccursSome(blocks[c].actions, b, j);
      }
    }
  }
}
