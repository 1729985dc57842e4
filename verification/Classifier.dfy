/** The common IPv4 packet classifier: filters in a hash table by destination address,
    with one list for those without a full one, and shortcuts when only some fields
    are in use. It must find what a plain scan of all filters in order of precedence
    finds. */
module Classifier {
  import opened Marks
  import opened Options

  const BUCKETS: nat := 257
  const WILDCARD: nat := 256
  const ID_LIMIT: nat := 0x10_0000
  const FULL: bv32 := 0xffff_ffff

  datatype Field = Proto | Tos | Daddr | Saddr | Dport | Sport | Gpi

  /** The fields of a packet, or the values a filter asks for (0 for any). */
  datatype Flow = Flow(proto: nat, tos: bv8, dst: bv32, src: bv32, dport: nat, sport: nat, gpi: nat)

  /** A filter as given. */
  datatype Rule = Rule(number: int, flow: Flow, maskDst: bv32, maskSrc: bv32, maskTos: bv8)

  /** A filter in the table: its rule made regular, the fields it looks at, the class
      it stands for, its handle, and its place in the order of additions. */
  datatype Filter = Filter(rule: Rule, fields: set<Field>, class_: nat, handle: nat, born: nat)

  function FieldsOf(f: Flow): set<Field> {
    (if f.proto != 0 then {Proto} else {}) + (if f.tos != 0 then {Tos} else {}) +
    (if f.dst != 0 then {Daddr} else {}) + (if f.src != 0 then {Saddr} else {}) +
    (if f.sport != 0 then {Sport} else {}) + (if f.dport != 0 then {Dport} else {}) +
    (if f.gpi != 0 then {Gpi} else {})
  }

  /** An address on the bits of a mask. */
  function Masked(a: bv32, m: bv32): bv32 {
    a & m
  }

  /** The mask that a rule means. */
  function MaskFor(value: bv32, mask: bv32): bv32 {
    if value == 0 then 0 else if mask == 0 then FULL else mask
  }

  /** Address 0 is any address; without a mask the whole address counts; bits outside
      the mask are cleared. */
  function Regular(r: Rule): Rule {
    var dst, src := MaskFor(r.flow.dst, r.maskDst), MaskFor(r.flow.src, r.maskSrc);
    r.(maskDst := dst, maskSrc := src, flow := r.flow.(dst := Masked(r.flow.dst, dst), src := Masked(r.flow.src, src)))
  }

  function Hash(a: bv32): nat {
    var x := a + (a >> 16);
    ((x + (x >> 8)) & 0xff) as nat
  }

  function BucketOf(r: Rule): nat {
    if r.maskDst != FULL then WILDCARD else Hash(r.flow.dst)
  }

  // ----- matching

  predicate Applies(f: Filter, p: Flow) {
    && (Sport in f.fields ==> f.rule.flow.sport == p.sport)
    && (Dport in f.fields ==> f.rule.flow.dport == p.dport)
    && (Daddr in f.fields ==> f.rule.flow.dst == Masked(p.dst, f.rule.maskDst))
    && (Saddr in f.fields ==> f.rule.flow.src == Masked(p.src, f.rule.maskSrc))
    && (Proto in f.fields ==> f.rule.flow.proto == p.proto)
    && (Tos in f.fields ==> f.rule.flow.tos == p.tos & f.rule.maskTos)
    && (Gpi in f.fields ==> f.rule.flow.gpi == p.gpi)
  }

  /** A value asked for; 0 asks for nothing. */
  ghost predicate Asked(value: nat, v: nat) {
    value == 0 || value == v
  }

  /** An address asked for, on the bits of a mask; no mask stands for all bits. */
  ghost predicate AskedAddress(value: bv32, mask: bv32, v: bv32) {
    value == 0 || (if mask == 0 then value == v else Masked(value, mask) == Masked(v, mask))
  }

  /** What a rule as given asks of a packet. */
  ghost predicate Asks(r: Rule, p: Flow) {
    && Asked(r.flow.proto, p.proto) && Asked(r.flow.sport, p.sport) && Asked(r.flow.dport, p.dport) && Asked(r.flow.gpi, p.gpi)
    && AskedAddress(r.flow.dst, r.maskDst, p.dst) && AskedAddress(r.flow.src, r.maskSrc, p.src)
    && (r.flow.tos == 0 || p.tos & r.maskTos == r.flow.tos)
  }

  /** A filter made from a rule applies to exactly the packets that the rule asks for. */
  lemma GivenApplies(r: Rule, class_: nat, handle: nat, born: nat, p: Flow)
    ensures Applies(Filter(Regular(r), FieldsOf(r.flow), class_, handle, born), p) <==> Asks(r, p)
  {
    FieldsAre(r.flow);
    DstPiece(r, p);
    SrcPiece(r, p);
    if !AskedAddress(r.flow.dst, r.maskDst, p.dst) {
      assert !Asks(r, p);
    } else if !AskedAddress(r.flow.src, r.maskSrc, p.src) {
      assert !Asks(r, p);
    }
  }

  lemma DstPiece(r: Rule, p: Flow)
    ensures (r.flow.dst != 0 ==> Regular(r).flow.dst == Masked(p.dst, Regular(r).maskDst)) <==> AskedAddress(r.flow.dst, r.maskDst, p.dst)
  {
    if r.flow.dst != 0 {
      AddressAsked(r.flow.dst, r.maskDst, p.dst);
    }
  }

  lemma SrcPiece(r: Rule, p: Flow)
    ensures (r.flow.src != 0 ==> Regular(r).flow.src == Masked(p.src, Regular(r).maskSrc)) <==> AskedAddress(r.flow.src, r.maskSrc, p.src)
  {
    if r.flow.src != 0 {
      AddressAsked(r.flow.src, r.maskSrc, p.src);
    }
  }

  lemma FieldsAre(f: Flow)
    ensures var s := FieldsOf(f);
      && (Proto in s <==> f.proto != 0) && (Tos in s <==> f.tos != 0) && (Gpi in s <==> f.gpi != 0)
      && (Daddr in s <==> f.dst != 0) && (Saddr in s <==> f.src != 0)
      && (Sport in s <==> f.sport != 0) && (Dport in s <==> f.dport != 0)
  {
  }

  lemma AllBits(a: bv32)
    ensures Masked(a, FULL) == a
  {
  }

  lemma AddressAsked(value: bv32, mask: bv32, v: bv32)
    requires value != 0
    ensures Masked(value, MaskFor(value, mask)) == Masked(v, MaskFor(value, mask)) <==> AskedAddress(value, mask, v)
  {
    AllBits(value);
    AllBits(v);
  }

  predicate AppliesPorts(f: Filter, p: Flow) {
    && (Sport in f.fields ==> f.rule.flow.sport == p.sport)
    && (Dport in f.fields ==> f.rule.flow.dport == p.dport)
    && (Proto in f.fields ==> f.rule.flow.proto == p.proto)
  }

  predicate AppliesTos(f: Filter, p: Flow) {
    Tos in f.fields ==> f.rule.flow.tos == p.tos & f.rule.maskTos
  }

  // ----- the order of precedence

  /** Filters for one whole destination address first, then higher rule numbers, then
      newer filters. */
  predicate Before(f: Filter, g: Filter) {
    var whole, whole' := f.rule.maskDst == FULL, g.rule.maskDst == FULL;
    if whole != whole' then whole
    else if f.rule.number != g.rule.number then f.rule.number > g.rule.number
    else f.born > g.born
  }

  /** The filters in the table. */
  ghost function Live(table: seq<seq<Filter>>): set<Filter> {
    set i, k | 0 <= i < |table| && 0 <= k < |table[i]| :: table[i][k]
  }

  /** What a scan of all filters in order of precedence finds for a packet. */
  ghost predicate Found(table: seq<seq<Filter>>, p: Flow, r: Option<nat>) {
    if r.None? then forall f :: f in Live(table) ==> !Applies(f, p)
    else exists f :: f in Live(table) && Foremost(table, p, f) && f.class_ == r.value
  }

  ghost predicate Foremost(table: seq<seq<Filter>>, p: Flow, f: Filter) {
    Applies(f, p) && forall g :: g in Live(table) && Applies(g, p) && g != f ==> Before(f, g)
  }

  // ----- the invariant

  ghost predicate FilterOk(f: Filter, i: nat, mask: set<Field>, clock: nat) {
    && f.fields <= mask && f.born < clock
    && BucketOf(f.rule) == i && f.handle / ID_LIMIT == i
    && (Daddr !in f.fields ==> f.rule.maskDst == 0)
  }

  /** In order of precedence, each with its own handle; used where Inside is mentioned. */
  ghost predicate InOrder(bucket: seq<Filter>) {
    forall n: nat {:trigger Inside(n)} :: Inside(n) ==>
      forall k, j :: 0 <= k < j < |bucket| ==> Before(bucket[k], bucket[j]) && bucket[k].handle != bucket[j].handle
  }

  /** A bucket: each filter belongs here, and they are in order. */
  ghost predicate BucketOk(bucket: seq<Filter>, i: nat, mask: set<Field>, clock: nat) {
    && (forall k :: 0 <= k < |bucket| ==> FilterOk(bucket[k], i, mask, clock))
    && InOrder(bucket)
  }

  lemma InOrderAt(bucket: seq<Filter>, k: nat, j: nat)
    requires InOrder(bucket) && k < j < |bucket|
    ensures Before(bucket[k], bucket[j]) && bucket[k].handle != bucket[j].handle
  {
    assert Inside(0);
  }

  ghost predicate TableOk(table: seq<seq<Filter>>, mask: set<Field>, clock: nat) {
    |table| == BUCKETS && forall i :: 0 <= i < BUCKETS ==> BucketOk(table[i], i, mask, clock)
  }

  lemma HashRange(a: bv32)
    ensures Hash(a) < WILDCARD
  {
  }

  /** A bucket other than the last holds filters for whole addresses. */
  lemma BucketWhole(r: Rule)
    ensures BucketOf(r) < BUCKETS && (BucketOf(r) == WILDCARD <==> r.maskDst != FULL)
  {
    HashRange(r.flow.dst);
  }

  /** A filter that applies is in the packet's bucket or in the last one. */
  lemma WhereApplies(f: Filter, i: nat, mask: set<Field>, clock: nat, p: Flow)
    requires FilterOk(f, i, mask, clock) && Applies(f, p)
    ensures i == WILDCARD || i == Hash(p.dst)
  {
    BucketWhole(f.rule);
    AllBits(p.dst);
  }

  // ----- scanning

  /** The index of the first filter of a bucket that applies. */
  ghost predicate First(bucket: seq<Filter>, p: Flow, r: Option<nat>) {
    && (forall k :: 0 <= k < (if r.None? then |bucket| else r.value) && k < |bucket| ==> !Applies(bucket[k], p))
    && (r.Some? ==> r.value < |bucket| && Applies(bucket[r.value], p))
  }

  method Scan(bucket: seq<Filter>, p: Flow) returns (r: Option<nat>)
    ensures First(bucket, p, r)
  {
    var k := 0;
    while k < |bucket|
      invariant 0 <= k <= |bucket|
      invariant forall j :: 0 <= j < k ==> !Applies(bucket[j], p)
    {
      if Applies(bucket[k], p) {
        return Some(k);
      }
      k := k + 1;
    }
    return None;
  }

  method ScanTos(bucket: seq<Filter>, p: Flow) returns (r: Option<nat>)
    requires forall k :: 0 <= k < |bucket| ==> bucket[k].fields <= {Tos}
    ensures First(bucket, p, r)
  {
    var k := 0;
    while k < |bucket|
      invariant 0 <= k <= |bucket|
      invariant forall j :: 0 <= j < k ==> !Applies(bucket[j], p)
    {
      if AppliesTos(bucket[k], p) {
        return Some(k);
      }
      k := k + 1;
    }
    return None;
  }

  method ScanPorts(bucket: seq<Filter>, p: Flow) returns (r: Option<nat>)
    requires forall k :: 0 <= k < |bucket| ==> bucket[k].fields <= {Proto, Sport, Dport}
    ensures First(bucket, p, r)
  {
    var k := 0;
    while k < |bucket|
      invariant 0 <= k <= |bucket|
      invariant forall j :: 0 <= j < k ==> !Applies(bucket[j], p)
    {
      if AppliesPorts(bucket[k], p) {
        return Some(k);
      }
      k := k + 1;
    }
    return None;
  }

  lemma Precedes(f: Filter, i: nat, g: Filter, j: nat, mask: set<Field>, clock: nat)
    requires FilterOk(f, i, mask, clock) && FilterOk(g, j, mask, clock) && i != WILDCARD && j == WILDCARD
    ensures Before(f, g)
  {
    BucketWhole(f.rule);
    BucketWhole(g.rule);
  }

  /** The first that applies in a bucket is foremost, if all others that apply are in
      this bucket, or this is a bucket for whole addresses and they are in the last. */
  lemma FirstForemost(table: seq<seq<Filter>>, mask: set<Field>, clock: nat, p: Flow, i: nat, k: nat)
    requires TableOk(table, mask, clock) && i < BUCKETS && First(table[i], p, Some(k))
    requires forall j :: 0 <= j < BUCKETS && j != i && (i == WILDCARD || j != WILDCARD) ==> First(table[j], p, None)
    ensures table[i][k] in Live(table) && Foremost(table, p, table[i][k])
  {
    var f := table[i][k];
    forall g | g in Live(table) && Applies(g, p) && g != f
      ensures Before(f, g)
    {
      var j, n :| 0 <= j < |table| && 0 <= n < |table[j]| && table[j][n] == g;
      OneBefore(table, mask, clock, p, i, k, j, n);
    }
  }

  lemma OneBefore(table: seq<seq<Filter>>, mask: set<Field>, clock: nat, p: Flow, i: nat, k: nat, j: nat, n: nat)
    requires TableOk(table, mask, clock) && i < BUCKETS && First(table[i], p, Some(k))
    requires j < BUCKETS && n < |table[j]| && Applies(table[j][n], p) && table[j][n] != table[i][k]
    requires j != i && (i == WILDCARD || j != WILDCARD) ==> First(table[j], p, None)
    ensures Before(table[i][k], table[j][n])
  {
    assert BucketOk(table[i], i, mask, clock);
    if j == i {
      InOrderAt(table[i], k, n);
    } else {
      assert BucketOk(table[j], j, mask, clock);
      Precedes(table[i][k], i, table[j][n], j, mask, clock);
    }
  }

  lemma NoneFound(table: seq<seq<Filter>>, p: Flow)
    requires |table| == BUCKETS && forall j :: 0 <= j < BUCKETS ==> First(table[j], p, None)
    ensures Found(table, p, None)
  {
    forall f | f in Live(table)
      ensures !Applies(f, p)
    {
      var j, n :| 0 <= j < |table| && 0 <= n < |table[j]| && table[j][n] == f;
      assert First(table[j], p, None);
    }
  }

  /** Buckets other than the packet's and the last have nothing that applies. */
  lemma Elsewhere(table: seq<seq<Filter>>, mask: set<Field>, clock: nat, p: Flow, j: nat)
    requires TableOk(table, mask, clock) && j < BUCKETS && j != WILDCARD && j != Hash(p.dst)
    ensures First(table[j], p, None)
  {
    forall k | 0 <= k < |table[j]|
      ensures !Applies(table[j][k], p)
    {
      assert BucketOk(table[j], j, mask, clock);
      if Applies(table[j][k], p) {
        WhereApplies(table[j][k], j, mask, clock, p);
      }
    }
  }

  /** When no filter looks at destination addresses, only the last bucket is in use. */
  lemma OnlyLast(table: seq<seq<Filter>>, mask: set<Field>, clock: nat, p: Flow, j: nat)
    requires TableOk(table, mask, clock) && j < WILDCARD && Daddr !in mask
    ensures table[j] == [] && First(table[j], p, None)
  {
    assert BucketOk(table[j], j, mask, clock);
    if table[j] != [] {
      BucketWhole(table[j][0].rule);
    }
  }

  // ----- changes

  /** Where a filter goes in a bucket: behind those of higher rule numbers. */
  ghost predicate Placed(bucket: seq<Filter>, n: nat, number: int) {
    && n <= |bucket|
    && (forall k :: 0 <= k < n ==> bucket[k].rule.number > number)
    && (n < |bucket| ==> bucket[n].rule.number <= number)
  }

  lemma MoreMask(bucket: seq<Filter>, i: nat, mask: set<Field>, clock: nat, more: set<Field>)
    requires BucketOk(bucket, i, mask, clock)
    ensures BucketOk(bucket, i, mask + more, clock + 1)
  {
    forall k | 0 <= k < |bucket|
      ensures FilterOk(bucket[k], i, mask + more, clock + 1)
    {
      assert FilterOk(bucket[k], i, mask, clock);
    }
  }

  lemma Relative(bucket: seq<Filter>, i: nat, mask: set<Field>, clock: nat, f: Filter, n: nat, k: nat)
    requires BucketOk(bucket, i, mask, clock) && Placed(bucket, n, f.rule.number) && k < |bucket|
    requires BucketOf(f.rule) == i && f.born == clock
    ensures if k < n then Before(bucket[k], f) else Before(f, bucket[k])
  {
    BucketWhole(bucket[k].rule);
    BucketWhole(f.rule);
    assert FilterOk(bucket[k], i, mask, clock);
    if k > n {
      assert FilterOk(bucket[n], i, mask, clock);
      BucketWhole(bucket[n].rule);
      InOrderAt(bucket, n, k);
    }
  }

  /** Inserted behind the higher rule numbers, a new filter keeps the order. */
  lemma InsertOk(bucket: seq<Filter>, i: nat, mask: set<Field>, clock: nat, f: Filter, n: nat)
    requires BucketOk(bucket, i, mask, clock) && Placed(bucket, n, f.rule.number)
    requires FilterOk(f, i, mask + f.fields, clock + 1) && f.born == clock
    requires forall k :: 0 <= k < |bucket| ==> bucket[k].handle != f.handle
    ensures BucketOk(bucket[..n] + [f] + bucket[n..], i, mask + f.fields, clock + 1)
  {
    var r := bucket[..n] + [f] + bucket[n..];
    MoreMask(bucket, i, mask, clock, f.fields);
    forall k, j | 0 <= k < j < |r|
      ensures Before(r[k], r[j]) && r[k].handle != r[j].handle
    {
      var k', j' := if k < n then k else k - 1, if j < n then j else j - 1;
      assert k != n ==> r[k] == bucket[k'];
      assert j != n ==> r[j] == bucket[j'];
      if k == n {
        Relative(bucket, i, mask, clock, f, n, j');
      } else if j == n {
        Relative(bucket, i, mask, clock, f, n, k');
      } else {
        InOrderAt(bucket, k', j');
      }
    }
    forall k | 0 <= k < |r|
      ensures FilterOk(r[k], i, mask + f.fields, clock + 1)
    {
      assert k != n ==> r[k] == bucket[if k < n then k else k - 1];
    }
  }

  lemma RemoveOk(bucket: seq<Filter>, i: nat, mask: set<Field>, clock: nat, n: nat)
    requires BucketOk(bucket, i, mask, clock) && n < |bucket|
    ensures BucketOk(bucket[..n] + bucket[n + 1..], i, mask, clock)
  {
    var r := bucket[..n] + bucket[n + 1..];
    forall k, j | 0 <= k < j < |r|
      ensures Before(r[k], r[j]) && r[k].handle != r[j].handle
    {
      var k', j' := if k < n then k else k + 1, if j < n then j else j + 1;
      assert r[k] == bucket[k'] && r[j] == bucket[j'];
      InOrderAt(bucket, k', j');
    }
    forall k | 0 <= k < |r|
      ensures FilterOk(r[k], i, mask, clock)
    {
      assert r[k] == bucket[if k < n then k else k + 1];
    }
  }

  /** Changing one bucket by one filter changes the live filters by that filter. */
  lemma LiveInsert(table: seq<seq<Filter>>, i: nat, n: nat, f: Filter)
    requires i < |table| && n <= |table[i]|
    ensures Live(table[i := table[i][..n] + [f] + table[i][n..]]) == Live(table) + {f}
  {
    var r := table[i][..n] + [f] + table[i][n..];
    var table' := table[i := r];
    assert forall k :: 0 <= k < |r| ==> r[k] == if k < n then table[i][k] else if k == n then f else table[i][k - 1];
    forall g | g in Live(table) + {f}
      ensures g in Live(table')
    {
      if g == f {
        assert table'[i][n] == f;
      } else {
        var j, k :| 0 <= j < |table| && 0 <= k < |table[j]| && table[j][k] == g;
        assert table'[j][if j == i && k >= n then k + 1 else k] == g;
      }
    }
  }

  /** No two filters have the same handle. */
  lemma Unique(table: seq<seq<Filter>>, mask: set<Field>, clock: nat, i: nat, n: nat, j: nat, k: nat)
    requires TableOk(table, mask, clock) && i < BUCKETS && j < BUCKETS && n < |table[i]| && k < |table[j]|
    ensures table[i][n].handle == table[j][k].handle ==> i == j && n == k
  {
    assert BucketOk(table[i], i, mask, clock) && BucketOk(table[j], j, mask, clock);
    assert FilterOk(table[i][n], i, mask, clock) && FilterOk(table[j][k], j, mask, clock);
    if i == j && n != k {
      InOrderAt(table[i], if n < k then n else k, if n < k then k else n);
    }
  }

  lemma LiveGone(table: seq<seq<Filter>>, mask: set<Field>, clock: nat, i: nat, n: nat)
    requires TableOk(table, mask, clock) && i < BUCKETS && n < |table[i]|
    ensures table[i][n] !in Live(table[i := table[i][..n] + table[i][n + 1..]])
  {
    var f, r := table[i][n], table[i][..n] + table[i][n + 1..];
    var table' := table[i := r];
    assert forall k :: 0 <= k < |r| ==> r[k] == table[i][if k < n then k else k + 1];
    forall j, k | 0 <= j < |table'| && 0 <= k < |table'[j]|
      ensures table'[j][k] != f
    {
      Unique(table, mask, clock, i, n, j, if j == i && k >= n then k + 1 else k);
    }
  }

  lemma LiveKept(table: seq<seq<Filter>>, i: nat, n: nat)
    requires i < |table| && n < |table[i]|
    ensures var table' := table[i := table[i][..n] + table[i][n + 1..]];
      Live(table') <= Live(table) && Live(table) - {table[i][n]} <= Live(table')
  {
    var f, r := table[i][n], table[i][..n] + table[i][n + 1..];
    var table' := table[i := r];
    assert forall k :: 0 <= k < |r| ==> r[k] == table[i][if k < n then k else k + 1];
    forall g | g in Live(table) && g != f
      ensures g in Live(table')
    {
      var j, k :| 0 <= j < |table| && 0 <= k < |table[j]| && table[j][k] == g;
      assert table'[j][if j == i && k > n then k - 1 else k] == g;
    }
  }

  lemma LiveRemove(table: seq<seq<Filter>>, mask: set<Field>, clock: nat, i: nat, n: nat)
    requires TableOk(table, mask, clock) && i < BUCKETS && n < |table[i]|
    ensures Live(table[i := table[i][..n] + table[i][n + 1..]]) == Live(table) - {table[i][n]}
  {
    LiveGone(table, mask, clock, i, n);
    LiveKept(table, i, n);
  }

  /** The filter is one to discard. */
  predicate Goes(f: Filter, class_: nat, all: bool) {
    all || f.class_ == class_
  }

  /** The result of adding a filter. Endless: the search for a handle does not end. */
  datatype Addition = Added(handle: nat) | Refused | Endless

  class Table {
    var table: seq<seq<Filter>>
    var mask: set<Field>
    /** The next identity to try for a handle. */
    var number: nat
    var clock: nat

    ghost predicate Valid()
      reads this
    {
      TableOk(table, mask, clock)
    }

    constructor ()
      ensures Valid() && Live(table) == {}
    {
      table := seq(BUCKETS, i => []);
      mask, number, clock := {}, 1, 0;
    }

    /** The class of a packet. */
    method Classify(ipv4: bool, p: Flow) returns (r: Option<nat>)
      requires Valid()
      ensures if ipv4 then Found(table, p, r) else r.None?
    {
      if !ipv4 {
        return None;
      }
      var last := table[WILDCARD];
      assert BucketOk(last, WILDCARD, mask, clock);
      var k: Option<nat>;
      if mask == {Tos} {
        k := ScanTos(last, p);
        r := Last(p, k);
      } else if mask <= {Proto, Sport, Dport} {
        k := ScanPorts(last, p);
        r := Last(p, k);
      } else {
        r := Hashed(p);
      }
    }

    /** The result of scanning the last bucket, when it is the only one in use. */
    method Last(p: Flow, k: Option<nat>) returns (r: Option<nat>)
      requires Valid() && Daddr !in mask && First(table[WILDCARD], p, k)
      ensures Found(table, p, r)
    {
      forall j | 0 <= j < WILDCARD
        ensures First(table[j], p, None)
      {
        OnlyLast(table, mask, clock, p, j);
      }
      if k.None? {
        NoneFound(table, p);
        return None;
      }
      FirstForemost(table, mask, clock, p, WILDCARD, k.value);
      return Some(table[WILDCARD][k.value].class_);
    }

    /** The packet's own bucket, then the last one. */
    method Hashed(p: Flow) returns (r: Option<nat>)
      requires Valid()
      ensures Found(table, p, r)
    {
      var i := Hash(p.dst);
      HashRange(p.dst);
      forall j | 0 <= j < BUCKETS && j != WILDCARD && j != i
        ensures First(table[j], p, None)
      {
        Elsewhere(table, mask, clock, p, j);
      }
      var k := Scan(table[i], p);
      if k.Some? {
        FirstForemost(table, mask, clock, p, i, k.value);
        return Some(table[i][k.value].class_);
      }
      k := Scan(table[WILDCARD], p);
      if k.Some? {
        FirstForemost(table, mask, clock, p, WILDCARD, k.value);
        return Some(table[WILDCARD][k.value].class_);
      }
      NoneFound(table, p);
      return None;
    }

    // ----- removing

    /** Remove the filter with a handle, if there is one. None: the handle's bucket
        number is outside the table, where the source then looks. */
    method Delete(handle: nat) returns (done: Option<bool>)
      requires Valid()
      modifies `table
      ensures Valid() && (done.None? <==> handle / ID_LIMIT >= BUCKETS)
      ensures done.None? ==> table == old(table)
      ensures done.Some? ==>
        && (done.value <==> exists f :: f in old(Live(table)) && f.handle == handle)
        && Live(table) == set f | f in old(Live(table)) && f.handle != handle
    {
      var i := handle / ID_LIMIT;
      if i >= BUCKETS {
        return None;
      }
      var bucket := table[i];
      var n := 0;
      while n < |bucket| && bucket[n].handle != handle
        invariant 0 <= n <= |bucket|
        invariant forall k :: 0 <= k < n ==> bucket[k].handle != handle
      {
        n := n + 1;
      }
      Holder(table, mask, clock, handle, n);
      done := Some(n < |bucket|);
      if n < |bucket| {
        RemoveAt(i, n);
      }
    }

    method RemoveAt(i: nat, n: nat)
      requires Valid() && i < BUCKETS && n < |table[i]|
      modifies `table
      ensures Valid() && Live(table) == old(Live(table)) - {old(table[i][n])}
      ensures table == old(table)[i := old(table[i])[..n] + old(table[i])[n + 1..]]
    {
      LiveRemove(table, mask, clock, i, n);
      RemoveOk(table[i], i, mask, clock, n);
      table := table[i := table[i][..n] + table[i][n + 1..]];
    }

    /** Remove all filters of a class, or all filters. */
    method Discard(class_: nat, all: bool)
      requires Valid()
      modifies this
      ensures Valid() && Live(table) == set f | f in old(Live(table)) && !all && f.class_ != class_
    {
      var i := 0;
      while i < BUCKETS
        invariant 0 <= i <= BUCKETS && Valid()
        invariant forall f :: f in Live(table) ==> f in old(Live(table))
        invariant forall f :: f in old(Live(table)) && !Goes(f, class_, all) ==> f in Live(table)
        invariant forall j, k :: 0 <= j < i && 0 <= k < |table[j]| ==> !Goes(table[j][k], class_, all)
      {
        Clear(i, class_, all);
        i := i + 1;
      }
      if all {
        forall j | 0 <= j < BUCKETS
          ensures table[j] == []
        {
          assert table[j] != [] ==> Goes(table[j][0], class_, all);
        }
        mask := {};
      }
    }

    method Clear(i: nat, class_: nat, all: bool)
      requires Valid() && i < BUCKETS
      modifies `table
      ensures Valid()
      ensures forall f :: f in Live(table) ==> f in old(Live(table))
      ensures forall f :: f in old(Live(table)) && !Goes(f, class_, all) ==> f in Live(table)
      ensures forall k :: 0 <= k < |table[i]| ==> !Goes(table[i][k], class_, all)
      ensures forall j :: 0 <= j < BUCKETS && j != i ==> table[j] == old(table[j])
    {
      var n := 0;
      while n < |table[i]|
        invariant Valid() && 0 <= n <= |table[i]|
        invariant forall f :: f in Live(table) ==> f in old(Live(table))
        invariant forall f :: f in old(Live(table)) && !Goes(f, class_, all) ==> f in Live(table)
        invariant forall k :: 0 <= k < n ==> !Goes(table[i][k], class_, all)
        invariant forall j :: 0 <= j < BUCKETS && j != i ==> table[j] == old(table[j])
        decreases |table[i]|, |table[i]| - n
      {
        if Goes(table[i][n], class_, all) {
          RemoveAt(i, n);
          n := 0;
        } else {
          n := n + 1;
        }
      }
    }

    // ----- adding

    /** Add a filter for a class; the handle is not in use. */
    method Add(ipv4: bool, rule: Rule, class_: nat) returns (o: Addition)
      requires Valid()
      modifies this
      ensures Valid() && (o.Refused? <==> !ipv4)
      ensures o.Endless? <==> ipv4 && old(AllTaken(table[BucketIndex(rule)]))
      ensures !o.Added? ==> Live(table) == old(Live(table))
      ensures o.Added? ==> (forall f :: f in old(Live(table)) ==> f.handle != o.handle)
      ensures o.Added? ==>
        Live(table) == old(Live(table)) + {Filter(Regular(rule), FieldsOf(rule.flow), class_, o.handle, old(clock))}
      ensures o.Added? ==> exists f :: f in Live(table) && f.handle == o.handle && f.class_ == class_
                                       && f.rule.number == rule.number && forall p :: Applies(f, p) <==> Asks(rule, p)
    {
      if !ipv4 {
        return Refused;
      }
      var regular := Regular(rule);
      var i := BucketOf(regular);
      BucketWhole(regular);
      var h := FreshHandle(i);
      if h.None? {
        return Endless;
      }
      var f := Filter(regular, FieldsOf(rule.flow), class_, h.value, clock);
      HandleFree(table, mask, clock, i, h.value);
      Insert(i, f);
      forall p
        ensures Applies(f, p) <==> Asks(rule, p)
      {
        GivenApplies(rule, class_, f.handle, f.born, p);
      }
      o := Added(h.value);
    }

    ghost function BucketIndex(rule: Rule): (i: nat)
      ensures i < BUCKETS
    {
      BucketWhole(Regular(rule));
      BucketOf(Regular(rule))
    }

    method Insert(i: nat, f: Filter)
      requires Valid() && i < BUCKETS && FilterOk(f, i, mask + f.fields, clock + 1) && f.born == clock
      requires forall k :: 0 <= k < |table[i]| ==> table[i][k].handle != f.handle
      modifies this
      ensures Valid() && Live(table) == old(Live(table)) + {f}
    {
      var bucket := table[i];
      assert BucketOk(bucket, i, mask, clock);
      var n := 0;
      while n < |bucket| && bucket[n].rule.number > f.rule.number
        invariant 0 <= n <= |bucket|
        invariant forall k :: 0 <= k < n ==> bucket[k].rule.number > f.rule.number
      {
        n := n + 1;
      }
      InsertOk(bucket, i, mask, clock, f, n);
      LiveInsert(table, i, n, f);
      forall j | 0 <= j < BUCKETS
        ensures BucketOk(table[j], j, mask + f.fields, clock + 1)
      {
        MoreMask(table[j], j, mask, clock, f.fields);
      }
      table := table[i := bucket[..n] + [f] + bucket[n..]];
      mask := mask + f.fields;
      clock := clock + 1;
    }

    /** A handle for bucket i whose identity no filter there has. Once all identities
        were tried the search goes round again, and would for ever. */
    method FreshHandle(i: nat) returns (handle: Option<nat>)
      requires i < |table|
      modifies `number
      ensures handle.None? <==> AllTaken(table[i])
      ensures handle.Some? ==> handle.value / ID_LIMIT == i
      ensures handle.Some? ==> forall k :: 0 <= k < |table[i]| ==> table[i][k].handle % ID_LIMIT != handle.value % ID_LIMIT
    {
      ghost var start := number;
      var n := 0;
      while n < ID_LIMIT
        invariant number == start + n && n <= ID_LIMIT && Identities(start, n) <= Used(table[i])
      {
        var id := number % ID_LIMIT;
        number := number + 1;
        var taken := Taken(table[i], id);
        if !taken {
          handle := Some(i * ID_LIMIT + id);
          HandleParts(i, id);
          assert id !in Used(table[i]);
          return;
        }
        n := n + 1;
      }
      RoundTaken(table[i], start);
      return None;
    }
  }

  /** Every identity is in use. */
  ghost predicate AllTaken(bucket: seq<Filter>) {
    forall id :: 0 <= id < ID_LIMIT ==> id in Used(bucket)
  }

  lemma HandleParts(i: nat, id: nat)
    requires id < ID_LIMIT
    ensures (i * ID_LIMIT + id) / ID_LIMIT == i && (i * ID_LIMIT + id) % ID_LIMIT == id
  {
  }

  /** A round through all numbers meets every identity. */
  lemma RoundTaken(bucket: seq<Filter>, start: nat)
    requires Identities(start, ID_LIMIT) <= Used(bucket)
    ensures AllTaken(bucket)
  {
    forall id | 0 <= id < ID_LIMIT
      ensures id in Used(bucket)
    {
      AllIdentities(start, ID_LIMIT, (id - start) % ID_LIMIT);
      ComesRound(start, id);
    }
  }

  lemma ComesRound(start: nat, id: nat)
    requires id < ID_LIMIT
    ensures (start + (id - start) % ID_LIMIT) % ID_LIMIT == id
  {
    var q := (id - start) / ID_LIMIT;
    assert start + (id - start) % ID_LIMIT == id - q * ID_LIMIT;
  }

  method Taken(bucket: seq<Filter>, id: nat) returns (taken: bool)
    ensures taken <==> exists k :: 0 <= k < |bucket| && bucket[k].handle % ID_LIMIT == id
  {
    var k := 0;
    while k < |bucket|
      invariant 0 <= k <= |bucket|
      invariant forall j :: 0 <= j < k ==> bucket[j].handle % ID_LIMIT != id
    {
      if bucket[k].handle % ID_LIMIT == id {
        return true;
      }
      k := k + 1;
    }
    return false;
  }

  ghost function Used(bucket: seq<Filter>): set<nat> {
    set k | 0 <= k < |bucket| :: bucket[k].handle % ID_LIMIT
  }

  /** The identities of n successive numbers. */
  ghost function Identities(start: nat, n: nat): set<nat> {
    if n == 0 then {} else Identities(start, n - 1) + {(start + n - 1) % ID_LIMIT}
  }

  lemma {:induction false} NotYet(start: nat, n: nat, x: nat)
    requires start + n <= x < start + ID_LIMIT
    ensures x % ID_LIMIT !in Identities(start, n)
  {
    if n > 0 {
      NotYet(start, n - 1, x);
      Apart(start + n - 1, x);
    }
  }

  lemma {:induction false} IdentitiesSize(start: nat, n: nat)
    requires n <= ID_LIMIT
    ensures |Identities(start, n)| == n
  {
    if n > 0 {
      NotYet(start, n - 1, start + n - 1);
      IdentitiesSize(start, n - 1);
    }
  }

  lemma Apart(a: nat, b: nat)
    requires a < b < a + ID_LIMIT
    ensures a % ID_LIMIT != b % ID_LIMIT
  {
  }

  lemma {:induction false} SubsetSize(a: set<nat>, b: set<nat>)
    requires a <= b
    ensures |a| <= |b|
  {
    if a != {} {
      var x :| x in a;
      SubsetSize(a - {x}, b - {x});
    }
  }

  lemma {:induction false} UsedFew(bucket: seq<Filter>)
    ensures |Used(bucket)| <= |bucket|
  {
    if bucket == [] {
      assert Used(bucket) == {};
    } else {
      var rest := bucket[..|bucket| - 1];
      UsedFew(rest);
      assert Used(bucket) == Used(rest) + {bucket[|bucket| - 1].handle % ID_LIMIT};
    }
  }

  lemma {:induction false} UsedMany(bucket: seq<Filter>)
    requires forall k, j :: 0 <= k < j < |bucket| ==> bucket[k].handle % ID_LIMIT != bucket[j].handle % ID_LIMIT
    ensures |Used(bucket)| == |bucket|
  {
    if bucket == [] {
      assert Used(bucket) == {};
    } else {
      var rest, last := bucket[..|bucket| - 1], bucket[|bucket| - 1];
      UsedMany(rest);
      assert Used(bucket) == Used(rest) + {last.handle % ID_LIMIT};
    }
  }

  lemma {:induction false} AllIdentities(start: nat, n: nat, k: nat)
    requires k < n
    ensures (start + k) % ID_LIMIT in Identities(start, n)
  {
    if k < n - 1 {
      AllIdentities(start, n - 1, k);
    }
  }

  lemma {:induction false} IdentitiesBelow(start: nat, n: nat, x: nat)
    requires x in Identities(start, n)
    ensures x < ID_LIMIT
  {
    if x in Identities(start, n - 1) {
      IdentitiesBelow(start, n - 1, x);
    }
  }

  /** The search for a free identity does not end exactly in a bucket that holds 2^20
      filters. */
  lemma FullIff(table: seq<seq<Filter>>, mask: set<Field>, clock: nat, i: nat)
    requires TableOk(table, mask, clock) && i < BUCKETS
    ensures AllTaken(table[i]) <==> |table[i]| >= ID_LIMIT
  {
    var bucket := table[i];
    IdentitiesSize(0, ID_LIMIT);
    if |bucket| >= ID_LIMIT {
      forall id | 0 <= id < ID_LIMIT
        ensures id in Used(bucket)
      {
        FullBucket(table, mask, clock, i, id);
      }
    } else if AllTaken(bucket) {
      forall x | x in Identities(0, ID_LIMIT)
        ensures x in Used(bucket)
      {
        IdentitiesBelow(0, ID_LIMIT, x);
      }
      SubsetSize(Identities(0, ID_LIMIT), Used(bucket));
      UsedFew(bucket);
    }
  }

  lemma FullBucket(table: seq<seq<Filter>>, mask: set<Field>, clock: nat, i: nat, id: nat)
    requires TableOk(table, mask, clock) && i < BUCKETS && |table[i]| >= ID_LIMIT && id < ID_LIMIT
    ensures id in Used(table[i])
  {
    OwnIdentities(table, mask, clock, i);
    UsedMany(table[i]);
    if id !in Used(table[i]) {
      TooMany(Used(table[i]), id, ID_LIMIT);
    }
  }

  lemma OwnIdentities(table: seq<seq<Filter>>, mask: set<Field>, clock: nat, i: nat)
    requires TableOk(table, mask, clock) && i < BUCKETS
    ensures forall k, j :: 0 <= k < j < |table[i]| ==> table[i][k].handle % ID_LIMIT != table[i][j].handle % ID_LIMIT
  {
    var bucket := table[i];
    assert BucketOk(bucket, i, mask, clock);
    forall k, j | 0 <= k < j < |bucket|
      ensures bucket[k].handle % ID_LIMIT != bucket[j].handle % ID_LIMIT
    {
      assert FilterOk(bucket[k], i, mask, clock) && FilterOk(bucket[j], i, mask, clock);
      InOrderAt(bucket, k, j);
      SameQuotient(bucket[k].handle, bucket[j].handle);
    }
  }

  /** Without one of them there are fewer than 2^20 identities. */
  lemma TooMany(used: set<nat>, id: nat, n: nat)
    requires n == ID_LIMIT && id !in used && id < n && forall x :: x in used ==> x < n
    ensures |used| < n
  {
    forall x | x in used + {id}
      ensures x in Identities(0, n)
    {
      OneIdentity(x, n);
    }
    IdentitiesSize(0, n);
    Fewer(used, id, Identities(0, n));
  }

  lemma OneIdentity(x: nat, n: nat)
    requires n == ID_LIMIT && x < n
    ensures x in Identities(0, n)
  {
    AllIdentities(0, n, x);
    assert (0 + x) % ID_LIMIT == x;
  }

  lemma Fewer(used: set<nat>, id: nat, all: set<nat>)
    requires id !in used && used + {id} <= all
    ensures |used| < |all|
  {
    SubsetSize(used + {id}, all);
  }

  lemma SameQuotient(a: nat, b: nat)
    requires a / ID_LIMIT == b / ID_LIMIT && a != b
    ensures a % ID_LIMIT != b % ID_LIMIT
  {
  }

  /** A handle's filter, if any, is in the handle's bucket. */
  lemma Holder(table: seq<seq<Filter>>, mask: set<Field>, clock: nat, handle: nat, n: nat)
    requires TableOk(table, mask, clock) && handle / ID_LIMIT < BUCKETS && n <= |table[handle / ID_LIMIT]|
    requires forall k :: 0 <= k < n ==> table[handle / ID_LIMIT][k].handle != handle
    requires n < |table[handle / ID_LIMIT]| ==> table[handle / ID_LIMIT][n].handle == handle
    ensures forall f :: f in Live(table) && f.handle == handle ==>
      n < |table[handle / ID_LIMIT]| && f == table[handle / ID_LIMIT][n]
    ensures n < |table[handle / ID_LIMIT]| ==> table[handle / ID_LIMIT][n] in Live(table)
  {
    var i := handle / ID_LIMIT;
    forall f | f in Live(table) && f.handle == handle
      ensures n < |table[i]| && f == table[i][n]
    {
      var j, k :| 0 <= j < |table| && 0 <= k < |table[j]| && table[j][k] == f;
      assert BucketOk(table[j], j, mask, clock);
      assert FilterOk(f, j, mask, clock);
      if n < |table[i]| {
        Unique(table, mask, clock, i, n, j, k);
      }
    }
  }

  lemma HandleFree(table: seq<seq<Filter>>, mask: set<Field>, clock: nat, i: nat, h: nat)
    requires TableOk(table, mask, clock) && i < BUCKETS && h / ID_LIMIT == i
    requires forall k :: 0 <= k < |table[i]| ==> table[i][k].handle % ID_LIMIT != h % ID_LIMIT
    ensures forall f :: f in Live(table) ==> f.handle != h
  {
    forall f | f in Live(table)
      ensures f.handle != h
    {
      var j, k :| 0 <= j < |table| && 0 <= k < |table[j]| && table[j][k] == f;
      assert BucketOk(table[j], j, mask, clock);
      assert FilterOk(f, j, mask, clock);
    }
  }
}
