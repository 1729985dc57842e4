/** What filters say: terms over the bytes of a packet, and the instructions that leave
    the value of a term in the accumulator. */
module BpfTerms {
  import opened Marks
  import opened Bits
  import opened BpfPacket
  import opened BpfMachine
  import opened BpfOps
  import opened Options

  // ----- terms

  /** A number read from a packet or computed from such numbers; variables count from
      the outermost let. */
  datatype Term =
    | Lit(k: u32)
    | Field(size: Size, k: u32)
    | Near(size: Size, k: u32, at: Term)
    | HeaderLen(k: u32)
    | Length
    | Var(n: nat)
    | Minus(t: Term)
    | WithConst(op: AluOp, t: Term, k: u32)
    | With(op: AluOp, l: Term, r: Term)
    | Let(t: Term, body: Term)

  /** A measure of terms. */
  function Nodes(t: Term): nat {
    match t
    case Near(_, _, at) => 1 + Nodes(at)
    case Minus(t1) => 1 + Nodes(t1)
    case WithConst(_, t1, _) => 1 + Nodes(t1)
    case With(_, l, r) => 1 + Nodes(l) + Nodes(r)
    case Let(t1, body) => 1 + Nodes(t1) + Nodes(body)
    case _ => 1
  }

  function Width(size: Size): nat {
    match size case Word => 4 case Half => 2 case Byte => 1
  }

  /** The number that bytes make, the first the most significant. */
  function Number(bytes: seq<u8>): nat {
    if bytes == [] then 0 else 256 * Number(bytes[..|bytes| - 1]) + bytes[|bytes| - 1]
  }

  lemma {:induction false} NumberLess(bytes: seq<u8>)
    ensures Number(bytes) < Pow2(8 * |bytes|)
  {
    if bytes != [] {
      NumberLess(bytes[..|bytes| - 1]);
      Pow2Add(8 * (|bytes| - 1), 8);
      Pow2Values();
    }
  }

  lemma NumberFits(bytes: seq<u8>)
    requires |bytes| <= 4
    ensures Number(bytes) < TWO32
  {
    NumberLess(bytes);
    Pow2Values();
    Pow2Mono(8 * |bytes|, 32);
  }

  /** The number that starts at byte k, if the packet has all of it. */
  function Read(bytes: seq<u8>, size: Size, k: nat): Option<u32> {
    if k + Width(size) > |bytes| then None
    else
      var b := bytes[k..k + Width(size)];
      NumberFits(b);
      Some(Number(b))
  }

  lemma NumberSnoc(bytes: seq<u8>, b: u8)
    ensures Number(bytes + [b]) == 256 * Number(bytes) + b
  {
    assert (bytes + [b])[..|bytes|] == bytes;
  }

  /** One, two or four bytes, the first the most significant. */
  lemma NumberShort(a: u8, b: u8, c: u8, d: u8)
    ensures Number([a]) == a && Number([a, b]) == Big16(a, b) && Number([a, b, c, d]) == Big32(a, b, c, d)
  {
    NumberSnoc([], a);
    NumberSnoc([a], b);
    NumberSnoc([a, b], c);
    NumberSnoc([a, b, c], d);
    assert [] + [a] == [a] && [a] + [b] == [a, b];
    assert [a, b] + [c] == [a, b, c] && [a, b, c] + [d] == [a, b, c, d];
  }

  /** A flat packet is read so. */
  lemma LoadReads(bytes: seq<u8>, size: Size, k: nat)
    ensures var r := Read(bytes, size, k);
      Load(Flat(bytes), size, k) == if r.None? then Outside else Value(r.value)
  {
    if k + Width(size) <= |bytes| {
      var a := bytes[k];
      match size
      case Byte =>
        assert bytes[k..k + 1] == [a];
        NumberShort(a, a, a, a);
      case Half =>
        var b := bytes[k + 1];
        assert bytes[k..k + 2] == [a, b];
        NumberShort(a, b, a, a);
      case Word =>
        var b, c, d := bytes[k + 1], bytes[k + 2], bytes[k + 3];
        assert bytes[k..k + 4] == [a, b, c, d];
        NumberShort(a, b, c, d);
    }
  }

  /** Four times the low half of a byte. */
  function HeaderAt(bytes: seq<u8>, k: nat): Option<u32> {
    var b := Read(bytes, Byte, k);
    if b.None? then None else Some(4 * (b.value % 16))
  }

  /** The value of a term; none if it reads outside the packet or divides by zero. */
  function Eval(t: Term, env: seq<u32>, bytes: seq<u8>, wirelen: u32): Option<u32> {
    match t
    case Lit(k) => Some(k)
    case Field(size, k) => Read(bytes, size, k)
    case Near(size, k, at) =>
      var x := Eval(at, env, bytes, wirelen);
      if x.None? then None else Read(bytes, size, x.value + k)
    case HeaderLen(k) => HeaderAt(bytes, k)
    case Length => Some(wirelen)
    case Var(n) => if n < |env| then Some(env[n]) else None
    case Minus(t1) =>
      var v := Eval(t1, env, bytes, wirelen);
      if v.None? then None else Some(if v.value == 0 then 0 else TWO32 - v.value)
    case WithConst(op, t1, k) =>
      var v := Eval(t1, env, bytes, wirelen);
      if v.None? then None else Compute(op, v.value, k)
    case With(op, l, r) =>
      var y := Eval(r, env, bytes, wirelen);
      if y.None? then None
      else
        var x := Eval(l, env, bytes, wirelen);
        if x.None? then None else Compute(op, x.value, y.value)
    case Let(t1, body) =>
      var v := Eval(t1, env, bytes, wirelen);
      if v.None? then None else Eval(body, env + [v.value], bytes, wirelen)
  }

  // ----- code for terms

  /** A term that one instruction loads into the index register. */
  predicate Simple(t: Term) {
    t.Lit? || t.HeaderLen? || t.Length? || t.Var?
  }

  /** Variables are bound, words of scratch memory suffice from d on, and no constant
      divides by zero. */
  predicate TermOk(t: Term, vars: nat, d: nat)
    decreases Nodes(t), 1
  {
    match t
    case Near(_, _, at) => TermOk(at, vars, d)
    case Var(n) => n < vars
    case Minus(t1) => TermOk(t1, vars, d)
    case WithConst(op, t1, k) => TermOk(t1, vars, d) && !(op.Div? && k == 0)
    case With(_, l, r) => PairOk(l, r, vars, d)
    case Let(t1, body) => d < BPF_MEMWORDS && TermOk(t1, vars, d) && TermOk(body, vars + 1, d + 1)
    case _ => true
  }

  predicate PairOk(l: Term, r: Term, vars: nat, d: nat)
    decreases Nodes(l) + Nodes(r), 2
  {
    if Simple(r) then (r.Var? ==> r.n < vars) && TermOk(l, vars, d)
    else d < BPF_MEMWORDS && TermOk(r, vars, d) && TermOk(l, vars, d + 1)
  }

  /** The variables are in these words of scratch memory, all below d. */
  predicate Slots(slots: seq<nat>, d: nat) {
    d <= BPF_MEMWORDS && forall i :: 0 <= i < |slots| ==> slots[i] < d
  }

  /** Load a simple term into the index register. */
  function ToIndex(t: Term, slots: seq<nat>): Insn
    requires Simple(t) && (t.Var? ==> t.n < |slots|) && Slots(slots, BPF_MEMWORDS)
  {
    match t
    case Lit(k) => Op(IndexImm, k)
    case HeaderLen(k) => Op(IndexMsh, k)
    case Length => Op(IndexLen, 0)
    case Var(n) => Op(IndexMem, slots[n])
  }

  /** Instructions that leave the value of a term in the accumulator, with words from d
      on to work with. */
  function Code(t: Term, slots: seq<nat>, d: nat): (c: seq<Insn>)
    requires TermOk(t, |slots|, d) && Slots(slots, d)
    ensures |c| >= 1
    decreases Nodes(t), 1
  {
    match t
    case Lit(k) => [Op(LoadImm, k)]
    case Field(size, k) => [Op(LoadAbs(size), k)]
    case Near(size, k, at) => Code(at, slots, d) + [Op(AccToIndex, 0), Op(LoadInd(size), k)]
    case HeaderLen(k) => [Op(IndexMsh, k), Op(IndexToAcc, 0)]
    case Length => [Op(LoadLen, 0)]
    case Var(n) => [Op(LoadMem, slots[n])]
    case Minus(t1) => Code(t1, slots, d) + [Op(Negate, 0)]
    case WithConst(op, t1, k) => Code(t1, slots, d) + [Op(Arith(op, Const), k)]
    case With(op, l, r) => Operands(l, r, slots, d) + [Op(Arith(op, Index), 0)]
    case Let(t1, body) =>
      Code(t1, slots, d) + [Op(AccToIndex, 0), Op(StoreIndex, d)] + Code(body, slots + [d], d + 1)
  }

  /** Instructions that leave one term's value in the accumulator and another's in the
      index register; if that takes more than one load it waits in word d meanwhile. */
  function Operands(l: Term, r: Term, slots: seq<nat>, d: nat): (c: seq<Insn>)
    requires PairOk(l, r, |slots|, d) && Slots(slots, d)
    ensures |c| >= 1
    decreases Nodes(l) + Nodes(r), 2
  {
    if Simple(r) then Code(l, slots, d) + [ToIndex(r, slots)]
    else Code(r, slots, d) + [Op(StoreAcc, d)] + Code(l, slots, d + 1) + [Op(IndexMem, d)]
  }

  // ----- what the code does

  /** The code c stands in the program from instruction at on. */
  ghost predicate Placed(prog: Program, at: nat, c: seq<Insn>) {
    at + |c| <= |prog| && prog[at..at + |c|] == c
  }

  lemma PlacedParts(prog: Program, at: nat, c: seq<Insn>, c': seq<Insn>)
    requires Placed(prog, at, c + c')
    ensures Placed(prog, at, c) && Placed(prog, at + |c|, c')
  {
    var all := prog[at..at + |c + c'|];
    assert all[..|c|] == c && all[|c|..] == c';
  }

  lemma PlacedOne(prog: Program, at: nat, i: Insn)
    requires Placed(prog, at, [i])
    ensures at < |prog| && prog[at] == i
  {
    assert prog[at..at + 1][0] == i;
  }

  lemma PlacedTwo(prog: Program, at: nat, i: Insn, j: Insn)
    requires Placed(prog, at, [i, j])
    ensures at + 1 < |prog| && prog[at] == i && prog[at + 1] == j
  {
    assert prog[at..at + 2][0] == i && prog[at..at + 2][1] == j;
  }

  /** From m the run goes the way it goes from m'. */
  ghost predicate Leads(prog: Program, bytes: seq<u8>, wirelen: u32, m: Machine, m': Machine) {
    forall n {:trigger Inside(n)} :: Inside(n) ==> Run(prog, Flat(bytes), wirelen, m) == Run(prog, Flat(bytes), wirelen, m')
  }

  /** From m the run returns v. */
  ghost predicate Returns(prog: Program, bytes: seq<u8>, wirelen: u32, m: Machine, v: u32) {
    forall n {:trigger Inside(n)} :: Inside(n) ==> Run(prog, Flat(bytes), wirelen, m) == Return(v)
  }

  lemma LeadsVia(prog: Program, bytes: seq<u8>, wirelen: u32, m: Machine, m': Machine, m'': Machine)
    requires Leads(prog, bytes, wirelen, m, m') && Leads(prog, bytes, wirelen, m', m'')
    ensures Leads(prog, bytes, wirelen, m, m'')
  {
    assert Inside(0);
  }

  lemma ReturnsVia(prog: Program, bytes: seq<u8>, wirelen: u32, m: Machine, m': Machine, v: u32)
    requires Leads(prog, bytes, wirelen, m, m') && Returns(prog, bytes, wirelen, m', v)
    ensures Returns(prog, bytes, wirelen, m, v)
  {
    assert Inside(0);
  }

  lemma LeadsOn(prog: Program, bytes: seq<u8>, wirelen: u32, m: Machine, m': Machine)
    requires Leads(prog, bytes, wirelen, m, m')
    ensures forall m'' :: Leads(prog, bytes, wirelen, m', m'') ==> Leads(prog, bytes, wirelen, m, m'')
    ensures forall v :: Returns(prog, bytes, wirelen, m', v) ==> Returns(prog, bytes, wirelen, m, v)
  {
    assert Inside(0);
  }

  /** One instruction: on to the next machine, or the end of the run. */
  lemma OneStep(prog: Program, bytes: seq<u8>, wirelen: u32, m: Machine, kind: Kind, k: u32)
    requires !kind.Illegal? && m.pc < |prog| && prog[m.pc] == Op(kind, k)
    ensures var r := Execute(kind, Op(kind, k), Flat(bytes), wirelen, m);
      && (r.Next? ==> Leads(prog, bytes, wirelen, m, r.m))
      && (r.Return? ==> Returns(prog, bytes, wirelen, m, r.value))
  {
    KindRoundTrip(kind);
    StepForward(prog[m.pc], Flat(bytes), wirelen, m);
  }

  /** The machine holds the variables. */
  ghost predicate HoldsVars(m: Machine, slots: seq<nat>, env: seq<u32>) {
    && MachineOk(m) && |slots| == |env|
    && forall i :: 0 <= i < |slots| ==> slots[i] < BPF_MEMWORDS && m.mem[slots[i]] == Some(env[i])
  }

  /** Machine m' came from m without writing below word d. */
  ghost predicate Kept(m: Machine, m': Machine, d: nat) {
    |m.mem| == |m'.mem| && forall w :: 0 <= w < d && w < |m.mem| ==> m'.mem[w] == m.mem[w]
  }

  ghost predicate Went(prog: Program, bytes: seq<u8>, wirelen: u32, m: Machine, end: nat, d: nat, v: u32, m': Machine) {
    m'.pc == end && m'.a == v && Kept(m, m', d) && Leads(prog, bytes, wirelen, m, m')
  }

  /** From m the run goes on at instruction end with v in the accumulator and the words
      below d as they were; without a value it returns zero. */
  ghost predicate Yields(prog: Program, bytes: seq<u8>, wirelen: u32, m: Machine, end: nat, d: nat, v: Option<u32>) {
    if v.None? then Returns(prog, bytes, wirelen, m, 0)
    else exists m' :: Went(prog, bytes, wirelen, m, end, d, v.value, m')
  }

  lemma Then(prog: Program, bytes: seq<u8>, wirelen: u32, m: Machine, m1: Machine, end: nat, d: nat, d1: nat, v: Option<u32>)
    requires Leads(prog, bytes, wirelen, m, m1) && Kept(m, m1, d) && d <= d1
    requires Yields(prog, bytes, wirelen, m1, end, d1, v)
    ensures Yields(prog, bytes, wirelen, m, end, d, v)
  {
    LeadsOn(prog, bytes, wirelen, m, m1);
    if v.Some? {
      var m' :| Went(prog, bytes, wirelen, m1, end, d1, v.value, m');
      assert Went(prog, bytes, wirelen, m, end, d, v.value, m');
    }
  }

  /** Instructions that change one register, or one word. */
  lemma MoveStep(prog: Program, bytes: seq<u8>, wirelen: u32, m: Machine)
    requires m.pc < |prog| && prog[m.pc] == Op(AccToIndex, 0)
    ensures Leads(prog, bytes, wirelen, m, m.(pc := m.pc + 1, x := m.a))
  {
    OneStep(prog, bytes, wirelen, m, AccToIndex, 0);
  }

  lemma StoreStep(prog: Program, bytes: seq<u8>, wirelen: u32, m: Machine, w: nat)
    requires MachineOk(m) && w < BPF_MEMWORDS && m.pc < |prog| && prog[m.pc] == Op(StoreAcc, w)
    ensures Leads(prog, bytes, wirelen, m, m.(pc := m.pc + 1, mem := m.mem[w := Some(m.a)]))
  {
    OneStep(prog, bytes, wirelen, m, StoreAcc, w);
  }

  lemma StoreIndexStep(prog: Program, bytes: seq<u8>, wirelen: u32, m: Machine, w: nat)
    requires MachineOk(m) && w < BPF_MEMWORDS && m.pc < |prog| && prog[m.pc] == Op(StoreIndex, w)
    ensures Leads(prog, bytes, wirelen, m, m.(pc := m.pc + 1, mem := m.mem[w := Some(m.x)]))
  {
    OneStep(prog, bytes, wirelen, m, StoreIndex, w);
  }

  lemma IndexImmStep(prog: Program, bytes: seq<u8>, wirelen: u32, m: Machine, k: u32)
    requires m.pc < |prog| && prog[m.pc] == Op(IndexImm, k)
    ensures Leads(prog, bytes, wirelen, m, m.(pc := m.pc + 1, x := k))
  {
    OneStep(prog, bytes, wirelen, m, IndexImm, k);
  }

  lemma IndexLenStep(prog: Program, bytes: seq<u8>, wirelen: u32, m: Machine)
    requires m.pc < |prog| && prog[m.pc] == Op(IndexLen, 0)
    ensures Leads(prog, bytes, wirelen, m, m.(pc := m.pc + 1, x := wirelen))
  {
    OneStep(prog, bytes, wirelen, m, IndexLen, 0);
  }

  lemma IndexMemStep(prog: Program, bytes: seq<u8>, wirelen: u32, m: Machine, w: nat)
    requires MachineOk(m) && w < BPF_MEMWORDS && m.mem[w].Some? && m.pc < |prog| && prog[m.pc] == Op(IndexMem, w)
    ensures Leads(prog, bytes, wirelen, m, m.(pc := m.pc + 1, x := m.mem[w].value))
  {
    OneStep(prog, bytes, wirelen, m, IndexMem, w);
  }

  /** Wherever the code stands and whatever else the machine holds, it yields v. */
  ghost predicate Computes(c: seq<Insn>, slots: seq<nat>, d: nat, env: seq<u32>, bytes: seq<u8>, wirelen: u32, v: Option<u32>) {
    forall prog, m: Machine :: Placed(prog, m.pc, c) && HoldsVars(m, slots, env) ==>
      Yields(prog, bytes, wirelen, m, m.pc + |c|, d, v)
  }

  lemma ImmComputes(k: u32, slots: seq<nat>, d: nat, env: seq<u32>, bytes: seq<u8>, wirelen: u32)
    ensures Computes([Op(LoadImm, k)], slots, d, env, bytes, wirelen, Some(k))
  {
    forall prog, m: Machine | Placed(prog, m.pc, [Op(LoadImm, k)]) && HoldsVars(m, slots, env)
      ensures Yields(prog, bytes, wirelen, m, m.pc + 1, d, Some(k))
    {
      PlacedOne(prog, m.pc, Op(LoadImm, k));
      OneStep(prog, bytes, wirelen, m, LoadImm, k);
      assert Went(prog, bytes, wirelen, m, m.pc + 1, d, k, m.(pc := m.pc + 1, a := k));
    }
  }

  lemma LenComputes(slots: seq<nat>, d: nat, env: seq<u32>, bytes: seq<u8>, wirelen: u32)
    ensures Computes([Op(LoadLen, 0)], slots, d, env, bytes, wirelen, Some(wirelen))
  {
    forall prog, m: Machine | Placed(prog, m.pc, [Op(LoadLen, 0)]) && HoldsVars(m, slots, env)
      ensures Yields(prog, bytes, wirelen, m, m.pc + 1, d, Some(wirelen))
    {
      PlacedOne(prog, m.pc, Op(LoadLen, 0));
      OneStep(prog, bytes, wirelen, m, LoadLen, 0);
      assert Went(prog, bytes, wirelen, m, m.pc + 1, d, wirelen, m.(pc := m.pc + 1, a := wirelen));
    }
  }

  lemma FieldComputes(size: Size, k: u32, slots: seq<nat>, d: nat, env: seq<u32>, bytes: seq<u8>, wirelen: u32)
    ensures Computes([Op(LoadAbs(size), k)], slots, d, env, bytes, wirelen, Read(bytes, size, k))
  {
    var v := Read(bytes, size, k);
    forall prog, m: Machine | Placed(prog, m.pc, [Op(LoadAbs(size), k)]) && HoldsVars(m, slots, env)
      ensures Yields(prog, bytes, wirelen, m, m.pc + 1, d, v)
    {
      PlacedOne(prog, m.pc, Op(LoadAbs(size), k));
      LoadReads(bytes, size, k);
      OneStep(prog, bytes, wirelen, m, LoadAbs(size), k);
      if v.Some? {
        assert Went(prog, bytes, wirelen, m, m.pc + 1, d, v.value, m.(pc := m.pc + 1, a := v.value));
      }
    }
  }

  lemma VarComputes(n: nat, slots: seq<nat>, d: nat, env: seq<u32>, bytes: seq<u8>, wirelen: u32)
    requires n < |slots| == |env| && Slots(slots, d)
    ensures Computes([Op(LoadMem, slots[n])], slots, d, env, bytes, wirelen, Some(env[n]))
  {
    forall prog, m: Machine | Placed(prog, m.pc, [Op(LoadMem, slots[n])]) && HoldsVars(m, slots, env)
      ensures Yields(prog, bytes, wirelen, m, m.pc + 1, d, Some(env[n]))
    {
      PlacedOne(prog, m.pc, Op(LoadMem, slots[n]));
      OneStep(prog, bytes, wirelen, m, LoadMem, slots[n]);
      assert Went(prog, bytes, wirelen, m, m.pc + 1, d, env[n], m.(pc := m.pc + 1, a := env[n]));
    }
  }

  lemma HeaderStep(k: u32, prog: Program, bytes: seq<u8>, wirelen: u32, m: Machine)
    requires m.pc < |prog| && prog[m.pc] == Op(IndexMsh, k)
    ensures var v := HeaderAt(bytes, k);
      if v.None? then Returns(prog, bytes, wirelen, m, 0)
      else Leads(prog, bytes, wirelen, m, m.(pc := m.pc + 1, x := v.value))
  {
    LoadReads(bytes, Byte, k);
    var r := Execute(IndexMsh, Op(IndexMsh, k), Flat(bytes), wirelen, m);
    var b := Read(bytes, Byte, k);
    assert r == if b.None? then Return(0) else Next(m.(pc := m.pc + 1, x := b.value % 16 * 4));
    OneStep(prog, bytes, wirelen, m, IndexMsh, k);
  }

  lemma HeaderComputes(k: u32, slots: seq<nat>, d: nat, env: seq<u32>, bytes: seq<u8>, wirelen: u32)
    ensures Computes([Op(IndexMsh, k), Op(IndexToAcc, 0)], slots, d, env, bytes, wirelen, HeaderAt(bytes, k))
  {
    var v := HeaderAt(bytes, k);
    forall prog, m: Machine | Placed(prog, m.pc, [Op(IndexMsh, k), Op(IndexToAcc, 0)]) && HoldsVars(m, slots, env)
      ensures Yields(prog, bytes, wirelen, m, m.pc + 2, d, v)
    {
      PlacedTwo(prog, m.pc, Op(IndexMsh, k), Op(IndexToAcc, 0));
      HeaderStep(k, prog, bytes, wirelen, m);
      if v.Some? {
        var m1 := m.(pc := m.pc + 1, x := v.value);
        LeadsOn(prog, bytes, wirelen, m, m1);
        OneStep(prog, bytes, wirelen, m1, IndexToAcc, 0);
        assert Went(prog, bytes, wirelen, m, m.pc + 2, d, v.value, m1.(pc := m.pc + 2, a := v.value));
      }
    }
  }

  /** The accumulator, moved to the index register, as the base of a load. */
  lemma NearRuns(size: Size, k: u32, prog: Program, bytes: seq<u8>, wirelen: u32, m: Machine, d: nat)
    requires Placed(prog, m.pc, [Op(AccToIndex, 0), Op(LoadInd(size), k)]) && MachineOk(m)
    ensures Yields(prog, bytes, wirelen, m, m.pc + 2, d, Read(bytes, size, m.a + k))
  {
    PlacedTwo(prog, m.pc, Op(AccToIndex, 0), Op(LoadInd(size), k));
    MoveStep(prog, bytes, wirelen, m);
    var m1 := m.(pc := m.pc + 1, x := m.a);
    LeadsOn(prog, bytes, wirelen, m, m1);
    LoadReads(bytes, size, m.a + k);
    OneStep(prog, bytes, wirelen, m1, LoadInd(size), k);
    var v := Read(bytes, size, m.a + k);
    if v.Some? {
      assert Went(prog, bytes, wirelen, m, m.pc + 2, d, v.value, m1.(pc := m.pc + 2, a := v.value));
    }
  }

  lemma MinusRuns(prog: Program, bytes: seq<u8>, wirelen: u32, m: Machine, d: nat)
    requires Placed(prog, m.pc, [Op(Negate, 0)]) && MachineOk(m)
    ensures Yields(prog, bytes, wirelen, m, m.pc + 1, d, Some(if m.a == 0 then 0 else TWO32 - m.a))
  {
    PlacedOne(prog, m.pc, Op(Negate, 0));
    OneStep(prog, bytes, wirelen, m, Negate, 0);
    var v: u32 := if m.a == 0 then 0 else TWO32 - m.a;
    assert Execute(Negate, Op(Negate, 0), Flat(bytes), wirelen, m) == Next(m.(pc := m.pc + 1, a := v));
    assert Went(prog, bytes, wirelen, m, m.pc + 1, d, v, m.(pc := m.pc + 1, a := v));
  }

  lemma ArithRuns(op: AluOp, src: Operand, k: u32, prog: Program, bytes: seq<u8>, wirelen: u32, m: Machine, d: nat)
    requires m.pc < |prog| && prog[m.pc] == Op(Arith(op, src), k) && MachineOk(m)
    requires !(op.Div? && src.Const? && k == 0)
    ensures Yields(prog, bytes, wirelen, m, m.pc + 1, d, Compute(op, m.a, if src.Const? then k else m.x))
  {
    OneStep(prog, bytes, wirelen, m, Arith(op, src), k);
    var v := Compute(op, m.a, if src.Const? then k else m.x);
    if v.Some? {
      assert Went(prog, bytes, wirelen, m, m.pc + 1, d, v.value, m.(pc := m.pc + 1, a := v.value));
    }
  }

  /** A simple term goes to the index register; nothing else changes. */
  lemma IndexRuns(t: Term, slots: seq<nat>, env: seq<u32>, prog: Program, bytes: seq<u8>, wirelen: u32, m: Machine)
    requires Simple(t) && (t.Var? ==> t.n < |slots|) && Slots(slots, BPF_MEMWORDS)
    requires m.pc < |prog| && prog[m.pc] == ToIndex(t, slots) && HoldsVars(m, slots, env)
    ensures var v := Eval(t, env, bytes, wirelen);
      if v.None? then Returns(prog, bytes, wirelen, m, 0)
      else Leads(prog, bytes, wirelen, m, m.(pc := m.pc + 1, x := v.value))
  {
    match t
    case Lit(k) => IndexImmStep(prog, bytes, wirelen, m, k);
    case HeaderLen(k) => HeaderStep(k, prog, bytes, wirelen, m);
    case Length => IndexLenStep(prog, bytes, wirelen, m);
    case Var(n) => IndexMemStep(prog, bytes, wirelen, m, slots[n]);
  }

  /** Words below d hold the variables, so they still do. */
  lemma VarsKept(m: Machine, m': Machine, slots: seq<nat>, env: seq<u32>, d: nat)
    requires Slots(slots, d) && HoldsVars(m, slots, env) && Kept(m, m', d)
    ensures HoldsVars(m', slots, env)
  {
  }

  /** The code of a unary term is its operand's and what it adds. */
  function Added(t: Term): seq<Insn>
    requires t.Near? || t.Minus? || t.WithConst?
  {
    match t
    case Near(size, k, _) => [Op(AccToIndex, 0), Op(LoadInd(size), k)]
    case Minus(_) => [Op(Negate, 0)]
    case WithConst(op, _, k) => [Op(Arith(op, Const), k)]
  }

  /** What a unary term makes of its operand's value. */
  function Applied(t: Term, v: u32, bytes: seq<u8>): Option<u32>
    requires t.Near? || t.Minus? || t.WithConst?
  {
    match t
    case Near(size, k, _) => Read(bytes, size, v + k)
    case Minus(_) => Some(if v == 0 then 0 else TWO32 - v)
    case WithConst(op, _, k) => Compute(op, v, k)
  }

  lemma AddedRuns(t: Term, prog: Program, bytes: seq<u8>, wirelen: u32, m: Machine, d: nat)
    requires (t.Near? || t.Minus? || t.WithConst?) && !(t.WithConst? && t.op.Div? && t.k == 0)
    requires Placed(prog, m.pc, Added(t)) && MachineOk(m)
    ensures Yields(prog, bytes, wirelen, m, m.pc + |Added(t)|, d, Applied(t, m.a, bytes))
  {
    match t
    case Near(size, k, _) => NearRuns(size, k, prog, bytes, wirelen, m, d);
    case Minus(_) => MinusRuns(prog, bytes, wirelen, m, d);
    case WithConst(op, _, k) =>
      PlacedOne(prog, m.pc, Op(Arith(op, Const), k));
      ArithRuns(op, Const, k, prog, bytes, wirelen, m, d);
  }

  lemma UnaryComputes(t: Term, c: seq<Insn>, slots: seq<nat>, d: nat, env: seq<u32>, bytes: seq<u8>, wirelen: u32, v: Option<u32>)
    requires (t.Near? || t.Minus? || t.WithConst?) && !(t.WithConst? && t.op.Div? && t.k == 0)
    requires Computes(c, slots, d, env, bytes, wirelen, v)
    ensures Computes(c + Added(t), slots, d, env, bytes, wirelen, if v.None? then None else Applied(t, v.value, bytes))
  {
    forall prog, m: Machine | Placed(prog, m.pc, c + Added(t)) && HoldsVars(m, slots, env)
      ensures Yields(prog, bytes, wirelen, m, m.pc + |c + Added(t)|, d, if v.None? then None else Applied(t, v.value, bytes))
    {
      PlacedParts(prog, m.pc, c, Added(t));
      if v.Some? {
        var m1 :| Went(prog, bytes, wirelen, m, m.pc + |c|, d, v.value, m1);
        AddedRuns(t, prog, bytes, wirelen, m1, d);
        Then(prog, bytes, wirelen, m, m1, m1.pc + |Added(t)|, d, d, Applied(t, v.value, bytes));
      }
    }
  }

  ghost predicate BothSet(prog: Program, bytes: seq<u8>, wirelen: u32, m: Machine, end: nat, d: nat, x: u32, y: u32, m': Machine) {
    m'.pc == end && m'.a == x && m'.x == y && Kept(m, m', d) && Leads(prog, bytes, wirelen, m, m')
  }

  /** From m the run goes on at instruction end with both registers set and the words
      below d as they were; without a value for one of them it returns zero. */
  ghost predicate Sets(prog: Program, bytes: seq<u8>, wirelen: u32, m: Machine, end: nat, d: nat, x: Option<u32>,
                       y: Option<u32>)
  {
    if x.None? || y.None? then Returns(prog, bytes, wirelen, m, 0)
    else exists m' :: BothSet(prog, bytes, wirelen, m, end, d, x.value, y.value, m')
  }

  /** Wherever the code stands, it sets both registers. */
  ghost predicate Prepares(c: seq<Insn>, slots: seq<nat>, d: nat, env: seq<u32>, bytes: seq<u8>, wirelen: u32, x: Option<u32>,
                           y: Option<u32>)
  {
    forall prog, m: Machine :: Placed(prog, m.pc, c) && HoldsVars(m, slots, env) ==>
      Sets(prog, bytes, wirelen, m, m.pc + |c|, d, x, y)
  }

  /** What the accumulator and the index register give. */
  function Combined(op: AluOp, x: Option<u32>, y: Option<u32>): Option<u32> {
    if x.None? || y.None? then None else Compute(op, x.value, y.value)
  }

  lemma CombinedComputes(op: AluOp, c: seq<Insn>, slots: seq<nat>, d: nat, env: seq<u32>, bytes: seq<u8>, wirelen: u32,
                         x: Option<u32>, y: Option<u32>)
    requires Prepares(c, slots, d, env, bytes, wirelen, x, y)
    ensures Computes(c + [Op(Arith(op, Index), 0)], slots, d, env, bytes, wirelen, Combined(op, x, y))
  {
    var alu := Op(Arith(op, Index), 0);
    forall prog, m: Machine | Placed(prog, m.pc, c + [alu]) && HoldsVars(m, slots, env)
      ensures Yields(prog, bytes, wirelen, m, m.pc + |c| + 1, d, Combined(op, x, y))
    {
      PlacedParts(prog, m.pc, c, [alu]);
      PlacedOne(prog, m.pc + |c|, alu);
      if x.Some? && y.Some? {
        var m1 :| BothSet(prog, bytes, wirelen, m, m.pc + |c|, d, x.value, y.value, m1);
        ArithRuns(op, Index, 0, prog, bytes, wirelen, m1, d);
        Then(prog, bytes, wirelen, m, m1, m1.pc + 1, d, d, Compute(op, x.value, y.value));
      }
    }
  }

  lemma SimplePrepares(r: Term, c: seq<Insn>, slots: seq<nat>, d: nat, env: seq<u32>, bytes: seq<u8>, wirelen: u32, x: Option<u32>)
    requires Simple(r) && (r.Var? ==> r.n < |slots|) && Slots(slots, d)
    requires Computes(c, slots, d, env, bytes, wirelen, x)
    ensures Prepares(c + [ToIndex(r, slots)], slots, d, env, bytes, wirelen, x, Eval(r, env, bytes, wirelen))
  {
    var load, y := ToIndex(r, slots), Eval(r, env, bytes, wirelen);
    forall prog, m: Machine | Placed(prog, m.pc, c + [load]) && HoldsVars(m, slots, env)
      ensures Sets(prog, bytes, wirelen, m, m.pc + |c| + 1, d, x, y)
    {
      PlacedParts(prog, m.pc, c, [load]);
      PlacedOne(prog, m.pc + |c|, load);
      if x.Some? {
        var m1 :| Went(prog, bytes, wirelen, m, m.pc + |c|, d, x.value, m1);
        VarsKept(m, m1, slots, env, d);
        IndexRuns(r, slots, env, prog, bytes, wirelen, m1);
        LeadsOn(prog, bytes, wirelen, m, m1);
        if y.Some? {
          assert BothSet(prog, bytes, wirelen, m, m1.pc + 1, d, x.value, y.value, m1.(pc := m1.pc + 1, x := y.value));
        }
      }
    }
  }

  lemma WaitParts(prog: Program, at: nat, c: seq<Insn>, store: Insn, c': seq<Insn>, load: Insn)
    requires Placed(prog, at, c + [store] + c' + [load])
    ensures Placed(prog, at, c) && Placed(prog, at + |c|, [store]) && Placed(prog, at + |c| + 1, c')
    ensures at + |c| + 1 + |c'| < |prog| && prog[at + |c| + 1 + |c'|] == load
  {
    PlacedParts(prog, at, c + [store] + c', [load]);
    PlacedOne(prog, at + |c| + 1 + |c'|, load);
    PlacedParts(prog, at, c + [store], c');
    PlacedParts(prog, at, c, [store]);
  }

  /** The accumulator is kept in word d. */
  lemma Stored(prog: Program, bytes: seq<u8>, wirelen: u32, m: Machine, m1: Machine, slots: seq<nat>, env: seq<u32>, d: nat,
               store: Insn, v: u32) returns (m2: Machine)
    requires Slots(slots, d) && d < BPF_MEMWORDS && HoldsVars(m, slots, env) && Kept(m, m1, d) && v == m1.a
    requires Leads(prog, bytes, wirelen, m, m1)
    requires store == Op(StoreAcc, d) && Placed(prog, m1.pc, [store])
    ensures Leads(prog, bytes, wirelen, m, m2) && Kept(m, m2, d) && HoldsVars(m2, slots, env)
    ensures m2.pc == m1.pc + 1 && m2.mem[d] == Some(v)
  {
    PlacedOne(prog, m1.pc, store);
    StoreStep(prog, bytes, wirelen, m1, d);
    LeadsOn(prog, bytes, wirelen, m, m1);
    m2 := m1.(pc := m1.pc + 1, mem := m1.mem[d := Some(m1.a)]);
  }

  /** What waited in word d goes to the index register. */
  lemma Fetched(prog: Program, bytes: seq<u8>, wirelen: u32, m: Machine, m2: Machine, end: nat, d: nat, x: Option<u32>, y: u32)
    requires MachineOk(m) && d < BPF_MEMWORDS && Kept(m, m2, d) && m2.mem[d] == Some(y)
    requires Leads(prog, bytes, wirelen, m, m2) && Yields(prog, bytes, wirelen, m2, end, d + 1, x)
    requires end < |prog| && prog[end] == Op(IndexMem, d)
    ensures Sets(prog, bytes, wirelen, m, end + 1, d, x, Some(y))
  {
    LeadsOn(prog, bytes, wirelen, m, m2);
    if x.Some? {
      var m3 :| Went(prog, bytes, wirelen, m2, end, d + 1, x.value, m3);
      LeadsOn(prog, bytes, wirelen, m, m3);
      IndexMemStep(prog, bytes, wirelen, m3, d);
      assert BothSet(prog, bytes, wirelen, m, end + 1, d, x.value, y, m3.(pc := end + 1, x := y));
    }
  }

  /** The right operand waits in word d while the left one is computed. */
  lemma WaitPrepares(c: seq<Insn>, c': seq<Insn>, slots: seq<nat>, d: nat, env: seq<u32>, bytes: seq<u8>, wirelen: u32,
                     x: Option<u32>, y: Option<u32>)
    requires Slots(slots, d) && d < BPF_MEMWORDS
    requires Computes(c, slots, d, env, bytes, wirelen, y) && Computes(c', slots, d + 1, env, bytes, wirelen, x)
    ensures Prepares(c + [Op(StoreAcc, d)] + c' + [Op(IndexMem, d)], slots, d, env, bytes, wirelen, x, y)
  {
    var all := c + [Op(StoreAcc, d)] + c' + [Op(IndexMem, d)];
    forall prog, m: Machine | Placed(prog, m.pc, all) && HoldsVars(m, slots, env)
      ensures Sets(prog, bytes, wirelen, m, m.pc + |all|, d, x, y)
    {
      WaitParts(prog, m.pc, c, Op(StoreAcc, d), c', Op(IndexMem, d));
      if y.Some? {
        WaitSets(prog, bytes, wirelen, m, m.pc + |c|, c', slots, d, env, x, y.value);
      }
    }
  }

  lemma WaitSets(prog: Program, bytes: seq<u8>, wirelen: u32, m: Machine, at: nat, c': seq<Insn>, slots: seq<nat>, d: nat,
                 env: seq<u32>, x: Option<u32>, y: u32)
    requires Slots(slots, d) && d < BPF_MEMWORDS && HoldsVars(m, slots, env) && Yields(prog, bytes, wirelen, m, at, d, Some(y))
    requires Placed(prog, at, [Op(StoreAcc, d)]) && Placed(prog, at + 1, c')
    requires at + 1 + |c'| < |prog| && prog[at + 1 + |c'|] == Op(IndexMem, d)
    requires Computes(c', slots, d + 1, env, bytes, wirelen, x)
    ensures Sets(prog, bytes, wirelen, m, at + 1 + |c'| + 1, d, x, Some(y))
  {
    var m1 :| Went(prog, bytes, wirelen, m, at, d, y, m1);
    var m2 := Stored(prog, bytes, wirelen, m, m1, slots, env, d, Op(StoreAcc, d), m1.a);
    Fetched(prog, bytes, wirelen, m, m2, m2.pc + |c'|, d, x, y);
  }

  /** The accumulator becomes the next variable. */
  lemma Bound(prog: Program, bytes: seq<u8>, wirelen: u32, m: Machine, m1: Machine, slots: seq<nat>, env: seq<u32>, d: nat,
              v: u32) returns (m3: Machine)
    requires Slots(slots, d) && d < BPF_MEMWORDS && HoldsVars(m, slots, env) && Kept(m, m1, d) && v == m1.a
    requires Leads(prog, bytes, wirelen, m, m1)
    requires m1.pc + 1 < |prog| && prog[m1.pc] == Op(AccToIndex, 0) && prog[m1.pc + 1] == Op(StoreIndex, d)
    ensures Leads(prog, bytes, wirelen, m, m3) && Kept(m, m3, d) && HoldsVars(m3, slots + [d], env + [v])
    ensures m3.pc == m1.pc + 2
  {
    MoveStep(prog, bytes, wirelen, m1);
    LeadsOn(prog, bytes, wirelen, m, m1);
    var m2 := m1.(pc := m1.pc + 1, x := v);
    StoreIndexStep(prog, bytes, wirelen, m2, d);
    LeadsOn(prog, bytes, wirelen, m, m2);
    m3 := m2.(pc := m1.pc + 2, mem := m2.mem[d := Some(v)]);
  }

  lemma LetComputes(c: seq<Insn>, c': seq<Insn>, slots: seq<nat>, d: nat, env: seq<u32>, bytes: seq<u8>, wirelen: u32, v: u32,
                    w: Option<u32>)
    requires Slots(slots, d) && d < BPF_MEMWORDS
    requires Computes(c, slots, d, env, bytes, wirelen, Some(v))
    requires Computes(c', slots + [d], d + 1, env + [v], bytes, wirelen, w)
    ensures Computes(c + [Op(AccToIndex, 0), Op(StoreIndex, d)] + c', slots, d, env, bytes, wirelen, w)
  {
    var two := [Op(AccToIndex, 0), Op(StoreIndex, d)];
    forall prog, m: Machine | Placed(prog, m.pc, c + two + c') && HoldsVars(m, slots, env)
      ensures Yields(prog, bytes, wirelen, m, m.pc + |c + two + c'|, d, w)
    {
      PlacedParts(prog, m.pc, c + two, c');
      PlacedParts(prog, m.pc, c, two);
      PlacedTwo(prog, m.pc + |c|, two[0], two[1]);
      LetYields(prog, bytes, wirelen, m, m.pc + |c|, c', slots, d, env, v, w);
    }
  }

  lemma LetYields(prog: Program, bytes: seq<u8>, wirelen: u32, m: Machine, at: nat, c': seq<Insn>, slots: seq<nat>, d: nat,
                  env: seq<u32>, v: u32, w: Option<u32>)
    requires Slots(slots, d) && d < BPF_MEMWORDS && HoldsVars(m, slots, env) && Yields(prog, bytes, wirelen, m, at, d, Some(v))
    requires at + 1 < |prog| && prog[at] == Op(AccToIndex, 0) && prog[at + 1] == Op(StoreIndex, d) && Placed(prog, at + 2, c')
    requires Computes(c', slots + [d], d + 1, env + [v], bytes, wirelen, w)
    ensures Yields(prog, bytes, wirelen, m, at + 2 + |c'|, d, w)
  {
    var m1 :| Went(prog, bytes, wirelen, m, at, d, v, m1);
    var m3 := Bound(prog, bytes, wirelen, m, m1, slots, env, d, v);
    Then(prog, bytes, wirelen, m, m3, m3.pc + |c'|, d, d + 1, w);
  }

  /** Code with no value ends the run, whatever follows. */
  lemma NoValue(c: seq<Insn>, c': seq<Insn>, slots: seq<nat>, d: nat, env: seq<u32>, bytes: seq<u8>, wirelen: u32)
    requires Computes(c, slots, d, env, bytes, wirelen, None)
    ensures Computes(c + c', slots, d, env, bytes, wirelen, None)
  {
    forall prog, m: Machine | Placed(prog, m.pc, c + c') && HoldsVars(m, slots, env)
      ensures Yields(prog, bytes, wirelen, m, m.pc + |c + c'|, d, None)
    {
      PlacedParts(prog, m.pc, c, c');
    }
  }

  lemma LeafRuns(t: Term, slots: seq<nat>, d: nat, env: seq<u32>, bytes: seq<u8>, wirelen: u32)
    requires t.Lit? || t.Field? || t.Length? || t.Var? || t.HeaderLen?
    requires TermOk(t, |slots|, d) && Slots(slots, d) && |slots| == |env|
    ensures Computes(Code(t, slots, d), slots, d, env, bytes, wirelen, Eval(t, env, bytes, wirelen))
  {
    match t
    case Lit(k) => ImmComputes(k, slots, d, env, bytes, wirelen);
    case Field(size, k) => FieldComputes(size, k, slots, d, env, bytes, wirelen);
    case Length => LenComputes(slots, d, env, bytes, wirelen);
    case Var(n) => VarComputes(n, slots, d, env, bytes, wirelen);
    case HeaderLen(k) => HeaderComputes(k, slots, d, env, bytes, wirelen);
  }

  lemma LetRuns(t: Term, body: Term, slots: seq<nat>, d: nat, env: seq<u32>, bytes: seq<u8>, wirelen: u32)
    requires TermOk(Let(t, body), |slots|, d) && Slots(slots, d) && |slots| == |env|
    requires Computes(Code(t, slots, d), slots, d, env, bytes, wirelen, Eval(t, env, bytes, wirelen))
    requires var v := Eval(t, env, bytes, wirelen);
      v.Some? ==> Computes(Code(body, slots + [d], d + 1), slots + [d], d + 1, env + [v.value], bytes, wirelen,
                           Eval(body, env + [v.value], bytes, wirelen))
    ensures Computes(Code(Let(t, body), slots, d), slots, d, env, bytes, wirelen, Eval(Let(t, body), env, bytes, wirelen))
  {
    var v := Eval(t, env, bytes, wirelen);
    var c, c' := Code(t, slots, d), Code(body, slots + [d], d + 1);
    if v.None? {
      assert c + [Op(AccToIndex, 0), Op(StoreIndex, d)] + c' == c + ([Op(AccToIndex, 0), Op(StoreIndex, d)] + c');
      NoValue(c, [Op(AccToIndex, 0), Op(StoreIndex, d)] + c', slots, d, env, bytes, wirelen);
    } else {
      LetComputes(c, c', slots, d, env, bytes, wirelen, v.value, Eval(body, env + [v.value], bytes, wirelen));
    }
  }

  /** Every term, wherever its code stands: the run goes on behind the code with the
      term's value in the accumulator and nothing below word d written; it returns zero
      if the term has no value. */
  lemma {:induction false} TermRuns(t: Term, slots: seq<nat>, d: nat, env: seq<u32>, bytes: seq<u8>, wirelen: u32)
    requires TermOk(t, |slots|, d) && Slots(slots, d) && |slots| == |env|
    ensures Computes(Code(t, slots, d), slots, d, env, bytes, wirelen, Eval(t, env, bytes, wirelen))
    decreases Nodes(t), 1
  {
    match t
    case Lit(_) => LeafRuns(t, slots, d, env, bytes, wirelen);
    case Field(_, _) => LeafRuns(t, slots, d, env, bytes, wirelen);
    case Length => LeafRuns(t, slots, d, env, bytes, wirelen);
    case Var(_) => LeafRuns(t, slots, d, env, bytes, wirelen);
    case HeaderLen(_) => LeafRuns(t, slots, d, env, bytes, wirelen);
    case Near(_, _, at) =>
      TermRuns(at, slots, d, env, bytes, wirelen);
      UnaryComputes(t, Code(at, slots, d), slots, d, env, bytes, wirelen, Eval(at, env, bytes, wirelen));
    case Minus(t1) =>
      TermRuns(t1, slots, d, env, bytes, wirelen);
      UnaryComputes(t, Code(t1, slots, d), slots, d, env, bytes, wirelen, Eval(t1, env, bytes, wirelen));
    case WithConst(_, t1, _) =>
      TermRuns(t1, slots, d, env, bytes, wirelen);
      UnaryComputes(t, Code(t1, slots, d), slots, d, env, bytes, wirelen, Eval(t1, env, bytes, wirelen));
    case With(op, l, r) =>
      OperandsRun(l, r, slots, d, env, bytes, wirelen);
      CombinedComputes(op, Operands(l, r, slots, d), slots, d, env, bytes, wirelen, Eval(l, env, bytes, wirelen),
                       Eval(r, env, bytes, wirelen));
    case Let(t1, body) =>
      TermRuns(t1, slots, d, env, bytes, wirelen);
      var v := Eval(t1, env, bytes, wirelen);
      if v.Some? {
        TermRuns(body, slots + [d], d + 1, env + [v.value], bytes, wirelen);
      }
      LetRuns(t1, body, slots, d, env, bytes, wirelen);
  }

  lemma {:induction false} OperandsRun(l: Term, r: Term, slots: seq<nat>, d: nat, env: seq<u32>, bytes: seq<u8>, wirelen: u32)
    requires PairOk(l, r, |slots|, d) && Slots(slots, d) && |slots| == |env|
    ensures Prepares(Operands(l, r, slots, d), slots, d, env, bytes, wirelen, Eval(l, env, bytes, wirelen),
                     Eval(r, env, bytes, wirelen))
    decreases Nodes(l) + Nodes(r), 2
  {
    var x, y := Eval(l, env, bytes, wirelen), Eval(r, env, bytes, wirelen);
    if Simple(r) {
      TermRuns(l, slots, d, env, bytes, wirelen);
      SimplePrepares(r, Code(l, slots, d), slots, d, env, bytes, wirelen, x);
    } else {
      TermRuns(r, slots, d, env, bytes, wirelen);
      TermRuns(l, slots, d + 1, env, bytes, wirelen);
      WaitPrepares(Code(r, slots, d), Code(l, slots, d + 1), slots, d, env, bytes, wirelen, x, y);
    }
  }
}
