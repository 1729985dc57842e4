/** The programs of rules pass the checker: each instruction by itself, and no scratch
    word is loaded before it is stored on every path. So a rule that fits the limit on
    instructions can be installed, and then filters by its verdict. */
module BpfAccept {
  import opened Bits
  import opened Mbufs
  import opened BpfPacket
  import opened BpfMachine
  import opened BpfOps
  import opened BpfTerms
  import opened BpfRules
  import opened BpfValidate
  import opened BpfFilter
  import opened Options

  // ----- instructions

  predicate Straight(kind: Kind) {
    !kind.Illegal? && !kind.JumpAlways? && !kind.JumpIf?
  }

  predicate OperandOk(kind: Kind, k: u32) {
    && (kind.LoadMem? || kind.IndexMem? || kind.StoreAcc? || kind.StoreIndex? ==> k < BPF_MEMWORDS)
    && (kind == Arith(Div, Const) ==> k != 0)
  }

  lemma LoadLocal(prog: Program, i: nat, kind: Kind, k: u32)
    requires i < |prog| && Straight(kind) && prog[i] == Op(kind, k) && OperandOk(kind, k)
    requires kind.LoadAbs? || kind.LoadInd? || kind.LoadLen? || kind.IndexLen? || kind.IndexMsh? || kind.LoadImm?
      || kind.IndexImm? || kind.LoadMem? || kind.IndexMem?
    ensures LocalOk(prog, i) && !IsJump(prog[i].code) && !IsStore(prog[i].code)
    ensures IsMemLoad(prog[i].code) <==> kind.LoadMem? || kind.IndexMem?
  {
  }

  lemma AluLocal(prog: Program, i: nat, kind: Kind, k: u32)
    requires i < |prog| && Straight(kind) && prog[i] == Op(kind, k) && OperandOk(kind, k)
    requires kind.Arith? || kind.Negate?
    ensures LocalOk(prog, i) && !IsJump(prog[i].code) && !IsStore(prog[i].code) && !IsMemLoad(prog[i].code)
  {
    if kind.Arith? {
      assert prog[i].code / 16 % 16 * 16 == OpCode(kind.op);
      assert SrcOf(prog[i].code) == SourceCode(kind.operand);
    }
  }

  lemma OtherLocal(prog: Program, i: nat, kind: Kind, k: u32)
    requires i < |prog| && Straight(kind) && prog[i] == Op(kind, k) && OperandOk(kind, k)
    requires kind.RetConst? || kind.RetAcc? || kind.StoreAcc? || kind.StoreIndex? || kind.AccToIndex? || kind.IndexToAcc?
    ensures LocalOk(prog, i) && !IsJump(prog[i].code) && !IsMemLoad(prog[i].code)
    ensures IsStore(prog[i].code) <==> kind.StoreAcc? || kind.StoreIndex?
  {
  }

  lemma StraightLocal(prog: Program, i: nat, kind: Kind, k: u32)
    requires i < |prog| && Straight(kind) && prog[i] == Op(kind, k) && OperandOk(kind, k)
    ensures LocalOk(prog, i) && !IsJump(prog[i].code)
    ensures IsStore(prog[i].code) <==> kind.StoreAcc? || kind.StoreIndex?
    ensures IsMemLoad(prog[i].code) <==> kind.LoadMem? || kind.IndexMem?
  {
    if kind.Arith? || kind.Negate? {
      AluLocal(prog, i, kind, k);
    } else if kind.RetConst? || kind.RetAcc? || kind.StoreAcc? || kind.StoreIndex? || kind.AccToIndex? || kind.IndexToAcc? {
      OtherLocal(prog, i, kind, k);
    } else {
      LoadLocal(prog, i, kind, k);
    }
  }

  lemma TestLocal(prog: Program, i: nat, test: Test, src: Operand, k: u32, jt: u8, jf: u8)
    requires i < |prog| && prog[i] == TestOp(test, src, k, jt, jf) && i + 1 + jt < |prog| && i + 1 + jf < |prog|
    ensures LocalOk(prog, i) && !IsMemLoad(prog[i].code) && !IsStore(prog[i].code)
    ensures forall j :: Edge(prog, i, j) ==> j == i + 1 + jt || j == i + 1 + jf
  {
    assert prog[i].code % 8 == BPF_JMP;
    assert OpOf(prog[i].code) == TestCode(test);
  }

  lemma JumpLocal(prog: Program, i: nat, k: u32)
    requires i < |prog| < TWO32 && prog[i] == Op(JumpAlways, k) && i + 1 + k < |prog|
    ensures LocalOk(prog, i) && !IsMemLoad(prog[i].code) && !IsStore(prog[i].code)
    ensures forall j :: Edge(prog, i, j) ==> j == i + 1 + k
  {
    assert (i + 1 + k) % TWO32 == i + 1 + k;
  }

  // ----- how many words are written

  /** At each instruction the words below its depth are written: what an instruction
      needs is there, and it leaves what the next ones need. */
  ghost predicate InsnSafe(prog: Program, depths: seq<nat>, i: nat)
    requires i < |prog| == |depths|
  {
    && LocalOk(prog, i)
    && (IsMemLoad(prog[i].code) ==> prog[i].k < depths[i])
    && forall j :: i < j < |prog| && Edge(prog, i, j) ==>
         depths[j] <= depths[i] || (depths[j] == depths[i] + 1 && Writes(prog, i, depths[i]))
  }

  lemma {:induction false} WrittenBelow(prog: Program, depths: seq<nat>, i: nat, w: nat)
    requires i < |prog| == |depths| && depths[0] == 0 && w < depths[i]
    requires forall j :: 0 <= j < |prog| ==> InsnSafe(prog, depths, j)
    ensures !Unwritten(prog, i, w)
    decreases i
  {
    if Unwritten(prog, i, w) {
      var j :| 0 <= j < i && j < |prog| && Edge(prog, j, i) && !Writes(prog, j, w) && Unwritten(prog, j, w);
      assert InsnSafe(prog, depths, j);
      WrittenBelow(prog, depths, j, w);
    }
  }

  /** A program with such depths is accepted if it ends in a return and is not too long. */
  lemma DepthsAccept(prog: Program, depths: seq<nat>)
    requires 1 <= |prog| <= BPF_MAXINSNS && ClassOf(prog[|prog| - 1].code) == BPF_RET
    requires |prog| == |depths| && depths[0] == 0
    requires forall i :: 0 <= i < |prog| ==> InsnSafe(prog, depths, i)
    ensures Accepted(prog)
  {
    forall i | 0 <= i < |prog|
      ensures LocalOk(prog, i) && (IsMemLoad(prog[i].code) ==> !Unwritten(prog, i, prog[i].k))
    {
      assert InsnSafe(prog, depths, i);
      if IsMemLoad(prog[i].code) {
        WrittenBelow(prog, depths, i, prog[i].k);
      }
    }
  }

  // ----- depths of code

  /** The code stands in the program, and its depths among the program's. */
  ghost predicate Noted(prog: Program, depths: seq<nat>, at: nat, c: seq<Insn>, dc: seq<nat>) {
    |depths| == |prog| && |dc| == |c| && Placed(prog, at, c) && depths[at..at + |c|] == dc
  }

  ghost predicate SafePart(prog: Program, depths: seq<nat>, at: nat, end: nat)
    requires |prog| == |depths|
  {
    forall i :: at <= i < end && i < |prog| ==> InsnSafe(prog, depths, i)
  }

  lemma NotedParts(prog: Program, depths: seq<nat>, at: nat, c: seq<Insn>, dc: seq<nat>, c': seq<Insn>, dc': seq<nat>)
    requires |c| == |dc| && Noted(prog, depths, at, c + c', dc + dc')
    ensures Noted(prog, depths, at, c, dc) && Noted(prog, depths, at + |c|, c', dc')
    ensures |c'| >= 1 ==> at + |c| < |depths| && depths[at + |c|] == dc'[0]
  {
    PlacedParts(prog, at, c, c');
    var all := depths[at..at + |c + c'|];
    assert all[..|c|] == dc && all[|c|..] == dc';
    if |c'| >= 1 {
      assert all[|c|] == dc'[0];
    }
  }

  /** Wherever the code stands, it is safe if what follows needs no more than depth e. */
  ghost predicate Fits(c: seq<Insn>, dc: seq<nat>, e: nat) {
    && |c| == |dc|
    && forall prog, depths, at: nat ::
         Noted(prog, depths, at, c, dc) && at + |c| < |prog| && depths[at + |c|] <= e ==> SafePart(prog, depths, at, at + |c|)
  }

  lemma OneFits(kind: Kind, k: u32, d: nat, e: nat)
    requires Straight(kind) && OperandOk(kind, k) && (kind.LoadMem? || kind.IndexMem? ==> k < d)
    requires e == d || (e == d + 1 && k == d && (kind.StoreAcc? || kind.StoreIndex?))
    ensures Fits([Op(kind, k)], [d], e)
  {
    forall prog, depths, at: nat | Noted(prog, depths, at, [Op(kind, k)], [d]) && at + 1 < |prog| && depths[at + 1] <= e
      ensures SafePart(prog, depths, at, at + 1)
    {
      PlacedOne(prog, at, Op(kind, k));
      assert depths[at..at + 1][0] == d;
      StraightLocal(prog, at, kind, k);
      assert InsnSafe(prog, depths, at);
    }
  }

  lemma FitsJoin(c: seq<Insn>, dc: seq<nat>, e: nat, c': seq<Insn>, dc': seq<nat>, e': nat)
    requires Fits(c, dc, e) && Fits(c', dc', e') && |c'| >= 1 && dc'[0] <= e
    ensures Fits(c + c', dc + dc', e')
  {
    forall prog, depths, at: nat
      | Noted(prog, depths, at, c + c', dc + dc') && at + |c + c'| < |prog| && depths[at + |c + c'|] <= e'
      ensures SafePart(prog, depths, at, at + |c + c'|)
    {
      NotedParts(prog, depths, at, c, dc, c', dc');
    }
  }

  lemma FitsOneMore(c: seq<Insn>, dc: seq<nat>, kind: Kind, k: u32, d: nat, e: nat)
    requires Fits(c, dc, d) && Straight(kind) && OperandOk(kind, k) && (kind.LoadMem? || kind.IndexMem? ==> k < d)
    requires e == d || (e == d + 1 && k == d && (kind.StoreAcc? || kind.StoreIndex?))
    ensures Fits(c + [Op(kind, k)], dc + [d], e)
  {
    OneFits(kind, k, d, e);
    FitsJoin(c, dc, d, [Op(kind, k)], [d], e);
  }

  /** The depths along the code of a term: in words from d on there is what waits for
      the other operand, and the variables bound on the way. */
  function Depths(t: Term, d: nat): (r: seq<nat>)
    ensures |r| >= 1 && r[0] == d
    decreases Nodes(t), 1
  {
    match t
    case Near(_, _, at) => Depths(at, d) + [d] + [d]
    case HeaderLen(_) => [d] + [d]
    case Minus(t1) => Depths(t1, d) + [d]
    case WithConst(_, t1, _) => Depths(t1, d) + [d]
    case With(_, l, r) => PairDepths(l, r, d) + [d]
    case Let(t1, body) => Depths(t1, d) + [d] + [d] + Depths(body, d + 1)
    case _ => [d]
  }

  function PairDepths(l: Term, r: Term, d: nat): (ds: seq<nat>)
    ensures |ds| >= 1 && ds[0] == d
    decreases Nodes(l) + Nodes(r), 2
  {
    if Simple(r) then Depths(l, d) + [d] else Depths(r, d) + [d] + Depths(l, d + 1) + [d + 1]
  }

  lemma HeaderFits(k: u32, d: nat)
    ensures Fits([Op(IndexMsh, k), Op(IndexToAcc, 0)], [d] + [d], d)
  {
    OneFits(IndexMsh, k, d, d);
    FitsOneMore([Op(IndexMsh, k)], [d], IndexToAcc, 0, d, d);
    assert [Op(IndexMsh, k)] + [Op(IndexToAcc, 0)] == [Op(IndexMsh, k), Op(IndexToAcc, 0)];
  }

  lemma FitsTwoMore(c: seq<Insn>, dc: seq<nat>, kind: Kind, k: u32, kind': Kind, k': u32, d: nat, e: nat)
    requires Fits(c, dc, d) && Straight(kind) && OperandOk(kind, k) && !kind.LoadMem? && !kind.IndexMem?
    requires Straight(kind') && OperandOk(kind', k') && !kind'.LoadMem? && !kind'.IndexMem?
    requires e == d || (e == d + 1 && k' == d && (kind'.StoreAcc? || kind'.StoreIndex?))
    ensures Fits(c + [Op(kind, k), Op(kind', k')], dc + [d] + [d], e)
  {
    FitsOneMore(c, dc, kind, k, d, d);
    FitsOneMore(c + [Op(kind, k)], dc + [d], kind', k', d, e);
    assert c + [Op(kind, k)] + [Op(kind', k')] == c + [Op(kind, k), Op(kind', k')];
  }

  lemma LetFits(c: seq<Insn>, dc: seq<nat>, c': seq<Insn>, dc': seq<nat>, d: nat)
    requires Fits(c, dc, d) && Fits(c', dc', d + 1) && |c'| >= 1 && dc'[0] == d + 1 && d < BPF_MEMWORDS
    ensures Fits(c + [Op(AccToIndex, 0), Op(StoreIndex, d)] + c', dc + [d] + [d] + dc', d)
  {
    FitsTwoMore(c, dc, AccToIndex, 0, StoreIndex, d, d, d + 1);
    FitsLess(c', dc', d + 1, d);
    FitsJoin(c + [Op(AccToIndex, 0), Op(StoreIndex, d)], dc + [d] + [d], d + 1, c', dc', d);
  }

  lemma LeafFits(t: Term, slots: seq<nat>, d: nat)
    requires t.Lit? || t.Field? || t.Length? || t.Var? || t.HeaderLen?
    requires TermOk(t, |slots|, d) && Slots(slots, d)
    ensures Fits(Code(t, slots, d), Depths(t, d), d)
  {
    match t
    case Lit(k) => OneFits(LoadImm, k, d, d);
    case Field(size, k) => OneFits(LoadAbs(size), k, d, d);
    case Length => OneFits(LoadLen, 0, d, d);
    case Var(n) => OneFits(LoadMem, slots[n], d, d);
    case HeaderLen(k) => HeaderFits(k, d);
  }

  lemma {:induction false} TermFits(t: Term, slots: seq<nat>, d: nat)
    requires TermOk(t, |slots|, d) && Slots(slots, d)
    ensures Fits(Code(t, slots, d), Depths(t, d), d)
    decreases Nodes(t), 1
  {
    match t
    case Lit(_) => LeafFits(t, slots, d);
    case Field(_, _) => LeafFits(t, slots, d);
    case Length => LeafFits(t, slots, d);
    case Var(_) => LeafFits(t, slots, d);
    case HeaderLen(_) => LeafFits(t, slots, d);
    case Near(size, k, at) =>
      TermFits(at, slots, d);
      FitsTwoMore(Code(at, slots, d), Depths(at, d), AccToIndex, 0, LoadInd(size), k, d, d);
    case Minus(t1) =>
      TermFits(t1, slots, d);
      FitsOneMore(Code(t1, slots, d), Depths(t1, d), Negate, 0, d, d);
    case WithConst(op, t1, k) =>
      TermFits(t1, slots, d);
      FitsOneMore(Code(t1, slots, d), Depths(t1, d), Arith(op, Const), k, d, d);
    case With(op, l, r) =>
      PairFits(l, r, slots, d);
      FitsOneMore(Operands(l, r, slots, d), PairDepths(l, r, d), Arith(op, Index), 0, d, d);
    case Let(t1, body) =>
      TermFits(t1, slots, d);
      TermFits(body, slots + [d], d + 1);
      LetFits(Code(t1, slots, d), Depths(t1, d), Code(body, slots + [d], d + 1), Depths(body, d + 1), d);
  }

  lemma FitsLess(c: seq<Insn>, dc: seq<nat>, e: nat, e': nat)
    requires Fits(c, dc, e) && e' <= e
    ensures Fits(c, dc, e')
  {
  }

  lemma {:induction false} PairFits(l: Term, r: Term, slots: seq<nat>, d: nat)
    requires PairOk(l, r, |slots|, d) && Slots(slots, d)
    ensures Fits(Operands(l, r, slots, d), PairDepths(l, r, d), d)
    decreases Nodes(l) + Nodes(r), 2
  {
    if Simple(r) {
      TermFits(l, slots, d);
      SimplePairFits(l, r, slots, d);
    } else {
      TermFits(r, slots, d);
      TermFits(l, slots, d + 1);
      WaitPairFits(l, r, slots, d);
    }
  }

  lemma SimplePairFits(l: Term, r: Term, slots: seq<nat>, d: nat)
    requires PairOk(l, r, |slots|, d) && Slots(slots, d) && Simple(r) && Fits(Code(l, slots, d), Depths(l, d), d)
    ensures Fits(Operands(l, r, slots, d), PairDepths(l, r, d), d)
  {
    SimpleFits(Code(l, slots, d), Depths(l, d), r, slots, d);
  }

  lemma WaitPairFits(l: Term, r: Term, slots: seq<nat>, d: nat)
    requires PairOk(l, r, |slots|, d) && Slots(slots, d) && !Simple(r)
    requires Fits(Code(r, slots, d), Depths(r, d), d) && Fits(Code(l, slots, d + 1), Depths(l, d + 1), d + 1)
    ensures Fits(Operands(l, r, slots, d), PairDepths(l, r, d), d)
  {
    WaitFits(Code(r, slots, d), Depths(r, d), Code(l, slots, d + 1), Depths(l, d + 1), d);
  }

  lemma WaitFits(c: seq<Insn>, dc: seq<nat>, c': seq<Insn>, dc': seq<nat>, d: nat)
    requires Fits(c, dc, d) && Fits(c', dc', d + 1) && |c'| >= 1 && dc'[0] == d + 1 && d < BPF_MEMWORDS
    ensures Fits(c + [Op(StoreAcc, d)] + c' + [Op(IndexMem, d)], dc + [d] + dc' + [d + 1], d)
  {
    FitsOneMore(c, dc, StoreAcc, d, d, d + 1);
    FitsJoin(c + [Op(StoreAcc, d)], dc + [d], d + 1, c', dc', d + 1);
    FitsOneMore(c + [Op(StoreAcc, d)] + c', dc + [d] + dc', IndexMem, d, d + 1, d + 1);
    FitsLess(c + [Op(StoreAcc, d)] + c' + [Op(IndexMem, d)], dc + [d] + dc' + [d + 1], d + 1, d);
  }

  lemma SimpleFits(c: seq<Insn>, dc: seq<nat>, t: Term, slots: seq<nat>, d: nat)
    requires Fits(c, dc, d) && Slots(slots, d) && Simple(t) && (t.Var? ==> t.n < |slots|)
    ensures Fits(c + [ToIndex(t, slots)], dc + [d], d)
  {
    var kind, k := IndexKind(t, slots);
    FitsOneMore(c, dc, kind, k, d, d);
  }

  lemma IndexKind(t: Term, slots: seq<nat>) returns (kind: Kind, k: u32)
    requires Simple(t) && (t.Var? ==> t.n < |slots|) && Slots(slots, BPF_MEMWORDS)
    ensures Straight(kind) && OperandOk(kind, k) && ToIndex(t, slots) == Op(kind, k)
    ensures !kind.LoadMem? && !kind.StoreAcc? && !kind.StoreIndex? && (kind.IndexMem? ==> t.Var? && k == slots[t.n])
  {
    match t
    case Lit(n) => kind, k := IndexImm, n;
    case HeaderLen(n) => kind, k := IndexMsh, n;
    case Length => kind, k := IndexLen, 0;
    case Var(n) => kind, k := IndexMem, slots[n];
  }

  // ----- conditions and rules

  /** Wherever the code stands, it is safe if nothing need be written at its targets. */
  ghost predicate FitsTo(c: seq<Insn>, dc: seq<nat>, y: nat, n: nat) {
    && |c| == |dc| && |c| >= 1 && dc[0] == 0
    && forall prog, depths, at: nat ::
         && Noted(prog, depths, at, c, dc) && Leaves(prog, at + |c|, y, n)
         && depths[at + |c| + y] == 0 && depths[at + |c| + n] == 0
         ==> SafePart(prog, depths, at, at + |c|)
  }

  function BranchDepths(y: nat, n: nat): seq<nat> {
    if y < 256 && n < 256 then [0] else [0, 0, 0]
  }

  lemma NearFits(test: Test, src: Operand, k: u32, y: u8, n: u8)
    ensures FitsTo([TestOp(test, src, k, y, n)], [0], y, n)
  {
    var i := TestOp(test, src, k, y, n);
    forall prog, depths, at: nat
      | Noted(prog, depths, at, [i], [0]) && Leaves(prog, at + 1, y, n) && depths[at + 1 + y] == 0 && depths[at + 1 + n] == 0
      ensures SafePart(prog, depths, at, at + 1)
    {
      PlacedOne(prog, at, i);
      TestSafe(prog, depths, at, test, src, k, y, n);
    }
  }

  lemma FarFits(i: Insn, y: nat, n: nat)
    requires FitsTo([i], [0], 0, 1)
    ensures FitsTo(FarCode(i, y, n), [0, 0, 0], y, n)
  {
    forall prog, depths, at: nat
      | Noted(prog, depths, at, FarCode(i, y, n), [0, 0, 0]) && Leaves(prog, at + 3, y, n)
        && depths[at + 3 + y] == 0 && depths[at + 3 + n] == 0
      ensures SafePart(prog, depths, at, at + 3)
    {
      FarNoted(prog, depths, at, i, y, n);
      FirstSafe(prog, depths, at, i);
      FarSafe(prog, depths, at, y, n);
    }
  }

  lemma FirstSafe(prog: Program, depths: seq<nat>, at: nat, i: Insn)
    requires FitsTo([i], [0], 0, 1) && |prog| == |depths| && at + 2 < |prog| < TWO32 && prog[at] == i
    requires depths[at] == 0 && depths[at + 1] == 0 && depths[at + 2] == 0
    ensures InsnSafe(prog, depths, at)
  {
    assert prog[at..at + 1] == [i] && depths[at..at + 1] == [0];
    assert Noted(prog, depths, at, [i], [0]) && Leaves(prog, at + 1, 0, 1);
    assert depths[at + 1 + 0] == 0 && depths[at + 1 + 1] == 0;
    assert SafePart(prog, depths, at, at + 1);
  }

  lemma FarNoted(prog: Program, depths: seq<nat>, at: nat, i: Insn, y: nat, n: nat)
    requires Noted(prog, depths, at, FarCode(i, y, n), [0, 0, 0]) && Leaves(prog, at + 3, y, n)
    ensures prog[at] == i && prog[at + 1] == Op(JumpAlways, y + 1) && prog[at + 2] == Op(JumpAlways, n)
    ensures depths[at] == 0 && depths[at + 1] == 0 && depths[at + 2] == 0
  {
    PlacedThree(prog, at, i, Op(JumpAlways, y + 1), Op(JumpAlways, n));
    ThreeZeros(depths, at);
  }

  lemma ThreeZeros(depths: seq<nat>, at: nat)
    requires at + 3 <= |depths| && depths[at..at + 3] == [0, 0, 0]
    ensures depths[at] == 0 && depths[at + 1] == 0 && depths[at + 2] == 0
  {
    var three := depths[at..at + 3];
    assert three[0] == depths[at] && three[1] == depths[at + 1] && three[2] == depths[at + 2];
  }

  lemma FarSafe(prog: Program, depths: seq<nat>, at: nat, y: nat, n: nat)
    requires |prog| == |depths| && Leaves(prog, at + 3, y, n) && depths[at + 3 + y] == 0 && depths[at + 3 + n] == 0
    requires prog[at + 1] == Op(JumpAlways, y + 1) && prog[at + 2] == Op(JumpAlways, n) && InsnSafe(prog, depths, at)
    ensures SafePart(prog, depths, at, at + 3)
  {
    JumpSafe(prog, depths, at + 1, y + 1);
    JumpSafe(prog, depths, at + 2, n);
  }

  lemma TestSafe(prog: Program, depths: seq<nat>, i: nat, test: Test, src: Operand, k: u32, jt: u8, jf: u8)
    requires |prog| == |depths| && i + 1 + jt < |prog| && i + 1 + jf < |prog| && prog[i] == TestOp(test, src, k, jt, jf)
    requires depths[i + 1 + jt] == 0 && depths[i + 1 + jf] == 0
    ensures InsnSafe(prog, depths, i)
  {
    TestLocal(prog, i, test, src, k, jt, jf);
  }

  lemma JumpSafe(prog: Program, depths: seq<nat>, i: nat, k: u32)
    requires i + 1 + k < |prog| == |depths| < TWO32 && prog[i] == Op(JumpAlways, k) && depths[i + 1 + k] == 0
    ensures InsnSafe(prog, depths, i)
  {
    JumpLocal(prog, i, k);
  }

  lemma FitsThen(c: seq<Insn>, dc: seq<nat>, c': seq<Insn>, dc': seq<nat>, y: nat, n: nat)
    requires Fits(c, dc, 0) && |c| >= 1 && dc[0] == 0 && FitsTo(c', dc', y, n)
    ensures FitsTo(c + c', dc + dc', y, n)
  {
    forall prog, depths, at: nat
      | Noted(prog, depths, at, c + c', dc + dc') && Leaves(prog, at + |c + c'|, y, n)
        && depths[at + |c + c'| + y] == 0 && depths[at + |c + c'| + n] == 0
      ensures SafePart(prog, depths, at, at + |c + c'|)
    {
      NotedParts(prog, depths, at, c, dc, c', dc');
    }
  }

  function CondDepths(c: Cond, y: nat, n: nat): (r: seq<nat>)
    requires CondOk(c)
    ensures |r| >= 1 && r[0] == 0
  {
    match c
    case Compare(_, l, r) => (if r.Lit? then Depths(l, 0) else PairDepths(l, r, 0)) + BranchDepths(y, n)
    case Not(c1) => CondDepths(c1, n, y)
    case Both(c1, c2) =>
      var second := CondDepths(c2, y, n);
      CondDepths(c1, 0, |second| + n) + second
    case Either(c1, c2) =>
      var second := CondDepths(c2, y, n);
      CondDepths(c1, |second| + y, 0) + second
  }

  lemma FitsBoth(c: seq<Insn>, dc: seq<nat>, c': seq<Insn>, dc': seq<nat>, y: nat, n: nat, y': nat, n': nat)
    requires FitsTo(c, dc, y', n') && FitsTo(c', dc', y, n)
    requires y' in {0, |c'| + y} && n' in {0, |c'| + n}
    ensures FitsTo(c + c', dc + dc', y, n)
  {
    forall prog, depths, at: nat
      | Noted(prog, depths, at, c + c', dc + dc') && Leaves(prog, at + |c + c'|, y, n)
        && depths[at + |c + c'| + y] == 0 && depths[at + |c + c'| + n] == 0
      ensures SafePart(prog, depths, at, at + |c + c'|)
    {
      NotedParts(prog, depths, at, c, dc, c', dc');
      assert depths[at + |c| + y'] == 0 && depths[at + |c| + n'] == 0;
    }
  }

  lemma BranchFits(test: Test, src: Operand, k: u32, y: nat, n: nat)
    ensures FitsTo(Branch(test, src, k, y, n), BranchDepths(y, n), y, n)
  {
    if y < 256 && n < 256 {
      NearFits(test, src, k, y, n);
    } else {
      NearFits(test, src, k, 0, 1);
      FarFits(TestOp(test, src, k, 0, 1), y, n);
    }
  }

  lemma CompareFits(test: Test, l: Term, r: Term, y: nat, n: nat)
    requires CondOk(Compare(test, l, r))
    ensures FitsTo(CondCode(Compare(test, l, r), y, n), CondDepths(Compare(test, l, r), y, n), y, n)
  {
    if r.Lit? {
      TermFits(l, [], 0);
      BranchFits(test, Const, r.k, y, n);
      FitsThen(Code(l, [], 0), Depths(l, 0), Branch(test, Const, r.k, y, n), BranchDepths(y, n), y, n);
    } else {
      PairFits(l, r, [], 0);
      BranchFits(test, Index, 0, y, n);
      FitsThen(Operands(l, r, [], 0), PairDepths(l, r, 0), Branch(test, Index, 0, y, n), BranchDepths(y, n), y, n);
    }
  }

  lemma {:induction false} CondFits(c: Cond, y: nat, n: nat)
    requires CondOk(c)
    ensures FitsTo(CondCode(c, y, n), CondDepths(c, y, n), y, n)
    decreases c
  {
    match c
    case Compare(test, l, r) => CompareFits(test, l, r, y, n);
    case Not(c1) => CondFits(c1, n, y);
    case Both(c1, c2) =>
      CondFits(c2, y, n);
      CondFits(c1, 0, |CondCode(c2, y, n)| + n);
      BothFits(c1, c2, y, n);
    case Either(c1, c2) =>
      CondFits(c2, y, n);
      CondFits(c1, |CondCode(c2, y, n)| + y, 0);
      EitherFits(c1, c2, y, n);
  }

  lemma BothFits(c1: Cond, c2: Cond, y: nat, n: nat)
    requires CondOk(c1) && CondOk(c2) && FitsTo(CondCode(c2, y, n), CondDepths(c2, y, n), y, n)
    requires var n' := |CondCode(c2, y, n)| + n; FitsTo(CondCode(c1, 0, n'), CondDepths(c1, 0, n'), 0, n')
    ensures FitsTo(CondCode(Both(c1, c2), y, n), CondDepths(Both(c1, c2), y, n), y, n)
  {
    var second, n' := CondCode(c2, y, n), |CondCode(c2, y, n)| + n;
    FitsBoth(CondCode(c1, 0, n'), CondDepths(c1, 0, n'), second, CondDepths(c2, y, n), y, n, 0, n');
  }

  lemma EitherFits(c1: Cond, c2: Cond, y: nat, n: nat)
    requires CondOk(c1) && CondOk(c2) && FitsTo(CondCode(c2, y, n), CondDepths(c2, y, n), y, n)
    requires var y' := |CondCode(c2, y, n)| + y; FitsTo(CondCode(c1, y', 0), CondDepths(c1, y', 0), y', 0)
    ensures FitsTo(CondCode(Either(c1, c2), y, n), CondDepths(Either(c1, c2), y, n), y, n)
  {
    var second, y' := CondCode(c2, y, n), |CondCode(c2, y, n)| + y;
    FitsBoth(CondCode(c1, y', 0), CondDepths(c1, y', 0), second, CondDepths(c2, y, n), y, n, y', 0);
  }

  /** Wherever the code stands, it is safe if nothing need be written behind it. */
  ghost predicate FitsEnd(c: seq<Insn>, dc: seq<nat>) {
    && |c| == |dc| && |c| >= 1 && dc[0] == 0
    && forall prog, depths, at: nat ::
         Noted(prog, depths, at, c, dc) && |prog| < TWO32 && (at + |c| < |prog| ==> depths[at + |c|] == 0) ==>
         SafePart(prog, depths, at, at + |c|)
  }

  lemma ReturnFits(kind: Kind, k: u32)
    requires kind.RetConst? || kind.RetAcc?
    ensures FitsEnd([Op(kind, k)], [0])
  {
    forall prog, depths, at: nat
      | Noted(prog, depths, at, [Op(kind, k)], [0]) && (at + 1 < |prog| ==> depths[at + 1] == 0)
      ensures SafePart(prog, depths, at, at + 1)
    {
      PlacedOne(prog, at, Op(kind, k));
      OtherLocal(prog, at, kind, k);
      assert InsnSafe(prog, depths, at);
    }
  }

  lemma FitsReturn(c: seq<Insn>, dc: seq<nat>, kind: Kind, k: u32)
    requires Fits(c, dc, 0) && |c| >= 1 && dc[0] == 0 && (kind.RetConst? || kind.RetAcc?)
    ensures FitsEnd(c + [Op(kind, k)], dc + [0])
  {
    ReturnFits(kind, k);
    var c', dc' := [Op(kind, k)], [0];
    forall prog, depths, at: nat
      | Noted(prog, depths, at, c + c', dc + dc') && |prog| < TWO32 && (at + |c + c'| < |prog| ==> depths[at + |c + c'|] == 0)
      ensures SafePart(prog, depths, at, at + |c + c'|)
    {
      NotedParts(prog, depths, at, c, dc, c', dc');
    }
  }

  lemma FitsIf(c: seq<Insn>, dc: seq<nat>, yes: seq<Insn>, dy: seq<nat>, no: seq<Insn>, dn: seq<nat>)
    requires FitsTo(c, dc, 0, |yes|) && FitsEnd(yes, dy) && FitsEnd(no, dn)
    ensures FitsEnd(c + yes + no, dc + dy + dn)
  {
    forall prog, depths, at: nat
      | Noted(prog, depths, at, c + yes + no, dc + dy + dn) && |prog| < TWO32
        && (at + |c + yes + no| < |prog| ==> depths[at + |c + yes + no|] == 0)
      ensures SafePart(prog, depths, at, at + |c + yes + no|)
    {
      NotedParts(prog, depths, at, c + yes, dc + dy, no, dn);
      NotedParts(prog, depths, at, c, dc, yes, dy);
      assert Leaves(prog, at + |c|, 0, |yes|);
    }
  }

  function RuleDepths(r: Rule): (ds: seq<nat>)
    requires RuleOk(r)
    ensures |ds| >= 1 && ds[0] == 0
  {
    match r
    case Accept(_) => [0]
    case Give(t) => Depths(t, 0) + [0]
    case If(c, yes, no) => CondDepths(c, 0, |RuleCode(yes)|) + RuleDepths(yes) + RuleDepths(no)
  }

  lemma {:induction false} RuleFits(r: Rule)
    requires RuleOk(r)
    ensures FitsEnd(RuleCode(r), RuleDepths(r))
    ensures ClassOf(RuleCode(r)[|RuleCode(r)| - 1].code) == BPF_RET
    decreases r
  {
    match r
    case Accept(n) => ReturnFits(RetConst, n);
    case Give(t) =>
      TermFits(t, [], 0);
      FitsReturn(Code(t, [], 0), Depths(t, 0), RetAcc, 0);
    case If(c, yes, no) =>
      RuleFits(yes);
      RuleFits(no);
      CondFits(c, 0, |RuleCode(yes)|);
      FitsIf(CondCode(c, 0, |RuleCode(yes)|), CondDepths(c, 0, |RuleCode(yes)|), RuleCode(yes), RuleDepths(yes), RuleCode(no),
             RuleDepths(no));
  }

  /** The checker accepts the program of a rule exactly when it is not too long. */
  lemma RuleAccepted(r: Rule)
    requires RuleOk(r)
    ensures Accepted(RuleCode(r)) <==> |RuleCode(r)| <= BPF_MAXINSNS
  {
    var prog, depths := RuleCode(r), RuleDepths(r);
    if |prog| <= BPF_MAXINSNS {
      RuleFits(r);
      assert prog[0..|prog|] == prog && depths[0..|prog|] == depths;
      assert Noted(prog, depths, 0, prog, depths);
      assert SafePart(prog, depths, 0, 0 + |prog|);
      forall i | 0 <= i < |prog|
        ensures InsnSafe(prog, depths, i)
      {
      }
      DepthsAccept(prog, depths);
    }
  }

  /** Installed as a filter, a rule gives its verdict on every packet, and on a chain
      the verdict on the flattened packet. */
  lemma RuleFilters(r: Rule, chain: Chain, wirelen: u32)
    requires RuleOk(r) && |RuleCode(r)| <= BPF_MAXINSNS
    requires NoEmpty(chain) && (|Flatten(chain)| < 4 || MiddleLong(chain))
    requires !Overflows(RuleCode(r), Flat(Flatten(chain)), wirelen, START)
    ensures Accepted(RuleCode(r))
    ensures Run(RuleCode(r), Chained(chain), wirelen, START) == Return(Verdict(r, Flatten(chain), wirelen))
  {
    RuleAccepted(r);
    RuleMeaning(r, Flatten(chain), wirelen);
    SameOnChain(RuleCode(r), chain, wirelen, START);
  }
}
