/** Filters as they are meant: conditions on the bytes of a packet, joined by not, and,
    or, and a verdict for either outcome. Each becomes a program that the checker
    accepts if it is short enough, and that gives the verdict. */
module BpfRules {
  import opened Marks
  import opened Bits
  import opened BpfPacket
  import opened BpfMachine
  import opened BpfOps
  import opened BpfTerms
  import opened Options

  datatype Cond =
    | Compare(test: Test, l: Term, r: Term)
    | Not(c: Cond)
    | Both(c: Cond, c': Cond)
    | Either(c: Cond, c': Cond)

  /** Whether a condition holds of a packet; none if that takes a term without a value.
      The second of two conditions is not looked at when the first decides. */
  ghost function Judge(c: Cond, bytes: seq<u8>, wirelen: u32): Option<bool> {
    match c
    case Compare(test, l, r) =>
      var x, y := Eval(l, [], bytes, wirelen), Eval(r, [], bytes, wirelen);
      if x.None? || y.None? then None else Some(Truth(test, x.value, y.value))
    case Not(c1) =>
      var b := Judge(c1, bytes, wirelen);
      if b.None? then None else Some(!b.value)
    case Both(c1, c2) =>
      var b := Judge(c1, bytes, wirelen);
      if b == Some(true) then Judge(c2, bytes, wirelen) else b
    case Either(c1, c2) =>
      var b := Judge(c1, bytes, wirelen);
      if b == Some(false) then Judge(c2, bytes, wirelen) else b
  }

  predicate CondOk(c: Cond) {
    match c
    case Compare(_, l, r) => if r.Lit? then TermOk(l, 0, 0) else PairOk(l, r, 0, 0)
    case Not(c1) => CondOk(c1)
    case Both(c1, c2) => CondOk(c1) && CondOk(c2)
    case Either(c1, c2) => CondOk(c1) && CondOk(c2)
  }

  // ----- branches

  /** An offset as an operand; no program is so long that it does not fit. */
  function Distance(n: nat): u32 {
    if n < TWO32 then n else 0
  }

  function TestOp(test: Test, src: Operand, k: u32, jt: u8, jf: u8): Insn {
    Insn(CodeOf(JumpIf(test, src)), jt, jf, k)
  }

  /** A test that leads to one of two jumps. */
  function FarCode(i: Insn, y: nat, n: nat): seq<Insn> {
    [i, Op(JumpAlways, Distance(y + 1)), Op(JumpAlways, Distance(n))]
  }

  /** Go y instructions past the end of this if the test holds, n if not. Offsets that
      do not fit a byte take two jumps. */
  function Branch(test: Test, src: Operand, k: u32, y: nat, n: nat): seq<Insn> {
    if y < 256 && n < 256 then [TestOp(test, src, k, y, n)] else FarCode(TestOp(test, src, k, 0, 1), y, n)
  }

  lemma JumpStep(prog: Program, bytes: seq<u8>, wirelen: u32, m: Machine, k: u32)
    requires m.pc < |prog| && prog[m.pc] == Op(JumpAlways, k)
    ensures Leads(prog, bytes, wirelen, m, m.(pc := m.pc + 1 + k))
  {
    OneStep(prog, bytes, wirelen, m, JumpAlways, k);
  }

  /** The answer b to a test of the accumulator. */
  ghost predicate Tells(test: Test, m: Machine, src: Operand, k: u32, b: bool) {
    forall n {:trigger Inside(n)} :: Inside(n) ==> b == Truth(test, m.a, if src.Const? then k else m.x)
  }

  lemma TestStep(prog: Program, bytes: seq<u8>, wirelen: u32, m: Machine, test: Test, src: Operand, k: u32, jt: u8, jf: u8, b: bool)
    requires m.pc < |prog| && prog[m.pc] == TestOp(test, src, k, jt, jf)
    requires Tells(test, m, src, k, b)
    ensures Leads(prog, bytes, wirelen, m, m.(pc := m.pc + 1 + if b then jt else jf))
  {
    assert Inside(0);
    KindRoundTrip(JumpIf(test, src));
    StepForward(prog[m.pc], Flat(bytes), wirelen, m);
    HoldsTruth(test, m.a, if src.Const? then k else m.x);
  }

  /** From one of two jumps on. */
  lemma FarStep(prog: Program, bytes: seq<u8>, wirelen: u32, m: Machine, y: u32, n: u32, b: bool)
    requires Leads(prog, bytes, wirelen, m, m.(pc := m.pc + 1 + if b then 0 else 1))
    requires m.pc + 2 < |prog| && prog[m.pc + 1] == Op(JumpAlways, y) && prog[m.pc + 2] == Op(JumpAlways, n)
    ensures Leads(prog, bytes, wirelen, m, m.(pc := if b then m.pc + 2 + y else m.pc + 3 + n))
  {
    var m1 := m.(pc := m.pc + 1 + if b then 0 else 1);
    JumpStep(prog, bytes, wirelen, m1, if b then y else n);
    LeadsVia(prog, bytes, wirelen, m, m1, m.(pc := if b then m.pc + 2 + y else m.pc + 3 + n));
  }

  lemma PlacedThree(prog: Program, at: nat, i: Insn, j: Insn, j': Insn)
    requires Placed(prog, at, [i, j, j'])
    ensures at + 2 < |prog| && prog[at] == i && prog[at + 1] == j && prog[at + 2] == j'
  {
    assert prog[at..at + 3][0] == i && prog[at..at + 3][1] == j && prog[at..at + 3][2] == j';
  }

  lemma FarRuns(prog: Program, bytes: seq<u8>, wirelen: u32, m: Machine, test: Test, src: Operand, k: u32, y: nat, n: nat, b: bool)
    requires Placed(prog, m.pc, FarCode(TestOp(test, src, k, 0, 1), y, n)) && y + 1 < TWO32 && n < TWO32
    requires Tells(test, m, src, k, b)
    ensures Leads(prog, bytes, wirelen, m, m.(pc := m.pc + 3 + if b then y else n))
  {
    PlacedThree(prog, m.pc, TestOp(test, src, k, 0, 1), Op(JumpAlways, y + 1), Op(JumpAlways, n));
    TestStep(prog, bytes, wirelen, m, test, src, k, 0, 1, b);
    FarStep(prog, bytes, wirelen, m, y + 1, n, b);
  }

  /** Whatever else the machine holds, the run goes on y or n past the end. */
  lemma BranchRuns(prog: Program, bytes: seq<u8>, wirelen: u32, m: Machine, test: Test, src: Operand, k: u32, y: nat, n: nat, b: bool)
    requires Placed(prog, m.pc, Branch(test, src, k, y, n)) && y + 1 < TWO32 && n < TWO32
    requires Tells(test, m, src, k, b)
    ensures Leads(prog, bytes, wirelen, m, m.(pc := m.pc + |Branch(test, src, k, y, n)| + if b then y else n))
  {
    if y < 256 && n < 256 {
      PlacedOne(prog, m.pc, TestOp(test, src, k, y, n));
      TestStep(prog, bytes, wirelen, m, test, src, k, y, n, b);
    } else {
      FarRuns(prog, bytes, wirelen, m, test, src, k, y, n, b);
    }
  }

  // ----- conditions

  /** Instructions from which the run goes on y past their end if the condition holds,
      n if not. */
  function CondCode(c: Cond, y: nat, n: nat): seq<Insn>
    requires CondOk(c)
  {
    match c
    case Compare(test, l, r) =>
      if r.Lit? then Code(l, [], 0) + Branch(test, Const, r.k, y, n)
      else Operands(l, r, [], 0) + Branch(test, Index, 0, y, n)
    case Not(c1) => CondCode(c1, n, y)
    case Both(c1, c2) =>
      var second := CondCode(c2, y, n);
      CondCode(c1, 0, |second| + n) + second
    case Either(c1, c2) =>
      var second := CondCode(c2, y, n);
      CondCode(c1, |second| + y, 0) + second
  }

  ghost predicate Turned(prog: Program, bytes: seq<u8>, wirelen: u32, m: Machine, to: nat, m': Machine) {
    MachineOk(m') && m'.pc == to && Leads(prog, bytes, wirelen, m, m')
  }

  /** From m the run goes on at instruction yes or no as b says; without an answer it
      returns zero. */
  ghost predicate Turns(prog: Program, bytes: seq<u8>, wirelen: u32, m: Machine, yes: nat, no: nat, b: Option<bool>) {
    if b.None? then Returns(prog, bytes, wirelen, m, 0)
    else if b.value then exists m' :: Turned(prog, bytes, wirelen, m, yes, m')
    else exists m' :: Turned(prog, bytes, wirelen, m, no, m')
  }

  lemma TurnsThen(prog: Program, bytes: seq<u8>, wirelen: u32, m: Machine, m1: Machine, yes: nat, no: nat, b: Option<bool>)
    requires Leads(prog, bytes, wirelen, m, m1) && Turns(prog, bytes, wirelen, m1, yes, no, b)
    ensures Turns(prog, bytes, wirelen, m, yes, no, b)
  {
    if b.None? {
      ReturnsVia(prog, bytes, wirelen, m, m1, 0);
    } else {
      var to := if b.value then yes else no;
      var m' :| Turned(prog, bytes, wirelen, m1, to, m');
      LeadsVia(prog, bytes, wirelen, m, m1, m');
      assert Turned(prog, bytes, wirelen, m, to, m');
    }
  }

  /** A branch that is reached with the registers set turns as the test says. */
  lemma BranchTurns(prog: Program, bytes: seq<u8>, wirelen: u32, m: Machine, m1: Machine, test: Test, src: Operand, k: u32,
                    y: nat, n: nat, b: bool)
    requires Leads(prog, bytes, wirelen, m, m1) && MachineOk(m1)
    requires Placed(prog, m1.pc, Branch(test, src, k, y, n)) && y + 1 < TWO32 && n < TWO32
    requires Tells(test, m1, src, k, b)
    ensures var end := m1.pc + |Branch(test, src, k, y, n)|;
      Turns(prog, bytes, wirelen, m, end + y, end + n, Some(b))
  {
    var end := m1.pc + |Branch(test, src, k, y, n)|;
    BranchRuns(prog, bytes, wirelen, m1, test, src, k, y, n, b);
    var m2 := m1.(pc := end + if b then y else n);
    LeadsVia(prog, bytes, wirelen, m, m1, m2);
    assert Turned(prog, bytes, wirelen, m, if b then end + y else end + n, m2);
  }

  /** A program in which the targets of a condition's code that ends at end exist. */
  ghost predicate Leaves(prog: Program, end: nat, y: nat, n: nat) {
    |prog| < TWO32 && end + y < |prog| && end + n < |prog|
  }

  /** Wherever the code stands, it turns one way or the other as b says. */
  ghost predicate Decides(c: seq<Insn>, y: nat, n: nat, bytes: seq<u8>, wirelen: u32, b: Option<bool>) {
    forall prog, m: Machine :: Placed(prog, m.pc, c) && MachineOk(m) && Leaves(prog, m.pc + |c|, y, n) ==>
      Turns(prog, bytes, wirelen, m, m.pc + |c| + y, m.pc + |c| + n, b)
  }

  ghost function Answer(test: Test, x: Option<u32>, y: Option<u32>): Option<bool> {
    if x.None? || y.None? then None else Some(Truth(test, x.value, y.value))
  }

  lemma ConstTurns(prog: Program, bytes: seq<u8>, wirelen: u32, m: Machine, end: nat, test: Test, k: u32, y: nat, n: nat,
                   x: Option<u32>)
    requires MachineOk(m) && Yields(prog, bytes, wirelen, m, end, 0, x)
    requires Placed(prog, end, Branch(test, Const, k, y, n)) && y + 1 < TWO32 && n < TWO32
    ensures var end' := end + |Branch(test, Const, k, y, n)|;
      Turns(prog, bytes, wirelen, m, end' + y, end' + n, Answer(test, x, Some(k)))
  {
    if x.Some? {
      var m1 :| Went(prog, bytes, wirelen, m, end, 0, x.value, m1);
      BranchTurns(prog, bytes, wirelen, m, m1, test, Const, k, y, n, Truth(test, x.value, k));
    }
  }

  lemma ConstDecides(c: seq<Insn>, test: Test, k: u32, y: nat, n: nat, bytes: seq<u8>, wirelen: u32, x: Option<u32>)
    requires Computes(c, [], 0, [], bytes, wirelen, x)
    ensures Decides(c + Branch(test, Const, k, y, n), y, n, bytes, wirelen, Answer(test, x, Some(k)))
  {
    var branch, b := Branch(test, Const, k, y, n), Answer(test, x, Some(k));
    forall prog, m: Machine | Placed(prog, m.pc, c + branch) && MachineOk(m) && Leaves(prog, m.pc + |c + branch|, y, n)
      ensures Turns(prog, bytes, wirelen, m, m.pc + |c + branch| + y, m.pc + |c + branch| + n, b)
    {
      PlacedParts(prog, m.pc, c, branch);
      assert HoldsVars(m, [], []);
      ConstTurns(prog, bytes, wirelen, m, m.pc + |c|, test, k, y, n, x);
    }
  }

  lemma IndexTurns(prog: Program, bytes: seq<u8>, wirelen: u32, m: Machine, end: nat, test: Test, y: nat, n: nat,
                   x: Option<u32>, x': Option<u32>)
    requires MachineOk(m) && Sets(prog, bytes, wirelen, m, end, 0, x, x')
    requires Placed(prog, end, Branch(test, Index, 0, y, n)) && y + 1 < TWO32 && n < TWO32
    ensures var end' := end + |Branch(test, Index, 0, y, n)|;
      Turns(prog, bytes, wirelen, m, end' + y, end' + n, Answer(test, x, x'))
  {
    if x.Some? && x'.Some? {
      var m1 :| BothSet(prog, bytes, wirelen, m, end, 0, x.value, x'.value, m1);
      BranchTurns(prog, bytes, wirelen, m, m1, test, Index, 0, y, n, Truth(test, x.value, x'.value));
    }
  }

  lemma IndexDecides(c: seq<Insn>, test: Test, y: nat, n: nat, bytes: seq<u8>, wirelen: u32, x: Option<u32>, x': Option<u32>)
    requires Prepares(c, [], 0, [], bytes, wirelen, x, x')
    ensures Decides(c + Branch(test, Index, 0, y, n), y, n, bytes, wirelen, Answer(test, x, x'))
  {
    var branch, b := Branch(test, Index, 0, y, n), Answer(test, x, x');
    forall prog, m: Machine | Placed(prog, m.pc, c + branch) && MachineOk(m) && Leaves(prog, m.pc + |c + branch|, y, n)
      ensures Turns(prog, bytes, wirelen, m, m.pc + |c + branch| + y, m.pc + |c + branch| + n, b)
    {
      PlacedParts(prog, m.pc, c, branch);
      assert HoldsVars(m, [], []);
      IndexTurns(prog, bytes, wirelen, m, m.pc + |c|, test, y, n, x, x');
    }
  }

  lemma NotDecides(c: seq<Insn>, y: nat, n: nat, bytes: seq<u8>, wirelen: u32, b: Option<bool>)
    requires Decides(c, n, y, bytes, wirelen, b)
    ensures Decides(c, y, n, bytes, wirelen, if b.None? then None else Some(!b.value))
  {
    forall prog, m: Machine | Placed(prog, m.pc, c) && MachineOk(m) && Leaves(prog, m.pc + |c|, y, n)
      ensures Turns(prog, bytes, wirelen, m, m.pc + |c| + y, m.pc + |c| + n, if b.None? then None else Some(!b.value))
    {
      assert Turns(prog, bytes, wirelen, m, m.pc + |c| + n, m.pc + |c| + y, b);
    }
  }

  /** The second code is reached when the first turns the way called more. */
  lemma TwoDecide(c: seq<Insn>, c': seq<Insn>, y: nat, n: nat, more: bool, bytes: seq<u8>, wirelen: u32, b: Option<bool>,
                  b': Option<bool>)
    requires Decides(c, if more then 0 else |c'| + y, if more then |c'| + n else 0, bytes, wirelen, b)
    requires Decides(c', y, n, bytes, wirelen, b')
    ensures Decides(c + c', y, n, bytes, wirelen, if b == Some(more) then b' else b)
  {
    forall prog, m: Machine | Placed(prog, m.pc, c + c') && MachineOk(m) && Leaves(prog, m.pc + |c + c'|, y, n)
      ensures Turns(prog, bytes, wirelen, m, m.pc + |c + c'| + y, m.pc + |c + c'| + n, if b == Some(more) then b' else b)
    {
      PlacedParts(prog, m.pc, c, c');
      var end := m.pc + |c|;
      assert Turns(prog, bytes, wirelen, m, end + (if more then 0 else |c'| + y), end + (if more then |c'| + n else 0), b);
      if b == Some(more) {
        var m1 :| Turned(prog, bytes, wirelen, m, end, m1);
        TurnsThen(prog, bytes, wirelen, m, m1, end + |c'| + y, end + |c'| + n, b');
      }
    }
  }

  /** Every condition, wherever its code stands: the run goes on at one target or the
      other as the packet's bytes decide, or returns zero. */
  lemma {:induction false} CondRuns(c: Cond, y: nat, n: nat, bytes: seq<u8>, wirelen: u32)
    requires CondOk(c)
    ensures Decides(CondCode(c, y, n), y, n, bytes, wirelen, Judge(c, bytes, wirelen))
    decreases c
  {
    match c
    case Compare(test, l, r) =>
      if r.Lit? {
        TermRuns(l, [], 0, [], bytes, wirelen);
        ConstDecides(Code(l, [], 0), test, r.k, y, n, bytes, wirelen, Eval(l, [], bytes, wirelen));
      } else {
        OperandsRun(l, r, [], 0, [], bytes, wirelen);
        IndexDecides(Operands(l, r, [], 0), test, y, n, bytes, wirelen, Eval(l, [], bytes, wirelen), Eval(r, [], bytes, wirelen));
      }
    case Not(c1) =>
      CondRuns(c1, n, y, bytes, wirelen);
      NotDecides(CondCode(c1, n, y), y, n, bytes, wirelen, Judge(c1, bytes, wirelen));
    case Both(c1, c2) =>
      var second := CondCode(c2, y, n);
      CondRuns(c1, 0, |second| + n, bytes, wirelen);
      CondRuns(c2, y, n, bytes, wirelen);
      TwoDecide(CondCode(c1, 0, |second| + n), second, y, n, true, bytes, wirelen, Judge(c1, bytes, wirelen),
                Judge(c2, bytes, wirelen));
    case Either(c1, c2) =>
      var second := CondCode(c2, y, n);
      CondRuns(c1, |second| + y, 0, bytes, wirelen);
      CondRuns(c2, y, n, bytes, wirelen);
      TwoDecide(CondCode(c1, |second| + y, 0), second, y, n, false, bytes, wirelen, Judge(c1, bytes, wirelen),
                Judge(c2, bytes, wirelen));
  }

  // ----- rules

  /** A filter: a verdict, a computed verdict, or a choice. */
  datatype Rule = Accept(n: u32) | Give(t: Term) | If(c: Cond, yes: Rule, no: Rule)

  predicate RuleOk(r: Rule) {
    match r
    case Accept(_) => true
    case Give(t) => TermOk(t, 0, 0)
    case If(c, yes, no) => CondOk(c) && RuleOk(yes) && RuleOk(no)
  }

  /** How many bytes of the packet a rule accepts; none if the way to a verdict takes a
      term without a value. */
  ghost function Verdict(r: Rule, bytes: seq<u8>, wirelen: u32): u32 {
    match r
    case Accept(n) => n
    case Give(t) =>
      var v := Eval(t, [], bytes, wirelen);
      if v.None? then 0 else v.value
    case If(c, yes, no) =>
      var b := Judge(c, bytes, wirelen);
      if b.None? then 0 else if b.value then Verdict(yes, bytes, wirelen) else Verdict(no, bytes, wirelen)
  }

  function RuleCode(r: Rule): (c: seq<Insn>)
    requires RuleOk(r)
    ensures |c| >= 1
  {
    match r
    case Accept(n) => [Op(RetConst, n)]
    case Give(t) => Code(t, [], 0) + [Op(RetAcc, 0)]
    case If(c, yes, no) => CondCode(c, 0, |RuleCode(yes)|) + RuleCode(yes) + RuleCode(no)
  }

  /** Wherever the code stands, the run from it returns v. */
  ghost predicate Concludes(c: seq<Insn>, bytes: seq<u8>, wirelen: u32, v: u32) {
    forall prog, m: Machine {:trigger Placed(prog, m.pc, c), MachineOk(m)} :: Placed(prog, m.pc, c) && MachineOk(m) && |prog| < TWO32 ==> Returns(prog, bytes, wirelen, m, v)
  }

  lemma AcceptConcludes(n: u32, bytes: seq<u8>, wirelen: u32)
    ensures Concludes([Op(RetConst, n)], bytes, wirelen, n)
  {
    forall prog, m: Machine | Placed(prog, m.pc, [Op(RetConst, n)])
      ensures Returns(prog, bytes, wirelen, m, n)
    {
      PlacedOne(prog, m.pc, Op(RetConst, n));
      OneStep(prog, bytes, wirelen, m, RetConst, n);
    }
  }

  lemma ReturnStep(prog: Program, bytes: seq<u8>, wirelen: u32, m: Machine)
    requires m.pc < |prog| && prog[m.pc] == Op(RetAcc, 0)
    ensures Returns(prog, bytes, wirelen, m, m.a)
  {
    OneStep(prog, bytes, wirelen, m, RetAcc, 0);
  }

  lemma GiveReturns(prog: Program, bytes: seq<u8>, wirelen: u32, m: Machine, end: nat, v: Option<u32>)
    requires Yields(prog, bytes, wirelen, m, end, 0, v) && end < |prog| && prog[end] == Op(RetAcc, 0)
    ensures Returns(prog, bytes, wirelen, m, if v.None? then 0 else v.value)
  {
    if v.Some? {
      var m1 :| Went(prog, bytes, wirelen, m, end, 0, v.value, m1);
      ReturnStep(prog, bytes, wirelen, m1);
      ReturnsVia(prog, bytes, wirelen, m, m1, v.value);
    }
  }

  lemma GiveConcludes(c: seq<Insn>, bytes: seq<u8>, wirelen: u32, v: Option<u32>)
    requires Computes(c, [], 0, [], bytes, wirelen, v)
    ensures Concludes(c + [Op(RetAcc, 0)], bytes, wirelen, if v.None? then 0 else v.value)
  {
    forall prog, m: Machine | Placed(prog, m.pc, c + [Op(RetAcc, 0)]) && MachineOk(m)
      ensures Returns(prog, bytes, wirelen, m, if v.None? then 0 else v.value)
    {
      PlacedParts(prog, m.pc, c, [Op(RetAcc, 0)]);
      PlacedOne(prog, m.pc + |c|, Op(RetAcc, 0));
      assert HoldsVars(m, [], []);
      GiveReturns(prog, bytes, wirelen, m, m.pc + |c|, v);
    }
  }

  lemma IfConcludes(c: seq<Insn>, yes: seq<Insn>, no: seq<Insn>, bytes: seq<u8>, wirelen: u32, b: Option<bool>, v: u32, w: u32)
    requires |yes| >= 1 && |no| >= 1 && Decides(c, 0, |yes|, bytes, wirelen, b)
    requires Concludes(yes, bytes, wirelen, v) && Concludes(no, bytes, wirelen, w)
    ensures Concludes(c + yes + no, bytes, wirelen, if b.None? then 0 else if b.value then v else w)
  {
    forall prog, m: Machine | Placed(prog, m.pc, c + yes + no) && MachineOk(m) && |prog| < TWO32
      ensures Returns(prog, bytes, wirelen, m, if b.None? then 0 else if b.value then v else w)
    {
      ThreeParts(prog, m.pc, c, yes, no);
      IfTurns(prog, bytes, wirelen, m, c, |yes|, b);
      if b.Some? {
        Arrives(prog, bytes, wirelen, m, m.pc + |c|, m.pc + |c| + |yes|, b.value, if b.value then yes else no,
                if b.value then v else w);
      }
    }
  }

  lemma IfTurns(prog: Program, bytes: seq<u8>, wirelen: u32, m: Machine, c: seq<Insn>, n: nat, b: Option<bool>)
    requires Placed(prog, m.pc, c) && MachineOk(m) && |prog| < TWO32 && m.pc + |c| + n < |prog|
    requires Decides(c, 0, n, bytes, wirelen, b)
    ensures Turns(prog, bytes, wirelen, m, m.pc + |c|, m.pc + |c| + n, b)
  {
    assert Leaves(prog, m.pc + |c|, 0, n);
    assert Turns(prog, bytes, wirelen, m, m.pc + |c| + 0, m.pc + |c| + n, b);
  }

  lemma ThreeParts(prog: Program, at: nat, c: seq<Insn>, c': seq<Insn>, c'': seq<Insn>)
    requires Placed(prog, at, c + c' + c'')
    ensures Placed(prog, at, c) && Placed(prog, at + |c|, c') && Placed(prog, at + |c| + |c'|, c'')
  {
    PlacedParts(prog, at, c + c', c'');
    PlacedParts(prog, at, c, c');
  }

  lemma Arrives(prog: Program, bytes: seq<u8>, wirelen: u32, m: Machine, yes: nat, no: nat, b: bool, c: seq<Insn>, v: u32)
    requires Turns(prog, bytes, wirelen, m, yes, no, Some(b))
    requires Placed(prog, if b then yes else no, c) && |prog| < TWO32 && Concludes(c, bytes, wirelen, v)
    ensures Returns(prog, bytes, wirelen, m, v)
  {
    var m1 :| Turned(prog, bytes, wirelen, m, if b then yes else no, m1);
    ReturnsVia(prog, bytes, wirelen, m, m1, v);
  }

  lemma {:induction false} RuleRuns(r: Rule, bytes: seq<u8>, wirelen: u32)
    requires RuleOk(r)
    ensures Concludes(RuleCode(r), bytes, wirelen, Verdict(r, bytes, wirelen))
    decreases r
  {
    match r
    case Accept(n) => AcceptConcludes(n, bytes, wirelen);
    case Give(t) =>
      TermRuns(t, [], 0, [], bytes, wirelen);
      GiveConcludes(Code(t, [], 0), bytes, wirelen, Eval(t, [], bytes, wirelen));
    case If(c, yes, no) =>
      CondRuns(c, 0, |RuleCode(yes)|, bytes, wirelen);
      RuleRuns(yes, bytes, wirelen);
      RuleRuns(no, bytes, wirelen);
      IfConcludes(CondCode(c, 0, |RuleCode(yes)|), RuleCode(yes), RuleCode(no), bytes, wirelen, Judge(c, bytes, wirelen),
                  Verdict(yes, bytes, wirelen), Verdict(no, bytes, wirelen));
  }

  /** The program of a rule, run from the start, gives its verdict. */
  lemma RuleMeaning(r: Rule, bytes: seq<u8>, wirelen: u32)
    requires RuleOk(r) && |RuleCode(r)| < TWO32
    ensures Run(RuleCode(r), Flat(bytes), wirelen, START) == Return(Verdict(r, bytes, wirelen))
  {
    RuleRuns(r, bytes, wirelen);
    var prog := RuleCode(r);
    assert prog[0..|prog|] == prog;
    assert MachineOk(START) && Placed(prog, START.pc, prog);
    assert Returns(prog, bytes, wirelen, START, Verdict(r, bytes, wirelen));
    assert Inside(0);
  }

  /** A filter for a condition returns n exactly when the condition holds of the packet:
      it returns zero when it does not hold, and when deciding it takes a load outside
      the packet or a division by zero. */
  lemma ConditionMeaning(c: Cond, n: u32, bytes: seq<u8>, wirelen: u32)
    requires RuleOk(If(c, Accept(n), Accept(0))) && n > 0 && |RuleCode(If(c, Accept(n), Accept(0)))| < TWO32
    ensures var v := Run(RuleCode(If(c, Accept(n), Accept(0))), Flat(bytes), wirelen, START);
      && (v == Return(n) <==> Judge(c, bytes, wirelen) == Some(true))
      && (v == Return(0) <==> Judge(c, bytes, wirelen) != Some(true))
  {
    var r := If(c, Accept(n), Accept(0));
    RuleMeaning(r, bytes, wirelen);
    assert Verdict(Accept(n), bytes, wirelen) == n && Verdict(Accept(0), bytes, wirelen) == 0;
  }
}
