/** The filter machine: 32-bit registers A and X, sixteen scratch words, forward
    jumps. Its meaning is given step by step; anything a real run must not do
    (leave the program, use a scratch word that was never written, divide by zero,
    read outside the buffers) is a fault. */
module BpfMachine {
  import opened Bits
  import opened Mbufs
  import opened BpfPacket
  import opened Options

  const BPF_MEMWORDS: nat := 16

  const BPF_LD: nat := 0x00
  const BPF_LDX: nat := 0x01
  const BPF_ST: nat := 0x02
  const BPF_STX: nat := 0x03
  const BPF_ALU: nat := 0x04
  const BPF_JMP: nat := 0x05
  const BPF_RET: nat := 0x06
  const BPF_MISC: nat := 0x07

  const BPF_W: nat := 0x00
  const BPF_H: nat := 0x08
  const BPF_B: nat := 0x10

  const BPF_IMM: nat := 0x00
  const BPF_ABS: nat := 0x20
  const BPF_IND: nat := 0x40
  const BPF_MEM: nat := 0x60
  const BPF_LEN: nat := 0x80
  const BPF_MSH: nat := 0xa0

  const BPF_ADD: nat := 0x00
  const BPF_SUB: nat := 0x10
  const BPF_MUL: nat := 0x20
  const BPF_DIV: nat := 0x30
  const BPF_OR: nat := 0x40
  const BPF_AND: nat := 0x50
  const BPF_LSH: nat := 0x60
  const BPF_RSH: nat := 0x70
  const BPF_NEG: nat := 0x80

  const BPF_JA: nat := 0x00
  const BPF_JEQ: nat := 0x10
  const BPF_JGT: nat := 0x20
  const BPF_JGE: nat := 0x30
  const BPF_JSET: nat := 0x40

  const BPF_K: nat := 0x00
  const BPF_X: nat := 0x08
  const BPF_A: nat := 0x10
  const BPF_TAX: nat := 0x00
  const BPF_TXA: nat := 0x80

  /** An instruction: 16-bit code, two 8-bit jump offsets, 32-bit operand. */
  datatype Insn = Insn(code: nat, jt: u8, jf: u8, k: u32)

  type Program = seq<Insn>

  // ----- what the switch of the interpreter recognises

  datatype Size = Word | Half | Byte
  datatype Operand = Const | Index
  datatype AluOp = Add | Sub | Mul | Div | And | Or | Lsh | Rsh
  datatype Test = Gt | Ge | Eq | Set

  datatype Kind =
    | Illegal
    | RetConst | RetAcc
    | LoadAbs(size: Size) | LoadInd(size: Size) | LoadLen | IndexLen | IndexMsh
    | LoadImm | IndexImm | LoadMem | IndexMem | StoreAcc | StoreIndex
    | JumpAlways | JumpIf(test: Test, against: Operand)
    | Arith(op: AluOp, operand: Operand) | Negate
    | AccToIndex | IndexToAcc

  function LoadKind(code: nat): Kind {
    if code == BPF_LD + BPF_W + BPF_ABS then LoadAbs(Word)
    else if code == BPF_LD + BPF_H + BPF_ABS then LoadAbs(Half)
    else if code == BPF_LD + BPF_B + BPF_ABS then LoadAbs(Byte)
    else if code == BPF_LD + BPF_W + BPF_LEN then LoadLen
    else if code == BPF_LDX + BPF_W + BPF_LEN then IndexLen
    else if code == BPF_LD + BPF_W + BPF_IND then LoadInd(Word)
    else if code == BPF_LD + BPF_H + BPF_IND then LoadInd(Half)
    else if code == BPF_LD + BPF_B + BPF_IND then LoadInd(Byte)
    else if code == BPF_LDX + BPF_MSH + BPF_B then IndexMsh
    else if code == BPF_LD + BPF_IMM then LoadImm
    else if code == BPF_LDX + BPF_IMM then IndexImm
    else if code == BPF_LD + BPF_MEM then LoadMem
    else if code == BPF_LDX + BPF_MEM then IndexMem
    else Illegal
  }

  function JumpKind(code: nat): Kind {
    if code == BPF_JMP + BPF_JA then JumpAlways
    else if code == BPF_JMP + BPF_JGT + BPF_K then JumpIf(Gt, Const)
    else if code == BPF_JMP + BPF_JGE + BPF_K then JumpIf(Ge, Const)
    else if code == BPF_JMP + BPF_JEQ + BPF_K then JumpIf(Eq, Const)
    else if code == BPF_JMP + BPF_JSET + BPF_K then JumpIf(Set, Const)
    else if code == BPF_JMP + BPF_JGT + BPF_X then JumpIf(Gt, Index)
    else if code == BPF_JMP + BPF_JGE + BPF_X then JumpIf(Ge, Index)
    else if code == BPF_JMP + BPF_JEQ + BPF_X then JumpIf(Eq, Index)
    else if code == BPF_JMP + BPF_JSET + BPF_X then JumpIf(Set, Index)
    else Illegal
  }

  function ArithKind(code: nat): Kind {
    if code == BPF_ALU + BPF_ADD + BPF_X then Arith(Add, Index)
    else if code == BPF_ALU + BPF_SUB + BPF_X then Arith(Sub, Index)
    else if code == BPF_ALU + BPF_MUL + BPF_X then Arith(Mul, Index)
    else if code == BPF_ALU + BPF_DIV + BPF_X then Arith(Div, Index)
    else if code == BPF_ALU + BPF_AND + BPF_X then Arith(And, Index)
    else if code == BPF_ALU + BPF_OR + BPF_X then Arith(Or, Index)
    else if code == BPF_ALU + BPF_LSH + BPF_X then Arith(Lsh, Index)
    else if code == BPF_ALU + BPF_RSH + BPF_X then Arith(Rsh, Index)
    else if code == BPF_ALU + BPF_ADD + BPF_K then Arith(Add, Const)
    else if code == BPF_ALU + BPF_SUB + BPF_K then Arith(Sub, Const)
    else if code == BPF_ALU + BPF_MUL + BPF_K then Arith(Mul, Const)
    else if code == BPF_ALU + BPF_DIV + BPF_K then Arith(Div, Const)
    else if code == BPF_ALU + BPF_AND + BPF_K then Arith(And, Const)
    else if code == BPF_ALU + BPF_OR + BPF_K then Arith(Or, Const)
    else if code == BPF_ALU + BPF_LSH + BPF_K then Arith(Lsh, Const)
    else if code == BPF_ALU + BPF_RSH + BPF_K then Arith(Rsh, Const)
    else if code == BPF_ALU + BPF_NEG then Negate
    else Illegal
  }

  function OtherKind(code: nat): Kind {
    if code == BPF_RET + BPF_K then RetConst
    else if code == BPF_RET + BPF_A then RetAcc
    else if code == BPF_ST then StoreAcc
    else if code == BPF_STX then StoreIndex
    else if code == BPF_MISC + BPF_TAX then AccToIndex
    else if code == BPF_MISC + BPF_TXA then IndexToAcc
    else Illegal
  }

  /** Only these exact codes mean something; every other code ends the run. */
  function KindOf(code: nat): Kind {
    if !LoadKind(code).Illegal? then LoadKind(code)
    else if !JumpKind(code).Illegal? then JumpKind(code)
    else if !ArithKind(code).Illegal? then ArithKind(code)
    else OtherKind(code)
  }

  // ----- registers

  const TWO32: nat := 0x1_0000_0000

  /** Arithmetic on 32 bits; None where the operation is a division by zero. Shifts
      by the register width or more, which C leaves open, give zero. */
  function Compute(op: AluOp, a: u32, b: u32): Option<u32> {
    match op
    case Add => Some((a + b) % TWO32)
    case Sub => Some((a + TWO32 - b) % TWO32)
    case Mul => Some(a * b % TWO32)
    case Div => if b == 0 then None else Some(Quotient(a, b))
    case And => AndBound(a, b); Some(Bits.And(a, b))
    case Or => Pow2Values(); OrBound(a, b, 32); Some(Bits.Or(a, b))
    case Lsh => Some(if b < 32 then a * Pow2(b) % TWO32 else 0)
    case Rsh => Some(if b < 32 then Quotient(a, Pow2(b)) else 0)
  }

  function Quotient(a: u32, b: nat): u32
    requires b > 0
  {
    var q := a / b;
    assert q <= a by {
      if q > a {
        MulMono(a + 1, q, b);
        MulMono(1, b, a + 1);
      }
    }
    q
  }

  predicate Holds(test: Test, a: u32, b: u32) {
    match test
    case Gt => a > b
    case Ge => a >= b
    case Eq => a == b
    case Set => Bits.And(a, b) != 0
  }

  // ----- one step

  /** A packet: a buffer, or a chain of buffers. */
  datatype Packet = Flat(bytes: seq<u8>) | Chained(chain: Chain)

  ghost predicate PacketOk(p: Packet) {
    match p
    case Flat(bytes) => 0 < |bytes| < TWO32
    case Chained(chain) => |chain| >= 1
  }

  function Load(p: Packet, size: Size, k: nat): Fetch {
    match p
    case Flat(bytes) =>
      (match size case Word => FlatWord(bytes, k) case Half => FlatHalf(bytes, k) case Byte => FlatByte(bytes, k))
    case Chained(chain) =>
      (match size case Word => ChainWord(chain, k) case Half => ChainHalf(chain, k) case Byte => ChainByte(chain, k))
  }

  /** The offset an indexed load uses: on a buffer the sum is checked, on a chain it
      is taken modulo 2^32. */
  function IndexedOffset(p: Packet, x: u32, k: u32): nat {
    if p.Flat? then x + k else (x + k) % TWO32
  }

  /** The machine: a scratch word is None until it is written. */
  datatype Machine = Machine(pc: nat, a: u32, x: u32, mem: seq<Option<u32>>)

  datatype Result = Next(m: Machine) | Return(value: u32) | Fault

  const START := Machine(0, 0, 0, seq(16, i => None))

  ghost predicate MachineOk(m: Machine) {
    |m.mem| == BPF_MEMWORDS
  }

  function OperandOf(m: Machine, i: Insn, src: Operand): u32 {
    if src.Const? then i.k else m.x
  }

  function Step(i: Insn, p: Packet, wirelen: u32, m: Machine): Result {
    Execute(KindOf(i.code), i, p, wirelen, m)
  }

  function Execute(kind: Kind, i: Insn, p: Packet, wirelen: u32, m: Machine): Result {
    var next := m.(pc := m.pc + 1);
    match kind
    case Illegal => Return(0)
    case RetConst => Return(i.k)
    case RetAcc => Return(m.a)
    case LoadAbs(size) =>
      (match Load(p, size, i.k) case Value(v) => Next(next.(a := v)) case Outside => Return(0) case Wild => Fault)
    case LoadInd(size) =>
      (match Load(p, size, IndexedOffset(p, m.x, i.k))
       case Value(v) => Next(next.(a := v)) case Outside => Return(0) case Wild => Fault)
    case LoadLen => Next(next.(a := wirelen))
    case IndexLen => Next(next.(x := wirelen))
    case IndexMsh =>
      (match Load(p, Byte, i.k)
       case Value(v) => Next(next.(x := v % 16 * 4)) case Outside => Return(0) case Wild => Fault)
    case LoadImm => Next(next.(a := i.k))
    case IndexImm => Next(next.(x := i.k))
    case LoadMem =>
      if i.k >= |m.mem| || m.mem[i.k].None? then Fault else Next(next.(a := m.mem[i.k].value))
    case IndexMem =>
      if i.k >= |m.mem| || m.mem[i.k].None? then Fault else Next(next.(x := m.mem[i.k].value))
    case StoreAcc =>
      if i.k >= |m.mem| then Fault else Next(next.(mem := m.mem[i.k := Some(m.a)]))
    case StoreIndex =>
      if i.k >= |m.mem| then Fault else Next(next.(mem := m.mem[i.k := Some(m.x)]))
    case JumpAlways => Next(m.(pc := m.pc + 1 + i.k))
    case JumpIf(test, src) =>
      Next(m.(pc := m.pc + 1 + (if Holds(test, m.a, OperandOf(m, i, src)) then i.jt else i.jf)))
    case Arith(op, src) =>
      (match Compute(op, m.a, OperandOf(m, i, src))
       case Some(v) => Next(next.(a := v))
       case None => if src.Index? then Return(0) else Fault)
    case Negate => Next(next.(a := (TWO32 - m.a) % TWO32))
    case AccToIndex => Next(next.(x := m.a))
    case IndexToAcc => Next(next.(a := m.x))
  }

  // ----- runs

  /** The result of a run: a returned value or a fault. */
  function Run(prog: Program, p: Packet, wirelen: u32, m: Machine): (r: Result)
    ensures !r.Next?
    decreases |prog| - m.pc
  {
    if m.pc >= |prog| then Fault
    else
      match Step(prog[m.pc], p, wirelen, m)
      case Next(m') => StepForward(prog[m.pc], p, wirelen, m); Run(prog, p, wirelen, m')
      case Return(v) => Return(v)
      case Fault => Fault
  }

  lemma StepForward(i: Insn, p: Packet, wirelen: u32, m: Machine)
    ensures Step(i, p, wirelen, m).Next? ==> Step(i, p, wirelen, m).m.pc > m.pc
    ensures Step(i, p, wirelen, m).Next? ==> |Step(i, p, wirelen, m).m.mem| == |m.mem|
  {
    ExecuteForward(KindOf(i.code), i, p, wirelen, m);
  }

  lemma ExecuteForward(kind: Kind, i: Insn, p: Packet, wirelen: u32, m: Machine)
    ensures var r := Execute(kind, i, p, wirelen, m);
      r.Next? ==> r.m.pc > m.pc && |r.m.mem| == |m.mem|
  {
  }

  /** The run cut off after n steps. */
  function RunFor(prog: Program, p: Packet, wirelen: u32, m: Machine, n: nat): Result
    decreases n
  {
    if m.pc >= |prog| then Fault
    else if n == 0 then Next(m)
    else
      match Step(prog[m.pc], p, wirelen, m)
      case Next(m') => RunFor(prog, p, wirelen, m', n - 1)
      case Return(v) => Return(v)
      case Fault => Fault
  }

  /** No run, of any program, takes more steps than the program has instructions. */
  lemma {:induction false} Halts(prog: Program, p: Packet, wirelen: u32, m: Machine, n: nat)
    requires n + m.pc >= |prog|
    ensures RunFor(prog, p, wirelen, m, n) == Run(prog, p, wirelen, m)
    decreases n
  {
    if m.pc < |prog| {
      StepForward(prog[m.pc], p, wirelen, m);
      match Step(prog[m.pc], p, wirelen, m)
      case Next(m') => Halts(prog, p, wirelen, m', n - 1);
      case Return(_) =>
      case Fault =>
    }
  }
}
