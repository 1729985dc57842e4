/** What the instructions mean by themselves: the code of each kind of instruction, and
    arithmetic and tests in terms of numbers and bits. */
module BpfOps {
  import opened Bits
  import opened BpfPacket
  import opened BpfMachine
  import opened Options

  // ----- instruction codes

  function SizeCode(size: Size): nat {
    match size case Word => BPF_W case Half => BPF_H case Byte => BPF_B
  }

  function OpCode(op: AluOp): nat {
    match op
    case Add => BPF_ADD case Sub => BPF_SUB case Mul => BPF_MUL case Div => BPF_DIV
    case And => BPF_AND case Or => BPF_OR case Lsh => BPF_LSH case Rsh => BPF_RSH
  }

  function TestCode(test: Test): nat {
    match test case Gt => BPF_JGT case Ge => BPF_JGE case Eq => BPF_JEQ case Set => BPF_JSET
  }

  function SourceCode(src: Operand): nat {
    if src.Const? then BPF_K else BPF_X
  }

  /** The code that stands for a kind of instruction. */
  function CodeOf(kind: Kind): nat
    requires !kind.Illegal?
  {
    match kind
    case RetConst => BPF_RET + BPF_K
    case RetAcc => BPF_RET + BPF_A
    case LoadAbs(size) => BPF_LD + SizeCode(size) + BPF_ABS
    case LoadInd(size) => BPF_LD + SizeCode(size) + BPF_IND
    case LoadLen => BPF_LD + BPF_W + BPF_LEN
    case IndexLen => BPF_LDX + BPF_W + BPF_LEN
    case IndexMsh => BPF_LDX + BPF_MSH + BPF_B
    case LoadImm => BPF_LD + BPF_IMM
    case IndexImm => BPF_LDX + BPF_IMM
    case LoadMem => BPF_LD + BPF_MEM
    case IndexMem => BPF_LDX + BPF_MEM
    case StoreAcc => BPF_ST
    case StoreIndex => BPF_STX
    case JumpAlways => BPF_JMP + BPF_JA
    case JumpIf(test, src) => BPF_JMP + TestCode(test) + SourceCode(src)
    case Arith(op, src) => BPF_ALU + OpCode(op) + SourceCode(src)
    case Negate => BPF_ALU + BPF_NEG
    case AccToIndex => BPF_MISC + BPF_TAX
    case IndexToAcc => BPF_MISC + BPF_TXA
  }

  /** Every kind of instruction is recognised by its code, and by no other. */
  lemma KindRoundTrip(kind: Kind)
    requires !kind.Illegal?
    ensures KindOf(CodeOf(kind)) == kind
  {
    if kind.JumpAlways? || kind.JumpIf? {
      JumpRoundTrip(kind);
    } else if kind.Arith? || kind.Negate? {
      ArithRoundTrip(kind);
    } else {
      OtherRoundTrip(kind);
    }
  }

  lemma JumpRoundTrip(kind: Kind)
    requires kind.JumpAlways? || kind.JumpIf?
    ensures KindOf(CodeOf(kind)) == kind
  {
    var code := CodeOf(kind);
    assert code % 8 == BPF_JMP;
    assert LoadKind(code).Illegal?;
    assert JumpKind(code) == kind;
  }

  lemma ArithRoundTrip(kind: Kind)
    requires kind.Arith? || kind.Negate?
    ensures KindOf(CodeOf(kind)) == kind
  {
    var code := CodeOf(kind);
    assert code % 8 == BPF_ALU;
    assert LoadKind(code).Illegal? && JumpKind(code).Illegal?;
    assert ArithKind(code) == kind by {
      ArithCode(kind);
    }
  }

  lemma ArithCode(kind: Kind)
    requires kind.Arith? || kind.Negate?
    ensures ArithKind(CodeOf(kind)) == kind
  {
    if kind.Arith? {
      match kind.op
      case Add => case Sub => case Mul => case Div => case And => case Or => case Lsh => case Rsh =>
    }
  }

  lemma OtherRoundTrip(kind: Kind)
    requires !kind.Illegal? && !kind.JumpAlways? && !kind.JumpIf? && !kind.Arith? && !kind.Negate?
    ensures KindOf(CodeOf(kind)) == kind
  {
    match kind
    case LoadAbs(size) =>
    case LoadInd(size) =>
    case _ =>
  }

  lemma CodeRoundTrip(code: nat)
    requires !KindOf(code).Illegal?
    ensures CodeOf(KindOf(code)) == code
  {
    if !LoadKind(code).Illegal? {
      LoadCode(code);
    } else if !JumpKind(code).Illegal? {
      JumpCode(code);
    } else if !ArithKind(code).Illegal? {
      AluCode(code);
    }
  }

  lemma LoadCode(code: nat)
    requires !LoadKind(code).Illegal?
    ensures CodeOf(LoadKind(code)) == code
  {
  }

  lemma JumpCode(code: nat)
    requires !JumpKind(code).Illegal?
    ensures CodeOf(JumpKind(code)) == code
  {
  }

  lemma AluCode(code: nat)
    requires !ArithKind(code).Illegal?
    ensures CodeOf(ArithKind(code)) == code
  {
  }

  /** A code that stands for nothing ends the run: nothing of the packet is accepted. */
  lemma UnknownCode(prog: Program, p: Packet, wirelen: u32, m: Machine)
    requires m.pc < |prog| && forall kind: Kind :: !kind.Illegal? ==> CodeOf(kind) != prog[m.pc].code
    ensures Run(prog, p, wirelen, m) == Return(0)
  {
    var code := prog[m.pc].code;
    if !KindOf(code).Illegal? {
      CodeRoundTrip(code);
    }
  }

  function Op(kind: Kind, k: u32): Insn
    requires !kind.Illegal?
  {
    Insn(CodeOf(kind), 0, 0, k)
  }

  // ----- arithmetic

  /** What the operations do, said without computing it. */
  ghost predicate Means(op: AluOp, a: u32, b: u32, v: u32) {
    match op
    case Add => v == a + b || v + TWO32 == a + b
    case Sub => v + b == a || v + b == a + TWO32
    case Mul => exists q: nat :: v + q * TWO32 == a * b
    case Div => v * b <= a < (v + 1) * b
    case And => forall i :: 0 <= i < 32 ==> BitsOf(v, 32)[i] == (BitsOf(a, 32)[i] && BitsOf(b, 32)[i])
    case Or => forall i :: 0 <= i < 32 ==> BitsOf(v, 32)[i] == (BitsOf(a, 32)[i] || BitsOf(b, 32)[i])
    case Lsh => if b < 32 then exists q: nat :: v + q * TWO32 == a * Pow2(b) else v == 0
    case Rsh => if b < 32 then v * Pow2(b) <= a < (v + 1) * Pow2(b) else v == 0
  }

  lemma {:induction false} AndBits(a: nat, b: nat, w: nat, i: nat)
    requires i < w
    ensures BitsOf(Bits.And(a, b), w)[i] == (BitsOf(a, w)[i] && BitsOf(b, w)[i])
    decreases w
  {
    HalfAnd(a, b);
    if i < w - 1 {
      AndBits(a / 2, b / 2, w - 1, i);
    }
  }

  lemma HalfAnd(a: nat, b: nat)
    ensures Bits.And(a, b) / 2 == Bits.And(a / 2, b / 2)
    ensures Bits.And(a, b) % 2 == 1 <==> a % 2 == 1 && b % 2 == 1
  {
  }

  lemma {:induction false} OrBits(a: nat, b: nat, w: nat, i: nat)
    requires i < w
    ensures BitsOf(Bits.Or(a, b), w)[i] == (BitsOf(a, w)[i] || BitsOf(b, w)[i])
    decreases w
  {
    HalfOr(a, b);
    if i < w - 1 {
      OrBits(a / 2, b / 2, w - 1, i);
    }
  }

  lemma HalfOr(a: nat, b: nat)
    ensures Bits.Or(a, b) / 2 == Bits.Or(a / 2, b / 2)
    ensures Bits.Or(a, b) % 2 == 1 <==> a % 2 == 1 || b % 2 == 1
  {
  }

  lemma Quotients(a: nat, b: nat)
    requires b > 0
    ensures a / b * b <= a < (a / b + 1) * b
  {
    MulDistr(a / b, 1, b);
  }

  lemma Wrapped(n: nat)
    ensures n % TWO32 < TWO32 && exists q: nat :: n % TWO32 + q * TWO32 == n
  {
    assert n % TWO32 + n / TWO32 * TWO32 == n;
  }

  /** The machine's arithmetic does that, and has no result exactly for a division by
      zero. */
  lemma ComputeMeans(op: AluOp, a: u32, b: u32)
    ensures Compute(op, a, b).None? <==> op.Div? && b == 0
    ensures Compute(op, a, b).Some? ==> Means(op, a, b, Compute(op, a, b).value)
  {
    if op.And? || op.Or? {
      BitwiseMeans(op, a, b);
    } else if op.Mul? || op.Lsh? {
      ProductMeans(op, a, b);
    } else if op.Div? || op.Rsh? {
      QuotientMeans(op, a, b);
    }
  }

  lemma ProductMeans(op: AluOp, a: u32, b: u32)
    requires op.Mul? || op.Lsh?
    ensures Compute(op, a, b).Some? && Means(op, a, b, Compute(op, a, b).value)
  {
    if op.Mul? {
      Wrapped(a * b);
    } else if b < 32 {
      Wrapped(a * Pow2(b));
    }
  }

  lemma QuotientMeans(op: AluOp, a: u32, b: u32)
    requires op.Div? || op.Rsh?
    ensures Compute(op, a, b).None? <==> op.Div? && b == 0
    ensures Compute(op, a, b).Some? ==> Means(op, a, b, Compute(op, a, b).value)
  {
    if op.Rsh? {
      Quotients(a, Pow2(b));
    } else if b > 0 {
      Quotients(a, b);
    }
  }

  lemma BitwiseMeans(op: AluOp, a: u32, b: u32)
    requires op.And? || op.Or?
    ensures Compute(op, a, b).Some? && Means(op, a, b, Compute(op, a, b).value)
  {
    forall i | 0 <= i < 32
      ensures BitsOf(Bits.And(a, b), 32)[i] == (BitsOf(a, 32)[i] && BitsOf(b, 32)[i])
      ensures BitsOf(Bits.Or(a, b), 32)[i] == (BitsOf(a, 32)[i] || BitsOf(b, 32)[i])
    {
      AndBits(a, b, 32, i);
      OrBits(a, b, 32, i);
    }
  }

  lemma SameBits(v: u32, v': u32)
    requires forall i :: 0 <= i < 32 ==> BitsOf(v, 32)[i] == BitsOf(v', 32)[i]
    ensures v == v'
  {
    assert BitsOf(v, 32) == BitsOf(v', 32);
    Pow2Values();
    NumBitsOf(v, 32);
    NumBitsOf(v', 32);
  }

  lemma SameQuotient(a: nat, b: nat, q: nat, q': nat)
    requires q * b <= a < (q + 1) * b && q' * b <= a < (q' + 1) * b
    ensures q == q'
  {
    if q < q' {
      MulMono(q + 1, q', b);
    } else if q' < q {
      MulMono(q' + 1, q, b);
    }
  }

  lemma SameWrap(n: nat, v: u32, v': u32)
    requires (exists q: nat :: v + q * TWO32 == n) && exists q: nat :: v' + q * TWO32 == n
    ensures v == v'
  {
    var q: nat :| v + q * TWO32 == n;
    var q': nat :| v' + q' * TWO32 == n;
  }

  /** And that is the only result. */
  lemma MeansOnce(op: AluOp, a: u32, b: u32, v: u32, v': u32)
    requires Means(op, a, b, v) && Means(op, a, b, v')
    ensures v == v'
  {
    match op
    case Add =>
    case Sub =>
    case Mul => SameWrap(a * b, v, v');
    case Div => SameQuotient(a, b, v, v');
    case And => SameBits(v, v');
    case Or => SameBits(v, v');
    case Lsh =>
      if b < 32 {
        SameWrap(a * Pow2(b), v, v');
      }
    case Rsh =>
      if b < 32 {
        SameQuotient(a, Pow2(b), v, v');
      }
  }

  /** What a comparison asks. */
  ghost predicate Truth(test: Test, a: u32, b: u32) {
    match test
    case Gt => a > b
    case Ge => a >= b
    case Eq => a == b
    case Set => exists i :: 0 <= i < 32 && BitsOf(a, 32)[i] && BitsOf(b, 32)[i]
  }

  lemma {:induction false} ZeroBits(w: nat, i: nat)
    requires i < w
    ensures !BitsOf(0, w)[i]
  {
    if i < w - 1 {
      ZeroBits(w - 1, i);
    }
  }

  lemma {:induction false} SomeBit(v: nat, w: nat) returns (i: nat)
    requires 0 < v < Pow2(w)
    ensures i < w && BitsOf(v, w)[i]
  {
    if v % 2 == 1 {
      i := w - 1;
    } else {
      i := SomeBit(v / 2, w - 1);
    }
  }

  lemma HoldsTruth(test: Test, a: u32, b: u32)
    ensures Holds(test, a, b) <==> Truth(test, a, b)
  {
    if test.Set? {
      var v := Bits.And(a, b);
      AndBound(a, b);
      Pow2Values();
      if v != 0 {
        var i := SomeBit(v, 32);
        AndBits(a, b, 32, i);
      } else if Truth(test, a, b) {
        var i :| 0 <= i < 32 && BitsOf(a, 32)[i] && BitsOf(b, 32)[i];
        AndBits(a, b, 32, i);
        ZeroBits(32, i);
      }
    }
  }
}
