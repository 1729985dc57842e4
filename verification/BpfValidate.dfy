/** The filter checker: one pass over the program that must make every run safe.
    What it accepts is characterised exactly, and everything it accepts runs
    without fault on every packet. */
module BpfValidate {
  import opened BpfPacket
  import opened BpfMachine
  import opened Options

  const BPF_MAXINSNS: nat := 512

  // ----- fields of an instruction code

  function ClassOf(code: nat): nat {
    code % 8
  }

  function ModeOf(code: nat): nat {
    code / 32 % 8 * 32
  }

  function OpOf(code: nat): nat {
    code / 16 % 16 * 16
  }

  function SrcOf(code: nat): nat {
    code / 8 % 2 * 8
  }

  predicate IsLoad(code: nat) {
    ClassOf(code) == BPF_LD || ClassOf(code) == BPF_LDX
  }

  predicate IsMemLoad(code: nat) {
    IsLoad(code) && ModeOf(code) == BPF_MEM
  }

  predicate IsStore(code: nat) {
    ClassOf(code) == BPF_ST || ClassOf(code) == BPF_STX
  }

  predicate IsJump(code: nat) {
    ClassOf(code) == BPF_JMP
  }

  // ----- what is checked of each instruction by itself

  /** The check of instruction i that needs no knowledge of the path to it. The sum
      for an unconditional jump is taken modulo 2^32 and tested for wrapping. */
  predicate LocalOk(prog: Program, i: nat)
    requires i < |prog|
  {
    var ins := prog[i];
    var len, from := |prog|, i + 1;
    var c := ClassOf(ins.code);
    if IsLoad(ins.code) then
      var mode := ModeOf(ins.code);
      if mode == BPF_MEM then ins.k < BPF_MEMWORDS
      else mode in {BPF_ABS, BPF_IND, BPF_MSH, BPF_IMM, BPF_LEN}
    else if IsStore(ins.code) then ins.k < BPF_MEMWORDS
    else if c == BPF_ALU then
      var op := OpOf(ins.code);
      if op == BPF_DIV then !(SrcOf(ins.code) == BPF_K && ins.k == 0)
      else op in {BPF_ADD, BPF_SUB, BPF_MUL, BPF_OR, BPF_AND, BPF_LSH, BPF_RSH, BPF_NEG}
    else if c == BPF_JMP then
      var op := OpOf(ins.code);
      if op == BPF_JA then
        var target := (from + ins.k) % TWO32;
        target < len && target >= from
      else
        op in {BPF_JEQ, BPF_JGT, BPF_JGE, BPF_JSET} && from + ins.jt < len && from + ins.jf < len
    else true
  }

  predicate ShapeOk(prog: Program) {
    && 1 <= |prog| <= BPF_MAXINSNS
    && ClassOf(prog[|prog| - 1].code) == BPF_RET
    && forall i :: 0 <= i < |prog| ==> LocalOk(prog, i)
  }

  // ----- paths through a program

  /** Where control may go from instruction i, as the checker sees it: it knows the
      jumps, and lets everything else, returns included, fall through. */
  predicate Edge(prog: Program, i: nat, j: nat)
    requires i < |prog|
  {
    var ins := prog[i];
    if IsJump(ins.code) then
      if OpOf(ins.code) == BPF_JA then j == i + 1 + ins.k
      else j == i + 1 + ins.jt || j == i + 1 + ins.jf
    else j == i + 1
  }

  predicate Writes(prog: Program, i: nat, w: nat)
    requires i < |prog|
  {
    IsStore(prog[i].code) && prog[i].k == w
  }

  /** Some path from the start reaches instruction i without writing word w. */
  ghost predicate Unwritten(prog: Program, i: nat, w: nat)
    decreases i
  {
    i == 0 || exists j :: 0 <= j < i && j < |prog| && Edge(prog, j, i) && !Writes(prog, j, w) && Unwritten(prog, j, w)
  }

  /** A path: it starts at instruction 0, follows edges, and writes w nowhere before
      its end. */
  ghost predicate SilentPath(prog: Program, path: seq<nat>, w: nat) {
    && |path| >= 1 && path[0] == 0
    && (forall n :: 0 <= n < |path| - 1 ==>
          path[n] < |prog| && path[n] < path[n + 1] && Edge(prog, path[n], path[n + 1]) && !Writes(prog, path[n], w))
  }

  lemma {:induction false} UnwrittenHasPath(prog: Program, i: nat, w: nat) returns (path: seq<nat>)
    requires Unwritten(prog, i, w)
    ensures SilentPath(prog, path, w) && path[|path| - 1] == i
    decreases i
  {
    if i == 0 {
      path := [0];
    } else {
      var j :| 0 <= j < i && j < |prog| && Edge(prog, j, i) && !Writes(prog, j, w) && Unwritten(prog, j, w);
      var before := UnwrittenHasPath(prog, j, w);
      path := before + [i];
    }
  }

  lemma {:induction false} PathIsUnwritten(prog: Program, path: seq<nat>, w: nat)
    requires SilentPath(prog, path, w)
    ensures Unwritten(prog, path[|path| - 1], w)
    decreases |path|
  {
    if |path| > 1 {
      PathIsUnwritten(prog, path[..|path| - 1], w);
    }
  }

  /** What the checker accepts: every instruction passes its own check, and no
      scratch word is loaded that some path leaves unwritten. */
  ghost predicate Accepted(prog: Program) {
    && ShapeOk(prog)
    && forall i :: 0 <= i < |prog| && IsMemLoad(prog[i].code) ==> !Unwritten(prog, i, prog[i].k)
  }

  // ----- the pass over the program

  /** A mask of scratch words, as the set of the words whose bit is set. */
  type Mask = set<nat>

  const ALL: Mask := set w: nat | w < BPF_MEMWORDS

  /** The words that some path leaves unwritten on the way to instruction i. */
  ghost function InvalidAt(prog: Program, i: nat): Mask {
    set w: nat | w < BPF_MEMWORDS && Unwritten(prog, i, w)
  }

  /** What falls through from instruction i - 1 to i: nothing after a jump. */
  ghost function FallsThrough(prog: Program, i: nat): Mask
    requires i <= |prog|
  {
    if i == 0 then ALL
    else if IsJump(prog[i - 1].code) then {}
    else if IsStore(prog[i - 1].code) then InvalidAt(prog, i - 1) - {prog[i - 1].k}
    else InvalidAt(prog, i - 1)
  }

  /** A jump before instruction i carries word w to instruction t. */
  ghost predicate CarriesWord(prog: Program, i: nat, t: nat, w: nat)
    requires i <= |prog|
  {
    exists j :: 0 <= j < i && IsJump(prog[j].code) && Edge(prog, j, t) && Unwritten(prog, j, w)
  }

  ghost function Carried(prog: Program, i: nat, t: nat): Mask
    requires i <= |prog|
  {
    set w: nat | w < BPF_MEMWORDS && CarriesWord(prog, i, t, w)
  }

  /** Together these are all the ways to reach an instruction. */
  lemma Blend(prog: Program, i: nat)
    requires i < |prog|
    ensures FallsThrough(prog, i) + Carried(prog, i, i) == InvalidAt(prog, i)
  {
    forall w: nat | w < BPF_MEMWORDS
      ensures w in FallsThrough(prog, i) + Carried(prog, i, i) <==> w in InvalidAt(prog, i)
    {
      if w in InvalidAt(prog, i) && i > 0 {
        var j :| 0 <= j < i && j < |prog| && Edge(prog, j, i) && !Writes(prog, j, w) && Unwritten(prog, j, w);
        if !IsJump(prog[j].code) {
          assert j == i - 1;
        }
      }
      if w in FallsThrough(prog, i) && i > 0 {
        assert Edge(prog, i - 1, i);
      }
    }
  }

  /** A jump hands its mask to its targets. */
  lemma CarryJump(prog: Program, i: nat, t: nat)
    requires i < |prog|
    ensures Carried(prog, i + 1, t) ==
      if IsJump(prog[i].code) && Edge(prog, i, t) then Carried(prog, i, t) + InvalidAt(prog, i) else Carried(prog, i, t)
  {
  }

  /** An unconditional jump that passes its check does not wrap. */
  lemma JumpExact(from: nat, k: u32, len: nat)
    requires from <= len <= BPF_MAXINSNS
    requires var target := (from + k) % TWO32; from <= target < len
    ensures (from + k) % TWO32 == from + k
  {
  }

  /** Check a program: true exactly for the programs described by Accepted. */
  method Validate(prog: Program) returns (ok: bool)
    ensures ok <==> Accepted(prog)
  {
    var len := |prog|;
    if len < 1 || len > BPF_MAXINSNS || ClassOf(prog[len - 1].code) != BPF_RET {
      return false;
    }
    var mem: array<Mask> := new Mask[len](_ => {});
    var invalid := ALL;
    for i := 0 to len
      invariant invalid == FallsThrough(prog, i)
      invariant forall t :: 0 <= t < len ==> mem[t] == Carried(prog, i, t)
      invariant forall j :: 0 <= j < i ==> LocalOk(prog, j)
      invariant forall j :: 0 <= j < i && IsMemLoad(prog[j].code) ==> !Unwritten(prog, j, prog[j].k)
    {
      Blend(prog, i);
      invalid := invalid + mem[i];
      var pass;
      pass, invalid := CheckInsn(prog, i, mem, invalid);
      if !pass {
        return false;
      }
    }
    return true;
  }

  /** Check one instruction, and hand the mask on: to the targets of a jump, or to
      the next instruction. */
  method CheckInsn(prog: Program, i: nat, mem: array<Mask>, invalid0: Mask) returns (ok: bool, invalid: Mask)
    requires i < |prog| <= BPF_MAXINSNS && mem.Length == |prog|
    requires invalid0 == InvalidAt(prog, i)
    requires forall t :: 0 <= t < |prog| ==> mem[t] == Carried(prog, i, t)
    modifies mem
    ensures ok <==> LocalOk(prog, i) && (IsMemLoad(prog[i].code) ==> !Unwritten(prog, i, prog[i].k))
    ensures ok ==> invalid == FallsThrough(prog, i + 1)
    ensures ok ==> forall t :: 0 <= t < |prog| ==> mem[t] == Carried(prog, i + 1, t)
  {
    invalid := invalid0;
    var p := prog[i];
    var from := i + 1;
    forall t | 0 <= t < |prog| {
      CarryJump(prog, i, t);
    }
    if IsLoad(p.code) {
      var mode := ModeOf(p.code);
      if mode == BPF_MEM {
        if p.k >= BPF_MEMWORDS || p.k in invalid {
          return false, invalid;
        }
      } else if mode !in {BPF_ABS, BPF_IND, BPF_MSH, BPF_IMM, BPF_LEN} {
        return false, invalid;
      }
    } else if IsStore(p.code) {
      if p.k >= BPF_MEMWORDS {
        return false, invalid;
      }
      invalid := invalid - {p.k};
    } else if ClassOf(p.code) == BPF_ALU {
      var op := OpOf(p.code);
      if op == BPF_DIV {
        if SrcOf(p.code) == BPF_K && p.k == 0 {
          return false, invalid;
        }
      } else if op !in {BPF_ADD, BPF_SUB, BPF_MUL, BPF_OR, BPF_AND, BPF_LSH, BPF_RSH, BPF_NEG} {
        return false, invalid;
      }
    } else if ClassOf(p.code) == BPF_JMP {
      ok := CheckJump(prog, i, mem, invalid);
      return ok, {};
    }
    return true, invalid;
  }

  /** Check a jump and hand the mask to its targets. */
  method CheckJump(prog: Program, i: nat, mem: array<Mask>, invalid: Mask) returns (ok: bool)
    requires i < |prog| <= BPF_MAXINSNS && mem.Length == |prog| && IsJump(prog[i].code)
    requires invalid == InvalidAt(prog, i)
    requires forall t :: 0 <= t < |prog| ==> mem[t] == Carried(prog, i, t)
    modifies mem
    ensures ok <==> LocalOk(prog, i)
    ensures ok ==> forall t :: 0 <= t < |prog| ==> mem[t] == Carried(prog, i + 1, t)
  {
    var p := prog[i];
    var from := i + 1;
    forall t | 0 <= t < |prog| {
      CarryJump(prog, i, t);
    }
    var op := OpOf(p.code);
    if op == BPF_JA {
      var target := (from + p.k) % TWO32;
      if target >= |prog| || target < from {
        return false;
      }
      JumpExact(from, p.k, |prog|);
      HandOn(mem, target, invalid);
    } else if op in {BPF_JEQ, BPF_JGT, BPF_JGE, BPF_JSET} {
      if from + p.jt >= |prog| || from + p.jf >= |prog| {
        return false;
      }
      HandOn(mem, from + p.jt, invalid);
      HandOn(mem, from + p.jf, invalid);
    } else {
      return false;
    }
    return true;
  }

  method HandOn(mem: array<Mask>, t: nat, invalid: Mask)
    requires t < mem.Length
    modifies mem
    ensures forall s :: 0 <= s < mem.Length ==> mem[s] == if s == t then old(mem[s]) + invalid else old(mem[s])
  {
    mem[t] := mem[t] + invalid;
  }

  // ----- what acceptance guarantees

  /** A machine at a reachable instruction: a word not written on the way there is
      a word that some path leaves unwritten. */
  ghost predicate Consistent(prog: Program, m: Machine) {
    && MachineOk(m) && m.pc < |prog|
    && forall w :: 0 <= w < BPF_MEMWORDS && m.mem[w].None? ==> Unwritten(prog, m.pc, w)
  }

  ghost predicate Readable(p: Packet) {
    PacketOk(p) && (p.Chained? ==> NoGap(p.chain))
  }

  lemma LoadNotWild(p: Packet, size: Size, k: nat)
    requires Readable(p)
    ensures !Load(p, size, k).Wild?
  {
  }

  /** How the interpreter's reading of a code and the checker's go together. */
  predicate KindFits(kind: Kind, code: nat) {
    && (kind.JumpAlways? ==> IsJump(code) && OpOf(code) == BPF_JA)
    && (kind.JumpIf? ==> IsJump(code) && OpOf(code) != BPF_JA)
    && (IsJump(code) ==> kind.JumpAlways? || kind.JumpIf? || kind.Illegal?)
    && (kind.StoreAcc? || kind.StoreIndex? ==> IsStore(code))
    && (IsStore(code) ==> kind.StoreAcc? || kind.StoreIndex? || kind.Illegal?)
    && (kind.LoadMem? || kind.IndexMem? ==> IsMemLoad(code))
    && (kind == Arith(Div, Const) ==> ClassOf(code) == BPF_ALU && OpOf(code) == BPF_DIV && SrcOf(code) == BPF_K)
    && (ClassOf(code) == BPF_RET ==> kind.RetConst? || kind.RetAcc? || kind.Illegal?)
  }

  lemma LoadKindFits(code: nat)
    ensures KindFits(LoadKind(code), code)
  {
  }

  lemma JumpKindFits(code: nat)
    ensures KindFits(JumpKind(code), code)
  {
  }

  lemma ArithKindFits(code: nat)
    ensures KindFits(ArithKind(code), code)
  {
  }

  lemma OtherKindFits(code: nat)
    ensures KindFits(OtherKind(code), code)
  {
  }

  lemma KindOfFits(code: nat)
    ensures KindFits(KindOf(code), code)
  {
    LoadKindFits(code);
    JumpKindFits(code);
    ArithKindFits(code);
    OtherKindFits(code);
    assert KindOf(code) in {LoadKind(code), JumpKind(code), ArithKind(code), OtherKind(code)};
  }

  /** Moving on to instruction j. */
  lemma MovesOn(prog: Program, m: Machine, m': Machine, w: nat)
    requires Consistent(prog, m) && MachineOk(m') && w < BPF_MEMWORDS
    requires m.pc < m'.pc && Edge(prog, m.pc, m'.pc)
    requires m'.mem[w].None? ==> m.mem[w].None? && !Writes(prog, m.pc, w)
    ensures m'.mem[w].None? ==> Unwritten(prog, m'.pc, w)
  {
  }

  /** The next machine keeps what was written, writes what the instruction stores,
      and goes along an edge. */
  lemma ExecuteMoves(kind: Kind, prog: Program, p: Packet, wirelen: u32, m: Machine)
    requires ShapeOk(prog) && MachineOk(m) && m.pc < |prog| && KindFits(kind, prog[m.pc].code)
    requires Execute(kind, prog[m.pc], p, wirelen, m).Next?
    ensures var m' := Execute(kind, prog[m.pc], p, wirelen, m).m;
      && MachineOk(m') && m.pc < m'.pc < |prog| && Edge(prog, m.pc, m'.pc)
      && forall w :: 0 <= w < BPF_MEMWORDS && m'.mem[w].None? ==> m.mem[w].None? && !Writes(prog, m.pc, w)
  {
    assert LocalOk(prog, m.pc);
    if kind.JumpAlways? {
      JumpExact(m.pc + 1, prog[m.pc].k, |prog|);
    }
  }

  lemma ExecuteSafe(kind: Kind, prog: Program, p: Packet, wirelen: u32, m: Machine)
    requires Accepted(prog) && Readable(p) && Consistent(prog, m) && KindFits(kind, prog[m.pc].code)
    ensures !Execute(kind, prog[m.pc], p, wirelen, m).Fault?
  {
    var i := prog[m.pc];
    assert LocalOk(prog, m.pc);
    match kind
    case LoadAbs(size) => LoadNotWild(p, size, i.k);
    case LoadInd(size) => LoadNotWild(p, size, IndexedOffset(p, m.x, i.k));
    case IndexMsh => LoadNotWild(p, Byte, i.k);
    case _ =>
  }

  /** A consistent machine does not fault, and stays consistent. */
  lemma StepSafe(prog: Program, p: Packet, wirelen: u32, m: Machine)
    requires Accepted(prog) && Readable(p) && Consistent(prog, m)
    ensures var r := Step(prog[m.pc], p, wirelen, m);
      !r.Fault? && (r.Next? ==> m.pc < r.m.pc && Consistent(prog, r.m))
  {
    var kind := KindOf(prog[m.pc].code);
    KindOfFits(prog[m.pc].code);
    ExecuteSafe(kind, prog, p, wirelen, m);
    var r := Execute(kind, prog[m.pc], p, wirelen, m);
    if r.Next? {
      ExecuteMoves(kind, prog, p, wirelen, m);
      forall w | 0 <= w < BPF_MEMWORDS && r.m.mem[w].None?
        ensures Unwritten(prog, r.m.pc, w)
      {
        MovesOn(prog, m, r.m, w);
      }
    }
  }

  lemma {:induction false} RunSafe(prog: Program, p: Packet, wirelen: u32, m: Machine)
    requires Accepted(prog) && Readable(p) && Consistent(prog, m)
    ensures Run(prog, p, wirelen, m).Return?
    decreases |prog| - m.pc
  {
    StepSafe(prog, p, wirelen, m);
    var r := Step(prog[m.pc], p, wirelen, m);
    if r.Next? {
      RunSafe(prog, p, wirelen, r.m);
    }
  }

  /** Every accepted program, on every packet whose chain has no gap, runs to a
      returned value: it stays inside the program, uses only scratch words it has
      written on the path taken, never divides by zero, and is done after at most
      as many steps as it has instructions. */
  lemma Soundness(prog: Program, p: Packet, wirelen: u32)
    requires Accepted(prog) && Readable(p)
    ensures Run(prog, p, wirelen, START).Return?
    ensures RunFor(prog, p, wirelen, START, |prog|) == Run(prog, p, wirelen, START)
  {
    RunSafe(prog, p, wirelen, START);
    Halts(prog, p, wirelen, START, |prog|);
  }
}
