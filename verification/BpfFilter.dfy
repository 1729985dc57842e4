/** The filter interpreter as a loop over registers and a scratch array, and what
    the two packet representations have in common. */
module BpfFilter {
  import opened Bits
  import opened Mbufs
  import opened BpfPacket
  import opened BpfMachine
  import opened BpfValidate
  import opened BpfRules
  import opened Options

  // ----- reading from a chain

  method ReadByte(chain: Chain, k: nat) returns (r: Fetch)
    requires |chain| >= 1
    ensures r == ChainByte(chain, k)
  {
    var at := BpfPacket.Index(chain, k);
    match at
    case Nowhere => return Outside;
    case Place(i, off) => return Value(chain[i][off]);
  }

  method ReadHalf(chain: Chain, k: nat) returns (r: Fetch)
    requires |chain| >= 1
    ensures r == ChainHalf(chain, k)
  {
    var at := BpfPacket.Index(chain, k);
    if at.Nowhere? {
      return Outside;
    }
    var i, off := at.buffer, at.offset;
    var cp := chain[i];
    if |cp| >= off + 2 {
      return Value(Big16(cp[off], cp[off + 1]));
    }
    if i + 1 == |chain| {
      return Outside;
    }
    if |chain[i + 1]| == 0 {
      return Wild;
    }
    return Value(Big16(cp[off], chain[i + 1][0]));
  }

  method ReadWord(chain: Chain, k: nat) returns (r: Fetch)
    requires |chain| >= 1
    ensures r == ChainWord(chain, k)
  {
    var at := BpfPacket.Index(chain, k);
    if at.Nowhere? {
      return Outside;
    }
    var i, off := at.buffer, at.offset;
    var cp := chain[i];
    if |cp| >= off + 4 {
      return Value(Big32(cp[off], cp[off + 1], cp[off + 2], cp[off + 3]));
    }
    if i + 1 == |chain| || |chain[i + 1]| + |cp| - off < 4 {
      return Outside;
    }
    var np := chain[i + 1];
    match |cp| - off
    case 1 => return Value(Big32(cp[off], np[0], np[1], np[2]));
    case 2 => return Value(Big32(cp[off], cp[off + 1], np[0], np[1]));
    case _ => return Value(Big32(cp[off], cp[off + 1], cp[off + 2], np[0]));
  }

  /** A load at offset k: from the buffer, or by walking the chain. */
  method Read(p: Packet, size: Size, k: nat) returns (r: Fetch)
    requires PacketOk(p)
    ensures r == Load(p, size, k)
  {
    match p {
      case Flat(bytes) => r := Load(p, size, k);
      case Chained(chain) =>
        match size {
          case Word => r := ReadWord(chain, k);
          case Half => r := ReadHalf(chain, k);
          case Byte => r := ReadByte(chain, k);
        }
    }
  }

  // ----- the interpreter

  /** The scratch array with the words never written made visible. */
  ghost function View(mem: seq<u32>, written: set<nat>): (v: seq<Option<u32>>)
    requires |mem| == BPF_MEMWORDS
    ensures |v| == BPF_MEMWORDS
  {
    seq(BPF_MEMWORDS, w requires 0 <= w < BPF_MEMWORDS => if w in written then Some(mem[w]) else None)
  }

  lemma ViewWrite(mem: seq<u32>, written: set<nat>, k: nat, v: u32)
    requires |mem| == BPF_MEMWORDS && k < BPF_MEMWORDS
    ensures View(mem[k := v], written + {k}) == View(mem, written)[k := Some(v)]
  {
  }

  /** Carry out one instruction: either the run is over, or these are the registers
      after it. Only words already written are read. */
  method Perform(kind: Kind, i: Insn, p: Packet, wirelen: u32, pc0: nat, a0: u32, x0: u32,
                 mem: array<u32>, ghost written0: set<nat>)
      returns (done: bool, ret: u32, pc: nat, a: u32, x: u32, ghost written: set<nat>)
    requires PacketOk(p) && mem.Length == BPF_MEMWORDS
    requires !Execute(kind, i, p, wirelen, Machine(pc0, a0, x0, View(mem[..], written0))).Fault?
    modifies mem
    ensures Execute(kind, i, p, wirelen, Machine(pc0, a0, x0, old(View(mem[..], written0))))
         == if done then Return(ret) else Next(Machine(pc, a, x, View(mem[..], written)))
  {
    done, ret, pc, a, x, written := false, 0, pc0 + 1, a0, x0, written0;
    match kind {
      case Illegal => done := true;
      case RetConst => done, ret := true, i.k;
      case RetAcc => done, ret := true, a;
      case LoadAbs(size) =>
        var f := Read(p, size, i.k);
        if f.Outside? {
          done := true;
        } else {
          a := f.value;
        }
      case LoadInd(size) =>
        var f := Read(p, size, IndexedOffset(p, x, i.k));
        if f.Outside? {
          done := true;
        } else {
          a := f.value;
        }
      case LoadLen => a := wirelen;
      case IndexLen => x := wirelen;
      case IndexMsh =>
        var f := Read(p, Byte, i.k);
        if f.Outside? {
          done := true;
        } else {
          x := f.value % 16 * 4;
        }
      case LoadImm => a := i.k;
      case IndexImm => x := i.k;
      case LoadMem =>
        assert i.k in written;
        a := mem[i.k];
      case IndexMem =>
        assert i.k in written;
        x := mem[i.k];
      case StoreAcc =>
        ViewWrite(mem[..], written, i.k, a);
        mem[i.k] := a;
        written := written + {i.k};
      case StoreIndex =>
        ViewWrite(mem[..], written, i.k, x);
        mem[i.k] := x;
        written := written + {i.k};
      case JumpAlways => pc := pc + i.k;
      case JumpIf(test, src) =>
        pc := pc + (if Holds(test, a, if src.Const? then i.k else x) then i.jt else i.jf);
      case Arith(op, src) =>
        var b := if src.Const? then i.k else x;
        if op.Div? && src.Index? && b == 0 {
          done := true;
        } else {
          a := Compute(op, a, b).value;
        }
      case Negate => a := (TWO32 - a) % TWO32;
      case AccToIndex => x := a;
      case IndexToAcc => a := x;
    }
  }

  /** A program that comes from a rule gives the rule's verdict. */
  lemma RulesMeaning(prog: Program, p: Packet, wirelen: u32, ret: u32)
    requires Accepted(prog) && Run(prog, p, wirelen, START) == Return(ret)
    ensures p.Flat? ==> forall r :: RuleOk(r) && RuleCode(r) == prog ==> ret == Verdict(r, p.bytes, wirelen)
  {
    if p.Flat? {
      forall r | RuleOk(r) && RuleCode(r) == prog
        ensures ret == Verdict(r, p.bytes, wirelen)
      {
        RuleMeaning(r, p.bytes, wirelen);
      }
    }
  }

  /** Run a filter over a packet. No filter accepts everything. */
  method Filter(filter: Option<Program>, p: Packet, wirelen: u32) returns (ret: u32)
    requires filter.Some? ==> Accepted(filter.value)
    requires Readable(p)
    ensures filter.None? ==> ret == 0xffff_ffff
    ensures filter.Some? ==> Run(filter.value, p, wirelen, START) == Return(ret)
    ensures filter.Some? && p.Flat? ==> forall r :: RuleOk(r) && RuleCode(r) == filter.value ==> ret == Verdict(r, p.bytes, wirelen)
  {
    if filter.None? {
      return 0xffff_ffff;
    }
    var prog := filter.value;
    var pc: nat, a: u32, x: u32 := 0, 0, 0;
    var mem := new u32[BPF_MEMWORDS];
    ghost var written: set<nat> := {};
    ghost var m := START;
    assert View(mem[..], written) == START.mem;
    while true
      invariant m == Machine(pc, a, x, View(mem[..], written)) && Consistent(prog, m)
      invariant Run(prog, p, wirelen, m) == Run(prog, p, wirelen, START)
      decreases |prog| - pc
    {
      StepSafe(prog, p, wirelen, m);
      var done;
      done, ret, pc, a, x, written := Perform(KindOf(prog[pc].code), prog[pc], p, wirelen, pc, a, x, mem, written);
      if done {
        RulesMeaning(prog, p, wirelen, ret);
        return;
      }
      m := Machine(pc, a, x, View(mem[..], written));
    }
  }

  // ----- the two representations

  /** Some indexed load of the run adds up to 2^32 or more. */
  predicate Overflows(prog: Program, p: Packet, wirelen: u32, m: Machine)
    decreases |prog| - m.pc
  {
    m.pc < |prog| &&
    var i := prog[m.pc];
    || (KindOf(i.code).LoadInd? && m.x + i.k >= TWO32)
    || (var r := Step(i, p, wirelen, m);
        r.Next? && r.m.pc > m.pc && Overflows(prog, p, wirelen, r.m))
  }

  lemma LoadsAgree(chain: Chain, size: Size, k: nat)
    requires NoEmpty(chain) && (|Flatten(chain)| < 4 || MiddleLong(chain))
    ensures Load(Chained(chain), size, k) == Load(Flat(Flatten(chain)), size, k)
  {
    match size
    case Word => WordsAgreeIff(chain);
    case Half => HalfAgrees(chain, k);
    case Byte => ByteAgrees(chain, k);
  }

  lemma StepsAgree(chain: Chain, kind: Kind, i: Insn, wirelen: u32, m: Machine)
    requires NoEmpty(chain) && (|Flatten(chain)| < 4 || MiddleLong(chain))
    requires kind.LoadInd? ==> m.x + i.k < TWO32
    ensures Execute(kind, i, Chained(chain), wirelen, m) == Execute(kind, i, Flat(Flatten(chain)), wirelen, m)
  {
    if kind.LoadAbs? {
      LoadsAgree(chain, kind.size, i.k);
    } else if kind.LoadInd? {
      assert IndexedOffset(Chained(chain), m.x, i.k) == m.x + i.k;
      LoadsAgree(chain, kind.size, m.x + i.k);
    } else if kind.IndexMsh? {
      LoadsAgree(chain, Byte, i.k);
    }
  }

  /** A program gives the same result on a chain as on the flattened packet, if no
      buffer is empty, no inner buffer is shorter than three bytes (or the packet is
      shorter than a word), and no indexed load overflows. */
  lemma {:induction false} SameOnChain(prog: Program, chain: Chain, wirelen: u32, m: Machine)
    requires NoEmpty(chain) && (|Flatten(chain)| < 4 || MiddleLong(chain))
    requires !Overflows(prog, Flat(Flatten(chain)), wirelen, m)
    ensures Run(prog, Chained(chain), wirelen, m) == Run(prog, Flat(Flatten(chain)), wirelen, m)
    decreases |prog| - m.pc
  {
    if m.pc < |prog| {
      var i := prog[m.pc];
      StepsAgree(chain, KindOf(i.code), i, wirelen, m);
      StepForward(i, Chained(chain), wirelen, m);
      var r := Step(i, Chained(chain), wirelen, m);
      if r.Next? {
        SameOnChain(prog, chain, wirelen, r.m);
      }
    }
  }

  /** A program that loads from offset k, then accepts. */
  function LoadThenAccept(size: Size, k: u32): Program {
    var width := match size case Word => BPF_W case Half => BPF_H case Byte => BPF_B;
    [Insn(BPF_LD + width + BPF_ABS, 0, 0, k), Insn(BPF_RET + BPF_K, 0, 0, 1)]
  }

  lemma LoadThenAcceptRuns(size: Size, k: u32, p: Packet, wirelen: u32)
    ensures var prog := LoadThenAccept(size, k);
      && Accepted(prog)
      && !Overflows(prog, p, wirelen, START)
      && Run(prog, p, wirelen, START) ==
           match Load(p, size, k) case Value(_) => Return(1) case Outside => Return(0) case Wild => Fault
  {
    var prog := LoadThenAccept(size, k);
    assert KindOf(prog[0].code) == LoadAbs(size);
    assert KindOf(prog[1].code) == RetConst;
    assert LocalOk(prog, 0) && LocalOk(prog, 1);
    var r := Step(prog[0], p, wirelen, START);
    if r.Next? {
      assert r.m.pc == 1;
      assert Step(prog[1], p, wirelen, r.m) == Return(1);
      assert Run(prog, p, wirelen, r.m) == Return(1);
    }
  }

  /** The condition on chains is needed: with no empty buffer, all accepted programs
      agree on the two representations if and only if the packet is shorter than a
      word or no inner buffer is shorter than three bytes. */
  lemma SameOnChainIff(chain: Chain, wirelen: u32)
    requires NoEmpty(chain) && 0 < |Flatten(chain)| < TWO32
    ensures (forall prog :: Accepted(prog) && !Overflows(prog, Flat(Flatten(chain)), wirelen, START)
               ==> Run(prog, Chained(chain), wirelen, START) == Run(prog, Flat(Flatten(chain)), wirelen, START))
        <==> |Flatten(chain)| < 4 || MiddleLong(chain)
  {
    var flat := Flat(Flatten(chain));
    if |Flatten(chain)| < 4 || MiddleLong(chain) {
      forall prog | Accepted(prog) && !Overflows(prog, flat, wirelen, START)
        ensures Run(prog, Chained(chain), wirelen, START) == Run(prog, flat, wirelen, START)
      {
        SameOnChain(prog, chain, wirelen, START);
      }
    } else {
      var k := SplitWord(chain);
      var prog := LoadThenAccept(Word, k);
      LoadThenAcceptRuns(Word, k, Chained(chain), wirelen);
      LoadThenAcceptRuns(Word, k, flat, wirelen);
      assert Run(prog, Chained(chain), wirelen, START) != Run(prog, flat, wirelen, START);
    }
  }

  lemma GapWord(chain: Chain) returns (k: nat)
    requires !NoGap(chain)
    ensures k < |Flatten(chain)| && ChainHalf(chain, k) == Wild
  {
    var i :| 0 <= i < |chain| - 1 && |chain[i]| > 0 && |chain[i + 1]| == 0;
    k := StartOf(chain, i) + |chain[i]| - 1;
    LocateStart(chain, i, |chain[i]| - 1, 0);
    StartTail(chain, i);
  }

  /** That no empty buffer follows one with data is needed too: accepted programs
      are safe on a chain if and only if it has no such gap. */
  lemma SafeOnChainIff(chain: Chain, wirelen: u32)
    requires |chain| >= 1 && |Flatten(chain)| < TWO32
    ensures (forall prog :: Accepted(prog) ==> Run(prog, Chained(chain), wirelen, START).Return?) <==> NoGap(chain)
  {
    if NoGap(chain) {
      forall prog | Accepted(prog)
        ensures Run(prog, Chained(chain), wirelen, START).Return?
      {
        Soundness(prog, Chained(chain), wirelen);
      }
    } else {
      var k := GapWord(chain);
      var prog := LoadThenAccept(Half, k);
      LoadThenAcceptRuns(Half, k, Chained(chain), wirelen);
      assert Run(prog, Chained(chain), wirelen, START) == Fault;
    }
  }

  /** A program that loads the byte at offset 2^32, then accepts. */
  function FarByte(): Program {
    [Insn(BPF_LDX + BPF_IMM, 0, 0, 1), Insn(BPF_LD + BPF_B + BPF_IND, 0, 0, 0xffff_ffff), Insn(BPF_RET + BPF_K, 0, 0, 1)]
  }

  lemma FarByteAccepted()
    ensures var prog := FarByte();
      KindOf(prog[0].code) == IndexImm && KindOf(prog[1].code) == LoadInd(Byte) && KindOf(prog[2].code) == RetConst
    ensures Accepted(FarByte())
  {
    var prog := FarByte();
    assert KindOf(prog[0].code) == IndexImm && KindOf(prog[1].code) == LoadInd(Byte) && KindOf(prog[2].code) == RetConst;
    assert LocalOk(prog, 0) && LocalOk(prog, 1) && LocalOk(prog, 2);
  }

  lemma FarByteRuns(p: Packet, wirelen: u32)
    ensures Accepted(FarByte())
    ensures Run(FarByte(), p, wirelen, START) ==
      match Load(p, Byte, IndexedOffset(p, 1, 0xffff_ffff)) case Value(_) => Return(1) case Outside => Return(0) case Wild => Fault
  {
    var prog := FarByte();
    FarByteAccepted();
    var m1 := START.(pc := 1, x := 1);
    assert Step(prog[0], p, wirelen, START) == Next(m1);
    var r := Step(prog[1], p, wirelen, m1);
    if r.Next? {
      assert Run(prog, p, wirelen, r.m) == Return(1);
    }
    assert Run(prog, p, wirelen, m1) == Run(prog, p, wirelen, START);
  }

  /** An overflowing index tells the representations apart: offset 2^32 is outside
      any buffer but wraps to the first byte of a chain. */
  lemma OverflowDiffers(b: u8, wirelen: u32)
    ensures Accepted(FarByte())
    ensures Run(FarByte(), Flat([b]), wirelen, START) == Return(0)
    ensures Run(FarByte(), Chained([[b]]), wirelen, START) == Return(1)
  {
    FarByteRuns(Flat([b]), wirelen);
    FarByteRuns(Chained([[b]]), wirelen);
    assert Locate([[b]], 0, 0) == Place(0, 0);
  }
}
