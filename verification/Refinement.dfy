/** The interpreter refines the reference machine: decoding, memory and one step. */
module Refinement {
  import opened Words
  import opened Wrappers
  import opened Interface
  import opened BitTools
  import opened Opcode
  import opened Calculate
  import opened Registry
  import opened Memory
  import opened Machine
  import Codec
  import Arithmetic
  import R = Reference

  // ---- decoding ----

  function ConditionOf(kind: BranchKind): R.Condition {
    match kind
    case Beq => R.EQ
    case Bne => R.NE
    case Blt => R.LT
    case Bge => R.GE
    case Bltu => R.LTU
    case Bgeu => R.GEU
  }

  predicate SignExtends(kind: LoadKind) {
    kind == Lb || kind == Lh || kind == Lw
  }

  /** The instruction that a handler executes on a given word: registers and immediates as it decodes them. */
  function InstructionOf(op: Op, w: Word): R.Instruction {
    var rd, rs1, rs2 := GetRd(w), GetRs1(w), GetRs2(w);
    match op
    case Lui => R.Lui(rd, DecodeU(w))
    case Auipc => R.Auipc(rd, DecodeU(w))
    case Jal => R.Jal(rd, Signed(DecodeJ(w)))
    case Jalr => R.Jalr(rd, rs1, Signed(DecodeI(w)))
    case Branch(k) => R.Branch(ConditionOf(k), rs1, rs2, Signed(DecodeB(w)))
    case Load(k) => R.Load(LoadSize(k), SignExtends(k), rd, rs1, Signed(DecodeI(w)))
    case Store(k) => R.Store(StoreSize(k), rs1, rs2, Signed(DecodeS(w)))
    case IntImm(k) => R.Imm(Arithmetic.AluOpOfImm(k), rd, rs1, Signed(DecodeI(w)))
    case ShiftImm(k) => R.Imm(Arithmetic.AluOpOfShift(k), rd, rs1, ShiftData(w))
    case IntReg(k) => R.Reg(Arithmetic.AluOpOfReg(k), rd, rs1, rs2)
    case Math(k) => R.Reg(Arithmetic.AluOpOfMath(k), rd, rs1, rs2)
    case Fence => R.Fence
    case FenceI => R.Fence
    case EnvCall => if DecodeIU(w) == 0 then R.Ecall else R.Ebreak
    case Csr(_) => R.Csr
  }

  lemma FuncTwelve(w: Word)
    ensures DecodeIU(w) == R.Slice(w, 31, 20)
  {
    hide Pow2, ShiftBits;
    Codec.SmallPowers();
    ShiftBitsIsField(20, 0, 12, w);
  }

  /** The shift amount of an immediate shift is the five-bit field of rs2. */
  lemma ShiftDataIsRs2(w: Word)
    ensures ShiftData(w) == GetRs2(w)
  {
    hide Bit, Bitwise, Pow2, ShiftBits, GetBits, MakeMask;
    BitLaws();
    FieldLaws();
    MaskBits(0, 5);
    SameWord(ShiftData(w), GetRs2(w));
  }

  /** The instruction listing of the tables, as the reference decoder states it. */
  function Listed(w: Word): Option<R.Instruction> {
    match Listing(GetCode(w), GetFunc3(w), GetFunc7(w))
    case Some(op) => Some(InstructionOf(op, w))
    case None => None
  }

  lemma DecodeOp(w: Word)
    requires GetCode(w) == Opcode.OP
    ensures R.Decode(w) == Listed(w)
  {
    hide DecodeI, DecodeS, DecodeB, DecodeJ, DecodeU, ShiftData, ExtendSign, R.ImmI, R.ImmS, R.ImmB, R.ImmJ, R.ImmU;
    hide R.Slice, GetCode, GetRd, GetRs1, GetRs2, GetFunc3, GetFunc7;
    Codec.DecodedImmediates(w);
    ShiftDataIsRs2(w);
    Codec.DecodedSlices(w);
    assert GetFunc3(w) in {0, 1, 2, 3, 4, 5, 6, 7};
  }

  lemma DecodeOpImm(w: Word)
    requires GetCode(w) == OP_IMM
    ensures R.Decode(w) == Listed(w)
  {
    hide DecodeI, DecodeS, DecodeB, DecodeJ, DecodeU, ShiftData, ExtendSign, R.ImmI, R.ImmS, R.ImmB, R.ImmJ, R.ImmU;
    hide R.Slice, R.ImmI, GetCode, GetRd, GetRs1, GetRs2, GetFunc3, GetFunc7;
    Codec.DecodedImmediates(w);
    ShiftDataIsRs2(w);
    Codec.DecodedSlices(w);
    assert GetFunc3(w) in {0, 1, 2, 3, 4, 5, 6, 7};
  }

  lemma DecodeMemory(w: Word)
    requires GetCode(w) == LOAD || GetCode(w) == STORE || GetCode(w) == BRANCH
    ensures R.Decode(w) == Listed(w)
  {
    hide DecodeI, DecodeS, DecodeB, DecodeJ, DecodeU, ShiftData, ExtendSign, R.ImmI, R.ImmS, R.ImmB, R.ImmJ, R.ImmU;
    hide R.Slice, R.ImmI, R.ImmS, R.ImmB, GetCode, GetRd, GetRs1, GetRs2, GetFunc3, GetFunc7;
    Codec.DecodedImmediates(w);
    ShiftDataIsRs2(w);
    Codec.DecodedSlices(w);
    assert GetFunc3(w) in {0, 1, 2, 3, 4, 5, 6, 7};
  }

  lemma DecodeJumps(w: Word)
    requires GetCode(w) in {LUI, AUIPC, JAL, JALR}
    ensures R.Decode(w) == Listed(w)
  {
    hide DecodeI, DecodeS, DecodeB, DecodeJ, DecodeU, ShiftData, ExtendSign, R.ImmI, R.ImmS, R.ImmB, R.ImmJ, R.ImmU;
    hide R.Slice, R.ImmI, R.ImmJ, R.ImmU, GetCode, GetRd, GetRs1, GetRs2, GetFunc3, GetFunc7;
    Codec.DecodedImmediates(w);
    ShiftDataIsRs2(w);
    Codec.DecodedSlices(w);
  }

  lemma DecodeRest(w: Word)
    requires GetCode(w) !in {LOAD, STORE, BRANCH, Opcode.OP, OP_IMM, LUI, AUIPC, JAL, JALR}
    ensures R.Decode(w) == Listed(w)
  {
    hide R.Slice, GetCode, GetRd, GetRs1, GetRs2, GetFunc3, GetFunc7, DecodeIU;
    Codec.DecodedSlices(w);
    FuncTwelve(w);
    assert GetFunc3(w) in {0, 1, 2, 3, 4, 5, 6, 7};
  }

  /** For every word, the reference decoder and the lookup in the full registry agree. */
  lemma DecodeAgrees(w: Word)
    ensures R.Decode(w) == match Find(FullIndex(), w) { case Some(h) => Some(InstructionOf(h.op, w)) case None => None }
  {
    hide R.Decode, Listing, InstructionOf, Find, FullIndex, HandlerOf, GetCode, GetFunc3, GetFunc7;
    TableLookup(w);
    if Listing(GetCode(w), GetFunc3(w), GetFunc7(w)).Some? {
      OpOfHandler(Listing(GetCode(w), GetFunc3(w), GetFunc7(w)).value);
    }
    if GetCode(w) == Opcode.OP {
      DecodeOp(w);
    } else if GetCode(w) == OP_IMM {
      DecodeOpImm(w);
    } else if GetCode(w) == LOAD || GetCode(w) == STORE || GetCode(w) == BRANCH {
      DecodeMemory(w);
    } else if GetCode(w) in {LUI, AUIPC, JAL, JALR} {
      DecodeJumps(w);
    } else {
      DecodeRest(w);
    }
  }

  // ---- memory ----

  ghost function Regions(m: Blocks): set<(int, int)> {
    set k | k in m :: (k as int, |m[k]| as int)
  }

  /** The reference state that a machine state stands for. */
  ghost function Abs(s: State): R.State {
    R.State(s.x, s.pc, Flat(s.mem), Regions(s.mem), s.running)
  }

  /** A lookup succeeds iff the access stays within one region. */
  lemma LookupAgrees(s: State, address: Word, n: Word)
    requires MemoryOk(s.mem) && 1 <= n <= 4
    ensures FindBlock(s.mem, address, n).Some? <==> R.Accessible(Abs(s), address, n)
  {
    hide FindBlock, Flat;
    RoomyNoWrap(s.mem, address, n);
    FindBlockExact(s.mem, address, n);
    if FindBlock(s.mem, address, n).Some? {
      var k := FindBlock(s.mem, address, n).value;
      assert (k as int, |s.mem[k]| as int) in Regions(s.mem);
    }
    if R.Accessible(Abs(s), address, n) {
      var r :| r in Regions(s.mem) && r.0 <= address && address + n <= r.0 + r.1;
    }
  }

  lemma {:induction false} PeekIsFromBytes(flat: FlatMemory, address: int, bytes: seq<Byte>)
    requires forall x :: address <= x < address + |bytes| ==> x in flat && flat[x] == bytes[x - address]
    ensures R.Peek(flat, address, |bytes|) == FromBytes(bytes)
    decreases |bytes|
  {
    if bytes != [] {
      PeekIsFromBytes(flat, address + 1, bytes[1..]);
    }
  }

  /** The bytes a lookup finds form the little-endian number of flat memory. */
  lemma ReadAgrees(m: Blocks, address: Word, n: Word)
    requires MemoryOk(m) && 1 <= n <= 4 && FindBlock(m, address, n).Some?
    ensures R.Peek(Flat(m), address, n) == WordOf(BytesAt(m, address, n))
  {
    hide FindBlock, Flat;
    InBlock(m, address, n);
    var k := FindBlock(m, address, n).value;
    FlatSlice(m, k, address, n);
    PeekIsFromBytes(Flat(m), address, BytesAt(m, address, n));
  }

  lemma PokeIsOverlay(flat: FlatMemory, address: int, n: nat, value: Word)
    ensures R.Poke(flat, address, n, value) == Overlay(flat, address, ToBytes(value, n))
  {
    forall a | a in flat && address <= a < address + n
      ensures ToBytes(value, n)[a - address] == value / Pow2(8 * (a - address)) % 0x100
    {
      ToBytesAt(value, n, a - address);
    }
  }

  lemma SameRegions(m: Blocks, m': Blocks)
    requires SameExtents(m, m')
    ensures Regions(m') == Regions(m)
  {
  }

  /** `write_memory` is the reference store, or neither happens. */
  lemma WriteAgrees(s: State, address: Word, n: Byte, value: Word)
    requires MemoryOk(s.mem)
    ensures WriteMemory(s, address, n, value).Completed? <==>
            1 <= n <= 4 && address % n == 0 && R.Accessible(Abs(s), address, n)
    ensures WriteMemory(s, address, n, value).Completed? ==>
              Abs(WriteMemory(s, address, n, value).state) == Abs(s).(mem := R.Poke(Flat(s.mem), address, n, value))
    ensures WriteMemory(s, address, n, value).Thrown? ==> WriteMemory(s, address, n, value) == Thrown(DataAccessError, s)
  {
    hide FindBlock, Flat, Patch, ToBytes, R.Poke, Overlay, R.Accessible;
    if 1 <= n <= 4 && address % n == 0 {
      LookupAgrees(s, address, n);
      if FindBlock(s.mem, address, n).Some? {
        InBlock(s.mem, address, n);
        var k := FindBlock(s.mem, address, n).value;
        FlatOfPatch(s.mem, k, address, ToBytes(value, n));
        PokeIsOverlay(Flat(s.mem), address, n, value);
        SameRegions(s.mem, s.mem[k := Patch(s.mem[k], address - k, ToBytes(value, n))]);
      }
    }
  }

  /** An instruction fetch at an aligned mapped address reads the word that `lw` reads there. */
  lemma FetchIsLoadWord(s: State)
    requires Ready(s) && s.pc % 4 == 0
    ensures ReadMemory(s.mem, s.pc, 4) == Some(WordOf(BytesAt(s.mem, s.pc, 4)))
    ensures WordOf(BytesAt(s.mem, s.pc, 4)) == R.Peek(Flat(s.mem), s.pc, 4)
  {
    hide FindBlock, Flat;
    ReadAgrees(s.mem, s.pc, 4);
  }

  // ---- one step ----

  function ErrorOf(trap: R.Trap): Error {
    match trap
    case FetchFault => DataAccessError
    case TargetMisaligned => CodeAccessError
    case TargetUnmapped => CodeAccessError
    case DataFault => DataAccessError
    case IllegalInstruction => UnknownInstruction
    case CsrUnsupported => ControlAccessError
    case UnknownCall => UnknownSyscall
    case CallRaised(error) => error
  }

  /** A step completes iff the reference steps to a program counter that can be fetched from, and then
      to the same state; otherwise it throws the exception of the trap, or of the target address. */
  ghost predicate Agrees(o: Outcome, r: R.Result) {
    && (o.Completed? <==> r.Next? && R.Fetchable(r.state))
    && (o.Completed? ==> Abs(o.state) == r.state)
    && (o.Thrown? ==> o.error == if r.Next? then CodeAccessError else ErrorOf(r.trap))
  }

  /** The part of a step before `inc_pc`: it has the reference's effect except for the program counter,
      or throws the exception of the reference's trap. */
  ghost predicate EffectAgrees(o: Outcome, r: R.Result) {
    && (o.Completed? ==> r == R.Next(R.Advance(Abs(o.state))))
    && (o.Thrown? ==> r.Trapped? && o.error == ErrorOf(r.trap))
  }

  lemma SetPcAgrees(s: State, value: Word)
    requires Shaped(s)
    ensures Agrees(SetPc(s, value), R.Next(Abs(s).(pc := value)))
  {
    hide FindBlock, Flat, MemoryOk, R.Accessible;
    LookupAgrees(s, value, 4);
    AccessibleAnywhere(Abs(s), Abs(s).(pc := value), value, 4);
  }

  /** Accessibility depends on the regions alone. */
  lemma AccessibleAnywhere(s: R.State, s': R.State, address: int, n: int)
    requires s.regions == s'.regions
    ensures R.Accessible(s, address, n) == R.Accessible(s', address, n)
  {
  }

  lemma RegistersAgree(s: State, r: nat, value: Word)
    requires |s.x| == 32 && r < 32
    ensures GetRegister(s, r) == R.X(Abs(s), r)
    ensures SetRegister(s, r, value).Completed? && Abs(SetRegister(s, r, value).state) == R.Write(Abs(s), r, value)
  {
  }

  lemma SignedWord(w: Word)
    ensures ToWord(Signed(w)) == w
  {
  }

  /** The value a computing handler produces, in the reference's terms. */
  function ReferenceResult(op: Op, w: Word, pc: Word, lhs: Word, rhs: Word): Word
    requires Computes(op)
  {
    match op
    case Lui => ToWord(R.ImmU(w))
    case Auipc => ToWord(pc + R.ImmU(w))
    case IntImm(k) => R.Alu(Arithmetic.AluOpOfImm(k), lhs, ToWord(R.ImmI(w)))
    case ShiftImm(k) => R.Alu(Arithmetic.AluOpOfShift(k), lhs, ToWord(GetRs2(w)))
    case IntReg(k) => R.Alu(Arithmetic.AluOpOfReg(k), lhs, rhs)
    case Math(k) => R.Alu(Arithmetic.AluOpOfMath(k), lhs, rhs)
  }

  lemma ResultAgrees(op: Op, w: Word, pc: Word, lhs: Word, rhs: Word)
    requires Computes(op)
    ensures Result(op, w, pc, lhs, rhs) == ReferenceResult(op, w, pc, lhs, rhs)
  {
    hide GetRd, GetRs1, GetRs2, DecodeU, DecodeI, ShiftData, R.ImmU, R.ImmI, R.Alu;
    hide R.ImmS, R.ImmB, R.ImmJ, R.Slice, DecodeS, DecodeB, DecodeJ, Pow2, ExtendSign;
    hide ImmResult, ShiftResult, RegResult, MathResult, Arithmetic.AluOpOfImm, Arithmetic.AluOpOfShift, Arithmetic.AluOpOfReg, Arithmetic.AluOpOfMath;
    match op
    case IntReg(k) => Arithmetic.RegisterOperation(k, lhs, rhs);
    case Math(k) => Arithmetic.MathOperation(k, lhs, rhs);
    case ShiftImm(k) =>
      ShiftDataIsRs2(w);
      Arithmetic.ShiftOperation(k, lhs, GetRs2(w));
    case IntImm(k) =>
      Codec.DecodedImmediates(w);
      SignedWord(DecodeI(w));
      Arithmetic.ImmediateOperation(k, lhs, DecodeI(w));
    case Lui => Codec.DecodedImmediates(w);
    case Auipc => Codec.DecodedImmediates(w);
  }

  lemma ExecuteComputing(op: Op, w: Word, s: R.State, env: Environment, script: seq<SysAction>)
    requires Computes(op)
    ensures R.Execute(InstructionOf(op, w), s, env, script) ==
            R.Next(R.Advance(R.Write(s, GetRd(w), ReferenceResult(op, w, s.pc, R.X(s, GetRs1(w)), R.X(s, GetRs2(w))))))
  {
    hide DecodeI, DecodeS, DecodeB, DecodeJ, DecodeU, ShiftData, ExtendSign, R.ImmI, R.ImmS, R.ImmB, R.ImmJ, R.ImmU;
    Codec.DecodedImmediates(w);
    ShiftDataIsRs2(w);
    hide GetRd, GetRs1, GetRs2, R.ImmU, R.ImmI, R.Alu, R.Perform, R.X, R.Write, R.Advance, DecodeIU;
    hide Arithmetic.AluOpOfImm, Arithmetic.AluOpOfShift, Arithmetic.AluOpOfReg, Arithmetic.AluOpOfMath;
  }

  /** Handlers that only compute a value have the reference's effect. */
  lemma ComputedEffect(op: Op, w: Word, s: State, env: Environment, script: seq<SysAction>)
    requires Shaped(s) && Computes(op) && ValidScript(script)
    ensures EffectAgrees(Exec(op, w, s, env, script), R.Execute(InstructionOf(op, w), Abs(s), env, script))
  {
    hide GetRd, GetRs1, GetRs2, Abs, MemoryOk, R.Execute, InstructionOf, Result, ReferenceResult, GetRegister, R.Advance;
    assert GetRd(w) < 32 && GetRs1(w) < 32 && GetRs2(w) < 32;
    RegistersAgree(s, GetRs1(w), 0);
    RegistersAgree(s, GetRs2(w), 0);
    var lhs, rhs := GetRegister(s, GetRs1(w)), GetRegister(s, GetRs2(w));
    ResultAgrees(op, w, s.pc, lhs, rhs);
    AbsPc(s);
    ExecuteComputing(op, w, Abs(s), env, script);
    RegistersAgree(s, GetRd(w), Result(op, w, s.pc, lhs, rhs));
  }

  lemma AbsPc(s: State)
    ensures Abs(s).pc == s.pc && Abs(s).regions == Regions(s.mem) && Abs(s).mem == Flat(s.mem)
  {
  }

  // ---- jumps and branches ----

  lemma JumpAgrees(s: State, target: Word, rd: nat)
    requires Shaped(s) && rd < 32
    ensures Agrees(JumpAbs(SetRegister(s, rd, ToWord(s.pc + 4)).state, target), R.Jump(Abs(s), target, rd))
  {
    hide FindBlock, Flat, MemoryOk, SetPc, R.Fetchable;
    RegistersAgree(s, rd, ToWord(s.pc + 4));
    SetPcAgrees(SetRegister(s, rd, ToWord(s.pc + 4)).state, target);
  }

  /** Clearing the lowest bit, as JALR does. */
  lemma ClearLowBit(w: Word)
    ensures And(w, Not(1)) == R.ClearBit0(w)
  {
    hide Bitwise, Pow2;
    BitLaws();
    forall i: nat
      ensures Bit(1, i) == (i == 0)
      ensures Bit(w - w % 2, i) == (i > 0 && Bit(w, i))
    {
      if i > 0 {
        NoHighBits(0, 0, i - 1);
        assert (w - w % 2) / 2 == w / 2;
      }
    }
    SameWord(And(w, Not(1)), w - w % 2);
  }

  lemma JalAgrees(w: Word, s: State)
    requires Shaped(s)
    ensures Agrees(ExecJal(w, s), R.Jump(Abs(s), ToWord(s.pc + R.ImmJ(w)), GetRd(w)))
  {
    hide MemoryOk, GetRd, Agrees, Abs, R.ImmJ, R.ImmI, R.ImmS, R.ImmB, R.ImmU, R.Jump, JumpAbs, DecodeJ, DecodeI, DecodeS, DecodeB, DecodeU;
    assert GetRd(w) < 32;
    Codec.DecodedImmediates(w);
    JumpAgrees(s, ToWord(s.pc + R.ImmJ(w)), GetRd(w));
  }

  lemma JalrAgrees(w: Word, s: State)
    requires Shaped(s)
    ensures Agrees(ExecJalr(w, s), R.Jump(Abs(s), R.ClearBit0(ToWord(R.X(Abs(s), GetRs1(w)) + R.ImmI(w))), GetRd(w)))
  {
    hide MemoryOk, GetRd, GetRs1, Agrees, Abs, R.ImmJ, R.ImmI, R.ImmS, R.ImmB, R.ImmU, R.Jump, JumpAbs, R.X, GetRegister;
    hide DecodeJ, DecodeI, DecodeS, DecodeB, DecodeU, And;
    assert GetRd(w) < 32 && GetRs1(w) < 32;
    Codec.DecodedImmediates(w);
    RegistersAgree(s, GetRs1(w), 0);
    var sum := ToWord(R.X(Abs(s), GetRs1(w)) + R.ImmI(w));
    ClearLowBit(sum);
    JumpAgrees(s, R.ClearBit0(sum), GetRd(w));
  }

  lemma CompareAgrees(kind: BranchKind, lhs: Word, rhs: Word)
    ensures Compare(kind, lhs, rhs) == R.Holds(ConditionOf(kind), lhs, rhs)
  {
  }

  lemma BranchAgrees(kind: BranchKind, w: Word, s: State)
    requires Shaped(s)
    ensures Agrees(ExecBranch(kind, w, s),
              if R.Holds(ConditionOf(kind), R.X(Abs(s), GetRs1(w)), R.X(Abs(s), GetRs2(w)))
              then R.Jump(Abs(s), ToWord(s.pc + R.ImmB(w)), 0) else R.Next(R.Advance(Abs(s))))
  {
    hide MemoryOk, GetRs1, GetRs2, Agrees, Abs, R.ImmJ, R.ImmI, R.ImmS, R.ImmB, R.ImmU, R.Jump, JumpAbs, R.X, GetRegister, IncPc;
    hide DecodeJ, DecodeI, DecodeS, DecodeB, DecodeU, R.Advance, Compare, R.Holds;
    assert GetRs1(w) < 32 && GetRs2(w) < 32;
    Codec.DecodedImmediates(w);
    RegistersAgree(s, GetRs1(w), 0);
    RegistersAgree(s, GetRs2(w), 0);
    CompareAgrees(kind, GetRegister(s, GetRs1(w)), GetRegister(s, GetRs2(w)));
    JumpAgrees(s, ToWord(s.pc + R.ImmB(w)), 0);
    assert SetRegister(s, 0, ToWord(s.pc + 4)) == Completed(s);
    AdvanceAgrees(s);
  }

  lemma AdvanceAgrees(s: State)
    requires Shaped(s)
    ensures Agrees(IncPc(s), R.Next(R.Advance(Abs(s))))
  {
    hide FindBlock, Flat, MemoryOk, SetPc, R.Fetchable;
    SetPcAgrees(s, ToWord(s.pc + 4));
  }

  /** The handlers that set the program counter themselves step like the reference. */
  lemma SkippingAgrees(op: Op, w: Word, s: State, env: Environment, script: seq<SysAction>)
    requires Shaped(s) && Skips(op) && ValidScript(script)
    ensures Agrees(ExecAndAdvance(op, w, s, env, script), R.Execute(InstructionOf(op, w), Abs(s), env, script))
  {
    hide DecodeI, DecodeS, DecodeB, DecodeJ, DecodeU, ShiftData, ExtendSign, R.ImmI, R.ImmS, R.ImmB, R.ImmJ, R.ImmU;
    Codec.DecodedImmediates(w);
    ShiftDataIsRs2(w);
    hide MemoryOk, GetRd, GetRs1, GetRs2, Agrees, Abs, R.ImmJ, R.ImmI, R.ImmB, R.Jump, R.X, R.Advance, ExecJal, ExecJalr, ExecBranch, R.Holds, ConditionOf;
    AbsPc(s);
    match op
    case Jal => JalAgrees(w, s);
    case Jalr => JalrAgrees(w, s);
    case Branch(k) => BranchAgrees(k, w, s);
  }

  // ---- loads and stores ----

  lemma HighMask(p: nat)
    requires p < 32
    ensures 1 <= Pow2(p) <= TWO32 && MakeMask(p, 32 - p) == TWO32 - Pow2(p)
  {
    hide Bit, Bitwise, Pow2, MakeMask;
    HighOnes(p, 0);
    MaskBits(p, 32 - p);
    var mask: Word, ones: Word := MakeMask(p, 32 - p), TWO32 - Pow2(p);
    forall i: nat | i < 32
      ensures Bit(mask, i) == Bit(ones, i)
    {
      HighOnes(p, i);
    }
    SameWord(mask, ones);
  }

  lemma SignTest(value: Word, p: nat)
    requires p < 32 && value < Pow2(p + 1)
    ensures And(value, MakeMask(p, 1)) != 0 <==> value >= Pow2(p)
  {
    hide Bit, Bitwise, Pow2, MakeMask;
    BitLaws();
    MaskBits(p, 1);
    TopBit(value, p);
    forall i: nat
      ensures !Bit(0, i)
    {
      NoHighBits(0, 0, i);
    }
    assert Bit(And(value, MakeMask(p, 1)), p) == Bit(value, p);
    if !Bit(value, p) {
      SameWord(And(value, MakeMask(p, 1)), 0);
    }
  }

  /** Testing the sign bit of a (p+1)-bit number and joining ones above it is sign extension. */
  lemma MaskedExtension(value: Word, p: nat)
    requires p < 31 && value < Pow2(p + 1)
    ensures (if And(value, MakeMask(p, 1)) != 0 then Or(MakeMask(p + 1, 31 - p), value) else value) ==
            ToWord(if value >= Pow2(p) then value - 2 * Pow2(p) else value)
  {
    hide Bit, Bitwise, Pow2, MakeMask, And, Or;
    SignTest(value, p);
    HighMask(p + 1);
    Pow2Next(p);
    MaskBits(p + 1, 31 - p);
    forall i: nat | p + 1 <= i
      ensures !Bit(value, i)
    {
      NoHighBits(value, p + 1, i);
    }
    OrIsSum(MakeMask(p + 1, 31 - p), value);
  }

  /** What a load leaves in the register: the bytes' number, sign extended for LB and LH. */
  lemma LoadedValue(kind: LoadKind, value: Word)
    requires value < Pow2(8 * LoadSize(kind))
    ensures var half := Pow2(8 * LoadSize(kind) - 1);
            Loaded(kind, value) == ToWord(if SignExtends(kind) && value >= half then value - 2 * half else value)
  {
    hide Pow2, MakeMask, And, Or;
    match kind
    case Lb => MaskedExtension(value, 7);
    case Lh => MaskedExtension(value, 15);
    case Lw => Pow2Of32();
    case Lbu =>
    case Lhu =>
  }

  lemma LoadEffect(kind: LoadKind, w: Word, s: State, env: Environment, script: seq<SysAction>)
    requires Shaped(s)
    ensures EffectAgrees(ExecLoad(kind, w, s), R.Execute(InstructionOf(Load(kind), w), Abs(s), env, script))
  {
    hide Disjoint, Roomy, GetRd, GetRs1, GetRs2, R.ImmI, R.ImmS, R.ImmB, R.ImmJ, R.ImmU, R.X, R.Write, R.Advance, GetRegister;
    hide DecodeI, DecodeS, DecodeB, DecodeJ, DecodeU, FindBlock, R.Accessible, R.Peek, WordOf, BytesAt, Loaded, Flat, Abs, Pow2;
    assert GetRd(w) < 32 && GetRs1(w) < 32;
    AbsPc(s);
    RegistersAgree(s, GetRs1(w), 0);
    Codec.DecodedImmediates(w);
    var n := LoadSize(kind);
    var address := ToWord(R.X(Abs(s), GetRs1(w)) + R.ImmI(w));
    LookupAgrees(s, address, n);
    if address % n == 0 && FindBlock(s.mem, address, n).Some? {
      ReadAgrees(s.mem, address, n);
      var value := WordOf(BytesAt(s.mem, address, n));
      WordBound(BytesAt(s.mem, address, n));
      LoadedValue(kind, value);
      RegistersAgree(s, GetRd(w), Loaded(kind, value));
    }
  }

  lemma WordBound(bytes: seq<Byte>)
    requires |bytes| <= 4
    ensures WordOf(bytes) < Pow2(8 * |bytes|)
  {
    FromBytesBound(bytes);
  }

  lemma StoreEffect(kind: StoreKind, w: Word, s: State, env: Environment, script: seq<SysAction>)
    requires Shaped(s)
    ensures EffectAgrees(ExecStore(kind, w, s), R.Execute(InstructionOf(Store(kind), w), Abs(s), env, script))
  {
    hide MemoryOk, GetRd, GetRs1, GetRs2, R.ImmI, R.ImmS, R.ImmB, R.ImmJ, R.ImmU, R.X, R.Write, R.Poke, R.Advance, GetRegister;
    hide DecodeI, DecodeS, DecodeB, DecodeJ, DecodeU, FindBlock, R.Accessible, WriteMemory, Flat, Abs;
    assert GetRs1(w) < 32 && GetRs2(w) < 32;
    AbsPc(s);
    RegistersAgree(s, GetRs1(w), 0);
    RegistersAgree(s, GetRs2(w), 0);
    Codec.DecodedImmediates(w);
    var address := ToWord(R.X(Abs(s), GetRs1(w)) + R.ImmS(w));
    WriteAgrees(s, address, StoreSize(kind), GetRegister(s, GetRs2(w)));
  }

  // ---- system calls and the rest ----

  /** A callback's call has the reference's effect, or throws with the reference's trap. */
  ghost predicate SameEffect(o: Outcome, r: R.Result) {
    && (o.Completed? <==> r.Next?)
    && (o.Completed? ==> Abs(o.state) == r.state)
    && (o.Thrown? ==> o.error == ErrorOf(r.trap))
  }

  lemma ActAgrees(s: State, action: SysAction)
    requires Shaped(s)
    requires action.CallReadMemory? ==> action.size >= 1
    ensures SameEffect(Act(s, action), R.Act(Abs(s), action))
  {
    hide Disjoint, Roomy, FindBlock, R.Accessible, WriteMemory, R.Poke, Flat, Regions, R.Write, BytesAt, WordOf;
    match action
    case CallSetRegister(r, value) => if r < 32 { RegistersAgree(s, r, value); }
    case CallReadMemory(address, size) => if size <= 4 { LookupAgrees(s, address, size); }
    case CallWriteMemory(address, size, value) => WriteAgrees(s, address, size, value);
    case CallJumpAbs(dest) => LookupAgrees(s, dest, 4);
    case CallHalt =>
    case CallRaise(_) =>
  }

  lemma {:induction false} PerformAgrees(s: State, script: seq<SysAction>)
    requires Shaped(s) && ValidScript(script)
    ensures SameEffect(Perform(s, script), R.Perform(Abs(s), script))
    decreases |script|
  {
    hide Shaped, Act, R.Act, Abs;
    if script != [] {
      ActAgrees(s, script[0]);
      if Act(s, script[0]).Completed? {
        PerformAgrees(Act(s, script[0]).state, script[1..]);
      }
    }
  }

  lemma SyscallEffect(s: State, env: Environment, script: seq<SysAction>)
    requires Shaped(s) && ValidScript(script)
    ensures EffectAgrees(Syscall(s, env, script), R.Execute(R.Ecall, Abs(s), env, script))
  {
    hide MemoryOk, Perform, R.Perform, R.Advance, Abs, GetRegister, R.X;
    RegistersAgree(s, 17, 0);
    PerformAgrees(s, script);
  }

  /** Every handler that does not set the program counter has its instruction's effect. */
  lemma EffectOf(op: Op, w: Word, s: State, env: Environment, script: seq<SysAction>)
    requires Shaped(s) && ValidScript(script) && !Skips(op)
    ensures EffectAgrees(Exec(op, w, s, env, script), R.Execute(InstructionOf(op, w), Abs(s), env, script))
  {
    if Computes(op) {
      ComputedEffect(op, w, s, env, script);
    } else {
      hide MemoryOk, Result, ExecLoad, ExecStore, Syscall, EffectAgrees, Abs, DecodeIU, GetRd, GetRs1, GetRs2;
      match op
      case Load(k) => LoadEffect(k, w, s, env, script);
      case Store(k) => StoreEffect(k, w, s, env, script);
      case EnvCall =>
        SyscallEffect(s, env, script);
        TrivialEffects(s, env, script);
      case Fence => TrivialEffects(s, env, script);
      case FenceI => TrivialEffects(s, env, script);
      case Csr(_) => TrivialEffects(s, env, script);
    }
  }

  lemma TrivialEffects(s: State, env: Environment, script: seq<SysAction>)
    ensures EffectAgrees(Completed(s), R.Execute(R.Fence, Abs(s), env, script))
    ensures EffectAgrees(Completed(s), R.Execute(R.Ebreak, Abs(s), env, script))
    ensures EffectAgrees(Thrown(ControlAccessError, s), R.Execute(R.Csr, Abs(s), env, script))
  {
  }

  lemma EffectThenAdvance(o: Outcome, r: R.Result)
    requires Shaped(o.state) && EffectAgrees(o, r)
    ensures Agrees(if o.Completed? then IncPc(o.state) else o, r)
  {
    hide MemoryOk, IncPc, Abs, R.Advance;
    if o.Completed? {
      AdvanceAgrees(o.state);
    }
  }

  /** Every handler steps like the instruction it stands for. */
  lemma ExecAgrees(op: Op, w: Word, s: State, env: Environment, script: seq<SysAction>)
    requires Shaped(s) && ValidScript(script)
    ensures Agrees(ExecAndAdvance(op, w, s, env, script), R.Execute(InstructionOf(op, w), Abs(s), env, script))
  {
    hide Shaped, EffectAgrees, Agrees, Exec, R.Execute, InstructionOf, Abs;
    if Skips(op) {
      SkippingAgrees(op, w, s, env, script);
    } else {
      EffectOf(op, w, s, env, script);
      EffectThenAdvance(Exec(op, w, s, env, script), R.Execute(InstructionOf(op, w), Abs(s), env, script));
    }
  }

  /** One step of the interpreter is one step of the reference machine. It completes iff the reference
      steps and the next instruction can be fetched; it then reaches the same registers, program
      counter and memory, even if it has overwritten its own instruction; otherwise it throws. */
  lemma StepRefines(s: State, env: Environment, script: seq<SysAction>)
    requires Ready(s) && ValidScript(script)
    ensures Agrees(Step(s, Config(FullIndex(), env), script), R.Step(Abs(s), env, script))
  {
    hide MemoryOk, FindBlock, Find, FullIndex, R.Decode, Flat, Regions, R.Accessible, ExecAndAdvance, R.Execute, InstructionOf, R.Peek, BytesAt, WordOf;
    LookupAgrees(s, s.pc, 4);
    if s.pc % 4 == 0 {
      FetchIsLoadWord(s);
      var w := WordOf(BytesAt(s.mem, s.pc, 4));
      DecodeAgrees(w);
      if Find(FullIndex(), w).Some? {
        ExecAgrees(Find(FullIndex(), w).value.op, w, s, env, script);
      }
    }
  }

  /** Whole runs, of any length and with any host: the interpreter completes iff the reference machine
      does with every program counter on the way mapped, and then in the same state. */
  lemma {:induction false} RunRefines(s: State, env: Environment, scripts: seq<seq<SysAction>>)
    requires Ready(s) && forall script | script in scripts :: ValidScript(script)
    ensures Run(s, Config(FullIndex(), env), scripts).Completed? ==>
              R.Run(Abs(s), env, scripts) == R.Next(Abs(Run(s, Config(FullIndex(), env), scripts).state))
    ensures Run(s, Config(FullIndex(), env), scripts).Completed? <==>
              AllFetchable(Abs(s), env, scripts) && R.Run(Abs(s), env, scripts).Next?
    decreases |scripts|
  {
    hide FullIndex, Ready, Step, R.Step, Abs, R.Fetchable;
    if Abs(s).running && scripts != [] {
      assert scripts[0] in scripts;
      StepRefines(s, env, scripts[0]);
      var o := Step(s, Config(FullIndex(), env), scripts[0]);
      if o.Completed? {
        RunRefines(o.state, env, scripts[1..]);
      }
    }
    AbsRunning(s);
  }

  lemma AbsRunning(s: State)
    ensures Abs(s).running == s.running
  {
  }

  /** Every state that the reference run reaches by a step can fetch its next instruction. */
  ghost predicate AllFetchable(s: R.State, env: Environment, scripts: seq<seq<SysAction>>)
    decreases |scripts|
  {
    !s.running || scripts == [] ||
    (var r := R.Step(s, env, scripts[0]);
     r.Next? ==> R.Fetchable(r.state) && AllFetchable(r.state, env, scripts[1..]))
  }
}
