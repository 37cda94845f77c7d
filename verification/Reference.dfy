/** RV32IM over mathematical integers and a flat byte memory, after the RISC-V Instruction Set
    Manual, Volume I, version 20191213: sections 2.2 to 2.8, 7.1 and 7.2. */
module Reference {
  import opened Words
  import opened Wrappers
  import opened Interface

  /** inst[hi:lo], in the notation of the manual's format tables. */
  function Slice(w: nat, hi: nat, lo: nat): nat
    requires lo <= hi
  {
    w / Pow2(lo) % Pow2(hi - lo + 1)
  }

  // Immediates of section 2.3: inst[31] is a sign bit, so it counts with a negative weight.
  function ImmI(w: Word): int {
    Slice(w, 30, 20) - 0x800 * Slice(w, 31, 31)
  }
  function ImmS(w: Word): int {
    Slice(w, 11, 7) + 0x20 * Slice(w, 30, 25) - 0x800 * Slice(w, 31, 31)
  }
  function ImmB(w: Word): int {
    2 * Slice(w, 11, 8) + 0x20 * Slice(w, 30, 25) + 0x800 * Slice(w, 7, 7) - 0x1000 * Slice(w, 31, 31)
  }
  function ImmU(w: Word): int {
    0x1000 * Slice(w, 31, 12)
  }
  function ImmJ(w: Word): int {
    2 * Slice(w, 30, 21) + 0x800 * Slice(w, 20, 20) + 0x1000 * Slice(w, 19, 12) - 0x10_0000 * Slice(w, 31, 31)
  }

  /** The computational instructions of sections 2.4, 7.1 and 7.2, register or immediate. */
  datatype AluOp =
    | ADD | SUB | SLL | SLT | SLTU | XOR | SRL | SRA | OR | AND
    | MUL | MULH | MULHSU | MULHU | DIV | DIVU | REM | REMU

  /** The integer quotient of x by y, rounded towards zero. */
  function Quotient(x: int, y: int): int
    requires y != 0
  {
    var magnitude := Abs(x) / Abs(y);
    if (x < 0) == (y < 0) then magnitude else -magnitude
  }

  function Abs(x: int): nat {
    if x < 0 then -x else x
  }

  /** The result of an operation on the numbers in its source registers, modulo 2^32. */
  function Alu(op: AluOp, a: Word, b: Word): Word {
    var (sa, sb) := (Signed(a), Signed(b));
    var shamt := b % 32;
    match op
    case ADD => ToWord(a + b)
    case SUB => ToWord(a - b)
    case SLL => ToWord(a * Pow2(shamt))
    case SLT => if sa < sb then 1 else 0
    case SLTU => if a < b then 1 else 0
    case XOR => Xor(a, b)
    case SRL => ToWord(a / Pow2(shamt))
    case SRA => ToWord(sa / Pow2(shamt))
    case OR => Or(a, b)
    case AND => And(a, b)
    case MUL => ToWord(sa * sb)
    case MULH => ToWord(sa * sb / TWO32)
    case MULHSU => ToWord(sa * b / TWO32)
    case MULHU => ToWord(a * b / TWO32)
    case DIV => if b == 0 then TWO32 - 1 else ToWord(Quotient(sa, sb))
    case DIVU => if b == 0 then TWO32 - 1 else ToWord(Quotient(a, b))
    case REM => if b == 0 then a else ToWord(sa - sb * Quotient(sa, sb))
    case REMU => if b == 0 then a else ToWord(a - b * Quotient(a, b))
  }

  // ---- instructions ----

  datatype Condition = EQ | NE | LT | GE | LTU | GEU

  datatype Instruction =
    | Lui(rd: nat, imm: int)
    | Auipc(rd: nat, imm: int)
    | Jal(rd: nat, offset: int)
    | Jalr(rd: nat, rs1: nat, offset: int)
    | Branch(condition: Condition, rs1: nat, rs2: nat, offset: int)
    | Load(width: nat, signed: bool, rd: nat, rs1: nat, offset: int)
    | Store(width: nat, rs1: nat, rs2: nat, offset: int)
    | Imm(op: AluOp, rd: nat, rs1: nat, imm: int)
    | Reg(op: AluOp, rd: nat, rs1: nat, rs2: nat)
    | Fence
    | Ecall
    | Ebreak
    | Csr

  /** The instruction listing of chapter 24, RV32I, Zifencei, Zicsr and RV32M. Every SYSTEM word with
      func3 = 0 other than ECALL is taken for EBREAK. */
  function Decode(w: Word): Option<Instruction> {
    var rd, rs1, rs2 := Slice(w, 11, 7), Slice(w, 19, 15), Slice(w, 24, 20);
    var funct3, funct7 := Slice(w, 14, 12), Slice(w, 31, 25);
    match Slice(w, 6, 0)
    case 0x37 => Some(Lui(rd, ImmU(w)))
    case 0x17 => Some(Auipc(rd, ImmU(w)))
    case 0x6F => Some(Jal(rd, ImmJ(w)))
    case 0x67 => if funct3 == 0 then Some(Jalr(rd, rs1, ImmI(w))) else None
    case 0x63 =>
      (match BranchCondition(funct3)
       case Some(c) => Some(Branch(c, rs1, rs2, ImmB(w)))
       case None => None)
    case 0x03 =>
      (match funct3
       case 0 => Some(Load(1, true, rd, rs1, ImmI(w)))
       case 1 => Some(Load(2, true, rd, rs1, ImmI(w)))
       case 2 => Some(Load(4, true, rd, rs1, ImmI(w)))
       case 4 => Some(Load(1, false, rd, rs1, ImmI(w)))
       case 5 => Some(Load(2, false, rd, rs1, ImmI(w)))
       case _ => None)
    case 0x23 => if funct3 < 3 then Some(Store([1, 2, 4][funct3], rs1, rs2, ImmS(w))) else None
    case 0x13 =>
      (match ImmediateOp(funct3, funct7)
       case Some(op) => Some(Imm(op, rd, rs1, if op in {SLL, SRL, SRA} then rs2 else ImmI(w)))
       case None => None)
    case 0x33 =>
      (match RegisterOp(funct3, funct7)
       case Some(op) => Some(Reg(op, rd, rs1, rs2))
       case None => None)
    case 0x0F => if funct3 < 2 then Some(Fence) else None
    case 0x73 =>
      if funct3 == 0 then Some(if Slice(w, 31, 20) == 0 then Ecall else Ebreak)
      else if funct3 == 4 then None
      else Some(Csr)
    case _ => None
  }

  function BranchCondition(funct3: nat): Option<Condition> {
    match funct3
    case 0 => Some(EQ)
    case 1 => Some(NE)
    case 4 => Some(LT)
    case 5 => Some(GE)
    case 6 => Some(LTU)
    case 7 => Some(GEU)
    case _ => None
  }

  /** Shift amounts are five bits, so the upper seven bits of their immediate select the shift. */
  function ImmediateOp(funct3: nat, funct7: nat): Option<AluOp> {
    match funct3
    case 0 => Some(ADD)
    case 1 => if funct7 == 0 then Some(SLL) else None
    case 2 => Some(SLT)
    case 3 => Some(SLTU)
    case 4 => Some(AluOp.XOR)
    case 5 => if funct7 == 0 then Some(SRL) else if funct7 == 0x20 then Some(SRA) else None
    case 6 => Some(AluOp.OR)
    case 7 => Some(AluOp.AND)
    case _ => None
  }

  function RegisterOp(funct3: nat, funct7: nat): Option<AluOp> {
    if funct3 >= 8 then None
    else if funct7 == 0 then Some([ADD, SLL, SLT, SLTU, AluOp.XOR, SRL, AluOp.OR, AluOp.AND][funct3])
    else if funct7 == 1 then Some([MUL, MULH, MULHSU, MULHU, DIV, DIVU, REM, REMU][funct3])
    else if funct7 == 0x20 && funct3 == 0 then Some(SUB)
    else if funct7 == 0x20 && funct3 == 5 then Some(SRA)
    else None
  }

  // ---- the machine ----

  /** Registers, program counter, byte memory, and the regions that one access must stay within. */
  datatype State = State(x: seq<Word>, pc: Word, mem: map<int, Byte>, regions: set<(int, int)>, running: bool)

  datatype Trap =
    | FetchFault | TargetMisaligned | TargetUnmapped | DataFault
    | IllegalInstruction | CsrUnsupported | UnknownCall | CallRaised(error: Error)

  datatype Result = Next(state: State) | Trapped(trap: Trap)

  predicate Accessible(s: State, address: int, n: int) {
    exists r | r in s.regions :: r.0 <= address && address + n <= r.0 + r.1
  }

  predicate Fetchable(s: State) {
    Accessible(s, s.pc, 4)
  }

  function X(s: State, r: nat): Word {
    if r == 0 || r >= |s.x| then 0 else s.x[r]
  }

  function Write(s: State, rd: nat, value: Word): State {
    if rd == 0 || rd >= |s.x| then s else s.(x := s.x[rd := value])
  }

  function Advance(s: State): State {
    s.(pc := ToWord(s.pc + 4))
  }

  /** The little-endian number in the `n` bytes from `address`. */
  function Peek(mem: map<int, Byte>, address: int, n: nat): nat
    decreases n
  {
    if n == 0 then 0
    else (if address in mem then mem[address] else 0) + 0x100 * Peek(mem, address + 1, n - 1)
  }

  /** Memory with the low `n` bytes of `value` stored from `address` on. */
  function Poke(mem: map<int, Byte>, address: int, n: nat, value: Word): map<int, Byte> {
    map a | a in mem :: if address <= a < address + n then value / Pow2(8 * (a - address)) % 0x100 else mem[a]
  }

  predicate Holds(c: Condition, a: Word, b: Word) {
    match c
    case EQ => a == b
    case NE => a != b
    case LT => Signed(a) < Signed(b)
    case GE => Signed(a) >= Signed(b)
    case LTU => a < b
    case GEU => a >= b
  }

  function Jump(s: State, target: Word, rd: nat): Result {
    if target % 4 != 0 then Trapped(TargetMisaligned)
    else Next(Write(s, rd, ToWord(s.pc + 4)).(pc := target))
  }

  function ClearBit0(w: Word): Word {
    w - w % 2
  }

  /** One instruction; a trap leaves the state as it was. */
  function Execute(i: Instruction, s: State, env: Environment, script: seq<SysAction>): Result {
    match i
    case Lui(rd, imm) => Next(Advance(Write(s, rd, ToWord(imm))))
    case Auipc(rd, imm) => Next(Advance(Write(s, rd, ToWord(s.pc + imm))))
    case Jal(rd, offset) => Jump(s, ToWord(s.pc + offset), rd)
    case Jalr(rd, rs1, offset) =>
      Jump(s, ClearBit0(ToWord(X(s, rs1) + offset)), rd)
    case Branch(c, rs1, rs2, offset) =>
      if Holds(c, X(s, rs1), X(s, rs2)) then Jump(s, ToWord(s.pc + offset), 0) else Next(Advance(s))
    case Load(width, signed, rd, rs1, offset) =>
      var address := ToWord(X(s, rs1) + offset);
      if width == 0 || address % width != 0 || !Accessible(s, address, width) then Trapped(DataFault)
      else
        var value := Peek(s.mem, address, width);
        var half := Pow2(8 * width - 1);
        Next(Advance(Write(s, rd, ToWord(if signed && value >= half then value - 2 * half else value))))
    case Store(width, rs1, rs2, offset) =>
      var address := ToWord(X(s, rs1) + offset);
      if width == 0 || address % width != 0 || !Accessible(s, address, width) then Trapped(DataFault)
      else Next(Advance(s.(mem := Poke(s.mem, address, width, X(s, rs2)))))
    case Imm(op, rd, rs1, imm) => Next(Advance(Write(s, rd, Alu(op, X(s, rs1), ToWord(imm)))))
    case Reg(op, rd, rs1, rs2) => Next(Advance(Write(s, rd, Alu(op, X(s, rs1), X(s, rs2)))))
    case Fence => Next(Advance(s))
    case Ebreak => Next(Advance(s))
    case Csr => Trapped(CsrUnsupported)
    case Ecall =>
      if X(s, 17) in env.syscalls then
        var called := Perform(s, script);
        if called.Next? then Next(Advance(called.state)) else called
      else if env.throwOnUnknown then Trapped(UnknownCall)
      else Next(Advance(s))
  }

  /** The effect of the host's calls, up to the first that traps. */
  function Perform(s: State, script: seq<SysAction>): Result
    decreases |script|
  {
    if script == [] then Next(s)
    else
      var done := Act(s, script[0]);
      if done.Next? then Perform(done.state, script[1..]) else done
  }

  function Act(s: State, action: SysAction): Result {
    match action
    case CallSetRegister(r, value) => if r >= 32 then Trapped(DataFault) else Next(Write(s, r, value))
    case CallReadMemory(address, size) =>
      if size == 0 || size > 4 || address % size != 0 || !Accessible(s, address, size) then Trapped(DataFault) else Next(s)
    case CallWriteMemory(address, size, value) =>
      if size == 0 || size > 4 || address % size != 0 || !Accessible(s, address, size) then Trapped(DataFault)
      else Next(s.(mem := Poke(s.mem, address, size, value)))
    case CallJumpAbs(dest) =>
      if dest % 4 != 0 then Trapped(TargetMisaligned)
      else if !Accessible(s, dest, 4) then Trapped(TargetUnmapped)
      else Next(s.(pc := dest))
    case CallHalt => Next(s.(running := false))
    case CallRaise(error) => Trapped(CallRaised(error))
  }

  function Step(s: State, env: Environment, script: seq<SysAction>): Result {
    if s.pc % 4 != 0 || !Fetchable(s) then Trapped(FetchFault)
    else
      match Decode(ToWord(Peek(s.mem, s.pc, 4)))
      case Some(i) => Execute(i, s, env, script)
      case None => Trapped(IllegalInstruction)
  }

  /** At most one step for each script, while the machine is running. */
  function Run(s: State, env: Environment, scripts: seq<seq<SysAction>>): Result
    decreases |scripts|
  {
    if !s.running || scripts == [] then Next(s)
    else
      var stepped := Step(s, env, scripts[0]);
      if stepped.Next? then Run(stepped.state, env, scripts[1..]) else stepped
  }
}
