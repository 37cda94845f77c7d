/** One step of the interpreter as a function on its state: fetch through the memory blocks, dispatch
    through the registry, execute, and advance or jump, with the state at the point of any exception. */
module Machine {
  import opened Words
  import opened Wrappers
  import opened Interface
  import opened Opcode
  import opened Calculate
  import opened Registry
  import opened Memory

  /** `registers` without the program counter, the program counter, the blocks, the running flag. */
  datatype State = State(x: seq<Word>, pc: Word, mem: Blocks, running: bool)

  datatype Outcome = Completed(state: State) | Thrown(error: Error, state: State)

  /** The parts of the machine that a run does not change. */
  datatype Config = Config(index: Index, env: Environment)

  ghost predicate MemoryOk(m: Blocks) {
    WellFormed(m) && Roomy(m)
  }

  lemma BlocksWellFormed(m: Blocks)
    requires MemoryOk(m)
    ensures WellFormed(m)
  {
  }

  ghost predicate Mapped4(m: Blocks, address: Word)
    requires Sized(m)
  {
    FindBlock(m, address, 4).Some?
  }

  ghost predicate Shaped(s: State) {
    |s.x| == 32 && MemoryOk(s.mem)
  }

  /** What `start` establishes and every step keeps. */
  ghost predicate Ready(s: State) {
    Shaped(s) && s.x[0] == 0 && Mapped4(s.mem, s.pc)
  }

  // ---- the operations of `MachineInterface` ----

  function GetRegister(s: State, r: nat): Word
    requires r < |s.x|
  {
    if r > 0 then s.x[r] else 0
  }

  function SetRegister(s: State, r: nat, value: Word): (o: Outcome)
    requires |s.x| == 32
    ensures |o.state.x| == 32 && o.state == s.(x := o.state.x)
    ensures Ready(s) ==> Ready(o.state)
  {
    if r >= 32 then Thrown(DataAccessError, s)
    else if r > 0 then Completed(s.(x := s.x[r := value]))
    else Completed(s)
  }

  ghost function SetPc(s: State, value: Word): (o: Outcome)
    requires Sized(s.mem)
    ensures o.state == s.(pc := o.state.pc)
    ensures Ready(s) ==> Ready(o.state)
  {
    if FindBlock(s.mem, value, 4).None? then Thrown(CodeAccessError, s) else Completed(s.(pc := value))
  }

  ghost function IncPc(s: State): (o: Outcome)
    requires Sized(s.mem)
    ensures o.state == s.(pc := o.state.pc)
    ensures Ready(s) ==> Ready(o.state)
    ensures s.pc % 4 == 0 ==> o.state.pc % 4 == 0
  {
    SetPc(s, ToWord(s.pc + 4))
  }

  ghost function JumpAbs(s: State, dest: Word): (o: Outcome)
    requires Sized(s.mem)
    ensures o.state == s.(pc := o.state.pc)
    ensures Ready(s) ==> Ready(o.state)
    ensures o.Completed? ==> o.state.pc % 4 == 0
  {
    if dest % 4 != 0 then Thrown(CodeAccessError, s) else SetPc(s, dest)
  }

  ghost function JumpTo(s: State, offset: int): (o: Outcome)
    requires Sized(s.mem)
    ensures o.state == s.(pc := o.state.pc)
    ensures Ready(s) ==> Ready(o.state)
    ensures o.Completed? ==> o.state.pc % 4 == 0
  {
    JumpAbs(s, ToWord(s.pc + offset))
  }

  ghost function JumpIf(s: State, condition: bool, offset: int): (o: Outcome)
    requires Sized(s.mem)
    ensures o.state == s.(pc := o.state.pc)
    ensures Ready(s) ==> Ready(o.state)
    ensures s.pc % 4 == 0 && o.Completed? ==> o.state.pc % 4 == 0
  {
    if condition then JumpTo(s, offset) else IncPc(s)
  }

  lemma InBlock(m: Blocks, address: Word, n: Word)
    requires MemoryOk(m) && n <= 4 && FindBlock(m, address, n).Some?
    ensures var k := FindBlock(m, address, n).value; k in m && k <= address && address + n <= k + |m[k]|
  {
    RoomyNoWrap(m, address, n);
    FoundInBlock(m, address, n);
  }

  lemma ExtentsKeepMemoryOk(m: Blocks, m': Blocks)
    requires MemoryOk(m) && SameExtents(m, m')
    ensures MemoryOk(m')
  {
  }

  /** The bytes that a range lookup finds. */
  ghost function BytesAt(m: Blocks, address: Word, n: Word): (bytes: seq<Byte>)
    requires MemoryOk(m) && 1 <= n <= 4 && FindBlock(m, address, n).Some?
    ensures |bytes| == n
  {
    InBlock(m, address, n);
    var k := FindBlock(m, address, n).value;
    m[k][address - k..address - k + n]
  }

  /** The word that `read_memory` assembles, or nothing when it throws `data_access_error`. */
  ghost function ReadMemory(m: Blocks, address: Word, n: Byte): Option<Word>
    requires MemoryOk(m) && n >= 1
  {
    if address % n != 0 then None
    else if FindBlock(m, address, n).None? then None
    else if n > 4 then None
    else Some(WordOf(BytesAt(m, address, n)))
  }

  ghost function WriteMemory(s: State, address: Word, n: Byte, value: Word): Outcome
    requires MemoryOk(s.mem)
  {
    if n == 0 || n > 4 then Thrown(DataAccessError, s)
    else if address % n != 0 then Thrown(DataAccessError, s)
    else
      match FindBlock(s.mem, address, n)
      case None => Thrown(DataAccessError, s)
      case Some(k) =>
        InBlock(s.mem, address, n);
        Completed(s.(mem := s.mem[k := Patch(s.mem[k], address - k, ToBytes(value, n))]))
  }

  // ---- system calls ----

  ghost function Act(s: State, action: SysAction): (o: Outcome)
    requires Shaped(s)
    requires action.CallReadMemory? ==> action.size >= 1
    ensures Shaped(o.state) && (Ready(s) ==> Ready(o.state))
    ensures s.pc % 4 == 0 ==> o.state.pc % 4 == 0
  {
    match action
    case CallSetRegister(r, value) => SetRegister(s, r, value)
    case CallReadMemory(address, size) =>
      if ReadMemory(s.mem, address, size).None? then Thrown(DataAccessError, s) else Completed(s)
    case CallWriteMemory(address, size, value) =>
      WriteKeepsMemory(s, address, size, value);
      WriteMemory(s, address, size, value)
    case CallJumpAbs(dest) => JumpAbs(s, dest)
    case CallHalt => Completed(s.(running := false))
    case CallRaise(error) => Thrown(error, s)
  }

  lemma WriteKeepsMemory(s: State, address: Word, n: Byte, value: Word)
    requires MemoryOk(s.mem)
    ensures var o := WriteMemory(s, address, n, value);
            && MemoryOk(o.state.mem) && SameExtents(s.mem, o.state.mem) && o.state == s.(mem := o.state.mem)
            && (Ready(s) ==> Ready(o.state))
  {
    hide FindBlock, Patch, ToBytes, Flat, Overlay;
    if 1 <= n <= 4 && address % n == 0 && FindBlock(s.mem, address, n).Some? {
      InBlock(s.mem, address, n);
      FlatOfPatch(s.mem, FindBlock(s.mem, address, n).value, address, ToBytes(value, n));
      SameLookups(s.mem, WriteMemory(s, address, n, value).state.mem, s.pc, 4);
    }
  }

  /** The callback's calls in order, up to the first that throws. */
  ghost function Perform(s: State, script: seq<SysAction>): (o: Outcome)
    requires Shaped(s) && ValidScript(script)
    ensures Shaped(o.state) && (Ready(s) ==> Ready(o.state))
    ensures s.pc % 4 == 0 ==> o.state.pc % 4 == 0
    decreases |script|
  {
    if script == [] then Completed(s)
    else
      var o := Act(s, script[0]);
      if o.Completed? then Perform(o.state, script[1..]) else o
  }

  ghost function Syscall(s: State, env: Environment, script: seq<SysAction>): (o: Outcome)
    requires Shaped(s) && ValidScript(script)
    ensures Shaped(o.state) && (Ready(s) ==> Ready(o.state))
    ensures s.pc % 4 == 0 ==> o.state.pc % 4 == 0
  {
    if GetRegister(s, 17) in env.syscalls then Perform(s, script)
    else if env.throwOnUnknown then Thrown(UnknownSyscall, s)
    else Completed(s)
  }

  // ---- handlers ----

  function LoadSize(kind: LoadKind): Byte {
    match kind
    case Lb => 1
    case Lh => 2
    case Lw => 4
    case Lbu => 1
    case Lhu => 2
  }

  function StoreSize(kind: StoreKind): Byte {
    match kind
    case Sb => 1
    case Sh => 2
    case Sw => 4
  }

  /** Handlers that set the program counter themselves. */
  predicate Skips(op: Op) {
    op.Jal? || op.Jalr? || op.Branch?
  }

  /** Handlers that only compute a value for rd. */
  predicate Computes(op: Op) {
    op.Lui? || op.Auipc? || op.IntImm? || op.ShiftImm? || op.IntReg? || op.Math?
  }

  /** That value, from the instruction, the program counter and the source registers. */
  function Result(op: Op, code: Word, pc: Word, lhs: Word, rhs: Word): Word
    requires Computes(op)
  {
    match op
    case Lui => DecodeU(code)
    case Auipc => ToWord(DecodeU(code) + pc)
    case IntImm(kind) => ImmResult(kind, lhs, DecodeI(code))
    case ShiftImm(kind) => ShiftResult(kind, lhs, ShiftData(code))
    case IntReg(kind) => RegResult(kind, lhs, rhs)
    case Math(kind) => MathResult(kind, lhs, rhs)
  }

  ghost function ExecLoad(kind: LoadKind, code: Word, s: State): (o: Outcome)
    requires Shaped(s)
    ensures Shaped(o.state) && (Ready(s) ==> Ready(o.state))
  {
    var address := ToWord(GetRegister(s, GetRs1(code)) + Signed(DecodeI(code)));
    match ReadMemory(s.mem, address, LoadSize(kind))
    case None => Thrown(DataAccessError, s)
    case Some(value) => SetRegister(s, GetRd(code), Loaded(kind, value))
  }

  ghost function ExecStore(kind: StoreKind, code: Word, s: State): (o: Outcome)
    requires Shaped(s)
    ensures Shaped(o.state) && (Ready(s) ==> Ready(o.state))
  {
    var value := GetRegister(s, GetRs2(code));
    var address := ToWord(GetRegister(s, GetRs1(code)) + Signed(DecodeS(code)));
    WriteKeepsMemory(s, address, StoreSize(kind), value);
    WriteMemory(s, address, StoreSize(kind), value)
  }

  ghost function ExecBranch(kind: BranchKind, code: Word, s: State): (o: Outcome)
    requires Shaped(s)
    ensures Shaped(o.state) && (Ready(s) ==> Ready(o.state))
    ensures s.pc % 4 == 0 && o.Completed? ==> o.state.pc % 4 == 0
  {
    var taken := Compare(kind, GetRegister(s, GetRs1(code)), GetRegister(s, GetRs2(code)));
    JumpIf(s, taken, Signed(DecodeB(code)))
  }

  /** The link write comes first; a rejected target leaves it behind. */
  ghost function ExecJal(code: Word, s: State): (o: Outcome)
    requires Shaped(s)
    ensures Shaped(o.state) && (Ready(s) ==> Ready(o.state))
    ensures s.pc % 4 == 0 && o.Completed? ==> o.state.pc % 4 == 0
  {
    JumpTo(SetRegister(s, GetRd(code), ToWord(s.pc + 4)).state, Signed(DecodeJ(code)))
  }

  ghost function ExecJalr(code: Word, s: State): (o: Outcome)
    requires Shaped(s)
    ensures Shaped(o.state) && (Ready(s) ==> Ready(o.state))
    ensures s.pc % 4 == 0 && o.Completed? ==> o.state.pc % 4 == 0
  {
    var base := GetRegister(s, GetRs1(code));
    var dest := And(ToWord(base + Signed(DecodeI(code))), Not(1));
    JumpAbs(SetRegister(s, GetRd(code), ToWord(s.pc + 4)).state, dest)
  }

  /** `exec` of each handler, with the instruction word it was dispatched on. */
  ghost function Exec(op: Op, code: Word, s: State, env: Environment, script: seq<SysAction>): (o: Outcome)
    requires Shaped(s) && ValidScript(script)
    ensures Shaped(o.state) && (Ready(s) ==> Ready(o.state))
    ensures s.pc % 4 == 0 && o.Completed? ==> o.state.pc % 4 == 0
  {
    if Computes(op) then
      SetRegister(s, GetRd(code), Result(op, code, s.pc, GetRegister(s, GetRs1(code)), GetRegister(s, GetRs2(code))))
    else
      match op
      case Jal => ExecJal(code, s)
      case Jalr => ExecJalr(code, s)
      case Branch(kind) => ExecBranch(kind, code, s)
      case Load(kind) => ExecLoad(kind, code, s)
      case Store(kind) => ExecStore(kind, code, s)
      case Fence => Completed(s)
      case FenceI => Completed(s)
      case EnvCall => if DecodeIU(code) != 0 then Completed(s) else Syscall(s, env, script)
      case Csr(_) => Thrown(ControlAccessError, s)
  }

  /** `exec`, then `inc_pc` unless the handler skips it. */
  ghost function ExecAndAdvance(op: Op, code: Word, s: State, env: Environment, script: seq<SysAction>): (o: Outcome)
    requires Shaped(s) && ValidScript(script)
    ensures Shaped(o.state) && (Ready(s) ==> Ready(o.state))
    ensures s.pc % 4 == 0 && o.Completed? ==> o.state.pc % 4 == 0
  {
    var done := Exec(op, code, s, env, script);
    if done.Thrown? || Skips(op) then done else IncPc(done.state)
  }

  /** `run_step` on a machine whose program counter is mapped. */
  ghost function Step(s: State, config: Config, script: seq<SysAction>): (o: Outcome)
    requires Ready(s) && ValidScript(script)
    ensures Ready(o.state)
    ensures o.Completed? ==> o.state.pc % 4 == 0
  {
    if s.pc % 4 != 0 then Thrown(DataAccessError, s)
    else
      var code := WordOf(BytesAt(s.mem, s.pc, 4));
      match Find(config.index, code)
      case None => Thrown(UnknownInstruction, s)
      case Some(h) => ExecAndAdvance(h.op, code, s, config.env, script)
  }

  /** `run`: one step for each script, while the machine is running. */
  ghost function Run(s: State, config: Config, scripts: seq<seq<SysAction>>): (o: Outcome)
    requires Ready(s) && forall script | script in scripts :: ValidScript(script)
    ensures Ready(o.state)
    decreases |scripts|
  {
    if !s.running || scripts == [] then Completed(s)
    else
      var o := Step(s, config, scripts[0]);
      if o.Completed? then Run(o.state, config, scripts[1..]) else o
  }
}
