/** The virtual machine object: its fields are updated in place, and every method is specified by the
    function of the same name on the machine's state. */
module BasicVm {
  import opened Words
  import opened Wrappers
  import opened Interface
  import opened Opcode
  import opened Calculate
  import opened Registry
  import opened Memory
  import opened Mmu
  import opened Dispatch
  import M = Machine
  import R = Reference
  import Refinement
  import Faults
  import Hex
  import HexLoad
  import HexMeaning

  /** How a method of the machine returns: normally, or by throwing. */
  datatype Status = Ok | Throw(error: Error) {
    predicate IsFailure() {
      Throw?
    }

    function PropagateFailure(): Status
      requires Throw?
    {
      this
    }
  }

  const REGISTER_COUNT: nat := 32
  const PC: nat := 32
  const A7: nat := 17

  const HAVE_CODE_BLOCK: bv8 := 1
  const HAVE_DATA_BLOCK: bv8 := 2
  const ISA_INITIALIZED: bv8 := 4
  const PC_INITIALIZED: bv8 := 8
  const ALL_FLAGS_MASK: bv8 := 15

  class BasicVm {
    const opcodes: HandlerRegistry
    const mmu: MemoryManagementUnit
    /** General registers and, at index 32, the program counter. */
    const registers: array<Word>

    var syscalls: set<Word>
    var initFlags: bv8
    var roSize: Word
    var rwSize: Word
    var codeBase: Word
    var dataBase: Word
    var initialPc: Word
    var running: bool
    var syscallThrowOnError: bool

    ghost predicate Valid()
      reads this, registers, mmu, mmu.memory.Values, opcodes
    {
      && registers.Length == 33 && registers[0] == 0
      && mmu.Valid() && M.MemoryOk(mmu.Model())
      && (running ==> initFlags == ALL_FLAGS_MASK)
    }

    /** The registry holds both instruction sets, or nothing before they are initialised. */
    ghost predicate IsaMatchesFlag()
      reads this`initFlags, opcodes
    {
      opcodes.Model() == if IsFlagSet(ISA_INITIALIZED) then FullIndex() else EMPTY
    }

    /** The state that the machine functions work on. */
    ghost function Snapshot(): M.State
      requires registers.Length == 33
      reads this`running, registers, mmu, mmu.memory.Values
    {
      M.State(registers[..32], registers[32], mmu.Model(), running)
    }

    ghost function Env(): Environment
      reads this`syscalls, this`syscallThrowOnError
    {
      Environment(syscalls, syscallThrowOnError)
    }

    /** The method ended as the machine function says: state, and exception if any. */
    ghost predicate Ends(st: Status, o: M.Outcome)
      requires registers.Length == 33
      reads this`running, registers, mmu, mmu.memory.Values
    {
      Snapshot() == o.state && st == match o { case Completed(_) => Ok case Thrown(e, _) => Throw(e) }
    }

    constructor ()
      ensures Valid() && IsaMatchesFlag() && !running && initFlags == 0
      ensures mmu.memory == map[] && opcodes.Model() == EMPTY && syscalls == {} && syscallThrowOnError
      ensures codeBase == 0 && dataBase == roSize == rwSize == 0x40_0000 && initialPc == 0
      ensures fresh(registers) && fresh(mmu) && fresh(opcodes)
    {
      hide FullIndex;
      opcodes := new HandlerRegistry();
      mmu := new MemoryManagementUnit();
      registers := new Word[33](i => 0);
      syscalls, initFlags := {}, 0;
      roSize, rwSize, codeBase, dataBase := 0x40_0000, 0x40_0000, 0, 0x40_0000;
      initialPc, running, syscallThrowOnError := 0, false, true;
    }

    // ---- registers and program counter ----

    method SetRegister(r: Byte, value: Word) returns (st: Status)
      requires Valid()
      modifies registers
      ensures Valid() && Ends(st, M.SetRegister(old(Snapshot()), r, value))
    {
      if r >= REGISTER_COUNT {
        return Throw(DataAccessError);
      }
      if r > 0 {
        registers[r] := value;
        assert registers[..32] == old(registers[..32])[r := value];
      }
      return Ok;
    }

    function GetRegister(r: Byte): (value: Word)
      requires Valid() && r < REGISTER_COUNT
      reads this, registers, mmu, mmu.memory.Values, opcodes
      ensures value == M.GetRegister(Snapshot(), r)
    {
      if r > 0 then registers[r] else 0
    }

    function GetPc(): (value: Word)
      requires Valid()
      reads this, registers, mmu, mmu.memory.Values, opcodes
      ensures value == Snapshot().pc
    {
      registers[PC]
    }

    method SetPc(value: Word) returns (st: Status)
      requires Valid()
      modifies registers
      ensures Valid() && Ends(st, M.SetPc(old(Snapshot()), value))
    {
      hide M.MemoryOk, MemoryManagementUnit.Valid, MemoryManagementUnit.Model, HandlerRegistry.Model;
      var block := mmu.FindBlock(value, 4);
      if block == null {
        return Throw(CodeAccessError);
      }
      registers[PC] := value;
      return Ok;
    }

    method IncPc() returns (st: Status)
      requires Valid()
      modifies registers
      ensures Valid() && Ends(st, M.IncPc(old(Snapshot())))
    {
      hide M.MemoryOk, MemoryManagementUnit.Valid, MemoryManagementUnit.Model, HandlerRegistry.Model;
      st := SetPc(ToWord(GetPc() + 4));
    }

    method JumpAbs(dest: Word) returns (st: Status)
      requires Valid()
      modifies registers
      ensures Valid() && Ends(st, M.JumpAbs(old(Snapshot()), dest))
    {
      hide M.MemoryOk, MemoryManagementUnit.Valid, MemoryManagementUnit.Model, HandlerRegistry.Model;
      if dest % 4 != 0 {
        return Throw(CodeAccessError);
      }
      st := SetPc(dest);
    }

    method JumpTo(offset: int) returns (st: Status)
      requires Valid()
      modifies registers
      ensures Valid() && Ends(st, M.JumpTo(old(Snapshot()), offset))
    {
      hide M.MemoryOk, MemoryManagementUnit.Valid, MemoryManagementUnit.Model, HandlerRegistry.Model;
      var dest := ToWord(GetPc() + offset);
      st := JumpAbs(dest);
    }

    method JumpIf(condition: bool, offset: int) returns (st: Status)
      requires Valid()
      modifies registers
      ensures Valid() && Ends(st, M.JumpIf(old(Snapshot()), condition, offset))
    {
      if condition {
        st := JumpTo(offset);
      } else {
        st := IncPc();
      }
    }

    // ---- memory access ----

    /** The block that contains an aligned range, or null; a misaligned address throws. */
    method GetPtr(address: Word, size: Byte) returns (st: Status, block: GenericMemory?)
      requires Valid() && size >= 1
      ensures st == if address % size != 0 then Throw(DataAccessError) else Ok
      ensures block == null <==> st.Throw? || FindBlock(mmu.Model(), address, size) == None
      ensures block != null ==>
                && FindBlock(mmu.Model(), address, size) == Some(block.params.start)
                && block.params.start in mmu.memory && mmu.memory[block.params.start] == block
                && (size <= 4 ==> block.params.Covers(address, size))
    {
      hide M.MemoryOk;
      if address % size != 0 {
        return Throw(DataAccessError), null;
      }
      block := mmu.FindBlock(address, size);
      st := Ok;
      if block != null && size <= 4 {
        M.InBlock(mmu.Model(), address, size);
      }
    }

    method ReadMemory(from: Word, size: Byte) returns (st: Status, value: Word)
      requires Valid() && size >= 1
      ensures st == if M.ReadMemory(mmu.Model(), from, size).Some? then Ok else Throw(DataAccessError)
      ensures st.Ok? ==> M.ReadMemory(mmu.Model(), from, size) == Some(value)
    {
      hide M.MemoryOk, FindBlock, FromBytes;
      value := 0;
      var block;
      st, block := GetPtr(from, size);
      if st.Throw? {
        return;
      }
      if block == null || size > 4 {
        return Throw(DataAccessError), 0;
      }
      var ok, bytes := block.Load(from, size);
      assert bytes == M.BytesAt(mmu.Model(), from, size);
      value := WordOf(bytes);
    }

    /** Copies bytes into a block of the machine: flat memory changes in exactly those bytes. */
    method StoreInto(block: GenericMemory, address: Word, bytes: seq<Byte>)
      requires Valid() && |bytes| < TWO32
      requires block.params.start in mmu.memory && mmu.memory[block.params.start] == block
      requires block.params.InRange(address, |bytes|) && block.params.Covers(address, |bytes|)
      modifies mmu.memory.Values
      ensures Valid() && SameExtents(old(mmu.Model()), mmu.Model())
      ensures mmu.Model() == old(mmu.Model())[block.params.start := Patch(old(block.data), address - block.params.start, bytes)]
      ensures Flat(mmu.Model()) == Overlay(old(Flat(mmu.Model())), address, bytes)
    {
      hide Patch, Flat, Overlay, Roomy, Disjoint;
      ghost var before := mmu.Model();
      ghost var after := before[block.params.start := Patch(block.data, address - block.params.start, bytes)];
      FlatOfPatch(before, block.params.start, address, bytes);
      M.ExtentsKeepMemoryOk(before, after);
      var ok := block.Store(address, bytes);
      assert mmu.Model() == after;
    }

    method WriteMemory(from: Word, size: Byte, value: Word) returns (st: Status)
      requires Valid()
      modifies mmu.memory.Values
      ensures Valid() && Ends(st, M.WriteMemory(old(Snapshot()), from, size, value))
    {
      hide M.MemoryOk, MemoryManagementUnit.Valid, HandlerRegistry.Model, FindBlock, ToBytes, Patch, Flat, Overlay, SameExtents;
      if size == 0 || size > 4 {
        return Throw(DataAccessError);
      }
      var block :- GetPtr(from, size);
      if block == null {
        return Throw(DataAccessError);
      }
      StoreInto(block, from, ToBytes(value, size));
      return Ok;
    }

    // ---- system calls ----

    method Act(action: SysAction) returns (st: Status)
      requires Valid()
      requires action.CallReadMemory? ==> action.size >= 1
      modifies this`running, registers, mmu.memory.Values
      ensures Valid() && Ends(st, M.Act(old(Snapshot()), action))
    {
      hide M.MemoryOk, MemoryManagementUnit.Valid, MemoryManagementUnit.Model, HandlerRegistry.Model, FindBlock, M.WriteMemory, M.ReadMemory;
      match action
      case CallSetRegister(r, value) => st := SetRegister(r, value);
      case CallReadMemory(address, size) =>
        var value;
        st, value := ReadMemory(address, size);
      case CallWriteMemory(address, size, value) => st := WriteMemory(address, size, value);
      case CallJumpAbs(dest) => st := JumpAbs(dest);
      case CallHalt =>
        running := false;
        st := Ok;
      case CallRaise(error) => st := Throw(error);
    }

    /** The calls that a registered callback makes, up to the first that throws. */
    method Perform(script: seq<SysAction>) returns (st: Status)
      requires Valid() && ValidScript(script)
      modifies this`running, registers, mmu.memory.Values
      ensures Valid() && Ends(st, M.Perform(old(Snapshot()), script))
    {
      hide M.MemoryOk, M.Act;
      var i := 0;
      assert script[0..] == script;
      while i < |script|
        invariant i <= |script| && Valid()
        invariant M.Perform(old(Snapshot()), script) == M.Perform(Snapshot(), script[i..])
      {
        assert script[i..][0] == script[i] && script[i..][1..] == script[i + 1..];
        assert script[i] in script;
        :- Act(script[i]);
        i := i + 1;
      }
      st := Ok;
    }

    method Syscall(script: seq<SysAction>) returns (st: Status)
      requires Valid() && ValidScript(script)
      modifies this`running, registers, mmu.memory.Values
      ensures Valid() && Ends(st, M.Syscall(old(Snapshot()), Env(), script))
    {
      hide M.MemoryOk, M.Perform;
      var id := GetRegister(A7);
      if id !in syscalls {
        if !syscallThrowOnError {
          return Ok;
        }
        return Throw(UnknownSyscall);
      }
      st := Perform(script);
    }

    // ---- handlers; `current` is a pointer into live memory ----

    ghost predicate Points(current: GenericMemory, at: Word)
      reads mmu, mmu.memory.Values
    {
      current in mmu.memory.Values && current.Valid() && current.params.Covers(at, 4)
    }

    method ExecComputing(op: Op, current: GenericMemory, at: Word) returns (st: Status)
      requires Valid() && Points(current, at) && M.Computes(op)
      modifies registers
      ensures Valid()
      ensures var (s, w) := (old(Snapshot()), old(current.WordAt(at)));
              Ends(st, M.SetRegister(s, GetRd(w), M.Result(op, w, s.pc, M.GetRegister(s, GetRs1(w)), M.GetRegister(s, GetRs2(w)))))
    {
      hide M.MemoryOk, WordOf, GetRd, GetRs1, GetRs2;
      hide DecodeU, DecodeI, ShiftData, ImmResult, ShiftResult, RegResult, MathResult;
      var dest := GetRd(current.WordAt(at));
      var value: Word;
      match op {
        case Lui =>
          value := DecodeU(current.WordAt(at));
        case Auipc =>
          var data := DecodeU(current.WordAt(at));
          value := ToWord(data + GetPc());
        case IntImm(kind) =>
          var src := GetRegister(GetRs1(current.WordAt(at)));
          value := ImmResult(kind, src, DecodeI(current.WordAt(at)));
        case ShiftImm(kind) =>
          var src := GetRegister(GetRs1(current.WordAt(at)));
          value := ShiftResult(kind, src, ShiftData(current.WordAt(at)));
        case IntReg(kind) =>
          var lhs := GetRegister(GetRs1(current.WordAt(at)));
          var rhs := GetRegister(GetRs2(current.WordAt(at)));
          value := RegResult(kind, lhs, rhs);
        case Math(kind) =>
          var lhs := GetRegister(GetRs1(current.WordAt(at)));
          var rhs := GetRegister(GetRs2(current.WordAt(at)));
          value := MathResult(kind, lhs, rhs);
      }
      st := SetRegister(dest, value);
    }

    method ExecJal(current: GenericMemory, at: Word) returns (st: Status)
      requires Valid() && Points(current, at)
      modifies registers
      ensures Valid() && Ends(st, M.ExecJal(old(current.WordAt(at)), old(Snapshot())))
    {
      hide M.MemoryOk, WordOf, GetRd, DecodeJ, M.JumpTo;
      var dest := GetRd(current.WordAt(at));
      var offset := Signed(DecodeJ(current.WordAt(at)));
      st := SetRegister(dest, ToWord(GetPc() + 4));  // rd is a register
      st := JumpTo(offset);
    }

    method ExecJalr(current: GenericMemory, at: Word) returns (st: Status)
      requires Valid() && Points(current, at)
      modifies registers
      ensures Valid() && Ends(st, M.ExecJalr(old(current.WordAt(at)), old(Snapshot())))
    {
      hide M.MemoryOk, WordOf, GetRd, GetRs1, DecodeI, M.JumpAbs, And;
      var dest := GetRd(current.WordAt(at));
      var src := GetRs1(current.WordAt(at));
      var offset := Signed(DecodeI(current.WordAt(at)));
      var base := GetRegister(src);
      st := SetRegister(dest, ToWord(GetPc() + 4));  // rd is a register
      st := JumpAbs(And(ToWord(base + offset), Not(1)));
    }

    method ExecBranch(kind: BranchKind, current: GenericMemory, at: Word) returns (st: Status)
      requires Valid() && Points(current, at)
      modifies registers
      ensures Valid() && Ends(st, M.ExecBranch(kind, old(current.WordAt(at)), old(Snapshot())))
    {
      hide M.MemoryOk, WordOf, GetRs1, GetRs2, DecodeB, M.JumpIf, Compare;
      var lhs := GetRegister(GetRs1(current.WordAt(at)));
      var rhs := GetRegister(GetRs2(current.WordAt(at)));
      var offset := Signed(DecodeB(current.WordAt(at)));
      st := JumpIf(Compare(kind, lhs, rhs), offset);
    }

    method ExecLoad(kind: LoadKind, current: GenericMemory, at: Word) returns (st: Status)
      requires Valid() && Points(current, at)
      modifies registers
      ensures Valid() && Ends(st, M.ExecLoad(kind, old(current.WordAt(at)), old(Snapshot())))
    {
      hide M.MemoryOk, WordOf, GetRd, GetRs1, DecodeI, M.ReadMemory, Loaded;
      var base := GetRegister(GetRs1(current.WordAt(at)));
      var address := ToWord(base + Signed(DecodeI(current.WordAt(at))));
      var value :- ReadMemory(address, M.LoadSize(kind));
      var dest := GetRd(current.WordAt(at));
      st := SetRegister(dest, Loaded(kind, value));
    }

    method ExecStore(kind: StoreKind, current: GenericMemory, at: Word) returns (st: Status)
      requires Valid() && Points(current, at)
      modifies mmu.memory.Values
      ensures Valid() && Ends(st, M.ExecStore(kind, old(current.WordAt(at)), old(Snapshot())))
    {
      hide M.MemoryOk, WordOf, GetRs1, GetRs2, DecodeS, M.WriteMemory;
      var value := GetRegister(GetRs2(current.WordAt(at)));
      var base := GetRegister(GetRs1(current.WordAt(at)));
      var address := ToWord(base + Signed(DecodeS(current.WordAt(at))));
      st := WriteMemory(address, M.StoreSize(kind), value);
    }

    method ExecEnvCall(current: GenericMemory, at: Word, script: seq<SysAction>) returns (st: Status)
      requires Valid() && Points(current, at) && ValidScript(script)
      modifies this`running, registers, mmu.memory.Values
      ensures Valid()
      ensures var (s, w) := (old(Snapshot()), old(current.WordAt(at)));
              Ends(st, if DecodeIU(w) != 0 then M.Completed(s) else M.Syscall(s, Env(), script))
    {
      hide M.MemoryOk, WordOf, DecodeIU, M.Syscall;
      if DecodeIU(current.WordAt(at)) != 0 {
        return Ok;  // debug()
      }
      st := Syscall(script);
    }

    /** The handler's `exec`. */
    method Exec(op: Op, current: GenericMemory, at: Word, script: seq<SysAction>) returns (st: Status)
      requires Valid() && Points(current, at) && ValidScript(script)
      modifies this`running, registers, mmu.memory.Values
      ensures Valid()
      ensures Ends(st, M.Exec(op, old(current.WordAt(at)), old(Snapshot()), Env(), script))
    {
      hide M.MemoryOk, MemoryManagementUnit.Valid, MemoryManagementUnit.Model, HandlerRegistry.Model, WordOf, GetRd, GetRs1, GetRs2, DecodeIU;
      hide M.Result, M.ExecJal, M.ExecJalr, M.ExecBranch, M.ExecLoad, M.ExecStore, M.Syscall;
      match op {
        case Jal => st := ExecJal(current, at);
        case Jalr => st := ExecJalr(current, at);
        case Branch(kind) => st := ExecBranch(kind, current, at);
        case Load(kind) => st := ExecLoad(kind, current, at);
        case Store(kind) => st := ExecStore(kind, current, at);
        case Fence => st := Ok;   // barrier()
        case FenceI => st := Ok;  // barrier()
        case EnvCall => st := ExecEnvCall(current, at, script);
        case Csr(_) => st := Throw(ControlAccessError);
        case _ => st := ExecComputing(op, current, at);
      }
    }

    // ---- running ----

    /** One step: fetch, dispatch, execute, and advance unless the handler set the program counter. */
    method RunStep(script: seq<SysAction>) returns (st: Status)
      requires Valid() && M.Ready(Snapshot()) && ValidScript(script)
      modifies this`running, registers, mmu.memory.Values
      ensures Valid() && M.Ready(Snapshot())
      ensures Ends(st, M.Step(old(Snapshot()), M.Config(opcodes.Model(), Env()), script))
    {
      hide M.MemoryOk, FromBytes, M.Exec, Find;
      var pc := GetPc();
      var current :- GetPtr(pc, 4);
      assert current.WordAt(pc) == WordOf(M.BytesAt(mmu.Model(), pc, 4));
      var handler := opcodes.FindHandler(current.WordAt(pc));
      if handler.None? {
        return Throw(UnknownInstruction);
      }
      :- Exec(handler.value.op, current, pc, script);
      st := Ok;
      if !M.Skips(handler.value.op) {
        st := IncPc();
      }
    }

    /** Steps while running, one for each script. The run completes iff the reference machine's run does
        with every program counter mapped, and then leaves this object in the reference's state; otherwise
        the object is left as the faulting step leaves it, with that step's exception. */
    method Run(scripts: seq<seq<SysAction>>) returns (st: Status)
      requires Valid() && M.Ready(Snapshot())
      requires forall script | script in scripts :: ValidScript(script)
      modifies this`running, registers, mmu.memory.Values
      ensures Valid() && M.Ready(Snapshot())
      ensures Ends(st, M.Run(old(Snapshot()), M.Config(opcodes.Model(), Env()), scripts))
      ensures IsaMatchesFlag() ==>
                && (st.Ok? <==> Refinement.AllFetchable(Refinement.Abs(old(Snapshot())), Env(), scripts)
                                && R.Run(Refinement.Abs(old(Snapshot())), Env(), scripts).Next?)
                && (st.Ok? ==> R.Run(Refinement.Abs(old(Snapshot())), Env(), scripts) == R.Next(Refinement.Abs(Snapshot())))
                && (st.Throw? ==> exists k: nat :: Faults.FaultOf(old(Snapshot()), Env(), scripts, k, M.Thrown(st.error, Snapshot())))
    {
      hide FullIndex, M.MemoryOk, M.Step, M.Ready, R.Step, R.Run, Refinement.Abs, Refinement.AllFetchable, Faults.FaultOf, Faults.ThrowsAt;
      ghost var s := Snapshot();
      ghost var config := M.Config(opcodes.Model(), Env());
      Refinement.RunRefines(s, Env(), scripts);
      Faults.FaultingRun(s, Env(), scripts);
      assert IsaMatchesFlag() ==> M.Run(s, config, scripts) == M.Run(s, M.Config(FullIndex(), Env()), scripts);
      var i := 0;
      assert scripts[0..] == scripts;
      while running && i < |scripts|
        invariant i <= |scripts| && Valid() && M.Ready(Snapshot())
        invariant M.Run(s, config, scripts) == M.Run(Snapshot(), config, scripts[i..])
      {
        assert scripts[i..][0] == scripts[i] && scripts[i..][1..] == scripts[i + 1..];
        assert scripts[i] in scripts;
        :- RunStep(scripts[i]);
        i := i + 1;
      }
      st := Ok;
    }

    method Halt()
      requires Valid()
      modifies this`running
      ensures Valid() && !running
    {
      running := false;
    }

    predicate IsInitialized()
      reads this`initFlags
    {
      initFlags == ALL_FLAGS_MASK
    }

    /** Clears the registers and goes to the entry point, which must be mapped. Only a machine with
        code, data, instruction set and entry point starts running. */
    method Start() returns (st: Status)
      requires Valid()
      modifies this`running, registers
      ensures Valid()
      ensures forall r | 0 <= r < 32 :: registers[r] == 0
      ensures mmu.Model() == old(mmu.Model())
      ensures st == if M.Mapped4(mmu.Model(), initialPc) then Ok else Throw(CodeAccessError)
      ensures st.Ok? ==> M.Ready(Snapshot()) && Snapshot().pc == initialPc && running == (initFlags == 15)
      ensures st.Throw? ==> Snapshot().pc == 0 && running == old(running)
    {
      hide M.MemoryOk, FindBlock, MemoryManagementUnit.Valid, MemoryManagementUnit.Model, HandlerRegistry.Model;
      forall i | 0 <= i < registers.Length {
        registers[i] := 0;
      }
      assert Valid();
      :- SetPc(initialPc);
      running := IsInitialized();
      st := Ok;
    }

    // ---- initialisation ----

    predicate IsFlagSet(flag: bv8)
      reads this`initFlags
    {
      initFlags & flag != 0
    }

    /** Registers both instruction sets; false, and no change, if that was done before. */
    method InitIsa() returns (ok: bool)
      requires Valid() && IsaMatchesFlag()
      modifies this`initFlags, opcodes
      ensures Valid() && IsaMatchesFlag() && opcodes.Model() == FullIndex()
      ensures ok == !old(IsFlagSet(ISA_INITIALIZED))
      ensures initFlags == old(initFlags) | ISA_INITIALIZED
    {
      hide FullIndex, M.MemoryOk, MemoryManagementUnit.Valid, MemoryManagementUnit.Model, HandlerRegistry.Model, RegisterAll;
      ghost var ix := opcodes.Model();
      var rv32iOk := RegisterRv32i(opcodes);
      var rv32mOk := RegisterRv32m(opcodes);
      ok := rv32iOk && rv32mOk;
      if IsFlagSet(ISA_INITIALIZED) {
        RegisterAgainFails();
      } else {
        FullRegistration();
        Then(true, EMPTY, RV32I, RV32M);
        FailedStaysFailed(RegisterAll(true, EMPTY, Handlers(RV32I)).1, Handlers(RV32M));
      }
      if ok {
        initFlags := initFlags | ISA_INITIALIZED;
      }
    }

    method InitPc(address: Word) returns (ok: bool)
      requires Valid()
      modifies this`initFlags, this`initialPc
      ensures old(IsaMatchesFlag()) ==> IsaMatchesFlag()
      ensures Valid() && ok == !old(IsFlagSet(PC_INITIALIZED))
      ensures initialPc == (if ok then address else old(initialPc))
      ensures initFlags == if ok then old(initFlags) | PC_INITIALIZED else old(initFlags)
    {
      hide FullIndex, M.MemoryOk;
      if IsFlagSet(PC_INITIALIZED) {
        return false;
      }
      initialPc := address;
      initFlags := initFlags | PC_INITIALIZED;
      return true;
    }

    /** Adds a zeroed block, if it may be added. */
    method AddMemory(address: Word, size: Word) returns (ok: bool)
      requires Valid() && Placeable(mmu.Model(), address, size)
      modifies mmu
      ensures fresh(mmu.memory.Values - old(mmu.memory.Values))
      ensures Valid() && ok == Admissible(old(mmu.Model()), address, size)
      ensures ok ==> ZeroesAdded(old(Flat(mmu.Model())), Flat(mmu.Model()), address, size)
      ensures mmu.Model() == if ok then old(mmu.Model())[address := Zeros(size)] else old(mmu.Model())
    {
      hide Placeable, EndsSafely, WellFormed, Roomy, Admissible, ZeroesAdded, Flat;
      ghost var m := mmu.Model();
      PlacedIsRoomy(m, address, size);
      var block := new GenericMemory(address, size);
      ok := mmu.AddBlock(block);
      if ok {
        FlatWithZeros(m, mmu.Model(), address, size);
      }
    }

    method AddCodeBlock(address: Word, size: Word) returns (ok: bool)
      requires Valid() && (IsFlagSet(HAVE_CODE_BLOCK) || Placeable(mmu.Model(), address, size))
      modifies this`initFlags, mmu
      ensures fresh(mmu.memory.Values - old(mmu.memory.Values))
      ensures old(IsaMatchesFlag()) ==> IsaMatchesFlag()
      ensures Valid() && ok == (!old(IsFlagSet(HAVE_CODE_BLOCK)) && Admissible(old(mmu.Model()), address, size))
      ensures ok ==> ZeroesAdded(old(Flat(mmu.Model())), Flat(mmu.Model()), address, size)
      ensures mmu.Model() == if ok then old(mmu.Model())[address := Zeros(size)] else old(mmu.Model())
      ensures initFlags == if ok then old(initFlags) | HAVE_CODE_BLOCK else old(initFlags)
    {
      hide ZeroesAdded, Placeable, Flat, WellFormed, MemoryManagementUnit.Valid, MemoryManagementUnit.Model, HandlerRegistry.Model, FullIndex, M.MemoryOk, Admissible;
      if IsFlagSet(HAVE_CODE_BLOCK) {
        return false;
      }
      ok := AddMemory(address, size);
      if ok {
        initFlags := initFlags | HAVE_CODE_BLOCK;
      }
    }

    method AddDataBlock(address: Word, size: Word) returns (ok: bool)
      requires Valid() && (IsFlagSet(HAVE_DATA_BLOCK) || Placeable(mmu.Model(), address, size))
      modifies this`initFlags, mmu
      ensures fresh(mmu.memory.Values - old(mmu.memory.Values))
      ensures old(IsaMatchesFlag()) ==> IsaMatchesFlag()
      ensures Valid() && ok == (!old(IsFlagSet(HAVE_DATA_BLOCK)) && Admissible(old(mmu.Model()), address, size))
      ensures ok ==> ZeroesAdded(old(Flat(mmu.Model())), Flat(mmu.Model()), address, size)
      ensures mmu.Model() == if ok then old(mmu.Model())[address := Zeros(size)] else old(mmu.Model())
      ensures initFlags == if ok then old(initFlags) | HAVE_DATA_BLOCK else old(initFlags)
    {
      hide ZeroesAdded, Placeable, Flat, WellFormed, MemoryManagementUnit.Valid, MemoryManagementUnit.Model, HandlerRegistry.Model, FullIndex, M.MemoryOk, Admissible;
      if IsFlagSet(HAVE_DATA_BLOCK) {
        return false;
      }
      ok := AddMemory(address, size);
      if ok {
        initFlags := initFlags | HAVE_DATA_BLOCK;
      }
    }

    method SetRoSize(size: Word) returns (ok: bool)
      requires Valid()
      modifies this`roSize
      ensures Valid() && ok == !IsFlagSet(HAVE_CODE_BLOCK) && roSize == if ok then size else old(roSize)
    {
      if IsFlagSet(HAVE_CODE_BLOCK) {
        return false;
      }
      roSize := size;
      return true;
    }

    method SetRwSize(size: Word) returns (ok: bool)
      requires Valid()
      modifies this`rwSize
      ensures Valid() && ok == !IsFlagSet(HAVE_DATA_BLOCK) && rwSize == if ok then size else old(rwSize)
    {
      if IsFlagSet(HAVE_DATA_BLOCK) {
        return false;
      }
      rwSize := size;
      return true;
    }

    /** Adds the code block and then the data block. A block that cannot be added does not keep the
        other one out, so a failed call may leave one of them behind. */
    method InitMemory(codeSize: Word, dataSize: Word) returns (ok: bool)
      requires Valid()
      requires !IsFlagSet(HAVE_CODE_BLOCK) ==> Placeable(mmu.Model(), codeBase, codeSize)
      requires !IsFlagSet(HAVE_DATA_BLOCK) ==>
                 Placeable(if IsFlagSet(HAVE_CODE_BLOCK) then mmu.Model() else WithBlock(mmu.Model(), codeBase, codeSize), dataBase, dataSize)
      modifies this`roSize, this`rwSize, this`initFlags, mmu
      ensures fresh(mmu.memory.Values - old(mmu.memory.Values))
      ensures Valid() && (old(IsaMatchesFlag()) ==> IsaMatchesFlag())
      ensures
        var m := old(mmu.Model());
        var code := !old(IsFlagSet(HAVE_CODE_BLOCK)) && Admissible(m, codeBase, codeSize);
        var m' := if old(IsFlagSet(HAVE_CODE_BLOCK)) then m else WithBlock(m, codeBase, codeSize);
        var data := !old(IsFlagSet(HAVE_DATA_BLOCK)) && Admissible(m', dataBase, dataSize);
        && ok == (code && data)
        && mmu.Model() == (if old(IsFlagSet(HAVE_DATA_BLOCK)) then m' else WithBlock(m', dataBase, dataSize))
        && (code && !data ==> ZeroesAdded(Flat(m), Flat(mmu.Model()), codeBase, codeSize))
        && (data && !code ==> ZeroesAdded(Flat(m), Flat(mmu.Model()), dataBase, dataSize))
        && (code && data ==> ZeroesAdded(Flat(m), Flat(m'), codeBase, codeSize) && ZeroesAdded(Flat(m'), Flat(mmu.Model()), dataBase, dataSize))
        && initFlags == old(initFlags) | (if code then HAVE_CODE_BLOCK else 0) | (if data then HAVE_DATA_BLOCK else 0)
    {
      hide ZeroesAdded, Flat, FullIndex, M.MemoryOk, MemoryManagementUnit.Valid, MemoryManagementUnit.Model, HandlerRegistry.Model, Admissible;
      hide BasicVm.Valid, BasicVm.IsaMatchesFlag;
      var roOk := SetRoSize(codeSize);
      var rwOk := SetRwSize(dataSize);
      var codeOk := AddCodeBlock(codeBase, roSize);
      var dataOk := AddDataBlock(dataBase, rwSize);
      ok := roOk && rwOk && codeOk && dataOk;
    }

    // ---- loading programs ----

    /** Loads a binary at the code base. The entry point is taken even if the binary then does not fit. */
    method SetProgram(bin: seq<Byte>, pc: Word) returns (ok: bool)
      requires Valid() && |bin| < TWO32 && NoWrap(mmu.Model(), codeBase, |bin|)
      modifies this`initFlags, this`initialPc, mmu.memory.Values
      ensures Valid() && (old(IsaMatchesFlag()) ==> IsaMatchesFlag())
      ensures ok == (&& old(IsFlagSet(HAVE_CODE_BLOCK)) && !old(IsFlagSet(PC_INITIALIZED))
                     && FindBlock(old(mmu.Model()), codeBase, |bin|).Some?)
      ensures ok ==> Flat(mmu.Model()) == Overlay(old(Flat(mmu.Model())), codeBase, bin)
      ensures var taken := old(IsFlagSet(HAVE_CODE_BLOCK)) && !old(IsFlagSet(PC_INITIALIZED));
              && initialPc == (if taken then pc else old(initialPc))
              && initFlags == if taken then old(initFlags) | PC_INITIALIZED else old(initFlags)
      ensures !ok ==> mmu.Model() == old(mmu.Model())
      ensures SameExtents(old(mmu.Model()), mmu.Model())
    {
      hide FullIndex, IsFlagSet, M.MemoryOk, MemoryManagementUnit.Valid, MemoryManagementUnit.Model, HandlerRegistry.Model, FindBlock, Patch, Flat, Overlay;
      if !IsFlagSet(HAVE_CODE_BLOCK) {
        return false;
      }
      var pcOk := InitPc(pc);
      if !pcOk {
        return false;
      }
      var code := mmu.FindBlock(codeBase, |bin|);
      if code == null {
        return false;
      }
      StoreInto(code, codeBase, bin);
      return true;
    }

    /** Puts the data of record `i` into the block that contains all of it, if there is one. */
    method LoadRecord(hex: seq<Hex.HexRecord>, i: nat, offset: Word, emptyIsNull: bool, ghost m: Blocks) returns (loaded: bool)
      requires Valid() && i < |hex| && hex[i].IsValid() && offset == HexLoad.Base(hex, i)
      requires WellFormed(m) && SameExtents(m, mmu.Model()) && NoWrap(m, HexLoad.Address(hex, i), |hex[i].data|)
      modifies mmu.memory.Values
      ensures Valid() && SameExtents(m, mmu.Model())
      ensures loaded == HexLoad.Loadable(m, hex, i, emptyIsNull)
      ensures loaded == (&& HexMeaning.InOneBlock(m, (offset + hex[i].offset) % 0x1_0000_0000, |hex[i].data|)
                         && (hex[i].data == [] ==> !emptyIsNull))
      ensures loaded ==>
                Flat(mmu.Model()) == Overlay(old(Flat(mmu.Model())), (offset + hex[i].offset) % 0x1_0000_0000, hex[i].data)
      ensures !loaded ==> mmu.Model() == old(mmu.Model())
    {
      hide FindBlock, Patch, Flat, Overlay, HexLoad.Base, NoWrap, SameExtents, WellFormed, M.MemoryOk, HexMeaning.InOneBlock;
      hide MemoryManagementUnit.Valid, HandlerRegistry.Model;
      M.BlocksWellFormed(mmu.Model());
      HexMeaning.FindsInOneBlock(m, HexLoad.Address(hex, i), |hex[i].data|);
      var record := hex[i];
      var address := ToWord(offset + record.offset);
      ghost var before := mmu.Model();
      HexLoad.SameLoadable(m, before, hex, i, emptyIsNull);
      var block := mmu.FindBlock(address, |record.data|);
      if block == null || (emptyIsNull && record.data == []) {
        return false;
      }
      SameNoWrap(m, before, address, |record.data|);
      StoreInto(block, address, record.data);
      SameExtentsTransitive(m, before, mmu.Model());
      return true;
    }

    /** The loop over the records, up to the one that ends the load. It gives the entry point to take. */
    method LoadRecords(hex: seq<Hex.HexRecord>, emptyIsNull: bool) returns (ended: bool, pcValue: Word)
      requires Valid() && HexLoad.RecordsFit(mmu.Model(), hex, emptyIsNull)
      modifies mmu.memory.Values
      ensures Valid() && SameExtents(old(mmu.Model()), mmu.Model())
      ensures HexLoad.Ended(old(mmu.Model()), old(Flat(mmu.Model())), hex, emptyIsNull, ended, pcValue, Flat(mmu.Model()))
    {
      hide FullIndex, M.MemoryOk, WellFormed, SameExtents, Flat, Overlay;
      hide MemoryManagementUnit.Valid, MemoryManagementUnit.Model, HandlerRegistry.Model;
      hide HexLoad.Progress, HexLoad.Loaded, HexLoad.Stop, HexLoad.Loads, HexLoad.Loadable, HexLoad.Address, HexLoad.EntryPoint;
      hide HexLoad.Base, HexLoad.Ended, HexMeaning.InOneBlock;
      hide Hex.HexRecord.GetType, Hex.HexRecord.IsValid, Hex.HexRecord.GetStart, Hex.HexRecord.GetExtend, NoWrap;
      ghost var (m, was) := (mmu.Model(), Flat(mmu.Model()));
      M.BlocksWellFormed(m);
      SameExtentsSelf(m);
      HexLoad.ProgressNone(m, was, hex, emptyIsNull);
      var offset: Word := 0;
      pcValue := 0;
      var i := 0;
      while i < |hex|
        invariant i <= |hex| && Valid() && SameExtents(m, mmu.Model())
        invariant HexLoad.Progress(m, was, hex, i, emptyIsNull, offset, pcValue, Flat(mmu.Model()))
      {
        var record := hex[i];
        Hex.KindMeaning(record);
        ghost var (base, entry, now) := (offset, pcValue, Flat(mmu.Model()));
        if !HexLoad.Continues(m, hex, i, emptyIsNull) {
          HexLoad.EndsHere(m, was, hex, i, emptyIsNull, offset, pcValue, now);
        }
        if !record.IsValid() {
          return false, pcValue;
        }
        match record.GetType() {
          case HEX_DATA =>
            assert offset == HexLoad.Base(hex, i) && i <= HexLoad.Stop(m, hex, 0, emptyIsNull) by {
              HexLoad.ProgressBase(m, was, hex, i, emptyIsNull, offset, pcValue, now);
            }
            var loaded := LoadRecord(hex, i, offset, emptyIsNull, m);
            if !loaded {
              return false, pcValue;
            }
          case HEX_EOF => return true, pcValue;
          case HEX_SEGMENT_START | HEX_LINEAR_START => pcValue := record.GetStart();
          case HEX_SEGMENT_EXTEND | HEX_LINEAR_EXTEND => offset := record.GetExtend();
          case HEX_UNKNOWN => return false, pcValue;
        }
        HexLoad.ProgressNext(m, was, hex, i, emptyIsNull, base, entry, now);
        i := i + 1;
      }
      HexLoad.EndsHere(m, was, hex, i, emptyIsNull, offset, pcValue, Flat(mmu.Model()));
      return false, pcValue;
    }

    /** Loads a HEX file. Every record up to the one that ends the load has its effect on memory: each
        byte is that of the last data record that covers it. The load succeeds iff there is a code
        block, no entry point was set before, and the file loads; then the entry point is that of the
        last start record. */
    method SetProgramHex(hex: seq<Hex.HexRecord>, emptyIsNull: bool) returns (ok: bool)
      requires Valid() && HexLoad.RecordsFit(mmu.Model(), hex, emptyIsNull)
      modifies this`initFlags, this`initialPc, mmu.memory.Values
      ensures old(IsaMatchesFlag()) ==> IsaMatchesFlag()
      ensures Valid() && SameExtents(old(mmu.Model()), mmu.Model())
      ensures ok == (&& old(initFlags) & 1 != 0 && old(initFlags) & 8 == 0
                     && HexMeaning.FileLoads(old(mmu.Model()), hex, emptyIsNull))
      ensures old(initFlags) & 1 != 0 && old(initFlags) & 8 == 0 ==>
                exists stop: nat ::
                  && HexMeaning.StopsAt(old(mmu.Model()), hex, stop, emptyIsNull)
                  && HexMeaning.IsLoaded(old(Flat(mmu.Model())), Flat(mmu.Model()), hex, stop)
                  && (ok ==> initialPc == HexMeaning.EntryBefore(hex, stop))
      ensures old(initFlags) & 1 == 0 || old(initFlags) & 8 != 0 ==> Flat(mmu.Model()) == old(Flat(mmu.Model()))
      ensures !ok ==> initialPc == old(initialPc)
      ensures initFlags == if ok then old(initFlags) | 8 else old(initFlags)
    {
      hide FullIndex, M.MemoryOk, WellFormed, SameExtents, Flat;
      hide MemoryManagementUnit.Valid, MemoryManagementUnit.Model, HandlerRegistry.Model;
      hide HexLoad.RecordsFit, HexLoad.Loaded, HexLoad.Stop, HexLoad.Loads, HexLoad.EntryPoint;
      hide HexMeaning.FileLoads, HexMeaning.StopsAt, HexMeaning.IsLoaded, HexMeaning.EntryBefore;
      ghost var (m, was) := (mmu.Model(), Flat(mmu.Model()));
      SameExtentsSelf(m);
      if !IsFlagSet(HAVE_CODE_BLOCK) {
        return false;
      }
      if IsFlagSet(PC_INITIALIZED) {
        return false;
      }
      M.BlocksWellFormed(m);
      HexMeaning.LoaderMeaning(m, was, hex, emptyIsNull);
      var ended, pcValue := LoadRecords(hex, emptyIsNull);
      if !ended {
        return false;
      }
      ok := InitPc(pcValue);
    }
  }
}
