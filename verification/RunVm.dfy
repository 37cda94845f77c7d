/** The command line tool's `run_vm`: build a machine, load a program into it, and run it. */
module RunVm {
  import opened Words
  import opened Wrappers
  import opened Interface
  import opened Memory
  import opened Refinement
  import B = BasicVm
  import M = Machine
  import R = Reference
  import Registry
  import Mmu
  import Faults
  import Hex
  import HexLoad
  import HexMeaning

  /** The size of the code block, from address 0 on, and of the data block right above it. */
  const BLOCK_SIZE: Word := 0x40_0000

  /** What `load_helper` holds after it has read a file. */
  datatype Program = Binary(bytes: seq<Byte>) | HexFile(records: seq<Hex.HexRecord>)

  // ---- the machine before the program ----

  ghost function FreshBlocks(): (m: Blocks)
    ensures WellFormed(m) && M.MemoryOk(m)
    ensures m.Keys == {0, 0x40_0000} && |m[0]| == |m[0x40_0000]| == 0x40_0000
  {
    map[0 := Zeros(BLOCK_SIZE), BLOCK_SIZE := Zeros(BLOCK_SIZE)]
  }

  /** Memory that holds these bytes, from address 0 on. */
  function FlatBytes(bytes: seq<Byte>): FlatMemory {
    map a: int | 0 <= a < |bytes| :: bytes[a]
  }

  function ZeroMemory(): (mem: FlatMemory)
    ensures forall a: int :: a in mem <==> 0 <= a < 0x80_0000
    ensures forall a | a in mem :: mem[a] == 0
  {
    FlatBytes(seq(0x80_0000, i => 0))
  }

  lemma FreshIsZero()
    ensures Flat(FreshBlocks()) == ZeroMemory()
    ensures Regions(FreshBlocks()) == {(0, 0x40_0000), (0x40_0000, 0x40_0000)}
  {
    var m := FreshBlocks();
    assert |m[0]| == |m[BLOCK_SIZE]| == BLOCK_SIZE;
    forall a: int
      ensures Mapped(m, a) <==> 0 <= a < 2 * BLOCK_SIZE
      ensures Mapped(m, a) ==> ByteAt(m, a) == 0
    {
      if 0 <= a < 2 * BLOCK_SIZE {
        ByteOfBlock(m, if a < BLOCK_SIZE then 0 else BLOCK_SIZE, a);
      }
    }
  }

  // ---- the program in memory, in the reference's terms ----

  /** The program loads: a binary that is not empty and fits the code block, or a HEX file that does. */
  ghost predicate CanLoad(program: Program, emptyIsNull: bool) {
    match program
    case Binary(bytes) => 0 < |bytes| <= 0x40_0000
    case HexFile(records) => HexMeaning.FileLoads(FreshBlocks(), records, emptyIsNull)
  }

  /** Memory and entry point of a loaded program. A binary lies at address 0 with zeroes after it, and
      starts there. A HEX file puts each record's data at its address over zeroes. */
  ghost predicate IsInMemory(program: Program, emptyIsNull: bool, mem: FlatMemory, entry: Word) {
    && (forall a: int :: a in mem <==> 0 <= a < 0x80_0000)
    && match program
       case Binary(bytes) => entry == 0 && forall a | a in mem :: mem[a] == if a < |bytes| then bytes[a] else 0
       case HexFile(records) =>
         exists stop: nat ::
           && HexMeaning.StopsAt(FreshBlocks(), records, stop, emptyIsNull)
           && HexMeaning.IsLoaded(ZeroMemory(), mem, records, stop)
           && entry == HexMeaning.EntryBefore(records, stop)
  }

  /** The reference machine with zeroed registers, the program in memory and its entry point. */
  ghost predicate IsStart(program: Program, emptyIsNull: bool, start: R.State) {
    && |start.x| == 32 && (forall r | 0 <= r < 32 :: start.x[r] == 0)
    && start.running && start.regions == {(0, 0x40_0000), (0x40_0000, 0x40_0000)}
    && IsInMemory(program, emptyIsNull, start.mem, start.pc)
  }

  /** The reference machine makes `k` steps, each to a program counter that can be fetched from. It is
      then still running, and the next step fails: it traps, or goes where nothing can be fetched. This
      is the exception for that. */
  ghost predicate ThrowsAfter(s: R.State, env: Environment, scripts: seq<seq<SysAction>>, k: nat, error: Error) {
    k < |scripts| &&
    var before := R.Run(s, env, scripts[..k]);
    before.Next? && before.state.running && AllFetchable(s, env, scripts[..k]) &&
    var r := R.Step(before.state, env, scripts[k]);
    (r.Next? ==> !R.Fetchable(r.state)) &&
    error == if r.Next? then CodeAccessError else ErrorOf(r.trap)
  }

  // ---- building, loading, running ----

  ghost predicate IsBooted(machine: B.BasicVm)
    reads machine, machine.registers, machine.mmu, machine.mmu.memory.Values, machine.opcodes
  {
    && machine.Valid() && machine.IsaMatchesFlag() && !machine.running
    && machine.mmu.Model() == FreshBlocks() && machine.codeBase == 0
    && machine.initFlags == 7
  }

  /** On a new machine both initialisations succeed. */
  method Boot(syscalls: set<Word>) returns (machine: B.BasicVm, ok: bool)
    ensures ok && IsBooted(machine) && !machine.running && machine.Env() == Environment(syscalls, true)
    ensures forall a: int :: a in Flat(machine.mmu.Model()) <==> 0 <= a < 0x80_0000
    ensures forall a | a in Flat(machine.mmu.Model()) :: Flat(machine.mmu.Model())[a] == 0
    ensures machine.registers.Length == 33
    ensures fresh(machine) && fresh(machine.registers) && fresh(machine.opcodes)
    ensures fresh(machine.mmu) && fresh(machine.mmu.memory.Values)
  {
    hide Registry.FullIndex, Registry.EMPTY, FreshBlocks, Placeable, Admissible, WithBlock, WellFormed, M.MemoryOk, Flat, ZeroMemory;
    hide Mmu.MemoryManagementUnit.Valid;
    machine := new B.BasicVm();
    machine.syscalls := syscalls;
    assert machine.mmu.Model() == map[];
    var isaOk := machine.InitIsa();
    DefaultBlocks();
    FreshIsZero();
    var memOk := machine.InitMemory(BLOCK_SIZE, BLOCK_SIZE);
    ok := isaOk && memOk;
  }

  lemma DefaultBlocks()
    ensures var none: Blocks := map[];
            && Admissible(none, 0, BLOCK_SIZE) && Placeable(none, 0, BLOCK_SIZE)
            && WithBlock(none, 0, BLOCK_SIZE) == map[0 := Zeros(BLOCK_SIZE)]
            && Admissible(map[0 := Zeros(BLOCK_SIZE)], BLOCK_SIZE, BLOCK_SIZE)
            && Placeable(map[0 := Zeros(BLOCK_SIZE)], BLOCK_SIZE, BLOCK_SIZE)
            && WithBlock(map[0 := Zeros(BLOCK_SIZE)], BLOCK_SIZE, BLOCK_SIZE) == FreshBlocks()
  {
  }

  lemma BinaryFits(n: nat)
    requires n < TWO32
    ensures NoWrap(FreshBlocks(), 0, n)
    ensures FindBlock(FreshBlocks(), 0, n).Some? <==> n <= BLOCK_SIZE
  {
    hide FindBlock;
    var m := FreshBlocks();
    assert |m[0]| == |m[BLOCK_SIZE]| == BLOCK_SIZE;
    if n > 0 {
      FindBlockExact(m, 0, n);
    } else {
      assert Hit(m, 0, 0, n);
      SomeHit(m, 0, 0, n);
    }
  }

  lemma SomeHit(m: Blocks, k: Word, address: Word, n: Word)
    requires Sized(m) && Hit(m, k, address, n)
    ensures FindBlock(m, address, n).Some?
  {
  }

  /** `load_helper::set_program` */
  method LoadProgram(machine: B.BasicVm, program: Program, emptyIsNull: bool) returns (ok: bool)
    requires IsBooted(machine) && (program.Binary? ==> |program.bytes| < TWO32)
    modifies machine`initFlags, machine`initialPc, machine.mmu.memory.Values
    ensures machine.Valid() && machine.IsaMatchesFlag() && M.MemoryOk(machine.mmu.Model())
    ensures ok == CanLoad(program, emptyIsNull)
    ensures ok ==>
              && machine.initFlags == 15 && SameExtents(FreshBlocks(), machine.mmu.Model())
              && IsInMemory(program, emptyIsNull, Flat(machine.mmu.Model()), machine.initialPc)
  {
    hide Registry.FullIndex, FindBlock, Flat, FreshBlocks, ZeroMemory, HexMeaning.FileLoads, HexMeaning.Good, HexMeaning.IsLoaded;
    hide IsInMemory, Overlay, WellFormed, M.MemoryOk, Mmu.MemoryManagementUnit.Valid, NoWrap, HexLoad.RecordsFit, HexMeaning.EntryBefore;
    FreshIsZero();
    match program
    case Binary(bytes) =>
      if bytes == [] {
        return false;
      }
      BinaryFits(|bytes|);
      ok := machine.SetProgram(bytes, 0);
      if ok {
        BinaryInMemory(bytes, emptyIsNull);
      }
    case HexFile(records) =>
      if records == [] {
        EmptyFile(emptyIsNull);
        return false;
      }
      RoomForRecords(records);
      ok := machine.SetProgramHex(records, emptyIsNull);
      if ok {
        ghost var mem := Flat(machine.mmu.Model());
        ghost var stop: nat :| HexMeaning.StopsAt(FreshBlocks(), records, stop, emptyIsNull)
          && HexMeaning.IsLoaded(ZeroMemory(), mem, records, stop) && machine.initialPc == HexMeaning.EntryBefore(records, stop);
        FileInMemory(records, emptyIsNull, mem, machine.initialPc, stop);
      }
  }

  lemma BinaryInMemory(bytes: seq<Byte>, emptyIsNull: bool)
    requires |bytes| <= 0x40_0000
    ensures IsInMemory(Binary(bytes), emptyIsNull, Overlay(ZeroMemory(), 0, bytes), 0)
  {
  }

  lemma FileInMemory(records: seq<Hex.HexRecord>, emptyIsNull: bool, mem: FlatMemory, entry: Word, stop: nat)
    requires HexMeaning.StopsAt(FreshBlocks(), records, stop, emptyIsNull)
    requires HexMeaning.IsLoaded(ZeroMemory(), mem, records, stop) && entry == HexMeaning.EntryBefore(records, stop)
    ensures IsInMemory(HexFile(records), emptyIsNull, mem, entry)
  {
    hide HexMeaning.Good, FreshBlocks;
    LoadedKeys(ZeroMemory(), mem, records, stop);
  }

  lemma LoadedKeys(was: FlatMemory, now: FlatMemory, records: seq<Hex.HexRecord>, stop: nat)
    requires stop <= |records| && HexMeaning.IsLoaded(was, now, records, stop)
    ensures forall a: int :: a in now <==> a in was
  {
  }

  lemma EmptyFile(emptyIsNull: bool)
    ensures !HexMeaning.FileLoads(FreshBlocks(), [], emptyIsNull)
  {
  }

  lemma RoomForRecords(records: seq<Hex.HexRecord>)
    ensures forall emptyIsNull :: HexLoad.RecordsFit(FreshBlocks(), records, emptyIsNull)
  {
    HexLoad.RecordsFitInRoom(FreshBlocks(), records);
  }

  lemma StartAgrees(s: M.State, program: Program, emptyIsNull: bool)
    requires M.Shaped(s) && s.x == seq(32, i => 0) && s.running
    requires IsInMemory(program, emptyIsNull, Flat(s.mem), s.pc) && SameExtents(FreshBlocks(), s.mem)
    ensures IsStart(program, emptyIsNull, Abs(s))
  {
    hide FreshBlocks, IsInMemory, Flat, FindBlock, Disjoint, Roomy;
    FreshIsZero();
    SameRegions(FreshBlocks(), s.mem);
  }

  /** What a run of the machine that throws leaves behind: if the entry point is unmapped, the start
      state with the program counter at zero and not running; else, after some number of the reference's
      steps, the partial effect of the step that fails. */
  ghost predicate ThrownFrom(start: R.State, env: Environment, scripts: seq<seq<SysAction>>, error: Error, left: M.State)
    requires forall script | script in scripts :: ValidScript(script)
  {
    if !R.Fetchable(start) then error == CodeAccessError && Abs(left) == start.(pc := 0, running := false)
    else exists k: nat, s: M.State ::
           M.Ready(s) && Abs(s) == start && Faults.FaultOf(s, env, scripts, k, M.Thrown(error, left))
           && ThrowsAfter(start, env, scripts, k, error)
  }

  lemma StoppedAtStart(s: M.State, s': M.State)
    requires s'.x == s.x && s'.mem == s.mem && s'.pc == 0 && !s'.running
    ensures Abs(s') == Abs(s).(pc := 0, running := false)
  {
  }

  lemma ThrownByStart(start: R.State, env: Environment, scripts: seq<seq<SysAction>>, s: M.State, left: M.State)
    requires forall script | script in scripts :: ValidScript(script)
    requires start == Abs(s) && !R.Fetchable(start)
    requires left.x == s.x && left.mem == s.mem && left.pc == 0 && !left.running
    ensures ThrownFrom(start, env, scripts, CodeAccessError, left)
  {
    hide R.Fetchable;
    StoppedAtStart(s, left);
  }

  lemma ThrownByStep(s: M.State, env: Environment, scripts: seq<seq<SysAction>>, k: nat, error: Error, left: M.State)
    requires M.Ready(s) && forall script | script in scripts :: ValidScript(script)
    requires R.Fetchable(Abs(s)) && Faults.FaultOf(s, env, scripts, k, M.Thrown(error, left))
    ensures ThrownFrom(Abs(s), env, scripts, error, left)
  {
    hide R.Fetchable, M.Ready, Faults.FaultOf, ThrowsAfter, Abs;
    FaultIsThrow(s, env, scripts, k, M.Thrown(error, left));
  }

  lemma FaultIsThrow(s: M.State, env: Environment, scripts: seq<seq<SysAction>>, k: nat, o: M.Outcome)
    requires M.Ready(s) && forall script | script in scripts :: ValidScript(script)
    requires Faults.FaultOf(s, env, scripts, k, o)
    ensures o.Thrown? && ThrowsAfter(Abs(s), env, scripts, k, o.error)
  {
    hide M.Ready, Abs, R.Step, R.Run, M.Run, R.Fetchable, AllFetchable, M.Step, Registry.FullIndex, Faults.LeftBehind;
    AbsRunning(M.Run(s, M.Config(Registry.FullIndex(), env), scripts[..k]).state);
  }

  /** The machine that `start` makes of a loaded one, if the entry point is mapped. */
  ghost function Started(machine: B.BasicVm): M.State
    reads machine`initialPc, machine.mmu, machine.mmu.memory.Values
  {
    M.State(seq(32, i => 0), machine.initialPc, machine.mmu.Model(), true)
  }

  /** The run from `start` ends as the reference run does, or throws where that fails. */
  ghost predicate EndsLike(start: R.State, env: Environment, scripts: seq<seq<SysAction>>, st: B.Status, left: M.State)
    requires forall script | script in scripts :: ValidScript(script)
  {
    && (st.Ok? <==> R.Fetchable(start) && AllFetchable(start, env, scripts) && R.Run(start, env, scripts).Next?)
    && (st.Ok? ==> R.Run(start, env, scripts) == R.Next(Abs(left)))
    && (st.Throw? ==> ThrownFrom(start, env, scripts, st.error, left))
  }

  lemma FetchableIsMapped(s: M.State)
    requires M.Shaped(s)
    ensures R.Fetchable(Abs(s)) <==> M.Mapped4(s.mem, s.pc)
  {
    hide Flat, FindBlock, Disjoint, Roomy;
    LookupAgrees(s, s.pc, 4);
  }

  method StartAndRun(machine: B.BasicVm, scripts: seq<seq<SysAction>>) returns (st: B.Status)
    requires machine.Valid() && machine.IsaMatchesFlag() && machine.initFlags == 15 && !machine.running
    requires forall script | script in scripts :: ValidScript(script)
    modifies machine`running, machine.registers, machine.mmu.memory.Values
    ensures machine.Valid()
    ensures EndsLike(old(Abs(Started(machine))), machine.Env(), scripts, st, machine.Snapshot())
  {
    hide Registry.FullIndex, Abs, M.Ready, M.Mapped4, M.MemoryOk, M.Run, Flat, FindBlock, ThrownFrom;
    hide R.Run, R.Fetchable, AllFetchable, Faults.FaultOf, Mmu.MemoryManagementUnit.Valid;
    ghost var s := Started(machine);
    FetchableIsMapped(s);
    st := machine.Start();
    if st.Throw? {
      ThrownByStart(Abs(s), machine.Env(), scripts, s, machine.Snapshot());
      return;
    }
    assert machine.Snapshot() == s;
    st := machine.Run(scripts);
    if st.Throw? {
      ghost var k: nat :| Faults.FaultOf(s, machine.Env(), scripts, k, M.Thrown(st.error, machine.Snapshot()));
      ThrownByStep(s, machine.Env(), scripts, k, st.error, machine.Snapshot());
    }
  }

  /** From nothing to the end of the run. The program is loaded iff it can be. The machine then completes
      iff the reference machine, started on the loaded memory, does with every program counter mapped, and
      ends in its state; otherwise it throws the exception of the step that the reference run fails at, or
      of an unmapped entry point, and leaves that step's partial effect behind. */
  method RunVm(program: Program, emptyIsNull: bool, syscalls: set<Word>, scripts: seq<seq<SysAction>>)
    returns (machine: B.BasicVm, loaded: bool, st: B.Status, ghost start: R.State)
    requires program.Binary? ==> |program.bytes| < TWO32
    requires forall script | script in scripts :: ValidScript(script)
    ensures machine.Valid() && loaded == CanLoad(program, emptyIsNull)
    ensures !loaded ==> !machine.running && st.Ok?
    ensures loaded ==>
              && IsStart(program, emptyIsNull, start)
              && EndsLike(start, Environment(syscalls, true), scripts, st, machine.Snapshot())
  {
    hide Registry.FullIndex, FreshBlocks, CanLoad, IsInMemory, IsStart, IsBooted, EndsLike, Abs, Flat, B.BasicVm.Valid;
    var ok;
    machine, ok := Boot(syscalls);
    loaded := LoadProgram(machine, program, emptyIsNull);
    if !loaded {
      return machine, false, B.Ok, R.State([], 0, map[], {}, false);
    }
    start := Abs(Started(machine));
    StartAgrees(Started(machine), program, emptyIsNull);
    st := StartAndRun(machine, scripts);
  }
}
