/** What every run keeps, whatever the program and the host do. */
module Invariant {
  import opened Words
  import opened Wrappers
  import opened Interface
  import opened Opcode
  import opened Calculate
  import opened Registry
  import opened Memory
  import opened Machine

  /** No block moves, and only `start` makes a machine run. */
  ghost predicate Keeps(s: State, s': State) {
    SameExtents(s.mem, s'.mem) && (s'.running ==> s.running)
  }

  lemma ActKeeps(s: State, action: SysAction)
    requires Shaped(s)
    requires action.CallReadMemory? ==> action.size >= 1
    ensures Keeps(s, Act(s, action).state)
  {
    hide MemoryOk, WriteMemory, ReadMemory, FindBlock;
    SameExtentsSelf(s.mem);
    match action
    case CallWriteMemory(address, size, value) => WriteKeepsMemory(s, address, size, value);
    case _ =>
  }

  lemma {:induction false} PerformKeeps(s: State, script: seq<SysAction>)
    requires Shaped(s) && ValidScript(script)
    ensures Keeps(s, Perform(s, script).state)
    decreases |script|
  {
    hide MemoryOk, Act;
    if script != [] {
      ActKeeps(s, script[0]);
      if Act(s, script[0]).Completed? {
        PerformKeeps(Act(s, script[0]).state, script[1..]);
      }
    }
  }

  lemma ExecKeeps(op: Op, w: Word, s: State, env: Environment, script: seq<SysAction>)
    requires Shaped(s) && ValidScript(script)
    ensures Keeps(s, Exec(op, w, s, env, script).state)
  {
    hide MemoryOk, FindBlock, WriteMemory, ReadMemory, Perform, SameExtents;
    hide GetRd, GetRs1, GetRs2, DecodeI, DecodeIU, DecodeS, DecodeB, DecodeJ, Result, Compare, Loaded, And;
    SameExtentsSelf(s.mem);
    PerformKeeps(s, script);
    match op
    case Store(kind) =>
      WriteKeepsMemory(s, ToWord(GetRegister(s, GetRs1(w)) + Signed(DecodeS(w))), StoreSize(kind), GetRegister(s, GetRs2(w)));
    case _ =>
  }

  lemma StepKeeps(s: State, config: Config, script: seq<SysAction>)
    requires Ready(s) && ValidScript(script)
    ensures Keeps(s, Step(s, config, script).state)
  {
    hide MemoryOk, FindBlock, Find, Exec, WordOf, BytesAt;
    SameExtentsSelf(s.mem);
    if s.pc % 4 == 0 && Find(config.index, WordOf(BytesAt(s.mem, s.pc, 4))).Some? {
      ExecKeeps(Find(config.index, WordOf(BytesAt(s.mem, s.pc, 4))).value.op, WordOf(BytesAt(s.mem, s.pc, 4)), s, config.env, script);
    }
  }

  /** In every state that a run of any length reaches, x0 is zero, the four bytes at the program counter
      lie in one block, no block has moved, and a stopped machine stays stopped; after a completed
      step the program counter is aligned, even if the entry point was not. */
  lemma {:induction false} RunInvariant(s: State, config: Config, scripts: seq<seq<SysAction>>)
    requires Ready(s) && forall script | script in scripts :: ValidScript(script)
    ensures
      var o := Run(s, config, scripts);
      var s' := o.state;
      && |s'.x| == 32 && s'.x[0] == 0
      && (exists k | k in s'.mem :: ParamsOf(s'.mem, k).Covers(s'.pc, 4))
      && SameExtents(s.mem, s'.mem) && (s'.running ==> s.running)
      && (o.Completed? && s.running && scripts != [] ==> s'.pc % 4 == 0)
    decreases |scripts|
  {
    hide Step, FindBlock;
    InBlock(s.mem, s.pc, 4);
    assert ParamsOf(s.mem, FindBlock(s.mem, s.pc, 4).value).Covers(s.pc, 4);
    if s.running && scripts != [] {
      assert scripts[0] in scripts;
      StepKeeps(s, config, scripts[0]);
      var o := Step(s, config, scripts[0]);
      RunInvariant(o.state, config, if o.Completed? then scripts[1..] else []);
    }
  }

  /** A run on two lists of scripts is the run on the first and then, if that completes, on the second. */
  lemma {:induction false} RunInTwoParts(s: State, config: Config, a: seq<seq<SysAction>>, b: seq<seq<SysAction>>)
    requires Ready(s) && (forall script | script in a :: ValidScript(script)) && (forall script | script in b :: ValidScript(script))
    ensures var o := Run(s, config, a); Run(s, config, a + b) == if o.Completed? then Run(o.state, config, b) else o
    decreases |a|
  {
    hide Ready, Step;
    if a == [] {
      assert a + b == b;
    } else if s.running {
      assert (a + b)[1..] == a[1..] + b && a[0] in a;
      var o := Step(s, config, a[0]);
      if o.Completed? {
        RunInTwoParts(o.state, config, a[1..], b);
      }
    }
  }

  /** A run that has stopped or thrown is what it is for every number of further steps: the scripts
      bound the steps of a run and have no other effect on where it ends. */
  lemma MoreStepsChangeNothing(s: State, config: Config, scripts: seq<seq<SysAction>>, more: seq<seq<SysAction>>)
    requires Ready(s)
    requires (forall script | script in scripts :: ValidScript(script)) && (forall script | script in more :: ValidScript(script))
    ensures var o := Run(s, config, scripts);
            o.Thrown? || !o.state.running ==> Run(s, config, scripts + more) == o
  {
    hide Ready;
    RunInTwoParts(s, config, scripts, more);
  }
}
