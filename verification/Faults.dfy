/** What a step that throws leaves behind. */
module Faults {
  import opened Words
  import opened Wrappers
  import opened Interface
  import opened Opcode
  import opened Registry
  import opened Memory
  import opened Machine
  import opened Refinement
  import opened Invariant
  import R = Reference

  /** The handler that the step dispatches to, if the fetch is aligned and the word is known. */
  ghost function Dispatched(s: State): Option<Op>
    requires Ready(s)
  {
    if s.pc % 4 != 0 then None
    else
      match Find(FullIndex(), WordOf(BytesAt(s.mem, s.pc, 4)))
      case Some(h) => Some(h.op)
      case None => None
  }

  /** The step hands control to a registered host callback. */
  predicate CallsHost(op: Op, w: Word, s: State, env: Environment)
    requires |s.x| == 32
  {
    op.EnvCall? && DecodeIU(w) == 0 && GetRegister(s, 17) in env.syscalls
  }

  /** The registers after the link write of JAL and JALR. */
  function Linked(s: State, rd: nat): State
    requires |s.x| == 32 && rd < 32
  {
    if rd > 0 then s.(x := s.x[rd := ToWord(s.pc + 4)]) else s
  }

  lemma ThrownJump(op: Op, w: Word, s: State, env: Environment, script: seq<SysAction>)
    requires Shaped(s) && ValidScript(script) && Skips(op)
    requires ExecAndAdvance(op, w, s, env, script).Thrown?
    ensures !CallsHost(op, w, s, env)
    ensures ExecAndAdvance(op, w, s, env, script).state == if op.Branch? then s else Linked(s, GetRd(w))
  {
    hide MemoryOk, FindBlock, GetRd, GetRs1, GetRs2, DecodeI, DecodeJ, DecodeB, And, Calculate.Compare;
  }

  lemma ThrownEffect(op: Op, w: Word, s: State, env: Environment, script: seq<SysAction>)
    requires Shaped(s) && ValidScript(script) && !Skips(op) && !CallsHost(op, w, s, env)
    ensures var o := Exec(op, w, s, env, script);
            o.state.pc == s.pc && o.state.running == s.running && (o.Thrown? ==> o.state == s)
  {
    hide MemoryOk, FindBlock, GetRd, GetRs1, GetRs2, DecodeI, DecodeS, DecodeIU, Result, Calculate.Loaded, BytesAt, WordOf, Patch, ToBytes;
    assert GetRd(w) < 32;
  }

  lemma HostEffect(op: Op, w: Word, s: State, env: Environment, script: seq<SysAction>)
    requires Shaped(s) && ValidScript(script) && CallsHost(op, w, s, env)
    ensures Exec(op, w, s, env, script) == Perform(s, script)
  {
    hide MemoryOk, Perform, DecodeIU;
  }

  /** What a step that throws may leave of its effects. Nothing was fetched or decoded: nothing. JAL and
      JALR: the link register, although the target was rejected. A trap of the reference machine, loads
      and stores included: nothing. A completed effect whose next instruction is not mapped: that whole
      effect. A host callback: its calls up to the one that threw. The program counter stays at the
      faulting instruction unless a callback moved it. */
  ghost predicate LeftBehind(s: State, env: Environment, script: seq<SysAction>, s': State)
    requires Ready(s) && ValidScript(script)
  {
    var r := R.Step(Abs(s), env, script);
    var w := WordOf(BytesAt(s.mem, s.pc, 4));
    match Dispatched(s)
    case None => s' == s
    case Some(op) =>
      && (if CallsHost(op, w, s, env) then s' == Perform(s, script).state else s'.pc == s.pc && s'.running == s.running)
      && (op.Jal? || op.Jalr? ==>
            && s' == s.(x := s'.x) && |s'.x| == 32
            && forall r | 0 <= r < 32 :: s'.x[r] == if r == GetRd(w) && r != 0 then ToWord(s.pc + 4) else s.x[r])
      && (op.Branch? ==> s' == s)
      && (!Skips(op) && r.Trapped? && !CallsHost(op, w, s, env) ==> s' == s)
      && (!Skips(op) && r.Next? ==> r.state == R.Advance(Abs(s')))
  }

  /** Every step that throws leaves behind exactly that. */
  lemma FaultingStep(s: State, env: Environment, script: seq<SysAction>)
    requires Ready(s) && ValidScript(script)
    ensures var o := Step(s, Config(FullIndex(), env), script); o.Thrown? ==> LeftBehind(s, env, script, o.state)
  {
    hide MemoryOk, FindBlock, Find, FullIndex, R.Decode, Abs, R.Peek, BytesAt, WordOf, GetRd, Exec, ExecAndAdvance, R.Execute, InstructionOf, CallsHost, R.Advance;
    if Step(s, Config(FullIndex(), env), script).Thrown? && Dispatched(s).Some? {
      var op := Dispatched(s).value;
      var w := WordOf(BytesAt(s.mem, s.pc, 4));
      FetchIsLoadWord(s);
      DecodeAgrees(w);
      StepUnfolds(s, env, script, w, op);
      if Skips(op) {
        ThrownJump(op, w, s, env, script);
      } else {
        ThrownAdvance(op, w, s, env, script);
      }
    }
  }

  /** The exception of each step that throws: what is misaligned, unknown, unmapped or not supported. */
  lemma ThrownErrors(s: State, env: Environment, script: seq<SysAction>)
    requires Ready(s) && ValidScript(script)
    ensures var o := Step(s, Config(FullIndex(), env), script);
            var r := R.Step(Abs(s), env, script);
            o.Thrown? ==>
              && (r.Next? ==> o.error == CodeAccessError)
              && (r.Trapped? ==>
                    match r.trap
                    case FetchFault => o.error == DataAccessError
                    case TargetMisaligned => o.error == CodeAccessError
                    case TargetUnmapped => o.error == CodeAccessError
                    case DataFault => o.error == DataAccessError
                    case IllegalInstruction => o.error == UnknownInstruction
                    case CsrUnsupported => o.error == ControlAccessError
                    case UnknownCall => o.error == UnknownSyscall
                    case CallRaised(error) => o.error == error)
  {
    hide Ready, FullIndex, Step, R.Step, R.Fetchable, Abs, ErrorOf;
    StepRefines(s, env, script);
    var r := R.Step(Abs(s), env, script);
    if r.Trapped? {
      TrapErrors(r);
    }
  }

  lemma TrapErrors(r: R.Result)
    requires r.Trapped?
    ensures ErrorOf(r.trap) ==
            match r.trap
            case FetchFault => DataAccessError
            case TargetMisaligned => CodeAccessError
            case TargetUnmapped => CodeAccessError
            case DataFault => DataAccessError
            case IllegalInstruction => UnknownInstruction
            case CsrUnsupported => ControlAccessError
            case UnknownCall => UnknownSyscall
            case CallRaised(error) => error
  {
  }

  // ---- runs that throw ----

  /** The run reaches step `k` and that step throws. */
  ghost predicate ThrowsAt(s: State, env: Environment, scripts: seq<seq<SysAction>>, k: nat)
    requires Ready(s) && forall script | script in scripts :: ValidScript(script)
  {
    k < |scripts| &&
    var before := Run(s, Config(FullIndex(), env), scripts[..k]);
    before.Completed? && before.state.running && Step(before.state, Config(FullIndex(), env), scripts[k]).Thrown?
  }

  /** What a run that throws at step `k` did: the reference machine's first `k` steps, all of them to
      program counters that can be fetched from, and then what the faulting step leaves behind. The
      exception is that of the reference's trap at step `k`, or of the unmapped address it goes to. */
  ghost predicate FaultOf(s: State, env: Environment, scripts: seq<seq<SysAction>>, k: nat, o: Outcome)
    requires Ready(s) && forall script | script in scripts :: ValidScript(script)
  {
    ThrowsAt(s, env, scripts, k) && o.Thrown? &&
    var before := Run(s, Config(FullIndex(), env), scripts[..k]).state;
    var r := R.Step(Abs(before), env, scripts[k]);
    && R.Run(Abs(s), env, scripts[..k]) == R.Next(Abs(before)) && AllFetchable(Abs(s), env, scripts[..k])
    && (r.Next? ==> !R.Fetchable(r.state))
    && o.error == (if r.Next? then CodeAccessError else ErrorOf(r.trap))
    && LeftBehind(before, env, scripts[k], o.state)
  }

  lemma {:induction false} ThrowsSomewhere(s: State, env: Environment, scripts: seq<seq<SysAction>>)
    requires Ready(s) && forall script | script in scripts :: ValidScript(script)
    requires Run(s, Config(FullIndex(), env), scripts).Thrown?
    ensures exists k: nat :: ThrowsAt(s, env, scripts, k)
    decreases |scripts|
  {
    hide Ready, Step, FullIndex;
    if scripts != [] {
      var n := |scripts| - 1;
      var init := scripts[..n];
      assert scripts == init + [scripts[n]];
      assert scripts[n] in scripts;
      RunInTwoParts(s, Config(FullIndex(), env), init, [scripts[n]]);
      if Run(s, Config(FullIndex(), env), init).Thrown? {
        ThrowsSomewhere(s, env, init);
        var k: nat :| ThrowsAt(s, env, init, k);
        assert k < n && init[..k] == scripts[..k];
        assert ThrowsAt(s, env, scripts, k);
      } else {
        assert ThrowsAt(s, env, scripts, n);
      }
    }
  }

  lemma ThrownAt(s: State, env: Environment, scripts: seq<seq<SysAction>>, k: nat)
    requires Ready(s) && forall script | script in scripts :: ValidScript(script)
    requires ThrowsAt(s, env, scripts, k)
    ensures Run(s, Config(FullIndex(), env), scripts).Thrown?
    ensures FaultOf(s, env, scripts, k, Run(s, Config(FullIndex(), env), scripts))
  {
    hide Ready, Step, FullIndex, LeftBehind, R.Step, Abs, R.Fetchable;
    var before := Run(s, Config(FullIndex(), env), scripts[..k]).state;
    assert scripts == scripts[..k] + scripts[k..];
    assert scripts[k] in scripts;
    RunInTwoParts(s, Config(FullIndex(), env), scripts[..k], scripts[k..]);
    assert scripts[k..][0] == scripts[k];
    RunRefines(s, env, scripts[..k]);
    StepRefines(before, env, scripts[k]);
    FaultingStep(before, env, scripts[k]);
  }

  /** A run throws iff some step that it reaches does. It then has made the reference machine's steps up
      to there, throws the exception of that step, and leaves behind what that step does. */
  lemma FaultingRun(s: State, env: Environment, scripts: seq<seq<SysAction>>)
    requires Ready(s) && forall script | script in scripts :: ValidScript(script)
    ensures Run(s, Config(FullIndex(), env), scripts).Thrown? <==> exists k: nat :: ThrowsAt(s, env, scripts, k)
    ensures forall k: nat | ThrowsAt(s, env, scripts, k) :: FaultOf(s, env, scripts, k, Run(s, Config(FullIndex(), env), scripts))
  {
    hide Ready, ThrowsAt, FaultOf, Run, FullIndex;
    if Run(s, Config(FullIndex(), env), scripts).Thrown? {
      ThrowsSomewhere(s, env, scripts);
    }
    forall k: nat | ThrowsAt(s, env, scripts, k)
      ensures Run(s, Config(FullIndex(), env), scripts).Thrown?
      ensures FaultOf(s, env, scripts, k, Run(s, Config(FullIndex(), env), scripts))
    {
      ThrownAt(s, env, scripts, k);
    }
  }

  lemma StepUnfolds(s: State, env: Environment, script: seq<SysAction>, w: Word, op: Op)
    requires Ready(s) && ValidScript(script)
    requires Dispatched(s) == Some(op) && w == WordOf(BytesAt(s.mem, s.pc, 4))
    ensures Step(s, Config(FullIndex(), env), script) == ExecAndAdvance(op, w, s, env, script)
    ensures R.Step(Abs(s), env, script) == R.Execute(InstructionOf(op, w), Abs(s), env, script)
  {
    hide MemoryOk, FindBlock, Find, FullIndex, R.Decode, Flat, Regions, R.Accessible, R.Peek, BytesAt, WordOf, ExecAndAdvance, R.Execute, InstructionOf;
    FetchIsLoadWord(s);
    DecodeAgrees(w);
    LookupAgrees(s, s.pc, 4);
  }

  lemma ThrownAdvance(op: Op, w: Word, s: State, env: Environment, script: seq<SysAction>)
    requires Shaped(s) && ValidScript(script) && !Skips(op)
    requires ExecAndAdvance(op, w, s, env, script).Thrown?
    ensures var s' := ExecAndAdvance(op, w, s, env, script).state;
            var r := R.Execute(InstructionOf(op, w), Abs(s), env, script);
            && (if CallsHost(op, w, s, env) then s' == Perform(s, script).state else s'.pc == s.pc && s'.running == s.running)
            && (!CallsHost(op, w, s, env) && r.Trapped? ==> s' == s)
            && (r.Next? ==> r.state == R.Advance(Abs(s')))
  {
    hide MemoryOk, FindBlock, Exec, R.Execute, InstructionOf, Abs, CallsHost, R.Advance;
    EffectOf(op, w, s, env, script);
    if CallsHost(op, w, s, env) {
      HostEffect(op, w, s, env, script);
    } else {
      ThrownEffect(op, w, s, env, script);
    }
  }
}
