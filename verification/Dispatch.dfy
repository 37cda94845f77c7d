/** The registry object and the functions that fill it. */
module Dispatch {
  import opened Words
  import opened Wrappers
  import opened Registry
  import opened Calculate

  class HandlerRegistry {
    var handlers: map<Word, Handler>
    /** Groups whose instructions have func3 in their key. */
    var funcA: set<Word>
    /** (group, func3) pairs whose instructions have func7 in their key. */
    var funcB: set<Word>

    ghost function Model(): Index
      reads this
    {
      Index(handlers, funcA, funcB)
    }

    constructor ()
      ensures Model() == EMPTY
    {
      handlers, funcA, funcB := map[], {}, {};
    }

    /** False, and no change, if the id is already registered. */
    method RegisterHandler(handler: Handler) returns (ok: bool)
      modifies this
      ensures (ok, Model()) == Register(old(Model()), handler)
    {
      if Id(handler) in handlers {
        return false;
      }
      handlers := handlers[Id(handler) := handler];
      if handler.funcA != NO_FUNC_A {
        funcA := funcA + {handler.group};
      }
      if handler.funcB != NO_FUNC_B {
        funcB := funcB + {FuncBKey(handler.group, handler.funcA)};
      }
      return true;
    }

    function FindHandler(code: Word): (r: Option<Handler>)
      reads this
      ensures r == Find(Model(), code)
    {
      Find(Index(handlers, funcA, funcB), code)
    }
  }

  lemma Snoc(ok: bool, ix: Index, ops: seq<Op>, op: Op)
    ensures Handlers(ops + [op]) == Handlers(ops) + [HandlerOf(op)]
    ensures RegisterAll(ok, ix, Handlers(ops + [op])) ==
            var (ok', ix') := RegisterAll(ok, ix, Handlers(ops));
            if ok' then Register(ix', HandlerOf(op)) else (false, ix')
  {
    hide Register, HandlerOf;
    assert Handlers(ops + [op]) == Handlers(ops) + [HandlerOf(op)];
    RegisterAllConcat(ok, ix, Handlers(ops), [HandlerOf(op)]);
    var (ok', ix') := RegisterAll(ok, ix, Handlers(ops));
    assert [HandlerOf(op)][1..] == [];
  }

  /** `ok = ok && r->register_handler<op>()`, after the operations `done` of the same list. */
  method Add(r: HandlerRegistry, ok: bool, op: Op, ghost ok0: bool, ghost ix0: Index, ghost done: seq<Op>)
    returns (ok': bool, ghost done': seq<Op>)
    requires (ok, r.Model()) == RegisterAll(ok0, ix0, Handlers(done))
    modifies r
    ensures done' == done + [op]
    ensures (ok', r.Model()) == RegisterAll(ok0, ix0, Handlers(done'))
  {
    Snoc(ok0, ix0, done, op);
    ok', done' := ok, done + [op];
    if ok {
      ok' := r.RegisterHandler(HandlerOf(op));
    }
  }

  lemma NothingYet(ok: bool, ix: Index)
    ensures Handlers([]) == []
    ensures RegisterAll(ok, ix, []) == (ok, ix)
  {
  }

  method AddBranch(r: HandlerRegistry, ok: bool) returns (ok': bool)
    modifies r
    ensures (ok', r.Model()) == RegisterAll(ok, old(r.Model()), Handlers(BRANCHES))
  {
    hide RegisterAll, Register, Handlers, HandlerOf;
    ok' := ok;
    ghost var ix, done := r.Model(), [];
    NothingYet(ok, ix);
    ok', done := Add(r, ok', Branch(Beq), ok, ix, done);
    ok', done := Add(r, ok', Branch(Bne), ok, ix, done);
    ok', done := Add(r, ok', Branch(Blt), ok, ix, done);
    ok', done := Add(r, ok', Branch(Bge), ok, ix, done);
    ok', done := Add(r, ok', Branch(Bltu), ok, ix, done);
    ok', done := Add(r, ok', Branch(Bgeu), ok, ix, done);
    assert done == BRANCHES;
  }

  method AddLoad(r: HandlerRegistry, ok: bool) returns (ok': bool)
    modifies r
    ensures (ok', r.Model()) == RegisterAll(ok, old(r.Model()), Handlers(LOADS))
  {
    hide RegisterAll, Register, Handlers, HandlerOf;
    ok' := ok;
    ghost var ix, done := r.Model(), [];
    NothingYet(ok, ix);
    ok', done := Add(r, ok', Load(Lb), ok, ix, done);
    ok', done := Add(r, ok', Load(Lh), ok, ix, done);
    ok', done := Add(r, ok', Load(Lw), ok, ix, done);
    ok', done := Add(r, ok', Load(Lbu), ok, ix, done);
    ok', done := Add(r, ok', Load(Lhu), ok, ix, done);
    assert done == LOADS;
  }

  method AddStore(r: HandlerRegistry, ok: bool) returns (ok': bool)
    modifies r
    ensures (ok', r.Model()) == RegisterAll(ok, old(r.Model()), Handlers(STORES))
  {
    hide RegisterAll, Register, Handlers, HandlerOf;
    ok' := ok;
    ghost var ix, done := r.Model(), [];
    NothingYet(ok, ix);
    ok', done := Add(r, ok', Store(Sb), ok, ix, done);
    ok', done := Add(r, ok', Store(Sh), ok, ix, done);
    ok', done := Add(r, ok', Store(Sw), ok, ix, done);
    assert done == STORES;
  }

  method AddIntImm(r: HandlerRegistry, ok: bool) returns (ok': bool)
    modifies r
    ensures (ok', r.Model()) == RegisterAll(ok, old(r.Model()), Handlers(INT_IMMS))
  {
    hide RegisterAll, Register, Handlers, HandlerOf;
    ok' := ok;
    ghost var ix, done := r.Model(), [];
    NothingYet(ok, ix);
    ok', done := Add(r, ok', IntImm(Addi), ok, ix, done);
    ok', done := Add(r, ok', IntImm(Slti), ok, ix, done);
    ok', done := Add(r, ok', IntImm(Sltiu), ok, ix, done);
    ok', done := Add(r, ok', IntImm(Xori), ok, ix, done);
    ok', done := Add(r, ok', IntImm(Ori), ok, ix, done);
    ok', done := Add(r, ok', IntImm(Andi), ok, ix, done);
    assert done == INT_IMMS;
  }

  method AddShiftImm(r: HandlerRegistry, ok: bool) returns (ok': bool)
    modifies r
    ensures (ok', r.Model()) == RegisterAll(ok, old(r.Model()), Handlers(SHIFT_IMMS))
  {
    hide RegisterAll, Register, Handlers, HandlerOf;
    ok' := ok;
    ghost var ix, done := r.Model(), [];
    NothingYet(ok, ix);
    ok', done := Add(r, ok', ShiftImm(Slli), ok, ix, done);
    ok', done := Add(r, ok', ShiftImm(Srli), ok, ix, done);
    ok', done := Add(r, ok', ShiftImm(Srai), ok, ix, done);
    assert done == SHIFT_IMMS;
  }

  method AddInt(r: HandlerRegistry, ok: bool) returns (ok': bool)
    modifies r
    ensures (ok', r.Model()) == RegisterAll(ok, old(r.Model()), Handlers(INTS))
  {
    hide RegisterAll, Register, Handlers, HandlerOf;
    ok' := ok;
    ghost var ix, done := r.Model(), [];
    NothingYet(ok, ix);
    ok', done := Add(r, ok', IntReg(AddR), ok, ix, done);
    ok', done := Add(r, ok', IntReg(SubR), ok, ix, done);
    ok', done := Add(r, ok', IntReg(SllR), ok, ix, done);
    ok', done := Add(r, ok', IntReg(SltR), ok, ix, done);
    ok', done := Add(r, ok', IntReg(SltuR), ok, ix, done);
    ok', done := Add(r, ok', IntReg(XorR), ok, ix, done);
    ok', done := Add(r, ok', IntReg(SrlR), ok, ix, done);
    ok', done := Add(r, ok', IntReg(SraR), ok, ix, done);
    ok', done := Add(r, ok', IntReg(OrR), ok, ix, done);
    ok', done := Add(r, ok', IntReg(AndR), ok, ix, done);
    assert done == INTS;
  }

  method AddMisc(r: HandlerRegistry, ok: bool) returns (ok': bool)
    modifies r
    ensures (ok', r.Model()) == RegisterAll(ok, old(r.Model()), Handlers(MISC))
  {
    hide RegisterAll, Register, Handlers, HandlerOf;
    ok' := ok;
    ghost var ix, done := r.Model(), [];
    NothingYet(ok, ix);
    ok', done := Add(r, ok', Fence, ok, ix, done);
    ok', done := Add(r, ok', FenceI, ok, ix, done);
    assert done == MISC;
  }

  method AddSystem(r: HandlerRegistry, ok: bool) returns (ok': bool)
    modifies r
    ensures (ok', r.Model()) == RegisterAll(ok, old(r.Model()), Handlers(SYSTEMS))
  {
    hide RegisterAll, Register, Handlers, HandlerOf;
    ok' := ok;
    ghost var ix, done := r.Model(), [];
    NothingYet(ok, ix);
    ok', done := Add(r, ok', EnvCall, ok, ix, done);
    ok', done := Add(r, ok', Csr(Csrrw), ok, ix, done);
    ok', done := Add(r, ok', Csr(Csrrs), ok, ix, done);
    ok', done := Add(r, ok', Csr(Csrrc), ok, ix, done);
    ok', done := Add(r, ok', Csr(Csrrwi), ok, ix, done);
    ok', done := Add(r, ok', Csr(Csrrsi), ok, ix, done);
    ok', done := Add(r, ok', Csr(Csrrci), ok, ix, done);
    assert done == SYSTEMS;
  }

  /** The registrations at the end of `register_rv32i_set` itself. */
  method AddJumps(r: HandlerRegistry, ok: bool) returns (ok': bool)
    modifies r
    ensures (ok', r.Model()) == RegisterAll(ok, old(r.Model()), Handlers(JUMPS))
  {
    hide RegisterAll, Register, Handlers, HandlerOf;
    ok' := ok;
    ghost var ix, done := r.Model(), [];
    NothingYet(ok, ix);
    ok', done := Add(r, ok', Lui, ok, ix, done);
    ok', done := Add(r, ok', Auipc, ok, ix, done);
    ok', done := Add(r, ok', Jal, ok, ix, done);
    ok', done := Add(r, ok', Jalr, ok, ix, done);
    assert done == JUMPS;
  }

  lemma Then(ok: bool, ix: Index, a: seq<Op>, b: seq<Op>)
    ensures RegisterAll(ok, ix, Handlers(a + b)) ==
            var (ok', ix') := RegisterAll(ok, ix, Handlers(a)); RegisterAll(ok', ix', Handlers(b))
  {
    hide HandlerOf, RegisterAll;
    assert Handlers(a + b) == Handlers(a) + Handlers(b);
    RegisterAllConcat(ok, ix, Handlers(a), Handlers(b));
  }

  lemma FailedStaysFailed(ix: Index, hs: seq<Handler>)
    ensures RegisterAll(false, ix, hs) == (false, ix)
  {
  }

  /** Registers RV32I; true iff no id was taken. */
  method RegisterRv32i(r: HandlerRegistry) returns (ok: bool)
    modifies r
    ensures (ok, r.Model()) == RegisterAll(true, old(r.Model()), Handlers(RV32I))
  {
    hide RegisterAll, Register, Handlers, HandlerOf;
    ghost var ix := r.Model();
    ok := AddBranch(r, true);
    ok := AddLoad(r, ok);
    Then(true, ix, BRANCHES, LOADS);
    ok := AddStore(r, ok);
    Then(true, ix, BRANCHES + LOADS, STORES);
    ok := AddIntImm(r, ok);
    Then(true, ix, BRANCHES + LOADS + STORES, INT_IMMS);
    ok := AddShiftImm(r, ok);
    Then(true, ix, BRANCHES + LOADS + STORES + INT_IMMS, SHIFT_IMMS);
    ok := AddInt(r, ok);
    Then(true, ix, BRANCHES + LOADS + STORES + INT_IMMS + SHIFT_IMMS, INTS);
    ok := AddMisc(r, ok);
    Then(true, ix, BRANCHES + LOADS + STORES + INT_IMMS + SHIFT_IMMS + INTS, MISC);
    ok := AddSystem(r, ok);
    Then(true, ix, BRANCHES + LOADS + STORES + INT_IMMS + SHIFT_IMMS + INTS + MISC, SYSTEMS);
    ok := AddJumps(r, ok);
    Then(true, ix, BRANCHES + LOADS + STORES + INT_IMMS + SHIFT_IMMS + INTS + MISC + SYSTEMS, JUMPS);
  }

  /** Registers RV32M; true iff no id was taken. */
  method RegisterRv32m(r: HandlerRegistry) returns (ok: bool)
    modifies r
    ensures (ok, r.Model()) == RegisterAll(true, old(r.Model()), Handlers(RV32M))
  {
    hide RegisterAll, Register, Handlers, HandlerOf;
    ok := true;
    ghost var ix, done := r.Model(), [];
    NothingYet(true, ix);
    ok, done := Add(r, ok, Math(Mul), true, ix, done);
    ok, done := Add(r, ok, Math(Mulh), true, ix, done);
    ok, done := Add(r, ok, Math(Mulhsu), true, ix, done);
    ok, done := Add(r, ok, Math(Mulhu), true, ix, done);
    ok, done := Add(r, ok, Math(Div), true, ix, done);
    ok, done := Add(r, ok, Math(Divu), true, ix, done);
    ok, done := Add(r, ok, Math(Rem), true, ix, done);
    ok, done := Add(r, ok, Math(Remu), true, ix, done);
    assert done == RV32M;
  }
}
