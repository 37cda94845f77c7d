/** The dispatch index: handlers keyed by a packed id, and two sets that say which function fields
    of an instruction take part in its key. */
module Registry {
  import opened Words
  import opened Wrappers
  import opened BitTools
  import opened Opcode
  import opened Calculate

  const NO_FUNC_A: Word := 0x10
  const NO_FUNC_B: Word := 0x100

  datatype CsrKind = Csrrw | Csrrs | Csrrc | Csrrwi | Csrrsi | Csrrci

  /** What a handler executes. */
  datatype Op =
    | Lui | Auipc | Jal | Jalr
    | Branch(branch: BranchKind) | Load(load: LoadKind) | Store(store: StoreKind)
    | IntImm(imm: ImmKind) | ShiftImm(shift: ShiftKind) | IntReg(reg: RegKind) | Math(math: MathKind)
    | Fence | FenceI | EnvCall | Csr(csr: CsrKind)

  datatype Handler = Handler(group: Word, funcA: Word, funcB: Word, op: Op)

  /** `InstructionId::id` */
  function PackId(group: Word, funcA: Word, funcB: Word): Word {
    Or(Or(group, Shl(funcA, 8)), Shl(funcB, 16))
  }

  function Id(h: Handler): Word {
    PackId(h.group, h.funcA, h.funcB)
  }

  function FuncBKey(group: Word, funcA: Word): Word {
    Or(group, Shl(funcA, 8))
  }

  /** The contents of a registry. */
  datatype Index = Index(handlers: map<Word, Handler>, funcA: set<Word>, funcB: set<Word>)

  const EMPTY: Index := Index(map[], {}, {})

  function Register(ix: Index, h: Handler): (bool, Index) {
    if Id(h) in ix.handlers then (false, ix)
    else
      (true, Index(
         ix.handlers[Id(h) := h],
         if h.funcA != NO_FUNC_A then ix.funcA + {h.group} else ix.funcA,
         if h.funcB != NO_FUNC_B then ix.funcB + {FuncBKey(h.group, h.funcA)} else ix.funcB))
  }

  function Find(ix: Index, code: Word): Option<Handler> {
    var op := GetCode(code);
    var funcA := if op in ix.funcA then GetFunc3(code) else NO_FUNC_A;
    var funcB := if FuncBKey(op, GetFunc3(code)) in ix.funcB then GetFunc7(code) else NO_FUNC_B;
    var id := PackId(op, funcA, funcB);
    if id in ix.handlers then Some(ix.handlers[id]) else None
  }

  // ---- the index agrees with a plain search ----

  /** Fields that an instruction word can match, and no funcB without funcA. */
  predicate WellRanged(h: Handler) {
    && h.group < 0x80
    && (h.funcA < 8 || h.funcA == NO_FUNC_A)
    && (h.funcB < 0x80 || h.funcB == NO_FUNC_B)
    && (h.funcA == NO_FUNC_A ==> h.funcB == NO_FUNC_B)
  }

  /** A group either uses func3 throughout or not at all; likewise func7 in each (group, func3). */
  predicate Uniform(hs: set<Handler>) {
    forall g, h | g in hs && h in hs && g.group == h.group ::
      && (g.funcA == NO_FUNC_A <==> h.funcA == NO_FUNC_A)
      && (g.funcA == h.funcA ==> (g.funcB == NO_FUNC_B <==> h.funcB == NO_FUNC_B))
  }

  /** Plain search: the fields that the handler specifies are those of the instruction. */
  predicate Matches(h: Handler, code: Word) {
    && h.group == GetCode(code)
    && (h.funcA == NO_FUNC_A || h.funcA == GetFunc3(code))
    && (h.funcB == NO_FUNC_B || h.funcB == GetFunc7(code))
  }

  ghost predicate Consistent(ix: Index) {
    && (forall id | id in ix.handlers :: Id(ix.handlers[id]) == id)
    && ix.funcA == (set h | h in ix.handlers.Values && h.funcA != NO_FUNC_A :: h.group)
    && ix.funcB == (set h | h in ix.handlers.Values && h.funcB != NO_FUNC_B :: FuncBKey(h.group, h.funcA))
  }

  /** The packing is injective on fields that fit. */
  lemma PackIdValue(group: Word, funcA: Word, funcB: Word)
    requires group < 0x100 && funcA < 0x100 && funcB < 0x1_0000
    ensures PackId(group, funcA, funcB) == group + 0x100 * funcA + 0x1_0000 * funcB
    ensures FuncBKey(group, funcA) == group + 0x100 * funcA
  {
    hide Bit, Bitwise, Pow2;
    assert Pow2(8) == 0x100 && Pow2(16) == 0x1_0000 by { Pow2Add(4, 4); Pow2Add(8, 8); PowerOfFour(); }
    BitLaws();
    forall i: nat
      ensures Bit(group, i) ==> i < 8
      ensures Bit(funcA, i) ==> i < 8
    {
      if i >= 8 {
        NoHighBits(group, 8, i);
        NoHighBits(funcA, 8, i);
      }
    }
    assert Shl(funcA, 8) == 0x100 * funcA && Shl(funcB, 16) == 0x1_0000 * funcB;
    OrIsSum(group, Shl(funcA, 8));
    OrIsSum(Or(group, Shl(funcA, 8)), Shl(funcB, 16));
  }

  /** Two digits of a number are unique. */
  lemma DigitsUnique(low: nat, high: nat, low': nat, high': nat, base: nat)
    requires low < base && low' < base
    ensures low + base * high == low' + base * high' <==> low == low' && high == high'
  {
    if low + base * high == low' + base * high' {
      DivModUnique(low + base * high, base, high, low);
      DivModUnique(low + base * high, base, high', low');
    }
  }

  lemma PackIdInjective(g: Word, a: Word, b: Word, g': Word, a': Word, b': Word)
    requires g < 0x100 && a < 0x100 && b < 0x1_0000
    requires g' < 0x100 && a' < 0x100 && b' < 0x1_0000
    ensures PackId(g, a, b) == PackId(g', a', b') <==> (g, a, b) == (g', a', b')
    ensures FuncBKey(g, a) == FuncBKey(g', a') <==> (g, a) == (g', a')
  {
    hide PackId, FuncBKey;
    PackIdValue(g, a, b);
    PackIdValue(g', a', b');
    DigitsUnique(g, a, g', a', 0x100);
    DigitsUnique(g + 0x100 * a, b, g' + 0x100 * a', b', 0x1_0000);
  }

  lemma PowerOfFour()
    ensures Pow2(4) == 16
  {
  }

  lemma RegisterConsistent(ix: Index, h: Handler)
    requires Consistent(ix)
    ensures Consistent(Register(ix, h).1)
    ensures Register(ix, h).0 ==> Register(ix, h).1.handlers.Values == ix.handlers.Values + {h}
  {
    hide Id, FuncBKey;
    if Id(h) !in ix.handlers {
      var hs := ix.handlers[Id(h) := h];
      assert hs.Values == ix.handlers.Values + {h} by {
        forall g | g in ix.handlers.Values
          ensures g in hs.Values
        {
          var id :| id in ix.handlers && ix.handlers[id] == g;
          assert id in hs && hs[id] == g;
        }
        assert Id(h) in hs && hs[Id(h)] == h;
      }
    }
  }

  /** For a handler of the instruction's group the two sets tell whether it specifies func3 and,
      when its funcA fits the instruction, whether it specifies func7. */
  lemma KeyFields(ix: Index, op: Word, func3: Word, h: Handler)
    requires Consistent(ix) && Uniform(ix.handlers.Values)
    requires forall g | g in ix.handlers.Values :: WellRanged(g)
    requires op < 0x80 && func3 < 8
    requires h in ix.handlers.Values && h.group == op
    ensures op in ix.funcA <==> h.funcA != NO_FUNC_A
    ensures h.funcA == NO_FUNC_A || h.funcA == func3 ==> (FuncBKey(op, func3) in ix.funcB <==> h.funcB != NO_FUNC_B)
  {
    hide PackId, FuncBKey;
    if op in ix.funcA {
      var g :| g in ix.handlers.Values && g.funcA != NO_FUNC_A && g.group == op;
    }
    if FuncBKey(op, func3) in ix.funcB {
      var g :| g in ix.handlers.Values && g.funcB != NO_FUNC_B && FuncBKey(g.group, g.funcA) == FuncBKey(op, func3);
      PackIdInjective(g.group, g.funcA, 0, op, func3, 0);
    }
  }

  lemma StoredUnderId(ix: Index, h: Handler)
    requires Consistent(ix)
    ensures h in ix.handlers.Values <==> Id(h) in ix.handlers && ix.handlers[Id(h)] == h
    ensures forall id | id in ix.handlers :: Id(ix.handlers[id]) == id && ix.handlers[id] in ix.handlers.Values
  {
    hide Id;
  }

  /** For a uniform registry the hashed lookup returns a handler iff a plain search of all handlers
      matches it; so there is at most one, and the order of registration plays no part. */
  lemma LookupIsSearch(ix: Index, code: Word, h: Handler)
    requires Consistent(ix) && Uniform(ix.handlers.Values)
    requires forall g | g in ix.handlers.Values :: WellRanged(g)
    ensures Find(ix, code) == Some(h) <==> (h in ix.handlers.Values && Matches(h, code))
  {
    hide PackId, FuncBKey, GetCode, GetFunc3, GetFunc7, Uniform, Consistent;
    var op, func3, func7 := GetCode(code), GetFunc3(code), GetFunc7(code);
    var funcA := if op in ix.funcA then func3 else NO_FUNC_A;
    var funcB := if FuncBKey(op, func3) in ix.funcB then func7 else NO_FUNC_B;
    StoredUnderId(ix, h);
    assert Find(ix, code) == Some(h) <==> h in ix.handlers.Values && Id(h) == PackId(op, funcA, funcB);
    if h in ix.handlers.Values {
      PackIdInjective(h.group, h.funcA, h.funcB, op, funcA, funcB);
      if h.group == op {
        KeyFields(ix, op, func3, h);
      }
    }
  }

  // ---- registering several handlers ----

  /** `ok = ok && register_handler(h)` for each handler in turn. */
  function RegisterAll(ok: bool, ix: Index, hs: seq<Handler>): (bool, Index)
    decreases |hs|
  {
    if !ok || hs == [] then (ok, ix)
    else
      var (ok', ix') := Register(ix, hs[0]);
      RegisterAll(ok', ix', hs[1..])
  }

  lemma {:induction false} RegisterAllConcat(ok: bool, ix: Index, a: seq<Handler>, b: seq<Handler>)
    ensures RegisterAll(ok, ix, a + b) == var (ok', ix') := RegisterAll(ok, ix, a); RegisterAll(ok', ix', b)
    decreases |a|
  {
    hide Register;
    if a == [] {
      assert a + b == b;
    } else if ok {
      assert (a + b)[1..] == a[1..] + b;
      var (ok', ix') := Register(ix, a[0]);
      RegisterAllConcat(ok', ix', a[1..], b);
    }
  }

  /** All ids are new to the registry and distinct. */
  ghost predicate Fresh(ix: Index, hs: seq<Handler>) {
    && (forall h | h in hs :: Id(h) !in ix.handlers)
    && (forall i, j | 0 <= i < j < |hs| :: Id(hs[i]) != Id(hs[j]))
  }

  lemma FreshStep(ix: Index, hs: seq<Handler>)
    requires hs != []
    ensures Fresh(ix, hs) <==> Register(ix, hs[0]).0 && Fresh(Register(ix, hs[0]).1, hs[1..])
  {
    hide Id;
    var rest := hs[1..];
    assert hs == [hs[0]] + rest;
    if Register(ix, hs[0]).0 {
      if Fresh(ix, hs) {
        forall h | h in rest
          ensures Id(h) != Id(hs[0])
        {
          var j :| 1 <= j < |hs| && hs[j] == h;
        }
      }
      if Fresh(Register(ix, hs[0]).1, rest) {
        forall i, j | 0 <= i < j < |hs|
          ensures Id(hs[i]) != Id(hs[j])
        {
          assert hs[j] == rest[j - 1] && hs[j] in rest;
          if i > 0 {
            assert hs[i] == rest[i - 1];
          }
        }
      }
    }
  }

  /** Registration succeeds iff all ids are new and distinct, and then the registry holds exactly
      the old handlers and the new ones. */
  lemma {:induction false} RegisterAllHolds(ix: Index, hs: seq<Handler>)
    requires Consistent(ix)
    ensures Consistent(RegisterAll(true, ix, hs).1)
    ensures RegisterAll(true, ix, hs).0 <==> Fresh(ix, hs)
    ensures RegisterAll(true, ix, hs).0 ==>
              RegisterAll(true, ix, hs).1.handlers.Values == ix.handlers.Values + set h | h in hs
    decreases |hs|
  {
    hide Id, Consistent, Register;
    if hs != [] {
      hide Fresh;
      RegisterConsistent(ix, hs[0]);
      FreshStep(ix, hs);
      var (ok', ix') := Register(ix, hs[0]);
      var rest := hs[1..];
      assert hs == [hs[0]] + rest;
      if ok' {
        RegisterAllHolds(ix', rest);
        assert (set h | h in hs) == {hs[0]} + set h | h in rest;
      }
    }
  }

  /** A registry is determined by the set of its handlers. */
  lemma SameHandlersSameIndex(a: Index, b: Index)
    requires Consistent(a) && Consistent(b) && a.handlers.Values == b.handlers.Values
    ensures a == b
  {
    hide Id, FuncBKey;
    forall id | id in a.handlers
      ensures id in b.handlers && b.handlers[id] == a.handlers[id]
    {
      StoredUnderId(b, a.handlers[id]);
    }
    forall id | id in b.handlers
      ensures id in a.handlers
    {
      StoredUnderId(a, b.handlers[id]);
    }
  }

  /** Whether all ids differ does not depend on the order. */
  lemma FreshInAnyOrder(hs: seq<Handler>, hs': seq<Handler>)
    requires multiset(hs) == multiset(hs') && Fresh(EMPTY, hs)
    ensures Fresh(EMPTY, hs')
  {
    hide Id;
    forall h
      ensures multiset(hs)[h] <= 1
    {
      if multiset(hs)[h] > 1 {
        TwoPlaces(hs, h);
      }
    }
    forall i, j | 0 <= i < j < |hs'|
      ensures Id(hs'[i]) != Id(hs'[j])
    {
      if hs'[i] == hs'[j] {
        OccursTwice(hs', i, j);
        assert false;
      } else {
        assert hs'[i] in multiset(hs) && hs'[j] in multiset(hs);
        var a :| 0 <= a < |hs| && hs[a] == hs'[i];
        var b :| 0 <= b < |hs| && hs[b] == hs'[j];
        if a < b { assert Id(hs[a]) != Id(hs[b]); } else { assert Id(hs[b]) != Id(hs[a]); }
      }
    }
  }

  lemma OccursTwice(hs: seq<Handler>, i: nat, j: nat)
    requires i < j < |hs| && hs[i] == hs[j]
    ensures multiset(hs)[hs[i]] >= 2
  {
    assert hs == hs[..j] + hs[j..];
    assert hs[i] == hs[..j][i] && hs[i] == hs[j..][0];
    assert hs[i] in multiset(hs[..j]) && hs[i] in multiset(hs[j..]);
  }

  lemma {:induction false} TwoPlaces(hs: seq<Handler>, h: Handler)
    requires multiset(hs)[h] >= 2
    ensures exists i, j :: 0 <= i < j < |hs| && hs[i] == h && hs[j] == h
  {
    var rest := hs[1..];
    assert hs == [hs[0]] + rest;
    if hs[0] == h {
      assert h in multiset(rest);
      var j :| 0 <= j < |rest| && rest[j] == h;
      assert hs[0] == h && hs[j + 1] == h;
    } else {
      TwoPlaces(rest, h);
      var i, j :| 0 <= i < j < |rest| && rest[i] == h && rest[j] == h;
      assert hs[i + 1] == h && hs[j + 1] == h;
    }
  }

  /** Registering the same handlers in another order succeeds as well, and gives the same registry. */
  lemma OrderIndependent(hs: seq<Handler>, hs': seq<Handler>)
    requires multiset(hs) == multiset(hs') && RegisterAll(true, EMPTY, hs).0
    ensures RegisterAll(true, EMPTY, hs') == RegisterAll(true, EMPTY, hs)
  {
    hide Fresh, Consistent, RegisterAll;
    EmptyConsistent();
    RegisterAllHolds(EMPTY, hs);
    FreshInAnyOrder(hs, hs');
    RegisterAllHolds(EMPTY, hs');
    assert forall h :: h in hs <==> h in multiset(hs);
    assert forall h :: h in hs' <==> h in multiset(hs');
    assert (set h | h in hs) == (set h | h in hs');
    SameHandlersSameIndex(RegisterAll(true, EMPTY, hs).1, RegisterAll(true, EMPTY, hs').1);
  }

  // ---- the RV32I and RV32M tables ----

  function GroupOf(op: Op): Word {
    match op
    case Lui => LUI
    case Auipc => AUIPC
    case Jal => JAL
    case Jalr => JALR
    case Branch(_) => BRANCH
    case Load(_) => LOAD
    case Store(_) => STORE
    case IntImm(_) => OP_IMM
    case ShiftImm(_) => OP_IMM
    case IntReg(_) => OP
    case Math(_) => OP
    case Fence => MISC_MEM
    case FenceI => MISC_MEM
    case EnvCall => SYSTEM
    case Csr(_) => SYSTEM
  }

  function FuncAOf(op: Op): Word {
    match op
    case Lui => NO_FUNC_A
    case Auipc => NO_FUNC_A
    case Jal => NO_FUNC_A
    case Jalr => 0
    case Branch(k) => (match k case Beq => 0 case Bne => 1 case Blt => 4 case Bge => 5 case Bltu => 6 case Bgeu => 7)
    case Load(k) => (match k case Lb => 0 case Lh => 1 case Lw => 2 case Lbu => 4 case Lhu => 5)
    case Store(k) => (match k case Sb => 0 case Sh => 1 case Sw => 2)
    case IntImm(k) => (match k case Addi => 0 case Slti => 2 case Sltiu => 3 case Xori => 4 case Ori => 6 case Andi => 7)
    case ShiftImm(k) => (match k case Slli => 1 case Srli => 5 case Srai => 5)
    case IntReg(k) =>
      (match k
       case AddR => 0 case SubR => 0 case SllR => 1 case SltR => 2 case SltuR => 3
       case XorR => 4 case SrlR => 5 case SraR => 5 case OrR => 6 case AndR => 7)
    case Math(k) =>
      (match k
       case Mul => 0 case Mulh => 1 case Mulhsu => 2 case Mulhu => 3 case Div => 4 case Divu => 5 case Rem => 6 case Remu => 7)
    case Fence => 0
    case FenceI => 1
    case EnvCall => 0
    case Csr(k) => (match k case Csrrw => 1 case Csrrs => 2 case Csrrc => 3 case Csrrwi => 5 case Csrrsi => 6 case Csrrci => 7)
  }

  /** `Variant << 5` for shifts and register operations, 1 for RV32M. */
  function FuncBOf(op: Op): Word {
    match op
    case ShiftImm(k) => if k == Srai then 0x20 else 0
    case IntReg(k) => if k == SubR || k == SraR then 0x20 else 0
    case Math(_) => 1
    case _ => NO_FUNC_B
  }

  function HandlerOf(op: Op): Handler {
    Handler(GroupOf(op), FuncAOf(op), FuncBOf(op), op)
  }

  const BRANCHES: seq<Op> := [Branch(Beq), Branch(Bne), Branch(Blt), Branch(Bge), Branch(Bltu), Branch(Bgeu)]
  const LOADS: seq<Op> := [Load(Lb), Load(Lh), Load(Lw), Load(Lbu), Load(Lhu)]
  const STORES: seq<Op> := [Store(Sb), Store(Sh), Store(Sw)]
  const INT_IMMS: seq<Op> := [IntImm(Addi), IntImm(Slti), IntImm(Sltiu), IntImm(Xori), IntImm(Ori), IntImm(Andi)]
  const SHIFT_IMMS: seq<Op> := [ShiftImm(Slli), ShiftImm(Srli), ShiftImm(Srai)]
  const INTS: seq<Op> :=
    [IntReg(AddR), IntReg(SubR), IntReg(SllR), IntReg(SltR), IntReg(SltuR),
     IntReg(XorR), IntReg(SrlR), IntReg(SraR), IntReg(OrR), IntReg(AndR)]
  const MISC: seq<Op> := [Fence, FenceI]
  const SYSTEMS: seq<Op> := [EnvCall, Csr(Csrrw), Csr(Csrrs), Csr(Csrrc), Csr(Csrrwi), Csr(Csrrsi), Csr(Csrrci)]
  const JUMPS: seq<Op> := [Lui, Auipc, Jal, Jalr]
  const MATHS: seq<Op> := [Math(Mul), Math(Mulh), Math(Mulhsu), Math(Mulhu), Math(Div), Math(Divu), Math(Rem), Math(Remu)]

  /** The handlers of `register_rv32i_set`, in its order. */
  const RV32I: seq<Op> := BRANCHES + LOADS + STORES + INT_IMMS + SHIFT_IMMS + INTS + MISC + SYSTEMS + JUMPS
  /** The handlers of `register_rv32m_set`. */
  const RV32M: seq<Op> := MATHS

  function Handlers(ops: seq<Op>): seq<Handler> {
    seq(|ops|, i requires 0 <= i < |ops| => HandlerOf(ops[i]))
  }

  /** Each operation of the instruction listing, by opcode, func3 and func7. */
  function Listing(group: Word, func3: Word, func7: Word): Option<Op> {
    if group == LUI then Some(Lui)
    else if group == AUIPC then Some(Auipc)
    else if group == JAL then Some(Jal)
    else if group == JALR then (if func3 == 0 then Some(Jalr) else None)
    else if group == BRANCH then
      (match func3
       case 0 => Some(Branch(Beq)) case 1 => Some(Branch(Bne)) case 4 => Some(Branch(Blt))
       case 5 => Some(Branch(Bge)) case 6 => Some(Branch(Bltu)) case 7 => Some(Branch(Bgeu)) case _ => None)
    else if group == LOAD then
      (match func3
       case 0 => Some(Load(Lb)) case 1 => Some(Load(Lh)) case 2 => Some(Load(Lw))
       case 4 => Some(Load(Lbu)) case 5 => Some(Load(Lhu)) case _ => None)
    else if group == STORE then
      (match func3 case 0 => Some(Store(Sb)) case 1 => Some(Store(Sh)) case 2 => Some(Store(Sw)) case _ => None)
    else if group == OP_IMM then
      (match func3
       case 0 => Some(IntImm(Addi)) case 2 => Some(IntImm(Slti)) case 3 => Some(IntImm(Sltiu))
       case 4 => Some(IntImm(Xori)) case 6 => Some(IntImm(Ori)) case 7 => Some(IntImm(Andi))
       case 1 => if func7 == 0 then Some(ShiftImm(Slli)) else None
       case 5 => if func7 == 0 then Some(ShiftImm(Srli)) else if func7 == 0x20 then Some(ShiftImm(Srai)) else None
       case _ => None)
    else if group == OP then
      (match (func7, func3)
       case (0, 0) => Some(IntReg(AddR)) case (0, 1) => Some(IntReg(SllR)) case (0, 2) => Some(IntReg(SltR))
       case (0, 3) => Some(IntReg(SltuR)) case (0, 4) => Some(IntReg(XorR)) case (0, 5) => Some(IntReg(SrlR))
       case (0, 6) => Some(IntReg(OrR)) case (0, 7) => Some(IntReg(AndR))
       case (0x20, 0) => Some(IntReg(SubR)) case (0x20, 5) => Some(IntReg(SraR))
       case (1, 0) => Some(Math(Mul)) case (1, 1) => Some(Math(Mulh)) case (1, 2) => Some(Math(Mulhsu))
       case (1, 3) => Some(Math(Mulhu)) case (1, 4) => Some(Math(Div)) case (1, 5) => Some(Math(Divu))
       case (1, 6) => Some(Math(Rem)) case (1, 7) => Some(Math(Remu)) case _ => None)
    else if group == MISC_MEM then
      (match func3 case 0 => Some(Fence) case 1 => Some(FenceI) case _ => None)
    else if group == SYSTEM then
      (match func3
       case 0 => Some(EnvCall) case 1 => Some(Csr(Csrrw)) case 2 => Some(Csr(Csrrs)) case 3 => Some(Csr(Csrrc))
       case 5 => Some(Csr(Csrrwi)) case 6 => Some(Csr(Csrrsi)) case 7 => Some(Csr(Csrrci)) case _ => None)
    else None
  }

  lemma IntegerListing(op: Op, group: Word, func3: Word, func7: Word)
    requires op.IntReg? || op.Math?
    ensures var h := HandlerOf(op);
            Listing(group, func3, func7) == Some(op) <==> h.group == group && h.funcA == func3 && h.funcB == func7
  {
  }

  lemma ImmediateListing(op: Op, group: Word, func3: Word, func7: Word)
    requires op.IntImm? || op.ShiftImm? || op.Branch?
    ensures var h := HandlerOf(op);
            Listing(group, func3, func7) == Some(op) <==>
            h.group == group && h.funcA == func3 && (h.funcB == NO_FUNC_B || h.funcB == func7)
  {
  }

  lemma OtherListing(op: Op, group: Word, func3: Word, func7: Word)
    requires !(op.IntReg? || op.Math? || op.IntImm? || op.ShiftImm? || op.Branch?)
    ensures var h := HandlerOf(op);
            Listing(group, func3, func7) == Some(op) <==> h.group == group && (h.funcA == NO_FUNC_A || h.funcA == func3)
    ensures HandlerOf(op).funcB == NO_FUNC_B
  {
  }

  /** Every handler of the tables has fields that an instruction can carry. */
  lemma TableRanges(op: Op)
    ensures WellRanged(HandlerOf(op))
    ensures op.IntReg? || op.Math? ==> HandlerOf(op).funcB != NO_FUNC_B
    ensures op.IntReg? || op.Math? || op.IntImm? || op.ShiftImm? || op.Branch? ==> HandlerOf(op).funcA != NO_FUNC_A
  {
  }

  /** A handler of the tables matches a word iff the listing gives its operation. */
  lemma MatchesListing(op: Op, code: Word)
    ensures Matches(HandlerOf(op), code) <==> Listing(GetCode(code), GetFunc3(code), GetFunc7(code)) == Some(op)
  {
    hide GetCode, GetFunc3, GetFunc7, Listing, HandlerOf;
    TableRanges(op);
    var group, func3, func7 := GetCode(code), GetFunc3(code), GetFunc7(code);
    if op.IntReg? || op.Math? {
      IntegerListing(op, group, func3, func7);
    } else if op.IntImm? || op.ShiftImm? || op.Branch? {
      ImmediateListing(op, group, func3, func7);
    } else {
      OtherListing(op, group, func3, func7);
    }
  }

  /** Two operations of the tables never share an id. */
  lemma TableIdsDiffer(a: Op, b: Op)
    requires Id(HandlerOf(a)) == Id(HandlerOf(b))
    ensures a == b
  {
    hide PackId, HandlerOf, Listing;
    TableRanges(a);
    TableRanges(b);
    var g, h := HandlerOf(a), HandlerOf(b);
    PackIdInjective(g.group, g.funcA, g.funcB, h.group, h.funcA, h.funcB);
    ListedUnderOwnFields(a);
    ListedUnderOwnFields(b);
  }

  lemma ListedUnderOwnFields(op: Op)
    ensures Listing(HandlerOf(op).group, HandlerOf(op).funcA, HandlerOf(op).funcB) == Some(op)
  {
    hide HandlerOf, Listing;
    TableRanges(op);
    var h := HandlerOf(op);
    if op.IntReg? || op.Math? {
      IntegerListing(op, h.group, h.funcA, h.funcB);
    } else if op.IntImm? || op.ShiftImm? || op.Branch? {
      ImmediateListing(op, h.group, h.funcA, h.funcB);
    } else {
      OtherListing(op, h.group, h.funcA, h.funcB);
    }
  }

  predicate FromTable(hs: set<Handler>) {
    forall h | h in hs :: h == HandlerOf(h.op)
  }

  /** The tables satisfy the uniformity that the two-set lookup relies on. */
  lemma TableUniform(hs: set<Handler>)
    requires FromTable(hs)
    ensures Uniform(hs)
  {
    forall g, h | g in hs && h in hs && g.group == h.group
      ensures g.funcA == NO_FUNC_A <==> h.funcA == NO_FUNC_A
      ensures g.funcA == h.funcA ==> (g.funcB == NO_FUNC_B <==> h.funcB == NO_FUNC_B)
    {
      UniformPair(g.op, h.op);
    }
  }

  lemma UniformPair(a: Op, b: Op)
    requires GroupOf(a) == GroupOf(b)
    ensures FuncAOf(a) == NO_FUNC_A <==> FuncAOf(b) == NO_FUNC_A
    ensures FuncAOf(a) == FuncAOf(b) ==> (FuncBOf(a) == NO_FUNC_B <==> FuncBOf(b) == NO_FUNC_B)
  {
  }

  /** The position at which the tables register an operation. */
  function Rank(op: Op): nat {
    match op
    case Branch(k) => (match k case Beq => 0 case Bne => 1 case Blt => 2 case Bge => 3 case Bltu => 4 case Bgeu => 5)
    case Load(k) => 6 + (match k case Lb => 0 case Lh => 1 case Lw => 2 case Lbu => 3 case Lhu => 4)
    case Store(k) => 11 + (match k case Sb => 0 case Sh => 1 case Sw => 2)
    case IntImm(k) => 14 + (match k case Addi => 0 case Slti => 1 case Sltiu => 2 case Xori => 3 case Ori => 4 case Andi => 5)
    case ShiftImm(k) => 20 + (match k case Slli => 0 case Srli => 1 case Srai => 2)
    case IntReg(k) =>
      23 + (match k
            case AddR => 0 case SubR => 1 case SllR => 2 case SltR => 3 case SltuR => 4
            case XorR => 5 case SrlR => 6 case SraR => 7 case OrR => 8 case AndR => 9)
    case Fence => 33
    case FenceI => 34
    case EnvCall => 35
    case Csr(k) => 36 + (match k case Csrrw => 0 case Csrrs => 1 case Csrrc => 2 case Csrrwi => 3 case Csrrsi => 4 case Csrrci => 5)
    case Lui => 42
    case Auipc => 43
    case Jal => 44
    case Jalr => 45
    case Math(k) =>
      46 + (match k
            case Mul => 0 case Mulh => 1 case Mulhsu => 2 case Mulhu => 3 case Div => 4 case Divu => 5 case Rem => 6 case Remu => 7)
  }

  ghost predicate Ranked(ops: seq<Op>, base: nat) {
    forall i | 0 <= i < |ops| :: Rank(ops[i]) == base + i
  }

  lemma RankedGroups()
    ensures Ranked(BRANCHES, 0) && Ranked(LOADS, 6) && Ranked(STORES, 11) && Ranked(SHIFT_IMMS, 20) && Ranked(MISC, 33)
  {
  }

  lemma RankedIntImms()
    ensures Ranked(INT_IMMS, 14) && Ranked(JUMPS, 42)
  {
  }

  lemma RankedInts()
    ensures Ranked(INTS, 23)
  {
  }

  lemma RankedSystems()
    ensures Ranked(SYSTEMS, 35)
  {
  }

  lemma RankedMaths()
    ensures Ranked(MATHS, 46)
  {
  }

  lemma Append(a: seq<Op>, b: seq<Op>)
    requires Ranked(a, 0) && Ranked(b, |a|)
    ensures Ranked(a + b, 0)
  {
    hide Rank;
  }

  /** The tables list each of the 54 operations, and list it once. */
  lemma TablesComplete()
    ensures |RV32I + RV32M| == 54
    ensures forall op: Op :: op in RV32I + RV32M
    ensures forall i, j | 0 <= i < j < 54 :: (RV32I + RV32M)[i] != (RV32I + RV32M)[j]
  {
    var ops := RV32I + RV32M;
    assert Ranked(ops, 0) by {
      hide Ranked, Rank;
      RankedGroups();
      RankedIntImms();
      RankedInts();
      RankedSystems();
      RankedMaths();
      Append(BRANCHES, LOADS);
      Append(BRANCHES + LOADS, STORES);
      Append(BRANCHES + LOADS + STORES, INT_IMMS);
      Append(BRANCHES + LOADS + STORES + INT_IMMS, SHIFT_IMMS);
      Append(BRANCHES + LOADS + STORES + INT_IMMS + SHIFT_IMMS, INTS);
      Append(BRANCHES + LOADS + STORES + INT_IMMS + SHIFT_IMMS + INTS, MISC);
      Append(BRANCHES + LOADS + STORES + INT_IMMS + SHIFT_IMMS + INTS + MISC, SYSTEMS);
      Append(BRANCHES + LOADS + STORES + INT_IMMS + SHIFT_IMMS + INTS + MISC + SYSTEMS, JUMPS);
      Append(RV32I, RV32M);
    }
    forall op: Op
      ensures op in ops
    {
      OpListed(op);
    }
  }

  lemma OpListed(op: Op)
    ensures op in RV32I || op in RV32M
  {
    if op.IntReg? || op.IntImm? || op.Math? {
      IntegerOpListed(op);
    } else {
      OtherOpListed(op);
    }
  }

  lemma IntegerOpListed(op: Op)
    requires op.IntReg? || op.IntImm? || op.Math?
    ensures op in INTS || op in INT_IMMS || op in MATHS
  {
    match op
    case IntReg(k) => assert op == INTS[Rank(op) - 23];
    case IntImm(k) => assert op == INT_IMMS[Rank(op) - 14];
    case Math(k) => assert op == MATHS[Rank(op) - 46];
  }

  lemma OtherOpListed(op: Op)
    requires !(op.IntReg? || op.IntImm? || op.Math?)
    ensures op in BRANCHES || op in LOADS || op in STORES || op in SHIFT_IMMS || op in MISC || op in SYSTEMS || op in JUMPS
  {
    match op
    case Branch(k) => assert op == BRANCHES[Rank(op)];
    case Load(k) => assert op == LOADS[Rank(op) - 6];
    case Store(k) => assert op == STORES[Rank(op) - 11];
    case ShiftImm(k) => assert op == SHIFT_IMMS[Rank(op) - 20];
    case Fence => assert op == MISC[0];
    case FenceI => assert op == MISC[1];
    case EnvCall => assert op == SYSTEMS[0];
    case Csr(k) => assert op == SYSTEMS[Rank(op) - 35];
    case Lui => assert op == JUMPS[0];
    case Auipc => assert op == JUMPS[1];
    case Jal => assert op == JUMPS[2];
    case Jalr => assert op == JUMPS[3];
  }

  /** The registry of a machine whose instruction set is initialised. */
  function FullIndex(): Index {
    RegisterAll(true, EMPTY, Handlers(RV32I + RV32M)).1
  }

  lemma HandlersDiffer(ops: seq<Op>)
    requires forall i, j | 0 <= i < j < |ops| :: ops[i] != ops[j]
    ensures Fresh(EMPTY, Handlers(ops))
  {
    hide Id, HandlerOf;
    forall i, j | 0 <= i < j < |ops|
      ensures Id(Handlers(ops)[i]) != Id(Handlers(ops)[j])
    {
      if Id(HandlerOf(ops[i])) == Id(HandlerOf(ops[j])) {
        TableIdsDiffer(ops[i], ops[j]);
      }
    }
  }

  lemma EmptyConsistent()
    ensures Consistent(EMPTY)
  {
  }

  /** Both register functions succeed on an empty registry, which then holds every listed handler. */
  lemma FullRegistration()
    ensures RegisterAll(true, EMPTY, Handlers(RV32I + RV32M)) == (true, FullIndex())
    ensures Consistent(FullIndex())
    ensures forall h :: h in FullIndex().handlers.Values <==> h == HandlerOf(h.op)
  {
    hide Id, HandlerOf, Consistent, RegisterAll, Fresh, RV32I, RV32M;
    TablesComplete();
    EmptyConsistent();
    var ops := RV32I + RV32M;
    HandlersDiffer(ops);
    RegisterAllHolds(EMPTY, Handlers(ops));
    forall h
      ensures h in Handlers(ops) <==> h == HandlerOf(h.op)
    {
      if h in Handlers(ops) {
        var i :| 0 <= i < |Handlers(ops)| && Handlers(ops)[i] == h;
        OpOfHandler(ops[i]);
      }
      if h == HandlerOf(h.op) {
        assert h.op in RV32I + RV32M;
        var i :| 0 <= i < |ops| && ops[i] == h.op;
        assert Handlers(ops)[i] == HandlerOf(h.op);
      }
    }
  }

  lemma OpOfHandler(op: Op)
    ensures HandlerOf(op).op == op
  {
  }

  /** After both sets are registered, for every 32-bit word, the handler that is found is the one of
      the opcode/func3/func7 listing, or none if the listing has none. */
  lemma TableLookup(code: Word)
    ensures Find(FullIndex(), code) ==
            match Listing(GetCode(code), GetFunc3(code), GetFunc7(code))
            case Some(op) => Some(HandlerOf(op))
            case None => None
  {
    hide GetCode, GetFunc3, GetFunc7, Listing, HandlerOf, FullIndex, Consistent, Find, Matches, Uniform, WellRanged;
    FullRegistration();
    var hs := FullIndex().handlers.Values;
    TableUniform(hs);
    forall h | h in hs
      ensures WellRanged(h)
    {
      TableRanges(h.op);
    }
    var listed := Listing(GetCode(code), GetFunc3(code), GetFunc7(code));
    if listed.Some? {
      MatchesListing(listed.value, code);
      OpOfHandler(listed.value);
      LookupIsSearch(FullIndex(), code, HandlerOf(listed.value));
    } else if Find(FullIndex(), code).Some? {
      var h := Find(FullIndex(), code).value;
      LookupIsSearch(FullIndex(), code, h);
      MatchesListing(h.op, code);
    }
  }

  /** Registering a set again fails at its first handler and changes nothing. */
  lemma RegisterAgain(ix: Index, ops: seq<Op>)
    requires ops != [] && Id(HandlerOf(ops[0])) in ix.handlers
    ensures RegisterAll(true, ix, Handlers(ops)) == (false, ix)
  {
    hide Id, HandlerOf;
    assert Register(ix, Handlers(ops)[0]) == (false, ix);
    assert RegisterAll(false, ix, Handlers(ops)[1..]) == (false, ix);
  }

  /** In particular, registering either set on the full registry. */
  lemma RegisterAgainFails()
    ensures RegisterAll(true, FullIndex(), Handlers(RV32I)) == (false, FullIndex())
    ensures RegisterAll(true, FullIndex(), Handlers(RV32M)) == (false, FullIndex())
  {
    FullRegistration();
    hide Id, HandlerOf, FullIndex, Consistent, RegisterAll, RV32I;
    assert RV32I != [] by { OpListed(Lui); }
    OpOfHandler(RV32I[0]);
    OpOfHandler(RV32M[0]);
    StoredUnderId(FullIndex(), HandlerOf(RV32I[0]));
    StoredUnderId(FullIndex(), HandlerOf(RV32M[0]));
    RegisterAgain(FullIndex(), RV32I);
    RegisterAgain(FullIndex(), RV32M);
  }
}
