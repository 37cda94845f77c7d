/** The values that the RV32I and RV32M handlers compute, operator by operator. */
module Calculate {
  import opened Words
  import opened BitTools
  import opened Opcode

  const TWO64: int := 0x1_0000_0000_0000_0000
  const INT_MIN: int := -0x8000_0000

  datatype BranchKind = Beq | Bne | Blt | Bge | Bltu | Bgeu
  datatype LoadKind = Lb | Lh | Lw | Lbu | Lhu
  datatype StoreKind = Sb | Sh | Sw
  datatype ImmKind = Addi | Slti | Sltiu | Xori | Ori | Andi
  datatype ShiftKind = Slli | Srli | Srai
  datatype RegKind = AddR | SubR | SllR | SltR | SltuR | XorR | SrlR | SraR | OrR | AndR
  datatype MathKind = Mul | Mulh | Mulhsu | Mulhu | Div | Divu | Rem | Remu

  function FromBool(b: bool): Word {
    if b then 1 else 0
  }

  /** `branch::compare` */
  predicate Compare(kind: BranchKind, lhs: Word, rhs: Word) {
    match kind
    case Beq => Signed(lhs) == Signed(rhs)
    case Bne => Signed(lhs) != Signed(rhs)
    case Blt => Signed(lhs) < Signed(rhs)
    case Bge => Signed(lhs) >= Signed(rhs)
    case Bltu => lhs < rhs
    case Bgeu => lhs >= rhs
  }

  /** What a load handler makes of the bytes that it read, zero extended to a word. */
  function Loaded(kind: LoadKind, value: Word): Word {
    match kind
    case Lb => if And(value, MakeMask(7, 1)) != 0 then Or(MakeMask(8, 24), value) else value
    case Lh => if And(value, MakeMask(15, 1)) != 0 then Or(MakeMask(16, 16), value) else value
    case Lw => value
    case Lbu => value
    case Lhu => value
  }

  /** The value an integer-immediate handler stores; `data` is `decode_i`. */
  function ImmResult(kind: ImmKind, value: Word, data: Word): Word {
    match kind
    case Addi => ToWord(value + Signed(data))
    case Slti => FromBool(Signed(value) < Signed(data))
    case Sltiu => FromBool(value < data)
    case Xori => Xor(value, data)
    case Ori => Or(value, data)
    case Andi => And(value, data)
  }

  /** The amount of a shift by immediate. */
  function ShiftData(code: Word): Word {
    And(DecodeIU(code), MakeMask(0, 5))
  }

  function ShiftResult(kind: ShiftKind, value: Word, data: nat): Word {
    match kind
    case Slli => Shl(value, data)
    case Srli => Shr(value, data)
    case Srai => ExtendSignBy(Shr(value, data), value)
  }

  /** `<<` and `>>` by a register use its low five bits, as the hosts' shift instructions do;
      C++ leaves larger amounts undefined. */
  function ShiftAmount(rhs: Word): nat {
    rhs % 32
  }

  /** `int_r::calculate` */
  function RegResult(kind: RegKind, lhs: Word, rhs: Word): Word {
    match kind
    case AddR => ToWord(lhs + rhs)
    case SubR => ToWord(lhs - rhs)
    case SllR => Shl(lhs, ShiftAmount(rhs))
    case SltR => FromBool(Signed(lhs) < Signed(rhs))
    case SltuR => FromBool(lhs < rhs)
    case XorR => Xor(lhs, rhs)
    case SrlR => Shr(lhs, ShiftAmount(rhs))
    case SraR => ExtendSignBy(Shr(lhs, ShiftAmount(rhs)), lhs)
    case OrR => Or(lhs, rhs)
    case AndR => And(lhs, rhs)
  }

  /** `result & result_mask` on a 64-bit result. */
  function MaskResult(result: int): Word {
    Pow2Of32();
    AndOnes(result % TWO64, 32, 64);
    Bitwise(BitOp.AND, result % TWO64, 0xFFFF_FFFF, 64)
  }

  /** `math::calculate` */
  function MathResult(kind: MathKind, lhs: Word, rhs: Word): Word {
    var (l, r) := (Signed(lhs), Signed(rhs));
    match kind
    case Mul =>
      var result := Signed(ToWord(l * r));  // the product of two int32_t wraps
      MaskResult(result)
    case Mulh =>
      var result := l * r;
      MaskResult(Sar(result, 32))
    case Mulhsu =>
      var result := (l % TWO64) * rhs % TWO64;  // int32_t * uint64_t is computed on uint64_t
      MaskResult(result / Pow2(32))
    case Mulhu =>
      var result := lhs * rhs;
      MaskResult(result / Pow2(32))
    case Div =>
      if l == INT_MIN && r == -1 then lhs
      else if rhs == 0 then 0xFFFF_FFFF
      else MaskResult(TruncDiv(l, r))
    case Divu =>
      if rhs == 0 then 0xFFFF_FFFF
      else MaskResult(lhs / rhs)
    case Rem =>
      if l == INT_MIN && r == -1 then 0
      else if rhs == 0 then lhs
      else MaskResult(TruncMod(l, r))
    case Remu =>
      if rhs == 0 then lhs
      else MaskResult(lhs % rhs)
  }
}
