/** The handlers' arithmetic is the arithmetic of the manual. */
module Arithmetic {
  import opened Words
  import opened BitTools
  import opened Opcode
  import opened Calculate
  import R = Reference

  // ---- multiplication ----

  lemma MaskResultIsLow(result: int)
    ensures MaskResult(result) == ToWord(result)
  {
    hide Bitwise, Pow2;
    Pow2Of32();
    AndOnes(result % TWO64, 32, 64);
    DivModProduct(result, TWO32, TWO32);
    ModTwice(result % TWO32, result / TWO32 % TWO32, TWO32);
  }

  lemma ModTwice(low: int, high: int, d: int)
    requires 0 <= low < d
    ensures (low + d * high) % d == low
  {
    DivModUnique(low + d * high, d, high, low);
  }

  /** The C++ computation of each product half, as a number. */
  lemma Products(lhs: Word, rhs: Word)
    ensures MathResult(Mul, lhs, rhs) == ToWord(Signed(lhs) * Signed(rhs))
    ensures MathResult(Mulh, lhs, rhs) == ToWord(Signed(lhs) * Signed(rhs) / TWO32)
    ensures MathResult(Mulhsu, lhs, rhs) == ToWord(Signed(lhs) * rhs / TWO32)
    ensures MathResult(Mulhu, lhs, rhs) == ToWord(lhs * rhs / TWO32)
  {
    hide Pow2, MaskResult;
    Pow2Of32();
    var (l, r) := (Signed(lhs), Signed(rhs));
    MaskResultIsLow(Signed(ToWord(l * r)));
    MaskResultIsLow(l * r / TWO32);
    MaskResultIsLow(lhs * rhs / TWO32);
    WrapIsLow(l * r);
    MaskResultIsLow((l % TWO64) * rhs % TWO64 / TWO32);
    HighOfWrapped(l, rhs);
  }

  lemma WrapIsLow(x: int)
    ensures ToWord(Signed(ToWord(x))) == ToWord(x)
  {
  }

  lemma HighOfWrapped(l: int, r: int)
    ensures ToWord((l % TWO64) * r % TWO64 / TWO32) == ToWord(l * r / TWO32)
  {
    var k := l / TWO64;
    var p := l * r;
    assert (l % TWO64) * r == p - TWO64 * (k * r) by {
      assert l == TWO64 * k + l % TWO64;
      assert l * r == TWO64 * k * r + (l % TWO64) * r;
    }
    var q, low := p / TWO64, p % TWO64;
    DivModUnique(p - TWO64 * (k * r), TWO64, q - k * r, low);
    assert p == TWO64 * q + low;
    var h := low / TWO32;
    DivModUnique(p, TWO32, TWO32 * q + h, low % TWO32);
    ModTwice(h, q, TWO32);
  }

  lemma SignedHalves(p: int)
    requires -0x8000_0000_0000_0000 <= p < 0x8000_0000_0000_0000
    ensures TWO32 * Signed(ToWord(p / TWO32)) + ToWord(p) == p
  {
    assert -0x8000_0000 <= p / TWO32 < 0x8000_0000;
  }

  lemma UnsignedHalves(p: int)
    requires 0 <= p < TWO64
    ensures TWO32 * ToWord(p / TWO32) + ToWord(p) == p
  {
    assert 0 <= p / TWO32 < TWO32;
  }

  lemma SignedBounds(w: Word)
    ensures -0x8000_0000 <= Signed(w) < 0x8000_0000
  {
  }

  lemma ProductBounds(a: int, b: int, m: int, n: int)
    requires -m <= a <= m && -n <= b <= n
    ensures -(m * n) <= a * b <= m * n
  {
    assert 0 <= (m - a) * (n + b) + (m + a) * (n - b);
    assert (m - a) * (n + b) + (m + a) * (n - b) == 2 * (m * n) - 2 * (a * b);
    assert 0 <= (m - a) * (n - b) + (m + a) * (n + b);
    assert (m - a) * (n - b) + (m + a) * (n + b) == 2 * (m * n) + 2 * (a * b);
  }

  /** The high and low halves that MULH, MULHU and MULHSU leave in two registers are the exact
      64-bit products, together with what MUL computes. */
  lemma MultiplicationRecombines(lhs: Word, rhs: Word)
    ensures TWO32 * Signed(MathResult(Mulh, lhs, rhs)) + MathResult(Mul, lhs, rhs) == Signed(lhs) * Signed(rhs)
    ensures TWO32 * MathResult(Mulhu, lhs, rhs) + MathResult(Mul, lhs, rhs) == lhs * rhs
    ensures TWO32 * Signed(MathResult(Mulhsu, lhs, rhs)) + MathResult(Mul, lhs, rhs) == Signed(lhs) * rhs
  {
    hide MathResult, Signed, ToWord;
    Products(lhs, rhs);
    SignedBounds(lhs);
    SignedBounds(rhs);
    SignedTimesSigned(Signed(lhs), Signed(rhs));
    SignedTimesUnsigned(Signed(lhs), rhs);
    UnsignedTimesUnsigned(lhs, rhs);
    SameLowHalf(lhs, rhs, Signed(lhs), Signed(rhs));
  }

  lemma SignedTimesSigned(l: int, r: int)
    requires -0x8000_0000 <= l < 0x8000_0000 && -0x8000_0000 <= r < 0x8000_0000
    ensures TWO32 * Signed(ToWord(l * r / TWO32)) + ToWord(l * r) == l * r
  {
    ProductBounds(l, r, 0x8000_0000, 0x8000_0000);
    SignedHalves(l * r);
  }

  lemma SignedTimesUnsigned(l: int, r: Word)
    requires -0x8000_0000 <= l < 0x8000_0000
    ensures TWO32 * Signed(ToWord(l * r / TWO32)) + ToWord(l * r) == l * r
  {
    ProductBounds(l, r, 0x8000_0000, TWO32 - 1);
    SignedHalves(l * r);
  }

  lemma UnsignedTimesUnsigned(l: Word, r: Word)
    ensures TWO32 * ToWord(l * r / TWO32) + ToWord(l * r) == l * r
  {
    ProductBounds(l, r, TWO32 - 1, TWO32 - 1);
    UnsignedHalves(l * r);
  }

  /** Signed and unsigned products share their low half. */
  lemma SameLowHalf(lhs: Word, rhs: Word, l: int, r: int)
    requires l == Signed(lhs) && r == Signed(rhs)
    ensures ToWord(l * r) == ToWord(lhs * rhs) == ToWord(l * rhs)
  {
    var (i, j) := ((lhs - l) / TWO32, (rhs - r) / TWO32);
    assert lhs == l + TWO32 * i && rhs == r + TWO32 * j;
    assert lhs * rhs == l * rhs + TWO32 * (i * rhs);
    assert l * rhs == l * r + TWO32 * (l * j);
    AddMultiple(l * rhs, i * rhs);
    AddMultiple(l * r, l * j);
  }

  lemma AddMultiple(x: int, k: int)
    ensures ToWord(x + TWO32 * k) == ToWord(x)
  {
    DivModUnique(x + TWO32 * k, TWO32, x / TWO32 + k, x % TWO32);
  }

  // ---- division ----

  /** The quotient of a magnitude by a divisor of either sign. */
  lemma MagnitudeQuotient(a: nat, y: int)
    requires y != 0
    ensures a / y == if y > 0 then a / R.Abs(y) else -(a / R.Abs(y))
  {
    if y < 0 {
      var d := -y;
      assert a == d * (a / d) + a % d;
      NegativeDivisor(a, d, a / d, a % d);
    }
  }

  /** The C++ division operator rounds towards zero. */
  lemma TruncIsQuotient(x: int, y: int)
    requires y != 0
    ensures TruncDiv(x, y) == R.Quotient(x, y)
  {
    var magnitude: int := R.Abs(x) / R.Abs(y);
    assert R.Quotient(x, y) == if (x < 0) == (y < 0) then magnitude else -magnitude;
    assert TruncDiv(x, y) == if x >= 0 then R.Abs(x) / y else -(R.Abs(x) / y);
    hide R.Quotient, TruncDiv;
    MagnitudeQuotient(R.Abs(x), y);
  }

  lemma QuotientTimesDivisor(x: int, y: int)
    requires y != 0
    ensures var p := R.Abs(y) * (R.Abs(x) / R.Abs(y));
            y * R.Quotient(x, y) == if x < 0 then -p else p
  {
    var q := R.Abs(x) / R.Abs(y);
    if y < 0 {
      assert y * -q == R.Abs(y) * q;
      assert y * q == -(R.Abs(y) * q);
    } else {
      assert y * -q == -(y * q);
    }
  }

  /** What rounding towards zero means for the remainder. */
  lemma QuotientLaw(x: int, y: int)
    requires y != 0
    ensures R.Abs(x - y * R.Quotient(x, y)) < R.Abs(y)
    ensures x - y * R.Quotient(x, y) == 0 || (x - y * R.Quotient(x, y) < 0) == (x < 0)
    ensures R.Abs(R.Quotient(x, y)) <= R.Abs(x)
  {
    var ax, ay := R.Abs(x), R.Abs(y);
    DivBelow(ax, ay);
    assert ax == ay * (ax / ay) + ax % ay;
    QuotientTimesDivisor(x, y);
  }

  /** `/` on integers leaves a non-negative remainder, whatever the sign of the divisor. */
  lemma NegativeDivisor(x: int, y: int, q: int, m: int)
    requires y > 0 && x == y * q + m && 0 <= m < y
    ensures x / -y == -q
  {
    assert -y * -q == y * q;
    EuclidUnique(x, -y, -q, m);
  }

  lemma EuclidUnique(x: int, d: int, q: int, r: int)
    requires d < 0 && 0 <= r < -d
    requires x == d * q + r
    ensures x / d == q
  {
    var q', r' := x / d, x % d;
    assert x == d * q' + r' && 0 <= r' < -d;
    assert -d * (q - q') == r - r';
    MulSize(-d, q - q');
  }

  /** In terms of integers: DIV and REM, and DIVU and REMU, are the quotient and remainder rounded
      towards zero, except that a zero divisor gives all ones and the dividend. */
  lemma Divisions(lhs: Word, rhs: Word)
    ensures MathResult(Div, lhs, rhs) == R.Alu(R.DIV, lhs, rhs)
    ensures MathResult(Divu, lhs, rhs) == R.Alu(R.DIVU, lhs, rhs)
    ensures MathResult(Rem, lhs, rhs) == R.Alu(R.REM, lhs, rhs)
    ensures MathResult(Remu, lhs, rhs) == R.Alu(R.REMU, lhs, rhs)
  {
    hide MaskResult, TruncDiv, R.Quotient;
    var (l, r) := (Signed(lhs), Signed(rhs));
    if rhs != 0 {
      TruncIsQuotient(l, r);
      UnsignedDivision(lhs, rhs);
      MaskResultIsLow(TruncDiv(l, r));
      MaskResultIsLow(TruncMod(l, r));
      MaskResultIsLow(lhs / rhs);
      MaskResultIsLow(lhs % rhs);
      if l == INT_MIN && r == -1 {
        MinByMinusOne();
      }
    }
  }

  lemma UnsignedDivision(lhs: Word, rhs: Word)
    requires rhs != 0
    ensures lhs / rhs == R.Quotient(lhs, rhs) && lhs % rhs == lhs - rhs * R.Quotient(lhs, rhs)
  {
    assert lhs == rhs * (lhs / rhs) + lhs % rhs;
  }

  lemma MinByMinusOne()
    ensures R.Quotient(INT_MIN, -1) == -INT_MIN
  {
  }

  /** The division law. For every pair of operands quotient times divisor plus remainder is the
      dividend modulo 2^32, zero divisors and overflow included; away from those the equation is
      exact, the remainder is smaller than the divisor and has the sign of the dividend. */
  lemma DivisionLaw(lhs: Word, rhs: Word)
    ensures ToWord(MathResult(Div, lhs, rhs) * rhs + MathResult(Rem, lhs, rhs)) == lhs
    ensures ToWord(MathResult(Divu, lhs, rhs) * rhs + MathResult(Remu, lhs, rhs)) == lhs
    ensures rhs != 0 ==>
              && MathResult(Divu, lhs, rhs) * rhs + MathResult(Remu, lhs, rhs) == lhs
              && MathResult(Remu, lhs, rhs) < rhs
    ensures rhs != 0 && !(Signed(lhs) == INT_MIN && Signed(rhs) == -1) ==>
              && var (q, r) := (Signed(MathResult(Div, lhs, rhs)), Signed(MathResult(Rem, lhs, rhs)));
              && Signed(rhs) * q + r == Signed(lhs)
              && R.Abs(r) < R.Abs(Signed(rhs))
              && (r == 0 || (r < 0) == (Signed(lhs) < 0))
  {
    hide *;
    Divisions(lhs, rhs);
    AluDivisions(lhs, rhs);
    UnsignedLaw(lhs, rhs, MathResult(Divu, lhs, rhs), MathResult(Remu, lhs, rhs));
    SignedLaw(lhs, rhs, MathResult(Div, lhs, rhs), MathResult(Rem, lhs, rhs));
  }

  lemma TimesZero(x: int, y: int)
    requires y == 0
    ensures x * y == 0
  {
  }

  lemma AluDivisions(lhs: Word, rhs: Word)
    ensures rhs == 0 ==> R.Alu(R.DIV, lhs, rhs) == R.Alu(R.DIVU, lhs, rhs) == TWO32 - 1
    ensures rhs == 0 ==> R.Alu(R.REM, lhs, rhs) == R.Alu(R.REMU, lhs, rhs) == lhs
    ensures rhs != 0 ==> R.Alu(R.DIV, lhs, rhs) == ToWord(R.Quotient(Signed(lhs), Signed(rhs)))
    ensures rhs != 0 ==> R.Alu(R.REM, lhs, rhs) == ToWord(Signed(lhs) - Signed(rhs) * R.Quotient(Signed(lhs), Signed(rhs)))
    ensures rhs != 0 ==> R.Alu(R.DIVU, lhs, rhs) == ToWord(R.Quotient(lhs, rhs))
    ensures rhs != 0 ==> R.Alu(R.REMU, lhs, rhs) == ToWord(lhs - rhs * R.Quotient(lhs, rhs))
  {
    hide R.Quotient;
  }

  lemma UnsignedLaw(lhs: Word, rhs: Word, d: Word, r: Word)
    requires d == R.Alu(R.DIVU, lhs, rhs) && r == R.Alu(R.REMU, lhs, rhs)
    ensures ToWord(d * rhs + r) == lhs
    ensures rhs != 0 ==> d * rhs + r == lhs && r < rhs
  {
    AluDivisions(lhs, rhs);
    hide R.Quotient, R.Alu;
    if rhs == 0 {
      TimesZero(d, rhs);
    } else {
      var q := R.Quotient(lhs, rhs);
      UnsignedDivision(lhs, rhs);
      DivBelow(lhs, rhs);
      assert d == q && r == lhs - rhs * q;
      assert d * rhs == rhs * q;
    }
  }

  lemma SignedLaw(lhs: Word, rhs: Word, d: Word, r: Word)
    requires d == R.Alu(R.DIV, lhs, rhs) && r == R.Alu(R.REM, lhs, rhs)
    ensures ToWord(d * rhs + r) == lhs
    ensures rhs != 0 && !(Signed(lhs) == INT_MIN && Signed(rhs) == -1) ==>
              && Signed(rhs) * Signed(d) + Signed(r) == Signed(lhs)
              && R.Abs(Signed(r)) < R.Abs(Signed(rhs))
              && (Signed(r) == 0 || (Signed(r) < 0) == (Signed(lhs) < 0))
  {
    AluDivisions(lhs, rhs);
    hide R.Quotient, R.Alu;
    if rhs == 0 {
      TimesZero(d, rhs);
    } else {
      var (l, s) := (Signed(lhs), Signed(rhs));
      var q := R.Quotient(l, s);
      WordOfSigned(lhs);
      WordOfSigned(rhs);
      QuotientLaw(l, s);
      CongruentProducts(q, s, l - s * q, l);
      if !(l == INT_MIN && s == -1) {
        SmallQuotient(l, s, q, l - s * q);
        SignedOfSmall(q);
        SignedOfSmall(l - s * q);
      }
    }
  }

  lemma SmallQuotient(l: int, s: int, q: int, m: int)
    requires -0x8000_0000 <= l < 0x8000_0000 && s != 0 && R.Abs(s) <= 0x8000_0000
    requires l == s * q + m && R.Abs(m) < R.Abs(s) && R.Abs(q) <= R.Abs(l)
    requires m == 0 || (m < 0) == (l < 0)
    requires !(l == INT_MIN && s == -1)
    ensures -0x8000_0000 <= q < 0x8000_0000 && -0x8000_0000 <= m < 0x8000_0000
  {
    if q == 0x8000_0000 {
      OnlyOverflow(l, s, q, m);
    }
  }

  lemma WordOfSigned(w: Word)
    ensures -0x8000_0000 <= Signed(w) < 0x8000_0000
    ensures ToWord(Signed(w)) == w == ToWord(w)
  {
  }

  lemma SignedOfSmall(x: int)
    requires -0x8000_0000 <= x < 0x8000_0000
    ensures Signed(ToWord(x)) == x
  {
  }

  lemma OnlyOverflow(l: int, s: int, q: int, m: int)
    requires -0x8000_0000 <= l < 0x8000_0000 && s != 0 && q == 0x8000_0000
    requires l == s * q + m && R.Abs(m) < R.Abs(s) <= 0x8000_0000
    requires m == 0 || (m < 0) == (l < 0)
    ensures l == INT_MIN && s == -1
  {
  }

  /** Reducing the factors of a sum of products modulo 2^32 does not change it modulo 2^32. */
  lemma CongruentProducts(q: int, s: int, m: int, l: int)
    requires s * q + m == l
    ensures ToWord(ToWord(q) * ToWord(s) + ToWord(m)) == ToWord(l)
  {
    var i, j, k := q / TWO32, s / TWO32, m / TWO32;
    var a, b, c := q % TWO32, s % TWO32, m % TWO32;
    assert q == TWO32 * i + a && s == TWO32 * j + b && m == TWO32 * k + c;
    assert s * q == TWO32 * (j * q) + b * q by { Distribute(TWO32, j, b, q); }
    assert q * b == TWO32 * (i * b) + a * b by { Distribute(TWO32, i, a, b); }
    AddMultiple(a * b + c, j * q + i * b + k);
  }

  lemma Distribute(d: int, j: int, b: int, q: int)
    ensures (d * j + b) * q == d * (j * q) + b * q
  {
  }

  // ---- the computational instructions ----

  function AluOpOfReg(kind: RegKind): R.AluOp {
    match kind
    case AddR => R.ADD
    case SubR => R.SUB
    case SllR => R.SLL
    case SltR => R.SLT
    case SltuR => R.SLTU
    case XorR => R.XOR
    case SrlR => R.SRL
    case SraR => R.SRA
    case OrR => R.OR
    case AndR => R.AND
  }

  function AluOpOfMath(kind: MathKind): R.AluOp {
    match kind
    case Mul => R.MUL
    case Mulh => R.MULH
    case Mulhsu => R.MULHSU
    case Mulhu => R.MULHU
    case Div => R.DIV
    case Divu => R.DIVU
    case Rem => R.REM
    case Remu => R.REMU
  }

  function AluOpOfImm(kind: ImmKind): R.AluOp {
    match kind
    case Addi => R.ADD
    case Slti => R.SLT
    case Sltiu => R.SLTU
    case Xori => R.XOR
    case Ori => R.OR
    case Andi => R.AND
  }

  function AluOpOfShift(kind: ShiftKind): R.AluOp {
    match kind
    case Slli => R.SLL
    case Srli => R.SRL
    case Srai => R.SRA
  }

  /** The three shifts, with the arithmetic one by searching for the highest set bit, are
      multiplication modulo 2^32, division, and division of the signed value rounding down. */
  lemma Shifts(value: Word, k: nat)
    requires k < 32
    ensures ShiftResult(Slli, value, k) == ToWord(value * Pow2(k))
    ensures ShiftResult(Srli, value, k) == ToWord(value / Pow2(k))
    ensures ShiftResult(Srai, value, k) == ToWord(Signed(value) / Pow2(k))
  {
    hide Pow2, ExtendSignTop, Bit, Bitwise;
    DivBelow(value, Pow2(k));
    ShiftThenExtend(value, k);
    SignBitOf(value);
  }

  lemma SignBitOf(code: Word)
    ensures (And(code, Shl(1, 31)) != 0) == (code >= 0x8000_0000)
  {
    hide Bit, Bitwise, Pow2;
    Pow2Of32();
    BitLaws();
    TopBit(code, 31);
    SingleBit(31);
    forall i: nat
      ensures !Bit(0, i)
    {
      NoHighBits(0, 0, i);
    }
    assert Bit(And(code, Shl(1, 31)), 31) == Bit(code, 31);
    if !Bit(code, 31) {
      SameWord(And(code, Shl(1, 31)), 0);
    }
  }

  lemma SingleBit(k: nat)
    requires k < 32
    ensures forall i: nat {:trigger Bit(Shl(1, k), i)} :: Bit(Shl(1, k), i) == (i == k)
  {
    hide Bitwise, Pow2;
    BitLaws();
    forall i: nat
      ensures Bit(1, i) == (i == 0)
    {
      if i > 0 {
        NoHighBits(0, 0, i - 1);
      }
    }
  }

  /** Every register-register operation of RV32I computes what the manual says. */
  lemma RegisterOperation(kind: RegKind, lhs: Word, rhs: Word)
    ensures RegResult(kind, lhs, rhs) == R.Alu(AluOpOfReg(kind), lhs, rhs)
  {
    hide Pow2, ExtendSignBy, Shl, Shr, R.Quotient, Bitwise;
    Shifts(lhs, ShiftAmount(rhs));
  }

  /** Every operation of RV32M computes what the manual says. */
  lemma MathOperation(kind: MathKind, lhs: Word, rhs: Word)
    ensures MathResult(kind, lhs, rhs) == R.Alu(AluOpOfMath(kind), lhs, rhs)
  {
    hide MathResult, R.Quotient, Pow2, Bitwise;
    Products(lhs, rhs);
    Divisions(lhs, rhs);
  }

  /** Every register-immediate operation computes what the manual says of the decoded immediate. */
  lemma ImmediateOperation(kind: ImmKind, value: Word, data: Word)
    ensures ImmResult(kind, value, data) == R.Alu(AluOpOfImm(kind), value, data)
  {
    hide Pow2, R.Quotient, Bitwise;
  }

  /** Every shift by an immediate computes what the manual says. */
  lemma ShiftOperation(kind: ShiftKind, value: Word, k: nat)
    requires k < 32
    ensures ShiftResult(kind, value, k) == R.Alu(AluOpOfShift(kind), value, k)
  {
    hide ShiftResult, Pow2, R.Quotient, Bitwise;
    Shifts(value, k);
  }
}
