/** The bit-field helpers of `bits<std::uint32_t>`. */
module BitTools {
  import opened Words

  const ALL_BITS: Word := 0xFFFF_FFFF
  const BIT_COUNT: nat := 32
  const SIGN_POS: nat := 31

  function MakeMask(start: nat, length: nat): Word {
    var fromStart := And(Shl(ALL_BITS, start), ALL_BITS);
    var fromEnd := And(Shl(fromStart, length), ALL_BITS);
    And(fromStart, Not(fromEnd))
  }

  function GetBits(start: nat, length: nat, code: Word): Word {
    And(Shr(code, start), MakeMask(0, length))
  }

  function GetRange(lsb: nat, msb: nat, code: Word): Word
    requires lsb <= msb < BIT_COUNT
  {
    var shift := BIT_COUNT - (msb - lsb + 1);
    And(Shr(code, lsb), Shr(ALL_BITS, shift))
  }

  function ShiftBits(start: nat, to: nat, length: nat, code: Word): Word {
    Shl(Shr(And(code, MakeMask(start, length)), start), to)
  }

  /** Copies the bit at `position` into every higher bit. */
  function ExtendSign(position: nat, code: Word): Word
    requires position < BIT_COUNT
  {
    var sign := Signed(Shl(Shr(code, position), SIGN_POS));
    var mask := Sar(sign, SIGN_POS - position);
    Or(code, ToWord(mask))
  }

  /** `std::countl_zero` on the low `width` bits. */
  function CountlZero(code: Word, width: nat): (c: nat)
    ensures c <= width
  {
    if width == 0 || Bit(code, width - 1) then 0 else 1 + CountlZero(code, width - 1)
  }

  /** Finds the highest set bit and fills every higher bit with ones. */
  function ExtendSignTop(code: Word): Word {
    var position := (BIT_COUNT - CountlZero(code, BIT_COUNT) - 1) % 0x100;  // offset_type is uint8_t
    if position >= BIT_COUNT then code else ExtendSign(position, code)
  }

  function ArithmeticShift(code: Word, shift: nat): Word {
    ToWord(Sar(Signed(code), shift))
  }

  // ---- what the helpers compute ----

  /** A mask has exactly the bits from `start` up to `start + length` that a word has. */
  lemma MaskBits(start: nat, length: nat)
    ensures forall i: nat {:trigger Bit(MakeMask(start, length), i)} ::
              Bit(MakeMask(start, length), i) == (start <= i < start + length && i < 32)
  {
    hide Bit, Bitwise, Pow2;
    BitLaws();
    AllBits();
  }

  lemma AllBits()
    ensures forall i: nat {:trigger Bit(ALL_BITS, i)} :: Bit(ALL_BITS, i) == (i < 32)
  {
    Pow2Of32();
    forall i: nat
      ensures Bit(ALL_BITS, i) == (i < 32)
    {
      OnesBit(32, i);
    }
  }

  /** The bits `lo .. lo + length` of a number, as a number. */
  function Field(x: nat, lo: nat, length: nat): (f: nat)
    ensures f < Pow2(length)
  {
    x / Pow2(lo) % Pow2(length)
  }

  lemma FieldBit(x: nat, lo: nat, length: nat, i: nat)
    ensures Bit(Field(x, lo, length), i) == (i < length && Bit(x, lo + i))
  {
    DivBit(x, lo, i);
    ModBit(x / Pow2(lo), length, i);
  }

  lemma FieldIsWord(x: Word, lo: nat, length: nat)
    ensures Field(x, lo, length) <= x
  {
    hide Bit, Bitwise, Pow2;
    DivBelow(x, Pow2(lo));
    DivBelow(x / Pow2(lo), Pow2(length));
    MulSize(Pow2(length), x / Pow2(lo) / Pow2(length));
  }

  /** Adjacent fields make one field. */
  lemma FieldSplit(x: nat, lo: nat, a: nat, b: nat)
    ensures Field(x, lo, a + b) == Field(x, lo, a) + Pow2(a) * Field(x, lo + a, b)
  {
    hide Pow2;
    Pow2Add(lo, a);
    Pow2Add(a, b);
    DivModProduct(x, Pow2(lo), Pow2(a));
    DivModProduct(x / Pow2(lo), Pow2(a), Pow2(b));
  }

  lemma GetBitsIsField(start: nat, length: nat, code: Word)
    ensures GetBits(start, length, code) == Field(code, start, length)
  {
    hide Bit, Bitwise, Pow2;
    BitLaws();
    MaskBits(0, length);
    FieldIsWord(code, start, length);
    forall i: nat | i < 32
      ensures Bit(GetBits(start, length, code), i) == Bit(Field(code, start, length), i)
    {
      FieldBit(code, start, length, i);
    }
    SameWord(GetBits(start, length, code), Field(code, start, length));
  }

  lemma GetRangeIsField(lsb: nat, msb: nat, code: Word)
    requires lsb <= msb < BIT_COUNT
    ensures GetRange(lsb, msb, code) == Field(code, lsb, msb - lsb + 1)
  {
    hide Bit, Bitwise, Pow2;
    BitLaws();
    AllBits();
    FieldIsWord(code, lsb, msb - lsb + 1);
    forall i: nat | i < 32
      ensures Bit(GetRange(lsb, msb, code), i) == Bit(Field(code, lsb, msb - lsb + 1), i)
    {
      FieldBit(code, lsb, msb - lsb + 1, i);
    }
    SameWord(GetRange(lsb, msb, code), Field(code, lsb, msb - lsb + 1));
  }

  lemma ShiftedFieldFits(f: nat, length: nat, to: nat)
    requires f < Pow2(length) && to + length <= 32
    ensures 0 <= f * Pow2(to) < TWO32
  {
    hide Pow2;
    Pow2Of32();
    Pow2Add(length, to);
    Pow2Grows(length + to, 32);
    MulBelow(f, Pow2(length), Pow2(to));
  }

  lemma ShiftBitsBit(start: nat, to: nat, length: nat, code: Word)
    requires start + length <= 32 && to + length <= 32
    ensures forall i: nat {:trigger Bit(ShiftBits(start, to, length, code), i)} ::
              Bit(ShiftBits(start, to, length, code), i) == (to <= i < to + length && Bit(code, start + i - to))
  {
    hide Bit, Bitwise, Pow2;
    BitLaws();
    MaskBits(start, length);
  }

  /** A shifted field is the field times a power of two. */
  lemma ShiftBitsIsField(start: nat, to: nat, length: nat, code: Word)
    requires start + length <= 32 && to + length <= 32
    ensures ShiftBits(start, to, length, code) == Field(code, start, length) * Pow2(to)
  {
    hide Bit, Bitwise, Pow2;
    var f := Field(code, start, length);
    ShiftedFieldFits(f, length, to);
    forall i: nat | i < 32
      ensures Bit(ShiftBits(start, to, length, code), i) == Bit(f * Pow2(to), i)
    {
      ShiftBitsBit(start, to, length, code);
      MulBit(f, to, i);
      if to <= i {
        FieldBit(code, start, length, i - to);
      }
    }
    SameWord(ShiftBits(start, to, length, code), f * Pow2(to));
  }

  /** Every field helper, bit by bit. */
  lemma FieldLaws()
    ensures forall start: nat, length: nat, code: Word, i: nat {:trigger Bit(GetBits(start, length, code), i)} ::
              Bit(GetBits(start, length, code), i) == (i < length && Bit(code, start + i))
    ensures forall lsb: nat, msb: nat, code: Word, i: nat {:trigger Bit(GetRange(lsb, msb, code), i)} ::
              lsb <= msb < 32 ==> Bit(GetRange(lsb, msb, code), i) == (i <= msb - lsb && Bit(code, lsb + i))
    ensures forall start: nat, to: nat, length: nat, code: Word, i: nat {:trigger Bit(ShiftBits(start, to, length, code), i)} ::
              start + length <= 32 && to + length <= 32 ==>
              Bit(ShiftBits(start, to, length, code), i) == (to <= i < to + length && Bit(code, start + i - to))
    ensures forall position: nat, code: Word, i: nat {:trigger Bit(ExtendSign(position, code), i)} ::
              position < 32 && code < Pow2(position + 1) && i < 32 ==>
              Bit(ExtendSign(position, code), i) == Bit(code, if i <= position then i else position)
  {
    hide Bit, Bitwise, Pow2;
    forall start: nat, length: nat, code: Word, i: nat
      ensures Bit(GetBits(start, length, code), i) == (i < length && Bit(code, start + i))
    {
      GetBitsIsField(start, length, code);
      FieldBit(code, start, length, i);
    }
    forall lsb: nat, msb: nat, code: Word, i: nat | lsb <= msb < 32
      ensures Bit(GetRange(lsb, msb, code), i) == (i <= msb - lsb && Bit(code, lsb + i))
    {
      GetRangeIsField(lsb, msb, code);
      FieldBit(code, lsb, msb - lsb + 1, i);
    }
    forall start: nat, to: nat, length: nat, code: Word, i: nat | start + length <= 32 && to + length <= 32
      ensures Bit(ShiftBits(start, to, length, code), i) == (to <= i < to + length && Bit(code, start + i - to))
    {
      ShiftBitsBit(start, to, length, code);
    }
    forall position: nat, code: Word, i: nat | position < 32 && code < Pow2(position + 1) && i < 32
      ensures Bit(ExtendSign(position, code), i) == Bit(code, if i <= position then i else position)
    {
      ExtendSignBit(position, code, i);
    }
  }

  /** A word that carries `f` at bit `start` gives it back. */
  lemma GetBitsFinds(start: nat, length: nat, code: Word, f: Word)
    requires start + length <= 32 && f < Pow2(length)
    requires forall i: nat {:trigger Bit(f, i)} :: i < length ==> Bit(code, start + i) == Bit(f, i)
    ensures GetBits(start, length, code) == f
  {
    hide Bit, Bitwise, Pow2;
    BitLaws();
    MaskBits(0, length);
    forall i: nat | i < 32
      ensures Bit(GetBits(start, length, code), i) == Bit(f, i)
    {
      if i >= length {
        NoHighBits(f, length, i);
      }
    }
    SameWord(GetBits(start, length, code), f);
  }

  // ---- sign extension ----

  lemma HighOnes(p: nat, i: nat)
    requires p < 32 && i < 32
    ensures 1 <= Pow2(p) <= 0x8000_0000
    ensures Bit(TWO32 - Pow2(p), i) == (p <= i)
  {
    hide Bit, Bitwise, Pow2;
    Pow2Of32();
    Pow2Grows(p, 31);
    BitLaws();
    OnesBit(p, i);
    assert Not(Pow2(p) - 1) == TWO32 - Pow2(p);
  }

  /** Filling with ones from bit `p` upwards, where bit `p` is the highest bit of `code`. */
  lemma FillHigh(code: Word, p: nat)
    requires p < 32 && Pow2(p) <= code < Pow2(p + 1)
    ensures Pow2(p) <= TWO32
    ensures Or(code, TWO32 - Pow2(p)) == code - Pow2(p + 1) + TWO32
  {
    hide Bit, Bitwise, Pow2;
    HighOnes(p, 0);
    Pow2Next(p);
    var low: Word := code - Pow2(p);
    var mask: Word := TWO32 - Pow2(p);
    DivModUnique(code, Pow2(p), 1, low);
    BitLaws();
    forall i: nat | i < 32
      ensures Bit(mask, i) == (p <= i)
      ensures Bit(low, i) == (i < p && Bit(code, i))
    {
      HighOnes(p, i);
      ModBit(code, p, i);
    }
    OrIsSum(low, mask);
    SameWord(Or(code, mask), Or(low, mask));
  }

  /** A bit is the parity of the number shifted down to it. */
  lemma BitIsParity(code: Word, position: nat)
    ensures code / Pow2(position) >= 0
    ensures Bit(code, position) == (code / Pow2(position) % 2 == 1)
  {
    DivBit(code, position, 0);
  }

  /** The mask that `ExtendSign` joins: ones from `position` upwards if that bit is set. */
  lemma ExtensionMask(position: nat, code: Word)
    requires position < 32
    ensures Pow2(position) <= TWO32
    ensures var sign := Signed(Shl(Shr(code, position), SIGN_POS));
            ToWord(Sar(sign, SIGN_POS - position)) == if Bit(code, position) then TWO32 - Pow2(position) else 0
  {
    hide Pow2, Bit;
    Pow2Of32();
    Pow2Grows(position, 32);
    Pow2Add(31 - position, position);
    var p: int, q: int := Pow2(position), Pow2(31 - position);
    assert q * p == 0x8000_0000;
    BitIsParity(code, position);
    DivBelow(code, p);
    var x := code / p;
    assert Pow2(31) == 0x8000_0000;
    DivModUnique(x * 0x8000_0000, TWO32, x / 2, x % 2 * 0x8000_0000);
    if Bit(code, position) {
      assert Shl(Shr(code, position), SIGN_POS) == 0x8000_0000;
      DivModUnique(-0x8000_0000, q, -p, 0);
    } else {
      assert Shl(Shr(code, position), SIGN_POS) == 0;
      DivModUnique(0, q, 0, 0);
    }
  }

  lemma OrZero(code: Word)
    ensures Or(code, 0) == code
  {
    hide Bit, Bitwise, Pow2;
    BitLaws();
    forall i: nat | i < 32
      ensures Bit(Or(code, 0), i) == Bit(code, i)
    {
      NoHighBits(0, 0, i);
    }
    SameWord(Or(code, 0), code);
  }

  /** A (position+1)-bit value is extended as a two's-complement number of that width. */
  lemma ExtendSignValue(position: nat, code: Word)
    requires position < 32 && code < Pow2(position + 1)
    ensures Signed(ExtendSign(position, code)) == if code >= Pow2(position) then code - Pow2(position + 1) else code
    ensures ExtendSign(position, code) == if code >= Pow2(position) then code - Pow2(position + 1) + TWO32 else code
  {
    hide Pow2, Bit;
    Pow2Of32();
    Pow2Next(position);
    Pow2Grows(position + 1, 32);
    ExtensionMask(position, code);
    TopBit(code, position);
    if code >= Pow2(position) {
      FillHigh(code, position);
    } else {
      OrZero(code);
    }
  }

  /** The number that the lowest `position` + 1 bits of a word stand for, in two's complement. */
  function LowSigned(position: nat, code: Word): int {
    var low := code % Pow2(position + 1);
    if low >= Pow2(position) then low - Pow2(position + 1) else low
  }

  /** If the bit at `position` is set, the bits above it do not matter. */
  lemma ExtensionOfLow(position: nat, code: Word)
    requires position < 32 && Bit(code, position)
    ensures Pow2(position) <= code % Pow2(position + 1) < Pow2(position + 1) <= TWO32
    ensures ExtendSign(position, code) == ExtendSign(position, code % Pow2(position + 1))
  {
    hide Bit, Bitwise, Pow2, Shl, Shr, Sar, Or;
    var p := position + 1;
    Pow2Of32();
    Pow2Grows(p, 32);
    DivModUnique(code, Pow2(p), code / Pow2(p), code % Pow2(p));
    var low: Word := code % Pow2(p);
    ModBit(code, p, position);
    TopBit(low, position);
    ExtensionMask(position, code);
    ExtensionMask(position, low);
    var mask: Word := TWO32 - Pow2(position);
    assert ExtendSign(position, code) == Or(code, mask) && ExtendSign(position, low) == Or(low, mask);
    BitLaws();
    forall i: nat | i < 32
      ensures Bit(Or(code, mask), i) == Bit(Or(low, mask), i)
    {
      HighOnes(position, i);
      ModBit(code, p, i);
    }
    SameWord(Or(code, mask), Or(low, mask));
  }

  /** If it is clear, nothing is filled in. */
  lemma ExtensionOfClear(position: nat, code: Word)
    requires position < 32 && !Bit(code, position)
    ensures ExtendSign(position, code) == code
  {
    hide Bit, Bitwise, Pow2, Shl, Shr, Sar, Or;
    ExtensionMask(position, code);
    OrZero(code);
  }

  /** For every word the extension is the number of its low bits iff the bit at `position` is set or
      no bit above it is; when that bit is clear, the higher bits stay as they are. */
  lemma ExtendSignExact(position: nat, code: Word)
    requires position < 32
    ensures Signed(ExtendSign(position, code)) == LowSigned(position, code) <==> Bit(code, position) || code < Pow2(position)
    ensures !Bit(code, position) ==> ExtendSign(position, code) == code
  {
    hide Bit, Pow2, ExtendSign;
    var p := position + 1;
    Pow2Next(position);
    Pow2Of32();
    Pow2Grows(p, 32);
    DivModUnique(code, Pow2(p), code / Pow2(p), code % Pow2(p));
    if Bit(code, position) {
      ExtensionOfLow(position, code);
      ExtendSignValue(position, code % Pow2(p));
    } else {
      ExtensionOfClear(position, code);
      LowOfClear(position, code);
    }
  }

  lemma LowOfClear(position: nat, code: Word)
    requires position < 32 && !Bit(code, position)
    ensures 0 <= LowSigned(position, code) == code % Pow2(position + 1) < Pow2(position) <= 0x8000_0000
    ensures code < Pow2(position + 1) ==> code % Pow2(position + 1) == code
  {
    hide Bit, Pow2;
    var p := position + 1;
    Pow2Of32();
    Pow2Next(31);
    Pow2Grows(position, 31);
    DivModUnique(code, Pow2(p), code / Pow2(p), code % Pow2(p));
    ModBit(code, p, position);
    TopBit(code % Pow2(p), position);
    if code < Pow2(p) {
      DivModUnique(code, Pow2(p), 0, code);
    }
  }

  /** The extension keeps the low bits and repeats the sign bit above them. */
  lemma ExtendSignBit(position: nat, code: Word, i: nat)
    requires position < 32 && code < Pow2(position + 1) && i < 32
    ensures Bit(ExtendSign(position, code), i) == Bit(code, if i <= position then i else position)
  {
    hide Bit, Bitwise, Pow2, Shl, Shr, Sar, Or;
    ExtensionMask(position, code);
    TopBit(code, position);
    HighOnes(position, i);
    assert code >= Pow2(position) ==> ExtendSign(position, code) == Or(code, TWO32 - Pow2(position));
    assert code < Pow2(position) ==> ExtendSign(position, code) == Or(code, 0);
    OrZero(code);
    BitLaws();
    if position < i {
      NoHighBits(code, position + 1, i);
    }
  }

  lemma {:induction false} CountlZeroFindsTop(code: Word, width: nat)
    requires 0 < code < Pow2(width)
    ensures var c := CountlZero(code, width); c < width && Pow2(width - c - 1) <= code < Pow2(width - c)
  {
    TopBit(code, width - 1);
    if !Bit(code, width - 1) {
      CountlZeroFindsTop(code, width - 1);
    }
  }

  lemma TopIsUnique(code: nat, p: nat, t: nat)
    requires Pow2(p) <= code < Pow2(p + 1)
    requires Pow2(t) <= code < Pow2(t + 1)
    ensures p == t
  {
    if t < p {
      Pow2Grows(t + 1, p);
    } else if p < t {
      Pow2Grows(p + 1, t);
    }
  }

  /** The search for the highest set bit extends a number whose top bit is `p`. */
  lemma ExtendSignTopValue(code: Word, p: nat)
    requires p < 32 && Pow2(p) <= code < Pow2(p + 1)
    ensures ExtendSignTop(code) == code - Pow2(p + 1) + TWO32
  {
    hide Pow2, CountlZero, ExtendSign;
    assert code < Pow2(32) by { Pow2Of32(); }
    CountlZeroFindsTop(code, 32);
    TopIsUnique(code, p, 32 - CountlZero(code, 32) - 1);
    ExtendSignValue(p, code);
  }

  lemma DivideNegative(v: int, p: int, h: int)
    requires p >= 1 && p * h == 0x8000_0000
    requires 0x8000_0000 <= v < TWO32
    ensures h <= v / p < 2 * h
    ensures (v - TWO32) / p == v / p - 2 * h
  {
    var d, r := v / p, v % p;
    assert v == p * d + r;
    assert p * (d - 2 * h) == p * d - 2 * (p * h);
    assert p * (d - h) == p * d - p * h;
    DivModUnique(v - TWO32, p, d - 2 * h, r);
    MulSize(p, d - 2 * h);
    MulSize(p, d - h);
  }

  lemma ShiftedNegative(value: Word, k: nat)
    requires k < 32 && value >= 0x8000_0000
    ensures Pow2(31 - k) <= value / Pow2(k) < Pow2(32 - k) <= TWO32
    ensures Signed(value) / Pow2(k) == value / Pow2(k) - Pow2(32 - k)
    ensures -0x8000_0000 <= Signed(value) / Pow2(k) < 0
  {
    hide Pow2;
    assert Pow2(k) * Pow2(31 - k) == 0x8000_0000 && Pow2(32 - k) == 2 * Pow2(31 - k) <= TWO32 by {
      Pow2Of32();
      Pow2Add(k, 31 - k);
      Pow2Grows(31 - k, 31);
      Pow2Next(31 - k);
    }
    DivideNegative(value, Pow2(k), Pow2(31 - k));
  }

  /** Shifting logically and then filling from the highest set bit is the arithmetic shift,
      that is, division rounding down. */
  lemma ShiftThenExtend(value: Word, k: nat)
    requires k < 32
    ensures value >= 0x8000_0000 ==> ExtendSignTop(Shr(value, k)) == ArithmeticShift(value, k)
    ensures value < 0x8000_0000 ==> Shr(value, k) == ArithmeticShift(value, k)
    ensures Signed(ArithmeticShift(value, k)) == Signed(value) / Pow2(k)
  {
    hide Pow2, ExtendSignTop;
    DivBelow(value, Pow2(k));
    if value >= 0x8000_0000 {
      ShiftedNegative(value, k);
      assert 31 - k + 1 == 32 - k;
      ExtendSignTopValue(value / Pow2(k), 31 - k);
    }
  }
}
