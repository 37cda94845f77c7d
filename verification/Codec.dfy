/** The codec: decoders and encoders undo each other, and every decoded immediate has the value
    that the instruction formats give it. */
module Codec {
  import opened Words
  import opened BitTools
  import opened Opcode
  import R = Reference

  // ---- decoding an encoded instruction ----

  /** Encoding then decoding an R-type instruction recovers all six fields. */
  lemma RTypeDecodes(group: Word, rd: Word, rs1: Word, rs2: Word, fa: Word, fb: Word)
    requires group < 128 && rd < 32 && rs1 < 32 && rs2 < 32 && fa < 8 && fb < 128
    ensures var code := RType(group, rd, rs1, rs2, fa, fb);
            && GetCode(code) == group && GetRd(code) == rd && GetFunc3(code) == fa
            && GetRs1(code) == rs1 && GetRs2(code) == rs2 && GetFunc7(code) == fb
  {
    hide Bit, Bitwise, Pow2, GetBits;
    var code := RType(group, rd, rs1, rs2, fa, fb);
    BitLaws();
    SmallFields(group, rd, rs1, rs2, fa, fb);
    GetBitsFinds(0, 7, code, group);
    GetBitsFinds(7, 5, code, rd);
    GetBitsFinds(12, 3, code, fa);
    GetBitsFinds(15, 5, code, rs1);
    GetBitsFinds(20, 5, code, rs2);
    GetBitsFinds(25, 7, code, fb);
  }

  /** An I-type instruction gives back its fields and the low 12 bits of its immediate. */
  lemma ITypeDecodes(group: Word, rd: Word, rs1: Word, immediate: Word, fa: Word)
    requires group < 128 && rd < 32 && rs1 < 32 && fa < 8
    ensures var code := IType(group, rd, rs1, immediate, fa);
            && GetCode(code) == group && GetRd(code) == rd && GetFunc3(code) == fa && GetRs1(code) == rs1
            && DecodeIU(code) == immediate % 0x1000
  {
    hide Bit, Bitwise, Pow2;
    var code := IType(group, rd, rs1, immediate, fa);
    BitLaws();
    SmallFields(group, rd, rs1, 0, fa, 0);
    GetBitsFinds(0, 7, code, group);
    GetBitsFinds(7, 5, code, rd);
    GetBitsFinds(12, 3, code, fa);
    GetBitsFinds(15, 5, code, rs1);
    FieldLaws();
    LowBits(immediate, 12, 0x1000);
    SameWord(DecodeIU(code), immediate % 0x1000);
  }

  /** An S-type instruction gives back its fields and the low 12 bits of its immediate. */
  lemma STypeDecodes(group: Word, rs1: Word, rs2: Word, immediate: Word, fa: Word)
    requires group < 128 && rs1 < 32 && rs2 < 32 && fa < 8
    ensures var code := SType(group, rs1, rs2, immediate, fa);
            && GetCode(code) == group && GetFunc3(code) == fa && GetRs1(code) == rs1 && GetRs2(code) == rs2
            && DecodeSU(code) == immediate % 0x1000
  {
    hide Bit, Bitwise, Pow2;
    var code := SType(group, rs1, rs2, immediate, fa);
    BitLaws();
    FieldLaws();
    SmallFields(group, 0, rs1, rs2, fa, 0);
    GetBitsFinds(0, 7, code, group);
    GetBitsFinds(12, 3, code, fa);
    GetBitsFinds(15, 5, code, rs1);
    GetBitsFinds(20, 5, code, rs2);
    LowBits(immediate, 12, 0x1000);
    SameWord(DecodeSU(code), immediate % 0x1000);
  }

  /** Where the B format puts each bit of its immediate. */
  lemma EncodeBBits(immediate: Word)
    ensures forall i: nat {:trigger Bit(EncodeB(immediate), i)} :: Bit(EncodeB(immediate), i) ==
              (|| (i == 7 && Bit(immediate, 11)) || (8 <= i < 12 && Bit(immediate, i - 7))
               || (25 <= i < 31 && Bit(immediate, i - 20)) || (i == 31 && Bit(immediate, 12)))
  {
    hide Bit, Bitwise, Pow2;
    BitLaws();
    FieldLaws();
    SmallFields(0, 0, 0, 0, 0, 0);
  }

  /** Where the J format puts each bit of its immediate. */
  lemma EncodeJBits(immediate: Word)
    ensures forall i: nat {:trigger Bit(EncodeJ(immediate), i)} :: Bit(EncodeJ(immediate), i) ==
              (|| (12 <= i < 20 && Bit(immediate, i)) || (i == 20 && Bit(immediate, 11))
               || (21 <= i < 31 && Bit(immediate, i - 20)) || (i == 31 && Bit(immediate, 20)))
  {
    hide Bit, Bitwise, Pow2;
    BitLaws();
    FieldLaws();
    SmallFields(0, 0, 0, 0, 0, 0);
  }

  /** Where the decoder takes each bit of a B immediate from. */
  lemma DecodeBUBits(code: Word)
    ensures forall i: nat {:trigger Bit(DecodeBU(code), i)} :: Bit(DecodeBU(code), i) ==
              (|| (1 <= i < 5 && Bit(code, i + 7)) || (5 <= i < 11 && Bit(code, i + 20))
               || (i == 11 && Bit(code, 7)) || (i == 12 && Bit(code, 31)))
  {
    hide Bit, Bitwise, Pow2;
    BitLaws();
    FieldLaws();
    SmallFields(0, 0, 0, 0, 0, 0);
  }

  /** Where the decoder takes each bit of a J immediate from. */
  lemma DecodeJUBits(code: Word)
    ensures forall i: nat {:trigger Bit(DecodeJU(code), i)} :: Bit(DecodeJU(code), i) ==
              (|| (1 <= i < 11 && Bit(code, i + 20)) || (i == 11 && Bit(code, 20))
               || (12 <= i < 20 && Bit(code, i)) || (i == 20 && Bit(code, 31)))
  {
    hide Bit, Bitwise, Pow2;
    BitLaws();
    FieldLaws();
    SmallFields(0, 0, 0, 0, 0, 0);
  }

  lemma SourceFieldsBits(group: Word, rs1: Word, rs2: Word, fa: Word)
    requires group < 128 && rs1 < 32 && rs2 < 32 && fa < 8
    ensures forall i: nat {:trigger Bit(SourceFields(group, rs1, rs2, fa), i)} ::
              Bit(SourceFields(group, rs1, rs2, fa), i) ==
              (|| Bit(group, i) || (12 <= i < 32 && Bit(fa, i - 12))
               || (15 <= i < 32 && Bit(rs1, i - 15)) || (20 <= i < 32 && Bit(rs2, i - 20)))
  {
    hide Bit, Bitwise, Pow2;
    BitLaws();
    SmallFields(group, 0, rs1, rs2, fa, 0);
  }

  /** `make_opcode` puts its two fields above the low bits 11. */
  lemma MakeOpcodeValue(i65: Word, i42: Word)
    requires i65 < 4 && i42 < 8
    ensures MakeOpcode(i65, i42) == 0x20 * i65 + 4 * i42 + 3
  {
    hide Bit, Bitwise, Pow2;
    SmallPowers();
    assert Pow2(2) == 4 && Pow2(3) == 8 by { Pow2Next(0); Pow2Next(1); Pow2Next(2); }
    BitLaws();
    forall i: nat
      ensures Bit(i42, i) ==> i < 3
      ensures Bit(3, i) ==> i < 2
    {
      if i >= 3 { NoHighBits(i42, 3, i); }
      if i >= 2 { NoHighBits(3, 2, i); }
    }
    OrIsSum(Shl(i65, 5), Shl(i42, 2));
    OrIsSum(Or(Shl(i65, 5), Shl(i42, 2)), 3);
  }

  /** The opcode groups of the handlers, by the two fields of their opcodes. */
  lemma OpcodeGroups()
    ensures LOAD == MakeOpcode(0, 0) && STORE == MakeOpcode(1, 0) && BRANCH == MakeOpcode(3, 0) && JALR == MakeOpcode(3, 1)
    ensures MISC_MEM == MakeOpcode(0, 3) && JAL == MakeOpcode(3, 3) && OP_IMM == MakeOpcode(0, 4)
    ensures Opcode.OP == MakeOpcode(1, 4) && SYSTEM == MakeOpcode(3, 4) && AUIPC == MakeOpcode(0, 5) && LUI == MakeOpcode(1, 5)
  {
    hide MakeOpcode;
    MakeOpcodeValue(0, 0);
    MakeOpcodeValue(1, 0);
    MakeOpcodeValue(3, 0);
    MakeOpcodeValue(3, 1);
    MakeOpcodeValue(0, 3);
    MakeOpcodeValue(3, 3);
    MakeOpcodeValue(0, 4);
    MakeOpcodeValue(1, 4);
    MakeOpcodeValue(3, 4);
    MakeOpcodeValue(0, 5);
    MakeOpcodeValue(1, 5);
  }

  /** Which bit of the instruction holds bit `i` of a B immediate. */
  function PlaceInB(i: nat): (j: nat)
    requires 1 <= i < 13
    ensures 7 <= j < 12 || 25 <= j < 32
  {
    if i < 5 then i + 7 else if i < 11 then i + 20 else if i == 11 then 7 else 31
  }

  lemma BPlaces(code: Word, immediate: Word, i: nat)
    ensures 1 <= i < 13 ==> Bit(DecodeBU(code), i) == Bit(code, PlaceInB(i))
    ensures 1 <= i < 13 ==> Bit(EncodeB(immediate), PlaceInB(i)) == Bit(immediate, i)
    ensures !(1 <= i < 13) ==> !Bit(DecodeBU(code), i)
  {
    hide Bit, EncodeB, DecodeBU;
    DecodeBUBits(code);
    EncodeBBits(immediate);
  }

  /** Bit `i` of a B immediate comes back from where it was put. */
  lemma BImmediateBit(fields: Word, immediate: Word, i: nat)
    requires immediate % 2 == 0 && i < 32
    requires forall j: nat :: 7 <= j < 12 || 25 <= j ==> !Bit(fields, j)
    ensures Bit(DecodeBU(Or(fields, EncodeB(immediate))), i) == (i < 13 && Bit(immediate, i))
  {
    assert !Bit(immediate, 0);
    hide Bit, Bitwise, Pow2, EncodeB, DecodeBU, Or, PlaceInB;
    BPlaces(Or(fields, EncodeB(immediate)), immediate, i);
    if 1 <= i < 13 {
      OrBit(fields, EncodeB(immediate), PlaceInB(i));
      assert !Bit(fields, PlaceInB(i));
    }
  }

  lemma OrBit(x: Word, y: Word, i: nat)
    ensures Bit(Or(x, y), i) == (Bit(x, i) || Bit(y, i))
  {
    hide Bit, Bitwise, Pow2;
    BitLaws();
  }

  lemma BImmediate(fields: Word, immediate: Word)
    requires immediate % 2 == 0
    requires forall i: nat :: 7 <= i < 12 || 25 <= i ==> !Bit(fields, i)
    ensures DecodeBU(Or(fields, EncodeB(immediate))) == immediate % 0x2000
  {
    hide Bit, Bitwise, Pow2, EncodeB, DecodeBU, Or;
    var code := Or(fields, EncodeB(immediate));
    LowBits(immediate, 13, 0x2000);
    forall i: nat | i < 32
      ensures Bit(DecodeBU(code), i) == Bit(immediate % 0x2000, i)
    {
      BImmediateBit(fields, immediate, i);
    }
    SameWord(DecodeBU(code), immediate % 0x2000);
  }

  /** A B-type instruction gives back its fields and the low 13 bits of an even immediate. */
  lemma BTypeDecodes(group: Word, rs1: Word, rs2: Word, immediate: Word, fa: Word)
    requires group < 128 && rs1 < 32 && rs2 < 32 && fa < 8
    requires immediate % 2 == 0
    ensures var code := BType(group, rs1, rs2, immediate, fa);
            && GetCode(code) == group && GetFunc3(code) == fa && GetRs1(code) == rs1 && GetRs2(code) == rs2
            && DecodeBU(code) == immediate % 0x2000
  {
    hide Bit, Bitwise, Pow2, SourceFields, EncodeB, DecodeBU, GetBits;
    var code := BType(group, rs1, rs2, immediate, fa);
    SourceFieldsBits(group, rs1, rs2, fa);
    SmallFields(group, 0, rs1, rs2, fa, 0);
    BImmediate(SourceFields(group, rs1, rs2, fa), immediate);
    EncodeBBits(immediate);
    BitLaws();
    GetBitsFinds(0, 7, code, group);
    GetBitsFinds(12, 3, code, fa);
    GetBitsFinds(15, 5, code, rs1);
    GetBitsFinds(20, 5, code, rs2);
  }

  /** A U-type instruction gives back its fields and an immediate whose low 12 bits are zero. */
  lemma UTypeDecodes(group: Word, rd: Word, immediate: Word)
    requires group < 128 && rd < 32
    requires immediate % 0x1000 == 0
    ensures var code := UType(group, rd, immediate);
            && GetCode(code) == group && GetRd(code) == rd && DecodeU(code) == immediate
  {
    hide Bit, Bitwise, Pow2;
    var code := UType(group, rd, immediate);
    BitLaws();
    FieldLaws();
    SmallFields(group, rd, 0, 0, 0, 0);
    LowBits(immediate, 12, 0x1000);
    forall i: nat | i < 12
      ensures !Bit(immediate, i)
    {
      assert !Bit(immediate % 0x1000, i);
    }
    GetBitsFinds(0, 7, code, group);
    GetBitsFinds(7, 5, code, rd);
    MaskBits(12, 30);
    SameWord(DecodeU(code), immediate);
  }

  /** Which bit of the instruction holds bit `i` of a J immediate. */
  function PlaceInJ(i: nat): (j: nat)
    requires 1 <= i < 21
    ensures 12 <= j < 32
  {
    if i < 11 then i + 20 else if i == 11 then 20 else if i < 20 then i else 31
  }

  lemma JPlaces(code: Word, immediate: Word, i: nat)
    ensures 1 <= i < 21 ==> Bit(DecodeJU(code), i) == Bit(code, PlaceInJ(i))
    ensures 1 <= i < 21 ==> Bit(EncodeJ(immediate), PlaceInJ(i)) == Bit(immediate, i)
    ensures !(1 <= i < 21) ==> !Bit(DecodeJU(code), i)
  {
    hide Bit, EncodeJ, DecodeJU;
    DecodeJUBits(code);
    EncodeJBits(immediate);
  }

  /** Bit `i` of a J immediate comes back from where it was put. */
  lemma JImmediateBit(fields: Word, immediate: Word, i: nat)
    requires immediate % 2 == 0 && i < 32
    requires forall j: nat :: 12 <= j ==> !Bit(fields, j)
    ensures Bit(DecodeJU(Or(fields, EncodeJ(immediate))), i) == (i < 21 && Bit(immediate, i))
  {
    assert !Bit(immediate, 0);
    hide Bit, Bitwise, Pow2, EncodeJ, DecodeJU, Or, PlaceInJ;
    JPlaces(Or(fields, EncodeJ(immediate)), immediate, i);
    if 1 <= i < 21 {
      OrBit(fields, EncodeJ(immediate), PlaceInJ(i));
      assert !Bit(fields, PlaceInJ(i));
    }
  }

  lemma JImmediate(fields: Word, immediate: Word)
    requires immediate % 2 == 0
    requires forall i: nat :: 12 <= i ==> !Bit(fields, i)
    ensures DecodeJU(Or(fields, EncodeJ(immediate))) == immediate % 0x20_0000
  {
    hide Bit, Bitwise, Pow2, EncodeJ, DecodeJU, Or;
    var code := Or(fields, EncodeJ(immediate));
    LowBits(immediate, 21, 0x20_0000);
    forall i: nat | i < 32
      ensures Bit(DecodeJU(code), i) == Bit(immediate % 0x20_0000, i)
    {
      JImmediateBit(fields, immediate, i);
    }
    SameWord(DecodeJU(code), immediate % 0x20_0000);
  }

  lemma TargetFieldsBits(group: Word, rd: Word)
    requires group < 128 && rd < 32
    ensures forall i: nat {:trigger Bit(TargetFields(group, rd), i)} ::
              Bit(TargetFields(group, rd), i) == (Bit(group, i) || (7 <= i < 32 && Bit(rd, i - 7)))
  {
    hide Bit, Bitwise, Pow2;
    BitLaws();
    SmallFields(group, rd, 0, 0, 0, 0);
  }

  /** A J-type instruction gives back its fields and the low 21 bits of an even immediate. */
  lemma JTypeDecodes(group: Word, rd: Word, immediate: Word)
    requires group < 128 && rd < 32
    requires immediate % 2 == 0
    ensures var code := JType(group, rd, immediate);
            && GetCode(code) == group && GetRd(code) == rd && DecodeJU(code) == immediate % 0x20_0000
  {
    hide Bit, Bitwise, Pow2, TargetFields, EncodeJ, DecodeJU, GetBits;
    var code := JType(group, rd, immediate);
    TargetFieldsBits(group, rd);
    SmallFields(group, rd, 0, 0, 0, 0);
    JImmediate(TargetFields(group, rd), immediate);
    EncodeJBits(immediate);
    BitLaws();
    GetBitsFinds(0, 7, code, group);
    GetBitsFinds(7, 5, code, rd);
  }

  lemma LowBits(x: Word, n: nat, p: nat)
    requires (n, p) == (12, 0x1000) || (n, p) == (13, 0x2000) || (n, p) == (21, 0x20_0000)
    ensures Pow2(n) == p
    ensures forall i: nat {:trigger Bit(x % p, i)} :: Bit(x % p, i) == (i < n && Bit(x, i))
  {
    assert Pow2(n) == p by {
      hide Pow2;
      SmallPowers();
    }
    forall i: nat
      ensures Bit(x % p, i) == (i < n && Bit(x, i))
    {
      ModBit(x, n, i);
    }
  }

  lemma SmallPowers()
    ensures Pow2(0) == 1 && Pow2(1) == 2 && Pow2(4) == 0x10 && Pow2(5) == 0x20 && Pow2(6) == 0x40
    ensures Pow2(7) == 0x80 && Pow2(8) == 0x100 && Pow2(10) == 0x400 && Pow2(11) == 0x800
    ensures Pow2(12) == 0x1000 && Pow2(13) == 0x2000 && Pow2(20) == 0x10_0000 && Pow2(21) == 0x20_0000
  {
    assert Pow2(6) == 64 && Pow2(7) == 128 && Pow2(8) == 256;
    Pow2Add(8, 4);
    Pow2Next(12);
    Pow2Add(12, 8);
    Pow2Next(20);
    Pow2Next(10);
    Pow2Add(8, 2);
  }

  /** In-range fields have no bits outside their width. */
  lemma SmallFields(group: Word, rd: Word, rs1: Word, rs2: Word, fa: Word, fb: Word)
    requires group < 128 && rd < 32 && rs1 < 32 && rs2 < 32 && fa < 8 && fb < 128
    ensures Pow2(3) == 8 && Pow2(5) == 32 && Pow2(7) == 128
    ensures forall i: nat {:trigger Bit(group, i)} :: Bit(group, i) ==> i < 7
    ensures forall i: nat {:trigger Bit(rd, i)} :: Bit(rd, i) ==> i < 5
    ensures forall i: nat {:trigger Bit(rs1, i)} :: Bit(rs1, i) ==> i < 5
    ensures forall i: nat {:trigger Bit(rs2, i)} :: Bit(rs2, i) ==> i < 5
    ensures forall i: nat {:trigger Bit(fa, i)} :: Bit(fa, i) ==> i < 3
    ensures forall i: nat {:trigger Bit(fb, i)} :: Bit(fb, i) ==> i < 7
    ensures forall i: nat {:trigger Bit(0, i)} :: !Bit(0, i)
  {
    assert Pow2(3) == 8 && Pow2(5) == 32 && Pow2(7) == 128;
    forall x: nat, n: nat, i: nat | x < Pow2(n) && n <= i
      ensures !Bit(x, i)
    {
      NoHighBits(x, n, i);
    }
    forall i: nat
      ensures !Bit(0, i)
    {
      NoHighBits(0, 0, i);
    }
  }

  // ---- immediates have their mathematical value ----

  /** The low bits of a small signed number, extended again, are that number. */
  lemma TwosComplement(position: nat, half: int, m: int)
    requires position < 31 && half == Pow2(position)
    requires -half <= m < half
    ensures ToWord(m) % (2 * half) < TWO32
    ensures Signed(ExtendSign(position, ToWord(m) % (2 * half))) == m
  {
    hide Pow2, ExtendSign;
    var d, k := 2 * half, Pow2(31 - position);
    assert d * k == TWO32 && d <= TWO32 by {
      Pow2Of32();
      Pow2Next(position);
      Pow2Add(position + 1, 31 - position);
      Pow2Grows(position + 1, 32);
    }
    if m < 0 {
      DivModUnique(m, TWO32, -1, m + TWO32);
      assert d * (k - 1) == d * k - d;
      DivModUnique(m + TWO32, d, k - 1, m + d);
    } else {
      DivModUnique(m, TWO32, 0, m);
      DivModUnique(m, d, 0, m);
    }
    Pow2Next(position);
    ExtendSignValue(position, ToWord(m) % d);
  }

  /** Signed immediates survive encoding and decoding. */
  lemma SignedImmediates(group: Word, rd: Word, rs1: Word, rs2: Word, fa: Word, m: int)
    requires group < 128 && rd < 32 && rs1 < 32 && rs2 < 32 && fa < 8
    ensures -0x800 <= m < 0x800 ==> Signed(DecodeI(IType(group, rd, rs1, ToWord(m), fa))) == m
    ensures -0x800 <= m < 0x800 ==> Signed(DecodeS(SType(group, rs1, rs2, ToWord(m), fa))) == m
    ensures -0x1000 <= m < 0x1000 && m % 2 == 0 ==> Signed(DecodeB(BType(group, rs1, rs2, ToWord(m), fa))) == m
    ensures -0x10_0000 <= m < 0x10_0000 && m % 2 == 0 ==> Signed(DecodeJ(JType(group, rd, ToWord(m)))) == m
  {
    hide Pow2, IType, SType, BType, JType, DecodeIU, DecodeSU, DecodeBU, DecodeJU, ExtendSign;
    SmallPowers();
    if -0x800 <= m < 0x800 {
      ITypeDecodes(group, rd, rs1, ToWord(m), fa);
      STypeDecodes(group, rs1, rs2, ToWord(m), fa);
      TwosComplement(11, 0x800, m);
    }
    if -0x1000 <= m < 0x1000 && m % 2 == 0 {
      BTypeDecodes(group, rs1, rs2, ToWord(m), fa);
      TwosComplement(12, 0x1000, m);
    }
    if -0x10_0000 <= m < 0x10_0000 && m % 2 == 0 {
      JTypeDecodes(group, rd, ToWord(m));
      TwosComplement(20, 0x10_0000, m);
    }
  }

  lemma SliceIsField(w: nat, hi: nat, lo: nat)
    requires lo <= hi
    ensures R.Slice(w, hi, lo) == Field(w, lo, hi - lo + 1)
  {
  }

  /** The getters and immediate decoders agree with the bit slices of the format tables. */
  lemma DecodedSlices(code: Word)
    ensures GetCode(code) == R.Slice(code, 6, 0) && GetRd(code) == R.Slice(code, 11, 7)
    ensures GetFunc3(code) == R.Slice(code, 14, 12) && GetRs1(code) == R.Slice(code, 19, 15)
    ensures GetRs2(code) == R.Slice(code, 24, 20) && GetFunc7(code) == R.Slice(code, 31, 25)
  {
    hide GetBits, Pow2;
    GetBitsIsField(0, 7, code);
    GetBitsIsField(7, 5, code);
    GetBitsIsField(12, 3, code);
    GetBitsIsField(15, 5, code);
    GetBitsIsField(20, 5, code);
    GetBitsIsField(25, 7, code);
  }

  lemma DecodeIValue(code: Word)
    ensures Signed(DecodeI(code)) == R.ImmI(code)
  {
    hide Pow2, ShiftBits, ExtendSign, Field;
    SmallPowers();
    ShiftBitsIsField(20, 0, 12, code);
    FieldSplit(code, 20, 11, 1);
    SliceIsField(code, 30, 20);
    SliceIsField(code, 31, 31);
    ExtendSignValue(11, DecodeIU(code));
  }

  lemma DecodeSValue(code: Word)
    ensures Signed(DecodeS(code)) == R.ImmS(code)
  {
    hide Bit, Bitwise, Pow2, ShiftBits, ExtendSign, Field;
    SmallPowers();
    ShiftBitsIsField(7, 0, 5, code);
    ShiftBitsIsField(25, 5, 7, code);
    ShiftBitsBit(7, 0, 5, code);
    ShiftBitsBit(25, 5, 7, code);
    OrIsSum(ShiftBits(7, 0, 5, code), ShiftBits(25, 5, 7, code));
    FieldSplit(code, 25, 6, 1);
    SliceIsField(code, 11, 7);
    SliceIsField(code, 30, 25);
    SliceIsField(code, 31, 31);
    ExtendSignValue(11, DecodeSU(code));
  }

  /** The four pieces of a B or J immediate do not meet, so joining them adds them. */
  lemma JoinPieces(s: Word, a: Word, b: Word, c: Word)
    requires forall i: nat :: i < 32 ==> !(Bit(s, i) && Bit(a, i)) && !(Bit(s, i) && Bit(b, i)) && !(Bit(s, i) && Bit(c, i))
    requires forall i: nat :: i < 32 ==> !(Bit(a, i) && Bit(b, i)) && !(Bit(a, i) && Bit(c, i)) && !(Bit(b, i) && Bit(c, i))
    ensures Or(Or(Or(Or(s, a), b), c), 0) == s + a + b + c
  {
    hide Bit, Bitwise, Pow2;
    BitLaws();
    OrIsSum(s, a);
    OrIsSum(Or(s, a), b);
    OrIsSum(Or(Or(s, a), b), c);
    OrZero(Or(Or(Or(s, a), b), c));
  }

  lemma DecodeBUValue(code: Word)
    ensures DecodeBU(code) ==
            0x1000 * R.Slice(code, 31, 31) + 2 * R.Slice(code, 11, 8) + 0x20 * R.Slice(code, 30, 25) + 0x800 * R.Slice(code, 7, 7)
  {
    hide Bit, Bitwise, Pow2, ShiftBits, Field;
    SmallPowers();
    ShiftBitsIsField(31, 12, 1, code);
    ShiftBitsIsField(8, 1, 4, code);
    ShiftBitsIsField(25, 5, 6, code);
    ShiftBitsIsField(7, 11, 1, code);
    ShiftBitsBit(31, 12, 1, code);
    ShiftBitsBit(8, 1, 4, code);
    ShiftBitsBit(25, 5, 6, code);
    ShiftBitsBit(7, 11, 1, code);
    SliceIsField(code, 31, 31);
    SliceIsField(code, 11, 8);
    SliceIsField(code, 30, 25);
    SliceIsField(code, 7, 7);
    JoinPieces(ShiftBits(31, 12, 1, code), ShiftBits(8, 1, 4, code), ShiftBits(25, 5, 6, code), ShiftBits(7, 11, 1, code));
  }

  lemma DecodeJUValue(code: Word)
    ensures DecodeJU(code) ==
            0x10_0000 * R.Slice(code, 31, 31) + 0x1000 * R.Slice(code, 19, 12) + 0x800 * R.Slice(code, 20, 20) + 2 * R.Slice(code, 30, 21)
  {
    hide Bit, Bitwise, Pow2, ShiftBits, Field;
    SmallPowers();
    ShiftBitsIsField(31, 20, 1, code);
    ShiftBitsIsField(12, 12, 8, code);
    ShiftBitsIsField(20, 11, 1, code);
    ShiftBitsIsField(21, 1, 10, code);
    ShiftBitsBit(31, 20, 1, code);
    ShiftBitsBit(12, 12, 8, code);
    ShiftBitsBit(20, 11, 1, code);
    ShiftBitsBit(21, 1, 10, code);
    SliceIsField(code, 31, 31);
    SliceIsField(code, 19, 12);
    SliceIsField(code, 20, 20);
    SliceIsField(code, 30, 21);
    JoinPieces(ShiftBits(31, 20, 1, code), ShiftBits(12, 12, 8, code), ShiftBits(20, 11, 1, code), ShiftBits(21, 1, 10, code));
  }

  lemma DecodeUValue(code: Word)
    ensures DecodeU(code) == R.ImmU(code)
  {
    hide Bit, Bitwise, Pow2, Field;
    BitLaws();
    SmallPowers();
    MaskBits(12, 30);
    var f := Field(code, 12, 20);
    SliceIsField(code, 31, 12);
    ShiftedFieldFits(f, 20, 12);
    forall i: nat | i < 32
      ensures Bit(DecodeU(code), i) == Bit(f * Pow2(12), i)
    {
      MulBit(f, 12, i);
      if 12 <= i {
        FieldBit(code, 12, 20, i - 12);
      }
    }
    SameWord(DecodeU(code), f * Pow2(12));
  }

  lemma SliceBounds(code: Word)
    ensures R.Slice(code, 31, 31) < 2 && R.Slice(code, 7, 7) < 2 && R.Slice(code, 20, 20) < 2
    ensures R.Slice(code, 11, 8) < 0x10 && R.Slice(code, 30, 25) < 0x40 && R.Slice(code, 19, 12) < 0x100 && R.Slice(code, 30, 21) < 0x400
  {
    hide Pow2;
    SmallPowers();
  }

  /** For every instruction word, each decoded immediate is the number the format tables define. */
  lemma DecodedImmediates(code: Word)
    ensures Signed(DecodeI(code)) == R.ImmI(code)
    ensures Signed(DecodeS(code)) == R.ImmS(code)
    ensures Signed(DecodeB(code)) == R.ImmB(code)
    ensures Signed(DecodeJ(code)) == R.ImmJ(code)
    ensures DecodeU(code) == R.ImmU(code)
  {
    hide Pow2, ExtendSign, DecodeI, DecodeIU, DecodeS, DecodeSU, DecodeBU, DecodeJU, DecodeU, R.Slice, R.ImmI, R.ImmS, R.ImmU;
    DecodeIValue(code);
    DecodeSValue(code);
    DecodeUValue(code);
    SmallPowers();
    SliceBounds(code);
    DecodeBUValue(code);
    ExtendSignValue(12, DecodeBU(code));
    DecodeJUValue(code);
    ExtendSignValue(20, DecodeJU(code));
  }

  // ---- encoding a decoded instruction ----

  lemma DecodeSUBits(code: Word)
    ensures forall i: nat {:trigger Bit(DecodeSU(code), i)} ::
              Bit(DecodeSU(code), i) == (i < 12 && Bit(code, if i < 5 then 7 + i else 20 + i))
  {
    hide Bit, Bitwise, Pow2, ShiftBits;
    BitLaws();
    FieldLaws();
  }

  /** Extending an immediate does not touch the bits that are encoded. */
  lemma ExtendedBits(w: Word)
    ensures forall i: nat {:trigger Bit(DecodeI(w), i)} :: i < 12 ==> Bit(DecodeI(w), i) == Bit(w, 20 + i)
    ensures forall i: nat {:trigger Bit(DecodeS(w), i)} :: i < 12 ==> Bit(DecodeS(w), i) == Bit(w, if i < 5 then 7 + i else 20 + i)
    ensures forall i: nat {:trigger Bit(DecodeB(w), i)} :: i < 13 ==> Bit(DecodeB(w), i) == Bit(DecodeBU(w), i)
    ensures forall i: nat {:trigger Bit(DecodeJ(w), i)} :: i < 21 ==> Bit(DecodeJ(w), i) == Bit(DecodeJU(w), i)
  {
    hide Bit, Bitwise, Pow2, ShiftBits, ExtendSign, DecodeSU, DecodeBU, DecodeJU;
    DecodeSUBits(w);
    DecodeBUBits(w);
    DecodeJUBits(w);
    FieldLaws();
    BelowByBits(DecodeIU(w), 12);
    BelowByBits(DecodeSU(w), 12);
    BelowByBits(DecodeBU(w), 13);
    BelowByBits(DecodeJU(w), 21);
  }

  lemma ReencodeR(w: Word)
    ensures RType(GetCode(w), GetRd(w), GetRs1(w), GetRs2(w), GetFunc3(w), GetFunc7(w)) == w
  {
    hide Bit, Bitwise, Pow2, GetBits;
    BitLaws();
    FieldLaws();
    SmallFields(0, 0, 0, 0, 0, 0);
    SameWord(RType(GetCode(w), GetRd(w), GetRs1(w), GetRs2(w), GetFunc3(w), GetFunc7(w)), w);
  }

  lemma ReencodeI(w: Word)
    ensures IType(GetCode(w), GetRd(w), GetRs1(w), DecodeI(w), GetFunc3(w)) == w
  {
    hide Bit, Bitwise, Pow2, GetBits, DecodeI;
    BitLaws();
    FieldLaws();
    ExtendedBits(w);
    SmallFields(0, 0, 0, 0, 0, 0);
    SameWord(IType(GetCode(w), GetRd(w), GetRs1(w), DecodeI(w), GetFunc3(w)), w);
  }

  /** The bits outside the immediate of an S or B instruction. */
  lemma SourceFieldsOf(w: Word)
    ensures forall i: nat {:trigger Bit(SourceFields(GetCode(w), GetRs1(w), GetRs2(w), GetFunc3(w)), i)} ::
              Bit(SourceFields(GetCode(w), GetRs1(w), GetRs2(w), GetFunc3(w)), i) == ((i < 7 || 12 <= i < 25) && Bit(w, i))
  {
    hide Bit, Bitwise, Pow2, GetBits;
    BitLaws();
    FieldLaws();
    SmallFields(0, 0, 0, 0, 0, 0);
  }

  lemma ReencodeS(w: Word)
    ensures SType(GetCode(w), GetRs1(w), GetRs2(w), DecodeS(w), GetFunc3(w)) == w
  {
    hide Bit, Bitwise, Pow2, GetCode, GetRs1, GetRs2, GetFunc3, SourceFields, DecodeS, GetRange;
    BitLaws();
    FieldLaws();
    SourceFieldsOf(w);
    ExtendedBits(w);
    SmallFields(0, 0, 0, 0, 0, 0);
    SameWord(SType(GetCode(w), GetRs1(w), GetRs2(w), DecodeS(w), GetFunc3(w)), w);
  }

  lemma ReencodeB(w: Word)
    ensures BType(GetCode(w), GetRs1(w), GetRs2(w), DecodeB(w), GetFunc3(w)) == w
  {
    hide Bit, Bitwise, Pow2, GetCode, GetRs1, GetRs2, GetFunc3, SourceFields, EncodeB, DecodeB, DecodeBU;
    BitLaws();
    SourceFieldsOf(w);
    EncodeBBits(DecodeB(w));
    ExtendedBits(w);
    DecodeBUBits(w);
    SameWord(BType(GetCode(w), GetRs1(w), GetRs2(w), DecodeB(w), GetFunc3(w)), w);
  }

  lemma ReencodeU(w: Word)
    ensures UType(GetCode(w), GetRd(w), DecodeU(w)) == w
  {
    hide Bit, Bitwise, Pow2, GetBits, MakeMask;
    BitLaws();
    FieldLaws();
    MaskBits(12, 30);
    SmallFields(0, 0, 0, 0, 0, 0);
    SameWord(UType(GetCode(w), GetRd(w), DecodeU(w)), w);
  }

  lemma ReencodeJ(w: Word)
    ensures JType(GetCode(w), GetRd(w), DecodeJ(w)) == w
  {
    hide Bit, Bitwise, Pow2, GetBits, EncodeJ, DecodeJ, DecodeJU;
    BitLaws();
    FieldLaws();
    EncodeJBits(DecodeJ(w));
    ExtendedBits(w);
    DecodeJUBits(w);
    SmallFields(0, 0, 0, 0, 0, 0);
    SameWord(JType(GetCode(w), GetRd(w), DecodeJ(w)), w);
  }

  /** Encoding the decoded fields of any word, in each of the six formats, gives that word back. */
  lemma Reencodes(w: Word)
    ensures RType(GetCode(w), GetRd(w), GetRs1(w), GetRs2(w), GetFunc3(w), GetFunc7(w)) == w
    ensures IType(GetCode(w), GetRd(w), GetRs1(w), DecodeI(w), GetFunc3(w)) == w
    ensures SType(GetCode(w), GetRs1(w), GetRs2(w), DecodeS(w), GetFunc3(w)) == w
    ensures BType(GetCode(w), GetRs1(w), GetRs2(w), DecodeB(w), GetFunc3(w)) == w
    ensures UType(GetCode(w), GetRd(w), DecodeU(w)) == w
    ensures JType(GetCode(w), GetRd(w), DecodeJ(w)) == w
  {
    hide *;
    ReencodeR(w);
    ReencodeI(w);
    ReencodeS(w);
    ReencodeB(w);
    ReencodeU(w);
    ReencodeJ(w);
  }
}
