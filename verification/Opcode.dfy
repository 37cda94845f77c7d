/** Instruction decoding and encoding, operator by operator as the interpreter does it. */
module Opcode {
  import opened Words
  import opened BitTools

  // Opcode groups: `make_opcode(inst[6:5], inst[4:2])` with the low bits 11.
  const LOAD: Word := 0x03
  const MISC_MEM: Word := 0x0F
  const OP_IMM: Word := 0x13
  const AUIPC: Word := 0x17
  const STORE: Word := 0x23
  const OP: Word := 0x33
  const LUI: Word := 0x37
  const BRANCH: Word := 0x63
  const JALR: Word := 0x67
  const JAL: Word := 0x6F
  const SYSTEM: Word := 0x73

  function MakeOpcode(i65: Word, i42: Word): Word {
    Or(Or(Shl(i65, 5), Shl(i42, 2)), 3)
  }

  // ---- Decoder ----

  function GetCode(code: Word): (r: Word)
    ensures r < 0x80
  {
    GetBitsIsField(0, 7, code);
    GetBits(0, 7, code)
  }

  function GetRd(code: Word): (r: Word)
    ensures r < 32
  {
    GetBitsIsField(7, 5, code);
    GetBits(7, 5, code)
  }

  function GetFunc3(code: Word): (r: Word)
    ensures r < 8
  {
    GetBitsIsField(12, 3, code);
    GetBits(12, 3, code)
  }

  function GetRs1(code: Word): (r: Word)
    ensures r < 32
  {
    GetBitsIsField(15, 5, code);
    GetBits(15, 5, code)
  }

  function GetRs2(code: Word): (r: Word)
    ensures r < 32
  {
    GetBitsIsField(20, 5, code);
    GetBits(20, 5, code)
  }

  function GetFunc7(code: Word): (r: Word)
    ensures r < 0x80
  {
    GetBitsIsField(25, 7, code);
    GetBits(25, 7, code)
  }


  function DecodeIU(code: Word): Word { ShiftBits(20, 0, 12, code) }
  function DecodeI(code: Word): Word { ExtendSign(11, DecodeIU(code)) }

  function DecodeSU(code: Word): Word {
    var a := ShiftBits(7, 0, 5, code);
    var b := ShiftBits(25, 5, 7, code);
    Or(a, b)
  }
  function DecodeS(code: Word): Word { ExtendSign(11, DecodeSU(code)) }

  function DecodeBU(code: Word): Word {
    var s := ShiftBits(31, 12, 1, code);
    var a := ShiftBits(8, 1, 4, code);
    var c := ShiftBits(7, 11, 1, code);
    var b := ShiftBits(25, 5, 6, code);
    Or(Or(Or(Or(s, a), b), c), 0)
  }
  function DecodeB(code: Word): Word { ExtendSign(12, DecodeBU(code)) }

  function DecodeU(code: Word): Word { And(code, MakeMask(12, 30)) }

  function DecodeJU(code: Word): Word {
    var s := ShiftBits(31, 20, 1, code);
    var a := ShiftBits(12, 12, 8, code);
    var b := ShiftBits(20, 11, 1, code);
    var c := ShiftBits(21, 1, 10, code);
    Or(Or(Or(Or(s, a), b), c), 0)
  }
  function DecodeJ(code: Word): Word { ExtendSign(20, DecodeJU(code)) }

  /** `opcode::extend_sign(value, code)`: extends `value` when the sign bit of `code` is set. */
  function ExtendSignBy(value: Word, code: Word): Word {
    var sign := And(code, Shl(1, 31));
    if sign != 0 then ExtendSignTop(value) else value
  }

  // ---- Encoder ----

  function EncodeGroup(group: Word): Word { Shl(group, 0) }
  function EncodeRd(id: Word): Word { Shl(id, 7) }
  function EncodeF3(id: Word): Word { Shl(id, 12) }
  function EncodeRs1(id: Word): Word { Shl(id, 15) }
  function EncodeRs2(id: Word): Word { Shl(id, 20) }
  function EncodeF7(id: Word): Word { Shl(id, 25) }

  function EncodeI(immediate: Word): Word { Shl(immediate, 20) }

  function EncodeS(immediate: Word): Word {
    var value := Or(0, Shl(GetRange(0, 4, immediate), 7));
    Or(value, Shl(GetRange(5, 11, immediate), 25))
  }

  function EncodeB(immediate: Word): Word {
    var value := Or(0, Shl(GetRange(11, 11, immediate), 7));
    var value := Or(value, Shl(GetRange(1, 4, immediate), 8));
    var value := Or(value, Shl(GetRange(5, 10, immediate), 25));
    Or(value, Shl(GetRange(12, 12, immediate), 31))
  }

  function EncodeU(immediate: Word): Word { Or(0, immediate) }

  function EncodeJ(immediate: Word): Word {
    var value := Or(0, Shl(GetRange(20, 20, immediate), 31));
    var value := Or(value, Shl(GetRange(1, 10, immediate), 21));
    var value := Or(value, Shl(GetRange(11, 11, immediate), 20));
    Or(value, Shl(GetRange(12, 19, immediate), 12))
  }

  function RType(group: Word, rd: Word, rs1: Word, rs2: Word, fa: Word, fb: Word): Word {
    var value := Or(0, EncodeGroup(group));
    var value := Or(value, EncodeRd(rd));
    var value := Or(value, EncodeF3(fa));
    var value := Or(value, EncodeRs1(rs1));
    var value := Or(value, EncodeRs2(rs2));
    Or(value, EncodeF7(fb))
  }

  function IType(group: Word, rd: Word, rs1: Word, immediate: Word, fa: Word): Word {
    var value := Or(0, EncodeGroup(group));
    var value := Or(value, EncodeRd(rd));
    var value := Or(value, EncodeF3(fa));
    var value := Or(value, EncodeRs1(rs1));
    Or(value, EncodeI(immediate))
  }

  /** The register and function fields that the S and B formats share. */
  function SourceFields(group: Word, rs1: Word, rs2: Word, fa: Word): Word {
    var value := Or(0, EncodeGroup(group));
    var value := Or(value, EncodeF3(fa));
    var value := Or(value, EncodeRs1(rs1));
    Or(value, EncodeRs2(rs2))
  }

  function SType(group: Word, rs1: Word, rs2: Word, immediate: Word, fa: Word): Word {
    Or(SourceFields(group, rs1, rs2, fa), EncodeS(immediate))
  }

  function BType(group: Word, rs1: Word, rs2: Word, immediate: Word, fa: Word): Word {
    Or(SourceFields(group, rs1, rs2, fa), EncodeB(immediate))
  }

  /** The fields that the U and J formats share. */
  function TargetFields(group: Word, rd: Word): Word {
    var value := Or(0, EncodeGroup(group));
    Or(value, EncodeRd(rd))
  }

  function UType(group: Word, rd: Word, immediate: Word): Word {
    Or(TargetFields(group, rd), EncodeU(immediate))
  }

  function JType(group: Word, rd: Word, immediate: Word): Word {
    Or(TargetFields(group, rd), EncodeJ(immediate))
  }
}
