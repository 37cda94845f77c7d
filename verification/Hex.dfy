/** Intel HEX: the records, their text form, and the parser. */
module Hex {
  import opened Words
  import opened Wrappers

  datatype RecordType =
    | HEX_DATA | HEX_EOF | HEX_SEGMENT_EXTEND | HEX_SEGMENT_START | HEX_LINEAR_EXTEND | HEX_LINEAR_START | HEX_UNKNOWN

  datatype HexRecord = HexRecord(count: Byte, kind: Byte, sumExpected: Byte, sumActual: Byte, offset: Word, data: seq<Byte>) {
    function GetType(): RecordType {
      match kind
      case 0 => HEX_DATA
      case 1 => HEX_EOF
      case 2 => HEX_SEGMENT_EXTEND
      case 3 => HEX_SEGMENT_START
      case 4 => HEX_LINEAR_EXTEND
      case 5 => HEX_LINEAR_START
      case _ => HEX_UNKNOWN
    }

    predicate IsEof() {
      GetType() == HEX_EOF
    }

    predicate IsValid() {
      sumActual == sumExpected && count == |data|
    }

    /** The base address an extend record sets: segment or linear. */
    function GetExtend(): Word {
      if |data| == 2 then
        var value := Or(Shl(data[0], 8), data[1]);
        if GetType() == HEX_SEGMENT_EXTEND then Shl(value, 4)
        else if GetType() == HEX_LINEAR_EXTEND then Shl(value, 16)
        else 0
      else 0
    }

    /** The entry point a start record sets. */
    function GetStart(): Word {
      if |data| == 4 && (GetType() == HEX_LINEAR_START || GetType() == HEX_SEGMENT_START) then
        Or(Or(Or(Shl(data[0], 24), Shl(data[1], 16)), Shl(data[2], 8)), data[3])
      else 0
    }
  }

  /** The type of a record, by its kind byte. */
  lemma KindMeaning(r: HexRecord)
    ensures r.GetType() == HEX_DATA <==> r.kind == 0
    ensures r.IsEof() <==> r.kind == 1
    ensures r.GetType() == HEX_EOF <==> r.kind == 1
    ensures r.GetType() == HEX_SEGMENT_EXTEND <==> r.kind == 2
    ensures r.GetType() == HEX_SEGMENT_START <==> r.kind == 3
    ensures r.GetType() == HEX_LINEAR_EXTEND <==> r.kind == 4
    ensures r.GetType() == HEX_LINEAR_START <==> r.kind == 5
    ensures r.GetType() == HEX_UNKNOWN <==> r.kind > 5
  {
  }

  lemma ByteBits(b: Byte)
    ensures Pow2(8) == 0x100
    ensures forall i: nat {:trigger Bit(b, i)} :: Bit(b, i) ==> i < 8
  {
    assert Pow2(8) == 0x100;
    forall i: nat | 8 <= i
      ensures !Bit(b, i)
    {
      NoHighBits(b, 8, i);
    }
  }

  lemma BytePowers()
    ensures Pow2(4) == 0x10 && Pow2(8) == 0x100 && Pow2(16) == 0x1_0000 && Pow2(24) == 0x100_0000
  {
    assert Pow2(4) == 0x10;
    Pow2Add(4, 4);
    Pow2Add(8, 8);
    Pow2Add(8, 16);
  }

  /** Joining bytes with shifts builds the big-endian number. */
  lemma JoinedBytes(a: Byte, b: Byte, c: Byte, d: Byte)
    ensures Or(Shl(c, 8), d) == 0x100 * c + d
    ensures Or(Or(Or(Shl(a, 24), Shl(b, 16)), Shl(c, 8)), d) == 0x100_0000 * a + 0x1_0000 * b + 0x100 * c + d
  {
    hide Bit, Bitwise, Pow2;
    BytePowers();
    BitLaws();
    ByteBits(a);
    ByteBits(b);
    ByteBits(c);
    ByteBits(d);
    OrIsSum(Shl(c, 8), d);
    OrIsSum(Shl(a, 24), Shl(b, 16));
    OrIsSum(Or(Shl(a, 24), Shl(b, 16)), Shl(c, 8));
    OrIsSum(Or(Or(Shl(a, 24), Shl(b, 16)), Shl(c, 8)), d);
  }

  /** Extend records hold a big-endian 16-bit number, counted in paragraphs or in 64 KiB units; start
      records hold a big-endian 32-bit address. */
  lemma AddressRecords(r: HexRecord)
    ensures |r.data| == 2 && r.kind == 2 ==> r.GetExtend() as int == 0x10 * (0x100 * r.data[0] as int + r.data[1] as int)
    ensures |r.data| == 2 && r.kind == 4 ==> r.GetExtend() as int == 0x1_0000 * (0x100 * r.data[0] as int + r.data[1] as int)
    ensures |r.data| == 4 && (r.kind == 3 || r.kind == 5) ==>
              r.GetStart() as int == 0x100_0000 * r.data[0] as int + 0x1_0000 * r.data[1] as int + 0x100 * r.data[2] as int + r.data[3] as int
    ensures |r.data| != 2 || (r.kind != 2 && r.kind != 4) ==> r.GetExtend() == 0
    ensures |r.data| != 4 || (r.kind != 3 && r.kind != 5) ==> r.GetStart() == 0
  {
    hide Bit, Bitwise, Pow2, Or;
    BytePowers();
    if |r.data| == 2 {
      JoinedBytes(0, 0, r.data[0], r.data[1]);
    }
    if |r.data| == 4 {
      JoinedBytes(r.data[0], r.data[1], r.data[2], r.data[3]);
    }
  }

  // ---- hexadecimal text ----

  function FromHexDigit(c: char): Byte {
    if '0' <= c <= '9' then c as int - '0' as int
    else if 'a' <= c <= 'f' then c as int - 'a' as int + 10
    else if 'A' <= c <= 'F' then c as int - 'A' as int + 10
    else 0xFF
  }

  /** The character is the hexadecimal digit of value `d`, in either case. */
  predicate IsDigit(c: char, d: nat) {
    d < 16 && (c == "0123456789ABCDEF"[d] || c == "0123456789abcdef"[d])
  }

  /** Digits of both cases have their value, and no other character has one. */
  lemma DigitValues(c: char)
    ensures forall d: nat :: IsDigit(c, d) ==> FromHexDigit(c) == d
    ensures (forall d: nat :: !IsDigit(c, d)) ==> FromHexDigit(c) == 0xFF
    ensures FromHexDigit(c) < 16 ==> IsDigit(c, FromHexDigit(c))
    ensures FromHexDigit(c) < 16 || FromHexDigit(c) == 0xFF
  {
    forall d: nat | IsDigit(c, d)
      ensures FromHexDigit(c) == d
    {
      assert d in {0, 1, 2, 3, 4, 5, 6, 7, 8, 9, 10, 11, 12, 13, 14, 15};
    }
    var v := FromHexDigit(c);
    if v != 0xFF {
      assert v in {0, 1, 2, 3, 4, 5, 6, 7, 8, 9, 10, 11, 12, 13, 14, 15};
      assert IsDigit(c, v);
    }
  }

  /** `(hi << 4) | lo`, cut to a byte. */
  function FromHexPair(hi: char, lo: char): Byte {
    Or(Shl(FromHexDigit(hi), 4), FromHexDigit(lo)) % 0x100
  }

  /** The bytes of a text, two characters each; an odd last character is ignored. */
  function Bytes(text: string): (bytes: seq<Byte>)
    ensures |bytes| == |text| / 2
  {
    if |text| < 2 then [] else [FromHexPair(text[0], text[1])] + Bytes(text[2..])
  }

  /** Characters 2i and 2i + 1 are the digits `h` and `l`. */
  predicate DigitsAt(text: string, i: nat, h: nat, l: nat) {
    2 * i + 1 < |text| && IsDigit(text[2 * i], h) && IsDigit(text[2 * i + 1], l)
  }

  /** The text gives these bytes, by two digits of either case for each. */
  predicate Spells(text: string, bytes: seq<Byte>) {
    |text| == 2 * |bytes| && forall i | 0 <= i < |bytes| :: DigitsAt(text, i, bytes[i] / 16, bytes[i] % 16)
  }

  lemma {:induction false} BytesAt(text: string, i: nat)
    requires 2 * i + 1 < |text|
    ensures Bytes(text)[i] == FromHexPair(text[2 * i], text[2 * i + 1])
    decreases i
  {
    hide FromHexPair;
    if i > 0 {
      BytesAt(text[2..], i - 1);
    }
  }

  /** One byte for each pair of characters: for two digits, 16 times the one value plus the other. */
  ghost predicate ReadsDigits(text: string, bytes: seq<Byte>) {
    |bytes| == |text| / 2 &&
    forall i: nat, h: nat, l: nat :: DigitsAt(text, i, h, l) ==> i < |bytes| && bytes[i] == 16 * h + l
  }

  lemma DigitsMakeBytes(text: string)
    ensures ReadsDigits(text, Bytes(text))
  {
    hide Bytes, FromHexDigit, IsDigit, Or, Shl;
    forall i: nat, h: nat, l: nat | DigitsAt(text, i, h, l)
      ensures i < |Bytes(text)| && Bytes(text)[i] == 16 * h + l
    {
      BytesAt(text, i);
      DigitValues(text[2 * i]);
      DigitValues(text[2 * i + 1]);
      DigitIsSmall(text[2 * i], h);
      DigitIsSmall(text[2 * i + 1], l);
      PairValue(h, l);
    }
  }

  lemma DigitIsSmall(c: char, d: nat)
    requires IsDigit(c, d)
    ensures d < 16
  {
  }

  /** Whatever text gives the bytes, in upper or lower case, it is read as them. */
  lemma SpelledBytes(text: string, bytes: seq<Byte>, tail: string)
    requires Spells(text, bytes) && |tail| <= 1
    ensures Bytes(text + tail) == bytes
  {
    hide Bytes, IsDigit;
    var whole := text + tail;
    DigitsMakeBytes(whole);
    forall i | 0 <= i < |bytes|
      ensures Bytes(whole)[i] == bytes[i]
    {
      assert DigitsAt(text, i, bytes[i] / 16, bytes[i] % 16);
      assert DigitsAt(whole, i, bytes[i] / 16, bytes[i] % 16);
    }
  }

  lemma BytesUnfolds(text: string)
    ensures Bytes(text) == if |text| < 2 then [] else [FromHexPair(text[0], text[1])] + Bytes(text[2..])
  {
  }

  method FromHex(hex: string) returns (result: seq<Byte>)
    ensures result == Bytes(hex) && ReadsDigits(hex, result)
  {
    hide FromHexPair, ReadsDigits, Bytes;
    DigitsMakeBytes(hex);
    assert hex[0..] == hex;
    var size := |hex| / 2;
    result := [];
    var ptr := 0;
    while |result| < size
      invariant |result| <= size && ptr == 2 * |result|
      invariant Bytes(hex) == result + Bytes(hex[ptr..])
    {
      var byte := FromHexPair(hex[ptr], hex[ptr + 1]);
      assert hex[ptr..][2..] == hex[ptr + 2..];
      BytesUnfolds(hex[ptr..]);
      result := result + [byte];
      ptr := ptr + 2;
    }
    BytesUnfolds(hex[ptr..]);
  }

  function HexDigit(d: nat): (c: char)
    requires d < 16
    ensures c == "0123456789ABCDEF"[d]
  {
    if d < 10 then '0' + d as char else 'A' + (d - 10) as char
  }

  /** `std::format("{:02X}", byte)` */
  function HexPair(b: Byte): string {
    [HexDigit(b / 16), HexDigit(b % 16)]
  }

  function HexText(bytes: seq<Byte>): (text: string)
    ensures |text| == 2 * |bytes|
  {
    if bytes == [] then "" else HexPair(bytes[0]) + HexText(bytes[1..])
  }

  /** Characters 2i and 2i + 1 are the upper-case digits `h` and `l`. */
  predicate UpperDigitsAt(text: string, i: nat, h: nat, l: nat) {
    2 * i + 1 < |text| && h < 16 && l < 16 && text[2 * i] == "0123456789ABCDEF"[h] && text[2 * i + 1] == "0123456789ABCDEF"[l]
  }

  /** Two upper-case digits for each byte. */
  predicate IsUpperText(text: string, bytes: seq<Byte>) {
    |text| == 2 * |bytes| && forall i | 0 <= i < |bytes| :: UpperDigitsAt(text, i, bytes[i] / 16, bytes[i] % 16)
  }

  lemma {:induction false} HexTextDigits(bytes: seq<Byte>)
    ensures IsUpperText(HexText(bytes), bytes)
    ensures Spells(HexText(bytes), bytes)
    decreases |bytes|
  {
    hide Spells;
    if bytes != [] {
      HexTextDigits(bytes[1..]);
      var text := HexText(bytes);
      assert text[2..] == HexText(bytes[1..]);
      forall i | 0 <= i < |bytes|
        ensures UpperDigitsAt(text, i, bytes[i] / 16, bytes[i] % 16)
      {
        if i > 0 {
          assert UpperDigitsAt(text[2..], i - 1, bytes[1..][i - 1] / 16, bytes[1..][i - 1] % 16);
        }
      }
    }
    UpperSpells(HexText(bytes), bytes);
  }

  lemma UpperSpells(text: string, bytes: seq<Byte>)
    requires IsUpperText(text, bytes)
    ensures Spells(text, bytes)
  {
  }

  /** `to_hex` of the record viewer. */
  method ToHex(data: seq<Byte>) returns (result: string)
    ensures result == HexText(data) && IsUpperText(result, data)
  {
    hide IsUpperText, Spells, HexPair;
    HexTextDigits(data);
    result := "";
    var i := 0;
    while i < |data|
      invariant i <= |data|
      invariant HexText(data) == result + HexText(data[i..])
    {
      assert data[i..][1..] == data[i + 1..];
      assert HexText(data[i..]) == HexPair(data[i]) + HexText(data[i + 1..]);
      result := result + HexPair(data[i]);
      i := i + 1;
    }
  }

  lemma PairValue(h: nat, l: nat)
    requires h < 0x100 && l < 16
    ensures Or(Shl(h, 4), l) == 16 * h + l
  {
    hide Bit, Bitwise, Pow2;
    BytePowers();
    BitLaws();
    forall i: nat | 4 <= i
      ensures !Bit(l, i)
    {
      NoHighBits(l, 4, i);
    }
    OrIsSum(Shl(h, 4), l);
  }

  /** Printing bytes and reading them back gives the same bytes, whatever single character follows. */
  lemma HexRoundTrip(bytes: seq<Byte>, tail: string)
    requires |tail| <= 1
    ensures Bytes(HexText(bytes) + tail) == bytes
  {
    hide HexText, Bytes, Spells;
    HexTextDigits(bytes);
    SpelledBytes(HexText(bytes), bytes, tail);
  }

  // ---- checksums ----

  function Sum(bytes: seq<Byte>): nat {
    if bytes == [] then 0 else bytes[0] + Sum(bytes[1..])
  }

  /** The two's complement of the sum, modulo 256. */
  function Checksum(bytes: seq<Byte>): Byte {
    (0x100 - Sum(bytes) % 0x100) % 0x100
  }

  lemma {:induction false} SumConcat(a: seq<Byte>, b: seq<Byte>)
    ensures Sum(a + b) == Sum(a) + Sum(b)
    decreases |a|
  {
    if a == [] {
      assert a + b == b;
    } else {
      assert (a + b)[1..] == a[1..] + b;
      SumConcat(a[1..], b);
    }
  }

  /** What `Sum` adds up. */
  lemma SumAddsUp(bytes: seq<Byte>, b: Byte)
    ensures Sum([]) == 0 && Sum(bytes + [b]) == Sum(bytes) + b
  {
    SumConcat(bytes, [b]);
    SumOfOne(b);
  }

  /** `hex_checksum` on the bytes from `first` up to, not including, `last`. */
  method HexChecksum(bytes: seq<Byte>, last: nat) returns (r: Byte)
    requires last <= |bytes|
    ensures r == Checksum(bytes[..last]) && (Sum(bytes[..last]) + r) % 0x100 == 0
  {
    hide Sum;
    assert Sum([]) == 0 by { SumOfNone(); }
    var sum: Byte := 0;
    var first := 0;
    while first != last
      invariant first <= last
      invariant sum == Sum(bytes[..first]) % 0x100
      decreases last - first
    {
      assert bytes[..first + 1] == bytes[..first] + [bytes[first]];
      SumConcat(bytes[..first], [bytes[first]]);
      SumOfOne(bytes[first]);
      sum := (sum + bytes[first]) % 0x100;
      first := first + 1;
    }
    sum := 0xFF - sum;
    r := (1 + sum) % 0x100;
  }

  // ---- records ----

  /** The bytes reach as far as the count says, so that nothing outside them is read. */
  predicate Complete(bytes: seq<Byte>) {
    |bytes| >= 4 && |bytes| - 4 >= bytes[0]
  }

  function RecordOf(bytes: seq<Byte>): HexRecord
    requires Complete(bytes)
  {
    var last := |bytes| - 1;
    HexRecord(bytes[0], bytes[3], bytes[last], Checksum(bytes[..last]), Or(Shl(bytes[1], 8), bytes[2]), bytes[4..4 + bytes[0]])
  }

  /** The record holds what these bytes say: count, big-endian offset, type, data, and last the checksum. */
  predicate HoldsBytes(record: HexRecord, b: seq<Byte>) {
    && |b| >= 4 && record.count == b[0] && record.offset == 0x100 * b[1] as int + b[2] as int && record.kind == b[3]
    && |b| - 4 >= b[0] && record.data == b[4..4 + b[0]]
    && record.sumExpected == b[|b| - 1] && (Sum(b[..|b| - 1]) + record.sumActual) % 0x100 == 0
  }

  lemma RecordOfHolds(b: seq<Byte>)
    requires Complete(b)
    ensures HoldsBytes(RecordOf(b), b)
  {
    hide Or, Shl, Sum;
    JoinedBytes(0, 0, b[1], b[2]);
  }

  method ParseHexRecord(line: string) returns (record: HexRecord)
    requires Complete(Bytes(line))
    ensures record == RecordOf(Bytes(line)) && HoldsBytes(record, Bytes(line))
  {
    hide Bytes, Checksum, Or, Shl, HoldsBytes, ReadsDigits, Sum;
    RecordOfHolds(Bytes(line));
    var bytes := FromHex(line);
    var sumActual := HexChecksum(bytes, |bytes| - 1);
    var count := bytes[0];
    var data := [];
    var idx := 4;
    while |data| < count
      invariant |data| <= count && idx == 4 + |data|
      invariant data == bytes[4..idx]
    {
      data := data + [bytes[idx]];
      idx := idx + 1;
    }
    record := HexRecord(count, bytes[3], bytes[|bytes| - 1], sumActual, Or(Shl(bytes[1], 8), bytes[2]), data);
  }

  /** A line of exactly count + 5 byte pairs is valid iff all its bytes, checksum included, sum to
      zero modulo 256. */
  lemma ValidIffZeroSum(bytes: seq<Byte>)
    requires |bytes| >= 5 && |bytes| - 5 == bytes[0]
    ensures RecordOf(bytes).IsValid() <==> Sum(bytes) % 0x100 == 0
  {
    hide Or, Shl, Sum;
    var last := |bytes| - 1;
    var body := bytes[..last];
    assert bytes == body + [bytes[last]];
    SumConcat(body, [bytes[last]]);
    assert Sum([bytes[last]]) == bytes[last] by { SumOfOne(bytes[last]); }
    ComplementOfSum(Sum(body), bytes[last]);
  }

  lemma SumOfNone()
    ensures Sum([]) == 0
  {
  }

  lemma SumOfOne(b: Byte)
    ensures Sum([b]) == b
  {
  }

  lemma ComplementOfSum(sum: nat, b: Byte)
    ensures (0x100 - sum % 0x100) % 0x100 == b <==> (sum + b) % 0x100 == 0
  {
  }

  /** The bytes of a record line: count, big-endian offset, type, data, checksum. */
  function RecordBytes(offset: nat, kind: Byte, data: seq<Byte>): seq<Byte>
    requires offset < 0x1_0000 && |data| < 0x100
  {
    var body := [|data|, offset / 0x100, offset % 0x100, kind] + data;
    body + [Checksum(body)]
  }

  function RecordWith(offset: nat, kind: Byte, data: seq<Byte>): HexRecord
    requires offset < 0x1_0000 && |data| < 0x100
  {
    var sum := Checksum([|data|, offset / 0x100, offset % 0x100, kind] + data);
    HexRecord(|data|, kind, sum, sum, offset, data)
  }

  /** Reading the bytes of a record recovers its count, offset, type and data, and it is valid. */
  lemma RecordRoundTrip(offset: nat, kind: Byte, data: seq<Byte>)
    requires offset < 0x1_0000 && |data| < 0x100
    ensures Complete(RecordBytes(offset, kind, data))
    ensures RecordOf(RecordBytes(offset, kind, data)) == RecordWith(offset, kind, data)
    ensures RecordWith(offset, kind, data).IsValid()
  {
    hide Checksum, Or, Shl;
    var body := [|data|, offset / 0x100, offset % 0x100, kind] + data;
    var bytes := RecordBytes(offset, kind, data);
    assert bytes[..|bytes| - 1] == body;
    assert bytes[4..4 + |data|] == data;
    JoinedBytes(0, 0, offset / 0x100, offset % 0x100);
  }

  // ---- files ----

  /** `line.find(':')`, or the length if there is none. */
  function IndexOfColon(line: string): (pos: nat)
    ensures pos <= |line|
    ensures pos < |line| ==> line[pos] == ':'
    ensures ':' !in line[..pos]
  {
    if line == "" then 0
    else if line[0] == ':' then 0
    else
      var pos := 1 + IndexOfColon(line[1..]);
      assert line[..pos] == [line[0]] + line[1..][..pos - 1];
      pos
  }

  const MIN_RECORD_SIZE: nat := 11

  datatype LineResult = Skip | Reject | Record(record: HexRecord)

  /** The length check adds the count once, although each byte takes two characters. */
  function RequiredSize(line: string): nat
    requires |line| >= 3
  {
    MIN_RECORD_SIZE + Or(Shl(FromHexDigit(line[1]), 4), FromHexDigit(line[2]))
  }

  /** Parsing the line stays within its characters. */
  predicate Readable(line: string) {
    var pos := IndexOfColon(line);
    pos == |line| || |line| < MIN_RECORD_SIZE ||
    (|line| - pos >= 3 && (RequiredSize(line[pos..]) > |line| - pos || Complete(Bytes(line[pos + 1..]))))
  }

  function ParseLine(line: string): LineResult
    requires Readable(line)
  {
    var pos := IndexOfColon(line);
    if pos == |line| then Skip
    else if MIN_RECORD_SIZE > |line| then Reject
    else if RequiredSize(line[pos..]) > |line| - pos then Reject
    else Record(RecordOf(Bytes(line[pos + 1..])))
  }

  /** The records of the lines, through the first EOF record; nothing if a line is rejected before it. */
  function ParseLines(lines: seq<string>): Option<seq<HexRecord>>
    requires forall line | line in lines :: Readable(line)
  {
    if lines == [] then Some([])
    else
      match ParseLine(lines[0])
      case Skip => ParseLines(lines[1..])
      case Reject => None
      case Record(r) =>
        if r.IsEof() then Some([r]) else Prepend([r], ParseLines(lines[1..]))
  }

  function Prepend(records: seq<HexRecord>, rest: Option<seq<HexRecord>>): Option<seq<HexRecord>> {
    match rest
    case Some(rs) => Some(records + rs)
    case None => None
  }

  lemma PrependTwice(a: seq<HexRecord>, b: seq<HexRecord>, rest: Option<seq<HexRecord>>)
    ensures Prepend([], rest) == rest
    ensures Prepend(a, Prepend(b, rest)) == Prepend(a + b, rest)
  {
    if rest.Some? {
      assert [] + rest.value == rest.value;
      assert a + (b + rest.value) == a + b + rest.value;
    }
  }

  lemma PrependSome(a: seq<HexRecord>, b: seq<HexRecord>)
    ensures Prepend(a, Some(b)) == Some(a + b)
    ensures Prepend(a, None) == None
  {
  }

  // ---- what parsing means, by the characters of the lines ----

  /** The first colon of the line is at `p`. */
  predicate ColonAt(line: string, p: nat) {
    p < |line| && line[p] == ':' && forall q | 0 <= q < p :: line[q] != ':'
  }

  /** The number that two characters announce: for two digits, 16 times the one plus the other. The
      arithmetic is not cut to a byte, and a character that is no digit counts as 255. */
  function AnnouncedCount(hi: char, lo: char): nat {
    var (h, l) := (FromHexDigit(hi), FromHexDigit(lo));
    if l < 16 then 16 * h as int + l as int
    else if h < 16 then 0xFF
    else 0xFFF
  }

  lemma CountIsAnnounced(hi: char, lo: char)
    ensures Or(Shl(FromHexDigit(hi), 4), FromHexDigit(lo)) == AnnouncedCount(hi, lo)
  {
    hide Or, Shl, FromHexDigit;
    DigitValues(hi);
    DigitValues(lo);
    var (h, l) := (FromHexDigit(hi), FromHexDigit(lo));
    if l < 16 {
      PairValue(h, l);
    } else if h < 16 {
      AllOnes(h);
    } else {
      AllOnesTwice();
    }
  }

  lemma AllOnes(h: nat)
    requires h < 16
    ensures Or(Shl(h, 4), 0xFF) == 0xFF
  {
    hide Bit, Bitwise, Pow2;
    BytePowers();
    BitLaws();
    var x: Byte := 16 * h;
    assert Shl(h, 4) == x;
    ByteBits(x);
    forall i: nat | i < 32
      ensures Bit(Or(x, 0xFF), i) == Bit(0xFF, i)
    {
      OnesBit(8, i);
    }
    SameWord(Or(x, 0xFF), 0xFF);
  }

  lemma AllOnesTwice()
    ensures Or(Shl(0xFF, 4), 0xFF) == 0xFFF
  {
    hide Bit, Bitwise, Pow2;
    BytePowers();
    Pow2Add(8, 4);
    BitLaws();
    forall i: nat | i < 32
      ensures Bit(Or(Shl(0xFF, 4), 0xFF), i) == Bit(0xFFF, i)
    {
      OnesBit(8, i);
      OnesBit(12, i);
      if i >= 4 {
        OnesBit(8, i - 4);
      }
    }
    SameWord(Or(Shl(0xFF, 4), 0xFF), 0xFFF);
  }

  /** The line has a colon, but it or what follows from its colon on is too short for a record. */
  ghost predicate TooShort(line: string) {
    exists p: nat :: ColonAt(line, p) &&
      (|line| < 11 || |line| - p < 3 || |line| - p < 11 + AnnouncedCount(line[p + 1], line[p + 2]))
  }

  /** The line has a colon, and the type digits after it are those of an EOF record. */
  ghost predicate EofLine(line: string) {
    exists p: nat :: ColonAt(line, p) && p + 8 < |line| && line[p + 7] == '0' && line[p + 8] == '1'
  }

  /** The bytes of a text from position `start` on, two characters each. */
  function PairsFrom(line: string, start: nat): seq<Byte>
    requires start <= |line|
  {
    seq((|line| - start) / 2, i requires 0 <= i < (|line| - start) / 2 => FromHexPair(line[start + 2 * i], line[start + 2 * i + 1]))
  }

  /** The record holds what the line says after its first colon. */
  ghost predicate IsRecordOf(record: HexRecord, line: string) {
    exists p: nat :: ColonAt(line, p) && HoldsBytes(record, PairsFrom(line, p + 1))
  }

  /** Line `j` is rejected: it is too short, and no line before it ends the file. */
  ghost predicate RejectedAt(lines: seq<string>, j: nat) {
    j < |lines| && TooShort(lines[j]) && forall i | 0 <= i < j :: !EofLine(lines[i])
  }

  /** The lines that have a colon, in order. */
  function ColonLines(lines: seq<string>): seq<string> {
    if lines == [] then []
    else (if ':' in lines[0] then [lines[0]] else []) + ColonLines(lines[1..])
  }

  /** One record for each of these lines, in order, through the first EOF. */
  ghost predicate AreRecordsOf(records: seq<HexRecord>, lines: seq<string>) {
    && |records| <= |lines|
    && (forall j | 0 <= j < |records| :: IsRecordOf(records[j], lines[j]))
    && (forall j | 0 <= j < |records| - 1 :: !EofLine(lines[j]))
    && (|records| < |lines| ==> records != [] && EofLine(lines[|records| - 1]))
  }

  /** Parsing fails iff some line is too short and no line before it is an EOF record; else it gives
      one record for each line with a colon, through the first EOF. */
  ghost predicate ParsesTo(lines: seq<string>, result: Option<seq<HexRecord>>) {
    && (result.None? <==> exists j: nat :: RejectedAt(lines, j))
    && (result.Some? ==> AreRecordsOf(result.value, ColonLines(lines)))
  }

  lemma ColonIndex(line: string)
    ensures forall p: nat :: ColonAt(line, p) <==> p == IndexOfColon(line) && p < |line|
    ensures ':' in line <==> IndexOfColon(line) < |line|
  {
    hide IndexOfColon;
    var pos := IndexOfColon(line);
    forall q | 0 <= q < pos
      ensures line[q] != ':'
    {
      InPrefix(line, q, pos);
    }
  }

  lemma PairsAreBytes(line: string, start: nat)
    requires start <= |line|
    ensures PairsFrom(line, start) == Bytes(line[start..])
  {
    hide FromHexPair, Bytes;
    var text := line[start..];
    forall i | 0 <= i < |text| / 2
      ensures PairsFrom(line, start)[i] == Bytes(text)[i]
    {
      BytesAt(text, i);
    }
  }

  lemma PairOfOne(hi: char, lo: char)
    ensures FromHexPair(hi, lo) == 1 <==> hi == '0' && lo == '1'
  {
    hide Or, Shl;
    CountIsAnnounced(hi, lo);
    DigitValues(hi);
    DigitValues(lo);
  }

  /** Each line is skipped iff it has no colon, rejected iff it is too short, and else gives its record. */
  lemma LineMeaning(line: string)
    requires Readable(line)
    ensures ParseLine(line).Skip? <==> ':' !in line
    ensures ParseLine(line).Reject? <==> TooShort(line)
    ensures ParseLine(line).Record? ==>
              IsRecordOf(ParseLine(line).record, line) && (ParseLine(line).record.IsEof() <==> EofLine(line))
  {
    hide IndexOfColon, AnnouncedCount, FromHexDigit, Or, Shl, Bytes, Checksum, HoldsBytes, FromHexPair;
    ColonIndex(line);
    var p := IndexOfColon(line);
    assert p < |line| ==> ColonAt(line, p);
    if p < |line| && |line| >= 11 {
      CountIsAnnounced(line[p + 1], line[p + 2]);
      assert line[p..][1] == line[p + 1] && line[p..][2] == line[p + 2];
      if ParseLine(line).Record? {
        PairsAreBytes(line, p + 1);
        RecordOfHolds(Bytes(line[p + 1..]));
        assert PairsFrom(line, p + 1)[3] == FromHexPair(line[p + 7], line[p + 8]);
        PairOfOne(line[p + 7], line[p + 8]);
      }
    }
  }

  lemma NoColonNoRecord(line: string)
    requires ':' !in line
    ensures !TooShort(line) && !EofLine(line)
  {
  }

  lemma RejectedLater(lines: seq<string>)
    requires lines != [] && !TooShort(lines[0]) && !EofLine(lines[0])
    ensures (exists j: nat :: RejectedAt(lines, j)) <==> exists j: nat :: RejectedAt(lines[1..], j)
  {
    hide TooShort, EofLine;
    var rest := lines[1..];
    if j: nat :| RejectedAt(lines, j) {
      assert RejectedAt(rest, j - 1);
    }
    if j: nat :| RejectedAt(rest, j) {
      forall i | 0 <= i < j + 1
        ensures !EofLine(lines[i])
      {
        if i > 0 {
          assert lines[i] == rest[i - 1];
        }
      }
      assert RejectedAt(lines, j + 1);
    }
  }

  lemma RecordsAndMore(r: HexRecord, line: string, records: seq<HexRecord>, lines: seq<string>)
    requires IsRecordOf(r, line) && !EofLine(line) && AreRecordsOf(records, lines)
    ensures AreRecordsOf([r] + records, [line] + lines)
  {
    hide IsRecordOf, EofLine;
  }

  /** That is what the parser's lines, taken one by one, come to. */
  lemma {:induction false} ParsingMeaning(lines: seq<string>)
    requires forall line | line in lines :: Readable(line)
    ensures ParsesTo(lines, ParseLines(lines))
    decreases |lines|
  {
    hide Readable, ParseLine, TooShort, EofLine, IsRecordOf, AreRecordsOf, RejectedAt, HexRecord.IsEof;
    if lines == [] {
      NoLines();
    } else {
      var line := lines[0];
      assert line in lines;
      LineMeaning(line);
      ParsingMeaning(lines[1..]);
      match ParseLine(line)
      case Skip =>
        NoColonNoRecord(line);
        RejectedLater(lines);
        assert ColonLines(lines) == ColonLines(lines[1..]);
      case Reject => RejectedFirst(lines);
      case Record(r) =>
        if r.IsEof() {
          EndsFirst(r, lines);
        } else {
          RejectedLater(lines);
          if ParseLines(lines[1..]).Some? {
            RecordsAndMore(r, line, ParseLines(lines[1..]).value, ColonLines(lines[1..]));
          }
        }
    }
  }

  lemma NoLines()
    ensures AreRecordsOf([], []) && !exists j: nat :: RejectedAt([], j)
  {
  }

  lemma RejectedFirst(lines: seq<string>)
    requires lines != [] && TooShort(lines[0])
    ensures RejectedAt(lines, 0)
  {
  }

  lemma EndsFirst(r: HexRecord, lines: seq<string>)
    requires lines != [] && ':' in lines[0] && IsRecordOf(r, lines[0]) && !TooShort(lines[0]) && EofLine(lines[0])
    ensures AreRecordsOf([r], ColonLines(lines)) && !exists j: nat :: RejectedAt(lines, j)
  {
    hide TooShort, EofLine, IsRecordOf;
  }

  method ParseHex(lines: seq<string>) returns (result: Option<seq<HexRecord>>)
    requires forall line | line in lines :: Readable(line)
    ensures result == ParseLines(lines)
    ensures ParsesTo(lines, result)
  {
    hide ParsesTo, HoldsBytes, Or, Shl, FromHexDigit, Complete, RecordOf, Prepend, Bytes, HexRecord.IsEof;
    ParsingMeaning(lines);
    var records := [];
    var next := 0;
    assert lines[0..] == lines;
    PrependTwice([], [], ParseLines(lines));
    while next < |lines|
      invariant next <= |lines|
      invariant ParseLines(lines) == Prepend(records, ParseLines(lines[next..]))
    {
      PrependSome(records, []);
      var tmp := lines[next];
      assert lines[next..][0] == tmp && lines[next..][1..] == lines[next + 1..];
      assert tmp in lines && Readable(tmp);
      next := next + 1;
      var line := tmp;
      var recordSize := MIN_RECORD_SIZE;
      var pos := IndexOfColon(line);
      if pos >= |line| {
        continue;
      }
      if recordSize > |line| {
        return None;
      }
      line := line[pos..];
      recordSize := recordSize + Or(Shl(FromHexDigit(line[1]), 4), FromHexDigit(line[2]));
      if recordSize > |line| {
        return None;
      }
      assert line[1..] == tmp[pos + 1..];
      var record := ParseHexRecord(line[1..]);
      PrependTwice(records, [record], ParseLines(lines[next..]));
      PrependSome(records, [record]);
      records := records + [record];
      if record.IsEof() {
        return Some(records);
      }
    }
    PrependSome(records, []);
    assert records + [] == records;
    return Some(records);
  }

  /** A line of a well-formed file: text without a colon, or a record after such text, in digits of either
      case, and with at most one further character, such as a carriage return. */
  datatype Item =
    | Comment(text: string)
    | Entry(prefix: string, offset: nat, kind: Byte, data: seq<Byte>, digits: string, tail: string)

  predicate WellFormedItem(item: Item) {
    match item
    case Comment(text) => ':' !in text
    case Entry(prefix, offset, kind, data, digits, tail) =>
      && ':' !in prefix && offset < 0x1_0000 && |data| < 0x100 && |tail| <= 1
      && Spells(digits, RecordBytes(offset, kind, data))
  }

  function Line(item: Item): string
    requires WellFormedItem(item)
  {
    match item
    case Comment(text) => text
    case Entry(prefix, offset, kind, data, digits, tail) => prefix + ":" + digits + tail
  }

  lemma {:induction false} FirstColon(prefix: string, rest: string)
    requires ':' !in prefix && (rest == "" || rest[0] == ':')
    ensures IndexOfColon(prefix + rest) == |prefix|
  {
    var line := prefix + rest;
    var pos := IndexOfColon(line);
    if pos > |prefix| {
      InPrefix(line, |prefix|, pos);
      assert false;
    }
  }

  lemma InPrefix(line: string, i: nat, pos: nat)
    requires i < pos <= |line|
    ensures line[i] in line[..pos]
  {
    assert line[..pos][i] == line[i];
  }

  lemma LineParses(item: Item)
    requires WellFormedItem(item)
    ensures Readable(Line(item))
    ensures ParseLine(Line(item)) ==
            match item
            case Comment(_) => Skip
            case Entry(_, offset, kind, data, _, _) => Record(RecordWith(offset, kind, data))
  {
    hide FromHexPair, HexDigit, RecordOf, RecordBytes, Spells, Or, Shl;
    match item
    case Comment(text) =>
      FirstColon(text, "");
      assert text + "" == text;
    case Entry(prefix, offset, kind, data, digits, tail) => EntryParses(prefix, offset, kind, data, digits, tail);
  }

  /** The text of a record, in digits of either case, parses to that record. */
  lemma EntryParses(prefix: string, offset: nat, kind: Byte, data: seq<Byte>, digits: string, tail: string)
    requires ':' !in prefix && offset < 0x1_0000 && |data| < 0x100 && |tail| <= 1
    requires Spells(digits, RecordBytes(offset, kind, data))
    ensures var line := prefix + ":" + digits + tail;
            Readable(line) && ParseLine(line) == Record(RecordWith(offset, kind, data))
  {
    hide RecordOf, FromHexPair, FromHexDigit, Checksum, DigitsAt, Bytes, Or, Shl, RequiredSize, Complete;
    var bytes := RecordBytes(offset, kind, data);
    assert |bytes| == |data| + 5 && bytes[0] == |data| && |digits| == 2 * |bytes|;
    hide Spells, RecordBytes, RecordWith;
    var text := digits + tail;
    var line := prefix + ":" + digits + tail;
    assert line == prefix + (":" + text);
    FirstColon(prefix, ":" + text);
    assert line[|prefix|..] == ":" + text && line[|prefix| + 1..] == text;
    SpelledBytes(digits, bytes, tail);
    RecordRoundTrip(offset, kind, data);
    SizeIsEnough(digits, bytes, tail);
    assert ":" + digits + tail == ":" + text;
  }

  lemma SizeIsEnough(digits: string, bytes: seq<Byte>, tail: string)
    requires |bytes| >= 5 && |bytes| - 5 == bytes[0] && Spells(digits, bytes)
    ensures RequiredSize(":" + digits + tail) == 6 + |bytes| <= |":" + digits + tail|
  {
    hide IsDigit, FromHexDigit, Or, Shl;
    var line := ":" + digits + tail;
    assert DigitsAt(digits, 0, bytes[0] / 16, bytes[0] % 16);
    assert line[1] == digits[0] && line[2] == digits[1];
    DigitValues(line[1]);
    DigitValues(line[2]);
    PairValue(bytes[0] / 16, bytes[0] % 16);
  }

  function Lines(items: seq<Item>): seq<string>
    requires forall item | item in items :: WellFormedItem(item)
  {
    seq(|items|, i requires 0 <= i < |items| => Line(items[i]))
  }

  /** The records of a file's items, through the first EOF record. */
  function Expected(items: seq<Item>): seq<HexRecord>
    requires forall item | item in items :: WellFormedItem(item)
  {
    if items == [] then []
    else
      assert WellFormedItem(items[0]) by { assert items[0] in items; }
      var rest := Expected(items[1..]);
      match items[0]
      case Comment(_) => rest
      case Entry(_, offset, kind, data, _, _) => [RecordWith(offset, kind, data)] + if kind == 1 then [] else rest
  }

  /** Parsing a well-formed file returns its records in order, up to and including the first EOF. */
  lemma {:induction false} ParseRecoversRecords(items: seq<Item>)
    requires forall item | item in items :: WellFormedItem(item)
    ensures forall line | line in Lines(items) :: Readable(line)
    ensures ParseLines(Lines(items)) == Some(Expected(items))
    decreases |items|
  {
    hide Readable, ParseLine, Line, RecordWith;
    forall line | line in Lines(items)
      ensures Readable(line)
    {
      var i :| 0 <= i < |items| && Lines(items)[i] == line;
      LineParses(items[i]);
    }
    if items != [] {
      LineParses(items[0]);
      assert Lines(items)[1..] == Lines(items[1..]);
      ParseRecoversRecords(items[1..]);
      if items[0].Entry? {
        EofKind(items[0]);
        var r := RecordWith(items[0].offset, items[0].kind, items[0].data);
        assert [r] + [] == [r];
      }
    }
  }

  lemma EofKind(item: Item)
    requires item.Entry? && WellFormedItem(item)
    ensures RecordWith(item.offset, item.kind, item.data).IsEof() <==> item.kind == 1
  {
  }

  /** Only the last record is an EOF record. */
  ghost predicate EofOnlyLast(rs: seq<HexRecord>) {
    forall i | 0 <= i < |rs| - 1 :: !rs[i].IsEof()
  }

  /** In a parsed file only the last record can be an EOF record. */
  lemma {:induction false} EofIsLast(lines: seq<string>)
    requires forall line | line in lines :: Readable(line)
    ensures ParseLines(lines).Some? ==> EofOnlyLast(ParseLines(lines).value)
    decreases |lines|
  {
    hide Readable, ParseLine;
    if lines != [] {
      EofIsLast(lines[1..]);
      if ParseLines(lines).Some? && ParseLine(lines[0]).Record? && !ParseLine(lines[0]).record.IsEof() {
        var r, rest := ParseLine(lines[0]).record, ParseLines(lines[1..]).value;
        assert ParseLines(lines).value == [r] + rest;
        PrependNonEof(r, rest);
      }
    }
  }

  lemma PrependNonEof(r: HexRecord, rest: seq<HexRecord>)
    requires EofOnlyLast(rest) && !r.IsEof()
    ensures EofOnlyLast([r] + rest)
  {
    var rs := [r] + rest;
    forall i | 0 <= i < |rs| - 1
      ensures !rs[i].IsEof()
    {
      if i > 0 {
        assert rs[i] == rest[i - 1];
      }
    }
  }
}
