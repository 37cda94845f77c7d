/** Block-structured memory: byte blocks in a map ordered by start address, looked up by range.
    Its meaning is one flat map from addresses to bytes. */
module Memory {
  import opened Words
  import opened Wrappers

  /** The largest block on which the range test of a four-byte access is right everywhere. */
  const LARGEST_BLOCK: int := 0xFFFF_FFFC

  /** `memory_block::params`, on 32-bit unsigned arithmetic. */
  datatype Params = Params(start: Word, size: Word) {
    predicate InRangeAt(address: Word) {
      address >= start && address - start < size
    }

    predicate InRange(address: Word, n: Word) {
      InRangeAt(address) && ToWord(address - start + n) <= size
    }

    predicate IsOverlap(address: Word, n: Word) {
      if address < start then ToWord(address + n) >= start else InRangeAt(address)
    }

    /** The block contains all of [address, address + n). */
    predicate Covers(address: int, n: int) {
      start <= address && address + n <= start + size
    }

    /** The block and [address, address + n) share an address, or the range ends where the block begins. */
    predicate Touches(address: int, n: int) {
      address < start + size && start <= address + n
    }
  }

  /** `in_range` is containment exactly when its offset sum does not wrap. */
  lemma InRangeExact(p: Params, address: Word, n: Word)
    requires n >= 1
    ensures p.InRange(address, n) == p.Covers(address, n) <==>
            !(p.InRangeAt(address) && address - p.start + n >= TWO32)
  {
    if p.InRangeAt(address) && address - p.start + n >= TWO32 {
      DivModUnique(address - p.start + n, TWO32, 1, address - p.start + n - TWO32);
    }
  }

  /** Accesses of `n` bytes are tested right at every address exactly when the block leaves room for them. */
  lemma RangeTestLimit(p: Params, n: Word)
    requires n >= 1 && p.start + p.size <= TWO32
    ensures (forall address: Word :: p.InRange(address, n) == p.Covers(address, n)) <==> p.size + n <= TWO32
  {
    forall address: Word
      ensures p.InRange(address, n) == p.Covers(address, n) <==> !(p.InRangeAt(address) && address - p.start + n >= TWO32)
    {
      InRangeExact(p, address, n);
    }
    if p.size + n > TWO32 {
      var last: Word := p.start + p.size - 1;
      assert p.InRangeAt(last) && last - p.start + n >= TWO32;
      assert p.InRange(last, n) != p.Covers(last, n);
    }
  }

  /** `is_overlap` is overlap-or-touch exactly when the end of the range below the block does not wrap. */
  lemma IsOverlapExact(p: Params, address: Word, n: Word)
    requires n >= 1 && p.size >= 1
    ensures p.IsOverlap(address, n) == p.Touches(address, n) <==>
            !(address < p.start && address + n >= TWO32)
  {
    if address + n >= TWO32 {
      DivModUnique(address + n, TWO32, 1, address + n - TWO32);
    }
  }

  /** Where the arithmetic wraps: a block of 2^32 - 1 bytes claims to hold a word that ends outside
      it, and a block across the end of the address space overlaps another one unnoticed. */
  lemma WrappedExamples()
    ensures var p := Params(0, 0xFFFF_FFFF); p.InRange(0xFFFF_FFFC, 4) && !p.Covers(0xFFFF_FFFC, 4)
    ensures var m: Blocks := map[0x8000 := [0]];
            AddBlock(m, 0x1000, Zeros(0xFFFF_F000)).0 && Params(0x8000, 1).Covers(0x8000, 1) && Params(0x1000, 0xFFFF_F000).Covers(0x8000, 1)
  {
    var m: Blocks := map[0x8000 := [0]];
    assert forall k | k in m :: k == 0x8000;
    assert ToWord(0x1000 + 0xFFFF_F000) == 0;
  }

  // ---- the blocks of a memory management unit ----

  /** Start address to bytes; the map's keys compare by start address only. */
  type Blocks = map<Word, seq<Byte>>

  function ParamsOf(m: Blocks, k: Word): Params
    requires k in m && |m[k]| < TWO32
  {
    Params(k, |m[k]|)
  }

  predicate Sized(m: Blocks) {
    forall k | k in m :: 0 < |m[k]| < TWO32
  }

  predicate Disjoint(m: Blocks) {
    forall j, k | j in m && k in m && j < k :: j + |m[j]| <= k
  }

  predicate WellFormed(m: Blocks) {
    Sized(m) && Disjoint(m)
  }

  /** Every block lies in the address space and leaves room for a four-byte access. */
  predicate Roomy(m: Blocks) {
    forall k | k in m :: k + |m[k]| <= TWO32 && |m[k]| <= LARGEST_BLOCK
  }

  function Zeros(n: Word): (z: seq<Byte>)
    ensures |z| == n && forall i | 0 <= i < n :: z[i] == 0
  {
    seq(n, i => 0)
  }

  /** `add_block`: refuses an empty block, a block that overlaps, and a key that is present. */
  function AddBlock(m: Blocks, start: Word, data: seq<Byte>): (r: (bool, Blocks))
    requires Sized(m) && |data| < TWO32
    ensures !r.0 ==> r.1 == m
  {
    if |data| == 0 then (false, m)
    else if exists k | k in m :: ParamsOf(m, k).IsOverlap(start, |data|) then (false, m)
    else if start in m then (false, m)
    else (true, m[start := data])
  }

  ghost predicate Admissible(m: Blocks, start: Word, n: nat)
    requires Sized(m)
  {
    n > 0 && forall k | k in m :: !ParamsOf(m, k).Touches(start, n)
  }

  /** The overlap test against every block is right: the range does not wrap, or no block above can be
      missed by that, or the range starts in a block and is refused anyway. */
  ghost predicate EndsSafely(m: Blocks, start: Word, n: nat)
    requires Sized(m)
  {
    || n == 0 || start + n < TWO32
    || (forall k | k in m :: k <= start)
    || (exists k | k in m :: ParamsOf(m, k).InRangeAt(start))
  }

  /** Memory after a zeroed block of `n` bytes was added, if it may be. */
  ghost function WithBlock(m: Blocks, start: Word, n: Word): (r: Blocks)
    requires Sized(m)
    ensures Sized(r)
  {
    if Admissible(m, start, n) then m[start := Zeros(n)] else m
  }

  /** The block may be added to the memory of a machine, or is refused. */
  ghost predicate Placeable(m: Blocks, start: Word, n: nat)
    requires Sized(m)
  {
    EndsSafely(m, start, n) && (Admissible(m, start, n) ==> n <= LARGEST_BLOCK && start + n <= TWO32)
  }

  /** A block is accepted iff it is non-empty, disjoint from every present block and does not end
      where one begins - unless it wraps past a block above it, and then it never is refused for it. */
  lemma AdmissionExact(m: Blocks, start: Word, data: seq<Byte>)
    requires WellFormed(m) && |data| < TWO32
    ensures AddBlock(m, start, data).0 == Admissible(m, start, |data|) <==> EndsSafely(m, start, |data|)
  {
    var n := |data|;
    if n > 0 {
      forall k | k in m
        ensures ParamsOf(m, k).IsOverlap(start, n) == ParamsOf(m, k).Touches(start, n) <==> !(start < k && start + n >= TWO32)
      {
        IsOverlapExact(ParamsOf(m, k), start, n);
      }
      if start in m {
        assert ParamsOf(m, start).InRangeAt(start) && ParamsOf(m, start).IsOverlap(start, n);
      }
      if exists k | k in m :: ParamsOf(m, k).InRangeAt(start) {
        var k :| k in m && ParamsOf(m, k).InRangeAt(start);
        assert ParamsOf(m, k).IsOverlap(start, n) && ParamsOf(m, k).Touches(start, n);
      } else if start + n >= TWO32 {
        if k :| k in m && start < k {
          assert ParamsOf(m, k).Touches(start, n);
          DivModUnique(start + n, TWO32, 1, start + n - TWO32);
          assert forall j | j in m :: !ParamsOf(m, j).IsOverlap(start, n);
        }
      }
    }
  }

  lemma AddToNone(start: Word, data: seq<Byte>)
    requires 0 < |data| < TWO32
    ensures AddBlock(map[], start, data) == (true, map[start := data])
  {
  }

  /** A placeable block that is admitted keeps every block within the limits. */
  lemma PlacedIsRoomy(m: Blocks, start: Word, n: Word)
    requires WellFormed(m) && Roomy(m) && Placeable(m, start, n)
    ensures EndsSafely(m, start, n)
    ensures Admissible(m, start, n) ==> start !in m && start + n <= TWO32
    ensures Admissible(m, start, n) ==> Roomy(m[start := Zeros(n)]) && WellFormed(m[start := Zeros(n)])
  {
    hide EndsSafely, Disjoint;
    assert start in m ==> ParamsOf(m, start).Touches(start, n);
    if Admissible(m, start, n) {
      AdmissionExact(m, start, Zeros(n));
      AddKeepsWellFormed(m, start, Zeros(n));
    }
  }

  /** A block right above another one is accepted. */
  lemma AdjacentAbove(start: Word, low: seq<Byte>, high: seq<Byte>)
    requires low != [] && high != [] && start + |low| + |high| < TWO32
    ensures AddBlock(map[start := low], start + |low|, high) == (true, map[start := low, start + |low| := high])
  {
    hide AddBlock, WellFormed;
    var one: Blocks := map[start := low];
    assert WellFormed(one) by { OneBlock(start, low); }
    assert forall k | k in one :: !ParamsOf(one, k).IsOverlap(start + |low|, |high|);
    Accepted(one, start + |low|, high);
    assert one[start + |low| := high] == map[start := low, start + |low| := high];
  }

  /** A block right below another one is refused. */
  lemma AdjacentBelow(start: Word, low: seq<Byte>, high: seq<Byte>)
    requires low != [] && high != [] && start + |low| + |high| < TWO32
    ensures AddBlock(map[start + |low| := high], start, low) == (false, map[start + |low| := high])
  {
    hide AddBlock, WellFormed;
    var middle: Word := start + |low|;
    var other: Blocks := map[middle := high];
    assert WellFormed(other) by { OneBlock(middle, high); }
    assert ParamsOf(other, middle).IsOverlap(start, |low|);
    Refused(other, start, low);
  }

  lemma OneBlock(start: Word, data: seq<Byte>)
    requires 0 < |data| < TWO32
    ensures WellFormed(map[start := data])
  {
  }

  /** Two adjacent blocks can be added from below up, but never from above down. */
  lemma AdjacentBlocks(start: Word, low: seq<Byte>, high: seq<Byte>)
    requires low != [] && high != [] && start + |low| + |high| < TWO32
    ensures AddBlock(AddBlock(map[], start, low).1, start + |low|, high) == (true, map[start := low, start + |low| := high])
    ensures AddBlock(AddBlock(map[], start + |low|, high).1, start, low).0 == false
  {
    hide AddBlock;
    AddToNone(start, low);
    AddToNone(start + |low|, high);
    AdjacentAbove(start, low, high);
    AdjacentBelow(start, low, high);
  }

  /** A present key overlaps, so `try_emplace` never fails once the overlap loop has passed. */
  lemma TryEmplaceSucceeds(m: Blocks, start: Word, data: seq<Byte>)
    requires Sized(m) && 0 < |data| < TWO32
    ensures start in m ==> exists k | k in m :: ParamsOf(m, k).IsOverlap(start, |data|)
  {
    if start in m {
      assert ParamsOf(m, start).IsOverlap(start, |data|);
    }
  }

  /** The memory after a sequence of `add_block` calls on blocks given by start and contents. */
  function AddBlocks(m: Blocks, requests: seq<(Word, seq<Byte>)>): (r: Blocks)
    requires Sized(m) && forall q | q in requests :: |q.1| < TWO32
    ensures Sized(r)
    decreases |requests|
  {
    if requests == [] then m
    else AddBlocks(AddBlock(m, requests[0].0, requests[0].1).1, requests[1..])
  }

  lemma AddKeepsWellFormed(m: Blocks, start: Word, data: seq<Byte>)
    requires WellFormed(m) && |data| < TWO32 && EndsSafely(m, start, |data|)
    ensures WellFormed(AddBlock(m, start, data).1)
    ensures forall k | k in m :: k in AddBlock(m, start, data).1 && AddBlock(m, start, data).1[k] == m[k]
  {
    var m' := AddBlock(m, start, data).1;
    AdmissionExact(m, start, data);
    forall j, k | j in m' && k in m' && j < k
      ensures j + |m'[j]| <= k
    {
      if AddBlock(m, start, data).0 && (j == start || k == start) {
        var other := if j == start then k else j;
        assert !ParamsOf(m, other).Touches(start, |data|);
      }
    }
  }

  /** Each block ends safely in the memory that it is added to. */
  ghost predicate AllEndSafely(m: Blocks, requests: seq<(Word, seq<Byte>)>)
    requires Sized(m) && forall q | q in requests :: |q.1| < TWO32
    decreases |requests|
  {
    requests == [] ||
    (EndsSafely(m, requests[0].0, |requests[0].1|) && AllEndSafely(AddBlock(m, requests[0].0, requests[0].1).1, requests[1..]))
  }

  /** Blocks that end below the end of the address space always do. */
  lemma {:induction false} BelowTheTopIsSafe(m: Blocks, requests: seq<(Word, seq<Byte>)>)
    requires Sized(m) && forall q | q in requests :: q.0 + |q.1| < TWO32
    ensures AllEndSafely(m, requests)
    decreases |requests|
  {
    hide AddBlock;
    if requests != [] {
      assert requests[0] in requests;
      AddKeepsSized(m, requests[0].0, requests[0].1);
      BelowTheTopIsSafe(AddBlock(m, requests[0].0, requests[0].1).1, requests[1..]);
    }
  }

  lemma AddKeepsSized(m: Blocks, start: Word, data: seq<Byte>)
    requires Sized(m) && |data| < TWO32
    ensures Sized(AddBlock(m, start, data).1)
  {
  }

  /** However blocks are added, all blocks stay non-empty and pairwise disjoint, and every block
      that was present stays, unchanged. */
  lemma {:induction false} AddBlocksWellFormed(m: Blocks, requests: seq<(Word, seq<Byte>)>)
    requires WellFormed(m) && (forall q | q in requests :: |q.1| < TWO32) && AllEndSafely(m, requests)
    ensures WellFormed(AddBlocks(m, requests))
    ensures forall k | k in m :: k in AddBlocks(m, requests) && AddBlocks(m, requests)[k] == m[k]
    decreases |requests|
  {
    if requests != [] {
      hide AddBlock, WellFormed;
      var (start, data) := requests[0];
      assert requests[0] in requests;
      AddKeepsWellFormed(m, start, data);
      AddBlocksWellFormed(AddBlock(m, start, data).1, requests[1..]);
    }
  }

  lemma Refused(m: Blocks, start: Word, data: seq<Byte>)
    requires WellFormed(m) && |data| < TWO32
    requires |data| == 0 || exists k | k in m :: ParamsOf(m, k).IsOverlap(start, |data|)
    ensures AddBlock(m, start, data) == (false, m)
    ensures EndsSafely(m, start, |data|) ==> !Admissible(m, start, |data|)
  {
    AdmissionExact(m, start, data);
  }

  lemma Accepted(m: Blocks, start: Word, data: seq<Byte>)
    requires WellFormed(m) && 0 < |data| < TWO32
    requires !exists k | k in m :: ParamsOf(m, k).IsOverlap(start, |data|)
    ensures start !in m && AddBlock(m, start, data) == (true, m[start := data])
    ensures EndsSafely(m, start, |data|) ==> Admissible(m, start, |data|) && WellFormed(m[start := data])
  {
    AdmissionExact(m, start, data);
    TryEmplaceSucceeds(m, start, data);
    if EndsSafely(m, start, |data|) {
      AddKeepsWellFormed(m, start, data);
    }
  }

  // ---- lookup ----

  ghost predicate Hit(m: Blocks, k: Word, address: Word, n: Word)
    requires Sized(m)
  {
    k in m && ParamsOf(m, k).InRange(address, n)
  }

  /** `find_block`: the start of a block that answers the range. */
  ghost function FindBlock(m: Blocks, address: Word, n: Word): (r: Option<Word>)
    requires Sized(m)
    ensures r.Some? ==> Hit(m, r.value, address, n)
    ensures r.None? ==> forall k :: !Hit(m, k, address, n)
  {
    if k :| Hit(m, k, address, n) then Some(k) else None
  }

  ghost predicate NoWrap(m: Blocks, address: Word, n: Word)
    requires Sized(m)
  {
    forall k | k in m && ParamsOf(m, k).InRangeAt(address) :: address - k + n < TWO32
  }

  /** At most one block answers: whatever order the blocks are visited in, the result is the same. */
  lemma HitIsUnique(m: Blocks, j: Word, k: Word, address: Word, n: Word)
    requires WellFormed(m) && Hit(m, j, address, n) && Hit(m, k, address, n)
    ensures j == k
  {
  }

  /** The lookup gives exactly the one block that contains the whole range, or nothing if none does. */
  ghost predicate FindsContaining(m: Blocks, address: Word, n: Word)
    requires Sized(m)
  {
    forall k: Word :: FindBlock(m, address, n) == Some(k) <==> (k in m && ParamsOf(m, k).Covers(address, n))
  }

  lemma {:induction false} HitsContain(m: Blocks, address: Word, n: Word)
    requires WellFormed(m) && n >= 1 && NoWrap(m, address, n)
    ensures forall k: Word :: Hit(m, k, address, n) <==> (k in m && ParamsOf(m, k).Covers(address, n))
    ensures FindsContaining(m, address, n)
  {
    forall k: Word
      ensures Hit(m, k, address, n) <==> (k in m && ParamsOf(m, k).Covers(address, n))
    {
      if k in m {
        InRangeExact(ParamsOf(m, k), address, n);
        if ParamsOf(m, k).InRangeAt(address) {
          assert address - k + n < TWO32;
        }
      }
    }
    forall j: Word, k: Word | Hit(m, j, address, n) && Hit(m, k, address, n)
      ensures j == k
    {
      HitIsUnique(m, j, k, address, n);
    }
  }

  /** A lookup is right iff no range test wraps around; then it finds nothing only if no single block
      contains the whole range. */
  lemma FindBlockExact(m: Blocks, address: Word, n: Word)
    requires WellFormed(m) && n >= 1
    ensures FindsContaining(m, address, n) <==> NoWrap(m, address, n)
    ensures NoWrap(m, address, n) ==>
              forall k: Word :: FindBlock(m, address, n) == Some(k) <==> (k in m && k <= address && address + n <= k + |m[k]|)
    ensures NoWrap(m, address, n) ==>
              (FindBlock(m, address, n) == None <==> !exists k: Word :: k in m && k <= address && address + n <= k + |m[k]|)
  {
    if NoWrap(m, address, n) {
      HitsContain(m, address, n);
    } else {
      var k :| k in m && ParamsOf(m, k).InRangeAt(address) && address - k + n >= TWO32;
      InRangeExact(ParamsOf(m, k), address, n);
      assert Hit(m, k, address, n);
      HitIsUnique(m, k, FindBlock(m, address, n).value, address, n);
      assert FindBlock(m, address, n) == Some(k) && !ParamsOf(m, k).Covers(address, n);
    }
  }

  lemma RoomyNoWrap(m: Blocks, address: Word, n: Word)
    requires Sized(m) && Roomy(m) && n <= 4
    ensures NoWrap(m, address, n)
  {
  }

  lemma FoundInBlock(m: Blocks, address: Word, n: Word)
    requires WellFormed(m) && NoWrap(m, address, n) && FindBlock(m, address, n).Some?
    ensures var k := FindBlock(m, address, n).value; k in m && k <= address && address + n <= k + |m[k]|
  {
    if n >= 1 {
      FindBlockExact(m, address, n);
    }
  }

  /** A range across the border of two adjacent blocks is not found. */
  lemma StraddlingMisses(m: Blocks, j: Word, k: Word, address: Word, n: Word)
    requires WellFormed(m) && n >= 1 && NoWrap(m, address, n)
    requires j in m && k in m && j + |m[j]| == k && j <= address < k < address + n
    ensures FindBlock(m, address, n) == None
  {
    FindBlockExact(m, address, n);
    forall i: Word | i in m && i <= address && address + n <= i + |m[i]|
      ensures false
    {
    }
  }

  /** A hit stays a hit on the same block, whatever blocks are added later. */
  lemma HitSurvives(m: Blocks, requests: seq<(Word, seq<Byte>)>, address: Word, n: Word)
    requires WellFormed(m) && (forall q | q in requests :: |q.1| < TWO32) && AllEndSafely(m, requests)
    requires FindBlock(m, address, n).Some?
    ensures FindBlock(AddBlocks(m, requests), address, n) == FindBlock(m, address, n)
  {
    AddBlocksWellFormed(m, requests);
    var k := FindBlock(m, address, n).value;
    assert Hit(AddBlocks(m, requests), k, address, n);
    HitIsUnique(AddBlocks(m, requests), k, FindBlock(AddBlocks(m, requests), address, n).value, address, n);
  }

  // ---- bytes ----

  /** `std::copy_n` into a block's bytes at an offset. */
  function Patch(data: seq<Byte>, offset: nat, source: seq<Byte>): (r: seq<Byte>)
    requires offset + |source| <= |data|
    ensures |r| == |data|
  {
    data[..offset] + source + data[offset + |source|..]
  }

  /** Little-endian bytes to a number. */
  function FromBytes(bytes: seq<Byte>): nat {
    if bytes == [] then 0 else bytes[0] + 0x100 * FromBytes(bytes[1..])
  }

  /** The low `n` bytes of a number, least significant first. */
  function ToBytes(value: nat, n: nat): (bytes: seq<Byte>)
    ensures |bytes| == n
  {
    if n == 0 then [] else [value % 0x100] + ToBytes(value / 0x100, n - 1)
  }

  lemma {:induction false} FromBytesBound(bytes: seq<Byte>)
    ensures FromBytes(bytes) < Pow2(8 * |bytes|)
  {
    hide Pow2;
    if bytes == [] {
      assert Pow2(0) >= 1;
    } else {
      FromBytesBound(bytes[1..]);
      EightBits(|bytes| - 1);
    }
  }

  lemma EightBits(n: nat)
    ensures Pow2(8 * n + 8) == 0x100 * Pow2(8 * n)
  {
    Pow2Add(8 * n, 8);
    assert Pow2(8) == 0x100;
  }

  /** The word that at most four bytes form. */
  function WordOf(bytes: seq<Byte>): Word
    requires |bytes| <= 4
  {
    FromBytesBound(bytes);
    Pow2Of32();
    Pow2Grows(8 * |bytes|, 32);
    FromBytes(bytes)
  }

  /** Bytes of a number form that number again, reduced to as many bytes. */
  lemma {:induction false} BytesRoundTrip(value: nat, n: nat)
    ensures FromBytes(ToBytes(value, n)) == value % Pow2(8 * n)
  {
    if n > 0 {
      BytesRoundTrip(value / 0x100, n - 1);
      EightBits(n - 1);
      DivModProduct(value, 0x100, Pow2(8 * (n - 1)));
    }
  }

  lemma {:induction false} ToBytesAt(value: nat, n: nat, i: nat)
    requires i < n
    ensures ToBytes(value, n)[i] == value / Pow2(8 * i) % 0x100
  {
    if i > 0 {
      ToBytesAt(value / 0x100, n - 1, i - 1);
      EightBits(i - 1);
      DivModProduct(value, 0x100, Pow2(8 * (i - 1)));
    }
  }

  // ---- the flat meaning of block memory ----

  type FlatMemory = map<int, Byte>

  ghost predicate Mapped(m: Blocks, address: int) {
    exists k | k in m :: k <= address < k + |m[k]|
  }

  /** The byte at an address that some block contains. */
  ghost function ByteAt(m: Blocks, address: int): Byte
    requires Mapped(m, address)
  {
    var k :| k in m && k <= address < k + |m[k]|;
    m[k][address - k]
  }

  ghost function Flat(m: Blocks): FlatMemory {
    map address: int | 0 <= address < TWO32 && Mapped(m, address) :: ByteAt(m, address)
  }

  /** Flat memory with the bytes of `source` written from `address` on. */
  function Overlay(flat: FlatMemory, address: int, source: seq<Byte>): FlatMemory {
    map x | x in flat :: if address <= x < address + |source| then source[x - address] else flat[x]
  }

  lemma ByteOfBlock(m: Blocks, k: Word, address: int)
    requires WellFormed(m) && k in m && k <= address < k + |m[k]|
    ensures Mapped(m, address) && ByteAt(m, address) == m[k][address - k]
  {
    var j :| j in m && j <= address < j + |m[j]| && ByteAt(m, address) == m[j][address - j];
  }

  /** Inside a block flat memory is that block's bytes. */
  lemma FlatSlice(m: Blocks, k: Word, address: int, n: nat)
    requires WellFormed(m) && Roomy(m) && k in m && k <= address && address + n <= k + |m[k]|
    ensures forall x :: address <= x < address + n ==> x in Flat(m) && Flat(m)[x] == m[k][x - k]
  {
    forall x | address <= x < address + n
      ensures x in Flat(m) && Flat(m)[x] == m[k][x - k]
    {
      ByteOfBlock(m, k, x);
    }
  }

  /** Exactly the addresses from `address` on are new, and their bytes are zero. */
  ghost predicate ZeroesAdded(was: FlatMemory, now: FlatMemory, address: int, n: int) {
    && (forall a: int :: a in now <==> a in was || address <= a < address + n)
    && (forall a | a in now :: now[a] == if address <= a < address + n then 0 else was[a])
  }

  lemma FlatWithZeros(m: Blocks, m': Blocks, start: Word, n: Word)
    requires WellFormed(m) && WellFormed(m') && start !in m && start + n <= TWO32
    requires start in m' && m' == m[start := m'[start]] && |m'[start]| == n && forall i | 0 <= i < n :: m'[start][i] == 0
    ensures ZeroesAdded(Flat(m), Flat(m'), start, n)
  {
    hide ByteAt, Disjoint, Mapped;
    forall a: int
      ensures Mapped(m', a) <==> Mapped(m, a) || start <= a < start + n
      ensures Mapped(m', a) ==> (start <= a < start + n || Mapped(m, a)) && ByteAt(m', a) == if start <= a < start + n then 0 else ByteAt(m, a)
    {
      ByteWithBlock(m, m', start, a);
    }
  }

  lemma ByteWithBlock(m: Blocks, m': Blocks, start: Word, a: int)
    requires WellFormed(m) && WellFormed(m') && start !in m && start in m' && m' == m[start := m'[start]]
    ensures Mapped(m', a) <==> Mapped(m, a) || start <= a < start + |m'[start]|
    ensures start <= a < start + |m'[start]| ==> ByteAt(m', a) == m'[start][a - start]
    ensures Mapped(m, a) && !(start <= a < start + |m'[start]|) ==> ByteAt(m', a) == ByteAt(m, a)
  {
    hide ByteAt, Disjoint;
    if start <= a < start + |m'[start]| {
      ByteOfBlock(m', start, a);
    } else {
      if Mapped(m, a) {
        var k :| k in m && k <= a < k + |m[k]|;
        ByteOfBlock(m, k, a);
        ByteOfBlock(m', k, a);
      }
      if Mapped(m', a) {
        var k :| k in m' && k <= a < k + |m'[k]|;
        ByteOfBlock(m', k, a);
        ByteOfBlock(m, k, a);
      }
    }
  }

  lemma SameExtentsMap(m: Blocks, m': Blocks, x: int)
    requires WellFormed(m) && SameExtents(m, m')
    ensures WellFormed(m') && Mapped(m', x) == Mapped(m, x)
  {
    if Mapped(m', x) {
      var j :| j in m' && j <= x < j + |m'[j]|;
      assert j in m && j <= x < j + |m[j]|;
    }
    if Mapped(m, x) {
      var j :| j in m && j <= x < j + |m[j]|;
      assert j in m' && j <= x < j + |m'[j]|;
    }
  }

  lemma PatchedByte(m: Blocks, k: Word, address: int, source: seq<Byte>, x: int)
    requires WellFormed(m) && k in m && k <= address && address + |source| <= k + |m[k]|
    requires Mapped(m, x)
    ensures var m' := m[k := Patch(m[k], address - k, source)];
            Mapped(m', x) && ByteAt(m', x) == if address <= x < address + |source| then source[x - address] else ByteAt(m, x)
  {
    hide ByteAt;
    var m' := m[k := Patch(m[k], address - k, source)];
    SameExtentsMap(m, m', x);
    var j :| j in m && j <= x < j + |m[j]|;
    ByteOfBlock(m, j, x);
    ByteOfBlock(m', j, x);
    if j != k && address <= x < address + |source| {
      ByteOfBlock(m, k, x);
    }
  }

  /** A write into one block changes exactly its bytes in flat memory, and no block's extent. */
  lemma FlatOfPatch(m: Blocks, k: Word, address: int, source: seq<Byte>)
    requires WellFormed(m) && k in m && k <= address && address + |source| <= k + |m[k]|
    ensures var m' := m[k := Patch(m[k], address - k, source)];
            WellFormed(m') && SameExtents(m, m') && Flat(m') == Overlay(Flat(m), address, source)
  {
    hide ByteAt, Patch, Mapped;
    var m' := m[k := Patch(m[k], address - k, source)];
    SameExtentsMap(m, m', 0);
    forall x: int
      ensures Mapped(m', x) == Mapped(m, x)
      ensures Mapped(m, x) ==> ByteAt(m', x) == if address <= x < address + |source| then source[x - address] else ByteAt(m, x)
    {
      SameExtentsMap(m, m', x);
      if Mapped(m, x) {
        PatchedByte(m, k, address, source, x);
      }
    }
  }

  ghost predicate SameExtents(m: Blocks, m': Blocks) {
    m'.Keys == m.Keys && forall k | k in m :: |m'[k]| == |m[k]|
  }

  lemma SameExtentsSelf(m: Blocks)
    ensures SameExtents(m, m)
  {
  }

  lemma SameNoWrap(m: Blocks, m': Blocks, address: Word, n: Word)
    requires WellFormed(m) && WellFormed(m') && SameExtents(m, m') && NoWrap(m, address, n)
    ensures NoWrap(m', address, n)
  {
  }

  lemma SameExtentsTransitive(a: Blocks, b: Blocks, c: Blocks)
    requires SameExtents(a, b) && SameExtents(b, c)
    ensures SameExtents(a, c)
  {
  }

  /** Lookups depend only on where the blocks are. */
  lemma SameLookups(m: Blocks, m': Blocks, address: Word, n: Word)
    requires WellFormed(m) && WellFormed(m') && SameExtents(m, m')
    ensures FindBlock(m', address, n) == FindBlock(m, address, n)
  {
    forall k
      ensures Hit(m', k, address, n) <==> Hit(m, k, address, n)
    {
    }
    if FindBlock(m, address, n).Some? {
      HitIsUnique(m, FindBlock(m, address, n).value, FindBlock(m', address, n).value, address, n);
    }
  }
}
