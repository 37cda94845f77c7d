/** Sequences of memory accesses: what a read returns after any history of writes. */
module Accesses {
  import opened Words
  import opened Wrappers
  import opened Memory
  import opened Machine
  import opened Refinement
  import R = Reference

  /** One call of `write_memory`. */
  datatype Write = Write(address: Word, size: Byte, value: Word)

  /** The write succeeds: a size of one to four bytes, aligned, within one block. */
  ghost predicate Succeeds(m: Blocks, w: Write)
    requires MemoryOk(m)
  {
    1 <= w.size <= 4 && w.address % w.size == 0 && exists k | k in m :: ParamsOf(m, k).Covers(w.address, w.size)
  }

  /** The memory after the writes; those that throw change nothing. */
  ghost function WriteAll(s: State, writes: seq<Write>): (r: State)
    requires Shaped(s)
    ensures Shaped(r)
  {
    if writes == [] then s
    else
      var before := WriteAll(s, writes[..|writes| - 1]);
      var w := writes[|writes| - 1];
      WriteKeepsMemory(before, w.address, w.size, w.value);
      WriteMemory(before, w.address, w.size, w.value).state
  }

  /** The last successful write that covers address `a`. */
  ghost function LastWrite(m: Blocks, writes: seq<Write>, a: int): (j: Option<nat>)
    requires MemoryOk(m)
    ensures j.Some? ==> j.value < |writes| && Writes(m, writes[j.value], a)
    ensures forall i | 0 <= i < |writes| && Writes(m, writes[i], a) :: j.Some? && i <= j.value
  {
    if writes == [] then None
    else if Writes(m, writes[|writes| - 1], a) then Some(|writes| - 1)
    else
      var rest := writes[..|writes| - 1];
      var j := LastWrite(m, rest, a);
      assert forall i | 0 <= i < |rest| :: writes[i] == rest[i];
      j
  }

  ghost predicate Writes(m: Blocks, w: Write, a: int)
    requires MemoryOk(m)
  {
    Succeeds(m, w) && w.address <= a < w.address + w.size
  }

  /** The byte at `a` after the writes: of the last one that covers it, or the original one. */
  ghost function ByteAfter(m: Blocks, writes: seq<Write>, a: int): Byte
    requires MemoryOk(m) && a in Flat(m)
  {
    match LastWrite(m, writes, a)
    case Some(j) => writes[j].value / Pow2(8 * (a - writes[j].address)) % 0x100
    case None => Flat(m)[a]
  }

  ghost function FlatAfter(m: Blocks, writes: seq<Write>): FlatMemory
    requires MemoryOk(m)
  {
    map a | a in Flat(m) :: ByteAfter(m, writes, a)
  }

  lemma SuccessIsLookup(m: Blocks, w: Write)
    requires MemoryOk(m) && 1 <= w.size <= 4
    ensures Succeeds(m, w) <==> w.address % w.size == 0 && FindBlock(m, w.address, w.size).Some?
  {
    hide FindBlock;
    RoomyNoWrap(m, w.address, w.size);
    FindBlockExact(m, w.address, w.size);
    if FindBlock(m, w.address, w.size).Some? {
      assert ParamsOf(m, FindBlock(m, w.address, w.size).value).Covers(w.address, w.size);
    }
  }

  lemma SuccessDependsOnExtents(s: State, s': State, w: Write)
    requires Shaped(s) && Shaped(s') && SameExtents(s.mem, s'.mem)
    ensures WriteMemory(s', w.address, w.size, w.value).Completed? == Succeeds(s.mem, w)
  {
    hide FindBlock, SameExtents, Succeeds, Patch, ToBytes, Disjoint, Roomy;
    if 1 <= w.size <= 4 {
      SuccessIsLookup(s.mem, w);
      SameLookups(s.mem, s'.mem, w.address, w.size);
    } else {
      assert !Succeeds(s.mem, w) by { NoOtherSize(s.mem, w); }
    }
  }

  lemma NoOtherSize(m: Blocks, w: Write)
    requires MemoryOk(m) && !(1 <= w.size <= 4)
    ensures !Succeeds(m, w)
  {
  }

  lemma ByteAfterNext(m: Blocks, writes: seq<Write>, a: int)
    requires MemoryOk(m) && a in Flat(m) && writes != []
    ensures var w := writes[|writes| - 1];
            ByteAfter(m, writes, a) ==
            if Writes(m, w, a) then w.value / Pow2(8 * (a - w.address)) % 0x100
            else ByteAfter(m, writes[..|writes| - 1], a)
  {
    hide Flat, Writes, MemoryOk, Pow2;
  }

  /** Whatever is written, each byte of memory is that of the last successful write that covers it, and
      no block moves. */
  lemma {:induction false} WritesRefine(s: State, writes: seq<Write>)
    requires Shaped(s)
    ensures SameExtents(s.mem, WriteAll(s, writes).mem)
    ensures Flat(WriteAll(s, writes).mem) == FlatAfter(s.mem, writes)
    decreases |writes|
  {
    hide Flat, MemoryOk, WriteMemory, FlatAfter, Succeeds, SameExtents, R.Poke;
    if writes == [] {
      NoWrites(s.mem);
      SameExtentsSelf(s.mem);
    } else {
      var w := writes[|writes| - 1];
      var before := WriteAll(s, writes[..|writes| - 1]);
      WritesRefine(s, writes[..|writes| - 1]);
      SuccessDependsOnExtents(s, before, w);
      WriteKeepsMemory(before, w.address, w.size, w.value);
      SameExtentsTransitive(s.mem, before.mem, WriteMemory(before, w.address, w.size, w.value).state.mem);
      FlatAfterNext(s.mem, writes);
      AfterWrite(before, w);
    }
  }

  /** The last write comes on top of the others, if it succeeds. */
  lemma FlatAfterNext(m: Blocks, writes: seq<Write>)
    requires MemoryOk(m) && writes != []
    ensures var w := writes[|writes| - 1];
            var before := FlatAfter(m, writes[..|writes| - 1]);
            FlatAfter(m, writes) == if Succeeds(m, w) then R.Poke(before, w.address, w.size, w.value) else before
  {
    hide Flat, MemoryOk, ByteAfter, Succeeds, Pow2;
    forall a | a in Flat(m)
      ensures var w := writes[|writes| - 1];
              ByteAfter(m, writes, a) ==
              if Writes(m, w, a) then w.value / Pow2(8 * (a - w.address)) % 0x100 else ByteAfter(m, writes[..|writes| - 1], a)
    {
      ByteAfterNext(m, writes, a);
    }
  }

  lemma AfterWrite(s: State, w: Write)
    requires Shaped(s)
    ensures var o := WriteMemory(s, w.address, w.size, w.value);
            Flat(o.state.mem) == if o.Completed? then R.Poke(Flat(s.mem), w.address, w.size, w.value) else Flat(s.mem)
  {
    hide MemoryOk, WriteMemory, Flat, R.Poke;
    WriteAgrees(s, w.address, w.size, w.value);
  }

  lemma NoWrites(m: Blocks)
    requires MemoryOk(m)
    ensures FlatAfter(m, []) == Flat(m)
  {
    hide Flat;
  }

  /** A later read throws, or assembles exactly those bytes; and it throws iff it would have before. */
  lemma ReadAfterWrites(s: State, writes: seq<Write>, address: Word, n: Byte)
    requires Shaped(s) && 1 <= n
    ensures ReadMemory(WriteAll(s, writes).mem, address, n) ==
            if ReadMemory(s.mem, address, n).None? then None else Some(R.Peek(FlatAfter(s.mem, writes), address, n))
  {
    hide Flat, FlatAfter, FindBlock, WordOf, BytesAt, R.Peek, WriteAll;
    WritesRefine(s, writes);
    var m' := WriteAll(s, writes).mem;
    SameLookups(s.mem, m', address, n);
    if ReadMemory(m', address, n).Some? {
      ReadAgrees(m', address, n);
    }
  }
}
