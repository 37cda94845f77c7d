/** The memory management unit and its blocks, as the objects that the machine updates. */
module Mmu {
  import opened Words
  import opened Wrappers
  import opened Memory

  /** A block backed by a byte vector. */
  class GenericMemory {
    const params: Params
    var data: seq<Byte>

    ghost predicate Valid()
      reads this
    {
      |data| == params.size
    }

    /** A block of zero bytes. */
    constructor (start: Word, size: Word)
      ensures Valid() && params == Params(start, size) && forall i | 0 <= i < |data| :: data[i] == 0
      ensures data == Zeros(size)
    {
      params := Params(start, size);
      data := Zeros(size);
    }

    /** Copies `n` bytes out; refuses a range that is not in this block. */
    method Load(address: Word, n: Word) returns (ok: bool, dest: seq<Byte>)
      requires Valid()
      requires params.InRangeAt(address) ==> address - params.start + n < TWO32
      ensures ok == params.InRange(address, n)
      ensures ok ==> dest == data[address - params.start..][..n]
      ensures !ok ==> dest == []
    {
      if !params.InRange(address, n) {
        return false, [];
      }
      var offset := address - params.start;
      return true, data[offset..][..n];
    }

    /** Copies bytes in; refuses a range that is not in this block. */
    method Store(address: Word, source: seq<Byte>) returns (ok: bool)
      requires Valid() && |source| < TWO32
      requires params.InRangeAt(address) ==> address - params.start + |source| < TWO32
      modifies this
      ensures Valid()
      ensures ok == params.InRange(address, |source|)
      ensures ok ==> data == Patch(old(data), address - params.start, source)
      ensures !ok ==> data == old(data)
    {
      if !params.InRange(address, |source|) {
        return false;
      }
      var offset := address - params.start;
      data := Patch(data, offset, source);
      return true;
    }

    /** What dereferencing a pointer to a 32-bit value at `address` reads, in the current state. */
    function WordAt(address: Word): Word
      requires Valid() && params.Covers(address, 4)
      reads this
    {
      var offset := address - params.start;
      WordOf(data[offset..offset + 4])
    }
  }

  class MemoryManagementUnit {
    /** Ordered map from block parameters to blocks; the key order is that of the start address. */
    var memory: map<Word, GenericMemory>

    ghost predicate Valid()
      reads this, memory.Values
    {
      && (forall k | k in memory :: memory[k].params.start == k && memory[k].Valid() && |memory[k].data| > 0)
      && WellFormed(Model())
    }

    /** The bytes of every block. */
    ghost function Model(): Blocks
      reads this, memory.Values
    {
      map k | k in memory :: memory[k].data
    }

    constructor ()
      ensures Valid() && memory == map[]
    {
      memory := map[];
    }

    /** Adds a block as the source's tests decide. If its end does not wrap around below a present block,
        it is added iff it is non-empty and neither overlaps a present block nor ends at its start. */
    method AddBlock(block: GenericMemory) returns (ok: bool)
      requires Valid() && block.Valid()
      modifies this
      ensures memory == if ok then old(memory)[block.params.start := block] else old(memory)
      ensures (ok, Model()) == Memory.AddBlock(old(Model()), block.params.start, block.data)
      ensures EndsSafely(old(Model()), block.params.start, block.params.size) ==>
                Valid() && ok == Admissible(old(Model()), block.params.start, block.params.size)
    {
      hide Memory.AddBlock, Admissible, WellFormed, EndsSafely;
      ghost var m := Model();
      if block.params.size == 0 {
        Refused(m, block.params.start, block.data);
        return false;
      }
      var rest := memory.Keys;
      while rest != {}
        invariant rest <= memory.Keys
        invariant forall k | k in memory.Keys - rest :: !memory[k].params.IsOverlap(block.params.start, block.params.size)
        decreases |rest|
      {
        var k :| k in rest;
        if memory[k].params.IsOverlap(block.params.start, block.params.size) {
          assert ParamsOf(m, k).IsOverlap(block.params.start, |block.data|);
          Refused(m, block.params.start, block.data);
          return false;
        }
        rest := rest - {k};
      }
      assert forall k | k in m :: ParamsOf(m, k) == memory[k].params;
      Accepted(m, block.params.start, block.data);
      if block.params.start in memory {
        return false;
      }
      memory := memory[block.params.start := block];
      assert Model() == m[block.params.start := block.data];
      return true;
    }

    /** The block that contains the whole range, or null; the visiting order does not matter. */
    method FindBlock(address: Word, n: Word) returns (block: GenericMemory?)
      requires Valid()
      ensures block == null ==> Memory.FindBlock(Model(), address, n) == None
      ensures block != null ==>
                && Memory.FindBlock(Model(), address, n) == Some(block.params.start)
                && block.params.start in memory && memory[block.params.start] == block
                && block.params.InRange(address, n)
                && (NoWrap(Model(), address, n) ==> block.params.Covers(address, n))
    {
      ghost var m := Model();
      var rest := memory.Keys;
      while rest != {}
        invariant rest <= memory.Keys
        invariant forall k | k in memory.Keys - rest :: !memory[k].params.InRange(address, n)
        decreases |rest|
      {
        var k :| k in rest;
        if memory[k].params.InRange(address, n) {
          assert Hit(m, k, address, n);
          HitIsUnique(m, k, Memory.FindBlock(m, address, n).value, address, n);
          return memory[k];
        }
        rest := rest - {k};
      }
      assert forall k :: !Hit(m, k, address, n);
      return null;
    }
  }
}
