/** What loading a HEX file means: which records take part, and what memory they leave. */
module HexLoad {
  import opened Words
  import opened Wrappers
  import opened Hex
  import opened Memory

  /** The base address in force at record `n`: that of the last extend record before it, or 0. */
  function Base(rs: seq<HexRecord>, n: nat): Word
    requires n <= |rs|
  {
    if n == 0 then 0
    else if rs[n - 1].GetType() == HEX_SEGMENT_EXTEND || rs[n - 1].GetType() == HEX_LINEAR_EXTEND then rs[n - 1].GetExtend()
    else Base(rs, n - 1)
  }

  /** The entry point in force at record `n`: that of the last start record before it, or 0. */
  function EntryPoint(rs: seq<HexRecord>, n: nat): Word
    requires n <= |rs|
  {
    if n == 0 then 0
    else if rs[n - 1].GetType() == HEX_SEGMENT_START || rs[n - 1].GetType() == HEX_LINEAR_START then rs[n - 1].GetStart()
    else EntryPoint(rs, n - 1)
  }

  /** Where record `i` puts its data. */
  function Address(rs: seq<HexRecord>, i: nat): Word
    requires i < |rs|
  {
    ToWord(Base(rs, i) + rs[i].offset)
  }

  /** Data record `i` goes into one mapped block. Whether an empty vector has a null `data()` pointer,
      which the loader refuses, is up to the C++ library. */
  ghost predicate Loadable(m: Blocks, rs: seq<HexRecord>, i: nat, emptyIsNull: bool)
    requires WellFormed(m) && i < |rs| && |rs[i].data| < 0x100
  {
    FindBlock(m, Address(rs, i), |rs[i].data|).Some? && (rs[i].data == [] ==> !emptyIsNull)
  }

  /** The loader goes on after record `i`. */
  ghost predicate Continues(m: Blocks, rs: seq<HexRecord>, i: nat, emptyIsNull: bool)
    requires WellFormed(m) && i < |rs|
  {
    && rs[i].IsValid()
    && rs[i].GetType() != HEX_EOF && rs[i].GetType() != HEX_UNKNOWN
    && (rs[i].GetType() == HEX_DATA ==> Loadable(m, rs, i, emptyIsNull))
  }

  /** The first record from `i` on at which the loader stops, or the end of the file. */
  ghost function Stop(m: Blocks, rs: seq<HexRecord>, i: nat, emptyIsNull: bool): (stop: nat)
    requires WellFormed(m) && i <= |rs|
    ensures i <= stop <= |rs|
    ensures forall j | i <= j < stop :: Continues(m, rs, j, emptyIsNull)
    ensures stop < |rs| ==> !Continues(m, rs, stop, emptyIsNull)
    decreases |rs| - i
  {
    if i == |rs| || !Continues(m, rs, i, emptyIsNull) then i else Stop(m, rs, i + 1, emptyIsNull)
  }

  lemma StopIsLater(m: Blocks, rs: seq<HexRecord>, i: nat, emptyIsNull: bool)
    requires WellFormed(m) && i <= |rs| && forall j | 0 <= j < i :: Continues(m, rs, j, emptyIsNull)
    ensures i <= Stop(m, rs, 0, emptyIsNull)
  {
    hide Continues;
  }

  /** No range test of a data record that the loader reaches wraps around. */
  ghost predicate RecordsFit(m: Blocks, rs: seq<HexRecord>, emptyIsNull: bool)
    requires WellFormed(m)
  {
    forall i | 0 <= i < |rs| && i <= Stop(m, rs, 0, emptyIsNull) && rs[i].IsValid() && rs[i].GetType() == HEX_DATA ::
      NoWrap(m, Address(rs, i), |rs[i].data|)
  }

  /** Blocks that leave room for 255 bytes are enough, whatever the file. */
  lemma RecordsFitInRoom(m: Blocks, rs: seq<HexRecord>)
    requires WellFormed(m) && forall k | k in m :: |m[k]| + 0xFF <= TWO32
    ensures forall emptyIsNull :: RecordsFit(m, rs, emptyIsNull)
  {
    hide Address, Stop;
  }

  /** The file loads: every record before the first EOF is valid, known and, if data, mapped, and
      that EOF is there and valid. */
  ghost predicate Loads(m: Blocks, rs: seq<HexRecord>, emptyIsNull: bool)
    requires WellFormed(m)
  {
    var stop := Stop(m, rs, 0, emptyIsNull);
    stop < |rs| && rs[stop].IsValid() && rs[stop].IsEof()
  }

  predicate CoveredBy(rs: seq<HexRecord>, i: nat, a: int)
    requires i < |rs|
  {
    rs[i].GetType() == HEX_DATA && Address(rs, i) <= a < Address(rs, i) + |rs[i].data|
  }

  /** The last of the first `n` records whose data covers address `a`. */
  function LastCover(rs: seq<HexRecord>, n: nat, a: int): (j: Option<nat>)
    requires n <= |rs|
    ensures j.Some? ==> j.value < n && CoveredBy(rs, j.value, a)
    ensures forall i: nat :: i < n && CoveredBy(rs, i, a) ==> j.Some? && i <= j.value
  {
    if n == 0 then None
    else if CoveredBy(rs, n - 1, a) then Some(n - 1)
    else LastCover(rs, n - 1, a)
  }

  /** Memory after the first `n` records: each byte comes from the last data record that covers it,
      and is the old one if none does. */
  ghost function Loaded(flat: FlatMemory, rs: seq<HexRecord>, n: nat): FlatMemory
    requires n <= |rs|
  {
    map a | a in flat ::
      match LastCover(rs, n, a)
      case Some(j) => rs[j].data[a - Address(rs, j)]
      case None => flat[a]
  }

  lemma KeysOfLoaded(flat: FlatMemory, rs: seq<HexRecord>, n: nat)
    requires n <= |rs|
    ensures Loaded(flat, rs, n).Keys == flat.Keys
  {
  }

  /** The byte at `a` after one more record: its own, if it is a data record that covers `a`. */
  ghost function LoadedByteNext(flat: FlatMemory, rs: seq<HexRecord>, n: nat, a: int): Byte
    requires n < |rs| && a in flat
  {
    var address := (Base(rs, n) + rs[n].offset) % 0x1_0000_0000;
    if rs[n].kind == 0 && address <= a < address + |rs[n].data| then rs[n].data[a - address] else Loaded(flat, rs, n)[a]
  }

  lemma LoadedByte(flat: FlatMemory, rs: seq<HexRecord>, n: nat, a: int)
    requires n < |rs| && a in flat
    ensures a in Loaded(flat, rs, n + 1) && Loaded(flat, rs, n + 1)[a] == LoadedByteNext(flat, rs, n, a)
  {
    KindMeaning(rs[n]);
    hide Base, HexRecord.GetType;
  }

  lemma OverlayIsNext(flat: FlatMemory, rs: seq<HexRecord>, n: nat)
    requires n < |rs|
    ensures var after := if rs[n].kind == 0
              then Overlay(Loaded(flat, rs, n), (Base(rs, n) + rs[n].offset) % 0x1_0000_0000, rs[n].data)
              else Loaded(flat, rs, n);
            after.Keys == flat.Keys && forall a | a in flat :: after[a] == LoadedByteNext(flat, rs, n, a)
  {
    KeysOfLoaded(flat, rs, n);
    hide Base, Loaded, Overlay;
    OverlayBytes(Loaded(flat, rs, n), (Base(rs, n) + rs[n].offset) % 0x1_0000_0000, rs[n].data);
  }

  lemma OverlayBytes(flat: FlatMemory, address: int, source: seq<Byte>)
    ensures Overlay(flat, address, source).Keys == flat.Keys
    ensures forall a | a in flat ::
              Overlay(flat, address, source)[a] == if address <= a < address + |source| then source[a - address] else flat[a]
  {
  }

  /** One more record overlays its data, if it is a data record. */
  lemma LoadedNext(flat: FlatMemory, rs: seq<HexRecord>, n: nat)
    requires n < |rs|
    ensures Loaded(flat, rs, n + 1) ==
            if rs[n].kind == 0 then Overlay(Loaded(flat, rs, n), (Base(rs, n) + rs[n].offset) % 0x1_0000_0000, rs[n].data)
            else Loaded(flat, rs, n)
  {
    hide Base, LoadedByteNext, Loaded;
    KeysOfLoaded(flat, rs, n);
    KeysOfLoaded(flat, rs, n + 1);
    forall a | a in flat
      ensures Loaded(flat, rs, n + 1)[a] == LoadedByteNext(flat, rs, n, a)
    {
      LoadedByte(flat, rs, n, a);
    }
    OverlayIsNext(flat, rs, n);
    SameMemory(Loaded(flat, rs, n + 1),
      if rs[n].kind == 0 then Overlay(Loaded(flat, rs, n), (Base(rs, n) + rs[n].offset) % 0x1_0000_0000, rs[n].data)
      else Loaded(flat, rs, n), flat);
  }

  lemma SameMemory(x: FlatMemory, y: FlatMemory, flat: FlatMemory)
    requires x.Keys == y.Keys == flat.Keys && forall a | a in flat :: x[a] == y[a]
    ensures x == y
  {
    forall a: int
      ensures a in x <==> a in y
      ensures a in x ==> x[a] == y[a]
    {
      assert a in x <==> a in x.Keys;
      assert a in y <==> a in y.Keys;
      assert a in flat <==> a in flat.Keys;
    }
  }

  lemma LoadedNone(flat: FlatMemory, rs: seq<HexRecord>)
    ensures Loaded(flat, rs, 0) == flat
  {
  }

  /** Whether a record can be placed depends only on where the blocks are. */
  lemma SameLoadable(m: Blocks, m': Blocks, rs: seq<HexRecord>, i: nat, emptyIsNull: bool)
    requires WellFormed(m) && WellFormed(m') && SameExtents(m, m') && i < |rs| && |rs[i].data| < 0x100
    ensures Loadable(m', rs, i, emptyIsNull) == Loadable(m, rs, i, emptyIsNull)
  {
    hide FindBlock, Address;
    SameLookups(m, m', Address(rs, i), |rs[i].data|);
  }

  /** What the loader has done before record `n`: base address, entry point and memory. */
  ghost predicate Progress(m: Blocks, was: FlatMemory, rs: seq<HexRecord>, n: nat, emptyIsNull: bool,
                           base: Word, entry: Word, now: FlatMemory)
    requires WellFormed(m) && n <= |rs|
  {
    && (forall j | 0 <= j < n :: Continues(m, rs, j, emptyIsNull))
    && base == Base(rs, n) && entry == EntryPoint(rs, n) && now == Loaded(was, rs, n)
  }

  lemma ProgressNone(m: Blocks, was: FlatMemory, rs: seq<HexRecord>, emptyIsNull: bool)
    requires WellFormed(m)
    ensures Progress(m, was, rs, 0, emptyIsNull, 0, 0, was)
  {
    LoadedNone(was, rs);
  }

  /** The base address is at hand at each record, and the loader has not stopped before it. */
  lemma ProgressBase(m: Blocks, was: FlatMemory, rs: seq<HexRecord>, n: nat, emptyIsNull: bool,
                     base: Word, entry: Word, now: FlatMemory)
    requires WellFormed(m) && n <= |rs| && Progress(m, was, rs, n, emptyIsNull, base, entry, now)
    ensures base == Base(rs, n) && n <= Stop(m, rs, 0, emptyIsNull)
  {
    StopIsLater(m, rs, n, emptyIsNull);
  }

  lemma ProgressNext(m: Blocks, was: FlatMemory, rs: seq<HexRecord>, n: nat, emptyIsNull: bool,
                     base: Word, entry: Word, now: FlatMemory)
    requires WellFormed(m) && n < |rs| && Progress(m, was, rs, n, emptyIsNull, base, entry, now)
    requires Continues(m, rs, n, emptyIsNull)
    ensures
      var kind := rs[n].kind;
      Progress(m, was, rs, n + 1, emptyIsNull,
               if kind == 2 || kind == 4 then rs[n].GetExtend() else base,
               if kind == 3 || kind == 5 then rs[n].GetStart() else entry,
               if kind == 0 then Overlay(now, (base + rs[n].offset) % 0x1_0000_0000, rs[n].data) else now)
  {
    hide Continues, Address, Loaded, Overlay, HexRecord.GetType, HexRecord.GetExtend, HexRecord.GetStart;
    KindMeaning(rs[n]);
    LoadedNext(was, rs, n);
  }

  /** The loader has ended, in success or not, with this memory and, if it succeeded, entry point. */
  ghost predicate Ended(m: Blocks, was: FlatMemory, rs: seq<HexRecord>, emptyIsNull: bool, ok: bool, entry: Word, now: FlatMemory)
    requires WellFormed(m)
  {
    var stop := Stop(m, rs, 0, emptyIsNull);
    ok == Loads(m, rs, emptyIsNull) && now == Loaded(was, rs, stop) && (ok ==> entry == EntryPoint(rs, stop))
  }

  /** Where the loader stops, it has done exactly what the records before that point say. */
  lemma ProgressEnds(m: Blocks, was: FlatMemory, rs: seq<HexRecord>, n: nat, emptyIsNull: bool,
                     base: Word, entry: Word, now: FlatMemory)
    requires WellFormed(m) && n <= |rs| && Progress(m, was, rs, n, emptyIsNull, base, entry, now)
    requires n < |rs| ==> !Continues(m, rs, n, emptyIsNull)
    ensures Stop(m, rs, 0, emptyIsNull) == n && entry == EntryPoint(rs, n) && now == Loaded(was, rs, n)
    ensures Loads(m, rs, emptyIsNull) <==> n < |rs| && rs[n].IsValid() && rs[n].IsEof()
  {
    hide Continues, Address, Loaded;
  }

  lemma EndsHere(m: Blocks, was: FlatMemory, rs: seq<HexRecord>, n: nat, emptyIsNull: bool,
                 base: Word, entry: Word, now: FlatMemory)
    requires WellFormed(m) && n <= |rs| && Progress(m, was, rs, n, emptyIsNull, base, entry, now)
    requires n < |rs| ==> !Continues(m, rs, n, emptyIsNull)
    ensures Ended(m, was, rs, emptyIsNull, n < |rs| && rs[n].IsValid() && rs[n].IsEof(), entry, now)
  {
    hide Progress, Continues, EntryPoint, Loads;
    ProgressEnds(m, was, rs, n, emptyIsNull, base, entry, now);
  }
}
