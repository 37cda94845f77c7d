/** What loading a HEX file means, from the bytes of its records alone: which files load, and what they
    leave in memory. The loader is proved to do exactly this. */
module HexMeaning {
  import opened Words
  import opened Wrappers
  import opened Memory
  import Hex
  import HexLoad

  type HexRecord = Hex.HexRecord

  /** The checksum and the count of the record are right. */
  predicate Sound(r: HexRecord) {
    r.sumExpected == r.sumActual && r.count == |r.data|
  }

  /** The last of the first `n` records of one of two kinds. */
  function LastOf(rs: seq<HexRecord>, n: nat, kind: Byte, other: Byte): (i: Option<nat>)
    requires n <= |rs|
    ensures i.Some? ==> i.value < n && (rs[i.value].kind == kind || rs[i.value].kind == other)
    ensures forall j | 0 <= j < n && (rs[j].kind == kind || rs[j].kind == other) :: i.Some? && j <= i.value
  {
    if n == 0 then None
    else if rs[n - 1].kind == kind || rs[n - 1].kind == other then Some(n - 1)
    else LastOf(rs, n - 1, kind, other)
  }

  /** The base address at record `n`: the two data bytes of the last record of kind 2 or 4 before it, in
      units of 16 or of 65536, or 0. */
  function BaseBefore(rs: seq<HexRecord>, n: nat): int
    requires n <= |rs|
  {
    match LastOf(rs, n, 2, 4)
    case None => 0
    case Some(i) =>
      if |rs[i].data| != 2 then 0
      else (if rs[i].kind == 2 then 0x10 else 0x1_0000) * (0x100 * rs[i].data[0] as int + rs[i].data[1] as int)
  }

  /** The entry point at record `n`: the four data bytes of the last record of kind 3 or 5 before it, or 0. */
  function EntryBefore(rs: seq<HexRecord>, n: nat): int
    requires n <= |rs|
  {
    match LastOf(rs, n, 3, 5)
    case None => 0
    case Some(i) =>
      var data := rs[i].data;
      if |data| != 4 then 0
      else 0x100_0000 * data[0] as int + 0x1_0000 * data[1] as int + 0x100 * data[2] as int + data[3] as int
  }

  /** Where record `i` puts its data. */
  function Target(rs: seq<HexRecord>, i: nat): int
    requires i < |rs|
  {
    (BaseBefore(rs, i) + rs[i].offset) % 0x1_0000_0000
  }

  ghost predicate InOneBlock(m: Blocks, address: int, n: nat) {
    exists k | k in m :: k <= address < k + |m[k]| && address + n <= k + |m[k]|
  }

  /** The loader can go on after record `i`: it is sound and of a known kind other than 1, and its data, if
      of kind 0, fit one block. No data fit too, unless an empty vector has a null pointer. */
  ghost predicate Good(m: Blocks, rs: seq<HexRecord>, i: nat, emptyIsNull: bool)
    requires i < |rs|
  {
    && Sound(rs[i])
    && (rs[i].kind == 0 || 2 <= rs[i].kind <= 5)
    && (rs[i].kind == 0 ==> InOneBlock(m, Target(rs, i), |rs[i].data|) && (rs[i].data == [] ==> !emptyIsNull))
  }

  /** The file has a sound record of kind 1, and every record before it is good. */
  ghost predicate FileLoads(m: Blocks, rs: seq<HexRecord>, emptyIsNull: bool) {
    exists i: nat :: LoadEndsAt(m, rs, i, emptyIsNull)
  }

  ghost predicate LoadEndsAt(m: Blocks, rs: seq<HexRecord>, i: nat, emptyIsNull: bool) {
    i < |rs| && rs[i].kind == 1 && Sound(rs[i]) && forall j | 0 <= j < i :: Good(m, rs, j, emptyIsNull)
  }

  /** Record `n` is the first that is not good, or there is none and `n` is the number of records. */
  ghost predicate StopsAt(m: Blocks, rs: seq<HexRecord>, n: nat, emptyIsNull: bool) {
    && n <= |rs|
    && (forall j | 0 <= j < n :: Good(m, rs, j, emptyIsNull))
    && (n < |rs| ==> !Good(m, rs, n, emptyIsNull))
  }

  predicate Covers(rs: seq<HexRecord>, i: nat, a: int)
    requires i < |rs|
  {
    rs[i].kind == 0 && Target(rs, i) <= a < Target(rs, i) + |rs[i].data|
  }

  /** Memory `now` is `was` with, at each byte, the last of the first `n` records that covers it. */
  ghost predicate IsLoaded(was: FlatMemory, now: FlatMemory, rs: seq<HexRecord>, n: nat)
    requires n <= |rs|
  {
    && now.Keys == was.Keys
    && (forall a | a in now && (forall i: nat | i < n :: !Covers(rs, i, a)) :: now[a] == was[a])
    && (forall a, j: nat | a in now && j < n && Covers(rs, j, a) && (forall i: nat | j < i < n :: !Covers(rs, i, a)) ::
          now[a] == rs[j].data[a - Target(rs, j)])
  }

  // ---- the loader does that ----

  lemma {:induction false} BaseMeaning(rs: seq<HexRecord>, n: nat)
    requires n <= |rs|
    ensures HexLoad.Base(rs, n) == BaseBefore(rs, n)
    decreases n
  {
    hide Hex.HexRecord.GetExtend;
    if n > 0 {
      Hex.AddressRecords(rs[n - 1]);
      BaseMeaning(rs, n - 1);
    }
  }

  lemma {:induction false} EntryMeaning(rs: seq<HexRecord>, n: nat)
    requires n <= |rs|
    ensures HexLoad.EntryPoint(rs, n) == EntryBefore(rs, n)
    decreases n
  {
    hide Hex.HexRecord.GetStart;
    if n > 0 {
      Hex.AddressRecords(rs[n - 1]);
      EntryMeaning(rs, n - 1);
    }
  }

  lemma TargetMeaning(rs: seq<HexRecord>, i: nat)
    requires i < |rs|
    ensures HexLoad.Address(rs, i) == Target(rs, i)
  {
    hide HexLoad.Base, BaseBefore;
    BaseMeaning(rs, i);
  }

  lemma FindsInOneBlock(m: Blocks, address: Word, n: Word)
    requires WellFormed(m) && NoWrap(m, address, n)
    ensures FindBlock(m, address, n).Some? <==> InOneBlock(m, address, n)
  {
    hide FindBlock;
    if n > 0 {
      FindBlockExact(m, address, n);
    }
    if FindBlock(m, address, n).Some? {
      var k := FindBlock(m, address, n).value;
      assert Hit(m, k, address, n) && k <= address < k + |m[k]|;
    }
    if InOneBlock(m, address, n) {
      var k :| k in m && k <= address < k + |m[k]| && address + n <= k + |m[k]|;
      if n == 0 {
        assert Hit(m, k, address, n);
      }
    }
  }

  lemma GoodMeaning(m: Blocks, rs: seq<HexRecord>, i: nat, emptyIsNull: bool)
    requires WellFormed(m) && i < |rs|
    requires rs[i].IsValid() && rs[i].GetType() == Hex.HEX_DATA ==> NoWrap(m, HexLoad.Address(rs, i), |rs[i].data|)
    ensures HexLoad.Continues(m, rs, i, emptyIsNull) <==> Good(m, rs, i, emptyIsNull)
  {
    hide FindBlock, NoWrap, HexLoad.Address, Target, InOneBlock, WellFormed;
    if rs[i].IsValid() && rs[i].GetType() == Hex.HEX_DATA {
      TargetMeaning(rs, i);
      FindsInOneBlock(m, HexLoad.Address(rs, i), |rs[i].data|);
    }
  }

  lemma StopMeaning(m: Blocks, rs: seq<HexRecord>, emptyIsNull: bool)
    requires WellFormed(m) && HexLoad.RecordsFit(m, rs, emptyIsNull)
    ensures StopsAt(m, rs, HexLoad.Stop(m, rs, 0, emptyIsNull), emptyIsNull)
    ensures HexLoad.Loads(m, rs, emptyIsNull) <==> FileLoads(m, rs, emptyIsNull)
  {
    hide WellFormed, NoWrap, HexLoad.Continues, HexLoad.Address, Good;
    var stop := HexLoad.Stop(m, rs, 0, emptyIsNull);
    forall j | 0 <= j < |rs| && j <= stop
      ensures HexLoad.Continues(m, rs, j, emptyIsNull) <==> Good(m, rs, j, emptyIsNull)
    {
      GoodMeaning(m, rs, j, emptyIsNull);
    }
    hide HexLoad.Stop;
    if HexLoad.Loads(m, rs, emptyIsNull) {
      assert LoadEndsAt(m, rs, stop, emptyIsNull);
    }
    if i: nat :| LoadEndsAt(m, rs, i, emptyIsNull) {
      EofIsNotGood(m, rs, i, emptyIsNull);
      assert stop == i;
    }
  }

  lemma EofIsNotGood(m: Blocks, rs: seq<HexRecord>, i: nat, emptyIsNull: bool)
    requires i < |rs| && rs[i].kind == 1
    ensures !Good(m, rs, i, emptyIsNull)
  {
  }

  lemma LoadedMeaning(was: FlatMemory, rs: seq<HexRecord>, n: nat)
    requires n <= |rs|
    ensures IsLoaded(was, HexLoad.Loaded(was, rs, n), rs, n)
  {
    hide HexLoad.Address, Target;
    forall i: nat | i < n
      ensures HexLoad.Address(rs, i) == Target(rs, i)
    {
      TargetMeaning(rs, i);
    }
    forall i: nat, a: int | i < n
      ensures HexLoad.CoveredBy(rs, i, a) <==> Covers(rs, i, a)
    {
    }
    hide HexLoad.CoveredBy;
  }

  /** Stopping point, success, entry point and memory of the loader, all at once. */
  lemma LoaderMeaning(m: Blocks, was: FlatMemory, rs: seq<HexRecord>, emptyIsNull: bool)
    requires WellFormed(m) && HexLoad.RecordsFit(m, rs, emptyIsNull)
    ensures HexLoad.Loads(m, rs, emptyIsNull) <==> FileLoads(m, rs, emptyIsNull)
    ensures var stop := HexLoad.Stop(m, rs, 0, emptyIsNull);
            && StopsAt(m, rs, stop, emptyIsNull) && IsLoaded(was, HexLoad.Loaded(was, rs, stop), rs, stop)
            && HexLoad.EntryPoint(rs, stop) == EntryBefore(rs, stop)
  {
    hide WellFormed, StopsAt, IsLoaded, EntryBefore, HexLoad.Loaded, HexLoad.EntryPoint, HexLoad.Loads, FileLoads;
    var stop := HexLoad.Stop(m, rs, 0, emptyIsNull);
    StopMeaning(m, rs, emptyIsNull);
    LoadedMeaning(was, rs, stop);
    EntryMeaning(rs, stop);
  }
}
