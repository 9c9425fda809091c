/**
 * The population-count strategies of the bit-counting benchmark: the
 * reference loop, the lookup tables it fills, the three lane-split table
 * lookups, the lazily built full table, and the self-check that compares
 * every strategy with the reference.
 */
module CountBits {
  import opened Bits

  /** `t` holds, at every index below `size`, the population count of that index. */
  ghost predicate IsCountTable(t: seq<u32>, size: nat)
  {
    |t| == size && forall i :: 0 <= i < size ==> t[i] == PopCount(i)
  }

  // ---------------------------------------------------------------------------
  // ReferenceSolution

  /** Clears the lowest set bit until none is left, counting the steps. */
  method ReferenceCount(n: u32) returns (i: u32)
    ensures i == PopCount(n)
    ensures i <= 32
  {
    PopCountU32(n);
    var m := n;
    i := 0;
    while m != 0
      invariant i + PopCount(m) == PopCount(n)
      decreases m
    {
      ClearLowestSetBit(m);
      m := BitAnd(m, m - 1);
      i := i + 1;
    }
  }

  /** The loop is not entered for 0, and runs 32 times for 0xFFFFFFFF. */
  lemma PopCountExtremes()
    ensures PopCount(0) == 0
    ensures PopCount(0xFFFF_FFFF) == 32
  {
    Pow2Values();
    PopCountAllOnes(32);
  }

  // ---------------------------------------------------------------------------
  // CountTable<TableSize>

  /**
   * Fills a table of `size` entries with the reference count of each index.
   * The index is passed to a uint32_t parameter, so it is reduced modulo 2^32.
   */
  method CountTable(size: nat) returns (t: seq<u32>)
    ensures |t| == size
    ensures forall i :: 0 <= i < size ==> t[i] == PopCount(i % Modulus32)
  {
    var res := new u32[size](_ => 0);
    for ii := 0 to size
      invariant forall i :: 0 <= i < ii ==> res[i] == PopCount(i % Modulus32)
    {
      res[ii] := ReferenceCount(ii % Modulus32);
    }
    t := res[..];
  }

  /** The tables the three lane-split strategies are built with are count tables. */
  lemma CountTableIsCountTable(t: seq<u32>, size: nat)
    requires size <= Modulus32
    requires |t| == size && forall i :: 0 <= i < size ==> t[i] == PopCount(i % Modulus32)
    ensures IsCountTable(t, size)
  {
    forall i | 0 <= i < size
      ensures t[i] == PopCount(i)
    {
      assert i % Modulus32 == i;
    }
  }

  // ---------------------------------------------------------------------------
  // ByteTableSolution

  /**
   * Four 8-bit lanes, each looked up in a 256-entry count table.
   *
   * The source writes the lanes as `n >>= 8` inside the operands of one `+`
   * chain; C++ leaves the order of those side effects unspecified. This model
   * assumes the intended left-to-right reading: the lanes are bytes 0, 1, 2
   * and 3 of `n`, obtained by successive shifts.
   */
  function ByteTableCount(table: seq<u32>, n: u32): (r: u32)
    requires IsCountTable(table, 256)
    ensures r == PopCount(n)
  {
    var n1 := Shr(n, 8);
    var n2 := Shr(n1, 8);
    var n3 := Shr(n2, 8);
    var i0, i1, i2, i3 := BitAnd(n, 0xFF), BitAnd(n1, 0xFF), BitAnd(n2, 0xFF), BitAnd(n3, 0xFF);
    ByteLanes(n);
    PopCountU32(n);
    Add32(Add32(Add32(table[i0], table[i1]), table[i2]), table[i3])
  }

  /** The four byte lanes are table indices, and their counts add up to the count of `n`. */
  lemma ByteLanes(n: u32)
    ensures var n1 := Shr(n, 8); var n2 := Shr(n1, 8); var n3 := Shr(n2, 8);
      && BitAnd(n, 0xFF) < 256 && BitAnd(n1, 0xFF) < 256
      && BitAnd(n2, 0xFF) < 256 && BitAnd(n3, 0xFF) < 256
      && PopCount(n) == PopCount(BitAnd(n, 0xFF)) + PopCount(BitAnd(n1, 0xFF))
                        + PopCount(BitAnd(n2, 0xFF)) + PopCount(BitAnd(n3, 0xFF))
  {
    Pow2Values();
    var n1 := Shr(n, 8);
    var n2 := Shr(n1, 8);
    var n3 := Shr(n2, 8);
    LaneSplit(n, 8);
    LaneSplit(n1, 8);
    LaneSplit(n2, 8);
    ShrShr(n, 8, 8);
    ShrShr(n, 16, 8);
    ShrBound(n, 24, 8);
    BitAndLowMask(n3, 8);
    LowBitsOfSmall(n3, 8);
  }

  /**
   * Splitting at bit `k`: `x & (2^k - 1)` is an index below 2^k, and the
   * count of `x` is its count plus that of `x >> k`.
   */
  lemma LaneSplit(x: nat, k: nat)
    ensures BitAnd(x, Pow2(k) - 1) < Pow2(k)
    ensures PopCount(x) == PopCount(BitAnd(x, Pow2(k) - 1)) + PopCount(Shr(x, k))
  {
    BitAndLowMask(x, k);
    LowBitsBound(x, k);
    PopCountSplit(x, k);
  }

  // ---------------------------------------------------------------------------
  // ElevenBitsTableSolution

  /** Two 11-bit lanes and one 10-bit lane, looked up in a 2048-entry count table. */
  function ElevenBitsTableCount(table: seq<u32>, n: u32): (r: u32)
    requires IsCountTable(table, 2048)
    ensures r == PopCount(n)
  {
    var i0, i1, i2 := BitAnd(n, 0x7FF), BitAnd(Shr(n, 11), 0x7FF), Shr(n, 22);
    ElevenBitsLanes(n);
    PopCountU32(n);
    Add32(Add32(table[i0], table[i1]), table[i2])
  }

  /** The three lanes are table indices, and their counts add up to the count of `n`. */
  lemma ElevenBitsLanes(n: u32)
    ensures var i0, i1, i2 := BitAnd(n, 0x7FF), BitAnd(Shr(n, 11), 0x7FF), Shr(n, 22);
      && i0 < 2048 && i1 < 2048 && i2 < 1024
      && PopCount(n) == PopCount(i0) + PopCount(i1) + PopCount(i2)
  {
    Pow2Values();
    LaneSplit(n, 11);
    LaneSplit(Shr(n, 11), 11);
    ShrShr(n, 11, 11);
    ShrBound(n, 22, 10);
  }

  // ---------------------------------------------------------------------------
  // WordsTableSolution

  /** Two 16-bit lanes, looked up in a 65536-entry count table. */
  function WordsTableCount(table: seq<u32>, n: u32): (r: u32)
    requires IsCountTable(table, 65536)
    ensures r == PopCount(n)
  {
    var i0, i1 := BitAnd(n, 0xFFFF), Shr(n, 16);
    WordsLanes(n);
    PopCountU32(n);
    Add32(table[i0], table[i1])
  }

  /** The two halves are table indices, and their counts add up to the count of `n`. */
  lemma WordsLanes(n: u32)
    ensures var i0, i1 := BitAnd(n, 0xFFFF), Shr(n, 16);
      && i0 < 65536 && i1 < 65536
      && PopCount(n) == PopCount(i0) + PopCount(i1)
  {
    Pow2Values();
    LaneSplit(n, 16);
    ShrBound(n, 16, 16);
  }

  // ---------------------------------------------------------------------------
  // FullTableSolution

  /** `1l << 32` entries, one per uint32_t value. */
  const FullTableSize: nat := 0x1_0000_0000
  /** The number of workers the fill is split between. */
  const WorkerCount: nat := 4
  /** The size of one worker's range. */
  const Batch: nat := FullTableSize / WorkerCount

  /** Worker `w` fills the indices from `w * Batch` up to, not including, `(w + 1) * Batch`. */
  function WorkerStart(w: nat): nat { w * Batch }
  function WorkerFinish(w: nat): nat { (w + 1) * Batch }

  /**
   * The workers' ranges partition the table: every index lies in the range
   * of one worker, and of no other.
   */
  lemma WorkerRangesPartition(i: nat)
    requires i < FullTableSize
    ensures i / Batch < WorkerCount
    ensures forall w :: 0 <= w < WorkerCount ==>
      (WorkerStart(w) <= i < WorkerFinish(w) <==> w == i / Batch)
  {
    assert Batch == 0x4000_0000;
  }

  /** Every entry of `table` from `lo` up to, not including, `hi` holds the count of its index. */
  ghost predicate Filled(table: array<u32>, lo: nat, hi: nat)
    reads table
  {
    forall i :: lo <= i < hi && i < table.Length ==> table[i] == PopCount(i)
  }

  /**
   * One worker: fills its range of the table, in index order, from the
   * eleven-bit strategy, and writes nothing outside that range.
   */
  method FillRange(table: array<u32>, eleven: seq<u32>, start: nat, finish: nat)
    requires IsCountTable(eleven, 2048)
    requires start <= finish <= table.Length <= FullTableSize
    modifies table
    ensures Filled(table, start, finish)
    ensures forall i :: 0 <= i < table.Length && !(start <= i < finish) ==> table[i] == old(table[i])
  {
    for ii := start to finish
      invariant Filled(table, start, ii)
      invariant forall i :: 0 <= i < table.Length && !(start <= i < ii) ==> table[i] == old(table[i])
    {
      table[ii] := ElevenBitsTableCount(eleven, ii);
    }
  }

  /**
   * Builds the full table, one entry per uint32_t value. The source hands
   * the four worker ranges to concurrent tasks; here the workers run one
   * after the other.
   */
  method CountFullTable(eleven: seq<u32>) returns (table: array<u32>)
    requires IsCountTable(eleven, 2048)
    ensures fresh(table) && table.Length == FullTableSize
    ensures Filled(table, 0, FullTableSize)
  {
    table := new u32[FullTableSize];
    for w := 0 to WorkerCount
      invariant Filled(table, 0, WorkerStart(w))
    {
      var start, finish := WorkerStart(w), WorkerFinish(w);
      assert start <= finish <= FullTableSize && finish == WorkerStart(w + 1) by {
        assert Batch == 0x4000_0000;
      }
      FillRange(table, eleven, start, finish);
      assert Filled(table, 0, finish);
    }
    assert WorkerStart(WorkerCount) == FullTableSize;
  }

  /**
   * The full-table strategy with its table cached on first use (the
   * function-local static of `GetTable`). `table` is null until then, and
   * the ghost `builds` counts how often the table has been built.
   */
  class FullTableSolution {
    /** ElevenBitsTableSolution's table, from which the entries are computed. */
    const eleven: seq<u32>
    var table: array?<u32>
    ghost var builds: nat

    ghost predicate Valid()
      reads this, table
    {
      && IsCountTable(eleven, 2048)
      && builds <= 1
      && (table == null <==> builds == 0)
      && (table != null ==>
            table.Length == FullTableSize && Filled(table, 0, FullTableSize))
    }

    constructor ()
      ensures Valid() && table == null && builds == 0
    {
      var t := CountTable(2048);
      CountTableIsCountTable(t, 2048);
      eleven := t;
      table := null;
      builds := 0;
    }

    /** Builds the table on the first call and returns the same table on every later call. */
    method GetTable() returns (t: array<u32>)
      requires Valid()
      modifies this
      ensures Valid() && t == table && builds == 1
      ensures t.Length == FullTableSize
      ensures Filled(t, 0, FullTableSize)
      ensures old(table) != null ==> t == old(table)
    {
      if table == null {
        t := CountFullTable(eleven);
        table := t;
        builds := builds + 1;
      }
      t := table;
    }

    /** One lookup in the full table. */
    method Count(n: u32) returns (r: u32)
      requires Valid()
      modifies this
      ensures Valid() && builds == 1
      ensures old(table) != null ==> table == old(table)
      ensures r == PopCount(n)
    {
      var t := GetTable();
      r := t[n];
    }
  }

  // ---------------------------------------------------------------------------
  // BM_CountCheck

  /** The check either passes or throws `std::runtime_error("test")`. */
  datatype Outcome = Pass | Fail(message: string)

  /**
   * The self-check's test: the number of results equal to the reference
   * count (`std::count`) is the number of results exactly when every
   * result equals it.
   */
  function Agrees(etalon: u32, ress: seq<u32>): (b: bool)
    ensures b <==> forall i :: 0 <= i < |ress| ==> ress[i] == etalon
  {
    Occurrences(etalon, ress);
    multiset(ress)[etalon] == |ress|
  }

  /**
   * A value occurs in a sequence at most as often as the sequence is long,
   * and exactly that often only when it is every element.
   */
  lemma {:induction false} Occurrences(e: u32, s: seq<u32>)
    ensures multiset(s)[e] <= |s|
    ensures multiset(s)[e] == |s| <==> forall i :: 0 <= i < |s| ==> s[i] == e
    decreases |s|
  {
    if s != [] {
      var rest := s[1..];
      assert s == [s[0]] + rest;
      assert multiset(s) == multiset{s[0]} + multiset(rest);
      Occurrences(e, rest);
      if forall i :: 0 <= i < |s| ==> s[i] == e {
        assert forall i :: 0 <= i < |rest| ==> rest[i] == s[i + 1];
      }
      if multiset(s)[e] == |s| {
        assert s[0] == e && multiset(rest)[e] == |rest|;
        forall i | 0 <= i < |s|
          ensures s[i] == e
        {
          if i > 0 {
            assert s[i] == rest[i - 1];
          }
        }
      }
    }
  }

  /**
   * Compares, for every input, the reference count with every other
   * strategy, and fails on the first disagreement. It never fails.
   */
  method CountCheck(nums: seq<u32>) returns (outcome: Outcome)
    ensures outcome == Pass
  {
    var byteTable := CountTable(256);
    CountTableIsCountTable(byteTable, 256);
    var elevenTable := CountTable(2048);
    CountTableIsCountTable(elevenTable, 2048);
    var wordsTable := CountTable(65536);
    CountTableIsCountTable(wordsTable, 65536);
    var full := new FullTableSolution();
    for k := 0 to |nums|
      invariant full.Valid()
    {
      var num := nums[k];
      var etalon := ReferenceCount(num);
      var fullCount := full.Count(num);
      var ress: seq<u32> := [
        PopCount(num),
        ByteTableCount(byteTable, num),
        ElevenBitsTableCount(elevenTable, num),
        WordsTableCount(wordsTable, num),
        fullCount
      ];
      if !Agrees(etalon, ress) {
        return Fail("test");
      }
    }
    return Pass;
  }
}
