/** How a flash block is divided: a header, a table of entries and equal partitions, measured in
    sub-blocks of 16 bytes. */
module RecordLayout {
  import opened Arithmetic

  const BLK_SIZE: nat := 2048
  const SUB_BLK_SIZE: nat := 16
  const SUB_BLK_DATA_SIZE: nat := 14
  const MAX_SUB_BLOCKS: nat := BLK_SIZE / SUB_BLK_SIZE
  const HEADER_BYTES: nat := 8
  const ENTRY_BYTES: nat := 6

  const INVALID_PART_SIZE: nat := 0xffff
  const PART_SIZES: seq<nat> := [1, 2, 3, 4, 6, 7, 12, 15, 31, 63, 127]

  function SubBlocksForBytes(bytes: nat): nat {
    (bytes + SUB_BLK_SIZE - 1) / SUB_BLK_SIZE
  }

  /** Sub-blocks a record of `sz` data bytes takes; each carries 14 of them. */
  function SubBlocksForData(sz: nat): nat {
    (sz + SUB_BLK_DATA_SIZE - 1) / SUB_BLK_DATA_SIZE
  }

  function HeaderSize(partCount: nat): nat {
    SubBlocksForBytes(HEADER_BYTES + ENTRY_BYTES * partCount)
  }

  /** The header takes the fewest sub-blocks of 16 bytes that hold 8 bytes and 6 for each entry. */
  lemma HeaderIsTight(n: nat)
    ensures 16 * (HeaderSize(n) - 1) < 8 + 6 * n <= 16 * HeaderSize(n)
  {
  }

  /** A record takes the fewest sub-blocks that hold its bytes, 14 in each. */
  lemma DataIsTight(sz: nat)
    ensures 14 * SubBlocksForData(sz) < sz + 14 && sz <= 14 * SubBlocksForData(sz)
  {
  }

  /** A block of `subBlocks` can hold `n` partitions of `partSize` sub-blocks beside its table. */
  predicate Fits(subBlocks: nat, partSize: nat, n: nat) {
    HeaderSize(n) + n * partSize <= subBlocks
  }

  function CountDown(subBlocks: nat, partSize: nat, n: nat): nat
    decreases n
  {
    if n > 0 && !Fits(subBlocks, partSize, n) then CountDown(subBlocks, partSize, n - 1) else n
  }

  function CountFor(subBlocks: nat, partSize: nat): nat
    requires partSize > 0
  {
    CountDown(subBlocks, partSize, subBlocks / partSize)
  }

  /** The count at the block size of the older hardware. */
  function PartCount(partSize: nat): nat
    requires partSize > 0
  {
    CountFor(MAX_SUB_BLOCKS, partSize)
  }

  /** get_part_count, the same loop in both generations. */
  method GetPartCount(subBlocks: nat, partSize: nat) returns (count: nat)
    requires partSize > 0
    ensures count == CountFor(subBlocks, partSize)
  {
    count := subBlocks / partSize;
    while count > 0 && HeaderSize(count) + count * partSize > subBlocks
      invariant CountDown(subBlocks, partSize, count) == CountFor(subBlocks, partSize)
    {
      count := count - 1;
    }
  }

  lemma FewerFit(subBlocks: nat, partSize: nat, n: nat, m: nat)
    requires Fits(subBlocks, partSize, n) && m <= n
    ensures Fits(subBlocks, partSize, m)
  {
    assert m * partSize <= n * partSize;
  }

  lemma {:induction false} CountDownIsLargest(subBlocks: nat, partSize: nat, from: nat, n: nat)
    requires n <= from && subBlocks > 0
    ensures CountDown(subBlocks, partSize, from) <= from
    ensures Fits(subBlocks, partSize, n) <==> n <= CountDown(subBlocks, partSize, from)
    decreases from
  {
    if from > 0 && !Fits(subBlocks, partSize, from) {
      if n < from {
        CountDownIsLargest(subBlocks, partSize, from - 1, n);
      } else {
        CountDownIsLargest(subBlocks, partSize, from - 1, 0);
      }
    } else if Fits(subBlocks, partSize, from) {
      FewerFit(subBlocks, partSize, from, n);
    }
  }

  /** The count is the largest that fits: every smaller number fits and every larger one does not. */
  lemma CountIsLargest(subBlocks: nat, partSize: nat, n: nat)
    requires partSize > 0 && subBlocks > 0
    ensures Fits(subBlocks, partSize, n) <==> n <= CountFor(subBlocks, partSize)
  {
    var from := subBlocks / partSize;
    if n <= from {
      CountDownIsLargest(subBlocks, partSize, from, n);
    } else {
      CountDownIsLargest(subBlocks, partSize, from, 0);
      TooManyOverflow(subBlocks, partSize, n);
    }
  }

  /** The same in bytes: n partitions are within the count exactly when there is room for them behind some header
      that holds n entries. */
  lemma CountFitsInBytes(subBlocks: nat, partSize: nat, n: nat)
    requires partSize > 0 && subBlocks > 0
    ensures n <= CountFor(subBlocks, partSize) <==> exists h: nat :: HoldsTable(h, n) && h + n * partSize <= subBlocks
  {
    hide CountFor, HeaderSize;
    CountIsLargest(subBlocks, partSize, n);
    HeaderIsTight(n);
    assert HoldsTable(HeaderSize(n), n);
  }

  predicate HoldsTable(h: nat, n: nat) {
    8 + 6 * n <= 16 * h
  }

  /** The first partition lies behind the smallest header that holds the table. */
  lemma FirstPartition(subBlocks: nat, partSize: nat)
    requires partSize > 0
    ensures var h, n := PartStart(subBlocks, partSize, 0), CountFor(subBlocks, partSize);
      HoldsTable(h, n) && forall k: nat :: HoldsTable(k, n) ==> h <= k
  {
    hide CountFor, HeaderSize;
    HeaderIsTight(CountFor(subBlocks, partSize));
  }

  lemma TooManyOverflow(subBlocks: nat, partSize: nat, n: nat)
    requires partSize > 0 && n > subBlocks / partSize
    ensures !Fits(subBlocks, partSize, n)
  {
    var q := subBlocks / partSize;
    assert subBlocks < (q + 1) * partSize;
    assert (q + 1) * partSize <= n * partSize;
  }

  /** First sub-block of the n-th partition (get_part). */
  function PartStart(subBlocks: nat, partSize: nat, n: nat): nat
    requires partSize > 0
  {
    HeaderSize(CountFor(subBlocks, partSize)) + partSize * n
  }

  /** Partitions lie inside the block, clear of the table, and apart from each other. */
  lemma PartitionsApart(subBlocks: nat, partSize: nat, j: nat, k: nat)
    requires partSize > 0 && subBlocks > 0 && j < k < CountFor(subBlocks, partSize)
    ensures HEADER_BYTES + ENTRY_BYTES * CountFor(subBlocks, partSize)
         <= SUB_BLK_SIZE * PartStart(subBlocks, partSize, j)
    ensures PartStart(subBlocks, partSize, j) + partSize <= PartStart(subBlocks, partSize, k)
    ensures PartStart(subBlocks, partSize, k) + partSize <= subBlocks
  {
    hide CountFor;
    var c := CountFor(subBlocks, partSize);
    CountIsLargest(subBlocks, partSize, c);
    MultiplesApart(partSize, j, k);
    MultiplesApart(partSize, k, c);
    MultiplesApart(partSize, 0, k);
  }

  predicate RealPartSize(partSize: nat) {
    partSize in PART_SIZES
  }

  lemma RealPartSizesHold(partSize: nat)
    requires RealPartSize(partSize)
    ensures 1 <= partSize <= 127 && 1 <= PartCount(partSize) <= 255
  {
    CountIsLargest(MAX_SUB_BLOCKS, partSize, 1);
    CountIsLargest(MAX_SUB_BLOCKS, partSize, 256);
  }

  /** The first listed size that is at least `n`, or 0. */
  function SizeAtLeast(n: nat, from: nat): nat
    decreases |PART_SIZES| - from
  {
    if from >= |PART_SIZES| then 0 else if PART_SIZES[from] >= n then PART_SIZES[from] else SizeAtLeast(n, from + 1)
  }

  function TargetSize(sz: nat): nat {
    SizeAtLeast(SubBlocksForData(sz), 0)
  }

  method TargetPartSize(dataBytes: nat) returns (size: nat)
    ensures size == TargetSize(dataBytes)
  {
    var minPartSize := SubBlocksForData(dataBytes);
    var i := 0;
    while i < |PART_SIZES|
      invariant i <= |PART_SIZES|
      invariant SizeAtLeast(minPartSize, i) == TargetSize(dataBytes)
    {
      if PART_SIZES[i] >= minPartSize {
        return PART_SIZES[i];
      }
      i := i + 1;
    }
    return 0;
  }

  lemma {:induction false} SizeAtLeastIsLeast(n: nat, from: nat)
    requires from <= |PART_SIZES|
    ensures var s := SizeAtLeast(n, from);
      if s == 0 then forall k :: from <= k < |PART_SIZES| ==> PART_SIZES[k] < n
      else RealPartSize(s) && s >= n && forall k :: from <= k < |PART_SIZES| && PART_SIZES[k] >= n ==>
          s <= PART_SIZES[k]
    decreases |PART_SIZES| - from
  {
    if from < |PART_SIZES| && PART_SIZES[from] < n {
      SizeAtLeastIsLeast(n, from + 1);
    } else if from < |PART_SIZES| {
      assert PART_SIZES[from] in PART_SIZES;
    }
  }

  /** The target is the smallest partition size that holds the record, and 0 exactly when none does. */
  lemma TargetIsTightest(sz: nat)
    ensures TargetSize(sz) == 0 <==> SubBlocksForData(sz) > 127
    ensures TargetSize(sz) != 0 ==> RealPartSize(TargetSize(sz)) && TargetSize(sz) >= SubBlocksForData(sz)
    ensures forall p: nat :: RealPartSize(p) && p >= SubBlocksForData(sz) ==> 0 < TargetSize(sz) <= p
  {
    SizeAtLeastIsLeast(SubBlocksForData(sz), 0);
    assert PART_SIZES[10] == 127;
    forall p: nat | RealPartSize(p) && p >= SubBlocksForData(sz)
      ensures 0 < TargetSize(sz) <= p
    {
      var k :| 0 <= k < |PART_SIZES| && PART_SIZES[k] == p;
    }
  }

  /** The size of partition for each size of record, in bytes. */
  lemma TargetTable(sz: nat)
    ensures TargetSize(sz) ==
      if sz <= 14 then 1
      else if sz <= 28 then 2
      else if sz <= 42 then 3
      else if sz <= 56 then 4
      else if sz <= 84 then 6
      else if sz <= 98 then 7
      else if sz <= 168 then 12
      else if sz <= 210 then 15
      else if sz <= 434 then 31
      else if sz <= 882 then 63
      else if sz <= 1778 then 127
      else 0
  {
    var n := SubBlocksForData(sz);
    DataIsTight(sz);
    hide SubBlocksForData;
    TargetTableFrom(n);
  }

  lemma TargetTableFrom(n: nat)
    ensures SizeAtLeast(n, 0) ==
      if n <= 1 then 1 else if n <= 2 then 2 else if n <= 3 then 3 else if n <= 4 then 4 else if n <= 6 then 6
      else if n <= 7 then 7 else if n <= 12 then 12 else if n <= 15 then 15 else if n <= 31 then 31
      else if n <= 63 then 63 else if n <= 127 then 127 else 0
  {
    assert PART_SIZES == [1, 2, 3, 4, 6, 7, 12, 15, 31, 63, 127];
    assert SizeAtLeast(n, 10) == if n <= 127 then 127 else 0;
    assert SizeAtLeast(n, 8) == if n <= 31 then 31 else if n <= 63 then 63 else SizeAtLeast(n, 10);
    assert SizeAtLeast(n, 6) == if n <= 12 then 12 else if n <= 15 then 15 else SizeAtLeast(n, 8);
    assert SizeAtLeast(n, 4) == if n <= 6 then 6 else if n <= 7 then 7 else SizeAtLeast(n, 6);
    assert SizeAtLeast(n, 2) == if n <= 3 then 3 else if n <= 4 then 4 else SizeAtLeast(n, 4);
  }
}
