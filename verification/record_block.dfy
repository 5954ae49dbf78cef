/** One flash block as a small table of records: the entry table, the partitions, appending a record and
    removing one by moving the last one into its place. */
module RecordBlock {
  import opened RecordLayout
  import opened Cbc

  const INVALID_BLOCK: nat := 0
  const INVALID_CRC: int := 0xffffffff
  const MIN_UID: nat := 1
  const MAX_UID: nat := 4095

  type Part = seq<Cbc.Block>

  datatype Entry = Entry(uid: nat, rev: nat, first: bool, sz: nat, blkNext: nat)

  datatype DataBlock = DataBlock(crc: int, partSize: nat, occupancy: nat, tbl: seq<Entry>, parts: seq<Part>)
  {
    predicate Free() {
      partSize == INVALID_PART_SIZE
    }

    /** The table and the partitions have the shape the partition size gives them. */
    ghost predicate Formed() {
      && RealPartSize(partSize)
      && |tbl| == |parts| == PartCount(partSize)
      && occupancy <= |tbl|
      && (forall j :: 0 <= j < |parts| ==> |parts[j]| == partSize)
      && (forall j :: 0 <= j < occupancy ==> GoodEntry(tbl[j], partSize))
    }
  }

  ghost predicate GoodEntry(e: Entry, partSize: nat) {
    MIN_UID <= e.uid <= MAX_UID && e.rev < 4 && e.first && SubBlocksForData(e.sz) <= partSize
  }

  /** A record as stored: its size, its revision and its ciphertext. */
  datatype Stored = Stored(sz: nat, rev: nat, sealed: seq<Cbc.Block>)

  function StoredAt(b: DataBlock, j: nat): Stored
    requires j < |b.tbl| && j < |b.parts| && SubBlocksForData(b.tbl[j].sz) <= |b.parts[j]|
  {
    Stored(b.tbl[j].sz, b.tbl[j].rev, b.parts[j][..SubBlocksForData(b.tbl[j].sz)])
  }

  /** The search of find_uid: the first entry for `uid` among the first n, or n. */
  function IndexOf(tbl: seq<Entry>, uid: nat, n: nat): (j: nat)
    requires n <= |tbl|
    ensures j <= n
    ensures j < n ==> tbl[j].uid == uid
    ensures forall k :: 0 <= k < j ==> tbl[k].uid != uid
  {
    if n == 0 then 0
    else
      var j := IndexOf(tbl, uid, n - 1);
      if j < n - 1 then j else if tbl[n - 1].uid == uid then n - 1 else n
  }

  ghost predicate Holds(b: DataBlock, uid: nat)
    requires b.Formed()
  {
    IndexOf(b.tbl, uid, b.occupancy) < b.occupancy
  }

  ghost function RecordOf(b: DataBlock, uid: nat): Stored
    requires b.Formed() && Holds(b, uid)
  {
    StoredAt(b, IndexOf(b.tbl, uid, b.occupancy))
  }

  /** No two entries for one uid. */
  ghost predicate Distinct(b: DataBlock)
    requires b.Formed()
  {
    forall j, k :: 0 <= j < k < b.occupancy ==> b.tbl[j].uid != b.tbl[k].uid
  }

  /** With distinct uids the search finds the only entry there is. */
  lemma OnlyEntry(b: DataBlock, uid: nat, j: nat)
    requires b.Formed() && Distinct(b) && j < b.occupancy && b.tbl[j].uid == uid
    ensures IndexOf(b.tbl, uid, b.occupancy) == j
  {
  }

  // ----- a fresh block, a freed block -----

  function EmptyPart(n: nat): (p: Part)
    ensures |p| == n
  {
    seq(n, _ => ZERO_BLOCK)
  }

  function InitializedBlock(partSize: nat): DataBlock
    requires partSize > 0
  {
    DataBlock(0, partSize, 0, seq(PartCount(partSize), _ => Entry(0, 0, false, 0, 0)),
        seq(PartCount(partSize), _ => EmptyPart(partSize)))
  }

  /** Freeing only marks the header; the rest of the buffer is whatever it was. */
  function FreedBlock(temp: DataBlock): DataBlock {
    temp.(crc := INVALID_CRC, partSize := INVALID_PART_SIZE, occupancy := 0)
  }

  lemma InitializedIsEmpty(partSize: nat, uid: nat)
    requires RealPartSize(partSize)
    ensures InitializedBlock(partSize).Formed() && Distinct(InitializedBlock(partSize))
    ensures !Holds(InitializedBlock(partSize), uid)
  {
    RealPartSizesHold(partSize);
    hide PartCount;
  }

  // ----- removing a record -----

  /** deallocate_uid's work on the copy of a block that keeps other records (or is to be refilled). */
  function Removed(b: DataBlock, index: nat): DataBlock
    requires index < b.occupancy <= |b.tbl| == |b.parts|
  {
    var last := b.occupancy - 1;
    if last == 0 then b.(occupancy := last)
    else b.(occupancy := last, parts := b.parts[index := b.parts[last]], tbl := b.tbl[index := b.tbl[last]])
  }

  lemma RemovedIsFormed(b: DataBlock, index: nat)
    requires b.Formed() && Distinct(b) && index < b.occupancy
    ensures Removed(b, index).Formed() && Distinct(Removed(b, index))
  {
    hide PartCount;
  }

  lemma RemovedKeepsShape(b: DataBlock, index: nat)
    requires b.Formed() && index < b.occupancy
    ensures Removed(b, index).Formed()
  {
    hide PartCount;
  }

  /** Swap-with-last removes exactly the one record. */
  lemma RemovedKeepsOthers(b: DataBlock, index: nat, uid: nat)
    requires b.Formed() && Distinct(b) && index < b.occupancy
    ensures Removed(b, index).Formed()
    ensures Holds(Removed(b, index), uid) <==> Holds(b, uid) && uid != b.tbl[index].uid
    ensures Holds(Removed(b, index), uid) ==> RecordOf(Removed(b, index), uid) == RecordOf(b, uid)
  {
    RemovedIsFormed(b, index);
    hide PartCount;
    var r := Removed(b, index);
    if uid == b.tbl[index].uid {
      OnlyEntry(b, uid, index);
    } else if Holds(b, uid) {
      var j := IndexOf(b.tbl, uid, b.occupancy);
      var k := if j == b.occupancy - 1 then index else j;
      assert r.tbl[k].uid == uid;
      OnlyEntry(r, uid, k);
    } else {
      assert forall k :: 0 <= k < r.occupancy ==> r.tbl[k].uid != uid;
    }
  }

  // ----- adding a record -----

  /** allocate_uid_blk: the next entry and the front of the next partition. */
  function Appended(b: DataBlock, uid: nat, sz: nat, rev: nat, sealed: seq<Cbc.Block>): DataBlock
    requires b.occupancy < |b.tbl| == |b.parts| && |sealed| <= |b.parts[b.occupancy]|
  {
    var n := b.occupancy;
    b.(occupancy := n + 1,
       tbl := b.tbl[n := Entry(uid, rev, true, sz, INVALID_BLOCK)],
       parts := b.parts[n := sealed + b.parts[n][|sealed|..]])
  }

  lemma AppendedIsFormed(b: DataBlock, uid: nat, sz: nat, rev: nat, sealed: seq<Cbc.Block>)
    requires b.Formed() && b.occupancy < PartCount(b.partSize) && |sealed| == SubBlocksForData(sz) <= b.partSize
    requires MIN_UID <= uid <= MAX_UID && rev < 4
    ensures Appended(b, uid, sz, rev, sealed).Formed()
    ensures Distinct(b) && !Holds(b, uid) ==> Distinct(Appended(b, uid, sz, rev, sealed))
  {
    hide PartCount;
  }

  /** Appending adds a record for a uid the block did not hold. A uid it did hold keeps its OLD record:
      the search stops at the first entry. */
  lemma AppendedRecords(b: DataBlock, uid: nat, sz: nat, rev: nat, sealed: seq<Cbc.Block>, other: nat)
    requires b.Formed() && b.occupancy < PartCount(b.partSize) && |sealed| == SubBlocksForData(sz) <= b.partSize
    requires MIN_UID <= uid <= MAX_UID && rev < 4
    ensures var a := Appended(b, uid, sz, rev, sealed);
      && a.Formed()
      && (Holds(a, other) <==> Holds(b, other) || other == uid)
      && (Holds(b, other) ==> RecordOf(a, other) == RecordOf(b, other))
      && (!Holds(b, uid) ==> Holds(a, uid) && RecordOf(a, uid) == Stored(sz, rev, sealed))
  {
    AppendedIsFormed(b, uid, sz, rev, sealed);
    hide PartCount;
    var a := Appended(b, uid, sz, rev, sealed);
    SearchPrefix(b.tbl, a.tbl, other, b.occupancy);
    SearchPrefix(b.tbl, a.tbl, uid, b.occupancy);
    assert a.parts[b.occupancy][..|sealed|] == sealed;
  }

  lemma {:induction false} SearchPrefix(s: seq<Entry>, t: seq<Entry>, uid: nat, n: nat)
    requires n <= |s| == |t| && s[..n] == t[..n]
    ensures IndexOf(s, uid, n) == IndexOf(t, uid, n)
  {
    if n > 0 {
      assert s[..n - 1] == s[..n][..n - 1] == t[..n - 1];
      SearchPrefix(s, t, uid, n - 1);
      assert s[n - 1] == s[..n][n - 1] == t[n - 1];
    }
  }
}
