/** What replacing one block of flash does to the logical contents. */
module RecordEffects {
  import opened RecordLayout
  import Cbc
  import opened RecordBlock
  import opened RecordStore

  ghost predicate GoodBlock<Key>(env: Env<Key>, b: DataBlock) {
    Live(env, b) ==> b.Formed() && Distinct(b)
  }

  /** The record a block holds for a uid. */
  ghost function BlockRecord<Key>(env: Env<Key>, b: DataBlock, uid: nat): Maybe<Stored>
    requires GoodBlock(env, b)
  {
    if Live(env, b) && Holds(b, uid) then Just(RecordOf(b, uid)) else Nothing
  }

  /** `after` holds what `before` held, except that for `uid` it holds `record`. */
  ghost predicate Changes<Key>(env: Env<Key>, before: DataBlock, after: DataBlock, uid: nat, record: Maybe<Stored>) {
    && GoodBlock(env, before)
    && GoodBlock(env, after)
    && BlockRecord(env, after, uid) == record
    && (forall u: nat :: u != uid ==> BlockRecord(env, after, u) == BlockRecord(env, before, u))
  }

  lemma SetBlock<Key>(env: Env<Key>, flash: seq<DataBlock>, b: nat, after: DataBlock, u: nat)
    requires FormedFlash(env, flash) && DataIndex(b) && GoodBlock(env, after)
    ensures GoodBlock(env, flash[b])
    ensures var g := flash[b := after];
      && FormedFlash(env, g)
      && (forall i: nat :: i != b ==> SameAt(env, flash, g, u, i))
      && (HoldsAt(env, g, u, b) <==> BlockRecord(env, after, u).Just?)
      && (HoldsAt(env, flash, u, b) <==> BlockRecord(env, flash[b], u).Just?)
      && (BlockRecord(env, after, u) == BlockRecord(env, flash[b], u) ==> SameAt(env, flash, g, u, b))
  {
    hide Live, Holds, RecordOf;
  }

  /** All uids but one keep their logical record and their number of holders. */
  lemma OthersKeep<Key>(env: Env<Key>, flash: seq<DataBlock>, b: nat, after: DataBlock, uid: nat,
      record: Maybe<Stored>, u: nat)
    requires FormedFlash(env, flash) && DataIndex(b) && Changes(env, flash[b], after, uid, record) && u != uid
    ensures var g := flash[b := after];
      && FormedFlash(env, g)
      && Logical(env, g, u) == Logical(env, flash, u)
      && Winner(env, g, u, NUM_BLOCKS) == Winner(env, flash, u, NUM_BLOCKS)
      && (AtMostOne(env, flash, u) <==> AtMostOne(env, g, u))
  {
    hide Live, Holds, RecordOf, HoldsAt, Logical, Winner, AtMostOne, BlockRecord;
    SetBlock(env, flash, b, after, u);
    var g := flash[b := after];
    forall i: nat ensures SameAt(env, flash, g, u, i) {
    }
    SameLogical(env, flash, g, u);
  }

  /** Storing a record where no other block holds the uid. */
  lemma PutRecord<Key>(env: Env<Key>, flash: seq<DataBlock>, b: nat, after: DataBlock, uid: nat, record: Stored)
    requires Clean(env, flash) && DataIndex(b) && Changes(env, flash[b], after, uid, Just(record))
    requires forall i: nat :: HoldsAt(env, flash, uid, i) ==> i == b
    ensures var g := flash[b := after];
      && Clean(env, g)
      && Winner(env, g, uid, NUM_BLOCKS) == b
      && Logical(env, g, uid) == Just(record)
  {
    hide Live, Holds, RecordOf, Logical, Winner, HoldsAt;
    var g := flash[b := after];
    SetBlock(env, flash, b, after, uid);
    forall i: nat | HoldsAt(env, g, uid, i) ensures i == b {
      assert i != b ==> SameAt(env, flash, g, uid, i);
    }
    OnlyOneChanged(env, flash, b, after, uid, Just(record));
    assert RecordOf(after, uid) == record;
    LogicalOfHolder(env, g, uid, b);
  }

  lemma OnlyOneChanged<Key>(env: Env<Key>, flash: seq<DataBlock>, b: nat, after: DataBlock, uid: nat,
      record: Maybe<Stored>)
    requires FormedFlash(env, flash) && DataIndex(b) && Changes(env, flash[b], after, uid, record)
    requires forall u: nat :: u != uid ==> AtMostOne(env, flash, u)
    ensures var g := flash[b := after];
      FormedFlash(env, g) && forall u: nat :: u != uid ==> AtMostOne(env, g, u)
  {
    hide Live, Holds, RecordOf, HoldsAt, Logical, Winner, AtMostOne, BlockRecord;
    SetBlock(env, flash, b, after, uid);
    var g := flash[b := after];
    forall u: nat | u != uid ensures AtMostOne(env, g, u) {
      OthersKeep(env, flash, b, after, uid, record, u);
    }
  }

  /** Removing the only record of a uid. */
  lemma DropRecord<Key>(env: Env<Key>, flash: seq<DataBlock>, b: nat, after: DataBlock, uid: nat)
    requires Clean(env, flash) && DataIndex(b) && Changes(env, flash[b], after, uid, Nothing)
    requires forall i: nat :: HoldsAt(env, flash, uid, i) ==> i == b
    ensures var g := flash[b := after];
      && Clean(env, g)
      && Winner(env, g, uid, NUM_BLOCKS) == 0
      && Logical(env, g, uid) == Nothing
  {
    hide Live, Holds, RecordOf, Logical, Winner, HoldsAt;
    var g := flash[b := after];
    SetBlock(env, flash, b, after, uid);
    forall i: nat ensures !HoldsAt(env, g, uid, i) {
      assert i != b ==> SameAt(env, flash, g, uid, i);
    }
    OnlyOneChanged(env, flash, b, after, uid, Nothing);
    LogicalOfNone(env, g, uid);
  }

  /** The first write of a relocation: the newer copy wins at once. */
  lemma AddNewerCopy<Key>(env: Env<Key>, flash: seq<DataBlock>, a: nat, b: nat, after: DataBlock, uid: nat,
      record: Stored)
    requires Clean(env, flash) && DataIndex(b) && a != b && Changes(env, flash[b], after, uid, Just(record))
    requires HoldsAt(env, flash, uid, a) && record.rev == (RecordOf(flash[a], uid).rev + 1) % 4
    ensures var g := flash[b := after];
      && Interrupted(env, g, uid, a, b)
      && Logical(env, g, uid) == Just(record)
      && g[a] == flash[a]
  {
    hide Live, Holds, RecordOf, Logical, Winner, HoldsAt;
    var g := flash[b := after];
    SetBlock(env, flash, b, after, uid);
    HolderIsData(env, flash, uid, a);
    assert SameAt(env, flash, g, uid, a) && AtMostOne(env, flash, uid);
    forall i: nat | HoldsAt(env, g, uid, i) ensures i == a || i == b {
      assert i != b ==> SameAt(env, flash, g, uid, i);
    }
    OnlyOneChanged(env, flash, b, after, uid, Just(record));
    assert RecordOf(after, uid) == record;
    InterruptedLogical(env, g, uid, a, b);
  }

  lemma InterruptedLogical<Key>(env: Env<Key>, flash: seq<DataBlock>, uid: nat, a: nat, b: nat)
    requires Interrupted(env, flash, uid, a, b)
    ensures Winner(env, flash, uid, NUM_BLOCKS) == b && Logical(env, flash, uid) == Just(RecordOf(flash[b], uid))
  {
    hide RecordOf, Live, Holds;
    WinnerOfPair(env, flash, uid, a, b, NUM_BLOCKS);
  }

  /** Removing the older of two copies: nothing changes logically, and the flash is clean again. */
  lemma DropOlderCopy<Key>(env: Env<Key>, flash: seq<DataBlock>, a: nat, b: nat, after: DataBlock, uid: nat)
    requires Interrupted(env, flash, uid, a, b) && Changes(env, flash[a], after, uid, Nothing)
    ensures var g := flash[a := after];
      && Clean(env, g)
      && Winner(env, g, uid, NUM_BLOCKS) == b
      && Logical(env, g, uid) == Logical(env, flash, uid)
  {
    hide Live, Holds, RecordOf, Logical, Winner, HoldsAt;
    assert DataIndex(a) by { HolderIsData(env, flash, uid, a); }
    var g := flash[a := after];
    SetBlock(env, flash, a, after, uid);
    assert SameAt(env, flash, g, uid, b);
    forall i: nat | HoldsAt(env, g, uid, i) ensures i == b {
      assert i != a ==> SameAt(env, flash, g, uid, i);
    }
    OnlyOneChanged(env, flash, a, after, uid, Nothing);
    LogicalOfHolder(env, g, uid, b);
    InterruptedLogical(env, flash, uid, a, b);
  }

  lemma HolderIsData<Key>(env: Env<Key>, flash: seq<DataBlock>, uid: nat, i: nat)
    requires FormedFlash(env, flash) && HoldsAt(env, flash, uid, i)
    ensures DataIndex(i) && Live(env, flash[i]) && flash[i].Formed() && Distinct(flash[i]) && Holds(flash[i], uid)
  {
  }

  // ----- what the block operations change -----

  lemma LiveAfterCrc<Key>(env: Env<Key>, b: DataBlock)
    requires b.Formed()
    ensures Live(env, WithCrc(env, b)) && WithCrc(env, b).Formed()
    ensures Distinct(b) ==> Distinct(WithCrc(env, b))
    ensures forall u: nat :: Holds(WithCrc(env, b), u) <==> Holds(b, u)
    ensures forall u: nat :: Holds(b, u) ==> RecordOf(WithCrc(env, b), u) == RecordOf(b, u)
  {
    RealPartSizesHold(b.partSize);
    hide PartCount;
  }

  lemma AppendChanges<Key>(env: Env<Key>, b: DataBlock, base: DataBlock, uid: nat, sz: nat, rev: nat,
      sealed: seq<Cbc.Block>)
    requires b.Formed() && Distinct(b) && !Holds(b, uid) && b.occupancy < PartCount(b.partSize)
    requires |sealed| == SubBlocksForData(sz) <= b.partSize && MIN_UID <= uid <= MAX_UID && rev < 4
    requires GoodBlock(env, base)
    requires forall u: nat :: u != uid ==> BlockRecord(env, base, u) == if Holds(b, u) then Just(RecordOf(b, u))
        else Nothing
    ensures Changes(env, base, WithCrc(env, Appended(b, uid, sz, rev, sealed)), uid, Just(Stored(sz, rev, sealed)))
  {
    var a := Appended(b, uid, sz, rev, sealed);
    AppendedIsFormed(b, uid, sz, rev, sealed);
    LiveAfterCrc(env, a);
    hide RecordOf, Holds, Live, Appended, WithCrc;
    AppendedRecords(b, uid, sz, rev, sealed, uid);
    forall u: nat | u != uid
      ensures BlockRecord(env, WithCrc(env, a), u) == BlockRecord(env, base, u)
    {
      AppendedRecords(b, uid, sz, rev, sealed, u);
    }
  }

  lemma RemoveChanges<Key>(env: Env<Key>, b: DataBlock, index: nat)
    requires Live(env, b) && b.Formed() && Distinct(b) && index < b.occupancy
    ensures Changes(env, b, WithCrc(env, Removed(b, index)), b.tbl[index].uid, Nothing)
  {
    var a := Removed(b, index);
    RemovedIsFormed(b, index);
    LiveAfterCrc(env, a);
    var uid := b.tbl[index].uid;
    hide RecordOf, Holds, Live, Removed, WithCrc;
    RemovedKeepsOthers(b, index, uid);
    forall u: nat | u != uid
      ensures BlockRecord(env, WithCrc(env, a), u) == BlockRecord(env, b, u)
    {
      RemovedKeepsOthers(b, index, u);
    }
  }

  /** Freeing a block that held one record. */
  lemma FreeChanges<Key>(env: Env<Key>, b: DataBlock, temp: DataBlock)
    requires Live(env, b) && b.Formed() && Distinct(b) && b.occupancy == 1 && temp.Free()
    ensures Changes(env, b, temp, b.tbl[0].uid, Nothing)
  {
    hide PartCount;
  }
}
