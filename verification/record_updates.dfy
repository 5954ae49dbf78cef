/** An update command against a synchronized database: what it writes, and what that means for the records. */
module RecordUpdates {
  import opened RecordLayout
  import Cbc
  import opened RecordBlock
  import opened BlockChoice
  import opened RecordStore
  import opened RecordEffects

  // ----- what the tables say about the blocks -----

  /** Where a synchronized map points, find_uid finds the record, and no other block has one. */
  lemma MapPointsAtHolder<Key>(env: Env<Key>, db: Db, uid: nat)
    requires Synced(env, db) && MIN_UID <= uid <= MAX_UID
    ensures Searchable(db, uid)
    ensures var b := db.uidMap[uid];
      if Logical(env, db.flash, uid).Nothing? then
        b == INVALID_BLOCK && Found(db, uid) == Nothing && forall i: nat :: !HoldsAt(env, db.flash, uid, i)
      else
        && HoldsAt(env, db.flash, uid, b)
        && Found(db, uid) == Just((b, IndexOf(db.flash[b].tbl, uid, db.flash[b].occupancy)))
        && Logical(env, db.flash, uid) == Just(RecordOf(db.flash[b], uid))
        && forall i: nat :: HoldsAt(env, db.flash, uid, i) ==> i == b
  {
    hide PartCount, Winner, RecordOf, Live;
    var b := db.uidMap[uid];
    assert AtMostOne(env, db.flash, uid);
    if b == INVALID_BLOCK {
      forall i: nat ensures !HoldsAt(env, db.flash, uid, i) {
        NotHeldWhenNobodyWins(env, db.flash, uid, i);
      }
    } else {
      HolderIsData(env, db.flash, uid, b);
      InfoOfLive(env, db, b);
    }
  }

  lemma NotHeldWhenNobodyWins<Key>(env: Env<Key>, flash: seq<DataBlock>, uid: nat, i: nat)
    requires FormedFlash(env, flash) && AtMostOne(env, flash, uid) && Winner(env, flash, uid, NUM_BLOCKS) == 0
    ensures !HoldsAt(env, flash, uid, i)
  {
    hide Winner, Live, Holds;
    if HoldsAt(env, flash, uid, i) {
      LogicalOfHolder(env, flash, uid, i);
    }
  }

  lemma InfoOfLive<Key>(env: Env<Key>, db: Db, b: nat)
    requires Tables(env, db) && DataIndex(b) && Live(env, db.flash[b]) && db.flash[b].Formed()
    ensures var i := db.info[b];
      && i.valid && i.occupied
      && i.partSize == db.flash[b].partSize
      && i.partOccupancy == db.flash[b].occupancy
      && i.partCount == PartCount(i.partSize) == |db.flash[b].tbl| == |db.flash[b].parts|
      && i.partTblOffs == HeaderSize(i.partCount)
      && i.partSize <= 127
  {
    RealPartSizesHold(db.flash[b].partSize);
    hide PartCount;
    assert InfoMatches(env, db.flash[b], db.info[b]);
  }

  /** A table entry that was carried along matches the block it describes, once the CRC is in place. */
  lemma InfoOfSealed<Key>(env: Env<Key>, b: DataBlock, i: Info)
    requires b.Formed() && i.valid && i.occupied && i.partSize == b.partSize && i.partOccupancy == b.occupancy
    requires i.partCount == PartCount(b.partSize) && i.partTblOffs == HeaderSize(i.partCount)
    ensures InfoMatches(env, WithCrc(env, b), i)
  {
    LiveAfterCrc(env, b);
    hide PartCount;
  }

  // ----- one block changed -----

  ghost predicate OthersUnchanged<Key>(env: Env<Key>, f: seq<DataBlock>, g: seq<DataBlock>, uid: nat)
  {
    && FormedFlash(env, f) && FormedFlash(env, g)
    && forall u: nat :: u != uid ==> Logical(env, g, u) == Logical(env, f, u)
  }

  ghost predicate OthersMapped<Key>(env: Env<Key>, flash: seq<DataBlock>, uidMap: seq<nat>, uid: nat)
  {
    && FormedFlash(env, flash) && |uidMap| == MAX_UID + 1
    && forall u: nat :: MIN_UID <= u <= MAX_UID && u != uid ==> uidMap[u] == Winner(env, flash, u, NUM_BLOCKS)
  }

  lemma OneBlockChanged<Key>(env: Env<Key>, db: Db, b: nat, after: DataBlock, info: Info, uid: nat,
      record: Maybe<Stored>)
    requires Tables(env, db) && FormedFlash(env, db.flash) && DataIndex(b)
    requires OthersMapped(env, db.flash, db.uidMap, uid)
    requires Changes(env, db.flash[b], after, uid, record) && InfoMatches(env, after, info)
    ensures Tables(env, Db(db.flash[b := after], db.info[b := info], db.uidMap))
    ensures OthersUnchanged(env, db.flash, db.flash[b := after], uid)
    ensures OthersMapped(env, db.flash[b := after], db.uidMap, uid)
  {
    hide PartCount, Winner, Logical, FormedFlash, InfoMatches, Changes;
    assert Tables(env, Db(db.flash[b := after], db.info[b := info], db.uidMap));
    ChangedIsFormed(env, db.flash, b, after, uid, record);
    var g := db.flash[b := after];
    forall u: nat | u != uid
      ensures Logical(env, g, u) == Logical(env, db.flash, u)
      ensures Winner(env, g, u, NUM_BLOCKS) == Winner(env, db.flash, u, NUM_BLOCKS)
    {
      OthersKeep(env, db.flash, b, after, uid, record, u);
    }
  }

  lemma ChangedIsFormed<Key>(env: Env<Key>, flash: seq<DataBlock>, b: nat, after: DataBlock, uid: nat,
      record: Maybe<Stored>)
    requires FormedFlash(env, flash) && DataIndex(b) && Changes(env, flash[b], after, uid, record)
    ensures FormedFlash(env, flash[b := after])
  {
    hide Live, Holds, RecordOf;
    SetBlock(env, flash, b, after, uid);
  }

  /** Changing the only block that may hold a record keeps memory and flash in step. */
  lemma SyncedAfterChange<Key>(env: Env<Key>, db: Db, b: nat, after: DataBlock, info: Info, uid: nat,
      record: Maybe<Stored>)
    requires Synced(env, db) && DataIndex(b) && MIN_UID <= uid <= MAX_UID
    requires Changes(env, db.flash[b], after, uid, record) && InfoMatches(env, after, info)
    requires forall i: nat :: HoldsAt(env, db.flash, uid, i) ==> i == b
    ensures var done := Db(db.flash[b := after], db.info[b := info],
        db.uidMap[uid := if record.Just? then b else INVALID_BLOCK]);
      && Synced(env, done)
      && OthersUnchanged(env, db.flash, done.flash, uid)
      && Logical(env, done.flash, uid) == record
  {
    hide PartCount, Winner, Logical, FormedFlash, InfoMatches, HoldsAt, Changes;
    OneBlockChanged(env, db, b, after, info, uid, record);
    if record.Just? {
      PutRecord(env, db.flash, b, after, uid, record.value);
    } else {
      DropRecord(env, db.flash, b, after, uid);
    }
  }

  /** Adding the newer copy of a relocation: the new record is the logical one from this write on. */
  lemma BetweenTheWrites<Key>(env: Env<Key>, db: Db, a: nat, b: nat, after: DataBlock, info: Info, uid: nat,
      record: Stored)
    requires Synced(env, db) && DataIndex(b) && a != b && MIN_UID <= uid <= MAX_UID
    requires Changes(env, db.flash[b], after, uid, Just(record)) && InfoMatches(env, after, info)
    requires HoldsAt(env, db.flash, uid, a) && record.rev == (RecordOf(db.flash[a], uid).rev + 1) % 4
    ensures var mid := Db(db.flash[b := after], db.info[b := info], db.uidMap);
      && Tables(env, mid)
      && Interrupted(env, mid.flash, uid, a, b)
      && OthersUnchanged(env, db.flash, mid.flash, uid)
      && OthersMapped(env, mid.flash, mid.uidMap, uid)
      && Logical(env, mid.flash, uid) == Just(record)
  {
    hide PartCount, Winner, Logical, FormedFlash, InfoMatches, HoldsAt, Changes, RecordOf;
    OneBlockChanged(env, db, b, after, info, uid, Just(record));
    AddNewerCopy(env, db.flash, a, b, after, uid, record);
  }

  /** Dropping the older copy: nothing changes logically and memory and flash are in step again. */
  lemma AfterTheWrites<Key>(env: Env<Key>, mid: Db, a: nat, b: nat, after: DataBlock, info: Info, uid: nat)
    requires Tables(env, mid) && Interrupted(env, mid.flash, uid, a, b) && OthersMapped(env, mid.flash, mid.uidMap, uid)
    requires DataIndex(a) && MIN_UID <= uid <= MAX_UID
    requires Changes(env, mid.flash[a], after, uid, Nothing) && InfoMatches(env, after, info)
    ensures var done := Db(mid.flash[a := after], mid.info[a := info], mid.uidMap[uid := b]);
      && Synced(env, done)
      && OthersUnchanged(env, mid.flash, done.flash, uid)
      && Logical(env, done.flash, uid) == Logical(env, mid.flash, uid)
  {
    hide PartCount, Winner, Logical, InfoMatches, HoldsAt, Changes, RecordOf, AtMostOne;
    OneBlockChanged(env, mid, a, after, info, uid, Nothing);
    DropOlderCopy(env, mid.flash, a, b, after, uid);
  }

  // ----- the block an update writes -----

  /** Appending to a block with room that does not hold the uid. */
  lemma AppendToExisting<Key>(env: Env<Key>, db: Db, b: nat, q: Request, rev: nat)
    requires Tables(env, db) && FormedFlash(env, db.flash) && DataIndex(b) && GoodRequest(q) && rev < 4
    requires LargerRoom(db.info[b], SubBlocksForData(q.sz), BLK_SIZE) && !HoldsAt(env, db.flash, q.uid, b)
    ensures Appendable(db.flash[b], Ciphertext(env, q.uid, q.data))
    ensures var sealed := Ciphertext(env, q.uid, q.data);
      var after := WithCrc(env, Appended(db.flash[b], q.uid, q.sz, rev, sealed));
      && Changes(env, db.flash[b], after, q.uid, Just(Stored(q.sz, rev, sealed)))
      && InfoMatches(env, after, Grown(db.info[b]))
  {
    hide PartCount, RecordOf, Holds, Appended;
    var sealed := Ciphertext(env, q.uid, q.data);
    RoomIsLive(env, db, b);
    AppendChanges(env, db.flash[b], db.flash[b], q.uid, q.sz, rev, sealed);
    AppendedFacts(db.flash[b], q.uid, q.sz, rev, sealed);
    InfoOfSealed(env, Appended(db.flash[b], q.uid, q.sz, rev, sealed), Grown(db.info[b]));
  }

  lemma RoomIsLive<Key>(env: Env<Key>, db: Db, b: nat)
    requires Tables(env, db) && FormedFlash(env, db.flash) && DataIndex(b) && Room(db.info[b])
    ensures Live(env, db.flash[b]) && db.flash[b].Formed() && Distinct(db.flash[b])
    ensures var i := db.info[b];
      && i.partSize == db.flash[b].partSize
      && i.partOccupancy == db.flash[b].occupancy < PartCount(i.partSize) == i.partCount
      && i.partTblOffs == HeaderSize(i.partCount)
  {
    hide PartCount;
    assert InfoMatches(env, db.flash[b], db.info[b]);
    InfoOfLive(env, db, b);
  }

  lemma AppendedFacts(b: DataBlock, uid: nat, sz: nat, rev: nat, sealed: seq<Cbc.Block>)
    requires b.Formed() && b.occupancy < PartCount(b.partSize) && |sealed| == SubBlocksForData(sz) <= b.partSize
    requires MIN_UID <= uid <= MAX_UID && rev < 4
    ensures var a := Appended(b, uid, sz, rev, sealed);
      a.Formed() && a.partSize == b.partSize && a.occupancy == b.occupancy + 1
  {
    AppendedIsFormed(b, uid, sz, rev, sealed);
    hide PartCount;
  }

  /** A first record in a block that was free. */
  lemma AppendToFresh<Key>(env: Env<Key>, base: DataBlock, q: Request, rev: nat, partSize: nat, temp: Info)
    requires base.Free() && GoodRequest(q) && rev < 4
    requires RealPartSize(partSize) && SubBlocksForData(q.sz) <= partSize
    ensures Appendable(InitializedBlock(partSize), Ciphertext(env, q.uid, q.data))
    ensures var sealed := Ciphertext(env, q.uid, q.data);
      var after := WithCrc(env, Appended(InitializedBlock(partSize), q.uid, q.sz, rev, sealed));
      && Changes(env, base, after, q.uid, Just(Stored(q.sz, rev, sealed)))
      && InfoMatches(env, after, Grown(FreshInfo(temp, partSize)))
  {
    hide PartCount, RecordOf, Holds, Appended;
    RealPartSizesHold(partSize);
    var empty := InitializedBlock(partSize);
    var sealed := Ciphertext(env, q.uid, q.data);
    InitializedFacts(partSize);
    InitializedIsEmpty(partSize, q.uid);
    hide InitializedBlock;
    forall u: nat ensures !Holds(empty, u) {
      InitializedIsEmpty(partSize, u);
    }
    AppendChanges(env, empty, base, q.uid, q.sz, rev, sealed);
    AppendedFacts(empty, q.uid, q.sz, rev, sealed);
    InfoOfSealed(env, Appended(empty, q.uid, q.sz, rev, sealed), Grown(FreshInfo(temp, partSize)));
  }

  lemma InitializedFacts(partSize: nat)
    requires RealPartSize(partSize)
    ensures 0 < partSize && 0 < PartCount(partSize)
    ensures var b := InitializedBlock(partSize);
      && b.partSize == partSize && b.occupancy == 0 && |b.tbl| == |b.parts| == PartCount(partSize)
      && |b.parts[0]| == partSize
  {
    RealPartSizesHold(partSize);
    hide PartCount;
  }

  /** Taking a record out of its block, with the block freed if it was the last one. */
  lemma RemoveFromBlock<Key>(env: Env<Key>, db: Db, b: nat, index: nat, temp: DataBlock)
    requires Tables(env, db) && DataIndex(b)
    requires Live(env, db.flash[b]) && db.flash[b].Formed() && Distinct(db.flash[b]) && index < db.flash[b].occupancy
    ensures db.info[b].partOccupancy == db.flash[b].occupancy
    ensures var after := RemovalBlock(db.flash[b], index, db.info[b], temp, true);
      var info := RemovalInfo(db.info[b], true);
      var uid := db.flash[b].tbl[index].uid;
      && Changes(env, db.flash[b], if info.occupied then WithCrc(env, after) else after, uid, Nothing)
      && InfoMatches(env, if info.occupied then WithCrc(env, after) else after, info)
      && Changes(env, db.flash[b], WithCrc(env, after), uid, Nothing)
      && InfoMatches(env, WithCrc(env, after), info)
  {
    hide PartCount, RecordOf, Holds;
    InfoOfLive(env, db, b);
    if db.flash[b].occupancy == 1 {
      FreeChanges(env, db.flash[b], FreedBlock(temp));
      FreeChanges(env, db.flash[b], WithCrc(env, FreedBlock(temp)));
    } else {
      RemoveChanges(env, db.flash[b], index);
      RemovedIsFormed(db.flash[b], index);
      InfoOfSealed(env, Removed(db.flash[b], index), RemovalInfo(db.info[b], true));
    }
  }

  /** Replacing a record within its block. */
  lemma ReplaceInBlock<Key>(env: Env<Key>, db: Db, b: nat, index: nat, q: Request)
    requires Tables(env, db) && DataIndex(b) && GoodRequest(q)
    requires Live(env, db.flash[b]) && db.flash[b].Formed() && Distinct(db.flash[b]) && index < db.flash[b].occupancy
    requires db.flash[b].tbl[index].uid == q.uid && SubBlocksForData(q.sz) <= db.flash[b].partSize
    ensures db.info[b].partOccupancy == db.flash[b].occupancy
    ensures var sealed := Ciphertext(env, q.uid, q.data);
      var rev := db.flash[b].tbl[index].rev;
      && Appendable(Removed(db.flash[b], index), sealed)
      && var after := WithCrc(env, Appended(Removed(db.flash[b], index), q.uid, q.sz, rev, sealed));
      && Changes(env, db.flash[b], after, q.uid, Just(Stored(q.sz, rev, sealed)))
      && InfoMatches(env, after, Grown(RemovalInfo(db.info[b], false)))
  {
    InfoOfLive(env, db, b);
    var r := Removed(db.flash[b], index);
    var sealed := Ciphertext(env, q.uid, q.data);
    var rev := db.flash[b].tbl[index].rev;
    RemovedIsFormed(db.flash[b], index);
    RemovedFacts(db.flash[b], index);
    hide PartCount, RecordOf, Holds, Appended, Removed;
    RemovedKeepsOthers(db.flash[b], index, q.uid);
    forall u: nat | u != q.uid
      ensures BlockRecord(env, db.flash[b], u) == if Holds(r, u) then Just(RecordOf(r, u)) else Nothing
    {
      RemovedKeepsOthers(db.flash[b], index, u);
    }
    AppendChanges(env, r, db.flash[b], q.uid, q.sz, rev, sealed);
    AppendedFacts(r, q.uid, q.sz, rev, sealed);
    InfoOfSealed(env, Appended(r, q.uid, q.sz, rev, sealed), Grown(RemovalInfo(db.info[b], false)));
  }

  lemma RemovedFacts(b: DataBlock, index: nat)
    requires b.Formed() && Distinct(b) && index < b.occupancy
    ensures var r := Removed(b, index);
      r.Formed() && r.partSize == b.partSize && r.occupancy == b.occupancy - 1 && r.occupancy < PartCount(r.partSize)
  {
    RemovedIsFormed(b, index);
    hide PartCount;
  }
}
