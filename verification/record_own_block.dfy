/** What an update that falls back to the record's own block leaves behind: a block with two entries for one
    record, what is read from it, and what the next start makes of it. */
module RecordOwnBlock {
  import opened RecordLayout
  import Cbc
  import opened RecordBlock
  import opened BlockChoice
  import opened RecordStore
  import opened RecordEffects
  import opened RecordUpdates
  import opened RecordCommands
  import opened RecordRecovery

  /** The record that was left in force gives way at the next start: the scan meets the second entry, whose
      revision follows that of the first, takes the first to be the older copy and removes it. What was asked
      for is then stored, and another scan finds all in order and builds the tables. */
  lemma OwnBlockHealsAtStart<Key>(env: Env<Key>, db: Db, q: Request, temp: DataBlock, tempInfo: Info,
      scanTemp: DataBlock)
    requires Synced(env, db) && GoodRequest(q) && Searchable(db, q.uid) && OwnBlock(db, q)
    ensures Plannable(env, db, q) && Finishable(env, db, q, UpdatePlan(env, db, q, temp, tempInfo))
    ensures var left := Done(env, db, q, UpdatePlan(env, db, q, temp, tempInfo)).flash;
      var b := db.uidMap[q.uid];
      && b < NUM_BLOCKS == |db.flash|
      && FirstClash(env, left, b, db.flash[b].occupancy, b)
      && Shaped(env, left)
      && var up := Rebooted(env, left, scanTemp);
      && up.flash == Settled(env, left, b, db.flash[b].occupancy, b, scanTemp)
      && Synced(env, up)
      && Stores(env, db.flash, up.flash, q)
  {
    hide PartCount, Winner, Choose, InitializedBlock, TargetSize, Removed, Logical, Ciphertext, Plannable, UpdatePlan;
    hide Live, Holds, RecordOf, Appended, Synced, NeedsSpace, StoredAt, Finalized, FirstClash, Settled, OwnBlock;
    hide Done, Finishable, Stores;
    hide Shaped, Clean, ScanAll, ScannedInfo, ScannedMap, Repaired, InfoMatches;
    OwnBlockPlan(env, db, q, temp, tempInfo);
    var b := db.uidMap[q.uid];
    OldRecordPlace(env, db, q);
    var rev := RelocatedRecord(env, db, q).rev;
    TwoEntriesClash(env, db.flash, b, q.uid, q.sz, rev, Ciphertext(env, q.uid, q.data));
    TwoEntriesSettle(env, db.flash, b, q, rev, scanTemp);
    var left := Done(env, db, q, UpdatePlan(env, db, q, temp, tempInfo)).flash;
    ScanAt(env, left, scanTemp, b, db.flash[b].occupancy, b);
    OneScanSuffices(env, left, scanTemp);
    RebootIsSynced(env, left, scanTemp);
  }

  lemma OldRecordPlace<Key>(env: Env<Key>, db: Db, q: Request)
    requires Synced(env, db) && GoodRequest(q) && Searchable(db, q.uid) && OwnBlock(db, q)
    ensures Found(db, q.uid).Just? && q.sz > 0 && Clean(env, db.flash)
    ensures HoldsAt(env, db.flash, q.uid, db.uidMap[q.uid])
    ensures RelocatedRecord(env, db, q).rev == (RecordOf(db.flash[db.uidMap[q.uid]], q.uid).rev + 1) % 4
  {
    hide PartCount, Winner, Live, Logical, RecordOf, TargetSize, Choose;
    MapPointsAtHolder(env, db, q.uid);
    OldRevision(env, db, q.uid);
  }

  /** The block with a second entry for a uid it holds. */
  ghost function Doubled<Key>(env: Env<Key>, b: DataBlock, uid: nat, sz: nat, rev: nat,
      sealed: seq<Cbc.Block>): DataBlock
    requires b.Formed() && b.occupancy < PartCount(b.partSize) && |sealed| <= b.partSize
  {
    WithCrc(env, Appended(b, uid, sz, rev, sealed))
  }

  lemma TwoEntriesClash<Key>(env: Env<Key>, flash: seq<DataBlock>, b: nat, uid: nat, sz: nat, rev: nat,
      sealed: seq<Cbc.Block>)
    requires Clean(env, flash) && HoldsAt(env, flash, uid, b) && flash[b].occupancy < PartCount(flash[b].partSize)
    requires |sealed| == SubBlocksForData(sz) <= flash[b].partSize && MIN_UID <= uid <= MAX_UID && rev < 4
    ensures FirstClash(env, flash[b := Doubled(env, flash[b], uid, sz, rev, sealed)], b, flash[b].occupancy, b)
    ensures Shaped(env, flash[b := Doubled(env, flash[b], uid, sz, rev, sealed)])
  {
    hide PartCount, Live, RecordOf, BlockCrc;
    SecondEntry(env, flash[b], uid, sz, rev, sealed);
    var n := flash[b].occupancy;
    var left := flash[b := Doubled(env, flash[b], uid, sz, rev, sealed)];
    forall k: nat, l: nat, m: nat, o: nat | MetBefore(env, left, k, l, b, n) && MetBefore(env, left, m, o, b, n)
      && left[k].tbl[l].uid == left[m].tbl[o].uid
      ensures k == m && l == o
    {
      OldEntry(env, flash, left, b, k, l);
      OldEntry(env, flash, left, b, m, o);
      assert AtMostOne(env, flash, left[k].tbl[l].uid);
    }
  }

  /** An entry met before the second one is an entry of the flash before the update. */
  lemma OldEntry<Key>(env: Env<Key>, flash: seq<DataBlock>, left: seq<DataBlock>, b: nat, k: nat, l: nat)
    requires FormedFlash(env, flash) && DataIndex(b) && Live(env, flash[b]) && |left| == NUM_BLOCKS
    requires left == flash[b := left[b]] && |left[b].tbl| == |flash[b].tbl| > flash[b].occupancy
    requires left[b].tbl == flash[b].tbl[flash[b].occupancy := left[b].tbl[flash[b].occupancy]]
    requires MetBefore(env, left, k, l, b, flash[b].occupancy)
    ensures HoldsAt(env, flash, left[k].tbl[l].uid, k) && flash[k].Formed() && Distinct(flash[k])
    ensures l < flash[k].occupancy && left[k].tbl[l] == flash[k].tbl[l]
    ensures IndexOf(flash[k].tbl, left[k].tbl[l].uid, flash[k].occupancy) == l
  {
    hide PartCount, Live;
    OnlyEntry(flash[k], left[k].tbl[l].uid, l);
  }

  lemma TwoEntriesSettle<Key>(env: Env<Key>, flash: seq<DataBlock>, b: nat, q: Request, rev: nat, temp: DataBlock)
    requires Clean(env, flash) && HoldsAt(env, flash, q.uid, b) && GoodRequest(q) && q.sz > 0
    requires flash[b].occupancy < PartCount(flash[b].partSize) && SubBlocksForData(q.sz) <= flash[b].partSize
    requires rev == (RecordOf(flash[b], q.uid).rev + 1) % 4
    ensures var left := flash[b := Doubled(env, flash[b], q.uid, q.sz, rev, Ciphertext(env, q.uid, q.data))];
      && Clashes(left, b, flash[b].occupancy, b)
      && var healed := Settled(env, left, b, flash[b].occupancy, b, temp);
      Clean(env, healed) && Stores(env, flash, healed, q)
  {
    hide PartCount, Live, Winner, Logical, Changes, HoldsAt;
    var sealed := Ciphertext(env, q.uid, q.data);
    hide Ciphertext;
    HolderIsData(env, flash, q.uid, b);
    hide Clean, AtMostOne, Holds, RecordOf;
    SecondEntryReplaces(env, flash[b], q.uid, q.sz, rev, sealed);
    var left := flash[b := Doubled(env, flash[b], q.uid, q.sz, rev, sealed)];
    var after := WithCrc(env, Removed(left[b], IndexOf(left[b].tbl, q.uid, left[b].occupancy)));
    assert Settled(env, left, b, flash[b].occupancy, b, temp) == flash[b := after];
    HolderIsAlone(env, flash, q.uid, b);
    PutRecord(env, flash, b, after, q.uid, Stored(q.sz, rev, sealed));
    forall u: nat | u != q.uid ensures Logical(env, flash[b := after], u) == Logical(env, flash, u) {
      OthersKeep(env, flash, b, after, q.uid, Just(Stored(q.sz, rev, sealed)), u);
    }
  }

  lemma HolderIsAlone<Key>(env: Env<Key>, flash: seq<DataBlock>, uid: nat, b: nat)
    requires Clean(env, flash) && HoldsAt(env, flash, uid, b)
    ensures forall i: nat :: HoldsAt(env, flash, uid, i) ==> i == b
  {
    hide Live, Holds;
    assert AtMostOne(env, flash, uid);
  }

  /** Removing the first of the two entries moves the second into its place. */
  lemma SecondEntryReplaces<Key>(env: Env<Key>, b: DataBlock, uid: nat, sz: nat, rev: nat, sealed: seq<Cbc.Block>)
    requires b.Formed() && Distinct(b) && Live(env, b) && Holds(b, uid) && b.occupancy < PartCount(b.partSize)
    requires |sealed| == SubBlocksForData(sz) <= b.partSize && MIN_UID <= uid <= MAX_UID
    requires rev == (RecordOf(b, uid).rev + 1) % 4
    ensures var d := Doubled(env, b, uid, sz, rev, sealed);
      var j := IndexOf(b.tbl, uid, b.occupancy);
      && d.occupancy == b.occupancy + 1 <= |d.tbl| == |d.parts|
      && IndexOf(d.tbl, uid, d.occupancy) == j && d.tbl[b.occupancy].uid == uid
      && (d.tbl[b.occupancy].rev + 1) % 4 != d.tbl[j].rev
      && Changes(env, b, WithCrc(env, Removed(d, j)), uid, Just(Stored(sz, rev, sealed)))
  {
    hide PartCount, Live, Appended, BlockCrc, OneReplaced;
    SecondEntry(env, b, uid, sz, rev, sealed);
    ReplacedBlock(env, b, uid, sz, rev, sealed);
    var d := Doubled(env, b, uid, sz, rev, sealed);
    var r := Removed(d, IndexOf(b.tbl, uid, b.occupancy));
    LiveAfterCrc(env, r);
    hide RecordOf, Holds, Removed, WithCrc, Doubled;
    forall u: nat | u != uid
      ensures BlockRecord(env, WithCrc(env, r), u) == BlockRecord(env, b, u)
    {
      ReplacedOthers(b, r, uid, u);
    }
  }

  ghost predicate OneReplaced(b: DataBlock, r: DataBlock, uid: nat)
    requires b.Formed() && r.Formed() && Holds(b, uid)
  {
    && r.occupancy == b.occupancy && |r.tbl| == |b.tbl|
    && r.tbl[IndexOf(b.tbl, uid, b.occupancy)].uid == uid
    && (forall k :: 0 <= k < b.occupancy && k != IndexOf(b.tbl, uid, b.occupancy) ==>
        r.tbl[k] == b.tbl[k] && r.parts[k] == b.parts[k])
  }

  lemma ReplacedBlock<Key>(env: Env<Key>, b: DataBlock, uid: nat, sz: nat, rev: nat, sealed: seq<Cbc.Block>)
    requires b.Formed() && Distinct(b) && Holds(b, uid) && b.occupancy < PartCount(b.partSize)
    requires |sealed| == SubBlocksForData(sz) <= b.partSize && MIN_UID <= uid <= MAX_UID && rev < 4
    ensures var d := Doubled(env, b, uid, sz, rev, sealed);
      && d.occupancy == b.occupancy + 1 <= |d.tbl| == |d.parts|
      && d.tbl[b.occupancy].uid == uid && d.tbl[b.occupancy].rev == rev
      && d.tbl[IndexOf(b.tbl, uid, b.occupancy)].rev == RecordOf(b, uid).rev < 4
      && var r := Removed(d, IndexOf(b.tbl, uid, b.occupancy));
      && r.Formed() && Distinct(r) && OneReplaced(b, r, uid)
      && Holds(r, uid) && RecordOf(r, uid) == Stored(sz, rev, sealed)
  {
    hide PartCount, BlockCrc;
    var j := IndexOf(b.tbl, uid, b.occupancy);
    var d := Doubled(env, b, uid, sz, rev, sealed);
    var r := Removed(d, j);
    assert r.tbl[j] == Entry(uid, rev, true, sz, INVALID_BLOCK);
    assert r.parts[j][..|sealed|] == sealed;
    OnlyEntry(r, uid, j);
  }

  lemma ReplacedOthers(b: DataBlock, r: DataBlock, uid: nat, u: nat)
    requires b.Formed() && r.Formed() && Distinct(b) && Distinct(r) && Holds(b, uid) && OneReplaced(b, r, uid)
    requires u != uid
    ensures Holds(r, u) <==> Holds(b, u)
    ensures Holds(b, u) ==> RecordOf(r, u) == RecordOf(b, u)
  {
    hide PartCount;
    if Holds(b, u) {
      OnlyEntry(r, u, IndexOf(b.tbl, u, b.occupancy));
    } else if Holds(r, u) {
      OnlyEntry(b, u, IndexOf(r.tbl, u, r.occupancy));
    }
  }

  // ----- until then -----

  /** Until the next start every record reads as before the update, the one it was about included. */
  lemma OwnBlockKeepsReads<Key>(env: Env<Key>, db: Db, q: Request, temp: DataBlock, tempInfo: Info, uid: nat)
    requires Synced(env, db) && GoodRequest(q) && Searchable(db, q.uid) && OwnBlock(db, q) && MIN_UID <= uid <= MAX_UID
    ensures Plannable(env, db, q) && Finishable(env, db, q, UpdatePlan(env, db, q, temp, tempInfo))
    ensures Searchable(db, uid)
    ensures var left := Done(env, db, q, UpdatePlan(env, db, q, temp, tempInfo));
      && Searchable(left, uid) && Found(left, uid) == Found(db, uid)
      && (Found(db, uid).Just? ==>
           var (b, j) := Found(db, uid).value;
           && j < |left.flash[b].tbl| && j < |left.flash[b].parts| && j < |db.flash[b].tbl| && j < |db.flash[b].parts|
           && left.flash[b].tbl[j] == db.flash[b].tbl[j] && left.flash[b].parts[j] == db.flash[b].parts[j])
  {
    hide PartCount, Winner, Choose, InitializedBlock, TargetSize, Removed, Logical, Ciphertext, Plannable, UpdatePlan;
    hide Live, RecordOf, Synced, NeedsSpace, StoredAt, Finalized, OwnBlock, Done, Finishable, BlockCrc;
    OwnBlockPlan(env, db, q, temp, tempInfo);
    var b := db.uidMap[q.uid];
    OldRecordPlace(env, db, q);
    OccupancyOfHolder(env, db, q.uid);
    UidIsSearchable(env, db, uid);
    var left := Done(env, db, q, UpdatePlan(env, db, q, temp, tempInfo));
    SearchPrefix(db.flash[b].tbl, left.flash[b].tbl, uid, db.flash[b].occupancy);
  }

  lemma UidIsSearchable<Key>(env: Env<Key>, db: Db, uid: nat)
    requires Synced(env, db) && MIN_UID <= uid <= MAX_UID
    ensures Searchable(db, uid) && (db.uidMap[uid] != INVALID_BLOCK ==> Found(db, uid).Just?)
  {
    hide PartCount, Winner, Live, RecordOf;
    MapPointsAtHolder(env, db, uid);
  }
}
