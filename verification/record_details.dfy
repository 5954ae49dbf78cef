/** Where an update leaves its record, with which revision and which bytes, and what becomes of the block the
    record leaves. */
module RecordDetails {
  import opened RecordLayout
  import opened Cbc
  import opened RecordBlock
  import opened BlockChoice
  import opened RecordStore
  import opened RecordEffects
  import opened RecordUpdates
  import opened RecordCommands
  import opened RecordRecovery

  ghost predicate Carried<Key>(env: Env<Key>, db: Db, q: Request, temp: DataBlock, tempInfo: Info) {
    && Synced(env, db) && GoodRequest(q) && Plannable(env, db, q)
    && UpdatePlan(env, db, q, temp, tempInfo).blockNum != INVALID_BLOCK
    && Finishable(env, db, q, UpdatePlan(env, db, q, temp, tempInfo))
  }

  function After<Key>(env: Env<Key>, db: Db, q: Request, temp: DataBlock, tempInfo: Info): Db
    requires Plannable(env, db, q) && Finishable(env, db, q, UpdatePlan(env, db, q, temp, tempInfo))
  {
    Done(env, db, q, UpdatePlan(env, db, q, temp, tempInfo))
  }

  // ----- the new record -----

  /** A new record has revision 0 and lies in the chosen block, which has the tightest partitions if it was free. */
  lemma NewRecord<Key>(env: Env<Key>, db: Db, q: Request, temp: DataBlock, tempInfo: Info)
    requires Carried(env, db, q, temp, tempInfo) && q.sz > 0 && Logical(env, db.flash, q.uid) == Nothing
    ensures TargetSize(q.sz) > 0
    ensures var c, after := Choose(db.info, TargetSize(q.sz), BLK_SIZE), After(env, db, q, temp, tempInfo);
      && c != NoSpace && after.uidMap[q.uid] == c.block < NUM_BLOCKS == |after.flash|
      && FormedFlash(env, after.flash)
      && Logical(env, after.flash, q.uid) == Just(Stored(q.sz, 0, Ciphertext(env, q.uid, q.data)))
      && (c.Fresh? ==> after.flash[c.block].partSize == TargetSize(q.sz) && after.flash[c.block].occupancy == 1)
  {
    hide PartCount, Winner, RecordOf, Live, Choose, TargetSize, Removed, Logical, Commits, Changes;
    hide InfoMatches, HoldsAt, Allocatable, Ciphertext;
    MapPointsAtHolder(env, db, q.uid);
    RefusedExactlyWhen(env, db, q, temp, tempInfo);
    AllocationStores(env, db, q, 0, INVALID_BLOCK, temp, tempInfo);
    var p := UpdatePlan(env, db, q, temp, tempInfo);
    SyncedAfterChange(env, db, p.blockNum, Finalized(env, p), p.info, q.uid,
      Just(Stored(q.sz, 0, Ciphertext(env, q.uid, q.data))));
    hide Appended, InitializedBlock;
    AppendedIsOne(env, db, q, TargetSize(q.sz));
  }

  lemma AppendedIsOne<Key>(env: Env<Key>, db: Db, q: Request, partSize: nat)
    requires partSize > 0 && GoodRequest(q)
    ensures Appendable(InitializedBlock(partSize), Ciphertext(env, q.uid, q.data)) ==>
      var b := Appended(InitializedBlock(partSize), q.uid, q.sz, 0, Ciphertext(env, q.uid, q.data));
      WithCrc(env, b).partSize == partSize && WithCrc(env, b).occupancy == 1
  {
    hide PartCount, Ciphertext;
  }

  /** A record replaced in its block keeps its revision and its block. */
  lemma ReplacedRecord<Key>(env: Env<Key>, db: Db, q: Request, temp: DataBlock, tempInfo: Info)
    requires Carried(env, db, q, temp, tempInfo) && q.sz > 0 && Logical(env, db.flash, q.uid).Just?
    requires TargetSize(q.sz) > 0 && db.info[db.uidMap[q.uid]].partSize == TargetSize(q.sz)
    ensures var after := After(env, db, q, temp, tempInfo);
      && after.uidMap == db.uidMap
      && FormedFlash(env, after.flash)
      && Logical(env, after.flash, q.uid) ==
           Just(Stored(q.sz, Logical(env, db.flash, q.uid).value.rev, Ciphertext(env, q.uid, q.data)))
  {
    hide PartCount, Winner, Live, Choose, InitializedBlock, TargetSize, Removed, Logical, Commits, Changes;
    hide InfoMatches, HoldsAt, Appended, RealPartSize, Ciphertext;
    MapPointsAtHolder(env, db, q.uid);
    OldRevision(env, db, q.uid);
    hide RecordOf;
    var (b, j) := Found(db, q.uid).value;
    HolderIsData(env, db.flash, q.uid, b);
    InfoOfLive(env, db, b);
    TargetIsTightest(q.sz);
    ReplaceInBlock(env, db, b, j, q);
    var p := UpdatePlan(env, db, q, temp, tempInfo);
    SyncedAfterChange(env, db, p.blockNum, Finalized(env, p), p.info, q.uid,
      Just(Stored(q.sz, db.flash[b].tbl[j].rev, Ciphertext(env, q.uid, q.data))));
  }

  /** A moved record has the next of four revisions and lies in the chosen block. */
  lemma MovedRecord<Key>(env: Env<Key>, db: Db, q: Request, temp: DataBlock, tempInfo: Info)
    requires Carried(env, db, q, temp, tempInfo) && q.sz > 0 && Logical(env, db.flash, q.uid).Just?
    requires TargetSize(q.sz) > 0 && db.info[db.uidMap[q.uid]].partSize != TargetSize(q.sz)
    requires Choose(db.info, TargetSize(q.sz), BLK_SIZE) != NoSpace
    requires Choose(db.info, TargetSize(q.sz), BLK_SIZE).block != db.uidMap[q.uid]
    ensures var after := After(env, db, q, temp, tempInfo);
      && after.uidMap[q.uid] == Choose(db.info, TargetSize(q.sz), BLK_SIZE).block
      && FormedFlash(env, after.flash)
      && Logical(env, after.flash, q.uid) ==
           Just(Stored(q.sz, (Logical(env, db.flash, q.uid).value.rev + 1) % 4, Ciphertext(env, q.uid, q.data)))
  {
    hide PartCount, Winner, RecordOf, Live, Choose, InitializedBlock, TargetSize, Removed, Logical, Changes;
    hide InfoMatches, HoldsAt, Appended, Finalized, Allocatable, Clean, FormedFlash, Ciphertext, RemovalBlock;
    hide RemovalInfo, Interrupted;
    MapPointsAtHolder(env, db, q.uid);
    var (a, j) := Found(db, q.uid).value;
    var p := UpdatePlan(env, db, q, temp, tempInfo);
    var record := RelocatedRecord(env, db, q);
    AllocationStores(env, db, q, record.rev, a, temp, db.info[a]);
    OldCopyFound(env, db, q, p);
    OldRevision(env, db, q.uid);
    BetweenTheWrites(env, db, a, p.blockNum, Finalized(env, p), p.info, q.uid, record);
    var mid := BetweenWrites(env, db, p);
    RemoveFromBlock(env, mid, a, j, Finalized(env, p));
    AfterTheWrites(env, mid, a, p.blockNum, SecondBlock(env, mid, q, Finalized(env, p)),
        RemovalInfo(mid.info[a], true), q.uid);
  }

  // ----- the block it leaves -----

  /** A deletion or a move frees the block whose only record it takes, and else leaves one record fewer there. */
  ghost predicate Left(before: DataBlock, after: DataBlock) {
    if before.occupancy == 1 then after.Free() else after.occupancy == before.occupancy - 1 && !after.Free()
  }

  lemma DeletionLeaves<Key>(env: Env<Key>, db: Db, q: Request, temp: DataBlock, tempInfo: Info)
    requires Carried(env, db, q, temp, tempInfo) && q.sz == 0 && Logical(env, db.flash, q.uid).Just?
    ensures var b := db.uidMap[q.uid];
      b < NUM_BLOCKS == |db.flash| && Left(db.flash[b], After(env, db, q, temp, tempInfo).flash[b])
  {
    hide PartCount, Winner, RecordOf, Choose, InitializedBlock, TargetSize, Logical, Changes, HoldsAt, Live;
    MapPointsAtHolder(env, db, q.uid);
    HolderStands(env, db, q.uid);
  }

  lemma MoveLeaves<Key>(env: Env<Key>, db: Db, q: Request, temp: DataBlock, tempInfo: Info)
    requires Carried(env, db, q, temp, tempInfo) && q.sz > 0 && Logical(env, db.flash, q.uid).Just?
    requires TargetSize(q.sz) > 0 && db.info[db.uidMap[q.uid]].partSize != TargetSize(q.sz)
    requires Choose(db.info, TargetSize(q.sz), BLK_SIZE) != NoSpace
    requires Choose(db.info, TargetSize(q.sz), BLK_SIZE).block != db.uidMap[q.uid]
    ensures var b := db.uidMap[q.uid];
      b < NUM_BLOCKS == |db.flash| && Left(db.flash[b], After(env, db, q, temp, tempInfo).flash[b])
  {
    hide PartCount, Winner, RecordOf, Choose, InitializedBlock, TargetSize, Logical, Changes, HoldsAt, Live;
    hide Appended, Ciphertext, Finalized;
    MapPointsAtHolder(env, db, q.uid);
    HolderStands(env, db, q.uid);
    ChosenIsData(env, db, q);
    OldCopyFound(env, db, q, UpdatePlan(env, db, q, temp, tempInfo));
  }

  lemma ChosenIsData<Key>(env: Env<Key>, db: Db, q: Request)
    requires Synced(env, db) && GoodRequest(q) && TargetSize(q.sz) > 0
    ensures var c := Choose(db.info, TargetSize(q.sz), BLK_SIZE);
      c != NoSpace ==> DataIndex(c.block)
  {
    hide PartCount, Winner, Live, AtMostOne, Choose, TargetSize;
    TargetIsTightest(q.sz);
    RealPartSizesHold(TargetSize(q.sz));
    ChoiceRule(db.info, TargetSize(q.sz), BLK_SIZE);
  }

  lemma HolderStands<Key>(env: Env<Key>, db: Db, uid: nat)
    requires Synced(env, db) && MIN_UID <= uid <= MAX_UID && Logical(env, db.flash, uid).Just?
    ensures var b := db.uidMap[uid];
      && DataIndex(b) && !db.flash[b].Free() && db.info[b].occupied
      && db.info[b].partOccupancy == db.flash[b].occupancy <= |db.flash[b].tbl| == |db.flash[b].parts|
  {
    hide PartCount, Winner, RecordOf, Logical;
    MapPointsAtHolder(env, db, uid);
    HolderIsData(env, db.flash, uid, db.uidMap[uid]);
    InfoOfLive(env, db, db.uidMap[uid]);
  }

  /** A scan frees the block of an older copy that was alone in it. */
  lemma RepairLeaves<Key>(env: Env<Key>, flash: seq<DataBlock>, uid: nat, a: nat, b: nat, temp: DataBlock)
    requires Interrupted(env, flash, uid, a, b)
    ensures a < NUM_BLOCKS == |flash| == |Scan(env, flash, temp)| && Left(flash[a], Scan(env, flash, temp)[a])
  {
    hide Scan, Live, PartCount, RecordOf, IndexOf;
    ScanOfInterrupted(env, flash, temp, uid, a, b);
    InterruptedIsLive(env, flash, uid, a, b);
    hide Interrupted;
  }

  lemma InterruptedIsLive<Key>(env: Env<Key>, flash: seq<DataBlock>, uid: nat, a: nat, b: nat)
    requires Interrupted(env, flash, uid, a, b)
    ensures |flash| == NUM_BLOCKS && a < NUM_BLOCKS && !flash[a].Free() && flash[a].Formed() && Holds(flash[a], uid)
  {
    InterruptedFacts(env, flash, uid, a, b);
  }

  // ----- the bytes on flash -----

  /** The entry an append writes, and the rest of its partition, which stays. */
  lemma AppendedEntry(b: DataBlock, uid: nat, sz: nat, rev: nat, sealed: seq<Cbc.Block>)
    requires b.occupancy < |b.tbl| == |b.parts| && |sealed| <= |b.parts[b.occupancy]|
    ensures var a, n := Appended(b, uid, sz, rev, sealed), b.occupancy;
      && |a.tbl| == |b.tbl| && |a.parts| == |b.parts| && a.partSize == b.partSize
      && a.tbl[n].uid == uid && a.tbl[n].rev == rev && a.tbl[n].first && a.tbl[n].sz == sz && a.tbl[n].blkNext == 0
      && |a.parts[n]| == |b.parts[n]|
      && (forall k :: 0 <= k < |a.parts[n]| ==> a.parts[n][k] == if k < |sealed| then sealed[k] else b.parts[n][k])
      && (forall k :: 0 <= k < |a.tbl| && k != n ==> a.tbl[k] == b.tbl[k] && a.parts[k] == b.parts[k])
  {
  }

  /** A block in use is one whose CRC is that of all its contents. */
  lemma LiveExactlyWhen<Key>(env: Env<Key>, b: DataBlock)
    ensures Live(env, b) <==> b.partSize != 0xffff && b.crc == env.crc(b.partSize, b.occupancy, b.tbl, b.parts)
    ensures WithCrc(env, b) == b.(crc := env.crc(b.partSize, b.occupancy, b.tbl, b.parts))
  {
  }

  /** What is stored for a uid is the CBC encryption of its data under the uid's own IV: each block is the image of
      a data block mixed with the stored block before it, the first with the IV. */
  lemma StoredBytes<Key>(env: Env<Key>, uid: nat, data: seq<Cbc.Block>, i: nat) returns (x: Cbc.Block)
    requires i < |data|
    ensures var sealed := Ciphertext(env, uid, data);
      && sealed[i] == env.cipher.enc(env.key, x)
      && forall j :: 0 <= j < 16 ==> x[j] == data[i][j] ^ (if i == 0 then env.iv(uid) else sealed[i - 1])[j]
  {
    x := CiphertextBlocks(env.cipher, env.key, env.iv(uid), data, i);
  }

  /** A freed block looks erased in its header and keeps whatever else the buffer held. */
  lemma FreedHeader(temp: DataBlock)
    ensures FreedBlock(temp) == DataBlock(0xffffffff, 0xffff, 0, temp.tbl, temp.parts)
  {
  }

  /** How much there is of everything. */
  lemma Sizes<Key>(env: Env<Key>, db: Db)
    requires Synced(env, db)
    ensures |db.flash| == |db.info| == 96 && |db.uidMap| == 4096
  {
    hide Winner, AtMostOne;
  }
}
