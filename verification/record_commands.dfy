/** The update command as a whole: when it is refused, what it stores, where the firmware goes wrong, and
    what is on flash if the power fails between its page writes. */
module RecordCommands {
  import opened RecordLayout
  import Cbc
  import opened RecordBlock
  import opened BlockChoice
  import opened RecordStore
  import opened RecordEffects
  import opened RecordUpdates

  /** The update needs allocate_uid: the record is new or its partition size changes. */
  predicate NeedsSpace(db: Db, q: Request)
    requires Searchable(db, q.uid)
  {
    && q.sz > 0
    && TargetSize(q.sz) > 0
    && (match Found(db, q.uid)
        case Nothing => true
        case Just((b, _)) => db.info[b].partSize != TargetSize(q.sz))
  }

  /** allocate_uid falls back to the very block the record is to leave. */
  predicate OwnBlock(db: Db, q: Request)
    requires Searchable(db, q.uid)
  {
    && NeedsSpace(db, q)
    && Found(db, q.uid).Just?
    && Choose(db.info, TargetSize(q.sz), BLK_SIZE) == Existing(Found(db, q.uid).value.0)
  }

  /** From flash f to flash g only the requested record changed, and it is what was asked for. */
  ghost predicate Stores<Key>(env: Env<Key>, f: seq<DataBlock>, g: seq<DataBlock>, q: Request) {
    && OthersUnchanged(env, f, g, q.uid)
    && match Logical(env, g, q.uid)
       case Nothing => q.sz == 0
       case Just(s) => q.sz > 0 && s.sz == q.sz && s.sealed == Ciphertext(env, q.uid, q.data)
  }

  lemma SyncedIsPlannable<Key>(env: Env<Key>, db: Db, q: Request)
    requires Synced(env, db) && GoodRequest(q)
    ensures Plannable(env, db, q)
  {
    hide PartCount, Winner, RecordOf, Live, Choose, InitializedBlock, TargetSize, Removed, Logical;
    MapPointsAtHolder(env, db, q.uid);
    TargetIsTightest(q.sz);
    if q.sz > 0 {
      if TargetSize(q.sz) > 0 {
        ChosenIsAppendable(env, db, q);
      }
      if Found(db, q.uid).Just? {
        var (b, j) := Found(db, q.uid).value;
        HolderIsData(env, db.flash, q.uid, b);
        InfoOfLive(env, db, b);
        if db.info[b].partSize == TargetSize(q.sz) {
          ReplaceInBlock(env, db, b, j, q);
        }
      }
    }
  }

  lemma ChosenIsAppendable<Key>(env: Env<Key>, db: Db, q: Request)
    requires Synced(env, db) && GoodRequest(q) && TargetSize(q.sz) > 0
    ensures Allocatable(env, db, q)
  {
    hide PartCount, Winner, RecordOf, Live, Choose, InitializedBlock, TargetSize, Holds, DataBlock.Formed, RealPartSize;
    TargetIsTightest(q.sz);
    RealPartSizesHold(TargetSize(q.sz));
    ChoiceRule(db.info, TargetSize(q.sz), BLK_SIZE);
    match Choose(db.info, TargetSize(q.sz), BLK_SIZE)
    case NoSpace =>
    case Existing(b) =>
      RoomIsLive(env, db, b);
      RoomyPartition(db.flash[b], Ciphertext(env, q.uid, q.data));
    case Fresh(b) =>
      InitializedFacts(TargetSize(q.sz));
  }

  lemma RoomyPartition(b: DataBlock, sealed: seq<Cbc.Block>)
    requires b.Formed() && b.occupancy < PartCount(b.partSize) && |sealed| <= b.partSize
    ensures Appendable(b, sealed)
  {
  }

  /** allocate_uid's plan, where it finds space in a block that does not hold the uid. */
  lemma AllocationStores<Key>(env: Env<Key>, db: Db, q: Request, rev: nat, prev: nat, temp: DataBlock, tempInfo: Info)
    requires Synced(env, db) && GoodRequest(q) && TargetSize(q.sz) > 0 && rev < 4
    requires match Choose(db.info, TargetSize(q.sz), BLK_SIZE)
      case NoSpace => false
      case Existing(b) => !HoldsAt(env, db.flash, q.uid, b)
      case Fresh(b) => true
    ensures Allocatable(env, db, q)
    ensures var p := AllocatePlan(env, db, q, rev, prev, temp, tempInfo);
      && DataIndex(p.blockNum) && p.prevBlock == prev && p.info.occupied
      && Changes(env, db.flash[p.blockNum], Finalized(env, p), q.uid,
          Just(Stored(q.sz, rev, Ciphertext(env, q.uid, q.data))))
      && InfoMatches(env, Finalized(env, p), p.info)
  {
    hide PartCount, Winner, RecordOf, Live, Choose, InitializedBlock, TargetSize, Holds, DataBlock.Formed;
    hide RealPartSize, Changes, Appended, HoldsAt;
    ChosenIsAppendable(env, db, q);
    TargetIsTightest(q.sz);
    RealPartSizesHold(TargetSize(q.sz));
    ChoiceRule(db.info, TargetSize(q.sz), BLK_SIZE);
    match Choose(db.info, TargetSize(q.sz), BLK_SIZE)
    case Existing(b) =>
      AppendToExisting(env, db, b, q, rev);
    case Fresh(b) =>
      VacantIsFree(env, db, b);
      AppendToFresh(env, db.flash[b], q, rev, TargetSize(q.sz), tempInfo);
  }

  lemma VacantIsFree<Key>(env: Env<Key>, db: Db, b: nat)
    requires Tables(env, db) && DataIndex(b) && Vacant(db.info[b])
    ensures db.flash[b].Free()
  {
    assert InfoMatches(env, db.flash[b], db.info[b]);
  }

  // ----- refusal -----

  /** NOT_ENOUGH_SPACE, exactly: deleting what is not there, a record no partition can hold, or no room. */
  lemma RefusedExactlyWhen<Key>(env: Env<Key>, db: Db, q: Request, temp: DataBlock, tempInfo: Info)
    requires Synced(env, db) && GoodRequest(q)
    ensures Plannable(env, db, q)
    ensures UpdatePlan(env, db, q, temp, tempInfo).blockNum == INVALID_BLOCK <==>
      if q.sz == 0 then Logical(env, db.flash, q.uid) == Nothing
      else TargetSize(q.sz) == 0 || (NeedsSpace(db, q) && Choose(db.info, TargetSize(q.sz), BLK_SIZE) == NoSpace)
  {
    hide PartCount, Winner, RecordOf, Live, Choose, InitializedBlock, TargetSize, Removed, Logical, Appended, Holds;
    hide DataBlock.Formed, RealPartSize;
    SyncedIsPlannable(env, db, q);
    MapPointsAtHolder(env, db, q.uid);
    if TargetSize(q.sz) > 0 {
      TargetIsTightest(q.sz);
      RealPartSizesHold(TargetSize(q.sz));
      ChoiceRule(db.info, TargetSize(q.sz), BLK_SIZE);
    }
  }

  // ----- success -----

  ghost predicate Finishable<Key>(env: Env<Key>, db: Db, q: Request, p: Plan) {
    && p.blockNum < NUM_BLOCKS == |db.flash| == |db.info|
    && q.uid < |db.uidMap|
    && (Relocates(p) ==>
         && p.prevBlock < NUM_BLOCKS
         && Searchable(BetweenWrites(env, db, p), q.uid)
         && Found(BetweenWrites(env, db, p), q.uid).Just?)
  }

  /** Memory and flash after the last write of an update that was not refused. */
  function Done<Key>(env: Env<Key>, db: Db, q: Request, p: Plan): Db
    requires Finishable(env, db, q, p)
  {
    if Relocates(p) then FinishRelocation(env, BetweenWrites(env, db, p), q, p) else FinishSingle(env, db, q, p)
  }

  /** What a finished update has achieved. */
  ghost predicate Commits<Key>(env: Env<Key>, db: Db, q: Request, p: Plan) {
    && p.blockNum != INVALID_BLOCK
    && Finishable(env, db, q, p)
    && Synced(env, Done(env, db, q, p))
    && Stores(env, db.flash, Done(env, db, q, p).flash, q)
    && (Relocates(p) ==>
         && Interrupted(env, BetweenWrites(env, db, p).flash, q.uid, p.prevBlock, p.blockNum)
         && Stores(env, db.flash, BetweenWrites(env, db, p).flash, q))
  }

  /** A plan of one write to the only block that may hold the record. */
  lemma SingleCommits<Key>(env: Env<Key>, db: Db, q: Request, p: Plan, record: Maybe<Stored>)
    requires Synced(env, db) && GoodRequest(q) && DataIndex(p.blockNum) && !Relocates(p)
    requires Changes(env, db.flash[p.blockNum], Finalized(env, p), q.uid, record)
    requires InfoMatches(env, Finalized(env, p), p.info)
    requires forall i: nat :: HoldsAt(env, db.flash, q.uid, i) ==> i == p.blockNum
    requires if q.sz == 0 then record == Nothing
        else record.Just? && record.value.sz == q.sz && record.value.sealed == Ciphertext(env, q.uid, q.data)
    ensures Commits(env, db, q, p)
  {
    hide PartCount, Winner, RecordOf, Live, Logical, HoldsAt, Changes, InfoMatches, Finalized, FormedFlash, Clean;
    SyncedAfterChange(env, db, p.blockNum, Finalized(env, p), p.info, q.uid, record);
  }

  lemma DeleteCommits<Key>(env: Env<Key>, db: Db, q: Request, temp: DataBlock, tempInfo: Info)
    requires Synced(env, db) && GoodRequest(q) && q.sz == 0 && Logical(env, db.flash, q.uid).Just?
    ensures Plannable(env, db, q) && Commits(env, db, q, UpdatePlan(env, db, q, temp, tempInfo))
  {
    hide PartCount, Winner, RecordOf, Live, Choose, InitializedBlock, TargetSize, Removed, Logical, Commits, Changes;
    hide InfoMatches, HoldsAt;
    SyncedIsPlannable(env, db, q);
    MapPointsAtHolder(env, db, q.uid);
    var (b, j) := Found(db, q.uid).value;
    HolderIsData(env, db.flash, q.uid, b);
    RemoveFromBlock(env, db, b, j, temp);
    SingleCommits(env, db, q, UpdatePlan(env, db, q, temp, tempInfo), Nothing);
  }

  lemma ReplaceCommits<Key>(env: Env<Key>, db: Db, q: Request, temp: DataBlock, tempInfo: Info)
    requires Synced(env, db) && GoodRequest(q) && q.sz > 0 && Logical(env, db.flash, q.uid).Just?
    requires TargetSize(q.sz) > 0 && db.info[db.uidMap[q.uid]].partSize == TargetSize(q.sz)
    ensures Plannable(env, db, q) && Commits(env, db, q, UpdatePlan(env, db, q, temp, tempInfo))
  {
    hide PartCount, Winner, RecordOf, Live, Choose, InitializedBlock, TargetSize, Removed, Logical, Commits, Changes;
    hide InfoMatches, HoldsAt, Appended, RealPartSize;
    SyncedIsPlannable(env, db, q);
    MapPointsAtHolder(env, db, q.uid);
    var (b, j) := Found(db, q.uid).value;
    HolderIsData(env, db.flash, q.uid, b);
    InfoOfLive(env, db, b);
    TargetIsTightest(q.sz);
    ReplaceInBlock(env, db, b, j, q);
    SingleCommits(env, db, q, UpdatePlan(env, db, q, temp, tempInfo),
      Just(Stored(q.sz, db.flash[b].tbl[j].rev, Ciphertext(env, q.uid, q.data))));
  }

  lemma InsertCommits<Key>(env: Env<Key>, db: Db, q: Request, temp: DataBlock, tempInfo: Info)
    requires Synced(env, db) && GoodRequest(q) && q.sz > 0 && Logical(env, db.flash, q.uid).Nothing?
    requires TargetSize(q.sz) > 0 && Choose(db.info, TargetSize(q.sz), BLK_SIZE) != NoSpace
    ensures Plannable(env, db, q) && Commits(env, db, q, UpdatePlan(env, db, q, temp, tempInfo))
  {
    hide PartCount, Winner, RecordOf, Live, Choose, InitializedBlock, TargetSize, Removed, Logical, Commits, Changes;
    hide InfoMatches, HoldsAt, Appended, AllocatePlan, Finalized, Allocatable;
    SyncedIsPlannable(env, db, q);
    MapPointsAtHolder(env, db, q.uid);
    AllocationStores(env, db, q, 0, INVALID_BLOCK, temp, tempInfo);
    SingleCommits(env, db, q, UpdatePlan(env, db, q, temp, tempInfo),
        Just(Stored(q.sz, 0, Ciphertext(env, q.uid, q.data))));
  }

  /** Between the writes find_uid still finds the old copy, through the old map. */
  lemma OldCopyFound<Key>(env: Env<Key>, db: Db, q: Request, p: Plan)
    requires Synced(env, db) && GoodRequest(q) && Logical(env, db.flash, q.uid).Just?
    requires DataIndex(p.blockNum) && p.blockNum != db.uidMap[q.uid]
    ensures Searchable(db, q.uid) && Found(db, q.uid).Just?
    ensures var mid := BetweenWrites(env, db, p);
      var b := db.uidMap[q.uid];
      && Searchable(mid, q.uid) && Found(mid, q.uid) == Found(db, q.uid)
      && DataIndex(b) && mid.flash[b] == db.flash[b] && mid.info[b] == db.info[b]
      && Live(env, mid.flash[b]) && mid.flash[b].Formed() && Distinct(mid.flash[b])
      && mid.flash[b].tbl[Found(mid, q.uid).value.1].uid == q.uid
  {
    hide PartCount, Winner, RecordOf, Live, Logical, Finalized;
    MapPointsAtHolder(env, db, q.uid);
    HolderIsData(env, db.flash, q.uid, db.uidMap[q.uid]);
  }

  /** A moved record carries the next revision. */
  ghost function RelocatedRecord<Key>(env: Env<Key>, db: Db, q: Request): Stored
    requires Searchable(db, q.uid) && Found(db, q.uid).Just?
  {
    var (b, j) := Found(db, q.uid).value;
    Stored(q.sz, (db.flash[b].tbl[j].rev + 1) % 4, Ciphertext(env, q.uid, q.data))
  }

  lemma OldRevision<Key>(env: Env<Key>, db: Db, uid: nat)
    requires Synced(env, db) && MIN_UID <= uid <= MAX_UID && Logical(env, db.flash, uid).Just?
    ensures Searchable(db, uid) && Found(db, uid).Just? && HoldsAt(env, db.flash, uid, db.uidMap[uid])
    ensures var (b, j) := Found(db, uid).value;
      RecordOf(db.flash[b], uid).rev == db.flash[b].tbl[j].rev
  {
    hide PartCount, Winner, Live, Logical;
    MapPointsAtHolder(env, db, uid);
  }

  lemma RelocationCommits<Key>(env: Env<Key>, db: Db, q: Request, temp: DataBlock, tempInfo: Info)
    requires Synced(env, db) && GoodRequest(q) && q.sz > 0 && Logical(env, db.flash, q.uid).Just?
    requires TargetSize(q.sz) > 0 && db.info[db.uidMap[q.uid]].partSize != TargetSize(q.sz)
    requires Choose(db.info, TargetSize(q.sz), BLK_SIZE) != NoSpace
    requires Choose(db.info, TargetSize(q.sz), BLK_SIZE).block != db.uidMap[q.uid]
    ensures Plannable(env, db, q) && Commits(env, db, q, UpdatePlan(env, db, q, temp, tempInfo))
  {
    hide PartCount, Winner, RecordOf, Live, Choose, InitializedBlock, TargetSize, Removed, Logical, Changes;
    hide InfoMatches, HoldsAt, Appended, Finalized, Allocatable, Clean, FormedFlash, Ciphertext, RemovalBlock;
    hide RemovalInfo, Interrupted;
    SyncedIsPlannable(env, db, q);
    MapPointsAtHolder(env, db, q.uid);
    var (a, j) := Found(db, q.uid).value;
    var p := UpdatePlan(env, db, q, temp, tempInfo);
    var record := RelocatedRecord(env, db, q);
    AllocationStores(env, db, q, record.rev, a, temp, db.info[a]);
    OldCopyFound(env, db, q, p);
    OldRevision(env, db, q.uid);
    BetweenTheWrites(env, db, a, p.blockNum, Finalized(env, p), p.info, q.uid, record);
    var mid := BetweenWrites(env, db, p);
    RemoveFromBlock(env, mid, a, j, Finalized(env, p));
    AfterTheWrites(env, mid, a, p.blockNum, SecondBlock(env, mid, q, Finalized(env, p)),
        RemovalInfo(mid.info[a], true), q.uid);
  }

  // ----- the fallback to the record's own block -----

  /** With the record's own block as its destination the plan is a single write, and it succeeds. */
  lemma OwnBlockPlan<Key>(env: Env<Key>, db: Db, q: Request, temp: DataBlock, tempInfo: Info)
    requires Synced(env, db) && GoodRequest(q) && Searchable(db, q.uid) && OwnBlock(db, q)
    ensures Plannable(env, db, q)
    ensures var b := db.uidMap[q.uid];
      && DataIndex(b) && Live(env, db.flash[b]) && db.flash[b].Formed() && Holds(db.flash[b], q.uid)
      && db.flash[b].occupancy < PartCount(db.flash[b].partSize) && SubBlocksForData(q.sz) <= db.flash[b].partSize
      && var p := UpdatePlan(env, db, q, temp, tempInfo);
      && p.blockNum == b && !Relocates(p) && Finishable(env, db, q, p)
      && Done(env, db, q, p).flash == db.flash[b := WithCrc(env,
           Appended(db.flash[b], q.uid, q.sz, RelocatedRecord(env, db, q).rev, Ciphertext(env, q.uid, q.data)))]
      && Done(env, db, q, p).uidMap == db.uidMap[q.uid := b]
      && Done(env, db, q, p).info == db.info[b := Grown(db.info[b])]
  {
    hide PartCount, Winner, RecordOf, Live, Choose, InitializedBlock, TargetSize, Removed, Logical, Appended;
    hide RealPartSize, Ciphertext, Holds;
    SyncedIsPlannable(env, db, q);
    MapPointsAtHolder(env, db, q.uid);
    var b := db.uidMap[q.uid];
    TargetIsTightest(q.sz);
    RealPartSizesHold(TargetSize(q.sz));
    ChoiceRule(db.info, TargetSize(q.sz), BLK_SIZE);
    RoomIsLive(env, db, b);
  }

  /** The firmware answers OKAY, but the record that reads back is the old one, until the next start: it
      now has two entries and the search stops at the first. */
  lemma OwnBlockKeepsOldRecord<Key>(env: Env<Key>, db: Db, q: Request, temp: DataBlock, tempInfo: Info)
    requires Synced(env, db) && GoodRequest(q) && Searchable(db, q.uid) && OwnBlock(db, q)
    ensures Plannable(env, db, q)
    ensures var p := UpdatePlan(env, db, q, temp, tempInfo);
      var b := db.uidMap[q.uid];
      && p.blockNum == b && p.blockNum != INVALID_BLOCK && Finishable(env, db, q, p)
      && var done := Done(env, db, q, p);
      && Searchable(done, q.uid) && Found(done, q.uid) == Found(db, q.uid)
      && db.flash[b].Formed() && Holds(db.flash[b], q.uid)
      && done.flash[b].Formed() && Live(env, done.flash[b]) && !Distinct(done.flash[b])
      && Holds(done.flash[b], q.uid) && RecordOf(done.flash[b], q.uid) == RecordOf(db.flash[b], q.uid)
  {
    hide PartCount, Winner, Choose, InitializedBlock, TargetSize, Removed, Logical, RealPartSize, Ciphertext;
    hide Plannable, UpdatePlan;
    hide Live, Holds, RecordOf, Appended, Synced, NeedsSpace, StoredAt, Finalized;
    OwnBlockPlan(env, db, q, temp, tempInfo);
    var b := db.uidMap[q.uid];
    var rev := RelocatedRecord(env, db, q).rev;
    SecondEntry(env, db.flash[b], q.uid, q.sz, rev, Ciphertext(env, q.uid, q.data));
    OccupancyOfHolder(env, db, q.uid);
  }

  lemma OccupancyOfHolder<Key>(env: Env<Key>, db: Db, uid: nat)
    requires Synced(env, db) && MIN_UID <= uid <= MAX_UID && db.uidMap[uid] != INVALID_BLOCK
    ensures Searchable(db, uid)
    ensures var b := db.uidMap[uid];
      DataIndex(b) && db.info[b].partOccupancy == db.flash[b].occupancy
  {
    hide PartCount, RecordOf, Live, Logical;
    MapPointsAtHolder(env, db, uid);
  }

  lemma SecondEntry<Key>(env: Env<Key>, b: DataBlock, uid: nat, sz: nat, rev: nat, sealed: seq<Cbc.Block>)
    requires b.Formed() && Holds(b, uid) && b.occupancy < PartCount(b.partSize)
    requires |sealed| == SubBlocksForData(sz) <= b.partSize && MIN_UID <= uid <= MAX_UID && rev < 4
    ensures var a := WithCrc(env, Appended(b, uid, sz, rev, sealed));
      && a.Formed() && Live(env, a) && !Distinct(a) && Holds(a, uid) && RecordOf(a, uid) == RecordOf(b, uid)
      && a.occupancy == b.occupancy + 1 && |a.tbl| == |b.tbl|
      && IndexOf(a.tbl, uid, a.occupancy) == IndexOf(b.tbl, uid, b.occupancy) < b.occupancy
  {
    var a := Appended(b, uid, sz, rev, sealed);
    AppendedIsFormed(b, uid, sz, rev, sealed);
    AppendedRecords(b, uid, sz, rev, sealed, uid);
    LiveAfterCrc(env, a);
    hide PartCount, Live, RecordOf;
    var j := IndexOf(b.tbl, uid, b.occupancy);
    assert a.tbl[j].uid == uid == a.tbl[b.occupancy].uid;
    SearchPrefix(b.tbl, a.tbl, uid, b.occupancy);
  }

  /** An update that is not refused does what was asked, and leaves memory and flash in step, exactly when
      it does not fall back to the record's own block. */
  lemma UpdateIsCorrectExactlyWhen<Key>(env: Env<Key>, db: Db, q: Request, temp: DataBlock, tempInfo: Info)
    requires Synced(env, db) && GoodRequest(q)
    ensures Plannable(env, db, q)
    ensures var p := UpdatePlan(env, db, q, temp, tempInfo);
      p.blockNum != INVALID_BLOCK ==> (Commits(env, db, q, p) <==> !OwnBlock(db, q))
  {
    hide PartCount, Winner, RecordOf, Live, Choose, InitializedBlock, TargetSize, Removed, Logical, Changes;
    hide InfoMatches, Holds, Appended, AllocatePlan, Finalized, Allocatable, UpdatePlan, Done, Ciphertext;
    hide Finishable, BetweenWrites, DataBlock.Formed, Stores;
    RefusedExactlyWhen(env, db, q, temp, tempInfo);
    MapPointsAtHolder(env, db, q.uid);
    if UpdatePlan(env, db, q, temp, tempInfo).blockNum != INVALID_BLOCK {
      if q.sz == 0 {
        DeleteCommits(env, db, q, temp, tempInfo);
      } else if Logical(env, db.flash, q.uid).Nothing? {
        InsertCommits(env, db, q, temp, tempInfo);
      } else if db.info[db.uidMap[q.uid]].partSize == TargetSize(q.sz) {
        ReplaceCommits(env, db, q, temp, tempInfo);
      } else if OwnBlock(db, q) {
        OwnBlockKeepsOldRecord(env, db, q, temp, tempInfo);
      } else {
        ChosenElsewhere(env, db, q);
        RelocationCommits(env, db, q, temp, tempInfo);
      }
    }
  }

  lemma ChosenElsewhere<Key>(env: Env<Key>, db: Db, q: Request)
    requires Synced(env, db) && GoodRequest(q) && Searchable(db, q.uid) && Found(db, q.uid).Just?
    requires NeedsSpace(db, q) && !OwnBlock(db, q) && Choose(db.info, TargetSize(q.sz), BLK_SIZE) != NoSpace
    ensures Choose(db.info, TargetSize(q.sz), BLK_SIZE).block != db.uidMap[q.uid]
  {
    hide PartCount, Winner, RecordOf, Live, TargetSize, Logical, Choose;
    var b := db.uidMap[q.uid];
    OccupancyOfHolder(env, db, q.uid);
    MapPointsAtHolder(env, db, q.uid);
    HolderIsData(env, db.flash, q.uid, b);
    InfoOfLive(env, db, b);
    TargetIsTightest(q.sz);
    RealPartSizesHold(TargetSize(q.sz));
    ChoiceRule(db.info, TargetSize(q.sz), BLK_SIZE);
  }
}
