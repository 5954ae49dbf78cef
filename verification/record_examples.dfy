/** A run from a formatted database to one in which an update falls back to the record's own block. Records of
    127 sub-blocks take every block that is free after formatting, four of 31 sub-blocks fill the block for
    their size, and one of 63, alone in its block, is then to shrink to 31. */
module RecordExamples {
  import opened Arithmetic
  import opened RecordLayout
  import opened Cbc
  import opened RecordBlock
  import opened BlockChoice
  import opened RecordStore
  import opened RecordEffects
  import opened RecordUpdates
  import opened RecordCommands
  import opened RecordRecovery
  import opened RecordRuns

  // ----- the formatted database -----

  const ERASED_BLOCK := DataBlock(INVALID_CRC, INVALID_PART_SIZE, 0xffff, [], [])

  /** Formatting gives the first blocks one partition size each and leaves the others erased. */
  function FormattedFlash<Key>(env: Env<Key>): seq<DataBlock> {
    seq(NUM_BLOCKS, i requires 0 <= i < NUM_BLOCKS =>
      if MIN_DATA_BLOCK <= i < MIN_DATA_BLOCK + |PART_SIZES| then
          WithCrc(env, InitializedBlock(PART_SIZES[i - MIN_DATA_BLOCK]))
      else ERASED_BLOCK)
  }

  lemma FormattedBlock<Key>(env: Env<Key>, i: nat, uid: nat)
    requires DataIndex(i)
    ensures var b := FormattedFlash(env)[i];
      if i <= 11 then
        && Live(env, b) && b.Formed() && Distinct(b) && !Holds(b, uid)
        && b.partSize == PART_SIZES[i - 1] && b.occupancy == 0
      else b.Free()
  {
    hide PartCount;
    if i <= 11 {
      assert RealPartSize(PART_SIZES[i - 1]);
      InitializedIsEmpty(PART_SIZES[i - 1], uid);
      LiveAfterCrc(env, InitializedBlock(PART_SIZES[i - 1]));
    }
  }

  lemma FormattedIsClean<Key>(env: Env<Key>)
    ensures Clean(env, FormattedFlash(env)) && Shaped(env, FormattedFlash(env))
    ensures forall u: nat, i: nat :: !HoldsAt(env, FormattedFlash(env), u, i)
  {
    hide PartCount, Holds, FormattedFlash;
    var flash := FormattedFlash(env);
    assert |flash| == NUM_BLOCKS by { FormattedSize(env); }
    forall i: nat | DataIndex(i) && Live(env, flash[i]) ensures flash[i].Formed() && Distinct(flash[i]) {
      FormattedBlock(env, i, 0);
    }
    forall u: nat, i: nat ensures !HoldsAt(env, flash, u, i) {
      if DataIndex(i) {
        FormattedBlock(env, i, u);
      }
    }
  }

  lemma FormattedSize<Key>(env: Env<Key>)
    ensures |FormattedFlash(env)| == NUM_BLOCKS
  {
  }

  // ----- how full it is -----

  ghost predicate Holding(i: Info, partSize: nat, occupancy: nat, count: nat) {
    i.valid && i.occupied && i.partSize == partSize && i.partOccupancy == occupancy && i.partCount == count
  }

  /** Blocks from 11 up to `k` are full, block 9 holds n of its four records, block 10 holds m of its two. */
  ghost predicate Crowd(info: seq<Info>, k: nat, n: nat, m: nat)
  {
    && |info| == NUM_BLOCKS && 11 <= k <= NUM_BLOCKS
    && (forall i :: 1 <= i <= 8 ==> info[i].valid && info[i].occupied && info[i].partSize < 31)
    && Holding(info[9], 31, n, 4)
    && Holding(info[10], 63, m, 2)
    && (forall i :: 11 <= i < k ==> Holding(info[i], 127, 1, 1))
    && (k == 11 ==> Holding(info[11], 127, 0, 1))
    && (forall i :: 12 <= i < NUM_BLOCKS && k <= i ==> Vacant(info[i]))
  }

  /** Everything up to, but not including, record u is stored. */
  ghost predicate FilledUpTo<Key>(env: Env<Key>, db: Db, u: nat) {
    && Synced(env, db)
    && 11 <= u <= 101
    && Crowd(db.info, Min(u, 96), if u < 96 then 0 else Min(u - 96, 4), if u <= 100 then 0 else 1)
    && (forall v: nat :: u <= v <= MAX_UID ==> db.uidMap[v] == INVALID_BLOCK)
    && (u == 101 ==> db.uidMap[100] == 10)
  }

  lemma Counts()
    ensures PartCount(31) == 4 && PartCount(63) == 2 && PartCount(127) == 1
  {
    hide CountFor;
    CountIsLargest(MAX_SUB_BLOCKS, 31, 4);
    CountIsLargest(MAX_SUB_BLOCKS, 31, 5);
    CountIsLargest(MAX_SUB_BLOCKS, 63, 2);
    CountIsLargest(MAX_SUB_BLOCKS, 63, 3);
    CountIsLargest(MAX_SUB_BLOCKS, 127, 1);
    CountIsLargest(MAX_SUB_BLOCKS, 127, 2);
  }

  lemma FormattedIsReady<Key>(env: Env<Key>, temp: DataBlock)
    ensures Shaped(env, FormattedFlash(env))
    ensures FilledUpTo(env, Rebooted(env, FormattedFlash(env), temp), 11)
    ensures Agree(env, Rebooted(env, FormattedFlash(env), temp).flash, map[])
  {
    hide PartCount, Winner, Scanned, Live, FormattedFlash, ScanAll, Holds, HoldsAt, Logical, InfoMatches, Clean;
    var flash := FormattedFlash(env);
    FormattedIsClean(env);
    ScanOfClean(env, flash, temp);
    OneScanSuffices(env, flash, temp);
    RebootIsSynced(env, flash, temp);
    var db := Rebooted(env, flash, temp);
    FormattedInfo(env, db);
    NothingStored(env, db);
  }

  lemma NothingStored<Key>(env: Env<Key>, db: Db)
    requires Synced(env, db) && db.flash == FormattedFlash(env)
    ensures Agree(env, db.flash, map[]) && forall v: nat :: MIN_UID <= v <= MAX_UID ==> db.uidMap[v] == INVALID_BLOCK
  {
    hide Winner, HoldsAt, Logical, AtMostOne, InfoMatches, FormattedFlash;
    FormattedIsClean(env);
    forall v: nat ensures Winner(env, db.flash, v, NUM_BLOCKS) == 0 && Logical(env, db.flash, v) == Nothing {
      LogicalOfNone(env, db.flash, v);
    }
  }

  lemma FormattedInfo<Key>(env: Env<Key>, db: Db)
    requires Synced(env, db) && db.flash == FormattedFlash(env)
    ensures Crowd(db.info, 11, 0, 0)
  {
    hide PartCount, Winner, Live, Holds, AtMostOne, FormattedFlash;
    Counts();
    forall i: nat | DataIndex(i)
      ensures i <= 11 ==> Holding(db.info[i], PART_SIZES[i - 1], 0, PartCount(PART_SIZES[i - 1]))
      ensures i > 11 ==> Vacant(db.info[i])
    {
      FormattedBlock(env, i, 0);
      if i <= 11 {
        InfoOfLive(env, db, i);
      } else {
        assert InfoMatches(env, db.flash[i], db.info[i]);
      }
    }
  }

  // ----- one record more -----

  function RecordOfSize(uid: nat, partSize: nat): Request {
    Request(uid, SUB_BLK_DATA_SIZE * partSize, seq(partSize, _ => ZERO_BLOCK))
  }

  lemma SizedRequest(uid: nat, partSize: nat)
    requires MIN_UID <= uid <= MAX_UID && RealPartSize(partSize)
    ensures var q := RecordOfSize(uid, partSize);
      GoodRequest(q) && q.sz > 0 && TargetSize(q.sz) == partSize
  {
    RealPartSizesHold(partSize);
    TargetIsTightest(SUB_BLK_DATA_SIZE * partSize);
  }

  /** A new record that finds space, as an event of a run. */
  lemma InsertEvent<Key>(env: Env<Key>, db: Db, q: Request, temp: DataBlock, tempInfo: Info)
    requires Synced(env, db) && GoodRequest(q) && q.sz > 0 && TargetSize(q.sz) > 0 && db.uidMap[q.uid] == INVALID_BLOCK
    requires Choose(db.info, TargetSize(q.sz), BLK_SIZE) != NoSpace
    ensures var e, now, c := Update(q, temp, tempInfo), Now(db, InStep), Choose(db.info, TargetSize(q.sz), BLK_SIZE);
      && Allowed(env, now, e)
      && var next := Next(env, now, e);
      && next.phase.InStep? && Synced(env, next.db)
      && c.block < NUM_BLOCKS == |db.info| && |db.uidMap| == MAX_UID + 1
      && next.db.uidMap == db.uidMap[q.uid := c.block]
      && next.db.info == db.info[c.block :=
           Grown(if c.Existing? then db.info[c.block] else FreshInfo(tempInfo, TargetSize(q.sz)))]
  {
    hide PartCount, Winner, RecordOf, Live, Choose, InitializedBlock, TargetSize, Logical, Appended, Ciphertext;
    hide Allocatable, Stores;
    MapPointsAtHolder(env, db, q.uid);
    InsertCommits(env, db, q, temp, tempInfo);
  }

  lemma {:induction false} FirstFreeAt(info: seq<Info>, from: nat, b: nat)
    requires 0 < from <= b < |info| && Vacant(info[b]) && forall i :: from <= i < b ==> !Vacant(info[i])
    ensures FirstFree(info, from) == b
    decreases b - from
  {
    if from < b {
      FirstFreeAt(info, from + 1, b);
    }
  }

  /** Where the next record goes: to block 11 and the free ones in turn, to block 9, to block 10. */
  function NextBlock(u: nat): Choice {
    if 12 <= u < 96 then Fresh(u) else Existing(if u == 11 then 11 else if u < 100 then 9 else 10)
  }

  lemma FreeBlockIsNext(info: seq<Info>, u: nat)
    requires 12 <= u < 96 && Crowd(info, u, 0, 0)
    ensures Choose(info, 127, BLK_SIZE) == NextBlock(u)
  {
    hide BestFit, FirstExact, FirstFree;
    FirstFreeAt(info, MIN_DATA_BLOCK, u);
    assert FirstExact(info, 127, MIN_DATA_BLOCK) == 0;
  }

  lemma SizedBlockIsNext(info: seq<Info>, u: nat)
    requires u == 11 || 96 <= u <= 100
    requires Crowd(info, Min(u, 96), if u < 96 then 0 else u - 96, 0)
    ensures Choose(info, SizeFor(u), BLK_SIZE) == NextBlock(u)
  {
    ChoiceRule(info, SizeFor(u), BLK_SIZE);
    hide Choose;
    var b := NextBlock(u).block;
    assert ExactRoom(info[b], SizeFor(u)) && LargerRoom(info[b], SizeFor(u), BLK_SIZE);
    assert Choose(info, SizeFor(u), BLK_SIZE).Existing?;
    forall i | 0 < i < NUM_BLOCKS && LargerRoom(info[i], SizeFor(u), BLK_SIZE)
      ensures i == b || info[i].partSize > info[b].partSize
    {
    }
  }

  function SizeFor(u: nat): nat {
    if u < 96 then 127 else if u < 100 then 31 else 63
  }

  lemma CrowdGrows(info: seq<Info>, u: nat, grown: Info)
    requires 11 <= u <= 100 && Crowd(info, Min(u, 96), if u < 96 then 0 else u - 96, 0) && Holding(grown, 127, 1, 1)
    ensures var b := NextBlock(u).block;
      Crowd(info[b := if 12 <= u < 96 then grown else Grown(info[b])],
            Min(u + 1, 96), if u < 95 then 0 else Min(u + 1 - 96, 4), if u < 100 then 0 else 1)
  {
  }

  lemma OneMoreRecord<Key>(env: Env<Key>, db: Db, u: nat, temp: DataBlock, tempInfo: Info)
    requires FilledUpTo(env, db, u) && u <= 100
    ensures var e, now := Update(RecordOfSize(u, SizeFor(u)), temp, tempInfo), Now(db, InStep);
      && Allowed(env, now, e)
      && Next(env, now, e).phase.InStep?
      && FilledUpTo(env, Next(env, now, e).db, u + 1)
  {
    hide Choose, TargetSize, Allowed, Next, Synced, PartCount;
    assert SizeFor(u) in PART_SIZES by { assert PART_SIZES[8] == 31 && PART_SIZES[9] == 63 && PART_SIZES[10] == 127; }
    SizedRequest(u, SizeFor(u));
    if 12 <= u < 96 {
      FreeBlockIsNext(db.info, u);
    } else {
      SizedBlockIsNext(db.info, u);
    }
    InsertEvent(env, db, RecordOfSize(u, SizeFor(u)), temp, tempInfo);
    Counts();
    CrowdGrows(db.info, u, Grown(FreshInfo(tempInfo, 127)));
    hide Crowd;
  }

  function Filling(u: nat, temp: DataBlock, tempInfo: Info): seq<Event>
    decreases 101 - u
  {
    if u > 100 then [] else [Update(RecordOfSize(u, SizeFor(u)), temp, tempInfo)] + Filling(u + 1, temp, tempInfo)
  }

  lemma {:induction false} FillingRun<Key>(env: Env<Key>, db: Db, u: nat, temp: DataBlock, tempInfo: Info)
    requires FilledUpTo(env, db, u)
    ensures GoodRun(env, Now(db, InStep), Filling(u, temp, tempInfo))
    ensures var end := Run(env, Now(db, InStep), Filling(u, temp, tempInfo));
      end.phase.InStep? && FilledUpTo(env, end.db, 101)
    decreases 101 - u
  {
    hide FilledUpTo, Allowed, Next, RecordOfSize;
    if u <= 100 {
      assert Filling(u, temp, tempInfo)[1..] == Filling(u + 1, temp, tempInfo);
      OneMoreRecord(env, db, u, temp, tempInfo);
      FillingRun(env, Next(env, Now(db, InStep), Filling(u, temp, tempInfo)[0]).db, u + 1, temp, tempInfo);
    } else {
      assert u == 101 by { LastUid(env, db, u); }
    }
  }

  lemma LastUid<Key>(env: Env<Key>, db: Db, u: nat)
    requires FilledUpTo(env, db, u)
    ensures u <= 101
  {
  }

  // ----- the fallback -----

  const SHRINK := RecordOfSize(100, 31)

  lemma CrowdedChoice(info: seq<Info>)
    requires Crowd(info, 96, 4, 1)
    ensures Choose(info, 31, BLK_SIZE) == Existing(10)
  {
    ChoiceRule(info, 31, BLK_SIZE);
    hide Choose;
    assert LargerRoom(info[10], 31, BLK_SIZE);
  }

  /** The guard of UpdateIsCorrectExactlyWhen is not idle: inserting 90 records after formatting leads to a
      database in which a request meets it. */
  lemma OwnBlockHappens<Key>(env: Env<Key>, temp: DataBlock, tempInfo: Info)
    ensures Shaped(env, FormattedFlash(env))
    ensures var start := Now(Rebooted(env, FormattedFlash(env), temp), InStep);
      && Refines(env, start, map[])
      && GoodRun(env, start, Filling(11, temp, tempInfo))
      && var end := Run(env, start, Filling(11, temp, tempInfo));
      && end.phase.InStep? && GoodRequest(SHRINK) && FallsBack(end.db, SHRINK)
  {
    hide Choose, TargetSize, Run, GoodRun, Filling, Agree, Rebooted, FormattedFlash, Shaped, Winner, PartCount;
    hide AtMostOne, InfoMatches;
    FormattedIsReady(env, temp);
    var db := Rebooted(env, FormattedFlash(env), temp);
    FillingRun(env, db, 11, temp, tempInfo);
    var end := Run(env, Now(db, InStep), Filling(11, temp, tempInfo)).db;
    assert PART_SIZES[8] == 31;
    SizedRequest(100, 31);
    CrowdedChoice(end.info);
    RecordIsFound(env, end, 100);
  }

  lemma RecordIsFound<Key>(env: Env<Key>, db: Db, uid: nat)
    requires Synced(env, db) && MIN_UID <= uid <= MAX_UID && db.uidMap[uid] != INVALID_BLOCK
    ensures Searchable(db, uid) && Found(db, uid).Just?
  {
    hide PartCount, Winner, Live, RecordOf;
    MapPointsAtHolder(env, db, uid);
  }
}
