/** Whole runs of the database, with power losses: it refines a map from uid to record. */
module RecordRuns {
  import opened RecordLayout
  import opened Cbc
  import opened RecordBlock
  import opened BlockChoice
  import opened RecordStore
  import opened RecordEffects
  import opened RecordUpdates
  import opened RecordCommands
  import opened RecordRecovery
  import opened RecordOwnBlock

  /** An update carried through, one cut off after some of its page writes and followed by a start, or a start
      on its own. The scratch buffers hold whatever they hold. */
  datatype Event =
    | Update(q: Request, temp: DataBlock, tempInfo: Info)
    | PowerLoss(q: Request, temp: DataBlock, tempInfo: Info, writes: nat, scanTemp: DataBlock)
    | Restart(scanTemp: DataBlock)

  /** Memory agrees with flash, or an update of `before` has fallen back to the record's own block. */
  datatype Phase = InStep | FellBack(before: Db, q: Request, temp: DataBlock, tempInfo: Info)

  datatype Now = Now(db: Db, phase: Phase)

  function PlanOf<Key>(env: Env<Key>, db: Db, e: Event): Plan
    requires !e.Restart? && Plannable(env, db, e.q)
  {
    UpdatePlan(env, db, e.q, e.temp, e.tempInfo)
  }

  ghost predicate FallsBack(db: Db, q: Request) {
    Searchable(db, q.uid) && OwnBlock(db, q)
  }

  /** Refused with NOT_ENOUGH_SPACE. */
  ghost predicate Refused<Key>(env: Env<Key>, db: Db, e: Event)
    requires !e.Restart?
  {
    !Plannable(env, db, e.q) || PlanOf(env, db, e).blockNum == INVALID_BLOCK
  }

  /** What a caller can see to before an event: the request is well formed, the power fails after one of the
      writes there are, and an update that has fallen back to the record's own block is followed by a start. */
  ghost predicate Allowed<Key>(env: Env<Key>, now: Now, e: Event) {
    e.Restart? || (
      && GoodRequest(e.q)
      && now.phase.InStep?
      && (e.PowerLoss? ==> e.writes <= if Refused(env, now.db, e) then 0 else WriteCount(PlanOf(env, now.db, e))))
  }

  ghost function FlashAtLoss<Key>(env: Env<Key>, db: Db, e: Event): seq<DataBlock>
    requires e.PowerLoss?
  {
    if Refused(env, db, e) || !Finishable(env, db, e.q, PlanOf(env, db, e)) then db.flash
    else FlashAfter(env, db, e.q, PlanOf(env, db, e), e.writes)
  }

  ghost function Started<Key>(env: Env<Key>, now: Now, flash: seq<DataBlock>, scanTemp: DataBlock): Now {
    if Shaped(env, flash) then Now(Rebooted(env, flash, scanTemp), InStep) else now
  }

  ghost function Next<Key>(env: Env<Key>, now: Now, e: Event): Now {
    match e
    case Update(q, temp, tempInfo) =>
      if Refused(env, now.db, e) || !Finishable(env, now.db, q, PlanOf(env, now.db, e)) then now
      else
        Now(Done(env, now.db, q, PlanOf(env, now.db, e)),
            if FallsBack(now.db, q) then FellBack(now.db, q, temp, tempInfo) else InStep)
    case PowerLoss(_, _, _, _, scanTemp) => Started(env, now, FlashAtLoss(env, now.db, e), scanTemp)
    case Restart(scanTemp) => Started(env, now, now.db.flash, scanTemp)
  }

  function Applied(m: map<nat, Request>, q: Request): map<nat, Request> {
    if q.sz == 0 then m - {q.uid} else m[q.uid := q]
  }

  /** What the caller reads: an update counts at once unless it was refused, or cut off before its first write;
      one that fell back to the record's own block counts from the next start on. */
  ghost function NextRecords<Key>(env: Env<Key>, now: Now, m: map<nat, Request>, e: Event): map<nat, Request> {
    match e
    case Update(q, _, _) => if Refused(env, now.db, e) || FallsBack(now.db, q) then m else Applied(m, q)
    case PowerLoss(q, _, _, writes, _) => if Refused(env, now.db, e) || writes == 0 then m else Applied(m, q)
    case Restart(_) => if now.phase.FellBack? then Applied(m, now.phase.q) else m
  }

  ghost predicate GoodRun<Key>(env: Env<Key>, now: Now, es: seq<Event>)
    decreases |es|
  {
    es != [] ==> Allowed(env, now, es[0]) && GoodRun(env, Next(env, now, es[0]), es[1..])
  }

  ghost function Run<Key>(env: Env<Key>, now: Now, es: seq<Event>): Now
    decreases |es|
  {
    if es == [] then now else Run(env, Next(env, now, es[0]), es[1..])
  }

  ghost function RunRecords<Key>(env: Env<Key>, now: Now, m: map<nat, Request>, es: seq<Event>): map<nat, Request>
    decreases |es|
  {
    if es == [] then m else RunRecords(env, Next(env, now, es[0]), NextRecords(env, now, m, es[0]), es[1..])
  }

  ghost predicate AgreeOn<Key>(env: Env<Key>, flash: seq<DataBlock>, m: map<nat, Request>, uid: nat)
    requires FormedFlash(env, flash)
  {
    match Logical(env, flash, uid)
    case Nothing => uid !in m
    case Just(s) => uid in m && m[uid].sz == s.sz > 0 && s.sealed == Ciphertext(env, uid, m[uid].data)
  }

  /** Flash holds exactly the records of the map, each encrypted with its uid's IV. */
  ghost predicate Agree<Key>(env: Env<Key>, flash: seq<DataBlock>, m: map<nat, Request>) {
    FormedFlash(env, flash) && forall uid: nat :: AgreeOn(env, flash, m, uid)
  }

  lemma StoredAgrees<Key>(env: Env<Key>, f: seq<DataBlock>, g: seq<DataBlock>, m: map<nat, Request>, q: Request)
    requires Agree(env, f, m) && Stores(env, f, g, q)
    ensures Agree(env, g, Applied(m, q))
  {
    hide FormedFlash, Logical, Ciphertext;
    forall uid: nat ensures AgreeOn(env, g, Applied(m, q), uid) {
      assert AgreeOn(env, f, m, uid);
    }
  }

  lemma UnchangedAgrees<Key>(env: Env<Key>, f: seq<DataBlock>, g: seq<DataBlock>, m: map<nat, Request>)
    requires Agree(env, f, m) && FormedFlash(env, g)
    requires forall u: nat :: Logical(env, g, u) == Logical(env, f, u)
    ensures Agree(env, g, m)
  {
    hide FormedFlash, Logical, Ciphertext;
    forall uid: nat ensures AgreeOn(env, g, m, uid) {
      assert AgreeOn(env, f, m, uid);
    }
  }

  /** In step with flash, memory is what a scan would build and flash holds the records of the map. After a
      fallback that was so before the update. */
  ghost predicate Refines<Key>(env: Env<Key>, now: Now, m: map<nat, Request>) {
    match now.phase
    case InStep => Synced(env, now.db) && Agree(env, now.db.flash, m)
    case FellBack(before, q, temp, tempInfo) =>
      && Synced(env, before) && Agree(env, before.flash, m)
      && GoodRequest(q) && FallsBack(before, q) && Plannable(env, before, q)
      && var p := UpdatePlan(env, before, q, temp, tempInfo);
      Finishable(env, before, q, p) && now.db == Done(env, before, q, p)
  }

  lemma UpdateRefines<Key>(env: Env<Key>, now: Now, m: map<nat, Request>, e: Event)
    requires now.phase.InStep? && Refines(env, now, m) && Allowed(env, now, e) && e.Update?
    ensures Refines(env, Next(env, now, e), NextRecords(env, now, m, e))
  {
    hide Winner, Logical, Agree, OwnBlock, UpdatePlan, Done, Stores, Ciphertext, Finishable, Tables, Plannable, Synced;
    var db := now.db;
    SyncedIsPlannable(env, db, e.q);
    assert Searchable(db, e.q.uid) by { MapPointsAtHolder(env, db, e.q.uid); }
    UpdateIsCorrectExactlyWhen(env, db, e.q, e.temp, e.tempInfo);
    if Refused(env, db, e) {
      RefusedStays(env, now, e);
    } else if FallsBack(db, e.q) {
      OwnBlockKeepsReads(env, db, e.q, e.temp, e.tempInfo, e.q.uid);
    } else {
      StoredAgrees(env, db.flash, Next(env, now, e).db.flash, m, e.q);
    }
  }

  lemma RefusedStays<Key>(env: Env<Key>, now: Now, e: Event)
    requires e.Update? && Refused(env, now.db, e)
    ensures Next(env, now, e) == now
  {
  }

  lemma PowerLossRefines<Key>(env: Env<Key>, now: Now, m: map<nat, Request>, e: Event)
    requires now.phase.InStep? && Refines(env, now, m) && Allowed(env, now, e) && e.PowerLoss?
    ensures Refines(env, Next(env, now, e), NextRecords(env, now, m, e))
  {
    hide Winner, Logical, Agree, OwnBlock, UpdatePlan, Done, Stores, Ciphertext, Tables, Plannable, Rebooted;
    hide FlashAfter, Finishable, WriteCount;
    hide Shaped, Synced;
    var db := now.db;
    SyncedIsPlannable(env, db, e.q);
    assert Searchable(db, e.q.uid) by { MapPointsAtHolder(env, db, e.q.uid); }
    UpdateIsCorrectExactlyWhen(env, db, e.q, e.temp, e.tempInfo);
    if Refused(env, db, e) {
      StartKeepsRecords(env, now, m, e.scanTemp);
    } else if FallsBack(db, e.q) {
      LossInOwnBlock(env, now, m, e);
    } else {
      var p := PlanOf(env, db, e);
      UpdateIsAtomic(env, db, e.q, p, e.writes, e.scanTemp);
      if e.writes == 0 {
        SyncedIsClean(env, Next(env, now, e).db);
        UnchangedAgrees(env, db.flash, Next(env, now, e).db.flash, m);
      } else {
        StoredAgrees(env, db.flash, Next(env, now, e).db.flash, m, e.q);
      }
    }
  }

  /** The one write of an update that falls back has the start after it find the new record. */
  lemma LossInOwnBlock<Key>(env: Env<Key>, now: Now, m: map<nat, Request>, e: Event)
    requires now.phase.InStep? && Refines(env, now, m) && Allowed(env, now, e) && e.PowerLoss?
    requires !Refused(env, now.db, e) && FallsBack(now.db, e.q)
    ensures Refines(env, Next(env, now, e), NextRecords(env, now, m, e))
  {
    hide Winner, Logical, Agree, OwnBlock, UpdatePlan, Stores, Ciphertext, Tables, Plannable, Rebooted, Shaped;
    hide Synced, FirstClash, Settled;
    var db := now.db;
    OwnBlockPlan(env, db, e.q, e.temp, e.tempInfo);
    OwnBlockHealsAtStart(env, db, e.q, e.temp, e.tempInfo, e.scanTemp);
    if e.writes == 0 {
      StartKeepsRecords(env, now, m, e.scanTemp);
    } else {
      StoredAgrees(env, db.flash, Next(env, now, e).db.flash, m, e.q);
    }
  }

  lemma SyncedIsClean<Key>(env: Env<Key>, db: Db)
    requires Synced(env, db)
    ensures Clean(env, db.flash)
  {
  }

  lemma StartKeepsRecords<Key>(env: Env<Key>, now: Now, m: map<nat, Request>, temp: DataBlock)
    requires now.phase.InStep? && Refines(env, now, m)
    ensures Refines(env, Started(env, now, now.db.flash, temp), m)
  {
    hide Winner, Logical, Agree, Tables, Rebooted, Shaped, Synced;
    SyncedIsClean(env, now.db);
    RebootOfRecoverable(env, now.db.flash, temp);
    SyncedIsClean(env, Rebooted(env, now.db.flash, temp));
    UnchangedAgrees(env, now.db.flash, Rebooted(env, now.db.flash, temp).flash, m);
  }

  lemma RestartRefines<Key>(env: Env<Key>, now: Now, m: map<nat, Request>, e: Event)
    requires Refines(env, now, m) && e.Restart?
    ensures Refines(env, Next(env, now, e), NextRecords(env, now, m, e))
  {
    hide Winner, Logical, Agree, UpdatePlan, Done, Stores, Ciphertext, Tables, Plannable, Rebooted, Shaped, Synced;
    hide FirstClash, Settled, OwnBlock;
    match now.phase
    case InStep => StartKeepsRecords(env, now, m, e.scanTemp);
    case FellBack(before, q, temp, tempInfo) =>
      OwnBlockHealsAtStart(env, before, q, temp, tempInfo, e.scanTemp);
      StoredAgrees(env, before.flash, Next(env, now, e).db.flash, m, q);
  }

  /** The database refines a map from uid to record, over every run of updates, power losses and starts: in step
      with flash, memory equals what a fresh scan would rebuild and flash holds exactly the map's records; an
      update that falls back to the record's own block changes the map at the next start. */
  lemma {:induction false} RunRefinesMap<Key>(env: Env<Key>, now: Now, m: map<nat, Request>, es: seq<Event>)
    requires Refines(env, now, m) && GoodRun(env, now, es)
    ensures Refines(env, Run(env, now, es), RunRecords(env, now, m, es))
    decreases |es|
  {
    hide Refines, Next, NextRecords;
    if es != [] {
      match es[0] {
        case Update(_, _, _) => UpdateRefines(env, now, m, es[0]);
        case PowerLoss(_, _, _, _, _) => PowerLossRefines(env, now, m, es[0]);
        case Restart(_) => RestartRefines(env, now, m, es[0]);
      }
      RunRefinesMap(env, Next(env, now, es[0]), NextRecords(env, now, m, es[0]), es[1..]);
    }
  }

  /** The incremental index equals a rebuilt one: after any run the map is the one a scan of the flash would
      build, and every entry of the block table agrees with the block, unless the run ends in a fallback. */
  lemma IndexEqualsRebuiltIndex<Key>(env: Env<Key>, now: Now, m: map<nat, Request>, es: seq<Event>, uid: nat, i: nat)
    requires Refines(env, now, m) && GoodRun(env, now, es) && Run(env, now, es).phase.InStep?
    requires MIN_UID <= uid <= MAX_UID && DataIndex(i)
    ensures var db := Run(env, now, es).db;
      && Clean(env, db.flash) && |db.info| == NUM_BLOCKS && |db.uidMap| == MAX_UID + 1
      && db.uidMap[uid] == ScannedMap(env, db.flash)[uid]
      && var scanned := ScannedInfo(env, db.flash)[i];
      && db.info[i].valid == scanned.valid && db.info[i].occupied == scanned.occupied
      && (scanned.valid && scanned.occupied ==> db.info[i] == scanned)
  {
    hide Winner, Logical, Agree, AtMostOne, Run, GoodRun, PartCount;
    RunRefinesMap(env, now, m, es);
    var db := Run(env, now, es).db;
    assert InfoMatches(env, db.flash[i], db.info[i]);
    ScanMatches(env, db.flash[i], BLANK_INFO);
    if Live(env, db.flash[i]) {
      InfoOfLive(env, db, i);
      RealPartSizesHold(db.flash[i].partSize);
    }
  }

  // ----- reading -----

  /** decode_uid, before the mask. */
  function Decoded<Key>(env: Env<Key>, db: Db, uid: nat, b: nat, j: nat): seq<Cbc.Block>
    requires b < |db.flash| && j < |db.flash[b].tbl| && j < |db.flash[b].parts|
    requires SubBlocksForData(db.flash[b].tbl[j].sz) <= |db.flash[b].parts[j]|
  {
    CbcDecrypt(env.cipher, env.key, env.iv(uid), db.flash[b].parts[j][..SubBlocksForData(db.flash[b].tbl[j].sz)])
  }

  ghost predicate ReadsAs<Key>(env: Env<Key>, db: Db, m: map<nat, Request>, uid: nat) {
    && Searchable(db, uid)
    && match Found(db, uid)
       case Nothing => uid !in m
       case Just((b, j)) =>
         && uid in m
         && j < |db.flash[b].tbl| && j < |db.flash[b].parts|
         && db.flash[b].tbl[j].sz == m[uid].sz
         && SubBlocksForData(m[uid].sz) <= |db.flash[b].parts[j]|
         && Decoded(env, db, uid, b, j) == m[uid].data
  }

  lemma InStepReads<Key(!new)>(env: Env<Key>, db: Db, m: map<nat, Request>, uid: nat)
    requires Synced(env, db) && Agree(env, db.flash, m) && Permutes(env.cipher) && MIN_UID <= uid <= MAX_UID
    ensures ReadsAs(env, db, m, uid)
  {
    hide Winner, Logical, AtMostOne, PartCount, Clean, Tables, CbcEncrypt, CbcDecrypt;
    MapPointsAtHolder(env, db, uid);
    assert AgreeOn(env, db.flash, m, uid);
    if Found(db, uid).Just? {
      var (b, j) := Found(db, uid).value;
      HolderIsData(env, db.flash, uid, b);
      assert GoodEntry(db.flash[b].tbl[j], db.flash[b].partSize);
      DecryptUndoesEncrypt(env.cipher, env.key, env.iv(uid), m[uid].data);
    }
  }

  /** After any run a read finds a record exactly when the map has one, and decrypts to the bytes last stored;
      between a fallback and the next start as well. */
  lemma ReadReturnsLastStored<Key(!new)>(env: Env<Key>, now: Now, m: map<nat, Request>, es: seq<Event>, uid: nat)
    requires Refines(env, now, m) && GoodRun(env, now, es) && Permutes(env.cipher) && MIN_UID <= uid <= MAX_UID
    ensures ReadsAs(env, Run(env, now, es).db, RunRecords(env, now, m, es), uid)
  {
    hide Winner, Logical, Agree, Synced, Run, RunRecords, GoodRun, CbcDecrypt, Plannable, UpdatePlan, Done, OwnBlock;
    hide Found;
    RunRefinesMap(env, now, m, es);
    var end, records := Run(env, now, es), RunRecords(env, now, m, es);
    match end.phase
    case InStep => InStepReads(env, end.db, records, uid);
    case FellBack(before, q, temp, tempInfo) =>
      InStepReads(env, before, records, uid);
      OwnBlockKeepsReads(env, before, q, temp, tempInfo, uid);
  }
}
