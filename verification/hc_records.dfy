/** What the asynchronous database's commands do to the records, and whole runs of them. */
module HcRecords {
  import opened Cbc
  import opened RecordLayout
  import opened RecordBlock
  import opened BlockChoice
  import opened RecordStore
  import opened HcStore
  import opened HcCommands

  // ----- the answer -----

  function Direct<Key>(env: Env<Key>, d: Disk, q: Request, temp: DataBlock, stray: HcPlan): Result
    requires Readable(env, DirectView(d), d.info, d.uidMap, q)
  {
    Update(env, DirectView(d), d.info, d.uidMap, q, temp, stray)
  }

  /** The record is there, or there is a block for it: what a caller has to know for the command to end as
      documented. */
  predicate Served(d: Disk, q: Request)
    requires q.uid < |d.uidMap| && |d.info| > 0
  {
    d.uidMap[q.uid] != INVALID_BLOCK || (q.sz > 0 && Choose(d.info, MAX_PART_SIZE, HC_BLK_SIZE) != NoSpace)
  }

  /** The command ends with the write of a data block exactly when it is served. Otherwise: deleting an absent
      uid gives no answer at all, and storing without space is not reported but goes on with block 0. */
  lemma AnswersExactlyWhen<Key>(env: Env<Key>, d: Disk, q: Request, temp: DataBlock, stray: HcPlan)
    requires DiskOk(env, d) && HcGoodRequest(q)
    ensures Readable(env, DirectView(d), d.info, d.uidMap, q)
    ensures var r := Direct(env, d, q, temp, stray);
      && (r.Success? && MIN_DATA_BLOCK <= r.plan.blockNum < HC_NUM_BLOCKS <==> Served(d, q))
      && (r.Invalid? <==> !Served(d, q) && q.sz == 0)
      && (r.Success? && r.plan.blockNum == INVALID_BLOCK <==> !Served(d, q) && q.sz > 0)
      && !r.NoSpaceLeft?
  {
    hide Live, IndexOf, Choose, Appended, Removed, RemovalBlock, RemovalInfo, Ciphertext, DirectView;
    assert Truthful(DirectView(d), d) by { DirectIsTruthful(d); }
    TruthfulIsReadable(env, DirectView(d), d, q);
    ViewGivesDirectResult(env, DirectView(d), d, q, temp, stray);
    ChoiceRule(d.info, MAX_PART_SIZE, HC_BLK_SIZE);
    if d.uidMap[q.uid] != INVALID_BLOCK {
      CarriedIsFound(env, d, q.uid);
      DirectShows(d, d.uidMap[q.uid]);
    } else if Choose(d.info, MAX_PART_SIZE, HC_BLK_SIZE).Existing? {
      DirectShows(d, Choose(d.info, MAX_PART_SIZE, HC_BLK_SIZE).block);
    }
  }

  lemma DirectIsTruthful(d: Disk)
    ensures Truthful(DirectView(d), d)
  {
  }

  lemma DirectShows(d: Disk, b: nat)
    requires b < |d.storage|
    ensures DirectView(d)(b) == Just(d.storage[b])
  {
  }

  // ----- the block that is written -----

  /** A block with the record of q as its one entry. */
  ghost predicate HasRecord<Key>(env: Env<Key>, b: DataBlock, q: Request) {
    && HcFormed(b) && Live(env, b) && Carries(b, q.uid)
    && b.tbl[0].sz == q.sz
    && |q.data| <= |b.parts[0]|
    && b.parts[0][..|q.data|] == Ciphertext(env, q.uid, q.data)
  }

  lemma AppendedHasRecord<Key>(env: Env<Key>, b: DataBlock, q: Request, rev: nat)
    requires HcGoodRequest(q) && b.partSize == MAX_PART_SIZE && b.occupancy == 0 && |b.tbl| == |b.parts| == 1
    requires |b.parts[0]| == MAX_PART_SIZE
    ensures HasRecord(env, WithCrc(env, Appended(b, q.uid, q.sz, rev, Ciphertext(env, q.uid, q.data))), q)
  {
    hide CbcEncrypt;
    var sealed := Ciphertext(env, q.uid, q.data);
    assert (sealed + b.parts[0][|sealed|..])[..|sealed|] == sealed;
  }

  /** The plan of a served request: which block, and what it will hold. */
  ghost predicate GoodPlan<Key>(env: Env<Key>, d: Disk, q: Request, p: HcPlan) {
    && MIN_DATA_BLOCK <= p.blockNum < HC_NUM_BLOCKS == |d.storage| == |d.info|
    && q.uid < |d.uidMap| == MAX_UID + 1
    && HcBlockOk(env, Sealed(env, p), p.info)
    && (if q.sz == 0 then Sealed(env, p).Free() else HasRecord(env, Sealed(env, p), q))
    && (d.uidMap[q.uid] == p.blockNum ||
        (d.uidMap[q.uid] == INVALID_BLOCK && q.sz > 0 && forall u: nat :: !Carries(d.storage[p.blockNum], u)))
    && (p.prevBlock == INVALID_BLOCK || p.prevBlock == p.blockNum)
  }

  lemma ServedPlanIsGood<Key>(env: Env<Key>, d: Disk, q: Request, temp: DataBlock, stray: HcPlan)
    requires DiskOk(env, d) && HcGoodRequest(q) && Served(d, q)
    ensures Readable(env, DirectView(d), d.info, d.uidMap, q)
    ensures var r := Direct(env, d, q, temp, stray);
      r.Success? && GoodPlan(env, d, q, r.plan)
  {
    hide Live, IndexOf, Choose, Ciphertext, DirectView, HasRecord;
    DirectIsTruthful(d);
    TruthfulIsReadable(env, DirectView(d), d, q);
    if d.uidMap[q.uid] != INVALID_BLOCK {
      PresentPlanIsGood(env, d, q, temp, stray);
    } else {
      AbsentPlanIsGood(env, d, q, temp, stray);
    }
  }

  lemma PresentPlanIsGood<Key>(env: Env<Key>, d: Disk, q: Request, temp: DataBlock, stray: HcPlan)
    requires DiskOk(env, d) && HcGoodRequest(q) && d.uidMap[q.uid] != INVALID_BLOCK
    requires Readable(env, DirectView(d), d.info, d.uidMap, q)
    ensures var r := Direct(env, d, q, temp, stray);
      r.Success? && GoodPlan(env, d, q, r.plan)
  {
    hide IndexOf, Choose, Ciphertext, DirectView, HasRecord, Appended, WithCrc, Live;
    var b := d.uidMap[q.uid];
    CarriedIsFound(env, d, q.uid);
    DirectShows(d, b);
    var blk := d.storage[b];
    if q.sz > 0 {
      var after := Appended(Removed(blk, 0), q.uid, q.sz, blk.tbl[0].rev, Ciphertext(env, q.uid, q.data));
      AppendedHasRecord(env, Removed(blk, 0), q, blk.tbl[0].rev);
      RecordBlockOk(env, WithCrc(env, after), q, Grown(RemovalInfo(d.info[b], false)));
    }
  }

  lemma RecordBlockOk<Key>(env: Env<Key>, b: DataBlock, q: Request, i: Info)
    requires HasRecord(env, b, q)
    requires i.valid && i.occupied && i.partSize == MAX_PART_SIZE && i.partOccupancy == 1
    requires i.partCount == HC_PART_COUNT && i.partTblOffs == 1
    ensures HcBlockOk(env, b, i)
  {
  }

  lemma AbsentPlanIsGood<Key>(env: Env<Key>, d: Disk, q: Request, temp: DataBlock, stray: HcPlan)
    requires DiskOk(env, d) && HcGoodRequest(q) && d.uidMap[q.uid] == INVALID_BLOCK && Served(d, q)
    requires Readable(env, DirectView(d), d.info, d.uidMap, q)
    ensures var r := Direct(env, d, q, temp, stray);
      r.Success? && GoodPlan(env, d, q, r.plan)
  {
    hide IndexOf, Choose, Ciphertext, DirectView, HasRecord, Appended, WithCrc, Live;
    ChoiceRule(d.info, MAX_PART_SIZE, HC_BLK_SIZE);
    match Choose(d.info, MAX_PART_SIZE, HC_BLK_SIZE)
    case Fresh(b) =>
      assert HcBlockOk(env, d.storage[b], d.info[b]);
      AppendedHasRecord(env, EmptyHcBlock(), q, 0);
      RecordBlockOk(env, WithCrc(env, Appended(EmptyHcBlock(), q.uid, q.sz, 0, Ciphertext(env, q.uid, q.data))), q,
          Grown(EMPTY_INFO));
    case Existing(b) =>
      assert HcBlockOk(env, d.storage[b], d.info[b]);
      DirectShows(d, b);
      AppendedHasRecord(env, d.storage[b], q, 0);
      RecordBlockOk(env, WithCrc(env, Appended(d.storage[b], q.uid, q.sz, 0, Ciphertext(env, q.uid, q.data))), q,
          Grown(d.info[b]));
  }

  /** A stored record has revision 0 if it is new and else the one it had, in the block it had or the chosen one. */
  lemma StoredEntry<Key>(env: Env<Key>, d: Disk, q: Request, temp: DataBlock, stray: HcPlan)
    requires DiskOk(env, d) && HcGoodRequest(q) && Served(d, q) && q.sz > 0
    ensures Readable(env, DirectView(d), d.info, d.uidMap, q)
    ensures var r, at := Direct(env, d, q, temp, stray), d.uidMap[q.uid];
      && r.Success? && |r.plan.block.tbl| == 1 && r.plan.block.occupancy == 1
      && r.plan.blockNum == (if at != INVALID_BLOCK then at else Choose(d.info, MAX_PART_SIZE, HC_BLK_SIZE).block)
      && var entry := r.plan.block.tbl[0];
      && entry.uid == q.uid && entry.sz == q.sz && entry.first && entry.blkNext == 0
      && (at == INVALID_BLOCK ==> entry.rev == 0)
      && (at != INVALID_BLOCK ==> |d.storage[at].tbl| == 1 && entry.rev == d.storage[at].tbl[0].rev)
  {
    hide Live, IndexOf, Choose, Ciphertext, DirectView, HasRecord;
    DirectIsTruthful(d);
    TruthfulIsReadable(env, DirectView(d), d, q);
    ChoiceRule(d.info, MAX_PART_SIZE, HC_BLK_SIZE);
    if d.uidMap[q.uid] != INVALID_BLOCK {
      CarriedIsFound(env, d, q.uid);
      DirectShows(d, d.uidMap[q.uid]);
    } else if Choose(d.info, MAX_PART_SIZE, HC_BLK_SIZE).Existing? {
      DirectShows(d, Choose(d.info, MAX_PART_SIZE, HC_BLK_SIZE).block);
      assert HcBlockOk(env, d.storage[Choose(d.info, MAX_PART_SIZE, HC_BLK_SIZE).block],
        d.info[Choose(d.info, MAX_PART_SIZE, HC_BLK_SIZE).block]);
    }
  }

  /** What is found for a uid is what was asked for. */
  ghost predicate IsRecord<Key>(env: Env<Key>, r: Maybe<Stored>, q: Request) {
    if q.sz == 0 then r == Nothing
    else r.Just? && r.value.sz == q.sz && r.value.sealed == Ciphertext(env, q.uid, q.data)
  }

  /** Carrying out a good plan keeps the invariant, stores what was asked, and touches no other record. */
  lemma GoodPlanStores<Key>(env: Env<Key>, d: Disk, q: Request, p: HcPlan)
    requires DiskOk(env, d) && HcGoodRequest(q) && GoodPlan(env, d, q, p)
    ensures DiskOk(env, Finish(env, d, q, p))
    ensures IsRecord(env, RecordFor(env, Finish(env, d, q, p), q.uid), q)
    ensures forall u: nat :: MIN_UID <= u <= MAX_UID && u != q.uid ==>
        RecordFor(env, Finish(env, d, q, p), u) == RecordFor(env, d, u)
  {
    hide Live, Ciphertext, Sealed, HcFormed;
    FinishKeepsInvariant(env, d, q, p);
    var after := Finish(env, d, q, p);
    if q.sz > 0 {
      StoredRecord(env, Sealed(env, p), q);
    }
  }

  lemma StoredRecord<Key>(env: Env<Key>, b: DataBlock, q: Request)
    requires HcGoodRequest(q) && HasRecord(env, b, q)
    ensures |b.tbl| == |b.parts| == 1 && SubBlocksForData(b.tbl[0].sz) <= |b.parts[0]|
    ensures IsRecord(env, Just(StoredAt(b, 0)), q) || q.sz == 0
  {
  }

  lemma FinishKeepsInvariant<Key>(env: Env<Key>, d: Disk, q: Request, p: HcPlan)
    requires DiskOk(env, d) && HcGoodRequest(q) && GoodPlan(env, d, q, p)
    ensures DiskOk(env, Finish(env, d, q, p))
  {
    hide Live, Ciphertext, Sealed, HcFormed, HcBlockOk;
    var after := Finish(env, d, q, p);
    forall u: nat, i: nat | MIN_UID <= u <= MAX_UID && MIN_DATA_BLOCK <= i < HC_NUM_BLOCKS &&
        Carries(after.storage[i], u)
      ensures after.uidMap[u] == i
    {
    }
  }

  // ----- runs -----

  /** The tries of one command: a second one if the first had to load. */
  ghost predicate Tries<Key>(env: Env<Key>, h: Hc, q: Request, temp: DataBlock, stray: HcPlan) {
    && h.action.Idle? && |h.disk.storage| == HC_NUM_BLOCKS
    && Readable(env, CachedView(h), h.disk.info, h.disk.uidMap, q)
    && var (loaded, _) := AfterLoad(env, h, q, temp, stray);
    && Readable(env, CachedView(loaded), loaded.disk.info, loaded.disk.uidMap, q)
    && var r := Update(env, CachedView(loaded), loaded.disk.info, loaded.disk.uidMap, q, temp, stray);
    && r.Success? && r.plan.blockNum < HC_NUM_BLOCKS
    && r.plan.blockNum < |loaded.disk.info| && r.plan.blockNum < |loaded.disk.storage|
  }

  /** One command over the asynchronous storage, from request to answer: a load if one is needed, the second
      try, the write, and the tables. */
  function Command<Key>(env: Env<Key>, h: Hc, q: Request, temp: DataBlock, stray: HcPlan): Hc
    requires Tries(env, h, q, temp, stray)
  {
    var (loaded, _) := AfterLoad(env, h, q, temp, stray);
    var p := Update(env, CachedView(loaded), loaded.disk.info, loaded.disk.uidMap, q, temp, stray).plan;
    var written := WriteDone(StartWrite(loaded, p.blockNum, Sealed(env, p)));
    written.(disk := Disk(written.disk.storage, written.disk.info[p.blockNum := p.info],
                          written.disk.uidMap[q.uid := if q.sz == 0 then INVALID_BLOCK else p.blockNum]))
  }

  ghost predicate Ready<Key>(env: Env<Key>, h: Hc) {
    CacheSettled(h) && h.action.Idle? && DiskOk(env, h.disk)
  }

  /** Apart from the cache, an asynchronous command is the direct one; and the cache is settled after it. */
  lemma CommandIsDirect<Key>(env: Env<Key>, h: Hc, q: Request, temp: DataBlock, stray: HcPlan)
    requires Ready(env, h) && HcGoodRequest(q) && Served(h.disk, q)
    ensures Tries(env, h, q, temp, stray)
    ensures Readable(env, DirectView(h.disk), h.disk.info, h.disk.uidMap, q)
    ensures var r := Direct(env, h.disk, q, temp, stray);
      && r.Success? && GoodPlan(env, h.disk, q, r.plan)
      && Command(env, h, q, temp, stray).disk == Finish(env, h.disk, q, r.plan)
    ensures Ready(env, Command(env, h, q, temp, stray))
  {
    hide Live, IndexOf, Choose, Ciphertext, DirectView, CachedView, HasRecord, DiskOk, Readable, Update, Sealed;
    hide HcBlockOk, Served;
    OneLoadIsEnough(env, h, q, temp, stray);
    ServedPlanIsGood(env, h.disk, q, temp, stray);
    GoodPlanStores(env, h.disk, q, Direct(env, h.disk, q, temp, stray).plan);
  }

  /** Without a record and without space the first try is the only one, and gives the direct result. */
  lemma UnservedTry<Key>(env: Env<Key>, h: Hc, q: Request, temp: DataBlock, stray: HcPlan)
    requires Ready(env, h) && HcGoodRequest(q) && q.uid < |h.disk.uidMap| && |h.disk.info| > 0 && !Served(h.disk, q)
    ensures Readable(env, CachedView(h), h.disk.info, h.disk.uidMap, q)
    ensures var r := Update(env, CachedView(h), h.disk.info, h.disk.uidMap, q, temp, stray);
      if q.sz == 0 then r.Invalid? else r.Success? && r.plan.blockNum == INVALID_BLOCK
  {
    hide Live, IndexOf, Choose, Ciphertext, DiskOk, Readable, DirectView, CachedView, Update;
    SettledCacheIsTruthful(h);
    ViewGivesDirectResult(env, CachedView(h), h.disk, q, temp, stray);
    AnswersExactlyWhen(env, h.disk, q, temp, stray);
  }

  /** Deleting what is not there ends with the first try: nothing is loaded, written or answered. */
  lemma DeletionIsDropped<Key>(env: Env<Key>, h: Hc, q: Request, temp: DataBlock, stray: HcPlan)
    requires Ready(env, h) && HcGoodRequest(q) && q.sz == 0 && h.disk.uidMap[q.uid] == INVALID_BLOCK
    ensures Readable(env, CachedView(h), h.disk.info, h.disk.uidMap, q)
    ensures Update(env, CachedView(h), h.disk.info, h.disk.uidMap, q, temp, stray).Invalid?
    ensures !Tries(env, h, q, temp, stray)
  {
    hide Live, IndexOf, Choose, Ciphertext, DiskOk, Readable, DirectView, CachedView, Update;
    RequestInRange(env, h, q);
    UnservedTry(env, h, q, temp, stray);
  }

  /** Storing without space is answered as if it had been done, after writing a block that is none of the
      database's: every data block and every record stays what it was, the uid still absent. */
  lemma StoreIsLost<Key>(env: Env<Key>, h: Hc, q: Request, temp: DataBlock, stray: HcPlan)
    requires Ready(env, h) && HcGoodRequest(q) && q.sz > 0 && !Served(h.disk, q)
    ensures Tries(env, h, q, temp, stray) && AfterLoad(env, h, q, temp, stray).0 == h
    ensures var after := Command(env, h, q, temp, stray);
      && Ready(env, after)
      && after.disk.uidMap == h.disk.uidMap
      && (forall i: nat :: MIN_DATA_BLOCK <= i < HC_NUM_BLOCKS ==>
          after.disk.storage[i] == h.disk.storage[i] && after.disk.info[i] == h.disk.info[i])
      && (forall u: nat :: MIN_UID <= u <= MAX_UID ==> RecordFor(env, after.disk, u) == RecordFor(env, h.disk, u))
  {
    hide Live, IndexOf, Choose, Ciphertext, DirectView, CachedView, Readable, Update, Sealed, HcBlockOk;
    UnservedTry(env, h, q, temp, stray);
    var after := Command(env, h, q, temp, stray);
    assert after.disk.uidMap == h.disk.uidMap;
  }

  ghost predicate AgreeAt<Key>(env: Env<Key>, d: Disk, m: map<nat, Request>, u: nat)
    requires DiskOk(env, d) && MIN_UID <= u <= MAX_UID
  {
    match RecordFor(env, d, u)
    case Nothing => u !in m
    case Just(s) => u in m && s.sz == m[u].sz && s.sealed == Ciphertext(env, u, m[u].data)
  }

  ghost predicate AgreeAll<Key>(env: Env<Key>, d: Disk, m: map<nat, Request>)
    requires DiskOk(env, d)
  {
    forall u: nat :: MIN_UID <= u <= MAX_UID ==> AgreeAt(env, d, m, u)
  }

  function WithRecord(m: map<nat, Request>, q: Request): map<nat, Request> {
    if q.sz == 0 then m - {q.uid} else m[q.uid := q]
  }

  datatype HcCall = HcCall(q: Request, temp: DataBlock, stray: HcPlan)

  /** A command ends with an answer, or is dropped without one. */
  ghost function NextHc<Key>(env: Env<Key>, h: Hc, c: HcCall): Hc {
    if Tries(env, h, c.q, c.temp, c.stray) then Command(env, h, c.q, c.temp, c.stray) else h
  }

  /** What the caller may take to be stored: what was asked, if the command was served. */
  function NextStored(h: Hc, m: map<nat, Request>, q: Request): map<nat, Request> {
    if q.uid < |h.disk.uidMap| && |h.disk.info| > 0 && Served(h.disk, q) then WithRecord(m, q) else m
  }

  ghost function RunAll<Key>(env: Env<Key>, h: Hc, cs: seq<HcCall>): Hc
    decreases |cs|
  {
    if cs == [] then h else RunAll(env, NextHc(env, h, cs[0]), cs[1..])
  }

  ghost function StoredAll<Key>(env: Env<Key>, h: Hc, m: map<nat, Request>, cs: seq<HcCall>): map<nat, Request>
    decreases |cs|
  {
    if cs == [] then m else StoredAll(env, NextHc(env, h, cs[0]), NextStored(h, m, cs[0].q), cs[1..])
  }

  lemma CommandAgrees<Key>(env: Env<Key>, h: Hc, m: map<nat, Request>, c: HcCall)
    requires Ready(env, h) && AgreeAll(env, h.disk, m) && HcGoodRequest(c.q) && Served(h.disk, c.q)
    ensures Tries(env, h, c.q, c.temp, c.stray)
    ensures var after := Command(env, h, c.q, c.temp, c.stray);
      Ready(env, after) && AgreeAll(env, after.disk, WithRecord(m, c.q))
  {
    hide Live, Ciphertext, DirectView, DiskOk, Readable, Update, Command, Finish, RecordFor, GoodPlan, Served;
    hide CacheSettled, Tries;
    CommandIsDirect(env, h, c.q, c.temp, c.stray);
    var p := Direct(env, h.disk, c.q, c.temp, c.stray).plan;
    GoodPlanStores(env, h.disk, c.q, p);
    var after := Command(env, h, c.q, c.temp, c.stray);
    forall u: nat | MIN_UID <= u <= MAX_UID ensures AgreeAt(env, after.disk, WithRecord(m, c.q), u) {
      assert AgreeAt(env, h.disk, m, u);
    }
  }

  lemma UnservedAgrees<Key>(env: Env<Key>, h: Hc, m: map<nat, Request>, c: HcCall)
    requires Ready(env, h) && AgreeAll(env, h.disk, m) && HcGoodRequest(c.q) && !Served(h.disk, c.q)
    ensures Ready(env, NextHc(env, h, c)) && AgreeAll(env, NextHc(env, h, c).disk, m)
  {
    hide Live, Ciphertext, DirectView, DiskOk, Readable, Update, Command, Finish, RecordFor, CacheSettled, Tries;
    RequestInRange(env, h, c.q);
    if c.q.sz == 0 {
      DeletionIsDropped(env, h, c.q, c.temp, c.stray);
    } else {
      StoreIsLost(env, h, c.q, c.temp, c.stray);
      var after := NextHc(env, h, c);
      forall u: nat | MIN_UID <= u <= MAX_UID ensures AgreeAt(env, after.disk, m, u) {
        assert AgreeAt(env, h.disk, m, u);
      }
    }
  }

  /** Over every run of commands, served or not, the cache stays settled and the store holds exactly the records
      of the served ones. */
  lemma {:induction false} HcRunRefinesMap<Key>(env: Env<Key>, h: Hc, m: map<nat, Request>, cs: seq<HcCall>)
    requires Ready(env, h) && AgreeAll(env, h.disk, m) && forall k :: 0 <= k < |cs| ==> HcGoodRequest(cs[k].q)
    ensures Ready(env, RunAll(env, h, cs)) && AgreeAll(env, RunAll(env, h, cs).disk, StoredAll(env, h, m, cs))
    decreases |cs|
  {
    hide AgreeAll, Tries, Served, Command, HcGoodRequest, WithRecord;
    if cs != [] {
      RequestInRange(env, h, cs[0].q);
      if Served(h.disk, cs[0].q) {
        CommandAgrees(env, h, m, cs[0]);
      } else {
        UnservedAgrees(env, h, m, cs[0]);
      }
      HcRunRefinesMap(env, NextHc(env, h, cs[0]), NextStored(h, m, cs[0].q), cs[1..]);
    }
  }

  lemma RequestInRange<Key>(env: Env<Key>, h: Hc, q: Request)
    requires DiskOk(env, h.disk) && HcGoodRequest(q)
    ensures |h.disk.storage| == |h.disk.info| == 1024 && |h.disk.uidMap| == 4096 && 1 <= q.uid <= 4095
    ensures q.uid < |h.disk.uidMap| && |h.disk.info| > 0
  {
  }

  // ----- reading -----

  /** A read finds exactly the stored record, with one load at most, and decrypts it. */
  lemma ReadNeedsOneLoad<Key(!new)>(env: Env<Key>, h: Hc, m: map<nat, Request>, uid: nat)
    requires Ready(env, h) && AgreeAll(env, h.disk, m) && MIN_UID <= uid <= MAX_UID && Permutes(env.cipher)
    ensures var d := h.disk;
      && d.uidMap[uid] < HC_NUM_BLOCKS == |d.storage| == |d.info|
      && (uid in m <==> d.uidMap[uid] != INVALID_BLOCK)
      && (uid in m ==>
           && d.info[d.uidMap[uid]].partOccupancy <= |d.storage[d.uidMap[uid]].tbl|
           && var b := d.uidMap[uid];
           var again := if h.cacheIdx == b then h else LoadDone(StartLoad(h, b));
           && (h.cacheIdx != b ==> CachedView(h)(b).Nothing?)
           && Ready(env, again) && again.disk == d && CachedView(again)(b) == Just(d.storage[b])
           && FindUid(CachedView(again), d.info, d.uidMap, uid) == SearchSuccess(b, d.storage[b], 0)
           && d.storage[b].tbl[0].sz == m[uid].sz
           && |d.storage[b].parts| == 1 && SubBlocksForData(m[uid].sz) <= |d.storage[b].parts[0]|
           && CbcDecrypt(env.cipher, env.key, env.iv(uid), d.storage[b].parts[0][..SubBlocksForData(m[uid].sz)]) ==
               m[uid].data)
  {
    hide Live, CbcEncrypt, CbcDecrypt, IndexOf;
    assert AgreeAt(env, h.disk, m, uid);
    if uid in m {
      CarriedIsFound(env, h.disk, uid);
      DecryptUndoesEncrypt(env.cipher, env.key, env.iv(uid), m[uid].data);
    }
  }

  // ----- the cache on its own -----

  datatype CacheEvent = Ask(idx: nat) | Loaded | Write(idx: nat, block: DataBlock) | Written

  /** One storage operation at a time, and only data blocks. */
  ghost predicate CacheAllows(h: Hc, e: CacheEvent) {
    match e
    case Ask(idx) => MIN_DATA_BLOCK <= idx < HC_NUM_BLOCKS && h.action.Idle?
    case Loaded => h.action.Reading?
    case Write(idx, _) => MIN_DATA_BLOCK <= idx < HC_NUM_BLOCKS && h.action.Idle?
    case Written => h.action.Writing?
  }

  function CacheStep(h: Hc, e: CacheEvent): Hc
    requires h.action.Idle? || h.action.idx < |h.disk.storage|
  {
    match e
    case Ask(idx) => if h.cacheIdx == idx then h else StartLoad(h, idx)
    case Loaded => if h.action.Reading? then LoadDone(h) else h
    case Write(idx, block) => StartWrite(h, idx, block)
    case Written => if h.action.Writing? then WriteDone(h) else h
  }

  /** However loads and writes follow each other, a settled line is the stored block: what get_cached_data_block
      hands out is never stale. */
  lemma CacheStaysSettled(h: Hc, e: CacheEvent)
    requires CacheSettled(h) && CacheAllows(h, e)
    ensures CacheSettled(CacheStep(h, e))
    ensures e.Ask? && h.cacheIdx == e.idx ==> CachedView(h)(e.idx) == DirectView(h.disk)(e.idx)
    ensures e.Written? ==> DirectView(CacheStep(h, e).disk)(h.action.idx) == Just(h.action.block)
  {
  }

  ghost predicate CacheRunAllowed(h: Hc, es: seq<CacheEvent>)
    decreases |es|
  {
    es != [] ==> CacheAllows(h, es[0]) && (CacheSettled(h) ==> CacheRunAllowed(CacheStep(h, es[0]), es[1..]))
  }

  ghost function CacheRun(h: Hc, es: seq<CacheEvent>): Hc
    decreases |es|
  {
    if es == [] || !CacheSettled(h) then h else CacheRun(CacheStep(h, es[0]), es[1..])
  }

  lemma {:induction false} CacheNeverStale(h: Hc, es: seq<CacheEvent>, idx: nat)
    requires CacheSettled(h) && CacheRunAllowed(h, es) && idx < HC_NUM_BLOCKS
    ensures var now := CacheRun(h, es);
      && CacheSettled(now)
      && (!now.updating && CachedView(now)(idx).Just? ==> CachedView(now)(idx) == DirectView(now.disk)(idx))
    decreases |es|
  {
    if es != [] {
      CacheStaysSettled(h, es[0]);
      hide CacheStep, CacheAllows;
      CacheNeverStale(CacheStep(h, es[0]), es[1..], idx);
    }
  }
}
