/** Commands over the cached, asynchronous storage give the results of commands that read storage directly,
    and those refine a map from uid to record. */
module HcCommands {
  import opened RecordBlock
  import opened BlockChoice
  import opened RecordStore
  import opened HcStore

  // ----- the views agree -----

  /** Whatever a view shows is what is stored. */
  ghost predicate Truthful(view: View, d: Disk) {
    forall b: nat :: view(b).Just? && b != NO_INDEX ==> b < |d.storage| && view(b).value == d.storage[b]
  }

  lemma SettledCacheIsTruthful(h: Hc)
    requires CacheSettled(h) && !h.updating
    ensures Truthful(CachedView(h), h.disk) && Truthful(DirectView(h.disk), h.disk)
  {
  }

  lemma TruthfulIsReadable<Key>(env: Env<Key>, view: View, d: Disk, q: Request)
    requires DiskOk(env, d) && HcGoodRequest(q) && Truthful(view, d)
    ensures Readable(env, view, d.info, d.uidMap, q)
  {
    hide Live, IndexOf, Choose;
    var b := d.uidMap[q.uid];
    if b != INVALID_BLOCK {
      assert HcBlockOk(env, d.storage[b], d.info[b]);
    }
    ChoiceRule(d.info, MAX_PART_SIZE, HC_BLK_SIZE);
    if Choose(d.info, MAX_PART_SIZE, HC_BLK_SIZE).Existing? {
      var c := Choose(d.info, MAX_PART_SIZE, HC_BLK_SIZE).block;
      assert HcBlockOk(env, d.storage[c], d.info[c]);
    }
  }

  /** The block an update reads, if it reads one. */
  function BlockNeeded(d: Disk, q: Request): nat
    requires q.uid < |d.uidMap| && |d.info| > 0
  {
    if d.uidMap[q.uid] != INVALID_BLOCK then d.uidMap[q.uid]
    else if q.sz > 0 && Choose(d.info, MAX_PART_SIZE, HC_BLK_SIZE).Existing? then
        Choose(d.info, MAX_PART_SIZE, HC_BLK_SIZE).block
    else INVALID_BLOCK
  }

  /** By a truthful view an update either gives the direct result or asks for the one block it needs. */
  lemma ViewGivesDirectResult<Key>(env: Env<Key>, view: View, d: Disk, q: Request, temp: DataBlock, stray: HcPlan)
    requires DiskOk(env, d) && HcGoodRequest(q) && Truthful(view, d)
    ensures Readable(env, view, d.info, d.uidMap, q) && Readable(env, DirectView(d), d.info, d.uidMap, q)
    ensures q.uid < |d.uidMap| && |d.info| > 0 && BlockNeeded(d, q) < HC_NUM_BLOCKS
    ensures var r := Update(env, view, d.info, d.uidMap, q, temp, stray);
      if BlockNeeded(d, q) != INVALID_BLOCK && view(BlockNeeded(d, q)).Nothing? then r == Load(BlockNeeded(d, q))
      else r == Update(env, DirectView(d), d.info, d.uidMap, q, temp, stray) && !r.Load?
    ensures !Update(env, DirectView(d), d.info, d.uidMap, q, temp, stray).Load?
  {
    hide Live, IndexOf, Choose, Appended, Removed, RemovalBlock, RemovalInfo, Ciphertext;
    TruthfulIsReadable(env, view, d, q);
    assert Truthful(DirectView(d), d);
    TruthfulIsReadable(env, DirectView(d), d, q);
    ChoiceRule(d.info, MAX_PART_SIZE, HC_BLK_SIZE);
    var b := d.uidMap[q.uid];
    if b != INVALID_BLOCK {
      CarriedIsFound(env, d, q.uid);
    }
  }

  lemma CarriedIsFound<Key>(env: Env<Key>, d: Disk, uid: nat)
    requires DiskOk(env, d) && MIN_UID <= uid <= MAX_UID && d.uidMap[uid] != INVALID_BLOCK
    ensures var b := d.uidMap[uid];
      && HcBlockOk(env, d.storage[b], d.info[b]) && Carries(d.storage[b], uid)
      && d.info[b].partOccupancy == 1 && d.info[b].partSize == MAX_PART_SIZE
      && |d.storage[b].tbl| == 1 && IndexOf(d.storage[b].tbl, uid, 1) == 0
  {
    hide Live;
    assert HcBlockOk(env, d.storage[d.uidMap[uid]], d.info[d.uidMap[uid]]);
  }

  // ----- starting over after a load -----

  /** update_uid_cmd_iter, and again when a missing block has arrived. */
  function AfterLoad<Key>(env: Env<Key>, h: Hc, q: Request, temp: DataBlock, stray: HcPlan): (r: (Hc, Result))
    requires h.action.Idle? && |h.disk.storage| == HC_NUM_BLOCKS
    requires Readable(env, CachedView(h), h.disk.info, h.disk.uidMap, q)
  {
    match Update(env, CachedView(h), h.disk.info, h.disk.uidMap, q, temp, stray)
    case Load(b) => if b < HC_NUM_BLOCKS then (LoadDone(StartLoad(h, b)), Load(b)) else (h, Load(b))
    case r => (h, r)
  }

  /** One load at most: the first try gives the direct result or loads a block, and then the second try gives
      it. Loading touches nothing but the cache. */
  lemma OneLoadIsEnough<Key>(env: Env<Key>, h: Hc, q: Request, temp: DataBlock, stray: HcPlan)
    requires CacheSettled(h) && h.action.Idle? && DiskOk(env, h.disk) && HcGoodRequest(q)
    ensures var d := h.disk;
      && Readable(env, CachedView(h), d.info, d.uidMap, q) && Readable(env, DirectView(d), d.info, d.uidMap, q)
      && var direct := Update(env, DirectView(d), d.info, d.uidMap, q, temp, stray);
      && !direct.Load?
      && match Update(env, CachedView(h), d.info, d.uidMap, q, temp, stray)
         case Load(b) =>
           && MIN_DATA_BLOCK <= b < HC_NUM_BLOCKS && b != h.cacheIdx
           && CacheSettled(StartLoad(h, b))
           && var again := LoadDone(StartLoad(h, b));
           && CacheSettled(again) && again.action.Idle? && again.disk == d && again.cacheIdx == b
           && Readable(env, CachedView(again), d.info, d.uidMap, q)
           && Update(env, CachedView(again), d.info, d.uidMap, q, temp, stray) == direct
         case r => r == direct
  {
    hide Live, IndexOf, Choose, Appended, Removed, RemovalBlock, RemovalInfo, Ciphertext, Update, DiskOk, Readable;
    hide BlockNeeded;
    SettledCacheIsTruthful(h);
    ViewGivesDirectResult(env, CachedView(h), h.disk, q, temp, stray);
    var b := BlockNeeded(h.disk, q);
    if b != INVALID_BLOCK && CachedView(h)(b).Nothing? {
      var again := LoadDone(StartLoad(h, b));
      SettledCacheIsTruthful(again);
      ViewGivesDirectResult(env, CachedView(again), h.disk, q, temp, stray);
    }
  }
}
