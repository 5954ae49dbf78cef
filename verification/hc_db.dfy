/** The asynchronous database code itself, updating its cache, its tables and the command's scratch state in
    place; each step is proved against the functions of HcStore and HcCommands. */
module HcDbObject {
  import opened Cbc
  import opened RecordLayout
  import opened RecordBlock
  import opened BlockChoice
  import opened RecordStore
  import opened HcStore
  import opened HcCommands
  import opened HcRecords

  datatype Status = StatusSuccess | StatusNoSpace | StatusInvalid | StatusLoading

  class HcDb<Key> {
    const env: Env<Key>
    const storage: array<DataBlock>
    const info: array<Info>
    const uidMap: array<nat>

    var cache: DataBlock
    var cacheIdx: nat
    var updating: bool
    var action: Action

    // cmd_data.update_uid
    var entry: Request
    var block: DataBlock
    var blkInfo: Info
    var blockNum: nat
    var prevBlockNum: nat
    var writeCount: nat

    ghost predicate Valid() {
      storage.Length == HC_NUM_BLOCKS && info.Length == HC_NUM_BLOCKS && uidMap.Length == MAX_UID + 1
    }

    ghost function OnDisk(): (d: Disk)
      reads storage, info, uidMap
    {
      Disk(storage[..], info[..], uidMap[..])
    }

    ghost function State(): (h: Hc)
      reads this`cache, this`cacheIdx, this`updating, this`action, storage, info, uidMap
    {
      Hc(OnDisk(), cache, cacheIdx, updating, action)
    }

    constructor (env: Env<Key>, blocks: seq<DataBlock>)
      requires |blocks| == HC_NUM_BLOCKS
      ensures Valid() && this.env == env && storage[..] == blocks
      ensures fresh(storage) && fresh(info) && fresh(uidMap)
      ensures CacheSettled(State()) && action == Idle
    {
      this.env := env;
      storage := new DataBlock[HC_NUM_BLOCKS](i requires 0 <= i < HC_NUM_BLOCKS => blocks[i]);
      info := new Info[HC_NUM_BLOCKS](_ => Info(false, false, 0, 0, 0, 0));
      uidMap := new nat[MAX_UID + 1](_ => INVALID_BLOCK);
      cache, cacheIdx, updating, action := DataBlock(0, 0, 0, [], []), NO_INDEX, false, Idle;
      entry := Request(0, 0, []);
      block, blkInfo := DataBlock(0, 0, 0, [], []), Info(false, false, 0, 0, 0, 0);
      blockNum, prevBlockNum, writeCount := 0, 0, 0;
    }

    // ----- storage and its cache -----

    /** The cached block, or nothing with a read queued for it. */
    method GetCachedDataBlock(idx: nat) returns (blk: Maybe<DataBlock>)
      requires Valid() && action == Idle
      modifies this`cacheIdx, this`updating, this`action
      ensures blk == CachedView(old(State()))(idx)
      ensures State() == if blk.Just? then old(State()) else StartLoad(old(State()), idx)
    {
      if cacheIdx == idx {
        return Just(cache);
      } else {
        cacheIdx := idx;
        updating := true;
        action := Reading(idx);
        return Nothing;
      }
    }

    method InvalidateDataBlockCache(idx: nat)
      modifies this`cacheIdx
      ensures cacheIdx == if old(cacheIdx) == idx then NO_INDEX else old(cacheIdx)
    {
      if idx == cacheIdx {
        cacheIdx := NO_INDEX;
      }
    }

    method WriteDataBlock(idx: nat, src: DataBlock)
      requires Valid() && action == Idle
      modifies this`cacheIdx, this`action
      ensures State() == StartWrite(old(State()), idx, src)
    {
      InvalidateDataBlockCache(idx);
      action := Writing(idx, src);
    }

    /** The storage finishes what is outstanding. */
    method OperationComplete()
      requires Valid() && action != Idle && action.idx < HC_NUM_BLOCKS
      modifies this`cache, this`updating, this`action, storage
      ensures State() == if old(action).Reading? then LoadDone(old(State())) else WriteDone(old(State()))
    {
      match action {
        case Reading(idx) =>
          cache := storage[idx];
          updating := false;
        case Writing(idx, b) =>
          storage[idx] := b;
      }
      action := Idle;
    }

    // ----- the command -----

    method FindUid(uid: nat) returns (status: Status, at: nat, blk: DataBlock, index: nat)
      requires Valid() && action == Idle && uid <= MAX_UID && uidMap[uid] < HC_NUM_BLOCKS
      requires uidMap[uid] != INVALID_BLOCK && cacheIdx == uidMap[uid] ==>
          info[uidMap[uid]].partOccupancy <= |cache.tbl|
      modifies this`cacheIdx, this`updating, this`action
      ensures match HcStore.FindUid(CachedView(old(State())), info[..], uidMap[..], uid)
        case SearchLoad(b) => status == StatusLoading && State() == StartLoad(old(State()), b)
        case SearchInvalid(b) => status == StatusInvalid && State() == old(State())
        case SearchSuccess(b, found, j) =>
          status == StatusSuccess && at == b && blk == found && index == j && State() == old(State())
    {
      at, blk, index := uidMap[uid], cache, 0;
      if at == INVALID_BLOCK {
        return StatusInvalid, at, blk, index;
      }
      var got := GetCachedDataBlock(at);
      if got.Nothing? {
        return StatusLoading, at, blk, index;
      }
      blk := got.value;
      var n := info[at].partOccupancy;
      while index < n
        invariant index <= n <= |blk.tbl|
        invariant forall k :: 0 <= k < index ==> blk.tbl[k].uid != uid
      {
        if blk.tbl[index].uid == uid {
          return StatusSuccess, at, blk, index;
        }
        index := index + 1;
      }
      return StatusInvalid, at, blk, index;
    }

    method DeallocateUid(uid: nat, deallocateBlock: bool) returns (status: Status, at: nat)
      requires Valid() && action == Idle && uid <= MAX_UID && uidMap[uid] < HC_NUM_BLOCKS
      requires uidMap[uid] != INVALID_BLOCK && cacheIdx == uidMap[uid] ==>
        info[uidMap[uid]].partOccupancy == cache.occupancy <= |cache.tbl| == |cache.parts|
      modifies this`cacheIdx, this`updating, this`action, this`block, this`blkInfo
      ensures match HcStore.FindUid(CachedView(old(State())), info[..], uidMap[..], uid)
        case SearchLoad(b) =>
          status == StatusLoading && State() == StartLoad(old(State()), b) && block == old(block) &&
              blkInfo == old(blkInfo)
        case SearchInvalid(b) =>
          status == StatusInvalid && State() == old(State()) && block == old(block) && blkInfo == old(blkInfo)
        case SearchSuccess(b, blk, j) =>
          && status == StatusSuccess && at == b && State() == old(State())
          && block == RemovalBlock(blk, j, info[b], old(block), deallocateBlock)
          && blkInfo == RemovalInfo(info[b], deallocateBlock)
    {
      var blk, index;
      status, at, blk, index := FindUid(uid);
      if status != StatusSuccess {
        return;
      }
      blkInfo := info[at];
      if blkInfo.partOccupancy == 1 && deallocateBlock {
        blkInfo := blkInfo.(valid := true, occupied := false);
        block := block.(crc := INVALID_CRC, partSize := INVALID_PART_SIZE, occupancy := 0);
      } else {
        blkInfo := blkInfo.(partOccupancy := blkInfo.partOccupancy - 1);
        block := blk;
        block := block.(occupancy := block.occupancy - 1);
        if block.occupancy != 0 {
          block := block.(parts := block.parts[index := block.parts[blkInfo.partOccupancy]]);
          block := block.(tbl := block.tbl[index := block.tbl[blkInfo.partOccupancy]]);
        }
      }
    }

    method AllocateUidBlk(q: Request, rev: nat)
      requires Appendable(block, Ciphertext(env, q.uid, q.data)) && blkInfo.partOccupancy == block.occupancy
      modifies this`block, this`blkInfo
      ensures block == Appended(old(block), q.uid, q.sz, rev, Ciphertext(env, q.uid, q.data))
      ensures blkInfo == Grown(old(blkInfo))
    {
      var index := blkInfo.partOccupancy;
      blkInfo := blkInfo.(partOccupancy := index + 1, occupied := true, valid := true);
      block := block.(occupancy := block.occupancy + 1);
      block := block.(tbl := block.tbl[index := Entry(q.uid, rev, true, q.sz, INVALID_BLOCK)]);
      var sealed := CbcEncrypt(env.cipher, env.key, env.iv(q.uid), q.data);
      block := block.(parts := block.parts[index := sealed + block.parts[index][|sealed|..]]);
    }

    /** `stray` is what appending to buffers that were never set up leaves in them. */
    method AllocateUid(q: Request, rev: nat, ghost prev: nat, stray: HcPlan) returns (status: Status, at: nat)
      requires Valid() && action == Idle && |q.data| <= MAX_PART_SIZE
      requires Choose(info[..], MAX_PART_SIZE, HC_BLK_SIZE).Existing? ==>
        var b := Choose(info[..], MAX_PART_SIZE, HC_BLK_SIZE).block;
        ShowsRoom(CachedView(State()), b, Ciphertext(env, q.uid, q.data))
        && (b == cacheIdx && b < HC_NUM_BLOCKS ==> info[b].partOccupancy == cache.occupancy)
      modifies this`cacheIdx, this`updating, this`action, this`block, this`blkInfo
      ensures match Allocate(env, CachedView(old(State())), info[..], q, rev, prev, stray)
        case Load(b) => status == StatusLoading && State() == StartLoad(old(State()), b) && block == old(block)
        case Success(p) =>
          status == StatusSuccess && State() == old(State()) && HcPlan(at, prev, block, blkInfo) == p
        case _ => false
    {
      hide Appended, FirstExact, FirstFree, BestFit, Ciphertext;
      var allocatingBlock := false;
      at := FindExactBlock(info, MAX_PART_SIZE);
      if at != INVALID_BLOCK {
        blkInfo := info[at];
      } else {
        at := FindFreeBlock(info);
        if at != INVALID_BLOCK {
          block := EmptyHcBlock();
          var count := GetPartCount(HC_SUB_BLOCKS, MAX_PART_SIZE);
          OnePartition();
          blkInfo := blkInfo.(partOccupancy := 0, partSize := MAX_PART_SIZE, partCount := count,
              partTblOffs := HeaderSize(count));
          allocatingBlock := true;
        } else {
          at := FindLargerBlock(info, MAX_PART_SIZE, HC_BLK_SIZE);
          if at != INVALID_BLOCK {
            blkInfo := info[at];
          }
        }
      }
      if at != INVALID_BLOCK && !allocatingBlock {
        var blk := GetCachedDataBlock(at);
        if blk.Nothing? {
          return StatusLoading, at;
        }
        block := blk.value;
      }
      if at != INVALID_BLOCK {
        AllocateUidBlk(q, rev);
      } else {
        block, blkInfo := stray.block, stray.info;
      }
      return StatusSuccess, at;
    }

    /** Keep the entry in its block: deallocate it and allocate it again. */
    method Reallocate(q: Request, rev: nat) returns (status: Status, at: nat)
      requires Valid() && action == Idle && q.uid <= MAX_UID && uidMap[q.uid] < HC_NUM_BLOCKS
      requires |q.data| <= MAX_PART_SIZE
      requires HcStore.FindUid.requires(CachedView(State()), info[..], uidMap[..], q.uid)
      requires HcStore.FindUid(CachedView(State()), info[..], uidMap[..], q.uid).SearchSuccess?
      requires info[uidMap[q.uid]].partOccupancy == cache.occupancy <= |cache.tbl| == |cache.parts|
      requires forall j :: 0 <= j < |cache.parts| ==> |cache.parts[j]| == MAX_PART_SIZE
      modifies this`cacheIdx, this`updating, this`action, this`block, this`blkInfo
      ensures State() == old(State())
      ensures var found := HcStore.FindUid(CachedView(State()), info[..], uidMap[..], q.uid);
        && status == StatusSuccess && at == found.at && |q.data| <= MAX_PART_SIZE
        && found.index < found.block.occupancy <= |found.block.tbl| == |found.block.parts|
        && Appendable(Removed(found.block, found.index), Ciphertext(env, q.uid, q.data))
        && block == Appended(Removed(found.block, found.index), q.uid, q.sz, rev, Ciphertext(env, q.uid, q.data))
        && found.at < HC_NUM_BLOCKS && info[found.at].partOccupancy > 0
        && blkInfo == Grown(RemovalInfo(info[found.at], false))
    {
      hide Appended, Removed, IndexOf, Ciphertext;
      ghost var found := HcStore.FindUid(CachedView(State()), info[..], uidMap[..], q.uid);
      RemovedShape(found.block, found.index);
      status, at := DeallocateUid(q.uid, false);
      AllocateUidBlk(q, rev);
    }

    ghost predicate CanUpdate(q: Request)
      reads this`cache, this`cacheIdx, storage, info, uidMap
    {
      Valid() && DiskOk(env, OnDisk()) && HcGoodRequest(q)
      && (cacheIdx == NO_INDEX || (cacheIdx < HC_NUM_BLOCKS && cache == storage[cacheIdx]))
    }

    /** A record that is there: replaced within its block, or moved first. */
    method StorePresent(q: Request, at: nat, blk: DataBlock, index: nat, stray: HcPlan) returns (status: Status)
      requires CanUpdate(q) && action == Idle && q.sz > 0 && blockNum == at
      requires Readable(env, CachedView(State()), info[..], uidMap[..], q)
      requires HcStore.FindUid(CachedView(State()), info[..], uidMap[..], q.uid) == SearchSuccess(at, blk, index)
      modifies this`cacheIdx, this`updating, this`action, this`block, this`blkInfo, this`blockNum, this`prevBlockNum
      ensures Readable(env, CachedView(old(State())), info[..], uidMap[..], q)
      ensures match Update(env, CachedView(old(State())), info[..], uidMap[..], q, old(block), stray)
        case Load(b) => status == StatusLoading && State() == StartLoad(old(State()), b) && block == old(block)
        case Invalid => status == StatusInvalid && State() == old(State())
        case NoSpaceLeft => status == StatusNoSpace
        case Success(p) =>
          && status == StatusSuccess && State() == old(State())
          && HcPlan(blockNum, prevBlockNum, block, blkInfo) == p
    {
      hide Appended, Removed, IndexOf, Ciphertext, Choose, DiskOk, Allocate, Readable, RemovalBlock, RemovalInfo;
      ViewFacts(env, State(), q);
      blkInfo := info[blockNum];
      var rev := blk.tbl[index].rev;
      prevBlockNum := blockNum;
      if blkInfo.partSize == MAX_PART_SIZE {
        block := blk;
        status, prevBlockNum := Reallocate(q, rev);
      } else {
        status, blockNum := AllocateUid(q, (rev + 1) % 4, prevBlockNum, stray);
      }
    }

    /** update_uid with a size. */
    method StoreUid(q: Request, stray: HcPlan) returns (status: Status)
      requires CanUpdate(q) && action == Idle && q.sz > 0
      modifies this`cacheIdx, this`updating, this`action, this`block, this`blkInfo, this`blockNum, this`prevBlockNum
      ensures Readable(env, CachedView(old(State())), info[..], uidMap[..], q)
      ensures match Update(env, CachedView(old(State())), info[..], uidMap[..], q, old(block), stray)
        case Load(b) => status == StatusLoading && State() == StartLoad(old(State()), b) && block == old(block)
        case Invalid => status == StatusInvalid && State() == old(State())
        case NoSpaceLeft => status == StatusNoSpace
        case Success(p) =>
          && status == StatusSuccess && State() == old(State())
          && HcPlan(blockNum, prevBlockNum, block, blkInfo) == p
    {
      hide Appended, Removed, IndexOf, Ciphertext, Choose, DiskOk, Allocate, Readable, RemovalBlock, RemovalInfo;
      ViewFacts(env, State(), q);
      var blk, index;
      status, blockNum, blk, index := FindUid(q.uid);
      if status == StatusInvalid {
        prevBlockNum := INVALID_BLOCK;
        status, blockNum := AllocateUid(q, 0, INVALID_BLOCK, stray);
      } else if status == StatusSuccess {
        status := StorePresent(q, blockNum, blk, index, stray);
      }
    }

    method UpdateUid(q: Request, stray: HcPlan) returns (status: Status)
      requires CanUpdate(q) && action == Idle
      modifies this`cacheIdx, this`updating, this`action, this`block, this`blkInfo, this`blockNum, this`prevBlockNum
      ensures Readable(env, CachedView(old(State())), info[..], uidMap[..], q)
      ensures match Update(env, CachedView(old(State())), info[..], uidMap[..], q, old(block), stray)
        case Load(b) => status == StatusLoading && State() == StartLoad(old(State()), b) && block == old(block)
        case Invalid => status == StatusInvalid && State() == old(State())
        case NoSpaceLeft => status == StatusNoSpace
        case Success(p) =>
          && status == StatusSuccess && State() == old(State())
          && HcPlan(blockNum, prevBlockNum, block, blkInfo) == p
    {
      hide Appended, Removed, IndexOf, Ciphertext, Choose, DiskOk, Allocate, RemovalBlock, RemovalInfo;
      if q.sz == 0 {
        ViewFacts(env, State(), q);
        prevBlockNum := INVALID_BLOCK;
        status, blockNum := DeallocateUid(q.uid, true);
      } else {
        status := StoreUid(q, stray);
      }
    }

    /** update_uid_cmd_iter, first and again. Answers whether the block write has been started. */
    method UpdateUidCmdIter(stray: HcPlan) returns (status: Status)
      requires CanUpdate(entry) && action == Idle
      modifies this`cacheIdx, this`updating, this`action, this`block, this`blkInfo, this`blockNum, this`prevBlockNum
      ensures Readable(env, CachedView(old(State())), info[..], uidMap[..], entry)
      ensures match Update(env, CachedView(old(State())), info[..], uidMap[..], entry, old(block), stray)
        case Load(b) => status == StatusLoading && State() == StartLoad(old(State()), b) && block == old(block)
        case Invalid => status == StatusInvalid && State() == old(State())
        case NoSpaceLeft => status == StatusNoSpace
        case Success(p) =>
          && status == StatusSuccess
          && blockNum == p.blockNum && prevBlockNum == p.prevBlock && blkInfo == p.info && block == Sealed(env, p)
          && State() == StartWrite(old(State()), p.blockNum, Sealed(env, p))
    {
      hide Appended, Removed, IndexOf, Ciphertext, Choose, DiskOk, Allocate, HcStore.FindUid, Readable, Update;
      status := UpdateUid(entry, stray);
      if status == StatusSuccess {
        if blkInfo.occupied {
          block := block.(crc := BlockCrc(env, block));
        }
        WriteDataBlock(blockNum, block);
      }
    }

    /** update_uid_cmd_write_finished for a record that did not move. */
    method UpdateUidCmdWriteFinished()
      requires Valid() && blockNum < HC_NUM_BLOCKS && entry.uid <= MAX_UID && writeCount == 0
      requires prevBlockNum == blockNum || prevBlockNum == INVALID_BLOCK
      modifies this`writeCount, info, uidMap
      ensures writeCount == 1
      ensures info[..] == old(info[..])[blockNum := blkInfo]
      ensures uidMap[..] == old(uidMap[..])[entry.uid := if entry.sz == 0 then INVALID_BLOCK else blockNum]
    {
      writeCount := writeCount + 1;
      info[blockNum] := blkInfo;
      if entry.sz == 0 {
        uidMap[entry.uid] := INVALID_BLOCK;
      } else {
        uidMap[entry.uid] := blockNum;
      }
    }

    /** The outstanding write of a command ends, and the tables follow. */
    method WriteAndFinish()
      requires Valid() && action.Writing? && action.idx == blockNum < HC_NUM_BLOCKS && entry.uid <= MAX_UID
      requires writeCount == 0
      requires prevBlockNum == blockNum || prevBlockNum == INVALID_BLOCK
      modifies this`cache, this`updating, this`action, this`writeCount, storage, info, uidMap
      ensures var w := WriteDone(old(State()));
        State() == w.(disk := Disk(w.disk.storage, w.disk.info[blockNum := blkInfo],
          w.disk.uidMap[entry.uid := if entry.sz == 0 then INVALID_BLOCK else blockNum]))
    {
      OperationComplete();
      UpdateUidCmdWriteFinished();
    }

    /** The whole of a command. At most one load, and then the state is that of the direct command; only the
        deletion of an absent uid ends without an answer, and with nothing done. */
    method UpdateUidCmd(q: Request, stray: HcPlan) returns (answered: bool, loads: nat)
      requires CanUpdate(q) && Ready(env, State())
      modifies this, storage, info, uidMap
      ensures loads <= 1
      ensures answered <==> Served(old(OnDisk()), q) || q.sz > 0
      ensures !answered ==> State() == old(State()) && loads == 0
      ensures answered ==>
        Tries(env, old(State()), q, old(block), stray) && State() == Command(env, old(State()), q, old(block), stray)
      ensures Ready(env, State())
    {
      hide Ciphertext, DiskOk, Allocate, Readable, Update, HcStore.FindUid, Sealed, HcBlockOk, Served, CachedView;
      hide Command, CacheSettled;
      ghost var h, temp := State(), block;
      entry, writeCount, prevBlockNum := q, 0, INVALID_BLOCK;
      CommandSteps(env, h, q, temp, stray);
      var status := UpdateUidCmdIter(stray);
      if status == StatusInvalid {
        return false, 0;
      }
      loads := 0;
      if status == StatusLoading {
        loads := 1;
        OperationComplete();
        status := UpdateUidCmdIter(stray);
      }
      WriteAndFinish();
      answered := true;
    }
  }

  /** The steps of one command. */
  lemma CommandSteps<Key>(env: Env<Key>, h: Hc, q: Request, temp: DataBlock, stray: HcPlan)
    requires Ready(env, h) && HcGoodRequest(q)
    ensures Readable(env, CachedView(h), h.disk.info, h.disk.uidMap, q)
    ensures var r := Update(env, CachedView(h), h.disk.info, h.disk.uidMap, q, temp, stray);
      && (r.Invalid? <==> !Served(h.disk, q) && q.sz == 0)
      && (!r.Invalid? ==>
           && (r.Load? || r.Success?) && (r.Load? ==> r.idx < HC_NUM_BLOCKS)
           && StepsOf(env, h, if r.Load? then LoadDone(StartLoad(h, r.idx)) else h, q, temp, stray))
  {
    hide Live, IndexOf, Choose, Ciphertext, DirectView, CachedView, HasRecord, Readable, Update, Sealed, HcBlockOk;
    hide DiskOk, CacheSettled, Command, StepsOf;
    OneLoadIsEnough(env, h, q, temp, stray);
    RequestInRange(env, h, q);
    if Served(h.disk, q) {
      CommandIsDirect(env, h, q, temp, stray);
      ServedSteps(env, h, q, temp, stray);
    } else {
      UnservedTry(env, h, q, temp, stray);
      if q.sz > 0 {
        LostSteps(env, h, q, temp, stray);
      }
    }
  }

  /** After the load, if there was one, the second try writes a block, and that makes up the command. */
  ghost predicate StepsOf<Key>(env: Env<Key>, h: Hc, loaded: Hc, q: Request, temp: DataBlock, stray: HcPlan) {
    && loaded.disk == h.disk && loaded.action == Idle && |h.disk.storage| == HC_NUM_BLOCKS
    && (loaded.cacheIdx == NO_INDEX ||
        (loaded.cacheIdx < HC_NUM_BLOCKS && loaded.cache == h.disk.storage[loaded.cacheIdx]))
    && Readable(env, CachedView(loaded), h.disk.info, h.disk.uidMap, q)
    && var s := Update(env, CachedView(loaded), h.disk.info, h.disk.uidMap, q, temp, stray);
    && s.Success? && s.plan.blockNum < HC_NUM_BLOCKS && s.plan.prevBlock in {INVALID_BLOCK, s.plan.blockNum}
    && q.uid <= MAX_UID && s.plan.blockNum < |h.disk.info| && q.uid < |h.disk.uidMap|
    && Tries(env, h, q, temp, stray) && Ready(env, Command(env, h, q, temp, stray))
    && var w := WriteDone(StartWrite(loaded, s.plan.blockNum, Sealed(env, s.plan)));
    && Command(env, h, q, temp, stray) == w.(disk := Disk(w.disk.storage, h.disk.info[s.plan.blockNum := s.plan.info],
         h.disk.uidMap[q.uid := if q.sz == 0 then INVALID_BLOCK else s.plan.blockNum]))
  }

  lemma ServedSteps<Key>(env: Env<Key>, h: Hc, q: Request, temp: DataBlock, stray: HcPlan)
    requires Ready(env, h) && HcGoodRequest(q) && q.uid < |h.disk.uidMap| && |h.disk.info| > 0 && Served(h.disk, q)
    ensures Readable(env, CachedView(h), h.disk.info, h.disk.uidMap, q)
    ensures var r := Update(env, CachedView(h), h.disk.info, h.disk.uidMap, q, temp, stray);
      && (r.Load? || r.Success?) && (r.Load? ==> r.idx < HC_NUM_BLOCKS)
      && StepsOf(env, h, if r.Load? then LoadDone(StartLoad(h, r.idx)) else h, q, temp, stray)
  {
    hide Live, IndexOf, Choose, Ciphertext, DirectView, CachedView, HasRecord, Readable, Update, Sealed, HcBlockOk;
    hide Served;
    OneLoadIsEnough(env, h, q, temp, stray);
    CommandIsDirect(env, h, q, temp, stray);
  }

  lemma LostSteps<Key>(env: Env<Key>, h: Hc, q: Request, temp: DataBlock, stray: HcPlan)
    requires Ready(env, h) && HcGoodRequest(q) && q.uid < |h.disk.uidMap| && |h.disk.info| > 0 && !Served(h.disk, q)
    requires q.sz > 0
    ensures StepsOf(env, h, h, q, temp, stray)
  {
    hide Live, IndexOf, Choose, Ciphertext, DirectView, HasRecord, Sealed, HcBlockOk;
    UnservedTry(env, h, q, temp, stray);
    StoreIsLost(env, h, q, temp, stray);
    AbsentPlanStays(env, h, q, temp, stray);
  }

  /** A store without space does not count as a move. */
  lemma AbsentPlanStays<Key>(env: Env<Key>, h: Hc, q: Request, temp: DataBlock, stray: HcPlan)
    requires Readable(env, CachedView(h), h.disk.info, h.disk.uidMap, q) && h.disk.uidMap[q.uid] == INVALID_BLOCK
    requires q.sz > 0
    ensures var r := Update(env, CachedView(h), h.disk.info, h.disk.uidMap, q, temp, stray);
      r.Success? ==> r.plan.prevBlock == INVALID_BLOCK
  {
    hide Ciphertext, Choose;
  }

  lemma RemovedShape(b: DataBlock, index: nat)
    requires index < b.occupancy <= |b.tbl| == |b.parts|
    requires forall j :: 0 <= j < |b.parts| ==> |b.parts[j]| == MAX_PART_SIZE
    ensures var r := Removed(b, index);
      && r.occupancy == b.occupancy - 1 < |r.tbl| == |r.parts|
      && |r.parts[r.occupancy]| == MAX_PART_SIZE
    ensures forall i: Info, temp: DataBlock :: RemovalBlock(b, index, i, temp, false) == Removed(b, index)
    ensures forall i: Info :: i.partOccupancy > 0 ==>
      RemovalInfo(i, false) == i.(partOccupancy := i.partOccupancy - 1)
  {
  }

  /** What the search and the allocation may rely on. */
  lemma ViewFacts<Key>(env: Env<Key>, h: Hc, q: Request)
    requires DiskOk(env, h.disk) && HcGoodRequest(q)
    requires h.cacheIdx == NO_INDEX || (h.cacheIdx < HC_NUM_BLOCKS && h.cache == h.disk.storage[h.cacheIdx])
    ensures var d, view := h.disk, CachedView(h);
      && Readable(env, view, d.info, d.uidMap, q)
      && d.uidMap[q.uid] < HC_NUM_BLOCKS
      && (d.uidMap[q.uid] != INVALID_BLOCK && h.cacheIdx == d.uidMap[q.uid] ==>
           && d.info[d.uidMap[q.uid]].partOccupancy == h.cache.occupancy <= |h.cache.tbl| == |h.cache.parts|
           && (forall j :: 0 <= j < |h.cache.parts| ==> |h.cache.parts[j]| == MAX_PART_SIZE))
      && (Choose(d.info, MAX_PART_SIZE, HC_BLK_SIZE).Existing? ==>
           var b := Choose(d.info, MAX_PART_SIZE, HC_BLK_SIZE).block;
           ShowsRoom(view, b, Ciphertext(env, q.uid, q.data)) &&
               (b == h.cacheIdx && b < HC_NUM_BLOCKS ==> d.info[b].partOccupancy == h.cache.occupancy))
  {
    hide Live, IndexOf, Choose, Ciphertext;
    TruthfulIsReadable(env, CachedView(h), h.disk, q);
    var b := h.disk.uidMap[q.uid];
    if b != INVALID_BLOCK {
      assert HcBlockOk(env, h.disk.storage[b], h.disk.info[b]);
    }
    ChoiceRule(h.disk.info, MAX_PART_SIZE, HC_BLK_SIZE);
    if Choose(h.disk.info, MAX_PART_SIZE, HC_BLK_SIZE).Existing? {
      var c := Choose(h.disk.info, MAX_PART_SIZE, HC_BLK_SIZE).block;
      assert HcBlockOk(env, h.disk.storage[c], h.disk.info[c]);
    }
  }
}
