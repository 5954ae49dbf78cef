/** The database code itself: the page array, the two tables and the command's scratch buffers are updated in
    place, and each step is proved against the functions of RecordStore and RecordRecovery. */
module RecordDbObject {
  import opened RecordLayout
  import opened Cbc
  import opened RecordBlock
  import opened BlockChoice
  import opened RecordStore
  import opened RecordEffects
  import opened RecordUpdates
  import opened RecordCommands
  import opened RecordRecovery
  import opened RecordRuns
  import opened RecordMask

  class RecordDb<Key> {
    const env: Env<Key>
    const flash: array<DataBlock>
    const info: array<Info>
    const uidMap: array<nat>

    // cmd_data.update_uid
    var block: DataBlock
    var blkInfo: Info
    var uid: nat
    var sz: nat
    var writeCount: nat
    var prevBlockNum: nat
    var blockNum: nat

    ghost predicate Valid() {
      flash.Length == NUM_BLOCKS && info.Length == NUM_BLOCKS && uidMap.Length == MAX_UID + 1
    }

    ghost function State(): (db: Db)
      reads flash, info, uidMap
    {
      Db(flash[..], info[..], uidMap[..])
    }

    constructor (env: Env<Key>, pages: seq<DataBlock>)
      requires |pages| == NUM_BLOCKS
      ensures Valid() && fresh(flash) && fresh(info) && fresh(uidMap)
      ensures this.env == env && flash[..] == pages
    {
      this.env := env;
      flash := new DataBlock[NUM_BLOCKS](i requires 0 <= i < NUM_BLOCKS => pages[i]);
      info := new Info[NUM_BLOCKS](_ => BLANK_INFO);
      uidMap := new nat[MAX_UID + 1](_ => INVALID_BLOCK);
      block := DataBlock(0, 0, 0, [], []);
      blkInfo := BLANK_INFO;
      uid, sz, writeCount, prevBlockNum, blockNum := 0, 0, 0, 0, 0;
    }

    // ----- lookup -----

    method FindUid(uid: nat) returns (found: bool, blockNum: nat, index: nat)
      requires Valid() && Searchable(State(), uid)
      ensures match Found(State(), uid)
        case Nothing => !found
        case Just((b, j)) => found && blockNum == b && index == j
    {
      blockNum, index := uidMap[uid], 0;
      if blockNum == INVALID_BLOCK {
        return false, blockNum, index;
      }
      var blk := flash[blockNum];
      var n := info[blockNum].partOccupancy;
      while index < n
        invariant index <= n == blk.occupancy
        invariant forall k :: 0 <= k < index ==> blk.tbl[k].uid != uid
      {
        if blk.tbl[index].uid == uid {
          return true, blockNum, index;
        }
        index := index + 1;
      }
      return false, blockNum, index;
    }

    // ----- removing -----

    method DeallocateUid(uid: nat, deallocateBlock: bool) returns (blockNum: nat)
      requires Valid() && Searchable(State(), uid)
      modifies this`block, this`blkInfo
      ensures match Found(State(), uid)
        case Nothing => blockNum == INVALID_BLOCK && block == old(block) && blkInfo == old(blkInfo)
        case Just((b, j)) =>
          && blockNum == b
          && block == RemovalBlock(flash[b], j, info[b], old(block), deallocateBlock)
          && blkInfo == RemovalInfo(info[b], deallocateBlock)
    {
      var found, b, index := FindUid(uid);
      if !found {
        return INVALID_BLOCK;
      }
      blkInfo := info[b];
      if blkInfo.partOccupancy == 1 && deallocateBlock {
        blkInfo := blkInfo.(valid := true, occupied := false);
        block := block.(crc := INVALID_CRC, partSize := INVALID_PART_SIZE, occupancy := 0);
      } else {
        blkInfo := blkInfo.(partOccupancy := blkInfo.partOccupancy - 1);
        block := flash[b];
        block := block.(occupancy := block.occupancy - 1);
        if block.occupancy != 0 {
          block := block.(parts := block.parts[index := block.parts[blkInfo.partOccupancy]]);
          block := block.(tbl := block.tbl[index := block.tbl[blkInfo.partOccupancy]]);
        }
      }
      return b;
    }

    // ----- allocating -----

    method AllocateUidBlk(uid: nat, sz: nat, rev: nat, data: seq<Cbc.Block>)
      requires Appendable(block, Ciphertext(env, uid, data)) && blkInfo.partOccupancy == block.occupancy
      modifies this`block, this`blkInfo
      ensures block == Appended(old(block), uid, sz, rev, Ciphertext(env, uid, data))
      ensures blkInfo == Grown(old(blkInfo))
    {
      var index := blkInfo.partOccupancy;
      blkInfo := blkInfo.(partOccupancy := index + 1, occupied := true, valid := true);
      block := block.(occupancy := block.occupancy + 1);
      block := block.(tbl := block.tbl[index := Entry(uid, rev, true, sz, INVALID_BLOCK)]);
      var sealed := CbcEncrypt(env.cipher, env.key, env.iv(uid), data);
      block := block.(parts := block.parts[index := sealed + block.parts[index][|sealed|..]]);
    }

    method AllocateUid(q: Request, rev: nat) returns (blockNum: nat)
      requires Valid() && Allocatable(env, State(), q)
      requires TargetSize(q.sz) > 0 && Choose(info[..], TargetSize(q.sz), BLK_SIZE).Existing? ==>
        var b := Choose(info[..], TargetSize(q.sz), BLK_SIZE).block;
        b < NUM_BLOCKS && info[b].partOccupancy == flash[b].occupancy
      modifies this`block, this`blkInfo
      ensures var p := AllocatePlan(env, State(), q, rev, INVALID_BLOCK, old(block), old(blkInfo));
        blockNum == p.blockNum && (blockNum != INVALID_BLOCK ==> block == p.block && blkInfo == p.info)
    {
      hide CountFor, Appended, FirstExact, FirstFree, BestFit, Ciphertext;
      var partSize := TargetPartSize(q.sz);
      if partSize == 0 {
        return INVALID_BLOCK;
      }
      var allocatingBlock := false;
      blockNum := FindExactBlock(info, partSize);
      if blockNum != INVALID_BLOCK {
        blkInfo := info[blockNum];
      } else {
        blockNum := FindFreeBlock(info);
        if blockNum != INVALID_BLOCK {
          block := InitializedBlock(partSize);
          var count := GetPartCount(MAX_SUB_BLOCKS, partSize);
          blkInfo := blkInfo.(partOccupancy := 0, partSize := partSize, partCount := count,
              partTblOffs := HeaderSize(count));
          allocatingBlock := true;
        } else {
          blockNum := FindLargerBlock(info, partSize, BLK_SIZE);
          if blockNum != INVALID_BLOCK {
            blkInfo := info[blockNum];
          }
        }
      }
      if blockNum != INVALID_BLOCK && !allocatingBlock {
        block := flash[blockNum];
      }
      if blockNum != INVALID_BLOCK {
        AllocateUidBlk(q.uid, q.sz, rev, q.data);
      }
    }

    // ----- the update command -----

    method UpdateUid(q: Request)
      requires Valid() && Synced(env, State()) && GoodRequest(q)
      modifies this
      ensures Plannable(env, State(), q)
      ensures var p := UpdatePlan(env, State(), q, old(block), old(blkInfo));
        && uid == q.uid && sz == q.sz && writeCount == 0
        && blockNum == p.blockNum
        && (blockNum != INVALID_BLOCK ==> block == p.block && blkInfo == p.info && prevBlockNum == p.prevBlock)
    {
      hide PartCount, Appended, Removed, Choose, Ciphertext, Synced, IndexOf, TargetSize, Appendable, InitializedBlock;
      SyncedIsPlannable(env, State(), q);
      ChosenOccupancy(env, State(), q);
      uid, sz, writeCount, prevBlockNum := q.uid, q.sz, 0, INVALID_BLOCK;
      if q.sz == 0 {
        blockNum := DeallocateUid(q.uid, true);
        return;
      }
      var found, b, index := FindUid(q.uid);
      if !found {
        blockNum := AllocateUid(q, 0);
        return;
      }
      var partSize := TargetPartSize(q.sz);
      if partSize == 0 {
        blockNum := INVALID_BLOCK;
        return;
      }
      blkInfo := info[b];
      var rev := flash[b].tbl[index].rev;
      if blkInfo.partSize == partSize {
        block := flash[b];
        prevBlockNum := b;
        var _ := DeallocateUid(q.uid, false);
        RemovedOccupancy(flash[b], index);
        AllocateUidBlk(q.uid, q.sz, rev, q.data);
        blockNum := b;
      } else {
        prevBlockNum := b;
        blockNum := AllocateUid(q, (rev + 1) % 4);
      }
    }

    /** The first page write. */
    method UpdateUidCmdComplete()
      requires Valid() && blockNum < NUM_BLOCKS
      modifies flash, this`block
      ensures block == Finalized(env, Plan(blockNum, prevBlockNum, old(block), blkInfo))
      ensures flash[..] == old(flash[..])[blockNum := block]
    {
      if blkInfo.occupied {
        block := block.(crc := BlockCrc(env, block));
      }
      flash[blockNum] := block;
    }

    /** Called when a page write has finished. Answers whether the command is over. */
    method UpdateUidCmdWriteFinished() returns (over: bool)
      requires Valid() && blockNum < NUM_BLOCKS && uid <= MAX_UID && prevBlockNum < NUM_BLOCKS
      requires writeCount == 0 && prevBlockNum != blockNum && prevBlockNum != INVALID_BLOCK ==>
        var mid := Db(flash[..], info[..][blockNum := blkInfo], uidMap[..]);
        Searchable(mid, uid) && Found(mid, uid).Just?
      modifies this, flash, info, uidMap
      ensures writeCount == old(writeCount) + 1
      ensures uid == old(uid) && sz == old(sz) && blockNum == old(blockNum) && prevBlockNum == old(prevBlockNum)
      ensures over <==> old(writeCount) != 0 || prevBlockNum == blockNum || prevBlockNum == INVALID_BLOCK
      ensures old(writeCount) == 0 && over ==>
        State() == Db(old(flash[..]), old(info[..])[blockNum := old(blkInfo)],
            old(uidMap[..])[uid := if sz == 0 then INVALID_BLOCK else blockNum])
      ensures old(writeCount) == 0 && !over ==>
        var mid := Db(old(flash[..]), old(info[..])[blockNum := old(blkInfo)], old(uidMap[..]));
        && State() == mid.(flash := mid.flash[prevBlockNum := SecondBlock(env, mid, Request(uid, sz, []), old(block))])
        && blkInfo == RemovalInfo(mid.info[Found(mid, uid).value.0], true)
      ensures old(writeCount) != 0 ==>
        State() == Db(old(flash[..]), old(info[..])[prevBlockNum := old(blkInfo)], old(uidMap[..])[uid := blockNum])
    {
      hide PartCount, Removed;
      writeCount := writeCount + 1;
      if writeCount == 1 {
        info[blockNum] := blkInfo;
        if prevBlockNum != blockNum && prevBlockNum != INVALID_BLOCK {
          var _ := DeallocateUid(uid, true);
          block := block.(crc := BlockCrc(env, block));
          flash[prevBlockNum] := block;
          return false;
        }
        uidMap[uid] := if sz == 0 then INVALID_BLOCK else blockNum;
        return true;
      } else {
        info[prevBlockNum] := blkInfo;
        uidMap[uid] := blockNum;
        return true;
      }
    }

    /** The command from request to answer, with no power loss: refused with everything as it was, or carried
        out, and then correct exactly when it did not fall back to the record's own block. */
    method Update(q: Request) returns (ok: bool)
      requires Valid() && Synced(env, State()) && GoodRequest(q)
      modifies this, flash, info, uidMap
      ensures Plannable(env, old(State()), q)
      ensures var p := UpdatePlan(env, old(State()), q, old(block), old(blkInfo));
        && (ok <==> p.blockNum != INVALID_BLOCK)
        && (!ok ==> State() == old(State()))
        && (ok ==> Finishable(env, old(State()), q, p) && State() == Done(env, old(State()), q, p))
        && (ok ==> (Commits(env, old(State()), q, p) <==> !OwnBlock(old(State()), q)))
    {
      hide PartCount, Appended, Removed, Choose, Ciphertext, Synced, IndexOf, TargetSize, Appendable, InitializedBlock,
        UpdatePlan, Commits, OwnBlock, Stores, Plannable, RemovalBlock, RemovalInfo;
      ghost var db := State();
      ghost var p := UpdatePlanOf(env, db, q, block, blkInfo);
      UpdateUid(q);
      if blockNum == INVALID_BLOCK {
        return false;
      }
      UpdateFinishes(env, db, q, p, old(block), old(blkInfo));
      UpdateUidCmdComplete();
      var over := UpdateUidCmdWriteFinished();
      if !over {
        over := UpdateUidCmdWriteFinished();
      }
      return true;
    }

    /** read_uid_cmd: the record's size and its decrypted sub-blocks, with the masked bytes zeroed on demand. */
    method ReadUid(uid: nat, masked: bool) returns (found: bool, sz: nat, data: seq<bv8>)
      requires Valid() && Synced(env, State()) && MIN_UID <= uid <= MAX_UID
      ensures Searchable(State(), uid)
      ensures match Found(State(), uid)
        case Nothing => !found
        case Just((b, j)) =>
          && found && sz == flash[b].tbl[j].sz
          && |flash[b].tbl| == |flash[b].parts| && SubBlocksForData(sz) <= |flash[b].parts[j]|
          && var plain := Decoded(env, State(), uid, b, j);
          && data == Bytes(if masked then Masked(plain) else plain)
          && (if masked then Shown(Bytes(plain), data) else data == Bytes(plain))
    {
      hide PartCount, Synced, IndexOf, Masked, CbcDecrypt, Bytes;
      FoundIsReadable(env, State(), uid);
      var b, j;
      found, b, j := FindUid(uid);
      sz, data := 0, [];
      if found {
        sz := flash[b].tbl[j].sz;
        var plain := CbcDecrypt(env.cipher, env.key, env.iv(uid), flash[b].parts[j][..SubBlocksForData(sz)]);
        var buf := BytesOf(plain);
        if masked {
          MaskUidData(buf, plain, |plain|);
        }
        data := buf[..];
      }
    }

    // ----- the startup scan -----

    /** The entries of one block enter the map, up to the first whose record was met before. */
    method ScanEntries(i: nat) returns (clash: bool, j: nat)
      requires Valid() && Shaped(env, flash[..]) && DataIndex(i) && Live(env, flash[i])
      requires info[i].partOccupancy == flash[i].occupancy
      requires MapMet(env, flash[..], uidMap[..], i, 0) && NoneTwice(env, flash[..], i, 0)
      modifies uidMap
      ensures uidMap[0] == old(uidMap[0])
      ensures j <= flash[i].occupancy <= |flash[i].tbl| && (clash <==> j < flash[i].occupancy)
      ensures MapMet(env, flash[..], uidMap[..], i, j) && NoneTwice(env, flash[..], i, j)
      ensures clash ==> MIN_UID <= flash[i].tbl[j].uid <= MAX_UID && uidMap[flash[i].tbl[j].uid] != INVALID_BLOCK
    {
      hide PartCount, Live, MapMet, NoneTwice;
      ghost var pages := flash[..];
      var blk := flash[i];
      var n := info[i].partOccupancy;
      j := 0;
      while j < n
        invariant j <= n == blk.occupancy && uidMap[0] == old(uidMap[0])
        invariant MapMet(env, pages, uidMap[..], i, j) && NoneTwice(env, pages, i, j)
      {
        var ent := blk.tbl[j];
        assert GoodEntry(ent, blk.partSize);
        if MIN_UID <= ent.uid <= MAX_UID && ent.first {
          if uidMap[ent.uid] != INVALID_BLOCK {
            return true, j;
          }
          MapNextEntry(env, pages, uidMap[..], i, j);
          uidMap[ent.uid] := i;
        }
        j := j + 1;
      }
      return false, j;
    }

    /** Two entries for one record: the older copy is taken out of its block. */
    method SettleClash(i: nat, j: nat)
      requires Valid() && DataIndex(i) && j < |flash[i].tbl|
      requires var u := flash[i].tbl[j].uid;
        MIN_UID <= u <= MAX_UID && DataIndex(uidMap[u]) && Clashes(flash[..], i, j, uidMap[u])
        && info[uidMap[u]].partOccupancy == flash[uidMap[u]].occupancy && info[uidMap[u]].occupied
      requires info[i].partOccupancy == flash[i].occupancy && info[i].occupied
      modifies this`block, this`blkInfo, flash, uidMap
      ensures flash[..] == Settled(env, old(flash[..]), i, j, old(uidMap[flash[i].tbl[j].uid]), old(block))
      ensures block == Repaired(env, old(flash[..]), i, j, old(uidMap[flash[i].tbl[j].uid]), old(block))
      ensures uidMap[0] == old(uidMap[0])
    {
      hide IndexOf, Removed;
      var uid := flash[i].tbl[j].uid;
      var found, prev, index := FindUid(uid);
      if (flash[i].tbl[j].rev + 1) % 4 == flash[prev].tbl[index].rev {
        uidMap[uid] := i;
      }
      var n := DeallocateUid(uid, true);
      if n != INVALID_BLOCK {
        if blkInfo.occupied {
          block := block.(crc := BlockCrc(env, block));
        }
        flash[n] := block;
      }
    }

    /** One block of the scan. A clash ends it with a page written. */
    method ScanBlock(i: nat) returns (clash: bool)
      requires Valid() && Shaped(env, flash[..]) && DataIndex(i)
      requires MapMet(env, flash[..], uidMap[..], i, 0) && NoneTwice(env, flash[..], i, 0)
      requires forall k: nat :: MIN_DATA_BLOCK <= k < i ==> InfoMatches(env, flash[k], info[k])
      modifies this`block, this`blkInfo, flash, info, uidMap
      ensures uidMap[0] == old(uidMap[0])
      ensures clash ==> HasClash(env, old(flash[..])) && (flash[..], block) == ScanStep(env, old(flash[..]), old(block))
      ensures !clash ==>
        && flash[..] == old(flash[..]) && block == old(block)
        && info[..] == old(info[..])[i := Scanned(env, flash[i], old(info[i]))]
        && MapMet(env, flash[..], uidMap[..], i + 1, 0) && NoneTwice(env, flash[..], i + 1, 0)
    {
      hide PartCount, IndexOf, ScanStep, Live, Scanned, InfoMatches, MapMet, NoneTwice, FirstClash, Settled, Repaired;
      ghost var pages := flash[..];
      ScannedIsLive(env, pages, i, info[i]);
      ScanMatches(env, pages[i], info[i]);
      ScanHeader(i);
      var j := 0;
      if info[i].valid && info[i].occupied {
        clash, j := ScanEntries(i);
        if clash {
          ghost var w := uidMap[pages[i].tbl[j].uid];
          MapShowsClash(env, pages, uidMap[..], i, j);
          LiveInfo(env, pages[w], info[w]);
          LiveInfo(env, pages[i], info[i]);
          SettleClash(i, j);
          ScanAt(env, pages, old(block), i, j, w);
          return true;
        }
      }
      MapPassesBlock(env, pages, uidMap[..], i, j);
      return false;
    }

    /** One startup scan of any flash. It answers whether the tables are built, or a repair was written and the
        scan has to be run again. */
    method StartupScan() returns (done: bool)
      requires Valid() && Shaped(env, flash[..])
      modifies this`block, this`blkInfo, flash, info, uidMap
      ensures (flash[..], block) == ScanStep(env, old(flash[..]), old(block))
      ensures uidMap[0] == old(uidMap[0])
      ensures done <==> !HasClash(env, old(flash[..]))
      ensures done ==> Clean(env, flash[..])
      ensures done ==> forall i: nat :: DataIndex(i) ==> info[i] == Scanned(env, flash[i], old(info[i]))
      ensures done && uidMap[0] == INVALID_BLOCK ==> uidMap[..] == ScannedMap(env, flash[..])
      ensures done ==> Synced(env, State())
    {
      hide PartCount, Winner, IndexOf, Live, Scanned, InfoMatches, MapMet, NoneTwice, HasClash, AtMostOne;
      ghost var pages := flash[..];
      ghost var infos := info[..];
      var u := MIN_UID;
      while u <= MAX_UID
        modifies uidMap
        invariant MIN_UID <= u <= MAX_UID + 1
        invariant uidMap[0] == old(uidMap[0]) && forall v :: MIN_UID <= v < u ==> uidMap[v] == INVALID_BLOCK
      {
        uidMap[u] := INVALID_BLOCK;
        u := u + 1;
      }
      MapStarts(env, pages, uidMap[..]);
      var i := MIN_DATA_BLOCK;
      while i < NUM_BLOCKS
        invariant MIN_DATA_BLOCK <= i <= NUM_BLOCKS
        invariant flash[..] == pages && block == old(block) && uidMap[0] == old(uidMap[0])
        invariant forall k: nat :: MIN_DATA_BLOCK <= k < i ==> info[k] == Scanned(env, pages[k], infos[k])
        invariant forall k: nat :: i <= k < NUM_BLOCKS ==> info[k] == infos[k]
        invariant MapMet(env, pages, uidMap[..], i, 0) && NoneTwice(env, pages, i, 0)
      {
        forall k: nat | MIN_DATA_BLOCK <= k < i ensures InfoMatches(env, flash[k], info[k]) {
          ScanMatches(env, pages[k], infos[k]);
        }
        var clash := ScanBlock(i);
        if clash {
          return false;
        }
        i := i + 1;
      }
      NoneTwiceIsClean(env, pages);
      CleanHasNoClash(env, pages);
      MapAtEnd(env, pages, uidMap[..]);
      forall k: nat | DataIndex(k) ensures InfoMatches(env, flash[k], info[k]) {
        ScanMatches(env, pages[k], infos[k]);
      }
      return true;
    }

    /** Scan until the tables are built: in the end memory is the one the specification gives for the flash. */
    method Startup()
      requires Valid() && Shaped(env, flash[..]) && uidMap[0] == INVALID_BLOCK
      modifies this`block, this`blkInfo, flash, info, uidMap
      ensures flash[..] == ScanAll(env, old(flash[..]), old(block))
      ensures Synced(env, State()) && uidMap[..] == ScannedMap(env, flash[..])
    {
      hide ScanStep, Synced, ScannedMap, AtMostOne, HasClash, Shaped, Scanned, Entries;
      ghost var result := ScanAll(env, flash[..], block);
      var done := false;
      while !done
        invariant ScanAll(env, flash[..], block) == result && Shaped(env, flash[..]) && uidMap[0] == INVALID_BLOCK
        invariant done ==> Clean(env, flash[..]) && Synced(env, State()) && uidMap[..] == ScannedMap(env, flash[..])
        decreases !done, Entries(flash[..], NUM_BLOCKS)
      {
        ghost var pages, temp := flash[..], block;
        ScanKeepsShape(env, pages, temp);
        if HasClash(env, pages) {
          ScanTakesEntry(env, pages, temp);
        } else {
          assert ScanStep(env, pages, temp) == (pages, temp) by { NoRepair(env, pages, temp); }
        }
        done := StartupScan();
      }
      assert flash[..] == result by { CleanHasNoClash(env, flash[..]); }
    }

    /** The header fields of one block go into its table entry. */
    method ScanHeader(i: nat)
      requires Valid() && DataIndex(i) && Shaped(env, flash[..])
      modifies info
      ensures info[..] == old(info[..])[i := Scanned(env, flash[i], old(info[i]))]
    {
      hide CountFor, BlockCrc;
      var blk := flash[i];
      var free := blk.partSize == INVALID_PART_SIZE;
      var crcGood := !free && BlockCrc(env, blk) == blk.crc;
      info[i] := info[i].(partSize := blk.partSize, valid := crcGood || free, occupied := !free);
      if info[i].valid && info[i].occupied {
        RealPartSizesHold(blk.partSize);
        var count := GetPartCount(MAX_SUB_BLOCKS, blk.partSize);
        info[i] := info[i].(partOccupancy := blk.occupancy, partCount := count, partTblOffs := HeaderSize(count));
      }
    }
  }

  lemma ChosenOccupancy<Key>(env: Env<Key>, db: Db, q: Request)
    requires Synced(env, db) && GoodRequest(q)
    ensures TargetSize(q.sz) > 0 && Choose(db.info, TargetSize(q.sz), BLK_SIZE).Existing? ==>
      var b := Choose(db.info, TargetSize(q.sz), BLK_SIZE).block;
      b < NUM_BLOCKS && db.info[b].partOccupancy == db.flash[b].occupancy
  {
    hide PartCount, Choose, TargetSize, Winner, Live, AtMostOne;
    if TargetSize(q.sz) > 0 {
      TargetIsTightest(q.sz);
      RealPartSizesHold(TargetSize(q.sz));
      ChoiceRule(db.info, TargetSize(q.sz), BLK_SIZE);
      if Choose(db.info, TargetSize(q.sz), BLK_SIZE).Existing? {
        RoomIsLive(env, db, Choose(db.info, TargetSize(q.sz), BLK_SIZE).block);
      }
    }
  }

  lemma RemovedOccupancy(b: DataBlock, index: nat)
    requires index < b.occupancy <= |b.tbl| == |b.parts|
    ensures Removed(b, index).occupancy == b.occupancy - 1
  {
  }

  ghost function UpdatePlanOf<Key>(env: Env<Key>, db: Db, q: Request, temp: DataBlock, tempInfo: Info): (p: Plan)
    requires Synced(env, db) && GoodRequest(q)
    ensures Plannable(env, db, q) && p == UpdatePlan(env, db, q, temp, tempInfo)
  {
    SyncedIsPlannable(env, db, q);
    UpdatePlan(env, db, q, temp, tempInfo)
  }

  /** Every update that is not refused can be carried through, correct or not. */
  lemma UpdateFinishes<Key>(env: Env<Key>, db: Db, q: Request, p: Plan, temp: DataBlock, tempInfo: Info)
    requires Synced(env, db) && GoodRequest(q) && p.blockNum != INVALID_BLOCK
    requires Plannable(env, db, q) && p == UpdatePlan(env, db, q, temp, tempInfo)
    ensures Finishable(env, db, q, p) && q.uid <= MAX_UID && DataIndex(p.blockNum) && p.prevBlock < NUM_BLOCKS
    ensures Commits(env, db, q, p) <==> !OwnBlock(db, q)
    ensures Relocates(p) ==> Found(BetweenWrites(env, db, p), q.uid).value.0 == p.prevBlock
  {
    hide PartCount, Appended, Removed, Choose, Ciphertext, TargetSize, Appendable, InitializedBlock, UpdatePlan;
    hide Synced, OwnBlock, Found, Stores, Interrupted, Finalized;
    UpdateIsCorrectExactlyWhen(env, db, q, temp, tempInfo);
    PlanBlocks(env, db, q, temp, tempInfo);
    if OwnBlock(db, q) {
      OwnBlockKeepsOldRecord(env, db, q, temp, tempInfo);
    }
  }

  lemma PlanBlocks<Key>(env: Env<Key>, db: Db, q: Request, temp: DataBlock, tempInfo: Info)
    requires Synced(env, db) && GoodRequest(q)
    ensures Plannable(env, db, q)
    ensures var p := UpdatePlan(env, db, q, temp, tempInfo);
      p.blockNum != INVALID_BLOCK ==>
          DataIndex(p.blockNum) && p.prevBlock in {INVALID_BLOCK, db.uidMap[q.uid]} && p.prevBlock < NUM_BLOCKS
  {
    hide PartCount, Appended, Removed, Choose, Ciphertext, TargetSize, Appendable, InitializedBlock, Winner;
    hide RemovalBlock, RemovalInfo, Live, AtMostOne;
    SyncedIsPlannable(env, db, q);
    MapPointsAtHolder(env, db, q.uid);
    if TargetSize(q.sz) > 0 {
      TargetIsTightest(q.sz);
      RealPartSizesHold(TargetSize(q.sz));
      ChoiceRule(db.info, TargetSize(q.sz), BLK_SIZE);
    }
  }

  lemma FoundIsReadable<Key>(env: Env<Key>, db: Db, uid: nat)
    requires Synced(env, db) && MIN_UID <= uid <= MAX_UID
    ensures Searchable(db, uid)
    ensures Found(db, uid).Just? ==>
      var (b, j) := Found(db, uid).value;
      && j < |db.flash[b].tbl| == |db.flash[b].parts|
      && SubBlocksForData(db.flash[b].tbl[j].sz) <= |db.flash[b].parts[j]|
  {
    hide PartCount, Winner, Logical, Live, RecordOf;
    MapPointsAtHolder(env, db, uid);
    if Found(db, uid).Just? {
      var (b, j) := Found(db, uid).value;
      HolderIsData(env, db.flash, uid, b);
      assert GoodEntry(db.flash[b].tbl[j], db.flash[b].partSize);
    }
  }

  // ----- what the scan relies on -----

  /** The map as far as the scan has got: for each uid the block of an entry it has met, or nothing. */
  ghost predicate MapMet<Key>(env: Env<Key>, flash: seq<DataBlock>, uidMap: seq<nat>, i: nat, j: nat)
    requires |flash| == NUM_BLOCKS
  {
    && |uidMap| == MAX_UID + 1
    && (forall u: nat :: MIN_UID <= u <= MAX_UID ==>
         if uidMap[u] == INVALID_BLOCK then Unmet(env, flash, i, j, u) else MetIn(env, flash, uidMap[u], i, j, u))
  }

  ghost predicate MetIn<Key>(env: Env<Key>, flash: seq<DataBlock>, w: nat, i: nat, j: nat, uid: nat)
    requires |flash| == NUM_BLOCKS
  {
    exists l: nat :: MetBefore(env, flash, w, l, i, j) && flash[w].tbl[l].uid == uid
  }

  lemma MetEntry<Key>(env: Env<Key>, flash: seq<DataBlock>, w: nat, i: nat, j: nat, uid: nat) returns (l: nat)
    requires |flash| == NUM_BLOCKS && MetIn(env, flash, w, i, j, uid)
    ensures MetBefore(env, flash, w, l, i, j) && w < NUM_BLOCKS && l < |flash[w].tbl| && flash[w].tbl[l].uid == uid
  {
    l :| MetBefore(env, flash, w, l, i, j) && flash[w].tbl[l].uid == uid;
  }

  lemma HeldIsMet<Key>(env: Env<Key>, flash: seq<DataBlock>, uid: nat, i: nat)
    requires FormedFlash(env, flash) && HoldsAt(env, flash, uid, i)
    ensures !Unmet(env, flash, NUM_BLOCKS, 0, uid)
  {
    hide Live, PartCount;
    assert MetBefore(env, flash, i, IndexOf(flash[i].tbl, uid, flash[i].occupancy), NUM_BLOCKS, 0);
  }

  lemma MapStarts<Key>(env: Env<Key>, flash: seq<DataBlock>, uidMap: seq<nat>)
    requires |flash| == NUM_BLOCKS && |uidMap| == MAX_UID + 1
    requires forall u: nat :: MIN_UID <= u <= MAX_UID ==> uidMap[u] == INVALID_BLOCK
    ensures MapMet(env, flash, uidMap, MIN_DATA_BLOCK, 0) && NoneTwice(env, flash, MIN_DATA_BLOCK, 0)
  {
    hide MetBefore;
    NothingMet(env, flash);
  }

  lemma MapNextEntry<Key>(env: Env<Key>, flash: seq<DataBlock>, uidMap: seq<nat>, i: nat, j: nat)
    requires |flash| == NUM_BLOCKS && DataIndex(i) && Live(env, flash[i]) && j < flash[i].occupancy <= |flash[i].tbl|
    requires MIN_UID <= flash[i].tbl[j].uid <= MAX_UID && |uidMap| == MAX_UID + 1
    requires uidMap[flash[i].tbl[j].uid] == INVALID_BLOCK
    requires MapMet(env, flash, uidMap, i, j) && NoneTwice(env, flash, i, j)
    ensures MapMet(env, flash, uidMap[flash[i].tbl[j].uid := i], i, j + 1) && NoneTwice(env, flash, i, j + 1)
  {
    hide MetBefore, NoneTwice, Live;
    var uid := flash[i].tbl[j].uid;
    OneMoreEntry(env, flash, i, j);
    forall u: nat | MIN_UID <= u <= MAX_UID && u != uid && uidMap[u] != INVALID_BLOCK
      ensures MetIn(env, flash, uidMap[u], i, j + 1, u)
    {
      var l := MetEntry(env, flash, uidMap[u], i, j, u);
      assert MetBefore(env, flash, uidMap[u], l, i, j + 1);
    }
    assert MetBefore(env, flash, i, j, i, j + 1);
  }

  lemma MapPassesBlock<Key>(env: Env<Key>, flash: seq<DataBlock>, uidMap: seq<nat>, i: nat, j: nat)
    requires |flash| == NUM_BLOCKS && DataIndex(i) && (Live(env, flash[i]) ==> flash[i].occupancy <= j)
    requires MapMet(env, flash, uidMap, i, j) && NoneTwice(env, flash, i, j)
    ensures MapMet(env, flash, uidMap, i + 1, 0) && NoneTwice(env, flash, i + 1, 0)
  {
    hide MetBefore, NoneTwice, Live;
    BlockPassed(env, flash, i, j);
    forall u: nat | MIN_UID <= u <= MAX_UID && uidMap[u] != INVALID_BLOCK
      ensures MetIn(env, flash, uidMap[u], i + 1, 0, u)
    {
      var l := MetEntry(env, flash, uidMap[u], i, j, u);
      assert MetBefore(env, flash, uidMap[u], l, i + 1, 0);
    }
  }

  /** A uid that is in the map already is the first clash. */
  lemma MapShowsClash<Key>(env: Env<Key>, flash: seq<DataBlock>, uidMap: seq<nat>, i: nat, j: nat)
    requires Shaped(env, flash) && DataIndex(i) && Live(env, flash[i]) && j < flash[i].occupancy <= |flash[i].tbl|
    requires MapMet(env, flash, uidMap, i, j) && NoneTwice(env, flash, i, j)
    requires MIN_UID <= flash[i].tbl[j].uid <= MAX_UID && uidMap[flash[i].tbl[j].uid] != INVALID_BLOCK
    ensures FirstClash(env, flash, i, j, uidMap[flash[i].tbl[j].uid]) && HasClash(env, flash)
    ensures var w := uidMap[flash[i].tbl[j].uid];
      DataIndex(w) && w <= i && Live(env, flash[w]) && flash[w].Formed() && flash[i].Formed() && Clashes(flash, i, j, w)
  {
    var uid := flash[i].tbl[j].uid;
    var w := uidMap[uid];
    var l := MetEntry(env, flash, w, i, j, uid);
    ClashAfterMeeting(env, flash, i, j, w, l);
    hide MapMet, NoneTwice, Live, IndexOf, PartCount;
  }

  /** With every block passed and no uid met twice, the map is the one the specification gives. */
  lemma MapAtEnd<Key>(env: Env<Key>, flash: seq<DataBlock>, uidMap: seq<nat>)
    requires Clean(env, flash) && MapMet(env, flash, uidMap, NUM_BLOCKS, 0)
    ensures forall u: nat :: MIN_UID <= u <= MAX_UID ==> uidMap[u] == Winner(env, flash, u, NUM_BLOCKS)
  {
    hide Winner, Live;
    forall u: nat | MIN_UID <= u <= MAX_UID ensures uidMap[u] == Winner(env, flash, u, NUM_BLOCKS) {
      WinnerOfMet(env, flash, uidMap, u);
    }
  }

  lemma WinnerOfMet<Key>(env: Env<Key>, flash: seq<DataBlock>, uidMap: seq<nat>, u: nat)
    requires Clean(env, flash) && MapMet(env, flash, uidMap, NUM_BLOCKS, 0) && MIN_UID <= u <= MAX_UID
    ensures uidMap[u] == Winner(env, flash, u, NUM_BLOCKS)
  {
    hide Winner, Live, Logical, PartCount;
    if uidMap[u] == INVALID_BLOCK {
      forall i: nat ensures !HoldsAt(env, flash, u, i) {
        if HoldsAt(env, flash, u, i) {
          HeldIsMet(env, flash, u, i);
        }
      }
      LogicalOfNone(env, flash, u);
    } else {
      var l := MetEntry(env, flash, uidMap[u], NUM_BLOCKS, 0, u);
      EntryIsHeld(env, flash, uidMap[u], l, NUM_BLOCKS, 0);
      assert AtMostOne(env, flash, u);
      LogicalOfHolder(env, flash, u, uidMap[u]);
    }
  }

  lemma NoRepair<Key>(env: Env<Key>, flash: seq<DataBlock>, temp: DataBlock)
    requires !HasClash(env, flash)
    ensures ScanStep(env, flash, temp) == (flash, temp)
  {
  }

  lemma LiveInfo<Key>(env: Env<Key>, b: DataBlock, i: Info)
    requires Live(env, b) && b.Formed() && InfoMatches(env, b, i)
    ensures i.partOccupancy == b.occupancy <= |b.tbl| == |b.parts| && i.occupied
  {
    RealPartSizesHold(b.partSize);
    hide PartCount;
  }

  lemma ScannedIsLive<Key>(env: Env<Key>, flash: seq<DataBlock>, i: nat, old_: Info)
    requires Shaped(env, flash) && DataIndex(i)
    ensures var s := Scanned(env, flash[i], old_);
      && (s.valid && s.occupied <==> Live(env, flash[i]))
      && (Live(env, flash[i]) ==> s.partOccupancy == flash[i].occupancy)
  {
    hide PartCount;
    ScanMatches(env, flash[i], old_);
    if Live(env, flash[i]) {
      LiveInfo(env, flash[i], Scanned(env, flash[i], old_));
    }
  }
}
