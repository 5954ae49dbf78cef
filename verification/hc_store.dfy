/** The asynchronous database: one record per block, a one-block read cache, and commands that start over
    once the block they were missing has been loaded. */
module HcStore {
  import opened RecordLayout
  import Cbc
  import opened RecordBlock
  import opened BlockChoice
  import opened RecordStore

  const HC_BLK_SIZE: nat := 16384
  const HC_NUM_BLOCKS: nat := 1024
  const HC_SUB_BLOCKS: nat := HC_BLK_SIZE / SUB_BLK_SIZE
  const MAX_PART_SIZE: nat := (HC_BLK_SIZE - HEADER_BYTES - ENTRY_BYTES) / SUB_BLK_SIZE
  const HC_PART_COUNT: nat := 1
  const NO_INDEX: nat := 0xffff

  /** The counting loop finds that one partition of this size is all a block holds, after one sub-block of
      header. */
  lemma OnePartition()
    ensures HC_SUB_BLOCKS == 1024 && MAX_PART_SIZE == 1023
    ensures CountFor(HC_SUB_BLOCKS, MAX_PART_SIZE) == HC_PART_COUNT
    ensures PartStart(HC_SUB_BLOCKS, MAX_PART_SIZE, 0) == HeaderSize(HC_PART_COUNT) == 1
  {
    CountIsLargest(HC_SUB_BLOCKS, MAX_PART_SIZE, 1);
    CountIsLargest(HC_SUB_BLOCKS, MAX_PART_SIZE, 2);
  }

  /** The one storage operation that may be outstanding. */
  datatype Action = Idle | Reading(idx: nat) | Writing(idx: nat, block: DataBlock)

  /** What a command works on: the stored blocks and the two tables. */
  datatype Disk = Disk(storage: seq<DataBlock>, info: seq<Info>, uidMap: seq<nat>)

  datatype Hc = Hc(disk: Disk, cache: DataBlock, cacheIdx: nat, updating: bool, action: Action)

  // ----- the cache -----

  /** A block as a command sees it: get_cached_data_block's answer. */
  type View = nat -> Maybe<DataBlock>

  function CachedView(h: Hc): View {
    (idx: nat) => if h.cacheIdx == idx then Just(h.cache) else Nothing
  }

  function DirectView(d: Disk): View {
    (idx: nat) => if idx < |d.storage| then Just(d.storage[idx]) else Nothing
  }

  /** get_cached_data_block on a miss: the line is given away and a read is queued. */
  function StartLoad(h: Hc, idx: nat): Hc {
    h.(cacheIdx := idx, updating := true, action := Reading(idx))
  }

  /** The read lands in the cache. */
  function LoadDone(h: Hc): Hc
    requires h.action.Reading? && h.action.idx < |h.disk.storage|
  {
    h.(cache := h.disk.storage[h.action.idx], updating := false, action := Idle)
  }

  /** write_data_block gives up a cached copy before the write is queued. */
  function StartWrite(h: Hc, idx: nat, block: DataBlock): Hc {
    h.(cacheIdx := if h.cacheIdx == idx then NO_INDEX else h.cacheIdx, action := Writing(idx, block))
  }

  function WriteDone(h: Hc): Hc
    requires h.action.Writing? && h.action.idx < |h.disk.storage|
  {
    h.(disk := h.disk.(storage := h.disk.storage[h.action.idx := h.action.block]), action := Idle)
  }

  /** A settled line equals its stored block; an unsettled one has its read outstanding; no write is
      outstanding for a block that is cached. */
  ghost predicate CacheSettled(h: Hc) {
    && |h.disk.storage| == HC_NUM_BLOCKS
    && (h.cacheIdx == NO_INDEX || MIN_DATA_BLOCK <= h.cacheIdx < HC_NUM_BLOCKS)
    && (h.updating ==> h.action == Reading(h.cacheIdx) && h.cacheIdx != NO_INDEX)
    && (!h.updating && h.cacheIdx != NO_INDEX ==> h.cache == h.disk.storage[h.cacheIdx])
    && (h.action.Reading? ==> h.updating)
    && (h.action.Writing? ==> MIN_DATA_BLOCK <= h.action.idx < HC_NUM_BLOCKS && h.action.idx != h.cacheIdx)
  }

  // ----- a command's work, by what it sees -----

  datatype Search = SearchLoad(idx: nat) | SearchInvalid(at: nat) | SearchSuccess(at: nat, block: DataBlock, index: nat)

  /** find_uid */
  function FindUid(view: View, info: seq<Info>, uidMap: seq<nat>, uid: nat): Search
    requires uid < |uidMap| && uidMap[uid] < |info|
    requires uidMap[uid] != INVALID_BLOCK && view(uidMap[uid]).Just? ==>
        info[uidMap[uid]].partOccupancy <= |view(uidMap[uid]).value.tbl|
  {
    var b := uidMap[uid];
    if b == INVALID_BLOCK then SearchInvalid(b)
    else
      match view(b)
      case Nothing => SearchLoad(b)
      case Just(blk) =>
        var j := IndexOf(blk.tbl, uid, info[b].partOccupancy);
        if j < info[b].partOccupancy then SearchSuccess(b, blk, j) else SearchInvalid(b)
  }

  datatype HcPlan = HcPlan(blockNum: nat, prevBlock: nat, block: DataBlock, info: Info)

  datatype Result = Load(idx: nat) | Invalid | NoSpaceLeft | Success(plan: HcPlan)

  function EmptyHcBlock(): DataBlock {
    DataBlock(0, MAX_PART_SIZE, 0, [Entry(0, 0, false, 0, 0)], [EmptyPart(MAX_PART_SIZE)])
  }

  const EMPTY_INFO := Info(true, true, HC_PART_COUNT, 0, MAX_PART_SIZE, 1)

  /** What a view has to show of block b for a record to be appended. */
  ghost predicate ShowsRoom(view: View, b: nat, sealed: seq<Cbc.Block>) {
    view(b).Just? ==> Appendable(view(b).value, sealed)
  }

  /** allocate_uid. Its last test looks at a pointer that is never null, so finding no block at all still
      counts as success; `stray` is what that leaves in the buffers. */
  function Allocate<Key>(env: Env<Key>, view: View, info: seq<Info>, q: Request, rev: nat, prev: nat,
      stray: HcPlan): Result
    requires |info| > 0 && |q.data| <= MAX_PART_SIZE
    requires Choose(info, MAX_PART_SIZE, HC_BLK_SIZE).Existing? ==>
      ShowsRoom(view, Choose(info, MAX_PART_SIZE, HC_BLK_SIZE).block, Ciphertext(env, q.uid, q.data))
  {
    var sealed := Ciphertext(env, q.uid, q.data);
    match Choose(info, MAX_PART_SIZE, HC_BLK_SIZE)
    case NoSpace => Success(stray.(blockNum := INVALID_BLOCK, prevBlock := prev))
    case Fresh(b) => Success(HcPlan(b, prev, Appended(EmptyHcBlock(), q.uid, q.sz, rev, sealed), Grown(EMPTY_INFO)))
    case Existing(b) =>
      match view(b)
      case Nothing => Load(b)
      case Just(blk) => Success(HcPlan(b, prev, Appended(blk, q.uid, q.sz, rev, sealed), Grown(info[b])))
  }

  /** What the tables and the view have to agree on for an update to be planned. */
  ghost predicate Readable<Key>(env: Env<Key>, view: View, info: seq<Info>, uidMap: seq<nat>, q: Request) {
    && |info| > 0 && |q.data| <= MAX_PART_SIZE
    && q.uid < |uidMap| && uidMap[q.uid] < |info|
    && (view(uidMap[q.uid]).Just? && uidMap[q.uid] != INVALID_BLOCK ==>
         var blk := view(uidMap[q.uid]).value;
         && info[uidMap[q.uid]].partOccupancy == blk.occupancy <= |blk.tbl| == |blk.parts|
         && (info[uidMap[q.uid]].partSize == MAX_PART_SIZE ==> forall j :: 0 <= j < |blk.parts| ==>
             |blk.parts[j]| == MAX_PART_SIZE))
    && (q.sz > 0 && Choose(info, MAX_PART_SIZE, HC_BLK_SIZE).Existing? ==>
         ShowsRoom(view, Choose(info, MAX_PART_SIZE, HC_BLK_SIZE).block, Ciphertext(env, q.uid, q.data)))
  }

  /** update_uid */
  function Update<Key>(env: Env<Key>, view: View, info: seq<Info>, uidMap: seq<nat>, q: Request, temp: DataBlock,
      stray: HcPlan): Result
    requires Readable(env, view, info, uidMap, q)
  {
    match FindUid(view, info, uidMap, q.uid)
    case SearchLoad(b) => Load(b)
    case SearchInvalid(_) =>
      if q.sz == 0 then Invalid else Allocate(env, view, info, q, 0, INVALID_BLOCK, stray)
    case SearchSuccess(b, blk, j) =>
      if q.sz == 0 then
        Success(HcPlan(b, INVALID_BLOCK, RemovalBlock(blk, j, info[b], temp, true), RemovalInfo(info[b], true)))
      else if info[b].partSize == MAX_PART_SIZE then
        Success(HcPlan(b, b, Appended(Removed(blk, j), q.uid, q.sz, blk.tbl[j].rev, Ciphertext(env, q.uid, q.data)),
                       Grown(RemovalInfo(info[b], false))))
      else Allocate(env, view, info, q, (blk.tbl[j].rev + 1) % 4, b, stray)
  }

  function Sealed<Key>(env: Env<Key>, p: HcPlan): DataBlock {
    if p.info.occupied then WithCrc(env, p.block) else p.block
  }

  /** The tables and the stored block once the write has finished. */
  function Finish<Key>(env: Env<Key>, d: Disk, q: Request, p: HcPlan): Disk
    requires p.blockNum < |d.storage| && p.blockNum < |d.info| && q.uid < |d.uidMap|
  {
    Disk(d.storage[p.blockNum := Sealed(env, p)], d.info[p.blockNum := p.info],
         d.uidMap[q.uid := if q.sz == 0 then INVALID_BLOCK else p.blockNum])
  }

  // ----- the invariant of the database -----

  ghost predicate HcFormed(b: DataBlock) {
    && b.partSize == MAX_PART_SIZE
    && |b.tbl| == |b.parts| == HC_PART_COUNT
    && |b.parts[0]| == MAX_PART_SIZE
    && b.occupancy <= HC_PART_COUNT
    && (b.occupancy == 1 ==> MIN_UID <= b.tbl[0].uid <= MAX_UID && SubBlocksForData(b.tbl[0].sz) <= MAX_PART_SIZE)
  }

  /** A block that is free, or one this firmware wrote, with its table entry. */
  ghost predicate HcBlockOk<Key>(env: Env<Key>, b: DataBlock, i: Info) {
    && i.valid
    && i.occupied == !b.Free()
    && (b.Free() || (Live(env, b) && HcFormed(b)))
    && (!b.Free() ==>
         && i.partSize == MAX_PART_SIZE && i.partOccupancy == b.occupancy
         && i.partCount == HC_PART_COUNT && i.partTblOffs == 1)
  }

  predicate Carries(b: DataBlock, uid: nat) {
    !b.Free() && b.occupancy == 1 && |b.tbl| > 0 && b.tbl[0].uid == uid
  }

  ghost predicate DiskOk<Key>(env: Env<Key>, d: Disk) {
    && |d.storage| == |d.info| == HC_NUM_BLOCKS
    && |d.uidMap| == MAX_UID + 1
    && (forall i: nat :: MIN_DATA_BLOCK <= i < HC_NUM_BLOCKS ==> HcBlockOk(env, d.storage[i], d.info[i]))
    && (forall u: nat :: MIN_UID <= u <= MAX_UID ==>
         d.uidMap[u] < HC_NUM_BLOCKS && (d.uidMap[u] != INVALID_BLOCK ==> Carries(d.storage[d.uidMap[u]], u)))
    && (forall u: nat, i: nat ::
         MIN_UID <= u <= MAX_UID && MIN_DATA_BLOCK <= i < HC_NUM_BLOCKS && Carries(d.storage[i], u) ==>
         d.uidMap[u] == i)
  }

  ghost predicate HcGoodRequest(q: Request) {
    GoodRequest(q) && |q.data| <= MAX_PART_SIZE
  }

  /** A uid's record. */
  ghost function RecordFor<Key>(env: Env<Key>, d: Disk, uid: nat): Maybe<Stored>
    requires DiskOk(env, d) && MIN_UID <= uid <= MAX_UID
  {
    if d.uidMap[uid] == INVALID_BLOCK then Nothing
    else
      assert HcBlockOk(env, d.storage[d.uidMap[uid]], d.info[d.uidMap[uid]]);
      Just(StoredAt(d.storage[d.uidMap[uid]], 0))
  }
}
