/** The record database: flash blocks, and the two tables the firmware keeps about them in memory. */
module RecordStore {
  import opened RecordLayout
  import opened Cbc
  import opened RecordBlock
  import opened BlockChoice

  const NUM_BLOCKS: nat := 96

  /** What the database is built on: the cipher, its key, the IV of each uid, and the CRC of a block, which
      is left uninterpreted. */
  datatype Env<!Key> = Env(
    cipher: Cipher<Key>,
    key: Key,
    iv: nat -> Cbc.Block,
    crc: (nat, nat, seq<Entry>, seq<Part>) -> int)

  datatype Db = Db(flash: seq<DataBlock>, info: seq<Info>, uidMap: seq<nat>)

  function BlockCrc<Key>(env: Env<Key>, b: DataBlock): int {
    env.crc(b.partSize, b.occupancy, b.tbl, b.parts)
  }

  function WithCrc<Key>(env: Env<Key>, b: DataBlock): DataBlock {
    b.(crc := BlockCrc(env, b))
  }

  /** An occupied block whose CRC is right. */
  predicate Live<Key>(env: Env<Key>, b: DataBlock) {
    !b.Free() && BlockCrc(env, b) == b.crc
  }

  ghost predicate DataIndex(i: nat) {
    MIN_DATA_BLOCK <= i < NUM_BLOCKS
  }

  ghost predicate FormedFlash<Key>(env: Env<Key>, flash: seq<DataBlock>) {
    && |flash| == NUM_BLOCKS
    && (forall i: nat :: DataIndex(i) && Live(env, flash[i]) ==> flash[i].Formed() && Distinct(flash[i]))
  }

  ghost predicate HoldsAt<Key>(env: Env<Key>, flash: seq<DataBlock>, uid: nat, i: nat)
    requires FormedFlash(env, flash)
  {
    DataIndex(i) && Live(env, flash[i]) && Holds(flash[i], uid)
  }

  /** One block in which the scan's rule picks the surviving copy: of two copies the one whose revision is
      not followed by the other's. 0 if no block below n holds the uid. */
  ghost function Winner<Key>(env: Env<Key>, flash: seq<DataBlock>, uid: nat, n: nat): (w: nat)
    requires FormedFlash(env, flash) && n <= NUM_BLOCKS
    ensures w == 0 || (w < n && HoldsAt(env, flash, uid, w))
  {
    if n <= MIN_DATA_BLOCK then 0
    else
      var w := Winner(env, flash, uid, n - 1);
      if !HoldsAt(env, flash, uid, n - 1) then w
      else if w == 0 then n - 1
      else if (RecordOf(flash[n - 1], uid).rev + 1) % 4 == RecordOf(flash[w], uid).rev then w
      else n - 1
  }

  datatype Maybe<T> = Nothing | Just(value: T)

  /** The logical contents of flash: each uid's current record. */
  ghost function Logical<Key>(env: Env<Key>, flash: seq<DataBlock>, uid: nat): Maybe<Stored>
    requires FormedFlash(env, flash)
  {
    var w := Winner(env, flash, uid, NUM_BLOCKS);
    if w == 0 then Nothing else Just(RecordOf(flash[w], uid))
  }

  /** At most one block holds the uid. */
  ghost predicate AtMostOne<Key>(env: Env<Key>, flash: seq<DataBlock>, uid: nat)
    requires FormedFlash(env, flash)
  {
    forall i: nat, j: nat :: HoldsAt(env, flash, uid, i) && HoldsAt(env, flash, uid, j) ==> i == j
  }

  ghost predicate Clean<Key>(env: Env<Key>, flash: seq<DataBlock>) {
    FormedFlash(env, flash) && forall uid: nat :: AtMostOne(env, flash, uid)
  }

  /** A relocation of `uid` from block a to block b was cut off between its two writes. */
  ghost predicate Interrupted<Key>(env: Env<Key>, flash: seq<DataBlock>, uid: nat, a: nat, b: nat) {
    && FormedFlash(env, flash)
    && a != b
    && HoldsAt(env, flash, uid, a)
    && HoldsAt(env, flash, uid, b)
    && RecordOf(flash[b], uid).rev == (RecordOf(flash[a], uid).rev + 1) % 4
    && (forall i: nat :: HoldsAt(env, flash, uid, i) ==> i == a || i == b)
    && (forall u: nat :: u != uid ==> AtMostOne(env, flash, u))
  }

  // ----- who wins -----

  lemma {:induction false} WinnerIsHolder<Key>(env: Env<Key>, flash: seq<DataBlock>, uid: nat, i: nat, n: nat)
    requires FormedFlash(env, flash) && n <= NUM_BLOCKS
    requires forall j: nat :: HoldsAt(env, flash, uid, j) ==> j == i
    ensures Winner(env, flash, uid, n) == if HoldsAt(env, flash, uid, i) && i < n then i else 0
  {
    hide Live, Holds, RecordOf;
    if n > MIN_DATA_BLOCK {
      WinnerIsHolder(env, flash, uid, i, n - 1);
    }
  }

  lemma {:induction false} WinnerOfPair<Key>(env: Env<Key>, flash: seq<DataBlock>, uid: nat, a: nat, b: nat, n: nat)
    requires Interrupted(env, flash, uid, a, b) && n <= NUM_BLOCKS
    ensures Winner(env, flash, uid, n) == if b < n then b else if a < n then a else 0
  {
    if n > MIN_DATA_BLOCK {
      WinnerOfPair(env, flash, uid, a, b, n - 1);
      var ra, rb := RecordOf(flash[a], uid).rev, RecordOf(flash[b], uid).rev;
      RevIsSmall(flash[a], uid);
      assert (rb + 1) % 4 != ra;
    }
  }

  lemma RevIsSmall(b: DataBlock, uid: nat)
    requires b.Formed() && Holds(b, uid)
    ensures RecordOf(b, uid).rev < 4
  {
  }

  lemma LogicalOfHolder<Key>(env: Env<Key>, flash: seq<DataBlock>, uid: nat, i: nat)
    requires FormedFlash(env, flash) && AtMostOne(env, flash, uid) && HoldsAt(env, flash, uid, i)
    ensures Winner(env, flash, uid, NUM_BLOCKS) == i
    ensures Logical(env, flash, uid) == Just(RecordOf(flash[i], uid))
  {
    WinnerIsHolder(env, flash, uid, i, NUM_BLOCKS);
  }

  lemma {:induction false} LogicalOfNone<Key>(env: Env<Key>, flash: seq<DataBlock>, uid: nat)
    requires FormedFlash(env, flash) && forall i: nat :: !HoldsAt(env, flash, uid, i)
    ensures Winner(env, flash, uid, NUM_BLOCKS) == 0 && Logical(env, flash, uid) == Nothing
  {
    WinnerIsHolder(env, flash, uid, 0, NUM_BLOCKS);
  }

  /** Block i holds the same record for `uid` in both flashes, or none in both. */
  ghost predicate SameAt<Key>(env: Env<Key>, f: seq<DataBlock>, g: seq<DataBlock>, uid: nat, i: nat)
    requires FormedFlash(env, f) && FormedFlash(env, g)
  {
    && (HoldsAt(env, f, uid, i) <==> HoldsAt(env, g, uid, i))
    && (HoldsAt(env, f, uid, i) ==> RecordOf(f[i], uid) == RecordOf(g[i], uid))
  }

  /** A uid keeps its logical record when every block holds it as before. */
  lemma {:induction false} SameHoldersSameWinner<Key>(env: Env<Key>, f: seq<DataBlock>, g: seq<DataBlock>,
      uid: nat, n: nat)
    requires FormedFlash(env, f) && FormedFlash(env, g) && n <= NUM_BLOCKS
    requires forall i: nat :: SameAt(env, f, g, uid, i)
    ensures Winner(env, f, uid, n) == Winner(env, g, uid, n)
  {
    hide Live, Holds, RecordOf, HoldsAt, FormedFlash, DataIndex;
    if n > MIN_DATA_BLOCK {
      SameHoldersSameWinner(env, f, g, uid, n - 1);
      assert SameAt(env, f, g, uid, n - 1);
      assert SameAt(env, f, g, uid, Winner(env, f, uid, n - 1));
    }
  }

  lemma SameLogical<Key>(env: Env<Key>, f: seq<DataBlock>, g: seq<DataBlock>, uid: nat)
    requires FormedFlash(env, f) && FormedFlash(env, g)
    requires forall i: nat :: SameAt(env, f, g, uid, i)
    ensures Winner(env, f, uid, NUM_BLOCKS) == Winner(env, g, uid, NUM_BLOCKS)
    ensures Logical(env, f, uid) == Logical(env, g, uid)
    ensures AtMostOne(env, f, uid) <==> AtMostOne(env, g, uid)
  {
    hide Live, Holds, RecordOf, HoldsAt, FormedFlash, DataIndex, Winner;
    SameHoldersSameWinner(env, f, g, uid, NUM_BLOCKS);
    assert SameAt(env, f, g, uid, Winner(env, f, uid, NUM_BLOCKS));
    forall i: nat
      ensures HoldsAt(env, f, uid, i) <==> HoldsAt(env, g, uid, i)
    {
      assert SameAt(env, f, g, uid, i);
    }
  }

  // ----- the tables -----

  function Scanned<Key>(env: Env<Key>, b: DataBlock, old_: Info): Info
  {
    var i := old_.(partSize := b.partSize, valid := Live(env, b) || b.Free(), occupied := !b.Free());
    if i.valid && i.occupied && b.partSize > 0 then
      i.(partOccupancy := b.occupancy, partCount := PartCount(b.partSize),
          partTblOffs := HeaderSize(PartCount(b.partSize)))
    else i
  }

  /** The table entry agrees with a scan of the block: on valid and occupied always, on the rest if occupied. */
  ghost predicate InfoMatches<Key>(env: Env<Key>, b: DataBlock, i: Info) {
    && i.valid == (Live(env, b) || b.Free())
    && i.occupied == !b.Free()
    && (Live(env, b) && b.partSize > 0 ==>
         && i.partSize == b.partSize
         && i.partOccupancy == b.occupancy
         && i.partCount == PartCount(b.partSize)
         && i.partTblOffs == HeaderSize(i.partCount))
  }

  lemma ScanMatches<Key>(env: Env<Key>, b: DataBlock, old_: Info)
    ensures InfoMatches(env, b, Scanned(env, b, old_))
  {
    hide PartCount;
  }

  ghost predicate Tables<Key>(env: Env<Key>, db: Db) {
    && |db.flash| == |db.info| == NUM_BLOCKS
    && |db.uidMap| == MAX_UID + 1
    && (forall i: nat :: DataIndex(i) ==> InfoMatches(env, db.flash[i], db.info[i]))
  }

  /** Memory agrees with a fresh scan of a flash without duplicates. */
  ghost predicate Synced<Key>(env: Env<Key>, db: Db) {
    && Tables(env, db)
    && Clean(env, db.flash)
    && (forall uid: nat :: MIN_UID <= uid <= MAX_UID ==> db.uidMap[uid] == Winner(env, db.flash, uid, NUM_BLOCKS))
  }

  // ----- planning an update -----

  /** What an update is going to write: the block number, its new contents and table entry, and, for a
      relocation, the block the record leaves. Block number 0 stands for "not enough space". */
  datatype Plan = Plan(blockNum: nat, prevBlock: nat, block: DataBlock, info: Info)

  datatype Request = Request(uid: nat, sz: nat, data: seq<Cbc.Block>)

  ghost predicate GoodRequest(q: Request) {
    MIN_UID <= q.uid <= MAX_UID && |q.data| == SubBlocksForData(q.sz)
  }

  function Ciphertext<Key>(env: Env<Key>, uid: nat, data: seq<Cbc.Block>): (s: seq<Cbc.Block>)
    ensures |s| == |data|
  {
    CbcEncrypt(env.cipher, env.key, env.iv(uid), data)
  }

  function Grown(i: Info): Info {
    i.(partOccupancy := i.partOccupancy + 1, occupied := true, valid := true)
  }

  ghost predicate Appendable(b: DataBlock, sealed: seq<Cbc.Block>) {
    b.occupancy < |b.tbl| == |b.parts| && |sealed| <= |b.parts[b.occupancy]|
  }

  function FreshInfo(temp: Info, partSize: nat): Info
    requires partSize > 0
  {
    temp.(partOccupancy := 0, partSize := partSize, partCount := PartCount(partSize),
        partTblOffs := HeaderSize(PartCount(partSize)))
  }

  /** The choice made for this request is one the tables and the flash agree on. */
  ghost predicate Allocatable<Key>(env: Env<Key>, db: Db, q: Request) {
    && |db.info| == |db.flash| == NUM_BLOCKS
    && (TargetSize(q.sz) > 0 ==>
         match Choose(db.info, TargetSize(q.sz), BLK_SIZE)
         case Existing(b) => b < NUM_BLOCKS && Appendable(db.flash[b], Ciphertext(env, q.uid, q.data))
         case Fresh(b) => Appendable(InitializedBlock(TargetSize(q.sz)), Ciphertext(env, q.uid, q.data))
         case NoSpace => true)
  }

  /** allocate_uid */
  function AllocatePlan<Key>(env: Env<Key>, db: Db, q: Request, rev: nat, prev: nat, temp: DataBlock,
      tempInfo: Info): Plan
    requires Allocatable(env, db, q)
  {
    var partSize := TargetSize(q.sz);
    var sealed := Ciphertext(env, q.uid, q.data);
    if partSize == 0 then Plan(INVALID_BLOCK, prev, temp, tempInfo)
    else
      match Choose(db.info, partSize, BLK_SIZE)
      case NoSpace => Plan(INVALID_BLOCK, prev, temp, tempInfo)
      case Existing(b) => Plan(b, prev, Appended(db.flash[b], q.uid, q.sz, rev, sealed), Grown(db.info[b]))
      case Fresh(b) => Plan(b, prev, Appended(InitializedBlock(partSize), q.uid, q.sz, rev, sealed),
          Grown(FreshInfo(tempInfo, partSize)))
  }

  /** deallocate_uid for a record at `index` of block b. */
  function RemovalBlock(b: DataBlock, index: nat, info: Info, temp: DataBlock, deallocateBlock: bool): DataBlock
    requires index < b.occupancy <= |b.tbl| == |b.parts|
  {
    if info.partOccupancy == 1 && deallocateBlock then FreedBlock(temp) else Removed(b, index)
  }

  function RemovalInfo(info: Info, deallocateBlock: bool): Info
    requires info.partOccupancy > 0
  {
    if info.partOccupancy == 1 && deallocateBlock then info.(valid := true, occupied := false)
    else info.(partOccupancy := info.partOccupancy - 1)
  }

  /** What find_uid needs of the tables. */
  ghost predicate Searchable(db: Db, uid: nat) {
    && |db.uidMap| == MAX_UID + 1 && uid <= MAX_UID && |db.flash| == |db.info| == NUM_BLOCKS
    && db.uidMap[uid] < NUM_BLOCKS
    && (db.uidMap[uid] != INVALID_BLOCK ==>
         var b := db.flash[db.uidMap[uid]];
         db.info[db.uidMap[uid]].partOccupancy == b.occupancy <= |b.tbl| == |b.parts|)
  }

  /** Where find_uid finds the record, by the tables: a block number and an index, or nothing. */
  function Found(db: Db, uid: nat): (f: Maybe<(nat, nat)>)
    requires Searchable(db, uid)
    ensures f.Just? ==> f.value.0 == db.uidMap[uid] != INVALID_BLOCK && f.value.1 < db.flash[f.value.0].occupancy
  {
    var b := db.uidMap[uid];
    if b == INVALID_BLOCK then Nothing
    else
      var j := IndexOf(db.flash[b].tbl, uid, db.info[b].partOccupancy);
      if j < db.info[b].partOccupancy then Just((b, j)) else Nothing
  }

  /** What update_uid needs of the tables. */
  ghost predicate Plannable<Key>(env: Env<Key>, db: Db, q: Request) {
    && Searchable(db, q.uid)
    && (q.sz > 0 ==> Allocatable(env, db, q))
    && (q.sz > 0 && Found(db, q.uid).Just? ==>
         var (b, j) := Found(db, q.uid).value;
         Appendable(Removed(db.flash[b], j), Ciphertext(env, q.uid, q.data)) || db.info[b].partSize != TargetSize(q.sz))
  }

  /** update_uid */
  function UpdatePlan<Key>(env: Env<Key>, db: Db, q: Request, temp: DataBlock, tempInfo: Info): Plan
    requires Plannable(env, db, q)
  {
    match Found(db, q.uid)
    case Nothing =>
      if q.sz == 0 then Plan(INVALID_BLOCK, INVALID_BLOCK, temp, tempInfo)
      else AllocatePlan(env, db, q, 0, INVALID_BLOCK, temp, tempInfo)
    case Just((b, j)) =>
      if q.sz == 0 then
        Plan(b, INVALID_BLOCK, RemovalBlock(db.flash[b], j, db.info[b], temp, true), RemovalInfo(db.info[b], true))
      else if TargetSize(q.sz) == 0 then Plan(INVALID_BLOCK, INVALID_BLOCK, temp, tempInfo)
      else if db.info[b].partSize == TargetSize(q.sz) then
        Plan(b, b, Appended(Removed(db.flash[b], j), q.uid, q.sz, db.flash[b].tbl[j].rev,
            Ciphertext(env, q.uid, q.data)),
             Grown(RemovalInfo(db.info[b], false)))
      else AllocatePlan(env, db, q, (db.flash[b].tbl[j].rev + 1) % 4, b, temp, db.info[b])
  }

  // ----- carrying it out -----

  /** update_uid_cmd_complete: the CRC is filled in unless the block was freed. */
  function Finalized<Key>(env: Env<Key>, p: Plan): DataBlock {
    if p.info.occupied then WithCrc(env, p.block) else p.block
  }

  function FirstWrite<Key>(env: Env<Key>, flash: seq<DataBlock>, p: Plan): seq<DataBlock>
    requires p.blockNum < |flash|
  {
    flash[p.blockNum := Finalized(env, p)]
  }

  predicate Relocates(p: Plan) {
    p.prevBlock != p.blockNum && p.prevBlock != INVALID_BLOCK
  }

  /** Memory after the first write of an update that has only one. */
  function FinishSingle<Key>(env: Env<Key>, db: Db, q: Request, p: Plan): Db
    requires p.blockNum < |db.flash| == |db.info| && q.uid < |db.uidMap|
  {
    Db(FirstWrite(env, db.flash, p), db.info[p.blockNum := p.info],
       db.uidMap[q.uid := if q.sz == 0 then INVALID_BLOCK else p.blockNum])
  }

  /** Memory and flash between the two writes of a relocation: the table of the new block is current, the
      map still points at the old one. */
  function BetweenWrites<Key>(env: Env<Key>, db: Db, p: Plan): Db
    requires p.blockNum < |db.flash| == |db.info|
  {
    Db(FirstWrite(env, db.flash, p), db.info[p.blockNum := p.info], db.uidMap)
  }

  /** The second write of a relocation: the old block without the record. The CRC is filled in even when
      the block was freed. */
  function SecondBlock<Key>(env: Env<Key>, mid: Db, q: Request, temp: DataBlock): DataBlock
    requires Searchable(mid, q.uid) && Found(mid, q.uid).Just?
  {
    var (b, j) := Found(mid, q.uid).value;
    WithCrc(env, RemovalBlock(mid.flash[b], j, mid.info[b], temp, true))
  }

  /** Memory after the second write. The buffer of the first write is used again. */
  function FinishRelocation<Key>(env: Env<Key>, mid: Db, q: Request, p: Plan): Db
    requires Searchable(mid, q.uid) && Found(mid, q.uid).Just? && p.prevBlock < NUM_BLOCKS
  {
    var (b, j) := Found(mid, q.uid).value;
    Db(mid.flash[p.prevBlock := SecondBlock(env, mid, q, Finalized(env, p))],
       mid.info[p.prevBlock := RemovalInfo(mid.info[b], true)],
       mid.uidMap[q.uid := p.blockNum])
  }
}
