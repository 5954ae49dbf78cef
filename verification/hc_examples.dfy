/** Two disks of the asynchronous database: a formatted one, from which every run may start, and a full one. */
module HcExamples {
  import opened Cbc
  import opened RecordBlock
  import opened BlockChoice
  import opened RecordStore
  import opened HcStore
  import opened HcRecords

  const TAKEN_INFO := Info(true, true, HC_PART_COUNT, 1, MAX_PART_SIZE, 1)

  /** Formatting writes a block without records everywhere, which the scan then takes up as it is. */
  function FormattedDisk<Key>(env: Env<Key>): Disk {
    Disk(seq(HC_NUM_BLOCKS, _ => WithCrc(env, EmptyHcBlock())), seq(HC_NUM_BLOCKS, _ => EMPTY_INFO),
        seq(MAX_UID + 1, _ => INVALID_BLOCK))
  }

  function Taken<Key>(env: Env<Key>, uid: nat): DataBlock {
    WithCrc(env, DataBlock(0, MAX_PART_SIZE, 1, [Entry(uid, 0, true, 1, INVALID_BLOCK)], [EmptyPart(MAX_PART_SIZE)]))
  }

  /** Block i holds a record of uid i. */
  function FullDisk<Key>(env: Env<Key>): Disk {
    Disk(seq(HC_NUM_BLOCKS, i requires 0 <= i < HC_NUM_BLOCKS => Taken(env, i)),
         seq(HC_NUM_BLOCKS, _ => TAKEN_INFO),
         seq(MAX_UID + 1, u requires 0 <= u <= MAX_UID => if u < HC_NUM_BLOCKS then u else INVALID_BLOCK))
  }

  /** The start of every run: nothing stored, nothing cached, nothing outstanding. */
  lemma FormattedDiskIsReady<Key>(env: Env<Key>, cache: DataBlock)
    ensures DiskOk(env, FormattedDisk(env))
    ensures Ready(env, Hc(FormattedDisk(env), cache, NO_INDEX, false, Idle)) && AgreeAll(env, FormattedDisk(env), map[])
  {
    assert DiskOk(env, FormattedDisk(env));
  }

  /** Deleting from it is never answered. */
  lemma DeletionUnanswered<Key>(env: Env<Key>, uid: nat, temp: DataBlock, stray: HcPlan)
    requires MIN_UID <= uid <= MAX_UID
    ensures var d, q := FormattedDisk(env), Request(uid, 0, []);
      && DiskOk(env, d) && HcGoodRequest(q)
      && Readable(env, DirectView(d), d.info, d.uidMap, q)
      && Direct(env, d, q, temp, stray).Invalid?
  {
    FormattedDiskIsReady(env, temp);
    hide Choose, Live;
    AnswersExactlyWhen(env, FormattedDisk(env), Request(uid, 0, []), temp, stray);
  }

  lemma FullDiskIsOk<Key>(env: Env<Key>)
    ensures DiskOk(env, FullDisk(env))
  {
    var d := FullDisk(env);
    forall i: nat | MIN_DATA_BLOCK <= i < HC_NUM_BLOCKS ensures HcBlockOk(env, d.storage[i], d.info[i]) {
      assert d.storage[i] == Taken(env, i);
    }
  }

  /** Storing a new uid in the full one is not refused: it goes on with block 0. */
  lemma FullStoreGoesOn<Key>(env: Env<Key>, uid: nat, temp: DataBlock, stray: HcPlan)
    requires HC_NUM_BLOCKS <= uid <= MAX_UID
    ensures var d, q := FullDisk(env), Request(uid, 1, [ZERO_BLOCK]);
      && DiskOk(env, d) && HcGoodRequest(q)
      && Readable(env, DirectView(d), d.info, d.uidMap, q)
      && var r := Direct(env, d, q, temp, stray);
      && r.Success? && r.plan.blockNum == INVALID_BLOCK
  {
    FullDiskIsOk(env);
    var d := FullDisk(env);
    assert Choose(d.info, MAX_PART_SIZE, HC_BLK_SIZE) == NoSpace by {
      ChoiceRule(d.info, MAX_PART_SIZE, HC_BLK_SIZE);
      hide Choose;
    }
    hide Choose, Live, FullDisk, DiskOk;
    AnswersExactlyWhen(env, d, Request(uid, 1, [ZERO_BLOCK]), temp, stray);
  }
}
