/** What every interleaving of a mass-storage transfer's callbacks keeps: the stages' independent counters
    agree, no byte is lost, and every sector passes the cipher under the address it is stored at. */
module ScsiSafety {
  import opened Arithmetic
  import opened BufferManager
  import opened BufferSafety
  import opened BufferProgress
  import opened ScsiTransfer

  /** The number of items a request is cut into. */
  function Items(blocks: nat): nat {
    (blocks + BUFFER_SECTORS - 1) / BUFFER_SECTORS
  }

  /** Sectors in the first k items. */
  function Before(blocks: nat, k: nat): nat {
    if BUFFER_SECTORS * k <= blocks then BUFFER_SECTORS * k else blocks
  }

  function SectorsIn(blocks: nat, k: nat): nat {
    Before(blocks, k + 1) - Before(blocks, k)
  }

  /** The sector that stage i owes for a block address: as fetched, or as it leaves the cipher. */
  function Owed<S>(job: Job<S>, i: nat, lba: nat): S
    requires lba in job.source
  {
    if job.encrypted && i >= 1 then job.crypt(lba, job.source[lba]) else job.source[lba]
  }

  /** What stage i owes for item k. */
  function Chunk<S>(job: Job<S>, i: nat, k: nat): (c: seq<S>)
    requires job.Valid()
    ensures |c| == SectorsIn(job.blocks, k)
    ensures forall j :: 0 <= j < |c| ==>
      job.addr + Before(job.blocks, k) + j in job.source && c[j] == Owed(job, i, job.addr + Before(job.blocks, k) + j)
  {
    seq(SectorsIn(job.blocks, k), j requires 0 <= j < SectorsIn(job.blocks, k) =>
      Owed(job, i, job.addr + Before(job.blocks, k) + j))
  }

  function ChunkItem<S>(job: Job<S>, i: nat, k: nat): Item<seq<S>>
    requires job.Valid()
  {
    Item(Chunk(job, i, k), SECTOR * SectorsIn(job.blocks, k), 0)
  }

  // ----- the invariant, one predicate for each concern -----

  /** Items the stage has counted. */
  function CountedItems(done: nat, phase: nat): nat {
    done + if phase >= 1 then 1 else 0
  }

  /** A stage's own counters say exactly how many items it has counted. */
  ghost predicate StageCounts(blocks: nat, addr: nat, done: nat, flight: bool, stalled: bool,
      left: int, len: int, pos: int, phase: nat, ahead: int)
  {
    && phase <= 2
    && (phase > 0 ==> flight)
    && left == SECTOR * (blocks - Before(blocks, CountedItems(done, phase)))
    && pos == addr + Before(blocks, CountedItems(done, phase)) + (if flight && phase == 0 then ahead else 0)
    && (flight ==> len == SECTOR * SectorsIn(blocks, done))
    && (flight && stalled ==> phase == 2)
    && (phase == 2 && done + 1 == Items(blocks) ==> stalled)
  }

  /** Sectors of the item in hand that the cipher stage has already put through. */
  ghost function Ahead<S>(x: Xfer<S>, i: nat): int
    requires x.Stage(i)
  {
    if IsCipher(x, i) then Ciphered(x) else 0
  }

  ghost predicate CountsOf<S>(x: Xfer<S>, i: nat)
    requires x.Stage(i)
  {
    StageCounts(x.job.blocks, x.job.addr, x.fifo.ring.done[i], x.fifo.ring.flight[i], x.fifo.ring.stalled[i],
                x.left[i], x.len[i], x.pos[i], x.phase[i], Ahead(x, i))
  }

  ghost predicate Counts<S>(x: Xfer<S>)
    requires x.Shape()
  {
    && (forall i: nat :: i < x.fifo.ring.stages ==> CountsOf(x, i))
    && (x.job.encrypted && x.fifo.ring.flight[1] ==>
         0 <= x.sectorsLeft <= SectorsIn(x.job.blocks, x.fifo.ring.done[1]) && (x.phase[1] > 0 ==> x.sectorsLeft == 0))
    && x.residue == x.left[x.job.UsbStage()]
  }

  /** Everything completed so far is what was owed. */
  ghost predicate Produced<S>(job: Job<S>, n: nat, done: seq<nat>, produced: seq<seq<Item<seq<S>>>>)
  {
    && job.Valid()
    && n <= |done| == |produced|
    && (forall i: nat, k: nat :: i + 1 < n && k < done[i] && k < |produced[i]| ==>
        produced[i][k] == ChunkItem(job, i, k))
  }

  /** The slot that stage i is filling holds the first `ready` sectors of what it owes. */
  ghost predicate Filling<S>(chunk: seq<S>, data: seq<S>, ready: int) {
    0 <= ready <= |data| && ready <= |chunk| && data[..ready] == chunk[..ready]
  }

  ghost predicate FillingOf<S>(x: Xfer<S>, i: nat)
    requires x.Stage(i) && x.job.Valid()
  {
    var r := x.fifo.ring;
    var chunk := Chunk(x.job, i, r.done[i]);
    var slot := r.slots[Slot(r.write[i], r.depth)];
    if x.phase[i] >= 1 then slot.data == chunk
    else if IsCipher(x, i) then Filling(chunk, slot.data, Ciphered(x)) && (x.sectorsLeft == 0 ==> slot.data == chunk)
    else true
  }

  /** Slots being filled are filled right; the last stage's slot still holds what it was given. */
  ghost predicate SlotsRight<S>(x: Xfer<S>)
    requires x.Shape() && x.job.Valid()
  {
    var r := x.fifo.ring;
    && (forall i: nat :: i + 1 < r.stages && r.flight[i] ==> FillingOf(x, i))
    && LastUndisturbed(r)
  }

  /** The sink holds what is owed for the block addresses the last stage has placed, and is otherwise untouched. */
  ghost predicate Placed<S>(job: Job<S>, sink0: map<nat, S>, sink: map<nat, S>, upto: int)
    requires job.Valid()
  {
    && job.addr <= upto <= job.addr + job.blocks
    && (forall lba: nat :: lba in sink <==> lba in sink0 || job.addr <= lba < upto)
    && (forall lba: nat :: lba in sink && job.addr <= lba < upto ==> sink[lba] == Owed(job, 2, lba))
    && (forall lba: nat :: lba in sink && !(job.addr <= lba < upto) ==> sink[lba] == sink0[lba])
  }

  ghost predicate TransferInv<S>(x: Xfer<S>, sink0: map<nat, S>) {
    && x.Shape()
    && x.job.Valid()
    && ProgressInv(x.fifo, Items(x.job.blocks))
    && Counts(x)
    && Produced(x.job, x.fifo.ring.stages, x.fifo.ring.done, x.fifo.ring.produced)
    && SlotsRight(x)
    && Placed(x.job, sink0, x.sink, x.pos[x.fifo.ring.stages - 1])
  }

  // ----- arithmetic of cutting a request into items -----

  /** Items of 32 sectors of 512 bytes, no more than it takes; all but the last are full. */
  lemma ItemsAreLeast(blocks: nat, k: nat)
    requires blocks > 0 && k < Items(blocks)
    ensures 32 * (Items(blocks) - 1) < blocks <= 32 * Items(blocks)
    ensures SectorsIn(blocks, k) == if k + 1 < Items(blocks) then 32 else blocks - 32 * k
    ensures SECTOR == 512 && BUFFER_BYTES == 16384
  {
  }

  lemma ItemsExhausted(blocks: nat, k: nat)
    ensures Before(blocks, k) == blocks <==> k >= Items(blocks)
    ensures k < Items(blocks) ==> SectorsIn(blocks, k) > 0
    ensures 0 <= SectorsIn(blocks, k) <= BUFFER_SECTORS
    ensures SECTOR * SectorsIn(blocks, k) == Min(SECTOR * (blocks - Before(blocks, k)), BUFFER_BYTES)
    ensures Before(blocks, k) <= Before(blocks, k + 1) <= blocks
  {
  }
}
