/** The mass-storage transfers that drive the buffer pipeline. A READ(10) runs eMMC -> (decrypt) -> USB,
    a WRITE(10) runs USB -> (encrypt) -> eMMC. Each stage has its own byte counter, its own item length and
    its own sector address; nothing but the pipeline ties them together. */
module ScsiTransfer {
  import opened Arithmetic
  import opened BufferManager

  const SECTOR: int := 512
  const BUFFER_BYTES: int := 16384
  const BUFFER_SECTORS: int := 32
  const BUFFER_COUNT: int := 4

  /** One request. `source` and the transfer's `sink` hold sectors by block address: for a read the
      source is the eMMC and the sink the host's memory, for a write the other way round. */
  datatype Job<!S> = Job(read: bool, encrypted: bool, addr: nat, blocks: nat, source: map<nat, S>, crypt: (nat, S) -> S)
  {
    function Stages(): nat {
      if encrypted then 3 else 2
    }

    function UsbStage(): nat {
      if read then Stages() - 1 else 0
    }

    function MmcStage(): nat {
      if read then 0 else Stages() - 1
    }

    ghost predicate Valid() {
      && blocks > 0
      && (forall lba :: addr <= lba < addr + blocks ==> lba in source)
    }
  }

  /** By stage: `left` is its count of bytes still to move (mmcDataToTransfer, g_cryptDataToTransfer,
      scsi_blk_len), `len` the length of the item in hand (mmcReadLen, g_cryptTxLen, writeLen), `pos` the
      next block address (mmcBlockAddr, g_scsi_cur_aes_sector, scsi_blk_addr / 512). `phase` says how far the
      stage is with its item: 0 working, 1 counted, 2 end reported, about to be completed. */
  datatype Xfer<!S> = Xfer(
    job: Job<S>,
    fifo: Fifo<seq<S>>,
    left: seq<int>,
    len: seq<int>,
    pos: seq<int>,
    phase: seq<nat>,
    sectorsLeft: int,
    residue: int,
    sink: map<nat, S>)
  {
    ghost predicate Shape() {
      && fifo.Shape()
      && fifo.ring.stages == job.Stages()
      && fifo.ring.depth == BUFFER_COUNT
      && |left| == |len| == |pos| == |phase| == MAX_STAGES
    }

    ghost predicate Stage(i: nat) {
      Shape() && i < fifo.ring.stages
    }
  }

  /** The item stage i was last started with. */
  function InHand<S>(x: Xfer<S>, i: nat): Item<seq<S>>
    requires x.Stage(i) && |x.fifo.ring.received[i]| > 0
  {
    x.fifo.ring.received[i][|x.fifo.ring.received[i]| - 1]
  }

  /** processStage of stage i, when the pipeline has just called it: fix the length of the new item. */
  function Begun<S>(x: Xfer<S>, before: Ring<seq<S>>, i: nat): (y: Xfer<S>)
    requires x.Stage(i) && before.Stage(i)
    ensures y.Shape() && y.fifo == x.fifo && y.job == x.job
  {
    if |x.fifo.ring.received[i]| <= |before.received[i]| then x
    else
      var n := if i == 0 then Min(x.left[0], BUFFER_BYTES) else InHand(x, i).size;
      x.(len := x.len[i := n], sectorsLeft := if i == 1 && x.job.encrypted then n / SECTOR else x.sectorsLeft)
  }

  /** Set-up of SCSI_Read10 and SCSI_Write10; `x` is whatever the last transfer left. */
  function StartTransfer<S>(x: Xfer<S>, job: Job<S>): (y: Xfer<S>)
    requires x.fifo.Shape()
    requires x.fifo.ring.depth == BUFFER_COUNT && |x.len| == MAX_STAGES
    ensures y.Shape()
  {
    var total := job.blocks * SECTOR;
    var f := Fifo(x.fifo.ring.(stages := job.Stages()), x.fifo.active, 0, x.fifo.finished);
    var g := Start(f, Min(total, BUFFER_BYTES));
    var y := Xfer(job, g, seq(MAX_STAGES, _ => total), x.len, seq(MAX_STAGES, _ => job.addr), seq(MAX_STAGES, _ => 0),
                  x.sectorsLeft, total, x.sink);
    Begun(y, Reset(f.ring, Min(total, BUFFER_BYTES)), 0)
  }

  // ----- the steps -----

  /** Sectors a..a+n of a store. */
  function Fetch<S>(store: map<nat, S>, a: nat, n: nat): seq<S>
    requires forall lba :: a <= lba < a + n ==> lba in store
  {
    seq(n, k requires 0 <= k < n => store[a + k])
  }

  function Place<S>(store: map<nat, S>, a: nat, data: seq<S>): (r: map<nat, S>)
    ensures forall lba :: lba in r <==> lba in store || a <= lba < a + |data|
    ensures forall lba :: lba in r ==> r[lba] == if a <= lba < a + |data| then data[lba - a] else store[lba]
  {
    if data == [] then store
    else
      var n := |data| - 1;
      Place(store, a, data[..n])[a + n := data[n]]
  }

  /** The length the stage goes by when it has moved its item: the USB callbacks take the minimum once more. */
  function MovedLength<S>(x: Xfer<S>, i: nat): int
    requires x.Stage(i)
  {
    if i == x.job.UsbStage() then Min(x.left[i], x.len[i]) else x.len[i]
  }

  ghost predicate Working<S>(x: Xfer<S>, i: nat) {
    x.Stage(i) && x.fifo.ring.busy[i] && x.phase[i] == 0
  }

  predicate IsCipher<S>(x: Xfer<S>, i: nat) {
    x.job.encrypted && i == 1
  }

  /** How many sectors of the item in hand the cipher has finished. */
  function Ciphered<S>(x: Xfer<S>): int
    requires x.Stage(1)
  {
    x.len[1] / SECTOR - x.sectorsLeft
  }

  /** One sector leaves the cipher: it is read from the slot being read, keyed by the sector address. */
  ghost predicate CanCipher<S>(x: Xfer<S>) {
    && IsCipher(x, 1)
    && Working(x, 1)
    && x.sectorsLeft > 0
    && 0 <= Ciphered(x) < |x.fifo.ring.slots[Slot(x.fifo.ring.read[1], x.fifo.ring.depth)].data|
    && Ciphered(x) <= |x.fifo.ring.slots[Slot(x.fifo.ring.write[1], x.fifo.ring.depth)].data|
    && x.pos[1] >= 0
  }

  function CipherSector<S>(x: Xfer<S>): (y: Xfer<S>)
    requires CanCipher(x)
    ensures y.Stage(1) && y.job == x.job && y.fifo.ring.stages == x.fifo.ring.stages
    ensures y.fifo.ring.depth == x.fifo.ring.depth
  {
    var r := x.fifo.ring;
    var j := Ciphered(x);
    var out := r.slots[Slot(r.write[1], r.depth)].data;
    var sector := x.job.crypt(x.pos[1], r.slots[Slot(r.read[1], r.depth)].data[j]);
    x.(fifo := x.fifo.(ring := Transfer(r, 1, out[..j] + [sector])),
       pos := x.pos[1 := x.pos[1] + 1],
       sectorsLeft := x.sectorsLeft - 1)
  }

  /** The first stage may fetch its item, the last may place it, the cipher stage may count it once it has
      done all its sectors. */
  ghost predicate CanCount<S>(x: Xfer<S>, i: nat) {
    && Working(x, i)
    && MovedLength(x, i) >= 0
    && x.pos[i] >= 0
    && (IsCipher(x, i) ==> x.sectorsLeft == 0)
    && (i == 0 ==> forall lba :: x.pos[0] <= lba < x.pos[0] + MovedLength(x, 0) / SECTOR ==> lba in x.job.source)
    && (i == x.fifo.ring.stages - 1 ==>
         MovedLength(x, i) / SECTOR <= |x.fifo.ring.slots[Slot(x.fifo.ring.read[i], x.fifo.ring.depth)].data|)
  }

  /** The first stage's hardware fills the slot it was given. */
  function Fetched<S>(x: Xfer<S>, i: nat): (f: Fifo<seq<S>>)
    requires CanCount(x, i)
    ensures f.Shape() && f.ring.stages == x.fifo.ring.stages && f.ring.depth == x.fifo.ring.depth
  {
    if i == 0 then x.fifo.(ring := Transfer(x.fifo.ring, 0, Fetch(x.job.source, x.pos[0], MovedLength(x, 0) / SECTOR)))
    else x.fifo
  }

  /** The last stage's hardware empties it. */
  function Delivered<S>(x: Xfer<S>, i: nat): map<nat, S>
    requires CanCount(x, i)
  {
    var r := x.fifo.ring;
    if i == r.stages - 1 then Place(x.sink, x.pos[i],
        r.slots[Slot(r.read[i], r.depth)].data[..MovedLength(x, i) / SECTOR])
    else x.sink
  }

  function Counted<S>(x: Xfer<S>, i: nat): (y: Xfer<S>)
    requires CanCount(x, i)
    ensures y.Stage(i) && y.job == x.job && y.fifo.ring.stages == x.fifo.ring.stages
    ensures y.fifo.ring.depth == x.fifo.ring.depth
  {
    var n := MovedLength(x, i);
    x.(left := x.left[i := x.left[i] - n],
       pos := x.pos[i := x.pos[i] + if IsCipher(x, i) then 0 else n / SECTOR],
       phase := x.phase[i := 1],
       len := x.len[i := n],
       residue := x.residue - if i == x.job.UsbStage() then n else 0,
       fifo := Fetched(x, i),
       sink := Delivered(x, i))
  }

  /** A stage whose counter has reached zero stalls. */
  function Reported<S>(x: Xfer<S>, i: nat): (y: Xfer<S>)
    requires x.Stage(i)
    ensures y.Stage(i) && y.job == x.job && y.fifo.ring.stages == x.fifo.ring.stages
    ensures y.fifo.ring.depth == x.fifo.ring.depth
  {
    x.(phase := x.phase[i := 2],
       fifo := if x.left[i] == 0 then x.fifo.(ring := StallStage(x.fifo.ring, i)) else x.fifo)
  }

  function FinishedItem<S>(x: Xfer<S>, i: nat): (y: Xfer<S>)
    requires x.Stage(i)
    ensures y.Stage(i) && y.job == x.job && y.fifo.ring.stages == x.fifo.ring.stages
    ensures y.fifo.ring.depth == x.fifo.ring.depth
  {
    var r := x.fifo.ring;
    var y := x.(fifo := Complete(x.fifo, i, x.len[i], 0), phase := x.phase[i := 0]);
    Begun(Begun(y, r, i), r, Next(r.stages, i))
  }

  datatype Step = Cipher | Count(stage: nat) | Report(stage: nat) | Done(stage: nat)

  ghost predicate CanStep<S>(x: Xfer<S>, e: Step) {
    match e
    case Cipher => CanCipher(x)
    case Count(i) => CanCount(x, i)
    case Report(i) => x.Stage(i) && x.phase[i] == 1
    case Done(i) => x.Stage(i) && x.phase[i] == 2
  }

  function TakeStep<S>(x: Xfer<S>, e: Step): (y: Xfer<S>)
    requires CanStep(x, e)
    ensures y.Shape() && y.job == x.job
  {
    match e
    case Cipher => CipherSector(x)
    case Count(i) => Counted(x, i)
    case Report(i) => Reported(x, i)
    case Done(i) => FinishedItem(x, i)
  }
}
