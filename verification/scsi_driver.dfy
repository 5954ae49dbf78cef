/** The mass-storage driver itself: its counters are separate variables, each changed by its own callback, and
    the pipeline object calls back when it starts a stage. Every callback is proved to be one to three steps of
    ScsiTransfer. */
module ScsiDriverObject {
  import opened Arithmetic
  import opened BufferManager
  import opened BufferFifoObject
  import opened ScsiTransfer

  /** The variables of the three kinds of stage, put in the order of the stages; entries no stage uses keep
      their own value. */
  function ByStage<S>(job: Job<S>, usb: int, mmc: int, crypt: int, spare: seq<int>): (s: seq<int>)
    requires |spare| == MAX_STAGES
    ensures |s| == MAX_STAGES
    ensures s[job.UsbStage()] == usb && s[job.MmcStage()] == mmc && (job.encrypted ==> s[1] == crypt)
  {
    seq(MAX_STAGES, i requires 0 <= i < MAX_STAGES =>
      if i == job.UsbStage() then usb
      else if i == job.MmcStage() then mmc
      else if i == 1 && job.encrypted then crypt
      else spare[i])
  }

  lemma SetUsb<S>(job: Job<S>, usb: int, mmc: int, crypt: int, spare: seq<int>, v: int)
    requires |spare| == MAX_STAGES
    ensures ByStage(job, v, mmc, crypt, spare) == ByStage(job, usb, mmc, crypt, spare)[job.UsbStage() := v]
  {
  }

  lemma SetMmc<S>(job: Job<S>, usb: int, mmc: int, crypt: int, spare: seq<int>, v: int)
    requires |spare| == MAX_STAGES
    ensures ByStage(job, usb, v, crypt, spare) == ByStage(job, usb, mmc, crypt, spare)[job.MmcStage() := v]
  {
  }

  lemma SetCrypt<S>(job: Job<S>, usb: int, mmc: int, crypt: int, spare: seq<int>, v: int)
    requires |spare| == MAX_STAGES && job.encrypted
    ensures ByStage(job, usb, mmc, v, spare) == ByStage(job, usb, mmc, crypt, spare)[1 := v]
  {
  }

  lemma AllStages<S>(job: Job<S>, v: int, crypt: int)
    requires job.encrypted ==> crypt == v
    ensures ByStage(job, v, v, crypt, seq(MAX_STAGES, _ => v)) == seq(MAX_STAGES, _ => v)
  {
  }

  /** What processStage of stage i does to the state. */
  function Processed<S>(x: Xfer<S>, i: nat): (y: Xfer<S>)
    requires x.Stage(i) && |x.fifo.ring.received[i]| > 0
    ensures y.Shape() && y.fifo == x.fifo && y.job == x.job
  {
    var n := if i == 0 then Min(x.left[0], BUFFER_BYTES) else InHand(x, i).size;
    x.(len := x.len[i := n], sectorsLeft := if i == 1 && x.job.encrypted then n / SECTOR else x.sectorsLeft)
  }

  lemma BegunIsProcessed<S>(x: Xfer<S>, before: Ring<seq<S>>, i: nat)
    requires x.Stage(i) && before.Stage(i)
    ensures Begun(x, before, i) == if |x.fifo.ring.received[i]| <= |before.received[i]| then x else Processed(x, i)
  {
  }

  // ----- the two halves of a count: the data, and the numbers -----

  function Carried<S>(x: Xfer<S>, i: nat): (y: Xfer<S>)
    requires CanCount(x, i)
    ensures y.Stage(i) && y.job == x.job
  {
    x.(fifo := Fetched(x, i), sink := Delivered(x, i))
  }

  function Tallied<S>(x: Xfer<S>, i: nat, n: int): (y: Xfer<S>)
    requires x.Stage(i)
    ensures y.Stage(i) && y.job == x.job && y.fifo == x.fifo
  {
    x.(left := x.left[i := x.left[i] - n],
       pos := x.pos[i := x.pos[i] + if IsCipher(x, i) then 0 else n / SECTOR],
       phase := x.phase[i := 1],
       len := x.len[i := n],
       residue := x.residue - if i == x.job.UsbStage() then n else 0)
  }

  lemma CountedInHalves<S>(x: Xfer<S>, i: nat)
    requires CanCount(x, i)
    ensures Counted(x, i) == Tallied(Carried(x, i), i, MovedLength(x, i))
  {
  }

  class ScsiDriver<S(0)> {
    const fifo: BufferFifo<seq<S>>
    var job: Job<S>

    // the eMMC stage
    var mmcDataToTransfer: int
    var mmcReadLen: int
    var mmcBlockAddr: int

    // the cipher stage
    var cryptDataToTransfer: int
    var cryptTxLen: int
    var curAesSector: int
    var numAesSector: int

    // the USB stage
    var scsiBlkLen: int
    var writeLen: int
    var dataResidue: int

    // the memory at the far end, the block address the host is at, and how far each stage is with its item
    var sink: map<nat, S>
    var hostPos: int
    ghost var phase: seq<nat>
    ghost var spareLeft: seq<int>
    ghost var spareLen: seq<int>
    ghost var sparePos: seq<int>

    ghost predicate Valid()
      reads this, fifo, fifo.bufferStorage, fifo.bufferSize, fifo.bufferData, fifo.stageWriteIndex,
          fifo.stageReadIndex, fifo.stalledTable, fifo.stageProcessing
    {
      && fifo.Valid() && fifo.numStages == job.Stages() && fifo.bufferCount == BUFFER_COUNT
      && |phase| == |spareLeft| == |spareLen| == |sparePos| == MAX_STAGES
    }

    ghost function State(): (x: Xfer<S>)
      requires Valid()
      reads this, fifo, fifo.bufferStorage, fifo.bufferSize, fifo.bufferData, fifo.stageWriteIndex,
          fifo.stageReadIndex, fifo.stalledTable, fifo.stageProcessing
      ensures x.Shape() && x.job == job && x.fifo == fifo.State()
    {
      Xfer(job, fifo.State(),
        ByStage(job, scsiBlkLen, mmcDataToTransfer, cryptDataToTransfer, spareLeft),
        ByStage(job, writeLen, mmcReadLen, cryptTxLen, spareLen),
        ByStage(job, hostPos, mmcBlockAddr, curAesSector, sparePos),
        phase, numAesSector, dataResidue, sink)
    }

    constructor (job: Job<S>)
      ensures Valid() && fresh(fifo) && this.job == job
    {
      fifo := new BufferFifo<seq<S>>(job.Stages(), BUFFER_COUNT);
      this.job := job;
      mmcDataToTransfer, mmcReadLen, mmcBlockAddr := 0, 0, 0;
      cryptDataToTransfer, cryptTxLen, curAesSector, numAesSector := 0, 0, 0, 0;
      scsiBlkLen, writeLen, dataResidue, sink := 0, 0, 0, map[];
      hostPos, phase := 0, [0, 0, 0, 0];
      spareLeft, spareLen, sparePos := [0, 0, 0, 0], [0, 0, 0, 0], [0, 0, 0, 0];
    }

    // ----- the processStage callbacks -----

    ghost predicate Given(i: nat, readSize: int)
      requires Valid()
      reads this, fifo, fifo.bufferStorage, fifo.bufferSize, fifo.bufferData, fifo.stageWriteIndex,
          fifo.stageReadIndex, fifo.stalledTable, fifo.stageProcessing
    {
      i < State().fifo.ring.stages && |State().fifo.ring.received[i]| > 0 && InHand(State(), i).size == readSize
    }

    method ProcessMmcReadBuffer(ghost readLen: int)
      requires Valid() && job.read && Given(0, readLen)
      modifies this`mmcReadLen
      ensures Valid() && State() == Processed(old(State()), 0)
    {
      hide ByStage, InHand, BufferFifo.State, BufferFifo.Valid;
      if mmcDataToTransfer <= BUFFER_BYTES {
        mmcReadLen := mmcDataToTransfer;
      } else {
        mmcReadLen := BUFFER_BYTES;
      }
      SetMmc(job, writeLen, old(mmcReadLen), cryptTxLen, spareLen, mmcReadLen);
    }

    method ProcessUsbWriteBuffer(ghost readSize: int)
      requires Valid() && !job.read && Given(0, readSize)
      modifies this`writeLen
      ensures Valid() && State() == Processed(old(State()), 0)
    {
      hide ByStage, InHand, BufferFifo.State, BufferFifo.Valid;
      if scsiBlkLen <= BUFFER_BYTES {
        writeLen := scsiBlkLen;
      } else {
        writeLen := BUFFER_BYTES;
      }
      SetUsb(job, old(writeLen), mmcReadLen, cryptTxLen, spareLen, writeLen);
    }

    /** Decryption for a read and encryption for a write. */
    method ProcessCryptBuffer(readLen: int)
      requires Valid() && job.encrypted && Given(1, readLen)
      modifies this`cryptTxLen, this`numAesSector
      ensures Valid() && State() == Processed(old(State()), 1)
    {
      hide ByStage, InHand, BufferFifo.State, BufferFifo.Valid;
      cryptTxLen := readLen;
      numAesSector := readLen / SECTOR;
      SetCrypt(job, writeLen, mmcReadLen, old(cryptTxLen), spareLen, cryptTxLen);
    }

    method ProcessUsbReadBuffer(readSize: int)
      requires Valid() && job.read && Given(job.UsbStage(), readSize)
      modifies this`writeLen
      ensures Valid() && State() == Processed(old(State()), job.UsbStage())
    {
      hide ByStage, InHand, BufferFifo.State, BufferFifo.Valid;
      writeLen := readSize;
      SetUsb(job, old(writeLen), mmcReadLen, cryptTxLen, spareLen, writeLen);
    }

    method ProcessMmcWriteBuffer(readLen: int)
      requires Valid() && !job.read && Given(job.MmcStage(), readLen)
      modifies this`mmcReadLen
      ensures Valid() && State() == Processed(old(State()), job.MmcStage())
    {
      hide ByStage, InHand, BufferFifo.State, BufferFifo.Valid;
      mmcReadLen := readLen;
      SetMmc(job, writeLen, old(mmcReadLen), cryptTxLen, spareLen, mmcReadLen);
    }

    /** processStage[i], as SCSI_Read10 and SCSI_Write10 set it up. */
    method ProcessStage(i: nat, readSize: int)
      requires Valid() && Given(i, readSize)
      modifies this`mmcReadLen, this`cryptTxLen, this`numAesSector, this`writeLen
      ensures Valid() && State() == Processed(old(State()), i)
    {
      hide ByStage, InHand, BufferFifo.State, BufferFifo.Valid, Processed;
      if i == 0 {
        if job.read {
          ProcessMmcReadBuffer(readSize);
        } else {
          ProcessUsbWriteBuffer(readSize);
        }
      } else if i == 1 && job.encrypted {
        ProcessCryptBuffer(readSize);
      } else if job.read {
        ProcessUsbReadBuffer(readSize);
      } else {
        ProcessMmcWriteBuffer(readSize);
      }
    }

    // ----- what the hardware has done when a callback comes -----

    /** The eMMC has filled the slot, or emptied it. */
    method CarryMmc()
      requires Valid() && CanCount(State(), job.MmcStage())
      modifies this`sink, fifo.bufferStorage
      ensures Valid() && State() == Carried(old(State()), job.MmcStage())
    {
      hide ByStage, BufferFifo.State, BufferFifo.Valid, Fetch, Place, Slot, Transfer;
      if job.read {
        fifo.Fill(0, Fetch(job.source, mmcBlockAddr, mmcReadLen / SECTOR));
      } else {
        var data, _ := fifo.ReadSlot(job.MmcStage());
        sink := Place(sink, mmcBlockAddr, data[..mmcReadLen / SECTOR]);
      }
    }

    /** The endpoint has received into the slot, or sent it. */
    method CarryUsb(len: int)
      requires Valid() && CanCount(State(), job.UsbStage()) && len == MovedLength(State(), job.UsbStage())
      modifies this`sink, fifo.bufferStorage
      ensures Valid() && State() == Carried(old(State()), job.UsbStage())
    {
      hide ByStage, BufferFifo.State, BufferFifo.Valid, Fetch, Place, Slot, Transfer;
      if job.read {
        var data, _ := fifo.ReadSlot(job.UsbStage());
        sink := Place(sink, hostPos, data[..len / SECTOR]);
      } else {
        fifo.Fill(0, Fetch(job.source, hostPos, len / SECTOR));
      }
    }

    // ----- the counters -----

    /** The counters of emmc_user_read_storage_rx_complete and emmc_user_write_storage_tx_dma_complete. */
    method CountMmc()
      requires Valid()
      modifies this`mmcDataToTransfer, this`mmcBlockAddr, this`phase
      ensures Valid() && State() == Tallied(old(State()), job.MmcStage(), old(mmcReadLen))
    {
      hide ByStage, BufferFifo.State, BufferFifo.Valid;
      mmcDataToTransfer := mmcDataToTransfer - mmcReadLen;
      mmcBlockAddr := mmcBlockAddr + mmcReadLen / SECTOR;
      phase := phase[job.MmcStage() := 1];
      SetMmc(job, scsiBlkLen, old(mmcDataToTransfer), cryptDataToTransfer, spareLeft, mmcDataToTransfer);
      SetMmc(job, writeLen, mmcReadLen, cryptTxLen, spareLen, mmcReadLen);
      SetMmc(job, hostPos, old(mmcBlockAddr), curAesSector, sparePos, mmcBlockAddr);
    }

    /** The counters of SCSI_ProcessRead and SCSI_ProcessWrite. */
    method CountUsb(len: int)
      requires Valid()
      modifies this`scsiBlkLen, this`writeLen, this`dataResidue, this`hostPos, this`phase
      ensures Valid() && State() == Tallied(old(State()), job.UsbStage(), len)
    {
      hide ByStage, BufferFifo.State, BufferFifo.Valid;
      hostPos := hostPos + len / SECTOR;
      scsiBlkLen := scsiBlkLen - len;
      dataResidue := dataResidue - len;
      writeLen := len;
      phase := phase[job.UsbStage() := 1];
      SetUsb(job, old(scsiBlkLen), mmcDataToTransfer, cryptDataToTransfer, spareLeft, scsiBlkLen);
      SetUsb(job, old(writeLen), mmcReadLen, cryptTxLen, spareLen, writeLen);
      SetUsb(job, old(hostPos), mmcBlockAddr, curAesSector, sparePos, hostPos);
    }

    /** One sector has left the cipher. */
    method CryptSector()
      requires Valid() && CanCipher(State())
      modifies this`curAesSector, this`numAesSector, fifo.bufferStorage
      ensures Valid() && State() == CipherSector(old(State()))
    {
      hide ByStage, BufferFifo.State, BufferFifo.Valid, Slot, Transfer, CanCipher;
      CarrySector();
      curAesSector := curAesSector + 1;
      numAesSector := numAesSector - 1;
      SetCrypt(job, hostPos, mmcBlockAddr, old(curAesSector), sparePos, curAesSector);
    }

    method CarrySector()
      requires Valid() && CanCipher(State())
      modifies fifo.bufferStorage
      ensures Valid() && job.encrypted && State() == old(State()).(fifo := CipherSector(old(State())).fifo)
    {
      hide ByStage, BufferFifo.State, BufferFifo.Valid, Slot, Transfer;
      var data, _ := fifo.ReadSlot(1);
      var out := fifo.WriteSlotData(1);
      var j := cryptTxLen / SECTOR - numAesSector;
      fifo.Fill(1, out[..j] + [job.crypt(curAesSector, data[j])]);
    }

    method CountCrypt()
      requires Valid() && job.encrypted
      modifies this`cryptDataToTransfer, this`phase
      ensures Valid() && State() == Tallied(old(State()), 1, old(cryptTxLen))
    {
      hide ByStage, BufferFifo.State, BufferFifo.Valid;
      cryptDataToTransfer := cryptDataToTransfer - cryptTxLen;
      phase := phase[1 := 1];
      SetCrypt(job, scsiBlkLen, mmcDataToTransfer, old(cryptDataToTransfer), spareLeft, cryptDataToTransfer);
      SetCrypt(job, writeLen, mmcReadLen, cryptTxLen, spareLen, cryptTxLen);
      SetCrypt(job, hostPos, mmcBlockAddr, curAesSector, sparePos, curAesSector);
    }

    // ----- telling the pipeline -----

    /** A stage with nothing left to move is stalled. */
    method ReportStage(i: nat, left: int)
      requires Valid() && i < State().fifo.ring.stages && left == State().left[i]
      modifies this`phase, fifo.stageProcessing, fifo.stalledTable
      ensures Valid() && State() == Reported(old(State()), i)
    {
      hide ByStage, BufferFifo.Valid, BufferManager.StallStage;
      if left == 0 {
        fifo.StallStage(i);
      }
      phase := phase[i := 2];
    }

    /** The call of processStage, if the pipeline has started the stage. */
    method CallBack(i: nat, started: bool, ghost before: Ring<seq<S>>)
      requires Valid() && before.Stage(i) && i < State().fifo.ring.stages
      requires var r := State().fifo.ring;
        && (started <==> |r.received[i]| > |before.received[i]|)
        && (started ==> r.received[i][|r.received[i]| - 1] == r.slots[Slot(r.read[i], r.depth)])
      modifies this`mmcReadLen, this`cryptTxLen, this`numAesSector, this`writeLen
      ensures Valid() && State() == Begun(old(State()), before, i)
    {
      hide ByStage, BufferFifo.State, BufferFifo.Valid, Processed, Begun, Slot;
      BegunIsProcessed(State(), before, i);
      if started {
        var _, readSize := fifo.ReadSlot(i);
        ProcessStage(i, readSize);
      }
    }

    method Advance(i: nat, len: int) returns (self: bool, other: bool)
      requires Valid() && i < State().fifo.ring.stages
      modifies this`phase, fifo, fifo.bufferSize, fifo.bufferData, fifo.stageProcessing, fifo.stageWriteIndex,
          fifo.stageReadIndex
      ensures Valid()
      ensures State() == old(State()).(fifo := Complete(old(State()).fifo, i, len, 0),
          phase := old(State()).phase[i := 0])
      ensures self <==> |State().fifo.ring.received[i]| > |old(State()).fifo.ring.received[i]|
      ensures var n := Next(State().fifo.ring.stages, i);
        other <==> |State().fifo.ring.received[n]| > |old(State()).fifo.ring.received[n]|
    {
      hide ByStage, BufferFifo.State, BufferFifo.Valid, Complete;
      self, other := fifo.ProcessingComplete(i, len, 0);
      phase := phase[i := 0];
    }

    /** bufferFIFO_processingComplete with the callbacks it makes. */
    method CompleteItem(i: nat, len: int)
      requires Valid() && i < State().fifo.ring.stages && len == State().len[i]
      modifies this`phase, this`mmcReadLen, this`cryptTxLen, this`numAesSector, this`writeLen
      modifies fifo, fifo.bufferSize, fifo.bufferData, fifo.stageProcessing, fifo.stageWriteIndex, fifo.stageReadIndex
      ensures Valid() && State() == FinishedItem(old(State()), i)
    {
      hide ByStage, BufferFifo.Valid, Complete, Begun, Slot, ScsiDriver.State;
      ghost var before := State().fifo;
      CompletionGives(before, i, len);
      var next := (i + 1) % fifo.numStages;
      StagesOf();
      var self, other := Advance(i, len);
      CallBack(i, self, before.ring);
      CallBack(next, other, before.ring);
    }

    // ----- the callbacks, with nothing else coming between their parts -----

    /** emmc_user_read_storage_rx_complete */
    method EmmcReadRxComplete()
      requires Valid() && job.read && CanCount(State(), 0)
      modifies this, fifo, fifo.bufferStorage, fifo.bufferSize, fifo.bufferData, fifo.stageProcessing,
          fifo.stalledTable, fifo.stageWriteIndex, fifo.stageReadIndex
      ensures Valid() && State() == FinishedItem(Reported(Counted(old(State()), 0), 0), 0)
    {
      EmmcWriteDmaComplete();
      EmmcWriteComplete();
    }

    /** emmc_user_write_storage_tx_dma_complete: the data is on its way and counted, but not yet reported. */
    method EmmcWriteDmaComplete()
      requires Valid() && CanCount(State(), job.MmcStage())
      modifies this`mmcDataToTransfer, this`mmcBlockAddr, this`phase, this`sink, fifo.bufferStorage
      ensures Valid() && State() == Counted(old(State()), job.MmcStage())
    {
      hide BufferFifo.Valid, Carried, Tallied, Counted, ScsiDriver.State;
      CountedInHalves(State(), job.MmcStage());
      LenOfMmc();
      CarryMmc();
      CountMmc();
    }

    /** emmc_user_write_storage_tx_complete */
    method EmmcWriteComplete()
      requires Valid()
      modifies this, fifo, fifo.bufferSize, fifo.bufferData, fifo.stageProcessing, fifo.stalledTable,
          fifo.stageWriteIndex, fifo.stageReadIndex
      ensures Valid() && job == old(job)
      ensures State() == FinishedItem(Reported(old(State()), job.MmcStage()), job.MmcStage())
    {
      hide BufferFifo.Valid, Reported, FinishedItem;
      ReportedKeeps(State(), job.MmcStage());
      ReportStage(job.MmcStage(), mmcDataToTransfer);
      CompleteItem(job.MmcStage(), mmcReadLen);
    }

    /** SCSI_ProcessRead and SCSI_ProcessWrite */
    method ScsiProcess()
      requires Valid() && CanCount(State(), job.UsbStage())
      modifies this, fifo, fifo.bufferStorage, fifo.bufferSize, fifo.bufferData, fifo.stageProcessing,
          fifo.stalledTable, fifo.stageWriteIndex, fifo.stageReadIndex
      ensures Valid() && job == old(job)
      ensures var i := job.UsbStage(); State() == FinishedItem(Reported(Counted(old(State()), i), i), i)
    {
      hide BufferFifo.Valid, Carried, Counted, Reported, FinishedItem;
      ghost var x := State();
      CountedInHalves(x, job.UsbStage());
      var len := Min(scsiBlkLen, writeLen);
      CarryUsb(len);
      CountUsb(len);
      ReportedKeeps(State(), job.UsbStage());
      ReportStage(job.UsbStage(), scsiBlkLen);
      CompleteItem(job.UsbStage(), len);
    }

    /** usbd_scsi_idle: one sector more, and the item is passed on with its last. */
    method UsbdScsiIdle()
      requires Valid() && CanCipher(State())
      requires CipherSector(State()).sectorsLeft == 0 ==> CanCount(CipherSector(State()), 1)
      modifies this, fifo, fifo.bufferStorage, fifo.bufferSize, fifo.bufferData, fifo.stageProcessing,
          fifo.stalledTable, fifo.stageWriteIndex, fifo.stageReadIndex
      ensures Valid()
      ensures var y := CipherSector(old(State()));
        State() == if y.sectorsLeft == 0 then FinishedItem(Reported(Counted(y, 1), 1), 1) else y
    {
      hide BufferFifo.Valid, CipherSector, Counted, Reported, FinishedItem;
      CryptSector();
      if numAesSector == 0 {
        CountedInPlace(State());
        CountCrypt();
        ReportedKeeps(State(), 1);
        ReportStage(1, cryptDataToTransfer);
        CompleteItem(1, cryptTxLen);
      }
    }

    // ----- a new request -----

    /** The set-up half of SCSI_Read10 and SCSI_Write10. The old item lengths stay in the variables of their
        stages, which may now be stages of another number. */
    method StartRequest(request: Job<S>)
      requires Valid()
      modifies this, fifo, fifo.bufferSize, fifo.stageProcessing, fifo.stalledTable, fifo.stageWriteIndex,
          fifo.stageReadIndex
      ensures Valid() && job == request
      ensures State() == StartTransfer(
        old(State()).(len := ByStage(request, old(writeLen), old(mmcReadLen), old(cryptTxLen), old(spareLen))), request)
    {
      hide ByStage, BufferManager.Start, Processed, Begun, Slot, BufferFifo.RingState;
      ghost var x := old(State()).(len := ByStage(request, old(writeLen), old(mmcReadLen), old(cryptTxLen),
          old(spareLen)));
      SetUp(request);
      ghost var before := fifo.State();
      fifo.Start(Min(scsiBlkLen, BUFFER_BYTES));
      StartGives(before, Min(scsiBlkLen, BUFFER_BYTES));
      CallBack(0, true, Reset(before.ring, Min(scsiBlkLen, BUFFER_BYTES)));
    }

    method SetUp(request: Job<S>)
      requires Valid()
      modifies this, fifo`numStages, fifo`stallIndex
      ensures Valid() && job == request && scsiBlkLen == request.blocks * SECTOR
      ensures fifo.State() == Fifo(old(State()).fifo.ring.(stages := request.Stages()), old(State()).fifo.active, 0,
          old(State()).fifo.finished)
      ensures var total := request.blocks * SECTOR;
        State() == Xfer(request, fifo.State(), seq(MAX_STAGES, _ => total),
          ByStage(request, old(writeLen), old(mmcReadLen), old(cryptTxLen), old(spareLen)),
          seq(MAX_STAGES, _ => request.addr), seq(MAX_STAGES, _ => 0), old(numAesSector), total, old(sink))
    {
      hide ByStage, BufferFifo.State, BufferFifo.RingState, BufferFifo.Valid;
      ValidParts();
      SetCounters(request);
      Restage(request.Stages());
    }

    /** The counters of all three kinds of stage start at the whole request. */
    method SetCounters(request: Job<S>)
      modifies this`job, this`scsiBlkLen, this`dataResidue, this`hostPos, this`mmcDataToTransfer, this`mmcBlockAddr,
        this`cryptDataToTransfer, this`curAesSector, this`spareLeft, this`sparePos, this`phase
      ensures var total := request.blocks * SECTOR;
        && job == request && scsiBlkLen == total && dataResidue == total
        && |spareLeft| == |sparePos| == MAX_STAGES && phase == seq(MAX_STAGES, _ => 0)
        && ByStage(job, scsiBlkLen, mmcDataToTransfer, cryptDataToTransfer, spareLeft) == seq(MAX_STAGES, _ => total)
        && ByStage(job, hostPos, mmcBlockAddr, curAesSector, sparePos) == seq(MAX_STAGES, _ => request.addr)
    {
      hide ByStage;
      var total := request.blocks * SECTOR;
      job := request;
      scsiBlkLen := total;
      dataResidue := total;
      hostPos := request.addr;
      mmcDataToTransfer := total;
      mmcBlockAddr := request.addr;
      if request.encrypted {
        cryptDataToTransfer := total;
        curAesSector := request.addr;
      }
      spareLeft := seq(MAX_STAGES, _ => total);
      sparePos := seq(MAX_STAGES, _ => request.addr);
      phase := seq(MAX_STAGES, _ => 0);
      AllStages(request, total, cryptDataToTransfer);
      AllStages(request, request.addr, curAesSector);
    }

    lemma ValidParts()
      requires Valid()
      ensures fifo.Valid() && fifo.State() == State().fifo && |spareLen| == MAX_STAGES
    {
    }

    method Restage(stages: nat)
      requires fifo.Valid() && 2 <= stages <= MAX_STAGES
      modifies fifo`numStages, fifo`stallIndex
      ensures fifo.Valid() && fifo.numStages == stages
      ensures fifo.State() == Fifo(old(fifo.State()).ring.(stages := stages), old(fifo.State()).active, 0,
          old(fifo.State()).finished)
    {
      fifo.numStages := stages;
      fifo.stallIndex := 0;
    }

    lemma LenOfMmc()
      requires Valid()
      ensures MovedLength(State(), job.MmcStage()) == mmcReadLen
    {
    }

    lemma StagesOf()
      requires Valid()
      ensures State().fifo.ring.stages == fifo.numStages
    {
    }
  }

  /** A stage that a completion starts is given the item in the slot it now reads. */
  lemma CompletionGives<T>(f: Fifo<T>, i: nat, len: int)
    requires f.Shape() && f.ring.Stage(i)
    ensures var t := Complete(f, i, len, 0).ring;
      && (|t.received[i]| > |f.ring.received[i]| ==>
          t.received[i][|t.received[i]| - 1] == t.slots[Slot(t.read[i], t.depth)])
      && var n := Next(t.stages, i);
         (|t.received[n]| > |f.ring.received[n]| ==>
             t.received[n][|t.received[n]| - 1] == t.slots[Slot(t.read[n], t.depth)])
  {
    hide Slot, Recorded, StageStalled, SkipStalled;
    assert i != Next(f.ring.stages, i);
  }

  lemma ReportedKeeps<S>(x: Xfer<S>, i: nat)
    requires x.Stage(i)
    ensures Reported(x, i).len == x.len && Reported(x, i).left == x.left
  {
  }

  /** The cipher stage carries nothing when it counts. */
  lemma CountedInPlace<S>(x: Xfer<S>)
    requires CanCount(x, 1) && x.job.encrypted
    ensures Counted(x, 1) == Tallied(x, 1, x.len[1])
  {
  }

  /** The first stage is given the first slot. */
  lemma StartGives<T>(f: Fifo<T>, size: int)
    requires f.Shape()
    ensures var r := BufferManager.Start(f, size).ring;
      var before := Reset(f.ring, size);
      && |r.received[0]| > |before.received[0]|
      && r.received[0][|r.received[0]| - 1] == r.slots[Slot(r.read[0], r.depth)]
  {
    hide Slot;
  }
}
