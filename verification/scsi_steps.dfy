/** Each callback of a mass-storage transfer keeps `TransferInv`. */
module ScsiSteps {
  import opened Arithmetic
  import opened BufferManager
  import opened BufferSafety
  import opened BufferProgress
  import opened ScsiTransfer
  import opened ScsiSafety

  lemma Parts<S>(x: Xfer<S>, sink0: map<nat, S>)
    requires TransferInv(x, sink0)
    ensures x.Shape() && x.job.Valid() && ProgressInv(x.fifo, Items(x.job.blocks)) && Inv(x.fifo.ring)
    ensures Flagged(x.fifo.ring) && Ordered(x.fifo.ring) && Logged(x.fifo.ring)
    ensures OnTime(x.fifo.ring, Items(x.job.blocks))
    ensures Counts(x) && SlotsRight(x) && LastUndisturbed(x.fifo.ring)
  {
  }

  /** What a stage with an item in hand knows about it. */
  lemma StageFacts<S>(x: Xfer<S>, sink0: map<nat, S>, i: nat)
    requires TransferInv(x, sink0) && x.Stage(i) && x.fifo.ring.flight[i]
    ensures CountsOf(x, i)
    ensures x.fifo.ring.done[i] < Items(x.job.blocks)
    ensures x.fifo.ring.busy[i] || x.fifo.ring.stalled[i]
    ensures i > 0 ==> x.fifo.ring.done[i] < x.fifo.ring.done[i - 1]
    ensures i > 0 ==> |x.fifo.ring.received[i]| > 0 && InHand(x, i) == ChunkItem(x.job, i - 1, x.fifo.ring.done[i])
    ensures 0 < i < x.fifo.ring.stages ==>
      x.fifo.ring.slots[Slot(x.fifo.ring.read[i], x.fifo.ring.depth)] == ChunkItem(x.job, i - 1, x.fifo.ring.done[i])
    ensures MovedLength(x, i) == x.len[i] || x.phase[i] > 0
    ensures x.len[i] == SECTOR * SectorsIn(x.job.blocks, x.fifo.ring.done[i])
    ensures x.len[i] / SECTOR == SectorsIn(x.job.blocks, x.fifo.ring.done[i]) >= 0
  {
    hide Slot, Stored, IndexesCount, Filling, Chunk, EndDetected, Eager;
    var r := x.fifo.ring;
    assert CountsOf(x, i);
    ItemsExhausted(x.job.blocks, r.done[i]);
    if i > 0 {
      assert Fed(r.stages, r.depth, r.done, i);
      assert r.received[i] <= r.produced[i - 1];
      var k := r.done[i];
      assert r.produced[i - 1][k] == ChunkItem(x.job, i - 1, k);
      if i < r.stages - 1 {
        MiddleStageReadsItsItem(r, i);
      }
    }
  }

  // ----- a sector through the cipher -----

  lemma CipherFits<S>(x: Xfer<S>, sink0: map<nat, S>)
    requires TransferInv(x, sink0) && IsCipher(x, 1) && Working(x, 1) && x.sectorsLeft > 0
    ensures CanCipher(x)
    ensures x.pos[1] == x.job.addr + Before(x.job.blocks, x.fifo.ring.done[1]) + Ciphered(x)
  {
    Parts(x, sink0);
    assert x.fifo.ring.flight[1] by { FlyingWhenBusy(x.fifo.ring, 1); }
    StageFacts(x, sink0, 1);
    assert FillingOf(x, 1);
    hide Slot, Inv, ProgressInv, Placed, Produced;
  }

  lemma CipherKeepsSlots<S>(x: Xfer<S>, sink0: map<nat, S>)
    requires TransferInv(x, sink0) && CanCipher(x)
    ensures SlotsRight(CipherSector(x))
  {
    var y := CipherSector(x);
    var r, s := x.fifo.ring, y.fifo.ring;
    Parts(x, sink0);
    FlyingWhenBusy(r, 1);
    StageFacts(x, sink0, 1);
    CipherFits(x, sink0);
    hide Slot, Inv, ProgressInv, Placed, Produced, Counts, StageCounts;
    TransferLeavesLast(r, 1, s.slots[Slot(r.write[1], r.depth)].data);
    assert FillingOf(x, 1);
    var chunk, j := Chunk(x.job, 1, r.done[1]), Ciphered(x);
    var data := s.slots[Slot(r.write[1], r.depth)].data;
    assert data[j] == chunk[j];
    assert data[..j + 1] == chunk[..j + 1];
    assert FillingOf(y, 1);
    if r.flight[0] {
      OtherSlotsUntouched(r, s.slots, 1, 0);
      assert FillingOf(x, 0);
    }
  }

  lemma CipherKeepsCounts<S>(x: Xfer<S>, sink0: map<nat, S>)
    requires TransferInv(x, sink0) && CanCipher(x)
    ensures Counts(CipherSector(x))
  {
    var y := CipherSector(x);
    Parts(x, sink0);
    FlyingWhenBusy(x.fifo.ring, 1);
    hide Slot, Inv, ProgressInv, Placed, Produced, SlotsRight;
    assert CountsOf(x, 1);
    assert CountsOf(y, 1);
    assert CountsOf(x, 0) && CountsOf(x, 2);
    assert CountsOf(y, 0) && CountsOf(y, 2);
  }

  lemma CipherKeeps<S>(x: Xfer<S>, sink0: map<nat, S>)
    requires TransferInv(x, sink0) && CanCipher(x)
    ensures TransferInv(CipherSector(x), sink0)
  {
    var y := CipherSector(x);
    var data := y.fifo.ring.slots[Slot(x.fifo.ring.write[1], x.fifo.ring.depth)].data;
    hide Slot, ProgressInv, Placed, Produced, SlotsRight, Counts;
    CipherKeepsCounts(x, sink0);
    CipherKeepsSlots(x, sink0);
    StepKeepsProgress(x.fifo, Moved(1, data), Items(x.job.blocks));
    assert y.fifo == Apply(x.fifo, Moved(1, data));
  }

  // ----- a stage counts its item -----

  /** The guards of a count hold whenever the stage has done its item. */
  lemma CountFits<S>(x: Xfer<S>, sink0: map<nat, S>, i: nat)
    requires TransferInv(x, sink0) && Working(x, i) && (IsCipher(x, i) ==> x.sectorsLeft == 0)
    ensures CanCount(x, i) && x.fifo.ring.flight[i]
    ensures MovedLength(x, i) == x.len[i]
    ensures !IsCipher(x, i) ==> x.pos[i] == x.job.addr + Before(x.job.blocks, x.fifo.ring.done[i])
  {
    Parts(x, sink0);
    FlyingWhenBusy(x.fifo.ring, i);
    StageFacts(x, sink0, i);
    hide Slot, Inv, ProgressInv, Placed, Produced, SlotsRight;
    ItemsExhausted(x.job.blocks, x.fifo.ring.done[i]);
  }

  lemma FetchedKeepsIndexes<S>(x: Xfer<S>, i: nat)
    requires CanCount(x, i)
    ensures var r := x.fifo.ring;
      Fetched(x, i).ring == r.(slots := Fetched(x, i).ring.slots)
    ensures i != 0 ==> Fetched(x, i) == x.fifo
    ensures forall k :: 0 <= k < MAX_BUFFERS && k != Slot(x.fifo.ring.write[0], x.fifo.ring.depth) ==>
              Fetched(x, i).ring.slots[k] == x.fifo.ring.slots[k]
  {
    hide Slot, MovedLength;
  }

  lemma CountsOfCounted<S>(x: Xfer<S>, i: nat)
    requires CanCount(x, i) && CountsOf(x, i) && x.fifo.ring.flight[i] && MovedLength(x, i) == x.len[i]
    requires IsCipher(x, i) ==> x.sectorsLeft == 0
    ensures CountsOf(Counted(x, i), i)
  {
    hide Slot, Fetched, Delivered, MovedLength;
    FetchedKeepsIndexes(x, i);
    ItemsExhausted(x.job.blocks, x.fifo.ring.done[i]);
  }

  lemma CountsOfOthers<S>(x: Xfer<S>, i: nat, j: nat)
    requires CanCount(x, i) && x.Stage(j) && i != j && CountsOf(x, j)
    ensures CountsOf(Counted(x, i), j)
  {
    hide Slot, Fetched, Delivered, MovedLength, StageCounts;
    FetchedKeepsIndexes(x, i);
  }

  lemma CountKeepsCounts<S>(x: Xfer<S>, sink0: map<nat, S>, i: nat)
    requires TransferInv(x, sink0) && CanCount(x, i)
    ensures Counts(Counted(x, i))
  {
    var y := Counted(x, i);
    hide TransferInv, StageCounts, Slot, Place, Fetch;
    Parts(x, sink0);
    CountFits(x, sink0, i);
    hide ProgressInv, Inv, FlagsAgree, CountsDescend, HandedOn, Paced, SlotsRight;
    CountsOfCounted(x, i);
    forall j: nat | j < y.fifo.ring.stages && j != i
      ensures CountsOf(y, j)
    {
      CountsOfOthers(x, i, j);
    }
  }

  lemma CountKeepsProgress<S>(x: Xfer<S>, sink0: map<nat, S>, i: nat)
    requires TransferInv(x, sink0) && CanCount(x, i)
    ensures ProgressInv(Counted(x, i).fifo, Items(x.job.blocks))
  {
    hide Slot, ProgressInv, Placed, Produced, SlotsRight, Counts, Place, Fetch;
    if i == 0 {
      var data := Fetch(x.job.source, x.pos[0], MovedLength(x, 0) / SECTOR);
      StepKeepsProgress(x.fifo, Moved(0, data), Items(x.job.blocks));
      assert Counted(x, i).fifo == Apply(x.fifo, Moved(0, data));
    }
  }

  lemma CountedFields<S>(x: Xfer<S>, i: nat)
    requires CanCount(x, i)
    ensures var y := Counted(x, i);
      && y.phase == x.phase[i := 1] && y.len == x.len[i := MovedLength(x, i)] && y.sectorsLeft == x.sectorsLeft
      && y.fifo == Fetched(x, i)
    ensures x.Stage(i) && x.phase[i] == 0 && (IsCipher(x, i) ==> x.sectorsLeft == 0)
  {
    hide Slot, Fetched, Delivered, MovedLength;
  }

  /** What the first stage fetches is what it owes. */
  lemma FetchedIsOwed<S>(x: Xfer<S>, sink0: map<nat, S>)
    requires TransferInv(x, sink0) && CanCount(x, 0)
    ensures Fetched(x, 0).ring == Transfer(x.fifo.ring, 0, Chunk(x.job, 0, x.fifo.ring.done[0]))
  {
    CountFits(x, sink0, 0);
    StageFacts(x, sink0, 0);
    hide Slot, TransferInv, MovedLength;
    assert Fetch(x.job.source, x.pos[0], x.len[0] / SECTOR) == Chunk(x.job, 0, x.fifo.ring.done[0]);
  }

  /** Filling a slot right is a matter of these values only. */
  lemma FillingSame<S>(x: Xfer<S>, y: Xfer<S>, j: nat)
    requires x.Stage(j) && y.Stage(j) && x.job == y.job && x.job.Valid() && FillingOf(x, j)
    requires x.fifo.ring.done[j] == y.fifo.ring.done[j] && x.fifo.ring.write[j] == y.fifo.ring.write[j]
    requires x.fifo.ring.depth == y.fifo.ring.depth
    requires x.fifo.ring.slots[Slot(x.fifo.ring.write[j], x.fifo.ring.depth)] ==
        y.fifo.ring.slots[Slot(x.fifo.ring.write[j], x.fifo.ring.depth)]
    requires x.phase[j] == y.phase[j] || (x.phase[j] >= 1 && y.phase[j] >= 1) ||
        (IsCipher(x, j) && x.sectorsLeft == 0 && x.phase[j] <= y.phase[j])
    requires IsCipher(x, j) ==> x.len[1] == y.len[1] && x.sectorsLeft == y.sectorsLeft
    ensures FillingOf(y, j)
  {
    hide Slot;
  }

  lemma FetchFillsSlot<S>(x: Xfer<S>, sink0: map<nat, S>)
    requires TransferInv(x, sink0) && CanCount(x, 0)
    ensures FillingOf(Counted(x, 0), 0)
  {
    PlacedSoFar(x, sink0);
    hide TransferInv, Slot, MovedLength, FillingOf, Counted, Placed;
    CountedFields(x, 0);
    FetchedIsOwed(x, sink0);
    hide Fetched, CanCount;
    FilledByTransfer(Counted(x, 0), x.fifo.ring);
  }

  lemma FetchedLeavesSlot<S>(x: Xfer<S>, i: nat, j: nat)
    requires CanCount(x, i) && Inv(x.fifo.ring) && x.Stage(j) && x.fifo.ring.flight[i] && x.fifo.ring.flight[j] &&
        (i == 0 ==> j != 0)
    ensures var w := Slot(x.fifo.ring.write[j], x.fifo.ring.depth);
      Fetched(x, i).ring.slots[w] == x.fifo.ring.slots[w]
  {
    hide Slot, MovedLength, Inv, Fetched;
    FetchedKeepsIndexes(x, i);
    if i == 0 {
      OtherSlotsUntouched(x.fifo.ring, Fetched(x, 0).ring.slots, 0, j);
    }
  }

  lemma CountLeavesSlot<S>(x: Xfer<S>, sink0: map<nat, S>, i: nat, j: nat)
    requires TransferInv(x, sink0) && CanCount(x, i) && j + 1 < x.fifo.ring.stages && x.fifo.ring.flight[j]
    requires x.fifo.ring.flight[i] && MovedLength(x, i) == x.len[i]
    requires i == 0 ==> j != 0
    ensures FillingOf(Counted(x, i), j)
  {
    hide TransferInv, Slot, MovedLength, FillingOf, Counted, Inv, CanCount, Fetched;
    FillingParts(x, sink0, j);
    FetchedKeepsIndexes(x, i);
    CountedFields(x, i);
    FetchedLeavesSlot(x, i, j);
    FillingSame(x, Counted(x, i), j);
  }

  lemma FillingParts<S>(x: Xfer<S>, sink0: map<nat, S>, j: nat)
    requires TransferInv(x, sink0) && j + 1 < x.fifo.ring.stages && x.fifo.ring.flight[j]
    ensures x.Stage(j) && x.job.Valid() && FillingOf(x, j) && Inv(x.fifo.ring)
  {
  }

  lemma CountFillsSlot<S>(x: Xfer<S>, sink0: map<nat, S>, i: nat, j: nat)
    requires TransferInv(x, sink0) && CanCount(x, i) && j + 1 < x.fifo.ring.stages && x.fifo.ring.flight[j]
    ensures x.job.Valid() && FillingOf(Counted(x, i), j)
  {
    hide Slot, MovedLength, FillingOf, Delivered, Fetched;
    CountFits(x, sink0, i);
    FillingParts(x, sink0, j);
    hide TransferInv;
    if i == 0 && j == 0 {
      FetchFillsSlot(x, sink0);
    } else {
      CountLeavesSlot(x, sink0, i, j);
    }
  }

  lemma FilledByTransfer<S>(y: Xfer<S>, r: Ring<seq<S>>)
    requires y.Shape() && y.job.Valid() && r.Stage(0) && y.phase[0] == 1
    requires y.fifo.ring == Transfer(r, 0, Chunk(y.job, 0, r.done[0]))
    ensures FillingOf(y, 0)
  {
    hide Slot;
  }

  lemma CountKeepsSlots<S>(x: Xfer<S>, sink0: map<nat, S>, i: nat)
    requires TransferInv(x, sink0) && CanCount(x, i)
    ensures SlotsRight(Counted(x, i))
  {
    var y := Counted(x, i);
    hide Slot, FillingOf, Fetched, Delivered, MovedLength, TransferInv, LastUndisturbed, ProgressInv;
    assert LastUndisturbed(y.fifo.ring) by {
      CountLeavesLast(x, sink0, i);
    }
    FetchedKeepsIndexes(x, i);
    hide CanCount;
    forall j: nat | j + 1 < y.fifo.ring.stages && y.fifo.ring.flight[j]
      ensures FillingOf(y, j)
    {
      CountFillsSlot(x, sink0, i, j);
    }
  }

  lemma CountLeavesLast<S>(x: Xfer<S>, sink0: map<nat, S>, i: nat)
    requires TransferInv(x, sink0) && CanCount(x, i)
    ensures LastUndisturbed(Counted(x, i).fifo.ring)
  {
    Parts(x, sink0);
    CountFits(x, sink0, i);
    hide Slot, TransferInv, Inv, SlotsRight, Counts, MovedLength, CanCount, Delivered, ProgressInv, LastUndisturbed;
    if i == 0 {
      TransferLeavesLast(x.fifo.ring, 0, Fetch(x.job.source, x.pos[0], MovedLength(x, 0) / SECTOR));
    }
  }

  /** What the last stage places is what is owed for the next block addresses. */
  lemma DeliveredIsOwed<S>(x: Xfer<S>, sink0: map<nat, S>, i: nat)
    requires TransferInv(x, sink0) && CanCount(x, i) && i == x.fifo.ring.stages - 1
    ensures x.pos[i] >= 0 && Delivered(x, i) == Place(x.sink, x.pos[i], Chunk(x.job, i - 1, x.fifo.ring.done[i]))
    ensures x.pos[i] == x.job.addr + Before(x.job.blocks, x.fifo.ring.done[i])
    ensures Counted(x, i).pos[i] == x.pos[i] + SectorsIn(x.job.blocks, x.fifo.ring.done[i])
  {
    CountFits(x, sink0, i);
    StageFacts(x, sink0, i);
    hide Slot, TransferInv, MovedLength, Place;
    var chunk := Chunk(x.job, i - 1, x.fifo.ring.done[i]);
    var data := x.fifo.ring.slots[Slot(x.fifo.ring.read[i], x.fifo.ring.depth)].data;
    assert data == chunk;
    assert data[..|chunk|] == chunk;
  }

  lemma PlacedSoFar<S>(x: Xfer<S>, sink0: map<nat, S>)
    requires TransferInv(x, sink0)
    ensures x.Shape() && x.job.Valid() && Placed(x.job, sink0, x.sink, x.pos[x.fifo.ring.stages - 1])
  {
  }

  lemma CountElsewhere<S>(x: Xfer<S>, i: nat)
    requires CanCount(x, i) && i != x.fifo.ring.stages - 1
    ensures Counted(x, i).sink == x.sink && Counted(x, i).pos[x.fifo.ring.stages - 1] == x.pos[x.fifo.ring.stages - 1]
  {
    hide Slot, Fetched, MovedLength;
  }

  lemma CountKeepsPlaced<S>(x: Xfer<S>, sink0: map<nat, S>, i: nat)
    requires TransferInv(x, sink0) && CanCount(x, i)
    ensures Placed(x.job, sink0, Counted(x, i).sink, Counted(x, i).pos[x.fifo.ring.stages - 1])
  {
    hide TransferInv, Slot, Fetched, MovedLength, Placed, CanCount, Place, Delivered, Before, Owed;
    PlacedSoFar(x, sink0);
    if i == x.fifo.ring.stages - 1 {
      DeliveredIsOwed(x, sink0, i);
      ItemsExhausted(x.job.blocks, x.fifo.ring.done[i]);
      var chunk := Chunk(x.job, i - 1, x.fifo.ring.done[i]);
      LastChunkOwed(x.job, i - 1, x.fifo.ring.done[i], x.pos[i], chunk);
      PlaceOwed(x.job, sink0, x.sink, x.pos[i], chunk);
    } else {
      CountElsewhere(x, i);
    }
  }

  lemma LastChunkOwed<S>(job: Job<S>, i: nat, k: nat, at: nat, chunk: seq<S>)
    requires job.Valid() && chunk == Chunk(job, i, k) && i == job.Stages() - 2 && at == job.addr + Before(job.blocks, k)
    ensures forall j :: 0 <= j < |chunk| ==> at + j in job.source && chunk[j] == Owed(job, 2, at + j)
  {
  }

  lemma PlaceOwed<S>(job: Job<S>, sink0: map<nat, S>, sink: map<nat, S>, upto: nat, chunk: seq<S>)
    requires job.Valid() && Placed(job, sink0, sink, upto) && upto + |chunk| <= job.addr + job.blocks
    requires forall j :: 0 <= j < |chunk| ==> upto + j in job.source && chunk[j] == Owed(job, 2, upto + j)
    ensures Placed(job, sink0, Place(sink, upto, chunk), upto + |chunk|)
  {
    var t := Place(sink, upto, chunk);
    forall lba: nat | lba in t && job.addr <= lba < upto + |chunk|
      ensures t[lba] == Owed(job, 2, lba)
    {
      if lba >= upto {
        assert chunk[lba - upto] == Owed(job, 2, upto + (lba - upto));
      }
    }
  }

  lemma CountKeeps<S>(x: Xfer<S>, sink0: map<nat, S>, i: nat)
    requires TransferInv(x, sink0) && CanCount(x, i)
    ensures TransferInv(Counted(x, i), sink0)
  {
    hide Slot, ProgressInv, Placed, Produced, SlotsRight, Counts, Place, Fetch, MovedLength;
    CountKeepsCounts(x, sink0, i);
    CountKeepsProgress(x, sink0, i);
    CountKeepsSlots(x, sink0, i);
    CountKeepsPlaced(x, sink0, i);
  }

  // ----- a stage reports its end -----

  lemma ReportKeeps<S>(x: Xfer<S>, sink0: map<nat, S>, i: nat)
    requires TransferInv(x, sink0) && x.Stage(i) && x.phase[i] == 1
    ensures TransferInv(Reported(x, i), sink0)
  {
    ReportKeepsCounts(x, sink0, i);
    ReportKeepsSlots(x, sink0, i);
    hide Slot, ProgressInv, Placed, Produced, SlotsRight, Counts;
    ReportKeepsProgress(x, sink0, i);
  }

  lemma ReportFacts<S>(x: Xfer<S>, sink0: map<nat, S>, i: nat)
    requires TransferInv(x, sink0) && x.Stage(i) && x.phase[i] == 1
    ensures x.fifo.ring.flight[i] && x.fifo.ring.busy[i]
    ensures x.left[i] == 0 <==> x.fifo.ring.done[i] + 1 == Items(x.job.blocks)
  {
    Parts(x, sink0);
    assert CountsOf(x, i);
    StageFacts(x, sink0, i);
    ItemsExhausted(x.job.blocks, x.fifo.ring.done[i] + 1);
  }

  lemma ReportKeepsProgress<S>(x: Xfer<S>, sink0: map<nat, S>, i: nat)
    requires TransferInv(x, sink0) && x.Stage(i) && x.phase[i] == 1
    ensures ProgressInv(Reported(x, i).fifo, Items(x.job.blocks))
  {
    ReportFacts(x, sink0, i);
    hide Slot, ProgressInv, Placed, Produced, SlotsRight, Counts, StallStage;
    if x.left[i] == 0 {
      StepKeepsProgress(x.fifo, Stalled(i), Items(x.job.blocks));
      assert Reported(x, i).fifo == Apply(x.fifo, Stalled(i));
    }
  }

  lemma CountsOfReported<S>(x: Xfer<S>, i: nat, j: nat)
    requires x.Stage(i) && x.Stage(j) && CountsOf(x, j) && (i == j ==> x.phase[i] == 1 && x.fifo.ring.flight[i])
    requires i == j ==> (x.left[i] == 0 <==> x.fifo.ring.done[i] + 1 == Items(x.job.blocks))
    ensures CountsOf(Reported(x, i), j)
  {
    hide Slot;
    if i != j {
      hide StageCounts;
    }
  }

  lemma ReportKeepsCounts<S>(x: Xfer<S>, sink0: map<nat, S>, i: nat)
    requires TransferInv(x, sink0) && x.Stage(i) && x.phase[i] == 1
    ensures Counts(Reported(x, i))
  {
    ReportFacts(x, sink0, i);
    hide Slot, ProgressInv, Placed, Produced, SlotsRight, StageCounts;
    var y := Reported(x, i);
    forall j: nat | j < y.fifo.ring.stages
      ensures CountsOf(y, j)
    {
      assert CountsOf(x, j);
      CountsOfReported(x, i, j);
    }
  }

  lemma ReportKeepsFilling<S>(x: Xfer<S>, sink0: map<nat, S>, i: nat, j: nat)
    requires TransferInv(x, sink0) && x.Stage(i) && x.phase[i] == 1 && x.Stage(j) && j + 1 < x.fifo.ring.stages
    requires x.fifo.ring.flight[j]
    ensures FillingOf(Reported(x, i), j)
  {
    hide TransferInv;
    Parts(x, sink0);
    hide Slot, Inv, ProgressInv, Counts, Chunk, Filling;
    assert FillingOf(x, j);
  }

  lemma ReportKeepsSlots<S>(x: Xfer<S>, sink0: map<nat, S>, i: nat)
    requires TransferInv(x, sink0) && x.Stage(i) && x.phase[i] == 1
    ensures SlotsRight(Reported(x, i))
  {
    var y := Reported(x, i);
    Parts(x, sink0);
    hide TransferInv, Slot, Inv, ProgressInv, Placed, Produced, Counts, FillingOf;
    forall j: nat | j + 1 < y.fifo.ring.stages && y.fifo.ring.flight[j]
      ensures FillingOf(y, j)
    {
      ReportKeepsFilling(x, sink0, i, j);
    }
  }

  // ----- a stage completes its item -----

  lemma DoneFacts<S>(x: Xfer<S>, sink0: map<nat, S>, i: nat)
    requires TransferInv(x, sink0) && x.Stage(i) && x.phase[i] == 2
    ensures x.fifo.ring.flight[i] && Disciplined(x.fifo.ring, Completed(i, x.len[i], 0), Items(x.job.blocks))
    ensures i + 1 < x.fifo.ring.stages ==>
      Item(x.fifo.ring.slots[Slot(x.fifo.ring.write[i], x.fifo.ring.depth)].data, x.len[i], 0) ==
          ChunkItem(x.job, i, x.fifo.ring.done[i])
    ensures x.len[i] >= 0
  {
    Parts(x, sink0);
    assert CountsOf(x, i);
    StageFacts(x, sink0, i);
    hide Slot, Inv, ProgressInv, Placed, Produced;
    if i + 1 < x.fifo.ring.stages {
      assert FillingOf(x, i);
    }
  }

  /** Completing stage i starts stage j on a new item. */
  predicate Starts<T>(r: Ring<T>, i: nat, len: int, j: nat)
    requires r.Stage(i) && r.Stage(j)
  {
    |Finish(r, i, len, 0).received[j]| > |r.received[j]|
  }

  /** What completing stage i does to the history of every stage. */
  lemma FinishHistory<T>(r: Ring<T>, i: nat, len: int, j: nat)
    requires r.Stage(i) && r.Stage(j)
    ensures var t := Finish(r, i, len, 0);
      var item := Recorded(r.slots[Slot(r.write[i], r.depth)], len, 0);
      && t.done == r.done[i := r.done[i] + 1]
      && t.stalled == r.stalled
      && t.produced == r.produced[i := r.produced[i] + [item]]
      && t.slots == r.slots[Slot(r.write[i], r.depth) := item]
      && t.write == r.write[i := r.write[i] + 1]
  {
    hide Slot, Recorded, Next;
  }

  lemma StartsHistory<T>(r: Ring<T>, i: nat, len: int, j: nat)
    requires r.Stage(i) && r.Stage(j)
    ensures var t := Finish(r, i, len, 0);
      if Starts(r, i, len, j) then t.flight[j] && !t.stalled[j] && (j == i || j == Next(r.stages, i))
      else |t.received[j]| == |r.received[j]| && t.flight[j] == (r.flight[j] && i != j)
  {
    hide Slot, Recorded, Next;
  }

  lemma ProducedGrows<S>(job: Job<S>, n: nat, done: seq<nat>, produced: seq<seq<Item<seq<S>>>>, i: nat,
      item: Item<seq<S>>)
    requires Produced(job, n, done, produced) && i < n && |produced[i]| == done[i]
    requires i + 1 < n ==> item == ChunkItem(job, i, done[i])
    ensures Produced(job, n, done[i := done[i] + 1], produced[i := produced[i] + [item]])
  {
    hide ChunkItem;
  }

  lemma FinishedProduced<S>(x: Xfer<S>, sink0: map<nat, S>, i: nat)
    requires TransferInv(x, sink0) && x.Stage(i) && x.phase[i] == 2
    ensures x.job.Valid()
    ensures var t := Finish(x.fifo.ring, i, x.len[i], 0); Produced(x.job, t.stages, t.done, t.produced)
  {
    hide TransferInv, Slot, Finish, ChunkItem, Disciplined, Produced;
    DoneFacts(x, sink0, i);
    ProducedSoFar(x, sink0, i);
    FinishHistory(x.fifo.ring, i, x.len[i], i);
    var item := Recorded(x.fifo.ring.slots[Slot(x.fifo.ring.write[i], x.fifo.ring.depth)], x.len[i], 0);
    ProducedGrows(x.job, x.fifo.ring.stages, x.fifo.ring.done, x.fifo.ring.produced, i, item);
  }

  lemma ProducedSoFar<S>(x: Xfer<S>, sink0: map<nat, S>, i: nat)
    requires TransferInv(x, sink0) && x.Stage(i)
    ensures x.job.Valid() && Produced(x.job, x.fifo.ring.stages, x.fifo.ring.done, x.fifo.ring.produced)
    ensures |x.fifo.ring.produced[i]| == x.fifo.ring.done[i]
  {
  }

  lemma BegunNumbers<S>(x: Xfer<S>, before: Ring<seq<S>>, i: nat, j: nat)
    requires x.Stage(i) && before.Stage(i) && x.Stage(j)
    ensures var y := Begun(x, before, i);
      && y.fifo == x.fifo && y.left == x.left && y.pos == x.pos && y.phase == x.phase && y.residue == x.residue &&
          y.sink == x.sink
    ensures var y := Begun(x, before, i);
      if j == i && |x.fifo.ring.received[i]| > |before.received[i]| then
        && y.len[j] == (if j == 0 then Min(x.left[0], BUFFER_BYTES) else InHand(y, j).size)
        && (IsCipher(x, j) ==> y.sectorsLeft == y.len[j] / SECTOR)
      else y.len[j] == x.len[j] && (IsCipher(x, j) ==> y.sectorsLeft == x.sectorsLeft)
  {
    hide Min;
  }

  /** The numbers of stage j after a completion. */
  lemma FinishedNumbers<S>(x: Xfer<S>, i: nat, j: nat)
    requires x.Stage(i) && x.Stage(j)
    ensures var y := FinishedItem(x, i);
      && y.fifo == Complete(x.fifo, i, x.len[i], 0)
      && y.left == x.left && y.pos == x.pos && y.phase == x.phase[i := 0] && y.residue == x.residue && y.sink == x.sink
    ensures var y := FinishedItem(x, i);
      if Starts(x.fifo.ring, i, x.len[i], j) then
        && y.len[j] == (if j == 0 then Min(x.left[0], BUFFER_BYTES) else InHand(y, j).size)
        && (IsCipher(x, j) ==> y.sectorsLeft == y.len[j] / SECTOR)
      else y.len[j] == x.len[j] && (IsCipher(x, j) ==> y.sectorsLeft == x.sectorsLeft)
  {
    var r := x.fifo.ring;
    StartsHistory(r, i, x.len[i], j);
    hide Complete, Min, Finish, Next, Begun;
    var y := x.(fifo := Complete(x.fifo, i, x.len[i], 0), phase := x.phase[i := 0]);
    BegunNumbers(y, r, i, j);
    BegunNumbers(Begun(y, r, i), r, Next(r.stages, i), j);
  }

  /** One stage's counters across a completion: `mine` if it is the stage completing, `starts` if it gets
      a new item. */
  lemma CountsAcross(blocks: nat, addr: nat, done: nat, flight: bool, stalled: bool, left: int, len: int,
      pos: int, phase: nat,
      ahead: int, mine: bool, starts: bool, len': int, ahead': int)
    requires StageCounts(blocks, addr, done, flight, stalled, left, len, pos, phase, ahead)
    requires mine ==> phase == 2 && flight
    requires starts ==> !stalled && (mine || !flight) && ahead' == 0
    requires starts ==> len' == SECTOR * SectorsIn(blocks, if mine then done + 1 else done)
    requires !starts ==> len' == len && ahead' == ahead
    ensures StageCounts(blocks, addr, if mine then done + 1 else done, starts || (flight && !mine), stalled, left,
                        len', pos, if mine then 0 else phase, ahead')
  {
  }

  /** The counters of stage j after a completion, one by one. */
  lemma FinishedView<S>(x: Xfer<S>, i: nat, j: nat)
    requires x.Stage(i) && x.Stage(j)
    ensures var r, y := x.fifo.ring, FinishedItem(x, i);
      var starts := Starts(r, i, x.len[i], j);
      && y.fifo.ring.done[j] == (if i == j then r.done[j] + 1 else r.done[j])
      && y.fifo.ring.flight[j] == (starts || (r.flight[j] && i != j))
      && y.fifo.ring.stalled[j] == r.stalled[j]
      && y.left[j] == x.left[j] && y.pos[j] == x.pos[j] && y.phase[j] == (if i == j then 0 else x.phase[j])
      && (starts ==> !r.stalled[j])
      && (starts && IsCipher(x, j) ==> y.sectorsLeft == y.len[j] / SECTOR)
      && (!starts ==> y.len[j] == x.len[j] && (IsCipher(x, j) ==> y.sectorsLeft == x.sectorsLeft))
  {
    hide Finish, FinishedItem, Starts, Complete;
    FinishHistory(x.fifo.ring, i, x.len[i], j);
    StartsHistory(x.fifo.ring, i, x.len[i], j);
    FinishedNumbers(x, i, j);
  }

  lemma FinishedAhead<S>(x: Xfer<S>, i: nat, j: nat)
    requires x.Stage(i) && x.Stage(j)
    ensures Ahead(FinishedItem(x, i), j) == if Starts(x.fifo.ring, i, x.len[i], j) then 0 else Ahead(x, j)
  {
    hide Finish, FinishedItem, Starts;
    FinishedView(x, i, j);
  }

  /** A stage keeps its numbers across a completion, or starts its next item with the right ones. */
  lemma FinishedCountsOf<S>(x: Xfer<S>, sink0: map<nat, S>, i: nat, j: nat)
    requires TransferInv(x, sink0) && x.Stage(i) && x.Stage(j) && x.phase[i] == 2
    ensures CountsOf(FinishedItem(x, i), j)
  {
    hide TransferInv, Slot, Finish, FinishedItem, Starts, StageCounts, SectorsIn, SectorsLeftOf, Ahead, IsCipher;
    var y := FinishedItem(x, i);
    var r := x.fifo.ring;
    var starts := Starts(r, i, x.len[i], j);
    CountsSoFar(x, sink0, j);
    FinishedView(x, i, j);
    FinishedAhead(x, i, j);
    if starts {
      StartedLength(x, sink0, i, j);
    }
    if i == j {
      StageBounds(x, sink0, i);
      CountsAcross(x.job.blocks, x.job.addr, r.done[j], r.flight[j], r.stalled[j], x.left[j], x.len[j], x.pos[j],
                   x.phase[j], Ahead(x, j), true, starts, y.len[j], Ahead(y, j));
    } else {
      CountsAcross(x.job.blocks, x.job.addr, r.done[j], r.flight[j], r.stalled[j], x.left[j], x.len[j], x.pos[j],
                   x.phase[j], Ahead(x, j), false, starts, y.len[j], Ahead(y, j));
    }
  }

  ghost predicate SectorsLeftOf<S>(x: Xfer<S>, j: nat)
    requires x.Stage(j)
  {
    IsCipher(x, j) && x.fifo.ring.flight[j] ==>
      0 <= x.sectorsLeft <= SectorsIn(x.job.blocks, x.fifo.ring.done[j]) && (x.phase[j] > 0 ==> x.sectorsLeft == 0)
  }

  lemma FinishedSectorsLeft<S>(x: Xfer<S>, sink0: map<nat, S>, i: nat, j: nat)
    requires TransferInv(x, sink0) && x.Stage(i) && x.Stage(j) && x.phase[i] == 2
    ensures SectorsLeftOf(FinishedItem(x, i), j)
  {
    hide TransferInv, Slot, Finish, FinishedItem, Starts, StageCounts, SectorsIn;
    CountsSoFar(x, sink0, j);
    StageBounds(x, sink0, j);
    FinishedView(x, i, j);
    if Starts(x.fifo.ring, i, x.len[i], j) {
      StartedLength(x, sink0, i, j);
      ItemsExhausted(x.job.blocks, FinishedItem(x, i).fifo.ring.done[j]);
    }
  }

  lemma StageBounds<S>(x: Xfer<S>, sink0: map<nat, S>, j: nat)
    requires TransferInv(x, sink0) && x.Stage(j)
    ensures x.phase[j] > 0 ==> x.fifo.ring.flight[j]
  {
    CountsSoFar(x, sink0, j);
  }

  lemma RingParts<S>(x: Xfer<S>, sink0: map<nat, S>)
    requires TransferInv(x, sink0)
    ensures Inv(x.fifo.ring) && Flagged(x.fifo.ring) && x.job.Valid()
  {
  }

  lemma CountsSoFar<S>(x: Xfer<S>, sink0: map<nat, S>, j: nat)
    requires TransferInv(x, sink0) && x.Stage(j)
    ensures CountsOf(x, j) && SectorsLeftOf(x, j)
    ensures x.residue == x.left[x.job.UsbStage()]
  {
  }

  /** A stage that is started gets the right length for its item, whichever rule fixes it. */
  lemma StartedLength<S>(x: Xfer<S>, sink0: map<nat, S>, i: nat, j: nat)
    requires TransferInv(x, sink0) && x.Stage(i) && x.Stage(j) && x.phase[i] == 2 && Starts(x.fifo.ring, i, x.len[i], j)
    ensures FinishedItem(x, i).len[j] == SECTOR * SectorsIn(x.job.blocks, FinishedItem(x, i).fifo.ring.done[j])
    ensures i != j ==> !x.fifo.ring.flight[j]
  {
    var r := x.fifo.ring;
    hide TransferInv, Slot, FinishedItem, Finish, Inv, SectorsIn, Starts, FlagsAgree;
    RingParts(x, sink0);
    if i != j {
      StartsOnlyIdle(r, i, x.len[i], j);
    }
    FinishedNumbers(x, i, j);
    if j == 0 {
      FirstStageLength(x, sink0, i);
      FinishHistory(r, i, x.len[i], j);
    } else {
      LaterStageLength(x, sink0, i, j);
    }
  }

  /** The other stages go by the size of the item handed on to them. */
  lemma LaterStageLength<S>(x: Xfer<S>, sink0: map<nat, S>, i: nat, j: nat)
    requires TransferInv(x, sink0) && x.Stage(i) && x.Stage(j) && x.phase[i] == 2
    requires Starts(x.fifo.ring, i, x.len[i], j) && j > 0
    ensures var t := Finish(x.fifo.ring, i, x.len[i], 0);
      |t.received[j]| > 0 && t.received[j][|t.received[j]| - 1].size == SECTOR * SectorsIn(x.job.blocks, t.done[j])
  {
    var r := x.fifo.ring;
    var t := Finish(r, i, x.len[i], 0);
    hide TransferInv, Slot, Disciplined, Produced, Chunk, Finish, Inv, SectorsIn, Starts, FlagsAgree;
    RingParts(x, sink0);
    StageBounds(x, sink0, i);
    FinishKeepsInv(r, i, x.len[i], 0);
    StartsHistory(r, i, x.len[i], j);
    FinishedProduced(x, sink0, i);
    StartedItem(t, j);
    StartedSize(x.job, t, j);
  }

  lemma StartsOnlyIdle<T>(r: Ring<T>, i: nat, len: int, j: nat)
    requires r.Stage(i) && r.Stage(j) && Flagged(r) && i != j && Starts(r, i, len, j)
    ensures !r.flight[j]
  {
    hide Slot, Recorded, Next;
  }

  lemma StartedSize<S>(job: Job<S>, t: Ring<seq<S>>, j: nat)
    requires t.Shape() && Produced(job, t.stages, t.done, t.produced) && 0 < j < t.stages && t.done[j] < t.done[j - 1]
    requires |t.received[j]| == t.done[j] + 1 && t.done[j] < |t.produced[j - 1]|
    requires t.received[j][t.done[j]] == t.produced[j - 1][t.done[j]]
    ensures t.received[j][|t.received[j]| - 1].size == SECTOR * SectorsIn(job.blocks, t.done[j])
  {
    var k := t.done[j];
    assert t.produced[j - 1][k] == ChunkItem(job, j - 1, k);
  }

  /** The first stage cuts its items off its own counter. */
  lemma FirstStageLength<S>(x: Xfer<S>, sink0: map<nat, S>, i: nat)
    requires TransferInv(x, sink0) && x.Stage(i) && x.phase[i] == 2 && (i == 0 || !x.fifo.ring.flight[0])
    ensures var k := if i == 0 then x.fifo.ring.done[0] + 1 else x.fifo.ring.done[0];
      Min(x.left[0], BUFFER_BYTES) == SECTOR * SectorsIn(x.job.blocks, k)
  {
    CountsSoFar(x, sink0, 0);
    hide TransferInv, Slot;
    ItemsExhausted(x.job.blocks, x.fifo.ring.done[0]);
    ItemsExhausted(x.job.blocks, x.fifo.ring.done[0] + 1);
  }

  /** The item a stage in flight holds is the one the stage before it produced. */
  lemma StartedItem<T>(r: Ring<T>, j: nat)
    requires Inv(r) && r.Stage(j) && r.flight[j] && j > 0
    ensures |r.received[j]| == r.done[j] + 1 && r.done[j] < |r.produced[j - 1]|
    ensures r.done[j] < r.done[j - 1] && r.received[j][r.done[j]] == r.produced[j - 1][r.done[j]]
  {
    assert Fed(r.stages, r.depth, r.done, j);
    assert r.received[j] <= r.produced[j - 1];
  }

  lemma DoneKeepsCounts<S>(x: Xfer<S>, sink0: map<nat, S>, i: nat)
    requires TransferInv(x, sink0) && x.Stage(i) && x.phase[i] == 2
    ensures Counts(FinishedItem(x, i))
  {
    var y := FinishedItem(x, i);
    hide TransferInv, FinishedItem, StageCounts, Starts, Finish, CountsOf;
    forall j: nat | j < y.fifo.ring.stages
      ensures CountsOf(y, j)
    {
      FinishedCountsOf(x, sink0, i, j);
    }
    FinishedSectorsLeft(x, sink0, i, 1);
    CountsSoFar(x, sink0, i);
    JobShape(x, sink0);
    FinishedView(x, i, x.job.UsbStage());
    FinishedNumbers(x, i, i);
  }

  lemma JobShape<S>(x: Xfer<S>, sink0: map<nat, S>)
    requires TransferInv(x, sink0)
    ensures x.Shape() && x.job.Valid()
  {
  }

  /** A stage just started has not touched its slot; there is something for it to do. */
  lemma StartedFilling<S>(x: Xfer<S>, sink0: map<nat, S>, i: nat, j: nat)
    requires TransferInv(x, sink0) && x.Stage(i) && x.phase[i] == 2 && j + 1 < x.fifo.ring.stages
    requires Starts(x.fifo.ring, i, x.len[i], j)
    requires FinishedItem(x, i).fifo.ring.done[j] < Items(x.job.blocks) && FinishedItem(x, i).phase[j] == 0
    ensures x.job.Valid() && FillingOf(FinishedItem(x, i), j)
  {
    var y := FinishedItem(x, i);
    hide TransferInv, FinishedItem, Starts, Finish, Slot;
    JobShape(x, sink0);
    if IsCipher(x, j) {
      StartedCipherWaits(x, sink0, i);
    }
    hide FillingOf, Ciphered;
    UntouchedFilling(y, j);
  }

  lemma UntouchedFilling<S>(y: Xfer<S>, j: nat)
    requires y.Stage(j) && y.job.Valid() && y.phase[j] == 0
    requires IsCipher(y, j) ==> Ciphered(y) == 0 && y.sectorsLeft > 0
    ensures FillingOf(y, j)
  {
    hide Slot, SectorsIn, Before, Owed;
  }

  lemma StartedCipherWaits<S>(x: Xfer<S>, sink0: map<nat, S>, i: nat)
    requires TransferInv(x, sink0) && x.Stage(i) && x.phase[i] == 2 && IsCipher(x, 1) && x.Stage(1)
    requires Starts(x.fifo.ring, i, x.len[i], 1) && FinishedItem(x, i).fifo.ring.done[1] < Items(x.job.blocks)
    ensures Ciphered(FinishedItem(x, i)) == 0 && FinishedItem(x, i).sectorsLeft > 0
  {
    hide TransferInv, FinishedItem, Starts, Finish, Slot;
    FinishedView(x, i, 1);
    FinishedAhead(x, i, 1);
    StartedLength(x, sink0, i, 1);
    ItemsExhausted(x.job.blocks, FinishedItem(x, i).fifo.ring.done[1]);
  }

  /** Completing stage i leaves the slot of every other stage in flight alone. */
  lemma FinishLeavesSlot<T>(r: Ring<T>, i: nat, len: int, j: nat)
    requires Inv(r) && r.Stage(i) && r.Stage(j) && i != j && r.flight[i] && r.flight[j]
    ensures var t := Finish(r, i, len, 0);
      t.done[j] == r.done[j] && t.write[j] == r.write[j] &&
          t.slots[Slot(r.write[j], r.depth)] == r.slots[Slot(r.write[j], r.depth)]
  {
    hide Inv, Slot, Finish, Recorded;
    FinishHistory(r, i, len, j);
    OtherSlotsUntouched(r, Finish(r, i, len, 0).slots, i, j);
  }

  lemma DoneLeavesSlot<S>(x: Xfer<S>, sink0: map<nat, S>, i: nat, j: nat)
    requires TransferInv(x, sink0) && x.Stage(i) && x.phase[i] == 2 && j + 1 < x.fifo.ring.stages && i != j
    requires !Starts(x.fifo.ring, i, x.len[i], j) && x.fifo.ring.flight[j]
    ensures x.job.Valid() && FillingOf(FinishedItem(x, i), j)
  {
    hide TransferInv, FinishedItem, Starts, Finish, Slot, Inv, FillingOf, Complete;
    FillingParts(x, sink0, j);
    StageBounds(x, sink0, i);
    FinishLeavesSlot(x.fifo.ring, i, x.len[i], j);
    FinishedNumbers(x, i, j);
    FillingSame(x, FinishedItem(x, i), j);
  }

  lemma DoneKeepsProgress<S>(x: Xfer<S>, sink0: map<nat, S>, i: nat)
    requires TransferInv(x, sink0) && x.Stage(i) && x.phase[i] == 2
    ensures ProgressInv(FinishedItem(x, i).fifo, Items(x.job.blocks))
  {
    DoneFacts(x, sink0, i);
    FinishedNumbers(x, i, i);
    hide Slot, ProgressInv, Placed, Produced, SlotsRight, Counts, Finish, CheckFinished, FinishedItem, Disciplined;
    hide Starts;
    StepKeepsProgress(x.fifo, Completed(i, x.len[i], 0), Items(x.job.blocks));
  }

  lemma InFlightHasItem<S>(f: Fifo<S>, total: nat, j: nat)
    requires ProgressInv(f, total) && f.ring.Stage(j) && f.ring.flight[j]
    ensures f.ring.done[j] < total
  {
  }

  lemma DoneKeepsSlots<S>(x: Xfer<S>, sink0: map<nat, S>, i: nat)
    requires TransferInv(x, sink0) && x.Stage(i) && x.phase[i] == 2
    ensures x.job.Valid() && SlotsRight(FinishedItem(x, i))
  {
    var y := FinishedItem(x, i);
    JobShape(x, sink0);
    assert LastUndisturbed(y.fifo.ring) by { DoneLeavesLast(x, sink0, i); }
    hide TransferInv, FinishedItem, Starts, Finish, Slot, FillingOf, LastUndisturbed, ProgressInv;
    DoneKeepsProgress(x, sink0, i);
    FinishedNumbers(x, i, i);
    forall j: nat | j + 1 < y.fifo.ring.stages && y.fifo.ring.flight[j]
      ensures FillingOf(y, j)
    {
      FinishedView(x, i, j);
      if Starts(x.fifo.ring, i, x.len[i], j) {
        InFlightHasItem(y.fifo, Items(x.job.blocks), j);
        StartedIsWorking(x, sink0, i, j);
        StartedFilling(x, sink0, i, j);
      } else {
        DoneLeavesSlot(x, sink0, i, j);
      }
    }
  }

  lemma StartedIsWorking<S>(x: Xfer<S>, sink0: map<nat, S>, i: nat, j: nat)
    requires TransferInv(x, sink0) && x.Stage(i) && x.Stage(j) && x.phase[i] == 2 && Starts(x.fifo.ring, i, x.len[i], j)
    ensures FinishedItem(x, i).phase[j] == 0
  {
    hide TransferInv, FinishedItem, Starts, Finish, Slot;
    StartedLength(x, sink0, i, j);
    StageBounds(x, sink0, j);
    FinishedView(x, i, j);
  }

  lemma DoneLeavesLast<S>(x: Xfer<S>, sink0: map<nat, S>, i: nat)
    requires TransferInv(x, sink0) && x.Stage(i) && x.phase[i] == 2
    ensures LastUndisturbed(FinishedItem(x, i).fifo.ring)
  {
    assert LastUndisturbed(x.fifo.ring) by { Parts(x, sink0); }
    hide TransferInv, FinishedItem, Starts, Finish, Slot, Inv, LastUndisturbed;
    RingParts(x, sink0);
    StageBounds(x, sink0, i);
    FinishLeavesLast(x.fifo.ring, i, x.len[i], 0);
    FinishedNumbers(x, i, i);
  }

  lemma DoneKeeps<S>(x: Xfer<S>, sink0: map<nat, S>, i: nat)
    requires TransferInv(x, sink0) && x.Stage(i) && x.phase[i] == 2
    ensures TransferInv(FinishedItem(x, i), sink0)
  {
    hide FinishedItem, Starts, Finish, Slot, Counts, SlotsRight, Produced, Placed, ProgressInv;
    DoneKeepsProgress(x, sink0, i);
    DoneKeepsCounts(x, sink0, i);
    FinishedProduced(x, sink0, i);
    DoneKeepsSlots(x, sink0, i);
    FinishedNumbers(x, i, x.fifo.ring.stages - 1);
  }

  /** Every callback, in whatever order they come, keeps the whole invariant. */
  lemma StepKeepsTransfer<S>(x: Xfer<S>, sink0: map<nat, S>, e: Step)
    requires TransferInv(x, sink0) && CanStep(x, e)
    ensures TransferInv(TakeStep(x, e), sink0)
  {
    hide TransferInv, CipherSector, Counted, Reported, FinishedItem, CanCipher, CanCount;
    match e
    case Cipher => CipherKeeps(x, sink0);
    case Count(i) => CountKeeps(x, sink0, i);
    case Report(i) => ReportKeeps(x, sink0, i);
    case Done(i) => DoneKeeps(x, sink0, i);
  }
}
