/** The pipeline object itself: small fixed tables updated in place, proved against the steps of
    `BufferManager`. Starting a stage's hardware is the call of processStage; it shows in `received`. */
module BufferFifoObject {
  import opened BufferManager

  class BufferFifo<T(0)> {
    const bufferStorage: array<T>
    const bufferSize: array<int>
    const bufferData: array<int>
    const stageWriteIndex: array<int>
    const stageReadIndex: array<int>
    const stalledTable: array<bool>
    const stageProcessing: array<bool>
    var numStages: nat
    var bufferCount: nat
    var processing: bool
    var stallIndex: nat

    // what the pipeline has done so far
    ghost var done: seq<nat>
    ghost var flight: seq<bool>
    ghost var received: seq<seq<Item<T>>>
    ghost var produced: seq<seq<Item<T>>>
    ghost var finished: nat

    ghost predicate Valid()
      reads this, bufferStorage, bufferSize, bufferData, stageWriteIndex, stageReadIndex, stalledTable, stageProcessing
    {
      && Tables()
      && 2 <= numStages <= MAX_STAGES
      && 1 <= bufferCount <= MAX_BUFFERS
      && stallIndex <= numStages
      && |done| == |flight| == |received| == |produced| == MAX_STAGES
    }

    ghost predicate Tables() {
      && bufferStorage.Length == bufferSize.Length == bufferData.Length == MAX_BUFFERS
      && stageWriteIndex.Length == stageReadIndex.Length == stalledTable.Length == stageProcessing.Length == MAX_STAGES
      && bufferSize != bufferData && stageWriteIndex != stageReadIndex && stalledTable != stageProcessing
      && stageWriteIndex != bufferSize && stageWriteIndex != bufferData
      && stageReadIndex != bufferSize && stageReadIndex != bufferData
      && bufferStorage as object !in {bufferSize as object, bufferData, stageWriteIndex, stageReadIndex,
          stalledTable, stageProcessing}
    }

    constructor (stages: nat, buffers: nat)
      requires 2 <= stages <= MAX_STAGES && 1 <= buffers <= MAX_BUFFERS
      ensures Valid() && numStages == stages && bufferCount == buffers && !processing
      ensures fresh(bufferStorage) && fresh(bufferSize) && fresh(bufferData)
      ensures fresh(stageWriteIndex) && fresh(stageReadIndex) && fresh(stalledTable) && fresh(stageProcessing)
    {
      bufferStorage := new T[MAX_BUFFERS];
      bufferSize := new int[MAX_BUFFERS](_ => 0);
      bufferData := new int[MAX_BUFFERS](_ => 0);
      stageWriteIndex := new int[MAX_STAGES](_ => 0);
      stageReadIndex := new int[MAX_STAGES](_ => 0);
      stalledTable := new bool[MAX_STAGES](_ => false);
      stageProcessing := new bool[MAX_STAGES](_ => false);
      numStages, bufferCount, processing, stallIndex := stages, buffers, false, 0;
      done, flight, finished := [0, 0, 0, 0], [false, false, false, false], 0;
      received, produced := [[], [], [], []], [[], [], [], []];
    }

    ghost function Slots(): (s: seq<Item<T>>)
      requires Tables()
      reads bufferStorage, bufferSize, bufferData
      ensures |s| == MAX_BUFFERS
    {
      seq(MAX_BUFFERS, k requires 0 <= k < MAX_BUFFERS && Tables() reads bufferStorage, bufferSize, bufferData =>
        Item(bufferStorage[k], bufferSize[k], bufferData[k]))
    }

    ghost function RingState(): (r: Ring<T>)
      requires Valid()
      reads this, bufferStorage, bufferSize, bufferData, stageWriteIndex, stageReadIndex, stalledTable, stageProcessing
      ensures r.Shape()
    {
      Ring(numStages, bufferCount, Slots(), stageWriteIndex[..], stageReadIndex[..], stalledTable[..],
                stageProcessing[..], done, flight, received, produced)
    }

    ghost function State(): (f: Fifo<T>)
      requires Valid()
      reads this, bufferStorage, bufferSize, bufferData, stageWriteIndex, stageReadIndex, stalledTable, stageProcessing
      ensures f.Shape() && f.ring.stages == numStages && f.ring.depth == bufferCount && f.ring.received == received
    {
      Fifo(RingState(), processing, stallIndex, finished)
    }

    method ExecStage(stageIdx: nat)
      requires Valid() && stageIdx < numStages
      modifies stageProcessing, this`received, this`flight
      ensures Valid() && State() == old(State()).(ring := Exec(old(RingState()), stageIdx))
    {
      var readBufferIdx := stageReadIndex[stageIdx] % bufferCount;
      stageProcessing[stageIdx] := true;
      flight := flight[stageIdx := true];
      received := received[stageIdx := received[stageIdx] +
        [Item(bufferStorage[readBufferIdx], bufferSize[readBufferIdx], bufferData[readBufferIdx])]];
    }

    method StageStalled(stage: nat) returns (stalled: bool)
      requires Valid() && stage < numStages
      ensures stalled == BufferManager.StageStalled(RingState(), stage)
    {
      if stageProcessing[stage] || stalledTable[stage] {
        return true;
      } else if stage != 0 {
        var prevStage := stage - 1;
        if stageReadIndex[stage] == stageWriteIndex[prevStage] {
          return true;
        }
      } else {
        if stageWriteIndex[0] == stageReadIndex[numStages - 1] + bufferCount {
          return true;
        }
      }
      return false;
    }

    method StallStage(stageIdx: nat)
      requires Valid() && stageIdx < numStages
      modifies stageProcessing, stalledTable
      ensures Valid() && State() == old(State()).(ring := BufferManager.StallStage(old(RingState()), stageIdx))
    {
      stageProcessing[stageIdx] := false;
      stalledTable[stageIdx] := true;
    }

    /** The stage's hardware puts bytes into the slot it was given to write. */
    method Fill(stageIdx: nat, data: T)
      requires Valid() && stageIdx < numStages
      modifies bufferStorage
      ensures Valid() && State() == old(State()).(ring := Transfer(old(State()).ring, stageIdx, data))
    {
      bufferStorage[stageWriteIndex[stageIdx] % bufferCount] := data;
    }

    /** What processStage is given to read. */
    method ReadSlot(stageIdx: nat) returns (data: T, size: int)
      requires Valid() && stageIdx < numStages
      ensures var r := State().ring;
        var item := r.slots[Slot(r.read[stageIdx], r.depth)];
        data == item.data && size == item.size
    {
      var i := stageReadIndex[stageIdx] % bufferCount;
      return bufferStorage[i], bufferSize[i];
    }

    method WriteSlotData(stageIdx: nat) returns (data: T)
      requires Valid() && stageIdx < numStages
      ensures var r := State().ring;
        data == r.slots[Slot(r.write[stageIdx], r.depth)].data
    {
      return bufferStorage[stageWriteIndex[stageIdx] % bufferCount];
    }

    method RecordSlot(i: nat, writeLen: int, data: int)
      requires Valid() && i < MAX_BUFFERS
      modifies bufferSize, bufferData
      ensures Slots() == old(Slots())[i := Recorded(old(Slots())[i], writeLen, data)]
    {
      if writeLen >= 0 {
        bufferSize[i] := writeLen;
        bufferData[i] := data;
      }
    }

    method RecordCompletion(stageIdx: nat, writeLen: int, data: int)
      requires Valid() && stageIdx < numStages
      modifies bufferSize, bufferData, stageProcessing, stageWriteIndex, stageReadIndex, this`flight, this`done,
          this`produced
      ensures Valid() && State() == old(State()).(ring := Advance(old(RingState()), stageIdx, writeLen, data))
    {
      var i := stageWriteIndex[stageIdx] % bufferCount;
      RecordSlot(i, writeLen, data);
      produced := produced[stageIdx := produced[stageIdx] + [Slots()[i]]];
      stageProcessing[stageIdx] := false;
      stageWriteIndex[stageIdx] := stageWriteIndex[stageIdx] + 1;
      stageReadIndex[stageIdx] := stageReadIndex[stageIdx] + 1;
      flight := flight[stageIdx := false];
      done := done[stageIdx := done[stageIdx] + 1];
    }

    /** Starts the stage unless it is stalled; answers whether it did. */
    method WakeStage(stageIdx: nat) returns (started: bool)
      requires Valid() && stageIdx < numStages
      modifies stageProcessing, this`received, this`flight
      ensures Valid() && State() == old(State()).(ring := Wake(old(RingState()), stageIdx))
      ensures |received| == |old(received)| && (started <==> |received[stageIdx]| > |old(received[stageIdx])|)
      ensures forall j :: 0 <= j < |received| && j != stageIdx ==> received[j] == old(received[j])
    {
      var stalled := StageStalled(stageIdx);
      if !stalled {
        ExecStage(stageIdx);
      }
      started := !stalled;
    }

    method DetectEnd()
      requires Valid()
      modifies this`processing, this`stallIndex, this`finished
      ensures Valid() && State() == CheckFinished(old(State()))
    {
      if processing {
        while stallIndex < numStages
          invariant Valid() && RingState() == old(RingState()) && processing && finished == old(finished)
          invariant SkipStalled(RingState(), stallIndex) == SkipStalled(old(RingState()), old(stallIndex))
          decreases numStages - stallIndex
        {
          if stageProcessing[stallIndex] || !stalledTable[stallIndex] {
            break;
          }
          stallIndex := stallIndex + 1;
        }
        if stallIndex == numStages {
          processing := false;
          finished := finished + 1;
        }
      }
    }

    /** Answers which of the two stages it may wake were started. */
    method ProcessingComplete(stageIdx: nat, writeLen: int, data: int) returns (self: bool, next: bool)
      requires Valid() && stageIdx < numStages
      modifies this, bufferSize, bufferData, stageProcessing, stageWriteIndex, stageReadIndex
      ensures Valid() && State() == Complete(old(State()), stageIdx, writeLen, data)
      ensures self <==> |received[stageIdx]| > |old(received[stageIdx])|
      ensures var n := Next(numStages, stageIdx); next <==> |received[n]| > |old(received[n])|
    {
      hide Wake, Advance, CheckFinished, Slots;
      var nextStageIdx := (stageIdx + 1) % numStages;
      RecordCompletion(stageIdx, writeLen, data);
      self := WakeStage(stageIdx);
      next := WakeStage(nextStageIdx);
      DetectEnd();
    }

    method ClearSizes(firstBufferSize: int)
      requires Valid()
      modifies bufferSize
      ensures Slots() == Reset(old(RingState()), firstBufferSize).slots
    {
      for i := 0 to bufferCount
        invariant forall k :: 0 <= k < MAX_BUFFERS ==> bufferSize[k] == if k < i then 0 else old(bufferSize[k])
      {
        bufferSize[i] := 0;
      }
      bufferSize[numStages - 2] := firstBufferSize;
    }

    method ClearStages()
      requires Valid()
      modifies stageProcessing, stalledTable, stageWriteIndex, stageReadIndex
      ensures stageProcessing[..] == Reinit(old(stageProcessing[..]), numStages, _ => false)
      ensures stalledTable[..] == Reinit(old(stalledTable[..]), numStages, _ => false)
      ensures var n := numStages; stageReadIndex[..] == Reinit(old(stageReadIndex[..]), n, k => ReadBase(n, k))
      ensures var n := numStages; stageWriteIndex[..] == Reinit(old(stageWriteIndex[..]), n, k => WriteBase(n, k))
    {
      for i := 0 to numStages
        invariant forall k :: 0 <= k < MAX_STAGES ==> stageProcessing[k] == if k < i then false
            else old(stageProcessing[k])
        invariant forall k :: 0 <= k < MAX_STAGES ==> stalledTable[k] == if k < i then false else old(stalledTable[k])
        invariant forall k :: 0 <= k < MAX_STAGES ==>
                    stageReadIndex[k] == if k < i then ReadBase(numStages, k) else old(stageReadIndex[k])
        invariant forall k :: 0 <= k < MAX_STAGES ==>
                    stageWriteIndex[k] == if k < i then WriteBase(numStages, k) else old(stageWriteIndex[k])
      {
        stageProcessing[i] := false;
        stalledTable[i] := false;
        if numStages > 2 {
          if i == 0 {
            stageReadIndex[i] := numStages - 2;
            stageWriteIndex[i] := numStages - 2;
          } else if i == numStages - 1 {
            stageReadIndex[i] := 0;
            stageWriteIndex[i] := 0;
          } else {
            stageReadIndex[i] := numStages - 2 - i + 1;
            stageWriteIndex[i] := numStages - 2 - i;
          }
        } else if numStages == 2 {
          stageReadIndex[i] := 0;
          stageWriteIndex[i] := 0;
        }
      }
    }

    method ResetTables(firstBufferSize: int)
      requires Valid()
      modifies this, bufferSize, stageProcessing, stalledTable, stageWriteIndex, stageReadIndex
      ensures Valid() && State() == Fifo(Reset(old(RingState()), firstBufferSize), true, 0, 0)
    {
      ClearSizes(firstBufferSize);
      ClearStages();
      processing := true;
      stallIndex := 0;
      finished := 0;
      done := seq(MAX_STAGES, _ => 0);
      flight := seq(MAX_STAGES, _ => false);
      received := seq(MAX_STAGES, _ => []);
      produced := seq(MAX_STAGES, _ => []);
      hide Slots;
    }

    method Start(firstBufferSize: int)
      requires Valid()
      modifies this, bufferSize, stageProcessing, stalledTable, stageWriteIndex, stageReadIndex
      ensures Valid() && State() == BufferManager.Start(old(State()), firstBufferSize)
    {
      ResetTables(firstBufferSize);
      ExecStage(0);
    }
  }
}
