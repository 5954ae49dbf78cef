/** Whole transfers, and whole sessions of transfers, on a volume. */
module ScsiVolume {
  import opened Arithmetic
  import opened BufferManager
  import opened BufferSafety
  import opened BufferProgress
  import opened ScsiTransfer
  import opened ScsiSafety
  import opened ScsiSteps

  ghost predicate Ready<S>(x: Xfer<S>) {
    x.fifo.Shape() && x.fifo.ring.depth == BUFFER_COUNT && |x.len| == MAX_STAGES
  }

  /** What a transfer has to do for its sink: the owed sectors at their block addresses, nothing else. */
  function Copied<S>(job: Job<S>, sink0: map<nat, S>): map<nat, S>
    requires job.Valid()
  {
    Place(sink0, job.addr, seq(job.blocks, k requires 0 <= k < job.blocks => Owed(job, 2, job.addr + k)))
  }

  lemma StartBuffers<S>(x: Xfer<S>, job: Job<S>)
    requires Ready(x) && job.Valid()
    ensures var y := StartTransfer(x, job);
      && ProgressInv(y.fifo, Items(job.blocks)) && y.job == job && y.sink == x.sink && y.residue == job.blocks * SECTOR
      && y.phase == seq(MAX_STAGES, _ => 0) && y.pos == seq(MAX_STAGES, _ => job.addr)
      && y.left == seq(MAX_STAGES, _ => job.blocks * SECTOR)
      && y.len[0] == Min(job.blocks * SECTOR, BUFFER_BYTES)
      && (forall i :: 0 <= i < MAX_STAGES ==> y.fifo.ring.done[i] == 0 && y.fifo.ring.produced[i] == [])
      && (forall i :: 0 <= i < job.Stages() ==> !y.fifo.ring.stalled[i])
      && (forall i :: 0 <= i < MAX_STAGES ==> y.fifo.ring.flight[i] == (i == 0))
  {
    var f := Fifo(x.fifo.ring.(stages := job.Stages()), x.fifo.active, 0, x.fifo.finished);
    ItemsExhausted(job.blocks, 0);
    StartMakesProgress(f, Min(job.blocks * SECTOR, BUFFER_BYTES), Items(job.blocks));
    hide Slot, ProgressInv, Items;
  }

  lemma StartCounts<S>(x: Xfer<S>, job: Job<S>)
    requires Ready(x) && job.Valid()
    ensures Counts(StartTransfer(x, job))
  {
    hide StartTransfer, ProgressInv;
    StartBuffers(x, job);
    ItemsExhausted(job.blocks, 0);
    var y := StartTransfer(x, job);
    forall i: nat | i < y.fifo.ring.stages ensures CountsOf(y, i) {
    }
  }

  lemma StartKeepsTransfer<S>(x: Xfer<S>, job: Job<S>)
    requires Ready(x) && job.Valid()
    ensures TransferInv(StartTransfer(x, job), x.sink)
  {
    hide StartTransfer, ProgressInv, Counts;
    StartBuffers(x, job);
    StartCounts(x, job);
    var y := StartTransfer(x, job);
    assert FillingOf(y, 0);
  }

  // ----- progress -----

  /** The callback that is due next at a stage with an item in hand. */
  function DueStep<S>(x: Xfer<S>, i: nat): Step
    requires x.Stage(i)
  {
    if x.phase[i] == 1 then Report(i)
    else if x.phase[i] == 2 then Done(i)
    else if IsCipher(x, i) && x.sectorsLeft > 0 then Cipher
    else Count(i)
  }

  /** No callback finds its guard false: whatever the others have done in the meantime, a stage with an item
      in hand can take its next step. */
  lemma DueStepFits<S>(x: Xfer<S>, sink0: map<nat, S>, i: nat)
    requires TransferInv(x, sink0) && x.Stage(i) && x.fifo.ring.flight[i]
    ensures CanStep(x, DueStep(x, i))
  {
    hide TransferInv, Slot;
    CountsSoFar(x, sink0, i);
    Parts(x, sink0);
    hide SlotsRight, Counts, ProgressInv;
    FlyingWhenBusy(x.fifo.ring, i);
    hide Inv;
    match DueStep(x, i) {
      case Cipher => CipherFits(x, sink0);
      case Count(_) => CountFits(x, sink0, i);
      case _ =>
    }
  }

  /** Until the end is reported, some callback is due: a transfer cannot hang. */
  lemma TransferNeverHangs<S>(x: Xfer<S>, sink0: map<nat, S>) returns (i: nat)
    requires TransferInv(x, sink0) && x.fifo.finished == 0
    ensures x.Stage(i) && x.fifo.ring.flight[i] && CanStep(x, DueStep(x, i))
  {
    hide TransferInv, Slot, CanStep, DueStep;
    Parts(x, sink0);
    hide SlotsRight, Counts, Inv;
    i := NoDeadlock(x.fifo, Items(x.job.blocks));
    CountsSoFar(x, sink0, i);
    FlyingWhenBusy(x.fifo.ring, i);
    DueStepFits(x, sink0, i);
  }

  /** Callbacks still to come for one stage. */
  function StageWork(items: int, done: nat, phase: nat): int {
    3 * (items - done) - phase
  }

  ghost function Work<S>(x: Xfer<S>): int
    requires x.Shape()
  {
    var n := Items(x.job.blocks);
    var r := x.fifo.ring;
    StageWork(n, r.done[0], x.phase[0]) + StageWork(n, r.done[1], x.phase[1])
    + (if x.job.encrypted then StageWork(n, r.done[2], x.phase[2]) + x.job.addr + x.job.blocks - x.pos[1] else 0)
  }

  /** Every callback uses up exactly one unit of work. */
  lemma StepWork<S>(x: Xfer<S>, sink0: map<nat, S>, e: Step)
    requires TransferInv(x, sink0) && CanStep(x, e)
    ensures Work(TakeStep(x, e)) == Work(x) - 1
  {
    hide TransferInv, Slot, Finish, Starts, Fetched, Delivered, FinishedItem;
    match e
    case Cipher =>
    case Count(i) =>
      FetchedKeepsIndexes(x, i);
    case Report(i) =>
    case Done(i) =>
      FinishedView(x, i, 0);
      FinishedView(x, i, 1);
      if x.job.encrypted { FinishedView(x, i, 2); }
  }

  ghost predicate TransferRun<S>(states: seq<Xfer<S>>, steps: seq<Step>) {
    && |states| == |steps| + 1
    && (forall k :: 0 <= k < |steps| ==> CanStep(states[k], steps[k]) && states[k + 1] == TakeStep(states[k], steps[k]))
  }

  lemma {:induction false} RunKeepsTransfer<S>(states: seq<Xfer<S>>, steps: seq<Step>, sink0: map<nat, S>, k: nat)
    requires TransferRun(states, steps) && TransferInv(states[0], sink0) && k < |states|
    ensures TransferInv(states[k], sink0) && states[k].job == states[0].job
    ensures states[k].Shape() && Work(states[k]) == Work(states[0]) - k
  {
    hide TransferInv, CanStep, TakeStep, Work;
    JobShape(states[0], sink0);
    if k > 0 {
      RunKeepsTransfer(states, steps, sink0, k - 1);
      StepKeepsTransfer(states[k - 1], sink0, steps[k - 1]);
      StepWork(states[k - 1], sink0, steps[k - 1]);
    }
  }

  /** The cipher's sector counter and the eMMC stage's block address are independent, but agree on every
      sector: if in one state of a transfer the cipher is at a sector of item k, and in another the eMMC stage
      moves item k, then that sector passes the cipher under the address it is fetched from or placed at. */
  lemma CipherUsesStorageAddress<S>(x: Xfer<S>, y: Xfer<S>, sink0: map<nat, S>)
    requires TransferInv(x, sink0) && TransferInv(y, sink0) && x.job == y.job && x.job.encrypted
    requires CanCipher(x) && CanCount(y, y.job.MmcStage())
    requires x.fifo.ring.done[1] == y.fifo.ring.done[y.job.MmcStage()]
    ensures x.pos[1] == y.pos[y.job.MmcStage()] + Ciphered(x)
    ensures 0 <= Ciphered(x) < MovedLength(y, y.job.MmcStage()) / SECTOR
  {
    hide TransferInv, Slot;
    CipherFits(x, sink0);
    ItemInHand(x, sink0, 1);
    ItemInHand(y, sink0, y.job.MmcStage());
  }

  lemma ItemInHand<S>(x: Xfer<S>, sink0: map<nat, S>, i: nat)
    requires TransferInv(x, sink0) && Working(x, i)
    ensures x.len[i] == SECTOR * SectorsIn(x.job.blocks, x.fifo.ring.done[i])
    ensures SectorsIn(x.job.blocks, x.fifo.ring.done[i]) > 0
    ensures !IsCipher(x, i) ==> x.pos[i] == x.job.addr + Before(x.job.blocks, x.fifo.ring.done[i])
    ensures MovedLength(x, i) == x.len[i]
  {
    Parts(x, sink0);
    FlyingWhenBusy(x.fifo.ring, i);
    StageFacts(x, sink0, i);
    ItemsExhausted(x.job.blocks, x.fifo.ring.done[i]);
    hide TransferInv, Slot, Inv, ProgressInv, SlotsRight;
  }

  /** When the pipeline has reported the end, every byte has been moved by every stage: all three counters
      and the CSW residue are zero, so the assertion before the CSW holds, and the sink is as asked. */
  lemma EndOfTransfer<S>(x: Xfer<S>, sink0: map<nat, S>)
    requires TransferInv(x, sink0) && x.fifo.finished > 0
    ensures forall i :: 0 <= i < x.fifo.ring.stages ==> x.left[i] == 0 && x.fifo.ring.done[i] == Items(x.job.blocks)
    ensures x.fifo.finished == 1 && x.left[x.job.MmcStage()] == 0 && x.residue == 0
    ensures x.sink == Copied(x.job, sink0)
    ensures Work(x) == 0
  {
    var r := x.fifo.ring;
    var last := r.stages - 1;
    hide TransferInv, Slot, Placed, Owed, StageCounts;
    JobShape(x, sink0);
    forall i: nat | i < r.stages
      ensures x.left[i] == 0 && r.done[i] == Items(x.job.blocks) && x.phase[i] == 0
      ensures x.pos[i] == x.job.addr + x.job.blocks
    {
      StageAtEnd(x, sink0, i);
    }
    ResidueLeft(x, sink0);
    PlacedSoFar(x, sink0);
    AllPlaced(x.job, sink0, x.sink);
    OneEnd(x, sink0);
  }

  lemma OneEnd<S>(x: Xfer<S>, sink0: map<nat, S>)
    requires TransferInv(x, sink0)
    ensures x.fifo.finished <= 1
  {
  }

  lemma ResidueLeft<S>(x: Xfer<S>, sink0: map<nat, S>)
    requires TransferInv(x, sink0)
    ensures x.Shape() && x.residue == x.left[x.job.UsbStage()]
  {
  }

  lemma StageAtEnd<S>(x: Xfer<S>, sink0: map<nat, S>, i: nat)
    requires TransferInv(x, sink0) && x.fifo.finished > 0 && x.Stage(i)
    ensures x.left[i] == 0 && x.fifo.ring.done[i] == Items(x.job.blocks) && x.phase[i] == 0
    ensures x.pos[i] == x.job.addr + x.job.blocks
  {
    CountsSoFar(x, sink0, i);
    Parts(x, sink0);
    hide TransferInv, Slot, SlotsRight, Counts, HandedOn, IndexesCount, Stored, Eager;
    var last := x.fifo.ring.stages - 1;
    assert x.fifo.ring.done[last] <= x.fifo.ring.done[i];
    ItemsExhausted(x.job.blocks, x.fifo.ring.done[i]);
  }

  lemma AllPlaced<S>(job: Job<S>, sink0: map<nat, S>, sink: map<nat, S>)
    requires job.Valid() && Placed(job, sink0, sink, job.addr + job.blocks)
    ensures sink == Copied(job, sink0)
  {
    var t := Copied(job, sink0);
    assert forall lba: nat :: lba in sink <==> lba in t;
    assert forall lba: nat | lba in sink :: sink[lba] == t[lba];
  }

  /** A whole transfer, whatever the order of its callbacks: every stage with an item in hand can take its
      next step, before the end there is such a stage, the end comes after exactly 3 steps per stage and item
      plus one per ciphered sector, and it leaves the sink with exactly the owed sectors at the requested block
      addresses. */
  lemma WholeTransfer<S>(x: Xfer<S>, job: Job<S>, states: seq<Xfer<S>>, steps: seq<Step>)
    requires Ready(x) && job.Valid() && TransferRun(states, steps) && states[0] == StartTransfer(x, job)
    ensures var end := states[|steps|];
      && |steps| <= 3 * job.Stages() * Items(job.blocks) + (if job.encrypted then job.blocks else 0)
      && end.Shape() && end.job == job
      && (forall i: nat :: i < job.Stages() && end.fifo.ring.flight[i] ==> CanStep(end, DueStep(end, i)))
      && (end.fifo.finished == 0 ==> exists i: nat :: i < job.Stages() && end.fifo.ring.flight[i])
      && (end.fifo.finished > 0 ==>
            && |steps| == 3 * job.Stages() * Items(job.blocks) + (if job.encrypted then job.blocks else 0)
            && end.sink == Copied(job, x.sink)
            && end.residue == 0
            && end.fifo.finished == 1)
  {
    hide TransferInv, StartTransfer, CanStep, DueStep;
    StartKeepsTransfer(x, job);
    RunKeepsTransfer(states, steps, x.sink, |steps|);
    var end := states[|steps|];
    StartWork(x, job);
    WorkIsNatural(end, x.sink);
    JobShape(end, x.sink);
    forall i: nat | i < job.Stages() && end.fifo.ring.flight[i] ensures CanStep(end, DueStep(end, i)) {
      DueStepFits(end, x.sink, i);
    }
    if end.fifo.finished == 0 {
      var i := TransferNeverHangs(end, x.sink);
    } else {
      EndOfTransfer(end, x.sink);
    }
  }

  lemma StartWork<S>(x: Xfer<S>, job: Job<S>)
    requires Ready(x) && job.Valid()
    ensures StartTransfer(x, job).job == job
    ensures Work(StartTransfer(x, job)) == 3 * job.Stages() * Items(job.blocks) +
        (if job.encrypted then job.blocks else 0)
  {
    hide StartTransfer;
    StartBuffers(x, job);
    hide ProgressInv, Items;
  }

  lemma WorkIsNatural<S>(x: Xfer<S>, sink0: map<nat, S>)
    requires TransferInv(x, sink0)
    ensures x.Shape() && Work(x) >= 0
  {
    hide TransferInv;
    JobShape(x, sink0);
    StageWorkIsNatural(x, sink0, 0);
    StageWorkIsNatural(x, sink0, 1);
    if x.job.encrypted {
      StageWorkIsNatural(x, sink0, 2);
    }
  }

  lemma StageWorkIsNatural<S>(x: Xfer<S>, sink0: map<nat, S>, i: nat)
    requires TransferInv(x, sink0) && x.Stage(i)
    ensures StageWork(Items(x.job.blocks), x.fifo.ring.done[i], x.phase[i]) >= 0
    ensures x.pos[i] <= x.job.addr + x.job.blocks
  {
    CountsSoFar(x, sink0, i);
    if x.fifo.ring.flight[i] {
      StageFacts(x, sink0, i);
    } else {
      Parts(x, sink0);
    }
    hide TransferInv, Slot, SlotsRight, Counts, Inv, ProgressInv;
    ItemsExhausted(x.job.blocks, x.fifo.ring.done[i]);
  }

  // ----- a volume over a session of requests -----

  /** How a volume's sectors pass the cipher; an unencrypted volume uses neither function. */
  datatype Volume<!S> = Volume(encrypted: bool, enc: (nat, S) -> S, dec: (nat, S) -> S)

  datatype Request<S> = ReadReq(addr: nat, blocks: nat) | WriteReq(addr: nat, data: seq<S>)

  function HostBuffer<S>(addr: nat, data: seq<S>): map<nat, S> {
    Place(map[], addr, data)
  }

  /** The job a request becomes: SCSI_Read10 decrypts off the eMMC, SCSI_Write10 encrypts onto it. */
  function JobOf<S>(v: Volume<S>, req: Request<S>, disk: map<nat, S>): Job<S> {
    match req
    case ReadReq(addr, blocks) => Job(true, v.encrypted, addr, blocks, disk, v.dec)
    case WriteReq(addr, data) => Job(false, v.encrypted, addr, |data|, HostBuffer(addr, data), v.enc)
  }

  ghost predicate InRange<S>(req: Request<S>, disk: map<nat, S>) {
    match req
    case ReadReq(addr, blocks) => blocks > 0 && forall lba :: addr <= lba < addr + blocks ==> lba in disk
    case WriteReq(addr, data) => |data| > 0 && forall lba :: addr <= lba < addr + |data| ==> lba in disk
  }

  /** Some run of the transfer's callbacks starts with `sink0` in the sink and ends with `sink` there. */
  ghost predicate Transfers<S(!new)>(job: Job<S>, sink0: map<nat, S>, sink: map<nat, S>) {
    exists x: Xfer<S>, states: seq<Xfer<S>>, steps: seq<Step> :: EndedRun(x, job, sink0, sink, states, steps)
  }

  ghost predicate EndedRun<S>(x: Xfer<S>, job: Job<S>, sink0: map<nat, S>, sink: map<nat, S>,
      states: seq<Xfer<S>>, steps: seq<Step>) {
    && Ready(x) && job.Valid() && x.sink == sink0
    && TransferRun(states, steps) && states[0] == StartTransfer(x, job)
    && states[|steps|].fifo.finished > 0 && states[|steps|].sink == sink
  }

  lemma TransferCopies<S(!new)>(job: Job<S>, sink0: map<nat, S>, sink: map<nat, S>)
    requires Transfers(job, sink0, sink)
    ensures job.Valid() && sink == Copied(job, sink0)
  {
    var x: Xfer<S>, states: seq<Xfer<S>>, steps: seq<Step> :| EndedRun(x, job, sink0, sink, states, steps);
    hide TransferRun, StartTransfer, Copied;
    WholeTransfer(x, job, states, steps);
  }

  /** From every state a transfer can be in, some run of its callbacks leads to the end. */
  lemma {:induction false} RunsToEnd<S>(x: Xfer<S>, sink0: map<nat, S>) returns (states: seq<Xfer<S>>, steps: seq<Step>)
    requires TransferInv(x, sink0)
    ensures TransferRun(states, steps) && states[0] == x && states[|steps|].fifo.finished > 0
    decreases var w := if x.Shape() then Work(x) else 0; if w >= 0 then w else 0
  {
    hide TransferInv, CanStep, TakeStep, DueStep, Work;
    JobShape(x, sink0);
    if x.fifo.finished > 0 {
      states, steps := [x], [];
    } else {
      var i := TransferNeverHangs(x, sink0);
      var e := DueStep(x, i);
      var y := TakeStep(x, e);
      StepKeepsTransfer(x, sink0, e);
      StepWork(x, sink0, e);
      WorkIsNatural(y, sink0);
      var later, more := RunsToEnd(y, sink0);
      states, steps := [x] + later, [e] + more;
      forall k | 0 <= k < |steps|
        ensures CanStep(states[k], steps[k]) && states[k + 1] == TakeStep(states[k], steps[k])
      {
        if k > 0 {
          assert states[k] == later[k - 1] && states[k + 1] == later[k] && steps[k] == more[k - 1];
        }
      }
    }
  }

  /** Every request can be carried out, whatever the last one left behind. */
  lemma TransferHappens<S(!new)>(x: Xfer<S>, job: Job<S>)
    requires Ready(x) && job.Valid()
    ensures Transfers(job, x.sink, Copied(job, x.sink))
  {
    hide TransferInv, StartTransfer, TransferRun, Copied;
    StartKeepsTransfer(x, job);
    var states, steps := RunsToEnd(StartTransfer(x, job), x.sink);
    WholeTransfer(x, job, states, steps);
    assert EndedRun(x, job, x.sink, Copied(job, x.sink), states, steps);
  }

  /** A session: each request is carried out by a transfer; `disks[k]` is the eMMC before request k and
      `answers[k]` the host's memory after it. */
  ghost predicate Session<S(!new)>(v: Volume<S>, reqs: seq<Request<S>>, disks: seq<map<nat, S>>,
      answers: seq<map<nat, S>>) {
    && |disks| == |reqs| + 1
    && |answers| == |reqs|
    && (forall k :: 0 <= k < |reqs| ==>
        InRange(reqs[k], disks[k]) && Served(v, reqs[k], disks[k], disks[k + 1], answers[k]))
  }

  ghost predicate Served<S(!new)>(v: Volume<S>, req: Request<S>, disk: map<nat, S>, disk': map<nat, S>,
      answer: map<nat, S>) {
    match req
    case ReadReq(_, _) => disk' == disk && Transfers(JobOf(v, req, disk), map[], answer)
    case WriteReq(_, _) => Transfers(JobOf(v, req, disk), disk, disk')
  }

  /** What the host expects: memory holding, at each block address, the data last written there. */
  function Memory<S>(mem0: map<nat, S>, reqs: seq<Request<S>>): map<nat, S> {
    if reqs == [] then mem0
    else
      var mem := Memory(mem0, reqs[..|reqs| - 1]);
      match reqs[|reqs| - 1]
      case ReadReq(_, _) => mem
      case WriteReq(addr, data) => Place(mem, addr, data)
  }

  /** The volume's contents in clear. */
  function Clear<S>(v: Volume<S>, disk: map<nat, S>): map<nat, S> {
    map lba | lba in disk :: if v.encrypted then v.dec(lba, disk[lba]) else disk[lba]
  }

  ghost predicate Inverse<S(!new)>(v: Volume<S>) {
    forall lba: nat, s: S :: v.dec(lba, v.enc(lba, s)) == s
  }

  lemma CopiedAt<S>(job: Job<S>, sink0: map<nat, S>, lba: nat)
    requires job.Valid()
    ensures lba in Copied(job, sink0) <==> lba in sink0 || job.addr <= lba < job.addr + job.blocks
    ensures lba in Copied(job, sink0) ==>
      Copied(job, sink0)[lba] == if job.addr <= lba < job.addr + job.blocks then Owed(job, 2, lba) else sink0[lba]
  {
    hide Owed;
    var data := seq(job.blocks, k requires 0 <= k < job.blocks => Owed(job, 2, job.addr + k));
    if job.addr <= lba < job.addr + job.blocks {
      assert data[lba - job.addr] == Owed(job, 2, lba);
    }
  }

  lemma WriteClear<S(!new)>(v: Volume<S>, addr: nat, data: seq<S>, disk: map<nat, S>)
    requires Inverse(v) && |data| > 0
    ensures JobOf(v, WriteReq(addr, data), disk).Valid()
    ensures Clear(v, Copied(JobOf(v, WriteReq(addr, data), disk), disk)) == Place(Clear(v, disk), addr, data)
  {
    var job := JobOf(v, WriteReq(addr, data), disk);
    var c := Clear(v, Copied(job, disk));
    var m := Place(Clear(v, disk), addr, data);
    hide Copied;
    forall lba: nat
      ensures lba in c <==> lba in m
      ensures lba in c ==> c[lba] == m[lba]
    {
      CopiedAt(job, disk, lba);
    }
  }

  lemma ReadClear<S(!new)>(v: Volume<S>, addr: nat, blocks: nat, disk: map<nat, S>)
    requires InRange(ReadReq(addr, blocks), disk)
    ensures JobOf(v, ReadReq(addr, blocks), disk).Valid()
    ensures forall lba :: lba in Copied(JobOf(v, ReadReq(addr, blocks), disk), map[]) <==> addr <= lba < addr + blocks
    ensures forall lba :: addr <= lba < addr + blocks ==>
              Copied(JobOf(v, ReadReq(addr, blocks), disk), map[])[lba] == Clear(v, disk)[lba]
  {
    hide Copied;
    var job := JobOf(v, ReadReq(addr, blocks), disk);
    assert job.Valid();
    forall lba: nat
      ensures lba in Copied(job, map[]) <==> addr <= lba < addr + blocks
      ensures addr <= lba < addr + blocks ==> Copied(job, map[])[lba] == Clear(v, disk)[lba]
    {
      CopiedAt(job, map[], lba);
    }
  }

  lemma {:induction false} SessionMemory<S(!new)>(v: Volume<S>, reqs: seq<Request<S>>, disks: seq<map<nat, S>>,
      answers: seq<map<nat, S>>, k: nat)
    requires Inverse(v) && Session(v, reqs, disks, answers) && k <= |reqs|
    ensures Clear(v, disks[k]) == Memory(Clear(v, disks[0]), reqs[..k])
  {
    hide Transfers, Inverse, Copied, Clear;
    if k > 0 {
      SessionMemory(v, reqs, disks, answers, k - 1);
      assert reqs[..k][..k - 1] == reqs[..k - 1];
      assert Served(v, reqs[k - 1], disks[k - 1], disks[k], answers[k - 1]);
      match reqs[k - 1]
      case ReadReq(_, _) =>
      case WriteReq(addr, data) =>
        TransferCopies(JobOf(v, reqs[k - 1], disks[k - 1]), disks[k - 1], disks[k]);
        WriteClear(v, addr, data, disks[k - 1]);
    }
  }

  /** Read-after-write: in any session of in-range requests, of any alignment and length and with any
      interleaving inside each transfer, a read gives the host exactly the sectors it asked for, each with the
      data last written to that block address, or with what was there at the start. */
  lemma ReadAfterWrite<S(!new)>(v: Volume<S>, reqs: seq<Request<S>>, disks: seq<map<nat, S>>,
      answers: seq<map<nat, S>>, k: nat)
    requires Inverse(v) && Session(v, reqs, disks, answers) && k < |reqs| && reqs[k].ReadReq?
    ensures forall lba :: lba in answers[k] <==> reqs[k].addr <= lba < reqs[k].addr + reqs[k].blocks
    ensures forall lba :: lba in answers[k] ==>
              lba in Memory(Clear(v, disks[0]), reqs[..k]) &&
                  answers[k][lba] == Memory(Clear(v, disks[0]), reqs[..k])[lba]
  {
    SessionMemory(v, reqs, disks, answers, k);
    hide Transfers, Inverse, Copied, Memory;
    assert Served(v, reqs[k], disks[k], disks[k + 1], answers[k]);
    var addr, blocks := reqs[k].addr, reqs[k].blocks;
    TransferCopies(JobOf(v, reqs[k], disks[k]), map[], answers[k]);
    ReadClear(v, addr, blocks, disks[k]);
  }

  // ----- one request, sector by sector -----

  /** A write leaves on the disk, at each address, its sector encrypted under that address, or as it is on a
      volume that is not encrypted, and no other address changes. */
  lemma WriteStores<S(!new)>(v: Volume<S>, addr: nat, data: seq<S>, disk: map<nat, S>, disk': map<nat, S>,
      answer: map<nat, S>, lba: nat)
    requires Served(v, WriteReq(addr, data), disk, disk', answer)
    ensures lba in disk' <==> lba in disk || addr <= lba < addr + |data|
    ensures addr <= lba < addr + |data| ==>
      disk'[lba] == if v.encrypted then v.enc(lba, data[lba - addr]) else data[lba - addr]
    ensures lba in disk && !(addr <= lba < addr + |data|) ==> disk'[lba] == disk[lba]
  {
    hide Transfers, Copied, HostBuffer;
    var job := JobOf(v, WriteReq(addr, data), disk);
    TransferCopies(job, disk, disk');
    CopiedAt(job, disk, lba);
    if addr <= lba < addr + |data| {
      HostHas(addr, data, lba);
    }
  }

  lemma HostHas<S>(addr: nat, data: seq<S>, lba: nat)
    requires addr <= lba < addr + |data|
    ensures lba in HostBuffer(addr, data) && HostBuffer(addr, data)[lba] == data[lba - addr]
  {
  }

  /** A read gives, for each address, the disk's sector decrypted under that address, and changes nothing. */
  lemma ReadGives<S(!new)>(v: Volume<S>, addr: nat, blocks: nat, disk: map<nat, S>, disk': map<nat, S>,
      answer: map<nat, S>, lba: nat)
    requires Served(v, ReadReq(addr, blocks), disk, disk', answer) && InRange(ReadReq(addr, blocks), disk)
    ensures disk' == disk && (lba in answer <==> addr <= lba < addr + blocks)
    ensures lba in answer ==> answer[lba] == if v.encrypted then v.dec(lba, disk[lba]) else disk[lba]
  {
    var job := JobOf(v, ReadReq(addr, blocks), disk);
    TransferCopies(job, map[], answer);
    hide Transfers, Copied;
    CopiedAt(job, map[], lba);
  }

  // ----- sessions there are -----

  /** A driver that has not been used yet. */
  function IdleTransfer<S>(job: Job<S>, sink: map<nat, S>): (x: Xfer<S>)
    ensures Ready(x) && x.sink == sink
  {
    var zeros := seq(MAX_STAGES, _ => 0);
    var falses := seq(MAX_STAGES, _ => false);
    var ring := Ring(2, BUFFER_COUNT, seq(MAX_BUFFERS, _ => Item([], 0, 0)), zeros, zeros, falses, falses, zeros,
        falses,
                     seq(MAX_STAGES, _ => []), seq(MAX_STAGES, _ => []));
    Xfer(job, Fifo(ring, false, 0, 0), zeros, zeros, zeros, zeros, 0, 0, sink)
  }

  lemma RequestHappens<S(!new)>(v: Volume<S>, req: Request<S>, disk: map<nat, S>) returns (disk': map<nat, S>,
      answer: map<nat, S>)
    requires InRange(req, disk)
    ensures Served(v, req, disk, disk', answer)
    ensures forall lba :: lba in disk ==> lba in disk'
  {
    hide Transfers, Copied, IdleTransfer, Owed;
    var job := JobOf(v, req, disk);
    match req
    case ReadReq(_, _) =>
      TransferHappens(IdleTransfer(job, map[]), job);
      disk', answer := disk, Copied(job, map[]);
    case WriteReq(_, _) =>
      TransferHappens(IdleTransfer(job, disk), job);
      disk', answer := Copied(job, disk), map[];
      forall lba | lba in disk ensures lba in disk' {
        CopiedAt(job, disk, lba);
      }
  }

  /** Every sequence of requests within the disk is carried out by some session. */
  lemma {:induction false} SessionHappens<S(!new)>(v: Volume<S>, reqs: seq<Request<S>>, disk: map<nat, S>)
    returns (disks: seq<map<nat, S>>, answers: seq<map<nat, S>>)
    requires forall k :: 0 <= k < |reqs| ==> InRange(reqs[k], disk)
    ensures Session(v, reqs, disks, answers) && disks[0] == disk
    ensures forall lba :: lba in disk ==> lba in disks[|reqs|]
    decreases |reqs|
  {
    hide Served;
    if reqs == [] {
      disks, answers := [disk], [];
    } else {
      var n := |reqs| - 1;
      var before, given := SessionHappens(v, reqs[..n], disk);
      var last, answer := RequestHappens(v, reqs[n], before[n]);
      disks, answers := before + [last], given + [answer];
      forall k | 0 <= k < |reqs|
        ensures InRange(reqs[k], disks[k]) && Served(v, reqs[k], disks[k], disks[k + 1], answers[k])
      {
        if k < n {
          assert reqs[..n][k] == reqs[k] && disks[k] == before[k] && disks[k + 1] == before[k + 1] &&
              answers[k] == given[k];
        }
      }
    }
  }
}
