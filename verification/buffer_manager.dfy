/** The multi-stage buffer pipeline: `stages` stages share a ring of `depth` slots. Stages finish
    asynchronously and in any order; each step below runs with interrupts off. */
module BufferManager {

  const MAX_STAGES: nat := 4
  const MAX_BUFFERS: nat := 16

  /** What one slot holds: the bytes, the byte count and the extra data word. */
  datatype Item<T> = Item(data: T, size: int, word: int)

  /** The slots, the stages' indexes and flags. Beside the pipeline's own fields there is its history:
      `done` counts each stage's completions, `flight` marks a stage that was started and has not
      completed (running, or stalled with its completion still to come), and the logs hold, in order,
      what processStage was given and what each completion left in the slot it wrote. */
  datatype Ring<T> = Ring(
    stages: nat,
    depth: nat,
    slots: seq<Item<T>>,
    write: seq<int>,
    read: seq<int>,
    stalled: seq<bool>,
    busy: seq<bool>,
    done: seq<nat>,
    flight: seq<bool>,
    received: seq<seq<Item<T>>>,
    produced: seq<seq<Item<T>>>)
  {
    ghost predicate Shape() {
      && 2 <= stages <= MAX_STAGES
      && 1 <= depth <= MAX_BUFFERS
      && |slots| == MAX_BUFFERS
      && |write| == |read| == |stalled| == |busy| == MAX_STAGES
      && |done| == |flight| == |received| == |produced| == MAX_STAGES
    }

    ghost predicate Stage(i: nat) {
      Shape() && i < stages
    }
  }

  /** The ring with the end-of-transfer detection; `finished` counts calls of the processingComplete callback. */
  datatype Fifo<T> = Fifo(ring: Ring<T>, active: bool, stallIndex: nat, finished: nat)
  {
    ghost predicate Shape() {
      ring.Shape() && stallIndex <= ring.stages
    }
  }

  function Slot(index: int, depth: nat): (slot: nat)
    requires 0 < depth
    ensures slot < depth
  {
    index % depth
  }

  // ----- the steps on the ring -----

  function Exec<T>(r: Ring<T>, i: nat): (s: Ring<T>)
    requires r.Stage(i)
    ensures s.Stage(i) && s.stages == r.stages && s.depth == r.depth
  {
    r.(busy := r.busy[i := true],
       flight := r.flight[i := true],
       received := r.received[i := r.received[i] + [r.slots[Slot(r.read[i], r.depth)]]])
  }

  predicate StageStalled<T>(r: Ring<T>, i: nat)
    requires r.Stage(i)
  {
    if r.busy[i] || r.stalled[i] then true
    else if i != 0 then r.read[i] == r.write[i - 1]
    else r.write[0] == r.read[r.stages - 1] + r.depth
  }

  function Wake<T>(r: Ring<T>, i: nat): (s: Ring<T>)
    requires r.Stage(i)
    ensures s.Stage(i) && s.stages == r.stages && s.depth == r.depth
  {
    if StageStalled(r, i) then r else Exec(r, i)
  }

  function StallStage<T>(r: Ring<T>, i: nat): (s: Ring<T>)
    requires r.Stage(i)
    ensures s.Stage(i) && s.stages == r.stages && s.depth == r.depth
  {
    r.(busy := r.busy[i := false], stalled := r.stalled[i := true])
  }

  /** What a completion leaves in the slot the stage wrote; a negative length leaves the slot's record alone. */
  function Recorded<T>(old_: Item<T>, len: int, word: int): Item<T> {
    if len >= 0 then old_.(size := len, word := word) else old_
  }

  /** The bookkeeping half of a completion: record the slot, advance both indexes. */
  function Advance<T>(r: Ring<T>, i: nat, len: int, word: int): (s: Ring<T>)
    requires r.Stage(i)
    ensures s.Stage(i) && s.stages == r.stages && s.depth == r.depth
  {
    var w := Slot(r.write[i], r.depth);
    var item := Recorded(r.slots[w], len, word);
    r.(slots := r.slots[w := item],
       busy := r.busy[i := false],
       flight := r.flight[i := false],
       write := r.write[i := r.write[i] + 1],
       read := r.read[i := r.read[i] + 1],
       done := r.done[i := r.done[i] + 1],
       produced := r.produced[i := r.produced[i] + [item]])
  }

  function Next(stages: nat, i: nat): (j: nat)
    requires i < stages
    ensures j < stages
  {
    (i + 1) % stages
  }

  function Finish<T>(r: Ring<T>, i: nat, len: int, word: int): (s: Ring<T>)
    requires r.Stage(i)
    ensures s.Stage(i) && s.stages == r.stages && s.depth == r.depth
  {
    Wake(Wake(Advance(r, i, len, word), i), Next(r.stages, i))
  }

  /** A running stage puts bytes into the slot it was given to write. */
  function Transfer<T>(r: Ring<T>, i: nat, data: T): (s: Ring<T>)
    requires r.Stage(i)
    ensures s.Stage(i) && s.stages == r.stages && s.depth == r.depth
  {
    var w := Slot(r.write[i], r.depth);
    r.(slots := r.slots[w := r.slots[w].(data := data)])
  }

  // ----- the end of a transfer -----

  /** The first stage at or after k that is running or has not stalled. */
  function SkipStalled<T>(r: Ring<T>, k: nat): (m: nat)
    requires r.Shape() && k <= r.stages
    ensures k <= m <= r.stages
    ensures forall j :: k <= j < m ==> r.stalled[j] && !r.busy[j]
    ensures m < r.stages ==> r.busy[m] || !r.stalled[m]
    decreases r.stages - k
  {
    if k == r.stages || r.busy[k] || !r.stalled[k] then k else SkipStalled(r, k + 1)
  }

  function CheckFinished<T>(f: Fifo<T>): (g: Fifo<T>)
    requires f.Shape()
    ensures g.Shape() && g.ring == f.ring
  {
    if !f.active then f
    else
      var k := SkipStalled(f.ring, f.stallIndex);
      if k == f.ring.stages then f.(stallIndex := k, active := false, finished := f.finished + 1)
      else f.(stallIndex := k)
  }

  // ----- the public operations -----

  function ReadBase(n: nat, i: nat): int {
    if i == 0 then n - 2 else n - 1 - i
  }

  function WriteBase(n: nat, i: nat): int {
    if i == n - 1 then 0 else n - 2 - i
  }

  /** `fresh(k)` for k < n, the old value beyond. */
  function Reinit<A>(old_: seq<A>, n: nat, fresh_: nat -> A): (s: seq<A>)
    ensures |s| == |old_|
    ensures forall k :: 0 <= k < |s| ==> s[k] == if k < n then fresh_(k) else old_[k]
  {
    seq(|old_|, k requires 0 <= k < |old_| => if k < n then fresh_(k) else old_[k])
  }

  /** The ring ready for a new transfer, before stage 0 is started; sizes are cleared and the first
      stage's slot gets `firstSize`. */
  function Reset<T>(r: Ring<T>, firstSize: int): (s: Ring<T>)
    requires r.Shape()
    ensures s.Shape() && s.stages == r.stages && s.depth == r.depth
  {
    var n := r.stages;
    var cleared := seq(MAX_BUFFERS, k requires 0 <= k < MAX_BUFFERS =>
                       if k < r.depth then r.slots[k].(size := 0) else r.slots[k]);
    r.(slots := cleared[n - 2 := cleared[n - 2].(size := firstSize)],
       busy := Reinit(r.busy, n, _ => false),
       stalled := Reinit(r.stalled, n, _ => false),
       read := Reinit(r.read, n, k => ReadBase(n, k)),
       write := Reinit(r.write, n, k => WriteBase(n, k)),
       done := seq(MAX_STAGES, _ => 0),
       flight := seq(MAX_STAGES, _ => false),
       received := seq(MAX_STAGES, _ => []),
       produced := seq(MAX_STAGES, _ => []))
  }

  function Start<T>(f: Fifo<T>, firstSize: int): (g: Fifo<T>)
    requires f.Shape()
    ensures g.Shape() && g.ring.stages == f.ring.stages && g.ring.depth == f.ring.depth
  {
    Fifo(Exec(Reset(f.ring, firstSize), 0), true, 0, 0)
  }

  function Complete<T>(f: Fifo<T>, i: nat, len: int, word: int): (g: Fifo<T>)
    requires f.Shape() && f.ring.Stage(i)
    ensures g.Shape() && g.ring == Finish(f.ring, i, len, word)
  {
    CheckFinished(f.(ring := Finish(f.ring, i, len, word)))
  }

  datatype Event<T> =
    | Moved(stage: nat, data: T)              // the stage's hardware wrote to its slot
    | Stalled(stage: nat)                     // the stage reported its last item
    | Completed(stage: nat, len: int, word: int)

  /** What the stages may do: move data and stall only while running, complete only what they started.
      Stalling and completing are separate steps, so anything may happen between them. */
  ghost predicate Enabled<T>(r: Ring<T>, e: Event<T>)
    requires r.Shape()
  {
    && e.stage < r.stages
    && (if e.Completed? then r.flight[e.stage] else r.busy[e.stage])
  }

  function ApplyToRing<T>(r: Ring<T>, e: Event<T>): (s: Ring<T>)
    requires r.Stage(e.stage)
    ensures s.Stage(e.stage) && s.stages == r.stages && s.depth == r.depth
  {
    match e
    case Moved(i, data) => Transfer(r, i, data)
    case Stalled(i) => StallStage(r, i)
    case Completed(i, len, word) => Finish(r, i, len, word)
  }

  function Apply<T>(f: Fifo<T>, e: Event<T>): (g: Fifo<T>)
    requires f.Shape() && f.ring.Stage(e.stage)
    ensures g.Shape() && g.ring == ApplyToRing(f.ring, e)
  {
    var g := f.(ring := ApplyToRing(f.ring, e));
    if e.Completed? then CheckFinished(g) else g
  }

  ghost predicate Run<T>(states: seq<Fifo<T>>, events: seq<Event<T>>) {
    && |states| == |events| + 1
    && (forall k :: 0 <= k < |states| ==> states[k].Shape())
    && (forall k :: 0 <= k < |events| ==>
         Enabled(states[k].ring, events[k]) && states[k + 1] == Apply(states[k], events[k]))
  }

  /** A run of the pipeline from a start. */
  ghost predicate StartedRun<T>(states: seq<Fifo<T>>, events: seq<Event<T>>, f: Fifo<T>, firstSize: int)
    requires f.Shape()
  {
    Run(states, events) && states[0] == Start(f, firstSize)
  }
}
