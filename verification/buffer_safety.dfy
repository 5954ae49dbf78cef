/** What every run of the buffer pipeline keeps: items are handed from stage to stage in order and
    unchanged, and no two stages ever meet in a slot. */
module BufferSafety {
  import opened Arithmetic
  import opened BufferManager

  // Each part of the invariant is a predicate on just the fields it is about, so that a step that
  // leaves those fields alone keeps it.

  ghost predicate IndexesCount(n: nat, read: seq<int>, write: seq<int>, done: seq<nat>) {
    && n <= MAX_STAGES == |read| == |write| == |done|
    && (forall i :: 0 <= i < n ==> read[i] == ReadBase(n, i) + done[i])
    && (forall i :: 0 <= i < n ==> write[i] == WriteBase(n, i) + done[i])
  }

  /** The stage before i has produced the item stage i needs next, or, for stage 0, the ring has room
      for one more item between the first and the last stage. */
  ghost predicate Fed(n: nat, depth: nat, done: seq<nat>, i: nat)
    requires 2 <= n <= |done| && i < n
  {
    if i == 0 then done[0] - done[n - 1] < depth - n + 2 else done[i] < done[i - 1]
  }

  ghost predicate CountsDescend(n: nat, depth: nat, done: seq<nat>, flight: seq<bool>) {
    && 2 <= n <= MAX_STAGES == |done| == |flight|
    && (forall i, j :: 0 <= i <= j < n ==> done[j] <= done[i])
    && done[0] - done[n - 1] <= depth - n + 2
    && (forall i :: 0 <= i < n && flight[i] ==> Fed(n, depth, done, i))
  }

  /** A stage in flight is running or has stalled; nothing else runs. */
  ghost predicate FlagsAgree(n: nat, flight: seq<bool>, busy: seq<bool>, stalled: seq<bool>) {
    && n <= MAX_STAGES == |flight| == |busy| == |stalled|
    && (forall i :: 0 <= i < n ==> (busy[i] ==> flight[i]) && (flight[i] && !busy[i] ==> stalled[i]))
  }

  /** The log of what each stage was given is a prefix of what the stage before it produced. */
  ghost predicate HandedOn<T>(n: nat, done: seq<nat>, flight: seq<bool>, received: seq<seq<T>>, produced: seq<seq<T>>) {
    && n <= MAX_STAGES == |done| == |flight| == |received| == |produced|
    && (forall i :: 0 <= i < n ==> |produced[i]| == done[i])
    && (forall i :: 0 <= i < n ==> |received[i]| == done[i] + if flight[i] then 1 else 0)
    && (forall i :: 0 < i < n ==> received[i] <= produced[i - 1])
  }

  /** Item k of stage i still lies in the ring: the next stage has not completed it. The last stage
      works in place, so what it is working on no longer counts. */
  ghost predicate Kept(n: nat, done: seq<nat>, flight: seq<bool>, i: nat, k: nat)
    requires i + 1 < n <= |done| == |flight|
  {
    done[i + 1] <= k < done[i] && !(i + 2 == n && flight[i + 1] && k == done[i + 1])
  }

  ghost predicate InPlace<T>(n: nat, depth: nat, slots: seq<T>, produced: seq<seq<T>>, i: nat, k: nat)
    requires 1 <= depth <= |slots|
  {
    && i < |produced|
    && k < |produced[i]|
    && slots[Slot(n - 2 - i + k, depth)] == produced[i][k]
  }

  ghost predicate Stored<T>(n: nat, depth: nat, slots: seq<T>, done: seq<nat>, flight: seq<bool>,
      produced: seq<seq<T>>) {
    && n <= MAX_STAGES == |done| == |flight| == |produced|
    && 1 <= depth <= MAX_BUFFERS == |slots|
    && (forall i: nat, k: nat | i + 1 < n && Kept(n, done, flight, i, k) :: InPlace(n, depth, slots, produced, i, k))
  }

  ghost predicate Indexed<T>(r: Ring<T>) {
    IndexesCount(r.stages, r.read, r.write, r.done)
  }

  ghost predicate Ordered<T>(r: Ring<T>) {
    CountsDescend(r.stages, r.depth, r.done, r.flight)
  }

  ghost predicate Flagged<T>(r: Ring<T>) {
    FlagsAgree(r.stages, r.flight, r.busy, r.stalled)
  }

  ghost predicate Logged<T>(r: Ring<T>) {
    HandedOn(r.stages, r.done, r.flight, r.received, r.produced)
  }

  ghost predicate Filled<T>(r: Ring<T>) {
    Stored(r.stages, r.depth, r.slots, r.done, r.flight, r.produced)
  }

  ghost predicate Inv<T>(r: Ring<T>) {
    r.Shape() && r.depth >= r.stages - 1 && Indexed(r) && Ordered(r) && Flagged(r) && Logged(r) && Filled(r)
  }

  // ----- arithmetic of the ring -----

  lemma NearbyIndexesDiffer(a: int, b: int, depth: nat)
    requires depth > 0 && a != b && a - b < depth && b - a < depth
    ensures Slot(a, depth) != Slot(b, depth)
  {
    if a % depth == b % depth {
      EqualRemainders(a, b, depth);
      assert false;
    }
  }

  lemma EqualRemainders(a: int, b: int, depth: nat)
    requires depth > 0 && a != b && a % depth == b % depth
    ensures a - b >= depth || b - a >= depth
  {
    var p, q := a / depth, b / depth;
    assert a == depth * p + a % depth && b == depth * q + b % depth;
    if p > q {
      MultiplesApart(depth, q, p);
    } else if p < q {
      MultiplesApart(depth, p, q);
    }
  }

  /** A slot being written holds no item that is still to be read. */
  lemma WriteSlotIsFree<T>(r: Ring<T>, i: nat, j: nat, k: nat)
    requires r.Stage(i) && r.depth >= r.stages - 1 && Indexed(r) && Ordered(r) && r.flight[i]
    requires j + 1 < r.stages && Kept(r.stages, r.done, r.flight, j, k)
    ensures Slot(r.stages - 2 - j + k, r.depth) != Slot(r.write[i], r.depth)
  {
    hide Slot;
    var n := r.stages;
    assert Fed(n, r.depth, r.done, i);
    assert r.done[n - 1] <= r.done[j + 1] && r.done[j] <= r.done[0];
    if j >= i {
      assert r.done[j] <= r.done[i];
    } else {
      assert r.done[i] <= r.done[j + 1];
    }
    NearbyIndexesDiffer(n - 2 - j + k, r.write[i], r.depth);
  }

  // ----- each piece of a step -----

  lemma FlyingWhenBusy<T>(r: Ring<T>, i: nat)
    requires Flagged(r) && r.Stage(i)
    ensures r.busy[i] ==> r.flight[i]
    ensures r.flight[i] ==> r.busy[i] || r.stalled[i]
  {
  }

  lemma TransferKeepsInv<T>(r: Ring<T>, i: nat, data: T)
    requires Inv(r) && r.Stage(i) && r.busy[i]
    ensures Inv(Transfer(r, i, data))
  {
    hide Slot, IndexesCount, CountsDescend, HandedOn, FlagsAgree;
    var s := Transfer(r, i, data);
    FlyingWhenBusy(r, i);
    forall j: nat, k: nat | j + 1 < s.stages && Kept(s.stages, s.done, s.flight, j, k)
      ensures InPlace(s.stages, s.depth, s.slots, s.produced, j, k)
    {
      WriteSlotIsFree(r, i, j, k);
    }
  }

  lemma StallKeepsInv<T>(r: Ring<T>, i: nat)
    requires Inv(r) && r.Stage(i)
    ensures Inv(StallStage(r, i))
  {
    hide IndexesCount, CountsDescend, HandedOn, Stored;
  }

  lemma AdvanceKeepsIndexed<T>(r: Ring<T>, i: nat, len: int, word: int)
    requires Indexed(r) && r.Stage(i)
    ensures Indexed(Advance(r, i, len, word))
  {
    hide Slot, Recorded;
  }

  lemma AdvanceKeepsOrdered<T>(r: Ring<T>, i: nat, len: int, word: int)
    requires Ordered(r) && Flagged(r) && r.Stage(i) && r.flight[i]
    ensures Ordered(Advance(r, i, len, word)) && Flagged(Advance(r, i, len, word))
  {
    hide Slot, Recorded;
    assert Fed(r.stages, r.depth, r.done, i);
  }

  lemma AdvanceKeepsLogged<T>(r: Ring<T>, i: nat, len: int, word: int)
    requires Logged(r) && r.Stage(i) && r.flight[i]
    ensures Logged(Advance(r, i, len, word))
  {
    hide Slot, Recorded;
  }

  /** After a completion every item still in the ring is where it was, and the new one where it was put. */
  lemma AdvanceKeepsItem<T>(r: Ring<T>, i: nat, len: int, word: int, j: nat, k: nat)
    requires Inv(r) && r.Stage(i) && r.flight[i] && j + 1 < r.stages
    requires Kept(r.stages, Advance(r, i, len, word).done, Advance(r, i, len, word).flight, j, k)
    ensures InPlace(r.stages, r.depth, Advance(r, i, len, word).slots, Advance(r, i, len, word).produced, j, k)
  {
    hide Slot, Recorded, CountsDescend, FlagsAgree;
    assert r.write[i] == WriteBase(r.stages, i) + r.done[i];
    assert |r.produced[i]| == r.done[i];
    hide IndexesCount, HandedOn;
    if j != i || k != r.done[i] {
      assert Kept(r.stages, r.done, r.flight, j, k) by { hide Stored; }
      assert InPlace(r.stages, r.depth, r.slots, r.produced, j, k);
      WriteSlotIsFree(r, i, j, k);
      hide Inv, Stored, Kept;
    } else {
      hide Inv, Stored, Kept;
    }
  }

  lemma AdvanceKeepsFilled<T>(r: Ring<T>, i: nat, len: int, word: int)
    requires Inv(r) && r.Stage(i) && r.flight[i]
    ensures Filled(Advance(r, i, len, word))
  {
    hide Slot, Recorded, IndexesCount, CountsDescend, FlagsAgree, HandedOn, Kept, InPlace;
    var s := Advance(r, i, len, word);
    forall j: nat, k: nat | j + 1 < s.stages && Kept(s.stages, s.done, s.flight, j, k)
      ensures InPlace(s.stages, s.depth, s.slots, s.produced, j, k)
    {
      AdvanceKeepsItem(r, i, len, word, j, k);
    }
  }

  lemma AdvanceKeepsInv<T>(r: Ring<T>, i: nat, len: int, word: int)
    requires Inv(r) && r.Stage(i) && r.flight[i]
    ensures Inv(Advance(r, i, len, word))
  {
    hide Slot, Recorded, IndexesCount, CountsDescend, HandedOn, FlagsAgree, Stored;
    AdvanceKeepsIndexed(r, i, len, word);
    AdvanceKeepsOrdered(r, i, len, word);
    AdvanceKeepsLogged(r, i, len, word);
    AdvanceKeepsFilled(r, i, len, word);
  }

  /** The test on raw indexes means what it should. */
  lemma ReadyStageIsFed<T>(r: Ring<T>, i: nat)
    requires r.Stage(i) && Indexed(r) && Ordered(r)
    ensures StageStalled(r, i) <==> r.busy[i] || r.stalled[i] || !Fed(r.stages, r.depth, r.done, i)
  {
    if i > 0 {
      assert r.done[i] <= r.done[i - 1];
    }
  }

  lemma ExecKeepsOrdered<T>(r: Ring<T>, i: nat)
    requires r.Stage(i) && Ordered(r) && Flagged(r) && Fed(r.stages, r.depth, r.done, i)
    ensures Ordered(Exec(r, i)) && Flagged(Exec(r, i))
  {
    hide Slot;
  }

  lemma ExecKeepsLogged<T>(r: Ring<T>, i: nat)
    requires Logged(r) && r.Stage(i) && !r.flight[i]
    requires i > 0 ==> r.done[i] < r.done[i - 1] && r.slots[Slot(r.read[i], r.depth)] == r.produced[i - 1][r.done[i]]
    ensures Logged(Exec(r, i))
  {
    hide Slot;
    var s := Exec(r, i);
    if i > 0 {
      assert s.received[i] <= s.produced[i - 1];
    }
  }

  lemma ExecKeepsFilled<T>(r: Ring<T>, i: nat)
    requires r.Stage(i) && Filled(r)
    ensures Filled(Exec(r, i))
  {
    hide Slot;
    var s := Exec(r, i);
    forall j: nat, k: nat | j + 1 < s.stages && Kept(s.stages, s.done, s.flight, j, k)
      ensures InPlace(s.stages, s.depth, s.slots, s.produced, j, k)
    {
      assert Kept(r.stages, r.done, r.flight, j, k);
    }
  }

  /** The slot a stage is about to read holds the item it needs. */
  lemma NextItemIsStored<T>(r: Ring<T>, i: nat)
    requires Inv(r) && r.Stage(i) && 0 < i && r.done[i] < r.done[i - 1]
    requires i == r.stages - 1 ==> !r.flight[i]
    ensures r.slots[Slot(r.read[i], r.depth)] == r.produced[i - 1][r.done[i]]
  {
    assert r.read[i] == ReadBase(r.stages, i) + r.done[i];
    hide Slot, IndexesCount, CountsDescend, HandedOn, FlagsAgree;
    assert Kept(r.stages, r.done, r.flight, i - 1, r.done[i]);
  }

  lemma WakeKeepsInv<T>(r: Ring<T>, i: nat)
    requires Inv(r) && r.Stage(i)
    ensures Inv(Wake(r, i))
  {
    if !StageStalled(r, i) {
      FlyingWhenBusy(r, i);
      hide Slot, IndexesCount, CountsDescend, HandedOn, FlagsAgree, Stored;
      ReadyStageIsFed(r, i);
      ExecKeepsOrdered(r, i);
      if i > 0 {
        NextItemIsStored(r, i);
      }
      ExecKeepsLogged(r, i);
      ExecKeepsFilled(r, i);
    }
  }

  lemma FinishKeepsInv<T>(r: Ring<T>, i: nat, len: int, word: int)
    requires Inv(r) && r.Stage(i) && r.flight[i]
    ensures Inv(Finish(r, i, len, word))
  {
    hide Slot, IndexesCount, CountsDescend, HandedOn, FlagsAgree, Stored, Recorded;
    AdvanceKeepsInv(r, i, len, word);
    var s := Advance(r, i, len, word);
    WakeKeepsInv(s, i);
    WakeKeepsInv(Wake(s, i), Next(r.stages, i));
  }

  /** Safety of one step. */
  lemma StepKeepsInv<T>(r: Ring<T>, e: Event<T>)
    requires Inv(r) && Enabled(r, e)
    ensures Inv(ApplyToRing(r, e))
  {
    assert r.Shape();
    hide Inv, Transfer, StallStage, Finish;
    match e
    case Moved(i, data) => TransferKeepsInv(r, i, data);
    case Stalled(i) => StallKeepsInv(r, i);
    case Completed(i, len, word) => FinishKeepsInv(r, i, len, word);
  }

  lemma ResetEstablishesInv<T>(r: Ring<T>, firstSize: int)
    requires r.Shape() && r.depth >= r.stages - 1
    ensures Inv(Reset(r, firstSize))
  {
    hide Slot;
  }

  lemma StartEstablishesInv<T>(f: Fifo<T>, firstSize: int)
    requires f.Shape() && f.ring.depth >= f.ring.stages - 1
    ensures Inv(Start(f, firstSize).ring)
  {
    hide Slot, Inv;
    var r := Reset(f.ring, firstSize);
    ResetEstablishesInv(f.ring, firstSize);
    assert !StageStalled(r, 0);
    WakeKeepsInv(r, 0);
  }

  lemma {:induction false} RunKeepsInv<T>(states: seq<Fifo<T>>, events: seq<Event<T>>, k: nat)
    requires Run(states, events) && Inv(states[0].ring) && k < |states|
    ensures Inv(states[k].ring)
  {
    hide Inv, ApplyToRing;
    if k > 0 {
      RunKeepsInv(states, events, k - 1);
      StepKeepsInv(states[k - 1].ring, events[k - 1]);
    }
  }

  // ----- what is recorded -----

  /** Stage 0 is first given a slot with the size the caller names, unless the ring is too small: the size goes to
      the raw index, and the slot read is then another one. */
  lemma FirstItemSize<T>(f: Fifo<T>, firstSize: int)
    requires f.Shape()
    ensures var r := Start(f, firstSize).ring;
      && r.busy[0] && r.flight[0] && |r.received[0]| == 1
      && r.received[0][0].size == (if f.ring.depth >= f.ring.stages - 1 then firstSize else 0)
      && (forall k :: 0 <= k < f.ring.depth && k != f.ring.stages - 2 ==> r.slots[k].size == 0)
  {
    var n, depth := f.ring.stages, f.ring.depth;
    if depth >= n - 1 {
      assert Slot(n - 2, depth) == n - 2;
    } else {
      assert Slot(n - 2, depth) < depth <= n - 2;
    }
    hide Slot;
  }

  /** A completed item is the bytes in its slot with the length and the word reported; a negative length leaves
      both as they were. */
  lemma CompletedItem<T>(r: Ring<T>, i: nat, len: int, word: int)
    requires r.Stage(i)
    ensures var t, was := Finish(r, i, len, word), r.slots[Slot(r.write[i], r.depth)];
      && |t.produced[i]| == |r.produced[i]| + 1
      && t.produced[i][..|r.produced[i]|] == r.produced[i]
      && var item := t.produced[i][|r.produced[i]|];
      && item.data == was.data
      && item.size == (if len >= 0 then len else was.size)
      && item.word == (if len >= 0 then word else was.word)
  {
    hide Slot, StageStalled;
  }

  // ----- slot exclusion -----

  ghost predicate Apart<T>(r: Ring<T>, i: nat, j: nat)
    requires r.Stage(i) && r.Stage(j)
  {
    && Slot(r.write[i], r.depth) != Slot(r.write[j], r.depth)
    && Slot(r.write[i], r.depth) != Slot(r.read[j], r.depth)
  }

  /** No slot that a running stage writes is read or written by another running stage; only the first
      and the last stage use one slot for both. */
  ghost predicate Exclusive<T>(r: Ring<T>) {
    && r.Shape()
    && (forall i: nat, j: nat :: i < r.stages && j < r.stages && i != j && r.busy[i] && r.busy[j] ==> Apart(r, i, j))
    && (forall i: nat :: i < r.stages ==>
         (Slot(r.read[i], r.depth) != Slot(r.write[i], r.depth) <==> 0 < i < r.stages - 1))
  }

  lemma StagesApart<T>(r: Ring<T>, i: nat, j: nat)
    requires r.depth >= r.stages - 1 && Indexed(r) && Ordered(r)
    requires r.Stage(i) && r.Stage(j) && i != j && r.flight[i] && r.flight[j]
    ensures Apart(r, i, j)
  {
    hide Slot;
    var n := r.stages;
    assert Fed(n, r.depth, r.done, i) && Fed(n, r.depth, r.done, j);
    assert r.done[n - 1] <= r.done[i] <= r.done[0] && r.done[n - 1] <= r.done[j] <= r.done[0];
    if i < j {
      assert r.done[j - 1] <= r.done[i];
    } else {
      assert r.done[i - 1] <= r.done[j];
    }
    NearbyIndexesDiffer(r.write[i], r.write[j], r.depth);
    NearbyIndexesDiffer(r.write[i], r.read[j], r.depth);
  }

  lemma OnlyEndStagesWorkInPlace<T>(r: Ring<T>, i: nat)
    requires r.depth >= r.stages - 1 && Indexed(r) && r.Stage(i)
    ensures Slot(r.read[i], r.depth) != Slot(r.write[i], r.depth) <==> 0 < i < r.stages - 1
  {
    hide Slot;
    if 0 < i < r.stages - 1 {
      NearbyIndexesDiffer(r.read[i], r.write[i], r.depth);
    }
  }

  lemma InvExcludes<T>(r: Ring<T>)
    requires Inv(r)
    ensures Exclusive(r)
  {
    hide Slot, Apart, IndexesCount, CountsDescend, HandedOn, Stored;
    forall i: nat, j: nat | i < r.stages && j < r.stages && i != j && r.busy[i] && r.busy[j]
      ensures Apart(r, i, j)
    {
      StagesApart(r, i, j);
    }
    forall i: nat | i < r.stages
      ensures Slot(r.read[i], r.depth) != Slot(r.write[i], r.depth) <==> 0 < i < r.stages - 1
    {
      OnlyEndStagesWorkInPlace(r, i);
    }
  }

  /** The indexes after the first completion, which starts stages 0 and 1 if the ring is too small. */
  lemma AfterFirstCompletion<T>(r: Ring<T>, len: int, word: int)
    requires r.Shape() && Indexed(r) && r.depth < r.stages - 1
    requires forall i :: 0 <= i < r.stages ==> r.done[i] == 0 && !r.stalled[i] && (r.busy[i] <==> i == 0)
    ensures var t := Finish(r, 0, len, word);
      && t.Shape() && t.depth == r.depth && t.stages == r.stages && t.busy[0] && t.busy[1]
      && t.write[0] == r.stages - 1 && t.read[1] == r.stages - 2 && t.write[1] == r.stages - 3
  {
    hide Slot;
    assert Next(r.stages, 0) == 1;
    assert r.write[0] == r.stages - 2 && r.read[r.stages - 1] == 0 && r.read[1] == r.stages - 2;
    var s := Advance(r, 0, len, word);
    assert !StageStalled(s, 0);
    assert !StageStalled(Wake(s, 0), 1);
  }

  /** With fewer slots than stages less one, the very first completion makes two stages collide. */
  lemma TooFewSlotsCollide<T>(f: Fifo<T>, firstSize: int, len: int, word: int)
    requires f.Shape() && f.ring.depth < f.ring.stages - 1
    ensures Enabled(Start(f, firstSize).ring, Completed(0, len, word))
    ensures !Exclusive(Finish(Start(f, firstSize).ring, 0, len, word))
  {
    var s := Start(f, firstSize).ring;
    var n, b := s.stages, s.depth;
    AfterFirstCompletion(s, len, word);
    var t := Finish(s, 0, len, word);
    hide Finish, Start;
    assert !Apart(t, 0, 1) by {
      if b == 1 {
        assert Slot(t.write[0], b) == 0 == Slot(t.read[1], b);
      } else {
        assert n == 4 && b == 2;
        assert Slot(3, 2) == 1 == Slot(1, 2);
      }
    }
  }

  /** Slot exclusion holds in every run exactly when the ring has at least `stages - 1` slots. */
  lemma ExclusionExactlyWhen<T(!new)>(f: Fifo<T>, firstSize: int)
    requires f.Shape()
    ensures (forall states: seq<Fifo<T>>, events: seq<Event<T>> :: StartedRun(states, events, f, firstSize) ==>
               Exclusive(states[|events|].ring))
            <==> f.ring.depth >= f.ring.stages - 1
  {
    hide Exclusive, Inv, Start, Finish;
    if f.ring.depth >= f.ring.stages - 1 {
      forall states: seq<Fifo<T>>, events: seq<Event<T>> | StartedRun(states, events, f, firstSize)
        ensures Exclusive(states[|events|].ring)
      {
        StartEstablishesInv(f, firstSize);
        RunKeepsInv(states, events, |events|);
        InvExcludes(states[|events|].ring);
      }
    } else {
      var s := Start(f, firstSize);
      var e := Completed(0, 0, 0);
      TooFewSlotsCollide(f, firstSize, 0, 0);
      var t := Apply(s, e);
      assert StartedRun([s, t], [e], f, firstSize);
      assert [s, t][|[e]|] == t;
    }
  }

  // ----- hand-over: the pipeline refines sequential processing -----

  /** While a middle stage runs, the slot it reads holds exactly the item it was started with, which is
      the one the stage before it produced. */
  lemma MiddleStageReadsItsItem<T>(r: Ring<T>, i: nat)
    requires Inv(r) && r.Stage(i) && 0 < i < r.stages - 1 && r.flight[i]
    ensures r.slots[Slot(r.read[i], r.depth)] == r.produced[i - 1][r.done[i]] == r.received[i][r.done[i]]
  {
    assert Fed(r.stages, r.depth, r.done, i);
    NextItemIsStored(r, i);
    assert r.received[i] <= r.produced[i - 1];
  }

  /** The last stage works in place; until it writes there itself, its slot holds the item it was started with. */
  ghost predicate LastUndisturbed<T>(r: Ring<T>)
    requires r.Shape()
  {
    var last := r.stages - 1;
    r.flight[last] ==> (
      && |r.received[last]| > 0
      && r.slots[Slot(r.read[last], r.depth)] == r.received[last][|r.received[last]| - 1])
  }

  /** What stage i does to its slot touches neither slot of another stage in flight. */
  lemma OtherSlotsUntouched<T>(r: Ring<T>, slots: seq<Item<T>>, i: nat, j: nat)
    requires Inv(r) && r.Stage(i) && r.Stage(j) && i != j && r.flight[i] && r.flight[j]
    requires |slots| == |r.slots|
    requires forall k :: 0 <= k < |slots| && k != Slot(r.write[i], r.depth) ==> slots[k] == r.slots[k]
    ensures slots[Slot(r.write[j], r.depth)] == r.slots[Slot(r.write[j], r.depth)]
    ensures slots[Slot(r.read[j], r.depth)] == r.slots[Slot(r.read[j], r.depth)]
  {
    hide Slot, IndexesCount, CountsDescend, HandedOn, Stored, FlagsAgree;
    StagesApart(r, i, j);
  }

  lemma TransferLeavesLast<T>(r: Ring<T>, i: nat, data: T)
    requires Inv(r) && r.Stage(i) && r.flight[i] && i != r.stages - 1 && LastUndisturbed(r)
    ensures LastUndisturbed(Transfer(r, i, data))
  {
    hide Slot, IndexesCount, CountsDescend, HandedOn, Stored, FlagsAgree;
    if r.flight[r.stages - 1] {
      OtherSlotsUntouched(r, Transfer(r, i, data).slots, i, r.stages - 1);
    }
  }

  lemma AdvanceLeavesLast<T>(r: Ring<T>, i: nat, len: int, word: int)
    requires Inv(r) && r.Stage(i) && r.flight[i] && LastUndisturbed(r)
    ensures LastUndisturbed(Advance(r, i, len, word))
  {
    hide Slot, IndexesCount, CountsDescend, HandedOn, Stored, FlagsAgree, Recorded;
    if r.flight[r.stages - 1] && i != r.stages - 1 {
      OtherSlotsUntouched(r, Advance(r, i, len, word).slots, i, r.stages - 1);
    }
  }

  lemma FinishLeavesLast<T>(r: Ring<T>, i: nat, len: int, word: int)
    requires Inv(r) && r.Stage(i) && r.flight[i] && LastUndisturbed(r)
    ensures LastUndisturbed(Finish(r, i, len, word))
  {
    hide Slot, IndexesCount, CountsDescend, HandedOn, Stored, FlagsAgree, Recorded, Advance, Inv;
    AdvanceLeavesLast(r, i, len, word);
  }

  lemma StepLeavesLast<T>(r: Ring<T>, e: Event<T>)
    requires Inv(r) && Enabled(r, e) && LastUndisturbed(r) && (e.Moved? ==> e.stage != r.stages - 1)
    ensures LastUndisturbed(ApplyToRing(r, e))
  {
    assert r.Shape();
    FlyingWhenBusy(r, e.stage);
    match e
    case Moved(i, data) => hide Inv, LastUndisturbed, Transfer; TransferLeavesLast(r, i, data);
    case Stalled(i) => hide Inv, Slot;
    case Completed(i, len, word) => hide Inv, LastUndisturbed, Finish; FinishLeavesLast(r, i, len, word);
  }

  /** The last stage only reads its slot. */
  ghost predicate LastOnlyReads<T>(events: seq<Event<T>>, stages: nat) {
    forall k :: 0 <= k < |events| && events[k].Moved? ==> events[k].stage != stages - 1
  }

  lemma {:induction false} RunLeavesLast<T>(states: seq<Fifo<T>>, events: seq<Event<T>>, f: Fifo<T>,
      firstSize: int, k: nat)
    requires f.Shape() && f.ring.depth >= f.ring.stages - 1
    requires StartedRun(states, events, f, firstSize) && k < |states| && LastOnlyReads(events, f.ring.stages)
    ensures Inv(states[k].ring) && states[k].ring.stages == f.ring.stages && LastUndisturbed(states[k].ring)
  {
    hide Inv, ApplyToRing, LastUndisturbed, Start;
    StartEstablishesInv(f, firstSize);
    RunKeepsInv(states, events, k);
    if k > 0 {
      RunLeavesLast(states, events, f, firstSize, k - 1);
      StepLeavesLast(states[k - 1].ring, events[k - 1]);
    } else {
      StartLeavesLast(f, firstSize);
    }
  }

  lemma StartLeavesLast<T>(f: Fifo<T>, firstSize: int)
    requires f.Shape()
    ensures Start(f, firstSize).ring.stages == f.ring.stages && LastUndisturbed(Start(f, firstSize).ring)
  {
    hide Slot;
  }

  /** In every run, while a stage is at work, the slot it reads holds exactly the item it was started with,
      which is the one the stage before it produced. */
  lemma RunningStageReadsItsItem<T>(states: seq<Fifo<T>>, events: seq<Event<T>>, f: Fifo<T>, firstSize: int,
      k: nat, i: nat)
    requires f.Shape() && f.ring.depth >= f.ring.stages - 1
    requires StartedRun(states, events, f, firstSize) && k < |states| && 0 < i < f.ring.stages
    requires i == f.ring.stages - 1 ==> LastOnlyReads(events, f.ring.stages)
    ensures var r := states[k].ring;
      && Inv(r) && r.Stage(i)
      && (r.flight[i] ==> r.slots[Slot(r.read[i], r.depth)] == r.produced[i - 1][r.done[i]] == r.received[i][r.done[i]])
  {
    hide Start, ApplyToRing, Slot, IndexesCount, Stored;
    StartEstablishesInv(f, firstSize);
    RunKeepsInv(states, events, k);
    RunKeepsStages(states, events, k);
    var r := states[k].ring;
    if i == r.stages - 1 {
      RunLeavesLast(states, events, f, firstSize, k);
    } else if r.flight[i] {
      MiddleStageReadsItsItem(r, i);
    }
    if r.flight[i] {
      assert r.received[i] <= r.produced[i - 1];
    }
  }

  lemma {:induction false} RunKeepsStages<T>(states: seq<Fifo<T>>, events: seq<Event<T>>, k: nat)
    requires Run(states, events) && k < |states|
    ensures states[k].ring.stages == states[0].ring.stages
  {
    hide ApplyToRing;
    if k > 0 {
      RunKeepsStages(states, events, k - 1);
    }
  }

  /** In every run, the k-th item a stage is started with is the k-th the stage before it produced. */
  lemma HandOverInOrder<T>(states: seq<Fifo<T>>, events: seq<Event<T>>, f: Fifo<T>, firstSize: int, k: nat)
    requires f.Shape() && f.ring.depth >= f.ring.stages - 1
    requires StartedRun(states, events, f, firstSize) && k < |states|
    ensures Logged(states[k].ring)
  {
    hide Start, ApplyToRing;
    StartEstablishesInv(f, firstSize);
    RunKeepsInv(states, events, k);
  }

  /** What each stage does on its own: stage i turns the k-th item it is given into `work(i, k, item)`, and
      stage 0 takes its items from `source`. Nothing is said about what a stage is given. */
  ghost predicate Works<T>(r: Ring<T>, work: (nat, nat, Item<T>) -> Item<T>, source: nat -> Item<T>) {
    && r.Shape()
    && (forall k: nat :: k < |r.produced[0]| ==> r.produced[0][k] == source(k))
    && (forall i: nat, k: nat :: 0 < i < r.stages && k < |r.produced[i]| && k < |r.received[i]| ==>
         r.produced[i][k] == work(i, k, r.received[i][k]))
  }

  /** The k-th source item taken through stages 1 to i one after the other. */
  function Sequentially<T>(work: (nat, nat, Item<T>) -> Item<T>, source: nat -> Item<T>, i: nat, k: nat): Item<T> {
    if i == 0 then source(k) else work(i, k, Sequentially(work, source, i - 1, k))
  }

  lemma {:induction false} SequentialSoFar<T>(
      r: Ring<T>, work: (nat, nat, Item<T>) -> Item<T>, source: nat -> Item<T>, i: nat, k: nat)
    requires Inv(r) && Works(r, work, source) && r.Stage(i) && k < |r.produced[i]|
    ensures r.produced[i][k] == Sequentially(work, source, i, k)
  {
    hide Slot, Stored, IndexesCount, FlagsAgree;
    if i > 0 {
      assert |r.produced[i]| == r.done[i] <= r.done[i - 1] == |r.produced[i - 1]|;
      SequentialSoFar(r, work, source, i - 1, k);
      assert r.received[i] <= r.produced[i - 1] && k < |r.received[i]|;
    }
  }

  /** In every run, whatever the order of completions, stages that each do their own work make the k-th output
      of every stage, and so of the last, the k-th source item taken through the stages in turn: the pipeline
      sees to it that each is given what the one before it put out. */
  lemma PipelineRefinesSequential<T>(states: seq<Fifo<T>>, events: seq<Event<T>>, f: Fifo<T>, firstSize: int,
      work: (nat, nat, Item<T>) -> Item<T>, source: nat -> Item<T>, i: nat, k: nat)
    requires f.Shape() && f.ring.depth >= f.ring.stages - 1
    requires StartedRun(states, events, f, firstSize) && Works(states[|events|].ring, work, source)
    requires states[|events|].ring.Stage(i) && k < |states[|events|].ring.produced[i]|
    ensures states[|events|].ring.produced[i][k] == Sequentially(work, source, i, k)
  {
    hide Start, ApplyToRing, Inv, Works;
    StartEstablishesInv(f, firstSize);
    RunKeepsInv(states, events, |events|);
    SequentialSoFar(states[|events|].ring, work, source, i, k);
  }
}
