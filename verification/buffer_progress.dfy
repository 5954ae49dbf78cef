/** Progress of the buffer pipeline when every stage stalls on its `total`-th item: some stage always
    has work under way until all have done `total` items, and the end is reported exactly once. */
module BufferProgress {
  import opened BufferManager
  import opened BufferSafety

  /** What the drivers do: report the stall on the last item and on no other, before completing it. */
  ghost predicate Disciplined<T>(r: Ring<T>, e: Event<T>, total: nat)
    requires r.Shape()
  {
    && Enabled(r, e)
    && (e.Stalled? ==> r.done[e.stage] + 1 == total)
    && (e.Completed? && r.done[e.stage] + 1 == total ==> r.stalled[e.stage])
  }

  /** A stage has stalled exactly from the report of its last item on. */
  ghost predicate Paced(n: nat, done: seq<nat>, flight: seq<bool>, busy: seq<bool>, stalled: seq<bool>, total: nat) {
    && n <= MAX_STAGES == |done| == |flight| == |busy| == |stalled|
    && (forall i :: 0 <= i < n ==> done[i] <= total && (flight[i] ==> done[i] < total))
    && (forall i :: 0 <= i < n && stalled[i] ==> !busy[i] && done[i] == if flight[i] then total - 1 else total)
    && (forall i :: 0 <= i < n && done[i] == total ==> stalled[i])
  }

  /** Every stage outside `asleep` that has what it needs and has not stalled is running. */
  ghost predicate Eager(n: nat, depth: nat, done: seq<nat>, busy: seq<bool>, stalled: seq<bool>, asleep: set<nat>) {
    && 2 <= n <= MAX_STAGES == |done| == |busy| == |stalled|
    && (forall i: nat :: i < n && i !in asleep && !busy[i] && !stalled[i] ==> !Fed(n, depth, done, i))
  }

  ghost predicate OnTime<T>(r: Ring<T>, total: nat) {
    Paced(r.stages, r.done, r.flight, r.busy, r.stalled, total)
  }

  ghost predicate Awake<T>(r: Ring<T>, asleep: set<nat>) {
    Eager(r.stages, r.depth, r.done, r.busy, r.stalled, asleep)
  }

  ghost predicate EndDetected<T>(f: Fifo<T>, total: nat)
    requires f.Shape()
  {
    && (f.active <==> f.ring.done[f.ring.stages - 1] < total)
    && f.finished == (if f.active then 0 else 1)
    && (forall j :: 0 <= j < f.stallIndex ==> f.ring.stalled[j] && !f.ring.busy[j])
  }

  ghost predicate ProgressInv<T>(f: Fifo<T>, total: nat) {
    && f.Shape()
    && Inv(f.ring)
    && OnTime(f.ring, total)
    && Awake(f.ring, {})
    && EndDetected(f, total)
  }

  // ----- the ring's part of a step -----

  lemma AdvanceOnTime<T>(r: Ring<T>, i: nat, len: int, word: int, total: nat)
    requires r.Stage(i) && OnTime(r, total) && r.flight[i]
    requires r.done[i] + 1 == total ==> r.stalled[i]
    ensures OnTime(Advance(r, i, len, word), total)
  {
    hide Slot, Recorded;
  }

  /** A completion can make only the stage itself and the one after it ready. */
  lemma AdvanceReadiesTwo<T>(r: Ring<T>, i: nat, len: int, word: int)
    requires r.Stage(i) && Awake(r, {})
    ensures Awake(Advance(r, i, len, word), {i, Next(r.stages, i)})
  {
    hide Slot, Recorded;
  }

  lemma WakePaced<T>(r: Ring<T>, i: nat, total: nat, asleep: set<nat>)
    requires r.Stage(i) && Indexed(r) && Ordered(r) && OnTime(r, total) && Awake(r, asleep)
    ensures OnTime(Wake(r, i), total)
    ensures Awake(Wake(r, i), asleep - {i})
  {
    hide Slot;
    ReadyStageIsFed(r, i);
  }

  lemma FinishPaced<T>(r: Ring<T>, i: nat, len: int, word: int, total: nat)
    requires Inv(r) && r.Stage(i) && OnTime(r, total) && Awake(r, {}) && r.flight[i]
    requires r.done[i] + 1 == total ==> r.stalled[i]
    ensures OnTime(Finish(r, i, len, word), total) && Awake(Finish(r, i, len, word), {})
  {
    hide Slot, Recorded, Eager, Paced, IndexesCount, CountsDescend, FlagsAgree, HandedOn, Stored;
    var s := Advance(r, i, len, word);
    var next := Next(r.stages, i);
    AdvanceOnTime(r, i, len, word, total);
    AdvanceReadiesTwo(r, i, len, word);
    AdvanceKeepsInv(r, i, len, word);
    WakePaced(s, i, total, {i, next});
    WakeKeepsInv(s, i);
    WakePaced(Wake(s, i), next, total, {i, next} - {i});
    assert {i, next} - {i} - {next} == {};
  }

  // ----- the end of the transfer -----

  /** Completing changes nothing about a stage that has stalled, except the one completing. */
  lemma StalledStagesStay<T>(r: Ring<T>, i: nat, len: int, word: int, j: nat)
    requires r.Stage(i) && r.Stage(j) && r.stalled[j] && !r.busy[j]
    ensures var t := Finish(r, i, len, word); t.Stage(j) && t.stalled[j] && !t.busy[j]
    ensures i != j ==> Finish(r, i, len, word).flight[j] == r.flight[j]
  {
    hide Slot, Recorded, Next;
  }

  lemma FinishCounts<T>(r: Ring<T>, i: nat, len: int, word: int)
    requires r.Stage(i)
    ensures var t := Finish(r, i, len, word);
      && t.Shape() && t.stages == r.stages && t.depth == r.depth
      && t.done == r.done[i := r.done[i] + 1] && t.stalled == r.stalled
      && (forall j :: 0 <= j < r.stages && j != i && j != Next(r.stages, i) ==>
          t.flight[j] == r.flight[j] && t.busy[j] == r.busy[j])
  {
    hide Slot, Recorded;
  }

  /** All stages have stalled and none is running exactly when the last has done all its items. */
  lemma AllStalledMeansDone<T>(r: Ring<T>, i: nat, len: int, word: int, total: nat)
    requires Inv(r) && r.Stage(i) && OnTime(r, total) && Awake(r, {}) && r.flight[i]
    requires r.done[i] + 1 == total ==> r.stalled[i]
    ensures var t := Finish(r, i, len, word);
      t.stages == r.stages && t.Shape() &&
      ((forall j :: 0 <= j < t.stages ==> t.stalled[j] && !t.busy[j]) <==> t.done[t.stages - 1] == total)
  {
    var t := Finish(r, i, len, word);
    var last := r.stages - 1;
    FinishCounts(r, i, len, word);
    FinishPaced(r, i, len, word, total);
    FinishKeepsInv(r, i, len, word);
    hide Finish, Stored, HandedOn, IndexesCount, Eager;
    if t.done[last] == total {
      forall j | 0 <= j < t.stages ensures t.stalled[j] && !t.busy[j] {
        assert t.done[last] <= t.done[j];
      }
    } else if forall j :: 0 <= j < t.stages ==> t.stalled[j] && !t.busy[j] {
      assert i != last;
      assert t.stalled[last];
      PendingLastIsAlone(r, i, total);
      assert false;
    }
  }

  /** While the last stage's last completion is outstanding, no other stage has anything in flight. */
  lemma PendingLastIsAlone<T>(r: Ring<T>, i: nat, total: nat)
    requires r.Stage(i) && i != r.stages - 1 && Ordered(r) && OnTime(r, total)
    requires r.stalled[r.stages - 1] && r.done[r.stages - 1] < total
    ensures !r.flight[i]
  {
    var last := r.stages - 1;
    assert Fed(r.stages, r.depth, r.done, last);
    assert r.done[last - 1] <= r.done[i];
  }

  lemma CheckFinishedDetects<T>(f: Fifo<T>, total: nat)
    requires f.Shape()
    requires f.active ==> ((forall j :: 0 <= j < f.ring.stages ==> f.ring.stalled[j] && !f.ring.busy[j])
                           <==> f.ring.done[f.ring.stages - 1] == total)
    requires f.ring.done[f.ring.stages - 1] <= total
    requires !f.active ==> f.ring.done[f.ring.stages - 1] == total
    requires f.finished == (if f.active then 0 else 1)
    requires forall j :: 0 <= j < f.stallIndex ==> f.ring.stalled[j] && !f.ring.busy[j]
    ensures CheckFinished(f).Shape() && CheckFinished(f).ring == f.ring && EndDetected(CheckFinished(f), total)
  {
  }

  lemma CompletionKeepsProgress<T>(f: Fifo<T>, i: nat, len: int, word: int, total: nat)
    requires ProgressInv(f, total) && Disciplined(f.ring, Completed(i, len, word), total)
    ensures ProgressInv(Apply(f, Completed(i, len, word)), total)
  {
    var r := f.ring;
    var t := Finish(r, i, len, word);
    FinishKeepsInv(r, i, len, word);
    FinishPaced(r, i, len, word, total);
    AllStalledMeansDone(r, i, len, word, total);
    assert r.done[r.stages - 1] < total by {
      assert r.done[r.stages - 1] <= r.done[i];
    }
    forall j | 0 <= j < f.stallIndex ensures t.stalled[j] && !t.busy[j] {
      StalledStagesStay(r, i, len, word, j);
    }
    assert t.done[t.stages - 1] <= total;
    hide Finish, Inv, Eager, Paced;
    CheckFinishedDetects(f.(ring := t), total);
  }

  lemma StallOnTime<T>(r: Ring<T>, i: nat, total: nat)
    requires r.Stage(i) && OnTime(r, total) && Flagged(r) && Awake(r, {}) && r.busy[i] && r.done[i] + 1 == total
    ensures OnTime(StallStage(r, i), total) && Awake(StallStage(r, i), {})
  {
    hide Fed;
  }

  lemma StallKeepsProgress<T>(f: Fifo<T>, i: nat, total: nat)
    requires ProgressInv(f, total) && Disciplined(f.ring, Stalled(i), total)
    ensures ProgressInv(Apply(f, Stalled(i)), total)
  {
    hide Inv, Eager, Paced;
    assert Flagged(f.ring) by { InvParts(f.ring); }
    StallKeepsInv(f.ring, i);
    StallOnTime(f.ring, i, total);
  }

  lemma InvParts<T>(r: Ring<T>)
    requires Inv(r)
    ensures Flagged(r) && Ordered(r) && Indexed(r) && Logged(r) && Filled(r) && r.depth >= r.stages - 1
  {
  }

  /** One step of drivers that stall on item `total` keeps everything. */
  lemma StepKeepsProgress<T>(f: Fifo<T>, e: Event<T>, total: nat)
    requires ProgressInv(f, total) && Disciplined(f.ring, e, total)
    ensures ProgressInv(Apply(f, e), total)
  {
    hide Inv, Eager, Paced, Slot;
    match e
    case Moved(i, data) => TransferKeepsInv(f.ring, i, data);
    case Stalled(i) => StallKeepsProgress(f, i, total);
    case Completed(i, len, word) => CompletionKeepsProgress(f, i, len, word, total);
  }

  lemma StartMakesProgress<T>(f: Fifo<T>, firstSize: int, total: nat)
    requires f.Shape() && f.ring.depth >= f.ring.stages - 1 && total > 0
    ensures ProgressInv(Start(f, firstSize), total)
  {
    hide Slot;
    StartEstablishesInv(f, firstSize);
    hide Inv;
    assert OnTime(Start(f, firstSize).ring, total);
  }

  // ----- theorems about runs -----

  ghost predicate DisciplinedRun<T>(states: seq<Fifo<T>>, events: seq<Event<T>>, total: nat) {
    && |states| == |events| + 1
    && (forall k :: 0 <= k < |states| ==> states[k].Shape())
    && (forall k :: 0 <= k < |events| ==>
         Disciplined(states[k].ring, events[k], total) && states[k + 1] == Apply(states[k], events[k]))
  }

  lemma {:induction false} RunKeepsProgress<T>(states: seq<Fifo<T>>, events: seq<Event<T>>, total: nat, k: nat)
    requires DisciplinedRun(states, events, total) && ProgressInv(states[0], total) && k < |states|
    ensures ProgressInv(states[k], total)
  {
    hide ProgressInv, Apply;
    if k > 0 {
      RunKeepsProgress(states, events, total, k - 1);
      StepKeepsProgress(states[k - 1], events[k - 1], total);
    }
  }

  /** While the last stage is behind, some stage has what it needs for an item it has not done. */
  lemma SomeStageIsFed(n: nat, depth: nat, done: seq<nat>, total: nat) returns (i: nat)
    requires 2 <= n <= |done| && depth >= n - 1 && done[n - 1] < total
    requires forall j, k :: 0 <= j <= k < n ==> done[k] <= done[j] <= total
    ensures i < n && Fed(n, depth, done, i) && done[i] < total
  {
    if done[0] == done[n - 1] {
      i := 0;
    } else {
      i := 1;
      while done[i] == done[i - 1]
        invariant 1 <= i < n && done[i - 1] == done[0]
        decreases n - i
      {
        i := i + 1;
      }
    }
  }

  /** No wake-up is lost: until the last stage has done all its items, some stage is in flight, that is,
      running or with a completion to come. */
  lemma NoDeadlock<T>(f: Fifo<T>, total: nat) returns (i: nat)
    requires ProgressInv(f, total) && f.ring.done[f.ring.stages - 1] < total
    ensures i < f.ring.stages && f.ring.flight[i]
  {
    hide Stored, HandedOn, IndexesCount;
    i := SomeStageIsFed(f.ring.stages, f.ring.depth, f.ring.done, total);
  }

  /** What is left to report: two reports an item, less the stall reports already made. */
  ghost function Left(n: nat, done: seq<nat>, flight: seq<bool>, stalled: seq<bool>, total: nat): int
    requires n <= |done| && n <= |flight| && n <= |stalled|
  {
    if n == 0 then 0
    else
      Left(n - 1, done, flight, stalled, total)
      + 2 * (total - done[n - 1])
      - (if stalled[n - 1] && flight[n - 1] then 1 else 0)
  }

  ghost function RingLeft<T>(r: Ring<T>, total: nat): int
    requires r.Shape()
  {
    Left(r.stages, r.done, r.flight, r.stalled, total)
  }

  lemma {:induction false} LeftIsNatural(n: nat, done: seq<nat>, flight: seq<bool>, stalled: seq<bool>, total: nat)
    requires n <= |done| && n <= |flight| && n <= |stalled|
    requires forall i :: 0 <= i < n ==> done[i] <= total && (flight[i] ==> done[i] < total)
    ensures 0 <= Left(n, done, flight, stalled, total) <= 2 * n * total
  {
    if n > 0 {
      LeftIsNatural(n - 1, done, flight, stalled, total);
      assert 2 * n * total == 2 * (n - 1) * total + 2 * total;
    }
  }

  /** Replacing one stage's fields changes only that stage's share. */
  lemma {:induction false} LeftDiffersAtOne(n: nat, done: seq<nat>, flight: seq<bool>, stalled: seq<bool>,
      done': seq<nat>, flight': seq<bool>, stalled': seq<bool>, total: nat, i: nat)
    requires n <= |done| == |flight| == |stalled| == |done'| == |flight'| == |stalled'|
    requires forall j :: 0 <= j < n && j != i ==>
      done[j] == done'[j] && (stalled[j] && flight[j] <==> stalled'[j] && flight'[j])
    requires i < |done|
    requires 2 * done[i] + (if stalled[i] && flight[i] then 1 else 0)
           < 2 * done'[i] + (if stalled'[i] && flight'[i] then 1 else 0)
    ensures Left(n, done', flight', stalled', total) <= Left(n, done, flight, stalled, total) - (if i < n then 1 else 0)
  {
    if n > 0 {
      LeftDiffersAtOne(n - 1, done, flight, stalled, done', flight', stalled', total, i);
    }
  }

  /** Every stall report and every completion uses up part of what is left; moving data does not. */
  lemma StepUsesUp<T>(r: Ring<T>, e: Event<T>, total: nat)
    requires r.Stage(e.stage) && Flagged(r) && OnTime(r, total) && Disciplined(r, e, total)
    ensures ApplyToRing(r, e).Shape()
    ensures RingLeft(ApplyToRing(r, e), total) <= RingLeft(r, total) - (if e.Moved? then 0 else 1)
  {
    hide Slot, Finish, Left, Paced, FlagsAgree;
    match e
    case Moved(i, data) =>
    case Stalled(i) => StallUsesUp(r, i, total);
    case Completed(i, len, word) => FinishUsesUp(r, i, len, word, total);
  }

  lemma StallUsesUp<T>(r: Ring<T>, i: nat, total: nat)
    requires r.Stage(i) && Flagged(r) && OnTime(r, total) && r.busy[i]
    ensures RingLeft(StallStage(r, i), total) < RingLeft(r, total)
  {
    var t := StallStage(r, i);
    LeftDiffersAtOne(r.stages, r.done, r.flight, r.stalled, t.done, t.flight, t.stalled, total, i);
  }

  lemma FinishUsesUp<T>(r: Ring<T>, i: nat, len: int, word: int, total: nat)
    requires r.Stage(i) && Flagged(r)
    ensures Finish(r, i, len, word).Shape()
    ensures RingLeft(Finish(r, i, len, word), total) < RingLeft(r, total)
  {
    var t := Finish(r, i, len, word);
    FinishCounts(r, i, len, word);
    forall j: nat | j < r.stages && j != i
      ensures r.stalled[j] && r.flight[j] <==> t.stalled[j] && t.flight[j]
    {
      if r.stalled[j] && !r.busy[j] {
        StalledStagesStay(r, i, len, word, j);
      }
      if r.stalled[j] {
        NoNewPending(r, i, len, word, j);
      }
    }
    hide Finish;
    LeftDiffersAtOne(r.stages, r.done, r.flight, r.stalled, t.done, t.flight, t.stalled, total, i);
  }

  lemma NoNewPending<T>(r: Ring<T>, i: nat, len: int, word: int, j: nat)
    requires r.Stage(i) && r.Stage(j) && i != j && r.stalled[j]
    ensures Finish(r, i, len, word).Shape() && Finish(r, i, len, word).flight[j] == r.flight[j]
  {
    hide Slot, Recorded, Next;
  }

  ghost function Reports<T>(events: seq<Event<T>>): nat {
    if events == [] then 0 else Reports(events[..|events| - 1]) + if events[|events| - 1].Moved? then 0 else 1
  }

  lemma ProgressParts<T>(f: Fifo<T>, total: nat)
    requires ProgressInv(f, total)
    ensures Flagged(f.ring) && OnTime(f.ring, total)
  {
    InvParts(f.ring);
  }

  /** A transfer ends: no run has more than two reports for each item of each stage. */
  lemma {:induction false} RunIsBounded<T>(states: seq<Fifo<T>>, events: seq<Event<T>>, total: nat, k: nat)
    requires DisciplinedRun(states, events, total) && ProgressInv(states[0], total) && k <= |events|
    ensures Reports(events[..k]) + RingLeft(states[k].ring, total) <= RingLeft(states[0].ring, total)
  {
    hide ProgressInv, ApplyToRing, RingLeft, Paced, FlagsAgree;
    if k > 0 {
      RunIsBounded(states, events, total, k - 1);
      RunKeepsProgress(states, events, total, k - 1);
      var r, e := states[k - 1].ring, events[k - 1];
      ProgressParts(states[k - 1], total);
      StepUsesUp(r, e, total);
      assert events[..k][..k - 1] == events[..k - 1];
    }
  }

  /** From a start: at most 2 * stages * total reports are ever made; while the last stage has items to
      do something is in flight and the end has not been reported; once it has none, every stage has done
      exactly `total` items, nothing is in flight, and the end has been reported exactly once. */
  lemma TransferEndsOnce<T>(f: Fifo<T>, firstSize: int, states: seq<Fifo<T>>, events: seq<Event<T>>, total: nat)
    requires f.Shape() && f.ring.depth >= f.ring.stages - 1 && total > 0
    requires DisciplinedRun(states, events, total) && states[0] == Start(f, firstSize)
    ensures var s := states[|events|]; var n := s.ring.stages;
      && Reports(events) <= 2 * n * total
      && (s.ring.done[n - 1] < total ==> s.finished == 0 && exists i :: 0 <= i < n && s.ring.flight[i])
      && (s.ring.done[n - 1] >= total ==>
            && s.finished == 1
            && !s.active
            && (forall i :: 0 <= i < n ==> s.ring.done[i] == total && !s.ring.flight[i]))
  {
    StartMakesProgress(f, firstSize, total);
    RunKeepsProgress(states, events, total, |events|);
    RunIsBounded(states, events, total, |events|);
    assert events[..|events|] == events;
    RunKeepsStages(states, events, total, |events|);
    var s := states[|events|];
    var n := s.ring.stages;
    hide Start, Apply, Stored, HandedOn, IndexesCount, Eager;
    LeftIsNatural(n, states[0].ring.done, states[0].ring.flight, states[0].ring.stalled, total);
    LeftIsNatural(n, s.ring.done, s.ring.flight, s.ring.stalled, total);
    if s.ring.done[n - 1] < total {
      var i := NoDeadlock(s, total);
    } else {
      forall i | 0 <= i < n ensures s.ring.done[i] == total && !s.ring.flight[i] {
        assert s.ring.done[n - 1] <= s.ring.done[i];
      }
    }
  }

  lemma {:induction false} RunKeepsStages<T>(states: seq<Fifo<T>>, events: seq<Event<T>>, total: nat, k: nat)
    requires DisciplinedRun(states, events, total) && k < |states|
    ensures states[k].ring.stages == states[0].ring.stages
  {
    if k > 0 {
      RunKeepsStages(states, events, total, k - 1);
    }
  }
}
