/** The rewindable ring of random words: one per source, and a reader that combines the two. */
module RandRing {

  const RING: nat := 1024

  /** rand_src_state; a negative rewind tail means that no rewind point is set. */
  datatype Source = Source(buf: seq<bv32>, head: nat, level: int, tail: nat, rewindLevel: int, rewindTail: int)

  function Wrap(x: nat): nat { x % RING }

  /** How far `a` is ahead of `b` around the ring. */
  function Ahead(a: nat, b: nat): nat
    requires a < RING && b < RING
  {
    if a >= b then a - b else a + RING - b
  }

  function Get(s: Source): (r: (Source, bv32))
    requires s.tail < |s.buf|
  {
    if s.head == s.tail then (s, 0)
    else (s.(tail := Wrap(s.tail + 1), level := s.level - 1), s.buf[s.tail])
  }

  function Limit(s: Source): int {
    if s.rewindTail < 0 then s.tail else s.rewindTail
  }

  function Push(s: Source, val: bv32): Source
    requires s.head < |s.buf|
  {
    if Wrap(s.head + 1) != Limit(s) then
      s.(buf := s.buf[s.head := s.buf[s.head] ^ val], level := s.level + 1, head := Wrap(s.head + 1),
         rewindLevel := if s.rewindTail >= 0 then s.rewindLevel + 1 else s.rewindLevel)
    else s
  }

  function Rewind(s: Source): Source {
    if s.rewindTail >= 0 then s.(level := s.rewindLevel, tail := s.rewindTail) else s
  }

  function SetPoint(s: Source): Source {
    s.(rewindTail := s.tail, rewindLevel := s.level)
  }

  function ClearPoint(s: Source): Source {
    s.(rewindTail := -1)
  }

  // ----- one source -----

  /** The counters are the ring distances, and the reader is between the rewind point and the head. */
  ghost predicate RingInv(s: Source) {
    && |s.buf| == RING && s.head < RING && s.tail < RING
    && s.level == Ahead(s.head, s.tail)
    && (s.rewindTail >= 0 ==>
         && s.rewindTail < RING
         && s.rewindLevel == Ahead(s.head, s.rewindTail)
         && s.level <= s.rewindLevel)
  }

  lemma RingBounds(s: Source)
    requires RingInv(s)
    ensures |s.buf| == RING && s.head < RING && s.tail < RING
  {
  }

  /** The words from ring position `from` up to the head. */
  ghost function WordsFrom(s: Source, from: nat): (w: seq<bv32>)
    requires |s.buf| == RING && s.head < RING && from < RING
    ensures |w| == Ahead(s.head, from)
  {
    RingWords(s.buf, from, Ahead(s.head, from))
  }

  ghost function RingWords(buf: seq<bv32>, from: nat, n: nat): (w: seq<bv32>)
    requires |buf| == RING
    ensures |w| == n
  {
    seq(n, k requires 0 <= k < n => buf[Wrap(from + k)])
  }

  /** Writing the slot at the head leaves the words before it alone. */
  lemma AppendWord(buf: seq<bv32>, head: nat, from: nat, word: bv32)
    requires |buf| == RING && head < RING && from < RING && Ahead(head, from) < RING - 1
    ensures RingWords(buf[head := word], from, Ahead(head, from) + 1) == RingWords(buf, from, Ahead(head, from)) +
        [word]
  {
    var n := Ahead(head, from);
    var after := buf[head := word];
    forall k | 0 <= k < n ensures RingWords(after, from, n + 1)[k] == RingWords(buf, from, n)[k] {
      BeforeHead(head, from, k);
    }
    BeforeHead(head, from, n);
  }

  /** Everything since the rewind point. */
  ghost function Window(s: Source): (w: seq<bv32>)
    requires RingInv(s) && s.rewindTail >= 0
    ensures |w| == s.rewindLevel
  {
    WordsFrom(s, s.rewindTail)
  }

  /** How many words were read since the rewind point. */
  function Position(s: Source): int {
    s.rewindLevel - s.level
  }

  lemma GetKeepsRing(s: Source)
    requires RingInv(s)
    ensures RingInv(Get(s).0)
    ensures s.level > 0 ==>
      && Get(s).1 == WordsFrom(s, s.tail)[0]
      && WordsFrom(Get(s).0, Get(s).0.tail) == WordsFrom(s, s.tail)[1..]
    ensures s.level == 0 ==> Get(s) == (s, 0)
    ensures s.level > 0 && s.rewindTail >= 0 ==>
      && Window(Get(s).0) == Window(s)
      && Position(Get(s).0) == Position(s) + 1
      && Get(s).1 == Window(s)[Position(s)]
  {
    if s.level > 0 {
      RestOfWords(s);
    }
    if s.level > 0 && s.rewindTail >= 0 {
      ReaderPosition(s);
      assert Window(s)[Position(s)] == s.buf[Wrap(s.rewindTail + Position(s))];
    }
  }

  lemma RestOfWords(s: Source)
    requires RingInv(s) && s.level > 0
    ensures Get(s).1 == WordsFrom(s, s.tail)[0]
    ensures RingInv(Get(s).0) && WordsFrom(Get(s).0, Get(s).0.tail) == WordsFrom(s, s.tail)[1..]
  {
    var t := Get(s).0;
    var n := Ahead(s.head, s.tail);
    OneStepOn(s.head, s.tail);
    hide Ahead;
    assert Wrap(s.tail + 0) == s.tail;
    forall k | 0 <= k < n - 1 ensures RingWords(s.buf, t.tail, n - 1)[k] == RingWords(s.buf, s.tail, n)[1..][k] {
      WrapOn(s.tail, k);
    }
  }

  lemma OneStepOn(head: nat, tail: nat)
    requires head < RING && tail < RING && head != tail
    ensures Wrap(tail + 1) < RING && Ahead(head, Wrap(tail + 1)) == Ahead(head, tail) - 1
  {
  }

  lemma WrapOn(tail: nat, k: nat)
    ensures Wrap(Wrap(tail + 1) + k) == Wrap(tail + (k + 1))
  {
  }

  /** Where the reader stands, counted from the rewind point. */
  lemma ReaderPosition(s: Source)
    requires RingInv(s) && s.rewindTail >= 0
    ensures 0 <= Position(s) <= s.rewindLevel && s.tail == Wrap(s.rewindTail + Position(s))
  {
  }

  /** A push adds one word at the end or is refused; the words since the rewind point stay as they are. */
  lemma PushKeepsRing(s: Source, val: bv32)
    requires RingInv(s)
    ensures RingInv(Push(s, val))
    ensures s.rewindTail >= 0 ==>
      && Position(Push(s, val)) == Position(s)
      && Window(Push(s, val)) == if s.rewindLevel == 1023 then Window(s) else Window(s) + [s.buf[s.head] ^ val]
    ensures s.rewindTail < 0 ==>
      WordsFrom(Push(s, val), s.tail) == if s.level == 1023 then WordsFrom(s, s.tail)
          else WordsFrom(s, s.tail) + [s.buf[s.head] ^ val]
  {
    PushWords(s, val, Limit(s));
    PushFits(s);
  }

  lemma PushFits(s: Source)
    requires RingInv(s)
    ensures 0 <= Limit(s) < RING && Wrap(s.head + 1) < RING && Ahead(s.head, Limit(s)) <= RING - 1
    ensures Wrap(s.head + 1) != Limit(s) <==> Ahead(s.head, Limit(s)) < RING - 1
    ensures Wrap(s.head + 1) != Limit(s) ==> Ahead(Wrap(s.head + 1), Limit(s)) == Ahead(s.head, Limit(s)) + 1
  {
  }

  lemma PushWords(s: Source, val: bv32, from: nat)
    requires RingInv(s) && from == Limit(s)
    ensures from < RING && Push(s, val).head < RING && |Push(s, val).buf| == RING
    ensures WordsFrom(Push(s, val), from) ==
      if Ahead(s.head, from) == RING - 1 then WordsFrom(s, from) else WordsFrom(s, from) + [s.buf[s.head] ^ val]
  {
    hide RingWords, Ahead, Wrap;
    PushFits(s);
    if Ahead(s.head, from) < RING - 1 {
      AppendWord(s.buf, s.head, from, s.buf[s.head] ^ val);
    }
  }

  lemma BeforeHead(head: nat, from: nat, k: nat)
    requires head < RING && from < RING && k <= Ahead(head, from)
    ensures Wrap(from + k) == head <==> k == Ahead(head, from)
  {
  }

  lemma RewindKeepsRing(s: Source)
    requires RingInv(s)
    ensures RingInv(Rewind(s)) && RingInv(SetPoint(s)) && RingInv(ClearPoint(s))
    ensures s.rewindTail >= 0 ==> Window(Rewind(s)) == Window(s) && Position(Rewind(s)) == 0
    ensures s.rewindTail < 0 ==> Rewind(s) == s
    ensures SetPoint(s).rewindTail >= 0 && Window(SetPoint(s)) == WordsFrom(s, s.tail) && Position(SetPoint(s)) == 0
    ensures var c := ClearPoint(s);
      && WordsFrom(c, c.tail) == WordsFrom(s, s.tail)
      && (Wrap(s.head + 1) != s.tail ==> Push(c, 0) != c)
  {
  }

  // ----- both sources -----

  datatype Pool = Pool(rtc: Source, rng: Source)

  function Avail(p: Pool): int {
    if p.rtc.level > p.rng.level then p.rng.level else p.rtc.level
  }

  datatype Event = PushRtc(val: bv32) | PushRng(val: bv32) | GetWord | RewindBoth | SetBoth | ClearBoth

  ghost predicate PoolInv(p: Pool) {
    RingInv(p.rtc) && RingInv(p.rng)
  }

  function GetBoth(p: Pool): (Pool, bv32)
    requires p.rtc.tail < |p.rtc.buf| && p.rng.tail < |p.rng.buf|
  {
    var (rtc, a) := Get(p.rtc);
    var (rng, b) := Get(p.rng);
    (Pool(rtc, rng), a ^ b)
  }

  /** What is handed out is the exclusive or of the next word of each source, and as many words as both have. */
  lemma CombinedWord(p: Pool)
    requires PoolInv(p)
    ensures Avail(p) <= p.rtc.level && Avail(p) <= p.rng.level && (Avail(p) == p.rtc.level || Avail(p) == p.rng.level)
    ensures Avail(p) > 0 ==>
      && GetBoth(p).1 == WordsFrom(p.rtc, p.rtc.tail)[0] ^ WordsFrom(p.rng, p.rng.tail)[0]
      && Avail(GetBoth(p).0) == Avail(p) - 1
  {
    hide Push, WordsFrom, RingInv, Window, Position, Get;
    OneLess(p.rtc);
    OneLess(p.rng);
  }

  lemma OneLess(s: Source)
    requires RingInv(s)
    ensures s.level > 0 ==> s.tail < RING == |s.buf| && s.head < RING && Get(s).1 == WordsFrom(s, s.tail)[0]
    ensures s.level > 0 ==> Get(s).0.level == s.level - 1
    ensures s.tail < |s.buf|
  {
    hide WordsFrom;
    GetKeepsRing(s);
  }

  ghost function Step(p: Pool, e: Event): Pool
    requires PoolInv(p)
  {
    match e
    case PushRtc(v) => p.(rtc := Push(p.rtc, v))
    case PushRng(v) => p.(rng := Push(p.rng, v))
    case GetWord => GetBoth(p).0
    case RewindBoth => Pool(Rewind(p.rtc), Rewind(p.rng))
    case SetBoth => Pool(SetPoint(p.rtc), SetPoint(p.rng))
    case ClearBoth => Pool(ClearPoint(p.rtc), ClearPoint(p.rng))
  }

  lemma StepKeepsPool(p: Pool, e: Event)
    requires PoolInv(p)
    ensures PoolInv(Step(p, e))
  {
    hide Push, Get, Rewind, SetPoint, ClearPoint;
    match e
    case PushRtc(v) => PushKeepsRing(p.rtc, v);
    case PushRng(v) => PushKeepsRing(p.rng, v);
    case GetWord => GetKeepsRing(p.rtc); GetKeepsRing(p.rng);
    case _ => RewindKeepsRing(p.rtc); RewindKeepsRing(p.rng);
  }

  ghost function Run(p: Pool, es: seq<Event>): (q: Pool)
    requires PoolInv(p)
    ensures PoolInv(q)
    decreases |es|
  {
    if es == [] then p
    else
      StepKeepsPool(p, es[0]);
      Run(Step(p, es[0]), es[1..])
  }

  /** The pairs of words a run takes from the two sources; each pair is handed out combined. */
  ghost function Output(p: Pool, es: seq<Event>): seq<(bv32, bv32)>
    requires PoolInv(p)
    decreases |es|
  {
    if es == [] then []
    else
      StepKeepsPool(p, es[0]);
      (if es[0].GetWord? then [(Get(p.rtc).1, Get(p.rng).1)] else []) + Output(Step(p, es[0]), es[1..])
  }

  /** Reads are guarded by rand_avail, and the run leaves the rewind point where it is. */
  ghost predicate Reads(p: Pool, es: seq<Event>)
    requires PoolInv(p)
    decreases |es|
  {
    es != [] ==>
      && (es[0].PushRtc? || es[0].PushRng? || (es[0].GetWord? && Avail(p) > 0))
      && (StepKeepsPool(p, es[0]); Reads(Step(p, es[0]), es[1..]))
  }

  ghost predicate PointSet(p: Pool) {
    p.rtc.rewindTail >= 0 && p.rng.rewindTail >= 0
  }

  /** Both readers have read n words since the rewind point. */
  ghost predicate At(p: Pool, n: nat) {
    PoolInv(p) && PointSet(p) && Position(p.rtc) == Position(p.rng) == n
  }

  ghost predicate Extends(w: seq<bv32>, v: seq<bv32>) {
    |v| <= |w| && w[..|v|] == v
  }

  ghost predicate PoolExtends(q: Pool, p: Pool)
    requires PoolInv(p) && PoolInv(q) && PointSet(p) && PointSet(q)
  {
    Extends(Window(q.rtc), Window(p.rtc)) && Extends(Window(q.rng), Window(p.rng))
  }

  /** From each source, word k of the run is word n + k of what has been pushed since the rewind point. */
  ghost predicate Hands(q: Pool, n: nat, out: seq<(bv32, bv32)>)
    requires PoolInv(q) && PointSet(q)
  {
    && n + |out| <= |Window(q.rtc)| && n + |out| <= |Window(q.rng)|
    && forall k :: 0 <= k < |out| ==> out[k] == (Window(q.rtc)[n + k], Window(q.rng)[n + k])
  }

  lemma StepReads(p: Pool, e: Event, n: nat)
    requires At(p, n) && (e.PushRtc? || e.PushRng? || (e.GetWord? && Avail(p) > 0))
    ensures At(Step(p, e), if e.GetWord? then n + 1 else n)
    ensures PoolExtends(Step(p, e), p)
    ensures e.GetWord? ==>
      && n < |Window(p.rtc)| && n < |Window(p.rng)|
      && Get(p.rtc).1 == Window(p.rtc)[n] && Get(p.rng).1 == Window(p.rng)[n]
      && GetBoth(p).1 == Window(p.rtc)[n] ^ Window(p.rng)[n]
  {
    hide Window;
    match e
    case PushRtc(v) => PushKeepsRing(p.rtc, v);
    case PushRng(v) => PushKeepsRing(p.rng, v);
    case GetWord => GetKeepsRing(p.rtc); GetKeepsRing(p.rng); ReaderPosition(p.rtc); ReaderPosition(p.rng);
    case _ =>
  }

  lemma ExtendsThrough(a: seq<bv32>, b: seq<bv32>, c: seq<bv32>)
    requires Extends(a, b) && Extends(b, c)
    ensures Extends(a, c)
  {
    assert a[..|c|] == a[..|b|][..|c|];
  }

  lemma {:induction false} RunReads(p: Pool, es: seq<Event>, n: nat)
    requires At(p, n) && Reads(p, es)
    ensures At(Run(p, es), n + |Output(p, es)|)
    ensures PoolExtends(Run(p, es), p)
    ensures Hands(Run(p, es), n, Output(p, es))
    decreases |es|
  {
    hide RingInv, Window, Push, Get, GetBoth, Position;
    if es == [] {
      ReaderPosition(p.rtc);
      ReaderPosition(p.rng);
    } else {
      StepReads(p, es[0], n);
      var q := Step(p, es[0]);
      var m := if es[0].GetWord? then n + 1 else n;
      RunReads(q, es[1..], m);
      var end := Run(p, es);
      ExtendsThrough(Window(end.rtc), Window(q.rtc), Window(p.rtc));
      ExtendsThrough(Window(end.rng), Window(q.rng), Window(p.rng));
    }
  }

  /** Rewinding replays: whatever is pushed before, between and after, the words taken from each source after a
      rewind, and so those handed out, are the ones from before it in the same order, as far as both go. */
  lemma RewindReplays(p: Pool, first: seq<Event>, second: seq<Event>, k: nat)
    requires At(p, 0) && Reads(p, first)
    requires Reads(Step(Run(p, first), RewindBoth), second)
    requires k < |Output(p, first)| && k < |Output(Step(Run(p, first), RewindBoth), second)|
    ensures Output(p, first)[k] == Output(Step(Run(p, first), RewindBoth), second)[k]
  {
    hide RingInv, Window, Push, Get, GetBoth, Position;
    var mid := Run(p, first);
    RunReads(p, first, 0);
    RewindKeepsRing(mid.rtc);
    RewindKeepsRing(mid.rng);
    var again := Step(mid, RewindBoth);
    RunReads(again, second, 0);
    var end := Run(again, second);
    assert Window(end.rtc)[k] == Window(end.rtc)[..|Window(mid.rtc)|][k];
    assert Window(end.rng)[k] == Window(end.rng)[..|Window(mid.rng)|][k];
  }

  /** Setting the point anywhere starts such a run. */
  lemma SettingStartsReplay(p: Pool)
    requires PoolInv(p)
    ensures At(Step(p, SetBoth), 0)
  {
    RewindKeepsRing(p.rtc);
    RewindKeepsRing(p.rng);
  }
}
