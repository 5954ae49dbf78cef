/** The two copies of the root page: each write goes to the other copy, and the start picks the newer good
    one. */
module RootPage {
  import opened Arithmetic

  const PAGE_WORDS: nat := 4096
  const WORDS_PER_STEP: nat := 16
  const ERASED: nat := 0xffffffff
  const ITERATIONS: nat := 0x10000

  type Words = seq<nat>

  /** The CRC of a word sequence, left uninterpreted, and the size of the checked structure. */
  datatype Env = Env(crc: Words -> nat, dataWords: nat)

  ghost predicate EnvOk(env: Env) {
    3 <= env.dataWords <= PAGE_WORDS
  }

  /** The checked structure is its CRC word followed by the words the CRC covers. */
  predicate CrcGood(env: Env, page: Words)
    requires 3 <= env.dataWords <= |page|
  {
    env.crc(page[1..env.dataWords]) == page[0]
  }

  /** data_iteration is the low half of the third word. */
  function Iteration(page: Words): nat
    requires |page| >= 3
  {
    page[2] % ITERATIONS
  }

  datatype Copy = One | Two

  function Other(c: Copy): Copy { if c.One? then Two else One }

  datatype Root = Root(one: Words, two: Words)
  {
    function Page(c: Copy): Words { if c.One? then one else two }
    function Write(c: Copy, w: Words): Root { if c.One? then Root(w, two) else Root(one, w) }
  }

  ghost predicate RootOk(env: Env, r: Root) {
    EnvOk(env) && |r.one| == |r.two| == PAGE_WORDS
  }

  /** cmd_init */
  function Select(env: Env, r: Root): Copy
    requires RootOk(env, r)
  {
    if CrcGood(env, r.one) then
      if CrcGood(env, r.two) then
        if Iteration(r.one) > Iteration(r.two) then One else Two
      else One
    else if CrcGood(env, r.two) then Two else One
  }

  /** write_root_block's changes to the data. */
  function Stamped(env: Env, data: Words, iteration: nat): (d: Words)
    requires EnvOk(env) && |data| >= env.dataWords
    ensures |d| == |data|
  {
    var d := data[2 := data[2] - data[2] % ITERATIONS + iteration];
    d[0 := env.crc(d[1..env.dataWords])]
  }

  function NextIteration(env: Env, r: Root, current: Copy): nat
    requires RootOk(env, r)
  {
    (Iteration(r.Page(current)) + 1) % ITERATIONS
  }

  ghost predicate GoodData(env: Env, data: Words) {
    env.dataWords <= |data| <= PAGE_WORDS
  }

  function Erasure(n: nat): (e: Words)
    ensures |e| == n && forall i :: 0 <= i < n ==> e[i] == ERASED
  {
    seq(n, _ => ERASED)
  }

  /** An erased page with the first n words of the image programmed. */
  function Programmed(image: Words, n: nat): (p: Words)
    requires n <= |image| <= PAGE_WORDS
    ensures |p| == PAGE_WORDS
  {
    image[..n] + Erasure(PAGE_WORDS - n)
  }

  /** The words programmed after k steps of flash_idle. */
  function WordsAt(image: Words, k: nat): (n: nat)
    ensures n <= |image|
  {
    if k == 0 then 0 else Min(WORDS_PER_STEP * (k - 1), |image|)
  }

  /** The page being written after k steps of flash_idle: first the erase, then 16 words a step. */
  function PageAfter(before: Words, image: Words, k: nat): (p: Words)
    requires |before| == PAGE_WORDS && |image| <= PAGE_WORDS
    ensures |p| == PAGE_WORDS
  {
    if k == 0 then before else Programmed(image, WordsAt(image, k))
  }

  /** Steps of a whole write. */
  function StepsFor(image: Words): nat {
    1 + (|image| + WORDS_PER_STEP - 1) / WORDS_PER_STEP
  }

  /** The words from `from` up to `to` look like erased ones. */
  predicate Blank(image: Words, from: nat, to: nat)
    requires to <= |image|
  {
    forall i :: from <= i < to ==> image[i] == ERASED
  }

  /** A page whose checked structure is not all there yet fails its CRC. The words past it are not checked. */
  ghost predicate TornFails(env: Env, image: Words)
    requires EnvOk(env) && GoodData(env, image)
  {
    forall n: nat :: n < env.dataWords && !Blank(image, n, env.dataWords) ==> !CrcGood(env, Programmed(image, n))
  }

  /** The whole checked structure is on the page after k steps. */
  predicate Sealed(env: Env, image: Words, k: nat)
    requires env.dataWords <= |image|
  {
    k > 0 && Blank(image, WordsAt(image, k), env.dataWords)
  }

  /** The whole image is. */
  predicate Whole(image: Words, k: nat) {
    k > 0 && Blank(image, WordsAt(image, k), |image|)
  }

  /** The current copy is good, and the other is not or is just one behind. */
  ghost predicate RootInv(env: Env, r: Root, current: Copy) {
    && RootOk(env, r)
    && CrcGood(env, r.Page(current))
    && (CrcGood(env, r.Page(Other(current))) ==> Iteration(r.Page(Other(current))) + 1 == Iteration(r.Page(current)))
  }

  lemma CurrentIsSelected(env: Env, r: Root, current: Copy)
    requires RootInv(env, r, current)
    ensures Select(env, r) == current
  {
  }

  /** Word i of a page is the caller's, but for the CRC in word 0 and the number in the low half of word 2. */
  ghost predicate Keeps(data: Words, page: Words, i: nat)
    requires i < |data| && i < |page|
  {
    && (i != 0 && i != 2 ==> page[i] == data[i])
    && (i == 2 ==> page[i] / 0x10000 == data[i] / 0x10000)
  }

  ghost predicate KeepsAll(data: Words, page: Words, n: nat)
    requires n <= |data| && n <= |page|
  {
    forall i: nat :: i < n ==> Keeps(data, page, i)
  }

  /** Stamping changes nothing but the number and the CRC. */
  lemma StampedKeepsData(env: Env, data: Words, iteration: nat)
    requires EnvOk(env) && env.dataWords <= |data| && iteration < ITERATIONS
    ensures var d := Stamped(env, data, iteration);
      && KeepsAll(data, d, |data|)
      && d[2] % 0x10000 == iteration
      && d[0] == env.crc(d[1..env.dataWords])
  {
    var d := Stamped(env, data, iteration);
    var e := data[2 := data[2] - data[2] % ITERATIONS + iteration];
    assert d[1..env.dataWords] == e[1..env.dataWords];
    SetLowHalf(data[2], iteration);
  }

  lemma SetLowHalf(x: nat, low: nat)
    requires low < 0x10000
    ensures (x - x % 0x10000 + low) / 0x10000 == x / 0x10000 && (x - x % 0x10000 + low) % 0x10000 == low
  {
  }

  lemma StampedIsGood(env: Env, data: Words, iteration: nat)
    requires EnvOk(env) && GoodData(env, data) && iteration < ITERATIONS
    ensures var d := Stamped(env, data, iteration);
      var page := Programmed(d, |d|);
      |page| == PAGE_WORDS && CrcGood(env, page) && Iteration(page) == iteration && page[..|d|] == d
  {
    var d := Stamped(env, data, iteration);
    var page := Programmed(d, |d|);
    assert page[1..env.dataWords] == d[1..env.dataWords];
    var e := data[2 := data[2] - data[2] % ITERATIONS + iteration];
    assert d[1..env.dataWords] == e[1..env.dataWords];
  }

  lemma WholeWrite(before: Words, image: Words, k: nat)
    requires |before| == PAGE_WORDS && |image| <= PAGE_WORDS && k >= StepsFor(image)
    ensures PageAfter(before, image, k) == Programmed(image, |image|) && Whole(image, k)
  {
    hide Programmed;
  }

  /** Stopping short shows exactly when a word left out is not blank. */
  lemma BlankRestIsSame(image: Words, n: nat)
    requires n <= |image| <= PAGE_WORDS
    ensures Blank(image, n, |image|) <==> Programmed(image, n) == Programmed(image, |image|)
  {
    if Programmed(image, n) == Programmed(image, |image|) {
      forall i | n <= i < |image| ensures image[i] == ERASED {
        assert Programmed(image, n)[i] == ERASED;
      }
    }
  }

  lemma CheckedWords(env: Env, image: Words, n: nat)
    requires EnvOk(env) && GoodData(env, image) && n <= |image| && Blank(image, n, env.dataWords)
    ensures Programmed(image, n)[..env.dataWords] == image[..env.dataWords]
    ensures Programmed(image, n)[1..env.dataWords] == Programmed(image, |image|)[1..env.dataWords]
    ensures Programmed(image, n)[0] == Programmed(image, |image|)[0]
    ensures Programmed(image, n)[2] == Programmed(image, |image|)[2]
  {
  }

  /** A root write seen after k of its steps. */
  function During(env: Env, r: Root, current: Copy, data: Words, k: nat): (after: Root)
    requires RootOk(env, r) && GoodData(env, data)
    ensures RootOk(env, after)
  {
    var image := Stamped(env, data, NextIteration(env, r, current));
    r.Write(Other(current), PageAfter(r.Page(Other(current)), image, k))
  }

  function ImageOf(env: Env, r: Root, current: Copy, data: Words): (image: Words)
    requires RootOk(env, r) && GoodData(env, data)
    ensures |image| == |data|
  {
    Stamped(env, data, NextIteration(env, r, current))
  }

  /** After every prefix of a root write the current copy is untouched, and a start selects the new copy from
      the step on that completes its checked structure, and the current one before. */
  lemma EveryPrefixIsSafe(env: Env, r: Root, current: Copy, data: Words, k: nat)
    requires RootInv(env, r, current) && GoodData(env, data)
    requires Iteration(r.Page(current)) + 1 < ITERATIONS
    requires TornFails(env, ImageOf(env, r, current, data))
    ensures var after := During(env, r, current, data, k);
      var image := ImageOf(env, r, current, data);
      && after.Page(current) == r.Page(current)
      && var now := if Sealed(env, image, k) then Other(current) else current;
      && RootInv(env, after, now)
      && Select(env, after) == now
      && (Sealed(env, image, k) ==>
           && after.Page(now) == Programmed(image, WordsAt(image, k))
           && after.Page(now)[..env.dataWords] == image[..env.dataWords]
           && KeepsAll(data, after.Page(now), env.dataWords))
    ensures WordsAt(data, k) >= env.dataWords ==> Sealed(env, ImageOf(env, r, current, data), k)
  {
    hide CrcGood, Stamped, Programmed;
    var image := ImageOf(env, r, current, data);
    var before := r.Page(Other(current));
    StampedIsGood(env, data, NextIteration(env, r, current));
    var n := WordsAt(image, k);
    if Sealed(env, image, k) {
      CheckedWords(env, image, n);
      StampedKeepsData(env, data, NextIteration(env, r, current));
      KeptThrough(data, image, Programmed(image, n), env.dataWords);
      SameCheck(env, Programmed(image, n), Programmed(image, |image|));
      LandedInv(env, r, current, Programmed(image, n));
      CurrentIsSelected(env, During(env, r, current, data, k), Other(current));
    } else {
      assert k > 0 ==> n < env.dataWords && !CrcGood(env, Programmed(image, n));
      PendingInv(env, r, current, PageAfter(before, image, k));
      CurrentIsSelected(env, During(env, r, current, data, k), current);
    }
  }

  lemma KeptThrough(data: Words, image: Words, page: Words, n: nat)
    requires n <= |data| == |image| && n <= |page|
    requires KeepsAll(data, image, |data|) && page[..n] == image[..n]
    ensures KeepsAll(data, page, n)
  {
    forall i: nat | i < n ensures Keeps(data, page, i) {
      assert Keeps(data, image, i) && page[..n][i] == image[..n][i];
    }
  }

  /** A write takes one step for the erase and one for every 16 words; after k steps the first 16 * (k - 1) words
      are there and the rest is erased. */
  lemma WordsOfStep(env: Env, r: Root, current: Copy, data: Words, k: nat)
    requires RootOk(env, r) && GoodData(env, data) && 0 < k <= StepsFor(data)
    ensures 16 * (StepsFor(data) - 2) < |data| <= 16 * (StepsFor(data) - 1)
    ensures var page := During(env, r, current, data, k).Page(Other(current));
      forall i: nat :: i < PAGE_WORDS ==>
        if i < 16 * (k - 1) && i < |data| then Keeps(data, page, i) else page[i] == 0xffffffff
  {
    var iteration := NextIteration(env, r, current);
    StampedKeepsData(env, data, iteration);
    hide Stamped, CrcGood;
    var page := During(env, r, current, data, k).Page(Other(current));
    forall i: nat | i < 16 * (k - 1) && i < |data| ensures Keeps(data, page, i) {
      assert Keeps(data, Stamped(env, data, iteration), i);
    }
  }

  /** A finished write leaves the caller's words on the page, erased ones behind them, and the other page alone. */
  lemma FinishedWrite(env: Env, r: Root, current: Copy, data: Words)
    requires RootOk(env, r) && GoodData(env, data)
    ensures var after := During(env, r, current, data, StepsFor(data));
      && after.Page(current) == r.Page(current)
      && KeepsAll(data, after.Page(Other(current)), |data|)
      && (forall i :: |data| <= i < PAGE_WORDS ==> after.Page(Other(current))[i] == 0xffffffff)
  {
    hide CrcGood, PageAfter, Stamped;
    var image := Stamped(env, data, NextIteration(env, r, current));
    WholeWrite(r.Page(Other(current)), image, StepsFor(image));
    StampedKeepsData(env, data, NextIteration(env, r, current));
    KeptThrough(data, image, Programmed(image, |image|), |data|);
  }

  lemma SameCheck(env: Env, p: Words, q: Words)
    requires EnvOk(env) && |p| == |q| == PAGE_WORDS
    requires p[1..env.dataWords] == q[1..env.dataWords] && p[0] == q[0] && p[2] == q[2]
    ensures CrcGood(env, p) <==> CrcGood(env, q)
    ensures Iteration(p) == Iteration(q)
  {
  }

  /** The step that completes the checked structure. */
  function CheckedStep(env: Env, image: Words, from: nat): (k: nat)
    requires env.dataWords <= |image|
    ensures k >= from && (k < StepsFor(image) ==> Sealed(env, image, k))
    ensures forall j :: from <= j < k ==> !Sealed(env, image, j)
    decreases StepsFor(image) - from
  {
    if Sealed(env, image, from) || from >= StepsFor(image) then from else CheckedStep(env, image, from + 1)
  }

  /** A start can select a copy that is not completely written: never exactly when everything past the words
      programmed by the step that completes the checked structure is blank or absent. */
  lemma SelectedIsWholeExactlyWhen(env: Env, r: Root, current: Copy, data: Words)
    requires RootInv(env, r, current) && GoodData(env, data)
    requires Iteration(r.Page(current)) + 1 < ITERATIONS
    requires TornFails(env, ImageOf(env, r, current, data))
    ensures var image := ImageOf(env, r, current, data);
      (forall k: nat :: Select(env, During(env, r, current, data, k)) == Other(current) ==>
        During(env, r, current, data, k).Page(Other(current)) == Programmed(image, |image|))
      <==> Blank(image, WordsAt(image, CheckedStep(env, image, 1)), |image|)
  {
    hide CrcGood, Stamped, Programmed, Select, TornFails, RootInv;
    assert RootOk(env, r) by { InvIsOk(env, r, current); }
    var image := ImageOf(env, r, current, data);
    var first := CheckedStep(env, image, 1);
    forall k: nat
      ensures Select(env, During(env, r, current, data, k)) == Other(current) <==> Sealed(env, image, k)
      ensures k > 0 ==> During(env, r, current, data, k).Page(Other(current)) == Programmed(image, WordsAt(image, k))
      ensures Blank(image, WordsAt(image, k), |image|) <==>
          Programmed(image, WordsAt(image, k)) == Programmed(image, |image|)
      ensures Sealed(env, image, k) ==> first <= k
    {
      EveryPrefixIsSafe(env, r, current, data, k);
      BlankRestIsSame(image, WordsAt(image, k));
    }
    assert Sealed(env, image, first) by {
      if first >= StepsFor(image) {
        WholeWrite(r.one, image, first);
      }
    }
    assert Select(env, During(env, r, current, data, first)) == Other(current);
    forall k: nat | Sealed(env, image, k) && Blank(image, WordsAt(image, first), |image|)
      ensures Blank(image, WordsAt(image, k), |image|)
    {
      assert WordsAt(image, first) <= WordsAt(image, k);
    }
  }

  /** A write of the structure alone has nothing past the checked words, so what is selected is whole. */
  lemma StructureWritesAreWhole(env: Env, r: Root, current: Copy, data: Words, k: nat)
    requires RootInv(env, r, current) && GoodData(env, data) && |data| == env.dataWords
    requires Iteration(r.Page(current)) + 1 < ITERATIONS
    requires TornFails(env, ImageOf(env, r, current, data))
    requires Select(env, During(env, r, current, data, k)) == Other(current)
    ensures var image := ImageOf(env, r, current, data);
      During(env, r, current, data, k).Page(Other(current)) == Programmed(image, |image|)
  {
    hide CrcGood, Stamped, Programmed, Select, TornFails;
    var image := ImageOf(env, r, current, data);
    var first := CheckedStep(env, image, 1);
    if first >= StepsFor(image) {
      WholeWrite(r.one, image, first);
    }
    SelectedIsWholeExactlyWhen(env, r, current, data);
  }

  lemma InvIsOk(env: Env, r: Root, current: Copy)
    requires RootInv(env, r, current)
    ensures RootOk(env, r)
  {
  }

  lemma LandedInv(env: Env, r: Root, current: Copy, page: Words)
    requires RootInv(env, r, current) && |page| == PAGE_WORDS
    requires CrcGood(env, page) && Iteration(page) == Iteration(r.Page(current)) + 1
    ensures RootInv(env, r.Write(Other(current), page), Other(current))
  {
    hide CrcGood;
  }

  lemma PendingInv(env: Env, r: Root, current: Copy, page: Words)
    requires RootInv(env, r, current) && |page| == PAGE_WORDS
    requires page == r.Page(Other(current)) || !CrcGood(env, page)
    ensures RootInv(env, r.Write(Other(current), page), current)
  {
    hide CrcGood;
  }

  /** The counter has 16 bits: a finished write is selected exactly when its predecessor was not the last
      number. */
  lemma SelectedExactlyWhen(env: Env, r: Root, current: Copy, data: Words)
    requires RootInv(env, r, current) && GoodData(env, data)
    ensures Select(env, During(env, r, current, data, StepsFor(data))) == Other(current)
      <==> r.Page(current)[2] % 0x10000 != 0xffff
  {
    hide CrcGood, Stamped, Programmed, PageAfter;
    var it := NextIteration(env, r, current);
    var image := Stamped(env, data, it);
    StampedIsGood(env, data, it);
    WholeWrite(r.Page(Other(current)), image, StepsFor(image));
  }

  // ----- runs -----

  /** A root write carried to its k-th step; then the device restarts if it stopped short or is made to. */
  datatype RootEvent = RootEvent(data: Words, k: nat, restart: bool)

  datatype RootState = RootState(root: Root, current: Copy)

  function Target(env: Env, s: RootState, e: RootEvent): Words
    requires RootOk(env, s.root) && GoodData(env, e.data)
  {
    Stamped(env, e.data, NextIteration(env, s.root, s.current))
  }

  function RootStep(env: Env, s: RootState, e: RootEvent): (t: RootState)
    requires RootOk(env, s.root) && GoodData(env, e.data)
    ensures RootOk(env, t.root)
  {
    var after := During(env, s.root, s.current, e.data, e.k);
    RootState(after, if e.restart || e.k < StepsFor(e.data) then Select(env, after) else Other(s.current))
  }

  ghost predicate AllowedRun(env: Env, s: RootState, es: seq<RootEvent>)
    requires RootOk(env, s.root)
    decreases |es|
  {
    es != [] ==>
      && GoodData(env, es[0].data)
      && Iteration(s.root.Page(s.current)) + 1 < ITERATIONS
      && TornFails(env, Target(env, s, es[0]))
      && AllowedRun(env, RootStep(env, s, es[0]), es[1..])
  }

  ghost function RootRun(env: Env, s: RootState, es: seq<RootEvent>): (t: RootState)
    requires RootOk(env, s.root) && AllowedRun(env, s, es)
    ensures RootOk(env, t.root)
    decreases |es|
  {
    if es == [] then s else RootRun(env, RootStep(env, s, es[0]), es[1..])
  }

  /** An image and how many words of it were programmed. */
  datatype Written = Written(image: Words, words: nat)

  ghost predicate WrittenOk(env: Env, w: Written)
    requires EnvOk(env)
  {
    GoodData(env, w.image) && w.words <= |w.image| && Blank(w.image, w.words, env.dataWords)
  }

  /** The last write of a run that completed its checked structure, as far as it got. */
  ghost function LastChecked(env: Env, s: RootState, es: seq<RootEvent>, last: Written): Written
    requires RootOk(env, s.root) && AllowedRun(env, s, es)
    decreases |es|
  {
    if es == [] then last
    else
      var image := Target(env, s, es[0]);
      LastChecked(env, RootStep(env, s, es[0]), es[1..],
        if Sealed(env, image, es[0].k) then Written(image, WordsAt(image, es[0].k)) else last)
  }

  /** Over every run of root writes, however far each got, a start selects the last copy whose checked structure
      was completed. It holds that structure, and the whole image exactly when what was left of it is blank. */
  lemma {:induction false} StartFindsLastWrite(env: Env, s: RootState, es: seq<RootEvent>, last: Written)
    requires RootInv(env, s.root, s.current) && AllowedRun(env, s, es)
    requires WrittenOk(env, last) && s.root.Page(s.current) == Programmed(last.image, last.words)
    ensures var t := RootRun(env, s, es);
      var w := LastChecked(env, s, es, last);
      && RootInv(env, t.root, t.current)
      && Select(env, t.root) == t.current
      && WrittenOk(env, w)
      && t.root.Page(t.current)[..env.dataWords] == w.image[..env.dataWords]
      && (t.root.Page(t.current) == Programmed(w.image, |w.image|) <==> Blank(w.image, w.words, |w.image|))
    decreases |es|
  {
    hide CrcGood, Programmed, Stamped, TornFails, Select;
    if es == [] {
      CurrentIsSelected(env, s.root, s.current);
      CheckedWords(env, last.image, last.words);
      BlankRestIsSame(last.image, last.words);
    } else {
      var e := es[0];
      EveryPrefixIsSafe(env, s.root, s.current, e.data, e.k);
      var image := Target(env, s, e);
      if e.k >= StepsFor(e.data) {
        WholeWrite(s.root.one, image, e.k);
      }
      StartFindsLastWrite(env, RootStep(env, s, e), es[1..],
        if Sealed(env, image, e.k) then Written(image, WordsAt(image, e.k)) else last);
    }
  }

  /** The last event of a run that completed its checked structure, or -1. */
  ghost function LastLanded(env: Env, s: RootState, es: seq<RootEvent>): (j: int)
    requires RootOk(env, s.root) && AllowedRun(env, s, es)
    ensures -1 <= j < |es|
    decreases |es|
  {
    if es == [] then -1
    else
      var later := LastLanded(env, RootStep(env, s, es[0]), es[1..]);
      if later >= 0 then later + 1 else if Sealed(env, Target(env, s, es[0]), es[0].k) then 0 else -1
  }

  /** In the callers' terms: what a start selects after a run is the data of one of its writes, word for word in
      the checked structure but for number and CRC; no later write programmed that many words. Without such a
      write it is the copy from before. */
  lemma {:induction false} StartFindsLastData(env: Env, s: RootState, es: seq<RootEvent>)
    requires RootInv(env, s.root, s.current) && AllowedRun(env, s, es)
    ensures var t := RootRun(env, s, es);
      var page := t.root.Page(Select(env, t.root));
      var j := LastLanded(env, s, es);
      && |page| == PAGE_WORDS
      && (j >= 0 ==>
           && env.dataWords <= |es[j].data| && env.dataWords <= |page|
           && KeepsAll(es[j].data, page, env.dataWords))
      && (j < 0 ==> page == s.root.Page(s.current))
      && (forall m: nat :: j < m < |es| ==> WordsAt(es[m].data, es[m].k) < env.dataWords)
    decreases |es|
  {
    hide CrcGood, Programmed, Stamped, TornFails, Select, WordsAt, KeepsAll;
    if es == [] {
      CurrentIsSelected(env, s.root, s.current);
    } else {
      var e := es[0];
      EveryPrefixIsSafe(env, s.root, s.current, e.data, e.k);
      var image := Target(env, s, e);
      if e.k >= StepsFor(e.data) {
        WholeWrite(s.root.one, image, e.k);
      }
      var next := RootStep(env, s, e);
      StartFindsLastData(env, next, es[1..]);
      var later := LastLanded(env, next, es[1..]);
      if later >= 0 {
        assert es[1..][later] == es[later + 1];
      }
      forall m: nat | LastLanded(env, s, es) < m < |es| ensures WordsAt(es[m].data, es[m].k) < env.dataWords {
        if m > 0 {
          assert es[1..][m - 1] == es[m];
        }
      }
    }
  }

  /** Of two good copies a start takes the one with the greater number, of equal ones the second, and it never
      takes a bad copy while there is a good one. */
  lemma SelectTakesNewest(env: Env, r: Root)
    requires RootOk(env, r)
    ensures var c := Select(env, r);
      && (CrcGood(env, r.Page(Other(c))) ==>
           && CrcGood(env, r.Page(c))
           && r.Page(c)[2] % 0x10000 >= r.Page(Other(c))[2] % 0x10000
           && (r.one[2] % 0x10000 == r.two[2] % 0x10000 ==> c == Two))
  {
    hide CrcGood;
  }

  /** The first write ever, to a device with no good copy: nothing can be selected before it lands, and it is
      selected after. */
  lemma FirstWriteStarts(env: Env, r: Root, data: Words)
    requires RootOk(env, r) && GoodData(env, data) && !CrcGood(env, r.one) && !CrcGood(env, r.two)
    ensures RootInv(env, During(env, r, Select(env, r), data, StepsFor(data)), Two)
  {
    var it := NextIteration(env, r, One);
    StampedIsGood(env, data, it);
    WholeWrite(r.two, Stamped(env, data, it), StepsFor(data));
    hide CrcGood, Stamped, Programmed, PageAfter;
  }

  // ----- where the promises fail -----

  /** A device whose CRC is the sum of two words, for the examples. */
  function SumEnv(): Env {
    Env((w: Words) => if |w| >= 2 then w[0] + w[1] else 0, 3)
  }

  function Flat(word0: nat, word2: nat): (p: Words)
    ensures |p| == PAGE_WORDS && p[0] == word0 && p[1] == 0 && p[2] == word2
  {
    seq(PAGE_WORDS, i => if i == 0 then word0 else if i == 2 then word2 else 0)
  }

  /** The first copy good, with this iteration; the second not. */
  function ExampleRoot(iteration: nat): Root {
    Root(Flat(iteration, iteration), Flat(1, 0))
  }

  lemma ExampleInv(iteration: nat)
    requires iteration < ITERATIONS
    ensures RootInv(SumEnv(), ExampleRoot(iteration), One) && Iteration(ExampleRoot(iteration).one) == iteration
  {
    var r := ExampleRoot(iteration);
    assert r.one[1..3] == [0, iteration] && r.two[1..3] == [0, 0];
  }

  /** One word past the checked structure is enough: 17 words, of which the second step programs 16. */
  lemma TornTailIsSelected()
    ensures var env, r, data := SumEnv(), ExampleRoot(0), seq(17, _ => 0);
      && RootInv(env, r, One) && GoodData(env, data) && Iteration(r.one) + 1 < ITERATIONS
      && TornFails(env, ImageOf(env, r, One, data))
      && Select(env, During(env, r, One, data, 2)) == Two
      && During(env, r, One, data, 2).two != Programmed(ImageOf(env, r, One, data), 17)
  {
    var env, r, data := SumEnv(), ExampleRoot(0), seq(17, _ => 0);
    ExampleInv(0);
    var image := ImageOf(env, r, One, data);
    ExampleImage(data);
    forall n: nat | n < 3 ensures !CrcGood(env, Programmed(image, n)) {
      var p := Programmed(image, n);
      assert p[1..3] == [p[1], p[2]];
    }
    assert WordsAt(image, 2) == 16 && image[16] != ERASED;
    EveryPrefixIsSafe(env, r, One, data, 2);
    BlankRestIsSame(image, 16);
  }

  lemma ExampleImage(data: Words)
    requires data == seq(17, _ => 0)
    ensures var image := ImageOf(SumEnv(), ExampleRoot(0), One, data);
      image[0] == 1 && image[1] == 0 && image[2] == 1 && image[16] == 0
  {
    ExampleInv(0);
    var d := data[2 := 1];
    assert d[1..3] == [0, 1];
  }

  /** The last 16-bit number: the finished write is not selected. */
  lemma WrapIsNotSelected(data: Words)
    requires GoodData(SumEnv(), data)
    ensures var env, r := SumEnv(), ExampleRoot(ITERATIONS - 1);
      RootInv(env, r, One) && Select(env, During(env, r, One, data, StepsFor(data))) == One
  {
    ExampleInv(ITERATIONS - 1);
    SelectedExactlyWhen(SumEnv(), ExampleRoot(ITERATIONS - 1), One, data);
  }
}
