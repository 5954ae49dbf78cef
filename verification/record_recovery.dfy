/** Losing power in the middle of an update, and the startup scan that finds the flash again. */
module RecordRecovery {
  import opened RecordLayout
  import opened RecordBlock
  import opened BlockChoice
  import opened RecordStore
  import opened RecordEffects
  import opened RecordCommands

  // ----- what a scan does -----

  /** A flash an update cut short can leave. */
  ghost predicate Recoverable<Key>(env: Env<Key>, flash: seq<DataBlock>) {
    Clean(env, flash) || exists uid: nat, a: nat, b: nat :: Interrupted(env, flash, uid, a, b)
  }

  /** All a scan relies on: each live block has the shape its partition size gives it. A uid may have any number
      of entries, in one block or in several. */
  ghost predicate Shaped<Key>(env: Env<Key>, flash: seq<DataBlock>) {
    |flash| == NUM_BLOCKS && forall i: nat :: DataIndex(i) && Live(env, flash[i]) ==> flash[i].Formed()
  }

  /** Entry l of block k is one the scan meets before entry j of block i. */
  ghost predicate MetBefore<Key>(env: Env<Key>, flash: seq<DataBlock>, k: nat, l: nat, i: nat, j: nat)
    requires |flash| == NUM_BLOCKS
  {
    DataIndex(k) && Live(env, flash[k]) && l < flash[k].occupancy <= |flash[k].tbl| && (k < i || (k == i && l < j))
  }

  /** Before entry j of block i the scan has met no uid twice. */
  ghost predicate NoneTwice<Key>(env: Env<Key>, flash: seq<DataBlock>, i: nat, j: nat)
    requires |flash| == NUM_BLOCKS
  {
    forall k: nat, l: nat, m: nat, n: nat ::
      MetBefore(env, flash, k, l, i, j) && MetBefore(env, flash, m, n, i, j) &&
          flash[k].tbl[l].uid == flash[m].tbl[n].uid ==>
      k == m && l == n
  }

  /** Entry j of block i is for a uid block w has an entry for. */
  ghost predicate Clashes(flash: seq<DataBlock>, i: nat, j: nat, w: nat) {
    && i < |flash| && w < |flash|
    && j < flash[i].occupancy <= |flash[i].tbl| == |flash[i].parts|
    && flash[w].occupancy <= |flash[w].tbl| == |flash[w].parts|
    && IndexOf(flash[w].tbl, flash[i].tbl[j].uid, flash[w].occupancy) < flash[w].occupancy
  }

  /** Entry j of block i is the first at which the scan has its uid in the map already: from block w. */
  ghost predicate FirstClash<Key>(env: Env<Key>, flash: seq<DataBlock>, i: nat, j: nat, w: nat) {
    && |flash| == NUM_BLOCKS && DataIndex(i) && Live(env, flash[i])
    && Clashes(flash, i, j, w)
    && MetBefore(env, flash, w, IndexOf(flash[w].tbl, flash[i].tbl[j].uid, flash[w].occupancy), i, j)
    && NoneTwice(env, flash, i, j)
  }

  ghost predicate HasClash<Key>(env: Env<Key>, flash: seq<DataBlock>) {
    exists i: nat, j: nat, w: nat :: FirstClash(env, flash, i, j, w)
  }

  /** Of block i and block w, the one the code's revision rule takes to hold the older copy. */
  function Older(flash: seq<DataBlock>, i: nat, j: nat, w: nat): (o: nat)
    requires Clashes(flash, i, j, w)
    ensures o == i || o == w
  {
    var ent := flash[i].tbl[j];
    var seen := flash[w].tbl[IndexOf(flash[w].tbl, ent.uid, flash[w].occupancy)];
    if (ent.rev + 1) % 4 == seen.rev then i else w
  }

  /** A block without its first entry for the uid, as a scan writes it. */
  function Repair<Key>(env: Env<Key>, b: DataBlock, uid: nat, temp: DataBlock): DataBlock
    requires b.occupancy <= |b.tbl| == |b.parts| && IndexOf(b.tbl, uid, b.occupancy) < b.occupancy
  {
    if b.occupancy == 1 then FreedBlock(temp) else WithCrc(env, Removed(b, IndexOf(b.tbl, uid, b.occupancy)))
  }

  /** What the scan writes where it meets a uid again. */
  function Repaired<Key>(env: Env<Key>, flash: seq<DataBlock>, i: nat, j: nat, w: nat, temp: DataBlock): DataBlock
    requires Clashes(flash, i, j, w)
  {
    Repair(env, flash[Older(flash, i, j, w)], flash[i].tbl[j].uid, temp)
  }

  function Settled<Key>(env: Env<Key>, flash: seq<DataBlock>, i: nat, j: nat, w: nat, temp: DataBlock): seq<DataBlock>
    requires Clashes(flash, i, j, w)
  {
    flash[Older(flash, i, j, w) := Repaired(env, flash, i, j, w, temp)]
  }

  ghost function TheClash<Key>(env: Env<Key>, flash: seq<DataBlock>): (c: (nat, nat, nat))
    requires HasClash(env, flash)
    ensures FirstClash(env, flash, c.0, c.1, c.2)
  {
    var i: nat, j: nat, w: nat :| FirstClash(env, flash, i, j, w);
    (i, j, w)
  }

  /** Flash and scratch buffer after one scan. */
  ghost function ScanStep<Key>(env: Env<Key>, flash: seq<DataBlock>, temp: DataBlock): (r: (seq<DataBlock>,
      DataBlock)) {
    if HasClash(env, flash) then
      var (i, j, w) := TheClash(env, flash);
      (Settled(env, flash, i, j, w, temp), Repaired(env, flash, i, j, w, temp))
    else (flash, temp)
  }

  ghost function Scan<Key>(env: Env<Key>, flash: seq<DataBlock>, temp: DataBlock): seq<DataBlock> {
    ScanStep(env, flash, temp).0
  }

  /** The scan meets its first clash in one place only. */
  lemma FirstClashIsUnique<Key>(env: Env<Key>, flash: seq<DataBlock>, i: nat, j: nat, w: nat, i': nat, j': nat, w': nat)
    requires FirstClash(env, flash, i, j, w) && FirstClash(env, flash, i', j', w')
    ensures i == i' && j == j' && w == w'
  {
    hide Live;
    var l := IndexOf(flash[w].tbl, flash[i].tbl[j].uid, flash[w].occupancy);
    var l' := IndexOf(flash[w'].tbl, flash[i'].tbl[j'].uid, flash[w'].occupancy);
    hide IndexOf, NoneTwice;
    if i < i' || (i == i' && j < j') {
      MetOnce(env, flash, i', j', i, j, w, l);
    } else if i' < i || (i == i' && j' < j) {
      MetOnce(env, flash, i, j, i', j', w', l');
    } else {
      MetOnce(env, flash, i, j, w, l, w', l');
    }
  }

  lemma MetOnce<Key>(env: Env<Key>, flash: seq<DataBlock>, i: nat, j: nat, k: nat, l: nat, m: nat, n: nat)
    requires |flash| == NUM_BLOCKS && NoneTwice(env, flash, i, j)
    requires MetBefore(env, flash, k, l, i, j) && MetBefore(env, flash, m, n, i, j)
    requires flash[k].tbl[l].uid == flash[m].tbl[n].uid
    ensures k == m && l == n
  {
  }

  lemma ScanAt<Key>(env: Env<Key>, flash: seq<DataBlock>, temp: DataBlock, i: nat, j: nat, w: nat)
    requires FirstClash(env, flash, i, j, w)
    ensures ScanStep(env, flash, temp) == (Settled(env, flash, i, j, w, temp), Repaired(env, flash, i, j, w, temp))
  {
    hide FirstClash, Repaired;
    assert HasClash(env, flash);
    var (i', j', w') := TheClash(env, flash);
    FirstClashIsUnique(env, flash, i, j, w, i', j', w');
  }

  // ----- what a scan finds -----

  lemma EntryIsHeld<Key>(env: Env<Key>, flash: seq<DataBlock>, k: nat, l: nat, i: nat, j: nat)
    requires FormedFlash(env, flash) && MetBefore(env, flash, k, l, i, j)
    ensures HoldsAt(env, flash, flash[k].tbl[l].uid, k)
    ensures flash[k].Formed() && Distinct(flash[k])
    ensures IndexOf(flash[k].tbl, flash[k].tbl[l].uid, flash[k].occupancy) == l
  {
    hide PartCount, Live;
    OnlyEntry(flash[k], flash[k].tbl[l].uid, l);
  }

  lemma CleanHasNoClash<Key>(env: Env<Key>, flash: seq<DataBlock>)
    requires Clean(env, flash)
    ensures !HasClash(env, flash)
  {
    hide Live, Holds, FormedFlash, IndexOf;
    if HasClash(env, flash) {
      var (i, j, w) := TheClash(env, flash);
      var uid := flash[i].tbl[j].uid;
      EntryIsHeld(env, flash, i, j, i, j + 1);
      EntryIsHeld(env, flash, w, IndexOf(flash[w].tbl, uid, flash[w].occupancy), i, j);
      hide AtMostOne;
      SameHolder(env, flash, uid, i, w);
    }
  }

  /** Meeting no uid twice at all is being clean. */
  lemma NoneTwiceIsClean<Key>(env: Env<Key>, flash: seq<DataBlock>)
    requires Shaped(env, flash) && NoneTwice(env, flash, NUM_BLOCKS, 0)
    ensures Clean(env, flash)
  {
    hide PartCount, Live;
    forall i: nat | DataIndex(i) && Live(env, flash[i]) ensures Distinct(flash[i]) {
      forall j: nat, k: nat | j < k < flash[i].occupancy ensures flash[i].tbl[j].uid != flash[i].tbl[k].uid {
        assert MetBefore(env, flash, i, j, NUM_BLOCKS, 0) && MetBefore(env, flash, i, k, NUM_BLOCKS, 0);
      }
    }
    forall uid: nat, i: nat, j: nat | HoldsAt(env, flash, uid, i) && HoldsAt(env, flash, uid, j) ensures i == j {
      assert MetBefore(env, flash, i, IndexOf(flash[i].tbl, uid, flash[i].occupancy), NUM_BLOCKS, 0);
      assert MetBefore(env, flash, j, IndexOf(flash[j].tbl, uid, flash[j].occupancy), NUM_BLOCKS, 0);
    }
  }

  /** No entry met so far is for this uid. */
  ghost predicate Unmet<Key>(env: Env<Key>, flash: seq<DataBlock>, i: nat, j: nat, uid: nat)
    requires |flash| == NUM_BLOCKS
  {
    forall k: nat, l: nat :: MetBefore(env, flash, k, l, i, j) ==> flash[k].tbl[l].uid != uid
  }

  lemma MetAlready<Key>(env: Env<Key>, flash: seq<DataBlock>, i: nat, j: nat, uid: nat) returns (k: nat, l: nat)
    requires |flash| == NUM_BLOCKS && !Unmet(env, flash, i, j, uid)
    ensures MetBefore(env, flash, k, l, i, j) && flash[k].tbl[l].uid == uid
  {
    k, l :| MetBefore(env, flash, k, l, i, j) && flash[k].tbl[l].uid == uid;
  }

  lemma OneMoreEntry<Key>(env: Env<Key>, flash: seq<DataBlock>, i: nat, j: nat)
    requires |flash| == NUM_BLOCKS && DataIndex(i) && Live(env, flash[i]) && j < flash[i].occupancy <= |flash[i].tbl|
    requires NoneTwice(env, flash, i, j) && Unmet(env, flash, i, j, flash[i].tbl[j].uid)
    ensures NoneTwice(env, flash, i, j + 1)
    ensures forall k: nat, l: nat :: MetBefore(env, flash, k, l, i, j + 1) <==>
        MetBefore(env, flash, k, l, i, j) || (k == i && l == j)
  {
    hide Live;
  }

  /** After its last entry, or without any, a block is passed. */
  lemma BlockPassed<Key>(env: Env<Key>, flash: seq<DataBlock>, i: nat, j: nat)
    requires |flash| == NUM_BLOCKS && DataIndex(i) && (Live(env, flash[i]) ==> flash[i].occupancy <= j)
    ensures forall k: nat, l: nat :: MetBefore(env, flash, k, l, i, j) <==> MetBefore(env, flash, k, l, i + 1, 0)
    ensures NoneTwice(env, flash, i, j) ==> NoneTwice(env, flash, i + 1, 0)
  {
    hide Live;
  }

  lemma ClashAfterMeeting<Key>(env: Env<Key>, flash: seq<DataBlock>, i: nat, j: nat, w: nat, l: nat)
    requires Shaped(env, flash) && DataIndex(i) && Live(env, flash[i]) && j < flash[i].occupancy
    requires NoneTwice(env, flash, i, j)
    requires MetBefore(env, flash, w, l, i, j) && j < |flash[i].tbl| && flash[w].tbl[l].uid == flash[i].tbl[j].uid
    ensures FirstClash(env, flash, i, j, w)
  {
    hide Live, NoneTwice;
  }

  lemma {:induction false} NoClashNoneTwice<Key>(env: Env<Key>, flash: seq<DataBlock>, i: nat, j: nat)
    requires Shaped(env, flash) && !HasClash(env, flash) && DataIndex(i) && NoneTwice(env, flash, i, j)
    ensures NoneTwice(env, flash, NUM_BLOCKS, 0)
    decreases NUM_BLOCKS - i, if j < flash[i].occupancy then flash[i].occupancy - j else 0
  {
    hide NoneTwice, MetBefore, Live, PartCount, FirstClash;
    if Live(env, flash[i]) && j < flash[i].occupancy {
      var uid := flash[i].tbl[j].uid;
      if !Unmet(env, flash, i, j, uid) {
        var w, l := MetAlready(env, flash, i, j, uid);
        ClashAfterMeeting(env, flash, i, j, w, l);
        assert false;
      }
      OneMoreEntry(env, flash, i, j);
      NoClashNoneTwice(env, flash, i, j + 1);
    } else {
      BlockPassed(env, flash, i, j);
      if i + 1 < NUM_BLOCKS {
        NoClashNoneTwice(env, flash, i + 1, 0);
      }
    }
  }

  /** A scan finds nothing to repair exactly when no uid has two entries. */
  lemma NoClashExactlyWhenClean<Key>(env: Env<Key>, flash: seq<DataBlock>)
    requires Shaped(env, flash)
    ensures HasClash(env, flash) <==> !Clean(env, flash)
  {
    hide HasClash, Clean, MetBefore;
    if Clean(env, flash) {
      CleanHasNoClash(env, flash);
    } else if !HasClash(env, flash) {
      assert NoneTwice(env, flash, MIN_DATA_BLOCK, 0) by { NothingMet(env, flash); }
      NoClashNoneTwice(env, flash, MIN_DATA_BLOCK, 0);
      NoneTwiceIsClean(env, flash);
      assert false;
    }
  }

  lemma NothingMet<Key>(env: Env<Key>, flash: seq<DataBlock>)
    requires |flash| == NUM_BLOCKS
    ensures forall k: nat, l: nat :: !MetBefore(env, flash, k, l, MIN_DATA_BLOCK, 0)
    ensures NoneTwice(env, flash, MIN_DATA_BLOCK, 0)
  {
  }

  lemma InterruptedFacts<Key>(env: Env<Key>, flash: seq<DataBlock>, uid: nat, a: nat, b: nat)
    requires Interrupted(env, flash, uid, a, b)
    ensures |flash| == NUM_BLOCKS && DataIndex(a) && DataIndex(b)
    ensures Live(env, flash[a]) && flash[a].Formed() && Distinct(flash[a]) && Holds(flash[a], uid)
    ensures Live(env, flash[b]) && flash[b].Formed() && Distinct(flash[b]) && Holds(flash[b], uid)
    ensures MIN_UID <= uid <= MAX_UID
    ensures !AtMostOne(env, flash, uid)
  {
    HolderIsData(env, flash, uid, a);
    HolderIsData(env, flash, uid, b);
    var j := IndexOf(flash[a].tbl, uid, flash[a].occupancy);
    assert GoodEntry(flash[a].tbl[j], flash[a].partSize);
  }

  /** An interrupted flash tells which record was moving, and which copy is the older. */
  lemma InterruptionIsUnique<Key>(env: Env<Key>, flash: seq<DataBlock>, u: nat, a: nat, b: nat, v: nat, c: nat, d: nat)
    requires Interrupted(env, flash, u, a, b) && Interrupted(env, flash, v, c, d)
    ensures u == v && a == c && b == d
  {
    hide Live, Holds, RecordOf, FormedFlash, DataIndex;
    InterruptedFacts(env, flash, u, a, b);
    InterruptedFacts(env, flash, v, c, d);
    RevIsSmall(flash[a], u);
  }

  /** In an interrupted flash the scan meets the moving record first in one block and then in the other, and
      the revision rule picks the older copy. */
  lemma InterruptedClash<Key>(env: Env<Key>, flash: seq<DataBlock>, uid: nat, a: nat, b: nat)
    requires Interrupted(env, flash, uid, a, b)
    ensures |flash| == NUM_BLOCKS && DataIndex(a) && DataIndex(b) && flash[a].Formed() && flash[b].Formed()
    ensures Holds(flash[a], uid)
    ensures var (i, w) := if a < b then (b, a) else (a, b);
      var j := IndexOf(flash[i].tbl, uid, flash[i].occupancy);
      FirstClash(env, flash, i, j, w) && flash[i].tbl[j].uid == uid && Older(flash, i, j, w) == a
  {
    hide Live, FormedFlash, NoneTwice, PartCount;
    InterruptedFacts(env, flash, uid, a, b);
    NoneTwiceBefore(env, flash, uid, a, b);
    RevisionsFollow(env, flash, uid, a, b);
    hide Interrupted, AtMostOne, RecordOf, IndexOf;
    if a < b {
      ClashOfHolders(env, flash, uid, a, b);
    } else {
      ClashOfHolders(env, flash, uid, b, a);
    }
  }

  lemma RevisionsFollow<Key>(env: Env<Key>, flash: seq<DataBlock>, uid: nat, a: nat, b: nat)
    requires Interrupted(env, flash, uid, a, b)
    ensures |flash| == NUM_BLOCKS && a < NUM_BLOCKS && b < NUM_BLOCKS && a != b
    ensures flash[a].Formed() && Holds(flash[a], uid) && flash[b].Formed() && Holds(flash[b], uid)
    ensures var ra := flash[a].tbl[IndexOf(flash[a].tbl, uid, flash[a].occupancy)].rev;
      var rb := flash[b].tbl[IndexOf(flash[b].tbl, uid, flash[b].occupancy)].rev;
      rb == (ra + 1) % 4 && ra < 4
  {
    hide Live, FormedFlash, PartCount, AtMostOne;
    InterruptedFacts(env, flash, uid, a, b);
    RevIsSmall(flash[a], uid);
  }

  lemma ClashOfHolders<Key>(env: Env<Key>, flash: seq<DataBlock>, uid: nat, w: nat, i: nat)
    requires |flash| == NUM_BLOCKS && DataIndex(w) && DataIndex(i) && w < i
    requires Live(env, flash[w]) && flash[w].Formed() && Holds(flash[w], uid)
    requires Live(env, flash[i]) && flash[i].Formed() && Holds(flash[i], uid)
    requires NoneTwice(env, flash, i, IndexOf(flash[i].tbl, uid, flash[i].occupancy))
    ensures var j := IndexOf(flash[i].tbl, uid, flash[i].occupancy);
      flash[i].tbl[j].uid == uid && FirstClash(env, flash, i, j, w)
  {
    hide Live, NoneTwice, PartCount;
  }

  /** Of an interrupted flash the scan takes out the older copy. */
  lemma ScanOfInterrupted<Key>(env: Env<Key>, flash: seq<DataBlock>, temp: DataBlock, uid: nat, a: nat, b: nat)
    requires Interrupted(env, flash, uid, a, b)
    ensures |flash| == NUM_BLOCKS && DataIndex(a) && flash[a].Formed() && Holds(flash[a], uid)
    ensures !Clean(env, flash) && Scan(env, flash, temp) == flash[a := Repair(env, flash[a], uid, temp)]
  {
    hide Live, Holds, NoneTwice, MetBefore, IndexOf, Repair, DataBlock.Formed, FormedFlash, AtMostOne;
    InterruptedClash(env, flash, uid, a, b);
    InterruptedFacts(env, flash, uid, a, b);
    var (i, w) := if a < b then (b, a) else (a, b);
    ScanAt(env, flash, temp, i, IndexOf(flash[i].tbl, uid, flash[i].occupancy), w);
  }

  /** After an interrupted update, a record met twice is the one that was moving, and the revisions tell which
      copy is the older. */
  lemma ClashIsInterruption<Key>(env: Env<Key>, flash: seq<DataBlock>, i: nat, j: nat, w: nat)
    requires Recoverable(env, flash) && FirstClash(env, flash, i, j, w)
    ensures var o := Older(flash, i, j, w);
      Interrupted(env, flash, flash[i].tbl[j].uid, o, if o == i then w else i)
  {
    hide Live, NoneTwice, MetBefore, IndexOf, PartCount, Interrupted, Clean, FirstClash;
    if Clean(env, flash) {
      CleanHasNoClash(env, flash);
    } else {
      var uid: nat, a: nat, b: nat :| Interrupted(env, flash, uid, a, b);
      InterruptedClash(env, flash, uid, a, b);
      var (i', w') := if a < b then (b, a) else (a, b);
      FirstClashIsUnique(env, flash, i, j, w, i', IndexOf(flash[i'].tbl, uid, flash[i'].occupancy), w');
    }
  }

  lemma NoneTwiceBefore<Key>(env: Env<Key>, flash: seq<DataBlock>, uid: nat, a: nat, b: nat)
    requires Interrupted(env, flash, uid, a, b)
    ensures |flash| == NUM_BLOCKS
    ensures var i := if a < b then b else a;
      i < NUM_BLOCKS && flash[i].occupancy <= |flash[i].tbl| &&
          NoneTwice(env, flash, i, IndexOf(flash[i].tbl, uid, flash[i].occupancy))
  {
    hide Live, FormedFlash, RecordOf, Holds;
    InterruptedFacts(env, flash, uid, a, b);
    var i := if a < b then b else a;
    var j := IndexOf(flash[i].tbl, uid, flash[i].occupancy);
    hide AtMostOne, IndexOf;
    forall k: nat, l: nat, m: nat, n: nat | MetBefore(env, flash, k, l, i, j) && MetBefore(env, flash, m, n, i, j)
      && flash[k].tbl[l].uid == flash[m].tbl[n].uid
      ensures k == m && l == n
    {
      EntryIsHeld(env, flash, k, l, i, j);
      EntryIsHeld(env, flash, m, n, i, j);
      if flash[k].tbl[l].uid != uid {
        SameHolder(env, flash, flash[k].tbl[l].uid, k, m);
      }
    }
  }

  lemma SameHolder<Key>(env: Env<Key>, flash: seq<DataBlock>, u: nat, k: nat, m: nat)
    requires FormedFlash(env, flash) && AtMostOne(env, flash, u) && HoldsAt(env, flash, u, k)
    requires HoldsAt(env, flash, u, m)
    ensures k == m
  {
  }

  lemma RepairChanges<Key>(env: Env<Key>, b: DataBlock, uid: nat, temp: DataBlock)
    requires Live(env, b) && b.Formed() && Distinct(b) && Holds(b, uid)
    ensures Changes(env, b, Repair(env, b, uid, temp), uid, Nothing)
  {
    hide PartCount, Changes, RecordOf, Live;
    if b.occupancy == 1 {
      FreeChanges(env, b, FreedBlock(temp));
    } else {
      RemoveChanges(env, b, IndexOf(b.tbl, uid, b.occupancy));
    }
  }

  /** One scan makes any recoverable flash clean without changing a single logical record; scanning again
      changes nothing, so at most two scans are ever needed. */
  lemma ScanCleans<Key>(env: Env<Key>, flash: seq<DataBlock>, temp: DataBlock, again: DataBlock)
    requires Recoverable(env, flash)
    ensures FormedFlash(env, flash) && Clean(env, Scan(env, flash, temp))
    ensures forall u: nat :: Logical(env, Scan(env, flash, temp), u) == Logical(env, flash, u)
    ensures Scan(env, Scan(env, flash, temp), again) == Scan(env, flash, temp)
  {
    hide Live, RecordOf, Holds, Logical, Winner, Changes, Scan;
    if !Clean(env, flash) {
      var uid: nat, a: nat, b: nat :| Interrupted(env, flash, uid, a, b);
      InterruptedScanCleans(env, flash, temp, uid, a, b);
      ScanOfClean(env, Scan(env, flash, temp), again);
    } else {
      ScanOfClean(env, flash, temp);
      ScanOfClean(env, flash, again);
    }
  }

  lemma ScanOfClean<Key>(env: Env<Key>, flash: seq<DataBlock>, temp: DataBlock)
    requires Clean(env, flash)
    ensures ScanStep(env, flash, temp) == (flash, temp) && Scan(env, flash, temp) == flash
  {
    hide HasClash, Clean;
    CleanHasNoClash(env, flash);
  }

  lemma InterruptedScanCleans<Key>(env: Env<Key>, flash: seq<DataBlock>, temp: DataBlock, uid: nat, a: nat, b: nat)
    requires Interrupted(env, flash, uid, a, b)
    ensures Clean(env, Scan(env, flash, temp))
    ensures forall u: nat :: Logical(env, Scan(env, flash, temp), u) == Logical(env, flash, u)
  {
    hide Live, RecordOf, Holds, Logical, Winner, Changes, Scan, AtMostOne;
    ScanOfInterrupted(env, flash, temp, uid, a, b);
    InterruptedFacts(env, flash, uid, a, b);
    var after := Repair(env, flash[a], uid, temp);
    RepairChanges(env, flash[a], uid, temp);
    DropOlderCopy(env, flash, a, b, after, uid);
    forall u: nat | u != uid ensures Logical(env, Scan(env, flash, temp), u) == Logical(env, flash, u) {
      OthersKeep(env, flash, a, after, uid, Nothing, u);
    }
  }

  // ----- scanning until nothing is left to repair -----

  /** The entries of the first n blocks. */
  function Entries(flash: seq<DataBlock>, n: nat): nat
    requires n <= |flash|
  {
    if n == 0 then 0 else Entries(flash, n - 1) + flash[n - 1].occupancy
  }

  lemma {:induction false} FewerEntries(flash: seq<DataBlock>, o: nat, b: DataBlock, n: nat)
    requires o < |flash| && n <= |flash| && b.occupancy < flash[o].occupancy
    ensures Entries(flash[o := b], n) <= Entries(flash, n)
    ensures o < n ==> Entries(flash[o := b], n) < Entries(flash, n)
  {
    if n > 0 {
      FewerEntries(flash, o, b, n - 1);
    }
  }

  /** Each repair takes an entry away. */
  lemma ScanTakesEntry<Key>(env: Env<Key>, flash: seq<DataBlock>, temp: DataBlock)
    requires HasClash(env, flash)
    ensures |Scan(env, flash, temp)| == |flash|
    ensures Entries(Scan(env, flash, temp), |flash|) < Entries(flash, |flash|)
  {
    hide Live, NoneTwice, Entries;
    var (i, j, w) := TheClash(env, flash);
    var o := Older(flash, i, j, w);
    FewerEntries(flash, o, Repaired(env, flash, i, j, w, temp), |flash|);
  }

  /** Flash after as many scans as it takes; the buffer of one is the scratch buffer of the next. */
  ghost function ScanAll<Key>(env: Env<Key>, flash: seq<DataBlock>, temp: DataBlock): seq<DataBlock>
    decreases Entries(flash, |flash|)
  {
    if HasClash(env, flash) then
      ScanTakesEntry(env, flash, temp);
      var (f, buffer) := ScanStep(env, flash, temp);
      ScanAll(env, f, buffer)
    else flash
  }

  lemma ScanKeepsShape<Key>(env: Env<Key>, flash: seq<DataBlock>, temp: DataBlock)
    requires Shaped(env, flash)
    ensures Shaped(env, Scan(env, flash, temp))
  {
    hide Live, NoneTwice, IndexOf, Removed;
    if HasClash(env, flash) {
      var (i, j, w) := TheClash(env, flash);
      var o := Older(flash, i, j, w);
      var index := IndexOf(flash[o].tbl, flash[i].tbl[j].uid, flash[o].occupancy);
      RemovedKeepsShape(flash[o], index);
      LiveAfterCrc(env, Removed(flash[o], index));
      FreedIsDead(env, temp);
    }
  }

  lemma FreedIsDead<Key>(env: Env<Key>, temp: DataBlock)
    ensures !Live(env, FreedBlock(temp))
  {
  }

  /** However many repairs a flash needs, the start comes to an end, and flash is clean then. */
  lemma {:induction false} ScanAllCleans<Key>(env: Env<Key>, flash: seq<DataBlock>, temp: DataBlock)
    requires Shaped(env, flash)
    ensures Clean(env, ScanAll(env, flash, temp))
    decreases Entries(flash, |flash|)
  {
    hide HasClash, Shaped, Clean, ScanStep, Entries;
    NoClashExactlyWhenClean(env, flash);
    if HasClash(env, flash) {
      ScanTakesEntry(env, flash, temp);
      ScanKeepsShape(env, flash, temp);
      var (f, buffer) := ScanStep(env, flash, temp);
      ScanAllCleans(env, f, buffer);
    }
  }

  /** Where one scan is enough. */
  lemma OneScanSuffices<Key>(env: Env<Key>, flash: seq<DataBlock>, temp: DataBlock)
    requires Shaped(env, flash) && Clean(env, Scan(env, flash, temp))
    ensures ScanAll(env, flash, temp) == Scan(env, flash, temp)
  {
    hide HasClash, Shaped, Clean, Entries;
    CleanHasNoClash(env, Scan(env, flash, temp));
    if HasClash(env, flash) {
      ScanTakesEntry(env, flash, temp);
    }
  }

  lemma RecoverableIsShaped<Key>(env: Env<Key>, flash: seq<DataBlock>)
    requires Recoverable(env, flash)
    ensures Shaped(env, flash)
  {
  }

  // ----- the tables a scan builds -----

  const BLANK_INFO := Info(false, false, 0, 0, 0, 0)

  function ScannedInfo<Key>(env: Env<Key>, flash: seq<DataBlock>): seq<Info>
    requires |flash| == NUM_BLOCKS
  {
    seq(NUM_BLOCKS, i requires 0 <= i < NUM_BLOCKS => if i < MIN_DATA_BLOCK then BLANK_INFO
        else Scanned(env, flash[i], BLANK_INFO))
  }

  ghost function ScannedMap<Key>(env: Env<Key>, flash: seq<DataBlock>): seq<nat>
    requires FormedFlash(env, flash)
  {
    seq(MAX_UID + 1, u requires 0 <= u <= MAX_UID => if u < MIN_UID then INVALID_BLOCK
        else Winner(env, flash, u, NUM_BLOCKS))
  }

  /** Memory after the last scan. */
  ghost function Rebooted<Key>(env: Env<Key>, flash: seq<DataBlock>, temp: DataBlock): Db
    requires Shaped(env, flash)
  {
    ScanAllCleans(env, flash, temp);
    var clean := ScanAll(env, flash, temp);
    Db(clean, ScannedInfo(env, clean), ScannedMap(env, clean))
  }

  lemma RebootIsSynced<Key>(env: Env<Key>, flash: seq<DataBlock>, temp: DataBlock)
    requires Shaped(env, flash)
    ensures Synced(env, Rebooted(env, flash, temp))
  {
    hide Winner, Scanned, InfoMatches, ScanAll, Shaped, AtMostOne;
    ScanAllCleans(env, flash, temp);
    var db := Rebooted(env, flash, temp);
    forall i: nat | DataIndex(i) ensures InfoMatches(env, db.flash[i], db.info[i]) {
      ScanMatches(env, db.flash[i], BLANK_INFO);
    }
  }

  lemma RebootOfRecoverable<Key>(env: Env<Key>, flash: seq<DataBlock>, temp: DataBlock)
    requires Recoverable(env, flash)
    ensures Shaped(env, flash) && Synced(env, Rebooted(env, flash, temp))
    ensures forall u: nat :: Logical(env, Rebooted(env, flash, temp).flash, u) == Logical(env, flash, u)
  {
    hide Clean, Shaped, Scan, ScanAll, Logical, ScannedInfo, ScannedMap, Synced, Recoverable;
    RecoverableIsShaped(env, flash);
    ScanCleans(env, flash, temp, temp);
    OneScanSuffices(env, flash, temp);
    RebootIsSynced(env, flash, temp);
  }

  // ----- losing power -----

  /** The page writes of an update that was not refused. */
  function WriteCount(p: Plan): nat {
    if Relocates(p) then 2 else 1
  }

  /** Flash when the power fails after this many of the update's page writes. */
  function FlashAfter<Key>(env: Env<Key>, db: Db, q: Request, p: Plan, writes: nat): seq<DataBlock>
    requires Finishable(env, db, q, p)
  {
    if writes == 0 then db.flash
    else if writes == 1 then FirstWrite(env, db.flash, p)
    else Done(env, db, q, p).flash
  }

  /** Whatever write the power fails after, and however the scan's scratch buffer looks, the next start
      finds exactly the old records or exactly the new ones: the new ones once the first write is done. */
  lemma UpdateIsAtomic<Key>(env: Env<Key>, db: Db, q: Request, p: Plan, writes: nat, temp: DataBlock)
    requires Synced(env, db) && GoodRequest(q) && Commits(env, db, q, p) && writes <= WriteCount(p)
    ensures var f := FlashAfter(env, db, q, p, writes);
      && Recoverable(env, f) && Shaped(env, f)
      && var up := Rebooted(env, f, temp);
      && Synced(env, up)
      && (if writes == 0 then forall u: nat :: Logical(env, up.flash, u) == Logical(env, db.flash, u)
          else Stores(env, db.flash, up.flash, q))
  {
    hide Winner, Logical, Scan, Live, RecordOf, Holds, ScannedInfo, ScannedMap, AtMostOne, Recoverable;
    var f := FlashAfter(env, db, q, p, writes);
    RecoverableAfter(env, db, q, p, writes);
    RebootOfRecoverable(env, f, temp);
  }

  lemma RecoverableAfter<Key>(env: Env<Key>, db: Db, q: Request, p: Plan, writes: nat)
    requires Synced(env, db) && GoodRequest(q) && Commits(env, db, q, p) && writes <= WriteCount(p)
    ensures var f := FlashAfter(env, db, q, p, writes);
      Recoverable(env, f) && (writes > 0 ==> Stores(env, db.flash, f, q))
  {
    hide Winner, Logical, Live, RecordOf, Holds, AtMostOne, FormedFlash, Finalized, Stores, Interrupted;
    if writes == 1 && Relocates(p) {
      assert Interrupted(env, FirstWrite(env, db.flash, p), q.uid, p.prevBlock, p.blockNum);
    }
  }
}
