/** The table kept in memory about the blocks, and allocate_uid's choice among them. */
module BlockChoice {
  const MIN_DATA_BLOCK: nat := 1

  /** block_info */
  datatype Info = Info(valid: bool, occupied: bool, partCount: nat, partOccupancy: nat, partSize: nat, partTblOffs: nat)

  predicate Room(i: Info) {
    i.valid && i.occupied && i.partOccupancy < i.partCount
  }

  predicate ExactRoom(i: Info, partSize: nat) {
    Room(i) && i.partSize == partSize
  }

  predicate LargerRoom(i: Info, partSize: nat, limit: nat) {
    Room(i) && partSize <= i.partSize < limit
  }

  predicate Vacant(i: Info) {
    i.valid && !i.occupied
  }

  /** The first block from `from` on with exactly this partition size and room, or 0. */
  function FirstExact(info: seq<Info>, partSize: nat, from: nat): (b: nat)
    requires from > 0
    ensures b == 0 || (from <= b < |info| && ExactRoom(info[b], partSize))
    ensures b == 0 ==> forall i :: from <= i < |info| ==> !ExactRoom(info[i], partSize)
    decreases |info| - from
  {
    if from >= |info| then 0
    else if ExactRoom(info[from], partSize) then from
    else FirstExact(info, partSize, from + 1)
  }

  /** The first unallocated block from `from` on, or 0. */
  function FirstFree(info: seq<Info>, from: nat): (b: nat)
    requires from > 0
    ensures b == 0 || (from <= b < |info| && Vacant(info[b]))
    ensures b == 0 ==> forall i :: from <= i < |info| ==> !Vacant(info[i])
    decreases |info| - from
  {
    if from >= |info| then 0 else if Vacant(info[from]) then from else FirstFree(info, from + 1)
  }

  function FoundSize(info: seq<Info>, found: nat, limit: nat): nat
    requires found < |info|
  {
    if found == 0 then limit else info[found].partSize
  }

  /** The smallest large enough partition size with room among `found` and the blocks from `from` on, or 0. */
  function BestFit(info: seq<Info>, partSize: nat, limit: nat, from: nat, found: nat): (b: nat)
    requires from > 0
    requires |info| > 0 && (found == 0 || (found < from && found < |info| && LargerRoom(info[found], partSize, limit)))
    ensures b == 0 || (0 < b < |info| && LargerRoom(info[b], partSize, limit))
    decreases |info| - from
  {
    if from >= |info| then found
    else if Room(info[from]) && partSize <= info[from].partSize < FoundSize(info, found, limit) then
        BestFit(info, partSize, limit, from + 1, from)
    else BestFit(info, partSize, limit, from + 1, found)
  }

  /** Nothing found means nothing was there, and what is found is the tightest. */
  lemma {:induction false} BestFitIsTightest(info: seq<Info>, partSize: nat, limit: nat, from: nat, found: nat)
    requires from > 0
    requires |info| > 0 && (found == 0 || (found < from && found < |info| && LargerRoom(info[found], partSize, limit)))
    ensures var b := BestFit(info, partSize, limit, from, found);
      if b == 0 then found == 0 && forall i :: from <= i < |info| ==> !LargerRoom(info[i], partSize, limit)
      else
        && FoundSize(info, b, limit) <= FoundSize(info, found, limit)
        && (b != found ==> from <= b && FoundSize(info, b, limit) < FoundSize(info, found, limit))
        && forall i :: from <= i < |info| && LargerRoom(info[i], partSize, limit) ==>
            info[b].partSize <= info[i].partSize
    decreases |info| - from
  {
    if from < |info| {
      var better := Room(info[from]) && partSize <= info[from].partSize < FoundSize(info, found, limit);
      BestFitIsTightest(info, partSize, limit, from + 1, if better then from else found);
    }
  }

  datatype Choice = NoSpace | Existing(block: nat) | Fresh(block: nat)

  function Choose(info: seq<Info>, partSize: nat, limit: nat): Choice
    requires |info| > 0
  {
    var exact := FirstExact(info, partSize, MIN_DATA_BLOCK);
    var free := FirstFree(info, MIN_DATA_BLOCK);
    var larger := BestFit(info, partSize, limit, MIN_DATA_BLOCK, 0);
    if exact != 0 then Existing(exact)
    else if free != 0 then Fresh(free)
    else if larger != 0 then Existing(larger)
    else NoSpace
  }

  /** What the choice goes by, field by field. */
  lemma RoomAndVacancy(i: Info, partSize: nat, limit: nat)
    ensures ExactRoom(i, partSize) <==> i.valid && i.occupied && i.partSize == partSize && i.partOccupancy < i.partCount
    ensures LargerRoom(i, partSize, limit) <==>
      i.valid && i.occupied && partSize <= i.partSize < limit && i.partOccupancy < i.partCount
    ensures Vacant(i) <==> i.valid && !i.occupied
  {
  }

  /** The loops take the first block there is: of several that are as good, the one with the lowest number. */
  lemma FirstIsTaken(info: seq<Info>, partSize: nat, limit: nat, i: nat)
    requires |info| > 0 && partSize < limit && 0 < i
    ensures match Choose(info, partSize, limit)
      case Existing(b) => i < b < |info| && LargerRoom(info[i], partSize, limit) ==> info[b].partSize < info[i].partSize
      case Fresh(b) => i < b < |info| ==> !Vacant(info[i])
      case NoSpace => true
  {
    if i < |info| {
      FirstExactIsFirst(info, partSize, MIN_DATA_BLOCK, i);
      FirstFreeIsFirst(info, MIN_DATA_BLOCK, i);
      BestFitIsTightest(info, partSize, limit, MIN_DATA_BLOCK, 0);
      BestFitIsFirst(info, partSize, limit, MIN_DATA_BLOCK, 0, i);
      ChoiceRule(info, partSize, limit);
      hide FirstExact, FirstFree, BestFit;
    }
  }

  lemma {:induction false} FirstExactIsFirst(info: seq<Info>, partSize: nat, from: nat, i: nat)
    requires 0 < from <= i
    ensures i < FirstExact(info, partSize, from) ==> !ExactRoom(info[i], partSize)
    decreases |info| - from
  {
    if from < i && from < |info| {
      FirstExactIsFirst(info, partSize, from + 1, i);
    }
  }

  lemma {:induction false} FirstFreeIsFirst(info: seq<Info>, from: nat, i: nat)
    requires 0 < from <= i
    ensures i < FirstFree(info, from) ==> !Vacant(info[i])
    decreases |info| - from
  {
    if from < i && from < |info| {
      FirstFreeIsFirst(info, from + 1, i);
    }
  }

  lemma {:induction false} BestFitIsFirst(info: seq<Info>, partSize: nat, limit: nat, from: nat, found: nat, i: nat)
    requires from > 0 && |info| > 0 && from <= i
    requires found == 0 || (found < from && found < |info| && LargerRoom(info[found], partSize, limit))
    ensures var b := BestFit(info, partSize, limit, from, found);
      i < b && LargerRoom(info[i], partSize, limit) ==> info[b].partSize < info[i].partSize
    decreases |info| - from
  {
    if from >= |info| {
      return;
    }
    var better := Room(info[from]) && partSize <= info[from].partSize < FoundSize(info, found, limit);
    var next := if better then from else found;
    BestFitIsTightest(info, partSize, limit, from + 1, next);
    if from < i {
      BestFitIsFirst(info, partSize, limit, from + 1, next, i);
    }
  }

  /** An exact fit if there is one, else a free block if there is one, else the tightest larger fit; no space
      exactly when no data block is any of these. */
  lemma ChoiceRule(info: seq<Info>, partSize: nat, limit: nat)
    requires |info| > 0 && partSize < limit
    ensures match Choose(info, partSize, limit)
      case Existing(b) =>
        && 0 < b < |info| && LargerRoom(info[b], partSize, limit)
        && (forall i :: 0 < i < |info| && LargerRoom(info[i], partSize, limit) ==> info[b].partSize <= info[i].partSize)
        && (info[b].partSize != partSize ==> forall i :: 0 < i < |info| ==> !Vacant(info[i]))
      case Fresh(b) =>
        && 0 < b < |info| && Vacant(info[b])
        && (forall i :: 0 < i < |info| ==> !ExactRoom(info[i], partSize))
      case NoSpace =>
        forall i :: 0 < i < |info| ==> !Vacant(info[i]) && !LargerRoom(info[i], partSize, limit)
  {
    BestFitIsTightest(info, partSize, limit, MIN_DATA_BLOCK, 0);
  }

  // ----- the three loops of allocate_uid -----

  method FindExactBlock(info: array<Info>, partSize: nat) returns (b: nat)
    ensures b == FirstExact(info[..], partSize, MIN_DATA_BLOCK)
  {
    var i := MIN_DATA_BLOCK;
    while i < info.Length
      invariant MIN_DATA_BLOCK <= i
      invariant FirstExact(info[..], partSize, i) == FirstExact(info[..], partSize, MIN_DATA_BLOCK)
    {
      if info[i].valid && info[i].occupied && info[i].partSize == partSize &&
          info[i].partOccupancy < info[i].partCount {
        return i;
      }
      i := i + 1;
    }
    return 0;
  }

  method FindFreeBlock(info: array<Info>) returns (b: nat)
    ensures b == FirstFree(info[..], MIN_DATA_BLOCK)
  {
    var i := MIN_DATA_BLOCK;
    while i < info.Length
      invariant MIN_DATA_BLOCK <= i
      invariant FirstFree(info[..], i) == FirstFree(info[..], MIN_DATA_BLOCK)
    {
      if info[i].valid && !info[i].occupied {
        return i;
      }
      i := i + 1;
    }
    return 0;
  }

  method FindLargerBlock(info: array<Info>, partSize: nat, limit: nat) returns (b: nat)
    requires info.Length > 0
    ensures b == BestFit(info[..], partSize, limit, MIN_DATA_BLOCK, 0)
  {
    b := 0;
    var foundPartSize := limit;
    var i := MIN_DATA_BLOCK;
    while i < info.Length
      invariant MIN_DATA_BLOCK <= i
      invariant b == 0 || (b < i && b < info.Length && LargerRoom(info[b], partSize, limit))
      invariant foundPartSize == FoundSize(info[..], b, limit)
      invariant BestFit(info[..], partSize, limit, i, b) == BestFit(info[..], partSize, limit, MIN_DATA_BLOCK, 0)
    {
      if info[i].valid && info[i].occupied && partSize <= info[i].partSize < foundPartSize &&
          info[i].partOccupancy < info[i].partCount {
        b := i;
        foundPartSize := info[i].partSize;
      }
      i := i + 1;
    }
  }
}
