/** The flash driver and the root page code on top of it: memory is erased a sector at a time and programmed
    in place, 16 words for each call of flash_idle. */
module RootFlashObject {
  import opened Arithmetic
  import opened FlashSectors
  import opened RootPage

  const WORD: nat := 4

  datatype FlashState = FlashIdleState | FlashErasing | FlashWriting

  /** Where a copy lives. */
  function AreaOf(c: Copy): nat { if c.One? then SectorToAddr(0) else SectorToAddr(1) }

  class RootFlash {
    const env: Env
    const one: array<nat>      // the words of sector 0
    const two: array<nat>      // the words of sector 1
    var flashState: FlashState
    var eraseSector: int
    var writeDest: nat
    var writeSrc: array<nat>
    var srcPos: nat
    var writeLength: int       // bytes
    var rootPage: Copy
    var rootPageSet: bool      // _root_page is not null
    var rootPageValid: bool

    // what the write under way started from, and how far it is
    ghost var before: Words
    ghost var image: Words
    ghost var steps: nat

    ghost function State(): Root
      reads one, two
    {
      Root(one[..], two[..])
    }

    ghost predicate Sized()
    {
      EnvOk(env) && one.Length == PAGE_WORDS && two.Length == PAGE_WORDS && one != two
    }

    /** The driver is where its ghost account says it is. */
    ghost predicate Valid()
      reads this, one, two, writeSrc
    {
      && Sized() && writeSrc != one && writeSrc != two
      && (flashState != FlashIdleState ==>
           && |image| <= PAGE_WORDS && |image| <= writeSrc.Length && writeSrc[..|image|] == image
           && |before| == PAGE_WORDS
           && State().Page(rootPage) == PageAfter(before, image, steps))
      && (flashState == FlashErasing ==>
           && steps == 0 && srcPos == 0 && writeLength == WORD * |image| && writeDest == AreaOf(rootPage)
           && eraseSector == FirstSector(writeDest, 0))
      && (flashState == FlashWriting ==>
           && steps > 0 && srcPos == WORDS_PER_STEP * (steps - 1) < |image|
           && writeLength == WORD * (|image| - srcPos)
           && writeDest == AreaOf(rootPage) + WORD * srcPos)
    }

    constructor (env: Env, one: array<nat>, two: array<nat>, scratch: array<nat>)
      requires EnvOk(env) && one.Length == PAGE_WORDS && two.Length == PAGE_WORDS && one != two && scratch != one
      requires scratch != two
      ensures Valid() && this.env == env && this.one == one && this.two == two && flashState == FlashIdleState
    {
      this.env, this.one, this.two, writeSrc := env, one, two, scratch;
      flashState, eraseSector, writeDest, srcPos, writeLength := FlashIdleState, 0, 0, 0, 0;
      rootPage, rootPageSet, rootPageValid, before, image, steps := One, false, false, [], [], 0;
    }

    method EraseSector(sector: int)
      requires Sized() && sector in {0, 1}
      modifies one, two
      ensures State() == old(State()).Write(if sector == 0 then One else Two, Erasure(PAGE_WORDS))
    {
      var target := if sector == 0 then one else two;
      forall i | 0 <= i < PAGE_WORDS {
        target[i] := ERASED;
      }
      assert target[..] == Erasure(PAGE_WORDS);
    }

    /** Programming one word at a byte address. */
    method ProgramWord(addr: nat, word: nat)
      requires Sized() && SectorToAddr(0) <= addr < SectorToAddr(2) && addr % WORD == 0
      modifies one, two
      ensures var c := if addr < SectorToAddr(1) then One else Two;
        State() == old(State()).Write(c, old(State()).Page(c)[(addr - AreaOf(c)) / WORD := word])
    {
      if addr < SectorToAddr(1) {
        one[(addr - SectorToAddr(0)) / WORD] := word;
      } else {
        two[(addr - SectorToAddr(1)) / WORD] := word;
      }
    }

    method FlashWritePage(c: Copy, src: array<nat>, count: nat)
      requires Sized() && flashState == FlashIdleState && count <= PAGE_WORDS && count <= src.Length
      requires src != one && src != two && rootPage == c
      modifies this`flashState, this`eraseSector, this`writeDest, this`writeSrc, this`srcPos, this`writeLength,
        this`before, this`image, this`steps
      ensures Valid() && flashState == FlashErasing
      ensures before == State().Page(c) && image == src[..count] && steps == 0 && writeSrc == src
    {
      hide FirstSector, AreaOf;
      writeDest, writeSrc, srcPos, writeLength := AreaOf(c), src, 0, WORD * count;
      eraseSector := AddrToSector(writeDest);
      flashState := FlashErasing;
      before, image, steps := State().Page(c), src[..count], 0;
    }

    /** The next words of the image, 16 at most. */
    method ProgramWords()
      requires Valid() && flashState == FlashWriting
      modifies this`writeDest, this`srcPos, this`writeLength, one, two
      ensures srcPos == Min(old(srcPos) + WORDS_PER_STEP, |image|)
      ensures writeLength == WORD * (|image| - srcPos) && writeDest == AreaOf(rootPage) + WORD * srcPos
      ensures State() == old(State()).Write(rootPage, Programmed(image, srcPos))
    {
      hide Programmed, FirstSector;
      ghost var from := srcPos;
      var i := 0;
      while i < WORDS_PER_STEP && writeLength > 0
        modifies this`writeDest, this`srcPos, this`writeLength, one, two
        invariant 0 <= i <= WORDS_PER_STEP && srcPos == from + i <= |image|
        invariant writeLength == WORD * (|image| - srcPos) && writeDest == AreaOf(rootPage) + WORD * srcPos
        invariant writeSrc[..|image|] == image
        invariant State() == old(State()).Write(rootPage, Programmed(image, srcPos))
      {
        assert writeSrc[srcPos] == writeSrc[..|image|][srcPos];
        ProgramNext(image, srcPos);
        ProgramWord(writeDest, writeSrc[srcPos]);
        writeLength := writeLength - WORD;
        srcPos := srcPos + 1;
        writeDest := writeDest + WORD;
        i := i + 1;
      }
    }

    /** One step of the write under way: PageAfter moves on by one and nothing else changes. */
    method FlashIdle()
      requires Valid() && flashState != FlashIdleState
      modifies this`flashState, this`writeDest, this`srcPos, this`writeLength, this`steps, one, two
      ensures Valid() && steps == old(steps) + 1
      ensures State() == old(State()).Write(rootPage, PageAfter(before, image, steps))
      ensures flashState == FlashIdleState <==> steps == StepsFor(image)
    {
      hide FirstSector, Programmed;
      if flashState == FlashErasing {
        SectorsPartitionFlash(writeDest, if rootPage.One? then 0 else 1);
        EraseSector(eraseSector);
        NothingProgrammed(image);
        flashState := if writeLength != 0 then FlashWriting else FlashIdleState;
      } else {
        StepEnd(|image|, srcPos);
        ProgramWords();
        if writeLength == 0 {
          flashState := FlashIdleState;
        }
      }
      steps := steps + 1;
    }

    /** cmd_init: the copy is chosen, and marked valid whether or not any copy is good. */
    method CmdInit()
      requires Sized()
      modifies this`rootPage, this`rootPageSet, this`rootPageValid
      ensures rootPage == Select(env, State()) && rootPageSet && rootPageValid
    {
      var good1 := env.crc(one[1..env.dataWords]) == one[0];
      var good2 := env.crc(two[1..env.dataWords]) == two[0];
      assert one[..][1..env.dataWords] == one[1..env.dataWords] && two[..][1..env.dataWords] == two[1..env.dataWords];
      rootPage := One;
      if good1 {
        if good2 {
          if one[2] % ITERATIONS > two[2] % ITERATIONS {
            rootPage := One;
          } else {
            rootPage := Two;
          }
        }
      } else if good2 {
        rootPage := Two;
      }
      rootPageSet := true;
      rootPageValid := true;
    }

    method StampData(data: array<nat>, iteration: nat)
      requires EnvOk(env) && env.dataWords <= data.Length && iteration < ITERATIONS
      modifies data
      ensures data[..] == Stamped(env, old(data[..]), iteration)
      ensures KeepsAll(old(data[..]), data[..], data.Length)
    {
      StampedKeepsData(env, data[..], iteration);
      data[2] := data[2] - data[2] % ITERATIONS + iteration;
      ghost var d := data[..];
      assert data[1..env.dataWords] == d[1..env.dataWords];
      data[0] := env.crc(data[1..env.dataWords]);
    }

    /** The data is stamped with the next number, or with 0 if no page was ever valid. */
    method WriteRootBlock(data: array<nat>)
      requires Valid() && flashState == FlashIdleState && (rootPageValid ==> rootPageSet)
      requires env.dataWords <= data.Length <= PAGE_WORDS && data != one && data != two
      modifies this, data
      ensures Valid() && flashState == FlashErasing && steps == 0 && State() == old(State())
      ensures rootPageSet && rootPage == (if old(rootPageSet) then Other(old(rootPage)) else One)
      ensures rootPageValid == old(rootPageValid) && before == State().Page(rootPage)
      ensures image == Stamped(env, old(data[..]),
        if rootPageValid then NextIteration(env, old(State()), old(rootPage)) else 0)
      ensures |image| == data.Length && KeepsAll(old(data[..]), image, data.Length)
    {
      hide Stamped, KeepsAll;
      var last := if rootPage.One? then one[2] else two[2];
      StampData(data, if rootPageValid then (last % ITERATIONS + 1) % ITERATIONS else 0);
      rootPage := if rootPageSet then Other(rootPage) else One;
      rootPageSet := true;
      FlashWritePage(rootPage, data, data.Length);
      assert data[..data.Length] == data[..];
    }

    /** A whole root write: the memory is what During says after the last step. */
    method WriteRootBlockToEnd(data: array<nat>)
      requires Valid() && flashState == FlashIdleState && rootPageSet && rootPageValid
      requires env.dataWords <= data.Length <= PAGE_WORDS && data != one && data != two
      modifies this, data, one, two
      ensures Valid() && flashState == FlashIdleState && rootPage == Other(old(rootPage))
      ensures State() == During(env, old(State()), old(rootPage), old(data[..]), StepsFor(old(data[..])))
    {
      ghost var root := State();
      WriteRootBlock(data);
      while flashState != FlashIdleState
        modifies this`flashState, this`writeDest, this`srcPos, this`writeLength, this`steps, one, two
        invariant Valid() && steps <= StepsFor(image)
        invariant flashState == FlashIdleState <==> steps == StepsFor(image)
        invariant State() == root.Write(rootPage, PageAfter(before, image, steps))
        decreases StepsFor(image) - steps
      {
        FlashIdle();
      }
    }
  }

  lemma StepEnd(n: nat, from: nat)
    requires from < n && from % WORDS_PER_STEP == 0
    ensures (from + WORDS_PER_STEP >= n) <==> from / WORDS_PER_STEP + 1 == (n + WORDS_PER_STEP - 1) / WORDS_PER_STEP
  {
  }

  lemma ProgramNext(image: Words, n: nat)
    requires n < |image| <= PAGE_WORDS
    ensures Programmed(image, n)[n := image[n]] == Programmed(image, n + 1)
  {
  }

  lemma NothingProgrammed(image: Words)
    requires |image| <= PAGE_WORDS
    ensures Programmed(image, 0) == Erasure(PAGE_WORDS)
  {
  }
}
