/** The two random sources as the objects the interrupt handlers and the readers share. */
module RandPoolObject {
  import opened RandRing

  class RandSource {
    const buf: array<bv32>
    var head: nat
    var level: int
    var tail: nat
    var rewindLevel: int
    var rewindTail: int
    var irqEnabled: bool

    ghost function State(): Source
      reads this, buf
    {
      Source(buf[..], head, level, tail, rewindLevel, rewindTail)
    }

    ghost predicate Valid()
      reads this, buf
    {
      RingInv(State())
    }

    constructor ()
      ensures Valid() && fresh(buf) && rewindTail == -1 && level == 0
    {
      buf := new bv32[RING](_ => 0);
      head, level, tail, rewindLevel, rewindTail, irqEnabled := 0, 0, 0, 0, -1, true;
    }

    method Rewind()
      requires Valid()
      modifies this`level, this`tail
      ensures Valid() && State() == RandRing.Rewind(old(State()))
    {
      if rewindTail >= 0 {
        level := rewindLevel;
        tail := rewindTail;
      }
    }

    method Get() returns (word: bv32)
      requires Valid()
      modifies this`level, this`tail
      ensures Valid() && (State(), word) == RandRing.Get(old(State()))
    {
      GetKeepsRing(State());
      if head == tail {
        return 0;
      }
      word := buf[tail];
      tail := (tail + 1) % RING;
      level := level - 1;
    }

    method RewindPoint()
      requires Valid()
      modifies this`rewindTail, this`rewindLevel
      ensures Valid() && State() == SetPoint(old(State()))
    {
      rewindTail := tail;
      rewindLevel := level;
    }

    method Push(val: bv32)
      requires Valid()
      modifies this`head, this`level, this`rewindLevel, this`irqEnabled, buf
      ensures Valid() && State() == RandRing.Push(old(State()), val)
      ensures irqEnabled <==> old(irqEnabled) && old(Wrap(head + 1) != Limit(State()))
    {
      hide RingInv, WordsFrom, RingWords, Window;
      RingBounds(State());
      assert RingInv(RandRing.Push(State(), val)) by { PushKeepsRing(State(), val); }
      var nextHead := (head + 1) % RING;
      var limit: int := if rewindTail < 0 then tail else rewindTail;
      if nextHead != limit {
        buf[head] := buf[head] ^ val;
        level := level + 1;
        head := nextHead;
        if rewindTail >= 0 {
          rewindLevel := rewindLevel + 1;
        }
      } else {
        irqEnabled := false;
      }
    }
  }

  class RandPool {
    const rtc: RandSource
    const rng: RandSource

    ghost function State(): Pool
      reads rtc, rtc.buf, rng, rng.buf
    {
      Pool(rtc.State(), rng.State())
    }

    ghost predicate Valid()
      reads rtc, rtc.buf, rng, rng.buf
    {
      rtc != rng && rtc.buf != rng.buf && PoolInv(State())
    }

    constructor ()
      ensures Valid()
    {
      var a := new RandSource();
      var b := new RandSource();
      rtc, rng := a, b;
    }

    method RandAvail() returns (n: int)
      requires Valid()
      ensures n == Avail(State()) && n <= rtc.level && n <= rng.level
    {
      n := if rtc.level > rng.level then rng.level else rtc.level;
    }

    method RandGet() returns (word: bv32)
      requires Valid()
      modifies rtc, rng
      ensures Valid() && State() == RandRing.Step(old(State()), GetWord) && word == GetBoth(old(State())).1
      ensures rtc.irqEnabled && rng.irqEnabled
    {
      var rtcVal := rtc.Get();
      var rngVal := rng.Get();
      rng.irqEnabled := true;
      rtc.irqEnabled := true;
      return rtcVal ^ rngVal;
    }

    method RandSetRewindPoint()
      requires Valid()
      modifies rtc, rng
      ensures Valid() && State() == RandRing.Step(old(State()), SetBoth)
    {
      rtc.RewindPoint();
      rng.RewindPoint();
    }

    method RandRewind()
      requires Valid()
      modifies rtc, rng
      ensures Valid() && State() == RandRing.Step(old(State()), RewindBoth)
    {
      rng.Rewind();
      rtc.Rewind();
    }

    method RandClearRewindPoint()
      requires Valid()
      modifies rtc, rng
      ensures Valid() && State() == RandRing.Step(old(State()), ClearBoth)
      ensures rtc.irqEnabled && rng.irqEnabled
    {
      rtc.rewindTail := -1;
      rng.rewindTail := -1;
      rng.irqEnabled := true;
      rtc.irqEnabled := true;
    }

    method RandPush(fromRtc: bool, val: bv32)
      requires Valid()
      modifies rtc, rng, rtc.buf, rng.buf
      ensures Valid() && State() == RandRing.Step(old(State()), if fromRtc then PushRtc(val) else PushRng(val))
    {
      if fromRtc {
        rtc.Push(val);
      } else {
        rng.Push(val);
      }
    }
  }
}
