/** Sending the configuration descriptors over the control endpoint in packets of 64 bytes. */
module UsbDescriptors {
  import opened Arithmetic

  type Byte = b: nat | b < 256

  const CTRL_TX_SIZE: nat := 64

  /** The descriptors one after the other. */
  function Flat(d: seq<seq<Byte>>): seq<Byte>
    decreases |d|
  {
    if d == [] then [] else Flat(d[..|d| - 1]) + d[|d| - 1]
  }

  /** A descriptor starts with its own length. */
  ghost predicate Descriptors(d: seq<seq<Byte>>) {
    forall i :: 0 <= i < |d| ==> |d[i]| > 0 && d[i][0] == |d[i]|
  }

  lemma FlatNext(d: seq<seq<Byte>>, n: nat)
    requires n < |d|
    ensures Flat(d[..n + 1]) == Flat(d[..n]) + d[n]
  {
    assert d[..n + 1][..n] == d[..n];
  }

  lemma {:induction false} FlatPrefix(d: seq<seq<Byte>>, n: nat)
    requires n <= |d|
    ensures |Flat(d[..n])| <= |Flat(d)| && Flat(d)[..|Flat(d[..n])|] == Flat(d[..n])
    decreases |d| - n
  {
    if n < |d| {
      FlatNext(d, n);
      FlatPrefix(d, n + 1);
    } else {
      assert d[..n] == d;
    }
  }

  /** Byte `at` of descriptor n in the whole. */
  lemma FlatAt(d: seq<seq<Byte>>, n: nat, at: nat)
    requires n < |d| && at < |d[n]|
    ensures |Flat(d[..n])| + at < |Flat(d)| && Flat(d)[|Flat(d[..n])| + at] == d[n][at]
  {
    FlatNext(d, n);
    FlatPrefix(d, n + 1);
    assert Flat(d)[|Flat(d[..n])| + at] == Flat(d)[..|Flat(d[..n + 1])|][|Flat(d[..n])| + at];
  }

  lemma SomeLeft(d: seq<seq<Byte>>, n: nat)
    requires Descriptors(d) && n <= |d|
    ensures |Flat(d[..n])| < |Flat(d)| <==> n < |d|
  {
    FlatPrefix(d, n);
    if n < |d| {
      FlatAt(d, n, 0);
    } else {
      assert d[..n] == d;
    }
  }

  /** The loop has passed `total` bytes; `remaining` of descriptor idx - 1 are left, from byte `at` of it. */
  ghost predicate Reading(d: seq<seq<Byte>>, idx: nat, at: nat, remaining: nat, total: nat) {
    && idx <= |d|
    && (remaining > 0 ==> idx > 0 && at + remaining == |d[idx - 1]| && total == |Flat(d[..idx - 1])| + at)
    && (remaining == 0 ==> total == |Flat(d[..idx])|)
  }

  lemma ReadingStarts(d: seq<seq<Byte>>)
    ensures Reading(d, 0, 0, 0, 0)
  {
  }

  lemma OpenNext(d: seq<seq<Byte>>, idx: nat, at: nat, total: nat)
    requires Descriptors(d) && Reading(d, idx, at, 0, total) && idx < |d|
    ensures d[idx] != [] && d[idx][0] > 0 && Reading(d, idx + 1, 0, d[idx][0], total)
  {
  }

  lemma ReadByte(d: seq<seq<Byte>>, idx: nat, at: nat, remaining: nat, total: nat)
    requires Reading(d, idx, at, remaining, total) && remaining > 0
    ensures 0 < idx <= |d| && at < |d[idx - 1]|
    ensures total < |Flat(d)| && Flat(d)[total] == d[idx - 1][at]
    ensures Reading(d, idx, at + 1, remaining - 1, total + 1)
  {
    hide Flat;
    FlatAt(d, idx - 1, at);
    FlatNext(d, idx - 1);
  }

  /** Everything has been passed exactly when no descriptor and no byte is left. */
  lemma ReadingEnds(d: seq<seq<Byte>>, idx: nat, at: nat, remaining: nat, total: nat)
    requires Descriptors(d) && Reading(d, idx, at, remaining, total)
    ensures idx <= |d| && total <= |Flat(d)|
    ensures idx == |d| && remaining == 0 <==> total == |Flat(d)|
  {
    hide Flat;
    SomeLeft(d, idx);
    FlatPrefix(d, idx);
    if remaining > 0 {
      FlatAt(d, idx - 1, at);
    }
  }

  // ----- packet memory -----

  /** Packet memory holds two bytes a word, the first in the low half. */
  function PacketBytes(words: seq<nat>, count: nat): (b: seq<nat>)
    requires count <= 2 * |words|
    ensures |b| == count
  {
    seq(count, k requires 0 <= k < count => if k % 2 == 0 then words[k / 2] % 256 else words[k / 2] / 256)
  }

  function Pair(low: nat, high: nat): nat { low + 256 * high }

  /** The words for the first n bytes of s: whole pairs are in place, a last odd byte is still in `val`. */
  ghost predicate Packed(words: seq<nat>, val: nat, s: seq<Byte>) {
    && |s| <= 2 * |words|
    && (forall k :: 0 <= k < |s| / 2 ==> words[k] == Pair(s[2 * k], s[2 * k + 1]))
    && val == if |s| % 2 == 1 then s[|s| - 1] else 0
  }

  lemma PackByte(words: seq<nat>, val: nat, s: seq<Byte>, b: Byte)
    requires Packed(words, val, s) && |s| < 2 * |words|
    ensures |s| % 2 == 0 ==> Packed(words, val + b, s + [b])
    ensures |s| % 2 == 1 ==> Packed(words[|s| / 2 := Pair(val, b)], 0, s + [b])
  {
  }

  lemma PackedBytes(words: seq<nat>, val: nat, s: seq<Byte>)
    requires Packed(words, val, s)
    requires |s| % 2 == 1 ==> words[|s| / 2] == val
    ensures PacketBytes(words, |s|) == s
  {
    forall k | 0 <= k < |s| ensures PacketBytes(words, |s|)[k] == s[k] {
      if k / 2 < |s| / 2 {
        assert words[k / 2] == Pair(s[2 * (k / 2)], s[2 * (k / 2) + 1]);
      } else {
        assert k == |s| - 1;
      }
    }
  }

  /** In packet memory the first byte of a pair is the low one. */
  lemma LowByteFirst(words: seq<nat>, s: seq<Byte>, k: nat)
    requires |s| <= 2 * |words| && PacketBytes(words, |s|) == s
    ensures 2 * k + 1 < |s| ==> words[k] == (s[2 * k] as nat) + 256 * (s[2 * k + 1] as nat)
    ensures 2 * k + 1 == |s| ==> words[k] % 256 == s[2 * k]
  {
    if 2 * k < |s| {
      assert PacketBytes(words, |s|)[2 * k] == words[k] % 256;
    }
    if 2 * k + 1 < |s| {
      assert PacketBytes(words, |s|)[2 * k + 1] == words[k] / 256;
    }
  }

  // ----- the exchange -----

  /** The stretch one call sends. */
  function Stretch(all: seq<Byte>, restart: nat, max: nat): seq<Byte>
    requires restart <= |all|
  {
    all[restart..Min(restart + max, |all|)]
  }

  /** Where the next call goes on, or -1. */
  function Resume(all: seq<Byte>, restart: nat, max: nat): int {
    if restart + max >= |all| then -1 else restart + max
  }

  /** The packets of the exchange from byte `restart` on. */
  function PacketsFrom(all: seq<Byte>, wLength: nat, restart: nat): seq<seq<Byte>>
    requires restart <= |all| && restart <= wLength
    decreases |all| - restart
  {
    var max := Min(wLength - restart, CTRL_TX_SIZE);
    if max == 0 then []
    else if restart + max >= |all| then [Stretch(all, restart, max)]
    else [Stretch(all, restart, max)] + PacketsFrom(all, wLength, restart + max)
  }

  /** All packets of a request; even a request for nothing gets one, empty. */
  function Packets(all: seq<Byte>, wLength: nat): seq<seq<Byte>> {
    if wLength == 0 || all == [] then [[]] else PacketsFrom(all, wLength, 0)
  }

  function Concat(packets: seq<seq<Byte>>): seq<Byte>
    decreases |packets|
  {
    if packets == [] then [] else packets[0] + Concat(packets[1..])
  }

  lemma {:induction false} PacketsFromConcat(all: seq<Byte>, wLength: nat, restart: nat)
    requires restart < |all| && restart <= wLength
    ensures Concat(PacketsFrom(all, wLength, restart)) == all[restart..Min(wLength, |all|)]
    decreases |all| - restart
  {
    var max := Min(wLength - restart, CTRL_TX_SIZE);
    if max > 0 {
      var head := Stretch(all, restart, max);
      if restart + max >= |all| {
        assert Concat([head]) == head + Concat([]);
      } else {
        PacketsFromConcat(all, wLength, restart + max);
        var tail := PacketsFrom(all, wLength, restart + max);
        assert ([head] + tail)[1..] == tail;
        assert head + all[restart + max..Min(wLength, |all|)] == all[restart..Min(wLength, |all|)];
      }
    }
  }

  lemma {:induction false} PacketsFromSizes(all: seq<Byte>, wLength: nat, restart: nat)
    requires restart < |all| && restart <= wLength
    ensures var p := PacketsFrom(all, wLength, restart);
      && (forall i :: 0 <= i < |p| - 1 ==> |p[i]| == CTRL_TX_SIZE)
      && (p != [] ==> 0 < |p[|p| - 1]| <= CTRL_TX_SIZE)
      && (p == [] <==> restart == wLength)
      && (p != [] ==> Min(wLength, |all|) - restart == (|p| - 1) * CTRL_TX_SIZE + |p[|p| - 1]|)
    decreases |all| - restart
  {
    var max := Min(wLength - restart, CTRL_TX_SIZE);
    if max > 0 && restart + max < |all| {
      PacketsFromSizes(all, wLength, restart + max);
    }
  }

  /** The packets put together are the first wLength bytes of the descriptors, as far as there are that many;
      all but the last are full; and their number is the least that can carry them. */
  lemma PacketsCarryPrefix(all: seq<Byte>, wLength: nat)
    ensures var p := Packets(all, wLength);
      && Concat(p) == all[..Min(wLength, |all|)]
      && |p| > 0
      && (forall i :: 0 <= i < |p| - 1 ==> |p[i]| == 64)
      && |p[|p| - 1]| <= 64
      && (|p| > 1 ==> (|p| - 1) * 64 < Min(wLength, |all|))
  {
    if wLength == 0 || all == [] {
      assert Concat([[]]) == [] + Concat([]);
    } else {
      PacketsFromConcat(all, wLength, 0);
      PacketsFromSizes(all, wLength, 0);
    }
  }

  /** The host can tell the end, by a short last packet or by having all it asked for, except where the
      descriptors are fewer bytes than that and fill their last packet: no empty packet follows then. */
  lemma EndIsSeenExactlyWhen(all: seq<Byte>, wLength: nat)
    requires wLength > 0 && all != []
    ensures var p := Packets(all, wLength);
      && |p| > 0
      && (|p[|p| - 1]| < CTRL_TX_SIZE || |Concat(p)| == wLength <==> wLength <= |all| || |all| % CTRL_TX_SIZE != 0)
  {
    PacketsFromConcat(all, wLength, 0);
    PacketsFromSizes(all, wLength, 0);
  }

  // ----- the two lists there are -----

  const DESKTOP_LENGTHS: seq<nat> := [9, 8, 9, 5, 5, 4, 5, 7, 9, 7, 7, 9, 9, 7, 7, 9, 9, 7]
  const MOBILE_LENGTHS: seq<nat> := [9, 8, 9, 5, 5, 4, 5, 7, 9, 7, 7, 9, 9, 7, 7]

  /** The first n lengths together. */
  function Sum(lengths: seq<nat>, n: nat): nat
    requires n <= |lengths|
  {
    if n == 0 then 0 else Sum(lengths, n - 1) + lengths[n - 1]
  }

  ghost predicate HasLengths(d: seq<seq<Byte>>, lengths: seq<nat>) {
    |d| == |lengths| && forall i :: 0 <= i < |d| ==> |d[i]| == lengths[i]
  }

  lemma {:induction false} FlatLength(d: seq<seq<Byte>>, lengths: seq<nat>, n: nat)
    requires HasLengths(d, lengths) && n <= |d|
    ensures |Flat(d[..n])| == Sum(lengths, n)
  {
    if n > 0 {
      FlatLength(d, lengths, n - 1);
      FlatNext(d, n - 1);
    }
  }

  lemma {:induction false} SamePrefixSum(a: seq<nat>, b: seq<nat>, n: nat)
    requires n <= |a| && n <= |b| && a[..n] == b[..n]
    ensures Sum(a, n) == Sum(b, n)
  {
    if n > 0 {
      assert a[..n - 1] == a[..n][..n - 1] && b[..n - 1] == b[..n][..n - 1];
      SamePrefixSum(a, b, n - 1);
      assert a[n - 1] == a[..n][n - 1] == b[n - 1];
    }
  }

  lemma ListSizes()
    ensures Sum(DESKTOP_LENGTHS, 18) == 132 && Sum(MOBILE_LENGTHS, 15) == 107
  {
    var d := DESKTOP_LENGTHS;
    assert Sum(d, 2) == 17;
    assert Sum(d, 4) == 31;
    assert Sum(d, 6) == 40;
    assert Sum(d, 8) == 52;
    assert Sum(d, 10) == 68;
    assert Sum(d, 12) == 84;
    assert Sum(d, 14) == 100;
    assert Sum(d, 16) == 116;
    SamePrefixSum(d, MOBILE_LENGTHS, 15);
  }

  /** The lists of this firmware never end that way: the host always sees the end. */
  lemma OwnListsAreSeenToEnd(d: seq<seq<Byte>>, wLength: nat)
    requires HasLengths(d, DESKTOP_LENGTHS) || HasLengths(d, MOBILE_LENGTHS)
    requires wLength > 0
    ensures var p := Packets(Flat(d), wLength);
      |p| > 0 && (|p[|p| - 1]| < CTRL_TX_SIZE || |Concat(p)| == wLength)
  {
    FlatLength(d, if HasLengths(d, DESKTOP_LENGTHS) then DESKTOP_LENGTHS else MOBILE_LENGTHS, |d|);
    assert d[..|d|] == d;
    ListSizes();
    hide Flat, Packets, Concat, Sum;
    EndIsSeenExactlyWhen(Flat(d), wLength);
  }
}
