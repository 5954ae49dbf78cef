/** Printing an ECDSA signature as a DER SEQUENCE of two INTEGERs (sections 8.3, 8.9 and 10.1 of ITU-T X.690). */
module DerSignature {

  type Byte = b: nat | b < 256

  const HALF: nat := 32
  const SIG_MAX: nat := 72
  const TAG_SEQUENCE: Byte := 0x30
  const TAG_INTEGER: Byte := 0x02

  /** Big-endian value. */
  function Value(b: seq<Byte>): nat
    decreases |b|
  {
    if b == [] then 0 else 256 * Value(b[..|b| - 1]) + b[|b| - 1]
  }

  function LeadingZeros(b: seq<Byte>, from: nat): (n: nat)
    requires from <= |b|
    ensures from + n <= |b|
    ensures forall k :: from <= k < from + n ==> b[k] == 0
    ensures from + n < |b| ==> b[from + n] != 0
    decreases |b| - from
  {
    if from < |b| && b[from] == 0 then 1 + LeadingZeros(b, from + 1) else 0
  }

  ghost predicate NonZero(b: seq<Byte>) {
    exists k :: 0 <= k < |b| && b[k] != 0
  }

  /** The content octets: no superfluous zeros, and one where the number would look negative. */
  function Content(b: seq<Byte>): seq<Byte>
    requires LeadingZeros(b, 0) < |b|
  {
    var rest := b[LeadingZeros(b, 0)..];
    if rest[0] >= 0x80 then [0] + rest else rest
  }

  function Integer(content: seq<Byte>): seq<Byte>
    requires |content| < 128
  {
    [TAG_INTEGER, |content|] + content
  }

  function Sequence(r: seq<Byte>, s: seq<Byte>): seq<Byte>
    requires |r| + |s| + 4 < 128
  {
    [TAG_SEQUENCE, |r| + |s| + 4] + Integer(r) + Integer(s)
  }

  lemma ContentSize(b: seq<Byte>)
    requires |b| == HALF && NonZero(b)
    ensures LeadingZeros(b, 0) < HALF && 1 <= |Content(b)| <= HALF + 1
  {
  }

  // ----- the printer -----

  method LeadCount(b: array<Byte>, at: nat) returns (n: nat)
    requires at + HALF <= b.Length
    ensures n == LeadingZeros(b[at..at + HALF], 0)
  {
    ghost var half := b[at..at + HALF];
    n := 0;
    while n < HALF
      invariant n <= HALF && n + LeadingZeros(half, n) == LeadingZeros(half, 0)
    {
      assert b[at + n] == half[n];
      if b[at + n] == 0 {
        n := n + 1;
      } else {
        break;
      }
    }
  }

  method Move(out: array<Byte>, to: nat, src: array<Byte>, from: nat, n: nat)
    requires to + n <= out.Length && from + n <= src.Length && out != src
    modifies out
    ensures forall k :: 0 <= k < out.Length ==> out[k] == if to <= k < to + n then src[from + k - to] else old(out[k])
  {
    var i := 0;
    while i < n
      invariant i <= n
      invariant forall k :: 0 <= k < out.Length ==> out[k] == if to <= k < to + i then src[from + k - to]
          else old(out[k])
    {
      out[to + i] := src[from + i];
      i := i + 1;
    }
  }

  lemma PutIsInteger(der: seq<Byte>, at: nat, b: seq<Byte>, lead: nat, pad: nat)
    requires |b| == HALF && lead == LeadingZeros(b, 0) < HALF && pad == if b[lead] >= 0x80 then 1 else 0
    requires at + 2 + pad + HALF - lead <= |der|
    requires der[at] == TAG_INTEGER && der[at + 1] == HALF + pad - lead && (pad == 1 ==> der[at + 2] == 0)
    requires der[at + 2 + pad..at + 2 + pad + HALF - lead] == b[lead..]
    ensures |Content(b)| == HALF + pad - lead && der[at..at + 2 + |Content(b)|] == Integer(Content(b))
  {
    hide Content, LeadingZeros, Integer;
    ContentAt(b, lead, pad);
    if pad == 0 {
      assert [] + b[lead..] == b[lead..];
      PlainInteger(der, at, b[lead..]);
    } else {
      PaddedInteger(der, at, b[lead..]);
    }
  }

  lemma PlainInteger(der: seq<Byte>, at: nat, rest: seq<Byte>)
    requires |rest| < 127 && at + 2 + |rest| <= |der| && der[at] == TAG_INTEGER && der[at + 1] == |rest|
    requires der[at + 2..at + 2 + |rest|] == rest
    ensures der[at..at + 2 + |rest|] == Integer(rest)
  {
    TwoAndRest(der, at, at + 2 + |rest|);
  }

  lemma PaddedInteger(der: seq<Byte>, at: nat, rest: seq<Byte>)
    requires |rest| < 127 && at + 3 + |rest| <= |der| && der[at] == TAG_INTEGER && der[at + 1] == |rest| + 1
    requires der[at + 2] == 0
    requires der[at + 3..at + 3 + |rest|] == rest
    ensures der[at..at + 3 + |rest|] == Integer([0] + rest)
  {
    TwoAndRest(der, at, at + 3 + |rest|);
    OneAndRest(der, at + 2, at + 3 + |rest|);
  }

  lemma ContentAt(b: seq<Byte>, lead: nat, pad: nat)
    requires lead == LeadingZeros(b, 0) < |b| && pad == if b[lead] >= 0x80 then 1 else 0
    ensures Content(b) == (if pad == 1 then [0] else []) + b[lead..]
  {
  }

  lemma TwoAndRest(s: seq<Byte>, from: nat, to: nat)
    requires from + 2 <= to <= |s|
    ensures s[from..to] == [s[from], s[from + 1]] + s[from + 2..to]
  {
  }

  lemma OneAndRest(s: seq<Byte>, from: nat, to: nat)
    requires from < to <= |s|
    ensures s[from..to] == [s[from]] + s[from + 1..to]
  {
  }

  method Clear(der: array<Byte>, n: nat)
    requires n <= der.Length
    modifies der
    ensures forall k :: 0 <= k < n ==> der[k] == 0
    ensures forall k :: n <= k < der.Length ==> der[k] == old(der[k])
  {
    var i := 0;
    while i < n
      invariant i <= n && forall k :: 0 <= k < i ==> der[k] == 0
      invariant forall k :: n <= k < der.Length ==> der[k] == old(der[k])
    {
      der[i] := 0;
      i := i + 1;
    }
  }

  /** One of the two ingredients: tag, length, the zero that keeps the number positive, and the octets. */
  method PutInteger(der: array<Byte>, at: nat, sig: array<Byte>, half: nat, lead: nat, pad: nat, ghost b: seq<Byte>)
    requires sig.Length == 2 * HALF && half in {0, HALF} && sig != der && b == sig[half..half + HALF]
    requires lead == LeadingZeros(b, 0) < HALF && pad == if b[lead] >= 0x80 then 1 else 0
    requires at + 2 + pad + HALF - lead <= der.Length
    modifies der
    ensures var c := Content(b);
      && |c| == HALF + pad - lead
      && der[at..at + 2 + |c|] == Integer(c)
      && der[..at] == old(der[..at])
      && der[at + 2 + |c|..] == old(der[at + 2 + HALF + pad - lead..])
  {
    hide Content, Integer, LeadingZeros;
    assert sig[half + lead..half + HALF] == b[lead..];
    der[at] := TAG_INTEGER;
    der[at + 1 + pad] := 0;
    der[at + 1] := 0x20 + pad - lead;
    Move(der, at + 2 + pad, sig, half + lead, HALF - lead);
    assert der[at + 2 + pad..at + 2 + pad + HALF - lead] == b[lead..];
    PutIsInteger(der[..], at, b, lead, pad);
  }

  method PutBoth(der: array<Byte>, sig: array<Byte>, leadR: nat, padR: nat, leadS: nat, padS: nat,
      ghost r: seq<Byte>, ghost s: seq<Byte>)
    requires sig.Length == 2 * HALF && der.Length >= SIG_MAX && sig != der
    requires r == sig[0..0 + HALF] && s == sig[HALF..HALF + HALF]
    requires leadR == LeadingZeros(r, 0) < HALF && padR == if r[leadR] >= 0x80 then 1 else 0
    requires leadS == LeadingZeros(s, 0) < HALF && padS == if s[leadS] >= 0x80 then 1 else 0
    modifies der
    ensures var c, d := Content(r), Content(s);
      && |c| == HALF + padR - leadR && |d| == HALF + padS - leadS
      && der[2..6 + |c| + |d|] == Integer(c) + Integer(d)
      && der[..2] == old(der[..2])
      && der[6 + |c| + |d|..] == old(der[6 + HALF + padR - leadR + HALF + padS - leadS..])
  {
    hide Content, Integer, LeadingZeros;
    ghost var before := der[..];
    PutInteger(der, 2, sig, 0, leadR, padR, r);
    ghost var mid := der[..];
    PutInteger(der, 4 + 32 + padR - leadR, sig, HALF, leadS, padS, s);
    Joined(before, mid, der[..], Content(r), Content(s));
  }

  /** Two ingredients put one after the other: each leaves the rest alone. */
  lemma Joined(before: seq<Byte>, mid: seq<Byte>, der: seq<Byte>, c: seq<Byte>, d: seq<Byte>)
    requires |c| <= HALF + 1 && |d| <= HALF + 1 && 6 + |c| + |d| <= |before| == |mid| == |der|
    requires mid[..2] == before[..2] && mid[2..4 + |c|] == Integer(c) && mid[4 + |c|..] == before[4 + |c|..]
    requires der[..4 + |c|] == mid[..4 + |c|] && der[4 + |c|..6 + |c| + |d|] == Integer(d)
    requires der[6 + |c| + |d|..] == mid[6 + |c| + |d|..]
    ensures der[2..6 + |c| + |d|] == Integer(c) + Integer(d)
    ensures der[..2] == before[..2] && der[6 + |c| + |d|..] == before[6 + |c| + |d|..]
  {
    hide Integer;
    assert der[2..4 + |c|] == der[..4 + |c|][2..] == mid[..4 + |c|][2..] == mid[2..4 + |c|];
    assert der[2..6 + |c| + |d|] == der[2..4 + |c|] + der[4 + |c|..6 + |c| + |d|];
    assert der[..2] == der[..4 + |c|][..2] == mid[..4 + |c|][..2] == mid[..2];
    assert mid[6 + |c| + |d|..] == mid[4 + |c|..][2 + |d|..] == before[4 + |c|..][2 + |d|..] == before[6 + |c| + |d|..];
  }

  method EncodeDerSig(sig: array<Byte>, der: array<Byte>) returns (n: nat)
    requires sig.Length == 2 * HALF && der.Length >= SIG_MAX && sig != der
    requires NonZero(sig[0..0 + HALF]) && NonZero(sig[HALF..HALF + HALF])
    modifies der
    ensures LeadingZeros(old(sig[0..0 + HALF]), 0) < HALF && LeadingZeros(old(sig[HALF..HALF + HALF]), 0) < HALF
    ensures var r, s := Content(old(sig[0..0 + HALF])), Content(old(sig[HALF..HALF + HALF]));
      && |r| <= HALF + 1 && |s| <= HALF + 1
      && n == |Sequence(r, s)| <= SIG_MAX
      && der[..n] == Sequence(r, s)
      && (forall k :: n <= k < SIG_MAX ==> der[k] == 0)
  {
    hide Content, Integer, LeadingZeros, NonZero;
    ghost var r, s := sig[0..0 + HALF], sig[HALF..HALF + HALF];
    ContentSize(r);
    ContentSize(s);
    var leadR := LeadCount(sig, 0);
    var leadS := LeadCount(sig, HALF);
    var padS := if sig[HALF + leadS] >= 0x80 then 1 else 0;
    var padR := if sig[0 + leadR] >= 0x80 then 1 else 0;
    Clear(der, SIG_MAX);
    der[0] := 0x30;
    der[1] := 0x44 + padS + padR - leadS - leadR;
    ghost var before := der[..];
    PutBoth(der, sig, leadR, padR, leadS, padS, r, s);
    n := 0x46 + padS + padR - leadR - leadS;
    SequenceOf(before, der[..], Content(r), Content(s));
    assert forall k :: n <= k < SIG_MAX ==> der[k] == der[..][k] == before[k];
  }

  lemma SequenceOf(before: seq<Byte>, der: seq<Byte>, c: seq<Byte>, d: seq<Byte>)
    requires |c| <= HALF + 1 && |d| <= HALF + 1 && 6 + |c| + |d| <= |before| == |der|
    requires before[0] == TAG_SEQUENCE && before[1] == |c| + |d| + 4
    requires der[..2] == before[..2] && der[2..6 + |c| + |d|] == Integer(c) + Integer(d)
    requires der[6 + |c| + |d|..] == before[6 + |c| + |d|..]
    ensures der[..6 + |c| + |d|] == Sequence(c, d) && |Sequence(c, d)| == 6 + |c| + |d|
    ensures forall k :: 6 + |c| + |d| <= k < |der| ==> der[k] == before[k]
  {
    var to := 6 + |c| + |d|;
    IntegerSize(c);
    IntegerSize(d);
    hide Integer;
    assert der[..to] == der[..2] + der[2..to];
    assert before[..2] == [before[0], before[1]];
    assert [before[0], before[1]] + (Integer(c) + Integer(d)) == Sequence(c, d);
    forall k | to <= k < |der| ensures der[k] == before[k] {
      assert der[k] == der[to..][k - to] && before[k] == before[to..][k - to];
    }
  }

  // ----- a reader -----

  datatype Parsed = Bad | Signature(r: nat, s: nat)

  datatype ParsedInt = BadInt | Int(value: nat, rest: seq<Byte>)

  /** DER content octets of a number that is not negative. */
  predicate Minimal(c: seq<Byte>) {
    |c| > 0 && c[0] < 0x80 && (|c| > 1 && c[0] == 0 ==> c[1] >= 0x80)
  }

  function ParseInteger(b: seq<Byte>): ParsedInt {
    if |b| < 2 || b[0] != TAG_INTEGER || b[1] >= 0x80 || 2 + b[1] > |b| then BadInt
    else
      var c := b[2..2 + b[1]];
      if Minimal(c) then Int(Value(c), b[2 + b[1]..]) else BadInt
  }

  function Parse(b: seq<Byte>): Parsed {
    if |b| < 2 || b[0] != TAG_SEQUENCE || b[1] >= 0x80 || b[1] != |b| - 2 then Bad
    else
      match ParseInteger(b[2..])
      case BadInt => Bad
      case Int(r, rest) =>
        match ParseInteger(rest)
        case BadInt => Bad
        case Int(s, end) => if end == [] then Signature(r, s) else Bad
  }

  lemma {:induction false} ValueOfZeros(b: seq<Byte>, n: nat)
    requires n <= |b| && forall k :: 0 <= k < n ==> b[k] == 0
    ensures Value(b) == Value(b[n..])
    decreases |b|
  {
    if n == |b| {
      AllZeros(b);
    } else {
      var front := b[..|b| - 1];
      ValueOfZeros(front, n);
      assert b[n..][..|b[n..]| - 1] == front[n..];
    }
  }

  lemma {:induction false} AllZeros(b: seq<Byte>)
    requires forall k :: 0 <= k < |b| ==> b[k] == 0
    ensures Value(b) == 0
    decreases |b|
  {
    if b != [] {
      AllZeros(b[..|b| - 1]);
    }
  }

  /** The content has the number's value and is minimal. */
  lemma ContentIsMinimal(b: seq<Byte>)
    requires LeadingZeros(b, 0) < |b|
    ensures Minimal(Content(b)) && Value(Content(b)) == Value(b)
  {
    var n := LeadingZeros(b, 0);
    ValueOfZeros(b, n);
    var rest := b[n..];
    assert rest[0] == b[n];
    ValueOfZeros([0] + rest, 1);
    assert ([0] + rest)[1..] == rest;
  }

  lemma ParseOfInteger(c: seq<Byte>, rest: seq<Byte>)
    requires |c| < 128 && Minimal(c)
    ensures ParseInteger(Integer(c) + rest) == Int(Value(c), rest)
  {
    var b := Integer(c) + rest;
    assert b[2..2 + b[1]] == c && b[2 + b[1]..] == rest;
  }

  /** A DER reader gets r and s back from what the printer writes. */
  lemma PrintedSignatureReadsBack(r: seq<Byte>, s: seq<Byte>)
    requires |r| == |s| == HALF && NonZero(r) && NonZero(s)
    ensures LeadingZeros(r, 0) < HALF && LeadingZeros(s, 0) < HALF
    ensures |Content(r)| <= HALF + 1 && |Content(s)| <= HALF + 1
    ensures Parse(Sequence(Content(r), Content(s))) == Signature(Value(r), Value(s))
  {
    ContentSize(r);
    ContentSize(s);
    ContentIsMinimal(r);
    ContentIsMinimal(s);
    hide Value, Content, Minimal;
    SequenceReadsBack(Content(r), Content(s));
  }

  lemma SequenceReadsBack(c: seq<Byte>, d: seq<Byte>)
    requires Minimal(c) && Minimal(d) && |c| + |d| + 4 < 128
    ensures Parse(Sequence(c, d)) == Signature(Value(c), Value(d))
  {
    hide Value, Minimal, ParseInteger, Integer;
    IntegerSize(c);
    IntegerSize(d);
    var b := Sequence(c, d);
    assert b[2..] == Integer(c) + Integer(d);
    assert Integer(d) == Integer(d) + [];
    ParseOfInteger(c, Integer(d));
    ParseOfInteger(d, []);
  }

  /** Where tags and lengths stand in what is printed: 0x30 for the sequence, 0x02 for each number. */
  lemma TagsAndLengths(c: seq<Byte>, d: seq<Byte>)
    requires |c| + |d| + 4 < 128
    ensures var b := Sequence(c, d);
      && |b| == |c| + |d| + 6
      && b[0] == 0x30 && b[1] == |b| - 2
      && b[2] == 0x02 && b[3] == |c| && b[4..4 + |c|] == c
      && b[4 + |c|] == 0x02 && b[5 + |c|] == |d| && b[6 + |c|..] == d
  {
  }

  lemma IntegerSize(c: seq<Byte>)
    requires |c| < 128
    ensures |Integer(c)| == |c| + 2
  {
  }

  // ----- nothing shorter would do -----

  function Pow256(n: nat): nat { if n == 0 then 1 else 256 * Pow256(n - 1) }

  lemma {:induction false} ValueBounds(b: seq<Byte>)
    requires b != []
    ensures b[0] * Pow256(|b| - 1) <= Value(b) < (b[0] + 1) * Pow256(|b| - 1)
    decreases |b|
  {
    var n := |b| - 1;
    if n == 0 {
      assert b[..0] == [];
    } else {
      ValueBounds(b[..n]);
      Scale(b[0], Pow256(n - 1), Value(b[..n]), b[n]);
    }
  }

  lemma Scale(x: nat, p: nat, v: nat, d: Byte)
    requires x * p <= v < (x + 1) * p
    ensures x * (256 * p) <= 256 * v + d < (x + 1) * (256 * p)
  {
    assert x * (256 * p) == 256 * (x * p) && (x + 1) * (256 * p) == 256 * ((x + 1) * p);
  }

  lemma {:induction false} PowGrows(m: nat, n: nat)
    requires m <= n
    ensures 0 < Pow256(m) <= Pow256(n)
    decreases n - m
  {
    if m < n {
      PowGrows(m, n - 1);
    } else {
      PowPositive(m);
    }
  }

  lemma {:induction false} PowPositive(n: nat)
    ensures Pow256(n) > 0
  {
    if n > 0 {
      PowPositive(n - 1);
    }
  }

  /** Minimal content octets are the shortest for their number: fewer octets, unless they look negative, only
      reach smaller numbers. */
  lemma FewerOctetsAreTooFew(c: seq<Byte>, d: seq<Byte>)
    requires Minimal(c) && d != [] && d[0] < 0x80 && |d| < |c|
    ensures Value(d) < Value(c)
  {
    var n := |c| - 1;
    ValueBounds(d);
    PowGrows(|d| - 1, n - 1);
    assert (d[0] + 1) * Pow256(|d| - 1) <= 0x80 * Pow256(n - 1) by {
      Products(d[0] + 1, 0x80, Pow256(|d| - 1), Pow256(n - 1));
    }
    LargeEnough(c);
  }

  lemma Products(a: nat, b: nat, x: nat, y: nat)
    requires a <= b && x <= y
    ensures a * x <= b * y
  {
    assert a * x <= b * x <= b * y;
  }

  lemma LargeEnough(c: seq<Byte>)
    requires Minimal(c) && |c| > 1
    ensures Value(c) >= 0x80 * Pow256(|c| - 2)
  {
    if c[0] == 0 {
      ValueOfZeros(c, 1);
      ValueBounds(c[1..]);
      Products(0x80, c[1], Pow256(|c| - 2), Pow256(|c| - 2));
    } else {
      ValueBounds(c);
      Products(1, c[0], Pow256(|c| - 1), Pow256(|c| - 1));
    }
  }
}
