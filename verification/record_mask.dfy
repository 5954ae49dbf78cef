/** Hiding secret bytes: each sub-block of a record starts with a 14-bit mask of the data bytes that a masked
    read must not show. */
module RecordMask {
  import opened RecordLayout
  import opened Cbc

  const MASK_SIZE: nat := 2

  /** Bit j of the mask in the first two bytes of a sub-block. */
  predicate Hidden(mask0: bv8, mask1: bv8, j: nat)
    requires j < SUB_BLK_DATA_SIZE
  {
    ((if j / 8 == 0 then mask0 else mask1) & ((1 as bv8) << (j % 8))) != 0
  }

  function MaskedByte(b: Cbc.Block, r: nat): bv8
    requires r < SUB_BLK_SIZE
  {
    if r >= MASK_SIZE && Hidden(b[0], b[1], r - MASK_SIZE) then 0 else b[r]
  }

  function MaskedBlock(b: Cbc.Block): Cbc.Block {
    seq(SUB_BLK_SIZE, r requires 0 <= r < SUB_BLK_SIZE => MaskedByte(b, r))
  }

  function Masked(data: seq<Cbc.Block>): (m: seq<Cbc.Block>)
    ensures |m| == |data|
  {
    seq(|data|, i requires 0 <= i < |data| => MaskedBlock(data[i]))
  }

  /** The masks survive, so masking again changes nothing, and what one read hides no later one shows. */
  lemma MaskingTwice(data: seq<Cbc.Block>)
    ensures Masked(Masked(data)) == Masked(data)
  {
    hide Hidden;
    forall i | 0 <= i < |data| ensures MaskedBlock(MaskedBlock(data[i])) == MaskedBlock(data[i]) {
    }
  }

  /** A record as the bytes of its sub-blocks. */
  function Bytes(data: seq<Cbc.Block>): (s: seq<bv8>)
    ensures |s| == SUB_BLK_SIZE * |data|
  {
    seq(SUB_BLK_SIZE * |data|, k requires 0 <= k < SUB_BLK_SIZE * |data| => data[k / SUB_BLK_SIZE][k % SUB_BLK_SIZE])
  }

  lemma BytesAt(data: seq<Cbc.Block>, s: nat, r: nat)
    requires s < |data| && r < 16
    ensures |Bytes(data)| == 16 * |data| && Bytes(data)[16 * s + r] == data[s][r]
  {
  }

  // ----- which bytes are hidden -----

  /** Data byte j of sub-block s is zero if bit j of the mask in front is set, else what it was. */
  ghost predicate ByteShown(before: seq<bv8>, after: seq<bv8>, s: nat, j: nat)
    requires |after| == |before| && 16 * s + 16 <= |before| && j < 14
  {
    after[16 * s + 2 + j] ==
      if before[16 * s + j / 8] & ((1 as bv8) << (j % 8)) != 0 then 0 else before[16 * s + 2 + j]
  }

  /** The two mask bytes of sub-block s stay, and each of its 14 data bytes is shown or not. */
  ghost predicate SubBlockShown(before: seq<bv8>, after: seq<bv8>, s: nat)
    requires |after| == |before| && 16 * s + 16 <= |before|
  {
    && after[16 * s] == before[16 * s]
    && after[16 * s + 1] == before[16 * s + 1]
    && forall j: nat :: j < 14 ==> ByteShown(before, after, s, j)
  }

  /** What a masked read makes of a record's bytes. */
  ghost predicate Shown(before: seq<bv8>, after: seq<bv8>) {
    |after| == |before| && forall s: nat :: 16 * s + 16 <= |before| ==> SubBlockShown(before, after, s)
  }

  lemma MaskedIsShown(data: seq<Cbc.Block>)
    ensures Shown(Bytes(data), Bytes(Masked(data)))
  {
    hide Bytes, Masked;
    forall s: nat | 16 * s + 16 <= |Bytes(data)| ensures SubBlockShown(Bytes(data), Bytes(Masked(data)), s) {
      SubBlockIsShown(data, s);
    }
  }

  lemma SubBlockIsShown(data: seq<Cbc.Block>, s: nat)
    requires s < |data|
    ensures |Bytes(data)| == |Bytes(Masked(data))| && 16 * s + 16 <= |Bytes(data)|
    ensures SubBlockShown(Bytes(data), Bytes(Masked(data)), s)
  {
    hide Bytes;
    forall r: nat | r < 16
      ensures Bytes(data)[16 * s + r] == data[s][r] && Bytes(Masked(data))[16 * s + r] == MaskedByte(data[s], r)
    {
      BytesAt(data, s, r);
      BytesAt(Masked(data), s, r);
    }
    hide Masked, MaskedByte, Hidden;
    SameSubBlock(Bytes(data), Bytes(Masked(data)), data[s], s);
  }

  lemma SameSubBlock(before: seq<bv8>, after: seq<bv8>, b: Cbc.Block, s: nat)
    requires |after| == |before| && 16 * s + 16 <= |before|
    requires forall r: nat :: r < 16 ==> before[16 * s + r] == b[r] && after[16 * s + r] == MaskedByte(b, r)
    ensures SubBlockShown(before, after, s)
  {
    assert before[16 * s + 0] == b[0] && before[16 * s + 1] == b[1];
    assert after[16 * s + 0] == b[0] && after[16 * s + 1] == b[1];
    forall j: nat | j < 14 ensures ByteShown(before, after, s, j) {
      assert before[16 * s + j / 8] == b[j / 8] == if j / 8 == 0 then b[0] else b[1];
      assert before[16 * s + (2 + j)] == b[2 + j] && after[16 * s + (2 + j)] == MaskedByte(b, 2 + j);
    }
  }

  method BytesOf(data: seq<Cbc.Block>) returns (buf: array<bv8>)
    ensures fresh(buf) && buf[..] == Bytes(data)
  {
    buf := new bv8[SUB_BLK_SIZE * |data|](k requires 0 <= k < SUB_BLK_SIZE * |data| =>
        data[k / SUB_BLK_SIZE][k % SUB_BLK_SIZE]);
  }

  /** mask_uid_data: what is left in the buffer is the masked record; the masks themselves stay readable. */
  method MaskUidData(buf: array<bv8>, ghost data: seq<Cbc.Block>, blkCount: nat)
    requires blkCount == |data| && buf[..] == Bytes(data)
    modifies buf
    ensures buf[..] == Bytes(Masked(data))
    ensures Shown(old(buf[..]), buf[..])
  {
    MaskedIsShown(data);
    hide Hidden, Shown;
    var i := 0;
    while i < blkCount
      invariant i <= blkCount
      invariant forall k :: 0 <= k < SUB_BLK_SIZE * i ==> buf[k] == Bytes(Masked(data))[k]
      invariant forall k :: SUB_BLK_SIZE * i <= k < buf.Length ==> buf[k] == Bytes(data)[k]
    {
      MaskSubBlock(buf, SUB_BLK_SIZE * i, data[i]);
      i := i + 1;
    }
  }

  method MaskSubBlock(buf: array<bv8>, at: nat, ghost b: Cbc.Block)
    requires at + SUB_BLK_SIZE <= buf.Length && buf[at..at + SUB_BLK_SIZE] == b
    modifies buf
    ensures buf[at..at + SUB_BLK_SIZE] == MaskedBlock(b)
    ensures forall k :: 0 <= k < buf.Length && !(at <= k < at + SUB_BLK_SIZE) ==> buf[k] == old(buf[k])
  {
    hide Hidden;
    assert forall k :: at <= k < at + SUB_BLK_SIZE ==> buf[k] == buf[at..at + SUB_BLK_SIZE][k - at];
    var j := 0;
    while j < SUB_BLK_DATA_SIZE
      invariant j <= SUB_BLK_DATA_SIZE
      invariant forall k :: at <= k < at + SUB_BLK_SIZE ==>
          buf[k] == if k - at < MASK_SIZE + j then MaskedByte(b, k - at) else b[k - at]
      invariant forall k :: 0 <= k < buf.Length && !(at <= k < at + SUB_BLK_SIZE) ==> buf[k] == old(buf[k])
    {
      assert buf[at + 0] == b[0] && buf[at + 1] == b[1];
      var byte := j / 8;
      var bit := (1 as bv8) << (j % 8);
      assert (buf[at + byte] & bit != 0) == Hidden(b[0], b[1], j) by { HiddenBit(b[0], b[1], j); }
      if buf[at + byte] & bit != 0 {
        buf[at + MASK_SIZE + j] := 0;
      }
      j := j + 1;
    }
  }

  lemma HiddenBit(mask0: bv8, mask1: bv8, j: nat)
    requires j < SUB_BLK_DATA_SIZE
    ensures Hidden(mask0, mask1, j) == (((if j / 8 == 0 then mask0 else mask1) & ((1 as bv8) << (j % 8))) != 0)
  {
  }
}
