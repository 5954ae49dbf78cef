/** AES in CBC mode (section 6.2 of NIST SP 800-38A) in the two forms the firmware uses: an out-of-place
    form that walks three pointers, and a stateful in-place form that can be fed a message in pieces.
    The block cipher is an abstract permutation for each key. */
module Cbc {

  const AES_BLK_SIZE: nat := 16

  type Block = b: seq<bv8> | |b| == AES_BLK_SIZE witness [0, 0, 0, 0, 0, 0, 0, 0, 0, 0, 0, 0, 0, 0, 0, 0]

  const ZERO_BLOCK: Block := [0, 0, 0, 0, 0, 0, 0, 0, 0, 0, 0, 0, 0, 0, 0, 0]

  /** A key schedule serves one direction. */
  datatype Schedule<Key> = EncryptKey(key: Key) | DecryptKey(key: Key) | Unset

  /** `misuse` is what comes out when a schedule is used in the direction it was not made for. */
  datatype Cipher<!Key> = Cipher(enc: (Key, Block) -> Block, dec: (Key, Block) -> Block,
      misuse: (Schedule<Key>, Block) -> Block)

  ghost predicate Permutes<Key(!new)>(c: Cipher<Key>) {
    forall k: Key, b: Block :: c.dec(k, c.enc(k, b)) == b
  }

  function Xor(a: Block, b: Block): Block {
    seq(AES_BLK_SIZE, i requires 0 <= i < AES_BLK_SIZE => a[i] ^ b[i])
  }

  lemma XorUndone(a: Block, b: Block)
    ensures Xor(Xor(a, b), b) == a
  {
    forall i | 0 <= i < AES_BLK_SIZE ensures Xor(Xor(a, b), b)[i] == a[i] {
      XorByte(a[i], b[i]);
    }
  }

  lemma XorByte(x: bv8, y: bv8)
    ensures (x ^ y) ^ y == x
  {
  }

  lemma XorZeroByte(x: bv8)
    ensures x ^ 0 == x
  {
  }

  lemma XorZero(a: Block)
    ensures Xor(a, ZERO_BLOCK) == a
  {
    forall i | 0 <= i < AES_BLK_SIZE ensures Xor(a, ZERO_BLOCK)[i] == a[i] {
      assert ZERO_BLOCK[i] == 0;
      XorZeroByte(a[i]);
    }
  }

  // ----- the mode itself -----

  function CbcEncrypt<Key>(c: Cipher<Key>, key: Key, iv: Block, plain: seq<Block>): (s: seq<Block>)
    ensures |s| == |plain|
    decreases |plain|
  {
    if plain == [] then []
    else
      var e := c.enc(key, Xor(plain[0], iv));
      [e] + CbcEncrypt(c, key, e, plain[1..])
  }

  function CbcDecrypt<Key>(c: Cipher<Key>, key: Key, iv: Block, sealed: seq<Block>): (s: seq<Block>)
    ensures |s| == |sealed|
    decreases |sealed|
  {
    if sealed == [] then []
    else [Xor(c.dec(key, sealed[0]), iv)] + CbcDecrypt(c, key, sealed[0], sealed[1..])
  }

  /** The chaining value after a run of ciphertext blocks. */
  function LastOf(iv: Block, sealed: seq<Block>): Block {
    if sealed == [] then iv else sealed[|sealed| - 1]
  }

  lemma {:induction false} DecryptUndoesEncrypt<Key(!new)>(c: Cipher<Key>, key: Key, iv: Block, plain: seq<Block>)
    requires Permutes(c)
    ensures CbcDecrypt(c, key, iv, CbcEncrypt(c, key, iv, plain)) == plain
    decreases |plain|
  {
    if plain != [] {
      var e := c.enc(key, Xor(plain[0], iv));
      var rest := CbcEncrypt(c, key, e, plain[1..]);
      DecryptUndoesEncrypt(c, key, e, plain[1..]);
      XorUndone(plain[0], iv);
      assert ([e] + rest)[1..] == rest;
      assert plain == [plain[0]] + plain[1..];
    }
  }

  lemma {:induction false} EncryptSplits<Key>(c: Cipher<Key>, key: Key, iv: Block, a: seq<Block>, b: seq<Block>)
    ensures CbcEncrypt(c, key, iv, a + b) ==
            CbcEncrypt(c, key, iv, a) + CbcEncrypt(c, key, LastOf(iv, CbcEncrypt(c, key, iv, a)), b)
    decreases |a|
  {
    hide Xor;
    if a == [] {
      assert a + b == b;
    } else {
      var e := c.enc(key, Xor(a[0], iv));
      EncryptSplits(c, key, e, a[1..], b);
      assert (a + b)[1..] == a[1..] + b;
      assert LastOf(iv, CbcEncrypt(c, key, iv, a)) == LastOf(e, CbcEncrypt(c, key, e, a[1..]));
    }
  }

  lemma {:induction false} DecryptSplits<Key>(c: Cipher<Key>, key: Key, iv: Block, a: seq<Block>, b: seq<Block>)
    ensures CbcDecrypt(c, key, iv, a + b) == CbcDecrypt(c, key, iv, a) + CbcDecrypt(c, key, LastOf(iv, a), b)
    decreases |a|
  {
    if a == [] {
      assert a + b == b;
    } else {
      DecryptSplits(c, key, a[0], a[1..], b);
      assert (a + b)[1..] == a[1..] + b;
      assert LastOf(iv, a) == LastOf(a[0], a[1..]);
    }
  }

  /** A prefix encrypts to the prefix, a step at a time. */
  lemma EncryptGrows<Key>(c: Cipher<Key>, key: Key, iv: Block, plain: seq<Block>, i: nat)
    requires i < |plain|
    ensures var done := CbcEncrypt(c, key, iv, plain[..i]);
      CbcEncrypt(c, key, iv, plain[..i + 1]) == done + [c.enc(key, Xor(plain[i], LastOf(iv, done)))]
  {
    assert plain[..i + 1] == plain[..i] + [plain[i]];
    EncryptSplits(c, key, iv, plain[..i], [plain[i]]);
  }

  lemma DecryptGrows<Key>(c: Cipher<Key>, key: Key, iv: Block, sealed: seq<Block>, i: nat)
    requires i < |sealed|
    ensures CbcDecrypt(c, key, iv, sealed[..i + 1]) ==
            CbcDecrypt(c, key, iv, sealed[..i]) + [Xor(c.dec(key, sealed[i]), LastOf(iv, sealed[..i]))]
  {
    assert sealed[..i + 1] == sealed[..i] + [sealed[i]];
    DecryptSplits(c, key, iv, sealed[..i], [sealed[i]]);
  }

  // ----- block by block and byte by byte -----

  /** Each ciphertext block is the cipher's image of the plaintext block mixed, in all its bytes, with the
      ciphertext block before it, the first with the IV. */
  lemma CiphertextBlocks<Key>(c: Cipher<Key>, key: Key, iv: Block, plain: seq<Block>, i: nat) returns (x: Block)
    requires i < |plain|
    ensures var out := CbcEncrypt(c, key, iv, plain);
      && out[i] == c.enc(key, x)
      && forall j :: 0 <= j < 16 ==> x[j] == plain[i][j] ^ (if i == 0 then iv else out[i - 1])[j]
  {
    var done := CbcEncrypt(c, key, iv, plain[..i]);
    x := Xor(plain[i], LastOf(iv, done));
    EncryptGrows(c, key, iv, plain, i);
    EncryptSplits(c, key, iv, plain[..i + 1], plain[i + 1..]);
    assert plain[..i + 1] + plain[i + 1..] == plain;
  }

  /** Each plaintext block is the cipher's preimage of its ciphertext block, mixed with the one before. */
  lemma PlaintextBlocks<Key>(c: Cipher<Key>, key: Key, iv: Block, sealed: seq<Block>, i: nat)
    requires i < |sealed|
    ensures forall j :: 0 <= j < 16 ==>
      CbcDecrypt(c, key, iv, sealed)[i][j] == c.dec(key, sealed[i])[j] ^ (if i == 0 then iv else sealed[i - 1])[j]
  {
    DecryptGrows(c, key, iv, sealed, i);
    DecryptSplits(c, key, iv, sealed[..i + 1], sealed[i + 1..]);
    assert sealed[..i + 1] + sealed[i + 1..] == sealed;
    assert LastOf(iv, sealed[..i]) == if i == 0 then iv else sealed[i - 1];
  }

  // ----- the out-of-place form -----

  datatype Mask = NoMask | ByBlock(block: Block)

  function Effective(mask: Mask): Block {
    match mask
    case NoMask => ZERO_BLOCK
    case ByBlock(b) => b
  }

  /** A missing mask copies the block, which is what a mask of zeros would do. */
  method XorBlock(src: Block, mask: Mask) returns (dst: Block)
    ensures dst == Xor(src, Effective(mask))
    ensures |dst| == 16
    ensures forall i :: 0 <= i < 16 ==> dst[i] == if mask.ByBlock? then src[i] ^ mask.block[i] else src[i]
  {
    if mask.ByBlock? {
      var out: seq<bv8> := [];
      for i := 0 to AES_BLK_SIZE
        invariant |out| == i
        invariant forall k :: 0 <= k < i ==> out[k] == src[k] ^ mask.block[k]
      {
        out := out + [src[i] ^ mask.block[i]];
      }
      dst := out;
    } else {
      XorZero(src);
      dst := src;
    }
  }

  /** In place or not: each block is read before it can be overwritten. */
  method EncryptCbc<Key>(c: Cipher<Key>, key: Key, nBlocks: nat, iv: Mask, din: array<Block>, dout: array<Block>)
    requires nBlocks <= din.Length && nBlocks <= dout.Length
    modifies dout
    ensures dout[..nBlocks] == CbcEncrypt(c, key, Effective(iv), old(din[..nBlocks]))
    ensures dout[nBlocks..] == old(dout[nBlocks..])
  {
    ghost var plain := din[..nBlocks];
    var chain := iv;
    for i := 0 to nBlocks
      invariant dout[..i] == CbcEncrypt(c, key, Effective(iv), plain[..i])
      invariant Effective(chain) == LastOf(Effective(iv), dout[..i])
      invariant forall k :: i <= k < nBlocks ==> din[k] == plain[k]
      invariant dout[nBlocks..] == old(dout[nBlocks..])
    {
      var temp := XorBlock(din[i], chain);
      EncryptGrows(c, key, Effective(iv), plain, i);
      dout[i] := c.enc(key, temp);
      chain := ByBlock(dout[i]);
      assert dout[..i + 1] == dout[..i] + [dout[i]];
    }
    assert plain[..nBlocks] == plain;
  }

  /** Out of place only: the chaining pointer stays on the input. */
  method DecryptCbc<Key>(c: Cipher<Key>, key: Key, nBlocks: nat, iv: Mask, din: array<Block>, dout: array<Block>)
    requires nBlocks <= din.Length && nBlocks <= dout.Length && din != dout
    modifies dout
    ensures dout[..nBlocks] == CbcDecrypt(c, key, Effective(iv), din[..nBlocks])
    ensures dout[nBlocks..] == old(dout[nBlocks..])
  {
    var chain := iv;
    for i := 0 to nBlocks
      invariant dout[..i] == CbcDecrypt(c, key, Effective(iv), din[..nBlocks][..i])
      invariant Effective(chain) == LastOf(Effective(iv), din[..nBlocks][..i])
      invariant dout[nBlocks..] == old(dout[nBlocks..])
    {
      var temp := c.dec(key, din[i]);
      var plain := XorBlock(temp, chain);
      DecryptGrows(c, key, Effective(iv), din[..nBlocks], i);
      dout[i] := plain;
      chain := ByBlock(din[i]);
      assert dout[..i + 1] == dout[..i] + [dout[i]];
    }
    assert din[..nBlocks][..nBlocks] == din[..nBlocks];
  }

  // ----- the stateful form -----

  datatype Context<Key> = Context(key: Key, iv: Block, schedule: Schedule<Key>, encryptMode: bool, decryptMode: bool)
  {
    /** A mode flag promises that the loaded schedule is the current key's in that direction. */
    ghost predicate Valid() {
      && (encryptMode ==> schedule == EncryptKey(key))
      && (decryptMode ==> schedule == DecryptKey(key))
    }
  }

  function Init<Key>(x: Context<Key>, key: Key, nonce: Mask): Context<Key> {
    x.(key := key, iv := Effective(nonce), encryptMode := false, decryptMode := false)
  }

  function ResetIv<Key>(x: Context<Key>, nonce: Mask): Context<Key> {
    x.(iv := Effective(nonce))
  }

  function EncryptMode<Key>(x: Context<Key>): Context<Key> {
    if x.encryptMode then x else x.(encryptMode := true, decryptMode := false, schedule := EncryptKey(x.key))
  }

  function DecryptMode<Key>(x: Context<Key>): Context<Key> {
    if x.decryptMode then x else x.(decryptMode := true, encryptMode := false, schedule := DecryptKey(x.key))
  }

  /** The cipher with whatever schedule is loaded. */
  function EncryptBlock<Key>(c: Cipher<Key>, schedule: Schedule<Key>, b: Block): Block {
    if schedule.EncryptKey? then c.enc(schedule.key, b) else c.misuse(schedule, b)
  }

  function DecryptBlock<Key>(c: Cipher<Key>, schedule: Schedule<Key>, b: Block): Block {
    if schedule.DecryptKey? then c.dec(schedule.key, b) else c.misuse(schedule, b)
  }

  datatype Call<Key> =
    | InitCall(key: Key, nonce: Mask)
    | ResetCall(nonce: Mask)
    | EncryptCall(plain: seq<Block>)
    | DecryptCall(sealed: seq<Block>)

  /** What one call does to the context and to the caller's buffer. */
  function Perform<Key>(c: Cipher<Key>, x: Context<Key>, call: Call<Key>): (Context<Key>, seq<Block>) {
    match call
    case InitCall(key, nonce) => (Init(x, key, nonce), [])
    case ResetCall(nonce) => (ResetIv(x, nonce), [])
    case EncryptCall(plain) =>
      var y := EncryptMode(x);
      var out := CbcEncrypt(c, y.key, y.iv, plain);
      (y.(iv := LastOf(y.iv, out)), out)
    case DecryptCall(sealed) =>
      var y := DecryptMode(x);
      (y.(iv := LastOf(y.iv, sealed)), CbcDecrypt(c, y.key, y.iv, sealed))
  }

  /** The context object: one buffer, worked on in place, block by block. */
  class CryptoAes256<Key> {
    const cipher: Cipher<Key>
    var aesKey: Key
    var aesCtxIv: Block
    var aesCtx: Schedule<Key>
    var aesEncryptMode: bool
    var aesDecryptMode: bool

    ghost function State(): Context<Key>
      reads this
    {
      Context(aesKey, aesCtxIv, aesCtx, aesEncryptMode, aesDecryptMode)
    }

    constructor (cipher: Cipher<Key>, key: Key, nonce: Mask)
      ensures State().Valid() && State() == Context(key, Effective(nonce), Unset, false, false) && this.cipher == cipher
    {
      this.cipher := cipher;
      aesKey := key;
      aesCtxIv := Effective(nonce);
      aesCtx := Unset;
      aesEncryptMode, aesDecryptMode := false, false;
    }

    method Init(key: Key, nonce: Mask)
      modifies this
      ensures State() == Perform(cipher, old(State()), InitCall(key, nonce)).0 && State().Valid()
    {
      aesDecryptMode := false;
      aesEncryptMode := false;
      aesKey := key;
      aesCtxIv := Effective(nonce);
    }

    method ResetIv(nonce: Mask)
      requires State().Valid()
      modifies this`aesCtxIv
      ensures State() == Perform(cipher, old(State()), ResetCall(nonce)).0 && State().Valid()
    {
      aesCtxIv := Effective(nonce);
    }

    method Encrypt(buf: array<Block>)
      requires State().Valid()
      modifies this, buf
      ensures (State(), buf[..]) == Perform(cipher, old(State()), EncryptCall(old(buf[..]))) && State().Valid()
    {
      if !aesEncryptMode {
        aesEncryptMode := true;
        aesDecryptMode := false;
        aesCtx := EncryptKey(aesKey);
      }
      hide Xor;
      var nBlocks := buf.Length;
      var iv := aesCtxIv;
      ghost var plain, start := buf[..], aesCtxIv;
      for i := 0 to nBlocks
        invariant aesEncryptMode && !aesDecryptMode && aesKey == old(aesKey) && aesCtx == EncryptKey(aesKey)
        invariant buf[..i] == CbcEncrypt(cipher, aesKey, start, plain[..i])
        invariant iv == LastOf(start, buf[..i])
        invariant forall k :: i <= k < nBlocks ==> buf[k] == plain[k]
        invariant aesCtxIv == if i == nBlocks then iv else start
      {
        var temp := XorBlock(buf[i], ByBlock(iv));
        EncryptGrows(cipher, aesKey, start, plain, i);
        buf[i] := EncryptBlock(cipher, aesCtx, temp);
        iv := buf[i];
        if i == nBlocks - 1 {
          aesCtxIv := iv;
        }
        assert buf[..i + 1] == buf[..i] + [buf[i]];
      }
      assert buf[..nBlocks] == buf[..] && plain[..nBlocks] == plain;
    }

    method Decrypt(buf: array<Block>)
      requires State().Valid()
      modifies this, buf
      ensures (State(), buf[..]) == Perform(cipher, old(State()), DecryptCall(old(buf[..]))) && State().Valid()
    {
      if !aesDecryptMode {
        aesDecryptMode := true;
        aesEncryptMode := false;
        aesCtx := DecryptKey(aesKey);
      }
      hide Xor;
      var nBlocks := buf.Length;
      ghost var sealed, start := buf[..], aesCtxIv;
      for i := 0 to nBlocks
        invariant aesDecryptMode && !aesEncryptMode && aesKey == old(aesKey) && aesCtx == DecryptKey(aesKey)
        invariant buf[..i] == CbcDecrypt(cipher, aesKey, start, sealed[..i])
        invariant aesCtxIv == LastOf(start, sealed[..i])
        invariant forall k :: i <= k < nBlocks ==> buf[k] == sealed[k]
      {
        var srcTemp := buf[i];
        var temp := DecryptBlock(cipher, aesCtx, buf[i]);
        DecryptGrows(cipher, aesKey, start, sealed, i);
        buf[i] := XorBlock(temp, ByBlock(aesCtxIv));
        aesCtxIv := srcTemp;
        assert buf[..i + 1] == buf[..i] + [buf[i]];
      }
      assert buf[..nBlocks] == buf[..] && sealed[..nBlocks] == sealed;
    }
  }

  // ----- the two forms agree -----

  function Concat(pieces: seq<seq<Block>>): seq<Block> {
    if pieces == [] then [] else pieces[0] + Concat(pieces[1..])
  }

  /** A message fed in pieces: the final context and the pieces of output. */
  function EncryptPieces<Key>(c: Cipher<Key>, x: Context<Key>, pieces: seq<seq<Block>>): (Context<Key>, seq<seq<Block>>)
    decreases |pieces|
  {
    if pieces == [] then (x, [])
    else
      var (y, out) := Perform(c, x, EncryptCall(pieces[0]));
      var (z, rest) := EncryptPieces(c, y, pieces[1..]);
      (z, [out] + rest)
  }

  function DecryptPieces<Key>(c: Cipher<Key>, x: Context<Key>, pieces: seq<seq<Block>>): (Context<Key>, seq<seq<Block>>)
    decreases |pieces|
  {
    if pieces == [] then (x, [])
    else
      var (y, out) := Perform(c, x, DecryptCall(pieces[0]));
      var (z, rest) := DecryptPieces(c, y, pieces[1..]);
      (z, [out] + rest)
  }

  /** The stateful form over any split of a message equals the out-of-place form on the whole message. */
  lemma {:induction false} EncryptFormsAgree<Key>(c: Cipher<Key>, x: Context<Key>, pieces: seq<seq<Block>>)
    ensures Concat(EncryptPieces(c, x, pieces).1) == CbcEncrypt(c, x.key, x.iv, Concat(pieces))
    ensures EncryptPieces(c, x, pieces).0.key == x.key
    ensures EncryptPieces(c, x, pieces).0.iv == LastOf(x.iv, CbcEncrypt(c, x.key, x.iv, Concat(pieces)))
    decreases |pieces|
  {
    if pieces != [] {
      var (y, out) := Perform(c, x, EncryptCall(pieces[0]));
      EncryptFormsAgree(c, y, pieces[1..]);
      EncryptSplits(c, x.key, x.iv, pieces[0], Concat(pieces[1..]));
      var rest := EncryptPieces(c, y, pieces[1..]).1;
      assert ([out] + rest)[1..] == rest;
    }
  }

  lemma {:induction false} DecryptFormsAgree<Key>(c: Cipher<Key>, x: Context<Key>, pieces: seq<seq<Block>>)
    ensures Concat(DecryptPieces(c, x, pieces).1) == CbcDecrypt(c, x.key, x.iv, Concat(pieces))
    ensures DecryptPieces(c, x, pieces).0.key == x.key
    ensures DecryptPieces(c, x, pieces).0.iv == LastOf(x.iv, Concat(pieces))
    decreases |pieces|
  {
    if pieces != [] {
      var (y, out) := Perform(c, x, DecryptCall(pieces[0]));
      DecryptFormsAgree(c, y, pieces[1..]);
      DecryptSplits(c, x.key, x.iv, pieces[0], Concat(pieces[1..]));
      var rest := DecryptPieces(c, y, pieces[1..]).1;
      assert ([out] + rest)[1..] == rest;
      var tail := Concat(pieces[1..]);
      assert Concat(pieces) == pieces[0] + tail;
      assert LastOf(LastOf(x.iv, pieces[0]), tail) == LastOf(x.iv, pieces[0] + tail);
    }
  }

  /** Encrypt in pieces, reset the IV, decrypt cut up in any other way: the message comes back. */
  lemma PiecesRoundTrip<Key(!new)>(c: Cipher<Key>, x: Context<Key>, nonce: Mask, pieces: seq<seq<Block>>,
      cut: seq<seq<Block>>)
    requires Permutes(c) && x.iv == Effective(nonce)
    requires Concat(cut) == Concat(EncryptPieces(c, x, pieces).1)
    ensures var y := Perform(c, EncryptPieces(c, x, pieces).0, ResetCall(nonce)).0;
      Concat(DecryptPieces(c, y, cut).1) == Concat(pieces)
  {
    var y := Perform(c, EncryptPieces(c, x, pieces).0, ResetCall(nonce)).0;
    EncryptFormsAgree(c, x, pieces);
    DecryptFormsAgree(c, y, cut);
    DecryptUndoesEncrypt(c, x.key, x.iv, Concat(pieces));
  }

  /** A context set up, or set back, with a nonce works from that nonce, and without one from zeros. */
  lemma SetUpStartsFromNonce<Key>(c: Cipher<Key>, x: Context<Key>, key: Key, nonce: Mask, message: seq<Block>)
    ensures var iv := if nonce.ByBlock? then nonce.block else ZERO_BLOCK;
      var y, z := Perform(c, x, InitCall(key, nonce)).0, Perform(c, x, ResetCall(nonce)).0;
      && Perform(c, y, EncryptCall(message)).1 == CbcEncrypt(c, key, iv, message)
      && Perform(c, y, DecryptCall(message)).1 == CbcDecrypt(c, key, iv, message)
      && Perform(c, z, EncryptCall(message)).1 == CbcEncrypt(c, x.key, iv, message)
      && Perform(c, z, DecryptCall(message)).1 == CbcDecrypt(c, x.key, iv, message)
    ensures forall i :: 0 <= i < 16 ==> ZERO_BLOCK[i] == 0
  {
  }

  function PerformAll<Key>(c: Cipher<Key>, x: Context<Key>, calls: seq<Call<Key>>): Context<Key> {
    if calls == [] then x else Perform(c, PerformAll(c, x, calls[..|calls| - 1]), calls[|calls| - 1]).0
  }

  /** After any run of calls the mode flags tell the truth about the loaded schedule, so every block is
      put through the current key in the direction asked for. */
  lemma {:induction false} ScheduleMatches<Key>(c: Cipher<Key>, x: Context<Key>, calls: seq<Call<Key>>, b: Block)
    requires x.Valid()
    ensures var y := PerformAll(c, x, calls);
      && y.Valid()
      && EncryptBlock(c, EncryptMode(y).schedule, b) == c.enc(y.key, b)
      && DecryptBlock(c, DecryptMode(y).schedule, b) == c.dec(y.key, b)
  {
    if calls != [] {
      ScheduleMatches(c, x, calls[..|calls| - 1], b);
    }
  }
}
