/** What a store without space does to the device: its write to block 0 is a root page write. */
module HcRoot {
  import opened RecordBlock
  import opened RecordStore
  import opened HcStore
  import opened HcCommands
  import opened HcRecords
  import opened RootPage

  /** A block as the words of the page it is written from. */
  type WordsOf = DataBlock -> Words

  ghost predicate FullPage(words: WordsOf) {
    forall b: DataBlock :: |words(b)| == PAGE_WORDS
  }

  /** The root pages after the write_data_block of a block, carried to its end: block 0 goes to the copy that is
      not current, stamped like a root page; any other goes elsewhere. */
  function RootAfter(root: RootPage.Env, words: WordsOf, r: Root, current: Copy, idx: nat, b: DataBlock): Root
    requires RootOk(root, r) && GoodData(root, words(b))
  {
    if idx == INVALID_BLOCK then During(root, r, current, words(b), StepsFor(words(b))) else r
  }

  /** The block a command writes. */
  function WrittenBlock<Key>(env: RecordStore.Env<Key>, h: Hc, q: Request, temp: DataBlock, stray: HcPlan): (nat,
      DataBlock)
    requires Tries(env, h, q, temp, stray)
  {
    var (loaded, _) := AfterLoad(env, h, q, temp, stray);
    var p := Update(env, CachedView(loaded), loaded.disk.info, loaded.disk.uidMap, q, temp, stray).plan;
    (p.blockNum, HcStore.Sealed(env, p))
  }

  /** A store without space replaces the root page. Its block, whatever it holds, gets the next number and a
      good CRC, so the next start selects it, unless the counter wraps; word for word it is the block otherwise,
      and the copy it is written over is the one kept in reserve. Every other command leaves the root pages alone. */
  lemma LostStoreReplacesRoot<Key>(env: RecordStore.Env<Key>, root: RootPage.Env, words: WordsOf, h: Hc, r: Root,
      current: Copy,
      q: Request, temp: DataBlock, stray: HcPlan)
    requires Ready(env, h) && HcGoodRequest(q) && (Served(h.disk, q) || q.sz > 0)
    requires RootInv(root, r, current) && FullPage(words)
    ensures Tries(env, h, q, temp, stray)
    ensures var (idx, b) := WrittenBlock(env, h, q, temp, stray);
      var after := RootAfter(root, words, r, current, idx, b);
      var image := words(b);
      && (after == r <== Served(h.disk, q))
      && (!Served(h.disk, q) ==>
           && after.Page(current) == r.Page(current)
           && (forall i :: 0 <= i < PAGE_WORDS && i != 0 && i != 2 ==> after.Page(Other(current))[i] == image[i])
           && (Select(root, after) == Other(current) <==> Iteration(r.Page(current)) != ITERATIONS - 1))
  {
    hide DiskOk, CacheSettled, Update, Readable, Select, CrcGood, HcStore.Sealed, Served, RootInv, HcGoodRequest;
    hide CachedView;
    assert RootOk(root, r) by { InvIsOk(root, r, current); }
    RequestInRange(env, h, q);
    if Served(h.disk, q) {
      ServedIsElsewhere(env, h, q, temp, stray);
    } else {
      StoreIsLost(env, h, q, temp, stray);
      UnservedTry(env, h, q, temp, stray);
      var (_, b) := WrittenBlock(env, h, q, temp, stray);
      PageIsBlock(root, r, current, words(b));
      SelectedExactlyWhen(root, r, current, words(b));
    }
  }

  lemma ServedIsElsewhere<Key>(env: RecordStore.Env<Key>, h: Hc, q: Request, temp: DataBlock, stray: HcPlan)
    requires Ready(env, h) && HcGoodRequest(q) && Served(h.disk, q)
    ensures Tries(env, h, q, temp, stray) && WrittenBlock(env, h, q, temp, stray).0 != INVALID_BLOCK
  {
    hide Update, Readable, HcStore.Sealed, CachedView, DirectView, DiskOk, HcGoodRequest, CacheSettled;
    OneLoadIsEnough(env, h, q, temp, stray);
    CommandIsDirect(env, h, q, temp, stray);
  }

  lemma PageIsBlock(root: RootPage.Env, r: Root, current: Copy, data: Words)
    requires RootInv(root, r, current) && |data| == PAGE_WORDS
    ensures RootOk(root, r) && GoodData(root, data)
    ensures var after := During(root, r, current, data, StepsFor(data));
      && after.Page(current) == r.Page(current)
      && (forall i :: 0 <= i < PAGE_WORDS && i != 0 && i != 2 ==> after.Page(Other(current))[i] == data[i])
  {
    hide CrcGood, PageAfter;
    InvIsOk(root, r, current);
    var image := Stamped(root, data, NextIteration(root, r, current));
    WholeWrite(r.Page(Other(current)), image, StepsFor(image));
  }
}
