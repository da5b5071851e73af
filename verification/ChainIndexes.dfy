/** What the chain store's indexes mean: the height index, the children lists and the
    transaction index (blockchain/chain.go, blockchain/tx.go). */
module ChainIndexes {
  import opened Validators
  import opened Votes
  import opened Blocks

  ghost predicate NoDuplicates<T(!new)>(s: seq<T>) {
    forall i, j :: 0 <= i < j < |s| ==> s[i] != s[j]
  }

  /** Blocks are stored under their own, non-empty hash. */
  ghost predicate HashesOK(store: Store) {
    forall h :: h in store ==> h != EMPTY_HASH && store[h].block.hash == h
  }

  /** A height lists exactly the stored blocks of that height, once each. */
  ghost predicate HeightOK(ch: ChainState, n: nat) {
    && NoDuplicates(AtHeight(ch, n))
    && forall h :: h in AtHeight(ch, n) <==> h in ch.store && ch.store[h].block.height == n
  }

  ghost predicate HeightsOK(ch: ChainState) {
    forall n: nat :: HeightOK(ch, n)
  }

  ghost predicate IsChildOf(store: Store, c: Hash, p: Hash) {
    c in store && store[c].block.parent == p
  }

  ghost predicate WellHeighted(store: Store, c: Hash, p: Hash)
    requires c in store && p in store
  {
    store[c].block.height == store[p].block.height + 1
  }

  /** A children list names, once each, only blocks that point back, and no child of the next
      height is missing. */
  ghost predicate ChildListOK(store: Store, p: Hash) {
    p in store ==>
      && NoDuplicates(store[p].children)
      && (forall c :: c in store[p].children ==> IsChildOf(store, c, p))
      && (forall c :: IsChildOf(store, c, p) && WellHeighted(store, c, p) ==> c in store[p].children)
  }

  ghost predicate ChildrenOK(store: Store) {
    forall p :: ChildListOK(store, p)
  }

  ghost predicate TreeOK(ch: ChainState) {
    HashesOK(ch.store) && HeightsOK(ch) && ChildrenOK(ch.store)
  }

  lemma {:induction false} ChildrenAmongMeaning(store: Store, s: seq<Hash>, h: Hash)
    ensures forall c :: c in ChildrenAmong(store, s, h) <==> c in s && IsChildOf(store, c, h)
    ensures NoDuplicates(s) ==> NoDuplicates(ChildrenAmong(store, s, h))
  {
    if s != [] {
      var init, last := s[..|s| - 1], s[|s| - 1];
      ChildrenAmongMeaning(store, init, h);
      assert forall c :: c in s <==> c in init || c == last;
      if NoDuplicates(s) {
        assert last !in init;
      }
    }
  }

  /** What adding one block does to the children lists. */
  lemma AddBlockChildren(ch: ChainState, b: Block)
    requires HashesOK(ch.store) && HeightsOK(ch) && b.hash !in ch.store && b.hash != EMPTY_HASH
    ensures var s := AddBlock(ch, b).store;
            && s.Keys == ch.store.Keys + {b.hash}
            && s[b.hash].block == b && s[b.hash].status == Pending && !s[b.hash].hasValidatorUpdate
            && NoDuplicates(s[b.hash].children)
            && (forall c :: c in s[b.hash].children <==>
                  IsChildOf(ch.store, c, b.hash) && ch.store[c].block.height == b.height + 1)
            && (forall h :: h in ch.store ==>
                  s[h] == ch.store[h].(children :=
                            ch.store[h].children + if h == b.parent then [b.hash] else []))
  {
    var store := LinkToParent(ch.store, b);
    assert HeightOK(ch, b.height + 1);
    ChildrenAmongMeaning(store, AtHeight(ch, b.height + 1), b.hash);
    assert forall c :: IsChildOf(store, c, b.hash) <==> IsChildOf(ch.store, c, b.hash);
    forall h | h in ch.store && h != b.parent ensures ch.store[h].children + [] == ch.store[h].children {}
  }

  lemma AddToHeightMeaning(ch: ChainState, b: Block)
    requires HeightsOK(ch) && b.hash !in ch.store && b.hash != EMPTY_HASH && HashesOK(ch.store)
    ensures HeightsOK(AddBlock(ch, b))
  {
    var ch' := AddBlock(ch, b);
    AddBlockChildren(ch, b);
    assert b.hash !in AtHeight(ch, b.height) by { assert HeightOK(ch, b.height); }
    forall n: nat ensures HeightOK(ch', n) {
      assert HeightOK(ch, n);
      assert AtHeight(ch', n) == if n == b.height then AtHeight(ch, n) + [b.hash] else AtHeight(ch, n);
    }
  }

  /** Blocks may be added in any order: the indexes stay right. */
  lemma AddBlockKeepsTree(ch: ChainState, b: Block)
    requires TreeOK(ch) && b.hash !in ch.store && b.hash != EMPTY_HASH
    ensures TreeOK(AddBlock(ch, b))
  {
    AddBlockChildren(ch, b);
    AddToHeightMeaning(ch, b);
    var s := AddBlock(ch, b).store;
    forall p: Hash ensures ChildListOK(s, p) {
      assert ChildListOK(ch.store, p);
      if p !in s {
      } else if p != b.hash {
        assert b.hash !in ch.store[p].children;
        forall c | IsChildOf(s, c, p) && WellHeighted(s, c, p) ensures c in s[p].children {
          if c != b.hash { assert IsChildOf(ch.store, c, p); }
        }
      } else {
        forall c | IsChildOf(s, c, p) && WellHeighted(s, c, p) ensures c in s[p].children {
          if c != b.hash { assert IsChildOf(ch.store, c, p); }
        }
      }
    }
  }

  /** Changing statuses and flags does not touch the tree. */
  lemma SameLinksKeepTree(ch: ChainState, ch': ChainState)
    requires TreeOK(ch) && ch'.heights == ch.heights && ch'.store.Keys == ch.store.Keys
    requires forall h :: h in ch.store ==>
               ch'.store[h].block == ch.store[h].block && ch'.store[h].children == ch.store[h].children
    ensures TreeOK(ch')
  {
    forall n: nat ensures HeightOK(ch', n) {
      assert HeightOK(ch, n);
      assert AtHeight(ch', n) == AtHeight(ch, n);
    }
    forall p: Hash ensures ChildListOK(ch'.store, p) {
      assert ChildListOK(ch.store, p);
      assert forall c :: IsChildOf(ch'.store, c, p) <==> IsChildOf(ch.store, c, p);
    }
  }

  // ---- A whole run of additions ----

  const EMPTY_CHAIN := ChainState(map[], map[], map[], map[])

  ghost function AddAll(bs: seq<Block>): ChainState {
    if bs == [] then EMPTY_CHAIN else AddBlock(AddAll(bs[..|bs| - 1]), bs[|bs| - 1])
  }

  ghost predicate FreshHashes(bs: seq<Block>) {
    && (forall i :: 0 <= i < |bs| ==> bs[i].hash != EMPTY_HASH)
    && (forall i, j :: 0 <= i < j < |bs| ==> bs[i].hash != bs[j].hash)
  }

  ghost predicate Listed(ch: ChainState, child: Block, parent: Block) {
    parent.hash in ch.store && child.hash in ch.store[parent.hash].children
  }

  /** Block j is listed as a child of block i exactly when it names block i as its parent and it
      either has the next height or was added later. */
  ghost predicate ChildrenExact(ch: ChainState, bs: seq<Block>) {
    forall i, j :: 0 <= i < |bs| && 0 <= j < |bs| ==>
      (Listed(ch, bs[j], bs[i]) <==> bs[j].parent == bs[i].hash && (i < j || bs[j].height == bs[i].height + 1))
  }

  ghost predicate Holds(ch: ChainState, bs: seq<Block>) {
    && (forall i :: 0 <= i < |bs| ==> bs[i].hash in ch.store && ch.store[bs[i].hash].block == bs[i])
    && ch.store.Keys == set i | 0 <= i < |bs| :: bs[i].hash
  }

  lemma AddOneHolds(ch: ChainState, init: seq<Block>, b: Block)
    requires HashesOK(ch.store) && HeightsOK(ch) && Holds(ch, init) && FreshHashes(init + [b])
    ensures b.hash !in ch.store
    ensures Holds(AddBlock(ch, b), init + [b])
  {
    var bs := init + [b];
    assert bs[|init|] == b && forall i :: 0 <= i < |init| ==> bs[i] == init[i];
    assert b.hash !in ch.store;
    AddBlockChildren(ch, b);
    var hashes := set i | 0 <= i < |bs| :: bs[i].hash;
    forall h | h in AddBlock(ch, b).store.Keys ensures h in hashes {
      if h in ch.store {
        var i :| 0 <= i < |init| && init[i].hash == h;
        assert bs[i].hash == h;
      }
    }
  }

  /** Adding `b` changes only the links from and to `b`. */
  lemma AddOneListed(ch: ChainState, b: Block, c: Block, p: Block)
    requires TreeOK(ch) && b.hash !in ch.store && b.hash != EMPTY_HASH
    ensures p.hash in ch.store && c.hash in ch.store ==> (Listed(AddBlock(ch, b), c, p) <==> Listed(ch, c, p))
    ensures p.hash in ch.store ==> (Listed(AddBlock(ch, b), b, p) <==> b.parent == p.hash)
    ensures Listed(AddBlock(ch, b), c, b) <==>
              IsChildOf(ch.store, c.hash, b.hash) && ch.store[c.hash].block.height == b.height + 1
  {
    AddBlockChildren(ch, b);
    assert ChildListOK(ch.store, p.hash);
    assert p.hash in ch.store ==> b.hash !in ch.store[p.hash].children;
  }

  lemma AddOneExact(ch: ChainState, init: seq<Block>, b: Block)
    requires TreeOK(ch) && Holds(ch, init) && ChildrenExact(ch, init) && FreshHashes(init + [b])
    ensures ChildrenExact(AddBlock(ch, b), init + [b])
  {
    AddOneHolds(ch, init, b);
    var bs := init + [b];
    forall i, j | 0 <= i < |bs| && 0 <= j < |bs|
      ensures Listed(AddBlock(ch, b), bs[j], bs[i]) <==>
                bs[j].parent == bs[i].hash && (i < j || bs[j].height == bs[i].height + 1)
    {
      AddOneExactAt(ch, init, b, i, j);
    }
  }

  lemma AddOneExactAt(ch: ChainState, init: seq<Block>, b: Block, i: nat, j: nat)
    requires TreeOK(ch) && Holds(ch, init) && ChildrenExact(ch, init) && FreshHashes(init + [b]) && b.hash !in ch.store
    requires i <= |init| && j <= |init|
    ensures var bs := init + [b];
            Listed(AddBlock(ch, b), bs[j], bs[i]) <==>
              bs[j].parent == bs[i].hash && (i < j || bs[j].height == bs[i].height + 1)
  {
    var bs, n := init + [b], |init|;
    assert bs[n] == b;
    AddOneListed(ch, b, bs[j], bs[i]);
    assert i < n ==> bs[i] == init[i];
    assert j < n ==> bs[j] == init[j];
  }

  /** Blocks may be added in any order. */
  lemma {:induction false} ChildrenAfterRun(bs: seq<Block>)
    requires FreshHashes(bs)
    ensures TreeOK(AddAll(bs)) && Holds(AddAll(bs), bs) && ChildrenExact(AddAll(bs), bs)
  {
    if bs != [] {
      var init, b := bs[..|bs| - 1], bs[|bs| - 1];
      assert bs == init + [b];
      ChildrenAfterRun(init);
      AddOneHolds(AddAll(init), init, b);
      AddOneExact(AddAll(init), init, b);
      AddBlockKeepsTree(AddAll(init), b);
    }
  }

  /** A block of the wrong height that arrives before its parent is missed. */
  lemma IllHeightedChildIsMissed(parent: Block, child: Block)
    requires parent.hash != EMPTY_HASH && child.hash != EMPTY_HASH && parent.hash != child.hash
    requires child.parent == parent.hash && child.height != parent.height + 1
    ensures !Listed(AddAll([child, parent]), child, parent)
    ensures Listed(AddAll([parent, child]), child, parent)
  {
    var late, early := [child, parent], [parent, child];
    ChildrenAfterRun(late);
    ChildrenAfterRun(early);
    assert Listed(AddAll(late), late[0], late[1]) <==> late[0].height == late[1].height + 1;
    assert Listed(AddAll(early), early[1], early[0]);
  }

  // ---- The transaction index ----

  /** The index entry of `t` names a stored block, at the right height, that holds `t` there. */
  ghost predicate EntryOK(ch: ChainState, t: RawTx)
    requires t in ch.txIndex
  {
    var e := ch.txIndex[t];
    e.blockHash in ch.store && Locates(e, ch.store[e.blockHash].block, t)
  }

  ghost predicate FinalEntry(ch: ChainState, t: RawTx) {
    t in ch.txIndex && EntryOK(ch, t) && ch.store[ch.txIndex[t].blockHash].status.IsFinalized()
  }

  ghost predicate InFinalized(ch: ChainState, t: RawTx) {
    exists h :: h in ch.store && ch.store[h].status.IsFinalized() && t in ch.store[h].block.txs
  }

  ghost predicate InStored(ch: ChainState, t: RawTx) {
    exists h :: h in ch.store && t in ch.store[h].block.txs
  }

  /** Exactly the transactions of stored blocks are indexed, and one of a finalized block in a finalized block. */
  ghost predicate TxOK(ch: ChainState, t: RawTx) {
    && (t in ch.txIndex ==> EntryOK(ch, t))
    && (InStored(ch, t) ==> t in ch.txIndex)
    && (InFinalized(ch, t) ==> FinalEntry(ch, t))
  }

  ghost predicate TxIndexOK(ch: ChainState) {
    forall t :: TxOK(ch, t)
  }

  lemma AddBlockKeepsTxIndex(ch: ChainState, b: Block)
    requires TreeOK(ch) && TxIndexOK(ch) && b.hash !in ch.store && b.hash != EMPTY_HASH
    ensures TxIndexOK(AddBlock(ch, b))
  {
    var ch' := AddBlock(ch, b);
    AddBlockChildren(ch, b);
    IndexTxsMeaning(ch.txIndex, b, 0, false);
    forall t: RawTx ensures TxOK(ch', t) {
      assert TxOK(ch, t);
      if InFinalized(ch', t) {
        var h :| h in ch'.store && ch'.store[h].status.IsFinalized() && t in ch'.store[h].block.txs;
        assert h in ch.store;
        assert InFinalized(ch, t);
      }
      if h :| h in ch'.store && t in ch'.store[h].block.txs {
        if h != b.hash { assert t in ch.store[h].block.txs && InStored(ch, t); }
      }
    }
  }

  lemma ForceIndexKeepsTxIndex(ch: ChainState, h: Hash, status: Status)
    requires HashesOK(ch.store) && TxIndexOK(ch) && h in ch.store && status.IsFinalized()
    ensures TxIndexOK(FinalizeOne(ch, h, status))
  {
    var b := ch.store[h].block;
    var ch' := FinalizeOne(ch, h, status);
    IndexTxsMeaning(ch.txIndex, b, 0, true);
    forall t: RawTx ensures TxOK(ch', t) {
      assert TxOK(ch, t);
      if InFinalized(ch', t) {
        var g :| g in ch'.store && ch'.store[g].status.IsFinalized() && t in ch'.store[g].block.txs;
        if t in b.txs {
          var j :| 0 <= j < |b.txs| && b.txs[j] == t;
        } else {
          assert g != h;
          assert InFinalized(ch, t);
        }
      }
      if g :| g in ch'.store && t in ch'.store[g].block.txs {
        assert t in ch.store[g].block.txs && InStored(ch, t);
      }
    }
  }

  lemma {:induction false} FinalizeKeepsTxIndex(ch: ChainState, h: Hash, status: Status)
    requires HashesOK(ch.store) && TxIndexOK(ch) && status.IsFinalized()
    ensures TxIndexOK(FinalizePrevious(ch, h, status))
    decreases |Unfinalized(ch.store)|
  {
    if !(h == EMPTY_HASH || h !in ch.store || ch.store[h].status.IsFinalized()) {
      FinalizingShrinks(ch.store, h, status);
      ForceIndexKeepsTxIndex(ch, h, status);
      FinalizeKeepsTxIndex(FinalizeOne(ch, h, status), ch.store[h].block.parent, IndirectlyFinalized);
    }
  }

  /** Status changes that finalize nothing and definalize nothing keep the transaction index right. */
  lemma SameFinalKeepsTxIndex(ch: ChainState, ch': ChainState)
    requires TxIndexOK(ch) && ch'.txIndex == ch.txIndex && ch'.store.Keys == ch.store.Keys
    requires forall h :: h in ch.store ==>
               ch'.store[h].block == ch.store[h].block
               && ch'.store[h].status.IsFinalized() == ch.store[h].status.IsFinalized()
    ensures TxIndexOK(ch')
  {
    forall t: RawTx ensures TxOK(ch', t) {
      assert TxOK(ch, t);
      if InFinalized(ch', t) { assert InFinalized(ch, t); }
      if InStored(ch', t) { assert InStored(ch, t); }
    }
  }
}
