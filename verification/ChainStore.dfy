/** The chain store (blockchain/chain.go, blockchain/tx.go, blockchain/vote.go). Its methods change
    the store in place; each is proved against the function that gives its meaning. */
module ChainStore {
  import opened Options
  import opened Validators
  import opened Votes
  import opened Blocks
  import opened ChainIndexes

  datatype AddError = WrongChain | AlreadyAdded

  lemma {:induction false} ParentAtStep(store: Store, h: Hash, k: nat)
    ensures ParentAt(store, h, k + 1) ==
              if ParentAt(store, h, k).Some? && ParentAt(store, h, k).value in store
              then Some(store[ParentAt(store, h, k).value].block.parent) else None
    decreases k
  {
    if k > 0 && h in store {
      ParentAtStep(store, store[h].block.parent, k - 1);
    }
  }

  lemma {:induction false} ParentAtEnds(store: Store, h: Hash, k: nat, l: nat)
    requires k <= l && ParentAt(store, h, k) == None
    ensures ParentAt(store, h, l) == None
    decreases l - k
  {
    if k < l {
      ParentAtStep(store, h, k);
      ParentAtEnds(store, h, k + 1, l);
    }
  }

  class Chain {
    const chainID: nat
    var store: Store
    var heights: HeightIndex
    var txIndex: TxIndex
    var votes: map<Hash, VoteMap>

    ghost function View(): ChainState
      reads this
    {
      ChainState(store, heights, txIndex, votes)
    }

    ghost predicate VotesKeyed()
      reads this
    {
      forall h :: h in votes ==> WellKeyed(votes[h])
    }

    /** A new chain holds its root block, finalized. */
    constructor (chainID: nat, root: Block)
      requires root.chainID == chainID
      ensures this.chainID == chainID
      ensures View() == FinalizePrevious(AddBlock(EMPTY_CHAIN, root), root.hash, DirectlyFinalized)
    {
      this.chainID := chainID;
      store, heights, txIndex, votes := map[], map[], map[], map[];
      new;
      assert View() == EMPTY_CHAIN;
      var added := AddNewBlock(root);
      FinalizePreviousBlocks(root.hash);
    }

    /** Stores a block of this chain that is not stored yet. */
    method AddNewBlock(b: Block) returns (error: Option<AddError>)
      modifies this
      ensures error == (if b.chainID != chainID then Some(WrongChain)
                        else if b.hash in old(store) then Some(AlreadyAdded) else None)
      ensures View() == if error.None? then AddBlock(old(View()), b) else old(View())
    {
      if b.chainID != chainID { return Some(WrongChain); }
      if b.hash in store { return Some(AlreadyAdded); }
      if b.parent != EMPTY_HASH && b.parent in store {
        var parent := store[b.parent];
        store := store[b.parent := parent.(children := parent.children + [b.hash])];
      }
      var children := FindChildren(b);
      store := store[b.hash := ExtendedBlock(b, children, Pending, false)];
      AddBlockByHeightIndex(b.height, b.hash);
      AddTxsToIndex(b, false);
      return None;
    }

    /** The stored blocks of the next height that name `b` as their parent. */
    method FindChildren(b: Block) returns (children: seq<Hash>)
      ensures children == ChildrenAmong(store, AtHeight(View(), b.height + 1), b.hash)
    {
      children := [];
      var entry := if b.height + 1 in heights then heights[b.height + 1] else [];
      for i := 0 to |entry|
        invariant children == ChildrenAmong(store, entry[..i], b.hash)
      {
        assert entry[..i + 1][..i] == entry[..i];
        if entry[i] in store && store[entry[i]].block.parent == b.hash {
          children := children + [entry[i]];
        }
      }
      assert entry[..|entry|] == entry;
    }

    method AddBlockByHeightIndex(height: nat, h: Hash)
      modifies this`heights
      ensures heights == AddToHeight(old(heights), height, h)
    {
      var entry := if height in heights then heights[height] else [];
      for i := 0 to |entry|
        invariant h !in entry[..i]
      {
        if entry[i] == h { return; }
      }
      assert entry[..|entry|] == entry;
      heights := heights[height := entry + [h]];
    }

    method AddTxsToIndex(b: Block, force: bool)
      modifies this`txIndex
      ensures txIndex == IndexTxs(old(txIndex), b, 0, force)
    {
      for i := 0 to |b.txs|
        invariant IndexTxs(txIndex, b, i, force) == IndexTxs(old(txIndex), b, 0, force)
      {
        if force || b.txs[i] !in txIndex {
          txIndex := txIndex[b.txs[i] := TxIndexEntry(b.hash, b.height, i)];
        }
      }
    }

    /** Looks a transaction up by its hash; with the index in order the answer is the transaction. */
    method FindTxByHash(t: RawTx) returns (r: Option<(RawTx, ExtendedBlock)>)
      requires TxIndexOK(View())
      ensures r.Some? <==> InStored(View(), t)
      ensures r.Some? ==> r.value.0 == t && r.value.1.block.hash in store && t in r.value.1.block.txs
      ensures InFinalized(View(), t) ==> r.Some? && r.value.1.status.IsFinalized()
    {
      assert TxOK(View(), t);
      if t !in txIndex { return None; }
      var entry := txIndex[t];
      if entry.blockHash !in store { return None; }
      var block := store[entry.blockHash];
      return Some((block.block.txs[entry.index], block));
    }

    method SetBlockStatus(h: Hash, status: Status)
      requires h in store
      modifies this`store
      ensures store == SetStatus(old(store), h, status)
    {
      store := store[h := store[h].(status := status)];
    }

    method MarkBlockHasValidatorUpdate(h: Hash)
      requires h in store
      modifies this`store
      ensures store == old(store)[h := old(store)[h].(hasValidatorUpdate := true)]
    {
      store := store[h := store[h].(hasValidatorUpdate := true)];
    }

    /** Finalizes a block and its ancestors up to the first one that is finalized already. */
    method FinalizePreviousBlocks(start: Hash)
      modifies this`store, this`txIndex
      ensures View() == FinalizePrevious(old(View()), start, DirectlyFinalized)
    {
      var status, hash := DirectlyFinalized, start;
      while hash != EMPTY_HASH && hash in store && !store[hash].status.IsFinalized()
        invariant status.IsFinalized()
        invariant heights == old(heights) && votes == old(votes)
        invariant FinalizePrevious(View(), hash, status) == FinalizePrevious(old(View()), start, DirectlyFinalized)
        decreases |Unfinalized(store)|
      {
        FinalizingShrinks(store, hash, status);
        ghost var before := View();
        var block := store[hash].block;
        SetBlockStatus(hash, status);
        AddTxsToIndex(block, true);
        assert View() == FinalizeOne(before, hash, status);
        hash, status := block.parent, IndirectlyFinalized;
      }
    }

    /** Whether `ancestor` is found by following at most MAX_DISTANCE - 1 parent links. */
    method IsDescendant(ancestor: Hash, h: Hash) returns (r: bool)
      ensures r <==> WithinDistance(store, ancestor, h, MAX_DISTANCE)
    {
      var hash := h;
      for i := 0 to MAX_DISTANCE
        invariant ParentAt(store, h, i) == Some(hash)
        invariant forall k: nat :: k < i ==> ParentAt(store, h, k) != Some(ancestor)
      {
        if hash == ancestor { return true; }
        ParentAtStep(store, h, i);
        if hash !in store {
          forall k: nat | i < k ensures ParentAt(store, h, k) == None { ParentAtEnds(store, h, i + 1, k); }
          return false;
        }
        hash := store[hash].block.parent;
      }
      return false;
    }

    method AddVote(v: Vote)
      requires VotesKeyed()
      modifies this`votes
      ensures View() == AddVoteToIndex(old(View()), v)
      ensures VotesKeyed()
    {
      if v.block == EMPTY_HASH { return; }
      var stored := if v.block in votes then votes[v.block] else map[];
      var voteSet := new VoteSet.Load(stored);
      voteSet.AddVote(v);
      votes := votes[v.block := voteSet.votes];
    }

    method FindVotesByHash(h: Hash) returns (r: VoteSet)
      requires VotesKeyed()
      ensures fresh(r) && r.Valid() && r.votes == VotesFor(View(), h)
    {
      r := new VoteSet.Load(if h in votes then votes[h] else map[]);
    }
  }
}
