/** Blocks, their status, and the pure meaning of the chain store's operations
    (core/block.go, blockchain/chain.go, blockchain/tx.go, blockchain/vote.go). */
module Blocks {
  import opened Options
  import opened Validators
  import opened Votes

  /** A raw transaction stands for its own hash: hashing is injective. */
  type RawTx = nat

  datatype Block = Block(
    hash: Hash, chainID: nat, epoch: nat, height: nat, parent: Hash, hcc: CommitCertificate,
    timestamp: int, proposer: Address, txs: seq<RawTx>)

  datatype Status = Pending | Valid | Invalid | Committed | DirectlyFinalized | IndirectlyFinalized
  {
    predicate IsFinalized() {
      DirectlyFinalized? || IndirectlyFinalized?
    }

    /** The block has been validated. */
    predicate IsValid() {
      !Pending? && !Invalid?
    }
  }

  datatype ExtendedBlock = ExtendedBlock(
    block: Block, children: seq<Hash>, status: Status, hasValidatorUpdate: bool)

  datatype TxIndexEntry = TxIndexEntry(blockHash: Hash, blockHeight: nat, index: nat)

  type Store = map<Hash, ExtendedBlock>
  type HeightIndex = map<nat, seq<Hash>>
  type TxIndex = map<RawTx, TxIndexEntry>

  datatype ChainState = ChainState(
    store: Store, heights: HeightIndex, txIndex: TxIndex, votes: map<Hash, VoteMap>)

  function SetStatus(store: Store, h: Hash, status: Status): Store
    requires h in store
  {
    store[h := store[h].(status := status)]
  }

  function VotesFor(ch: ChainState, h: Hash): VoteMap {
    if h in ch.votes then ch.votes[h] else map[]
  }

  /** AddVoteToIndex: a vote for the empty hash is not indexed. */
  function AddVoteToIndex(ch: ChainState, v: Vote): ChainState {
    if v.block == EMPTY_HASH then ch
    else ch.(votes := ch.votes[v.block := Put(VotesFor(ch, v.block), v)])
  }

  // ---- Transaction index ----

  /** Indexes the transactions of `b` from position `i` on. Unless forced, an existing entry stays. */
  function IndexTxs(txIndex: TxIndex, b: Block, i: nat, force: bool): TxIndex
    requires i <= |b.txs|
    decreases |b.txs| - i
  {
    if i == |b.txs| then txIndex
    else if !force && b.txs[i] in txIndex then IndexTxs(txIndex, b, i + 1, force)
    else IndexTxs(txIndex[b.txs[i] := TxIndexEntry(b.hash, b.height, i)], b, i + 1, force)
  }

  /** The entry locates the transaction inside block `b`. */
  ghost predicate Locates(e: TxIndexEntry, b: Block, t: RawTx) {
    e.blockHash == b.hash && e.blockHeight == b.height && e.index < |b.txs| && b.txs[e.index] == t
  }

  lemma {:induction false} IndexTxsMeaning(txIndex: TxIndex, b: Block, i: nat, force: bool)
    requires i <= |b.txs|
    ensures var r := IndexTxs(txIndex, b, i, force);
            && (forall j :: i <= j < |b.txs| ==> b.txs[j] in r)
            && (force ==> forall j :: i <= j < |b.txs| ==> Locates(r[b.txs[j]], b, b.txs[j]))
            && (forall t :: t in txIndex ==> t in r && (r[t] == txIndex[t] || (force && Locates(r[t], b, t))))
            && (forall t :: t in r && t !in txIndex ==> Locates(r[t], b, t))
    decreases |b.txs| - i
  {
    if i < |b.txs| {
      var next := if !force && b.txs[i] in txIndex then txIndex
                  else txIndex[b.txs[i] := TxIndexEntry(b.hash, b.height, i)];
      IndexTxsMeaning(next, b, i + 1, force);
      var r := IndexTxs(txIndex, b, i, force);
      assert r == IndexTxs(next, b, i + 1, force);
      assert b.txs[i] in next;
    }
  }

  // ---- Finalization ----

  function Unfinalized(store: Store): set<Hash> {
    set h | h in store && !store[h].status.IsFinalized()
  }

  lemma FinalizingShrinks(store: Store, h: Hash, status: Status)
    requires h in store && !store[h].status.IsFinalized() && status.IsFinalized()
    ensures Unfinalized(SetStatus(store, h, status)) == Unfinalized(store) - {h}
    ensures |Unfinalized(SetStatus(store, h, status))| < |Unfinalized(store)|
  {
    assert h in Unfinalized(store);
    assert Unfinalized(SetStatus(store, h, status)) == Unfinalized(store) - {h};
  }

  /** FinalizePreviousBlocks: marks `h` with `status` and walks up through the parents, marking
      them indirectly finalized, until it meets a finalized or an unknown block. */
  function FinalizePrevious(ch: ChainState, h: Hash, status: Status): (r: ChainState)
    requires status.IsFinalized()
    ensures r.store.Keys == ch.store.Keys && r.heights == ch.heights && r.votes == ch.votes
    decreases |Unfinalized(ch.store)|
  {
    if h == EMPTY_HASH || h !in ch.store || ch.store[h].status.IsFinalized() then ch
    else
      FinalizingShrinks(ch.store, h, status);
      FinalizePrevious(FinalizeOne(ch, h, status), ch.store[h].block.parent, IndirectlyFinalized)
  }

  function FinalizeOne(ch: ChainState, h: Hash, status: Status): ChainState
    requires h in ch.store
  {
    ch.(store := SetStatus(ch.store, h, status), txIndex := IndexTxs(ch.txIndex, ch.store[h].block, 0, true))
  }

  // ---- Ancestry in the store ----

  /** The hash reached from `h` by following `k` parent links of stored blocks. */
  function ParentAt(store: Store, h: Hash, k: nat): Option<Hash>
    decreases k
  {
    if k == 0 then Some(h)
    else if h !in store then None
    else ParentAt(store, store[h].block.parent, k - 1)
  }

  /** How far IsDescendant looks. */
  const MAX_DISTANCE: nat := 2000

  ghost predicate WithinDistance(store: Store, ancestor: Hash, h: Hash, distance: nat) {
    exists k: nat :: k < distance && ParentAt(store, h, k) == Some(ancestor)
  }

  // ---- Adding a block ----

  /** The stored blocks listed at one height. */
  function AtHeight(ch: ChainState, height: nat): seq<Hash> {
    if height in ch.heights then ch.heights[height] else []
  }

  /** The stored hashes of `s` whose block names `h` as its parent. */
  function ChildrenAmong(store: Store, s: seq<Hash>, h: Hash): seq<Hash> {
    if s == [] then []
    else
      var rest := ChildrenAmong(store, s[..|s| - 1], h);
      var last := s[|s| - 1];
      if last in store && store[last].block.parent == h then rest + [last] else rest
  }

  function LinkToParent(store: Store, b: Block): Store {
    if b.parent == EMPTY_HASH || b.parent !in store then store
    else store[b.parent := store[b.parent].(children := store[b.parent].children + [b.hash])]
  }

  function AddToHeight(heights: HeightIndex, height: nat, h: Hash): HeightIndex {
    var entry := if height in heights then heights[height] else [];
    if h in entry then heights else heights[height := entry + [h]]
  }

  /** addBlock for a block of this chain that is not stored yet. */
  function AddBlock(ch: ChainState, b: Block): ChainState {
    var store := LinkToParent(ch.store, b);
    var children := ChildrenAmong(store, AtHeight(ch, b.height + 1), b.hash);
    ch.(
      store := store[b.hash := ExtendedBlock(b, children, Pending, false)],
      heights := AddToHeight(ch.heights, b.height, b.hash),
      txIndex := IndexTxs(ch.txIndex, b, 0, false))
  }
}
