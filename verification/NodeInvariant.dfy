/** What every handler of a node keeps (consensus/engine.go, blockchain/chain.go, core/block.go).

    `bl` gives the block behind every hash: two blocks with the same hash are the same block. */
module NodeInvariant {
  import opened Options
  import opened Validators
  import opened Votes
  import opened Blocks
  import opened ChainIndexes
  import opened Consensus

  type BlockTable = Hash -> Block

  // ---- Branches ----

  /** `a` is `b` or one of its ancestors, through blocks of consecutive heights. */
  ghost predicate Anc(bl: BlockTable, a: Hash, b: Hash)
    decreases bl(b).height
  {
    a == b || (bl(b).height == bl(bl(b).parent).height + 1 && Anc(bl, a, bl(b).parent))
  }

  lemma {:induction false} AncHeight(bl: BlockTable, a: Hash, b: Hash)
    requires Anc(bl, a, b)
    ensures bl(a).height <= bl(b).height
    ensures bl(a).height == bl(b).height ==> a == b
    decreases bl(b).height
  {
    if a != b { AncHeight(bl, a, bl(b).parent); }
  }

  lemma {:induction false} AncTrans(bl: BlockTable, a: Hash, b: Hash, c: Hash)
    requires Anc(bl, a, b) && Anc(bl, b, c)
    ensures Anc(bl, a, c)
    decreases bl(c).height
  {
    if b != c { AncTrans(bl, a, b, bl(c).parent); }
  }

  /** Two ancestors of one block lie on one branch. */
  lemma {:induction false} AncLinear(bl: BlockTable, a: Hash, b: Hash, c: Hash)
    requires Anc(bl, a, c) && Anc(bl, b, c)
    ensures Anc(bl, a, b) || Anc(bl, b, a)
    decreases bl(c).height
  {
    if a != c && b != c { AncLinear(bl, a, b, bl(c).parent); }
  }

  // ---- The invariant ----

  /** A hash covers the certificate of its block, so no block certifies itself. */
  ghost predicate CertificateOK(bl: BlockTable, root: Hash, store: Store, h: Hash) {
    h in store ==> WellKeyed(bl(h).hcc.votes) && (h != root ==> bl(h).hcc.blockHash != h)
  }

  /** Stored blocks are genuine; the root is finalized and has no parent. */
  ghost predicate StoreOK(bl: BlockTable, root: Hash, store: Store) {
    && root in store && store[root].status == DirectlyFinalized
    && bl(root).parent == EMPTY_HASH && EMPTY_HASH !in store
    && (forall h :: h in store ==> store[h].block == bl(h))
    && (forall h :: CertificateOK(bl, root, store, h))
  }

  /** A validated block hangs below a validated block. */
  ghost predicate HangsBelowValid(bl: BlockTable, root: Hash, store: Store, h: Hash) {
    h in store && store[h].status.IsValid() && h != root ==>
      && bl(h).parent in store
      && store[bl(h).parent].status.IsValid()
      && bl(h).height == bl(bl(h).parent).height + 1
  }

  ghost predicate StatusClosed(bl: BlockTable, root: Hash, store: Store) {
    forall h :: HangsBelowValid(bl, root, store, h)
  }

  /** The lock: a validated block's certified block is one of its validated ancestors, and the node
      knows a certified block at least as high. */
  ghost predicate LockHolds(bl: BlockTable, root: Hash, store: Store, hcc: Hash, h: Hash) {
    h in store && store[h].status.IsValid() && h != root ==>
      var q := bl(h).hcc.blockHash;
      && q in store && store[q].status.IsValid()
      && Anc(bl, q, h)
      && bl(q).height <= bl(hcc).height
  }

  ghost predicate Locked(bl: BlockTable, root: Hash, store: Store, hcc: Hash) {
    forall h :: LockHolds(bl, root, store, hcc, h)
  }

  /** A finalized block has a finalized parent. */
  ghost predicate HangsBelowFinal(bl: BlockTable, root: Hash, store: Store, h: Hash) {
    h in store && store[h].status.IsFinalized() && h != root ==>
      bl(h).parent in store && store[bl(h).parent].status.IsFinalized()
  }

  /** ... except possibly the children of `next`. */
  ghost predicate FinalClosedBut(bl: BlockTable, root: Hash, store: Store, next: Hash) {
    forall h :: bl(h).parent != next ==> HangsBelowFinal(bl, root, store, h)
  }

  ghost predicate FinalClosed(bl: BlockTable, root: Hash, store: Store) {
    forall h :: HangsBelowFinal(bl, root, store, h)
  }

  /** An indirectly finalized block is an ancestor of a directly finalized one. */
  ghost predicate BelowDirect(bl: BlockTable, store: Store, h: Hash) {
    h in store && store[h].status == IndirectlyFinalized ==>
      exists d :: d in store && store[d].status == DirectlyFinalized && Anc(bl, h, d)
  }

  ghost predicate FinalOK(bl: BlockTable, root: Hash, c: Core) {
    var store := c.chain.store;
    && c.hcc in store && store[c.hcc].status.IsValid()
    && c.lfb in store && store[c.lfb].status == DirectlyFinalized
    && (bl(c.lfb).height < bl(c.hcc).height || (c.lfb == root && c.hcc == root))
    && (forall h :: h in store && store[h].status == Committed ==> bl(h).height <= bl(c.hcc).height)
    && (forall h :: h in store && store[h].status.IsFinalized() ==>
          bl(h).height <= bl(c.lfb).height && (bl(h).height == bl(c.lfb).height ==> h == c.lfb))
    && (forall h :: BelowDirect(bl, store, h))
    && FinalClosed(bl, root, store)
  }

  ghost predicate IndexedVotesOK(votes: map<Hash, VoteMap>, h: Hash) {
    h in votes ==>
      WellKeyed(votes[h]) && forall k :: k in votes[h] ==> votes[h][k].block == h && ValidVote(votes[h][k])
  }

  ghost predicate VotesOK(votes: map<Hash, VoteMap>) {
    forall h :: IndexedVotesOK(votes, h)
  }

  ghost predicate LastVoteOK(bl: BlockTable, c: Core) {
    c.lastVote.height != 0 ==>
      && c.lastVote.block in c.chain.store
      && c.chain.store[c.lastVote.block].status.IsValid()
      && bl(c.lastVote.block).height == c.lastVote.height
  }

  /** What finalization depends on. */
  ghost predicate SpineOK(bl: BlockTable, root: Hash, c: Core) {
    && EMPTY_HASH !in c.chain.store
    && StoreOK(bl, root, c.chain.store)
    && StatusClosed(bl, root, c.chain.store)
    && FinalOK(bl, root, c)
  }

  ghost predicate NodeOK(bl: BlockTable, root: Hash, c: Core) {
    && TreeOK(c.chain)
    && TxIndexOK(c.chain)
    && SpineOK(bl, root, c)
    && Locked(bl, root, c.chain.store, c.hcc)
    && VotesOK(c.chain.votes)
    && LastVoteOK(bl, c)
  }

  // ---- Consequences ----

  lemma {:induction false} ValidBelowRoot(bl: BlockTable, root: Hash, store: Store, h: Hash)
    requires StoreOK(bl, root, store) && StatusClosed(bl, root, store)
    requires h in store && store[h].status.IsValid()
    ensures Anc(bl, root, h)
    decreases bl(h).height
  {
    assert HangsBelowValid(bl, root, store, h);
    if h != root { ValidBelowRoot(bl, root, store, bl(h).parent); }
  }

  /** An ancestor found by following parent links is validated, when the walk starts at a child of a
      validated block. */
  lemma {:induction false} WalkFindsAncestor(bl: BlockTable, root: Hash, store: Store, h: Hash, k: nat, a: Hash)
    requires StoreOK(bl, root, store) && StatusClosed(bl, root, store)
    requires h in store && store[h].status.IsValid()
    requires ParentAt(store, h, k) == Some(a) && a in store
    ensures Anc(bl, a, h) && store[a].status.IsValid()
    decreases k
  {
    if k > 0 {
      assert ParentAt(store, h, k) == ParentAt(store, bl(h).parent, k - 1);
      assert HangsBelowValid(bl, root, store, h);
      if h == root {
        assert false;
      }
      WalkFindsAncestor(bl, root, store, bl(h).parent, k - 1, a);
    }
  }

  // ---- Finalization ----

  ghost predicate SameShape(s: Store, s': Store) {
    && s'.Keys == s.Keys
    && forall h :: h in s ==>
         s'[h].block == s[h].block && s'[h].children == s[h].children
         && s'[h].hasValidatorUpdate == s[h].hasValidatorUpdate
  }

  /** The statuses that finalizing `h` may change, and to what. */
  ghost predicate FinalizesBranch(bl: BlockTable, s: Store, s': Store, h: Hash, status: Status)
    requires SameShape(s, s')
  {
    forall x :: x in s && s'[x].status != s[x].status ==>
      && s[x].status.IsValid() && !s[x].status.IsFinalized()
      && Anc(bl, x, h)
      && s'[x].status == if x == h then status else IndirectlyFinalized
  }

  lemma SameCertificates(bl: BlockTable, root: Hash, s: Store, s': Store)
    requires s'.Keys == s.Keys && forall h :: CertificateOK(bl, root, s, h)
    ensures forall h :: CertificateOK(bl, root, s', h)
  {
    forall h: Hash ensures CertificateOK(bl, root, s', h) {
      assert CertificateOK(bl, root, s, h);
    }
  }

  lemma FinalizeOneFacts(bl: BlockTable, root: Hash, ch: ChainState, h: Hash, status: Status)
    requires StoreOK(bl, root, ch.store) && StatusClosed(bl, root, ch.store) && status.IsFinalized()
    requires h in ch.store && ch.store[h].status.IsValid() && !ch.store[h].status.IsFinalized()
    ensures h != root && bl(h).parent in ch.store
    ensures var s := FinalizeOne(ch, h, status).store;
            && SameShape(ch.store, s)
            && StoreOK(bl, root, s) && StatusClosed(bl, root, s)
            && s[bl(h).parent].status.IsValid()
            && (FinalClosedBut(bl, root, ch.store, h) ==> FinalClosedBut(bl, root, s, bl(h).parent))
  {
    assert HangsBelowValid(bl, root, ch.store, h);
    var s := FinalizeOne(ch, h, status).store;
    SameCertificates(bl, root, ch.store, s);
    forall x: Hash ensures HangsBelowValid(bl, root, s, x) {
      assert HangsBelowValid(bl, root, ch.store, x);
    }
    if FinalClosedBut(bl, root, ch.store, h) {
      forall x: Hash | bl(x).parent != bl(h).parent ensures HangsBelowFinal(bl, root, s, x) {
        if bl(x).parent != h { assert HangsBelowFinal(bl, root, ch.store, x); }
      }
    }
  }

  /** Marking `h` and then finalizing its parent finalizes the branch of `h`. */
  lemma FinalizesBranchStep(bl: BlockTable, s: Store, s': Store, h: Hash, status: Status)
    requires h in s && s[h].status.IsValid() && !s[h].status.IsFinalized() && status.IsFinalized()
    requires bl(h).height == bl(bl(h).parent).height + 1
    requires SameShape(SetStatus(s, h, status), s')
    requires FinalizesBranch(bl, SetStatus(s, h, status), s', bl(h).parent, IndirectlyFinalized)
    ensures SameShape(s, s') && FinalizesBranch(bl, s, s', h, status) && s'[h].status == status
  {
    var s1 := SetStatus(s, h, status);
    assert s1.Keys == s.Keys;
    assert s'[h].status == s1[h].status;
    forall x | x in s && s'[x].status != s[x].status
      ensures s[x].status.IsValid() && !s[x].status.IsFinalized()
      ensures Anc(bl, x, h)
      ensures s'[x].status == if x == h then status else IndirectlyFinalized
    {
      if x != h { assert s1[x] == s[x]; }
    }
  }

  lemma {:induction false} FinalizeFacts(bl: BlockTable, root: Hash, ch: ChainState, h: Hash, status: Status)
    requires StoreOK(bl, root, ch.store) && StatusClosed(bl, root, ch.store) && status.IsFinalized()
    requires h in ch.store && ch.store[h].status.IsValid()
    ensures var s := FinalizePrevious(ch, h, status).store;
            && SameShape(ch.store, s)
            && FinalizesBranch(bl, ch.store, s, h, status)
            && s[h].status.IsFinalized()
            && (FinalClosedBut(bl, root, ch.store, h) ==> FinalClosed(bl, root, s))
    decreases |Unfinalized(ch.store)|
  {
    if !ch.store[h].status.IsFinalized() {
      FinalizingShrinks(ch.store, h, status);
      FinalizeOneFacts(bl, root, ch, h, status);
      var ch1 := FinalizeOne(ch, h, status);
      FinalizeFacts(bl, root, ch1, bl(h).parent, IndirectlyFinalized);
      assert FinalizePrevious(ch, h, status) == FinalizePrevious(ch1, bl(h).parent, IndirectlyFinalized);
      assert HangsBelowValid(bl, root, ch.store, h);
      FinalizesBranchStep(bl, ch.store, FinalizePrevious(ch, h, status).store, h, status);
    } else if FinalClosedBut(bl, root, ch.store, h) {
      forall x: Hash ensures HangsBelowFinal(bl, root, ch.store, x) {
        if bl(x).parent != h { assert HangsBelowFinal(bl, root, ch.store, x); }
      }
    }
  }

  // ---- Steps that keep who is validated ----

  ghost predicate SameValidity(root: Hash, s: Store, s': Store) {
    && SameShape(s, s')
    && (forall x :: x in s ==> s'[x].status.IsValid() == s[x].status.IsValid())
    && (root in s ==> s'[root].status == s[root].status)
  }

  lemma MarkSameValidity(root: Hash, s: Store, h: Hash, status: Status)
    requires h in s && status.IsValid() == s[h].status.IsValid()
    requires root in s && s[root].status.IsFinalized() && !s[h].status.IsFinalized()
    ensures SameValidity(root, s, SetStatus(s, h, status))
  {}

  lemma SameValidityKeeps(bl: BlockTable, root: Hash, s: Store, s': Store, hcc: Hash, hcc': Hash)
    requires StoreOK(bl, root, s) && StatusClosed(bl, root, s) && Locked(bl, root, s, hcc)
    requires SameValidity(root, s, s') && bl(hcc).height <= bl(hcc').height
    ensures StoreOK(bl, root, s') && StatusClosed(bl, root, s') && Locked(bl, root, s', hcc')
  {
    SameCertificates(bl, root, s, s');
    forall h: Hash ensures HangsBelowValid(bl, root, s', h) {
      assert HangsBelowValid(bl, root, s, h);
    }
    forall h: Hash ensures LockHolds(bl, root, s', hcc', h) {
      assert LockHolds(bl, root, s, hcc, h);
    }
  }

  lemma FinalizedAreOld(bl: BlockTable, root: Hash, c: Core, p: Hash)
    requires SpineOK(bl, root, c) && p in c.chain.store && c.chain.store[p].status.IsValid()
    requires bl(p).height >= bl(c.hcc).height && p != c.lfb
    ensures !c.chain.store[p].status.IsFinalized() && bl(p).height > bl(c.lfb).height
  {
    if c.lfb == root && c.hcc == root {
      ValidBelowRoot(bl, root, c.chain.store, p);
      AncHeight(bl, root, p);
    }
  }

  lemma FinalizeBelowDirect(bl: BlockTable, s: Store, s1: Store, p: Hash, h: Hash)
    requires SameShape(s, s1) && FinalizesBranch(bl, s, s1, p, DirectlyFinalized)
    requires p in s && s1[p].status == DirectlyFinalized && h in s && s1[h].status == Valid
    requires forall x :: BelowDirect(bl, s, x)
    ensures forall x :: BelowDirect(bl, SetStatus(s1, h, Committed), x)
  {
    var s2 := SetStatus(s1, h, Committed);
    forall x: Hash ensures BelowDirect(bl, s2, x) {
      assert BelowDirect(bl, s, x);
      if x in s2 && s2[x].status == IndirectlyFinalized {
        if s1[x].status != s[x].status {
          assert s2[p].status == DirectlyFinalized;
        } else {
          var d :| d in s && s[d].status == DirectlyFinalized && Anc(bl, x, d);
          assert s2[d].status == DirectlyFinalized;
        }
      }
    }
  }

  lemma FinalizeKeepsValidity(bl: BlockTable, root: Hash, s: Store, p: Hash, s1: Store, h: Hash)
    requires StoreOK(bl, root, s) && h in s && s[h].status == Valid && bl(h).height > bl(p).height
    requires p in s && !s[p].status.IsFinalized()
    requires SameShape(s, s1) && FinalizesBranch(bl, s, s1, p, DirectlyFinalized) && s1[p].status.IsFinalized()
    ensures s1[p].status == DirectlyFinalized && s1[h].status == Valid
    ensures SameValidity(root, s, SetStatus(s1, h, Committed))
  {
    if s1[h].status != s[h].status { AncHeight(bl, h, p); }
  }

  /** Finalizing `p` and committing its child `h` keeps the finalized blocks in order. */
  lemma FinalizeStoreKeeps(bl: BlockTable, root: Hash, c: Core, p: Hash, s1: Store, h: Hash)
    requires FinalOK(bl, root, c)
    requires h in c.chain.store && h in s1 && s1[h].status == Valid
    requires bl(h).height > bl(c.hcc).height && bl(h).height == bl(p).height + 1
    requires p in c.chain.store && bl(p).height > bl(c.lfb).height
    requires SameShape(c.chain.store, s1) && FinalizesBranch(bl, c.chain.store, s1, p, DirectlyFinalized)
    requires s1[p].status == DirectlyFinalized && FinalClosed(bl, root, s1)
    ensures FinalOK(bl, root, c.(hcc := h, lfb := p, chain := c.chain.(store := SetStatus(s1, h, Committed))))
  {
    var s := c.chain.store;
    var s2 := SetStatus(s1, h, Committed);
    forall x | x in s2 && s2[x].status.IsFinalized()
      ensures bl(x).height <= bl(p).height && (bl(x).height == bl(p).height ==> x == p)
    {
      if s1[x].status != s[x].status { AncHeight(bl, x, p); }
    }
    FinalizeBelowDirect(bl, s, s1, p, h);
    forall x: Hash ensures HangsBelowFinal(bl, root, s2, x) {
      assert HangsBelowFinal(bl, root, s1, x);
    }
  }

  lemma CommitStoreKeeps(bl: BlockTable, root: Hash, c: Core, h: Hash)
    requires FinalOK(bl, root, c)
    requires h in c.chain.store && c.chain.store[h].status == Valid && bl(h).height > bl(c.hcc).height
    ensures FinalOK(bl, root, Mark(c, h, Committed).(hcc := h))
  {
    var s, s' := c.chain.store, Mark(c, h, Committed).chain.store;
    forall x: Hash ensures BelowDirect(bl, s', x) {
      assert BelowDirect(bl, s, x);
      if x in s' && s'[x].status == IndirectlyFinalized {
        var d :| d in s && s[d].status == DirectlyFinalized && Anc(bl, x, d);
        assert s'[d].status == DirectlyFinalized;
      }
    }
    forall x: Hash ensures HangsBelowFinal(bl, root, s', x) {
      assert HangsBelowFinal(bl, root, s, x);
    }
  }

  lemma CommitKeeps(bl: BlockTable, root: Hash, c: Core, h: Hash)
    requires NodeOK(bl, root, c)
    requires h in c.chain.store && c.chain.store[h].status == Valid && bl(h).height > bl(c.hcc).height
    ensures NodeOK(bl, root, Mark(c, h, Committed).(hcc := h))
  {
    MarkKeepsChain(c, h, Committed);
    MarkSameValidity(root, c.chain.store, h, Committed);
    SameValidityKeeps(bl, root, c.chain.store, Mark(c, h, Committed).chain.store, c.hcc, h);
    CommitStoreKeeps(bl, root, c, h);
  }

  /** Statuses that are not final leave the indexes alone. */
  lemma MarkKeepsChain(c: Core, h: Hash, status: Status)
    requires TreeOK(c.chain) && TxIndexOK(c.chain) && h in c.chain.store
    requires !c.chain.store[h].status.IsFinalized() && !status.IsFinalized()
    ensures TreeOK(Mark(c, h, status).chain) && TxIndexOK(Mark(c, h, status).chain)
  {
    SameLinksKeepTree(c.chain, Mark(c, h, status).chain);
    SameFinalKeepsTxIndex(c.chain, Mark(c, h, status).chain);
  }

  /** Indexing a finalized block's transactions once more changes nothing that matters. */
  lemma ForceAgainKeepsTxIndex(ch: ChainState, p: Hash)
    requires HashesOK(ch.store) && TxIndexOK(ch) && p in ch.store && ch.store[p].status.IsFinalized()
    ensures TxIndexOK(ch.(txIndex := IndexTxs(ch.txIndex, ch.store[p].block, 0, true)))
  {
    ForceIndexKeepsTxIndex(ch, p, ch.store[p].status);
    assert SetStatus(ch.store, p, ch.store[p].status) == ch.store;
  }

  lemma FinalizeAndCommitChain(bl: BlockTable, root: Hash, c: Core, p: Hash, ch: ChainState, h: Hash)
    requires TreeOK(c.chain) && TxIndexOK(ch) && ch.heights == c.chain.heights
    requires SameShape(c.chain.store, ch.store)
    requires p in ch.store && ch.store[p].status.IsFinalized() && h in ch.store && ch.store[h].status == Valid
    ensures var ch' := ch.(store := SetStatus(ch.store, h, Committed),
                           txIndex := IndexTxs(ch.txIndex, ch.store[p].block, 0, true));
            TreeOK(ch') && TxIndexOK(ch')
  {
    SameLinksKeepTree(c.chain, ch);
    ForceAgainKeepsTxIndex(ch, p);
    var ch1 := ch.(txIndex := IndexTxs(ch.txIndex, ch.store[p].block, 0, true));
    var ch' := ch1.(store := SetStatus(ch.store, h, Committed));
    SameLinksKeepTree(ch, ch');
    SameFinalKeepsTxIndex(ch1, ch');
  }

  lemma FinalizeAndCommitKeeps(bl: BlockTable, root: Hash, c: Core, h: Hash)
    requires NodeOK(bl, root, c) && h in c.chain.store && c.chain.store[h].status == Valid
    requires bl(h).height > bl(c.hcc).height && bl(h).parent != c.lfb && bl(h).parent in c.chain.store
    ensures NodeOK(bl, root, Mark(FinalizeBlock(c, bl(h).parent), h, Committed).(hcc := h))
  {
    var p := bl(h).parent;
    assert HangsBelowValid(bl, root, c.chain.store, h);
    assert FinalClosedBut(bl, root, c.chain.store, p);
    FinalizeFacts(bl, root, c.chain, p, DirectlyFinalized);
    FinalizeKeepsTxIndex(c.chain, p, DirectlyFinalized);
    var ch := FinalizePrevious(c.chain, p, DirectlyFinalized);
    FinalizedAreOld(bl, root, c, p);
    FinalizeKeepsValidity(bl, root, c.chain.store, p, ch.store, h);
    FinalizeStoreKeeps(bl, root, c, p, ch.store, h);
    FinalizeAndCommitChain(bl, root, c, p, ch, h);
    SameValidityKeeps(bl, root, c.chain.store, SetStatus(ch.store, h, Committed), c.hcc, h);
    var c' := Mark(FinalizeBlock(c, p), h, Committed).(hcc := h);
    assert c'.chain.store == SetStatus(ch.store, h, Committed);
  }

  /** A new commit certificate keeps the invariant. */
  lemma ProcessCCKeeps(bl: BlockTable, root: Hash, c: Core, h: Hash)
    requires NodeOK(bl, root, c) && h in c.chain.store && c.chain.store[h].status == Valid
    ensures NodeOK(bl, root, ProcessCC(c, h))
  {
    assert HangsBelowValid(bl, root, c.chain.store, h);
    if bl(h).height > bl(c.hcc).height {
      if bl(h).parent == bl(h).hcc.blockHash && bl(h).parent != c.lfb {
        FinalizeAndCommitKeeps(bl, root, c, h);
      } else {
        CommitKeeps(bl, root, c, h);
      }
    }
  }

  lemma CheckCCKeeps(bl: BlockTable, root: Hash, c: Core, vals: seq<Validator>, h: Hash)
    requires NodeOK(bl, root, c)
    ensures NodeOK(bl, root, CheckCC(c, vals, h))
  {
    if h in c.chain.store && c.chain.store[h].status == Valid {
      ProcessCCKeeps(bl, root, c, h);
    }
  }

  // ---- The other steps ----

  /** What the invariant asks of a block before it is stored. */
  ghost predicate Genuine(bl: BlockTable, b: Block) {
    && b.hash != EMPTY_HASH && b == bl(b.hash)
    && b.hcc.blockHash != b.hash
    && WellKeyed(b.hcc.votes)
  }

  lemma AddBlockKeeps(bl: BlockTable, root: Hash, c: Core, b: Block)
    requires NodeOK(bl, root, c) && Genuine(bl, b) && b.hash !in c.chain.store
    ensures NodeOK(bl, root, c.(chain := AddBlock(c.chain, b)))
  {
    AddBlockKeepsTree(c.chain, b);
    AddBlockKeepsTxIndex(c.chain, b);
    AddBlockChildren(c.chain, b);
    AddPendingKeeps(bl, root, c, AddBlock(c.chain, b));
  }

  /** The store has all blocks as before, perhaps with longer children lists, and new pending ones. */
  ghost predicate AddsPending(bl: BlockTable, root: Hash, s: Store, s': Store) {
    && (forall h :: h in s ==> h in s' && s'[h].block == bl(h) && s'[h].status == s[h].status)
    && (forall h :: h in s' && h !in s ==>
          && s'[h].block == bl(h) && s'[h].status == Pending && h != EMPTY_HASH
          && bl(h).hcc.blockHash != h && WellKeyed(bl(h).hcc.votes))
  }

  lemma AddPendingKeepsFinal(bl: BlockTable, root: Hash, c: Core, ch: ChainState)
    requires FinalOK(bl, root, c) && AddsPending(bl, root, c.chain.store, ch.store)
    ensures FinalOK(bl, root, c.(chain := ch))
  {
    var s, s' := c.chain.store, ch.store;
    forall x: Hash ensures HangsBelowFinal(bl, root, s', x) {
      assert HangsBelowFinal(bl, root, s, x);
    }
    forall x: Hash ensures BelowDirect(bl, s', x) {
      assert BelowDirect(bl, s, x);
      if x in s' && s'[x].status == IndirectlyFinalized {
        var d :| d in s && s[d].status == DirectlyFinalized && Anc(bl, x, d);
        assert s'[d].status == DirectlyFinalized;
      }
    }
  }

  /** New pending blocks and longer children lists do not matter. */
  lemma AddPendingKeeps(bl: BlockTable, root: Hash, c: Core, ch: ChainState)
    requires NodeOK(bl, root, c) && TreeOK(ch) && TxIndexOK(ch) && ch.votes == c.chain.votes
    requires AddsPending(bl, root, c.chain.store, ch.store)
    ensures NodeOK(bl, root, c.(chain := ch))
  {
    var s, s' := c.chain.store, ch.store;
    AddPendingKeepsFinal(bl, root, c, ch);
    forall x: Hash ensures CertificateOK(bl, root, s', x) {
      assert CertificateOK(bl, root, s, x);
    }
    forall x: Hash ensures HangsBelowValid(bl, root, s', x) {
      assert HangsBelowValid(bl, root, s, x);
    }
    forall x: Hash ensures LockHolds(bl, root, s', c.hcc, x) {
      assert LockHolds(bl, root, s, c.hcc, x);
    }
  }

  lemma AddVoteKeeps(bl: BlockTable, root: Hash, c: Core, v: Vote)
    requires NodeOK(bl, root, c)
    ensures NodeOK(bl, root, AddVote(c, v))
  {
    var c' := AddVote(c, v);
    SameLinksKeepTree(c.chain, c'.chain);
    SameFinalKeepsTxIndex(c.chain, c'.chain);
    forall h: Hash ensures IndexedVotesOK(c'.chain.votes, h) {
      assert IndexedVotesOK(c.chain.votes, h);
    }
  }

  lemma {:induction false} AddVotesKeeps(bl: BlockTable, root: Hash, c: Core, s: seq<Vote>)
    requires NodeOK(bl, root, c)
    ensures NodeOK(bl, root, AddVotes(c, s))
    decreases |s|
  {
    if s != [] {
      AddVoteKeeps(bl, root, c, s[0]);
      AddVotesKeeps(bl, root, AddVote(c, s[0]), s[1..]);
    }
  }

  /** A pending block may be rejected. */
  lemma RejectKeeps(bl: BlockTable, root: Hash, c: Core, h: Hash)
    requires NodeOK(bl, root, c) && h in c.chain.store && c.chain.store[h].status == Pending
    ensures NodeOK(bl, root, Mark(c, h, Invalid))
  {
    var c' := Mark(c, h, Invalid);
    MarkKeepsChain(c, h, Invalid);
    MarkSameValidity(root, c.chain.store, h, Invalid);
    SameValidityKeeps(bl, root, c.chain.store, c'.chain.store, c.hcc, c.hcc);
    DecidedSameFinal(c.chain.store, h, c'.chain.store[h]);
    SameFinalKeepsFinalOK(bl, root, c, c');
  }

  /** Validated blocks keep their status, and no other block becomes committed or finalized. */
  ghost predicate SameFinal(s: Store, s': Store) {
    && s'.Keys == s.Keys
    && forall h :: h in s ==>
         && (s[h].status.IsValid() ==> s'[h].status == s[h].status)
         && (!s[h].status.IsValid() ==> s'[h].status != Committed && !s'[h].status.IsFinalized())
  }

  lemma DecidedSameFinal(s: Store, h: Hash, e: ExtendedBlock)
    requires h in s && s[h].status == Pending && (e.status == Invalid || e.status == Valid)
    ensures SameFinal(s, s[h := e])
  {}

  /** Steps between unfinalized statuses leave the finalized blocks alone. */
  lemma SameFinalKeepsFinalOK(bl: BlockTable, root: Hash, c: Core, c': Core)
    requires FinalOK(bl, root, c) && c'.hcc == c.hcc && c'.lfb == c.lfb
    requires SameFinal(c.chain.store, c'.chain.store)
    ensures FinalOK(bl, root, c')
  {
    var s, s' := c.chain.store, c'.chain.store;
    forall x: Hash ensures HangsBelowFinal(bl, root, s', x) {
      assert HangsBelowFinal(bl, root, s, x);
    }
    forall x: Hash ensures BelowDirect(bl, s', x) {
      assert BelowDirect(bl, s, x);
      if x in s' && s'[x].status == IndirectlyFinalized {
        var d :| d in s && s[d].status == DirectlyFinalized && Anc(bl, x, d);
        assert s'[d].status == DirectlyFinalized;
      }
    }
  }

  /** What processing has to establish before a block is marked valid. */
  ghost predicate Acceptable(bl: BlockTable, c: Core, h: Hash) {
    var s, b := c.chain.store, bl(h);
    && h in s && s[h].status == Pending
    && b.parent in s && s[b.parent].status.IsValid() && b.height == bl(b.parent).height + 1
    && b.hcc.blockHash in s && s[b.hcc.blockHash].status.IsValid()
    && Anc(bl, b.hcc.blockHash, h)
    && bl(b.hcc.blockHash).height <= bl(c.hcc).height
  }

  lemma AcceptKeeps(bl: BlockTable, root: Hash, c: Core, h: Hash, update: bool)
    requires NodeOK(bl, root, c) && Acceptable(bl, c, h)
    ensures NodeOK(bl, root, Accept(c, h, update))
  {
    var c' := Accept(c, h, update);
    SameCertificates(bl, root, c.chain.store, c'.chain.store);
    AcceptKeepsChain(c, h, update);
    DecidedSameFinal(c.chain.store, h, c'.chain.store[h]);
    SameFinalKeepsFinalOK(bl, root, c, c');
    AcceptKeepsLinks(bl, root, c, h, update);
  }

  lemma AcceptKeepsChain(c: Core, h: Hash, update: bool)
    requires TreeOK(c.chain) && TxIndexOK(c.chain) && h in c.chain.store && c.chain.store[h].status == Pending
    ensures TreeOK(Accept(c, h, update).chain) && TxIndexOK(Accept(c, h, update).chain)
  {
    SameLinksKeepTree(c.chain, Accept(c, h, update).chain);
    SameFinalKeepsTxIndex(c.chain, Accept(c, h, update).chain);
  }

  lemma AcceptKeepsLinks(bl: BlockTable, root: Hash, c: Core, h: Hash, update: bool)
    requires StatusClosed(bl, root, c.chain.store) && Locked(bl, root, c.chain.store, c.hcc) && Acceptable(bl, c, h)
    ensures StatusClosed(bl, root, Accept(c, h, update).chain.store)
    ensures Locked(bl, root, Accept(c, h, update).chain.store, c.hcc)
  {
    var s, s' := c.chain.store, Accept(c, h, update).chain.store;
    forall x: Hash ensures HangsBelowValid(bl, root, s', x) {
      assert HangsBelowValid(bl, root, s, x);
    }
    forall x: Hash ensures LockHolds(bl, root, s', c.hcc, x) {
      assert LockHolds(bl, root, s, c.hcc, x);
    }
  }

  lemma CastVoteKeeps(bl: BlockTable, root: Hash, c: Core, env: Env, ballot: Ballot)
    requires NodeOK(bl, root, c) && IsTip(c, true, ballot.tip)
    ensures NodeOK(bl, root, CastVote(c, env, ballot).core)
  {}

  // ---- Progress is never undone ----

  /** A status may only move forward: a pending block is decided once, a validated block stays
      validated, and a rejected or finalized block keeps its status. */
  ghost predicate StatusAdvances(a: Status, b: Status) {
    || a == b
    || a == Pending
    || (a == Valid && (b == Committed || b.IsFinalized()))
    || (a == Committed && b.IsFinalized())
  }

  /** Along a run blocks stay stored, statuses move forward, the highest certified block never gets
      lower, and a new last finalized block is strictly higher than the old one. */
  ghost predicate Advances(bl: BlockTable, c: Core, c': Core) {
    && (forall h :: h in c.chain.store ==>
          h in c'.chain.store && StatusAdvances(c.chain.store[h].status, c'.chain.store[h].status))
    && bl(c.hcc).height <= bl(c'.hcc).height
    && (c'.lfb == c.lfb || bl(c.lfb).height < bl(c'.lfb).height)
  }

  lemma AdvancesTrans(bl: BlockTable, a: Core, b: Core, c: Core)
    requires Advances(bl, a, b) && Advances(bl, b, c)
    ensures Advances(bl, a, c)
  {}

  /** Only validated blocks change status, and only forward. */
  ghost predicate ValidatedAdvance(s: Store, s': Store) {
    && SameShape(s, s')
    && forall x :: x in s && s'[x].status != s[x].status ==>
         s[x].status.IsValid() && StatusAdvances(s[x].status, s'[x].status)
  }

  lemma BranchAdvances(bl: BlockTable, s: Store, s1: Store, p: Hash, h: Hash)
    requires SameShape(s, s1) && FinalizesBranch(bl, s, s1, p, DirectlyFinalized)
    requires h in s && s[h].status == Valid && s1[h].status == Valid
    ensures ValidatedAdvance(s, SetStatus(s1, h, Committed))
  {}

  lemma FinalizeAdvances(bl: BlockTable, root: Hash, c: Core, h: Hash)
    requires SpineOK(bl, root, c) && h in c.chain.store && c.chain.store[h].status == Valid
    requires bl(h).height > bl(c.hcc).height && bl(h).parent in c.chain.store && bl(h).parent != c.lfb
    ensures ValidatedAdvance(c.chain.store, Mark(FinalizeBlock(c, bl(h).parent), h, Committed).chain.store)
    ensures bl(bl(h).parent).height > bl(c.lfb).height
  {
    var p := bl(h).parent;
    assert HangsBelowValid(bl, root, c.chain.store, h);
    FinalizedAreOld(bl, root, c, p);
    FinalizeFacts(bl, root, c.chain, p, DirectlyFinalized);
    var s1 := FinalizePrevious(c.chain, p, DirectlyFinalized).store;
    FinalizeKeepsValidity(bl, root, c.chain.store, p, s1, h);
    BranchAdvances(bl, c.chain.store, s1, p, h);
  }

  lemma AdvancesFrom(bl: BlockTable, c: Core, c': Core)
    requires ValidatedAdvance(c.chain.store, c'.chain.store)
    requires bl(c.hcc).height <= bl(c'.hcc).height && (c'.lfb == c.lfb || bl(c.lfb).height < bl(c'.lfb).height)
    ensures Advances(bl, c, c')
  {}

  lemma CommitAdvances(bl: BlockTable, c: Core, h: Hash)
    requires h in c.chain.store && c.chain.store[h].status == Valid && bl(h).height > bl(c.hcc).height
    ensures ValidatedAdvance(c.chain.store, Mark(c, h, Committed).chain.store)
    ensures Advances(bl, c, Mark(c, h, Committed).(hcc := h))
  {}

  lemma ProcessCCAdvances(bl: BlockTable, root: Hash, c: Core, h: Hash)
    requires SpineOK(bl, root, c) && h in c.chain.store && c.chain.store[h].status == Valid
    requires bl(h).height > bl(c.hcc).height
    ensures ValidatedAdvance(c.chain.store, ProcessCC(c, h).chain.store)
    ensures Advances(bl, c, ProcessCC(c, h))
    ensures ProcessCC(c, h).hcc == h && ProcessCC(c, h).lastVote == c.lastVote
    ensures ProcessCC(c, h).chain.votes == c.chain.votes
  {
    assert HangsBelowValid(bl, root, c.chain.store, h);
    var p := bl(h).parent;
    if p == bl(h).hcc.blockHash && p != c.lfb {
      FinalizeAdvances(bl, root, c, h);
      AdvancesFrom(bl, c, Mark(FinalizeBlock(c, p), h, Committed).(hcc := h));
    } else {
      CommitAdvances(bl, c, h);
    }
  }

  /** A certificate check only touches validated blocks, and never moves the node back. */
  lemma CheckCCAdvances(bl: BlockTable, root: Hash, c: Core, vals: seq<Validator>, h: Hash)
    requires SpineOK(bl, root, c)
    ensures ValidatedAdvance(c.chain.store, CheckCC(c, vals, h).chain.store)
    ensures Advances(bl, c, CheckCC(c, vals, h))
    ensures CheckCC(c, vals, h).lastVote == c.lastVote && CheckCC(c, vals, h).chain.votes == c.chain.votes
  {
    if h in c.chain.store && c.chain.store[h].status == Valid && bl(h).height > bl(c.hcc).height {
      ProcessCCAdvances(bl, root, c, h);
    }
  }

  /** A block becomes directly finalized only as the certified parent of a block with a quorum. */
  lemma NewlyDirect(bl: BlockTable, root: Hash, c: Core, vals: seq<Validator>, h: Hash, x: Hash)
    requires SpineOK(bl, root, c) && x in c.chain.store && c.chain.store[x].status != DirectlyFinalized
    requires CheckCC(c, vals, h).chain.store[x].status == DirectlyFinalized
    ensures h in c.chain.store && c.chain.store[h].status == Valid && h != root && HasQuorum(c, vals, h)
    ensures bl(h).parent == x && bl(h).hcc.blockHash == x && bl(h).height == bl(x).height + 1
    ensures !c.chain.store[x].status.IsFinalized() && bl(h).height > bl(c.hcc).height
  {
    assert HangsBelowValid(bl, root, c.chain.store, h);
    var p := bl(h).parent;
    if bl(h).hcc.blockHash == p && p != c.lfb {
      FinalizeFacts(bl, root, c.chain, p, DirectlyFinalized);
      var s1 := FinalizePrevious(c.chain, p, DirectlyFinalized).store;
      assert x != h;
      assert CheckCC(c, vals, h).chain.store[x] == s1[x];
    }
  }

  /** The highest certified block only changes to a validated block with a quorum. */
  lemma NewHighest(bl: BlockTable, root: Hash, c: Core, vals: seq<Validator>, h: Hash)
    requires SpineOK(bl, root, c) && CheckCC(c, vals, h).hcc != c.hcc
    ensures CheckCC(c, vals, h).hcc == h && h in c.chain.store && HasQuorum(c, vals, h)
    ensures CheckCC(c, vals, h).chain.store[h].status == Committed
  {}

  /** A certificate check commits the block that is checked and no other. */
  lemma NewlyCommitted(bl: BlockTable, root: Hash, c: Core, vals: seq<Validator>, h: Hash, x: Hash)
    requires SpineOK(bl, root, c) && x in c.chain.store && c.chain.store[x].status != Committed
    requires CheckCC(c, vals, h).chain.store[x].status == Committed
    ensures x == h && c.chain.store[x].status == Valid
  {
    assert HangsBelowValid(bl, root, c.chain.store, h);
    var p := bl(h).parent;
    if bl(h).hcc.blockHash == p && p != c.lfb { FinalizeFacts(bl, root, c.chain, p, DirectlyFinalized); }
  }

  // ---- Handling a block ----

  lemma {:induction false} AddVotesIndexes(c: Core, s: seq<Vote>, h: Hash)
    requires VotesOK(c.chain.votes)
    ensures Voters(VotesFor(c.chain, h)) <= Voters(VotesFor(AddVotes(c, s).chain, h))
    ensures forall v :: v in s && ValidVote(v) && v.block == h ==> v.id in Voters(VotesFor(AddVotes(c, s).chain, h))
    decreases |s|
  {
    if s != [] {
      forall x: Hash ensures IndexedVotesOK(AddVote(c, s[0]).chain.votes, x) {
        assert IndexedVotesOK(c.chain.votes, x);
      }
      AddVotesIndexes(AddVote(c, s[0]), s[1..], h);
      assert IndexedVotesOK(c.chain.votes, h);
      if ValidVote(s[0]) && s[0].block == h {
        AddVoteVoters(VotesFor(c.chain, h), s[0]);
      }
    }
  }

  lemma AddVoteVoters(m: VoteMap, v: Vote)
    ensures v.id in Voters(Put(m, v))
    ensures WellKeyed(m) ==> Voters(Put(m, v)) == Voters(m) + {v.id}
  {
    var m' := Put(m, v);
    assert m'[KeyOf(v)] == v;
    if WellKeyed(m) {
      forall a | a in Voters(m) ensures a in Voters(m') {
        var k :| k in m && m[k].id == a;
        assert m'[k].id == a;
      }
    }
  }

  /** A block that passes validation names a validated ancestor as its certified block. */
  lemma ValidatedNamesAncestor(bl: BlockTable, root: Hash, c: Core, env: Env, h: Hash)
    requires SpineOK(bl, root, c) && h in c.chain.store && c.chain.store[h].status == Pending
    requires bl(h).parent in c.chain.store && Validate(c, env, h) == Ok
    ensures var q := bl(h).hcc.blockHash;
            && q in c.chain.store && c.chain.store[q].status.IsValid() && Anc(bl, q, h)
            && c.chain.store[bl(h).parent].status.IsValid()
            && bl(h).height == bl(bl(h).parent).height + 1
            && bl(h).height > bl(c.lfb).height
            && (c.chain.store[q].status.IsFinalized() || ValidCertificate(bl(h).hcc, env.vals))
  {
    var s, q := c.chain.store, bl(h).hcc.blockHash;
    assert CertificateOK(bl, root, s, h);
    var k: nat :| k < MAX_DISTANCE && ParentAt(s, h, k) == Some(q);
    assert h != root && k > 0;
    assert ParentAt(s, h, k) == ParentAt(s, bl(h).parent, k - 1);
    WalkFindsAncestor(bl, root, s, bl(h).parent, k - 1, q);
  }

  /** After the votes of a valid certificate are replayed, the certified block has a quorum. */
  lemma ReplayGivesQuorum(bl: BlockTable, c: Core, vals: seq<Validator>, cc: CommitCertificate, listed: seq<Vote>)
    requires VotesOK(c.chain.votes) && ValidCertificate(cc, vals) && Enumerates(cc.votes, listed)
    ensures HasQuorum(AddVotes(c, listed), vals, cc.blockHash)
  {
    AddVotesIndexes(c, listed, cc.blockHash);
    EnumeratesMembers(cc.votes, listed);
    var after := Voters(VotesFor(AddVotes(c, listed).chain, cc.blockHash));
    forall a | a in Voters(cc.votes) ensures a in after {
      var k :| k in cc.votes && cc.votes[k].id == a;
      assert cc.votes[k] in cc.votes.Values;
    }
    MajorityMonotone(vals, Voters(cc.votes), after);
  }

  /** A certificate check of a validated block with a quorum leaves the node with a certified block
      at least as high. */
  lemma CheckCCReaches(bl: BlockTable, root: Hash, c: Core, vals: seq<Validator>, q: Hash)
    requires SpineOK(bl, root, c) && q in c.chain.store && c.chain.store[q].status.IsValid()
    requires c.chain.store[q].status.IsFinalized() || HasQuorum(c, vals, q)
    ensures bl(q).height <= bl(CheckCC(c, vals, q).hcc).height
  {
    CheckCCAdvances(bl, root, c, vals, q);
    if c.chain.store[q].status == Valid && bl(q).height > bl(c.hcc).height {
      ProcessCCAdvances(bl, root, c, q);
    }
  }

  lemma AddVotesFrame(c: Core, s: seq<Vote>)
    ensures AddVotes(c, s).lastVote == c.lastVote
    decreases |s|
  {
    if s != [] { AddVotesFrame(AddVote(c, s[0]), s[1..]); }
  }

  lemma ReplayKeeps(bl: BlockTable, root: Hash, c: Core, vals: seq<Validator>, b: Block, listed: seq<Vote>)
    requires NodeOK(bl, root, c)
    ensures NodeOK(bl, root, ReplayCertificate(c, vals, b, listed))
    ensures Advances(bl, c, ReplayCertificate(c, vals, b, listed))
    ensures ValidatedAdvance(c.chain.store, ReplayCertificate(c, vals, b, listed).chain.store)
    ensures ReplayCertificate(c, vals, b, listed).lastVote == c.lastVote
  {
    AddVotesKeeps(bl, root, c, listed);
    AddVotesFrame(c, listed);
    var c1 := AddVotes(c, listed);
    CheckCCKeeps(bl, root, c1, vals, b.hcc.blockHash);
    CheckCCAdvances(bl, root, c1, vals, b.hcc.blockHash);
  }

  lemma ReplayReaches(bl: BlockTable, root: Hash, c: Core, vals: seq<Validator>, b: Block, listed: seq<Vote>)
    requires NodeOK(bl, root, c) && Enumerates(b.hcc.votes, listed)
    requires b.hcc.blockHash in c.chain.store && c.chain.store[b.hcc.blockHash].status.IsValid()
    requires c.chain.store[b.hcc.blockHash].status.IsFinalized() || ValidCertificate(b.hcc, vals)
    ensures bl(b.hcc.blockHash).height <= bl(ReplayCertificate(c, vals, b, listed).hcc).height
  {
    AddVotesKeeps(bl, root, c, listed);
    if ValidCertificate(b.hcc, vals) { ReplayGivesQuorum(bl, c, vals, b.hcc, listed); }
    CheckCCReaches(bl, root, AddVotes(c, listed), vals, b.hcc.blockHash);
  }

  lemma AcceptableAfter(bl: BlockTable, s: Store, c: Core, h: Hash)
    requires ValidatedAdvance(s, c.chain.store) && h in s && s[h].status == Pending
    requires bl(h).parent in s && s[bl(h).parent].status.IsValid() && bl(h).height == bl(bl(h).parent).height + 1
    requires var q := bl(h).hcc.blockHash;
             q in s && s[q].status.IsValid() && Anc(bl, q, h) && bl(q).height <= bl(c.hcc).height
    ensures Acceptable(bl, c, h)
  {}

  /** Replaying the certificate is what establishes the lock for the new block. */
  lemma ReplayEstablishesLock(bl: BlockTable, root: Hash, c: Core, env: Env, h: Hash, listed: seq<Vote>)
    requires NodeOK(bl, root, c) && h in c.chain.store && c.chain.store[h].status == Pending
    requires bl(h).parent in c.chain.store && Validate(c, env, h) == Ok
    requires Enumerates(bl(h).hcc.votes, listed)
    ensures Acceptable(bl, ReplayCertificate(c, env.vals, bl(h), listed), h)
  {
    ValidatedNamesAncestor(bl, root, c, env, h);
    ReplayKeeps(bl, root, c, env.vals, bl(h), listed);
    ReplayReaches(bl, root, c, env.vals, bl(h), listed);
    AcceptableAfter(bl, c.chain.store, ReplayCertificate(c, env.vals, bl(h), listed), h);
  }

  // ---- Every handler keeps the invariant and moves the node forward ----

  lemma ReceiveVoteKeeps(bl: BlockTable, root: Hash, c: Core, vals: seq<Validator>, v: Vote)
    requires NodeOK(bl, root, c)
    ensures NodeOK(bl, root, ReceiveVote(c, vals, v)) && Advances(bl, c, ReceiveVote(c, vals, v))
  {
    AddVoteKeeps(bl, root, c, v);
    CheckCCKeeps(bl, root, AddVote(c, v), vals, v.block);
    CheckCCAdvances(bl, root, AddVote(c, v), vals, v.block);
  }

  lemma AcceptAdvances(bl: BlockTable, c: Core, h: Hash, update: bool)
    requires h in c.chain.store && c.chain.store[h].status == Pending
    ensures Advances(bl, c, Accept(c, h, update))
  {}

  lemma RejectAdvances(bl: BlockTable, c: Core, h: Hash)
    requires h in c.chain.store && c.chain.store[h].status == Pending
    ensures Advances(bl, c, Mark(c, h, Invalid))
  {}

  /** An accepted block is marked valid, perhaps voted for, and perhaps certified at once. */
  lemma AcceptedBlockKeeps(bl: BlockTable, root: Hash, c: Core, env: Env, h: Hash, update: bool, ballot: Option<Ballot>)
    requires NodeOK(bl, root, c) && Acceptable(bl, c, h)
    requires ballot.Some? ==> IsTip(Accept(c, h, update), true, ballot.value.tip)
    ensures var sent := Ballots(Accept(c, h, update), env, ballot);
            var c' := CheckCC(sent.core, env.vals, h);
            NodeOK(bl, root, sent.core) && NodeOK(bl, root, c') && Advances(bl, c, c')
  {
    var c1 := Accept(c, h, update);
    AcceptKeeps(bl, root, c, h, update);
    AcceptAdvances(bl, c, h, update);
    if ballot.Some? { CastVoteKeeps(bl, root, c1, env, ballot.value); }
    var sent := Ballots(c1, env, ballot);
    CheckCCKeeps(bl, root, sent.core, env.vals, h);
    CheckCCAdvances(bl, root, sent.core, env.vals, h);
    AdvancesTrans(bl, c, c1, sent.core);
    AdvancesTrans(bl, c, sent.core, CheckCC(sent.core, env.vals, h));
  }

  /** The ballot of a processed block is for a tip of the chain as it is once the block is valid. */
  ghost predicate BallotFits(
    c: Core, env: Env, h: Hash, listed: seq<Vote>, answer: LedgerAnswer, ballot: Option<Ballot>)
    requires Loaded(c) && h in c.chain.store
  {
    ballot.Some? && answer.Applies? ==>
      var c2 := ReplayCertificate(c, env.vals, BlockOf(c, h), listed);
      IsTip(Accept(c2, h, answer.hasValidatorUpdate), true, ballot.value.tip)
  }

  /** The three ways HandleBlock can end. */
  lemma HandleBlockCases(c: Core, env: Env, h: Hash, listed: seq<Vote>, answer: LedgerAnswer, ballot: Option<Ballot>)
    requires Loaded(c) && h in c.chain.store && HandleBlock(c, env, h, listed, answer, ballot).Handled?
    ensures var o := HandleBlock(c, env, h, listed, answer, ballot);
            if StatusOf(c, h) != Pending then o == Handled(c, None)
            else BlockOf(c, h).parent in c.chain.store
                 && Validate(c, env, h) != ParentPending
                 && (Validate(c, env, h) == Rejected ==> o == Handled(Mark(c, h, Invalid), None))
                 && (Validate(c, env, h) == Ok ==>
                       var c2 := ReplayCertificate(c, env.vals, BlockOf(c, h), listed);
                       var sent := Decide(c2, env, h, answer, ballot);
                       o == Handled(sent.core, sent.vote))
  {}

  lemma HandleBlockKeeps(bl: BlockTable, root: Hash, c: Core, env: Env, h: Hash, listed: seq<Vote>,
                         answer: LedgerAnswer, ballot: Option<Ballot>)
    requires NodeOK(bl, root, c)
    requires h in c.chain.store ==> Enumerates(bl(h).hcc.votes, listed)
    requires h in c.chain.store ==> BallotFits(c, env, h, listed, answer, ballot)
    ensures var o := HandleBlock(c, env, h, listed, answer, ballot);
            o.Handled? ==> NodeOK(bl, root, o.core) && Advances(bl, c, o.core)
  {
    if HandleBlock(c, env, h, listed, answer, ballot).Handled? {
      HandleBlockCases(c, env, h, listed, answer, ballot);
      if StatusOf(c, h) == Pending {
        if Validate(c, env, h) == Rejected {
          RejectKeeps(bl, root, c, h);
          RejectAdvances(bl, c, h);
        } else {
          var c2 := ReplayCertificate(c, env.vals, bl(h), listed);
          ReplayKeeps(bl, root, c, env.vals, bl(h), listed);
          ReplayEstablishesLock(bl, root, c, env, h, listed);
          HandleValidated(bl, root, c, c2, env, h, answer, ballot);
        }
      }
    }
  }

  lemma HandleValidated(bl: BlockTable, root: Hash, c: Core, c2: Core, env: Env, h: Hash,
                        answer: LedgerAnswer, ballot: Option<Ballot>)
    requires NodeOK(bl, root, c2) && Advances(bl, c, c2) && Acceptable(bl, c2, h)
    requires ballot.Some? && answer.Applies? ==>
               IsTip(Accept(c2, h, answer.hasValidatorUpdate), true, ballot.value.tip)
    ensures NodeOK(bl, root, Decide(c2, env, h, answer, ballot).core)
    ensures Advances(bl, c, Decide(c2, env, h, answer, ballot).core)
  {
    match answer {
      case Undecided =>
      case Applies(update) => HandleAccepted(bl, root, c, c2, env, h, update, ballot);
      case _ => HandleRejected(bl, root, c, c2, h);
    }
  }

  lemma HandleAccepted(bl: BlockTable, root: Hash, c: Core, c2: Core, env: Env, h: Hash, update: bool,
                       ballot: Option<Ballot>)
    requires NodeOK(bl, root, c2) && Advances(bl, c, c2) && Acceptable(bl, c2, h)
    requires ballot.Some? ==> IsTip(Accept(c2, h, update), true, ballot.value.tip)
    ensures var c' := CheckCC(Ballots(Accept(c2, h, update), env, ballot).core, env.vals, h);
            NodeOK(bl, root, c') && Advances(bl, c, c')
  {
    AcceptedBlockKeeps(bl, root, c2, env, h, update, ballot);
    AdvancesTrans(bl, c, c2, CheckCC(Ballots(Accept(c2, h, update), env, ballot).core, env.vals, h));
  }

  lemma HandleRejected(bl: BlockTable, root: Hash, c: Core, c2: Core, h: Hash)
    requires NodeOK(bl, root, c2) && Advances(bl, c, c2) && h in c2.chain.store && c2.chain.store[h].status == Pending
    ensures NodeOK(bl, root, Mark(c2, h, Invalid)) && Advances(bl, c, Mark(c2, h, Invalid))
  {
    RejectKeeps(bl, root, c2, h);
    RejectAdvances(bl, c2, h);
    AdvancesTrans(bl, c, c2, Mark(c2, h, Invalid));
  }

  // ---- The start ----

  /** A node that starts from an empty store with the root block. */
  ghost function StartCore(bl: BlockTable, root: Hash): Core {
    Core(FinalizePrevious(AddBlock(EMPTY_CHAIN, bl(root)), root, DirectlyFinalized), NO_VOTE, root, root)
  }

  /** The root is a genesis block. */
  ghost predicate RootOK(bl: BlockTable, root: Hash) {
    root != EMPTY_HASH && bl(root).hash == root && bl(root).parent == EMPTY_HASH && WellKeyed(bl(root).hcc.votes)
  }

  lemma StartChain(bl: BlockTable, root: Hash)
    requires RootOK(bl, root)
    ensures var ch := StartCore(bl, root).chain;
            && TreeOK(ch) && TxIndexOK(ch)
            && ch.store.Keys == {root} && ch.store[root].block == bl(root)
            && ch.store[root].status == DirectlyFinalized && !ch.store[root].hasValidatorUpdate && ch.votes == map[]
  {
    var b := bl(root);
    var ch := AddBlock(EMPTY_CHAIN, b);
    AddBlockChildren(EMPTY_CHAIN, b);
    AddBlockKeepsTree(EMPTY_CHAIN, b);
    AddBlockKeepsTxIndex(EMPTY_CHAIN, b);
    ForceIndexKeepsTxIndex(ch, root, DirectlyFinalized);
    var ch1 := FinalizeOne(ch, root, DirectlyFinalized);
    SameLinksKeepTree(ch, ch1);
    FinalizingShrinks(ch.store, root, DirectlyFinalized);
    assert FinalizePrevious(ch1, b.parent, IndirectlyFinalized) == ch1;
  }

  lemma StartKeeps(bl: BlockTable, root: Hash)
    requires RootOK(bl, root)
    ensures NodeOK(bl, root, StartCore(bl, root))
  {
    StartChain(bl, root);
    var c := StartCore(bl, root);
    forall h: Hash ensures BelowDirect(bl, c.chain.store, h) && HangsBelowFinal(bl, root, c.chain.store, h) {}
  }
}
