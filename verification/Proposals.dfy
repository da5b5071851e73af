/** A node accepts its own proposals (consensus/engine.go, createProposal against validateBlock). */
module Proposals {
  import opened Options
  import opened Validators
  import opened Votes
  import opened Blocks
  import opened ChainIndexes
  import opened Consensus
  import opened NodeInvariant

  /** The highest certified block is finalized, or it is committed and the node still holds the votes that
      certify it. */
  ghost predicate Backed(c: Core, vals: seq<Validator>) {
    && c.hcc in c.chain.store
    && (StatusOf(c, c.hcc).IsFinalized() || (StatusOf(c, c.hcc) == Committed && HasQuorum(c, vals, c.hcc)))
  }

  // ---- The certificate a proposal carries ----

  lemma {:induction false} AddressCount(vals: seq<Validator>)
    ensures |Addresses(vals)| <= |vals|
  {
    if vals == [] {
      assert Addresses(vals) == {};
    } else {
      AddressesSplit(vals);
      AddressCount(vals[1..]);
    }
  }

  lemma {:induction false} VoterCount(m: VoteMap)
    requires OneEach(m)
    ensures |Voters(m)| == |m|
    decreases |m|
  {
    if m == map[] {
      assert Voters(m) == {};
    } else {
      var k :| k in m;
      var rest := m - {k};
      VoterCount(rest);
      assert Voters(m) == Voters(rest) + {m[k].id} by {
        forall a | a in Voters(m) ensures a in Voters(rest) + {m[k].id} {
          var j :| j in m && m[j].id == a;
          if j != k { assert rest[j].id == a; }
        }
        forall a | a in Voters(rest) ensures a in Voters(m) {
          var j :| j in rest && rest[j].id == a;
          assert m[j].id == a;
        }
        assert m[k].id in Voters(m);
      }
      assert m[k].id !in Voters(rest);
      assert |rest| == |m| - 1;
    }
  }

  lemma FilterKeepsMajority(m: VoteMap, vals: seq<Validator>)
    requires Majority(vals, Voters(m))
    ensures Majority(vals, Voters(ByValidators(m, vals)))
  {
    var f := ByValidators(m, vals);
    forall v | v in vals && v.address in Voters(m) ensures v.address in Voters(f) {
      var i :| 0 <= i < |vals| && vals[i] == v;
      assert v.address in Addresses(vals);
      var k :| k in m && m[k].id == v.address;
      assert f[k].id == v.address;
    }
    StakeOfWithin(vals, Voters(m), Voters(f));
  }

  /** A majority for one block, consolidated and filtered, is a valid certificate. */
  lemma CertificateIsValid(all: VoteMap, unique: VoteMap, vals: seq<Validator>, h: Hash)
    requires IsUniqueVoter(all, unique) && Majority(vals, Voters(all))
    requires forall k :: k in all ==> all[k].block == h && ValidVote(all[k])
    ensures ValidCertificate(CommitCertificate(ByValidators(unique, vals), h), vals)
  {
    var votes := ByValidators(unique, vals);
    FilterKeepsMajority(unique, vals);
    VoterCount(votes);
    AddressCount(vals);
    assert Voters(votes) <= Addresses(vals);
    SubsetIsSmaller(Voters(votes), Addresses(vals));
    if votes == map[] {
      assert Voters(votes) == {};
      StakeOfNobody(vals);
    }
  }

  lemma SubsetIsSmaller<T>(a: set<T>, b: set<T>)
    requires a <= b
    ensures |a| <= |b|
  {
    assert b == a + (b - a);
  }

  // ---- Walking up from the proposal ----

  lemma {:induction false} WalkDistance(bl: BlockTable, root: Hash, store: Store, h: Hash, k: nat, a: Hash)
    requires StoreOK(bl, root, store) && StatusClosed(bl, root, store)
    requires h in store && store[h].status.IsValid() && a in store && ParentAt(store, h, k) == Some(a)
    ensures bl(h).height == bl(a).height + k
    decreases k
  {
    if k > 0 {
      assert ParentAt(store, h, k) == ParentAt(store, bl(h).parent, k - 1);
      assert HangsBelowValid(bl, root, store, h);
      if h == root { assert false; }
      WalkDistance(bl, root, store, bl(h).parent, k - 1, a);
    }
  }

  lemma {:induction false} WalkExists(bl: BlockTable, root: Hash, store: Store, h: Hash, a: Hash)
    requires StoreOK(bl, root, store) && StatusClosed(bl, root, store)
    requires h in store && store[h].status.IsValid() && a in store && store[a].status.IsValid() && Anc(bl, a, h)
    ensures bl(a).height <= bl(h).height
    ensures ParentAt(store, h, bl(h).height - bl(a).height) == Some(a)
    decreases bl(h).height
  {
    if a != h {
      assert HangsBelowValid(bl, root, store, h);
      ValidBelowRoot(bl, root, store, a);
      if h == root {
        AncHeight(bl, root, a);
        AncHeight(bl, a, root);
        assert false;
      }
      WalkExists(bl, root, store, bl(h).parent, a);
    }
  }

  lemma {:induction false} ReachedIsDescendant(
    bl: BlockTable, root: Hash, store: Store, flagged: bool, from: Hash, h: Hash)
    requires StoreOK(bl, root, store) && StatusClosed(bl, root, store) && Reaches(store, flagged, from, h)
    ensures Anc(bl, from, h) && Eligible(store, flagged, h)
    decreases store[h].block.height
  {
    if h != from {
      assert HangsBelowValid(bl, root, store, h);
      ReachedIsDescendant(bl, root, store, flagged, from, bl(h).parent);
    }
  }

  // ---- The proposal ----

  /** What createProposal puts into a block that extends `tip`. */
  ghost predicate IsProposal(c: Core, env: Env, tip: Hash, epoch: nat, b: Block)
    requires tip in c.chain.store && c.hcc in c.chain.store
  {
    && b.parent == tip && b.height == BlockOf(c, tip).height + 1 && b.epoch == epoch
    && b.proposer == env.self && b.timestamp >= BlockOf(c, tip).timestamp + 1
    && b.hcc.blockHash == c.hcc
    && (exists unique ::
          IsUniqueVoter(VotesFor(c.chain, c.hcc), unique) && b.hcc.votes == ByValidators(unique, env.vals))
  }

  /** When a node proposes: its turn in an epoch later than that of the tip. */
  predicate ShouldPropose(env: Env, tip: Block, epoch: nat) {
    epoch > tip.epoch && env.proposer(tip.hash, epoch) == env.self
  }

  /** The one guard of validateBlock that a node's own proposal can fail. */
  ghost predicate Extendable(bl: BlockTable, c: Core, tip: Hash) {
    bl(tip).height + 1 - bl(c.hcc).height < MAX_DISTANCE
  }

  /** The node can validate the block `h`, and comes to this verdict. */
  ghost predicate Judges(c: Core, env: Env, h: Hash, verdict: Verdict) {
    && Loaded(c) && h in c.chain.store && BlockOf(c, h).parent in c.chain.store
    && Validate(c, env, h) == verdict
  }

  lemma TipFacts(bl: BlockTable, root: Hash, c: Core, tip: Hash)
    requires NodeOK(bl, root, c) && IsTip(c, false, tip)
    ensures tip in c.chain.store && c.chain.store[tip].status.IsValid() && Anc(bl, c.hcc, tip)
    ensures c.chain.store[tip].hasValidatorUpdate ==> tip == c.hcc
    ensures tip != root ==> bl(tip).parent in c.chain.store
    ensures tip != root && tip != c.hcc ==> !c.chain.store[bl(tip).parent].hasValidatorUpdate
  {
    var s := c.chain.store;
    if tip != c.hcc {
      ReachedIsDescendant(bl, root, s, false, c.hcc, tip);
      var p := s[tip].block.parent;
      assert Reaches(s, false, c.hcc, p);
      ReachedIsDescendant(bl, root, s, false, c.hcc, p);
      assert Eligible(s, false, p);
    }
    assert HangsBelowValid(bl, root, s, tip);
  }

  lemma ProposalCertificate(bl: BlockTable, root: Hash, c: Core, env: Env, tip: Hash, epoch: nat, b: Block)
    requires NodeOK(bl, root, c) && tip in c.chain.store && IsProposal(c, env, tip, epoch, b)
    requires HasQuorum(c, env.vals, c.hcc)
    ensures ValidCertificate(b.hcc, env.vals)
  {
    var all := VotesFor(c.chain, c.hcc);
    var unique :| IsUniqueVoter(all, unique) && b.hcc.votes == ByValidators(unique, env.vals);
    assert IndexedVotesOK(c.chain.votes, c.hcc);
    CertificateIsValid(all, unique, env.vals, c.hcc);
  }

  lemma ProposalDistance(bl: BlockTable, root: Hash, c: Core, tip: Hash, h: Hash)
    requires StoreOK(bl, root, c.chain.store) && StatusClosed(bl, root, c.chain.store)
    requires h in c.chain.store && bl(h).parent == tip && bl(h).height == bl(tip).height + 1 && h != c.hcc
    requires tip in c.chain.store && c.chain.store[tip].status.IsValid()
    requires c.hcc in c.chain.store && c.chain.store[c.hcc].status.IsValid() && Anc(bl, c.hcc, tip)
    ensures WithinDistance(c.chain.store, c.hcc, h, MAX_DISTANCE) <==> bl(h).height - bl(c.hcc).height < MAX_DISTANCE
  {
    var s := c.chain.store;
    WalkExists(bl, root, s, tip, c.hcc);
    var d := bl(h).height - bl(c.hcc).height;
    assert ParentAt(s, h, d) == ParentAt(s, tip, d - 1);
    if WithinDistance(s, c.hcc, h, MAX_DISTANCE) {
      var k: nat :| k < MAX_DISTANCE && ParentAt(s, h, k) == Some(c.hcc);
      assert k > 0;
      assert ParentAt(s, h, k) == ParentAt(s, tip, k - 1);
      WalkDistance(bl, root, s, tip, k - 1, c.hcc);
    }
  }

  /** The guards that a block passes when it was assembled as the code does. */
  ghost predicate WellAssembled(c: Core, env: Env, h: Hash) {
    && Loaded(c) && h in c.chain.store && BlockOf(c, h).parent in c.chain.store
    && var b := BlockOf(c, h);
       var p, cert := c.chain.store[b.parent], b.hcc.blockHash;
       && b.height > BlockOf(c, c.lfb).height && p.block.height + 1 == b.height
       && b.timestamp >= p.block.timestamp + 1 && p.block.epoch < b.epoch && p.status.IsValid()
       && cert in c.chain.store && (StatusOf(c, cert).IsFinalized() || ValidCertificate(b.hcc, env.vals))
       && (p.hasValidatorUpdate ==> cert == b.parent)
       && (p.block.parent in c.chain.store && c.chain.store[p.block.parent].hasValidatorUpdate ==> cert == b.parent)
       && env.proposer(b.parent, b.epoch) == b.proposer
  }

  /** What is left to decide about such a block. */
  lemma LastGuards(c: Core, env: Env, h: Hash)
    requires WellAssembled(c, env, h)
    ensures Validate(c, env, h) == Ok <==>
              && WithinDistance(c.chain.store, BlockOf(c, h).hcc.blockHash, h, MAX_DISTANCE)
              && var q := c.chain.store[BlockOf(c, h).parent].block.parent; (q == EMPTY_HASH || q in c.chain.store)
    ensures Validate(c, env, h) != ParentPending
  {}

  /** Known blocks are as before but for their children. */
  ghost predicate Extends(s: Store, s': Store) {
    forall x :: x in s ==>
      x in s' && s'[x].block == s[x].block && s'[x].status == s[x].status
      && s'[x].hasValidatorUpdate == s[x].hasValidatorUpdate
  }

  lemma AddingExtends(c: Core, b: Block)
    requires HashesOK(c.chain.store) && HeightsOK(c.chain) && b.hash !in c.chain.store && b.hash != EMPTY_HASH
    ensures var s := AddBlock(c.chain, b).store;
            && Extends(c.chain.store, s) && s.Keys == c.chain.store.Keys + {b.hash}
            && s[b.hash].block == b && s[b.hash].status == Pending && !s[b.hash].hasValidatorUpdate
            && AddBlock(c.chain, b).votes == c.chain.votes
  {
    AddBlockChildren(c.chain, b);
  }

  lemma ProposalIsWellAssembled(bl: BlockTable, root: Hash, c: Core, env: Env, tip: Hash, epoch: nat, b: Block)
    requires NodeOK(bl, root, c) && Backed(c, env.vals) && IsTip(c, false, tip)
    requires IsProposal(c, env, tip, epoch, b) && ShouldPropose(env, bl(tip), epoch)
    requires Genuine(bl, b) && b.hash !in c.chain.store
    ensures WellAssembled(c.(chain := AddBlock(c.chain, b)), env, b.hash)
  {
    AddingExtends(c, b);
    TipFacts(bl, root, c, tip);
    ProposalIsHigher(bl, root, c, tip);
    if !StatusOf(c, c.hcc).IsFinalized() { ProposalCertificate(bl, root, c, env, tip, epoch, b); }
    TipFlags(bl, root, c, tip);
    StaysWellAssembled(c, AddBlock(c.chain, b), env, tip, epoch, b);
  }

  /** A tip to extend, and its parent, carry a validator update only when the tip is the highest certified block. */
  lemma TipFlags(bl: BlockTable, root: Hash, c: Core, tip: Hash)
    requires NodeOK(bl, root, c) && IsTip(c, false, tip)
    ensures tip in c.chain.store && TipUnflagged(c, tip)
  {
    TipFacts(bl, root, c, tip);
  }

  ghost predicate TipUnflagged(c: Core, tip: Hash)
    requires tip in c.chain.store
  {
    var q := c.chain.store[tip].block.parent;
    tip != c.hcc ==>
      && !c.chain.store[tip].hasValidatorUpdate
      && (q in c.chain.store ==> !c.chain.store[q].hasValidatorUpdate)
  }

  lemma StaysWellAssembled(c: Core, ch: ChainState, env: Env, tip: Hash, epoch: nat, b: Block)
    requires Loaded(c) && tip in c.chain.store && IsProposal(c, env, tip, epoch, b) && TipUnflagged(c, tip)
    requires BlockOf(c, tip).hash == tip && ShouldPropose(env, BlockOf(c, tip), epoch)
    requires StatusOf(c, tip).IsValid() && BlockOf(c, c.lfb).height <= BlockOf(c, tip).height
    requires StatusOf(c, c.hcc).IsFinalized() || ValidCertificate(b.hcc, env.vals)
    requires Extends(c.chain.store, ch.store) && ch.store.Keys == c.chain.store.Keys + {b.hash}
    requires ch.store[b.hash].block == b && BlockOf(c, tip).parent != b.hash
    ensures WellAssembled(c.(chain := ch), env, b.hash)
  {}

  lemma ProposalIsHigher(bl: BlockTable, root: Hash, c: Core, tip: Hash)
    requires FinalOK(bl, root, c) && Anc(bl, c.hcc, tip)
    ensures bl(c.lfb).height <= bl(tip).height
  {
    AncHeight(bl, c.hcc, tip);
  }

  /** The node's own validation accepts its proposal exactly when the tip is not too far above the
      highest certified block. */
  lemma OwnProposalValidates(bl: BlockTable, root: Hash, c: Core, env: Env, tip: Hash, epoch: nat, b: Block)
    requires NodeOK(bl, root, c) && Backed(c, env.vals) && IsTip(c, false, tip)
    requires IsProposal(c, env, tip, epoch, b) && ShouldPropose(env, bl(tip), epoch)
    requires Genuine(bl, b) && b.hash !in c.chain.store
    ensures Judges(c.(chain := AddBlock(c.chain, b)), env, b.hash, if Extendable(bl, c, tip) then Ok else Rejected)
  {
    var c' := c.(chain := AddBlock(c.chain, b));
    AddBlockKeeps(bl, root, c, b);
    AddBlockChildren(c.chain, b);
    TipFacts(bl, root, c, tip);
    ProposalIsWellAssembled(bl, root, c, env, tip, epoch, b);
    LastGuards(c', env, b.hash);
    ProposalDistance(bl, root, c', tip, b.hash);
  }

  // ---- Backed is kept ----

  lemma BackedAddVotes(bl: BlockTable, root: Hash, c: Core, vals: seq<Validator>, s: seq<Vote>)
    requires NodeOK(bl, root, c) && Backed(c, vals)
    ensures Backed(AddVotes(c, s), vals)
  {
    AddVotesIndexes(c, s, c.hcc);
    if HasQuorum(c, vals, c.hcc) {
      MajorityMonotone(vals, Voters(VotesFor(c.chain, c.hcc)), Voters(VotesFor(AddVotes(c, s).chain, c.hcc)));
    }
  }

  lemma BackedCheckCC(bl: BlockTable, root: Hash, c: Core, vals: seq<Validator>, h: Hash)
    requires NodeOK(bl, root, c) && Backed(c, vals)
    ensures Backed(CheckCC(c, vals, h), vals)
  {
    CheckCCAdvances(bl, root, c, vals, h);
    if CheckCC(c, vals, h) != c { NewHighest(bl, root, c, vals, h); }
  }

  /** The new core keeps the old one's votes, highest certified block and its status. */
  lemma BackedSame(c: Core, c': Core, vals: seq<Validator>)
    requires Backed(c, vals) && c'.hcc == c.hcc && c'.chain.votes == c.chain.votes && c.hcc in c'.chain.store
    requires StatusOf(c', c.hcc) == StatusOf(c, c.hcc)
    ensures Backed(c', vals)
  {
    assert VotesFor(c'.chain, c.hcc) == VotesFor(c.chain, c.hcc);
  }

  lemma BackedBallots(c: Core, env: Env, h: Hash, update: bool, ballot: Option<Ballot>)
    requires Backed(c, env.vals) && h in c.chain.store && StatusOf(c, h) == Pending
    ensures Backed(Ballots(Accept(c, h, update), env, ballot).core, env.vals)
  {
    BackedSame(c, Ballots(Accept(c, h, update), env, ballot).core, env.vals);
  }

  lemma BackedAccepted(bl: BlockTable, root: Hash, c: Core, env: Env, h: Hash, update: bool, ballot: Option<Ballot>)
    requires NodeOK(bl, root, c) && Backed(c, env.vals) && Acceptable(bl, c, h)
    requires ballot.Some? ==> IsTip(Accept(c, h, update), true, ballot.value.tip)
    ensures Backed(CheckCC(Ballots(Accept(c, h, update), env, ballot).core, env.vals, h), env.vals)
  {
    AcceptedBlockKeeps(bl, root, c, env, h, update, ballot);
    BackedBallots(c, env, h, update, ballot);
    BackedCheckCC(bl, root, Ballots(Accept(c, h, update), env, ballot).core, env.vals, h);
  }

  lemma BackedRejected(c: Core, vals: seq<Validator>, h: Hash)
    requires Backed(c, vals) && h in c.chain.store && StatusOf(c, h) == Pending
    ensures Backed(Mark(c, h, Invalid), vals)
  {
    BackedSame(c, Mark(c, h, Invalid), vals);
  }

  lemma BackedDecide(bl: BlockTable, root: Hash, c: Core, env: Env, h: Hash,
                     answer: LedgerAnswer, ballot: Option<Ballot>)
    requires NodeOK(bl, root, c) && Backed(c, env.vals) && Acceptable(bl, c, h)
    requires ballot.Some? && answer.Applies? ==>
               IsTip(Accept(c, h, answer.hasValidatorUpdate), true, ballot.value.tip)
    ensures Backed(Decide(c, env, h, answer, ballot).core, env.vals)
  {
    match answer {
      case Applies(update) => BackedAccepted(bl, root, c, env, h, update, ballot);
      case Undecided =>
      case _ => BackedRejected(c, env.vals, h);
    }
  }

  lemma BackedReplay(bl: BlockTable, root: Hash, c: Core, vals: seq<Validator>, b: Block, listed: seq<Vote>)
    requires NodeOK(bl, root, c) && Backed(c, vals)
    ensures Backed(ReplayCertificate(c, vals, b, listed), vals)
  {
    BackedAddVotes(bl, root, c, vals, listed);
    AddVotesKeeps(bl, root, c, listed);
    BackedCheckCC(bl, root, AddVotes(c, listed), vals, b.hcc.blockHash);
  }

  lemma BackedHandleBlock(bl: BlockTable, root: Hash, c: Core, env: Env, h: Hash, listed: seq<Vote>,
                          answer: LedgerAnswer, ballot: Option<Ballot>)
    requires NodeOK(bl, root, c) && Backed(c, env.vals) && h in c.chain.store
    requires Enumerates(bl(h).hcc.votes, listed) && BallotFits(c, env, h, listed, answer, ballot)
    ensures var o := HandleBlock(c, env, h, listed, answer, ballot);
            o.Fatal? || Backed(o.core, env.vals)
  {
    var o := HandleBlock(c, env, h, listed, answer, ballot);
    if o.Handled? {
      HandleBlockCases(c, env, h, listed, answer, ballot);
      if StatusOf(c, h) == Pending {
        if Validate(c, env, h) == Rejected {
          BackedRejected(c, env.vals, h);
        } else {
          BackedValidated(bl, root, c, env, h, listed, answer, ballot);
        }
      }
    }
  }

  lemma BackedValidated(bl: BlockTable, root: Hash, c: Core, env: Env, h: Hash, listed: seq<Vote>,
                        answer: LedgerAnswer, ballot: Option<Ballot>)
    requires NodeOK(bl, root, c) && Backed(c, env.vals) && Replays(c, env, h)
    requires Enumerates(bl(h).hcc.votes, listed) && BallotFits(c, env, h, listed, answer, ballot)
    ensures Backed(Decide(ReplayCertificate(c, env.vals, bl(h), listed), env, h, answer, ballot).core, env.vals)
  {
    BackedReplay(bl, root, c, env.vals, bl(h), listed);
    ReplayKeeps(bl, root, c, env.vals, bl(h), listed);
    ReplayEstablishesLock(bl, root, c, env, h, listed);
    BackedDecide(bl, root, ReplayCertificate(c, env.vals, bl(h), listed), env, h, answer, ballot);
  }
}
