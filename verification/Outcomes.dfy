/** What the handlers of a node bring about, said without them (consensus/engine.go). */
module Outcomes {
  import opened Options
  import opened Validators
  import opened Votes
  import opened Blocks
  import opened ChainIndexes
  import opened Consensus
  import opened NodeInvariant
  import opened Proposals

  // ---- The tip ----

  /** No block from `from` up to `h` carries a validator update. */
  ghost predicate NoUpdates(bl: BlockTable, store: Store, from: Hash, h: Hash) {
    forall y :: y in store && store[y].status.IsValid() && Anc(bl, from, y) && Anc(bl, y, h) ==>
      !store[y].hasValidatorUpdate
  }

  /** `h` is a validated descendant of `from`; if it is to be extended, with no validator update in between. */
  ghost predicate LiesAbove(bl: BlockTable, store: Store, flagged: bool, from: Hash, h: Hash) {
    && h in store && store[h].status.IsValid() && Anc(bl, from, h)
    && (flagged || NoUpdates(bl, store, from, h))
  }

  lemma {:induction false} ReachesExactly(bl: BlockTable, root: Hash, store: Store, flagged: bool, from: Hash, h: Hash)
    requires StoreOK(bl, root, store) && StatusClosed(bl, root, store)
    requires from in store && store[from].status.IsValid()
    ensures Reaches(store, flagged, from, h) <==> LiesAbove(bl, store, flagged, from, h)
    decreases bl(h).height
  {
    if h in store && store[h].status.IsValid() {
      assert HangsBelowValid(bl, root, store, h);
      if h == from {
        OnlyItself(bl, store, flagged, h);
      } else if h == root {
        ValidBelowRoot(bl, root, store, from);
        AncHeight(bl, root, from);
        if Anc(bl, from, root) { AncHeight(bl, from, root); }
        assert bl(root).parent !in store;
      } else {
        ReachesExactly(bl, root, store, flagged, from, bl(h).parent);
        NextUp(bl, store, flagged, from, h);
      }
    }
  }

  lemma OnlyItself(bl: BlockTable, store: Store, flagged: bool, h: Hash)
    requires h in store && store[h].status.IsValid()
    ensures LiesAbove(bl, store, flagged, h, h) <==> Eligible(store, flagged, h)
  {
    forall y | Anc(bl, h, y) && Anc(bl, y, h) ensures y == h {
      AncHeight(bl, h, y);
      AncHeight(bl, y, h);
    }
  }

  lemma NextUp(bl: BlockTable, store: Store, flagged: bool, from: Hash, h: Hash)
    requires h in store && store[h].status.IsValid() && h != from && bl(h).height == bl(bl(h).parent).height + 1
    requires bl(h).parent in store && store[bl(h).parent].status.IsValid()
    ensures LiesAbove(bl, store, flagged, from, h) <==>
              LiesAbove(bl, store, flagged, from, bl(h).parent) && Eligible(store, flagged, h)
  {
    assert forall y :: Anc(bl, y, h) <==> y == h || Anc(bl, y, bl(h).parent);
  }

  /** The tip is a highest block among those that extend the highest certified block, or that block itself. */
  lemma TipExactly(bl: BlockTable, root: Hash, c: Core, flagged: bool, tip: Hash)
    requires NodeOK(bl, root, c)
    ensures IsTip(c, flagged, tip) <==>
              && (tip == c.hcc || LiesAbove(bl, c.chain.store, flagged, c.hcc, tip))
              && (forall x :: LiesAbove(bl, c.chain.store, flagged, c.hcc, x) ==> bl(x).height <= bl(tip).height)
  {
    forall x: Hash
      ensures Reaches(c.chain.store, flagged, c.hcc, x) <==> LiesAbove(bl, c.chain.store, flagged, c.hcc, x)
    {
      ReachesExactly(bl, root, c.chain.store, flagged, c.hcc, x);
    }
  }

  // ---- A certificate check ----

  /** The votes that the node holds for a validated block above its highest certified block make a majority. */
  ghost predicate Certifies(bl: BlockTable, c: Core, vals: seq<Validator>, h: Hash) {
    && h in c.chain.store && c.chain.store[h].status == Valid && bl(h).height > bl(c.hcc).height
    && h in c.chain.votes
    && 3 * StakeOf(vals, set k | k in c.chain.votes[h] :: c.chain.votes[h][k].id) > 2 * StakeOf(vals, Addresses(vals))
  }

  /** The status of `x` once `h` is certified. */
  ghost function StatusAfter(bl: BlockTable, s: Store, h: Hash, x: Hash): Status
    requires x in s
  {
    var p := bl(h).parent;
    if x == h then Committed
    else if p != bl(h).hcc.blockHash || !s[x].status.IsValid() || s[x].status.IsFinalized() || !Anc(bl, x, p)
    then s[x].status
    else if x == p then DirectlyFinalized else IndirectlyFinalized
  }

  /** `s1` is a store with the same blocks in which finalized blocks have finalized parents. */
  lemma {:induction false} FinalizedDown(bl: BlockTable, root: Hash, s: Store, s1: Store, p: Hash, x: Hash)
    requires StoreOK(bl, root, s) && StatusClosed(bl, root, s) && s1.Keys == s.Keys && FinalClosed(bl, root, s1)
    requires p in s1 && s1[p].status.IsFinalized() && x in s && s[x].status.IsValid() && Anc(bl, x, p)
    ensures s1[x].status.IsFinalized()
    decreases bl(p).height
  {
    if x != p {
      if p == root {
        ValidBelowRoot(bl, root, s, x);
        AncHeight(bl, root, x);
        AncHeight(bl, x, root);
        assert false;
      }
      assert HangsBelowFinal(bl, root, s1, p);
      FinalizedDown(bl, root, s, s1, bl(p).parent, x);
    }
  }

  /** A check changes nothing unless it certifies the block. Then the block is committed and is the new highest
      certified block; if it names its parent, the parent is the new last finalized block, finalized directly, and
      its ancestors indirectly. No other status changes. */
  lemma CheckExactly(bl: BlockTable, root: Hash, c: Core, vals: seq<Validator>, h: Hash)
    requires NodeOK(bl, root, c)
    ensures !Certifies(bl, c, vals, h) ==> CheckCC(c, vals, h) == c
    ensures Certifies(bl, c, vals, h) ==>
              var c' := CheckCC(c, vals, h);
              && c'.hcc == h
              && c'.lfb == (if bl(h).parent == bl(h).hcc.blockHash then bl(h).parent else c.lfb)
              && forall x :: x in c.chain.store ==> StatusOf(c', x) == StatusAfter(bl, c.chain.store, h, x)
  {
    QuorumWritten(c, vals, h);
    if Certifies(bl, c, vals, h) {
      forall x | x in c.chain.store
        ensures StatusOf(CheckCC(c, vals, h), x) == StatusAfter(bl, c.chain.store, h, x)
      {
        CertifiedStatus(bl, root, c, vals, h, x);
      }
      assert HangsBelowValid(bl, root, c.chain.store, h);
    }
  }

  lemma QuorumWritten(c: Core, vals: seq<Validator>, h: Hash)
    ensures HasQuorum(c, vals, h) <==>
              && h in c.chain.votes
              && 3 * StakeOf(vals, set k | k in c.chain.votes[h] :: c.chain.votes[h][k].id) >
                 2 * StakeOf(vals, Addresses(vals))
  {
    if h in c.chain.votes {
      assert Voters(c.chain.votes[h]) == set k | k in c.chain.votes[h] :: c.chain.votes[h][k].id;
    } else {
      var none: VoteMap := map[];
      assert Voters(none) == {};
      StakeOfNobody(vals);
    }
  }

  lemma CertifiedStatus(bl: BlockTable, root: Hash, c: Core, vals: seq<Validator>, h: Hash, x: Hash)
    requires SpineOK(bl, root, c) && Certifies(bl, c, vals, h) && HasQuorum(c, vals, h) && x in c.chain.store
    ensures StatusOf(CheckCC(c, vals, h), x) == StatusAfter(bl, c.chain.store, h, x)
  {
    var s, p := c.chain.store, bl(h).parent;
    assert HangsBelowValid(bl, root, s, h);
    if p == bl(h).hcc.blockHash {
      if p == c.lfb {
        if s[x].status.IsValid() && Anc(bl, x, p) { FinalizedDown(bl, root, s, s, p, x); }
      } else {
        BranchStatus(bl, root, c, h, x);
      }
    }
  }

  lemma BranchStatus(bl: BlockTable, root: Hash, c: Core, h: Hash, x: Hash)
    requires SpineOK(bl, root, c) && h in c.chain.store && c.chain.store[h].status == Valid && x in c.chain.store
    requires bl(h).parent in c.chain.store && c.chain.store[bl(h).parent].status.IsValid()
    requires bl(h).height == bl(bl(h).parent).height + 1 && bl(h).parent == bl(h).hcc.blockHash
    ensures var s := FinalizePrevious(c.chain, bl(h).parent, DirectlyFinalized).store;
            x == h || s[x].status == StatusAfter(bl, c.chain.store, h, x)
  {
    var s, p := c.chain.store, bl(h).parent;
    assert FinalClosedBut(bl, root, s, p);
    FinalizeFacts(bl, root, c.chain, p, DirectlyFinalized);
    var s1 := FinalizePrevious(c.chain, p, DirectlyFinalized).store;
    if s[x].status.IsValid() && Anc(bl, x, p) { FinalizedDown(bl, root, s, s1, p, x); }
  }

  // ---- A block message ----

  /** A block is decided once: a decided block stays as it is, a refused one is invalid, one that the ledger cannot
      decide yet stays pending, and one that applies is valid, or committed if its votes are there already. */
  ghost predicate DecidedAs(before: Status, refused: bool, answer: LedgerAnswer, after: Status) {
    if before != Pending then after == before
    else if refused || answer.ResetFailed? || answer.Fails? then after == Invalid
    else if answer.Undecided? then after == Pending
    else after == Valid || after == Committed
  }

  ghost predicate AppliesNow(before: Status, refused: bool, answer: LedgerAnswer) {
    before == Pending && !refused && answer.Applies?
  }

  lemma AcceptedExactly(bl: BlockTable, root: Hash, c: Core, env: Env, h: Hash, update: bool, ballot: Option<Ballot>)
    requires NodeOK(bl, root, c) && Acceptable(bl, c, h)
    requires ballot.Some? ==> IsTip(Accept(c, h, update), true, ballot.value.tip)
    ensures var c' := CheckCC(Ballots(Accept(c, h, update), env, ballot).core, env.vals, h);
            && (StatusOf(c', h) == Valid || StatusOf(c', h) == Committed)
            && (c'.chain.store[h].hasValidatorUpdate <==> c.chain.store[h].hasValidatorUpdate || update)
            && c'.chain.votes == c.chain.votes
  {
    AcceptedBlockKeeps(bl, root, c, env, h, update, ballot);
    var voted := Ballots(Accept(c, h, update), env, ballot).core;
    CheckExactly(bl, root, voted, env.vals, h);
    CheckCCAdvances(bl, root, voted, env.vals, h);
  }

  lemma DecisionExactly(bl: BlockTable, root: Hash, c: Core, env: Env, h: Hash, answer: LedgerAnswer,
                        ballot: Option<Ballot>)
    requires NodeOK(bl, root, c) && Acceptable(bl, c, h)
    requires ballot.Some? && answer.Applies? ==>
               IsTip(Accept(c, h, answer.hasValidatorUpdate), true, ballot.value.tip)
    ensures var sent := Decide(c, env, h, answer, ballot);
            && h in sent.core.chain.store && DecidedAs(Pending, false, answer, StatusOf(sent.core, h))
            && (sent.core.chain.store[h].hasValidatorUpdate <==>
                  c.chain.store[h].hasValidatorUpdate || (answer.Applies? && answer.hasValidatorUpdate))
            && (sent.vote.Some? ==> answer.Applies? && ballot.Some?)
            && sent.core.chain.votes == c.chain.votes
  {
    if answer.Applies? { AcceptedExactly(bl, root, c, env, h, answer.hasValidatorUpdate, ballot); }
  }

  ghost predicate HandledAs(bl: BlockTable, c: Core, env: Env, h: Hash, answer: LedgerAnswer, after: Core,
                            vote: Option<Vote>)
    requires Loaded(c)
  {
    && h in c.chain.store && h in after.chain.store && BlockOf(c, h) == bl(h)
    && (StatusOf(c, h) == Pending ==> bl(h).parent in c.chain.store)
    && var refused := StatusOf(c, h) == Pending && Validate(c, env, h) == Rejected;
       && DecidedAs(StatusOf(c, h), refused, answer, StatusOf(after, h))
       && (after.chain.store[h].hasValidatorUpdate <==>
             c.chain.store[h].hasValidatorUpdate
             || (AppliesNow(StatusOf(c, h), refused, answer) && answer.hasValidatorUpdate))
       && (vote.Some? ==> AppliesNow(StatusOf(c, h), refused, answer))
  }

  lemma ValidatedExactly(bl: BlockTable, root: Hash, c: Core, env: Env, h: Hash, listed: seq<Vote>,
                         answer: LedgerAnswer, ballot: Option<Ballot>)
    requires NodeOK(bl, root, c) && Replays(c, env, h) && Enumerates(bl(h).hcc.votes, listed)
    requires BallotFits(c, env, h, listed, answer, ballot)
    ensures var sent := Decide(ReplayCertificate(c, env.vals, bl(h), listed), env, h, answer, ballot);
            HandledAs(bl, c, env, h, answer, sent.core, sent.vote)
  {
    ReplayKeeps(bl, root, c, env.vals, bl(h), listed);
    ReplayEstablishesLock(bl, root, c, env, h, listed);
    DecisionExactly(bl, root, ReplayCertificate(c, env.vals, bl(h), listed), env, h, answer, ballot);
  }

  /** The block message handler stops the node exactly for a block that is unknown or whose parent is not known or not
      decided ... */
  lemma HandlingStops(bl: BlockTable, root: Hash, c: Core, env: Env, h: Hash, listed: seq<Vote>,
                      answer: LedgerAnswer, ballot: Option<Ballot>)
    requires SpineOK(bl, root, c)
    ensures HandleBlock(c, env, h, listed, answer, ballot).Fatal? <==>
              || h !in c.chain.store
              || (StatusOf(c, h) == Pending
                  && (bl(h).parent !in c.chain.store || Validate(c, env, h) == ParentPending))
  {}

  /** ... Otherwise the block is decided, its flag is what the ledger says, and only a block that applies is voted
      for. */
  lemma HandlingExactly(bl: BlockTable, root: Hash, c: Core, env: Env, h: Hash, listed: seq<Vote>,
                        answer: LedgerAnswer, ballot: Option<Ballot>)
    requires NodeOK(bl, root, c) && h in c.chain.store && Enumerates(bl(h).hcc.votes, listed)
    requires BallotFits(c, env, h, listed, answer, ballot)
    ensures var o := HandleBlock(c, env, h, listed, answer, ballot);
            o.Fatal? || HandledAs(bl, c, env, h, answer, o.core, o.vote)
  {
    if HandleBlock(c, env, h, listed, answer, ballot).Handled? {
      HandleBlockCases(c, env, h, listed, answer, ballot);
      if StatusOf(c, h) != Pending {
        DecidedStays(bl, c, env, h, answer);
      } else if Validate(c, env, h) == Ok {
        ValidatedExactly(bl, root, c, env, h, listed, answer, ballot);
      } else {
        RefusedExactly(bl, c, env, h, answer);
      }
    }
  }

  lemma DecidedStays(bl: BlockTable, c: Core, env: Env, h: Hash, answer: LedgerAnswer)
    requires Loaded(c) && h in c.chain.store && BlockOf(c, h) == bl(h) && StatusOf(c, h) != Pending
    ensures HandledAs(bl, c, env, h, answer, c, None)
  {}

  lemma RefusedExactly(bl: BlockTable, c: Core, env: Env, h: Hash, answer: LedgerAnswer)
    requires Loaded(c) && h in c.chain.store && BlockOf(c, h) == bl(h) && StatusOf(c, h) == Pending
    requires bl(h).parent in c.chain.store && Validate(c, env, h) == Rejected
    ensures HandledAs(bl, c, env, h, answer, Mark(c, h, Invalid), None)
  {}

  // ---- Votes are recorded ----

  /** A vote message adds a valid vote to the votes for its block, in place of one of the same voter and epoch, and
      leaves all other votes as they are. */
  lemma ReceiveRecords(bl: BlockTable, root: Hash, c: Core, vals: seq<Validator>, v: Vote, x: Hash, k: VoteKey)
    requires NodeOK(bl, root, c)
    ensures var before, after := VotesFor(c.chain, x), VotesFor(ReceiveVote(c, vals, v).chain, x);
            var isNew := ValidVote(v) && x == v.block && k == VoteKey(v.id, v.block, v.epoch);
            && (k in after <==> k in before || isNew)
            && (k in after ==> after[k] == if isNew then v else before[k])
  {
    AddVoteKeeps(bl, root, c, v);
    CheckCCAdvances(bl, root, AddVote(c, v), vals, v.block);
  }

  /** When a validated block is processed, the valid votes of its certificate count from then on, whatever the ledger
      says. */
  lemma CertificateCounts(bl: BlockTable, root: Hash, c: Core, env: Env, h: Hash, listed: seq<Vote>,
                          answer: LedgerAnswer, ballot: Option<Ballot>, v: Vote)
    requires NodeOK(bl, root, c) && Replays(c, env, h) && Enumerates(bl(h).hcc.votes, listed)
    requires BallotFits(c, env, h, listed, answer, ballot) && v in bl(h).hcc.votes.Values && ValidVote(v)
    ensures var o := HandleBlock(c, env, h, listed, answer, ballot);
            o.Handled? && v.id in Voters(VotesFor(o.core.chain, v.block))
  {
    EnumeratesMembers(bl(h).hcc.votes, listed);
    AddVotesIndexes(c, listed, v.block);
    AddVotesKeeps(bl, root, c, listed);
    CheckCCAdvances(bl, root, AddVotes(c, listed), env.vals, bl(h).hcc.blockHash);
    var c2 := ReplayCertificate(c, env.vals, bl(h), listed);
    assert c2.chain.votes == AddVotes(c, listed).chain.votes;
    ReplayKeeps(bl, root, c, env.vals, bl(h), listed);
    ReplayEstablishesLock(bl, root, c, env, h, listed);
    DecisionExactly(bl, root, c2, env, h, answer, ballot);
  }
}
