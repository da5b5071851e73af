/** The consensus engine of one node (consensus/engine.go, consensus/state.go). Every handler changes
    the node in place and is proved against its meaning in `Consensus`. */
module Engine {
  import opened Options
  import opened Validators
  import opened Votes
  import opened Blocks
  import opened ChainIndexes
  import opened Consensus
  import opened NodeInvariant
  import opened ChainStore
  import opened Tips
  import opened Epochs
  import opened Proposals

  /** The consensus state that is written to disk whenever one of its fields changes. */
  datatype StateStub = StateStub(root: Hash, hcc: Hash, lfb: Hash, lastVote: Vote, epoch: nat)

  lemma SearchTreeOfNode(bl: BlockTable, root: Hash, c: Core)
    requires NodeOK(bl, root, c)
    ensures SearchTree(c.chain.store)
  {
    forall h: Hash ensures OneHigher(c.chain.store, h) {
      assert HangsBelowValid(bl, root, c.chain.store, h);
    }
  }

  /** A vote was cast, if at all, for a tip of the chain and at this epoch. */
  ghost predicate BallotAt(c: Core, epoch: nat, ballot: Option<Ballot>) {
    ballot.Some? ==> IsTip(c, true, ballot.value.tip) && ballot.value.epoch == epoch
  }

  /** A block that was applied, and is of the current or the previous epoch, is voted for once the vote timer has
      fired, and is remembered until then. */
  ghost predicate VotesWhenDue(env: Env, blockEpoch: nat, epoch: nat, applied: bool, timerReady: bool, was: bool,
                               processed: bool, sent: Option<Vote>, ballot: Option<Ballot>)
  {
    var due := applied && (blockEpoch == epoch || blockEpoch == (epoch + EPOCHS - 1) % EPOCHS);
    && (ballot.Some? <==> due && timerReady)
    && (sent.Some? <==> ballot.Some? && env.self in Addresses(env.vals))
    && (processed <==> was || due)
  }

  lemma DecideApplies(c: Core, env: Env, h: Hash, update: bool, ballot: Option<Ballot>, voted: Core, sent: Option<Vote>)
    requires Loaded(c) && h in c.chain.store && Loaded(voted)
    requires Ballots(Accept(c, h, update), env, ballot) == Sent(voted, sent)
    ensures Decide(c, env, h, Applies(update), ballot) == Sent(CheckCC(voted, env.vals, h), sent)
  {}

  class ConsensusEngine {
    const env: Env
    const root: Hash
    const chain: Chain
    ghost const bl: BlockTable

    var hcc: Hash
    var lfb: Hash
    var lastVote: Vote
    var epoch: nat
    var epochVotes: VoteMap
    var saved: StateStub
    var voteTimerReady: bool
    var blockProcessed: bool

    ghost function View(): Core
      reads this, chain
    {
      Core(chain.View(), lastVote, hcc, lfb)
    }

    ghost predicate Persisted()
      reads this
    {
      saved == StateStub(root, hcc, lfb, lastVote, epoch)
    }

    ghost predicate Recorded()
      reads this
    {
      epoch < EPOCHS && WellKeyed(epochVotes) && OneEach(epochVotes) && Persisted()
    }

    ghost predicate Valid()
      reads this, chain
    {
      NodeOK(bl, root, View()) && Distinct(env.vals) && Recorded()
    }

    /** A node that starts on a fresh chain. */
    constructor (env: Env, chain: Chain, rootBlock: Block, ghost bl: BlockTable)
      requires Distinct(env.vals) && rootBlock.epoch < EPOCHS
      requires RootOK(bl, rootBlock.hash) && bl(rootBlock.hash) == rootBlock
      requires chain.View() == StartCore(bl, rootBlock.hash).chain
      ensures Valid() && this.chain == chain && this.bl == bl && this.env == env && root == rootBlock.hash
      ensures View() == StartCore(bl, root) && epoch == rootBlock.epoch && epochVotes == map[]
    {
      this.env, this.chain, this.root, this.bl := env, chain, rootBlock.hash, bl;
      hcc, lfb, lastVote, epoch := rootBlock.hash, rootBlock.hash, NO_VOTE, rootBlock.epoch;
      epochVotes := map[];
      saved := StateStub(rootBlock.hash, rootBlock.hash, rootBlock.hash, NO_VOTE, rootBlock.epoch);
      voteTimerReady, blockProcessed := false, false;
      StartKeeps(bl, rootBlock.hash);
    }

    // ---- Saved state ----

    method Commit()
      modifies this`saved
      ensures Persisted()
    {
      saved := StateStub(root, hcc, lfb, lastVote, epoch);
    }

    /** A restart reads the saved state back: the node continues where it was. */
    method Restart()
      requires Valid()
      modifies this`hcc, this`lfb, this`lastVote, this`epoch, this`voteTimerReady, this`blockProcessed
      ensures Valid() && View() == old(View()) && epoch == old(epoch)
    {
      voteTimerReady, blockProcessed := false, false;
      if saved.root != root { return; }
      lastVote, epoch, lfb, hcc := saved.lastVote, saved.epoch, saved.lfb, saved.hcc;
    }

    // ---- The tip ----

    /** A highest block that descends from the highest certified block through validated blocks. */
    method GetTip(includeFlagged: bool) returns (tip: Hash)
      requires Valid()
      ensures IsTip(View(), includeFlagged, tip)
    {
      SearchTreeOfNode(bl, root, View());
      tip := FindTip(chain.store, includeFlagged, hcc);
    }

    // ---- Voting ----

    method Vote(mainchainHeight: nat) returns (sent: Option<Vote>, ghost ballot: Ballot)
      requires Valid()
      modifies this`lastVote, this`saved
      ensures Valid() && ballot.epoch == epoch
      ensures IsTip(old(View()), true, ballot.tip)
      ensures Sent(View(), sent) == CastVote(old(View()), env, ballot)
      ensures sent.Some? <==> env.self in Addresses(env.vals)
      ensures sent.Some? ==>
                && sent.value.id == env.self && sent.value.epoch == epoch
                && sent.value.mainchainHeight == mainchainHeight
                && sent.value.signature == Some(Signature(env.self, SignBytes(sent.value.block, epoch, env.self)))
      ensures sent.Some? ==>
                var last, tip := old(lastVote), bl(ballot.tip);
                if last.height != 0 && (last.height >= tip.height || tip.hcc.blockHash != hcc)
                then sent.value.block == last.block && sent.value.height == last.height && lastVote == last
                else sent.value.block == ballot.tip && sent.value.height == tip.height && lastVote == sent.value
    {
      var tip := GetTip(true);
      ballot := Ballot(tip, epoch, mainchainHeight);
      CastVoteKeeps(bl, root, View(), env, ballot);
      var me := GetValidator(env.vals, env.self);
      if me.None? { return None, ballot; }
      var tipBlock := chain.store[tip].block;
      var shouldRepeat := false;
      if lastVote.height != 0 && lastVote.height >= tipBlock.height {
        shouldRepeat := true;
      } else if lastVote.height != 0 && tipBlock.hcc.blockHash != hcc {
        shouldRepeat := true;
      }
      if shouldRepeat {
        if lastVote.block !in chain.store { return None, ballot; }
        var again := MakeVote(env.self, chain.store[lastVote.block].block, epoch, mainchainHeight);
        return Some(again), ballot;
      }
      var vote := MakeVote(env.self, tipBlock, epoch, mainchainHeight);
      lastVote := vote;
      Commit();
      return Some(vote), ballot;
    }

    // ---- Receiving votes ----

    /** Records a vote in the epoch's vote set, one entry per voter. */
    method AddEpochVote(v: Vote)
      requires WellKeyed(epochVotes)
      modifies this`epochVotes
      ensures WellKeyed(epochVotes) && IsUniqueVoter(Put(old(epochVotes), v), epochVotes)
    {
      var voteSet := new VoteSet.Load(epochVotes);
      voteSet.AddVote(v);
      var unique := voteSet.UniqueVoter();
      epochVotes := unique.votes;
    }

    /** Whether a majority has voted in epoch `since` or later. */
    method EpochMajority(since: nat) returns (r: bool)
      requires Distinct(env.vals) && WellKeyed(epochVotes) && OneEach(epochVotes)
      ensures r <==> Majority(env.vals, VotersSince(epochVotes, since))
      ensures r <==> Majority(env.vals, set k | k in epochVotes && epochVotes[k].epoch >= since :: epochVotes[k].id)
    {
      var current := new VoteSet();
      var todo := epochVotes.Keys;
      while todo != {}
        invariant fresh(current) && current.Valid() && todo <= epochVotes.Keys
        invariant current.votes ==
                    map k | k in epochVotes && k !in todo && epochVotes[k].epoch >= since :: epochVotes[k]
        decreases todo
      {
        var k :| k in todo;
        todo := todo - {k};
        if epochVotes[k].epoch >= since { current.AddVote(epochVotes[k]); }
      }
      assert Voters(current.votes) == VotersSince(epochVotes, since) by {
        forall a | a in VotersSince(epochVotes, since) ensures a in Voters(current.votes) {
          var k :| k in epochVotes && epochVotes[k].epoch >= since && epochVotes[k].id == a;
          assert current.votes[k].id == a;
        }
        forall a | a in Voters(current.votes) ensures a in VotersSince(epochVotes, since) {
          var k :| k in current.votes && current.votes[k].id == a;
          assert epochVotes[k].id == a;
        }
      }
      r := HasMajority(env.vals, current);
    }

    method IndexVote(v: Vote)
      requires NodeOK(bl, root, View()) && ValidVote(v)
      modifies chain`votes
      ensures NodeOK(bl, root, View()) && View() == AddVote(old(View()), v)
    {
      AddVoteKeeps(bl, root, View(), v);
      VotesAreKeyed();
      chain.AddVote(v);
    }

    lemma VotesAreKeyed()
      requires NodeOK(bl, root, View())
      ensures chain.VotesKeyed()
    {
      forall h | h in chain.votes ensures WellKeyed(chain.votes[h]) { assert IndexedVotesOK(chain.votes, h); }
    }

    /** Records the vote and moves on to the next epoch when a majority has voted in this one or later. */
    method MoveEpoch(v: Vote) returns (endEpoch: bool)
      requires Distinct(env.vals) && Recorded() && ValidVote(v)
      modifies this`epochVotes, this`epoch, this`saved
      ensures Recorded()
      ensures EpochStep(env.vals, EpochState(old(epoch), old(epochVotes)), EpochState(epoch, epochVotes), v)
      ensures endEpoch <==> v.epoch >= old(epoch) && Majority(env.vals, VotersSince(epochVotes, v.epoch))
      ensures epoch == if endEpoch then (v.epoch + 1) % EPOCHS else old(epoch)
    {
      endEpoch := false;
      AddEpochVote(v);
      if v.epoch >= epoch {
        endEpoch := EpochMajority(v.epoch);
        if endEpoch {
          epoch := (v.epoch + 1) % EPOCHS;
          Commit();
        }
      }
    }

    method HandleVote(v: Vote) returns (endEpoch: bool)
      requires Valid()
      modifies this`epochVotes, this`epoch, this`saved, chain`votes
      ensures Valid() && View() == AddVote(old(View()), v)
      ensures EpochStep(env.vals, EpochState(old(epoch), old(epochVotes)), EpochState(epoch, epochVotes), v)
      ensures endEpoch <==>
                ValidVote(v) && v.epoch >= old(epoch) && Majority(env.vals, VotersSince(epochVotes, v.epoch))
      ensures epoch == if endEpoch then (v.epoch + 1) % EPOCHS else old(epoch)
    {
      if !ValidVote(v) { return false; }
      IndexVote(v);
      endEpoch := MoveEpoch(v);
    }

    /** The vote message handler. */
    method ReceiveVoteMessage(v: Vote) returns (endEpoch: bool)
      requires Valid()
      modifies this, chain
      ensures Valid() && View() == ReceiveVote(old(View()), env.vals, v)
      ensures EpochStep(env.vals, EpochState(old(epoch), old(epochVotes)), EpochState(epoch, epochVotes), v)
      ensures endEpoch <==>
                ValidVote(v) && v.epoch >= old(epoch) && Majority(env.vals, VotersSince(epochVotes, v.epoch))
      ensures epoch == if endEpoch then (v.epoch + 1) % EPOCHS else old(epoch)
    {
      endEpoch := HandleVote(v);
      CheckCertificate(v.block);
    }

    // ---- Epochs and timers ----

    /** A new epoch begins, or the old one again. */
    method EnterEpoch()
      modifies this`voteTimerReady, this`blockProcessed
      ensures !voteTimerReady && !blockProcessed
    {
      voteTimerReady, blockProcessed := false, false;
    }

    /** The vote timer fires: if a block of the epoch has been processed, it is time to vote. */
    method VoteTimerFires(mainchainHeight: nat) returns (sent: Option<Vote>, ghost ballot: Option<Ballot>)
      requires Valid()
      modifies this`lastVote, this`saved, this`voteTimerReady
      ensures Valid() && voteTimerReady
      ensures ballot.Some? <==> blockProcessed
      ensures sent.Some? <==> blockProcessed && env.self in Addresses(env.vals)
      ensures BallotAt(old(View()), epoch, ballot) && Sent(View(), sent) == Ballots(old(View()), env, ballot)
    {
      voteTimerReady := true;
      sent, ballot := None, None;
      if blockProcessed {
        ghost var cast;
        sent, cast := Vote(mainchainHeight);
        ballot := Some(cast);
      }
    }

    /** The epoch timer fires: the node votes in any case and repeats the epoch. */
    method EpochTimerFires(mainchainHeight: nat) returns (sent: Option<Vote>, ghost ballot: Ballot)
      requires Valid()
      modifies this`lastVote, this`saved, this`voteTimerReady, this`blockProcessed
      ensures Valid() && !voteTimerReady && !blockProcessed
      ensures sent.Some? <==> env.self in Addresses(env.vals)
      ensures BallotAt(old(View()), epoch, Some(ballot)) && Sent(View(), sent) == CastVote(old(View()), env, ballot)
    {
      sent, ballot := Vote(mainchainHeight);
      EnterEpoch();
    }

    // ---- Commit certificates ----

    /** Marks a block and its ancestors finalized and makes it the last finalized block. */
    method Finalize(h: Hash)
      requires h in chain.store
      modifies this`lfb, this`saved, chain`store, chain`txIndex
      ensures View() == FinalizeBlock(old(View()), h)
      ensures old(Persisted()) ==> Persisted()
    {
      if h == lfb { return; }
      var block := chain.store[h].block;
      lfb := h;
      Commit();
      chain.FinalizePreviousBlocks(h);
      chain.AddTxsToIndex(block, true);
    }

    /** The block has a certificate: it becomes the highest certified block, and may finalize its parent. */
    method ProcessCCBlock(h: Hash)
      requires Loaded(View()) && h in chain.store
      modifies this`lfb, this`hcc, this`saved, chain`store, chain`txIndex
      ensures View() == ProcessCC(old(View()), h)
      ensures old(Persisted()) ==> Persisted()
    {
      var block := chain.store[h].block;
      if block.height <= chain.store[hcc].block.height { return; }
      if block.parent == block.hcc.blockHash {
        if block.parent !in chain.store { return; }
        Finalize(block.parent);
      }
      hcc := h;
      Commit();
      chain.SetBlockStatus(h, Committed);
    }

    /** Looks whether a block has gathered a majority. */
    method CheckCertificate(h: Hash)
      requires Valid()
      modifies this`lfb, this`hcc, this`saved, chain`store, chain`txIndex
      ensures Valid() && View() == CheckCC(old(View()), env.vals, h)
    {
      var due := NewlyCertified(h);
      if due {
        ProcessCCKeeps(bl, root, View(), h);
        ProcessCCBlock(h);
      }
    }

    /** A validated block that has no certificate yet, is not below the highest certified one and has a majority. */
    method NewlyCertified(h: Hash) returns (r: bool)
      requires Valid()
      ensures r <==> && h != EMPTY_HASH && h in chain.store && chain.store[h].status == Status.Valid
                     && chain.store[h].block.height >= chain.store[hcc].block.height
                     && HasQuorum(View(), env.vals, h)
    {
      if h == EMPTY_HASH || h !in chain.store { return false; }
      var block := chain.store[h];
      if block.status.Invalid? || block.status.Pending? { return false; }
      if block.status.Committed? || block.status.IsFinalized() { return false; }
      if block.block.height < chain.store[hcc].block.height { return false; }
      VotesAreKeyed();
      var votes := chain.FindVotesByHash(h);
      r := HasUniqueMajority(env.vals, votes);
    }

    // ---- Blocks ----

    method ValidateBlock(h: Hash) returns (verdict: Verdict)
      requires Valid() && h in chain.store && chain.store[h].block.parent in chain.store
      ensures verdict == Validate(View(), env, h)
    {
      var block := chain.store[h].block;
      var parent := chain.store[block.parent];
      assert CertificateOK(bl, root, chain.store, h);
      if block.height <= chain.store[lfb].block.height { return Rejected; }
      if parent.block.height + 1 != block.height { return Rejected; }
      if block.timestamp < parent.block.timestamp + 1 { return Rejected; }
      if parent.block.epoch >= block.epoch { return Rejected; }
      if !parent.status.IsValid() {
        return if parent.status.Pending? then ParentPending else Rejected;
      }
      var descends := chain.IsDescendant(block.hcc.blockHash, h);
      if !descends { return Rejected; }
      if block.hcc.blockHash !in chain.store { return Rejected; }
      if !chain.store[block.hcc.blockHash].status.IsFinalized() {
        var valid := IsValidCertificate(block.hcc, env.vals);
        if !valid { return Rejected; }
      }
      if parent.hasValidatorUpdate && block.hcc.blockHash != block.parent { return Rejected; }
      var shouldSynchronize := false;
      if parent.block.parent != EMPTY_HASH {
        if parent.block.parent !in chain.store { return Rejected; }
        shouldSynchronize := chain.store[parent.block.parent].hasValidatorUpdate;
      }
      if shouldSynchronize && block.hcc.blockHash != block.parent { return Rejected; }
      if block.epoch == 0 || env.proposer(block.parent, block.epoch) != block.proposer { return Rejected; }
      return Verdict.Ok;
    }

    /** Replays the votes of a certificate. */
    method HandleVotes(votes: seq<Vote>)
      requires Valid()
      modifies this`epochVotes, this`epoch, this`saved, chain`votes
      ensures Valid() && View() == AddVotes(old(View()), votes)
      ensures EpochSteps(env.vals, EpochState(old(epoch), old(epochVotes)), EpochState(epoch, epochVotes), votes)
    {
      ghost var start := EpochState(epoch, epochVotes);
      for i := 0 to |votes|
        invariant Valid()
        invariant AddVotes(View(), votes[i..]) == AddVotes(old(View()), votes)
        invariant EpochSteps(env.vals, start, EpochState(epoch, epochVotes), votes[..i])
      {
        assert votes[i..][1..] == votes[i + 1..];
        ghost var before := EpochState(epoch, epochVotes);
        var ended := HandleVote(votes[i]);
        EpochStepsExtend(env.vals, start, before, EpochState(epoch, epochVotes), votes[..i], votes[i]);
        assert votes[..i + 1] == votes[..i] + [votes[i]];
      }
      assert votes[..|votes|] == votes;
    }

    method Replay(block: Block) returns (ghost listed: seq<Vote>)
      requires Valid() && WellKeyed(block.hcc.votes)
      modifies this`epochVotes, this`epoch, this`saved, this`lfb, this`hcc, chain
      ensures Valid() && Enumerates(block.hcc.votes, listed)
      ensures View() == ReplayCertificate(old(View()), env.vals, block, listed)
      ensures EpochSteps(env.vals, EpochState(old(epoch), old(epochVotes)), EpochState(epoch, epochVotes), listed)
    {
      var certificate := new VoteSet.Load(block.hcc.votes);
      var votes := certificate.Votes();
      listed := votes;
      HandleVotes(votes);
      if hcc != block.hcc.blockHash { CheckCertificate(block.hcc.blockHash); }
    }

    method MarkValid(h: Hash, hasValidatorUpdate: bool)
      requires Valid() && Acceptable(bl, View(), h)
      modifies chain`store
      ensures Valid() && View() == Accept(old(View()), h, hasValidatorUpdate)
    {
      ghost var start := View();
      if hasValidatorUpdate { chain.MarkBlockHasValidatorUpdate(h); }
      chain.SetBlockStatus(h, Status.Valid);
      assert View() == Accept(start, h, hasValidatorUpdate);
      AcceptKeeps(bl, root, start, h, hasValidatorUpdate);
    }

    method MarkInvalid(h: Hash)
      requires Valid() && h in chain.store && chain.store[h].status == Pending
      modifies chain`store
      ensures Valid() && View() == Mark(old(View()), h, Invalid)
    {
      RejectKeeps(bl, root, View(), h);
      chain.SetBlockStatus(h, Invalid);
    }

    /** A block of an epoch that is neither the current nor the previous one is not voted for. */
    predicate CurrentEpoch(blockEpoch: nat)
      reads this`epoch
    {
      blockEpoch == (epoch + EPOCHS - 1) % EPOCHS || blockEpoch == epoch
    }

    method VoteIfReady(blockEpoch: nat, mainchainHeight: nat) returns (sent: Option<Vote>, ghost ballot: Option<Ballot>)
      requires Valid()
      modifies this`lastVote, this`saved, this`blockProcessed
      ensures Valid()
      ensures ballot.Some? <==> voteTimerReady && CurrentEpoch(blockEpoch)
      ensures ballot.Some? ==> IsTip(old(View()), true, ballot.value.tip) && ballot.value.epoch == epoch
      ensures Sent(View(), sent) == Ballots(old(View()), env, ballot)
      ensures sent.Some? <==> ballot.Some? && env.self in Addresses(env.vals)
      ensures blockProcessed == (old(blockProcessed) || CurrentEpoch(blockEpoch))
    {
      sent, ballot := None, None;
      if CurrentEpoch(blockEpoch) {
        blockProcessed := true;
        if voteTimerReady {
          ghost var cast;
          sent, cast := Vote(mainchainHeight);
          ballot := Some(cast);
        }
      }
    }

    /** Marks a block valid, votes if it is time to, and looks for its certificate. */
    method AcceptBlock(h: Hash, hasValidatorUpdate: bool, mainchainHeight: nat)
      returns (sent: Option<Vote>, ghost ballot: Option<Ballot>, ghost voted: Core)
      requires Valid() && Acceptable(bl, View(), h)
      modifies this`lastVote, this`saved, this`lfb, this`hcc, this`blockProcessed, chain`store, chain`txIndex
      ensures Valid() && Loaded(voted) && View() == CheckCC(voted, env.vals, h)
      ensures Sent(voted, sent) == Ballots(Accept(old(View()), h, hasValidatorUpdate), env, ballot)
      ensures BallotAt(Accept(old(View()), h, hasValidatorUpdate), epoch, ballot)
      ensures VotesWhenDue(env, bl(h).epoch, epoch, true, voteTimerReady,
                           old(blockProcessed), blockProcessed, sent, ballot)
    {
      sent, ballot := MarkAndVote(h, hasValidatorUpdate, mainchainHeight);
      voted := View();
      CheckCertificate(h);
    }

    method MarkAndVote(h: Hash, hasValidatorUpdate: bool, mainchainHeight: nat)
      returns (sent: Option<Vote>, ghost ballot: Option<Ballot>)
      requires Valid() && Acceptable(bl, View(), h)
      modifies this`lastVote, this`saved, this`blockProcessed, chain`store
      ensures Valid() && BallotAt(Accept(old(View()), h, hasValidatorUpdate), epoch, ballot)
      ensures Sent(View(), sent) == Ballots(Accept(old(View()), h, hasValidatorUpdate), env, ballot)
      ensures VotesWhenDue(env, bl(h).epoch, epoch, true, voteTimerReady,
                           old(blockProcessed), blockProcessed, sent, ballot)
    {
      var blockEpoch := chain.store[h].block.epoch;
      MarkValid(h, hasValidatorUpdate);
      sent, ballot := VoteIfReady(blockEpoch, mainchainHeight);
    }

    /** What becomes of a validated block once the ledger has answered. */
    method DecideBlock(h: Hash, answer: LedgerAnswer, mainchainHeight: nat)
      returns (sent: Option<Vote>, ghost ballot: Option<Ballot>)
      requires Valid() && Acceptable(bl, View(), h)
      modifies this`lastVote, this`saved, this`lfb, this`hcc, this`blockProcessed, chain`store, chain`txIndex
      ensures Valid()
      ensures ballot.Some? ==>
                answer.Applies? && IsTip(Accept(old(View()), h, answer.hasValidatorUpdate), true, ballot.value.tip)
      ensures ballot.Some? ==> ballot.value.epoch == epoch
      ensures Sent(View(), sent) == Decide(old(View()), env, h, answer, ballot)
      ensures VotesWhenDue(env, bl(h).epoch, epoch, answer.Applies?, voteTimerReady,
                           old(blockProcessed), blockProcessed, sent, ballot)
    {
      sent, ballot := None, None;
      match answer {
        case Undecided =>
        case Applies(update) =>
          ghost var start, voted := View(), View();
          sent, ballot, voted := AcceptBlock(h, update, mainchainHeight);
          DecideApplies(start, env, h, update, ballot, voted, sent);
        case _ =>
          MarkInvalid(h);
      }
    }

    /** The block message handler. */
    method HandleBlockMessage(h: Hash, answer: LedgerAnswer, mainchainHeight: nat)
      returns (fatal: bool, sent: Option<Vote>, ghost listed: seq<Vote>, ghost ballot: Option<Ballot>)
      requires Valid()
      modifies this`lastVote, this`saved, this`lfb, this`hcc, this`epoch, this`epochVotes, this`blockProcessed, chain
      ensures Valid()
      ensures h in old(chain.store) ==> Enumerates(bl(h).hcc.votes, listed)
      ensures h in old(chain.store) ==> BallotFits(old(View()), env, h, listed, answer, ballot)
      ensures if fatal then View() == old(View()) && HandleBlock(old(View()), env, h, listed, answer, ballot) == Fatal
              else HandleBlock(old(View()), env, h, listed, answer, ballot) == Handled(View(), sent)
      ensures if Replays(old(View()), env, h)
              then EpochSteps(env.vals, EpochState(old(epoch), old(epochVotes)), EpochState(epoch, epochVotes), listed)
              else EpochState(epoch, epochVotes) == EpochState(old(epoch), old(epochVotes))
      ensures ballot.Some? ==> ballot.value.epoch == epoch
      ensures VotesWhenDue(env, bl(h).epoch, epoch, Replays(old(View()), env, h) && answer.Applies?, voteTimerReady,
                           old(blockProcessed), blockProcessed, sent, ballot)
    {
      fatal, sent, listed, ballot := true, None, [], None;
      if h in chain.store {
        fatal, sent, listed, ballot := HandleNormalBlock(h, answer, mainchainHeight);
      }
    }

    method HandleNormalBlock(h: Hash, answer: LedgerAnswer, mainchainHeight: nat)
      returns (fatal: bool, sent: Option<Vote>, ghost listed: seq<Vote>, ghost ballot: Option<Ballot>)
      requires Valid() && h in chain.store
      modifies this`lastVote, this`saved, this`lfb, this`hcc, this`epoch, this`epochVotes, this`blockProcessed, chain
      ensures Valid() && Enumerates(bl(h).hcc.votes, listed)
      ensures BallotFits(old(View()), env, h, listed, answer, ballot)
      ensures if fatal then View() == old(View()) && HandleBlock(old(View()), env, h, listed, answer, ballot) == Fatal
              else HandleBlock(old(View()), env, h, listed, answer, ballot) == Handled(View(), sent)
      ensures if Replays(old(View()), env, h)
              then EpochSteps(env.vals, EpochState(old(epoch), old(epochVotes)), EpochState(epoch, epochVotes), listed)
              else EpochState(epoch, epochVotes) == EpochState(old(epoch), old(epochVotes))
      ensures ballot.Some? ==> ballot.value.epoch == epoch
      ensures VotesWhenDue(env, bl(h).epoch, epoch, Replays(old(View()), env, h) && answer.Applies?, voteTimerReady,
                           old(blockProcessed), blockProcessed, sent, ballot)
    {
      fatal, sent, listed, ballot := false, None, [], None;
      var block := chain.store[h].block;
      assert CertificateOK(bl, root, chain.store, h);
      listed := SomeListing(block.hcc.votes);
      if !chain.store[h].status.Pending? { return; }
      if block.parent !in chain.store { fatal := true; return; }
      var verdict := ValidateBlock(h);
      if verdict == ParentPending { fatal := true; return; }
      if verdict == Rejected { MarkInvalid(h); return; }
      sent, listed, ballot := ProcessValidated(h, answer, mainchainHeight);
    }

    /** Replays the certificate of a block that has passed validation and does as the ledger answers. */
    method ProcessValidated(h: Hash, answer: LedgerAnswer, mainchainHeight: nat)
      returns (sent: Option<Vote>, ghost listed: seq<Vote>, ghost ballot: Option<Ballot>)
      requires Valid() && Replays(View(), env, h)
      modifies this`lastVote, this`saved, this`lfb, this`hcc, this`epoch, this`epochVotes, this`blockProcessed, chain
      ensures Valid() && Enumerates(bl(h).hcc.votes, listed)
      ensures BallotFits(old(View()), env, h, listed, answer, ballot)
      ensures Sent(View(), sent) ==
                Decide(ReplayCertificate(old(View()), env.vals, bl(h), listed), env, h, answer, ballot)
      ensures EpochSteps(env.vals, EpochState(old(epoch), old(epochVotes)), EpochState(epoch, epochVotes), listed)
      ensures ballot.Some? ==> ballot.value.epoch == epoch
      ensures VotesWhenDue(env, bl(h).epoch, epoch, answer.Applies?, voteTimerReady,
                           old(blockProcessed), blockProcessed, sent, ballot)
    {
      ghost var start := View();
      assert CertificateOK(bl, root, chain.store, h);
      listed := Replay(chain.store[h].block);
      ReplayEstablishesLock(bl, root, start, env, h, listed);
      sent, ballot := DecideBlock(h, answer, mainchainHeight);
    }

    /** A block arrives from the network or from the node's own proposal. */
    method DeliverBlock(b: Block) returns (error: Option<AddError>)
      requires Valid() && Genuine(bl, b)
      modifies chain
      ensures Valid()
      ensures View() == if error.None? then old(View()).(chain := AddBlock(old(View()).chain, b)) else old(View())
      ensures error.None? <==> b.chainID == chain.chainID && b.hash !in old(chain.store)
    {
      ghost var start := View();
      error := chain.AddNewBlock(b);
      if error.None? { AddBlockKeeps(bl, root, start, b); }
    }

    // ---- Proposing ----

    /** Assembles the next block. Its hash, its transactions and the clock come from outside. */
    method CreateProposal(hash: Hash, txs: seq<RawTx>, now: int) returns (b: Block, ghost tip: Hash)
      requires Valid()
      ensures IsTip(View(), false, tip) && IsProposal(View(), env, tip, epoch, b)
      ensures b.hash == hash && b.txs == txs && b.chainID == chain.chainID && WellKeyed(b.hcc.votes)
      ensures b.timestamp == if now < bl(tip).timestamp + 1 then bl(tip).timestamp + 1 else now
    {
      var parent := GetTip(false);
      tip := parent;
      var parentBlock := chain.store[parent].block;
      var timestamp := if now < parentBlock.timestamp + 1 then parentBlock.timestamp + 1 else now;
      VotesAreKeyed();
      var votes := chain.FindVotesByHash(hcc);
      var unique := votes.UniqueVoter();
      var filtered := FilterByValidators(unique, env.vals);
      b := Block(hash, chain.chainID, epoch, parentBlock.height + 1, parent,
                 CommitCertificate(filtered.votes, hcc), timestamp, env.self, txs);
    }
  }
}
