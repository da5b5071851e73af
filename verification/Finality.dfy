/** What a block's status was before it was finalized (core/block.go, BlockStatus; consensus/engine.go). */
module Finality {
  import opened Options
  import opened Validators
  import opened Votes
  import opened Blocks
  import opened ChainIndexes
  import opened Consensus
  import opened NodeInvariant
  import opened Safety
  import opened Proposals
  import opened Agreement

  /** A certificate check finalizes only the node's own highest certified block directly, and that one was
      committed: both are certified at one height. */
  lemma FinalizesCommitted(cfg: Config, sys: System, c: Core, h: Hash, x: Hash)
    requires ConfigOK(cfg) && SystemOK(cfg, sys) && NodeSafe(cfg, sys.signed, c) && Backed(c, cfg.vals)
    requires x in c.chain.store && StatusOf(c, x) != DirectlyFinalized
    requires StatusOf(CheckCC(c, cfg.vals, h), x) == DirectlyFinalized
    ensures StatusOf(c, x) == Committed && x == c.hcc && cfg.bl(h).parent == x
  {
    NewlyDirect(cfg.bl, cfg.root, c, cfg.vals, h, x);
    assert LockHolds(cfg.bl, cfg.root, c.chain.store, c.hcc, h);
    assert ParentCertified(cfg, sys.signed, c.chain.store, h);
    OneCertificatePerHeight(cfg, sys, x, c.hcc);
  }

  /** The documented transitions of a validated block, and one more: a block that was never committed becomes
      indirectly finalized with a descendant. */
  predicate CheckEdge(a: Status, b: Status) {
    || (a == Valid && b == Committed)
    || (a == Committed && b.IsFinalized())
    || (a == Valid && b == IndirectlyFinalized)
  }

  /** Every status that a certificate check changes follows one of them. */
  lemma ChecksFollowEdges(cfg: Config, sys: System, c: Core, h: Hash, x: Hash)
    requires ConfigOK(cfg) && SystemOK(cfg, sys) && NodeSafe(cfg, sys.signed, c) && Backed(c, cfg.vals)
    requires x in c.chain.store && StatusOf(CheckCC(c, cfg.vals, h), x) != StatusOf(c, x)
    ensures CheckEdge(StatusOf(c, x), StatusOf(CheckCC(c, cfg.vals, h), x))
  {
    CheckCCAdvances(cfg.bl, cfg.root, c, cfg.vals, h);
    if StatusOf(CheckCC(c, cfg.vals, h), x) == DirectlyFinalized { FinalizesCommitted(cfg, sys, c, h, x); }
  }

  /** `x` was committed, or it was valid and is the parent of the block being processed, whose certificate
      committed it on the way. */
  ghost predicate WasCommitted(cfg: Config, c: Core, e: Event, x: Hash)
    requires Loaded(c) && x in c.chain.store
  {
    || StatusOf(c, x) == Committed
    || (e.Process? && StatusOf(c, x) == Valid && cfg.bl(e.hash).parent == x && cfg.bl(e.hash).hcc.blockHash == x
        && StatusOf(ReplayCertificate(c, cfg.vals, cfg.bl(e.hash), e.listed), x) == Committed)
  }

  ghost predicate NewlyFinal(c: Core, c': Core, x: Hash) {
    && x in c.chain.store && x in c'.chain.store
    && StatusOf(c, x) != DirectlyFinalized && StatusOf(c', x) == DirectlyFinalized
  }

  lemma HearFinalizesCommitted(cfg: Config, sys: System, c: Core, v: Vote, x: Hash)
    requires ConfigOK(cfg) && SystemOK(cfg, sys) && NodeSafe(cfg, sys.signed, c) && Backed(c, cfg.vals)
    requires Unforged(cfg, sys.signed, v) && NewlyFinal(c, ReceiveVote(c, cfg.vals, v), x)
    ensures StatusOf(c, x) == Committed
  {
    SafeAddVote(cfg, sys.signed, c, v);
    BackedAddVotes(cfg.bl, cfg.root, c, cfg.vals, [v]);
    assert AddVotes(c, [v]) == AddVotes(AddVote(c, v), []);
    FinalizesCommitted(cfg, sys, AddVote(c, v), v.block, x);
  }

  lemma ReplayFinalizesCommitted(cfg: Config, sys: System, c: Core, b: Block, listed: seq<Vote>, x: Hash)
    requires ConfigOK(cfg) && SystemOK(cfg, sys) && NodeSafe(cfg, sys.signed, c) && Backed(c, cfg.vals)
    requires (forall v :: v in listed ==> Unforged(cfg, sys.signed, v))
    requires NewlyFinal(c, ReplayCertificate(c, cfg.vals, b, listed), x)
    ensures StatusOf(c, x) == Committed
  {
    SafeAddVotes(cfg, sys.signed, c, listed);
    BackedAddVotes(cfg.bl, cfg.root, c, cfg.vals, listed);
    FinalizesCommitted(cfg, sys, AddVotes(c, listed), b.hcc.blockHash, x);
  }

  lemma ReplayCommits(cfg: Config, c: Core, b: Block, listed: seq<Vote>, x: Hash)
    requires NodeOK(cfg.bl, cfg.root, c) && x in c.chain.store && StatusOf(c, x) != Committed
    requires StatusOf(ReplayCertificate(c, cfg.vals, b, listed), x) == Committed
    ensures x == b.hcc.blockHash && StatusOf(c, x) == Valid
  {
    AddVotesKeeps(cfg.bl, cfg.root, c, listed);
    NewlyCommitted(cfg.bl, cfg.root, AddVotes(c, listed), cfg.vals, b.hcc.blockHash, x);
  }

  /** Accepting and voting changes no status but that of the block itself. */
  lemma AcceptFinalizesCommitted(cfg: Config, sys: System, c: Core, i: Address, h: Hash, update: bool,
                                 ballot: Option<Ballot>, x: Hash)
    requires ConfigOK(cfg) && SystemOK(cfg, sys) && Loaded(c) && h in c.chain.store && StatusOf(c, h) == Pending
    requires var voted := Ballots(Accept(c, h, update), EnvOf(cfg, i), ballot).core;
             && NodeSafe(cfg, sys.signed, voted) && Backed(voted, cfg.vals)
             && NewlyFinal(c, CheckCC(voted, cfg.vals, h), x)
    ensures StatusOf(c, x) == Committed && cfg.bl(h).parent == x && cfg.bl(h).hcc.blockHash == x
  {
    var voted := Ballots(Accept(c, h, update), EnvOf(cfg, i), ballot).core;
    FinalizesCommitted(cfg, sys, voted, h, x);
  }

  lemma DecideFinalizesCommitted(cfg: Config, signed: set<Signature>, sys: System, i: Address, c: Core, h: Hash,
                                 answer: LedgerAnswer, ballot: Option<Ballot>, x: Hash)
    requires ConfigOK(cfg) && SystemOK(cfg, sys) && Honest(cfg, signed, i, c) && Acceptable(cfg.bl, c, h)
    requires cfg.bl(h).hcc.blockHash == cfg.bl(h).parent ==> Certified(cfg, signed, cfg.bl(h).parent)
    requires ballot.Some? && answer.Applies? ==>
               IsTip(Accept(c, h, answer.hasValidatorUpdate), true, ballot.value.tip)
    requires Backed(c, cfg.vals) && sys.signed == signed + Emitted(Decide(c, EnvOf(cfg, i), h, answer, ballot).vote)
    requires NewlyFinal(c, Decide(c, EnvOf(cfg, i), h, answer, ballot).core, x)
    ensures StatusOf(c, x) == Committed && cfg.bl(h).parent == x && cfg.bl(h).hcc.blockHash == x
  {
    if answer.Applies? {
      HonestAccept(cfg, signed, i, c, h, answer.hasValidatorUpdate);
      HonestBallots(cfg, signed, i, Accept(c, h, answer.hasValidatorUpdate), ballot);
      BackedBallots(c, EnvOf(cfg, i), h, answer.hasValidatorUpdate, ballot);
      AcceptFinalizesCommitted(cfg, sys, c, i, h, answer.hasValidatorUpdate, ballot, x);
    }
  }

  lemma ProcessFinalizesCommitted(cfg: Config, sys: System, sys': System, i: Address, c: Core, h: Hash,
                                  listed: seq<Vote>, answer: LedgerAnswer, ballot: Option<Ballot>, x: Hash)
    requires ConfigOK(cfg) && SystemOK(cfg, sys) && SystemOK(cfg, sys') && Honest(cfg, sys.signed, i, c)
    requires Backed(c, cfg.vals) && Replays(c, EnvOf(cfg, i), h)
    requires Enumerates(cfg.bl(h).hcc.votes, listed) && BallotFits(c, EnvOf(cfg, i), h, listed, answer, ballot)
    requires var sent := Decide(ReplayCertificate(c, cfg.vals, cfg.bl(h), listed), EnvOf(cfg, i), h, answer, ballot);
             sys'.signed == sys.signed + Emitted(sent.vote) && NewlyFinal(c, sent.core, x)
    ensures WasCommitted(cfg, c, Process(h, listed, answer, ballot), x)
  {
    var c2 := ReplayCertificate(c, cfg.vals, cfg.bl(h), listed);
    assert VotesUnforged(cfg, sys.signed, c, h);
    ListedUnforged(cfg, sys.signed, cfg.bl(h).hcc.votes, listed);
    if StatusOf(c2, x) == DirectlyFinalized {
      ReplayFinalizesCommitted(cfg, sys, c, cfg.bl(h), listed, x);
    } else {
      HonestReplay(cfg, sys.signed, i, c, cfg.bl(h), listed);
      BackedReplay(cfg.bl, cfg.root, c, cfg.vals, cfg.bl(h), listed);
      ReplayEstablishesLock(cfg.bl, cfg.root, c, EnvOf(cfg, i), h, listed);
      if cfg.bl(h).hcc.blockHash == cfg.bl(h).parent {
        ValidatedParentCertified(cfg, sys.signed, c, EnvOf(cfg, i), h);
      }
      DecideFinalizesCommitted(cfg, sys.signed, sys', i, c2, h, answer, ballot, x);
      if StatusOf(c, x) != Committed { ReplayCommits(cfg, c, cfg.bl(h), listed, x); }
    }
  }

  lemma StepFinalizesCommitted(cfg: Config, sys: System, sys': System, i: Address, e: Event, x: Hash)
    requires ConfigOK(cfg) && SystemOK(cfg, sys) && StepOf(cfg, sys, sys', i, e) && Backed(sys.nodes[i], cfg.vals)
    requires NewlyFinal(sys.nodes[i], sys'.nodes[i], x)
    ensures WasCommitted(cfg, sys.nodes[i], e, x)
  {
    var c := sys.nodes[i];
    assert HonestAt(cfg, sys, i);
    StepKeeps(cfg, sys, sys');
    match e {
      case Deliver(b) => AddBlockChildren(c.chain, b);
      case Hear(v) => HearFinalizesCommitted(cfg, sys, c, v, x);
      case Process(h, listed, answer, ballot) =>
        HandleBlockCases(c, EnvOf(cfg, i), h, listed, answer, ballot);
        ProcessFinalizesCommitted(cfg, sys, sys', i, c, h, listed, answer, ballot, x);
      case VoteTimer(ballot) =>
      case Restart =>
    }
  }

  /** In every run, a node finalizes a block directly only after it has committed it. */
  lemma RunFinalizesCommitted(cfg: Config, run: seq<System>, k: nat, i: Address, e: Event, x: Hash)
    requires ConfigOK(cfg) && IsRun(cfg, run) && k + 1 < |run| && StepOf(cfg, run[k], run[k + 1], i, e)
    requires NewlyFinal(run[k].nodes[i], run[k + 1].nodes[i], x)
    ensures WasCommitted(cfg, run[k].nodes[i], e, x)
  {
    RunKeeps(cfg, run, k);
    RunBacked(cfg, run, k, i);
    StepFinalizesCommitted(cfg, run[k], run[k + 1], i, e, x);
  }
}
