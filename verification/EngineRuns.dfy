/** What the handlers of the consensus engine do is a step of a run. */
module EngineRuns {
  import opened Options
  import opened Validators
  import opened Votes
  import opened Blocks
  import opened Consensus
  import opened NodeInvariant
  import opened Epochs
  import opened Safety
  import opened Agreement
  import opened Runs
  import opened ChainStore
  import opened Engine

  /** The engine is the node of that address at the end of the run. */
  ghost predicate Embodies(e: ConsensusEngine, cfg: Config, run: seq<System>)
    reads e, e.chain
  {
    && e.Valid() && e.bl == cfg.bl && e.root == cfg.root && e.env == EnvOf(cfg, e.env.self)
    && IsRun(cfg, run) && e.env.self in Last(run).nodes && e.env.self in Last(run).epochs
    && Last(run).nodes[e.env.self] == e.View()
    && Last(run).epochs[e.env.self] == EpochState(e.epoch, e.epochVotes)
  }

  /** The run goes on with one event at the engine's node. */
  ghost predicate Continues(cfg: Config, run: seq<System>, longer: seq<System>, i: Address, event: Event) {
    && run != [] && |longer| == |run| + 1 && longer[..|run|] == run
    && StepOf(cfg, Last(run), Last(longer), i, event)
  }

  /** A node that starts with the root is part of a run. */
  method Starts(env: Env, rootBlock: Block, ghost cfg: Config, ghost sys: System) returns (e: ConsensusEngine)
    requires ConfigOK(cfg) && Start(cfg, sys) && env.self in sys.nodes && env == EnvOf(cfg, env.self)
    requires rootBlock.hash == cfg.root && cfg.bl(cfg.root) == rootBlock
    ensures fresh(e) && fresh(e.chain) && e.env.self == env.self && Embodies(e, cfg, [sys])
  {
    var chain := new Chain(rootBlock.chainID, rootBlock);
    e := new ConsensusEngine(env, chain, rootBlock, cfg.bl);
  }

  /** A step of another node is no concern of the engine. */
  lemma OthersMove(e: ConsensusEngine, cfg: Config, run: seq<System>, sys: System, j: Address, event: Event)
    requires Embodies(e, cfg, run) && StepOf(cfg, Last(run), sys, j, event) && j != e.env.self
    ensures Embodies(e, cfg, run + [sys])
  {
    RunExtends(cfg, run, sys);
  }

  /** A vote message arrives. */
  method Hears(e: ConsensusEngine, v: Vote, ghost cfg: Config, ghost run: seq<System>)
    returns (ghost longer: seq<System>)
    requires Embodies(e, cfg, run) && Unforged(cfg, Last(run).signed, v)
    modifies e, e.chain
    ensures Embodies(e, cfg, longer) && Continues(cfg, run, longer, e.env.self, Hear(v))
  {
    var endEpoch := e.ReceiveVoteMessage(v);
    longer := Extend(cfg, run, e.env.self, Hear(v), EpochState(e.epoch, e.epochVotes));
  }

  /** A block arrives; a known one or one of another chain changes nothing. */
  method Receives(e: ConsensusEngine, b: Block, ghost cfg: Config, ghost run: seq<System>)
    returns (ghost longer: seq<System>)
    requires Embodies(e, cfg, run) && Genuine(cfg.bl, b) && UnforgedVotes(cfg, Last(run).signed, b.hcc.votes)
    modifies e.chain
    ensures Embodies(e, cfg, longer)
    ensures var unknown := b.chainID == e.chain.chainID && b.hash !in old(e.chain.store);
            Continues(cfg, run, longer, e.env.self, if unknown then Deliver(b) else Restart)
  {
    var error := e.DeliverBlock(b);
    ghost var event := if error.None? then Deliver(b) else Restart;
    longer := Extend(cfg, run, e.env.self, event, EpochState(e.epoch, e.epochVotes));
  }

  /** A stored block is processed. */
  method Processes(e: ConsensusEngine, h: Hash, answer: LedgerAnswer, mainchainHeight: nat,
                   ghost cfg: Config, ghost run: seq<System>)
    returns (ghost longer: seq<System>, ghost event: Event)
    requires Embodies(e, cfg, run)
    modifies e, e.chain
    ensures Embodies(e, cfg, longer) && Continues(cfg, run, longer, e.env.self, event)
    ensures event.Process? && event.hash == h && event.answer == answer
  {
    ghost var listed, ballot;
    var fatal, sent;
    fatal, sent, listed, ballot := e.HandleBlockMessage(h, answer, mainchainHeight);
    event := Process(h, listed, answer, ballot);
    longer := Extend(cfg, run, e.env.self, event, EpochState(e.epoch, e.epochVotes));
  }

  /** The vote timer fires; nothing happens in the run if there is no block to vote for. */
  method VoteTimerFires(e: ConsensusEngine, mainchainHeight: nat, ghost cfg: Config, ghost run: seq<System>)
    returns (ghost longer: seq<System>, ghost event: Event)
    requires Embodies(e, cfg, run)
    modifies e
    ensures Embodies(e, cfg, longer) && Continues(cfg, run, longer, e.env.self, event)
    ensures if old(e.blockProcessed) then event.VoteTimer? else event == Restart
  {
    ghost var ballot;
    var sent;
    sent, ballot := e.VoteTimerFires(mainchainHeight);
    event := if ballot.Some? then VoteTimer(ballot.value) else Restart;
    longer := Extend(cfg, run, e.env.self, event, EpochState(e.epoch, e.epochVotes));
  }

  /** The epoch timer fires. */
  method EpochTimerFires(e: ConsensusEngine, mainchainHeight: nat, ghost cfg: Config, ghost run: seq<System>)
    returns (ghost longer: seq<System>, ghost ballot: Ballot)
    requires Embodies(e, cfg, run)
    modifies e
    ensures Embodies(e, cfg, longer) && Continues(cfg, run, longer, e.env.self, VoteTimer(ballot))
  {
    var sent;
    sent, ballot := e.EpochTimerFires(mainchainHeight);
    longer := Extend(cfg, run, e.env.self, VoteTimer(ballot), EpochState(e.epoch, e.epochVotes));
  }

  /** The node restarts. */
  method Restarts(e: ConsensusEngine, ghost cfg: Config, ghost run: seq<System>) returns (ghost longer: seq<System>)
    requires Embodies(e, cfg, run)
    modifies e
    ensures Embodies(e, cfg, longer) && Continues(cfg, run, longer, e.env.self, Restart)
  {
    e.Restart();
    longer := Extend(cfg, run, e.env.self, Restart, EpochState(e.epoch, e.epochVotes));
  }

  /** Two engines that take part in one run never finalize blocks of different branches. */
  lemma EnginesAgree(e: ConsensusEngine, e': ConsensusEngine, cfg: Config, run: seq<System>, x: Hash, y: Hash)
    requires ConfigOK(cfg) && Embodies(e, cfg, run) && Embodies(e', cfg, run)
    requires x in e.chain.store && e.chain.store[x].status.IsFinalized()
    requires y in e'.chain.store && e'.chain.store[y].status.IsFinalized()
    ensures OneBranch(cfg, x, y)
  {
    RunAgreement(cfg, run, |run| - 1, e.env.self, x, |run| - 1, e'.env.self, y);
  }
}
