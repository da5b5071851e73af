/** Runs built step by step. */
module Runs {
  import opened Options
  import opened Validators
  import opened Votes
  import opened Blocks
  import opened Consensus
  import opened NodeInvariant
  import opened Epochs
  import opened Safety

  ghost function Last(run: seq<System>): System
    requires run != []
  {
    run[|run| - 1]
  }

  lemma RunExtends(cfg: Config, run: seq<System>, sys: System)
    requires IsRun(cfg, run) && Step(cfg, Last(run), sys)
    ensures IsRun(cfg, run + [sys])
  {
    var longer := run + [sys];
    forall k ensures StepAt(cfg, longer, k) { assert StepAt(cfg, run, k); }
  }

  /** The system after node `i` has reached `sent` and its epoch state `s`. */
  ghost function Moved(sys: System, i: Address, sent: Sent, s: EpochState): System {
    System(sys.nodes[i := sent.core], sys.signed + Emitted(sent.vote), sys.epochs[i := s])
  }

  /** An event that is possible at a node extends the run. */
  lemma Extend(cfg: Config, run: seq<System>, i: Address, e: Event, s: EpochState) returns (longer: seq<System>)
    requires IsRun(cfg, run) && i in Last(run).nodes && i in Last(run).epochs && Loaded(Last(run).nodes[i])
    requires Possible(cfg, Last(run).signed, i, Last(run).nodes[i], e)
    requires EpochReacts(cfg, i, Last(run).nodes[i], Last(run).epochs[i], s, e)
    ensures IsRun(cfg, longer) && longer == run + [Moved(Last(run), i, React(cfg, i, Last(run).nodes[i], e), s)]
    ensures StepOf(cfg, Last(run), Last(longer), i, e)
  {
    var sys := Moved(Last(run), i, React(cfg, i, Last(run).nodes[i], e), s);
    longer := run + [sys];
    assert StepOf(cfg, Last(run), sys, i, e);
    RunExtends(cfg, run, sys);
  }

  // ---- One event each ----

  ghost predicate AtNode(cfg: Config, run: seq<System>, i: Address, c: Core) {
    IsRun(cfg, run) && i in Last(run).nodes && i in Last(run).epochs && Last(run).nodes[i] == c && Loaded(c)
  }

  lemma DeliverStep(cfg: Config, run: seq<System>, i: Address, c: Core, b: Block) returns (longer: seq<System>)
    requires AtNode(cfg, run, i, c) && b.hash !in c.chain.store
    requires Genuine(cfg.bl, b) && UnforgedVotes(cfg, Last(run).signed, b.hcc.votes)
    ensures IsRun(cfg, longer)
    ensures longer == run + [Last(run).(nodes := Last(run).nodes[i := c.(chain := AddBlock(c.chain, b))])]
  {
    var sys := Last(run);
    longer := Extend(cfg, run, i, Deliver(b), sys.epochs[i]);
    assert sys.signed + {} == sys.signed && sys.epochs[i := sys.epochs[i]] == sys.epochs;
  }

  lemma HearStep(cfg: Config, run: seq<System>, i: Address, c: Core, v: Vote, s: EpochState)
    returns (longer: seq<System>)
    requires AtNode(cfg, run, i, c) && Unforged(cfg, Last(run).signed, v)
    requires EpochStep(cfg.vals, Last(run).epochs[i], s, v)
    ensures IsRun(cfg, longer)
    ensures longer == run + [Last(run).(nodes := Last(run).nodes[i := ReceiveVote(c, cfg.vals, v)],
                                        epochs := Last(run).epochs[i := s])]
  {
    longer := Extend(cfg, run, i, Hear(v), s);
    assert Last(run).signed + {} == Last(run).signed;
  }

  /** A block is validated and accepted without a vote, and leaves the epoch state as it was. */
  lemma ProcessStep(cfg: Config, run: seq<System>, i: Address, c: Core, h: Hash, listed: seq<Vote>, c': Core)
    returns (longer: seq<System>)
    requires AtNode(cfg, run, i, c) && Replays(c, EnvOf(cfg, i), h) && Enumerates(cfg.bl(h).hcc.votes, listed)
    requires HandleBlock(c, EnvOf(cfg, i), h, listed, Applies(false), None) == Handled(c', None)
    requires EpochSteps(cfg.vals, Last(run).epochs[i], Last(run).epochs[i], listed)
    ensures IsRun(cfg, longer) && longer == run + [Last(run).(nodes := Last(run).nodes[i := c'])]
  {
    var sys := Last(run);
    longer := Extend(cfg, run, i, Process(h, listed, Applies(false), None), sys.epochs[i]);
    assert sys.signed + {} == sys.signed && sys.epochs[i := sys.epochs[i]] == sys.epochs;
  }

  lemma VoteStep(cfg: Config, run: seq<System>, i: Address, c: Core, ballot: Ballot, c': Core, v: Vote)
    returns (longer: seq<System>)
    requires AtNode(cfg, run, i, c) && IsTip(c, true, ballot.tip) && ballot.epoch == Last(run).epochs[i].epoch
    requires CastVote(c, EnvOf(cfg, i), ballot) == Sent(c', Some(v)) && v.signature.Some?
    ensures IsRun(cfg, longer)
    ensures longer == run + [Last(run).(nodes := Last(run).nodes[i := c'],
                                        signed := Last(run).signed + {v.signature.value})]
  {
    var sys := Last(run);
    longer := Extend(cfg, run, i, VoteTimer(ballot), sys.epochs[i]);
    assert sys.epochs[i := sys.epochs[i]] == sys.epochs;
  }

  lemma LastIsOK(cfg: Config, run: seq<System>, i: Address)
    requires ConfigOK(cfg) && IsRun(cfg, run) && i in Last(run).nodes
    ensures NodeOK(cfg.bl, cfg.root, Last(run).nodes[i])
  {
    RunKeeps(cfg, run, |run| - 1);
    assert HonestAt(cfg, Last(run), i);
  }
}
