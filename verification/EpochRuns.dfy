/** How the epochs of honest nodes move along runs (consensus/engine.go, handleVote). */
module EpochRuns {
  import opened Options
  import opened Validators
  import opened Votes
  import opened Blocks
  import opened Consensus
  import opened NodeInvariant
  import opened Epochs
  import opened Safety
  import opened Agreement

  /** Every vote that a node has recorded verifies and was signed by whom it names. */
  ghost predicate EpochSafe(cfg: Config, signed: set<Signature>, s: EpochState) {
    s.epoch < EPOCHS && forall k :: k in s.votes ==> ValidVote(s.votes[k]) && Unforged(cfg, signed, s.votes[k])
  }

  /** All honest signatures are of epoch `top` or an earlier one. */
  ghost predicate SignedUpTo(signed: set<Signature>, top: nat) {
    forall g :: g in signed ==> g.bytes.epoch <= top
  }

  /** A majority of votes of an epoch or later contains an honest one. */
  lemma HonestVoteSince(cfg: Config, signed: set<Signature>, s: EpochState, epoch: nat) returns (g: Signature)
    requires ConfigOK(cfg) && EpochSafe(cfg, signed, s) && Majority(cfg.vals, VotersSince(s.votes, epoch))
    ensures g in signed && g.bytes.epoch >= epoch
  {
    var who := HonestMember(cfg.vals, VotersSince(s.votes, epoch), cfg.faulty);
    var k :| k in s.votes && s.votes[k].epoch >= epoch && s.votes[k].id == who;
    g := s.votes[k].signature.value;
  }

  // ---- One step ----

  lemma StepIsSafe(cfg: Config, signed: set<Signature>, s: EpochState, s': EpochState, v: Vote)
    requires EpochSafe(cfg, signed, s) && EpochStep(cfg.vals, s, s', v) && Unforged(cfg, signed, v)
    ensures EpochSafe(cfg, signed, s')
  {
    if ValidVote(v) {
      forall k | k in s'.votes ensures ValidVote(s'.votes[k]) && Unforged(cfg, signed, s'.votes[k]) {
        assert s'.votes[k] == Put(s.votes, v)[k];
      }
    }
  }

  /** One vote takes the epoch up, at most one past an honest vote, or leaves it. */
  lemma StepGoesForward(cfg: Config, signed: set<Signature>, s: EpochState, s': EpochState, v: Vote, top: nat)
    requires ConfigOK(cfg) && EpochSafe(cfg, signed, s) && EpochStep(cfg.vals, s, s', v) && Unforged(cfg, signed, v)
    requires SignedUpTo(signed, top) && top + 1 < EPOCHS
    ensures s'.epoch == s.epoch || s.epoch < s'.epoch <= top + 1
  {
    StepIsSafe(cfg, signed, s, s', v);
    if s'.epoch != s.epoch {
      var g := HonestVoteSince(cfg, signed, s', v.epoch);
    }
  }

  /** One vote takes the epoch back exactly when it is of the last 64-bit epoch and completes a majority there,
      and then an honest node has signed in that epoch. */
  lemma StepGoesBack(cfg: Config, signed: set<Signature>, s: EpochState, s': EpochState, v: Vote)
    requires ConfigOK(cfg) && EpochSafe(cfg, signed, s) && EpochStep(cfg.vals, s, s', v) && Unforged(cfg, signed, v)
    requires v.epoch < EPOCHS
    ensures s'.epoch < s.epoch <==>
              && ValidVote(v) && v.epoch == EPOCHS - 1 && s.epoch > 0
              && Majority(cfg.vals, VotersSince(s'.votes, EPOCHS - 1))
    ensures s'.epoch < s.epoch ==> exists g :: g in signed && g.bytes.epoch >= EPOCHS - 1
  {
    StepIsSafe(cfg, signed, s, s', v);
    if s'.epoch < s.epoch {
      var g := HonestVoteSince(cfg, signed, s', EPOCHS - 1);
    }
  }

  lemma {:induction false} StepsGoForward(
    cfg: Config, signed: set<Signature>, s: EpochState, s': EpochState, votes: seq<Vote>, top: nat)
    requires ConfigOK(cfg) && EpochSafe(cfg, signed, s) && EpochSteps(cfg.vals, s, s', votes)
    requires forall v :: v in votes ==> Unforged(cfg, signed, v)
    ensures EpochSafe(cfg, signed, s')
    ensures SignedUpTo(signed, top) && top + 1 < EPOCHS ==> s'.epoch == s.epoch || s.epoch < s'.epoch <= top + 1
    decreases |votes|
  {
    if votes != [] {
      var next :| EpochStep(cfg.vals, s, next, votes[0]) && EpochSteps(cfg.vals, next, s', votes[1..]);
      StepIsSafe(cfg, signed, s, next, votes[0]);
      StepsGoForward(cfg, signed, next, s', votes[1..], top);
      if SignedUpTo(signed, top) && top + 1 < EPOCHS {
        StepGoesForward(cfg, signed, s, next, votes[0], top);
      }
    }
  }

  // ---- One event ----

  lemma ReplayedUnforged(cfg: Config, signed: set<Signature>, i: Address, c: Core, h: Hash, listed: seq<Vote>)
    requires NodeSafe(cfg, signed, c) && Replays(c, EnvOf(cfg, i), h) && Enumerates(cfg.bl(h).hcc.votes, listed)
    ensures forall v :: v in listed ==> Unforged(cfg, signed, v)
  {
    assert VotesUnforged(cfg, signed, c, h);
    ListedUnforged(cfg, signed, cfg.bl(h).hcc.votes, listed);
  }

  lemma EventGoesForward(
    cfg: Config, signed: set<Signature>, i: Address, c: Core, s: EpochState, s': EpochState, e: Event, top: nat)
    requires ConfigOK(cfg) && NodeSafe(cfg, signed, c) && Possible(cfg, signed, i, c, e)
    requires EpochSafe(cfg, signed, s) && EpochReacts(cfg, i, c, s, s', e)
    ensures EpochSafe(cfg, signed, s')
    ensures SignedUpTo(signed, top) && top + 1 < EPOCHS ==> s'.epoch == s.epoch || s.epoch < s'.epoch <= top + 1
  {
    match e {
      case Hear(v) =>
        StepIsSafe(cfg, signed, s, s', v);
        if SignedUpTo(signed, top) && top + 1 < EPOCHS { StepGoesForward(cfg, signed, s, s', v, top); }
      case Process(h, listed, answer, ballot) =>
        if Replays(c, EnvOf(cfg, i), h) {
          ReplayedUnforged(cfg, signed, i, c, h, listed);
          StepsGoForward(cfg, signed, s, s', listed, top);
        }
      case _ =>
    }
  }

  /** What a node signs is of the epoch that it is in afterwards. */
  lemma SignedAtEpoch(cfg: Config, i: Address, c: Core, s: EpochState, s': EpochState, e: Event)
    requires Loaded(c) && EpochReacts(cfg, i, c, s, s', e)
    ensures forall g :: g in Emitted(React(cfg, i, c, e).vote) ==> g.bytes.epoch == s'.epoch
  {}

  // ---- Runs ----

  ghost predicate EpochsOK(cfg: Config, sys: System) {
    && sys.epochs.Keys == sys.nodes.Keys
    && (forall i :: i in sys.epochs ==> EpochSafe(cfg, sys.signed, sys.epochs[i]))
    && (forall g :: g in sys.signed ==> g.bytes.epoch < EPOCHS)
  }

  lemma EpochSafeMonotone(cfg: Config, a: set<Signature>, b: set<Signature>, s: EpochState)
    requires EpochSafe(cfg, a, s) && a <= b
    ensures EpochSafe(cfg, b, s)
  {}

  lemma StepKeepsEpochs(cfg: Config, sys: System, sys': System, i: Address, e: Event)
    requires ConfigOK(cfg) && SystemOK(cfg, sys) && EpochsOK(cfg, sys) && StepOf(cfg, sys, sys', i, e)
    ensures EpochsOK(cfg, sys')
  {
    assert HonestAt(cfg, sys, i);
    EventGoesForward(cfg, sys.signed, i, sys.nodes[i], sys.epochs[i], sys'.epochs[i], e, 0);
    SignedAtEpoch(cfg, i, sys.nodes[i], sys.epochs[i], sys'.epochs[i], e);
    forall j | j in sys'.epochs ensures EpochSafe(cfg, sys'.signed, sys'.epochs[j]) {
      EpochSafeMonotone(cfg, sys.signed, sys'.signed, sys'.epochs[j]);
    }
  }

  lemma StepInRun(cfg: Config, run: seq<System>, k: nat) returns (i: Address, e: Event)
    requires IsRun(cfg, run) && k + 1 < |run|
    ensures StepOf(cfg, run[k], run[k + 1], i, e)
  {
    assert StepAt(cfg, run, k);
    i, e :| StepOf(cfg, run[k], run[k + 1], i, e);
  }

  lemma StartEpochs(cfg: Config, sys: System)
    requires ConfigOK(cfg) && Start(cfg, sys)
    ensures EpochsOK(cfg, sys) && EpochsUpTo(sys, cfg.bl(cfg.root).epoch)
  {}

  lemma {:induction false} EpochsInRun(cfg: Config, run: seq<System>, k: nat)
    requires ConfigOK(cfg) && IsRun(cfg, run) && k < |run|
    ensures EpochsOK(cfg, run[k])
  {
    if k == 0 {
      StartEpochs(cfg, run[0]);
    } else {
      EpochsInRun(cfg, run, k - 1);
      RunKeeps(cfg, run, k - 1);
      var i, e := StepInRun(cfg, run, k - 1);
      StepKeepsEpochs(cfg, run[k - 1], run[k], i, e);
    }
  }

  /** In every run, as long as all honest votes are of epoch `top` or earlier and `top` is not the last epoch,
      a step takes the epoch of a node up, at most one past `top`, or leaves it. */
  lemma RunEpochStep(cfg: Config, run: seq<System>, k: nat, i: Address, top: nat)
    requires ConfigOK(cfg) && IsRun(cfg, run) && k + 1 < |run| && i in run[k].nodes
    requires SignedUpTo(run[k].signed, top) && top + 1 < EPOCHS
    ensures i in run[k].epochs && i in run[k + 1].epochs
    ensures var before, after := run[k].epochs[i].epoch, run[k + 1].epochs[i].epoch;
            after == before || before < after <= top + 1
  {
    EpochsInRun(cfg, run, k);
    RunKeeps(cfg, run, k);
    var j, e := StepInRun(cfg, run, k);
    assert HonestAt(cfg, run[k], j);
    EventGoesForward(cfg, run[k].signed, j, run[k].nodes[j], run[k].epochs[j], run[k + 1].epochs[j], e, top);
  }

  /** In every run in which no honest vote of the last 64-bit epoch has been signed, no epoch ever goes back. */
  lemma {:induction false} RunEpochNeverBack(cfg: Config, run: seq<System>, k: nat, l: nat, i: Address)
    requires ConfigOK(cfg) && IsRun(cfg, run) && k <= l < |run| && i in run[k].nodes
    requires forall g :: g in run[l].signed ==> g.bytes.epoch != EPOCHS - 1
    ensures i in run[k].epochs && i in run[l].epochs && run[k].epochs[i].epoch <= run[l].epochs[i].epoch
    decreases l - k
  {
    EpochsInRun(cfg, run, k);
    if k < l {
      SignaturesStay(cfg, run, l - 1, l);
      RunEpochNeverBack(cfg, run, k, l - 1, i);
      EpochsInRun(cfg, run, l - 1);
      RunEpochStep(cfg, run, l - 1, i, EPOCHS - 2);
    }
  }

  /** All nodes and all honest signatures are of epoch `top` or an earlier one. */
  ghost predicate EpochsUpTo(sys: System, top: nat) {
    (forall i :: i in sys.epochs ==> sys.epochs[i].epoch <= top) && SignedUpTo(sys.signed, top)
  }

  lemma StepKeepsBound(cfg: Config, sys: System, sys': System, i: Address, e: Event, top: nat)
    requires ConfigOK(cfg) && SystemOK(cfg, sys) && EpochsOK(cfg, sys) && StepOf(cfg, sys, sys', i, e)
    requires EpochsUpTo(sys, top) && top + 1 < EPOCHS
    ensures EpochsUpTo(sys', top + 1)
  {
    assert HonestAt(cfg, sys, i);
    EventGoesForward(cfg, sys.signed, i, sys.nodes[i], sys.epochs[i], sys'.epochs[i], e, top);
    SignedAtEpoch(cfg, i, sys.nodes[i], sys.epochs[i], sys'.epochs[i], e);
  }

  /** The epochs of all nodes and votes start at the root's and rise by at most one in a step. */
  lemma {:induction false} RunEpochBound(cfg: Config, run: seq<System>, k: nat)
    requires ConfigOK(cfg) && IsRun(cfg, run) && k < |run| && cfg.bl(cfg.root).epoch + k < EPOCHS
    ensures EpochsUpTo(run[k], cfg.bl(cfg.root).epoch + k)
  {
    if k == 0 {
      StartEpochs(cfg, run[0]);
    } else {
      var i, e := StepInRun(cfg, run, k - 1);
      RunEpochBound(cfg, run, k - 1);
      EpochsInRun(cfg, run, k - 1);
      RunKeeps(cfg, run, k - 1);
      StepKeepsBound(cfg, run[k - 1], run[k], i, e, cfg.bl(cfg.root).epoch + (k - 1));
    }
  }

  /** So within 2^64 - 1 steps of the root's epoch no epoch goes back, whatever the faulty validators do. */
  lemma ShortRunsGoForward(cfg: Config, run: seq<System>, k: nat, l: nat, i: Address)
    requires ConfigOK(cfg) && IsRun(cfg, run) && k <= l < |run| && i in run[k].nodes
    requires cfg.bl(cfg.root).epoch + l < EPOCHS - 1
    ensures i in run[k].epochs && i in run[l].epochs && run[k].epochs[i].epoch <= run[l].epochs[i].epoch
  {
    RunEpochBound(cfg, run, l);
    RunEpochNeverBack(cfg, run, k, l, i);
  }
}
