/** Which blocks a node validates (consensus/engine.go, validateBlock; core/vote.go, CommitCertificate.IsValid). */
module Validation {
  import opened Options
  import opened Validators
  import opened Votes
  import opened Blocks
  import opened ChainIndexes
  import opened Consensus
  import opened NodeInvariant
  import opened Safety
  import opened Proposals
  import opened Agreement

  // ---- The rules ----

  /** No more votes than validators, one for each voter, every one signed for the block, and the voters hold more
      than two thirds of the stake. */
  ghost predicate Proves(votes: VoteMap, h: Hash, vals: seq<Validator>) {
    && 0 < |votes| <= |vals|
    && (forall j, k :: j in votes && k in votes && j != k ==> votes[j].id != votes[k].id)
    && (forall k :: k in votes ==>
          && h != EMPTY_HASH && votes[k].block == h && votes[k].id != EMPTY_ADDRESS
          && votes[k].signature == Some(Signature(votes[k].id, SignBytes(h, votes[k].epoch, votes[k].id))))
    && 3 * StakeOf(vals, set k | k in votes :: votes[k].id) > 2 * StakeOf(vals, Addresses(vals))
  }

  ghost predicate Flagged(store: Store, h: Hash) {
    h in store && store[h].status.IsValid() && store[h].hasValidatorUpdate
  }

  /** The block is the next one above its parent, by the scheduled proposer, in a later epoch and at a later time. */
  ghost predicate Follows(bl: BlockTable, proposer: (Hash, nat) -> Address, h: Hash) {
    var b, p := bl(h), bl(bl(h).parent);
    && b.height == p.height + 1 && b.epoch > p.epoch && b.timestamp >= p.timestamp + 1
    && b.proposer == proposer(b.parent, b.epoch)
  }

  /** It names a validated ancestor less than 2000 blocks below as certified: its parent, if the parent or the
      grandparent changes the validators. That ancestor is finalized or the certificate proves it. */
  ghost predicate NamesCertified(bl: BlockTable, vals: seq<Validator>, store: Store, h: Hash) {
    var b, q := bl(h), bl(h).hcc.blockHash;
    && q in store && store[q].status.IsValid() && q != h && Anc(bl, q, h) && b.height - bl(q).height < 2000
    && (Flagged(store, b.parent) || Flagged(store, bl(b.parent).parent) ==> q == b.parent)
    && (store[q].status.IsFinalized() || Proves(b.hcc.votes, q, vals))
  }

  lemma CertificateProves(cc: CommitCertificate, vals: seq<Validator>)
    ensures ValidCertificate(cc, vals) <==> Proves(cc.votes, cc.blockHash, vals)
  {
    assert Voters(cc.votes) == set k | k in cc.votes :: cc.votes[k].id;
  }

  // ---- Validation decides by them ----

  /** The certified block is found from a block below a validated parent exactly when it is near enough. */
  lemma ReachFromParent(bl: BlockTable, root: Hash, s: Store, h: Hash, q: Hash)
    requires StoreOK(bl, root, s) && StatusClosed(bl, root, s) && h in s && h != q
    requires bl(h).parent in s && s[bl(h).parent].status.IsValid() && bl(h).height == bl(bl(h).parent).height + 1
    ensures WithinDistance(s, q, h, MAX_DISTANCE) && q in s <==>
              q in s && s[q].status.IsValid() && Anc(bl, q, h) && bl(h).height - bl(q).height < 2000
  {
    var p := bl(h).parent;
    if WithinDistance(s, q, h, MAX_DISTANCE) && q in s {
      var k: nat :| k < MAX_DISTANCE && ParentAt(s, h, k) == Some(q);
      assert k > 0 && ParentAt(s, h, k) == ParentAt(s, p, k - 1);
      WalkFindsAncestor(bl, root, s, p, k - 1, q);
      WalkDistance(bl, root, s, p, k - 1, q);
    }
    if q in s && s[q].status.IsValid() && Anc(bl, q, h) && bl(h).height - bl(q).height < 2000 {
      WalkExists(bl, root, s, p, q);
      var k := bl(p).height - bl(q).height;
      assert ParentAt(s, h, k + 1) == ParentAt(s, p, k);
    }
  }

  /** A pending block gets Ok exactly when it is above the last finalized block, its parent is validated and it
      keeps the rules. Only a pending parent of a block that is right so far is waited for. */
  lemma ValidateExactly(bl: BlockTable, root: Hash, c: Core, env: Env, h: Hash)
    requires NodeOK(bl, root, c) && h in c.chain.store && StatusOf(c, h) == Pending && bl(h).parent in c.chain.store
    ensures Validate(c, env, h) == Ok <==>
              && bl(h).height > bl(c.lfb).height && StatusOf(c, bl(h).parent).IsValid()
              && Follows(bl, env.proposer, h) && NamesCertified(bl, env.vals, c.chain.store, h)
    ensures Validate(c, env, h) == ParentPending <==>
              && bl(h).height > bl(c.lfb).height && StatusOf(c, bl(h).parent) == Pending
              && bl(h).height == bl(bl(h).parent).height + 1 && bl(h).epoch > bl(bl(h).parent).epoch
              && bl(h).timestamp >= bl(bl(h).parent).timestamp + 1
  {
    var s, p, q := c.chain.store, bl(h).parent, bl(h).hcc.blockHash;
    assert CertificateOK(bl, root, s, h) && h != root;
    CertificateProves(bl(h).hcc, env.vals);
    assert HangsBelowValid(bl, root, s, p);
    if s[p].status.IsValid() && bl(h).height == bl(p).height + 1 { ReachFromParent(bl, root, s, h, q); }
  }

  // ---- In every run ----

  /** A validated block keeps the rules. */
  ghost predicate OrderlyAt(cfg: Config, store: Store, h: Hash) {
    h in store && store[h].status.IsValid() && h != cfg.root ==>
      Follows(cfg.bl, cfg.proposer, h) && NamesCertified(cfg.bl, cfg.vals, store, h)
  }

  ghost predicate Orderly(cfg: Config, store: Store) {
    forall h :: OrderlyAt(cfg, store, h)
  }

  /** Validated blocks stay validated with their flags, and finalized ones finalized. */
  ghost predicate KeepsValidated(s: Store, s': Store) {
    forall x :: x in s && s[x].status.IsValid() ==>
      && x in s' && s'[x].status.IsValid() && s'[x].hasValidatorUpdate == s[x].hasValidatorUpdate
      && (s[x].status.IsFinalized() ==> s'[x].status.IsFinalized())
  }

  /** ... and at most `added` is validated besides them. */
  ghost predicate ValidatesOnly(s: Store, s': Store, added: Hash) {
    forall x :: x in s' && s'[x].status.IsValid() && x != added ==> x in s && s[x].status.IsValid()
  }

  lemma RulesStay(cfg: Config, s: Store, s': Store, h: Hash)
    requires StatusClosed(cfg.bl, cfg.root, s) && StoreOK(cfg.bl, cfg.root, s') && KeepsValidated(s, s')
    requires cfg.bl(cfg.root).parent == EMPTY_HASH
    requires cfg.bl(h).parent in s && s[cfg.bl(h).parent].status.IsValid()
    requires NamesCertified(cfg.bl, cfg.vals, s, h)
    ensures NamesCertified(cfg.bl, cfg.vals, s', h)
  {
    assert HangsBelowValid(cfg.bl, cfg.root, s, cfg.bl(h).parent);
  }

  lemma OrderlyStays(cfg: Config, s: Store, s': Store, added: Hash)
    requires StatusClosed(cfg.bl, cfg.root, s) && StoreOK(cfg.bl, cfg.root, s') && KeepsValidated(s, s')
    requires Orderly(cfg, s) && ValidatesOnly(s, s', added) && OrderlyAt(cfg, s', added)
    ensures Orderly(cfg, s')
  {
    forall x: Hash ensures OrderlyAt(cfg, s', x) {
      assert OrderlyAt(cfg, s, x);
      if x in s' && s'[x].status.IsValid() && x != added && x != cfg.root {
        assert HangsBelowValid(cfg.bl, cfg.root, s, x);
        RulesStay(cfg, s, s', x);
      }
    }
  }

  lemma CheckKeepsValidated(cfg: Config, c: Core, h: Hash)
    requires SpineOK(cfg.bl, cfg.root, c)
    ensures var s' := CheckCC(c, cfg.vals, h).chain.store;
            KeepsValidated(c.chain.store, s') && ValidatesOnly(c.chain.store, s', cfg.root)
  {
    CheckCCAdvances(cfg.bl, cfg.root, c, cfg.vals, h);
    AdvanceKeepsValidated(c.chain.store, CheckCC(c, cfg.vals, h).chain.store, cfg.root);
  }

  lemma AdvanceKeepsValidated(s: Store, s': Store, root: Hash)
    requires ValidatedAdvance(s, s')
    ensures KeepsValidated(s, s') && ValidatesOnly(s, s', root)
  {}

  /** Nothing new is validated by a certificate check, a delivery or a rejection. */
  lemma CheckKeepsOrder(cfg: Config, c: Core, h: Hash)
    requires NodeOK(cfg.bl, cfg.root, c) && Orderly(cfg, c.chain.store)
    ensures var s' := CheckCC(c, cfg.vals, h).chain.store;
            Orderly(cfg, s') && KeepsValidated(c.chain.store, s') && ValidatesOnly(c.chain.store, s', cfg.root)
  {
    CheckCCKeeps(cfg.bl, cfg.root, c, cfg.vals, h);
    CheckKeepsValidated(cfg, c, h);
    OrderlyStays(cfg, c.chain.store, CheckCC(c, cfg.vals, h).chain.store, cfg.root);
  }

  lemma ReplayKeepsOrder(cfg: Config, c: Core, b: Block, listed: seq<Vote>)
    requires NodeOK(cfg.bl, cfg.root, c) && Orderly(cfg, c.chain.store)
    ensures var s' := ReplayCertificate(c, cfg.vals, b, listed).chain.store;
            Orderly(cfg, s') && KeepsValidated(c.chain.store, s') && ValidatesOnly(c.chain.store, s', cfg.root)
  {
    AddVotesKeeps(cfg.bl, cfg.root, c, listed);
    CheckKeepsOrder(cfg, AddVotes(c, listed), b.hcc.blockHash);
  }

  lemma DeliveryKeepsOrder(cfg: Config, c: Core, b: Block)
    requires NodeOK(cfg.bl, cfg.root, c) && Orderly(cfg, c.chain.store)
    requires Genuine(cfg.bl, b) && b.hash !in c.chain.store
    ensures Orderly(cfg, AddBlock(c.chain, b).store)
  {
    AddBlockKeeps(cfg.bl, cfg.root, c, b);
    AddingExtends(c, b);
    OrderlyStays(cfg, c.chain.store, AddBlock(c.chain, b).store, cfg.root);
  }

  lemma RejectionKeepsOrder(cfg: Config, c: Core, h: Hash)
    requires NodeOK(cfg.bl, cfg.root, c) && Orderly(cfg, c.chain.store)
    requires h in c.chain.store && StatusOf(c, h) == Pending
    ensures Orderly(cfg, Mark(c, h, Invalid).chain.store)
  {
    RejectKeeps(cfg.bl, cfg.root, c, h);
    OrderlyStays(cfg, c.chain.store, Mark(c, h, Invalid).chain.store, cfg.root);
  }

  /** The block that is accepted was found to keep the rules, and still does. */
  lemma AcceptanceKeepsOrder(cfg: Config, c: Core, h: Hash, update: bool)
    requires NodeOK(cfg.bl, cfg.root, c) && Orderly(cfg, c.chain.store) && Acceptable(cfg.bl, c, h)
    requires Follows(cfg.bl, cfg.proposer, h) && NamesCertified(cfg.bl, cfg.vals, c.chain.store, h)
    ensures Orderly(cfg, Accept(c, h, update).chain.store)
  {
    AcceptKeeps(cfg.bl, cfg.root, c, h, update);
    var s' := Accept(c, h, update).chain.store;
    RulesStay(cfg, c.chain.store, s', h);
    OrderlyStays(cfg, c.chain.store, s', h);
  }

  lemma DecisionKeepsOrder(cfg: Config, i: Address, c: Core, h: Hash, answer: LedgerAnswer, ballot: Option<Ballot>)
    requires NodeOK(cfg.bl, cfg.root, c) && Orderly(cfg, c.chain.store) && Acceptable(cfg.bl, c, h)
    requires Follows(cfg.bl, cfg.proposer, h) && NamesCertified(cfg.bl, cfg.vals, c.chain.store, h)
    requires ballot.Some? && answer.Applies? ==>
               IsTip(Accept(c, h, answer.hasValidatorUpdate), true, ballot.value.tip)
    ensures Orderly(cfg, Decide(c, EnvOf(cfg, i), h, answer, ballot).core.chain.store)
  {
    match answer {
      case Applies(update) =>
        AcceptanceKeepsOrder(cfg, c, h, update);
        AcceptedBlockKeeps(cfg.bl, cfg.root, c, EnvOf(cfg, i), h, update, ballot);
        CheckKeepsOrder(cfg, Ballots(Accept(c, h, update), EnvOf(cfg, i), ballot).core, h);
      case Undecided =>
      case _ => RejectionKeepsOrder(cfg, c, h);
    }
  }

  lemma ProcessingKeepsOrder(cfg: Config, i: Address, c: Core, h: Hash, listed: seq<Vote>, answer: LedgerAnswer,
                             ballot: Option<Ballot>)
    requires NodeOK(cfg.bl, cfg.root, c) && Orderly(cfg, c.chain.store) && Replays(c, EnvOf(cfg, i), h)
    requires Enumerates(cfg.bl(h).hcc.votes, listed) && BallotFits(c, EnvOf(cfg, i), h, listed, answer, ballot)
    ensures var c2 := ReplayCertificate(c, cfg.vals, cfg.bl(h), listed);
            Orderly(cfg, Decide(c2, EnvOf(cfg, i), h, answer, ballot).core.chain.store)
  {
    var c2 := ReplayCertificate(c, cfg.vals, cfg.bl(h), listed);
    ValidateExactly(cfg.bl, cfg.root, c, EnvOf(cfg, i), h);
    ReplayKeeps(cfg.bl, cfg.root, c, cfg.vals, cfg.bl(h), listed);
    ReplayKeepsOrder(cfg, c, cfg.bl(h), listed);
    RulesStay(cfg, c.chain.store, c2.chain.store, h);
    ReplayEstablishesLock(cfg.bl, cfg.root, c, EnvOf(cfg, i), h, listed);
    DecisionKeepsOrder(cfg, i, c2, h, answer, ballot);
  }

  lemma HandlingKeepsOrder(cfg: Config, i: Address, c: Core, h: Hash, listed: seq<Vote>, answer: LedgerAnswer,
                           ballot: Option<Ballot>)
    requires NodeOK(cfg.bl, cfg.root, c) && Orderly(cfg, c.chain.store) && h in c.chain.store
    requires Enumerates(cfg.bl(h).hcc.votes, listed) && BallotFits(c, EnvOf(cfg, i), h, listed, answer, ballot)
    ensures var o := HandleBlock(c, EnvOf(cfg, i), h, listed, answer, ballot);
            o.Fatal? || Orderly(cfg, o.core.chain.store)
  {
    if HandleBlock(c, EnvOf(cfg, i), h, listed, answer, ballot).Handled? {
      HandleBlockCases(c, EnvOf(cfg, i), h, listed, answer, ballot);
      if StatusOf(c, h) == Pending {
        if Validate(c, EnvOf(cfg, i), h) == Rejected {
          RejectionKeepsOrder(cfg, c, h);
        } else {
          ProcessingKeepsOrder(cfg, i, c, h, listed, answer, ballot);
        }
      }
    }
  }

  lemma EventKeepsOrder(cfg: Config, signed: set<Signature>, i: Address, c: Core, e: Event)
    requires NodeOK(cfg.bl, cfg.root, c) && Orderly(cfg, c.chain.store) && Possible(cfg, signed, i, c, e)
    ensures Orderly(cfg, React(cfg, i, c, e).core.chain.store)
  {
    match e {
      case Deliver(b) => if b.hash !in c.chain.store { DeliveryKeepsOrder(cfg, c, b); }
      case Hear(v) =>
        AddVoteKeeps(cfg.bl, cfg.root, c, v);
        CheckKeepsOrder(cfg, AddVote(c, v), v.block);
      case Process(h, listed, answer, ballot) =>
        if h in c.chain.store { HandlingKeepsOrder(cfg, i, c, h, listed, answer, ballot); }
      case VoteTimer(ballot) =>
      case Restart =>
    }
  }

  lemma StepKeepsOrder(cfg: Config, sys: System, sys': System, j: Address, e: Event, i: Address)
    requires SystemOK(cfg, sys) && StepOf(cfg, sys, sys', j, e) && i in sys.nodes
    requires Orderly(cfg, sys.nodes[i].chain.store)
    ensures i in sys'.nodes && Orderly(cfg, sys'.nodes[i].chain.store)
  {
    assert HonestAt(cfg, sys, j);
    if i == j { EventKeepsOrder(cfg, sys.signed, j, sys.nodes[j], e); }
  }

  lemma {:induction false} RunOrderly(cfg: Config, run: seq<System>, k: nat, i: Address)
    requires ConfigOK(cfg) && IsRun(cfg, run) && k < |run| && i in run[k].nodes
    ensures Orderly(cfg, run[k].nodes[i].chain.store)
  {
    if k == 0 {
      StartChain(cfg.bl, cfg.root);
    } else {
      var j, e := StepBefore(cfg, run, k, i);
      RunOrderly(cfg, run, k - 1, i);
      RunKeeps(cfg, run, k - 1);
      StepKeepsOrder(cfg, run[k - 1], run[k], j, e, i);
    }
  }

  /** In every run, every validated block of every honest node, other than the root, is by the scheduled proposer of
      its parent and epoch, is above, later and of a later epoch than its parent, and names a validated ancestor that
      is finalized or proved by its certificate: the parent, if the parent or the grandparent changes the validators. */
  lemma RunBlocksKeepRules(cfg: Config, run: seq<System>, k: nat, i: Address, h: Hash)
    requires ConfigOK(cfg) && IsRun(cfg, run) && k < |run| && i in run[k].nodes
    requires h in run[k].nodes[i].chain.store && StatusOf(run[k].nodes[i], h).IsValid() && h != cfg.root
    ensures var b := cfg.bl(h);
            var p := cfg.bl(b.parent);
            && b.proposer == cfg.proposer(b.parent, b.epoch)
            && b.height == p.height + 1 && b.epoch > p.epoch && b.timestamp >= p.timestamp + 1
    ensures NamesCertified(cfg.bl, cfg.vals, run[k].nodes[i].chain.store, h)
  {
    RunOrderly(cfg, run, k, i);
    assert OrderlyAt(cfg, run[k].nodes[i].chain.store, h);
  }
}
