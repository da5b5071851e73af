/** The promises of the protocol, over every run (consensus/engine.go). */
module Agreement {
  import opened Validators
  import opened Votes
  import opened Blocks
  import opened ChainIndexes
  import opened Consensus
  import opened NodeInvariant
  import opened Safety
  import opened Proposals

  lemma HonestSupporter(cfg: Config, sys: System, i: Address, h: Hash)
    requires SystemOK(cfg, sys) && i in Supporters(cfg, sys.signed, h) && i !in cfg.faulty
    ensures i in sys.nodes && VotedFor(sys.signed, i, h)
    ensures VoteKept(cfg, sys.nodes[i], h)
  {
    var g :| g in sys.signed && g.bytes.block == h && g.signer == i;
    assert HonestAt(cfg, sys, i);
    assert VotedFor(sys.signed, i, h);
  }

  /** A certified block is validated at some honest node. */
  lemma CertifiedIsValidated(cfg: Config, sys: System, h: Hash) returns (i: Address)
    requires ConfigOK(cfg) && SystemOK(cfg, sys) && Certified(cfg, sys.signed, h) && h != cfg.root
    ensures i in sys.nodes && h in sys.nodes[i].chain.store && sys.nodes[i].chain.store[h].status.IsValid()
  {
    i := HonestMember(cfg.vals, Supporters(cfg, sys.signed, h), cfg.faulty);
    HonestSupporter(cfg, sys, i, h);
  }

  /** Two certified blocks were signed by a common honest node. */
  lemma CommonVoter(cfg: Config, sys: System, b: Hash, c: Hash) returns (i: Address)
    requires ConfigOK(cfg) && SystemOK(cfg, sys)
    requires Certified(cfg, sys.signed, b) && Certified(cfg, sys.signed, c) && b != cfg.root && c != cfg.root
    ensures i in sys.nodes && VotedFor(sys.signed, i, b) && VotedFor(sys.signed, i, c)
  {
    i := HonestOverlap(cfg.vals, Supporters(cfg, sys.signed, b), Supporters(cfg, sys.signed, c), cfg.faulty);
    HonestSupporter(cfg, sys, i, b);
    HonestSupporter(cfg, sys, i, c);
  }

  lemma RootIsLowest(cfg: Config, sys: System, h: Hash)
    requires ConfigOK(cfg) && SystemOK(cfg, sys) && Certified(cfg, sys.signed, h)
    ensures cfg.bl(cfg.root).height <= cfg.bl(h).height
    ensures cfg.bl(cfg.root).height == cfg.bl(h).height ==> h == cfg.root
  {
    if h != cfg.root {
      var i := CertifiedIsValidated(cfg, sys, h);
      assert HonestAt(cfg, sys, i);
      RootHeight(cfg, sys.nodes[i], h);
    }
  }

  /** At most one block of a height is certified. */
  lemma OneCertificatePerHeight(cfg: Config, sys: System, b: Hash, c: Hash)
    requires ConfigOK(cfg) && SystemOK(cfg, sys)
    requires Certified(cfg, sys.signed, b) && Certified(cfg, sys.signed, c)
    requires cfg.bl(b).height == cfg.bl(c).height
    ensures b == c
  {
    RootIsLowest(cfg, sys, b);
    RootIsLowest(cfg, sys, c);
    if b != cfg.root && c != cfg.root {
      var i := CommonVoter(cfg, sys, b, c);
      assert HonestAt(cfg, sys, i);
      assert VotesOrdered(cfg, sys.signed, b, c);
    }
  }

  /** A node that signed for `b` and for a higher `c` signed `c` while locked at least as high as `b`. */
  lemma SignedWhileLocked(cfg: Config, signed: set<Signature>, i: Address, node: Core, b: Hash, c: Hash)
    requires Honest(cfg, signed, i, node) && VotedFor(signed, i, b) && VotedFor(signed, i, c)
    requires b != cfg.root && c != cfg.root && cfg.bl(b).height < cfg.bl(c).height
    ensures LockedOn(cfg, signed, b, c)
  {
    assert VotesOrdered(cfg, signed, b, c);
    assert VoteKept(cfg, node, c);
    assert LockHolds(cfg.bl, cfg.root, node.chain.store, node.hcc, c);
    assert CertificateOK(cfg.bl, cfg.root, node.chain.store, c);
    AncHeight(cfg.bl, cfg.bl(c).hcc.blockHash, c);
  }

  ghost predicate LockedOn(cfg: Config, signed: set<Signature>, b: Hash, c: Hash) {
    var q := cfg.bl(c).hcc.blockHash;
    && Certified(cfg, signed, q) && Anc(cfg.bl, q, c) && cfg.bl(q).height < cfg.bl(c).height
    && cfg.bl(cfg.bl(b).hcc.blockHash).height <= cfg.bl(q).height
  }

  lemma LaterVoteIsLocked(cfg: Config, sys: System, b: Hash, c: Hash)
    requires ConfigOK(cfg) && SystemOK(cfg, sys)
    requires Certified(cfg, sys.signed, b) && Certified(cfg, sys.signed, c) && b != cfg.root && c != cfg.root
    requires cfg.bl(b).height < cfg.bl(c).height
    ensures LockedOn(cfg, sys.signed, b, c)
  {
    var i := CommonVoter(cfg, sys, b, c);
    assert HonestAt(cfg, sys, i);
    SignedWhileLocked(cfg, sys.signed, i, sys.nodes[i], b, c);
  }

  /** Once a block is confirmed, every certified block of its height or higher descends from it. */
  lemma {:induction false} ConfirmedBlocksBranch(cfg: Config, sys: System, d: Hash, b: Hash, c: Hash)
    requires ConfigOK(cfg) && SystemOK(cfg, sys)
    requires Certified(cfg, sys.signed, d) && Confirms(cfg, sys.signed, b, d)
    requires Certified(cfg, sys.signed, c) && cfg.bl(c).height >= cfg.bl(d).height
    ensures Anc(cfg.bl, d, c)
    decreases cfg.bl(c).height
  {
    RootIsLowest(cfg, sys, d);
    if cfg.bl(c).height == cfg.bl(d).height {
      OneCertificatePerHeight(cfg, sys, c, d);
    } else if cfg.bl(c).height == cfg.bl(b).height {
      OneCertificatePerHeight(cfg, sys, c, b);
      assert Anc(cfg.bl, d, cfg.bl(b).parent);
    } else {
      LaterVoteIsLocked(cfg, sys, b, c);
      var q := cfg.bl(c).hcc.blockHash;
      ConfirmedBlocksBranch(cfg, sys, d, b, q);
      AncTrans(cfg.bl, d, q, c);
    }
  }

  ghost predicate OneBranch(cfg: Config, x: Hash, y: Hash) {
    Anc(cfg.bl, x, y) || Anc(cfg.bl, y, x)
  }

  lemma RootIsCommon(cfg: Config, sys: System, h: Hash)
    requires ConfigOK(cfg) && SystemOK(cfg, sys) && Certified(cfg, sys.signed, h)
    ensures Anc(cfg.bl, cfg.root, h)
  {
    if h != cfg.root {
      var i := CertifiedIsValidated(cfg, sys, h);
      assert HonestAt(cfg, sys, i);
      ValidBelowRoot(cfg.bl, cfg.root, sys.nodes[i].chain.store, h);
    }
  }

  lemma ConfirmedAgree(cfg: Config, sys: System, x: Hash, y: Hash)
    requires ConfigOK(cfg) && SystemOK(cfg, sys)
    requires Confirmed(cfg, sys.signed, x) && Confirmed(cfg, sys.signed, y)
    ensures OneBranch(cfg, x, y)
  {
    if x == cfg.root { RootIsCommon(cfg, sys, y); }
    else if y == cfg.root { RootIsCommon(cfg, sys, x); }
    else {
      var b :| Confirms(cfg, sys.signed, b, x);
      var c :| Confirms(cfg, sys.signed, c, y);
      if cfg.bl(x).height <= cfg.bl(y).height {
        ConfirmedBlocksBranch(cfg, sys, x, b, y);
      } else {
        ConfirmedBlocksBranch(cfg, sys, y, c, x);
      }
    }
  }

  ghost predicate FinalizedAt(c: Core, h: Hash) {
    h in c.chain.store && c.chain.store[h].status.IsFinalized()
  }

  /** Every finalized block is an ancestor of a directly finalized, hence confirmed, block. */
  lemma FinalizedBelowConfirmed(cfg: Config, sys: System, i: Address, x: Hash) returns (d: Hash)
    requires SystemOK(cfg, sys) && i in sys.nodes && FinalizedAt(sys.nodes[i], x)
    ensures Confirmed(cfg, sys.signed, d) && Anc(cfg.bl, x, d)
  {
    var store := sys.nodes[i].chain.store;
    assert HonestAt(cfg, sys, i);
    if store[x].status == DirectlyFinalized {
      d := x;
    } else {
      assert BelowDirect(cfg.bl, store, x);
      d :| d in store && store[d].status == DirectlyFinalized && Anc(cfg.bl, x, d);
    }
    assert DirectConfirmed(cfg, sys.signed, store, d);
  }

  lemma FinalizedAgree(cfg: Config, sys: System, i: Address, x: Hash, j: Address, y: Hash)
    requires ConfigOK(cfg) && SystemOK(cfg, sys) && i in sys.nodes && j in sys.nodes
    requires FinalizedAt(sys.nodes[i], x) && FinalizedAt(sys.nodes[j], y)
    ensures OneBranch(cfg, x, y)
  {
    var d := FinalizedBelowConfirmed(cfg, sys, i, x);
    var e := FinalizedBelowConfirmed(cfg, sys, j, y);
    ConfirmedAgree(cfg, sys, d, e);
    if Anc(cfg.bl, d, e) {
      AncTrans(cfg.bl, x, d, e);
      AncLinear(cfg.bl, x, y, e);
    } else {
      AncTrans(cfg.bl, y, e, d);
      AncLinear(cfg.bl, x, y, d);
    }
  }

  // ---- Over whole runs ----

  lemma ReactAdvances(cfg: Config, signed: set<Signature>, i: Address, c: Core, e: Event)
    requires Honest(cfg, signed, i, c) && Possible(cfg, signed, i, c, e)
    ensures Advances(cfg.bl, c, React(cfg, i, c, e).core)
  {
    match e {
      case Deliver(b) =>
        if b.hash !in c.chain.store { AddBlockChildren(c.chain, b); }
      case Hear(v) => ReceiveVoteKeeps(cfg.bl, cfg.root, c, cfg.vals, v);
      case Process(h, listed, answer, ballot) =>
        HandleBlockKeeps(cfg.bl, cfg.root, c, EnvOf(cfg, i), h, listed, answer, ballot);
      case VoteTimer(ballot) =>
      case Restart =>
    }
  }

  lemma StepOfAdvances(cfg: Config, sys: System, sys': System, i: Address, j: Address, e: Event)
    requires i in sys.nodes && StepOf(cfg, sys, sys', j, e) && Honest(cfg, sys.signed, j, sys.nodes[j])
    ensures i in sys'.nodes && sys.signed <= sys'.signed
    ensures Advances(cfg.bl, sys.nodes[i], sys'.nodes[i])
  {
    if i == j {
      ReactAdvances(cfg, sys.signed, j, sys.nodes[j], e);
    } else {
      assert sys'.nodes[i] == sys.nodes[i];
    }
  }

  lemma StepInRunAdvances(cfg: Config, run: seq<System>, k: nat, i: Address)
    requires ConfigOK(cfg) && IsRun(cfg, run) && k + 1 < |run| && i in run[k].nodes
    ensures i in run[k + 1].nodes && run[k].signed <= run[k + 1].signed
    ensures Advances(cfg.bl, run[k].nodes[i], run[k + 1].nodes[i])
  {
    RunKeeps(cfg, run, k);
    assert StepAt(cfg, run, k);
    var j, e :| StepOf(cfg, run[k], run[k + 1], j, e);
    assert HonestAt(cfg, run[k], j);
    StepOfAdvances(cfg, run[k], run[k + 1], i, j, e);
  }

  /** Along a run no node ever moves back: blocks and finalized statuses stay, the highest certified
      block does not get lower, a new last finalized block is strictly higher. */
  lemma {:induction false} RunAdvances(cfg: Config, run: seq<System>, k: nat, l: nat, i: Address)
    requires ConfigOK(cfg) && IsRun(cfg, run) && k <= l < |run| && i in run[k].nodes
    ensures i in run[l].nodes && Advances(cfg.bl, run[k].nodes[i], run[l].nodes[i])
    ensures run[k].signed <= run[l].signed
    decreases l - k
  {
    if k < l {
      RunAdvances(cfg, run, k, l - 1, i);
      StepInRunAdvances(cfg, run, l - 1, i);
      AdvancesTrans(cfg.bl, run[k].nodes[i], run[l - 1].nodes[i], run[l].nodes[i]);
    }
  }

  /** In every run, blocks finalized by any two honest nodes at any two times lie on one branch. */
  lemma RunAgreement(cfg: Config, run: seq<System>, k: nat, i: Address, x: Hash, l: nat, j: Address, y: Hash)
    requires ConfigOK(cfg) && IsRun(cfg, run) && k < |run| && l < |run|
    requires i in run[k].nodes && FinalizedAt(run[k].nodes[i], x)
    requires j in run[l].nodes && FinalizedAt(run[l].nodes[j], y)
    ensures OneBranch(cfg, x, y)
  {
    var last := |run| - 1;
    RunAdvances(cfg, run, k, last, i);
    RunAdvances(cfg, run, l, last, j);
    RunKeeps(cfg, run, last);
    FinalizedAgree(cfg, run[last], i, x, j, y);
  }

  /** Two finalized blocks of one height are the same block, whoever finalized them and when. */
  lemma RunOneBlockPerHeight(cfg: Config, run: seq<System>, k: nat, i: Address, x: Hash, l: nat, j: Address, y: Hash)
    requires ConfigOK(cfg) && IsRun(cfg, run) && k < |run| && l < |run|
    requires i in run[k].nodes && FinalizedAt(run[k].nodes[i], x)
    requires j in run[l].nodes && FinalizedAt(run[l].nodes[j], y)
    requires cfg.bl(x).height == cfg.bl(y).height
    ensures x == y
  {
    RunAgreement(cfg, run, k, i, x, l, j, y);
    if Anc(cfg.bl, x, y) { AncHeight(cfg.bl, x, y); } else { AncHeight(cfg.bl, y, x); }
  }

  /** In every run, an honest node never signs for two different blocks of one height, however often
      it repeats its vote or restarts. */
  lemma RunOneVotePerHeight(cfg: Config, run: seq<System>, k: nat, g: Signature, g': Signature)
    requires ConfigOK(cfg) && IsRun(cfg, run) && k < |run|
    requires g in run[k].signed && g' in run[k].signed && g.signer == g'.signer
    requires cfg.bl(g.bytes.block).height == cfg.bl(g'.bytes.block).height
    ensures g.bytes.block == g'.bytes.block
  {
    RunKeeps(cfg, run, k);
    assert HonestAt(cfg, run[k], g.signer);
    assert VotedFor(run[k].signed, g.signer, g.bytes.block) && VotedFor(run[k].signed, g.signer, g'.bytes.block);
    assert VotesOrdered(cfg, run[k].signed, g.bytes.block, g'.bytes.block);
  }

  lemma {:induction false} SignaturesStay(cfg: Config, run: seq<System>, k: nat, l: nat)
    requires IsRun(cfg, run) && k <= l < |run|
    ensures run[k].signed <= run[l].signed
    decreases l - k
  {
    if k < l {
      SignaturesStay(cfg, run, k, l - 1);
      assert StepAt(cfg, run, l - 1);
    }
  }

  /** In every run, at most one block of a height is ever certified. */
  lemma RunOneCertificatePerHeight(cfg: Config, run: seq<System>, k: nat, b: Hash, l: nat, c: Hash)
    requires ConfigOK(cfg) && IsRun(cfg, run) && k < |run| && l < |run|
    requires Certified(cfg, run[k].signed, b) && Certified(cfg, run[l].signed, c)
    requires cfg.bl(b).height == cfg.bl(c).height
    ensures b == c
  {
    var last := |run| - 1;
    SignaturesStay(cfg, run, k, last);
    SignaturesStay(cfg, run, l, last);
    RunKeeps(cfg, run, last);
    CertifiedMonotone(cfg, run[k].signed, run[last].signed, b);
    CertifiedMonotone(cfg, run[l].signed, run[last].signed, c);
    OneCertificatePerHeight(cfg, run[last], b, c);
  }

  /** In every run, a transaction of a finalized block is found, now and ever after, through an index
      entry that names a finalized block holding it. */
  lemma RunTxFinality(cfg: Config, run: seq<System>, k: nat, l: nat, i: Address, h: Hash, t: RawTx)
    requires ConfigOK(cfg) && IsRun(cfg, run) && k <= l < |run| && i in run[k].nodes
    requires FinalizedAt(run[k].nodes[i], h) && t in run[k].nodes[i].chain.store[h].block.txs
    ensures i in run[l].nodes && FinalEntry(run[l].nodes[i].chain, t)
  {
    RunAdvances(cfg, run, k, l, i);
    RunKeeps(cfg, run, k);
    RunKeeps(cfg, run, l);
    assert HonestAt(cfg, run[k], i) && HonestAt(cfg, run[l], i);
    var ch := run[l].nodes[i].chain;
    assert ch.store[h].block == cfg.bl(h);
    assert InFinalized(ch, t);
    assert TxOK(ch, t);
  }

  // ---- The highest certified block ----

  lemma BackedReact(cfg: Config, signed: set<Signature>, i: Address, c: Core, e: Event)
    requires Honest(cfg, signed, i, c) && Possible(cfg, signed, i, c, e) && Backed(c, cfg.vals)
    ensures Backed(React(cfg, i, c, e).core, cfg.vals)
  {
    match e {
      case Deliver(b) =>
        if b.hash !in c.chain.store {
          AddBlockChildren(c.chain, b);
          BackedSame(c, React(cfg, i, c, e).core, cfg.vals);
        }
      case Hear(v) =>
        BackedAddVotes(cfg.bl, cfg.root, c, cfg.vals, [v]);
        assert AddVotes(c, [v]) == AddVotes(AddVote(c, v), []);
        AddVoteKeeps(cfg.bl, cfg.root, c, v);
        BackedCheckCC(cfg.bl, cfg.root, AddVote(c, v), cfg.vals, v.block);
      case Process(h, listed, answer, ballot) =>
        if h in c.chain.store {
          BackedHandleBlock(cfg.bl, cfg.root, c, EnvOf(cfg, i), h, listed, answer, ballot);
        }
      case VoteTimer(ballot) => BackedSame(c, React(cfg, i, c, e).core, cfg.vals);
      case Restart =>
    }
  }

  lemma StepKeepsBacked(cfg: Config, sys: System, sys': System, j: Address, e: Event, i: Address)
    requires SystemOK(cfg, sys) && StepOf(cfg, sys, sys', j, e) && i in sys.nodes && Backed(sys.nodes[i], cfg.vals)
    ensures i in sys'.nodes && Backed(sys'.nodes[i], cfg.vals)
  {
    assert HonestAt(cfg, sys, j);
    if i == j { BackedReact(cfg, sys.signed, j, sys.nodes[j], e); }
  }

  lemma StartIsBacked(cfg: Config, sys: System, i: Address)
    requires ConfigOK(cfg) && Start(cfg, sys) && i in sys.nodes
    ensures Backed(sys.nodes[i], cfg.vals)
  {
    StartChain(cfg.bl, cfg.root);
  }

  lemma StepBefore(cfg: Config, run: seq<System>, k: nat, i: Address) returns (j: Address, e: Event)
    requires IsRun(cfg, run) && 0 < k < |run| && i in run[k].nodes
    ensures StepOf(cfg, run[k - 1], run[k], j, e) && i in run[k - 1].nodes
  {
    assert StepAt(cfg, run, k - 1);
    j, e :| StepOf(cfg, run[k - 1], run[k], j, e);
  }

  /** In every run, a node still holds the votes behind its highest certified block. */
  lemma {:induction false} RunBacked(cfg: Config, run: seq<System>, k: nat, i: Address)
    requires ConfigOK(cfg) && IsRun(cfg, run) && k < |run| && i in run[k].nodes
    ensures Backed(run[k].nodes[i], cfg.vals)
  {
    if k == 0 {
      StartIsBacked(cfg, run[0], i);
    } else {
      var j, e := StepBefore(cfg, run, k, i);
      RunBacked(cfg, run, k - 1, i);
      RunKeeps(cfg, run, k - 1);
      StepKeepsBacked(cfg, run[k - 1], run[k], j, e, i);
    }
  }

  // ---- Own proposals ----

  /** In every run, a node whose turn it is accepts its own proposal exactly when the tip it extends
      is within reach of its highest certified block. */
  lemma RunOwnProposal(cfg: Config, run: seq<System>, k: nat, i: Address, tip: Hash, epoch: nat, b: Block)
    requires ConfigOK(cfg) && IsRun(cfg, run) && k < |run| && i in run[k].nodes
    requires Loaded(run[k].nodes[i]) && IsTip(run[k].nodes[i], false, tip)
    requires IsProposal(run[k].nodes[i], EnvOf(cfg, i), tip, epoch, b)
    requires ShouldPropose(EnvOf(cfg, i), cfg.bl(tip), epoch)
    requires Genuine(cfg.bl, b) && b.hash !in run[k].nodes[i].chain.store
    ensures Judges(React(cfg, i, run[k].nodes[i], Deliver(b)).core, EnvOf(cfg, i), b.hash,
                   if Extendable(cfg.bl, run[k].nodes[i], tip) then Ok else Rejected)
  {
    RunKeeps(cfg, run, k);
    assert HonestAt(cfg, run[k], i);
    RunBacked(cfg, run, k, i);
    OwnProposalValidates(cfg.bl, cfg.root, run[k].nodes[i], EnvOf(cfg, i), tip, epoch, b);
  }
}
