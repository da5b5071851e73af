/** Agreement between honest nodes.

    Any number of nodes exchange blocks and votes. Faulty validators, who hold at most a third of
    the stake, may sign anything; nobody can forge the signature of anybody else. Every message
    may be lost, repeated, delayed or reordered. */
module Safety {
  import opened Options
  import opened Validators
  import opened Votes
  import opened Blocks
  import opened ChainIndexes
  import opened Consensus
  import opened NodeInvariant
  import opened Epochs

  datatype Config = Config(
    root: Hash, bl: BlockTable, vals: seq<Validator>, faulty: set<Address>, proposer: (Hash, nat) -> Address)

  ghost predicate ConfigOK(cfg: Config) {
    && RootOK(cfg.bl, cfg.root) && cfg.bl(cfg.root).epoch < EPOCHS
    && Distinct(cfg.vals) && 3 * StakeOf(cfg.vals, cfg.faulty) <= TotalStake(cfg.vals)
  }

  ghost function EnvOf(cfg: Config, self: Address): Env {
    Env(self, cfg.vals, cfg.proposer)
  }

  /** The honest nodes, every signature they have made, and the epoch of each node. */
  datatype System = System(nodes: map<Address, Core>, signed: set<Signature>, epochs: map<Address, EpochState>)

  // ---- What the signatures say ----

  ghost predicate VotedFor(signed: set<Signature>, i: Address, h: Hash) {
    exists g :: g in signed && g.signer == i && g.bytes.block == h
  }

  /** Everyone who may have signed for `h`: the faulty validators can always do so. */
  ghost function Supporters(cfg: Config, signed: set<Signature>, h: Hash): set<Address> {
    cfg.faulty + set g | g in signed && g.bytes.block == h :: g.signer
  }

  /** A commit certificate for `h` can exist. */
  ghost predicate Certified(cfg: Config, signed: set<Signature>, h: Hash) {
    h == cfg.root || Majority(cfg.vals, Supporters(cfg, signed, h))
  }

  /** A vote that verifies was signed by a faulty validator or by the node it names. */
  ghost predicate Unforged(cfg: Config, signed: set<Signature>, v: Vote) {
    ValidVote(v) ==> v.id in cfg.faulty || v.signature.value in signed
  }

  lemma CertifiedMonotone(cfg: Config, a: set<Signature>, b: set<Signature>, h: Hash)
    requires Certified(cfg, a, h) && a <= b
    ensures Certified(cfg, b, h)
  {
    if h != cfg.root { MajorityMonotone(cfg.vals, Supporters(cfg, a, h), Supporters(cfg, b, h)); }
  }

  ghost predicate UnforgedVotes(cfg: Config, signed: set<Signature>, m: VoteMap) {
    forall k :: k in m ==> Unforged(cfg, signed, m[k])
  }

  /** Valid, unforged votes for `h` with a majority make `h` certified. */
  lemma MajorityCertifies(cfg: Config, signed: set<Signature>, m: VoteMap, h: Hash)
    requires UnforgedVotes(cfg, signed, m) && forall k :: k in m ==> m[k].block == h && ValidVote(m[k])
    requires Majority(cfg.vals, Voters(m))
    ensures Certified(cfg, signed, h)
  {
    forall a | a in Voters(m) ensures a in Supporters(cfg, signed, h) {
      var k :| k in m && m[k].id == a;
      assert Unforged(cfg, signed, m[k]);
    }
    MajorityMonotone(cfg.vals, Voters(m), Supporters(cfg, signed, h));
  }

  // ---- The invariant of one node ----

  /** A directly finalized block is certified, and so is a child that names it as its certified block. */
  ghost predicate Confirmed(cfg: Config, signed: set<Signature>, d: Hash) {
    && Certified(cfg, signed, d)
    && (d == cfg.root || exists b :: Confirms(cfg, signed, b, d))
  }

  ghost predicate Confirms(cfg: Config, signed: set<Signature>, b: Hash, d: Hash) {
    && b != cfg.root && Certified(cfg, signed, b)
    && cfg.bl(b).parent == d && cfg.bl(b).hcc.blockHash == d
    && cfg.bl(b).height == cfg.bl(d).height + 1
  }

  /** The votes indexed for `h`, and those in its certificate, are unforged. */
  ghost predicate VotesUnforged(cfg: Config, signed: set<Signature>, c: Core, h: Hash) {
    && (h in c.chain.votes ==> UnforgedVotes(cfg, signed, c.chain.votes[h]))
    && (h in c.chain.store && h != cfg.root ==> UnforgedVotes(cfg, signed, cfg.bl(h).hcc.votes))
  }

  /** A validated block that names its parent as its certified block has a certified parent. */
  ghost predicate ParentCertified(cfg: Config, signed: set<Signature>, store: Store, h: Hash) {
    h in store && store[h].status.IsValid() && h != cfg.root && cfg.bl(h).hcc.blockHash == cfg.bl(h).parent ==>
      Certified(cfg, signed, cfg.bl(h).parent)
  }

  ghost predicate DirectConfirmed(cfg: Config, signed: set<Signature>, store: Store, h: Hash) {
    h in store && store[h].status == DirectlyFinalized ==> Confirmed(cfg, signed, h)
  }

  ghost predicate NodeSafe(cfg: Config, signed: set<Signature>, c: Core) {
    && NodeOK(cfg.bl, cfg.root, c)
    && (forall h :: VotesUnforged(cfg, signed, c, h))
    && Certified(cfg, signed, c.hcc)
    && (forall h :: ParentCertified(cfg, signed, c.chain.store, h))
    && (forall h :: DirectConfirmed(cfg, signed, c.chain.store, h))
  }

  lemma NodeSafeMonotone(cfg: Config, a: set<Signature>, b: set<Signature>, c: Core)
    requires NodeSafe(cfg, a, c) && a <= b
    ensures NodeSafe(cfg, b, c)
  {
    CertifiedMonotone(cfg, a, b, c.hcc);
    forall h: Hash ensures VotesUnforged(cfg, b, c, h) {
      assert VotesUnforged(cfg, a, c, h);
    }
    forall h: Hash ensures ParentCertified(cfg, b, c.chain.store, h) {
      assert ParentCertified(cfg, a, c.chain.store, h);
      if Certified(cfg, a, cfg.bl(h).parent) { CertifiedMonotone(cfg, a, b, cfg.bl(h).parent); }
    }
    forall h: Hash ensures DirectConfirmed(cfg, b, c.chain.store, h) {
      assert DirectConfirmed(cfg, a, c.chain.store, h);
      if Confirmed(cfg, a, h) { ConfirmedMonotone(cfg, a, b, h); }
    }
  }

  lemma ConfirmedMonotone(cfg: Config, a: set<Signature>, b: set<Signature>, d: Hash)
    requires Confirmed(cfg, a, d) && a <= b
    ensures Confirmed(cfg, b, d)
  {
    CertifiedMonotone(cfg, a, b, d);
    if d != cfg.root {
      var x :| Confirms(cfg, a, x, d);
      CertifiedMonotone(cfg, a, b, x);
      assert Confirms(cfg, b, x, d);
    }
  }

  // ---- Steps of one node ----

  lemma QuorumCertifies(cfg: Config, signed: set<Signature>, c: Core, h: Hash)
    requires NodeSafe(cfg, signed, c) && HasQuorum(c, cfg.vals, h)
    ensures Certified(cfg, signed, h)
  {
    var m := VotesFor(c.chain, h);
    assert IndexedVotesOK(c.chain.votes, h) && VotesUnforged(cfg, signed, c, h);
    MajorityCertifies(cfg, signed, m, h);
  }

  /** No new votes and no new blocks. */
  lemma SameVotesUnforged(cfg: Config, signed: set<Signature>, c: Core, c': Core)
    requires forall h :: VotesUnforged(cfg, signed, c, h)
    requires c'.chain.votes == c.chain.votes && c'.chain.store.Keys == c.chain.store.Keys
    ensures forall h :: VotesUnforged(cfg, signed, c', h)
  {
    forall h: Hash ensures VotesUnforged(cfg, signed, c', h) {
      assert VotesUnforged(cfg, signed, c, h);
    }
  }

  lemma SafeCheckCC(cfg: Config, signed: set<Signature>, c: Core, h: Hash)
    requires NodeSafe(cfg, signed, c)
    ensures NodeSafe(cfg, signed, CheckCC(c, cfg.vals, h))
  {
    var c' := CheckCC(c, cfg.vals, h);
    CheckCCKeeps(cfg.bl, cfg.root, c, cfg.vals, h);
    CheckCCAdvances(cfg.bl, cfg.root, c, cfg.vals, h);
    SameVotesUnforged(cfg, signed, c, c');
    if c'.hcc != c.hcc {
      NewHighest(cfg.bl, cfg.root, c, cfg.vals, h);
      QuorumCertifies(cfg, signed, c, h);
    }
    forall x: Hash ensures ParentCertified(cfg, signed, c'.chain.store, x) {
      assert ParentCertified(cfg, signed, c.chain.store, x);
    }
    forall x: Hash ensures DirectConfirmed(cfg, signed, c'.chain.store, x) {
      assert DirectConfirmed(cfg, signed, c.chain.store, x);
      if x in c.chain.store && c'.chain.store[x].status == DirectlyFinalized
         && c.chain.store[x].status != DirectlyFinalized
      {
        NewlyDirect(cfg.bl, cfg.root, c, cfg.vals, h, x);
        QuorumCertifies(cfg, signed, c, h);
        assert ParentCertified(cfg, signed, c.chain.store, h);
        assert Confirms(cfg, signed, h, x);
      }
    }
  }

  lemma SafeAddVote(cfg: Config, signed: set<Signature>, c: Core, v: Vote)
    requires NodeSafe(cfg, signed, c) && Unforged(cfg, signed, v)
    ensures NodeSafe(cfg, signed, AddVote(c, v))
  {
    AddVoteKeeps(cfg.bl, cfg.root, c, v);
    forall h: Hash ensures VotesUnforged(cfg, signed, AddVote(c, v), h) {
      assert VotesUnforged(cfg, signed, c, h);
    }
  }

  lemma {:induction false} SafeAddVotes(cfg: Config, signed: set<Signature>, c: Core, s: seq<Vote>)
    requires NodeSafe(cfg, signed, c) && forall v :: v in s ==> Unforged(cfg, signed, v)
    ensures NodeSafe(cfg, signed, AddVotes(c, s))
    decreases |s|
  {
    if s != [] {
      SafeAddVote(cfg, signed, c, s[0]);
      SafeAddVotes(cfg, signed, AddVote(c, s[0]), s[1..]);
    }
  }

  /** Steps that validate nothing and finalize nothing directly. */
  lemma NothingNewKeepsSafe(cfg: Config, signed: set<Signature>, s: Store, s': Store)
    requires forall h :: ParentCertified(cfg, signed, s, h)
    requires forall h :: DirectConfirmed(cfg, signed, s, h)
    requires forall h :: h in s' && s'[h].status.IsValid() ==> h in s && s[h].status == s'[h].status
    ensures forall h :: ParentCertified(cfg, signed, s', h)
    ensures forall h :: DirectConfirmed(cfg, signed, s', h)
  {
    forall x: Hash ensures ParentCertified(cfg, signed, s', x) && DirectConfirmed(cfg, signed, s', x) {
      assert ParentCertified(cfg, signed, s, x) && DirectConfirmed(cfg, signed, s, x);
    }
  }

  lemma SafeAddBlock(cfg: Config, signed: set<Signature>, c: Core, b: Block)
    requires NodeSafe(cfg, signed, c) && Genuine(cfg.bl, b) && b.hash !in c.chain.store
    requires UnforgedVotes(cfg, signed, b.hcc.votes)
    ensures NodeSafe(cfg, signed, c.(chain := AddBlock(c.chain, b)))
  {
    AddBlockKeeps(cfg.bl, cfg.root, c, b);
    AddBlockChildren(c.chain, b);
    var c' := c.(chain := AddBlock(c.chain, b));
    forall h: Hash ensures VotesUnforged(cfg, signed, c', h) {
      assert VotesUnforged(cfg, signed, c, h);
    }
    NothingNewKeepsSafe(cfg, signed, c.chain.store, c'.chain.store);
  }

  lemma SafeReject(cfg: Config, signed: set<Signature>, c: Core, h: Hash)
    requires NodeSafe(cfg, signed, c) && h in c.chain.store && c.chain.store[h].status == Pending
    ensures NodeSafe(cfg, signed, Mark(c, h, Invalid))
  {
    RejectKeeps(cfg.bl, cfg.root, c, h);
    SameVotesUnforged(cfg, signed, c, Mark(c, h, Invalid));
    NothingNewKeepsSafe(cfg, signed, c.chain.store, Mark(c, h, Invalid).chain.store);
  }

  lemma SafeAccept(cfg: Config, signed: set<Signature>, c: Core, h: Hash, update: bool)
    requires NodeSafe(cfg, signed, c) && Acceptable(cfg.bl, c, h)
    requires cfg.bl(h).hcc.blockHash == cfg.bl(h).parent ==> Certified(cfg, signed, cfg.bl(h).parent)
    ensures NodeSafe(cfg, signed, Accept(c, h, update))
  {
    AcceptKeeps(cfg.bl, cfg.root, c, h, update);
    SameVotesUnforged(cfg, signed, c, Accept(c, h, update));
    var s' := Accept(c, h, update).chain.store;
    forall x: Hash ensures ParentCertified(cfg, signed, s', x) && DirectConfirmed(cfg, signed, s', x) {
      assert ParentCertified(cfg, signed, c.chain.store, x) && DirectConfirmed(cfg, signed, c.chain.store, x);
    }
  }

  /** Validation makes sure that a parent named as the certified block is certified. When the parent
      is finalized the certificate is not looked at, but then the parent is the last finalized
      block itself. */
  lemma ValidatedParentCertified(cfg: Config, signed: set<Signature>, c: Core, env: Env, h: Hash)
    requires NodeSafe(cfg, signed, c) && env.vals == cfg.vals
    requires h in c.chain.store && c.chain.store[h].status == Pending
    requires cfg.bl(h).parent in c.chain.store && Validate(c, env, h) == Ok
    requires cfg.bl(h).hcc.blockHash == cfg.bl(h).parent
    ensures Certified(cfg, signed, cfg.bl(h).parent)
  {
    var p := cfg.bl(h).parent;
    ValidatedNamesAncestor(cfg.bl, cfg.root, c, env, h);
    if c.chain.store[p].status.IsFinalized() {
      assert p == c.lfb;
      assert DirectConfirmed(cfg, signed, c.chain.store, p);
    } else {
      assert VotesUnforged(cfg, signed, c, h);
      MajorityCertifies(cfg, signed, cfg.bl(h).hcc.votes, p);
    }
  }

  // ---- What a node's own signatures promise ----

  /** A block that node `i` signed is validated there, and no higher than its last vote. */
  ghost predicate VoteKept(cfg: Config, c: Core, b: Hash) {
    && b in c.chain.store && c.chain.store[b].status.IsValid()
    && cfg.bl(b).height <= c.lastVote.height
    && (cfg.bl(b).height == c.lastVote.height ==> b == c.lastVote.block)
  }

  /** Two blocks signed by one node: at one height they are the same block; otherwise the higher one
      names a certified block that is at least as high as the one the lower block names. */
  ghost predicate VotesOrdered(cfg: Config, signed: set<Signature>, b: Hash, c: Hash) {
    && (cfg.bl(b).height == cfg.bl(c).height ==> b == c)
    && (b != cfg.root && cfg.bl(b).height < cfg.bl(c).height ==>
          var q := cfg.bl(c).hcc.blockHash;
          Certified(cfg, signed, q) && cfg.bl(cfg.bl(b).hcc.blockHash).height <= cfg.bl(q).height)
  }

  ghost predicate VoterOK(cfg: Config, signed: set<Signature>, i: Address, c: Core) {
    && (forall b :: VotedFor(signed, i, b) ==> VoteKept(cfg, c, b))
    && (forall b, b' :: VotedFor(signed, i, b) && VotedFor(signed, i, b') ==> VotesOrdered(cfg, signed, b, b'))
    && (c.lastVote.height != 0 ==> VotedFor(signed, i, c.lastVote.block))
  }

  /** Progress of the node and signatures of others change nothing. */
  lemma VoterKept(cfg: Config, a: set<Signature>, b: set<Signature>, i: Address, c: Core, c': Core)
    requires VoterOK(cfg, a, i, c) && a <= b && Advances(cfg.bl, c, c') && c'.lastVote == c.lastVote
    requires forall g :: g in b && g.signer == i ==> g in a
    ensures VoterOK(cfg, b, i, c')
  {
    assert forall h :: VotedFor(b, i, h) <==> VotedFor(a, i, h);
    forall x, y | VotedFor(b, i, x) && VotedFor(b, i, y) ensures VotesOrdered(cfg, b, x, y) {
      assert VotesOrdered(cfg, a, x, y);
      if x != cfg.root && cfg.bl(x).height < cfg.bl(y).height {
        CertifiedMonotone(cfg, a, b, cfg.bl(y).hcc.blockHash);
      }
    }
  }

  /** Signing once more for the block of the last vote promises nothing new. */
  lemma RepeatKeepsVoter(cfg: Config, signed: set<Signature>, i: Address, c: Core, g: Signature)
    requires VoterOK(cfg, signed, i, c) && g.signer == i && VotedFor(signed, i, g.bytes.block)
    ensures VoterOK(cfg, signed + {g}, i, c)
  {
    var b := signed + {g};
    forall h: Hash ensures VotedFor(b, i, h) <==> VotedFor(signed, i, h) {
      if VotedFor(signed, i, h) {
        var s :| s in signed && s.signer == i && s.bytes.block == h;
        assert s in b;
      }
    }
    forall x, y | VotedFor(b, i, x) && VotedFor(b, i, y) ensures VotesOrdered(cfg, b, x, y) {
      assert VotesOrdered(cfg, signed, x, y);
      if x != cfg.root && cfg.bl(x).height < cfg.bl(y).height {
        CertifiedMonotone(cfg, signed, b, cfg.bl(y).hcc.blockHash);
      }
    }
  }

  lemma RootHeight(cfg: Config, c: Core, b: Hash)
    requires NodeOK(cfg.bl, cfg.root, c) && b in c.chain.store && c.chain.store[b].status.IsValid()
    ensures cfg.bl(cfg.root).height <= cfg.bl(b).height
    ensures cfg.bl(cfg.root).height == cfg.bl(b).height ==> b == cfg.root
  {
    ValidBelowRoot(cfg.bl, cfg.root, c.chain.store, b);
    AncHeight(cfg.bl, cfg.root, b);
  }

  /** An earlier vote `b` and the new vote `tip` are ordered as they should be. */
  lemma FreshVoteOrdered(cfg: Config, signed: set<Signature>, i: Address, c: Core, tip: Hash, b: Hash)
    requires NodeSafe(cfg, signed, c) && VoterOK(cfg, signed, i, c) && VotedFor(signed, i, b)
    requires tip in c.chain.store && c.chain.store[tip].status.IsValid()
    requires !RepeatsVote(c.lastVote, c.hcc, cfg.bl(tip))
    ensures VotesOrdered(cfg, signed, b, tip)
    ensures cfg.bl(b).height < cfg.bl(tip).height || b == tip
  {
    assert VoteKept(cfg, c, b);
    if c.lastVote.height == 0 {
      RootHeight(cfg, c, b);
      RootHeight(cfg, c, tip);
    } else {
      assert LockHolds(cfg.bl, cfg.root, c.chain.store, c.hcc, b);
    }
  }

  lemma FreshVoteKeepsVoter(cfg: Config, signed: set<Signature>, i: Address, c: Core, tip: Hash, v: Vote, g: Signature)
    requires NodeSafe(cfg, signed, c) && VoterOK(cfg, signed, i, c)
    requires tip in c.chain.store && c.chain.store[tip].status.IsValid()
    requires !RepeatsVote(c.lastVote, c.hcc, cfg.bl(tip))
    requires v.block == tip && v.height == cfg.bl(tip).height && g.signer == i && g.bytes.block == tip
    ensures VoterOK(cfg, signed + {g}, i, c.(lastVote := v))
  {
    var b, c' := signed + {g}, c.(lastVote := v);
    assert g in b;
    forall x: Hash ensures VotedFor(b, i, x) <==> VotedFor(signed, i, x) || x == tip {
      if VotedFor(signed, i, x) {
        var s :| s in signed && s.signer == i && s.bytes.block == x;
        assert s in b;
      }
    }
    forall x | VotedFor(b, i, x) ensures VoteKept(cfg, c', x) {
      if VotedFor(signed, i, x) {
        assert VoteKept(cfg, c, x);
        FreshVoteOrdered(cfg, signed, i, c, tip, x);
      }
    }
    forall x, y | VotedFor(b, i, x) && VotedFor(b, i, y) ensures VotesOrdered(cfg, b, x, y) {
      FreshPairOrdered(cfg, signed, i, c, tip, x, y);
      if x != cfg.root && cfg.bl(x).height < cfg.bl(y).height {
        CertifiedMonotone(cfg, signed, b, cfg.bl(y).hcc.blockHash);
      }
    }
  }

  lemma FreshPairOrdered(cfg: Config, signed: set<Signature>, i: Address, c: Core, tip: Hash, x: Hash, y: Hash)
    requires NodeSafe(cfg, signed, c) && VoterOK(cfg, signed, i, c)
    requires tip in c.chain.store && c.chain.store[tip].status.IsValid()
    requires !RepeatsVote(c.lastVote, c.hcc, cfg.bl(tip))
    requires VotedFor(signed, i, x) || x == tip
    requires VotedFor(signed, i, y) || y == tip
    ensures VotesOrdered(cfg, signed, x, y)
  {
    if VotedFor(signed, i, x) { FreshVoteOrdered(cfg, signed, i, c, tip, x); }
    if VotedFor(signed, i, y) { FreshVoteOrdered(cfg, signed, i, c, tip, y); }
  }

  // ---- Handlers ----

  /** A node and its own signatures are in order. */
  ghost predicate Honest(cfg: Config, signed: set<Signature>, i: Address, c: Core) {
    NodeSafe(cfg, signed, c) && VoterOK(cfg, signed, i, c)
  }

  ghost function Emitted(vote: Option<Vote>): set<Signature> {
    if vote.Some? && vote.value.signature.Some? then {vote.value.signature.value} else {}
  }

  lemma TipIsValid(cfg: Config, c: Core, tip: Hash)
    requires NodeOK(cfg.bl, cfg.root, c) && IsTip(c, true, tip)
    ensures tip in c.chain.store && c.chain.store[tip].status.IsValid()
  {}

  lemma HonestCastVote(cfg: Config, signed: set<Signature>, i: Address, c: Core, ballot: Ballot)
    requires Honest(cfg, signed, i, c) && IsTip(c, true, ballot.tip)
    ensures var sent := CastVote(c, EnvOf(cfg, i), ballot);
            Honest(cfg, signed + Emitted(sent.vote), i, sent.core)
  {
    var sent := CastVote(c, EnvOf(cfg, i), ballot);
    var signed' := signed + Emitted(sent.vote);
    TipIsValid(cfg, c, ballot.tip);
    CastVoteKeeps(cfg.bl, cfg.root, c, EnvOf(cfg, i), ballot);
    NodeSafeMonotone(cfg, signed, signed', c);
    SameVotesUnforged(cfg, signed', c, sent.core);
    assert NodeSafe(cfg, signed', sent.core);
    var tip := cfg.bl(ballot.tip);
    if sent.vote.None? {
      assert signed' == signed;
    } else if RepeatsVote(c.lastVote, c.hcc, tip) {
      RepeatKeepsVoter(cfg, signed, i, c, sent.vote.value.signature.value);
    } else {
      FreshVoteKeepsVoter(cfg, signed, i, c, ballot.tip, sent.vote.value, sent.vote.value.signature.value);
    }
  }

  lemma HonestCheckCC(cfg: Config, signed: set<Signature>, i: Address, c: Core, h: Hash)
    requires Honest(cfg, signed, i, c)
    ensures Honest(cfg, signed, i, CheckCC(c, cfg.vals, h))
  {
    SafeCheckCC(cfg, signed, c, h);
    CheckCCAdvances(cfg.bl, cfg.root, c, cfg.vals, h);
    VoterKept(cfg, signed, signed, i, c, CheckCC(c, cfg.vals, h));
  }

  lemma HonestAddVotes(cfg: Config, signed: set<Signature>, i: Address, c: Core, s: seq<Vote>)
    requires Honest(cfg, signed, i, c) && forall v :: v in s ==> Unforged(cfg, signed, v)
    ensures Honest(cfg, signed, i, AddVotes(c, s))
  {
    SafeAddVotes(cfg, signed, c, s);
    AddVotesFrame(c, s);
    VoterKept(cfg, signed, signed, i, c, AddVotes(c, s));
  }

  lemma HonestReplay(cfg: Config, signed: set<Signature>, i: Address, c: Core, b: Block, listed: seq<Vote>)
    requires Honest(cfg, signed, i, c) && forall v :: v in listed ==> Unforged(cfg, signed, v)
    ensures Honest(cfg, signed, i, ReplayCertificate(c, cfg.vals, b, listed))
  {
    HonestAddVotes(cfg, signed, i, c, listed);
    var c1 := AddVotes(c, listed);
    if c1.hcc != b.hcc.blockHash { HonestCheckCC(cfg, signed, i, c1, b.hcc.blockHash); }
  }

  lemma HonestReject(cfg: Config, signed: set<Signature>, i: Address, c: Core, h: Hash)
    requires Honest(cfg, signed, i, c) && h in c.chain.store && c.chain.store[h].status == Pending
    ensures Honest(cfg, signed, i, Mark(c, h, Invalid))
  {
    SafeReject(cfg, signed, c, h);
    RejectAdvances(cfg.bl, c, h);
    VoterKept(cfg, signed, signed, i, c, Mark(c, h, Invalid));
  }

  lemma HonestAccept(cfg: Config, signed: set<Signature>, i: Address, c: Core, h: Hash, update: bool)
    requires Honest(cfg, signed, i, c) && Acceptable(cfg.bl, c, h)
    requires cfg.bl(h).hcc.blockHash == cfg.bl(h).parent ==> Certified(cfg, signed, cfg.bl(h).parent)
    ensures Honest(cfg, signed, i, Accept(c, h, update))
  {
    SafeAccept(cfg, signed, c, h, update);
    AcceptAdvances(cfg.bl, c, h, update);
    VoterKept(cfg, signed, signed, i, c, Accept(c, h, update));
  }

  lemma HonestBallots(cfg: Config, signed: set<Signature>, i: Address, c: Core, ballot: Option<Ballot>)
    requires Honest(cfg, signed, i, c) && (ballot.Some? ==> IsTip(c, true, ballot.value.tip))
    ensures var sent := Ballots(c, EnvOf(cfg, i), ballot);
            Honest(cfg, signed + Emitted(sent.vote), i, sent.core)
  {
    if ballot.Some? {
      HonestCastVote(cfg, signed, i, c, ballot.value);
    } else {
      assert signed + {} == signed;
    }
  }

  lemma HonestAccepted(cfg: Config, signed: set<Signature>, i: Address, c: Core, h: Hash, update: bool,
                       ballot: Option<Ballot>)
    requires Honest(cfg, signed, i, c) && Acceptable(cfg.bl, c, h)
    requires cfg.bl(h).hcc.blockHash == cfg.bl(h).parent ==> Certified(cfg, signed, cfg.bl(h).parent)
    requires ballot.Some? ==> IsTip(Accept(c, h, update), true, ballot.value.tip)
    ensures var sent := Ballots(Accept(c, h, update), EnvOf(cfg, i), ballot);
            Honest(cfg, signed + Emitted(sent.vote), i, CheckCC(sent.core, cfg.vals, h))
  {
    HonestAccept(cfg, signed, i, c, h, update);
    HonestBallots(cfg, signed, i, Accept(c, h, update), ballot);
    var sent := Ballots(Accept(c, h, update), EnvOf(cfg, i), ballot);
    HonestCheckCC(cfg, signed + Emitted(sent.vote), i, sent.core, h);
  }

  lemma HonestDecide(cfg: Config, signed: set<Signature>, i: Address, c: Core, h: Hash,
                     answer: LedgerAnswer, ballot: Option<Ballot>)
    requires Honest(cfg, signed, i, c) && Acceptable(cfg.bl, c, h)
    requires cfg.bl(h).hcc.blockHash == cfg.bl(h).parent ==> Certified(cfg, signed, cfg.bl(h).parent)
    requires ballot.Some? && answer.Applies? ==>
               IsTip(Accept(c, h, answer.hasValidatorUpdate), true, ballot.value.tip)
    ensures var sent := Decide(c, EnvOf(cfg, i), h, answer, ballot);
            Honest(cfg, signed + Emitted(sent.vote), i, sent.core)
  {
    assert signed + {} == signed;
    match answer {
      case Undecided =>
      case Applies(update) => HonestAccepted(cfg, signed, i, c, h, update, ballot);
      case _ => HonestReject(cfg, signed, i, c, h);
    }
  }

  lemma ListedUnforged(cfg: Config, signed: set<Signature>, m: VoteMap, listed: seq<Vote>)
    requires UnforgedVotes(cfg, signed, m) && Enumerates(m, listed)
    ensures forall v :: v in listed ==> Unforged(cfg, signed, v)
  {
    EnumeratesMembers(m, listed);
    forall v | v in listed ensures Unforged(cfg, signed, v) {
      assert v in m.Values;
      var k :| k in m && m[k] == v;
    }
  }

  lemma HonestValidated(cfg: Config, signed: set<Signature>, i: Address, c: Core, h: Hash, listed: seq<Vote>,
                        answer: LedgerAnswer, ballot: Option<Ballot>)
    requires Honest(cfg, signed, i, c) && h in c.chain.store && c.chain.store[h].status == Pending
    requires cfg.bl(h).parent in c.chain.store && Validate(c, EnvOf(cfg, i), h) == Ok
    requires Enumerates(cfg.bl(h).hcc.votes, listed)
    requires BallotFits(c, EnvOf(cfg, i), h, listed, answer, ballot)
    ensures var c2 := ReplayCertificate(c, cfg.vals, cfg.bl(h), listed);
            var sent := Decide(c2, EnvOf(cfg, i), h, answer, ballot);
            Honest(cfg, signed + Emitted(sent.vote), i, sent.core)
  {
    assert VotesUnforged(cfg, signed, c, h);
    ListedUnforged(cfg, signed, cfg.bl(h).hcc.votes, listed);
    HonestReplay(cfg, signed, i, c, cfg.bl(h), listed);
    ReplayEstablishesLock(cfg.bl, cfg.root, c, EnvOf(cfg, i), h, listed);
    if cfg.bl(h).hcc.blockHash == cfg.bl(h).parent {
      ValidatedParentCertified(cfg, signed, c, EnvOf(cfg, i), h);
    }
    HonestDecide(cfg, signed, i, ReplayCertificate(c, cfg.vals, cfg.bl(h), listed), h, answer, ballot);
  }

  lemma HonestHandleBlock(cfg: Config, signed: set<Signature>, i: Address, c: Core, h: Hash, listed: seq<Vote>,
                          answer: LedgerAnswer, ballot: Option<Ballot>)
    requires Honest(cfg, signed, i, c) && h in c.chain.store
    requires Enumerates(cfg.bl(h).hcc.votes, listed)
    requires BallotFits(c, EnvOf(cfg, i), h, listed, answer, ballot)
    ensures var o := HandleBlock(c, EnvOf(cfg, i), h, listed, answer, ballot);
            o.Fatal? || Honest(cfg, signed + Emitted(o.vote), i, o.core)
  {
    var env := EnvOf(cfg, i);
    var o := HandleBlock(c, env, h, listed, answer, ballot);
    if o.Handled? {
      HandleBlockCases(c, env, h, listed, answer, ballot);
      if StatusOf(c, h) != Pending {
        NothingSigned(cfg, signed, i, c);
      } else if Validate(c, env, h) == Rejected {
        HonestReject(cfg, signed, i, c, h);
        NothingSigned(cfg, signed, i, Mark(c, h, Invalid));
      } else {
        HonestValidated(cfg, signed, i, c, h, listed, answer, ballot);
      }
    }
  }

  lemma NothingSigned(cfg: Config, signed: set<Signature>, i: Address, c: Core)
    requires Honest(cfg, signed, i, c)
    ensures Honest(cfg, signed + Emitted(None), i, c)
  {
    assert signed + {} == signed;
  }

  // ---- Runs ----

  datatype Event =
    | Deliver(block: Block)                          // a block reaches the node's store
    | Hear(vote: Vote)                               // a vote reaches the node
    | Process(hash: Hash, listed: seq<Vote>, answer: LedgerAnswer, ballot: Option<Ballot>)
    | VoteTimer(choice: Ballot)                      // the vote or epoch timer fires
    | Restart                                        // the node reloads its saved state

  /** What may happen to a node: messages are genuine, and the choices the code leaves open are
      ones the code can make. */
  ghost predicate Possible(cfg: Config, signed: set<Signature>, i: Address, c: Core, e: Event) {
    match e
    case Deliver(b) => Genuine(cfg.bl, b) && UnforgedVotes(cfg, signed, b.hcc.votes)
    case Hear(v) => Unforged(cfg, signed, v)
    case Process(h, listed, answer, ballot) =>
      Loaded(c) && (h in c.chain.store ==>
        Enumerates(cfg.bl(h).hcc.votes, listed) && BallotFits(c, EnvOf(cfg, i), h, listed, answer, ballot))
    case VoteTimer(ballot) => IsTip(c, true, ballot.tip)
    case Restart => true
  }

  /** A node that ends in a fatal error has changed nothing: it is as if it had not moved. */
  ghost function React(cfg: Config, i: Address, c: Core, e: Event): Sent
    requires Loaded(c)
  {
    match e
    case Deliver(b) => Sent(if b.hash in c.chain.store then c else c.(chain := AddBlock(c.chain, b)), None)
    case Hear(v) => Sent(ReceiveVote(c, cfg.vals, v), None)
    case Process(h, listed, answer, ballot) =>
      var o := HandleBlock(c, EnvOf(cfg, i), h, listed, answer, ballot);
      if o.Handled? then Sent(o.core, o.vote) else Sent(c, None)
    case VoteTimer(ballot) =>
      if ballot.tip in c.chain.store then CastVote(c, EnvOf(cfg, i), ballot) else Sent(c, None)
    case Restart => Sent(c, None)
  }

  /** How the epoch of the node moves: by the vote it hears, by the votes of a certificate it replays. A vote
      is signed at the epoch that the node is in then. */
  ghost predicate EpochReacts(cfg: Config, i: Address, c: Core, s: EpochState, s': EpochState, e: Event)
    requires Loaded(c)
  {
    match e
    case Hear(v) => EpochStep(cfg.vals, s, s', v)
    case Process(h, listed, _, ballot) =>
      && (if Replays(c, EnvOf(cfg, i), h) then EpochSteps(cfg.vals, s, s', listed) else s' == s)
      && (ballot.Some? ==> ballot.value.epoch == s'.epoch)
    case VoteTimer(ballot) => s' == s && ballot.epoch == s.epoch
    case _ => s' == s
  }

  ghost predicate Start(cfg: Config, sys: System) {
    && sys.epochs.Keys == sys.nodes.Keys
    && (forall i :: i in sys.epochs ==> sys.epochs[i] == EpochState(cfg.bl(cfg.root).epoch, map[]))
    && sys.nodes.Keys !! cfg.faulty
    && (forall i :: i in sys.nodes ==> sys.nodes[i] == StartCore(cfg.bl, cfg.root))
    && sys.signed == {}
  }

  ghost predicate StepOf(cfg: Config, sys: System, sys': System, i: Address, e: Event) {
    && i in sys.nodes && Loaded(sys.nodes[i]) && Possible(cfg, sys.signed, i, sys.nodes[i], e)
    && i in sys.epochs && i in sys'.epochs && EpochReacts(cfg, i, sys.nodes[i], sys.epochs[i], sys'.epochs[i], e)
    && var sent := React(cfg, i, sys.nodes[i], e);
       sys' == System(sys.nodes[i := sent.core], sys.signed + Emitted(sent.vote), sys.epochs[i := sys'.epochs[i]])
  }

  ghost predicate Step(cfg: Config, sys: System, sys': System) {
    exists i, e :: StepOf(cfg, sys, sys', i, e)
  }

  ghost predicate StepAt(cfg: Config, run: seq<System>, k: int) {
    0 <= k < |run| - 1 ==> Step(cfg, run[k], run[k + 1])
  }

  ghost predicate IsRun(cfg: Config, run: seq<System>) {
    && run != [] && Start(cfg, run[0])
    && forall k :: StepAt(cfg, run, k)
  }

  ghost predicate SystemOK(cfg: Config, sys: System) {
    && sys.nodes.Keys !! cfg.faulty
    && (forall i :: HonestAt(cfg, sys, i))
    && (forall g :: g in sys.signed ==> g.signer in sys.nodes)
  }

  ghost predicate HonestAt(cfg: Config, sys: System, i: Address) {
    i in sys.nodes ==> Honest(cfg, sys.signed, i, sys.nodes[i])
  }

  lemma HonestDeliver(cfg: Config, signed: set<Signature>, i: Address, c: Core, b: Block)
    requires Honest(cfg, signed, i, c) && Genuine(cfg.bl, b) && b.hash !in c.chain.store
    requires UnforgedVotes(cfg, signed, b.hcc.votes)
    ensures Honest(cfg, signed, i, c.(chain := AddBlock(c.chain, b)))
  {
    SafeAddBlock(cfg, signed, c, b);
    AddBlockChildren(c.chain, b);
    VoterKept(cfg, signed, signed, i, c, c.(chain := AddBlock(c.chain, b)));
  }

  lemma HonestHear(cfg: Config, signed: set<Signature>, i: Address, c: Core, v: Vote)
    requires Honest(cfg, signed, i, c) && Unforged(cfg, signed, v)
    ensures Honest(cfg, signed, i, ReceiveVote(c, cfg.vals, v))
  {
    HonestAddVotes(cfg, signed, i, c, [v]);
    assert AddVotes(c, [v]) == AddVotes(AddVote(c, v), []);
    HonestCheckCC(cfg, signed, i, AddVote(c, v), v.block);
  }

  lemma HonestReact(cfg: Config, signed: set<Signature>, i: Address, c: Core, e: Event)
    requires Honest(cfg, signed, i, c) && Possible(cfg, signed, i, c, e)
    ensures var sent := React(cfg, i, c, e);
            Honest(cfg, signed + Emitted(sent.vote), i, sent.core)
  {
    assert signed + {} == signed;
    match e {
      case Deliver(b) => if b.hash !in c.chain.store { HonestDeliver(cfg, signed, i, c, b); }
      case Hear(v) => HonestHear(cfg, signed, i, c, v);
      case Process(h, listed, answer, ballot) =>
        if h in c.chain.store { HonestHandleBlock(cfg, signed, i, c, h, listed, answer, ballot); }
      case VoteTimer(ballot) => HonestCastVote(cfg, signed, i, c, ballot);
      case Restart =>
    }
  }

  lemma EmittedIsOwn(cfg: Config, i: Address, c: Core, e: Event)
    requires Loaded(c)
    ensures forall g :: g in Emitted(React(cfg, i, c, e).vote) ==> g.signer == i
  {}

  /** A node that moves on and signs for itself does not disturb the others. */
  lemma OneMovesOn(cfg: Config, sys: System, i: Address, c: Core, signed: set<Signature>,
                   epochs: map<Address, EpochState>)
    requires SystemOK(cfg, sys) && i in sys.nodes && sys.signed <= signed && Honest(cfg, signed, i, c)
    requires forall g :: g in signed && g !in sys.signed ==> g.signer == i
    ensures SystemOK(cfg, System(sys.nodes[i := c], signed, epochs))
  {
    var sys' := System(sys.nodes[i := c], signed, epochs);
    forall j: Address ensures HonestAt(cfg, sys', j) {
      assert HonestAt(cfg, sys, j);
      if j in sys.nodes && j != i { OtherStays(cfg, sys.signed, signed, j, sys.nodes[j]); }
    }
  }

  lemma OtherStays(cfg: Config, a: set<Signature>, b: set<Signature>, j: Address, c: Core)
    requires Honest(cfg, a, j, c) && a <= b && forall g :: g in b && g.signer == j ==> g in a
    ensures Honest(cfg, b, j, c)
  {
    NodeSafeMonotone(cfg, a, b, c);
    VoterKept(cfg, a, b, j, c, c);
  }

  lemma StepKeeps(cfg: Config, sys: System, sys': System)
    requires SystemOK(cfg, sys) && Step(cfg, sys, sys')
    ensures SystemOK(cfg, sys')
  {
    var i, e :| StepOf(cfg, sys, sys', i, e);
    assert HonestAt(cfg, sys, i);
    HonestReact(cfg, sys.signed, i, sys.nodes[i], e);
    EmittedIsOwn(cfg, i, sys.nodes[i], e);
    OneMovesOn(cfg, sys, i, sys'.nodes[i], sys'.signed, sys'.epochs);
  }

  lemma StartIsHonest(cfg: Config, i: Address)
    requires ConfigOK(cfg)
    ensures Honest(cfg, {}, i, StartCore(cfg.bl, cfg.root))
  {
    StartKeeps(cfg.bl, cfg.root);
    StartChain(cfg.bl, cfg.root);
  }

  lemma {:induction false} RunKeeps(cfg: Config, run: seq<System>, k: nat)
    requires ConfigOK(cfg) && IsRun(cfg, run) && k < |run|
    ensures SystemOK(cfg, run[k])
  {
    if k == 0 {
      forall i: Address ensures HonestAt(cfg, run[0], i) {
        StartIsHonest(cfg, i);
      }
    } else {
      RunKeeps(cfg, run, k - 1);
      assert StepAt(cfg, run, k - 1);
      StepKeeps(cfg, run[k - 1], run[k]);
    }
  }
}
