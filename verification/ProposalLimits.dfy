/** Own proposals that a node refuses (consensus/engine.go, createProposal against validateBlock).

    A proposer A holds a quarter of the stake and a voter B the rest. No block reaches B, so B votes for the
    root in every epoch. A hears these votes, moves on with B, and extends its own chain in every epoch: its
    blocks form a line above the root, and the root stays its highest certified block. */
module ProposalLimits {
  import opened Options
  import opened Validators
  import opened Votes
  import opened Blocks
  import opened ChainIndexes
  import opened Consensus
  import opened NodeInvariant
  import opened Epochs
  import opened Safety
  import opened Proposals
  import opened Agreement
  import opened Runs

  const ROOT: Hash := 1
  const A: Address := 1
  const B: Address := 2
  const VALS: seq<Validator> := [Validator(A, 1), Validator(B, 3)]

  /** B's vote for the root in epoch `e`. */
  function RootVote(e: nat): Vote {
    Vote(ROOT, 0, 0, e, B, Some(Signature(B, SignBytes(ROOT, e, B))))
  }

  /** The latest vote of B after epoch `e`; the first epoch is 1. */
  function Latest(e: nat): VoteMap {
    if e == 0 then map[] else map[KeyOf(RootVote(e)) := RootVote(e)]
  }

  /** The blocks of the line have the hashes 1, 2, 3 and so on, and the same epochs. */
  function LineBlock(h: Hash): Block {
    var below := if h == 0 then 0 else h - 1;
    Block(h, 0, h, below, below, CommitCertificate(Latest(below), ROOT), h, A, [])
  }

  ghost function LineConfig(): Config {
    Config(ROOT, LineBlock, VALS, {}, (h: Hash, e: nat) => A)
  }

  lemma BIsMajority()
    ensures StakeOf(VALS, {}) == 0 && TotalStake(VALS) == 4 && StakeOf(VALS, {B}) == 3 && Addresses(VALS) == {A, B}
  {
    var tail := [Validator(B, 3)];
    assert VALS[0].address == A && VALS[1].address == B && VALS[1..] == tail && tail[1..] == [];
    assert Addresses(VALS) == {A, B};
    assert forall who :: StakeOf(tail, who) == (if B in who then 3 else 0) + StakeOf(tail[1..], who);
  }

  lemma LineConfigOK()
    ensures ConfigOK(LineConfig())
  {
    BIsMajority();
  }

  // ---- The votes ----

  /** Only votes of B for the root, of the epochs 1 to `e`, have been heard, and the last of them has. */
  ghost predicate Heard(ch: ChainState, e: nat) {
    && (forall h :: h in ch.votes ==> h == ROOT)
    && (forall k :: k in VotesFor(ch, ROOT) ==> k.id == B && k.epoch <= e && VotesFor(ch, ROOT)[k] == RootVote(k.epoch))
    && (e > 0 ==> KeyOf(RootVote(e)) in VotesFor(ch, ROOT))
    && (e == 0 ==> VotesFor(ch, ROOT) == map[])
  }

  lemma HeardNext(ch: ChainState, e: nat)
    requires Heard(ch, e)
    ensures Heard(AddVoteToIndex(ch, RootVote(e + 1)), e + 1)
  {}

  lemma HeardLatest(ch: ChainState, e: nat)
    requires Heard(ch, e) && WellKeyed(VotesFor(ch, ROOT))
    ensures IsUniqueVoter(VotesFor(ch, ROOT), Latest(e)) && ByValidators(Latest(e), VALS) == Latest(e)
  {
    BIsMajority();
    var m := VotesFor(ch, ROOT);
    if e > 0 {
      assert m[KeyOf(RootVote(e))].id == B && Latest(e)[KeyOf(RootVote(e))].id == B;
      assert Voters(m) == {B} && Voters(Latest(e)) == {B};
    }
  }

  /** A vote of the current epoch ends the epoch ... */
  lemma EpochEnds(e: nat)
    requires e + 2 < EPOCHS
    ensures EpochStep(VALS, EpochState(e + 1, Latest(e)), EpochState(e + 2, Latest(e + 1)), RootVote(e + 1))
  {
    BIsMajority();
    var v, m := RootVote(e + 1), Latest(e + 1);
    assert m[KeyOf(v)] == v;
    assert Voters(m) == {B} && VotersSince(m, e + 1) == {B};
    assert Put(Latest(e), v)[KeyOf(v)].id == B;
    assert Voters(Put(Latest(e), v)) == {B};
  }

  /** ... and hearing it again changes nothing. */
  lemma EpochStays(e: nat)
    requires e > 0
    ensures EpochSteps(VALS, EpochState(e + 1, Latest(e)), EpochState(e + 1, Latest(e)), [RootVote(e)])
  {
    var s, v := EpochState(e + 1, Latest(e)), RootVote(e);
    assert Put(s.votes, v) == s.votes;
    assert EpochStep(VALS, s, s, v);
    assert EpochSteps(VALS, s, s, [v][1..]);
  }

  // ---- The line ----

  /** The node holds the first `n` blocks of the line, all validated. */
  ghost predicate IsLine(c: Core, n: nat) {
    && (forall h :: h in c.chain.store <==> ROOT <= h <= n)
    && (forall h :: h in c.chain.store ==> c.chain.store[h].status.IsValid() && !c.chain.store[h].hasValidatorUpdate)
    && c.hcc == ROOT && c.lfb == ROOT && ROOT in c.chain.store && StatusOf(c, ROOT) == DirectlyFinalized
  }

  /** ... and has heard B's votes of the epochs 1 to `e`. */
  ghost predicate LineNode(c: Core, n: nat, e: nat) {
    NodeOK(LineBlock, ROOT, c) && IsLine(c, n) && n >= ROOT && Heard(c.chain, e)
  }

  ghost predicate LineStore(c: Core, n: nat) {
    IsLine(c, n) && n >= ROOT && forall h :: h in c.chain.store ==> c.chain.store[h].block == LineBlock(h)
  }

  lemma {:induction false} LineIsReached(c: Core, n: nat, h: Hash)
    requires LineStore(c, n) && ROOT <= h <= n
    ensures Reaches(c.chain.store, false, ROOT, h)
    decreases h
  {
    if h > ROOT { LineIsReached(c, n, h - 1); }
  }

  lemma HighestOfLine(c: Core, n: nat)
    requires LineStore(c, n)
    ensures IsTip(c, false, n)
  {
    LineIsReached(c, n, n);
  }

  /** The tip is the last block of the line ... */
  lemma LineTip(c: Core, n: nat, e: nat)
    requires LineNode(c, n, e)
    ensures IsTip(c, false, n)
  {
    assert LineStore(c, n);
    HighestOfLine(c, n);
  }

  /** ... and the next block of the line is what the node proposes on it in epoch `n + 1`. */
  lemma LineProposal(c: Core, n: nat)
    requires LineNode(c, n, n)
    ensures c.hcc in c.chain.store && n in c.chain.store
    ensures IsProposal(c, EnvOf(LineConfig(), A), n, n + 1, LineBlock(n + 1))
    ensures ShouldPropose(EnvOf(LineConfig(), A), LineBlock(n), n + 1)
    ensures Genuine(LineBlock, LineBlock(n + 1)) && n + 1 !in c.chain.store && Backed(c, VALS)
  {
    assert c.chain.store[n].block == LineBlock(n);
    assert IndexedVotesOK(c.chain.votes, ROOT);
    HeardLatest(c.chain, n);
  }

  lemma LineRoom(c: Core, n: nat)
    requires c.hcc == ROOT && n >= ROOT
    ensures Extendable(LineBlock, c, n) <==> n < MAX_DISTANCE
  {}

  /** The node accepts its proposal exactly when the line is shorter than 2000 blocks. */
  lemma LineVerdict(c: Core, n: nat, env: Env, b: Block)
    requires LineNode(c, n, n) && env == EnvOf(LineConfig(), A) && b == LineBlock(n + 1)
    ensures n >= MAX_DISTANCE || Judges(c.(chain := AddBlock(c.chain, b)), env, b.hash, Ok)
    ensures n < MAX_DISTANCE || Judges(c.(chain := AddBlock(c.chain, b)), env, b.hash, Rejected)
  {
    LineRoom(c, n);
    LineTip(c, n, n);
    LineProposal(c, n);
    OwnProposalValidates(LineBlock, ROOT, c, env, n, n + 1, b);
  }

  // ---- The line grows ----

  /** B's vote is indexed already. */
  lemma HeardAgain(c: Core, e: nat)
    requires Heard(c.chain, e) && e > 0
    ensures AddVotes(c, [RootVote(e)]) == c
  {
    var v := RootVote(e);
    assert Put(VotesFor(c.chain, ROOT), v) == VotesFor(c.chain, ROOT);
    assert AddVote(c, v) == c;
    assert AddVotes(c, [v]) == AddVotes(AddVote(c, v), [v][1..]);
  }

  /** Nobody voted for blocks other than the root, so none of them is certified. */
  lemma NobodyVoted(c: Core, h: Hash, e: nat)
    requires Loaded(c) && Heard(c.chain, e) && h != ROOT
    ensures CheckCC(c, VALS, h) == c
  {
    var none: VoteMap := map[];
    assert Voters(none) == {};
    BIsMajority();
  }

  /** A block with B's latest vote in its certificate is accepted, and nothing else happens. */
  lemma LineAccepted(c: Core, h: Hash, e: nat)
    requires Loaded(c) && Replays(c, EnvOf(LineConfig(), A), h) && Heard(c.chain, e) && e > 0 && h != ROOT
    requires c.hcc == ROOT && BlockOf(c, h).hcc.blockHash == ROOT
    ensures HandleBlock(c, EnvOf(LineConfig(), A), h, [RootVote(e)], Applies(false), None) ==
              Handled(Accept(c, h, false), None)
  {
    HeardAgain(c, e);
    assert ReplayCertificate(c, VALS, BlockOf(c, h), [RootVote(e)]) == c;
    NobodyVoted(Accept(c, h, false), h, e);
    assert Decide(c, EnvOf(LineConfig(), A), h, Applies(false), None) == Sent(Accept(c, h, false), None);
  }

  lemma LineIsLonger(c: Core, n: nat, b: Block)
    requires IsLine(c, n) && n >= ROOT && b.hash == n + 1 && HashesOK(c.chain.store) && HeightsOK(c.chain)
    ensures var c' := c.(chain := AddBlock(c.chain, b));
            && b.hash in c'.chain.store && c'.chain.votes == c.chain.votes && Loaded(c') && c'.hcc == ROOT
            && StatusOf(c', b.hash) == Pending && BlockOf(c', b.hash) == b
            && IsLine(Accept(c', b.hash, false), n + 1)
  {
    AddBlockChildren(c.chain, b);
  }

  /** `c'` is `c` with the new block. */
  lemma LineGrows(c: Core, n: nat, env: Env, b: Block, c': Core)
    requires LineNode(c, n, n) && n < MAX_DISTANCE && env == EnvOf(LineConfig(), A) && b == LineBlock(n + 1)
    requires c' == c.(chain := AddBlock(c.chain, b))
    ensures Loaded(c') && b.hash in c'.chain.store && Replays(c', env, b.hash) && Heard(c'.chain, n)
    ensures HandleBlock(c', env, b.hash, [RootVote(n)], Applies(false), None) ==
              Handled(Accept(c', b.hash, false), None)
    ensures IsLine(Accept(c', b.hash, false), n + 1)
  {
    LineVerdict(c, n, env, b);
    LineIsLonger(c, n, b);
    assert Heard(c'.chain, n);
    LineAccepted(c', b.hash, n);
  }

  // ---- The run ----

  /** B holds the root and has voted for nothing else. */
  ghost predicate HoldsRoot(c: Core) {
    && c.hcc == ROOT && c.lfb == ROOT && c.lastVote.height == 0
    && (forall h :: h in c.chain.store <==> h == ROOT)
    && StatusOf(c, ROOT) == DirectlyFinalized && BlockOf(c, ROOT) == LineBlock(ROOT)
  }

  /** A holds `n` blocks and has heard B's votes up to epoch `e`. */
  ghost predicate AIsAt(sys: System, n: nat, e: nat) {
    && A in sys.nodes && A in sys.epochs && n >= ROOT
    && IsLine(sys.nodes[A], n) && Heard(sys.nodes[A].chain, e) && sys.epochs[A] == EpochState(e + 1, Latest(e))
  }

  ghost predicate BIsAt(sys: System, e: nat) {
    B in sys.nodes && B in sys.epochs && HoldsRoot(sys.nodes[B]) && sys.epochs[B] == EpochState(e + 1, Latest(e))
  }

  ghost predicate BHasSigned(sys: System, e: nat) {
    e > 0 ==> RootVote(e).signature.value in sys.signed
  }

  ghost predicate EndsAt(run: seq<System>, n: nat, e: nat) {
    IsRun(LineConfig(), run) && AIsAt(Last(run), n, e) && BIsAt(Last(run), e) && BHasSigned(Last(run), e)
  }

  lemma LineStarts() returns (run: seq<System>)
    ensures EndsAt(run, ROOT, 0)
  {
    StartChain(LineBlock, ROOT);
    var c, s := StartCore(LineBlock, ROOT), EpochState(1, map[]);
    run := [System(map[A := c, B := c], {}, map[A := s, B := s])];
  }

  /** B votes for the root. */
  lemma BVotes(c: Core, e: nat)
    requires HoldsRoot(c)
    ensures IsTip(c, true, ROOT)
    ensures var sent := CastVote(c, EnvOf(LineConfig(), B), Ballot(ROOT, e, 0));
            sent.vote == Some(RootVote(e)) && HoldsRoot(sent.core)
  {
    BIsMajority();
  }

  /** A vote for the root only changes the index. */
  lemma RootVoteIsIndexed(c: Core, e: nat)
    requires Loaded(c) && ROOT in c.chain.store && StatusOf(c, ROOT) == DirectlyFinalized
    ensures ReceiveVote(c, VALS, RootVote(e)) == c.(chain := AddVoteToIndex(c.chain, RootVote(e)))
  {}

  lemma BSigns(run: seq<System>, n: nat, e: nat) returns (longer: seq<System>)
    requires EndsAt(run, n, e)
    ensures IsRun(LineConfig(), longer)
    ensures AIsAt(Last(longer), n, e) && BIsAt(Last(longer), e) && BHasSigned(Last(longer), e + 1)
  {
    var c, ballot := Last(run).nodes[B], Ballot(ROOT, e + 1, 0);
    BVotes(c, e + 1);
    var sent := CastVote(c, EnvOf(LineConfig(), B), ballot);
    longer := VoteStep(LineConfig(), run, B, c, ballot, sent.core, RootVote(e + 1));
  }

  lemma BHears(run: seq<System>, n: nat, e: nat) returns (longer: seq<System>)
    requires IsRun(LineConfig(), run) && e + 2 < EPOCHS
    requires AIsAt(Last(run), n, e) && BIsAt(Last(run), e) && BHasSigned(Last(run), e + 1)
    ensures IsRun(LineConfig(), longer)
    ensures AIsAt(Last(longer), n, e) && BIsAt(Last(longer), e + 1) && BHasSigned(Last(longer), e + 1)
  {
    RootVoteIsIndexed(Last(run).nodes[B], e + 1);
    EpochEnds(e);
    longer := HearStep(LineConfig(), run, B, Last(run).nodes[B], RootVote(e + 1), EpochState(e + 2, Latest(e + 1)));
  }

  lemma AHears(run: seq<System>, n: nat, e: nat) returns (longer: seq<System>)
    requires IsRun(LineConfig(), run) && e + 2 < EPOCHS
    requires AIsAt(Last(run), n, e) && BIsAt(Last(run), e + 1) && BHasSigned(Last(run), e + 1)
    ensures EndsAt(longer, n, e + 1)
  {
    RootVoteIsIndexed(Last(run).nodes[A], e + 1);
    HeardNext(Last(run).nodes[A].chain, e);
    EpochEnds(e);
    longer := HearStep(LineConfig(), run, A, Last(run).nodes[A], RootVote(e + 1), EpochState(e + 2, Latest(e + 1)));
  }

  lemma VoteRound(run: seq<System>, n: nat, e: nat) returns (longer: seq<System>)
    requires EndsAt(run, n, e) && e + 2 < EPOCHS
    ensures EndsAt(longer, n, e + 1)
  {
    longer := BSigns(run, n, e);
    longer := BHears(longer, n, e);
    longer := AHears(longer, n, e);
  }

  /** A receives its own proposal ... */
  lemma ADelivers(run: seq<System>, n: nat, b: Block) returns (longer: seq<System>, c': Core)
    requires EndsAt(run, n, n) && LineNode(Last(run).nodes[A], n, n) && b == LineBlock(n + 1)
    ensures IsRun(LineConfig(), longer) && BIsAt(Last(longer), n) && BHasSigned(Last(longer), n)
    ensures A in Last(longer).nodes && A in Last(longer).epochs && Last(longer).epochs[A] == Last(run).epochs[A]
    ensures Last(longer).nodes[A] == c' == Last(run).nodes[A].(chain := AddBlock(Last(run).nodes[A].chain, b))
  {
    var c := Last(run).nodes[A];
    LineProposal(c, n);
    longer := DeliverStep(LineConfig(), run, A, c, b);
    c' := Last(longer).nodes[A];
  }

  /** ... and processes it. */
  lemma AProcesses(run: seq<System>, n: nat, b: Block, c': Core) returns (longer: seq<System>)
    requires IsRun(LineConfig(), run) && BIsAt(Last(run), n) && BHasSigned(Last(run), n) && n > 0
    requires A in Last(run).nodes && Last(run).nodes[A] == c'
    requires A in Last(run).epochs && Last(run).epochs[A] == EpochState(n + 1, Latest(n))
    requires Loaded(c') && b == LineBlock(n + 1) && b.hash in c'.chain.store
    requires Replays(c', EnvOf(LineConfig(), A), b.hash) && Heard(c'.chain, n)
    requires HandleBlock(c', EnvOf(LineConfig(), A), b.hash, [RootVote(n)], Applies(false), None) ==
               Handled(Accept(c', b.hash, false), None)
    requires IsLine(Accept(c', b.hash, false), n + 1)
    ensures EndsAt(longer, n + 1, n)
  {
    EpochStays(n);
    ListsLatest(n);
    longer := ProcessStep(LineConfig(), run, A, c', b.hash, [RootVote(n)], Accept(c', b.hash, false));
  }

  lemma ListsLatest(e: nat)
    requires e > 0
    ensures Enumerates(Latest(e), [RootVote(e)])
  {
    assert Latest(e)[KeyOf(RootVote(e))] == RootVote(e);
    assert Latest(e).Values == {RootVote(e)};
  }

  lemma LineEnd(run: seq<System>, n: nat) returns (c: Core)
    requires EndsAt(run, n, n)
    ensures c == Last(run).nodes[A] && LineNode(c, n, n)
  {
    c := Last(run).nodes[A];
    LineConfigOK();
    LastIsOK(LineConfig(), run, A);
  }

  lemma BlockRound(run: seq<System>, n: nat) returns (longer: seq<System>)
    requires EndsAt(run, n, n) && n < MAX_DISTANCE
    ensures EndsAt(longer, n + 1, n)
  {
    var c := LineEnd(run, n);
    var b := LineBlock(n + 1);
    var c';
    longer, c' := ADelivers(run, n, b);
    LineGrows(c, n, EnvOf(LineConfig(), A), b, c');
    longer := AProcesses(longer, n, b, c');
  }

  /** There is a run at the end of which A holds `n` blocks and is in epoch `n + 1`. */
  lemma {:induction false} LineRun(n: nat) returns (run: seq<System>)
    requires 1 <= n <= MAX_DISTANCE
    ensures EndsAt(run, n, n)
    decreases n, 1
  {
    run := BlockOfLine(n);
    run := VoteRound(run, n, n - 1);
  }

  lemma {:induction false} BlockOfLine(n: nat) returns (run: seq<System>)
    requires 1 <= n <= MAX_DISTANCE
    ensures EndsAt(run, n, n - 1)
    decreases n, 0
  {
    if n == 1 {
      run := LineStarts();
    } else {
      run := LineRun(n - 1);
      run := BlockRound(run, n - 1);
    }
  }

  /** Node `i`, in its epoch at the end of the run, proposes `b` on its tip, and refuses it. */
  ghost predicate RefusesOwnProposal(cfg: Config, run: seq<System>, i: Address, tip: Hash, b: Block) {
    && IsRun(cfg, run) && i in Last(run).nodes && i in Last(run).epochs
    && var c, epoch := Last(run).nodes[i], Last(run).epochs[i].epoch;
       && Loaded(c) && IsTip(c, false, tip)
       && IsProposal(c, EnvOf(cfg, i), tip, epoch, b) && ShouldPropose(EnvOf(cfg, i), cfg.bl(tip), epoch)
       && Genuine(cfg.bl, b) && b.hash !in c.chain.store
       && Judges(c.(chain := AddBlock(c.chain, b)), EnvOf(cfg, i), b.hash, Rejected)
  }

  /** A node refuses to extend a tip that is 1999 blocks above its highest certified block. */
  lemma ProposalTooFar() returns (run: seq<System>)
    ensures ConfigOK(LineConfig())
    ensures RefusesOwnProposal(LineConfig(), run, A, MAX_DISTANCE, LineBlock(MAX_DISTANCE + 1))
  {
    run := LineRun(MAX_DISTANCE);
    var c := LineEnd(run, MAX_DISTANCE);
    LineConfigOK();
    LineTip(c, MAX_DISTANCE, MAX_DISTANCE);
    LineProposal(c, MAX_DISTANCE);
    LineVerdict(c, MAX_DISTANCE, EnvOf(LineConfig(), A), LineBlock(MAX_DISTANCE + 1));
  }
}
