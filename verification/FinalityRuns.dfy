/** A run in which blocks are finalized (consensus/engine.go).

    Above the root come X, Y and Z, one on top of the other. An honest validator with three quarters of the stake
    votes for Y, not for X; Z names Y as its certified block. Once the validator has heard its own vote for Z, Y is
    finalized directly, and X with it: X goes from valid to indirectly finalized and is never committed. */
module FinalityRuns {
  import opened Options
  import opened Validators
  import opened Votes
  import opened Blocks
  import opened ChainIndexes
  import opened Consensus
  import opened NodeInvariant
  import opened Epochs
  import opened Safety
  import opened Proposals
  import opened Agreement
  import opened Runs

  const ROOT: Hash := 1
  const X: Hash := 2
  const Y: Hash := 3
  const Z: Hash := 4
  const SELF: Address := 1
  const OTHER: Address := 2
  const VALS: seq<Validator> := [Validator(SELF, 3), Validator(OTHER, 1)]

  function OwnVote(h: Hash, epoch: nat): Vote {
    Vote(h, if h == 0 then 0 else h - 1, 0, epoch, SELF, Some(Signature(SELF, SignBytes(h, epoch, SELF))))
  }

  function OneVote(v: Vote): VoteMap {
    map[KeyOf(v) := v]
  }

  /** The other validator makes the blocks. */
  function SmallBlock(h: Hash): Block {
    var below := if h == 0 then 0 else h - 1;
    var hcc := if h == Z then CommitCertificate(OneVote(OwnVote(Y, 1)), Y) else CommitCertificate(map[], ROOT);
    Block(h, 0, h, below, below, hcc, h, OTHER, [])
  }

  ghost function SmallConfig(): Config {
    Config(ROOT, SmallBlock, VALS, {OTHER}, (h: Hash, e: nat) => OTHER)
  }

  lemma Stakes()
    ensures StakeOf(VALS, {}) == 0 && StakeOf(VALS, {OTHER}) == 1 && StakeOf(VALS, {SELF}) == 3
    ensures TotalStake(VALS) == 4 && Addresses(VALS) == {SELF, OTHER}
  {
    var tail := [Validator(OTHER, 1)];
    assert VALS[0].address == SELF && VALS[1].address == OTHER && VALS[1..] == tail && tail[1..] == [];
    assert Addresses(VALS) == {SELF, OTHER};
    assert forall who :: StakeOf(tail, who) == (if OTHER in who then 1 else 0) + StakeOf(tail[1..], who);
  }

  lemma SmallConfigOK()
    ensures ConfigOK(SmallConfig())
  {
    Stakes();
  }

  // ---- The node ----

  /** The blocks 1 to |statuses| are stored with these statuses, and none has a validator update. */
  ghost predicate Holds(c: Core, statuses: seq<Status>) {
    && (forall h :: h in c.chain.store <==> 1 <= h <= |statuses|)
    && (forall h :: h in c.chain.store ==> StatusOf(c, h) == statuses[h - 1] && BlockOf(c, h) == SmallBlock(h))
    && (forall h :: h in c.chain.store ==> !c.chain.store[h].hasValidatorUpdate)
  }

  lemma Delivers(c: Core, statuses: seq<Status>, b: Block, c': Core)
    requires Holds(c, statuses) && HashesOK(c.chain.store) && HeightsOK(c.chain)
    requires b == SmallBlock(b.hash) && b.hash == |statuses| + 1 && c' == c.(chain := AddBlock(c.chain, b))
    ensures Holds(c', statuses + [Pending]) && c'.chain.votes == c.chain.votes
  {
    AddingExtends(c, b);
    HoldsOneMore(c, statuses, b, c');
  }

  lemma HoldsOneMore(c: Core, statuses: seq<Status>, b: Block, c': Core)
    requires Holds(c, statuses) && b == SmallBlock(b.hash) && b.hash == |statuses| + 1
    requires Extends(c.chain.store, c'.chain.store) && c'.chain.store.Keys == c.chain.store.Keys + {b.hash}
    requires BlockOf(c', b.hash) == b && StatusOf(c', b.hash) == Pending && !c'.chain.store[b.hash].hasValidatorUpdate
    ensures Holds(c', statuses + [Pending])
  {}

  lemma Accepts(c: Core, statuses: seq<Status>)
    requires Holds(c, statuses + [Pending])
    ensures var h := |statuses| + 1;
            h in c.chain.store && Holds(Accept(c, h, false), statuses + [Valid])
  {}

  /** Without votes for it, a block is not certified. */
  lemma NoVotes(c: Core, h: Hash)
    requires Loaded(c) && h !in c.chain.votes
    ensures CheckCC(c, VALS, h) == c
  {
    var none: VoteMap := map[];
    assert Voters(none) == {};
    Stakes();
  }

  lemma Processes(c: Core, env: Env, h: Hash, listed: seq<Vote>)
    requires env == EnvOf(SmallConfig(), SELF)
    requires Judges(c, env, h, Ok) && StatusOf(c, h) == Pending && h !in c.chain.votes
    requires AddVotes(c, listed) == c && BlockOf(c, h).hcc.blockHash == c.hcc
    ensures HandleBlock(c, env, h, listed, Applies(false), None) == Handled(Accept(c, h, false), None)
  {
    NoVotes(Accept(c, h, false), h);
    assert Decide(c, env, h, Applies(false), None) == Sent(Accept(c, h, false), None);
  }

  lemma JudgesFirst(c: Core, env: Env)
    requires env == EnvOf(SmallConfig(), SELF) && Holds(c, [DirectlyFinalized, Pending])
    requires c.hcc == ROOT && c.lfb == ROOT
    ensures Judges(c, env, X, Ok)
  {
    assert ParentAt(c.chain.store, X, 1) == Some(ROOT);
  }

  lemma JudgesSecond(c: Core, env: Env)
    requires env == EnvOf(SmallConfig(), SELF) && Holds(c, [DirectlyFinalized, Valid, Pending])
    requires c.hcc == ROOT && c.lfb == ROOT
    ensures Judges(c, env, Y, Ok)
  {
    assert ParentAt(c.chain.store, X, 1) == Some(ROOT);
    assert ParentAt(c.chain.store, Y, 2) == Some(ROOT);
  }

  lemma CertificateForY()
    ensures ValidCertificate(CommitCertificate(OneVote(OwnVote(Y, 1)), Y), VALS)
  {
    var v := OwnVote(Y, 1);
    var m := OneVote(v);
    Stakes();
    assert m[KeyOf(v)] == v;
    assert Voters(m) == {SELF};
  }

  lemma JudgesThird(c: Core, env: Env)
    requires env == EnvOf(SmallConfig(), SELF) && Holds(c, [DirectlyFinalized, Valid, Committed, Pending])
    requires c.hcc == Y && c.lfb == ROOT
    ensures Judges(c, env, Z, Ok)
  {
    CertificateForY();
    assert ParentAt(c.chain.store, Z, 1) == Some(Y);
  }

  // ---- Votes ----

  lemma {:induction false} LineReached(c: Core, statuses: seq<Status>, from: Hash, h: Hash)
    requires Holds(c, statuses) && 1 <= from <= h <= |statuses|
    requires forall k :: 0 <= k < |statuses| ==> statuses[k].IsValid()
    ensures Reaches(c.chain.store, true, from, h)
    decreases h
  {
    if h > from { LineReached(c, statuses, from, h - 1); }
  }

  /** The node votes for the last block it holds. */
  lemma VotesForLast(c: Core, statuses: seq<Status>, epoch: nat)
    requires Holds(c, statuses) && 1 <= c.hcc <= |statuses|
    requires forall k :: 0 <= k < |statuses| ==> statuses[k].IsValid()
    requires !RepeatsVote(c.lastVote, c.hcc, SmallBlock(|statuses|))
    ensures IsTip(c, true, |statuses|)
    ensures CastVote(c, EnvOf(SmallConfig(), SELF), Ballot(|statuses|, epoch, 0)) ==
              var v := OwnVote(|statuses|, epoch); Sent(c.(lastVote := v), Some(v))
  {
    Stakes();
    LineReached(c, statuses, c.hcc, |statuses|);
  }

  /** The node's own vote of its epoch ends the epoch. */
  lemma EpochEnds(m: VoteMap, h: Hash, e: nat)
    requires h != EMPTY_HASH && e + 1 < EPOCHS && (forall k :: k in m ==> m[k].id == SELF && m[k].epoch < e)
    ensures EpochStep(VALS, EpochState(e, m), EpochState(e + 1, OneVote(OwnVote(h, e))), OwnVote(h, e))
  {
    var v := OwnVote(h, e);
    var r := OneVote(v);
    Stakes();
    assert r[KeyOf(v)] == v && Put(m, v)[KeyOf(v)] == v;
    assert Voters(r) == {SELF} && VotersSince(r, e) == {SELF} && Voters(Put(m, v)) == {SELF};
  }

  lemma VoteHeardAgain()
    ensures var v := OwnVote(Y, 1);
            var s := EpochState(2, OneVote(v));
            EpochSteps(VALS, s, s, [v]) && Enumerates(OneVote(v), [v])
  {
    var v := OwnVote(Y, 1);
    var s := EpochState(2, OneVote(v));
    assert Put(s.votes, v) == s.votes;
    assert EpochStep(VALS, s, s, v);
    assert EpochSteps(VALS, s, s, [v][1..]);
    assert OneVote(v)[KeyOf(v)] == v;
    assert OneVote(v).Values == {v};
  }

  lemma OwnVoteIsQuorum(c: Core, h: Hash, e: nat)
    requires h in c.chain.votes && c.chain.votes[h] == OneVote(OwnVote(h, e))
    ensures HasQuorum(c, VALS, h)
  {
    Stakes();
    var v := OwnVote(h, e);
    assert OneVote(v)[KeyOf(v)] == v;
    assert Voters(OneVote(v)) == {SELF};
  }

  // ---- The run ----

  /** The parts of the node's state that matter here. */
  datatype Snapshot = Snapshot(
    statuses: seq<Status>, hcc: Hash, lastVote: Vote, votes: map<Hash, VoteMap>, epoch: EpochState)

  ghost predicate Pictures(c: Core, p: Snapshot) {
    && Holds(c, p.statuses) && c.hcc == p.hcc && c.lfb == ROOT && ROOT <= p.hcc <= |p.statuses|
    && c.lastVote == p.lastVote && c.chain.votes == p.votes
  }

  ghost predicate Shows(sys: System, p: Snapshot) {
    SELF in sys.nodes && SELF in sys.epochs && sys.epochs[SELF] == p.epoch && Pictures(sys.nodes[SELF], p)
  }

  ghost predicate EndsAt(run: seq<System>, p: Snapshot) {
    IsRun(SmallConfig(), run) && Shows(Last(run), p)
  }

  lemma SmallStart() returns (run: seq<System>)
    ensures EndsAt(run, Snapshot([DirectlyFinalized], ROOT, NO_VOTE, map[], EpochState(1, map[])))
  {
    StartChain(SmallBlock, ROOT);
    var c, s := StartCore(SmallBlock, ROOT), EpochState(1, map[]);
    run := [System(map[SELF := c], {}, map[SELF := s])];
  }

  lemma ChainIsOK(run: seq<System>)
    requires IsRun(SmallConfig(), run) && SELF in Last(run).nodes
    ensures HashesOK(Last(run).nodes[SELF].chain.store) && HeightsOK(Last(run).nodes[SELF].chain)
  {
    SmallConfigOK();
    LastIsOK(SmallConfig(), run, SELF);
  }

  lemma Receives(run: seq<System>, p: Snapshot, b: Block) returns (longer: seq<System>)
    requires EndsAt(run, p) && b == SmallBlock(b.hash) && b.hash == |p.statuses| + 1
    requires UnforgedVotes(SmallConfig(), Last(run).signed, b.hcc.votes)
    ensures EndsAt(longer, p.(statuses := p.statuses + [Pending]))
  {
    var c := Last(run).nodes[SELF];
    ChainIsOK(run);
    Delivers(c, p.statuses, b, c.(chain := AddBlock(c.chain, b)));
    longer := DeliverStep(SmallConfig(), run, SELF, c, b);
  }

  lemma Validates(run: seq<System>, p: Snapshot, statuses: seq<Status>, b: Block, listed: seq<Vote>)
    returns (longer: seq<System>)
    requires EndsAt(run, p) && p.statuses == statuses + [Pending] && b.hash == |p.statuses| && b.hash !in p.votes
    requires b == SmallBlock(b.hash) && b.hcc.blockHash == p.hcc && Enumerates(b.hcc.votes, listed)
    requires Judges(Last(run).nodes[SELF], EnvOf(SmallConfig(), SELF), b.hash, Ok)
    requires AddVotes(Last(run).nodes[SELF], listed) == Last(run).nodes[SELF]
    requires EpochSteps(VALS, p.epoch, p.epoch, listed)
    ensures EndsAt(longer, p.(statuses := statuses + [Valid]))
  {
    var c := Last(run).nodes[SELF];
    Processes(c, EnvOf(SmallConfig(), SELF), b.hash, listed);
    Accepts(c, statuses);
    longer := ProcessStep(SmallConfig(), run, SELF, c, b.hash, listed, Accept(c, b.hash, false));
  }

  /** A certificate without votes is replayed without effect. */
  lemma ValidatesEmpty(run: seq<System>, p: Snapshot, statuses: seq<Status>, b: Block) returns (longer: seq<System>)
    requires EndsAt(run, p) && p.statuses == statuses + [Pending] && b.hash == |p.statuses| && b.hash !in p.votes
    requires b == SmallBlock(b.hash) && b.hcc.blockHash == p.hcc && b.hcc.votes == map[]
    requires Judges(Last(run).nodes[SELF], EnvOf(SmallConfig(), SELF), b.hash, Ok)
    ensures EndsAt(longer, p.(statuses := statuses + [Valid]))
  {
    assert Enumerates(b.hcc.votes, []) by { assert b.hcc.votes.Values == {}; }
    longer := Validates(run, p, statuses, b, []);
  }

  lemma VotesNow(run: seq<System>, p: Snapshot, v: Vote) returns (longer: seq<System>)
    requires EndsAt(run, p) && v == OwnVote(|p.statuses|, p.epoch.epoch)
    requires forall k :: 0 <= k < |p.statuses| ==> p.statuses[k].IsValid()
    requires !RepeatsVote(p.lastVote, p.hcc, SmallBlock(|p.statuses|))
    ensures EndsAt(longer, p.(lastVote := v)) && v.signature.value in Last(longer).signed
  {
    var c := Last(run).nodes[SELF];
    VotesForLast(c, p.statuses, v.epoch);
    longer := VoteStep(SmallConfig(), run, SELF, c, Ballot(v.block, v.epoch, 0), c.(lastVote := v), v);
  }

  lemma Hears(run: seq<System>, p: Snapshot, v: Vote, s: EpochState, c: Core) returns (longer: seq<System>)
    requires EndsAt(run, p) && Last(run).nodes[SELF] == c
    requires v.signature.Some? && v.signature.value in Last(run).signed && EpochStep(VALS, p.epoch, s, v)
    ensures IsRun(SmallConfig(), longer) && |longer| == |run| + 1
    ensures longer[|longer| - 2] == Last(run) && Last(longer).signed == Last(run).signed
    ensures SELF in Last(longer).nodes && Last(longer).nodes[SELF] == ReceiveVote(c, VALS, v)
    ensures SELF in Last(longer).epochs && Last(longer).epochs[SELF] == s
  {
    longer := HearStep(SmallConfig(), run, SELF, c, v, s);
  }

  // ---- The certificates ----

  /** Y is certified, and its parent is not the block it names: nothing is finalized. */
  lemma CommitsY(c: Core, c': Core)
    requires Holds(c, [DirectlyFinalized, Valid, Valid]) && c.hcc == ROOT && c.lfb == ROOT && c.chain.votes == map[]
    requires c' == ReceiveVote(c, VALS, OwnVote(Y, 1))
    ensures Holds(c', [DirectlyFinalized, Valid, Committed]) && c'.hcc == Y && c'.lfb == ROOT
    ensures c'.lastVote == c.lastVote && c'.chain.votes == map[Y := OneVote(OwnVote(Y, 1))]
  {
    var c1 := AddVote(c, OwnVote(Y, 1));
    assert c1.chain.votes == map[Y := OneVote(OwnVote(Y, 1))];
    OwnVoteIsQuorum(c1, Y, 1);
    assert c' == Mark(c1, Y, Committed).(hcc := Y);
  }

  /** Z is certified and names its parent Y: Y and its ancestors are finalized. */
  lemma FinalizesY(c: Core, c': Core)
    requires Holds(c, [DirectlyFinalized, Valid, Committed, Valid])
    requires c.hcc == Y && c.lfb == ROOT && Z !in c.chain.votes
    requires c' == ReceiveVote(c, VALS, OwnVote(Z, 2))
    ensures X in c'.chain.store && StatusOf(c', X) == IndirectlyFinalized
    ensures Y in c'.chain.store && StatusOf(c', Y) == DirectlyFinalized
    ensures c'.hcc == Z && c'.lfb == Y
  {
    var c1 := AddVote(c, OwnVote(Z, 2));
    assert c1.chain.votes[Z] == OneVote(OwnVote(Z, 2));
    OwnVoteIsQuorum(c1, Z, 2);
    FinalizesBranchOfY(c1.chain);
    assert c' == Mark(FinalizeBlock(c1, Y), Z, Committed).(hcc := Z);
  }

  lemma FinalizesBranchOfY(ch: ChainState)
    requires forall h :: h in ch.store <==> ROOT <= h <= Z
    requires forall h :: h in ch.store ==> ch.store[h].block == SmallBlock(h)
    requires ch.store[ROOT].status.IsFinalized() && ch.store[X].status == Valid && ch.store[Y].status == Committed
    ensures var s := FinalizePrevious(ch, Y, DirectlyFinalized).store;
            s[X].status == IndirectlyFinalized && s[Y].status == DirectlyFinalized
  {
    FinalizingShrinks(ch.store, Y, DirectlyFinalized);
    var ch1 := FinalizeOne(ch, Y, DirectlyFinalized);
    FinalizingShrinks(ch1.store, X, IndirectlyFinalized);
    var ch2 := FinalizeOne(ch1, X, IndirectlyFinalized);
    assert FinalizePrevious(ch2, ROOT, IndirectlyFinalized) == ch2;
  }

  // ---- Put together ----

  const START := Snapshot([DirectlyFinalized], ROOT, NO_VOTE, map[], EpochState(1, map[]))
  const VOTE_Y := OwnVote(Y, 1)
  const VOTE_Z := OwnVote(Z, 2)

  /** X and Y are validated, one after the other ... */
  lemma UpToX() returns (run: seq<System>)
    ensures EndsAt(run, START.(statuses := [DirectlyFinalized, Valid]))
  {
    run := SmallStart();
    run := Receives(run, START, SmallBlock(X));
    assert [DirectlyFinalized, Pending] == [DirectlyFinalized] + [Pending];
    JudgesFirst(Last(run).nodes[SELF], EnvOf(SmallConfig(), SELF));
    run := ValidatesEmpty(run, START.(statuses := [DirectlyFinalized, Pending]), [DirectlyFinalized], SmallBlock(X));
    assert [DirectlyFinalized, Valid] == [DirectlyFinalized] + [Valid];
  }

  lemma UpToY() returns (run: seq<System>)
    ensures EndsAt(run, START.(statuses := [DirectlyFinalized, Valid, Valid]))
  {
    var two := [DirectlyFinalized, Valid];
    run := UpToX();
    run := Receives(run, START.(statuses := two), SmallBlock(Y));
    run := ValidatesY(run, START.(statuses := two + [Pending]));
    assert [DirectlyFinalized, Valid, Valid] == two + [Valid];
  }

  lemma ValidatesY(run: seq<System>, p: Snapshot) returns (longer: seq<System>)
    requires EndsAt(run, p) && p == START.(statuses := [DirectlyFinalized, Valid] + [Pending])
    ensures EndsAt(longer, p.(statuses := [DirectlyFinalized, Valid] + [Valid]))
  {
    assert p.statuses == [DirectlyFinalized, Valid, Pending];
    JudgesSecond(Last(run).nodes[SELF], EnvOf(SmallConfig(), SELF));
    longer := ValidatesEmpty(run, p, [DirectlyFinalized, Valid], SmallBlock(Y));
  }

  const Y_COMMITTED := Snapshot(
    [DirectlyFinalized, Valid, Committed], Y, VOTE_Y, map[Y := OneVote(VOTE_Y)], EpochState(2, OneVote(VOTE_Y)))

  /** ... Y is certified ... */
  lemma UpToCommittedY() returns (run: seq<System>)
    ensures EndsAt(run, Y_COMMITTED) && VOTE_Y.signature.value in Last(run).signed
  {
    run := UpToY();
    var p := START.(statuses := [DirectlyFinalized, Valid, Valid]);
    run := VotesNow(run, p, VOTE_Y);
    var c := Last(run).nodes[SELF];
    CommitsY(c, ReceiveVote(c, VALS, VOTE_Y));
    EpochEnds(map[], Y, 1);
    run := Hears(run, p.(lastVote := VOTE_Y), VOTE_Y, Y_COMMITTED.epoch, c);
  }

  const Z_VALID := Y_COMMITTED.(statuses := [DirectlyFinalized, Valid, Committed, Valid])

  /** ... Z is validated ... */
  lemma UpToZ() returns (run: seq<System>)
    ensures EndsAt(run, Z_VALID)
  {
    run := UpToCommittedY();
    run := Receives(run, Y_COMMITTED, SmallBlock(Z));
    run := ValidatesZ(run, Y_COMMITTED.(statuses := Y_COMMITTED.statuses + [Pending]));
    assert Z_VALID.statuses == Y_COMMITTED.statuses + [Valid];
  }

  lemma ValidatesZ(run: seq<System>, p: Snapshot) returns (longer: seq<System>)
    requires EndsAt(run, p) && p == Y_COMMITTED.(statuses := Y_COMMITTED.statuses + [Pending])
    ensures EndsAt(longer, p.(statuses := Y_COMMITTED.statuses + [Valid]))
  {
    assert p.statuses == [DirectlyFinalized, Valid, Committed, Pending];
    var c := Last(run).nodes[SELF];
    JudgesThird(c, EnvOf(SmallConfig(), SELF));
    VoteHeardAgain();
    YHeardAgain(c);
    longer := Validates(run, p, Y_COMMITTED.statuses, SmallBlock(Z), [VOTE_Y]);
  }

  lemma YHeardAgain(c: Core)
    requires c.chain.votes == map[Y := OneVote(VOTE_Y)]
    ensures AddVotes(c, [VOTE_Y]) == c
  {
    assert Put(OneVote(VOTE_Y), VOTE_Y) == OneVote(VOTE_Y);
    assert AddVote(c, VOTE_Y) == c;
    assert AddVotes(c, [VOTE_Y]) == AddVotes(AddVote(c, VOTE_Y), [VOTE_Y][1..]);
  }

  lemma UpToVotedZ() returns (run: seq<System>)
    ensures EndsAt(run, Z_VALID.(lastVote := VOTE_Z)) && VOTE_Z.signature.value in Last(run).signed
  {
    run := UpToZ();
    run := VotesNow(run, Z_VALID, VOTE_Z);
  }

  lemma SecondEpochEnds(s: EpochState)
    requires s == EpochState(3, OneVote(VOTE_Z))
    ensures EpochStep(VALS, Z_VALID.epoch, s, VOTE_Z)
  {
    EpochEnds(OneVote(VOTE_Y), Z, 2);
  }

  /** ... and the certificate for Z finalizes Y directly, from committed, and X indirectly, from valid. */
  lemma FinalizingRun() returns (run: seq<System>, c: Core, c': Core)
    ensures ConfigOK(SmallConfig()) && IsRun(SmallConfig(), run) && |run| >= 2
    ensures SELF in run[|run| - 2].nodes && run[|run| - 2].nodes[SELF] == c
    ensures SELF in Last(run).nodes && Last(run).nodes[SELF] == c'
    ensures X in c.chain.store && StatusOf(c, X) == Valid
    ensures X in c'.chain.store && StatusOf(c', X) == IndirectlyFinalized
    ensures Y in c.chain.store && StatusOf(c, Y) == Committed
    ensures Y in c'.chain.store && StatusOf(c', Y) == DirectlyFinalized && c'.lfb == Y
  {
    SmallConfigOK();
    run := UpToVotedZ();
    c := Last(run).nodes[SELF];
    c' := ReceiveVote(c, VALS, VOTE_Z);
    FinalizesY(c, c');
    var s := EpochState(3, OneVote(VOTE_Z));
    SecondEpochEnds(s);
    run := Hears(run, Z_VALID.(lastVote := VOTE_Z), VOTE_Z, s, c);
  }
}
