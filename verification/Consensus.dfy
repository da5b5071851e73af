/** The meaning of the consensus engine's handlers on one node (consensus/engine.go).

    Everything the code does not decide itself is an argument: what the ledger answers, the order
    in which a vote set is listed, which of several equally high tips is found, the epoch at which
    a vote is signed. */
module Consensus {
  import opened Options
  import opened Validators
  import opened Votes
  import opened Blocks

  /** The part of a node's state that its handlers agree on: the chain store, the last vote, the
      highest block with a commit certificate and the last finalized block. */
  datatype Core = Core(chain: ChainState, lastVote: Vote, hcc: Hash, lfb: Hash)

  /** Who the node is, the validator set, and the proposer schedule. */
  datatype Env = Env(self: Address, vals: seq<Validator>, proposer: (Hash, nat) -> Address)

  ghost predicate Loaded(c: Core) {
    c.hcc in c.chain.store && c.lfb in c.chain.store
  }

  ghost function BlockOf(c: Core, h: Hash): Block
    requires h in c.chain.store
  {
    c.chain.store[h].block
  }

  ghost function StatusOf(c: Core, h: Hash): Status
    requires h in c.chain.store
  {
    c.chain.store[h].status
  }

  ghost function Mark(c: Core, h: Hash, status: Status): Core
    requires h in c.chain.store
  {
    c.(chain := c.chain.(store := SetStatus(c.chain.store, h, status)))
  }

  // ---- Commit certificates and finalization ----

  ghost function FinalizeBlock(c: Core, h: Hash): (r: Core)
    requires h in c.chain.store
    ensures r.chain.store.Keys == c.chain.store.Keys
  {
    if h == c.lfb then c
    else
      var ch := FinalizePrevious(c.chain, h, DirectlyFinalized);
      c.(lfb := h, chain := ch.(txIndex := IndexTxs(ch.txIndex, BlockOf(c, h), 0, true)))
  }

  /** A block has gathered a majority: its parent is finalized when it is also the block's own
      highest certified block, and the block becomes the highest certified block of the node. */
  ghost function ProcessCC(c: Core, h: Hash): (r: Core)
    requires Loaded(c) && h in c.chain.store
    ensures r.chain.store.Keys == c.chain.store.Keys && Loaded(r)
  {
    var b := BlockOf(c, h);
    if b.height <= BlockOf(c, c.hcc).height then c
    else if b.parent != b.hcc.blockHash then Mark(c, h, Committed).(hcc := h)
    else if b.parent !in c.chain.store then c
    else Mark(FinalizeBlock(c, b.parent), h, Committed).(hcc := h)
  }

  ghost predicate HasQuorum(c: Core, vals: seq<Validator>, h: Hash) {
    Majority(vals, Voters(VotesFor(c.chain, h)))
  }

  ghost function CheckCC(c: Core, vals: seq<Validator>, h: Hash): (r: Core)
    requires Loaded(c)
    ensures r.chain.store.Keys == c.chain.store.Keys && Loaded(r)
  {
    if h == EMPTY_HASH || h !in c.chain.store then c
    else if StatusOf(c, h) != Valid then c
    else if BlockOf(c, h).height < BlockOf(c, c.hcc).height then c
    else if HasQuorum(c, vals, h) then ProcessCC(c, h)
    else c
  }

  // ---- Votes ----

  /** The effect of handleVote outside the epoch bookkeeping. */
  ghost function AddVote(c: Core, v: Vote): Core {
    if ValidVote(v) then c.(chain := AddVoteToIndex(c.chain, v)) else c
  }

  ghost function AddVotes(c: Core, s: seq<Vote>): (r: Core)
    ensures r.chain.store == c.chain.store && r.hcc == c.hcc && r.lfb == c.lfb
    decreases |s|
  {
    if s == [] then c else AddVotes(AddVote(c, s[0]), s[1..])
  }

  ghost function ReceiveVote(c: Core, vals: seq<Validator>, v: Vote): Core
    requires Loaded(c)
  {
    CheckCC(AddVote(c, v), vals, v.block)
  }

  function MakeVote(self: Address, b: Block, epoch: nat, mainchainHeight: nat): Vote {
    Vote(b.hash, b.height, mainchainHeight, epoch, self, Some(Signature(self, SignBytes(b.hash, epoch, self))))
  }

  /** Why a node repeats its last vote instead of voting for the tip. */
  predicate RepeatsVote(lastVote: Vote, hcc: Hash, tip: Block) {
    lastVote.height != 0 && (lastVote.height >= tip.height || tip.hcc.blockHash != hcc)
  }

  /** What a vote is about: the tip that was found, the epoch and the main chain height. */
  datatype Ballot = Ballot(tip: Hash, epoch: nat, mainchainHeight: nat)

  datatype Sent = Sent(core: Core, vote: Option<Vote>)

  ghost function CastVote(c: Core, env: Env, ballot: Ballot): (r: Sent)
    requires ballot.tip in c.chain.store
    ensures r.core.chain == c.chain && r.core.hcc == c.hcc && r.core.lfb == c.lfb
  {
    var tip := BlockOf(c, ballot.tip);
    if env.self !in Addresses(env.vals) then Sent(c, None)
    else if RepeatsVote(c.lastVote, c.hcc, tip) then
      if c.lastVote.block !in c.chain.store then Sent(c, None)
      else Sent(c, Some(MakeVote(env.self, BlockOf(c, c.lastVote.block), ballot.epoch, ballot.mainchainHeight)))
    else
      var v := MakeVote(env.self, tip, ballot.epoch, ballot.mainchainHeight);
      Sent(c.(lastVote := v), Some(v))
  }

  // ---- The tip ----

  /** A block that GetTip walks through: validated and, when a tip to extend is looked for, without
      a pending validator update. */
  ghost predicate Eligible(store: Store, includeFlagged: bool, h: Hash) {
    h in store && store[h].status.IsValid() && (includeFlagged || !store[h].hasValidatorUpdate)
  }

  /** `h` descends from `from` through eligible blocks, both ends included. */
  ghost predicate Reaches(store: Store, includeFlagged: bool, from: Hash, h: Hash)
    decreases if h in store then store[h].block.height else 0
  {
    && Eligible(store, includeFlagged, h)
    && (h == from
        || (var p := store[h].block.parent;
            p in store && store[p].block.height < store[h].block.height
            && Reaches(store, includeFlagged, from, p)))
  }

  /** The highest certified block itself, or a block reached from it, and none reached is higher. */
  ghost predicate IsTip(c: Core, includeFlagged: bool, tip: Hash) {
    && tip in c.chain.store
    && (tip == c.hcc || Reaches(c.chain.store, includeFlagged, c.hcc, tip))
    && (forall x :: Reaches(c.chain.store, includeFlagged, c.hcc, x) ==>
          c.chain.store[x].block.height <= c.chain.store[tip].block.height)
  }

  // ---- Blocks ----

  datatype Verdict = Ok | Rejected | ParentPending

  /** validateBlock, in the order of the code. */
  ghost function Validate(c: Core, env: Env, h: Hash): Verdict
    requires Loaded(c) && h in c.chain.store && BlockOf(c, h).parent in c.chain.store
  {
    var b := BlockOf(c, h);
    var p := c.chain.store[b.parent];
    var cert := b.hcc.blockHash;
    if b.height <= BlockOf(c, c.lfb).height then Rejected
    else if p.block.height + 1 != b.height then Rejected
    else if b.timestamp < p.block.timestamp + 1 then Rejected
    else if p.block.epoch >= b.epoch then Rejected
    else if !p.status.IsValid() then (if p.status.Pending? then ParentPending else Rejected)
    else if !WithinDistance(c.chain.store, cert, h, MAX_DISTANCE) then Rejected
    else if cert !in c.chain.store then Rejected
    else if !StatusOf(c, cert).IsFinalized() && !ValidCertificate(b.hcc, env.vals) then Rejected
    else if p.hasValidatorUpdate && cert != b.parent then Rejected
    else if p.block.parent != EMPTY_HASH && p.block.parent !in c.chain.store then Rejected
    else if p.block.parent != EMPTY_HASH && c.chain.store[p.block.parent].hasValidatorUpdate && cert != b.parent
    then Rejected
    else if b.epoch == 0 || env.proposer(b.parent, b.epoch) != b.proposer then Rejected
    else Ok
  }

  /** What the ledger says about the block's transactions. */
  datatype LedgerAnswer = ResetFailed | Fails | Undecided | Applies(hasValidatorUpdate: bool)

  /** The votes inside the block's certificate are replayed and the certified block re-checked. */
  ghost function ReplayCertificate(c: Core, vals: seq<Validator>, b: Block, listed: seq<Vote>): (r: Core)
    requires Loaded(c)
    ensures r.chain.store.Keys == c.chain.store.Keys && Loaded(r)
  {
    var c1 := AddVotes(c, listed);
    if c1.hcc != b.hcc.blockHash then CheckCC(c1, vals, b.hcc.blockHash) else c1
  }

  ghost function Accept(c: Core, h: Hash, hasValidatorUpdate: bool): Core
    requires h in c.chain.store
  {
    var e := c.chain.store[h];
    c.(chain := c.chain.(store := c.chain.store[h :=
      e.(status := Valid, hasValidatorUpdate := e.hasValidatorUpdate || hasValidatorUpdate)]))
  }

  datatype Outcome = Fatal | Handled(core: Core, vote: Option<Vote>)

  /** handleBlock. A ballot is cast when the epochs match and the vote timer has fired. */
  ghost function HandleBlock(
    c: Core, env: Env, h: Hash, listed: seq<Vote>, answer: LedgerAnswer, ballot: Option<Ballot>): Outcome
    requires Loaded(c)
  {
    if h !in c.chain.store then Fatal
    else if StatusOf(c, h) != Pending then Handled(c, None)
    else if BlockOf(c, h).parent !in c.chain.store then Fatal
    else match Validate(c, env, h)
      case ParentPending => Fatal
      case Rejected => Handled(Mark(c, h, Invalid), None)
      case Ok =>
        var c2 := ReplayCertificate(c, env.vals, BlockOf(c, h), listed);
        var sent := Decide(c2, env, h, answer, ballot);
        Handled(sent.core, sent.vote)
  }

  /** The votes inside the certificate of `h` are replayed exactly when `h` is pending and passes validation. */
  ghost predicate Replays(c: Core, env: Env, h: Hash)
    requires Loaded(c)
  {
    && h in c.chain.store && StatusOf(c, h) == Pending && BlockOf(c, h).parent in c.chain.store
    && Validate(c, env, h) == Ok
  }

  /** What happens to a validated block once the ledger has answered. */
  ghost function Decide(c: Core, env: Env, h: Hash, answer: LedgerAnswer, ballot: Option<Ballot>): Sent
    requires Loaded(c) && h in c.chain.store
  {
    match answer
    case ResetFailed => Sent(Mark(c, h, Invalid), None)
    case Fails => Sent(Mark(c, h, Invalid), None)
    case Undecided => Sent(c, None)
    case Applies(update) =>
      var sent := Ballots(Accept(c, h, update), env, ballot);
      Sent(CheckCC(sent.core, env.vals, h), sent.vote)
  }

  ghost function Ballots(c: Core, env: Env, ballot: Option<Ballot>): (r: Sent)
    ensures r.core.chain == c.chain && r.core.hcc == c.hcc && r.core.lfb == c.lfb
  {
    if ballot.Some? && ballot.value.tip in c.chain.store then CastVote(c, env, ballot.value) else Sent(c, None)
  }
}
