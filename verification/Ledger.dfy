/** Proposing and applying the transactions of a block (ledger/ledger.go, ledger/execution/executor.go,
    ledger/execution/tx_coinbase.go, ledger/state/state.go). */
module Ledger {
  import opened Options
  import opened Sends
  import opened SendRules
  import opened SendExecution

  type Hash = nat
  type RawTx = nat

  datatype Tx =
    | Coinbase(proposer: Address, blockHeight: nat, wellFormed: bool, signed: bool)
    | Transfer(send: SendTx)

  datatype Block = Block(parent: Hash, height: nat, stateHash: Hash, txs: seq<RawTx>)

  /** Decoding, the root hash of a state and the validators after a block. */
  datatype Env = Env(
    rules: Rules,
    decode: RawTx -> Option<Tx>,
    root: Accounts -> Hash,
    validators: Hash -> set<Address>)

  datatype View = View(height: nat, accounts: Accounts, coinbaseProcessed: bool)

  // ---- Specification ----

  predicate SaneCoinbase(env: Env, parent: Hash, height: nat, v: View, tx: Tx)
    requires tx.Coinbase?
  {
    && tx.wellFormed && !v.coinbaseProcessed && tx.proposer in env.validators(parent)
    && tx.signed && tx.blockHeight == height
  }

  /** One transaction of a block on top of `parent`, on a ledger of height `height`. */
  function Execute(env: Env, parent: Hash, height: nat, v: View, tx: Tx): Option<View> {
    match tx
    case Coinbase(_, _, _, _) =>
      if SaneCoinbase(env, parent, height, v, tx) then Some(v.(coinbaseProcessed := true)) else None
    case Transfer(send) =>
      if Sane(env.rules, v.height, v.accounts, send) then Some(v.(accounts := Send(v.accounts, send))) else None
  }

  function ExecuteRaw(env: Env, parent: Hash, height: nat, v: View, raw: RawTx): Option<View> {
    match env.decode(raw)
    case None => None
    case Some(tx) => Execute(env, parent, height, v, tx)
  }

  /** All transactions of a block, none of which may fail. */
  function ApplyAll(env: Env, parent: Hash, height: nat, v: View, raws: seq<RawTx>): Option<View>
    decreases raws
  {
    if raws == [] then Some(v)
    else
      match ExecuteRaw(env, parent, height, v, raws[0])
      case None => None
      case Some(w) => ApplyAll(env, parent, height, w, raws[1..])
  }

  datatype Selection = Selection(kept: seq<RawTx>, view: View)

  /** The candidates that do not fail, each on top of those kept before it. */
  function Select(env: Env, parent: Hash, height: nat, v: View, raws: seq<RawTx>): Selection
    decreases raws
  {
    if raws == [] then Selection([], v)
    else
      match ExecuteRaw(env, parent, height, v, raws[0])
      case None => Select(env, parent, height, v, raws[1..])
      case Some(w) =>
        var rest := Select(env, parent, height, w, raws[1..]);
        Selection([raws[0]] + rest.kept, rest.view)
  }

  /** What the proposer keeps applies without failure and reaches the proposer's state. */
  lemma {:induction false} SelectedApplies(env: Env, parent: Hash, height: nat, v: View, raws: seq<RawTx>)
    ensures var s := Select(env, parent, height, v, raws);
            ApplyAll(env, parent, height, v, s.kept) == Some(s.view)
    decreases raws
  {
    if raws != [] {
      var next := ExecuteRaw(env, parent, height, v, raws[0]);
      if next.Some? {
        SelectedApplies(env, parent, height, next.value, raws[1..]);
        var rest := Select(env, parent, height, next.value, raws[1..]);
        assert ([raws[0]] + rest.kept)[1..] == rest.kept;
      } else {
        SelectedApplies(env, parent, height, v, raws[1..]);
      }
    }
  }

  /** Nothing is dropped without need: the whole list is kept exactly when it applies. */
  lemma {:induction false} KeptEntirely(env: Env, parent: Hash, height: nat, v: View, raws: seq<RawTx>)
    ensures |Select(env, parent, height, v, raws).kept| <= |raws|
    ensures Select(env, parent, height, v, raws).kept == raws <==>
              ApplyAll(env, parent, height, v, raws).Some?
    decreases raws
  {
    if raws != [] {
      var next := ExecuteRaw(env, parent, height, v, raws[0]);
      if next.Some? {
        KeptEntirely(env, parent, height, next.value, raws[1..]);
        var rest := Select(env, parent, height, next.value, raws[1..]).kept;
        assert ([raws[0]] + rest)[1..] == rest;
        assert rest == raws[1..] ==> [raws[0]] + rest == raws;
      } else {
        KeptEntirely(env, parent, height, v, raws[1..]);
      }
    }
  }

  /** Each candidate is kept exactly when it does not fail on top of those kept before it. */
  lemma {:induction false} SelectedOneByOne(env: Env, parent: Hash, height: nat, v: View, raws: seq<RawTx>, raw: RawTx)
    ensures var before, after := Select(env, parent, height, v, raws), Select(env, parent, height, v, raws + [raw]);
            match ExecuteRaw(env, parent, height, before.view, raw)
            case None => after == before
            case Some(w) => after == Selection(before.kept + [raw], w)
    decreases raws
  {
    if raws == [] {
      assert raws + [raw] == [raw] && [raw][1..] == [];
    } else {
      assert (raws + [raw])[0] == raws[0] && (raws + [raw])[1..] == raws[1..] + [raw];
      var next := ExecuteRaw(env, parent, height, v, raws[0]);
      var w := if next.Some? then next.value else v;
      SelectedOneByOne(env, parent, height, w, raws[1..], raw);
      if next.Some? {
        var rest := Select(env, parent, height, w, raws[1..]).kept;
        assert [raws[0]] + (rest + [raw]) == [raws[0]] + rest + [raw];
      }
    }
  }

  // ---- A block as a run of transfers ----

  /** The transfers among the transactions, at a height. */
  function StepsOf(env: Env, height: nat, raws: seq<RawTx>): seq<Step> {
    if raws == [] then []
    else
      var tx := env.decode(raws[0]);
      (if tx.Some? && tx.value.Transfer? then [Step(height, tx.value.send)] else []) + StepsOf(env, height, raws[1..])
  }

  function CountCoinbase(env: Env, raws: seq<RawTx>): nat {
    if raws == [] then 0
    else
      var tx := env.decode(raws[0]);
      (if tx.Some? && tx.value.Coinbase? then 1 else 0) + CountCoinbase(env, raws[1..])
  }

  /** A block that applies is a sequence of accepted transfers and at most one coinbase transaction. */
  lemma {:induction false} AppliedIsRun(env: Env, parent: Hash, height: nat, v: View, raws: seq<RawTx>)
    requires ApplyAll(env, parent, height, v, raws).Some?
    ensures var w := ApplyAll(env, parent, height, v, raws).value;
            && AcceptAll(env.rules, v.accounts, StepsOf(env, v.height, raws)) == Some(w.accounts)
            && w.height == v.height
            && CountCoinbase(env, raws) ==
                 (if w.coinbaseProcessed then 1 else 0) - (if v.coinbaseProcessed then 1 else 0)
    decreases raws
  {
    if raws != [] {
      var next := ExecuteRaw(env, parent, height, v, raws[0]).value;
      AppliedIsRun(env, parent, height, next, raws[1..]);
      var tx := env.decode(raws[0]).value;
      var rest := StepsOf(env, v.height, raws[1..]);
      if tx.Transfer? {
        var steps := [Step(v.height, tx.send)] + rest;
        assert steps[1..] == rest;
      } else {
        assert [] + rest == rest;
      }
    }
  }

  /** The accounts after the blocks of a branch, each applied on top of the previous one. */
  function Branch(env: Env, accounts: Accounts, blocks: seq<Block>): Option<Accounts>
    decreases blocks
  {
    if blocks == [] then Some(accounts)
    else
      var b := blocks[0];
      var h := if b.height > 0 then b.height - 1 else 0;
      match ApplyAll(env, b.parent, h, View(h, accounts, false), b.txs)
      case None => None
      case Some(w) => Branch(env, w.accounts, blocks[1..])
  }

  function BranchSteps(env: Env, blocks: seq<Block>): seq<Step> {
    if blocks == [] then []
    else
      var h := if blocks[0].height > 0 then blocks[0].height - 1 else 0;
      StepsOf(env, h, blocks[0].txs) + BranchSteps(env, blocks[1..])
  }

  lemma {:induction false} BranchIsRun(env: Env, accounts: Accounts, blocks: seq<Block>)
    requires Branch(env, accounts, blocks).Some?
    ensures AcceptAll(env.rules, accounts, BranchSteps(env, blocks)) == Branch(env, accounts, blocks)
    decreases blocks
  {
    if blocks != [] {
      var b := blocks[0];
      var h := if b.height > 0 then b.height - 1 else 0;
      AppliedIsRun(env, b.parent, h, View(h, accounts, false), b.txs);
      var w := ApplyAll(env, b.parent, h, View(h, accounts, false), b.txs).value;
      BranchIsRun(env, w.accounts, blocks[1..]);
      RunSplits(env.rules, accounts, StepsOf(env, h, b.txs), BranchSteps(env, blocks[1..]));
    }
  }

  /** Along a branch the total of TFuel falls by exactly the fees, and no transfer is in it twice. */
  lemma BranchConserves(env: Env, accounts: Accounts, blocks: seq<Block>, i: nat, j: nat)
    requires AccountsOK(accounts) && Branch(env, accounts, blocks).Some?
    ensures var steps := BranchSteps(env, blocks);
            var after := Branch(env, accounts, blocks).value;
            && AccountsOK(after)
            && TotalTFuel(after) == TotalTFuel(accounts) - Fees(steps)
            && (i < j < |steps| && steps[i].tx == steps[j].tx ==> j - i >= SEQUENCES)
  {
    var steps := BranchSteps(env, blocks);
    BranchIsRun(env, accounts, blocks);
    RunConserves(env.rules, accounts, steps);
    if i < j < |steps| && steps[i].tx == steps[j].tx {
      NeverAcceptedTwice(env.rules, accounts, steps, i, j);
    }
  }

  /** Every transfer along a branch is signed by its inputs, pays the fee, keeps to the limits and has the next number
      of each input. */
  lemma BranchObeysRules(env: Env, accounts: Accounts, blocks: seq<Block>, k: nat)
    requires AccountsOK(accounts) && Branch(env, accounts, blocks).Some? && k < |BranchSteps(env, blocks)|
    ensures var steps := BranchSteps(env, blocks);
            var tx, height := steps[k].tx, steps[k].height + 1;
            && Proper(env.rules, height, tx)
            && (forall i :: 0 <= i < |tx.inputs| ==>
                  env.rules.signed(tx, tx.inputs[i], height) && CountsUp(accounts, steps[..k], tx.inputs[i]))
            && (height >= env.rules.contractHeight ==>
                  forall i :: 0 <= i < |Parties(tx)| ==> !AccountOf(accounts, Parties(tx)[i]).isContract)
  {
    BranchIsRun(env, accounts, blocks);
    RunObeysRules(env.rules, accounts, BranchSteps(env, blocks), k);
  }

  /** A block applies with a coinbase transaction at a place exactly when the rest does, no other one comes before it,
      and it is signed for this height by a validator of the parent. */
  lemma {:induction false} CoinbaseExactly(
    env: Env, parent: Hash, height: nat, v: View, first: seq<RawTx>, raw: RawTx, rest: seq<RawTx>)
    requires env.decode(raw).Some? && env.decode(raw).value.Coinbase?
    ensures var tx := env.decode(raw).value;
            var before := ApplyAll(env, parent, height, v, first);
            var after := ApplyAll(env, parent, height, v, first + [raw] + rest);
            after.Some? <==>
              && before.Some? && !before.value.coinbaseProcessed
              && tx.wellFormed && tx.signed && tx.blockHeight == height && tx.proposer in env.validators(parent)
              && ApplyAll(env, parent, height, before.value.(coinbaseProcessed := true), rest).Some?
    decreases first
  {
    if first == [] {
      assert first + [raw] + rest == [raw] + rest && ([raw] + rest)[1..] == rest;
    } else {
      var all := first + [raw] + rest;
      assert all[0] == first[0] && all[1..] == first[1..] + [raw] + rest;
      var next := ExecuteRaw(env, parent, height, v, first[0]);
      if next.Some? { CoinbaseExactly(env, parent, height, next.value, first[1..], raw, rest); }
    }
  }

  // ---- The ledger ----

  function Seen(view: StoreView): View
    reads view
  {
    View(view.height, view.accounts, view.coinbaseProcessed)
  }

  class LedgerState {
    const env: Env
    var db: map<Hash, Accounts>
    var delivered: StoreView
    var checked: StoreView
    var screened: StoreView

    /** The views are separate objects, and states are stored under their root hash. */
    ghost predicate Valid()
      reads this
    {
      && delivered != checked && delivered != screened && checked != screened
      && forall h :: h in db ==> env.root(db[h]) == h
    }

    /** All three views show this state, with no coinbase transaction processed. */
    ghost predicate At(height: nat, accounts: Accounts)
      reads this, delivered, checked, screened
    {
      && Seen(delivered) == View(height, accounts, false)
      && Seen(checked) == View(height, accounts, false)
      && Seen(screened) == View(height, accounts, false)
    }

    constructor (env: Env)
      ensures Valid() && this.env == env && db == map[env.root(map[]) := map[]] && At(0, map[])
    {
      var view := new StoreView(0, map[]);
      this.env := env;
      delivered := view;
      checked := new StoreView(0, map[]);
      screened := new StoreView(0, map[]);
      db := map[env.root(map[]) := map[]];
    }

    method ResetState(block: Block) returns (ok: bool)
      requires Valid()
      modifies this
      ensures Valid() && db == old(db) && (ok <==> block.stateHash in db)
      ensures ok ==> At(block.height, db[block.stateHash]) && fresh(delivered) && fresh(checked) && fresh(screened)
      ensures !ok ==> delivered == old(delivered) && checked == old(checked) && screened == old(screened)
    {
      if block.stateHash !in db { return false; }
      delivered := new StoreView(block.height, db[block.stateHash]);
      checked := delivered.Copy();
      screened := delivered.Copy();
      return true;
    }

    /** Stores the delivered state. Its own coinbase flag stays set until the next reset. */
    method Commit() returns (hash: Hash)
      requires Valid()
      modifies this, delivered
      ensures Valid() && hash == env.root(delivered.accounts)
      ensures db == old(db)[hash := old(delivered.accounts)]
      ensures delivered == old(delivered)
      ensures Seen(delivered) == old(Seen(delivered)).(height := old(delivered.height) + 1)
      ensures fresh(checked) && Seen(checked) == Seen(delivered).(coinbaseProcessed := false)
      ensures fresh(screened) && Seen(screened) == Seen(checked)
    {
      hash := env.root(delivered.accounts);
      db := db[hash := delivered.accounts];
      delivered.height := delivered.height + 1;
      checked := delivered.Copy();
      screened := delivered.Copy();
    }

    /** Executes a transaction on one of the views: all of it or nothing. */
    method ProcessTx(parent: Hash, view: StoreView, tx: Tx) returns (ok: bool)
      requires Valid() && view in {delivered, checked, screened}
      modifies view
      ensures var r := Execute(env, parent, old(delivered.height), old(Seen(view)), tx);
              ok == r.Some? && Seen(view) == if ok then r.value else old(Seen(view))
    {
      match tx {
        case Coinbase(proposer, blockHeight, wellFormed, signed) =>
          if !wellFormed || view.coinbaseProcessed { return false; }
          if proposer !in env.validators(parent) || !signed || blockHeight != delivered.height { return false; }
          view.coinbaseProcessed := true;
          return true;
        case Transfer(send) =>
          ok := SanityCheck(env.rules, view, send);
          if !ok { return; }
          forall i | 0 <= i < |send.inputs|
            ensures AtLeast(AccountOf(view.accounts, send.inputs[i].address).balance, send.inputs[i].coins)
          {
            var input := send.inputs[i];
            assert Spendable(env.rules, view.height + 1, AccountOf(view.accounts, input.address), send, input);
          }
          ok := Process(view, send);
      }
    }

    /** Executes the candidates on the checked view and keeps those that do not fail. */
    method ProposeBlockTxs(block: Block, candidates: seq<RawTx>) returns (root: Hash, kept: seq<RawTx>)
      requires Valid()
      modifies checked
      ensures var s := Select(env, block.parent, delivered.height, old(Seen(checked)), candidates);
              kept == s.kept && Seen(checked) == s.view && root == env.root(s.view.accounts)
    {
      kept := [];
      ghost var parent, height, start := block.parent, delivered.height, Seen(checked);
      ghost var all := Select(env, parent, height, start, candidates);
      assert candidates[0..] == candidates;
      for i := 0 to |candidates|
        invariant var s := Select(env, parent, height, Seen(checked), candidates[i..]);
                  kept + s.kept == all.kept && s.view == all.view
      {
        assert candidates[i..][0] == candidates[i] && candidates[i..][1..] == candidates[i + 1..];
        var tx := env.decode(candidates[i]);
        if tx.None? { continue; }
        var ok := ProcessTx(block.parent, checked, tx.value);
        if !ok { continue; }
        kept := kept + [candidates[i]];
      }
      root := env.root(checked.accounts);
    }

    /** Executes the transactions of a block on the delivered view and commits the state if none fails
        and the root hash is the expected one. Otherwise the ledger goes back to the parent. */
    method ApplyBlockTxs(block: Block, parent: Block) returns (ok: bool)
      requires Valid()
      modifies this, delivered
      ensures Valid()
      ensures var r := ApplyAll(env, block.parent, old(delivered.height), old(Seen(delivered)), block.txs);
              && (ok <==> r.Some? && env.root(r.value.accounts) == block.stateHash)
              && (ok ==>
                    && db == old(db)[block.stateHash := r.value.accounts]
                    && Seen(delivered) == r.value.(height := r.value.height + 1)
                    && Seen(checked) == Seen(delivered).(coinbaseProcessed := false)
                    && Seen(screened) == Seen(checked))
      ensures !ok ==> db == old(db)
      ensures !ok && parent.stateHash in db ==> At(parent.height, db[parent.stateHash])
      ensures !ok && parent.stateHash !in db ==>
                delivered == old(delivered) && checked == old(checked) && screened == old(screened)
    {
      ghost var height, start := delivered.height, Seen(delivered);
      ghost var result := ApplyAll(env, block.parent, height, start, block.txs);
      assert block.txs[0..] == block.txs;
      for i := 0 to |block.txs|
        invariant Valid() && delivered == old(delivered) && db == old(db) && delivered.height == height
        invariant checked == old(checked) && screened == old(screened)
        invariant result == ApplyAll(env, block.parent, height, Seen(delivered), block.txs[i..])
      {
        assert block.txs[i..][0] == block.txs[i] && block.txs[i..][1..] == block.txs[i + 1..];
        var tx := env.decode(block.txs[i]);
        ok := false;
        if tx.Some? { ok := ProcessTx(block.parent, delivered, tx.value); }
        if !ok {
          var _ := ResetState(parent);
          return;
        }
      }
      if env.root(delivered.accounts) != block.stateHash {
        var _ := ResetState(parent);
        return false;
      }
      var _ := Commit();
      return true;
    }
  }

  ghost predicate InjectiveRoot(root: Accounts -> Hash) {
    forall a, b :: root(a) == root(b) ==> a == b
  }

  /** A block assembled on one ledger is accepted by every other ledger that has the parent's state,
      and both end in the same state, which a later reset to the block brings back. */
  method ProposeElsewhereApply(proposer: LedgerState, other: LedgerState, parent: Block, parentHash: Hash,
                               candidates: seq<RawTx>)
    returns (block: Block, ok: bool)
    requires proposer != other && proposer.Valid() && other.Valid() && proposer.env == other.env
    requires InjectiveRoot(proposer.env.root)
    requires parent.stateHash in proposer.db && parent.stateHash in other.db
    modifies proposer, other
    ensures ok && other.Valid() && block.height == parent.height + 1 && block.parent == parentHash
    ensures block.stateHash in other.db && proposer.checked.accounts == other.db[block.stateHash]
    ensures var v := View(parent.height, old(proposer.db[parent.stateHash]), false);
            var s := Select(proposer.env, parentHash, parent.height, v, candidates);
            block.txs == s.kept && other.db[block.stateHash] == s.view.accounts
    ensures other.At(block.height, other.db[block.stateHash])
  {
    ghost var env, accounts := proposer.env, proposer.db[parent.stateHash];
    assert other.db[parent.stateHash] == accounts;
    var reset := proposer.ResetState(parent);
    block := Block(parentHash, parent.height + 1, 0, []);
    var root, kept := proposer.ProposeBlockTxs(block, candidates);
    block := block.(stateHash := root, txs := kept);
    reset := other.ResetState(parent);
    SelectedApplies(env, parentHash, parent.height, View(parent.height, accounts, false), candidates);
    ok := other.ApplyBlockTxs(block, parent);
    reset := other.ResetState(block);
  }
}
