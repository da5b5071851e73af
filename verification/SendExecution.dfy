/** The loops that check and carry out a transfer (ledger/execution/executils.go, ledger/execution/tx_send.go). */
module SendExecution {
  import opened Options
  import opened Sends

  /** One view of the ledger state (ledger/state/storeview.go). */
  class StoreView {
    var height: nat
    var accounts: Accounts
    var coinbaseProcessed: bool

    constructor (height: nat, accounts: Accounts)
      ensures this.height == height && this.accounts == accounts && !coinbaseProcessed
    {
      this.height, this.accounts, coinbaseProcessed := height, accounts, false;
    }

    /** A copy starts with its own coinbase flag. */
    method Copy() returns (copy: StoreView)
      ensures fresh(copy) && copy.height == height && copy.accounts == accounts && !copy.coinbaseProcessed
    {
      copy := new StoreView(height, accounts);
    }
  }

  method ValidateInputsBasic(ins: seq<Input>) returns (ok: bool)
    ensures ok <==> forall i :: 0 <= i < |ins| ==> BasicInput(ins[i])
  {
    for i := 0 to |ins|
      invariant forall k :: 0 <= k < i ==> BasicInput(ins[k])
    {
      if !ins[i].wellFormed || !NonNegative(ins[i].coins) { return false; }
      if ins[i].coins.theta != 0 { return false; }
    }
    return true;
  }

  method ValidateOutputsBasic(outs: seq<Output>) returns (ok: bool)
    ensures ok <==> forall j :: 0 <= j < |outs| ==> BasicOutput(outs[j])
  {
    for j := 0 to |outs|
      invariant forall k :: 0 <= k < j ==> BasicOutput(outs[k])
    {
      if !outs[j].wellFormed || !NonNegative(outs[j].coins) { return false; }
    }
    return true;
  }

  function InputAddresses(ins: seq<Input>): set<Address> {
    set i | 0 <= i < |ins| :: ins[i].address
  }

  function OutputAddresses(outs: seq<Output>): set<Address> {
    set j | 0 <= j < |outs| :: outs[j].address
  }

  /** The loaded accounts are those of the view, new ones where it has none. */
  ghost predicate LoadedFrom(accounts: Accounts, loaded: Accounts) {
    forall a :: a in loaded ==> loaded[a] == AccountOf(accounts, a)
  }

  method GetInputs(view: StoreView, ins: seq<Input>) returns (r: Option<Accounts>)
    ensures r.Some? <==> DistinctInputs(ins) && InputAddresses(ins) <= view.accounts.Keys
    ensures r.Some? ==> r.value.Keys == InputAddresses(ins) && LoadedFrom(view.accounts, r.value)
  {
    var loaded: Accounts := map[];
    for i := 0 to |ins|
      invariant DistinctInputs(ins[..i])
      invariant loaded.Keys == InputAddresses(ins[..i]) && loaded.Keys <= view.accounts.Keys
      invariant LoadedFrom(view.accounts, loaded)
    {
      var a := ins[i].address;
      assert forall k :: 0 <= k < i ==> ins[..i][k] == ins[k];
      if a in loaded {
        assert exists k :: 0 <= k < i && ins[k].address == a;
        return None;
      }
      if a !in view.accounts {
        assert a in InputAddresses(ins);
        return None;
      }
      loaded := loaded[a := view.accounts[a]];
      assert ins[..i + 1] == ins[..i] + [ins[i]];
      assert InputAddresses(ins[..i + 1]) == InputAddresses(ins[..i]) + {a} by { MoreInputs(ins[..i], ins[i]); }
    }
    assert ins[..|ins|] == ins;
    return Some(loaded);
  }

  lemma MoreInputs(ins: seq<Input>, i: Input)
    ensures InputAddresses(ins + [i]) == InputAddresses(ins) + {i.address}
  {
    assert (ins + [i])[|ins|] == i;
    forall a | a in InputAddresses(ins) ensures a in InputAddresses(ins + [i]) {
      var k :| 0 <= k < |ins| && ins[k].address == a;
      assert (ins + [i])[k] == ins[k];
    }
  }

  lemma MoreOutputs(outs: seq<Output>, o: Output)
    ensures OutputAddresses(outs + [o]) == OutputAddresses(outs) + {o.address}
  {
    assert (outs + [o])[|outs|] == o;
    forall a | a in OutputAddresses(outs) ensures a in OutputAddresses(outs + [o]) {
      var k :| 0 <= k < |outs| && outs[k].address == a;
      assert (outs + [o])[k] == outs[k];
    }
  }

  method GetOrMakeOutputs(view: StoreView, inputs: Accounts, outs: seq<Output>) returns (r: Option<Accounts>)
    requires LoadedFrom(view.accounts, inputs)
    ensures r.Some? <==> DistinctOutputs(outs) && OutputAddresses(outs) !! inputs.Keys
    ensures r.Some? ==>
              r.value.Keys == inputs.Keys + OutputAddresses(outs) && LoadedFrom(view.accounts, r.value)
  {
    var loaded := inputs;
    for j := 0 to |outs|
      invariant DistinctOutputs(outs[..j]) && OutputAddresses(outs[..j]) !! inputs.Keys
      invariant loaded.Keys == inputs.Keys + OutputAddresses(outs[..j])
      invariant LoadedFrom(view.accounts, loaded)
    {
      var a := outs[j].address;
      assert forall k :: 0 <= k < j ==> outs[..j][k] == outs[k];
      if a in loaded {
        assert a in OutputAddresses(outs);
        assert a in inputs || exists k :: 0 <= k < j && outs[k].address == a;
        return None;
      }
      loaded := loaded[a := AccountOf(view.accounts, a)];
      assert outs[..j + 1] == outs[..j] + [outs[j]];
      MoreOutputs(outs[..j], outs[j]);
    }
    assert outs[..|outs|] == outs;
    return Some(loaded);
  }

  /** The two together check the addresses of the transaction. */
  lemma AddressesChecked(accounts: Accounts, tx: SendTx)
    ensures Addressed(accounts, tx) <==>
              && DistinctInputs(tx.inputs) && InputAddresses(tx.inputs) <= accounts.Keys
              && DistinctOutputs(tx.outputs) && OutputAddresses(tx.outputs) !! InputAddresses(tx.inputs)
  {
    if Addressed(accounts, tx) {
    } else {
      assert forall i :: 0 <= i < |tx.inputs| ==> tx.inputs[i].address in InputAddresses(tx.inputs);
      assert forall j :: 0 <= j < |tx.outputs| ==> tx.outputs[j].address in OutputAddresses(tx.outputs);
    }
  }

  method GetAccounts(view: StoreView, tx: SendTx) returns (r: Option<Accounts>)
    ensures r.Some? <==> Addressed(view.accounts, tx)
    ensures r.Some? ==>
              && r.value.Keys == InputAddresses(tx.inputs) + OutputAddresses(tx.outputs)
              && LoadedFrom(view.accounts, r.value)
  {
    AddressesChecked(view.accounts, tx);
    r := GetInputs(view, tx.inputs);
    if r.Some? { r := GetOrMakeOutputs(view, r.value, tx.outputs); }
  }

  method HasContract(loaded: Accounts) returns (r: bool)
    ensures r <==> exists a :: a in loaded && loaded[a].isContract
  {
    var left := loaded.Keys;
    while left != {}
      invariant left <= loaded.Keys
      invariant forall a :: a in loaded && a !in left ==> !loaded[a].isContract
    {
      var a :| a in left;
      if loaded[a].isContract { return true; }
      left := left - {a};
    }
    return false;
  }

  method ValidateInputsAdvanced(rules: Rules, loaded: Accounts, tx: SendTx, height: nat) returns (r: Option<Coins>)
    requires forall i :: 0 <= i < |tx.inputs| ==> tx.inputs[i].address in loaded
    ensures r.Some? <==> forall i :: 0 <= i < |tx.inputs| ==>
              Spendable(rules, height, loaded[tx.inputs[i].address], tx, tx.inputs[i])
    ensures r.Some? ==> r.value == SumInputs(tx.inputs)
  {
    var ok := AllSpendable(rules, loaded, tx, height);
    if !ok { return None; }
    var total := TotalInputs(tx.inputs);
    return Some(total);
  }

  method AllSpendable(rules: Rules, loaded: Accounts, tx: SendTx, height: nat) returns (ok: bool)
    requires forall i :: 0 <= i < |tx.inputs| ==> tx.inputs[i].address in loaded
    ensures ok <==> forall i :: 0 <= i < |tx.inputs| ==>
              Spendable(rules, height, loaded[tx.inputs[i].address], tx, tx.inputs[i])
  {
    for i := 0 to |tx.inputs|
      invariant forall k :: 0 <= k < i ==>
                  Spendable(rules, height, loaded[tx.inputs[k].address], tx, tx.inputs[k])
    {
      ok := ValidateInputAdvanced(rules, loaded[tx.inputs[i].address], tx, tx.inputs[i], height);
      if !ok { return; }
    }
    return true;
  }

  method TotalInputs(ins: seq<Input>) returns (total: Coins)
    ensures total == SumInputs(ins)
  {
    total := Coins(0, 0);
    assert ins[0..] == ins;
    for i := 0 to |ins|
      invariant Plus(total, SumInputs(ins[i..])) == SumInputs(ins)
    {
      assert ins[i..][0] == ins[i] && ins[i..][1..] == ins[i + 1..];
      total := Plus(total, ins[i].coins);
    }
  }

  method ValidateInputAdvanced(rules: Rules, account: Account, tx: SendTx, i: Input, height: nat) returns (ok: bool)
    ensures ok <==> Spendable(rules, height, account, tx, i)
  {
    if (account.sequence + 1) % SEQUENCES != i.sequence { return false; }
    if !AtLeast(account.balance, i.coins) { return false; }
    return rules.signed(tx, i, height);
  }

  method TotalOutputs(outs: seq<Output>) returns (total: Coins)
    ensures total == SumOutputs(outs)
  {
    total := Coins(0, 0);
    assert outs[0..] == outs;
    for j := 0 to |outs|
      invariant Plus(total, SumOutputs(outs[j..])) == SumOutputs(outs)
    {
      assert outs[j..][0] == outs[j] && outs[j..][1..] == outs[j + 1..];
      total := Plus(total, outs[j].coins);
    }
  }

  method CheckBasics(rules: Rules, tx: SendTx) returns (ok: bool)
    ensures ok <==> BasicOK(rules, tx)
  {
    ok := ValidateInputsBasic(tx.inputs);
    if !ok { return; }
    ok := ValidateOutputsBasic(tx.outputs);
    if !ok { return; }
    if tx.inputs == [] || tx.outputs == [] { return false; }
    return |tx.inputs| + |tx.outputs| <= rules.maxAccounts;
  }

  method SanityCheck(rules: Rules, view: StoreView, tx: SendTx) returns (ok: bool)
    ensures ok <==> Sane(rules, view.height, view.accounts, tx)
  {
    ok := CheckBasics(rules, tx);
    if !ok { return; }
    var loaded := GetAccounts(view, tx);
    if loaded.None? { return false; }
    var accounts := loaded.value;
    LoadedAccounts(view.accounts, accounts, tx);
    var height := view.height + 1;
    if height >= rules.contractHeight {
      var contract := HasContract(accounts);
      if contract { return false; }
    }
    ok := CheckAmounts(rules, accounts, tx, height);
  }

  /** Sequence numbers, funds, signatures, fee and totals. */
  method CheckAmounts(rules: Rules, loaded: Accounts, tx: SendTx, height: nat) returns (ok: bool)
    requires forall i :: 0 <= i < |tx.inputs| ==> tx.inputs[i].address in loaded
    ensures ok <==>
              && (forall i :: 0 <= i < |tx.inputs| ==>
                    Spendable(rules, height, loaded[tx.inputs[i].address], tx, tx.inputs[i]))
              && FeeOK(rules, height, tx)
              && SumInputs(tx.inputs) == Plus(SumOutputs(tx.outputs), tx.fee)
  {
    var total := ValidateInputsAdvanced(rules, loaded, tx, height);
    if total.None? { return false; }
    if !FeeOK(rules, height, tx) { return false; }
    var outs := TotalOutputs(tx.outputs);
    return total.value == Plus(outs, tx.fee);
  }

  /** What is loaded is what the specification looks at. */
  lemma LoadedAccounts(accounts: Accounts, loaded: Accounts, tx: SendTx)
    requires Addressed(accounts, tx) && LoadedFrom(accounts, loaded)
    requires loaded.Keys == InputAddresses(tx.inputs) + OutputAddresses(tx.outputs)
    ensures forall i :: 0 <= i < |tx.inputs| ==>
              tx.inputs[i].address in loaded &&
              loaded[tx.inputs[i].address] == AccountOf(accounts, tx.inputs[i].address)
    ensures NoContracts(accounts, tx) <==> !exists a :: a in loaded && loaded[a].isContract
  {
    assert forall i :: 0 <= i < |tx.inputs| ==> tx.inputs[i].address in InputAddresses(tx.inputs);
    assert forall j :: 0 <= j < |tx.outputs| ==> tx.outputs[j].address in OutputAddresses(tx.outputs);
  }

  // ---- Carrying it out ----

  /** Withdraws the inputs; would stop the node if an account were missing or short of funds. */
  method AdjustByInputs(view: StoreView, loaded: Accounts, ins: seq<Input>)
    requires DistinctInputs(ins) && InputAddresses(ins) <= loaded.Keys && LoadedFrom(view.accounts, loaded)
    requires forall i :: 0 <= i < |ins| ==> AtLeast(AccountOf(view.accounts, ins[i].address).balance, ins[i].coins)
    modifies view`accounts
    ensures view.accounts == Debit(old(view.accounts), ins)
  {
    ghost var start := view.accounts;
    assert ins[0..] == ins;
    for i := 0 to |ins|
      invariant Debit(view.accounts, ins[i..]) == Debit(start, ins)
      invariant forall k :: i <= k < |ins| ==>
                  AccountOf(view.accounts, ins[k].address) == AccountOf(start, ins[k].address)
    {
      var a := ins[i].address;
      assert a in InputAddresses(ins);
      assert ins[i..][0] == ins[i] && ins[i..][1..] == ins[i + 1..];
      assert AtLeast(loaded[a].balance, ins[i].coins);
      view.accounts := view.accounts[a := Debited(loaded[a], ins[i].coins)];
    }
  }

  method AdjustByOutputs(view: StoreView, loaded: Accounts, outs: seq<Output>)
    requires DistinctOutputs(outs) && OutputAddresses(outs) <= loaded.Keys
    requires forall j :: 0 <= j < |outs| ==> loaded[outs[j].address] == AccountOf(view.accounts, outs[j].address)
    modifies view`accounts
    ensures view.accounts == Credit(old(view.accounts), outs)
  {
    ghost var start := view.accounts;
    assert outs[0..] == outs;
    for j := 0 to |outs|
      invariant Credit(view.accounts, outs[j..]) == Credit(start, outs)
      invariant forall k :: j <= k < |outs| ==>
                  AccountOf(view.accounts, outs[k].address) == AccountOf(start, outs[k].address)
    {
      var a := outs[j].address;
      assert a in OutputAddresses(outs);
      assert outs[j..][0] == outs[j] && outs[j..][1..] == outs[j + 1..];
      view.accounts := view.accounts[a := Credited(loaded[a], outs[j].coins)];
    }
  }

  method Process(view: StoreView, tx: SendTx) returns (ok: bool)
    requires forall i :: 0 <= i < |tx.inputs| ==>
               AtLeast(AccountOf(view.accounts, tx.inputs[i].address).balance, tx.inputs[i].coins)
    modifies view`accounts
    ensures ok <==> old(Addressed(view.accounts, tx))
    ensures view.accounts == if ok then Send(old(view.accounts), tx) else old(view.accounts)
  {
    var loaded := GetAccounts(view, tx);
    if loaded.None? { return false; }
    ghost var start := view.accounts;
    AdjustByInputs(view, loaded.value, tx.inputs);
    forall j | 0 <= j < |tx.outputs|
      ensures AccountOf(view.accounts, tx.outputs[j].address) == loaded.value[tx.outputs[j].address]
    {
      assert tx.outputs[j].address in OutputAddresses(tx.outputs);
      DebitEffect(start, tx.inputs, tx.outputs[j].address);
    }
    AdjustByOutputs(view, loaded.value, tx.outputs);
    return true;
  }
}
