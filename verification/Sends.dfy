/** Transfers between accounts (ledger/execution/tx_send.go, ledger/execution/executils.go). */
module Sends {
  import opened Options

  type Address = nat

  /** Account sequence numbers have 64 bits. */
  const SEQUENCES: nat := 0x1_0000_0000_0000_0000

  datatype Coins = Coins(theta: int, tfuel: int)

  function Plus(a: Coins, b: Coins): Coins {
    Coins(a.theta + b.theta, a.tfuel + b.tfuel)
  }

  predicate NonNegative(c: Coins) {
    c.theta >= 0 && c.tfuel >= 0
  }

  predicate AtLeast(a: Coins, b: Coins) {
    a.theta >= b.theta && a.tfuel >= b.tfuel
  }

  datatype Account = Account(sequence: nat, balance: Coins, isContract: bool)
  type Accounts = map<Address, Account>

  const NEW_ACCOUNT: Account := Account(0, Coins(0, 0), false)

  function AccountOf(accounts: Accounts, a: Address): Account {
    if a in accounts then accounts[a] else NEW_ACCOUNT
  }

  /** `wellFormed` is what the basic validation looks at besides the coins. */
  datatype Input = Input(address: Address, coins: Coins, sequence: nat, wellFormed: bool)
  datatype Output = Output(address: Address, coins: Coins, wellFormed: bool)
  datatype SendTx = SendTx(fee: Coins, inputs: seq<Input>, outputs: seq<Output>)

  /** Limits, the fee schedule and the signature check at a height. */
  datatype Rules = Rules(
    maxAccounts: nat,
    contractHeight: nat,
    minFee: (nat, nat) -> nat,
    signed: (SendTx, Input, nat) -> bool)

  function SumInputs(ins: seq<Input>): Coins {
    if ins == [] then Coins(0, 0) else Plus(ins[0].coins, SumInputs(ins[1..]))
  }

  function SumOutputs(outs: seq<Output>): Coins {
    if outs == [] then Coins(0, 0) else Plus(outs[0].coins, SumOutputs(outs[1..]))
  }

  // ---- When a transfer is accepted ----

  predicate BasicInput(i: Input) {
    i.wellFormed && NonNegative(i.coins) && i.coins.theta == 0
  }

  predicate BasicOutput(o: Output) {
    o.wellFormed && NonNegative(o.coins)
  }

  predicate DistinctInputs(ins: seq<Input>) {
    forall i, j :: 0 <= i < j < |ins| ==> ins[i].address != ins[j].address
  }

  predicate DistinctOutputs(outs: seq<Output>) {
    forall i, j :: 0 <= i < j < |outs| ==> outs[i].address != outs[j].address
  }

  /** Inputs are known accounts, and no account occurs twice in the whole transaction. */
  predicate Addressed(accounts: Accounts, tx: SendTx) {
    && DistinctInputs(tx.inputs)
    && DistinctOutputs(tx.outputs)
    && (forall i :: 0 <= i < |tx.inputs| ==> tx.inputs[i].address in accounts)
    && (forall i, j :: 0 <= i < |tx.inputs| && 0 <= j < |tx.outputs| ==>
          tx.inputs[i].address != tx.outputs[j].address)
  }

  predicate NoContracts(accounts: Accounts, tx: SendTx) {
    && (forall i :: 0 <= i < |tx.inputs| ==> !AccountOf(accounts, tx.inputs[i].address).isContract)
    && (forall j :: 0 <= j < |tx.outputs| ==> !AccountOf(accounts, tx.outputs[j].address).isContract)
  }

  predicate IsNext(account: Account, i: Input) {
    (account.sequence + 1) % SEQUENCES == i.sequence
  }

  predicate Spendable(rules: Rules, height: nat, account: Account, tx: SendTx, i: Input) {
    && IsNext(account, i)
    && AtLeast(account.balance, i.coins)
    && rules.signed(tx, i, height)
  }

  predicate FeeOK(rules: Rules, height: nat, tx: SendTx) {
    tx.fee.theta == 0 && tx.fee.tfuel >= rules.minFee(|tx.inputs| + |tx.outputs|, height)
  }

  predicate BasicOK(rules: Rules, tx: SendTx) {
    && (forall i :: 0 <= i < |tx.inputs| ==> BasicInput(tx.inputs[i]))
    && (forall j :: 0 <= j < |tx.outputs| ==> BasicOutput(tx.outputs[j]))
    && tx.inputs != [] && tx.outputs != []
    && |tx.inputs| + |tx.outputs| <= rules.maxAccounts
  }

  /** The transfer passes the sanity check in the block after height `height`. */
  predicate Sane(rules: Rules, height: nat, accounts: Accounts, tx: SendTx) {
    && BasicOK(rules, tx)
    && Addressed(accounts, tx)
    && (height + 1 >= rules.contractHeight ==> NoContracts(accounts, tx))
    && (forall i :: 0 <= i < |tx.inputs| ==>
          Spendable(rules, height + 1, AccountOf(accounts, tx.inputs[i].address), tx, tx.inputs[i]))
    && FeeOK(rules, height + 1, tx)
    && SumInputs(tx.inputs) == Plus(SumOutputs(tx.outputs), tx.fee)
  }

  // ---- What a transfer does ----

  function Debited(a: Account, coins: Coins): Account {
    Account((a.sequence + 1) % SEQUENCES,
            Coins(a.balance.theta - coins.theta, a.balance.tfuel - coins.tfuel), a.isContract)
  }

  function Credited(a: Account, coins: Coins): Account {
    a.(balance := Plus(a.balance, coins))
  }

  function Debit(accounts: Accounts, ins: seq<Input>): Accounts
    decreases ins
  {
    if ins == [] then accounts
    else
      var a := ins[0].address;
      Debit(accounts[a := Debited(AccountOf(accounts, a), ins[0].coins)], ins[1..])
  }

  function Credit(accounts: Accounts, outs: seq<Output>): Accounts
    decreases outs
  {
    if outs == [] then accounts
    else
      var a := outs[0].address;
      Credit(accounts[a := Credited(AccountOf(accounts, a), outs[0].coins)], outs[1..])
  }

  function Send(accounts: Accounts, tx: SendTx): Accounts {
    Credit(Debit(accounts, tx.inputs), tx.outputs)
  }

  predicate PaysIn(tx: SendTx, a: Address) {
    exists i :: 0 <= i < |tx.inputs| && tx.inputs[i].address == a
  }

  // ---- Effect on each account ----

  lemma {:induction false} DebitEffect(accounts: Accounts, ins: seq<Input>, a: Address)
    requires DistinctInputs(ins)
    ensures (forall i :: 0 <= i < |ins| ==> ins[i].address != a) ==>
              AccountOf(Debit(accounts, ins), a) == AccountOf(accounts, a) &&
              (a in Debit(accounts, ins) <==> a in accounts)
    ensures forall i :: 0 <= i < |ins| && ins[i].address == a ==>
              a in Debit(accounts, ins) &&
              AccountOf(Debit(accounts, ins), a) == Debited(AccountOf(accounts, a), ins[i].coins)
    decreases ins
  {
    if ins != [] {
      var b := ins[0].address;
      DebitEffect(accounts[b := Debited(AccountOf(accounts, b), ins[0].coins)], ins[1..], a);
      assert forall i :: 0 < i < |ins| ==> ins[i] == ins[1..][i - 1];
    }
  }

  lemma {:induction false} CreditEffect(accounts: Accounts, outs: seq<Output>, a: Address)
    requires DistinctOutputs(outs)
    ensures (forall i :: 0 <= i < |outs| ==> outs[i].address != a) ==>
              AccountOf(Credit(accounts, outs), a) == AccountOf(accounts, a) &&
              (a in Credit(accounts, outs) <==> a in accounts)
    ensures forall i :: 0 <= i < |outs| && outs[i].address == a ==>
              a in Credit(accounts, outs) &&
              AccountOf(Credit(accounts, outs), a) == Credited(AccountOf(accounts, a), outs[i].coins)
    decreases outs
  {
    if outs != [] {
      var b := outs[0].address;
      CreditEffect(accounts[b := Credited(AccountOf(accounts, b), outs[0].coins)], outs[1..], a);
      assert forall i :: 0 < i < |outs| ==> outs[i] == outs[1..][i - 1];
    }
  }

  /** What an account holds after a transfer. */
  ghost predicate MovedAt(before: Accounts, after: Accounts, tx: SendTx, a: Address) {
    var x, y := AccountOf(before, a), AccountOf(after, a);
    && (forall i :: 0 <= i < |tx.inputs| && tx.inputs[i].address == a ==>
          y == Debited(x, tx.inputs[i].coins) && a in after)
    && (forall j :: 0 <= j < |tx.outputs| && tx.outputs[j].address == a ==>
          y == Credited(x, tx.outputs[j].coins) && a in after)
    && ((forall i :: 0 <= i < |tx.inputs| ==> tx.inputs[i].address != a) &&
        (forall j :: 0 <= j < |tx.outputs| ==> tx.outputs[j].address != a) ==>
          y == x && (a in after <==> a in before))
  }

  lemma SendEffect(accounts: Accounts, tx: SendTx, a: Address)
    requires Addressed(accounts, tx)
    ensures MovedAt(accounts, Send(accounts, tx), tx, a)
  {
    DebitEffect(accounts, tx.inputs, a);
    CreditEffect(Debit(accounts, tx.inputs), tx.outputs, a);
  }

  // ---- Conservation ----

  ghost function TotalTFuel(accounts: Accounts): int
    decreases |accounts|
  {
    if accounts == map[] then 0
    else
      var a :| a in accounts;
      accounts[a].balance.tfuel + TotalTFuel(accounts - {a})
  }

  lemma {:induction false} TotalWithout(accounts: Accounts, a: Address)
    requires a in accounts
    ensures TotalTFuel(accounts) == accounts[a].balance.tfuel + TotalTFuel(accounts - {a})
    decreases |accounts|
  {
    var b :| b in accounts && TotalTFuel(accounts) == accounts[b].balance.tfuel + TotalTFuel(accounts - {b});
    if a != b {
      TotalWithout(accounts - {b}, a);
      TotalWithout(accounts - {a}, b);
      assert accounts - {b} - {a} == accounts - {a} - {b};
    }
  }

  lemma TotalUpdate(accounts: Accounts, a: Address, x: Account)
    ensures TotalTFuel(accounts[a := x]) ==
              TotalTFuel(accounts) - AccountOf(accounts, a).balance.tfuel + x.balance.tfuel
  {
    TotalWithout(accounts[a := x], a);
    assert accounts[a := x] - {a} == accounts - {a};
    if a in accounts { TotalWithout(accounts, a); } else { assert accounts - {a} == accounts; }
  }

  lemma {:induction false} DebitTotal(accounts: Accounts, ins: seq<Input>)
    ensures TotalTFuel(Debit(accounts, ins)) == TotalTFuel(accounts) - SumInputs(ins).tfuel
    decreases ins
  {
    if ins != [] {
      var a := ins[0].address;
      var x := Debited(AccountOf(accounts, a), ins[0].coins);
      TotalUpdate(accounts, a, x);
      DebitTotal(accounts[a := x], ins[1..]);
    }
  }

  lemma {:induction false} CreditTotal(accounts: Accounts, outs: seq<Output>)
    ensures TotalTFuel(Credit(accounts, outs)) == TotalTFuel(accounts) + SumOutputs(outs).tfuel
    decreases outs
  {
    if outs != [] {
      var a := outs[0].address;
      var x := Credited(AccountOf(accounts, a), outs[0].coins);
      TotalUpdate(accounts, a, x);
      CreditTotal(accounts[a := x], outs[1..]);
    }
  }

  /** An accepted transfer burns exactly its fee. */
  lemma SendConserves(rules: Rules, height: nat, accounts: Accounts, tx: SendTx)
    requires Sane(rules, height, accounts, tx)
    ensures TotalTFuel(Send(accounts, tx)) == TotalTFuel(accounts) - tx.fee.tfuel
  {
    DebitTotal(accounts, tx.inputs);
    CreditTotal(Debit(accounts, tx.inputs), tx.outputs);
  }

  // ---- No Theta moves ----

  lemma {:induction false} NoThetaIn(ins: seq<Input>)
    requires forall i :: 0 <= i < |ins| ==> BasicInput(ins[i])
    ensures SumInputs(ins).theta == 0
  {
    if ins != [] { NoThetaIn(ins[1..]); }
  }

  lemma {:induction false} NoThetaOut(outs: seq<Output>, j: nat)
    requires forall i :: 0 <= i < |outs| ==> BasicOutput(outs[i])
    ensures SumOutputs(outs).theta >= 0
    ensures SumOutputs(outs).theta == 0 && j < |outs| ==> outs[j].coins.theta == 0
    decreases outs
  {
    if outs != [] { NoThetaOut(outs[1..], if j > 0 then j - 1 else 0); }
  }

  /** Although only the inputs are checked for Theta, the outputs of an accepted transfer carry none. */
  lemma OutputsCarryNoTheta(rules: Rules, height: nat, accounts: Accounts, tx: SendTx, j: nat)
    requires Sane(rules, height, accounts, tx) && j < |tx.outputs|
    ensures tx.outputs[j].coins.theta == 0
  {
    NoThetaIn(tx.inputs);
    NoThetaOut(tx.outputs, j);
  }

  // ---- Balances and sequence numbers ----

  ghost predicate AccountOK(a: Account) {
    NonNegative(a.balance) && a.sequence < SEQUENCES
  }

  ghost predicate AccountsOK(accounts: Accounts) {
    forall a :: a in accounts ==> AccountOK(accounts[a])
  }

  /** No balance goes negative, no Theta balance changes, and exactly the inputs count up. */
  lemma SendKeepsAccount(rules: Rules, height: nat, accounts: Accounts, tx: SendTx, a: Address)
    requires Sane(rules, height, accounts, tx) && AccountsOK(accounts)
    ensures var x, y := AccountOf(accounts, a), AccountOf(Send(accounts, tx), a);
            && AccountOK(y)
            && y.balance.theta == x.balance.theta
            && y.isContract == x.isContract
            && y.sequence == if PaysIn(tx, a) then (x.sequence + 1) % SEQUENCES else x.sequence
  {
    SendEffect(accounts, tx, a);
    if PaysIn(tx, a) {
      var i :| 0 <= i < |tx.inputs| && tx.inputs[i].address == a;
      assert Spendable(rules, height + 1, AccountOf(accounts, a), tx, tx.inputs[i]);
      assert BasicInput(tx.inputs[i]);
    } else if j :| 0 <= j < |tx.outputs| && tx.outputs[j].address == a {
      OutputsCarryNoTheta(rules, height, accounts, tx, j);
      assert BasicOutput(tx.outputs[j]);
    }
  }

  lemma SendKeepsAccounts(rules: Rules, height: nat, accounts: Accounts, tx: SendTx)
    requires Sane(rules, height, accounts, tx) && AccountsOK(accounts)
    ensures AccountsOK(Send(accounts, tx))
  {
    forall a | a in Send(accounts, tx) ensures AccountOK(Send(accounts, tx)[a]) {
      SendKeepsAccount(rules, height, accounts, tx, a);
    }
  }

  // ---- Any sequence of accepted transfers ----

  /** A transfer in the block after `height`. */
  datatype Step = Step(height: nat, tx: SendTx)

  /** The accounts after all of these transfers have been accepted one after the other. */
  function AcceptAll(rules: Rules, accounts: Accounts, steps: seq<Step>): Option<Accounts>
    decreases steps
  {
    if steps == [] then Some(accounts)
    else if !Sane(rules, steps[0].height, accounts, steps[0].tx) then None
    else AcceptAll(rules, Send(accounts, steps[0].tx), steps[1..])
  }

  function Fees(steps: seq<Step>): int {
    if steps == [] then 0 else steps[0].tx.fee.tfuel + Fees(steps[1..])
  }

  ghost function CountPaying(steps: seq<Step>, a: Address): nat {
    if steps == [] then 0 else (if PaysIn(steps[0].tx, a) then 1 else 0) + CountPaying(steps[1..], a)
  }

  /** The total falls by exactly the fees, and never is a balance negative. */
  lemma {:induction false} RunConserves(rules: Rules, accounts: Accounts, steps: seq<Step>)
    requires AccountsOK(accounts) && AcceptAll(rules, accounts, steps).Some?
    ensures var after := AcceptAll(rules, accounts, steps).value;
            AccountsOK(after) && TotalTFuel(after) == TotalTFuel(accounts) - Fees(steps)
    decreases steps
  {
    if steps != [] {
      SendConserves(rules, steps[0].height, accounts, steps[0].tx);
      SendKeepsAccounts(rules, steps[0].height, accounts, steps[0].tx);
      RunConserves(rules, Send(accounts, steps[0].tx), steps[1..]);
    }
  }

  /** The sequence number counts, modulo 2^64, the transfers an account has paid in to. Its Theta
      balance never changes. */
  lemma {:induction false} RunCounts(rules: Rules, accounts: Accounts, steps: seq<Step>, a: Address)
    requires AccountsOK(accounts) && AcceptAll(rules, accounts, steps).Some?
    ensures var x, y := AccountOf(accounts, a), AccountOf(AcceptAll(rules, accounts, steps).value, a);
            && y.sequence == (x.sequence + CountPaying(steps, a)) % SEQUENCES
            && y.balance.theta == x.balance.theta
    decreases steps
  {
    if steps != [] {
      SendKeepsAccount(rules, steps[0].height, accounts, steps[0].tx, a);
      SendKeepsAccounts(rules, steps[0].height, accounts, steps[0].tx);
      RunCounts(rules, Send(accounts, steps[0].tx), steps[1..], a);
      OneMore(AccountOf(accounts, a).sequence, CountPaying(steps[1..], a));
    }
  }

  lemma OneMore(x: nat, n: nat)
    ensures ((x + 1) % SEQUENCES + n) % SEQUENCES == (x + (1 + n)) % SEQUENCES
  {}

  lemma {:induction false} RunSplits(rules: Rules, accounts: Accounts, first: seq<Step>, rest: seq<Step>)
    ensures AcceptAll(rules, accounts, first + rest) ==
              match AcceptAll(rules, accounts, first)
              case None => None
              case Some(between) => AcceptAll(rules, between, rest)
    decreases first
  {
    if first == [] {
      assert first + rest == rest;
    } else {
      assert (first + rest)[0] == first[0] && (first + rest)[1..] == first[1..] + rest;
      RunSplits(rules, Send(accounts, first[0].tx), first[1..], rest);
    }
  }

  lemma FirstIsSpendable(rules: Rules, accounts: Accounts, steps: seq<Step>, k: nat)
    requires steps != [] && AcceptAll(rules, accounts, steps).Some? && k < |steps[0].tx.inputs|
    ensures var i := steps[0].tx.inputs[k];
            (AccountOf(accounts, i.address).sequence + 1) % SEQUENCES == i.sequence
  {
    var tx := steps[0].tx;
    assert Spendable(rules, steps[0].height + 1, AccountOf(accounts, tx.inputs[k].address), tx, tx.inputs[k]);
  }

  lemma FirstAcceptedAgain(rules: Rules, accounts: Accounts, first: seq<Step>, rest: seq<Step>, k: nat)
    requires AccountsOK(accounts) && AcceptAll(rules, accounts, first + rest).Some?
    requires first != [] && rest != [] && first[0].tx == rest[0].tx && k < |first[0].tx.inputs|
    ensures var n := CountPaying(first, first[0].tx.inputs[k].address);
            n > 0 && n % SEQUENCES == 0
  {
    var a := first[0].tx.inputs[k].address;
    RunSplits(rules, accounts, first, rest);
    RunConserves(rules, accounts, first);
    RunCounts(rules, accounts, first, a);
    var after := AcceptAll(rules, accounts, first).value;
    FirstIsSpendable(rules, accounts, first, k);
    FirstIsSpendable(rules, after, rest, k);
    assert PaysIn(first[0].tx, a);
    NextSequence(AccountOf(accounts, a).sequence, AccountOf(after, a).sequence, CountPaying(first, a));
  }

  /** A transfer that is accepted again later has had a multiple of 2^64 payments from each of its
      inputs in between, its own first acceptance among them. */
  lemma AcceptedAgain(rules: Rules, accounts: Accounts, steps: seq<Step>, i: nat, j: nat, k: nat)
    requires AccountsOK(accounts) && AcceptAll(rules, accounts, steps).Some?
    requires i < j < |steps| && steps[i].tx == steps[j].tx && k < |steps[i].tx.inputs|
    ensures var n := CountPaying(steps[i..j], steps[i].tx.inputs[k].address);
            n > 0 && n % SEQUENCES == 0
  {
    assert steps == steps[..i] + steps[i..];
    RunSplits(rules, accounts, steps[..i], steps[i..]);
    RunConserves(rules, accounts, steps[..i]);
    assert steps[i..] == steps[i..j] + steps[j..];
    FirstAcceptedAgain(rules, AcceptAll(rules, accounts, steps[..i]).value, steps[i..j], steps[j..], k);
  }

  lemma NextSequence(x: nat, y: nat, n: nat)
    requires x < SEQUENCES && y < SEQUENCES && y == (x + n) % SEQUENCES
    requires (x + 1) % SEQUENCES == (y + 1) % SEQUENCES
    ensures n % SEQUENCES == 0
  {}

  lemma {:induction false} CountAtMost(steps: seq<Step>, a: Address)
    ensures CountPaying(steps, a) <= |steps|
  {
    if steps != [] { CountAtMost(steps[1..], a); }
  }

  /** So no transfer is accepted twice within 2^64 transfers. */
  lemma NeverAcceptedTwice(rules: Rules, accounts: Accounts, steps: seq<Step>, i: nat, j: nat)
    requires AccountsOK(accounts) && AcceptAll(rules, accounts, steps).Some?
    requires i < j < |steps| && steps[i].tx == steps[j].tx
    ensures j - i >= SEQUENCES
  {
    assert steps[i].tx.inputs != [] by {
      assert steps == steps[..i] + steps[i..];
      RunSplits(rules, accounts, steps[..i], steps[i..]);
    }
    AcceptedAgain(rules, accounts, steps, i, j, 0);
    CountAtMost(steps[i..j], steps[i].tx.inputs[0].address);
  }
}
