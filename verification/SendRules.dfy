/** Which transfers are accepted (ledger/execution/tx_send.go, ledger/execution/executils.go). */
module SendRules {
  import opened Options
  import opened Sends

  /** What can be told from the transfer and the height of its block alone. */
  ghost predicate Proper(rules: Rules, height: nat, tx: SendTx) {
    && 0 < |tx.inputs| && 0 < |tx.outputs| && |tx.inputs| + |tx.outputs| <= rules.maxAccounts
    && tx.fee.theta == 0 && tx.fee.tfuel >= rules.minFee(|tx.inputs| + |tx.outputs|, height)
    && (forall i :: 0 <= i < |tx.inputs| ==> ProperInput(rules, height, tx, tx.inputs[i]))
    && (forall j :: 0 <= j < |tx.outputs| ==>
          tx.outputs[j].wellFormed && tx.outputs[j].coins.theta >= 0 && tx.outputs[j].coins.tfuel >= 0)
    && SumInputs(tx.inputs).theta == SumOutputs(tx.outputs).theta
    && SumInputs(tx.inputs).tfuel == SumOutputs(tx.outputs).tfuel + tx.fee.tfuel
  }

  /** Every input is signed by its account. */
  ghost predicate ProperInput(rules: Rules, height: nat, tx: SendTx, i: Input) {
    rules.signed(tx, i, height) && i.wellFormed && i.coins.theta == 0 && i.coins.tfuel >= 0
  }

  /** The addresses of a transfer, inputs first. */
  function Parties(tx: SendTx): (parties: seq<Address>)
    ensures |parties| == |tx.inputs| + |tx.outputs|
    ensures forall k :: 0 <= k < |tx.inputs| ==> parties[k] == tx.inputs[k].address
    ensures forall k :: 0 <= k < |tx.outputs| ==> parties[|tx.inputs| + k] == tx.outputs[k].address
  {
    seq(|tx.inputs|, k requires 0 <= k < |tx.inputs| => tx.inputs[k].address) +
    seq(|tx.outputs|, k requires 0 <= k < |tx.outputs| => tx.outputs[k].address)
  }

  /** No address occurs twice, the inputs are known, have the funds and come next in the count of their account, and
      from the height of contracts on no party is a contract. */
  ghost predicate Covered(rules: Rules, height: nat, accounts: Accounts, tx: SendTx) {
    && AllDiffer(Parties(tx))
    && (forall i :: 0 <= i < |tx.inputs| ==>
          tx.inputs[i].address in accounts && CoveredInput(accounts[tx.inputs[i].address], tx.inputs[i]))
    && (height >= rules.contractHeight ==>
          forall k :: 0 <= k < |Parties(tx)| && Parties(tx)[k] in accounts ==> !accounts[Parties(tx)[k]].isContract)
  }

  ghost predicate CoveredInput(account: Account, i: Input) {
    && i.sequence == (account.sequence + 1) % SEQUENCES
    && i.coins.theta <= account.balance.theta && i.coins.tfuel <= account.balance.tfuel
  }

  ghost predicate Apart(tx: SendTx) {
    forall i, j :: 0 <= i < |tx.inputs| && 0 <= j < |tx.outputs| ==> tx.inputs[i].address != tx.outputs[j].address
  }

  ghost predicate AllDiffer(parties: seq<Address>) {
    forall k, l :: 0 <= k < l < |parties| ==> parties[k] != parties[l]
  }

  lemma DifferingParties(tx: SendTx)
    requires AllDiffer(Parties(tx))
    ensures DistinctInputs(tx.inputs) && DistinctOutputs(tx.outputs) && Apart(tx)
  {
    var ps, n := Parties(tx), |tx.inputs|;
    forall i, j | 0 <= i < j < |tx.outputs| ensures tx.outputs[i].address != tx.outputs[j].address {
      assert ps[n + i] != ps[n + j];
    }
    forall i, j | 0 <= i < n && 0 <= j < |tx.outputs| ensures tx.inputs[i].address != tx.outputs[j].address {
      assert ps[i] != ps[n + j];
    }
  }

  lemma PartiesDiffer(tx: SendTx, k: nat, l: nat)
    requires DistinctInputs(tx.inputs) && DistinctOutputs(tx.outputs) && Apart(tx) && k < l < |Parties(tx)|
    ensures Parties(tx)[k] != Parties(tx)[l]
  {
    var ps, n := Parties(tx), |tx.inputs|;
    if l < n {
      assert tx.inputs[k].address != tx.inputs[l].address;
    } else if k < n {
      assert ps[l] == tx.outputs[l - n].address;
    } else {
      assert ps[k] == tx.outputs[k - n].address && ps[l] == tx.outputs[l - n].address;
    }
  }

  lemma DistinctParties(tx: SendTx)
    ensures AllDiffer(Parties(tx)) <==> DistinctInputs(tx.inputs) && DistinctOutputs(tx.outputs) && Apart(tx)
  {
    if AllDiffer(Parties(tx)) { DifferingParties(tx); }
    if DistinctInputs(tx.inputs) && DistinctOutputs(tx.outputs) && Apart(tx) {
      forall k, l | 0 <= k < l < |Parties(tx)| ensures Parties(tx)[k] != Parties(tx)[l] { PartiesDiffer(tx, k, l); }
    }
  }

  lemma ContractParties(accounts: Accounts, tx: SendTx)
    ensures NoContracts(accounts, tx) <==>
              forall k :: 0 <= k < |Parties(tx)| && Parties(tx)[k] in accounts ==> !accounts[Parties(tx)[k]].isContract
  {
    var ps, n := Parties(tx), |tx.inputs|;
    if NoContracts(accounts, tx) {
      forall k | 0 <= k < |ps| && ps[k] in accounts ensures !accounts[ps[k]].isContract {
        assert k >= n ==> ps[k] == tx.outputs[k - n].address;
      }
    } else if forall k :: 0 <= k < |ps| && ps[k] in accounts ==> !accounts[ps[k]].isContract {
      forall j | 0 <= j < |tx.outputs| ensures !AccountOf(accounts, tx.outputs[j].address).isContract {
        assert ps[n + j] == tx.outputs[j].address;
      }
    }
  }

  /** A transfer is accepted exactly when it is proper and covered. */
  lemma AcceptedExactly(rules: Rules, height: nat, accounts: Accounts, tx: SendTx)
    ensures Sane(rules, height, accounts, tx) <==>
              Proper(rules, height + 1, tx) && Covered(rules, height + 1, accounts, tx)
  {
    DistinctParties(tx);
    ContractParties(accounts, tx);
  }

  // ---- In every sequence of accepted transfers ----

  lemma {:induction false} RunKeepsContracts(rules: Rules, accounts: Accounts, steps: seq<Step>, a: Address)
    requires AccountsOK(accounts) && AcceptAll(rules, accounts, steps).Some?
    ensures AccountOf(AcceptAll(rules, accounts, steps).value, a).isContract == AccountOf(accounts, a).isContract
    decreases steps
  {
    if steps != [] {
      SendKeepsAccount(rules, steps[0].height, accounts, steps[0].tx, a);
      SendKeepsAccounts(rules, steps[0].height, accounts, steps[0].tx);
      RunKeepsContracts(rules, Send(accounts, steps[0].tx), steps[1..], a);
    }
  }

  lemma AcceptedThen(rules: Rules, accounts: Accounts, steps: seq<Step>, k: nat)
    requires AcceptAll(rules, accounts, steps).Some? && k < |steps|
    ensures AcceptAll(rules, accounts, steps[..k]).Some?
    ensures Sane(rules, steps[k].height, AcceptAll(rules, accounts, steps[..k]).value, steps[k].tx)
  {
    assert steps == steps[..k] + steps[k..];
    RunSplits(rules, accounts, steps[..k], steps[k..]);
  }

  /** In every accepted sequence each transfer obeys the limits and the fee schedule and every input is signed. Its
      sequence number is one more than the account had at first and has paid since. No party has ever been a
      contract, from the height of contracts on. */
  lemma RunObeysRules(rules: Rules, accounts: Accounts, steps: seq<Step>, k: nat)
    requires AccountsOK(accounts) && AcceptAll(rules, accounts, steps).Some? && k < |steps|
    ensures var tx, height := steps[k].tx, steps[k].height + 1;
            && Proper(rules, height, tx)
            && (forall i :: 0 <= i < |tx.inputs| ==> CountsUp(accounts, steps[..k], tx.inputs[i]))
            && (height >= rules.contractHeight ==>
                  forall i :: 0 <= i < |Parties(tx)| ==> !AccountOf(accounts, Parties(tx)[i]).isContract)
  {
    var tx, height := steps[k].tx, steps[k].height;
    AcceptedThen(rules, accounts, steps, k);
    var before := AcceptAll(rules, accounts, steps[..k]).value;
    AcceptedExactly(rules, height, before, tx);
    forall i | 0 <= i < |tx.inputs| ensures CountsUp(accounts, steps[..k], tx.inputs[i]) {
      RunCounts(rules, accounts, steps[..k], tx.inputs[i].address);
      assert CoveredInput(before[tx.inputs[i].address], tx.inputs[i]);
      NextCount(AccountOf(accounts, tx.inputs[i].address).sequence, CountPaying(steps[..k], tx.inputs[i].address));
    }
    if height + 1 >= rules.contractHeight {
      forall i | 0 <= i < |Parties(tx)| ensures !AccountOf(accounts, Parties(tx)[i]).isContract {
        RunKeepsContracts(rules, accounts, steps[..k], Parties(tx)[i]);
      }
    }
  }

  ghost predicate CountsUp(accounts: Accounts, earlier: seq<Step>, i: Input) {
    i.sequence == (AccountOf(accounts, i.address).sequence + CountPaying(earlier, i.address) + 1) % SEQUENCES
  }

  lemma NextCount(x: nat, n: nat)
    ensures ((x + n) % SEQUENCES + 1) % SEQUENCES == (x + n + 1) % SEQUENCES
  {}
}
