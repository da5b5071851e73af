/** The pool of transactions waiting for a block (mempool/mempool.go). */
module Mempool {
  import opened Options
  import opened Bookkeeper

  type Address = nat

  /** Raw transactions are named by their hashes. */
  type Raw = Hash

  datatype Tx = Tx(raw: Raw, address: Address, sequence: nat, gasPrice: int)

  // ---- What a pool holds ----

  /** The transactions of each account. */
  type Pool = map<Address, seq<Tx>>

  function TxsOf(pool: Pool, a: Address): seq<Tx> {
    if a in pool then pool[a] else []
  }

  ghost function Held(pool: Pool): multiset<Tx>
    decreases |pool|
  {
    if pool == map[] then multiset{}
    else
      var a :| a in pool;
      multiset(pool[a]) + Held(pool - {a})
  }

  lemma {:induction false} HeldWithout(pool: Pool, a: Address)
    requires a in pool
    ensures Held(pool) == multiset(pool[a]) + Held(pool - {a})
    decreases |pool|
  {
    var b :| b in pool && Held(pool) == multiset(pool[b]) + Held(pool - {b});
    if a != b {
      HeldWithout(pool - {b}, a);
      HeldWithout(pool - {a}, b);
      assert pool - {b} - {a} == pool - {a} - {b};
    }
  }

  lemma HeldUpdate(pool: Pool, a: Address, txs: seq<Tx>)
    ensures Held(pool[a := txs]) + multiset(TxsOf(pool, a)) == Held(pool) + multiset(txs)
  {
    HeldWithout(pool[a := txs], a);
    assert pool[a := txs] - {a} == pool - {a};
    if a in pool { HeldWithout(pool, a); } else { assert pool - {a} == pool; }
  }

  function Pushed(pool: Pool, tx: Tx): Pool {
    pool[tx.address := TxsOf(pool, tx.address) + [tx]]
  }

  lemma HeldPushed(pool: Pool, tx: Tx)
    ensures Held(Pushed(pool, tx)) == Held(pool) + multiset{tx}
  {
    var txs := TxsOf(pool, tx.address);
    HeldUpdate(pool, tx.address, txs + [tx]);
    assert multiset(txs + [tx]) == multiset(txs) + multiset{tx};
    Cancel(Held(Pushed(pool, tx)), Held(pool), multiset(txs), multiset{tx});
  }

  /** A pool in which one account has these transactions left. */
  function Left(pool: Pool, a: Address, txs: seq<Tx>): Pool {
    if txs == [] then pool - {a} else pool[a := txs]
  }

  lemma HeldLeft(pool: Pool, a: Address, txs: seq<Tx>, taken: multiset<Tx>)
    requires a in pool && multiset(pool[a]) == multiset(txs) + taken
    ensures Held(pool) == Held(Left(pool, a, txs)) + taken
  {
    if txs == [] {
      HeldWithout(pool, a);
    } else {
      HeldUpdate(pool, a, txs);
      Cancel(Held(pool), Held(pool[a := txs]), multiset(txs), taken);
    }
  }

  lemma Cancel(whole: multiset<Tx>, part: multiset<Tx>, same: multiset<Tx>, rest: multiset<Tx>)
    requires part + (same + rest) == whole + same
    ensures whole == part + rest
  {
    forall t ensures whole[t] == (part + rest)[t] { assert (part + (same + rest))[t] == (whole + same)[t]; }
  }

  // ---- Removing transactions ----

  function Without(txs: seq<Tx>, gone: set<Raw>): (r: seq<Tx>)
    ensures |r| <= |txs|
  {
    if txs == [] then []
    else (if txs[0].raw in gone then [] else [txs[0]]) + Without(txs[1..], gone)
  }

  lemma {:induction false} WithoutCounts(txs: seq<Tx>, gone: set<Raw>, t: Tx)
    ensures multiset(Without(txs, gone))[t] == if t.raw in gone then 0 else multiset(txs)[t]
  {
    if txs != [] {
      WithoutCounts(txs[1..], gone, t);
      assert txs == [txs[0]] + txs[1..];
    }
  }

  lemma {:induction false} WithoutSplits(txs: seq<Tx>, gone: set<Raw>)
    ensures multiset(Without(txs, gone)) <= multiset(txs)
    ensures |multiset(txs) - multiset(Without(txs, gone))| == |txs| - |Without(txs, gone)|
  {
    forall t ensures multiset(Without(txs, gone))[t] <= multiset(txs)[t] { WithoutCounts(txs, gone, t); }
  }

  function WithoutAll(pool: Pool, gone: set<Raw>): Pool {
    map a | a in pool && Without(pool[a], gone) != [] :: Without(pool[a], gone)
  }

  lemma WithoutAllApart(pool: Pool, gone: set<Raw>, a: Address)
    requires a in pool
    ensures WithoutAll(pool, gone) - {a} == WithoutAll(pool - {a}, gone)
  {}

  lemma HeldWithoutAllApart(pool: Pool, gone: set<Raw>, a: Address)
    requires a in pool
    ensures Held(WithoutAll(pool, gone)) == multiset(Without(pool[a], gone)) + Held(WithoutAll(pool - {a}, gone))
  {
    var less := WithoutAll(pool, gone);
    WithoutAllApart(pool, gone, a);
    if a in less { HeldWithout(less, a); } else { assert less - {a} == less; }
  }

  /** Exactly the named transactions leave the pool. */
  lemma {:induction false} HeldWithoutAll(pool: Pool, gone: set<Raw>, t: Tx)
    ensures Held(WithoutAll(pool, gone))[t] == if t.raw in gone then 0 else Held(pool)[t]
    decreases |pool|
  {
    if pool == map[] {
      assert WithoutAll(pool, gone) == map[];
    } else {
      var a :| a in pool;
      HeldWithout(pool, a);
      HeldWithoutAll(pool - {a}, gone, t);
      WithoutCounts(pool[a], gone, t);
      HeldWithoutAllApart(pool, gone, a);
    }
  }

  lemma WithoutKept(txs: seq<Tx>, gone: set<Raw>, t: Tx)
    requires t in Without(txs, gone)
    ensures t in txs && t.raw !in gone
  {
    WithoutCounts(txs, gone, t);
    assert multiset(Without(txs, gone))[t] > 0;
    assert multiset(txs)[t] > 0;
  }

  /** The pool when only these accounts have been dealt with. */
  function Partly(pool: Pool, gone: set<Raw>, done: set<Address>): Pool {
    map a | a in pool && (a in done ==> Without(pool[a], gone) != []) ::
      if a in done then Without(pool[a], gone) else pool[a]
  }

  lemma PartlyNext(pool: Pool, gone: set<Raw>, done: set<Address>, a: Address)
    requires a in pool && a !in done
    ensures var part := Partly(pool, gone, done);
            a in part && Left(part, a, Without(part[a], gone)) == Partly(pool, gone, done + {a})
  {}

  lemma PartlyAll(pool: Pool, gone: set<Raw>, done: set<Address>)
    requires pool.Keys <= done
    ensures Partly(pool, gone, done) == WithoutAll(pool, gone)
  {}

  /** The counter goes down by as much as what is held. */
  lemma LeftWithout(pool: Pool, a: Address, gone: set<Raw>)
    requires a in pool
    ensures |Held(pool)| - |Held(Left(pool, a, Without(pool[a], gone)))| == |pool[a]| - |Without(pool[a], gone)|
  {
    var taken := multiset(pool[a]) - multiset(Without(pool[a], gone));
    WithoutSplits(pool[a], gone);
    HeldLeft(pool, a, Without(pool[a], gone), taken);
  }

  // ---- Groups ----

  /** The transactions of one account. */
  datatype Group = Group(address: Address, txs: seq<Tx>)

  /** A transaction with the lowest sequence number, which has the highest priority in its group. */
  predicate IsFirst(txs: seq<Tx>, tx: Tx) {
    tx in txs && forall t :: t in txs ==> tx.sequence <= t.sequence
  }

  /** The head of a group. */
  method FindFirst(txs: seq<Tx>) returns (best: nat)
    requires txs != []
    ensures best < |txs| && IsFirst(txs, txs[best])
  {
    best := 0;
    for i := 1 to |txs|
      invariant best < i
      invariant forall k :: 0 <= k < i ==> txs[best].sequence <= txs[k].sequence
    {
      if txs[i].sequence < txs[best].sequence { best := i; }
    }
  }

  lemma TakeOut(txs: seq<Tx>, i: nat)
    requires i < |txs|
    ensures var rest := txs[..i] + txs[i + 1..];
            && multiset(txs) == multiset(rest) + multiset{txs[i]}
            && forall t :: t in rest ==> t in txs
  {
    assert txs == txs[..i] + [txs[i]] + txs[i + 1..];
  }

  method RemoveFrom(txs: seq<Tx>, gone: set<Raw>) returns (kept: seq<Tx>, numRemoved: nat)
    ensures kept == Without(txs, gone) && numRemoved == |txs| - |kept|
  {
    kept, numRemoved := [], 0;
    assert txs[0..] == txs;
    for i := 0 to |txs|
      invariant kept + Without(txs[i..], gone) == Without(txs, gone)
      invariant numRemoved + |kept| == i
    {
      assert txs[i..][0] == txs[i] && txs[i..][1..] == txs[i + 1..];
      if txs[i].raw in gone { numRemoved := numRemoved + 1; } else { kept := kept + [txs[i]]; }
    }
  }

  // ---- The pool ----

  datatype TxInfo = TxInfo(address: Address, sequence: nat, gasPrice: int)
  /** What an update has learned: the ledger's answers to the questions asked so far, numbered from zero,
      and the records of the bookkeeper with the time and its capacity. */
  datatype Hearing = Hearing(screen: (nat, Raw) -> bool, asked: nat, log: seq<Record>, now: nat, capacity: nat)

  predicate Answer(h: Hearing, k: nat, raw: Raw, answer: bool) {
    k < h.asked && h.screen(k, raw) == answer
  }

  /** The transaction still counts as seen, and the ledger, when it was asked, has accepted it. */
  ghost predicate Confirmed(h: Hearing, raw: Raw) {
    IsSeen(h.log, raw, h.now, h.capacity) && exists k: nat :: Answer(h, k, raw, true)
  }

  /** The transaction no longer counts as seen, or the ledger, when it was asked, has refused it. */
  ghost predicate Refuted(h: Hearing, raw: Raw) {
    !IsSeen(h.log, raw, h.now, h.capacity) || exists k: nat :: Answer(h, k, raw, false)
  }

  /** All but the invalid ones are confirmed. */
  ghost predicate Checked(h: Hearing, txs: seq<Tx>, invalid: set<Raw>) {
    forall t | t in txs :: t.raw in invalid || Confirmed(h, t.raw)
  }

  ghost predicate AllRefuted(h: Hearing, invalid: set<Raw>) {
    forall r | r in invalid :: Refuted(h, r)
  }

  /** Of the transactions that are still recorded, exactly the invalid ones have been marked as abandoned. */
  ghost predicate Marked(after: map<Raw, Status>, before: map<Raw, Status>, invalid: set<Raw>) {
    forall r | r in after :: r in before && after[r] == if r in invalid then Abandoned else before[r]
  }

  lemma MarkedFirst(between: map<Raw, Status>, before: map<Raw, Status>, raw: Raw)
    requires Keeps(between, before)
    ensures Marked(between, before, {})
    ensures raw !in between ==> Marked(between, before, {raw})
    ensures Marked(between[raw := Abandoned], before, {raw}) <== raw in between
  {}

  lemma MarkedNext(after: map<Raw, Status>, between: map<Raw, Status>, before: map<Raw, Status>, invalid: set<Raw>,
                   more: set<Raw>)
    requires Marked(between, before, invalid) && Marked(after, between, more)
    ensures Marked(after, before, invalid + more)
  {}

  /** More questions and more invalid transactions change nothing. */
  lemma CheckedMore(h: Hearing, asked: nat, txs: seq<Tx>, invalid: set<Raw>, more: set<Raw>)
    requires Checked(h, txs, invalid) && invalid <= more && h.asked <= asked
    ensures Checked(h.(asked := asked), txs, more)
  {
    forall t | t in txs ensures t.raw in more || Confirmed(h.(asked := asked), t.raw) {
      if t.raw !in invalid {
        var k: nat :| Answer(h, k, t.raw, true);
        assert Answer(h.(asked := asked), k, t.raw, true);
      }
    }
  }

  lemma RefutedMore(h: Hearing, asked: nat, invalid: set<Raw>)
    requires AllRefuted(h, invalid) && h.asked <= asked
    ensures AllRefuted(h.(asked := asked), invalid)
  {
    forall r | r in invalid ensures Refuted(h.(asked := asked), r) {
      assert Refuted(h, r);
      if IsSeen(h.log, r, h.now, h.capacity) {
        var k: nat :| Answer(h, k, r, false);
        assert Answer(h.(asked := asked), k, r, false);
      }
    }
  }

  /** One more transaction is confirmed or added to the invalid ones. */
  lemma CheckedNext(h: Hearing, asked: nat, txs: seq<Tx>, i: nat, invalid: set<Raw>)
    requires i < |txs| && h.asked <= asked && Checked(h, txs[..i], invalid) && AllRefuted(h, invalid)
    ensures var h', raw := h.(asked := asked), txs[i].raw;
            && (Confirmed(h', raw) ==> Checked(h', txs[..i + 1], invalid) && AllRefuted(h', invalid))
            && (Refuted(h', raw) ==> Checked(h', txs[..i + 1], invalid + {raw}) && AllRefuted(h', invalid + {raw}))
  {
    var raw := txs[i].raw;
    CheckedMore(h, asked, txs[..i], invalid, invalid);
    CheckedMore(h, asked, txs[..i], invalid, invalid + {raw});
    RefutedMore(h, asked, invalid);
    assert txs[..i + 1] == txs[..i] + [txs[i]];
  }

  /** Once the invalid ones are gone, all are confirmed. */
  lemma CheckedRest(h: Hearing, txs: seq<Tx>, invalid: set<Raw>)
    requires Checked(h, txs, invalid)
    ensures Checked(h, Without(txs, invalid), {})
  {
    forall t | t in Without(txs, invalid) ensures Confirmed(h, t.raw) {
      WithoutKept(txs, invalid, t);
    }
  }

  function TxFrom(raw: Raw, info: TxInfo): Tx {
    Tx(raw, info.address, info.sequence, info.gasPrice)
  }

  datatype InsertResult = Duplicate | Rejected | Skipped | Inserted

  /** Within an account, transactions leave by sequence number, and none stays that should go before. */
  ghost predicate InOrder(txs: seq<Tx>, pool: Pool) {
    && (forall i, j | 0 <= i < j < |txs| :: txs[i].address == txs[j].address ==> txs[i].sequence <= txs[j].sequence)
    && (forall i, t | 0 <= i < |txs| && t in TxsOf(pool, txs[i].address) :: txs[i].sequence <= t.sequence)
  }

  lemma OrderKept(txs: seq<Tx>, pool: Pool, a: Address, tx: Tx, rest: seq<Tx>)
    requires InOrder(txs, pool) && a in pool && tx in pool[a] && tx.address == a
    requires forall t :: t in pool[a] ==> tx.sequence <= t.sequence
    requires forall t :: t in rest ==> t in pool[a]
    ensures InOrder(txs, Left(pool, a, rest)) && InOrder(txs + [tx], Left(pool, a, rest))
  {
    var less := Left(pool, a, rest);
    assert forall b, t | t in TxsOf(less, b) :: t in TxsOf(pool, b);
  }

  /** What was held has been returned, has expired or is still held. */
  ghost predicate Splits(held: multiset<Tx>, txs: seq<Tx>, expired: seq<Tx>, pool: Pool) {
    held == multiset(txs) + multiset(expired) + Held(pool) && InOrder(txs, pool)
  }

  /** How many transactions a reap asks for. */
  function Cap(size: int, maxNumTxs: int): int {
    if maxNumTxs < 0 then size else if size < maxNumTxs then size else maxNumTxs
  }

  /** With the counter at or above the number held, as many are taken as asked for, and it stays so. */
  lemma Reaped(before: Pool, txs: seq<Tx>, expired: seq<Tx>, after: Pool, size: int, maxNumTxs: int)
    requires size >= |Held(before)| && Splits(Held(before), txs, expired, after)
    requires Cap(size, maxNumTxs) <= 0 ==> |txs| + |expired| == 0
    requires Cap(size, maxNumTxs) > 0 ==>
               |txs| + |expired| <= Cap(size, maxNumTxs) &&
               (|txs| + |expired| == Cap(size, maxNumTxs) || after == map[])
    ensures |txs| + |expired| ==
              if 0 <= maxNumTxs < |Held(before)| then maxNumTxs else |Held(before)|
    ensures size - |txs| >= |Held(after)|
  {
    assert |Held(before)| == |txs| + |expired| + |Held(after)|;
  }

  /** Exactly the transactions that no longer count as seen have expired. */
  ghost predicate Sorted(txs: seq<Tx>, expired: seq<Tx>, log: seq<Record>, now: nat, n: nat) {
    (forall t :: t in txs ==> IsSeen(log, t.raw, now, n)) && (forall t :: t in expired ==> !IsSeen(log, t.raw, now, n))
  }

  lemma SortedNext(txs: seq<Tx>, expired: seq<Tx>, log: seq<Record>, now: nat, n: nat, tx: Tx)
    requires Sorted(txs, expired, log, now, n)
    ensures if IsSeen(log, tx.raw, now, n) then Sorted(txs + [tx], expired, log, now, n)
            else Sorted(txs, expired + [tx], log, now, n)
  {}

  /** `tx` is a transaction of its account with the lowest sequence number, and `rest` are the others. */
  ghost predicate TakenFirst(pool: Pool, tx: Tx, rest: seq<Tx>) {
    && tx.address in pool && tx in pool[tx.address]
    && (forall t :: t in pool[tx.address] ==> tx.sequence <= t.sequence)
    && (forall t :: t in rest ==> t in pool[tx.address])
    && multiset(pool[tx.address]) == multiset(rest) + multiset{tx}
  }

  lemma SplitsNext(held: multiset<Tx>, txs: seq<Tx>, expired: seq<Tx>, pool: Pool, tx: Tx, rest: seq<Tx>)
    requires Splits(held, txs, expired, pool) && TakenFirst(pool, tx, rest)
    ensures Splits(held, txs + [tx], expired, Left(pool, tx.address, rest))
    ensures Splits(held, txs, expired + [tx], Left(pool, tx.address, rest))
  {
    HeldLeft(pool, tx.address, rest, multiset{tx});
    OrderKept(txs, pool, tx.address, tx, rest);
    assert multiset(txs + [tx]) == multiset(txs) + multiset{tx};
    assert multiset(expired + [tx]) == multiset(expired) + multiset{tx};
  }

  // ---- The queue of groups and the map of addresses ----

  /** Groups are shared between the queue and the address map, so both hold references. */
  type Ref = nat

  predicate Distinct(queue: seq<Ref>) {
    forall i, j | 0 <= i < j < |queue| :: queue[i] != queue[j]
  }

  /** Every group in the queue is the group of its address ... */
  predicate Linked(groups: map<Ref, Group>, queue: seq<Ref>, index: map<Address, Ref>) {
    forall r | r in queue :: r in groups && groups[r].address in index && index[groups[r].address] == r
  }

  /** ... and every address has its group in the queue. */
  predicate Queued(groups: map<Ref, Group>, queue: seq<Ref>, index: map<Address, Ref>) {
    forall a | a in index :: index[a] in queue && index[a] in groups && groups[index[a]].address == a
  }

  predicate GroupOK(g: Group) {
    g.txs != [] && forall t | t in g.txs :: t.address == g.address
  }

  lemma KeptGroupOK(g: Group, gone: set<Raw>)
    requires GroupOK(g)
    ensures Without(g.txs, gone) != [] ==> GroupOK(g.(txs := Without(g.txs, gone)))
  {
    forall t | t in Without(g.txs, gone) ensures t.address == g.address { WithoutKept(g.txs, gone, t); }
  }

  predicate Filled(groups: map<Ref, Group>, queue: seq<Ref>) {
    forall r | r in queue :: r in groups && GroupOK(groups[r])
  }

  /** The non-empty groups in the queue are exactly the groups of the addresses. */
  predicate Matched(groups: map<Ref, Group>, queue: seq<Ref>, index: map<Address, Ref>) {
    Distinct(queue) && Linked(groups, queue, index) && Queued(groups, queue, index) && Filled(groups, queue)
  }

  function Contents(groups: map<Ref, Group>, queue: seq<Ref>, index: map<Address, Ref>): Pool
    requires Queued(groups, queue, index)
  {
    map a | a in index :: groups[index[a]].txs
  }

  lemma QueueWithout(queue: seq<Ref>, i: nat)
    requires i < |queue| && Distinct(queue)
    ensures var less := queue[..i] + queue[i + 1..];
            Distinct(less) && forall r :: r in less <==> r in queue && r != queue[i]
  {
    var less := queue[..i] + queue[i + 1..];
    forall r ensures r in less <==> r in queue && r != queue[i] {
      if r in queue && r != queue[i] {
        var k :| 0 <= k < |queue| && queue[k] == r;
        assert k < i ==> less[k] == r;
        assert k > i ==> less[k - 1] == r;
      }
    }
  }

  /** All groups in the queue are there, and no two have the same address. */
  predicate OwnersDiffer(groups: map<Ref, Group>, queue: seq<Ref>) {
    && (forall i | 0 <= i < |queue| :: queue[i] in groups)
    && (forall i, j | 0 <= i < j < |queue| :: groups[queue[i]].address != groups[queue[j]].address)
  }

  lemma MatchedOwnersDiffer(groups: map<Ref, Group>, queue: seq<Ref>, index: map<Address, Ref>)
    requires Matched(groups, queue, index)
    ensures OwnersDiffer(groups, queue)
  {
    forall i | 0 <= i < |queue| ensures queue[i] in groups && index[groups[queue[i]].address] == queue[i] {
      assert queue[i] in queue;
    }
  }

  /** Exactly the addresses of the first `i` groups are done. */
  predicate DoneUpTo(groups: map<Ref, Group>, queue: seq<Ref>, done: set<Address>, i: nat)
    requires OwnersDiffer(groups, queue)
  {
    forall k | 0 <= k < |queue| :: groups[queue[k]].address in done <==> k < i
  }

  lemma DoneNext(groups: map<Ref, Group>, queue: seq<Ref>, done: set<Address>, i: nat)
    requires OwnersDiffer(groups, queue) && i < |queue| && DoneUpTo(groups, queue, done, i)
    ensures groups[queue[i]].address !in done
    ensures DoneUpTo(groups, queue, done + {groups[queue[i]].address}, i + 1)
  {}

  /** Together the groups in the queue have all addresses. */
  lemma AllDone(groups: map<Ref, Group>, queue: seq<Ref>, index: map<Address, Ref>, done: set<Address>)
    requires Matched(groups, queue, index) && OwnersDiffer(groups, queue)
    requires DoneUpTo(groups, queue, done, |queue|)
    ensures Contents(groups, queue, index).Keys <= done
  {
    forall a | a in index ensures a in done {
      assert index[a] in queue;
      var i :| 0 <= i < |queue| && queue[i] == index[a];
    }
  }

  /** Writing new transactions to a group. */
  lemma GroupWritten(groups: map<Ref, Group>, queue: seq<Ref>, index: map<Address, Ref>, r: Ref, txs: seq<Tx>)
    requires Matched(groups, queue, index) && r in queue && r in groups && GroupOK(groups[r].(txs := txs))
    ensures var groups' := groups[r := groups[r].(txs := txs)];
            && Matched(groups', queue, index)
            && Contents(groups', queue, index) == Contents(groups, queue, index)[groups[r].address := txs]
  {
    var groups' := groups[r := groups[r].(txs := txs)];
    assert Linked(groups', queue, index) && Queued(groups', queue, index) && Filled(groups', queue);
  }

  /** Taking a group out of the queue and putting it in again. */
  lemma GroupMoved(groups: map<Ref, Group>, queue: seq<Ref>, index: map<Address, Ref>, i: nat)
    requires Matched(groups, queue, index) && i < |queue|
    ensures var queue' := queue[..i] + queue[i + 1..] + [queue[i]];
            && Matched(groups, queue', index)
            && Contents(groups, queue', index) == Contents(groups, queue, index)
  {
    QueueWithout(queue, i);
    var queue' := queue[..i] + queue[i + 1..] + [queue[i]];
    assert forall r :: r in queue' <==> r in queue;
    assert Linked(groups, queue', index) && Queued(groups, queue', index) && Filled(groups, queue');
  }

  /** Taking an emptied group out of the queue and out of the address map. */
  lemma GroupDropped(groups: map<Ref, Group>, queue: seq<Ref>, index: map<Address, Ref>, i: nat)
    requires Matched(groups, queue, index) && i < |queue| && queue[i] in groups
    ensures var queue', index' := queue[..i] + queue[i + 1..], index - {groups[queue[i]].address};
            && Matched(groups, queue', index')
            && Contents(groups, queue', index') == Contents(groups, queue, index) - {groups[queue[i]].address}
  {
    QueueWithout(queue, i);
    var queue', index' := queue[..i] + queue[i + 1..], index - {groups[queue[i]].address};
    assert Linked(groups, queue', index');
    assert Queued(groups, queue', index');
  }

  /** A new group at the end of the queue. */
  lemma GroupAdded(groups: map<Ref, Group>, queue: seq<Ref>, index: map<Address, Ref>, r: Ref, tx: Tx)
    requires Matched(groups, queue, index) && r !in groups && tx.address !in index
    ensures var groups', queue', index' := groups[r := Group(tx.address, [tx])], queue + [r], index[tx.address := r];
            && Matched(groups', queue', index')
            && Contents(groups', queue', index') == Pushed(Contents(groups, queue, index), tx)
  {
    var groups', queue', index' := groups[r := Group(tx.address, [tx])], queue + [r], index[tx.address := r];
    assert Linked(groups', queue', index') && Queued(groups', queue', index') && Filled(groups', queue');
    assert [] + [tx] == [tx];
  }

  /** The group has a first transaction of at most this gas price. */
  ghost predicate NoDearer(txs: seq<Tx>, price: int) {
    exists t :: IsFirst(txs, t) && t.gasPrice <= price
  }

  /** No account has only first transactions with a higher gas price. */
  ghost predicate HighestPrice(pool: Pool, tx: Tx) {
    forall a | a in pool :: NoDearer(pool[a], tx.gasPrice)
  }

  lemma HeadIsHighest(groups: map<Ref, Group>, queue: seq<Ref>, index: map<Address, Ref>, tx: Tx)
    requires Matched(groups, queue, index) && OwnersDiffer(groups, queue)
    requires forall k | 0 <= k < |queue| :: NoDearer(groups[queue[k]].txs, tx.gasPrice)
    ensures HighestPrice(Contents(groups, queue, index), tx)
  {
    var pool := Contents(groups, queue, index);
    forall a | a in pool ensures NoDearer(pool[a], tx.gasPrice) {
      assert index[a] in queue;
      var k :| 0 <= k < |queue| && queue[k] == index[a];
    }
  }

  /** `taken` left the pool one after the other: each time a first transaction of its account such that no account had
      only dearer ones. */
  ghost predicate Greedy(before: Pool, taken: seq<Tx>, after: Pool)
    decreases |taken|
  {
    if taken == [] then after == before
    else
      var tx := taken[|taken| - 1];
      exists pool, rest ::
        && Greedy(before, taken[..|taken| - 1], pool) && TakenFirst(pool, tx, rest) && HighestPrice(pool, tx)
        && after == Left(pool, tx.address, rest)
  }

  lemma GreedyNext(before: Pool, taken: seq<Tx>, pool: Pool, tx: Tx, rest: seq<Tx>)
    requires Greedy(before, taken, pool) && TakenFirst(pool, tx, rest) && HighestPrice(pool, tx)
    ensures Greedy(before, taken + [tx], Left(pool, tx.address, rest))
  {
    var more := taken + [tx];
    assert more[|more| - 1] == tx && more[..|more| - 1] == taken;
  }

  /** The transactions that still count as seen, in their order. */
  ghost function StillSeen(taken: seq<Tx>, log: seq<Record>, now: nat, n: nat): seq<Tx> {
    if taken == [] then []
    else
      var tx := taken[|taken| - 1];
      StillSeen(taken[..|taken| - 1], log, now, n) + if IsSeen(log, tx.raw, now, n) then [tx] else []
  }

  lemma StillSeenNext(taken: seq<Tx>, log: seq<Record>, now: nat, n: nat, tx: Tx)
    ensures StillSeen(taken + [tx], log, now, n) ==
              StillSeen(taken, log, now, n) + if IsSeen(log, tx.raw, now, n) then [tx] else []
  {
    var more := taken + [tx];
    assert more[|more| - 1] == tx && more[..|more| - 1] == taken;
  }

  /** The records of the bookkeeper, the time and its capacity. */
  datatype Clock = Clock(log: seq<Record>, now: nat, capacity: nat)

  /** What is true of the transactions taken out of `start` so far, down to `pool`. */
  ghost predicate Taking(start: Pool, taken: seq<Tx>, txs: seq<Tx>, expired: seq<Tx>, pool: Pool, clock: Clock,
                         inHeapOrder: bool)
  {
    && Splits(Held(start), txs, expired, pool)
    && Sorted(txs, expired, clock.log, clock.now, clock.capacity)
    && txs == StillSeen(taken, clock.log, clock.now, clock.capacity)
    && (inHeapOrder ==> Greedy(start, taken, pool))
  }

  lemma TakingStarts(start: Pool, clock: Clock, inHeapOrder: bool)
    ensures Taking(start, [], [], [], start, clock, inHeapOrder)
  {}

  lemma TakingNext(start: Pool, taken: seq<Tx>, txs: seq<Tx>, expired: seq<Tx>, pool: Pool, clock: Clock,
                   inHeapOrder: bool, tx: Tx, rest: seq<Tx>, known: bool)
    requires Taking(start, taken, txs, expired, pool, clock, inHeapOrder) && TakenFirst(pool, tx, rest)
    requires inHeapOrder ==> HighestPrice(pool, tx)
    requires known <==> IsSeen(clock.log, tx.raw, clock.now, clock.capacity)
    ensures Taking(start, taken + [tx], if known then txs + [tx] else txs, if known then expired else expired + [tx],
                   Left(pool, tx.address, rest), clock, inHeapOrder)
  {
    SplitsNext(Held(start), txs, expired, pool, tx, rest);
    SortedNext(txs, expired, clock.log, clock.now, clock.capacity, tx);
    StillSeenNext(taken, clock.log, clock.now, clock.capacity, tx);
    if inHeapOrder { GreedyNext(start, taken, pool, tx, rest); }
  }

  // ---- Going through the queue ----

  /** The transactions of the first `i` groups have been checked. */
  ghost predicate QueueChecked(h: Hearing, groups: map<Ref, Group>, queue: seq<Ref>, i: nat, invalid: set<Raw>)
    requires OwnersDiffer(groups, queue)
  {
    forall k | 0 <= k < i && k < |queue| :: Checked(h, groups[queue[k]].txs, invalid)
  }

  lemma QueueCheckedNext(h: Hearing, asked: nat, groups: map<Ref, Group>, queue: seq<Ref>, i: nat,
                         invalid: set<Raw>, more: set<Raw>)
    requires OwnersDiffer(groups, queue) && i < |queue| && h.asked <= asked
    requires QueueChecked(h, groups, queue, i, invalid) && Checked(h.(asked := asked), groups[queue[i]].txs, more)
    ensures QueueChecked(h.(asked := asked), groups, queue, i + 1, invalid + more)
  {
    var h' := h.(asked := asked);
    forall k | 0 <= k < i + 1 ensures Checked(h', groups[queue[k]].txs, invalid + more) {
      if k < i {
        CheckedMore(h, asked, groups[queue[k]].txs, invalid, invalid + more);
      } else {
        CheckedMore(h', asked, groups[queue[k]].txs, more, invalid + more);
      }
    }
  }

  ghost predicate PoolChecked(h: Hearing, pool: Pool, invalid: set<Raw>) {
    forall a | a in pool :: Checked(h, pool[a], invalid)
  }

  /** What two removals leave. */
  lemma Updated(pool: Pool, gone: set<Raw>, invalid: set<Raw>, h: Hearing)
    requires PoolChecked(h, WithoutAll(pool, gone), invalid)
    ensures var after := WithoutAll(WithoutAll(pool, gone), invalid);
            && (forall t :: Held(after)[t] == if t.raw in gone || t.raw in invalid then 0 else Held(pool)[t])
            && PoolChecked(h, after, {})
  {
    var between := WithoutAll(pool, gone);
    var after := WithoutAll(between, invalid);
    forall t ensures Held(after)[t] == if t.raw in gone || t.raw in invalid then 0 else Held(pool)[t] {
      HeldWithoutAll(pool, gone, t);
      HeldWithoutAll(between, invalid, t);
    }
    forall a | a in after ensures Checked(h, after[a], {}) {
      CheckedRest(h, between[a], invalid);
    }
  }

  lemma QueueIsPool(h: Hearing, groups: map<Ref, Group>, queue: seq<Ref>, index: map<Address, Ref>, invalid: set<Raw>)
    requires Matched(groups, queue, index) && OwnersDiffer(groups, queue)
    requires QueueChecked(h, groups, queue, |queue|, invalid)
    ensures PoolChecked(h, Contents(groups, queue, index), invalid)
  {
    forall a | a in index ensures Checked(h, groups[index[a]].txs, invalid) {
      assert index[a] in queue;
      var i :| 0 <= i < |queue| && queue[i] == index[a];
    }
  }

  class Mempool {
    const bookkeeper: TransactionBookkeeper
    var candidateTxs: seq<Ref>
    var addressToTxGroup: map<Address, Ref>
    var size: int

    /** The groups by reference, and the reference of the next new one. */
    var groups: map<Ref, Group>
    var next: Ref

    /** Whether the queue is known to be in heap order. Removals change priorities and do not reorder it. */
    var inHeapOrder: bool

    /** What the pool holds. */
    ghost function Pooled(): Pool
      requires Queued(groups, candidateTxs, addressToTxGroup)
      reads this`groups, this`candidateTxs, this`addressToTxGroup
    {
      Contents(groups, candidateTxs, addressToTxGroup)
    }

    ghost predicate Ordered()
      reads this`groups, this`candidateTxs, this`addressToTxGroup, this`next
    {
      Matched(groups, candidateTxs, addressToTxGroup) && forall r | r in groups :: r < next
    }

    /** The counter never falls below the number of transactions held. */
    ghost predicate Valid()
      reads this, bookkeeper
    {
      Ordered() && bookkeeper.Valid() && size >= |Held(Pooled())|
    }

    constructor (bookkeeper: TransactionBookkeeper)
      requires bookkeeper.Valid()
      ensures Valid() && this.bookkeeper == bookkeeper && Pooled() == map[] && size == 0 && inHeapOrder
    {
      this.bookkeeper := bookkeeper;
      candidateTxs, addressToTxGroup, size, groups, next, inHeapOrder := [], map[], 0, map[], 0, true;
    }

    /** `synced` and `screened` are the answers of the consensus engine and of the ledger. Only what
        passes is recorded as seen. */
    method Screen(raw: Raw, synced: bool, screened: Option<TxInfo>, now: nat) returns (r: InsertResult)
      requires bookkeeper.Valid() && bookkeeper.clock <= now
      modifies bookkeeper
      ensures bookkeeper.Valid() && bookkeeper.clock == now
      ensures r == if IsSeen(old(bookkeeper.log), raw, now, bookkeeper.maxNumTxs) then Duplicate
                   else if !synced then Skipped else if screened.None? then Rejected else Inserted
      ensures bookkeeper.log == if r.Inserted? then old(bookkeeper.log) + [Record(raw, now)] else old(bookkeeper.log)
    {
      var seen := bookkeeper.HasSeen(raw, now);
      if seen { return Duplicate; }
      if !synced { return Skipped; }
      if screened.None? { return Rejected; }
      var _ := bookkeeper.AddRecord(raw, now);
      return Inserted;
    }

    method InsertTransaction(raw: Raw, synced: bool, screened: Option<TxInfo>, now: nat) returns (r: InsertResult)
      requires Valid() && bookkeeper.clock <= now
      modifies this, bookkeeper
      ensures Valid() && bookkeeper.clock == now && inHeapOrder == old(inHeapOrder)
      ensures r == if IsSeen(old(bookkeeper.log), raw, now, bookkeeper.maxNumTxs) then Duplicate
                   else if !synced then Skipped else if screened.None? then Rejected else Inserted
      ensures r.Inserted? ==> Pooled() == Pushed(old(Pooled()), TxFrom(raw, screened.value)) && size == old(size) + 1
      ensures !r.Inserted? ==> Pooled() == old(Pooled()) && size == old(size)
      ensures bookkeeper.log == if r.Inserted? then old(bookkeeper.log) + [Record(raw, now)] else old(bookkeeper.log)
    {
      r := Screen(raw, synced, screened, now);
      if r.Inserted? {
        var tx := TxFrom(raw, screened.value);
        HeldPushed(Pooled(), tx);
        Enqueue(tx);
      }
    }

    /** Adds a transaction to the group of its account. The priority of the group may change, so it is
        taken out of the queue and put in again. */
    method Enqueue(tx: Tx)
      requires Ordered()
      modifies this
      ensures Ordered() && Pooled() == Pushed(old(Pooled()), tx) && size == old(size) + 1
      ensures inHeapOrder == old(inHeapOrder)
    {
      if tx.address in addressToTxGroup {
        var r := addressToTxGroup[tx.address];
        var i :| 0 <= i < |candidateTxs| && candidateTxs[i] == r;
        var txs := groups[r].txs + [tx];
        Write(r, txs);
        Requeue(i);
      } else {
        GroupAdded(groups, candidateTxs, addressToTxGroup, next, tx);
        groups := groups[next := Group(tx.address, [tx])];
        addressToTxGroup := addressToTxGroup[tx.address := next];
        candidateTxs := candidateTxs + [next];
        next := next + 1;
      }
      size := size + 1;
    }

    /** The group at the head of the queue and the head of that group: it is one of highest gas price if the
        queue is in heap order, and otherwise some group. */
    method Head() returns (i: nat, best: nat)
      requires Ordered() && candidateTxs != []
      ensures i < |candidateTxs| && OwnersDiffer(groups, candidateTxs)
      ensures best < |groups[candidateTxs[i]].txs|
      ensures IsFirst(groups[candidateTxs[i]].txs, groups[candidateTxs[i]].txs[best])
      ensures inHeapOrder ==> forall k | 0 <= k < |candidateTxs| ::
                NoDearer(groups[candidateTxs[k]].txs, groups[candidateTxs[i]].txs[best].gasPrice)
    {
      MatchedOwnersDiffer(groups, candidateTxs, addressToTxGroup);
      i :| 0 <= i < |candidateTxs|;
      assert GroupOK(groups[candidateTxs[i]]);
      best := FindFirst(groups[candidateTxs[i]].txs);
      if !inHeapOrder { return; }
      var price := groups[candidateTxs[i]].txs[best].gasPrice;
      for j := 0 to |candidateTxs|
        invariant i < |candidateTxs| && best < |groups[candidateTxs[i]].txs|
        invariant IsFirst(groups[candidateTxs[i]].txs, groups[candidateTxs[i]].txs[best])
        invariant price == groups[candidateTxs[i]].txs[best].gasPrice
        invariant forall k | 0 <= k < j :: NoDearer(groups[candidateTxs[k]].txs, price)
      {
        assert GroupOK(groups[candidateTxs[j]]);
        var first := FindFirst(groups[candidateTxs[j]].txs);
        var asked := groups[candidateTxs[j]].txs[first].gasPrice;
        if price < asked { i, best, price := j, first, asked; }
      }
    }

    /** Takes the first transaction of the group at the head of the queue. As long as nothing has been removed
        out of turn, no other account has a first transaction with a higher gas price. */
    method PopNext() returns (tx: Tx, ghost rest: seq<Tx>)
      requires Ordered() && candidateTxs != []
      modifies this
      ensures Ordered() && size == old(size) && inHeapOrder == old(inHeapOrder)
      ensures inHeapOrder ==> HighestPrice(old(Pooled()), tx)
      ensures TakenFirst(old(Pooled()), tx, rest) && Pooled() == Left(old(Pooled()), tx.address, rest)
    {
      var i, best := Head();
      var r := candidateTxs[i];
      assert GroupOK(groups[r]);
      tx := groups[r].txs[best];
      var txs := groups[r].txs[..best] + groups[r].txs[best + 1..];
      TakeOut(groups[r].txs, best);
      rest := txs;
      if inHeapOrder { HeadIsHighest(groups, candidateTxs, addressToTxGroup, tx); }
      if txs == [] {
        Drop(i);
      } else {
        Write(r, txs);
        Requeue(i);
      }
    }

    /** The same, together with whether the transaction still counts as seen. */
    method PopChecked(now: nat) returns (tx: Tx, known: bool, ghost rest: seq<Tx>)
      requires Ordered() && candidateTxs != [] && bookkeeper.Valid() && bookkeeper.clock <= now
      modifies this, bookkeeper
      ensures Ordered() && size == old(size) && inHeapOrder == old(inHeapOrder)
      ensures inHeapOrder ==> HighestPrice(old(Pooled()), tx)
      ensures TakenFirst(old(Pooled()), tx, rest) && Pooled() == Left(old(Pooled()), tx.address, rest)
      ensures bookkeeper.Valid() && bookkeeper.clock <= now && bookkeeper.log == old(bookkeeper.log)
      ensures known <==> IsSeen(bookkeeper.log, tx.raw, now, bookkeeper.maxNumTxs)
    {
      tx, rest := PopNext();
      var status := bookkeeper.GetStatus(tx.raw, now);
      known := status.Some?;
    }

    /** Takes transactions out of the pool, `max` of them if there are as many. */
    method TakeUpTo(max: int, now: nat) returns (txs: seq<Tx>, ghost expired: seq<Tx>, ghost taken: seq<Tx>)
      requires Ordered() && bookkeeper.Valid() && bookkeeper.clock <= now
      modifies this, bookkeeper
      ensures Ordered() && bookkeeper.Valid() && bookkeeper.clock <= now && bookkeeper.log == old(bookkeeper.log)
      ensures Taking(old(Pooled()), taken, txs, expired, Pooled(),
                     Clock(old(bookkeeper.log), now, bookkeeper.maxNumTxs), inHeapOrder)
      ensures max <= 0 ==> |txs| + |expired| == 0
      ensures max > 0 ==> |txs| + |expired| <= max && (|txs| + |expired| == max || Pooled() == map[])
      ensures size == old(size) && inHeapOrder == old(inHeapOrder)
    {
      ghost var start, clock := Pooled(), Clock(bookkeeper.log, now, bookkeeper.maxNumTxs);
      txs, expired, taken := [], [], [];
      var i := 0;
      TakingStarts(start, clock, inHeapOrder);
      while i < max && candidateTxs != []
        invariant 0 <= i && (i <= max || i == 0) && |txs| + |expired| == i
        invariant Ordered() && bookkeeper.Valid() && size == old(size) && inHeapOrder == old(inHeapOrder)
        invariant bookkeeper.clock <= now && bookkeeper.log == clock.log
        invariant Taking(start, taken, txs, expired, Pooled(), clock, inHeapOrder)
      {
        ghost var before := Pooled();
        var tx; ghost var rest;
        var known;
        tx, known, rest := PopChecked(now);
        TakingNext(start, taken, txs, expired, before, clock, inHeapOrder, tx, rest, known);
        taken := taken + [tx];
        if known { txs := txs + [tx]; } else { expired := expired + [tx]; }
        i := i + 1;
      }
      assert candidateTxs == [] ==> Pooled() == map[];
    }

    /** Takes up to `maxNumTxs` transactions out of the pool, all of them when that is negative. What is
        held splits into the transactions returned, those dropped as expired and those still held. */
    method Reap(maxNumTxs: int, now: nat) returns (txs: seq<Tx>, ghost expired: seq<Tx>, ghost taken: seq<Tx>)
      requires Valid() && bookkeeper.clock <= now
      modifies this, bookkeeper
      ensures Valid() && bookkeeper.clock <= now && bookkeeper.log == old(bookkeeper.log)
      ensures Taking(old(Pooled()), taken, txs, expired, Pooled(),
                     Clock(old(bookkeeper.log), now, bookkeeper.maxNumTxs), old(inHeapOrder))
      ensures |txs| + |expired| ==
                var held := |old(Held(Pooled()))|; if 0 <= maxNumTxs < held then maxNumTxs else held
      ensures size == old(size) - |txs| && inHeapOrder == old(inHeapOrder)
    {
      ghost var before := Pooled();
      txs, expired, taken := TakeUpTo(Cap(size, maxNumTxs), now);
      ghost var after := Pooled();
      Reaped(before, txs, expired, after, size, maxNumTxs);
      size := size - |txs|;
    }

    /** Removes transactions from one group, and the group if none is left. */
    method RemoveFromGroup(r: Ref, gone: set<Raw>)
      requires Ordered() && r in candidateTxs && r in groups
      modifies this
      ensures Ordered()
      ensures var pool, a := old(Pooled()), old(groups[r].address);
              && a in pool && Pooled() == Left(pool, a, Without(pool[a], gone))
              && size == old(size) - (|pool[a]| - |Without(pool[a], gone)|)
      ensures forall q :: q != r && q in old(candidateTxs) ==> q in candidateTxs
      ensures forall q :: q in old(groups) ==> q in groups && groups[q].address == old(groups)[q].address
      ensures inHeapOrder == (old(inHeapOrder) && size == old(size))
    {
      var kept, numRemoved := RemoveFrom(groups[r].txs, gone);
      KeptGroupOK(groups[r], gone);
      size := size - numRemoved;
      if numRemoved > 0 { inHeapOrder := false; }
      if kept == [] {
        var i :| 0 <= i < |candidateTxs| && candidateTxs[i] == r;
        Drop(i);
      } else {
        Write(r, kept);
      }
    }

    method Write(r: Ref, txs: seq<Tx>)
      requires Ordered() && r in candidateTxs && r in groups && GroupOK(groups[r].(txs := txs))
      modifies this`groups
      ensures Ordered() && Pooled() == old(Pooled())[old(groups[r].address) := txs]
      ensures groups == old(groups)[r := old(groups)[r].(txs := txs)]
    {
      GroupWritten(groups, candidateTxs, addressToTxGroup, r, txs);
      groups := groups[r := groups[r].(txs := txs)];
    }

    method Requeue(i: nat)
      requires Ordered() && i < |candidateTxs|
      modifies this`candidateTxs
      ensures Ordered() && Pooled() == old(Pooled())
    {
      GroupMoved(groups, candidateTxs, addressToTxGroup, i);
      candidateTxs := candidateTxs[..i] + candidateTxs[i + 1..] + [candidateTxs[i]];
    }

    method Drop(i: nat)
      requires Ordered() && i < |candidateTxs| && candidateTxs[i] in groups
      modifies this`candidateTxs, this`addressToTxGroup
      ensures Ordered() && Pooled() == old(Pooled()) - {groups[old(candidateTxs[i])].address}
      ensures forall q :: q != old(candidateTxs[i]) && q in old(candidateTxs) ==> q in candidateTxs
    {
      GroupDropped(groups, candidateTxs, addressToTxGroup, i);
      QueueWithout(candidateTxs, i);
      addressToTxGroup := addressToTxGroup - {groups[candidateTxs[i]].address};
      candidateTxs := candidateTxs[..i] + candidateTxs[i + 1..];
    }

    /** Removes all of these transactions. */
    method RemoveTxs(gone: set<Raw>)
      requires Ordered()
      modifies this
      ensures Ordered() && Pooled() == WithoutAll(old(Pooled()), gone)
      ensures size - |Held(Pooled())| == old(size - |Held(Pooled())|)
      ensures inHeapOrder == (|candidateTxs| <= 1 || (old(inHeapOrder) && size == old(size)))
    {
      RemoveFromAll(gone);
      if |candidateTxs| <= 1 { inHeapOrder := true; }
    }

    method RemoveFromAll(gone: set<Raw>)
      requires Ordered()
      modifies this
      ensures Ordered() && Pooled() == WithoutAll(old(Pooled()), gone)
      ensures size - |Held(Pooled())| == old(size - |Held(Pooled())|)
      ensures inHeapOrder == (old(inHeapOrder) && size == old(size))
    {
      var list := candidateTxs;
      ghost var pool, start, index := Pooled(), groups, addressToTxGroup;
      ghost var done: set<Address>, surplus := {}, size - |Held(pool)|;
      MatchedOwnersDiffer(groups, candidateTxs, addressToTxGroup);
      assert Partly(pool, gone, done) == pool;
      for i := 0 to |list|
        invariant Ordered() && forall k | i <= k < |list| :: list[k] in candidateTxs
        invariant forall q :: q in start ==> q in groups && groups[q].address == start[q].address
        invariant DoneUpTo(start, list, done, i)
        invariant Pooled() == Partly(pool, gone, done) && size - |Held(Pooled())| == surplus
        invariant size <= old(size) && inHeapOrder == (old(inHeapOrder) && size == old(size))
      {
        ghost var a := groups[list[i]].address;
        LeftWithout(Pooled(), a, gone);
        DoneNext(start, list, done, i);
        PartlyNext(pool, gone, done, a);
        RemoveFromGroup(list[i], gone);
        done := done + {a};
      }
      AllDone(start, list, index, done);
      PartlyAll(pool, gone, done);
    }

    /** The transactions of one group that have expired or that the ledger refuses now. Its answers depend
        on what it has been asked before, so `screen` takes the number of the question as well. */
    method FindInvalid(txs: seq<Tx>, screen: (nat, Raw) -> bool, asked: nat, now: nat)
      returns (invalid: set<Raw>, count: nat)
      requires bookkeeper.Valid() && bookkeeper.clock <= now
      modifies bookkeeper
      ensures bookkeeper.Valid() && bookkeeper.clock <= now && bookkeeper.log == old(bookkeeper.log)
      ensures asked <= count <= asked + |txs|
      ensures var h := Hearing(screen, count, bookkeeper.log, now, bookkeeper.maxNumTxs);
              Checked(h, txs, invalid) && AllRefuted(h, invalid)
      ensures Marked(bookkeeper.txMap, old(bookkeeper.txMap), invalid)
    {
      invalid, count := {}, asked;
      ghost var log, n, before := bookkeeper.log, bookkeeper.maxNumTxs, bookkeeper.txMap;
      for i := 0 to |txs|
        invariant bookkeeper.Valid() && bookkeeper.clock <= now && bookkeeper.log == log
        invariant asked <= count <= asked + i
        invariant Checked(Hearing(screen, count, log, now, n), txs[..i], invalid)
        invariant AllRefuted(Hearing(screen, count, log, now, n), invalid)
        invariant Marked(bookkeeper.txMap, before, invalid)
      {
        ghost var h, between := Hearing(screen, count, log, now, n), bookkeeper.txMap;
        var valid, next := CheckOne(txs[i].raw, screen, count, now);
        CheckedNext(h, next, txs, i, invalid);
        MarkedNext(bookkeeper.txMap, between, before, invalid, if valid then {} else {txs[i].raw});
        assert invalid + {} == invalid;
        if !valid { invalid := invalid + {txs[i].raw}; }
        count := next;
      }
      assert txs[..|txs|] == txs;
    }

    /** Looks at one transaction; the ledger is only asked when the transaction has not expired. */
    method CheckOne(raw: Raw, screen: (nat, Raw) -> bool, asked: nat, now: nat) returns (valid: bool, count: nat)
      requires bookkeeper.Valid() && bookkeeper.clock <= now
      modifies bookkeeper
      ensures bookkeeper.Valid() && bookkeeper.clock <= now && bookkeeper.log == old(bookkeeper.log)
      ensures asked <= count <= asked + 1
      ensures var h := Hearing(screen, count, bookkeeper.log, now, bookkeeper.maxNumTxs);
              if valid then Confirmed(h, raw) else Refuted(h, raw)
      ensures valid ==> Marked(bookkeeper.txMap, old(bookkeeper.txMap), {})
      ensures !valid ==> Marked(bookkeeper.txMap, old(bookkeeper.txMap), {raw})
    {
      var status := bookkeeper.GetStatus(raw, now);
      MarkedFirst(bookkeeper.txMap, old(bookkeeper.txMap), raw);
      if status.None? { return false, asked; }
      valid, count := screen(asked, raw), asked + 1;
      assert Answer(Hearing(screen, count, bookkeeper.log, now, bookkeeper.maxNumTxs), asked, raw, valid);
      if !valid { bookkeeper.MarkAbandoned(raw); }
    }

    method FindAllInvalid(screen: (nat, Raw) -> bool, now: nat) returns (invalid: set<Raw>, count: nat)
      requires Ordered() && bookkeeper.Valid() && bookkeeper.clock <= now
      modifies bookkeeper
      ensures bookkeeper.Valid() && bookkeeper.clock <= now && bookkeeper.log == old(bookkeeper.log)
      ensures var h := Hearing(screen, count, bookkeeper.log, now, bookkeeper.maxNumTxs);
              PoolChecked(h, Pooled(), invalid) && AllRefuted(h, invalid)
      ensures Marked(bookkeeper.txMap, old(bookkeeper.txMap), invalid)
    {
      invalid, count := {}, 0;
      ghost var log, n, before := bookkeeper.log, bookkeeper.maxNumTxs, bookkeeper.txMap;
      var queue, all := candidateTxs, groups;
      MatchedOwnersDiffer(groups, candidateTxs, addressToTxGroup);
      for i := 0 to |queue|
        invariant bookkeeper.Valid() && bookkeeper.clock <= now && bookkeeper.log == log
        invariant QueueChecked(Hearing(screen, count, log, now, n), all, queue, i, invalid)
        invariant AllRefuted(Hearing(screen, count, log, now, n), invalid)
        invariant Marked(bookkeeper.txMap, before, invalid)
      {
        ghost var h, between := Hearing(screen, count, log, now, n), bookkeeper.txMap;
        var more, next := FindInvalid(all[queue[i]].txs, screen, count, now);
        MarkedNext(bookkeeper.txMap, between, before, invalid, more);
        QueueCheckedNext(h, next, all, queue, i, invalid, more);
        RefutedMore(h, next, invalid);
        invalid, count := invalid + more, next;
      }
      QueueIsPool(Hearing(screen, count, log, now, n), all, queue, addressToTxGroup, invalid);
    }

    /** After a block has been committed, its transactions leave the pool together with all that have
        expired or that the ledger, asked `count` questions, refuses now. Everything else stays. */
    method Update(committed: seq<Raw>, screen: (nat, Raw) -> bool, now: nat) returns (invalid: set<Raw>, count: nat)
      requires Valid() && bookkeeper.clock <= now
      modifies this, bookkeeper
      ensures Valid() && bookkeeper.clock <= now && bookkeeper.log == old(bookkeeper.log)
      ensures forall t :: Held(Pooled())[t] ==
                if t.raw in committed || t.raw in invalid then 0 else old(Held(Pooled()))[t]
      ensures var h := Hearing(screen, count, bookkeeper.log, now, bookkeeper.maxNumTxs);
              AllRefuted(h, invalid) && PoolChecked(h, Pooled(), {})
      ensures Marked(bookkeeper.txMap, old(bookkeeper.txMap), invalid)
    {
      ghost var pool := Pooled();
      var gone := set r | r in committed;
      RemoveTxs(gone);
      invalid, count := FindAllInvalid(screen, now);
      RemoveTxs(invalid);
      Updated(pool, gone, invalid, Hearing(screen, count, bookkeeper.log, now, bookkeeper.maxNumTxs));
    }
  }
}
