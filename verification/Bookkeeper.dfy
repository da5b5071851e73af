/** Which transactions count as already seen (mempool/tx_bookkeeper.go). */
module Bookkeeper {
  import opened Options

  type Hash = nat

  /** One minute, in nanoseconds. */
  const MAX_TX_LIFE: nat := 60_000_000_000

  datatype Status = Pending | Abandoned
  datatype Record = Record(hash: Hash, createdAt: nat)

  predicate Outdated(r: Record, now: nat) {
    now > r.createdAt + MAX_TX_LIFE
  }

  /** The record at `k` of all records ever made is at most one minute old and has fewer than `n` after it. */
  predicate Counts(log: seq<Record>, k: nat, now: nat, n: nat)
    requires k < |log|
  {
    now <= log[k].createdAt + MAX_TX_LIFE && |log| - 1 - k < n
  }

  predicate IsSeen(log: seq<Record>, h: Hash, now: nat, n: nat) {
    exists k: nat | k < |log| :: log[k].hash == h && Counts(log, k, now, n)
  }

  /** A transaction recorded once counts as seen for one minute, unless as many others as there is room for have been
      recorded since. */
  lemma SeenExactly(before: seq<Record>, h: Hash, at: nat, later: seq<Record>, now: nat, n: nat)
    requires forall r :: r in before + later ==> r.hash != h
    ensures IsSeen(before + [Record(h, at)] + later, h, now, n) <==> now <= at + 60_000_000_000 && |later| < n
  {
    var log, k := before + [Record(h, at)] + later, |before|;
    assert log[k] == Record(h, at);
    forall i: nat | i < |log| && i != k ensures log[i].hash != h {
      assert log[i] in before + later;
    }
  }

  /** What the records that are kept have to do with all records ever made. */
  ghost predicate Window(log: seq<Record>, list: seq<Record>, now: nat, n: nat) {
    && |list| <= |log| && |list| <= n
    && list == log[|log| - |list|..]
    && (forall k: nat | k < |log| - |list| :: !Counts(log, k, now, n))
    && (forall k: nat | k < |log| :: log[k].createdAt <= now)
    && (forall i, j | 0 <= i <= j < |log| :: log[i].createdAt <= log[j].createdAt)
  }

  ghost predicate Listed(list: seq<Record>, h: Hash) {
    exists i | 0 <= i < |list| :: list[i].hash == h
  }

  ghost predicate Indexed(list: seq<Record>, index: map<Hash, Status>) {
    && (forall i, j | 0 <= i < j < |list| :: list[i].hash != list[j].hash)
    && (forall h :: h in index <==> Listed(list, h))
  }

  /** With the outdated records gone, the index holds exactly what counts as seen. */
  lemma IndexIsSeen(log: seq<Record>, list: seq<Record>, index: map<Hash, Status>, now: nat, n: nat, h: Hash)
    requires Window(log, list, now, n) && Indexed(list, index)
    requires list == [] || !Outdated(list[0], now)
    ensures h in index <==> IsSeen(log, h, now, n)
  {
    var lo := |log| - |list|;
    if h in index {
      var i :| 0 <= i < |list| && list[i].hash == h;
      assert list[i] == log[lo + i] && list[0] == log[lo];
      assert Counts(log, lo + i, now, n);
    }
    if IsSeen(log, h, now, n) {
      var k: nat :| k < |log| && log[k].hash == h && Counts(log, k, now, n);
      assert log[k] == list[k - lo];
    }
  }

  lemma TimePasses(log: seq<Record>, list: seq<Record>, before: nat, now: nat, n: nat)
    requires Window(log, list, before, n) && before <= now
    ensures Window(log, list, now, n)
  {
    forall k: nat | k < |log| - |list| ensures !Counts(log, k, now, n) {
      assert !Counts(log, k, before, n);
    }
  }

  lemma DropFirst(log: seq<Record>, list: seq<Record>, index: map<Hash, Status>, now: nat, n: nat)
    requires Window(log, list, now, n) && Indexed(list, index)
    requires list != [] && Outdated(list[0], now)
    ensures Window(log, list[1..], now, n) && Indexed(list[1..], index - {list[0].hash})
  {
    var lo := |log| - |list|;
    assert log[lo] == list[0] && !Counts(log, lo, now, n);
    IndexWithoutFirst(list, index);
  }

  lemma IndexWithoutFirst(list: seq<Record>, index: map<Hash, Status>)
    requires Indexed(list, index) && list != []
    ensures Indexed(list[1..], index - {list[0].hash})
  {
    var rest, smaller := list[1..], index - {list[0].hash};
    forall h ensures h in smaller <==> Listed(rest, h) {
      if h in smaller {
        var i :| 0 <= i < |list| && list[i].hash == h;
        assert rest[i - 1].hash == h;
      }
      if i :| 0 <= i < |rest| && rest[i].hash == h {
        assert list[i + 1].hash == h;
      }
    }
  }

  lemma IndexMore(list: seq<Record>, index: map<Hash, Status>, r: Record)
    requires Indexed(list, index) && r.hash !in index
    ensures Indexed(list + [r], index[r.hash := Pending])
  {
    var more := list + [r];
    forall h ensures h in index[r.hash := Pending] <==> Listed(more, h) {
      if h in index {
        assert Listed(list, h);
        var i :| 0 <= i < |list| && list[i].hash == h;
        assert more[i].hash == h;
      }
      assert more[|list|].hash == r.hash;
    }
  }

  /** A new record pushes the oldest one out when the window is full. */
  lemma WindowMore(log: seq<Record>, list: seq<Record>, now: nat, n: nat, r: Record)
    requires Window(log, list, now, n) && n > 0 && r.createdAt == now
    ensures Window(log + [r], (if |list| < n then list else list[1..]) + [r], now, n)
  {
    var kept := if |list| < n then list else list[1..];
    var log', list' := log + [r], kept + [r];
    forall k: nat | k < |log'| - |list'| ensures !Counts(log', k, now, n) {
      assert log'[k] == log[k];
      if k < |log| - |list| { assert !Counts(log, k, now, n); }
    }
  }

  lemma RecordKeeps(log: seq<Record>, list: seq<Record>, index: map<Hash, Status>, now: nat, n: nat, h: Hash)
    requires Window(log, list, now, n) && Indexed(list, index) && n > 0 && h !in index
    ensures var r, full := Record(h, now), |list| >= n;
            var list', index' := if full then list[1..] else list, if full then index - {list[0].hash} else index;
            Window(log + [r], list' + [r], now, n) && Indexed(list' + [r], index'[h := Pending])
  {
    var r := Record(h, now);
    WindowMore(log, list, now, n, r);
    if |list| >= n {
      IndexWithoutFirst(list, index);
      IndexMore(list[1..], index - {list[0].hash}, r);
    } else {
      IndexMore(list, index, r);
    }
  }

  ghost predicate Keeps(index: map<Hash, Status>, before: map<Hash, Status>) {
    forall h :: h in index ==> h in before && index[h] == before[h]
  }

  ghost predicate HoldsSeen(index: map<Hash, Status>, log: seq<Record>, now: nat, n: nat) {
    forall h :: h in index <==> IsSeen(log, h, now, n)
  }

  lemma IndexIsAllSeen(log: seq<Record>, list: seq<Record>, index: map<Hash, Status>, now: nat, n: nat)
    requires Window(log, list, now, n) && Indexed(list, index)
    requires list == [] || !Outdated(list[0], now)
    ensures HoldsSeen(index, log, now, n)
  {
    forall h ensures h in index <==> IsSeen(log, h, now, n) { IndexIsSeen(log, list, index, now, n, h); }
  }

  class TransactionBookkeeper {
    var txMap: map<Hash, Status>
    var txList: seq<Record>
    const maxNumTxs: nat

    /** All records ever made, and the time of the last call. */
    ghost var log: seq<Record>
    ghost var clock: nat

    ghost predicate Valid()
      reads this
    {
      maxNumTxs >= 1 && Window(log, txList, clock, maxNumTxs) && Indexed(txList, txMap)
    }

    constructor (maxNumTxs: nat)
      requires maxNumTxs >= 1
      ensures Valid() && log == [] && clock == 0 && this.maxNumTxs == maxNumTxs
    {
      this.maxNumTxs := maxNumTxs;
      txMap, txList, log, clock := map[], [], [], 0;
    }

    method RemoveOutdatedTxs(now: nat)
      requires Valid() && clock <= now
      modifies this
      ensures Valid() && log == old(log) && clock == now
      ensures HoldsSeen(txMap, log, now, maxNumTxs) && Keeps(txMap, old(txMap))
    {
      TimePasses(log, txList, clock, now, maxNumTxs);
      ghost var all, before := log, txMap;
      var list, index := txList, txMap;
      while list != [] && Outdated(list[0], now)
        invariant log == all && txMap == before
        invariant Window(all, list, now, maxNumTxs) && Indexed(list, index) && Keeps(index, before)
        decreases |list|
      {
        DropFirst(all, list, index, now, maxNumTxs);
        index := index - {list[0].hash};
        list := list[1..];
      }
      IndexIsAllSeen(all, list, index, now, maxNumTxs);
      txList, txMap, clock := list, index, now;
    }

    method HasSeen(h: Hash, now: nat) returns (seen: bool)
      requires Valid() && clock <= now
      modifies this
      ensures Valid() && log == old(log) && clock == now
      ensures seen <==> IsSeen(log, h, now, maxNumTxs)
      ensures Keeps(txMap, old(txMap))
    {
      RemoveOutdatedTxs(now);
      return h in txMap;
    }

    method GetStatus(h: Hash, now: nat) returns (status: Option<Status>)
      requires Valid() && clock <= now
      modifies this
      ensures Valid() && log == old(log) && clock == now
      ensures status.Some? <==> IsSeen(log, h, now, maxNumTxs)
      ensures status.Some? <==> h in txMap
      ensures status.Some? ==> h in old(txMap) && status.value == old(txMap)[h]
      ensures Keeps(txMap, old(txMap))
    {
      RemoveOutdatedTxs(now);
      return if h in txMap then Some(txMap[h]) else None;
    }

    /** Records a transaction unless it counts as seen, in place of the oldest one if there is no room. */
    method AddRecord(h: Hash, now: nat) returns (added: bool)
      requires Valid() && clock <= now
      modifies this
      ensures Valid() && clock == now
      ensures added <==> !IsSeen(old(log), h, now, maxNumTxs)
      ensures log == if added then old(log) + [Record(h, now)] else old(log)
      ensures added ==> h in txMap && txMap[h] == Pending
      ensures Keeps(txMap - {h}, old(txMap))
    {
      RemoveOutdatedTxs(now);
      if h in txMap { return false; }
      var list, index, r := txList, txMap, Record(h, now);
      RecordKeeps(log, list, index, now, maxNumTxs, h);
      if |list| >= maxNumTxs {
        index := index - {list[0].hash};
        list := list[1..];
      }
      txMap, txList, log := index[h := Pending], list + [r], log + [r];
      return true;
    }

    method MarkAbandoned(h: Hash)
      requires Valid()
      modifies this`txMap
      ensures Valid()
      ensures txMap == if h in old(txMap) then old(txMap)[h := Abandoned] else old(txMap)
    {
      if h in txMap { txMap := txMap[h := Abandoned]; }
    }

    method Reset(now: nat)
      requires Valid() && clock <= now
      modifies this
      ensures Valid() && log == [] && clock == now && txMap == map[]
    {
      txMap, txList, log, clock := map[], [], [], now;
    }
  }
}
