/** Votes, vote sets and commit certificates (core/vote.go). */
module Votes {
  import opened Options
  import opened Validators

  type Hash = nat

  const EMPTY_HASH: Hash := 0

  /** What a voter signs: the block, the epoch and the voter's own address. */
  datatype SignBytes = SignBytes(block: Hash, epoch: nat, id: Address)

  /** A signature made with the key of `signer`. Verification is an oracle: a signature
      verifies for exactly the bytes and the address it was made for. */
  datatype Signature = Signature(signer: Address, bytes: SignBytes)

  datatype Vote = Vote(
    block: Hash, height: nat, mainchainHeight: nat, epoch: nat, id: Address, signature: Option<Signature>)

  const NO_VOTE := Vote(EMPTY_HASH, 0, 0, 0, EMPTY_ADDRESS, None)

  predicate ValidVote(v: Vote) {
    && v.block != EMPTY_HASH
    && v.id != EMPTY_ADDRESS
    && v.signature == Some(Signature(v.id, SignBytes(v.block, v.epoch, v.id)))
  }

  datatype VoteKey = VoteKey(id: Address, block: Hash, epoch: nat)

  function KeyOf(v: Vote): VoteKey {
    VoteKey(v.id, v.block, v.epoch)
  }

  type VoteMap = map<VoteKey, Vote>

  ghost predicate WellKeyed(m: VoteMap) {
    forall k :: k in m ==> KeyOf(m[k]) == k
  }

  ghost function Voters(m: VoteMap): set<Address> {
    set k | k in m :: m[k].id
  }

  function Put(m: VoteMap, v: Vote): VoteMap {
    m[KeyOf(v) := v]
  }

  /** `r` keeps exactly one vote of every voter of `s`, and it is one of that voter's latest.
      Two votes of one voter in one epoch may tie: the order in which the map is visited decides. */
  ghost predicate IsUniqueVoter(s: VoteMap, r: VoteMap) {
    && (forall k :: k in r ==> k in s && r[k] == s[k])
    && Voters(r) == Voters(s)
    && OneEach(r)
    && (forall j, k :: j in r && k in s && r[j].id == s[k].id ==> r[j].epoch >= s[k].epoch)
  }

  ghost predicate OneEach(r: VoteMap) {
    forall j, k :: j in r && k in r && r[j].id == r[k].id ==> j == k
  }

  /** Consolidation loses no entry exactly when no voter had two entries. */
  lemma UniqueVoterSize(s: VoteMap, r: VoteMap)
    requires IsUniqueVoter(s, r)
    ensures |r| == |s| <==> OneEach(s)
    ensures OneEach(s) ==> r == s
  {
    assert r.Keys <= s.Keys;
    if OneEach(s) {
      forall k | k in s ensures k in r {
        assert s[k].id in Voters(r);
        var j :| j in r && r[j].id == s[k].id;
      }
      assert r.Keys == s.Keys;
    }
    if |r| == |s| {
      SubsetOfSameSize(r.Keys, s.Keys);
      assert r == s;
    }
  }

  lemma SubsetOfSameSize<T>(a: set<T>, b: set<T>)
    requires a <= b && |a| == |b|
    ensures a == b
  {
    assert b == a + (b - a);
    assert |b - a| == 0;
  }

  /** `s` lists every vote of `m` exactly once. */
  ghost predicate Enumerates(m: VoteMap, s: seq<Vote>) {
    multiset(s) == multiset(m.Values)
  }

  lemma EnumeratesMembers(m: VoteMap, s: seq<Vote>)
    requires Enumerates(m, s)
    ensures forall v :: v in s <==> v in m.Values
  {
    assert forall v :: v in s <==> v in multiset(s);
  }

  lemma EnumeratesOnce(m: VoteMap, s: seq<Vote>, i: nat, j: nat)
    requires Enumerates(m, s) && i < j < |s|
    ensures s[i] != s[j]
  {
    assert s == s[..j] + s[j..];
    assert s[i] in s[..j] && s[j] in s[j..];
    assert multiset(s) == multiset(s[..j]) + multiset(s[j..]);
    assert multiset(m.Values)[s[j]] <= 1;
  }

  ghost predicate SortedById(s: seq<Vote>) {
    forall i, j :: 0 <= i < j < |s| ==> s[i].id <= s[j].id
  }

  /** A mutable set of votes, keyed by voter, block and epoch. */
  class VoteSet {
    var votes: VoteMap

    ghost predicate Valid() reads this {
      WellKeyed(votes)
    }

    constructor ()
      ensures Valid() && votes == map[]
    {
      votes := map[];
    }

    /** Loads a stored vote set. */
    constructor Load(m: VoteMap)
      requires WellKeyed(m)
      ensures Valid() && votes == m
    {
      votes := m;
    }

    /** A vote with the key of an earlier one replaces it. */
    method AddVote(v: Vote)
      requires Valid()
      modifies this
      ensures Valid() && votes == Put(old(votes), v)
    {
      votes := votes[KeyOf(v) := v];
    }

    /** The votes in the order of their voters' addresses. */
    method Votes() returns (r: seq<Vote>)
      requires Valid()
      ensures Enumerates(votes, r) && SortedById(r)
    {
      r := [];
      var todo := votes.Keys;
      while todo != {}
        invariant todo <= votes.Keys
        invariant SortedById(r)
        invariant Enumerates(map k | k in votes && k !in todo :: votes[k], r)
        decreases todo
      {
        var k :| k in todo;
        ghost var done := map j | j in votes && j !in todo :: votes[j];
        r := InsertById(done, r, votes[k]);
        todo := todo - {k};
        assert (map j | j in votes && j !in todo :: votes[j]) == Put(done, votes[k]);
      }
      assert (map k | k in votes && k !in todo :: votes[k]) == votes;
    }

    /** Drops the votes that their voter has superseded by a vote of a later epoch. */
    method UniqueVoter() returns (r: VoteSet)
      requires Valid()
      ensures fresh(r) && r.Valid()
      ensures IsUniqueVoter(votes, r.votes)
    {
      var latest: map<Address, Vote> := map[];
      var todo := votes.Keys;
      while todo != {}
        invariant todo <= votes.Keys
        invariant forall a :: a in latest ==>
                    latest[a].id == a && KeyOf(latest[a]) in votes && votes[KeyOf(latest[a])] == latest[a]
        invariant forall k :: k in votes && k !in todo ==>
                    votes[k].id in latest && latest[votes[k].id].epoch >= votes[k].epoch
        decreases todo
      {
        var k :| k in todo;
        var vote := votes[k];
        todo := todo - {k};
        if !(vote.id in latest && latest[vote.id].epoch >= vote.epoch) {
          latest := latest[vote.id := vote];
        }
      }
      r := new VoteSet();
      var voters := latest.Keys;
      while voters != {}
        invariant fresh(r) && r.Valid()
        invariant voters <= latest.Keys
        invariant forall k :: k in r.votes ==>
                    k.id in latest && k.id !in voters && k == KeyOf(latest[k.id]) && r.votes[k] == latest[k.id]
        invariant forall a :: a in latest && a !in voters ==> KeyOf(latest[a]) in r.votes
        decreases voters
      {
        var a :| a in voters;
        voters := voters - {a};
        r.AddVote(latest[a]);
      }
      assert Voters(r.votes) == Voters(votes) by {
        forall a | a in Voters(votes) ensures a in Voters(r.votes) {
          assert r.votes[KeyOf(latest[a])].id == a;
        }
        forall a | a in Voters(r.votes) ensures a in Voters(votes) {
          assert votes[KeyOf(latest[a])].id == a;
        }
      }
    }
  }

  /** The votes of validators. */
  ghost function ByValidators(m: VoteMap, vals: seq<Validator>): VoteMap {
    map k | k in m && m[k].id in Addresses(vals) :: m[k]
  }

  method FilterByValidators(votes: VoteSet, vals: seq<Validator>) returns (r: VoteSet)
    requires votes.Valid()
    ensures fresh(r) && r.Valid() && r.votes == ByValidators(votes.votes, vals)
  {
    r := new VoteSet();
    var todo := votes.votes.Keys;
    while todo != {}
      invariant fresh(r) && r.Valid() && todo <= votes.votes.Keys
      invariant r.votes ==
                  map k | k in votes.votes && k !in todo && votes.votes[k].id in Addresses(vals) :: votes.votes[k]
      decreases todo
    {
      var k :| k in todo;
      var found := GetValidator(vals, votes.votes[k].id);
      if found.Some? { r.AddVote(votes.votes[k]); }
      todo := todo - {k};
    }
  }

  method InsertById(ghost m: VoteMap, s: seq<Vote>, v: Vote) returns (r: seq<Vote>)
    requires WellKeyed(m) && Enumerates(m, s) && SortedById(s) && KeyOf(v) !in m
    ensures Enumerates(Put(m, v), r) && SortedById(r)
  {
    var i := 0;
    while i < |s| && s[i].id <= v.id
      invariant 0 <= i <= |s|
      invariant forall j :: 0 <= j < i ==> s[j].id <= v.id
    {
      i := i + 1;
    }
    r := s[..i] + [v] + s[i..];
    InsertMultiset(s, i, v);
    InsertSorted(s, i, v);
    PutValues(m, v);
  }

  lemma InsertMultiset(s: seq<Vote>, i: nat, v: Vote)
    requires i <= |s|
    ensures multiset(s[..i] + [v] + s[i..]) == multiset(s) + multiset{v}
  {
    assert s == s[..i] + s[i..];
  }

  lemma InsertSorted(s: seq<Vote>, i: nat, v: Vote)
    requires SortedById(s) && i <= |s|
    requires forall j :: 0 <= j < i ==> s[j].id <= v.id
    requires i < |s| ==> v.id <= s[i].id
    ensures SortedById(s[..i] + [v] + s[i..])
  {
    var r := s[..i] + [v] + s[i..];
    forall a, b | 0 <= a < b < |r| ensures r[a].id <= r[b].id {
      assert r[a] == if a < i then s[a] else if a == i then v else s[a - 1];
      assert r[b] == if b < i then s[b] else if b == i then v else s[b - 1];
    }
  }

  lemma PutValues(m: VoteMap, v: Vote)
    requires WellKeyed(m) && KeyOf(v) !in m
    ensures multiset(Put(m, v).Values) == multiset(m.Values) + multiset{v}
  {
    var m' := Put(m, v);
    assert m'.Values == m.Values + {v} by {
      forall x | x in m.Values + {v} ensures x in m'.Values {
        if x in m.Values {
          var k :| k in m && m[k] == x;
          assert m'[k] == x;
        } else {
          assert m'[KeyOf(v)] == v;
        }
      }
    }
    assert v !in m.Values;
  }

  /** Every vote map can be listed. */
  lemma SomeListing(m: VoteMap) returns (s: seq<Vote>)
    requires WellKeyed(m)
    ensures Enumerates(m, s)
    decreases |m|
  {
    if m == map[] {
      s := [];
    } else {
      var k :| k in m;
      var rest := m - {k};
      var t := SomeListing(rest);
      PutValues(rest, m[k]);
      assert Put(rest, m[k]) == m;
      s := t + [m[k]];
    }
  }

  ghost function Ids(s: seq<Vote>): set<Address> {
    set i | 0 <= i < |s| :: s[i].id
  }

  lemma EnumeratesVoters(m: VoteMap, s: seq<Vote>)
    requires Enumerates(m, s)
    ensures Ids(s) == Voters(m)
  {
    EnumeratesMembers(m, s);
    forall a | a in Voters(m) ensures a in Ids(s) {
      var k :| k in m && m[k].id == a;
      assert m[k] in m.Values;
      var i :| 0 <= i < |s| && s[i] == m[k];
    }
    forall a | a in Ids(s) ensures a in Voters(m) {
      var i :| 0 <= i < |s| && s[i].id == a;
      assert s[i] in m.Values;
      var k :| k in m && m[k] == s[i];
    }
  }

  /** The weight of all votes together: a voter with two entries counts twice. */
  ghost function VotedWeight(vals: seq<Validator>, m: VoteMap): nat
    decreases |m|
  {
    if m == map[] then 0
    else
      var k :| k in m;
      Weight(vals, m[k].id) + VotedWeight(vals, m - {k})
  }

  lemma {:induction false} VotedWeightWithout(vals: seq<Validator>, m: VoteMap, k: VoteKey)
    requires k in m
    ensures VotedWeight(vals, m) == Weight(vals, m[k].id) + VotedWeight(vals, m - {k})
    decreases |m|
  {
    var j :| j in m && VotedWeight(vals, m) == Weight(vals, m[j].id) + VotedWeight(vals, m - {j});
    if j != k {
      VotedWeightWithout(vals, m - {j}, k);
      VotedWeightWithout(vals, m - {k}, j);
      assert m - {j} - {k} == m - {k} - {j};
    }
  }

  function IdsOf(s: seq<Vote>): (ids: seq<Address>)
    ensures |ids| == |s| && forall i :: 0 <= i < |s| ==> ids[i] == s[i].id
  {
    seq(|s|, i requires 0 <= i < |s| => s[i].id)
  }

  /** In whatever order the votes are listed, their weights add up to the same. */
  lemma {:induction false} ListedWeight(vals: seq<Validator>, m: VoteMap, s: seq<Vote>)
    requires WellKeyed(m) && Enumerates(m, s)
    ensures WeightSum(vals, IdsOf(s)) == VotedWeight(vals, m)
    decreases |s|
  {
    if s == [] {
      assert m.Values == {} by { EnumeratesMembers(m, s); }
      assert m == map[] by { assert forall k :: k in m ==> m[k] in m.Values; }
    } else {
      var init, last := s[..|s| - 1], s[|s| - 1];
      var k := LastListed(m, s);
      ListedWeight(vals, m - {k}, init);
      VotedWeightWithout(vals, m, k);
      assert IdsOf(s)[..|s| - 1] == IdsOf(init);
    }
  }

  lemma LastListed(m: VoteMap, s: seq<Vote>) returns (k: VoteKey)
    requires WellKeyed(m) && Enumerates(m, s) && s != []
    ensures k in m && m[k] == s[|s| - 1] && Enumerates(m - {k}, s[..|s| - 1])
  {
    var init, last := s[..|s| - 1], s[|s| - 1];
    assert s == init + [last];
    EnumeratesMembers(m, s);
    assert last in m.Values;
    k :| k in m && m[k] == last;
    var rest := m - {k};
    assert KeyOf(last) == k && Put(rest, last) == m;
    PutValues(rest, last);
    assert multiset(s) == multiset(init) + multiset{last};
    assert multiset(init) == multiset(s) - multiset{last};
    assert multiset(rest.Values) == multiset(m.Values) - multiset{last};
  }

  /** The verdict weighs every entry. On a consolidated vote set it depends on who voted and on nothing else. */
  method HasMajority(vals: seq<Validator>, votes: VoteSet) returns (r: bool)
    requires votes.Valid()
    ensures r <==> 3 * VotedWeight(vals, votes.votes) > 2 * TotalStake(vals)
    ensures Distinct(vals) && OneEach(votes.votes) ==> (r <==> Majority(vals, Voters(votes.votes)))
  {
    var s := votes.Votes();
    var ids := IdsOf(s);
    r := HasMajorityVotes(vals, ids);
    ListedWeight(vals, votes.votes, s);
    EnumeratesVoters(votes.votes, s);
    SameIds(s, ids);
    if OneEach(votes.votes) {
      forall i, j | 0 <= i < j < |ids| ensures ids[i] != ids[j] {
        DistinctIds(votes.votes, s, i, j);
      }
    }
  }

  lemma SameIds(s: seq<Vote>, ids: seq<Address>)
    requires |ids| == |s| && forall i :: 0 <= i < |s| ==> ids[i] == s[i].id
    ensures (set i | 0 <= i < |ids| :: ids[i]) == Ids(s)
  {
    forall a | a in Ids(s) ensures a in set i | 0 <= i < |ids| :: ids[i] {
      var i :| 0 <= i < |s| && s[i].id == a;
      assert ids[i] == a;
    }
  }

  lemma DistinctIds(m: VoteMap, s: seq<Vote>, i: nat, j: nat)
    requires WellKeyed(m) && OneEach(m) && Enumerates(m, s) && i < j < |s|
    ensures s[i].id != s[j].id
  {
    EnumeratesMembers(m, s);
    EnumeratesOnce(m, s, i, j);
    assert s[i] in m.Values && s[j] in m.Values;
    var a :| a in m && m[a] == s[i];
    var b :| b in m && m[b] == s[j];
  }

  /** Whether the voters behind `m`, each counted once, hold a majority. */
  method HasUniqueMajority(vals: seq<Validator>, votes: VoteSet) returns (r: bool)
    requires Distinct(vals) && votes.Valid()
    ensures r <==> Majority(vals, Voters(votes.votes))
  {
    var unique := votes.UniqueVoter();
    r := HasMajority(vals, unique);
  }

  // ---- Commit certificates ----

  datatype CommitCertificate = CommitCertificate(votes: VoteMap, blockHash: Hash)

  /** A certificate is valid when distinct voters with a majority of the stake all signed its block. */
  ghost predicate ValidCertificate(cc: CommitCertificate, vals: seq<Validator>) {
    && cc.votes != map[]
    && OneEach(cc.votes)
    && |cc.votes| <= |vals|
    && (forall k :: k in cc.votes ==> cc.votes[k].block == cc.blockHash && ValidVote(cc.votes[k]))
    && Majority(vals, Voters(cc.votes))
  }

  method IsValidCertificate(cc: CommitCertificate, vals: seq<Validator>) returns (r: bool)
    requires Distinct(vals) && WellKeyed(cc.votes)
    ensures r <==> ValidCertificate(cc, vals)
  {
    if cc.votes == map[] { return false; }
    var votes := new VoteSet.Load(cc.votes);
    var filtered := votes.UniqueVoter();
    UniqueVoterSize(cc.votes, filtered.votes);
    if |filtered.votes| != |cc.votes| { return false; }
    if |filtered.votes| > |vals| { return false; }
    var s := filtered.Votes();
    EnumeratesMembers(cc.votes, s);
    for i := 0 to |s|
      invariant forall j :: 0 <= j < i ==> s[j].block == cc.blockHash && ValidVote(s[j])
    {
      if s[i].block != cc.blockHash || !ValidVote(s[i]) {
        assert s[i] in cc.votes.Values;
        return false;
      }
    }
    forall k | k in cc.votes ensures cc.votes[k].block == cc.blockHash && ValidVote(cc.votes[k]) {
      assert cc.votes[k] in cc.votes.Values;
    }
    r := HasMajority(vals, filtered);
  }
}
