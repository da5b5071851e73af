/** How a node's epoch moves (consensus/engine.go, handleVote; consensus/state.go, AddEpochVote). */
module Epochs {
  import opened Options
  import opened Validators
  import opened Votes

  /** Epochs are 64-bit numbers. */
  const EPOCHS: nat := 0x1_0000_0000_0000_0000

  /** The current epoch, and for every voter a latest vote. */
  datatype EpochState = EpochState(epoch: nat, votes: VoteMap)

  /** The voters whose latest vote is of epoch `epoch` or later. */
  ghost function VotersSince(votes: VoteMap, epoch: nat): set<Address> {
    set k | k in votes && votes[k].epoch >= epoch :: votes[k].id
  }

  /** The epoch after a vote of epoch `voted` has been recorded in `votes`. */
  ghost function EpochAfter(vals: seq<Validator>, epoch: nat, votes: VoteMap, voted: nat): nat {
    if voted >= epoch && Majority(vals, VotersSince(votes, voted)) then (voted + 1) % EPOCHS else epoch
  }

  ghost predicate EpochStep(vals: seq<Validator>, s: EpochState, s': EpochState, v: Vote) {
    if ValidVote(v)
    then IsUniqueVoter(Put(s.votes, v), s'.votes) && s'.epoch == EpochAfter(vals, s.epoch, s'.votes, v.epoch)
    else s' == s
  }

  const LAST_VOTE := Vote(1, 1, 0, EPOCHS - 1, 1, Some(Signature(1, SignBytes(1, EPOCHS - 1, 1))))

  /** The wrap-around happens: one validator with all the stake suffices. */
  lemma LastEpochWrapsAround()
    ensures EpochStep([Validator(1, 1)], EpochState(5, map[]), EpochState(0, Put(map[], LAST_VOTE)), LAST_VOTE)
  {
    var vals, v := [Validator(1, 1)], LAST_VOTE;
    var m := Put(map[], v);
    assert m[KeyOf(v)] == v;
    assert VotersSince(m, v.epoch) == {1};
    assert Addresses(vals) == {1} by { assert vals[0].address == 1; }
    assert StakeOf(vals, {1}) == 1 + StakeOf(vals[1..], {1});
  }

  // ---- Several votes ----

  /** The votes are handled one after the other. */
  ghost predicate EpochSteps(vals: seq<Validator>, s: EpochState, s': EpochState, votes: seq<Vote>)
    decreases |votes|
  {
    if votes == [] then s' == s
    else exists next :: EpochStep(vals, s, next, votes[0]) && EpochSteps(vals, next, s', votes[1..])
  }

  lemma {:induction false} EpochStepsExtend(
    vals: seq<Validator>, s: EpochState, s': EpochState, s'': EpochState, votes: seq<Vote>, v: Vote)
    requires EpochSteps(vals, s, s', votes) && EpochStep(vals, s', s'', v)
    ensures EpochSteps(vals, s, s'', votes + [v])
    decreases |votes|
  {
    if votes == [] {
      assert (votes + [v])[1..] == [] && (votes + [v])[0] == v;
      assert EpochSteps(vals, s'', s'', []);
    } else {
      var next :| EpochStep(vals, s, next, votes[0]) && EpochSteps(vals, next, s', votes[1..]);
      EpochStepsExtend(vals, next, s', s'', votes[1..], v);
      assert (votes + [v])[0] == votes[0] && (votes + [v])[1..] == votes[1..] + [v];
    }
  }

  // ---- One vote for each voter is enough ----

  /** Keeping a latest vote of every voter loses nothing: who has voted since an epoch can still be told. */
  lemma LatestVotesTell(s: VoteMap, r: VoteMap, epoch: nat)
    requires IsUniqueVoter(s, r)
    ensures VotersSince(r, epoch) == VotersSince(s, epoch)
  {
    forall a | a in VotersSince(r, epoch) ensures a in VotersSince(s, epoch) {
      var k :| k in r && r[k].epoch >= epoch && r[k].id == a;
      assert s[k] == r[k];
    }
    forall a | a in VotersSince(s, epoch) ensures a in VotersSince(r, epoch) {
      var k :| k in s && s[k].epoch >= epoch && s[k].id == a;
      assert a in Voters(s);
      var j :| j in r && r[j].id == a;
      assert r[j].epoch >= s[k].epoch;
    }
  }

  lemma PutVoters(m: VoteMap, v: Vote, epoch: nat)
    requires WellKeyed(m)
    ensures VotersSince(Put(m, v), epoch) == VotersSince(m, epoch) + if v.epoch >= epoch then {v.id} else {}
  {
    var m' := Put(m, v);
    assert m'[KeyOf(v)] == v;
    forall a | a in VotersSince(m, epoch) ensures a in VotersSince(m', epoch) {
      var k :| k in m && m[k].epoch >= epoch && m[k].id == a;
      assert m'[k].epoch == m[k].epoch && m'[k].id == a;
    }
  }

  ghost function ValidSince(votes: seq<Vote>, epoch: nat): set<Address> {
    set v | v in votes && ValidVote(v) && v.epoch >= epoch :: v.id
  }

  lemma ValidSinceFirst(votes: seq<Vote>, epoch: nat)
    requires votes != []
    ensures var v := votes[0];
            ValidSince(votes, epoch) ==
              ValidSince(votes[1..], epoch) + if ValidVote(v) && v.epoch >= epoch then {v.id} else {}
  {
    assert forall x :: x in votes <==> x == votes[0] || x in votes[1..];
  }

  /** After any votes have been handled, exactly those count as voters since an epoch who counted before or have cast
      a valid vote of it or a later one. */
  lemma {:induction false} RecordedVoters(
    vals: seq<Validator>, s: EpochState, s': EpochState, votes: seq<Vote>, epoch: nat)
    requires WellKeyed(s.votes) && EpochSteps(vals, s, s', votes)
    ensures VotersSince(s'.votes, epoch) == VotersSince(s.votes, epoch) + ValidSince(votes, epoch)
    decreases |votes|
  {
    if votes == [] {
      assert ValidSince(votes, epoch) == {};
    } else {
      var v := votes[0];
      var next :| EpochStep(vals, s, next, v) && EpochSteps(vals, next, s', votes[1..]);
      if ValidVote(v) {
        PutVoters(s.votes, v, epoch);
        LatestVotesTell(Put(s.votes, v), next.votes, epoch);
      }
      RecordedVoters(vals, next, s', votes[1..], epoch);
      ValidSinceFirst(votes, epoch);
    }
  }
}
