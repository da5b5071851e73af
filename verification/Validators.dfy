/** Validator sets and the two-thirds majority rule (core/validator.go). */
module Validators {
  import opened Options

  type Address = nat

  const EMPTY_ADDRESS: Address := 0

  datatype Validator = Validator(address: Address, stake: nat)

  /** A validator set lists every address once. */
  ghost predicate Distinct(vals: seq<Validator>) {
    forall i, j :: 0 <= i < j < |vals| ==> vals[i].address != vals[j].address
  }

  /** The stake that the members of `who` hold together. */
  ghost function StakeOf(vals: seq<Validator>, who: set<Address>): nat {
    if vals == [] then 0
    else (if vals[0].address in who then vals[0].stake else 0) + StakeOf(vals[1..], who)
  }

  ghost function Addresses(vals: seq<Validator>): set<Address> {
    set i | 0 <= i < |vals| :: vals[i].address
  }

  ghost function TotalStake(vals: seq<Validator>): nat {
    StakeOf(vals, Addresses(vals))
  }

  /** More than two thirds of the stake. */
  ghost predicate Majority(vals: seq<Validator>, who: set<Address>) {
    3 * StakeOf(vals, who) > 2 * TotalStake(vals)
  }

  lemma {:induction false} StakeOfWithin(vals: seq<Validator>, a: set<Address>, b: set<Address>)
    requires forall v :: v in vals && v.address in a ==> v.address in b
    ensures StakeOf(vals, a) <= StakeOf(vals, b)
  {
    if vals != [] { StakeOfWithin(vals[1..], a, b); }
  }

  lemma {:induction false} StakeOfUnion(vals: seq<Validator>, a: set<Address>, b: set<Address>)
    ensures StakeOf(vals, a) + StakeOf(vals, b) == StakeOf(vals, a + b) + StakeOf(vals, a * b)
  {
    if vals != [] { StakeOfUnion(vals[1..], a, b); }
  }

  lemma StakeOfAtMostTotal(vals: seq<Validator>, a: set<Address>)
    ensures StakeOf(vals, a) <= TotalStake(vals)
  {
    forall v | v in vals ensures v.address in Addresses(vals) {
      var i :| 0 <= i < |vals| && vals[i] == v;
    }
    StakeOfWithin(vals, a, Addresses(vals));
  }

  /** A larger voter set never loses a majority. */
  lemma MajorityMonotone(vals: seq<Validator>, a: set<Address>, b: set<Address>)
    requires Majority(vals, a) && a <= b
    ensures Majority(vals, b)
  {
    StakeOfWithin(vals, a, b);
  }

  /** Two majorities share voters that hold more than one third of the stake. */
  lemma QuorumIntersection(vals: seq<Validator>, a: set<Address>, b: set<Address>)
    requires Majority(vals, a) && Majority(vals, b)
    ensures 3 * StakeOf(vals, a * b) > TotalStake(vals)
  {
    StakeOfUnion(vals, a, b);
    StakeOfAtMostTotal(vals, a + b);
  }

  /** So, when the faulty validators hold at most one third, two majorities share a validator
      that is not faulty. */
  lemma HonestOverlap(vals: seq<Validator>, a: set<Address>, b: set<Address>, faulty: set<Address>)
    returns (who: Address)
    requires Majority(vals, a) && Majority(vals, b)
    requires 3 * StakeOf(vals, faulty) <= TotalStake(vals)
    ensures who in a && who in b && who !in faulty && who in Addresses(vals)
  {
    QuorumIntersection(vals, a, b);
    if forall v :: v in vals && v.address in a * b ==> v.address in faulty {
      StakeOfWithin(vals, a * b, faulty);
      assert false;
    }
    var v :| v in vals && v.address in a * b && v.address !in faulty;
    var i :| 0 <= i < |vals| && vals[i] == v;
    who := v.address;
  }

  /** A majority always contains a validator that is not faulty. */
  lemma HonestMember(vals: seq<Validator>, a: set<Address>, faulty: set<Address>) returns (who: Address)
    requires Majority(vals, a)
    requires 3 * StakeOf(vals, faulty) <= TotalStake(vals)
    ensures who in a && who !in faulty && who in Addresses(vals)
  {
    who := HonestOverlap(vals, a, a, faulty);
  }

  // ---- The loops that compute the verdict ----

  /** The first validator with the given address. */
  function Lookup(vals: seq<Validator>, id: Address): (r: Option<Validator>)
    ensures r.None? <==> id !in Addresses(vals)
    ensures r.Some? ==> r.value in vals && r.value.address == id
  {
    if vals == [] then None
    else if vals[0].address == id then
      assert id in Addresses(vals) by { assert vals[0].address == id; }
      Some(vals[0])
    else
      assert Addresses(vals) == {vals[0].address} + Addresses(vals[1..]) by { AddressesSplit(vals); }
      Lookup(vals[1..], id)
  }

  lemma AddressesSplit(vals: seq<Validator>)
    requires vals != []
    ensures Addresses(vals) == {vals[0].address} + Addresses(vals[1..])
  {
    forall a | a in Addresses(vals) ensures a in {vals[0].address} + Addresses(vals[1..]) {
      var i :| 0 <= i < |vals| && vals[i].address == a;
      if i > 0 { assert vals[1..][i - 1].address == a; }
    }
    forall a | a in Addresses(vals[1..]) ensures a in Addresses(vals) {
      var i :| 0 <= i < |vals[1..]| && vals[1..][i].address == a;
      assert vals[i + 1].address == a;
    }
  }

  method GetValidator(vals: seq<Validator>, id: Address) returns (r: Option<Validator>)
    ensures r == Lookup(vals, id)
  {
    for i := 0 to |vals|
      invariant Lookup(vals, id) == Lookup(vals[i..], id)
    {
      if vals[i].address == id { return Some(vals[i]); }
      assert vals[i..][1..] == vals[i + 1..];
    }
    return None;
  }

  method SumStake(vals: seq<Validator>) returns (total: nat)
    ensures total == TotalStake(vals)
  {
    total := 0;
    var all := set i | 0 <= i < |vals| :: vals[i].address;
    for i := 0 to |vals|
      invariant total + StakeOf(vals[i..], all) == StakeOf(vals, all)
    {
      assert vals[i..][1..] == vals[i + 1..];
      assert vals[i].address in all;
      total := total + vals[i].stake;
    }
  }

  /** What one vote adds to the voted stake: nothing when the voter is not a validator. */
  function Weight(vals: seq<Validator>, id: Address): nat {
    var v := Lookup(vals, id);
    if v.Some? then v.value.stake else 0
  }

  lemma {:induction false} WeightIsStake(vals: seq<Validator>, id: Address)
    requires Distinct(vals)
    ensures StakeOf(vals, {id}) == Weight(vals, id)
  {
    if vals != [] {
      AddressesSplit(vals);
      WeightIsStake(vals[1..], id);
      if vals[0].address == id {
        forall v | v in vals[1..] ensures v.address !in {id} {
          var i :| 0 <= i < |vals[1..]| && vals[1..][i] == v;
          assert vals[i + 1] == v;
        }
        StakeOfWithin(vals[1..], {id}, {});
        StakeOfNobody(vals[1..]);
      }
    }
  }

  lemma {:induction false} StakeOfNobody(vals: seq<Validator>)
    ensures StakeOf(vals, {}) == 0
  {
    if vals != [] { StakeOfNobody(vals[1..]); }
  }

  function WeightSum(vals: seq<Validator>, ids: seq<Address>): nat {
    if ids == [] then 0 else WeightSum(vals, ids[..|ids| - 1]) + Weight(vals, ids[|ids| - 1])
  }

  /** When nobody is listed twice, the running sum over the votes is the stake of the voter set,
      so the order of the votes does not matter. */
  lemma {:induction false} WeightSumIsStake(vals: seq<Validator>, ids: seq<Address>)
    requires Distinct(vals)
    requires forall i, j :: 0 <= i < j < |ids| ==> ids[i] != ids[j]
    ensures WeightSum(vals, ids) == StakeOf(vals, set i | 0 <= i < |ids| :: ids[i])
  {
    var who := set i | 0 <= i < |ids| :: ids[i];
    if ids == [] {
      StakeOfNobody(vals);
      assert who == {};
    } else {
      var n := |ids| - 1;
      var init := ids[..n];
      var before := set i | 0 <= i < |init| :: init[i];
      WeightSumIsStake(vals, init);
      assert who == before + {ids[n]} by {
        forall a | a in who ensures a in before + {ids[n]} {
          var i :| 0 <= i < |ids| && ids[i] == a;
          if i < n { assert init[i] == a; }
        }
        forall a | a in before ensures a in who {
          var i :| 0 <= i < |init| && init[i] == a;
          assert ids[i] == a;
        }
        assert ids[n] in who;
      }
      StakeOfUnion(vals, before, {ids[n]});
      assert before * {ids[n]} == {};
      StakeOfNobody(vals);
      WeightIsStake(vals, ids[n]);
    }
  }

  /** The majority test over a list of voters, counting every entry of the list. */
  method HasMajorityVotes(vals: seq<Validator>, ids: seq<Address>) returns (r: bool)
    ensures r <==> 3 * WeightSum(vals, ids) > 2 * TotalStake(vals)
    ensures Distinct(vals) && (forall i, j :: 0 <= i < j < |ids| ==> ids[i] != ids[j]) ==>
              (r <==> Majority(vals, set i | 0 <= i < |ids| :: ids[i]))
  {
    var voted := 0;
    for i := 0 to |ids|
      invariant voted == WeightSum(vals, ids[..i])
    {
      assert ids[..i + 1][..i] == ids[..i];
      var v := GetValidator(vals, ids[i]);
      if v.Some? { voted := voted + v.value.stake; }
    }
    assert ids[..|ids|] == ids;
    var total := SumStake(vals);
    r := voted * 3 > total * 2;
    if Distinct(vals) && forall i, j :: 0 <= i < j < |ids| ==> ids[i] != ids[j] {
      WeightSumIsStake(vals, ids);
    }
  }
}
