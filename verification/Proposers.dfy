/** Choosing a proposer by stake (consensus/validator.go). */
module Proposers {
  import Bytes
  import opened Options
  import opened Validators

  const MAX_UINT32: nat := 0xFFFF_FFFF

  function ScalingFactor(total: nat): (f: nat)
    ensures f >= 1
  {
    total / MAX_UINT32 + 1
  }

  /** The draws that a validator is given. */
  function Share(v: Validator, f: nat): nat
    requires f >= 1
  {
    v.stake / f
  }

  function Shares(vals: seq<Validator>, f: nat): nat
    requires f >= 1
  {
    if vals == [] then 0 else Share(vals[0], f) + Shares(vals[1..], f)
  }

  /** What scaling cuts off from all the stakes. */
  function CutOff(vals: seq<Validator>, f: nat): nat
    requires f >= 1
  {
    if vals == [] then 0 else vals[0].stake % f + CutOff(vals[1..], f)
  }

  /** Draw `r` falls into the share of validator `i`. */
  predicate Wins(vals: seq<Validator>, f: nat, i: nat, r: nat)
    requires f >= 1 && i < |vals|
  {
    Shares(vals[..i], f) <= r < Shares(vals[..i], f) + Share(vals[i], f)
  }

  /** The draw is below the sum of the shares. */
  predicate Found(vals: seq<Validator>, f: nat, r: nat)
    requires f >= 1
  {
    r < Shares(vals, f)
  }

  lemma {:induction false} SharesExtend(vals: seq<Validator>, f: nat, i: nat)
    requires f >= 1 && i < |vals|
    ensures Shares(vals[..i + 1], f) == Shares(vals[..i], f) + Share(vals[i], f)
    ensures Shares(vals[..i], f) <= Shares(vals, f) && Shares(vals[..i + 1], f) <= Shares(vals, f)
    decreases i
  {
    if i == 0 {
      assert vals[..1] == [vals[0]] && vals[..0] == [] && vals[..1][1..] == [];
    } else {
      SharesExtend(vals[1..], f, i - 1);
      assert vals[..i + 1][1..] == vals[1..][..i] && vals[..i][1..] == vals[1..][..i - 1];
    }
  }

  lemma {:induction false} SharesGrow(vals: seq<Validator>, f: nat, i: nat, j: nat)
    requires f >= 1 && i <= j <= |vals|
    ensures Shares(vals[..i], f) <= Shares(vals[..j], f)
    decreases j - i
  {
    if i < j {
      SharesGrow(vals, f, i, j - 1);
      SharesExtend(vals, f, j - 1);
    }
  }

  /** No draw has two winners. */
  lemma OneWinner(vals: seq<Validator>, f: nat, i: nat, j: nat, r: nat)
    requires f >= 1 && i < j < |vals|
    ensures !(Wins(vals, f, i, r) && Wins(vals, f, j, r))
  {
    SharesExtend(vals, f, i);
    SharesGrow(vals, f, i + 1, j);
  }

  lemma {:induction false} WinnerAmongFirst(vals: seq<Validator>, f: nat, r: nat, n: nat) returns (i: nat)
    requires f >= 1 && n <= |vals| && r < Shares(vals[..n], f)
    ensures i < n && Wins(vals, f, i, r)
    decreases n
  {
    assert vals[..0] == [];
    SharesExtend(vals, f, n - 1);
    if r >= Shares(vals[..n - 1], f) { i := n - 1; } else { i := WinnerAmongFirst(vals, f, r, n - 1); }
  }

  /** Exactly the draws below the sum of all shares have a winner. */
  lemma FoundMeansWon(vals: seq<Validator>, f: nat, r: nat)
    requires f >= 1
    ensures Found(vals, f, r) <==> exists i | 0 <= i < |vals| :: Wins(vals, f, i, r)
  {
    if Found(vals, f, r) {
      assert vals[..|vals|] == vals;
      var i := WinnerAmongFirst(vals, f, r, |vals|);
    }
    if i :| 0 <= i < |vals| && Wins(vals, f, i, r) { SharesExtend(vals, f, i); }
  }

  lemma ScaledTotalFits(total: nat)
    ensures total / ScalingFactor(total) < MAX_UINT32
  {
    var f := ScalingFactor(total);
    var q := total / f;
    assert total < MAX_UINT32 * f;
    assert f * q <= total;
    assert q >= MAX_UINT32 ==> f * q >= f * MAX_UINT32;
  }

  /** No smaller factor would do. */
  lemma ScalingIsLeast(total: nat, g: nat)
    requires g >= 1 && total / g < MAX_UINT32
    ensures ScalingFactor(total) <= g
  {
    var m := MAX_UINT32;
    assert total < (total / g + 1) * g;
    assert (total / g + 1) * g <= m * g;
    QuotientBelow(total, m, g);
  }

  lemma QuotientBelow(a: nat, m: nat, g: nat)
    requires m > 0 && a < m * g
    ensures a / m < g
  {
    var q := a / m;
    assert a == m * q + a % m;
    assert q >= g ==> m * q >= m * g;
  }

  /** Goes through the validators until the draw is below the sum of the shares. */
  method GetProposer(vals: seq<Validator>, r: nat) returns (winner: Option<nat>)
    ensures var f := ScalingFactor(TotalStake(vals));
            && (winner.Some? ==> winner.value < |vals| && Wins(vals, f, winner.value, r))
            && (winner.None? <==> !Found(vals, f, r))
  {
    var total := SumStake(vals);
    var f := ScalingFactor(total);
    var curr := 0;
    for i := 0 to |vals|
      invariant curr == Shares(vals[..i], f) <= r
    {
      SharesExtend(vals, f, i);
      curr := curr + Share(vals[i], f);
      if r < curr { return Some(i); }
    }
    assert vals[..|vals|] == vals;
    return None;
  }

  // ---- How many draws ----

  predicate Within(a: nat, b: nat, r: nat) {
    a <= r < b
  }

  ghost function Interval(a: nat, b: nat): set<nat> {
    set r: nat | r < b && Within(a, b, r)
  }

  lemma {:induction false} IntervalSize(a: nat, b: nat)
    requires a <= b
    ensures |Interval(a, b)| == b - a
    decreases b - a
  {
    if a < b {
      IntervalSize(a, b - 1);
      assert Interval(a, b) == Interval(a, b - 1) + {b - 1};
    } else {
      assert Interval(a, b) == {};
    }
  }

  ghost function DrawsWonBy(vals: seq<Validator>, f: nat, i: nat, draws: nat): set<nat>
    requires f >= 1 && i < |vals|
  {
    set r: nat | r < draws && Wins(vals, f, i, r)
  }

  ghost function UnassignedDraws(vals: seq<Validator>, f: nat, draws: nat): set<nat>
    requires f >= 1
  {
    set r: nat | r < draws && !Found(vals, f, r)
  }

  /** Every stake is its draws times the factor plus what is cut off. */
  lemma {:induction false} StakeInShares(vals: seq<Validator>, f: nat, who: set<Address>)
    requires f >= 1 && forall v :: v in vals ==> v.address in who
    ensures StakeOf(vals, who) == f * Shares(vals, f) + CutOff(vals, f)
  {
    if vals != [] {
      StakeInShares(vals[1..], f, who);
      assert vals[0] in vals && vals[0].address in who;
      DivideOne(vals[0].stake, f, Shares(vals[1..], f));
    }
  }

  lemma DivideOne(stake: nat, f: nat, s: nat)
    requires f >= 1
    ensures stake + f * s == f * (stake / f + s) + stake % f
  {
    assert f * (stake / f + s) == f * (stake / f) + f * s;
  }

  lemma TotalInShares(vals: seq<Validator>, f: nat)
    requires f >= 1
    ensures TotalStake(vals) == f * Shares(vals, f) + CutOff(vals, f)
  {
    forall v | v in vals ensures v.address in Addresses(vals) {
      var i :| 0 <= i < |vals| && vals[i] == v;
    }
    StakeInShares(vals, f, Addresses(vals));
  }

  lemma {:induction false} CutOffBound(vals: seq<Validator>, f: nat)
    requires f >= 1
    ensures CutOff(vals, f) <= |vals| * (f - 1)
  {
    if vals != [] {
      CutOffBound(vals[1..], f);
      assert |vals| * (f - 1) == |vals[1..]| * (f - 1) + (f - 1);
    }
  }

  lemma DivideSum(f: nat, q: nat, c: nat)
    requires f >= 1
    ensures (f * q + c) / f == q + c / f
  {
    var t := c / f;
    assert f * (q + t) == f * q + f * t;
    Bytes.ModUnique(f * q + c, f, q + t, c % f);
  }

  lemma DivideBelow(c: nat, f: nat, n: nat)
    requires f >= 1 && c <= n * (f - 1) && n >= 1
    ensures c / f <= n - 1
  {
    var q := c / f;
    assert n * (f - 1) == f * n - n;
    assert q >= n ==> f * q >= f * n;
  }

  lemma DivideAbove(c: nat, f: nat)
    requires f >= 1
    ensures c / f >= 1 <==> c >= f
  {
    var q := c / f;
    assert c == f * q + c % f;
    assert q >= 1 ==> f * q >= f;
    assert q <= 0 ==> f * q <= 0;
  }

  lemma DrawsWon(vals: seq<Validator>, f: nat, i: nat, draws: nat)
    requires f >= 1 && i < |vals| && Shares(vals, f) <= draws
    ensures |DrawsWonBy(vals, f, i, draws)| == vals[i].stake / f
  {
    SharesExtend(vals, f, i);
    var a, b := Shares(vals[..i], f), Shares(vals[..i + 1], f);
    assert DrawsWonBy(vals, f, i, draws) == Interval(a, b) by {
      assert forall r: nat :: Wins(vals, f, i, r) <==> Within(a, b, r);
    }
    IntervalSize(a, b);
  }

  lemma DrawsLeft(vals: seq<Validator>, f: nat, draws: nat)
    requires f >= 1 && Shares(vals, f) <= draws
    ensures |UnassignedDraws(vals, f, draws)| == draws - Shares(vals, f)
  {
    var a := Shares(vals, f);
    assert UnassignedDraws(vals, f, draws) == Interval(a, draws) by {
      assert forall r: nat | r < draws :: !Found(vals, f, r) <==> Within(a, draws, r);
    }
    IntervalSize(a, draws);
  }

  /** There are as many draws more than shares as the cut-off parts amount to. */
  lemma DrawsAndShares(vals: seq<Validator>, f: nat)
    requires f >= 1
    ensures TotalStake(vals) / f == Shares(vals, f) + CutOff(vals, f) / f
    ensures Shares(vals, f) <= TotalStake(vals) / f
  {
    TotalInShares(vals, f);
    DivideSum(f, Shares(vals, f), CutOff(vals, f));
  }

  /** Each validator wins exactly as many of the draws as its share, and what is left over is exactly what
      the cut-off parts of the stakes amount to: at most one draw less than there are validators. */
  lemma DrawsAreShared(vals: seq<Validator>, i: nat)
    requires i < |vals|
    ensures var f := ScalingFactor(TotalStake(vals));
            var draws := TotalStake(vals) / f;
            && |DrawsWonBy(vals, f, i, draws)| == vals[i].stake / f
            && |UnassignedDraws(vals, f, draws)| == CutOff(vals, f) / f <= |vals| - 1
  {
    var f := ScalingFactor(TotalStake(vals));
    var draws := TotalStake(vals) / f;
    DrawsAndShares(vals, f);
    DrawsWon(vals, f, i, draws);
    DrawsLeft(vals, f, draws);
    FewLeft(vals, f);
  }

  lemma FewLeft(vals: seq<Validator>, f: nat)
    requires f >= 1 && vals != []
    ensures CutOff(vals, f) / f <= |vals| - 1
  {
    CutOffBound(vals, f);
    DivideBelow(CutOff(vals, f), f, |vals|);
  }

  /** So a proposer is always found exactly when the cut-off parts together stay below the factor. */
  lemma AlwaysFound(vals: seq<Validator>)
    ensures var f := ScalingFactor(TotalStake(vals));
            var draws := TotalStake(vals) / f;
            (forall r: nat | r < draws :: Found(vals, f, r)) <==> CutOff(vals, f) < f
  {
    var f := ScalingFactor(TotalStake(vals));
    var draws, s := TotalStake(vals) / f, Shares(vals, f);
    DrawsAndShares(vals, f);
    DivideAbove(CutOff(vals, f), f);
    assert !Found(vals, f, s);
  }

  /** In particular when the total stake is below 2^32 - 1: then nothing is scaled, every unit of stake is
      a draw and every draw has a winner. */
  lemma AlwaysFoundWhenSmall(vals: seq<Validator>, r: nat)
    requires TotalStake(vals) < MAX_UINT32
    ensures var f := ScalingFactor(TotalStake(vals));
            && TotalStake(vals) / f == TotalStake(vals)
            && (r < TotalStake(vals) ==> exists i | 0 <= i < |vals| :: Wins(vals, f, i, r))
  {
    var f := ScalingFactor(TotalStake(vals));
    assert f == 1;
    CutOffBound(vals, f);
    DrawsAndShares(vals, f);
    FoundMeansWon(vals, f, r);
  }

  /** The scaled total, every share and every sum that the loop forms fit 32 bits. */
  lemma ScaledFits(vals: seq<Validator>, i: nat)
    requires i < |vals|
    ensures var f := ScalingFactor(TotalStake(vals));
            && TotalStake(vals) / f < MAX_UINT32
            && Share(vals[i], f) <= Shares(vals[..i + 1], f) < MAX_UINT32
  {
    var f := ScalingFactor(TotalStake(vals));
    ScaledTotalFits(TotalStake(vals));
    DrawsAndShares(vals, f);
    SharesWithin(vals, f, i, TotalStake(vals) / f);
  }

  lemma SharesWithin(vals: seq<Validator>, f: nat, i: nat, draws: nat)
    requires f >= 1 && i < |vals| && Shares(vals, f) <= draws
    ensures Share(vals[i], f) <= Shares(vals[..i + 1], f) <= draws
  {
    SharesExtend(vals, f, i);
  }

  /** It can fail otherwise: here the last of 2^31 draws belongs to nobody. */
  lemma DrawWithoutWinner()
    ensures var vals := [Validator(1, 1), Validator(2, MAX_UINT32)];
            var f := ScalingFactor(TotalStake(vals));
            f == 2 && TotalStake(vals) / f == 0x8000_0000 && Shares(vals, f) == 0x7FFF_FFFF
  {
    var vals := [Validator(1, 1), Validator(2, MAX_UINT32)];
    assert vals[1..] == [Validator(2, MAX_UINT32)] && vals[1..][1..] == [];
    assert vals[0].address in Addresses(vals) && vals[1].address in Addresses(vals);
    assert StakeOf(vals[1..], Addresses(vals)) == MAX_UINT32;
    assert TotalStake(vals) == 1 + MAX_UINT32;
    assert Shares(vals[1..], 2) == MAX_UINT32 / 2;
  }

  // ---- Validators without stake ----

  predicate ByAddress(vals: seq<Validator>) {
    forall i, j | 0 <= i < j < |vals| :: vals[i].address <= vals[j].address
  }

  lemma {:induction false} StakeOfJoined(a: seq<Validator>, b: seq<Validator>, who: set<Address>)
    ensures StakeOf(a + b, who) == StakeOf(a, who) + StakeOf(b, who)
  {
    if a == [] {
      assert a + b == b;
    } else {
      assert (a + b)[1..] == a[1..] + b;
      StakeOfJoined(a[1..], b, who);
    }
  }

  ghost predicate SameStakes(a: seq<Validator>, b: seq<Validator>) {
    forall who: set<Address> :: StakeOf(a, who) == StakeOf(b, who)
  }

  /** Adds a validator and sorts the list by address. */
  method AddValidator(vals: seq<Validator>, v: Validator) returns (more: seq<Validator>)
    ensures ByAddress(more) && multiset(more) == multiset(vals) + multiset{v}
    ensures SameStakes(more, vals + [v])
  {
    more := SortByAddress(vals + [v]);
  }

  method SortByAddress(vals: seq<Validator>) returns (sorted: seq<Validator>)
    ensures ByAddress(sorted) && multiset(sorted) == multiset(vals) && SameStakes(sorted, vals)
  {
    sorted := [];
    for i := 0 to |vals|
      invariant ByAddress(sorted) && multiset(sorted) == multiset(vals[..i]) && SameStakes(sorted, vals[..i])
    {
      assert vals[..i + 1] == vals[..i] + [vals[i]];
      StakesExtended(sorted, vals[..i], vals[i]);
      sorted := Insert(sorted, vals[i]);
    }
    assert vals[..|vals|] == vals;
  }

  lemma StakesExtended(a: seq<Validator>, b: seq<Validator>, v: Validator)
    requires SameStakes(a, b)
    ensures SameStakes(a + [v], b + [v])
  {
    forall who: set<Address> ensures StakeOf(a + [v], who) == StakeOf(b + [v], who) {
      StakeOfJoined(a, [v], who);
      StakeOfJoined(b, [v], who);
    }
  }

  method Insert(vals: seq<Validator>, v: Validator) returns (more: seq<Validator>)
    requires ByAddress(vals)
    ensures ByAddress(more) && multiset(more) == multiset(vals) + multiset{v}
    ensures SameStakes(more, vals + [v])
  {
    var i := FindPlace(vals, v);
    var before, after := vals[..i], vals[i..];
    assert vals == before + after;
    InsertedInOrder(before, after, v);
    InsertedStakes(before, after, v);
    more := before + [v] + after;
  }

  /** The place behind all addresses that are not larger. */
  method FindPlace(vals: seq<Validator>, v: Validator) returns (i: nat)
    ensures i <= |vals| && (i > 0 ==> vals[i - 1].address <= v.address)
    ensures forall k | i <= k < |vals| :: v.address < vals[k].address
  {
    i := |vals|;
    while i > 0 && vals[i - 1].address > v.address
      invariant i <= |vals|
      invariant forall k | i <= k < |vals| :: v.address < vals[k].address
    {
      i := i - 1;
    }
  }

  lemma InsertedInOrder(a: seq<Validator>, b: seq<Validator>, v: Validator)
    requires ByAddress(a + b)
    requires a == [] || a[|a| - 1].address <= v.address
    requires forall k | 0 <= k < |b| :: v.address < b[k].address
    ensures ByAddress(a + [v] + b) && multiset(a + [v] + b) == multiset(a + b) + multiset{v}
  {
    var whole, more := a + b, a + [v] + b;
    forall i, j | 0 <= i < j < |more| ensures more[i].address <= more[j].address {
      assert i < |a| ==> more[i] == whole[i] && whole[i].address <= whole[|a| - 1].address;
      assert i > |a| ==> more[i] == whole[i - 1];
      assert j < |a| ==> more[j] == whole[j];
      assert j > |a| ==> more[j] == whole[j - 1];
    }
  }

  lemma InsertedStakes(a: seq<Validator>, b: seq<Validator>, v: Validator)
    ensures SameStakes(a + [v] + b, a + b + [v])
  {
    forall who: set<Address> ensures StakeOf(a + [v] + b, who) == StakeOf(a + b + [v], who) {
      StakeOfJoined(a + [v], b, who);
      StakeOfJoined(a, [v], who);
      StakeOfJoined(a + b, [v], who);
      StakeOfJoined(a, b, who);
    }
  }

  /** Leaves out validators without stake. No set of voters has more or less stake afterwards. */
  method FilterValidators(vals: seq<Validator>) returns (kept: seq<Validator>)
    ensures ByAddress(kept) && forall v :: v in kept <==> v in vals && v.stake > 0
    ensures SameStakes(kept, vals)
  {
    kept := [];
    for i := 0 to |vals|
      invariant ByAddress(kept) && forall v :: v in kept <==> v in vals[..i] && v.stake > 0
      invariant SameStakes(kept, vals[..i])
    {
      assert vals[..i + 1] == vals[..i] + [vals[i]];
      ghost var before := kept;
      if vals[i].stake != 0 {
        kept := AddValidator(kept, vals[i]);
        assert forall v :: v in kept <==> v in multiset(kept);
      }
      forall who: set<Address> ensures StakeOf(kept, who) == StakeOf(vals[..i + 1], who) {
        StakeOfJoined(vals[..i], [vals[i]], who);
        StakeOfJoined(before, [vals[i]], who);
        assert [vals[i]][1..] == [];
      }
    }
    assert vals[..|vals|] == vals;
  }
}
