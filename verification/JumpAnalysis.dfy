/** Which positions of EVM code are valid jump destinations (ledger/vm/analysis.go, ledger/vm/contract.go). */
module JumpAnalysis {
  import opened Options
  import opened Bytes

  type Code = seq<Byte>
  type Hash = nat

  const PUSH1: Byte := 0x60
  const PUSH32: Byte := 0x7f
  const JUMPDEST: Byte := 0x5b
  const EMPTY_HASH: Hash := 0

  /** Destinations of 63 bits or more are refused unseen. */
  const PC_LIMIT: nat := 0x4000_0000_0000_0000

  // ---- Section 9.4.3 of the Ethereum Yellow Paper, "Jump Destination Validity" ----

  /** The position of the instruction after the one at `i`. */
  function Next(code: Code, i: nat): (n: nat)
    requires i < |code|
    ensures i < n <= i + 33
  {
    if PUSH1 <= code[i] <= PUSH32 then i + (code[i] - PUSH1) + 2 else i + 1
  }

  function JumpDestinations(code: Code, i: nat): set<nat>
    decreases |code| - i
  {
    if i >= |code| then {}
    else (if code[i] == JUMPDEST then {i} else {}) + JumpDestinations(code, Next(code, i))
  }

  // ---- Instruction boundaries ----

  /** Stepping over whole instructions leads from `i` to `p`. */
  predicate Reaches(code: Code, i: nat, p: nat)
    decreases |code| - i
  {
    i == p || (i < |code| && i < p && Reaches(code, Next(code, i), p))
  }

  /** Where stepping from `i` leaves the code. */
  function End(code: Code, i: nat): (e: nat)
    ensures i <= e && |code| <= e && (i <= |code| ==> e <= |code| + 32)
    decreases |code| - i
  {
    if i >= |code| then i else End(code, Next(code, i))
  }

  /** From a boundary on, exactly what can be reached from it is a boundary. */
  lemma {:induction false} ReachesThrough(code: Code, i: nat, p: nat, q: nat)
    requires Reaches(code, i, p) && p <= q
    ensures Reaches(code, i, q) <==> Reaches(code, p, q)
    ensures End(code, i) == End(code, p)
    decreases |code| - i
  {
    if i != p {
      assert i < q;
      ReachesThrough(code, Next(code, i), p, q);
    }
  }

  lemma {:induction false} JumpDestinationsAreBoundaries(code: Code, i: nat, p: nat)
    ensures p in JumpDestinations(code, i) <==> p < |code| && code[p] == JUMPDEST && Reaches(code, i, p)
    decreases |code| - i
  {
    if i < |code| {
      JumpDestinationsAreBoundaries(code, Next(code, i), p);
      if p < Next(code, i) { assert !Reaches(code, Next(code, i), p); }
    }
  }

  // ---- Bits ----

  type BitVector = seq<bv8>

  predicate Bit(b: bv8, k: nat)
    requires k < 8
  {
    b & (0x80 >> k) != 0
  }

  predicate IsSet(bits: BitVector, pos: nat)
    requires pos < 8 * |bits|
  {
    Bit(bits[pos / 8], pos % 8)
  }

  lemma BitOfSingle(b: bv8, j: nat, k: nat)
    requires j < 8 && k < 8
    ensures Bit(b | (0x80 >> j), k) <==> Bit(b, k) || k == j
  {
    Shifts(j);
    Shifts(k);
  }

  lemma BitOfLow(b: bv8, j: nat, k: nat)
    requires j < 8 && k < 8
    ensures Bit(b | (0xFF >> j), k) <==> Bit(b, k) || k >= j
    ensures Bit(b | !(0xFF >> j), k) <==> Bit(b, k) || k < j
  {
    Shifts(j);
    Shifts(k);
  }

  /** The masks of a position inside a byte, written out. */
  lemma Shifts(j: nat)
    requires j < 8
    ensures 0x80 as bv8 >> j ==
              if j == 0 then 0x80 else if j == 1 then 0x40 else if j == 2 then 0x20 else if j == 3 then 0x10
              else if j == 4 then 0x08 else if j == 5 then 0x04 else if j == 6 then 0x02 else 0x01
    ensures 0xFF as bv8 >> j ==
              if j == 0 then 0xFF else if j == 1 then 0x7F else if j == 2 then 0x3F else if j == 3 then 0x1F
              else if j == 4 then 0x0F else if j == 5 then 0x07 else if j == 6 then 0x03 else 0x01
  {}

  method Set(bits: array<bv8>, pos: nat)
    requires pos < 8 * bits.Length
    modifies bits
    ensures forall q: nat | q < 8 * bits.Length :: IsSet(bits[..], q) <==> old(IsSet(bits[..], q)) || q == pos
  {
    ghost var before := bits[..];
    bits[pos / 8] := bits[pos / 8] | (0x80 >> (pos % 8));
    forall q: nat | q < 8 * bits.Length ensures IsSet(bits[..], q) <==> IsSet(before, q) || q == pos {
      BitOfSingle(before[pos / 8], pos % 8, q % 8);
    }
  }

  lemma EightBits(before: BitVector, pos: nat, q: nat)
    requires pos + 8 < 8 * |before| && q < 8 * |before|
    ensures var first := before[pos / 8] | (0xFF >> (pos % 8));
            var second := before[pos / 8 + 1] | !(0xFF >> (pos % 8));
            IsSet(before[pos / 8 := first][pos / 8 + 1 := second], q) <==>
              IsSet(before, q) || pos <= q < pos + 8
  {
    BitOfLow(before[q / 8], pos % 8, q % 8);
  }

  method Set8(bits: array<bv8>, pos: nat)
    requires pos + 8 < 8 * bits.Length
    modifies bits
    ensures forall q: nat | q < 8 * bits.Length ::
              IsSet(bits[..], q) <==> old(IsSet(bits[..], q)) || pos <= q < pos + 8
  {
    ghost var before := bits[..];
    var first := bits[pos / 8] | (0xFF >> (pos % 8));
    var second := bits[pos / 8 + 1] | !(0xFF >> (pos % 8));
    bits[pos / 8] := first;
    bits[pos / 8 + 1] := second;
    assert bits[..] == before[pos / 8 := first][pos / 8 + 1 := second];
    forall q: nat | q < 8 * bits.Length
      ensures IsSet(bits[..], q) <==> IsSet(before, q) || pos <= q < pos + 8
    {
      EightBits(before, pos, q);
    }
  }

  method CodeSegment(bits: BitVector, pos: nat) returns (r: bool)
    requires pos < 8 * |bits|
    ensures r <==> !IsSet(bits, pos)
  {
    return bits[pos / 8] & (0x80 >> (pos % 8)) == 0;
  }

  // ---- The bitmap ----

  /** The data positions before `pc`, also those that a last PUSH has past the end of the code. */
  ghost predicate IsData(code: Code, pc: nat, q: nat) {
    q < pc && !Reaches(code, 0, q)
  }

  ghost predicate MarksData(bits: BitVector, code: Code, pc: nat) {
    forall q: nat | q < 8 * |bits| :: IsSet(bits, q) <==> IsData(code, pc, q)
  }

  /** A set bit means data, an unset one an instruction or a position past all data. */
  ghost predicate IsBitmap(bits: BitVector, code: Code) {
    |bits| == |code| / 8 + 5 && MarksData(bits, code, End(code, 0))
  }

  /** Between a boundary and the next one there is only data. */
  lemma StepMarks(code: Code, pc: nat, q: nat)
    requires Reaches(code, 0, pc) && pc < |code|
    ensures IsData(code, Next(code, pc), q) <==> IsData(code, pc, q) || pc < q < Next(code, pc)
    ensures Reaches(code, 0, Next(code, pc))
  {
    ReachesThrough(code, 0, pc, Next(code, pc));
    if pc <= q { ReachesThrough(code, 0, pc, q); }
  }

  /** On the code, a position is marked exactly when it is not an instruction boundary. */
  lemma BitmapMeaning(bits: BitVector, code: Code, p: nat)
    requires IsBitmap(bits, code) && p < |code|
    ensures p < 8 * |bits| && (IsSet(bits, p) <==> !Reaches(code, 0, p))
  {
    assert IsSet(bits, p) <==> IsData(code, End(code, 0), p);
  }

  method CodeBitmap(code: Code) returns (r: BitVector)
    ensures IsBitmap(r, code)
  {
    var bits := new bv8[|code| / 8 + 1 + 4](_ => 0);
    var pc: nat := 0;
    while pc < |code|
      invariant Reaches(code, 0, pc)
      invariant MarksData(bits[..], code, pc)
      decreases |code| - pc
    {
      ghost var start := pc;
      var op := code[pc];
      if PUSH1 <= op <= PUSH32 {
        pc := MarkPush(code, bits, pc);
      } else {
        pc := pc + 1;
      }
      forall q: nat | q < 8 * bits.Length ensures IsSet(bits[..], q) <==> IsData(code, pc, q) {
        StepMarks(code, start, q);
      }
      StepMarks(code, start, 0);
    }
    ReachesThrough(code, 0, pc, pc);
    return bits[..];
  }

  /** Marks the data of the PUSH at `start`, eight bits at a time as long as there are eight. */
  method MarkPush(code: Code, bits: array<bv8>, start: nat) returns (pc: nat)
    requires start < |code| && PUSH1 <= code[start] <= PUSH32 && bits.Length == |code| / 8 + 5
    modifies bits
    ensures pc == Next(code, start)
    ensures forall q: nat | q < 8 * bits.Length ::
              IsSet(bits[..], q) <==> old(IsSet(bits[..], q)) || start < q < pc
  {
    var numbits: nat := code[start] - PUSH1 + 1;
    pc := start + 1;
    while numbits >= 8
      invariant start < pc && pc + numbits == Next(code, start)
      invariant forall q: nat | q < 8 * bits.Length ::
                  IsSet(bits[..], q) <==> old(IsSet(bits[..], q)) || start < q < pc
    {
      Set8(bits, pc);
      pc := pc + 8;
      numbits := numbits - 8;
    }
    while numbits > 0
      invariant start < pc && pc + numbits == Next(code, start)
      invariant forall q: nat | q < 8 * bits.Length ::
                  IsSet(bits[..], q) <==> old(IsSet(bits[..], q)) || start < q < pc
    {
      Set(bits, pc);
      pc := pc + 1;
      numbits := numbits - 1;
    }
  }

  // ---- Answers from an analysis ----

  /** What an analysis says about a destination; looking outside the bitmap is a crash. */
  function AnswerFrom(bits: BitVector, code: Code, dest: nat): Option<bool> {
    if dest >= PC_LIMIT || dest >= |code| then Some(false)
    else if code[dest] != JUMPDEST then Some(false)
    else if dest >= 8 * |bits| then None
    else Some(!IsSet(bits, dest))
  }

  ghost predicate RightAnswer(bits: BitVector, code: Code, dest: nat) {
    AnswerFrom(bits, code, dest) == Some(dest < PC_LIMIT && dest in JumpDestinations(code, 0))
  }

  /** The analysis of the code itself is always right. */
  lemma OwnAnalysis(bits: BitVector, code: Code, dest: nat)
    requires IsBitmap(bits, code)
    ensures RightAnswer(bits, code, dest)
  {
    JumpDestinationsAreBoundaries(code, 0, dest);
    if dest < |code| { BitmapMeaning(bits, code, dest); }
  }

  /** At the JUMPDEST at `p` of `code` the analysis of `analysed` gives the right answer: the position is in
      its bitmap, and data there exactly if it is no boundary of `code`. */
  ghost predicate AgreesAt(analysed: Code, code: Code, p: nat) {
    p < 8 * (|analysed| / 8 + 5) && (IsData(analysed, End(analysed, 0), p) <==> !Reaches(code, 0, p))
  }

  /** An analysis that was made for other code gives right answers exactly when it agrees at every JUMPDEST. */
  lemma StaleAnalysis(bits: BitVector, analysed: Code, code: Code)
    requires IsBitmap(bits, analysed)
    ensures (forall dest: nat :: RightAnswer(bits, code, dest)) <==>
              (forall p: nat | p < |code| && p < PC_LIMIT && code[p] == JUMPDEST :: AgreesAt(analysed, code, p))
  {
    forall p: nat ensures RightAnswer(bits, code, p) <==>
                            (p < |code| && p < PC_LIMIT && code[p] == JUMPDEST ==> AgreesAt(analysed, code, p))
    {
      JumpDestinationsAreBoundaries(code, 0, p);
      if p < 8 * |bits| { assert IsSet(bits, p) <==> IsData(analysed, End(analysed, 0), p); }
    }
  }

  /** It can be wrong: a JUMPDEST where the other code has the data of a PUSH is refused. */
  lemma StaleAnalysisMisleads(bits: BitVector)
    requires IsBitmap(bits, [PUSH1, JUMPDEST])
    ensures !RightAnswer(bits, [JUMPDEST, JUMPDEST], 1)
  {
    var analysed, code := [PUSH1, JUMPDEST], [JUMPDEST, JUMPDEST];
    assert Next(analysed, 0) == 2 && !Reaches(analysed, 0, 1) && End(analysed, 0) == 2;
    assert Next(code, 0) == 1 && Reaches(code, 0, 1);
    assert IsSet(bits, 1) <==> IsData(analysed, 2, 1);
    JumpDestinationsAreBoundaries(code, 0, 1);
  }

  // ---- Contracts and the two caches ----

  /** The analyses by code hash that a contract shares with the contracts it calls. */
  class JumpdestCache {
    var entries: map<Hash, BitVector>
    ghost const hash: Code -> Hash

    constructor (ghost hash: Code -> Hash)
      ensures this.hash == hash && entries == map[]
    {
      this.hash := hash;
      entries := map[];
    }

    /** Every entry is the bitmap of the code with that hash. */
    ghost predicate Valid()
      reads this
    {
      forall h, code | h in entries && hash(code) == h :: IsBitmap(entries[h], code)
    }
  }

  ghost predicate Injective(hash: Code -> Hash) {
    forall a, b :: hash(a) == hash(b) ==> a == b
  }

  class Contract {
    const jumpdests: JumpdestCache
    var analysis: Option<BitVector>
    var code: Code
    var codeHash: Hash

    /** What callers pass as hash is the hash of the code, or empty for code that is not stored yet. */
    ghost predicate Valid()
      reads this, jumpdests
    {
      && jumpdests.Valid()
      && Injective(jumpdests.hash)
      && (codeHash != EMPTY_HASH ==> codeHash == jumpdests.hash(code))
      && (analysis.Some? ==> IsBitmap(analysis.value, code))
    }

    /** A contract called from outside has its own cache, one called by a contract that contract's. */
    constructor (caller: JumpdestCache)
      ensures jumpdests == caller && analysis == None && code == [] && codeHash == EMPTY_HASH
    {
      jumpdests := caller;
      analysis, code, codeHash := None, [], EMPTY_HASH;
    }

    method SetCallCode(hash: Hash, code: Code)
      modifies this
      ensures this.code == code && codeHash == hash && analysis == old(analysis)
      ensures old(Valid()) && (hash != EMPTY_HASH ==> hash == jumpdests.hash(code)) ==>
                (Valid() <==> analysis.None? || IsBitmap(analysis.value, code))
    {
      this.code := code;
      codeHash := hash;
    }

    /** Through either cache, and whatever has been asked before by this or another contract with the
        same cache, the answer is membership in the set of valid destinations. */
    method ValidJumpdest(dest: nat) returns (r: bool)
      requires Valid()
      modifies this, jumpdests
      ensures r <==> dest < PC_LIMIT && dest in JumpDestinations(code, 0)
      ensures Valid() && code == old(code) && codeHash == old(codeHash)
    {
      JumpDestinationsAreBoundaries(code, 0, dest);
      if dest >= PC_LIMIT || dest >= |code| { return false; }
      if code[dest] != JUMPDEST { return false; }
      if codeHash != EMPTY_HASH {
        if codeHash !in jumpdests.entries {
          var bits := CodeBitmap(code);
          jumpdests.entries := jumpdests.entries[codeHash := bits];
        }
        var bits := jumpdests.entries[codeHash];
        OwnAnalysis(bits, code, dest);
        r := CodeSegment(bits, dest);
      } else {
        if analysis.None? {
          var bits := CodeBitmap(code);
          analysis := Some(bits);
        }
        OwnAnalysis(analysis.value, code, dest);
        r := CodeSegment(analysis.value, dest);
      }
    }
  }
}
