/** The decoder that follows offsets (eth/abi/unpack.go). */
module AbiDecoding {
  import opened Bytes
  import opened AbiTypes

  /** Panic is a slice out of bounds, which the Go runtime turns into a crash. */
  datatype Outcome<+T> = Ok(value: T) | Err | Panic

  // ---- Leaves ----

  /** Reads a number of `m` possible values as a signed one. */
  function Signed(n: nat, m: nat): int {
    if 2 * n >= m then n - m else n
  }

  function ReadInteger(t: Type, word: seq<Byte>): int
    requires (t.IntTy? || t.UintTy?) && |word| == 32
  {
    var k := IntBytes(t.bits);
    var n := FromBigEndian(word[32 - k..]);
    if t.UintTy? then n else Signed(n, Pow256(k))
  }

  function ReadBool(word: seq<Byte>): Outcome<Value>
    requires |word| == 32
  {
    if word[..31] != Zeros(31) then Err
    else if word[31] == 0 then Ok(BoolV(false))
    else if word[31] == 1 then Ok(BoolV(true))
    else Err
  }

  /** A leaf that lies in the word itself. */
  function ReadWord(t: Type, word: seq<Byte>): Outcome<Value>
    requires |word| == 32
  {
    match t
    case IntTy(_) => Ok(IntV(ReadInteger(t, word)))
    case UintTy(_) => Ok(IntV(ReadInteger(t, word)))
    case BoolTy => ReadBool(word)
    case AddressTy => Ok(BytesV(word[12..]))
    case FixedBytesTy(n) => if n > 32 then Panic else Ok(BytesV(word[..n]))
    case FunctionTy => if FromBigEndian(word[24..]) != 0 then Err else Ok(BytesV(word[..24]))
    case _ => Err
  }

  datatype Range = Range(begin: nat, length: nat)

  /** Follows an offset to a length prefix: where the contents begin and how long they are. */
  function LengthPrefixPointsTo(out: seq<Byte>, index: nat): (r: Outcome<Range>)
    requires index + 32 <= |out|
    ensures r.Ok? ==> 32 <= r.value.begin && r.value.begin + r.value.length <= |out|
    ensures !r.Panic?
  {
    var end := FromBigEndian(out[index..index + 32]) + 32;
    if end > |out| then Err
    else if end >= INT_MAX then Err
    else
      var length := FromBigEndian(out[end - 32..end]);
      if end + length >= INT_MAX then Err
      else if end + length > |out| then Err
      else Ok(Range(end, length))
  }

  function TuplePointsTo(out: seq<Byte>, index: nat): (r: Outcome<nat>)
    requires index + 32 <= |out|
    ensures r.Ok? ==> r.value <= |out|
    ensures !r.Panic?
  {
    var offset := FromBigEndian(out[index..index + 32]);
    if offset > |out| then Err else if offset >= INT_MAX then Err else Ok(offset)
  }

  /** The offset of a dynamic array is read from the low eight bytes of its word. */
  function ArrayPointsTo(out: seq<Byte>, index: nat): (r: Outcome<nat>)
    requires index + 32 <= |out|
    ensures r.Ok? ==> r.value <= |out|
    ensures !r.Panic?
  {
    var offset := FromBigEndian(out[index..index + 32][24..]);
    if offset > |out| then Err else Ok(offset)
  }

  // ---- Composite types ----

  function Depth(t: Type): nat
    decreases t
  {
    match t
    case SliceTy(e) => 1 + Depth(e)
    case ArrayTy(_, e) => 1 + Depth(e)
    case TupleTy(ts) => 1 + MaxDepth(ts)
    case _ => 0
  }

  function MaxDepth(ts: seq<Type>): nat
    decreases ts
  {
    if ts == [] then 0
    else var d, rest := Depth(ts[0]), MaxDepth(ts[1..]); if d > rest then d else rest
  }

  lemma {:induction false} RepeatDepth(t: Type, n: nat)
    ensures MaxDepth(Repeat(t, n)) <= Depth(t)
  {
    if n > 0 {
      RepeatTail(t, n);
      RepeatDepth(t, n - 1);
    }
  }

  function MapList(r: Outcome<seq<Value>>): Outcome<Value> {
    match r
    case Ok(vs) => Ok(ListV(vs))
    case Err => Err
    case Panic => Panic
  }

  /** The first value that fails decides. */
  function Cons(first: Outcome<Value>, rest: Outcome<seq<Value>>): Outcome<seq<Value>> {
    match first
    case Err => Err
    case Panic => Panic
    case Ok(v) => (match rest case Err => Err case Panic => Panic case Ok(vs) => Ok([v] + vs))
  }

  /** toGoType: the value of type `t` whose head is at `index`. */
  function DecodeAt(t: Type, out: seq<Byte>, index: nat): Outcome<Value>
    decreases Depth(t), 0
  {
    if index + 32 > |out| then Err
    else match t
      case StringTy => DecodeBytes(out, index)
      case BytesTy => DecodeBytes(out, index)
      case SliceTy(e) =>
        var at := LengthPrefixPointsTo(out, index);
        if at.Ok? then DecodeList(e, out[at.value.begin..], at.value.length) else Err
      case ArrayTy(n, e) =>
        if IsDynamic(e) then
          var at := ArrayPointsTo(out, index);
          if at.Ok? then DecodeList(e, out[at.value..], n) else Err
        else DecodeList(e, out[index..], n)
      case TupleTy(ts) =>
        if AnyDynamic(ts) then
          var at := TuplePointsTo(out, index);
          if at.Ok? then MapList(DecodeAll(ts, out[at.value..], 0)) else Err
        else MapList(DecodeAll(ts, out[index..], 0))
      case _ => ReadWord(t, out[index..index + 32])
  }

  function DecodeBytes(out: seq<Byte>, index: nat): Outcome<Value>
    requires index + 32 <= |out|
  {
    var at := LengthPrefixPointsTo(out, index);
    if at.Ok? then Ok(BytesV(out[at.value.begin..at.value.begin + at.value.length])) else Err
  }

  /** forEachUnpack: `n` values of one type. */
  function DecodeList(e: Type, out: seq<Byte>, n: nat): Outcome<Value>
    decreases Depth(e), n + 2
  {
    RepeatDepth(e, n);
    if 32 * n > |out| then Err else MapList(DecodeAll(Repeat(e, n), out, 0))
  }

  /** The values of types `ts` whose heads follow each other from `pos` on. */
  function DecodeAll(ts: seq<Type>, out: seq<Byte>, pos: nat): (r: Outcome<seq<Value>>)
    ensures r.Ok? ==> |r.value| == |ts|
    decreases MaxDepth(ts), |ts| + 1
  {
    if ts == [] then Ok([])
    else Cons(DecodeAt(ts[0], out, pos), DecodeAll(ts[1..], out, pos + TypeSize(ts[0])))
  }

  // ---- The decoder is total ----

  /** Decoding never leaves the input, whatever the input, when fixed byte strings fit a word. */
  lemma {:induction false} DecodeNeverPanics(t: Type, out: seq<Byte>, index: nat)
    requires TypeOK(t)
    ensures !DecodeAt(t, out, index).Panic?
    decreases Depth(t), 0
  {
    if index + 32 <= |out| {
      match t {
        case SliceTy(e) =>
          var at := LengthPrefixPointsTo(out, index);
          if at.Ok? { DecodeListNeverPanics(e, out[at.value.begin..], at.value.length); }
        case ArrayTy(n, e) =>
          var at := ArrayPointsTo(out, index);
          if at.Ok? { DecodeListNeverPanics(e, out[at.value..], n); }
          DecodeListNeverPanics(e, out[index..], n);
        case TupleTy(ts) =>
          var at := TuplePointsTo(out, index);
          if at.Ok? { DecodeAllNeverPanics(ts, out[at.value..], 0); }
          DecodeAllNeverPanics(ts, out[index..], 0);
        case _ =>
      }
    }
  }

  lemma DecodeListNeverPanics(e: Type, out: seq<Byte>, n: nat)
    requires TypeOK(e)
    ensures !DecodeList(e, out, n).Panic?
    decreases Depth(e), n + 2
  {
    RepeatDepth(e, n);
    RepeatOK(e, n);
    DecodeAllNeverPanics(Repeat(e, n), out, 0);
  }

  lemma {:induction false} DecodeAllNeverPanics(ts: seq<Type>, out: seq<Byte>, pos: nat)
    requires TypesOK(ts)
    ensures !DecodeAll(ts, out, pos).Panic?
    decreases MaxDepth(ts), |ts| + 1
  {
    if ts != [] {
      DecodeNeverPanics(ts[0], out, pos);
      DecodeAllNeverPanics(ts[1..], out, pos + TypeSize(ts[0]));
    }
  }

  // ---- What is decoded is well typed ----

  lemma WordHasType(t: Type, word: seq<Byte>)
    requires |word| == 32
    ensures var r := ReadWord(t, word); r.Ok? ==> Shaped(t, r.value) && InRange(t, r.value)
  {
    if t.IntTy? || t.UintTy? {
      FromBigEndianBound(word[32 - IntBytes(t.bits)..]);
    }
  }

  lemma {:induction false} DecodedHasType(t: Type, out: seq<Byte>, index: nat)
    ensures var r := DecodeAt(t, out, index); r.Ok? ==> Shaped(t, r.value) && InRange(t, r.value)
    decreases Depth(t), 0
  {
    if index + 32 <= |out| {
      match t {
        case SliceTy(e) =>
          var at := LengthPrefixPointsTo(out, index);
          if at.Ok? { DecodedListHasTypes(e, out[at.value.begin..], at.value.length); }
        case ArrayTy(n, e) =>
          var at := ArrayPointsTo(out, index);
          if at.Ok? { DecodedListHasTypes(e, out[at.value..], n); }
          DecodedListHasTypes(e, out[index..], n);
        case TupleTy(ts) =>
          var at := TuplePointsTo(out, index);
          if at.Ok? { DecodedHaveTypes(ts, out[at.value..], 0); }
          DecodedHaveTypes(ts, out[index..], 0);
        case _ => WordHasType(t, out[index..index + 32]);
      }
    }
  }

  lemma DecodedListHasTypes(e: Type, out: seq<Byte>, n: nat)
    ensures var r := DecodeList(e, out, n);
            r.Ok? ==>
              && r.value.ListV? && |r.value.items| == n
              && ShapedAll(Repeat(e, n), r.value.items) && AllInRange(Repeat(e, n), r.value.items)
    decreases Depth(e), n + 2
  {
    RepeatDepth(e, n);
    DecodedHaveTypes(Repeat(e, n), out, 0);
  }

  lemma {:induction false} DecodedHaveTypes(ts: seq<Type>, out: seq<Byte>, pos: nat)
    ensures var r := DecodeAll(ts, out, pos); r.Ok? ==> ShapedAll(ts, r.value) && AllInRange(ts, r.value)
    decreases MaxDepth(ts), |ts| + 1
  {
    if ts != [] {
      DecodedHasType(ts[0], out, pos);
      DecodedHaveTypes(ts[1..], out, pos + TypeSize(ts[0]));
      var r := DecodeAll(ts, out, pos);
      if r.Ok? {
        assert r.value[1..] == DecodeAll(ts[1..], out, pos + TypeSize(ts[0])).value;
      }
    }
  }

  // ---- Byte strings are cut out of the input ----

  /** `s` lies in the input at position `p`. */
  ghost predicate At(out: seq<Byte>, p: nat, s: seq<Byte>) {
    p + |s| <= |out| && out[p..p + |s|] == s
  }

  ghost predicate SliceOf(s: seq<Byte>, out: seq<Byte>) {
    exists p: nat :: At(out, p, s)
  }

  /** Every byte string inside the value, of any bytes-like type, is a piece of the input. */
  ghost predicate Within(v: Value, out: seq<Byte>)
    decreases v
  {
    match v
    case BytesV(s) => SliceOf(s, out)
    case ListV(vs) => forall i :: 0 <= i < |vs| ==> Within(vs[i], out)
    case _ => true
  }

  lemma {:induction false} WithinTail(v: Value, out: seq<Byte>, k: nat)
    requires k <= |out| && Within(v, out[k..])
    ensures Within(v, out)
    decreases v
  {
    match v {
      case BytesV(s) =>
        var p: nat :| At(out[k..], p, s);
        assert out[k..][p..p + |s|] == out[k + p..k + p + |s|];
        assert At(out, k + p, s);
      case ListV(vs) =>
        forall i | 0 <= i < |vs| ensures Within(vs[i], out) { WithinTail(vs[i], out, k); }
      case _ =>
    }
  }

  lemma {:induction false} DecodedIsWithin(t: Type, out: seq<Byte>, index: nat)
    ensures DecodeAt(t, out, index).Ok? ==> Within(DecodeAt(t, out, index).value, out)
    decreases Depth(t), 0
  {
    if index + 32 <= |out| && DecodeAt(t, out, index).Ok? {
      var v := DecodeAt(t, out, index).value;
      match t {
        case SliceTy(e) =>
          var at := LengthPrefixPointsTo(out, index).value;
          DecodedListIsWithin(e, out[at.begin..], at.length);
          WithinTail(v, out, at.begin);
        case ArrayTy(n, e) =>
          var at := if IsDynamic(e) then ArrayPointsTo(out, index).value else index;
          DecodedListIsWithin(e, out[at..], n);
          WithinTail(v, out, at);
        case TupleTy(ts) =>
          var at := if AnyDynamic(ts) then TuplePointsTo(out, index).value else index;
          var r := DecodeAll(ts, out[at..], 0);
          assert DecodeAt(t, out, index) == MapList(r);
          DecodedAreWithin(ts, out[at..], 0);
          WithinTail(ListV(r.value), out, at);
        case StringTy => CutIsSlice(out, index);
        case BytesTy => CutIsSlice(out, index);
        case AddressTy => assert At(out, index + 12, v.bytes);
        case FixedBytesTy(n) => assert At(out, index, v.bytes);
        case FunctionTy => assert At(out, index, v.bytes);
        case _ =>
      }
    }
  }

  lemma CutIsSlice(out: seq<Byte>, index: nat)
    requires index + 32 <= |out| && DecodeBytes(out, index).Ok?
    ensures Within(DecodeBytes(out, index).value, out)
  {
    var at := LengthPrefixPointsTo(out, index).value;
    var s := out[at.begin..at.begin + at.length];
    assert At(out, at.begin, s);
  }

  lemma DecodedListIsWithin(e: Type, out: seq<Byte>, n: nat)
    ensures DecodeList(e, out, n).Ok? ==> Within(DecodeList(e, out, n).value, out)
    decreases Depth(e), n + 2
  {
    RepeatDepth(e, n);
    DecodedAreWithin(Repeat(e, n), out, 0);
    var r := DecodeAll(Repeat(e, n), out, 0);
    if r.Ok? { assert Within(ListV(r.value), out); }
  }

  lemma {:induction false} DecodedAreWithin(ts: seq<Type>, out: seq<Byte>, pos: nat)
    ensures var r := DecodeAll(ts, out, pos); r.Ok? ==> Within(ListV(r.value), out)
    decreases MaxDepth(ts), |ts| + 1
  {
    if ts != [] {
      DecodedIsWithin(ts[0], out, pos);
      DecodedAreWithin(ts[1..], out, pos + TypeSize(ts[0]));
      var r := DecodeAll(ts, out, pos);
      if r.Ok? {
        var rest := DecodeAll(ts[1..], out, pos + TypeSize(ts[0])).value;
        forall i | 0 <= i < |r.value| ensures Within(r.value[i], out) {
          if i > 0 { assert r.value[i] == rest[i - 1]; }
        }
      }
    }
  }
}
