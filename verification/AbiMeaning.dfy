/** What any input means as a value of a type, and that the decoder computes it (eth/abi/unpack.go). */
module AbiMeaning {
  import opened Bytes
  import opened AbiTypes
  import opened AbiDecoding

  /** The number in the word at `p`. */
  ghost function Number(out: seq<Byte>, p: nat): nat
    requires p + 32 <= |out|
  {
    FromBigEndian(out[p..p + 32])
  }

  /** The word means the value: an integer by its lowest bytes, a truth value only if the word is 0 or 1, an address by
      the last 20 bytes and a fixed byte string by the first ones, whatever the others are, and a function only if
      the last 8 bytes are zero. */
  ghost predicate WordMeans(t: Type, v: Value, word: seq<Byte>)
    requires |word| == 32
  {
    match t
    case IntTy(bits) => v.IntV? && IntMeans(v.n, FromBigEndian(word[32 - IntBytes(bits)..]), Pow256(IntBytes(bits)))
    case UintTy(bits) => v == IntV(FromBigEndian(word[32 - IntBytes(bits)..]))
    case BoolTy => v.BoolV? && word == Zeros(31) + [if v.b then 1 else 0]
    case AddressTy => v == BytesV(word[12..])
    case FixedBytesTy(n) => n <= 32 && v == BytesV(word[..n])
    case FunctionTy => v == BytesV(word[..24]) && word[24..] == Zeros(8)
    case _ => false
  }

  /** The signed number of least size that is `n` modulo `m`. */
  ghost predicate IntMeans(i: int, n: int, m: int) {
    (i == n || i == n - m) && -m <= 2 * i < m
  }

  /** A length is found where the offset at `index` points to, and as many bytes, or elements, behind it. */
  ghost predicate PrefixMeans(out: seq<Byte>, index: nat, begin: nat, length: nat)
    requires index + 32 <= |out|
  {
    && begin == Number(out, index) + 32 && begin + length <= |out| && begin + length < INT_MAX
    && length == Number(out, begin - 32)
  }

  /** Where the parts of a composite value begin: in place, or where the offset points to. The offset of an array is
      the number in the last eight bytes of its word. */
  ghost predicate BaseMeans(t: Type, out: seq<Byte>, index: nat, base: nat)
    requires index + 32 <= |out|
  {
    && base <= |out|
    && (if !IsDynamic(t) then base == index
        else if t.ArrayTy? then base == FromBigEndian(out[index + 24..index + 32])
        else base == Number(out, index) && base < INT_MAX)
  }

  /** The heads of `vs` are one behind the other from the beginning of `out`, each of the size of its type. */
  ghost predicate PartsMean(ts: seq<Type>, vs: seq<Value>, out: seq<Byte>)
    decreases vs, 0
  {
    |vs| == |ts| && forall i :: 0 <= i < |vs| ==> Means(ts[i], vs[i], out, HeadSize(ts[..i]))
  }

  /** The value of type `t` whose head is at `index` of `out` is `v`. */
  ghost predicate Means(t: Type, v: Value, out: seq<Byte>, index: nat)
    decreases v, 1
  {
    && index + 32 <= |out|
    && match t
       case StringTy => v.BytesV? && BytesMean(v.bytes, out, index)
       case BytesTy => v.BytesV? && BytesMean(v.bytes, out, index)
       case SliceTy(e) =>
         && v.ListV?
         && (exists begin: nat :: PrefixMeans(out, index, begin, |v.items|) && ListMeans(e, v.items, out, begin))
       case ArrayTy(n, e) =>
         && v.ListV? && |v.items| == n
         && (exists base: nat :: BaseMeans(t, out, index, base) && ListMeans(e, v.items, out, base))
       case TupleTy(ts) =>
         && v.ListV?
         && (exists base: nat :: BaseMeans(t, out, index, base) && PartsMean(ts, v.items, out[base..]))
       case _ => WordMeans(t, v, out[index..index + 32])
  }

  ghost predicate BytesMean(s: seq<Byte>, out: seq<Byte>, index: nat)
    requires index + 32 <= |out|
  {
    exists begin: nat :: PrefixMeans(out, index, begin, |s|) && out[begin..begin + |s|] == s
  }

  /** A list has at least a word for each element. */
  ghost predicate ListMeans(e: Type, vs: seq<Value>, out: seq<Byte>, base: nat)
    decreases vs, 1
  {
    base <= |out| && 32 * |vs| <= |out| - base && PartsMean(Repeat(e, |vs|), vs, out[base..])
  }

  // ---- The decoder ----

  ghost predicate AllDecode(ts: seq<Type>, vs: seq<Value>, out: seq<Byte>, pos: nat) {
    |vs| == |ts| && forall i: nat :: i < |vs| ==> DecodesPart(ts, vs, out, pos, i)
  }

  /** A list of types is decoded part by part. */
  lemma {:induction false} DecodesEach(ts: seq<Type>, vs: seq<Value>, out: seq<Byte>, pos: nat)
    ensures DecodeAll(ts, out, pos) == Ok(vs) <==> AllDecode(ts, vs, out, pos)
    decreases ts
  {
    if ts != [] && vs != [] {
      DecodesEach(ts[1..], vs[1..], out, pos + TypeSize(ts[0]));
      EachSplit(ts, vs, out, pos);
      assert vs == [vs[0]] + vs[1..];
    }
  }

  ghost predicate DecodesPart(ts: seq<Type>, vs: seq<Value>, out: seq<Byte>, pos: nat, i: nat)
    requires i < |ts| && i < |vs|
  {
    DecodeAt(ts[i], out, pos + HeadSize(ts[..i])) == Ok(vs[i])
  }

  lemma PartOfRest(ts: seq<Type>, vs: seq<Value>, out: seq<Byte>, pos: nat, i: nat)
    requires ts != [] && vs != [] && i + 1 < |ts| && i + 1 < |vs|
    ensures DecodesPart(ts, vs, out, pos, i + 1) <==> DecodesPart(ts[1..], vs[1..], out, pos + TypeSize(ts[0]), i)
  {
    assert ts[..i + 1][1..] == ts[1..][..i];
  }

  lemma EachSplit(ts: seq<Type>, vs: seq<Value>, out: seq<Byte>, pos: nat)
    requires ts != [] && vs != []
    ensures AllDecode(ts, vs, out, pos) <==>
              DecodeAt(ts[0], out, pos) == Ok(vs[0]) && AllDecode(ts[1..], vs[1..], out, pos + TypeSize(ts[0]))
  {
    var rest := pos + TypeSize(ts[0]);
    assert DecodesPart(ts, vs, out, pos, 0) <==> DecodeAt(ts[0], out, pos) == Ok(vs[0]);
    if |ts| == |vs| {
      forall i: nat | i + 1 < |ts|
        ensures DecodesPart(ts, vs, out, pos, i + 1) <==> DecodesPart(ts[1..], vs[1..], out, rest, i)
      {
        PartOfRest(ts, vs, out, pos, i);
      }
      if AllDecode(ts[1..], vs[1..], out, rest) && DecodesPart(ts, vs, out, pos, 0) {
        forall i: nat | i < |ts| ensures DecodesPart(ts, vs, out, pos, i) {
          if i > 0 { assert DecodesPart(ts[1..], vs[1..], out, rest, i - 1); }
        }
      }
      if AllDecode(ts, vs, out, pos) {
        forall i: nat | i + 1 < |ts| ensures DecodesPart(ts[1..], vs[1..], out, rest, i) {
          assert DecodesPart(ts, vs, out, pos, i + 1);
        }
      }
    }
  }

  lemma WordExactly(t: Type, v: Value, word: seq<Byte>)
    requires |word| == 32
    ensures ReadWord(t, word) == Ok(v) <==> WordMeans(t, v, word)
  {
    match t {
      case IntTy(bits) =>
        var low := word[32 - IntBytes(bits)..];
        FromBigEndianBound(low);
        if v.IntV? { SignedExactly(v.n, FromBigEndian(low), Pow256(|low|)); }
      case BoolTy => if v.BoolV? { BoolExactly(v.b, word); }
      case FunctionTy => OnlyZeros(word[24..]);
      case _ =>
    }
  }

  lemma SignedExactly(i: int, n: nat, m: nat)
    requires n < m
    ensures Signed(n, m) == i <==> IntMeans(i, n, m)
  {}

  lemma BoolExactly(b: bool, word: seq<Byte>)
    requires |word| == 32
    ensures ReadBool(word) == Ok(BoolV(b)) <==> word == Zeros(31) + [if b then 1 else 0]
  {
    assert word == word[..31] + [word[31]];
  }

  lemma {:induction false} OnlyZeros(s: seq<Byte>)
    ensures FromBigEndian(s) == 0 <==> s == Zeros(|s|)
  {
    if s != [] {
      var init := s[..|s| - 1];
      OnlyZeros(init);
      assert s == init + [s[|s| - 1]] && Zeros(|s|) == Zeros(|s| - 1) + [0];
    }
  }

  lemma PrefixExactly(out: seq<Byte>, index: nat, begin: nat, length: nat)
    requires index + 32 <= |out|
    ensures LengthPrefixPointsTo(out, index) == Ok(Range(begin, length)) <==> PrefixMeans(out, index, begin, length)
  {}

  lemma BytesExactly(s: seq<Byte>, out: seq<Byte>, index: nat)
    requires index + 32 <= |out|
    ensures DecodeBytes(out, index) == Ok(BytesV(s)) <==> BytesMean(s, out, index)
  {
    var at := LengthPrefixPointsTo(out, index);
    if DecodeBytes(out, index) == Ok(BytesV(s)) {
      PrefixExactly(out, index, at.value.begin, |s|);
      assert out[at.value.begin..at.value.begin + |s|] == s;
    }
    if BytesMean(s, out, index) {
      var begin: nat :| PrefixMeans(out, index, begin, |s|) && out[begin..begin + |s|] == s;
      PrefixExactly(out, index, begin, |s|);
    }
  }

  lemma ArrayBaseExactly(t: Type, out: seq<Byte>, index: nat, base: nat)
    requires index + 32 <= |out| && t.ArrayTy? && IsDynamic(t)
    ensures ArrayPointsTo(out, index) == Ok(base) <==> BaseMeans(t, out, index, base)
  {
    assert out[index..index + 32][24..] == out[index + 24..index + 32];
  }

  lemma TupleBaseExactly(t: Type, out: seq<Byte>, index: nat, base: nat)
    requires index + 32 <= |out| && t.TupleTy? && IsDynamic(t)
    ensures TuplePointsTo(out, index) == Ok(base) <==> BaseMeans(t, out, index, base)
  {}

  lemma {:induction false} PartsExactly(ts: seq<Type>, vs: seq<Value>, out: seq<Byte>)
    ensures DecodeAll(ts, out, 0) == Ok(vs) <==> PartsMean(ts, vs, out)
    decreases vs, 0
  {
    DecodesEach(ts, vs, out, 0);
    if |vs| == |ts| {
      forall i: nat | i < |vs| ensures DecodesPart(ts, vs, out, 0, i) <==> Means(ts[i], vs[i], out, HeadSize(ts[..i])) {
        DecodesExactly(ts[i], vs[i], out, HeadSize(ts[..i]));
      }
    }
  }

  lemma {:induction false} ListExactly(e: Type, vs: seq<Value>, out: seq<Byte>, base: nat)
    requires base <= |out|
    ensures DecodeList(e, out[base..], |vs|) == Ok(ListV(vs)) <==> ListMeans(e, vs, out, base)
    decreases vs, 1
  {
    PartsExactly(Repeat(e, |vs|), vs, out[base..]);
  }

  lemma ListLength(e: Type, out: seq<Byte>, n: nat, v: Value)
    requires DecodeList(e, out, n) == Ok(v)
    ensures v.ListV? && |v.items| == n
  {}

  lemma {:induction false} SliceExactly(e: Type, v: Value, out: seq<Byte>, index: nat)
    requires index + 32 <= |out|
    ensures DecodeAt(SliceTy(e), out, index) == Ok(v) <==> Means(SliceTy(e), v, out, index)
    decreases v, 0
  {
    var at := LengthPrefixPointsTo(out, index);
    if DecodeAt(SliceTy(e), out, index) == Ok(v) {
      ListLength(e, out[at.value.begin..], at.value.length, v);
      PrefixExactly(out, index, at.value.begin, at.value.length);
      ListExactly(e, v.items, out, at.value.begin);
    }
    if Means(SliceTy(e), v, out, index) {
      var begin: nat :| PrefixMeans(out, index, begin, |v.items|) && ListMeans(e, v.items, out, begin);
      PrefixExactly(out, index, begin, |v.items|);
      ListExactly(e, v.items, out, begin);
    }
  }

  lemma {:induction false} ArrayExactly(t: Type, v: Value, out: seq<Byte>, index: nat)
    requires index + 32 <= |out| && t.ArrayTy?
    ensures DecodeAt(t, out, index) == Ok(v) <==> Means(t, v, out, index)
    decreases v, 0
  {
    var e := t.elem;
    if DecodeAt(t, out, index) == Ok(v) {
      var base := if IsDynamic(e) then ArrayPointsTo(out, index).value else index;
      if IsDynamic(e) { ArrayBaseExactly(t, out, index, base); }
      ListLength(e, out[base..], t.length, v);
      ListExactly(e, v.items, out, base);
    }
    if Means(t, v, out, index) {
      var base: nat :| BaseMeans(t, out, index, base) && ListMeans(e, v.items, out, base);
      if IsDynamic(e) { ArrayBaseExactly(t, out, index, base); }
      ListExactly(e, v.items, out, base);
    }
  }

  lemma {:induction false} TupleExactly(t: Type, v: Value, out: seq<Byte>, index: nat)
    requires index + 32 <= |out| && t.TupleTy?
    ensures DecodeAt(t, out, index) == Ok(v) <==> Means(t, v, out, index)
    decreases v, 0
  {
    var ts := t.fields;
    if DecodeAt(t, out, index) == Ok(v) {
      var base := if AnyDynamic(ts) then TuplePointsTo(out, index).value else index;
      if AnyDynamic(ts) { TupleBaseExactly(t, out, index, base); }
      PartsExactly(ts, v.items, out[base..]);
    }
    if Means(t, v, out, index) {
      var base: nat :| BaseMeans(t, out, index, base) && PartsMean(ts, v.items, out[base..]);
      if AnyDynamic(ts) { TupleBaseExactly(t, out, index, base); }
      PartsExactly(ts, v.items, out[base..]);
    }
  }

  /** For every input the decoder gives the value that the input means, and an error if it means none. */
  lemma {:induction false} DecodesExactly(t: Type, v: Value, out: seq<Byte>, index: nat)
    ensures DecodeAt(t, out, index) == Ok(v) <==> Means(t, v, out, index)
    decreases v, 1
  {
    if index + 32 <= |out| {
      match t {
        case StringTy => if v.BytesV? { BytesExactly(v.bytes, out, index); }
        case BytesTy => if v.BytesV? { BytesExactly(v.bytes, out, index); }
        case SliceTy(e) => SliceExactly(e, v, out, index);
        case ArrayTy(_, _) => ArrayExactly(t, v, out, index);
        case TupleTy(_) => TupleExactly(t, v, out, index);
        case _ => WordExactly(t, v, out[index..index + 32]);
      }
    }
  }
}
