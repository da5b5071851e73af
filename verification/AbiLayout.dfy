/** Where every byte of an encoding lies (eth/abi/pack.go, eth/abi/argument.go), as section "Formal Specification of
    the Encoding" of the Contract ABI Specification places it. */
module AbiLayout {
  import opened Bytes
  import opened AbiTypes
  import opened AbiDecoding
  import opened AbiRoundTrip

  ghost predicate ZeroFrom(s: seq<Byte>, i: nat) {
    forall k :: i <= k < |s| ==> s[k] == 0
  }

  /** The word reads as `n`, as far as its width goes. */
  ghost predicate Reads(word: seq<Byte>, n: int) {
    FromBigEndian(word) == n % Pow256(|word|)
  }

  lemma WrittenReads(word: seq<Byte>, n: int)
    requires word == BigEndian(n, |word|)
    ensures Reads(word, n)
  {
    FromToBigEndian(n, |word|);
  }

  // ---- Leaves and byte strings ----

  /** An integer is its two's complement, a truth value 0 or 1; addresses lie at the right end of their word, byte
      strings at the left end, and the rest of the word is zero. */
  ghost predicate WordOf(t: Type, v: Value, r: seq<Byte>) {
    && |r| == 32
    && match t
       case IntTy(_) => v.IntV? && Reads(r, v.n)
       case UintTy(_) => v.IntV? && Reads(r, v.n)
       case BoolTy => v.BoolV? && r == Zeros(31) + [if v.b then 1 else 0]
       case AddressTy => v.BytesV? && |v.bytes| == 20 && r == Zeros(12) + v.bytes
       case FixedBytesTy(n) => v.BytesV? && |v.bytes| == n <= 32 && r[..n] == v.bytes && ZeroFrom(r, n)
       case FunctionTy => v.BytesV? && |v.bytes| == 24 && r == v.bytes + Zeros(8)
       case _ => false
  }

  predicate IsWord(t: Type) {
    !t.StringTy? && !t.BytesTy? && !t.SliceTy? && !t.ArrayTy? && !t.TupleTy?
  }

  lemma WordLayout(t: Type, v: Value)
    requires IsWord(t) && TypeOK(t) && Shaped(t, v)
    ensures WordOf(t, v, Encode(t, v))
  {
    match t {
      case IntTy(_) => WrittenReads(Encode(t, v), v.n);
      case UintTy(_) => WrittenReads(Encode(t, v), v.n);
      case BoolTy => BoolLayout(if v.b then 1 else 0, 31);
      case _ =>
    }
  }

  lemma BoolLayout(n: nat, k: nat)
    requires n < 2
    ensures BigEndian(n, k + 1) == Zeros(k) + [n]
  {
    assert n / 256 == 0 && n % 256 == n;
    BigEndianZero(k);
  }

  /** A length, the bytes, and as many zeros as complete the last word: the whole is as short as it can be. */
  ghost predicate BytesOf(s: seq<Byte>, r: seq<Byte>) {
    && |r| % 32 == 0 && |s| + 32 <= |r| < |s| + 64
    && Reads(r[..32], |s|)
    && r[32..32 + |s|] == s && ZeroFrom(r, 32 + |s|)
  }

  lemma RoundUpFits(n: nat)
    ensures RoundUp(n) % 32 == 0 && n <= RoundUp(n) < n + 32
  {}

  lemma BytesLayout(s: seq<Byte>)
    ensures BytesOf(s, BytesEncoding(s))
  {
    RoundUpFits(|s|);
    WrittenReads(BigEndian(|s|, 32), |s|);
    PrefixedLayout(BigEndian(|s|, 32), s, RoundUp(|s|), BytesEncoding(s));
  }

  lemma PrefixedLayout(prefix: seq<Byte>, s: seq<Byte>, m: nat, r: seq<Byte>)
    requires |prefix| == 32 && Reads(prefix, |s|) && m % 32 == 0 && |s| <= m < |s| + 32
    requires r == prefix + PadRight(s, m)
    ensures BytesOf(s, r)
  {
    OneMoreWord(m);
    PaddedLayout(s, m);
    assert r[..32] == prefix && r[32..] == PadRight(s, m);
    forall k | 32 + |s| <= k < |r| ensures r[k] == 0 { assert r[k] == PadRight(s, m)[k - 32]; }
  }

  lemma OneMoreWord(m: nat)
    requires m % 32 == 0
    ensures (32 + m) % 32 == 0
  {}

  lemma PaddedLayout(s: seq<Byte>, m: nat)
    requires |s| <= m
    ensures |PadRight(s, m)| == m && PadRight(s, m)[..|s|] == s && ZeroFrom(PadRight(s, m), |s|)
  {}

  // ---- Heads and tails ----

  /** Every size is a number of words, so an index may count words. */
  lemma {:induction false} SizeInWords(t: Type)
    ensures TypeSize(t) % 32 == 0
    decreases t, 1
  {
    match t {
      case ArrayTy(n, e) =>
        SizeInWords(e);
        LeafSize(e);
        if !IsDynamic(e) { MultipleOfWords(n, TypeSize(e)); }
      case TupleTy(ts) => HeadInWords(ts);
      case _ =>
    }
  }

  lemma {:induction false} HeadInWords(ts: seq<Type>)
    ensures HeadSize(ts) % 32 == 0
    decreases ts, 0
  {
    if ts != [] {
      SizeInWords(ts[0]);
      HeadInWords(ts[1..]);
      SumInWords(TypeSize(ts[0]), HeadSize(ts[1..]));
    }
  }

  lemma SumInWords(a: nat, b: nat)
    requires a % 32 == 0 && b % 32 == 0
    ensures (a + b) % 32 == 0
  {}

  lemma {:induction false} MultipleOfWords(n: nat, size: nat)
    requires size % 32 == 0
    ensures (n * size) % 32 == 0
  {
    if n > 0 {
      MultipleOfWords(n - 1, size);
      assert n * size == (n - 1) * size + size;
      SumInWords((n - 1) * size, size);
    }
  }

  /** The bytes that the tails take together. */
  ghost function TailsSize(ts: seq<Type>, vs: seq<Value>): nat
    requires ShapedAll(ts, vs)
    decreases vs
  {
    if vs == [] then 0
    else (if IsDynamic(ts[0]) then |Encode(ts[0], vs[0])| else 0) + TailsSize(ts[1..], vs[1..])
  }

  lemma {:induction false} TailsLength(ts: seq<Type>, vs: seq<Value>)
    requires ShapedAll(ts, vs)
    ensures |Tails(ts, vs)| == TailsSize(ts, vs)
    decreases vs
  {
    if vs != [] { TailsLength(ts[1..], vs[1..]); }
  }

  predicate InWords(n: nat) {
    n % 32 == 0
  }

  lemma MoreInWords(a: nat, b: nat)
    requires InWords(a) && InWords(b)
    ensures InWords(a + b)
  {
    SumInWords(a, b);
  }

  /** Every encoding is a number of words. */
  lemma {:induction false} EncodeInWords(t: Type, v: Value)
    requires Shaped(t, v) && TypeOK(t)
    ensures InWords(|Encode(t, v)|)
    decreases v, 2
  {
    match t {
      case StringTy => BytesLayout(v.bytes);
      case BytesTy => BytesLayout(v.bytes);
      case SliceTy(e) => ListInWords(e, v.items);
      case ArrayTy(n, e) => ListInWords(e, v.items);
      case TupleTy(ts) => AllInWords(ts, v.items);
      case _ => WordLayout(t, v);
    }
  }

  lemma {:induction false} ListInWords(e: Type, vs: seq<Value>)
    requires TypeOK(e) && ShapedAll(Repeat(e, |vs|), vs)
    ensures InWords(|EncodeAll(Repeat(e, |vs|), vs)|) && InWords(32 + |EncodeAll(Repeat(e, |vs|), vs)|)
    decreases vs, 2
  {
    RepeatOK(e, |vs|);
    AllInWords(Repeat(e, |vs|), vs);
    OneMoreWord(|EncodeAll(Repeat(e, |vs|), vs)|);
  }

  lemma {:induction false} AllInWords(ts: seq<Type>, vs: seq<Value>)
    requires ShapedAll(ts, vs) && TypesOK(ts)
    ensures |EncodeAll(ts, vs)| == HeadSize(ts) + TailsSize(ts, vs) && InWords(|EncodeAll(ts, vs)|)
    decreases vs, 1
  {
    HeadsSize(ts, vs, HeadSize(ts));
    TailsLength(ts, vs);
    HeadInWords(ts);
    TailsInWords(ts, vs);
    SumInWords(HeadSize(ts), TailsSize(ts, vs));
  }

  lemma {:induction false} TailsInWords(ts: seq<Type>, vs: seq<Value>)
    requires ShapedAll(ts, vs) && TypesOK(ts)
    ensures InWords(TailsSize(ts, vs))
    decreases vs, 0
  {
    if vs != [] {
      TailsInWords(ts[1..], vs[1..]);
      EncodeInWords(ts[0], vs[0]);
      MoreInWords(|Encode(ts[0], vs[0])|, TailsSize(ts[1..], vs[1..]));
    }
  }

  // ---- Each value in its place ----

  /** Where the head of the value at `i` is, if the first head is at `pos`. */
  ghost function HeadPlace(ts: seq<Type>, i: nat, pos: nat): nat
    requires i <= |ts|
  {
    if i == 0 then pos else HeadPlace(ts[1..], i - 1, pos + TypeSize(ts[0]))
  }

  /** Where the tail of the value at `i` is, or would be, if the first tail is at `tail`. */
  ghost function TailPlace(ts: seq<Type>, vs: seq<Value>, i: nat, tail: nat): nat
    requires ShapedAll(ts, vs) && i <= |ts|
    decreases i
  {
    if i == 0 then tail
    else TailPlace(ts[1..], vs[1..], i - 1, tail + if IsDynamic(ts[0]) then |Encode(ts[0], vs[0])| else 0)
  }

  lemma {:induction false} PlacedAt(ts: seq<Type>, vs: seq<Value>, i: nat, out: seq<Byte>, pos: nat, tail: nat)
    requires ShapedAll(ts, vs) && TypesOK(ts) && i < |ts|
    requires At(out, pos, Heads(ts, vs, tail)) && At(out, tail, Tails(ts, vs))
    ensures Shaped(ts[i], vs[i])
    ensures Placed(ts[i], vs[i], out, HeadPlace(ts, i, pos), TailPlace(ts, vs, i, tail))
    decreases i
  {
    FirstPlaced(ts, vs, out, pos, tail);
    if i > 0 {
      var next := TailAfter(ts[0], vs[0], tail);
      PlacedAt(ts[1..], vs[1..], i - 1, out, pos + TypeSize(ts[0]), next);
      assert ts[1..][i - 1] == ts[i] && vs[1..][i - 1] == vs[i];
      assert HeadPlace(ts, i, pos) == HeadPlace(ts[1..], i - 1, pos + TypeSize(ts[0]));
      assert TailPlace(ts, vs, i, tail) == TailPlace(ts[1..], vs[1..], i - 1, next);
    }
  }

  lemma {:induction false} LastTail(ts: seq<Type>, vs: seq<Value>, tail: nat)
    requires ShapedAll(ts, vs)
    ensures TailPlace(ts, vs, |ts|, tail) == tail + TailsSize(ts, vs)
    decreases vs
  {
    if vs != [] { LastTail(ts[1..], vs[1..], TailAfter(ts[0], vs[0], tail)); }
  }

  lemma {:induction false} LastHead(ts: seq<Type>, pos: nat)
    ensures HeadPlace(ts, |ts|, pos) == pos + HeadSize(ts)
    decreases ts
  {
    if ts != [] { LastHead(ts[1..], pos + TypeSize(ts[0])); }
  }

  /** The heads come first, in order; the head of a static value is the value, that of a dynamic one the place of its
      tail. The tails follow in order, with nothing between them and nothing behind the last. */
  lemma Layout(ts: seq<Type>, vs: seq<Value>, i: nat)
    requires ShapedAll(ts, vs) && TypesOK(ts) && i < |ts|
    ensures var tails := HeadPlace(ts, |ts|, 0);
            && |EncodeAll(ts, vs)| == TailPlace(ts, vs, |ts|, tails)
            && Shaped(ts[i], vs[i])
            && Placed(ts[i], vs[i], EncodeAll(ts, vs), HeadPlace(ts, i, 0), TailPlace(ts, vs, i, tails))
  {
    LastHead(ts, 0);
    Ends(ts, vs);
    StartsPlaced(ts, vs);
    PlacedAt(ts, vs, i, EncodeAll(ts, vs), 0, HeadSize(ts));
  }

  lemma Ends(ts: seq<Type>, vs: seq<Value>)
    requires ShapedAll(ts, vs) && TypesOK(ts)
    ensures |EncodeAll(ts, vs)| == TailPlace(ts, vs, |ts|, HeadSize(ts))
  {
    LastTail(ts, vs, HeadSize(ts));
    AllInWords(ts, vs);
  }

  lemma StartsPlaced(ts: seq<Type>, vs: seq<Value>)
    requires ShapedAll(ts, vs) && TypesOK(ts)
    ensures At(EncodeAll(ts, vs), 0, Heads(ts, vs, HeadSize(ts))) && At(EncodeAll(ts, vs), HeadSize(ts), Tails(ts, vs))
  {
    var heads, tails := Heads(ts, vs, HeadSize(ts)), Tails(ts, vs);
    HeadsSize(ts, vs, HeadSize(ts));
    assert At(heads + tails, 0, heads + tails);
    AtSplit(heads + tails, 0, heads, tails);
  }

  // ---- Which types are dynamic ----

  /** `s` is `t` or occurs in it. */
  ghost predicate Inside(s: Type, t: Type)
    decreases t
  {
    || s == t
    || (t.SliceTy? && Inside(s, t.elem))
    || (t.ArrayTy? && Inside(s, t.elem))
    || (t.TupleTy? && exists i :: 0 <= i < |t.fields| && Inside(s, t.fields[i]))
  }

  predicate OfNoFixedSize(t: Type) {
    t.StringTy? || t.BytesTy? || t.SliceTy?
  }

  /** A type is dynamic exactly when a string, a byte string or a slice occurs in it. */
  lemma {:induction false} DynamicExactly(t: Type)
    ensures IsDynamic(t) <==> exists s :: Inside(s, t) && OfNoFixedSize(s)
    decreases t, 1
  {
    if OfNoFixedSize(t) {
      assert Inside(t, t);
    } else if t.ArrayTy? {
      DynamicExactly(t.elem);
      if s :| Inside(s, t.elem) && OfNoFixedSize(s) { assert Inside(s, t); }
      if s :| Inside(s, t) && OfNoFixedSize(s) { assert Inside(s, t.elem); }
    } else if t.TupleTy? {
      AnyDynamicExactly(t.fields);
      if i, s :| 0 <= i < |t.fields| && Inside(s, t.fields[i]) && OfNoFixedSize(s) { assert Inside(s, t); }
    }
  }

  lemma {:induction false} AnyDynamicExactly(ts: seq<Type>)
    ensures AnyDynamic(ts) <==> exists i, s :: 0 <= i < |ts| && Inside(s, ts[i]) && OfNoFixedSize(s)
    decreases ts, 0
  {
    if ts != [] {
      DynamicExactly(ts[0]);
      AnyDynamicExactly(ts[1..]);
      if i, s :| 0 <= i < |ts| && Inside(s, ts[i]) && OfNoFixedSize(s) {
        if i > 0 { assert ts[1..][i - 1] == ts[i]; }
      }
      if i, s :| 0 <= i < |ts[1..]| && Inside(s, ts[1..][i]) && OfNoFixedSize(s) {
        assert ts[i + 1] == ts[1..][i];
      }
    }
  }
}
