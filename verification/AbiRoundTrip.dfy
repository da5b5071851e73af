/** Decoding undoes encoding, and exactly when (eth/abi/argument.go, type.go and unpack.go together). */
module AbiRoundTrip {
  import opened Bytes
  import opened AbiTypes
  import opened AbiDecoding

  // ---- Leaves ----

  lemma WordRoundTrip(n: nat)
    requires n < INT_MAX
    ensures FromBigEndian(BigEndian(n, 32)) == n
    ensures FromBigEndian(BigEndian(n, 32)[24..]) == n
  {
    PowEight();
    FromToSmall(n, 8, 32);
  }

  /** What an integer comes back as: big integers outside the 256 bits wrap around. */
  function WrapInt(t: Type, n: int): int
    requires t.IntTy? || t.UintTy?
  {
    var p := Pow256(IntBytes(t.bits));
    if t.UintTy? then n % p else Signed(n % p, p)
  }

  lemma WrapUnsigned(n: int, p: nat)
    requires p > 0
    ensures n % p == n <==> 0 <= n < p
  {
    if 0 <= n < p { ModUnique(n, p, 0, n); }
  }

  lemma WrapSigned(n: int, p: nat)
    requires p > 0
    ensures Signed(n % p, p) == n <==> 0 <= 2 * n + p < 2 * p
  {
    if 0 <= 2 * n + p < 2 * p {
      if n < 0 { ModUnique(n, p, -1, n + p); } else { ModUnique(n, p, 0, n); }
    }
  }

  /** An integer comes back unchanged exactly when it is in the range of its type. */
  lemma WrapIntExact(t: Type, n: int)
    requires t.IntTy? || t.UintTy?
    ensures WrapInt(t, n) == n <==>
              if t.UintTy? then UintInRange(n, IntBytes(t.bits)) else IntInRange(n, IntBytes(t.bits))
  {
    WrapUnsigned(n, Pow256(IntBytes(t.bits)));
    WrapSigned(n, Pow256(IntBytes(t.bits)));
  }

  lemma LowBytes(n: int, k: nat, w: nat)
    requires k <= w
    ensures FromBigEndian(BigEndian(n, w)[w - k..]) == n % Pow256(k)
  {
    BigEndianSuffix(n, w, k);
    FromToBigEndian(n, k);
  }

  lemma IntRoundTrip(t: Type, n: int)
    requires t.IntTy? || t.UintTy?
    ensures ReadInteger(t, BigEndian(n, 32)) == WrapInt(t, n)
  {
    LowBytes(n, IntBytes(t.bits), 32);
  }

  lemma BoolRoundTrip(b: bool)
    ensures ReadBool(BigEndian(if b then 1 else 0, 32)) == Ok(BoolV(b))
  {
    var n := if b then 1 else 0;
    assert BigEndian(n, 32) == BigEndian(0, 31) + [n];
    BigEndianZero(31);
  }

  lemma {:induction false} ZerosValue(k: nat)
    ensures FromBigEndian(Zeros(k)) == 0
  {
    if k > 0 {
      assert Zeros(k)[..k - 1] == Zeros(k - 1);
      ZerosValue(k - 1);
    }
  }

  predicate IsLeaf(t: Type) {
    !t.StringTy? && !t.BytesTy? && !t.SliceTy? && !t.ArrayTy? && !t.TupleTy?
  }

  /** What a value comes back as: itself, but for integers that wrap around. */
  function Wrap(t: Type, v: Value): Value
    requires Shaped(t, v)
    decreases v, 1
  {
    match t
    case IntTy(_) => IntV(WrapInt(t, v.n))
    case UintTy(_) => IntV(WrapInt(t, v.n))
    case SliceTy(e) => ListV(WrapAll(Repeat(e, |v.items|), v.items))
    case ArrayTy(n, e) => ListV(WrapAll(Repeat(e, n), v.items))
    case TupleTy(ts) => ListV(WrapAll(ts, v.items))
    case _ => v
  }

  function WrapAll(ts: seq<Type>, vs: seq<Value>): (ws: seq<Value>)
    requires ShapedAll(ts, vs)
    ensures |ws| == |vs|
    decreases vs, 0
  {
    if vs == [] then [] else [Wrap(ts[0], vs[0])] + WrapAll(ts[1..], vs[1..])
  }

  /** Exactly the values with all integers in range come back unchanged. */
  lemma {:induction false} WrapExact(t: Type, v: Value)
    requires Shaped(t, v)
    ensures Wrap(t, v) == v <==> InRange(t, v)
    decreases v, 1
  {
    match t {
      case IntTy(_) => WrapIntExact(t, v.n);
      case UintTy(_) => WrapIntExact(t, v.n);
      case SliceTy(e) => WrapAllExact(Repeat(e, |v.items|), v.items);
      case ArrayTy(n, e) => WrapAllExact(Repeat(e, n), v.items);
      case TupleTy(ts) => WrapAllExact(ts, v.items);
      case _ =>
    }
  }

  lemma {:induction false} WrapAllExact(ts: seq<Type>, vs: seq<Value>)
    requires ShapedAll(ts, vs)
    ensures WrapAll(ts, vs) == vs <==> AllInRange(ts, vs)
    decreases vs, 0
  {
    if vs != [] {
      WrapExact(ts[0], vs[0]);
      WrapAllExact(ts[1..], vs[1..]);
      var ws := WrapAll(ts, vs);
      assert ws[0] == Wrap(ts[0], vs[0]) && ws[1..] == WrapAll(ts[1..], vs[1..]);
      assert vs == [vs[0]] + vs[1..];
    }
  }

  lemma LeafRoundTrip(t: Type, v: Value)
    requires IsLeaf(t) && TypeOK(t) && Shaped(t, v)
    ensures |Encode(t, v)| == 32 && ReadWord(t, Encode(t, v)) == Ok(Wrap(t, v))
  {
    match t {
      case IntTy(_) => IntRoundTrip(t, v.n);
      case UintTy(_) => IntRoundTrip(t, v.n);
      case BoolTy => BoolRoundTrip(v.b);
      case FunctionTy =>
        assert Encode(t, v)[24..] == Zeros(8);
        ZerosValue(8);
        assert Encode(t, v)[..24] == v.bytes;
      case AddressTy => assert Encode(t, v)[12..] == v.bytes;
      case FixedBytesTy(n) => assert Encode(t, v)[..n] == v.bytes;
    }
  }

  // ---- How far the decoder looks ----

  function Max(a: nat, b: nat): nat {
    if a > b then a else b
  }

  /** How many bytes from the start of the encoding of `v` on the decoder insists on. It asks for at
      least 32 bytes for everything, also for a static value that takes none. */
  function Reach(t: Type, v: Value): nat
    requires Shaped(t, v)
    decreases v, 1
  {
    match t
    case StringTy => 32 + |v.bytes|
    case BytesTy => 32 + |v.bytes|
    case SliceTy(e) => 32 + ListReach(e, v.items)
    case ArrayTy(n, e) => if IsDynamic(e) then ListReach(e, v.items) else Max(32, ListReach(e, v.items))
    case TupleTy(ts) =>
      var inner := ReachAll(ts, v.items, 0, HeadSize(ts));
      if AnyDynamic(ts) then inner else Max(32, inner)
    case _ => 32
  }

  function ListReach(e: Type, vs: seq<Value>): nat
    requires ShapedAll(Repeat(e, |vs|), vs)
    decreases vs, 1
  {
    var ts := Repeat(e, |vs|);
    Max(32 * |vs|, ReachAll(ts, vs, 0, HeadSize(ts)))
  }

  /** The same for values whose heads start at `pos` and whose tails start at `tail`. */
  function ReachAll(ts: seq<Type>, vs: seq<Value>, pos: nat, tail: nat): nat
    requires ShapedAll(ts, vs)
    decreases vs, 0
  {
    if vs == [] then 0
    else Max(ReachFrom(ts[0], vs[0], pos, tail),
             ReachAll(ts[1..], vs[1..], pos + TypeSize(ts[0]), TailAfter(ts[0], vs[0], tail)))
  }

  function ReachFrom(t: Type, v: Value, index: nat, tail: nat): nat
    requires Shaped(t, v)
    decreases v, 2
  {
    (if IsDynamic(t) then tail else index) + Reach(t, v)
  }

  function TailAfter(t: Type, v: Value, tail: nat): nat
    requires Shaped(t, v)
  {
    if IsDynamic(t) then tail + |Encode(t, v)| else tail
  }

  // ---- The round trip ----

  lemma AtSplit(out: seq<Byte>, p: nat, a: seq<Byte>, b: seq<Byte>)
    requires At(out, p, a + b)
    ensures At(out, p, a) && At(out, p + |a|, b)
  {
    assert (a + b)[..|a|] == a && (a + b)[|a|..] == b;
    assert out[p..p + |a + b|][..|a|] == out[p..p + |a|];
    assert out[p..p + |a + b|][|a|..] == out[p + |a|..p + |a + b|];
  }

  lemma AtTail(out: seq<Byte>, p: nat, q: nat, s: seq<Byte>)
    requires q <= p && At(out, p, s)
    ensures At(out[q..], p - q, s)
  {
    assert out[q..][p - q..p - q + |s|] == out[p..p + |s|];
  }

  /** Where the head of `v` is, and, when it is dynamic, where its offset points to. */
  ghost predicate Placed(t: Type, v: Value, out: seq<Byte>, index: nat, tail: nat)
    requires Shaped(t, v)
  {
    if IsDynamic(t) then At(out, index, BigEndian(tail, 32)) && At(out, tail, Encode(t, v))
    else At(out, index, Encode(t, v))
  }

  /** A placed value is decoded, or, when the input ends too early, refused. */
  lemma {:induction false} DecodesPlaced(t: Type, v: Value, out: seq<Byte>, index: nat, tail: nat)
    requires Shaped(t, v) && TypeOK(t) && |out| < INT_MAX && Placed(t, v, out, index, tail)
    ensures DecodeAt(t, out, index) == if ReachFrom(t, v, index, tail) <= |out| then Ok(Wrap(t, v)) else Err
    decreases v, 2
  {
    match t {
      case StringTy => DecodesBytes(v.bytes, RoundUp(|v.bytes|), out, index, tail);
      case BytesTy => DecodesBytes(v.bytes, RoundUp(|v.bytes|), out, index, tail);
      case SliceTy(e) => DecodesSlice(t, v, out, index, tail);
      case ArrayTy(n, e) => DecodesArray(t, v, out, index, tail);
      case TupleTy(ts) => DecodesTuple(t, v, out, index, tail);
      case _ => LeafRoundTrip(t, v);
    }
  }

  lemma PaddedPlaced(s: seq<Byte>, m: nat, out: seq<Byte>, p: nat)
    requires At(out, p, PadRight(s, m))
    ensures At(out, p, s)
  {
    var padded := PadRight(s, m);
    assert padded == s + padded[|s|..];
    AtSplit(out, p, s, padded[|s|..]);
  }

  /** The bytes themselves follow their length, whatever the padding. */
  lemma BytesPlaced(s: seq<Byte>, m: nat, out: seq<Byte>, tail: nat)
    requires At(out, tail, BigEndian(|s|, 32) + PadRight(s, m))
    ensures At(out, tail, BigEndian(|s|, 32)) && At(out, tail + 32, s)
  {
    AtSplit(out, tail, BigEndian(|s|, 32), PadRight(s, m));
    PaddedPlaced(s, m, out, tail + 32);
  }

  lemma PrefixPlaced(n: nat, out: seq<Byte>, index: nat, tail: nat)
    requires At(out, index, BigEndian(tail, 32)) && At(out, tail, BigEndian(n, 32))
    requires tail < INT_MAX && n < INT_MAX && |out| < INT_MAX
    ensures LengthPrefixPointsTo(out, index) ==
              if tail + 32 + n <= |out| then Ok(Range(tail + 32, n)) else Err
  {
    WordRoundTrip(tail);
    WordRoundTrip(n);
  }

  lemma CutsBytes(s: seq<Byte>, out: seq<Byte>, index: nat, begin: nat)
    requires index + 32 <= |out| && LengthPrefixPointsTo(out, index) == Ok(Range(begin, |s|)) && At(out, begin, s)
    ensures DecodeBytes(out, index) == Ok(BytesV(s))
  {}

  lemma DecodesBytes(s: seq<Byte>, m: nat, out: seq<Byte>, index: nat, tail: nat)
    requires |out| < INT_MAX && At(out, index, BigEndian(tail, 32))
    requires At(out, tail, BigEndian(|s|, 32) + PadRight(s, m))
    ensures DecodeBytes(out, index) == Ok(BytesV(s)) && tail + 32 + |s| <= |out|
  {
    BytesPlaced(s, m, out, tail);
    PrefixPlaced(|s|, out, index, tail);
    CutsBytes(s, out, index, tail + 32);
  }

  lemma {:induction false} DecodesSlice(t: Type, v: Value, out: seq<Byte>, index: nat, tail: nat)
    requires t.SliceTy? && Shaped(t, v) && TypeOK(t) && |out| < INT_MAX && Placed(t, v, out, index, tail)
    ensures DecodeAt(t, out, index) == if tail + Reach(t, v) <= |out| then Ok(Wrap(t, v)) else Err
    decreases v, 1
  {
    var n := |v.items|;
    var body := EncodeAll(Repeat(t.elem, n), v.items);
    AtSplit(out, tail, BigEndian(n, 32), body);
    AtTail(out, tail + 32, tail + 32, body);
    PrefixPlaced(n, out, index, tail);
    DecodesList(t.elem, v.items, out[tail + 32..]);
  }

  lemma {:induction false} DecodesArray(t: Type, v: Value, out: seq<Byte>, index: nat, tail: nat)
    requires t.ArrayTy? && Shaped(t, v) && TypeOK(t) && |out| < INT_MAX && Placed(t, v, out, index, tail)
    ensures DecodeAt(t, out, index) == if ReachFrom(t, v, index, tail) <= |out| then Ok(Wrap(t, v)) else Err
    decreases v, 1
  {
    var at := if IsDynamic(t.elem) then tail else index;
    AtTail(out, at, at, Encode(t, v));
    if IsDynamic(t.elem) { WordRoundTrip(tail); }
    DecodesList(t.elem, v.items, out[at..]);
  }

  lemma {:induction false} DecodesTuple(t: Type, v: Value, out: seq<Byte>, index: nat, tail: nat)
    requires t.TupleTy? && Shaped(t, v) && TypeOK(t) && |out| < INT_MAX && Placed(t, v, out, index, tail)
    ensures DecodeAt(t, out, index) == if ReachFrom(t, v, index, tail) <= |out| then Ok(Wrap(t, v)) else Err
    decreases v, 1
  {
    var at := if AnyDynamic(t.fields) then tail else index;
    AtTail(out, at, at, Encode(t, v));
    if AnyDynamic(t.fields) { WordRoundTrip(tail); }
    DecodesEncoded(t.fields, v.items, out[at..]);
  }

  lemma {:induction false} DecodesList(e: Type, vs: seq<Value>, out: seq<Byte>)
    requires ShapedAll(Repeat(e, |vs|), vs) && TypeOK(e) && |out| < INT_MAX
    requires At(out, 0, EncodeAll(Repeat(e, |vs|), vs))
    ensures DecodeList(e, out, |vs|) ==
              if ListReach(e, vs) <= |out| then Ok(ListV(WrapAll(Repeat(e, |vs|), vs))) else Err
    decreases vs, 2
  {
    RepeatOK(e, |vs|);
    DecodesEncoded(Repeat(e, |vs|), vs, out);
  }

  lemma {:induction false} DecodesEncoded(ts: seq<Type>, vs: seq<Value>, out: seq<Byte>)
    requires ShapedAll(ts, vs) && TypesOK(ts) && |out| < INT_MAX && At(out, 0, EncodeAll(ts, vs))
    ensures DecodeAll(ts, out, 0) == if ReachAll(ts, vs, 0, HeadSize(ts)) <= |out| then Ok(WrapAll(ts, vs)) else Err
    decreases vs, 1
  {
    HeadsSize(ts, vs, HeadSize(ts));
    AtSplit(out, 0, Heads(ts, vs, HeadSize(ts)), Tails(ts, vs));
    DecodesAll(ts, vs, out, 0, HeadSize(ts));
  }

  lemma FirstPlaced(ts: seq<Type>, vs: seq<Value>, out: seq<Byte>, pos: nat, tail: nat)
    requires ShapedAll(ts, vs) && TypesOK(ts) && vs != []
    requires At(out, pos, Heads(ts, vs, tail)) && At(out, tail, Tails(ts, vs))
    ensures Placed(ts[0], vs[0], out, pos, tail)
    ensures var after := TailAfter(ts[0], vs[0], tail);
            && At(out, pos + TypeSize(ts[0]), Heads(ts[1..], vs[1..], after))
            && At(out, after, Tails(ts[1..], vs[1..]))
  {
    var t, v, enc := ts[0], vs[0], Encode(ts[0], vs[0]);
    DynamicSize(t);
    EncodeSize(t, v);
    var rest := Heads(ts[1..], vs[1..], TailAfter(t, v, tail));
    if IsDynamic(t) {
      assert Heads(ts, vs, tail) == BigEndian(tail, 32) + rest;
      AtSplit(out, pos, BigEndian(tail, 32), rest);
      AtSplit(out, tail, enc, Tails(ts[1..], vs[1..]));
    } else {
      assert Heads(ts, vs, tail) == enc + rest;
      AtSplit(out, pos, enc, rest);
    }
  }

  lemma {:induction false} DecodesAll(ts: seq<Type>, vs: seq<Value>, out: seq<Byte>, pos: nat, tail: nat)
    requires ShapedAll(ts, vs) && TypesOK(ts) && |out| < INT_MAX
    requires At(out, pos, Heads(ts, vs, tail)) && At(out, tail, Tails(ts, vs))
    ensures DecodeAll(ts, out, pos) == if ReachAll(ts, vs, pos, tail) <= |out| then Ok(WrapAll(ts, vs)) else Err
    decreases vs, 0
  {
    if vs != [] {
      var t, v := ts[0], vs[0];
      FirstPlaced(ts, vs, out, pos, tail);
      DecodesPlaced(t, v, out, pos, tail);
      DecodesAll(ts[1..], vs[1..], out, pos + TypeSize(t), TailAfter(t, v, tail));
    }
  }

  // ---- Types without empty static parts ----

  /** No static value of the type is encoded in zero bytes. */
  predicate Solid(t: Type)
    decreases t
  {
    match t
    case SliceTy(e) => Solid(e)
    case ArrayTy(n, e) => (IsDynamic(e) || n > 0) && Solid(e)
    case TupleTy(ts) => ts != [] && AllSolid(ts)
    case _ => true
  }

  predicate AllSolid(ts: seq<Type>)
    decreases ts
  {
    ts != [] ==> Solid(ts[0]) && AllSolid(ts[1..])
  }

  lemma {:induction false} RepeatSolid(t: Type, n: nat)
    requires Solid(t)
    ensures AllSolid(Repeat(t, n))
  {
    if n > 0 {
      RepeatTail(t, n);
      RepeatSolid(t, n - 1);
    }
  }

  lemma {:induction false} SolidSize(t: Type)
    requires Solid(t)
    ensures TypeSize(t) >= 32
    decreases t
  {
    match t {
      case ArrayTy(n, e) =>
        if !IsDynamic(e) {
          SolidSize(e);
          LeafSize(e);
          assert n * TypeSize(e) >= TypeSize(e) by { assert (n - 1) * TypeSize(e) >= 0; }
        }
      case TupleTy(ts) => SolidSize(ts[0]);
      case _ =>
    }
  }

  /** The decoder never looks past the encoding of a solid type. */
  lemma {:induction false} SolidReach(t: Type, v: Value)
    requires Shaped(t, v) && TypeOK(t) && Solid(t)
    ensures Reach(t, v) <= |Encode(t, v)|
    decreases v, 1
  {
    EncodeSize(t, v);
    if !IsDynamic(t) { SolidSize(t); }
    match t {
      case SliceTy(e) => SolidListReach(e, v.items);
      case ArrayTy(n, e) => SolidListReach(e, v.items);
      case TupleTy(ts) => SolidReachEncoded(ts, v.items);
      case _ => if IsLeaf(t) { LeafRoundTrip(t, v); }
    }
  }

  lemma {:induction false} SolidListReach(e: Type, vs: seq<Value>)
    requires ShapedAll(Repeat(e, |vs|), vs) && TypeOK(e) && Solid(e)
    ensures ListReach(e, vs) <= |EncodeAll(Repeat(e, |vs|), vs)|
    decreases vs, 3
  {
    var n, ts := |vs|, Repeat(e, |vs|);
    RepeatOK(e, n);
    RepeatSolid(e, n);
    SolidReachEncoded(ts, vs);
    HeadSizeRepeat(e, n);
    HeadsSize(ts, vs, HeadSize(ts));
    SolidSize(e);
    WordsFit(n, TypeSize(e));
  }

  lemma WordsFit(n: nat, size: nat)
    requires size >= 32
    ensures 32 * n <= n * size
  {
    assert n * (size - 32) >= 0;
  }

  lemma {:induction false} SolidReachEncoded(ts: seq<Type>, vs: seq<Value>)
    requires ShapedAll(ts, vs) && TypesOK(ts) && AllSolid(ts)
    ensures ReachAll(ts, vs, 0, HeadSize(ts)) <= |EncodeAll(ts, vs)|
    decreases vs, 2
  {
    SolidReachAll(ts, vs, 0, HeadSize(ts));
    HeadsSize(ts, vs, HeadSize(ts));
  }

  lemma {:induction false} SolidReachAll(ts: seq<Type>, vs: seq<Value>, pos: nat, tail: nat)
    requires ShapedAll(ts, vs) && TypesOK(ts) && AllSolid(ts) && pos + HeadSize(ts) <= tail
    ensures ReachAll(ts, vs, pos, tail) <= tail + |Tails(ts, vs)|
    decreases vs, 0
  {
    if vs != [] {
      var t, v := ts[0], vs[0];
      SolidReach(t, v);
      EncodeSize(t, v);
      assert ReachFrom(t, v, pos, tail) <= tail + |Tails(ts, vs)|;
      SolidReachAll(ts[1..], vs[1..], pos + TypeSize(t), TailAfter(t, v, tail));
      assert TailAfter(t, v, tail) + |Tails(ts[1..], vs[1..])| == tail + |Tails(ts, vs)|;
    }
  }

  // ---- Argument lists ----

  /** Packing a list of arguments and unpacking it again gives the arguments back, big integers wrapped
      around, exactly when the decoder does not look past the end of what was packed. */
  lemma EncodedComesBack(ts: seq<Type>, vs: seq<Value>)
    requires ShapedAll(ts, vs) && TypesOK(ts) && |EncodeAll(ts, vs)| < INT_MAX
    ensures DecodeAll(ts, EncodeAll(ts, vs), 0) ==
              if ReachAll(ts, vs, 0, HeadSize(ts)) <= |EncodeAll(ts, vs)| then Ok(WrapAll(ts, vs)) else Err
  {
    DecodesEncoded(ts, vs, EncodeAll(ts, vs));
  }

  /** So the arguments themselves come back exactly when in addition all integers are in range. */
  lemma RoundTripExactly(ts: seq<Type>, vs: seq<Value>)
    requires ShapedAll(ts, vs) && TypesOK(ts) && |EncodeAll(ts, vs)| < INT_MAX
    ensures DecodeAll(ts, EncodeAll(ts, vs), 0) == Ok(vs) <==>
              AllInRange(ts, vs) && ReachAll(ts, vs, 0, HeadSize(ts)) <= |EncodeAll(ts, vs)|
  {
    EncodedComesBack(ts, vs);
    WrapAllExact(ts, vs);
  }

  /** Every list of in-range arguments without empty static parts comes back. */
  lemma SolidRoundTrip(ts: seq<Type>, vs: seq<Value>)
    requires ShapedAll(ts, vs) && TypesOK(ts) && AllSolid(ts) && |EncodeAll(ts, vs)| < INT_MAX
    ensures DecodeAll(ts, EncodeAll(ts, vs), 0) == Ok(WrapAll(ts, vs))
    ensures DecodeAll(ts, EncodeAll(ts, vs), 0) == Ok(vs) <==> AllInRange(ts, vs)
  {
    SolidReachEncoded(ts, vs);
    EncodedComesBack(ts, vs);
    WrapAllExact(ts, vs);
  }

  /** Distinct in-range arguments have distinct encodings. */
  lemma EncodingIsInjective(ts: seq<Type>, vs: seq<Value>, ws: seq<Value>)
    requires ShapedAll(ts, vs) && ShapedAll(ts, ws) && TypesOK(ts) && AllSolid(ts)
    requires AllInRange(ts, vs) && AllInRange(ts, ws)
    requires |EncodeAll(ts, vs)| < INT_MAX && EncodeAll(ts, vs) == EncodeAll(ts, ws)
    ensures vs == ws
  {
    SolidRoundTrip(ts, vs);
    SolidRoundTrip(ts, ws);
  }

  /** An empty tuple as the only argument is lost: the decoder asks for 32 bytes and there are none. */
  lemma EmptyTupleAlone()
    ensures var ts: seq<Type>, vs: seq<Value> := [TupleTy([])], [ListV([])];
            ShapedAll(ts, vs) && DecodeAll(ts, EncodeAll(ts, vs), 0) == Err
  {
    var ts: seq<Type>, vs: seq<Value> := [TupleTy([])], [ListV([])];
    assert Shaped(ts[0], vs[0]) && ts[1..] == [] && vs[1..] == [];
    assert TypeSize(ts[0]) == 0 && HeadSize(ts) == 0;
    HeadsSize(ts, vs, 0);
    NoTails(ts, vs);
    assert DecodeAt(ts[0], [], 0) == Err;
  }

  /** A single unsigned integer is packed into one word ... */
  lemma OneWord(n: int, offset: nat)
    ensures var ts, vs := [UintTy(256)], [IntV(n)];
            && ShapedAll(ts, vs) && TypesOK(ts) && AllSolid(ts) && HeadSize(ts) == 32 && !AnyDynamic(ts)
            && Heads(ts, vs, offset) == BigEndian(n, 32) && EncodeAll(ts, vs) == BigEndian(n, 32)
  {
    var ts, vs := [UintTy(256)], [IntV(n)];
    assert ts[1..] == [] && vs[1..] == [] && Shaped(ts[0], vs[0]);
    assert HeadSize([]) == 0;
    NoTails(ts, vs);
    assert Heads([], [], offset) == [] && Heads([], [], 32) == [];
    assert Heads(ts, vs, offset) == BigEndian(n, 32) + [] && Heads(ts, vs, 32) == BigEndian(n, 32) + [];
  }

  /** ... and one out of range does not come back: minus one is such an integer. */
  lemma NegativeIntegerIsLost()
    ensures var ts, vs := [UintTy(256)], [IntV(-1)];
            ShapedAll(ts, vs) && DecodeAll(ts, EncodeAll(ts, vs), 0) == Ok(WrapAll(ts, vs)) != Ok(vs)
  {
    OneWord(-1, 0);
    SolidRoundTrip([UintTy(256)], [IntV(-1)]);
  }
}
