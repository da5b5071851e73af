/** ABI types, values and their encoding (eth/abi/type.go, eth/abi/pack.go), as section "Formal
    Specification of the Encoding" of the Contract ABI Specification defines it. */
module AbiTypes {
  import opened Bytes

  /** Go's int has 63 bits for lengths. */
  const INT_MAX: nat := 0x8000_0000_0000_0000

  datatype Type =
    | IntTy(bits: nat)
    | UintTy(bits: nat)
    | BoolTy
    | StringTy
    | BytesTy
    | AddressTy
    | FixedBytesTy(size: nat)
    | FunctionTy
    | SliceTy(elem: Type)
    | ArrayTy(length: nat, elem: Type)
    | TupleTy(fields: seq<Type>)

  /** Strings, byte strings, addresses and functions are bytes; slices, arrays and tuples are lists. */
  datatype Value = IntV(n: int) | BoolV(b: bool) | BytesV(bytes: seq<Byte>) | ListV(items: seq<Value>)

  function Repeat(t: Type, n: nat): (ts: seq<Type>)
    ensures |ts| == n && forall x :: x in ts ==> x == t
  {
    seq(n, _ => t)
  }

  lemma RepeatTail(t: Type, n: nat)
    requires n > 0
    ensures Repeat(t, n)[0] == t && Repeat(t, n)[1..] == Repeat(t, n - 1)
  {}

  // ---- Sizes ----

  predicate IsDynamic(t: Type)
    decreases t
  {
    match t
    case TupleTy(ts) => AnyDynamic(ts)
    case ArrayTy(_, e) => IsDynamic(e)
    case _ => t.StringTy? || t.BytesTy? || t.SliceTy?
  }

  predicate AnyDynamic(ts: seq<Type>)
    decreases ts
  {
    ts != [] && (IsDynamic(ts[0]) || AnyDynamic(ts[1..]))
  }

  /** The bytes a value takes in the head: its whole encoding when it is static, an offset otherwise. */
  function TypeSize(t: Type): nat
    decreases t
  {
    match t
    case ArrayTy(n, e) =>
      if IsDynamic(e) then 32
      else if e.ArrayTy? || e.TupleTy? then n * TypeSize(e)
      else n * 32
    case TupleTy(ts) => if AnyDynamic(ts) then 32 else HeadSize(ts)
    case _ => 32
  }

  function HeadSize(ts: seq<Type>): nat
    decreases ts
  {
    if ts == [] then 0 else TypeSize(ts[0]) + HeadSize(ts[1..])
  }

  lemma {:induction false} HeadSizeRepeat(t: Type, n: nat)
    ensures HeadSize(Repeat(t, n)) == n * TypeSize(t)
    ensures AnyDynamic(Repeat(t, n)) <==> n > 0 && IsDynamic(t)
  {
    if n > 0 {
      RepeatTail(t, n);
      HeadSizeRepeat(t, n - 1);
      assert n * TypeSize(t) == TypeSize(t) + (n - 1) * TypeSize(t);
    }
  }

  // ---- Well-typed values ----

  /** The bytes an integer type has on the Go side: all but the four native widths are big integers. */
  function IntBytes(bits: nat): nat {
    if bits == 8 then 1 else if bits == 16 then 2 else if bits == 32 then 4 else if bits == 64 then 8 else 32
  }

  predicate IntInRange(n: int, k: nat) {
    0 <= 2 * n + Pow256(k) < 2 * Pow256(k)
  }

  predicate UintInRange(n: int, k: nat) {
    0 <= n < Pow256(k)
  }

  /** Fixed byte strings have at most 32 bytes. */
  predicate TypeOK(t: Type)
    decreases t
  {
    match t
    case FixedBytesTy(n) => n <= 32
    case SliceTy(e) => TypeOK(e)
    case ArrayTy(_, e) => TypeOK(e)
    case TupleTy(ts) => TypesOK(ts)
    case _ => true
  }

  predicate TypesOK(ts: seq<Type>)
    decreases ts
  {
    ts != [] ==> TypeOK(ts[0]) && TypesOK(ts[1..])
  }

  /** The value has the Go type that goes with `t`. Integers of the four native widths are in range by
      their Go type, big integers need not be. */
  predicate Shaped(t: Type, v: Value)
    decreases v, 1
  {
    match t
    case IntTy(bits) => v.IntV? && (IntBytes(bits) < 32 ==> IntInRange(v.n, IntBytes(bits)))
    case UintTy(bits) => v.IntV? && (IntBytes(bits) < 32 ==> UintInRange(v.n, IntBytes(bits)))
    case BoolTy => v.BoolV?
    case StringTy => v.BytesV?
    case BytesTy => v.BytesV?
    case AddressTy => v.BytesV? && |v.bytes| == 20
    case FixedBytesTy(n) => v.BytesV? && |v.bytes| == n
    case FunctionTy => v.BytesV? && |v.bytes| == 24
    case SliceTy(e) => v.ListV? && |v.items| < INT_MAX && ShapedAll(Repeat(e, |v.items|), v.items)
    case ArrayTy(n, e) => v.ListV? && |v.items| == n && ShapedAll(Repeat(e, n), v.items)
    case TupleTy(ts) => v.ListV? && ShapedAll(ts, v.items)
  }

  predicate ShapedAll(ts: seq<Type>, vs: seq<Value>)
    decreases vs, 0
  {
    |ts| == |vs| && (vs != [] ==> Shaped(ts[0], vs[0]) && ShapedAll(ts[1..], vs[1..]))
  }

  /** All integers are in the range of their types. */
  predicate InRange(t: Type, v: Value)
    requires Shaped(t, v)
    decreases v, 1
  {
    match t
    case IntTy(bits) => IntInRange(v.n, IntBytes(bits))
    case UintTy(bits) => UintInRange(v.n, IntBytes(bits))
    case SliceTy(e) => AllInRange(Repeat(e, |v.items|), v.items)
    case ArrayTy(n, e) => AllInRange(Repeat(e, n), v.items)
    case TupleTy(ts) => AllInRange(ts, v.items)
    case _ => true
  }

  predicate AllInRange(ts: seq<Type>, vs: seq<Value>)
    requires ShapedAll(ts, vs)
    decreases vs, 0
  {
    vs != [] ==> InRange(ts[0], vs[0]) && AllInRange(ts[1..], vs[1..])
  }

  // ---- The encoding ----

  function PadRight(s: seq<Byte>, n: nat): seq<Byte> {
    if |s| >= n then s else s + Zeros(n - |s|)
  }

  function PadLeft(s: seq<Byte>, n: nat): seq<Byte> {
    if |s| >= n then s else Zeros(n - |s|) + s
  }

  /** The next multiple of 32. */
  function RoundUp(n: nat): nat {
    (n + 31) / 32 * 32
  }

  /** A length, the bytes, and zeros up to a multiple of 32. */
  function BytesEncoding(s: seq<Byte>): seq<Byte> {
    BigEndian(|s|, 32) + PadRight(s, RoundUp(|s|))
  }

  function Encode(t: Type, v: Value): seq<Byte>
    requires Shaped(t, v)
    decreases v, 1
  {
    match t
    case IntTy(_) => BigEndian(v.n, 32)
    case UintTy(_) => BigEndian(v.n, 32)
    case BoolTy => BigEndian(if v.b then 1 else 0, 32)
    case StringTy => BytesEncoding(v.bytes)
    case BytesTy => BytesEncoding(v.bytes)
    case AddressTy => PadLeft(v.bytes, 32)
    case FixedBytesTy(_) => PadRight(v.bytes, 32)
    case FunctionTy => PadRight(v.bytes, 32)
    case SliceTy(e) => BigEndian(|v.items|, 32) + EncodeAll(Repeat(e, |v.items|), v.items)
    case ArrayTy(n, e) => EncodeAll(Repeat(e, n), v.items)
    case TupleTy(ts) => EncodeAll(ts, v.items)
  }

  /** All heads, then all tails. */
  function EncodeAll(ts: seq<Type>, vs: seq<Value>): seq<Byte>
    requires ShapedAll(ts, vs)
    decreases vs, 1
  {
    Heads(ts, vs, HeadSize(ts)) + Tails(ts, vs)
  }

  /** A static value is its own head; the head of a dynamic one is the offset of its tail. */
  function Heads(ts: seq<Type>, vs: seq<Value>, offset: nat): seq<Byte>
    requires ShapedAll(ts, vs)
    decreases vs, 0
  {
    if vs == [] then []
    else if IsDynamic(ts[0]) then
      BigEndian(offset, 32) + Heads(ts[1..], vs[1..], offset + |Encode(ts[0], vs[0])|)
    else
      Encode(ts[0], vs[0]) + Heads(ts[1..], vs[1..], offset)
  }

  function Tails(ts: seq<Type>, vs: seq<Value>): seq<Byte>
    requires ShapedAll(ts, vs)
    decreases vs, 0
  {
    if vs == [] then []
    else if IsDynamic(ts[0]) then Encode(ts[0], vs[0]) + Tails(ts[1..], vs[1..])
    else Tails(ts[1..], vs[1..])
  }

  /** Heads take exactly the room that was computed for them, and a static value exactly its size. */
  lemma {:induction false} EncodeSize(t: Type, v: Value)
    requires Shaped(t, v) && TypeOK(t)
    ensures !IsDynamic(t) ==> |Encode(t, v)| == TypeSize(t)
    decreases v, 1
  {
    match t {
      case ArrayTy(n, e) =>
        HeadSizeRepeat(e, n);
        RepeatOK(e, n);
        HeadsSize(Repeat(e, n), v.items, HeadSize(Repeat(e, n)));
        if !IsDynamic(e) {
          NoTails(Repeat(e, n), v.items);
          LeafSize(e);
        }
      case TupleTy(ts) =>
        HeadsSize(ts, v.items, HeadSize(ts));
        if !AnyDynamic(ts) { NoTails(ts, v.items); }
      case _ =>
    }
  }

  lemma LeafSize(t: Type)
    ensures !t.ArrayTy? && !t.TupleTy? ==> TypeSize(t) == 32
  {}

  lemma {:induction false} RepeatOK(t: Type, n: nat)
    requires TypeOK(t)
    ensures TypesOK(Repeat(t, n))
  {
    if n > 0 {
      RepeatTail(t, n);
      RepeatOK(t, n - 1);
    }
  }

  lemma {:induction false} HeadsSize(ts: seq<Type>, vs: seq<Value>, offset: nat)
    requires ShapedAll(ts, vs) && TypesOK(ts)
    ensures |Heads(ts, vs, offset)| == HeadSize(ts)
    decreases vs, 0
  {
    if vs != [] {
      EncodeSize(ts[0], vs[0]);
      HeadsSize(ts[1..], vs[1..], if IsDynamic(ts[0]) then offset + |Encode(ts[0], vs[0])| else offset);
      DynamicSize(ts[0]);
    }
  }

  lemma DynamicSize(t: Type)
    ensures IsDynamic(t) ==> TypeSize(t) == 32
  {}

  lemma {:induction false} NoTails(ts: seq<Type>, vs: seq<Value>)
    requires ShapedAll(ts, vs) && !AnyDynamic(ts)
    ensures Tails(ts, vs) == []
    decreases vs
  {
    if vs != [] { NoTails(ts[1..], vs[1..]); }
  }
}
