/** Packing and unpacking as the loops do it (eth/abi/type.go, eth/abi/argument.go, eth/abi/unpack.go). */
module AbiCodec {
  import opened Bytes
  import opened AbiTypes
  import opened AbiLayout
  import opened AbiDecoding
  import opened AbiRoundTrip

  // ---- Packing ----

  function Packed(t: Type, v: Value): Outcome<seq<Byte>> {
    if Shaped(t, v) then Ok(Encode(t, v)) else Err
  }

  function PackedAll(ts: seq<Type>, vs: seq<Value>): Outcome<seq<Byte>> {
    if ShapedAll(ts, vs) then Ok(EncodeAll(ts, vs)) else Err
  }

  /** The loops have dealt with the first `i` values: `ret` and `tail` are what the rest continues. */
  ghost predicate PackedSoFar(ts: seq<Type>, vs: seq<Value>, i: nat, ret: seq<Byte>, tail: seq<Byte>, offset: nat)
    requires i <= |ts| == |vs|
  {
    && (ShapedAll(ts, vs) <==> ShapedAll(ts[i..], vs[i..]))
    && (ShapedAll(ts, vs) ==>
          && ret + Heads(ts[i..], vs[i..], offset) == Heads(ts, vs, HeadSize(ts))
          && tail + Tails(ts[i..], vs[i..]) == Tails(ts, vs))
  }

  lemma PackStart(ts: seq<Type>, vs: seq<Value>)
    requires |ts| == |vs|
    ensures PackedSoFar(ts, vs, 0, [], [], HeadSize(ts))
  {
    assert ts[0..] == ts && vs[0..] == vs;
    if ShapedAll(ts, vs) {
      var h, t := Heads(ts, vs, HeadSize(ts)), Tails(ts, vs);
      assert [] + h == h && [] + t == t;
    }
  }

  lemma PackStops(ts: seq<Type>, vs: seq<Value>, i: nat, ret: seq<Byte>, tail: seq<Byte>, offset: nat)
    requires i < |ts| == |vs| && PackedSoFar(ts, vs, i, ret, tail, offset) && !Shaped(ts[i], vs[i])
    ensures !ShapedAll(ts, vs)
  {
    assert ts[i..][0] == ts[i] && vs[i..][0] == vs[i];
  }

  lemma PackStep(ts: seq<Type>, vs: seq<Value>, i: nat, ret: seq<Byte>, tail: seq<Byte>, offset: nat)
    requires i < |ts| == |vs| && PackedSoFar(ts, vs, i, ret, tail, offset) && Shaped(ts[i], vs[i])
    ensures var enc := Encode(ts[i], vs[i]);
            if IsDynamic(ts[i]) then
              PackedSoFar(ts, vs, i + 1, ret + BigEndian(offset, 32), tail + enc, offset + |enc|)
            else
              PackedSoFar(ts, vs, i + 1, ret + enc, tail, offset)
  {
    var us, ws, enc := ts[i..], vs[i..], Encode(ts[i], vs[i]);
    assert us[0] == ts[i] && ws[0] == vs[i] && us[1..] == ts[i + 1..] && ws[1..] == vs[i + 1..];
    if ShapedAll(us, ws) {
      if IsDynamic(ts[i]) {
        Associate(ret, BigEndian(offset, 32), Heads(us[1..], ws[1..], offset + |enc|));
        Associate(tail, enc, Tails(us[1..], ws[1..]));
      } else {
        Associate(ret, enc, Heads(us[1..], ws[1..], offset));
      }
    }
  }

  lemma Associate(a: seq<Byte>, b: seq<Byte>, c: seq<Byte>)
    ensures (a + b) + c == a + (b + c)
  {}

  lemma PackEnd(ts: seq<Type>, vs: seq<Value>, ret: seq<Byte>, tail: seq<Byte>, offset: nat)
    requires |ts| == |vs| && PackedSoFar(ts, vs, |ts|, ret, tail, offset)
    ensures PackedAll(ts, vs) == Ok(ret + tail)
  {
    assert ts[|ts|..] == [] && vs[|ts|..] == [];
    assert ret + [] == ret && tail + [] == tail;
  }

  method PackValue(t: Type, v: Value) returns (r: Outcome<seq<Byte>>)
    ensures r == Packed(t, v)
    decreases v, 2
  {
    match t {
      case SliceTy(e) =>
        if !v.ListV? || |v.items| >= INT_MAX { return Err; }
        var length := U256Bytes(|v.items|);
        var items := PackList(e, v.items);
        return if items.Ok? then Ok(length + items.value) else Err;
      case ArrayTy(n, e) =>
        if !v.ListV? || |v.items| != n { return Err; }
        r := PackList(e, v.items);
      case TupleTy(ts) =>
        if !v.ListV? { return Err; }
        r := PackTuple(ts, v.items);
      case _ => r := PackElement(t, v);
    }
  }

  /** A leaf, a string or a byte string. */
  method PackElement(t: Type, v: Value) returns (r: Outcome<seq<Byte>>)
    requires !t.SliceTy? && !t.ArrayTy? && !t.TupleTy?
    ensures r == Packed(t, v)
  {
    if !Shaped(t, v) { return Err; }
    match t {
      case IntTy(_) =>
        var word := U256Bytes(v.n);
        return Ok(word);
      case UintTy(_) =>
        var word := U256Bytes(v.n);
        return Ok(word);
      case BoolTy =>
        var word := U256Bytes(if v.b then 1 else 0);
        return Ok(word);
      case AddressTy => return Ok(PadLeft(v.bytes, 32));
      case FixedBytesTy(_) => return Ok(PadRight(v.bytes, 32));
      case FunctionTy => return Ok(PadRight(v.bytes, 32));
      case StringTy => r := PackBytesSlice(v.bytes);
      case BytesTy => r := PackBytesSlice(v.bytes);
    }
  }

  method PackBytesSlice(s: seq<Byte>) returns (r: Outcome<seq<Byte>>)
    ensures r == Ok(BytesEncoding(s)) && BytesOf(s, r.value)
  {
    BytesLayout(s);
    var length := U256Bytes(|s|);
    return Ok(length + PadRight(s, RoundUp(|s|)));
  }

  /** The same for the elements of a slice or an array, whose offsets are only kept when they are needed. */
  ghost predicate ListSoFar(e: Type, vs: seq<Value>, i: nat, ret: seq<Byte>, tail: seq<Byte>, offset: nat)
    requires i <= |vs|
  {
    exists at: nat ::
      PackedSoFar(Repeat(e, |vs|), vs, i, ret, tail, at) && (IsDynamic(e) ==> offset == at)
  }

  lemma ListStart(e: Type, vs: seq<Value>)
    ensures ListSoFar(e, vs, 0, [], [], if IsDynamic(e) then TypeSize(e) * |vs| else 0)
  {
    PackStart(Repeat(e, |vs|), vs);
    HeadSizeRepeat(e, |vs|);
  }

  lemma ListStep(e: Type, vs: seq<Value>, i: nat, ret: seq<Byte>, tail: seq<Byte>, offset: nat)
    requires i < |vs| && ListSoFar(e, vs, i, ret, tail, offset)
    ensures !Shaped(e, vs[i]) ==> !ShapedAll(Repeat(e, |vs|), vs)
    ensures Shaped(e, vs[i]) ==>
              var enc := Encode(e, vs[i]);
              if IsDynamic(e) then
                ListSoFar(e, vs, i + 1, ret + BigEndian(offset, 32), tail + enc, offset + |enc|)
              else
                ListSoFar(e, vs, i + 1, ret + enc, tail, offset)
  {
    var ts := Repeat(e, |vs|);
    var at: nat :| PackedSoFar(ts, vs, i, ret, tail, at) && (IsDynamic(e) ==> offset == at);
    if Shaped(e, vs[i]) { PackStep(ts, vs, i, ret, tail, at); } else { PackStops(ts, vs, i, ret, tail, at); }
  }

  lemma ListEnd(e: Type, vs: seq<Value>, ret: seq<Byte>, tail: seq<Byte>, offset: nat)
    requires ListSoFar(e, vs, |vs|, ret, tail, offset)
    ensures PackedAll(Repeat(e, |vs|), vs) == Ok(ret + tail)
  {
    var ts := Repeat(e, |vs|);
    var at: nat :| PackedSoFar(ts, vs, |vs|, ret, tail, at) && (IsDynamic(e) ==> offset == at);
    PackEnd(ts, vs, ret, tail, at);
  }

  /** The elements of a slice or an array. */
  method PackList(e: Type, vs: seq<Value>) returns (r: Outcome<seq<Byte>>)
    ensures r == PackedAll(Repeat(e, |vs|), vs)
    decreases vs, 1
  {
    var offset: nat, offsetReq := 0, IsDynamic(e);
    if offsetReq { offset := TypeSize(e) * |vs|; }
    var ret: seq<Byte>, tail: seq<Byte> := [], [];
    ListStart(e, vs);
    for i := 0 to |vs|
      invariant ListSoFar(e, vs, i, ret, tail, offset)
    {
      ListStep(e, vs, i, ret, tail, offset);
      var val := PackValue(e, vs[i]);
      if !val.Ok? { return Err; }
      if !offsetReq {
        ret := ret + val.value;
      } else {
        var word := U256Bytes(offset);
        ret := ret + word;
        offset := offset + |val.value|;
        tail := tail + val.value;
      }
    }
    ListEnd(e, vs, ret, tail, offset);
    return Ok(ret + tail);
  }

  /** The bytes that all heads take together. */
  method PrefixSize(ts: seq<Type>) returns (size: nat)
    ensures size == HeadSize(ts)
  {
    size := 0;
    assert ts[0..] == ts;
    for i := 0 to |ts|
      invariant size + HeadSize(ts[i..]) == HeadSize(ts)
    {
      assert ts[i..][0] == ts[i] && ts[i..][1..] == ts[i + 1..];
      size := size + TypeSize(ts[i]);
    }
  }

  /** The fields of a tuple. */
  method PackTuple(ts: seq<Type>, vs: seq<Value>) returns (r: Outcome<seq<Byte>>)
    ensures r == PackedAll(ts, vs)
    decreases vs, 1
  {
    if |ts| != |vs| { return Err; }
    var offset: nat := PrefixSize(ts);
    var ret: seq<Byte>, tail: seq<Byte> := [], [];
    PackStart(ts, vs);
    for i := 0 to |ts|
      invariant PackedSoFar(ts, vs, i, ret, tail, offset)
    {
      var val := PackValue(ts[i], vs[i]);
      if !val.Ok? {
        PackStops(ts, vs, i, ret, tail, offset);
        return Err;
      }
      PackStep(ts, vs, i, ret, tail, offset);
      if IsDynamic(ts[i]) {
        var word := U256Bytes(offset);
        ret := ret + word;
        tail := tail + val.value;
        offset := offset + |val.value|;
      } else {
        ret := ret + val.value;
      }
    }
    PackEnd(ts, vs, ret, tail, offset);
    return Ok(ret + tail);
  }

  // ---- Unpacking ----

  /** What the loop has read, in front of what is still to be read. */
  function Prepend(vs: seq<Value>, r: Outcome<seq<Value>>): Outcome<seq<Value>> {
    if r.Ok? then Ok(vs + r.value) else r
  }

  lemma PrependNothing(r: Outcome<seq<Value>>)
    ensures Prepend([], r) == r
  {
    if r.Ok? { assert [] + r.value == r.value; }
  }

  lemma UnpackStep(ts: seq<Type>, out: seq<Byte>, i: nat, pos: nat, vs: seq<Value>)
    requires i < |ts|
    ensures var r := DecodeAt(ts[i], out, pos);
            Prepend(vs, DecodeAll(ts[i..], out, pos)) ==
              match r
              case Err => Err
              case Panic => Panic
              case Ok(v) => Prepend(vs + [v], DecodeAll(ts[i + 1..], out, pos + TypeSize(ts[i])))
  {
    assert ts[i..][0] == ts[i] && ts[i..][1..] == ts[i + 1..];
    var r := DecodeAt(ts[i], out, pos);
    var rest := DecodeAll(ts[i + 1..], out, pos + TypeSize(ts[i]));
    if r.Ok? && rest.Ok? {
      assert vs + ([r.value] + rest.value) == vs + [r.value] + rest.value;
    }
  }

  /** toGoType */
  method UnpackValue(t: Type, out: seq<Byte>, index: nat) returns (r: Outcome<Value>)
    ensures r == DecodeAt(t, out, index)
    decreases Depth(t), 0
  {
    if index + 32 > |out| { return Err; }
    match t {
      case SliceTy(e) =>
        var at := LengthPrefixPointsTo(out, index);
        if !at.Ok? { return Err; }
        r := ForEachUnpack(e, out[at.value.begin..], at.value.length);
      case ArrayTy(n, e) =>
        var begin := index;
        if IsDynamic(e) {
          var at := ArrayPointsTo(out, index);
          if !at.Ok? { return Err; }
          begin := at.value;
        }
        r := ForEachUnpack(e, out[begin..], n);
      case TupleTy(ts) =>
        var begin := index;
        if IsDynamic(t) {
          var at := TuplePointsTo(out, index);
          if !at.Ok? { return Err; }
          begin := at.value;
        }
        var fields := ForTupleUnpack(ts, out[begin..]);
        r := MapList(fields);
      case StringTy => r := DecodeBytes(out, index);
      case BytesTy => r := DecodeBytes(out, index);
      case _ => r := ReadWord(t, out[index..index + 32]);
    }
  }

  method ForEachUnpack(e: Type, out: seq<Byte>, size: nat) returns (r: Outcome<Value>)
    ensures r == DecodeList(e, out, size)
    decreases Depth(e), size + 2
  {
    if 32 * size > |out| { return Err; }
    ghost var all := EachStart(e, out, size);
    var elemSize := TypeSize(e);
    var vs: seq<Value>, pos := [], 0;
    for j := 0 to size
      invariant EachSoFar(e, out, size - j, pos, vs, all)
    {
      EachStep(e, out, size - j, pos, vs, all);
      var v := UnpackValue(e, out, pos);
      if !v.Ok? { return if v.Err? then Err else Panic; }
      vs := vs + [v.value];
      pos := pos + elemSize;
    }
    EachEnd(e, out, pos, vs, all);
    return Ok(ListV(vs));
  }

  /** `vs` are decoded, and `n` values from `pos` on are left. */
  ghost predicate EachSoFar(e: Type, out: seq<Byte>, n: nat, pos: nat, vs: seq<Value>, all: Outcome<seq<Value>>) {
    all == Prepend(vs, DecodeAll(Repeat(e, n), out, pos))
  }

  lemma EachStart(e: Type, out: seq<Byte>, size: nat) returns (all: Outcome<seq<Value>>)
    requires 32 * size <= |out|
    ensures EachSoFar(e, out, size, 0, [], all) && DecodeList(e, out, size) == MapList(all)
  {
    all := DecodeAll(Repeat(e, size), out, 0);
    PrependNothing(all);
  }

  lemma EachEnd(e: Type, out: seq<Byte>, pos: nat, vs: seq<Value>, all: Outcome<seq<Value>>)
    requires EachSoFar(e, out, 0, pos, vs, all)
    ensures all == Ok(vs)
  {
    assert vs + [] == vs;
  }

  lemma EachStep(e: Type, out: seq<Byte>, n: nat, pos: nat, vs: seq<Value>, all: Outcome<seq<Value>>)
    requires n > 0 && EachSoFar(e, out, n, pos, vs, all)
    ensures match DecodeAt(e, out, pos)
            case Err => all == Err
            case Panic => all == Panic
            case Ok(v) => EachSoFar(e, out, n - 1, pos + TypeSize(e), vs + [v], all)
  {
    RepeatTail(e, n);
    UnpackStep(Repeat(e, n), out, 0, pos, vs);
    assert Repeat(e, n)[0..] == Repeat(e, n);
  }

  /** How many words more than one the head of a type takes. */
  function VirtualArgs(t: Type): int {
    if (t.ArrayTy? || t.TupleTy?) && !IsDynamic(t) then TypeSize(t) / 32 - 1 else 0
  }

  lemma VirtualArgsSize(t: Type)
    ensures TypeSize(t) == 32 * (1 + VirtualArgs(t))
  {
    SizeInWords(t);
    DynamicSize(t);
    LeafSize(t);
  }

  method ForTupleUnpack(ts: seq<Type>, out: seq<Byte>) returns (r: Outcome<seq<Value>>)
    ensures r == DecodeAll(ts, out, 0)
    decreases MaxDepth(ts), |ts| + 1
  {
    ghost var all := DecodeAll(ts, out, 0);
    var vs: seq<Value>, virtualArgs := [], 0;
    assert ts[0..] == ts;
    PrependNothing(all);
    for index := 0 to |ts|
      invariant index + virtualArgs >= 0
      invariant all == Prepend(vs, DecodeAll(ts[index..], out, (index + virtualArgs) * 32))
    {
      var pos := (index + virtualArgs) * 32;
      UnpackStep(ts, out, index, pos, vs);
      DepthAt(ts, index);
      var v := UnpackValue(ts[index], out, pos);
      VirtualArgsSize(ts[index]);
      virtualArgs := virtualArgs + VirtualArgs(ts[index]);
      assert (index + 1 + virtualArgs) * 32 == pos + TypeSize(ts[index]);
      if !v.Ok? { return if v.Err? then Err else Panic; }
      vs := vs + [v.value];
    }
    assert ts[|ts|..] == [] && vs + [] == vs;
    return Ok(vs);
  }

  lemma {:induction false} DepthAt(ts: seq<Type>, i: nat)
    requires i < |ts|
    ensures Depth(ts[i]) <= MaxDepth(ts)
  {
    if i > 0 { DepthAt(ts[1..], i - 1); }
  }

  // ---- Argument lists ----

  /** Only the arguments of events can be indexed. */
  datatype Argument = Argument(name: string, ty: Type, indexed: bool)

  function Types(args: seq<Argument>): (ts: seq<Type>)
    ensures |ts| == |args| && forall i :: 0 <= i < |args| ==> ts[i] == args[i].ty
  {
    seq(|args|, i requires 0 <= i < |args| => args[i].ty)
  }

  function NonIndexed(args: seq<Argument>): (kept: seq<Argument>)
    ensures |kept| <= |args| && forall a :: a in kept ==> !a.indexed
    ensures |kept| == |args| <==> kept == args
  {
    if args == [] then []
    else
      var rest := NonIndexed(args[1..]);
      assert args == [args[0]] + args[1..];
      if args[0].indexed then rest else [args[0]] + rest
  }

  /** Each argument is kept, behind those kept before it, exactly when it is not indexed. */
  lemma {:induction false} KeptOneByOne(args: seq<Argument>, a: Argument)
    ensures NonIndexed(args + [a]) == NonIndexed(args) + if a.indexed then [] else [a]
    decreases args
  {
    if args == [] {
      assert args + [a] == [a] && [a][1..] == [];
    } else {
      assert (args + [a])[0] == args[0] && (args + [a])[1..] == args[1..] + [a];
      KeptOneByOne(args[1..], a);
    }
  }

  method FilterNonIndexed(args: seq<Argument>) returns (kept: seq<Argument>)
    ensures kept == NonIndexed(args)
  {
    kept := [];
    assert args[0..] == args;
    for i := 0 to |args|
      invariant kept + NonIndexed(args[i..]) == NonIndexed(args)
    {
      assert args[i..][0] == args[i] && args[i..][1..] == args[i + 1..];
      if !args[i].indexed { kept := kept + [args[i]]; }
    }
  }

  /** Packs all arguments, indexed or not. */
  method Pack(args: seq<Argument>, vs: seq<Value>) returns (r: Outcome<seq<Byte>>)
    ensures r == PackedAll(Types(args), vs)
  {
    r := PackTuple(Types(args), vs);
  }

  /** Unpacks the arguments that are not indexed. */
  method UnpackValues(args: seq<Argument>, data: seq<Byte>) returns (r: Outcome<seq<Value>>)
    ensures r == DecodeAll(Types(NonIndexed(args)), data, 0)
  {
    var kept := FilterNonIndexed(args);
    r := ForTupleUnpack(Types(kept), data);
  }

  function Unpacked(args: seq<Argument>, data: seq<Byte>): Outcome<seq<Value>> {
    if data == [] then (if args == [] then Ok([]) else Err) else DecodeAll(Types(NonIndexed(args)), data, 0)
  }

  method Unpack(args: seq<Argument>, data: seq<Byte>) returns (r: Outcome<seq<Value>>)
    ensures r == Unpacked(args, data)
  {
    if data == [] { return if args == [] then Ok([]) else Err; }
    r := UnpackValues(args, data);
  }

  /** Exactly these argument lists come back from packing and unpacking: none is indexed, all integers
      are in range, and the decoder does not look past the end. */
  lemma ArgumentsRoundTrip(args: seq<Argument>, vs: seq<Value>)
    requires ShapedAll(Types(args), vs) && TypesOK(Types(args)) && |EncodeAll(Types(args), vs)| < INT_MAX
    ensures var ts := Types(args);
            var packed := EncodeAll(ts, vs);
            DecodeAll(Types(NonIndexed(args)), packed, 0) == Ok(vs) <==>
              && (forall a :: a in args ==> !a.indexed)
              && AllInRange(ts, vs)
              && ReachAll(ts, vs, 0, HeadSize(ts)) <= |packed|
  {
    var ts := Types(args);
    if forall a :: a in args ==> !a.indexed {
      NothingFiltered(args);
      RoundTripExactly(ts, vs);
    } else {
      assert NonIndexed(args) != args;
    }
  }

  lemma {:induction false} NothingFiltered(args: seq<Argument>)
    requires forall a :: a in args ==> !a.indexed
    ensures NonIndexed(args) == args
  {
    if args != [] { NothingFiltered(args[1..]); }
  }

  /** Unpacking after packing gives back every list of in-range arguments of which none is indexed and
      none has an empty static part, however deep the nesting. */
  lemma UnpackUndoesPack(args: seq<Argument>, vs: seq<Value>)
    requires ShapedAll(Types(args), vs) && TypesOK(Types(args)) && AllSolid(Types(args))
    requires |EncodeAll(Types(args), vs)| < INT_MAX
    requires AllInRange(Types(args), vs) && forall a :: a in args ==> !a.indexed
    ensures Unpacked(args, EncodeAll(Types(args), vs)) == Ok(vs)
  {
    var ts := Types(args);
    NothingFiltered(args);
    SolidRoundTrip(ts, vs);
    HeadsSize(ts, vs, HeadSize(ts));
    if ts != [] { SolidSize(ts[0]); }
  }

  /** The first of several words is read as one unsigned integer. */
  lemma FirstWord(n: nat, out: seq<Byte>)
    requires n < INT_MAX && |out| < INT_MAX && At(out, 0, BigEndian(n, 32))
    ensures DecodeAll([UintTy(256)], out, 0) == Ok([IntV(n)])
  {
    var ts, vs := [UintTy(256)], [IntV(n)];
    OneWord(n, 0);
    WordRoundTrip(n);
    IntRoundTrip(ts[0], n);
    assert DecodeAt(ts[0], out, 0) == Ok(IntV(n));
    assert ts[1..] == [];
    assert [IntV(n)] + [] == [IntV(n)];
  }

  lemma TwoWords(a: int, b: int)
    ensures var ts, vs := [UintTy(256), UintTy(256)], [IntV(a), IntV(b)];
            ShapedAll(ts, vs) && EncodeAll(ts, vs) == BigEndian(a, 32) + BigEndian(b, 32)
  {
    var ts, vs := [UintTy(256), UintTy(256)], [IntV(a), IntV(b)];
    assert ts[1..] == [UintTy(256)] && vs[1..] == [IntV(b)];
    OneWord(b, 64);
    NoTails(ts, vs);
    assert Encode(ts[0], vs[0]) == BigEndian(a, 32) && HeadSize(ts) == 64;
    assert Heads(ts, vs, 64) == BigEndian(a, 32) + BigEndian(b, 32);
  }

  /** An indexed argument does not come back: it is packed, but what was packed for it is unpacked as the
      value of the argument after it. */
  lemma IndexedArgumentIsMisread()
    ensures var args := [Argument("topic", UintTy(256), true), Argument("amount", UintTy(256), false)];
            var vs := [IntV(1), IntV(2)];
            && ShapedAll(Types(args), vs)
            && Unpacked(args, EncodeAll(Types(args), vs)) == Ok([IntV(1)])
  {
    var first, second := Argument("topic", UintTy(256), true), Argument("amount", UintTy(256), false);
    var args := [first, second];
    assert args[1..] == [second] && args[1..][1..] == [];
    assert NonIndexed(args) == [second] + [];
    assert Types(args) == [UintTy(256), UintTy(256)] && Types([second]) == [UintTy(256)];
    TwoWords(1, 2);
    var out := BigEndian(1, 32) + BigEndian(2, 32);
    assert At(out, 0, BigEndian(1, 32));
    FirstWord(1, out);
  }
}
