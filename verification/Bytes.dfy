/** Numbers as big-endian bytes (eth/abi/math_utils.go). */
module Bytes {
  type Byte = x: nat | x < 256

  function Pow256(k: nat): (p: nat)
    ensures p > 0
  {
    if k == 0 then 1 else 256 * Pow256(k - 1)
  }

  /** The lowest `k` bytes of `n` in two's complement, most significant first. */
  function BigEndian(n: int, k: nat): (s: seq<Byte>)
    ensures |s| == k
    decreases k, n
  {
    if k == 0 then [] else BigEndian(n / 256, k - 1) + [n % 256]
  }

  function FromBigEndian(s: seq<Byte>): nat {
    if s == [] then 0 else 256 * FromBigEndian(s[..|s| - 1]) + s[|s| - 1]
  }

  function Zeros(k: nat): (s: seq<Byte>)
    ensures |s| == k
  {
    seq(k, _ => 0)
  }

  lemma ModUnique(n: int, m: int, a: int, r: int)
    requires m > 0 && n == m * a + r && 0 <= r < m
    ensures n % m == r && n / m == a
  {
    var q := n / m - a;
    assert m * q == r - n % m;
    assert q >= 1 ==> m * q >= m;
    assert q <= -1 ==> m * q <= -m;
  }

  /** Splitting off the lowest byte. */
  lemma ModSplit(n: int, p: int)
    requires p > 0
    ensures 256 * ((n / 256) % p) + n % 256 == n % (256 * p)
  {
    var q, r := n / 256, n % 256;
    var a, b := q / p, q % p;
    assert n == (256 * p) * a + (256 * b + r) by {
      assert q == p * a + b;
      assert 256 * q == 256 * (p * a) + 256 * b;
      assert 256 * (p * a) == (256 * p) * a;
    }
    ModUnique(n, 256 * p, a, 256 * b + r);
  }

  lemma {:induction false} FromToBigEndian(n: int, k: nat)
    ensures FromBigEndian(BigEndian(n, k)) == n % Pow256(k)
    decreases k
  {
    if k > 0 {
      FromToBigEndian(n / 256, k - 1);
      assert BigEndian(n, k)[..k - 1] == BigEndian(n / 256, k - 1);
      ModSplit(n, Pow256(k - 1));
    }
  }

  /** A number that fits the last `j` of `k` bytes is read back from all of them and from those. */
  lemma FromToSmall(n: nat, j: nat, k: nat)
    requires j <= k && n < Pow256(j)
    ensures FromBigEndian(BigEndian(n, k)) == n && FromBigEndian(BigEndian(n, k)[k - j..]) == n
  {
    PowMonotone(j, k);
    BigEndianSuffix(n, k, j);
    FromToBigEndian(n, j);
    FromToBigEndian(n, k);
    ModUnique(n, Pow256(j), 0, n);
    ModUnique(n, Pow256(k), 0, n);
  }

  lemma {:induction false} FromBigEndianBound(s: seq<Byte>)
    ensures FromBigEndian(s) < Pow256(|s|)
  {
    if s != [] { FromBigEndianBound(s[..|s| - 1]); }
  }

  lemma {:induction false} BigEndianSuffix(n: int, k: nat, j: nat)
    requires j <= k
    ensures BigEndian(n, k)[k - j..] == BigEndian(n, j)
    decreases k
  {
    if j > 0 {
      BigEndianSuffix(n / 256, k - 1, j - 1);
      assert BigEndian(n, k)[k - j..] == BigEndian(n / 256, k - 1)[k - j..] + [n % 256];
    }
  }

  /** Masking to `k` bytes first changes nothing. */
  lemma {:induction false} BigEndianMasked(n: int, k: nat)
    ensures BigEndian(n % Pow256(k), k) == BigEndian(n, k)
    decreases k
  {
    if k > 0 {
      var p := Pow256(k - 1);
      ModSplit(n, p);
      var m := n % Pow256(k);
      ModUnique(m, 256, (n / 256) % p, n % 256);
      BigEndianMasked(n / 256, k - 1);
    }
  }

  lemma {:induction false} BigEndianZero(k: nat)
    ensures BigEndian(0, k) == Zeros(k)
  {
    if k > 0 { BigEndianZero(k - 1); }
  }

  lemma {:induction false} PowMonotone(j: nat, k: nat)
    requires j <= k
    ensures Pow256(j) <= Pow256(k)
    decreases k - j
  {
    if j < k { PowMonotone(j, k - 1); }
  }

  /** Eight bytes hold every 64-bit number. */
  lemma PowEight()
    ensures Pow256(8) == 0x1_0000_0000_0000_0000
  {
    assert Pow256(2) == 0x1_0000;
    assert Pow256(4) == 256 * (256 * Pow256(2));
    assert Pow256(6) == 256 * (256 * Pow256(4));
    assert Pow256(8) == 256 * (256 * Pow256(6));
  }

  // ---- Writing a number into a buffer ----

  /** The value of a sequence of 64-bit words, least significant first. */
  function WordsValue(words: seq<nat>): nat {
    if words == [] then 0 else words[0] + Pow256(8) * WordsValue(words[1..])
  }

  /** Writes the number held in `words` into the end of a buffer of zeros. */
  method ReadBits(words: seq<nat>, buf: array<Byte>)
    requires forall w :: w in words ==> w < Pow256(8)
    requires buf[..] == Zeros(buf.Length)
    modifies buf
    ensures buf[..] == BigEndian(WordsValue(words), buf.Length)
  {
    var i := buf.Length;
    ghost var n := WordsValue(words);
    ghost var left := n;  // what is still to be written at positions below i
    for w := 0 to |words|
      invariant 0 <= i <= buf.Length
      invariant i > 0 ==> left == WordsValue(words[w..])
      invariant Written(buf[..], n, left, i)
    {
      assert words[w..][1..] == words[w + 1..] && words[w] in words;
      i, left := WriteWord(words[w], buf, i, WordsValue(words[w + 1..]), n, left);
    }
    WrittenDone(buf[..], n, left, i);
  }

  /** Writes the eight bytes of one word backwards from position `start`, as far as there is room. */
  method WriteWord(word: nat, buf: array<Byte>, start: nat, ghost rest: nat, ghost n: nat, ghost before: nat)
    returns (i: nat, ghost left: nat)
    requires word < Pow256(8) && Written(buf[..], n, before, start)
    requires start > 0 ==> before == word + Pow256(8) * rest
    modifies buf
    ensures i <= buf.Length && Written(buf[..], n, left, i)
    ensures i > 0 ==> left == rest
  {
    i, left := start, before;
    var d: nat, j: nat := word, 0;
    while j < 8 && i > 0
      invariant 0 <= j <= 8 && i <= buf.Length && d < Pow256(8 - j)
      invariant i > 0 ==> left == d + Pow256(8 - j) * rest
      invariant Written(buf[..], n, left, i)
      decreases 8 - j
    {
      WordStep(d, rest, left, 7 - j);
      ghost var s := buf[..];
      var low: Byte := d % 256;
      i := i - 1;
      buf[i] := low;
      assert buf[..] == s[i := low];
      WrittenStep(s, n, left, i, low);
      left := left / 256;
      d := d / 256;
      j := j + 1;
    }
    assert Pow256(0) == 1;
  }

  lemma WordStep(d: nat, rest: nat, left: nat, k: nat)
    requires d < Pow256(k + 1) && left == d + Pow256(k + 1) * rest
    ensures left % 256 == d % 256 && left / 256 == d / 256 + Pow256(k) * rest && d / 256 < Pow256(k)
  {
    var p, x := Pow256(k), Pow256(k) * rest;
    assert Pow256(k + 1) * rest == 256 * x by { Regroup(256, p, rest); }
    LowByte(d, x);
  }

  lemma Regroup(a: int, b: int, c: int)
    ensures (a * b) * c == a * (b * c)
  {}

  lemma LowByte(d: nat, x: nat)
    ensures (d + 256 * x) % 256 == d % 256 && (d + 256 * x) / 256 == d / 256 + x
  {}

  /** Positions from `i` on hold the low bytes of `n`, those below are zero, and `left` is the rest. */
  ghost predicate Written(s: seq<Byte>, n: nat, left: nat, i: nat) {
    && i <= |s|
    && (forall j :: 0 <= j < i ==> s[j] == 0)
    && BigEndian(left, i) + s[i..] == BigEndian(n, |s|)
  }

  lemma WrittenStep(s: seq<Byte>, n: nat, left: nat, i: nat, low: Byte)
    requires Written(s, n, left, i + 1) && low == left % 256
    ensures Written(s[i := low], n, left / 256, i)
  {
    var t := s[i := low];
    assert t[i..] == [low] + s[i + 1..];
    assert BigEndian(left, i + 1) == BigEndian(left / 256, i) + [low];
    assert BigEndian(left / 256, i) + t[i..] == BigEndian(left, i + 1) + s[i + 1..];
  }

  lemma WrittenDone(s: seq<Byte>, n: nat, left: nat, i: nat)
    requires Written(s, n, left, i) && (i > 0 ==> left == 0)
    ensures s == BigEndian(n, |s|)
  {
    if i > 0 { BigEndianZero(i); }
    assert s == s[..i] + s[i..];
    assert s[..i] == BigEndian(left, i);
  }

  // ---- 256-bit numbers ----

  /** The words of a number, least significant first, without leading zero words. */
  function ToWords(n: nat): (words: seq<nat>)
    ensures WordsValue(words) == n
    ensures forall w :: w in words ==> w < Pow256(8)
    decreases n
  {
    if n == 0 then []
    else
      var p := Pow256(8);
      assert p > 1 by { PowEight(); }
      QuotientShrinks(n, p);
      var words := [n % p] + ToWords(n / p);
      assert words[1..] == ToWords(n / p);
      words
  }

  lemma QuotientShrinks(n: nat, p: nat)
    requires n > 0 && p > 1
    ensures n / p < n && n % p + p * (n / p) == n
  {
    AtLeastDouble(n / p, p);
  }

  lemma {:induction false} AtLeastDouble(q: nat, p: nat)
    requires p > 1
    ensures p * q >= 2 * q
    decreases q
  {
    if q > 0 { AtLeastDouble(q - 1, p); }
  }

  /** A number as a 256-bit word. */
  method U256Bytes(n: int) returns (word: seq<Byte>)
    ensures word == BigEndian(n, 32)
  {
    var masked := n % Pow256(32);
    BigEndianMasked(n, 32);
    if 2 * masked >= Pow256(32) {
      // All 256 bits are used: the number's own bytes fill the word.
      return BigEndian(masked, 32);
    }
    var buf := new Byte[32](_ => 0);
    assert buf[..] == Zeros(32);
    ReadBits(ToWords(masked), buf);
    return buf[..];
  }
}
