/** Unsigned big-endian integers as produced by Python's `struct` module with
    the `'!'` (network byte order) prefix: `'!I'` is four bytes, `'!Q'` eight. */
module Bytes {

  type byte = b: int | 0 <= b < 256

  /** 256 to the power k: the number of values a k-byte field can hold. */
  function Pow256(k: nat): (r: nat)
    ensures r >= 1
  {
    if k == 0 then 1 else 256 * Pow256(k - 1)
  }

  lemma Pow256Values()
    ensures Pow256(4) == 0x1_0000_0000
    ensures Pow256(8) == 0x1_0000_0000_0000_0000
  {
    assert Pow256(1) == 256;
    assert Pow256(2) == 65536;
    assert Pow256(3) == 16777216;
  }

  /** Value of a big-endian byte string. */
  function FromBE(s: seq<byte>): (n: nat)
    ensures n < Pow256(|s|)
  {
    if s == [] then 0 else FromBE(s[..|s| - 1]) * 256 + s[|s| - 1]
  }

  /** The `width`-byte big-endian encoding of n; FromBE inverts it. */
  function ToBE(n: nat, width: nat): (r: seq<byte>)
    requires n < Pow256(width)
    ensures |r| == width
    ensures FromBE(r) == n
  {
    if width == 0 then []
    else
      var high := ToBE(n / 256, width - 1);
      assert (high + [n % 256])[..width - 1] == high;
      high + [n % 256]
  }

  /** Decoding then re-encoding a byte string gives it back: a k-byte
      big-endian field determines its value and nothing is lost. */
  lemma {:induction false} ToBEFromBE(s: seq<byte>)
    ensures ToBE(FromBE(s), |s|) == s
  {
    if s != [] {
      var init := s[..|s| - 1];
      ToBEFromBE(init);
      assert FromBE(s) / 256 == FromBE(init);
      assert s == init + [s[|s| - 1]];
    }
  }

  /** Two byte strings of one width with the same value are equal. */
  lemma FromBEInjective(a: seq<byte>, b: seq<byte>)
    requires |a| == |b| && FromBE(a) == FromBE(b)
    ensures a == b
  {
    ToBEFromBE(a);
    ToBEFromBE(b);
  }

  const U32Limit: nat := 0x1_0000_0000
  const U64Limit: nat := 0x1_0000_0000_0000_0000

  /** `struct.pack('!I', n)`. */
  function Be32(n: nat): (r: seq<byte>)
    requires n < U32Limit
    ensures |r| == 4 && FromBE(r) == n
  {
    Pow256Values();
    ToBE(n, 4)
  }

  /** `struct.pack('!Q', n)`. */
  function Be64(n: nat): (r: seq<byte>)
    requires n < U64Limit
    ensures |r| == 8 && FromBE(r) == n
  {
    Pow256Values();
    ToBE(n, 8)
  }

  /** Every four-byte field decodes to a value `'!I'` can carry. */
  lemma FromBE4Bound(s: seq<byte>)
    requires |s| == 4
    ensures FromBE(s) < U32Limit
  {
    Pow256Values();
  }

  lemma FromBE8Bound(s: seq<byte>)
    requires |s| == 8
    ensures FromBE(s) < U64Limit
  {
    Pow256Values();
  }

  lemma Be32Inverse(s: seq<byte>)
    requires |s| == 4
    ensures FromBE(s) < U32Limit && Be32(FromBE(s)) == s
  {
    Pow256Values();
    ToBEFromBE(s);
  }

  /** Where each of four concatenated fields lies. */
  lemma Parts4<T>(a: seq<T>, b: seq<T>, c: seq<T>, d: seq<T>)
    ensures var s := a + b + c + d;
      var i := |a|;
      var j := i + |b|;
      var k := j + |c|;
      s[..i] == a && s[i..j] == b && s[j..k] == c && s[k..] == d
  {
    var s := a + b + c + d;
    assert s[..|a|] == a;
    assert s[|a|..|a| + |b|] == b;
    assert s[|a| + |b|..|a| + |b| + |c|] == c;
    assert s[|a| + |b| + |c|..] == d;
  }

  /** Where each of six concatenated fields lies. */
  lemma Parts6<T>(a: seq<T>, b: seq<T>, c: seq<T>, d: seq<T>, e: seq<T>, f: seq<T>)
    ensures var s := a + b + c + d + e + f;
      var i := |a|;
      var j := i + |b|;
      var k := j + |c|;
      var l := k + |d|;
      var m := l + |e|;
      s[..i] == a && s[i..j] == b && s[j..k] == c && s[k..l] == d && s[l..m] == e && s[m..] == f
  {
    var s := a + b + c + d + e + f;
    var i := |a|;
    var j := i + |b|;
    var k := j + |c|;
    var l := k + |d|;
    var m := l + |e|;
    assert s[..i] == a;
    assert s[i..j] == b;
    assert s[j..k] == c;
    assert s[k..l] == d;
    assert s[l..m] == e;
    assert s[m..] == f;
  }

  /** Adjacent slices of one sequence put together. */
  lemma SliceJoin<T>(s: seq<T>, i: nat, j: nat, k: nat)
    requires i <= j <= k <= |s|
    ensures s[i..j] + s[j..k] == s[i..k]
  {
    assert s[i..k] == s[i..j] + s[j..k];
  }

  /** Concatenation is associative. */
  lemma AppendAssoc<T>(a: seq<T>, b: seq<T>, c: seq<T>)
    ensures (a + b) + c == a + (b + c)
  {
  }
}
