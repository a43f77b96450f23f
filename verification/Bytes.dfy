/** Machine words and their little- and big-endian byte forms. */
module Bytes {

  type byte = b: int | 0 <= b < 256
  type u16 = n: int | 0 <= n < 0x1_0000
  type u32 = n: int | 0 <= n < 0x1_0000_0000
  type u64 = n: int | 0 <= n < 0x1_0000_0000_0000_0000

  const TWO_32: int := 0x1_0000_0000
  const TWO_64: int := 0x1_0000_0000_0000_0000
  const ADDRESS_MAX: int := 0xFFFF_FFFF
  const U64_MAX: int := 0xFFFF_FFFF_FFFF_FFFF

  function Min(a: int, b: int): int { if a <= b then a else b }

  function Max(a: int, b: int): int { if a >= b then a else b }

  /** `a + b` that stops at the largest 64-bit value. */
  function SatAdd(a: u64, b: u64): u64 { Min(a + b, U64_MAX) }

  function SatMul(a: nat, b: nat): (p: u64)
    ensures p == Min(a * b, U64_MAX)
  {
    assert a * b >= 0;
    Min(a * b, U64_MAX)
  }

  function SatSub(a: int, b: int): (d: nat) { if a <= b then 0 else a - b }

  function Pow256(w: nat): (p: nat)
    ensures p >= 1
  {
    if w == 0 then 1 else 256 * Pow256(w - 1)
  }

  lemma Pow256Values()
    ensures Pow256(2) == 0x1_0000 && Pow256(4) == TWO_32 && Pow256(8) == TWO_64
  {
    assert Pow256(2) == 256 * Pow256(1);
    assert Pow256(4) == 256 * Pow256(3) == 256 * 256 * Pow256(2);
    assert Pow256(6) == 256 * Pow256(5) == 256 * 256 * Pow256(4);
    assert Pow256(8) == 256 * Pow256(7) == 256 * 256 * Pow256(6);
  }

  /** The low `w` bytes of `n`, least significant first: a cast to that width followed by `to_le_bytes`. */
  function Le(n: nat, w: nat): (s: seq<byte>)
    ensures |s| == w
  {
    if w == 0 then [] else [n % 256] + Le(n / 256, w - 1)
  }

  /** `from_le_bytes` */
  function FromLe(s: seq<byte>): (n: nat)
    ensures n < Pow256(|s|)
  {
    if s == [] then 0 else s[0] + 256 * FromLe(s[1..])
  }

  function Reverse(s: seq<byte>): (r: seq<byte>)
    ensures |r| == |s|
    ensures forall i :: 0 <= i < |s| ==> r[i] == s[|s| - 1 - i]
  {
    if s == [] then [] else Reverse(s[1..]) + [s[0]]
  }

  lemma ReverseTwice(s: seq<byte>)
    ensures Reverse(Reverse(s)) == s
  {
  }

  /** `from_be_bytes` */
  function FromBe(s: seq<byte>): (n: nat)
    ensures n < Pow256(|s|)
  {
    FromLe(Reverse(s))
  }

  /** Every value that fits survives being written and read back. */
  lemma {:induction false} FromLeOfLe(n: nat, w: nat)
    requires n < Pow256(w)
    ensures FromLe(Le(n, w)) == n
  {
    if w > 0 {
      FromLeOfLe(n / 256, w - 1);
      assert Le(n, w)[1..] == Le(n / 256, w - 1);
    }
  }

  /** Every byte string is the encoding of the value it reads as. */
  lemma {:induction false} LeOfFromLe(s: seq<byte>)
    ensures Le(FromLe(s), |s|) == s
  {
    if s != [] {
      LeOfFromLe(s[1..]);
      var n := FromLe(s);
      assert n % 256 == s[0] && n / 256 == FromLe(s[1..]);
      assert Le(n, |s|) == [s[0]] + Le(FromLe(s[1..]), |s| - 1);
      assert s == [s[0]] + s[1..];
    }
  }

  lemma WordsRoundTrip(n: nat)
    ensures n < 0x1_0000 ==> FromLe(Le(n, 2)) == n
    ensures n < TWO_32 ==> FromLe(Le(n, 4)) == n
    ensures n < TWO_64 ==> FromLe(Le(n, 8)) == n
  {
    Pow256Values();
    if n < 0x1_0000 { FromLeOfLe(n, 2); }
    if n < TWO_32 { FromLeOfLe(n, 4); }
    if n < TWO_64 { FromLeOfLe(n, 8); }
  }

  /** A read of two, four or eight bytes is a 16-, 32- or 64-bit value. */
  lemma ReadFits(s: seq<byte>)
    ensures |s| == 2 ==> FromLe(s) < 0x1_0000 && FromBe(s) < 0x1_0000
    ensures |s| == 4 ==> FromLe(s) < TWO_32 && FromBe(s) < TWO_32
    ensures |s| == 8 ==> FromLe(s) < TWO_64 && FromBe(s) < TWO_64
  {
    Pow256Values();
  }

  /** Read a four-byte word, as a value known to fit. */
  function Word32(s: seq<byte>, bigEndian: bool): (n: u32)
    requires |s| == 4
  {
    ReadFits(s);
    if bigEndian then FromBe(s) else FromLe(s)
  }

  function Word16(s: seq<byte>, bigEndian: bool): (n: u16)
    requires |s| == 2
  {
    ReadFits(s);
    if bigEndian then FromBe(s) else FromLe(s)
  }

  function Word64(s: seq<byte>): (n: u64)
    requires |s| == 8
  {
    ReadFits(s);
    FromLe(s)
  }

  function Zeros(n: nat): (s: seq<byte>)
    ensures |s| == n && forall i :: 0 <= i < n ==> s[i] == 0
  {
    seq(n, _ => 0)
  }

  lemma TakeAcross<T>(a: seq<T>, b: seq<T>, n: nat)
    requires n <= |a| + |b|
    ensures n <= |a| ==> (a + b)[..n] == a[..n]
    ensures n >= |a| ==> (a + b)[..n] == a + b[..n - |a|]
  {
  }

  lemma DropAcross<T>(a: seq<T>, b: seq<T>, n: nat)
    requires n <= |a| + |b|
    ensures n <= |a| ==> (a + b)[n..] == a[n..] + b
    ensures n >= |a| ==> (a + b)[n..] == b[n - |a|..]
  {
  }

  lemma Regroup<T>(a: seq<T>, b: seq<T>, c: seq<T>)
    ensures (a + b) + c == a + (b + c)
  {
  }
}
