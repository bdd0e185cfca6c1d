/** Bytes, fixed-width big-endian words, and the integer conversions of the source language. */
module Bytes {

  type Byte = x: int | 0 <= x < 256
  type Word = x: int | 0 <= x < 0x1_0000_0000

  /** Strings of the source are byte strings. */
  type Text = seq<Byte>

  datatype Option<+T> = None | Some(value: T)

  function Pow256(k: nat): (p: nat)
    ensures p >= 1
  {
    if k == 0 then 1 else 256 * Pow256(k - 1)
  }

  /** The unsigned number a byte string spells, most significant byte first. */
  function Unsigned(b: seq<Byte>): nat
  {
    if b == [] then 0 else 256 * Unsigned(b[..|b| - 1]) + b[|b| - 1]
  }

  /** The low `k` bytes of `n`, most significant byte first. */
  function BigEndian(n: nat, k: nat): (b: seq<Byte>)
    ensures |b| == k
  {
    if k == 0 then [] else BigEndian(n / 256, k - 1) + [n % 256]
  }

  function Repeat(x: Byte, k: nat): (b: seq<Byte>)
    ensures |b| == k && forall i :: 0 <= i < k ==> b[i] == x
  {
    seq(k, _ => x)
  }

  function Zeros(k: nat): (b: seq<Byte>)
    ensures |b| == k && forall i :: 0 <= i < k ==> b[i] == 0
  {
    Repeat(0, k)
  }

  /** A string literal as bytes. */
  function Str(s: string): (t: Text)
    ensures |t| == |s|
  {
    seq(|s|, i requires 0 <= i < |s| => s[i] as int % 256)
  }

  const TWO31: int := 0x8000_0000
  const TWO32: int := 0x1_0000_0000
  const TWO63: int := 0x8000_0000_0000_0000
  const TWO64: int := 0x1_0000_0000_0000_0000

  /** Conversions that keep the low bits, as casts to uint32, int32, uint64 and int64 do. */
  function U32(n: int): (r: nat)
    ensures r < TWO32
  {
    n % TWO32
  }

  function I32(n: int): (r: int)
    ensures -TWO31 <= r < TWO31
    ensures U32(r) == U32(n)
    ensures -TWO31 <= n < TWO31 ==> r == n
  {
    if U32(n) < TWO31 then U32(n) else U32(n) - TWO32
  }

  function U64(n: int): (r: nat)
    ensures r < TWO64
  {
    n % TWO64
  }

  function I64(n: int): (r: int)
    ensures -TWO63 <= r < TWO63
    ensures U64(r) == U64(n)
    ensures -TWO63 <= n < TWO63 ==> r == n
  {
    if U64(n) < TWO63 then U64(n) else U64(n) - TWO64
  }

  lemma {:induction false} UnsignedBound(b: seq<Byte>)
    ensures Unsigned(b) < Pow256(|b|)
  {
    if b == [] {
    } else {
      UnsignedBound(b[..|b| - 1]);
    }
  }

  lemma {:induction false} PowMonotone(i: nat, j: nat)
    requires i <= j
    ensures Pow256(i) <= Pow256(j)
  {
    if i == j {
    } else {
      PowMonotone(i, j - 1);
    }
  }

  /** Writing a number that fits and reading it back. */
  lemma {:induction false} UnsignedBigEndian(n: nat, k: nat)
    requires n < Pow256(k)
    ensures Unsigned(BigEndian(n, k)) == n
  {
    if k == 0 {
    } else {
      UnsignedBigEndian(n / 256, k - 1);
      assert BigEndian(n, k)[..k - 1] == BigEndian(n / 256, k - 1);
    }
  }

  /** Reading a number and writing it back. */
  lemma {:induction false} BigEndianUnsigned(b: seq<Byte>)
    ensures BigEndian(Unsigned(b), |b|) == b
  {
    if b == [] {
    } else {
      var k := |b| - 1;
      BigEndianUnsigned(b[..k]);
      assert b == b[..k] + [b[k]];
    }
  }

  lemma {:induction false} LeadingZero(b: seq<Byte>)
    ensures Unsigned(Zeros(1) + b) == Unsigned(b)
  {
    var z := Zeros(1) + b;
    if b == [] {
      assert z[..0] == [];
    } else {
      LeadingZero(b[..|b| - 1]);
      assert z[..|z| - 1] == Zeros(1) + b[..|b| - 1];
    }
  }

  lemma PowWords()
    ensures Pow256(3) == 0x100_0000 && Pow256(4) == TWO32 && Pow256(8) == TWO64
  {
    assert Pow256(4) == 256 * Pow256(3) == TWO32;
    assert Pow256(6) == 256 * Pow256(5) == 65536 * Pow256(4);
    assert Pow256(8) == 256 * Pow256(7) == 65536 * Pow256(6);
  }

  // ----- sequences of elements of any type -----

  function Flatten<T>(ss: seq<seq<T>>): seq<T>
  {
    if ss == [] then [] else ss[0] + Flatten(ss[1..])
  }

  lemma TakeFirst<T>(done: seq<T>, rest: seq<T>)
    requires rest != []
    ensures done + [rest[0]] + rest[1..] == done + rest
  {
  }

  lemma HeadTail<T>(s: seq<T>)
    requires s != []
    ensures [s[0]] + s[1..] == s
  {
  }

  lemma FrontLast<T>(s: seq<T>)
    requires s != []
    ensures s[..|s| - 1] + [s[|s| - 1]] == s
  {
  }

  lemma WholeSlice<T>(s: seq<T>, n: nat)
    requires n == |s|
    ensures s[..n] == s
  {
  }

  lemma ConcatSlices<T>(a: seq<T>, b: seq<T>)
    ensures (a + b)[..|a|] == a && (a + b)[|a|..] == b
  {
  }

  lemma SplitThree<T>(s: seq<T>, i: nat, j: nat, k: nat)
    requires i <= j <= k <= |s|
    ensures s[..k] == s[..i] + s[i..j] + s[j..k]
  {
  }

  lemma ReplaceMiddle<T>(before: seq<T>, head: seq<T>, hole: seq<T>, fill: seq<T>, body: seq<T>)
    ensures var s := before + (head + hole) + body;
            var i := |before| + |head|;
            s[..i] + fill + s[i + |hole|..] == before + (head + fill + body)
  {
  }

  lemma ConcatAssociative<T>(a: seq<T>, b: seq<T>, c: seq<T>)
    ensures a + b + c == a + (b + c)
  {
  }
}
