/** The BigInteger value codec: sign-extended two's complement, a multiple of eight bytes long. */
module BigInteger {
  import opened Bytes

  /** The two's-complement number a byte string spells: the source's unmarshalBigInt. */
  function Signed(b: seq<Byte>): int
  {
    Unsigned(b) - if b != [] && b[0] >= 128 then Pow256(|b|) else 0
  }

  /** The first byte only repeats the sign bit of the second. */
  predicate Padded(b: seq<Byte>)
  {
    |b| >= 2 && ((b[0] == 255 && b[1] >= 128) || (b[0] == 0 && b[1] < 128))
  }

  // ----- bounds and sign extension -----

  /** The number grows by one byte on the right. */
  lemma SignedStep(b: seq<Byte>)
    requires |b| >= 2
    ensures Signed(b) == 256 * Signed(b[..|b| - 1]) + b[|b| - 1]
  {
  }

  lemma SignedOne(b: seq<Byte>)
    requires |b| == 1
    ensures Signed(b) + (if b[0] >= 128 then 256 else 0) == b[0]
  {
    assert b[..|b| - 1] == [];
    assert Unsigned(b) == 256 * Unsigned([]) + b[0];
    assert Pow256(|b|) == 256 * Pow256(0);
  }

  lemma {:induction false} SignedRange(b: seq<Byte>)
    requires b != []
    ensures 0 - Pow256(|b|) <= 2 * Signed(b) < Pow256(|b|)
    ensures Signed(b) < 0 <==> b[0] >= 128
  {
    if |b| == 1 {
      SignedOne(b);
    } else {
      SignedStep(b);
      SignedRange(b[..|b| - 1]);
    }
  }

  /** Dropping one pad byte keeps the number. */
  lemma {:induction false} DropPad(b: seq<Byte>)
    requires Padded(b)
    ensures Signed(b[1..]) == Signed(b)
  {
    SignedStep(b);
    if |b| == 2 {
      SignedOne(b[..1]);
      SignedOne(b[1..]);
    } else {
      var k := |b| - 1;
      DropPad(b[..k]);
      SignedStep(b[1..]);
      assert b[1..][..k - 1] == b[..k][1..];
    }
  }

  /** A string without pad bytes spells a number too large for one byte fewer. */
  lemma {:induction false} UnpaddedIsWide(b: seq<Byte>)
    requires |b| >= 2 && !Padded(b)
    ensures 2 * Signed(b) >= Pow256(|b| - 1) || 2 * Signed(b) < 0 - Pow256(|b| - 1)
  {
    SignedStep(b);
    if |b| == 2 {
      SignedOne(b[..1]);
      TwoBytesWide(Signed(b[..1]), b[0], b[1]);
      assert Pow256(1) == 256;
    } else {
      UnpaddedIsWide(b[..|b| - 1]);
      WiderByOne(Signed(b[..|b| - 1]), b[|b| - 1], Pow256(|b| - 3));
    }
  }

  lemma TwoBytesWide(high: int, a: Byte, b: Byte)
    requires high == a - (if a >= 128 then 256 else 0)
    requires !(a == 255 && b >= 128) && !(a == 0 && b < 128)
    ensures 256 * high + b >= 128 || 256 * high + b < -128
  {
  }

  lemma WiderByOne(high: int, low: Byte, p: int)
    requires high >= 128 * p || high < -128 * p
    ensures 256 * high + low >= 256 * 128 * p || 256 * high + low < -256 * 128 * p
  {
  }

  /** So it fits in no shorter string. */
  lemma UnpaddedIsShortest(b: seq<Byte>, c: seq<Byte>)
    requires b != [] && !Padded(b)
    requires c != [] && Signed(c) == Signed(b)
    ensures |c| >= |b|
  {
    if |c| < |b| {
      SignedRange(c);
      UnpaddedIsWide(b);
      PowMonotone(|c|, |b| - 1);
    }
  }

  lemma {:induction false} SignExtend(fill: Byte, k: nat, b: seq<Byte>)
    requires b != []
    requires fill == if b[0] >= 128 then 255 else 0
    ensures Signed(Repeat(fill, k) + b) == Signed(b)
  {
    if k == 0 {
      assert Repeat(fill, k) + b == b;
    } else {
      var e := Repeat(fill, k) + b;
      assert e[1..] == Repeat(fill, k - 1) + b;
      DropPad(e);
      SignExtend(fill, k - 1, b);
    }
  }

  /** Two strings of one length that spell the same number are equal. */
  lemma SignedInjective(b: seq<Byte>, c: seq<Byte>)
    requires |b| == |c| && Signed(b) == Signed(c)
    ensures b == c
  {
    if b != [] {
      SignedRange(b);
      SignedRange(c);
    }
    BigEndianUnsigned(b);
    BigEndianUnsigned(c);
  }

  // ----- unpadBigInt -----

  function Unpad(b: seq<Byte>): (r: seq<Byte>)
  {
    if Padded(b) then Unpad(b[1..]) else b
  }

  /** Unpadding keeps the number. */
  lemma {:induction false} UnpadValue(b: seq<Byte>)
    ensures Signed(Unpad(b)) == Signed(b)
    ensures b != [] ==> Unpad(b) != [] && !Padded(Unpad(b))
  {
    if !Padded(b) {
    } else {
      DropPad(b);
      UnpadValue(b[1..]);
    }
  }

  /** And no nonempty string that spells the same number is shorter. */
  lemma UnpadShortest(b: seq<Byte>, c: seq<Byte>)
    requires b != [] && c != [] && Signed(c) == Signed(b)
    ensures |c| >= |Unpad(b)|
  {
    UnpadValue(b);
    UnpaddedIsShortest(Unpad(b), c);
  }

  /** unpadBigInt: skip leading bytes that repeat the sign bit of the next byte. */
  method UnpadBigInt(data: seq<Byte>) returns (r: seq<Byte>)
    ensures r == Unpad(data)
  {
    if |data| < 2 {
      return data;
    }
    var i := 0;
    while i + 1 < |data|
      invariant 0 <= i < |data|
      invariant Unpad(data[i..]) == Unpad(data)
    {
      assert data[i..][0] == data[i] && data[i..][1] == data[i + 1];
      if data[i] == 0xFF && data[i + 1] >= 0x80 {
      } else if data[i] == 0x00 && data[i + 1] < 0x80 {
      } else {
        return data[i..];
      }
      assert data[i..][1..] == data[i + 1..];
      i := i + 1;
    }
    r := data[i..];
  }

  // ----- encodeBigInt -----

  /** big.Int's Bytes: the magnitude without leading zeros. */
  function Magnitude(n: nat): seq<Byte>
  {
    if n == 0 then [] else Magnitude(n / 256) + [n % 256]
  }

  /** big.Int's BitLen. */
  function BitLen(n: nat): nat
  {
    if n == 0 then 0 else 1 + BitLen(n / 2)
  }

  /** How many bytes reach the next multiple of eight. */
  function PadTo8(l: nat): (p: nat)
    ensures p < 8 && (l + p) % 8 == 0
  {
    if l % 8 > 0 then 8 - l % 8 else 0
  }

  lemma RoundUp(l: nat, m: nat)
    requires m % 8 == 0 && l <= m
    ensures l + PadTo8(l) <= m
  {
  }

  function Pow2(k: nat): (p: nat)
    ensures p >= 1
  {
    if k == 0 then 1 else 2 * Pow2(k - 1)
  }

  lemma {:induction false} Pow2Monotone(i: nat, j: nat)
    requires i <= j
    ensures Pow2(i) <= Pow2(j)
  {
    if i == j {
    } else {
      Pow2Monotone(i, j - 1);
    }
  }

  lemma {:induction false} Pow2Bytes(k: nat)
    ensures Pow2(8 * k) == Pow256(k)
  {
    if k == 0 {
    } else {
      var e := 8 * k - 8;
      assert Pow2(e + 2) == 2 * Pow2(e + 1) == 4 * Pow2(e);
      assert Pow2(e + 4) == 2 * Pow2(e + 3) == 4 * Pow2(e + 2);
      assert Pow2(e + 6) == 2 * Pow2(e + 5) == 4 * Pow2(e + 4);
      assert Pow2(e + 8) == 2 * Pow2(e + 7) == 4 * Pow2(e + 6);
      Pow2Bytes(k - 1);
    }
  }

  lemma {:induction false} BitLenBound(n: nat)
    ensures n < Pow2(BitLen(n))
    ensures n > 0 ==> Pow2(BitLen(n)) <= 2 * n
  {
    if n == 0 {
    } else {
      BitLenBound(n / 2);
    }
  }

  /** `BitLen / 8 + 1` bytes hold the magnitude and a sign bit. One byte fewer does not, save for
      the complement of a power of two on a byte boundary. */
  lemma SignedWidth(n: nat)
    ensures var k := BitLen(n) / 8 + 1;
            && 2 * n < Pow256(k)
            && (k > 1 ==> 2 * n >= Pow256(k - 1))
  {
    var l := BitLen(n);
    var k := l / 8 + 1;
    BitLenBound(n);
    Pow2Monotone(l + 1, 8 * k);
    Pow2Bytes(k);
    if k > 1 {
      Pow2Monotone(8 * (k - 1), l);
      Pow2Bytes(k - 1);
    }
  }

  lemma {:induction false} MagnitudeCorrect(n: nat)
    ensures Unsigned(Magnitude(n)) == n
    ensures n > 0 ==> Magnitude(n) != [] && Magnitude(n)[0] != 0
  {
    if n == 0 {
    } else {
      MagnitudeCorrect(n / 256);
      assert Magnitude(n)[..|Magnitude(n)| - 1] == Magnitude(n / 256);
    }
  }

  /** Two's complement of a negative number in `BitLen / 8 + 1` bytes. */
  function Complement(i: int): (j: nat)
    requires i < 0
  {
    SignedWidth(-i);
    Pow256(BitLen(-i) / 8 + 1) + i
  }

  /** Drop the extra byte that appears when the top bit sits on a byte boundary. */
  function Strip(b: seq<Byte>): seq<Byte>
  {
    if |b| >= 2 && b[0] == 0xFF && b[1] >= 0x80 then b[1..] else b
  }

  /** A magnitude with a zero sign byte where its top bit is set, filled up to whole words. */
  function FillPositive(b: seq<Byte>): seq<Byte>
  {
    var lead := if b != [] && b[0] >= 128 then Zeros(1) else [];
    lead + Zeros(PadTo8(|lead| + |b|)) + b
  }

  /** The value bytes that encodeBigInt writes. */
  function Encode(i: int): seq<Byte>
  {
    if i == 0 then
      Zeros(8)
    else if i > 0 then
      FillPositive(Magnitude(i))
    else
      var b := Strip(Magnitude(Complement(i)));
      Repeat(255, PadTo8(|b|)) + b
  }

  /** A zero byte keeps a magnitude with its top bit set from looking negative. */
  lemma LeadByte(b: seq<Byte>)
    requires b != [] && b[0] >= 128
    ensures var core := Zeros(1) + b;
            !Padded(core) && Signed(core) == Unsigned(b)
            && FillPositive(b) == Repeat(0, PadTo8(|core|)) + core
  {
    LeadingZero(b);
    var p := PadTo8(1 + |b|);
    assert Zeros(1) + Zeros(p) == Repeat(0, p) + Zeros(1);
    ConcatAssociative(Repeat(0, p), Zeros(1), b);
  }

  lemma NoLeadByte(b: seq<Byte>)
    requires b != [] && 0 < b[0] < 128
    ensures !Padded(b) && Signed(b) == Unsigned(b)
    ensures FillPositive(b) == Repeat(0, PadTo8(|b|)) + b
  {
    assert [] + Zeros(PadTo8(|b|)) == Repeat(0, PadTo8(|b|));
  }

  /** The unpadded two's-complement core of a positive encoding. */
  lemma PositiveCore(i: int) returns (core: seq<Byte>)
    requires i > 0
    ensures core != [] && !Padded(core) && Signed(core) == i && core[0] < 128
    ensures Encode(i) == Repeat(0, PadTo8(|core|)) + core
  {
    var b := Magnitude(i);
    MagnitudeCorrect(i);
    if b[0] >= 128 {
      LeadByte(b);
      core := Zeros(1) + b;
    } else {
      NoLeadByte(b);
      core := b;
    }
  }

  /** The complement of a negative number spells it in `BitLen / 8 + 1` bytes. */
  lemma ComplementBytes(i: int) returns (b: seq<Byte>, k: nat)
    requires i < 0
    ensures k == BitLen(-i) / 8 + 1 && b == Magnitude(Complement(i))
    ensures |b| == k && Signed(b) == i && b[0] >= 128
    ensures k > 1 ==> -2 * i >= Pow256(k - 1)
  {
    k := BitLen(-i) / 8 + 1;
    SignedWidth(-i);
    b := Magnitude(Complement(i));
    UpperHalf(Complement(i), k);
  }

  /** Numbers in the upper half of `k` bytes spell negative numbers. */
  lemma UpperHalf(c: nat, k: nat)
    requires k > 0 && Pow256(k) <= 2 * c && c < Pow256(k)
    ensures var b := Magnitude(c); |b| == k && b[0] >= 128 && Signed(b) == c - Pow256(k)
  {
    MagnitudeCorrect(c);
    assert Pow256(k) == 256 * Pow256(k - 1);
    MagnitudeLength(c, k);
    SignedRange(Magnitude(c));
  }

  lemma NegativeCore(i: int) returns (core: seq<Byte>)
    requires i < 0
    ensures core != [] && !Padded(core) && Signed(core) == i && core[0] >= 128
    ensures Encode(i) == Repeat(255, PadTo8(|core|)) + core
  {
    var b, k := ComplementBytes(i);
    core := Strip(b);
    if core != b {
      DropPad(b);
      if Padded(core) {
        TwicePadded(core, k);
      }
    }
  }

  /** The strip removes a byte exactly for the negated powers of two on a byte boundary, the only
      numbers whose complement fits in one byte fewer. */
  lemma StripExactly(i: int)
    requires i < 0
    ensures var k := BitLen(-i) / 8 + 1;
            var b := Magnitude(Complement(i));
            |b| == k && (Strip(b) != b <==> k > 1 && -2 * i == Pow256(k - 1))
  {
    var b, k := ComplementBytes(i);
    if Padded(b) {
      DropPad(b);
      SignedRange(b[1..]);
    } else if k > 1 {
      UnpaddedIsWide(b);
    }
  }

  /** A number at least half the range of `k - 1` bytes is not doubly padded in `k`. */
  lemma TwicePadded(b: seq<Byte>, k: nat)
    requires Padded(b) && |b| == k - 1
    ensures 0 - Pow256(k - 1) < 2 * Signed(b) < Pow256(k - 1)
  {
    DropPad(b);
    SignedRange(b[1..]);
  }

  lemma {:induction false} MagnitudeLength(n: nat, k: nat)
    requires k > 0 && Pow256(k - 1) <= n < Pow256(k)
    ensures |Magnitude(n)| == k
  {
    if k == 1 {
      assert Magnitude(n) == Magnitude(0) + [n];
    } else {
      MagnitudeLength(n / 256, k - 1);
    }
  }

  lemma PositiveValue(i: int)
    requires i > 0
    ensures Signed(Encode(i)) == i
  {
    var core := PositiveCore(i);
    SignExtend(0, PadTo8(|core|), core);
  }

  lemma NegativeValue(i: int)
    requires i < 0
    ensures Signed(Encode(i)) == i
  {
    var core := NegativeCore(i);
    SignExtend(255, PadTo8(|core|), core);
  }

  lemma ZeroValue()
    ensures Signed(Zeros(8)) == 0
  {
    SignExtend(0, 7, Zeros(1));
    assert Zeros(8) == Repeat(0, 7) + Zeros(1);
    SignedOne(Zeros(1));
  }

  lemma EncodeLength(i: int)
    ensures |Encode(i)| % 8 == 0 && |Encode(i)| > 0
  {
    if i > 0 {
      var core := PositiveCore(i);
    } else if i < 0 {
      var core := NegativeCore(i);
    }
  }

  lemma EncodeValue(i: int)
    ensures Signed(Encode(i)) == i
    ensures |Encode(i)| % 8 == 0 && |Encode(i)| > 0
  {
    EncodeLength(i);
    if i > 0 {
      PositiveValue(i);
    } else if i < 0 {
      NegativeValue(i);
    } else {
      ZeroValue();
    }
  }

  /** Decoding an encoded big integer gives it back, with or without unpadding first. */
  lemma EncodeRoundTrip(i: int)
    ensures Signed(Unpad(Encode(i))) == i
    ensures Signed(Encode(i)) == i
    ensures |Encode(i)| % 8 == 0 && |Encode(i)| > 0
  {
    EncodeValue(i);
    UnpadValue(Encode(i));
  }

  /** No other string of whole eight-byte words that spells the number is as short. */
  lemma EncodeShortest(i: int, c: seq<Byte>)
    requires c != [] && |c| % 8 == 0 && Signed(c) == i
    ensures |Encode(i)| <= |c|
    ensures |Encode(i)| == |c| ==> Encode(i) == c
  {
    EncodeValue(i);
    if i > 0 {
      var core := PositiveCore(i);
      UnpaddedIsShortest(core, c);
      RoundUp(|core|, |c|);
    } else if i < 0 {
      var core := NegativeCore(i);
      UnpaddedIsShortest(core, c);
      RoundUp(|core|, |c|);
    }
    if |Encode(i)| == |c| {
      SignedInjective(Encode(i), c);
    }
  }

  /** A string of whole words is the encoding of its number exactly when it carries fewer than
      eight pad bytes. */
  lemma MinimalForm(b: seq<Byte>)
    requires b != [] && |b| % 8 == 0
    ensures b == Encode(Signed(b)) <==> |b| < |Unpad(b)| + 8
  {
    var e := Encode(Signed(b));
    EncodeValue(Signed(b));
    EncodeShortest(Signed(b), b);
    SameUnpadded(b, e);
    UnpadLength(b);
    UnpadLength(e);
    EncodePads(Signed(b));
    SameWord(|Unpad(b)|, |e|, |b|);
  }

  lemma SameUnpadded(b: seq<Byte>, c: seq<Byte>)
    requires b != [] && c != [] && Signed(b) == Signed(c)
    ensures |Unpad(b)| == |Unpad(c)|
  {
    UnpadValue(b);
    UnpadValue(c);
    UnpadShortest(b, Unpad(c));
    UnpadShortest(c, Unpad(b));
  }

  lemma SameWord(u: nat, e: nat, b: nat)
    requires u <= e < u + 8 && e % 8 == 0 && b % 8 == 0 && e <= b
    ensures b < u + 8 ==> b == e
  {
  }

  lemma {:induction false} UnpadLength(b: seq<Byte>)
    ensures |Unpad(b)| <= |b|
  {
    if !Padded(b) {
    } else {
      UnpadLength(b[1..]);
    }
  }

  lemma EncodePads(i: int)
    ensures |Encode(i)| < |Unpad(Encode(i))| + 8
  {
    var e := Encode(i);
    EncodeValue(i);
    UnpadValue(e);
    var u := Unpad(e);
    if i > 0 {
      var core := PositiveCore(i);
      UnpaddedIsShortest(core, u);
    } else if i < 0 {
      var core := NegativeCore(i);
      UnpaddedIsShortest(core, u);
    }
  }
}
