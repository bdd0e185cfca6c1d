/** Hex text as the KMIP Profiles use it, and its decoding to integers. */
module Hex {
  import opened Bytes

  function Digit(d: nat): Byte
    requires d < 16
  {
    if d < 10 then 0x30 + d else 0x57 + d
  }

  function DigitValue(c: Byte): Option<nat>
  {
    if 0x30 <= c <= 0x39 then Some(c - 0x30)
    else if 0x41 <= c <= 0x46 then Some(c - 0x37)
    else if 0x61 <= c <= 0x66 then Some(c - 0x57)
    else None
  }

  const LOWER: string := "0123456789abcdef"
  const UPPER: string := "0123456789ABCDEF"

  /** Digits are written in lower case and read in either. */
  lemma DigitsExact(c: Byte, d: nat)
    requires d < 16
    ensures Digit(d) == LOWER[d] as int
    ensures DigitValue(c) == Some(d) <==> c == LOWER[d] as int || c == UPPER[d] as int
  {
  }

  lemma DigitRange(c: Byte)
    ensures DigitValue(c).Some? ==> DigitValue(c).value < 16
  {
  }

  /** Two digits a byte. */
  function Encode(b: seq<Byte>): Text
  {
    if b == [] then [] else
    var x := b[|b| - 1];
    Encode(b[..|b| - 1]) + [Digit(x / 16), Digit(x % 16)]
  }

  function Decode(s: Text): (r: Option<seq<Byte>>)
  {
    if s == [] then Some([])
    else if |s| == 1 then None
    else
      var hi, lo, front := DigitValue(s[|s| - 2]), DigitValue(s[|s| - 1]), Decode(s[..|s| - 2]);
      if front.Some? && hi.Some? && lo.Some? && hi.value < 16 && lo.value < 16
      then Some(front.value + [16 * hi.value + lo.value]) else None
  }

  lemma DigitInverse(d: nat)
    requires d < 16
    ensures DigitValue(Digit(d)) == Some(d)
  {
  }

  lemma DecodeStep(front: Text, x: Byte)
    requires Decode(front).Some?
    ensures Decode(front + [Digit(x / 16), Digit(x % 16)]) == Some(Decode(front).value + [x])
  {
    var s := front + [Digit(x / 16), Digit(x % 16)];
    assert s[..|s| - 2] == front;
    DigitInverse(x / 16);
    DigitInverse(x % 16);
  }

  lemma {:induction false} DecodeEncode(b: seq<Byte>)
    ensures Decode(Encode(b)) == Some(b)
  {
    if b == [] {
    } else {
      var front, x := b[..|b| - 1], b[|b| - 1];
      DecodeEncode(front);
      DecodeStep(Encode(front), x);
      FrontLast(b);
    }
  }

  /** The text spells the bytes, two digits each. */
  ghost predicate Spells(s: Text, b: seq<Byte>)
  {
    |s| == 2 * |b| && forall i :: 0 <= i < |b| ==>
      DigitValue(s[2 * i]) == Some(b[i] / 16) && DigitValue(s[2 * i + 1]) == Some(b[i] % 16)
  }

  lemma SpellsLast(s: Text, b: seq<Byte>)
    requires |s| == 2 * |b| && b != []
    ensures Spells(s, b) <==>
            && Spells(s[..|s| - 2], b[..|b| - 1])
            && DigitValue(s[|s| - 2]) == Some(b[|b| - 1] / 16) && DigitValue(s[|s| - 1]) == Some(b[|b| - 1] % 16)
  {
    var k := |b| - 1;
    assert 2 * k == |s| - 2;
    forall i | 0 <= i < k
      ensures s[..|s| - 2][2 * i] == s[2 * i] && s[..|s| - 2][2 * i + 1] == s[2 * i + 1] && b[..k][i] == b[i]
    {
    }
  }

  lemma {:induction false} DecodeExact(s: Text, b: seq<Byte>)
    ensures Decode(s) == Some(b) <==> Spells(s, b)
    decreases |s|
  {
    if |s| < 2 {
    } else if b == [] {
    } else {
      DecodeExact(s[..|s| - 2], b[..|b| - 1]);
      if |s| == 2 * |b| {
        SpellsLast(s, b);
      }
      DecodeLast(s, b);
    }
  }

  lemma DecodeLast(s: Text, b: seq<Byte>)
    requires |s| >= 2 && b != []
    ensures Decode(s) == Some(b) <==>
            && Decode(s[..|s| - 2]) == Some(b[..|b| - 1])
            && DigitValue(s[|s| - 2]) == Some(b[|b| - 1] / 16) && DigitValue(s[|s| - 1]) == Some(b[|b| - 1] % 16)
  {
    FrontLast(b);
    DigitRange(s[|s| - 2]);
    DigitRange(s[|s| - 1]);
    var front, hi, lo := Decode(s[..|s| - 2]), DigitValue(s[|s| - 2]), DigitValue(s[|s| - 1]);
    if front.Some? && hi.Some? && lo.Some? {
      Nibbles(hi.value, lo.value, b[|b| - 1]);
      SameLast(front.value, 16 * hi.value + lo.value, b);
    }
  }

  lemma Nibbles(hi: nat, lo: nat, x: Byte)
    requires hi < 16 && lo < 16
    ensures 16 * hi + lo == x <==> hi == x / 16 && lo == x % 16
  {
  }

  lemma SameLast(front: seq<Byte>, x: Byte, b: seq<Byte>)
    requires b != []
    ensures front + [x] == b <==> front == b[..|b| - 1] && x == b[|b| - 1]
  {
    FrontLast(b);
    ConcatSlices(front, [x]);
    ConcatSlices(b[..|b| - 1], [b[|b| - 1]]);
  }

  lemma {:induction false} EncodeLength(b: seq<Byte>)
    ensures |Encode(b)| == 2 * |b|
    ensures forall i :: 0 <= i < |Encode(b)| ==> DigitValue(Encode(b)[i]).Some?
  {
    if b == [] {
    } else {
      EncodeLength(b[..|b| - 1]);
    }
  }

  /** Lower-case digits, zero-padded to at least `w`. */
  function Digits(v: nat, w: nat): Text
    decreases v + w
  {
    if v == 0 && w == 0 then []
    else Digits(v / 16, if w > 0 then w - 1 else 0) + [Digit(v % 16)]
  }

  const PREFIX: Text := [0x30, 0x78]

  /** The formatting verb "%#0wx". */
  function Format(v: nat, w: nat): Text
  {
    PREFIX + Digits(v, w)
  }

  lemma NibbleSplit(v: nat)
    ensures v / 16 / 16 == v / 256 && (v % 256) / 16 == v / 16 % 16 && (v % 256) % 16 == v % 16
  {
  }

  lemma DigitsStep(v: nat, w: nat)
    requires w >= 2
    ensures Digits(v, w) == Digits(v / 256, w - 2) + [Digit((v % 256) / 16), Digit((v % 256) % 16)]
  {
    NibbleSplit(v);
    assert Digits(v, w) == Digits(v / 16, w - 1) + [Digit(v % 16)];
    assert Digits(v / 16, w - 1) == Digits(v / 16 / 16, w - 2) + [Digit(v / 16 % 16)];
  }

  lemma {:induction false} DigitsAreBytes(v: nat, k: nat)
    requires v < Pow256(k)
    ensures Digits(v, 2 * k) == Encode(BigEndian(v, k))
  {
    if k == 0 {
    } else {
      DigitsAreBytes(v / 256, k - 1);
      DigitsStep(v, 2 * k);
      ConcatSlices(BigEndian(v / 256, k - 1), [v % 256]);
    }
  }

  // ----- ParseHexValue and DecodeUint32 -----

  predicate IsHex(s: Text)
  {
    |s| >= 2 && s[..2] == PREFIX
  }

  datatype Value = NotHex | Invalid | Bytes(bytes: seq<Byte>)

  /** Length without leading zero bytes. */
  function Significant(b: seq<Byte>): (l: nat)
    ensures l <= |b|
  {
    if b != [] && b[0] == 0 then Significant(b[1..]) else |b|
  }

  function Parse(s: Text, maxLen: nat): Value
  {
    if !IsHex(s) then NotHex
    else
      match Decode(s[2..])
      case None => Invalid
      case Some(b) => if maxLen > 0 && Significant(b) > maxLen then Invalid else Bytes(b)
  }

  lemma {:induction false} SignificantExact(b: seq<Byte>, maxLen: nat)
    ensures Significant(b) <= maxLen <==> Unsigned(b) < Pow256(maxLen)
  {
    if b == [] {
    } else if b[0] == 0 {
      SignificantExact(b[1..], maxLen);
      LeadingZero(b[1..]);
      HeadTail(b);
      assert [0] + b[1..] == Zeros(1) + b[1..];
    } else {
      UnsignedBound(b);
      FirstByteCounts(b);
      if |b| <= maxLen {
        PowMonotone(|b|, maxLen);
      } else {
        PowMonotone(maxLen, |b| - 1);
      }
    }
  }

  lemma {:induction false} FirstByteCounts(b: seq<Byte>)
    requires b != [] && b[0] != 0
    ensures Unsigned(b) >= Pow256(|b| - 1)
  {
    if |b| == 1 {
      assert b[..0] == [];
    } else {
      FirstByteCounts(b[..|b| - 1]);
    }
  }

  /** Hex values are "0x" and pairs of digits; a maximum length bounds the number, not the digits. */
  lemma ParseExact(s: Text, maxLen: nat, b: seq<Byte>)
    ensures Parse(s, maxLen) == Bytes(b) <==>
            |s| >= 2 && s[..2] == PREFIX && Spells(s[2..], b) && (maxLen > 0 ==> Unsigned(b) < Pow256(maxLen))
    ensures Parse(s, maxLen) == NotHex <==> !(|s| >= 2 && s[..2] == PREFIX)
  {
    if IsHex(s) {
      DecodeExact(s[2..], b);
      SignificantExact(b, maxLen);
    }
  }

  /** ParseHexValue: leading zero bytes do not count against `maxLen` but are kept. */
  method ParseHexValue(s: Text, maxLen: nat) returns (r: Value)
    ensures r == Parse(s, maxLen)
  {
    if !IsHex(s) {
      return NotHex;
    }
    var d := Decode(s[2..]);
    if d.None? {
      return Invalid;
    }
    var b := d.value;
    if maxLen > 0 {
      var l := |b|;
      var i := 0;
      while i < |b| && b[i] == 0
        invariant 0 <= i <= |b| && l == |b| - i
        invariant Significant(b[i..]) == Significant(b)
      {
        assert b[i..][1..] == b[i + 1..];
        l := l - 1;
        i := i + 1;
      }
      if l > maxLen {
        return Invalid;
      }
    }
    return Bytes(b);
  }

  /** Left-pad with zero bytes to width `l`; a longer string is left alone. */
  function Pad(b: seq<Byte>, l: nat): (r: seq<Byte>)
    ensures |r| >= l
  {
    if |b| < l then Zeros(l - |b|) + b else b
  }

  /** Reads the first four bytes of the padded string. */
  function DecodeUint32(b: seq<Byte>): (u: nat)
    ensures u < TWO32
  {
    var p := Pad(b, 4)[..4];
    PowWords();
    UnsignedBound(p);
    Unsigned(p)
  }

  function DecodeUint64(b: seq<Byte>): (u: nat)
    ensures u < TWO64
  {
    var p := Pad(b, 8)[..8];
    PowWords();
    UnsignedBound(p);
    Unsigned(p)
  }

  lemma {:induction false} LeadingZeros(k: nat, b: seq<Byte>)
    ensures Unsigned(Zeros(k) + b) == Unsigned(b)
  {
    if k == 0 {
      assert Zeros(0) + b == b;
    } else {
      LeadingZeros(k - 1, b);
      LeadingZero(Zeros(k - 1) + b);
      assert Zeros(k) + b == Zeros(1) + (Zeros(k - 1) + b);
    }
  }

  lemma {:induction false} PrefixSmaller(b: seq<Byte>, k: nat)
    requires k < |b|
    ensures Unsigned(b[..k]) <= Unsigned(b)
    ensures Unsigned(b[..k]) == Unsigned(b) ==> Unsigned(b) == 0
  {
    var c := b[..|b| - 1];
    if k < |b| - 1 {
      PrefixSmaller(c, k);
      assert c[..k] == b[..k];
    } else {
      assert b[..k] == c;
    }
  }

  lemma PaddedPrefix(b: seq<Byte>, w: nat)
    ensures Unsigned(Pad(b, w)[..w]) == Unsigned(b) <==> |b| <= w || Unsigned(b) == 0
  {
    if |b| <= w {
      ShortPrefix(b, w);
    } else {
      PrefixSmaller(b, w);
    }
  }

  lemma ShortPrefix(b: seq<Byte>, w: nat)
    requires |b| <= w
    ensures Unsigned(Pad(b, w)[..w]) == Unsigned(b)
  {
    WholeSlice(Pad(b, w), w);
    if |b| < w {
      LeadingZeros(w - |b|, b);
    }
  }

  /** ParseHexValue admits longer strings with leading zeros, but the number is then read from
      the front: it is right exactly when the bytes fit or are all zero. */
  lemma DecodeUintExact(b: seq<Byte>)
    ensures DecodeUint32(b) == Unsigned(b) <==> |b| <= 4 || Unsigned(b) == 0
    ensures DecodeUint64(b) == Unsigned(b) <==> |b| <= 8 || Unsigned(b) == 0
  {
    PaddedPrefix(b, 4);
    PaddedPrefix(b, 8);
  }

  /** A number formatted to its full width has that many lower-case digits and parses back. */
  lemma FormatParse(v: nat, k: nat)
    requires 0 < k && v < Pow256(k)
    ensures |Format(v, 2 * k)| == 2 + 2 * k && Format(v, 2 * k)[..2] == PREFIX
    ensures Format(v, 2 * k)[2..] == Encode(BigEndian(v, k))
    ensures Parse(Format(v, 2 * k), k) == Bytes(BigEndian(v, k))
    ensures k <= 4 ==> DecodeUint32(BigEndian(v, k)) == v
  {
    DigitsAreBytes(v, k);
    DecodeEncode(BigEndian(v, k));
    var s := Format(v, 2 * k);
    assert s[..2] == PREFIX && s[2..] == Digits(v, 2 * k);
    EncodeLength(BigEndian(v, k));
    UnsignedBigEndian(v, k);
    DecodeUintExact(BigEndian(v, k));
  }
}
