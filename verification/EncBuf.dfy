/** The encode buffer: headers are written with a hole for the length, which is filled in place
    once the value segment is complete. */
module EncodeBuffer {
  import opened Bytes
  import opened Wire
  import opened Grammar
  import opened Items
  import BigInteger

  lemma TagBytes(tag: Word)
    ensures BigEndian(tag, 3) == [tag / 0x1_0000 % 256, tag / 0x100 % 256, tag % 256]
  {
    assert BigEndian(tag, 3) == BigEndian(tag / 256, 2) + [tag % 256];
    assert BigEndian(tag / 256, 2) == BigEndian(tag / 256 / 256, 1) + [tag / 256 % 256];
    assert BigEndian(tag / 256 / 256, 1) == BigEndian(tag / 256 / 256 / 256, 0) + [tag / 256 / 256 % 256];
  }

  /** Filling the length hole of a finished segment completes its header. */
  lemma HoleFilled(before: seq<Byte>, tag: nat, typ: Byte, body: seq<Byte>)
    ensures var buf := before + Header(tag, typ, 0) + body;
            var i := |before| + HEADER;
            buf[..i - 4] + BigEndian(|body|, 4) + buf[i..] == before + (Header(tag, typ, |body|) + body)
  {
    ReplaceMiddle(before, BigEndian(tag, 3) + [typ], BigEndian(0, 4), BigEndian(|body|, 4), body);
  }

  class EncBuf {
    var buf: seq<Byte>

    constructor ()
      ensures buf == []
    {
      buf := [];
    }

    method Write(b: seq<Byte>)
      modifies this
      ensures buf == old(buf) + b
    {
      buf := buf + b;
    }

    /** Start a block: tag, type, and a zero length to be filled by `End`. */
    method Begin(tag: Word, typ: Byte) returns (i: nat)
      modifies this
      ensures buf == old(buf) + Header(tag, typ, 0) && i == |buf|
    {
      TagBytes(tag);
      buf := buf + [tag / 0x1_0000 % 256];
      buf := buf + [tag / 0x100 % 256];
      buf := buf + [tag % 256];
      buf := buf + [typ];
      assert Zeros(4) == BigEndian(0, 4) by { ZeroWord(); }
      buf := buf + Zeros(4);
      i := |buf|;
    }

    /** Pad the segment that starts at `i` and fill its length hole. */
    method End(i: nat)
      requires HEADER <= i <= |buf|
      modifies this
      ensures var n := |old(buf)| - i;
              buf == old(buf)[..i - 4] + BigEndian(n, 4) + old(buf)[i..] + Zeros(BigInteger.PadTo8(n))
    {
      var n := |buf| - i;
      if n % 8 > 0 {
        buf := buf + Zeros(8 - n % 8);
      }
      buf := buf[..i - 4] + BigEndian(n, 4) + buf[i..];
    }

    /** `End` after a segment whose block began at the end of `before`. */
    method EndBlock(i: nat, ghost before: seq<Byte>, ghost tag: nat, ghost typ: Byte, ghost body: seq<Byte>)
      requires buf == before + Header(tag, typ, 0) + body && i == |before| + HEADER
      modifies this
      ensures buf == before + (Header(tag, typ, |body|) + body + Zeros(BigInteger.PadTo8(|body|)))
    {
      HoleFilled(before, tag, typ, body);
      ConcatAssociative(before, Header(tag, typ, |body|) + body, Zeros(BigInteger.PadTo8(|body|)));
      End(i);
    }

    method WriteIntVal(tag: Word, typ: Byte, val: Word)
      modifies this
      ensures buf == old(buf) + Render(WordNode(tag, typ, val))
    {
      ghost var before := buf;
      var s := Begin(tag, typ);
      var ll := |buf|;
      buf := buf + Zeros(4);
      buf := buf[..ll] + BigEndian(val, 4) + buf[ll + 4..];
      EndBlock(s, before, tag, typ, BigEndian(val, 4));
    }

    method WriteLongIntVal(tag: Word, typ: Byte, i: int)
      modifies this
      ensures buf == old(buf) + Render(LongNode(tag, typ, i))
    {
      ghost var before := buf;
      var s := Begin(tag, typ);
      var ll := |buf|;
      buf := buf + Zeros(8);
      buf := buf[..ll] + BigEndian(U64(i), 8) + buf[ll + 8..];
      EndBlock(s, before, tag, typ, BigEndian(U64(i), 8));
      assert Render(LongNode(tag, typ, i)) ==
             Header(tag, typ, 8) + BigEndian(U64(i), 8) + Zeros(BigInteger.PadTo8(8));
    }

    method WriteString(tag: Word, typ: Byte, s: seq<Byte>)
      modifies this
      ensures buf == old(buf) + Render(PaddedNode(tag, typ, s))
    {
      ghost var before := buf;
      var i := Begin(tag, typ);
      Write(s);
      EndBlock(i, before, tag, typ, s);
    }

    method WritePositive(n: int)
      requires n > 0
      modifies this
      ensures buf == old(buf) + BigInteger.Encode(n)
    {
      ghost var start := buf;
      var b := BigInteger.Magnitude(n);
      BigInteger.MagnitudeCorrect(n);
      var l := |b|;
      ghost var lead: seq<Byte> := [];
      if b[0] >= 128 {
        lead := Zeros(1);
        Write(Zeros(1));
        l := l + 1;
      }
      assert buf == start + lead;
      if l % 8 > 0 {
        Write(Zeros(8 - l % 8));
      }
      assert buf == start + lead + Zeros(BigInteger.PadTo8(l));
      ConcatAssociative(start, lead, Zeros(BigInteger.PadTo8(l)));
      ConcatAssociative(start, lead + Zeros(BigInteger.PadTo8(l)), b);
      Write(b);
    }

    method WriteNegative(n: int)
      requires n < 0
      modifies this
      ensures buf == old(buf) + BigInteger.Encode(n)
    {
      ghost var start := buf;
      var b := BigInteger.Magnitude(BigInteger.Complement(n));
      if |b| >= 2 && b[0] == 0xFF && b[1] >= 0x80 {
        b := b[1..];
      }
      var l := |b|;
      if l % 8 > 0 {
        Write(Repeat(255, 8 - l % 8));
      }
      assert buf == start + Repeat(255, BigInteger.PadTo8(l));
      ConcatAssociative(start, Repeat(255, BigInteger.PadTo8(l)), b);
      Write(b);
    }

    /** encodeBigInt: sign bytes, padding and magnitude are written in turn. */
    method EncodeBigInt(tag: Word, n: int)
      modifies this
      ensures buf == old(buf) + Render(PaddedNode(tag, BIG_INTEGER, BigInteger.Encode(n)))
    {
      ghost var before := buf;
      var ii := Begin(tag, BIG_INTEGER);
      if n == 0 {
        Write(Zeros(8));
      } else if n > 0 {
        WritePositive(n);
      } else {
        WriteNegative(n);
      }
      EndBlock(ii, before, tag, BIG_INTEGER, BigInteger.Encode(n));
    }

    /** The encode method of each item type. */
    method EncodeItem(tag: Word, x: Item)
      modifies this
      ensures buf == old(buf) + RenderAll(Blocks(tag, x))
    {
      ghost var before := buf;
      match x {
        case Integer(i) => WriteIntVal(tag, INTEGER, U32(i));
        case LongInteger(l) => WriteLongIntVal(tag, LONG_INTEGER, l);
        case BigInt(n) => EncodeBigInt(tag, n);
        case Enumeration(u) => WriteIntVal(tag, ENUMERATION, u);
        case Boolean(b) => WriteLongIntVal(tag, BOOLEAN, if b then 1 else 0);
        case TextString(s) => WriteString(tag, TEXT_STRING, s);
        case ByteString(None) =>
        case ByteString(Some(b)) => WriteString(tag, BYTE_STRING, b);
        case DateTime(ns) => WriteLongIntVal(tag, DATE_TIME, ns / SECOND);
        case DateTimeExtended(ns) => WriteLongIntVal(tag, DATE_TIME_EXTENDED, Microseconds(ns));
        case Interval(d) => WriteIntVal(tag, INTERVAL, U32(Truncate(d, SECOND)));
      }
      if Blocks(tag, x) != [] {
        RenderOne(Blocks(tag, x)[0]);
      }
    }
  }

  lemma RenderOne(n: Node)
    ensures RenderAll([n]) == Render(n)
  {
    assert [n][1..] == [];
  }

  lemma ZeroWord()
    ensures BigEndian(0, 4) == Zeros(4)
  {
    assert BigEndian(0, 4) == BigEndian(0, 3) + [0];
    assert BigEndian(0, 3) == BigEndian(0, 2) + [0];
    assert BigEndian(0, 2) == BigEndian(0, 1) + [0];
    assert BigEndian(0, 1) == BigEndian(0, 0) + [0];
  }
}
