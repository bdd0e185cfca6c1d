/** The KMIP item types as Go values: what each encode method writes and each accessor reads. */
module Items {
  import opened Bytes
  import opened Wire
  import opened Grammar
  import BigInteger

  type Int32 = x: int | -0x8000_0000 <= x < 0x8000_0000
  type Int64 = x: int | -0x8000_0000_0000_0000 <= x < 0x8000_0000_0000_0000

  const SECOND: int := 1_000_000_000

  /** One scalar item. Instants and durations are nanosecond counts, instants from the Unix
      epoch. A byte string may be nil. */
  datatype Item =
    | Integer(i: Int32)
    | LongInteger(l: Int64)
    | BigInt(n: int)
    | Enumeration(u: Word)
    | Boolean(b: bool)
    | TextString(s: Text)
    | ByteString(bytes: Option<seq<Byte>>)
    | DateTime(ns: int)
    | DateTimeExtended(ns: int)
    | Interval(d: int)

  // ----- what is written -----

  function WordNode(tag: nat, typ: Byte, u: Word): Node
  {
    Leaf(tag, typ, BigEndian(u, 4), Zeros(4))
  }

  function LongNode(tag: nat, typ: Byte, l: int): Node
  {
    Leaf(tag, typ, BigEndian(U64(l), 8), [])
  }

  /** A value segment with the padding that `end` adds. */
  function PaddedNode(tag: nat, typ: Byte, value: seq<Byte>): Node
  {
    Leaf(tag, typ, value, Zeros(BigInteger.PadTo8(|value|)))
  }

  /** Division toward zero, as durations divide. */
  function Truncate(a: int, b: int): int
    requires b > 0
  {
    if a >= 0 then a / b else -((-a) / b)
  }

  /** Whole seconds times a million, plus the microseconds of the remainder, in 64 bits. */
  function Microseconds(ns: int): int
  {
    var unix, nanosecond := ns / SECOND, ns % SECOND;
    I64(I64(unix * 1_000_000) + nanosecond / 1000)
  }

  /** The block written for an item; nil byte strings write nothing. */
  function Blocks(tag: nat, x: Item): seq<Node>
  {
    match x
    case Integer(i) => [WordNode(tag, INTEGER, U32(i))]
    case LongInteger(l) => [LongNode(tag, LONG_INTEGER, l)]
    case BigInt(n) => [PaddedNode(tag, BIG_INTEGER, BigInteger.Encode(n))]
    case Enumeration(u) => [WordNode(tag, ENUMERATION, u)]
    case Boolean(b) => [LongNode(tag, BOOLEAN, if b then 1 else 0)]
    case TextString(s) => [PaddedNode(tag, TEXT_STRING, s)]
    case ByteString(None) => []
    case ByteString(Some(b)) => [PaddedNode(tag, BYTE_STRING, b)]
    case DateTime(ns) => [LongNode(tag, DATE_TIME, ns / SECOND)]
    case DateTimeExtended(ns) => [LongNode(tag, DATE_TIME_EXTENDED, Microseconds(ns))]
    case Interval(d) => [WordNode(tag, INTERVAL, U32(Truncate(d, SECOND)))]
  }

  // ----- what is read: TTLV.Value -----

  /** The accessor of the block's type finds the bytes it needs; otherwise the source panics. */
  predicate Readable(t: TTLV)
  {
    && KnownType(Type(t)) && Type(t) != STRUCTURE
    && (ShortType(Type(t)) ==> |ValueRaw(t)| >= 4)
    && (LongType(Type(t)) ==> |ValueRaw(t)| >= 8)
  }

  function ReadItem(t: TTLV): Item
    requires (IsValid(t) && Type(t) != STRUCTURE) || Readable(t)
  {
    assert Readable(t) by {
      if IsValid(t) {
        ScalarWidth(t);
      }
    }
    var typ := Type(t);
    if typ == INTEGER then Integer(ValueInteger(t))
    else if typ == LONG_INTEGER then LongInteger(ValueLongInteger(t))
    else if typ == BIG_INTEGER then BigInt(ValueBigInteger(t))
    else if typ == ENUMERATION then Enumeration(ValueUint32(t))
    else if typ == BOOLEAN then Boolean(ValueBoolean(t))
    else if typ == TEXT_STRING then TextString(ValueRaw(t))
    else if typ == BYTE_STRING then ByteString(ValueByteString(t))
    else if typ == DATE_TIME then DateTime(ValueLongInteger(t) * SECOND)
    else if typ == DATE_TIME_EXTENDED then DateTimeExtended(I64(ValueLongInteger(t) * 1000))
    else Interval(ValueUint32(t) * SECOND)
  }

  /** The precision the wire keeps: whole seconds, whole microseconds within 64-bit nanoseconds,
      unsigned 32-bit interval seconds, and no empty byte strings. */
  function OnWire(x: Item): Item
  {
    match x
    case ByteString(Some(b)) => ByteString(if b == [] then None else Some(b))
    case DateTime(ns) => DateTime(I64(ns / SECOND) * SECOND)
    case DateTimeExtended(ns) => DateTimeExtended(I64(ns / 1000 * 1000))
    case Interval(d) => Interval(U32(Truncate(d, SECOND)) * SECOND)
    case _ => x
  }

  // ----- reading what was written -----

  lemma WordValue(u: Word, s: seq<Byte>)
    ensures Unsigned((BigEndian(u, 4) + s)[..4]) == u
  {
    PowWords();
    UnsignedBigEndian(u, 4);
    ConcatSlices(BigEndian(u, 4), s);
  }

  lemma LongValue(l: int)
    ensures I64(Unsigned(BigEndian(U64(l), 8)[..8])) == I64(l)
    ensures 0 <= l < 256 ==> BigEndian(U64(l), 8)[7] == l
  {
    PowWords();
    UnsignedBigEndian(U64(l), 8);
    assert BigEndian(U64(l), 8)[..8] == BigEndian(U64(l), 8);
    I64Congruent(U64(l), l);
  }

  lemma I64Congruent(a: int, b: int)
    requires U64(a) == U64(b)
    ensures I64(a) == I64(b)
  {
  }

  /** Microseconds counts whole microseconds since the epoch, modulo 2^64. */
  lemma MicrosecondsValue(ns: int)
    ensures Microseconds(ns) == I64(ns / 1000)
  {
    var unix, nanosecond := ns / SECOND, ns % SECOND;
    assert unix * 1_000_000 + nanosecond / 1000 == ns / 1000;
    WrapSum(unix * 1_000_000, nanosecond / 1000);
  }

  lemma WrapSum(a: int, b: int)
    ensures I64(I64(a) + b) == I64(a + b)
  {
    var k := (a - I64(a)) / TWO64;
    assert a == I64(a) + k * TWO64;
    WrapShift(I64(a) + b, k);
  }

  lemma WrapShift(a: int, k: int)
    ensures I64(a + k * TWO64) == I64(a)
  {
    assert (a + k * TWO64) % TWO64 == a % TWO64;
  }

  lemma WrapProduct(a: int, c: int)
    ensures I64(I64(a) * c) == I64(a * c)
  {
    var k := (a - I64(a)) / TWO64;
    assert a == I64(a) + k * TWO64;
    assert a * c == I64(a) * c + (k * c) * TWO64;
    WrapShift(I64(a) * c, k * c);
  }

  /** The value segment has a length that fits in the header. */
  predicate Fits(x: Item)
  {
    match x
    case TextString(s) => |s| < TWO32
    case ByteString(Some(b)) => |b| < TWO32
    case BigInt(n) => |BigInteger.Encode(n)| < TWO32
    case _ => true
  }

  lemma BlocksWellFormed(tag: nat, x: Item)
    requires ValidTag(tag) && Fits(x)
    ensures AllWellFormed(Blocks(tag, x))
  {
    if x.BigInt? {
      BigInteger.EncodeValue(x.n);
    }
    if Blocks(tag, x) != [] {
      assert WellFormed(Blocks(tag, x)[0]);
    }
  }

  lemma BlocksAligned(tag: nat, x: Item)
    ensures AllAligned(Blocks(tag, x))
  {
    if Blocks(tag, x) != [] {
      assert Aligned(Blocks(tag, x)[0]);
    }
  }

  lemma ReadWord(tag: nat, typ: Byte, u: Word, s: seq<Byte>)
    requires ValidTag(tag) && ShortType(typ)
    ensures var t := Render(WordNode(tag, typ, u)) + s;
            && IsValid(t) && Type(t) == typ && |ValueRaw(t)| == 4 && ValueUint32(t) == u
            && ReadItem(t) == if typ == INTEGER then Integer(I32(u))
                              else if typ == ENUMERATION then Enumeration(u) else Interval(u * SECOND)
  {
    var n := WordNode(tag, typ, u);
    ReadBack(n, s);
    ParseRender(n, s);
    WordValue(u, []);
    assert BigEndian(u, 4) + [] == BigEndian(u, 4);
  }

  lemma ReadLong(tag: nat, typ: Byte, l: int, s: seq<Byte>)
    requires ValidTag(tag) && LongType(typ)
    ensures var t := Render(LongNode(tag, typ, l)) + s;
            && IsValid(t) && Type(t) == typ && |ValueRaw(t)| == 8 && ValueLongInteger(t) == I64(l)
            && (0 <= l < 256 ==> (ValueBoolean(t) <==> l != 0))
  {
    var n := LongNode(tag, typ, l);
    ReadBack(n, s);
    ParseRender(n, s);
    LongValue(l);
  }

  lemma ReadPadded(tag: nat, typ: Byte, value: seq<Byte>, s: seq<Byte>)
    requires ValidTag(tag) && |value| < TWO32
    requires StringType(typ) || (typ == BIG_INTEGER && |value| % 8 == 0)
    ensures var t := Render(PaddedNode(tag, typ, value)) + s;
            IsValid(t) && Type(t) == typ && ValueRaw(t) == value && Len(t) == |value|
  {
    var n := PaddedNode(tag, typ, value);
    ReadBack(n, s);
    ParseRender(n, s);
  }

  lemma LongRoundTrip(tag: nat, x: Item, s: seq<Byte>)
    requires ValidTag(tag)
    requires x.LongInteger? || x.DateTime?
    ensures var t := Render(Blocks(tag, x)[0]) + s;
            IsValid(t) && Type(t) != STRUCTURE && ReadItem(t) == OnWire(x)
  {
    if x.LongInteger? {
      ReadLong(tag, LONG_INTEGER, x.l, s);
    } else {
      ReadLong(tag, DATE_TIME, x.ns / SECOND, s);
    }
  }

  lemma BooleanRoundTrip(tag: nat, b: bool, s: seq<Byte>)
    requires ValidTag(tag)
    ensures var t := Render(Blocks(tag, Boolean(b))[0]) + s;
            IsValid(t) && Type(t) != STRUCTURE && ReadItem(t) == Boolean(b)
  {
    ReadLong(tag, BOOLEAN, if b then 1 else 0, s);
  }

  lemma ExtendedRoundTrip(tag: nat, ns: int, s: seq<Byte>)
    requires ValidTag(tag)
    ensures var t := Render(Blocks(tag, DateTimeExtended(ns))[0]) + s;
            IsValid(t) && Type(t) != STRUCTURE && ReadItem(t) == OnWire(DateTimeExtended(ns))
  {
    ReadLong(tag, DATE_TIME_EXTENDED, Microseconds(ns), s);
    MicrosecondsValue(ns);
    WrapProduct(ns / 1000, 1000);
  }

  lemma PaddedRoundTrip(tag: nat, x: Item, s: seq<Byte>)
    requires ValidTag(tag) && Fits(x) && Blocks(tag, x) != []
    requires x.BigInt? || x.TextString? || x.ByteString?
    ensures var t := Render(Blocks(tag, x)[0]) + s;
            IsValid(t) && Type(t) != STRUCTURE && ReadItem(t) == OnWire(x)
  {
    match x
    case BigInt(n) =>
      BigInteger.EncodeRoundTrip(n);
      ReadPadded(tag, BIG_INTEGER, BigInteger.Encode(n), s);
    case TextString(v) => ReadPadded(tag, TEXT_STRING, v, s);
    case ByteString(Some(b)) => ReadPadded(tag, BYTE_STRING, b, s);
  }

  /** Reading a written item gives the item at wire precision, whatever bytes follow. */
  lemma ItemRoundTrip(tag: nat, x: Item, s: seq<Byte>)
    requires ValidTag(tag) && Fits(x) && Blocks(tag, x) != []
    ensures var t := Render(Blocks(tag, x)[0]) + s;
            IsValid(t) && Type(t) != STRUCTURE && ReadItem(t) == OnWire(x)
  {
    match x
    case Integer(i) => ReadWord(tag, INTEGER, U32(i), s);
    case Enumeration(u) => ReadWord(tag, ENUMERATION, u, s);
    case Interval(d) => ReadWord(tag, INTERVAL, U32(Truncate(d, SECOND)), s);
    case BigInt(_) => PaddedRoundTrip(tag, x, s);
    case TextString(_) => PaddedRoundTrip(tag, x, s);
    case ByteString(_) => PaddedRoundTrip(tag, x, s);
    case Boolean(b) => BooleanRoundTrip(tag, b, s);
    case DateTimeExtended(ns) => ExtendedRoundTrip(tag, ns, s);
    case _ => LongRoundTrip(tag, x, s);
  }

  /** An extended date-time keeps its microsecond exactly when its nanosecond count fits in 64
      bits once rounded down, before or after the epoch. */
  lemma ExtendedRange(ns: int)
    ensures OnWire(DateTimeExtended(ns)) == DateTimeExtended(ns / 1000 * 1000) <==>
            -9223372036854775 <= ns / 1000 <= 9223372036854775
  {
  }

  /** Durations are cut toward zero: the seconds written are the floor of a non-negative duration and
      the ceiling of a negative one. */
  lemma TruncateExact(d: int, q: int)
    ensures q == Truncate(d, SECOND) <==>
            if d >= 0 then q * SECOND <= d < (q + 1) * SECOND else (q - 1) * SECOND < d <= q * SECOND
  {
  }

  /** What survives the wire, in range: the last whole second or microsecond before an instant, and
      the whole seconds of a duration. */
  lemma WirePrecision(x: Item)
    ensures x.DateTime? && -TWO63 <= x.ns / SECOND < TWO63 ==>
            var y := OnWire(x); y.DateTime? && y.ns <= x.ns < y.ns + SECOND && y.ns % SECOND == 0
    ensures x.DateTimeExtended? && -9223372036854775 <= x.ns / 1000 <= 9223372036854775 ==>
            var y := OnWire(x); y.DateTimeExtended? && y.ns <= x.ns < y.ns + 1000 && y.ns % 1000 == 0
    ensures x.Interval? && 0 <= x.d < TWO32 * SECOND ==>
            var y := OnWire(x); y.Interval? && y.d <= x.d < y.d + SECOND && y.d % SECOND == 0
  {
    if x.Interval? && 0 <= x.d < TWO32 * SECOND {
      TruncateExact(x.d, Truncate(x.d, SECOND));
    }
  }

  /** Writing and reading changes nothing exactly for these items. */
  predicate Exact(x: Item)
  {
    match x
    case ByteString(Some(b)) => b != []
    case DateTime(ns) => ns % SECOND == 0 && -TWO63 <= ns / SECOND < TWO63
    case DateTimeExtended(ns) => ns % 1000 == 0 && -TWO63 <= ns < TWO63
    case Interval(d) => d % SECOND == 0 && 0 <= d / SECOND < TWO32
    case _ => true
  }

  lemma ExactItems(x: Item)
    ensures OnWire(x) == x <==> Exact(x)
  {
  }
}
