/** Reading TTLV blocks straight from bytes: header fields, value segment, validity and walking. */
module Wire {
  import opened Bytes
  import BigInteger

  /** A byte string that begins with a TTLV block; bytes after the block are ignored. */
  type TTLV = seq<Byte>

  const HEADER: nat := 8

  const STRUCTURE: Byte := 0x01
  const INTEGER: Byte := 0x02
  const LONG_INTEGER: Byte := 0x03
  const BIG_INTEGER: Byte := 0x04
  const ENUMERATION: Byte := 0x05
  const BOOLEAN: Byte := 0x06
  const TEXT_STRING: Byte := 0x07
  const BYTE_STRING: Byte := 0x08
  const DATE_TIME: Byte := 0x09
  const INTERVAL: Byte := 0x0A
  const DATE_TIME_EXTENDED: Byte := 0x0B

  datatype Error = ErrHeaderTruncated | ErrInvalidTag | ErrInvalidLen | ErrInvalidType | ErrValueTruncated

  datatype Outcome = Pass | Fail(error: Error)

  predicate KnownType(typ: Byte)
  {
    STRUCTURE <= typ <= DATE_TIME_EXTENDED
  }

  predicate ShortType(typ: Byte)
  {
    typ == INTEGER || typ == ENUMERATION || typ == INTERVAL
  }

  predicate LongType(typ: Byte)
  {
    typ == LONG_INTEGER || typ == BOOLEAN || typ == DATE_TIME || typ == DATE_TIME_EXTENDED
  }

  predicate StringType(typ: Byte)
  {
    typ == TEXT_STRING || typ == BYTE_STRING
  }

  // ----- header fields: empty values when the header is truncated -----

  function Tag(t: TTLV): (tag: nat)
    ensures tag < 0x100_0000
  {
    if |t| < 3 then 0
    else
      PowWords();
      UnsignedBound(t[..3]);
      Unsigned(t[..3])
  }

  function Type(t: TTLV): Byte
  {
    if |t| < 4 then 0 else t[3]
  }

  function Len(t: TTLV): nat
  {
    if |t| < HEADER then 0 else Unsigned(t[4..8])
  }

  /** Length of the whole block, padding included. The source panics on an unknown type. */
  function FullLen(t: TTLV): nat
    requires KnownType(Type(t))
  {
    if ShortType(Type(t)) || LongType(Type(t)) then
      HEADER + 8
    else if StringType(Type(t)) then
      var l := Len(t) + HEADER;
      if l % 8 > 0 then l + (8 - l % 8) else l
    else
      Len(t) + HEADER
  }

  /** The value segment, cut short when the bytes run out. */
  function ValueRaw(t: TTLV): seq<Byte>
  {
    var l := Len(t);
    if l == 0 then [] else if |t| < HEADER + l then t[HEADER..] else t[HEADER..HEADER + l]
  }

  /** The value segment as blocks; `None` is the nil slice of a zero length. */
  function ValueStructure(t: TTLV): Option<TTLV>
  {
    if Len(t) == 0 then None else Some(ValueRaw(t))
  }

  // ----- scalar values -----

  function ValueInteger(t: TTLV): int
    requires |ValueRaw(t)| >= 4
  {
    I32(ValueUint32(t))
  }

  function ValueUint32(t: TTLV): (u: nat)
    requires |ValueRaw(t)| >= 4
    ensures u < TWO32
  {
    PowWords();
    UnsignedBound(ValueRaw(t)[..4]);
    Unsigned(ValueRaw(t)[..4])
  }

  function ValueLongInteger(t: TTLV): int
    requires |ValueRaw(t)| >= 8
  {
    I64(Unsigned(ValueRaw(t)[..8]))
  }

  function ValueBoolean(t: TTLV): bool
    requires |ValueRaw(t)| >= 8
  {
    ValueRaw(t)[7] != 0
  }

  function ValueBigInteger(t: TTLV): int
  {
    BigInteger.Signed(BigInteger.Unpad(ValueRaw(t)))
  }

  function ValueByteString(t: TTLV): Option<seq<Byte>>
  {
    if Len(t) == 0 then None else Some(ValueRaw(t))
  }

  // ----- validity -----

  function ValidHeader(t: TTLV): Outcome
  {
    if |t| < HEADER then
      Fail(ErrHeaderTruncated)
    else if t[0] != 0x42 && t[0] != 0x54 then
      Fail(ErrInvalidTag)
    else if Type(t) == STRUCTURE || StringType(Type(t)) then
      Pass
    else if ShortType(Type(t)) then
      if Len(t) != 4 then Fail(ErrInvalidLen) else Pass
    else if LongType(Type(t)) then
      if Len(t) != 8 then Fail(ErrInvalidLen) else Pass
    else if Type(t) == BIG_INTEGER then
      if Len(t) % 8 != 0 then Fail(ErrInvalidLen) else Pass
    else
      Fail(ErrInvalidType)
  }

  /** What Valid reports about the block at the front of `t`. */
  function Validity(t: TTLV): Outcome
    decreases |t|, 0
  {
    if ValidHeader(t).Fail? then
      ValidHeader(t)
    else if |t| < FullLen(t) then
      Fail(ErrValueTruncated)
    else if Type(t) == STRUCTURE then
      ChildrenValidity(ValueRaw(t))
    else
      Pass
  }

  function ChildrenValidity(inner: TTLV): Outcome
    decreases |inner|, 1
  {
    if inner == [] then
      Pass
    else if Validity(inner).Fail? then
      Validity(inner)
    else
      ChildrenValidity(inner[FullLen(inner)..])
  }

  predicate IsValid(t: TTLV)
  {
    Validity(t).Pass?
  }

  /** The bytes after the block; `None` is nil. */
  function Next(t: TTLV): Option<TTLV>
  {
    if !IsValid(t) || FullLen(t) == |t| then None else Some(t[FullLen(t)..])
  }

  /** Valid: check the header, then the enclosed blocks one after another. */
  method Valid(t: TTLV) returns (r: Outcome)
    ensures r == Validity(t)
    decreases |t|
  {
    if ValidHeader(t).Fail? {
      return ValidHeader(t);
    }
    if |t| < FullLen(t) {
      return Fail(ErrValueTruncated);
    }
    if Type(t) == STRUCTURE {
      var inner := ValueRaw(t);
      while |inner| != 0
        invariant |inner| < |t|
        invariant ChildrenValidity(inner) == ChildrenValidity(ValueRaw(t))
        decreases |inner|
      {
        var err := Valid(inner);
        if err.Fail? {
          return err;
        }
        var next := Next(inner);
        inner := if next.None? then [] else next.value;
      }
    }
    return Pass;
  }
}
