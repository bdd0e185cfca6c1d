/** Go scalars and the KMIP item each is encoded as. */
module Scalars {
  import opened Bytes
  import opened Items
  import Names

  datatype IntKind = Int | Int8 | Int16 | Int32Kind | Int64Kind | Uint | Uint8 | Uint16 | Uint32Kind | Uint64Kind
  {
    predicate Signed()
    {
      Int? || Int8? || Int16? || Int32Kind? || Int64Kind?
    }

    /** The kinds encoded as LongInteger. */
    predicate Wide()
    {
      Int64Kind? || Uint64Kind?
    }

    function Limit(): int
    {
      match this
      case Int8 => 0x80
      case Int16 => 0x8000
      case Int32Kind => TWO31
      case Uint8 => 0x100
      case Uint16 => 0x1_0000
      case Uint32Kind => TWO32
      case Int => TWO63
      case Int64Kind => TWO63
      case Uint => TWO64
      case Uint64Kind => TWO64
    }

    /** The values a variable of this kind can hold. */
    predicate Holds(i: int)
    {
      if Signed() then -Limit() <= i < Limit() else 0 <= i < Limit()
    }
  }

  datatype Scalar =
    | IntV(kind: IntKind, i: int)
    | BoolV(b: bool)
    | StringV(s: Text)
    | BytesV(bytes: Option<seq<Byte>>)
    | TimeV(ns: int)
    | BigV(n: int)
    | DurationV(d: int)
    | EnumValueV(u: Word)           // always an Enumeration
    | DateTimeExtendedV(ns: int)    // always a DateTimeExtended

  datatype Flags = Flags(omitEmpty: bool, enum: bool, bitmask: bool, dateTimeExt: bool, any: bool)

  const NO_FLAGS: Flags := Flags(false, false, false, false, false)

  /** The registered enums and bitmasks, by tag. */
  type Enums = map<Word, Names.EnumMap>

  datatype MarshalError =
    | ErrNoTag
    | ErrIntOverflow
    | ErrUnsupportedType
    | ErrUnsupportedEnumType
    | ErrTagConflict
    | ErrParse(cause: Names.Error)

  datatype Choice = Nothing | Write(item: Item) | Fail(error: MarshalError)

  /** The zero time is 1 January of year 1. */
  const ZERO_TIME: int := -62_135_596_800 * 1_000_000_000

  predicate IsEmpty(v: Scalar)
  {
    match v
    case IntV(_, i) => i == 0
    case BoolV(b) => !b
    case StringV(s) => s == []
    case BytesV(b) => b.None? || b.value == []
    case TimeV(ns) => ns == ZERO_TIME
    case BigV(n) => n == 0
    case DurationV(d) => d == 0
    case EnumValueV(u) => u == 0
    case DateTimeExtendedV(_) => false
  }

  predicate AsMask(enums: Enums, tag: Word, flags: Flags)
  {
    flags.bitmask || (tag in enums && enums[tag].bitmask)
  }

  predicate AsEnum(enums: Enums, tag: Word, flags: Flags)
  {
    flags.enum || flags.bitmask || tag in enums
  }

  /** The part of `encode` that decides how a scalar is written. */
  function Choose(enums: Enums, tag: Word, flags: Flags, v: Scalar): Choice
  {
    if v == BytesV(None) || (flags.omitEmpty && IsEmpty(v)) then Nothing
    else if v.EnumValueV? then Write(Enumeration(v.u))
    else if v.DateTimeExtendedV? then Write(DateTimeExtended(v.ns))
    else if tag == 0 then Fail(ErrNoTag)
    else if AsEnum(enums, tag, flags) && v.IntV? && !v.kind.Wide() then
      if AsMask(enums, tag, flags) then Write(Integer(I32(v.i))) else Write(Enumeration(U32(v.i)))
    else if AsEnum(enums, tag, flags) && v.StringV? then
      ChooseString(enums, tag, flags, v.s)
    else if (flags.enum || flags.bitmask) then
      Fail(ErrUnsupportedEnumType)
    else
      Plain(flags, v)
  }

  /** A string under an enum or bitmask is parsed; an unparsable one stays text unless flagged. */
  function ChooseString(enums: Enums, tag: Word, flags: Flags, s: Text): Choice
  {
    var em := if tag in enums then Some(enums[tag]) else None;
    if AsMask(enums, tag, flags) then
      match Names.ParseMask(s, em)
      case Ok(i) => Write(Integer(I32(i)))
      case Err(e) => if flags.bitmask then Fail(ErrParse(e)) else Write(TextString(s))
    else
      match Names.ParseEnum(s, em)
      case Ok(u) => Write(Enumeration(u))
      case Err(e) => if flags.enum then Fail(ErrParse(e)) else Write(TextString(s))
  }

  function Plain(flags: Flags, v: Scalar): Choice
  {
    match v
    case IntV(kind, i) =>
      if kind.Wide() then Write(LongInteger(I64(i)))
      else if i >= TWO31 then Fail(ErrIntOverflow)
      else Write(Integer(I32(i)))
    case BoolV(b) => Write(Boolean(b))
    case StringV(s) => Write(TextString(s))
    case BytesV(b) => Write(ByteString(b))
    case TimeV(ns) => if flags.dateTimeExt then Write(DateTimeExtended(ns)) else Write(DateTime(ns))
    case BigV(n) => Write(BigInt(n))
    case DurationV(d) => Write(Interval(d))
    case EnumValueV(u) => Write(Enumeration(u))
    case DateTimeExtendedV(ns) => Write(DateTimeExtended(ns))
  }

  // ----- what is written, and what is an error -----

  /** Nothing is written, and nothing can go wrong. */
  predicate Omitted(flags: Flags, v: Scalar)
  {
    v == BytesV(None) || (flags.omitEmpty && IsEmpty(v))
  }

  /** The enum or mask a string is parsed against. */
  function EnumOf(enums: Enums, tag: Word): Option<Names.EnumMap>
  {
    if tag in enums then Some(enums[tag]) else None
  }

  /** The error of a scalar, told from its kind, the tag, the flags and the registered enums. */
  ghost predicate ScalarFails(enums: Enums, tag: Word, flags: Flags, v: Scalar, e: MarshalError)
  {
    && !Omitted(flags, v) && !v.EnumValueV? && !v.DateTimeExtendedV?
    && match e
       case ErrNoTag => tag == 0
       // larger than an int32, where no enum or mask takes the low bits
       case ErrIntOverflow =>
         && tag != 0 && v.IntV? && !v.kind.Int64Kind? && !v.kind.Uint64Kind? && v.i > 0x7FFF_FFFF
         && !flags.enum && !flags.bitmask && tag !in enums
       // flagged as enum or mask, but neither a small integer kind nor a string
       case ErrUnsupportedEnumType =>
         && tag != 0 && (flags.enum || flags.bitmask)
         && !v.StringV? && (v.IntV? ==> v.kind.Int64Kind? || v.kind.Uint64Kind?)
       // flagged, and no numeral, hex or registered name
       case ErrParse(cause) =>
         && tag != 0 && v.StringV?
         && if flags.bitmask then Names.ParseMask(v.s, EnumOf(enums, tag)) == Names.Err(cause)
            else flags.enum && !(tag in enums && enums[tag].bitmask)
                 && Names.ParseEnum(v.s, EnumOf(enums, tag)) == Names.Err(cause)
       case _ => false
  }

  lemma ChooseFails(enums: Enums, tag: Word, flags: Flags, v: Scalar, e: MarshalError)
    ensures Choose(enums, tag, flags, v) == Fail(e) <==> ScalarFails(enums, tag, flags, v, e)
    ensures Choose(enums, tag, flags, v) == Nothing <==> Omitted(flags, v)
  {
  }

  /** The item type and value each kind of Go value is written as. */
  lemma WrittenAs(enums: Enums, tag: Word, flags: Flags, v: Scalar, x: Item)
    requires Choose(enums, tag, flags, v) == Write(x)
    ensures v.BoolV? ==> x == Boolean(v.b)
    ensures v.BytesV? ==> x == ByteString(v.bytes)
    ensures v.BigV? ==> x == BigInt(v.n)
    ensures v.DurationV? ==> x == Interval(v.d)
    ensures v.TimeV? ==> x == if flags.dateTimeExt then DateTimeExtended(v.ns) else DateTime(v.ns)
    ensures v.DateTimeExtendedV? ==> x == DateTimeExtended(v.ns)
    ensures v.EnumValueV? ==> x == Enumeration(v.u)
    ensures v.IntV? && (v.kind.Int64Kind? || v.kind.Uint64Kind?) ==> x.LongInteger? && U64(x.l) == U64(v.i)
    ensures v.IntV? && !v.kind.Int64Kind? && !v.kind.Uint64Kind? ==>
            var mask, enum := flags.bitmask || (tag in enums && enums[tag].bitmask), flags.enum || tag in enums;
            if mask || !enum then x.Integer? && U32(x.i) == U32(v.i) && (-TWO31 <= v.i < TWO31 ==> x.i == v.i)
            else x.Enumeration? && x.u == U32(v.i)
    ensures v.StringV? ==>
            var mask, enum := flags.bitmask || (tag in enums && enums[tag].bitmask), flags.enum || tag in enums;
            var m, u := Names.ParseMask(v.s, EnumOf(enums, tag)), Names.ParseEnum(v.s, EnumOf(enums, tag));
            x == if mask && m.Ok? then Integer(I32(m.value))
                 else if !mask && enum && u.Ok? then Enumeration(u.value)
                 else TextString(v.s)
  {
  }

  /** The Go value that TTLV.Value returns for an item. */
  function FromItem(x: Item): Scalar
  {
    match x
    case Integer(i) => IntV(Int32Kind, i)
    case LongInteger(l) => IntV(Int64Kind, l)
    case BigInt(n) => BigV(n)
    case Enumeration(u) => EnumValueV(u)
    case Boolean(b) => BoolV(b)
    case TextString(s) => StringV(s)
    case ByteString(b) => BytesV(b)
    case DateTime(ns) => TimeV(ns)
    case DateTimeExtended(ns) => DateTimeExtendedV(ns)
    case Interval(d) => DurationV(d)
  }

  /** The encoder turns an item into one of another type. */
  predicate Reinterpreted(enums: Enums, tag: Word, x: Item)
  {
    tag in enums &&
    match x
    case Integer(_) => !enums[tag].bitmask
    case TextString(s) =>
      if enums[tag].bitmask then Names.ParseMask(s, Some(enums[tag])).Ok?
      else Names.ParseEnum(s, Some(enums[tag])).Ok?
    case _ => false
  }

  /** Exactly the items that are not reinterpreted are written as they are. */
  lemma ChosenAsIs(enums: Enums, tag: Word, x: Item)
    requires tag != 0 && x != ByteString(None)
    ensures Choose(enums, tag, NO_FLAGS, FromItem(x)) == Write(x) <==> !Reinterpreted(enums, tag, x)
  {
  }
}
