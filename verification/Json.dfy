/** The JSON mapping of TTLV, at the level of JSON trees. */
module Json {
  import opened Bytes
  import opened Wire
  import opened Grammar
  import opened Items
  import opened EncodeBuffer
  import Scalars
  import BigInteger
  import Hex
  import Names

  /** JSON values. Objects are the {tag, type, value} objects of the mapping, where an absent type
      is the empty string; numbers are integers. */
  datatype Json =
    | JNull
    | JBool(b: bool)
    | JNum(n: int)
    | JStr(s: Text)
    | JArr(items: seq<Json>)
    | JObj(tag: Text, typ: Text, value: Json)

  /** The default registry and the library functions the mapping relies on: name normalization,
      the UTF-8 repair of encoding/json, and RFC 3339 times. */
  datatype Env = Env(
    enums: Scalars.Enums,
    tags: Names.EnumMap,
    types: Names.EnumMap,
    normalize: Text -> Text,
    repair: Text -> Text,
    formatTime: int -> Option<Text>,
    parseTime: Text -> Option<int>)

  const ATTRIBUTE_NAME: Word := 0x42000a
  const ATTRIBUTE_VALUE: Word := 0x42000b

  const MAX_JSON_INT: int := 0x10_0000_0000_0000

  function EnumFor(env: Env, tag: nat): Option<Names.EnumMap>
  {
    if tag in env.enums then Some(env.enums[tag]) else None
  }

  /** The tag an AttributeName names, or TagNone. */
  function NamedTag(env: Env, name: Text): Word
  {
    match Names.ParseTag(env.normalize(name), Some(env.tags))
    case Ok(v) => v
    case Err(_) => 0
  }

  /** The attribute tag in force after a block, given the one before it. */
  function AttrAfter(env: Env, attr: Word, t: TTLV): Word
  {
    if Tag(t) == ATTRIBUTE_NAME then NamedTag(env, ValueRaw(t)) else attr
  }

  // ----- MarshalJSON -----

  function HexText(b: seq<Byte>): Text
  {
    Hex.PREFIX + Hex.Encode(b)
  }

  /** The value member for an item with value segment `raw`; `em` names its integers and
      enumerations. */
  function ItemJson(env: Env, em: Option<Names.EnumMap>, x: Item, raw: seq<Byte>): Option<Json>
  {
    match x
    case Boolean(b) => Some(JBool(b))
    case Enumeration(u) => Some(JStr(Names.FormatEnum(u, em)))
    case Integer(i) => Some(if em.Some? then JStr(Names.MaskText(i, em)) else JNum(i))
    case LongInteger(l) =>
      Some(if l <= -MAX_JSON_INT || l >= MAX_JSON_INT then JStr(HexText(raw)) else JNum(l))
    case BigInt(n) =>
      Some(if -MAX_JSON_INT < n < MAX_JSON_INT then JNum(n) else JStr(HexText(raw)))
    case TextString(s) => Some(JStr(env.repair(s)))
    case ByteString(_) => Some(JStr(Hex.Encode(raw)))
    case DateTime(ns) => TimeJson(env, ns)
    case DateTimeExtended(ns) => TimeJson(env, ns)
    case Interval(d) => Some(JNum(d / SECOND))
  }

  function ScalarJson(env: Env, em: Option<Names.EnumMap>, t: TTLV): Option<Json>
    requires IsValid(t) && Type(t) != STRUCTURE
  {
    ItemJson(env, em, ReadItem(t), ValueRaw(t))
  }

  function TimeJson(env: Env, ns: int): Option<Json>
  {
    match env.formatTime(ns)
    case Some(s) => Some(JStr(s))
    case None => None
  }

  /** The enumeration and integer values of attributes are named by the attribute. */
  predicate IsAttributeScalar(t: TTLV)
  {
    Tag(t) == ATTRIBUTE_VALUE && (Type(t) == ENUMERATION || Type(t) == INTEGER)
  }

  /** MarshalJSON; `None` is an error. */
  function ToJson(env: Env, t: TTLV): Option<Json>
    decreases |t|, 0
  {
    if |t| == 0 then Some(JNull)
    else if !IsValid(t) then None
    else
      var tag := Names.FormatTag(Tag(t), Some(env.tags));
      if Type(t) == STRUCTURE then
        match ChildrenJson(env, ValueRaw(t), 0)
        case Some(js) => Some(JObj(tag, [], JArr(js)))
        case None => None
      else
        match ScalarJson(env, EnumFor(env, Tag(t)), t)
        case Some(j) => Some(JObj(tag, Names.FormatType(Type(t), env.types), j))
        case None => None
  }

  function ChildrenJson(env: Env, c: TTLV, attr: Word): Option<seq<Json>>
    decreases |c|, 2
  {
    if |c| == 0 then Some([])
    else if !IsValid(c) then None
    else
      var attr' := AttrAfter(env, attr, c);
      var first := ChildJson(env, c, attr');
      var rest := ChildrenJson(env, c[FullLen(c)..], attr');
      if first.Some? && rest.Some? then Some([first.value] + rest.value) else None
  }

  function ChildJson(env: Env, c: TTLV, attr: Word): Option<Json>
    requires IsValid(c)
    decreases |c|, 1
  {
    if IsAttributeScalar(c) then
      match ScalarJson(env, EnumFor(env, attr), c)
      case Some(j) =>
        Some(JObj(Str("AttributeValue"), if Type(c) == ENUMERATION then Str("Enumeration") else Str("Integer"), j))
      case None => None
    else
      ToJson(env, c)
  }

  // ----- UnmarshalJSON -----

  datatype Result<+T> = Done(value: T) | Failed | Panics

  /** The item a typed value member stands for; `em` is used to look up names. */
  function ScalarFromJson(env: Env, em: Option<Names.EnumMap>, typ: Byte, v: Json): Result<Item>
  {
    if typ == BOOLEAN then
      if v.JBool? then Done(Boolean(v.b))
      else if v == JStr(Str("0x0000000000000001")) then Done(Boolean(true))
      else if v == JStr(Str("0x0000000000000000")) then Done(Boolean(false))
      else Failed
    else if typ == TEXT_STRING then
      if v.JStr? then Done(TextString(v.s)) else Failed
    else if typ == BYTE_STRING then
      if !v.JStr? || Hex.IsHex(v.s) || Hex.Decode(v.s).None? then Failed
      else Done(ByteString(Some(Hex.Decode(v.s).value)))
    else if typ == INTERVAL then
      if v.JNum? then Done(Interval(I64(I64(v.n) * SECOND)))
      else if !v.JStr? then Failed
      else
        match Hex.Parse(v.s, 4)
        case Bytes(b) => Done(Interval(Hex.DecodeUint32(b) * SECOND))
        case _ => Failed
    else if typ == DATE_TIME || typ == DATE_TIME_EXTENDED then
      if v.JStr? then TimeFromJson(env, typ, v.s) else Failed
    else if typ == INTEGER then
      if v.JNum? then Done(Integer(I32(v.n)))
      else if !v.JStr? then Failed
      else
        match Names.ParseMask(v.s, em)
        case Ok(i) => Done(Integer(I32(i)))
        case Err(_) => Failed
    else if typ == LONG_INTEGER then
      if v.JNum? then Done(LongInteger(I64(v.n)))
      else if !v.JStr? then Failed
      else
        match Hex.Parse(v.s, 8)
        case Bytes(b) => Done(LongInteger(I64(Hex.DecodeUint64(b))))
        case _ => Failed
    else if typ == BIG_INTEGER then
      if v.JNum? then Done(BigInt(I64(v.n)))
      else if !v.JStr? || !Hex.IsHex(v.s) then Failed
      else
        match Hex.Decode(v.s[2..])
        case None => Failed
        case Some(b) =>
          if |b| % 8 != 0 then Failed else Done(BigInt(BigInteger.Signed(BigInteger.Unpad(b))))
    else
      if v.JNum? then Done(Enumeration(U32(v.n)))
      else if !v.JStr? then Failed
      else
        match Names.ParseEnum(v.s, em)
        case Ok(u) => Done(Enumeration(u))
        case Err(_) => Failed
  }

  /** Hex dates count from the epoch, hex extended dates from the zero time. */
  function TimeFromJson(env: Env, typ: Byte, s: Text): Result<Item>
  {
    var ns :=
      match Hex.Parse(s, 8)
      case Invalid => None
      case Bytes(b) =>
        var u := I64(Hex.DecodeUint64(b));
        Some(if typ == DATE_TIME then u * SECOND else Scalars.ZERO_TIME + I64(u * 1000))
      case NotHex => env.parseTime(s);
    if ns.None? then Failed
    else Done(if typ == DATE_TIME then DateTime(ns.value) else DateTimeExtended(ns.value))
  }

  /** unmarshalJSON: the blocks written; none for a type that is not a KMIP type. */
  function FromJson(env: Env, j: Json, attr: Word): Result<seq<Node>>
    decreases j, 0
  {
    if !j.JObj? && !j.JNull? then Failed
    else
      var name, typeName := if j.JObj? then j.tag else [], if j.JObj? then j.typ else [];
      match Names.ParseTag(name, Some(env.tags))
      case Err(_) => Failed
      case Ok(tag) =>
        if typeName == [] then StructFromJson(env, tag, j)
        else
          match Names.ParseType(typeName, env.types)
          case BadType => Failed
          case NoDigits => Panics
          case Type(typ) =>
            if typ == STRUCTURE then StructFromJson(env, tag, j)
            else if !KnownType(typ) then Done([])
            else
              var enumTag := if tag == ATTRIBUTE_VALUE && attr != 0 then attr else tag;
              match ScalarFromJson(env, EnumFor(env, enumTag), typ, j.value)
              case Done(x) => Done(Blocks(tag, x))
              case Failed => Failed
              case Panics => Panics
  }

  function StructFromJson(env: Env, tag: Word, j: Json): Result<seq<Node>>
    decreases j, 0, 0
  {
    if j.JObj? && j.value.JArr? then
      match ChildrenFromJson(env, j.value.items, 0)
      case Done(ns) => Done([Struct(tag, ns)])
      case Failed => Failed
      case Panics => Panics
    else if j.JObj? && j.value.JNull? then Done([Struct(tag, [])])
    else Failed
  }

  function ChildrenFromJson(env: Env, js: seq<Json>, attr: Word): Result<seq<Node>>
    decreases js, 1
  {
    if js == [] then Done([])
    else
      match FromJson(env, js[0], attr)
      case Failed => Failed
      case Panics => Panics
      case Done(ns) =>
        match ChildrenFromJson(env, js[1..], AttrAfter(env, attr, RenderAll(ns)))
        case Done(rest) => Done(ns + rest)
        case Failed => Failed
        case Panics => Panics
  }

  // ----- the loops of MarshalJSON and UnmarshalJSON -----

  method MarshalJSON(env: Env, t: TTLV) returns (r: Option<Json>)
    ensures r == ToJson(env, t)
    decreases |t|
  {
    if |t| == 0 {
      return Some(JNull);
    }
    var err := Valid(t);
    if err.Fail? {
      return None;
    }
    var tag := Names.FormatTag(Tag(t), Some(env.tags));
    if Type(t) != STRUCTURE {
      var j := ScalarJson(env, EnumFor(env, Tag(t)), t);
      return if j.None? then None else Some(JObj(tag, Names.FormatType(Type(t), env.types), j.value));
    }
    var js: seq<Json> := [];
    var c := ValueRaw(t);
    var attr: Word := 0;
    ghost var all := ChildrenJson(env, c, 0);
    assert all.Some? ==> [] + all.value == all.value;
    while |c| > 0
      invariant |c| < |t| && ChildrenValidity(c).Pass?
      invariant all == match ChildrenJson(env, c, attr)
                       case Some(rest) => Some(js + rest)
                       case None => None
      decreases |c|
    {
      if Tag(c) == ATTRIBUTE_NAME {
        attr := NamedTag(env, ValueRaw(c));
      }
      var j: Option<Json>;
      if IsAttributeScalar(c) {
        j := ChildJson(env, c, attr);
      } else {
        j := MarshalJSON(env, c);
      }
      if j.None? {
        return None;
      }
      var next := Next(c);
      c := if next.None? then [] else next.value;
      ghost var rest := ChildrenJson(env, c, attr);
      if rest.Some? {
        ConcatAssociative(js, [j.value], rest.value);
      }
      js := js + [j.value];
    }
    assert js + [] == js;
    return Some(JObj(tag, [], JArr(js)));
  }

  lemma {:induction false} FromJsonAligned(env: Env, j: Json, attr: Word)
    ensures var r := FromJson(env, j, attr); r.Done? ==> AllAligned(r.value)
    decreases j, 1
  {
    var tag := Names.ParseTag(if j.JObj? then j.tag else [], Some(env.tags));
    if tag.Ok? {
      StructAligned(env, tag.value, j);
      forall x
        ensures AllAligned(Blocks(tag.value, x))
      {
        BlocksAligned(tag.value, x);
      }
    }
  }

  lemma {:induction false} StructAligned(env: Env, tag: Word, j: Json)
    ensures var r := StructFromJson(env, tag, j); r.Done? ==> AllAligned(r.value)
    decreases j, 0
  {
    if j.JObj? && j.value.JArr? {
      ChildrenAligned(env, j.value.items, 0);
    }
    var r := StructFromJson(env, tag, j);
    assert r.Done? ==> Aligned(r.value[0]);
  }

  lemma {:induction false} ChildrenAligned(env: Env, js: seq<Json>, attr: Word)
    ensures var r := ChildrenFromJson(env, js, attr); r.Done? ==> AllAligned(r.value)
    decreases js, 1
  {
    if js == [] {
    } else {
      FromJsonAligned(env, js[0], attr);
      var r := FromJson(env, js[0], attr);
      if r.Done? {
        var attr' := AttrAfter(env, attr, RenderAll(r.value));
        ChildrenAligned(env, js[1..], attr');
        var rest := ChildrenFromJson(env, js[1..], attr');
        if rest.Done? {
          AllAlignedConcat(r.value, rest.value);
        }
      }
    }
  }

  function BytesOf(r: Result<seq<Node>>): Result<seq<Byte>>
  {
    match r
    case Done(ns) => Done(RenderAll(ns))
    case Failed => Failed
    case Panics => Panics
  }

  /** unmarshalJSON into a fresh buffer. */
  method UnmarshalJSON(env: Env, j: Json, attr: Word) returns (r: Result<seq<Byte>>)
    ensures r == BytesOf(FromJson(env, j, attr))
    decreases j, 1
  {
    if !j.JObj? && !j.JNull? {
      return Failed;
    }
    var name, typeName := if j.JObj? then j.tag else [], if j.JObj? then j.typ else [];
    var tag := Names.ParseTag(name, Some(env.tags));
    if tag.Err? {
      return Failed;
    }
    var typ := if typeName == [] then Names.Type(STRUCTURE) else Names.ParseType(typeName, env.types);
    match typ {
      case BadType => return Failed;
      case NoDigits => return Panics;
      case Type(tp) =>
        if tp == STRUCTURE {
          r := UnmarshalStructure(env, tag.value, j);
        } else if !KnownType(tp) {
          return Done([]);
        } else {
          var enumTag := if tag.value == ATTRIBUTE_VALUE && attr != 0 then attr else tag.value;
          var x := ScalarFromJson(env, EnumFor(env, enumTag), tp, j.value);
          if !x.Done? {
            return if x.Failed? then Failed else Panics;
          }
          var enc := new EncBuf();
          enc.EncodeItem(tag.value, x.value);
          assert enc.buf == RenderAll(Blocks(tag.value, x.value));
          return Done(enc.buf);
        }
    }
  }

  method UnmarshalStructure(env: Env, tag: Word, j: Json) returns (r: Result<seq<Byte>>)
    ensures r == BytesOf(StructFromJson(env, tag, j))
    decreases j, 0
  {
    if !j.JObj? || !(j.value.JArr? || j.value.JNull?) {
      return Failed;
    }
    var items := if j.value.JArr? then j.value.items else [];
    var enc := new EncBuf();
    var s := enc.Begin(tag, STRUCTURE);
    ghost var start := enc.buf;
    var attr: Word := 0;
    ghost var done: seq<Node> := [];
    ghost var all := ChildrenFromJson(env, items, 0);
    assert items[0..] == items && (all.Done? ==> [] + all.value == all.value);
    assert start + RenderAll(done) == start;
    for k := 0 to |items|
      invariant fresh(enc) && enc.buf == start + RenderAll(done)
      invariant all == match ChildrenFromJson(env, items[k..], attr)
                       case Done(ns) => Done(done + ns)
                       case Failed => Failed
                       case Panics => Panics
    {
      assert items[k..][0] == items[k] && items[k..][1..] == items[k + 1..];
      var scratch := UnmarshalJSON(env, items[k], attr);
      if !scratch.Done? {
        return scratch;
      }
      ghost var ns := FromJson(env, items[k], attr).value;
      if Tag(scratch.value) == ATTRIBUTE_NAME {
        attr := NamedTag(env, ValueRaw(scratch.value));
      }
      ghost var rest := ChildrenFromJson(env, items[k + 1..], attr);
      if rest.Done? {
        ConcatAssociative(done, ns, rest.value);
      }
      RenderAllConcat(done, ns);
      ConcatAssociative(start, RenderAll(done), RenderAll(ns));
      enc.Write(scratch.value);
      done := done + ns;
    }
    assert items[|items|..] == [] && done + [] == done;
    ChildrenAligned(env, items, 0);
    RenderAllAligned(done);
    RenderOne(Struct(tag, done));
    enc.EndBlock(s, [], tag, STRUCTURE, RenderAll(done));
    assert enc.buf == Render(Struct(tag, done));
    return Done(enc.buf);
  }

  // ----- what is written -----

  /** The last AttributeName before child `k`. */
  function LastName(ns: seq<Node>, k: nat): (r: Option<nat>)
    requires k <= |ns|
    ensures r.Some? ==> r.value < k && ns[r.value].tag == ATTRIBUTE_NAME
    ensures r.Some? ==> forall j :: r.value < j < k ==> ns[j].tag != ATTRIBUTE_NAME
    ensures r.None? ==> forall j :: 0 <= j < k ==> ns[j].tag != ATTRIBUTE_NAME
  {
    if k == 0 then None else if ns[k - 1].tag == ATTRIBUTE_NAME then Some(k - 1) else LastName(ns, k - 1)
  }

  /** The tag it names, or TagNone. */
  function AttributeBefore(env: Env, ns: seq<Node>, k: nat): Word
    requires k <= |ns|
  {
    match LastName(ns, k)
    case None => 0
    case Some(j) =>
      match Names.ParseTag(env.normalize(ValueRaw(Render(ns[j]))), Some(env.tags))
      case Ok(tag) => tag
      case Err(_) => 0
  }

  /** The enum registered for a tag. */
  function RegisteredEnum(env: Env, tag: Word): Option<Names.EnumMap>
  {
    if tag in env.enums then Some(env.enums[tag]) else None
  }

  /** The attribute tag carried from sibling to sibling is that of the last AttributeName. */
  function AttrThrough(env: Env, attr: Word, ns: seq<Node>): Word
    decreases |ns|
  {
    if ns == [] then attr else AttrThrough(env, AttrAfter(env, attr, Render(ns[0])), ns[1..])
  }

  lemma {:induction false} ThroughLast(env: Env, attr: Word, ns: seq<Node>, n: Node)
    ensures AttrThrough(env, attr, ns + [n]) == AttrAfter(env, AttrThrough(env, attr, ns), Render(n))
    decreases |ns|
  {
    if ns == [] {
      assert ns + [n] == [n] && [n][1..] == [];
    } else {
      assert (ns + [n])[1..] == ns[1..] + [n];
      ThroughLast(env, AttrAfter(env, attr, Render(ns[0])), ns[1..], n);
    }
  }

  lemma {:induction false} CarriedAttribute(env: Env, ns: seq<Node>, k: nat)
    requires AllWellFormed(ns) && k <= |ns|
    ensures AttrThrough(env, 0, ns[..k]) == AttributeBefore(env, ns, k)
  {
    if k == 0 {
    } else {
      CarriedAttribute(env, ns, k - 1);
      ChildWellFormed(ns, k - 1);
      RenderedTag(ns[k - 1]);
      ThroughLast(env, 0, ns[..k - 1], ns[k - 1]);
      assert ns[..k] == ns[..k - 1] + [ns[k - 1]];
    }
  }

  lemma RenderedTag(n: Node)
    requires WellFormed(n)
    ensures Tag(Render(n)) == n.tag
  {
    ReadBack(n, []);
    assert Render(n) + [] == Render(n);
  }

  /** One object for each child, in order, each under the attribute tag carried so far. */
  ghost predicate ChildWritten(env: Env, attr: Word, ns: seq<Node>, js: seq<Json>, k: nat)
    requires k < |ns| == |js|
  {
    IsValid(Render(ns[k])) && ChildJson(env, Render(ns[k]), AttrThrough(env, attr, ns[..k + 1])) == Some(js[k])
  }

  lemma {:induction false} ChildrenWritten(env: Env, attr: Word, ns: seq<Node>, js: seq<Json>)
    requires AllWellFormed(ns) && ChildrenJson(env, RenderAll(ns), attr) == Some(js)
    ensures |js| == |ns| && forall k :: 0 <= k < |ns| ==> ChildWritten(env, attr, ns, js, k)
    decreases ns
  {
    if ns == [] {
    } else {
      var n, tail := ns[0], RenderAll(ns[1..]);
      var next := AttrAfter(env, attr, Render(n));
      ToJsonTrailing(env, n, tail, attr);
      ToJsonTrailing(env, n, tail, next);
      ConcatSlices(Render(n), tail);
      var rest := ChildrenJson(env, tail, next).value;
      ConcatSlices([js[0]], rest);
      ChildrenWritten(env, next, ns[1..], rest);
      forall k | 0 <= k < |ns|
        ensures ChildWritten(env, attr, ns, js, k)
      {
        WrittenLater(env, attr, ns, js, rest, k);
      }
    }
  }

  lemma WrittenLater(env: Env, attr: Word, ns: seq<Node>, js: seq<Json>, rest: seq<Json>, k: nat)
    requires k < |ns| == |js| && js == [js[0]] + rest && IsValid(Render(ns[0]))
    requires var next := AttrAfter(env, attr, Render(ns[0]));
             && ChildJson(env, Render(ns[0]), next) == Some(js[0])
             && forall j :: 0 <= j < |ns[1..]| ==> ChildWritten(env, next, ns[1..], rest, j)
    ensures ChildWritten(env, attr, ns, js, k)
  {
    var next := AttrAfter(env, attr, Render(ns[0]));
    if k == 0 {
      assert ns[..1] == [ns[0]] && ns[..1][1..] == [];
      assert AttrThrough(env, attr, ns[..1]) == AttrThrough(env, next, []);
    } else {
      assert ChildWritten(env, next, ns[1..], rest, k - 1);
      assert ns[..k + 1][1..] == ns[1..][..k] && ns[..k + 1][0] == ns[0];
      assert ns[k] == ns[1..][k - 1] && js[k] == rest[k - 1];
    }
  }

  /** The text of an enumeration: the name if the value has one, eight hex digits otherwise. */
  ghost predicate EnumText(text: Text, em: Option<Names.EnumMap>, u: Word)
  {
    if em.Some? && u in em.value.names then text == em.value.names[u]
    else |text| == 10 && text[..2] == Hex.PREFIX && text[2..] == Hex.Encode(BigEndian(u, 4))
  }

  lemma FormattedEnum(em: Option<Names.EnumMap>, u: Word)
    ensures EnumText(Names.FormatEnum(u, em), em, u)
  {
    PowWords();
    Hex.FormatParse(u, 4);
  }

  /** A hex value spells its bytes with two digits each, after the prefix or without it. */
  ghost predicate HexOf(s: Text, b: seq<Byte>)
  {
    |s| >= 2 && s[..2] == Hex.PREFIX && Hex.Spells(s[2..], b)
  }

  lemma HexTextSpells(b: seq<Byte>)
    ensures HexOf(HexText(b), b) && Hex.Spells(Hex.Encode(b), b)
  {
    var s := HexText(b);
    assert s[..2] == Hex.PREFIX && s[2..] == Hex.Encode(b);
    Hex.DecodeEncode(b);
    Hex.DecodeExact(Hex.Encode(b), b);
  }

  /** What the value member says of each item: numbers within 52 bits as numbers and larger ones as the
      hex of their value segment, enumerations and masks by name. */
  lemma ItemWritten(env: Env, em: Option<Names.EnumMap>, x: Item, raw: seq<Byte>)
    ensures var j := ItemJson(env, em, x, raw);
            match x
            case Boolean(b) => j == Some(JBool(b))
            case Enumeration(u) => j.Some? && j.value.JStr? && EnumText(j.value.s, em, u)
            case Integer(i) => if em.None? then j == Some(JNum(i)) else j == Some(JStr(Names.MaskText(i, em)))
            case LongInteger(l) =>
              if -0x10_0000_0000_0000 < l < 0x10_0000_0000_0000 then j == Some(JNum(l))
              else j.Some? && j.value.JStr? && HexOf(j.value.s, raw)
            case BigInt(n) =>
              if -0x10_0000_0000_0000 < n < 0x10_0000_0000_0000 then j == Some(JNum(n))
              else j.Some? && j.value.JStr? && HexOf(j.value.s, raw)
            case TextString(s) => j == Some(JStr(env.repair(s)))
            case ByteString(_) => j.Some? && j.value.JStr? && Hex.Spells(j.value.s, raw)
            case DateTime(ns) => if env.formatTime(ns).None? then j.None? else j == Some(JStr(env.formatTime(ns).value))
            case DateTimeExtended(ns) =>
              if env.formatTime(ns).None? then j.None? else j == Some(JStr(env.formatTime(ns).value))
            case Interval(d) => j.Some? && j.value.JNum? && j.value.n * SECOND <= d < (j.value.n + 1) * SECOND
  {
    HexTextSpells(raw);
    if x.Enumeration? {
      FormattedEnum(em, x.u);
    }
  }

  /** The tag member: the registered name, or six hex digits. */
  ghost predicate TagText(text: Text, tags: Names.EnumMap, tag: nat)
  {
    if tag in tags.names then text == tags.names[tag]
    else |text| == 8 && text[..2] == Hex.PREFIX && text[2..] == Hex.Encode(BigEndian(tag, 3))
  }

  lemma FormattedTag(tags: Names.EnumMap, tag: Word)
    requires tag < 0x100_0000
    ensures TagText(Names.FormatTag(tag, Some(tags)), tags, tag)
  {
    PowWords();
    Hex.FormatParse(tag, 3);
  }

  /** The type member: the registered name, or two hex digits. */
  ghost predicate TypeText(text: Text, types: Names.EnumMap, typ: Byte)
  {
    if typ in types.names then text == types.names[typ]
    else |text| == 4 && text[..2] == Hex.PREFIX && text[2..] == Hex.Encode([typ])
  }

  lemma FormattedType(types: Names.EnumMap, typ: Byte)
    ensures TypeText(Names.FormatType(typ, types), types, typ)
  {
    PowWords();
    assert Pow256(1) == 256;
    Hex.FormatParse(typ, 1);
    assert BigEndian(typ, 1) == BigEndian(typ / 256, 0) + [typ % 256];
  }

  /** MarshalJSON of a leaf: tag, type and value, the value named by the enum of the leaf's own tag. */
  lemma LeafWritten(env: Env, n: Node)
    requires WellFormed(n) && n.Leaf?
    ensures IsValid(Render(n)) && Type(Render(n)) != STRUCTURE
    ensures var j, v := ToJson(env, Render(n)), ItemJson(env, RegisteredEnum(env, n.tag), ReadItem(Render(n)), n.value);
            && (j.None? <==> v.None?)
            && (j.Some? ==> j.value.JObj? && TagText(j.value.tag, env.tags, n.tag)
                            && TypeText(j.value.typ, env.types, n.typ) && v == Some(j.value.value))
  {
    ReadLeaf(n);
    FormattedTag(env.tags, n.tag);
    FormattedType(env.types, n.typ);
  }

  /** MarshalJSON of a structure: one object for each child in order. An Integer or Enumeration
      AttributeValue is named by the enum of the tag that the last AttributeName before it names, by
      none if there is no such enum; any other child is written as on its own. */
  lemma StructureWritten(env: Env, n: Node, j: Json)
    requires WellFormed(n) && n.Struct? && ToJson(env, Render(n)) == Some(j)
    ensures j.JObj? && TagText(j.tag, env.tags, n.tag) && j.typ == [] && j.value.JArr?
    ensures |j.value.items| == |n.children|
    ensures forall k :: 0 <= k < |n.children| ==> Child(env, n.children, k, j.value.items[k])
  {
    StructJson(env, n, 0);
    FormattedTag(env.tags, n.tag);
    var js := j.value.items;
    ChildrenWritten(env, 0, n.children, js);
    forall k | 0 <= k < |n.children|
      ensures Child(env, n.children, k, js[k])
    {
      assert ChildWritten(env, 0, n.children, js, k);
      ChildByIndex(env, n.children, js, k);
    }
  }

  ghost predicate Child(env: Env, ns: seq<Node>, k: nat, j: Json)
    requires k < |ns|
  {
    var n, em := ns[k], RegisteredEnum(env, AttributeBefore(env, ns, k));
    if n.tag == ATTRIBUTE_VALUE && n.Leaf? && n.typ == ENUMERATION && |n.value| == 4 then
      && j.JObj? && j.tag == Str("AttributeValue") && j.typ == Str("Enumeration") && j.value.JStr?
      && Unsigned(n.value) < TWO32 && EnumText(j.value.s, em, Unsigned(n.value))
    else if n.tag == ATTRIBUTE_VALUE && n.Leaf? && n.typ == INTEGER && |n.value| == 4 then
      var i := I32(Unsigned(n.value));
      j == JObj(Str("AttributeValue"), Str("Integer"),
                if em.None? then JNum(i) else JStr(Names.MaskText(i, em)))
    else
      ToJson(env, Render(n)) == Some(j)
  }

  lemma ChildByIndex(env: Env, ns: seq<Node>, js: seq<Json>, k: nat)
    requires AllWellFormed(ns) && k < |ns| == |js| && ChildWritten(env, 0, ns, js, k)
    ensures Child(env, ns, k, js[k])
  {
    var n := ns[k];
    ChildWellFormed(ns, k);
    ReadBack(n, []);
    assert Render(n) + [] == Render(n);
    if IsAttributeScalar(Render(n)) {
      AttributeHere(env, ns, k);
      AttributeWritten(env, n, AttributeBefore(env, ns, k), js[k]);
    }
  }

  lemma AttributeHere(env: Env, ns: seq<Node>, k: nat)
    requires AllWellFormed(ns) && k < |ns| && Tag(Render(ns[k])) != ATTRIBUTE_NAME
    ensures AttrThrough(env, 0, ns[..k + 1]) == AttributeBefore(env, ns, k)
  {
    CarriedAttribute(env, ns, k);
    ThroughLast(env, 0, ns[..k], ns[k]);
    assert ns[..k + 1] == ns[..k] + [ns[k]];
  }

  lemma AttributeWritten(env: Env, n: Node, attr: Word, j: Json)
    requires WellFormed(n) && n.tag == ATTRIBUTE_VALUE && n.Leaf? && (n.typ == ENUMERATION || n.typ == INTEGER)
    requires IsValid(Render(n)) && ChildJson(env, Render(n), attr) == Some(j)
    ensures var em, u := EnumFor(env, attr), Unsigned(n.value);
            if n.typ == ENUMERATION then
              && j.JObj? && j.tag == Str("AttributeValue") && j.typ == Str("Enumeration") && j.value.JStr?
              && u < TWO32 && EnumText(j.value.s, em, u)
            else
              j == JObj(Str("AttributeValue"), Str("Integer"),
                        if em.None? then JNum(I32(u)) else JStr(Names.MaskText(I32(u), em)))
  {
    ReadLeaf(n);
    PowWords();
    UnsignedBound(n.value);
    var u: Word := Unsigned(n.value);
    ShortItem(n, u);
    FormattedEnum(EnumFor(env, attr), u);
  }

  // ----- what is read -----

  /** Numbers are taken as they are, for every type that has them. */
  lemma NumbersRead(env: Env, em: Option<Names.EnumMap>, n: int)
    ensures -TWO31 <= n < TWO31 ==> ScalarFromJson(env, em, INTEGER, JNum(n)) == Done(Integer(n))
    ensures -TWO63 <= n < TWO63 ==> ScalarFromJson(env, em, LONG_INTEGER, JNum(n)) == Done(LongInteger(n))
    ensures -TWO63 <= n < TWO63 ==> ScalarFromJson(env, em, BIG_INTEGER, JNum(n)) == Done(BigInt(n))
    ensures 0 <= n < TWO32 ==> ScalarFromJson(env, em, ENUMERATION, JNum(n)) == Done(Enumeration(n))
    ensures 0 <= n < TWO32 ==> ScalarFromJson(env, em, INTERVAL, JNum(n)) == Done(Interval(n * SECOND))
  {
  }

  lemma NumbersRefused(env: Env, em: Option<Names.EnumMap>, n: int, typ: Byte)
    requires typ == BOOLEAN || StringType(typ) || typ == DATE_TIME || typ == DATE_TIME_EXTENDED
    ensures ScalarFromJson(env, em, typ, JNum(n)) == Failed
  {
  }

  /** Hex text of up to the width of the type is its unsigned or two's-complement value. */
  lemma HexRead(env: Env, em: Option<Names.EnumMap>, s: Text, b: seq<Byte>)
    requires HexOf(s, b)
    ensures |b| <= 4 ==> ScalarFromJson(env, em, INTERVAL, JStr(s)) == Done(Interval(Unsigned(b) * SECOND))
    ensures |b| <= 4 ==> Unsigned(b) < TWO32
    ensures |b| <= 4 ==> ScalarFromJson(env, em, ENUMERATION, JStr(s)) == Done(Enumeration(Unsigned(b)))
    ensures |b| <= 4 ==> ScalarFromJson(env, em, INTEGER, JStr(s)) == Done(Integer(I32(Unsigned(b))))
    ensures |b| <= 8 ==> ScalarFromJson(env, em, LONG_INTEGER, JStr(s)) == Done(LongInteger(I64(Unsigned(b))))
    ensures |b| <= 8 ==> ScalarFromJson(env, em, DATE_TIME, JStr(s)) == Done(DateTime(I64(Unsigned(b)) * SECOND))
    ensures ScalarFromJson(env, em, BIG_INTEGER, JStr(s)) ==
            if |b| % 8 == 0 then Done(BigInt(BigInteger.Signed(b))) else Failed
    ensures ScalarFromJson(env, em, BYTE_STRING, JStr(s)) == Failed
  {
    if |b| <= 4 {
      ShortHexRead(env, em, s, b);
    }
    if |b| <= 8 {
      LongHexRead(env, em, s, b);
    }
    WideHexRead(env, em, s, b);
  }

  lemma IntervalText(env: Env, em: Option<Names.EnumMap>, s: Text)
    ensures ScalarFromJson(env, em, INTERVAL, JStr(s)) ==
              match Hex.Parse(s, 4)
              case Bytes(b) => Done(Interval(Hex.DecodeUint32(b) * SECOND))
              case _ => Failed
  {
  }

  lemma EnumerationText(env: Env, em: Option<Names.EnumMap>, s: Text)
    ensures ScalarFromJson(env, em, ENUMERATION, JStr(s)) ==
              match Names.ParseEnum(s, em)
              case Ok(u) => Done(Enumeration(u))
              case Err(_) => Failed
  {
  }

  lemma LongText(env: Env, em: Option<Names.EnumMap>, s: Text)
    ensures ScalarFromJson(env, em, LONG_INTEGER, JStr(s)) ==
              match Hex.Parse(s, 8)
              case Bytes(b) => Done(LongInteger(I64(Hex.DecodeUint64(b))))
              case _ => Failed
  {
  }

  lemma TimeText(env: Env, em: Option<Names.EnumMap>, s: Text, typ: Byte)
    requires typ == DATE_TIME || typ == DATE_TIME_EXTENDED
    ensures ScalarFromJson(env, em, typ, JStr(s)) == TimeFromJson(env, typ, s)
  {
  }

  lemma BigText(env: Env, em: Option<Names.EnumMap>, s: Text)
    ensures ScalarFromJson(env, em, BIG_INTEGER, JStr(s)) ==
              if !Hex.IsHex(s) then Failed
              else
                match Hex.Decode(s[2..])
                case None => Failed
                case Some(b) => if |b| % 8 != 0 then Failed else Done(BigInt(BigInteger.Signed(BigInteger.Unpad(b))))
  {
  }

  lemma ShortHexRead(env: Env, em: Option<Names.EnumMap>, s: Text, b: seq<Byte>)
    requires HexOf(s, b) && |b| <= 4
    ensures Unsigned(b) < TWO32
    ensures ScalarFromJson(env, em, INTERVAL, JStr(s)) == Done(Interval(Unsigned(b) * SECOND))
    ensures ScalarFromJson(env, em, ENUMERATION, JStr(s)) == Done(Enumeration(Unsigned(b)))
    ensures ScalarFromJson(env, em, INTEGER, JStr(s)) == Done(Integer(I32(Unsigned(b))))
  {
    HexWords(s, b);
    HexNumbers(env, em, s, b);
    ShortTexts(env, em, s, b, Unsigned(b));
  }

  lemma ShortTexts(env: Env, em: Option<Names.EnumMap>, s: Text, b: seq<Byte>, u: Word)
    requires Hex.Parse(s, 4) == Hex.Bytes(b) && Hex.DecodeUint32(b) == u
    requires Names.ParseEnum(s, em) == Names.Ok(u) && Names.ParseMask(s, em) == Names.Ok(I32(u))
    ensures ScalarFromJson(env, em, INTERVAL, JStr(s)) == Done(Interval(u * SECOND))
    ensures ScalarFromJson(env, em, ENUMERATION, JStr(s)) == Done(Enumeration(u))
    ensures ScalarFromJson(env, em, INTEGER, JStr(s)) == Done(Integer(I32(u)))
  {
    IntervalText(env, em, s);
    EnumerationText(env, em, s);
    IntegerText(env, em, s);
  }

  lemma LongHexRead(env: Env, em: Option<Names.EnumMap>, s: Text, b: seq<Byte>)
    requires HexOf(s, b) && |b| <= 8
    ensures ScalarFromJson(env, em, LONG_INTEGER, JStr(s)) == Done(LongInteger(I64(Unsigned(b))))
    ensures ScalarFromJson(env, em, DATE_TIME, JStr(s)) == Done(DateTime(I64(Unsigned(b)) * SECOND))
  {
    HexWords(s, b);
    LongText(env, em, s);
    TimeText(env, em, s, DATE_TIME);
  }

  lemma WideHexRead(env: Env, em: Option<Names.EnumMap>, s: Text, b: seq<Byte>)
    requires HexOf(s, b)
    ensures ScalarFromJson(env, em, BIG_INTEGER, JStr(s)) ==
            if |b| % 8 == 0 then Done(BigInt(BigInteger.Signed(b))) else Failed
    ensures ScalarFromJson(env, em, BYTE_STRING, JStr(s)) == Failed
  {
    BigText(env, em, s);
    BytesText(env, em, s);
    DecodedWide(s, b);
  }

  lemma DecodedWide(s: Text, b: seq<Byte>)
    requires HexOf(s, b)
    ensures Hex.Decode(s[2..]) == Some(b) && BigInteger.Signed(BigInteger.Unpad(b)) == BigInteger.Signed(b)
  {
    Hex.DecodeExact(s[2..], b);
    BigInteger.UnpadValue(b);
  }

  lemma HexWords(s: Text, b: seq<Byte>)
    requires HexOf(s, b)
    ensures |b| <= 4 ==> Unsigned(b) < TWO32 && Hex.Parse(s, 4) == Hex.Bytes(b) && Hex.DecodeUint32(b) == Unsigned(b)
    ensures |b| <= 8 ==> Hex.Parse(s, 8) == Hex.Bytes(b) && Hex.DecodeUint64(b) == Unsigned(b)
  {
    PowWords();
    UnsignedBound(b);
    Hex.ParseExact(s, 4, b);
    Hex.ParseExact(s, 8, b);
    Hex.DecodeUintExact(b);
    if |b| <= 8 {
      PowMonotone(|b|, 8);
      if |b| <= 4 {
        PowMonotone(|b|, 4);
      }
    }
  }

  lemma HexNumbers(env: Env, em: Option<Names.EnumMap>, s: Text, b: seq<Byte>)
    requires HexOf(s, b)
    ensures |b| <= 4 ==> Names.ParseEnum(s, em) == Names.Ok(Hex.DecodeUint32(b))
    ensures |b| <= 4 ==> Names.ParseMask(s, em) == Names.Ok(I32(Hex.DecodeUint32(b)))
  {
    assert s[..2][0] == 0x30 && s[..2][1] == 0x78;
    HexWords(s, b);
    HexHasNoSeparator(s, b);
  }

  lemma HexHasNoSeparator(s: Text, b: seq<Byte>)
    requires HexOf(s, b)
    ensures !Names.HasSeparator(s)
  {
    assert s[..2][0] == 0x30 && s[..2][1] == 0x78;
    forall i | 0 <= i < |s|
      ensures !Names.IsSeparator(s[i])
    {
      if i >= 2 {
        var k := (i - 2) / 2;
        assert s[2..][2 * k] == s[2 + 2 * k] && s[2..][2 * k + 1] == s[3 + 2 * k];
        assert DigitAt(s[2 + 2 * k]) && DigitAt(s[3 + 2 * k]);
      }
    }
  }

  predicate DigitAt(c: Byte)
  {
    Hex.DigitValue(c).Some?
  }

  /** Booleans may also be the hex of one or zero in eight bytes. */
  lemma BooleansRead(env: Env, em: Option<Names.EnumMap>, s: Text)
    ensures ScalarFromJson(env, em, BOOLEAN, JStr(s)) ==
            if s == HexText(FlagBytes(1)) then Done(Boolean(true))
            else if s == HexText(FlagBytes(0)) then Done(Boolean(false)) else Failed
  {
    FlagText(0);
    FlagText(1);
    LastDigit("0x0000000000000000", 0);
    LastDigit("0x0000000000000001", 1);
  }

  /** Zero or one in eight bytes. */
  function FlagBytes(d: nat): seq<Byte>
    requires d < 2
  {
    Zeros(7) + [d]
  }

  lemma FlagText(d: nat)
    requires d < 2
    ensures HexText(FlagBytes(d)) == Hex.PREFIX + Repeat(0x30, 15) + [0x30 + d]
  {
    EncodeZeros(7);
    ConcatSlices(Zeros(7), [d]);
    assert Hex.Encode(FlagBytes(d)) == Repeat(0x30, 14) + [0x30, 0x30 + d];
  }

  lemma LastDigit(s: string, d: nat)
    requires |s| == 18 && d < 2 && s[0] == '0' && s[1] == 'x' && s[17] as int == 0x30 + d
    requires forall i :: 2 <= i < 17 ==> s[i] == '0'
    ensures Str(s) == Hex.PREFIX + Repeat(0x30, 15) + [0x30 + d]
  {
  }

  lemma {:induction false} EncodeZeros(k: nat)
    ensures Hex.Encode(Zeros(k)) == Repeat(0x30, 2 * k)
  {
    if k == 0 {
    } else {
      EncodeZeros(k - 1);
      assert Zeros(k)[..k - 1] == Zeros(k - 1);
    }
  }

  /** Times may be RFC 3339 text, texts are taken as they are, and names stand for enumerations. */
  lemma TextsRead(env: Env, em: Option<Names.EnumMap>, s: Text, typ: Byte)
    requires typ == DATE_TIME || typ == DATE_TIME_EXTENDED
    ensures !Hex.IsHex(s) ==>
            ScalarFromJson(env, em, typ, JStr(s)) ==
              match env.parseTime(s)
              case None => Failed
              case Some(ns) => Done(if typ == DATE_TIME then DateTime(ns) else DateTimeExtended(ns))
    ensures ScalarFromJson(env, em, TEXT_STRING, JStr(s)) == Done(TextString(s))
    ensures em.Some? && s in em.value.lookup && !Hex.IsHex(s) && Names.ParseDecimalUint32(s).None? ==>
            ScalarFromJson(env, em, ENUMERATION, JStr(s)) == Done(Enumeration(em.value.lookup[s]))
  {
    TimeText(env, em, s, typ);
    EnumerationText(env, em, s);
  }

  /** Nothing else is a scalar. */
  lemma OthersRefused(env: Env, em: Option<Names.EnumMap>, v: Json, typ: Byte)
    requires KnownType(typ) && typ != STRUCTURE
    ensures v.JNull? || v.JArr? || v.JObj? || (v.JBool? && typ != BOOLEAN) ==> ScalarFromJson(env, em, typ, v) == Failed
    ensures v.JBool? && typ == BOOLEAN ==> ScalarFromJson(env, em, typ, v) == Done(Boolean(v.b))
  {
  }

  /** Objects the writer does not produce: a structure may say its type and have null for no children,
      and a type that is none of the eleven stands for nothing. */
  lemma ObjectsRead(env: Env, name: Text, typeName: Text, v: Json, attr: Word, typ: Byte)
    requires typeName != [] && Names.ParseType(typeName, env.types) == Names.Type(typ)
    ensures typ == STRUCTURE ==> FromJson(env, JObj(name, typeName, v), attr) == FromJson(env, JObj(name, [], v), attr)
    ensures FromJson(env, JObj(name, [], JNull), attr) == FromJson(env, JObj(name, [], JArr([])), attr)
    ensures !KnownType(typ) && Names.ParseTag(name, Some(env.tags)).Ok? ==>
            FromJson(env, JObj(name, typeName, v), attr) == Done([])
    ensures Names.ParseTag(name, Some(env.tags)).Err? ==> FromJson(env, JObj(name, typeName, v), attr) == Failed
  {
    var tag := Names.ParseTag(name, Some(env.tags));
    if tag.Ok? {
      StructForms(env, tag.value, name, typeName, v);
      assert typ == STRUCTURE ==>
        FromJson(env, JObj(name, typeName, v), attr) == StructFromJson(env, tag.value, JObj(name, typeName, v));
      assert FromJson(env, JObj(name, [], v), attr) == StructFromJson(env, tag.value, JObj(name, [], v));
    }
  }

  lemma StructForms(env: Env, tag: Word, name: Text, typeName: Text, v: Json)
    ensures StructFromJson(env, tag, JObj(name, typeName, v)) == StructFromJson(env, tag, JObj(name, [], v))
    ensures StructFromJson(env, tag, JObj(name, [], JNull)) == StructFromJson(env, tag, JObj(name, [], JArr([])))
  {
    assert ChildrenFromJson(env, [], 0) == Done([]);
  }

  // ----- what the round trip relies on -----

  ghost predicate EnumOk(em: Names.EnumMap)
  {
    Names.EnumNames(em) && Names.MaskNames(em) && Names.Complete(em)
  }

  /** Names are written into the JSON text without escaping, so a name with a quote or a backslash
      would not even give JSON; trees do not show that. What they need is that
      registered names are unambiguous, TagNone is not an enum's tag, the names the mapping writes
      literally are registered, and formatted times parse back. */
  ghost predicate EnvOk(env: Env)
  {
    && Names.TagNames(env.tags)
    && Names.TagNames(env.types)
    && (forall v :: v in env.types.names ==> env.types.names[v] != [])
    && 0 !in env.enums
    && (forall t :: t in env.enums ==> EnumOk(env.enums[t]))
    && Names.ParseTag(Str("AttributeValue"), Some(env.tags)) == Names.Ok(ATTRIBUTE_VALUE)
    && Names.ParseType(Str("Enumeration"), env.types) == Names.Type(ENUMERATION)
    && Names.ParseType(Str("Integer"), env.types) == Names.Type(INTEGER)
    && (forall ns :: env.formatTime(ns).Some? ==>
          !Hex.IsHex(env.formatTime(ns).value) && env.parseTime(env.formatTime(ns).value) == Some(ns))
  }

  /** Leaves in the form the encoder writes: zero padding, Booleans 0 or 1, big integers without
      a superfluous word, extended times within 64-bit nanoseconds. */
  predicate WireCanonical(n: Node)
    requires n.Leaf?
  {
    && n.pad == Zeros(|n.pad|)
    && (n.typ == BOOLEAN ==> n.value == FlagBytes(0) || n.value == FlagBytes(1))
    && (n.typ == BIG_INTEGER ==> 0 < |n.value| < |BigInteger.Unpad(n.value)| + 8)
    && (n.typ == DATE_TIME_EXTENDED ==> -9223372036854775 <= I64(Unsigned(n.value)) <= 9223372036854775)
  }

  /** Items JSON can express: text that is valid UTF-8, times in the range of RFC 3339, integers
      whose mask text parses back. */
  predicate Expressible(env: Env, em: Option<Names.EnumMap>, x: Item)
  {
    match x
    case Integer(i) =>
      em.Some? ==> if em.value.values == [] then i >= 0 else i != 0 || 0 in em.value.names
    case TextString(s) => env.repair(s) == s
    case DateTime(ns) => env.formatTime(ns).Some?
    case DateTimeExtended(ns) => env.formatTime(ns).Some?
    case _ => true
  }

  /** The item of a leaf, telling an empty byte string from a nil one. */
  function LeafItem(n: Node): Item
    requires n.Leaf? && IsValid(Render(n)) && Type(Render(n)) != STRUCTURE
  {
    if n.typ == BYTE_STRING then ByteString(Some(n.value)) else ReadItem(Render(n))
  }

  function TypeOf(x: Item): Byte
  {
    match x
    case Integer(_) => INTEGER
    case LongInteger(_) => LONG_INTEGER
    case BigInt(_) => BIG_INTEGER
    case Enumeration(_) => ENUMERATION
    case Boolean(_) => BOOLEAN
    case TextString(_) => TEXT_STRING
    case ByteString(_) => BYTE_STRING
    case DateTime(_) => DATE_TIME
    case DateTimeExtended(_) => DATE_TIME_EXTENDED
    case Interval(_) => INTERVAL
  }

  // ----- items through JSON -----

  /** An item sent through JSON; `em` formats and `em'` parses. */
  function ItemBack(env: Env, em: Option<Names.EnumMap>, em': Option<Names.EnumMap>, x: Item, raw: seq<Byte>): Result<Item>
  {
    match ItemJson(env, em, x, raw)
    case None => Failed
    case Some(j) => ScalarFromJson(env, em', TypeOf(x), j)
  }

  /** The parser knows the same enum, or the formatter knew none. */
  ghost predicate Agree(em: Option<Names.EnumMap>, em': Option<Names.EnumMap>)
  {
    (em.Some? ==> EnumOk(em.value)) && (em' == em || em.None?)
  }

  /** Formatted enumerations parse back, also where only the parser knows an enum. */
  lemma EnumRead(u: nat, em: Option<Names.EnumMap>, em': Option<Names.EnumMap>)
    requires u < TWO32 && Agree(em, em')
    ensures Names.ParseEnum(Names.FormatEnum(u, em), em') == Names.Ok(u)
  {
    if em == em' {
      Names.EnumRoundTrip(u, em);
    } else {
      PowWords();
      Hex.FormatParse(u, 4);
      Names.HexIsNotDecimal(u, 8);
    }
  }

  lemma EnumBack(env: Env, em: Option<Names.EnumMap>, em': Option<Names.EnumMap>, u: Word, raw: seq<Byte>)
    requires Agree(em, em')
    ensures ItemBack(env, em, em', Enumeration(u), raw) == Done(Enumeration(u))
  {
    EnumRead(u, em, em');
    var s := Names.FormatEnum(u, em);
    assert ItemBack(env, em, em', Enumeration(u), raw) == ScalarFromJson(env, em', ENUMERATION, JStr(s));
  }

  /** An integer written as mask text. */
  lemma MaskBack(env: Env, em: Names.EnumMap, i: Int32)
    requires EnumOk(em)
    ensures var r := ScalarFromJson(env, Some(em), INTEGER, JStr(Names.MaskText(i, Some(em))));
            r == Done(Integer(i)) <==> Expressible(env, Some(em), Integer(i))
  {
    Names.MaskRoundTrip(i, Some(em));
    IntegerText(env, Some(em), Names.MaskText(i, Some(em)));
  }

  lemma IntegerText(env: Env, em: Option<Names.EnumMap>, s: Text)
    ensures ScalarFromJson(env, em, INTEGER, JStr(s)) ==
              match Names.ParseMask(s, em)
              case Ok(i) => Done(Integer(i))
              case Err(_) => Failed
  {
  }

  lemma IntegerBack(env: Env, em: Option<Names.EnumMap>, em': Option<Names.EnumMap>, i: Int32, raw: seq<Byte>)
    requires Agree(em, em')
    ensures ItemBack(env, em, em', Integer(i), raw) == Done(Integer(i)) <==> Expressible(env, em, Integer(i))
  {
    if em.Some? {
      MaskBack(env, em.value, i);
      assert ItemBack(env, em, em', Integer(i), raw) ==
             ScalarFromJson(env, em', INTEGER, JStr(Names.MaskText(i, em)));
    } else {
      assert ItemBack(env, em, em', Integer(i), raw) == ScalarFromJson(env, em', INTEGER, JNum(i));
    }
  }

  lemma HexTextBack(b: seq<Byte>)
    ensures Hex.IsHex(HexText(b)) && Hex.Decode(HexText(b)[2..]) == Some(b) && !Hex.IsHex(Hex.Encode(b))
  {
    Hex.DecodeEncode(b);
    Hex.EncodeLength(b);
    ConcatSlices(Hex.PREFIX, Hex.Encode(b));
  }

  lemma LongHex(l: Int64)
    ensures var raw := BigEndian(U64(l), 8);
            Hex.Parse(HexText(raw), 8) == Hex.Bytes(raw) && I64(Hex.DecodeUint64(raw)) == l
  {
    var raw := BigEndian(U64(l), 8);
    HexTextBack(raw);
    LongBytes(l);
  }

  lemma LongBytes(l: Int64)
    ensures I64(Hex.DecodeUint64(BigEndian(U64(l), 8))) == l
  {
    PowWords();
    UnsignedBigEndian(U64(l), 8);
    Hex.DecodeUintExact(BigEndian(U64(l), 8));
    I64Congruent(U64(l), l);
  }

  lemma LongBack(env: Env, em: Option<Names.EnumMap>, em': Option<Names.EnumMap>, l: Int64)
    ensures ItemBack(env, em, em', LongInteger(l), BigEndian(U64(l), 8)) == Done(LongInteger(l))
  {
    LongHex(l);
    var s := HexText(BigEndian(U64(l), 8));
    var r := ItemBack(env, em, em', LongInteger(l), BigEndian(U64(l), 8));
    if l <= -MAX_JSON_INT || l >= MAX_JSON_INT {
      assert r == ScalarFromJson(env, em', LONG_INTEGER, JStr(s));
    } else {
      assert r == ScalarFromJson(env, em', LONG_INTEGER, JNum(l));
    }
  }

  lemma BigNumber(env: Env, em: Option<Names.EnumMap>, n: int)
    requires -MAX_JSON_INT < n < MAX_JSON_INT
    ensures ScalarFromJson(env, em, BIG_INTEGER, JNum(n)) == Done(BigInt(n))
  {
  }

  lemma BigFromHex(env: Env, em: Option<Names.EnumMap>, s: Text, b: seq<Byte>)
    requires Hex.IsHex(s) && Hex.Decode(s[2..]) == Some(b) && |b| % 8 == 0
    ensures ScalarFromJson(env, em, BIG_INTEGER, JStr(s)) == Done(BigInt(BigInteger.Signed(BigInteger.Unpad(b))))
  {
    BigText(env, em, s);
  }

  lemma BigBack(env: Env, em: Option<Names.EnumMap>, em': Option<Names.EnumMap>, raw: seq<Byte>)
    requires |raw| % 8 == 0
    ensures var x := BigInt(BigInteger.Signed(BigInteger.Unpad(raw)));
            ItemBack(env, em, em', x, raw) == Done(x)
  {
    var n := BigInteger.Signed(BigInteger.Unpad(raw));
    if -MAX_JSON_INT < n < MAX_JSON_INT {
      BigNumber(env, em', n);
    } else {
      HexTextBack(raw);
      BigFromHex(env, em', HexText(raw), raw);
    }
  }

  lemma TimeBack(env: Env, em: Option<Names.EnumMap>, em': Option<Names.EnumMap>, x: Item, raw: seq<Byte>)
    requires EnvOk(env) && (x.DateTime? || x.DateTimeExtended?)
    ensures ItemBack(env, em, em', x, raw) == Done(x) <==> Expressible(env, em, x)
    ensures !Expressible(env, em, x) ==> ItemBack(env, em, em', x, raw) == Failed
  {
  }

  // ----- leaves through JSON -----

  lemma ReadLeaf(n: Node)
    requires WellFormed(n) && n.Leaf?
    ensures var t := Render(n);
            IsValid(t) && Type(t) == n.typ && ValueRaw(t) == n.value && Len(t) == |n.value| && Tag(t) == n.tag
  {
    ReadBack(n, []);
    ParseRender(n, []);
    assert Render(n) + [] == Render(n);
  }

  lemma ShortItem(n: Node, u: Word)
    requires WellFormed(n) && n.Leaf? && ShortType(n.typ) && u == Unsigned(n.value)
    ensures IsValid(Render(n)) && Type(Render(n)) == n.typ
    ensures LeafItem(n) == if n.typ == INTEGER then Integer(I32(u))
                           else if n.typ == ENUMERATION then Enumeration(u) else Interval(u * SECOND)
  {
    ReadLeaf(n);
    assert n.value[..4] == n.value;
  }

  lemma ShortBlocks(tag: nat, u: Word)
    ensures Blocks(tag, Integer(I32(u))) == [WordNode(tag, INTEGER, u)]
    ensures Blocks(tag, Interval(u * SECOND)) == [WordNode(tag, INTERVAL, u)]
  {
    assert Truncate(u * SECOND, SECOND) == u;
  }

  lemma ReblockShort(n: Node)
    requires WellFormed(n) && n.Leaf? && ShortType(n.typ)
    ensures IsValid(Render(n)) && Type(Render(n)) == n.typ
    ensures Blocks(n.tag, LeafItem(n)) == [n] <==> WireCanonical(n)
  {
    var u := ShortWord(n.value);
    ShortRewritten(n, u);
    PlainCanonical(n);
    SameWord(n, u);
  }

  lemma ShortWord(value: seq<Byte>) returns (u: Word)
    requires |value| == 4
    ensures u == Unsigned(value) && BigEndian(u, 4) == value
  {
    PowWords();
    UnsignedBound(value);
    BigEndianUnsigned(value);
    u := Unsigned(value);
  }

  lemma PlainCanonical(n: Node)
    requires n.Leaf? && n.typ != BOOLEAN && n.typ != BIG_INTEGER && n.typ != DATE_TIME_EXTENDED
    ensures WireCanonical(n) <==> n.pad == Zeros(|n.pad|)
  {
  }

  lemma SameWord(n: Node, u: Word)
    requires n.Leaf? && |n.pad| == 4 && n.value == BigEndian(u, 4)
    ensures [WordNode(n.tag, n.typ, u)] == [n] <==> n.pad == Zeros(|n.pad|)
  {
  }

  lemma ShortRewritten(n: Node, u: Word)
    requires WellFormed(n) && n.Leaf? && ShortType(n.typ) && u == Unsigned(n.value)
    ensures IsValid(Render(n)) && Type(Render(n)) == n.typ
    ensures Blocks(n.tag, LeafItem(n)) == [WordNode(n.tag, n.typ, u)]
  {
    ShortItem(n, u);
    ShortBlocks(n.tag, u);
  }

  lemma LongWord(value: seq<Byte>)
    requires |value| == 8
    ensures U64(I64(Unsigned(value))) == Unsigned(value) && BigEndian(Unsigned(value), 8) == value
    ensures value[..8] == value
  {
    PowWords();
    UnsignedBound(value);
    BigEndianUnsigned(value);
  }

  lemma {:induction false} ZeroBytes(k: nat)
    ensures BigEndian(0, k) == Zeros(k)
  {
    if k == 0 {
    } else {
      ZeroBytes(k - 1);
    }
  }

  lemma FlagWord(d: nat)
    requires d < 2
    ensures BigEndian(U64(d), 8) == FlagBytes(d)
  {
    ZeroBytes(7);
    assert U64(d) == d && d / 256 == 0 && d % 256 == d;
    assert BigEndian(d, 8) == BigEndian(d / 256, 7) + [d % 256];
  }

  lemma ExtendedValue(m: Int64)
    ensures Microseconds(I64(m * 1000)) == m <==> -9223372036854775 <= m <= 9223372036854775
  {
    MicrosecondsValue(I64(m * 1000));
  }

  lemma ReblockBoolean(n: Node)
    requires WellFormed(n) && n.Leaf? && n.typ == BOOLEAN
    ensures IsValid(Render(n)) && Type(Render(n)) == n.typ
    ensures Blocks(n.tag, LeafItem(n)) == [n] <==> WireCanonical(n)
  {
    var d := if n.value[7] != 0 then 1 else 0;
    BooleanRewritten(n, d);
    FlagWord(d);
    CanonicalBoolean(n, d);
  }

  lemma CanonicalBoolean(n: Node, d: nat)
    requires WellFormed(n) && n.Leaf? && n.typ == BOOLEAN && d == if n.value[7] != 0 then 1 else 0
    ensures WireCanonical(n) <==> n.value == FlagBytes(d)
  {
    assert FlagBytes(0)[7] == 0 && FlagBytes(1)[7] == 1;
  }

  lemma BooleanRewritten(n: Node, d: nat)
    requires WellFormed(n) && n.Leaf? && n.typ == BOOLEAN && d == if n.value[7] != 0 then 1 else 0
    ensures IsValid(Render(n)) && Type(Render(n)) == n.typ
    ensures Blocks(n.tag, LeafItem(n)) == [LongNode(n.tag, BOOLEAN, d)]
  {
    ReadLeaf(n);
    assert LeafItem(n) == Boolean(n.value[7] != 0);
  }

  lemma ReblockExtended(n: Node)
    requires WellFormed(n) && n.Leaf? && n.typ == DATE_TIME_EXTENDED
    ensures IsValid(Render(n)) && Type(Render(n)) == n.typ
    ensures Blocks(n.tag, LeafItem(n)) == [n] <==> WireCanonical(n)
  {
    LongWord(n.value);
    var l: Int64 := I64(Unsigned(n.value));
    ExtendedRewritten(n, l);
    ExtendedValue(l);
    SameLong(l, Microseconds(I64(l * 1000)));
  }

  lemma ExtendedRewritten(n: Node, l: Int64)
    requires WellFormed(n) && n.Leaf? && n.typ == DATE_TIME_EXTENDED && l == I64(Unsigned(n.value))
    ensures IsValid(Render(n)) && Type(Render(n)) == n.typ
    ensures Blocks(n.tag, LeafItem(n)) == [LongNode(n.tag, n.typ, Microseconds(I64(l * 1000)))]
  {
    ReadLeaf(n);
    assert n.value[..8] == n.value;
    assert LeafItem(n) == DateTimeExtended(I64(l * 1000));
  }

  lemma ReblockLong(n: Node)
    requires WellFormed(n) && n.Leaf? && (n.typ == LONG_INTEGER || n.typ == DATE_TIME)
    ensures IsValid(Render(n)) && Type(Render(n)) == n.typ
    ensures Blocks(n.tag, LeafItem(n)) == [n] <==> WireCanonical(n)
  {
    LongWord(n.value);
    var l: Int64 := I64(Unsigned(n.value));
    LongRewritten(n, l);
    PlainCanonical(n);
    assert n.pad == [];
  }

  lemma LongRewritten(n: Node, l: Int64)
    requires WellFormed(n) && n.Leaf? && (n.typ == LONG_INTEGER || n.typ == DATE_TIME) && l == I64(Unsigned(n.value))
    ensures IsValid(Render(n)) && Type(Render(n)) == n.typ
    ensures Blocks(n.tag, LeafItem(n)) == [LongNode(n.tag, n.typ, l)]
  {
    ReadLeaf(n);
    assert n.value[..8] == n.value;
    assert LeafItem(n) == if n.typ == LONG_INTEGER then LongInteger(l) else DateTime(l * SECOND);
    assert l * SECOND / SECOND == l;
  }

  lemma SameLong(l: Int64, m: Int64)
    ensures BigEndian(U64(l), 8) == BigEndian(U64(m), 8) ==> l == m
  {
    PowWords();
    UnsignedBigEndian(U64(l), 8);
    UnsignedBigEndian(U64(m), 8);
  }

  lemma ReblockBig(n: Node)
    requires WellFormed(n) && n.Leaf? && n.typ == BIG_INTEGER
    ensures IsValid(Render(n)) && Type(Render(n)) == n.typ
    ensures Blocks(n.tag, LeafItem(n)) == [n] <==> WireCanonical(n)
  {
    ReadLeaf(n);
    BigInteger.UnpadValue(n.value);
    var i := BigInteger.Signed(n.value);
    BigInteger.EncodeValue(i);
    assert LeafItem(n) == BigInt(i);
    assert Blocks(n.tag, LeafItem(n)) == [PaddedNode(n.tag, n.typ, BigInteger.Encode(i))];
    if n.value != [] {
      BigInteger.MinimalForm(n.value);
    }
  }

  lemma ReblockString(n: Node)
    requires WellFormed(n) && n.Leaf? && StringType(n.typ)
    ensures IsValid(Render(n)) && Type(Render(n)) == n.typ
    ensures Blocks(n.tag, LeafItem(n)) == [n] <==> WireCanonical(n)
  {
    ReadLeaf(n);
    PaddingOf(|n.value|, |n.pad|);
    assert Blocks(n.tag, LeafItem(n)) == [PaddedNode(n.tag, n.typ, n.value)];
  }

  lemma PaddingOf(len: nat, pad: nat)
    requires pad < 8 && (len + pad) % 8 == 0
    ensures pad == BigInteger.PadTo8(len)
  {
  }

  /** Writing the item of a leaf gives the leaf back exactly when it is in the encoder's form. */
  lemma Reblock(n: Node)
    requires WellFormed(n) && n.Leaf?
    ensures IsValid(Render(n)) && Type(Render(n)) == n.typ
    ensures Blocks(n.tag, LeafItem(n)) == [n] <==> WireCanonical(n)
  {
    if ShortType(n.typ) {
      ReblockShort(n);
    } else if n.typ == BOOLEAN {
      ReblockBoolean(n);
    } else if n.typ == DATE_TIME_EXTENDED {
      ReblockExtended(n);
    } else if LongType(n.typ) {
      ReblockLong(n);
    } else if n.typ == BIG_INTEGER {
      ReblockBig(n);
    } else {
      ReblockString(n);
    }
  }

  /** A leaf sent through JSON. */
  function LeafBack(env: Env, em: Option<Names.EnumMap>, em': Option<Names.EnumMap>, n: Node): Result<seq<Node>>
    requires n.Leaf? && IsValid(Render(n)) && Type(Render(n)) != STRUCTURE
  {
    match ItemBack(env, em, em', ReadItem(Render(n)), n.value)
    case Done(x) => Done(Blocks(n.tag, x))
    case Failed => Failed
    case Panics => Panics
  }

  ghost predicate CanonicalLeaf(env: Env, em: Option<Names.EnumMap>, n: Node)
    requires n.Leaf? && IsValid(Render(n)) && Type(Render(n)) != STRUCTURE
  {
    WireCanonical(n) && Expressible(env, em, LeafItem(n))
  }

  lemma ItemKind(n: Node)
    requires WellFormed(n) && n.Leaf?
    ensures IsValid(Render(n)) && Type(Render(n)) == n.typ
    ensures TypeOf(ReadItem(Render(n))) == n.typ
    ensures n.typ != BYTE_STRING ==> LeafItem(n) == ReadItem(Render(n))
  {
    ReadLeaf(n);
  }

  lemma LongKind(n: Node)
    requires WellFormed(n) && n.Leaf? && n.typ == LONG_INTEGER
    ensures IsValid(Render(n)) && Type(Render(n)) == n.typ
    ensures ReadItem(Render(n)).LongInteger? && n.value == BigEndian(U64(ReadItem(Render(n)).l), 8)
  {
    ReadLeaf(n);
    LongWord(n.value);
  }

  lemma BigKind(n: Node)
    requires WellFormed(n) && n.Leaf? && n.typ == BIG_INTEGER
    ensures IsValid(Render(n)) && Type(Render(n)) == n.typ
    ensures ReadItem(Render(n)) == BigInt(BigInteger.Signed(BigInteger.Unpad(n.value)))
  {
    ReadLeaf(n);
  }

  /** An item sent through JSON is itself exactly when it is expressible. */
  lemma LeafItemBack(env: Env, em: Option<Names.EnumMap>, em': Option<Names.EnumMap>, n: Node)
    requires EnvOk(env) && WellFormed(n) && n.Leaf? && Agree(em, em')
    ensures IsValid(Render(n)) && Type(Render(n)) == n.typ
    ensures ItemBack(env, em, em', ReadItem(Render(n)), n.value) == Done(LeafItem(n)) <==>
            Expressible(env, em, LeafItem(n))
  {
    ItemKind(n);
    match ReadItem(Render(n))
    case Integer(i) => IntegerBack(env, em, em', i, n.value);
    case Enumeration(u) => EnumBack(env, em, em', u, n.value);
    case LongInteger(l) =>
      LongKind(n);
      LongBack(env, em, em', l);
    case BigInt(_) =>
      BigKind(n);
      BigBack(env, em, em', n.value);
    case ByteString(b) => BytesBack(env, em, em', b, n.value);
    case DateTime(ns) => TimeBack(env, em, em', DateTime(ns), n.value);
    case DateTimeExtended(ns) => TimeBack(env, em, em', DateTimeExtended(ns), n.value);
    case Interval(_) =>
      PowWords();
      UnsignedBound(n.value);
      ShortItem(n, Unsigned(n.value));
      IntervalBack(env, em, em', Unsigned(n.value), n.value);
    case x => PlainBack(env, em, em', x, n.value);
  }

  lemma BytesBack(env: Env, em: Option<Names.EnumMap>, em': Option<Names.EnumMap>, b: Option<seq<Byte>>, raw: seq<Byte>)
    ensures ItemBack(env, em, em', ByteString(b), raw) == Done(ByteString(Some(raw)))
  {
    HexTextBack(raw);
    BytesText(env, em', Hex.Encode(raw));
    Hex.DecodeEncode(raw);
    assert ItemBack(env, em, em', ByteString(b), raw) == ScalarFromJson(env, em', BYTE_STRING, JStr(Hex.Encode(raw)));
  }

  lemma BytesText(env: Env, em: Option<Names.EnumMap>, s: Text)
    ensures ScalarFromJson(env, em, BYTE_STRING, JStr(s)) ==
            if Hex.IsHex(s) || Hex.Decode(s).None? then Failed else Done(ByteString(Some(Hex.Decode(s).value)))
  {
  }

  lemma IntervalBack(env: Env, em: Option<Names.EnumMap>, em': Option<Names.EnumMap>, u: Word, raw: seq<Byte>)
    ensures ItemBack(env, em, em', Interval(u * SECOND), raw) == Done(Interval(u * SECOND))
  {
    assert u * SECOND / SECOND == u && I64(I64(u) * SECOND) == u * SECOND;
  }

  lemma PlainBack(env: Env, em: Option<Names.EnumMap>, em': Option<Names.EnumMap>, x: Item, raw: seq<Byte>)
    requires x.Boolean? || x.TextString?
    ensures ItemBack(env, em, em', x, raw) == Done(x) <==> Expressible(env, em, x)
  {
  }

  /** Only integers and texts can come back altered; other inexpressible items fail. */
  lemma AlteredKind(env: Env, em: Option<Names.EnumMap>, em': Option<Names.EnumMap>, x: Item, raw: seq<Byte>)
    requires EnvOk(env) && !Expressible(env, em, x)
    ensures var r := ItemBack(env, em, em', x, raw);
            r.Done? ==> (x.Integer? && r.value.Integer?) || (x.TextString? && r.value.TextString?)
  {
    if x.DateTime? || x.DateTimeExtended? {
      TimeBack(env, em, em', x, raw);
    }
  }

  /** The block of an integer or text reads as that integer or text. */
  lemma ReadWritten(n: Node, x: Item)
    requires WellFormed(n) && n.Leaf? && (x.Integer? || x.TextString?) && Blocks(n.tag, x) == [n]
    ensures IsValid(Render(n)) && Type(Render(n)) != STRUCTURE && ReadItem(Render(n)) == x
  {
    assert n == Blocks(n.tag, x)[0];
    ItemRoundTrip(n.tag, x, []);
    assert Render(n) + [] == Render(n);
  }

  /** A leaf comes back from JSON exactly when it is in the encoder's form and expressible. */
  lemma LeafIff(env: Env, em: Option<Names.EnumMap>, em': Option<Names.EnumMap>, n: Node)
    requires EnvOk(env) && WellFormed(n) && n.Leaf? && Agree(em, em')
    ensures IsValid(Render(n)) && Type(Render(n)) == n.typ
    ensures LeafBack(env, em, em', n) == Done([n]) <==> CanonicalLeaf(env, em, n)
  {
    ItemKind(n);
    Reblock(n);
    LeafItemBack(env, em, em', n);
    var x := ReadItem(Render(n));
    var r := ItemBack(env, em, em', x, n.value);
    if !Expressible(env, em, LeafItem(n)) && r.Done? {
      AlteredKind(env, em, em', x, n.value);
      if Blocks(n.tag, r.value) == [n] {
        ReadWritten(n, r.value);
      }
    }
  }

  // ----- structures through JSON -----

  ghost predicate Canonical(env: Env, n: Node)
    requires WellFormed(n)
    decreases n, 0
  {
    match n
    case Leaf(tag, _, _, _) =>
      ReadLeaf(n);
      CanonicalLeaf(env, EnumFor(env, tag), n)
    case Struct(_, children) => AllCanonical(env, children, 0)
  }

  /** Children in order; attribute values are named by the attribute in force. */
  ghost predicate AllCanonical(env: Env, ns: seq<Node>, attr: Word)
    requires AllWellFormed(ns)
    decreases ns, 1
  {
    ns == [] ||
    (var attr' := AttrAfter(env, attr, Render(ns[0]));
     CanonicalChild(env, ns[0], attr') && AllCanonical(env, ns[1..], attr'))
  }

  ghost predicate CanonicalChild(env: Env, n: Node, attr: Word)
    requires WellFormed(n)
    decreases n, 1
  {
    if IsAttributeScalar(Render(n)) then
      ReadBack(n, []);
      assert Render(n) + [] == Render(n);
      ReadLeaf(n);
      CanonicalLeaf(env, EnumFor(env, attr), n)
    else
      Canonical(env, n)
  }

  /** A child object and what it decodes to under the attribute tag `attr`. */
  function ChildBack(env: Env, t: TTLV, attr: Word): Result<seq<Node>>
    requires IsValid(t)
  {
    match ChildJson(env, t, attr)
    case None => Failed
    case Some(j) => FromJson(env, j, attr)
  }

  function TreeBack(env: Env, t: TTLV, attr: Word): Result<seq<Node>>
  {
    match ToJson(env, t)
    case None => Failed
    case Some(j) => FromJson(env, j, attr)
  }

  lemma EmIrrelevant(env: Env, em: Option<Names.EnumMap>, em': Option<Names.EnumMap>, typ: Byte, v: Json)
    requires typ != ENUMERATION && typ != INTEGER && KnownType(typ) && typ != STRUCTURE
    ensures ScalarFromJson(env, em, typ, v) == ScalarFromJson(env, em', typ, v)
  {
  }

  lemma FormatTypeNonempty(env: Env, typ: Byte)
    requires EnvOk(env)
    ensures Names.FormatType(typ, env.types) != []
  {
  }

  /** A scalar object decodes through its type and the enum of its tag. */
  lemma ScalarObject(env: Env, tag: Word, name: Text, typ: Byte, typeName: Text, v: Json, attr: Word)
    requires Names.ParseTag(name, Some(env.tags)) == Names.Ok(tag)
    requires typeName != [] && Names.ParseType(typeName, env.types) == Names.Type(typ)
    requires KnownType(typ) && typ != STRUCTURE
    ensures var enumTag := if tag == ATTRIBUTE_VALUE && attr != 0 then attr else tag;
            FromJson(env, JObj(name, typeName, v), attr) ==
              match ScalarFromJson(env, EnumFor(env, enumTag), typ, v)
              case Done(x) => Done(Blocks(tag, x))
              case Failed => Failed
              case Panics => Panics
  {
  }

  lemma AgreeFor(env: Env, a: nat, b: nat)
    requires EnvOk(env) && (a == b || a == 0)
    ensures Agree(EnumFor(env, a), EnumFor(env, b))
  {
  }

  lemma LeafTree(env: Env, n: Node, attr: Word)
    requires EnvOk(env) && WellFormed(n) && n.Leaf?
    requires attr == 0 || !IsAttributeScalar(Render(n))
    ensures TreeBack(env, Render(n), attr) == Done([n]) <==> Canonical(env, n)
  {
    ReadLeaf(n);
    var em := EnumFor(env, n.tag);
    Names.TagRoundTrip(n.tag, Some(env.tags));
    Names.TypeRoundTrip(n.typ, env.types);
    FormatTypeNonempty(env, n.typ);
    AgreeFor(env, n.tag, n.tag);
    LeafIff(env, em, em, n);
    var j := ScalarJson(env, em, Render(n));
    ItemKind(n);
    if j.Some? {
      ScalarObject(env, n.tag, Names.FormatTag(n.tag, Some(env.tags)), n.typ,
                   Names.FormatType(n.typ, env.types), j.value, attr);
      if n.tag == ATTRIBUTE_VALUE && attr != 0 {
        EmIrrelevant(env, EnumFor(env, attr), em, n.typ, j.value);
      }
    }
  }

  lemma AttributeChild(env: Env, n: Node, attr: Word)
    requires EnvOk(env) && WellFormed(n) && IsAttributeScalar(Render(n))
    ensures IsValid(Render(n)) && (ChildBack(env, Render(n), attr) == Done([n]) <==> CanonicalChild(env, n, attr))
  {
    ReadBack(n, []);
    assert Render(n) + [] == Render(n);
    ReadLeaf(n);
    var em, em' := EnumFor(env, attr), EnumFor(env, if attr != 0 then attr else n.tag);
    AgreeFor(env, attr, if attr != 0 then attr else n.tag);
    LeafIff(env, em, em', n);
    var j := ScalarJson(env, em, Render(n));
    ItemKind(n);
    if j.Some? {
      ScalarObject(env, ATTRIBUTE_VALUE, Str("AttributeValue"), n.typ,
                   if n.typ == ENUMERATION then Str("Enumeration") else Str("Integer"), j.value, attr);
    }
  }

  /** Bytes after a block do not change its JSON. */
  lemma ToJsonTrailing(env: Env, n: Node, s: seq<Byte>, attr: Word)
    requires WellFormed(n)
    ensures var t, t' := Render(n), Render(n) + s;
            && IsValid(t) && IsValid(t') && FullLen(t') == |t|
            && AttrAfter(env, attr, t') == AttrAfter(env, attr, t)
            && ChildJson(env, t', attr) == ChildJson(env, t, attr)
  {
    ReadBack(n, []);
    ReadBack(n, s);
    ParseRender(n, []);
    assert Render(n) + [] == Render(n);
    TrailingBytes(Render(n), s);
    if n.Leaf? {
      SameItem(Render(n), Render(n) + s);
    }
  }

  lemma SameItem(t: TTLV, t': TTLV)
    requires IsValid(t) && IsValid(t') && Type(t) == Type(t') != STRUCTURE
    requires ValueRaw(t) == ValueRaw(t') && Len(t) == Len(t')
    ensures ReadItem(t) == ReadItem(t')
  {
  }

  /** The type member of a leaf's object. */
  lemma LeafTypeName(env: Env, n: Node, attr: Word)
    requires WellFormed(n) && n.Leaf?
    ensures IsValid(Render(n))
    ensures var j := ChildJson(env, Render(n), attr);
            j.Some? ==> j.value.JObj? && j.value.typ ==
                        if !IsAttributeScalar(Render(n)) then Names.FormatType(n.typ, env.types)
                        else if n.typ == ENUMERATION then Str("Enumeration") else Str("Integer")
  {
    ReadLeaf(n);
  }

  lemma LeafShapeOfJson(env: Env, n: Node, attr: Word)
    requires EnvOk(env) && WellFormed(n) && n.Leaf?
    ensures IsValid(Render(n))
    ensures var j := ChildJson(env, Render(n), attr);
            j.Some? ==> j.value.JObj? && j.value.typ != []
                        && Names.ParseType(j.value.typ, env.types) == Names.Type(n.typ)
  {
    LeafTypeName(env, n, attr);
    ReadLeaf(n);
    Names.TypeRoundTrip(n.typ, env.types);
    FormatTypeNonempty(env, n.typ);
  }

  lemma ScalarOne(env: Env, j: Json, typ: Byte, attr: Word)
    requires j.JObj? && j.typ != [] && Names.ParseType(j.typ, env.types) == Names.Type(typ)
    requires KnownType(typ) && typ != STRUCTURE
    ensures var r := FromJson(env, j, attr); r.Done? ==> |r.value| == 1
  {
    var tag := Names.ParseTag(j.tag, Some(env.tags));
    if tag.Ok? {
      ScalarObject(env, tag.value, j.tag, typ, j.typ, j.value, attr);
      var enumTag := if tag.value == ATTRIBUTE_VALUE && attr != 0 then attr else tag.value;
      ItemOne(env, EnumFor(env, enumTag), typ, j.value, tag.value);
    }
  }

  lemma ItemOne(env: Env, em: Option<Names.EnumMap>, typ: Byte, v: Json, tag: Word)
    ensures var r := ScalarFromJson(env, em, typ, v); r.Done? ==> |Blocks(tag, r.value)| == 1
  {
  }

  lemma StructOne(env: Env, j: Json, attr: Word)
    requires j.JObj? && j.typ == []
    ensures var r := FromJson(env, j, attr); r.Done? ==> |r.value| == 1
  {
    var tag := Names.ParseTag(j.tag, Some(env.tags));
    if tag.Ok? {
      assert FromJson(env, j, attr) == StructFromJson(env, tag.value, j);
    }
  }

  lemma OneBlock(env: Env, n: Node, attr: Word, attr': Word)
    requires EnvOk(env) && WellFormed(n)
    requires IsValid(Render(n)) && ChildJson(env, Render(n), attr).Some?
    ensures var r := FromJson(env, ChildJson(env, Render(n), attr).value, attr');
            r.Done? ==> |r.value| == 1
  {
    var j := ChildJson(env, Render(n), attr).value;
    if n.Leaf? {
      LeafShapeOfJson(env, n, attr);
      ScalarOne(env, j, n.typ, attr');
    } else {
      StructJson(env, n, attr);
      StructOne(env, j, attr');
    }
  }

  /** The object of a structure. */
  lemma StructJson(env: Env, n: Node, attr: Word)
    requires WellFormed(n) && n.Struct?
    ensures IsValid(Render(n)) && !IsAttributeScalar(Render(n))
    ensures var js := ChildrenJson(env, RenderAll(n.children), 0);
            && ChildJson(env, Render(n), attr) == ToJson(env, Render(n))
            && ToJson(env, Render(n)) ==
                 if js.None? then None else Some(JObj(Names.FormatTag(n.tag, Some(env.tags)), [], JArr(js.value)))
  {
    ReadBack(n, []);
    ParseRender(n, []);
    assert Render(n) + [] == Render(n);
  }

  function ChildrenBack(env: Env, c: TTLV, attr: Word): Result<seq<Node>>
  {
    match ChildrenJson(env, c, attr)
    case None => Failed
    case Some(js) => ChildrenFromJson(env, js, attr)
  }

  /** JSON back to nodes for the first child, whose own name does not affect it. */
  lemma {:induction false} FirstIff(env: Env, n: Node, attr: Word)
    requires EnvOk(env) && WellFormed(n)
    ensures var attr' := AttrAfter(env, attr, Render(n));
            && IsValid(Render(n))
            && var j := ChildJson(env, Render(n), attr');
               (j.Some? && FromJson(env, j.value, attr) == Done([n])) <==> CanonicalChild(env, n, attr')
    decreases n, 1
  {
    var attr' := AttrAfter(env, attr, Render(n));
    ParseRender(n, []);
    assert Render(n) + [] == Render(n);
    if IsAttributeScalar(Render(n)) {
      AttributeChild(env, n, attr);
    } else {
      TreeIff(env, n, attr);
    }
  }

  lemma {:induction false} TreeIff(env: Env, n: Node, attr: Word)
    requires EnvOk(env) && WellFormed(n)
    requires attr == 0 || !IsAttributeScalar(Render(n))
    ensures TreeBack(env, Render(n), attr) == Done([n]) <==> Canonical(env, n)
    decreases n, 0
  {
    if n.Leaf? {
      LeafTree(env, n, attr);
    } else {
      StructTree(env, n, attr);
      ChildrenIff(env, n.children, 0);
    }
  }

  lemma StructTree(env: Env, n: Node, attr: Word)
    requires EnvOk(env) && WellFormed(n) && n.Struct?
    ensures TreeBack(env, Render(n), attr) ==
              match ChildrenBack(env, RenderAll(n.children), 0)
              case Done(ns) => Done([Struct(n.tag, ns)])
              case Failed => Failed
              case Panics => Panics
  {
    StructJson(env, n, attr);
    Names.TagRoundTrip(n.tag, Some(env.tags));
    var js := ChildrenJson(env, RenderAll(n.children), 0);
    if js.Some? {
      var j := JObj(Names.FormatTag(n.tag, Some(env.tags)), [], JArr(js.value));
      assert FromJson(env, j, attr) == StructFromJson(env, n.tag, j);
    }
  }

  /** Sending the first child and the others through JSON. */
  lemma ChildrenStep(env: Env, ns: seq<Node>, attr: Word)
    requires AllWellFormed(ns) && ns != []
    ensures var attr' := AttrAfter(env, attr, Render(ns[0]));
            && IsValid(Render(ns[0]))
            && var j, js := ChildJson(env, Render(ns[0]), attr'), ChildrenJson(env, RenderAll(ns[1..]), attr');
               ChildrenBack(env, RenderAll(ns), attr) ==
                 if j.None? || js.None? then Failed
                 else ChildrenFromJson(env, [j.value] + js.value, attr)
  {
    var n, rest := ns[0], RenderAll(ns[1..]);
    var attr' := AttrAfter(env, attr, Render(n));
    ToJsonTrailing(env, n, rest, attr);
    ToJsonTrailing(env, n, rest, attr');
    ConcatSlices(Render(n), rest);
  }

  /** Reading an array whose first object gives exactly `n`, or something else. */
  lemma ArrayStep(env: Env, j: Json, js: seq<Json>, attr: Word, n: Node, ns: seq<Node>)
    requires var r := FromJson(env, j, attr); r.Done? ==> |r.value| == 1
    ensures ChildrenFromJson(env, [j] + js, attr) == Done([n] + ns) <==>
            FromJson(env, j, attr) == Done([n]) &&
            ChildrenFromJson(env, js, AttrAfter(env, attr, Render(n))) == Done(ns)
  {
    ConcatSlices([j], js);
    RenderOne(n);
    var r := FromJson(env, j, attr);
    if r.Done? {
      var rest := ChildrenFromJson(env, js, AttrAfter(env, attr, RenderAll(r.value)));
      if rest.Done? {
        ConcatSlices(r.value, rest.value);
        ConcatSlices([n], ns);
      }
    }
  }

  lemma {:induction false} ChildrenIff(env: Env, ns: seq<Node>, attr: Word)
    requires EnvOk(env) && AllWellFormed(ns)
    ensures ChildrenBack(env, RenderAll(ns), attr) == Done(ns) <==> AllCanonical(env, ns, attr)
    decreases ns, 2
  {
    if ns == [] {
    } else {
      var attr' := AttrAfter(env, attr, Render(ns[0]));
      ChildrenStep(env, ns, attr);
      FirstIff(env, ns[0], attr);
      ChildrenIff(env, ns[1..], attr');
      HeadTail(ns);
      var j, js := ChildJson(env, Render(ns[0]), attr'), ChildrenJson(env, RenderAll(ns[1..]), attr');
      if j.Some? && js.Some? {
        OneBlock(env, ns[0], attr', attr);
        ArrayStep(env, j.value, js.value, attr, ns[0], ns[1..]);
      }
    }
  }

  // ----- equal bytes are equal trees -----

  lemma BlockShape(tag: Word, x: Item)
    requires Blocks(tag, x) != []
    ensures var m := Blocks(tag, x)[0];
            |Blocks(tag, x)| == 1 && m.Leaf? && m.tag == tag && PaddedShape(m.typ, |m.value|, |m.pad|)
  {
    if x.BigInt? {
      BigInteger.EncodeLength(x.n);
    }
  }

  predicate Copies(r: Result<seq<Node>>, n: Node)
  {
    r.Done? ==> |r.value| == 1 && Resembles(r.value[0], n)
  }

  lemma ScalarCopies(env: Env, n: Node, name: Text, typeName: Text, v: Json, attr: Word)
    requires WellFormed(n) && n.Leaf? && Names.ParseTag(name, Some(env.tags)) == Names.Ok(n.tag)
    requires typeName != [] && Names.ParseType(typeName, env.types) == Names.Type(n.typ)
    ensures Copies(FromJson(env, JObj(name, typeName, v), attr), n)
  {
    ScalarObject(env, n.tag, name, n.typ, typeName, v, attr);
    var em := EnumFor(env, if n.tag == ATTRIBUTE_VALUE && attr != 0 then attr else n.tag);
    ItemOne(env, em, n.typ, v, n.tag);
    var x := ScalarFromJson(env, em, n.typ, v);
    if x.Done? {
      BlockShape(n.tag, x.value);
    }
  }

  lemma LeafCopies(env: Env, n: Node, attr: Word)
    requires EnvOk(env) && WellFormed(n) && n.Leaf?
    ensures Copies(TreeBack(env, Render(n), attr), n)
  {
    ReadLeaf(n);
    Names.TagRoundTrip(n.tag, Some(env.tags));
    Names.TypeRoundTrip(n.typ, env.types);
    FormatTypeNonempty(env, n.typ);
    var j := ScalarJson(env, EnumFor(env, n.tag), Render(n));
    if j.Some? {
      ScalarCopies(env, n, Names.FormatTag(n.tag, Some(env.tags)), Names.FormatType(n.typ, env.types), j.value, attr);
    }
  }

  lemma AttributeCopies(env: Env, n: Node, attr: Word, attr': Word)
    requires EnvOk(env) && WellFormed(n) && IsAttributeScalar(Render(n)) && IsValid(Render(n))
    requires ChildJson(env, Render(n), attr).Some?
    ensures Copies(FromJson(env, ChildJson(env, Render(n), attr).value, attr'), n)
  {
    ReadBack(n, []);
    assert Render(n) + [] == Render(n);
    var j := ChildJson(env, Render(n), attr).value;
    ScalarCopies(env, n, j.tag, j.typ, j.value, attr');
  }

  /** Whatever a tree comes back as from JSON resembles it. */
  lemma {:induction false} TreeCopies(env: Env, n: Node, attr: Word)
    requires EnvOk(env) && WellFormed(n)
    ensures Copies(TreeBack(env, Render(n), attr), n)
    decreases n, 0
  {
    if n.Leaf? {
      LeafCopies(env, n, attr);
    } else {
      StructTree(env, n, attr);
      ChildrenCopy(env, n.children, 0, 0);
    }
  }

  lemma {:induction false} ChildCopies(env: Env, n: Node, attr: Word, attr': Word)
    requires EnvOk(env) && WellFormed(n) && IsValid(Render(n))
    requires ChildJson(env, Render(n), attr).Some?
    ensures Copies(FromJson(env, ChildJson(env, Render(n), attr).value, attr'), n)
    decreases n, 1
  {
    if IsAttributeScalar(Render(n)) {
      AttributeCopies(env, n, attr, attr');
    } else {
      TreeCopies(env, n, attr');
    }
  }

  lemma {:induction false} ChildrenCopy(env: Env, ns: seq<Node>, attr: Word, attr': Word)
    requires EnvOk(env) && AllWellFormed(ns)
    ensures var js := ChildrenJson(env, RenderAll(ns), attr);
            js.Some? ==> var r := ChildrenFromJson(env, js.value, attr');
                         r.Done? ==> AllResemble(r.value, ns)
    decreases ns, 2
  {
    if ns == [] {
    } else {
      var n, tail := ns[0], RenderAll(ns[1..]);
      var next := AttrAfter(env, attr, Render(n));
      ToJsonTrailing(env, n, tail, attr);
      ToJsonTrailing(env, n, tail, next);
      ConcatSlices(Render(n), tail);
      var j, js := ChildJson(env, Render(n), next), ChildrenJson(env, tail, next);
      if j.Some? && js.Some? {
        ChildCopies(env, n, next, attr');
        var first := FromJson(env, j.value, attr');
        if first.Done? {
          var after := AttrAfter(env, attr', RenderAll(first.value));
          ChildrenCopy(env, ns[1..], next, after);
          ArrayCopies(env, j.value, js.value, attr', ns);
        }
      }
    }
  }

  lemma ArrayCopies(env: Env, j: Json, js: seq<Json>, attr: Word, ns: seq<Node>)
    requires ns != [] && FromJson(env, j, attr).Done? && Copies(FromJson(env, j, attr), ns[0])
    requires var after := AttrAfter(env, attr, RenderAll(FromJson(env, j, attr).value));
             var rest := ChildrenFromJson(env, js, after);
             rest.Done? ==> AllResemble(rest.value, ns[1..])
    ensures var r := ChildrenFromJson(env, [j] + js, attr); r.Done? ==> AllResemble(r.value, ns)
  {
    ConcatSlices([j], js);
    var first := FromJson(env, j, attr).value;
    var rest := ChildrenFromJson(env, js, AttrAfter(env, attr, RenderAll(first)));
    if rest.Done? {
      ConcatSlices(first, rest.value);
    }
  }

  /** Valid TTLV sent through MarshalJSON and UnmarshalJSON comes back with the same bytes exactly
      when it is canonical; both sides name an AttributeValue by the same preceding AttributeName. */
  lemma JsonRoundTrip(env: Env, n: Node)
    requires EnvOk(env) && WellFormed(n)
    ensures BytesOf(TreeBack(env, Render(n), 0)) == Done(Render(n)) <==> Canonical(env, n)
  {
    TreeIff(env, n, 0);
    TreeCopies(env, n, 0);
    RenderOne(n);
    var r := TreeBack(env, Render(n), 0);
    if r.Done? {
      var m := r.value[0];
      assert r.value == [m];
      RenderOne(m);
      if Render(m) == Render(n) {
        RenderInjective(m, n);
      }
    }
  }

  /** Hex text of an extended date-time is not read as microseconds since the epoch: within the
      range that nanoseconds allow, the block written is off by the seconds from year 1 to 1970. */
  lemma HexExtendedTime(env: Env, em: Option<Names.EnumMap>, m: Int64)
    requires -9223372036854775 <= m <= 9223372036854775
    ensures var r := ScalarFromJson(env, em, DATE_TIME_EXTENDED, JStr(HexText(BigEndian(U64(m), 8))));
            r.Done? && r.value.DateTimeExtended? && Microseconds(r.value.ns) == m - 62_135_596_800_000_000
  {
    LongHex(m);
    var ns := Scalars.ZERO_TIME + m * 1000;
    MicrosecondsValue(ns);
    assert ns / 1000 == m - 62_135_596_800_000_000;
  }

  // ----- a small environment that meets the assumptions -----

  const SIGN_MASK: Names.EnumMap := Names.EnumMap(map[4 := Str("Sign")], map[Str("Sign") := 4], [4], true)

  const EPOCH: Text := Str("1970-01-01T00:00:00Z")

  const TAGS: Names.EnumMap :=
    Names.EnumMap(map[ATTRIBUTE_VALUE := Str("AttributeValue")], map[Str("AttributeValue") := ATTRIBUTE_VALUE], [], false)

  const TYPES: Names.EnumMap :=
    Names.EnumMap(map[2 := Str("Integer"), 5 := Str("Enumeration")],
                  map[Str("Integer") := 2, Str("Enumeration") := 5], [], false)

  /** One mask, the tag and types that attribute values need, and a single formattable time. */
  const SMALL: Env := Env(
    map[0x42002c := SIGN_MASK], TAGS, TYPES,
    (s: Text) => s,
    (s: Text) => s,
    (ns: int) => if ns == 0 then Some(EPOCH) else None,
    (s: Text) => if s == EPOCH then Some(0) else None)

  /** Text that starts with a letter other than a hex prefix is neither hex nor a numeral. */
  lemma LetterFirst(s: Text)
    requires |s| >= 2 && 0x41 <= s[0] <= 0x5A
    ensures !Hex.IsHex(s) && Names.ParseDecimalUint32(s).None? && Names.ParseDecimalInt32(s).None?
  {
    assert s[..2][0] == s[0];
  }

  lemma SignMaskOk()
    ensures EnumOk(SIGN_MASK)
  {
    var s := Str("Sign");
    LetterFirst(s);
    assert s == [0x53, 0x69, 0x67, 0x6E];
    assert Names.GoodPart(s);
  }

  lemma TagsOk()
    ensures Names.TagNames(TAGS)
    ensures Names.ParseTag(Str("AttributeValue"), Some(TAGS)) == Names.Ok(ATTRIBUTE_VALUE)
  {
    LetterFirst(Str("AttributeValue"));
  }

  lemma TypesOk()
    ensures Names.TagNames(TYPES)
    ensures Names.ParseType(Str("Integer"), TYPES) == Names.Type(INTEGER)
    ensures Names.ParseType(Str("Enumeration"), TYPES) == Names.Type(ENUMERATION)
    ensures forall v :: v in TYPES.names ==> TYPES.names[v] != []
  {
    var i, e := Str("Integer"), Str("Enumeration");
    assert |i| != |e|;
    LetterFirst(i);
    LetterFirst(e);
  }

  /** The assumptions of the round trip can be met. */
  lemma SmallEnvOk()
    ensures EnvOk(SMALL)
  {
    SignMaskOk();
    TagsOk();
    TypesOk();
    assert !Hex.IsHex(EPOCH) by { assert EPOCH[..2][0] == 0x31; }
  }
}
