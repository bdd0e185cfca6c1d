/** Concrete inputs on which a round trip one might expect fails; the exact conditions are in the
    modules imported here. */
module Counterexamples {
  import opened Bytes
  import opened Wire
  import opened Grammar
  import opened Items
  import opened EncodeBuffer
  import BigInteger
  import Bits
  import Framing
  import Hex
  import Json
  import Names
  import Registry
  import Scalars
  import Schema
  import Trees
  import Unmarshaling
  import StructRoundTrip

  const TAG: Word := 0x420001

  /** "0x0000000001" is accepted for a 32-bit value and read as 0. */
  lemma LongHexText()
    ensures var b: seq<Byte> := [0, 0, 0, 0, 1];
            Hex.Parse(Hex.PREFIX + Hex.Encode(b), 4) == Hex.Bytes(b) && Hex.DecodeUint32(b) == 0
  {
    var b: seq<Byte> := [0, 0, 0, 0, 1];
    var s := Hex.PREFIX + Hex.Encode(b);
    Hex.DecodeEncode(b);
    assert s[..2] == Hex.PREFIX && s[2..] == Hex.Encode(b);
    assert b[1..] == [0, 0, 0, 1] && b[1..][1..] == [0, 0, 1];
    assert Hex.Significant(b) <= 4;
    assert b[..4] == Zeros(4) + [];
    Hex.LeadingZeros(4, []);
  }

  /** Minus one without an enum formats with a sign that hex parsing rejects. */
  lemma NegativeMask()
    ensures Names.ParseMask(Names.MaskText(-1, None), None) != Names.Ok(-1)
  {
    Names.MaskRoundTrip(-1, None);
  }

  /** Zero under a mask without a name for it formats as empty text, which does not parse. */
  lemma ZeroMask()
    ensures var em := Names.EnumMap(map[4 := Str("Sign")], map[Str("Sign") := 4], [4], true);
            Names.MaskText(0, Some(em)) == [] && Names.ParseMask([], Some(em)).Err?
  {
    var em := Names.EnumMap(map[4 := Str("Sign")], map[Str("Sign") := 4], [4], true);
    Bits.AndZero(4);
    assert Names.MaskParts([4], 0, em) == [];
    assert |Str("Sign")| == 4;
  }

  /** An empty byte string is written, and read back as nil, which is not written. */
  lemma EmptyByteString(s: seq<Byte>)
    ensures Blocks(TAG, ByteString(Some([]))) != [] && Blocks(TAG, ByteString(None)) == []
    ensures var t := Render(Blocks(TAG, ByteString(Some([])))[0]) + s;
            IsValid(t) && Type(t) != STRUCTURE && ReadItem(t) == ByteString(None)
  {
    ItemRoundTrip(TAG, ByteString(Some([])), s);
  }

  /** The microsecond count 9223372036854776 wraps to a time before 1970. */
  lemma ExtendedPastRange(s: seq<Byte>)
    ensures var x := DateTimeExtended(9223372036854776 * 1000);
            var t := Render(Blocks(TAG, x)[0]) + s;
            IsValid(t) && Type(t) != STRUCTURE && ReadItem(t) == DateTimeExtended(-9223372036854775616)
  {
    PastRangeWraps();
    ItemRoundTrip(TAG, DateTimeExtended(9223372036854776 * 1000), s);
  }

  lemma PastRangeWraps()
    ensures OnWire(DateTimeExtended(9223372036854776 * 1000)) == DateTimeExtended(-9223372036854775616)
  {
    assert 9223372036854776 * 1000 / 1000 * 1000 == 9223372036854776000;
  }

  /** Two values under one name: the name of the first leads to the second. */
  lemma ReusedName(name: Text, normalize: Text -> Text)
    ensures var m := Registry.RegisterAll([Registry.Entry(1, name), Registry.Entry(2, name)], normalize);
            1 in m.valuesToName && m.Value(m.valuesToName[1]) == Some(2)
  {
    var log := [Registry.Entry(1, name), Registry.Entry(2, name)];
    assert log[..1] == [Registry.Entry(1, name)];
    assert [Registry.Entry(1, name)][..0] == [];
  }

  // ----- trees -----

  const AES: Names.EnumMap := Names.EnumMap(map[1 := Str("AES")], map[Str("AES") := 1], [1], false)

  lemma AesParses()
    ensures Names.ParseEnum(Str("AES"), Some(AES)) == Names.Ok(1)
  {
    var s := Str("AES");
    assert |s| == 3 && s[0] == 0x41;
    assert !Hex.IsHex(s) by { assert s[..2][0] == 0x41; }
  }

  /** Text that names a value of its tag's enum comes back as an Enumeration. */
  lemma TreeWithText(s: seq<Byte>)
    ensures var v := Trees.Value(TAG, Trees.Single(TextString(Str("AES"))));
            var m := Trees.Marshal(map[TAG := AES], v, 0);
            && m.err.None? && m.nodes != [] && IsValid(RenderAll(m.nodes) + s)
            && Trees.Read(RenderAll(m.nodes) + s) == Trees.Value(TAG, Trees.Single(Enumeration(1)))
  {
    AesParses();
    var v := Trees.Value(TAG, Trees.Single(TextString(Str("AES"))));
    assert Scalars.Choose(map[TAG := AES], TAG, Scalars.NO_FLAGS, Scalars.StringV(Str("AES")))
           == Scalars.Write(Enumeration(1));
    Trees.TreeRoundTrip(map[TAG := AES], v, 0, s);
  }

  // ----- structs -----

  function OneField(typ: Schema.GoType): Schema.GoType
  {
    Schema.TStruct([Schema.Field(TAG, Scalars.NO_FLAGS, typ)])
  }

  function OneValue(s: Scalars.Scalar): Schema.GoVal
  {
    Schema.Record([Schema.Plain(s)])
  }

  lemma OneFieldTyped(typ: Schema.GoType, s: Scalars.Scalar)
    requires Schema.ScalarHasType(typ, s)
    ensures Schema.HasType(OneField(typ), OneValue(s)) && Schema.InfoOk(OneField(typ))
    ensures StructRoundTrip.Routable(OneField(typ), OneValue(s))
  {
    var fields := OneField(typ).fields;
    assert !Schema.Conflict(fields);
    Unmarshaling.RouteOwn(fields, 0);
    assert Schema.FieldsHaveType(fields, [Schema.Plain(s)]);
  }

  /** What a struct of one field writes. */
  lemma OneFieldBlocks(enums: Scalars.Enums, typ: Schema.GoType, s: Scalars.Scalar, x: Item)
    requires Schema.ScalarHasType(typ, s) && Fits(x) && x != ByteString(None)
    requires Scalars.Choose(enums, TAG, Scalars.NO_FLAGS, s) == Scalars.Write(x)
    requires |RenderAll(Blocks(TAG, x))| < TWO32
    ensures Schema.HasType(OneField(typ), OneValue(s)) && AllWellFormed(Blocks(TAG, x))
    ensures Schema.MarshalVal(enums, TAG, Scalars.NO_FLAGS, OneField(typ), OneValue(s))
            == Trees.Marshaled([Struct(TAG, Blocks(TAG, x))], None)
    ensures WellFormed(Struct(TAG, Blocks(TAG, x)))
  {
    OneFieldTyped(typ, s);
    BlocksWellFormed(TAG, x);
    var fields, vs := OneField(typ).fields, [Schema.Plain(s)];
    assert fields[1..] == [] && vs[1..] == [];
    assert Blocks(TAG, x) + [] == Blocks(TAG, x);
    var m := Schema.MarshalFields(enums, fields, vs);
    assert m == Trees.Then(Schema.MarshalVal(enums, TAG, Scalars.NO_FLAGS, typ, vs[0]),
                            Schema.MarshalFields(enums, fields[1..], vs[1..]));
    assert m == Trees.Marshaled(Blocks(TAG, x), None);
  }

  /** A struct with the int -2^31-1 is marshaled without error and comes back different. */
  lemma StructWithSmallInt(strict: bool, s: seq<Byte>)
    ensures var typ, v := OneField(Schema.TInt(Scalars.Int)), OneValue(Scalars.IntV(Scalars.Int, -TWO31 - 1));
            && Schema.HasType(typ, v)
            && var m := Schema.MarshalVal(map[], TAG, Scalars.NO_FLAGS, typ, v);
               m.err.None? && Unmarshaling.Unmarshal(strict, typ, Schema.Zero(typ), RenderAll(m.nodes) + s)
                              != Unmarshaling.Done(v)
  {
    var n := Scalars.IntV(Scalars.Int, -TWO31 - 1);
    var typ, v := OneField(Schema.TInt(Scalars.Int)), OneValue(n);
    SmallInt();
    OneFieldTyped(Schema.TInt(Scalars.Int), n);
    ShortBlock(TAG, Integer(TWO31 - 1));
    OneFieldBlocks(map[], Schema.TInt(Scalars.Int), n, Integer(TWO31 - 1));
    StructRoundTrip.RoundTrip(strict, map[], TAG, typ, v, s);
    assert !StructRoundTrip.Recoverable(map[], TAG, Scalars.NO_FLAGS, Schema.TInt(Scalars.Int), v.vals[0]);
  }

  lemma ShortBlock(tag: nat, x: Item)
    requires x.Integer? || x.Enumeration?
    ensures |RenderAll(Blocks(tag, x))| == 16
  {
    RenderOne(Blocks(tag, x)[0]);
  }

  /** A struct with a string that names a value of its tag's enum is marshaled without error, and
      decoding it is a type mismatch. */
  lemma TextUnderEnum(strict: bool)
    ensures var typ, v := OneField(Schema.TString), OneValue(Scalars.StringV(Str("AES")));
            && Schema.HasType(typ, v)
            && var m := Schema.MarshalVal(map[TAG := AES], TAG, Scalars.NO_FLAGS, typ, v);
               m.err.None? && Unmarshaling.Unmarshal(strict, typ, Schema.Zero(typ), RenderAll(m.nodes))
                              == Unmarshaling.Failed(Unmarshaling.TypeMismatch)
  {
    var x := Enumeration(1);
    var typ := OneField(Schema.TString);
    AesParses();
    ShortBlock(TAG, x);
    OneFieldTyped(Schema.TString, Scalars.StringV(Str("AES")));
    OneFieldBlocks(map[TAG := AES], Schema.TString, Scalars.StringV(Str("AES")), x);
    var n := Struct(TAG, Blocks(TAG, x));
    RenderOne(n);
    Unmarshaling.Verdicts(strict, typ, Schema.Zero(typ), Render(n));
    MismatchChecked(strict, x);
  }

  lemma MismatchChecked(strict: bool, x: Item)
    requires x == Enumeration(1) && WellFormed(Struct(TAG, Blocks(TAG, x)))
    ensures Unmarshaling.CheckBytes(strict, OneField(Schema.TString), Render(Struct(TAG, Blocks(TAG, x))))
            == Unmarshaling.Reject(Unmarshaling.TypeMismatch)
  {
    var leaf := Blocks(TAG, x)[0];
    OneFieldTyped(Schema.TString, Scalars.StringV([]));
    Unmarshaling.RouteOwn(OneField(Schema.TString).fields, 0);
    ReadWord(TAG, ENUMERATION, 1, []);
    ReadBack(leaf, []);
    assert Render(leaf) + [] == Render(leaf);
    OneChild(strict, Schema.TString, leaf);
  }

  /** A struct of one field around one block ends as its block does. */
  lemma OneChild(strict: bool, typ: Schema.GoType, n: Node)
    requires WellFormed(n) && n.tag == TAG && WellFormed(Struct(TAG, [n]))
    requires Schema.InfoOk(OneField(typ)) && Unmarshaling.Route(OneField(typ).fields, TAG) == Some(0)
    ensures Unmarshaling.CheckBytes(strict, OneField(typ), Render(Struct(TAG, [n])))
            == Unmarshaling.CheckBytes(strict, typ, Render(n))
  {
    var fields := OneField(typ).fields;
    var outer := Struct(TAG, [n]);
    ReadBack(outer, []);
    ReadBack(n, []);
    assert Render(outer) + [] == Render(outer) && Render(n) + [] == Render(n);
    RenderOne(n);
    Unmarshaling.CheckFirst(strict, fields, n, []);
    assert Unmarshaling.CheckBytes(strict, OneField(typ), Render(outer))
           == Unmarshaling.CheckBlocks(strict, fields, Some(Render(n)));
  }

  const ANY_INT: Schema.GoType := Schema.TInt(Scalars.Int)
  const ANY: Scalars.Flags := Scalars.NO_FLAGS.(any := true)
  const TWO_ANY: seq<Schema.Field> := [Schema.Field(TAG, ANY, ANY_INT), Schema.Field(TAG + 1, ANY, ANY_INT)]

  lemma IntAccepted(strict: bool, tag: Word, u: Word)
    requires ValidTag(tag) && u < TWO31
    ensures var n := WordNode(tag, INTEGER, u);
            WellFormed(n) && Tag(Render(n)) == tag && Unmarshaling.CheckBytes(strict, ANY_INT, Render(n)).Accept?
  {
    var n := WordNode(tag, INTEGER, u);
    ReadWord(tag, INTEGER, u, []);
    ReadBack(n, []);
    assert Render(n) + [] == Render(n);
  }

  lemma FirstTakesAll()
    ensures Unmarshaling.Route(TWO_ANY, TAG) == Some(0) && Unmarshaling.Route(TWO_ANY, TAG + 1) == Some(0)
  {
    Unmarshaling.RouteUnique(TWO_ANY, TAG, 0);
    Unmarshaling.RouteUnique(TWO_ANY, TAG + 1, 0);
  }

  const ONE_TWO: seq<Schema.GoVal> :=
    [Schema.Plain(Scalars.IntV(Scalars.Int, 1)), Schema.Plain(Scalars.IntV(Scalars.Int, 2))]

  const ONE_TWO_BLOCKS: seq<Node> := [WordNode(TAG, INTEGER, 1), WordNode(TAG + 1, INTEGER, 2)]

  /** A struct of two `any` fields holding 1 and 2 is marshaled as two blocks. */
  lemma TwoAnyMarshaled()
    ensures Schema.FieldsHaveType(TWO_ANY, ONE_TWO) && Schema.InfoOk(Schema.TStruct(TWO_ANY))
    ensures Schema.MarshalVal(map[], TAG, Scalars.NO_FLAGS, Schema.TStruct(TWO_ANY), Schema.Record(ONE_TWO))
            == Trees.Marshaled([Struct(TAG, ONE_TWO_BLOCKS)], None)
  {
    assert !Schema.Conflict(TWO_ANY);
    IntMarshaled(TAG, 1);
    IntMarshaled(TAG + 1, 2);
    TwoFields(TWO_ANY[0], TWO_ANY[1], ONE_TWO[0], ONE_TWO[1]);
    assert Schema.MarshalFields(map[], TWO_ANY, ONE_TWO).nodes == ONE_TWO_BLOCKS;
  }

  lemma IntMarshaled(tag: Word, u: Word)
    requires 0 < u < TWO31 && tag != 0
    ensures Schema.MarshalVal(map[], tag, ANY, ANY_INT, Schema.Plain(Scalars.IntV(Scalars.Int, u)))
            == Trees.Marshaled([WordNode(tag, INTEGER, u)], None)
  {
  }

  lemma TwoFields(f: Schema.Field, g: Schema.Field, v: Schema.GoVal, w: Schema.GoVal)
    requires Schema.HasType(f.typ, v) && Schema.HasType(g.typ, w)
    ensures Schema.FieldsHaveType([f, g], [v, w])
    ensures Schema.MarshalFields(map[], [f, g], [v, w]) ==
            Trees.Then(Schema.MarshalVal(map[], f.tag, f.flags, f.typ, v),
                        Schema.MarshalVal(map[], g.tag, g.flags, g.typ, w))
  {
    var m := Schema.MarshalVal(map[], g.tag, g.flags, g.typ, w);
    assert [f, g][1..] == [g] && [v, w][1..] == [w] && [g][1..] == [] && [w][1..] == [];
    assert m.nodes + [] == m.nodes;
    assert Schema.MarshalFields(map[], [g], [w]) == m;
  }

  lemma TwoAnyWellFormed(strict: bool)
    ensures AllWellFormed(ONE_TWO_BLOCKS) && WellFormed(Struct(TAG, ONE_TWO_BLOCKS))
    ensures Unmarshaling.CheckChildren(strict, TWO_ANY, ONE_TWO_BLOCKS).Accept?
    ensures Unmarshaling.Routed(TWO_ANY, ONE_TWO_BLOCKS, 1) == []
  {
    var a, b := WordNode(TAG, INTEGER, 1), WordNode(TAG + 1, INTEGER, 2);
    IntAccepted(strict, TAG, 1);
    IntAccepted(strict, TAG + 1, 2);
    FirstTakesAll();
    BothAccepted(strict, TWO_ANY, a, b);
    SecondUnused(TWO_ANY, a, b);
    assert ONE_TWO_BLOCKS[1..] == [b] && [b][1..] == [];
    assert AllWellFormed([b]);
    assert RenderAll(ONE_TWO_BLOCKS) == Render(a) + (Render(b) + RenderAll([]));
  }

  /** Decoding it, the first field takes both blocks and the second stays zero. */
  lemma SecondAnyField(strict: bool)
    ensures Schema.FieldsHaveType(TWO_ANY, ONE_TWO)
    ensures var typ := Schema.TStruct(TWO_ANY);
            var m := Schema.MarshalVal(map[], TAG, Scalars.NO_FLAGS, typ, Schema.Record(ONE_TWO));
            && m.err.None?
            && var r := Unmarshaling.Unmarshal(strict, typ, Schema.Zero(typ), RenderAll(m.nodes));
               r.Done? && r.v.Record? && |r.v.vals| == 2 && r.v.vals[1] == Schema.Zero(ANY_INT)
  {
    var typ, n := Schema.TStruct(TWO_ANY), Struct(TAG, ONE_TWO_BLOCKS);
    var init := Schema.Zero(typ).vals;
    assert Schema.HasType(typ, Schema.Zero(typ));
    TwoAnyMarshaled();
    TwoAnyWellFormed(strict);
    RenderOne(n);
    ReadBack(n, []);
    assert Render(n) + [] == Render(n);
    assert ValueStructure(Render(n)) == Unmarshaling.AsNext(RenderAll(ONE_TWO_BLOCKS));
    Unmarshaling.StructUnmarshal(strict, TWO_ANY, init, Render(n));
    SecondStaysZero(strict, init);
  }

  lemma SecondStaysZero(strict: bool, init: seq<Schema.GoVal>)
    requires Schema.FieldsHaveType(TWO_ANY, init) && init[1] == Schema.Zero(ANY_INT)
    ensures var r := Unmarshaling.UnmarshalChildren(strict, TWO_ANY, init, Unmarshaling.AsNext(RenderAll(ONE_TWO_BLOCKS)));
            r.Done? && |r.v.vals| == 2 && r.v.vals[1] == Schema.Zero(ANY_INT)
  {
    var ns := ONE_TWO_BLOCKS;
    TwoAnyWellFormed(strict);
    Unmarshaling.ValidVerdict(strict, TWO_ANY, ns);
    Unmarshaling.BlockVerdicts(strict, TWO_ANY, init, Unmarshaling.AsNext(RenderAll(ns)));
    var r := Unmarshaling.UnmarshalChildren(strict, TWO_ANY, init, Unmarshaling.AsNext(RenderAll(ns)));
    Unmarshaling.Dispatch(strict, TWO_ANY, init, ns, r.v.vals);
  }

  lemma SecondUnused(fields: seq<Schema.Field>, a: Node, b: Node)
    requires Unmarshaling.Route(fields, a.tag) == Some(0) && Unmarshaling.Route(fields, b.tag) == Some(0)
    ensures Unmarshaling.Routed(fields, [a, b], 1) == []
  {
    Unmarshaling.UnroutedChild(fields, [a, b], 1);
    assert [a, b][1..] == [b];
    Unmarshaling.UnroutedChild(fields, [b], 1);
  }

  lemma BothAccepted(strict: bool, fields: seq<Schema.Field>, a: Node, b: Node)
    requires Unmarshaling.CheckChild(strict, fields, Render(a)).Accept?
    requires Unmarshaling.CheckChild(strict, fields, Render(b)).Accept?
    ensures Unmarshaling.CheckChildren(strict, fields, [a, b]).Accept?
  {
    assert [a, b][1..] == [b] && [b][1..] == [];
    assert Unmarshaling.CheckChildren(strict, fields, [b]).Accept?;
  }

  /** The int -2^31-1 is encoded, as the Integer 2^31-1. */
  lemma SmallInt()
    ensures Scalars.Choose(map[], TAG, Scalars.NO_FLAGS, Scalars.IntV(Scalars.Int, -TWO31 - 1))
            == Scalars.Write(Integer(TWO31 - 1))
  {
    assert (-TWO31 - 1) % TWO32 == TWO31 - 1;
  }

  /** A ByteString decoded into a bool, or through a pointer to one, panics. */
  lemma ByteStringIntoBool(strict: bool)
    ensures var t := Render(PaddedNode(TAG, BYTE_STRING, [1]));
            && IsValid(t)
            && Unmarshaling.Unmarshal(strict, Schema.TBool, Schema.Zero(Schema.TBool), t) == Unmarshaling.Panics
            && Unmarshaling.Unmarshal(strict, Schema.TPtr(Schema.TBool), Schema.Ptr(None), t) == Unmarshaling.Panics
  {
    ReadPadded(TAG, BYTE_STRING, [1], []);
    var t := Render(PaddedNode(TAG, BYTE_STRING, [1]));
    assert t + [] == t;
    Unmarshaling.PanicsExactly(strict, Schema.TBool, Schema.Zero(Schema.TBool), t);
    Unmarshaling.PanicsExactly(strict, Schema.TPtr(Schema.TBool), Schema.Ptr(None), t);
  }

  lemma StructureAround(b: TTLV)
    requires 0 < |b| < TWO32
    ensures var t := Header(TAG, STRUCTURE, |b|) + b;
            && Type(t) == STRUCTURE && Len(t) == |b| && ValueRaw(t) == b
            && ValidHeader(t).Pass? && FullLen(t) == HEADER + |b| == |t|
            && Framing.NextMessage(t) == Framing.Message(t)
  {
    var t := Header(TAG, STRUCTURE, |b|) + b;
    BodyFields(TAG, STRUCTURE, b, []);
    assert t + [] == t;
    Framing.TrailingHeader(t[..HEADER], t[HEADER..]);
    assert t[..HEADER] + t[HEADER..] == t && t[..|t|] == t;
  }

  const ZERO_CHILD: TTLV := Header(TAG, STRUCTURE, 8) + Zeros(8)

  /** A structure around eight zero bytes is not valid, but is framed as a message and decodes. */
  lemma InvalidMessage()
    ensures !IsValid(ZERO_CHILD) && Framing.NextMessage(ZERO_CHILD) == Framing.Message(ZERO_CHILD)
    ensures Unmarshaling.Unmarshal(false, Schema.TStruct([]), Schema.Record([]), ZERO_CHILD)
            == Unmarshaling.Done(Schema.Record([]))
  {
    var t := ZERO_CHILD;
    StructureAround(Zeros(8));
    assert ValidHeader(Zeros(8)).Fail?;
    assert ChildrenValidity(Zeros(8)).Fail?;
    assert !Schema.Conflict([]);
    Unmarshaling.StructUnmarshal(false, [], [], t);
    Unmarshaling.LastChild(false, [], [], Zeros(8));
  }

  const SHORT_CHILD: TTLV := Header(TAG, INTEGER, 2) + Zeros(2)
  const AROUND_SHORT: TTLV := Header(TAG, STRUCTURE, 10) + SHORT_CHILD

  lemma ShortChildRead()
    ensures Tag(SHORT_CHILD) == TAG && Type(SHORT_CHILD) == INTEGER && |ValueRaw(SHORT_CHILD)| == 2
    ensures !IsValid(SHORT_CHILD) && |SHORT_CHILD| == 10
  {
    HeaderFields(TAG, INTEGER, 2, Zeros(2));
  }

  /** A structure around an Integer of two bytes is not valid, but is framed as a message, and decoding
      it into a struct with an int field panics. */
  lemma PanickingMessage(strict: bool)
    ensures !IsValid(AROUND_SHORT) && Framing.NextMessage(AROUND_SHORT) == Framing.Message(AROUND_SHORT)
    ensures var typ := OneField(ANY_INT);
            Unmarshaling.Unmarshal(strict, typ, Schema.Zero(typ), AROUND_SHORT) == Unmarshaling.Panics
  {
    var t := AROUND_SHORT;
    ShortChildRead();
    StructureAround(SHORT_CHILD);
    assert ChildrenValidity(SHORT_CHILD).Fail?;
    OneFieldTyped(ANY_INT, Scalars.IntV(Scalars.Int, 0));
    OneJunkChild(strict, ANY_INT, t, SHORT_CHILD);
    Unmarshaling.Verdicts(strict, OneField(ANY_INT), Schema.Zero(OneField(ANY_INT)), t);
  }

  /** A struct of one field around an invalid block ends as that block does. */
  lemma OneJunkChild(strict: bool, typ: Schema.GoType, t: TTLV, junk: TTLV)
    requires Type(t) == STRUCTURE && Len(t) > 0 && ValueRaw(t) == junk && Tag(junk) == TAG && !IsValid(junk)
    requires Schema.InfoOk(OneField(typ))
    ensures Unmarshaling.CheckBytes(strict, OneField(typ), t) == Unmarshaling.CheckBytes(strict, typ, junk)
  {
    var fields := OneField(typ).fields;
    Unmarshaling.RouteOwn(fields, 0);
    assert Unmarshaling.CheckBytes(strict, OneField(typ), t) == Unmarshaling.CheckBlocks(strict, fields, Some(junk));
  }

  // ----- JSON -----

  lemma NotCanonical(env: Json.Env, n: Node)
    requires Json.EnvOk(env) && WellFormed(n) && n.Leaf? && !Json.WireCanonical(n)
    ensures Json.BytesOf(Json.TreeBack(env, Render(n), 0)) != Json.Done(Render(n))
  {
    Json.JsonRoundTrip(env, n);
  }

  /** A Boolean segment holding 2 does not survive JSON. */
  lemma BooleanTwo()
    ensures var n := Leaf(TAG, BOOLEAN, Zeros(7) + [2], []);
            WellFormed(n) && Json.BytesOf(Json.TreeBack(Json.SMALL, Render(n), 0)) != Json.Done(Render(n))
  {
    var n := Leaf(TAG, BOOLEAN, Zeros(7) + [2], []);
    assert n.value[7] == 2 && Json.FlagBytes(0)[7] == 0 && Json.FlagBytes(1)[7] == 1;
    Json.SmallEnvOk();
    NotCanonical(Json.SMALL, n);
  }

  lemma WideNumber(env: Json.Env, value: seq<Byte>)
    requires Json.EnvOk(env) && |value| % 8 == 0 && |BigInteger.Unpad(value)| + 8 <= |value| < TWO32
    ensures var n := Leaf(TAG, BIG_INTEGER, value, []);
            WellFormed(n) && Json.BytesOf(Json.TreeBack(env, Render(n), 0)) != Json.Done(Render(n))
  {
    NotCanonical(env, Leaf(TAG, BIG_INTEGER, value, []));
  }

  /** Nor does a zero BigInteger of two words. */
  lemma WideZero()
    ensures var n := Leaf(TAG, BIG_INTEGER, Zeros(16), []);
            WellFormed(n) && Json.BytesOf(Json.TreeBack(Json.SMALL, Render(n), 0)) != Json.Done(Render(n))
  {
    SuperfluousWord();
    Json.SmallEnvOk();
    WideNumber(Json.SMALL, Zeros(16));
  }

  lemma SuperfluousWord()
    ensures |BigInteger.Unpad(Zeros(16))| <= 1
  {
    BigInteger.SignExtend(0, 15, Zeros(1));
    assert Zeros(16) == Repeat(0, 15) + Zeros(1);
    BigInteger.UnpadShortest(Zeros(16), Zeros(1));
  }
}
