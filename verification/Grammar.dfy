/** The TTLV grammar, independent of the byte-walking reader, and the reader's agreement with it. */
module Grammar {
  import opened Bytes
  import opened Wire

  /** Derivations: a leaf has a value segment and padding, a structure encloses blocks. */
  datatype Node =
    | Leaf(tag: nat, typ: Byte, value: seq<Byte>, pad: seq<Byte>)
    | Struct(tag: nat, children: seq<Node>)

  /** Tags the grammar admits: 0x42xxxx and 0x54xxxx. */
  predicate ValidTag(tag: nat)
  {
    0x42_0000 <= tag < 0x43_0000 || 0x54_0000 <= tag < 0x55_0000
  }

  predicate PaddedShape(typ: Byte, len: nat, pad: nat)
  {
    if ShortType(typ) then len == 4 && pad == 4
    else if LongType(typ) then len == 8 && pad == 0
    else if typ == BIG_INTEGER then len % 8 == 0 && pad == 0
    else StringType(typ) && pad < 8 && (len + pad) % 8 == 0
  }

  predicate LeafShape(typ: Byte, len: nat, pad: nat)
  {
    len < TWO32 && PaddedShape(typ, len, pad)
  }

  predicate WellFormed(n: Node)
    decreases n, 0
  {
    ValidTag(n.tag) &&
    match n
    case Leaf(_, typ, value, pad) => LeafShape(typ, |value|, |pad|)
    case Struct(_, children) => AllWellFormed(children) && |RenderAll(children)| < TWO32
  }

  predicate AllWellFormed(ns: seq<Node>)
    decreases ns, 1
  {
    ns == [] || (WellFormed(ns[0]) && AllWellFormed(ns[1..]))
  }

  function Header(tag: nat, typ: Byte, len: nat): (h: seq<Byte>)
    ensures |h| == HEADER
  {
    BigEndian(tag, 3) + [typ] + BigEndian(len, 4)
  }

  /** The bytes a derivation yields. */
  function Render(n: Node): (b: seq<Byte>)
    ensures |b| >= HEADER
    decreases n, 0
  {
    match n
    case Leaf(tag, typ, value, pad) => Header(tag, typ, |value|) + value + pad
    case Struct(tag, children) =>
      var body := RenderAll(children);
      Header(tag, STRUCTURE, |body|) + body
  }

  function RenderAll(ns: seq<Node>): seq<Byte>
    decreases ns, 1
  {
    if ns == [] then [] else Render(ns[0]) + RenderAll(ns[1..])
  }

  lemma {:induction false} RenderAllConcat(a: seq<Node>, b: seq<Node>)
    ensures RenderAll(a + b) == RenderAll(a) + RenderAll(b)
  {
    if a == [] {
      assert a + b == b;
    } else {
      assert (a + b)[1..] == a[1..] + b;
      RenderAllConcat(a[1..], b);
    }
  }

  lemma {:induction false} AllWellFormedConcat(a: seq<Node>, b: seq<Node>)
    ensures AllWellFormed(a + b) <==> AllWellFormed(a) && AllWellFormed(b)
  {
    if a == [] {
      assert a + b == b;
    } else {
      assert (a + b)[1..] == a[1..] + b;
      AllWellFormedConcat(a[1..], b);
    }
  }

  /** Leaves are padded to eight-byte words. */
  predicate Aligned(n: Node)
    decreases n, 0
  {
    match n
    case Leaf(_, _, value, pad) => (|value| + |pad|) % 8 == 0
    case Struct(_, children) => AllAligned(children)
  }

  predicate AllAligned(ns: seq<Node>)
    decreases ns, 1
  {
    ns == [] || (Aligned(ns[0]) && AllAligned(ns[1..]))
  }

  /** Then every block is a whole number of words, so enclosing structures need no padding. */
  lemma {:induction false} RenderAligned(n: Node)
    requires Aligned(n)
    ensures |Render(n)| % 8 == 0
    decreases n, 0
  {
    if n.Struct? {
      RenderAllAligned(n.children);
    }
  }

  lemma {:induction false} RenderAllAligned(ns: seq<Node>)
    requires AllAligned(ns)
    ensures |RenderAll(ns)| % 8 == 0
    decreases ns, 1
  {
    if ns == [] {
    } else {
      RenderAligned(ns[0]);
      RenderAllAligned(ns[1..]);
    }
  }

  lemma {:induction false} WellFormedAligned(n: Node)
    requires WellFormed(n)
    ensures Aligned(n)
    decreases n, 0
  {
    if n.Struct? {
      AllWellFormedAligned(n.children);
    }
  }

  lemma {:induction false} AllWellFormedAligned(ns: seq<Node>)
    requires AllWellFormed(ns)
    ensures AllAligned(ns)
    decreases ns, 1
  {
    if ns == [] {
    } else {
      WellFormedAligned(ns[0]);
      AllWellFormedAligned(ns[1..]);
    }
  }

  lemma {:induction false} AllAlignedConcat(a: seq<Node>, b: seq<Node>)
    ensures AllAligned(a + b) <==> AllAligned(a) && AllAligned(b)
  {
    if a == [] {
      assert a + b == b;
    } else {
      assert (a + b)[1..] == a[1..] + b;
      AllAlignedConcat(a[1..], b);
    }
  }

  // ----- reading a rendered block -----

  /** The header fields of any block, whatever follows it. */
  lemma HeaderFields(tag: nat, typ: Byte, len: nat, rest: seq<Byte>)
    requires tag < 0x100_0000 && len < TWO32
    ensures var t := Header(tag, typ, len) + rest;
            Tag(t) == tag && Type(t) == typ && Len(t) == len && t[0] == tag / 0x1_0000
            && t[HEADER..] == rest
  {
    var t := Header(tag, typ, len) + rest;
    PowWords();
    assert t[..3] == BigEndian(tag, 3);
    assert t[4..8] == BigEndian(len, 4);
    UnsignedBigEndian(tag, 3);
    UnsignedBigEndian(len, 4);
    TopByte(tag);
  }

  lemma TopByte(tag: nat)
    requires tag < 0x100_0000
    ensures BigEndian(tag, 3)[0] == tag / 0x1_0000
  {
    assert BigEndian(tag, 3) == BigEndian(tag / 256, 2) + [tag % 256];
    assert BigEndian(tag / 256, 2) == BigEndian(tag / 256 / 256, 1) + [tag / 256 % 256];
    assert BigEndian(tag / 256 / 256, 1) == BigEndian(tag / 256 / 256 / 256, 0) + [tag / 256 / 256 % 256];
  }

  lemma BodyFields(tag: nat, typ: Byte, body: seq<Byte>, rest: seq<Byte>)
    requires tag < 0x100_0000 && |body| < TWO32
    ensures var t := Header(tag, typ, |body|) + body + rest;
            Tag(t) == tag && Type(t) == typ && Len(t) == |body| && ValueRaw(t) == body
            && t[0] == tag / 0x1_0000
  {
    var t := Header(tag, typ, |body|) + body + rest;
    assert t == Header(tag, typ, |body|) + (body + rest);
    HeaderFields(tag, typ, |body|, body + rest);
    assert t[HEADER..HEADER + |body|] == body;
  }

  /** The padded length the reader computes is the length of the block. */
  lemma PaddedLength(len: nat, pad: nat)
    requires pad < 8 && (len + pad) % 8 == 0
    ensures var l := len + HEADER; (if l % 8 > 0 then l + (8 - l % 8) else l) == l + pad
  {
  }

  lemma LeafReadBack(n: Node, s: seq<Byte>)
    requires WellFormed(n) && n.Leaf?
    ensures var t := Render(n) + s;
            && Tag(t) == n.tag && Type(t) == n.typ && ValueRaw(t) == n.value && Len(t) == |n.value|
            && ValidHeader(t).Pass? && FullLen(t) == |Render(n)|
  {
    var t := Render(n) + s;
    ConcatAssociative(Header(n.tag, n.typ, |n.value|) + n.value, n.pad, s);
    BodyFields(n.tag, n.typ, n.value, n.pad + s);
    if StringType(n.typ) {
      PaddedLength(|n.value|, |n.pad|);
    }
  }

  lemma StructReadBack(n: Node, s: seq<Byte>)
    requires WellFormed(n) && n.Struct?
    ensures var t := Render(n) + s;
            && Tag(t) == n.tag && Type(t) == STRUCTURE && ValueRaw(t) == RenderAll(n.children)
            && Len(t) == |ValueRaw(t)| && ValidHeader(t).Pass? && FullLen(t) == |Render(n)|
  {
    BodyFields(n.tag, STRUCTURE, RenderAll(n.children), s);
  }

  /** Every field of a rendered block reads back, whatever bytes follow. */
  lemma ReadBack(n: Node, s: seq<Byte>)
    requires WellFormed(n)
    ensures var t := Render(n) + s;
            && Tag(t) == n.tag
            && Type(t) == (if n.Leaf? then n.typ else STRUCTURE)
            && ValueRaw(t) == (if n.Leaf? then n.value else RenderAll(n.children))
            && Len(t) == |ValueRaw(t)|
            && ValidHeader(t).Pass?
            && FullLen(t) == |Render(n)|
  {
    if n.Leaf? {
      LeafReadBack(n, s);
    } else {
      StructReadBack(n, s);
    }
  }

  // ----- validity is the grammar -----

  /** The children of a valid value segment, and the block itself, as derivations. */
  function Parse(t: TTLV): Node
    requires IsValid(t)
    decreases |t|, 0
  {
    if Type(t) == STRUCTURE then
      Struct(Tag(t), ParseAll(ValueRaw(t)))
    else
      Leaf(Tag(t), Type(t), ValueRaw(t), t[HEADER + Len(t)..FullLen(t)])
  }

  function ParseAll(inner: TTLV): seq<Node>
    requires ChildrenValidity(inner).Pass?
    decreases |inner|, 1
  {
    if inner == [] then [] else [Parse(inner)] + ParseAll(inner[FullLen(inner)..])
  }

  /** Rendered derivations are valid and parse back, whatever bytes follow. */
  lemma {:induction false} ParseRender(n: Node, s: seq<Byte>)
    requires WellFormed(n)
    ensures IsValid(Render(n) + s) && Parse(Render(n) + s) == n
    decreases n, 0
  {
    ReadBack(n, s);
    if n.Struct? {
      ParseRenderAll(n.children);
    } else {
      var t := Render(n) + s;
      assert t[HEADER + Len(t)..FullLen(t)] == n.pad;
    }
  }

  lemma {:induction false} ParseRenderAll(ns: seq<Node>)
    requires AllWellFormed(ns)
    ensures ChildrenValidity(RenderAll(ns)).Pass? && ParseAll(RenderAll(ns)) == ns
    decreases ns, 1
  {
    if ns == [] {
    } else {
      var b, rest := Render(ns[0]), RenderAll(ns[1..]);
      ReadBack(ns[0], rest);
      ParseRender(ns[0], rest);
      ParseRenderAll(ns[1..]);
      assert (b + rest)[FullLen(b + rest)..] == rest;
    }
  }

  /** A valid block is exactly the bytes of its derivation. */
  lemma {:induction false} RenderParse(t: TTLV)
    requires IsValid(t)
    ensures WellFormed(Parse(t)) && Render(Parse(t)) == t[..FullLen(t)]
    decreases |t|, 0
  {
    HeaderBytes(t);
    if Type(t) == STRUCTURE {
      RenderParseAll(ValueRaw(t));
    } else {
      LeafBytes(t);
    }
  }

  lemma {:induction false} RenderParseAll(inner: TTLV)
    requires ChildrenValidity(inner).Pass?
    ensures AllWellFormed(ParseAll(inner)) && RenderAll(ParseAll(inner)) == inner
    decreases |inner|, 1
  {
    if inner == [] {
    } else {
      RenderParse(inner);
      RenderParseAll(inner[FullLen(inner)..]);
      var ns := ParseAll(inner);
      assert ns[0] == Parse(inner) && ns[1..] == ParseAll(inner[FullLen(inner)..]);
    }
  }

  lemma HeaderBytes(t: TTLV)
    requires ValidHeader(t).Pass?
    ensures ValidTag(Tag(t)) && Len(t) < TWO32
    ensures t[..HEADER] == Header(Tag(t), Type(t), Len(t))
  {
    PowWords();
    UnsignedBound(t[..3]);
    UnsignedBound(t[4..8]);
    BigEndianUnsigned(t[..3]);
    BigEndianUnsigned(t[4..8]);
    TopByte(Tag(t));
    assert t[..HEADER] == t[..3] + [t[3]] + t[4..8];
  }

  lemma StringLength(len: nat)
    ensures var l := len + HEADER;
            var full := if l % 8 > 0 then l + (8 - l % 8) else l;
            0 <= full - l < 8 && (len + (full - l)) % 8 == 0
  {
  }

  lemma LeafLengths(t: TTLV)
    requires IsValid(t) && Type(t) != STRUCTURE && Len(t) < TWO32
    ensures Len(t) == |ValueRaw(t)| && HEADER + Len(t) <= FullLen(t) <= |t|
    ensures LeafShape(Type(t), Len(t), FullLen(t) - HEADER - Len(t))
  {
    if StringType(Type(t)) {
      StringLength(Len(t));
    }
  }

  lemma LeafBytes(t: TTLV)
    requires IsValid(t) && Type(t) != STRUCTURE && Len(t) < TWO32
    ensures Len(t) == |ValueRaw(t)| && HEADER + Len(t) <= FullLen(t) <= |t|
    ensures LeafShape(Type(t), Len(t), FullLen(t) - HEADER - Len(t))
    ensures t[..FullLen(t)] == t[..HEADER] + ValueRaw(t) + t[HEADER + Len(t)..FullLen(t)]
  {
    LeafLengths(t);
    SplitThree(t, HEADER, HEADER + Len(t), FullLen(t));
  }

  /** Valid accepts a byte string exactly when some derivation yields a prefix of it; the
      derivation is unique, spans FullLen bytes, and is a whole number of eight-byte words. */
  lemma ValidIffGrammar(t: TTLV)
    ensures IsValid(t) <==> exists n :: WellFormed(n) && Render(n) <= t
    ensures forall n :: WellFormed(n) && Render(n) <= t ==> n == Parse(t) && |Render(n)| == FullLen(t)
    ensures IsValid(t) ==> FullLen(t) % 8 == 0
  {
    if IsValid(t) {
      RenderParse(t);
      WellFormedAligned(Parse(t));
      RenderAligned(Parse(t));
    }
    forall n | WellFormed(n) && Render(n) <= t
      ensures IsValid(t) && n == Parse(t) && |Render(n)| == FullLen(t)
    {
      var s := t[|Render(n)|..];
      assert t == Render(n) + s;
      ParseRender(n, s);
      ReadBack(n, s);
    }
  }

  /** Bytes after a complete block change nothing the reader reports about it. */
  lemma TrailingBytes(t: TTLV, s: seq<Byte>)
    requires |t| >= HEADER
    requires ValidHeader(t).Pass? ==> |t| >= FullLen(t)
    ensures Tag(t + s) == Tag(t) && Type(t + s) == Type(t) && Len(t + s) == Len(t)
    ensures Validity(t + s) == Validity(t)
    ensures ValidHeader(t).Pass? ==>
      FullLen(t + s) == FullLen(t) && ValueRaw(t + s) == ValueRaw(t) && ValueStructure(t + s) == ValueStructure(t)
  {
    assert (t + s)[..3] == t[..3];
    assert (t + s)[4..8] == t[4..8];
    if ValidHeader(t).Pass? {
      assert (t + s)[HEADER..HEADER + Len(t)] == t[HEADER..HEADER + Len(t)];
    }
  }

  /** Each scalar type of a valid block has the bytes its accessor reads. */
  lemma ScalarWidth(t: TTLV)
    requires IsValid(t)
    ensures ShortType(Type(t)) ==> |ValueRaw(t)| == 4
    ensures LongType(Type(t)) ==> |ValueRaw(t)| == 8
    ensures |ValueRaw(t)| == Len(t) && |t| >= FullLen(t) >= HEADER + Len(t)
  {
  }

  // ----- equal bytes -----

  /** The same tree of tags over properly padded leaves, of any length. */
  predicate Resembles(m: Node, n: Node)
    decreases n, 0
  {
    m.tag == n.tag &&
    match n
    case Leaf(_, _, _, _) => m.Leaf? && PaddedShape(m.typ, |m.value|, |m.pad|)
    case Struct(_, children) => m.Struct? && AllResemble(m.children, children)
  }

  predicate AllResemble(ms: seq<Node>, ns: seq<Node>)
    decreases ns, 1
  {
    |ms| == |ns| && (ns == [] || (Resembles(ms[0], ns[0]) && AllResemble(ms[1..], ns[1..])))
  }

  lemma {:induction false} SmallWellFormed(m: Node, n: Node)
    requires Resembles(m, n) && WellFormed(n) && |Render(m)| < TWO32
    ensures WellFormed(m)
    decreases n, 0
  {
    if n.Struct? {
      AllSmallWellFormed(m.children, n.children);
    }
  }

  lemma {:induction false} AllSmallWellFormed(ms: seq<Node>, ns: seq<Node>)
    requires AllResemble(ms, ns) && AllWellFormed(ns) && |RenderAll(ms)| < TWO32
    ensures AllWellFormed(ms)
    decreases ns, 1
  {
    if ns == [] {
    } else {
      SmallWellFormed(ms[0], ns[0]);
      AllSmallWellFormed(ms[1..], ns[1..]);
    }
  }

  lemma WrappedLength()
    ensures BigEndian(TWO32, 4) == BigEndian(0, 4)
  {
    assert BigEndian(TWO32, 4) == BigEndian(0x100_0000, 3) + [0];
    assert BigEndian(0x100_0000, 3) == BigEndian(0x1_0000, 2) + [0];
    assert BigEndian(0x1_0000, 2) == BigEndian(0x100, 1) + [0];
    assert BigEndian(0x100, 1) == BigEndian(1, 0) + [0];
    assert BigEndian(0, 4) == BigEndian(0, 3) + [0];
    assert BigEndian(0, 3) == BigEndian(0, 2) + [0];
    assert BigEndian(0, 2) == BigEndian(0, 1) + [0];
    assert BigEndian(0, 1) == BigEndian(0, 0) + [0];
  }

  lemma LeafFits(m: Node, n: Node)
    requires Resembles(m, n) && WellFormed(n) && n.Leaf? && Render(m) == Render(n)
    ensures |m.value| < TWO32
  {
    assert Render(m)[4..8] == BigEndian(|m.value|, 4);
    assert Render(n)[4..8] == BigEndian(|n.value|, 4);
    assert |m.value| + |m.pad| == |n.value| + |n.pad|;
    WrappedLength();
    PowWords();
    UnsignedBigEndian(|n.value|, 4);
    UnsignedBigEndian(0, 4);
    assert |m.value| <= TWO32;
  }

  lemma SameBodies(m: Node, n: Node)
    requires m.Struct? && n.Struct? && Render(m) == Render(n)
    ensures RenderAll(m.children) == RenderAll(n.children)
  {
    assert Render(m)[HEADER..] == RenderAll(m.children);
    assert Render(n)[HEADER..] == RenderAll(n.children);
  }

  /** Equal bytes then mean equal trees. */
  lemma RenderInjective(m: Node, n: Node)
    requires Resembles(m, n) && WellFormed(n) && Render(m) == Render(n)
    ensures m == n
  {
    if n.Leaf? {
      LeafFits(m, n);
    } else {
      SameBodies(m, n);
      AllSmallWellFormed(m.children, n.children);
    }
    ParseRender(m, []);
    ParseRender(n, []);
  }

  // ----- any bytes -----

  /** The valid blocks at the front of a byte string, and what is left: nothing or an invalid rest. */
  function Front(b: TTLV): seq<Node>
  {
    if !IsValid(b) then [] else [Parse(b)] + Front(b[FullLen(b)..])
  }

  function Rest(b: TTLV): TTLV
  {
    if !IsValid(b) then b else Rest(b[FullLen(b)..])
  }

  lemma {:induction false} FrontRest(b: TTLV)
    ensures AllWellFormed(Front(b)) && !IsValid(Rest(b)) && b == RenderAll(Front(b)) + Rest(b)
    ensures Rest(b) == [] <==> ChildrenValidity(b).Pass?
    decreases |b|
  {
    if IsValid(b) {
      var tail := b[FullLen(b)..];
      RenderParse(b);
      FrontRest(tail);
      ConcatSlices([Parse(b)], Front(tail));
      ConcatAssociative(Render(Parse(b)), RenderAll(Front(tail)), Rest(tail));
      assert b == b[..FullLen(b)] + tail;
    }
  }

  lemma FrontStep(n: Node, rest: TTLV)
    requires WellFormed(n)
    ensures Front(Render(n) + rest) == [n] + Front(rest) && Rest(Render(n) + rest) == Rest(rest)
  {
    ReadBack(n, rest);
    ParseRender(n, rest);
    ConcatSlices(Render(n), rest);
  }

  /** There is only one way to take a byte string apart like this. */
  lemma {:induction false} FrontUnique(ns: seq<Node>, junk: TTLV)
    requires AllWellFormed(ns) && !IsValid(junk)
    ensures Front(RenderAll(ns) + junk) == ns && Rest(RenderAll(ns) + junk) == junk
  {
    if ns == [] {
      assert RenderAll(ns) + junk == junk;
    } else {
      FrontUnique(ns[1..], junk);
      ConcatAssociative(Render(ns[0]), RenderAll(ns[1..]), junk);
      FrontStep(ns[0], RenderAll(ns[1..]) + junk);
      HeadTail(ns);
    }
  }

  // ----- why bytes are not valid -----

  /** Some padding completes a leaf of this type and length. */
  predicate Fitting(typ: Byte, len: nat)
  {
    exists pad: nat :: pad < 8 && PaddedShape(typ, len, pad)
  }

  lemma FittingExact(typ: Byte, len: nat)
    ensures Fitting(typ, len) <==>
            (ShortType(typ) && len == 4) || (LongType(typ) && len == 8) ||
            (typ == BIG_INTEGER && len % 8 == 0) || StringType(typ)
  {
    assert ShortType(typ) && len == 4 ==> PaddedShape(typ, len, 4);
    assert LongType(typ) && len == 8 ==> PaddedShape(typ, len, 0);
    assert typ == BIG_INTEGER && len % 8 == 0 ==> PaddedShape(typ, len, 0);
    if StringType(typ) {
      assert PaddedShape(typ, len, (8 - len % 8) % 8);
    }
  }

  /** The error of a header is the first of: too short, a tag outside the two ranges, a type that is
      none, a length that no leaf of the type has. */
  lemma HeaderErrors(t: TTLV)
    ensures var tagged := |t| >= HEADER && ValidTag(Tag(t));
            var typed := tagged && KnownType(Type(t));
            && (ValidHeader(t) == Fail(ErrHeaderTruncated) <==> |t| < HEADER)
            && (ValidHeader(t) == Fail(ErrInvalidTag) <==> |t| >= HEADER && !tagged)
            && (ValidHeader(t) == Fail(ErrInvalidType) <==> tagged && !typed)
            && (ValidHeader(t) == Fail(ErrInvalidLen) <==>
                typed && Type(t) != STRUCTURE && !Fitting(Type(t), Len(t)))
            && ValidHeader(t) != Fail(ErrValueTruncated)
  {
    FittingExact(Type(t), Len(t));
    if |t| >= HEADER {
      FirstByteOfTag(t);
    }
  }

  lemma FirstByteOfTag(t: TTLV)
    requires |t| >= HEADER
    ensures ValidTag(Tag(t)) <==> t[0] == 0x42 || t[0] == 0x54
  {
    PowWords();
    UnsignedBound(t[..3]);
    BigEndianUnsigned(t[..3]);
    TopByte(Tag(t));
  }

  lemma {:induction false} FirstInvalid(b: TTLV)
    ensures ChildrenValidity(b) == if Rest(b) == [] then Pass else Validity(Rest(b))
    decreases |b|
  {
    if !IsValid(b) {
    } else {
      FirstInvalid(b[FullLen(b)..]);
    }
  }

  /** The error of a block is that of its header, or that value bytes are missing, or that of the
      first enclosed block that is not valid. */
  lemma ValidityErrors(t: TTLV)
    ensures Validity(t) ==
            if ValidHeader(t).Fail? then ValidHeader(t)
            else if |t| < FullLen(t) then Fail(ErrValueTruncated)
            else if Type(t) == STRUCTURE && Rest(ValueRaw(t)) != [] then Validity(Rest(ValueRaw(t)))
            else Pass
  {
    FirstInvalid(ValueRaw(t));
  }

  // ----- walking a structure -----

  /** The blocks met by starting at `n` and following Next until nil. */
  function Walk(n: Option<TTLV>): seq<TTLV>
    decreases if n.None? then 0 else |n.value| + 1
  {
    if n.None? then []
    else if !IsValid(n.value) then [n.value]
    else [n.value[..FullLen(n.value)]] + Walk(Next(n.value))
  }

  function RenderEach(ns: seq<Node>): (bs: seq<TTLV>)
    ensures |bs| == |ns| && forall i :: 0 <= i < |ns| ==> bs[i] == Render(ns[i])
  {
    seq(|ns|, i requires 0 <= i < |ns| => Render(ns[i]))
  }

  lemma RenderEachStep(ns: seq<Node>)
    requires ns != []
    ensures RenderEach(ns) == [Render(ns[0])] + RenderEach(ns[1..])
  {
  }

  lemma NextBlock(n: Node, rest: seq<Byte>)
    requires WellFormed(n)
    ensures IsValid(Render(n) + rest)
    ensures Next(Render(n) + rest) == if rest == [] then None else Some(rest)
  {
    ReadBack(n, rest);
    ParseRender(n, rest);
    assert (Render(n) + rest)[|Render(n)|..] == rest;
  }

  lemma {:induction false} WalkBlocks(ns: seq<Node>)
    requires AllWellFormed(ns) && ns != []
    ensures Walk(Some(RenderAll(ns))) == RenderEach(ns)
    ensures Flatten(RenderEach(ns)) == RenderAll(ns)
  {
    var rest := RenderAll(ns[1..]);
    var b := Render(ns[0]) + rest;
    NextBlock(ns[0], rest);
    ReadBack(ns[0], rest);
    assert b[..FullLen(b)] == Render(ns[0]);
    RenderEachStep(ns);
    if ns[1..] == [] {
    } else {
      WalkBlocks(ns[1..]);
    }
  }

  /** ValueStructure followed by Next visits the enclosed blocks in order; they fill the value
      segment, every step is on a valid block, and nil appears exactly at the end. */
  lemma WalkStructure(t: TTLV)
    requires IsValid(t) && Type(t) == STRUCTURE
    ensures var bs := Walk(ValueStructure(t));
            && bs == RenderEach(Parse(t).children)
            && Flatten(bs) == ValueRaw(t)
            && forall i :: 0 <= i < |bs| ==> IsValid(bs[i])
  {
    RenderParse(t);
    var ns := Parse(t).children;
    RenderParseAll(ValueRaw(t));
    if ns != [] {
      WalkBlocks(ns);
      forall i | 0 <= i < |ns|
        ensures IsValid(Render(ns[i]))
      {
        ChildWellFormed(ns, i);
        ParseRender(ns[i], []);
        assert Render(ns[i]) + [] == Render(ns[i]);
      }
    }
  }

  lemma {:induction false} ChildWellFormed(ns: seq<Node>, i: nat)
    requires AllWellFormed(ns) && i < |ns|
    ensures WellFormed(ns[i])
  {
    if i == 0 {
    } else {
      ChildWellFormed(ns[1..], i - 1);
    }
  }
}
