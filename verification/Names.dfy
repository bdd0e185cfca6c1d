/** Names of tags, enumeration values and mask bits: formatting and parsing. */
module Names {
  import opened Bytes
  import opened Bits
  import Hex

  /** The EnumMap interface: what Name, Value, Values and Bitmask answer. */
  datatype EnumMap = EnumMap(names: map<Word, Text>, lookup: map<Text, Word>, values: seq<Word>, bitmask: bool)

  datatype Error = ErrInvalidHexString | ErrUnregisteredEnumName

  datatype Parsed<+T> = Ok(value: T) | Err(error: Error)

  const BAR: Byte := 0x7C
  const SPACE: Byte := 0x20

  // ----- decimal numerals -----

  /** A number in decimal, without leading zeros. */
  function Numeral(n: nat): Text
  {
    if n < 10 then [0x30 + n] else Numeral(n / 10) + [0x30 + n % 10]
  }

  predicate IsDecimal(s: Text)
  {
    s != [] && forall i :: 0 <= i < |s| ==> 0x30 <= s[i] <= 0x39
  }

  function Decimal(s: Text): nat
    requires forall i :: 0 <= i < |s| ==> 0x30 <= s[i] <= 0x39
  {
    if s == [] then 0 else 10 * Decimal(s[..|s| - 1]) + (s[|s| - 1] - 0x30)
  }

  /** strconv.ParseUint(s, 10, 32) */
  function ParseDecimalUint32(s: Text): Option<Word>
  {
    if IsDecimal(s) && Decimal(s) < TWO32 then Some(Decimal(s)) else None
  }

  /** strconv.ParseInt(s, 10, 32) */
  function ParseDecimalInt32(s: Text): Option<int>
  {
    var signed := s != [] && (s[0] == 0x2B || s[0] == 0x2D);
    var digits := if signed then s[1..] else s;
    if !IsDecimal(digits) then None
    else
      var n := if signed && s[0] == 0x2D then -(Decimal(digits) as int) else Decimal(digits);
      if -TWO31 <= n < TWO31 then Some(n) else None
  }

  lemma {:induction false} NumeralValue(n: nat)
    ensures IsDecimal(Numeral(n)) && Decimal(Numeral(n)) == n
    ensures n > 0 ==> Numeral(n)[0] != 0x30
  {
    if n < 10 {
      assert [0x30 + n][..0] == [];
    } else {
      NumeralValue(n / 10);
      ConcatSlices(Numeral(n / 10), [0x30 + n % 10]);
    }
  }

  lemma {:induction false} ZeroDigit(s: Text)
    requires forall i :: 0 <= i < |s| ==> 0x30 <= s[i] <= 0x39
    ensures Decimal([0x30] + s) == Decimal(s)
  {
    var z: Text := [0x30] + s;
    if s == [] {
      assert z[..0] == [];
    } else {
      ZeroDigit(s[..|s| - 1]);
      assert z[..|z| - 1] == [0x30] + s[..|s| - 1];
    }
  }

  lemma {:induction false} PaddedNumeral(k: nat, n: nat)
    ensures IsDecimal(Repeat(0x30, k) + Numeral(n)) && Decimal(Repeat(0x30, k) + Numeral(n)) == n
  {
    if k == 0 {
      NumeralValue(n);
      assert Repeat(0x30, 0) + Numeral(n) == Numeral(n);
    } else {
      var s := Repeat(0x30, k - 1) + Numeral(n);
      PaddedNumeral(k - 1, n);
      AddZero(s);
      OneMore(k, Numeral(n));
    }
  }

  lemma AddZero(s: Text)
    requires IsDecimal(s)
    ensures IsDecimal([0x30] + s) && Decimal([0x30] + s) == Decimal(s)
  {
    ZeroDigit(s);
  }

  lemma OneMore(k: nat, t: Text)
    requires k > 0
    ensures Repeat(0x30, k) + t == [0x30] + (Repeat(0x30, k - 1) + t)
  {
  }

  /** Text without a leading zero is the numeral of its number. */
  lemma {:induction false} PlainNumeral(s: Text)
    requires IsDecimal(s) && (|s| == 1 || s[0] != 0x30)
    ensures s == Numeral(Decimal(s)) && (s[0] != 0x30 ==> Decimal(s) > 0)
  {
    if |s| == 1 {
      assert s[..0] == [];
      assert s == [s[0]];
    } else {
      var front := s[..|s| - 1];
      PlainNumeral(front);
      FrontLast(s);
    }
  }

  lemma {:induction false} DecimalIsPadded(s: Text) returns (k: nat)
    requires IsDecimal(s)
    ensures s == Repeat(0x30, k) + Numeral(Decimal(s))
  {
    if |s| == 1 || s[0] != 0x30 {
      PlainNumeral(s);
      k := 0;
      assert Repeat(0x30, 0) + s == s;
    } else {
      var rest := s[1..];
      HeadTail(s);
      ZeroDigit(rest);
      var j := DecimalIsPadded(rest);
      k := j + 1;
      OneMore(k, Numeral(Decimal(rest)));
    }
  }

  /** The text is a numeral, possibly with leading zeros. */
  ghost predicate Spells(s: Text, n: nat)
  {
    exists k: nat :: s == Repeat(0x30, k) + Numeral(n)
  }

  lemma SpellsExact(s: Text, n: nat)
    ensures Spells(s, n) <==> IsDecimal(s) && Decimal(s) == n
  {
    if k: nat :| s == Repeat(0x30, k) + Numeral(n) {
      PaddedNumeral(k, n);
    }
    if IsDecimal(s) && Decimal(s) == n {
      var k := DecimalIsPadded(s);
    }
  }

  /** Decimal parsing takes exactly the numerals in range. */
  lemma ParseUintExact(s: Text, n: Word)
    ensures ParseDecimalUint32(s) == Some(n) <==> Spells(s, n)
  {
    SpellsExact(s, n);
  }

  lemma ParseSignedExact(s: Text, n: int)
    requires -TWO31 <= n < TWO31
    ensures ParseDecimalInt32(s) == Some(n) <==>
            (n >= 0 && Spells(s, n)) || (s != [] && s[0] == 0x2B && n >= 0 && Spells(s[1..], n)) ||
            (s != [] && s[0] == 0x2D && n <= 0 && Spells(s[1..], -n))
  {
    if n >= 0 {
      SpellsExact(s, n);
    }
    if s != [] {
      SpellsExact(s[1..], if n >= 0 then n else -n);
    }
  }

  // ----- single values -----

  function ParseHexOrName(s: Text, maxLen: nat, em: Option<EnumMap>): Parsed<Word>
  {
    match Hex.Parse(s, maxLen)
    case Invalid => Err(ErrInvalidHexString)
    case Bytes(b) => Ok(Hex.DecodeUint32(b))
    case NotHex =>
      if em.Some? && s in em.value.lookup then Ok(em.value.lookup[s]) else Err(ErrUnregisteredEnumName)
  }

  function FormatName(v: Word, width: nat, em: Option<EnumMap>): Text
  {
    if em.Some? && v in em.value.names then em.value.names[v] else Hex.Format(v, width)
  }

  function FormatTag(v: Word, em: Option<EnumMap>): Text
  {
    FormatName(v, 6, em)
  }

  function ParseTag(s: Text, em: Option<EnumMap>): Parsed<Word>
  {
    ParseHexOrName(s, 3, em)
  }

  function FormatEnum(v: Word, em: Option<EnumMap>): Text
  {
    FormatName(v, 8, em)
  }

  function ParseEnum(s: Text, em: Option<EnumMap>): Parsed<Word>
  {
    var d := ParseDecimalUint32(s);
    if d.Some? then Ok(d.value) else ParseHexOrName(s, 4, em)
  }

  function FormatType(b: Byte, em: EnumMap): Text
  {
    FormatName(b, 2, Some(em))
  }

  /** A parsed type; the source panics on hex text without digits. */
  datatype ParsedType = Type(typ: Byte) | BadType | NoDigits

  function ParseType(s: Text, em: EnumMap): ParsedType
  {
    match Hex.Parse(s, 1)
    case Invalid => BadType
    case Bytes(b) => if b == [] then NoDigits else Type(b[0])
    case NotHex => if s in em.lookup then Type(em.lookup[s] % 256) else BadType
  }

  lemma TypeRoundTrip(b: Byte, em: EnumMap)
    requires TagNames(em)
    ensures ParseType(FormatType(b, em), em) == Type(b)
  {
    PowWords();
    assert Pow256(1) == 256;
    Hex.FormatParse(b, 1);
    assert BigEndian(b, 1) == BigEndian(b / 256, 0) + [b % 256];
  }

  /** Every registered name leads back to its value and cannot be taken for hex text. */
  ghost predicate TagNames(em: EnumMap)
  {
    forall v :: v in em.names ==>
      em.names[v] in em.lookup && em.lookup[em.names[v]] == v && !Hex.IsHex(em.names[v])
  }

  /** Nor for a decimal numeral, as enumeration values are parsed. */
  ghost predicate EnumNames(em: EnumMap)
  {
    TagNames(em) && forall v :: v in em.names ==> ParseDecimalUint32(em.names[v]).None?
  }

  lemma HexIsNotDecimal(v: nat, w: nat)
    ensures ParseDecimalUint32(Hex.Format(v, w)).None?
    ensures ParseDecimalInt32(Hex.Format(v, w)).None?
  {
    var s := Hex.Format(v, w);
    assert s[0] == 0x30 && s[1] == 0x78;
  }

  /** Tags survive formatting and parsing. */
  lemma TagRoundTrip(v: Word, em: Option<EnumMap>)
    requires em.Some? ==> TagNames(em.value)
    requires v < 0x100_0000
    ensures ParseTag(FormatTag(v, em), em) == Ok(v)
  {
    PowWords();
    Hex.FormatParse(v, 3);
  }

  /** Enumeration values survive formatting and parsing, registered or not. */
  lemma EnumRoundTrip(v: Word, em: Option<EnumMap>)
    requires em.Some? ==> EnumNames(em.value)
    ensures ParseEnum(FormatEnum(v, em), em) == Ok(v)
  {
    PowWords();
    Hex.FormatParse(v, 4);
    HexIsNotDecimal(v, 8);
  }

  /** Hex text is accepted wherever its number fits the type, and is an error elsewhere; the number is
      then read from the first bytes. */
  lemma HexBounds(s: Text, b: seq<Byte>, em: Option<EnumMap>)
    requires |s| >= 2 && s[..2] == Hex.PREFIX && Hex.Spells(s[2..], b)
    ensures ParseTag(s, em) == if Unsigned(b) < Pow256(3) then Ok(Hex.DecodeUint32(b)) else Err(ErrInvalidHexString)
    ensures ParseEnum(s, em) == if Unsigned(b) < Pow256(4) then Ok(Hex.DecodeUint32(b)) else Err(ErrInvalidHexString)
  {
    assert s[..2][0] == 0x30 && s[..2][1] == 0x78;
    HexBound(s, b, 3, em);
    HexBound(s, b, 4, em);
  }

  lemma HexBound(s: Text, b: seq<Byte>, maxLen: nat, em: Option<EnumMap>)
    requires |s| >= 2 && s[..2] == Hex.PREFIX && Hex.Spells(s[2..], b) && maxLen > 0
    ensures ParseHexOrName(s, maxLen, em) ==
            if Unsigned(b) < Pow256(maxLen) then Ok(Hex.DecodeUint32(b)) else Err(ErrInvalidHexString)
  {
    Hex.ParseExact(s, maxLen, b);
    Hex.DecodeExact(s[2..], b);
  }

  /** Text that starts as hex but is no hex value is an error of its own, never a name. */
  lemma BadHex(s: Text, em: Option<EnumMap>)
    requires |s| >= 2 && s[..2] == Hex.PREFIX && forall b :: !Hex.Spells(s[2..], b)
    ensures ParseTag(s, em) == Err(ErrInvalidHexString) && ParseEnum(s, em) == Err(ErrInvalidHexString)
  {
    assert s[..2][0] == 0x30 && s[..2][1] == 0x78;
    if Hex.Decode(s[2..]).Some? {
      Hex.DecodeExact(s[2..], Hex.Decode(s[2..]).value);
    }
  }

  // ----- masks: FormatInt -----

  /** Append to a bar-separated list under construction. */
  function AppendPart(text: Text, part: Text): Text
  {
    if |text| > 0 then text + [BAR] + part else part
  }

  function Join(text: Text, parts: seq<Text>): Text
    decreases |parts|
  {
    if parts == [] then text else Join(AppendPart(text, parts[0]), parts[1..])
  }

  /** The parts of a formatted mask: the names of registered values taken from `v` until nothing
      is left, then what is left in hex. */
  function MaskParts(values: seq<Word>, v: Word, em: EnumMap): seq<Text>
  {
    if values == [] then
      if v != 0 then [Hex.Format(v, 8)] else []
    else if And(values[0], v) == values[0] && values[0] in em.names then
      ClearThenSet(values[0], v);
      var rest := Xor(v, values[0]);
      [em.names[values[0]]] + if rest == 0 then [] else MaskParts(values[1..], rest, em)
    else if v == 0 then
      []
    else
      MaskParts(values[1..], v, em)
  }

  /** Hex of a signed integer, with a minus sign inside the zero-padded width. */
  function FormatSignedHex(i: int): Text
  {
    if i >= 0 then Hex.Format(i, 8) else [0x2D] + Hex.Format(-i, 7)
  }

  function MaskText(i: int, em: Option<EnumMap>): Text
  {
    if em.None? || em.value.values == [] then FormatSignedHex(i)
    else Join([], MaskParts(em.value.values, U32(i), em.value))
  }

  method FormatInt(i: int, em: Option<EnumMap>) returns (s: Text)
    requires -TWO31 <= i < TWO31
    ensures s == MaskText(i, em)
  {
    if em.None? {
      return FormatSignedHex(i);
    }
    var e := em.value;
    if |e.values| == 0 {
      return FormatSignedHex(i);
    }
    var v: Word := U32(i);
    s := [];
    var k := 0;
    while k < |e.values|
      invariant 0 <= k <= |e.values|
      invariant k == 0 || v != 0
      invariant Join(s, MaskParts(e.values[k..], v, e)) == MaskText(i, em)
    {
      var v1 := e.values[k];
      assert e.values[k..][0] == v1 && e.values[k..][1..] == e.values[k + 1..];
      ghost var parts := MaskParts(e.values[k..], v, e);
      if And(v1, v) == v1 && v1 in e.names {
        ClearThenSet(v1, v);
        s := AppendPart(s, e.names[v1]);
        v := Xor(v, v1);
        assert parts[1..] == if v == 0 then [] else MaskParts(e.values[k + 1..], v, e);
      }
      if v == 0 {
        return s;
      }
      k := k + 1;
    }
    assert e.values[k..] == [];
    s := AppendPart(s, Hex.Format(v, 8));
  }

  // ----- masks: what is written -----

  function NamesOf(ws: seq<Word>, em: EnumMap): seq<Text>
    requires forall i :: 0 <= i < |ws| ==> ws[i] in em.names
  {
    if ws == [] then [] else [em.names[ws[0]]] + NamesOf(ws[1..], em)
  }

  function UnionOf(ws: seq<Word>): nat
  {
    if ws == [] then 0 else Or(ws[0], UnionOf(ws[1..]))
  }

  /** The bits of the values smaller than `w`. */
  function Below(ws: seq<Word>, w: Word): nat
  {
    if ws == [] then 0 else if ws[0] < w then Or(ws[0], Below(ws[1..], w)) else Below(ws[1..], w)
  }

  ghost predicate Ascending(ws: seq<Word>)
  {
    forall i, j :: 0 <= i < j < |ws| ==> ws[i] < ws[j]
  }

  /** What remains of `v` without the chosen values, in hex if anything does. */
  function RestText(v: Word, chosen: seq<Word>): seq<Text>
  {
    AndNotBound(v, UnionOf(chosen));
    var r := AndNot(v, UnionOf(chosen));
    if r != 0 then [Hex.Format(r, 8)] else []
  }

  /** `chosen` are the named values, ascending, each contained in what the smaller chosen ones leave
      of `v`. */
  ghost predicate Chooses(values: seq<Word>, v: Word, em: EnumMap, chosen: seq<Word>)
  {
    && Ascending(chosen)
    && (forall i :: 0 <= i < |chosen| ==> chosen[i] in values && chosen[i] in em.names)
    && (forall w :: w in values && w in em.names ==>
          (w in chosen <==> And(w, AndNot(v, Below(chosen, w))) == w))
  }

  lemma {:induction false} NothingBelow(ws: seq<Word>, w: Word)
    requires forall i :: 0 <= i < |ws| ==> w < ws[i]
    ensures Below(ws, w) == 0
  {
    if ws == [] {
    } else {
      NothingBelow(ws[1..], w);
    }
  }

  lemma ChoosesNone(values: seq<Word>, em: EnumMap)
    requires 0 !in values
    ensures Chooses(values, 0, em, [])
  {
  }

  lemma TailLarger(values: seq<Word>, w: Word)
    requires Ascending(values) && values != [] && w in values[1..]
    ensures values[0] < w
  {
    var tail := values[1..];
    var k :| 0 <= k < |tail| && tail[k] == w;
    assert values[k + 1] == w;
  }

  lemma ChoosesFirst(values: seq<Word>, v: Word, em: EnumMap, chosen: seq<Word>)
    requires Ascending(values) && values != [] && And(values[0], v) == values[0] && values[0] in em.names
    requires AndNot(v, values[0]) <= v && Chooses(values[1..], AndNot(v, values[0]), em, chosen)
    ensures Chooses(values, v, em, [values[0]] + chosen)
  {
    var x, all := values[0], [values[0]] + chosen;
    ConcatSlices([x], chosen);
    forall i | 0 <= i < |chosen|
      ensures x < chosen[i]
    {
      TailLarger(values, chosen[i]);
    }
    forall w | w in values && w in em.names
      ensures w in all <==> And(w, AndNot(v, Below(all, w))) == w
    {
      if w == x {
        FirstIsChosen(v, chosen, x);
      } else {
        TailMember(values, w);
        LaterIsChosen(values, v, chosen, w);
      }
    }
    forall i | 0 <= i < |all|
      ensures all[i] in values && all[i] in em.names
    {
      if i > 0 {
        assert all[i] == chosen[i - 1];
        TailMember(values, chosen[i - 1]);
      }
    }
  }

  lemma FirstIsChosen(v: Word, chosen: seq<Word>, x: Word)
    requires forall i :: 0 <= i < |chosen| ==> x < chosen[i]
    ensures Below([x] + chosen, x) == 0 && AndNot(v, 0) == v && x in [x] + chosen
  {
    ConcatSlices([x], chosen);
    NothingBelow(chosen, x);
  }

  lemma LaterIsChosen(values: seq<Word>, v: Word, chosen: seq<Word>, w: Word)
    requires Ascending(values) && values != [] && w in values[1..]
    ensures var x, all := values[0], [values[0]] + chosen;
            && AndNot(v, Below(all, w)) == AndNot(AndNot(v, x), Below(chosen, w))
            && (w in all <==> w in chosen)
  {
    var x := values[0];
    TailLarger(values, w);
    ConcatSlices([x], chosen);
    AndNotOr(v, x, Below(chosen, w));
  }

  lemma AndNotZero(v: nat)
    ensures AndNot(v, 0) == v
  {
  }

  lemma ChoosesLater(values: seq<Word>, v: Word, em: EnumMap, chosen: seq<Word>)
    requires Ascending(values) && values != [] && !(And(values[0], v) == values[0] && values[0] in em.names)
    requires Chooses(values[1..], v, em, chosen)
    ensures Chooses(values, v, em, chosen)
  {
    var x := values[0];
    forall i | 0 <= i < |chosen|
      ensures x < chosen[i]
    {
      TailLarger(values, chosen[i]);
    }
    NothingBelow(chosen, x);
    AndNotZero(v);
    HeadTail(values);
  }

  /** The parts of a mask are the names of the values it chooses, in ascending order, and then what
      remains in hex. */
  lemma {:induction false} MaskPartsExact(values: seq<Word>, v: Word, em: EnumMap) returns (chosen: seq<Word>)
    requires Ascending(values)
    ensures Chooses(values, v, em, chosen)
    ensures MaskParts(values, v, em) == NamesOf(chosen, em) + RestText(v, chosen)
  {
    AndNotZero(v);
    if values == [] {
      chosen := [];
    } else if And(values[0], v) == values[0] && values[0] in em.names {
      var x := values[0];
      XorRemoves(x, v);
      AndNotBound(v, x);
      var rest := AndNot(v, x);
      var more: seq<Word> := [];
      if rest != 0 {
        more := MaskPartsExact(values[1..], rest, em);
      } else {
        NoZeroLater(values);
        ChoosesNone(values[1..], em);
      }
      ChoosesFirst(values, v, em, more);
      chosen := [x] + more;
      ConcatSlices([x], more);
      AndNotOr(v, x, UnionOf(more));
      ConcatAssociative([em.names[x]], NamesOf(more, em), RestText(rest, more));
    } else if v == 0 {
      chosen := [];
      NoZeroAtAll(values, em);
    } else {
      chosen := MaskPartsExact(values[1..], v, em);
      ChoosesLater(values, v, em, chosen);
    }
  }

  lemma NoZeroLater(values: seq<Word>)
    requires Ascending(values) && values != []
    ensures 0 !in values[1..]
  {
    forall k | 0 <= k < |values[1..]|
      ensures values[1..][k] != 0
    {
      assert values[0] < values[k + 1] == values[1..][k];
    }
  }

  lemma NoZeroAtAll(values: seq<Word>, em: EnumMap)
    requires Ascending(values) && values != [] && !(And(values[0], 0) == values[0] && values[0] in em.names)
    ensures Chooses(values, 0, em, [])
  {
    NoZeroLater(values);
    HeadTail(values);
  }

  /** The values a mask chooses are unique. */
  lemma {:induction false} ChosenUnique(values: seq<Word>, v: Word, em: EnumMap, a: seq<Word>, b: seq<Word>, w: nat)
    requires Chooses(values, v, em, a) && Chooses(values, v, em, b) && w < TWO32
    ensures w in a <==> w in b
    decreases w
  {
    forall x: Word | x < w
      ensures x in a <==> x in b
    {
      ChosenUnique(values, v, em, a, b, x);
    }
    BelowSame(a, b, w);
  }

  /** Ascending lists with the same members below `w` have the same bits below it. */
  lemma {:induction false} BelowSame(a: seq<Word>, b: seq<Word>, w: Word)
    requires Ascending(a) && Ascending(b) && forall x: Word :: x < w ==> (x in a <==> x in b)
    ensures Below(a, w) == Below(b, w)
  {
    if a == [] || a[0] >= w {
      NoneBelow(a, w);
      assert b == [] || b[0] >= w by {
        assert b != [] ==> b[0] in b;
      }
      NoneBelow(b, w);
    } else {
      assert a[0] in b;
      FirstSame(a, b, w);
      BelowSame(a[1..], b[1..], w);
    }
  }

  lemma {:induction false} NoneBelow(ws: seq<Word>, w: Word)
    requires Ascending(ws) && (ws == [] || ws[0] >= w)
    ensures Below(ws, w) == 0
    ensures forall i :: 0 <= i < |ws| ==> ws[i] >= w
  {
    if ws == [] {
    } else {
      NoneBelow(ws[1..], w);
    }
  }

  lemma FirstSame(a: seq<Word>, b: seq<Word>, w: Word)
    requires Ascending(a) && Ascending(b) && a != [] && b != [] && a[0] < w
    requires forall x: Word :: x < w ==> (x in a <==> x in b)
    ensures a[0] == b[0] && forall x: Word :: x < w ==> (x in a[1..] <==> x in b[1..])
  {
    assert a[0] in a;
    assert a[0] in b;
    var j :| 0 <= j < |b| && b[j] == a[0];
    assert b[0] <= a[0] && b[0] < w;
    assert b[0] in a;
    var i :| 0 <= i < |a| && a[i] == b[0];
    forall x: Word | x < w
      ensures x in a[1..] <==> x in b[1..]
    {
      TailMember(a, x);
      TailMember(b, x);
    }
  }

  lemma TailMember(a: seq<Word>, x: Word)
    requires Ascending(a) && a != []
    ensures x in a[1..] <==> x in a && x != a[0]
  {
    HeadTail(a);
  }

  /** No name is left out: what remains contains no named value, other than zero. */
  lemma NothingLeftToName(values: seq<Word>, v: Word, em: EnumMap, chosen: seq<Word>, w: Word)
    requires Chooses(values, v, em, chosen) && w in values && w in em.names && w != 0
    ensures And(w, AndNot(v, UnionOf(chosen))) != w
  {
    if w in chosen {
      var i :| 0 <= i < |chosen| && chosen[i] == w;
      MemberGone(chosen, i, v);
    } else if And(w, AndNot(v, UnionOf(chosen))) == w {
      UnionFromBelow(chosen, w, v);
    }
  }

  lemma {:induction false} MemberGone(ws: seq<Word>, i: nat, v: nat)
    requires i < |ws|
    ensures And(ws[i], AndNot(v, UnionOf(ws))) == 0
  {
    AndNotOr(v, ws[0], UnionOf(ws[1..]));
    if i == 0 {
      RemovedTwice(ws[0], v, UnionOf(ws[1..]));
    } else {
      MemberGone(ws[1..], i - 1, AndNot(v, ws[0]));
    }
  }

  lemma {:induction false} RemovedTwice(w: nat, v: nat, u: nat)
    ensures And(w, AndNot(AndNot(v, w), u)) == 0
  {
    if w == 0 || v == 0 || u == 0 {
      RemovedIsGone(w, v);
      AndNotZero(AndNot(v, w));
    } else {
      RemovedTwice(w / 2, v / 2, u / 2);
      assert AndNot(v, w) / 2 == AndNot(v / 2, w / 2);
      assert AndNot(AndNot(v, w), u) / 2 == AndNot(AndNot(v / 2, w / 2), u / 2);
    }
  }

  /** What the union leaves, the smaller ones leave. */
  lemma {:induction false} UnionFromBelow(ws: seq<Word>, w: Word, v: nat)
    requires And(w, AndNot(v, UnionOf(ws))) == w
    ensures And(w, AndNot(v, Below(ws, w))) == w
  {
    if ws == [] {
    } else {
      AndNotOr(v, ws[0], UnionOf(ws[1..]));
      AndNotOr(v, ws[0], Below(ws[1..], w));
      if ws[0] < w {
        UnionFromBelow(ws[1..], w, AndNot(v, ws[0]));
      } else {
        DropRemoval(w, v, ws[0], UnionOf(ws[1..]));
        UnionFromBelow(ws[1..], w, v);
      }
    }
  }

  lemma {:induction false} DropRemoval(w: nat, v: nat, x: nat, u: nat)
    requires And(w, AndNot(AndNot(v, x), u)) == w
    ensures And(w, AndNot(v, u)) == w
  {
    if w == 0 || v == 0 || x == 0 || u == 0 {
      AndNotZero(AndNot(v, x));
      AndNotZero(v);
      if u == 0 {
        ContainedBefore(w, v, x);
      }
    } else {
      assert AndNot(v, x) / 2 == AndNot(v / 2, x / 2);
      assert AndNot(AndNot(v, x), u) / 2 == AndNot(AndNot(v / 2, x / 2), u / 2);
      assert AndNot(v, u) / 2 == AndNot(v / 2, u / 2);
      DropRemoval(w / 2, v / 2, x / 2, u / 2);
    }
  }

  /** Where registered values do not overlap, a mask is named by exactly the values it contains. */
  lemma DisjointValues(values: seq<Word>, v: Word, em: EnumMap, chosen: seq<Word>, w: Word)
    requires Chooses(values, v, em, chosen) && w in values && w in em.names
    requires forall x, y :: x in values && y in values && x != y ==> And(x, y) == 0
    ensures w in chosen <==> And(w, v) == w
  {
    forall i | 0 <= i < |chosen| && chosen[i] < w
      ensures And(w, chosen[i]) == 0
    {
      assert chosen[i] in values;
    }
    BelowDisjoint(chosen, w, v);
  }

  lemma {:induction false} BelowDisjoint(ws: seq<Word>, w: Word, v: nat)
    requires forall i :: 0 <= i < |ws| && ws[i] < w ==> And(w, ws[i]) == 0
    ensures And(w, AndNot(v, Below(ws, w))) == And(w, v)
  {
    if ws == [] {
      AndNotZero(v);
    } else if ws[0] < w {
      AndNotOr(v, ws[0], Below(ws[1..], w));
      BelowDisjoint(ws[1..], w, AndNot(v, ws[0]));
      AndAfterRemoving(w, v, ws[0]);
    } else {
      BelowDisjoint(ws[1..], w, v);
    }
  }

  /** Without registered values an integer is eight hex digits, or a minus sign before the hex of its
      magnitude. */
  lemma UnnamedInt(i: int, em: Option<EnumMap>)
    requires -TWO31 <= i < TWO31 && (em.Some? ==> em.value.values == [])
    ensures var s := MaskText(i, em);
            if i >= 0 then |s| == 10 && s[..2] == Hex.PREFIX && s[2..] == Hex.Encode(BigEndian(i, 4))
            else |s| >= 1 && s[0] == 0x2D && s[1..] == Hex.Format(-i, 7)
  {
    PowWords();
    if i >= 0 {
      Hex.FormatParse(i, 4);
    }
  }

  /** Parts with a bar between them. */
  function Barred(parts: seq<Text>): Text
    requires parts != []
  {
    if |parts| == 1 then parts[0] else parts[0] + [BAR] + Barred(parts[1..])
  }

  lemma {:induction false} JoinBarred(text: Text, parts: seq<Text>)
    requires text != []
    ensures Join(text, parts) == Barred([text] + parts)
    decreases |parts|
  {
    if parts == [] {
      BarredCons(text, []);
    } else {
      JoinBarred(text + [BAR] + parts[0], parts[1..]);
      BarredFirst(text, parts);
    }
  }

  lemma BarredCons(t: Text, rest: seq<Text>)
    ensures Barred([t] + rest) == if rest == [] then t else t + [BAR] + Barred(rest)
  {
    ConcatSlices([t], rest);
  }

  lemma BarredFirst(text: Text, parts: seq<Text>)
    requires parts != []
    ensures Barred([text + [BAR] + parts[0]] + parts[1..]) == Barred([text] + parts)
  {
    var p, rest := parts[0], parts[1..];
    BarredCons(text + [BAR] + p, rest);
    BarredCons(text, parts);
    HeadTail(parts);
    BarredCons(p, rest);
    if rest != [] {
      Regroup(text, p, Barred(rest));
    }
  }

  lemma Regroup(a: Text, b: Text, c: Text)
    ensures a + [BAR] + b + [BAR] + c == a + [BAR] + (b + [BAR] + c)
  {
  }

  /** FormatInt under an enum with values: the names of the values the mask chooses, and what remains
      in hex, with bars between them. */
  lemma MaskTextExact(i: int, em: EnumMap) returns (chosen: seq<Word>)
    requires -TWO31 <= i < TWO31 && em.values != [] && Ascending(em.values)
    requires forall v :: v in em.names ==> em.names[v] != []
    ensures Chooses(em.values, U32(i), em, chosen)
    ensures var parts := NamesOf(chosen, em) + RestText(U32(i), chosen);
            MaskText(i, Some(em)) == if parts == [] then [] else Barred(parts)
  {
    chosen := MaskPartsExact(em.values, U32(i), em);
    var parts := NamesOf(chosen, em) + RestText(U32(i), chosen);
    if parts != [] {
      FirstPartNonempty(chosen, U32(i), em);
      JoinBarred(parts[0], parts[1..]);
      HeadTail(parts);
    }
  }

  lemma FirstPartNonempty(chosen: seq<Word>, v: Word, em: EnumMap)
    requires forall i :: 0 <= i < |chosen| ==> chosen[i] in em.names
    requires forall v :: v in em.names ==> em.names[v] != []
    ensures var parts := NamesOf(chosen, em) + RestText(v, chosen); parts != [] ==> parts[0] != []
  {
  }

  // ----- masks: ParseInt -----

  predicate IsSeparator(c: Byte)
  {
    c == BAR || c == SPACE
  }

  predicate HasSeparator(s: Text)
  {
    exists i :: 0 <= i < |s| && IsSeparator(s[i])
  }

  /** strings.ReplaceAll(s, "|", " ") */
  function BarsToSpaces(s: Text): (r: Text)
    ensures |r| == |s|
    ensures forall i :: 0 <= i < |s| ==> r[i] == if s[i] == BAR then SPACE else s[i]
  {
    seq(|s|, i requires 0 <= i < |s| => if s[i] == BAR then SPACE else s[i])
  }

  /** strings.Split(s, " ") */
  function Split(s: Text): (parts: seq<Text>)
    ensures parts != []
  {
    if s == [] then [[]]
    else
      var front, c := Split(s[..|s| - 1]), s[|s| - 1];
      var k := |front| - 1;
      if c == SPACE then front + [[]] else front[..k] + [front[k] + [c]]
  }

  /** The union of the values of nonempty parts, added to `v`. */
  function ParseParts(parts: seq<Text>, v: nat, em: Option<EnumMap>): Parsed<nat>
  {
    if parts == [] then Ok(v)
    else if parts[0] == [] then ParseParts(parts[1..], v, em)
    else
      match ParseHexOrName(parts[0], 4, em)
      case Err(e) => Err(e)
      case Ok(i) => ParseParts(parts[1..], Or(v, i), em)
  }

  function ParseMask(s: Text, em: Option<EnumMap>): (r: Parsed<int>)
    ensures r.Ok? ==> -TWO31 <= r.value < TWO31
  {
    var d := ParseDecimalInt32(s);
    if d.Some? then Ok(d.value)
    else
      var v := if HasSeparator(s) then ParseParts(Split(BarsToSpaces(s)), 0, em) else ParseHexOrName(s, 4, em);
      match v
      case Err(e) => Err(e)
      case Ok(u) => Ok(I32(u))
  }

  method ParseInt(s: Text, em: Option<EnumMap>) returns (r: Parsed<int>)
    ensures r == ParseMask(s, em)
  {
    var d := ParseDecimalInt32(s);
    if d.Some? {
      return Ok(d.value);
    }
    if !HasSeparator(s) {
      var p := ParseHexOrName(s, 4, em);
      return if p.Err? then Err(p.error) else Ok(I32(p.value));
    }
    var parts := Split(BarsToSpaces(s));
    var v: nat := 0;
    for k := 0 to |parts|
      invariant ParseParts(parts[k..], v, em) == ParseParts(parts, 0, em)
    {
      assert parts[k..][0] == parts[k] && parts[k..][1..] == parts[k + 1..];
      if |parts[k]| != 0 {
        var p := ParseHexOrName(parts[k], 4, em);
        if p.Err? {
          return Err(p.error);
        }
        v := Or(v, p.value);
      }
    }
    assert parts[|parts|..] == [];
    return Ok(I32(v));
  }

  // ----- masks: round trip -----

  ghost predicate GoodPart(s: Text)
  {
    s != [] && !HasSeparator(s)
  }

  ghost predicate GoodParts(parts: seq<Text>)
  {
    forall i :: 0 <= i < |parts| ==> GoodPart(parts[i])
  }

  /** Names that mask text can be taken apart into. */
  ghost predicate MaskNames(em: EnumMap)
  {
    TagNames(em) && forall v :: v in em.names ==> GoodPart(em.names[v]) && ParseDecimalInt32(em.names[v]).None?
  }

  /** Values lists exactly the named values in ascending order; lookups lead nowhere else. */
  ghost predicate Complete(em: EnumMap)
  {
    Ascending(em.values) &&
    (forall i :: 0 <= i < |em.values| ==> em.values[i] in em.names) &&
    (forall v :: v in em.names ==> v in em.values) &&
    (forall s :: s in em.lookup ==> em.lookup[s] in em.names)
  }

  lemma {:induction false} DigitsClean(v: nat, w: nat)
    ensures forall i :: 0 <= i < |Hex.Digits(v, w)| ==> !IsSeparator(Hex.Digits(v, w)[i])
    decreases v + w
  {
    if v != 0 || w != 0 {
      DigitsClean(v / 16, if w > 0 then w - 1 else 0);
    }
  }

  lemma HexClean(v: nat, w: nat)
    ensures !HasSeparator(Hex.Format(v, w))
  {
    DigitsClean(v, w);
    var s, d := Hex.Format(v, w), Hex.Digits(v, w);
    forall i | 0 <= i < |s|
      ensures !IsSeparator(s[i])
    {
      if i >= 2 {
        assert s[i] == d[i - 2];
      }
    }
  }

  lemma HexPart(v: Word, em: Option<EnumMap>)
    ensures GoodPart(Hex.Format(v, 8)) && ParseHexOrName(Hex.Format(v, 8), 4, em) == Ok(v)
  {
    PowWords();
    Hex.FormatParse(v, 4);
    HexClean(v, 8);
  }

  /** The parts are well separated, and their values are together exactly the bits of `v`. */
  lemma {:induction false} MaskPartsValue(values: seq<Word>, v: Word, acc: nat, em: EnumMap)
    requires MaskNames(em)
    ensures GoodParts(MaskParts(values, v, em))
    ensures ParseParts(MaskParts(values, v, em), acc, Some(em)) == Ok(Or(acc, v))
  {
    AndZero(acc);
    var parts := MaskParts(values, v, em);
    if values == [] {
      HexPart(v, Some(em));
    } else if And(values[0], v) == values[0] && values[0] in em.names {
      var v1 := values[0];
      ClearThenSet(v1, v);
      var rest := Xor(v, v1);
      OrAssociative(acc, v1, rest);
      AndZero(v1);
      AndZero(Or(acc, v1));
      assert parts[1..] == if rest == 0 then [] else MaskParts(values[1..], rest, em);
      if rest != 0 {
        MaskPartsValue(values[1..], rest, Or(acc, v1), em);
      }
    } else if v != 0 {
      MaskPartsValue(values[1..], v, acc, em);
    }
  }

  lemma {:induction false} SplitAppend(text: Text, part: Text)
    requires SPACE !in part
    ensures Split(text + [SPACE] + part) == Split(text) + [part]
  {
    var s := text + [SPACE] + part;
    if part == [] {
      assert s[..|s| - 1] == text;
    } else {
      var k := |part| - 1;
      SplitAppend(text, part[..k]);
      assert s[..|s| - 1] == text + [SPACE] + part[..k];
      assert part[..k] + [part[k]] == part;
    }
  }

  lemma {:induction false} SplitOne(part: Text)
    requires SPACE !in part
    ensures Split(part) == [part]
  {
    if part == [] {
    } else {
      SplitOne(part[..|part| - 1]);
      assert part[..|part| - 1] + [part[|part| - 1]] == part;
    }
  }

  lemma GoodPartUnchanged(part: Text)
    requires GoodPart(part)
    ensures BarsToSpaces(part) == part && SPACE !in part && BAR !in part
  {
    forall i | 0 <= i < |part|
      ensures part[i] != BAR && part[i] != SPACE
    {
      assert !IsSeparator(part[i]);
    }
  }

  lemma {:induction false} JoinExtends(text: Text, parts: seq<Text>)
    ensures text <= Join(text, parts)
    decreases |parts|
  {
    if parts == [] {
    } else {
      JoinExtends(AppendPart(text, parts[0]), parts[1..]);
    }
  }

  lemma SplitAppendPart(text: Text, p: Text)
    requires text != [] && GoodPart(p)
    ensures Split(BarsToSpaces(AppendPart(text, p))) == Split(BarsToSpaces(text)) + [p]
  {
    GoodPartUnchanged(p);
    assert BarsToSpaces(text + [BAR] + p) == BarsToSpaces(text) + [SPACE] + p;
    SplitAppend(BarsToSpaces(text), p);
  }

  /** Joining with bars and splitting again gives the parts. */
  lemma {:induction false} SplitJoin(text: Text, done: seq<Text>, parts: seq<Text>)
    requires text != [] && GoodParts(parts)
    requires Split(BarsToSpaces(text)) == done
    ensures Split(BarsToSpaces(Join(text, parts))) == done + parts
    decreases |parts|
  {
    if parts == [] {
    } else {
      var p := parts[0];
      assert GoodPart(p);
      SplitAppendPart(text, p);
      SplitJoin(AppendPart(text, p), done + [p], parts[1..]);
      TakeFirst(done, parts);
    }
  }

  lemma BarIsNotDecimal(s: Text, i: nat)
    requires 0 < i < |s| && s[i] == BAR
    ensures ParseDecimalInt32(s).None? && HasSeparator(s)
  {
    assert s[1..][i - 1] == BAR;
    assert IsSeparator(s[i]);
  }

  lemma I32OfU32(i: int)
    requires -TWO31 <= i < TWO31
    ensures I32(U32(i)) == i
  {
  }

  lemma NonemptyMask(i: int, em: EnumMap)
    requires MaskNames(em) && -TWO31 <= i < TWO31
    requires MaskParts(em.values, U32(i), em) != [] && em.values != []
    ensures ParseMask(MaskText(i, Some(em)), Some(em)) == Ok(i)
  {
    var v: Word := U32(i);
    var parts := MaskParts(em.values, v, em);
    MaskPartsValue(em.values, v, 0, em);
    SinglePart(em.values, v, em);
    I32OfU32(i);
    ParseJoined(parts, v, em);
  }

  lemma ParseJoined(parts: seq<Text>, v: Word, em: EnumMap)
    requires parts != [] && GoodParts(parts)
    requires ParseParts(parts, 0, Some(em)) == Ok(v)
    requires |parts| == 1 ==> ParseDecimalInt32(parts[0]).None?
    ensures ParseMask(Join([], parts), Some(em)) == Ok(I32(v))
  {
    if |parts| > 1 {
      SplitJoined(parts);
      JoinedText(parts);
    } else {
      HeadTail(parts);
      OneValue(parts[0], v, em);
    }
  }

  lemma SplitJoined(parts: seq<Text>)
    requires parts != [] && GoodParts(parts)
    ensures Split(BarsToSpaces(Join([], parts))) == parts
  {
    var p := parts[0];
    GoodPartUnchanged(p);
    SplitOne(p);
    SplitJoin(p, [p], parts[1..]);
    HeadTail(parts);
  }

  lemma JoinedText(parts: seq<Text>)
    requires |parts| > 1 && GoodParts(parts)
    ensures ParseDecimalInt32(Join([], parts)).None? && HasSeparator(Join([], parts))
  {
    var p := parts[0];
    assert GoodPart(p);
    var q := parts[1..];
    var t := AppendPart(p, q[0]);
    assert t[|p|] == BAR;
    JoinExtends(t, q[1..]);
    var s := Join(t, q[1..]);
    assert Join([], parts) == Join(p, q) == s;
    BarIsNotDecimal(s, |p|);
  }

  lemma OneValue(p: Text, v: Word, em: EnumMap)
    requires p != [] && ParseParts([p], 0, Some(em)) == Ok(v)
    ensures ParseHexOrName(p, 4, Some(em)) == Ok(v)
  {
    assert [p][1..] == [];
  }

  // ----- masks: what any text means -----

  /** Empty parts do not count. */
  function Nonempty(parts: seq<Text>): seq<Text>
  {
    if parts == [] then [] else if parts[0] == [] then Nonempty(parts[1..]) else [parts[0]] + Nonempty(parts[1..])
  }

  lemma {:induction false} SkipEmpty(parts: seq<Text>, v: nat, em: Option<EnumMap>)
    ensures ParseParts(parts, v, em) == ParseParts(Nonempty(parts), v, em)
  {
    if parts == [] {
    } else if parts[0] == [] {
      SkipEmpty(parts[1..], v, em);
    } else {
      ConcatSlices([parts[0]], Nonempty(parts[1..]));
      var p := ParseHexOrName(parts[0], 4, em);
      if p.Ok? {
        SkipEmpty(parts[1..], Or(v, p.value), em);
      }
    }
  }

  /** The value of separated parts is the union of their values. */
  lemma {:induction false} PartsUnion(parts: seq<Text>, us: seq<Word>, v: nat, em: Option<EnumMap>)
    requires |parts| == |us| && forall k :: 0 <= k < |parts| ==> parts[k] != []
    requires forall k :: 0 <= k < |parts| ==> ParseHexOrName(parts[k], 4, em) == Ok(us[k])
    ensures ParseParts(parts, v, em) == Ok(Or(v, UnionOf(us)))
  {
    AndZero(v);
    if parts == [] {
    } else {
      PartsUnion(parts[1..], us[1..], Or(v, us[0]), em);
      OrAssociative(v, us[0], UnionOf(us[1..]));
    }
  }

  /** And the first part that does not parse decides the error. */
  lemma {:induction false} FirstBadPart(parts: seq<Text>, k: nat, v: nat, em: Option<EnumMap>)
    requires k < |parts| && forall j :: 0 <= j < |parts| ==> parts[j] != []
    requires ParseHexOrName(parts[k], 4, em).Err? && forall j :: 0 <= j < k ==> ParseHexOrName(parts[j], 4, em).Ok?
    ensures ParseParts(parts, v, em) == Err(ParseHexOrName(parts[k], 4, em).error)
  {
    if k == 0 {
    } else {
      FirstBadPart(parts[1..], k - 1, Or(v, ParseHexOrName(parts[0], 4, em).value), em);
    }
  }

  lemma JoinIsBarred(parts: seq<Text>)
    requires parts != [] && parts[0] != []
    ensures Join([], parts) == Barred(parts)
  {
    JoinBarred(parts[0], parts[1..]);
    HeadTail(parts);
  }

  /** ParseInt of parts with bars between them is their union, wherever each is a name or hex. */
  lemma ParseBarred(parts: seq<Text>, us: seq<Word>, em: Option<EnumMap>)
    requires |parts| == |us| > 1 && GoodParts(parts)
    requires forall k :: 0 <= k < |parts| ==> ParseHexOrName(parts[k], 4, em) == Ok(us[k])
    ensures ParseMask(Barred(parts), em) == Ok(I32(UnionOf(us)))
  {
    assert GoodPart(parts[0]);
    JoinIsBarred(parts);
    SplitJoined(parts);
    JoinedText(parts);
    PartsUnion(parts, us, 0, em);
  }

  /** Spaces separate as bars do. */
  lemma SeparatorsAlike(s: Text, t: Text, em: Option<EnumMap>)
    requires BarsToSpaces(s) == BarsToSpaces(t)
    ensures ParseMask(s, em) == ParseMask(t, em)
  {
    if HasSeparator(s) || HasSeparator(t) {
      SameSeparators(s, t);
      SameSeparators(t, s);
      SeparatedIsNotDecimal(s);
      SeparatedIsNotDecimal(t);
    } else {
      forall i | 0 <= i < |s|
        ensures s[i] == t[i]
      {
        assert !IsSeparator(s[i]) && !IsSeparator(t[i]);
        assert BarsToSpaces(s)[i] == BarsToSpaces(t)[i];
      }
      assert s == t;
    }
  }

  lemma SameSeparators(s: Text, t: Text)
    requires BarsToSpaces(s) == BarsToSpaces(t) && HasSeparator(s)
    ensures HasSeparator(t)
  {
    var i :| 0 <= i < |s| && IsSeparator(s[i]);
    assert BarsToSpaces(s)[i] == BarsToSpaces(t)[i];
    assert IsSeparator(t[i]);
  }

  lemma SeparatedIsNotDecimal(s: Text)
    requires HasSeparator(s)
    ensures ParseDecimalInt32(s).None?
  {
    var i :| 0 <= i < |s| && IsSeparator(s[i]);
    if i > 0 {
      assert s[1..][i - 1] == s[i];
    }
  }

  /** A mask of one part is a name or hex text, never a decimal numeral. */
  lemma {:induction false} SinglePart(values: seq<Word>, v: Word, em: EnumMap)
    requires MaskNames(em)
    ensures |MaskParts(values, v, em)| == 1 ==> ParseDecimalInt32(MaskParts(values, v, em)[0]).None?
  {
    if values == [] {
      HexIsNotDecimal(v, 8);
    } else if !(And(values[0], v) == values[0] && values[0] in em.names) && v != 0 {
      SinglePart(values[1..], v, em);
    }
  }

  lemma {:induction false} EmptyParts(values: seq<Word>, v: Word, em: EnumMap)
    requires v != 0
    ensures MaskParts(values, v, em) != []
  {
    if values != [] && !(And(values[0], v) == values[0] && values[0] in em.names) {
      EmptyParts(values[1..], v, em);
    }
  }

  lemma SignedHexText(i: int, em: Option<EnumMap>)
    requires -TWO31 <= i < TWO31
    requires em.Some? ==> em.value.lookup == map[]
    ensures ParseMask(FormatSignedHex(i), em) == Ok(i) <==> i >= 0
  {
    if i >= 0 {
      HexPart(i, em);
      HexIsNotDecimal(i, 8);
    } else {
      var s := FormatSignedHex(i);
      assert s[0] == 0x2D && s[1] == 0x30 && s[2] == 0x78;
      assert s[1..][1] == 0x78;
      assert !Hex.IsHex(s) by { assert s[..2][0] == 0x2D; }
      HexClean(-i, 7);
      forall k | 0 <= k < |s|
        ensures !IsSeparator(s[k])
      {
        if k > 0 {
          assert s[k] == Hex.Format(-i, 7)[k - 1];
        }
      }
    }
  }

  /** ParseInt inverts FormatInt exactly when: without registered values, the integer is not
      negative; with registered values, it is nonzero or zero itself is registered. Registered
      values may overlap and span several bits. */
  lemma MaskRoundTrip(i: int, em: Option<EnumMap>)
    requires -TWO31 <= i < TWO31
    requires em.Some? ==> MaskNames(em.value) && Complete(em.value)
    ensures ParseMask(MaskText(i, em), em) == Ok(i) <==>
            if em.None? || em.value.values == [] then i >= 0 else i != 0 || 0 in em.value.names
  {
    if em.None? || em.value.values == [] {
      SignedHexText(i, em);
    } else {
      var e := em.value;
      if i != 0 {
        EmptyParts(e.values, U32(i), e);
        NonemptyMask(i, e);
      } else if 0 in e.names {
        assert e.values[0] == 0;
        NonemptyMask(i, e);
      } else {
        AndZero(e.values[0]);
        assert MaskText(i, em) == [];
      }
    }
  }
}
