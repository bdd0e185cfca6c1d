/** When unmarshaling what was marshaled gives the value back. */
module StructRoundTrip {
  import opened Bytes
  import opened Wire
  import opened Grammar
  import opened Items
  import opened EncodeBuffer
  import opened Scalars
  import opened Trees
  import opened Schema
  import opened Unmarshaling
  import Names

  /** The encoder writes a block for the value. */
  predicate Written(flags: Flags, v: GoVal)
    decreases v
  {
    match v
    case Plain(s) => s != BytesV(None) && !(flags.omitEmpty && IsEmpty(s))
    case Ptr(p) => p.Some? && !p.value.Ptr? && Written(flags, p.value)
    case Slice(es) => exists i :: 0 <= i < |es| && Written(flags.(omitEmpty := false), es[i])
    case Record(_) => true
  }

  /** Lists have one element each, down to the values that hold none. */
  predicate Narrow(v: GoVal)
  {
    match v
    case Ptr(Some(w)) => Narrow(w)
    case Slice(es) => |es| == 1 && Narrow(es[0])
    case _ => true
  }

  /** Whatever a field writes is led back to it by its tag: the tag is its own, or no other field's
      and the field is the first marked `any`. */
  ghost predicate Routable(typ: GoType, v: GoVal)
    requires HasType(typ, v)
  {
    match v
    case Plain(_) => true
    case Ptr(p) => p.Some? ==> Routable(typ.elem, p.value)
    case Slice(es) =>
      assert ElemsHaveType(typ.elem, es);
      forall i :: 0 <= i < |es| ==> Routable(typ.elem, es[i])
    case Record(vs) =>
      assert FieldsHaveType(typ.fields, vs);
      forall i :: 0 <= i < |vs| ==>
        (Written(typ.fields[i].flags, vs[i]) ==> Route(typ.fields, typ.fields[i].tag) == Some(i)) &&
        Routable(typ.fields[i].typ, vs[i])
  }

  /** The encoder turns the string into an Enumeration or Integer. */
  predicate Captured(enums: Enums, tag: Word, flags: Flags, s: Text)
  {
    var em := if tag in enums then Some(enums[tag]) else None;
    AsEnum(enums, tag, flags) &&
    if AsMask(enums, tag, flags) then Names.ParseMask(s, em).Ok? else Names.ParseEnum(s, em).Ok?
  }

  predicate ScalarRecoverable(enums: Enums, tag: Word, flags: Flags, s: Scalar)
  {
    if !Written(flags, Plain(s)) then s != BytesV(Some([]))
    else
      match s
      case IntV(k, i) =>
        if k.Wide() then true
        else if AsEnum(enums, tag, flags) && !AsMask(enums, tag, flags) then 0 <= i < TWO32
        else if k.Signed() then -TWO31 <= i < TWO31
        else i < TWO31 || i >= TWO64 - TWO31
      case StringV(t) => !Captured(enums, tag, flags, t)
      case BytesV(b) => b != Some([])
      case TimeV(ns) => Exact(if flags.dateTimeExt then DateTimeExtended(ns) else DateTime(ns))
      case DurationV(d) => Exact(Interval(d))
      case _ => true
  }

  /** Values that come back unchanged: no pointer to a pointer, no pointer to what is not written,
      and in lists only elements of one block. */
  predicate Recoverable(enums: Enums, tag: Word, flags: Flags, typ: GoType, v: GoVal)
    requires HasType(typ, v)
    decreases v
  {
    match v
    case Plain(s) => ScalarRecoverable(enums, tag, flags, s)
    case Ptr(p) =>
      p.Some? ==> !p.value.Ptr? && Written(flags, p.value) && Recoverable(enums, tag, flags, typ.elem, p.value)
    case Slice(es) =>
      var each := flags.(omitEmpty := false);
      assert ElemsHaveType(typ.elem, es);
      forall i :: 0 <= i < |es| ==>
        Written(each, es[i]) && Narrow(es[i]) && Recoverable(enums, tag, each, typ.elem, es[i])
    case Record(vs) =>
      assert FieldsHaveType(typ.fields, vs);
      forall i :: 0 <= i < |vs| ==>
        Recoverable(enums, typ.fields[i].tag, typ.fields[i].flags, typ.fields[i].typ, vs[i])
  }

  // ----- scalars -----

  lemma WellFormedFits(tag: Word, x: Item)
    requires Blocks(tag, x) != [] && WellFormed(Blocks(tag, x)[0])
    ensures ValidTag(tag) && Fits(x)
  {
  }

  lemma DecodeOne(strict: bool, typ: GoType, cur: GoVal, n: Node)
    requires HasType(typ, cur)
    ensures DecodeBlocks(strict, typ, cur, [n]) == Unmarshal(strict, typ, cur, Render(n))
  {
    assert [n][1..] == [];
  }

  /** A written scalar is stored as the item it was written as, at wire precision. */
  lemma DecodeScalar(strict: bool, typ: GoType, tag: Word, x: Item)
    requires ScalarType(typ) && Blocks(tag, x) != [] && AllWellFormed(Blocks(tag, x))
    ensures DecodeBlocks(strict, typ, Zero(typ), Blocks(tag, x)) == Store(typ, OnWire(x))
  {
    var n := Blocks(tag, x)[0];
    assert Blocks(tag, x) == [n];
    WellFormedFits(tag, x);
    ItemRoundTrip(tag, x, []);
    assert Render(n) + [] == Render(n);
    SetReadItem(typ, Render(n));
    DecodeOne(strict, typ, Zero(typ), n);
  }

  /** The empty values that omitempty leaves out are the zero value and empty byte strings. */
  lemma EmptyIsZero(typ: GoType, s: Scalar)
    requires ScalarHasType(typ, s)
    ensures IsEmpty(s) <==> Plain(s) == Zero(typ) || s == BytesV(Some([]))
    ensures Zero(typ) != Plain(BytesV(Some([])))
  {
    match s
    case BytesV(b) =>
      if b.Some? {
        assert b.value == [] ==> s == BytesV(Some([]));
      }
    case StringV(t) => assert t == [] <==> |t| == 0;
    case _ =>
  }

  lemma Widen(v: int)
    requires -TWO31 <= v < TWO31
    ensures U64(v) == v || (v < 0 && U64(v) == v + TWO64)
    ensures v >= 0 ==> U64(v) == v
  {
  }

  lemma TopWord(i: int)
    requires TWO64 - TWO31 <= i < TWO64
    ensures I32(i) == i - TWO64
  {
    var k := i - (TWO64 - TWO32);
    assert i == 0xFFFF_FFFF * TWO32 + k;
    assert i % TWO32 == k;
  }

  /** An unsigned value cast to int32 and widened again. */
  lemma UnsignedThroughInt32(i: int)
    requires 0 <= i < TWO64
    ensures U64(I32(i)) == i <==> i < TWO31 || i >= TWO64 - TWO31
  {
    Widen(I32(i));
    if i >= TWO64 - TWO31 {
      TopWord(i);
    } else if i < TWO31 {
      assert I32(i) == i;
    }
  }

  lemma UnsignedThroughInt64(i: int)
    requires 0 <= i < TWO64
    ensures U64(I64(i)) == i
  {
  }

  lemma WordRange(i: int)
    ensures U32(i) == i <==> 0 <= i < TWO32
    ensures I32(i) == i <==> -TWO31 <= i < TWO31
  {
  }

  lemma IntRecoverable(enums: Enums, tag: Word, flags: Flags, k: IntKind, i: int)
    requires k.Holds(i) && Written(flags, Plain(IntV(k, i)))
    ensures var c := Choose(enums, tag, flags, IntV(k, i));
            c.Write? ==> (Store(TInt(k), OnWire(c.item)) == Done(Plain(IntV(k, i))) <==>
                          ScalarRecoverable(enums, tag, flags, IntV(k, i)))
  {
    WordRange(i);
    var c := Choose(enums, tag, flags, IntV(k, i));
    if c.Write? {
      if !k.Signed() {
        UnsignedThroughInt32(i);
        UnsignedThroughInt64(i);
      }
      match c.item
      case Integer(j) => assert j == I32(i);
      case Enumeration(u) => assert u == U32(i);
      case LongInteger(l) => assert l == I64(i);
    }
  }

  lemma OtherRecoverable(enums: Enums, tag: Word, flags: Flags, typ: GoType, s: Scalar)
    requires ScalarHasType(typ, s) && !s.IntV? && Written(flags, Plain(s))
    ensures var c := Choose(enums, tag, flags, s);
            c.Write? ==> (Store(typ, OnWire(c.item)) == Done(Plain(s)) <==> ScalarRecoverable(enums, tag, flags, s))
  {
    match s
    case TimeV(ns) => ExactItems(if flags.dateTimeExt then DateTimeExtended(ns) else DateTime(ns));
    case DurationV(d) => ExactItems(Interval(d));
    case _ =>
  }

  /** A scalar comes back exactly when its kind, tag and flags allow. */
  lemma ScalarIff(strict: bool, enums: Enums, tag: Word, flags: Flags, typ: GoType, s: Scalar)
    requires ScalarHasType(typ, s)
    requires var m := ScalarBlocks(enums, tag, flags, s); m.err.None? && AllWellFormed(m.nodes)
    ensures DecodeBlocks(strict, typ, Zero(typ), ScalarBlocks(enums, tag, flags, s).nodes) == Done(Plain(s)) <==>
            ScalarRecoverable(enums, tag, flags, s)
  {
    var c := Choose(enums, tag, flags, s);
    if c.Nothing? {
      if IsEmpty(s) {
        EmptyIsZero(typ, s);
      }
    } else {
      ChosenWrites(enums, tag, flags, s);
      DecodeScalar(strict, typ, tag, c.item);
      if s.IntV? {
        IntRecoverable(enums, tag, flags, s.kind, s.i);
      } else {
        OtherRecoverable(enums, tag, flags, typ, s);
      }
    }
  }

  lemma ChosenWrites(enums: Enums, tag: Word, flags: Flags, s: Scalar)
    ensures var c := Choose(enums, tag, flags, s);
            && (c.Nothing? <==> !Written(flags, Plain(s)))
            && (c.Write? ==> |Blocks(tag, c.item)| == 1)
  {
  }

  // ----- blocks of a value -----

  predicate AllTagged(ns: seq<Node>, tag: nat)
  {
    forall i :: 0 <= i < |ns| ==> ns[i].tag == tag
  }

  /** All blocks of a value carry its tag, there are some exactly when it is written, and narrow
      values have at most one. */
  lemma {:induction false} ValBlocks(enums: Enums, tag: Word, flags: Flags, typ: GoType, v: GoVal)
    requires HasType(typ, v) && MarshalVal(enums, tag, flags, typ, v).err.None?
    ensures var nodes := MarshalVal(enums, tag, flags, typ, v).nodes;
            && AllTagged(nodes, tag)
            && (nodes != [] <==> Written(flags, v))
            && (Narrow(v) ==> |nodes| <= 1)
    decreases v, 0
  {
    match v
    case Plain(s) => ChosenWrites(enums, tag, flags, s);
    case Ptr(p) =>
      if p.Some? && !p.value.Ptr? {
        ValBlocks(enums, tag, flags, typ.elem, p.value);
      }
    case Slice(es) => ElemBlocks(enums, tag, flags.(omitEmpty := false), typ.elem, es);
    case Record(_) =>
  }

  lemma {:induction false} ElemBlocks(enums: Enums, tag: Word, flags: Flags, typ: GoType, es: seq<GoVal>)
    requires ElemsHaveType(typ, es) && MarshalElems(enums, tag, flags, typ, es).err.None?
    ensures var nodes := MarshalElems(enums, tag, flags, typ, es).nodes;
            && AllTagged(nodes, tag)
            && (nodes != [] <==> exists i :: 0 <= i < |es| && Written(flags, es[i]))
            && ((forall i :: 0 <= i < |es| ==> Narrow(es[i])) ==> |nodes| <= |es|)
    decreases es, 1
  {
    if es == [] {
    } else {
      ValBlocks(enums, tag, flags, typ, es[0]);
      ElemBlocks(enums, tag, flags, typ, es[1..]);
      SomeElement(flags, es);
      TaggedConcat(MarshalVal(enums, tag, flags, typ, es[0]).nodes,
                   MarshalElems(enums, tag, flags, typ, es[1..]).nodes, tag);
    }
  }

  lemma TaggedConcat(a: seq<Node>, b: seq<Node>, tag: nat)
    requires AllTagged(a, tag) && AllTagged(b, tag)
    ensures AllTagged(a + b, tag)
  {
  }

  lemma SomeElement(flags: Flags, es: seq<GoVal>)
    requires es != []
    ensures (exists i :: 0 <= i < |es| && Written(flags, es[i])) <==>
            Written(flags, es[0]) || exists i :: 0 <= i < |es[1..]| && Written(flags, es[1..][i])
    ensures (forall i :: 0 <= i < |es| ==> Narrow(es[i])) ==> forall i :: 0 <= i < |es[1..]| ==> Narrow(es[1..][i])
  {
    if i :| 0 <= i < |es| && Written(flags, es[i]) {
      assert i > 0 ==> es[1..][i - 1] == es[i];
    }
    if i :| 0 <= i < |es[1..]| && Written(flags, es[1..][i]) {
      assert es[1..][i] == es[i + 1];
    }
  }

  /** One block decodes to a narrow value. */
  lemma {:induction false} DecodedNarrow(strict: bool, typ: GoType, n: Node)
    ensures var r := Unmarshal(strict, typ, Zero(typ), Render(n)); r.Done? ==> Narrow(r.v)
    decreases typ, 1
  {
    AssignedNarrow(strict, if typ.TPtr? then typ.elem else typ, n);
  }

  lemma {:induction false} AssignedNarrow(strict: bool, typ: GoType, n: Node)
    ensures var r := Assign(strict, typ, Zero(typ), Render(n)); r.Done? ==> Narrow(r.v)
    decreases typ, 0
  {
    if IsList(typ) {
      DecodedNarrow(strict, typ.elem, n);
    }
  }

  // ----- slices -----

  /** Each block decoded into a list appends one element. */
  lemma AppendElement(strict: bool, elem: GoType, acc: seq<GoVal>, n: Node)
    requires IsList(TSlice(elem)) && ElemsHaveType(elem, acc)
    ensures HasType(TSlice(elem), Slice(acc))
    ensures var w := Unmarshal(strict, elem, Zero(elem), Render(n));
            Unmarshal(strict, TSlice(elem), Slice(acc), Render(n)) ==
              if w.Done? then Done(Slice(acc + [w.v])) else w
  {
    assert HasType(TSlice(elem), Slice(acc));
    var r := Assign(strict, TSlice(elem), Slice(acc), Render(n));
    assert Unmarshal(strict, TSlice(elem), Slice(acc), Render(n)) == r;
  }

  lemma SliceStep(strict: bool, elem: GoType, acc: seq<GoVal>, n: Node, ns: seq<Node>)
    requires IsList(TSlice(elem)) && ElemsHaveType(elem, acc)
    ensures var w := Unmarshal(strict, elem, Zero(elem), Render(n));
            var r := DecodeBlocks(strict, TSlice(elem), Slice(acc), [n] + ns);
            if w.Done?
            then ElemsHaveType(elem, acc + [w.v]) &&
                 r == DecodeBlocks(strict, TSlice(elem), Slice(acc + [w.v]), ns)
            else r == w
  {
    ConcatSlices([n], ns);
    AppendElement(strict, elem, acc, n);
    var w := Unmarshal(strict, elem, Zero(elem), Render(n));
    if w.Done? {
      AppendHasType(elem, acc, w.v);
    }
  }

  /** So a list grows by one narrow element for each block. */
  ghost predicate Grown(acc: seq<GoVal>, count: nat, r: seq<GoVal>)
  {
    |r| == |acc| + count && acc <= r && forall j :: |acc| <= j < |r| ==> Narrow(r[j])
  }

  lemma {:induction false} SliceGrows(strict: bool, elem: GoType, acc: seq<GoVal>, ns: seq<Node>)
    requires IsList(TSlice(elem)) && ElemsHaveType(elem, acc)
    ensures var r := DecodeBlocks(strict, TSlice(elem), Slice(acc), ns);
            r.Done? ==> r.v.Slice? && Grown(acc, |ns|, r.v.elems)
    decreases |ns|
  {
    if ns == [] {
    } else {
      HeadTail(ns);
      SliceStep(strict, elem, acc, ns[0], ns[1..]);
      var w := Unmarshal(strict, elem, Zero(elem), Render(ns[0]));
      if w.Done? {
        SliceGrows(strict, elem, acc + [w.v], ns[1..]);
        DecodedNarrow(strict, elem, ns[0]);
        var r := DecodeBlocks(strict, TSlice(elem), Slice(acc + [w.v]), ns[1..]);
        if r.Done? {
          GrownFirst(acc, w.v, |ns| - 1, r.v.elems);
        }
      }
    }
  }

  lemma GrownFirst(acc: seq<GoVal>, w: GoVal, count: nat, r: seq<GoVal>)
    requires Narrow(w) && Grown(acc + [w], count, r)
    ensures Grown(acc, count + 1, r) && r[|acc|] == w
  {
    assert r[|acc|] == (acc + [w])[|acc|];
  }

  ghost predicate ElemsRecoverable(enums: Enums, tag: Word, flags: Flags, typ: GoType, es: seq<GoVal>)
    requires ElemsHaveType(typ, es)
  {
    forall i :: 0 <= i < |es| ==>
      Written(flags, es[i]) && Narrow(es[i]) && Recoverable(enums, tag, flags, typ, es[i])
  }

  lemma ElemsRecoverableStep(enums: Enums, tag: Word, flags: Flags, typ: GoType, es: seq<GoVal>)
    requires ElemsHaveType(typ, es) && es != []
    ensures ElemsRecoverable(enums, tag, flags, typ, es) <==>
            && Written(flags, es[0]) && Narrow(es[0]) && Recoverable(enums, tag, flags, typ, es[0])
            && ElemsRecoverable(enums, tag, flags, typ, es[1..])
  {
    HeadTail(es);
    assert forall i :: 1 <= i < |es| ==> es[i] == es[1..][i - 1];
  }

  /** If the first element writes no block, too few are left; if it writes several, it is not
      narrow. */
  lemma FirstNotOne(enums: Enums, tag: Word, flags: Flags, elem: GoType, acc: seq<GoVal>, es: seq<GoVal>)
    requires ElemsHaveType(elem, es) && es != []
    requires MarshalElems(enums, tag, flags, elem, es).err.None?
    requires |MarshalVal(enums, tag, flags, elem, es[0]).nodes| != 1
    ensures !Grown(acc, |MarshalElems(enums, tag, flags, elem, es).nodes|, acc + es)
  {
    ValBlocks(enums, tag, flags, elem, es[0]);
    ElemBlocks(enums, tag, flags, elem, es[1..]);
    if Grown(acc, |MarshalElems(enums, tag, flags, elem, es).nodes|, acc + es) {
      forall i | 0 <= i < |es|
        ensures Narrow(es[i])
      {
        assert (acc + es)[|acc| + i] == es[i];
      }
      SomeElement(flags, es);
    }
  }

  /** A list comes back exactly when every element writes one block and comes back. */
  lemma {:induction false} SliceIff(strict: bool, enums: Enums, tag: Word, flags: Flags, elem: GoType,
                                    acc: seq<GoVal>, es: seq<GoVal>)
    requires IsList(TSlice(elem)) && ElemsHaveType(elem, acc) && ElemsHaveType(elem, es)
    requires forall i :: 0 <= i < |es| ==> Routable(elem, es[i])
    requires var m := MarshalElems(enums, tag, flags, elem, es); m.err.None? && AllWellFormed(m.nodes)
    ensures ElemsRecoverable(enums, tag, flags, elem, es) <==>
            (DecodeBlocks(strict, TSlice(elem), Slice(acc), MarshalElems(enums, tag, flags, elem, es).nodes)
             == Done(Slice(acc + es)))
    decreases es, 1
  {
    if es == [] {
      assert acc + es == acc;
    } else {
      var first := MarshalVal(enums, tag, flags, elem, es[0]).nodes;
      var rest := MarshalElems(enums, tag, flags, elem, es[1..]).nodes;
      ElemsRecoverableStep(enums, tag, flags, elem, es);
      ValBlocks(enums, tag, flags, elem, es[0]);
      if |first| == 1 {
        AllWellFormedConcat(first, rest);
        SliceFirst(strict, enums, tag, flags, elem, acc, es);
      } else {
        SliceGrows(strict, elem, acc, first + rest);
        FirstNotOne(enums, tag, flags, elem, acc, es);
      }
    }
  }

  lemma {:induction false} SliceFirst(strict: bool, enums: Enums, tag: Word, flags: Flags, elem: GoType,
                                      acc: seq<GoVal>, es: seq<GoVal>)
    requires IsList(TSlice(elem)) && ElemsHaveType(elem, acc) && ElemsHaveType(elem, es) && es != []
    requires forall i :: 0 <= i < |es| ==> Routable(elem, es[i])
    requires var m := MarshalElems(enums, tag, flags, elem, es); m.err.None? && AllWellFormed(m.nodes)
    requires var first := MarshalVal(enums, tag, flags, elem, es[0]); first.err.None? && |first.nodes| == 1
    requires AllWellFormed(MarshalVal(enums, tag, flags, elem, es[0]).nodes)
    requires AllWellFormed(MarshalElems(enums, tag, flags, elem, es[1..]).nodes)
    ensures (Narrow(es[0]) && Recoverable(enums, tag, flags, elem, es[0])
             && ElemsRecoverable(enums, tag, flags, elem, es[1..])) <==>
            (DecodeBlocks(strict, TSlice(elem), Slice(acc), MarshalElems(enums, tag, flags, elem, es).nodes)
             == Done(Slice(acc + es)))
    decreases es, 0
  {
    var first := MarshalVal(enums, tag, flags, elem, es[0]).nodes;
    var rest := MarshalElems(enums, tag, flags, elem, es[1..]).nodes;
    assert first == [first[0]];
    var w := Unmarshal(strict, elem, Zero(elem), Render(first[0]));
    DecodeOne(strict, elem, Zero(elem), first[0]);
    ValIff(strict, enums, tag, flags, elem, es[0]);
    SliceStep(strict, elem, acc, first[0], rest);
    TakeFirst(acc, es);
    if w.Done? {
      DecodedNarrow(strict, elem, first[0]);
      SliceGrows(strict, elem, acc + [w.v], rest);
      if w.v == es[0] {
        SliceIff(strict, enums, tag, flags, elem, acc + [w.v], es[1..]);
      } else {
        assert (acc + [w.v])[|acc|] != (acc + es)[|acc|];
      }
    }
  }

  // ----- fields -----

  lemma {:induction false} RoutedConcat(fields: seq<Field>, a: seq<Node>, b: seq<Node>, i: nat)
    ensures Routed(fields, a + b, i) == Routed(fields, a, i) + Routed(fields, b, i)
  {
    if a == [] {
      assert a + b == b;
    } else {
      assert (a + b)[1..] == a[1..] + b;
      RoutedConcat(fields, a[1..], b, i);
      var first := if Route(fields, a[0].tag) == Some(i) then [a[0]] else [];
      ConcatAssociative(first, Routed(fields, a[1..], i), Routed(fields, b, i));
    }
  }

  lemma {:induction false} RoutedTogether(fields: seq<Field>, ns: seq<Node>, k: nat, i: nat)
    requires k < |fields| && AllTagged(ns, fields[k].tag) && Route(fields, fields[k].tag) == Some(k)
    ensures Routed(fields, ns, i) == if i == k then ns else []
  {
    if ns == [] {
    } else {
      RoutedTogether(fields, ns[1..], k, i);
      HeadTail(ns);
    }
  }

  ghost predicate FieldsRoutable(fields: seq<Field>, vs: seq<GoVal>)
    requires |fields| == |vs|
  {
    forall i :: 0 <= i < |vs| ==>
      Written(fields[i].flags, vs[i]) ==> Route(fields, fields[i].tag) == Some(i)
  }

  ghost function FieldNodes(enums: Enums, fields: seq<Field>, vs: seq<GoVal>, i: nat): Marshaled
    requires FieldsHaveType(fields, vs) && i < |fields|
  {
    MarshalVal(enums, fields[i].tag, fields[i].flags, fields[i].typ, vs[i])
  }

  lemma FieldsFrom(enums: Enums, fields: seq<Field>, vs: seq<GoVal>, k: nat)
    requires FieldsHaveType(fields, vs) && k < |vs|
    ensures MarshalFields(enums, fields[k..], vs[k..]) ==
            Then(FieldNodes(enums, fields, vs, k), MarshalFields(enums, fields[k + 1..], vs[k + 1..]))
  {
    assert fields[k..][0] == fields[k] && vs[k..][0] == vs[k];
    assert fields[k..][1..] == fields[k + 1..] && vs[k..][1..] == vs[k + 1..];
  }

  /** The blocks of field `k` all go to field `k`. */
  lemma OwnBlocks(enums: Enums, fields: seq<Field>, vs: seq<GoVal>, k: nat, i: nat)
    requires FieldsHaveType(fields, vs) && FieldsRoutable(fields, vs) && k < |vs|
    requires FieldNodes(enums, fields, vs, k).err.None?
    ensures var ns := FieldNodes(enums, fields, vs, k).nodes;
            AllRouted(fields, ns) && Routed(fields, ns, i) == if i == k then ns else []
  {
    ValBlocks(enums, fields[k].tag, fields[k].flags, fields[k].typ, vs[k]);
    if FieldNodes(enums, fields, vs, k).nodes != [] {
      RoutedTogether(fields, FieldNodes(enums, fields, vs, k).nodes, k, i);
    }
  }

  lemma AllRoutedConcat(fields: seq<Field>, a: seq<Node>, b: seq<Node>)
    requires AllRouted(fields, a) && AllRouted(fields, b)
    ensures AllRouted(fields, a + b)
  {
  }

  /** The blocks of the fields from `k` on all have a destination. */
  lemma {:induction false} FieldsRouted(enums: Enums, fields: seq<Field>, vs: seq<GoVal>, k: nat)
    requires FieldsHaveType(fields, vs) && FieldsRoutable(fields, vs) && k <= |vs|
    requires MarshalFields(enums, fields[k..], vs[k..]).err.None?
    ensures AllRouted(fields, MarshalFields(enums, fields[k..], vs[k..]).nodes)
    decreases |vs| - k
  {
    if k == |vs| {
    } else {
      FieldsFrom(enums, fields, vs, k);
      FieldsRouted(enums, fields, vs, k + 1);
      OwnBlocks(enums, fields, vs, k, k);
      AllRoutedConcat(fields, FieldNodes(enums, fields, vs, k).nodes,
                      MarshalFields(enums, fields[k + 1..], vs[k + 1..]).nodes);
    }
  }

  lemma RoutedTwo(fields: seq<Field>, a: seq<Node>, b: seq<Node>, k: nat, i: nat, own: seq<Node>)
    requires Routed(fields, a, i) == if i == k then a else []
    requires Routed(fields, b, i) == if i > k then own else []
    ensures Routed(fields, a + b, i) == if i == k then a else if i > k then own else []
  {
    RoutedConcat(fields, a, b, i);
    assert a + [] == a && [] + own == own;
  }

  /** And each field gets back exactly its own. */
  lemma {:induction false} RoutedFields(enums: Enums, fields: seq<Field>, vs: seq<GoVal>, k: nat, i: nat)
    requires FieldsHaveType(fields, vs) && FieldsRoutable(fields, vs) && k <= |vs| && i < |vs|
    requires MarshalFields(enums, fields[k..], vs[k..]).err.None?
    ensures Routed(fields, MarshalFields(enums, fields[k..], vs[k..]).nodes, i) ==
            if i >= k then FieldNodes(enums, fields, vs, i).nodes else []
    ensures i >= k ==> FieldNodes(enums, fields, vs, i).err.None?
    decreases |vs| - k
  {
    if k == |vs| {
    } else {
      var a, b := FieldNodes(enums, fields, vs, k).nodes, MarshalFields(enums, fields[k + 1..], vs[k + 1..]).nodes;
      FieldsFrom(enums, fields, vs, k);
      RoutedFields(enums, fields, vs, k + 1, i);
      OwnBlocks(enums, fields, vs, k, i);
      RoutedTwo(fields, a, b, k, i, FieldNodes(enums, fields, vs, i).nodes);
    }
  }

  lemma {:induction false} FieldWellFormed(enums: Enums, fields: seq<Field>, vs: seq<GoVal>, i: nat)
    requires FieldsHaveType(fields, vs) && i < |vs|
    requires var m := MarshalFields(enums, fields, vs); m.err.None? && AllWellFormed(m.nodes)
    ensures AllWellFormed(FieldNodes(enums, fields, vs, i).nodes)
    decreases vs
  {
    var f := fields[0];
    var a := MarshalVal(enums, f.tag, f.flags, f.typ, vs[0]).nodes;
    var b := MarshalFields(enums, fields[1..], vs[1..]).nodes;
    AllWellFormedConcat(a, b);
    if i == 0 {
    } else {
      FieldWellFormed(enums, fields[1..], vs[1..], i - 1);
    }
  }

  /** Any encoded struct comes back exactly when each field does from the blocks that are led to it,
      its own or not, and, with extra values disallowed, every block is led somewhere. */
  lemma StructDecodes(strict: bool, enums: Enums, tag: Word, fields: seq<Field>, vs: seq<GoVal>)
    requires InfoOk(TStruct(fields)) && FieldsHaveType(fields, vs)
    requires MarshalFields(enums, fields, vs).err.None?
    requires WellFormed(Struct(tag, MarshalFields(enums, fields, vs).nodes))
    ensures var typ, ns := TStruct(fields), MarshalFields(enums, fields, vs).nodes;
            Unmarshal(strict, typ, Zero(typ), Render(Struct(tag, ns))) == Done(Record(vs)) <==>
            (strict ==> AllRouted(fields, ns)) &&
            forall i :: 0 <= i < |fields| ==>
              DecodeBlocks(strict, fields[i].typ, Zero(fields[i].typ), Routed(fields, ns, i)) == Done(vs[i])
  {
    var typ := TStruct(fields);
    var ns := MarshalFields(enums, fields, vs).nodes;
    var n := Struct(tag, ns);
    var zeros := Zero(typ).vals;
    ReadBack(n, []);
    assert Render(n) + [] == Render(n);
    assert ValueStructure(Render(n)) == AsNext(RenderAll(ns));
    StructUnmarshal(strict, fields, zeros, Render(n));
    Dispatch(strict, fields, zeros, ns, vs);
  }

  /** Where each field is led its own blocks, it decodes from those. */
  lemma OwnBlocksDecode(strict: bool, enums: Enums, tag: Word, fields: seq<Field>, vs: seq<GoVal>)
    requires InfoOk(TStruct(fields)) && FieldsHaveType(fields, vs) && FieldsRoutable(fields, vs)
    requires MarshalFields(enums, fields, vs).err.None?
    requires WellFormed(Struct(tag, MarshalFields(enums, fields, vs).nodes))
    ensures var typ, ns := TStruct(fields), MarshalFields(enums, fields, vs).nodes;
            Unmarshal(strict, typ, Zero(typ), Render(Struct(tag, ns))) == Done(Record(vs)) <==>
            forall i :: 0 <= i < |fields| ==>
              DecodeBlocks(strict, fields[i].typ, Zero(fields[i].typ), FieldNodes(enums, fields, vs, i).nodes) == Done(vs[i])
  {
    StructDecodes(strict, enums, tag, fields, vs);
    assert fields[0..] == fields && vs[0..] == vs;
    FieldsRouted(enums, fields, vs, 0);
    forall i | 0 <= i < |fields|
      ensures Routed(fields, MarshalFields(enums, fields, vs).nodes, i) == FieldNodes(enums, fields, vs, i).nodes
    {
      RoutedFields(enums, fields, vs, 0, i);
    }
  }

  // ----- pointers -----

  lemma PointerStep(strict: bool, elem: GoType, cur: Option<GoVal>, n: Node)
    requires !elem.TPtr? && HasType(TPtr(elem), Ptr(cur))
    ensures HasType(elem, if cur.None? then Zero(elem) else cur.value)
    ensures Unmarshal(strict, TPtr(elem), Ptr(cur), Render(n)) ==
              match Unmarshal(strict, elem, if cur.None? then Zero(elem) else cur.value, Render(n))
              case Done(w) => Done(Ptr(Some(w)))
              case other => other
  {
  }

  /** Blocks decoded through a pointer are decoded into its target. */
  lemma {:induction false} PointerDecodes(strict: bool, elem: GoType, w: GoVal, ns: seq<Node>)
    requires !elem.TPtr? && HasType(elem, w)
    ensures HasType(TPtr(elem), Ptr(Some(w)))
    ensures DecodeBlocks(strict, TPtr(elem), Ptr(Some(w)), ns) ==
              match DecodeBlocks(strict, elem, w, ns)
              case Done(x) => Done(Ptr(Some(x)))
              case other => other
    decreases |ns|
  {
    assert HasType(TPtr(elem), Ptr(Some(w)));
    if ns == [] {
    } else {
      PointerStep(strict, elem, Some(w), ns[0]);
      var r := Unmarshal(strict, elem, w, Render(ns[0]));
      if r.Done? {
        PointerDecodes(strict, elem, r.v, ns[1..]);
      }
    }
  }

  /** A nil pointer starts from the zero value. */
  lemma PointerStarts(strict: bool, elem: GoType, ns: seq<Node>)
    requires !elem.TPtr? && ns != []
    ensures HasType(TPtr(elem), Ptr(Some(Zero(elem))))
    ensures DecodeBlocks(strict, TPtr(elem), Ptr(None), ns) ==
            DecodeBlocks(strict, TPtr(elem), Ptr(Some(Zero(elem))), ns)
  {
    assert HasType(TPtr(elem), Ptr(Some(Zero(elem))));
    PointerStep(strict, elem, None, ns[0]);
    PointerStep(strict, elem, Some(Zero(elem)), ns[0]);
  }

  // ----- all values -----

  lemma {:induction false} ValIff(strict: bool, enums: Enums, tag: Word, flags: Flags, typ: GoType, v: GoVal)
    requires HasType(typ, v) && Routable(typ, v)
    requires var m := MarshalVal(enums, tag, flags, typ, v); m.err.None? && AllWellFormed(m.nodes)
    ensures DecodeBlocks(strict, typ, Zero(typ), MarshalVal(enums, tag, flags, typ, v).nodes) == Done(v) <==>
            Recoverable(enums, tag, flags, typ, v)
    decreases v, 0
  {
    match v
    case Plain(s) => ScalarIff(strict, enums, tag, flags, typ, s);
    case Ptr(p) =>
      if p.Some? {
        PtrIff(strict, enums, tag, flags, typ, p.value);
      }
    case Slice(es) => WholeSliceIff(strict, enums, tag, flags, typ, es);
    case Record(vs) => RecordIff(strict, enums, tag, flags, typ, vs);
  }

  lemma SliceRecoverable(enums: Enums, tag: Word, flags: Flags, typ: GoType, es: seq<GoVal>)
    requires IsList(typ) && ElemsHaveType(typ.elem, es)
    ensures HasType(typ, Slice(es))
    ensures Recoverable(enums, tag, flags, typ, Slice(es)) <==>
            ElemsRecoverable(enums, tag, flags.(omitEmpty := false), typ.elem, es)
  {
    assert HasType(typ, Slice(es));
  }

  lemma {:induction false} WholeSliceIff(strict: bool, enums: Enums, tag: Word, flags: Flags, typ: GoType, es: seq<GoVal>)
    requires IsList(typ) && ElemsHaveType(typ.elem, es)
    requires forall i :: 0 <= i < |es| ==> Routable(typ.elem, es[i])
    requires var m := MarshalVal(enums, tag, flags, typ, Slice(es)); m.err.None? && AllWellFormed(m.nodes)
    ensures Recoverable(enums, tag, flags, typ, Slice(es)) <==>
            (DecodeBlocks(strict, typ, Zero(typ), MarshalVal(enums, tag, flags, typ, Slice(es)).nodes)
             == Done(Slice(es)))
    decreases es, 2
  {
    var each := flags.(omitEmpty := false);
    SliceIff(strict, enums, tag, each, typ.elem, [], es);
    assert [] + es == es;
    SliceRecoverable(enums, tag, flags, typ, es);
  }

  lemma {:induction false} PtrIff(strict: bool, enums: Enums, tag: Word, flags: Flags, typ: GoType, w: GoVal)
    requires HasType(typ, Ptr(Some(w))) && Routable(typ.elem, w)
    requires var m := MarshalVal(enums, tag, flags, typ, Ptr(Some(w))); m.err.None? && AllWellFormed(m.nodes)
    ensures Recoverable(enums, tag, flags, typ, Ptr(Some(w))) <==>
            (DecodeBlocks(strict, typ, Ptr(None), MarshalVal(enums, tag, flags, typ, Ptr(Some(w))).nodes)
             == Done(Ptr(Some(w))))
    decreases w, 1
  {
    if !w.Ptr? {
      var nodes := MarshalVal(enums, tag, flags, typ.elem, w).nodes;
      ValBlocks(enums, tag, flags, typ.elem, w);
      if nodes != [] {
        NotPointer(typ.elem, w);
        PointerStarts(strict, typ.elem, nodes);
        PointerDecodes(strict, typ.elem, Zero(typ.elem), nodes);
        ValIff(strict, enums, tag, flags, typ.elem, w);
      }
    }
  }

  lemma NotPointer(typ: GoType, w: GoVal)
    requires HasType(typ, w) && !w.Ptr?
    ensures !typ.TPtr?
  {
  }

  lemma {:induction false} RecordIff(strict: bool, enums: Enums, tag: Word, flags: Flags, typ: GoType, vs: seq<GoVal>)
    requires typ.TStruct? && FieldsHaveType(typ.fields, vs) && FieldsRoutable(typ.fields, vs)
    requires forall i :: 0 <= i < |vs| ==> Routable(typ.fields[i].typ, vs[i])
    requires var m := MarshalVal(enums, tag, flags, typ, Record(vs)); m.err.None? && AllWellFormed(m.nodes)
    ensures Recoverable(enums, tag, flags, typ, Record(vs)) <==>
            (DecodeBlocks(strict, typ, Zero(typ), MarshalVal(enums, tag, flags, typ, Record(vs)).nodes)
             == Done(Record(vs)))
    decreases vs, 1
  {
    var fields := typ.fields;
    var ns := MarshalFields(enums, fields, vs).nodes;
    var n := Struct(tag, ns);
    assert MarshalVal(enums, tag, flags, typ, Record(vs)).nodes == [n] && WellFormed(n);
    DecodeOne(strict, typ, Zero(typ), n);
    OwnBlocksDecode(strict, enums, tag, fields, vs);
    assert fields[0..] == fields && vs[0..] == vs;
    forall i | 0 <= i < |fields|
      ensures DecodeBlocks(strict, fields[i].typ, Zero(fields[i].typ), FieldNodes(enums, fields, vs, i).nodes) == Done(vs[i])
              <==> Recoverable(enums, fields[i].tag, fields[i].flags, fields[i].typ, vs[i])
    {
      RoutedFields(enums, fields, vs, 0, i);
      FieldWellFormed(enums, fields, vs, i);
      ValIff(strict, enums, fields[i].tag, fields[i].flags, fields[i].typ, vs[i]);
    }
  }

  /** Decoding a marshaled value of any type into a zero value, whatever bytes follow and
      whether or not extra values are allowed, gives the value back exactly when it is recoverable
      and narrow, as every struct is: only the first block is read. A value that writes nothing
      must come back from nothing. */
  lemma RoundTrip(strict: bool, enums: Enums, tag: Word, typ: GoType, v: GoVal, s: seq<Byte>)
    requires HasType(typ, v) && Routable(typ, v)
    requires var m := MarshalVal(enums, tag, NO_FLAGS, typ, v); m.err.None? && AllWellFormed(m.nodes)
    requires Written(NO_FLAGS, v) || s == []
    ensures Unmarshal(strict, typ, Zero(typ), RenderAll(MarshalVal(enums, tag, NO_FLAGS, typ, v).nodes) + s) == Done(v)
            <==> Recoverable(enums, tag, NO_FLAGS, typ, v) && (Written(NO_FLAGS, v) ==> Narrow(v))
  {
    ValBlocks(enums, tag, NO_FLAGS, typ, v);
    if Written(NO_FLAGS, v) {
      FirstBlockRead(strict, enums, tag, typ, v, s);
    } else {
      ValIff(strict, enums, tag, NO_FLAGS, typ, v);
    }
  }

  lemma FirstBlockRead(strict: bool, enums: Enums, tag: Word, typ: GoType, v: GoVal, s: seq<Byte>)
    requires HasType(typ, v) && Routable(typ, v) && Written(NO_FLAGS, v)
    requires var m := MarshalVal(enums, tag, NO_FLAGS, typ, v); m.err.None? && AllWellFormed(m.nodes)
    ensures Unmarshal(strict, typ, Zero(typ), RenderAll(MarshalVal(enums, tag, NO_FLAGS, typ, v).nodes) + s) == Done(v)
            <==> Narrow(v) && Recoverable(enums, tag, NO_FLAGS, typ, v)
  {
    var nodes := MarshalVal(enums, tag, NO_FLAGS, typ, v).nodes;
    ValBlocks(enums, tag, NO_FLAGS, typ, v);
    var n, rest := nodes[0], RenderAll(nodes[1..]);
    ConcatAssociative(Render(n), rest, s);
    UnmarshalTrailing(strict, typ, Zero(typ), n, rest + s);
    DecodedNarrow(strict, typ, n);
    if Narrow(v) {
      assert nodes == [n];
      DecodeOne(strict, typ, Zero(typ), n);
      ValIff(strict, enums, tag, NO_FLAGS, typ, v);
    }
  }

  /** Unmarshal(b, &v) passes a pointer to the destination, and only that one is followed. So it gives
      back what decoding into the destination does, except that a destination that is itself a
      pointer never comes back from a written value. */
  lemma UnmarshalRoundTrip(strict: bool, enums: Enums, tag: Word, typ: GoType, v: GoVal, s: seq<Byte>)
    requires HasType(typ, v) && Routable(typ, v)
    requires var m := MarshalVal(enums, tag, NO_FLAGS, typ, v); m.err.None? && AllWellFormed(m.nodes)
    requires Written(NO_FLAGS, v) || s == []
    ensures HasType(TPtr(typ), Ptr(Some(Zero(typ))))
    ensures var b := RenderAll(MarshalVal(enums, tag, NO_FLAGS, typ, v).nodes) + s;
            Unmarshal(strict, TPtr(typ), Ptr(Some(Zero(typ))), b) == Done(Ptr(Some(v))) <==>
            Recoverable(enums, tag, NO_FLAGS, typ, v) && (Written(NO_FLAGS, v) ==> Narrow(v) && !typ.TPtr?)
  {
    assert HasType(TPtr(typ), Ptr(Some(Zero(typ))));
    ValBlocks(enums, tag, NO_FLAGS, typ, v);
    RoundTrip(strict, enums, tag, typ, v, s);
    var b := RenderAll(MarshalVal(enums, tag, NO_FLAGS, typ, v).nodes) + s;
    if typ.TPtr? {
      PointerTarget(strict, typ, Zero(typ), b);
    } else {
      EntryFollows(strict, typ, Zero(typ), b);
    }
  }

  lemma PointerTarget(strict: bool, typ: GoType, cur: GoVal, t: TTLV)
    requires typ.TPtr? && HasType(TPtr(typ), Ptr(Some(cur)))
    ensures var r := Unmarshal(strict, TPtr(typ), Ptr(Some(cur)), t);
            if |t| == 0 then r == Done(Ptr(Some(cur))) else !r.Done?
  {
  }

  lemma EntryFollows(strict: bool, typ: GoType, cur: GoVal, t: TTLV)
    requires !typ.TPtr? && HasType(TPtr(typ), Ptr(Some(cur)))
    ensures Unmarshal(strict, TPtr(typ), Ptr(Some(cur)), t) ==
              match Unmarshal(strict, typ, cur, t)
              case Done(w) => Done(Ptr(Some(w)))
              case other => other
  {
  }
}
