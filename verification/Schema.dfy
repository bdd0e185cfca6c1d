/** Marshaling Go values by their types, and routing the children of a structure to fields. */
module Schema {
  import opened Bytes
  import opened Wire
  import opened Grammar
  import opened Items
  import opened EncodeBuffer
  import opened Scalars
  import opened Trees

  datatype GoType =
    | TInt(kind: IntKind)
    | TBool
    | TString
    | TTime
    | TBig
    | TDuration
    | TSlice(elem: GoType)
    | TPtr(elem: GoType)
    | TStruct(fields: seq<Field>)

  /** A slice of bytes is one value, not a list of integers. */
  const BYTES: GoType := TSlice(TInt(Uint8))

  predicate IsList(typ: GoType)
  {
    typ.TSlice? && typ != BYTES
  }

  datatype Field = Field(tag: Word, flags: Flags, typ: GoType)

  /** Values. Nil and empty slices are not told apart, except for byte strings. */
  datatype GoVal =
    | Plain(s: Scalar)
    | Slice(elems: seq<GoVal>)
    | Ptr(target: Option<GoVal>)
    | Record(vals: seq<GoVal>)

  predicate ScalarType(typ: GoType)
  {
    !IsList(typ) && !typ.TPtr? && !typ.TStruct?
  }

  predicate ScalarHasType(typ: GoType, s: Scalar)
  {
    match typ
    case TInt(k) => s.IntV? && s.kind == k && k.Holds(s.i)
    case TBool => s.BoolV?
    case TString => s.StringV?
    case TSlice(_) => typ == BYTES && s.BytesV?
    case TTime => s.TimeV?
    case TBig => s.BigV?
    case TDuration => s.DurationV? && -TWO63 <= s.d < TWO63
    case _ => false
  }

  predicate HasType(typ: GoType, v: GoVal)
    decreases v, 0
  {
    match v
    case Plain(s) => ScalarHasType(typ, s)
    case Slice(es) => IsList(typ) && ElemsHaveType(typ.elem, es)
    case Ptr(p) => typ.TPtr? && (p.Some? ==> HasType(typ.elem, p.value))
    case Record(vs) => typ.TStruct? && FieldsHaveType(typ.fields, vs)
  }

  predicate ElemsHaveType(typ: GoType, es: seq<GoVal>)
    decreases es, 1
  {
    forall i :: 0 <= i < |es| ==> HasType(typ, es[i])
  }

  predicate FieldsHaveType(fields: seq<Field>, vs: seq<GoVal>)
    decreases vs, 1
  {
    |fields| == |vs| && forall i :: 0 <= i < |vs| ==> HasType(fields[i].typ, vs[i])
  }

  lemma AppendHasType(typ: GoType, es: seq<GoVal>, w: GoVal)
    requires ElemsHaveType(typ, es) && HasType(typ, w)
    ensures ElemsHaveType(typ, es + [w])
  {
  }

  function Zero(typ: GoType): (v: GoVal)
    ensures HasType(typ, v)
  {
    match typ
    case TInt(k) => Plain(IntV(k, 0))
    case TBool => Plain(BoolV(false))
    case TString => Plain(StringV([]))
    case TTime => Plain(TimeV(ZERO_TIME))
    case TBig => Plain(BigV(0))
    case TDuration => Plain(DurationV(0))
    case TSlice(_) => if typ == BYTES then Plain(BytesV(None)) else Slice([])
    case TPtr(_) => Ptr(None)
    case TStruct(fields) => Record(seq(|fields|, i requires 0 <= i < |fields| => Zero(fields[i].typ)))
  }

  // ----- type information: tags must not clash -----

  /** Two fields that are matched by tag have the same one. */
  ghost predicate Conflict(fields: seq<Field>)
  {
    exists i, j :: 0 <= i < j < |fields| && Clash(fields[i], fields[j])
  }

  predicate Clash(f: Field, g: Field)
  {
    !f.flags.any && !g.flags.any && f.tag != 0 && f.tag == g.tag
  }

  /** getTypeInfo succeeds: no clash here, nor in the structs among the fields. */
  ghost predicate InfoOk(typ: GoType)
  {
    typ.TStruct? ==>
      (forall i :: 0 <= i < |typ.fields| ==> InfoOk(typ.fields[i].typ)) && !Conflict(typ.fields)
  }

  /** getFieldsInfo: resolve the fields, then look for a tag seen before. */
  method GetTypeInfo(typ: GoType) returns (ok: bool)
    ensures ok == InfoOk(typ)
    decreases typ
  {
    if !typ.TStruct? {
      return true;
    }
    var fields := typ.fields;
    for i := 0 to |fields|
      invariant forall j :: 0 <= j < i ==> InfoOk(fields[j].typ)
    {
      var sub := GetTypeInfo(fields[i].typ);
      if !sub {
        return false;
      }
    }
    var names: map<Word, nat> := map[];
    for i := 0 to |fields|
      invariant forall t :: t in names ==>
        names[t] < i && !fields[names[t]].flags.any && fields[names[t]].tag == t && t != 0
      invariant forall j :: 0 <= j < i && !fields[j].flags.any && fields[j].tag != 0 ==> fields[j].tag in names
      invariant forall j, k :: 0 <= j < k < i ==> !Clash(fields[j], fields[k])
    {
      var f := fields[i];
      if !f.flags.any && f.tag != 0 {
        if f.tag in names {
          assert Clash(fields[names[f.tag]], fields[i]);
          return false;
        }
        names := names[f.tag := i];
      }
    }
    return true;
  }

  // ----- encode -----

  /** Encoder.encode: what is written for a value, and the error that stopped it. */
  ghost function MarshalVal(enums: Enums, tag: Word, flags: Flags, typ: GoType, v: GoVal): Marshaled
    requires HasType(typ, v)
    decreases v, 0
  {
    match v
    case Plain(s) => ScalarBlocks(enums, tag, flags, s)
    case Ptr(None) => Marshaled([], None)
    case Ptr(Some(w)) =>
      // only one level of pointer is followed
      if !w.Ptr? then MarshalVal(enums, tag, flags, typ.elem, w)
      else if w.target.None? then Marshaled([], None)
      else Marshaled([], Some(ErrUnsupportedType))
    case Slice(es) => MarshalElems(enums, tag, flags.(omitEmpty := false), typ.elem, es)
    case Record(vs) =>
      if !InfoOk(typ) then Marshaled([], Some(ErrTagConflict))
      else if tag == 0 then Marshaled([], Some(ErrNoTag))
      else if flags.enum || flags.bitmask then Marshaled([], Some(ErrUnsupportedEnumType))
      else
        var m := MarshalFields(enums, typ.fields, vs);
        Marshaled([Struct(tag, m.nodes)], m.err)
  }

  ghost function MarshalElems(enums: Enums, tag: Word, flags: Flags, typ: GoType, es: seq<GoVal>): Marshaled
    requires ElemsHaveType(typ, es)
    decreases es, 1
  {
    if es == [] then Marshaled([], None)
    else Then(MarshalVal(enums, tag, flags, typ, es[0]), MarshalElems(enums, tag, flags, typ, es[1..]))
  }

  ghost function MarshalFields(enums: Enums, fields: seq<Field>, vs: seq<GoVal>): Marshaled
    requires FieldsHaveType(fields, vs)
    decreases vs, 1
  {
    if vs == [] then Marshaled([], None)
    else
      var f := fields[0];
      Then(MarshalVal(enums, f.tag, f.flags, f.typ, vs[0]), MarshalFields(enums, fields[1..], vs[1..]))
  }

  lemma ThenAssociative(a: Marshaled, b: Marshaled, c: Marshaled)
    ensures Then(Then(a, b), c) == Then(a, Then(b, c))
  {
    ConcatAssociative(a.nodes, b.nodes, c.nodes);
  }

  // ----- order and errors -----

  ghost function EachElem(enums: Enums, tag: Word, flags: Flags, typ: GoType, es: seq<GoVal>): seq<Marshaled>
    requires ElemsHaveType(typ, es)
  {
    seq(|es|, i requires 0 <= i < |es| => MarshalVal(enums, tag, flags, typ, es[i]))
  }

  ghost function EachField(enums: Enums, fields: seq<Field>, vs: seq<GoVal>): seq<Marshaled>
    requires FieldsHaveType(fields, vs)
  {
    seq(|vs|, i requires 0 <= i < |vs| => MarshalVal(enums, fields[i].tag, fields[i].flags, fields[i].typ, vs[i]))
  }

  /** Elements are written in order up to the first that fails. */
  lemma {:induction false} ElemsInOrder(enums: Enums, tag: Word, flags: Flags, typ: GoType, es: seq<GoVal>)
    requires ElemsHaveType(typ, es)
    ensures InOrder(EachElem(enums, tag, flags, typ, es), MarshalElems(enums, tag, flags, typ, es))
  {
    if es == [] {
      assert NodesOf(EachElem(enums, tag, flags, typ, es)) == [];
    } else {
      var m, tail := MarshalVal(enums, tag, flags, typ, es[0]), EachElem(enums, tag, flags, typ, es[1..]);
      ElemsInOrder(enums, tag, flags, typ, es[1..]);
      OrderStep(m, tail, MarshalElems(enums, tag, flags, typ, es[1..]));
      assert EachElem(enums, tag, flags, typ, es) == [m] + tail;
    }
  }

  /** Fields are written in the order of the struct up to the first that fails. */
  lemma {:induction false} FieldsInOrder(enums: Enums, fields: seq<Field>, vs: seq<GoVal>)
    requires FieldsHaveType(fields, vs)
    ensures InOrder(EachField(enums, fields, vs), MarshalFields(enums, fields, vs))
  {
    if vs == [] {
      assert NodesOf(EachField(enums, fields, vs)) == [];
    } else {
      var f := fields[0];
      var m, tail := MarshalVal(enums, f.tag, f.flags, f.typ, vs[0]), EachField(enums, fields[1..], vs[1..]);
      FieldsInOrder(enums, fields[1..], vs[1..]);
      OrderStep(m, tail, MarshalFields(enums, fields[1..], vs[1..]));
      assert EachField(enums, fields, vs) == [m] + tail;
    }
  }

  /** A struct is one block with its tag around what its fields wrote, closed also when a field
      failed; without a tag, with clashing fields or flagged as enum or mask it writes nothing. */
  lemma StructClosed(enums: Enums, tag: Word, flags: Flags, typ: GoType, vs: seq<GoVal>)
    requires HasType(typ, Record(vs))
    ensures var m := MarshalVal(enums, tag, flags, typ, Record(vs));
            if TagsDistinct(typ) && tag != 0 && !flags.enum && !flags.bitmask then
              && |m.nodes| == 1 && m.nodes[0].Struct? && m.nodes[0].tag == tag
              && InOrder(EachField(enums, typ.fields, vs), Marshaled(m.nodes[0].children, m.err))
            else m.nodes == [] && m.err.Some?
  {
    InfoOkExact(typ);
    FieldsInOrder(enums, typ.fields, vs);
  }

  /** No struct in the type has two fields, neither marked `any`, with one nonzero tag. */
  ghost predicate TagsDistinct(typ: GoType)
  {
    typ.TStruct? ==>
      && (forall i :: 0 <= i < |typ.fields| ==> TagsDistinct(typ.fields[i].typ))
      && (forall i, j :: 0 <= i < j < |typ.fields| ==>
            typ.fields[i].flags.any || typ.fields[j].flags.any || typ.fields[i].tag == 0 ||
            typ.fields[i].tag != typ.fields[j].tag)
  }

  lemma {:induction false} InfoOkExact(typ: GoType)
    ensures InfoOk(typ) <==> TagsDistinct(typ)
  {
    if !typ.TStruct? {
    } else {
      var fields := typ.fields;
      forall i | 0 <= i < |fields|
        ensures InfoOk(fields[i].typ) <==> TagsDistinct(fields[i].typ)
      {
        InfoOkExact(fields[i].typ);
      }
      ConflictExact(fields);
    }
  }

  lemma ConflictExact(fields: seq<Field>)
    ensures Conflict(fields) <==>
            exists i, j :: 0 <= i < j < |fields| && !fields[i].flags.any && !fields[j].flags.any
                           && fields[i].tag != 0 && fields[i].tag == fields[j].tag
  {
    if i, j :| 0 <= i < j < |fields| && !fields[i].flags.any && !fields[j].flags.any
               && fields[i].tag != 0 && fields[i].tag == fields[j].tag {
      assert Clash(fields[i], fields[j]);
    }
    if i, j :| 0 <= i < j < |fields| && Clash(fields[i], fields[j]) {
      assert fields[i].tag == fields[j].tag;
    }
  }

  /** The value is marshaled without error. */
  ghost predicate Succeeds(enums: Enums, tag: Word, flags: Flags, typ: GoType, v: GoVal)
    requires HasType(typ, v)
    decreases v, 0
  {
    match v
    case Plain(s) => forall e :: !ScalarFails(enums, tag, flags, s, e)
    case Ptr(None) => true
    case Ptr(Some(w)) => if w.Ptr? then w.target.None? else Succeeds(enums, tag, flags, typ.elem, w)
    case Slice(es) => ElemsSucceed(enums, tag, flags.(omitEmpty := false), typ.elem, es)
    case Record(vs) =>
      TagsDistinct(typ) && tag != 0 && !flags.enum && !flags.bitmask && FieldsSucceed(enums, typ.fields, vs)
  }

  ghost predicate ElemsSucceed(enums: Enums, tag: Word, flags: Flags, typ: GoType, es: seq<GoVal>)
    requires ElemsHaveType(typ, es)
    decreases es, 1
  {
    es == [] || (Succeeds(enums, tag, flags, typ, es[0]) && ElemsSucceed(enums, tag, flags, typ, es[1..]))
  }

  ghost predicate FieldsSucceed(enums: Enums, fields: seq<Field>, vs: seq<GoVal>)
    requires FieldsHaveType(fields, vs)
    decreases vs, 1
  {
    vs == [] || (Succeeds(enums, fields[0].tag, fields[0].flags, fields[0].typ, vs[0]) &&
                 FieldsSucceed(enums, fields[1..], vs[1..]))
  }

  /** Marshaling the value ends with this error: that of the first element or field that fails. */
  ghost predicate Fails(enums: Enums, tag: Word, flags: Flags, typ: GoType, v: GoVal, e: MarshalError)
    requires HasType(typ, v)
    decreases v, 0
  {
    match v
    case Plain(s) => ScalarFails(enums, tag, flags, s, e)
    case Ptr(None) => false
    case Ptr(Some(w)) =>
      if w.Ptr? then w.target.Some? && e == ErrUnsupportedType else Fails(enums, tag, flags, typ.elem, w, e)
    case Slice(es) => ElemsFail(enums, tag, flags.(omitEmpty := false), typ.elem, es, e)
    case Record(vs) =>
      if !TagsDistinct(typ) then e == ErrTagConflict
      else if tag == 0 then e == ErrNoTag
      else if flags.enum || flags.bitmask then e == ErrUnsupportedEnumType
      else FieldsFail(enums, typ.fields, vs, e)
  }

  ghost predicate ElemsFail(enums: Enums, tag: Word, flags: Flags, typ: GoType, es: seq<GoVal>, e: MarshalError)
    requires ElemsHaveType(typ, es)
    decreases es, 1
  {
    es != [] && (Fails(enums, tag, flags, typ, es[0], e) ||
                 (Succeeds(enums, tag, flags, typ, es[0]) && ElemsFail(enums, tag, flags, typ, es[1..], e)))
  }

  ghost predicate FieldsFail(enums: Enums, fields: seq<Field>, vs: seq<GoVal>, e: MarshalError)
    requires FieldsHaveType(fields, vs)
    decreases vs, 1
  {
    vs != [] && (Fails(enums, fields[0].tag, fields[0].flags, fields[0].typ, vs[0], e) ||
                 (Succeeds(enums, fields[0].tag, fields[0].flags, fields[0].typ, vs[0]) &&
                  FieldsFail(enums, fields[1..], vs[1..], e)))
  }

  lemma ScalarErr(enums: Enums, tag: Word, flags: Flags, s: Scalar, e: MarshalError)
    ensures var m := ScalarBlocks(enums, tag, flags, s);
            && (m.err == Some(e) <==> ScalarFails(enums, tag, flags, s, e))
            && (m.err.None? <==> forall e' :: !ScalarFails(enums, tag, flags, s, e'))
  {
    ChooseFails(enums, tag, flags, s, e);
    var c := Choose(enums, tag, flags, s);
    if c.Fail? {
      ChooseFails(enums, tag, flags, s, c.error);
    } else {
      forall e'
        ensures !ScalarFails(enums, tag, flags, s, e')
      {
        ChooseFails(enums, tag, flags, s, e');
      }
    }
  }

  /** Exactly which values are marshaled without error, and which error the others get. */
  lemma {:induction false} MarshalErrors(enums: Enums, tag: Word, flags: Flags, typ: GoType, v: GoVal, e: MarshalError)
    requires HasType(typ, v)
    ensures MarshalVal(enums, tag, flags, typ, v).err.None? <==> Succeeds(enums, tag, flags, typ, v)
    ensures MarshalVal(enums, tag, flags, typ, v).err == Some(e) <==> Fails(enums, tag, flags, typ, v, e)
    decreases v, 0
  {
    match v
    case Plain(s) => ScalarErr(enums, tag, flags, s, e);
    case Ptr(p) =>
      if p.Some? && !p.value.Ptr? {
        MarshalErrors(enums, tag, flags, typ.elem, p.value, e);
      }
    case Slice(es) => ElemErrors(enums, tag, flags.(omitEmpty := false), typ.elem, es, e);
    case Record(vs) =>
      InfoOkExact(typ);
      FieldErrors(enums, typ.fields, vs, e);
  }

  lemma {:induction false} ElemErrors(enums: Enums, tag: Word, flags: Flags, typ: GoType, es: seq<GoVal>, e: MarshalError)
    requires ElemsHaveType(typ, es)
    ensures var m := MarshalElems(enums, tag, flags, typ, es);
            && (m.err.None? <==> ElemsSucceed(enums, tag, flags, typ, es))
            && (m.err == Some(e) <==> ElemsFail(enums, tag, flags, typ, es, e))
    decreases es, 1
  {
    if es == [] {
    } else {
      MarshalErrors(enums, tag, flags, typ, es[0], e);
      ElemErrors(enums, tag, flags, typ, es[1..], e);
    }
  }

  lemma {:induction false} FieldErrors(enums: Enums, fields: seq<Field>, vs: seq<GoVal>, e: MarshalError)
    requires FieldsHaveType(fields, vs)
    ensures var m := MarshalFields(enums, fields, vs);
            && (m.err.None? <==> FieldsSucceed(enums, fields, vs))
            && (m.err == Some(e) <==> FieldsFail(enums, fields, vs, e))
    decreases vs, 1
  {
    if vs == [] {
    } else {
      MarshalErrors(enums, fields[0].tag, fields[0].flags, fields[0].typ, vs[0], e);
      FieldErrors(enums, fields[1..], vs[1..], e);
    }
  }

  // ----- encode, imperatively -----

  lemma {:induction false} ElemsSnoc(enums: Enums, tag: Word, flags: Flags, typ: GoType, es: seq<GoVal>, k: nat)
    requires ElemsHaveType(typ, es) && k < |es|
    requires MarshalElems(enums, tag, flags, typ, es[..k]).err.None?
    ensures var m := MarshalElems(enums, tag, flags, typ, es[..k]);
            var x := MarshalVal(enums, tag, flags, typ, es[k]);
            && MarshalElems(enums, tag, flags, typ, es[..k + 1]) == Then(m, x)
            && (x.err.Some? ==> MarshalElems(enums, tag, flags, typ, es) == Then(m, x))
  {
    if k == 0 {
      assert es[..1][1..] == [];
    } else {
      assert es[..k][1..] == es[1..][..k - 1] && es[..k + 1][1..] == es[1..][..k];
      ElemsSnoc(enums, tag, flags, typ, es[1..], k - 1);
      ThenAssociative(MarshalVal(enums, tag, flags, typ, es[0]),
                      MarshalElems(enums, tag, flags, typ, es[1..][..k - 1]),
                      MarshalVal(enums, tag, flags, typ, es[k]));
    }
  }

  lemma {:induction false} FieldsSnoc(enums: Enums, fields: seq<Field>, vs: seq<GoVal>, k: nat)
    requires FieldsHaveType(fields, vs) && k < |vs|
    requires MarshalFields(enums, fields[..k], vs[..k]).err.None?
    ensures var m := MarshalFields(enums, fields[..k], vs[..k]);
            var x := MarshalVal(enums, fields[k].tag, fields[k].flags, fields[k].typ, vs[k]);
            && MarshalFields(enums, fields[..k + 1], vs[..k + 1]) == Then(m, x)
            && (x.err.Some? ==> MarshalFields(enums, fields, vs) == Then(m, x))
  {
    if k == 0 {
      assert vs[..1][1..] == [] && fields[..1][1..] == [];
    } else {
      var f := fields[0];
      assert vs[..k][1..] == vs[1..][..k - 1] && vs[..k + 1][1..] == vs[1..][..k];
      assert fields[..k][1..] == fields[1..][..k - 1] && fields[..k + 1][1..] == fields[1..][..k];
      FieldsSnoc(enums, fields[1..], vs[1..], k - 1);
      ThenAssociative(MarshalVal(enums, f.tag, f.flags, f.typ, vs[0]),
                      MarshalFields(enums, fields[1..][..k - 1], vs[1..][..k - 1]),
                      MarshalVal(enums, fields[k].tag, fields[k].flags, fields[k].typ, vs[k]));
    }
  }

  lemma {:induction false} ValAligned(enums: Enums, tag: Word, flags: Flags, typ: GoType, v: GoVal)
    requires HasType(typ, v)
    ensures AllAligned(MarshalVal(enums, tag, flags, typ, v).nodes)
    decreases v, 0
  {
    match v
    case Plain(s) =>
      var c := Choose(enums, tag, flags, s);
      if c.Write? {
        BlocksAligned(tag, c.item);
      }
    case Ptr(p) =>
      if p.Some? && !p.value.Ptr? {
        ValAligned(enums, tag, flags, typ.elem, p.value);
      }
    case Slice(es) => ElemsAligned(enums, tag, flags.(omitEmpty := false), typ.elem, es);
    case Record(vs) =>
      FieldsAligned(enums, typ.fields, vs);
      var nodes := MarshalVal(enums, tag, flags, typ, v).nodes;
      assert nodes != [] ==> Aligned(nodes[0]);
  }

  lemma {:induction false} ElemsAligned(enums: Enums, tag: Word, flags: Flags, typ: GoType, es: seq<GoVal>)
    requires ElemsHaveType(typ, es)
    ensures AllAligned(MarshalElems(enums, tag, flags, typ, es).nodes)
    decreases es, 1
  {
    if es == [] {
    } else {
      ValAligned(enums, tag, flags, typ, es[0]);
      ElemsAligned(enums, tag, flags, typ, es[1..]);
      AllAlignedConcat(MarshalVal(enums, tag, flags, typ, es[0]).nodes,
                       MarshalElems(enums, tag, flags, typ, es[1..]).nodes);
    }
  }

  lemma {:induction false} FieldsAligned(enums: Enums, fields: seq<Field>, vs: seq<GoVal>)
    requires FieldsHaveType(fields, vs)
    ensures AllAligned(MarshalFields(enums, fields, vs).nodes)
    decreases vs, 1
  {
    if vs == [] {
    } else {
      var f := fields[0];
      ValAligned(enums, f.tag, f.flags, f.typ, vs[0]);
      FieldsAligned(enums, fields[1..], vs[1..]);
      AllAlignedConcat(MarshalVal(enums, f.tag, f.flags, f.typ, vs[0]).nodes,
                       MarshalFields(enums, fields[1..], vs[1..]).nodes);
    }
  }

  /** How `encode` leaves the encoder: blocks appended to the buffer, nothing else touched. */
  twostate predicate Wrote(e: Encoder, new m: Marshaled, new err: Option<MarshalError>)
    reads e, e.encBuf
  {
    && e.encodeDepth == old(e.encodeDepth)
    && e.written == old(e.written)
    && e.encBuf.buf == old(e.encBuf.buf) + RenderAll(m.nodes)
    && err == m.err
  }

  method Encode(e: Encoder, tag: Word, flags: Flags, typ: GoType, v: GoVal) returns (err: Option<MarshalError>)
    requires HasType(typ, v)
    modifies e, e.encBuf
    ensures Wrote(e, MarshalVal(e.enums, tag, flags, typ, v), err)
    decreases v, 0
  {
    match v {
      case Plain(s) => err := e.EncodeScalar(tag, flags, s);
      case Ptr(p) =>
        if p.None? {
          return None;
        }
        if !p.value.Ptr? {
          err := Encode(e, tag, flags, typ.elem, p.value);
        } else {
          return if p.value.target.None? then None else Some(ErrUnsupportedType);
        }
      case Slice(es) => err := EncodeElems(e, tag, flags.(omitEmpty := false), typ.elem, es);
      case Record(vs) =>
        var ok := GetTypeInfo(typ);
        if !ok {
          return Some(ErrTagConflict);
        }
        if tag == 0 {
          return Some(ErrNoTag);
        }
        if flags.enum || flags.bitmask {
          return Some(ErrUnsupportedEnumType);
        }
        err := EncodeStruct(e, tag, typ.fields, vs);
    }
  }

  method EncodeElems(e: Encoder, tag: Word, flags: Flags, typ: GoType, es: seq<GoVal>) returns (err: Option<MarshalError>)
    requires ElemsHaveType(typ, es)
    modifies e, e.encBuf
    ensures Wrote(e, MarshalElems(e.enums, tag, flags, typ, es), err)
    decreases es, 1
  {
    ghost var start := e.encBuf.buf;
    for k := 0 to |es|
      invariant e.encodeDepth == old(e.encodeDepth) && e.written == old(e.written)
      invariant MarshalElems(e.enums, tag, flags, typ, es[..k]).err.None?
      invariant e.encBuf.buf == start + RenderAll(MarshalElems(e.enums, tag, flags, typ, es[..k]).nodes)
    {
      ElemsSnoc(e.enums, tag, flags, typ, es, k);
      AppendRendered(start, MarshalElems(e.enums, tag, flags, typ, es[..k]).nodes,
                     MarshalVal(e.enums, tag, flags, typ, es[k]).nodes);
      err := Encode(e, tag, flags, typ, es[k]);
      if err.Some? {
        return;
      }
    }
    assert es[..|es|] == es;
    return None;
  }

  method EncodeStruct(e: Encoder, tag: Word, fields: seq<Field>, vs: seq<GoVal>) returns (err: Option<MarshalError>)
    requires FieldsHaveType(fields, vs)
    modifies e, e.encBuf
    ensures var m := MarshalFields(e.enums, fields, vs);
            Wrote(e, Marshaled([Struct(tag, m.nodes)], m.err), err)
    decreases vs, 2
  {
    ghost var before, body := e.encBuf.buf, MarshalFields(e.enums, fields, vs).nodes;
    e.encodeDepth := e.encodeDepth + 1;
    var i := e.encBuf.Begin(tag, STRUCTURE);
    err := EncodeFields(e, fields, vs);
    FieldsAligned(e.enums, fields, vs);
    RenderAllAligned(body);
    e.encBuf.EndBlock(i, before, tag, STRUCTURE, RenderAll(body));
    RenderOne(Struct(tag, body));
    e.encodeDepth := e.encodeDepth - 1;
  }

  method EncodeFields(e: Encoder, fields: seq<Field>, vs: seq<GoVal>) returns (err: Option<MarshalError>)
    requires FieldsHaveType(fields, vs)
    modifies e, e.encBuf
    ensures Wrote(e, MarshalFields(e.enums, fields, vs), err)
    decreases vs, 1
  {
    ghost var start := e.encBuf.buf;
    for k := 0 to |vs|
      invariant e.encodeDepth == old(e.encodeDepth) && e.written == old(e.written)
      invariant MarshalFields(e.enums, fields[..k], vs[..k]).err.None?
      invariant e.encBuf.buf == start + RenderAll(MarshalFields(e.enums, fields[..k], vs[..k]).nodes)
    {
      var f := fields[k];
      FieldsSnoc(e.enums, fields, vs, k);
      AppendRendered(start, MarshalFields(e.enums, fields[..k], vs[..k]).nodes,
                     MarshalVal(e.enums, f.tag, f.flags, f.typ, vs[k]).nodes);
      err := Encode(e, f.tag, f.flags, f.typ, vs[k]);
      if err.Some? {
        return;
      }
    }
    assert vs[..|vs|] == vs && fields[..|vs|] == fields;
    return None;
  }

  /** EncodeValue: encode, then flush unless that failed. */
  method EncodeValue(e: Encoder, tag: Word, typ: GoType, v: GoVal) returns (err: Option<MarshalError>)
    requires HasType(typ, v)
    modifies e, e.encBuf
    ensures var m := MarshalVal(e.enums, tag, NO_FLAGS, typ, v);
            e.Appended(RenderAll(m.nodes), m.err.Some?) && err == m.err
  {
    ConcatAssociative(e.written, e.encBuf.buf, RenderAll(MarshalVal(e.enums, tag, NO_FLAGS, typ, v).nodes));
    err := Encode(e, tag, NO_FLAGS, typ, v);
    if err.None? {
      e.Flush();
    }
  }
}
