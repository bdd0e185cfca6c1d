/** Decoding blocks into Go values: conversion by type and the routing of children to fields. */
module Unmarshaling {
  import opened Bytes
  import opened Wire
  import opened Grammar
  import opened Items
  import opened Scalars
  import opened Schema

  datatype UnmarshalError = TypeMismatch | IntOverflow | UnknownType | TagClash | UnexpectedValue

  /** Panics are the source's run-time panics, on malformed blocks or from reflection. */
  datatype Decoded = Done(v: GoVal) | Failed(error: UnmarshalError) | Panics

  // ----- scalars -----

  function SetInt(k: IntKind, i: int): Decoded
  {
    if k.Holds(i) then Done(Plain(IntV(k, i))) else Failed(IntOverflow)
  }

  /** The switch on the block's type for a destination that is neither slice nor structure. */
  function SetScalar(typ: GoType, t: TTLV): (r: Decoded)
    ensures r.Done? ==> r.v.Plain? && ScalarHasType(typ, r.v.s)
  {
    var tt := Type(t);
    if tt == INTERVAL then
      if typ == TInt(Int64Kind) || typ == TDuration then
        if |ValueRaw(t)| < 4 then Panics
        else if typ == TDuration then Done(Plain(DurationV(ValueUint32(t) * SECOND)))
        else Done(Plain(IntV(Int64Kind, ValueUint32(t) * SECOND)))
      else Failed(TypeMismatch)
    else if tt == DATE_TIME || tt == DATE_TIME_EXTENDED then
      if typ != TTime then Failed(TypeMismatch)
      else if |ValueRaw(t)| < 8 then Panics
      else if tt == DATE_TIME then Done(Plain(TimeV(ValueLongInteger(t) * SECOND)))
      else Done(Plain(TimeV(I64(ValueLongInteger(t) * 1000))))
    else if tt == BYTE_STRING then
      if typ == BYTES then Done(Plain(BytesV(ValueByteString(t))))
      else if typ.TPtr? && typ.elem != TInt(Uint8) then Failed(TypeMismatch)
      else Panics
    else if tt == TEXT_STRING then
      if typ == TString then Done(Plain(StringV(ValueRaw(t)))) else Failed(TypeMismatch)
    else if tt == BOOLEAN then
      if typ != TBool then Failed(TypeMismatch)
      else if |ValueRaw(t)| < 8 then Panics
      else Done(Plain(BoolV(ValueBoolean(t))))
    else if tt == ENUMERATION || tt == INTEGER then
      if !typ.TInt? || typ.kind.Wide() then Failed(TypeMismatch)
      else if |ValueRaw(t)| < 4 then Panics
      else if tt == ENUMERATION then SetInt(typ.kind, ValueUint32(t))
      else if typ.kind.Signed() then SetInt(typ.kind, ValueInteger(t))
      else SetInt(typ.kind, U64(ValueInteger(t)))
    else if tt == LONG_INTEGER then
      if typ != TInt(Int64Kind) && typ != TInt(Uint64Kind) && typ != TDuration then Failed(TypeMismatch)
      else if |ValueRaw(t)| < 8 then Panics
      else if typ == TDuration then Done(Plain(DurationV(ValueLongInteger(t))))
      else if typ.kind.Signed() then SetInt(typ.kind, ValueLongInteger(t))
      else SetInt(typ.kind, U64(ValueLongInteger(t)))
    else if tt == BIG_INTEGER then
      if typ == TBig then Done(Plain(BigV(ValueBigInteger(t)))) else Failed(TypeMismatch)
    else
      Failed(if tt == STRUCTURE then TypeMismatch else UnknownType)
  }

  /** Storing an item that was read into a destination of a scalar type. */
  function Store(typ: GoType, x: Item): Decoded
  {
    match x
    case Integer(i) =>
      if !typ.TInt? || typ.kind.Wide() then Failed(TypeMismatch)
      else SetInt(typ.kind, if typ.kind.Signed() then i else U64(i))
    case Enumeration(u) =>
      if !typ.TInt? || typ.kind.Wide() then Failed(TypeMismatch) else SetInt(typ.kind, u)
    case LongInteger(l) =>
      if typ == TDuration then Done(Plain(DurationV(l)))
      else if !typ.TInt? || !typ.kind.Wide() then Failed(TypeMismatch)
      else SetInt(typ.kind, if typ.kind.Signed() then l else U64(l))
    case BigInt(n) => if typ == TBig then Done(Plain(BigV(n))) else Failed(TypeMismatch)
    case Boolean(b) => if typ == TBool then Done(Plain(BoolV(b))) else Failed(TypeMismatch)
    case TextString(s) => if typ == TString then Done(Plain(StringV(s))) else Failed(TypeMismatch)
    case ByteString(b) =>
      if typ == BYTES then Done(Plain(BytesV(b)))
      else if typ.TPtr? && typ.elem != TInt(Uint8) then Failed(TypeMismatch) else Panics
    case DateTime(ns) => if typ == TTime then Done(Plain(TimeV(ns))) else Failed(TypeMismatch)
    case DateTimeExtended(ns) => if typ == TTime then Done(Plain(TimeV(ns))) else Failed(TypeMismatch)
    case Interval(d) =>
      if typ == TDuration then Done(Plain(DurationV(d)))
      else if typ == TInt(Int64Kind) then Done(Plain(IntV(Int64Kind, d))) else Failed(TypeMismatch)
  }

  /** The switch stores the item that the block reads as, whether or not the block is valid. */
  lemma SetReadItem(typ: GoType, t: TTLV)
    requires (IsValid(t) && Type(t) != STRUCTURE) || Readable(t)
    ensures SetScalar(typ, t) == Store(typ, ReadItem(t))
  {
    if IsValid(t) {
      ScalarWidth(t);
    }
  }

  // ----- how storing a scalar ends -----

  datatype Verdict = Accept | Reject(error: UnmarshalError) | Panic

  function VerdictOf(r: Decoded): Verdict
  {
    match r
    case Done(_) => Accept
    case Failed(e) => Reject(e)
    case Panics => Panic
  }

  /** Storing a ByteString in anything but a byte slice panics, except that a pointer is told
      apart first, unless it points to a byte. */
  predicate BytesPanic(typ: GoType)
  {
    typ != BYTES && !(typ.TPtr? && typ.elem != TInt(Uint8))
  }

  /** The destinations of blocks of a scalar type. */
  predicate Suits(d: GoType, typ: Byte)
  {
    if typ == INTEGER || typ == ENUMERATION then d.TInt? && !d.kind.Wide()
    else if typ == LONG_INTEGER then (d.TInt? && d.kind.Wide()) || d == TDuration
    else if typ == INTERVAL then d == TInt(Int64Kind) || d == TDuration
    else if typ == DATE_TIME || typ == DATE_TIME_EXTENDED then d == TTime
    else if typ == BIG_INTEGER then d == TBig
    else if typ == BOOLEAN then d == TBool
    else if typ == TEXT_STRING then d == TString
    else typ == BYTE_STRING && d == BYTES
  }

  /** The destination is too small for the number; negative ones reach unsigned kinds as large. */
  predicate Overflows(d: GoType, t: TTLV)
    requires d.TInt? && Readable(t) && ShortType(Type(t))
  {
    !d.kind.Holds(if Type(t) == ENUMERATION then ValueUint32(t)
                  else if d.kind.Signed() then ValueInteger(t) else U64(ValueInteger(t)))
  }

  /** How storing a scalar block of any bytes ends, told from the destination, the block's type and
      the length of its value segment, and for small integer kinds from the number. */
  function ScalarCheck(d: GoType, t: TTLV): Verdict
  {
    if !KnownType(Type(t)) then Reject(UnknownType)
    else if Type(t) == BYTE_STRING && BytesPanic(d) then Panic
    else if !Suits(d, Type(t)) then Reject(TypeMismatch)
    else if !Readable(t) then Panic
    else if (Type(t) == INTEGER || Type(t) == ENUMERATION) && Overflows(d, t) then Reject(IntOverflow)
    else Accept
  }

  lemma ScalarVerdict(d: GoType, t: TTLV)
    requires Type(t) != STRUCTURE
    ensures VerdictOf(SetScalar(d, t)) == ScalarCheck(d, t)
  {
  }

  /** A scalar block that does not hold the bytes its type needs is an error where it does not suit
      the destination, and a panic where it does. */
  lemma UnreadableFails(typ: GoType, t: TTLV)
    requires Type(t) != STRUCTURE && !Readable(t)
    ensures SetScalar(typ, t) == if !KnownType(Type(t)) then Failed(UnknownType)
                                 else if Suits(typ, Type(t)) then Panics else Failed(TypeMismatch)
  {
  }

  // ----- routing -----

  /** The field that takes a child: the one with its tag, else the first `any` field. */
  function Route(fields: seq<Field>, tag: nat): Option<nat>
  {
    var i := FirstTagged(fields, tag);
    if i < |fields| then Some(i)
    else
      var a := FirstAny(fields);
      if a < |fields| then Some(a) else None
  }

  function FirstTagged(fields: seq<Field>, tag: nat): (i: nat)
    ensures i <= |fields|
    ensures i < |fields| ==> !fields[i].flags.any && fields[i].tag == tag
    ensures forall j :: 0 <= j < i ==> fields[j].flags.any || fields[j].tag != tag
  {
    if fields == [] || (!fields[0].flags.any && fields[0].tag == tag) then 0
    else 1 + FirstTagged(fields[1..], tag)
  }

  function FirstAny(fields: seq<Field>): (i: nat)
    ensures i <= |fields|
    ensures i < |fields| ==> fields[i].flags.any
    ensures forall j :: 0 <= j < i ==> !fields[j].flags.any
  {
    if fields == [] || fields[0].flags.any then 0 else 1 + FirstAny(fields[1..])
  }

  lemma RouteUnique(fields: seq<Field>, tag: nat, i: nat)
    ensures i < |fields| && !fields[i].flags.any && fields[i].tag == tag &&
            (forall j :: 0 <= j < i ==> fields[j].flags.any || fields[j].tag != tag) ==>
            Route(fields, tag) == Some(i)
    ensures i < |fields| && fields[i].flags.any && (forall j :: 0 <= j < i ==> !fields[j].flags.any) &&
            (forall j :: 0 <= j < |fields| ==> fields[j].flags.any || fields[j].tag != tag) ==>
            Route(fields, tag) == Some(i)
  {
  }

  /** The tag-conflict check makes the choice independent of field order: a child with a tag goes
      to the field that has it, of which there is at most one, else to the first `any` field. */
  lemma RouteIff(fields: seq<Field>, tag: nat, i: nat)
    requires !Conflict(fields) && tag != 0
    ensures Route(fields, tag) == Some(i) <==>
            i < |fields| &&
            if fields[i].flags.any
            then (forall j :: 0 <= j < i ==> !fields[j].flags.any) &&
                 (forall j :: 0 <= j < |fields| ==> fields[j].flags.any || fields[j].tag != tag)
            else fields[i].tag == tag
  {
    var k := FirstTagged(fields, tag);
    if i < |fields| && fields[i].flags.any {
      RouteUnique(fields, tag, i);
    } else if i < |fields| && k < |fields| && fields[i].tag == tag {
      OneField(fields, i, k);
    }
  }

  lemma OneField(fields: seq<Field>, i: nat, k: nat)
    requires i < |fields| && k < |fields| && !fields[i].flags.any && !fields[k].flags.any
    requires fields[i].tag == fields[k].tag != 0
    ensures i == k || Conflict(fields)
  {
    if i < k {
      assert Clash(fields[i], fields[k]);
    } else if k < i {
      assert Clash(fields[k], fields[i]);
    }
  }

  /** So the tag of a field leads to it. */
  lemma RouteOwn(fields: seq<Field>, k: nat)
    requires !Conflict(fields) && k < |fields| && !fields[k].flags.any && fields[k].tag != 0
    ensures Route(fields, fields[k].tag) == Some(k)
  {
    RouteIff(fields, fields[k].tag, k);
  }

  /** The search in unmarshalStructure: remember the first `any` field, stop at a tag match. */
  method FindField(fields: seq<Field>, tag: nat) returns (fldIdx: int)
    ensures match Route(fields, tag)
            case Some(i) => fldIdx == i
            case None => fldIdx == -1
  {
    fldIdx := -1;
    for i := 0 to |fields|
      invariant FirstTagged(fields, tag) >= i
      invariant if FirstAny(fields) < i then fldIdx == FirstAny(fields) else fldIdx == -1
    {
      if fields[i].flags.any {
        if fldIdx == -1 {
          fldIdx := i;
        }
      } else if fields[i].tag == tag {
        fldIdx := i;
        return;
      }
    }
  }

  // ----- unmarshal -----

  /** Decoder.unmarshal into a destination holding `cur`. */
  ghost function Unmarshal(strict: bool, typ: GoType, cur: GoVal, t: TTLV): (r: Decoded)
    requires HasType(typ, cur)
    ensures r.Done? ==> HasType(typ, r.v)
    decreases |t|, typ, 1
  {
    if |t| == 0 then Done(cur)
    else if typ.TPtr? then
      // one level of pointer is followed, allocating its target if needed
      var base := if cur.target.None? then Zero(typ.elem) else cur.target.value;
      match Assign(strict, typ.elem, base, t)
      case Done(w) => Done(Ptr(Some(w)))
      case other => other
    else Assign(strict, typ, cur, t)
  }

  /** Structs of the standard library, which have no fields to decode into. */
  predicate Opaque(typ: GoType)
  {
    typ == TTime || typ == TBig
  }

  ghost function Assign(strict: bool, typ: GoType, cur: GoVal, t: TTLV): (r: Decoded)
    requires HasType(typ, cur)
    ensures r.Done? ==> HasType(typ, r.v)
    decreases |t|, typ, 0
  {
    if IsList(typ) then
      // append an element
      match Unmarshal(strict, typ.elem, Zero(typ.elem), t)
      case Done(w) =>
        AppendHasType(typ.elem, cur.elems, w);
        Done(Slice(cur.elems + [w]))
      case other => other
    else if Type(t) == STRUCTURE && typ.TStruct? then
      if !InfoOk(typ) then Failed(TagClash)
      else UnmarshalChildren(strict, typ.fields, cur.vals, ValueStructure(t))
    else if Type(t) == STRUCTURE && Opaque(typ) then
      match UnmarshalChildren(strict, [], [], ValueStructure(t))
      case Done(_) => Done(cur)
      case other => other
    else
      SetScalar(typ, t)
  }

  ghost function UnmarshalChildren(strict: bool, fields: seq<Field>, vals: seq<GoVal>, n: Option<TTLV>): (r: Decoded)
    requires FieldsHaveType(fields, vals)
    ensures r.Done? ==> r.v.Record? && FieldsHaveType(fields, r.v.vals)
    decreases if n.None? then 0 else |n.value| + 1
  {
    if n.None? then Done(Record(vals))
    else
      match Route(fields, Tag(n.value))
      case None =>
        if strict then Failed(UnexpectedValue) else UnmarshalChildren(strict, fields, vals, Next(n.value))
      case Some(i) =>
        match Unmarshal(strict, fields[i].typ, vals[i], n.value)
        case Done(w) => UnmarshalChildren(strict, fields, vals[i := w], Next(n.value))
        case other => other
  }

  method UnmarshalValue(strict: bool, typ: GoType, cur: GoVal, t: TTLV) returns (r: Decoded)
    requires HasType(typ, cur)
    ensures r == Unmarshal(strict, typ, cur, t)
    decreases |t|, typ, 2
  {
    if |t| == 0 {
      return Done(cur);
    }
    if typ.TPtr? {
      var base := if cur.target.None? then Zero(typ.elem) else cur.target.value;
      r := AssignValue(strict, typ.elem, base, t);
      if r.Done? {
        r := Done(Ptr(Some(r.v)));
      }
    } else {
      r := AssignValue(strict, typ, cur, t);
    }
  }

  method AssignValue(strict: bool, typ: GoType, cur: GoVal, t: TTLV) returns (r: Decoded)
    requires HasType(typ, cur)
    ensures r == Assign(strict, typ, cur, t)
    decreases |t|, typ, 1
  {
    if IsList(typ) {
      r := UnmarshalValue(strict, typ.elem, Zero(typ.elem), t);
      if r.Done? {
        r := Done(Slice(cur.elems + [r.v]));
      }
    } else if Type(t) == STRUCTURE && typ.TStruct? {
      var ok := GetTypeInfo(typ);
      if !ok {
        return Failed(TagClash);
      }
      r := UnmarshalStructure(strict, typ, typ.fields, cur.vals, t);
    } else if Type(t) == STRUCTURE && Opaque(typ) {
      r := UnmarshalStructure(strict, typ, [], [], t);
      if r.Done? {
        r := Done(cur);
      }
    } else {
      r := SetScalar(typ, t);
    }
  }

  /** unmarshalStructure: each child in turn goes to the field found for its tag. */
  method UnmarshalStructure(strict: bool, ghost typ: GoType, fields: seq<Field>, init: seq<GoVal>, t: TTLV)
    returns (r: Decoded)
    requires FieldsHaveType(fields, init) && |t| > 0
    ensures r == UnmarshalChildren(strict, fields, init, ValueStructure(t))
    decreases |t|, typ, 0
  {
    var vals := init;
    var n := ValueStructure(t);
    while n.Some?
      invariant FieldsHaveType(fields, vals)
      invariant n.Some? ==> |n.value| < |t|
      invariant UnmarshalChildren(strict, fields, vals, n) == UnmarshalChildren(strict, fields, init, ValueStructure(t))
      decreases if n.None? then 0 else |n.value| + 1
    {
      var fldIdx := FindField(fields, Tag(n.value));
      if fldIdx > -1 {
        var w := UnmarshalValue(strict, fields[fldIdx].typ, vals[fldIdx], n.value);
        if !w.Done? {
          return w;
        }
        vals := vals[fldIdx := w.v];
      } else if strict {
        return Failed(UnexpectedValue);
      }
      n := Next(n.value);
    }
    return Done(Record(vals));
  }

  // ----- dispatch -----

  /** Bytes after a block do not change what it decodes to. */
  lemma {:induction false} UnmarshalTrailing(strict: bool, typ: GoType, cur: GoVal, n: Node, s: seq<Byte>)
    requires HasType(typ, cur) && WellFormed(n)
    ensures Unmarshal(strict, typ, cur, Render(n) + s) == Unmarshal(strict, typ, cur, Render(n))
    decreases typ, 1
  {
    if typ.TPtr? {
      var base := if cur.target.None? then Zero(typ.elem) else cur.target.value;
      AssignTrailing(strict, typ.elem, base, n, s);
    } else {
      AssignTrailing(strict, typ, cur, n, s);
    }
  }

  lemma {:induction false} AssignTrailing(strict: bool, typ: GoType, cur: GoVal, n: Node, s: seq<Byte>)
    requires HasType(typ, cur) && WellFormed(n)
    ensures Assign(strict, typ, cur, Render(n) + s) == Assign(strict, typ, cur, Render(n))
    decreases typ, 0
  {
    if IsList(typ) {
      UnmarshalTrailing(strict, typ.elem, Zero(typ.elem), n, s);
    } else {
      ReadBack(n, []);
      assert Render(n) + [] == Render(n);
      TrailingBytes(Render(n), s);
      SameScalar(typ, Render(n) + s, Render(n));
    }
  }

  lemma SameScalar(typ: GoType, t: TTLV, t': TTLV)
    requires Type(t) == Type(t') && ValueRaw(t) == ValueRaw(t') && Len(t) == Len(t')
    ensures SetScalar(typ, t) == SetScalar(typ, t')
  {
  }

  /** The children that go to field `i`, in wire order. */
  function Routed(fields: seq<Field>, ns: seq<Node>, i: nat): seq<Node>
  {
    if ns == [] then []
    else (if Route(fields, ns[0].tag) == Some(i) then [ns[0]] else []) + Routed(fields, ns[1..], i)
  }

  /** Decoding blocks one after another into the same destination. */
  ghost function DecodeBlocks(strict: bool, typ: GoType, cur: GoVal, ns: seq<Node>): (r: Decoded)
    requires HasType(typ, cur)
    ensures r.Done? ==> HasType(typ, r.v)
    decreases |ns|
  {
    if ns == [] then Done(cur)
    else
      match Unmarshal(strict, typ, cur, Render(ns[0]))
      case Done(w) => DecodeBlocks(strict, typ, w, ns[1..])
      case other => other
  }

  function AsNext(b: seq<Byte>): Option<TTLV>
  {
    if b == [] then None else Some(b)
  }

  lemma StepChildren(strict: bool, fields: seq<Field>, vals: seq<GoVal>, n: Node, rest: seq<Byte>)
    requires FieldsHaveType(fields, vals) && WellFormed(n)
    ensures var r := UnmarshalChildren(strict, fields, vals, Some(Render(n) + rest));
            match Route(fields, n.tag)
            case None => r == if strict then Failed(UnexpectedValue)
                              else UnmarshalChildren(strict, fields, vals, AsNext(rest))
            case Some(i) =>
              match Unmarshal(strict, fields[i].typ, vals[i], Render(n))
              case Done(w) => r == UnmarshalChildren(strict, fields, vals[i := w], AsNext(rest))
              case other => r == other
  {
    ReadBack(n, rest);
    NextBlock(n, rest);
    var route := Route(fields, n.tag);
    if route.Some? {
      UnmarshalTrailing(strict, fields[route.value].typ, vals[route.value], n, rest);
    }
  }

  /** Every field, taking only its own children, decodes to its final value. */
  ghost predicate FieldsDecode(strict: bool, fields: seq<Field>, vals: seq<GoVal>, ns: seq<Node>, vals': seq<GoVal>)
    requires FieldsHaveType(fields, vals) && |vals'| == |fields|
  {
    forall i :: 0 <= i < |fields| ==>
      DecodeBlocks(strict, fields[i].typ, vals[i], Routed(fields, ns, i)) == Done(vals'[i])
  }

  predicate AllRouted(fields: seq<Field>, ns: seq<Node>)
  {
    forall k :: 0 <= k < |ns| ==> Route(fields, ns[k].tag).Some?
  }

  /** Taking the first child out changes only the field it goes to. */
  lemma FirstChild(strict: bool, fields: seq<Field>, vals: seq<GoVal>, ns: seq<Node>, i0: nat, w: GoVal, i: nat)
    requires FieldsHaveType(fields, vals) && ns != [] && i < |fields|
    requires Route(fields, ns[0].tag) == Some(i0)
    requires Unmarshal(strict, fields[i0].typ, vals[i0], Render(ns[0])) == Done(w)
    ensures DecodeBlocks(strict, fields[i].typ, vals[i], Routed(fields, ns, i)) ==
            DecodeBlocks(strict, fields[i].typ, vals[i0 := w][i], Routed(fields, ns[1..], i))
  {
    if i == i0 {
      ConcatSlices([ns[0]], Routed(fields, ns[1..], i));
    } else {
      assert [] + Routed(fields, ns[1..], i) == Routed(fields, ns[1..], i);
    }
  }

  lemma FirstChildFails(strict: bool, fields: seq<Field>, vals: seq<GoVal>, ns: seq<Node>, i0: nat)
    requires FieldsHaveType(fields, vals) && ns != []
    requires Route(fields, ns[0].tag) == Some(i0)
    requires !Unmarshal(strict, fields[i0].typ, vals[i0], Render(ns[0])).Done?
    ensures !DecodeBlocks(strict, fields[i0].typ, vals[i0], Routed(fields, ns, i0)).Done?
  {
    assert Routed(fields, ns, i0)[0] == ns[0];
  }

  lemma UnroutedChild(fields: seq<Field>, ns: seq<Node>, i: nat)
    requires ns != [] && Route(fields, ns[0].tag) != Some(i)
    ensures Routed(fields, ns, i) == Routed(fields, ns[1..], i)
  {
  }

  /** Decoding a structure succeeds exactly when every field, taking only the children routed to
      it in wire order, decodes; the fields do not affect one another. With extra values
      disallowed, every child must also have a destination. */
  lemma {:induction false} Dispatch(strict: bool, fields: seq<Field>, vals: seq<GoVal>, ns: seq<Node>, vals': seq<GoVal>)
    requires FieldsHaveType(fields, vals) && AllWellFormed(ns)
    ensures UnmarshalChildren(strict, fields, vals, AsNext(RenderAll(ns))) == Done(Record(vals')) <==>
            && |vals'| == |fields|
            && (strict ==> AllRouted(fields, ns))
            && FieldsDecode(strict, fields, vals, ns, vals')
    decreases |ns|
  {
    if ns == [] {
      if |vals'| == |vals| && FieldsDecode(strict, fields, vals, ns, vals') {
        assert forall i :: 0 <= i < |fields| ==> vals[i] == vals'[i];
        assert vals == vals';
      }
    } else {
      StepChildren(strict, fields, vals, ns[0], RenderAll(ns[1..]));
      assert AllRouted(fields, ns) <==> Route(fields, ns[0].tag).Some? && AllRouted(fields, ns[1..]) by {
        HeadTail(ns);
      }
      match Route(fields, ns[0].tag)
      case Some(i0) =>
        var r := Unmarshal(strict, fields[i0].typ, vals[i0], Render(ns[0]));
        if r.Done? {
          Dispatch(strict, fields, vals[i0 := r.v], ns[1..], vals');
          forall i | 0 <= i < |fields|
            ensures DecodeBlocks(strict, fields[i].typ, vals[i], Routed(fields, ns, i)) ==
                    DecodeBlocks(strict, fields[i].typ, vals[i0 := r.v][i], Routed(fields, ns[1..], i))
          {
            FirstChild(strict, fields, vals, ns, i0, r.v, i);
          }
        } else {
          FirstChildFails(strict, fields, vals, ns, i0);
        }
      case None =>
        if !strict {
          Dispatch(strict, fields, vals, ns[1..], vals');
          forall i | 0 <= i < |fields|
            ensures Routed(fields, ns, i) == Routed(fields, ns[1..], i)
          {
            UnroutedChild(fields, ns, i);
          }
        }
    }
  }

  // ----- how decoding ends -----

  /** Where a block ends up: one pointer is followed, then the elements of lists. */
  function Destination(typ: GoType): GoType
  {
    var target := if typ.TPtr? then typ.elem else typ;
    if IsList(target) then Destination(target.elem) else target
  }

  /** How decoding any bytes ends, told from types and bytes alone. */
  ghost function CheckBytes(strict: bool, typ: GoType, t: TTLV): Verdict
    decreases |t|, 0
  {
    var d := Destination(typ);
    if |t| == 0 then Accept
    else if Type(t) != STRUCTURE then ScalarCheck(d, t)
    else if d.TStruct? then if InfoOk(d) then CheckBlocks(strict, d.fields, ValueStructure(t)) else Reject(TagClash)
    else if Opaque(d) then CheckBlocks(strict, [], ValueStructure(t))
    else Reject(TypeMismatch)
  }

  /** The block at the front of `b` as a child. */
  ghost function CheckChild(strict: bool, fields: seq<Field>, b: TTLV): Verdict
    decreases |b|, 1
  {
    match Route(fields, Tag(b))
    case None => if strict then Reject(UnexpectedValue) else Accept
    case Some(i) => CheckBytes(strict, fields[i].typ, b)
  }

  ghost function CheckBlocks(strict: bool, fields: seq<Field>, n: Option<TTLV>): Verdict
    decreases if n.None? then 0 else |n.value| + 1
  {
    if n.None? then Accept
    else
      var v := CheckChild(strict, fields, n.value);
      if v.Accept? then CheckBlocks(strict, fields, Next(n.value)) else v
  }

  /** The same over blocks that are known to be valid. */
  ghost function CheckChildren(strict: bool, fields: seq<Field>, ns: seq<Node>): Verdict
    decreases |ns|
  {
    if ns == [] then Accept
    else
      var v := CheckChild(strict, fields, Render(ns[0]));
      if v.Accept? then CheckChildren(strict, fields, ns[1..]) else v
  }

  /** Following pointers and lists leads to the destination. */
  lemma {:induction false} ReachesDestination(strict: bool, typ: GoType, cur: GoVal, t: TTLV)
    returns (base: GoVal)
    requires HasType(typ, cur) && |t| > 0
    ensures HasType(Destination(typ), base)
    ensures VerdictOf(Unmarshal(strict, typ, cur, t)) == VerdictOf(Assign(strict, Destination(typ), base, t))
  {
    var target := if typ.TPtr? then typ.elem else typ;
    base := if !typ.TPtr? then cur else if cur.target.None? then Zero(typ.elem) else cur.target.value;
    if IsList(target) {
      base := ReachesDestination(strict, target.elem, Zero(target.elem), t);
    }
  }

  lemma {:induction false} DestinationIsLast(typ: GoType)
    ensures !IsList(Destination(typ))
  {
    var target := if typ.TPtr? then typ.elem else typ;
    if !IsList(target) {
    } else {
      DestinationIsLast(target.elem);
    }
  }

  lemma ScalarAssigned(strict: bool, d: GoType, base: GoVal, t: TTLV)
    requires HasType(d, base) && !IsList(d) && Type(t) != STRUCTURE
    ensures Assign(strict, d, base, t) == SetScalar(d, t)
  {
  }

  lemma StructAssigned(strict: bool, d: GoType, base: GoVal, t: TTLV)
    requires HasType(d, base) && !IsList(d) && Type(t) == STRUCTURE
    ensures VerdictOf(Assign(strict, d, base, t)) ==
            if d.TStruct? then
              if InfoOk(d) then VerdictOf(UnmarshalChildren(strict, d.fields, base.vals, ValueStructure(t)))
              else Reject(TagClash)
            else if Opaque(d) then VerdictOf(UnmarshalChildren(strict, [], [], ValueStructure(t)))
            else Reject(TypeMismatch)
  {
  }

  /** Whether decoding any bytes, valid or not, succeeds, fails with an error or panics does not
      depend on what the destination holds: it is told from its type and the bytes. */
  lemma {:induction false} Verdicts(strict: bool, typ: GoType, cur: GoVal, t: TTLV)
    requires HasType(typ, cur)
    ensures VerdictOf(Unmarshal(strict, typ, cur, t)) == CheckBytes(strict, typ, t)
    decreases |t|, 0
  {
    if |t| == 0 {
    } else {
      var base := ReachesDestination(strict, typ, cur, t);
      var d := Destination(typ);
      DestinationIsLast(typ);
      if Type(t) != STRUCTURE {
        ScalarAssigned(strict, d, base, t);
        ScalarVerdict(d, t);
      } else {
        StructAssigned(strict, d, base, t);
        if d.TStruct? {
          BlockVerdicts(strict, d.fields, base.vals, ValueStructure(t));
        } else if Opaque(d) {
          BlockVerdicts(strict, [], [], ValueStructure(t));
        }
      }
    }
  }

  lemma {:induction false} BlockVerdicts(strict: bool, fields: seq<Field>, vals: seq<GoVal>, n: Option<TTLV>)
    requires FieldsHaveType(fields, vals)
    ensures VerdictOf(UnmarshalChildren(strict, fields, vals, n)) == CheckBlocks(strict, fields, n)
    decreases if n.None? then 0 else |n.value| + 1
  {
    if n.None? {
    } else {
      match Route(fields, Tag(n.value))
      case None =>
        if !strict {
          BlockVerdicts(strict, fields, vals, Next(n.value));
        }
      case Some(i) =>
        Verdicts(strict, fields[i].typ, vals[i], n.value);
        var r := Unmarshal(strict, fields[i].typ, vals[i], n.value);
        if r.Done? {
          BlockVerdicts(strict, fields, vals[i := r.v], Next(n.value));
        }
    }
  }

  /** On any scalar bytes decoding panics exactly when a ByteString reaches a destination that
      cannot be told apart from a byte slice, or a block of another type reaches a destination that
      suits it and is too short; on a valid block, exactly in the first case. */
  lemma PanicsExactly(strict: bool, typ: GoType, cur: GoVal, t: TTLV)
    requires HasType(typ, cur) && |t| > 0 && Type(t) != STRUCTURE
    ensures Unmarshal(strict, typ, cur, t) == Panics <==>
            if Type(t) == BYTE_STRING then BytesPanic(Destination(typ))
            else Suits(Destination(typ), Type(t)) && !Readable(t)
    ensures IsValid(t) ==>
            (Unmarshal(strict, typ, cur, t) == Panics <==> Type(t) == BYTE_STRING && BytesPanic(Destination(typ)))
  {
    Verdicts(strict, typ, cur, t);
    if IsValid(t) {
      ScalarWidth(t);
    }
  }

  /** A scalar put at its destination: one pointer is followed, lists get a new element. */
  function Place(typ: GoType, cur: GoVal, x: GoVal): (v: GoVal)
    requires HasType(typ, cur)
    decreases typ
  {
    var target := if typ.TPtr? then typ.elem else typ;
    var base := if !typ.TPtr? then cur else if cur.target.None? then Zero(typ.elem) else cur.target.value;
    assert HasType(target, base);
    var placed :=
      if IsList(target) then Slice(base.elems + [Place(target.elem, Zero(target.elem), x)]) else x;
    if typ.TPtr? then Ptr(Some(placed)) else placed
  }

  /** Accepted scalar bytes, valid or not, place the item they read as. */
  lemma {:induction false} ScalarPlaced(strict: bool, typ: GoType, cur: GoVal, t: TTLV)
    requires HasType(typ, cur) && |t| > 0 && Type(t) != STRUCTURE && CheckBytes(strict, typ, t).Accept?
    ensures Readable(t) && Store(Destination(typ), ReadItem(t)).Done?
    ensures Unmarshal(strict, typ, cur, t) == Done(Place(typ, cur, Store(Destination(typ), ReadItem(t)).v))
    decreases typ
  {
    var d := Destination(typ);
    ScalarVerdict(d, t);
    SetReadItem(d, t);
    var target := if typ.TPtr? then typ.elem else typ;
    if !IsList(target) {
    } else {
      ScalarPlaced(strict, target.elem, Zero(target.elem), t);
    }
  }

  // ----- how decoding a structure ends -----

  lemma CheckTrailing(strict: bool, fields: seq<Field>, n: Node, s: seq<Byte>)
    requires WellFormed(n)
    ensures CheckChild(strict, fields, Render(n) + s) == CheckChild(strict, fields, Render(n))
  {
    ReadBack(n, []);
    assert Render(n) + [] == Render(n);
    TrailingBytes(Render(n), s);
    forall d
      ensures Type(Render(n)) != STRUCTURE ==> ScalarCheck(d, Render(n) + s) == ScalarCheck(d, Render(n))
    {
      SameCheck(d, Render(n) + s, Render(n));
    }
  }

  lemma SameCheck(d: GoType, t: TTLV, t': TTLV)
    requires Type(t) == Type(t') && ValueRaw(t) == ValueRaw(t')
    ensures ScalarCheck(d, t) == ScalarCheck(d, t')
  {
  }

  lemma CheckFirst(strict: bool, fields: seq<Field>, n: Node, rest: seq<Byte>)
    requires WellFormed(n)
    ensures CheckBlocks(strict, fields, Some(Render(n) + rest)) ==
              var v := CheckChild(strict, fields, Render(n));
              if v.Accept? then CheckBlocks(strict, fields, AsNext(rest)) else v
  {
    CheckTrailing(strict, fields, n, rest);
    NextBlock(n, rest);
  }

  lemma {:induction false} FrontVerdict(strict: bool, fields: seq<Field>, ns: seq<Node>, junk: TTLV)
    requires AllWellFormed(ns)
    ensures CheckBlocks(strict, fields, AsNext(RenderAll(ns) + junk)) ==
              var v := CheckChildren(strict, fields, ns);
              if v.Accept? then CheckBlocks(strict, fields, AsNext(junk)) else v
    decreases |ns|
  {
    if ns == [] {
      assert RenderAll(ns) + junk == junk;
    } else {
      ConcatAssociative(Render(ns[0]), RenderAll(ns[1..]), junk);
      CheckFirst(strict, fields, ns[0], RenderAll(ns[1..]) + junk);
      FrontVerdict(strict, fields, ns[1..], junk);
    }
  }

  lemma ValidVerdict(strict: bool, fields: seq<Field>, ns: seq<Node>)
    requires AllWellFormed(ns)
    ensures CheckBlocks(strict, fields, AsNext(RenderAll(ns))) == CheckChildren(strict, fields, ns)
  {
    FrontVerdict(strict, fields, ns, []);
    assert RenderAll(ns) + [] == RenderAll(ns);
  }

  /** Any value segment: its valid blocks in turn, then an invalid rest as one last child, also when
      none of the declared bytes are there. */
  ghost function SegmentCheck(strict: bool, fields: seq<Field>, b: TTLV): Verdict
  {
    var v := CheckChildren(strict, fields, Front(b));
    if v.Accept? && (Rest(b) != [] || b == []) then CheckChild(strict, fields, Rest(b)) else v
  }

  lemma SegmentVerdict(strict: bool, fields: seq<Field>, b: TTLV)
    ensures CheckBlocks(strict, fields, Some(b)) == SegmentCheck(strict, fields, b)
  {
    FrontRest(b);
    FrontVerdict(strict, fields, Front(b), Rest(b));
    assert Next(Rest(b)) == None;
    if b == [] {
      assert Front(b) == [];
    }
  }

  /** Valid child `k` is the first that is not accepted, and ends with `v`. */
  ghost predicate StopsAt(strict: bool, fields: seq<Field>, ns: seq<Node>, k: nat, v: Verdict)
  {
    && k < |ns| && CheckChild(strict, fields, Render(ns[k])) == v
    && forall j :: 0 <= j < k ==> CheckChild(strict, fields, Render(ns[j])).Accept?
  }

  lemma StopsLater(strict: bool, fields: seq<Field>, ns: seq<Node>, k: nat, v: Verdict)
    requires ns != [] && CheckChild(strict, fields, Render(ns[0])).Accept?
    ensures StopsAt(strict, fields, ns, k + 1, v) <==> StopsAt(strict, fields, ns[1..], k, v)
  {
    HeadTail(ns);
    assert forall j :: 0 <= j < |ns[1..]| ==> ns[1..][j] == ns[j + 1];
  }

  lemma {:induction false} FirstStop(strict: bool, fields: seq<Field>, ns: seq<Node>, v: Verdict)
    requires !v.Accept?
    ensures CheckChildren(strict, fields, ns) == v <==> exists k: nat :: StopsAt(strict, fields, ns, k, v)
    decreases |ns|
  {
    if ns == [] {
    } else if CheckChild(strict, fields, Render(ns[0])).Accept? {
      FirstStop(strict, fields, ns[1..], v);
      if k: nat :| StopsAt(strict, fields, ns[1..], k, v) {
        StopsLater(strict, fields, ns, k, v);
      }
      if k: nat :| StopsAt(strict, fields, ns, k, v) {
        assert k != 0;
        StopsLater(strict, fields, ns, k - 1, v);
      }
    } else {
      assert CheckChild(strict, fields, Render(ns[0])) == v ==> StopsAt(strict, fields, ns, 0, v);
    }
  }

  /** The valid children are all accepted, and the rest ends with `v`. */
  ghost predicate StopsInRest(strict: bool, fields: seq<Field>, b: TTLV, v: Verdict)
  {
    && CheckChildren(strict, fields, Front(b)).Accept? && (Rest(b) != [] || b == [])
    && CheckChild(strict, fields, Rest(b)) == v
  }

  /** A value segment of any bytes panics, or ends in an error, exactly when the first of its valid
      children that is not accepted does, or all of them are accepted and its rest does. */
  lemma StructureStops(strict: bool, fields: seq<Field>, vals: seq<GoVal>, b: TTLV, v: Verdict)
    requires FieldsHaveType(fields, vals) && !v.Accept?
    ensures VerdictOf(UnmarshalChildren(strict, fields, vals, Some(b))) == v <==>
            (exists k: nat :: StopsAt(strict, fields, Front(b), k, v)) || StopsInRest(strict, fields, b, v)
  {
    BlockVerdicts(strict, fields, vals, Some(b));
    SegmentVerdict(strict, fields, b);
    FirstStop(strict, fields, Front(b), v);
    if k: nat :| StopsAt(strict, fields, Front(b), k, v) {
      assert CheckChildren(strict, fields, Front(b)) == v;
    }
  }

  // ----- invalid input -----

  /** An invalid remainder is decoded as one last child, whatever follows in it. */
  lemma LastChild(strict: bool, fields: seq<Field>, vals: seq<GoVal>, junk: TTLV)
    requires FieldsHaveType(fields, vals) && !IsValid(junk)
    ensures UnmarshalChildren(strict, fields, vals, Some(junk)) ==
              match Route(fields, Tag(junk))
              case None => if strict then Failed(UnexpectedValue) else Done(Record(vals))
              case Some(i) =>
                match Unmarshal(strict, fields[i].typ, vals[i], junk)
                case Done(w) => Done(Record(vals[i := w]))
                case other => other
  {
  }

  lemma {:induction false} FrontThenRest(strict: bool, fields: seq<Field>, vals: seq<GoVal>, ns: seq<Node>, junk: TTLV)
    requires FieldsHaveType(fields, vals) && AllWellFormed(ns) && junk != []
    ensures UnmarshalChildren(strict, fields, vals, Some(RenderAll(ns) + junk)) ==
              match UnmarshalChildren(strict, fields, vals, AsNext(RenderAll(ns)))
              case Done(r) => UnmarshalChildren(strict, fields, r.vals, Some(junk))
              case other => other
    decreases |ns|
  {
    if ns == [] {
      assert RenderAll(ns) + junk == junk;
    } else {
      var rest := RenderAll(ns[1..]);
      ConcatAssociative(Render(ns[0]), rest, junk);
      StepChildren(strict, fields, vals, ns[0], rest);
      StepChildren(strict, fields, vals, ns[0], rest + junk);
      match Route(fields, ns[0].tag)
      case None => FrontThenRest(strict, fields, vals, ns[1..], junk);
      case Some(i) =>
        var r := Unmarshal(strict, fields[i].typ, vals[i], Render(ns[0]));
        if r.Done? {
          FrontThenRest(strict, fields, vals[i := r.v], ns[1..], junk);
        }
    }
  }

  /** What an invalid remainder adds to fields that hold `mid`. */
  ghost predicate RestDecodes(strict: bool, fields: seq<Field>, mid: seq<GoVal>, junk: TTLV, vals': seq<GoVal>)
    requires FieldsHaveType(fields, mid)
  {
    match Route(fields, Tag(junk))
    case None => !strict && vals' == mid
    case Some(i) =>
      |vals'| == |mid| && vals' == mid[i := vals'[i]] &&
      Unmarshal(strict, fields[i].typ, mid[i], junk) == Done(vals'[i])
  }

  lemma RestIff(strict: bool, fields: seq<Field>, mid: seq<GoVal>, junk: TTLV, vals': seq<GoVal>)
    requires FieldsHaveType(fields, mid) && !IsValid(junk)
    ensures UnmarshalChildren(strict, fields, mid, Some(junk)) == Done(Record(vals')) <==>
            RestDecodes(strict, fields, mid, junk, vals')
  {
    LastChild(strict, fields, mid, junk);
  }

  lemma FrontDone(strict: bool, fields: seq<Field>, vals: seq<GoVal>, ns: seq<Node>) returns (mid: seq<GoVal>)
    requires FieldsHaveType(fields, vals) && AllWellFormed(ns)
    requires UnmarshalChildren(strict, fields, vals, AsNext(RenderAll(ns))).Done?
    ensures FieldsHaveType(fields, mid)
    ensures UnmarshalChildren(strict, fields, vals, AsNext(RenderAll(ns))) == Done(Record(mid))
  {
    mid := UnmarshalChildren(strict, fields, vals, AsNext(RenderAll(ns))).v.vals;
  }

  /** The valid children are dispatched and then the remainder is decoded. */
  ghost predicate DecodesThrough(strict: bool, fields: seq<Field>, vals: seq<GoVal>, b: TTLV,
                                 mid: seq<GoVal>, vals': seq<GoVal>)
    requires FieldsHaveType(fields, vals)
  {
    && FieldsHaveType(fields, mid)
    && (strict ==> AllRouted(fields, Front(b)))
    && FieldsDecode(strict, fields, vals, Front(b), mid)
    && RestDecodes(strict, fields, mid, Rest(b), vals')
  }

  lemma ThroughIff(strict: bool, fields: seq<Field>, vals: seq<GoVal>, b: TTLV, mid: seq<GoVal>, vals': seq<GoVal>)
    requires FieldsHaveType(fields, vals) && !ChildrenValidity(b).Pass?
    ensures DecodesThrough(strict, fields, vals, b, mid, vals') <==>
            && FieldsHaveType(fields, mid)
            && UnmarshalChildren(strict, fields, vals, AsNext(RenderAll(Front(b)))) == Done(Record(mid))
            && UnmarshalChildren(strict, fields, mid, Some(Rest(b))) == Done(Record(vals'))
  {
    FrontRest(b);
    Dispatch(strict, fields, vals, Front(b), mid);
    if FieldsHaveType(fields, mid) {
      RestIff(strict, fields, mid, Rest(b), vals');
    }
  }

  /** Exactly the value segments that are not valid blocks throughout and still decode, and what
      they decode to: the valid front is dispatched as usual, and the rest is taken for one more
      child, which must decode or, with extra values allowed, have no destination. */
  lemma InvalidChildren(strict: bool, fields: seq<Field>, vals: seq<GoVal>, b: TTLV, vals': seq<GoVal>)
    requires FieldsHaveType(fields, vals) && !ChildrenValidity(b).Pass?
    ensures VerdictOf(UnmarshalChildren(strict, fields, vals, Some(b))) == SegmentCheck(strict, fields, b)
    ensures UnmarshalChildren(strict, fields, vals, Some(b)) == Done(Record(vals')) <==>
            exists mid :: DecodesThrough(strict, fields, vals, b, mid, vals')
  {
    BlockVerdicts(strict, fields, vals, Some(b));
    SegmentVerdict(strict, fields, b);
    FrontRest(b);
    FrontThenRest(strict, fields, vals, Front(b), Rest(b));
    if UnmarshalChildren(strict, fields, vals, AsNext(RenderAll(Front(b)))).Done? {
      var mid := FrontDone(strict, fields, vals, Front(b));
      ThroughIff(strict, fields, vals, b, mid, vals');
    }
    forall mid | DecodesThrough(strict, fields, vals, b, mid, vals')
      ensures UnmarshalChildren(strict, fields, vals, Some(b)) == Done(Record(vals'))
    {
      ThroughIff(strict, fields, vals, b, mid, vals');
    }
  }

  /** So for whole structures, whatever is wrong with them, header, length or content: how decoding
      them ends, and what they decode to if it succeeds. */
  lemma InvalidStructure(strict: bool, fields: seq<Field>, vals: seq<GoVal>, t: TTLV, vals': seq<GoVal>)
    requires FieldsHaveType(fields, vals) && InfoOk(TStruct(fields)) && Type(t) == STRUCTURE
    ensures HasType(TStruct(fields), Record(vals))
    ensures VerdictOf(Unmarshal(strict, TStruct(fields), Record(vals), t)) ==
            if Len(t) == 0 then Accept else SegmentCheck(strict, fields, ValueRaw(t))
    ensures Unmarshal(strict, TStruct(fields), Record(vals), t) == Done(Record(vals')) <==>
            var b := ValueRaw(t);
            if ChildrenValidity(b).Pass? && b != [] then
              |vals'| == |fields| && (strict ==> AllRouted(fields, Front(b))) &&
              FieldsDecode(strict, fields, vals, Front(b), vals')
            else if Len(t) == 0 then vals' == vals
            else if b == [] then RestDecodes(strict, fields, vals, [], vals')
            else exists mid :: DecodesThrough(strict, fields, vals, b, mid, vals')
  {
    assert HasType(TStruct(fields), Record(vals));
    StructUnmarshal(strict, fields, vals, t);
    BlockVerdicts(strict, fields, vals, ValueStructure(t));
    SegmentVerdict(strict, fields, ValueRaw(t));
    StructureResult(strict, fields, vals, t, vals');
  }

  lemma StructureResult(strict: bool, fields: seq<Field>, vals: seq<GoVal>, t: TTLV, vals': seq<GoVal>)
    requires FieldsHaveType(fields, vals)
    ensures UnmarshalChildren(strict, fields, vals, ValueStructure(t)) == Done(Record(vals')) <==>
            var b := ValueRaw(t);
            if ChildrenValidity(b).Pass? && b != [] then
              |vals'| == |fields| && (strict ==> AllRouted(fields, Front(b))) &&
              FieldsDecode(strict, fields, vals, Front(b), vals')
            else if Len(t) == 0 then vals' == vals
            else if b == [] then RestDecodes(strict, fields, vals, [], vals')
            else exists mid :: DecodesThrough(strict, fields, vals, b, mid, vals')
  {
    var b := ValueRaw(t);
    FrontRest(b);
    if ChildrenValidity(b).Pass? && b != [] {
      assert RenderAll(Front(b)) + [] == RenderAll(Front(b));
      Dispatch(strict, fields, vals, Front(b), vals');
    } else if b == [] {
      RestIff(strict, fields, vals, [], vals');
    } else {
      InvalidChildren(strict, fields, vals, b, vals');
    }
  }

  /** Bytes that are not valid get the promised error exactly when the check rejects them; it is a
      check of types, tags and lengths, block by block. */
  lemma InvalidGetsError(strict: bool, typ: GoType, cur: GoVal, t: TTLV)
    requires HasType(typ, cur) && !IsValid(t)
    ensures var r, v := Unmarshal(strict, typ, cur, t), CheckBytes(strict, typ, t);
            (r.Failed? <==> v.Reject?) && (r.Done? <==> v.Accept?) && (r.Panics? <==> v.Panic?)
    ensures CheckBytes(strict, typ, t) ==
            var d := Destination(typ);
            if |t| == 0 then Accept
            else if Type(t) != STRUCTURE then ScalarCheck(d, t)
            else if !d.TStruct? && !Opaque(d) then Reject(TypeMismatch)
            else if d.TStruct? && !InfoOk(d) then Reject(TagClash)
            else if Len(t) == 0 then Accept
            else SegmentCheck(strict, if d.TStruct? then d.fields else [], ValueRaw(t))
  {
    var d := Destination(typ);
    Verdicts(strict, typ, cur, t);
    SegmentVerdict(strict, if d.TStruct? then d.fields else [], ValueRaw(t));
  }

  lemma StructUnmarshal(strict: bool, fields: seq<Field>, vals: seq<GoVal>, t: TTLV)
    requires HasType(TStruct(fields), Record(vals)) && InfoOk(TStruct(fields)) && Type(t) == STRUCTURE
    ensures Unmarshal(strict, TStruct(fields), Record(vals), t) ==
            UnmarshalChildren(strict, fields, vals, ValueStructure(t))
  {
  }
}
