/** The generic Value tree, the Encoder that writes it and the loop that reads it back. */
module Trees {
  import opened Bytes
  import opened Wire
  import opened Grammar
  import opened Items
  import opened EncodeBuffer
  import opened Scalars

  /** A tag with nothing, a scalar, or enclosed values. */
  datatype Value = Value(tag: Word, body: Body)
  datatype Body = Nil | Single(item: Item) | Values(children: seq<Value>)

  /** Blocks written so far, and the error that stopped the encoding, if any. */
  datatype Marshaled = Marshaled(nodes: seq<Node>, err: Option<MarshalError>)

  function ScalarBlocks(enums: Enums, tag: Word, flags: Flags, v: Scalar): Marshaled
  {
    match Choose(enums, tag, flags, v)
    case Nothing => Marshaled([], None)
    case Write(x) => Marshaled(Blocks(tag, x), None)
    case Fail(e) => Marshaled([], Some(e))
  }

  /** A value without a tag takes the suggested one: the tag Encode infers for the type Value. A
      call with a tag of its own is a call on the value with that tag filled in. */
  function TagOf(v: Value, suggested: Word): Word
  {
    if v.tag != 0 then v.tag else suggested
  }

  /** Value.MarshalTTLV: a failing child ends the walk, but its structure is still closed. */
  function Marshal(enums: Enums, v: Value, suggested: Word): Marshaled
    decreases v, 0
  {
    var tag := TagOf(v, suggested);
    match v.body
    case Nil => Marshaled([], None)
    case Single(x) => ScalarBlocks(enums, tag, NO_FLAGS, FromItem(x))
    case Values(children) =>
      var m := MarshalAll(enums, children, suggested);
      Marshaled([Struct(tag, m.nodes)], m.err)
  }

  function MarshalAll(enums: Enums, vs: seq<Value>, suggested: Word): Marshaled
    decreases vs, 1
  {
    if vs == [] then Marshaled([], None)
    else
      var m := Marshal(enums, vs[0], suggested);
      if m.err.Some? then m
      else
        var rest := MarshalAll(enums, vs[1..], suggested);
        Marshaled(m.nodes + rest.nodes, rest.err)
  }

  lemma {:induction false} MarshalAllSnoc(enums: Enums, vs: seq<Value>, k: nat, suggested: Word)
    requires k < |vs| && MarshalAll(enums, vs[..k], suggested).err.None?
    ensures var m := MarshalAll(enums, vs[..k], suggested);
            var x := Marshal(enums, vs[k], suggested);
            && MarshalAll(enums, vs[..k + 1], suggested) == Marshaled(m.nodes + x.nodes, x.err)
            && (x.err.Some? ==> MarshalAll(enums, vs, suggested) == Marshaled(m.nodes + x.nodes, x.err))
  {
    if k == 0 {
      assert vs[..1][1..] == [];
    } else {
      assert vs[..k][1..] == vs[1..][..k - 1] && vs[..k + 1][1..] == vs[1..][..k];
      assert vs[..k][0] == vs[0] == vs[..k + 1][0];
      MarshalAllSnoc(enums, vs[1..], k - 1, suggested);
      var a := Marshal(enums, vs[0], suggested).nodes;
      var b := MarshalAll(enums, vs[1..][..k - 1], suggested).nodes;
      ConcatAssociative(a, b, Marshal(enums, vs[k], suggested).nodes);
    }
  }

  lemma {:induction false} MarshalAligned(enums: Enums, v: Value, suggested: Word)
    ensures AllAligned(Marshal(enums, v, suggested).nodes)
    decreases v, 0
  {
    var tag := TagOf(v, suggested);
    match v.body
    case Nil =>
    case Single(x) =>
      var c := Choose(enums, tag, NO_FLAGS, FromItem(x));
      if c.Write? {
        BlocksAligned(tag, c.item);
      }
    case Values(children) =>
      MarshalAllAligned(enums, children, suggested);
      assert Aligned(Marshal(enums, v, suggested).nodes[0]);
  }

  lemma {:induction false} MarshalAllAligned(enums: Enums, vs: seq<Value>, suggested: Word)
    ensures AllAligned(MarshalAll(enums, vs, suggested).nodes)
    decreases vs, 1
  {
    if vs == [] {
    } else {
      MarshalAligned(enums, vs[0], suggested);
      MarshalAllAligned(enums, vs[1..], suggested);
      AllAlignedConcat(Marshal(enums, vs[0], suggested).nodes, MarshalAll(enums, vs[1..], suggested).nodes);
    }
  }

  // ----- order and partial output -----

  /** Continue unless an error stopped the encoding. */
  function Then(m: Marshaled, rest: Marshaled): Marshaled
  {
    if m.err.Some? then m else Marshaled(m.nodes + rest.nodes, rest.err)
  }

  function NodesOf(ms: seq<Marshaled>): seq<seq<Node>>
  {
    seq(|ms|, i requires 0 <= i < |ms| => ms[i].nodes)
  }

  ghost predicate NoErrors(ms: seq<Marshaled>)
  {
    forall i :: 0 <= i < |ms| ==> ms[i].err.None?
  }

  /** The blocks of all parts in order; or the blocks up to and with the first part that fails, and
      its error. */
  ghost predicate InOrder(ms: seq<Marshaled>, m: Marshaled)
  {
    (NoErrors(ms) && m == Marshaled(Flatten(NodesOf(ms)), None)) || exists k: nat :: StoppedAt(ms, m, k)
  }

  ghost predicate StoppedAt(ms: seq<Marshaled>, m: Marshaled, k: nat)
  {
    && k < |ms| && NoErrors(ms[..k]) && ms[k].err.Some?
    && m == Marshaled(Flatten(NodesOf(ms[..k + 1])), ms[k].err)
  }

  lemma NodesFirst(m: Marshaled, ms: seq<Marshaled>)
    ensures Flatten(NodesOf([m] + ms)) == m.nodes + Flatten(NodesOf(ms))
  {
    ConcatSlices([m], ms);
    assert NodesOf([m] + ms) == [m.nodes] + NodesOf(ms);
    ConcatSlices([m.nodes], NodesOf(ms));
  }

  lemma OrderStep(m: Marshaled, ms: seq<Marshaled>, rest: Marshaled)
    requires InOrder(ms, rest)
    ensures InOrder([m] + ms, Then(m, rest))
  {
    var all := [m] + ms;
    ConcatSlices([m], ms);
    if m.err.Some? {
      assert all[..1] == [m] + [] && all[..0] == [];
      NodesFirst(m, []);
      assert m.nodes + [] == m.nodes;
      assert StoppedAt(all, m, 0);
    } else if NoErrors(ms) && rest == Marshaled(Flatten(NodesOf(ms)), None) {
      NodesFirst(m, ms);
      assert forall i :: 1 <= i < |all| ==> all[i] == ms[i - 1];
      assert NoErrors(all);
    } else {
      var k: nat :| StoppedAt(ms, rest, k);
      StopStep(m, ms, rest, k);
    }
  }

  lemma StopStep(m: Marshaled, ms: seq<Marshaled>, rest: Marshaled, k: nat)
    requires m.err.None? && StoppedAt(ms, rest, k)
    ensures StoppedAt([m] + ms, Then(m, rest), k + 1)
  {
    var all := [m] + ms;
    assert all[..k + 1] == [m] + ms[..k] && all[..k + 2] == [m] + ms[..k + 1] && all[k + 1] == ms[k];
    NodesFirst(m, ms[..k + 1]);
    var front := all[..k + 1];
    forall i | 0 <= i < |front|
      ensures front[i].err.None?
    {
      if i > 0 {
        assert front[i] == ms[..k][i - 1];
      }
    }
  }

  /** What a tree's children write, each on its own. */
  function EachMarshaled(enums: Enums, vs: seq<Value>, suggested: Word): seq<Marshaled>
  {
    seq(|vs|, i requires 0 <= i < |vs| => Marshal(enums, vs[i], suggested))
  }

  /** Children are written in order; a failing one ends the walk, and what was written stays. */
  lemma {:induction false} ChildrenInOrder(enums: Enums, vs: seq<Value>, suggested: Word)
    ensures InOrder(EachMarshaled(enums, vs, suggested), MarshalAll(enums, vs, suggested))
  {
    if vs == [] {
      assert NodesOf(EachMarshaled(enums, vs, suggested)) == [];
    } else {
      ChildrenInOrder(enums, vs[1..], suggested);
      OrderStep(Marshal(enums, vs[0], suggested), EachMarshaled(enums, vs[1..], suggested),
                MarshalAll(enums, vs[1..], suggested));
      assert EachMarshaled(enums, vs, suggested) ==
             [Marshal(enums, vs[0], suggested)] + EachMarshaled(enums, vs[1..], suggested);
    }
  }

  /** A structure is written whole also when a child fails: one block with its tag, or the suggested
      one if it has none, around what the children wrote. */
  lemma StructureClosed(enums: Enums, v: Value, suggested: Word)
    requires v.body.Values?
    ensures var m := Marshal(enums, v, suggested);
            && |m.nodes| == 1 && m.nodes[0].Struct?
            && m.nodes[0].tag == (if v.tag == 0 then suggested else v.tag)
            && InOrder(EachMarshaled(enums, v.body.children, suggested), Marshaled(m.nodes[0].children, m.err))
  {
    ChildrenInOrder(enums, v.body.children, suggested);
  }

  /** A scalar without a tag takes the suggested one; without either it is an error, except for types
      that marshal themselves. */
  lemma ScalarTag(enums: Enums, v: Value, suggested: Word)
    requires v.body.Single?
    ensures var m, tag := Marshal(enums, v, suggested), if v.tag == 0 then suggested else v.tag;
            && (forall i :: 0 <= i < |m.nodes| ==> m.nodes[i].tag == tag)
            && (m.err == Some(ErrNoTag) <==>
                tag == 0 && v.body.item != ByteString(None) && !v.body.item.Enumeration? && !v.body.item.DateTimeExtended?)
  {
  }

  /** Encoder: blocks collect in a buffer and are flushed once no structure is open. */
  class Encoder {
    const enums: Enums
    const encBuf: EncBuf
    var encodeDepth: nat
    var written: seq<Byte>

    constructor (enums: Enums)
      ensures encodeDepth == 0 && written == [] && encBuf.buf == [] && fresh(encBuf) && this.enums == enums
    {
      this.enums := enums;
      encBuf := new EncBuf();
      encodeDepth := 0;
      written := [];
    }

    /** Everything encoded so far, flushed or not. */
    ghost function Stream(): seq<Byte>
      reads this, encBuf
    {
      written + encBuf.buf
    }

    method Flush()
      modifies this, encBuf
      ensures encodeDepth == old(encodeDepth)
      ensures if encodeDepth > 0
              then written == old(written) && encBuf.buf == old(encBuf.buf)
              else written == old(Stream()) && encBuf.buf == []
    {
      if encodeDepth > 0 {
        return;
      }
      written := written + encBuf.buf;
      encBuf.buf := [];
    }

    /** How a call that appends blocks changes the encoder: with a structure open they stay in the
        buffer; otherwise they join the stream, and the buffer is flushed unless the call failed. */
    twostate predicate Appended(b: seq<Byte>, failed: bool)
      reads this, encBuf
    {
      && encodeDepth == old(encodeDepth)
      && if encodeDepth > 0
         then written == old(written) && encBuf.buf == old(encBuf.buf) + b
         else Stream() == old(Stream()) + b && (failed || encBuf.buf == [])
    }

    /** Write a scalar into the buffer without flushing. */
    method EncodeScalar(tag: Word, flags: Flags, v: Scalar) returns (err: Option<MarshalError>)
      modifies encBuf
      ensures var m := ScalarBlocks(enums, tag, flags, v);
              encBuf.buf == old(encBuf.buf) + RenderAll(m.nodes) && err == m.err
    {
      match Choose(enums, tag, flags, v) {
        case Nothing =>
        case Write(x) => encBuf.EncodeItem(tag, x);
        case Fail(e) => return Some(e);
      }
      return None;
    }

    /** Encode of a Value appends exactly the blocks of its tree. */
    method Encode(v: Value, suggested: Word) returns (err: Option<MarshalError>)
      modifies this, encBuf
      ensures var m := Marshal(enums, v, suggested);
              Appended(RenderAll(m.nodes), m.err.Some?) && err == m.err
      decreases v, 1
    {
      var tag := TagOf(v, suggested);
      ConcatAssociative(written, encBuf.buf, RenderAll(Marshal(enums, v, suggested).nodes));
      match v.body {
        case Nil =>
          err := None;
        case Single(x) =>
          err := EncodeScalar(tag, NO_FLAGS, FromItem(x));
        case Values(children) =>
          err := EncodeStructure(tag, children, suggested);
      }
      if err.None? {
        Flush();
      }
    }

    /** EncodeStructure: open, encode the children, close. */
    method EncodeStructure(tag: Word, vs: seq<Value>, suggested: Word) returns (err: Option<MarshalError>)
      modifies this, encBuf
      ensures encodeDepth == old(encodeDepth) && written == old(written)
      ensures var m := MarshalAll(enums, vs, suggested);
              encBuf.buf == old(encBuf.buf) + RenderAll([Struct(tag, m.nodes)]) && err == m.err
      decreases vs, 2
    {
      ghost var before, body := encBuf.buf, MarshalAll(enums, vs, suggested).nodes;
      encodeDepth := encodeDepth + 1;
      var i := encBuf.Begin(tag, STRUCTURE);
      err := EncodeChildren(vs, suggested);
      MarshalAllAligned(enums, vs, suggested);
      RenderAllAligned(body);
      encBuf.EndBlock(i, before, tag, STRUCTURE, RenderAll(body));
      RenderOne(Struct(tag, body));
      encodeDepth := encodeDepth - 1;
    }

    method EncodeChildren(vs: seq<Value>, suggested: Word) returns (err: Option<MarshalError>)
      requires encodeDepth > 0
      modifies this, encBuf
      ensures var m := MarshalAll(enums, vs, suggested);
              Appended(RenderAll(m.nodes), m.err.Some?) && err == m.err
      decreases vs, 1
    {
      ghost var start := encBuf.buf;
      for k := 0 to |vs|
        invariant encodeDepth == old(encodeDepth) && written == old(written)
        invariant MarshalAll(enums, vs[..k], suggested).err.None?
        invariant encBuf.buf == start + RenderAll(MarshalAll(enums, vs[..k], suggested).nodes)
      {
        MarshalAllSnoc(enums, vs, k, suggested);
        AppendRendered(start, MarshalAll(enums, vs[..k], suggested).nodes, Marshal(enums, vs[k], suggested).nodes);
        err := Encode(vs[k], suggested);
        if err.Some? {
          return;
        }
      }
      assert vs[..|vs|] == vs;
      return None;
    }
  }

  lemma AppendRendered(start: seq<Byte>, done: seq<Node>, more: seq<Node>)
    ensures start + RenderAll(done) + RenderAll(more) == start + RenderAll(done + more)
  {
    RenderAllConcat(done, more);
    ConcatAssociative(start, RenderAll(done), RenderAll(more));
  }

  // ----- reading -----

  /** Value.UnmarshalTTLV. Enclosed blocks are taken while they are valid; the block itself is
      not checked. */
  function Read(t: TTLV): Value
    requires Type(t) == STRUCTURE || IsValid(t) || Readable(t)
    decreases |t|, 0
  {
    Value(Tag(t), if Type(t) == STRUCTURE then Values(ReadAll(ValueRaw(t))) else Single(ReadItem(t)))
  }

  function ReadAll(inner: TTLV): seq<Value>
    decreases |inner|, 1
  {
    if !IsValid(inner) then [] else [Read(inner)] + ReadAll(inner[FullLen(inner)..])
  }

  /** UnmarshalTTLV of any bytes; `None` is a panic, never met on a valid block. */
  method UnmarshalTTLV(t: TTLV) returns (r: Option<Value>)
    ensures r == if Type(t) == STRUCTURE || Readable(t) then Some(Read(t)) else None
    ensures IsValid(t) ==> r == Some(Read(t))
    decreases |t|
  {
    if Type(t) != STRUCTURE {
      ValidReadable(t);
      return if Readable(t) then Some(Value(Tag(t), Single(ReadItem(t)))) else None;
    }
    var vs: seq<Value> := [];
    var inner := ValueRaw(t);
    while IsValid(inner)
      invariant |inner| < |t|
      invariant vs + ReadAll(inner) == ReadAll(ValueRaw(t))
      decreases |inner|
    {
      var child := UnmarshalTTLV(inner);
      ReadNext(inner, vs);
      vs := vs + [child.value];
      var next := Next(inner);
      inner := if next.None? then [] else next.value;
    }
    assert vs + ReadAll(inner) == vs;
    return Some(Value(Tag(t), Values(vs)));
  }

  lemma ValidReadable(t: TTLV)
    ensures IsValid(t) && Type(t) != STRUCTURE ==> Readable(t)
  {
    if IsValid(t) {
      ScalarWidth(t);
    }
  }

  lemma ReadNext(inner: TTLV, vs: seq<Value>)
    requires IsValid(inner)
    ensures var next := Next(inner);
            vs + ReadAll(inner) == vs + [Read(inner)] + ReadAll(if next.None? then [] else next.value)
  {
    ConcatAssociative(vs, [Read(inner)], ReadAll(inner[FullLen(inner)..]));
  }

  /** The values of a structure of any bytes are those of the valid blocks at the front of it. */
  lemma {:induction false} ReadsFront(b: TTLV)
    ensures |ReadAll(b)| == |Front(b)|
    ensures AllWellFormed(Front(b)) && forall i :: 0 <= i < |Front(b)| ==>
              IsValid(Render(Front(b)[i])) && ReadAll(b)[i] == Read(Render(Front(b)[i]))
    decreases |b|
  {
    if !IsValid(b) {
    } else {
      var n, tail := Parse(b), b[FullLen(b)..];
      ReadsFront(tail);
      RenderParse(b);
      assert b == Render(n) + tail;
      ReadTrailing(n, tail);
      ConcatSlices([n], Front(tail));
      ConcatSlices([Read(b)], ReadAll(tail));
      forall i | 0 <= i < |Front(b)|
        ensures IsValid(Render(Front(b)[i])) && ReadAll(b)[i] == Read(Render(Front(b)[i]))
      {
        if i > 0 {
          assert Front(b)[i] == Front(tail)[i - 1] && ReadAll(b)[i] == ReadAll(tail)[i - 1];
        }
      }
    }
  }

  lemma ReadTrailing(n: Node, s: seq<Byte>)
    requires WellFormed(n)
    ensures IsValid(Render(n)) && IsValid(Render(n) + s) && Read(Render(n) + s) == Read(Render(n))
  {
    ReadBack(n, []);
    ParseRender(n, []);
    assert Render(n) + [] == Render(n);
    TrailingBytes(Render(n), s);
  }

  // ----- round trip -----

  /** Tags are in the valid ranges and every length fits in its header. */
  predicate Encodable(enums: Enums, v: Value, suggested: Word)
    decreases v, 0
  {
    match v.body
    case Nil => true
    case Single(x) =>
      var c := Choose(enums, TagOf(v, suggested), NO_FLAGS, FromItem(x));
      c.Write? ==> ValidTag(TagOf(v, suggested)) && Fits(c.item)
    case Values(children) =>
      && ValidTag(TagOf(v, suggested))
      && AllEncodable(enums, children, suggested)
      && |RenderAll(MarshalAll(enums, children, suggested).nodes)| < TWO32
  }

  predicate AllEncodable(enums: Enums, vs: seq<Value>, suggested: Word)
    decreases vs, 1
  {
    vs == [] || (Encodable(enums, vs[0], suggested) && AllEncodable(enums, vs[1..], suggested))
  }

  lemma {:induction false} EncodableWellFormed(enums: Enums, v: Value, suggested: Word)
    requires Encodable(enums, v, suggested)
    ensures AllWellFormed(Marshal(enums, v, suggested).nodes)
    decreases v, 0
  {
    var tag := TagOf(v, suggested);
    match v.body
    case Nil =>
    case Single(x) =>
      var c := Choose(enums, tag, NO_FLAGS, FromItem(x));
      if c.Write? {
        BlocksWellFormed(tag, c.item);
      }
    case Values(children) =>
      AllEncodableWellFormed(enums, children, suggested);
      assert WellFormed(Marshal(enums, v, suggested).nodes[0]);
  }

  lemma {:induction false} AllEncodableWellFormed(enums: Enums, vs: seq<Value>, suggested: Word)
    requires AllEncodable(enums, vs, suggested)
    ensures AllWellFormed(MarshalAll(enums, vs, suggested).nodes)
    decreases vs, 1
  {
    if vs == [] {
    } else {
      EncodableWellFormed(enums, vs[0], suggested);
      AllEncodableWellFormed(enums, vs[1..], suggested);
      AllWellFormedConcat(Marshal(enums, vs[0], suggested).nodes, MarshalAll(enums, vs[1..], suggested).nodes);
    }
  }

  /** What remains of a tree on the wire: nil values and nil byte strings vanish, tags are filled
      in, items take their chosen type and wire precision, structure and order stay. */
  function Survives(enums: Enums, v: Value, suggested: Word): seq<Value>
    decreases v, 0
  {
    var tag := TagOf(v, suggested);
    match v.body
    case Nil => []
    case Single(x) =>
      (match Choose(enums, tag, NO_FLAGS, FromItem(x))
       case Write(y) => [Value(tag, Single(OnWire(y)))]
       case _ => [])
    case Values(children) => [Value(tag, Values(AllSurvive(enums, children, suggested)))]
  }

  function AllSurvive(enums: Enums, vs: seq<Value>, suggested: Word): seq<Value>
    decreases vs, 1
  {
    if vs == [] then [] else Survives(enums, vs[0], suggested) + AllSurvive(enums, vs[1..], suggested)
  }

  /** Encoding any tree and reading it back gives what survives, whatever bytes follow. */
  lemma {:induction false} TreeRoundTrip(enums: Enums, v: Value, suggested: Word, s: seq<Byte>)
    requires Encodable(enums, v, suggested) && Marshal(enums, v, suggested).err.None?
    ensures var nodes := Marshal(enums, v, suggested).nodes;
            && |nodes| == |Survives(enums, v, suggested)| <= 1
            && (nodes != [] ==>
                  IsValid(RenderAll(nodes) + s) && [Read(RenderAll(nodes) + s)] == Survives(enums, v, suggested))
    decreases v, 0
  {
    EncodableWellFormed(enums, v, suggested);
    var tag, nodes := TagOf(v, suggested), Marshal(enums, v, suggested).nodes;
    if nodes != [] {
      RenderOne(nodes[0]);
      ReadBack(nodes[0], s);
      ParseRender(nodes[0], s);
    }
    match v.body
    case Nil =>
    case Single(x) =>
      var c := Choose(enums, tag, NO_FLAGS, FromItem(x));
      WritesOne(enums, tag, x);
      if c.Write? {
        ItemRoundTrip(tag, c.item, s);
      }
    case Values(children) =>
      AllRoundTrip(enums, children, suggested);
  }

  /** Reading at most one block in front of others. */
  lemma ReadFirst(nodes: seq<Node>, rest: seq<Node>, first: seq<Value>)
    requires AllWellFormed(nodes) && |nodes| == |first| <= 1
    requires nodes != [] ==> IsValid(RenderAll(nodes) + RenderAll(rest))
                             && [Read(RenderAll(nodes) + RenderAll(rest))] == first
    ensures ReadAll(RenderAll(nodes + rest)) == first + ReadAll(RenderAll(rest))
  {
    RenderAllConcat(nodes, rest);
    if nodes == [] {
      assert nodes + rest == rest && first + ReadAll(RenderAll(rest)) == ReadAll(RenderAll(rest));
    } else {
      assert nodes == [nodes[0]];
      RenderOne(nodes[0]);
      ReadBack(nodes[0], RenderAll(rest));
      ConcatSlices(Render(nodes[0]), RenderAll(rest));
    }
  }

  lemma {:induction false} AllRoundTrip(enums: Enums, vs: seq<Value>, suggested: Word)
    requires AllEncodable(enums, vs, suggested) && MarshalAll(enums, vs, suggested).err.None?
    ensures ReadAll(RenderAll(MarshalAll(enums, vs, suggested).nodes)) == AllSurvive(enums, vs, suggested)
    decreases vs, 1
  {
    if vs == [] {
    } else {
      var nodes, rest := Marshal(enums, vs[0], suggested).nodes, MarshalAll(enums, vs[1..], suggested).nodes;
      AllRoundTrip(enums, vs[1..], suggested);
      TreeRoundTrip(enums, vs[0], suggested, RenderAll(rest));
      EncodableWellFormed(enums, vs[0], suggested);
      ReadFirst(nodes, rest, Survives(enums, vs[0], suggested));
    }
  }

  lemma WritesOne(enums: Enums, tag: Word, x: Item)
    ensures var c := Choose(enums, tag, NO_FLAGS, FromItem(x));
            c.Write? ==> |Blocks(tag, c.item)| == 1
  {
  }

  /** Trees that come back unchanged: every value has a tag and survives at full precision, and no
      Integer or TextString sits under an enum that captures it. */
  predicate Faithful(enums: Enums, v: Value)
    decreases v, 0
  {
    v.tag != 0 &&
    match v.body
    case Nil => false
    case Single(x) => x != ByteString(None) && Exact(x) && !Reinterpreted(enums, v.tag, x)
    case Values(children) => AllFaithful(enums, children)
  }

  predicate AllFaithful(enums: Enums, vs: seq<Value>)
    decreases vs, 1
  {
    vs == [] || (Faithful(enums, vs[0]) && AllFaithful(enums, vs[1..]))
  }

  lemma SingleSurvives(enums: Enums, v: Value, x: Item, suggested: Word)
    requires v.body == Single(x) && Encodable(enums, v, suggested)
    ensures Survives(enums, v, suggested) == [v] <==> Faithful(enums, v)
  {
    if v.tag != 0 && x != ByteString(None) {
      ChosenAsIs(enums, v.tag, x);
      ExactItems(x);
      if Reinterpreted(enums, v.tag, x) {
        OtherType(enums, v.tag, x);
      }
    }
  }

  lemma OtherType(enums: Enums, tag: Word, x: Item)
    requires tag != 0 && Reinterpreted(enums, tag, x)
    ensures var c := Choose(enums, tag, NO_FLAGS, FromItem(x)); c.Write? && OnWire(c.item) != x
  {
  }

  /** A tree survives as itself exactly when it is faithful. */
  lemma {:induction false} SurvivesIffFaithful(enums: Enums, v: Value, suggested: Word)
    requires Encodable(enums, v, suggested)
    ensures Survives(enums, v, suggested) == [v] <==> Faithful(enums, v)
    decreases v, 0
  {
    match v.body
    case Nil =>
    case Single(x) => SingleSurvives(enums, v, x, suggested);
    case Values(children) => AllSurviveIffFaithful(enums, children, suggested);
  }

  lemma {:induction false} AllSurviveIffFaithful(enums: Enums, vs: seq<Value>, suggested: Word)
    requires AllEncodable(enums, vs, suggested)
    ensures |AllSurvive(enums, vs, suggested)| <= |vs|
    ensures AllSurvive(enums, vs, suggested) == vs <==> AllFaithful(enums, vs)
    decreases vs, 1
  {
    if vs == [] {
    } else {
      var first, rest := Survives(enums, vs[0], suggested), AllSurvive(enums, vs[1..], suggested);
      SurvivesIffFaithful(enums, vs[0], suggested);
      AllSurviveIffFaithful(enums, vs[1..], suggested);
      AtMostOne(enums, vs[0], suggested);
      HeadTail(vs);
      if first != [] {
        ConcatSlices(first, rest);
        ConcatSlices([vs[0]], vs[1..]);
      }
    }
  }

  lemma AtMostOne(enums: Enums, v: Value, suggested: Word)
    ensures |Survives(enums, v, suggested)| <= 1
  {
  }

  /** Encoding a tree and reading it back gives the same tree exactly when it is faithful. */
  lemma TreeComesBack(enums: Enums, v: Value, suggested: Word, s: seq<Byte>)
    requires Encodable(enums, v, suggested) && Marshal(enums, v, suggested).err.None?
    ensures var nodes := Marshal(enums, v, suggested).nodes;
            (nodes != [] && IsValid(RenderAll(nodes) + s) && Read(RenderAll(nodes) + s) == v) <==> Faithful(enums, v)
  {
    TreeRoundTrip(enums, v, suggested, s);
    SurvivesIffFaithful(enums, v, suggested);
  }

  /** A failed Encode leaves its partial output in the buffer; the next Encode writes it out in
      front of its own. */
  method EncodeAfterFailure(e: Encoder, bad: Value, good: Value, suggested: Word)
    requires e.encodeDepth == 0 && e.encBuf.buf == []
    requires Marshal(e.enums, bad, suggested).err.Some? && Marshal(e.enums, good, suggested).err.None?
    modifies e, e.encBuf
    ensures e.encBuf.buf == []
    ensures e.written == old(e.written) + RenderAll(Marshal(e.enums, bad, suggested).nodes)
                         + RenderAll(Marshal(e.enums, good, suggested).nodes)
  {
    assert e.Stream() == e.written;
    var err := e.Encode(bad, suggested);
    err := e.Encode(good, suggested);
    assert e.Stream() == e.written;
  }
}
