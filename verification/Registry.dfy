/** Enum: four maps between values, normalized names and canonical names, filled by registration. */
module Registry {
  import opened Bytes
  import opened Names
  import Hex

  datatype Entry = Entry(value: Word, name: Text)

  datatype Maps = Maps(
    valuesToName: map<Word, Text>,
    valuesToCanonicalName: map<Word, Text>,
    nameToValue: map<Text, Word>,
    canonicalNamesToValue: map<Text, Word>)
  {
    /** Normalized names are tried before canonical ones. */
    function Value(name: Text): Option<Word>
    {
      if name in nameToValue then Some(nameToValue[name])
      else if name in canonicalNamesToValue then Some(canonicalNamesToValue[name])
      else None
    }

    /** The enum as the formatting functions see it, given what Values returns. */
    function View(values: seq<Word>, bitmask: bool): EnumMap
    {
      EnumMap(valuesToName, canonicalNamesToValue + nameToValue, values, bitmask)
    }
  }

  const EMPTY: Maps := Maps(map[], map[], map[], map[])

  function Register(m: Maps, e: Entry, normalize: Text -> Text): Maps
  {
    var nn := normalize(e.name);
    Maps(m.valuesToName[e.value := nn], m.valuesToCanonicalName[e.value := e.name],
         m.nameToValue[nn := e.value], m.canonicalNamesToValue[e.name := e.value])
  }

  function RegisterAll(log: seq<Entry>, normalize: Text -> Text): Maps
  {
    if log == [] then EMPTY
    else Register(RegisterAll(log[..|log| - 1], normalize), log[|log| - 1], normalize)
  }

  /** The place of `x` in an ascending list. */
  function Insert(vs: seq<Word>, x: Word): seq<Word>
  {
    if vs == [] || x < vs[0] then [x] + vs else [vs[0]] + Insert(vs[1..], x)
  }

  lemma {:induction false} InsertMembers(vs: seq<Word>, x: Word)
    ensures forall y :: y in Insert(vs, x) <==> y == x || y in vs
  {
    if vs != [] && x >= vs[0] {
      InsertMembers(vs[1..], x);
      HeadTail(vs);
    }
  }

  lemma ConsAscending(x: Word, vs: seq<Word>)
    requires Ascending(vs) && forall j :: 0 <= j < |vs| ==> x < vs[j]
    ensures Ascending([x] + vs)
  {
  }

  lemma {:induction false} InsertAscending(vs: seq<Word>, x: Word)
    requires Ascending(vs) && x !in vs
    ensures Ascending(Insert(vs, x))
  {
    if vs == [] || x < vs[0] {
      ConsAscending(x, vs);
    } else {
      var r := Insert(vs[1..], x);
      InsertAscending(vs[1..], x);
      InsertMembers(vs[1..], x);
      forall j | 0 <= j < |r|
        ensures vs[0] < r[j]
      {
        assert r[j] in r;
        if r[j] != x {
          var k :| 0 <= k < |vs[1..]| && vs[1..][k] == r[j];
        } else {
          assert vs[0] in vs;
        }
      }
      ConsAscending(vs[0], r);
    }
  }

  class Enum {
    const normalize: Text -> Text
    const bitMask: bool
    var valuesToName: map<Word, Text>
    var valuesToCanonicalName: map<Word, Text>
    var nameToValue: map<Text, Word>
    var canonicalNamesToValue: map<Text, Word>

    ghost var log: seq<Entry>

    /** The maps are the outcome of the registrations so far. */
    ghost predicate Valid()
      reads this
    {
      State() == RegisterAll(log, normalize)
    }

    ghost function State(): Maps
      reads this
    {
      Maps(valuesToName, valuesToCanonicalName, nameToValue, canonicalNamesToValue)
    }

    constructor (normalize: Text -> Text, bitMask: bool)
      ensures Valid() && log == [] && this.normalize == normalize && this.bitMask == bitMask
    {
      log := [];
      this.normalize, this.bitMask := normalize, bitMask;
      valuesToName, valuesToCanonicalName := map[], map[];
      nameToValue, canonicalNamesToValue := map[], map[];
    }

    method RegisterValue(v: Word, name: Text)
      requires Valid()
      modifies this
      ensures Valid() && log == old(log) + [Entry(v, name)]
      ensures State() == Register(old(State()), Entry(v, name), normalize)
    {
      ConcatSlices(log, [Entry(v, name)]);
      log := log + [Entry(v, name)];
      var nn := normalize(name);
      valuesToName := valuesToName[v := nn];
      nameToValue := nameToValue[nn := v];
      valuesToCanonicalName := valuesToCanonicalName[v := name];
      canonicalNamesToValue := canonicalNamesToValue[name := v];
    }

    /** The normalized name of a value is that of its last registration. */
    method Name(v: Word) returns (r: Option<Text>)
      requires Valid()
      ensures r == match LastOf(log, v)
                   case Some(i) => Some(normalize(log[i].name))
                   case None => None
    {
      NameLeadsBack(log, normalize, v);
      return if v in valuesToName then Some(valuesToName[v]) else None;
    }

    method CanonicalName(v: Word) returns (r: Option<Text>)
      requires Valid()
      ensures r == match LastOf(log, v)
                   case Some(i) => Some(log[i].name)
                   case None => None
    {
      NameLeadsBack(log, normalize, v);
      return if v in valuesToCanonicalName then Some(valuesToCanonicalName[v]) else None;
    }

    /** The name of a value leads back to it exactly when no later registration reused it. */
    method Value(name: Text) returns (r: Option<Word>)
      requires Valid()
      ensures r == State().Value(name) == RegisteredValue(log, normalize, name)
      ensures forall v: Word, i: nat :: LastOf(log, v) == Some(i) && name == normalize(log[i].name) ==>
                (r == Some(v) <==> forall j :: i < j < |log| ==> normalize(log[j].name) != name)
    {
      ValueExact(log, normalize, name);
      forall v: Word, i: nat | LastOf(log, v) == Some(i) && name == normalize(log[i].name)
        ensures State().Value(name) == Some(v) <==> forall j :: i < j < |log| ==> normalize(log[j].name) != name
      {
        NameLeadsBack(log, normalize, v);
      }
      if name in nameToValue {
        return Some(nameToValue[name]);
      }
      return if name in canonicalNamesToValue then Some(canonicalNamesToValue[name]) else None;
    }

    /** Keys come out of the map in any order and are sorted. */
    method Values() returns (vs: seq<Word>)
      ensures Ascending(vs)
      ensures forall v :: v in vs <==> v in valuesToName
      ensures Valid() && DistinctNames(log, normalize) && UsableNames(log, normalize) ==>
                var em := State().View(vs, bitMask);
                TagNames(em) && EnumNames(em) && MaskNames(em) && Complete(em)
    {
      vs := [];
      var keys := valuesToName.Keys;
      while keys != {}
        invariant Ascending(vs)
        invariant forall v :: v in vs ==> v !in keys
        invariant forall v :: v in valuesToName <==> v in vs || v in keys
        decreases keys
      {
        var x :| x in keys;
        InsertAscending(vs, x);
        InsertMembers(vs, x);
        vs := Insert(vs, x);
        keys := keys - {x};
      }
      if Valid() && DistinctNames(log, normalize) && UsableNames(log, normalize) {
        RegisteredEnumUsable(log, normalize, vs, bitMask);
      }
    }
  }

  // ----- registration histories -----

  /** The last registration of a value. */
  function LastOf(log: seq<Entry>, v: Word): (r: Option<nat>)
    ensures r.Some? ==> r.value < |log| && log[r.value].value == v
    ensures r.Some? ==> forall j :: r.value < j < |log| ==> log[j].value != v
    ensures r.None? ==> forall j :: 0 <= j < |log| ==> log[j].value != v
  {
    if log == [] then None
    else if log[|log| - 1].value == v then Some(|log| - 1)
    else LastOf(log[..|log| - 1], v)
  }

  /** After any sequence of registrations a value has the names of its last registration, and its
      name leads back to it exactly when no later registration reused that normalized name. */
  lemma {:induction false} NameLeadsBack(log: seq<Entry>, normalize: Text -> Text, v: Word)
    ensures var m := RegisterAll(log, normalize);
            var last := LastOf(log, v);
            && (v in m.valuesToName <==> last.Some?)
            && (v in m.valuesToCanonicalName <==> last.Some?)
            && (last.Some? ==>
                  var i := last.value;
                  && m.valuesToName[v] == normalize(log[i].name)
                  && m.valuesToCanonicalName[v] == log[i].name
                  && (m.Value(m.valuesToName[v]) == Some(v) <==>
                      forall j :: i < j < |log| ==> normalize(log[j].name) != normalize(log[i].name)))
  {
    if log == [] {
    } else {
      var k := |log| - 1;
      var front := log[..k];
      NameLeadsBack(front, normalize, v);
      NameIsRegistered(front, normalize, v);
      if log[k].value != v && LastOf(log, v).Some? {
        var i := LastOf(log, v).value;
        assert forall j :: 0 <= j < k ==> front[j] == log[j];
      }
    }
  }

  /** The last registration under a normalized name, and under a canonical one. */
  function LastNormalized(log: seq<Entry>, normalize: Text -> Text, name: Text): (r: Option<nat>)
    ensures r.Some? ==> r.value < |log| && normalize(log[r.value].name) == name
    ensures r.Some? ==> forall j :: r.value < j < |log| ==> normalize(log[j].name) != name
    ensures r.None? ==> forall j :: 0 <= j < |log| ==> normalize(log[j].name) != name
  {
    if log == [] then None
    else if normalize(log[|log| - 1].name) == name then Some(|log| - 1)
    else LastNormalized(log[..|log| - 1], normalize, name)
  }

  function LastCanonical(log: seq<Entry>, name: Text): (r: Option<nat>)
    ensures r.Some? ==> r.value < |log| && log[r.value].name == name
    ensures r.Some? ==> forall j :: r.value < j < |log| ==> log[j].name != name
    ensures r.None? ==> forall j :: 0 <= j < |log| ==> log[j].name != name
  {
    if log == [] then None
    else if log[|log| - 1].name == name then Some(|log| - 1)
    else LastCanonical(log[..|log| - 1], name)
  }

  function RegisteredValue(log: seq<Entry>, normalize: Text -> Text, name: Text): Option<Word>
  {
    match LastNormalized(log, normalize, name)
    case Some(i) => Some(log[i].value)
    case None =>
      match LastCanonical(log, name)
      case Some(i) => Some(log[i].value)
      case None => None
  }

  lemma {:induction false} LookupExact(log: seq<Entry>, normalize: Text -> Text, name: Text)
    ensures var m, n, c := RegisterAll(log, normalize), LastNormalized(log, normalize, name), LastCanonical(log, name);
            && (name in m.nameToValue <==> n.Some?) && (n.Some? ==> m.nameToValue[name] == log[n.value].value)
            && (name in m.canonicalNamesToValue <==> c.Some?)
            && (c.Some? ==> m.canonicalNamesToValue[name] == log[c.value].value)
  {
    if log == [] {
    } else {
      LookupExact(log[..|log| - 1], normalize, name);
    }
  }

  /** A name stands for the value last registered with it as normalized name, or else for the value
      last registered with it as given. */
  lemma ValueExact(log: seq<Entry>, normalize: Text -> Text, name: Text)
    ensures RegisterAll(log, normalize).Value(name) == RegisteredValue(log, normalize, name)
  {
    LookupExact(log, normalize, name);
  }

  /** Values are written by the normalized name of their last registration, others as eight hex
      digits. */
  lemma WrittenName(log: seq<Entry>, normalize: Text -> Text, values: seq<Word>, bitmask: bool, v: Word)
    ensures var text := FormatEnum(v, Some(RegisterAll(log, normalize).View(values, bitmask)));
            match LastOf(log, v)
            case Some(i) => text == normalize(log[i].name)
            case None => |text| == 10 && text[..2] == Hex.PREFIX && text[2..] == Hex.Encode(BigEndian(v, 4))
  {
    NameLeadsBack(log, normalize, v);
    PowWords();
    Hex.FormatParse(v, 4);
  }

  /** And read as a decimal numeral, hex value or registered name, tried in that order. */
  lemma ReadName(log: seq<Entry>, normalize: Text -> Text, values: seq<Word>, bitmask: bool, s: Text)
    ensures var r := ParseEnum(s, Some(RegisterAll(log, normalize).View(values, bitmask)));
            && (forall n: Word :: Spells(s, n) ==> r == Ok(n))
            && (ParseDecimalUint32(s).None? && !Hex.IsHex(s) ==>
                  r == match RegisteredValue(log, normalize, s)
                       case Some(v) => Ok(v)
                       case None => Err(ErrUnregisteredEnumName))
  {
    forall n: Word | Spells(s, n)
      ensures ParseDecimalUint32(s) == Some(n)
    {
      ParseUintExact(s, n);
    }
    ValueExact(log, normalize, s);
  }

  lemma {:induction false} NameIsRegistered(log: seq<Entry>, normalize: Text -> Text, v: Word)
    ensures var m := RegisterAll(log, normalize);
            v in m.valuesToName ==> m.valuesToName[v] in m.nameToValue
  {
    if log == [] {
    } else {
      NameIsRegistered(log[..|log| - 1], normalize, v);
    }
  }

  /** Different values never share a normalized name. */
  ghost predicate DistinctNames(log: seq<Entry>, normalize: Text -> Text)
  {
    forall i, j :: 0 <= i < |log| && 0 <= j < |log| && normalize(log[i].name) == normalize(log[j].name)
                   ==> log[i].value == log[j].value
  }

  /** Normalized names usable in enumeration and mask text. */
  ghost predicate UsableNames(log: seq<Entry>, normalize: Text -> Text)
  {
    forall i :: 0 <= i < |log| ==>
      var nn := normalize(log[i].name);
      GoodPart(nn) && !Hex.IsHex(nn) && ParseDecimalInt32(nn).None? && ParseDecimalUint32(nn).None?
  }

  lemma {:induction false} LookupIsRegistered(log: seq<Entry>, normalize: Text -> Text, s: Text)
    ensures var m := RegisterAll(log, normalize);
            && (s in m.nameToValue ==> m.nameToValue[s] in m.valuesToName)
            && (s in m.canonicalNamesToValue ==> m.canonicalNamesToValue[s] in m.valuesToName)
  {
    if log == [] {
    } else {
      LookupIsRegistered(log[..|log| - 1], normalize, s);
    }
  }

  /** Enums built by registration meet everything the mask and enumeration round trips ask for. */
  lemma RegisteredEnumUsable(log: seq<Entry>, normalize: Text -> Text, values: seq<Word>, bitmask: bool)
    requires DistinctNames(log, normalize) && UsableNames(log, normalize)
    requires Ascending(values)
    requires forall v :: v in values <==> v in RegisterAll(log, normalize).valuesToName
    ensures var em := RegisterAll(log, normalize).View(values, bitmask);
            TagNames(em) && EnumNames(em) && MaskNames(em) && Complete(em)
  {
    var m := RegisterAll(log, normalize);
    var em := m.View(values, bitmask);
    forall s | s in em.lookup
      ensures em.lookup[s] in em.names
    {
      LookupIsRegistered(log, normalize, s);
    }
    forall v | v in m.valuesToName
      ensures var nn := m.valuesToName[v];
              && nn in m.nameToValue && m.nameToValue[nn] == v
              && GoodPart(nn) && !Hex.IsHex(nn) && ParseDecimalInt32(nn).None? && ParseDecimalUint32(nn).None?
    {
      NameLeadsBack(log, normalize, v);
      NameIsRegistered(log, normalize, v);
    }
  }
}
