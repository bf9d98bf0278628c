/**
 Converting a batch of payloads to structs, field by field.

 How a payload is decoded into a field or a whole struct is a parameter. Go visits a map in any
 order, anew for every field.
 */
module BatchConversion {
  import opened Bytes
  import opened Collections
  import opened HostData
  import opened BatchMetadata

  /** A struct field with its JSON name; `data` marks the field that takes the payload itself. */
  datatype Field = Field(tag: string, data: bool)

  /** The fields' values in order; None for a field left at its zero value. */
  type Struct = seq<Option<nat>>

  /**
   `whole` and `fallback` decode a struct at once, `decode` decodes into the field of that index.
   Names are equal but for case if `fold` makes them equal.
   */
  datatype Converter = Converter(
    fields: seq<Field>,
    whole: Text -> Option<Struct>,
    decode: (nat, TypedData) -> Option<nat>,
    fallback: TypedData -> Option<Struct>,
    fold: string -> string)

  /** The order in which the metadata is visited for each field. */
  type Visits = nat -> seq<string>

  ghost predicate AreOrders(metadata: Metadata, visits: Visits) {
    forall f: nat :: IsOrder(metadata, visits(f))
  }

  predicate HasDataField(c: Converter) {
    exists field <- c.fields :: field.data
  }

  // ----- Where a field is taken from -----

  /** The first key of `order` that equals `tag` but for case. */
  function FirstFolded(c: Converter, order: seq<string>, tag: string): (key: Option<string>)
    ensures key.Some? ==> key.value in order && c.fold(key.value) == c.fold(tag)
    ensures key.None? ==> forall other <- order :: c.fold(other) != c.fold(tag)
  {
    if order == [] then None
    else if c.fold(order[0]) == c.fold(tag) then Some(order[0])
    else FirstFolded(c, order[1..], tag)
  }

  /** The key for a tag: the tag itself, else the first key that equals it but for case. */
  function KeyFor(c: Converter, metadata: Metadata, order: seq<string>, tag: string): Option<string> {
    if tag in metadata then Some(tag) else FirstFolded(c, order, tag)
  }

  /** What the metadata has for a tag. */
  function Found(c: Converter, metadata: Metadata, order: seq<string>, tag: string): Option<TypedData> {
    match KeyFor(c, metadata, order, tag)
    case Some(key) => if key in metadata then Some(metadata[key]) else None
    case None => None
  }

  function SourceOf(c: Converter, f: nat, payload: TypedData, metadata: Metadata, visits: Visits): Option<TypedData>
    requires f < |c.fields|
  {
    if c.fields[f].data then Some(payload) else Found(c, metadata, visits(f), c.fields[f].tag)
  }

  /** The value of a field that has just this source. */
  function Decoded(c: Converter, f: nat, source: Option<TypedData>): Result<Option<nat>> {
    match source
    case None => Ok(None)
    case Some(Missing) => Ok(None)
    case Some(data) => match c.decode(f, data) { case None => Failed case Some(v) => Ok(Some(v)) }
  }

  method LookUp(c: Converter, metadata: Metadata, order: seq<string>, tag: string) returns (source: Option<TypedData>)
    requires IsOrder(metadata, order)
    ensures source == Found(c, metadata, order, tag)
    ensures source.Some? <==> exists key <- metadata :: c.fold(key) == c.fold(tag)
  {
    if tag in metadata { return Some(metadata[tag]); }
    for i := 0 to |order|
      invariant FirstFolded(c, order, tag) == FirstFolded(c, order[i..], tag)
    {
      assert order[i] in metadata;
      if c.fold(order[i]) == c.fold(tag) { return Some(metadata[order[i]]); }
    }
    return None;
  }

  // ----- When the order of the map does not matter -----

  /** Without the tag itself, two keys that equal it but for case hold different values. */
  ghost predicate Ambiguous(c: Converter, metadata: Metadata, tag: string) {
    tag !in metadata &&
    exists a, b ::
      a in metadata && b in metadata && c.fold(a) == c.fold(tag) == c.fold(b) && metadata[a] != metadata[b]
  }

  /** An order of the keys that starts with a given one. */
  lemma OrderFrom(metadata: Metadata, key: string) returns (order: seq<string>)
    requires key in metadata
    ensures IsOrder(metadata, order) && order[0] == key
  {
    var rest := SomeOrder(metadata.Keys - {key});
    order := [key] + rest;
  }

  lemma UnambiguousSame(c: Converter, metadata: Metadata, o: seq<string>, p: seq<string>, tag: string)
    requires IsOrder(metadata, o) && IsOrder(metadata, p) && !Ambiguous(c, metadata, tag)
    ensures Found(c, metadata, o, tag) == Found(c, metadata, p, tag)
  {
    var a, b := KeyFor(c, metadata, o, tag), KeyFor(c, metadata, p, tag);
    assert a.Some? ==> a.value in metadata && (tag in metadata || c.fold(a.value) == c.fold(tag));
    assert b.Some? ==> b.value in metadata && (tag in metadata || c.fold(b.value) == c.fold(tag));
  }

  /** What is found for a tag does not depend on the order of the map exactly when the tag is not ambiguous. */
  lemma FoundExactly(c: Converter, metadata: Metadata, tag: string)
    ensures (forall o, p :: IsOrder(metadata, o) && IsOrder(metadata, p) ==>
               Found(c, metadata, o, tag) == Found(c, metadata, p, tag)) <==>
            !Ambiguous(c, metadata, tag)
  {
    if Ambiguous(c, metadata, tag) {
      var a, b :|
        a in metadata && b in metadata && c.fold(a) == c.fold(tag) == c.fold(b) && metadata[a] != metadata[b];
      var o := OrderFrom(metadata, a);
      var p := OrderFrom(metadata, b);
      assert Found(c, metadata, o, tag) == Some(metadata[a]) && Found(c, metadata, p, tag) == Some(metadata[b]);
    } else {
      forall o, p | IsOrder(metadata, o) && IsOrder(metadata, p)
        ensures Found(c, metadata, o, tag) == Found(c, metadata, p, tag)
      {
        UnambiguousSame(c, metadata, o, p, tag);
      }
    }
  }

  // ----- Structs -----

  /** The JSON or text of a payload that may be a whole struct. */
  function WholeText(payload: TypedData): Text {
    match payload
    case JsonData(s) => s
    case TextData(s) => s
    case _ => []
  }

  /** The payload is the whole struct as JSON. */
  predicate IsWhole(c: Converter, payload: TypedData) {
    !HasDataField(c) && WholeText(payload) != [] && c.whole(WholeText(payload)).Some?
  }

  predicate HasSource(c: Converter, payload: TypedData, metadata: Metadata, visits: Visits) {
    exists f: nat | f < |c.fields| :: SourceOf(c, f, payload, metadata, visits).Some?
  }

  ghost predicate IsStruct(c: Converter, payload: TypedData, metadata: Metadata, visits: Visits, r: Result<Struct>) {
    if IsWhole(c, payload) then r == Ok(c.whole(WholeText(payload)).value)
    else if exists f: nat :: f < |c.fields| && Decoded(c, f, SourceOf(c, f, payload, metadata, visits)).Failed?
      then r == Failed
    else if HasSource(c, payload, metadata, visits) then
      r.Ok? && |r.value| == |c.fields| &&
      forall f: nat :: f < |c.fields| ==> Decoded(c, f, SourceOf(c, f, payload, metadata, visits)) == Ok(r.value[f])
    else match c.fallback(payload) { case None => r == Failed case Some(s) => r == Ok(s) }
  }

  /** Without a data field, a payload that is the whole struct as JSON decides alone. */
  lemma WholeFirst(
    c: Converter, payload: TypedData, metadata: Metadata, visits: Visits, r: Result<Struct>, text: Text, s: Struct)
    requires forall field <- c.fields :: !field.data
    requires (payload == JsonData(text) || payload == TextData(text)) && text != [] && c.whole(text) == Some(s)
    ensures IsStruct(c, payload, metadata, visits, r) <==> r == Ok(s)
  {
  }

  /** Without any source for a field, a payload that is no whole struct is decoded in the default way. */
  lemma FallbackLast(c: Converter, payload: TypedData, metadata: Metadata, visits: Visits, r: Result<Struct>)
    requires AreOrders(metadata, visits)
    requires forall field <- c.fields :: !field.data && forall key <- metadata :: c.fold(key) != c.fold(field.tag)
    requires forall text: Text ::
      (payload == JsonData(text) || payload == TextData(text)) && text != [] ==> c.whole(text).None?
    ensures IsStruct(c, payload, metadata, visits, r) <==>
            if c.fallback(payload).Some? then r == Ok(c.fallback(payload).value) else r == Failed
  {
    forall f: nat | f < |c.fields| ensures SourceOf(c, f, payload, metadata, visits).None? {
      assert c.fields[f] in c.fields;
    }
  }

  /** Without ambiguous tags a struct does not depend on how the metadata is visited. */
  lemma VisitsIrrelevant(
    c: Converter, payload: TypedData, metadata: Metadata, v: Visits, w: Visits, r: Result<Struct>)
    requires AreOrders(metadata, v) && AreOrders(metadata, w)
    requires forall field <- c.fields :: !field.data ==> !Ambiguous(c, metadata, field.tag)
    ensures IsStruct(c, payload, metadata, v, r) <==> IsStruct(c, payload, metadata, w, r)
  {
    forall f: nat | f < |c.fields|
      ensures SourceOf(c, f, payload, metadata, v) == SourceOf(c, f, payload, metadata, w)
    {
      if !c.fields[f].data {
        assert c.fields[f] in c.fields;
        UnambiguousSame(c, metadata, v(f), w(f), c.fields[f].tag);
      }
    }
  }

  /** The value of every field, up to the first that cannot be decoded, and whether any had a source. */
  method ConvertFields(c: Converter, payload: TypedData, metadata: Metadata, visits: Visits)
    returns (values: Result<Struct>, any: bool)
    requires AreOrders(metadata, visits)
    ensures match values
      case Ok(s) =>
        |s| == |c.fields| && (any <==> HasSource(c, payload, metadata, visits)) &&
        forall f: nat :: f < |c.fields| ==> Decoded(c, f, SourceOf(c, f, payload, metadata, visits)) == Ok(s[f])
      case Failed => exists f: nat :: f < |c.fields| && Decoded(c, f, SourceOf(c, f, payload, metadata, visits)).Failed?
  {
    var s: Struct := [];
    any := false;
    for f := 0 to |c.fields|
      invariant |s| == f
      invariant forall k: nat :: k < f ==> Decoded(c, k, SourceOf(c, k, payload, metadata, visits)) == Ok(s[k])
      invariant any ==> HasSource(c, payload, metadata, visits)
      invariant !any ==> forall k: nat :: k < f ==> SourceOf(c, k, payload, metadata, visits).None?
    {
      var source := Some(payload);
      if !c.fields[f].data { source := LookUp(c, metadata, visits(f), c.fields[f].tag); }
      assert source == SourceOf(c, f, payload, metadata, visits);
      any := any || source.Some?;
      var value := Decoded(c, f, source);
      if value.Failed? { return Failed, any; }
      s := s + [value.value];
    }
    values := Ok(s);
  }

  method ConvertStruct(c: Converter, payload: TypedData, metadata: Metadata, visits: Visits) returns (r: Result<Struct>)
    requires AreOrders(metadata, visits)
    ensures IsStruct(c, payload, metadata, visits, r)
  {
    var text := WholeText(payload);
    if !HasDataField(c) && text != [] {
      var whole := c.whole(text);
      if whole.Some? { return Ok(whole.value); }
    }
    var values, any := ConvertFields(c, payload, metadata, visits);
    if values.Failed? || any { return values; }
    var fallback := c.fallback(payload);
    return if fallback.Some? then Ok(fallback.value) else Failed;
  }

  /** `orders` and `visits` give the orders in which the maps are visited for each element. */
  ghost predicate AreBatchOrders(
    arrays: Arrays, metadata: Metadata, orders: nat -> seq<string>, visits: nat -> Visits) {
    forall i: nat :: IsOrder(metadata, orders(i)) && AreOrders(Overlay(arrays, metadata, i, orders(i)), visits(i))
  }

  /** Each element of a batch is converted with the metadata of its own index. */
  method ConvertBatch(
    c: Converter, arrays: Arrays, data: TypedData, metadata: Metadata,
    orders: nat -> seq<string>, visits: nat -> Visits)
    returns (r: Result<seq<Struct>>)
    requires IsCollection(data) && AreBatchOrders(arrays, metadata, orders, visits)
    ensures match r
      case Ok(structs) =>
        |structs| == Count(data) &&
        forall i: nat :: i < Count(data) ==>
          IsStruct(c, ItemAt(data, i), Overlay(arrays, metadata, i, orders(i)), visits(i), Ok(structs[i]))
      case Failed =>
        exists i: nat ::
          i < Count(data) &&
          IsStruct(c, ItemAt(data, i), Overlay(arrays, metadata, i, orders(i)), visits(i), Failed)
  {
    var items := CollectionValues(data).value;
    var structs: seq<Struct> := [];
    for i := 0 to |items|
      invariant |structs| == i
      invariant forall k: nat ::
        k < i ==> IsStruct(c, items[k], Overlay(arrays, metadata, k, orders(k)), visits(k), Ok(structs[k]))
    {
      var own := CollectionMetadataAt(arrays, metadata, i, orders(i), orders(i));
      var element := ConvertStruct(c, items[i], own, visits(i));
      if element.Failed? { return Failed; }
      structs := structs + [element.value];
    }
    return Ok(structs);
  }

  // ----- Where the fields of an element come from -----

  /** The value of a field taken from `data`. */
  predicate Takes(c: Converter, f: nat, value: Option<nat>, data: TypedData) {
    if data.Missing? then value.None? else value.Some? && c.decode(f, data) == value
  }

  /** The data field of an element comes from its own payload. */
  lemma DataFromOwnPayload(c: Converter, payload: TypedData, metadata: Metadata, visits: Visits, s: Struct, f: nat)
    requires f < |c.fields| && c.fields[f].data && IsStruct(c, payload, metadata, visits, Ok(s))
    ensures |s| == |c.fields| && Takes(c, f, s[f], payload)
  {
    assert SourceOf(c, f, payload, metadata, visits).Some? && HasDataField(c) by { assert c.fields[f] in c.fields; }
    assert Decoded(c, f, SourceOf(c, f, payload, metadata, visits)) == Ok(s[f]);
  }

  /**
   A field of element `i` that is not taken from the payload, when the struct is converted field by
   field: it is left alone exactly when no key equals its tag but for case; else its value is what is
   held for `i` under such a key, the tag itself if it is one, and so never comes from another index,
   nor from a scalar where entry `i` of the array of that name exists.
   */
  lemma MetadataFromOwnIndex(
    c: Converter, arrays: Arrays, payload: TypedData, metadata: Metadata, i: nat, order: seq<string>,
    visits: Visits, s: Struct, f: nat)
    requires f < |c.fields| && !c.fields[f].data
    requires var own := Overlay(arrays, metadata, i, order);
      IsOrder(metadata, order) && AreOrders(own, visits) && !IsWhole(c, payload) &&
      HasSource(c, payload, own, visits) && IsStruct(c, payload, own, visits, Ok(s))
    ensures |s| == |c.fields|
    ensures var x, own := c.fields[f].tag, Overlay(arrays, metadata, i, order);
      if exists key, data :: c.fold(key) == c.fold(x) && HoldsFor(arrays, metadata, i, key, data) then
        exists key, data ::
          c.fold(key) == c.fold(x) && (x in own ==> key == x) &&
          HoldsFor(arrays, metadata, i, key, data) && Takes(c, f, s[f], data)
      else s[f].None?
  {
    var x, own := c.fields[f].tag, Overlay(arrays, metadata, i, order);
    var key := KeyFor(c, own, visits(f), x);
    assert Decoded(c, f, SourceOf(c, f, payload, own, visits)) == Ok(s[f]);
    if key.Some? {
      assert key.value in own && c.fold(key.value) == c.fold(x) && (x in own ==> key.value == x);
      MetadataExactly(arrays, metadata, i, order, key.value);
      assert Takes(c, f, s[f], own[key.value]);
    } else {
      forall k, data | HoldsFor(arrays, metadata, i, k, data) ensures c.fold(k) != c.fold(x) {
        MetadataExactly(arrays, metadata, i, order, k);
      }
    }
  }

  /** `key` is the one that a tag finds: the tag itself, or the only one that equals it but for case. */
  ghost predicate Names(c: Converter, own: Metadata, tag: string, key: string) {
    c.fold(key) == c.fold(tag) && (key == tag || forall other <- own :: c.fold(other) == c.fold(key) ==> other == key)
  }

  /**
   For the key X that the tag of a field finds, in whatever case, unless two arrays named X clash:
   entry `i` of the array named X with any spelling of the suffix, if there is such an entry, else the
   scalar X.
   */
  lemma ArrayBeforeScalar(
    c: Converter, arrays: Arrays, payload: TypedData, metadata: Metadata, i: nat, order: seq<string>,
    visits: Visits, s: Struct, f: nat, key: string)
    requires f < |c.fields| && !c.fields[f].data && !ClashAt(arrays, metadata, i, key)
    requires var own := Overlay(arrays, metadata, i, order);
      IsOrder(metadata, order) && AreOrders(own, visits) && !IsWhole(c, payload) &&
      HasSource(c, payload, own, visits) && IsStruct(c, payload, own, visits, Ok(s)) &&
      Names(c, own, c.fields[f].tag, key)
    ensures |s| == |c.fields|
    ensures forall data :: GivenAt(arrays, metadata, i, key, data) ==> Takes(c, f, s[f], data)
    ensures IsScalar(metadata, key) && !(exists data :: GivenAt(arrays, metadata, i, key, data)) ==>
      Takes(c, f, s[f], metadata[key])
  {
    var x, own := c.fields[f].tag, Overlay(arrays, metadata, i, order);
    assert Decoded(c, f, SourceOf(c, f, payload, own, visits)) == Ok(s[f]);
    MetadataExactly(arrays, metadata, i, order, key);
    if key in own {
      assert KeyFor(c, own, visits(f), x) == Some(key);
      assert Takes(c, f, s[f], own[key]);
    }
    forall data | GivenAt(arrays, metadata, i, key, data) ensures Takes(c, f, s[f], data) {
      assert HoldsFor(arrays, metadata, i, key, data);
    }
    if IsScalar(metadata, key) && !(exists data :: GivenAt(arrays, metadata, i, key, data)) {
      assert HoldsFor(arrays, metadata, i, key, metadata[key]);
    }
  }
}
