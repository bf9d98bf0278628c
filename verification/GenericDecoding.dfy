/**
 Decoding a payload into a value of a generic handler's type: text and bytes are delivered raw,
 collections element by element, everything else as one JSON value.

 What the JSON library does is a parameter, see `Codecs`.
 */
module GenericDecoding {
  import opened Bytes
  import opened Collections
  import opened TypeGraph
  import BindingType
  import opened HostData

  /** A decoded value. `Parsed` is what the JSON library made of its input. */
  datatype Value =
    | TextValue(text: Text)
    | BytesValue(bytes: seq<Byte>)
    | Parsed(content: nat)
    | ListValue(items: seq<Value>)
    | NilPointer
    | Ref(target: Value)

  /**
   `number` is the type of JSON numbers, a string type that is not text; `decoders` are the types
   with a JSON decoder of their own, and `convertible` the types to which plain bytes convert. The
   functions are those of the libraries: white space trimmed at both ends, integers and doubles as
   text, strings and base64 bytes as JSON, one JSON array of the given elements, and the decoding of
   exactly one JSON value into a type.
   */
  datatype Codecs = Codecs(
    number: TypeId,
    decoders: set<TypeId>,
    convertible: set<TypeId>,
    trim: Text -> Text,
    decimal: int -> Text,
    double: Float64 -> Option<Text>,
    quote: Text -> Text,
    base64: seq<Byte> -> Text,
    asArray: seq<Text> -> Option<Text>,
    parse: (TypeId, Text) -> Option<nat>)

  const NULL: Text := [0x6E, 0x75, 0x6C, 0x6C]

  // ----- Kinds of types -----

  predicate IsText(g: Types, c: Codecs, t: TypeId)
    requires t in g
  {
    g[t] == Basic(String) && t != c.number
  }

  predicate IsBytes(g: Types, t: TypeId)
    requires t in g
  {
    g[t].Slice? && g[t].elem in g && g[g[t].elem] == Basic(Uint8)
  }

  predicate IsRaw(g: Types, c: Codecs, t: TypeId)
    requires t in g
  {
    IsText(g, c, t) || IsBytes(g, t)
  }

  // ----- Payloads -----

  predicate IsNull(c: Codecs, data: TypedData) {
    match data
    case TextData(s) => c.trim(s) == NULL
    case JsonData(s) => c.trim(s) == NULL
    case BytesData(s) => c.trim(s) == NULL
    case _ => false
  }

  /** The bytes of a single payload. */
  function Content(c: Codecs, data: TypedData): Option<seq<Byte>> {
    match data
    case TextData(s) => Some(s)
    case JsonData(s) => Some(s)
    case BytesData(s) => Some(s)
    case IntData(n) => Some(c.decimal(n))
    case DoubleData(d) => c.double(d)
    case _ => None
  }

  function RawValue(g: Types, c: Codecs, t: TypeId, data: TypedData): Result<Value>
    requires t in g
  {
    match Content(c, data)
    case None => Failed
    case Some(s) => Ok(if IsText(g, c, t) then TextValue(s) else BytesValue(s))
  }

  function JsonValue(c: Codecs, t: TypeId, content: Option<Text>): Result<Value> {
    match content
    case None => Failed
    case Some(s) => match c.parse(t, s) { case None => Failed case Some(n) => Ok(Parsed(n)) }
  }

  /** A collection element as JSON: raw elements are quoted, others are inserted as they are. */
  ghost function ElementJson(g: Types, c: Codecs, elem: TypeId, item: TypedData): Option<Text>
    requires Closed(g) && elem in g && BaseOf(g, elem).Some?
  {
    var base := BaseOf(g, elem).value;
    match Content(c, item)
    case None => None
    case Some(s) => Some(if IsText(g, c, base) then c.quote(s) else if IsBytes(g, base) then c.base64(s) else s)
  }

  /** All of the elements as JSON, or None if one of them has none. */
  ghost function ElementsJson(g: Types, c: Codecs, elem: TypeId, items: seq<TypedData>): Option<seq<Text>>
    requires Closed(g) && elem in g && BaseOf(g, elem).Some?
  {
    if items == [] then Some([])
    else
      var front := ElementsJson(g, c, elem, items[..|items| - 1]);
      var last := ElementJson(g, c, elem, items[|items| - 1]);
      if front.Some? && last.Some? then Some(front.value + [last.value]) else None
  }

  /** The JSON array that a slice type with a decoder of its own is given. */
  ghost function CollectionJson(g: Types, c: Codecs, elem: TypeId, items: seq<TypedData>): Option<Text>
    requires Closed(g) && elem in g
  {
    if BaseOf(g, elem).None? then None
    else
      match ElementsJson(g, c, elem, items)
      case None => None
      case Some(parts) => c.asArray(parts)
  }

  // ----- The length of a pointer chain -----

  ghost function LeastEnd(g: Types, t: TypeId, n: nat): (m: nat)
    requires Closed(g) && t in g && !g[Walk(g, t, n)].Pointer?
    ensures !g[Walk(g, t, m)].Pointer? && forall k: nat :: k < m ==> g[Walk(g, t, k)].Pointer?
    decreases n
  {
    if exists k: nat :: k < n && !g[Walk(g, t, k)].Pointer? then
      var k: nat :| k < n && !g[Walk(g, t, k)].Pointer?;
      LeastEnd(g, t, k)
    else n
  }

  /** The number of pointers before the base of `t`; 0 for an endless chain. */
  ghost function ChainLength(g: Types, t: TypeId): (n: nat)
    requires Closed(g) && t in g
    ensures !Endless(g, t) ==> !g[Walk(g, t, n)].Pointer? && forall m: nat :: m < n ==> g[Walk(g, t, m)].Pointer?
  {
    if Endless(g, t) then 0
    else
      var n: nat :| !g[Walk(g, t, n)].Pointer?;
      LeastEnd(g, t, n)
  }

  lemma ChainOfPointer(g: Types, t: TypeId)
    requires Closed(g) && t in g && g[t].Pointer? && BaseOf(g, t).Some?
    ensures g[t].elem in g && BaseOf(g, g[t].elem) == BaseOf(g, t) && ChainLength(g, t) == ChainLength(g, g[t].elem) + 1
  {
    BaseOfPointer(g, t);
    var e := g[t].elem;
    var n, m := ChainLength(g, t), ChainLength(g, e);
    assert n > 0 by { assert Walk(g, t, 0) == t; }
    assert Walk(g, t, n) == Walk(g, e, n - 1) && Walk(g, t, m + 1) == Walk(g, e, m);
  }

  // ----- Decoding -----

  /**
   The value that a payload decodes to. Only a pointer may be nil, and only if its base is not raw
   and the payload is null; a collection must meet a slice.
   */
  ghost function DecodeOf(g: Types, c: Codecs, t: TypeId, data: TypedData): Result<Value>
    requires Closed(g) && t in g
    decreases IsCollection(data), ChainLength(g, t), 0
  {
    if data.Missing? || data.Unset? then Failed
    else if g[t].Pointer? then
      match BaseOf(g, t) {
        case None => Failed
        case Some(base) =>
          if !IsRaw(g, c, base) && IsNull(c, data) then Ok(NilPointer)
          else
            ChainOfPointer(g, t);
            match DecodeOf(g, c, g[t].elem, data) { case Failed => Failed case Ok(v) => Ok(Ref(v)) }
      }
    else
      match CollectionValues(data) {
        case Some(items) =>
          if !g[t].Slice? || IsBytes(g, t) then Failed
          else
            assert g[t].elem == Parts(g[t])[0];
            if t in c.decoders then JsonValue(c, t, CollectionJson(g, c, g[t].elem, items))
            else match DecodeItems(g, c, g[t].elem, items) { case Failed => Failed case Ok(vs) => Ok(ListValue(vs)) }
        case None =>
          if IsRaw(g, c, t) then RawValue(g, c, t, data)
          else if IsNull(c, data) && !g[t].Map? && !g[t].Slice? && !g[t].Interface? then Failed
          else JsonValue(c, t, Content(c, data))
      }
  }

  ghost function DecodeItems(g: Types, c: Codecs, elem: TypeId, items: seq<TypedData>): Result<seq<Value>>
    requires Closed(g) && elem in g && forall item <- items :: !IsCollection(item)
    decreases false, ChainLength(g, elem), |items| + 1
  {
    if items == [] then Ok([])
    else
      var front, last := DecodeItems(g, c, elem, items[..|items| - 1]), DecodeOf(g, c, elem, items[|items| - 1]);
      if front.Ok? && last.Ok? then Ok(front.value + [last.value]) else Failed
  }

  // ----- What is decoded -----

  /** `v` behind `n` pointers. */
  function Behind(n: nat, v: Value): Value {
    if n == 0 then v else Ref(Behind(n - 1, v))
  }

  /** A pointer chain is nil as a whole, or is as deep as its type with the decoded base at its end. */
  lemma {:induction false} PointersTransparent(g: Types, c: Codecs, t: TypeId, data: TypedData)
    requires Closed(g) && t in g && BaseOf(g, t).Some? && !data.Missing? && !data.Unset?
    ensures var base := BaseOf(g, t).value;
      DecodeOf(g, c, t, data) ==
      if g[t].Pointer? && !IsRaw(g, c, base) && IsNull(c, data) then Ok(NilPointer)
      else
        match DecodeOf(g, c, base, data)
        case Failed => Failed
        case Ok(v) => Ok(Behind(ChainLength(g, t), v))
    decreases ChainLength(g, t)
  {
    if g[t].Pointer? {
      ChainOfPointer(g, t);
      var base, e := BaseOf(g, t).value, g[t].elem;
      if IsRaw(g, c, base) || !IsNull(c, data) {
        PointersTransparent(g, c, e, data);
      }
    } else {
      BaseOfData(g, t);
      assert ChainLength(g, t) == 0 by { assert Walk(g, t, 0) == t; }
    }
  }

  /** A pointer type whose chain never ends holds no data and decodes nothing. */
  lemma EndlessFails(g: Types, c: Codecs, t: TypeId, data: TypedData)
    requires Closed(g) && t in g && Endless(g, t)
    ensures DecodeOf(g, c, t, data) == Failed
  {
    assert Walk(g, t, 0) == t && g[Walk(g, t, 0)].Pointer?;
  }

  /** Null payloads become nil exactly for pointers to what is decoded as JSON. */
  lemma NilExactly(g: Types, c: Codecs, t: TypeId, data: TypedData)
    requires Closed(g) && t in g
    ensures DecodeOf(g, c, t, data) == Ok(NilPointer) <==>
            g[t].Pointer? && BaseOf(g, t).Some? && !IsRaw(g, c, BaseOf(g, t).value) && IsNull(c, data)
  {}

  /** The JSON library makes something of the payload. */
  predicate Parses(c: Codecs, t: TypeId, data: TypedData) {
    Content(c, data).Some? && c.parse(t, Content(c, data).value).Some?
  }

  /** When a single payload is decoded at all, through any chain of pointers. */
  lemma SuccessExactly(g: Types, c: Codecs, t: TypeId, data: TypedData)
    requires Closed(g) && t in g && !IsCollection(data)
    ensures DecodeOf(g, c, t, data).Ok? <==>
            !data.Missing? && !data.Unset? && BaseOf(g, t).Some? &&
            var base := BaseOf(g, t).value;
            if IsRaw(g, c, base) then Content(c, data).Some?
            else if IsNull(c, data) then
              g[t].Pointer? || ((g[base].Map? || g[base].Slice? || g[base].Interface?) && Parses(c, base, data))
            else Parses(c, base, data)
  {
    if BaseOf(g, t).None? {
      EndlessFails(g, c, t, data);
    } else if !data.Missing? && !data.Unset? {
      PointersTransparent(g, c, t, data);
    }
  }

  // ----- What must be decoded -----

  /** `s` is what a single payload holds: its own bytes, or a number as text. */
  predicate Contains(c: Codecs, data: TypedData, s: seq<Byte>) {
    data == TextData(s) || data == JsonData(s) || data == BytesData(s) ||
    (data.IntData? && s == c.decimal(data.int64)) || (data.DoubleData? && c.double(data.double) == Some(s))
  }

  /** The payload has bytes that spell null. */
  ghost predicate SpellsNull(c: Codecs, data: TypedData) {
    exists s :: (data == TextData(s) || data == JsonData(s) || data == BytesData(s)) && IsAscii(c.trim(s), "null")
  }

  predicate IsTextType(g: Types, c: Codecs, t: TypeId) {
    t in g && g[t] == Basic(String) && t != c.number
  }

  predicate IsBytesType(g: Types, t: TypeId) {
    t in g && g[t].Slice? && g[t].elem in g && g[g[t].elem] == Basic(Uint8)
  }

  /** What a payload that holds `s` is as a value of the type `t`, which is no pointer. */
  predicate Makes(g: Types, c: Codecs, t: TypeId, s: seq<Byte>, v: Value) {
    if IsTextType(g, c, t) then v == TextValue(s)
    else if IsBytesType(g, t) then v == BytesValue(s)
    else v.Parsed? && c.parse(t, s) == Some(v.content)
  }

  ghost predicate NullRefused(g: Types, c: Codecs, t: TypeId, data: TypedData)
    requires t in g
  {
    SpellsNull(c, data) && !IsTextType(g, c, t) && !g[t].Slice? && !g[t].Map? && !g[t].Interface?
  }

  lemma ContentExactly(c: Codecs, data: TypedData, s: seq<Byte>)
    ensures Content(c, data) == Some(s) <==> Contains(c, data, s)
  {
  }

  lemma NullExactly(c: Codecs, data: TypedData)
    ensures IsNull(c, data) <==> SpellsNull(c, data)
  {
    forall s ensures s == NULL <==> IsAscii(s, "null") {}
  }

  lemma BaseValue(g: Types, c: Codecs, t: TypeId, data: TypedData, v: Value)
    requires Closed(g) && t in g && !g[t].Pointer? && !IsCollection(data) && !data.Missing? && !data.Unset?
    ensures DecodeOf(g, c, t, data) == Ok(v) <==>
            !NullRefused(g, c, t, data) && exists s :: Contains(c, data, s) && Makes(g, c, t, s, v)
  {
    NullExactly(c, data);
    forall s ensures Content(c, data) == Some(s) <==> Contains(c, data, s) { ContentExactly(c, data, s); }
  }

  /**
   The value of a single payload through any chain of pointers: nil if it spells null and the base is
   neither text nor bytes, else as many pointers as the type has to what the content makes of the base.
   */
  lemma ValueExactly(g: Types, c: Codecs, t: TypeId, data: TypedData, v: Value)
    requires Closed(g) && t in g && !IsCollection(data)
    ensures DecodeOf(g, c, t, data) == Ok(v) <==>
            !data.Missing? && !data.Unset? && BaseOf(g, t).Some? &&
            var base := BaseOf(g, t).value;
            if g[t].Pointer? && SpellsNull(c, data) && !IsTextType(g, c, base) && !IsBytesType(g, base) then
              v == NilPointer
            else
              !NullRefused(g, c, base, data) &&
              exists s, w :: Contains(c, data, s) && Makes(g, c, base, s, w) && v == Behind(ChainLength(g, t), w)
  {
    if BaseOf(g, t).None? {
      EndlessFails(g, c, t, data);
    } else if !data.Missing? && !data.Unset? {
      var base := BaseOf(g, t).value;
      NullExactly(c, data);
      PointersTransparent(g, c, t, data);
      forall w ensures DecodeOf(g, c, base, data) == Ok(w) <==>
        !NullRefused(g, c, base, data) && exists s :: Contains(c, data, s) && Makes(g, c, base, s, w)
      {
        BaseValue(g, c, base, data, w);
      }
    }
  }

  // ----- Collections -----

  lemma {:induction false} ItemsInOrder(g: Types, c: Codecs, elem: TypeId, items: seq<TypedData>)
    requires Closed(g) && elem in g && forall item <- items :: !IsCollection(item)
    ensures DecodeItems(g, c, elem, items).Ok? <==> forall item <- items :: DecodeOf(g, c, elem, item).Ok?
    ensures DecodeItems(g, c, elem, items).Ok? ==>
      var vs := DecodeItems(g, c, elem, items).value;
      |vs| == |items| && forall i :: 0 <= i < |vs| ==> DecodeOf(g, c, elem, items[i]) == Ok(vs[i])
    decreases |items|
  {
    if items == [] {
    } else {
      var front, last := items[..|items| - 1], items[|items| - 1];
      assert items == front + [last];
      ItemsInOrder(g, c, elem, front);
      assert last in items && forall item <- front :: item in items;
      assert forall i :: 0 <= i < |front| ==> items[i] == front[i];
    }
  }

  /** A collection of n payloads decodes to n elements in the same order, or fails if one of them fails. */
  lemma CollectionInOrder(g: Types, c: Codecs, t: TypeId, data: TypedData)
    requires Closed(g) && t in g && IsCollection(data)
    requires g[t].Slice? && !IsBytes(g, t) && t !in c.decoders
    ensures g[t].elem in g
    ensures var r := DecodeOf(g, c, t, data);
      (r.Ok? <==> forall i: nat :: i < Count(data) ==> DecodeOf(g, c, g[t].elem, ItemAt(data, i)).Ok?) &&
      (r.Ok? ==>
         r.value.ListValue? && |r.value.items| == Count(data) &&
         forall i: nat :: i < Count(data) ==> DecodeOf(g, c, g[t].elem, ItemAt(data, i)) == Ok(r.value.items[i]))
  {
    assert g[t].elem == Parts(g[t])[0];
    ItemsInOrder(g, c, g[t].elem, CollectionValues(data).value);
  }

  /** `part` is an item as JSON, for elements whose pointers end at `base`. */
  ghost predicate IsPart(g: Types, c: Codecs, base: TypeId, item: TypedData, part: Text) {
    exists s ::
      Contains(c, item, s) &&
      part == if IsTextType(g, c, base) then c.quote(s) else if IsBytesType(g, base) then c.base64(s) else s
  }

  ghost predicate AreParts(g: Types, c: Codecs, base: TypeId, items: seq<TypedData>, parts: seq<Text>) {
    |parts| == |items| && forall i :: 0 <= i < |items| ==> IsPart(g, c, base, items[i], parts[i])
  }

  ghost predicate ArePartsOf(g: Types, c: Codecs, base: TypeId, data: TypedData, parts: seq<Text>) {
    |parts| == Count(data) && forall i: nat :: i < Count(data) ==> IsPart(g, c, base, ItemAt(data, i), parts[i])
  }

  lemma PartExactly(g: Types, c: Codecs, elem: TypeId, item: TypedData, part: Text)
    requires Closed(g) && elem in g && BaseOf(g, elem).Some?
    ensures ElementJson(g, c, elem, item) == Some(part) <==> IsPart(g, c, BaseOf(g, elem).value, item, part)
  {
    forall s ensures Content(c, item) == Some(s) <==> Contains(c, item, s) { ContentExactly(c, item, s); }
  }

  lemma {:induction false} PartsExactly(g: Types, c: Codecs, elem: TypeId, items: seq<TypedData>, parts: seq<Text>)
    requires Closed(g) && elem in g && BaseOf(g, elem).Some?
    ensures ElementsJson(g, c, elem, items) == Some(parts) <==> AreParts(g, c, BaseOf(g, elem).value, items, parts)
    decreases |items|
  {
    if items == [] {
    } else {
      var n := |items| - 1;
      if |parts| == |items| {
        PartsExactly(g, c, elem, items[..n], parts[..n]);
        PartExactly(g, c, elem, items[n], parts[n]);
        assert parts == parts[..n] + [parts[n]];
      } else if ElementsJson(g, c, elem, items[..n]).Some? {
        PartsExactly(g, c, elem, items[..n], ElementsJson(g, c, elem, items[..n]).value);
      }
    }
  }

  lemma CollectionJsonExactly(g: Types, c: Codecs, elem: TypeId, data: TypedData, s: Text)
    requires Closed(g) && elem in g && IsCollection(data)
    ensures CollectionJson(g, c, elem, CollectionValues(data).value) == Some(s) <==>
            BaseOf(g, elem).Some? &&
            exists parts :: ArePartsOf(g, c, BaseOf(g, elem).value, data, parts) && c.asArray(parts) == Some(s)
  {
    var items := CollectionValues(data).value;
    if BaseOf(g, elem).Some? {
      forall parts ensures ElementsJson(g, c, elem, items) == Some(parts) <==>
        ArePartsOf(g, c, BaseOf(g, elem).value, data, parts)
      {
        PartsExactly(g, c, elem, items, parts);
        assert forall i: nat :: i < |items| ==> items[i] == ItemAt(data, i);
      }
    }
  }

  /** A slice type with a decoder of its own is given one JSON array with an element for each item, in order. */
  lemma CustomSliceExactly(g: Types, c: Codecs, t: TypeId, data: TypedData, v: Value)
    requires Closed(g) && t in g && IsCollection(data)
    requires g[t].Slice? && !IsBytesType(g, t) && t in c.decoders
    ensures g[t].elem in g
    ensures DecodeOf(g, c, t, data) == Ok(v) <==>
            v.Parsed? && BaseOf(g, g[t].elem).Some? &&
            exists parts, s ::
              ArePartsOf(g, c, BaseOf(g, g[t].elem).value, data, parts) &&
              c.asArray(parts) == Some(s) && c.parse(t, s) == Some(v.content)
  {
    var elem, items := g[t].elem, CollectionValues(data).value;
    assert elem == Parts(g[t])[0];
    assert DecodeOf(g, c, t, data) == JsonValue(c, t, CollectionJson(g, c, elem, items));
    forall s ensures CollectionJson(g, c, elem, items) == Some(s) <==>
      BaseOf(g, elem).Some? &&
      exists parts :: ArePartsOf(g, c, BaseOf(g, elem).value, data, parts) && c.asArray(parts) == Some(s)
    {
      CollectionJsonExactly(g, c, elem, data, s);
    }
  }

  /** A collection never becomes a single value. */
  lemma CollectionNeedsSlice(g: Types, c: Codecs, t: TypeId, data: TypedData)
    requires Closed(g) && t in g && IsCollection(data) && BaseOf(g, t).Some?
    requires var base := BaseOf(g, t).value; !g[base].Slice? || IsBytes(g, base)
    ensures DecodeOf(g, c, t, data) == Failed
  {
    PointersTransparent(g, c, t, data);
  }

  // ----- The decoder -----

  /** Bytes of a payload as a value of a raw type; a slice of a named byte type is filled byte by byte. */
  method DecodeGenericRaw(g: Types, c: Codecs, t: TypeId, data: TypedData) returns (r: Result<Value>)
    requires t in g && IsRaw(g, c, t)
    ensures r == RawValue(g, c, t, data)
  {
    var content := Content(c, data);
    if content.None? { return Failed; }
    var raw := content.value;
    if IsText(g, c, t) { return Ok(TextValue(raw)); }
    if t in c.convertible { return Ok(BytesValue(raw)); }
    var result: seq<Byte> := [];
    for i := 0 to |raw|
      invariant result == raw[..i]
    {
      result := result + [raw[i]];
    }
    assert raw[..|raw|] == raw;
    return Ok(BytesValue(result));
  }

  lemma {:induction false} ElementsPrefix(g: Types, c: Codecs, elem: TypeId, items: seq<TypedData>, n: nat)
    requires Closed(g) && elem in g && BaseOf(g, elem).Some? && n <= |items|
    requires ElementsJson(g, c, elem, items[..n]).None?
    ensures ElementsJson(g, c, elem, items).None?
    decreases |items|
  {
    if n == |items| {
      assert items[..n] == items;
    } else {
      assert items[..|items| - 1][..n] == items[..n];
      ElementsPrefix(g, c, elem, items[..|items| - 1], n);
    }
  }

  method GenericCollectionJson(g: Types, c: Codecs, elem: TypeId, items: seq<TypedData>) returns (r: Option<Text>)
    requires Closed(g) && elem in g
    ensures r == CollectionJson(g, c, elem, items)
  {
    var base := BindingType.Base(g, elem);
    if base.None? { return None; }
    var parts: seq<Text> := [];
    for i := 0 to |items|
      invariant ElementsJson(g, c, elem, items[..i]) == Some(parts)
    {
      assert items[..i + 1][..i] == items[..i];
      var content := Content(c, items[i]);
      if content.None? {
        ElementsPrefix(g, c, elem, items, i + 1);
        return None;
      }
      var s := content.value;
      parts := parts + [if IsText(g, c, base.value) then c.quote(s)
        else if IsBytes(g, base.value) then c.base64(s) else s];
    }
    assert items[..|items|] == items;
    return c.asArray(parts);
  }

  lemma {:induction false} ItemsPrefix(g: Types, c: Codecs, elem: TypeId, items: seq<TypedData>, n: nat)
    requires Closed(g) && elem in g && n <= |items| && forall item <- items :: !IsCollection(item)
    requires DecodeItems(g, c, elem, items[..n]).Failed?
    ensures DecodeItems(g, c, elem, items).Failed?
    decreases |items|
  {
    if n == |items| {
      assert items[..n] == items;
    } else {
      assert items[..|items| - 1][..n] == items[..n];
      ItemsPrefix(g, c, elem, items[..|items| - 1], n);
    }
  }

  method DecodeElements(g: Types, c: Codecs, elem: TypeId, items: seq<TypedData>) returns (r: Result<seq<Value>>)
    requires Closed(g) && elem in g && forall item <- items :: !IsCollection(item)
    ensures r == DecodeItems(g, c, elem, items)
    decreases false, ChainLength(g, elem), 1
  {
    var result: seq<Value> := [];
    for i := 0 to |items|
      invariant DecodeItems(g, c, elem, items[..i]) == Ok(result)
    {
      assert items[..i + 1][..i] == items[..i];
      var value := DecodeGenericInput(g, c, elem, items[i]);
      if value.Failed? {
        ItemsPrefix(g, c, elem, items, i + 1);
        return Failed;
      }
      result := result + [value.value];
    }
    assert items[..|items|] == items;
    return Ok(result);
  }

  /** Ends for every type, recursive ones included, and every payload. */
  method DecodeGenericInput(g: Types, c: Codecs, t: TypeId, data: TypedData) returns (r: Result<Value>)
    requires Closed(g) && t in g
    ensures r == DecodeOf(g, c, t, data)
    decreases IsCollection(data), ChainLength(g, t), 0
  {
    if data.Missing? || data.Unset? { return Failed; }
    if g[t].Pointer? {
      var base := BindingType.Base(g, t);
      if base.None? { return Failed; }
      if !IsRaw(g, c, base.value) && IsNull(c, data) { return Ok(NilPointer); }
      ChainOfPointer(g, t);
      var value := DecodeGenericInput(g, c, g[t].elem, data);
      if value.Failed? { return Failed; }
      return Ok(Ref(value.value));
    }
    var values := CollectionValues(data);
    if values.Some? {
      if !g[t].Slice? || IsBytes(g, t) { return Failed; }
      assert g[t].elem == Parts(g[t])[0];
      if t in c.decoders {
        var json := GenericCollectionJson(g, c, g[t].elem, values.value);
        return JsonValue(c, t, json);
      }
      var items := DecodeElements(g, c, g[t].elem, values.value);
      if items.Failed? { return Failed; }
      return Ok(ListValue(items.value));
    }
    if IsRaw(g, c, t) {
      r := DecodeGenericRaw(g, c, t, data);
      return;
    }
    if IsNull(c, data) && !g[t].Map? && !g[t].Slice? && !g[t].Interface? { return Failed; }
    return JsonValue(c, t, Content(c, data));
  }
}
