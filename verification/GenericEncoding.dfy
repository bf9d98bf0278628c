/**
 Encoding a handler's return value: pointers and interfaces are followed through the heap, text
 and bytes are sent as they are, everything else as JSON.

 A heap maps addresses to the values stored there and may hold cycles. What the JSON library
 makes of the original value is a parameter.
 */
module GenericEncoding {
  import opened Bytes
  import opened Collections
  import opened TypeGraph
  import opened HostData
  import opened GenericDecoding
  import opened UnicodeForms

  type Address = nat

  /** A nil pointer or interface is None. `Plain` is any other value. */
  datatype GoValue =
    | PointerTo(address: Option<Address>)
    | InterfaceOf(content: Option<GoValue>)
    | StringOf(typ: TypeId, text: Text)
    | BytesOf(typ: TypeId, bytes: seq<Byte>)
    | Plain(typ: TypeId)

  type Heap = map<Address, GoValue>

  /** `marshalers` have a JSON or text encoding of their own, `refMarshalers` have one on the pointer to them. */
  datatype Encoders = Encoders(number: TypeId, marshalers: set<TypeId>, refMarshalers: set<TypeId>)

  datatype Encoded = NoValue | Sent(data: TypedData) | Rejected

  /** A value and whether it can be addressed, because it was reached through a pointer. */
  datatype Place = Place(value: GoValue, addressable: bool)

  // ----- UTF-8 -----

  predicate ValidUtf8(s: Text)
    decreases |s|
  {
    s == [] ||
    (var h := DecodeHead(Utf8, s); h.Scalar? && ValidUtf8(s[h.len..]))
  }

  lemma EncodePrepend(f: Form, v: Scalar, vs: seq<Scalar>)
    ensures Encode(f, [v] + vs) == EncodeScalar(f, v) + Encode(f, vs)
  {
    assert ([v] + vs)[1..] == vs;
  }

  lemma HeadTaken(s: Text, h: Head, rest: seq<Scalar>)
    requires s != [] && DecodeHead(Utf8, s) == h && h.Scalar? && Encode(Utf8, rest) == s[h.len..]
    ensures Encode(Utf8, [h.v] + rest) == s
  {
    HeadSound(Utf8, s);
    EncodePrepend(Utf8, h.v, rest);
  }

  /** Valid text is the encoding of some scalars. */
  lemma {:induction false} ValidIsEncoded(s: Text) returns (vs: seq<Scalar>)
    requires ValidUtf8(s)
    ensures Encode(Utf8, vs) == s
    decreases |s|
  {
    if s == [] {
      vs := [];
    } else {
      var h := DecodeHead(Utf8, s);
      var rest := ValidIsEncoded(s[h.len..]);
      HeadTaken(s, h, rest);
      vs := [h.v] + rest;
    }
  }

  lemma {:induction false} EncodedIsValid(vs: seq<Scalar>)
    ensures ValidUtf8(Encode(Utf8, vs))
    decreases |vs|
  {
    if vs == [] {
    } else {
      HeadRoundTrip(Utf8, vs[0], Encode(Utf8, vs[1..]));
      EncodedIsValid(vs[1..]);
      assert Encode(Utf8, vs)[|EncodeScalar(Utf8, vs[0])|..] == Encode(Utf8, vs[1..]);
    }
  }

  /** `s` is text in UTF-8. */
  ghost predicate IsUtf8(s: Text) {
    exists vs :: Encode(Utf8, vs) == s
  }

  lemma Utf8Exactly(s: Text)
    ensures ValidUtf8(s) <==> IsUtf8(s)
  {
    if ValidUtf8(s) {
      var vs := ValidIsEncoded(s);
    }
    if vs :| Encode(Utf8, vs) == s {
      EncodedIsValid(vs);
    }
  }

  // ----- Following pointers and interfaces -----

  predicate Grounded(heap: Heap, v: GoValue) {
    match v
    case PointerTo(Some(a)) => a in heap
    case InterfaceOf(Some(content)) => Grounded(heap, content)
    case _ => true
  }

  /** Every pointer stored in the heap points into it. */
  predicate ClosedHeap(heap: Heap) {
    forall a <- heap :: Grounded(heap, heap[a])
  }

  predicate IsLink(v: GoValue) {
    (v.PointerTo? && v.address.Some?) || (v.InterfaceOf? && v.content.Some?)
  }

  predicate IsNil(v: GoValue) {
    (v.PointerTo? && v.address.None?) || (v.InterfaceOf? && v.content.None?)
  }

  function Follow(heap: Heap, p: Place): (q: Place)
    requires ClosedHeap(heap) && Grounded(heap, p.value) && IsLink(p.value)
    ensures Grounded(heap, q.value)
  {
    if p.value.PointerTo? then Place(heap[p.value.address.value], true) else Place(p.value.content.value, false)
  }

  /** The place `n` links on from `p`, or where the links end before. */
  function Trail(heap: Heap, p: Place, n: nat): (q: Place)
    requires ClosedHeap(heap) && Grounded(heap, p.value)
    ensures Grounded(heap, q.value)
    decreases n
  {
    if n == 0 || !IsLink(p.value) then p else Trail(heap, Follow(heap, p), n - 1)
  }

  /** Behind a pointer is what is stored there, which can be addressed; behind an interface its content,
      which cannot. */
  lemma {:induction false} TrailStep(heap: Heap, p: Place, n: nat)
    requires ClosedHeap(heap) && Grounded(heap, p.value)
    ensures match Trail(heap, p, n).value
      case PointerTo(Some(a)) => Trail(heap, p, n + 1) == Place(heap[a], true)
      case InterfaceOf(Some(content)) => Trail(heap, p, n + 1) == Place(content, false)
      case _ => Trail(heap, p, n + 1) == Trail(heap, p, n)
    decreases n
  {
    if n == 0 || !IsLink(p.value) {
      if IsLink(p.value) { assert Trail(heap, p, 1) == Trail(heap, Follow(heap, p), 0); }
    } else {
      TrailStep(heap, Follow(heap, p), n - 1);
    }
  }

  ghost predicate Circular(heap: Heap, p: Place)
    requires ClosedHeap(heap) && Grounded(heap, p.value)
  {
    forall n: nat :: IsLink(Trail(heap, p, n).value)
  }

  /** Where the links end, if they do. */
  ghost function EndOf(heap: Heap, p: Place): (q: Option<Place>)
    requires ClosedHeap(heap) && Grounded(heap, p.value)
    ensures q.None? <==> Circular(heap, p)
    ensures q.Some? ==> !IsLink(q.value.value) && exists n: nat :: Trail(heap, p, n) == q.value
  {
    if Circular(heap, p) then None
    else
      var n: nat :| !IsLink(Trail(heap, p, n).value);
      Some(Trail(heap, p, n))
  }

  lemma {:induction false} TrailEnds(heap: Heap, p: Place, n: nat, m: nat)
    requires ClosedHeap(heap) && Grounded(heap, p.value)
    requires !IsLink(Trail(heap, p, n).value) && !IsLink(Trail(heap, p, m).value)
    ensures Trail(heap, p, n) == Trail(heap, p, m)
    decreases n
  {
    if n > 0 && m > 0 && IsLink(p.value) {
      TrailEnds(heap, Follow(heap, p), n - 1, m - 1);
    }
  }

  lemma EndAt(heap: Heap, p: Place, n: nat)
    requires ClosedHeap(heap) && Grounded(heap, p.value) && !IsLink(Trail(heap, p, n).value)
    ensures EndOf(heap, p) == Some(Trail(heap, p, n))
  {
    assert !Circular(heap, p);
    var end := EndOf(heap, p).value;
    var m: nat :| Trail(heap, p, m) == end;
    TrailEnds(heap, p, n, m);
  }

  lemma EndHere(heap: Heap, p: Place)
    requires ClosedHeap(heap) && Grounded(heap, p.value) && !IsLink(p.value)
    ensures EndOf(heap, p) == Some(p)
  {
    assert Trail(heap, p, 0) == p;
    EndAt(heap, p, 0);
  }

  lemma EndFollows(heap: Heap, p: Place)
    requires ClosedHeap(heap) && Grounded(heap, p.value) && IsLink(p.value)
    ensures EndOf(heap, p) == EndOf(heap, Follow(heap, p))
  {
    var q := Follow(heap, p);
    forall n: nat ensures Trail(heap, p, n + 1) == Trail(heap, q, n) {}
    if EndOf(heap, p).Some? {
      var n: nat :| Trail(heap, p, n) == EndOf(heap, p).value;
      assert n > 0;
      assert Trail(heap, p, n) == Trail(heap, q, n - 1);
      if EndOf(heap, q).Some? {
        var m: nat :| Trail(heap, q, m) == EndOf(heap, q).value;
        TrailEnds(heap, q, n - 1, m);
      }
    } else {
      forall n: nat ensures IsLink(Trail(heap, q, n).value) {
        assert Trail(heap, q, n) == Trail(heap, p, n + 1);
      }
    }
  }

  /** The first address on the way from `v`, through interfaces only. */
  function Lead(v: GoValue): Option<Address> {
    match v
    case PointerTo(a) => a
    case InterfaceOf(Some(content)) => Lead(content)
    case _ => None
  }

  /** Addresses that lead only to each other are never left. */
  lemma {:induction false} ClosedLeads(heap: Heap, s: set<Address>, p: Place, n: nat)
    requires ClosedHeap(heap) && Grounded(heap, p.value) && s <= heap.Keys
    requires forall a <- s :: Lead(heap[a]).Some? && Lead(heap[a]).value in s
    requires Lead(p.value).Some? && Lead(p.value).value in s
    ensures IsLink(Trail(heap, p, n).value)
    decreases n
  {
    if n == 0 {
    } else {
      ClosedLeads(heap, s, Follow(heap, p), n - 1);
    }
  }

  // ----- Encoding -----

  /** A returned value as JSON, which must be valid UTF-8. */
  function AsJson(json: Option<Text>): Encoded {
    if json.Some? && ValidUtf8(json.value) then Sent(JsonData(json.value)) else Rejected
  }

  predicate HasMarshaler(e: Encoders, t: TypeId, addressable: bool) {
    t in e.marshalers || (addressable && t in e.refMarshalers)
  }

  /** How the value at the end of the links is sent. */
  function EncodeLeaf(e: Encoders, p: Place, json: Option<Text>): Encoded {
    match p.value
    case StringOf(t, text) =>
      if t == e.number || HasMarshaler(e, t, p.addressable) then AsJson(json)
      else if ValidUtf8(text) then Sent(TextData(text))
      else Rejected
    case BytesOf(t, bytes) =>
      if HasMarshaler(e, t, p.addressable) then AsJson(json) else Sent(BytesData(bytes))
    case _ => AsJson(json)
  }

  /**
   What a returned value is sent as; `v` is None for a nil interface. A nil on the way sends no
   value, and a circle is left to the JSON library.
   */
  ghost function EncodeOf(heap: Heap, e: Encoders, v: Option<GoValue>, json: Option<Text>): Encoded
    requires ClosedHeap(heap) && (v.Some? ==> Grounded(heap, v.value))
  {
    match v
    case None => NoValue
    case Some(value) =>
      match EndOf(heap, Place(value, false))
      case None => AsJson(json)
      case Some(p) => if IsNil(p.value) then NoValue else EncodeLeaf(e, p, json)
  }

  // ----- What must be sent -----

  /** A value goes as its JSON, if there is any in UTF-8, and is rejected otherwise. */
  ghost predicate SentAsJson(json: Option<Text>, r: Encoded) {
    match r
    case Sent(JsonData(s)) => json == Some(s) && IsUtf8(s)
    case Rejected => json.None? || !IsUtf8(json.value)
    case _ => false
  }

  /**
   How a value is sent by where its links end: in a circle and at other values as JSON, at nil not at
   all, at plain text and bytes as they are, text only in UTF-8. Plain is what is no JSON number and
   has no encoding of its own, a pointer to it counting only if it was reached through one.
   */
  ghost predicate SentAs(e: Encoders, end: Option<Place>, json: Option<Text>, r: Encoded) {
    match end
    case None => SentAsJson(json, r)
    case Some(Place(PointerTo(_), _)) => r == NoValue
    case Some(Place(InterfaceOf(_), _)) => r == NoValue
    case Some(Place(Plain(_), _)) => SentAsJson(json, r)
    case Some(Place(StringOf(t, text), addressable)) =>
      if t == e.number || t in e.marshalers || (addressable && t in e.refMarshalers) then SentAsJson(json, r)
      else if IsUtf8(text) then r == Sent(TextData(text))
      else r == Rejected
    case Some(Place(BytesOf(t, bytes), addressable)) =>
      if t in e.marshalers || (addressable && t in e.refMarshalers) then SentAsJson(json, r)
      else r == Sent(BytesData(bytes))
  }

  lemma JsonExactly(json: Option<Text>, r: Encoded)
    ensures AsJson(json) == r <==> SentAsJson(json, r)
  {
    if json.Some? { Utf8Exactly(json.value); }
  }

  lemma EncodedExactly(heap: Heap, e: Encoders, v: GoValue, json: Option<Text>, r: Encoded)
    requires ClosedHeap(heap) && Grounded(heap, v)
    ensures EncodeOf(heap, e, Some(v), json) == r <==> SentAs(e, EndOf(heap, Place(v, false)), json, r)
  {
    JsonExactly(json, r);
    match EndOf(heap, Place(v, false))
    case Some(Place(StringOf(_, text), _)) => Utf8Exactly(text);
    case _ =>
  }

  // ----- The encoder -----

  /** Ends on every heap: each turn visits a new address or unwraps an interface. */
  method EncodeReturnValue(heap: Heap, e: Encoders, v: Option<GoValue>, json: Option<Text>) returns (r: Encoded)
    requires ClosedHeap(heap) && (v.Some? ==> Grounded(heap, v.value))
    ensures r == EncodeOf(heap, e, v, json)
    ensures if v.None? then r == NoValue else SentAs(e, EndOf(heap, Place(v.value, false)), json, r)
  {
    if v.None? { return NoValue; }
    EncodedExactly(heap, e, v.value, json, EncodeOf(heap, e, v, json));
    var start := Place(v.value, false);
    var p := start;
    var seen: set<Address> := {};
    while p.value.PointerTo? || p.value.InterfaceOf?
      invariant Grounded(heap, p.value) && seen <= heap.Keys
      invariant EndOf(heap, p) == EndOf(heap, start)
      invariant Lead(start.value) == Lead(p.value) || (Lead(start.value).Some? && Lead(start.value).value in seen)
      invariant forall a <- seen ::
        Lead(heap[a]) == Lead(p.value) || (Lead(heap[a]).Some? && Lead(heap[a]).value in seen)
      decreases heap.Keys - seen, p.value
    {
      if IsNil(p.value) {
        EndHere(heap, p);
        return NoValue;
      }
      if p.value.PointerTo? {
        var a := p.value.address.value;
        if a in seen {
          forall n: nat ensures IsLink(Trail(heap, start, n).value) {
            ClosedLeads(heap, seen, start, n);
          }
          return AsJson(json);
        }
        seen := seen + {a};
      }
      EndFollows(heap, p);
      p := Follow(heap, p);
    }
    EndHere(heap, p);
    return EncodeLeaf(e, p, json);
  }

  // ----- Round trip -----

  /** `v` of type `t` is a chain of non-nil pointers to plain text or bytes, and `x` is that value. */
  predicate Holds(heap: Heap, g: Types, c: Codecs, t: TypeId, v: GoValue, x: Value)
    decreases x
  {
    t in g &&
    match x
    case TextValue(s) => IsText(g, c, t) && v == StringOf(t, s)
    case BytesValue(s) => IsBytes(g, t) && v == BytesOf(t, s)
    case Ref(y) =>
      g[t].Pointer? && v.PointerTo? && v.address.Some? && v.address.value in heap &&
      Holds(heap, g, c, g[t].elem, heap[v.address.value], y)
    case _ => false
  }

  /** What is at the end of the pointers of `x`, as a payload. */
  function LeafData(x: Value): TypedData {
    match x
    case TextValue(s) => TextData(s)
    case BytesValue(s) => BytesData(s)
    case Ref(y) => LeafData(y)
    case _ => Missing
  }

  lemma {:induction false} EncodesLeaf(
    heap: Heap, g: Types, c: Codecs, e: Encoders, t: TypeId, p: Place, x: Value, json: Option<Text>)
    requires Closed(g) && ClosedHeap(heap) && Grounded(heap, p.value) && Holds(heap, g, c, t, p.value, x)
    requires e.number == c.number
    requires LeafData(x).TextData? ==> ValidUtf8(LeafData(x).text)
    requires BaseOf(g, t).Some? ==> BaseOf(g, t).value !in e.marshalers + e.refMarshalers
    ensures EndOf(heap, p).Some?
    ensures var q := EndOf(heap, p).value; !IsNil(q.value) && EncodeLeaf(e, q, json) == Sent(LeafData(x))
    decreases x
  {
    if x.Ref? {
      EndFollows(heap, p);
      BaseOfPointer(g, t);
      EncodesLeaf(heap, g, c, e, g[t].elem, Follow(heap, p), x.target, json);
    } else {
      EndHere(heap, p);
      BaseOfData(g, t);
    }
  }

  lemma {:induction false} DecodesLeaf(heap: Heap, g: Types, c: Codecs, t: TypeId, v: GoValue, x: Value)
    requires Closed(g) && Holds(heap, g, c, t, v, x)
    ensures BaseOf(g, t).Some? && IsRaw(g, c, BaseOf(g, t).value)
    ensures DecodeOf(g, c, t, LeafData(x)) == Ok(x)
    decreases x
  {
    if x.Ref? {
      BaseOfPointer(g, t);
      DecodesLeaf(heap, g, c, g[t].elem, heap[v.address.value], x.target);
    } else {
      BaseOfData(g, t);
    }
  }

  /** A non-nil pointer chain to valid text or to bytes comes back equal, whatever is around it in the heap. */
  lemma RoundTrip(heap: Heap, g: Types, c: Codecs, e: Encoders, t: TypeId, v: GoValue, x: Value, json: Option<Text>)
    requires Closed(g) && ClosedHeap(heap) && Grounded(heap, v) && Holds(heap, g, c, t, v, x)
    requires e.number == c.number && BaseOf(g, t).Some? && BaseOf(g, t).value !in e.marshalers + e.refMarshalers
    requires LeafData(x).TextData? ==> ValidUtf8(LeafData(x).text)
    ensures var sent := EncodeOf(heap, e, Some(v), json); sent.Sent? && DecodeOf(g, c, t, sent.data) == Ok(x)
  {
    EncodesLeaf(heap, g, c, e, t, Place(v, false), x, json);
    DecodesLeaf(heap, g, c, t, v, x);
  }

  /** Text and JSON are only ever sent as valid UTF-8. */
  lemma SentIsUtf8(heap: Heap, e: Encoders, v: Option<GoValue>, json: Option<Text>)
    requires ClosedHeap(heap) && (v.Some? ==> Grounded(heap, v.value))
    ensures match EncodeOf(heap, e, v, json)
      case Sent(TextData(s)) => ValidUtf8(s)
      case Sent(JsonData(s)) => ValidUtf8(s)
      case Sent(BytesData(_)) => true
      case Sent(_) => false
      case _ => true
  {}

  /** A nil pointer or interface anywhere on the way sends no value, and nothing else does. */
  lemma NoValueExactly(heap: Heap, e: Encoders, v: GoValue, json: Option<Text>)
    requires ClosedHeap(heap) && Grounded(heap, v)
    ensures EncodeOf(heap, e, Some(v), json) == NoValue <==>
            exists n: nat :: IsNil(Trail(heap, Place(v, false), n).value)
  {
    var start := Place(v, false);
    if n: nat :| IsNil(Trail(heap, start, n).value) {
      EndAt(heap, start, n);
    } else if EndOf(heap, start).Some? {
      var m: nat :| Trail(heap, start, m) == EndOf(heap, start).value;
      assert !IsNil(Trail(heap, start, m).value);
    }
  }
}
