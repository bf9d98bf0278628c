/**
 The Protocol Buffers wire format ("Message Structure", "Base 128 Varints" and
 "Length-Delimited Records" of the Encoding specification): consuming one element from the
 front of a byte sequence, with the limits and errors of the wire library the worker uses.
 */
module ProtoWire {
  import opened Bytes

  datatype WireError = Truncated | FieldNumber | Overflow | Reserved | EndGroup | RecursionDepth

  /** A value and the input behind it, or an error. */
  datatype Consumed<+T> = Done(value: T, rest: seq<Byte>) | Bad(error: WireError)

  const VARINT: int := 0
  const FIXED64: int := 1
  const BYTES: int := 2
  const START_GROUP: int := 3
  const END_GROUP: int := 4
  const FIXED32: int := 5

  const MAX_FIELD_NUMBER: int := 0x7FFFFFFF
  const RECURSION_LIMIT: int := 10000

  // ----- Varints -----

  /** The varint whose byte number `i` starts `b`; the tenth byte may only be 0 or 1. */
  function VarintFrom(b: seq<Byte>, i: nat): (r: Consumed<nat>)
    requires i <= 9
    ensures r.Done? ==> |r.rest| < |b|
    decreases 9 - i
  {
    if b == [] then Bad(Truncated)
    else if i == 9 then (if b[0] < 2 then Done(b[0], b[1..]) else Bad(Overflow))
    else if b[0] < 0x80 then Done(b[0], b[1..])
    else
      var high := VarintFrom(b[1..], i + 1);
      if high.Bad? then high else Done(b[0] - 0x80 + 0x80 * high.value, high.rest)
  }

  function ConsumeVarint(b: seq<Byte>): (r: Consumed<nat>)
    ensures r.Done? ==> |r.rest| < |b|
  {
    VarintFrom(b, 0)
  }

  /** What remains of the 64-bit range behind `i` varint bytes. */
  function VarintLimit(i: nat): (n: nat)
    requires i <= 9
    ensures n >= 2
    decreases 9 - i
  {
    if i == 9 then 2 else 0x80 * VarintLimit(i + 1)
  }

  /** The shortest varint of `v`. */
  function EncodeVarint(v: nat): (s: seq<Byte>)
    ensures s != []
  {
    if v < 0x80 then [v] else [0x80 + v % 0x80] + EncodeVarint(v / 0x80)
  }

  // ----- Tags and values -----

  datatype Tag = Tag(num: int, wireType: int)

  function ConsumeTag(b: seq<Byte>): (r: Consumed<Tag>)
    ensures r.Done? ==> |r.rest| < |b|
  {
    var v := ConsumeVarint(b);
    if v.Bad? then Bad(v.error)
    else if v.value / 8 > MAX_FIELD_NUMBER || v.value / 8 < 1 then Bad(FieldNumber)
    else Done(Tag(v.value / 8, v.value % 8), v.rest)
  }

  function ConsumeFixed(b: seq<Byte>, n: nat): Consumed<seq<Byte>> {
    if |b| < n then Bad(Truncated) else Done([], b[n..])
  }

  function ConsumeBytes(b: seq<Byte>): (r: Consumed<seq<Byte>>)
    ensures r.Done? ==> |r.rest| < |b|
  {
    var m := ConsumeVarint(b);
    if m.Bad? then Bad(m.error)
    else if m.value > |m.rest| then Bad(Truncated)
    else Done(m.rest[..m.value], m.rest[m.value..])
  }

  /** The value behind a tag; only a length-delimited record has content here. */
  function ConsumeValue(t: Tag, b: seq<Byte>, depth: int): (r: Consumed<seq<Byte>>)
    ensures r.Done? ==> |r.rest| < |b|
    decreases |b|, 1
  {
    if t.wireType == VARINT then
      var v := ConsumeVarint(b);
      if v.Bad? then Bad(v.error) else Done([], v.rest)
    else if t.wireType == FIXED32 then ConsumeFixed(b, 4)
    else if t.wireType == FIXED64 then ConsumeFixed(b, 8)
    else if t.wireType == BYTES then ConsumeBytes(b)
    else if t.wireType == START_GROUP then
      if depth < 0 then Bad(RecursionDepth) else ConsumeGroup(t.num, b, depth)
    else if t.wireType == END_GROUP then Bad(EndGroup)
    else Bad(Reserved)
  }

  /** The fields of group `num` up to and including its end tag. */
  function ConsumeGroup(num: int, b: seq<Byte>, depth: int): (r: Consumed<seq<Byte>>)
    ensures r.Done? ==> |r.rest| < |b|
    decreases |b|, 0
  {
    var t := ConsumeTag(b);
    if t.Bad? then Bad(t.error)
    else if t.value.wireType == END_GROUP then
      if t.value.num != num then Bad(EndGroup) else Done([], t.rest)
    else
      var v := ConsumeValue(t.value, t.rest, depth - 1);
      if v.Bad? then v else ConsumeGroup(num, v.rest, depth)
  }

  /** A tag and its value. */
  datatype Entry = Entry(tag: Tag, content: seq<Byte>)

  function ConsumeField(b: seq<Byte>): (r: Consumed<Entry>)
    ensures r.Done? ==> |r.rest| < |b|
  {
    var t := ConsumeTag(b);
    if t.Bad? then Bad(t.error)
    else
      var v := ConsumeValue(t.value, t.rest, RECURSION_LIMIT);
      if v.Bad? then Bad(v.error) else Done(Entry(t.value, v.value), v.rest)
  }

  // ----- More input never changes what was consumed -----

  lemma {:induction false} VarintStable(b: seq<Byte>, i: nat, after: seq<Byte>)
    requires i <= 9 && VarintFrom(b, i).Done?
    ensures var r := VarintFrom(b, i); VarintFrom(b + after, i) == Done(r.value, r.rest + after)
    decreases 9 - i
  {
    assert (b + after)[1..] == b[1..] + after;
    if i < 9 && b[0] >= 0x80 {
      VarintStable(b[1..], i + 1, after);
    }
  }

  lemma BytesStable(b: seq<Byte>, after: seq<Byte>)
    requires ConsumeBytes(b).Done?
    ensures var r := ConsumeBytes(b); ConsumeBytes(b + after) == Done(r.value, r.rest + after)
  {
    var m := ConsumeVarint(b);
    VarintStable(b, 0, after);
    assert (m.rest + after)[..m.value] == m.rest[..m.value];
    assert (m.rest + after)[m.value..] == m.rest[m.value..] + after;
  }

  /** A consumed value is consumed again when more input follows. */
  lemma {:induction false} ValueStable(t: Tag, b: seq<Byte>, depth: int, after: seq<Byte>)
    requires ConsumeValue(t, b, depth).Done?
    ensures var r := ConsumeValue(t, b, depth); ConsumeValue(t, b + after, depth) == Done(r.value, r.rest + after)
    decreases |b|, 1
  {
    if t.wireType == VARINT {
      VarintStable(b, 0, after);
    } else if t.wireType == BYTES {
      BytesStable(b, after);
    } else if t.wireType == START_GROUP {
      GroupStable(t.num, b, depth, after);
    } else {
      var n := if t.wireType == FIXED32 then 4 else 8;
      assert (b + after)[n..] == b[n..] + after;
    }
  }

  lemma {:induction false} GroupStable(num: int, b: seq<Byte>, depth: int, after: seq<Byte>)
    requires ConsumeGroup(num, b, depth).Done?
    ensures var r := ConsumeGroup(num, b, depth); ConsumeGroup(num, b + after, depth) == Done(r.value, r.rest + after)
    decreases |b|, 0
  {
    var t := ConsumeTag(b);
    VarintStable(b, 0, after);
    if t.value.wireType != END_GROUP {
      ValueStable(t.value, t.rest, depth - 1, after);
      GroupStable(num, ConsumeValue(t.value, t.rest, depth - 1).rest, depth, after);
    }
  }

  lemma FieldStable(b: seq<Byte>, after: seq<Byte>)
    requires ConsumeField(b).Done?
    ensures var r := ConsumeField(b); ConsumeField(b + after) == Done(r.value, r.rest + after)
  {
    var t := ConsumeTag(b);
    VarintStable(b, 0, after);
    ValueStable(t.value, t.rest, RECURSION_LIMIT, after);
  }

  // ----- Less input is always truncation -----

  /** An element of `b + cut` that reaches into `cut` is truncated in `b` alone. */
  lemma {:induction false} VarintCut(b: seq<Byte>, i: nat, cut: seq<Byte>)
    requires i <= 9 && VarintFrom(b + cut, i).Done? && |VarintFrom(b + cut, i).rest| < |cut|
    ensures VarintFrom(b, i) == Bad(Truncated)
    decreases 9 - i
  {
    if b == [] {
    } else {
      assert (b + cut)[1..] == b[1..] + cut && (b + cut)[0] == b[0];
      VarintCut(b[1..], i + 1, cut);
    }
  }

  /** An element of `b + cut` that ends within `b` is complete in `b`. */
  lemma {:induction false} VarintWhole(b: seq<Byte>, i: nat, cut: seq<Byte>)
    requires i <= 9 && VarintFrom(b + cut, i).Done? && |VarintFrom(b + cut, i).rest| >= |cut|
    ensures VarintFrom(b, i).Done?
    decreases 9 - i
  {
    if b == [] {
    } else {
      assert (b + cut)[1..] == b[1..] + cut && (b + cut)[0] == b[0];
      if i < 9 && b[0] >= 0x80 {
        VarintWhole(b[1..], i + 1, cut);
      }
    }
  }

  lemma VarintSplit(b: seq<Byte>, cut: seq<Byte>)
    requires ConsumeVarint(b + cut).Done?
    ensures if |ConsumeVarint(b + cut).rest| < |cut| then ConsumeVarint(b) == Bad(Truncated)
            else ConsumeVarint(b).Done? &&
                 ConsumeVarint(b + cut) == Done(ConsumeVarint(b).value, ConsumeVarint(b).rest + cut)
  {
    if |ConsumeVarint(b + cut).rest| < |cut| {
      VarintCut(b, 0, cut);
    } else {
      VarintWhole(b, 0, cut);
      VarintStable(b, 0, cut);
    }
  }

  lemma BytesCut(b: seq<Byte>, cut: seq<Byte>)
    requires ConsumeBytes(b + cut).Done?
    ensures ConsumeBytes(b) == Bad(Truncated) || ConsumeBytes(b).Done?
    ensures |ConsumeBytes(b + cut).rest| < |cut| <==> ConsumeBytes(b).Bad?
  {
    VarintSplit(b, cut);
  }

  /** A value cut short is truncated, and only then is it an error. */
  lemma {:induction false} ValueCut(t: Tag, b: seq<Byte>, depth: int, cut: seq<Byte>)
    requires ConsumeValue(t, b + cut, depth).Done?
    ensures ConsumeValue(t, b, depth) == Bad(Truncated) || ConsumeValue(t, b, depth).Done?
    ensures |ConsumeValue(t, b + cut, depth).rest| < |cut| <==> ConsumeValue(t, b, depth).Bad?
    decreases |b|, 1
  {
    if t.wireType == VARINT {
      VarintSplit(b, cut);
    } else if t.wireType == BYTES {
      BytesCut(b, cut);
    } else if t.wireType == START_GROUP {
      GroupCut(t.num, b, depth, cut);
    }
  }

  lemma {:induction false} GroupCut(num: int, b: seq<Byte>, depth: int, cut: seq<Byte>)
    requires ConsumeGroup(num, b + cut, depth).Done?
    ensures ConsumeGroup(num, b, depth) == Bad(Truncated) || ConsumeGroup(num, b, depth).Done?
    ensures |ConsumeGroup(num, b + cut, depth).rest| < |cut| <==> ConsumeGroup(num, b, depth).Bad?
    decreases |b|, 0
  {
    VarintSplit(b, cut);
    var t := ConsumeTag(b);
    if t.Done? && t.value.wireType != END_GROUP {
      ValueCut(t.value, t.rest, depth - 1, cut);
      var v := ConsumeValue(t.value, t.rest, depth - 1);
      if v.Done? {
        ValueStable(t.value, t.rest, depth - 1, cut);
        GroupCut(num, v.rest, depth, cut);
      }
    }
  }

  lemma FieldCut(b: seq<Byte>, cut: seq<Byte>)
    requires ConsumeField(b + cut).Done?
    ensures ConsumeField(b) == Bad(Truncated) || ConsumeField(b).Done?
    ensures |ConsumeField(b + cut).rest| < |cut| <==> ConsumeField(b).Bad?
  {
    VarintSplit(b, cut);
    var t := ConsumeTag(b);
    if t.Done? {
      ValueCut(t.value, t.rest, RECURSION_LIMIT, cut);
    }
  }

  // ----- Records and their encoding -----

  /** A record of a message; groups nest. */
  datatype Value = Varint(v: nat) | Fixed64(data: seq<Byte>) | Content(data: seq<Byte>)
                 | Group(fields: Fields) | Fixed32(data: seq<Byte>)
  datatype Fields = Nothing | Field(num: nat, value: Value, rest: Fields)

  function WireType(v: Value): int {
    match v
    case Varint(_) => 0
    case Fixed64(_) => 1
    case Content(_) => 2
    case Group(_) => 3
    case Fixed32(_) => 5
  }

  /** Numbers, widths and lengths are in range and groups nest at most `depth + 1` deep. */
  predicate ValidValue(v: Value, depth: int)
    decreases v
  {
    match v
    case Varint(x) => x < VarintLimit(0)
    case Fixed64(data) => |data| == 8
    case Content(data) => |data| < VarintLimit(0)
    case Group(fs) => depth >= 0 && ValidFields(fs, depth - 1)
    case Fixed32(data) => |data| == 4
  }

  predicate ValidFields(fs: Fields, depth: int)
    decreases fs
  {
    fs.Field? ==> 1 <= fs.num <= MAX_FIELD_NUMBER && ValidValue(fs.value, depth) && ValidFields(fs.rest, depth)
  }

  function EncodeTag(num: nat, wireType: int): seq<Byte>
    requires 0 <= wireType < 8
  {
    EncodeVarint(num * 8 + wireType)
  }

  /** The bytes of a value behind its tag, with the end tag of a group, then `after`. */
  function EncodeValue(num: nat, v: Value, after: seq<Byte>): seq<Byte>
    decreases v
  {
    match v
    case Varint(x) => EncodeVarint(x) + after
    case Fixed64(data) => data + after
    case Content(data) => EncodeVarint(|data|) + (data + after)
    case Group(fs) => EncodeFields(fs, EncodeTag(num, END_GROUP) + after)
    case Fixed32(data) => data + after
  }

  function EncodeFields(fs: Fields, after: seq<Byte>): seq<Byte>
    decreases fs
  {
    match fs
    case Nothing => after
    case Field(num, v, rest) => EncodeTag(num, WireType(v)) + EncodeValue(num, v, EncodeFields(rest, after))
  }

  /** The seven low bits of a number and the rest of it. */
  lemma VarintDigits(v: nat, i: nat)
    requires i <= 9 && 0x80 <= v < VarintLimit(i)
    ensures i < 9 && v / 0x80 < VarintLimit(i + 1) && v == v % 0x80 + 0x80 * (v / 0x80)
  {
  }

  /** A continued varint: its first byte in front of the rest. */
  lemma VarintContinued(first: Byte, more: seq<Byte>, i: nat, high: nat, after: seq<Byte>)
    requires i < 9 && first >= 0x80 && VarintFrom(more, i + 1) == Done(high, after)
    ensures VarintFrom([first] + more, i) == Done(first - 0x80 + 0x80 * high, after)
  {
    assert ([first] + more)[1..] == more;
  }

  lemma EncodeContinued(v: nat, after: seq<Byte>)
    requires v >= 0x80
    ensures EncodeVarint(v) + after == [0x80 + v % 0x80] + (EncodeVarint(v / 0x80) + after)
  {
  }

  lemma VarintLast(v: Byte, i: nat, after: seq<Byte>)
    requires i <= 9 && v < 0x80 && v < VarintLimit(i)
    ensures VarintFrom([v] + after, i) == Done(v, after)
  {
    assert ([v] + after)[1..] == after;
  }

  lemma {:induction false} VarintRoundTrip(v: nat, i: nat, after: seq<Byte>)
    requires i <= 9 && v < VarintLimit(i)
    ensures VarintFrom(EncodeVarint(v) + after, i) == Done(v, after)
    decreases 9 - i
  {
    if v < 0x80 {
      VarintLast(v, i, after);
    } else {
      var high, low := v / 0x80, v % 0x80;
      VarintDigits(v, i);
      VarintRoundTrip(high, i + 1, after);
      VarintContinued(0x80 + low, EncodeVarint(high) + after, i, high, after);
      EncodeContinued(v, after);
    }
  }

  lemma VarintLimitIs64Bits()
    ensures VarintLimit(0) == 0x1_0000_0000_0000_0000
  {
    assert VarintLimit(8) == 0x100;
    assert VarintLimit(6) == 0x40_0000;
    assert VarintLimit(4) == 0x10_0000_0000;
    assert VarintLimit(2) == 0x4_0000_0000_0000;
  }

  lemma TagRoundTrip(num: nat, wireType: int, after: seq<Byte>)
    requires 1 <= num <= MAX_FIELD_NUMBER && 0 <= wireType < 8
    ensures ConsumeTag(EncodeTag(num, wireType) + after) == Done(Tag(num, wireType), after)
  {
    VarintLimitIs64Bits();
    VarintRoundTrip(num * 8 + wireType, 0, after);
  }

  /** Consuming an encoded value gives back its content and stands behind it. */
  lemma {:induction false} ValueRoundTrip(num: nat, v: Value, after: seq<Byte>, depth: int)
    requires 1 <= num <= MAX_FIELD_NUMBER && ValidValue(v, depth)
    ensures ConsumeValue(Tag(num, WireType(v)), EncodeValue(num, v, after), depth) ==
            Done(if v.Content? then v.data else [], after)
    decreases v, 1
  {
    match v
    case Varint(x) => VarintRoundTrip(x, 0, after);
    case Content(data) => VarintRoundTrip(|data|, 0, data + after);
    case Group(fs) => GroupRoundTrip(num, fs, after, depth);
    case _ =>
  }

  /** A group goes on behind a field of its own and is over behind its end tag. */
  lemma GroupGoesOn(num: int, b: seq<Byte>, t: Tag, value: seq<Byte>, v: Consumed<seq<Byte>>, depth: int)
    requires ConsumeTag(b) == Done(t, value)
    ensures t.wireType == END_GROUP && t.num == num ==> ConsumeGroup(num, b, depth) == Done([], value)
    ensures t.wireType != END_GROUP && ConsumeValue(t, value, depth - 1) == v && v.Done? ==>
            ConsumeGroup(num, b, depth) == ConsumeGroup(num, v.rest, depth)
  {
  }

  lemma {:induction false} GroupRoundTrip(num: nat, fs: Fields, after: seq<Byte>, depth: int)
    requires 1 <= num <= MAX_FIELD_NUMBER && ValidFields(fs, depth - 1)
    ensures ConsumeGroup(num, EncodeFields(fs, EncodeTag(num, END_GROUP) + after), depth) == Done([], after)
    decreases fs, 0
  {
    var end := EncodeTag(num, END_GROUP) + after;
    if fs.Nothing? {
      TagRoundTrip(num, END_GROUP, after);
      GroupGoesOn(num, end, Tag(num, END_GROUP), after, Done([], after), depth);
    } else {
      var tail := EncodeFields(fs.rest, end);
      var value := EncodeValue(fs.num, fs.value, tail);
      var tag := Tag(fs.num, WireType(fs.value));
      TagRoundTrip(fs.num, WireType(fs.value), value);
      ValueRoundTrip(fs.num, fs.value, tail, depth - 1);
      GroupGoesOn(num, EncodeTag(fs.num, WireType(fs.value)) + value, tag, value,
        ConsumeValue(tag, value, depth - 1), depth);
      GroupRoundTrip(num, fs.rest, after, depth);
    }
  }

  /** Consuming an encoded field gives back its tag and content and stands behind it. */
  lemma FieldRoundTrip(num: nat, v: Value, after: seq<Byte>)
    requires 1 <= num <= MAX_FIELD_NUMBER && ValidValue(v, RECURSION_LIMIT)
    ensures ConsumeField(EncodeTag(num, WireType(v)) + EncodeValue(num, v, after)) ==
            Done(Entry(Tag(num, WireType(v)), if v.Content? then v.data else []), after)
  {
    TagRoundTrip(num, WireType(v), EncodeValue(num, v, after));
    ValueRoundTrip(num, v, after, RECURSION_LIMIT);
  }
}
