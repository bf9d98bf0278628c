/**
 The wire format as a grammar, stated without a parser: which bytes are a varint, a tag, a value
 and a list of records. A varint need not be the shortest. The parser is proved to read just this.
 */
module WireGrammar {
  import opened Bytes
  import opened Collections
  import opened ProtoWire

  // ----- The grammar -----

  /** Seven bits of every byte, the lowest first. */
  function VarintValue(s: seq<Byte>): nat {
    if s == [] then 0 else s[0] % 0x80 + 0x80 * VarintValue(s[1..])
  }

  /** All bytes but the last one are marked as continued. */
  predicate IsContinued(s: seq<Byte>) {
    s != [] && (forall k :: 0 <= k < |s| - 1 ==> s[k] >= 0x80) && s[|s| - 1] < 0x80
  }

  predicate IsVarint(s: seq<Byte>, v: nat) {
    |s| <= 10 && IsContinued(s) && VarintValue(s) == v && v < 0x1_0000_0000_0000_0000
  }

  predicate IsTag(s: seq<Byte>, num: int, wireType: int) {
    1 <= num <= 0x7FFF_FFFF && 0 <= wireType < 8 && IsVarint(s, num * 8 + wireType)
  }

  /** `s` is the value `v` of field `num`; groups nest at most `depth + 1` deep. */
  ghost predicate IsValue(s: seq<Byte>, num: int, v: Value, depth: int)
    decreases v
  {
    match v
    case Varint(x) => IsVarint(s, x)
    case Fixed64(data) => s == data && |data| == 8
    case Fixed32(data) => s == data && |data| == 4
    case Content(data) => exists length :: IsVarint(length, |data|) && s == length + data
    case Group(fs) =>
      depth >= 0 && exists body, end :: AreFields(body, fs, depth - 1) && IsTag(end, num, 4) && s == body + end
  }

  /** `s` is the records `fs`, one after the other. */
  ghost predicate AreFields(s: seq<Byte>, fs: Fields, depth: int)
    decreases fs
  {
    match fs
    case Nothing => s == []
    case Field(num, v, rest) =>
      exists tag, value, more ::
        IsTag(tag, num, WireType(v)) && IsValue(value, num, v, depth) && AreFields(more, rest, depth) &&
        s == tag + (value + more)
  }

  // ----- Varints -----

  predicate IsVarintFrom(s: seq<Byte>, i: nat, v: nat)
    requires i <= 9
  {
    |s| <= 10 - i && IsContinued(s) && VarintValue(s) == v && v < VarintLimit(i)
  }

  lemma ContinuedRest(s: seq<Byte>)
    requires |s| > 1
    ensures IsContinued(s) <==> s[0] >= 0x80 && IsContinued(s[1..])
  {
    if IsContinued(s[1..]) && s[0] >= 0x80 {
      forall k | 0 <= k < |s| - 1 ensures s[k] >= 0x80 {
        if k > 0 { assert s[k] == s[1..][k - 1]; }
      }
    }
  }

  /** A continued byte in front of a varint. */
  lemma VarintLonger(first: Byte, s: seq<Byte>, i: nat, v: nat)
    requires i < 9 && first >= 0x80 && IsVarintFrom(s, i + 1, v)
    ensures IsVarintFrom([first] + s, i, first - 0x80 + 0x80 * v)
  {
    assert ([first] + s)[1..] == s;
    ContinuedRest([first] + s);
  }

  lemma VarintShorter(first: Byte, more: seq<Byte>, i: nat, v: nat)
    requires i <= 9 && more != [] && IsVarintFrom([first] + more, i, v)
    ensures i < 9 && first >= 0x80 && IsVarintFrom(more, i + 1, VarintValue(more))
    ensures v == first - 0x80 + 0x80 * VarintValue(more)
  {
    assert ([first] + more)[1..] == more;
    ContinuedRest([first] + more);
  }

  lemma OneByteVarint(first: Byte, i: nat)
    requires i <= 9 && first < if i == 9 then 2 else 0x80
    ensures IsVarintFrom([first], i, first)
  {
    var s := [first];
    assert s[1..] == [] && VarintValue([]) == 0;
    assert s[|s| - 1] == first;
  }

  lemma VarintOne(first: Byte, i: nat, v: nat)
    requires i <= 9 && IsVarintFrom([first], i, v)
    ensures first < 0x80 && v == first
  {
    var s := [first];
    assert s[1..] == [] && VarintValue([]) == 0;
    assert s[|s| - 1] == first;
  }

  lemma {:induction false} VarintSound(b: seq<Byte>, i: nat)
    requires i <= 9 && VarintFrom(b, i).Done?
    ensures var r := VarintFrom(b, i); var n := |b| - |r.rest|; IsVarintFrom(b[..n], i, r.value) && r.rest == b[n..]
    decreases 9 - i
  {
    var n := |b| - |VarintFrom(b, i).rest|;
    if i == 9 || b[0] < 0x80 {
      assert b[..1] == [b[0]];
      OneByteVarint(b[0], i);
    } else {
      VarintSound(b[1..], i + 1);
      VarintLonger(b[0], b[1..][..n - 1], i, VarintFrom(b[1..], i + 1).value);
      assert b[..n] == [b[0]] + b[1..][..n - 1] && b[n..] == b[1..][n - 1..];
    }
  }

  lemma {:induction false} VarintComplete(s: seq<Byte>, i: nat, v: nat, after: seq<Byte>)
    requires i <= 9 && IsVarintFrom(s, i, v)
    ensures VarintFrom(s + after, i) == Done(v, after)
    decreases |s|
  {
    var first, more := s[0], s[1..];
    assert s == [first] + more;
    if more == [] {
      assert s == [first];
      VarintOne(first, i, v);
      VarintLast(first, i, after);
    } else {
      VarintShorter(first, more, i, v);
      VarintComplete(more, i + 1, VarintValue(more), after);
      VarintContinued(first, more + after, i, VarintValue(more), after);
      PlusAssociates([first], more, after);
    }
  }

  lemma VarintRead(b: seq<Byte>, v: nat, rest: seq<Byte>)
    ensures ConsumeVarint(b) == Done(v, rest) <==> exists s :: IsVarint(s, v) && b == s + rest
  {
    VarintLimitIs64Bits();
    if ConsumeVarint(b) == Done(v, rest) {
      VarintSound(b, 0);
      var n := |b| - |rest|;
      assert IsVarint(b[..n], v) && b == b[..n] + rest;
    }
    forall s | IsVarint(s, v) && b == s + rest ensures ConsumeVarint(b) == Done(v, rest) {
      VarintComplete(s, 0, v, rest);
    }
  }

  lemma TagRead(b: seq<Byte>, num: int, wireType: int, rest: seq<Byte>)
    ensures ConsumeTag(b) == Done(Tag(num, wireType), rest) <==>
            exists s :: IsTag(s, num, wireType) && b == s + rest
  {
    if ConsumeTag(b) == Done(Tag(num, wireType), rest) {
      var v := ConsumeVarint(b).value;
      VarintRead(b, v, rest);
      var s :| IsVarint(s, v) && b == s + rest;
      assert IsTag(s, num, wireType);
    }
    forall s | IsTag(s, num, wireType) && b == s + rest ensures ConsumeTag(b) == Done(Tag(num, wireType), rest) {
      VarintRead(b, num * 8 + wireType, rest);
    }
  }

  // ----- Values -----

  function DataOf(v: Value): seq<Byte> {
    if v.Content? then v.data else []
  }

  lemma BytesRead(b: seq<Byte>, data: seq<Byte>, rest: seq<Byte>)
    ensures ConsumeBytes(b) == Done(data, rest) <==>
            exists length :: IsVarint(length, |data|) && b == length + (data + rest)
  {
    if ConsumeBytes(b) == Done(data, rest) {
      var m := ConsumeVarint(b);
      assert m.rest == data + rest;
      VarintRead(b, |data|, data + rest);
    }
    forall length | IsVarint(length, |data|) && b == length + (data + rest)
      ensures ConsumeBytes(b) == Done(data, rest)
    {
      VarintRead(b, |data|, data + rest);
    }
  }

  lemma Regroup(tag: seq<Byte>, value: seq<Byte>, more: seq<Byte>, end: seq<Byte>, after: seq<Byte>)
    ensures tag + (value + more) + end + after == tag + (value + (more + end + after))
    ensures tag + (value + more) + (end + after) == tag + (value + (more + (end + after)))
  {
  }

  lemma {:induction false} ValueSound(t: Tag, b: seq<Byte>, depth: int) returns (s: seq<Byte>, v: Value)
    requires ConsumeValue(t, b, depth).Done?
    ensures var r := ConsumeValue(t, b, depth);
      b == s + r.rest && IsValue(s, t.num, v, depth) && WireType(v) == t.wireType && r.value == DataOf(v)
    decreases |b|, 1
  {
    var r := ConsumeValue(t, b, depth);
    if t.wireType == VARINT {
      var x := ConsumeVarint(b).value;
      VarintRead(b, x, r.rest);
      s :| IsVarint(s, x) && b == s + r.rest;
      v := Varint(x);
    } else if t.wireType == FIXED64 {
      s := b[..8];
      v := Fixed64(s);
    } else if t.wireType == FIXED32 {
      s := b[..4];
      v := Fixed32(s);
    } else if t.wireType == BYTES {
      BytesRead(b, r.value, r.rest);
      var length :| IsVarint(length, |r.value|) && b == length + (r.value + r.rest);
      s, v := length + r.value, Content(r.value);
    } else {
      var body, end, fs := GroupSound(t.num, b, depth);
      s, v := body + end, Group(fs);
    }
  }

  lemma {:induction false} GroupSound(num: int, b: seq<Byte>, depth: int)
    returns (body: seq<Byte>, end: seq<Byte>, fs: Fields)
    requires ConsumeGroup(num, b, depth).Done?
    ensures var r := ConsumeGroup(num, b, depth);
      b == body + end + r.rest && AreFields(body, fs, depth - 1) && IsTag(end, num, 4) && r.value == []
    decreases |b|, 0
  {
    var t := ConsumeTag(b);
    TagRead(b, t.value.num, t.value.wireType, t.rest);
    var tag :| IsTag(tag, t.value.num, t.value.wireType) && b == tag + t.rest;
    if t.value.wireType == END_GROUP {
      body, end, fs := [], tag, Nothing;
    } else {
      var value, v := ValueSound(t.value, t.rest, depth - 1);
      var next := ConsumeValue(t.value, t.rest, depth - 1).rest;
      var more, rest;
      more, end, rest := GroupSound(num, next, depth);
      body, fs := tag + (value + more), Field(t.value.num, v, rest);
      Regroup(tag, value, more, end, ConsumeGroup(num, b, depth).rest);
    }
  }

  lemma PlainComplete(s: seq<Byte>, num: int, v: Value, depth: int, after: seq<Byte>)
    requires !v.Group? && IsValue(s, num, v, depth)
    ensures ConsumeValue(Tag(num, WireType(v)), s + after, depth) == Done(DataOf(v), after)
  {
    match v
    case Varint(x) => VarintRead(s + after, x, after);
    case Fixed64(_) => assert (s + after)[8..] == after;
    case Fixed32(_) => assert (s + after)[4..] == after;
    case Content(data) =>
      var length :| IsVarint(length, |data|) && s == length + data;
      PlusAssociates(length, data, after);
      BytesRead(s + after, data, after);
  }

  lemma FieldInGroup(tag: seq<Byte>, value: seq<Byte>, n: int, v: Value, tail: seq<Byte>, num: int, depth: int)
    requires IsTag(tag, n, WireType(v))
    requires ConsumeValue(Tag(n, WireType(v)), value + tail, depth - 1) == Done(DataOf(v), tail)
    ensures ConsumeGroup(num, tag + (value + tail), depth) == ConsumeGroup(num, tail, depth)
  {
    TagRead(tag + (value + tail), n, WireType(v), value + tail);
  }

  lemma {:induction false} ValueComplete(s: seq<Byte>, num: int, v: Value, depth: int, after: seq<Byte>)
    requires IsValue(s, num, v, depth)
    ensures ConsumeValue(Tag(num, WireType(v)), s + after, depth) == Done(DataOf(v), after)
    decreases v, 1
  {
    if v.Group? {
      var body, end :| AreFields(body, v.fields, depth - 1) && IsTag(end, num, 4) && s == body + end;
      GroupComplete(body, v.fields, end, num, depth, after);
      PlusAssociates(body, end, after);
    } else {
      PlainComplete(s, num, v, depth, after);
    }
  }

  lemma {:induction false} GroupComplete(
    body: seq<Byte>, fs: Fields, end: seq<Byte>, num: int, depth: int, after: seq<Byte>)
    requires AreFields(body, fs, depth - 1) && IsTag(end, num, 4)
    ensures ConsumeGroup(num, body + (end + after), depth) == Done([], after)
    decreases fs, 0
  {
    match fs
    case Nothing =>
      TagRead(end + after, num, 4, after);
      assert body + (end + after) == end + after;
    case Field(n, v, rest) =>
      var tag, value, more :| IsTag(tag, n, WireType(v)) && IsValue(value, n, v, depth - 1) &&
        AreFields(more, rest, depth - 1) && body == tag + (value + more);
      GroupComplete(more, rest, end, num, depth, after);
      ValueComplete(value, n, v, depth - 1, more + (end + after));
      FieldInGroup(tag, value, n, v, more + (end + after), num, depth);
      Regroup(tag, value, more, end, after);
  }

  // ----- Fields -----

  /** What is consumed as a field is a tag and its value. */
  lemma FieldSound(b: seq<Byte>) returns (tag: seq<Byte>, value: seq<Byte>, v: Value)
    requires ConsumeField(b).Done?
    ensures var f := ConsumeField(b);
      b == tag + (value + f.rest) && IsTag(tag, f.value.tag.num, WireType(v)) &&
      IsValue(value, f.value.tag.num, v, 10000) && f.value == Entry(Tag(f.value.tag.num, WireType(v)), DataOf(v))
  {
    var t := ConsumeTag(b);
    TagRead(b, t.value.num, t.value.wireType, t.rest);
    tag :| IsTag(tag, t.value.num, t.value.wireType) && b == tag + t.rest;
    value, v := ValueSound(t.value, t.rest, RECURSION_LIMIT);
  }

  /** An end of a group where none is open, and the two wire types that nothing is written with, are errors. */
  lemma FieldErrors(tag: seq<Byte>, num: int, wireType: int, after: seq<Byte>)
    requires IsTag(tag, num, wireType)
    ensures wireType == 4 ==> ConsumeField(tag + after) == Bad(EndGroup)
    ensures wireType == 6 || wireType == 7 ==> ConsumeField(tag + after) == Bad(Reserved)
  {
    TagRead(tag + after, num, wireType, after);
  }

  lemma FieldComplete(tag: seq<Byte>, value: seq<Byte>, num: int, v: Value, after: seq<Byte>)
    requires IsTag(tag, num, WireType(v)) && IsValue(value, num, v, 10000)
    ensures ConsumeField(tag + (value + after)) == Done(Entry(Tag(num, WireType(v)), DataOf(v)), after)
  {
    TagRead(tag + (value + after), num, WireType(v), value + after);
    ValueComplete(value, num, v, 10000, after);
  }
}
