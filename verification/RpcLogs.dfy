/** From a log record to the host's RpcLog: some attributes fill fields of their own, the others become properties. */
module RpcLogs {
  import opened Bytes
  import opened LogReplay

  type Payload = nat

  /** How values are shown as strings, stored as properties and rendered, and how the SDK makes values of strings. */
  datatype Codec = Codec(show: Value -> string, store: Value -> Payload, render: Value -> string, texts: Texts)

  datatype RpcLog = RpcLog(
    invocationId: string,
    category: string,
    eventId: string,
    message: string,
    properties: map<string, Payload>)

  // ----- The fields -----

  predicate IsHeader(key: string) {
    key == "invocation_id" || key == "function_name" || key == "category" || key == "event_id"
  }

  /** The invocation id: the one already known, else the first one that is not empty. */
  function IdFrom(codec: Codec, start: string, attrs: seq<Attr>): string
    decreases |attrs|
  {
    if start != "" || attrs == [] then start
    else if attrs[0].key == "invocation_id" then IdFrom(codec, codec.show(attrs[0].value), attrs[1..])
    else IdFrom(codec, start, attrs[1..])
  }

  function CategoryNext(codec: Codec, category: string, a: Attr): string {
    if a.key == "category" then codec.show(a.value)
    else if a.key == "function_name" && category == "" then "Function." + codec.show(a.value)
    else category
  }

  /** The category: a `category` attribute always sets it, a function name only where it is empty. */
  function CategoryFrom(codec: Codec, start: string, attrs: seq<Attr>): string
    decreases |attrs|
  {
    if attrs == [] then start
    else CategoryFrom(codec, CategoryNext(codec, start, attrs[0]), attrs[1..])
  }

  /** The event id: the last one given. */
  function EventFrom(codec: Codec, start: string, attrs: seq<Attr>): string
    decreases |attrs|
  {
    if attrs == [] then start
    else EventFrom(codec, if attrs[0].key == "event_id" then codec.show(attrs[0].value) else start, attrs[1..])
  }

  /** The attributes without a field of their own, in order. */
  function Others(attrs: seq<Attr>): seq<Attr> {
    if attrs == [] then []
    else if IsHeader(attrs[0].key) then Others(attrs[1..])
    else [attrs[0]] + Others(attrs[1..])
  }

  /** Properties by key, the last value of a key winning. */
  function Properties(codec: Codec, start: map<string, Payload>, others: seq<Attr>): map<string, Payload>
    decreases |others|
  {
    if others == [] then start
    else Properties(codec, start[others[0].key := codec.store(others[0].value)], others[1..])
  }

  function Logfmt(codec: Codec, others: seq<Attr>): string {
    if others == [] then ""
    else if |others| == 1 then others[0].key + "=" + codec.render(others[0].value)
    else others[0].key + "=" + codec.render(others[0].value) + " " + Logfmt(codec, others[1..])
  }

  function MessageWith(message: string, suffix: string): string {
    if suffix == "" then message else if message == "" then suffix else message + " " + suffix
  }

  function KnownId(invocation: Option<Invocation>): string {
    match invocation { case None => "" case Some(ic) => ic.id }
  }

  function KnownCategory(invocation: Option<Invocation>): string {
    match invocation
    case None => ""
    case Some(ic) => if ic.functionName == "" then "" else "Function." + ic.functionName
  }

  function LogOf(codec: Codec, invocation: Option<Invocation>, message: string, attrs: seq<Attr>): RpcLog {
    RpcLog(
      IdFrom(codec, KnownId(invocation), attrs),
      CategoryFrom(codec, KnownCategory(invocation), attrs),
      EventFrom(codec, "", attrs),
      MessageWith(message, Logfmt(codec, Others(attrs))),
      Properties(codec, map[], Others(attrs)))
  }

  // ----- The walk -----

  lemma {:induction false} LogfmtSnoc(codec: Codec, others: seq<Attr>, last: Attr)
    ensures var text := last.key + "=" + codec.render(last.value);
      Logfmt(codec, others + [last]) == if others == [] then text else Logfmt(codec, others) + " " + text
    decreases |others|
  {
    if others == [] {
      assert others + [last] == [last];
    } else {
      assert (others + [last])[1..] == others[1..] + [last];
      LogfmtSnoc(codec, others[1..], last);
    }
  }

  method RenderAttrsAsLogfmt(codec: Codec, attrs: seq<Attr>) returns (text: string)
    ensures text == Logfmt(codec, attrs)
    ensures text == "" <==> attrs == []
  {
    text := "";
    for i := 0 to |attrs|
      invariant text == Logfmt(codec, attrs[..i])
      invariant text == "" <==> i == 0
    {
      LogfmtSnoc(codec, attrs[..i], attrs[i]);
      assert attrs[..i + 1] == attrs[..i] + [attrs[i]];
      var part := attrs[i].key + "=" + codec.render(attrs[i].value);
      text := if |text| > 0 then text + " " + part else part;
    }
    assert attrs[..|attrs|] == attrs;
  }

  /** What a walk has gathered so far. */
  datatype Fields =
    Fields(id: string, category: string, event: string, props: map<string, Payload>, renderable: seq<Attr>)

  function Walk(codec: Codec, f: Fields, key: string, value: Value): Fields {
    match key
    case "invocation_id" => if f.id == "" then f.(id := codec.show(value)) else f
    case "function_name" => if f.category == "" then f.(category := "Function." + codec.show(value)) else f
    case "category" => f.(category := codec.show(value))
    case "event_id" => f.(event := codec.show(value))
    case _ => f.(props := f.props[key := codec.store(value)], renderable := f.renderable + [Attr(key, value)])
  }

  /** What a walk over the rest of the attributes will have gathered in the end. */
  function Gathered(codec: Codec, f: Fields, attrs: seq<Attr>): Fields {
    Fields(
      IdFrom(codec, f.id, attrs),
      CategoryFrom(codec, f.category, attrs),
      EventFrom(codec, f.event, attrs),
      Properties(codec, f.props, Others(attrs)),
      f.renderable + Others(attrs))
  }

  lemma WalkGathers(codec: Codec, f: Fields, a: Attr, rest: seq<Attr>)
    ensures Gathered(codec, f, [a] + rest) == Gathered(codec, Walk(codec, f, a.key, a.value), rest)
  {
    assert ([a] + rest)[1..] == rest;
    if !IsHeader(a.key) {
      assert ([a] + Others(rest))[1..] == Others(rest);
      assert f.renderable + ([a] + Others(rest)) == (f.renderable + [a]) + Others(rest);
    }
  }

  /** One walk over the bound attributes, then over the inline ones, each under its qualified key. */
  method BuildRpcLog(codec: Codec, invocation: Option<Invocation>, message: string, c: Composer, inline: seq<Attr>)
    returns (log: RpcLog)
    ensures log == LogOf(codec, invocation, message, Carried(c, inline))
  {
    ghost var attrs := Carried(c, inline);
    var f := Fields(KnownId(invocation), KnownCategory(invocation), "", map[], []);
    ghost var start := f;
    for i := 0 to |c.bound| + |inline|
      invariant Gathered(codec, start, attrs) == Gathered(codec, f, attrs[i..])
    {
      var groups, a := if i < |c.bound| then c.bound[i].groups else c.groups,
                       if i < |c.bound| then c.bound[i].attr else inline[i - |c.bound|];
      var key := Qualify(groups, a.key);
      assert attrs[i..] == [Attr(key, a.value)] + attrs[i + 1..];
      WalkGathers(codec, f, Attr(key, a.value), attrs[i + 1..]);
      f := Walk(codec, f, key, a.value);
    }
    assert attrs[|attrs|..] == [];
    assert Gathered(codec, f, []) == f;
    assert Gathered(codec, start, attrs).renderable == Others(attrs);
    var suffix := RenderAttrsAsLogfmt(codec, f.renderable);
    return RpcLog(f.id, f.category, f.event, MessageWith(message, suffix), f.props);
  }

  // ----- What each field must hold -----

  /** All attributes but those with a field of their own, as key=value and separated by blanks. */
  function Rendered(codec: Codec, attrs: seq<Attr>): string {
    if attrs == [] then ""
    else
      var front, a := Rendered(codec, attrs[..|attrs| - 1]), attrs[|attrs| - 1];
      if a.key in {"invocation_id", "function_name", "category", "event_id"} then front
      else
        var text := a.key + "=" + codec.render(a.value);
        if front == "" then text else front + " " + text
  }

  lemma {:induction false} OthersSnoc(attrs: seq<Attr>, a: Attr)
    ensures Others(attrs + [a]) == if IsHeader(a.key) then Others(attrs) else Others(attrs) + [a]
  {
    if attrs == [] {
      assert [a][1..] == [];
    } else {
      assert (attrs + [a])[1..] == attrs[1..] + [a];
      OthersSnoc(attrs[1..], a);
    }
  }

  lemma {:induction false} RenderedOthers(codec: Codec, attrs: seq<Attr>)
    ensures Rendered(codec, attrs) == Logfmt(codec, Others(attrs))
    ensures Logfmt(codec, Others(attrs)) == "" <==> Others(attrs) == []
  {
    if attrs == [] {
    } else {
      var front, a := attrs[..|attrs| - 1], attrs[|attrs| - 1];
      assert attrs == front + [a];
      RenderedOthers(codec, front);
      OthersSnoc(front, a);
      if !IsHeader(a.key) {
        LogfmtSnoc(codec, Others(front), a);
      }
    }
  }

  predicate IsLast(attrs: seq<Attr>, key: string, i: nat) {
    i < |attrs| && attrs[i].key == key && forall k :: i < k < |attrs| ==> attrs[k].key != key
  }

  predicate IsFirst(attrs: seq<Attr>, key: string, i: nat) {
    i < |attrs| && attrs[i].key == key && forall k :: 0 <= k < i ==> attrs[k].key != key
  }

  /** The attributes tell `id`: it is the first invocation id among them that is not empty. */
  ghost predicate TellsId(codec: Codec, attrs: seq<Attr>, id: string) {
    id != "" && exists i: nat ::
      i < |attrs| && attrs[i].key == "invocation_id" && codec.show(attrs[i].value) == id &&
      forall k :: 0 <= k < i && attrs[k].key == "invocation_id" ==> codec.show(attrs[k].value) == ""
  }

  /** An empty category is filled from the first function name, if there is one. */
  ghost predicate IsNamed(codec: Codec, category: string, attrs: seq<Attr>, r: string) {
    if category != "" then r == category
    else if exists i: nat :: IsFirst(attrs, "function_name", i) then
      exists i: nat :: IsFirst(attrs, "function_name", i) && r == "Function." + codec.show(attrs[i].value)
    else r == ""
  }

  /** The last category given counts, else the known one, and only what stands behind it may fill it if it is empty. */
  ghost predicate IsCategory(codec: Codec, known: string, attrs: seq<Attr>, r: string) {
    if exists i: nat :: IsLast(attrs, "category", i) then
      exists i: nat :: IsLast(attrs, "category", i) && IsNamed(codec, codec.show(attrs[i].value), attrs[i + 1..], r)
    else IsNamed(codec, known, attrs, r)
  }

  lemma {:induction false} LastExists(attrs: seq<Attr>, key: string)
    ensures (exists a <- attrs :: a.key == key) <==> exists i: nat :: IsLast(attrs, key, i)
  {
    if attrs == [] {
    } else {
      var n := |attrs| - 1;
      LastExists(attrs[..n], key);
      assert attrs == attrs[..n] + [attrs[n]];
      if attrs[n].key == key {
        assert IsLast(attrs, key, n);
      } else if i: nat :| IsLast(attrs[..n], key, i) {
        assert IsLast(attrs, key, i);
      }
    }
  }

  lemma LastBehind(a: Attr, rest: seq<Attr>, key: string, i: nat)
    ensures IsLast(rest, key, i) <==> IsLast([a] + rest, key, i + 1)
    ensures IsLast([a] + rest, key, 0) ==> a.key == key && forall x <- rest :: x.key != key
  {
    var attrs := [a] + rest;
    assert forall k :: 0 < k < |attrs| ==> attrs[k] == rest[k - 1];
    if IsLast(attrs, key, i + 1) {
      forall k | i < k < |rest| ensures rest[k].key != key { assert attrs[k + 1] == rest[k]; }
    }
    if IsLast(attrs, key, 0) {
      forall k | 0 <= k < |rest| ensures rest[k].key != key { assert attrs[k + 1] == rest[k]; }
    }
  }

  lemma {:induction false} PropertiesGather(codec: Codec, start: map<string, Payload>, attrs: seq<Attr>, key: string)
    ensures var props := Properties(codec, start, Others(attrs));
      if IsHeader(key) || !exists a <- attrs :: a.key == key then
        (key in props <==> key in start) && (key in props ==> props[key] == start[key])
      else key in props && forall i: nat :: IsLast(attrs, key, i) ==> props[key] == codec.store(attrs[i].value)
    decreases |attrs|
  {
    if attrs == [] {
    } else {
      var a, rest := attrs[0], attrs[1..];
      assert attrs == [a] + rest;
      var next := if IsHeader(a.key) then start else start[a.key := codec.store(a.value)];
      assert Properties(codec, start, Others(attrs)) == Properties(codec, next, Others(rest)) by {
        assert !IsHeader(a.key) ==> Others(attrs)[1..] == Others(rest);
      }
      PropertiesGather(codec, next, rest, key);
      forall i: nat | IsLast(attrs, key, i) && !IsHeader(key)
        ensures Properties(codec, start, Others(attrs))[key] == codec.store(attrs[i].value)
      {
        if i > 0 { LastBehind(a, rest, key, i - 1); } else { LastBehind(a, rest, key, 0); }
      }
    }
  }

  lemma {:induction false} EventGather(codec: Codec, start: string, attrs: seq<Attr>)
    ensures var r := EventFrom(codec, start, attrs);
      if exists a <- attrs :: a.key == "event_id" then
        forall i: nat :: IsLast(attrs, "event_id", i) ==> r == codec.show(attrs[i].value)
      else r == start
    decreases |attrs|
  {
    if attrs == [] {
    } else {
      var a, rest := attrs[0], attrs[1..];
      assert attrs == [a] + rest;
      EventGather(codec, if a.key == "event_id" then codec.show(a.value) else start, rest);
      forall i: nat | IsLast(attrs, "event_id", i)
        ensures EventFrom(codec, start, attrs) == codec.show(attrs[i].value)
      {
        if i > 0 { LastBehind(a, rest, "event_id", i - 1); } else { LastBehind(a, rest, "event_id", 0); }
      }
    }
  }


  lemma IdBehind(codec: Codec, attrs: seq<Attr>, id: string)
    requires attrs != [] && (attrs[0].key == "invocation_id" ==> codec.show(attrs[0].value) == "")
    ensures TellsId(codec, attrs, id) <==> TellsId(codec, attrs[1..], id)
  {
    var rest := attrs[1..];
    if TellsId(codec, rest, id) {
      var i: nat :| i < |rest| && rest[i].key == "invocation_id" && codec.show(rest[i].value) == id &&
        forall k :: 0 <= k < i && rest[k].key == "invocation_id" ==> codec.show(rest[k].value) == "";
      assert attrs[i + 1] == rest[i];
      forall k | 0 <= k < i + 1 && attrs[k].key == "invocation_id" ensures codec.show(attrs[k].value) == "" {
        if k > 0 { assert attrs[k] == rest[k - 1]; }
      }
    }
    if TellsId(codec, attrs, id) {
      var i: nat :| i < |attrs| && attrs[i].key == "invocation_id" && codec.show(attrs[i].value) == id &&
        forall k :: 0 <= k < i && attrs[k].key == "invocation_id" ==> codec.show(attrs[k].value) == "";
      assert i > 0 && rest[i - 1] == attrs[i];
      forall k | 0 <= k < i - 1 && rest[k].key == "invocation_id" ensures codec.show(rest[k].value) == "" {
        assert rest[k] == attrs[k + 1];
      }
    }
  }

  lemma {:induction false} IdGather(codec: Codec, start: string, attrs: seq<Attr>)
    ensures var r := IdFrom(codec, start, attrs);
      if start != "" then r == start
      else if r != "" then TellsId(codec, attrs, r)
      else !exists id :: TellsId(codec, attrs, id)
    decreases |attrs|
  {
    if attrs == [] || start != "" {
    } else {
      var a, rest := attrs[0], attrs[1..];
      var next := if a.key == "invocation_id" then codec.show(a.value) else "";
      var r := IdFrom(codec, start, attrs);
      IdGather(codec, next, rest);
      if next != "" {
        assert attrs[0].key == "invocation_id" && codec.show(attrs[0].value) == r;
      } else {
        forall id ensures TellsId(codec, attrs, id) <==> TellsId(codec, rest, id) { IdBehind(codec, attrs, id); }
      }
    }
  }

  lemma FirstBehind(a: Attr, rest: seq<Attr>, key: string, i: nat)
    requires a.key != key
    ensures IsFirst(rest, key, i) <==> IsFirst([a] + rest, key, i + 1)
  {
    var attrs := [a] + rest;
    assert forall k :: 0 < k < |attrs| ==> attrs[k] == rest[k - 1];
    if IsFirst(attrs, key, i + 1) {
      forall k | 0 <= k < i ensures rest[k].key != key { assert attrs[k + 1] == rest[k]; }
    }
  }

  lemma NamedBehind(codec: Codec, a: Attr, rest: seq<Attr>, r: string)
    requires a.key != "function_name" && IsNamed(codec, "", rest, r)
    ensures IsNamed(codec, "", [a] + rest, r)
  {
    var attrs, key := [a] + rest, "function_name";
    if i: nat :| IsFirst(rest, key, i) && r == "Function." + codec.show(rest[i].value) {
      FirstBehind(a, rest, key, i);
      assert attrs[i + 1] == rest[i];
    } else {
      forall i: nat ensures !IsFirst(attrs, key, i) {
        if i > 0 { FirstBehind(a, rest, key, i - 1); }
      }
    }
  }

  lemma {:induction false} CategoryKept(codec: Codec, start: string, attrs: seq<Attr>)
    requires start != "" && forall a <- attrs :: a.key != "category"
    ensures CategoryFrom(codec, start, attrs) == start
    decreases |attrs|
  {
    if attrs != [] { CategoryKept(codec, start, attrs[1..]); }
  }

  /** Without a category among the attributes. */
  lemma {:induction false} NameGather(codec: Codec, start: string, attrs: seq<Attr>)
    requires forall a <- attrs :: a.key != "category"
    ensures IsNamed(codec, start, attrs, CategoryFrom(codec, start, attrs))
    decreases |attrs|
  {
    if start != "" {
      CategoryKept(codec, start, attrs);
    } else if attrs == [] {
    } else {
      var a, rest := attrs[0], attrs[1..];
      assert attrs == [a] + rest;
      if a.key == "function_name" {
        CategoryKept(codec, "Function." + codec.show(a.value), rest);
        assert IsFirst(attrs, "function_name", 0);
      } else {
        NameGather(codec, start, rest);
        NamedBehind(codec, a, rest, CategoryFrom(codec, start, rest));
      }
    }
  }

  /** What stands before the last category does not matter. */
  lemma {:induction false} CategoryAfter(codec: Codec, start: string, attrs: seq<Attr>, i: nat)
    requires IsLast(attrs, "category", i)
    ensures CategoryFrom(codec, start, attrs) == CategoryFrom(codec, codec.show(attrs[i].value), attrs[i + 1..])
    decreases i
  {
    if i == 0 {
    } else {
      var a, rest := attrs[0], attrs[1..];
      assert attrs == [a] + rest;
      LastBehind(a, rest, "category", i - 1);
      CategoryAfter(codec, CategoryNext(codec, start, a), rest, i - 1);
      assert rest[i..] == attrs[i + 1..];
    }
  }

  lemma CategoryGather(codec: Codec, start: string, attrs: seq<Attr>)
    ensures IsCategory(codec, start, attrs, CategoryFrom(codec, start, attrs))
  {
    LastExists(attrs, "category");
    if i: nat :| IsLast(attrs, "category", i) {
      CategoryAfter(codec, start, attrs, i);
      NameGather(codec, codec.show(attrs[i].value), attrs[i + 1..]);
    } else {
      NameGather(codec, start, attrs);
    }
  }

  /** What the host is told of a record with these attributes, field by field. */
  lemma LogExactly(codec: Codec, invocation: Option<Invocation>, message: string, attrs: seq<Attr>, key: string)
    ensures var log := LogOf(codec, invocation, message, attrs);
      (if invocation.Some? && invocation.value.id != "" then log.invocationId == invocation.value.id
       else if log.invocationId != "" then TellsId(codec, attrs, log.invocationId)
       else !exists id :: TellsId(codec, attrs, id))
    ensures var known := if invocation.Some? then invocation.value.functionName else "";
      IsCategory(codec, if known == "" then "" else "Function." + known, attrs,
                 LogOf(codec, invocation, message, attrs).category)
    ensures var log := LogOf(codec, invocation, message, attrs);
      if exists i: nat :: IsLast(attrs, "event_id", i) then
        exists i: nat :: IsLast(attrs, "event_id", i) && log.eventId == codec.show(attrs[i].value)
      else log.eventId == ""
    ensures var props := LogOf(codec, invocation, message, attrs).properties;
      key in props <==>
      key !in {"invocation_id", "function_name", "category", "event_id"} && exists i: nat :: IsLast(attrs, key, i)
    ensures var props := LogOf(codec, invocation, message, attrs).properties;
      key in props ==> exists i: nat :: IsLast(attrs, key, i) && props[key] == codec.store(attrs[i].value)
  {
    IdGather(codec, KnownId(invocation), attrs);
    CategoryGather(codec, KnownCategory(invocation), attrs);
    EventGather(codec, "", attrs);
    PropertiesGather(codec, map[], attrs, key);
    LastExists(attrs, "event_id");
    LastExists(attrs, key);
  }

  /** The message is followed by the rendered attributes that have no field of their own, in order. */
  lemma MessageExactly(codec: Codec, invocation: Option<Invocation>, message: string, attrs: seq<Attr>)
    ensures var r, rendered := LogOf(codec, invocation, message, attrs).message, Rendered(codec, attrs);
      r == if rendered == "" then message else if message == "" then rendered else message + " " + rendered
  {
    RenderedOthers(codec, attrs);
  }

  // ----- What reaches which field -----

  /** The attributes with a field of their own, in order. */
  function Headers(attrs: seq<Attr>): seq<Attr> {
    if attrs == [] then []
    else if IsHeader(attrs[0].key) then [attrs[0]] + Headers(attrs[1..])
    else Headers(attrs[1..])
  }

  /** The header fields depend on the header attributes only. */
  lemma {:induction false} FieldsFromHeaders(
    codec: Codec, id: string, category: string, event: string, attrs: seq<Attr>)
    ensures IdFrom(codec, id, attrs) == IdFrom(codec, id, Headers(attrs))
    ensures CategoryFrom(codec, category, attrs) == CategoryFrom(codec, category, Headers(attrs))
    ensures EventFrom(codec, event, attrs) == EventFrom(codec, event, Headers(attrs))
    decreases |attrs|
  {
    if attrs == [] {
    } else {
      var f := Walk(codec, Fields(id, category, event, map[], []), attrs[0].key, attrs[0].value);
      FieldsFromHeaders(codec, f.id, f.category, f.event, attrs[1..]);
      if IsHeader(attrs[0].key) {
        assert Headers(attrs)[1..] == Headers(attrs[1..]);
      }
    }
  }

  lemma {:induction false} HeadersAppend(a: seq<Attr>, b: seq<Attr>)
    ensures Headers(a + b) == Headers(a) + Headers(b)
    decreases |a|
  {
    if a == [] {
      assert a + b == b;
    } else {
      assert (a + b)[1..] == a[1..] + b;
      HeadersAppend(a[1..], b);
    }
  }

  /** A key behind a group holds a dot, which no header key does. */
  lemma GroupedNotHeader(name: string, key: string)
    ensures !IsHeader(Qualified([name], key))
  {
    var k := Qualified([name], key);
    assert k == name + "." + Qualified([], key);
    assert k[|name|] == '.';
  }

  lemma {:induction false} GroupedNoHeaders(name: string, attrs: seq<Attr>)
    ensures Headers(QualifyAll([name], attrs)) == []
    decreases |attrs|
  {
    if attrs == [] {
    } else {
      GroupedNotHeader(name, attrs[0].key);
      assert QualifyAll([name], attrs)[1..] == QualifyAll([name], attrs[1..]);
      GroupedNoHeaders(name, attrs[1..]);
    }
  }

  lemma {:induction false} NestedHeaders(calls: seq<Call>, g: string, more: seq<Call>, inline: seq<Attr>)
    requires g != ""
    ensures Headers(Nested(calls + [WithGroup(g)] + more, inline)) == Headers(Nested(calls, []))
    decreases |calls|
  {
    var all := calls + [WithGroup(g)] + more;
    if calls == [] {
      assert all == [WithGroup(g)] + more && all[1..] == more;
      GroupedNoHeaders(g, Nested(more, inline));
    } else {
      assert all[1..] == calls[1..] + [WithGroup(g)] + more;
      NestedHeaders(calls[1..], g, more, inline);
      match calls[0]
      case With(attrs) =>
        HeadersAppend(attrs, Nested(all[1..], inline));
        HeadersAppend(attrs, Nested(calls[1..], []));
      case WithGroup(name) =>
        if name != "" {
          GroupedNoHeaders(name, Nested(all[1..], inline));
          GroupedNoHeaders(name, Nested(calls[1..], []));
        }
    }
  }

  /** Nothing that is logged inside a group, inline attributes included, touches the header fields. */
  lemma GroupsShieldHeader(
    codec: Codec, known: Option<Invocation>, invocation: Option<Invocation>, message: string,
    calls: seq<Call>, g: string, more: seq<Call>, inline: seq<Attr>)
    requires g != ""
    ensures
      var sdk := SdkAttrs(codec.texts, invocation);
      var log, outside := LogOf(codec, known, message, sdk + Nested(calls + [WithGroup(g)] + more, inline)),
                          LogOf(codec, known, message, sdk + Nested(calls, []));
      log.invocationId == outside.invocationId && log.category == outside.category && log.eventId == outside.eventId
  {
    var sdk := SdkAttrs(codec.texts, invocation);
    var inside, outside := Nested(calls + [WithGroup(g)] + more, inline), Nested(calls, []);
    NestedHeaders(calls, g, more, inline);
    HeadersAppend(sdk, inside);
    HeadersAppend(sdk, outside);
    FieldsFromHeaders(codec, KnownId(known), KnownCategory(known), "", sdk + inside);
    FieldsFromHeaders(codec, KnownId(known), KnownCategory(known), "", sdk + outside);
  }

  /** The SDK's invocation id reaches the host, whatever the user logs,
      even if the base is not told of the invocation. */
  lemma InvocationIdReachesHost(
    codec: Codec, known: Option<Invocation>, ic: Invocation, message: string, calls: seq<Call>, inline: seq<Attr>)
    requires ic.id != "" && codec.show(codec.texts(ic.id)) == ic.id && (known == None || known == Some(ic))
    ensures LogOf(codec, known, message, SdkAttrs(codec.texts, Some(ic)) + Nested(calls, inline)).invocationId == ic.id
  {
    var attrs := SdkAttrs(codec.texts, Some(ic)) + Nested(calls, inline);
    assert attrs[0] == Attr("invocation_id", codec.texts(ic.id));
    if known == None {
      assert IdFrom(codec, "", attrs) == IdFrom(codec, ic.id, attrs[1..]);
    }
  }

  /** The category names the function unless the user sets a category outside every group. */
  lemma CategoryNamesFunction(codec: Codec, ic: Invocation, message: string, calls: seq<Call>, inline: seq<Attr>)
    requires ic.functionName != "" && forall a <- Nested(calls, inline) :: a.key != "category"
    ensures LogOf(codec, Some(ic), message, SdkAttrs(codec.texts, Some(ic)) + Nested(calls, inline)).category ==
            "Function." + ic.functionName
  {
    CategoryKept(codec, KnownCategory(Some(ic)), SdkAttrs(codec.texts, Some(ic)) + Nested(calls, inline));
  }

  /** A property holds the last value logged under its key, and only logged keys are properties. */
  lemma {:induction false} PropertiesHoldLast(codec: Codec, start: map<string, Payload>, others: seq<Attr>, key: string)
    ensures var props := Properties(codec, start, others);
      if exists i :: 0 <= i < |others| && others[i].key == key then
        key in props && exists i ::
          0 <= i < |others| && others[i].key == key && props[key] == codec.store(others[i].value) &&
          forall k :: i < k < |others| ==> others[k].key != key
      else (key in props <==> key in start) && (key in props ==> props[key] == start[key])
    decreases |others|
  {
    if others == [] {
    } else {
      var rest := others[1..];
      PropertiesHoldLast(codec, start[others[0].key := codec.store(others[0].value)], rest, key);
      if i :| 0 <= i < |rest| && rest[i].key == key {
        var k :| 0 <= k < |rest| && rest[k].key == key &&
          Properties(codec, start, others)[key] == codec.store(rest[k].value) &&
          forall m :: k < m < |rest| ==> rest[m].key != key;
        assert others[k + 1] == rest[k];
        assert forall m :: k + 1 < m < |others| ==> others[m] == rest[m - 1];
        assert others[i + 1].key == key;
      } else {
        assert forall m :: 0 < m < |others| ==> others[m] == rest[m - 1];
        if others[0].key == key { assert others[0].key == key; }
      }
    }
  }
}
