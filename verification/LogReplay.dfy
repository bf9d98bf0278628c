/**
 Deferred logging: the SDK's handler records `With` and `WithGroup` calls and replays them on the
 base handler of the moment; the worker's handler keeps every bound attribute with the groups that
 were open when it was bound. The reference is the nesting that slog documents.
 */
module LogReplay {
  import opened Bytes

  type Value = nat
  datatype Attr = Attr(key: string, value: Value)

  datatype Call = With(attrs: seq<Attr>) | WithGroup(name: string)

  // ----- The worker's composer -----

  datatype BoundAttr = BoundAttr(attr: Attr, groups: seq<string>)
  datatype Composer = Composer(bound: seq<BoundAttr>, groups: seq<string>)

  const FRESH := Composer([], [])

  function Bind(attrs: seq<Attr>, groups: seq<string>): seq<BoundAttr> {
    seq(|attrs|, i requires 0 <= i < |attrs| => BoundAttr(attrs[i], groups))
  }

  function ComposeAttrs(c: Composer, attrs: seq<Attr>): Composer {
    if attrs == [] then c else Composer(c.bound + Bind(attrs, c.groups), c.groups)
  }

  function ComposeGroup(c: Composer, name: string): Composer {
    if name == "" then c else Composer(c.bound, c.groups + [name])
  }

  function Compose(c: Composer, call: Call): Composer {
    match call
    case With(attrs) => ComposeAttrs(c, attrs)
    case WithGroup(name) => ComposeGroup(c, name)
  }

  /** Calls made directly on a composer, the first one first. */
  function ComposeAll(c: Composer, calls: seq<Call>): Composer
    decreases |calls|
  {
    if calls == [] then c else ComposeAll(Compose(c, calls[0]), calls[1..])
  }

  // ----- The SDK's handler -----

  /** `explicit` is a base handler of the caller's own; otherwise the default is asked for at log time. */
  datatype Handler = Handler(explicit: Option<Composer>, ops: seq<Call>)

  datatype Invocation = Invocation(id: string, functionName: string, triggerType: string)

  /** How strings become attribute values. */
  type Texts = string -> Value

  function NewLogHandler(explicit: Option<Composer>): Handler {
    Handler(explicit, [])
  }

  /** A handler with one more call recorded; a call without effect is not. */
  function Record(h: Handler, call: Call): Handler {
    if call == With([]) || call == WithGroup("") then h else h.(ops := h.ops + [call])
  }

  function RecordAll(h: Handler, calls: seq<Call>): Handler
    decreases |calls|
  {
    if calls == [] then h else RecordAll(Record(h, calls[0]), calls[1..])
  }

  function SdkAttrs(texts: Texts, invocation: Option<Invocation>): seq<Attr> {
    match invocation
    case None => []
    case Some(ic) =>
      (if ic.id != "" then [Attr("invocation_id", texts(ic.id))] else []) +
      (if ic.functionName != "" then [Attr("function_name", texts(ic.functionName))] else []) +
      (if ic.triggerType != "" then [Attr("trigger_type", texts(ic.triggerType))] else [])
  }

  function ResolveBase(h: Handler, base: Composer): Composer {
    match h.explicit
    case None => base
    case Some(own) => own
  }

  /** The handler that a record is given to: the base of the moment, the SDK's attributes, then the recorded calls. */
  method Effective(h: Handler, base: Composer, texts: Texts, invocation: Option<Invocation>) returns (b: Composer)
    ensures b == ComposeAll(ComposeAttrs(ResolveBase(h, base), SdkAttrs(texts, invocation)), h.ops)
  {
    b := ResolveBase(h, base);
    var sdkAttrs := SdkAttrs(texts, invocation);
    if |sdkAttrs| > 0 { b := ComposeAttrs(b, sdkAttrs); }
    ghost var start := b;
    for i := 0 to |h.ops|
      invariant ComposeAll(start, h.ops) == ComposeAll(b, h.ops[i..])
    {
      b := Compose(b, h.ops[i]);
    }
  }

  // ----- Replay is direct -----

  lemma {:induction false} ComposeAppend(c: Composer, a: seq<Call>, b: seq<Call>)
    ensures ComposeAll(c, a + b) == ComposeAll(ComposeAll(c, a), b)
    decreases |a|
  {
    if a == [] {
      assert a + b == b;
    } else {
      assert (a + b)[1..] == a[1..] + b;
      ComposeAppend(Compose(c, a[0]), a[1..], b);
    }
  }

  lemma {:induction false} RecordedComposes(h: Handler, calls: seq<Call>, c: Composer)
    ensures var r := RecordAll(h, calls);
      r.explicit == h.explicit && ComposeAll(c, r.ops) == ComposeAll(ComposeAll(c, h.ops), calls)
    decreases |calls|
  {
    if calls == [] {
    } else {
      var call := calls[0];
      RecordedComposes(Record(h, call), calls[1..], c);
      ComposeAppend(c, h.ops, [call]);
    }
  }

  /** Whatever base is found at log time, replay does to it what the calls would have done on it directly. */
  lemma ReplayIsDirect(
    calls: seq<Call>, explicit: Option<Composer>, base: Composer, texts: Texts, invocation: Option<Invocation>)
    ensures var h := RecordAll(NewLogHandler(explicit), calls);
      var found := if explicit.Some? then explicit.value else base;
      ComposeAll(ComposeAttrs(ResolveBase(h, base), SdkAttrs(texts, invocation)), h.ops) ==
      ComposeAll(ComposeAttrs(found, SdkAttrs(texts, invocation)), calls)
  {
    var found := if explicit.Some? then explicit.value else base;
    RecordedComposes(NewLogHandler(explicit), calls, ComposeAttrs(found, SdkAttrs(texts, invocation)));
  }

  // ----- What a record carries -----

  /** A key behind the groups, each followed by a dot. */
  function Qualified(groups: seq<string>, key: string): string {
    if groups == [] then key else groups[0] + "." + Qualified(groups[1..], key)
  }

  method Qualify(groups: seq<string>, key: string) returns (r: string)
    ensures r == Qualified(groups, key)
  {
    var buf := "";
    for i := 0 to |groups|
      invariant Qualified(groups, key) == buf + Qualified(groups[i..], key)
    {
      assert groups[i..][1..] == groups[i + 1..];
      buf := buf + groups[i] + ".";
    }
    return buf + key;
  }

  function QualifiedAttr(groups: seq<string>, a: Attr): Attr {
    Attr(Qualified(groups, a.key), a.value)
  }

  function QualifyBound(bound: seq<BoundAttr>): seq<Attr> {
    seq(|bound|, i requires 0 <= i < |bound| => QualifiedAttr(bound[i].groups, bound[i].attr))
  }

  function QualifyAll(groups: seq<string>, attrs: seq<Attr>): seq<Attr> {
    seq(|attrs|, i requires 0 <= i < |attrs| => QualifiedAttr(groups, attrs[i]))
  }

  /** The attributes of a record with the given ones inline, as the worker's handler qualifies them. */
  function Carried(c: Composer, inline: seq<Attr>): seq<Attr> {
    QualifyBound(c.bound) + QualifyAll(c.groups, inline)
  }

  /** The nesting of slog: attributes stand beside what follows, a group is around all that follows. */
  function Nested(calls: seq<Call>, inline: seq<Attr>): seq<Attr> {
    if calls == [] then inline
    else
      match calls[0]
      case With(attrs) => attrs + Nested(calls[1..], inline)
      case WithGroup(name) =>
        if name == "" then Nested(calls[1..], inline) else QualifyAll([name], Nested(calls[1..], inline))
  }

  lemma {:induction false} QualifiedSnoc(groups: seq<string>, name: string, key: string)
    ensures Qualified(groups + [name], key) == Qualified(groups, Qualified([name], key))
    decreases |groups|
  {
    if groups == [] {
      assert [] + [name] == [name];
    } else {
      assert (groups + [name])[1..] == groups[1..] + [name];
      QualifiedSnoc(groups[1..], name, key);
    }
  }

  lemma QualifyAllSnoc(groups: seq<string>, name: string, attrs: seq<Attr>)
    ensures QualifyAll(groups + [name], attrs) == QualifyAll(groups, QualifyAll([name], attrs))
  {
    forall i | 0 <= i < |attrs|
      ensures QualifyAll(groups + [name], attrs)[i] == QualifyAll(groups, QualifyAll([name], attrs))[i]
    {
      QualifiedSnoc(groups, name, attrs[i].key);
    }
  }

  /** Composing keeps what was bound and nests what follows under the groups open so far. */
  lemma {:induction false} ComposedIsNested(c: Composer, calls: seq<Call>, inline: seq<Attr>)
    ensures Carried(ComposeAll(c, calls), inline) == QualifyBound(c.bound) + QualifyAll(c.groups, Nested(calls, inline))
    decreases |calls|
  {
    if calls == [] {
    } else {
      var next := Compose(c, calls[0]);
      var rest := Nested(calls[1..], inline);
      ComposedIsNested(next, calls[1..], inline);
      match calls[0]
      case With(attrs) =>
        assert QualifyBound(next.bound) == QualifyBound(c.bound) + QualifyAll(c.groups, attrs);
        assert QualifyAll(c.groups, attrs + rest) == QualifyAll(c.groups, attrs) + QualifyAll(c.groups, rest);
      case WithGroup(name) =>
        if name != "" { QualifyAllSnoc(c.groups, name, rest); }
    }
  }

  /** An attribute for a string, if there is one. */
  function IfGiven(texts: Texts, key: string, value: string): seq<Attr> {
    if value == "" then [] else [Attr(key, texts(value))]
  }

  /**
   A record logged through the SDK's handler on a worker handler without calls of its own: first
   the invocation's id, function name and trigger type as far as they are given, each under its own
   name, then the user's attributes, each under exactly the groups opened before it, whenever the
   base was swapped in.
   */
  lemma RecordCarries(calls: seq<Call>, texts: Texts, invocation: Option<Invocation>, inline: seq<Attr>)
    ensures var h := RecordAll(NewLogHandler(None), calls);
      Carried(ComposeAll(ComposeAttrs(ResolveBase(h, FRESH), SdkAttrs(texts, invocation)), h.ops), inline) ==
      match invocation
      case None => Nested(calls, inline)
      case Some(ic) =>
        IfGiven(texts, "invocation_id", ic.id) + IfGiven(texts, "function_name", ic.functionName) +
        IfGiven(texts, "trigger_type", ic.triggerType) + Nested(calls, inline)
  {
    var sdk := SdkAttrs(texts, invocation);
    var c := ComposeAttrs(FRESH, sdk);
    ReplayIsDirect(calls, None, FRESH, texts, invocation);
    ComposedIsNested(c, calls, inline);
    assert QualifyBound(c.bound) == sdk;
    assert QualifyAll(c.groups, Nested(calls, inline)) == Nested(calls, inline);
  }
}
