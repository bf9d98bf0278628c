/**
 The handlers of `LogReplay` as they lie in memory: their lists are slices, and handlers forked
 from one parent may share arrays. No operation writes an array that a handler made before can
 see, so every handler keeps its value through any tree of calls.

 How much room the runtime leaves behind appended elements is a parameter.
 */
module LogForks {
  import opened Bytes
  import opened GoSlices
  import opened LogReplay

  // ----- The worker's composer -----

  datatype BoundSlice = BoundSlice(attr: Attr, groups: Slice<string>)
  datatype ComposerSlices = ComposerSlices(bound: Slice<BoundSlice>, groups: Slice<string>)

  const NO_BOUND := BoundSlice(Attr("", 0), NilSlice)

  ghost predicate AllFit(bound: seq<BoundSlice>) {
    forall i :: 0 <= i < |bound| ==> Fits(bound[i].groups)
  }

  ghost function GroupArrays(bound: seq<BoundSlice>): set<object> {
    set i, a | 0 <= i < |bound| && a in Arrays(bound[i].groups) :: a
  }

  ghost predicate Valid(c: ComposerSlices)
    reads Arrays(c.bound)
  {
    Fits(c.bound) && Fits(c.groups) && AllFit(View(c.bound))
  }

  /** The bound attributes with the groups their slices show. */
  ghost function BoundOf(bound: seq<BoundSlice>): (b: seq<BoundAttr>)
    requires AllFit(bound)
    reads GroupArrays(bound)
    ensures |b| == |bound|
  {
    if bound == [] then []
    else
      var front, last := bound[..|bound| - 1], bound[|bound| - 1];
      assert forall i :: 0 <= i < |front| ==> front[i] == bound[i];
      assert bound[|bound| - 1].groups == last.groups;
      BoundOf(front) + [BoundAttr(last.attr, View(last.groups))]
  }

  /** Every array through which the value of `c` can be seen. */
  ghost function Footprint(c: ComposerSlices): set<object>
    requires Fits(c.bound)
    reads Arrays(c.bound)
  {
    Arrays(c.bound) + Arrays(c.groups) + GroupArrays(View(c.bound))
  }

  /** The composer that the slices show. */
  ghost function Shown(c: ComposerSlices): Composer
    requires Valid(c)
    reads Arrays(c.bound), Footprint(c)
  {
    Composer(BoundOf(View(c.bound)), View(c.groups))
  }

  lemma {:induction false} BoundOfAppend(a: seq<BoundSlice>, b: seq<BoundSlice>)
    requires AllFit(a) && AllFit(b)
    ensures AllFit(a + b) && BoundOf(a + b) == BoundOf(a) + BoundOf(b)
    decreases |b|
  {
    if b == [] {
      assert a + b == a;
    } else {
      var front := b[..|b| - 1];
      assert (a + b)[..|a + b| - 1] == a + front;
      BoundOfAppend(a, front);
    }
  }

  /** Who does not write the groups' arrays does not change what is bound. */
  twostate lemma {:induction false} BoundKept(bound: seq<BoundSlice>)
    requires AllFit(bound)
    requires forall i :: 0 <= i < |bound| ==> unchanged(Arrays(bound[i].groups))
    ensures BoundOf(bound) == old(BoundOf(bound))
    decreases |bound|
  {
    if bound == [] {
    } else {
      var front, last := bound[..|bound| - 1], bound[|bound| - 1];
      assert forall i :: 0 <= i < |front| ==> front[i] == bound[i];
      BoundKept(front);
      assert unchanged(Arrays(last.groups));
    }
  }

  /** Who does not write a composer's arrays does not change the composer. */
  twostate lemma ShownKept(c: ComposerSlices)
    requires old(Valid(c)) && unchanged(Arrays(c.bound)) && unchanged(Arrays(c.groups))
    requires forall i :: 0 <= i < Len(c.bound) ==> unchanged(Arrays(old(View(c.bound))[i].groups))
    ensures Valid(c) && Shown(c) == old(Shown(c))
  {
    assert View(c.bound) == old(View(c.bound));
    BoundKept(View(c.bound));
  }

  /** Attributes that share one snapshot of the groups. */
  function Tagged(attrs: seq<Attr>, groups: Slice<string>): seq<BoundSlice> {
    seq(|attrs|, i requires 0 <= i < |attrs| => BoundSlice(attrs[i], groups))
  }

  lemma {:induction false} TaggedShows(attrs: seq<Attr>, groups: Slice<string>)
    requires Fits(groups)
    ensures AllFit(Tagged(attrs, groups)) && BoundOf(Tagged(attrs, groups)) == Bind(attrs, View(groups))
    decreases |attrs|
  {
    if attrs == [] {
    } else {
      var front := attrs[..|attrs| - 1];
      assert Tagged(attrs, groups)[..|attrs| - 1] == Tagged(front, groups);
      TaggedShows(front, groups);
    }
  }

  /** Appends the attributes one by one, into the room made for them. */
  method AppendTagged(
    bound: Slice<BoundSlice>, attrs: seq<Attr>, snapshot: Slice<string>) returns (r: Slice<BoundSlice>)
    requires Fits(bound) && bound.Backed? && Room(bound) == |attrs|
    modifies bound.data
    ensures Fits(r) && r.Backed? && r.data == bound.data
    ensures View(r) == old(View(bound)) + Tagged(attrs, snapshot)
  {
    r := bound;
    ghost var before := View(bound);
    for i := 0 to |attrs|
      invariant Fits(r) && r.Backed? && r.data == bound.data && Room(r) == |attrs| - i
      invariant View(r) == before + Tagged(attrs[..i], snapshot)
    {
      assert Tagged(attrs[..i + 1], snapshot) == Tagged(attrs[..i], snapshot) + [BoundSlice(attrs[i], snapshot)];
      r := Append(r, [BoundSlice(attrs[i], snapshot)], 0);
    }
    assert attrs[..|attrs|] == attrs;
  }

  /** What was bound before, then the new attributes, in an array of its own. */
  method ExtendBound(bound: Slice<BoundSlice>, attrs: seq<Attr>, snapshot: Slice<string>) returns (r: Slice<BoundSlice>)
    requires Fits(bound)
    ensures Fits(r) && fresh(Arrays(r)) && View(r) == View(bound) + Tagged(attrs, snapshot)
  {
    var inherited := View(bound);
    r := Make(NO_BOUND, Len(bound) + |attrs|);
    r := Append(r, inherited, 0);
    r := AppendTagged(r, attrs, snapshot);
  }

  /** Nothing that existed before is written: neither `c` nor any other handler changes. */
  method BindAttrs(c: ComposerSlices, attrs: seq<Attr>) returns (next: ComposerSlices)
    requires Valid(c)
    ensures Valid(next) && Shown(next) == ComposeAttrs(Shown(c), attrs)
  {
    if |attrs| == 0 { return c; }
    var groups := Clone(c.groups);
    var snapshot := Clone(c.groups);
    var bound := ExtendBound(c.bound, attrs, snapshot);
    next := ComposerSlices(bound, groups);
    TaggedShows(attrs, snapshot);
    BoundOfAppend(View(c.bound), Tagged(attrs, snapshot));
  }

  /** The same for a group: the array that is appended to is the new composer's own,
      with room as the runtime leaves it. */
  method OpenGroup(c: ComposerSlices, name: string, spare: nat) returns (next: ComposerSlices)
    requires Valid(c)
    ensures Valid(next) && Shown(next) == ComposeGroup(Shown(c), name)
    ensures name != "" ==> Room(next.groups) == spare && fresh(Arrays(next.groups))
  {
    if name == "" { return c; }
    var bound := Clone(c.bound);
    var groups := Clone(c.groups);
    groups := Append(groups, [name], spare);
    next := ComposerSlices(bound, groups);
  }

  // ----- The SDK's handler -----

  datatype HandlerSlices = HandlerSlices(explicit: Option<Composer>, ops: Slice<Call>)

  predicate HandlerFits(h: HandlerSlices) {
    Fits(h.ops)
  }

  function HandlerShown(h: HandlerSlices): Handler
    requires HandlerFits(h)
    reads Arrays(h.ops)
  {
    Handler(h.explicit, View(h.ops))
  }

  /** `WithAttrs` and `WithGroup` of the SDK's handler: the recorded calls are copied before one is added. */
  method RecordCall(h: HandlerSlices, call: Call) returns (next: HandlerSlices)
    requires HandlerFits(h)
    ensures HandlerFits(next) && HandlerShown(next) == Record(HandlerShown(h), call)
  {
    if call == With([]) || call == WithGroup("") { return h; }
    var calls := View(h.ops);
    var ops := Make(WithGroup(""), Len(h.ops) + 1);
    ops := Append(ops, calls, 0);
    ops := Append(ops, [call], 0);
    next := h.(ops := ops);
  }

  // ----- Trees of handlers -----

  /** One more handler, made by a call on an earlier one; `spare` is the room the runtime leaves. */
  datatype Fork = Fork(parent: nat, call: Call, spare: nat)

  /** Handler 0 is the root; fork `k` makes handler `k + 1` from one of those before it. */
  predicate IsTree(forks: seq<Fork>) {
    forall k :: 0 <= k < |forks| ==> forks[k].parent <= k
  }

  /** The calls on the way from the root to handler `k`. */
  function CallsTo(forks: seq<Fork>, k: nat): seq<Call>
    requires IsTree(forks) && k <= |forks|
  {
    if k == 0 then [] else CallsTo(forks, forks[k - 1].parent) + [forks[k - 1].call]
  }

  /** The value of every handler of a tree, one after the other. */
  function Tree<S>(step: (S, Call) -> S, root: S, forks: seq<Fork>, n: nat): (values: seq<S>)
    requires IsTree(forks) && n <= |forks|
    ensures |values| == n + 1
  {
    if n == 0 then [root]
    else
      var earlier := Tree(step, root, forks, n - 1);
      earlier + [step(earlier[forks[n - 1].parent], forks[n - 1].call)]
  }

  /** The value after a list of calls, the last one last. */
  function Along<S>(step: (S, Call) -> S, root: S, calls: seq<Call>): S {
    if calls == [] then root else step(Along(step, root, calls[..|calls| - 1]), calls[|calls| - 1])
  }

  /** In a tree, a handler has the value of its own calls. */
  lemma {:induction false} TreeAt<S>(step: (S, Call) -> S, root: S, forks: seq<Fork>, n: nat, k: nat)
    requires IsTree(forks) && k <= n <= |forks|
    ensures Tree(step, root, forks, n)[k] == Along(step, root, CallsTo(forks, k))
    decreases n
  {
    if k < n {
      TreeAt(step, root, forks, n - 1, k);
    } else if n > 0 {
      var fork := forks[n - 1];
      TreeAt(step, root, forks, n - 1, fork.parent);
      var calls := CallsTo(forks, fork.parent);
      assert (calls + [fork.call])[..|calls|] == calls;
    }
  }

  lemma {:induction false} AlongComposes(c: Composer, calls: seq<Call>)
    ensures Along(Compose, c, calls) == ComposeAll(c, calls)
    decreases |calls|
  {
    if calls == [] {
    } else {
      var front, last := calls[..|calls| - 1], calls[|calls| - 1];
      assert calls == front + [last];
      AlongComposes(c, front);
      ComposeAppend(c, front, [last]);
    }
  }

  lemma {:induction false} RecordLast(h: Handler, calls: seq<Call>, call: Call)
    ensures RecordAll(h, calls + [call]) == Record(RecordAll(h, calls), call)
    decreases |calls|
  {
    if calls == [] {
      assert [] + [call] == [call];
    } else {
      assert (calls + [call])[1..] == calls[1..] + [call];
      RecordLast(Record(h, calls[0]), calls[1..], call);
    }
  }

  lemma {:induction false} AlongRecords(h: Handler, calls: seq<Call>)
    ensures Along(Record, h, calls) == RecordAll(h, calls)
    decreases |calls|
  {
    if calls == [] {
    } else {
      var front, last := calls[..|calls| - 1], calls[|calls| - 1];
      assert calls == front + [last];
      AlongRecords(h, front);
      RecordLast(h, front, last);
    }
  }

  /** The composers show these values. */
  ghost predicate Show(cs: seq<ComposerSlices>, shown: seq<Composer>)
    reads *
  {
    |cs| == |shown| && forall k :: 0 <= k < |cs| ==> Valid(cs[k]) && Shown(cs[k]) == shown[k]
  }

  /** One more handler, with all others as they were. */
  method ForkOne(cs: seq<ComposerSlices>, parent: nat, call: Call, spare: nat, ghost shown: seq<Composer>)
    returns (next: ComposerSlices)
    requires Show(cs, shown) && parent < |cs|
    ensures Show(cs + [next], shown + [Compose(shown[parent], call)])
  {
    match call {
      case With(attrs) => next := BindAttrs(cs[parent], attrs);
      case WithGroup(name) => next := OpenGroup(cs[parent], name, spare);
    }
    forall k | 0 <= k < |cs| ensures Valid(cs[k]) && Shown(cs[k]) == shown[k] { ShownKept(cs[k]); }
  }

  /** Handlers forked from one parent never affect each other: in the end each shows just its own calls. */
  method ForkComposers(forks: seq<Fork>) returns (handlers: seq<ComposerSlices>)
    requires IsTree(forks)
    ensures |handlers| == |forks| + 1
    ensures forall k :: 0 <= k <= |forks| ==>
      Valid(handlers[k]) && Shown(handlers[k]) == ComposeAll(FRESH, CallsTo(forks, k))
  {
    handlers := [ComposerSlices(NilSlice, NilSlice)];
    for i := 0 to |forks|
      invariant Show(handlers, Tree(Compose, FRESH, forks, i))
    {
      var next := ForkOne(handlers, forks[i].parent, forks[i].call, forks[i].spare, Tree(Compose, FRESH, forks, i));
      handlers := handlers + [next];
    }
    forall k: nat | k <= |forks|
      ensures Tree(Compose, FRESH, forks, |forks|)[k] == ComposeAll(FRESH, CallsTo(forks, k)) {
      TreeAt(Compose, FRESH, forks, |forks|, k);
      AlongComposes(FRESH, CallsTo(forks, k));
    }
  }

  ghost predicate ShowHandlers(hs: seq<HandlerSlices>, shown: seq<Handler>)
    reads *
  {
    |hs| == |shown| && forall k :: 0 <= k < |hs| ==> HandlerFits(hs[k]) && HandlerShown(hs[k]) == shown[k]
  }

  method RecordOne(
    hs: seq<HandlerSlices>, parent: nat, call: Call, ghost shown: seq<Handler>) returns (next: HandlerSlices)
    requires ShowHandlers(hs, shown) && parent < |hs|
    ensures ShowHandlers(hs + [next], shown + [Record(shown[parent], call)])
  {
    next := RecordCall(hs[parent], call);
    forall k | 0 <= k < |hs| ensures HandlerShown(hs[k]) == shown[k] {
      assert unchanged(Arrays(hs[k].ops));
    }
  }

  /** The same for the handlers of the SDK. */
  method ForkHandlers(explicit: Option<Composer>, forks: seq<Fork>) returns (handlers: seq<HandlerSlices>)
    requires IsTree(forks)
    ensures |handlers| == |forks| + 1
    ensures forall k :: 0 <= k <= |forks| ==>
      HandlerFits(handlers[k]) && HandlerShown(handlers[k]) == RecordAll(NewLogHandler(explicit), CallsTo(forks, k))
  {
    var root := NewLogHandler(explicit);
    handlers := [HandlerSlices(explicit, NilSlice)];
    for i := 0 to |forks|
      invariant ShowHandlers(handlers, Tree(Record, root, forks, i))
    {
      var next := RecordOne(handlers, forks[i].parent, forks[i].call, Tree(Record, root, forks, i));
      handlers := handlers + [next];
    }
    forall k: nat | k <= |forks| ensures Tree(Record, root, forks, |forks|)[k] == RecordAll(root, CallsTo(forks, k)) {
      TreeAt(Record, root, forks, |forks|, k);
      AlongRecords(root, CallsTo(forks, k));
    }
  }

  // ----- Why the clone is needed -----

  /** What `withGroup` would do to its groups without the clone. */
  method OpenGroupShared(c: ComposerSlices, name: string, spare: nat) returns (groups: Slice<string>)
    requires Fits(c.groups)
    modifies Arrays(c.groups)
    ensures Fits(groups) && View(groups) == old(View(c.groups)) + [name] && View(c.groups) == old(View(c.groups))
    ensures Room(c.groups) > 0 ==> groups == Backed(c.groups.data, c.groups.len + 1)
    ensures Room(c.groups) == 0 ==> groups.Backed? && fresh(groups.data)
  {
    groups := Append(c.groups, [name], spare);
  }

  /**
   Two loggers forked from one without the clone: the second group overwrites the first exactly when
   the parent's groups have room, as `OpenGroup` may leave it.
   */
  method SiblingsShared(root: ComposerSlices, parent: string, x: string, y: string, spare: nat)
    returns (a: Slice<string>, b: Slice<string>)
    requires Valid(root) && parent != "" && x != y
    ensures Fits(a) && Fits(b)
    ensures View(b) == Shown(root).groups + [parent, y]
    ensures View(a) == if spare == 0 then Shown(root).groups + [parent, x] else View(b)
  {
    var c := OpenGroup(root, parent, spare);
    ghost var groups := Shown(root).groups;
    assert View(c.groups) == groups + [parent];
    assert groups + [parent] + [x] == groups + [parent, x] && groups + [parent] + [y] == groups + [parent, y];
    a := OpenGroupShared(c, x, spare);
    assert View(c.groups) == groups + [parent];
    b := OpenGroupShared(c, y, spare);
    assert View(root.groups) == groups;
  }
}
