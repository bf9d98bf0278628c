/**
 Extracting the instance id and the history events from the raw bytes of an
 OrchestratorRequest, skipping every other field.
 */
module OrchestratorRequest {
  import opened Bytes
  import opened ProtoWire
  import opened WireGrammar

  const INSTANCE_ID: int := 1
  const PAST_EVENTS: int := 3
  const NEW_EVENTS: int := 4

  /** What a message says; a repeated id overrides, events accumulate. */
  datatype Request = Request(instanceId: Option<seq<Byte>>, past: seq<seq<Byte>>, recent: seq<seq<Byte>>)

  datatype Decoded = Ok(request: Request) | Failed(error: WireError)

  const EMPTY := Request(None, [], [])

  /** The meaning of one message followed by another. */
  function Merge(r: Request, s: Request): Request {
    Request(if s.instanceId.Some? then s.instanceId else r.instanceId, r.past + s.past, r.recent + s.recent)
  }

  /** What one field says. */
  function Meaning(e: Entry): Request {
    if e.tag == Tag(INSTANCE_ID, BYTES) then Request(Some(e.content), [], [])
    else if e.tag == Tag(PAST_EVENTS, BYTES) then Request(None, [e.content], [])
    else if e.tag == Tag(NEW_EVENTS, BYTES) then Request(None, [], [e.content])
    else EMPTY
  }

  /** Reads the fields of `b` one after the other. */
  function Decode(b: seq<Byte>): Decoded
    decreases |b|
  {
    if b == [] then Ok(EMPTY)
    else
      var f := ConsumeField(b);
      if f.Bad? then Failed(f.error)
      else
        var rest := Decode(f.rest);
        if rest.Failed? then rest else Ok(Merge(Meaning(f.value), rest.request))
  }

  /** `r` followed by what the rest says. */
  function After(r: Request, rest: Decoded): Decoded {
    if rest.Failed? then rest else Ok(Merge(r, rest.request))
  }

  lemma MergeLaws(r: Request, s: Request, t: Request)
    ensures Merge(Merge(r, s), t) == Merge(r, Merge(s, t)) && Merge(EMPTY, r) == r && Merge(r, EMPTY) == r
  {
    assert r.past + s.past + t.past == r.past + (s.past + t.past);
    assert r.recent + s.recent + t.recent == r.recent + (s.recent + t.recent);
  }

  lemma AfterMeaning(r: Request, e: Entry, rest: Decoded)
    ensures After(r, After(Meaning(e), rest)) == After(Merge(r, Meaning(e)), rest)
  {
    if rest.Ok? {
      MergeLaws(r, Meaning(e), rest.request);
    }
  }

  /** The loop as the worker runs it; `ok` is false exactly when it returns an error. */
  method DecodeOrchestratorRequest(input: seq<Byte>)
    returns (ok: bool, instanceId: seq<Byte>, past: seq<seq<Byte>>, recent: seq<seq<Byte>>, error: Option<WireError>)
    ensures ok == Decode(input).Ok?
    ensures ok ==> var r := Decode(input).request;
              instanceId == (if r.instanceId.Some? then r.instanceId.value else []) &&
              past == r.past && recent == r.recent
    ensures !ok ==> instanceId == [] && past == [] && recent == [] && error == Some(Decode(input).error)
  {
    var b := input;
    ghost var sofar := EMPTY;
    instanceId, past, recent, error := [], [], [], None;
    while |b| > 0
      invariant Decode(input) == After(sofar, Decode(b))
      invariant instanceId == (if sofar.instanceId.Some? then sofar.instanceId.value else [])
      invariant past == sofar.past && recent == sofar.recent
      decreases |b|
    {
      ghost var field := ConsumeField(b);
      var t := ConsumeTag(b);
      if t.Bad? {
        return false, [], [], [], Some(t.error);
      }
      b := t.rest;
      var v: Consumed<seq<Byte>>;
      if t.value.num == INSTANCE_ID && t.value.wireType == BYTES {
        v := ConsumeBytes(b);
        if v.Bad? {
          return false, [], [], [], Some(v.error);
        }
        instanceId := v.value;
      } else if t.value.num == PAST_EVENTS && t.value.wireType == BYTES {
        v := ConsumeBytes(b);
        if v.Bad? {
          return false, [], [], [], Some(v.error);
        }
        past := past + [v.value];
      } else if t.value.num == NEW_EVENTS && t.value.wireType == BYTES {
        v := ConsumeBytes(b);
        if v.Bad? {
          return false, [], [], [], Some(v.error);
        }
        recent := recent + [v.value];
      } else {
        v := ConsumeValue(t.value, b, RECURSION_LIMIT);
        if v.Bad? {
          return false, [], [], [], Some(v.error);
        }
      }
      AfterMeaning(sofar, field.value, Decode(v.rest));
      sofar := Merge(sofar, Meaning(field.value));
      b := v.rest;
    }
    ok := true;
  }

  // ----- What decoding means -----

  /** The content of every length-delimited field `num`, in order. */
  function Contents(num: nat, fs: Fields): seq<seq<Byte>> {
    match fs
    case Nothing => []
    case Field(n, v, rest) => (if n == num && v.Content? then [v.data] else []) + Contents(num, rest)
  }

  /** The request that a list of records spells: the last id, and the events in order. */
  function Spelled(fs: Fields): Request {
    var ids := Contents(1, fs);
    Request(if ids == [] then None else Some(ids[|ids| - 1]), Contents(3, fs), Contents(4, fs))
  }

  lemma SpelledFirst(num: nat, v: Value, rest: Fields)
    ensures var entry := Entry(Tag(num, WireType(v)), if v.Content? then v.data else []);
      Spelled(Field(num, v, rest)) == Merge(Meaning(entry), Spelled(rest))
  {
  }

  lemma DecodeFirst(b: seq<Byte>)
    requires ConsumeField(b).Done? && Decode(ConsumeField(b).rest).Ok?
    ensures Decode(b) == Ok(Merge(Meaning(ConsumeField(b).value), Decode(ConsumeField(b).rest).request))
  {
  }

  /** Decoding the encoding of any records, unknown fields and groups among them, gives
      exactly what they spell. */
  lemma {:induction false} RoundTrip(fs: Fields)
    requires ValidFields(fs, 10000)
    ensures Decode(EncodeFields(fs, [])) == Ok(Spelled(fs))
    decreases fs
  {
    if fs.Field? {
      FieldRoundTrip(fs.num, fs.value, EncodeFields(fs.rest, []));
      RoundTrip(fs.rest);
      DecodeFirst(EncodeFields(fs, []));
      SpelledFirst(fs.num, fs.value, fs.rest);
    }
  }

  /** A message that is decoded is a list of records, and it says what they spell. */
  lemma {:induction false} DecodeSound(b: seq<Byte>) returns (fs: Fields)
    requires Decode(b).Ok?
    ensures AreFields(b, fs, 10000) && Decode(b) == Ok(Spelled(fs))
    decreases |b|
  {
    if b == [] {
      fs := Nothing;
    } else {
      var tag, value, v := FieldSound(b);
      var rest := DecodeSound(ConsumeField(b).rest);
      fs := Field(ConsumeField(b).value.tag.num, v, rest);
      DecodeFirst(b);
      SpelledFirst(fs.num, v, rest);
    }
  }

  lemma {:induction false} DecodeComplete(b: seq<Byte>, fs: Fields)
    requires AreFields(b, fs, 10000)
    ensures Decode(b) == Ok(Spelled(fs))
    decreases fs
  {
    match fs
    case Nothing =>
    case Field(num, v, rest) =>
      var tag, value, more :| IsTag(tag, num, WireType(v)) && IsValue(value, num, v, 10000) &&
        AreFields(more, rest, 10000) && b == tag + (value + more);
      FieldComplete(tag, value, num, v, more);
      DecodeComplete(more, rest);
      DecodeFirst(b);
      SpelledFirst(num, v, rest);
  }

  /** Decoding is exact: it succeeds on the lists of records only, and returns just what they spell. */
  lemma DecodeExact(b: seq<Byte>, r: Request)
    ensures Decode(b) == Ok(r) <==> exists fs :: AreFields(b, fs, 10000) && r == Spelled(fs)
  {
    if Decode(b) == Ok(r) {
      var fs := DecodeSound(b);
    }
    forall fs | AreFields(b, fs, 10000) ensures Decode(b) == Ok(Spelled(fs)) {
      DecodeComplete(b, fs);
    }
  }

  /** Decoding a well-formed message followed by anything is merging the two decodings. */
  lemma {:induction false} Concatenation(a: seq<Byte>, b: seq<Byte>)
    requires Decode(a).Ok?
    ensures Decode(a + b) == After(Decode(a).request, Decode(b))
    decreases |a|
  {
    if a == [] {
      assert a + b == b;
      if Decode(b).Ok? {
        MergeLaws(Decode(b).request, EMPTY, EMPTY);
      }
    } else {
      var f := ConsumeField(a);
      FieldStable(a, b);
      Concatenation(f.rest, b);
      if Decode(b).Ok? {
        MergeLaws(Meaning(f.value), Decode(f.rest).request, Decode(b).request);
      }
    }
  }

  /** One of the fields of `b` starts, or `b` ends, `n` bytes before the end of `b`. */
  predicate Boundary(b: seq<Byte>, n: nat)
    decreases |b|
  {
    |b| == n || (b != [] && ConsumeField(b).Done? && Boundary(ConsumeField(b).rest, n))
  }

  lemma {:induction false} BoundaryLength(b: seq<Byte>, n: nat)
    requires Boundary(b, n)
    ensures n <= |b|
    decreases |b|
  {
    if |b| != n {
      BoundaryLength(ConsumeField(b).rest, n);
    }
  }

  /** The beginning of a well-formed message decodes exactly when it ends between fields; a
      message cut inside a record is always an error. */
  lemma {:induction false} CutMessage(b: seq<Byte>, cut: seq<Byte>)
    requires Decode(b + cut).Ok?
    ensures Decode(b).Ok? <==> Boundary(b + cut, |cut|)
    ensures !Boundary(b + cut, |cut|) ==> Decode(b) == Failed(Truncated)
    decreases |b|
  {
    if b == [] {
    } else {
      FieldCut(b, cut);
      if ConsumeField(b).Done? {
        FieldStable(b, cut);
        CutMessage(ConsumeField(b).rest, cut);
      } else if Boundary(b + cut, |cut|) {
        BoundaryLength(ConsumeField(b + cut).rest, |cut|);
      }
    }
  }
}
