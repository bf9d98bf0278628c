/** Reading host.json end to end, and the provider that captures the outcome once for the process. */
module HostConfigurationReader {
  import opened Bytes
  import opened HostConfiguration
  import opened UnicodeForms
  import opened HostConfigurationDecoder
  import opened DecoderCorrectness
  import opened JsonTree
  import opened JsonText
  import opened JsonNormalizer
  import opened NormalizerCorrectness
  import HostConfigurationNormalizer

  /** What an open file is delivered as. */
  function Delivered(src: Source): Outcome {
    match Decode(src)
    case Failed(reason) => Failed(reason)
    case Ok(content) => Normalize(content)
  }

  /** Decodes and normalises an open file; failing to close it is a read error. */
  method ReadHostConfiguration(file: Source, closes: bool) returns (result: Outcome)
    ensures result == if closes then Delivered(file) else Failed(ReadFailed)
  {
    var decoded, _ := HostConfigurationDecoder.DecodeHostConfiguration(file);
    if !closes { return Failed(ReadFailed); }
    if decoded.Failed? { return decoded; }
    result := HostConfigurationNormalizer.NormalizeHostConfiguration(decoded.content);
  }

  /** The file's text behind its mark is `vs`, which spells the document `j`. */
  ghost predicate Writes(bytes: seq<Byte>, vs: seq<Scalar>, ps: seq<Piece>, j: Json) {
    bytes[Selected(bytes).bom..] == Encode(Selected(bytes).form, vs) &&
    |Encode(Utf8, vs)| <= 65536 && Spells(Encode(Utf8, vs), ps, j) && Deliverable(j)
  }

  /** A file is delivered as `output` if and only if it writes a document whose compact strict form is `output`. */
  lemma DeliveredExactly(bytes: seq<Byte>, output: seq<Byte>)
    ensures Delivered(File(bytes)) == Ok(output) <==>
      exists vs, ps, j :: Writes(bytes, vs, ps, j) && output == Compacted(j)
  {
    if Delivered(File(bytes)) == Ok(output) {
      var vs := DecodeFileSound(bytes, Decode(File(bytes)).content);
      var ps, j := NormalizeSound(Encode(Utf8, vs));
      NormalizeAccepts(Encode(Utf8, vs), ps, j);
      assert Writes(bytes, vs, ps, j);
    }
    forall vs, ps, j | Writes(bytes, vs, ps, j) && output == Compacted(j) ensures Delivered(File(bytes)) == Ok(output) {
      DecodeBehind(bytes, Selected(bytes).form, Selected(bytes).bom, vs);
      NormalizeAccepts(Encode(Utf8, vs), ps, j);
    }
  }

  /** The encoding does not matter: a text is delivered alike in every form behind its mark. */
  lemma EncodingIrrelevant(f: Form, g: Form, vs: seq<Scalar>)
    requires vs != [] ==> vs[0] != 0
    ensures Delivered(File(Bom(f) + Encode(f, vs))) == Delivered(File(Bom(g) + Encode(g, vs)))
  {
    DecodeMarked(f, vs);
    DecodeMarked(g, vs);
  }

  // ----- The provider -----

  /** What reading the application's file came to, the steps before it is open included. */
  datatype Captured = Content(content: seq<Byte>) | NoFile | ReadError(reason: string)

  datatype Status = Available | Missing | TooLarge | Error
  datatype Response = Response(status: Status, content: seq<Byte>)

  const OVERSIZED := "Oversized"

  function Answer(c: Captured): Response {
    match c
    case Content(content) => Response(Available, content)
    case NoFile => Response(Missing, [])
    case ReadError(reason) => Response(if reason == OVERSIZED then TooLarge else Error, [])
  }

  /** Reading an open file, as it is captured: a failure by its name. */
  function CapturedOf(o: Outcome): Captured {
    match o
    case Ok(content) => Content(content)
    case Failed(Oversized) => ReadError(OVERSIZED)
    case Failed(InvalidEncoding) => ReadError("InvalidEncoding")
    case Failed(InvalidJson) => ReadError("InvalidJson")
    case Failed(ReadFailed) => ReadError("ReadFailed")
  }

  /** What a host must be told of a captured outcome. */
  predicate Tells(r: Response, c: Captured) {
    match r.status
    case Available => c == Content(r.content)
    case Missing => c.NoFile? && r.content == []
    case TooLarge => c == ReadError("Oversized") && r.content == []
    case Error => c.ReadError? && c.reason != "Oversized" && r.content == []
  }

  lemma ToldOf(o: Outcome)
    ensures match o
      case Ok(content) => Answer(CapturedOf(o)) == Response(Available, content)
      case Failed(Oversized) => Answer(CapturedOf(o)) == Response(TooLarge, [])
      case Failed(_) => Answer(CapturedOf(o)) == Response(Error, [])
  {
    assert "InvalidEncoding"[0] != OVERSIZED[0] && "InvalidJson"[0] != OVERSIZED[0] && "ReadFailed"[0] != OVERSIZED[0];
  }

  /**
   What a host is told of a file: available with `output` if and only if the file writes a document
   whose compact strict form is `output`, too large exactly if its text is, and an error otherwise.
   */
  lemma ToldExactly(bytes: seq<Byte>, output: seq<Byte>)
    ensures var told := Answer(CapturedOf(Delivered(File(bytes))));
      (told == Response(Available, output) <==>
        exists vs, ps, j :: Writes(bytes, vs, ps, j) && output == Compacted(j)) &&
      (told.status == TooLarge <==> Delivered(File(bytes)) == Failed(Oversized)) &&
      told.status != Missing
  {
    DeliveredExactly(bytes, output);
    ToldOf(Delivered(File(bytes)));
  }

  /** What the provider remembers: the first outcome, and whether a warning has been considered. */
  datatype Memory = Memory(snapshot: Option<Captured>, warned: bool)

  const NOTHING := Memory(None, false)

  /** A host's request. `outcome` is what reading the file would give now. */
  datatype Request = Request(asked: bool, hasLogger: bool, outcome: Captured)

  datatype Reply = Reply(response: Option<Response>, warns: bool)

  function Remember(m: Memory, q: Request): Memory {
    if !q.asked then m else Memory(if m.snapshot.Some? then m.snapshot else Some(q.outcome), true)
  }

  function ReplyTo(m: Memory, q: Request): Reply {
    if !q.asked then Reply(None, false)
    else
      var captured := Remember(m, q).snapshot.value;
      Reply(Some(Answer(captured)), !m.warned && q.hasLogger && captured.ReadError?)
  }

  function Replies(m: Memory, requests: seq<Request>): (replies: seq<Reply>)
    ensures |replies| == |requests|
    decreases |requests|
  {
    if requests == [] then []
    else [ReplyTo(m, requests[0])] + Replies(Remember(m, requests[0]), requests[1..])
  }

  lemma {:induction false} RemembersFirst(m: Memory, requests: seq<Request>, i: nat)
    requires m.snapshot.Some? && m.warned && i < |requests|
    ensures Replies(m, requests)[i] == Reply(if requests[i].asked then Some(Answer(m.snapshot.value)) else None, false)
    decreases |requests|
  {
    if i > 0 { RemembersFirst(Remember(m, requests[0]), requests[1..], i - 1); }
  }

  /**
   Over the life of the process every host that asks gets the answer to what was captured on the
   first request that asked, and only that request can log a failure.
   */
  lemma {:induction false} AnswersAgree(requests: seq<Request>, first: nat, i: nat)
    requires first < |requests| && requests[first].asked && forall k :: 0 <= k < first ==> !requests[k].asked
    requires i < |requests|
    ensures var replies := Replies(NOTHING, requests);
      replies[i].response == (if requests[i].asked then Some(Answer(requests[first].outcome)) else None) &&
      (requests[i].asked ==> Tells(replies[i].response.value, requests[first].outcome)) &&
      (replies[i].warns <==> i == first && requests[first].hasLogger && requests[first].outcome.ReadError?)
    decreases |requests|
  {
    if first > 0 {
      if i > 0 { AnswersAgree(requests[1..], first - 1, i - 1); }
    } else if i > 0 {
      RemembersFirst(Remember(NOTHING, requests[0]), requests[1..], i - 1);
    }
  }

  /** The process-wide provider. */
  class Provider {
    var snapshot: Option<Captured>
    var warned: bool

    constructor ()
      ensures Memory(snapshot, warned) == NOTHING
    {
      snapshot, warned := None, false;
    }

    /** Answers a host; the outcome of reading the file counts on the first request that asks. */
    method Provide(q: Request) returns (reply: Reply)
      modifies this
      ensures Memory(snapshot, warned) == Remember(old(Memory(snapshot, warned)), q)
      ensures reply == ReplyTo(old(Memory(snapshot, warned)), q)
    {
      if !q.asked { return Reply(None, false); }
      if snapshot.None? { snapshot := Some(q.outcome); }
      var warns := !warned && q.hasLogger && snapshot.value.ReadError?;
      warned := true;
      reply := Reply(Some(Answer(snapshot.value)), warns);
    }
  }
}
