# Verified model of the Azure Functions Go worker

Dafny models of the parts of the worker whose correctness is hardest to see from the code, with proofs about them.
`dafny verify dfyconfig.toml` checks everything.

- **host.json** (`HostConfiguration*`, `UnicodeForms`, `DecoderCorrectness`, `Json*`, `NormalizerCorrectness`): a byte
  stream in one of five encodings becomes at most 65,536 bytes of UTF-8, and a three-pass normaliser turns JSON with
  comments and trailing commas into compact JSON. UTF-8 is sections 3 and 4 of RFC 3629, UTF-16 sections 2.1 and 2.2 of
  RFC 2781, UTF-32 section 3.9 of the Unicode Standard, JSON sections 2 to 7 of RFC 8259. `json.Compact` is modelled as
  a recogniser for RFC 8259 followed by the removal of insignificant whitespace, `ReadRune` as strict RFC 3629 decoding.
  A source answers every position with a byte, the end or a read error, so it may be endless.
- **Type validation and generic conversion** (`TypeGraph`, `BindingType`, `HostData`, `GenericDecoding`,
  `GenericEncoding`): Go types are a finite graph that may contain cycles, Go values live in a heap that may contain
  cycles. What `encoding/json` and custom codecs do is a parameter.
- **Batches** (`BatchMetadata`, `BatchConversion`): the order in which a map is visited is a parameter.
- **Protocols** (`HttpRendezvous`, `OutboundSender`, `SpecializationProxy`, `SpecializationHandover`): each goroutine
  has a program counter, one step is one atomic action, a `select` may take any ready case, timeouts, disconnects and
  failed sends may happen at any time. The theorems hold for every feasible list of steps.
- **Durable Task requests** (`ProtoWire`, `WireGrammar`, `OrchestratorRequest`, `SubOrchestrations`): the Protocol
  Buffers wire format ("Message Structure", "Base 128 Varints", "Length-Delimited Records" of the Encoding
  specification) and the decode loop over it.
- **Logging** (`LogReplay`, `GoSlices`, `LogForks`, `RpcLogs`, `CategoryFilter`): deferred replay of `With` and
  `WithGroup`, the slices behind it, the RpcLog fields, and the category threshold.

Four comments promise more than the code does. The model follows the code; each has a concrete run or input and the
exact condition under which the promise holds:

- `worker/worker.go:182-184` says that final logs drain. The sender may leave its loop with messages queued
  (`OutboundSender.StopMayStrand`). When `stop` has returned it drains, further sends succeeding, exactly when nothing is
  queued, nothing was lost by a failed send, and a call waits with a message only if the sender has left its loop with
  the queue full (`OutboundSender.DrainsAfterStop`; for every state `OutboundSender.DrainsExactly`).
- `proxy/main.go:215-218` says that no host message reaches the child before it is initialised. Line 208 forwards as
  soon as the child's stream is there (`SpecializationProxy.OvertakingExists`, `SpecializationProxy.OvertakesExactly`).
- `worker/http_proxy.go:261-265` says that a late gRPC arrival is unblocked. Line 283 removes the entry, so a later
  arrival waits on a slot of its own (`HttpRendezvous.LateArrivalExists`, `HttpRendezvous.LateArrivalAnswered`,
  `HttpRendezvous.LateArrivalTimesOut`).
- `worker/converter.go:263-264` says that the override is deterministic. Two names that differ only in the case of
  "Array" make it depend on the order of the map (`BatchMetadata.ClashExists`, `BatchMetadata.DeterministicExactly`).

Assumptions of the protocols: one HTTP and one gRPC arrival per invocation id; one environment reload request, one event
stream and one init response of the child.

## Model

| member | source | states |
|---|---|---|
| HostConfigurationReader.DeliveredExactly | worker/host_configuration.go:131-142 | A file is delivered as `output` if and only if, behind the mark that selects its encoding, it is the encoding of a text that fits and spells a deliverable document whose compact strict form is `output` |
| HostConfigurationReader.ToldExactly | worker/host_configuration.go:53-95 | A host is told that the content `output` is available if and only if the file is delivered so; too large exactly if the text is oversized; never that an open file is missing |
| HostConfigurationReader.EncodingIrrelevant | worker/host_configuration.go:154-195 | Any text not starting with U+0000 is delivered alike in all five encodings behind their marks |
| HostConfigurationReader.ReadHostConfiguration | worker/host_configuration.go:131-142 | An open file is decoded, then normalised; a failed close is a read error |
| HostConfigurationReader.Provider.Provide | worker/host_configuration.go:79-94 | One request changes what is remembered and answers as the specification of a request says |
| HostConfigurationReader.AnswersAgree | worker/host_configuration.go:53-95 | Over the life of the process every asking host gets the answer to the outcome of the first request that asked: its status, and the content only if there is one; only that request can log a failure |
| DecoderCorrectness.DecodeExact | worker/host_configuration.go:147-195 | Decoding a file succeeds with `output` if and only if the bytes behind the selected mark encode scalars whose UTF-8 form is `output` and fits |
| DecoderCorrectness.SelectedExactly | worker/host_configuration.go:154-168 | The mark that counts is the longest of the five that the file starts with; without one the file is UTF-8 |
| DecoderCorrectness.DecodeMarked | worker/host_configuration.go:154-195 | Every text behind the mark of its encoding decodes to its UTF-8 form, or is Oversized when that does not fit |
| DecoderCorrectness.DecodeMarkedExact | worker/host_configuration.go:156-167 | A marked text that fits comes out as itself if and only if it is not UTF-16LE starting with U+0000 |
| DecoderCorrectness.DecodeUnmarked | worker/host_configuration.go:155-195 | UTF-8 without a mark decodes to itself or is Oversized |
| DecoderCorrectness.DecodeUnmarkedExact | worker/host_configuration.go:161-162 | Unmarked UTF-8 that fits comes out unchanged if and only if it does not start with U+FEFF |
| DecoderCorrectness.DecodeExplained | worker/host_configuration.go:173-194 | Every outcome on every source, broken and endless ones included: success only at the end, Oversized only if one more scalar does not fit, InvalidEncoding only where bytes stand but no encoded scalar, a read error only where the source breaks |
| DecoderCorrectness.SourceExplained | worker/host_configuration.go:147-195 | The same for the whole decoding, mark included, of every source that does not fail within its first four bytes |
| DecoderCorrectness.BrokenEarly | worker/host_configuration.go:149-153 | A source that fails within its first four bytes is a read error |
| DecoderCorrectness.DecodeText | worker/host_configuration.go:190-193 | Text that is read is appended in UTF-8; text that does not fit is Oversized whatever follows |
| DecoderCorrectness.ReadScalarHolds | worker/host_configuration.go:197-232 | Where an encoded scalar stands, exactly that scalar is read |
| DecoderCorrectness.ReadScalarGot | worker/host_configuration.go:197-232 | A scalar is read only where its encoding stands |
| DecoderCorrectness.ReadScalarInvalid | worker/host_configuration.go:200-216 | Text is called invalid only where a byte stands but the encoding of no scalar |
| DecoderCorrectness.CutShortExactly | worker/host_configuration.go:197-231 | A read error inside a scalar is reported as such in UTF-16 and UTF-32 only, the end of the file there is invalid text |
| DecoderCorrectness.ReadScalarFailure | worker/host_configuration.go:199-226 | A read error is reported only if the source breaks within the next four bytes |
| HostConfigurationDecoder.DecodeHostConfiguration | worker/host_configuration.go:147-195 | The loop computes the specified outcome on every source and consumes at most 4 + 4 * 65,537 bytes; the output never exceeds the limit |
| HostConfigurationDecoder.Reader.ReadFull | worker/host_configuration.go:199-199 | Reads what is available up to the wanted length and stands behind it |
| HostConfigurationDecoder.Reader.ReadRune | worker/host_configuration.go:177-180 | Reads one UTF-8 scalar, looking at no more than four bytes |
| HostConfigurationDecoder.Reader.ReadWide | worker/host_configuration.go:197-232 | Reads one UTF-16 or UTF-32 scalar, surrogate pairs included |
| HostConfigurationDecoder.ReadAheadSame | worker/host_configuration.go:213-231 | Reading a surrogate pair unit by unit is reading it from the next four bytes at once |
| UnicodeForms.HeadRoundTrip | worker/host_configuration.go:205-231 | In every form an encoded scalar is read back whatever follows it |
| UnicodeForms.HeadSound | worker/host_configuration.go:205-231 | In every form only encoded scalars are read: no overlong form, no lone surrogate, nothing above U+10FFFF |
| UnicodeForms.EncodeInjective | worker/host_configuration.go:193-193 | Different texts have different encodings |
| HostConfigurationNormalizer.NormalizeHostConfiguration | worker/host_configuration_json.go:10-96 | The three passes deliver exactly the spellings of a deliverable document, as its compact strict form, and report Oversized exactly for oversized input |
| HostConfigurationNormalizer.StripComments | worker/host_configuration_json.go:18-49 | The first pass computes the specified stripping |
| HostConfigurationNormalizer.NextPiece | worker/host_configuration_json.go:20-48 | One turn of the first pass: a string as it is, a comment as one blank, any other byte as it is |
| HostConfigurationNormalizer.StringEnd | worker/host_configuration_json.go:98-108 | The end of a string literal, escapes skipped, or none |
| HostConfigurationNormalizer.LineCommentEnd | worker/host_configuration_json.go:28-36 | The end of a line comment, refused at U+2028 and U+2029 |
| HostConfigurationNormalizer.BlankTrailingCommas | worker/host_configuration_json.go:51-83 | The second pass, in place: the array ends up as the specified blanking, and it fails exactly for an unterminated string or too deep nesting |
| HostConfigurationNormalizer.BlankTurn | worker/host_configuration_json.go:53-82 | One turn of the second pass: a string skipped, or one byte counted, blanked or left |
| HostConfigurationNormalizer.ClosesAfter | worker/host_configuration_json.go:69-75 | Whether the next byte that is not whitespace closes a container |
| NormalizerCorrectness.NormalizeExact | worker/host_configuration_json.go:10-96 | Normalisation returns `output` if and only if the content fits and spells an object of depth at most 64 whose compact strict form is `output`: same tokens, strings and numbers byte for byte, key order and duplicates kept |
| NormalizerCorrectness.NormalizeOversized | worker/host_configuration_json.go:85-91 | Oversized is returned if and only if the input is oversized, so the second size check never fires |
| NormalizerCorrectness.NormalizeIdentity | worker/host_configuration_json.go:18-95 | A compact strict object within the limits is returned unchanged |
| NormalizerCorrectness.NormalizeIdempotent | worker/host_configuration_json.go:18-95 | A second run changes nothing, and the output is never longer than the input |
| NormalizerCorrectness.StrayCommaRejected | worker/host_configuration_json.go:73-76 | A comma after an opening bracket, a colon or a comma is never repaired |
| JsonGrammar.TokenExactly | worker/host_configuration_json.go:85-88 | The recognisers accept exactly the marks, strings, numbers and literal names of the grammar of RFC 8259, which the trees and texts of the theorems are made of |
| JsonGrammar.NumberExactly | worker/host_configuration_json.go:85-88 | A number is an optional minus, an integer without leading zeros, an optional fraction and an optional exponent, and nothing else |
| JsonGrammar.StringExactly | worker/host_configuration_json.go:85-88 | A string is quoted characters: bytes from 0x20 on but quote and backslash, the eight short escapes, and escapes of four hexadecimal digits |
| JsonGrammar.SeparatorExactly | worker/host_configuration_json.go:32-34 | The three bytes that a line comment refuses are U+2028 and U+2029 in UTF-8 |
| JsonNormalizer.StripLex | worker/host_configuration_json.go:18-49 | Stripping succeeds exactly when the text has tokens and comments only, and the tokens stay the same |
| JsonNormalizer.StripIdempotent | worker/host_configuration_json.go:18-49 | Stripping leaves no comment and creates none |
| JsonNormalizer.StripString | worker/host_configuration_json.go:20-26 | A string literal is copied unchanged |
| JsonNormalizer.BlankLex | worker/host_configuration_json.go:51-83 | The second pass drops exactly the trailing commas from the token sequence, keeps the length, and fails exactly when nesting exceeds 64 |
| JsonText.LexText | worker/host_configuration_json.go:18-49 | The tokens of a text spelled with whitespace and comments are its words |
| JsonText.TextOf | worker/host_configuration_json.go:18-49 | Every text with tokens is such a spelling of them |
| JsonTree.ParseSound | worker/host_configuration_json.go:85-88 | What the recogniser accepts is the token sequence of a valid strict tree |
| JsonTree.ParseComplete | worker/host_configuration_json.go:85-88 | Every valid strict tree is recognised from its tokens, whatever follows |
| JsonTree.DepthOfTokens | worker/host_configuration_json.go:51-67 | Counting brackets accepts a document exactly when its tree is nested at most 64 deep |
| JsonTree.DropTrailingTokens | worker/host_configuration_json.go:68-78 | Dropping trailing commas from the tokens of a document leaves the tokens of its strict form |
| JsonTree.RestoreTrailing | worker/host_configuration_json.go:68-78 | If the rest is a strict document, then the original was a document that differs only in trailing commas |
| BindingType.Base | internal/bindingtype/type.go:42-52 | Returns the end of the pointer chain, or an error exactly for an endless one; ends by the measure of unseen types |
| BindingType.RejectPointerCycles | internal/bindingtype/type.go:129-156 | Accepts a type if and only if no type reachable through any of its parts starts an endless pointer chain |
| BindingType.ValidateShape | internal/bindingtype/type.go:87-125 | Accepts a type if and only if nothing unusable is reachable, stopping at custom codecs |
| BindingType.ValidatePayload | internal/bindingtype/type.go:57-64 | Both searches, with the rules for payloads |
| BindingType.ValidateResult | internal/bindingtype/type.go:70-82 | The shape search, where a pointer method helps every type but the result itself |
| BindingType.PointerLaw | internal/bindingtype/type.go:42-52 | An endless pointer chain is never accepted, a pointer exactly if its element is |
| BindingType.CyclesLaw | internal/bindingtype/type.go:135-153 | Without endless chains: a slice, array, map or struct exactly if its element, its key and value, or all of its fields are |
| BindingType.ShapeLaw | internal/bindingtype/type.go:91-121 | For every kind, what is accepted: all with a codec and all structs; slices and arrays by element; maps by value and key kind; no channel, function, complex number or unsafe pointer; interfaces with methods only in results |
| BindingType.Search.VisitCycles | internal/bindingtype/type.go:130-154 | Marks types so that what is marked leads only to marked types, or finds a reachable endless chain |
| BindingType.Search.VisitShape | internal/bindingtype/type.go:88-121 | The same for the shape rules: the shared set never hides a bad type |
| BindingType.ExpandedAcceptable | internal/bindingtype/type.go:130-156 | A fully expanded set of visited types hides nothing bad |
| TypeGraph.BaseOfPointer | internal/bindingtype/type.go:44-50 | A pointer has the base of its element |
| TypeGraph.ClosedPointers | internal/bindingtype/type.go:45-47 | A pointer that comes back to a visited pointer never ends |
| GenericDecoding.DecodeGenericInput | worker/generic.go:18-77 | Ends on every type and payload and computes the specified value; a pointer type recurses on its chain, a collection on its elements |
| GenericDecoding.PointersTransparent | worker/generic.go:31-46 | A pointer chain is nil as a whole, or exactly as deep as its type with the decoded base at its end |
| GenericDecoding.SuccessExactly | worker/generic.go:28-77 | A single payload is decoded if and only if it has data, the pointer chain ends, and its base takes the payload: raw types any content, others what the JSON library parses, null only behind a pointer or for a map, slice or interface |
| GenericDecoding.ValueExactly | worker/generic.go:18-173 | A single payload decodes to `v` if and only if `v` is nil for a null behind pointers to what is neither text nor bytes, or as many pointers as the type has to the content as text, as bytes, or as what the library parses from it |
| GenericDecoding.CustomSliceExactly | worker/generic.go:50-211 | A slice type with a decoder of its own is given one array with the items in order, text quoted, bytes in base64, all else inserted |
| GenericDecoding.CollectionInOrder | worker/generic.go:58-65 | A collection of n payloads gives n elements, each from the payload of its index, or fails exactly if one of them fails |
| GenericDecoding.CollectionNeedsSlice | worker/generic.go:47-50 | A collection never becomes a single value |
| GenericDecoding.DecodeGenericRaw | worker/generic.go:94-134 | Text and bytes are delivered byte for byte, also when a slice is filled one by one |
| GenericDecoding.GenericCollectionJson | worker/generic.go:175-211 | The array for a slice with its own decoder: raw elements quoted, others as they are, none if one has no content |
| GenericDecoding.DecodeElements | worker/generic.go:58-65 | The loop over a collection computes the specified elements |
| GenericDecoding.ChainOfPointer | worker/generic.go:39-39 | Following a pointer shortens its chain by one: the measure of the recursion |
| GenericEncoding.EncodeReturnValue | worker/converter.go:501-549 | Ends on every heap, cyclic ones included; sends text and bytes without an encoding of their own as they are, nothing for nil, and everything else, circles included, as its JSON; text and JSON only in UTF-8 |
| GenericEncoding.EncodedExactly | worker/converter.go:508-548 | The same as an equivalence: what is sent is decided by where the links end |
| GenericEncoding.TrailStep | worker/converter.go:510-522 | One link: behind a pointer what is stored there, addressable; behind an interface its content, not addressable |
| GenericEncoding.RoundTrip | worker/converter.go:523-538 | A chain of non-nil pointers to plain text in valid UTF-8 or to bytes, encoded and decoded into the same type, comes back equal |
| GenericEncoding.NoValueExactly | worker/converter.go:511-525 | No value is sent if and only if a nil pointer or interface is met on the way |
| GenericEncoding.ClosedLeads | worker/converter.go:515-519 | Coming back to a seen address means that the links never end |
| GenericEncoding.ValidIsEncoded | worker/converter.go:532-532 | Text that passes the check is the UTF-8 encoding of scalars |
| GenericEncoding.EncodedIsValid | worker/converter.go:532-532 | Every encoding of scalars passes the check |
| BatchConversion.ConvertBatch | worker/converter.go:108-121 | n payloads give n structs, struct i converted from payload i with the metadata of index i; it fails exactly when one of them does |
| BatchConversion.ConvertStruct | worker/converter.go:134-206 | A struct is the whole JSON if that applies, else field by field, else the fallback |
| BatchConversion.WholeFirst | worker/converter.go:134-148 | Without a data field, JSON or text that decodes as the whole struct decides alone |
| BatchConversion.FallbackLast | worker/converter.go:155-217 | Without a source for any field the default decoding decides |
| BatchConversion.DataFromOwnPayload | worker/converter.go:161-163 | The data field of an element comes from its own payload |
| BatchConversion.MetadataFromOwnIndex | worker/converter.go:164-187 | In a struct converted field by field, a field not taken from the payload is left alone exactly when no name equals its tag but for case; else it comes from such a name, the tag itself if that is one: from entry i of an array of that name, and from the scalar of that name only if there is no such entry; never from another index |
| BatchConversion.ArrayBeforeScalar | worker/converter.go:255-297 | For the name X that a tag finds, in whatever case, if only one name does or the tag itself: the field of element i comes from entry i of an array named X if there is one, item i of a list or element i of a JSON array, else from the scalar X, no two arrays named X clashing |
| BatchConversion.LookUp | worker/converter.go:170-187 | The tag itself, else the first key in the order of the map that equals it but for case |
| BatchConversion.FoundExactly | worker/converter.go:170-187 | What is found for a tag does not depend on the order of the map if and only if the tag itself is a name or all names that equal it but for case hold the same value |
| BatchConversion.VisitsIrrelevant | worker/converter.go:155-206 | If that holds for every tag, the struct, or the failure, is the same for every order in which the map is visited |
| BatchMetadata.CollectionMetadataAt | worker/converter.go:255-297 | In every order of the map, message i has under X entry i of an array named X, item i of a list or element i of a JSON array, else the scalar X, and nothing else |
| BatchMetadata.MetadataExactly | worker/converter.go:255-297 | The same of the overlay: a value stands under a key exactly if one should, and it is one that should |
| BatchMetadata.OverlayHolds | worker/converter.go:263-274 | Under an overridden key stands what one of the overriding arrays gives for this index, elsewhere the scalar |
| BatchMetadata.DeterministicExactly | worker/converter.go:263-274 | The metadata do not depend on the order of the map if and only if no two array names with one stem give different entries |
| BatchMetadata.ClashExists | worker/converter.go:263-274 | "FooArray" and "FooARRAY" make the result depend on the order |
| HostData.ElementsDetermine | worker/converter.go:220-253 | The elements of a collection keep kind, number, order and content: they determine a non-empty collection |
| HttpRendezvous.StepKeeps | worker/http_proxy.go:216-350 | Every action of either side keeps the invariant |
| HttpRendezvous.RunKeeps | worker/http_proxy.go:216-431 | Every run keeps it |
| HttpRendezvous.History | worker/http_proxy.go:238-431 | What is recorded of a side or a run happened to it: it entered, disconnected or timed out by its own step, and every run ended as its handler did |
| HttpRendezvous.HandlerRunsOnce | worker/http_proxy.go:238-350 | No two handler runs share an id; each runs on what the gRPC side of that id brought and is recorded as the handler finished |
| HttpRendezvous.ReplyTellsTheRun | worker/http_proxy.go:346-419 | A reply with a context has the status and context that the handler finished with in the one run on the arrival the caller brought; one without is a failure, the client disconnected, and no handler ran |
| HttpRendezvous.SendsNeverBlock | worker/http_proxy.go:54-59 | Whoever is about to send finds room, and each channel is sent to at most once |
| HttpRendezvous.SidesAlwaysReturn | worker/http_proxy.go:247-292 | A live side can always take its next step |
| HttpRendezvous.SidesReturnAlone | worker/http_proxy.go:247-431 | From every reachable state each side returns by at most three steps of its own |
| HttpRendezvous.DeletesOwnSlotOnly | worker/http_proxy.go:230-234 | A delete removes the deleter's own slot or nothing |
| HttpRendezvous.NothingLeftBehind | worker/http_proxy.go:274-349 | Once both sides of an id have returned, the map has no entry for it |
| HttpRendezvous.LateArrivalAnswered | worker/http_proxy.go:261-283 | A gRPC side that arrives after the push finds the failure if and only if the entry is still in the map |
| HttpRendezvous.EarlyArrivalAnswered | worker/http_proxy.go:257-282 | One that arrives between the disconnect and the push shares the slot and is answered |
| HttpRendezvous.LateArrivalTimesOut | worker/http_proxy.go:283-284 | If the entry is gone, the late arrival can only time out, however the run goes on |
| HttpRendezvous.LateArrivalExists | worker/http_proxy.go:257-284 | Such a run exists for every id |
| OutboundSender.Conservation | worker/grpc.go:87-132 | In every run the accepted messages are, in order, those sent, then at most one in hand or failed, then those queued |
| OutboundSender.StepConserves | worker/grpc.go:87-132 | No step drops, doubles or reorders a message |
| OutboundSender.QueueBounded | worker/grpc.go:75-115 | The queue never exceeds 256, and the closed flag is up once `stop` has returned or the sender has exited |
| OutboundSender.CallsAfterCloseRefused | worker/grpc.go:117-120 | A call begun after the flag is up is never accepted |
| OutboundSender.CallReturns | worker/grpc.go:115-132 | A call succeeds if and only if its own message was enqueued, and is refused only once closing has begun |
| OutboundSender.LeavesExactly | worker/grpc.go:87-108 | The sender leaves its loop on a stop, a failed send or a nil entry and on nothing else, and what it has not taken is still queued |
| OutboundSender.StreamFrozen | worker/grpc.go:90-107 | Once the sender has left its loop nothing more is sent and nothing leaves the queue |
| OutboundSender.WaitingCallsReturn | worker/grpc.go:121-133 | A waiting call can return at once or after two more steps of the sender |
| OutboundSender.DrainsExactly | worker/worker.go:182-185 | In every reachable state: all that is accepted will have been sent when the sender exits, further sends succeeding, if and only if nothing is queued or lost and no message can still be accepted |
| OutboundSender.DrainsAfterStop | worker/worker.go:182-185 | The case after `stop` has returned: nothing is queued, nothing was lost by a failed send, and a call waits with a message only if the sender has left its loop with the queue full |
| OutboundSender.StopMayStrand | worker/worker.go:182-185 | A single message accepted before `stop` may never be sent |
| SpecializationProxy.StepKeeps | proxy/main.go:172-488 | Every action of every goroutine keeps the invariant |
| SpecializationProxy.EachMessageRoutedOnce | proxy/main.go:201-311 | Every message of the host goes in order exactly once to the placeholder or into a send to the child, which may fail and is not repeated; the host gets just the answers due for the former |
| SpecializationProxy.SignalsExclusive | proxy/main.go:341-464 | At most one of the two outcomes is signalled, and no channel is closed twice |
| SpecializationProxy.HostLoopGoesOn | proxy/main.go:208-232 | The host loop never sends on a missing stream, and goes on once specialization is over |
| SpecializationProxy.HeldBackWhileSpecializing | proxy/main.go:203-232 | While specialization is under way a message of the host is forwarded or parked, never handled as a placeholder |
| SpecializationProxy.OneReloadAnswer | proxy/main.go:332-488 | At most one reload answer, under the id of the handled request, with capabilities only if the child announced just those, and without a child nothing was sent to one |
| SpecializationProxy.BinaryDecidesAnswer | proxy/main.go:329-369 | Missing binary: success without capabilities; not executable: failure; otherwise the child's capabilities |
| SpecializationProxy.ParkedAfterInit | proxy/main.go:219-226 | A parked message reaches the child after its init response, which follows the replayed init request |
| SpecializationHandover.ReplaysLastInit | proxy/main.go:239-438 | What is replayed to the child is the last init request that the placeholder answered, or nothing if there was none |
| SpecializationHandover.AnsweredExactly | proxy/main.go:236-302 | The host is given an init, heartbeat, metadata or status answer exactly if that request went to the placeholder |
| SpecializationHandover.ChildHandedOn | proxy/main.go:441-470 | The host gets every reply of the child in order, and what counts as announced is what the child announced |
| SpecializationHandover.CanAlwaysFinish | proxy/main.go:313-488 | Once under way, specialization can be finished within ten steps that need nothing of the host, and the reload request is answered by then |
| SpecializationHandover.FailureEnds | proxy/main.go:441-447 | Nothing of the child is handed on once receiving from it has failed, and nothing happens after an exit |
| SpecializationHandover.TerminateEnds | proxy/main.go:304-306 | A terminate request handled as placeholder ends the process |
| SpecializationProxy.OvertakesExactly | proxy/main.go:203-213 | A message can reach the child before its init response if and only if the stream was there at the snapshot |
| SpecializationProxy.OvertakingExists | proxy/main.go:208-213 | A run in which a message reaches the child first of all |
| ProtoWire.FieldRoundTrip | middleware/durabletask/runner.go:191-230 | Consuming an encoded record gives back its tag and content and stands behind it |
| ProtoWire.ValueRoundTrip | middleware/durabletask/runner.go:224-229 | The same for every wire type, nested groups included |
| ProtoWire.VarintRoundTrip | middleware/durabletask/runner.go:192-196 | Every number of 64 bits survives its base 128 encoding |
| ProtoWire.FieldStable | middleware/durabletask/runner.go:191-230 | A complete record is read alike whatever follows it |
| ProtoWire.FieldCut | middleware/durabletask/runner.go:191-230 | A record that needs bytes that are cut off is truncated |
| WireGrammar.FieldSound | middleware/durabletask/runner.go:191-230 | What is consumed as a record is a tag and a value of the wire format |
| WireGrammar.FieldErrors | middleware/durabletask/runner.go:192-229 | An end of group where none is open and the unused wire types are errors of their own |
| WireGrammar.FieldComplete | middleware/durabletask/runner.go:191-230 | Every tag and value of the wire format is consumed, whatever follows |
| OrchestratorRequest.DecodeOrchestratorRequest | middleware/durabletask/runner.go:190-232 | The loop consumes input on every turn and returns the specified id, events or error |
| OrchestratorRequest.DecodeExact | middleware/durabletask/runner.go:190-232 | Decoding succeeds if and only if the bytes are a list of records of the wire format, varints of any length included, and returns the last id and both kinds of events in order |
| OrchestratorRequest.RoundTrip | middleware/durabletask/runner.go:190-232 | Any list of records, unknown fields in between, gives the last id and both kinds of events in order |
| OrchestratorRequest.Concatenation | middleware/durabletask/runner.go:190-232 | Two well-formed messages in a row decode to the merge of their decodings |
| OrchestratorRequest.CutMessage | middleware/durabletask/runner.go:192-229 | A prefix of a well-formed message decodes if and only if it ends between records, and is truncated otherwise |
| SubOrchestrations.AssignSubOrchestrationIds | middleware/durabletask/runner.go:92-102 | Every unnamed child is named in place, all else is left alone |
| SubOrchestrations.NamesDistinct | middleware/durabletask/runner.go:99-99 | Children of one parent with different action ids get different names, and a second pass changes nothing |
| SubOrchestrations.Hex4Parses | middleware/durabletask/runner.go:99-99 | Sign and digits of a printed id give back the id |
| LogReplay.Effective | sdk/log.go:148-173 | The SDK's attributes are bound first, then the recorded calls are replayed in order |
| LogReplay.ReplayIsDirect | sdk/log.go:148-204 | Replay on the base of the moment does what the calls would have done on it directly |
| LogReplay.ComposedIsNested | worker/log/composer.go:50-77 | The composer's snapshots and qualified keys are the nesting of slog |
| LogReplay.RecordCarries | sdk/log.go:136-173 | A record carries invocation id, function name and trigger type, as far as given, under their own names, then each user attribute under exactly the groups opened before it, inline ones under all groups |
| LogReplay.Qualify | worker/log/composer.go:100-116 | The key behind all groups, each followed by a dot |
| LogForks.BindAttrs | worker/log/composer.go:50-66 | In memory: a new composer that shows the old one with the attributes bound, and no existing array is written |
| LogForks.OpenGroup | worker/log/composer.go:69-77 | The same for a group, with room left behind the appended name as the runtime likes |
| LogForks.RecordCall | sdk/log.go:183-204 | The same for the recorded calls of the SDK's handler |
| LogForks.ForkComposers | worker/log/composer.go:35-36 | After any tree of forks every composer shows exactly the calls on its own way from the root: siblings never affect each other, though they share arrays |
| LogForks.ForkHandlers | sdk/log.go:183-204 | The same for the handlers of the SDK |
| LogForks.TreeAt | worker/log/composer.go:50-77 | A handler of a tree has the value of its own calls |
| LogForks.SiblingsShared | worker/log/composer.go:69-86 | Without the clone the second of two groups overwrites the first exactly when the parent's groups have room |
| GoSlices.AppendTwice | worker/log/composer.go:75-75 | Of two appends to one slice the first survives exactly when there was no room to share or both wrote the same |
| GoSlices.Clone | worker/log/composer.go:79-95 | The same elements in an array of its own without room |
| RpcLogs.BuildRpcLog | worker/log/handlers.go:213-290 | The walk over bound and inline attributes fills the specified fields |
| RpcLogs.LogExactly | worker/log/handlers.go:229-268 | The known id, else the first that is not empty; the last category, else the known one, else one made of the first function name; the last event id; and under exactly the other keys their last value |
| RpcLogs.MessageExactly | worker/log/handlers.go:282-312 | The message, then the other attributes in order as key=value, separated by blanks |
| RpcLogs.WalkGathers | worker/log/handlers.go:241-268 | One attribute of the walk changes the fields as specified |
| RpcLogs.RenderAttrsAsLogfmt | worker/log/handlers.go:298-312 | The attributes as key=value, separated by blanks, empty only without attributes |
| RpcLogs.GroupsShieldHeader | worker/log/handlers.go:241-278 | Nothing logged inside a group touches invocation id, category or event id |
| RpcLogs.InvocationIdReachesHost | worker/log/handlers.go:229-246 | The SDK's invocation id reaches the top level whatever the user logs |
| RpcLogs.CategoryNamesFunction | worker/log/handlers.go:231-258 | The category names the function unless the user sets one outside every group |
| RpcLogs.PropertiesHoldLast | worker/log/handlers.go:261-263 | A property holds the last value logged under its key, and only logged keys are properties |
| CategoryFilter.MatchCategoryThreshold | worker/log/writer.go:144-179 | In every order of the map the threshold is that of the recursive rule, which is: the own entry, else that of the longest dotted part, catch-all keys excluded, else Worker, else the empty key, else Information |
| CategoryFilter.LongestIsRule | worker/log/writer.go:155-167 | The longest matching key is the one the rule finds |
| CategoryFilter.NoMatchIsCatchAll | worker/log/writer.go:172-178 | Without a match the rule ends at the catch-all keys |
| CategoryFilter.Writer.Allowed | worker/log/writer.go:100-111 | Without a filter everything passes, with one exactly what is at or above its threshold |
| CategoryFilter.PartInheritsThreshold | worker/log/writer.go:148-179 | A dotted category without an entry of its own has the threshold of the category it is part of |
| CategoryFilter.LaterChangesIgnored | worker/log/writer.go:56-68 | What the host does to its map after installing it changes no decision of the writer |

## Left out

- The protocols are state machines on values, not classes with channels and mutexes: memory effects within one atomic action are not captured.
- The attributes handed to a log handler are values: slog passes the slice on to the handler for good.
- HostConfigurationDecoder.Reader.ReadFull: does not model a reader that returns no bytes without an error, nor how far the buffered reader reads ahead.
- SpecializationProxy.EachMessageRoutedOnce: does not model failed sends to the host, which are logged or ignored; its list of answers is what was handed to the stream.
- HostConfigurationReader.ReadHostConfiguration: does not model opening the file and the checks on its directory; their outcome is a parameter of the provider.
- GenericDecoding.DecodeGenericInput: does not model panics of custom decoders, which count as failed decodings, nor the aliasing of the decoded bytes with the payload.
- GenericEncoding.EncodeReturnValue: does not model what `json.Marshal` makes of the value; its outcome is a parameter.
- BatchConversion.ConvertStruct: does not model decoding into a single field, which is a parameter.
- RpcLogs.BuildRpcLog: does not model how a value is shown, stored and quoted, nor levels and the fan-out to observers.
- Names of metadata arrays are compared with ASCII case folding; the suffix "array" has no other case variants.
- Go's distinction between nil and empty slices.
- Error texts; only which error is reported is modelled where the code distinguishes errors.
- gRPC dialing, sockets, the HTTP server, process spawning, environment variables, signals and wall-clock time: only the steps they enable are modelled.
- Second reload requests, repeated child init responses, exit codes and the capture of the child's stderr.
- HTTP bindings, metadata discovery, middleware composition, lifecycle hooks, telemetry and durable client URLs: configuration and wiring that would add easy members only.
