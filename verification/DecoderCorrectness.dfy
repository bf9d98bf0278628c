/** Decoding host.json is exact in both directions, for every source. */
module DecoderCorrectness {
  import opened Bytes
  import opened HostConfiguration
  import opened UnicodeForms
  import opened HostConfigurationDecoder

  // ----- One scalar -----

  /** A scalar at the start of the next four bytes is not cut off. */
  lemma ReadAheadScalar(src: Source, f: Form, pos: nat)
    requires Available(src, pos, 4) != [] && DecodeHead(f, Available(src, pos, 4)).Scalar?
    ensures ReadAhead(src, f, pos) == FromHead(DecodeHead(f, Available(src, pos, 4)), pos)
  {
  }

  /** The next four bytes start with what stands at `pos`. */
  lemma AheadStartsWith(src: Source, pos: nat, e: seq<Byte>) returns (more: seq<Byte>)
    requires |e| <= 4 && Holds(src, pos, e)
    ensures Available(src, pos, 4) == e + more
  {
    AvailableSplit(src, pos, |e|, 4 - |e|);
    more := Available(src, pos + |e|, 4 - |e|);
  }

  /** Where an encoded scalar stands, exactly that scalar is read. */
  lemma ReadScalarHolds(src: Source, f: Form, pos: nat, v: Scalar)
    requires Holds(src, pos, EncodeScalar(f, v))
    ensures ReadScalar(src, f, pos) == Got(v, pos + |EncodeScalar(f, v)|)
  {
    var e := EncodeScalar(f, v);
    var more := AheadStartsWith(src, pos, e);
    HeadRoundTrip(f, v, more);
    ReadAheadScalar(src, f, pos);
    ReadAheadSame(src, f, pos);
  }

  /** Whatever is read stands there encoded. */
  lemma ReadScalarGot(src: Source, f: Form, pos: nat)
    requires ReadScalar(src, f, pos).Got?
    ensures var r := ReadScalar(src, f, pos);
      Holds(src, pos, EncodeScalar(f, r.v)) && r.next == pos + |EncodeScalar(f, r.v)|
  {
    ReadAheadSame(src, f, pos);
    var s := Available(src, pos, 4);
    HeadSound(f, s);
    AvailableSplit(src, pos, DecodeHead(f, s).len, 4 - DecodeHead(f, s).len);
  }

  /** Text is invalid only where a byte stands but no encoded scalar does. */
  lemma ReadScalarInvalid(src: Source, f: Form, pos: nat)
    requires ReadScalar(src, f, pos).Invalid?
    ensures src(pos).Data? && forall v: Scalar :: !Holds(src, pos, EncodeScalar(f, v))
  {
    ReadAheadSame(src, f, pos);
    forall v: Scalar | Holds(src, pos, EncodeScalar(f, v)) ensures false {
      ReadScalarHolds(src, f, pos, v);
    }
  }

  /** The bytes `s` are fewer than a scalar that starts with them takes in UTF-16 or UTF-32. */
  predicate IsCutShort(f: Form, s: seq<Byte>) {
    match f
    case Utf8 => false
    case Utf32(_) => |s| < 4
    case Utf16(big) =>
      |s| < 2 || (|s| < 4 && var first: int := if big then s[0] else s[1]; 0xD8 <= first <= 0xDB)
  }

  lemma HighSurrogate(big: bool, a: Byte, b: Byte)
    ensures var first: int := if big then a else b;
      0xD8 <= first <= 0xDB <==> 0xD800 <= Value16(big, a, b) <= 0xDBFF
  {
  }

  /**
   What a read finds where bytes stand: a read error that cuts a scalar short is reported as such in
   UTF-16 and UTF-32 only, the end of the file there is invalid text, and in UTF-8 both are.
   */
  lemma CutShortExactly(src: Source, f: Form, pos: nat)
    requires src(pos).Data?
    ensures var s := Available(src, pos, 4);
      (ReadScalar(src, f, pos).Failure? <==> IsCutShort(f, s) && src(pos + |s|) == Broken) &&
      (IsCutShort(f, s) && src(pos + |s|) == Eof ==> ReadScalar(src, f, pos).Invalid?)
  {
    ReadAheadSame(src, f, pos);
    var s := Available(src, pos, 4);
    if |s| < 4 { AvailableStops(src, pos, 4); }
    if f.Utf16? && |s| >= 2 { HighSurrogate(f.big, s[0], s[1]); }
  }

  lemma HoldsSplit(src: Source, pos: nat, a: seq<Byte>, b: seq<Byte>)
    ensures Holds(src, pos, a + b) <==> Holds(src, pos, a) && Holds(src, pos + |a|, b)
  {
    AvailableSplit(src, pos, |a|, |b|);
    var s, more := Available(src, pos, |a|), Available(src, pos + |a|, |b|);
    if Holds(src, pos, a + b) {
      assert s == (a + b)[..|a|] && more == (a + b)[|a|..];
    }
  }

  // ----- Whole sources -----

  /** Reading from `pos` gives the scalars `vs` and then stands at `end`. */
  predicate Reads(read: nat -> Read, pos: nat, vs: seq<Scalar>, end: nat)
    decreases |vs|
  {
    if vs == [] then pos == end
    else read(pos).Got? && read(pos).v == vs[0] && Reads(read, read(pos).next, vs[1..], end)
  }

  /** Text that is read is appended in UTF-8 and reading goes on behind it; text that does not
      fit is oversized, whatever follows it. */
  lemma {:induction false} DecodeText(read: nat -> Read, pos: nat, vs: seq<Scalar>, end: nat, content: seq<Byte>)
    requires |content| <= MAX_BYTES && Reads(read, pos, vs, end)
    ensures DecodeFrom(read, pos, content) ==
            if |content + Encode(Utf8, vs)| <= MAX_BYTES then DecodeFrom(read, end, content + Encode(Utf8, vs))
            else Failed(Oversized)
    decreases |vs|
  {
    if vs == [] {
      assert content + [] == content;
    } else {
      var text := content + Utf8Of(vs[0]);
      assert text + Encode(Utf8, vs[1..]) == content + Encode(Utf8, vs);
      if |text| <= MAX_BYTES {
        DecodeText(read, read(pos).next, vs[1..], end, text);
      }
    }
  }

  /** Every decoding reads some text that fits and stops where no further scalar fits. */
  lemma {:induction false} DecodeStops(read: nat -> Read, pos: nat, content: seq<Byte>)
    returns (vs: seq<Scalar>, end: nat)
    requires |content| <= MAX_BYTES
    ensures Reads(read, pos, vs, end) && |content + Encode(Utf8, vs)| <= MAX_BYTES
    ensures read(end).Got? ==> |content + Encode(Utf8, vs)| + |Utf8Of(read(end).v)| > MAX_BYTES
    decreases MAX_BYTES - |content|
  {
    vs, end := [], pos;
    assert content + [] == content;
    if read(pos).Got? && |content| + |Utf8Of(read(pos).v)| <= MAX_BYTES {
      var text := content + Utf8Of(read(pos).v);
      var more;
      more, end := DecodeStops(read, read(pos).next, text);
      vs := [read(pos).v] + more;
      assert vs[1..] == more && text + Encode(Utf8, more) == content + Encode(Utf8, vs);
    }
  }

  /** One scalar more in front: `e` is its encoding, `more` the one of the text behind it. */
  lemma ReadsStep(
    read: nat -> Read, src: Source, pos: nat, v: Scalar, e: seq<Byte>, vs: seq<Scalar>, more: seq<Byte>, end: nat)
    requires Holds(src, pos, e) <==> read(pos) == Got(v, pos + |e|)
    requires read(pos).Got? && read(pos).v == v ==> read(pos).next == pos + |e|
    requires Reads(read, pos + |e|, vs, end) <==> Holds(src, pos + |e|, more) && end == pos + |e| + |more|
    ensures Reads(read, pos, [v] + vs, end) <==> Holds(src, pos, e + more) && end == pos + |e + more|
  {
    assert ([v] + vs)[1..] == vs;
    HoldsSplit(src, pos, e, more);
  }

  /** The source fails before a whole scalar can be read at `pos`. */
  predicate BrokenWithin(src: Source, pos: nat) {
    src(pos) == Broken || src(pos + 1) == Broken || src(pos + 2) == Broken || src(pos + 3) == Broken
  }

  ghost predicate NoScalarAt(src: Source, f: Form, pos: nat) {
    forall v: Scalar :: !Holds(src, pos, EncodeScalar(f, v))
  }

  /** Every outcome explained by the text `vs` that stands at `pos`: success means the source
      ends behind it, oversized that one more scalar does not fit, invalid that bytes stand
      behind it but no encoded scalar does. */
  ghost predicate Explains(src: Source, f: Form, pos: nat, vs: seq<Scalar>, r: Outcome) {
    var end, text := pos + |Encode(f, vs)|, Encode(Utf8, vs);
    Holds(src, pos, Encode(f, vs)) &&
    |text| <= MAX_BYTES &&
    match r
    case Ok(output) => src(end) == Eof && output == text
    case Failed(Oversized) =>
      exists v: Scalar :: Holds(src, end, EncodeScalar(f, v)) && |text| + |Utf8Of(v)| > MAX_BYTES
    case Failed(InvalidEncoding) => src(end).Data? && NoScalarAt(src, f, end)
    case Failed(reason) => reason == ReadFailed && BrokenWithin(src, end) && NoScalarAt(src, f, end)
  }

  /** The outcome where the next read ends the decoding. */
  function OutcomeOf(r: Read, text: seq<Byte>): Outcome {
    match r
    case AtEof => Ok(text)
    case Invalid => Failed(InvalidEncoding)
    case Failure => Failed(ReadFailed)
    case Got(_, _) => Failed(Oversized)
  }

  /** What a read tells about the place where it started. */
  ghost predicate Describes(src: Source, f: Form, pos: nat, r: Read) {
    match r
    case AtEof => src(pos) == Eof
    case Invalid => src(pos).Data? && NoScalarAt(src, f, pos)
    case Failure => BrokenWithin(src, pos) && NoScalarAt(src, f, pos)
    case Got(v, _) => Holds(src, pos, EncodeScalar(f, v))
  }

  lemma ReadScalarEof(src: Source, f: Form, pos: nat)
    requires ReadScalar(src, f, pos).AtEof? || src(pos) == Eof
    ensures ReadScalar(src, f, pos).AtEof? && src(pos) == Eof
  {
  }

  lemma ReadScalarFailure(src: Source, f: Form, pos: nat)
    requires ReadScalar(src, f, pos).Failure?
    ensures BrokenWithin(src, pos) && forall v: Scalar :: !Holds(src, pos, EncodeScalar(f, v))
  {
    ReadAheadSame(src, f, pos);
    forall v: Scalar | Holds(src, pos, EncodeScalar(f, v)) ensures false {
      ReadScalarHolds(src, f, pos, v);
    }
    var n := |Available(src, pos, 4)|;
    assert pos + 0 == pos;
    assert n < 4 && !src(pos + n).Data? && src(pos + n) != Eof;
  }

  lemma ReadDescribes(src: Source, f: Form, pos: nat)
    ensures Describes(src, f, pos, ReadScalar(src, f, pos))
  {
    match ReadScalar(src, f, pos)
    case Invalid => ReadScalarInvalid(src, f, pos);
    case Failure => ReadScalarFailure(src, f, pos);
    case Got(v, _) => ReadScalarGot(src, f, pos);
    case AtEof => ReadScalarEof(src, f, pos);
  }

  lemma DecodeOutcome(read: nat -> Read, pos: nat) returns (vs: seq<Scalar>, end: nat)
    ensures Reads(read, pos, vs, end) && |Encode(Utf8, vs)| <= MAX_BYTES
    ensures read(end).Got? ==> |Encode(Utf8, vs)| + |Utf8Of(read(end).v)| > MAX_BYTES
    ensures DecodeFrom(read, pos, []) == OutcomeOf(read(end), Encode(Utf8, vs))
  {
    vs, end := DecodeStops(read, pos, []);
    assert [] + Encode(Utf8, vs) == Encode(Utf8, vs);
    DecodeText(read, pos, vs, end, []);
  }

  lemma EndExplained(src: Source, f: Form, pos: nat, vs: seq<Scalar>, r: Read)
    requires Holds(src, pos, Encode(f, vs)) && |Encode(Utf8, vs)| <= MAX_BYTES
    requires Describes(src, f, pos + |Encode(f, vs)|, r)
    requires r.Got? ==> |Encode(Utf8, vs)| + |Utf8Of(r.v)| > MAX_BYTES
    ensures Explains(src, f, pos, vs, OutcomeOf(r, Encode(Utf8, vs)))
  {
  }

  /** `read` describes the source, goes on behind what it reads, and misses no scalar. */
  ghost predicate FaithfulAt(read: nat -> Read, src: Source, f: Form, pos: nat) {
    Describes(src, f, pos, read(pos)) &&
    (src(pos) == Eof ==> read(pos).AtEof?) &&
    (read(pos).Got? ==> read(pos).next == pos + |EncodeScalar(f, read(pos).v)|) &&
    forall v: Scalar :: Holds(src, pos, EncodeScalar(f, v)) ==> read(pos) == Got(v, pos + |EncodeScalar(f, v)|)
  }

  ghost predicate Faithful(read: nat -> Read, src: Source, f: Form) {
    forall pos: nat :: FaithfulAt(read, src, f, pos)
  }

  lemma ScalarFaithful(src: Source, f: Form, pos: nat)
    ensures FaithfulAt(Scalars(src, f), src, f, pos)
  {
    ReadDescribes(src, f, pos);
    if ReadScalar(src, f, pos).Got? { ReadScalarGot(src, f, pos); }
    if src(pos) == Eof { ReadScalarEof(src, f, pos); }
    forall v: Scalar | Holds(src, pos, EncodeScalar(f, v))
      ensures ReadScalar(src, f, pos) == Got(v, pos + |EncodeScalar(f, v)|)
    {
      ReadScalarHolds(src, f, pos, v);
    }
  }

  lemma ScalarsFaithful(src: Source, f: Form)
    ensures Faithful(Scalars(src, f), src, f)
  {
    forall pos: nat ensures FaithfulAt(Scalars(src, f), src, f, pos) { ScalarFaithful(src, f, pos); }
  }

  /** Text is read exactly where it stands encoded. */
  lemma {:induction false} ReadsHolds(read: nat -> Read, src: Source, f: Form, pos: nat, vs: seq<Scalar>, end: nat)
    requires Faithful(read, src, f)
    ensures Reads(read, pos, vs, end) <==> Holds(src, pos, Encode(f, vs)) && end == pos + |Encode(f, vs)|
    decreases |vs|
  {
    if vs == [] {
    } else {
      var v, rest := vs[0], vs[1..];
      var e, more := EncodeScalar(f, v), Encode(f, rest);
      ReadsHolds(read, src, f, pos + |e|, rest, end);
      assert FaithfulAt(read, src, f, pos);
      ReadsStep(read, src, pos, v, e, rest, more, end);
      assert [v] + rest == vs;
    }
  }

  lemma FaithfulDescribes(read: nat -> Read, src: Source, f: Form, pos: nat)
    requires Faithful(read, src, f)
    ensures Describes(src, f, pos, read(pos)) && (src(pos) == Eof ==> read(pos).AtEof?)
  {
    assert FaithfulAt(read, src, f, pos);
  }

  lemma ExplainedBy(read: nat -> Read, src: Source, f: Form, pos: nat) returns (vs: seq<Scalar>)
    requires Faithful(read, src, f)
    ensures Explains(src, f, pos, vs, DecodeFrom(read, pos, []))
  {
    var end;
    vs, end := DecodeOutcome(read, pos);
    ReadsHolds(read, src, f, pos, vs, end);
    FaithfulDescribes(read, src, f, end);
    EndExplained(src, f, pos, vs, read(end));
  }

  lemma DecodeExplained(src: Source, f: Form, pos: nat) returns (vs: seq<Scalar>)
    ensures Explains(src, f, pos, vs, DecodeFrom(Scalars(src, f), pos, []))
  {
    ScalarsFaithful(src, f);
    vs := ExplainedBy(Scalars(src, f), src, f, pos);
  }

  lemma {:induction false} AvailableThere(src: Source, pos: nat, n: nat)
    requires forall k :: pos <= k < pos + n ==> src(k).Data?
    ensures |Available(src, pos, n)| == n
    decreases n
  {
    if n == 0 {
    } else {
      AvailableThere(src, pos + 1, n - 1);
    }
  }

  /** A source that fails within its first four bytes is a read error, whatever stands before. */
  lemma BrokenEarly(src: Source, n: nat)
    requires n < 4 && src(n) == Broken && forall k :: 0 <= k < n ==> src(k).Data?
    ensures Decode(src) == Failed(ReadFailed)
  {
    AvailableThere(src, 0, n);
    AvailableEnds(src, 0, n, 4 - n);
  }

  lemma {:induction false} AvailableAre(src: Source, pos: nat, n: nat)
    ensures forall k :: pos <= k < pos + |Available(src, pos, n)| ==> src(k).Data?
    decreases n
  {
    if n == 0 || !src(pos).Data? {
    } else {
      AvailableAre(src, pos + 1, n - 1);
    }
  }

  /** Every other source is explained by the text behind its mark. */
  lemma SourceExplained(src: Source) returns (vs: seq<Scalar>)
    requires forall n: nat :: n < 4 && src(n) == Broken ==> exists k: nat :: k < n && !src(k).Data?
    ensures var d := Detect(Available(src, 0, 4)); Explains(src, d.form, d.bom, vs, Decode(src))
  {
    var prefix := Available(src, 0, 4);
    if |prefix| < 4 {
      AvailableStops(src, 0, 4);
      AvailableAre(src, 0, 4);
    }
    var d := Detect(prefix);
    vs := DecodeExplained(src, d.form, d.bom);
  }

  // ----- Files -----

  /** A file with the given bytes. */
  function File(bytes: seq<Byte>): Source {
    (i: nat) => if i < |bytes| then Data(bytes[i]) else Eof
  }

  lemma {:induction false} FileAvailable(bytes: seq<Byte>, pos: nat, n: nat)
    requires pos <= |bytes|
    ensures Available(File(bytes), pos, n) == if pos + n <= |bytes| then bytes[pos..pos + n] else bytes[pos..]
    decreases n
  {
    if n > 0 && pos < |bytes| {
      FileAvailable(bytes, pos + 1, n - 1);
    }
  }

  /** The encoding that the first bytes of a file select. */
  function Selected(bytes: seq<Byte>): (d: Detected)
    ensures d.bom <= |bytes|
  {
    Detect(if |bytes| < 4 then bytes else bytes[..4])
  }

  lemma DecodeFile(bytes: seq<Byte>)
    ensures Decode(File(bytes)) == DecodeFrom(Scalars(File(bytes), Selected(bytes).form), Selected(bytes).bom, [])
  {
    FileAvailable(bytes, 0, 4);
  }

  /** What stands at `pos` and is followed by the end of the file is the rest of the file. */
  lemma FileHolds(bytes: seq<Byte>, pos: nat, s: seq<Byte>)
    requires pos <= |bytes|
    ensures Holds(File(bytes), pos, s) && File(bytes)(pos + |s|) == Eof <==> bytes[pos..] == s
  {
    FileAvailable(bytes, pos, |s|);
  }

  lemma DecodeFileSound(bytes: seq<Byte>, output: seq<Byte>) returns (vs: seq<Scalar>)
    requires Decode(File(bytes)) == Ok(output)
    ensures bytes[Selected(bytes).bom..] == Encode(Selected(bytes).form, vs)
    ensures output == Encode(Utf8, vs) && |output| <= MAX_BYTES
  {
    var d := Selected(bytes);
    DecodeFile(bytes);
    vs := DecodeExplained(File(bytes), d.form, d.bom);
    FileHolds(bytes, d.bom, Encode(d.form, vs));
  }

  lemma TextThenEof(read: nat -> Read, pos: nat, vs: seq<Scalar>, end: nat)
    requires Reads(read, pos, vs, end) && read(end).AtEof?
    ensures DecodeFrom(read, pos, []) ==
            if |Encode(Utf8, vs)| <= MAX_BYTES then Ok(Encode(Utf8, vs)) else Failed(Oversized)
  {
    assert [] + Encode(Utf8, vs) == Encode(Utf8, vs);
    DecodeText(read, pos, vs, end, []);
  }

  lemma WholeTextBy(read: nat -> Read, src: Source, f: Form, pos: nat, vs: seq<Scalar>)
    requires Faithful(read, src, f)
    requires Holds(src, pos, Encode(f, vs)) && src(pos + |Encode(f, vs)|) == Eof
    ensures DecodeFrom(read, pos, []) ==
            if |Encode(Utf8, vs)| <= MAX_BYTES then Ok(Encode(Utf8, vs)) else Failed(Oversized)
  {
    var end := pos + |Encode(f, vs)|;
    ReadsHolds(read, src, f, pos, vs, end);
    FaithfulDescribes(read, src, f, end);
    TextThenEof(read, pos, vs, end);
  }

  /** A source that ends behind an encoded text decodes to that text. */
  lemma DecodeWholeText(src: Source, f: Form, pos: nat, vs: seq<Scalar>)
    requires Holds(src, pos, Encode(f, vs)) && src(pos + |Encode(f, vs)|) == Eof
    ensures DecodeFrom(Scalars(src, f), pos, []) ==
            if |Encode(Utf8, vs)| <= MAX_BYTES then Ok(Encode(Utf8, vs)) else Failed(Oversized)
  {
    ScalarsFaithful(src, f);
    WholeTextBy(Scalars(src, f), src, f, pos, vs);
  }

  lemma DecodeBehind(bytes: seq<Byte>, f: Form, bom: nat, vs: seq<Scalar>)
    requires Selected(bytes) == Detected(f, bom) && bytes[bom..] == Encode(f, vs)
    ensures Decode(File(bytes)) ==
            if |Encode(Utf8, vs)| <= MAX_BYTES then Ok(Encode(Utf8, vs)) else Failed(Oversized)
  {
    DecodeFile(bytes);
    FileHolds(bytes, bom, Encode(f, vs));
    DecodeWholeText(File(bytes), f, bom, vs);
  }

  /** A file is decoded to `output` if and only if, behind the byte-order mark that selects
      its form, it is the encoding of scalars whose UTF-8 form is `output` and fits. */
  lemma DecodeExact(bytes: seq<Byte>, output: seq<Byte>)
    ensures Decode(File(bytes)) == Ok(output) <==>
            exists vs :: bytes[Selected(bytes).bom..] == Encode(Selected(bytes).form, vs) &&
                         output == Encode(Utf8, vs) && |output| <= 65536
  {
    var d := Selected(bytes);
    if Decode(File(bytes)) == Ok(output) {
      var vs := DecodeFileSound(bytes, output);
    }
    forall vs | bytes[d.bom..] == Encode(d.form, vs) && output == Encode(Utf8, vs) && |output| <= MAX_BYTES
      ensures Decode(File(bytes)) == Ok(output)
    {
      DecodeBehind(bytes, d.form, d.bom, vs);
    }
  }

  lemma BomBytes(f: Form)
    ensures Bom(f) == match f
      case Utf8 => [0xEF, 0xBB, 0xBF]
      case Utf16(big) => if big then [0xFE, 0xFF] else [0xFF, 0xFE]
      case Utf32(big) => if big then [0, 0, 0xFE, 0xFF] else [0xFF, 0xFE, 0, 0]
  {
  }

  lemma StartsWith(bytes: seq<Byte>, mark: seq<Byte>)
    requires |mark| <= 4
    ensures mark <= bytes <==> |mark| <= |bytes| && forall k :: 0 <= k < |mark| ==> bytes[k] == mark[k]
  {
  }

  /** The longest mark that a file starts with is the one that counts; without one the file is UTF-8. */
  lemma SelectedExactly(bytes: seq<Byte>, f: Form)
    ensures Bom(f) <= bytes ==> Selected(bytes).bom >= |Bom(f)|
    ensures var d := Selected(bytes);
      if d.bom > 0 then d.bom == |Bom(d.form)| && Bom(d.form) <= bytes else d.form == Utf8
  {
    BomBytes(f);
    StartsWith(bytes, Bom(f));
    var d := Selected(bytes);
    BomBytes(d.form);
    StartsWith(bytes, Bom(d.form));
  }

  lemma LittleEndianStart(vs: seq<Scalar>)
    requires vs != [] ==> vs[0] != 0
    ensures var e := Encode(Utf16(false), vs); |e| >= 2 ==> e[0] != 0 || e[1] != 0
  {
    if vs != [] {
      var u := Utf16Of(false, vs[0]);
      var v: int := vs[0];
      Unit16RoundTrip(false, if v < 0x10000 then v else 0xD800 + (v - 0x10000) / 0x400);
      var e := u + Encode(Utf16(false), vs[1..]);
      assert e[0] == u[0] && e[1] == u[1];
    }
  }

  lemma MarkSelects(f: Form, vs: seq<Scalar>)
    requires !(f == Utf16(false) && vs != [] && vs[0] == 0)
    ensures Selected(Bom(f) + Encode(f, vs)) == Detected(f, |Bom(f)|)
  {
    if f == Utf16(false) {
      LittleEndianStart(vs);
    }
  }

  /** Behind its byte-order mark every text decodes to its UTF-8 form, or is oversized. The
      one text that the mark does not announce is UTF-16LE starting with U+0000: mark and
      first unit together are the UTF-32LE mark. */
  lemma DecodeMarked(f: Form, vs: seq<Scalar>)
    requires !(f == Utf16(false) && vs != [] && vs[0] == 0)
    ensures Decode(File(Bom(f) + Encode(f, vs))) ==
            if |Encode(Utf8, vs)| <= 65536 then Ok(Encode(Utf8, vs)) else Failed(Oversized)
  {
    var bytes := Bom(f) + Encode(f, vs);
    MarkSelects(f, vs);
    DecodeBehind(bytes, f, |Bom(f)|, vs);
  }

  lemma {:induction false} EncodedLength(big: bool, vs: seq<Scalar>)
    ensures |Encode(Utf32(big), vs)| == 4 * |vs| && |Encode(Utf16(big), vs)| <= 4 * |vs|
    decreases |vs|
  {
    if vs == [] {
    } else {
      EncodedLength(big, vs[1..]);
    }
  }

  /** UTF-16LE text that starts with U+0000 is taken for UTF-32LE behind its mark. */
  lemma NullStartSelects(vs: seq<Scalar>)
    requires vs != [] && vs[0] == 0
    ensures var bytes := Bom(Utf16(false)) + Encode(Utf16(false), vs);
      Selected(bytes) == Detected(Utf32(false), 4) && bytes[4..] == Encode(Utf16(false), vs[1..])
  {
    var more := Encode(Utf16(false), vs[1..]);
    assert Encode(Utf16(false), vs) == [0, 0] + more;
    assert Bom(Utf16(false)) + ([0, 0] + more) == [0xFF, 0xFE, 0, 0] + more;
  }

  lemma NullStartLength(vs: seq<Scalar>)
    requires vs != [] && vs[0] == 0
    ensures |Encode(Utf16(false), vs[1..])| < 4 * |vs|
  {
    EncodedLength(false, vs[1..]);
  }

  lemma NullStartMisread(vs: seq<Scalar>)
    requires vs != [] && vs[0] == 0
    ensures Decode(File(Bom(Utf16(false)) + Encode(Utf16(false), vs))) != Ok(Encode(Utf8, vs))
  {
    var bytes := Bom(Utf16(false)) + Encode(Utf16(false), vs);
    NullStartSelects(vs);
    if Decode(File(bytes)) == Ok(Encode(Utf8, vs)) {
      var ws := DecodeFileSound(bytes, Encode(Utf8, vs));
      EncodeInjective(Utf8, vs, ws);
      NullStartLength(vs);
      EncodedLength(false, ws);
      assert false;
    }
  }

  /** Exactly when marked text that fits comes out as its UTF-8 form. */
  lemma DecodeMarkedExact(f: Form, vs: seq<Scalar>)
    requires |Encode(Utf8, vs)| <= 65536
    ensures Decode(File(Bom(f) + Encode(f, vs))) == Ok(Encode(Utf8, vs)) <==>
            !(f == Utf16(false) && vs != [] && vs[0] == 0)
  {
    if f == Utf16(false) && vs != [] && vs[0] == 0 {
      NullStartMisread(vs);
    } else {
      DecodeMarked(f, vs);
    }
  }

  /** The bytes 0xF5 to 0xFF never occur in UTF-8. */
  lemma {:induction false} Utf8Bytes(vs: seq<Scalar>)
    ensures forall k :: 0 <= k < |Encode(Utf8, vs)| ==> Encode(Utf8, vs)[k] < 0xF5
    decreases |vs|
  {
    if vs == [] {
    } else {
      Utf8Bytes(vs[1..]);
    }
  }

  /** No mark starts with bytes below 0xF5, but for the one of UTF-8. */
  lemma NoMark(bytes: seq<Byte>)
    requires forall k :: 0 <= k < |bytes| ==> bytes[k] < 0xF5
    requires !(|bytes| >= 3 && bytes[0] == 0xEF && bytes[1] == 0xBB && bytes[2] == 0xBF)
    ensures Selected(bytes) == Detected(Utf8, 0)
  {
  }

  /** Text that starts with the bytes of the mark starts with U+FEFF. */
  lemma MarkIsScalar(vs: seq<Scalar>)
    requires var bytes := Encode(Utf8, vs); |bytes| >= 3 && bytes[0] == 0xEF && bytes[1] == 0xBB && bytes[2] == 0xBF
    ensures vs != [] && vs[0] == BOM_SCALAR
  {
    HeadRoundTrip(Utf8, vs[0], Encode(Utf8, vs[1..]));
  }

  lemma UnmarkedSelects(vs: seq<Scalar>)
    requires vs == [] || vs[0] != BOM_SCALAR
    ensures Selected(Encode(Utf8, vs)) == Detected(Utf8, 0)
  {
    var bytes := Encode(Utf8, vs);
    Utf8Bytes(vs);
    if |bytes| >= 3 && bytes[0] == 0xEF && bytes[1] == 0xBB && bytes[2] == 0xBF {
      MarkIsScalar(vs);
    } else {
      NoMark(bytes);
    }
  }

  /** Text without a mark is read as UTF-8; a leading U+FEFF would be the mark itself. */
  lemma DecodeUnmarked(vs: seq<Scalar>)
    requires vs == [] || vs[0] != BOM_SCALAR
    ensures Decode(File(Encode(Utf8, vs))) ==
            if |Encode(Utf8, vs)| <= 65536 then Ok(Encode(Utf8, vs)) else Failed(Oversized)
  {
    var bytes := Encode(Utf8, vs);
    UnmarkedSelects(vs);
    assert bytes[0..] == bytes;
    DecodeBehind(bytes, Utf8, 0, vs);
  }

  /** Exactly when unmarked text that fits comes out unchanged. */
  lemma DecodeUnmarkedExact(vs: seq<Scalar>)
    requires |Encode(Utf8, vs)| <= 65536
    ensures Decode(File(Encode(Utf8, vs))) == Ok(Encode(Utf8, vs)) <==> vs == [] || vs[0] != BOM_SCALAR
  {
    if vs == [] || vs[0] != BOM_SCALAR {
      DecodeUnmarked(vs);
    } else {
      DecodeMarked(Utf8, vs[1..]);
      assert Encode(Utf8, vs) == Bom(Utf8) + Encode(Utf8, vs[1..]);
    }
  }
}
