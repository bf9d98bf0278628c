/**
 Reading host.json: the byte-order mark selects one of five encodings, scalars are validated
 one by one and re-encoded as UTF-8, and both the input read and the output are bounded.

 A source answers every position with a byte, the end of the file, or a read error, so it may
 also be endless. What it answers at the first position without a byte ends the reading.
 */
module HostConfigurationDecoder {
  import opened Bytes
  import opened HostConfiguration
  import opened UnicodeForms

  datatype Item = Data(b: Byte) | Eof | Broken
  type Source = nat -> Item

  /** At most `n` bytes from `pos` on, up to the first position without a byte. */
  function Available(src: Source, pos: nat, n: nat): (s: seq<Byte>)
    ensures |s| <= n
    decreases n
  {
    if n == 0 || !src(pos).Data? then []
    else [src(pos).b] + Available(src, pos + 1, n - 1)
  }

  // ----- Selecting the encoding -----

  datatype Detected = Detected(form: Form, bom: nat)

  function Detect(prefix: seq<Byte>): (d: Detected)
    ensures d.bom <= |prefix| && d.bom <= 4
  {
    var n := |prefix|;
    if n >= 4 && prefix[0] == 0xFF && prefix[1] == 0xFE && prefix[2] == 0 && prefix[3] == 0
      then Detected(Utf32(false), 4)
    else if n >= 4 && prefix[0] == 0 && prefix[1] == 0 && prefix[2] == 0xFE && prefix[3] == 0xFF
      then Detected(Utf32(true), 4)
    else if n >= 3 && prefix[0] == 0xEF && prefix[1] == 0xBB && prefix[2] == 0xBF then Detected(Utf8, 3)
    else if n >= 2 && prefix[0] == 0xFF && prefix[1] == 0xFE then Detected(Utf16(false), 2)
    else if n >= 2 && prefix[0] == 0xFE && prefix[1] == 0xFF then Detected(Utf16(true), 2)
    else Detected(Utf8, 0)
  }

  // ----- Reading one scalar -----

  datatype Read = Got(v: Scalar, next: nat) | AtEof | Invalid | Failure

  /** Where a read that found no byte at all stands. */
  function NoByte(item: Item): Read {
    if item == Eof then AtEof else Failure
  }

  /** Where a read that found too few bytes stands; a cut-off scalar is invalid. */
  function CutOff(item: Item): Read {
    if item == Eof then Invalid else Failure
  }

  function FromHead(h: Head, pos: nat): Read {
    if h.Scalar? then Got(h.v, pos + h.len) else Invalid
  }

  /** One scalar at `pos`. UTF-8 takes a read error inside a scalar for invalid text; the
      other forms report the error. */
  function ReadScalar(src: Source, f: Form, pos: nat): (r: Read)
    ensures r.Got? ==> pos < r.next <= pos + 4
  {
    match f
    case Utf8 =>
      var s := Available(src, pos, 4);
      if s == [] then NoByte(src(pos)) else FromHead(Utf8Head(s), pos)
    case Utf32(big) =>
      var s := Available(src, pos, 4);
      if s == [] then NoByte(src(pos))
      else if |s| < 4 then CutOff(src(pos + |s|))
      else FromHead(Utf32Head(big, s), pos)
    case Utf16(big) =>
      var s := Available(src, pos, 2);
      if s == [] then NoByte(src(pos))
      else if |s| < 2 then CutOff(src(pos + |s|))
      else
        var first := Value16(big, s[0], s[1]);
        if 0xDC00 <= first <= 0xDFFF then Invalid
        else if first < 0xD800 || first > 0xDBFF then Got(first, pos + 2)
        else
          var low := Available(src, pos + 2, 2);
          if |low| < 2 then CutOff(src(pos + 2 + |low|)) else FromHead(Utf16Head(big, s + low), pos)
  }

  // ----- The reader's view and the text's view -----

  /** `s` stands in the source at `pos`. */
  predicate Holds(src: Source, pos: nat, s: seq<Byte>) {
    Available(src, pos, |s|) == s
  }

  /** Reading stops short only where no byte stands. */
  lemma {:induction false} AvailableStops(src: Source, pos: nat, n: nat)
    requires |Available(src, pos, n)| < n
    ensures !src(pos + |Available(src, pos, n)|).Data?
    decreases n
  {
    if src(pos).Data? { AvailableStops(src, pos + 1, n - 1); }
  }

  lemma PrependAssoc(b: Byte, s: seq<Byte>, t: seq<Byte>)
    ensures [b] + (s + t) == ([b] + s) + t
  {
  }

  /** Reading `n + m` bytes is reading `n` and, if all were there, `m` more. */
  lemma {:induction false} AvailableSplit(src: Source, pos: nat, n: nat, m: nat)
    ensures var s := Available(src, pos, n);
      Available(src, pos, n + m) == if |s| == n then s + Available(src, pos + n, m) else s
    decreases n
  {
    if n == 0 {
      assert Available(src, pos, 0) == [];
    } else if src(pos).Data? {
      AvailableSplit(src, pos + 1, n - 1, m);
      PrependAssoc(src(pos).b, Available(src, pos + 1, n - 1), Available(src, pos + n, m));
    }
  }

  lemma AvailableSnoc(src: Source, pos: nat, n: nat)
    requires |Available(src, pos, n)| == n && src(pos + n).Data?
    ensures Available(src, pos, n + 1) == Available(src, pos, n) + [src(pos + n).b]
  {
    AvailableSplit(src, pos, n, 1);
    assert Available(src, pos + n, 1) == [src(pos + n).b];
  }

  lemma AvailableEnds(src: Source, pos: nat, n: nat, m: nat)
    requires |Available(src, pos, n)| == n && !src(pos + n).Data?
    ensures Available(src, pos, n + m) == Available(src, pos, n)
  {
    AvailableSplit(src, pos, n, m);
    assert Available(src, pos + n, m) == [];
  }

  /** The same reading, decided by the next four bytes at once. */
  function ReadAhead(src: Source, f: Form, pos: nat): Read {
    var s := Available(src, pos, 4);
    if s == [] then NoByte(src(pos))
    else if f.Utf32? && |s| < 4 then CutOff(src(pos + |s|))
    else if f.Utf16? && (|s| < 2 || (0xD800 <= Value16(f.big, s[0], s[1]) <= 0xDBFF && |s| < 4))
      then CutOff(src(pos + |s|))
    else FromHead(DecodeHead(f, s), pos)
  }

  lemma ReadAheadSame(src: Source, f: Form, pos: nat)
    ensures ReadScalar(src, f, pos) == ReadAhead(src, f, pos)
  {
    if f.Utf16? {
      AvailableSplit(src, pos, 2, 2);
    }
  }

  // ----- Reading the whole source -----

  /** Reads scalars from `pos` on, with `content` decoded so far. */
  function DecodeFrom(read: nat -> Read, pos: nat, content: seq<Byte>): Outcome
    requires |content| <= MAX_BYTES
    decreases MAX_BYTES - |content|
  {
    match read(pos)
    case AtEof => Ok(content)
    case Invalid => Failed(InvalidEncoding)
    case Failure => Failed(ReadFailed)
    case Got(v, next) =>
      if |content| + |Utf8Of(v)| > MAX_BYTES then Failed(Oversized)
      else DecodeFrom(read, next, content + Utf8Of(v))
  }

  function Scalars(src: Source, f: Form): nat -> Read {
    (pos: nat) => ReadScalar(src, f, pos)
  }

  function Decode(src: Source): Outcome {
    var prefix := Available(src, 0, 4);
    if |prefix| < 4 && src(|prefix|) == Broken then Failed(ReadFailed)
    else
      var d := Detect(prefix);
      DecodeFrom(Scalars(src, d.form), d.bom, [])
  }

  // ----- The reader as the worker runs it -----

  /** A buffered reader over a source. */
  class Reader {
    const source: Source
    var pos: nat

    constructor (source: Source)
      ensures this.source == source && pos == 0
    {
      this.source := source;
      pos := 0;
    }

    /** Reads exactly `n` bytes, unless the source ends or fails before. */
    method ReadFull(n: nat) returns (bytes: seq<Byte>, end: Item)
      modifies this
      ensures bytes == Available(source, old(pos), n)
      ensures pos == old(pos) + |bytes|
      ensures |bytes| < n ==> end == source(pos)
    {
      ghost var start := pos;
      bytes, end := [], Eof;
      while |bytes| < n
        invariant |bytes| <= n && pos == start + |bytes|
        invariant bytes == Available(source, start, |bytes|)
        decreases n - |bytes|
      {
        end := source(pos);
        if !end.Data? {
          AvailableEnds(source, start, |bytes|, n - |bytes|);
          return;
        }
        AvailableSnoc(source, start, |bytes|);
        bytes := bytes + [end.b];
        pos := pos + 1;
      }
    }

    /** A UTF-8 scalar, looking at no more than four bytes. */
    method ReadRune() returns (r: Read)
      modifies this
      ensures r == ReadScalar(source, Utf8, old(pos))
      ensures old(pos) <= pos <= old(pos) + 4 && (r.Got? ==> pos == r.next)
    {
      var start := pos;
      var bytes, end := ReadFull(4);
      if |bytes| == 0 {
        return NoByte(end);
      }
      var h := Utf8Head(bytes);
      pos := if h.Scalar? then start + h.len else start + 1;
      return FromHead(h, start);
    }

    /** A UTF-16 or UTF-32 scalar. */
    method ReadWide(f: Form) returns (r: Read)
      requires !f.Utf8?
      modifies this
      ensures r == ReadScalar(source, f, old(pos))
      ensures old(pos) <= pos <= old(pos) + 4 && (r.Got? ==> pos == r.next)
    {
      var width := if f.Utf32? then 4 else 2;
      var unit, end := ReadFull(width);
      if |unit| == 0 {
        return NoByte(end);
      }
      if |unit| < width {
        return CutOff(end);
      }
      if f.Utf32? {
        return FromHead(Utf32Head(f.big, unit), pos - 4);
      }
      var first := Value16(f.big, unit[0], unit[1]);
      if 0xDC00 <= first <= 0xDFFF {
        return Invalid;
      } else if first < 0xD800 || first > 0xDBFF {
        return Got(first, pos);
      }
      var low, lowEnd := ReadFull(2);
      if |low| < 2 {
        return CutOff(lowEnd);
      }
      return FromHead(Utf16Head(f.big, unit + low), pos - 4);
    }
  }

  /** Decodes any source, endless ones included, after reading a bounded part of it. */
  method DecodeHostConfiguration(source: Source) returns (result: Outcome, consumed: nat)
    ensures result == Decode(source)
    ensures result.Ok? ==> |result.content| <= 65536
    ensures consumed <= 4 + 4 * 65537
  {
    var reader := new Reader(source);
    var prefix, end := reader.ReadFull(4);
    if |prefix| < 4 && end == Broken {
      return Failed(ReadFailed), reader.pos;
    }
    var d := Detect(prefix);
    reader.pos := d.bom;
    var content: seq<Byte> := [];
    while true
      invariant reader.source == source
      invariant |content| <= MAX_BYTES && reader.pos <= 4 + 4 * |content|
      invariant Decode(source) == DecodeFrom(Scalars(source, d.form), reader.pos, content)
      decreases MAX_BYTES - |content|
    {
      var read: Read;
      if d.form.Utf8? {
        read := reader.ReadRune();
      } else {
        read := reader.ReadWide(d.form);
      }
      consumed := reader.pos;
      match read {
        case AtEof => return Ok(content), consumed;
        case Invalid => return Failed(InvalidEncoding), consumed;
        case Failure => return Failed(ReadFailed), consumed;
        case Got(v, _) =>
          if |content| + |Utf8Of(v)| > MAX_BYTES {
            return Failed(Oversized), consumed;
          }
          content := content + Utf8Of(v);
      }
    }
  }
}
