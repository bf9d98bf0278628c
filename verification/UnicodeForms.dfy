/**
 The five Unicode encodings of host.json as functions from scalars to bytes:
 UTF-8 (RFC 3629, section 3), UTF-16 in either byte order (RFC 2781, section 2.1) and
 UTF-32 in either byte order (Unicode Standard, section 3.9).
 */
module UnicodeForms {
  import opened Bytes

  /** A Unicode scalar value: a code point that is not a surrogate. */
  type Scalar = v: int | 0 <= v < 0x110000 && !(0xD800 <= v < 0xE000)

  const BOM_SCALAR: Scalar := 0xFEFF

  datatype Form = Utf8 | Utf16(big: bool) | Utf32(big: bool)

  function Utf8Of(v: Scalar): (s: seq<Byte>)
    ensures 1 <= |s| <= 4
  {
    if v < 0x80 then [v]
    else if v < 0x800 then [0xC0 + v / 0x40, 0x80 + v % 0x40]
    else if v < 0x10000 then [0xE0 + v / 0x40 / 0x40, 0x80 + v / 0x40 % 0x40, 0x80 + v % 0x40]
    else [0xF0 + v / 0x40 / 0x40 / 0x40, 0x80 + v / 0x40 / 0x40 % 0x40, 0x80 + v / 0x40 % 0x40, 0x80 + v % 0x40]
  }

  /** A 16-bit unit in the given byte order. */
  function Unit16(big: bool, u: int): (s: seq<Byte>)
    requires 0 <= u < 0x10000
    ensures |s| == 2
  {
    if big then [u / 0x100, u % 0x100] else [u % 0x100, u / 0x100]
  }

  function Utf16Of(big: bool, v: Scalar): (s: seq<Byte>)
    ensures 2 <= |s| <= 4
  {
    if v < 0x10000 then Unit16(big, v)
    else Unit16(big, 0xD800 + (v - 0x10000) / 0x400) + Unit16(big, 0xDC00 + (v - 0x10000) % 0x400)
  }

  function Utf32Of(big: bool, v: Scalar): (s: seq<Byte>)
    ensures |s| == 4
  {
    if big then Unit16(big, v / 0x10000) + Unit16(big, v % 0x10000)
    else Unit16(big, v % 0x10000) + Unit16(big, v / 0x10000)
  }

  function EncodeScalar(f: Form, v: Scalar): (s: seq<Byte>)
    ensures 1 <= |s| <= 4
  {
    match f
    case Utf8 => Utf8Of(v)
    case Utf16(big) => Utf16Of(big, v)
    case Utf32(big) => Utf32Of(big, v)
  }

  function Encode(f: Form, vs: seq<Scalar>): seq<Byte> {
    if vs == [] then [] else EncodeScalar(f, vs[0]) + Encode(f, vs[1..])
  }

  /** The byte-order mark of a form: the encoding of U+FEFF. */
  function Bom(f: Form): seq<Byte> {
    EncodeScalar(f, BOM_SCALAR)
  }

  // ----- Decoding one scalar -----

  /** What starts a byte sequence: a scalar and its length, or no encoded scalar. */
  datatype Head = Scalar(v: Scalar, len: nat) | Malformed

  predicate IsContinuation(b: Byte) {
    0x80 <= b < 0xC0
  }

  /** Appends the six bits of a continuation byte to `high`. */
  function Continue(high: int, b: Byte): int {
    high * 0x40 + (b - 0x80)
  }

  /** Strict UTF-8 by the byte ranges of RFC 3629, section 4: no overlong form, no surrogate,
      nothing above U+10FFFF. */
  function Utf8Head(s: seq<Byte>): (h: Head)
    requires s != []
    ensures h.Scalar? ==> h.len <= |s|
  {
    if s[0] < 0x80 then Scalar(s[0], 1)
    else if 0xC2 <= s[0] < 0xE0 then
      if |s| >= 2 && IsContinuation(s[1]) then Scalar(Continue(s[0] - 0xC0, s[1]), 2) else Malformed
    else if 0xE0 <= s[0] < 0xF0 then
      if |s| >= 3 && IsContinuation(s[1]) && IsContinuation(s[2]) &&
         (s[0] == 0xE0 ==> s[1] >= 0xA0) && (s[0] == 0xED ==> s[1] < 0xA0)
      then Scalar(Continue(Continue(s[0] - 0xE0, s[1]), s[2]), 3)
      else Malformed
    else if 0xF0 <= s[0] < 0xF5 then
      if |s| >= 4 && IsContinuation(s[1]) && IsContinuation(s[2]) && IsContinuation(s[3]) &&
         (s[0] == 0xF0 ==> s[1] >= 0x90) && (s[0] == 0xF4 ==> s[1] < 0x90)
      then Scalar(Continue(Continue(Continue(s[0] - 0xF0, s[1]), s[2]), s[3]), 4)
      else Malformed
    else Malformed
  }

  /** The value of two bytes in the given order. */
  function Value16(big: bool, a: Byte, b: Byte): (u: int)
    ensures 0 <= u < 0x10000
  {
    var x: int, y: int := a, b;
    if big then x * 0x100 + y else x + y * 0x100
  }

  function Utf16Head(big: bool, s: seq<Byte>): (h: Head)
    ensures h.Scalar? ==> 2 <= h.len <= |s|
  {
    if |s| < 2 then Malformed
    else
      var first := Value16(big, s[0], s[1]);
      if 0xDC00 <= first <= 0xDFFF then Malformed
      else if first < 0xD800 || first > 0xDBFF then Scalar(first, 2)
      else if |s| < 4 then Malformed
      else
        var second := Value16(big, s[2], s[3]);
        if second < 0xDC00 || second > 0xDFFF then Malformed
        else Scalar(0x10000 + (first - 0xD800) * 0x400 + (second - 0xDC00), 4)
  }

  function Utf32Head(big: bool, s: seq<Byte>): (h: Head)
    ensures h.Scalar? ==> h.len == 4 <= |s|
  {
    if |s| < 4 then Malformed
    else
      var high, low := if big then Value16(big, s[0], s[1]) else Value16(big, s[2], s[3]),
                       if big then Value16(big, s[2], s[3]) else Value16(big, s[0], s[1]);
      var v := high * 0x10000 + low;
      if v > 0x10FFFF || 0xD800 <= v < 0xE000 then Malformed else Scalar(v, 4)
  }

  /** The scalar at the start of `s` in form `f`. */
  function DecodeHead(f: Form, s: seq<Byte>): (h: Head)
    requires s != []
    ensures h.Scalar? ==> 1 <= h.len <= 4 && h.len <= |s|
  {
    match f
    case Utf8 => Utf8Head(s)
    case Utf16(big) => Utf16Head(big, s)
    case Utf32(big) => Utf32Head(big, s)
  }

  // ----- Each form decodes what it encodes and nothing else -----

  /** `Continue` and division by 64 are inverse. */
  lemma ContinueDigits(high: int, b: Byte)
    requires IsContinuation(b)
    ensures Continue(high, b) / 0x40 == high && 0x80 + Continue(high, b) % 0x40 == b
  {
  }

  lemma DigitsContinue(v: int)
    ensures var b := 0x80 + v % 0x40; IsContinuation(b) && Continue(v / 0x40, b) == v
  {
  }

  lemma Utf8RoundTrip(v: Scalar, after: seq<Byte>)
    ensures Utf8Head(Utf8Of(v) + after) == Scalar(v, |Utf8Of(v)|)
  {
    var s := Utf8Of(v) + after;
    DigitsContinue(v);
    DigitsContinue(v / 0x40);
    DigitsContinue(v / 0x40 / 0x40);
  }

  lemma Utf8Sound(s: seq<Byte>)
    requires s != [] && Utf8Head(s).Scalar?
    ensures Utf8Of(Utf8Head(s).v) == s[..Utf8Head(s).len]
  {
    var n := Utf8Head(s).len;
    if n == 2 {
      ContinueDigits(s[0] - 0xC0, s[1]);
    } else if n == 3 {
      ContinueDigits(s[0] - 0xE0, s[1]);
      ContinueDigits(Continue(s[0] - 0xE0, s[1]), s[2]);
    } else if n == 4 {
      ContinueDigits(s[0] - 0xF0, s[1]);
      ContinueDigits(Continue(s[0] - 0xF0, s[1]), s[2]);
      ContinueDigits(Continue(Continue(s[0] - 0xF0, s[1]), s[2]), s[3]);
    }
  }

  lemma Unit16RoundTrip(big: bool, u: int)
    requires 0 <= u < 0x10000
    ensures var s := Unit16(big, u); Value16(big, s[0], s[1]) == u
  {
  }

  lemma Unit16Sound(big: bool, a: Byte, b: Byte)
    ensures Unit16(big, Value16(big, a, b)) == [a, b]
  {
  }

  lemma Utf16RoundTrip(big: bool, v: Scalar, after: seq<Byte>)
    ensures Utf16Head(big, Utf16Of(big, v) + after) == Scalar(v, |Utf16Of(big, v)|)
  {
    if v < 0x10000 {
      Unit16RoundTrip(big, v);
    } else {
      Unit16RoundTrip(big, 0xD800 + (v - 0x10000) / 0x400);
      Unit16RoundTrip(big, 0xDC00 + (v - 0x10000) % 0x400);
    }
  }

  lemma Utf16Sound(big: bool, s: seq<Byte>)
    requires Utf16Head(big, s).Scalar?
    ensures Utf16Of(big, Utf16Head(big, s).v) == s[..Utf16Head(big, s).len]
  {
    Unit16Sound(big, s[0], s[1]);
    if Utf16Head(big, s).len == 4 {
      Unit16Sound(big, s[2], s[3]);
      var first, second := Value16(big, s[0], s[1]), Value16(big, s[2], s[3]);
      var v: int := Utf16Head(big, s).v;
      assert (v - 0x10000) / 0x400 == first - 0xD800 && (v - 0x10000) % 0x400 == second - 0xDC00;
    }
  }

  lemma Utf32RoundTrip(big: bool, v: Scalar, after: seq<Byte>)
    ensures Utf32Head(big, Utf32Of(big, v) + after) == Scalar(v, 4)
  {
    Unit16RoundTrip(big, v / 0x10000);
    Unit16RoundTrip(big, v % 0x10000);
  }

  lemma Utf32Sound(big: bool, s: seq<Byte>)
    requires Utf32Head(big, s).Scalar?
    ensures Utf32Of(big, Utf32Head(big, s).v) == s[..4]
  {
    Unit16Sound(big, s[0], s[1]);
    Unit16Sound(big, s[2], s[3]);
    var high, low := if big then Value16(big, s[0], s[1]) else Value16(big, s[2], s[3]),
                     if big then Value16(big, s[2], s[3]) else Value16(big, s[0], s[1]);
    var v := high * 0x10000 + low;
    assert v / 0x10000 == high && v % 0x10000 == low;
  }

  /** An encoded scalar is read back, whatever follows it. */
  lemma HeadRoundTrip(f: Form, v: Scalar, after: seq<Byte>)
    ensures DecodeHead(f, EncodeScalar(f, v) + after) == Scalar(v, |EncodeScalar(f, v)|)
  {
    match f
    case Utf8 => Utf8RoundTrip(v, after);
    case Utf16(big) => Utf16RoundTrip(big, v, after);
    case Utf32(big) => Utf32RoundTrip(big, v, after);
  }

  /** Only an encoded scalar is read. */
  lemma HeadSound(f: Form, s: seq<Byte>)
    requires s != [] && DecodeHead(f, s).Scalar?
    ensures var h := DecodeHead(f, s); EncodeScalar(f, h.v) == s[..h.len]
  {
    match f
    case Utf8 => Utf8Sound(s);
    case Utf16(big) => Utf16Sound(big, s);
    case Utf32(big) => Utf32Sound(big, s);
  }

  /** No encoding of a scalar is a prefix of a different text: encoding is injective. */
  lemma {:induction false} EncodeInjective(f: Form, vs: seq<Scalar>, ws: seq<Scalar>)
    requires Encode(f, vs) == Encode(f, ws)
    ensures vs == ws
    decreases |vs|
  {
    if vs == [] || ws == [] {
    } else {
      HeadRoundTrip(f, vs[0], Encode(f, vs[1..]));
      HeadRoundTrip(f, ws[0], Encode(f, ws[1..]));
      var n := |EncodeScalar(f, vs[0])|;
      assert Encode(f, vs)[n..] == Encode(f, vs[1..]) && Encode(f, ws)[n..] == Encode(f, ws[1..]);
      EncodeInjective(f, vs[1..], ws[1..]);
      assert vs == [vs[0]] + vs[1..] && ws == [ws[0]] + ws[1..];
    }
  }
}
