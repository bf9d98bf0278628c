/**
 Lexical structure of JSON (RFC 8259, sections 2 to 7) and of JSON with comments.

 A token is one of the six structural bytes, a string literal with its quotes, or an
 atom: a maximal run of other bytes, meant to be a number or one of `true`, `false`, `null`.
 No token carries a decoded value, so two texts with equal tokens agree on every spelling.
 */
module JsonLexer {
  import opened Bytes

  datatype Token = Punct(b: Byte) | Str(raw: seq<Byte>) | Atom(raw: seq<Byte>)

  predicate IsPunct(b: Byte) {
    b == LBRACE || b == RBRACE || b == LBRACKET || b == RBRACKET || b == COMMA || b == COLON
  }

  predicate IsAtomByte(b: Byte) {
    !IsSpace(b) && !IsPunct(b) && b != QUOTE
  }

  // ----- String literals and comments -----

  /** Bytes up to and including the closing quote; `s` starts after the opening one. */
  function StringTail(s: seq<Byte>): (n: Option<nat>)
    ensures n.Some? ==> 0 < n.value <= |s| && s[n.value - 1] == QUOTE
  {
    if s == [] then None
    else if s[0] == BACKSLASH then (if |s| < 2 then None else Plus(2, StringTail(s[2..])))
    else if s[0] == QUOTE then Some(1)
    else Plus(1, StringTail(s[1..]))
  }

  /** Length of the string literal that starts `s`. */
  function StringLen(s: seq<Byte>): (n: Option<nat>)
    requires s != [] && s[0] == QUOTE
    ensures n.Some? ==> 1 < n.value <= |s| && s[n.value - 1] == QUOTE
  {
    Plus(1, StringTail(s[1..]))
  }

  /** U+2028 or U+2029 in UTF-8 at the start of `s`. */
  predicate IsLineSeparator(s: seq<Byte>) {
    |s| >= 3 && s[0] == 0xE2 && s[1] == 0x80 && (s[2] == 0xA8 || s[2] == 0xA9)
  }

  /** Bytes of a line comment after its two slashes; the line end is not part of it. */
  function LineTail(s: seq<Byte>): (n: Option<nat>)
    ensures n.Some? ==> n.value <= |s|
  {
    if s == [] || s[0] == CR || s[0] == LF then Some(0)
    else if IsLineSeparator(s) then None
    else Plus(1, LineTail(s[1..]))
  }

  /** Bytes of a block comment after its opening, through the closing pair. */
  function BlockTail(s: seq<Byte>): (n: Option<nat>)
    ensures n.Some? ==> 2 <= n.value <= |s|
  {
    if |s| < 2 then None
    else if s[0] == STAR && s[1] == SLASH then Some(2)
    else Plus(1, BlockTail(s[1..]))
  }

  datatype CommentStart = NoComment | BadComment | Comment(len: nat)

  predicate IsLineComment(s: seq<Byte>) {
    |s| >= 2 && s[0] == SLASH && s[1] == SLASH
  }

  predicate IsBlockComment(s: seq<Byte>) {
    |s| >= 2 && s[0] == SLASH && s[1] == STAR
  }

  function CommentAt(s: seq<Byte>): (c: CommentStart)
    ensures c.Comment? ==> 2 <= c.len <= |s|
    ensures !c.NoComment? ==> s != [] && s[0] == SLASH
  {
    if IsLineComment(s) then
      var n := LineTail(s[2..]);
      if n.Some? then Comment(2 + n.value) else BadComment
    else if IsBlockComment(s) then
      var n := BlockTail(s[2..]);
      if n.Some? then Comment(2 + n.value) else BadComment
    else NoComment
  }

  // ----- Tokens -----

  /** Length of the atom that starts `s`; with `comments`, a comment ends it. */
  function AtomLen(s: seq<Byte>, comments: bool): (n: nat)
    ensures n <= |s|
    ensures n > 0 <==> s != [] && IsAtomByte(s[0]) && (comments ==> CommentAt(s).NoComment?)
  {
    if s == [] || !IsAtomByte(s[0]) || (comments && !CommentAt(s).NoComment?) then 0
    else 1 + AtomLen(s[1..], comments)
  }

  function Prepend(t: Token, ts: Option<seq<Token>>): Option<seq<Token>> {
    if ts.Some? then Some([t] + ts.value) else None
  }

  /** The tokens of `s`, or None when a string or comment does not end or a line
      comment holds U+2028 or U+2029. Without `comments`, a slash is an atom byte. */
  function Lex(s: seq<Byte>, comments: bool): Option<seq<Token>>
    decreases |s|
  {
    if s == [] then Some([])
    else if s[0] == QUOTE then
      var n := StringLen(s);
      if n.None? then None else Prepend(Str(s[..n.value]), Lex(s[n.value..], comments))
    else if comments && CommentAt(s).BadComment? then None
    else if comments && CommentAt(s).Comment? then Lex(s[CommentAt(s).len..], comments)
    else if IsSpace(s[0]) then Lex(s[1..], comments)
    else if IsPunct(s[0]) then Prepend(Punct(s[0]), Lex(s[1..], comments))
    else
      var n := AtomLen(s, comments);
      Prepend(Atom(s[..n]), Lex(s[n..], comments))
  }

  function TokenBytes(t: Token): seq<Byte> {
    if t.Punct? then [t.b] else t.raw
  }

  /** The token spellings with nothing between them. */
  function Flatten(ts: seq<Token>): seq<Byte> {
    if ts == [] then [] else TokenBytes(ts[0]) + Flatten(ts[1..])
  }

  // ----- Recognisers of tokens -----

  predicate IsHex(b: Byte) {
    0x30 <= b <= 0x39 || 0x41 <= b <= 0x46 || 0x61 <= b <= 0x66
  }

  /** The bytes `"\/bfnrt` that may follow a backslash (RFC 8259, section 7). */
  predicate IsSimpleEscape(b: Byte) {
    b == QUOTE || b == BACKSLASH || b == SLASH ||
    b == 0x62 || b == 0x66 || b == 0x6E || b == 0x72 || b == 0x74
  }

  /** `s` is string content followed by the closing quote and nothing else. */
  predicate AcceptsStringTail(s: seq<Byte>) {
    if s == [] then false
    else if s[0] == QUOTE then |s| == 1
    else if s[0] == BACKSLASH then
      if |s| >= 2 && IsSimpleEscape(s[1]) then AcceptsStringTail(s[2..])
      else |s| >= 6 && s[1] == 0x75 && IsHex(s[2]) && IsHex(s[3]) && IsHex(s[4]) && IsHex(s[5]) &&
           AcceptsStringTail(s[6..])
    else s[0] >= 0x20 && AcceptsStringTail(s[1..])
  }

  predicate AcceptsString(raw: seq<Byte>) {
    raw != [] && raw[0] == QUOTE && AcceptsStringTail(raw[1..])
  }

  predicate IsDigit(b: Byte) {
    0x30 <= b <= 0x39
  }

  /** States of the number recogniser of RFC 8259, section 6. */
  datatype NumberState = Start | Minus | Zero | Int | Dot | Frac | Exp | ExpSign | ExpDigits | Bad

  function NumberStep(st: NumberState, b: Byte): NumberState {
    match st
    case Start => if b == 0x2D then Minus else if b == 0x30 then Zero else if IsDigit(b) then Int else Bad
    case Minus => if b == 0x30 then Zero else if IsDigit(b) then Int else Bad
    case Zero => if b == 0x2E then Dot else if b == 0x65 || b == 0x45 then Exp else Bad
    case Int => if IsDigit(b) then Int else if b == 0x2E then Dot else if b == 0x65 || b == 0x45 then Exp else Bad
    case Dot => if IsDigit(b) then Frac else Bad
    case Frac => if IsDigit(b) then Frac else if b == 0x65 || b == 0x45 then Exp else Bad
    case Exp => if b == 0x2B || b == 0x2D then ExpSign else if IsDigit(b) then ExpDigits else Bad
    case ExpSign => if IsDigit(b) then ExpDigits else Bad
    case ExpDigits => if IsDigit(b) then ExpDigits else Bad
    case Bad => Bad
  }

  function NumberRun(st: NumberState, s: seq<Byte>): NumberState
    decreases |s|
  {
    if s == [] then st else NumberRun(NumberStep(st, s[0]), s[1..])
  }

  predicate IsNumber(s: seq<Byte>) {
    var st := NumberRun(Start, s);
    st.Zero? || st.Int? || st.Frac? || st.ExpDigits?
  }

  /** `true`, `false` and `null`. */
  predicate IsLiteralName(s: seq<Byte>) {
    s == [0x74, 0x72, 0x75, 0x65] || s == [0x66, 0x61, 0x6C, 0x73, 0x65] || s == [0x6E, 0x75, 0x6C, 0x6C]
  }

  predicate AcceptsToken(t: Token) {
    match t
    case Punct(b) => IsPunct(b)
    case Str(raw) => AcceptsString(raw)
    case Atom(raw) => IsNumber(raw) || IsLiteralName(raw)
  }
}
