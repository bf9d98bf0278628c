/**
 Texts of JSON with comments, described without a lexer: tokens with whitespace and
 comments between them. `Lex` is proved to recover exactly the tokens of such a text.
 */
module JsonText {
  import opened Bytes
  import opened JsonLexer
  import opened JsonGrammar
  import opened JsonTree

  /** `Line` ends with a line end; `LastLine` ends with the text. */
  datatype Piece = White(b: Byte) | Line(body: seq<Byte>, end: Byte) | LastLine(body: seq<Byte>)
                 | Block(body: seq<Byte>) | Word(token: Token)

  /** The bytes of a piece followed by `after`. */
  function PieceBytes(p: Piece, after: seq<Byte>): seq<Byte> {
    match p
    case White(b) => [b] + after
    case Line(body, end) => [SLASH, SLASH] + (body + ([end] + after))
    case LastLine(body) => [SLASH, SLASH] + (body + after)
    case Block(body) => [SLASH, STAR] + (body + ([STAR, SLASH] + after))
    case Word(t) => TokenBytes(t) + after
  }

  function Spell(ps: seq<Piece>): seq<Byte> {
    if ps == [] then [] else PieceBytes(ps[0], Spell(ps[1..]))
  }

  function WordTokens(ps: seq<Piece>): seq<Token> {
    if ps == [] then []
    else if ps[0].Word? then [ps[0].token] + WordTokens(ps[1..])
    else WordTokens(ps[1..])
  }

  predicate IsLineEnd(b: Byte) {
    b == CR || b == LF
  }

  /** A line comment holds no line end and neither U+2028 nor U+2029. */
  ghost predicate LineBody(body: seq<Byte>) {
    forall k :: 0 <= k < |body| ==> !IsLineEnd(body[k]) && !IsLineSeparator(body[k..])
  }

  /** A block comment ends at the first closing pair. */
  ghost predicate BlockBody(body: seq<Byte>) {
    forall k :: 0 < k < |body| ==> !(body[k - 1] == STAR && body[k] == SLASH)
  }

  ghost predicate ValidPiece(p: Piece, last: bool) {
    match p
    case White(b) => IsOneOf(b, " \t\r\n")
    case Line(body, end) => LineBody(body) && IsLineEnd(end)
    case LastLine(body) => LineBody(body) && last
    case Block(body) => BlockBody(body)
    case Word(t) => ValidToken(t)
  }

  predicate IsAtomWord(p: Piece) {
    p.Word? && p.token.Atom?
  }

  /** Every piece is valid and no two atoms touch. */
  ghost predicate ValidText(ps: seq<Piece>) {
    ps != [] ==>
      ValidPiece(ps[0], |ps| == 1) &&
      (|ps| > 1 ==> !(IsAtomWord(ps[0]) && IsAtomWord(ps[1]))) &&
      ValidText(ps[1..])
  }

  // ----- Lexing one piece -----

  lemma {:induction false} LineTailOf(body: seq<Byte>, after: seq<Byte>)
    requires LineBody(body) && (after != [] ==> IsLineEnd(after[0]))
    ensures LineTail(body + after) == Some(|body|)
    decreases |body|
  {
    var s := body + after;
    if body == [] {
      assert s == after;
    } else {
      assert body[0..] == body;
      assert forall k :: 0 <= k < |body| - 1 ==> body[1..][k..] == body[k + 1..] && body[1..][k] == body[k + 1];
      LineTailOf(body[1..], after);
      assert s[1..] == body[1..] + after;
      if IsLineSeparator(s) {
        assert s[1] != CR && s[1] != LF && s[2] != CR && s[2] != LF;
        assert IsLineSeparator(body);
      }
    }
  }

  lemma {:induction false} BlockTailOf(body: seq<Byte>, after: seq<Byte>)
    requires BlockBody(body)
    ensures BlockTail(body + ([STAR, SLASH] + after)) == Some(|body| + 2)
    decreases |body|
  {
    var s := body + ([STAR, SLASH] + after);
    if body == [] {
    } else {
      BlockTailOf(body[1..], after);
      assert s[1..] == body[1..] + ([STAR, SLASH] + after);
      assert |body| == 1 ==> s[1] == STAR;
    }
  }

  lemma {:induction false} PlainBytes(plain: seq<Byte>, after: seq<Byte>)
    requires forall k :: 0 <= k < |plain| ==> plain[k] != QUOTE && plain[k] != BACKSLASH
    ensures StringTail(plain + after) == Plus(|plain|, StringTail(after))
    decreases |plain|
  {
    if plain == [] {
      assert plain + after == after;
    } else {
      PlainBytes(plain[1..], after);
      assert (plain + after)[1..] == plain[1..] + after;
    }
  }

  lemma {:induction false} StringTailOf(tail: seq<Byte>, after: seq<Byte>)
    requires AcceptsStringTail(tail)
    ensures StringTail(tail + after) == Some(|tail|)
    decreases |tail|
  {
    var s := tail + after;
    if tail[0] == BACKSLASH {
      if IsSimpleEscape(tail[1]) {
        StringTailOf(tail[2..], after);
        assert s[2..] == tail[2..] + after;
      } else {
        StringTailOf(tail[6..], after);
        var rest := tail[6..] + after;
        assert s[2..] == [tail[2], tail[3], tail[4], tail[5]] + rest;
        PlainBytes([tail[2], tail[3], tail[4], tail[5]], rest);
      }
    } else if tail[0] != QUOTE {
      StringTailOf(tail[1..], after);
      assert s[1..] == tail[1..] + after;
    }
  }

  /** `after` cannot continue an atom. */
  predicate EndsAtom(after: seq<Byte>, comments: bool) {
    after == [] || !IsAtomByte(after[0]) || (comments && !CommentAt(after).NoComment?)
  }

  lemma {:induction false} AtomLenOf(raw: seq<Byte>, after: seq<Byte>, comments: bool)
    requires forall k :: 0 <= k < |raw| ==> IsAtomByte(raw[k]) && (comments ==> raw[k] != SLASH)
    requires EndsAtom(after, comments)
    ensures AtomLen(raw + after, comments) == |raw|
    decreases |raw|
  {
    if raw == [] {
      assert raw + after == after;
    } else {
      AtomLenOf(raw[1..], after, comments);
      assert (raw + after)[1..] == raw[1..] + after;
      assert (raw + after)[0] == raw[0];
    }
  }

  lemma LineCommentAt(s: seq<Byte>, body: seq<Byte>, after: seq<Byte>)
    requires s == [SLASH, SLASH] + (body + after) && LineBody(body) && (after != [] ==> IsLineEnd(after[0]))
    ensures CommentAt(s) == Comment(2 + |body|) && s[2 + |body|..] == after
  {
    LineTailOf(body, after);
    assert s[2..] == body + after;
  }

  lemma BlockCommentAt(s: seq<Byte>, body: seq<Byte>, after: seq<Byte>)
    requires s == [SLASH, STAR] + (body + ([STAR, SLASH] + after)) && BlockBody(body)
    ensures CommentAt(s) == Comment(4 + |body|) && s[4 + |body|..] == after
  {
    BlockTailOf(body, after);
    assert s[2..] == body + ([STAR, SLASH] + after);
    assert (body + ([STAR, SLASH] + after))[|body| + 2..] == after;
  }

  /** Where a comment piece starts, the lexer sees that comment. */
  lemma CommentPiece(p: Piece, after: seq<Byte>)
    requires ValidPiece(p, after == []) && (p.Line? || p.LastLine? || p.Block?)
    ensures CommentAt(PieceBytes(p, after)).Comment?
    ensures PieceBytes(p, after)[CommentAt(PieceBytes(p, after)).len..] == if p.Line? then [p.end] + after else after
  {
    match p
    case Line(body, end) => LineCommentAt(PieceBytes(p, after), body, [end] + after);
    case LastLine(body) => LineCommentAt(PieceBytes(p, after), body, after);
    case Block(body) => BlockCommentAt(PieceBytes(p, after), body, after);
  }

  /** A piece that is not an atom ends an atom before it. */
  lemma PieceEndsAtom(p: Piece, after: seq<Byte>)
    requires ValidPiece(p, after == []) && !IsAtomWord(p)
    ensures EndsAtom(PieceBytes(p, after), true)
  {
    if !p.White? && !p.Word? {
      CommentPiece(p, after);
    }
  }

  lemma LexSpace(b: Byte, after: seq<Byte>)
    requires IsSpace(b)
    ensures Lex([b] + after, true) == Lex(after, true)
  {
    assert ([b] + after)[1..] == after;
  }

  lemma LexMark(b: Byte, after: seq<Byte>)
    requires IsPunct(b)
    ensures Lex([b] + after, true) == Prepend(Punct(b), Lex(after, true))
  {
    assert ([b] + after)[1..] == after;
  }

  lemma LexLiteral(raw: seq<Byte>, after: seq<Byte>)
    requires AcceptsString(raw)
    ensures Lex(raw + after, true) == Prepend(Str(raw), Lex(after, true))
  {
    var s := raw + after;
    StringTailOf(raw[1..], after);
    assert s[0] == QUOTE && s[1..] == raw[1..] + after;
    assert s[..|raw|] == raw && s[|raw|..] == after;
  }

  lemma LexWord(t: Token, after: seq<Byte>)
    requires ValidToken(t) && (t.Atom? ==> EndsAtom(after, true))
    ensures Lex(TokenBytes(t) + after, true) == Prepend(t, Lex(after, true))
  {
    var s := TokenBytes(t) + after;
    match t
    case Punct(b) =>
      LexMark(b, after);
    case Str(raw) =>
      StringExactly(raw);
      LexLiteral(raw, after);
    case Atom(raw) =>
      AtomBytes(raw);
      AtomLenOf(raw, after, true);
      assert s[0] == raw[0] && s[..|raw|] == raw && s[|raw|..] == after;
      assert CommentAt(s).NoComment?;
  }

  /** Lexing a piece yields its token, if it is one, and goes on behind it. */
  lemma LexPiece(p: Piece, after: seq<Byte>)
    requires ValidPiece(p, after == [])
    requires IsAtomWord(p) ==> EndsAtom(after, true)
    ensures Lex(PieceBytes(p, after), true) ==
            if p.Word? then Prepend(p.token, Lex(after, true)) else Lex(after, true)
  {
    if p.Word? {
      LexWord(p.token, after);
    } else if p.White? {
      LexSpace(p.b, after);
    } else {
      CommentPiece(p, after);
      if p.Line? {
        LexSpace(p.end, after);
      }
    }
  }

  // ----- Lexing a text -----

  lemma SpellNotEmpty(ps: seq<Piece>)
    requires ValidText(ps)
    ensures Spell(ps) == [] <==> ps == []
  {
    if ps != [] && IsAtomWord(ps[0]) {
      AtomBytes(ps[0].token.raw);
    }
  }

  lemma TextEndsAtom(ps: seq<Piece>)
    requires ValidText(ps) && (ps != [] ==> !IsAtomWord(ps[0]))
    ensures EndsAtom(Spell(ps), true)
  {
    if ps != [] {
      SpellNotEmpty(ps[1..]);
      PieceEndsAtom(ps[0], Spell(ps[1..]));
    }
  }

  lemma LexFirst(ps: seq<Piece>)
    requires ps != [] && ValidText(ps)
    ensures Lex(Spell(ps), true) ==
            if ps[0].Word? then Prepend(ps[0].token, Lex(Spell(ps[1..]), true)) else Lex(Spell(ps[1..]), true)
  {
    var after := Spell(ps[1..]);
    SpellNotEmpty(ps[1..]);
    if IsAtomWord(ps[0]) {
      TextEndsAtom(ps[1..]);
    }
    LexPiece(ps[0], after);
  }

  /** Lexing a text recovers its tokens; whitespace and comments leave no trace. */
  lemma {:induction false} LexText(ps: seq<Piece>)
    requires ValidText(ps)
    ensures Lex(Spell(ps), true) == Some(WordTokens(ps))
    decreases |ps|
  {
    if ps == [] {
    } else {
      LexText(ps[1..]);
      LexFirst(ps);
    }
  }

  lemma {:induction false} LineTailBody(s: seq<Byte>)
    requires LineTail(s).Some?
    ensures var n := LineTail(s).value; LineBody(s[..n]) && (n < |s| ==> IsLineEnd(s[n]))
    decreases |s|
  {
    var n := LineTail(s).value;
    if n == 0 {
    } else {
      LineTailBody(s[1..]);
      var body, rest := s[..n], s[1..][..n - 1];
      assert body[1..] == rest;
      forall k | 0 <= k < n ensures !IsLineEnd(body[k]) && !IsLineSeparator(body[k..]) {
        if k > 0 {
          assert body[k] == rest[k - 1] && body[k..] == rest[k - 1..];
        }
      }
    }
  }

  lemma {:induction false} BlockTailBody(s: seq<Byte>)
    requires BlockTail(s).Some?
    ensures var n := BlockTail(s).value; BlockBody(s[..n - 2]) && s[..n] == s[..n - 2] + [STAR, SLASH]
    decreases |s|
  {
    if !(s[0] == STAR && s[1] == SLASH) {
      var n := BlockTail(s).value;
      BlockTailBody(s[1..]);
      var body, rest := s[..n - 2], s[1..][..n - 3];
      assert body[1..] == rest && s[1..][..n - 1] == s[1..n];
      forall k | 0 < k < |body| ensures !(body[k - 1] == STAR && body[k] == SLASH) {
        if k > 1 {
          assert body[k] == rest[k - 1] && body[k - 1] == rest[k - 2];
        }
      }
    }
  }

  lemma {:induction false} AtomIsMaximal(s: seq<Byte>, comments: bool)
    ensures EndsAtom(s[AtomLen(s, comments)..], comments)
    decreases |s|
  {
    var n := AtomLen(s, comments);
    if n > 0 {
      AtomIsMaximal(s[1..], comments);
      assert s[1..][n - 1..] == s[n..];
    } else {
      assert s[0..] == s;
    }
  }

  lemma AtomStartsAtom(raw: seq<Byte>, after: seq<Byte>)
    requires ValidToken(Atom(raw))
    ensures !EndsAtom(raw + after, true)
  {
    AtomBytes(raw);
    assert (raw + after)[0] == raw[0];
  }

  lemma PieceThenText(p: Piece, ps: seq<Piece>)
    requires ValidPiece(p, ps == []) && ValidText(ps)
    requires IsAtomWord(p) ==> EndsAtom(Spell(ps), true)
    ensures var all := [p] + ps;
      ValidText(all) && Spell(all) == PieceBytes(p, Spell(ps)) &&
      WordTokens(all) == if p.Word? then [p.token] + WordTokens(ps) else WordTokens(ps)
  {
    assert ([p] + ps)[1..] == ps;
    if ps != [] && IsAtomWord(ps[0]) {
      AtomStartsAtom(ps[0].token.raw, Spell(ps[1..]));
    }
  }

  /** A comment is its two opening bytes, its body and its end. */
  lemma SplitComment(s: seq<Byte>, n: nat, body: seq<Byte>, end: seq<Byte>)
    requires 2 <= n <= |s| && s[2..][..n - 2] == body + end
    ensures s == [s[0], s[1]] + (body + (end + s[n..]))
  {
    assert s[2..] == s[2..][..n - 2] + s[n..];
    assert body + (end + s[n..]) == (body + end) + s[n..];
  }

  lemma BlockThenText(s: seq<Byte>, ps: seq<Piece>) returns (all: seq<Piece>)
    requires ValidText(ps) && IsBlockComment(s) && CommentAt(s).Comment? && Spell(ps) == s[CommentAt(s).len..]
    ensures ValidText(all) && Spell(all) == s && WordTokens(all) == WordTokens(ps)
  {
    var n := CommentAt(s).len;
    BlockTailBody(s[2..]);
    var body := s[2..][..n - 4];
    SplitComment(s, n, body, [STAR, SLASH]);
    PieceThenText(Block(body), ps);
    all := [Block(body)] + ps;
  }

  lemma WordStart(t: Token)
    requires ValidToken(t)
    ensures TokenBytes(t) != [] && !IsSpace(TokenBytes(t)[0]) && TokenBytes(t)[0] != SLASH
  {
    match t
    case Punct(b) =>
    case Str(_) =>
    case Atom(raw) => AtomBytes(raw);
  }

  lemma LineEndIsWhite(ps: seq<Piece>)
    requires ps != [] && ValidText(ps) && Spell(ps) != [] && IsLineEnd(Spell(ps)[0])
    ensures ps[0] == White(Spell(ps)[0])
  {
    if ps[0].Word? { WordStart(ps[0].token); }
  }

  lemma LineThenText(s: seq<Byte>, ps: seq<Piece>) returns (all: seq<Piece>)
    requires ValidText(ps) && IsLineComment(s) && CommentAt(s).Comment? && Spell(ps) == s[CommentAt(s).len..]
    ensures ValidText(all) && Spell(all) == s && WordTokens(all) == WordTokens(ps)
  {
    var n := CommentAt(s).len;
    LineTailBody(s[2..]);
    var body := s[2..][..n - 2];
    assert s[2..][..n - 2] == body + [];
    SplitComment(s, n, body, []);
    assert [] + s[n..] == s[n..];
    SpellNotEmpty(ps);
    if ps == [] {
      PieceThenText(LastLine(body), ps);
      all := [LastLine(body)] + ps;
    } else {
      assert s[n] == s[2..][n - 2];
      LineEndIsWhite(ps);
      PieceThenText(Line(body, s[n]), ps[1..]);
      all := [Line(body, s[n])] + ps[1..];
    }
  }

  predicate IsFiller(s: seq<Byte>, n: nat) {
    CommentAt(s) == Comment(n) || (s != [] && IsSpace(s[0]) && n == 1)
  }

  lemma LexFiller(s: seq<Byte>, n: nat)
    requires IsFiller(s, n)
    ensures Lex(s, true) == Lex(s[n..], true)
  {
  }

  lemma FillerThenText(s: seq<Byte>, n: nat, ps: seq<Piece>) returns (all: seq<Piece>)
    requires IsFiller(s, n) && ValidText(ps) && Spell(ps) == s[n..]
    ensures ValidText(all) && Spell(all) == s && WordTokens(all) == WordTokens(ps)
  {
    if IsSpace(s[0]) {
      PieceThenText(White(s[0]), ps);
      all := [White(s[0])] + ps;
    } else if IsBlockComment(s) {
      all := BlockThenText(s, ps);
    } else {
      all := LineThenText(s, ps);
    }
  }

  /** A text that starts with neither a comment nor whitespace starts with its first token. */
  lemma LexHead(s: seq<Byte>, ts: seq<Token>) returns (n: nat)
    requires s != [] && !IsSpace(s[0]) && !CommentAt(s).Comment? && Lex(s, true) == Some(ts)
    ensures 0 < n <= |s| && ts != [] && s == TokenBytes(ts[0]) + s[n..]
    ensures Lex(s[n..], true) == Some(ts[1..]) && (ts[0].Atom? ==> EndsAtom(s[n..], true))
  {
    n := if s[0] == QUOTE then StringLen(s).value else if IsPunct(s[0]) then 1 else AtomLen(s, true);
    if IsAtomByte(s[0]) {
      AtomIsMaximal(s, true);
    }
    var after := Lex(s[n..], true);
    assert ts == [ts[0]] + after.value;
    assert s == s[..n] + s[n..];
  }

  lemma HeadThenText(s: seq<Byte>, n: nat, ts: seq<Token>, more: seq<Piece>) returns (ps: seq<Piece>)
    requires 0 < n <= |s| && ts != [] && ValidToken(ts[0]) && s == TokenBytes(ts[0]) + s[n..]
    requires ts[0].Atom? ==> EndsAtom(s[n..], true)
    requires ValidText(more) && Spell(more) == s[n..] && WordTokens(more) == ts[1..]
    ensures ValidText(ps) && Spell(ps) == s && WordTokens(ps) == ts
  {
    PieceThenText(Word(ts[0]), more);
    ps := [Word(ts[0])] + more;
    assert ts == [ts[0]] + ts[1..];
  }

  /** Conversely, whatever lexes to valid tokens is a text with those tokens. */
  lemma {:induction false} TextOf(s: seq<Byte>, ts: seq<Token>) returns (ps: seq<Piece>)
    requires Lex(s, true) == Some(ts) && forall k :: 0 <= k < |ts| ==> ValidToken(ts[k])
    ensures ValidText(ps) && Spell(ps) == s && WordTokens(ps) == ts
    decreases |s|
  {
    if s == [] {
      return [];
    }
    var c := CommentAt(s);
    if c.Comment? || IsSpace(s[0]) {
      var n := if c.Comment? then c.len else 1;
      LexFiller(s, n);
      var more := TextOf(s[n..], ts);
      ps := FillerThenText(s, n, more);
    } else {
      var n := LexHead(s, ts);
      assert ValidToken(ts[0]) && forall k :: 0 <= k < |ts[1..]| ==> ts[1..][k] == ts[k + 1];
      var more := TextOf(s[n..], ts[1..]);
      ps := HeadThenText(s, n, ts, more);
    }
  }
}
