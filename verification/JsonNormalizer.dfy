/**
 The three passes that turn host.json text with comments and trailing commas into compact
 strict JSON, as functions, and what their composition accepts and produces.
 */
module JsonNormalizer {
  import opened Bytes
  import opened HostConfiguration
  import opened JsonLexer
  import opened JsonTree
  import opened JsonText

  function Join(head: seq<Byte>, tail: Option<seq<Byte>>): Option<seq<Byte>> {
    if tail.Some? then Some(head + tail.value) else None
  }

  /** First pass: string literals are copied, each comment becomes one blank. */
  function Strip(s: seq<Byte>): Option<seq<Byte>>
    decreases |s|
  {
    if s == [] then Some([])
    else if s[0] == QUOTE then
      var n := StringLen(s);
      if n.None? then None else Join(s[..n.value], Strip(s[n.value..]))
    else if CommentAt(s).BadComment? then None
    else if CommentAt(s).Comment? then Join([BLANK], Strip(s[CommentAt(s).len..]))
    else Join([s[0]], Strip(s[1..]))
  }

  /** Is the next byte that is not whitespace a closing bracket? */
  predicate ClosesNext(s: seq<Byte>)
    decreases |s|
  {
    s != [] && if IsSpace(s[0]) then ClosesNext(s[1..]) else s[0] == RBRACE || s[0] == RBRACKET
  }

  /** Second pass: checks nesting and blanks trailing commas. `previous` is the last byte
      kept so far that is not whitespace. */
  function Blank(s: seq<Byte>, previous: Byte, depth: int): Option<seq<Byte>>
    decreases |s|
  {
    if s == [] then Some([])
    else if s[0] == QUOTE then
      var n := StringLen(s);
      if n.None? then None else Join(s[..n.value], Blank(s[n.value..], QUOTE, depth))
    else if s[0] == LBRACE || s[0] == LBRACKET then
      if depth + 1 > MAX_DEPTH then None else Join([s[0]], Blank(s[1..], s[0], depth + 1))
    else if s[0] == RBRACE || s[0] == RBRACKET then Join([s[0]], Blank(s[1..], s[0], depth - 1))
    else if s[0] == COMMA && ClosesNext(s[1..]) && EndsValue(previous)
      then Join([BLANK], Blank(s[1..], previous, depth))
    else Join([s[0]], Blank(s[1..], if IsSpace(s[0]) then previous else s[0], depth))
  }

  /** Third pass: accepts one strict JSON value and removes insignificant whitespace. */
  function Compact(s: seq<Byte>): Option<seq<Byte>> {
    var ts := Lex(s, false);
    if ts.None? then None
    else
      var p := ParseValue(ts.value);
      if p.Parsed? && p.rest == [] then Some(Flatten(ts.value)) else None
  }

  function Normalize(content: seq<Byte>): Outcome {
    if |content| > MAX_BYTES then Failed(Oversized)
    else if content == [] then Failed(InvalidJson)
    else
      var stripped := Strip(content);
      if stripped.None? then Failed(InvalidJson)
      else
        var blanked := Blank(stripped.value, 0, 0);
        if blanked.None? then Failed(InvalidJson)
        else
          var output := Compact(blanked.value);
          if output.None? then Failed(InvalidJson)
          else if |output.value| > MAX_BYTES then Failed(Oversized)
          else if output.value == [] || output.value[0] != LBRACE then Failed(InvalidJson)
          else Ok(output.value)
  }

  // ----- First pass -----

  lemma {:induction false} StringTailStable(s: seq<Byte>, after: seq<Byte>)
    requires StringTail(s).Some?
    ensures var n := StringTail(s).value; StringTail(s[..n] + after) == Some(n)
    decreases |s|
  {
    var n := StringTail(s).value;
    var t := s[..n] + after;
    if s[0] == BACKSLASH {
      StringTailStable(s[2..], after);
      assert t[2..] == s[2..][..n - 2] + after;
    } else if s[0] != QUOTE {
      StringTailStable(s[1..], after);
      assert t[1..] == s[1..][..n - 1] + after;
    }
  }

  /** A string literal lexes to itself, whatever follows. */
  lemma LexString(s: seq<Byte>, n: nat, after: seq<Byte>)
    requires s != [] && s[0] == QUOTE && StringLen(s) == Some(n)
    ensures Lex(s[..n] + after, false) == Prepend(Str(s[..n]), Lex(after, false))
  {
    var t := s[..n] + after;
    StringTailStable(s[1..], after);
    assert t[1..] == s[1..][..n - 1] + after;
    assert t[..n] == s[..n] && t[n..] == after;
  }

  /** An atom lexes to itself when what follows cannot continue it. */
  lemma LexAtom(raw: seq<Byte>, after: seq<Byte>)
    requires raw != [] && EndsAtom(after, false)
    requires forall k :: 0 <= k < |raw| ==> IsAtomByte(raw[k])
    ensures Lex(raw + after, false) == Prepend(Atom(raw), Lex(after, false))
  {
    var t := raw + after;
    AtomLenOf(raw, after, false);
    assert t[0] == raw[0] && t[..|raw|] == raw && t[|raw|..] == after;
  }

  lemma LexByte(b: Byte, after: seq<Byte>)
    requires IsSpace(b) || IsPunct(b)
    ensures Lex([b] + after, false) == if IsSpace(b) then Lex(after, false) else Prepend(Punct(b), Lex(after, false))
  {
    assert ([b] + after)[1..] == after;
  }

  lemma {:induction false} AtomRun(s: seq<Byte>, comments: bool)
    ensures forall k :: 0 <= k < AtomLen(s, comments) ==> IsAtomByte(s[k])
    decreases |s|
  {
    if AtomLen(s, comments) > 0 {
      AtomRun(s[1..], comments);
      assert forall k :: 1 <= k < AtomLen(s, comments) ==> s[k] == s[1..][k - 1];
    }
  }

  lemma JoinAssoc(a: seq<Byte>, b: seq<Byte>, tail: Option<seq<Byte>>)
    ensures Join(a, Join(b, tail)) == Join(a + b, tail) && Join([], tail) == tail
  {
    if tail.Some? {
      assert a + (b + tail.value) == a + b + tail.value && [] + tail.value == tail.value;
    }
  }

  lemma StripAtomByte(s: seq<Byte>)
    requires AtomLen(s, true) > 0
    ensures Strip(s) == Join([s[0]], Strip(s[1..])) && AtomLen(s[1..], true) == AtomLen(s, true) - 1
  {
  }

  lemma {:induction false} StripAtom(raw: seq<Byte>, after: seq<Byte>)
    requires |raw| <= AtomLen(raw + after, true)
    ensures Strip(raw + after) == Join(raw, Strip(after))
    decreases |raw|
  {
    JoinAssoc([], [], Strip(after));
    if raw == [] {
      assert raw + after == after;
    } else {
      StripAtomByte(raw + after);
      assert (raw + after)[1..] == raw[1..] + after && (raw + after)[0] == raw[0];
      StripAtom(raw[1..], after);
      JoinAssoc([raw[0]], raw[1..], Strip(after));
      assert [raw[0]] + raw[1..] == raw;
    }
  }

  lemma StripKeepsEnd(s: seq<Byte>)
    requires EndsAtom(s, true) && Strip(s).Some?
    ensures EndsAtom(Strip(s).value, false)
  {
  }

  lemma StripLexAtom(s: seq<Byte>)
    requires AtomLen(s, true) > 0
    ensures var n := AtomLen(s, true);
      Strip(s) == Join(s[..n], Strip(s[n..])) &&
      Lex(s, true) == Prepend(Atom(s[..n]), Lex(s[n..], true)) &&
      (Strip(s).Some? ==> Lex(Strip(s).value, false) == Prepend(Atom(s[..n]), Lex(Strip(s[n..]).value, false)))
  {
    var n := AtomLen(s, true);
    assert s[..n] + s[n..] == s;
    StripAtom(s[..n], s[n..]);
    if Strip(s).Some? {
      AtomRun(s, true);
      AtomIsMaximal(s, true);
      StripKeepsEnd(s[n..]);
      LexAtom(s[..n], Strip(s[n..]).value);
    }
  }

  /** Stripping keeps every token: comments separate tokens exactly as blanks do. It fails
      exactly when the text does not lex, and it never lengthens the text. */
  lemma {:induction false} StripLex(s: seq<Byte>)
    ensures Strip(s).Some? <==> Lex(s, true).Some?
    ensures Strip(s).Some? ==> Lex(Strip(s).value, false) == Lex(s, true) && |Strip(s).value| <= |s|
    decreases |s|
  {
    if s == [] {
    } else {
      if s[0] == QUOTE {
        if StringLen(s).Some? {
          var n := StringLen(s).value;
          StripLex(s[n..]);
          if Strip(s[n..]).Some? {
            LexString(s, n, Strip(s[n..]).value);
          }
        }
      } else if CommentAt(s).Comment? {
        StripLex(s[CommentAt(s).len..]);
        if Strip(s).Some? {
          LexByte(BLANK, Strip(s[CommentAt(s).len..]).value);
        }
      } else if CommentAt(s).NoComment? {
        if IsAtomByte(s[0]) {
          StripLexAtom(s);
          StripLex(s[AtomLen(s, true)..]);
        } else {
          StripLex(s[1..]);
          if Strip(s[1..]).Some? {
            LexByte(s[0], Strip(s[1..]).value);
          }
        }
      }
    }
  }

  lemma StripString(s: seq<Byte>, n: nat, after: seq<Byte>)
    requires s != [] && s[0] == QUOTE && StringLen(s) == Some(n)
    ensures Strip(s[..n] + after) == Join(s[..n], Strip(after))
  {
    var t := s[..n] + after;
    StringTailStable(s[1..], after);
    assert t[1..] == s[1..][..n - 1] + after;
    assert t[..n] == s[..n] && t[n..] == after;
  }

  /** A byte that starts no comment starts none in the stripped text either. */
  lemma NoNewComment(s: seq<Byte>)
    requires s != [] && CommentAt(s).NoComment? && Strip(s[1..]).Some?
    ensures CommentAt([s[0]] + Strip(s[1..]).value).NoComment?
  {
    var after := Strip(s[1..]).value;
    if s[0] == SLASH && |s| > 1 {
      assert !IsLineComment(s) && !IsBlockComment(s);
      assert s[1] != SLASH && s[1] != STAR && after[0] == s[1];
    }
  }

  /** Stripping leaves no comment behind and creates none. */
  lemma {:induction false} StripIdempotent(s: seq<Byte>)
    requires Strip(s).Some?
    ensures Strip(Strip(s).value) == Strip(s)
    decreases |s|
  {
    if s == [] {
    } else {
      if s[0] == QUOTE {
        var n := StringLen(s).value;
        StripIdempotent(s[n..]);
        StripString(s, n, Strip(s[n..]).value);
      } else if CommentAt(s).Comment? {
        var after := Strip(s[CommentAt(s).len..]).value;
        StripIdempotent(s[CommentAt(s).len..]);
        assert ([BLANK] + after)[1..] == after;
        assert CommentAt([BLANK] + after).NoComment?;
      } else {
        var after := Strip(s[1..]).value;
        StripIdempotent(s[1..]);
        assert ([s[0]] + after)[1..] == after;
        NoNewComment(s);
      }
    }
  }

  // ----- Second pass -----

  lemma {:induction false} ClosesNextLex(s: seq<Byte>)
    requires Lex(s, false).Some?
    ensures var ts := Lex(s, false).value; ClosesNext(s) <==> ts != [] && IsClose(ts[0])
    decreases |s|
  {
    if s != [] && IsSpace(s[0]) {
      ClosesNextLex(s[1..]);
    }
  }

  lemma BlankAtomByte(s: seq<Byte>, previous: Byte, depth: int)
    requires AtomLen(s, false) > 0
    ensures Blank(s, previous, depth) == Join([s[0]], Blank(s[1..], s[0], depth))
    ensures AtomLen(s[1..], false) == AtomLen(s, false) - 1
  {
  }

  lemma {:induction false} BlankAtom(raw: seq<Byte>, after: seq<Byte>, previous: Byte, depth: int)
    requires |raw| <= AtomLen(raw + after, false)
    ensures Blank(raw + after, previous, depth) ==
            Join(raw, Blank(after, if raw == [] then previous else raw[|raw| - 1], depth))
    decreases |raw|
  {
    if raw == [] {
      JoinAssoc([], [], Blank(after, previous, depth));
      assert raw + after == after;
    } else {
      BlankAtomByte(raw + after, previous, depth);
      assert (raw + after)[1..] == raw[1..] + after && (raw + after)[0] == raw[0];
      BlankAtom(raw[1..], after, raw[0], depth);
      JoinAssoc([raw[0]], raw[1..], Blank(after, raw[|raw| - 1], depth));
      assert [raw[0]] + raw[1..] == raw;
    }
  }

  lemma BlankKeepsEnd(s: seq<Byte>, previous: Byte, depth: int)
    requires EndsAtom(s, false) && Blank(s, previous, depth).Some?
    ensures EndsAtom(Blank(s, previous, depth).value, false)
  {
  }

  /** The second pass on `s` checks nesting and drops trailing commas, seen on tokens. */
  ghost predicate BlankMatches(s: seq<Byte>, previous: Byte, depth: int) {
    var ts := Lex(s, false);
    var b := Blank(s, previous, depth);
    ts.Some? &&
    (b.Some? <==> DepthFits(ts.value, depth)) &&
    (b.Some? ==> |b.value| == |s| && Lex(b.value, false) == Some(DropTrailing(previous, ts.value)))
  }

  /** An atom and what the second pass makes of the rest lex to the atom and the kept tokens. */
  lemma BlankAtomTokens(raw: seq<Byte>, rest: seq<Byte>, depth: int)
    requires raw != [] && (forall k :: 0 <= k < |raw| ==> IsAtomByte(raw[k])) && EndsAtom(rest, false)
    requires BlankMatches(rest, raw[|raw| - 1], depth)
    ensures var after := Blank(rest, raw[|raw| - 1], depth);
      after.Some? ==> Lex(raw + after.value, false) == Prepend(Atom(raw), Lex(after.value, false))
  {
    var after := Blank(rest, raw[|raw| - 1], depth);
    if after.Some? {
      BlankKeepsEnd(rest, raw[|raw| - 1], depth);
      LexAtom(raw, after.value);
    }
  }

  /** A string or an atom is kept and leaves the depth alone. */
  lemma DropTrailingFirst(t: Token, ts: seq<Token>, previous: Byte, depth: int)
    requires !t.Punct?
    ensures DropTrailing(previous, [t] + ts) == [t] + DropTrailing(LastByte(t), ts)
    ensures DepthFits([t] + ts, depth) == DepthFits(ts, depth)
  {
    assert ([t] + ts)[1..] == ts;
  }

  lemma BlankAtomMatches(s: seq<Byte>, previous: Byte, depth: int)
    requires AtomLen(s, false) > 0
    requires BlankMatches(s[AtomLen(s, false)..], s[AtomLen(s, false) - 1], depth)
    ensures BlankMatches(s, previous, depth)
  {
    var n := AtomLen(s, false);
    var raw, rest := s[..n], s[n..];
    assert raw + rest == s && raw[n - 1] == s[n - 1];
    BlankAtom(raw, rest, previous, depth);
    AtomRun(s, false);
    AtomIsMaximal(s, false);
    LexAtom(raw, rest);
    BlankAtomTokens(raw, rest, depth);
    DropTrailingFirst(Atom(raw), Lex(rest, false).value, previous, depth);
  }

  lemma BlankStringMatches(s: seq<Byte>, n: nat, previous: Byte, depth: int)
    requires s != [] && s[0] == QUOTE && StringLen(s) == Some(n) && BlankMatches(s[n..], QUOTE, depth)
    ensures BlankMatches(s, previous, depth)
  {
    DropTrailingFirst(Str(s[..n]), Lex(s[n..], false).value, previous, depth);
    if Blank(s[n..], QUOTE, depth).Some? {
      LexString(s, n, Blank(s[n..], QUOTE, depth).value);
    }
  }

  lemma BlankSpaceMatches(s: seq<Byte>, previous: Byte, depth: int)
    requires s != [] && IsSpace(s[0]) && BlankMatches(s[1..], previous, depth)
    ensures BlankMatches(s, previous, depth)
  {
    if Blank(s[1..], previous, depth).Some? {
      LexByte(s[0], Blank(s[1..], previous, depth).value);
    }
  }

  lemma BlankBracketMatches(s: seq<Byte>, previous: Byte, depth: int, next: int)
    requires s != [] && IsPunct(s[0]) && s[0] != COMMA && Lex(s, false).Some?
    requires next == depth + if IsOpen(Punct(s[0])) then 1 else if IsClose(Punct(s[0])) then -1 else 0
    requires (IsOpen(Punct(s[0])) && next > MAX_DEPTH) || BlankMatches(s[1..], s[0], next)
    ensures BlankMatches(s, previous, depth)
  {
    var ts := Lex(s[1..], false).value;
    assert ([Punct(s[0])] + ts)[1..] == ts;
    if Blank(s[1..], s[0], next).Some? {
      LexByte(s[0], Blank(s[1..], s[0], next).value);
    }
  }

  lemma BlankCommaMatches(s: seq<Byte>, previous: Byte, depth: int)
    requires s != [] && s[0] == COMMA
    requires BlankMatches(s[1..], COMMA, depth) && BlankMatches(s[1..], previous, depth)
    ensures BlankMatches(s, previous, depth)
  {
    var ts := Lex(s[1..], false).value;
    var all := [Punct(COMMA)] + ts;
    assert all[1..] == ts && (ts != [] ==> all[1] == ts[0]);
    ClosesNextLex(s[1..]);
    assert ClosesNext(s[1..]) && EndsValue(previous) <==> IsTrailingComma(previous, all);
    if Blank(s[1..], COMMA, depth).Some? {
      LexByte(COMMA, Blank(s[1..], COMMA, depth).value);
    }
    if Blank(s[1..], previous, depth).Some? {
      LexByte(BLANK, Blank(s[1..], previous, depth).value);
    }
  }

  lemma {:induction false} BlankLex(s: seq<Byte>, previous: Byte, depth: int)
    requires Lex(s, false).Some?
    ensures BlankMatches(s, previous, depth)
    decreases |s|
  {
    if s == [] {
    } else if s[0] == QUOTE {
      var n := StringLen(s).value;
      BlankLex(s[n..], QUOTE, depth);
      BlankStringMatches(s, n, previous, depth);
    } else if IsSpace(s[0]) {
      BlankLex(s[1..], previous, depth);
      BlankSpaceMatches(s, previous, depth);
    } else if s[0] == COMMA {
      BlankLex(s[1..], COMMA, depth);
      BlankLex(s[1..], previous, depth);
      BlankCommaMatches(s, previous, depth);
    } else if IsPunct(s[0]) {
      var next := depth + if IsOpen(Punct(s[0])) then 1 else if IsClose(Punct(s[0])) then -1 else 0;
      BlankLex(s[1..], s[0], next);
      BlankBracketMatches(s, previous, depth, next);
    } else {
      var n := AtomLen(s, false);
      BlankLex(s[n..], s[n - 1], depth);
      BlankAtomMatches(s, previous, depth);
    }
  }
}
