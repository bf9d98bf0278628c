/** The normaliser of host.json as the worker runs it: three passes over byte buffers. */
module HostConfigurationNormalizer {
  import opened Bytes
  import opened HostConfiguration
  import opened JsonLexer
  import opened JsonTree
  import opened JsonNormalizer
  import opened NormalizerCorrectness

  /** Index behind the literal whose content goes on at `i`. */
  ghost function EndFrom(content: seq<Byte>, i: nat): Option<nat> {
    if i <= |content| then Plus(i, StringTail(content[i..])) else None
  }

  lemma EndFromStep(content: seq<Byte>, i: nat)
    requires i < |content|
    ensures EndFrom(content, i) ==
            if content[i] == BACKSLASH then EndFrom(content, i + 2)
            else if content[i] == QUOTE then Some(i + 1)
            else EndFrom(content, i + 1)
  {
    var s := content[i..];
    assert s[1..] == content[i + 1..] && (|s| >= 2 ==> s[2..] == content[i + 2..]);
  }

  /** Index just behind the string literal that starts at `start`. */
  method StringEnd(content: seq<Byte>, start: nat) returns (end: Option<nat>)
    requires start < |content| && content[start] == QUOTE
    ensures end == Plus(start, StringLen(content[start..]))
    ensures end.Some? ==> start < end.value <= |content|
  {
    var i := start + 1;
    ghost var goal := Plus(start, StringLen(content[start..]));
    assert content[start..][1..] == content[i..];
    while i < |content|
      invariant start + 1 <= i
      invariant goal == EndFrom(content, i)
    {
      EndFromStep(content, i);
      if content[i] == BACKSLASH {
        i := i + 2;
      } else if content[i] == QUOTE {
        return Some(i + 1);
      } else {
        i := i + 1;
      }
    }
    return None;
  }

  /** Index of the line end behind a line comment whose body starts at `start`. */
  method LineCommentEnd(content: seq<Byte>, start: nat) returns (end: Option<nat>)
    requires start <= |content|
    ensures end == Plus(start, LineTail(content[start..]))
  {
    var i := start;
    while i < |content| && content[i] != CR && content[i] != LF
      invariant start <= i <= |content|
      invariant Plus(start, LineTail(content[start..])) == Plus(i, LineTail(content[i..]))
    {
      if i + 2 < |content| && content[i] == 0xE2 && content[i + 1] == 0x80 &&
         (content[i + 2] == 0xA8 || content[i + 2] == 0xA9) {
        assert IsLineSeparator(content[i..]);
        return None;
      }
      assert !IsLineSeparator(content[i..]) && content[i..][1..] == content[i + 1..];
      i := i + 1;
    }
    return Some(i);
  }

  /** One turn of the first pass: what is copied for the bytes from `i` to `end`. */
  method NextPiece(content: seq<Byte>, i: nat) returns (end: Option<nat>, piece: seq<Byte>)
    requires i < |content|
    ensures end.None? ==> Strip(content[i..]).None?
    ensures end.Some? ==>
              i < end.value <= |content| &&
              Strip(content[i..]) == Join(piece, Strip(content[end.value..]))
  {
    ghost var rest := content[i..];
    piece := [BLANK];
    if content[i] == QUOTE {
      end := StringEnd(content, i);
      if end.Some? {
        piece := content[i..end.value];
        assert piece == rest[..end.value - i];
      }
    } else if i + 1 < |content| && content[i] == SLASH && content[i + 1] == SLASH {
      assert IsLineComment(rest) && rest[2..] == content[i + 2..];
      end := LineCommentEnd(content, i + 2);
    } else if i + 1 < |content| && content[i] == SLASH && content[i + 1] == STAR {
      assert !IsLineComment(rest) && IsBlockComment(rest) && rest[2..] == content[i + 2..];
      end := Plus(i + 2, BlockTail(content[i + 2..]));
    } else {
      assert CommentAt(rest).NoComment?;
      end, piece := Some(i + 1), [content[i]];
    }
    assert end.Some? ==> rest[end.value - i..] == content[end.value..];
  }

  /** First pass. */
  method StripComments(content: seq<Byte>) returns (result: Option<seq<Byte>>)
    ensures result == Strip(content)
  {
    var stripped: seq<Byte> := [];
    var i := 0;
    assert content[0..] == content;
    JoinAssoc([], [], Strip(content));
    while i < |content|
      invariant 0 <= i <= |content|
      invariant Strip(content) == Join(stripped, Strip(content[i..]))
    {
      var end, piece := NextPiece(content, i);
      if end.None? {
        return None;
      }
      JoinAssoc(stripped, piece, Strip(content[end.value..]));
      stripped := stripped + piece;
      i := end.value;
    }
    assert stripped + [] == stripped;
    return Some(stripped);
  }

  /** What the second pass makes of the bytes from `i` on. */
  ghost function BlankFrom(was: seq<Byte>, i: nat, previous: Byte, depth: int): Option<seq<Byte>>
    requires i <= |was|
  {
    Blank(was[i..], previous, depth)
  }

  lemma BlankFromString(was: seq<Byte>, i: nat, end: nat, previous: Byte, depth: int)
    requires i < |was| && was[i] == QUOTE && Plus(i, StringLen(was[i..])) == Some(end)
    ensures i < end <= |was| && was[end - 1] == QUOTE
    ensures BlankFrom(was, i, previous, depth) == Join(was[i..end], BlankFrom(was, end, QUOTE, depth))
  {
    assert was[i..][..end - i] == was[i..end] && was[i..][end - i..] == was[end..];
    assert was[i..][end - i - 1] == was[end - 1];
  }

  /** Is the first byte behind index `i` that is not whitespace a closing bracket? */
  method ClosesAfter(stripped: array<Byte>, i: nat) returns (closes: bool)
    requires i < stripped.Length
    ensures closes == ClosesNext(stripped[i + 1..])
  {
    var next := i + 1;
    while next < stripped.Length && IsSpace(stripped[next])
      invariant i < next <= stripped.Length
      invariant ClosesNext(stripped[i + 1..]) == ClosesNext(stripped[next..])
    {
      assert stripped[next..][1..] == stripped[next + 1..];
      next := next + 1;
    }
    return next < stripped.Length && (stripped[next] == RBRACE || stripped[next] == RBRACKET);
  }

  /** One turn of the second pass on a byte that starts no string. */
  method BlankByte(stripped: array<Byte>, i: nat, previous: Byte, depth: int) returns (ok: bool, depth': int)
    requires i < stripped.Length && stripped[i] != QUOTE
    modifies stripped
    ensures stripped[..i] == old(stripped[..i]) && stripped[i + 1..] == old(stripped[i + 1..])
    ensures Blank(old(stripped[i..]), previous, depth) ==
            if !ok then None
            else Join([stripped[i]],
                 Blank(stripped[i + 1..], if IsSpace(stripped[i]) then previous else stripped[i], depth'))
  {
    assert stripped[i..][1..] == stripped[i + 1..];
    ok, depth' := true, depth;
    if stripped[i] == LBRACE || stripped[i] == LBRACKET {
      depth' := depth + 1;
      if depth' > MAX_DEPTH {
        ok := false;
      }
    } else if stripped[i] == RBRACE || stripped[i] == RBRACKET {
      depth' := depth - 1;
    } else if stripped[i] == COMMA {
      var closes := ClosesAfter(stripped, i);
      if closes && previous != LBRACKET && previous != LBRACE && previous != COMMA && previous != COLON {
        stripped[i] := BLANK;
      }
    }
  }

  /** One turn of the second pass: the bytes from `i` to `next` are done, those behind it are as they were. */
  method BlankTurn(stripped: array<Byte>, i: nat, previous: Byte, depth: int)
    returns (ok: bool, next: nat, previous': Byte, depth': int)
    requires i < stripped.Length
    modifies stripped
    ensures ok ==> i < next <= stripped.Length
    ensures ok ==> stripped[..i] == old(stripped[..i]) && stripped[next..] == old(stripped[next..])
    ensures BlankFrom(old(stripped[..]), i, previous, depth) ==
            if !ok then None else Join(stripped[i..next], BlankFrom(old(stripped[..]), next, previous', depth'))
  {
    ghost var was := stripped[..];
    assert was[i..] == stripped[i..] && was[i + 1..] == stripped[i + 1..];
    ok, next, previous', depth' := true, i + 1, previous, depth;
    if stripped[i] == QUOTE {
      var end := StringEnd(stripped[..], i);
      if end.None? {
        ok := false;
        return;
      }
      BlankFromString(was, i, end.value, previous, depth);
      next := end.value;
    } else {
      ok, depth' := BlankByte(stripped, i, previous, depth);
    }
    assert ok && next == i + 1 ==> stripped[i..next] == [stripped[i]];
    if ok && !IsSpace(stripped[next - 1]) {
      previous' := stripped[next - 1];
    }
  }

  /** Second pass, in place. */
  method BlankTrailingCommas(stripped: array<Byte>) returns (ok: bool)
    modifies stripped
    ensures ok <==> Blank(old(stripped[..]), 0, 0).Some?
    ensures ok ==> Some(stripped[..]) == Blank(old(stripped[..]), 0, 0)
  {
    ghost var was := stripped[..];
    ghost var goal := Blank(was, 0, 0);
    var depth: int, previous: Byte, i := 0, 0, 0;
    assert was[0..] == was && stripped[..0] == [];
    JoinAssoc([], [], goal);
    while i < stripped.Length
      invariant 0 <= i <= stripped.Length == |was|
      invariant stripped[i..] == was[i..]
      invariant goal == Join(stripped[..i], BlankFrom(was, i, previous, depth))
    {
      ghost var start, done, now := i, stripped[..i], stripped[..];
      assert now[i..] == was[i..];
      ok, i, previous, depth := BlankTurn(stripped, i, previous, depth);
      if !ok {
        return false;
      }
      assert now[i..] == was[i..] by { assert now[start..][i - start..] == was[start..][i - start..]; }
      assert stripped[..i] == done + stripped[start..i];
      JoinAssoc(done, stripped[start..i], BlankFrom(was, i, previous, depth));
    }
    assert stripped[..i] == stripped[..] && stripped[..] + [] == stripped[..];
    return true;
  }

  /** The whole normaliser. It delivers `output` exactly for the spellings of a deliverable
      document whose compact strict form is `output`, and blames only the size when it should. */
  method NormalizeHostConfiguration(content: seq<Byte>) returns (result: Outcome)
    ensures result == Normalize(content)
    ensures result.Ok? <==> |content| <= 65536 && exists ps, j :: Spells(content, ps, j) && Deliverable(j)
    ensures forall ps, j :: |content| <= 65536 && Spells(content, ps, j) && Deliverable(j) ==>
              result == Ok(Compacted(j))
    ensures result == Failed(Oversized) <==> |content| > 65536
  {
    NormalizeOversized(content);
    forall output {
      NormalizeExact(content, output);
    }
    if |content| > MAX_BYTES {
      return Failed(Oversized);
    }
    if |content| == 0 {
      return Failed(InvalidJson);
    }
    StripLex(content);
    var kept := StripComments(content);
    if kept.None? {
      return Failed(InvalidJson);
    }
    var stripped := new Byte[|kept.value|](i requires 0 <= i < |kept.value| => kept.value[i]);
    assert stripped[..] == kept.value;
    var ok := BlankTrailingCommas(stripped);
    if !ok {
      return Failed(InvalidJson);
    }
    var output := Compact(stripped[..]);
    if output.None? {
      return Failed(InvalidJson);
    }
    if |output.value| > MAX_BYTES {
      return Failed(Oversized);
    }
    if |output.value| == 0 || output.value[0] != LBRACE {
      return Failed(InvalidJson);
    }
    return Ok(output.value);
  }
}
