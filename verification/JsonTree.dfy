/**
 JSON documents as trees, their token sequences, and a recogniser for strict JSON.

 A tree may carry one trailing comma per non-empty container; `Strict` removes them.
 `ParseValue` is proved to accept exactly the token sequences of strict valid trees.
 */
module JsonTree {
  import opened Bytes
  import opened JsonLexer
  import opened JsonGrammar

  const MAX_DEPTH: nat := 64

  /** `isObject` tells `{` from `[`; array entries have the empty key. */
  datatype Json = Leaf(token: Token) | Box(isObject: bool, entries: Entries, trailing: bool)
  datatype Entries = Done | Entry(key: seq<Byte>, value: Json, rest: Entries)

  function Open(isObject: bool): Token {
    Punct(if isObject then LBRACE else LBRACKET)
  }

  function Close(isObject: bool): Token {
    Punct(if isObject then RBRACE else RBRACKET)
  }

  predicate IsOpen(t: Token) {
    t == Open(true) || t == Open(false)
  }

  predicate IsClose(t: Token) {
    t == Close(true) || t == Close(false)
  }

  /** Tokens are valid, keys are strings, and only a non-empty container has a trailing comma. */
  ghost predicate WellFormed(j: Json)
    decreases j
  {
    match j
    case Leaf(t) => !t.Punct? && ValidToken(t)
    case Box(o, es, trailing) => WellFormedEntries(o, es) && (trailing ==> es.Entry?)
  }

  ghost predicate WellFormedEntries(o: bool, es: Entries)
    decreases es
  {
    es.Entry? ==>
      (if o then IsStringText(es.key) else es.key == []) && WellFormed(es.value) && WellFormedEntries(o, es.rest)
  }

  predicate IsStrict(j: Json) {
    j.Box? ==> !j.trailing && StrictEntries(j.entries)
  }

  predicate StrictEntries(es: Entries) {
    es.Entry? ==> IsStrict(es.value) && StrictEntries(es.rest)
  }

  /** The same document without trailing commas. */
  function Strict(j: Json): Json {
    match j
    case Leaf(_) => j
    case Box(o, es, _) => Box(o, StrictOf(es), false)
  }

  function StrictOf(es: Entries): Entries {
    match es
    case Done => Done
    case Entry(k, v, rest) => Entry(k, Strict(v), StrictOf(rest))
  }

  /** Number of containers around the innermost value. */
  function Depth(j: Json): nat {
    match j
    case Leaf(_) => 0
    case Box(_, es, _) => 1 + DepthOf(es)
  }

  function DepthOf(es: Entries): nat {
    match es
    case Done => 0
    case Entry(_, v, rest) => if Depth(v) < DepthOf(rest) then DepthOf(rest) else Depth(v)
  }

  /** The tokens of `j` followed by `after`. */
  function Tokens(j: Json, after: seq<Token>): (ts: seq<Token>)
    ensures ts != []
    decreases j
  {
    match j
    case Leaf(t) => [t] + after
    case Box(o, es, trailing) => [Open(o)] + EntryTokens(o, es, trailing, [Close(o)] + after)
  }

  function KeyTokens(o: bool, key: seq<Byte>, after: seq<Token>): seq<Token> {
    if o then [Str(key), Punct(COLON)] + after else after
  }

  /** The comma, if any, after an entry that the entries `rest` follow. */
  function Separator(rest: Entries, trailing: bool, after: seq<Token>): seq<Token> {
    if rest.Entry? || trailing then [Punct(COMMA)] + after else after
  }

  function EntryTokens(o: bool, es: Entries, trailing: bool, after: seq<Token>): seq<Token>
    decreases es
  {
    match es
    case Done => after
    case Entry(k, v, rest) =>
      KeyTokens(o, k, Tokens(v, Separator(rest, trailing, EntryTokens(o, rest, trailing, after))))
  }

  lemma {:induction false} TokensAppend(j: Json, after: seq<Token>, more: seq<Token>)
    ensures Tokens(j, after + more) == Tokens(j, after) + more
    decreases j
  {
    match j
    case Leaf(t) => assert [t] + (after + more) == [t] + after + more;
    case Box(o, es, trailing) =>
      EntryTokensAppend(o, es, trailing, [Close(o)] + after, more);
      assert [Close(o)] + (after + more) == [Close(o)] + after + more;
  }

  lemma {:induction false} EntryTokensAppend(o: bool, es: Entries, trailing: bool, after: seq<Token>, more: seq<Token>)
    ensures EntryTokens(o, es, trailing, after + more) == EntryTokens(o, es, trailing, after) + more
    decreases es
  {
    if es.Entry? {
      var tail := EntryTokens(o, es.rest, trailing, after);
      EntryTokensAppend(o, es.rest, trailing, after, more);
      assert Separator(es.rest, trailing, tail + more) == Separator(es.rest, trailing, tail) + more;
      TokensAppend(es.value, Separator(es.rest, trailing, tail), more);
    }
  }

  // ----- Recogniser for strict JSON -----

  datatype Parsed<+T> = Fail | Parsed(tree: T, rest: seq<Token>)

  function ParseValue(ts: seq<Token>): (p: Parsed<Json>)
    ensures p.Parsed? ==> |p.rest| < |ts|
    decreases |ts|, 0
  {
    if ts == [] then Fail
    else if !ts[0].Punct? then (if AcceptsToken(ts[0]) then Parsed(Leaf(ts[0]), ts[1..]) else Fail)
    else if !IsOpen(ts[0]) then Fail
    else
      var o := ts[0] == Open(true);
      if |ts| > 1 && ts[1] == Close(o) then Parsed(Box(o, Done, false), ts[2..])
      else
        var p := ParseEntries(o, ts[1..]);
        if p.Fail? then Fail else Parsed(Box(o, p.tree, false), p.rest)
  }

  /** One or more entries and the closing token. */
  function ParseEntries(o: bool, ts: seq<Token>): (p: Parsed<Entries>)
    ensures p.Parsed? ==> |p.rest| < |ts|
    decreases |ts|, 1
  {
    if o && !(|ts| >= 2 && ts[0].Str? && AcceptsToken(ts[0]) && ts[1] == Punct(COLON)) then Fail
    else
      var key := if o then ts[0].raw else [];
      var v := ParseValue(if o then ts[2..] else ts);
      if v.Fail? || v.rest == [] then Fail
      else if v.rest[0] == Close(o) then Parsed(Entry(key, v.tree, Done), v.rest[1..])
      else if v.rest[0] != Punct(COMMA) then Fail
      else
        var p := ParseEntries(o, v.rest[1..]);
        if p.Fail? then Fail else Parsed(Entry(key, v.tree, p.tree), p.rest)
  }

  /** What the recogniser accepts is the token sequence of a strict, valid tree. */
  lemma {:induction false} ParseSound(ts: seq<Token>)
    requires ParseValue(ts).Parsed?
    ensures var p := ParseValue(ts); ts == Tokens(p.tree, p.rest) && WellFormed(p.tree) && IsStrict(p.tree)
    decreases |ts|, 0
  {
    TokenExactly(ts[0]);
    if ts[0].Punct? {
      var o := ts[0] == Open(true);
      if |ts| > 1 && ts[1] == Close(o) {
        assert ts == [Open(o)] + ([Close(o)] + ts[2..]);
      } else {
        ParseEntriesSound(o, ts[1..]);
      }
    }
  }

  lemma EntryInFront(o: bool, key: seq<Byte>, v: Json, es: Entries, after: seq<Token>)
    ensures EntryTokens(o, Entry(key, v, es), false, after) ==
            KeyTokens(o, key, Tokens(v, if es.Entry? then [Punct(COMMA)] + EntryTokens(o, es, false, after) else after))
  {
  }

  lemma {:induction false} ParseEntriesSound(o: bool, ts: seq<Token>)
    requires ParseEntries(o, ts).Parsed?
    ensures var p := ParseEntries(o, ts);
      ts == EntryTokens(o, p.tree, false, [Close(o)] + p.rest) &&
      p.tree.Entry? && WellFormedEntries(o, p.tree) && StrictEntries(p.tree)
    decreases |ts|, 1
  {
    var start := if o then ts[2..] else ts;
    if o { TokenExactly(ts[0]); }
    ParseSound(start);
    var v := ParseValue(start);
    var key := if o then ts[0].raw else [];
    assert ts == KeyTokens(o, key, start);
    var next := v.rest[1..];
    assert v.rest == [v.rest[0]] + next;
    if v.rest[0] == Close(o) {
      EntryInFront(o, key, v.tree, Done, [Close(o)] + next);
    } else {
      ParseEntriesSound(o, next);
      var p := ParseEntries(o, next);
      EntryInFront(o, key, v.tree, p.tree, [Close(o)] + p.rest);
    }
  }

  /** A value, and so an entry list, starts with neither a closing token nor a comma. */
  lemma ValueStart(j: Json, after: seq<Token>)
    requires WellFormed(j)
    ensures var t := Tokens(j, after)[0]; !IsClose(t) && t != Punct(COMMA) && t != Punct(COLON)
  {
  }

  lemma EntriesStart(o: bool, es: Entries, trailing: bool, after: seq<Token>)
    requires es.Entry? && WellFormedEntries(o, es)
    ensures var ts := EntryTokens(o, es, trailing, after); ts != [] && !IsClose(ts[0]) && ts[0] != Punct(COMMA)
  {
    ValueStart(es.value, Separator(es.rest, trailing, EntryTokens(o, es.rest, trailing, after)));
  }

  /** Every strict, valid tree is recognised from its tokens, whatever follows. */
  lemma {:induction false} ParseComplete(j: Json, after: seq<Token>)
    requires WellFormed(j) && IsStrict(j)
    ensures ParseValue(Tokens(j, after)) == Parsed(j, after)
    decreases j, 0
  {
    if j.Leaf? {
      TokenExactly(j.token);
    } else {
      if j.entries.Done? {
        assert Tokens(j, after)[2..] == after;
      } else {
        var close := [Close(j.isObject)] + after;
        EntriesStart(j.isObject, j.entries, false, close);
        assert Tokens(j, after)[1..] == EntryTokens(j.isObject, j.entries, false, close);
        ParseEntriesComplete(j.isObject, j.entries, after);
      }
    }
  }

  lemma LastEntryParsed(o: bool, key: seq<Byte>, v: Json, start: seq<Token>, after: seq<Token>)
    requires if o then AcceptsToken(Str(key)) else key == []
    requires ParseValue(start) == Parsed(v, [Close(o)] + after)
    ensures ParseEntries(o, KeyTokens(o, key, start)) == Parsed(Entry(key, v, Done), after)
  {
    var ts := KeyTokens(o, key, start);
    assert (if o then ts[2..] else ts) == start;
    assert ([Close(o)] + after)[1..] == after;
  }

  lemma MoreEntriesParsed(
    o: bool, key: seq<Byte>, v: Json, start: seq<Token>, tail: seq<Token>, es: Entries, after: seq<Token>)
    requires if o then AcceptsToken(Str(key)) else key == []
    requires ParseValue(start) == Parsed(v, [Punct(COMMA)] + tail) && ParseEntries(o, tail) == Parsed(es, after)
    ensures ParseEntries(o, KeyTokens(o, key, start)) == Parsed(Entry(key, v, es), after)
  {
    var ts := KeyTokens(o, key, start);
    assert (if o then ts[2..] else ts) == start;
    assert ([Punct(COMMA)] + tail)[1..] == tail;
  }

  lemma {:induction false} ParseEntriesComplete(o: bool, es: Entries, after: seq<Token>)
    requires es.Entry? && WellFormedEntries(o, es) && StrictEntries(es)
    ensures ParseEntries(o, EntryTokens(o, es, false, [Close(o)] + after)) == Parsed(es, after)
    decreases es, 1
  {
    var tail := EntryTokens(o, es.rest, false, [Close(o)] + after);
    var separated := Separator(es.rest, false, tail);
    var start := Tokens(es.value, separated);
    if o { TokenExactly(Str(es.key)); }
    ParseComplete(es.value, separated);
    if es.rest.Entry? {
      ParseEntriesComplete(o, es.rest, after);
      MoreEntriesParsed(o, es.key, es.value, start, tail, es.rest, after);
    } else {
      LastEntryParsed(o, es.key, es.value, start, after);
    }
  }

  // ----- Trailing commas and nesting depth on token sequences -----

  /** May a comma after a token whose last byte is `previous` be trailing? */
  predicate EndsValue(previous: Byte) {
    previous != LBRACKET && previous != LBRACE && previous != COMMA && previous != COLON
  }

  /** The last byte of a token; a string ends with its quote. */
  function LastByte(t: Token): Byte {
    if t.Punct? then t.b else if t.Str? || t.raw == [] then QUOTE else t.raw[|t.raw| - 1]
  }

  predicate IsTrailingComma(previous: Byte, ts: seq<Token>) {
    |ts| >= 2 && ts[0] == Punct(COMMA) && IsClose(ts[1]) && EndsValue(previous)
  }

  /** Removes each comma that stands between a value and a closing token. */
  function DropTrailing(previous: Byte, ts: seq<Token>): seq<Token>
    decreases |ts|
  {
    if ts == [] then []
    else if IsTrailingComma(previous, ts) then DropTrailing(previous, ts[1..])
    else [ts[0]] + DropTrailing(LastByte(ts[0]), ts[1..])
  }

  /** Never more than `MAX_DEPTH` containers open, starting with `depth` of them. */
  predicate DepthFits(ts: seq<Token>, depth: int)
    decreases |ts|
  {
    ts == [] ||
    if IsOpen(ts[0]) then depth + 1 <= MAX_DEPTH && DepthFits(ts[1..], depth + 1)
    else DepthFits(ts[1..], if IsClose(ts[0]) then depth - 1 else depth)
  }

  /** The running bracket count of a document stays within the limit exactly when its depth does. */
  lemma {:induction false} DepthOfTokens(j: Json, after: seq<Token>, depth: nat)
    requires WellFormed(j) && depth <= MAX_DEPTH
    ensures DepthFits(Tokens(j, after), depth) <==> depth + Depth(j) <= MAX_DEPTH && DepthFits(after, depth)
    decreases j
  {
    match j
    case Leaf(t) =>
      assert Tokens(j, after)[1..] == after;
    case Box(o, es, trailing) =>
      var close := [Close(o)] + after;
      assert Tokens(j, after)[1..] == EntryTokens(o, es, trailing, close);
      assert close[1..] == after;
      if depth + 1 <= MAX_DEPTH {
        DepthOfEntries(o, es, trailing, close, depth + 1);
      }
  }

  lemma DepthOfKey(o: bool, key: seq<Byte>, after: seq<Token>, depth: int)
    ensures DepthFits(KeyTokens(o, key, after), depth) == DepthFits(after, depth)
  {
    if o {
      var ts := KeyTokens(o, key, after);
      assert ts[1..] == [Punct(COLON)] + after && ts[1..][1..] == after;
    }
  }

  lemma {:induction false} DepthOfEntries(o: bool, es: Entries, trailing: bool, after: seq<Token>, depth: nat)
    requires WellFormedEntries(o, es) && depth <= MAX_DEPTH
    ensures DepthFits(EntryTokens(o, es, trailing, after), depth) <==>
            depth + DepthOf(es) <= MAX_DEPTH && DepthFits(after, depth)
    decreases es
  {
    if es.Entry? {
      var tail := EntryTokens(o, es.rest, trailing, after);
      var separated := Separator(es.rest, trailing, tail);
      DepthOfKey(o, es.key, Tokens(es.value, separated), depth);
      DepthOfTokens(es.value, separated, depth);
      assert separated != tail ==> separated[1..] == tail;
      DepthOfEntries(o, es.rest, trailing, after, depth);
    }
  }

  /** The last byte of a value's last token. */
  function EndByte(j: Json): Byte {
    if j.Leaf? then LastByte(j.token) else LastByte(Close(j.isObject))
  }

  lemma {:induction false} NumberBytes(st: NumberState, s: seq<Byte>)
    requires !NumberRun(st, s).Bad?
    ensures forall k :: 0 <= k < |s| ==> IsAtomByte(s[k]) && s[k] != SLASH
    ensures !st.Bad?
    decreases |s|
  {
    if s == [] {
    } else {
      NumberBytes(NumberStep(st, s[0]), s[1..]);
      assert forall k :: 1 <= k < |s| ==> s[k] == s[1..][k - 1];
    }
  }

  /** A number or a literal name consists of atom bytes and contains no slash. */
  lemma AtomBytes(raw: seq<Byte>)
    requires ValidToken(Atom(raw))
    ensures raw != [] && forall k :: 0 <= k < |raw| ==> IsAtomByte(raw[k]) && raw[k] != SLASH
  {
    TokenExactly(Atom(raw));
    if IsNumber(raw) {
      NumberBytes(Start, raw);
    }
  }

  lemma EndByteEndsValue(j: Json)
    requires WellFormed(j)
    ensures EndsValue(EndByte(j))
  {
    if j.Leaf? && j.token.Atom? {
      AtomBytes(j.token.raw);
    }
  }

  /** Dropping trailing commas turns the tokens of a document into those of its strict form. */
  lemma {:induction false} DropTrailingTokens(previous: Byte, j: Json, after: seq<Token>)
    requires WellFormed(j)
    ensures DropTrailing(previous, Tokens(j, after)) == Tokens(Strict(j), DropTrailing(EndByte(j), after))
    decreases j, 0
  {
    match j
    case Leaf(t) =>
      assert Tokens(j, after)[1..] == after;
    case Box(o, es, trailing) =>
      assert Tokens(j, after)[1..] == EntryTokens(o, es, trailing, [Close(o)] + after);
      DropTrailingEntries(LastByte(Open(o)), o, es, trailing, after);
  }

  lemma DropTrailingKey(previous: Byte, o: bool, key: seq<Byte>, after: seq<Token>)
    ensures DropTrailing(previous, KeyTokens(o, key, after)) ==
            KeyTokens(o, key, DropTrailing(if o then COLON else previous, after))
  {
    if o {
      var ts := KeyTokens(o, key, after);
      assert ts[1..] == [Punct(COLON)] + after && ts[1..][1..] == after;
    }
  }

  lemma {:induction false} DropTrailingEntries(previous: Byte, o: bool, es: Entries, trailing: bool, after: seq<Token>)
    requires WellFormedEntries(o, es)
    requires es.Done? ==> !trailing
    ensures DropTrailing(previous, EntryTokens(o, es, trailing, [Close(o)] + after)) ==
            EntryTokens(o, StrictOf(es), false, [Close(o)] + DropTrailing(LastByte(Close(o)), after))
    decreases es, 0
  {
    var close := [Close(o)] + after;
    assert close[1..] == after;
    if es.Entry? {
      var tail := EntryTokens(o, es.rest, trailing, close);
      var separated := Separator(es.rest, trailing, tail);
      DropTrailingKey(previous, o, es.key, Tokens(es.value, separated));
      DropTrailingTokens(if o then COLON else previous, es.value, separated);
      DropTrailingSeparator(EndByte(es.value), o, es, trailing, after);
    }
  }

  lemma {:induction false} DropTrailingSeparator(
    previous: Byte, o: bool, es: Entries, trailing: bool, after: seq<Token>)
    requires es.Entry? && WellFormedEntries(o, es) && previous == EndByte(es.value)
    ensures var tail := EntryTokens(o, es.rest, trailing, [Close(o)] + after);
      var strictTail := EntryTokens(o, StrictOf(es.rest), false, [Close(o)] + DropTrailing(LastByte(Close(o)), after));
      DropTrailing(previous, Separator(es.rest, trailing, tail)) == Separator(StrictOf(es.rest), false, strictTail)
    decreases es.rest, 1
  {
    var close := [Close(o)] + after;
    var tail := EntryTokens(o, es.rest, trailing, close);
    var separated := Separator(es.rest, trailing, tail);
    assert close[1..] == after;
    EndByteEndsValue(es.value);
    if es.rest.Entry? {
      assert separated[1..] == tail;
      EntriesStart(o, es.rest, trailing, close);
      DropTrailingEntries(COMMA, o, es.rest, trailing, after);
    } else {
      assert trailing ==> separated[1..] == close;
    }
  }

  /** The first token survives when it opens nothing that a dropped comma could precede. */
  lemma FirstKept(previous: Byte, ts: seq<Token>)
    requires var kept := DropTrailing(previous, ts); kept != [] && (!IsClose(kept[0]) || !EndsValue(previous))
    ensures var kept := DropTrailing(previous, ts);
      ts != [] && kept[0] == ts[0] && kept[1..] == DropTrailing(LastByte(ts[0]), ts[1..])
  {
    if IsTrailingComma(previous, ts) {
      assert false;
    }
  }

  /** Conversely, whatever becomes a strict document by dropping trailing commas was that
      document with at most one trailing comma per non-empty container. */
  lemma {:induction false} RestoreTrailing(previous: Byte, ts: seq<Token>, k: Json, after: seq<Token>)
    returns (j: Json, rest: seq<Token>)
    requires WellFormed(k) && IsStrict(k)
    requires DropTrailing(previous, ts) == Tokens(k, after)
    ensures ts == Tokens(j, rest) && WellFormed(j) && Strict(j) == k && DropTrailing(EndByte(j), rest) == after
    decreases k, 0
  {
    ValueStart(k, after);
    FirstKept(previous, ts);
    match k
    case Leaf(t) =>
      j, rest := k, ts[1..];
      assert Tokens(k, after)[1..] == after;
    case Box(o, es, _) =>
      var es', trailing;
      var close := [Close(o)] + after;
      assert Tokens(k, after)[1..] == EntryTokens(o, es, false, close) && close[1..] == after;
      if es.Done? {
        FirstKept(LastByte(Open(o)), ts[1..]);
        j, rest := k, ts[2..];
        assert ts == [Open(o)] + ([Close(o)] + rest);
      } else {
        es', trailing, rest := RestoreEntries(LastByte(Open(o)), ts[1..], o, es, after);
        j := Box(o, es', trailing);
      }
  }

  lemma RestoreKey(previous: Byte, ts: seq<Token>, o: bool, key: seq<Byte>, kept: seq<Token>) returns (rest: seq<Token>)
    requires DropTrailing(previous, ts) == KeyTokens(o, key, kept)
    ensures ts == KeyTokens(o, key, rest) && DropTrailing(if o then COLON else previous, rest) == kept
  {
    if o {
      FirstKept(previous, ts);
      assert DropTrailing(QUOTE, ts[1..]) == [Punct(COLON)] + kept by {
        assert KeyTokens(o, key, kept)[1..] == [Punct(COLON)] + kept;
      }
      FirstKept(QUOTE, ts[1..]);
      rest := ts[2..];
      assert ts == [ts[0], ts[1]] + rest;
      assert ([Punct(COLON)] + kept)[1..] == kept;
    } else {
      rest := ts;
    }
  }

  lemma RestoreClose(previous: Byte, ts: seq<Token>, o: bool, after: seq<Token>)
    requires DropTrailing(previous, ts) == [Close(o)] + after
    ensures var n := if IsTrailingComma(previous, ts) then 1 else 0;
      |ts| > n && ts[n] == Close(o) && DropTrailing(LastByte(Close(o)), ts[n + 1..]) == after
  {
    var t := if IsTrailingComma(previous, ts) then ts[1..] else ts;
    assert !IsTrailingComma(previous, t);
    assert DropTrailing(previous, t) == [t[0]] + DropTrailing(LastByte(t[0]), t[1..]);
    assert ([Close(o)] + after)[1..] == after;
  }

  lemma {:induction false} RestoreEntries(previous: Byte, ts: seq<Token>, o: bool, es: Entries, after: seq<Token>)
    returns (es': Entries, trailing: bool, rest: seq<Token>)
    requires es.Entry? && WellFormedEntries(o, es) && StrictEntries(es)
    requires DropTrailing(previous, ts) == EntryTokens(o, es, false, [Close(o)] + after)
    ensures es'.Entry? && ts == EntryTokens(o, es', trailing, [Close(o)] + rest)
    ensures WellFormedEntries(o, es') && StrictOf(es') == es && DropTrailing(LastByte(Close(o)), rest) == after
    decreases es, 1
  {
    var tail := EntryTokens(o, es.rest, false, [Close(o)] + after);
    var separated := Separator(es.rest, false, tail);
    var ts1 := RestoreKey(previous, ts, o, es.key, Tokens(es.value, separated));
    var v, ts2 := RestoreTrailing(if o then COLON else previous, ts1, es.value, separated);
    EndByteEndsValue(v);
    if es.rest.Entry? {
      FirstKept(EndByte(v), ts2);
      assert separated[1..] == tail;
      var more;
      more, trailing, rest := RestoreEntries(COMMA, ts2[1..], o, es.rest, after);
      es' := Entry(es.key, v, more);
      assert ts2 == [Punct(COMMA)] + ts2[1..];
    } else {
      es' := Entry(es.key, v, Done);
      trailing := IsTrailingComma(EndByte(v), ts2);
      rest := if trailing then ts2[2..] else ts2[1..];
      RestoreClose(EndByte(v), ts2, o, after);
      assert ts2 == Separator(Done, trailing, [Close(o)] + rest);
    }
  }
}
