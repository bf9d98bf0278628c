/** What normalisation accepts and what it produces, for every input. */
module NormalizerCorrectness {
  import opened Bytes
  import opened HostConfiguration
  import opened JsonLexer
  import opened JsonGrammar
  import opened JsonTree
  import opened JsonText
  import opened JsonNormalizer

  /** `content` spells the document `j`: its tokens in order, with whitespace and comments
      between them and at most one trailing comma per non-empty container. */
  ghost predicate Spells(content: seq<Byte>, ps: seq<Piece>, j: Json) {
    Spell(ps) == content && ValidText(ps) && WordTokens(ps) == Tokens(j, []) && WellFormed(j)
  }

  /** An object within the nesting limit. */
  predicate Deliverable(j: Json) {
    j.Box? && j.isObject && Depth(j) <= 64
  }

  /** The compact strict spelling of `j`. */
  function Compacted(j: Json): seq<Byte> {
    Flatten(Tokens(Strict(j), []))
  }

  // ----- Facts about trees and their spellings -----

  lemma {:induction false} StrictKeeps(j: Json)
    requires WellFormed(j)
    ensures WellFormed(Strict(j)) && IsStrict(Strict(j)) && Depth(Strict(j)) == Depth(j)
    ensures Strict(j).Box? == j.Box? && (j.Box? ==> Strict(j).isObject == j.isObject)
    decreases j
  {
    if j.Box? {
      StrictOfKeeps(j.isObject, j.entries);
    }
  }

  lemma {:induction false} StrictOfKeeps(o: bool, es: Entries)
    requires WellFormedEntries(o, es)
    ensures WellFormedEntries(o, StrictOf(es)) && StrictEntries(StrictOf(es)) && DepthOf(StrictOf(es)) == DepthOf(es)
    decreases es
  {
    if es.Entry? {
      StrictKeeps(es.value);
      StrictOfKeeps(o, es.rest);
    }
  }

  lemma {:induction false} StrictOfStrict(j: Json)
    requires IsStrict(j)
    ensures Strict(j) == j
    decreases j
  {
    if j.Box? {
      StrictOfStrictEntries(j.entries);
    }
  }

  lemma {:induction false} StrictOfStrictEntries(es: Entries)
    requires StrictEntries(es)
    ensures StrictOf(es) == es
    decreases es
  {
    if es.Entry? {
      StrictOfStrict(es.value);
      StrictOfStrictEntries(es.rest);
    }
  }

  ghost predicate AllValid(ts: seq<Token>) {
    forall k :: 0 <= k < |ts| ==> ValidToken(ts[k])
  }

  lemma {:induction false} TokensValid(j: Json, after: seq<Token>)
    requires WellFormed(j) && AllValid(after)
    ensures AllValid(Tokens(j, after))
    decreases j
  {
    if j.Box? {
      EntryTokensValid(j.isObject, j.entries, j.trailing, [Close(j.isObject)] + after);
    }
  }

  lemma {:induction false} EntryTokensValid(o: bool, es: Entries, trailing: bool, after: seq<Token>)
    requires WellFormedEntries(o, es) && AllValid(after)
    ensures AllValid(EntryTokens(o, es, trailing, after))
    decreases es
  {
    if es.Entry? {
      EntryTokensValid(o, es.rest, trailing, after);
      TokensValid(es.value, Separator(es.rest, trailing, EntryTokens(o, es.rest, trailing, after)));
    }
  }

  /** No two atoms stand side by side. */
  predicate Separated(ts: seq<Token>) {
    forall k :: 0 < k < |ts| ==> !(ts[k - 1].Atom? && ts[k].Atom?)
  }

  lemma {:induction false} TokensSeparated(j: Json, after: seq<Token>)
    requires WellFormed(j) && Separated(after) && (after != [] ==> after[0].Punct?)
    ensures Separated(Tokens(j, after))
    decreases j
  {
    if j.Box? {
      EntryTokensSeparated(j.isObject, j.entries, j.trailing, [Close(j.isObject)] + after);
    }
  }

  lemma {:induction false} EntryTokensSeparated(o: bool, es: Entries, trailing: bool, after: seq<Token>)
    requires WellFormedEntries(o, es) && Separated(after) && after != [] && after[0].Punct?
    ensures Separated(EntryTokens(o, es, trailing, after))
    decreases es
  {
    if es.Entry? {
      EntryTokensSeparated(o, es.rest, trailing, after);
      TokensSeparated(es.value, Separator(es.rest, trailing, EntryTokens(o, es.rest, trailing, after)));
    }
  }

  function Words(ts: seq<Token>): seq<Piece> {
    seq(|ts|, i requires 0 <= i < |ts| => Word(ts[i]))
  }

  /** Valid tokens written side by side are a text, unless two atoms touch. */
  lemma {:induction false} WordsText(ts: seq<Token>)
    requires AllValid(ts) && Separated(ts)
    ensures ValidText(Words(ts)) && Spell(Words(ts)) == Flatten(ts) && WordTokens(Words(ts)) == ts
    decreases |ts|
  {
    if ts == [] {
    } else {
      assert Words(ts)[1..] == Words(ts[1..]);
      WordsText(ts[1..]);
    }
  }

  lemma {:induction false} FlattenLength(s: seq<Byte>)
    requires Lex(s, false).Some?
    ensures |Flatten(Lex(s, false).value)| <= |s|
    decreases |s|
  {
    if s == [] {
    } else {
      var n := if s[0] == QUOTE then StringLen(s).value else if IsAtomByte(s[0]) then AtomLen(s, false) else 1;
      FlattenLength(s[n..]);
      var ts := Lex(s[n..], false).value;
      assert Lex(s, false).value == ts || Lex(s, false).value[1..] == ts;
    }
  }

  /** A compact document starts with a brace exactly when it is an object. */
  lemma FirstByte(k: Json)
    requires WellFormed(k)
    ensures var s := Flatten(Tokens(k, [])); s != [] && (s[0] == LBRACE <==> k.Box? && k.isObject)
  {
    var ts := Tokens(k, []);
    assert Flatten(ts) == TokenBytes(ts[0]) + Flatten(ts[1..]);
    if k.Leaf? && k.token.Atom? {
      AtomBytes(k.token.raw);
    }
  }

  // ----- The passes on documents -----

  /** The third pass accepts exactly strict documents and spells them compactly. */
  lemma CompactTree(s: seq<Byte>, k: Json)
    requires Lex(s, false) == Some(Tokens(k, [])) && WellFormed(k) && IsStrict(k)
    ensures Compact(s) == Some(Flatten(Tokens(k, []))) && |Flatten(Tokens(k, []))| <= |s|
  {
    ParseComplete(k, []);
    FlattenLength(s);
  }

  /** Every spelling of a deliverable document, within the size limit, normalises to the
      compact strict form of that document. */
  lemma NormalizeAccepts(content: seq<Byte>, ps: seq<Piece>, j: Json)
    requires Spells(content, ps, j) && Deliverable(j) && |content| <= MAX_BYTES
    ensures Normalize(content) == Ok(Compacted(j))
  {
    LexText(ps);
    StripLex(content);
    SpellNotEmpty(ps);
    var stripped := Strip(content).value;
    BlankLex(stripped, 0, 0);
    DepthOfTokens(j, [], 0);
    var blanked := Blank(stripped, 0, 0).value;
    DropTrailingTokens(0, j, []);
    StrictKeeps(j);
    CompactTree(blanked, Strict(j));
    FirstByte(Strict(j));
  }

  /** Whatever normalises is a spelling of a deliverable document. */
  lemma NormalizeSound(content: seq<Byte>) returns (ps: seq<Piece>, j: Json)
    requires Normalize(content).Ok?
    ensures Spells(content, ps, j) && Deliverable(j) && |content| <= MAX_BYTES
  {
    StripLex(content);
    var stripped := Strip(content).value;
    BlankLex(stripped, 0, 0);
    var ts := Lex(content, true).value;
    var kept := DropTrailing(0, ts);
    ParseSound(kept);
    var k := ParseValue(kept).tree;
    FirstByte(k);
    var rest;
    j, rest := RestoreTrailing(0, ts, k, []);
    assert rest == [];
    StrictKeeps(j);
    DepthOfTokens(j, [], 0);
    TokensValid(j, []);
    ps := TextOf(content, ts);
  }

  /** Normalisation is exact: it returns `output` if and only if the content fits the size
      limit and spells a deliverable document whose compact strict form is `output`. */
  lemma NormalizeExact(content: seq<Byte>, output: seq<Byte>)
    ensures Normalize(content) == Ok(output) <==>
            |content| <= 65536 &&
            exists ps, j :: Spells(content, ps, j) && Deliverable(j) && output == Compacted(j)
  {
    if Normalize(content) == Ok(output) {
      var ps, j := NormalizeSound(content);
      NormalizeAccepts(content, ps, j);
    }
    if |content| <= MAX_BYTES {
      forall ps, j | Spells(content, ps, j) && Deliverable(j) ensures Normalize(content) == Ok(Compacted(j)) {
        NormalizeAccepts(content, ps, j);
      }
    }
  }

  /** Only oversized input is reported as such: compaction never exceeds the limit. */
  lemma NormalizeOversized(content: seq<Byte>)
    ensures Normalize(content) == Failed(Oversized) <==> |content| > 65536
  {
    if 0 < |content| <= MAX_BYTES {
      StripLex(content);
      if Strip(content).Some? {
        var stripped := Strip(content).value;
        BlankLex(stripped, 0, 0);
        if Blank(stripped, 0, 0).Some? {
          FlattenLength(Blank(stripped, 0, 0).value);
        }
      }
    }
  }

  /** A compact strict object within the limits is already normal. */
  lemma NormalizeIdentity(k: Json)
    requires WellFormed(k) && IsStrict(k) && Deliverable(k) && |Flatten(Tokens(k, []))| <= MAX_BYTES
    ensures Normalize(Flatten(Tokens(k, []))) == Ok(Flatten(Tokens(k, [])))
  {
    var ts := Tokens(k, []);
    TokensValid(k, []);
    TokensSeparated(k, []);
    WordsText(ts);
    StrictOfStrict(k);
    NormalizeAccepts(Flatten(ts), Words(ts), k);
  }

  /** Normalising twice changes nothing, and the output is never longer than the input. */
  lemma NormalizeIdempotent(content: seq<Byte>)
    requires Normalize(content).Ok?
    ensures var output := Normalize(content).content;
      Normalize(output) == Ok(output) && |output| <= |content|
  {
    var ps, j := NormalizeSound(content);
    NormalizeAccepts(content, ps, j);
    StrictKeeps(j);
    StripLex(content);
    BlankLex(Strip(content).value, 0, 0);
    FlattenLength(Blank(Strip(content).value, 0, 0).value);
    NormalizeIdentity(Strict(j));
  }

  // ----- Commas that are not trailing -----

  /** No comma directly after an opening bracket, a colon or another comma. */
  predicate NoStrayComma(previous: Byte, ts: seq<Token>)
    decreases |ts|
  {
    ts == [] || ((ts[0] == Punct(COMMA) ==> EndsValue(previous)) && NoStrayComma(LastByte(ts[0]), ts[1..]))
  }

  /** In a document every comma follows the end of a value. */
  lemma {:induction false} CommaFollowsValue(previous: Byte, j: Json, after: seq<Token>)
    requires WellFormed(j) && NoStrayComma(EndByte(j), after)
    ensures NoStrayComma(previous, Tokens(j, after))
    decreases j
  {
    ValueStart(j, after);
    match j
    case Leaf(t) =>
      assert Tokens(j, after)[1..] == after;
    case Box(o, es, trailing) =>
      var close := [Close(o)] + after;
      assert close[1..] == after && Tokens(j, after)[1..] == EntryTokens(o, es, trailing, close);
      EntriesNoStrayComma(LastByte(Open(o)), o, es, trailing, close);
  }

  lemma SeparatorFollowsValue(previous: Byte, rest: Entries, trailing: bool, tail: seq<Token>)
    requires EndsValue(previous) && NoStrayComma(COMMA, tail) && NoStrayComma(previous, tail)
    ensures NoStrayComma(previous, Separator(rest, trailing, tail))
  {
    assert ([Punct(COMMA)] + tail)[1..] == tail;
  }

  lemma KeyNoStrayComma(previous: Byte, o: bool, key: seq<Byte>, after: seq<Token>)
    requires NoStrayComma(if o then COLON else previous, after)
    ensures NoStrayComma(previous, KeyTokens(o, key, after))
  {
    if o {
      var ts := KeyTokens(o, key, after);
      assert ts[1..] == [Punct(COLON)] + after && ts[1..][1..] == after;
    }
  }

  lemma {:induction false} EntriesNoStrayComma(previous: Byte, o: bool, es: Entries, trailing: bool, after: seq<Token>)
    requires WellFormedEntries(o, es) && after != [] && after[0] == Close(o)
    requires NoStrayComma(LastByte(Close(o)), after[1..])
    ensures NoStrayComma(previous, EntryTokens(o, es, trailing, after))
    decreases es
  {
    if es.Entry? {
      var tail := EntryTokens(o, es.rest, trailing, after);
      var separated := Separator(es.rest, trailing, tail);
      EntriesNoStrayComma(COMMA, o, es.rest, trailing, after);
      EntriesNoStrayComma(EndByte(es.value), o, es.rest, trailing, after);
      EndByteEndsValue(es.value);
      SeparatorFollowsValue(EndByte(es.value), es.rest, trailing, tail);
      CommaFollowsValue(if o then COLON else previous, es.value, separated);
      KeyNoStrayComma(previous, o, es.key, Tokens(es.value, separated));
    }
  }

  /** A comma after `[`, `{`, `:` or `,` is never repaired: such a text is always rejected. */
  lemma StrayCommaRejected(content: seq<Byte>)
    requires Lex(content, true).Some? && !NoStrayComma(QUOTE, Lex(content, true).value)
    ensures Normalize(content).Failed?
  {
    if Normalize(content).Ok? {
      var ps, j := NormalizeSound(content);
      LexText(ps);
      CommaFollowsValue(QUOTE, j, []);
    }
  }
}
