/**
 The grammar of JSON's strings, numbers and literal names (RFC 8259, sections 2, 3, 6 and 7),
 stated on byte sequences. The recognisers of the lexer are proved to accept just these.
 */
module JsonGrammar {
  import opened Bytes
  import opened UnicodeForms
  import opened JsonLexer

  /** `b` is the code of one of the characters. */
  predicate IsOneOf(b: Byte, chars: string) {
    (b as char) in chars
  }

  // ----- Numbers -----

  predicate AreDigits(s: seq<Byte>) {
    forall k :: 0 <= k < |s| ==> '0' <= s[k] as char <= '9'
  }

  predicate IsSign(s: seq<Byte>) {
    s == [] || IsAscii(s, "-")
  }

  predicate IsInteger(s: seq<Byte>) {
    IsAscii(s, "0") || (s != [] && AreDigits(s) && s[0] as char != '0')
  }

  predicate IsFraction(s: seq<Byte>) {
    s == [] || (|s| > 1 && s[0] as char == '.' && AreDigits(s[1..]))
  }

  predicate IsExponent(s: seq<Byte>) {
    s == [] ||
    (|s| > 1 && IsOneOf(s[0], "eE") && AreDigits(s[1..])) ||
    (|s| > 2 && IsOneOf(s[0], "eE") && IsOneOf(s[1], "+-") && AreDigits(s[2..]))
  }

  /** An optional minus, an integer without leading zeros, an optional fraction and an optional exponent. */
  ghost predicate IsNumberText(s: seq<Byte>) {
    exists sign, integer, fraction, exponent ::
      IsSign(sign) && IsInteger(integer) && IsFraction(fraction) && IsExponent(exponent) &&
      s == sign + integer + fraction + exponent
  }

  // ----- Strings -----

  predicate IsHexadecimal(ch: char) {
    '0' <= ch <= '9' || 'a' <= ch <= 'f' || 'A' <= ch <= 'F'
  }

  /** One character of a string: a byte that needs no escape, a short escape or four hexadecimal digits. */
  predicate IsCharacter(c: seq<Byte>) {
    (|c| == 1 && c[0] >= 0x20 && !IsOneOf(c[0], "\"\\")) ||
    (|c| == 2 && c[0] as char == '\\' && IsOneOf(c[1], "\"\\/bfnrt")) ||
    (|c| == 6 && c[0] as char == '\\' && c[1] as char == 'u' &&
     forall k :: 2 <= k < 6 ==> IsHexadecimal(c[k] as char))
  }

  function Concat(parts: seq<seq<Byte>>): seq<Byte> {
    if parts == [] then [] else parts[0] + Concat(parts[1..])
  }

  /** Characters and the closing quote. */
  ghost predicate IsStringTail(s: seq<Byte>) {
    exists characters ::
      (forall k :: 0 <= k < |characters| ==> IsCharacter(characters[k])) && s == Concat(characters) + [QUOTE]
  }

  ghost predicate IsStringText(s: seq<Byte>) {
    s != [] && s[0] as char == '"' && IsStringTail(s[1..])
  }

  // ----- Comments -----

  /** The two characters that a line comment must not hold, in UTF-8. */
  lemma SeparatorExactly(s: seq<Byte>)
    ensures IsLineSeparator(s) <==> Utf8Of(0x2028) <= s || Utf8Of(0x2029) <= s
  {
    assert Utf8Of(0x2028) == [0xE2, 0x80, 0xA8] && Utf8Of(0x2029) == [0xE2, 0x80, 0xA9];
    assert IsLineSeparator(s) ==> s[..3] == [s[0], s[1], s[2]];
  }

  // ----- Tokens -----

  predicate IsLiteral(s: seq<Byte>) {
    IsAscii(s, "true") || IsAscii(s, "false") || IsAscii(s, "null")
  }

  ghost predicate ValidToken(t: Token) {
    match t
    case Punct(b) => IsOneOf(b, "{}[],:")
    case Str(raw) => IsStringText(raw)
    case Atom(raw) => IsNumberText(raw) || IsLiteral(raw)
  }

  // ----- The number recogniser accepts just numbers -----

  predicate Accepting(st: NumberState) {
    st.Zero? || st.Int? || st.Frac? || st.ExpDigits?
  }

  lemma {:induction false} RunAppend(st: NumberState, a: seq<Byte>, b: seq<Byte>)
    ensures NumberRun(st, a + b) == NumberRun(NumberRun(st, a), b)
    decreases |a|
  {
    if a == [] {
      assert a + b == b;
    } else {
      assert (a + b)[1..] == a[1..] + b;
      RunAppend(NumberStep(st, a[0]), a[1..], b);
    }
  }

  /** Digits lead from the state before them to the state among them. */
  lemma {:induction false} RunDigits(st: NumberState, s: seq<Byte>)
    requires AreDigits(s) && (st.Int? || st.Frac? || st.ExpDigits?)
    ensures NumberRun(st, s) == st
    decreases |s|
  {
    if s == [] {
    } else {
      RunDigits(st, s[1..]);
    }
  }

  lemma RunSignInteger(sign: seq<Byte>, integer: seq<Byte>)
    requires IsSign(sign) && IsInteger(integer)
    ensures var st := NumberRun(Start, sign + integer); st.Zero? || st.Int?
  {
    RunAppend(Start, sign, integer);
    assert integer[1..] == [] || AreDigits(integer);
    if AreDigits(integer) && integer[0] != 0x30 {
      RunDigits(Int, integer[1..]);
    }
  }

  lemma RunFraction(st: NumberState, s: seq<Byte>)
    requires IsFraction(s) && (st.Zero? || st.Int?)
    ensures var t := NumberRun(st, s); t.Zero? || t.Int? || t.Frac?
  {
    if s == [] {
    } else {
      assert NumberRun(st, s) == NumberRun(Dot, s[1..]);
      RunDigits(Frac, s[1..][1..]);
    }
  }

  lemma RunExponent(st: NumberState, s: seq<Byte>)
    requires IsExponent(s) && (st.Zero? || st.Int? || st.Frac?)
    ensures Accepting(NumberRun(st, s))
  {
    if s == [] {
    } else {
      assert NumberRun(st, s) == NumberRun(Exp, s[1..]);
      var digits := if IsOneOf(s[1], "+-") then s[1..][1..] else s[1..];
      assert NumberRun(Exp, s[1..]) == NumberRun(ExpDigits, digits[1..]);
      RunDigits(ExpDigits, digits[1..]);
    }
  }

  lemma {:induction false} StaysBad(s: seq<Byte>)
    ensures NumberRun(Bad, s) == Bad
    decreases |s|
  {
    if s == [] {
    } else {
      StaysBad(s[1..]);
    }
  }

  /** What is left after the digits of an exponent are more digits. */
  lemma {:induction false} ExponentDigits(s: seq<Byte>)
    requires Accepting(NumberRun(ExpDigits, s))
    ensures AreDigits(s)
    decreases |s|
  {
    if s == [] {
    } else {
      StaysBad(s[1..]);
      ExponentDigits(s[1..]);
      assert forall k :: 1 <= k < |s| ==> s[k] == s[1..][k - 1];
    }
  }

  lemma IsAnExponent(st: NumberState, s: seq<Byte>)
    requires s != [] && NumberStep(st, s[0]) == Exp && !st.Bad? && Accepting(NumberRun(st, s))
    ensures IsExponent(s)
  {
    var rest := s[1..];
    assert NumberRun(st, s) == NumberRun(Exp, rest) && NumberRun(Exp, []) == Exp;
    assert NumberRun(Exp, rest) == NumberRun(NumberStep(Exp, rest[0]), rest[1..]);
    StaysBad(rest[1..]);
    if IsOneOf(rest[0], "+-") {
      var digits := rest[1..];
      assert NumberRun(ExpSign, digits) == NumberRun(NumberStep(ExpSign, digits[0]), digits[1..]);
      StaysBad(digits[1..]);
      ExponentDigits(digits[1..]);
      assert digits == [digits[0]] + digits[1..] && s[2..] == digits;
    } else {
      ExponentDigits(rest[1..]);
      assert rest == [rest[0]] + rest[1..];
    }
  }

  /** In the digits of a fraction: more of them, then an exponent. */
  lemma {:induction false} FractionDigits(s: seq<Byte>) returns (digits: seq<Byte>, exponent: seq<Byte>)
    requires Accepting(NumberRun(Frac, s))
    ensures s == digits + exponent && AreDigits(digits) && IsExponent(exponent)
    decreases |s|
  {
    if s == [] {
      return [], [];
    }
    StaysBad(s[1..]);
    if IsDigit(s[0]) {
      digits, exponent := FractionDigits(s[1..]);
      digits := [s[0]] + digits;
    } else {
      IsAnExponent(Frac, s);
      digits, exponent := [], s;
    }
  }

  /** After the integer: a fraction and an exponent, either of them possibly empty. */
  lemma AfterInteger(st: NumberState, s: seq<Byte>) returns (fraction: seq<Byte>, exponent: seq<Byte>)
    requires (st.Zero? || st.Int?) && Accepting(NumberRun(st, s)) && (s != [] && st.Int? ==> !IsDigit(s[0]))
    ensures s == fraction + exponent && IsFraction(fraction) && IsExponent(exponent)
  {
    if s == [] {
      return [], [];
    }
    StaysBad(s[1..]);
    if NumberStep(st, s[0]).Exp? {
      IsAnExponent(st, s);
      fraction, exponent := [], s;
    } else {
      var rest := s[1..];
      assert NumberRun(st, s) == NumberRun(Dot, rest) && NumberRun(Dot, []) == Dot;
      assert NumberRun(Dot, rest) == NumberRun(NumberStep(Dot, rest[0]), rest[1..]);
      StaysBad(rest[1..]);
      var digits;
      digits, exponent := FractionDigits(rest[1..]);
      fraction := [s[0], rest[0]] + digits;
      assert fraction[1..] == [rest[0]] + digits;
    }
  }

  /** In the digits of the integer: more of them, then the rest. */
  lemma {:induction false} IntegerDigits(s: seq<Byte>)
    returns (digits: seq<Byte>, fraction: seq<Byte>, exponent: seq<Byte>)
    requires Accepting(NumberRun(Int, s))
    ensures s == digits + fraction + exponent && AreDigits(digits) && IsFraction(fraction) && IsExponent(exponent)
    decreases |s|
  {
    if s != [] && IsDigit(s[0]) {
      digits, fraction, exponent := IntegerDigits(s[1..]);
      digits := [s[0]] + digits;
    } else {
      digits := [];
      fraction, exponent := AfterInteger(Int, s);
    }
  }

  lemma FromInteger(st: NumberState, s: seq<Byte>)
    returns (integer: seq<Byte>, fraction: seq<Byte>, exponent: seq<Byte>)
    requires (st.Start? || st.Minus?) && Accepting(NumberRun(st, s)) && s != [] && s[0] as char != '-'
    ensures s == integer + fraction + exponent && IsInteger(integer) && IsFraction(fraction) && IsExponent(exponent)
  {
    StaysBad(s[1..]);
    if s[0] as char == '0' {
      integer := [s[0]];
      fraction, exponent := AfterInteger(Zero, s[1..]);
    } else {
      var digits;
      digits, fraction, exponent := IntegerDigits(s[1..]);
      integer := [s[0]] + digits;
    }
  }

  lemma NumberExactly(s: seq<Byte>)
    ensures IsNumber(s) <==> IsNumberText(s)
  {
    if IsNumber(s) {
      var sign := if s[0] as char == '-' then [s[0]] else [];
      StaysBad(if |s| > 1 then s[1..][1..] else []);
      var integer, fraction, exponent := FromInteger(if sign == [] then Start else Minus, s[|sign|..]);
      assert s == sign + integer + fraction + exponent;
    }
    if sign, integer, fraction, exponent :|
      IsSign(sign) && IsInteger(integer) && IsFraction(fraction) && IsExponent(exponent) &&
      s == sign + integer + fraction + exponent
    {
      RunSignInteger(sign, integer);
      RunAppend(Start, sign + integer, fraction);
      RunFraction(NumberRun(Start, sign + integer), fraction);
      RunAppend(Start, sign + integer + fraction, exponent);
      RunExponent(NumberRun(Start, sign + integer + fraction), exponent);
    }
  }

  // ----- The string recogniser accepts just strings -----

  lemma {:induction false} StringTailText(s: seq<Byte>) returns (characters: seq<seq<Byte>>)
    requires AcceptsStringTail(s)
    ensures forall k :: 0 <= k < |characters| ==> IsCharacter(characters[k])
    ensures s == Concat(characters) + [QUOTE]
    decreases |s|
  {
    if s[0] == QUOTE {
      characters := [];
    } else {
      var n := if s[0] != BACKSLASH then 1 else if IsSimpleEscape(s[1]) then 2 else 6;
      var more := StringTailText(s[n..]);
      characters := [s[..n]] + more;
      assert characters[1..] == more;
    }
  }

  lemma CharacterAccepted(c: seq<Byte>, more: seq<Byte>)
    requires IsCharacter(c) && AcceptsStringTail(more)
    ensures AcceptsStringTail(c + more)
  {
    var s := c + more;
    assert s[|c|..] == more;
    if |c| == 6 {
      assert forall k :: 0 <= k < 6 ==> s[k] == c[k];
    }
  }

  lemma {:induction false} StringTailAccepted(characters: seq<seq<Byte>>)
    requires forall k :: 0 <= k < |characters| ==> IsCharacter(characters[k])
    ensures AcceptsStringTail(Concat(characters) + [QUOTE])
    decreases |characters|
  {
    if characters == [] {
    } else {
      var more := Concat(characters[1..]) + [QUOTE];
      StringTailAccepted(characters[1..]);
      CharacterAccepted(characters[0], more);
      assert Concat(characters) + [QUOTE] == characters[0] + more;
    }
  }

  lemma StringExactly(s: seq<Byte>)
    ensures AcceptsString(s) <==> IsStringText(s)
  {
    if AcceptsString(s) {
      var characters := StringTailText(s[1..]);
    }
    if s != [] {
      forall characters: seq<seq<Byte>> |
        (forall k :: 0 <= k < |characters| ==> IsCharacter(characters[k])) && s[1..] == Concat(characters) + [QUOTE]
        ensures AcceptsStringTail(s[1..])
      {
        StringTailAccepted(characters);
      }
    }
  }

  /** The recognisers accept exactly the strings, numbers, literal names and marks of the grammar. */
  lemma TokenExactly(t: Token)
    ensures AcceptsToken(t) <==> ValidToken(t)
  {
    match t
    case Punct(_) =>
    case Str(raw) => StringExactly(raw);
    case Atom(raw) => NumberExactly(raw);
  }
}
