/** Naming the sub-orchestrations that an orchestrator scheduled without naming them. */
module SubOrchestrations {
  const DIGITS := "0123456789abcdef"

  // ----- Hexadecimal numbers of at least four characters -----

  function Hex(n: nat): (s: string)
    ensures |s| > 0
  {
    if n < 16 then [DIGITS[n]] else Hex(n / 16) + [DIGITS[n % 16]]
  }

  function Padded(s: string, width: nat): string
    decreases width - |s|
  {
    if |s| >= width then s else Padded("0" + s, width)
  }

  /** An id as `%04x` prints it: padded with zeros behind the sign. */
  function Hex4(id: int): string {
    if id < 0 then "-" + Padded(Hex(-id), 3) else Padded(Hex(id), 4)
  }

  function DigitOf(ch: char): nat {
    if '0' <= ch <= '9' then ch as int - '0' as int
    else if 'a' <= ch <= 'f' then ch as int - 'a' as int + 10
    else 0
  }

  /** The number that hexadecimal digits stand for. */
  function Parsed(s: string): nat {
    if s == "" then 0 else 16 * Parsed(s[..|s| - 1]) + DigitOf(s[|s| - 1])
  }

  lemma DigitsMatch(n: nat)
    requires n < 16
    ensures DigitOf(DIGITS[n]) == n && DIGITS[n] != '-'
  {
  }

  lemma {:induction false} HexParses(n: nat)
    ensures Parsed(Hex(n)) == n && '-' !in Hex(n)
  {
    if n < 16 {
      DigitsMatch(n);
      assert Hex(n)[..0] == "";
    } else {
      HexParses(n / 16);
      DigitsMatch(n % 16);
      assert Hex(n)[..|Hex(n)| - 1] == Hex(n / 16);
    }
  }

  lemma {:induction false} LeadingZero(s: string)
    ensures Parsed("0" + s) == Parsed(s)
    decreases |s|
  {
    if s == "" {
      assert "0" + s == "0" && "0"[..0] == "";
    } else {
      assert ("0" + s)[..|s|] == "0" + s[..|s| - 1];
      LeadingZero(s[..|s| - 1]);
    }
  }

  lemma {:induction false} PaddedParses(s: string, width: nat)
    requires '-' !in s
    ensures Parsed(Padded(s, width)) == Parsed(s) && '-' !in Padded(s, width) && |Padded(s, width)| >= width
    decreases width - |s|
  {
    if |s| < width {
      LeadingZero(s);
      PaddedParses("0" + s, width);
    }
  }

  /** The sign and the digits of a printed id tell the id. */
  lemma Hex4Parses(id: int)
    ensures '-' in Hex4(id) <==> id < 0
    ensures if id < 0 then Hex4(id) != "" && Parsed(Hex4(id)[1..]) == -id else Parsed(Hex4(id)) == id
  {
    if id < 0 {
      HexParses(-id);
      PaddedParses(Hex(-id), 3);
      assert Hex4(id)[0] == '-' && Hex4(id)[1..] == Padded(Hex(-id), 3);
    } else {
      HexParses(id);
      PaddedParses(Hex(id), 4);
    }
  }

  /** Different ids are printed differently. */
  lemma Hex4Injective(a: int, b: int)
    requires Hex4(a) == Hex4(b)
    ensures a == b
  {
    Hex4Parses(a);
    Hex4Parses(b);
  }

  // ----- Actions -----

  /** An action of an orchestrator's response; `child` tells whether it starts a sub-orchestration. */
  class Action {
    const id: int
    const child: bool
    var instanceId: string

    constructor (id: int, child: bool, instanceId: string)
      ensures this.id == id && this.child == child && this.instanceId == instanceId
    {
      this.id, this.child, this.instanceId := id, child, instanceId;
    }
  }

  function Named(parent: string, id: int, child: bool, instanceId: string): string {
    if child && instanceId == "" then parent + ":" + Hex4(id) else instanceId
  }

  /** Names every unnamed child, in place; all else is left alone. */
  method AssignSubOrchestrationIds(parent: string, actions: seq<Action>)
    modifies actions
    ensures forall a <- actions :: a.instanceId == Named(parent, a.id, a.child, old(a.instanceId))
  {
    for i := 0 to |actions|
      invariant forall a <- actions :: a in actions[..i] ==>
        a.instanceId == Named(parent, a.id, a.child, old(a.instanceId))
      invariant forall a <- actions :: a !in actions[..i] ==> a.instanceId == old(a.instanceId)
    {
      var a := actions[i];
      assert actions[..i + 1] == actions[..i] + [a];
      if a.child && a.instanceId == "" {
        a.instanceId := parent + ":" + Hex4(a.id);
      }
    }
    assert actions[..|actions|] == actions;
  }

  /** Unnamed children of one parent get different names, and a second pass changes nothing. */
  lemma NamesDistinct(parent: string, a: int, b: int)
    ensures Named(parent, a, true, "") == Named(parent, b, true, "") ==> a == b
    ensures forall child, given :: var name := Named(parent, a, child, given); Named(parent, a, child, name) == name
  {
    var x, y := Named(parent, a, true, ""), Named(parent, b, true, "");
    if x == y {
      var n := |parent| + 1;
      assert x[n..] == Hex4(a) && y[n..] == Hex4(b);
      Hex4Injective(a, b);
    }
  }
}
