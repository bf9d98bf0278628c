/** The log level threshold of a category, found by a loop over a map in any order. */
module CategoryFilter {
  import opened Bytes
  import opened Collections

  type Level = int
  type Thresholds = map<string, Level>

  const INFORMATION: Level := 2
  const WORKER := "Worker"

  // ----- The rule -----

  /** The position of the last dot, if there is one. */
  function LastDot(name: string): (at: Option<nat>)
    ensures at.Some? ==> at.value < |name| && name[at.value] == '.'
    ensures at.Some? ==> forall k :: at.value < k < |name| ==> name[k] != '.'
    ensures at.None? ==> forall k :: 0 <= k < |name| ==> name[k] != '.'
  {
    if name == [] then None
    else if name[|name| - 1] == '.' then Some(|name| - 1)
    else LastDot(name[..|name| - 1])
  }

  /** What applies when no prefix does. */
  function CatchAll(cats: Thresholds): Level {
    if WORKER in cats then cats[WORKER] else if "" in cats then cats[""] else INFORMATION
  }

  /** Drops the last dotted segment and looks again; the catch-all keys do not count on the way. */
  function ByPrefix(cats: Thresholds, name: string): Level
    decreases |name|
  {
    match LastDot(name)
    case None => CatchAll(cats)
    case Some(i) =>
      var prefix := name[..i];
      if prefix in cats && prefix != "" && prefix != WORKER then cats[prefix] else ByPrefix(cats, prefix)
  }

  function Threshold(cats: Thresholds, category: string): Level {
    if category in cats then cats[category] else ByPrefix(cats, category)
  }

  lemma {:induction false} LastDotOf(parent: string, segment: string)
    requires '.' !in segment
    ensures LastDot(parent + "." + segment) == Some(|parent|)
    decreases |segment|
  {
    var name := parent + "." + segment;
    if segment == "" {
      assert name[|name| - 1] == '.';
    } else {
      var front := segment[..|segment| - 1];
      assert name[|name| - 1] == segment[|segment| - 1] && name[..|name| - 1] == parent + "." + front;
      LastDotOf(parent, front);
    }
  }

  /** A category without an entry of its own is filtered like the category it is part of. */
  lemma PartInheritsThreshold(cats: Thresholds, parent: string, segment: string)
    requires parent != "" && '.' !in segment && parent + "." + segment !in cats
    ensures Threshold(cats, parent + "." + segment) == Threshold(cats, parent)
  {
    var name := parent + "." + segment;
    LastDotOf(parent, segment);
    assert name[..|parent|] == parent;
    assert LastDot(WORKER).None?;
    assert ByPrefix(cats, WORKER) == CatchAll(cats);
    assert ByPrefix(cats, name) == if parent in cats && parent != WORKER then cats[parent] else ByPrefix(cats, parent);
  }

  // ----- The loop -----

  predicate HasPrefix(s: string, prefix: string) {
    |prefix| <= |s| && s[..|prefix|] == prefix
  }

  predicate Matches(category: string, key: string) {
    key != "" && key != WORKER && key != category && HasPrefix(category, key + ".")
  }

  /** A matching key is the part of the category before one of its dots. */
  lemma MatchesAtDot(category: string, key: string)
    ensures Matches(category, key) <==>
            key != "" && key != WORKER && |key| < |category| && category[..|key|] == key && category[|key|] == '.'
  {
    if |key| < |category| && category[..|key|] == key && category[|key|] == '.' {
      assert category[..|key| + 1] == key + ".";
    }
    if Matches(category, key) {
      assert category[..|key| + 1][..|key|] == key && category[..|key| + 1][|key|] == '.';
    }
  }

  /** `key` is the longest match among those of `seen`. */
  predicate IsBest(category: string, seen: seq<string>, key: string) {
    key in seen && Matches(category, key) && forall other <- seen :: Matches(category, other) ==> |other| <= |key|
  }

  /** `key` is the longest match of `seen`, or there is none. */
  predicate IsFound(category: string, seen: seq<string>, matched: bool, key: string) {
    if matched then IsBest(category, seen, key) else forall other <- seen :: !Matches(category, other)
  }

  lemma FoundGrows(category: string, seen: seq<string>, matched: bool, best: string, k: string)
    requires IsFound(category, seen, matched, best)
    ensures !Matches(category, k) ==> IsFound(category, seen + [k], matched, best)
    ensures Matches(category, k) && (!matched || |k| > |best|) ==> IsFound(category, seen + [k], true, k)
    ensures Matches(category, k) && matched && |k| <= |best| ==> IsFound(category, seen + [k], true, best)
  {
    assert k in seen + [k];
  }

  /** The rule finds the longest match: two dotted prefixes of equal length are equal. */
  lemma {:induction false} LongestIsRule(cats: Thresholds, category: string, n: nat, key: string)
    requires n <= |category| && key in cats && Matches(category, key) && |key| < n
    requires forall other <- cats :: Matches(category, other) && |other| < n ==> |other| <= |key|
    ensures ByPrefix(cats, category[..n]) == cats[key]
    decreases n
  {
    var name := category[..n];
    MatchesAtDot(category, key);
    assert name[|key|] == '.';
    var i := LastDot(name).value;
    assert name[..i] == category[..i];
    if i > |key| {
      var prefix := category[..i];
      MatchesAtDot(category, prefix);
      LongestIsRule(cats, category, i, key);
    } else {
      assert name[..i] == key;
    }
  }

  lemma {:induction false} NoMatchIsCatchAll(cats: Thresholds, category: string, n: nat)
    requires n <= |category|
    requires forall other <- cats :: !Matches(category, other)
    ensures ByPrefix(cats, category[..n]) ==
            if "Worker" in cats then cats["Worker"] else if "" in cats then cats[""] else 2
    decreases n
  {
    var name := category[..n];
    if LastDot(name).Some? {
      var i := LastDot(name).value;
      assert name[..i] == category[..i];
      MatchesAtDot(category, category[..i]);
      NoMatchIsCatchAll(cats, category, i);
    }
  }

  // ----- What the threshold must be -----

  /** `key` is one of the dotted parts that `category` starts with, and no catch-all key. */
  predicate IsPart(category: string, key: string) {
    key != "" && key != "Worker" && |key| < |category| && category[..|key|] == key && category[|key|] == '.'
  }

  /** `key` is the longest entry that `category` is part of. */
  predicate IsClosest(cats: Thresholds, category: string, key: string) {
    key in cats && IsPart(category, key) && forall other <- cats :: IsPart(category, other) ==> |other| <= |key|
  }

  /** The own entry, else that of the longest part, else that of Worker, else that of no name, else Information. */
  ghost predicate IsThreshold(cats: Thresholds, category: string, level: Level) {
    if category in cats then level == cats[category]
    else if exists key <- cats :: IsPart(category, key) then
      exists key :: IsClosest(cats, category, key) && level == cats[key]
    else level == if "Worker" in cats then cats["Worker"] else if "" in cats then cats[""] else 2
  }

  /** The answer is that of the rule, in whatever order the map is visited. */
  method MatchCategoryThreshold(cats: Thresholds, category: string, order: seq<string>) returns (level: Level)
    requires IsOrder(cats, order)
    ensures level == Threshold(cats, category) && IsThreshold(cats, category, level)
  {
    forall key ensures Matches(category, key) <==> IsPart(category, key) { MatchesAtDot(category, key); }
    if |cats| == 0 {
      NoMatchIsCatchAll(cats, category, |category|);
      assert category[..|category|] == category;
      return INFORMATION;
    }
    if category in cats { return cats[category]; }
    var bestKey, bestLevel, matched := "", INFORMATION, false;
    for i := 0 to |order|
      invariant matched ==> bestKey in cats && bestLevel == cats[bestKey]
      invariant IsFound(category, order[..i], matched, bestKey)
    {
      var k := order[i];
      assert order[..i + 1] == order[..i] + [k];
      assert k in cats;
      FoundGrows(category, order[..i], matched, bestKey, k);
      if Matches(category, k) {
        if !matched || |k| > |bestKey| {
          bestKey, bestLevel, matched := k, cats[k], true;
        }
      }
    }
    assert order[..|order|] == order;
    assert category[..|category|] == category;
    if matched {
      LongestIsRule(cats, category, |category|, bestKey);
      assert IsClosest(cats, category, bestKey);
      return bestLevel;
    }
    NoMatchIsCatchAll(cats, category, |category|);
    return CatchAll(cats);
  }

  // ----- The writer's filter -----

  /** The host's levels by category, a map that its owner may change at any time. */
  class Levels {
    var entries: Thresholds

    constructor (entries: Thresholds)
      ensures this.entries == entries
    {
      this.entries := entries;
    }
  }

  /** The writer's filter, which the host may replace. */
  class Writer {
    var categories: Levels?

    /** The filter in force; without one there are no entries. */
    function Filter(): Thresholds
      reads this, categories
    {
      if categories == null then map[] else categories.entries
    }

    constructor ()
      ensures Filter() == map[]
    {
      categories := null;
    }

    /** Takes a copy, entry by entry, which nobody else can change. */
    method SetCategories(c: Levels?, order: seq<string>)
      requires c != null ==> IsOrder(c.entries, order)
      modifies this
      ensures Filter() == if c == null then map[] else c.entries
      ensures categories != null ==> fresh(categories)
    {
      if c == null {
        categories := null;
        return;
      }
      var copy: Thresholds := map[];
      for i := 0 to |order|
        invariant forall key :: key in copy <==> key in order[..i]
        invariant forall key <- copy :: key in c.entries && copy[key] == c.entries[key]
      {
        assert order[..i + 1] == order[..i] + [order[i]];
        assert order[i] in c.entries;
        copy := copy[order[i] := c.entries[order[i]]];
      }
      assert order[..|order|] == order;
      assert copy == c.entries;
      categories := new Levels(copy);
    }

    /** Without a filter everything passes; with one, what is at or above the threshold of its category. */
    method Allowed(level: Level, category: string, order: seq<string>) returns (ok: bool)
      requires IsOrder(Filter(), order)
      ensures ok <==> Filter() == map[] || level >= Threshold(Filter(), category)
    {
      if |Filter()| == 0 { return true; }
      var threshold := MatchCategoryThreshold(Filter(), category, order);
      return level >= threshold;
    }
  }

  /** What the host does to its map after installing it has no effect on the filter. */
  method LaterChangesIgnored(
    w: Writer, c: Levels, order: seq<string>, changed: Thresholds, level: Level, category: string)
    returns (ok: bool)
    requires IsOrder(c.entries, order)
    modifies w, c
    ensures c.entries == changed
    ensures ok <==> old(c.entries) == map[] || level >= Threshold(old(c.entries), category)
  {
    w.SetCategories(c, order);
    c.entries := changed;
    ok := w.Allowed(level, category, order);
  }
}
