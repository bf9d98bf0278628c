/**
 Validation of payload and result types: depth-first searches over the type graph that share
 one set of visited types, proved to reject exactly the types that reach something unusable.
 */
module BindingType {
  import opened Bytes
  import opened TypeGraph

  /** What a search follows and rejects. `Cycles` looks for endless pointer chains in every
      part of a type. `Shapes` stops at types with a custom codec, which own their conversion,
      and at structs, whose fields are left to the JSON library. */
  datatype Rules = Cycles | Shapes(payload: bool, custom: set<TypeId>, textKeys: set<TypeId>)

  function Next(g: Types, rules: Rules, t: TypeId): seq<TypeId> {
    if t !in g then []
    else if g[t].Pointer? then [g[t].elem]
    else if rules.Cycles? then Parts(g[t])
    else if t in rules.custom then []
    else if g[t].Slice? || g[t].Array? || g[t].Map? then [g[t].elem]
    else []
  }

  function Edges(g: Types, rules: Rules): TypeId -> seq<TypeId> {
    (t: TypeId) => Next(g, rules, t)
  }

  predicate IsKeyKind(s: Shape) {
    s.Basic? && (s.kind.String? || s.kind.Int? || s.kind.Uint? || s.kind.Uint8?)
  }

  predicate IsUnencodable(s: Shape) {
    s.Basic? && (s.kind.Chan? || s.kind.Func? || s.kind.Complex? || s.kind.UnsafePointer?)
  }

  /** A type without a custom codec that JSON cannot represent or populate. */
  predicate IsUnusable(g: Types, rules: Rules, t: TypeId)
    requires t in g && rules.Shapes?
  {
    t !in rules.custom &&
    (IsUnencodable(g[t]) ||
     (rules.payload && g[t].Interface? && g[t].methods > 0) ||
     (g[t].Map? && !(g[t].key in g && IsKeyKind(g[g[t].key])) && g[t].key !in rules.textKeys))
  }

  ghost predicate IsBad(g: Types, rules: Rules, t: TypeId)
    requires Closed(g) && t in g
  {
    Endless(g, t) || (rules.Shapes? && IsUnusable(g, rules, t))
  }

  /** Nothing that the search can reach from `root` is bad. */
  ghost predicate Acceptable(g: Types, rules: Rules, root: TypeId)
    requires Closed(g)
  {
    forall u :: Reaches(Edges(g, rules), root, u) && u in g ==> !IsBad(g, rules, u)
  }

  /** Unwraps pointers; None for an endless pointer chain. */
  method Base(g: Types, start: TypeId) returns (b: Option<TypeId>)
    requires Closed(g) && start in g
    ensures b == BaseOf(g, start)
  {
    var seen: set<TypeId> := {};
    var t := start;
    ghost var n: nat := 0;
    while g[t].Pointer?
      invariant t in g && seen <= g.Keys
      invariant BaseOf(g, t) == BaseOf(g, start)
      invariant start in seen || start == t
      invariant forall x :: x in seen ==> g[x].Pointer? && (g[x].elem in seen || g[x].elem == t)
      decreases g.Keys - seen
    {
      if t in seen {
        forall m: nat ensures g[Walk(g, start, m)].Pointer? {
          ClosedPointers(g, seen, start, m);
        }
        return None;
      }
      seen := seen + {t};
      BaseOfPointer(g, t);
      t := g[t].elem;
    }
    BaseOfData(g, t);
    return Some(t);
  }

  // ----- Sets of visited types -----

  /** `t` ends at a visited type or at one with a custom codec. */
  ghost predicate Settled(g: Types, rules: Rules, seen: set<TypeId>, t: TypeId)
    requires Closed(g)
  {
    t in g && BaseOf(g, t).Some? &&
    (BaseOf(g, t).value in seen || (rules.Shapes? && BaseOf(g, t).value in rules.custom))
  }

  /** Everything in `done` is usable and leads only to settled types. */
  ghost predicate Expanded(g: Types, rules: Rules, done: set<TypeId>, seen: set<TypeId>)
    requires Closed(g)
  {
    forall x :: x in done ==>
      x in g && !IsBad(g, rules, x) && forall c :: c in Next(g, rules, x) ==> Settled(g, rules, seen, c)
  }

  lemma SettledGood(g: Types, rules: Rules, seen: set<TypeId>, t: TypeId)
    requires Closed(g) && Expanded(g, rules, seen, seen) && Settled(g, rules, seen, t)
    ensures !IsBad(g, rules, t)
  {
    if !g[t].Pointer? {
      BaseOfData(g, t);
    }
  }

  lemma {:induction false} PathSettled(g: Types, rules: Rules, seen: set<TypeId>, p: seq<TypeId>, i: nat)
    requires Closed(g) && Expanded(g, rules, seen, seen)
    requires i < |p| && IsPath(Edges(g, rules), p) && Settled(g, rules, seen, p[0])
    ensures Settled(g, rules, seen, p[i])
    decreases i
  {
    if i == 0 {
    } else {
      PathSettled(g, rules, seen, p, i - 1);
      assert p[i] in Next(g, rules, p[i - 1]);
      if g[p[i - 1]].Pointer? {
        BaseOfPointer(g, p[i - 1]);
      } else {
        BaseOfData(g, p[i - 1]);
      }
    }
  }

  /** A fully expanded set of visited types hides nothing bad. */
  lemma ExpandedAcceptable(g: Types, rules: Rules, seen: set<TypeId>, root: TypeId)
    requires Closed(g) && Expanded(g, rules, seen, seen) && Settled(g, rules, seen, root)
    ensures Acceptable(g, rules, root)
  {
    forall u | Reaches(Edges(g, rules), root, u) && u in g ensures !IsBad(g, rules, u) {
      var p :| IsPath(Edges(g, rules), p) && p[0] == root && p[|p| - 1] == u;
      PathSettled(g, rules, seen, p, |p| - 1);
      SettledGood(g, rules, seen, u);
    }
  }

  /** What the base of `t` reaches, `t` reaches through its pointers. */
  lemma {:induction false} ReachesBase(g: Types, rules: Rules, t: TypeId, n: nat, u: TypeId)
    requires Closed(g) && t in g && Reaches(Edges(g, rules), Walk(g, t, n), u)
    ensures Reaches(Edges(g, rules), t, u)
    decreases n
  {
    if n > 0 && g[t].Pointer? {
      assert g[t].elem == Parts(g[t])[0];
      ReachesBase(g, rules, g[t].elem, n - 1, u);
      ReachesStep(Edges(g, rules), t, g[t].elem, u);
    }
  }

  /** If a child of its base is not acceptable, neither is `t`. */
  lemma ChildRejects(g: Types, rules: Rules, t: TypeId, child: TypeId)
    requires Closed(g) && t in g && BaseOf(g, t).Some? && child in Next(g, rules, BaseOf(g, t).value)
    requires !Acceptable(g, rules, child)
    ensures !Acceptable(g, rules, t)
  {
    var u :| Reaches(Edges(g, rules), child, u) && u in g && IsBad(g, rules, u);
    var n: nat :| Walk(g, t, n) == BaseOf(g, t).value;
    ReachesStep(Edges(g, rules), BaseOf(g, t).value, child, u);
    ReachesBase(g, rules, t, n, u);
  }

  /** If its base is bad, or there is none, `t` is not acceptable. */
  lemma BaseRejects(g: Types, rules: Rules, t: TypeId)
    requires Closed(g) && t in g
    requires BaseOf(g, t).Some? ==> IsBad(g, rules, BaseOf(g, t).value)
    ensures !Acceptable(g, rules, t)
  {
    if BaseOf(g, t).Some? {
      var n: nat :| Walk(g, t, n) == BaseOf(g, t).value;
      ReachesSelf(Edges(g, rules), BaseOf(g, t).value);
      ReachesBase(g, rules, t, n, BaseOf(g, t).value);
    } else {
      ReachesSelf(Edges(g, rules), t);
    }
  }

  // ----- Acceptance by shape -----

  lemma PathBehind(next: TypeId -> seq<TypeId>, p: seq<TypeId>)
    requires IsPath(next, p) && |p| > 1
    ensures Reaches(next, p[1], p[|p| - 1])
  {
    assert IsPath(next, p[1..]) && p[1..][0] == p[1] && p[1..][|p| - 2] == p[|p| - 1];
  }

  /** A type is acceptable exactly if it is not bad and what the search follows from it is acceptable. */
  lemma AcceptableNext(g: Types, rules: Rules, t: TypeId)
    requires Closed(g) && t in g
    ensures Acceptable(g, rules, t) <==>
            !IsBad(g, rules, t) && forall c <- Next(g, rules, t) :: Acceptable(g, rules, c)
  {
    var next := Edges(g, rules);
    ReachesSelf(next, t);
    if Acceptable(g, rules, t) {
      forall c, u | c in Next(g, rules, t) && Reaches(next, c, u) && u in g ensures !IsBad(g, rules, u) {
        ReachesStep(next, t, c, u);
      }
    }
    if !IsBad(g, rules, t) && forall c <- Next(g, rules, t) :: Acceptable(g, rules, c) {
      forall u | Reaches(next, t, u) && u in g ensures !IsBad(g, rules, u) {
        var p :| IsPath(next, p) && p[0] == t && p[|p| - 1] == u;
        if |p| > 1 {
          assert p[1] in Next(g, rules, t);
          PathBehind(next, p);
        }
      }
    }
  }

  /** An endless pointer chain is never acceptable, and a pointer is exactly if its element is. */
  lemma PointerLaw(g: Types, rules: Rules, t: TypeId)
    requires Closed(g) && t in g
    ensures Endless(g, t) ==> !Acceptable(g, rules, t)
    ensures g[t].Pointer? ==> (Acceptable(g, rules, t) <==> Acceptable(g, rules, g[t].elem))
  {
    AcceptableNext(g, rules, t);
    if g[t].Pointer? {
      BaseOfPointer(g, t);
      AcceptableNext(g, rules, g[t].elem);
    }
  }

  /** No endless chain is found exactly if none is found in any part. */
  lemma CyclesLaw(g: Types, t: TypeId)
    requires Closed(g) && t in g && !g[t].Pointer?
    ensures Acceptable(g, Cycles, t) <==>
            match g[t]
            case Slice(e) => Acceptable(g, Cycles, e)
            case Array(e) => Acceptable(g, Cycles, e)
            case Map(k, e) => Acceptable(g, Cycles, k) && Acceptable(g, Cycles, e)
            case Struct(fields) => forall x <- fields :: Acceptable(g, Cycles, x)
            case Basic(_) => true
            case Interface(_) => true
  {
    AcceptableNext(g, Cycles, t);
    BaseOfData(g, t);
    assert g[t].Map? ==> Parts(g[t])[0] == g[t].key && Parts(g[t])[1] == g[t].elem;
  }

  /**
   What is accepted of a type that is no pointer: everything if it has a codec of its own, and every
   struct; a slice or an array if the element is; a map if its value is and its key is text, a number
   or filled from text; no channel, function, complex number or unsafe pointer; and of the interfaces
   all in results, only the empty one in payloads.
   */
  lemma ShapeLaw(g: Types, payload: bool, custom: set<TypeId>, textKeys: set<TypeId>, t: TypeId)
    requires Closed(g) && t in g && !g[t].Pointer?
    ensures var rules := Shapes(payload, custom, textKeys);
      Acceptable(g, rules, t) <==>
      t in custom ||
      match g[t]
      case Slice(e) => Acceptable(g, rules, e)
      case Array(e) => Acceptable(g, rules, e)
      case Map(k, e) =>
        Acceptable(g, rules, e) &&
        (k in textKeys || (k in g && g[k].Basic? && g[k].kind in {String, Int, Uint, Uint8}))
      case Struct(_) => true
      case Basic(kind) => kind !in {Chan, Func, Complex, UnsafePointer}
      case Interface(methods) => payload ==> methods == 0
  {
    AcceptableNext(g, Shapes(payload, custom, textKeys), t);
    BaseOfData(g, t);
  }

  // ----- The searches -----

  /** One search with its set of visited types. */
  class Search {
    const types: Types
    const rules: Rules
    var seen: set<TypeId>

    constructor (types: Types, rules: Rules)
      ensures this.types == types && this.rules == rules && seen == {}
    {
      this.types := types;
      this.rules := rules;
      seen := {};
    }

    ghost predicate Valid()
      reads this
    {
      Closed(types) && seen <= types.Keys
    }

    /** Looks for endless pointer chains in every part of `t`. */
    method VisitCycles(t: TypeId) returns (ok: bool)
      requires Valid() && rules == Cycles && t in types
      modifies this
      ensures Valid() && old(seen) <= seen
      ensures ok ==> Settled(types, rules, seen, t) && Expanded(types, rules, seen - old(seen), seen)
      ensures !ok ==> !Acceptable(types, rules, t)
      decreases types.Keys - seen
    {
      var b := Base(types, t);
      if b.None? {
        BaseRejects(types, rules, t);
        return false;
      }
      var base := b.value;
      if base in seen {
        return true;
      }
      ghost var before := seen;
      seen := seen + {base};
      BaseOfData(types, base);
      var parts := Parts(types[base]);
      ghost var marked := seen;
      for i := 0 to |parts|
        invariant Valid() && marked <= seen
        invariant forall k :: 0 <= k < i ==> Settled(types, rules, seen, parts[k])
        invariant Expanded(types, rules, seen - marked, seen)
      {
        ok := VisitCycles(parts[i]);
        if !ok {
          ChildRejects(types, rules, t, parts[i]);
          return false;
        }
      }
      assert seen - before == (seen - marked) + {base};
      return true;
    }

    /** Looks for shapes that JSON cannot convert, through pointers, slices, arrays and map values. */
    method VisitShape(t: TypeId) returns (ok: bool)
      requires Valid() && rules.Shapes? && t in types
      modifies this
      ensures Valid() && old(seen) <= seen
      ensures ok ==> Settled(types, rules, seen, t) && Expanded(types, rules, seen - old(seen), seen)
      ensures !ok ==> !Acceptable(types, rules, t)
      decreases types.Keys - seen
    {
      var b := Base(types, t);
      if b.None? {
        BaseRejects(types, rules, t);
        return false;
      }
      var base := b.value;
      if base in seen || base in rules.custom {
        return true;
      }
      ghost var before := seen;
      seen := seen + {base};
      ghost var marked := seen;
      BaseOfData(types, base);
      ok := true;
      match types[base] {
        case Basic(_) => ok := !IsUnencodable(types[base]);
        case Interface(methods) => ok := !(rules.payload && methods > 0);
        case Map(key, elem) =>
          assert Parts(types[base]) == [key, elem] && Parts(types[base])[0] in types && Parts(types[base])[1] in types;
          ok := IsKeyKind(types[key]) || key in rules.textKeys;
          if ok {
            ok := VisitShape(elem);
            if !ok {
              ChildRejects(types, rules, t, elem);
              return;
            }
          }
        case Slice(elem) =>
          assert elem == Parts(types[base])[0];
          ok := VisitShape(elem);
          if !ok {
            ChildRejects(types, rules, t, elem);
            return;
          }
        case Array(elem) =>
          assert elem == Parts(types[base])[0];
          ok := VisitShape(elem);
          if !ok {
            ChildRejects(types, rules, t, elem);
            return;
          }
        case _ =>
      }
      if !ok {
        BaseRejects(types, rules, t);
      }
      assert seen - before == (seen - marked) + {base};
    }
  }

  /** Accepts exactly the types from which no endless pointer chain can be reached. */
  method RejectPointerCycles(types: Types, root: TypeId) returns (ok: bool)
    requires Closed(types) && root in types
    ensures ok <==> Acceptable(types, Cycles, root)
  {
    var search := new Search(types, Cycles);
    ok := search.VisitCycles(root);
    if ok {
      assert search.seen - {} == search.seen;
      ExpandedAcceptable(types, Cycles, search.seen, root);
    }
  }

  /** Accepts exactly the types from which nothing unusable can be reached. */
  method ValidateShape(types: Types, root: TypeId, rules: Rules) returns (ok: bool)
    requires Closed(types) && root in types && rules.Shapes?
    ensures ok <==> Acceptable(types, rules, root)
  {
    var search := new Search(types, rules);
    ok := search.VisitShape(root);
    if ok {
      assert search.seen - {} == search.seen;
      ExpandedAcceptable(types, rules, search.seen, root);
    }
  }

  /** `unmarshals` holds the types that decode themselves, `textKeys` those that a text decoder can fill. */
  method ValidatePayload(types: Types, root: TypeId, unmarshals: set<TypeId>, textKeys: set<TypeId>) returns (ok: bool)
    requires Closed(types) && root in types
    ensures ok <==> Acceptable(types, Cycles, root) && Acceptable(types, Shapes(true, unmarshals, textKeys), root)
  {
    ok := RejectPointerCycles(types, root);
    if ok {
      ok := ValidateShape(types, root, Shapes(true, unmarshals, textKeys));
    }
  }

  /** `marshals` holds the types that encode themselves, `pointerMarshals` those whose pointer
      does; the returned value itself is not addressable, so its pointer does not help it. */
  method ValidateResult(types: Types, root: TypeId, marshals: set<TypeId>, pointerMarshals: set<TypeId>,
                        textKeys: set<TypeId>) returns (ok: bool)
    requires Closed(types) && root in types
    ensures ok <==> Acceptable(types, Shapes(false, marshals + (pointerMarshals - {root}), textKeys), root)
  {
    ok := ValidateShape(types, root, Shapes(false, marshals + (pointerMarshals - {root}), textKeys));
  }
}
