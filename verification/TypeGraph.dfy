/**
 Go types as a finite graph that may contain cycles: shapes, pointer chains, and what a
 validation can reach from a type.
 */
module TypeGraph {
  import opened Bytes

  type TypeId = nat

  datatype Kind = Bool | String | Int | Uint | Uint8 | Float | Complex | Chan | Func | UnsafePointer

  datatype Shape = Basic(kind: Kind) | Pointer(elem: TypeId) | Slice(elem: TypeId) | Array(elem: TypeId)
                 | Map(key: TypeId, elem: TypeId) | Struct(fields: seq<TypeId>) | Interface(methods: nat)

  type Types = map<TypeId, Shape>

  /** The types a type is built from. */
  function Parts(s: Shape): seq<TypeId> {
    match s
    case Basic(_) => []
    case Pointer(e) => [e]
    case Slice(e) => [e]
    case Array(e) => [e]
    case Map(k, e) => [k, e]
    case Struct(fs) => fs
    case Interface(_) => []
  }

  predicate Closed(g: Types) {
    forall t, k :: t in g && 0 <= k < |Parts(g[t])| ==> Parts(g[t])[k] in g
  }

  // ----- Pointer chains -----

  /** The type `n` pointers down from `t`, or where the chain ends before. */
  function Walk(g: Types, t: TypeId, n: nat): (u: TypeId)
    requires Closed(g) && t in g
    ensures u in g
    decreases n
  {
    if n == 0 || !g[t].Pointer? then t
    else
      assert g[t].elem == Parts(g[t])[0];
      Walk(g, g[t].elem, n - 1)
  }

  /** Following pointers from `t` never reaches a type that holds data. */
  ghost predicate Endless(g: Types, t: TypeId)
    requires Closed(g) && t in g
  {
    forall n: nat :: g[Walk(g, t, n)].Pointer?
  }

  /** The type at the end of the pointer chain of `t`, if it ends. */
  ghost function BaseOf(g: Types, t: TypeId): (b: Option<TypeId>)
    requires Closed(g) && t in g
    ensures b.None? <==> Endless(g, t)
    ensures b.Some? ==> b.value in g && !g[b.value].Pointer? && exists n: nat :: Walk(g, t, n) == b.value
  {
    if Endless(g, t) then None
    else
      var n: nat :| !g[Walk(g, t, n)].Pointer?;
      Some(Walk(g, t, n))
  }

  lemma {:induction false} WalkEnds(g: Types, t: TypeId, n: nat, m: nat)
    requires Closed(g) && t in g && !g[Walk(g, t, n)].Pointer? && !g[Walk(g, t, m)].Pointer?
    ensures Walk(g, t, n) == Walk(g, t, m)
    decreases n
  {
    if n > 0 && m > 0 && g[t].Pointer? {
      assert g[t].elem == Parts(g[t])[0];
      WalkEnds(g, g[t].elem, n - 1, m - 1);
    }
  }

  /** A type that holds data is its own base. */
  lemma BaseOfData(g: Types, t: TypeId)
    requires Closed(g) && t in g && !g[t].Pointer?
    ensures BaseOf(g, t) == Some(t)
  {
    assert Walk(g, t, 0) == t;
    if BaseOf(g, t).Some? {
      var n: nat :| Walk(g, t, n) == BaseOf(g, t).value;
      WalkEnds(g, t, 0, n);
    }
  }

  /** A pointer has the base of its element. */
  lemma BaseOfPointer(g: Types, t: TypeId)
    requires Closed(g) && t in g && g[t].Pointer?
    ensures g[t].elem in g && BaseOf(g, t) == BaseOf(g, g[t].elem)
  {
    assert g[t].elem == Parts(g[t])[0];
    var e := g[t].elem;
    forall n: nat ensures Walk(g, t, n + 1) == Walk(g, e, n) {
    }
    if BaseOf(g, t).Some? {
      var n: nat :| Walk(g, t, n) == BaseOf(g, t).value;
      assert n > 0;
      assert Walk(g, t, n) == Walk(g, e, n - 1);
      if BaseOf(g, e).Some? {
        var m: nat :| Walk(g, e, m) == BaseOf(g, e).value;
        WalkEnds(g, e, n - 1, m);
      }
    } else {
      forall n: nat ensures g[Walk(g, e, n)].Pointer? {
        assert Walk(g, e, n) == Walk(g, t, n + 1);
      }
    }
  }

  /** A set of pointers that contains the element of each is an endless chain. */
  lemma {:induction false} ClosedPointers(g: Types, s: set<TypeId>, t: TypeId, n: nat)
    requires Closed(g) && s <= g.Keys && t in s
    requires forall x :: x in s ==> g[x].Pointer? && g[x].elem in s
    ensures Walk(g, t, n) in s
    decreases n
  {
    if n == 0 {
    } else {
      ClosedPointers(g, s, g[t].elem, n - 1);
    }
  }

  // ----- Reachability -----

  /** `next` leads from each type of `p` to the one behind it. */
  predicate IsPath(next: TypeId -> seq<TypeId>, p: seq<TypeId>) {
    p != [] && forall i :: 0 < i < |p| ==> p[i] in next(p[i - 1])
  }

  ghost predicate Reaches(next: TypeId -> seq<TypeId>, a: TypeId, b: TypeId) {
    exists p :: IsPath(next, p) && p[0] == a && p[|p| - 1] == b
  }

  lemma ReachesSelf(next: TypeId -> seq<TypeId>, a: TypeId)
    ensures Reaches(next, a, a)
  {
    assert IsPath(next, [a]) && [a][0] == a && [a][|[a]| - 1] == a;
  }

  lemma ReachesStep(next: TypeId -> seq<TypeId>, a: TypeId, b: TypeId, c: TypeId)
    requires b in next(a) && Reaches(next, b, c)
    ensures Reaches(next, a, c)
  {
    var p :| IsPath(next, p) && p[0] == b && p[|p| - 1] == c;
    var q := [a] + p;
    forall i | 0 < i < |q| ensures q[i] in next(q[i - 1]) {
      if i > 1 {
        assert q[i] == p[i - 1] && q[i - 1] == p[i - 2];
      }
    }
    assert IsPath(next, q) && q[0] == a && q[|q| - 1] == c;
  }
}
