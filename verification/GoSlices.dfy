/**
 Go slices that start at the beginning of their array: the array may have room behind the slice,
 and then `append` writes into it, for everyone who shares it.
 */
module GoSlices {
  datatype Slice<T> = NilSlice | Backed(data: array<T>, len: nat)

  predicate Fits<T>(s: Slice<T>) {
    s.Backed? ==> s.len <= s.data.Length
  }

  function Arrays<T>(s: Slice<T>): set<object> {
    if s.Backed? then {s.data} else {}
  }

  function Len<T>(s: Slice<T>): nat {
    if s.Backed? then s.len else 0
  }

  function Room<T>(s: Slice<T>): nat
    requires Fits(s)
  {
    if s.Backed? then s.data.Length - s.len else 0
  }

  /** The elements of a slice. */
  function View<T>(s: Slice<T>): (v: seq<T>)
    requires Fits(s)
    reads Arrays(s)
    ensures |v| == Len(s)
  {
    if s.Backed? then s.data[..s.len] else []
  }

  /** An empty slice with room for `capacity` elements. */
  method Make<T>(zero: T, capacity: nat) returns (s: Slice<T>)
    ensures Fits(s) && s.Backed? && fresh(s.data) && View(s) == [] && Room(s) == capacity
  {
    var data := new T[capacity](_ => zero);
    s := Backed(data, 0);
  }

  /**
   Go's `append`: in place if there is room, else into a new array, which may have room for `spare`
   more. Nothing in front of the appended elements ever changes.
   */
  method Append<T>(s: Slice<T>, xs: seq<T>, spare: nat) returns (r: Slice<T>)
    requires Fits(s)
    modifies Arrays(s)
    ensures Fits(r) && View(r) == old(View(s)) + xs
    ensures xs == [] ==> r == s
    ensures xs != [] && |xs| <= Room(s) ==> r == Backed(s.data, s.len + |xs|)
    ensures |xs| > Room(s) ==> r.Backed? && fresh(r.data) && Room(r) == spare
    ensures s.Backed? && |xs| > Room(s) ==> s.data[..] == old(s.data[..])
    ensures s.Backed? ==> s.data[..s.len] == old(s.data[..s.len])
  {
    if |xs| == 0 { return s; }
    if |xs| <= Room(s) {
      forall i | 0 <= i < |xs| { s.data[s.len + i] := xs[i]; }
      r := Backed(s.data, s.len + |xs|);
    } else {
      var all := View(s) + xs;
      var data := new T[|all| + spare](i => if 0 <= i < |all| then all[i] else xs[0]);
      assert data[..|all|] == all;
      r := Backed(data, |all|);
    }
  }

  /** A copy with an array of its own and no room; a slice without elements becomes nil. */
  method Clone<T>(s: Slice<T>) returns (r: Slice<T>)
    requires Fits(s)
    ensures Fits(r) && View(r) == View(s) && fresh(Arrays(r)) && Room(r) == 0
  {
    if Len(s) == 0 { return NilSlice; }
    var elements := View(s);
    var data := new T[|elements|](i requires 0 <= i < |elements| => elements[i]);
    assert data[..] == elements;
    r := Backed(data, |elements|);
  }

  /** Two appends to one slice: the first survives exactly when there was no room to share or both wrote the same. */
  method AppendTwice<T>(s: Slice<T>, x: T, y: T, spare: nat) returns (a: Slice<T>, b: Slice<T>)
    requires Fits(s)
    modifies Arrays(s)
    ensures Fits(a) && Fits(b) && View(b) == old(View(s)) + [y]
    ensures View(a) == old(View(s)) + [x] <==> Room(s) == 0 || x == y
  {
    a := Append(s, [x], spare);
    b := Append(s, [y], spare);
    if Room(s) > 0 {
      assert View(a) == View(b);
      assert View(a)[s.len] == y;
    }
  }
}
