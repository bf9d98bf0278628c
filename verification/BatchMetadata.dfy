/**
 Binding a batch of payloads to a slice of structs: each element takes its data from its own
 payload and its metadata from the entry of the same index in the parallel metadata arrays.

 Go visits a map in any order, so every loop over a map takes its order as a parameter.
 */
module BatchMetadata {
  import opened Bytes
  import opened Collections
  import opened HostData

  type Metadata = map<string, TypedData>

  /** JSON arrays as the texts of their elements, by the JSON library; None for anything else. */
  type Arrays = Text -> Option<seq<Text>>

  const ARRAY := "array"

  // ----- Names -----

  function LowerChar(ch: char): char {
    if 'A' <= ch <= 'Z' then ((ch as int) + 32) as char else ch
  }

  function Lower(s: string): (r: string)
    ensures |r| == |s|
  {
    seq(|s|, i requires 0 <= i < |s| => LowerChar(s[i]))
  }

  predicate IsArrayName(name: string) {
    |name| >= |ARRAY| && Lower(name[|name| - |ARRAY|..]) == ARRAY
  }

  function Stem(name: string): string
    requires IsArrayName(name)
  {
    name[..|name| - |ARRAY|]
  }

  // ----- Metadata of one message -----

  /** Entry `index` of a metadata value that is an array. */
  function ElementAt(arrays: Arrays, data: TypedData, index: nat): Option<TypedData> {
    match CollectionValues(data)
    case Some(values) => if index < |values| then Some(values[index]) else None
    case None =>
      if !data.JsonData? || data.json == [] then None
      else
        match arrays(data.json)
        case None => None
        case Some(values) => if index < |values| then Some(JsonData(values[index])) else None
  }

  /** What `name` gives to message `index`, if it is an array with an entry for it. */
  function Given(arrays: Arrays, metadata: Metadata, index: nat, name: string): Option<TypedData> {
    if name in metadata && IsArrayName(name) then ElementAt(arrays, metadata[name], index) else None
  }

  function Scalars(metadata: Metadata): Metadata {
    map name | name in metadata && !IsArrayName(name) :: metadata[name]
  }

  /** The scalars overlaid with what the names of `order` give, the later ones last. */
  function Overlay(arrays: Arrays, metadata: Metadata, index: nat, order: seq<string>): Metadata {
    if order == [] then Scalars(metadata)
    else
      var front, name := Overlay(arrays, metadata, index, order[..|order| - 1]), order[|order| - 1];
      match Given(arrays, metadata, index, name)
      case None => front
      case Some(element) => front[Stem(name) := element]
  }

  // ----- What the overlay holds -----

  /** `name` is an array with an entry for message `index`, and its stem is `key`. */
  predicate Overrides(arrays: Arrays, metadata: Metadata, index: nat, name: string, key: string) {
    Given(arrays, metadata, index, name).Some? && Stem(name) == key
  }

  ghost predicate Overridden(arrays: Arrays, metadata: Metadata, index: nat, order: seq<string>, key: string) {
    exists name :: name in order && Overrides(arrays, metadata, index, name, key)
  }

  /** Under an overridden key is what one of the overriding names gives, else the scalar. */
  lemma {:induction false} OverlayHolds(arrays: Arrays, metadata: Metadata, index: nat, order: seq<string>, key: string)
    ensures var r := Overlay(arrays, metadata, index, order);
      if !Overridden(arrays, metadata, index, order, key) then
        (key in r <==> key in Scalars(metadata)) && (key in r ==> r[key] == metadata[key])
      else
        key in r &&
        exists name ::
          name in order && Overrides(arrays, metadata, index, name, key) &&
          r[key] == Given(arrays, metadata, index, name).value
    decreases |order|
  {
    if order == [] {
    } else {
      var front, last := order[..|order| - 1], order[|order| - 1];
      assert order == front + [last];
      OverlayHolds(arrays, metadata, index, front, key);
      if Overrides(arrays, metadata, index, last, key) {
        assert last in order;
      }
    }
  }

  // ----- What the metadata of a message must be -----

  /** `name` is `key` with a suffix that spells "array" in any case. */
  predicate IsArrayOf(name: string, key: string) {
    var suffix := if |name| >= 5 then name[|name| - 5..] else "";
    name == key + suffix && |suffix| == 5 &&
    suffix[0] in "aA" && suffix[1] in "rR" && suffix[2] in "rR" && suffix[3] in "aA" && suffix[4] in "yY"
  }

  /** `entry` is entry `i` of a metadata value: an item of a collection or an element of a JSON array. */
  predicate IsEntry(arrays: Arrays, data: TypedData, i: nat, entry: TypedData) {
    match data
    case JsonData(s) =>
      s != [] && arrays(s).Some? && i < |arrays(s).value| && entry == JsonData(arrays(s).value[i])
    case _ => i < Count(data) && entry == ItemAt(data, i)
  }

  /** An array named `key` has `data` as its entry for message `i`. */
  ghost predicate GivenAt(arrays: Arrays, metadata: Metadata, i: nat, key: string, data: TypedData) {
    exists name <- metadata :: IsArrayOf(name, key) && IsEntry(arrays, metadata[name], i, data)
  }

  ghost predicate IsScalar(metadata: Metadata, key: string) {
    key in metadata && forall stem :: !IsArrayOf(key, stem)
  }

  /** What message `i` has under `key`: the own entry of an array of that name, else the scalar of that name. */
  ghost predicate HoldsFor(arrays: Arrays, metadata: Metadata, i: nat, key: string, data: TypedData) {
    GivenAt(arrays, metadata, i, key, data) ||
    (IsScalar(metadata, key) && data == metadata[key] && !exists e :: GivenAt(arrays, metadata, i, key, e))
  }

  lemma ArrayNames(name: string, key: string)
    ensures IsArrayOf(name, key) <==> IsArrayName(name) && Stem(name) == key
  {
    if |name| >= 5 {
      var suffix, lower := name[|name| - 5..], Lower(name[|name| - 5..]);
      assert name == name[..|name| - 5] + suffix;
      assert |ARRAY| == 5 && ARRAY[0] == ARRAY[3] == 'a' && ARRAY[1] == ARRAY[2] == 'r' && ARRAY[4] == 'y';
      assert lower == ARRAY <==> forall k :: 0 <= k < 5 ==> LowerChar(suffix[k]) == ARRAY[k];
    }
  }

  lemma EntryExactly(arrays: Arrays, data: TypedData, i: nat, entry: TypedData)
    ensures ElementAt(arrays, data, i) == Some(entry) <==> IsEntry(arrays, data, i, entry)
  {
  }

  lemma GivenExactly(arrays: Arrays, metadata: Metadata, i: nat, key: string, data: TypedData)
    ensures GivenAt(arrays, metadata, i, key, data) <==>
            exists name :: Overrides(arrays, metadata, i, name, key) && Given(arrays, metadata, i, name) == Some(data)
  {
    forall name ensures name in metadata && IsArrayOf(name, key) && IsEntry(arrays, metadata[name], i, data) <==>
      Overrides(arrays, metadata, i, name, key) && Given(arrays, metadata, i, name) == Some(data)
    {
      ArrayNames(name, key);
      if name in metadata { EntryExactly(arrays, metadata[name], i, data); }
    }
  }

  lemma ScalarExactly(metadata: Metadata, key: string)
    ensures IsScalar(metadata, key) <==> key in Scalars(metadata)
  {
    forall stem ensures IsArrayOf(key, stem) <==> IsArrayName(key) && Stem(key) == stem { ArrayNames(key, stem); }
    if IsArrayName(key) { assert IsArrayOf(key, Stem(key)); }
  }

  /**
   In every order of the map, message `i` has a value under a key exactly if it should have one, and
   it is one that it should have.
   */
  lemma MetadataExactly(arrays: Arrays, metadata: Metadata, i: nat, order: seq<string>, key: string)
    requires IsOrder(metadata, order)
    ensures var r := Overlay(arrays, metadata, i, order);
      (key in r <==> exists data :: HoldsFor(arrays, metadata, i, key, data)) &&
      (key in r ==> HoldsFor(arrays, metadata, i, key, r[key]))
  {
    OverlayHolds(arrays, metadata, i, order, key);
    ScalarExactly(metadata, key);
    if name :| name in order && Overrides(arrays, metadata, i, name, key) {
      var r := Overlay(arrays, metadata, i, order);
      GivenExactly(arrays, metadata, i, key, r[key]);
      assert HoldsFor(arrays, metadata, i, key, r[key]);
    } else {
      forall e ensures !GivenAt(arrays, metadata, i, key, e) {
        GivenExactly(arrays, metadata, i, key, e);
        assert forall name :: Overrides(arrays, metadata, i, name, key) ==> name in order;
      }
      if IsScalar(metadata, key) { assert HoldsFor(arrays, metadata, i, key, metadata[key]); }
    }
  }

  // ----- Collecting the metadata of a message -----

  method CopyScalars(metadata: Metadata, order: seq<string>) returns (result: Metadata)
    requires IsOrder(metadata, order)
    ensures result == Scalars(metadata)
  {
    result := map[];
    for i := 0 to |order|
      invariant forall name :: name in result <==> name in order[..i] && !IsArrayName(name)
      invariant forall name <- result :: name in metadata && result[name] == metadata[name]
    {
      assert order[..i + 1] == order[..i] + [order[i]];
      assert order[i] in metadata;
      if !IsArrayName(order[i]) { result := result[order[i] := metadata[order[i]]]; }
    }
    assert order[..|order|] == order;
  }

  method CollectionMetadataAt(arrays: Arrays, metadata: Metadata, index: nat, first: seq<string>, second: seq<string>)
    returns (result: Metadata)
    requires IsOrder(metadata, first) && IsOrder(metadata, second)
    ensures result == Overlay(arrays, metadata, index, second)
    ensures forall key :: key in result <==> exists data :: HoldsFor(arrays, metadata, index, key, data)
    ensures forall key <- result :: HoldsFor(arrays, metadata, index, key, result[key])
  {
    result := CopyScalars(metadata, first);
    for i := 0 to |second|
      invariant result == Overlay(arrays, metadata, index, second[..i])
    {
      assert second[..i + 1][..i] == second[..i];
      var name := second[i];
      assert name in metadata;
      if IsArrayName(name) {
        var element := ElementAt(arrays, metadata[name], index);
        if element.Some? { result := result[name[..|name| - |ARRAY|] := element.value]; }
      }
    }
    assert second[..|second|] == second;
    forall key
      ensures key in result <==> exists data :: HoldsFor(arrays, metadata, index, key, data)
      ensures key in result ==> HoldsFor(arrays, metadata, index, key, result[key])
    {
      MetadataExactly(arrays, metadata, index, second, key);
    }
  }

  // ----- When the order of the map matters -----

  /** Two arrays named `key`, which differ only in the case of the suffix, give a message different values. */
  ghost predicate ClashAt(arrays: Arrays, metadata: Metadata, index: nat, key: string) {
    exists d, e :: GivenAt(arrays, metadata, index, key, d) && GivenAt(arrays, metadata, index, key, e) && d != e
  }

  ghost predicate Clashing(arrays: Arrays, metadata: Metadata, index: nat) {
    exists key :: ClashAt(arrays, metadata, index, key)
  }

  predicate Clash(arrays: Arrays, metadata: Metadata, index: nat, a: string, b: string) {
    Given(arrays, metadata, index, a).Some? && Given(arrays, metadata, index, b).Some? &&
    Stem(a) == Stem(b) && Given(arrays, metadata, index, a) != Given(arrays, metadata, index, b)
  }

  lemma ClashAtExactly(arrays: Arrays, metadata: Metadata, index: nat, key: string)
    ensures ClashAt(arrays, metadata, index, key) <==>
            exists a, b :: Clash(arrays, metadata, index, a, b) && Stem(a) == key
  {
    forall d ensures GivenAt(arrays, metadata, index, key, d) <==>
      exists name :: Overrides(arrays, metadata, index, name, key) && Given(arrays, metadata, index, name) == Some(d)
    {
      GivenExactly(arrays, metadata, index, key, d);
    }
    if a, b :| Clash(arrays, metadata, index, a, b) && Stem(a) == key {
      var d, e := Given(arrays, metadata, index, a).value, Given(arrays, metadata, index, b).value;
      assert Overrides(arrays, metadata, index, a, key) && Overrides(arrays, metadata, index, b, key);
      assert GivenAt(arrays, metadata, index, key, d) && GivenAt(arrays, metadata, index, key, e);
    }
    if d, e :| GivenAt(arrays, metadata, index, key, d) && GivenAt(arrays, metadata, index, key, e) && d != e {
      var a :| Overrides(arrays, metadata, index, a, key) && Given(arrays, metadata, index, a) == Some(d);
      var b :| Overrides(arrays, metadata, index, b, key) && Given(arrays, metadata, index, b) == Some(e);
      assert Clash(arrays, metadata, index, a, b);
    }
  }

  ghost predicate Deterministic(arrays: Arrays, metadata: Metadata, index: nat) {
    forall o, p :: IsOrder(metadata, o) && IsOrder(metadata, p) ==>
      Overlay(arrays, metadata, index, o) == Overlay(arrays, metadata, index, p)
  }

  lemma SameKey(arrays: Arrays, metadata: Metadata, index: nat, o: seq<string>, p: seq<string>, key: string)
    requires IsOrder(metadata, o) && IsOrder(metadata, p) && !ClashAt(arrays, metadata, index, key)
    ensures var r, s := Overlay(arrays, metadata, index, o), Overlay(arrays, metadata, index, p);
      (key in r <==> key in s) && (key in r ==> r[key] == s[key])
  {
    MetadataExactly(arrays, metadata, index, o, key);
    MetadataExactly(arrays, metadata, index, p, key);
  }

  lemma SameOverlay(arrays: Arrays, metadata: Metadata, index: nat, o: seq<string>, p: seq<string>)
    requires IsOrder(metadata, o) && IsOrder(metadata, p) && !Clashing(arrays, metadata, index)
    ensures Overlay(arrays, metadata, index, o) == Overlay(arrays, metadata, index, p)
  {
    var r, s := Overlay(arrays, metadata, index, o), Overlay(arrays, metadata, index, p);
    forall key ensures (key in r <==> key in s) && (key in r ==> r[key] == s[key]) {
      SameKey(arrays, metadata, index, o, p, key);
    }
  }

  /** Some order of the keys of a set. */
  lemma {:induction false} SomeOrder(names: set<string>) returns (order: seq<string>)
    ensures forall name :: name in order <==> name in names
    ensures forall i, j :: 0 <= i < j < |order| ==> order[i] != order[j]
    decreases |names|
  {
    if names == {} {
      order := [];
    } else {
      var name :| name in names;
      var front := SomeOrder(names - {name});
      order := front + [name];
    }
  }

  lemma LastWins(arrays: Arrays, metadata: Metadata, index: nat, front: seq<string>, name: string)
    requires Given(arrays, metadata, index, name).Some?
    ensures var r := Overlay(arrays, metadata, index, front + [name]);
      Stem(name) in r && r[Stem(name)] == Given(arrays, metadata, index, name).value
  {
    assert (front + [name])[..|front|] == front;
  }

  lemma OrderWithTwoLast(metadata: Metadata, front: seq<string>, a: string, b: string)
    requires a in metadata && b in metadata && a != b
    requires forall name :: name in front <==> name in metadata.Keys - {a, b}
    requires forall i, j :: 0 <= i < j < |front| ==> front[i] != front[j]
    ensures IsOrder(metadata, front + [a] + [b])
  {
    assert forall i :: 0 <= i < |front| ==> front[i] in front;
  }

  lemma ClashOrders(
    arrays: Arrays, metadata: Metadata, index: nat, a: string, b: string) returns (o: seq<string>, p: seq<string>)
    requires Clash(arrays, metadata, index, a, b)
    ensures IsOrder(metadata, o) && IsOrder(metadata, p)
    ensures Overlay(arrays, metadata, index, o) != Overlay(arrays, metadata, index, p)
  {
    var front := SomeOrder(metadata.Keys - {a, b});
    o, p := front + [a] + [b], front + [b] + [a];
    OrderWithTwoLast(metadata, front, a, b);
    OrderWithTwoLast(metadata, front, b, a);
    LastWins(arrays, metadata, index, front + [a], b);
    LastWins(arrays, metadata, index, front + [b], a);
  }

  /** The override is deterministic exactly when no two arrays of one name clash. */
  lemma DeterministicExactly(arrays: Arrays, metadata: Metadata, index: nat)
    ensures Deterministic(arrays, metadata, index) <==> !Clashing(arrays, metadata, index)
  {
    if key :| ClashAt(arrays, metadata, index, key) {
      ClashAtExactly(arrays, metadata, index, key);
      var a, b :| Clash(arrays, metadata, index, a, b) && Stem(a) == key;
      var o, p := ClashOrders(arrays, metadata, index, a, b);
    } else {
      forall o, p | IsOrder(metadata, o) && IsOrder(metadata, p)
        ensures Overlay(arrays, metadata, index, o) == Overlay(arrays, metadata, index, p)
      {
        SameOverlay(arrays, metadata, index, o, p);
      }
    }
  }

  lemma FooArrays()
    ensures "FooArray" != "FooARRAY" && IsArrayOf("FooArray", "Foo") && IsArrayOf("FooARRAY", "Foo")
  {
    var a, b := "FooArray", "FooARRAY";
    assert a[4] != b[4];
    assert a == "Foo" + "Array" && a[3..] == "Array" && b == "Foo" + "ARRAY" && b[3..] == "ARRAY";
  }

  lemma ClashOf(arrays: Arrays, a: string, b: string, key: string)
    requires a != b && IsArrayOf(a, key) && IsArrayOf(b, key)
    ensures !Deterministic(arrays, map[a := IntList([1]), b := IntList([2])], 0)
  {
    var metadata := map[a := IntList([1]), b := IntList([2])];
    assert GivenAt(arrays, metadata, 0, key, IntData(1)) by { assert IsEntry(arrays, metadata[a], 0, IntData(1)); }
    assert GivenAt(arrays, metadata, 0, key, IntData(2)) by { assert IsEntry(arrays, metadata[b], 0, IntData(2)); }
    assert ClashAt(arrays, metadata, 0, key);
    DeterministicExactly(arrays, metadata, 0);
  }

  /** Such metadata exists: two names that differ only in the case of the suffix. */
  lemma ClashExists(arrays: Arrays)
    ensures !Deterministic(arrays, map["FooArray" := IntList([1]), "FooARRAY" := IntList([2])], 0)
  {
    FooArrays();
    ClashOf(arrays, "FooArray", "FooARRAY", "Foo");
  }
}
