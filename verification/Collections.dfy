/** Results, orders of maps and laws of sequences that several modules share. */
module Collections {
  datatype Result<+T> = Ok(value: T) | Failed

  /** `order` visits every key once. */
  ghost predicate IsOrder<K(!new), V>(m: map<K, V>, order: seq<K>) {
    (forall key :: key in order <==> key in m) &&
    forall i, j :: 0 <= i < j < |order| ==> order[i] != order[j]
  }

  lemma PlusAssociates<T>(a: seq<T>, b: seq<T>, c: seq<T>)
    ensures (a + b) + c == a + (b + c)
  {
  }
}
