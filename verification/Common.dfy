/** Small shared definitions. */
module Common {
  datatype Option<+T> = None | Some(value: T)

  predicate Distinct<T(==)>(xs: seq<T>) { forall i, j :: 0 <= i < j < |xs| ==> xs[i] != xs[j] }

  type Bytes = seq<int>

  predicate AreBytes(b: Bytes) { forall i :: 0 <= i < |b| ==> 0 <= b[i] < 256 }
}
