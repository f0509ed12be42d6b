/** A model of Python's built-in `dict`: a finite map whose keys remember the
    order in which they were first inserted. Assigning to an existing key
    changes its value and keeps its position; assigning to a new key appends
    it at the end. Iteration (`keys()`, `items()`) follows that order. */
module PyDict {
  import opened Basics

  datatype Dict<K(==,!new), V> = Dict(order: seq<K>, entries: map<K, V>) {

    /** Every key occurs once in `order`, and `order` lists exactly the keys. */
    ghost predicate Valid() {
      && Distinct(order)
      && (forall k :: k in entries <==> k in order)
    }

    /** Python's `not d`. */
    predicate IsEmpty() {
      |order| == 0
    }

    /** `d.get(k)`: the value stored under `k`, if any. */
    function Get(k: K): Option<V> {
      if k in entries then Some(entries[k]) else None
    }

    /** `d[k] = v`. */
    function Put(k: K, v: V): (d: Dict<K, V>)
      requires Valid()
      ensures d.Valid()
      ensures d.entries == entries[k := v]
      ensures k in entries ==> d.order == order
      ensures k !in entries ==> d.order == order + [k]
    {
      if k in entries then Dict(order, entries[k := v])
      else
        var d := Dict(order + [k], entries[k := v]);
        assert Distinct(d.order) by {
          forall i, j | 0 <= i < j < |d.order| ensures d.order[i] != d.order[j] {
            if j == |order| { assert d.order[i] == order[i]; }
          }
        }
        d
    }
  }

  function Empty<K(==,!new), V>(): (d: Dict<K, V>)
    ensures d.Valid() && d.IsEmpty() && d.entries == map[]
  {
    Dict([], map[])
  }

  /** For a valid dict, `not d` holds exactly when it has no keys. */
  lemma EmptyIffNoKeys<K(!new), V>(d: Dict<K, V>)
    requires d.Valid()
    ensures d.IsEmpty() <==> d.entries == map[]
  {
    if !d.IsEmpty() {
      assert d.order[0] in d.entries;
    }
  }
}
