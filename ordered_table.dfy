/**
 * A Python dict with string keys: a map plus the order in which its keys
 * were first inserted. Assigning to a key that is already present keeps its
 * position and replaces its value.
 */
module OrderedTable {

  datatype Table<V> = Table(keys: seq<string>, values: map<string, V>) {
    /** The keys are listed once each, and exactly the keys of the map are listed. */
    predicate Valid() {
      && (forall i, j :: 0 <= i < j < |keys| ==> keys[i] != keys[j])
      && (forall k :: k in keys ==> k in values)
      && (forall k :: k in values ==> k in keys)
    }
  }

  function Empty<V>(): (t: Table<V>)
    ensures t.Valid() && t.keys == [] && t.values == map[]
  {
    Table([], map[])
  }

  /** `d[k] = v` */
  function Put<V>(t: Table<V>, k: string, v: V): (r: Table<V>)
    ensures t.Valid() ==> r.Valid()
    ensures r.values == t.values[k := v]
    ensures r.keys == if k in t.values then t.keys else t.keys + [k]
  {
    if k in t.values then Table(t.keys, t.values[k := v])
    else Table(t.keys + [k], t.values[k := v])
  }
}
