/** Optional values, results, and maps built from a function: shared by every module of the model. */
module Collections {

  datatype Option<+T> = None | Some(value: T)

  datatype Result<+T, +E> = Ok(value: T) | Err(error: E)

  /** `m` takes every key of `keys`, and no other, to what `f` says. */
  ghost predicate Tabulates<K, V>(m: map<K, V>, keys: set<K>, f: K --> V) {
    m.Keys == keys && forall k | k in keys :: f.requires(k) && m[k] == f(k)
  }

  ghost function MapOf<K, V>(keys: set<K>, f: K --> V): (m: map<K, V>)
    requires forall k | k in keys :: f.requires(k)
    ensures m.Keys == keys
    ensures forall k | k in keys :: m[k] == f(k)
  {
    MapExists(keys, f);
    var m :| Tabulates(m, keys, f);
    m
  }

  lemma {:induction false} MapExists<K, V>(keys: set<K>, f: K --> V)
    requires forall k | k in keys :: f.requires(k)
    ensures exists m :: Tabulates(m, keys, f)
  {
    if keys == {} {
      assert Tabulates(map[], keys, f);
    } else {
      var k :| k in keys;
      MapExists(keys - {k}, f);
      var m :| Tabulates(m, keys - {k}, f);
      assert Tabulates(m[k := f(k)], keys, f);
    }
  }

  lemma {:induction false} SubsetSize<T>(small: set<T>, large: set<T>)
    requires small <= large
    ensures |small| <= |large|
  {
    assert large == small + (large - small);
  }
}
