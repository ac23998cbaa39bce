/** An insertion-ordered dictionary (Python's `OrderedDict`), read from its most recent entry back: what
    the cache and the search continuation registry keep their entries in. */
module OrderedDict {
  import opened Collections

  datatype Dict<K, V> = Empty | Newer(older: Dict<K, V>, key: K, value: V)

  function Size<K, V>(d: Dict<K, V>): nat {
    match d
    case Empty => 0
    case Newer(older, _, _) => Size(older) + 1
  }

  function Lookup<K(==), V>(d: Dict<K, V>, key: K): Option<V> {
    match d
    case Empty => None
    case Newer(older, k, v) => if k == key then Some(v) else Lookup(older, key)
  }

  predicate Has<K(==), V>(d: Dict<K, V>, key: K) {
    Lookup(d, key).Some?
  }

  /** No key has two entries. */
  predicate Distinct<K(==), V>(d: Dict<K, V>) {
    match d
    case Empty => true
    case Newer(older, k, _) => Distinct(older) && !Has(older, k)
  }

  /** The entries that `keep` says stay, in their order. */
  function Keep<K, V>(d: Dict<K, V>, keep: (K, V) -> bool): Dict<K, V> {
    match d
    case Empty => Empty
    case Newer(older, k, v) => if keep(k, v) then Newer(Keep(older, keep), k, v) else Keep(older, keep)
  }

  function Other<K(==), V>(key: K): (K, V) -> bool {
    (k, v: V) => k != key
  }

  function NotAmong<K(==), V>(keys: set<K>): (K, V) -> bool {
    (k, v: V) => k !in keys
  }

  /** `pop(key, None)`. */
  function Without<K(==), V>(d: Dict<K, V>, key: K): Dict<K, V> {
    Keep(d, Other(key))
  }

  function WithoutAll<K(==), V>(d: Dict<K, V>, keys: set<K>): Dict<K, V> {
    Keep(d, NotAmong(keys))
  }

  /** The keys that `keep` does not keep. */
  function Dropped<K(==), V>(d: Dict<K, V>, keep: (K, V) -> bool): set<K> {
    match d
    case Empty => {}
    case Newer(older, k, v) => Dropped(older, keep) + if keep(k, v) then {} else {k}
  }

  /** Sets a key and makes it the most recent one (`d[key] = value` with `move_to_end`). */
  function Put<K(==), V>(d: Dict<K, V>, key: K, value: V): Dict<K, V> {
    Newer(Without(d, key), key, value)
  }

  // ---------------------------------------------------------------- keeping

  /** Keeping entries by a condition keeps the value of a key exactly if it meets the condition. */
  lemma {:induction false} LookupKeep<K, V>(d: Dict<K, V>, keep: (K, V) -> bool, key: K)
    requires Distinct(d)
    ensures Distinct(Keep(d, keep))
    ensures Lookup(Keep(d, keep), key) ==
            match Lookup(d, key)
            case None => None
            case Some(value) => if keep(key, value) then Some(value) else None
  {
    match d
    case Empty =>
    case Newer(older, k, v) =>
      LookupKeep(older, keep, key);
      LookupKeep(older, keep, k);
  }

  lemma {:induction false} KeepKeepsDistinct<K, V>(d: Dict<K, V>, keep: (K, V) -> bool)
    requires Distinct(d)
    ensures Distinct(Keep(d, keep))
  {
    match d
    case Empty =>
    case Newer(older, k, _) =>
      LookupKeep(older, keep, k);
      KeepKeepsDistinct(older, keep);
  }

  /** Setting a key changes what that key looks up, and nothing else. */
  lemma PutIsPut<K, V>(d: Dict<K, V>, key: K, value: V, other: K)
    requires Distinct(d)
    ensures Distinct(Put(d, key, value))
    ensures Lookup(Put(d, key, value), other) == if other == key then Some(value) else Lookup(d, other)
  {
    LookupKeep(d, Other(key), other);
    LookupKeep(d, Other(key), key);
  }

  // ---------------------------------------------------------------- removing

  lemma {:induction false} WithoutNone<K, V>(d: Dict<K, V>)
    ensures WithoutAll(d, {}) == d
  {
    match d
    case Empty =>
    case Newer(older, _, _) => WithoutNone(older);
  }

  lemma {:induction false} WithoutOneMore<K, V>(d: Dict<K, V>, keys: set<K>, key: K)
    ensures Without(WithoutAll(d, keys), key) == WithoutAll(d, keys + {key})
  {
    match d
    case Empty =>
    case Newer(older, _, _) => WithoutOneMore(older, keys, key);
  }

  /** Removing a key that is not there changes nothing. */
  lemma {:induction false} WithoutMissing<K, V>(d: Dict<K, V>, key: K)
    requires !Has(d, key)
    ensures Without(d, key) == d
  {
    match d
    case Empty =>
    case Newer(older, _, _) => WithoutMissing(older, key);
  }

  /** Removing a key that is there takes one entry away. */
  lemma {:induction false} WithoutOne<K, V>(d: Dict<K, V>, key: K)
    requires Distinct(d) && Has(d, key)
    ensures Size(Without(d, key)) == Size(d) - 1
  {
    match d
    case Empty =>
    case Newer(older, k, _) =>
      if k == key {
        WithoutMissing(older, key);
      } else {
        WithoutOne(older, key);
      }
  }

  lemma {:induction false} WithoutIsSmaller<K, V>(d: Dict<K, V>, key: K)
    requires Has(d, key)
    ensures Size(Without(d, key)) < Size(d)
  {
    if d.key == key {
      KeepIsNoLarger(d.older, Other(key));
    } else {
      WithoutIsSmaller(d.older, key);
    }
  }

  lemma {:induction false} KeepIsNoLarger<K, V>(d: Dict<K, V>, keep: (K, V) -> bool)
    ensures Size(Keep(d, keep)) <= Size(d)
  {
    match d
    case Empty =>
    case Newer(older, _, _) => KeepIsNoLarger(older, keep);
  }

  /** Removing the keys that a condition drops, one after the other, is keeping by the condition. */
  lemma {:induction false} WithoutDropped<K, V>(d: Dict<K, V>, keep: (K, V) -> bool)
    requires Distinct(d)
    ensures WithoutAll(d, Dropped(d, keep)) == Keep(d, keep)
  {
    match d
    case Empty =>
    case Newer(older, k, v) =>
      WithoutDropped(older, keep);
      if k in Dropped(older, keep) {
        DroppedIsThere(older, keep, k);
      }
      if !keep(k, v) {
        LookupKeep(older, NotAmong(Dropped(older, keep)), k);
        WithoutMissing(WithoutAll(older, Dropped(older, keep)), k);
        WithoutOneMore(older, Dropped(older, keep), k);
      } else {
        assert Dropped(d, keep) == Dropped(older, keep);
      }
  }

  lemma {:induction false} DroppedIsThere<K, V>(d: Dict<K, V>, keep: (K, V) -> bool, key: K)
    requires key in Dropped(d, keep)
    ensures Has(d, key)
  {
    match d
    case Empty =>
    case Newer(older, k, _) =>
      if k != key {
        DroppedIsThere(older, keep, key);
      }
  }
}
