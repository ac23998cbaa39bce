/** The weighted least-recently-used cache (jav_pilot/core/cache.py). */
module TtlCache {
  import opened Collections
  import opened OrderedDict

  type Time = real

  datatype Entry<+V> = Entry(value: V, expiresAt: Time, weight: nat)

  type Items<K, V> = Dict<K, Entry<V>>

  datatype Bounds = Bounds(maxItems: nat, maxWeight: Option<nat>) {
    predicate Valid() {
      maxItems >= 1 && (maxWeight.Some? ==> maxWeight.value >= 1)
    }

    predicate Fit<K, V>(items: Items<K, V>) {
      Size(items) <= maxItems && (maxWeight.Some? ==> Total(items) <= maxWeight.value)
    }

    predicate TooHeavy(weight: nat) {
      maxWeight.Some? && weight > maxWeight.value
    }

    /** Drops the oldest entries until the rest fits. */
    function Evicted<K, V>(items: Items<K, V>): Items<K, V>
      decreases Size(items)
    {
      if Fit(items) || items.Empty? then items
      else
        OneLess(items);
        Evicted(WithoutOldest(items))
    }
  }

  function Total<K, V>(items: Items<K, V>): nat {
    match items
    case Empty => 0
    case Newer(older, _, entry) => Total(older) + entry.weight
  }

  function OldestKey<K, V>(items: Items<K, V>): K
    requires items.Newer?
  {
    if items.older.Empty? then items.key else OldestKey(items.older)
  }

  function WithoutOldest<K, V>(items: Items<K, V>): Items<K, V>
    requires items.Newer?
  {
    if items.older.Empty? then Empty else Newer(WithoutOldest(items.older), items.key, items.value)
  }

  lemma {:induction false} OneLess<K, V>(items: Items<K, V>)
    requires items.Newer?
    ensures Size(WithoutOldest(items)) == Size(items) - 1
  {
    if items.older.Newer? {
      OneLess(items.older);
    }
  }

  /** An entry is gone exactly if its time has come. */
  ghost predicate AreExpiredGone<K, V>(before: Items<K, V>, after: Items<K, V>, key: K, now: Time) {
    match Lookup(before, key)
    case None => Lookup(after, key) == None
    case Some(entry) => Lookup(after, key) == if entry.expiresAt <= now then None else Some(entry)
  }

  /** The `n` most recently used entries. */
  function Newest<K, V>(items: Items<K, V>, n: nat): Items<K, V> {
    if n == 0 || items.Empty? then Empty else Newer(Newest(items.older, n - 1), items.key, items.value)
  }

  function Lives<K, V>(now: Time): (K, Entry<V>) -> bool {
    (key: K, entry: Entry<V>) => entry.expiresAt > now
  }

  function Unexpired<K, V>(items: Items<K, V>, now: Time): Items<K, V> {
    Keep(items, Lives(now))
  }

  // ---------------------------------------------------------------- weights

  /** Removing an entry takes exactly its weight away, so the running total never falls below zero. */
  lemma {:induction false} TotalWithout<K, V>(items: Items<K, V>, key: K)
    requires Distinct(items)
    ensures Total(items) == Total(Without(items, key)) + (match Lookup(items, key) case Some(e) => e.weight case None => 0)
  {
    match items
    case Empty =>
    case Newer(older, k, _) =>
      if k == key {
        WithoutMissing(older, key);
      } else {
        TotalWithout(older, key);
      }
  }

  lemma {:induction false} KeepFits<K, V>(bounds: Bounds, items: Items<K, V>, keep: (K, Entry<V>) -> bool)
    requires bounds.Fit(items)
    ensures bounds.Fit(Keep(items, keep))
  {
    KeepIsLighter(items, keep);
  }

  lemma {:induction false} KeepIsLighter<K, V>(items: Items<K, V>, keep: (K, Entry<V>) -> bool)
    ensures Total(Keep(items, keep)) <= Total(items) && Size(Keep(items, keep)) <= Size(items)
  {
    match items
    case Empty =>
    case Newer(older, _, _) => KeepIsLighter(older, keep);
  }

  // ---------------------------------------------------------------- eviction

  lemma {:induction false} RemovingOldest<K, V>(items: Items<K, V>)
    requires Distinct(items) && items.Newer?
    ensures Has(items, OldestKey(items)) && Without(items, OldestKey(items)) == WithoutOldest(items)
  {
    if items.older.Empty? {
      assert Without(items.older, items.key) == Empty;
    } else {
      RemovingOldest(items.older);
    }
  }

  lemma {:induction false} NewestOfRest<K, V>(items: Items<K, V>, n: nat)
    requires items.Newer? && n < Size(items)
    ensures Newest(WithoutOldest(items), n) == Newest(items, n)
  {
    if n > 0 {
      NewestOfRest(items.older, n - 1);
    }
  }

  lemma {:induction false} NewestIsAll<K, V>(items: Items<K, V>)
    ensures Newest(items, Size(items)) == items
  {
    match items
    case Empty =>
    case Newer(older, _, _) => NewestIsAll(older);
  }

  /** Eviction keeps the most recently used entries, as many as fit; and the newest one is among them. */
  lemma {:induction false} EvictionKeepsNewest<K, V>(bounds: Bounds, items: Items<K, V>)
    requires bounds.Valid() && items.Newer?
    requires bounds.maxWeight.Some? ==> items.value.weight <= bounds.maxWeight.value
    ensures var kept := bounds.Evicted(items);
            && Size(kept) <= bounds.maxItems && (bounds.maxWeight.Some? ==> Total(kept) <= bounds.maxWeight.value)
            && kept.Newer? && kept.key == items.key && kept.value == items.value
            && Size(kept) <= Size(items) && kept == Newest(items, Size(kept))
            && (forall m | Size(kept) < m <= Size(items) ::
                  Size(Newest(items, m)) > bounds.maxItems
                  || (bounds.maxWeight.Some? && Total(Newest(items, m)) > bounds.maxWeight.value))
    decreases Size(items)
  {
    NewestIsAll(items);
    assert items.older.Empty? ==> Size(items) == 1 && Total(items) == items.value.weight;
    if !bounds.Fit(items) {
      OneLess(items);
      EvictionKeepsNewest(bounds, WithoutOldest(items));
      var kept := bounds.Evicted(items);
      NewestOfRest(items, Size(kept));
      forall m | Size(kept) < m <= Size(items)
        ensures Size(Newest(items, m)) > bounds.maxItems
                || (bounds.maxWeight.Some? && Total(Newest(items, m)) > bounds.maxWeight.value)
      {
        if m < Size(items) {
          NewestOfRest(items, m);
        }
      }
    }
  }

  // ---------------------------------------------------------------- the latest entries

  /** Every entry is the one that was set last for its key. */
  ghost predicate AreLatest<K, V>(items: Items<K, V>, latest: map<K, Entry<V>>) {
    match items
    case Empty => true
    case Newer(older, k, entry) => AreLatest(older, latest) && k in latest && latest[k] == entry
  }

  lemma {:induction false} LookupIsLatest<K, V>(items: Items<K, V>, latest: map<K, Entry<V>>, key: K)
    requires AreLatest(items, latest) && Has(items, key)
    ensures key in latest && Lookup(items, key) == Some(latest[key])
  {
    if items.key != key {
      LookupIsLatest(items.older, latest, key);
    }
  }

  lemma {:induction false} KeptAreLatest<K, V>(items: Items<K, V>, latest: map<K, Entry<V>>, keep: (K, Entry<V>) -> bool)
    requires AreLatest(items, latest)
    ensures AreLatest(Keep(items, keep), latest)
  {
    match items
    case Empty =>
    case Newer(older, _, _) => KeptAreLatest(older, latest, keep);
  }

  lemma {:induction false} OthersAreLatest<K, V>(items: Items<K, V>, latest: map<K, Entry<V>>, key: K, entry: Entry<V>)
    requires AreLatest(items, latest)
    ensures AreLatest(Without(items, key), latest[key := entry])
  {
    match items
    case Empty =>
    case Newer(older, _, _) => OthersAreLatest(older, latest, key, entry);
  }

  lemma {:induction false} EvictedAreLatest<K, V>(bounds: Bounds, items: Items<K, V>, latest: map<K, Entry<V>>)
    requires Distinct(items) && AreLatest(items, latest)
    ensures AreLatest(bounds.Evicted(items), latest)
    decreases Size(items)
  {
    if !bounds.Fit(items) && items.Newer? {
      OneLess(items);
      RemovingOldest(items);
      KeptAreLatest(items, latest, Other(OldestKey(items)));
      KeepKeepsDistinct(items, Other(OldestKey(items)));
      EvictedAreLatest(bounds, WithoutOldest(items), latest);
    }
  }

  /** What eviction leaves of an entry is the entry. */
  lemma {:induction false} EvictedLookup<K, V>(bounds: Bounds, items: Items<K, V>, key: K)
    requires Distinct(items) && Has(bounds.Evicted(items), key)
    ensures Lookup(bounds.Evicted(items), key) == Lookup(items, key)
    decreases Size(items)
  {
    if !bounds.Fit(items) && items.Newer? {
      OneLess(items);
      RemovingOldest(items);
      LookupKeep(items, Other(OldestKey(items)), key);
      EvictedLookup(bounds, WithoutOldest(items), key);
    }
  }

  lemma RestIsOlder<K, V>(before: Items<K, V>, purged: Items<K, V>, rest: Items<K, V>, key: K, later: Time)
    requires Distinct(purged) && rest == Without(purged, key)
    requires forall other :: AreExpiredGone(before, purged, other, later)
    ensures forall other | Has(rest, other) :: Lookup(rest, other) == Lookup(before, other)
    ensures forall other | Has(rest, other) :: other != key && Lookup(rest, other).value.expiresAt > later
  {
    forall other | Has(rest, other)
      ensures Lookup(rest, other) == Lookup(before, other) && other != key && Lookup(rest, other).value.expiresAt > later
    {
      LookupKeep(purged, Other(key), other);
      assert AreExpiredGone(before, purged, other, later);
    }
  }

  class TtlCache<K(==, !new), V(!new)> {
    const bounds: Bounds
    const ttl: Time
    const weigher: Option<V -> int>
    var items: Items<K, V>
    var weight: int
    ghost var latest: map<K, Entry<V>>

    ghost predicate Valid()
      reads this
    {
      && bounds.Valid() && bounds.Fit(items)
      && Distinct(items)
      && weight == Total(items)
      && AreLatest(items, latest)
    }

    constructor (maxItems: int, ttl: Time, maxWeight: Option<int>, weigher: Option<V -> int>)
      ensures Valid() && items == Empty && latest == map[]
      ensures bounds.maxItems == if maxItems < 1 then 1 else maxItems
      ensures bounds.maxWeight == if maxWeight == None then None else Some(if maxWeight.value < 1 then 1 else maxWeight.value)
      ensures this.ttl == (if ttl < 1.0 then 1.0 else ttl) && this.weigher == weigher
    {
      var m := if maxItems < 1 then 1 else maxItems;
      var w := match maxWeight case None => None case Some(w) => Some(if w < 1 then 1 else w);
      this.bounds := Bounds(m, w);
      this.ttl := if ttl < 1.0 then 1.0 else ttl;
      this.weigher := weigher;
      items, weight, latest := Empty, 0, map[];
    }

    /** What the cache has to say about `key` at `now`: the entry set last, if it is there and unexpired. */
    function Current(key: K, now: Time): Option<V>
      reads this
    {
      match Lookup(items, key)
      case None => None
      case Some(entry) => if entry.expiresAt > now then Some(entry.value) else None
    }

    /** `_remove`; the clamp at zero never acts. */
    method Remove(key: K)
      requires Distinct(items) && weight == Total(items)
      modifies this`items, this`weight
      ensures items == Without(old(items), key)
      ensures Distinct(items) && weight == Total(items)
    {
      var entry := Lookup(items, key);
      TotalWithout(items, key);
      KeepKeepsDistinct(items, Other(key));
      if entry.None? {
        WithoutMissing(items, key);
        return;
      }
      items := Without(items, key);
      weight := if weight - entry.value.weight < 0 then 0 else weight - entry.value.weight;
    }

    /** `_purge_expired`. */
    method PurgeExpired(now: Time)
      requires Distinct(items) && weight == Total(items)
      modifies this`items, this`weight
      ensures items == Unexpired(old(items), now)
      ensures Distinct(items) && weight == Total(items)
      ensures forall key :: AreExpiredGone(old(items), items, key, now)
    {
      ghost var was := items;
      var expired := Dropped(items, Lives(now));
      ghost var all, done := expired, {};
      WithoutNone(was);
      while expired != {}
        invariant Distinct(items) && weight == Total(items)
        invariant expired + done == all
        invariant items == WithoutAll(was, done)
      {
        var key :| key in expired;
        WithoutOneMore(was, done, key);
        Remove(key);
        expired, done := expired - {key}, done + {key};
      }
      assert done == all;
      WithoutDropped(was, Lives(now));
      forall key ensures AreExpiredGone(was, items, key, now) {
        LookupKeep(was, Lives(now), key);
      }
    }

    /** `get`: the value set last for the key, exactly while its entry is there and has not expired. */
    method Get(key: K, now: Time) returns (r: Option<V>)
      requires Valid()
      modifies this`items, this`weight
      ensures Valid() && r == old(Current(key, now))
      ensures r.Some? <==> old(Lookup(items, key)).Some? && now < old(Lookup(items, key)).value.expiresAt
      ensures r.Some? ==> key in latest && latest[key].value == r.value && now < latest[key].expiresAt
      ensures r.Some? ==> old(Lookup(items, key)) == Some(latest[key])
      ensures r.Some? ==> items == Put(old(items), key, latest[key])
      ensures r.None? ==> items == Without(old(items), key)
    {
      var entry := Lookup(items, key);
      if entry.None? {
        WithoutMissing(items, key);
        return None;
      }
      LookupIsLatest(items, latest, key);
      KeptAreLatest(items, latest, Other(key));
      if entry.value.expiresAt <= now {
        KeepFits(bounds, items, Other(key));
        Remove(key);
        return None;
      }
      PutIsPut(items, key, entry.value, key);
      TotalWithout(items, key);
      WithoutOne(items, key);
      items := Put(items, key, entry.value);
      r := Some(entry.value.value);
    }

    /** `set`.  A value too heavy for the cache only takes the place of the older one. */
    method Set(key: K, value: V, now: Time, later: Time)
      requires Valid()
      modifies this
      ensures Valid()
      ensures var entry := EntryOf(value, now);
              var rest := Without(Unexpired(old(items), later), key);
              && latest == old(latest)[key := entry]
              && (items == if bounds.TooHeavy(entry.weight) then rest else bounds.Evicted(Newer(rest, key, entry)))
              && (!bounds.TooHeavy(entry.weight) ==> Lookup(items, key) == Some(entry))
      ensures key in latest && latest[key].value == value && latest[key].expiresAt == now + ttl
      ensures latest[key].weight == match weigher case None => 1 case Some(weigh) => if weigh(value) < 0 then 0 else weigh(value)
      ensures Size(items) <= bounds.maxItems && (bounds.maxWeight.Some? ==> Total(items) <= bounds.maxWeight.value)
      ensures Lookup(items, key) == if bounds.maxWeight.Some? && latest[key].weight > bounds.maxWeight.value then None
                                    else Some(latest[key])
      ensures forall other | other != key && Has(items, other) ::
                Lookup(items, other) == old(Lookup(items, other)) && Lookup(items, other).value.expiresAt > later
    {
      var entry := EntryOf(value, now);
      KeepFits(bounds, items, Lives(later));
      KeptAreLatest(items, latest, Lives(later));
      ghost var before := items;
      PurgeExpired(later);
      ghost var purged := items;
      KeepFits(bounds, items, Other(key));
      OthersAreLatest(items, latest, key, entry);
      LookupKeep(items, Other(key), key);
      Remove(key);
      RestIsOlder(before, purged, items, key, later);
      latest := latest[key := entry];
      if !bounds.TooHeavy(entry.weight) {
        Insert(key, entry);
      }
    }

    /** The second half of `set`: the new entry goes last, then the oldest ones go until the rest fits. */
    method Insert(key: K, entry: Entry<V>)
      requires Valid() && !Has(items, key) && key in latest && latest[key] == entry
      requires !bounds.TooHeavy(entry.weight)
      modifies this`items, this`weight
      ensures Valid() && items == bounds.Evicted(Newer(old(items), key, entry))
      ensures Lookup(items, key) == Some(entry)
      ensures forall other | other != key && Has(items, other) :: Lookup(items, other) == old(Lookup(items, other))
    {
      ghost var was := items;
      items := Newer(items, key, entry);
      weight := weight + entry.weight;
      EvictionKeepsNewest(bounds, items);
      EvictedAreLatest(bounds, items, latest);
      ghost var all := items;
      Evict();
      forall other | other != key && Has(items, other) ensures Lookup(items, other) == Lookup(was, other) {
        EvictedLookup(bounds, all, other);
      }
    }

    /** The eviction loop of `set`. */
    method Evict()
      requires Distinct(items) && weight == Total(items)
      modifies this`items, this`weight
      ensures Distinct(items) && weight == Total(items)
      ensures items == bounds.Evicted(old(items))
    {
      while Size(items) > bounds.maxItems || (bounds.maxWeight.Some? && weight > bounds.maxWeight.value)
        invariant Distinct(items) && weight == Total(items)
        invariant bounds.Evicted(items) == bounds.Evicted(old(items))
        decreases Size(items)
      {
        RemovingOldest(items);
        OneLess(items);
        Remove(OldestKey(items));
      }
    }

    function EntryOf(value: V, now: Time): Entry<V> {
      var w := match weigher case None => 1 case Some(weigh) => weigh(value);
      Entry(value, now + ttl, if w < 0 then 0 else w)
    }

    /** `clear`. */
    method Clear()
      requires Valid()
      modifies this`items, this`weight
      ensures Valid() && items == Empty
    {
      items, weight := Empty, 0;
    }
  }
}
