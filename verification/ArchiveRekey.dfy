/**
 * Re-keying the archive of failed downloads (jav_pilot/downloads/replacements.py, `_migrate_v6`).
 *
 * Every row moves to the key its code normalizes to.  Keys are unique and may move onto each other
 * in chains and cycles, so the rows that move are parked under temporary keys first.  The migration
 * is proved for any normalization.
 */
module ArchiveRekey {
  import opened Collections
  import CatalogCode
  import ReplacementRuns
  import ReplacementStore

  /** A row of the archive, without its key. */
  type Entry = ReplacementStore.Archived

  /** What normalization makes of a code. */
  type Normalizer = string -> Option<CatalogCode.Identity>

  /** A row that moves: from its old key, to a display code under a new key. */
  datatype Move = Move(source: string, display: string, key: string)

  // ---------------------------------------------------------------- temporary keys

  function Digit(n: nat): char
    requires n < 10
  {
    ['0', '1', '2', '3', '4', '5', '6', '7', '8', '9'][n]
  }

  function Decimal(n: nat): string {
    if n < 10 then [Digit(n)] else Decimal(n / 10) + [Digit(n % 10)]
  }

  function Padded(s: string): string
    decreases 8 - |s|
  {
    if |s| >= 8 then s else Padded("0" + s)
  }

  function TemporaryKey(position: nat): string {
    "MIGRATION" + Padded(Decimal(position))
  }

  function Value(s: string): nat {
    if s == "" then 0 else 10 * Value(s[..|s| - 1]) + (if '0' <= s[|s| - 1] <= '9' then (s[|s| - 1] - '0') as nat else 0)
  }

  lemma ValueOfLonger(s: string, n: nat)
    requires n < 10
    ensures Value(s + [Digit(n)]) == 10 * Value(s) + n
  {
    assert (s + [Digit(n)])[..|s|] == s;
    DigitValue(n);
  }

  lemma DigitValue(n: nat)
    requires n < 10
    ensures '0' <= Digit(n) <= '9' && (Digit(n) - '0') as nat == n
  {
  }

  lemma {:induction false} DecimalValue(n: nat)
    ensures Value(Decimal(n)) == n
  {
    if n < 10 {
      ValueOfLonger("", n);
      assert "" + [Digit(n)] == Decimal(n);
    } else {
      DecimalValue(n / 10);
      ValueOfLonger(Decimal(n / 10), n % 10);
    }
  }

  lemma {:induction false} ZeroValue(s: string)
    ensures Value("0" + s) == Value(s)
  {
    if s == "" {
      assert ("0" + s)[..0] == "";
    } else {
      ZeroValue(s[..|s| - 1]);
      assert ("0" + s)[..|s|] == "0" + s[..|s| - 1];
    }
  }

  lemma {:induction false} PaddedValue(s: string)
    ensures Value(Padded(s)) == Value(s)
    decreases 8 - |s|
  {
    if |s| < 8 {
      PaddedValue("0" + s);
      ZeroValue(s);
    }
  }

  /** Different positions have different temporary keys. */
  lemma TemporaryKeysDiffer(a: nat, b: nat)
    ensures TemporaryKey(a) == TemporaryKey(b) ==> a == b
  {
    PaddedValue(Decimal(a));
    PaddedValue(Decimal(b));
    DecimalValue(a);
    DecimalValue(b);
    assert TemporaryKey(a)[9..] == Padded(Decimal(a)) && TemporaryKey(b)[9..] == Padded(Decimal(b));
  }

  /** The first free temporary key, trying every `stride`-th position. */
  method FreeTemporaryKey(start: nat, stride: nat, reserved: set<string>) returns (key: string)
    requires stride > 0
    ensures key !in reserved
    ensures exists position :: position >= start && key == TemporaryKey(position)
  {
    var position := start;
    key := TemporaryKey(position);
    ghost var tried: set<string> := {};
    while key in reserved
      invariant position >= start && key == TemporaryKey(position)
      invariant tried <= reserved
      invariant forall k | k in tried :: exists p: nat :: p < position && k == TemporaryKey(p)
      decreases |reserved - tried|
    {
      if key in tried {
        var p: nat :| p < position && key == TemporaryKey(p);
        TemporaryKeysDiffer(p, position);
      }
      ghost var before := reserved - tried;
      tried := tried + {key};
      assert reserved - tried == before - {key};
      position := position + stride;
      key := TemporaryKey(position);
    }
  }

  // ---------------------------------------------------------------- what the migration is for

  predicate AllNormal(rows: map<string, Entry>, normal: Normalizer) {
    forall k | k in rows :: normal(rows[k].code).Some?
  }

  function KeyOf(rows: map<string, Entry>, normal: Normalizer, k: string): string
    requires k in rows && normal(rows[k].code).Some?
  {
    normal(rows[k].code).value.key
  }

  /** No two rows share a normalized key. */
  predicate NoneCollide(rows: map<string, Entry>, normal: Normalizer)
    requires AllNormal(rows, normal)
  {
    forall a, b | a in rows && b in rows && a != b :: KeyOf(rows, normal, a) != KeyOf(rows, normal, b)
  }

  function Normalized(e: Entry, normal: Normalizer): Entry
    requires normal(e.code).Some?
  {
    ReplacementStore.Archived(normal(e.code).value.display, e.at)
  }

  predicate IsStored(rows: map<string, Entry>, identity: CatalogCode.Identity, was: Entry) {
    identity.key in rows && rows[identity.key].code == identity.display && rows[identity.key].at == was.at
  }

  /** Every row is there once, under its normalized key, with its display code and its old time. */
  ghost predicate IsRekeyed(before: map<string, Entry>, after: map<string, Entry>, normal: Normalizer)
    requires AllNormal(before, normal)
  {
    && (forall k | k in before ::
          IsStored(after, normal(before[k].code).value, before[k]))
    && (forall key | key in after :: exists k :: k in before && normal(before[k].code).value.key == key)
    && |after| == |before|
  }

  // ---------------------------------------------------------------- planning the moves

  datatype Plan = Planned(moves: seq<Move>, targets: map<string, string>) | NotNormal | Colliding

  predicate StaysPut(rows: map<string, Entry>, normal: Normalizer, k: string)
    requires k in rows
  {
    normal(rows[k].code) == Some(CatalogCode.Identity(rows[k].code, k))
  }

  predicate IsMove(rows: map<string, Entry>, normal: Normalizer, m: Move) {
    m.source in rows && !StaysPut(rows, normal, m.source)
    && normal(rows[m.source].code) == Some(CatalogCode.Identity(m.display, m.key))
  }

  predicate MovedBefore(moves: seq<Move>, n: nat, k: string)
    requires n <= |moves|
  {
    exists i | 0 <= i < n :: moves[i].source == k
  }

  /** The moves take every row that has to move, once. */
  ghost predicate IsPlan(rows: map<string, Entry>, normal: Normalizer, moves: seq<Move>) {
    && (forall i | 0 <= i < |moves| :: IsMove(rows, normal, moves[i]))
    && (forall i, j | 0 <= i < j < |moves| :: moves[i].source != moves[j].source)
    && (forall k | k in rows :: StaysPut(rows, normal, k) || MovedBefore(moves, |moves|, k))
  }

  /** Two rows with one normalized key. */
  ghost predicate Collide(rows: map<string, Entry>, normal: Normalizer) {
    exists a, b :: a in rows && b in rows && a != b && SameKey(rows, normal, a, b)
  }

  predicate SameKey(rows: map<string, Entry>, normal: Normalizer, a: string, b: string)
    requires a in rows && b in rows
  {
    && normal(rows[a].code).Some? && normal(rows[b].code).Some?
    && normal(rows[a].code).value.key == normal(rows[b].code).value.key
  }

  /** Each row in `done` has its own target. */
  ghost predicate TargetsSoFar(rows: map<string, Entry>, normal: Normalizer, done: set<string>, targets: map<string, string>)
    requires done <= rows.Keys
  {
    && (forall k | k in done :: normal(rows[k].code).Some? && KeyOf(rows, normal, k) in targets
                                && targets[KeyOf(rows, normal, k)] == k)
    && (forall key | key in targets :: targets[key] in done && KeyOf(rows, normal, targets[key]) == key)
  }

  /** Each row in `done` that has to move does so, once. */
  ghost predicate MovesSoFar(rows: map<string, Entry>, normal: Normalizer, done: set<string>, moves: seq<Move>)
    requires done <= rows.Keys
  {
    && (forall i | 0 <= i < |moves| :: IsMove(rows, normal, moves[i]) && moves[i].source in done)
    && (forall i, j | 0 <= i < j < |moves| :: moves[i].source != moves[j].source)
    && (forall k | k in done :: StaysPut(rows, normal, k) || MovedBefore(moves, |moves|, k))
  }

  /** The first loop over the archive, in whatever order the query returns the rows. */
  method PlanMoves(rows: map<string, Entry>, normal: Normalizer) returns (plan: Plan)
    ensures plan.NotNormal? ==> !AllNormal(rows, normal)
    ensures plan.Colliding? ==> Collide(rows, normal)
    ensures plan.Planned? ==> AllNormal(rows, normal) && NoneCollide(rows, normal) && IsPlan(rows, normal, plan.moves)
    ensures plan.Planned? ==> forall k | k in rows :: KeyOf(rows, normal, k) in plan.targets
  {
    var moves: seq<Move> := [];
    var targets: map<string, string> := map[];
    var todo := rows.Keys;
    while todo != {}
      invariant todo <= rows.Keys
      invariant TargetsSoFar(rows, normal, rows.Keys - todo, targets)
      invariant MovesSoFar(rows, normal, rows.Keys - todo, moves)
    {
      var k :| k in todo;
      var identity := normal(rows[k].code);
      if identity.None? {
        return NotNormal;
      }
      var key := identity.value.key;
      ghost var done := rows.Keys - todo;
      if key in targets && targets[key] != k {
        assert SameKey(rows, normal, k, targets[key]);
        return Colliding;
      }
      TargetsNext(rows, normal, done, k, targets);
      assert rows.Keys - (todo - {k}) == done + {k};
      todo := todo - {k};
      targets := targets[key := k];
      if k != key || rows[k].code != identity.value.display {
        MovesNext(rows, normal, done, k, moves, identity.value);
        moves := moves + [Move(k, identity.value.display, key)];
      } else {
        StaysNext(rows, normal, done, k, moves);
      }
    }
    plan := Planned(moves, targets);
  }

  lemma TargetsNext(rows: map<string, Entry>, normal: Normalizer, done: set<string>, k: string, targets: map<string, string>)
    requires done <= rows.Keys && TargetsSoFar(rows, normal, done, targets)
    requires k in rows && k !in done && normal(rows[k].code).Some? && KeyOf(rows, normal, k) !in targets
    ensures TargetsSoFar(rows, normal, done + {k}, targets[KeyOf(rows, normal, k) := k])
  {
  }

  lemma StaysNext(rows: map<string, Entry>, normal: Normalizer, done: set<string>, k: string, moves: seq<Move>)
    requires done <= rows.Keys && MovesSoFar(rows, normal, done, moves)
    requires k in rows && StaysPut(rows, normal, k)
    ensures MovesSoFar(rows, normal, done + {k}, moves)
  {
  }

  lemma MovesNext(rows: map<string, Entry>, normal: Normalizer, done: set<string>, k: string, moves: seq<Move>,
                  identity: CatalogCode.Identity)
    requires done <= rows.Keys && MovesSoFar(rows, normal, done, moves)
    requires k in rows && k !in done && !StaysPut(rows, normal, k) && normal(rows[k].code) == Some(identity)
    ensures MovesSoFar(rows, normal, done + {k}, moves + [Move(k, identity.display, identity.key)])
  {
    var move := Move(k, identity.display, identity.key);
    forall x | x in done && MovedBefore(moves, |moves|, x) ensures MovedBefore(moves + [move], |moves + [move]|, x) {
      var j :| 0 <= j < |moves| && moves[j].source == x;
      assert (moves + [move])[j].source == x;
    }
    assert (moves + [move])[|moves|].source == k;
  }

  /** A temporary key for every move, none of them a key that is or will be in use. */
  method ParkingKeys(moves: seq<Move>, used: set<string>) returns (parking: seq<string>)
    ensures |parking| == |moves|
    ensures forall i | 0 <= i < |parking| :: parking[i] !in used
    ensures forall i, j | 0 <= i < j < |parking| :: parking[i] != parking[j]
  {
    parking := [];
    var reserved := used;
    for position := 0 to |moves|
      invariant |parking| == position
      invariant reserved == used + (set p | p in parking)
      invariant forall i | 0 <= i < |parking| :: parking[i] !in used
      invariant forall i, j | 0 <= i < j < |parking| :: parking[i] != parking[j]
    {
      var key := FreeTemporaryKey(position, |moves| + 1, reserved);
      reserved := reserved + {key};
      parking := parking + [key];
    }
  }

  // ---------------------------------------------------------------- moving

  /** The row that started as `k` is now at `place[k]` and says `content[k]`, and there is no other row. */
  ghost predicate Placed(place: map<string, string>, content: map<string, Entry>, rows: map<string, Entry>) {
    && content.Keys == place.Keys
    && (forall a, b {:trigger Differ(place, a, b)} | a in place && b in place && a != b :: Differ(place, a, b))
    && (forall k | k in place :: HasEntry(rows, place[k], content[k]))
    && (forall key | key in rows :: IsTaken(place, key))
  }

  predicate Differ(place: map<string, string>, a: string, b: string)
    requires a in place && b in place
  {
    place[a] != place[b]
  }

  predicate HasEntry(rows: map<string, Entry>, k: string, e: Entry) {
    k in rows && rows[k] == e
  }

  /** Some row is at `key`. */
  ghost predicate IsTaken(place: map<string, string>, key: string) {
    exists k :: k in place && place[k] == key
  }

  /** One update moves one row to a free key. */
  lemma MoveRow(place: map<string, string>, content: map<string, Entry>, rows: map<string, Entry>,
                k: string, target: string, e: Entry)
    requires Placed(place, content, rows) && k in place && target !in rows
    ensures Placed(place[k := target], content[k := e], (rows - {place[k]})[target := e])
  {
    forall a | a in place && a != k ensures place[a] != target && place[a] != place[k] {
      assert HasEntry(rows, place[a], content[a]) && Differ(place, a, k);
    }
    forall a, b | a in place && b in place && a != b ensures Differ(place[k := target], a, b) {
      assert Differ(place, a, b);
    }
    var next := (rows - {place[k]})[target := e];
    forall key | key in next ensures IsTaken(place[k := target], key) {
      assert key == target || IsTaken(place, key);
      StillTaken(place, k, target, key);
    }
    forall a | a in place ensures HasEntry(next, place[k := target][a], content[k := e][a]) {
      assert HasEntry(rows, place[a], content[a]);
    }
  }

  lemma StillTaken(place: map<string, string>, k: string, target: string, key: string)
    requires k in place
    ensures key == target || (IsTaken(place, key) && key != place[k]) ==> IsTaken(place[k := target], key)
  {
    if key == target {
      assert place[k := target][k] == key;
    } else if IsTaken(place, key) && key != place[k] {
      var x :| x in place && place[x] == key;
      assert place[k := target][x] == key;
    }
  }

  /** The moves and their parking places fit together. */
  ghost predicate Fits(before: map<string, Entry>, normal: Normalizer, moves: seq<Move>, parking: seq<string>) {
    && AllNormal(before, normal) && NoneCollide(before, normal) && IsPlan(before, normal, moves)
    && |parking| == |moves|
    && (forall i | 0 <= i < |parking| :: parking[i] !in before)
    && (forall i, k | 0 <= i < |parking| && k in before :: parking[i] != KeyOf(before, normal, k))
    && (forall i, j | 0 <= i < j < |parking| :: parking[i] != parking[j])
  }

  /** Where the row `k` is, and what it says, after `n` updates of the first pass and `m` of the second. */
  ghost predicate IsUnderWay(before: map<string, Entry>, moves: seq<Move>, parking: seq<string>, n: nat, m: nat,
                             k: string, here: string, says: Entry)
    requires m <= n <= |moves| == |parking| && k in before
  {
    && (forall i | 0 <= i < |moves| && moves[i].source == k ::
          && here == (if i < m then moves[i].key else if i < n then parking[i] else k)
          && says == if i < m then ReplacementStore.Archived(moves[i].display, before[k].at) else before[k])
    && (!MovedBefore(moves, |moves|, k) ==> here == k && says == before[k])
  }

  ghost predicate UnderWay(before: map<string, Entry>, moves: seq<Move>, parking: seq<string>, n: nat, m: nat,
                           place: map<string, string>, content: map<string, Entry>, rows: map<string, Entry>)
    requires m <= n <= |moves| == |parking|
  {
    |rows| == |before| && Placed(place, content, rows) && AllUnderWay(before, moves, parking, n, m, place, content)
  }

  /** The table has got as far as `n` updates of the first pass and `m` of the second. */
  ghost predicate Progress(before: map<string, Entry>, moves: seq<Move>, parking: seq<string>, n: nat, m: nat,
                           rows: map<string, Entry>)
    requires m <= n <= |moves| == |parking|
  {
    exists place, content :: UnderWay(before, moves, parking, n, m, place, content, rows)
  }

  ghost predicate AllUnderWay(before: map<string, Entry>, moves: seq<Move>, parking: seq<string>, n: nat, m: nat,
                              place: map<string, string>, content: map<string, Entry>)
    requires m <= n <= |moves| == |parking|
  {
    && place.Keys == content.Keys == before.Keys
    && (forall k | k in before :: IsUnderWay(before, moves, parking, n, m, k, place[k], content[k]))
  }

  /** The place an update of the first pass moves a row to is free. */
  lemma ParkingIsFree(before: map<string, Entry>, normal: Normalizer, moves: seq<Move>, parking: seq<string>, n: nat,
                      place: map<string, string>, content: map<string, Entry>, rows: map<string, Entry>)
    requires Fits(before, normal, moves, parking) && n < |moves|
    requires UnderWay(before, moves, parking, n, 0, place, content, rows)
    ensures parking[n] !in rows && moves[n].source in before && place[moves[n].source] == moves[n].source
    ensures content[moves[n].source] == before[moves[n].source]
  {
    assert IsMove(before, normal, moves[n]);
    assert IsUnderWay(before, moves, parking, n, 0, moves[n].source, place[moves[n].source], content[moves[n].source]);
    forall k | k in place ensures place[k] != parking[n] {
      assert IsUnderWay(before, moves, parking, n, 0, k, place[k], content[k]);
      if MovedBefore(moves, |moves|, k) {
        var i :| 0 <= i < |moves| && moves[i].source == k;
      }
    }
    assert parking[n] in rows ==> IsTaken(place, parking[n]);
  }

  /** The place an update of the second pass moves a row to is free. */
  lemma LandingIsFree(before: map<string, Entry>, normal: Normalizer, moves: seq<Move>, parking: seq<string>, m: nat,
                      place: map<string, string>, content: map<string, Entry>, rows: map<string, Entry>)
    requires Fits(before, normal, moves, parking) && m < |moves|
    requires UnderWay(before, moves, parking, |moves|, m, place, content, rows)
    ensures moves[m].key !in rows && moves[m].source in before && place[moves[m].source] == parking[m]
    ensures content[moves[m].source] == before[moves[m].source]
  {
    var source := moves[m].source;
    assert IsMove(before, normal, moves[m]);
    assert IsUnderWay(before, moves, parking, |moves|, m, source, place[source], content[source]);
    forall k | k in place ensures place[k] != moves[m].key {
      NotThere(before, normal, moves, parking, m, k, place[k], content[k]);
    }
    assert moves[m].key in rows ==> IsTaken(place, moves[m].key);
  }

  lemma NotThere(before: map<string, Entry>, normal: Normalizer, moves: seq<Move>, parking: seq<string>, m: nat,
                 k: string, here: string, says: Entry)
    requires Fits(before, normal, moves, parking) && m < |moves| && k in before
    requires IsUnderWay(before, moves, parking, |moves|, m, k, here, says)
    ensures here != moves[m].key
  {
    assert IsMove(before, normal, moves[m]);
    PlaceIsKeyOrParking(before, normal, moves, parking, m, k, here, says);
    if here in parking[m..] {
      var i :| 0 <= i < |parking| - m && parking[m..][i] == here;
      assert parking[m + i] != KeyOf(before, normal, moves[m].source);
    } else if k != moves[m].source {
      assert KeyOf(before, normal, k) != KeyOf(before, normal, moves[m].source);
    }
  }

  lemma PlaceIsKeyOrParking(before: map<string, Entry>, normal: Normalizer, moves: seq<Move>, parking: seq<string>, m: nat,
                            k: string, here: string, says: Entry)
    requires Fits(before, normal, moves, parking) && m <= |moves| && k in before
    requires IsUnderWay(before, moves, parking, |moves|, m, k, here, says)
    ensures here == KeyOf(before, normal, k) || here in parking[m..]
    ensures m < |moves| && moves[m].source == k ==> here == parking[m]
    ensures m == |moves| ==> here == KeyOf(before, normal, k) && says == Normalized(before[k], normal)
  {
    if MovedBefore(moves, |moves|, k) {
      var i :| 0 <= i < |moves| && moves[i].source == k;
      assert IsMove(before, normal, moves[i]);
      assert i >= m ==> parking[m..][i - m] == parking[i];
    } else {
      assert StaysPut(before, normal, k);
    }
  }

  lemma ParkNextAt(before: map<string, Entry>, normal: Normalizer, moves: seq<Move>, parking: seq<string>, n: nat,
                   k: string, here: string, says: Entry)
    requires Fits(before, normal, moves, parking) && n < |moves| && k in before
    requires IsUnderWay(before, moves, parking, n, 0, k, here, says)
    ensures if k == moves[n].source then IsUnderWay(before, moves, parking, n + 1, 0, k, parking[n], before[k])
            else IsUnderWay(before, moves, parking, n + 1, 0, k, here, says)
  {
    assert k == moves[n].source ==> MovedBefore(moves, |moves|, k);
  }

  lemma ParkNext(before: map<string, Entry>, normal: Normalizer, moves: seq<Move>, parking: seq<string>, n: nat,
                 place: map<string, string>, content: map<string, Entry>)
    requires Fits(before, normal, moves, parking) && n < |moves|
    requires AllUnderWay(before, moves, parking, n, 0, place, content) && moves[n].source in before
    ensures var source := moves[n].source;
            AllUnderWay(before, moves, parking, n + 1, 0, place[source := parking[n]], content[source := before[source]])
  {
    forall k | k in before {
      ParkNextAt(before, normal, moves, parking, n, k, place[k], content[k]);
    }
  }

  lemma LandNextAt(before: map<string, Entry>, normal: Normalizer, moves: seq<Move>, parking: seq<string>, m: nat,
                   k: string, here: string, says: Entry)
    requires Fits(before, normal, moves, parking) && m < |moves| && k in before
    requires IsUnderWay(before, moves, parking, |moves|, m, k, here, says)
    ensures if k == moves[m].source
            then IsUnderWay(before, moves, parking, |moves|, m + 1, k, moves[m].key, ReplacementStore.Archived(moves[m].display, before[k].at))
            else IsUnderWay(before, moves, parking, |moves|, m + 1, k, here, says)
  {
    assert k == moves[m].source ==> MovedBefore(moves, |moves|, k);
  }

  lemma LandNext(before: map<string, Entry>, normal: Normalizer, moves: seq<Move>, parking: seq<string>, m: nat,
                 place: map<string, string>, content: map<string, Entry>)
    requires Fits(before, normal, moves, parking) && m < |moves|
    requires AllUnderWay(before, moves, parking, |moves|, m, place, content) && moves[m].source in before
    ensures var source := moves[m].source;
            AllUnderWay(before, moves, parking, |moves|, m + 1, place[source := moves[m].key],
                        content[source := ReplacementStore.Archived(moves[m].display, before[source].at)])
  {
    forall k | k in before {
      LandNextAt(before, normal, moves, parking, m, k, place[k], content[k]);
    }
  }

  /** At first every row is in its own place. */
  lemma StartingPlaces(before: map<string, Entry>, moves: seq<Move>, parking: seq<string>)
    requires |parking| == |moves|
    ensures Progress(before, moves, parking, 0, 0, before)
  {
    var place := MapOf(before.Keys, (k: string) => k);
    assert forall key | key in before :: place[key] == key && IsTaken(place, key);
    assert UnderWay(before, moves, parking, 0, 0, place, before, before);
  }

  /** One update of either pass. */
  lemma Repack(before: map<string, Entry>, moves: seq<Move>, parking: seq<string>, n: nat, m: nat, n': nat, m': nat,
               place: map<string, string>, content: map<string, Entry>, rows: map<string, Entry>,
               source: string, target: string, e: Entry, next: map<string, Entry>)
    requires m <= n <= |moves| == |parking| && m' <= n' <= |moves|
    requires UnderWay(before, moves, parking, n, m, place, content, rows) && source in before && target !in rows
    requires next == (rows - {place[source]})[target := e] && |next| == |rows|
    requires AllUnderWay(before, moves, parking, n', m', place[source := target], content[source := e])
    ensures Progress(before, moves, parking, n', m', next)
  {
    MoveRow(place, content, rows, source, target, e);
    assert UnderWay(before, moves, parking, n', m', place[source := target], content[source := e], next);
  }

  lemma ParkSource(before: map<string, Entry>, normal: Normalizer, moves: seq<Move>, parking: seq<string>, n: nat,
                   rows: map<string, Entry>)
    requires Fits(before, normal, moves, parking) && n < |moves| && Progress(before, moves, parking, n, 0, rows)
    ensures moves[n].source in before && parking[n] !in rows && HasEntry(rows, moves[n].source, before[moves[n].source])
  {
    var place, content :| UnderWay(before, moves, parking, n, 0, place, content, rows);
    ParkingIsFree(before, normal, moves, parking, n, place, content, rows);
    assert HasEntry(rows, place[moves[n].source], content[moves[n].source]);
  }

  lemma ParkStep(before: map<string, Entry>, normal: Normalizer, moves: seq<Move>, parking: seq<string>, n: nat,
                 rows: map<string, Entry>, next: map<string, Entry>)
    requires Fits(before, normal, moves, parking) && n < |moves| && Progress(before, moves, parking, n, 0, rows)
    requires moves[n].source in before && |next| == |rows|
    requires next == (rows - {moves[n].source})[parking[n] := before[moves[n].source]]
    ensures Progress(before, moves, parking, n + 1, 0, next)
  {
    var place, content :| UnderWay(before, moves, parking, n, 0, place, content, rows);
    var source := moves[n].source;
    ParkingIsFree(before, normal, moves, parking, n, place, content, rows);
    ParkNext(before, normal, moves, parking, n, place, content);
    Repack(before, moves, parking, n, 0, n + 1, 0, place, content, rows, source, parking[n], before[source], next);
  }

  lemma LandSource(before: map<string, Entry>, normal: Normalizer, moves: seq<Move>, parking: seq<string>, m: nat,
                   rows: map<string, Entry>)
    requires Fits(before, normal, moves, parking) && m < |moves| && Progress(before, moves, parking, |moves|, m, rows)
    ensures moves[m].source in before && moves[m].key !in rows && HasEntry(rows, parking[m], before[moves[m].source])
  {
    var place, content :| UnderWay(before, moves, parking, |moves|, m, place, content, rows);
    LandingIsFree(before, normal, moves, parking, m, place, content, rows);
    assert HasEntry(rows, place[moves[m].source], content[moves[m].source]);
  }

  lemma LandStep(before: map<string, Entry>, normal: Normalizer, moves: seq<Move>, parking: seq<string>, m: nat,
                 rows: map<string, Entry>, next: map<string, Entry>)
    requires Fits(before, normal, moves, parking) && m < |moves| && Progress(before, moves, parking, |moves|, m, rows)
    requires moves[m].source in before && |next| == |rows|
    requires next == (rows - {parking[m]})[moves[m].key := ReplacementStore.Archived(moves[m].display, before[moves[m].source].at)]
    ensures Progress(before, moves, parking, |moves|, m + 1, next)
  {
    var place, content :| UnderWay(before, moves, parking, |moves|, m, place, content, rows);
    LandingIsFree(before, normal, moves, parking, m, place, content, rows);
    LandFrom(before, normal, moves, parking, m, place, content, rows, next);
  }

  lemma LandFrom(before: map<string, Entry>, normal: Normalizer, moves: seq<Move>, parking: seq<string>, m: nat,
                 place: map<string, string>, content: map<string, Entry>, rows: map<string, Entry>, next: map<string, Entry>)
    requires Fits(before, normal, moves, parking) && m < |moves|
    requires UnderWay(before, moves, parking, |moves|, m, place, content, rows)
    requires moves[m].source in before && |next| == |rows| && moves[m].key !in rows && place[moves[m].source] == parking[m]
    requires next == (rows - {parking[m]})[moves[m].key := ReplacementStore.Archived(moves[m].display, before[moves[m].source].at)]
    ensures Progress(before, moves, parking, |moves|, m + 1, next)
  {
    var source := moves[m].source;
    var entry := ReplacementStore.Archived(moves[m].display, before[source].at);
    LandNext(before, normal, moves, parking, m, place, content);
    Repack(before, moves, parking, |moves|, m, |moves|, m + 1, place, content, rows, source, moves[m].key, entry, next);
  }

  class ArchiveTable {
    var rows: map<string, Entry>

    constructor (rows: map<string, Entry>)
      ensures this.rows == rows
    {
      this.rows := rows;
    }

    /** `UPDATE ... SET code_key = target, code = code WHERE code_key = key`; the key is unique. */
    method UpdateKey(key: string, target: string, code: Option<string>) returns (unique: bool)
      modifies this
      ensures unique <==> !(key in old(rows) && target != key && target in old(rows))
      ensures key in old(rows) && unique ==>
                rows == (old(rows) - {key})[target := ReplacementStore.Archived(if code.Some? then code.value else old(rows)[key].code, old(rows)[key].at)]
      ensures key in old(rows) && unique ==> |rows| == |old(rows)|
      ensures key !in old(rows) || !unique ==> rows == old(rows)
    {
      if key !in rows {
        return true;
      }
      if target != key && target in rows {
        return false;
      }
      var entry := ReplacementStore.Archived(if code.Some? then code.value else rows[key].code, rows[key].at);
      assert |rows.Keys - {key}| == |rows.Keys| - 1;
      ghost var left := rows - {key};
      assert left.Keys == rows.Keys - {key};
      rows := (rows - {key})[target := entry];
      assert rows.Keys == left.Keys + {target};
      unique := true;
    }

    /** One update of the first pass: the parking place is free. */
    method ParkOne(ghost before: map<string, Entry>, ghost normal: Normalizer, moves: seq<Move>, parking: seq<string>, n: nat)
      returns (unique: bool)
      requires Fits(before, normal, moves, parking) && n < |moves| && Progress(before, moves, parking, n, 0, rows)
      modifies this
      ensures unique && Progress(before, moves, parking, n + 1, 0, rows)
    {
      ghost var was := rows;
      ParkSource(before, normal, moves, parking, n, rows);
      unique := UpdateKey(moves[n].source, parking[n], None);
      ParkStep(before, normal, moves, parking, n, was, rows);
    }

    /** One update of the second pass: the new key is free. */
    method LandOne(ghost before: map<string, Entry>, ghost normal: Normalizer, moves: seq<Move>, parking: seq<string>, m: nat)
      returns (unique: bool)
      requires Fits(before, normal, moves, parking) && m < |moves| && Progress(before, moves, parking, |moves|, m, rows)
      modifies this
      ensures unique && Progress(before, moves, parking, |moves|, m + 1, rows)
    {
      ghost var was := rows;
      LandSource(before, normal, moves, parking, m, rows);
      unique := UpdateKey(parking[m], moves[m].key, Some(moves[m].display));
      LandStep(before, normal, moves, parking, m, was, rows);
    }

    /** The first pass parks every row that moves; the statement never meets a taken key. */
    method Park(ghost normal: Normalizer, moves: seq<Move>, parking: seq<string>) returns (collided: bool)
      requires Fits(rows, normal, moves, parking)
      modifies this
      ensures !collided && Progress(old(rows), moves, parking, |moves|, 0, rows)
    {
      ghost var before := rows;
      StartingPlaces(before, moves, parking);
      for n := 0 to |moves|
        invariant Progress(before, moves, parking, n, 0, rows)
      {
        var unique := ParkOne(before, normal, moves, parking, n);
        if !unique {
          return true;
        }
      }
      collided := false;
    }

    /** The second pass takes every parked row to its new key; again no key is taken. */
    method Land(ghost before: map<string, Entry>, ghost normal: Normalizer, moves: seq<Move>, parking: seq<string>)
      returns (collided: bool)
      requires Fits(before, normal, moves, parking) && Progress(before, moves, parking, |moves|, 0, rows)
      modifies this
      ensures !collided && Progress(before, moves, parking, |moves|, |moves|, rows)
    {
      for m := 0 to |moves|
        invariant Progress(before, moves, parking, |moves|, m, rows)
      {
        var unique := LandOne(before, normal, moves, parking, m);
        if !unique {
          return true;
        }
      }
      collided := false;
    }

    /** The archive part of `_migrate_v6`.  On an error the transaction is rolled back. */
    method Migrate(normal: Normalizer) returns (migrated: bool)
      modifies this
      ensures migrated <==>
                && (forall k | k in old(rows) :: normal(old(rows)[k].code).Some?)
                && (forall a, b | a in old(rows) && b in old(rows) && a != b ::
                      normal(old(rows)[a].code).value.key != normal(old(rows)[b].code).value.key)
      ensures migrated <==> AllNormal(old(rows), normal) && NoneCollide(old(rows), normal)
      ensures migrated ==> IsRekeyed(old(rows), rows, normal)
      ensures !migrated ==> rows == old(rows)
    {
      var plan := PlanMoves(rows, normal);
      if !plan.Planned? {
        return false;
      }
      var parking := ParkingKeys(plan.moves, rows.Keys + plan.targets.Keys);
      ghost var before := rows;
      var collided := Park(normal, plan.moves, parking);
      if !collided {
        collided := Land(before, normal, plan.moves, parking);
        EverythingLanded(before, normal, plan.moves, parking, rows);
      }
      migrated := !collided;
    }
  }

  lemma EverythingLanded(before: map<string, Entry>, normal: Normalizer, moves: seq<Move>, parking: seq<string>,
                         rows: map<string, Entry>)
    requires Fits(before, normal, moves, parking) && Progress(before, moves, parking, |moves|, |moves|, rows)
    ensures IsRekeyed(before, rows, normal)
  {
    var place, content :| UnderWay(before, moves, parking, |moves|, |moves|, place, content, rows);
    forall k | k in before
      ensures place[k] == KeyOf(before, normal, k) && HasEntry(rows, place[k], Normalized(before[k], normal))
    {
      PlaceIsKeyOrParking(before, normal, moves, parking, |moves|, k, place[k], content[k]);
      assert HasEntry(rows, place[k], content[k]);
    }
    forall key | key in rows ensures exists k :: k in before && KeyOf(before, normal, k) == key {
      assert IsTaken(place, key);
    }
  }

  // ---------------------------------------------------------------- afterwards

  /** Normalizing a display form gives back what it came from. */
  ghost predicate Idempotent(normal: Normalizer) {
    forall code | normal(code).Some? :: normal(normal(code).value.display) == normal(code)
  }

  /** After the migration every row is its own normal form, so the archive passes the checks made on
      opening, and migrating again would move nothing. */
  lemma RekeyedIsNormal(before: map<string, Entry>, after: map<string, Entry>, normal: Normalizer)
    requires AllNormal(before, normal) && IsRekeyed(before, after, normal) && Idempotent(normal)
    ensures forall key | key in after :: StaysPut(after, normal, key)
  {
    forall key | key in after ensures StaysPut(after, normal, key) {
      var k :| k in before && normal(before[k].code).value.key == key;
      assert IsStored(after, normal(before[k].code).value, before[k]);
    }
  }

  /** The normalization that the migration uses. */
  function CatalogNormal(): Normalizer {
    code => CatalogCode.Normalize(code, ReplacementStore.MAX_CODE_LENGTH)
  }

  lemma CatalogNormalIsIdempotent()
    ensures Idempotent(CatalogNormal())
  {
    forall code | CatalogNormal()(code).Some?
      ensures CatalogNormal()(CatalogNormal()(code).value.display) == CatalogNormal()(code)
    {
      CatalogCode.NormalizeIsIdempotent(code, ReplacementStore.MAX_CODE_LENGTH);
    }
  }

  /** A migrated archive passes the checks that are made on opening the database. */
  lemma MigratedArchiveVerifies(before: map<string, Entry>, after: map<string, Entry>)
    requires AllNormal(before, CatalogNormal()) && IsRekeyed(before, after, CatalogNormal())
    ensures ReplacementRuns.NormalArchive(after)
  {
    CatalogNormalIsIdempotent();
    RekeyedIsNormal(before, after, CatalogNormal());
    forall key | key in after ensures ReplacementRuns.IsNormal(CatalogCode.Identity(after[key].code, key)) {
      assert StaysPut(after, CatalogNormal(), key);
    }
  }

  /** The archive part of `_migrate_v6`, with the code's own normalization. */
  method MigrateArchive(table: ArchiveTable) returns (migrated: bool)
    modifies table
    ensures migrated <==>
              && (forall k | k in old(table.rows) :: CatalogCode.Normalize(old(table.rows)[k].code, 40).Some?)
              && (forall a, b | a in old(table.rows) && b in old(table.rows) && a != b ::
                    CatalogCode.Normalize(old(table.rows)[a].code, 40).value.key
                    != CatalogCode.Normalize(old(table.rows)[b].code, 40).value.key)
    ensures migrated <==> AllNormal(old(table.rows), CatalogNormal()) && NoneCollide(old(table.rows), CatalogNormal())
    ensures migrated ==> IsRekeyed(old(table.rows), table.rows, CatalogNormal())
    ensures migrated ==> ReplacementRuns.NormalArchive(table.rows)
    ensures !migrated ==> table.rows == old(table.rows)
  {
    ghost var before := table.rows;
    migrated := table.Migrate(CatalogNormal());
    if migrated {
      MigratedArchiveVerifies(before, table.rows);
    }
  }
}
