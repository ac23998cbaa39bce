/** The migration runner (jav_pilot/core/migrations.py): every pending migration and its ledger row in one
    transaction, and chains of JSON migrations. */
module Migrations {
  import opened Collections

  type Component = string

  datatype MigrationError = InvalidComponent | InvalidVersion | Incomplete | TooNew | Failed

  /** `[a-z][a-z0-9_]{0,63}` */
  predicate IsComponent(name: string) {
    && 1 <= |name| <= 64 && 'a' <= name[0] <= 'z'
    && forall i | 0 <= i < |name| :: 'a' <= name[i] <= 'z' || '0' <= name[i] <= '9' || name[i] == '_'
  }

  /** A lower-case letter, and at most 63 letters, digits and underscores after it. */
  ghost predicate SaysComponent(name: string) {
    exists first: char, rest: string ::
      name == [first] + rest && 'a' <= first <= 'z' && |rest| < 64 && AreComponentChars(rest)
  }

  predicate AreComponentChars(rest: string) {
    forall c | c in rest :: 'a' <= c <= 'z' || '0' <= c <= '9' || c == '_'
  }

  lemma ComponentExactly(name: string)
    ensures IsComponent(name) <==> SaysComponent(name)
  {
    if IsComponent(name) {
      assert name == [name[0]] + name[1..];
      assert AreComponentChars(name[1..]);
    }
    if first: char, rest: string :| name == [first] + rest && 'a' <= first <= 'z' && |rest| < 64 && AreComponentChars(rest) {
      forall i | 0 <= i < |name| ensures 'a' <= name[i] <= 'z' || '0' <= name[i] <= '9' || name[i] == '_' {
        assert i > 0 ==> name[i] in rest;
      }
    }
  }

  /** A migration step: what it makes of the data, unless it raises; and the check that follows it. */
  datatype Migration<!D> = Migration(version: int, apply: D -> Option<D>, verify: D -> bool)

  function Find<D>(migrations: seq<Migration<D>>, version: int): (r: Option<Migration<D>>)
    ensures r.Some? ==> r.value.version == version && r.value in migrations
    ensures r.None? ==> forall m | m in migrations :: m.version != version
  {
    if migrations == [] then None
    else if migrations[0].version == version then Some(migrations[0])
    else Find(migrations[1..], version)
  }

  /** The migrations define every version from 1 to `current`, and no other. */
  ghost predicate AreComplete<D>(current: int, migrations: seq<Migration<D>>) {
    current >= 1 && |migrations| == current && forall v | 1 <= v <= current :: Find(migrations, v).Some?
  }

  /** The first `n` of them in the order of their versions. */
  function InOrder<D>(migrations: seq<Migration<D>>, n: nat): (ordered: seq<Migration<D>>)
    requires forall v | 1 <= v <= n :: Find(migrations, v).Some?
    ensures |ordered| == n && forall i | 0 <= i < n :: ordered[i].version == i + 1 && ordered[i] in migrations
  {
    if n == 0 then [] else InOrder(migrations, n - 1) + [Find(migrations, n).value]
  }

  /** `_validate_migrations` and `_validate_json_migrations`. */
  method Validate<D>(current: int, migrations: seq<Migration<D>>) returns (r: Result<seq<Migration<D>>, MigrationError>)
    ensures r.Ok? <==> AreComplete(current, migrations)
    ensures r.Ok? ==> r.value == InOrder(migrations, current)
    ensures r.Err? ==> r.error in {InvalidVersion, Incomplete}
  {
    if current < 1 {
      return Err(InvalidVersion);
    }
    if |migrations| != current {
      return Err(Incomplete);
    }
    var ordered: seq<Migration<D>> := [];
    for version := 1 to current + 1
      invariant forall v | 1 <= v < version :: Find(migrations, v).Some?
      invariant ordered == InOrder(migrations, version - 1)
    {
      var found := Find(migrations, version);
      if found.None? {
        return Err(Incomplete);
      }
      ordered := ordered + [found.value];
    }
    r := Ok(ordered);
  }

  // ---------------------------------------------------------------- one attempt

  datatype Point = AfterApply(version: int) | AfterVerify(version: int) | AfterLedger(version: int)

  /** What an attempt depends on beside the database: where it fails, the clock, the final check. */
  datatype Surroundings<!D> = Surroundings(fails: Point -> bool, clock: int -> real, verifyCurrent: D -> bool)

  datatype Row = Row(component: Component, version: int)

  /** One migration inside the transaction: what it leaves, or nothing if anything about it fails. */
  function Migrated<D>(data: D, m: Migration<D>, around: Surroundings<D>): Option<D> {
    match m.apply(data)
    case None => None
    case Some(next) =>
      if || around.fails(AfterApply(m.version)) || !m.verify(next) || around.fails(AfterVerify(m.version))
         || around.clock(m.version) < 0.0 || around.fails(AfterLedger(m.version))
      then None else Some(next)
  }

  function Upgraded<D>(data: D, ordered: seq<Migration<D>>, version: nat, around: Surroundings<D>): Option<D>
    decreases |ordered| - version
  {
    if version >= |ordered| then Some(data)
    else match Migrated(data, ordered[version], around)
      case None => None
      case Some(next) => Upgraded(next, ordered, version + 1, around)
  }

  lemma UpgradedNext<D>(data: D, ordered: seq<Migration<D>>, version: nat, around: Surroundings<D>)
    requires version < |ordered|
    ensures Upgraded(data, ordered, version, around) ==
            match Migrated(data, ordered[version], around)
            case None => None
            case Some(next) => Upgraded(next, ordered, version + 1, around)
  {
  }

  /** The rows for the versions after `low` up to `high`. */
  function RowsFor(component: Component, low: int, high: int): set<Row>
    decreases high - low
  {
    if high <= low then {} else RowsFor(component, low, high - 1) + {Row(component, high)}
  }

  lemma RowsForNext(component: Component, low: int, high: int)
    requires low <= high
    ensures RowsFor(component, low, high + 1) == RowsFor(component, low, high) + {Row(component, high + 1)}
  {
  }

  lemma {:induction false} RowsForHas(component: Component, low: int, high: int, row: Row)
    ensures row in RowsFor(component, low, high) <==> row.component == component && low < row.version <= high
    decreases high - low
  {
    if low < high {
      RowsForHas(component, low, high - 1, row);
    }
  }

  lemma RowsForAll(component: Component, low: int, high: int)
    ensures forall row :: row in RowsFor(component, low, high) <==> row.component == component && low < row.version <= high
  {
    forall row
      ensures row in RowsFor(component, low, high) <==> row.component == component && low < row.version <= high
    {
      RowsForHas(component, low, high, row);
    }
  }

  /** `SELECT MAX(version)`, or zero. */
  ghost predicate IsLatest(rows: set<Row>, component: Component, version: int) {
    && version >= 0 && (version == 0 || Row(component, version) in rows)
    && forall row | row in rows && row.component == component :: row.version <= version
  }

  ghost function Latest(rows: set<Row>, component: Component): (version: nat)
    ensures IsLatest(rows, component, version)
  {
    LatestExists(rows, component);
    var version :| IsLatest(rows, component, version);
    version
  }

  lemma LatestExists(rows: set<Row>, component: Component)
    ensures exists version :: IsLatest(rows, component, version)
  {
    if row :| row in rows && row.component == component {
      LatestExists(rows - {row}, component);
      var version :| IsLatest(rows - {row}, component, version);
      assert IsLatest(rows, component, if row.version > version then row.version else version);
    } else {
      assert IsLatest(rows, component, 0);
    }
  }

  lemma LatestIs(rows: set<Row>, component: Component, version: int)
    requires IsLatest(rows, component, version)
    ensures Latest(rows, component) == version
  {
    assert IsLatest(rows, component, Latest(rows, component));
  }

  /** What `migrate_sqlite` makes of the data, if it succeeds. */
  ghost function Outcome<D>(data: D, rows: set<Row>, component: Component, current: int, migrations: seq<Migration<D>>,
                            around: Surroundings<D>): Option<D>
  {
    if !IsComponent(component) || !AreComplete(current, migrations) || Latest(rows, component) > current then None
    else match Upgraded(data, InOrder(migrations, current), Latest(rows, component), around)
      case None => None
      case Some(upgraded) => if around.verifyCurrent(upgraded) then Some(upgraded) else None
  }

  // ---------------------------------------------------------------- what an attempt passes through

  /** A step that raises nothing: it gives `after`, its check accepts that, no fault is injected and the clock is good. */
  ghost predicate Passes<D>(m: Migration<D>, before: D, after: D, around: Surroundings<D>) {
    && m.apply(before) == Some(after) && m.verify(after) && around.clock(m.version) >= 0.0
    && !around.fails(AfterApply(m.version)) && !around.fails(AfterVerify(m.version)) && !around.fails(AfterLedger(m.version))
  }

  /** A step that fails: it raises, its check refuses what it gives, a fault is injected or the clock is bad. */
  ghost predicate Stops<D>(m: Migration<D>, before: D, around: Surroundings<D>) {
    || m.apply(before) == None || !m.verify(m.apply(before).value) || around.clock(m.version) < 0.0
    || around.fails(AfterApply(m.version)) || around.fails(AfterVerify(m.version)) || around.fails(AfterLedger(m.version))
  }

  /** The data before and after each of the steps from version `from` + 1 on. */
  ghost predicate IsPath<D>(states: seq<D>, data: D, migrations: seq<Migration<D>>, from: nat, around: Surroundings<D>) {
    && states != [] && states[0] == data
    && forall i | 0 <= i < |states| - 1 :: PassesAt(states, migrations, from, around, i)
  }

  ghost predicate PassesAt<D>(states: seq<D>, migrations: seq<Migration<D>>, from: nat, around: Surroundings<D>, i: nat)
    requires i < |states| - 1
  {
    var m := Find(migrations, from + i + 1);
    m.Some? && Passes(m.value, states[i], states[i + 1], around)
  }

  /** All steps up to `current` were taken, and the final check accepts what they left. */
  ghost predicate Arrives<D>(states: seq<D>, from: nat, current: int, around: Surroundings<D>) {
    states != [] && |states| == current - from + 1 && around.verifyCurrent(states[|states| - 1])
  }

  /** The next step fails, or there is none and the final check refuses. */
  ghost predicate Breaks<D>(states: seq<D>, migrations: seq<Migration<D>>, from: nat, current: int, around: Surroundings<D>) {
    && states != [] && |states| <= current - from + 1
    && if |states| == current - from + 1 then !around.verifyCurrent(states[|states| - 1])
       else
         var m := Find(migrations, from + |states|);
         m.Some? && Stops(m.value, states[|states| - 1], around)
  }

  lemma StepPasses<D>(data: D, m: Migration<D>, around: Surroundings<D>)
    ensures Migrated(data, m, around).None? ==> Stops(m, data, around)
    ensures Migrated(data, m, around).Some? ==> Passes(m, data, Migrated(data, m, around).value, around)
  {
  }

  lemma PathBefore<D>(states: seq<D>, data: D, next: D, migrations: seq<Migration<D>>, from: nat, around: Surroundings<D>)
    requires IsPath(states, next, migrations, from + 1, around)
    requires Find(migrations, from + 1).Some? && Passes(Find(migrations, from + 1).value, data, next, around)
    ensures IsPath([data] + states, data, migrations, from, around)
  {
    var longer := [data] + states;
    forall i | 0 <= i < |longer| - 1 ensures PassesAt(longer, migrations, from, around, i) {
      if i > 0 {
        assert PassesAt(states, migrations, from + 1, around, i - 1);
      }
    }
  }

  /** Whether the steps arrive at a result, or where one of them fails. */
  ghost predicate Ends<D>(states: seq<D>, result: Option<D>, migrations: seq<Migration<D>>, from: nat, current: nat,
                          around: Surroundings<D>)
  {
    && states != [] && |states| <= current - from + 1
    && if |states| == current - from + 1 then result == Some(states[|states| - 1])
       else result == None && Breaks(states, migrations, from, current, around)
  }

  lemma EndsBefore<D>(states: seq<D>, data: D, result: Option<D>, migrations: seq<Migration<D>>, from: nat, current: nat,
                      around: Surroundings<D>)
    requires Ends(states, result, migrations, from + 1, current, around)
    ensures Ends([data] + states, result, migrations, from, current, around)
  {
    var longer := [data] + states;
    assert |longer| == |states| + 1 && longer[|longer| - 1] == states[|states| - 1];
  }

  lemma EndsHere<D>(data: D, migrations: seq<Migration<D>>, from: nat, current: nat, around: Surroundings<D>)
    requires AreComplete(current, migrations) && from < current
    requires Stops(Find(migrations, from + 1).value, data, around)
    ensures Ends([data], None, migrations, from, current, around)
  {
  }

  lemma InOrderIs<D>(migrations: seq<Migration<D>>, n: nat, i: nat)
    requires i < n && forall v | 1 <= v <= n :: Find(migrations, v).Some?
    ensures InOrder(migrations, n)[i] == Find(migrations, i + 1).value
  {
  }

  /** An upgrade takes the steps one after the other, until it arrives or one of them fails. */
  lemma {:induction false} UpgradePath<D>(data: D, migrations: seq<Migration<D>>, from: nat, current: nat,
                                          around: Surroundings<D>) returns (states: seq<D>)
    requires AreComplete(current, migrations) && from <= current
    ensures IsPath(states, data, migrations, from, around)
    ensures Ends(states, Upgraded(data, InOrder(migrations, current), from, around), migrations, from, current, around)
    decreases current - from
  {
    var ordered := InOrder(migrations, current);
    states := [data];
    if from < current {
      InOrderIs(migrations, current, from);
      StepPasses(data, ordered[from], around);
      UpgradedNext(data, ordered, from, around);
      match Migrated(data, ordered[from], around)
      case None => EndsHere(data, migrations, from, current, around);
      case Some(next) =>
        var rest := UpgradePath(next, migrations, from + 1, current, around);
        PathBefore(rest, data, next, migrations, from, around);
        EndsBefore(rest, data, Upgraded(next, ordered, from + 1, around), migrations, from, current, around);
        states := [data] + rest;
    }
  }

  class Connection<!D> {
    var data: D
    var rows: set<Row>

    constructor (data: D)
      ensures this.data == data && rows == {}
    {
      this.data, rows := data, {};
    }

    method MaxVersion(component: Component) returns (version: int)
      ensures version == Latest(rows, component)
    {
      version := 0;
      var left := rows;
      while left != {}
        invariant left <= rows && version >= 0 && (version == 0 || Row(component, version) in rows)
        invariant forall row | row in rows - left && row.component == component :: row.version <= version
      {
        var row :| row in left;
        if row.component == component && row.version > version {
          version := row.version;
        }
        left := left - {row};
      }
      LatestIs(rows, component, version);
    }

    /** One migration and its ledger row, inside the transaction. */
    method ApplyOne(component: Component, m: Migration<D>, around: Surroundings<D>) returns (ok: bool)
      modifies this
      ensures ok <==> Migrated(old(data), m, around).Some?
      ensures ok ==> Migrated(old(data), m, around) == Some(data) && rows == old(rows) + {Row(component, m.version)}
    {
      var next := m.apply(data);
      if next.None? {
        return false;
      }
      data := next.value;
      if || around.fails(AfterApply(m.version)) || !m.verify(data) || around.fails(AfterVerify(m.version))
         || around.clock(m.version) < 0.0
      {
        return false;
      }
      rows := rows + {Row(component, m.version)};
      ok := !around.fails(AfterLedger(m.version));
    }

    /** The loop of `migrate_sqlite`, inside the transaction. */
    method ApplyPending(component: Component, ordered: seq<Migration<D>>, from: nat, around: Surroundings<D>)
      returns (ok: bool)
      requires from <= |ordered| && forall i | 0 <= i < |ordered| :: ordered[i].version == i + 1
      modifies this
      ensures ok <==> Upgraded(old(data), ordered, from, around).Some?
      ensures ok ==> && Upgraded(old(data), ordered, from, around) == Some(data)
                     && rows == old(rows) + RowsFor(component, from, |ordered|)
    {
      var version: int := from;
      for i := 0 to |ordered|
        invariant version == if i > from then i else from
        invariant Upgraded(data, ordered, version, around) == Upgraded(old(data), ordered, from, around)
        invariant rows == old(rows) + RowsFor(component, from, version)
      {
        if ordered[i].version > version {
          UpgradedNext(data, ordered, version, around);
          RowsForNext(component, from, version);
          var done := ApplyOne(component, ordered[i], around);
          if !done {
            return false;
          }
          version := ordered[i].version;
        }
      }
      ok := true;
    }

    /** `migrate_sqlite`.  It succeeds exactly if nothing about it fails, and then every pending migration
        has run once, in order, and has its row; if anything fails the database is as before. */
    method MigrateSqlite(component: Component, current: int, migrations: seq<Migration<D>>, around: Surroundings<D>)
      returns (r: Result<int, MigrationError>, ghost states: seq<D>)
      modifies this
      ensures r.Ok? || r == Err(Failed) ==>
                && IsComponent(component) && AreComplete(current, migrations) && Latest(old(rows), component) <= current
                && IsPath(states, old(data), migrations, Latest(old(rows), component), around)
      ensures r.Ok? ==> Arrives(states, Latest(old(rows), component), current, around) && data == states[|states| - 1]
      ensures r.Ok? ==> forall row :: row in rows <==>
                row in old(rows) || (row.component == component && Latest(old(rows), component) < row.version <= current)
      ensures r == Err(Failed) ==> Breaks(states, migrations, Latest(old(rows), component), current, around)
      ensures r == Err(InvalidComponent) <==> !SaysComponent(component)
      ensures r == Err(InvalidVersion) || r == Err(Incomplete) <==> IsComponent(component) && !AreComplete(current, migrations)
      ensures r.Ok? <==> Outcome(old(data), old(rows), component, current, migrations, around).Some?
      ensures r.Ok? ==>
                && r.value == current
                && Outcome(old(data), old(rows), component, current, migrations, around) == Some(data)
                && rows == old(rows) + RowsFor(component, Latest(old(rows), component), current)
      ensures r.Err? ==> data == old(data) && rows == old(rows)
      ensures r == Err(TooNew) <==>
                IsComponent(component) && AreComplete(current, migrations) && Latest(old(rows), component) > current
    {
      states := [];
      ComponentExactly(component);
      if !IsComponent(component) {
        return Err(InvalidComponent), states;
      }
      var validated := Validate(current, migrations);
      if validated.Err? {
        return Err(validated.error), states;
      }
      var version := MaxVersion(component);
      if version > current {
        return Err(TooNew), states;
      }
      states := UpgradePath(data, migrations, version, current, around);
      RowsForAll(component, version, current);
      var savedData, savedRows := data, rows;
      var ok := ApplyPending(component, validated.value, version, around);
      if ok {
        ok := around.verifyCurrent(data);
      }
      if !ok {
        data, rows := savedData, savedRows;
        return Err(Failed), states;
      }
      r := Ok(current);
    }
  }

  // ---------------------------------------------------------------- every run

  /** One call of `migrate_sqlite` by a release that knows the first `current` migrations of a component. */
  datatype Attempt<!D> = Attempt(component: Component, current: int, migrations: seq<Migration<D>>, around: Surroundings<D>)

  datatype Database<D> = Database(data: D, rows: set<Row>)

  /** What an attempt leaves: what `MigrateSqlite` ensures. */
  ghost function AfterAttempt<D>(db: Database<D>, a: Attempt<D>): Database<D> {
    match Outcome(db.data, db.rows, a.component, a.current, a.migrations, a.around)
    case None => db
    case Some(data) => Database(data, db.rows + RowsFor(a.component, Latest(db.rows, a.component), a.current))
  }

  ghost function AfterRun<D>(db: Database<D>, run: seq<Attempt<D>>): Database<D> {
    if run == [] then db else AfterAttempt(AfterRun(db, run[..|run| - 1]), run[|run| - 1])
  }

  /** The steps of each component, once and for all: releases differ in how many of them they know. */
  type Steps<!D> = Component -> seq<D -> Option<D>>

  /** Every migration of a release is the step of its component and version. */
  ghost predicate Knows<D>(steps: Steps<D>, a: Attempt<D>) {
    && a.current <= |steps(a.component)|
    && forall m | m in a.migrations && 1 <= m.version <= a.current :: m.apply == steps(a.component)[m.version - 1]
  }

  function Count(history: seq<Row>, component: Component): nat {
    if history == [] then 0
    else Count(history[..|history| - 1], component) + if history[|history| - 1].component == component then 1 else 0
  }

  /** Running the steps of a history, one after the other. */
  function Replay<D>(steps: Steps<D>, history: seq<Row>, data: D): Option<D> {
    if history == [] then Some(data)
    else match Replay(steps, history[..|history| - 1], data)
      case None => None
      case Some(before) =>
        var row := history[|history| - 1];
        if 1 <= row.version <= |steps(row.component)| then steps(row.component)[row.version - 1](before) else None
  }

  /** Each component's versions come in order, each once. */
  ghost predicate IsInOrder(history: seq<Row>) {
    history == []
    || (var front, last := history[..|history| - 1], history[|history| - 1];
        IsInOrder(front) && last.version == Count(front, last.component) + 1)
  }

  ghost predicate IsLedgerOf(rows: set<Row>, history: seq<Row>) {
    forall component, v :: Row(component, v) in rows <==> 1 <= v <= Count(history, component)
  }

  /** The database is what its history of steps makes of the data it began with, and its ledger has for
      each component exactly the versions from 1 to how many of its steps the history holds. */
  ghost predicate IsHistory<D>(steps: Steps<D>, start: D, db: Database<D>, history: seq<Row>) {
    && IsInOrder(history)
    && Replay(steps, history, start) == Some(db.data)
    && IsLedgerOf(db.rows, history)
  }

  /** One more step of a component: the next version. */
  lemma OneMoreStep<D>(steps: Steps<D>, start: D, history: seq<Row>, data: D, component: Component, next: D)
    requires IsInOrder(history) && Replay(steps, history, start) == Some(data)
    requires Count(history, component) < |steps(component)|
    requires steps(component)[Count(history, component)](data) == Some(next)
    ensures var longer := history + [Row(component, Count(history, component) + 1)];
            && IsInOrder(longer) && Replay(steps, longer, start) == Some(next)
            && forall c :: Count(longer, c) == Count(history, c) + if c == component then 1 else 0
  {
    var longer := history + [Row(component, Count(history, component) + 1)];
    assert longer[..|longer| - 1] == history;
  }

  /** An attempt that succeeds continues the history with the pending versions. */
  lemma {:induction false} UpgradeContinues<D>(steps: Steps<D>, start: D, history: seq<Row>, data: D, component: Component,
                                               ordered: seq<Migration<D>>, around: Surroundings<D>, result: D)
    returns (longer: seq<Row>)
    requires IsInOrder(history) && Replay(steps, history, start) == Some(data)
    requires Count(history, component) <= |ordered| <= |steps(component)|
    requires forall i | 0 <= i < |ordered| :: ordered[i].apply == steps(component)[i]
    requires Upgraded(data, ordered, Count(history, component), around) == Some(result)
    ensures IsInOrder(longer) && Replay(steps, longer, start) == Some(result)
    ensures forall c :: Count(longer, c) == if c == component then |ordered| else Count(history, c)
    decreases |ordered| - Count(history, component)
  {
    var version := Count(history, component);
    if version == |ordered| {
      longer := history;
    } else {
      var next := Migrated(data, ordered[version], around).value;
      OneMoreStep(steps, start, history, data, component, next);
      longer := UpgradeContinues(steps, start, history + [Row(component, version + 1)], next, component, ordered, around, result);
    }
  }

  lemma LatestIsCount<D>(steps: Steps<D>, start: D, db: Database<D>, history: seq<Row>, component: Component)
    requires IsHistory(steps, start, db, history)
    ensures Latest(db.rows, component) == Count(history, component)
  {
    forall row | row in db.rows && row.component == component ensures row.version <= Count(history, component) {
      assert row == Row(component, row.version);
    }
    LatestIs(db.rows, component, Count(history, component));
  }

  lemma KnownInOrder<D>(steps: Steps<D>, a: Attempt<D>, ordered: seq<Migration<D>>)
    requires Knows(steps, a) && AreComplete(a.current, a.migrations) && ordered == InOrder(a.migrations, a.current)
    ensures |ordered| == a.current <= |steps(a.component)|
    ensures forall i | 0 <= i < |ordered| :: ordered[i].apply == steps(a.component)[i]
  {
    forall i | 0 <= i < |ordered| ensures ordered[i].apply == steps(a.component)[i] {
      var m := ordered[i];
      assert m in a.migrations && m.version == i + 1;
    }
  }

  lemma SuccessContinues<D>(steps: Steps<D>, start: D, db: Database<D>, a: Attempt<D>, history: seq<Row>, result: D)
    returns (longer: seq<Row>)
    requires Knows(steps, a) && IsHistory(steps, start, db, history)
    requires Outcome(db.data, db.rows, a.component, a.current, a.migrations, a.around) == Some(result)
    ensures IsInOrder(longer) && Replay(steps, longer, start) == Some(result)
    ensures IsLedgerOf(db.rows + RowsFor(a.component, Latest(db.rows, a.component), a.current), longer)
  {
    LatestIsCount(steps, start, db, history, a.component);
    var ordered := InOrder(a.migrations, a.current);
    KnownInOrder(steps, a, ordered);
    longer := UpgradeContinues(steps, start, history, db.data, a.component, ordered, a.around, result);
    LedgerContinues(db.rows, history, longer, a.component, a.current);
  }

  lemma AttemptContinues<D>(steps: Steps<D>, start: D, db: Database<D>, a: Attempt<D>, history: seq<Row>)
    returns (longer: seq<Row>)
    requires Knows(steps, a) && IsHistory(steps, start, db, history)
    ensures IsHistory(steps, start, AfterAttempt(db, a), longer)
  {
    match Outcome(db.data, db.rows, a.component, a.current, a.migrations, a.around)
    case None => longer := history;
    case Some(result) => longer := SuccessContinues(steps, start, db, a, history, result);
  }

  lemma LedgerContinues(rows: set<Row>, history: seq<Row>, longer: seq<Row>, component: Component, current: nat)
    requires IsLedgerOf(rows, history) && Count(history, component) <= current
    requires forall c :: Count(longer, c) == if c == component then current else Count(history, c)
    ensures IsLedgerOf(rows + RowsFor(component, Count(history, component), current), longer)
  {
    forall c, v
      ensures Row(c, v) in rows + RowsFor(component, Count(history, component), current) <==> 1 <= v <= Count(longer, c)
    {
      RowsForHas(component, Count(history, component), current, Row(c, v));
    }
  }

  /** Every run of attempts, each of which may fail at any point and may come from an older or a newer
      release: each component's ledger is exactly the versions 1 to v, and the schema is what the first v
      steps of each component make of an empty database, each applied once and in order. */
  lemma {:induction false} RunHasHistory<D>(steps: Steps<D>, start: D, run: seq<Attempt<D>>) returns (history: seq<Row>)
    requires forall a | a in run :: Knows(steps, a)
    ensures IsHistory(steps, start, AfterRun(Database(start, {}), run), history)
  {
    if run == [] {
      history := [];
    } else {
      var before := RunHasHistory(steps, start, run[..|run| - 1]);
      history := AttemptContinues(steps, start, AfterRun(Database(start, {}), run[..|run| - 1]), run[|run| - 1], before);
    }
  }

  function FirstSteps<D>(steps: seq<D -> Option<D>>, n: nat, data: D): Option<D>
    requires n <= |steps|
  {
    if n == 0 then Some(data)
    else match FirstSteps(steps, n - 1, data)
      case None => None
      case Some(before) => steps[n - 1](before)
  }

  lemma {:induction false} OneComponentReplay<D>(steps: Steps<D>, start: D, component: Component, history: seq<Row>)
    requires IsInOrder(history) && Replay(steps, history, start).Some?
    requires forall i | 0 <= i < |history| :: history[i].component == component
    ensures Count(history, component) == |history| <= |steps(component)|
    ensures Replay(steps, history, start) == FirstSteps(steps(component), |history|, start)
  {
    if history != [] {
      OneComponentReplay(steps, start, component, history[..|history| - 1]);
    }
  }

  lemma {:induction false} CountsOne(history: seq<Row>, i: nat)
    requires i < |history|
    ensures Count(history, history[i].component) >= 1
  {
    if i < |history| - 1 {
      CountsOne(history[..|history| - 1], i);
    }
  }

  lemma {:induction false} OneComponentRows<D>(start: D, run: seq<Attempt<D>>, component: Component)
    requires forall a | a in run :: a.component == component
    ensures forall row | row in AfterRun(Database(start, {}), run).rows :: row.component == component
  {
    if run != [] {
      OneComponentRows(start, run[..|run| - 1], component);
      var last, before := run[|run| - 1], AfterRun(Database(start, {}), run[..|run| - 1]);
      assert last in run;
      forall row ensures row in RowsFor(component, Latest(before.rows, component), last.current) ==> row.component == component {
        RowsForHas(component, Latest(before.rows, component), last.current, row);
      }
    }
  }

  /** A database of one component: its data is exactly the first v steps applied to the start, where v is
      the latest version in its ledger. */
  lemma SchemaIsFirstSteps<D>(steps: Steps<D>, start: D, run: seq<Attempt<D>>, component: Component)
    requires forall a | a in run :: Knows(steps, a) && a.component == component
    ensures var db := AfterRun(Database(start, {}), run);
            var v := Latest(db.rows, component);
            && v <= |steps(component)| && FirstSteps(steps(component), v, start) == Some(db.data)
            && db.rows == RowsFor(component, 0, v)
  {
    var db := AfterRun(Database(start, {}), run);
    var history := RunHasHistory(steps, start, run);
    OneComponentRows(start, run, component);
    LatestIsCount(steps, start, db, history, component);
    forall i | 0 <= i < |history| ensures history[i].component == component {
      CountsOne(history, i);
      assert Row(history[i].component, 1) in db.rows;
    }
    OneComponentReplay(steps, start, component, history);
    forall row ensures row in db.rows <==> row in RowsFor(component, 0, Count(history, component)) {
      assert row == Row(row.component, row.version);
      RowsForHas(component, 0, Count(history, component), row);
    }
  }

  // ---------------------------------------------------------------- JSON migrations

  datatype SchemaVersion = Absent | NotAnInteger | Integer(value: int)

  /** A JSON object: its schema version and everything else in it. */
  datatype Json<B> = Json(schemaVersion: SchemaVersion, body: B)

  datatype JsonError = BadComponent | NotComplete | VersionInvalid | VersionTooNew | StepFailed

  /** `_json_schema_version`. */
  function VersionOf<B>(payload: Json<B>, current: int, allowLegacy: bool): (r: Result<nat, JsonError>)
    ensures r.Ok? ==> r.value <= current || (r.value == 0 && allowLegacy)
  {
    match payload.schemaVersion
    case Absent => if allowLegacy then Ok(0) else Err(VersionInvalid)
    case NotAnInteger => Err(VersionInvalid)
    case Integer(v) => if v < 1 then Err(VersionInvalid) else if v > current then Err(VersionTooNew) else Ok(v)
  }

  /** One JSON migration: its candidate, stamped with its version, if nothing about it fails. */
  function JsonStep<B>(working: Json<B>, m: Migration<Json<B>>, fails: int -> bool): Option<Json<B>> {
    match m.apply(working)
    case None => None
    case Some(candidate) =>
      var stamped := candidate.(schemaVersion := Integer(m.version));
      if !m.verify(stamped) || fails(m.version) then None else Some(stamped)
  }

  function JsonUpgraded<B>(working: Json<B>, ordered: seq<Migration<Json<B>>>, version: nat, fails: int -> bool): Option<Json<B>>
    decreases |ordered| - version
  {
    if version >= |ordered| then Some(working)
    else match JsonStep(working, ordered[version], fails)
      case None => None
      case Some(next) => JsonUpgraded(next, ordered, version + 1, fails)
  }

  /** The result of `migrate_json` for a complete list of migrations. */
  function JsonResult<B>(payload: Json<B>, ordered: seq<Migration<Json<B>>>, allowLegacy: bool, fails: int -> bool,
                         verifyCurrent: Json<B> -> bool): Result<(Json<B>, bool), JsonError>
  {
    match VersionOf(payload, |ordered|, allowLegacy)
    case Err(error) => Err(error)
    case Ok(version) =>
      match JsonUpgraded(payload, ordered, version, fails)
      case None => Err(StepFailed)
      case Some(working) => if verifyCurrent(working) then Ok((working, version != |ordered|)) else Err(StepFailed)
  }

  /** The loop of `migrate_json`. */
  method UpgradeJson<B>(payload: Json<B>, ordered: seq<Migration<Json<B>>>, from: nat, fails: int -> bool)
    returns (r: Option<Json<B>>)
    requires from <= |ordered| && AreNumbered(ordered)
    ensures r == JsonUpgraded(payload, ordered, from, fails)
  {
    var version: int := from;
    var working := payload;
    for i := 0 to |ordered|
      invariant version == if i > from then i else from
      invariant JsonUpgraded(working, ordered, version, fails) == JsonUpgraded(payload, ordered, from, fails)
    {
      if ordered[i].version > version {
        var next := JsonStep(working, ordered[i], fails);
        if next.None? {
          return None;
        }
        working := next.value;
        version := ordered[i].version;
      }
    }
    r := Some(working);
  }

  // ---------------------------------------------------------------- what a chain passes through

  /** A step that raises nothing: `after` is its candidate with its version, and its check accepts that. */
  ghost predicate JsonPasses<B>(m: Migration<Json<B>>, before: Json<B>, after: Json<B>, fails: int -> bool) {
    && m.apply(before).Some? && after == Json(Integer(m.version), m.apply(before).value.body)
    && m.verify(after) && !fails(m.version)
  }

  ghost predicate JsonStops<B>(m: Migration<Json<B>>, before: Json<B>, fails: int -> bool) {
    || m.apply(before) == None || fails(m.version)
    || !m.verify(Json(Integer(m.version), m.apply(before).value.body))
  }

  ghost predicate JsonPassesAt<B>(states: seq<Json<B>>, migrations: seq<Migration<Json<B>>>, from: nat, fails: int -> bool,
                                  i: nat)
    requires i < |states| - 1
  {
    var m := Find(migrations, from + i + 1);
    m.Some? && JsonPasses(m.value, states[i], states[i + 1], fails)
  }

  /** The payloads before and after each of the steps from version `from` + 1 on. */
  ghost predicate IsJsonPath<B>(states: seq<Json<B>>, payload: Json<B>, migrations: seq<Migration<Json<B>>>, from: nat,
                                fails: int -> bool)
  {
    && states != [] && states[0] == payload
    && forall i | 0 <= i < |states| - 1 :: JsonPassesAt(states, migrations, from, fails, i)
  }

  /** All steps up to `current` were taken; or one fails after those that were. */
  ghost predicate JsonEnds<B>(states: seq<Json<B>>, result: Option<Json<B>>, migrations: seq<Migration<Json<B>>>, from: nat,
                              current: nat, fails: int -> bool)
  {
    && states != [] && |states| <= current - from + 1
    && if |states| == current - from + 1 then result == Some(states[|states| - 1])
       else
         var m := Find(migrations, from + |states|);
         result == None && m.Some? && JsonStops(m.value, states[|states| - 1], fails)
  }

  lemma JsonStepPasses<B>(payload: Json<B>, m: Migration<Json<B>>, fails: int -> bool)
    ensures JsonStep(payload, m, fails).None? ==> JsonStops(m, payload, fails)
    ensures JsonStep(payload, m, fails).Some? ==> JsonPasses(m, payload, JsonStep(payload, m, fails).value, fails)
  {
  }

  lemma JsonPathBefore<B>(states: seq<Json<B>>, payload: Json<B>, next: Json<B>, migrations: seq<Migration<Json<B>>>,
                          from: nat, fails: int -> bool)
    requires IsJsonPath(states, next, migrations, from + 1, fails)
    requires Find(migrations, from + 1).Some? && JsonPasses(Find(migrations, from + 1).value, payload, next, fails)
    ensures IsJsonPath([payload] + states, payload, migrations, from, fails)
  {
    var longer := [payload] + states;
    forall i | 0 <= i < |longer| - 1 ensures JsonPassesAt(longer, migrations, from, fails, i) {
      if i > 0 {
        assert JsonPassesAt(states, migrations, from + 1, fails, i - 1);
      }
    }
  }

  lemma JsonEndsBefore<B>(states: seq<Json<B>>, payload: Json<B>, result: Option<Json<B>>, migrations: seq<Migration<Json<B>>>,
                          from: nat, current: nat, fails: int -> bool)
    requires JsonEnds(states, result, migrations, from + 1, current, fails)
    ensures JsonEnds([payload] + states, result, migrations, from, current, fails)
  {
    var longer := [payload] + states;
    assert |longer| == |states| + 1 && longer[|longer| - 1] == states[|states| - 1];
  }

  lemma JsonEndsHere<B>(payload: Json<B>, migrations: seq<Migration<Json<B>>>, from: nat, current: nat, fails: int -> bool)
    requires AreComplete(current, migrations) && from < current
    requires JsonStops(Find(migrations, from + 1).value, payload, fails)
    ensures JsonEnds([payload], None, migrations, from, current, fails)
  {
  }

  lemma JsonUpgradedNext<B>(working: Json<B>, ordered: seq<Migration<Json<B>>>, version: nat, fails: int -> bool)
    requires version < |ordered|
    ensures JsonUpgraded(working, ordered, version, fails) ==
            match JsonStep(working, ordered[version], fails)
            case None => None
            case Some(next) => JsonUpgraded(next, ordered, version + 1, fails)
  {
  }

  /** A chain takes the steps one after the other, until it arrives or one of them fails. */
  lemma {:induction false} JsonPath<B>(payload: Json<B>, migrations: seq<Migration<Json<B>>>, from: nat, current: nat,
                                       fails: int -> bool) returns (states: seq<Json<B>>)
    requires AreComplete(current, migrations) && from <= current
    ensures IsJsonPath(states, payload, migrations, from, fails)
    ensures JsonEnds(states, JsonUpgraded(payload, InOrder(migrations, current), from, fails), migrations, from, current, fails)
    decreases current - from
  {
    var ordered := InOrder(migrations, current);
    states := [payload];
    if from < current {
      InOrderIs(migrations, current, from);
      JsonStepPasses(payload, ordered[from], fails);
      JsonUpgradedNext(payload, ordered, from, fails);
      match JsonStep(payload, ordered[from], fails)
      case None => JsonEndsHere(payload, migrations, from, current, fails);
      case Some(next) =>
        var rest := JsonPath(next, migrations, from + 1, current, fails);
        JsonPathBefore(rest, payload, next, migrations, from, fails);
        JsonEndsBefore(rest, payload, JsonUpgraded(next, ordered, from + 1, fails), migrations, from, current, fails);
        states := [payload] + rest;
    }
  }

  /** The version of a payload: none of its own is version 0, where that is allowed. */
  ghost predicate HasVersion(version: SchemaVersion, current: int, allowLegacy: bool, from: int) {
    if version == Absent then allowLegacy && from == 0 else version == Integer(from) && 1 <= from <= current
  }

  /** How a chain from version `from` on ends: at its result, in a step that fails, or in the final check. */
  ghost predicate JsonComesTo<B>(states: seq<Json<B>>, r: Result<(Json<B>, bool), JsonError>, payload: Json<B>,
                                 migrations: seq<Migration<Json<B>>>, from: nat, current: nat, fails: int -> bool,
                                 verifyCurrent: Json<B> -> bool)
  {
    && IsJsonPath(states, payload, migrations, from, fails)
    && var last := states[|states| - 1];
       if r.Ok? then |states| == current - from + 1 && verifyCurrent(last) && r.value == (last, from != current)
       else if |states| == current - from + 1 then !verifyCurrent(last)
       else JsonEnds(states, None, migrations, from, current, fails)
  }

  /** `migrate_json`.  Without a fault it takes every step after the payload's own version, and the final check accepts
      the result; else it says why not. */
  method MigrateJson<B>(payload: Json<B>, component: Component, current: int, migrations: seq<Migration<Json<B>>>, allowLegacy: bool,
                        fails: int -> bool, verifyCurrent: Json<B> -> bool)
    returns (r: Result<(Json<B>, bool), JsonError>, ghost states: seq<Json<B>>)
    ensures r == Err(BadComponent) <==> !SaysComponent(component)
    ensures r == Err(NotComplete) <==> IsComponent(component) && !AreComplete(current, migrations)
    ensures r.Ok? || r == Err(StepFailed) <==>
            && IsComponent(component) && AreComplete(current, migrations)
            && exists from :: HasVersion(payload.schemaVersion, current, allowLegacy, from)
    ensures r.Ok? || r == Err(StepFailed) ==>
            exists from :: && HasVersion(payload.schemaVersion, current, allowLegacy, from)
                           && JsonComesTo(states, r, payload, migrations, from, current, fails, verifyCurrent)
    ensures r == Err(VersionTooNew) <==>
            && IsComponent(component) && AreComplete(current, migrations)
            && payload.schemaVersion.Integer? && payload.schemaVersion.value > current
    ensures r == if !IsComponent(component) then Err(BadComponent)
                 else if !AreComplete(current, migrations) then Err(NotComplete)
                 else JsonResult(payload, InOrder(migrations, current), allowLegacy, fails, verifyCurrent)
  {
    states := [];
    ComponentExactly(component);
    if !IsComponent(component) {
      return Err(BadComponent), states;
    }
    var validated := Validate(current, migrations);
    if validated.Err? {
      return Err(NotComplete), states;
    }
    var ordered := validated.value;
    var found := VersionOf(payload, current, allowLegacy);
    if found.Err? {
      return Err(found.error), states;
    }
    assert HasVersion(payload.schemaVersion, current, allowLegacy, found.value);
    states := JsonPath(payload, migrations, found.value, current, fails);
    var working := UpgradeJson(payload, ordered, found.value, fails);
    if working.None? || !verifyCurrent(working.value) {
      return Err(StepFailed), states;
    }
    r := Ok((working.value, found.value != current));
  }

  ghost predicate AreNumbered<D>(ordered: seq<Migration<D>>) {
    forall i | 0 <= i < |ordered| :: ordered[i].version == i + 1
  }

  /** Upgrading to version `k` stops at what a longer upgrade passes through. */
  lemma {:induction false} JsonPassesThrough<B>(working: Json<B>, ordered: seq<Migration<Json<B>>>, version: nat, k: nat,
                                                fails: int -> bool)
    requires version <= k <= |ordered| && AreNumbered(ordered)
    requires version == 0 || working.schemaVersion == Integer(version)
    ensures match JsonUpgraded(working, ordered[..k], version, fails)
            case None => JsonUpgraded(working, ordered, version, fails) == None
            case Some(mid) => && JsonUpgraded(mid, ordered, k, fails) == JsonUpgraded(working, ordered, version, fails)
                              && (k > 0 ==> mid.schemaVersion == Integer(k))
    decreases k - version
  {
    if version < k {
      match JsonStep(working, ordered[version], fails)
      case None =>
      case Some(next) => JsonPassesThrough(next, ordered, version + 1, k, fails);
    }
  }

  /** The result of a migration carries the current version, and migrating it again changes nothing. */
  lemma JsonSettles<B>(payload: Json<B>, ordered: seq<Migration<Json<B>>>, allowLegacy: bool, fails: int -> bool,
                       verifyCurrent: Json<B> -> bool)
    requires AreNumbered(ordered) && ordered != []
    requires JsonResult(payload, ordered, allowLegacy, fails, verifyCurrent).Ok?
    ensures var working := JsonResult(payload, ordered, allowLegacy, fails, verifyCurrent).value.0;
            && working.schemaVersion == Integer(|ordered|)
            && JsonResult(working, ordered, false, fails, verifyCurrent) == Ok((working, false))
  {
    var version := VersionOf(payload, |ordered|, allowLegacy).value;
    JsonPassesThrough(payload, ordered, version, |ordered|, fails);
    assert ordered[..|ordered|] == ordered;
  }

  /** Migrating to version `k` and then on to `n` gives what migrating to `n` at once gives. */
  lemma JsonInTwoSteps<B>(payload: Json<B>, ordered: seq<Migration<Json<B>>>, k: nat, allowLegacy: bool, fails: int -> bool,
                          verifyThen: Json<B> -> bool, verifyNow: Json<B> -> bool)
    requires AreNumbered(ordered) && 0 < k <= |ordered|
    requires JsonResult(payload, ordered[..k], allowLegacy, fails, verifyThen).Ok?
    ensures var mid := JsonResult(payload, ordered[..k], allowLegacy, fails, verifyThen).value.0;
            var twice, once := JsonResult(mid, ordered, false, fails, verifyNow), JsonResult(payload, ordered, allowLegacy, fails, verifyNow);
            && twice.Ok? == once.Ok?
            && (once.Ok? ==> twice.value.0 == once.value.0)
            && (once.Err? ==> twice.error == once.error)
  {
    var version := VersionOf(payload, k, allowLegacy).value;
    JsonPassesThrough(payload, ordered, version, k, fails);
  }

  /** If migrating to `n` at once succeeds, nothing but the final check can stop a migration to an
      earlier version `k` that the payload has not passed. */
  lemma JsonStopsEarlier<B>(payload: Json<B>, ordered: seq<Migration<Json<B>>>, k: nat, allowLegacy: bool, fails: int -> bool,
                            verifyNow: Json<B> -> bool)
    requires AreNumbered(ordered) && 0 < k <= |ordered|
    requires JsonResult(payload, ordered, allowLegacy, fails, verifyNow).Ok?
    ensures JsonResult(payload, ordered[..k], allowLegacy, fails, _ => true).Ok? <==>
            VersionOf(payload, |ordered|, allowLegacy).value <= k
  {
    var version := VersionOf(payload, |ordered|, allowLegacy).value;
    if version <= k {
      JsonPassesThrough(payload, ordered, version, k, fails);
    }
  }
}
