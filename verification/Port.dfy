/** The upsert template method over the three engines: one key check, then the engine's own write. */
module Port {
  import opened Rows
  import opened Keys
  import opened Mechanisms
  import T = Trino
  import X = Transactions
  import Postgres
  import DuckLake
  import Runs

  datatype Engine = OnPostgres(pg: X.Session) | OnDuckDB(duck: X.Session) | OnTrino(trino: T.Catalog)

  datatype Outcome = Returned | ValueErrorRaised | DuplicateKeyRaised | EngineRaised

  function Footprint(e: Engine): set<object> {
    match e
    case OnPostgres(s) => {s}
    case OnDuckDB(s) => {s}
    case OnTrino(c) => {c}
  }

  /** What any other session reads. */
  function Visible(e: Engine): Tables
    reads Footprint(e)
  {
    match e
    case OnPostgres(s) => s.committed
    case OnDuckDB(s) => s.committed
    case OnTrino(c) => c.tables
  }

  /** The connection is usable, and the private stage name is fresh. */
  predicate Usable(e: Engine, token: string)
    reads Footprint(e)
  {
    match e
    case OnPostgres(s) => s.state.Idle?
    case OnDuckDB(s) => s.state.Idle? && s.commitEnds
    case OnTrino(c) => T.STAGE_PREFIX + token !in c.tables
  }

  ghost function Length(e: Engine): nat
    reads Footprint(e)
  {
    match e
    case OnPostgres(s) => |s.history|
    case OnDuckDB(s) => |s.history|
    case OnTrino(c) => |c.history|
  }

  /** What other sessions could read after each engine call but the first `from`. */
  ghost function SeenSince(e: Engine, from: nat): (seen: seq<Tables>)
    reads Footprint(e)
    requires from <= Length(e)
    ensures |seen| == Length(e) - from
  {
    match e
    case OnPostgres(s) => s.history[from..]
    case OnDuckDB(s) => s.history[from..]
    case OnTrino(c) => T.CatalogsSince(c.history, from)
  }

  /** The states of one table among them. */
  ghost function TablesSeen(seen: seq<Tables>, target: string): seq<Table>
    requires forall m | m in seen :: target in m
  {
    seq(|seen|, i requires 0 <= i < |seen| => seen[i][target])
  }

  /** What the engine makes of the cells it stores. */
  function FormOf(e: Engine): Form {
    match e
    case OnPostgres(s) => s.form
    case OnDuckDB(s) => s.form
    case OnTrino(c) => c.form
  }

  /** What the engine's own upsert makes of a table. */
  function Next(e: Engine, t: Table, d: Data, key: seq<string>): Table {
    match e
    case OnPostgres(s) => Postgres.Paged(s.form, t, d, key)
    case OnDuckDB(s) => DuckLake.Merged(s.form, t, d, key)
    case OnTrino(c) => Override(t, Formed(c.form, d), key)
  }

  /** With keys distinct as the engine stores them, and a keyed table that has the columns, it is the pure upsert
      on every engine. */
  lemma NextIsOverride(e: Engine, t: Table, d: Data, key: seq<string>)
    requires Ready(t, d.columns, FormAll(FormOf(e), d.rows), key)
    ensures Next(e, t, d, key) == Override(t, Formed(FormOf(e), d), key)
  {
    match e
    case OnPostgres(s) => Postgres.PagedIsOverride(s.form, t, d, key);
    case OnDuckDB(s) => DuckLake.MergedIsOverride(s.form, t, d, key);
    case OnTrino(c) =>
  }

  /** The key check supplies that where the engine keeps the values of the key columns apart. */
  lemma CheckedRowsAreReady(e: Engine, t: Table, a: Arrow, key: seq<string>)
    requires a.Valid() && EnsureUniqueKey(a, key) == Unique && NonNullKeys(a.data.rows, key)
    requires IsForm(FormOf(e)) && forall c | c in key :: Faithful(FormOf(e), c)
    requires ColumnSet(a.data.columns) <= Names(t.columns) && Keyed(t.rows, key)
    ensures Ready(t, a.data.columns, FormAll(FormOf(e), a.data.rows), key)
  {
    FormedKeysAreSet(FormOf(e), a.data, key);
    KeysStayApartIffFaithful(FormOf(e), key);
  }

  /** All of the engine's upsert or none of it in every catalog seen, all of it on a normal return, and no other
      table touched. */
  ghost predicate Upserts(before: Tables, seen: seq<Tables>, now: Tables, target: string, spare: string,
                          next: Table, empty: bool, returned: bool)
    requires target in before
  {
    var t := before[target];
    && (forall m | m in seen :: target in m && (m[target] == t || m[target] == next))
    && target in now && (now[target] == t || now[target] == next)
    && (returned ==> if empty then now == before else now[target] == next)
    && (forall n | n != target && n != spare :: (n in now <==> n in before) && (n in now ==> now[n] == before[n]))
  }

  method UpsertPostgres(s: X.Session, target: string, d: Data, key: seq<string>, spare: string) returns (returned: bool)
    requires s.state.Idle? && target in s.committed
    modifies s
    ensures |s.history| >= |old(s.history)|
    ensures Upserts(old(s.committed), s.history[|old(s.history)|..], s.committed, target, spare,
                    Postgres.Paged(s.form, old(s.committed)[target], d, key), d.rows == [], returned)
    ensures if returned then s.raises == old(s.raises) else s.raises > old(s.raises)
  {
    returned := Postgres.Upsert(s, target, d, key);
  }

  method UpsertDuckDB(s: X.Session, target: string, d: Data, key: seq<string>, spare: string) returns (returned: bool)
    requires s.state.Idle? && s.commitEnds && target in s.committed
    modifies s
    ensures |s.history| >= |old(s.history)|
    ensures Upserts(old(s.committed), s.history[|old(s.history)|..], s.committed, target, spare,
                    DuckLake.Merged(s.form, old(s.committed)[target], d, key), d.rows == [], returned)
    ensures if returned then s.raises == old(s.raises) else s.raises > old(s.raises)
  {
    returned := DuckLake.Upsert(s, target, d, key);
  }

  method UpsertTrino(c: T.Catalog, target: string, d: Data, key: seq<string>, token: string) returns (returned: bool)
    requires d.Valid() && T.STAGE_PREFIX + token !in c.tables && target in c.tables
    requires ColumnSet(key) <= ColumnSet(d.columns)
    modifies c
    ensures |c.history| >= |old(c.history)|
    ensures Upserts(old(c.tables), T.CatalogsSince(c.history, |old(c.history)|), c.tables,
                    target, T.STAGE_PREFIX + token,
                    Override(old(c.tables)[target], Formed(c.form, d), key), d.rows == [], returned)
    ensures returned <==> T.AllButDropsReturned(c.history, |old(c.history)|)
  {
    returned := c.Upsert(target, d, key, token);
    if d.rows != [] {
      ghost var last := |c.history| - 1;
      assert c.history[last].after == c.tables;
      assert T.SameExcept(old(c.tables), c.history[last].after, {target, T.STAGE_PREFIX + token});
    }
  }

  /** Whatever the engine: a repeated key writes nothing, a normal return leaves exactly the engine's upsert of the
      old table, and a failure leaves either that or the old table itself. Where the keys are distinct as stored
      it is the pure upsert, one attempt in the sense of Runs. */
  method Upsert(e: Engine, target: string, a: Arrow, key: seq<string>, token: string) returns (outcome: Outcome)
    requires a.Valid() && Usable(e, token) && target in Visible(e)
    modifies Footprint(e)
    ensures outcome == ValueErrorRaised <==> EnsureUniqueKey(a, key) == ValueError
    ensures outcome == DuplicateKeyRaised <==> EnsureUniqueKey(a, key).DuplicateKeyError?
    ensures outcome == ValueErrorRaised || outcome == DuplicateKeyRaised ==> Visible(e) == old(Visible(e))
    ensures target in Visible(e)
    ensures outcome == Returned && a.data.rows != [] ==>
              Visible(e)[target] == Next(e, old(Visible(e)[target]), a.data, key)
    ensures outcome == Returned && a.data.rows == [] ==> Visible(e) == old(Visible(e))
    ensures outcome == EngineRaised ==>
              || Visible(e)[target] == old(Visible(e)[target])
              || Visible(e)[target] == Next(e, old(Visible(e)[target]), a.data, key)
    ensures outcome == EngineRaised ==>
              match e
              case OnPostgres(s) => s.raises > old(s.raises)
              case OnDuckDB(s) => s.raises > old(s.raises)
              case OnTrino(c) => !T.AllButDropsReturned(c.history, |old(c.history)|)
    ensures Length(e) >= old(Length(e)) && forall m | m in SeenSince(e, old(Length(e))) ::
              target in m && (m[target] == old(Visible(e)[target])
                              || m[target] == Next(e, old(Visible(e)[target]), a.data, key))
    ensures Ready(old(Visible(e)[target]), a.data.columns, FormAll(FormOf(e), a.data.rows), key) ==>
              var was, stored := old(Visible(e)[target]), Formed(FormOf(e), a.data);
              && Next(e, was, a.data, key) == Override(was, stored, key)
              && Runs.CallOn(was, Runs.Call(stored, TablesSeen(SeenSince(e, old(Length(e))), target)
                                                    + [Visible(e)[target]]), key)
              && exists applied: bool | outcome == Returned ==> applied ::
                   Visible(e)[target] == Runs.After(was, [Runs.Attempt(stored, applied)], key)
    ensures forall n | n != target && n != T.STAGE_PREFIX + token ::
              (n in Visible(e) <==> n in old(Visible(e))) && (n in Visible(e) ==> Visible(e)[n] == old(Visible(e))[n])
  {
    ghost var was, stored := Visible(e)[target], Formed(FormOf(e), a.data);
    OneAttempt(was, stored, key);
    if Ready(was, a.data.columns, FormAll(FormOf(e), a.data.rows), key) {
      NextIsOverride(e, was, a.data, key);
    }
    match EnsureUniqueKey(a, key) {
      case ValueError => return ValueErrorRaised;
      case DuplicateKeyError(_) => return DuplicateKeyRaised;
      case Unique =>
    }
    var returned;
    match e {
      case OnPostgres(s) =>
        returned := UpsertPostgres(s, target, a.data, key, T.STAGE_PREFIX + token);
      case OnDuckDB(s) =>
        returned := UpsertDuckDB(s, target, a.data, key, T.STAGE_PREFIX + token);
      case OnTrino(c) =>
        returned := UpsertTrino(c, target, a.data, key, token);
    }
    if Ready(was, a.data.columns, FormAll(FormOf(e), a.data.rows), key) {
      SeenIsCall(was, SeenSince(e, old(Length(e))), Visible(e), target, stored, key);
    }
    outcome := if returned then Returned else EngineRaised;
  }

  lemma SeenIsCall(t: Table, seen: seq<Tables>, now: Tables, target: string, d: Data, key: seq<string>)
    requires forall m | m in seen :: target in m && (m[target] == t || m[target] == Override(t, d, key))
    requires target in now && (now[target] == t || now[target] == Override(t, d, key)) && UniqueKeys(d.rows, key)
    ensures Runs.CallOn(t, Runs.Call(d, TablesSeen(seen, target) + [now[target]]), key)
  {
  }

  /** What one attempt can leave: the pure upsert of unique rows if it was applied, else the table as it was. */
  lemma OneAttempt(t: Table, d: Data, key: seq<string>)
    ensures Runs.After(t, [Runs.Attempt(d, false)], key) == t
    ensures Runs.After(t, [Runs.Attempt(d, true)], key) == if UniqueKeys(d.rows, key) then Override(t, d, key) else t
    ensures d.rows == [] ==> Override(t, d, key) == t
  {
    assert forall applied :: [Runs.Attempt(d, applied)][..0] == [];
    if d.rows == [] {
      assert OverwrittenAll(t.rows, d.rows, d.columns, key) == t.rows;
    }
  }
}
