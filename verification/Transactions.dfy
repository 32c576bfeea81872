/** The two engines that write inside a transaction: Postgres, page by page, and DuckDB. */
module Transactions {
  import opened Rows
  import opened Mechanisms

  datatype Stmt =
    | Clear(table: string)
    | Insert(table: string, d: Data)
    | InsertOnConflict(table: string, d: Data, key: seq<string>)
    | RegisterView
    | MergeRows(table: string, d: Data, key: seq<string>)

  /** The catalog after `stmt`, or None when the engine refuses it. Rows are stored, and keys compared, in the
      form the engine gives their cells. A declared PRIMARY KEY is enforced on every insert, and ON CONFLICT
      needs one on exactly the columns it names. */
  function Effect(form: Form, stmt: Stmt, tables: Tables): Option<Tables> {
    match stmt
    case RegisterView => Some(tables)
    case Clear(table) =>
      if table in tables then Some(tables[table := tables[table].(rows := [])]) else None
    case Insert(table, d) =>
      var f := Formed(form, d);
      if table !in tables || !Accepts(tables[table].columns, f.columns, f.rows) then None
      else
        var t := Appended(tables[table], f);
        if t.key == [] || Keyed(t.rows, t.key) then Some(tables[table := t]) else None
    case InsertOnConflict(table, d, key) =>
      var f := Formed(form, d);
      if table !in tables || !Accepts(tables[table].columns, f.columns, f.rows) then None
      else if key == [] || ColumnSet(tables[table].key) != ColumnSet(key) then None
      else (
        match OnConflict(tables[table].columns, tables[table].rows, {}, f.rows, f.columns, key)
        case None => None
        case Some(rows) => Some(tables[table := tables[table].(rows := rows)]))
    case MergeRows(table, d, key) =>
      var f := Formed(form, d);
      if table !in tables || !Accepts(tables[table].columns, f.columns, f.rows) || key == [] then None
      else
        var t := tables[table];
        Some(tables[table := t.(rows := DuckMerge(t.columns, t.rows, f.rows, f.columns, key))])
  }

  datatype State = Idle | Active(work: Tables) | Aborted

  /** One connection. `history` is what another session could have read after each call. */
  class Session {
    var committed: Tables
    var state: State
    ghost var history: seq<Tables>
    /** Whether a BEGIN or a ROLLBACK has raised: only then can a transaction be left open. */
    ghost var lost: bool
    /** How many calls have raised. */
    ghost var raises: nat
    /** Whether a COMMIT that raises has still ended the transaction, as in DuckDB. */
    const commitEnds: bool
    /** What the engine makes of the cells it stores. */
    const form: Form

    method Begin() returns (returned: bool)
      requires state.Idle?
      modifies this
      ensures committed == old(committed) && history == old(history) + [committed]
      ensures state == Idle || state == Active(committed)
      ensures returned ==> state == Active(committed)
      ensures lost == (old(lost) || !returned)
      ensures raises == old(raises) + if returned then 0 else 1
    {
      var applied, reported := *, *;
      returned := applied && reported;
      lost := lost || !returned;
      if applied {
        state := Active(committed);
      }
      raises := raises + if returned then 0 else 1;
      history := history + [committed];
    }

    /** A statement that raises leaves the transaction in any state but never commits anything. */
    method Run(stmt: Stmt) returns (returned: bool)
      modifies this`state, this`history, this`raises
      ensures history == old(history) + [committed]
      ensures raises == old(raises) + if returned then 0 else 1
      ensures returned ==> old(state).Active? && Effect(form, stmt, old(state).work).Some?
                           && state == Active(Effect(form, stmt, old(state).work).value)
      ensures old(state).Idle? ==> state.Idle?
    {
      var applied, reported := *, *;
      returned := false;
      if state.Active? {
        var effect := Effect(form, stmt, state.work);
        if effect.Some? && applied {
          state := Active(effect.value);
          returned := reported;
        } else {
          state := Aborted;
        }
      }
      raises := raises + if returned then 0 else 1;
      history := history + [committed];
    }

    /** A COMMIT may be lost after it took effect. */
    method Commit() returns (returned: bool)
      requires state.Active?
      modifies this`committed, this`state, this`history, this`raises
      ensures history == old(history) + [committed]
      ensures committed == old(committed) || committed == old(state).work
      ensures returned ==> committed == old(state).work && state == Idle
      ensures raises == old(raises) + if returned then 0 else 1
      ensures commitEnds ==> state == Idle
      ensures state == Idle || state == Aborted
    {
      var applied, reported := *, *;
      returned := applied && reported;
      if applied {
        committed := state.work;
        state := Idle;
      } else {
        state := if commitEnds then Idle else Aborted;
      }
      raises := raises + if returned then 0 else 1;
      history := history + [committed];
    }

    method Rollback() returns (returned: bool)
      modifies this`state, this`history, this`lost, this`raises
      ensures history == old(history) + [committed]
      ensures state == Idle || state == old(state)
      ensures returned ==> state == Idle
      ensures lost == (old(lost) || !returned)
      ensures raises == old(raises) + if returned then 0 else 1
    {
      var applied, reported := *, *;
      returned := applied && reported;
      lost := lost || !returned;
      if applied {
        state := Idle;
      }
      raises := raises + if returned then 0 else 1;
      history := history + [committed];
    }
  }

  /** What every transactional write promises: at every instant another session sees all of the write
      or none of it, whole catalog included; a normal return means all of it. */
  ghost predicate AtomicWrite(h: seq<Tables>, before: Tables, h': seq<Tables>, now: Tables,
                              target: string, next: Table, returned: bool)
  {
    && h < h' && h'[|h'| - 1] == now
    && (forall i | |h| <= i < |h'| :: h'[i] == before || (target in before && h'[i] == before[target := next]))
    && (returned ==> target in before && now == before[target := next])
  }

  function Emptied(t: Table): Table {
    t.(rows := [])
  }

  /** Emptying a table and filling it leaves exactly the data. */
  lemma LoadRefills(before: Tables, target: string, form: Form, d: Data)
    requires target in before && d.Valid()
    ensures Refilled(before, before[target := Appended(Emptied(before[target]), Formed(form, d))], target, form, d)
  {
    var t := before[target];
    StoredHold(t.columns, form, d);
    assert Appended(Emptied(t), Formed(form, d)).rows == StoredAll(t.columns, d.columns, FormAll(form, d.rows));
  }
}
