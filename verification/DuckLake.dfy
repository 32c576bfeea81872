/** The DuckDB adapter's write plane: one snapshot transaction, COMMIT outside the rollback scope. */
module DuckLake {
  import opened Rows
  import opened Mechanisms
  import opened Transactions

  /** Leaving the transaction scope: roll back a failed body, commit a finished one. */
  method Leave(s: Session, bodyReturned: bool) returns (returned: bool)
    requires s.commitEnds && (bodyReturned ==> s.state.Active?)
    modifies s
    ensures |s.history| == |old(s.history)| + 1 && old(s.history) < s.history
        && s.history[|s.history| - 1] == s.committed
    ensures s.committed == old(s.committed) || (bodyReturned && s.committed == old(s.state).work)
    ensures returned ==> bodyReturned && s.committed == old(s.state).work
    ensures bodyReturned ==> if returned then s.raises == old(s.raises) else s.raises > old(s.raises)
    ensures s.raises >= old(s.raises)
    ensures returned ==> s.state.Idle?
    ensures s.state.Idle? || s.lost
    ensures old(s.lost) ==> s.lost
  {
    returned := false;
    if bodyReturned {
      returned := s.Commit();
    } else {
      var _ := s.Rollback();
    }
  }

  /** Registers the Arrow data as a view and runs the one statement that reads it. */
  method WriteArrow(s: Session, stmt: Stmt) returns (returned: bool)
    modifies s`state, s`history, s`raises
    ensures old(s.history) < s.history
    ensures forall i | |old(s.history)| <= i < |s.history| :: s.history[i] == s.committed
    ensures if returned then s.raises == old(s.raises) else s.raises > old(s.raises)
    ensures returned ==> old(s.state).Active? && Effect(s.form, stmt, old(s.state).work).Some?
                         && s.state == Active(Effect(s.form, stmt, old(s.state).work).value)
  {
    returned := s.Run(RegisterView);
    if returned {
      returned := s.Run(stmt);
    }
  }

  method Load(s: Session, target: string, d: Data) returns (returned: bool)
    requires s.state.Idle? && s.commitEnds
    modifies s
    ensures target in old(s.committed) ==>
              AtomicWrite(old(s.history), old(s.committed), s.history, s.committed,
                          target, Appended(Emptied(old(s.committed)[target]), Formed(s.form, d)), returned)
    ensures returned && d.Valid() ==> Refilled(old(s.committed), s.committed, target, s.form, d)
    ensures target !in old(s.committed) ==> !returned && s.committed == old(s.committed)
    ensures if returned then s.raises == old(s.raises) else s.raises > old(s.raises)
    ensures returned ==> s.state.Idle?
    ensures s.state.Idle? || s.lost
  {
    returned := s.Begin();
    if returned {
      var body := s.Run(Clear(target));
      if body && d.rows != [] {
        body := WriteArrow(s, Insert(target, d));
      } else if body {
        AppendedConcat(Emptied(s.state.work[target]), d.columns, [], []);
      }
      returned := Leave(s, body);
    }
    if returned && d.Valid() {
      LoadRefills(old(s.committed), target, s.form, d);
    }
  }

  method Append(s: Session, target: string, d: Data) returns (returned: bool)
    requires s.state.Idle? && s.commitEnds
    modifies s
    ensures d.rows == [] ==> returned && s.history == old(s.history) && s.committed == old(s.committed)
    ensures d.rows != [] && target !in old(s.committed) ==> !returned && s.committed == old(s.committed)
    ensures d.rows != [] && target in old(s.committed) ==>
              AtomicWrite(old(s.history), old(s.committed), s.history, s.committed,
                          target, Appended(old(s.committed)[target], Formed(s.form, d)), returned)
    ensures returned && d.Valid() && d.rows != [] ==> Grown(old(s.committed), s.committed, target, s.form, d)
    ensures if returned then s.raises == old(s.raises) else s.raises > old(s.raises)
    ensures returned ==> s.state.Idle?
    ensures s.state.Idle? || s.lost
  {
    if d.rows == [] {
      return true;
    }
    returned := s.Begin();
    if returned {
      var body := WriteArrow(s, Insert(target, d));
      returned := Leave(s, body);
    }
    if returned && d.Valid() {
      AppendGrows(old(s.committed), target, s.form, d);
    }
  }

  /** What the MERGE leaves of a table. */
  function Merged(form: Form, t: Table, d: Data, key: seq<string>): Table {
    t.(rows := DuckMerge(t.columns, t.rows, FormAll(form, d.rows), d.columns, key))
  }

  /** With keys distinct as stored, the pure upsert. */
  lemma MergedIsOverride(form: Form, t: Table, d: Data, key: seq<string>)
    requires Keyed(FormAll(form, d.rows), key)
    ensures Merged(form, t, d, key) == Override(t, Formed(form, d), key)
  {
    DuckMergeRefines(t, Formed(form, d), key);
  }

  /** The MERGE upsert, all of it or nothing at every instant. */
  method Upsert(s: Session, target: string, d: Data, key: seq<string>) returns (returned: bool)
    requires s.state.Idle? && s.commitEnds
    modifies s
    ensures d.rows == [] ==> returned && s.history == old(s.history) && s.committed == old(s.committed)
    ensures d.rows != [] && target !in old(s.committed) ==> !returned && s.committed == old(s.committed)
    ensures d.rows != [] && target in old(s.committed) ==>
              AtomicWrite(old(s.history), old(s.committed), s.history, s.committed,
                          target, Merged(s.form, old(s.committed)[target], d, key), returned)
    ensures if returned then s.raises == old(s.raises) else s.raises > old(s.raises)
    ensures returned ==> s.state.Idle?
    ensures s.state.Idle? || s.lost
  {
    if d.rows == [] {
      return true;
    }
    returned := s.Begin();
    if returned {
      var body := WriteArrow(s, MergeRows(target, d, key));
      returned := Leave(s, body);
    }
  }
}
