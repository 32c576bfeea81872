/** The Postgres adapter's write plane: paged INSERTs inside one explicit transaction. */
module Postgres {
  import opened Rows
  import opened Mechanisms
  import opened Transactions

  const INSERT_PAGE_SIZE: nat := 1000

  /** At the adapter's own page size the engines agree exactly when the keys are distinct as stored. */
  lemma EnginesAgreeAtPageSize(t: Table, d: Data, key: seq<string>, form: Form)
    requires Ready(t, d.columns, [], key) && NonNullKeys(d.rows, key) && IsForm(form) && Outside(d.columns, key) != []
    ensures AgreeAt(t, Formed(form, d), key, INSERT_PAGE_SIZE) <==> UniqueKeys(FormAll(form, d.rows), key)
  {
    EnginesAgreeIffKeysUnique(t, d, key, INSERT_PAGE_SIZE, form);
  }

  /** COMMIT, or ROLLBACK after any failure, the failed COMMIT included; a rollback that fails is only logged. */
  method Finish(s: Session, bodyReturned: bool) returns (returned: bool)
    requires bodyReturned ==> s.state.Active?
    modifies s
    ensures old(s.history) < s.history && s.history[|s.history| - 1] == s.committed
    ensures forall i | |old(s.history)| <= i < |s.history| ::
              s.history[i] == old(s.committed) || (bodyReturned && s.history[i] == old(s.state).work)
    ensures returned ==> bodyReturned && s.committed == old(s.state).work
    ensures bodyReturned ==> if returned then s.raises == old(s.raises) else s.raises > old(s.raises)
    ensures s.raises >= old(s.raises)
    ensures returned ==> s.state.Idle?
    ensures s.state.Idle? || s.lost
    ensures old(s.lost) ==> s.lost
  {
    returned := false;
    if bodyReturned {
      returned := s.Commit();
    }
    if !returned {
      var _ := s.Rollback();
    }
  }

  /** Plain paged inserts into the open transaction. */
  method InsertPages(s: Session, target: string, d: Data) returns (returned: bool)
    requires s.state.Active? && d.rows != []
    modifies s`state, s`history, s`raises
    ensures old(s.history) < s.history
    ensures forall i | |old(s.history)| <= i < |s.history| :: s.history[i] == s.committed
    ensures if returned then s.raises == old(s.raises) else s.raises > old(s.raises)
    ensures returned ==> target in old(s.state).work
    ensures returned ==>
        s.state == Active(old(s.state).work[target := Appended(old(s.state).work[target], Formed(s.form, d))])
  {
    var start := 0;
    ghost var w, f := s.state.work, FormAll(s.form, d.rows);
    returned := true;
    while start < |d.rows|
      invariant 0 <= start <= |d.rows|
      invariant returned && s.raises == old(s.raises) && old(s.history) <= s.history
      invariant forall i | |old(s.history)| <= i < |s.history| :: s.history[i] == s.committed
      invariant start == 0 ==> s.state == Active(w)
      invariant start > 0 ==> |s.history| > |old(s.history)| && target in w
      invariant start > 0 ==> s.state == Active(w[target := Appended(w[target], Data(d.columns, f[..start]))])
    {
      var end := if start + INSERT_PAGE_SIZE <= |d.rows| then start + INSERT_PAGE_SIZE else |d.rows|;
      assert f[..end] == f[..start] + f[start..end];
      assert FormAll(s.form, d.rows[start..end]) == f[start..end];
      if target in w {
        AppendedConcat(w[target], d.columns, f[..start], f[start..end]);
        AppendedConcat(w[target], d.columns, [], f[start..end]);
      }
      returned := s.Run(Insert(target, Data(d.columns, d.rows[start..end])));
      if !returned {
        return;
      }
      start := end;
    }
    assert f[..start] == f;
  }

  function PagesOf(form: Form, t: Table, d: Data, key: seq<string>): Option<seq<Row>> {
    Pages(t.columns, t.rows, FormAll(form, d.rows), INSERT_PAGE_SIZE, d.columns, key)
  }

  /** What the pages leave of a table; a page that fails leaves it as it was. */
  function Paged(form: Form, t: Table, d: Data, key: seq<string>): Table {
    match PagesOf(form, t, d, key)
    case None => t
    case Some(rows) => t.(rows := rows)
  }

  /** With keys distinct as stored, the pure upsert. */
  lemma PagedIsOverride(form: Form, t: Table, d: Data, key: seq<string>)
    requires Ready(t, d.columns, FormAll(form, d.rows), key)
    ensures Paged(form, t, d, key) == Override(t, Formed(form, d), key)
  {
    PagesRefine(t, d.columns, FormAll(form, d.rows), INSERT_PAGE_SIZE, key);
    OverrideIsFold(t, d.columns, FormAll(form, d.rows), key);
    assert Data(d.columns, FormAll(form, d.rows)) == Formed(form, d);
  }

  ghost function PagesLeft(t: Table, rows: seq<Row>, d: Data, f: seq<Row>, start: nat,
                           key: seq<string>): Option<seq<Row>>
    requires start <= |f|
  {
    Pages(t.columns, rows, f[start..], INSERT_PAGE_SIZE, d.columns, key)
  }

  /** The table of the open transaction once its rows are these. */
  ghost function With(w: Tables, target: string, rows: seq<Row>): Tables
    requires target in w
  {
    w[target := w[target].(rows := rows)]
  }

  /** A page that went through, and the pages left after it. */
  lemma OnePage(form: Form, w: Tables, target: string, rows: seq<Row>, d: Data, start: nat, end: nat, key: seq<string>)
      returns (rows': seq<Row>)
    requires target in w && start < |d.rows|
    requires end == (if start + INSERT_PAGE_SIZE <= |d.rows| then start + INSERT_PAGE_SIZE else |d.rows|)
    requires var page := InsertOnConflict(target, Data(d.columns, d.rows[start..end]), key);
             Effect(form, page, With(w, target, rows)).Some?
    ensures var page := InsertOnConflict(target, Data(d.columns, d.rows[start..end]), key);
            Effect(form, page, With(w, target, rows)) == Some(With(w, target, rows'))
    ensures var f := FormAll(form, d.rows);
            PagesLeft(w[target], rows, d, f, start, key) == PagesLeft(w[target], rows', d, f, end, key)
  {
    var f := FormAll(form, d.rows);
    assert FormAll(form, d.rows[start..end]) == f[start..end];
    rows' := OnConflict(w[target].columns, rows, {}, f[start..end], d.columns, key).value;
    assert With(w, target, rows)[target := With(w, target, rows)[target].(rows := rows')] == With(w, target, rows');
    assert f[start..][..end - start] == f[start..end] && f[start..][end - start..] == f[end..];
  }

  /** Paged `ON CONFLICT` inserts into the open transaction. */
  method UpsertPages(s: Session, target: string, d: Data, key: seq<string>) returns (returned: bool)
    requires s.state.Active? && d.rows != []
    modifies s`state, s`history, s`raises
    ensures old(s.history) < s.history
    ensures forall i | |old(s.history)| <= i < |s.history| :: s.history[i] == s.committed
    ensures if returned then s.raises == old(s.raises) else s.raises > old(s.raises)
    ensures returned ==> target in old(s.state).work
    ensures returned ==> PagesOf(s.form, old(s.state).work[target], d, key).Some?
    ensures returned ==>
        s.state == Active(old(s.state).work[target := Paged(s.form, old(s.state).work[target], d, key)])
  {
    var start := 0;
    ghost var w, f := s.state.work, FormAll(s.form, d.rows);
    ghost var rows := if target in w then w[target].rows else [];
    assert f[0..] == f;
    returned := true;
    while start < |d.rows|
      invariant 0 <= start <= |d.rows|
      invariant returned && s.raises == old(s.raises) && old(s.history) <= s.history
      invariant forall i | |old(s.history)| <= i < |s.history| :: s.history[i] == s.committed
      invariant start > 0 ==> |s.history| > |old(s.history)| && target in w
      invariant s.state == Active(if target in w then With(w, target, rows) else w)
      invariant target in w ==> PagesLeft(w[target], rows, d, f, start, key) == PagesOf(s.form, w[target], d, key)
    {
      var end := if start + INSERT_PAGE_SIZE <= |d.rows| then start + INSERT_PAGE_SIZE else |d.rows|;
      returned := s.Run(InsertOnConflict(target, Data(d.columns, d.rows[start..end]), key));
      if !returned {
        return;
      }
      rows := OnePage(s.form, w, target, rows, d, start, end, key);
      start := end;
    }
  }

  /** TRUNCATE and refill, atomically. */
  method Load(s: Session, target: string, d: Data) returns (returned: bool)
    requires s.state.Idle?
    modifies s
    ensures target in old(s.committed) ==>
              AtomicWrite(old(s.history), old(s.committed), s.history, s.committed,
                          target, Appended(Emptied(old(s.committed)[target]), Formed(s.form, d)), returned)
    ensures returned && d.Valid() ==> Refilled(old(s.committed), s.committed, target, s.form, d)
    ensures target !in old(s.committed) ==> !returned && s.committed == old(s.committed)
    ensures if returned then s.raises == old(s.raises) else s.raises > old(s.raises)
    ensures returned ==> s.state.Idle?
    ensures s.state.Idle? || s.lost
  {
    returned := s.Begin();
    if returned {
      var body := s.Run(Clear(target));
      if body && d.rows != [] {
        body := InsertPages(s, target, d);
      } else if body {
        AppendedConcat(Emptied(s.state.work[target]), d.columns, [], []);
      }
      returned := Finish(s, body);
    }
    if returned && d.Valid() {
      LoadRefills(old(s.committed), target, s.form, d);
    }
  }

  /** All rows or none; no rows, no transaction. */
  method Append(s: Session, target: string, d: Data) returns (returned: bool)
    requires s.state.Idle?
    modifies s
    ensures d.rows == [] ==> returned && s.history == old(s.history) && s.committed == old(s.committed)
    ensures d.rows != [] && target !in old(s.committed) ==> !returned && s.committed == old(s.committed)
    ensures d.rows != [] && target in old(s.committed) ==>
              AtomicWrite(old(s.history), old(s.committed), s.history, s.committed,
                          target, Appended(old(s.committed)[target], Formed(s.form, d)), returned)
    ensures returned && d.Valid() && d.rows != [] ==> Grown(old(s.committed), s.committed, target, s.form, d)
    ensures if returned then s.raises == old(s.raises) else s.raises > old(s.raises)
    ensures returned ==> s.state.Idle?
    ensures s.state.Idle? || s.lost
  {
    if d.rows == [] {
      return true;
    }
    returned := s.Begin();
    if returned {
      var body := InsertPages(s, target, d);
      returned := Finish(s, body);
    }
    if returned && d.Valid() {
      AppendGrows(old(s.committed), target, s.form, d);
    }
  }

  /** The ON CONFLICT upsert, all of it or nothing at every instant. */
  method Upsert(s: Session, target: string, d: Data, key: seq<string>) returns (returned: bool)
    requires s.state.Idle?
    modifies s
    ensures d.rows == [] ==> returned && s.history == old(s.history) && s.committed == old(s.committed)
    ensures d.rows != [] && target !in old(s.committed) ==> !returned && s.committed == old(s.committed)
    ensures d.rows != [] && target in old(s.committed) ==>
              AtomicWrite(old(s.history), old(s.committed), s.history, s.committed,
                          target, Paged(s.form, old(s.committed)[target], d, key), returned)
    ensures returned && d.rows != [] ==> PagesOf(s.form, old(s.committed)[target], d, key).Some?
    ensures if returned then s.raises == old(s.raises) else s.raises > old(s.raises)
    ensures returned ==> s.state.Idle?
    ensures s.state.Idle? || s.lost
  {
    if d.rows == [] {
      return true;
    }
    returned := s.Begin();
    if returned {
      var body := UpsertPages(s, target, d, key);
      returned := Finish(s, body);
    }
  }
}
