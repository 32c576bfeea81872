/** The Trino adapter's write plane: one statement at a time, each its own commit, no transactions.
    Any statement may raise, with or without having taken effect. */
module Trino {
  import opened Rows
  import opened Mechanisms

  const STAGE_PREFIX := "__continuo_stage_"
  const OLD_PREFIX := "__continuo_old_"
  const INSERT_BATCH_SIZE: nat := 500

  datatype Stmt =
    | Locate(table: string)
    | CreateLike(stage: string, target: string)
    | Insert(table: string, named: seq<string>, groups: nat, params: seq<Value>)
    | InsertSelect(target: string, stage: string, named: seq<string>)
    | Merge(target: string, stage: string, named: seq<string>, key: seq<string>)
    | Rename(table: string, to: string)
    | Drop(table: string)

  // --- bound parameters ---------------------------------------------------

  function Cells(r: Row, named: seq<string>): seq<Value> {
    if named == [] then [] else [At(r, named[0])] + Cells(r, named[1..])
  }

  /** The row-major parameter list of one batch. */
  function Flatten(batch: seq<Row>, named: seq<string>): seq<Value> {
    if batch == [] then [] else Cells(batch[0], named) + Flatten(batch[1..], named)
  }

  function RowFrom(named: seq<string>, cells: seq<Value>): Row
    requires |named| == |cells|
  {
    if named == [] then map[] else RowFrom(named[1..], cells[1..])[named[0] := cells[0]]
  }

  /** The server's reading of `groups` parenthesised groups of `|named|` placeholders. */
  function Unflatten(named: seq<string>, groups: nat, params: seq<Value>): Option<seq<Row>> {
    if groups == 0 then if params == [] then Some([]) else None
    else if |params| < |named| then None
    else match Unflatten(named, groups - 1, params[|named|..])
      case None => None
      case Some(rest) => Some([RowFrom(named, params[..|named|])] + rest)
  }

  lemma {:induction false} RowFromCells(r: Row, named: seq<string>)
    ensures |Cells(r, named)| == |named|
    ensures RowFrom(named, Cells(r, named)) == map c | c in named :: At(r, c)
  {
    if named != [] {
      RowFromCells(r, named[1..]);
      assert Cells(r, named)[1..] == Cells(r, named[1..]);
      assert named == [named[0]] + named[1..];
    }
  }

  /** Batches survive parameter binding: the server sees exactly the rows that were flattened. */
  lemma {:induction false} FlattenRoundTrip(batch: seq<Row>, named: seq<string>)
    requires Data(named, batch).Valid()
    ensures Unflatten(named, |batch|, Flatten(batch, named)) == Some(batch)
  {
    if batch != [] {
      var r := batch[0];
      assert batch == [r] + batch[1..];
      assert Data(named, batch[1..]).Valid();
      FlattenRoundTrip(batch[1..], named);
      RowFromCells(r, named);
      assert r == map c | c in named :: At(r, c) by {
        assert r.Keys == ColumnSet(named);
      }
      var params := Flatten(batch, named);
      assert params[..|named|] == Cells(r, named);
      assert params[|named|..] == Flatten(batch[1..], named);
    }
  }

  // --- what one statement does --------------------------------------------

  /** The catalog after `stmt`, or None when Trino refuses it. Rows are stored in the form Trino gives their
      cells; a stage has its target's columns, so what it holds moves and compares as it is. */
  function Effect(form: Form, stmt: Stmt, tables: Tables): Option<Tables> {
    match stmt
    case Locate(table) =>
      if table in tables then Some(tables) else None
    case CreateLike(stage, target) =>
      if target in tables && stage !in tables
      then Some(tables[stage := tables[target].(key := [], rows := [])])
      else None
    case Insert(table, named, groups, params) =>
      if table !in tables then None
      else (
        var t := tables[table];
        match Unflatten(named, groups, params)
        case None => None
        case Some(ss) =>
          var f := Formed(form, Data(named, ss));
          if Accepts(t.columns, named, f.rows) then Some(tables[table := Appended(t, f)]) else None)
    case InsertSelect(target, stage, named) =>
      if target in tables && stage in tables && Accepts(tables[target].columns, named, tables[stage].rows)
      then Some(tables[target := Appended(tables[target], Data(named, tables[stage].rows))])
      else None
    case Merge(target, stage, named, key) =>
      if target in tables && stage in tables && Accepts(tables[target].columns, named, tables[stage].rows)
      then (
        var t := tables[target];
        match TrinoMerge(t.columns, t.rows, tables[stage].rows, named, key)
        case None => None
        case Some(rows) => Some(tables[target := t.(rows := rows)]))
      else None
    case Rename(table, to) =>
      if table in tables && to !in tables then Some((tables - {table})[to := tables[table]]) else None
    case Drop(table) =>
      if table in tables then Some(tables - {table}) else None
  }

  /** One executed statement: whether it returned, and the catalog it left. */
  datatype Event = Event(stmt: Stmt, returned: bool, after: Tables)

  /** The catalogs left by the events but the first `from`. */
  function CatalogsSince(history: seq<Event>, from: nat): (seen: seq<Tables>)
    requires from <= |history|
    ensures |seen| == |history| - from
  {
    seq(|history| - from, i requires 0 <= i < |history| - from => history[from + i].after)
  }

  /** Two catalogs that differ at most at the names in `touched`. */
  ghost predicate SameExcept(a: Tables, b: Tables, touched: set<string>) {
    forall n | n !in touched :: (n in a <==> n in b) && (n in a ==> a[n] == b[n])
  }

  /** No catalog passed through since the first `from` events differs from `before` outside `touched`. */
  ghost predicate OnlyTouched(history: seq<Event>, from: nat, before: Tables, touched: set<string>) {
    forall i | from <= i < |history| :: SameExcept(before, history[i].after, touched)
  }

  /** The target's table once `d` has replaced its rows. */
  function Replaced(t: Table, d: Data): Table {
    t.(key := [], rows := StoredAll(t.columns, d.columns, d.rows))
  }

  /** Where the data is at any instant of a load: the prior table is under its own name or under the
      private old name, or it is gone because the next one is complete; the target is never a mix. */
  ghost predicate NothingLost(now: Tables, target: string, old_: string, prior: Table, next: Table) {
    && (target in now ==> now[target] == prior || now[target] == next)
    && (|| (target in now && now[target] == prior)
        || (old_ in now && now[old_] == prior)
        || (target in now && now[target] == next && old_ !in now))
  }

  ghost predicate NeverLost(history: seq<Event>, from: nat, target: string, old_: string, prior: Table, next: Table) {
    forall i | from <= i < |history| :: NothingLost(history[i].after, target, old_, prior, next)
  }

  ghost predicate AllReturned(history: seq<Event>, from: nat) {
    forall i | from <= i < |history| :: history[i].returned
  }

  /** Only INSERTs into `table` ran, and nothing else changed. */
  ghost predicate OnlyInserts(history: seq<Event>, from: nat, before: Tables, table: string) {
    forall i | from <= i < |history| ::
      history[i].stmt.Insert? && history[i].stmt.table == table && SameExcept(before, history[i].after, {table})
  }

  /** Only the last of these may have raised. */
  ghost predicate StoppedAtOnce(history: seq<Event>, from: nat) {
    forall i | from <= i < |history| - 1 :: history[i].returned
  }

  lemma OneMoreInsert(history: seq<Event>, e: Event, from: nat, before: Tables, table: string)
    requires from <= |history| && OnlyInserts(history, from, before, table) && AllReturned(history, from)
    requires e.stmt.Insert? && e.stmt.table == table && SameExcept(before, e.after, {table})
    ensures OnlyInserts(history + [e], from, before, table)
    ensures AllReturned(history + [e], from) <==> e.returned
    ensures StoppedAtOnce(history + [e], from)
  {
    var h := history + [e];
    assert forall i | 0 <= i < |history| :: h[i] == history[i];
    assert h[|history|] == e;
  }

  // --- the order of a load's statements -----------------------------------

  /** The events before `a` create and fill the stage, each after the one before it returned. */
  ghost predicate Staging(h: seq<Event>, from: nat, a: nat, target: string, stage: string) {
    && from < a <= |h| && h[from].stmt == Locate(target)
    && (a > from + 1 ==> h[from + 1].stmt == CreateLike(stage, target))
    && (forall i | from + 2 <= i < a :: h[i].stmt.Insert? && h[i].stmt.table == stage)
    && (forall i | from <= i < a - 1 :: h[i].returned)
    && (a == from + 1 ==> !h[from].returned)
  }

  /** The stage was created, as far as the adapter knows. */
  ghost predicate CreateReturned(h: seq<Event>, from: nat, a: nat)
    requires from < a <= |h|
  {
    a > from + 1 && h[from + 1].returned
  }

  /** Rename the target away; if that returns rename the stage in; if that returns drop the old table, and
      otherwise rename it back. */
  ghost predicate Swapping(h: seq<Event>, a: nat, b: nat, target: string, stage: string, old_: string) {
    && a < b <= |h| && h[a].stmt == Rename(target, old_)
    && (b == a + 1 || b == a + 3) && (b == a + 1 <==> !h[a].returned)
    && (b == a + 3 ==>
          && h[a + 1].stmt == Rename(stage, target)
          && h[a + 2].stmt == if h[a + 1].returned then Drop(old_) else Rename(old_, target))
  }

  /** A whole load: staging, then the swap if the stage was filled, then a best-effort drop of the stage if it
      was created and has not become the target. */
  ghost predicate LoadSteps(h: seq<Event>, from: nat, a: nat, b: nat, target: string, stage: string, old_: string) {
    && Staging(h, from, a, target, stage)
    && (if h[a - 1].returned then Swapping(h, a, b, target, stage, old_) else b == a)
    && var left := CreateReturned(h, from, a) && !(b == a + 3 && h[a + 1].returned);
    && |h| == (if left then b + 1 else b) && (left ==> h[b].stmt == Drop(stage))
  }

  /** The rename that takes the target's name away took effect, and it raised, or neither the swap-in nor the
      rename back took effect. */
  ghost predicate NameLost(h: seq<Event>, from: nat, target: string, stage: string, old_: string) {
    exists i | from <= i < |h| ::
      && h[i].stmt == Rename(target, old_) && target !in h[i].after
      && (|| !h[i].returned
          || (&& i + 2 < |h|
              && h[i + 1].stmt == Rename(stage, target) && target !in h[i + 1].after
              && h[i + 2].stmt == Rename(old_, target) && target !in h[i + 2].after))
  }

  /** The rename that makes the stage the target took effect. */
  ghost predicate SwappedIn(h: seq<Event>, from: nat, target: string, stage: string) {
    exists i | from <= i < |h| :: h[i].stmt == Rename(stage, target) && target in h[i].after
  }

  /** Where a swap over `h[a..b]` leaves the target. */
  ghost predicate SwapLeft(h: seq<Event>, a: nat, b: nat, now: Tables, target: string, prior: Table, next: Table)
    requires a <= b <= |h| && (b > a ==> b == a + 1 || b == a + 3)
  {
    var in_ := b == a + 3 && target in h[a + 1].after;
    && (target !in now <==> b > a && target !in h[a].after && (b == a + 3 ==> !in_ && target !in h[a + 2].after))
    && (target in now ==> now[target] == if in_ then next else prior)
    && (b == a + 3 && h[a + 1].returned ==> in_)
  }

  /** Until the swap begins the target is as it was. */
  lemma NotSwapped(h: seq<Event>, from: nat, now: Tables, target: string, prior: Table, next: Table)
    requires from < |h| && h[|h| - 1].after == now && Untouched(h, from, target, prior)
    ensures SwapLeft(h, |h|, |h|, now, target, prior, next)
  {
  }

  /** Filling the stage goes on from creating it. */
  lemma FillingIsStaging(h: seq<Event>, from: nat, h': seq<Event>, before: Tables, now: Tables, target: string,
                         stage: string)
    requires h <= h' && from <= |h| && Staging(h, from, |h|, target, stage) && CreateReturned(h, from, |h|)
    requires |h| == from + 2 && OnlyInserts(h', |h|, now, stage) && StoppedAtOnce(h', |h|)
    requires OnlyTouched(h, from, before, {stage}) && SameExcept(before, now, {stage})
    ensures Staging(h', from, |h'|, target, stage) && CreateReturned(h', from, |h'|)
    ensures OnlyTouched(h', from, before, {stage}) && NoneDropped(h', from)
    ensures AllReturned(h', from) <==> AllReturned(h', |h|)
    ensures |h'| > |h| ==> (AllReturned(h', |h|) <==> h'[|h'| - 1].returned)
  {
    assert forall i | from <= i < |h| :: h'[i] == h[i];
  }

  /** Staging stays what it was while the swap runs. */
  lemma SwapFollows(h: seq<Event>, from: nat, h': seq<Event>, target: string, stage: string)
    requires h <= h' && from <= |h| && Staging(h, from, |h|, target, stage)
    ensures Staging(h', from, |h|, target, stage)
    ensures CreateReturned(h', from, |h|) == CreateReturned(h, from, |h|)
    ensures h'[|h| - 1] == h[|h| - 1]
    ensures AllReturned(h', from) <==> AllReturned(h, from) && AllReturned(h', |h|)
  {
    assert forall i | 0 <= i < |h| :: h'[i] == h[i];
  }

  /** How a load ends: its events tell exactly where the target's name and rows are. */
  ghost predicate EndsExactly(h: seq<Event>, before: Tables, h': seq<Event>, now: Tables, target: string, next: Table,
                              stage: string, old_: string)
    requires target in before
  {
    && (target !in now <==> NameLost(h', |h|, target, stage, old_))
    && (SwappedIn(h', |h|, target, stage) ==> target in now)
    && (target in now ==> now[target] == if SwappedIn(h', |h|, target, stage) then next else before[target])
  }

  /** The same, told from the statements alone. */
  lemma LeftIff(h: seq<Event>, from: nat, a: nat, b: nat, now: Tables, target: string, stage: string, old_: string,
                prior: Table, next: Table)
    requires LoadSteps(h, from, a, b, target, stage, old_)
    requires target != stage && target != old_ && stage != old_
    requires SwapLeft(h, a, b, now, target, prior, next)
    ensures target !in now <==> NameLost(h, from, target, stage, old_)
    ensures SwappedIn(h, from, target, stage) <==> b == a + 3 && target in h[a + 1].after
    ensures target in now ==> now[target] == if SwappedIn(h, from, target, stage) then next else prior
  {
    forall i | from <= i < |h| && h[i].stmt == Rename(target, old_) ensures i == a && b > a {
      OneRename(h, from, a, b, target, stage, old_, i);
    }
    forall i | from <= i < |h| && h[i].stmt == Rename(stage, target) ensures i == a + 1 && b == a + 3 {
      OneRename(h, from, a, b, target, stage, old_, i);
    }
    if target !in now {
      assert h[a].stmt == Rename(target, old_);
    }
  }

  /** A load issues each of its renames at one place only. */
  lemma OneRename(h: seq<Event>, from: nat, a: nat, b: nat, target: string, stage: string, old_: string, i: nat)
    requires LoadSteps(h, from, a, b, target, stage, old_)
    requires target != stage && target != old_ && stage != old_
    requires from <= i < |h|
    ensures h[i].stmt == Rename(target, old_) ==> i == a && b > a
    ensures h[i].stmt == Rename(stage, target) ==> i == a + 1 && b == a + 3
  {
    if i < a {
      assert i == from || i == from + 1 || h[i].stmt.Insert?;
    } else {
      assert i == a || i == a + 1 || i == a + 2 || i == b;
    }
  }

  /** The target was `t` at every instant. */
  ghost predicate Untouched(history: seq<Event>, from: nat, target: string, t: Table) {
    forall i | from <= i < |history| :: target in history[i].after && history[i].after[target] == t
  }

  /** Reading a staged row back names the same cells. */
  lemma StagedRowsStoreAlike(columns: seq<LiveColumn>, named: seq<string>, ss: seq<Row>)
    requires ColumnSet(named) <= Names(columns)
    ensures StoredAll(columns, named, StoredAll(columns, named, ss)) == StoredAll(columns, named, ss)
    ensures Accepts(columns, named, ss) ==> Accepts(columns, named, StoredAll(columns, named, ss))
  {
    var staged := StoredAll(columns, named, ss);
    forall i | 0 <= i < |ss| ensures Stored(columns, named, staged[i]) == Stored(columns, named, ss[i]) {
      StoredTwice(columns, named, ss[i]);
    }
    assert StoredAll(columns, named, staged) == staged;
    if Accepts(columns, named, ss) {
      forall s | s in staged ensures exists x | x in ss :: Stored(columns, named, s) == Stored(columns, named, x) {
        var i :| 0 <= i < |ss| && staged[i] == s;
        assert ss[i] in ss;
      }
    }
  }

  lemma StoredTwice(columns: seq<LiveColumn>, named: seq<string>, s: Row)
    requires ColumnSet(named) <= Names(columns)
    ensures Stored(columns, named, Stored(columns, named, s)) == Stored(columns, named, s)
    ensures forall c | c in named :: At(Stored(columns, named, s), c) == At(s, c)
  {
    forall c | c in named ensures At(Stored(columns, named, s), c) == At(s, c) {
      assert c in ColumnSet(named);
    }
  }

  class Catalog {
    /** What the engine makes of the cells it stores. */
    const form: Form
    var tables: Tables
    ghost var history: seq<Event>

    /** Runs one statement. It may raise after taking effect, or before; only a statement the server
        accepts can return. Every statement is one atomic commit. */
    method Execute(stmt: Stmt) returns (returned: bool)
      modifies this
      ensures history == old(history) + [Event(stmt, returned, tables)]
      ensures Allowed(form, old(tables), Event(stmt, returned, tables))
    {
      var effect := Effect(form, stmt, tables);
      var applied, reported := *, *;
      returned := false;
      if effect.Some? && applied {
        tables := effect.value;
        returned := reported;
      }
      history := history + [Event(stmt, returned, tables)];
    }

    /** A stage shaped like the target, empty; the target must exist. */
    method CreateStage(target: string, stage: string) returns (created: bool)
      modifies this
      ensures old(history) < history && history[|history| - 1].after == tables
      ensures OnlyTouched(history, |old(history)|, old(tables), {stage})
      ensures created ==> target in old(tables) && stage !in old(tables)
                          && tables == old(tables)[stage := old(tables)[target].(key := [], rows := [])]
      ensures target !in old(tables) ==> tables == old(tables) && |history| == |old(history)| + 1
      ensures forall i | |old(history)| <= i < |history| :: history[i].stmt.Locate? || history[i].stmt.CreateLike?
      ensures Staging(history, |old(history)|, |history|, target, stage)
      ensures created <==> CreateReturned(history, |old(history)|, |history|)
      ensures created <==> forall i | |old(history)| <= i < |history| :: history[i].returned
      ensures !created && stage !in old(tables) && stage in tables ==> StageRaised(history, |old(history)|, stage)
    {
      created := Execute(Locate(target));
      if created {
        created := Execute(CreateLike(stage, target));
        assert history[|history| - 1].returned == created;
      }
    }

    /** Best effort: whether the stage is gone is not reported. */
    method DropStage(stage: string)
      modifies this
      ensures |history| == |old(history)| + 1 && old(history) < history
      ensures history[|old(history)|].stmt == Drop(stage) && history[|old(history)|].after == tables
      ensures tables == old(tables) || tables == old(tables) - {stage}
      ensures stage in tables ==> !history[|old(history)|].returned
    {
      var _ := Execute(Drop(stage));
    }

    method InsertBatch(table: string, named: seq<string>, batch: seq<Row>) returns (inserted: bool)
      requires Data(named, batch).Valid() && table in tables
      modifies this
      ensures |history| == |old(history)| + 1 && history == old(history) + [history[|old(history)|]]
      ensures var e := history[|old(history)|];
              e.stmt.Insert? && e.stmt.table == table && e.returned == inserted && e.after == tables
      ensures SameExcept(old(tables), tables, {table}) && table in tables
      ensures inserted ==>
          tables == old(tables)[table := Appended(old(tables)[table], Formed(form, Data(named, batch)))]
      ensures inserted ==> Accepts(old(tables)[table].columns, named, FormAll(form, batch))
    {
      FlattenRoundTrip(batch, named);
      inserted := Execute(Insert(table, named, |batch|, Flatten(batch, named)));
    }

    /** Inserts the rows in batches of INSERT_BATCH_SIZE, stopping at the first failure. */
    method InsertBatches(table: string, d: Data) returns (inserted: bool)
      requires d.Valid() && table in tables
      modifies this
      ensures old(history) <= history
      ensures d.rows != [] ==> |history| > |old(history)| && history[|history| - 1].after == tables
      ensures OnlyInserts(history, |old(history)|, old(tables), table)
      ensures SameExcept(old(tables), tables, {table}) && table in tables
      ensures inserted <==> AllReturned(history, |old(history)|)
      ensures StoppedAtOnce(history, |old(history)|)
      ensures inserted ==> tables == old(tables)[table := Appended(old(tables)[table], Formed(form, d))]
      ensures inserted ==> AcceptedUpTo(old(tables)[table], Formed(form, d), |d.rows|)
    {
      var start := 0;
      ghost var t, f := tables[table], Formed(form, d);
      inserted := true;
      FormedIsValid(form, d);
      NothingAppended(t, f);
      while start < |d.rows|
        invariant 0 <= start <= |d.rows|
        invariant old(history) <= history
        invariant start > 0 ==> |history| > |old(history)| && history[|history| - 1].after == tables
        invariant OnlyInserts(history, |old(history)|, old(tables), table)
        invariant inserted && AllReturned(history, |old(history)|)
        invariant tables == old(tables)[table := Appended(t, Data(d.columns, f.rows[..start]))]
        invariant AcceptedUpTo(t, f, start)
      {
        var end := if start + INSERT_BATCH_SIZE <= |d.rows| then start + INSERT_BATCH_SIZE else |d.rows|;
        BatchGrows(form, t, d, start, end);
        ghost var sofar := history;
        inserted := InsertBatch(table, d.columns, d.rows[start..end]);
        OneMoreInsert(sofar, history[|sofar|], |old(history)|, old(tables), table);
        if !inserted {
          return;
        }
        start := end;
      }
      assert f.rows[..start] == f.rows;
    }

    /** The two renames and what follows them; `swapped` once the stage is the target. */
    method Swap(target: string, stage: string, old_: string) returns (returned: bool, swapped: bool)
      requires target in tables && stage in tables && old_ !in tables && target != stage
      modifies this
      ensures SwapRun(old(history), old(tables), history, tables, target, stage, old_, returned, swapped)
    {
      returned, swapped := false, false;
      var renamed := Execute(Rename(target, old_));
      ghost var h := history;
      assert h[|old(history)|].returned == renamed;
      if renamed {
        returned, swapped := SwapIn(target, stage, old_);
        assert history[|old(history)|] == h[|old(history)|];
      }
    }

    /** The stage takes the name the target has given up; failing that, one attempt to give it back. */
    method SwapIn(target: string, stage: string, old_: string) returns (returned: bool, swapped: bool)
      requires target !in tables && stage in tables && old_ in tables && stage != old_
      modifies this
      ensures old(history) < history && history[|history| - 1].after == tables
      ensures OnlyTouched(history, |old(history)|, old(tables), {target, stage, old_})
      ensures NeverLost(history, |old(history)|, target, old_, old(tables)[old_], old(tables)[stage])
      ensures swapped ==> stage !in tables
      ensures returned ==> swapped && tables == (old(tables) - {stage, old_})[target := old(tables)[stage]]
      ensures target !in tables ==> RenameRaised(history, |old(history)|, target, old_)
      ensures returned <==> AllReturned(history, |old(history)|)
      ensures var n := |old(history)|;
              && |history| == n + 2 && history[n].stmt == Rename(stage, target) && history[n].returned == swapped
              && history[n + 1].stmt == (if swapped then Drop(old_) else Rename(old_, target))
              && (swapped ==> target in history[n].after)
              && (target in history[n].after ==> target in tables && tables[target] == old(tables)[stage])
              && (target !in history[n].after && target in tables ==> tables[target] == old(tables)[old_])
    {
      returned := false;
      swapped := Execute(Rename(stage, target));
      ghost var h := history;
      assert h[|old(history)|].returned == swapped;
      if swapped {
        returned := Execute(Drop(old_));
        assert history[|h|].returned == returned;
      } else {
        var recovered := Execute(Rename(old_, target));
        assert history[|h|].returned == recovered && history[|old(history)|] == h[|old(history)|];
      }
    }

    /** Replaces the target's contents through a stage and two renames. */
    method Load(target: string, d: Data, token: string) returns (returned: bool)
      requires d.Valid()
      requires STAGE_PREFIX + token !in tables && OLD_PREFIX + token !in tables
      modifies this
      ensures LoadRun(old(history), old(tables), history, tables, target,
          Formed(form, d), STAGE_PREFIX + token, OLD_PREFIX + token)
      ensures STAGE_PREFIX + token in tables ==> StageRaised(history, |old(history)|, STAGE_PREFIX + token)
      ensures returned ==>
          target in old(tables) && tables == old(tables)[target := Replaced(old(tables)[target], Formed(form, d))]
      ensures returned ==> Refilled(old(tables), tables, target, form, d)
      ensures returned <==> AllReturned(history, |old(history)|)
      ensures target in old(tables) && !AcceptedUpTo(old(tables)[target], Formed(form, d), |d.rows|) ==>
                !returned && Untouched(history, |old(history)|, target, old(tables)[target])
      ensures target in old(tables) ==>
                EndsExactly(old(history), old(tables), history, tables, target,
                            Replaced(old(tables)[target], Formed(form, d)), STAGE_PREFIX + token, OLD_PREFIX + token)
      ensures exists a, b ::
                LoadSteps(history, |old(history)|, a, b, target, STAGE_PREFIX + token, OLD_PREFIX + token)
    {
      PrivateNamesDiffer(token);
      returned := LoadVia(target, d, STAGE_PREFIX + token, OLD_PREFIX + token);
      if returned {
        ReplacedRefills(old(tables), target, form, d);
      }
    }

    method LoadVia(target: string, d: Data, stage: string, old_: string) returns (returned: bool)
      requires d.Valid() && stage !in tables && old_ !in tables && stage != old_
      modifies this
      ensures LoadDone(old(history), old(tables), history, tables, target, Formed(form, d), stage, old_, returned)
    {
      var stageRef;
      ghost var a;
      returned, stageRef, a := TryLoad(target, d, stage, old_);
      ghost var h, t := history, tables;
      if stageRef.Some? {
        DropStage(stageRef.value);
      }
      TryIsLoad(old(history), old(tables), h, t, history, tables, target, Formed(form, d), stage, old_,
          returned, stageRef, a);
    }

    /** The body of the load's `try`: `stageRef` is what the `finally` must drop. */
    method TryLoad(target: string, d: Data, stage: string, old_: string)
        returns (returned: bool, stageRef: Option<string>, ghost a: nat)
      requires d.Valid() && stage !in tables && old_ !in tables && stage != old_
      modifies this
      ensures TryRun(old(history), old(tables), history, tables, target, Formed(form, d), stage, old_,
                     returned, stageRef, a)
    {
      var staged := Stage(target, d, stage);
      stageRef, returned, a := if staged.created then Some(stage) else None, false, |history|;
      ghost var h, mid := history, tables;
      if staged.filled {
        var swapped;
        returned, swapped := Swap(target, stage, old_);
        stageRef := if swapped then None else Some(stage);
        SwappedToo(old(history), old(tables), h, mid, history, tables, target, Formed(form, d), stage, old_,
            returned, swapped);
      } else {
        OnlyStaged(old(history), old(tables), h, mid, target, Formed(form, d), stage, old_, staged);
      }
    }

    /** Creates the stage and fills it with every row. The target is only read. */
    method Stage(target: string, d: Data, stage: string) returns (staged: Staged)
      requires d.Valid() && stage !in tables
      modifies this
      ensures StageRun(old(history), old(tables), history, tables, target, Formed(form, d), stage, staged)
    {
      var created := CreateStage(target, stage);
      staged := Staged(created, created);
      if created {
        StagedIsReplaced(old(tables)[target], Formed(form, d));
        if d.rows != [] {
          ghost var h, now := history, tables;
          var inserted := InsertBatches(stage, d);
          staged := Staged(true, inserted);
          FilledToo(old(history), old(tables), h, now, history, tables, target, Formed(form, d), stage, inserted);
        }
      }
    }

    /** Fills a stage, then writes the target with the one statement `final`. */
    method WriteViaStage(target: string, d: Data, stage: string, final: Stmt) returns (returned: bool)
      requires d.Valid() && d.rows != [] && stage !in tables && FinalOf(final, target, stage, d)
      modifies this
      ensures WriteRun(old(history), old(tables), history, tables, target, Formed(form, d), stage, final, returned)
      ensures stage in tables ==> StageRaised(history, |old(history)|, stage)
      ensures returned ==> target in tables && target in old(tables)
                           && tables[target] == Promised(final, old(tables)[target], Formed(form, d))
    {
      var staged;
      staged, returned := TryWrite(target, d, stage, final);
      ghost var h, t := history, tables;
      if staged {
        DropStage(stage);
        assert history[|h|].stmt == Drop(stage);
        DropIsSafe(old(history), old(tables), h, t, history, tables, target, Formed(form, d), stage, final, returned);
      }
    }

    /** The body of the write's `try`, with the stage created before it. */
    method TryWrite(target: string, d: Data, stage: string, final: Stmt) returns (created: bool, returned: bool)
      requires d.Valid() && d.rows != [] && stage !in tables && FinalOf(final, target, stage, d)
      modifies this
      ensures WriteRun(old(history), old(tables), history, tables, target, Formed(form, d), stage, final, returned)
      ensures created ==> target in old(tables)
      ensures !created && stage in tables ==> StageRaised(history, |old(history)|, stage)
      ensures returned ==>
          created && target in tables && tables[target] == Promised(final, old(tables)[target], Formed(form, d))
    {
      var staged := Stage(target, d, stage);
      created, returned := staged.created, false;
      if staged.filled {
        ghost var h := history;
        StagedFinal(form, old(tables), target, Formed(form, d), stage, final);
        returned := Execute(final);
        FinalIsAllOrNothing(old(history), old(tables), h, tables, target, Formed(form, d), stage, final, returned);
      }
    }

    /** All of the rows, or none: at every instant, and as reported. */
    method Append(target: string, d: Data, token: string) returns (returned: bool)
      requires d.Valid() && STAGE_PREFIX + token !in tables
      modifies this
      ensures d.rows == [] ==> returned && tables == old(tables) && history == old(history)
      ensures d.rows != [] ==>
          WriteRun(old(history), old(tables), history, tables, target, Formed(form, d), STAGE_PREFIX + token,
                                        InsertSelect(target, STAGE_PREFIX + token, d.columns), returned)
      ensures d.rows != [] && STAGE_PREFIX + token in tables ==>
          StageRaised(history, |old(history)|, STAGE_PREFIX + token)
      ensures returned && d.rows != [] ==> target in old(tables) && target in tables
                                           && tables[target] == Appended(old(tables)[target], Formed(form, d))
      ensures returned && d.rows != [] ==> Grown(old(tables), tables, target, form, d)
    {
      if d.rows == [] {
        return true;
      }
      var stage := STAGE_PREFIX + token;
      returned := WriteViaStage(target, d, stage, InsertSelect(target, stage, d.columns));
      if returned {
        AppendGrows(old(tables), target, form, d);
      }
    }

    /** The MERGE upsert, for rows whose keys the port has checked. */
    method Upsert(target: string, d: Data, key: seq<string>, token: string) returns (returned: bool)
      requires d.Valid() && STAGE_PREFIX + token !in tables
      requires ColumnSet(key) <= ColumnSet(d.columns)
      modifies this
      ensures d.rows == [] ==> returned && tables == old(tables) && history == old(history)
      ensures d.rows != [] ==>
          WriteRun(old(history), old(tables), history, tables, target, Formed(form, d), STAGE_PREFIX + token,
                                        Merge(target, STAGE_PREFIX + token, d.columns, key), returned)
      ensures d.rows != [] && STAGE_PREFIX + token in tables ==>
          StageRaised(history, |old(history)|, STAGE_PREFIX + token)
      ensures returned && d.rows != [] ==> target in old(tables) && target in tables
                                           && tables[target] == Override(old(tables)[target], Formed(form, d), key)
    {
      if d.rows == [] {
        return true;
      }
      var stage := STAGE_PREFIX + token;
      returned := WriteViaStage(target, d, stage, Merge(target, stage, d.columns, key));
    }
  }

  /** The one statement that may write the target of a staged append or upsert. */
  ghost predicate FinalOf(final: Stmt, target: string, stage: string, d: Data) {
    || final == InsertSelect(target, stage, d.columns)
    || (&& final.Merge? && final == Merge(target, stage, d.columns, final.key)
        && ColumnSet(final.key) <= ColumnSet(d.columns))
  }

  ghost function Promised(final: Stmt, t: Table, d: Data): Table {
    if final.Merge? then Override(t, d, final.key) else Appended(t, d)
  }

  /** At every instant the target is exactly the prior table or exactly the finished one. */
  ghost predicate AllOrNothing(history: seq<Event>, from: nat, target: string, prior: Table, next: Table) {
    forall i | from <= i < |history| ::
      target in history[i].after && (history[i].after[target] == prior || history[i].after[target] == next)
  }

  /** A failed clean-up is never reported as a failed write, and any other failure always is. */
  ghost predicate AllButDropsReturned(history: seq<Event>, from: nat) {
    forall i | from <= i < |history| :: history[i].returned || history[i].stmt.Drop?
  }

  /** Everything a staged append or upsert promises about the catalogs it passes through. */
  ghost predicate WriteRun(h: seq<Event>, before: Tables, h': seq<Event>, now: Tables,
                           target: string, d: Data, stage: string, final: Stmt, returned: bool)
  {
    && h < h' && h'[|h'| - 1].after == now
    && OnlyTouched(h', |h|, before, {target, stage})
    && (target !in before ==> now == before)
    && (target in before ==> AllOrNothing(h', |h|, target, before[target], Promised(final, before[target], d)))
    && (returned <==> AllButDropsReturned(h', |h|))
  }

  lemma DropIsSafe(h: seq<Event>, before: Tables, h1: seq<Event>, t1: Tables, h2: seq<Event>, t2: Tables,
                   target: string, d: Data, stage: string, final: Stmt, returned: bool)
    requires WriteRun(h, before, h1, t1, target, d, stage, final, returned)
    requires target in before && stage !in before
    requires h1 < h2 && |h2| == |h1| + 1 && h2[|h1|].after == t2 && (t2 == t1 || t2 == t1 - {stage})
    requires h2[|h1|].stmt.Drop?
    ensures WriteRun(h, before, h2, t2, target, d, stage, final, returned)
    ensures target in t1 && target in t2 && t2[target] == t1[target]
  {
    assert h1[|h1| - 1].after == t1;
    assert SameExcept(before, t1, {target, stage});
    assert forall i | |h| <= i < |h1| :: h2[i] == h1[i];
    if AllButDropsReturned(h2, |h|) {
      forall i | |h| <= i < |h1| ensures h1[i].returned || h1[i].stmt.Drop? {
        assert h2[i] == h1[i];
      }
    }
  }

  lemma StoredMatchesAlike(columns: seq<LiveColumn>, named: seq<string>, t: Row, s: Row, key: seq<string>)
    requires ColumnSet(key) <= ColumnSet(named) <= Names(columns)
    ensures Matches(t, Stored(columns, named, s), key) == Matches(t, s, key)
    ensures Updated(t, Stored(columns, named, s), named, key) == Updated(t, s, named, key)
  {
    StoredKeepsKey(columns, named, s, key);
    StoredTwice(columns, named, s);
  }

  lemma {:induction false} StagedOverwritesAlike(columns: seq<LiveColumn>, named: seq<string>, t: Row, ss: seq<Row>,
                                                 key: seq<string>)
    requires ColumnSet(key) <= ColumnSet(named) <= Names(columns)
    ensures Overwritten(t, StoredAll(columns, named, ss), named, key) == Overwritten(t, ss, named, key)
  {
    if ss != [] {
      StoredMatchesAlike(columns, named, t, ss[0], key);
      assert StoredAll(columns, named, ss)[1..] == StoredAll(columns, named, ss[1..]);
      StagedOverwritesAlike(columns, named, t, ss[1..], key);
    }
  }

  lemma {:induction false} StagedUnmatchedAlike(columns: seq<LiveColumn>, named: seq<string>, rows: seq<Row>,
                                                ss: seq<Row>, key: seq<string>)
    requires ColumnSet(key) <= ColumnSet(named) <= Names(columns)
    ensures Unmatched(rows, StoredAll(columns, named, ss), key) == StoredAll(columns, named, Unmatched(rows, ss, key))
  {
    if ss != [] {
      var x := Stored(columns, named, ss[0]);
      assert HasMatch(rows, x, key) == HasMatch(rows, ss[0], key) by {
        forall t | t in rows ensures Matches(t, x, key) == Matches(t, ss[0], key) {
          StoredMatchesAlike(columns, named, t, ss[0], key);
        }
      }
      assert StoredAll(columns, named, ss)[1..] == StoredAll(columns, named, ss[1..]);
      StagedUnmatchedAlike(columns, named, rows, ss[1..], key);
      var rest := Unmatched(rows, ss[1..], key);
      assert StoredAll(columns, named, [ss[0]] + rest) == [x] + StoredAll(columns, named, rest);
    }
  }

  /** Merging from a stage is merging from the data it was filled with. */
  lemma StagedOverrideAlike(t: Table, d: Data, key: seq<string>)
    requires ColumnSet(key) <= ColumnSet(d.columns) <= Names(t.columns)
    ensures var staged := Data(d.columns, StoredAll(t.columns, d.columns, d.rows));
            && Override(t, staged, key) == Override(t, d, key)
            && (Keyed(d.rows, key) ==> Keyed(staged.rows, key))
  {
    var staged := StoredAll(t.columns, d.columns, d.rows);
    forall i | 0 <= i < |t.rows|
        ensures Overwritten(t.rows[i], staged, d.columns, key) == Overwritten(t.rows[i], d.rows, d.columns, key) {
      StagedOverwritesAlike(t.columns, d.columns, t.rows[i], d.rows, key);
    }
    assert OverwrittenAll(t.rows, staged, d.columns, key) == OverwrittenAll(t.rows, d.rows, d.columns, key);
    StagedUnmatchedAlike(t.columns, d.columns, t.rows, d.rows, key);
    StagedRowsStoreAlike(t.columns, d.columns, Unmatched(t.rows, d.rows, key));
    if Keyed(d.rows, key) {
      forall i | 0 <= i < |staged|
        ensures KeyOf(staged[i], key) == KeyOf(d.rows[i], key) && forall c | c in key :: At(staged[i], c) != Null
      {
        StoredKeepsKey(t.columns, d.columns, d.rows[i], key);
        assert d.rows[i] in d.rows;
      }
    }
  }

  /** Unless it refuses ambiguous rows, Trino's MERGE overwrites and adds what the pure upsert does. */
  lemma MergeIsOverride(t: Table, d: Data, key: seq<string>)
    ensures var merged := TrinoMerge(t.columns, t.rows, d.rows, d.columns, key);
            && (merged.Some? ==> merged.value == Override(t, d, key).rows)
            && (merged.None? ==> Ambiguous(t.rows, d.rows, key))
  {
    forall i | 0 <= i < |t.rows|
      ensures Overwritten(t.rows[i], d.rows, d.columns, key) == MergedRow(t.rows[i], d.rows, d.columns, key)
      ensures Outside(d.columns, key) == [] ==> Overwritten(t.rows[i], d.rows, d.columns, key) == t.rows[i]
    {
      MergedIsFirst(t.rows[i], d.rows, d.columns, key);
      if Outside(d.columns, key) == [] {
        KeyOnlyKeepsRow(t.rows[i], d.rows, d.columns, key);
      }
    }
    var kept := OverwrittenAll(t.rows, d.rows, d.columns, key);
    assert kept == MergedAll(t.rows, d.rows, d.columns, key);
    assert Outside(d.columns, key) == [] ==> kept == t.rows;
  }

  lemma StagedMerge(t: Table, d: Data, key: seq<string>)
    requires ColumnSet(key) <= ColumnSet(d.columns) <= Names(t.columns)
    ensures var merged := TrinoMerge(t.columns, t.rows, StoredAll(t.columns, d.columns, d.rows), d.columns, key);
            merged.Some? ==> t.(rows := merged.value) == Override(t, d, key)
  {
    var staged := Data(d.columns, StoredAll(t.columns, d.columns, d.rows));
    StagedOverrideAlike(t, d, key);
    MergeIsOverride(t, staged, key);
  }

  /** What the final statement does once the stage is full, if it does anything. */
  lemma StagedFinal(form: Form, before: Tables, target: string, d: Data, stage: string, final: Stmt)
    requires target in before && stage !in before && FinalOf(final, target, stage, d)
    requires Accepts(before[target].columns, d.columns, d.rows)
    ensures var full := before[stage := Replaced(before[target], d)];
            var effect := Effect(form, final, full);
            effect.Some? ==> effect.value == full[target := Promised(final, before[target], d)]
  {
    var t := before[target];
    if final.Merge? {
      StagedMerge(t, d, final.key);
    } else {
      StagedRowsStoreAlike(t.columns, d.columns, d.rows);
    }
  }

  /** After a full stage, the one statement that writes the target takes effect entirely or not at all. */
  lemma FinalIsAllOrNothing(h0: seq<Event>, before: Tables, h1: seq<Event>, now: Tables,
                            target: string, d: Data, stage: string, final: Stmt, returned: bool)
    requires target in before && stage !in before && FinalOf(final, target, stage, d)
    requires h0 < h1 && OnlyTouched(h1, |h0|, before, {stage}) && Untouched(h1, |h0|, target, before[target])
    requires AllReturned(h1, |h0|)
    requires var full := before[stage := Replaced(before[target], d)];
             now == full || now == full[target := Promised(final, before[target], d)]
    ensures WriteRun(h0, before, h1 + [Event(final, returned, now)], now, target, d, stage, final, returned)
  {
    var h2 := h1 + [Event(final, returned, now)];
    assert forall i | |h0| <= i < |h1| :: h2[i] == h1[i];
    assert h2[|h1|] == Event(final, returned, now);
  }

  /** How far staging got: the stage was created; every row is in it. */
  datatype Staged = Staged(created: bool, filled: bool)

  /** Everything staging promises. */
  ghost predicate StageRun(h: seq<Event>, before: Tables, h': seq<Event>, now: Tables, target: string, d: Data,
                           stage: string, staged: Staged)
  {
    && h < h' && h'[|h'| - 1].after == now
    && OnlyTouched(h', |h|, before, {stage}) && NoneDropped(h', |h|)
    && (target in before ==> Untouched(h', |h|, target, before[target]))
    && (target !in before ==> now == before)
    && Staging(h', |h|, |h'|, target, stage)
    && (staged.created ==> target in before)
    && (staged.created <==> CreateReturned(h', |h|, |h'|))
    && (!staged.created && stage in now ==> StageRaised(h', |h|, stage))
    && (staged.filled ==> staged.created && AcceptedUpTo(before[target], d, |d.rows|)
                          && now == before[stage := Replaced(before[target], d)])
    && (staged.filled <==> AllReturned(h', |h|)) && (staged.filled <==> h'[|h'| - 1].returned)
  }

  /** A created stage, and then its rows. */
  lemma FilledToo(h: seq<Event>, before: Tables, h1: seq<Event>, mid: Tables, h2: seq<Event>, now: Tables,
                  target: string, d: Data, stage: string, inserted: bool)
    requires h < h1 < h2 && |h1| == |h| + 2 && h2[|h2| - 1].after == now
    requires target in before && stage !in before && mid == before[stage := before[target].(key := [], rows := [])]
    requires OnlyTouched(h1, |h|, before, {stage})
    requires Staging(h1, |h|, |h1|, target, stage) && CreateReturned(h1, |h|, |h1|)
    requires OnlyInserts(h2, |h1|, mid, stage) && StoppedAtOnce(h2, |h1|) && (inserted <==> AllReturned(h2, |h1|))
    requires inserted ==> now == mid[stage := Appended(mid[stage], d)] && AcceptedUpTo(mid[stage], d, |d.rows|)
    ensures StageRun(h, before, h2, now, target, d, stage, Staged(true, inserted))
  {
    FillingIsStaging(h1, |h|, h2, before, mid, target, stage);
    StagedIsReplaced(before[target], d);
  }

  /** Everything the body of a load's `try` promises: besides the run, the order of its statements up to the
      clean-up, and where they left the target. */
  ghost predicate TryRun(h: seq<Event>, before: Tables, h': seq<Event>, now: Tables, target: string, d: Data,
                         stage: string, old_: string, returned: bool, stageRef: Option<string>, a: nat)
  {
    && LoadRun(h, before, h', now, target, d, stage, old_)
    && (stageRef.Some? ==> stageRef.value == stage && target in before && !returned)
    && (stageRef.None? && stage in now ==> StageRaised(h', |h|, stage))
    && (returned ==> target in before && now == before[target := Replaced(before[target], d)])
    && (returned <==> AllReturned(h', |h|))
    && (target in before && !AcceptedUpTo(before[target], d, |d.rows|) ==>
          !returned && Untouched(h', |h|, target, before[target]))
    && Staging(h', |h|, a, target, stage)
    && (if h'[a - 1].returned then Swapping(h', a, |h'|, target, stage, old_) else a == |h'|)
    && (stageRef.Some? <==> CreateReturned(h', |h|, a) && !(|h'| == a + 3 && h'[a + 1].returned))
    && (target in before ==> SwapLeft(h', a, |h'|, now, target, before[target], Replaced(before[target], d)))
  }

  lemma OnlyStaged(h: seq<Event>, before: Tables, h1: seq<Event>, mid: Tables, target: string, d: Data,
                   stage: string, old_: string, staged: Staged)
    requires StageRun(h, before, h1, mid, target, d, stage, staged) && !staged.filled
    ensures TryRun(h, before, h1, mid, target, d, stage, old_, false, if staged.created
        then Some(stage) else None, |h1|)
  {
    if target in before {
      UntouchedIsNotLost(h1, |h|, target, old_, before[target], Replaced(before[target], d));
      NotSwapped(h1, |h|, mid, target, before[target], Replaced(before[target], d));
    }
  }

  /** Everything the swap promises. */
  ghost predicate SwapRun(h: seq<Event>, before: Tables, h': seq<Event>, now: Tables, target: string, stage: string,
                          old_: string, returned: bool, swapped: bool)
    requires target in before && stage in before
  {
    && h < h' && h'[|h'| - 1].after == now
    && OnlyTouched(h', |h|, before, {target, stage, old_})
    && NeverLost(h', |h|, target, old_, before[target], before[stage])
    && (swapped ==> stage !in now)
    && (returned ==> swapped && now == (before - {stage})[target := before[stage]])
    && (target !in now ==> RenameRaised(h', |h|, target, old_))
    && (returned <==> AllReturned(h', |h|))
    && Swapping(h', |h|, |h'|, target, stage, old_)
    && (swapped <==> |h'| == |h| + 3 && h'[|h| + 1].returned)
    && SwapLeft(h', |h|, |h'|, now, target, before[target], before[stage])
  }

  lemma SwapIsLoadRun(h: seq<Event>, before: Tables, h1: seq<Event>, mid: Tables, h2: seq<Event>, now: Tables,
                      target: string, d: Data, stage: string, old_: string, returned: bool, swapped: bool)
    requires StageRun(h, before, h1, mid, target, d, stage, Staged(true, true))
    requires stage !in before && old_ !in before && stage != old_
    requires SwapRun(h1, mid, h2, now, target, stage, old_, returned, swapped)
    ensures LoadRun(h, before, h2, now, target, d, stage, old_)
  {
    assert forall i | 0 <= i < |h1| :: h2[i] == h1[i];
    assert mid[target] == before[target] && mid[stage] == Replaced(before[target], d);
    UntouchedIsNotLost(h1, |h|, target, old_, before[target], Replaced(before[target], d));
    TouchedLater(h2, |h|, |h1|, before, mid, {stage}, {target, stage, old_});
  }

  lemma SwappedToo(h: seq<Event>, before: Tables, h1: seq<Event>, mid: Tables, h2: seq<Event>, now: Tables,
                   target: string, d: Data, stage: string, old_: string, returned: bool, swapped: bool)
    requires StageRun(h, before, h1, mid, target, d, stage, Staged(true, true))
    requires stage !in before && old_ !in before && stage != old_
    requires SwapRun(h1, mid, h2, now, target, stage, old_, returned, swapped)
    ensures TryRun(h, before, h2, now, target, d, stage, old_, returned, if swapped then None else Some(stage), |h1|)
  {
    SwapIsLoadRun(h, before, h1, mid, h2, now, target, d, stage, old_, returned, swapped);
    SwapFollows(h1, |h|, h2, target, stage);
    SwappedTables(before, mid, target, stage, Replaced(before[target], d));
  }

  lemma SwappedTables(before: Tables, mid: Tables, target: string, stage: string, next: Table)
    requires target in before && stage !in before && mid == before[stage := next]
    ensures mid[target] == before[target] && mid[stage] == next
    ensures (mid - {stage})[target := mid[stage]] == before[target := next]
  {
  }

  /** Everything a load promises: the catalogs it passes through, the order of its statements, where they leave
      the target, and what its return tells. */
  ghost predicate LoadDone(h: seq<Event>, before: Tables, h': seq<Event>, now: Tables, target: string, d: Data,
                           stage: string, old_: string, returned: bool)
  {
    && LoadRun(h, before, h', now, target, d, stage, old_)
    && (exists a, b :: LoadSteps(h', |h|, a, b, target, stage, old_))
    && (target in before ==> EndsExactly(h, before, h', now, target, Replaced(before[target], d), stage, old_))
    && (stage in now ==> StageRaised(h', |h|, stage))
    && (returned ==> target in before && now == before[target := Replaced(before[target], d)])
    && (returned <==> AllReturned(h', |h|))
    && (target in before && !AcceptedUpTo(before[target], d, |d.rows|) ==>
          !returned && Untouched(h', |h|, target, before[target]))
  }

  lemma TryHasSteps(h: seq<Event>, before: Tables, h1: seq<Event>, mid: Tables, h2: seq<Event>, now: Tables,
                    target: string, d: Data, stage: string, old_: string,
                        returned: bool, stageRef: Option<string>, a: nat)
    requires TryRun(h, before, h1, mid, target, d, stage, old_, returned, stageRef, a)
    requires CleanedUp(h1, mid, h2, now, stage, stageRef)
    requires stage !in before && old_ !in before && stage != old_
    ensures LoadSteps(h2, |h|, a, |h1|, target, stage, old_)
    ensures target in before ==> EndsExactly(h, before, h2, now, target, Replaced(before[target], d), stage, old_)
  {
    if stageRef.Some? {
      CleanupKeepsSteps(h, h1, a, h2, target, stage, old_);
    }
    if target in before {
      assert SwapLeft(h2, a, |h1|, now, target, before[target], Replaced(before[target], d));
      LeftIff(h2, |h|, a, |h1|, now, target, stage, old_, before[target], Replaced(before[target], d));
    }
  }

  /** What the `finally` adds: an attempt to drop the stage, if it is still there. */
  ghost predicate CleanedUp(h1: seq<Event>, mid: Tables, h2: seq<Event>, now: Tables, stage: string,
                            stageRef: Option<string>)
  {
    if stageRef.None? then h2 == h1 && now == mid
    else && h1 < h2 && |h2| == |h1| + 1 && h2[|h1|].stmt == Drop(stage) && h2[|h1|].after == now
         && (now == mid || now == mid - {stage}) && (stage in now ==> !h2[|h1|].returned)
  }

  /** A finished `try` and its clean-up are a load. */
  lemma TryIsLoad(h: seq<Event>, before: Tables, h1: seq<Event>, mid: Tables, h2: seq<Event>, now: Tables,
                  target: string, d: Data, stage: string, old_: string, returned: bool,
                      stageRef: Option<string>, a: nat)
    requires TryRun(h, before, h1, mid, target, d, stage, old_, returned, stageRef, a)
    requires CleanedUp(h1, mid, h2, now, stage, stageRef)
    requires stage !in before && old_ !in before && stage != old_
    ensures LoadDone(h, before, h2, now, target, d, stage, old_, returned)
  {
    TryHasSteps(h, before, h1, mid, h2, now, target, d, stage, old_, returned, stageRef, a);
    if stageRef.Some? {
      CleanupIsSafe(h, before, h1, mid, h2, now, target, d, stage, old_);
      CleanupKeepsRest(h, before, h1, mid, h2, now, target, d, stage);
    }
  }

  lemma CleanupKeepsRest(h: seq<Event>, before: Tables, h1: seq<Event>, mid: Tables, h2: seq<Event>, now: Tables,
                         target: string, d: Data, stage: string)
    requires h < h1 && CleanedUp(h1, mid, h2, now, stage, Some(stage)) && h1[|h1| - 1].after == mid
    requires target in before && target != stage && !AllReturned(h1, |h|)
    ensures stage in now ==> StageRaised(h2, |h|, stage)
    ensures !AllReturned(h2, |h|)
    ensures Untouched(h1, |h|, target, before[target]) ==> Untouched(h2, |h|, target, before[target])
  {
    assert forall i | 0 <= i < |h1| :: h2[i] == h1[i];
    var i :| |h| <= i < |h1| && !h1[i].returned;
    assert !h2[i].returned;
    assert h2[|h1|].stmt == Drop(stage);
  }

  /** Everything a load promises about the catalogs it passes through, however it ends. */
  ghost predicate LoadRun(h: seq<Event>, before: Tables, h': seq<Event>, now: Tables,
                          target: string, d: Data, stage: string, old_: string)
  {
    && h < h' && h'[|h'| - 1].after == now
    && OnlyTouched(h', |h|, before, {target, stage, old_})
    && (target !in before ==> now == before)
    && (target in before ==> NeverLost(h', |h|, target, old_, before[target], Replaced(before[target], d)))
    && (target in before && target !in now ==> RenameRaised(h', |h|, target, old_))
  }

  /** Dropping the stage at the end changes neither the steps before it nor where the target is. */
  lemma CleanupKeepsSteps(h0: seq<Event>, h1: seq<Event>, a: nat, h2: seq<Event>,
                          target: string, stage: string, old_: string)
    requires h1 < h2 && |h2| == |h1| + 1 && h2[|h1|].stmt == Drop(stage)
    requires Staging(h1, |h0|, a, target, stage) && CreateReturned(h1, |h0|, a)
    requires if h1[a - 1].returned then Swapping(h1, a, |h1|, target, stage, old_) else a == |h1|
    requires !(|h1| == a + 3 && h1[a + 1].returned)
    ensures LoadSteps(h2, |h0|, a, |h1|, target, stage, old_)
    ensures forall i | 0 <= i < |h1| :: h2[i] == h1[i]
  {
    assert forall i | 0 <= i < |h1| :: h2[i] == h1[i];
  }

  /** Dropping the stage afterwards, or failing to, keeps those promises. */
  lemma CleanupIsSafe(h: seq<Event>, before: Tables, h1: seq<Event>, t1: Tables, h2: seq<Event>, t2: Tables,
                      target: string, d: Data, stage: string, old_: string)
    requires LoadRun(h, before, h1, t1, target, d, stage, old_)
    requires target in before && stage !in before && stage != old_
    requires h1 < h2 && |h2| == |h1| + 1 && h2[|h1|].after == t2 && (t2 == t1 || t2 == t1 - {stage})
    ensures LoadRun(h, before, h2, t2, target, d, stage, old_)
    ensures AllReturned(h2, |h|) ==> AllReturned(h1, |h|)
  {
    assert h1[|h1| - 1].after == t1;
    forall i | |h| <= i < |h2| ensures i < |h1| ==> h2[i] == h1[i] {
    }
    assert SameExcept(before, t1, {target, stage, old_});
    assert NothingLost(t1, target, old_, before[target], Replaced(before[target], d));
    if target !in t1 {
      var i :| |h| <= i < |h1| && !h1[i].returned
          && (h1[i].stmt == Rename(target, old_) || h1[i].stmt == Rename(old_, target));
      assert h2[i] == h1[i];
    }
  }

  lemma UntouchedIsNotLost(h: seq<Event>, from: nat, target: string, old_: string, prior: Table, next: Table)
    requires Untouched(h, from, target, prior)
    ensures NeverLost(h, from, target, old_, prior, next)
  {
  }

  /** What happens after the catalog is `later` still touches only `wide` names. */
  lemma TouchedLater(h: seq<Event>, from: nat, mid: nat, before: Tables, later: Tables, narrow: set<string>,
                     wide: set<string>)
    requires from <= mid <= |h| && narrow <= wide && SameExcept(before, later, narrow)
    requires OnlyTouched(h[..mid], from, before, narrow) && OnlyTouched(h, mid, later, wide)
    ensures OnlyTouched(h, from, before, wide)
  {
    assert forall i | from <= i < mid :: h[..mid][i] == h[i];
  }

  // --- how a name can go missing ------------------------------------------

  /** What running one statement allows: its effect or nothing, and a return only with the effect. */
  ghost predicate Allowed(form: Form, before: Tables, e: Event) {
    && (e.after == before || Effect(form, e.stmt, before) == Some(e.after))
    && (e.returned ==> Effect(form, e.stmt, before) == Some(e.after))
  }

  ghost predicate AllowedRun(form: Form, before: Tables, run: seq<Event>) {
    forall i | 0 <= i < |run| :: Allowed(form, if i == 0 then before else run[i - 1].after, run[i])
  }

  /** A load of no rows whose first rename takes effect and then raises: the stage is dropped, the load fails,
      and the target's name is gone, its rows intact under the private old name. */
  lemma NameCanGoMissing(form: Form, before: Tables, target: string, stage: string, old_: string)
      returns (run: seq<Event>)
    requires target in before && stage !in before && old_ !in before && stage != old_
    ensures AllowedRun(form, before, run) && LoadSteps(run, 0, 2, 3, target, stage, old_)
    ensures NameLost(run, 0, target, stage, old_) && !AllReturned(run, 0)
    ensures run[|run| - 1].after == (before - {target})[old_ := before[target]]
  {
    var t := before[target];
    var staged := before[stage := t.(key := [], rows := [])];
    var renamed := (staged - {target})[old_ := t];
    var left := renamed - {stage};
    run := [Event(Locate(target), true, before), Event(CreateLike(stage, target), true, staged),
            Event(Rename(target, old_), false, renamed), Event(Drop(stage), true, left)];
    assert Effect(form, CreateLike(stage, target), before) == Some(staged);
    assert Effect(form, Rename(target, old_), staged) == Some(renamed);
    assert Effect(form, Drop(stage), renamed) == Some(left);
    assert Allowed(form, before, run[0]) && Allowed(form, before, run[1]);
    assert Allowed(form, staged, run[2]) && Allowed(form, renamed, run[3]);
    assert left == (before - {target})[old_ := t];
    assert run[2].stmt == Rename(target, old_) && !run[2].returned;
  }

  /** One whose swap is complete but whose last drop raises without effect: the load fails, and the target is
      the new table. */
  lemma FailedLoadCanHaveSwapped(form: Form, before: Tables, target: string, stage: string, old_: string)
      returns (run: seq<Event>)
    requires target in before && stage !in before && old_ !in before && stage != old_
    ensures AllowedRun(form, before, run) && LoadSteps(run, 0, 2, 5, target, stage, old_)
    ensures SwappedIn(run, 0, target, stage) && !AllReturned(run, 0)
    ensures var now := run[|run| - 1].after;
            target in now && now[target] == before[target].(key := [], rows := [])
  {
    var t := before[target];
    var staged := before[stage := t.(key := [], rows := [])];
    var away := (staged - {target})[old_ := t];
    var swapped := (away - {stage})[target := staged[stage]];
    run := [Event(Locate(target), true, before), Event(CreateLike(stage, target), true, staged),
            Event(Rename(target, old_), true, away), Event(Rename(stage, target), true, swapped),
            Event(Drop(old_), false, swapped)];
    assert Effect(form, CreateLike(stage, target), before) == Some(staged);
    assert Effect(form, Rename(target, old_), staged) == Some(away);
    assert Effect(form, Rename(stage, target), away) == Some(swapped);
    assert Allowed(form, before, run[0]) && Allowed(form, before, run[1]) && Allowed(form, staged, run[2]);
    assert Allowed(form, away, run[3]) && Allowed(form, swapped, run[4]);
    assert run[3].stmt == Rename(stage, target) && !run[4].returned;
  }

  /** The rename that takes the target's name away, or the one that would give it back, raised. */
  ghost predicate RenameRaised(history: seq<Event>, from: nat, target: string, old_: string) {
    exists i | from <= i < |history| ::
      !history[i].returned && (history[i].stmt == Rename(target, old_) || history[i].stmt == Rename(old_, target))
  }

  /** Creating or dropping the stage raised: the only ways a stage is left behind. */
  ghost predicate StageRaised(history: seq<Event>, from: nat, stage: string) {
    exists i | from <= i < |history| ::
      !history[i].returned && (history[i].stmt.CreateLike? || history[i].stmt == Drop(stage))
  }

  ghost predicate NoneDropped(history: seq<Event>, from: nat) {
    forall i | from <= i < |history| :: !history[i].stmt.Drop? && !history[i].stmt.Rename?
  }

  /** Replacing a table leaves exactly the data. */
  lemma ReplacedRefills(before: Tables, target: string, form: Form, d: Data)
    requires target in before && d.Valid()
    ensures Refilled(before, before[target := Replaced(before[target], Formed(form, d))], target, form, d)
  {
    StoredHold(before[target].columns, form, d);
  }

  /** A stage filled with all of the data is the table the load promises. */
  lemma StagedIsReplaced(t: Table, d: Data)
    ensures Appended(t.(key := [], rows := []), d) == Replaced(t, d)
    ensures d.rows == [] ==> t.(key := [], rows := []) == Replaced(t, d)
  {
    assert [] + StoredAll(t.columns, d.columns, d.rows) == StoredAll(t.columns, d.columns, d.rows);
  }

  /** The first `n` rows of `d`, if any, would all be accepted by `t`. */
  ghost predicate AcceptedUpTo(t: Table, d: Data, n: nat)
    requires n <= |d.rows|
  {
    n == 0 || Accepts(t.columns, d.columns, d.rows[..n])
  }

  lemma NothingAppended(t: Table, d: Data)
    ensures Appended(t, Data(d.columns, d.rows[..0])) == t && AcceptedUpTo(t, d, 0)
  {
    assert d.rows[..0] == [];
    AppendedConcat(t, d.columns, [], []);
  }

  lemma BatchGrows(form: Form, t: Table, d: Data, start: nat, end: nat)
    requires d.Valid() && start < end <= |d.rows| && AcceptedUpTo(t, Formed(form, d), start)
    ensures var batch, f := Data(d.columns, d.rows[start..end]), Formed(form, d);
            && batch.Valid()
            && Appended(Appended(t, Data(d.columns, f.rows[..start])), Formed(form, batch))
               == Appended(t, Data(d.columns, f.rows[..end]))
            && (Accepts(t.columns, d.columns, FormAll(form, batch.rows)) ==> AcceptedUpTo(t, f, end))
  {
    var f := FormAll(form, d.rows);
    assert FormAll(form, d.rows[start..end]) == f[start..end];
    assert f[..end] == f[..start] + f[start..end];
    AppendedConcat(t, d.columns, f[..start], f[start..end]);
    if start == 0 {
      assert f[..end] == f[start..end];
    }
  }

  lemma PrivateNamesDiffer(token: string)
    ensures STAGE_PREFIX + token != OLD_PREFIX + token
  {
    assert (STAGE_PREFIX + token)[11] == 's' && (OLD_PREFIX + token)[11] == 'o';
  }
}
