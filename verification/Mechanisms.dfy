/** The three statements that carry out an upsert, each with its engine's own semantics. */
module Mechanisms {
  import opened Rows

  /** The columns an upsert overwrites: every named column outside the key. */
  function Outside(named: seq<string>, key: seq<string>): seq<string> {
    if named == [] then []
    else (if named[0] in key then [] else [named[0]]) + Outside(named[1..], key)
  }

  lemma {:induction false} OutsideIs(named: seq<string>, key: seq<string>)
    ensures forall c :: c in Outside(named, key) <==> c in named && c !in key
  {
    if named != [] {
      OutsideIs(named[1..], key);
      assert named == [named[0]] + named[1..];
    }
  }

  /** `SET c = source.c` for every column of `updates`. */
  function Assign(t: Row, s: Row, updates: seq<string>): Row {
    map c | c in t :: if c in updates then At(s, c) else t[c]
  }

  lemma AssignIsUpdated(t: Row, s: Row, named: seq<string>, key: seq<string>)
    ensures Assign(t, s, Outside(named, key)) == Updated(t, s, named, key)
  {
    OutsideIs(named, key);
  }

  function FirstMatch(rows: seq<Row>, s: Row, key: seq<string>): (r: Option<nat>)
    ensures r.Some? ==> r.value < |rows| && Matches(rows[r.value], s, key)
    ensures r.None? <==> !HasMatch(rows, s, key)
  {
    if rows == [] then None
    else if Matches(rows[0], s, key) then Some(0)
    else match FirstMatch(rows[1..], s, key)
      case None => None
      case Some(i) => Some(i + 1)
  }

  // --- Postgres: INSERT ... ON CONFLICT, row by row, page by page ---------

  /** One `ON CONFLICT` statement. `touched` holds the rows it has inserted or updated so far:
      Postgres refuses to let one statement update such a row again. */
  function OnConflict(columns: seq<LiveColumn>, rows: seq<Row>, touched: set<nat>, page: seq<Row>,
                      named: seq<string>, key: seq<string>): Option<seq<Row>>
    decreases |page|
  {
    if page == [] then Some(rows)
    else
      var updates := Outside(named, key);
      match FirstMatch(rows, page[0], key)
      case None =>
        OnConflict(columns, rows + [Stored(columns, named, page[0])], touched + {|rows|}, page[1..], named, key)
      case Some(i) =>
        if updates == [] then OnConflict(columns, rows, touched, page[1..], named, key)
        else if i in touched then None
        else OnConflict(columns, rows[i := Assign(rows[i], page[0], updates)], touched + {i}, page[1..], named, key)
  }

  /** The statements of one upsert: `size` rows each, left to right; the first failure ends it. */
  function Pages(columns: seq<LiveColumn>, rows: seq<Row>, ss: seq<Row>, size: nat,
                 named: seq<string>, key: seq<string>): Option<seq<Row>>
    requires size > 0
    decreases |ss|
  {
    if ss == [] then Some(rows)
    else
      var n := if |ss| < size then |ss| else size;
      match OnConflict(columns, rows, {}, ss[..n], named, key)
      case None => None
      case Some(after) => Pages(columns, after, ss[n..], size, named, key)
  }

  // --- Trino and DuckDB: MERGE --------------------------------------------

  /** Trino refuses a MERGE that would update one row from two source rows. */
  predicate Ambiguous(rows: seq<Row>, ss: seq<Row>, key: seq<string>) {
    exists i, j, k | 0 <= i < |rows| && 0 <= j < k < |ss| ::
      Matches(rows[i], ss[j], key) && Matches(rows[i], ss[k], key)
  }

  /** The WHEN MATCHED branch when at most one source row matches. */
  function MergedRow(t: Row, ss: seq<Row>, named: seq<string>, key: seq<string>): Row {
    match FirstMatch(ss, t, key)
    case None => t
    case Some(j) => if Matches(t, ss[j], key) then Assign(t, ss[j], Outside(named, key)) else t
  }

  function TrinoMerge(columns: seq<LiveColumn>, rows: seq<Row>, ss: seq<Row>,
                      named: seq<string>, key: seq<string>): Option<seq<Row>>
  {
    var added := StoredAll(columns, named, Unmatched(rows, ss, key));
    if Outside(named, key) == [] then Some(rows + added)
    else if Ambiguous(rows, ss, key) then None
    else Some(MergedAll(rows, ss, named, key) + added)
  }

  function MergedAll(rows: seq<Row>, ss: seq<Row>, named: seq<string>, key: seq<string>): seq<Row> {
    seq(|rows|, i requires 0 <= i < |rows| => MergedRow(rows[i], ss, named, key))
  }

  /** DuckLake's WHEN MATCHED branch keeps the last of several matching source rows. */
  function LastMerged(t: Row, ss: seq<Row>, named: seq<string>, key: seq<string>): Row {
    if ss == [] then t
    else if Matches(t, ss[|ss| - 1], key) then Assign(t, ss[|ss| - 1], Outside(named, key))
    else LastMerged(t, ss[..|ss| - 1], named, key)
  }

  function DuckMerge(columns: seq<LiveColumn>, rows: seq<Row>, ss: seq<Row>,
                     named: seq<string>, key: seq<string>): seq<Row>
  {
    var added := StoredAll(columns, named, Unmatched(rows, ss, key));
    if Outside(named, key) == [] then rows + added
    else seq(|rows|, i requires 0 <= i < |rows| => LastMerged(rows[i], ss, named, key)) + added
  }

  // --- one row at a time --------------------------------------------------

  /** What one data row does to the table. */
  function Step(columns: seq<LiveColumn>, rows: seq<Row>, s: Row, named: seq<string>, key: seq<string>): seq<Row> {
    match FirstMatch(rows, s, key)
    case None => rows + [Stored(columns, named, s)]
    case Some(i) => rows[i := Updated(rows[i], s, named, key)]
  }

  function Fold(columns: seq<LiveColumn>, rows: seq<Row>, ss: seq<Row>, named: seq<string>,
                key: seq<string>): seq<Row> {
    if ss == [] then rows
    else Step(columns, Fold(columns, rows, ss[..|ss| - 1], named, key), ss[|ss| - 1], named, key)
  }

  lemma {:induction false} FoldConcat(columns: seq<LiveColumn>, rows: seq<Row>, a: seq<Row>, b: seq<Row>,
                                      named: seq<string>, key: seq<string>)
    ensures Fold(columns, rows, a + b, named, key) == Fold(columns, Fold(columns, rows, a, named, key), b, named, key)
  {
    if b == [] {
      assert a + b == a;
    } else {
      assert (a + b)[..|a + b| - 1] == a + b[..|b| - 1];
      FoldConcat(columns, rows, a, b[..|b| - 1], named, key);
    }
  }

  lemma {:induction false} OverwrittenSnoc(t: Row, ss: seq<Row>, s: Row, named: seq<string>, key: seq<string>)
    ensures Overwritten(t, ss + [s], named, key)
            == if (exists x | x in ss :: Matches(t, x, key)) then Overwritten(t, ss, named, key)
               else if Matches(t, s, key) then Updated(t, s, named, key) else t
  {
    if ss == [] {
      assert (ss + [s])[1..] == [];
    } else {
      assert (ss + [s])[1..] == ss[1..] + [s];
      OverwrittenSnoc(t, ss[1..], s, named, key);
      assert ss == [ss[0]] + ss[1..];
      if forall x | x in ss[1..] :: !Matches(t, x, key) {
        UnmatchedUntouched(t, ss[1..], named, key);
      }
    }
  }

  lemma {:induction false} UnmatchedSnoc(rows: seq<Row>, ss: seq<Row>, s: Row, key: seq<string>)
    ensures Unmatched(rows, ss + [s], key) == Unmatched(rows, ss, key) + if HasMatch(rows, s, key) then [] else [s]
  {
    if ss == [] {
      assert (ss + [s])[1..] == [];
    } else {
      assert (ss + [s])[1..] == ss[1..] + [s];
      UnmatchedSnoc(rows, ss[1..], s, key);
    }
  }

  /** The situation every refinement proof below is in. */
  ghost predicate Ready(t: Table, named: seq<string>, ss: seq<Row>, key: seq<string>) {
    && ColumnSet(key) <= ColumnSet(named) <= Names(t.columns)
    && Keyed(t.rows, key) && Keyed(ss, key)
  }

  lemma ReadyPrefix(t: Table, named: seq<string>, a: seq<Row>, b: seq<Row>, key: seq<string>)
    requires Ready(t, named, a + b, key)
    ensures Ready(t, named, a, key) && Ready(t, named, b, key)
  {
    assert forall x | x in a || x in b :: x in a + b;
    assert forall i | 0 <= i < |a| :: (a + b)[i] == a[i];
    assert forall i | 0 <= i < |b| :: (a + b)[|a| + i] == b[i];
  }

  /** With distinct keys, a key has at most one row: where Step acts is settled. */
  lemma MatchIsUnique(rows: seq<Row>, s: Row, i: nat, key: seq<string>)
    requires UniqueKeys(rows, key) && i < |rows| && Matches(rows[i], s, key)
    ensures FirstMatch(rows, s, key) == Some(i)
  {
    var r := FirstMatch(rows, s, key);
    assert rows[i] in rows;
    forall c | c in key ensures At(s, c) != Null {
      assert At(rows[i], c) != Null;
    }
    MatchesIsSameKey(rows[i], s, key);
    MatchesIsSameKey(rows[r.value], s, key);
  }

  /** What one more data row does to row `i` of the old table. */
  lemma SnocKept(t: Table, named: seq<string>, ss: seq<Row>, s: Row, key: seq<string>, i: nat)
    requires Ready(t, named, ss + [s], key) && i < |t.rows|
    ensures var r, r' := Override(t, Data(named, ss), key).rows[i], Override(t, Data(named, ss + [s]), key).rows[i];
            && (Matches(r, s, key) <==> Matches(t.rows[i], s, key))
            && r' == if Matches(t.rows[i], s, key) then Updated(r, s, named, key) else r
  {
    var row := t.rows[i];
    KeptKey(t, Data(named, ss), key, i);
    OverwrittenSnoc(row, ss, s, named, key);
    ReadyPrefix(t, named, ss, [s], key);
    assert s in [s] && s in ss + [s];
    MatchesIsSameKey(row, s, key);
    if Matches(row, s, key) {
      forall x | x in ss ensures !Matches(row, x, key) {
        MatchesIsSameKey(row, x, key);
        RepeatsNone(ss, s, key, x);
      }
      UnmatchedUntouched(row, ss, named, key);
    } else if forall x | x in ss :: !Matches(row, x, key) {
      UnmatchedUntouched(row, ss, named, key);
    }
  }

  lemma RepeatsNone(ss: seq<Row>, s: Row, key: seq<string>, x: Row)
    requires UniqueKeys(ss + [s], key) && x in ss
    ensures KeyOf(x, key) != KeyOf(s, key)
  {
    var i :| 0 <= i < |ss| && ss[i] == x;
    assert (ss + [s])[i] == x && (ss + [s])[|ss|] == s;
  }

  /** Rows the upsert added never match a later data row. */
  lemma SnocAdded(t: Table, named: seq<string>, ss: seq<Row>, s: Row, key: seq<string>, i: nat)
    requires Ready(t, named, ss + [s], key)
    requires |t.rows| <= i < |Override(t, Data(named, ss), key).rows|
    ensures !Matches(Override(t, Data(named, ss), key).rows[i], s, key)
  {
    var x := AddedRow(t, Data(named, ss), key, i);
    RepeatsNone(ss, s, key, x);
    assert s in ss + [s];
    MatchesIsSameKey(Override(t, Data(named, ss), key).rows[i], s, key);
  }

  lemma StepPointwise(columns: seq<LiveColumn>, r: seq<Row>, r': seq<Row>, s: Row, named: seq<string>, key: seq<string>)
    requires UniqueKeys(r, key)
    requires |r'| == |r| + (if HasMatch(r, s, key) then 0 else 1)
    requires forall i | 0 <= i < |r| :: r'[i] == if Matches(r[i], s, key) then Updated(r[i], s, named, key) else r[i]
    requires !HasMatch(r, s, key) ==> r'[|r|] == Stored(columns, named, s)
    ensures r' == Step(columns, r, s, named, key)
  {
    match FirstMatch(r, s, key)
    case None =>
      assert forall i | 0 <= i < |r| :: r[i] in r;
    case Some(m) =>
      forall i | 0 <= i < |r| && i != m ensures !Matches(r[i], s, key) {
        if Matches(r[i], s, key) {
          MatchIsUnique(r, s, i, key);
        }
      }
  }

  /** The upserted table has a row for `s`'s key iff the old one had. */
  lemma SnocHasMatch(t: Table, named: seq<string>, ss: seq<Row>, s: Row, key: seq<string>)
    requires Ready(t, named, ss + [s], key)
    ensures HasMatch(Override(t, Data(named, ss), key).rows, s, key) <==> HasMatch(t.rows, s, key)
  {
    var r := Override(t, Data(named, ss), key).rows;
    if HasMatch(t.rows, s, key) {
      var i :| 0 <= i < |t.rows| && Matches(t.rows[i], s, key);
      SnocKept(t, named, ss, s, key, i);
      assert r[i] in r;
    }
    if HasMatch(r, s, key) {
      var i :| 0 <= i < |r| && Matches(r[i], s, key);
      if i < |t.rows| {
        SnocKept(t, named, ss, s, key, i);
        assert t.rows[i] in t.rows;
      } else {
        SnocAdded(t, named, ss, s, key, i);
      }
    }
  }

  /** Upserting one more row is one more Step. */
  lemma OverrideSnoc(t: Table, named: seq<string>, ss: seq<Row>, s: Row, key: seq<string>)
    requires Ready(t, named, ss + [s], key)
    ensures Override(t, Data(named, ss + [s]), key).rows
            == Step(t.columns, Override(t, Data(named, ss), key).rows, s, named, key)
  {
    var r, r' := Override(t, Data(named, ss), key).rows, Override(t, Data(named, ss + [s]), key).rows;
    assert UniqueKeys(r, key) by {
      ReadyPrefix(t, named, ss, [s], key);
      OverrideStaysKeyed(t, Data(named, ss), key);
    }
    SnocHasMatch(t, named, ss, s, key);
    UnmatchedSnoc(t.rows, ss, s, key);
    forall i | 0 <= i < |r|
      ensures r'[i] == if Matches(r[i], s, key) then Updated(r[i], s, named, key) else r[i]
    {
      if i < |t.rows| {
        SnocKept(t, named, ss, s, key, i);
      } else {
        SnocAdded(t, named, ss, s, key, i);
      }
    }
    StepPointwise(t.columns, r, r', s, named, key);
  }

  lemma {:induction false} OverrideIsFold(t: Table, named: seq<string>, ss: seq<Row>, key: seq<string>)
    requires Ready(t, named, ss, key)
    ensures Override(t, Data(named, ss), key).rows == Fold(t.columns, t.rows, ss, named, key)
  {
    if ss == [] {
      assert OverwrittenAll(t.rows, ss, named, key) == t.rows;
    } else {
      var init := ss[..|ss| - 1];
      assert ss == init + [ss[|ss| - 1]];
      OverrideIsFold(t, named, init, key);
      OverrideSnoc(t, named, init, ss[|ss| - 1], key);
    }
  }

  // --- Postgres refines Override ------------------------------------------

  ghost predicate HasKey(ss: seq<Row>, k: seq<Value>, key: seq<string>) {
    exists s | s in ss :: KeyOf(s, key) == k
  }

  /** The rows of `rows` that hold a key of `done`. */
  ghost function TouchedBy(rows: seq<Row>, done: seq<Row>, key: seq<string>): set<nat> {
    set i: nat | i < |rows| && HasKey(done, KeyOf(rows[i], key), key)
  }

  /** Where one more data row lands. */
  ghost function Landing(rows: seq<Row>, s: Row, key: seq<string>): nat {
    match FirstMatch(rows, s, key)
    case None => |rows|
    case Some(i) => i
  }

  /** A Step moves no row to another key, and `s`'s key is where it lands. */
  lemma StepKeys(columns: seq<LiveColumn>, r: seq<Row>, s: Row, named: seq<string>, key: seq<string>)
    requires ColumnSet(key) <= ColumnSet(named) <= Names(columns)
    requires NonNullKeys([s], key)
    ensures var r', at := Step(columns, r, s, named, key), Landing(r, s, key);
            && (forall i | 0 <= i < |r| :: KeyOf(r[i], key) == KeyOf(r'[i], key))
            && |r'| == (if at == |r| then |r| + 1 else |r|) && at < |r'| && KeyOf(r'[at], key) == KeyOf(s, key)
  {
    assert s in [s];
    match FirstMatch(r, s, key)
    case None =>
      StoredKeepsKey(columns, named, s, key);
    case Some(i) =>
      OverwrittenKeepsKey(r[i], [s], named, key);
      MatchesIsSameKey(r[i], s, key);
  }

  lemma TouchedSnoc(r: seq<Row>, r': seq<Row>, done: seq<Row>, s: Row, at: nat, key: seq<string>)
    requires |r| <= |r'| <= |r| + 1 && at < |r'| && (|r'| > |r| ==> at == |r|)
    requires UniqueKeys(r', key) && KeyOf(r'[at], key) == KeyOf(s, key)
    requires forall i | 0 <= i < |r| :: KeyOf(r[i], key) == KeyOf(r'[i], key)
    requires !HasKey(done, KeyOf(s, key), key)
    ensures at !in TouchedBy(r, done, key) && TouchedBy(r', done + [s], key) == TouchedBy(r, done, key) + {at}
  {
    forall i | 0 <= i < |r'|
      ensures HasKey(done + [s], KeyOf(r'[i], key), key) <==> i == at || HasKey(done, KeyOf(r'[i], key), key)
    {
      HasKeySnoc(done, s, KeyOf(r'[i], key), key);
      assert i < at ==> KeyOf(r'[i], key) != KeyOf(r'[at], key);
      assert at < i ==> KeyOf(r'[at], key) != KeyOf(r'[i], key);
    }
  }

  /** After one more Step, only `s`'s row is newly touched. */
  lemma StepTouches(t: Table, named: seq<string>, done: seq<Row>, s: Row, key: seq<string>)
    requires Ready(t, named, done + [s], key)
    ensures var r, r' := Fold(t.columns, t.rows, done, named, key), Fold(t.columns, t.rows, done + [s], named, key);
            var at := Landing(r, s, key);
            && r' == Step(t.columns, r, s, named, key)
            && at !in TouchedBy(r, done, key) && TouchedBy(r', done + [s], key) == TouchedBy(r, done, key) + {at}
  {
    var all := done + [s];
    assert all[..|all| - 1] == done && all[|all| - 1] == s;
    var r, r' := Fold(t.columns, t.rows, done, named, key), Fold(t.columns, t.rows, all, named, key);
    assert NonNullKeys([s], key) by {
      ReadyPrefix(t, named, done, [s], key);
    }
    StepKeys(t.columns, r, s, named, key);
    assert UniqueKeys(r', key) by {
      OverrideIsFold(t, named, all, key);
      OverrideStaysKeyed(t, Data(named, all), key);
    }
    assert !HasKey(done, KeyOf(s, key), key) by {
      forall x | x in done ensures KeyOf(x, key) != KeyOf(s, key) {
        RepeatsNone(done, s, key, x);
      }
    }
    TouchedSnoc(r, r', done, s, Landing(r, s, key), key);
  }

  lemma HasKeySnoc(done: seq<Row>, s: Row, k: seq<Value>, key: seq<string>)
    ensures HasKey(done + [s], k, key) <==> HasKey(done, k, key) || KeyOf(s, key) == k
  {
    assert s in done + [s];
    if HasKey(done, k, key) {
      var x :| x in done && KeyOf(x, key) == k;
      assert x in done + [s];
    }
  }

  /** One statement over rows with distinct keys never meets a row it touched. */
  lemma {:induction false} StatementRefines(t: Table, named: seq<string>, done: seq<Row>, rest: seq<Row>,
                                            touched: set<nat>, key: seq<string>)
    requires Ready(t, named, done + rest, key)
    requires touched <= TouchedBy(Fold(t.columns, t.rows, done, named, key), done, key)
    ensures OnConflict(t.columns, Fold(t.columns, t.rows, done, named, key), touched, rest, named, key)
            == Some(Fold(t.columns, t.rows, done + rest, named, key))
    decreases |rest|
  {
    if rest == [] {
      assert done + rest == done;
    } else {
      var s := rest[0];
      assert (done + [s]) + rest[1..] == done + rest;
      ReadyPrefix(t, named, done + [s], rest[1..], key);
      StepTouches(t, named, done, s, key);
      var r := Fold(t.columns, t.rows, done, named, key);
      var touched' := if FirstMatch(r, s, key).Some? && Outside(named, key) == []
          then touched else touched + {Landing(r, s, key)};
      StatementRefines(t, named, done + [s], rest[1..], touched', key);
      StatementStep(t.columns, r, s, named, key);
    }
  }

  /** What one row of a statement does is one Step: with nothing to overwrite, a matched row changes nothing. */
  lemma StatementStep(columns: seq<LiveColumn>, r: seq<Row>, s: Row, named: seq<string>, key: seq<string>)
    ensures match FirstMatch(r, s, key)
            case None => Step(columns, r, s, named, key) == r + [Stored(columns, named, s)]
            case Some(i) =>
              && Step(columns, r, s, named, key) == r[i := Assign(r[i], s, Outside(named, key))]
              && (Outside(named, key) == [] ==> Step(columns, r, s, named, key) == r)
  {
    if FirstMatch(r, s, key).Some? {
      var i := FirstMatch(r, s, key).value;
      AssignIsUpdated(r[i], s, named, key);
      if Outside(named, key) == [] {
        assert Assign(r[i], s, []) == r[i];
        assert r[i := r[i]] == r;
      }
    }
  }

  /** A fresh statement over the next page. */
  lemma PageRefines(t: Table, named: seq<string>, page: seq<Row>, key: seq<string>)
    requires Ready(t, named, page, key)
    ensures OnConflict(t.columns, t.rows, {}, page, named, key) == Some(Fold(t.columns, t.rows, page, named, key))
  {
    assert [] + page == page;
    StatementRefines(t, named, [], page, {}, key);
  }

  /** The table a page leaves is ready for the next page. */
  lemma ReadyAfter(t: Table, named: seq<string>, a: seq<Row>, b: seq<Row>, key: seq<string>) returns (u: Table)
    requires Ready(t, named, a + b, key)
    ensures u == t.(rows := Fold(t.columns, t.rows, a, named, key))
    ensures Ready(t, named, a, key) && Ready(u, named, b, key)
  {
    u := t.(rows := Fold(t.columns, t.rows, a, named, key));
    ReadyPrefix(t, named, a, b, key);
    OverrideIsFold(t, named, a, key);
    OverrideStaysKeyed(t, Data(named, a), key);
  }

  /** Any page size gives the same table. */
  lemma {:induction false} PagesRefine(t: Table, named: seq<string>, ss: seq<Row>, size: nat, key: seq<string>)
    requires size > 0 && Ready(t, named, ss, key)
    ensures Pages(t.columns, t.rows, ss, size, named, key) == Some(Fold(t.columns, t.rows, ss, named, key))
    decreases |ss|
  {
    if ss != [] {
      var n := if |ss| < size then |ss| else size;
      var a, b := ss[..n], ss[n..];
      assert ss == a + b;
      var u := ReadyAfter(t, named, a, b, key);
      PageRefines(t, named, a, key);
      PagesRefine(u, named, b, size, key);
      assert Pages(t.columns, t.rows, ss, size, named, key) == Pages(t.columns, u.rows, b, size, named, key);
      FoldConcat(t.columns, t.rows, a, b, named, key);
    }
  }

  // --- the two MERGEs refine Override -------------------------------------

  lemma {:induction false} LastIsFirst(t: Row, ss: seq<Row>, named: seq<string>, key: seq<string>)
    requires Keyed(ss, key)
    ensures LastMerged(t, ss, named, key) == Overwritten(t, ss, named, key)
  {
    if ss != [] {
      var init, s := ss[..|ss| - 1], ss[|ss| - 1];
      assert ss == init + [s];
      LastIsFirst(t, init, named, key);
      OverwrittenSnoc(t, init, s, named, key);
      AssignIsUpdated(t, s, named, key);
      if Matches(t, s, key) {
        forall x | x in init ensures !Matches(t, x, key) {
          MatchesIsSameKey(t, x, key);
          MatchesIsSameKey(t, s, key);
        }
      } else if forall x | x in init :: !Matches(t, x, key) {
        UnmatchedUntouched(t, init, named, key);
      }
    }
  }

  lemma {:induction false} MergedIsFirst(t: Row, ss: seq<Row>, named: seq<string>, key: seq<string>)
    ensures MergedRow(t, ss, named, key) == Overwritten(t, ss, named, key)
  {
    if ss != [] {
      assert Matches(t, ss[0], key) == Matches(ss[0], t, key);
      AssignIsUpdated(t, ss[0], named, key);
      MergedIsFirst(t, ss[1..], named, key);
    }
  }

  lemma OneMatchEach(t: Table, ss: seq<Row>, key: seq<string>)
    requires Keyed(ss, key)
    ensures !Ambiguous(t.rows, ss, key)
  {
    forall i, j, k | 0 <= i < |t.rows| && 0 <= j < k < |ss| && Matches(t.rows[i], ss[j], key)
      ensures !Matches(t.rows[i], ss[k], key)
    {
      MatchesIsSameKey(t.rows[i], ss[j], key);
      MatchesIsSameKey(t.rows[i], ss[k], key);
    }
  }

  /** A key-only upsert overwrites nothing. */
  lemma {:induction false} KeyOnlyKeepsRow(t: Row, ss: seq<Row>, named: seq<string>, key: seq<string>)
    requires Outside(named, key) == []
    ensures Overwritten(t, ss, named, key) == t
  {
    if ss != [] {
      OutsideIs(named, key);
      KeyOnlyKeepsRow(t, ss[1..], named, key);
    }
  }

  /** DuckDB's MERGE refines Override. */
  lemma DuckMergeRefines(t: Table, d: Data, key: seq<string>)
    requires Keyed(d.rows, key)
    ensures DuckMerge(t.columns, t.rows, d.rows, d.columns, key) == Override(t, d, key).rows
  {
    forall i | 0 <= i < |t.rows|
      ensures Overwritten(t.rows[i], d.rows, d.columns, key)
              == if Outside(d.columns, key) == [] then t.rows[i] else LastMerged(t.rows[i], d.rows, d.columns, key)
    {
      LastIsFirst(t.rows[i], d.rows, d.columns, key);
      if Outside(d.columns, key) == [] {
        KeyOnlyKeepsRow(t.rows[i], d.rows, d.columns, key);
      }
    }
    if Outside(d.columns, key) == [] {
      assert OverwrittenAll(t.rows, d.rows, d.columns, key) == t.rows;
    }
  }

  /** Trino's MERGE refines Override. */
  lemma TrinoMergeRefines(t: Table, d: Data, key: seq<string>)
    requires Keyed(d.rows, key)
    ensures TrinoMerge(t.columns, t.rows, d.rows, d.columns, key) == Some(Override(t, d, key).rows)
  {
    var kept := OverwrittenAll(t.rows, d.rows, d.columns, key);
    if Outside(d.columns, key) == [] {
      forall i | 0 <= i < |t.rows| ensures kept[i] == t.rows[i] {
        KeyOnlyKeepsRow(t.rows[i], d.rows, d.columns, key);
      }
      assert kept == t.rows;
    } else {
      OneMatchEach(t, d.rows, key);
      forall i | 0 <= i < |t.rows| ensures kept[i] == MergedRow(t.rows[i], d.rows, d.columns, key) {
        MergedIsFirst(t.rows[i], d.rows, d.columns, key);
      }
      assert kept == MergedAll(t.rows, d.rows, d.columns, key);
    }
  }

  // --- Postgres, whatever the keys ----------------------------------------

  lemma StepStaysKeyed(columns: seq<LiveColumn>, r: seq<Row>, s: Row, named: seq<string>, key: seq<string>)
    requires ColumnSet(key) <= ColumnSet(named) <= Names(columns)
    requires Keyed(r, key) && NonNullKeys([s], key)
    ensures Keyed(Step(columns, r, s, named, key), key)
  {
    assert s in [s];
    match FirstMatch(r, s, key)
    case None =>
      StoredKeepsKey(columns, named, s, key);
      forall i | 0 <= i < |r| ensures KeyOf(r[i], key) != KeyOf(s, key) {
        MatchesIsSameKey(r[i], s, key);
        assert r[i] in r;
      }
    case Some(m) =>
      OverwrittenKeepsKey(r[m], [s], named, key);
      assert r[m] in r;
  }

  /** Row by row, even repeated keys leave a table without repeats. */
  lemma {:induction false} FoldStaysKeyed(columns: seq<LiveColumn>, rows: seq<Row>, ss: seq<Row>, named: seq<string>,
                                          key: seq<string>)
    requires ColumnSet(key) <= ColumnSet(named) <= Names(columns)
    requires Keyed(rows, key) && NonNullKeys(ss, key)
    ensures Keyed(Fold(columns, rows, ss, named, key), key)
  {
    if ss != [] {
      var init, s := ss[..|ss| - 1], ss[|ss| - 1];
      assert forall x | x in init || x in [s] :: x in ss;
      FoldStaysKeyed(columns, rows, init, named, key);
      StepStaysKeyed(columns, Fold(columns, rows, init, named, key), s, named, key);
    }
  }

  /** A statement that meets a repeated key after touching its row fails. */
  lemma {:induction false} RepeatFails(t: Table, named: seq<string>, done: seq<Row>, rest: seq<Row>, key: seq<string>)
    requires Ready(t, named, done, key) && Outside(named, key) != []
    requires NonNullKeys(done + rest, key) && !UniqueKeys(done + rest, key)
    ensures var r := Fold(t.columns, t.rows, done, named, key);
            OnConflict(t.columns, r, TouchedBy(r, done, key), rest, named, key) == None
    decreases |rest|
  {
    assert rest == [] ==> done + rest == done;
    if rest != [] {
      var s, r := rest[0], Fold(t.columns, t.rows, done, named, key);
      assert (done + [s]) + rest[1..] == done + rest;
      assert (done + rest)[|done|] == s;
      if HasKey(done, KeyOf(s, key), key) {
        KeyIsPresent(t, named, done, s, key);
        var i :| 0 <= i < |r| && KeyOf(r[i], key) == KeyOf(s, key);
        OverrideIsFold(t, named, done, key);
        OverrideStaysKeyed(t, Data(named, done), key);
        MatchesIsSameKey(r[i], s, key);
        MatchIsUnique(r, s, i, key);
        assert i in TouchedBy(r, done, key);
      } else {
        assert forall x | x in done + [s] :: x in done + rest;
        assert Ready(t, named, done + [s], key);
        StepTouches(t, named, done, s, key);
        RepeatFails(t, named, done + [s], rest[1..], key);
        if FirstMatch(r, s, key).Some? {
          AssignIsUpdated(r[FirstMatch(r, s, key).value], s, named, key);
        }
      }
    }
  }

  lemma {:induction false} KeyIsPresent(t: Table, named: seq<string>, done: seq<Row>, s: Row, key: seq<string>)
    requires Ready(t, named, done, key) && HasKey(done, KeyOf(s, key), key)
    ensures exists i | 0 <= i < |Fold(t.columns, t.rows, done, named, key)| ::
              KeyOf(Fold(t.columns, t.rows, done, named, key)[i], key) == KeyOf(s, key)
  {
    var init, x := done[..|done| - 1], done[|done| - 1];
    assert done == init + [x];
    ReadyPrefix(t, named, init, [x], key);
    StepTouches(t, named, init, x, key);
    StepKeys(t.columns, Fold(t.columns, t.rows, init, named, key), x, named, key);
    var r, r' := Fold(t.columns, t.rows, init, named, key), Fold(t.columns, t.rows, done, named, key);
    if KeyOf(x, key) == KeyOf(s, key) {
      assert KeyOf(r'[Landing(r, x, key)], key) == KeyOf(s, key);
    } else {
      HasKeySnoc(init, x, KeyOf(s, key), key);
      KeyIsPresent(t, named, init, s, key);
      var i :| 0 <= i < |r| && KeyOf(r[i], key) == KeyOf(s, key);
      assert KeyOf(r'[i], key) == KeyOf(s, key);
    }
  }

  lemma RepeatedPageFails(t: Table, named: seq<string>, page: seq<Row>, key: seq<string>)
    requires Ready(t, named, [], key) && Outside(named, key) != []
    requires NonNullKeys(page, key) && !UniqueKeys(page, key)
    ensures OnConflict(t.columns, t.rows, {}, page, named, key) == None
  {
    assert [] + page == page;
    RepeatFails(t, named, [], page, key);
    assert TouchedBy(t.rows, [], key) == {};
  }

  /** No page of `size` rows repeats a key within itself. */
  predicate PagesUnique(ss: seq<Row>, size: nat, key: seq<string>)
    requires size > 0
    decreases |ss|
  {
    if |ss| <= size then UniqueKeys(ss, key)
    else UniqueKeys(ss[..size], key) && PagesUnique(ss[size..], size, key)
  }

  /** With something to overwrite, the paged upsert of any rows succeeds exactly when no page repeats a key,
      and then it has upserted them one by one: a repeat on a later page overwrites the earlier one. */
  lemma {:induction false} PagesAre(t: Table, named: seq<string>, ss: seq<Row>, size: nat, key: seq<string>)
    requires size > 0 && Ready(t, named, [], key) && NonNullKeys(ss, key) && Outside(named, key) != []
    ensures Pages(t.columns, t.rows, ss, size, named, key)
            == if PagesUnique(ss, size, key) then Some(Fold(t.columns, t.rows, ss, named, key)) else None
    decreases |ss|
  {
    if ss != [] {
      var n := if |ss| < size then |ss| else size;
      var a, b := ss[..n], ss[n..];
      assert ss == a + b;
      assert forall x | x in a || x in b :: x in ss;
      if UniqueKeys(a, key) {
        PageRefines(t, named, a, key);
        FoldStaysKeyed(t.columns, t.rows, a, named, key);
        PagesAre(t.(rows := Fold(t.columns, t.rows, a, named, key)), named, b, size, key);
        FoldConcat(t.columns, t.rows, a, b, named, key);
      } else {
        RepeatedPageFails(t, named, a, key);
      }
    }
  }

  lemma StepKeepsOthers(columns: seq<LiveColumn>, r: seq<Row>, s: Row, named: seq<string>, key: seq<string>, i: nat)
    requires i < |r| && Keyed(r, key) && NonNullKeys([s], key) && KeyOf(r[i], key) != KeyOf(s, key)
    ensures i < |Step(columns, r, s, named, key)| && Step(columns, r, s, named, key)[i] == r[i]
  {
    assert s in [s];
    MatchesIsSameKey(r[i], s, key);
  }

  /** The row with `s`'s key carries `s`'s cells. */
  ghost predicate Carries(rows: seq<Row>, s: Row, named: seq<string>, key: seq<string>, i: nat) {
    && i < |rows| && KeyOf(rows[i], key) == KeyOf(s, key)
    && forall c | c in named && c in rows[i] :: At(rows[i], c) == At(s, c)
  }

  lemma StepCarries(columns: seq<LiveColumn>, r: seq<Row>, s: Row, named: seq<string>, key: seq<string>)
    requires ColumnSet(key) <= ColumnSet(named) <= Names(columns)
    requires NonNullKeys([s], key)
    ensures Carries(Step(columns, r, s, named, key), s, named, key, Landing(r, s, key))
  {
    assert s in [s];
    StepKeys(columns, r, s, named, key);
    match FirstMatch(r, s, key)
    case None =>
    case Some(m) =>
      forall c | c in named && c in r[m] ensures At(Updated(r[m], s, named, key), c) == At(s, c) {
      }
  }

  /** The last row to name a key is the one whose cells are kept. */
  lemma {:induction false} FoldKeepsLast(t: Table, named: seq<string>, ss: seq<Row>, key: seq<string>, j: nat)
      returns (i: nat)
    requires Ready(t, named, [], key) && NonNullKeys(ss, key) && j < |ss|
    requires forall k | j < k < |ss| :: KeyOf(ss[k], key) != KeyOf(ss[j], key)
    ensures Carries(Fold(t.columns, t.rows, ss, named, key), ss[j], named, key, i)
  {
    var init, s := ss[..|ss| - 1], ss[|ss| - 1];
    var r := Fold(t.columns, t.rows, init, named, key);
    assert forall x | x in init || x in [s] :: x in ss;
    FoldStaysKeyed(t.columns, t.rows, init, named, key);
    if j == |ss| - 1 {
      StepCarries(t.columns, r, s, named, key);
      i := Landing(r, s, key);
    } else {
      i := FoldKeepsLast(t, named, init, key, j);
      StepKeepsOthers(t.columns, r, s, named, key, i);
    }
  }

  /** A key repeated on different pages, at any page size: Postgres keeps its last row. */
  lemma PostgresKeepsLastAcrossPages(t: Table, named: seq<string>, ss: seq<Row>, size: nat, key: seq<string>, j: nat)
    requires size > 0 && Ready(t, named, [], key) && NonNullKeys(ss, key) && Outside(named, key) != []
    requires PagesUnique(ss, size, key) && j < |ss|
    requires forall k | j < k < |ss| :: KeyOf(ss[k], key) != KeyOf(ss[j], key)
    ensures var after := Pages(t.columns, t.rows, ss, size, named, key);
            after.Some? && Keyed(after.value, key) && exists i :: Carries(after.value, ss[j], named, key, i)
  {
    PagesAre(t, named, ss, size, key);
    FoldStaysKeyed(t.columns, t.rows, ss, named, key);
    var i := FoldKeepsLast(t, named, ss, key, j);
  }

  // --- a key of every column ----------------------------------------------

  lemma KeyOnlyStep(columns: seq<LiveColumn>, rows: seq<Row>, s: Row, named: seq<string>, key: seq<string>)
    requires Outside(named, key) == []
    ensures Step(columns, rows, s, named, key) == if HasMatch(rows, s, key)
        then rows else rows + [Stored(columns, named, s)]
  {
    if HasMatch(rows, s, key) {
      var i := FirstMatch(rows, s, key).value;
      OutsideIs(named, key);
      assert Updated(rows[i], s, named, key) == rows[i];
      assert rows[i := rows[i]] == rows;
    }
  }

  lemma {:induction false} KeyOnlyStatement(columns: seq<LiveColumn>, rows: seq<Row>, touched: set<nat>, page: seq<Row>,
                                            named: seq<string>, key: seq<string>)
    requires Outside(named, key) == []
    ensures OnConflict(columns, rows, touched, page, named, key) == Some(Fold(columns, rows, page, named, key))
    decreases |page|
  {
    if page != [] {
      var s, rest := page[0], page[1..];
      assert page == [s] + rest && [s][..0] == [];
      KeyOnlyStep(columns, rows, s, named, key);
      FoldConcat(columns, rows, [s], rest, named, key);
      var after := Fold(columns, rows, [s], named, key);
      var touched' := if HasMatch(rows, s, key) then touched else touched + {|rows|};
      KeyOnlyStatement(columns, after, touched', rest, named, key);
    }
  }

  /** `DO NOTHING` never fails. */
  lemma {:induction false} KeyOnlyPages(columns: seq<LiveColumn>, rows: seq<Row>, ss: seq<Row>, size: nat,
                                        named: seq<string>, key: seq<string>)
    requires size > 0 && Outside(named, key) == []
    ensures Pages(columns, rows, ss, size, named, key) == Some(Fold(columns, rows, ss, named, key))
    decreases |ss|
  {
    if ss != [] {
      var n := if |ss| < size then |ss| else size;
      assert ss == ss[..n] + ss[n..];
      KeyOnlyStatement(columns, rows, {}, ss[..n], named, key);
      FoldConcat(columns, rows, ss[..n], ss[n..], named, key);
      KeyOnlyPages(columns, Fold(columns, rows, ss[..n], named, key), ss[n..], size, named, key);
    }
  }

  lemma AddedDoesNotMatch(columns: seq<LiveColumn>, rows: seq<Row>, added: seq<Row>, s: Row, named: seq<string>,
                          key: seq<string>)
    requires ColumnSet(key) <= ColumnSet(named) <= Names(columns) && NonNullKeys([s], key)
    requires UniqueKeys(added + [s], key)
    ensures HasMatch(rows + StoredAll(columns, named, added), s, key) <==> HasMatch(rows, s, key)
  {
    var stored := StoredAll(columns, named, added);
    assert s in [s];
    forall x | x in stored ensures !Matches(x, s, key) {
      var i :| 0 <= i < |added| && stored[i] == x;
      StoredKeepsKey(columns, named, added[i], key);
      RepeatsNone(added, s, key, added[i]);
      MatchesIsSameKey(x, s, key);
    }
  }

  lemma KeyOnlyAdds(columns: seq<LiveColumn>, rows: seq<Row>, added: seq<Row>, s: Row, named: seq<string>,
                    key: seq<string>)
    requires ColumnSet(key) <= ColumnSet(named) <= Names(columns)
    requires Outside(named, key) == [] && NonNullKeys([s], key)
    requires UniqueKeys(added + if HasMatch(rows, s, key) then [] else [s], key)
    ensures Step(columns, rows + StoredAll(columns, named, added), s, named, key)
            == rows + StoredAll(columns, named, added + if HasMatch(rows, s, key) then [] else [s])
  {
    var stored := StoredAll(columns, named, added);
    KeyOnlyStep(columns, rows + stored, s, named, key);
    if HasMatch(rows, s, key) {
      var i :| 0 <= i < |rows| && Matches(rows[i], s, key);
      assert (rows + stored)[i] == rows[i] && (rows + stored)[i] in rows + stored;
      assert added + [] == added;
    } else {
      AddedDoesNotMatch(columns, rows, added, s, named, key);
      assert StoredAll(columns, named, added + [s]) == stored + [Stored(columns, named, s)];
    }
  }

  /** A key-only pass inserts the new rows once each, provided they are distinct; matched rows may repeat. */
  lemma {:induction false} KeyOnlyFold(columns: seq<LiveColumn>, rows: seq<Row>, ss: seq<Row>, named: seq<string>,
                                       key: seq<string>)
    requires ColumnSet(key) <= ColumnSet(named) <= Names(columns)
    requires Outside(named, key) == [] && NonNullKeys(ss, key) && UniqueKeys(Unmatched(rows, ss, key), key)
    ensures Fold(columns, rows, ss, named, key) == rows + StoredAll(columns, named, Unmatched(rows, ss, key))
  {
    if ss != [] {
      var init, s := ss[..|ss| - 1], ss[|ss| - 1];
      assert ss == init + [s];
      UnmatchedSnoc(rows, init, s, key);
      var added := Unmatched(rows, init, key);
      assert UniqueKeys(added, key) by {
        assert forall i | 0 <= i < |added| :: Unmatched(rows, ss, key)[i] == added[i];
      }
      assert forall x | x in init || x in [s] :: x in ss;
      KeyOnlyFold(columns, rows, init, named, key);
      KeyOnlyAdds(columns, rows, added, s, named, key);
    }
  }

  // --- exactly when the engines agree -------------------------------------

  /** All three mechanisms, Postgres at this page size, leave the pure upsert. */
  ghost predicate AgreeAt(t: Table, d: Data, key: seq<string>, size: nat)
    requires size > 0
  {
    var u := Override(t, d, key).rows;
    && Pages(t.columns, t.rows, d.rows, size, d.columns, key) == Some(u)
    && TrinoMerge(t.columns, t.rows, d.rows, d.columns, key) == Some(u)
    && DuckMerge(t.columns, t.rows, d.rows, d.columns, key) == u
  }

  lemma AgreeWhenUnique(t: Table, d: Data, key: seq<string>, size: nat)
    requires size > 0 && Ready(t, d.columns, d.rows, key)
    ensures AgreeAt(t, d, key, size)
  {
    OverrideIsFold(t, d.columns, d.rows, key);
    PagesRefine(t, d.columns, d.rows, size, key);
    assert Data(d.columns, d.rows) == d;
    TrinoMergeRefines(t, d, key);
    DuckMergeRefines(t, d, key);
  }

  /** Postgres never stores a key twice, so agreeing with it means the new rows do not repeat one. */
  lemma AgreementSeparatesNewRows(t: Table, d: Data, key: seq<string>, size: nat)
    requires size > 0 && Ready(t, d.columns, [], key) && NonNullKeys(d.rows, key)
    requires Pages(t.columns, t.rows, d.rows, size, d.columns, key) == Some(Override(t, d, key).rows)
    ensures UniqueKeys(Unmatched(t.rows, d.rows, key), key)
  {
    if Outside(d.columns, key) == [] {
      KeyOnlyPages(t.columns, t.rows, d.rows, size, d.columns, key);
    } else {
      PagesAre(t, d.columns, d.rows, size, key);
    }
    FoldStaysKeyed(t.columns, t.rows, d.rows, d.columns, key);
    StoredSeparates(t, d, key);
  }

  lemma StoredSeparates(t: Table, d: Data, key: seq<string>)
    requires ColumnSet(key) <= ColumnSet(d.columns) <= Names(t.columns) && UniqueKeys(Override(t, d, key).rows, key)
    ensures UniqueKeys(Unmatched(t.rows, d.rows, key), key)
  {
    var u, added, n := Override(t, d, key).rows, Unmatched(t.rows, d.rows, key), |t.rows|;
    forall i, j | 0 <= i < j < |added| ensures KeyOf(added[i], key) != KeyOf(added[j], key) {
      StoredKeepsKey(t.columns, d.columns, added[i], key);
      StoredKeepsKey(t.columns, d.columns, added[j], key);
      assert u[n + i] == Stored(t.columns, d.columns, added[i]) && u[n + j] == Stored(t.columns, d.columns, added[j]);
    }
  }

  lemma {:induction false} UnmatchedSeparates(rows: seq<Row>, ss: seq<Row>, key: seq<string>, i: nat, j: nat)
    requires UniqueKeys(Unmatched(rows, ss, key), key) && i < j < |ss|
    requires !HasMatch(rows, ss[i], key) && !HasMatch(rows, ss[j], key)
    ensures KeyOf(ss[i], key) != KeyOf(ss[j], key)
  {
    UnmatchedTail(rows, ss, key);
    if i > 0 {
      UnmatchedSeparates(rows, ss[1..], key, i - 1, j - 1);
    } else {
      UnmatchedAre(rows, ss[1..], key);
      assert ss[1..][j - 1] == ss[j];
    }
  }

  lemma UnmatchedTail(rows: seq<Row>, ss: seq<Row>, key: seq<string>)
    requires ss != [] && UniqueKeys(Unmatched(rows, ss, key), key)
    ensures var rest := Unmatched(rows, ss[1..], key);
            && UniqueKeys(rest, key)
            && (!HasMatch(rows, ss[0], key) ==> forall x | x in rest :: KeyOf(x, key) != KeyOf(ss[0], key))
  {
    var first, rest := if HasMatch(rows, ss[0], key) then [] else [ss[0]], Unmatched(rows, ss[1..], key);
    assert Unmatched(rows, ss, key) == first + rest;
    UniqueParts(first, rest, key);
  }

  lemma UniqueParts(a: seq<Row>, b: seq<Row>, key: seq<string>)
    requires UniqueKeys(a + b, key)
    ensures UniqueKeys(b, key) && forall x, y | x in a && y in b :: KeyOf(x, key) != KeyOf(y, key)
  {
    forall i, j | 0 <= i < j < |b| ensures KeyOf(b[i], key) != KeyOf(b[j], key) {
      assert (a + b)[|a| + i] == b[i] && (a + b)[|a| + j] == b[j];
    }
    forall i, j | 0 <= i < |a| && 0 <= j < |b| ensures KeyOf(a[i], key) != KeyOf(b[j], key) {
      assert (a + b)[i] == a[i] && (a + b)[|a| + j] == b[j];
    }
  }

  /** Trino's refusal of ambiguous rows rules out a repeat among the matched ones. */
  lemma AgreementSeparatesRows(t: Table, d: Data, key: seq<string>)
    requires NonNullKeys(d.rows, key) && UniqueKeys(Unmatched(t.rows, d.rows, key), key)
    requires !Ambiguous(t.rows, d.rows, key)
    ensures UniqueKeys(d.rows, key)
  {
    forall i, j | 0 <= i < j < |d.rows| ensures KeyOf(d.rows[i], key) != KeyOf(d.rows[j], key) {
      assert d.rows[i] in d.rows && d.rows[j] in d.rows;
      forall t' | t' in t.rows ensures Matches(t', d.rows[i], key) <==> KeyOf(t', key) == KeyOf(d.rows[i], key)
                               ensures Matches(t', d.rows[j], key) <==> KeyOf(t', key) == KeyOf(d.rows[j], key) {
        MatchesIsSameKey(t', d.rows[i], key);
        MatchesIsSameKey(t', d.rows[j], key);
      }
      if !HasMatch(t.rows, d.rows[i], key) && !HasMatch(t.rows, d.rows[j], key) {
        UnmatchedSeparates(t.rows, d.rows, key, i, j);
      }
    }
  }

  lemma KeyOnlyAgree(t: Table, d: Data, key: seq<string>, size: nat)
    requires size > 0 && Ready(t, d.columns, [], key) && NonNullKeys(d.rows, key)
    requires Outside(d.columns, key) == [] && UniqueKeys(Unmatched(t.rows, d.rows, key), key)
    ensures AgreeAt(t, d, key, size)
  {
    KeyOnlyPages(t.columns, t.rows, d.rows, size, d.columns, key);
    KeyOnlyFold(t.columns, t.rows, d.rows, d.columns, key);
    forall i | 0 <= i < |t.rows| ensures Overwritten(t.rows[i], d.rows, d.columns, key) == t.rows[i] {
      KeyOnlyKeepsRow(t.rows[i], d.rows, d.columns, key);
    }
    assert OverwrittenAll(t.rows, d.rows, d.columns, key) == t.rows;
  }

  /** Of rows as they are stored: at any one page size, with something to overwrite, all three mechanisms leave
      the pure upsert iff the rows repeat no key; with every column in the key, iff those whose key is new do not. */
  lemma AgreeIffUnique(t: Table, d: Data, key: seq<string>, size: nat)
    requires size > 0 && Ready(t, d.columns, [], key) && NonNullKeys(d.rows, key)
    ensures UniqueKeys(d.rows, key) ==> AgreeAt(t, d, key, size)
    ensures Outside(d.columns, key) != [] ==> (AgreeAt(t, d, key, size) <==> UniqueKeys(d.rows, key))
    ensures Outside(d.columns, key) == [] ==>
        (AgreeAt(t, d, key, size) <==> UniqueKeys(Unmatched(t.rows, d.rows, key), key))
  {
    if UniqueKeys(d.rows, key) {
      AgreeWhenUnique(t, d, key, size);
    }
    if AgreeAt(t, d, key, size) {
      AgreementSeparatesNewRows(t, d, key, size);
      if Outside(d.columns, key) != [] {
        AgreementSeparatesRows(t, d, key);
      }
    } else if Outside(d.columns, key) == [] && UniqueKeys(Unmatched(t.rows, d.rows, key), key) {
      KeyOnlyAgree(t, d, key, size);
    }
  }

  /** What makes the engines interchangeable, exactly: that the keys are distinct as stored. Where the engine keeps
      the values of the key columns apart, that is what the check before the write establishes. */
  lemma EnginesAgreeIffKeysUnique(t: Table, d: Data, key: seq<string>, size: nat, form: Form)
    requires size > 0 && Ready(t, d.columns, [], key) && NonNullKeys(d.rows, key) && IsForm(form)
    ensures var f := Formed(form, d);
            && (UniqueKeys(f.rows, key) ==> AgreeAt(t, f, key, size))
            && (Outside(d.columns, key) != [] ==> (AgreeAt(t, f, key, size) <==> UniqueKeys(f.rows, key)))
            && (Outside(d.columns, key) == [] ==>
                  (AgreeAt(t, f, key, size) <==> UniqueKeys(Unmatched(t.rows, f.rows, key), key)))
    ensures (forall c | c in key :: Faithful(form, c)) && UniqueKeys(d.rows, key) ==>
        AgreeAt(t, Formed(form, d), key, size)
  {
    FormedKeysAreSet(form, d, key);
    AgreeIffUnique(t, Formed(form, d), key, size);
    KeysStayApartIffFaithful(form, key);
  }

  /** A key given twice and absent from the table is stored twice by DuckDB, whatever the rows. */
  lemma DuckStoresRepeats(t: Table, named: seq<string>, a: Row, b: Row, key: seq<string>)
    requires !HasMatch(t.rows, a, key) && !HasMatch(t.rows, b, key)
    ensures DuckMerge(t.columns, t.rows, [a, b], named, key)[|t.rows|..]
            == [Stored(t.columns, named, a), Stored(t.columns, named, b)]
  {
    assert [a, b][1..] == [b] && [b][1..] == [];
    assert Unmatched(t.rows, [b], key) == [b];
    assert Unmatched(t.rows, [a, b], key) == [a, b];
  }
}
