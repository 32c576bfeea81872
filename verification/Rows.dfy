/** Warehouse rows and tables, and the one table update every upsert is meant to perform. */
module Rows {
  datatype Option<+T> = None | Some(value: T)
  {
    predicate IsFailure() {
      None?
    }

    function PropagateFailure<U>(): Option<U>
      requires None?
    {
      Option<U>.None
    }

    function Extract(): T
      requires Some?
    {
      value
    }
  }

  /** A cell: SQL NULL, a character string, or some other non-null value. */
  datatype Value = Null | Chars(text: string) | Cell(repr: int)

  type Row = map<string, Value>

  /** A column of a live table, as the engine reports it. */
  datatype LiveColumn = LiveColumn(name: string, nullable: bool)

  /** `key` is the declared PRIMARY KEY; it is empty on engines without constraints. */
  datatype Table = Table(columns: seq<LiveColumn>, key: seq<string>, rows: seq<Row>)

  /** A schema's tables by name. */
  type Tables = map<string, Table>

  /** The Arrow table handed to a write: every row has a cell for every named column. */
  datatype Data = Data(columns: seq<string>, rows: seq<Row>)
  {
    ghost predicate Valid() {
      forall r | r in rows :: r.Keys == ColumnSet(columns)
    }
  }

  function ColumnSet(names: seq<string>): set<string> {
    set c | c in names
  }

  function Names(columns: seq<LiveColumn>): set<string> {
    set i | 0 <= i < |columns| :: columns[i].name
  }

  function At(r: Row, c: string): Value {
    if c in r then r[c] else Null
  }

  /** The key of a row, NULL counting as a value: what a group-by sees. */
  function KeyOf(r: Row, key: seq<string>): seq<Value> {
    seq(|key|, i requires 0 <= i < |key| => At(r, key[i]))
  }

  /** `t.k1 = s.k1 AND ...` in SQL: NULL equals nothing. */
  predicate Matches(t: Row, s: Row, key: seq<string>) {
    forall c | c in key :: At(t, c) != Null && At(t, c) == At(s, c)
  }

  predicate HasMatch(rows: seq<Row>, s: Row, key: seq<string>) {
    exists t | t in rows :: Matches(t, s, key)
  }

  predicate UniqueKeys(rows: seq<Row>, key: seq<string>) {
    forall i, j | 0 <= i < j < |rows| :: KeyOf(rows[i], key) != KeyOf(rows[j], key)
  }

  predicate NonNullKeys(rows: seq<Row>, key: seq<string>) {
    forall r, c | r in rows && c in key :: At(r, c) != Null
  }

  /** The row an INSERT naming `named` stores: unnamed columns become NULL. */
  function Stored(columns: seq<LiveColumn>, named: seq<string>, s: Row): Row {
    map c | c in Names(columns) :: if c in named then At(s, c) else Null
  }

  function StoredAll(columns: seq<LiveColumn>, named: seq<string>, ss: seq<Row>): (r: seq<Row>)
  {
    seq(|ss|, i requires 0 <= i < |ss| => Stored(columns, named, ss[i]))
  }

  /** Every named column exists, and no NOT NULL column would receive a NULL. */
  predicate Accepts(columns: seq<LiveColumn>, named: seq<string>, ss: seq<Row>) {
    && ColumnSet(named) <= Names(columns)
    && forall s, col | s in ss && col in columns :: !col.nullable ==> At(Stored(columns, named, s), col.name) != Null
  }

  /** The row left by `UPDATE SET` of every named column outside the key. */
  function Updated(t: Row, s: Row, named: seq<string>, key: seq<string>): Row {
    map c | c in t :: if c in named && c !in key then At(s, c) else t[c]
  }

  /** `t`, overwritten by the first row of `ss` with its key, if there is one. */
  function Overwritten(t: Row, ss: seq<Row>, named: seq<string>, key: seq<string>): Row {
    if ss == [] then t
    else if Matches(t, ss[0], key) then Updated(t, ss[0], named, key)
    else Overwritten(t, ss[1..], named, key)
  }

  function OverwrittenAll(rows: seq<Row>, ss: seq<Row>, named: seq<string>, key: seq<string>): seq<Row> {
    seq(|rows|, i requires 0 <= i < |rows| => Overwritten(rows[i], ss, named, key))
  }

  /** The rows of `ss` that match no row of `rows`, in order. */
  function Unmatched(rows: seq<Row>, ss: seq<Row>, key: seq<string>): seq<Row> {
    if ss == [] then []
    else (if HasMatch(rows, ss[0], key) then [] else [ss[0]]) + Unmatched(rows, ss[1..], key)
  }

  /** The pure upsert: overwrite the rows whose key is in `d`, keep the rest, add the new keys. */
  function Override(t: Table, d: Data, key: seq<string>): Table {
    t.(rows := OverwrittenAll(t.rows, d.rows, d.columns, key)
               + StoredAll(t.columns, d.columns, Unmatched(t.rows, d.rows, key)))
  }

  /** What an engine makes of a cell it stores in a column, by the column's name: a CHAR column pads, say. Two
      cells are the same key to the engine exactly when their stored forms are equal. */
  type Form = (string, Value) -> Value

  ghost predicate IsForm(form: Form) {
    forall c, v :: form(c, v) == Null <==> v == Null
  }

  function FormRow(form: Form, r: Row): Row {
    map c | c in r :: form(c, r[c])
  }

  function FormAll(form: Form, rows: seq<Row>): (formed: seq<Row>)
    ensures |formed| == |rows|
  {
    seq(|rows|, i requires 0 <= i < |rows| => FormRow(form, rows[i]))
  }

  /** The rows as the engine stores them. */
  function Formed(form: Form, d: Data): (formed: Data)
    ensures |formed.rows| == |d.rows| && formed.columns == d.columns
  {
    Data(d.columns, FormAll(form, d.rows))
  }

  lemma FormedIsValid(form: Form, d: Data)
    requires d.Valid()
    ensures Formed(form, d).Valid()
  {
    forall r | r in FormAll(form, d.rows) ensures r.Keys == ColumnSet(d.columns) {
      var i :| 0 <= i < |d.rows| && FormRow(form, d.rows[i]) == r;
      assert d.rows[i] in d.rows;
    }
  }

  lemma FormedKeysAreSet(form: Form, d: Data, key: seq<string>)
    requires IsForm(form) && NonNullKeys(d.rows, key)
    ensures NonNullKeys(Formed(form, d).rows, key)
  {
    forall r, c | r in FormAll(form, d.rows) && c in key ensures At(r, c) != Null {
      var i :| 0 <= i < |d.rows| && FormRow(form, d.rows[i]) == r;
      assert d.rows[i] in d.rows && At(d.rows[i], c) != Null;
    }
  }

  /** The engine keeps the values of a column apart. */
  ghost predicate Faithful(form: Form, c: string) {
    forall v, w | v != Null && w != Null && form(c, v) == form(c, w) :: v == w
  }

  lemma FaithfulKeepsKeys(form: Form, key: seq<string>, a: Row, b: Row)
    requires forall c | c in key :: Faithful(form, c) && At(a, c) != Null && At(b, c) != Null
    ensures KeyOf(FormRow(form, a), key) == KeyOf(FormRow(form, b), key) <==> KeyOf(a, key) == KeyOf(b, key)
  {
    var fa, fb := FormRow(form, a), FormRow(form, b);
    forall i | 0 <= i < |key|
      ensures KeyOf(fa, key)[i] == form(key[i], KeyOf(a, key)[i]) && KeyOf(fb, key)[i] == form(key[i], KeyOf(b, key)[i])
      ensures KeyOf(fa, key)[i] == KeyOf(fb, key)[i] <==> KeyOf(a, key)[i] == KeyOf(b, key)[i]
    {
      assert key[i] in key && At(a, key[i]) != Null && At(b, key[i]) != Null;
    }
    if KeyOf(a, key) == KeyOf(b, key) {
      assert KeyOf(fa, key) == KeyOf(fb, key);
    }
    if KeyOf(fa, key) == KeyOf(fb, key) {
      assert KeyOf(a, key) == KeyOf(b, key);
    }
  }

  /** Every set of rows without NULL keys that repeats no key still repeats none once stored. */
  ghost predicate KeepsKeysApart(form: Form, key: seq<string>) {
    forall rows | NonNullKeys(rows, key) && UniqueKeys(rows, key) :: UniqueKeys(FormAll(form, rows), key)
  }

  /** A row with `v` in `c` and something in every other key column. */
  function KeyRow(key: seq<string>, c: string, v: Value): Row {
    map k | k in key :: if k == c then v else Cell(0)
  }

  lemma MergedKeysCollide(form: Form, key: seq<string>, c: string, v: Value, w: Value)
    requires c in key && v != Null && w != Null && v != w && form(c, v) == form(c, w)
    ensures !KeepsKeysApart(form, key)
  {
    var a, b := KeyRow(key, c, v), KeyRow(key, c, w);
    var rows := [a, b];
    var i :| 0 <= i < |key| && key[i] == c;
    assert KeyOf(a, key)[i] == v && KeyOf(b, key)[i] == w;
    assert NonNullKeys(rows, key) && UniqueKeys(rows, key);
    var formed := FormAll(form, rows);
    assert formed[0] == FormRow(form, a) && formed[1] == FormRow(form, b);
    assert KeyOf(formed[0], key) == KeyOf(formed[1], key);
  }

  /** Uniqueness of the cells handed over is uniqueness of the keys stored, whatever the rows, exactly when the
      engine keeps the values of every key column apart. */
  lemma KeysStayApartIffFaithful(form: Form, key: seq<string>)
    ensures KeepsKeysApart(form, key) <==> forall c | c in key :: Faithful(form, c)
  {
    if forall c | c in key :: Faithful(form, c) {
      forall rows | NonNullKeys(rows, key) && UniqueKeys(rows, key) ensures UniqueKeys(FormAll(form, rows), key) {
        forall i, j | 0 <= i < j < |rows|
          ensures KeyOf(FormAll(form, rows)[i], key) != KeyOf(FormAll(form, rows)[j], key)
        {
          assert rows[i] in rows && rows[j] in rows;
          FaithfulKeepsKeys(form, key, rows[i], rows[j]);
        }
      }
    } else {
      var c :| c in key && !Faithful(form, c);
      var v, w :| v != Null && w != Null && form(c, v) == form(c, w) && v != w;
      MergedKeysCollide(form, key, c, v, w);
    }
  }

  /** The table with every row of `d` inserted. */
  function Appended(t: Table, d: Data): Table {
    t.(rows := t.rows + StoredAll(t.columns, d.columns, d.rows))
  }

  lemma AppendedConcat(t: Table, named: seq<string>, a: seq<Row>, b: seq<Row>)
    ensures Appended(t, Data(named, a + b)) == Appended(Appended(t, Data(named, a)), Data(named, b))
    ensures a == [] ==> Appended(t, Data(named, a)) == t
    ensures Accepts(t.columns, named, a) && Accepts(t.columns, named, b) ==> Accepts(t.columns, named, a + b)
  {
    assert StoredAll(t.columns, named, a + b) == StoredAll(t.columns, named, a) + StoredAll(t.columns, named, b);
  }

  /** The rows are `d`'s, one for one and in order: its cells as the engine stores them, NULL elsewhere. */
  ghost predicate Hold(rows: seq<Row>, columns: seq<LiveColumn>, form: Form, d: Data)
    requires d.Valid()
  {
    && |rows| == |d.rows|
    && forall i | 0 <= i < |rows| ::
         && rows[i].Keys == Names(columns)
         && forall c | c in Names(columns) ::
              rows[i][c] == if c in d.columns then form(c, CellAt(d, i, c)) else Null
  }

  function CellAt(d: Data, i: nat, c: string): Value
    requires d.Valid() && i < |d.rows| && c in d.columns
  {
    assert d.rows[i] in d.rows && c in ColumnSet(d.columns);
    d.rows[i][c]
  }

  lemma StoredHold(columns: seq<LiveColumn>, form: Form, d: Data)
    requires d.Valid()
    ensures Hold(StoredAll(columns, d.columns, FormAll(form, d.rows)), columns, form, d)
  {
  }

  /** The target has `d`'s rows and no other. */
  ghost predicate Refilled(before: Tables, now: Tables, target: string, form: Form, d: Data)
    requires d.Valid()
  {
    && target in before && target in now && now[target].columns == before[target].columns
    && Hold(now[target].rows, now[target].columns, form, d)
  }

  /** The target has its old rows, then `d`'s. */
  ghost predicate Grown(before: Tables, now: Tables, target: string, form: Form, d: Data)
    requires d.Valid()
  {
    && target in before && target in now && now[target].columns == before[target].columns
    && before[target].rows <= now[target].rows
    && Hold(now[target].rows[|before[target].rows|..], now[target].columns, form, d)
  }

  lemma AppendGrows(before: Tables, target: string, form: Form, d: Data)
    requires target in before && d.Valid()
    ensures Grown(before, before[target := Appended(before[target], Formed(form, d))], target, form, d)
  {
    var t := before[target];
    StoredHold(t.columns, form, d);
    assert Appended(t, Formed(form, d)).rows[|t.rows|..] == StoredAll(t.columns, d.columns, FormAll(form, d.rows));
  }

  // --- what Override means ------------------------------------------------

  /** The table's columns are the data's, and every stored row has exactly them. */
  ghost predicate SameShape(t: Table, d: Data) {
    && Names(t.columns) == ColumnSet(d.columns)
    && (forall r | r in t.rows :: r.Keys == Names(t.columns))
  }

  predicate Keyed(rows: seq<Row>, key: seq<string>) {
    UniqueKeys(rows, key) && NonNullKeys(rows, key)
  }

  /** The rows of a table, looked up by key. */
  ghost function ByKey(rows: seq<Row>, key: seq<string>): map<seq<Value>, Row> {
    if rows == [] then map[]
    else ByKey(rows[..|rows| - 1], key)[KeyOf(rows[|rows| - 1], key) := rows[|rows| - 1]]
  }

  lemma {:induction false} ByKeyHolds(rows: seq<Row>, key: seq<string>)
    requires UniqueKeys(rows, key)
    ensures forall i | 0 <= i < |rows| ::
              KeyOf(rows[i], key) in ByKey(rows, key) && ByKey(rows, key)[KeyOf(rows[i], key)] == rows[i]
    ensures forall k | k in ByKey(rows, key) :: exists i | 0 <= i < |rows| :: KeyOf(rows[i], key) == k
  {
    if rows != [] {
      ByKeyHolds(rows[..|rows| - 1], key);
    }
  }

  lemma ByKeyIs(rows: seq<Row>, key: seq<string>, m: map<seq<Value>, Row>)
    requires UniqueKeys(rows, key)
    requires forall i | 0 <= i < |rows| :: KeyOf(rows[i], key) in m && m[KeyOf(rows[i], key)] == rows[i]
    requires forall k | k in m :: exists i | 0 <= i < |rows| :: KeyOf(rows[i], key) == k
    ensures ByKey(rows, key) == m
  {
    ByKeyHolds(rows, key);
    assert forall k | k in ByKey(rows, key) :: k in m && ByKey(rows, key)[k] == m[k];
  }

  /** Without NULLs, SQL key equality is equality of the key. */
  lemma MatchesIsSameKey(t: Row, s: Row, key: seq<string>)
    requires forall c | c in key :: At(s, c) != Null
    ensures Matches(t, s, key) <==> KeyOf(t, key) == KeyOf(s, key)
  {
    var kt, ks := KeyOf(t, key), KeyOf(s, key);
    assert forall i | 0 <= i < |key| :: kt[i] == At(t, key[i]) && ks[i] == At(s, key[i]) && key[i] in key;
    if Matches(t, s, key) {
      assert kt == ks;
    }
    if kt == ks {
      forall c | c in key ensures At(t, c) != Null && At(t, c) == At(s, c) {
        var i :| 0 <= i < |key| && key[i] == c;
        assert kt[i] == ks[i];
      }
    }
  }

  /** Overwriting never moves a row to another key. */
  lemma {:induction false} OverwrittenKeepsKey(t: Row, ss: seq<Row>, named: seq<string>, key: seq<string>)
    ensures Overwritten(t, ss, named, key).Keys == t.Keys
    ensures forall c | c in key :: At(Overwritten(t, ss, named, key), c) == At(t, c)
    ensures KeyOf(Overwritten(t, ss, named, key), key) == KeyOf(t, key)
  {
    if ss != [] && !Matches(t, ss[0], key) {
      OverwrittenKeepsKey(t, ss[1..], named, key);
    }
    var r := Overwritten(t, ss, named, key);
    assert forall i | 0 <= i < |key| :: key[i] in key && At(r, key[i]) == At(t, key[i]);
  }

  lemma StoredKeepsKey(columns: seq<LiveColumn>, named: seq<string>, s: Row, key: seq<string>)
    requires ColumnSet(key) <= ColumnSet(named) <= Names(columns)
    ensures forall c | c in key :: At(Stored(columns, named, s), c) == At(s, c)
    ensures KeyOf(Stored(columns, named, s), key) == KeyOf(s, key)
  {
    forall c | c in key ensures At(Stored(columns, named, s), c) == At(s, c) {
      assert c in ColumnSet(key);
    }
    assert forall i | 0 <= i < |key| :: key[i] in key;
  }

  /** A row no data row matches is untouched. */
  lemma {:induction false} UnmatchedUntouched(t: Row, ss: seq<Row>, named: seq<string>, key: seq<string>)
    requires forall s | s in ss :: !Matches(t, s, key)
    ensures Overwritten(t, ss, named, key) == t
  {
    if ss != [] {
      UnmatchedUntouched(t, ss[1..], named, key);
    }
  }

  /** With unique data keys the matching row is the only one, so "first" is no choice at all. */
  lemma {:induction false} OverwrittenByMatch(t: Row, ss: seq<Row>, i: nat, named: seq<string>, key: seq<string>)
    requires i < |ss| && Matches(t, ss[i], key)
    requires forall j | 0 <= j < |ss| && j != i :: !Matches(t, ss[j], key)
    ensures Overwritten(t, ss, named, key) == Updated(t, ss[i], named, key)
  {
    if i > 0 {
      OverwrittenByMatch(t, ss[1..], i - 1, named, key);
    }
  }

  lemma {:induction false} UnmatchedAre(rows: seq<Row>, ss: seq<Row>, key: seq<string>)
    ensures forall s :: s in Unmatched(rows, ss, key) <==> s in ss && !HasMatch(rows, s, key)
    ensures UniqueKeys(ss, key) ==> UniqueKeys(Unmatched(rows, ss, key), key)
  {
    if ss != [] {
      UnmatchedAre(rows, ss[1..], key);
      assert ss == [ss[0]] + ss[1..];
      var rest := Unmatched(rows, ss[1..], key);
      if UniqueKeys(ss, key) {
        forall i | 0 <= i < |rest| ensures KeyOf(rest[i], key) != KeyOf(ss[0], key) {
          assert rest[i] in ss[1..];
        }
      }
    }
  }

  /** Inserting a row that names all of a table's columns stores it as it is. */
  lemma StoredIsSelf(columns: seq<LiveColumn>, named: seq<string>, s: Row)
    requires s.Keys == ColumnSet(named) == Names(columns)
    ensures Stored(columns, named, s) == s
  {
    forall c | c in s ensures At(s, c) == s[c] && c in named {
      assert c in ColumnSet(named);
    }
  }

  /** A matched row whose columns are all named becomes the data's row. */
  lemma UpdatedIsData(t: Row, s: Row, named: seq<string>, key: seq<string>)
    requires t.Keys == s.Keys == ColumnSet(named) && Matches(t, s, key)
    ensures Updated(t, s, named, key) == s
  {
    forall c | c in t ensures Updated(t, s, named, key)[c] == s[c] {
      assert c in ColumnSet(named);
      if c in key {
        assert At(t, c) == At(s, c);
      }
    }
  }

  /** Row `i` of the old table after the upsert keeps its key. */
  lemma KeptKey(t: Table, d: Data, key: seq<string>, i: nat)
    requires i < |t.rows|
    ensures var r := Override(t, d, key).rows[i];
            KeyOf(r, key) == KeyOf(t.rows[i], key) && r.Keys == t.rows[i].Keys
            && forall c | c in key :: At(r, c) == At(t.rows[i], c)
  {
    OverwrittenKeepsKey(t.rows[i], d.rows, d.columns, key);
  }

  /** Every row an upsert adds comes from a data row the table had no key for. */
  lemma AddedRow(t: Table, d: Data, key: seq<string>, i: nat) returns (s: Row)
    requires ColumnSet(key) <= ColumnSet(d.columns) <= Names(t.columns)
    requires |t.rows| <= i < |Override(t, d, key).rows|
    ensures s == Unmatched(t.rows, d.rows, key)[i - |t.rows|] && s in d.rows && !HasMatch(t.rows, s, key)
    ensures var r := Override(t, d, key).rows[i];
            && r == Stored(t.columns, d.columns, s) && KeyOf(r, key) == KeyOf(s, key)
            && forall c | c in key :: At(r, c) == At(s, c)
  {
    UnmatchedAre(t.rows, d.rows, key);
    s := Unmatched(t.rows, d.rows, key)[i - |t.rows|];
    assert s in Unmatched(t.rows, d.rows, key);
    StoredKeepsKey(t.columns, d.columns, s, key);
  }

  /** An upsert never creates a repeated key, nor a NULL one. */
  lemma OverrideStaysKeyed(t: Table, d: Data, key: seq<string>)
    requires ColumnSet(key) <= ColumnSet(d.columns) <= Names(t.columns)
    requires Keyed(t.rows, key) && Keyed(d.rows, key)
    ensures Keyed(Override(t, d, key).rows, key)
  {
    var u := Override(t, d, key).rows;
    UnmatchedAre(t.rows, d.rows, key);
    forall i | 0 <= i < |u| ensures forall c | c in key :: At(u[i], c) != Null {
      if i < |t.rows| {
        KeptKey(t, d, key, i);
        assert t.rows[i] in t.rows;
      } else {
        var s := AddedRow(t, d, key, i);
      }
    }
    forall i, j | 0 <= i < j < |u| ensures KeyOf(u[i], key) != KeyOf(u[j], key) {
      if j < |t.rows| {
        KeptKey(t, d, key, i);
        KeptKey(t, d, key, j);
      } else {
        var sj := AddedRow(t, d, key, j);
        if i < |t.rows| {
          KeptKey(t, d, key, i);
          MatchesIsSameKey(t.rows[i], sj, key);
          assert t.rows[i] in t.rows;
        } else {
          var si := AddedRow(t, d, key, i);
        }
      }
    }
  }

  /** Row `i` of the old table after the upsert: the data's row for its key if there is one. */
  lemma KeptRow(t: Table, d: Data, key: seq<string>, i: nat)
    requires d.Valid() && SameShape(t, d) && Keyed(d.rows, key) && i < |t.rows|
    ensures var r, k, bd := Override(t, d, key).rows[i], KeyOf(t.rows[i], key), ByKey(d.rows, key);
            KeyOf(r, key) == k && r == if k in bd then bd[k] else t.rows[i]
  {
    var row, k := t.rows[i], KeyOf(t.rows[i], key);
    assert row in t.rows;
    KeptKey(t, d, key, i);
    ByKeyHolds(d.rows, key);
    forall j | 0 <= j < |d.rows| ensures Matches(row, d.rows[j], key) <==> k == KeyOf(d.rows[j], key) {
      assert d.rows[j] in d.rows;
      MatchesIsSameKey(row, d.rows[j], key);
    }
    if k in ByKey(d.rows, key) {
      var j :| 0 <= j < |d.rows| && KeyOf(d.rows[j], key) == k;
      assert d.rows[j] in d.rows;
      OverwrittenByMatch(row, d.rows, j, d.columns, key);
      UpdatedIsData(row, d.rows[j], d.columns, key);
    } else {
      UnmatchedUntouched(row, d.rows, d.columns, key);
    }
  }

  /** Every data row is in the upserted table under its own key. */
  lemma DataRowPresent(t: Table, d: Data, key: seq<string>, j: nat) returns (i: nat)
    requires d.Valid() && SameShape(t, d) && ColumnSet(key) <= ColumnSet(d.columns)
    requires Keyed(d.rows, key) && j < |d.rows|
    ensures i < |Override(t, d, key).rows| && Override(t, d, key).rows[i] == d.rows[j]
  {
    var s := d.rows[j];
    assert s in d.rows;
    if HasMatch(t.rows, s, key) {
      i :| 0 <= i < |t.rows| && Matches(t.rows[i], s, key);
      MatchesIsSameKey(t.rows[i], s, key);
      KeptRow(t, d, key, i);
      ByKeyHolds(d.rows, key);
    } else {
      UnmatchedAre(t.rows, d.rows, key);
      var m :| 0 <= m < |Unmatched(t.rows, d.rows, key)| && Unmatched(t.rows, d.rows, key)[m] == s;
      StoredIsSelf(t.columns, d.columns, s);
      i := |t.rows| + m;
    }
  }

  /** Each row of the upserted table is the one the two lookups give its key. */
  lemma RowInUnion(t: Table, d: Data, key: seq<string>, i: nat)
    requires d.Valid() && SameShape(t, d) && ColumnSet(key) <= ColumnSet(d.columns)
    requires Keyed(t.rows, key) && Keyed(d.rows, key) && i < |Override(t, d, key).rows|
    ensures var r, union := Override(t, d, key).rows[i], ByKey(t.rows, key) + ByKey(d.rows, key);
            r.Keys == Names(t.columns) && KeyOf(r, key) in union && union[KeyOf(r, key)] == r
  {
    ByKeyHolds(t.rows, key);
    ByKeyHolds(d.rows, key);
    if i < |t.rows| {
      assert t.rows[i] in t.rows;
      KeptKey(t, d, key, i);
      KeptRow(t, d, key, i);
    } else {
      var s := AddedRow(t, d, key, i);
      StoredIsSelf(t.columns, d.columns, s);
    }
  }

  lemma KeyInUpserted(t: Table, d: Data, key: seq<string>, k: seq<Value>) returns (i: nat)
    requires d.Valid() && SameShape(t, d) && ColumnSet(key) <= ColumnSet(d.columns)
    requires Keyed(t.rows, key) && Keyed(d.rows, key) && k in ByKey(t.rows, key) + ByKey(d.rows, key)
    ensures i < |Override(t, d, key).rows| && KeyOf(Override(t, d, key).rows[i], key) == k
  {
    ByKeyHolds(t.rows, key);
    ByKeyHolds(d.rows, key);
    if k in ByKey(d.rows, key) {
      var j :| 0 <= j < |d.rows| && KeyOf(d.rows[j], key) == k;
      i := DataRowPresent(t, d, key, j);
    } else {
      i :| 0 <= i < |t.rows| && KeyOf(t.rows[i], key) == k;
      KeptKey(t, d, key, i);
    }
  }

  /** The central law: as a lookup table by key, an upsert is the map update `old + new`. */
  lemma OverrideIsMapUpdate(t: Table, d: Data, key: seq<string>)
    requires d.Valid() && SameShape(t, d) && ColumnSet(key) <= ColumnSet(d.columns)
    requires Keyed(t.rows, key) && Keyed(d.rows, key)
    ensures SameShape(Override(t, d, key), d)
    ensures ByKey(Override(t, d, key).rows, key) == ByKey(t.rows, key) + ByKey(d.rows, key)
  {
    var u, union := Override(t, d, key).rows, ByKey(t.rows, key) + ByKey(d.rows, key);
    OverrideStaysKeyed(t, d, key);
    forall i | 0 <= i < |u|
      ensures u[i].Keys == Names(t.columns) && KeyOf(u[i], key) in union && union[KeyOf(u[i], key)] == u[i]
    {
      RowInUnion(t, d, key, i);
    }
    forall k | k in union ensures exists i | 0 <= i < |u| :: KeyOf(u[i], key) == k {
      var i := KeyInUpserted(t, d, key, k);
    }
    ByKeyIs(u, key, union);
  }
}
