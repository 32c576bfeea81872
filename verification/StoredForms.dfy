/** Cells as Postgres stores them: a CHAR column pads its values with blanks, so that two of them are the same key
    when they differ in trailing blanks only. DuckDB keeps every character string as it is. */
module StoredForms {
  import opened Rows
  import opened Contract
  import opened Keys
  import opened Conformance
  import opened Shape
  import opened Mechanisms
  import opened Preconditions
  import Postgres

  function Trimmed(s: string): string {
    if s == [] || s[|s| - 1] != ' ' then s else Trimmed(s[..|s| - 1])
  }

  function Padded(s: string, n: nat): string
    decreases n - |s|
  {
    if |s| >= n then s else Padded(s + " ", n)
  }

  /** How Postgres stores a cell of a table whose columns have these types. */
  function PostgresForm(types: map<string, SqlType>): Form {
    (c: string, v: Value) =>
      if c in types && types[c].Char? && v.Chars? then Chars(Padded(Trimmed(v.text), types[c].length)) else v
  }

  /** DuckDB has one type for all character columns. */
  function DuckDBForm(): Form {
    (c: string, v: Value) => v
  }

  /** The cells differ at most in trailing blanks, in a CHAR column. */
  predicate SameUpToBlanks(types: map<string, SqlType>, c: string, v: Value, w: Value) {
    || v == w
    || (c in types && types[c].Char? && v.Chars? && w.Chars? && Trimmed(v.text) == Trimmed(w.text))
  }

  predicate KeyIsChar(types: map<string, SqlType>, key: seq<string>) {
    exists c | c in key :: c in types && types[c].Char?
  }

  /** The text without its trailing blanks: all of them, and nothing else. */
  lemma {:induction false} TrimmedIs(s: string)
    ensures Trimmed(s) <= s && (forall i | |Trimmed(s)| <= i < |s| :: s[i] == ' ')
    ensures Trimmed(s) != "" ==> Trimmed(s)[|Trimmed(s)| - 1] != ' '
  {
    if s != [] && s[|s| - 1] == ' ' {
      TrimmedIs(s[..|s| - 1]);
    }
  }

  /** The text, and blanks up to the column's length. */
  lemma {:induction false} PaddedIs(s: string, n: nat)
    ensures s <= Padded(s, n) && |Padded(s, n)| == if |s| >= n then |s| else n
    ensures forall i | |s| <= i < |Padded(s, n)| :: Padded(s, n)[i] == ' '
    decreases n - |s|
  {
    if |s| < n {
      PaddedIs(s + " ", n);
    }
  }

  lemma {:induction false} PaddingIsTrimmed(s: string, n: nat)
    ensures Trimmed(Padded(s, n)) == Trimmed(s)
    decreases n - |s|
  {
    if |s| < n {
      PaddingIsTrimmed(s + " ", n);
      assert (s + " ")[..|s|] == s;
    }
  }

  lemma {:induction false} TrimmedTwice(s: string)
    ensures Trimmed(Trimmed(s)) == Trimmed(s)
  {
    if s != [] && s[|s| - 1] == ' ' {
      TrimmedTwice(s[..|s| - 1]);
    }
  }

  /** Postgres takes two cells for equal exactly when they differ at most in a CHAR column's trailing blanks. */
  lemma StoredAlikeIff(types: map<string, SqlType>, c: string, v: Value, w: Value)
    ensures PostgresForm(types)(c, v) == PostgresForm(types)(c, w) <==> SameUpToBlanks(types, c, v, w)
  {
    if c in types && types[c].Char? && v.Chars? && w.Chars? {
      var n, a, b := types[c].length, Trimmed(v.text), Trimmed(w.text);
      PaddingIsTrimmed(a, n);
      PaddingIsTrimmed(b, n);
      TrimmedTwice(v.text);
      TrimmedTwice(w.text);
    }
  }

  lemma PostgresFormIsForm(types: map<string, SqlType>)
    ensures IsForm(PostgresForm(types))
  {
  }

  lemma FaithfulIffNotChar(types: map<string, SqlType>, c: string)
    ensures Faithful(PostgresForm(types), c) <==> !(c in types && types[c].Char?)
  {
    if c in types && types[c].Char? {
      var v, w := Chars(""), Chars(" ");
      assert Trimmed(" ") == "" by {
        assert " "[..0] == "";
      }
      StoredAlikeIff(types, c, v, w);
      assert v != w;
    } else {
      forall v, w | PostgresForm(types)(c, v) == PostgresForm(types)(c, w) ensures v == w {
        StoredAlikeIff(types, c, v, w);
      }
    }
  }

  /** The check before the write speaks for Postgres, whatever the rows, exactly when no key column is CHAR. */
  lemma CheckSpeaksForPostgresIff(types: map<string, SqlType>, key: seq<string>)
    ensures KeepsKeysApart(PostgresForm(types), key) <==> !KeyIsChar(types, key)
  {
    KeysStayApartIffFaithful(PostgresForm(types), key);
    forall c | c in key ensures Faithful(PostgresForm(types), c) <==> !(c in types && types[c].Char?) {
      FaithfulIffNotChar(types, c);
    }
  }

  /** Rows that are some pair's same key up to trailing blanks. */
  ghost predicate RepeatsUpToBlanks(types: map<string, SqlType>, rows: seq<Row>, key: seq<string>) {
    exists i, j | 0 <= i < j < |rows| ::
      forall c | c in key :: SameUpToBlanks(types, c, At(rows[i], c), At(rows[j], c))
  }

  lemma StoredKeysAlikeIff(types: map<string, SqlType>, a: Row, b: Row, key: seq<string>)
    requires forall c | c in key :: At(a, c) != Null && At(b, c) != Null
    ensures var form := PostgresForm(types);
            KeyOf(FormRow(form, a), key) == KeyOf(FormRow(form, b), key)
            <==> forall c | c in key :: SameUpToBlanks(types, c, At(a, c), At(b, c))
  {
    var form := PostgresForm(types);
    var fa, fb := FormRow(form, a), FormRow(form, b);
    forall i | 0 <= i < |key|
      ensures KeyOf(fa, key)[i] == KeyOf(fb, key)[i] <==> SameUpToBlanks(types, key[i], At(a, key[i]), At(b, key[i]))
    {
      assert key[i] in key;
      StoredAlikeIff(types, key[i], At(a, key[i]), At(b, key[i]));
    }
    if KeyOf(fa, key) == KeyOf(fb, key) {
      forall c | c in key ensures SameUpToBlanks(types, c, At(a, c), At(b, c)) {
        var i :| 0 <= i < |key| && key[i] == c;
        assert KeyOf(fa, key)[i] == KeyOf(fb, key)[i];
      }
    }
    if forall c | c in key :: SameUpToBlanks(types, c, At(a, c), At(b, c)) {
      assert forall i | 0 <= i < |key| :: key[i] in key;
      assert KeyOf(fa, key) == KeyOf(fb, key);
    }
  }

  lemma StoredRepeatIff(types: map<string, SqlType>, rows: seq<Row>, key: seq<string>)
    requires NonNullKeys(rows, key)
    ensures UniqueKeys(FormAll(PostgresForm(types), rows), key) <==> !RepeatsUpToBlanks(types, rows, key)
  {
    var f := FormAll(PostgresForm(types), rows);
    forall i, j | 0 <= i < j < |rows|
      ensures KeyOf(f[i], key) == KeyOf(f[j], key)
          <==> forall c | c in key :: SameUpToBlanks(types, c, At(rows[i], c), At(rows[j], c))
    {
      assert rows[i] in rows && rows[j] in rows;
      StoredKeysAlikeIff(types, rows[i], rows[j], key);
    }
    if !UniqueKeys(f, key) {
      var i, j :| 0 <= i < j < |rows| && KeyOf(f[i], key) == KeyOf(f[j], key);
      assert forall c | c in key :: SameUpToBlanks(types, c, At(rows[i], c), At(rows[j], c));
    }
    if RepeatsUpToBlanks(types, rows, key) {
      var i, j :| 0 <= i < j < |rows|
          && forall c | c in key :: SameUpToBlanks(types, c, At(rows[i], c), At(rows[j], c));
      assert KeyOf(f[i], key) == KeyOf(f[j], key);
    }
  }

  /** In terms of the cells handed over: on Postgres's stored rows the engines leave the pure upsert iff no two
      rows have the same key up to a CHAR column's trailing blanks. */
  lemma PostgresAgreesIff(t: Table, d: Data, key: seq<string>, types: map<string, SqlType>)
    requires Ready(t, d.columns, [], key) && NonNullKeys(d.rows, key) && Outside(d.columns, key) != []
    ensures AgreeAt(t, Formed(PostgresForm(types), d), key, Postgres.INSERT_PAGE_SIZE)
            <==> !RepeatsUpToBlanks(types, d.rows, key)
    ensures !KeyIsChar(types, key) ==> (RepeatsUpToBlanks(types, d.rows, key) <==> !UniqueKeys(d.rows, key))
  {
    PostgresFormIsForm(types);
    Postgres.EnginesAgreeAtPageSize(t, d, key, PostgresForm(types));
    StoredRepeatIff(types, d.rows, key);
    if !KeyIsChar(types, key) {
      CheckSpeaksForPostgresIff(types, key);
      if !UniqueKeys(d.rows, key) {
        StoredKeysRepeat(types, d.rows, key);
      }
    }
  }

  lemma StoredKeysRepeat(types: map<string, SqlType>, rows: seq<Row>, key: seq<string>)
    requires NonNullKeys(rows, key) && !UniqueKeys(rows, key)
    ensures RepeatsUpToBlanks(types, rows, key)
  {
    var i, j :| 0 <= i < j < |rows| && KeyOf(rows[i], key) == KeyOf(rows[j], key);
    forall c | c in key ensures SameUpToBlanks(types, c, At(rows[i], c), At(rows[j], c)) {
      var k :| 0 <= k < |key| && key[k] == c;
      assert KeyOf(rows[i], key)[k] == KeyOf(rows[j], key)[k];
    }
  }

  /** The whole chain on Postgres, for a table with the declared types: without a CHAR column in the key, the checks
      before the write are enough. */
  lemma ChecksSufficeUnlessChar(raw: RawKey, columns: seq<Column>, lower: string -> string, a: Arrow, policy: Policy,
                                cast: Cast, length: Value -> nat, t: Table, fold: Folding, size: nat,
                                types: map<string, SqlType>)
    requires DistinctNames(columns) && raw.Listed? && ProperKey(raw.entries, columns, lower)
    requires Conform(a, columns, policy, cast, length).Conformed? && size > 0
    requires DistinctUpTo(LiveNames(t.columns), Exactly) && Compare(columns, t.columns, fold).Empty()
    requires AllOccur(columns, t.columns) && Keyed(t.rows, EntryNames(raw.entries))
    requires !KeyIsChar(types, EntryNames(raw.entries))
    ensures var data, key := Conform(a, columns, policy, cast, length).table, EntryNames(raw.entries);
            EnsureUniqueKey(data, key) == Unique ==> AgreeAt(t, Formed(PostgresForm(types), data.data), key, size)
  {
    PostgresFormIsForm(types);
    CheckSpeaksForPostgresIff(types, EntryNames(raw.entries));
    KeysStayApartIffFaithful(PostgresForm(types), EntryNames(raw.entries));
    ChecksSufficeOnPostgres(raw, columns, lower, a, policy, cast, length, t, fold, size, PostgresForm(types));
  }

  // --- a CHAR key the checks pass -----------------------------------------

  const Columns: seq<Column> := [Column("k", "CHAR(2)", Char(2), false), Column("v", "TEXT", Text, true)]
  const Types: map<string, SqlType> := map["k" := Char(2), "v" := Text]
  const Key: RawKey := Listed([Name("k")])

  function BlankRow(k: string, v: Value): Row {
    map["k" := Chars(k), "v" := v]
  }

  function BlankRows(v: Value, w: Value): Data {
    Data(["k", "v"], [BlankRow("a", v), BlankRow("a ", w)])
  }

  function Characters(v: Value): nat {
    if v.Chars? then |v.text| else 0
  }

  /** A cast between equal types. */
  function Kept(v: Value, f: ArrowType, g: ArrowType): Option<Value> {
    Some(v)
  }

  lemma BlankRowCast(k: string, v: Value)
    ensures CastRow(BlankRow(k, v), map["k" := Utf8, "v" := Utf8], Columns, Kept) == Some(BlankRow(k, v))
  {
    var r, types := BlankRow(k, v), map["k" := Utf8, "v" := Utf8];
    assert Columns[..1] == [Columns[0]] && [Columns[0]][..0] == [];
    assert CastRow(r, types, [], Kept) == Some(map[]);
    assert CastRow(r, types, [Columns[0]], Kept) == Some(map["k" := Chars(k)]);
  }

  lemma {:induction false} CastRowsKeep(rows: seq<Row>, types: map<string, ArrowType>, columns: seq<Column>, cast: Cast)
    requires forall c | c in columns :: c.name in types
    requires forall i | 0 <= i < |rows| :: CastRow(rows[i], types, columns, cast) == Some(rows[i])
    ensures CastRows(rows, types, columns, cast) == Some(rows)
  {
    if rows != [] {
      CastRowsKeep(rows[1..], types, columns, cast);
      assert [rows[0]] + rows[1..] == rows;
    }
  }

  lemma BlankTypes()
    ensures DeclaredNames(Columns) == ["k", "v"] && TypesOf(Columns) == map["k" := Utf8, "v" := Utf8]
  {
    assert Columns[..1] == [Columns[0]] && Columns[..1][..0] == [];
  }

  lemma BlankRowsCast(v: Value, w: Value)
    ensures var rows := BlankRows(v, w).rows;
            CastRows(rows, map["k" := Utf8, "v" := Utf8], Columns, Kept) == Some(rows)
  {
    BlankRowCast("a", v);
    BlankRowCast("a ", w);
    CastRowsKeep(BlankRows(v, w).rows, map["k" := Utf8, "v" := Utf8], Columns, Kept);
  }

  lemma BlankRowsFit(v: Value, w: Value)
    ensures WithinLimits(BlankRows(v, w).rows, Columns, Characters)
  {
  }

  lemma BlankRowsConform(v: Value, w: Value, policy: Policy)
    ensures var a := Arrow(BlankRows(v, w), map["k" := Utf8, "v" := Utf8]);
            Conform(a, Columns, policy, Kept, Characters) == Conformed(a)
  {
    BlankTypes();
    BlankRowsCast(v, w);
    BlankRowsFit(v, w);
    assert Declares(Columns, "k") && Declares(Columns, "v") by {
      assert Columns[0].name == "k" && Columns[1].name == "v";
    }
  }

  lemma BlankKeysAreUnique(v: Value, w: Value)
    ensures UniqueKeys(BlankRows(v, w).rows, ["k"]) && NonNullKeys(BlankRows(v, w).rows, ["k"])
  {
    assert KeyOf(BlankRow("a", v), ["k"])[0] == Chars("a");
    assert KeyOf(BlankRow("a ", w), ["k"])[0] == Chars("a ");
  }

  /** Two rows keyed "a" and "a " pass the loader, conform and the key check. */
  lemma BlankKeysPass(v: Value, w: Value, lower: string -> string, policy: Policy)
    ensures ProperKey(Key.entries, Columns, lower) && EntryNames(Key.entries) == ["k"]
    ensures var a := Arrow(BlankRows(v, w), map["k" := Utf8, "v" := Utf8]);
            && Conform(a, Columns, policy, Kept, Characters) == Conformed(a)
            && EnsureUniqueKey(a, ["k"]) == Unique
  {
    assert KeyColumn(Columns, "k") by {
      assert Columns[0].name == "k" && !Columns[0].nullable && Columns[0].sqlType != DoublePrecision;
    }
    assert "k"[0] == 'k' && !IsSpace('k');
    BlankRowsConform(v, w, policy);
    BlankKeysAreUnique(v, w);
  }

  lemma BlankRowsStored(v: Value, w: Value)
    ensures FormAll(PostgresForm(Types), BlankRows(v, w).rows) == [BlankRow("a ", v), BlankRow("a ", w)]
    ensures FormAll(DuckDBForm(), BlankRows(v, w).rows) == BlankRows(v, w).rows
  {
    assert "a "[..1] == "a" && "a" + " " == "a ";
    assert Trimmed("a") == "a" && Trimmed("a ") == "a" && Padded("a", 2) == "a ";
    forall k: string, x: Value | k == "a" || k == "a "
      ensures FormRow(PostgresForm(Types), BlankRow(k, x)) == BlankRow("a ", x)
      ensures FormRow(DuckDBForm(), BlankRow(k, x)) == BlankRow(k, x)
    {
    }
  }

  lemma ReplacedByConflict(a: Row, b: Row, columns: seq<LiveColumn>, named: seq<string>, key: seq<string>)
    requires Matches(a, b, key) && Outside(named, key) != [] && a.Keys == b.Keys == ColumnSet(named) == Names(columns)
    ensures OnConflict(columns, [a], {}, [b], named, key) == Some([b])
  {
    AssignIsUpdated(a, b, named, key);
    UpdatedIsData(a, b, named, key);
    assert [b][1..] == [] && [a][0 := b] == [b];
  }

  lemma InsertedByConflict(a: Row, columns: seq<LiveColumn>, named: seq<string>, key: seq<string>)
    requires a.Keys == ColumnSet(named) == Names(columns)
    ensures OnConflict(columns, [], {}, [a], named, key) == Some([a])
  {
    StoredIsSelf(columns, named, a);
    assert [a][1..] == [] && [] + [a] == [a];
  }

  lemma OneRowAPage(a: Row, b: Row, columns: seq<LiveColumn>, named: seq<string>, key: seq<string>)
    requires OnConflict(columns, [], {}, [a], named, key) == Some([a])
    requires OnConflict(columns, [a], {}, [b], named, key) == Some([b])
    ensures Pages(columns, [], [a, b], 1, named, key) == Some([b])
  {
    assert [a, b][..1] == [a] && [a, b][1..] == [b] && [b][..1] == [b] && [b][1..] == [];
    assert Pages(columns, [a], [b], 1, named, key) == Some([b]);
  }

  lemma OnePageRefused(a: Row, b: Row, columns: seq<LiveColumn>, named: seq<string>, key: seq<string>, size: nat)
    requires size > 1 && ColumnSet(key) <= ColumnSet(named) <= Names(columns) && Outside(named, key) != []
    requires NonNullKeys([a, b], key) && KeyOf(a, key) == KeyOf(b, key)
    ensures Pages(columns, [], [a, b], size, named, key) == None
  {
    var page := [a, b];
    assert page[..2] == page && KeyOf(page[0], key) == KeyOf(page[1], key);
    RepeatedPageFails(Table(columns, key, []), named, page, key);
  }

  /** Postgres then refuses the page, or with the rows on different pages keeps only the second. */
  lemma BlankKeysOnPostgres(v: Value, w: Value, columns: seq<LiveColumn>, size: nat)
    requires Names(columns) == {"k", "v"} && size > 0
    ensures Pages(columns, [], FormAll(PostgresForm(Types), BlankRows(v, w).rows), size, ["k", "v"], ["k"])
            == if size > 1 then None else Some([BlankRow("a ", w)])
  {
    var a, b, named, key := BlankRow("a ", v), BlankRow("a ", w), ["k", "v"], ["k"];
    BlankRowsStored(v, w);
    OutsideIs(named, key);
    assert "v" in Outside(named, key);
    if size > 1 {
      OnePageRefused(a, b, columns, named, key, size);
    } else {
      InsertedByConflict(a, columns, named, key);
      ReplacedByConflict(a, b, columns, named, key);
      OneRowAPage(a, b, columns, named, key);
    }
  }

  /** DuckDB stores both. */
  lemma BlankKeysOnDuckDB(v: Value, w: Value, columns: seq<LiveColumn>)
    requires Names(columns) == {"k", "v"}
    ensures DuckMerge(columns, [], FormAll(DuckDBForm(), BlankRows(v, w).rows), ["k", "v"], ["k"])
            == BlankRows(v, w).rows
  {
    var a, b, named, key := BlankRow("a", v), BlankRow("a ", w), ["k", "v"], ["k"];
    BlankRowsStored(v, w);
    DuckStoresRepeats(Table(columns, key, []), named, a, b, key);
    StoredIsSelf(columns, named, a);
    StoredIsSelf(columns, named, b);
    var stored := DuckMerge(columns, [], [a, b], named, key);
    assert stored[0..] == stored;
  }
}
