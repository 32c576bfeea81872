/** The strict shape check on a script's result, and what it buys the write that follows. */
module Conformance {
  import opened Rows
  import opened Contract
  import opened Keys

  datatype Policy = Raise | Warn

  datatype Conformed = Conformed(table: Arrow) | ConformError

  /** The Arrow cast of one cell, None where a safe cast raises. */
  type Cast = (Value, ArrowType, ArrowType) -> Option<Value>

  function ArrowTypeOf(t: SqlType): ArrowType {
    match t
    case BigInt => Int64
    case Integer => Int32
    case DoublePrecision => Float64
    case Numeric(p, s) => Decimal128(p, s)
    case Varchar(_) => Utf8
    case Char(_) => Utf8
    case Text => Utf8
    case Timestamp => TimestampUs
    case Date => Date32
    case Boolean => Bool
  }

  predicate LossyCast(source: ArrowType, target: ArrowType) {
    || (target.Decimal128? && IsFloating(source))
    || (target.Bool? && !source.Bool?)
    || ((target.Date32? || target.OtherDate?) && (source.TimestampUs? || source.OtherTimestamp?))
  }

  predicate NoRepeats(names: seq<string>) {
    forall i, j | 0 <= i < j < |names| :: names[i] != names[j]
  }

  /** The declared columns of one row, cast; None if any cast raises. */
  function CastRow(r: Row, types: map<string, ArrowType>, columns: seq<Column>, cast: Cast): Option<Row>
    requires forall c | c in columns :: c.name in types
  {
    if columns == [] then Some(map[])
    else
      var last := columns[|columns| - 1];
      match CastRow(r, types, columns[..|columns| - 1], cast)
      case None => None
      case Some(rest) =>
        match cast(At(r, last.name), types[last.name], ArrowTypeOf(last.sqlType))
        case None => None
        case Some(v) => Some(rest[last.name := v])
  }

  function CastRows(rows: seq<Row>, types: map<string, ArrowType>, columns: seq<Column>, cast: Cast): Option<seq<Row>>
    requires forall c | c in columns :: c.name in types
  {
    if rows == [] then Some([])
    else match CastRow(rows[0], types, columns, cast)
      case None => None
      case Some(r) =>
        match CastRows(rows[1..], types, columns, cast)
        case None => None
        case Some(rest) => Some([r] + rest)
  }

  function MaxLength(t: SqlType): Option<nat> {
    match t
    case Varchar(n) => Some(n)
    case Char(n) => Some(n)
    case _ => None
  }

  predicate WithinLimits(rows: seq<Row>, columns: seq<Column>, length: Value -> nat) {
    forall c, r | c in columns && r in rows ::
      && (!c.nullable ==> At(r, c.name) != Null)
      && (MaxLength(c.sqlType).Some? && At(r, c.name) != Null ==> length(At(r, c.name)) <= MaxLength(c.sqlType).value)
  }

  function TypesOf(columns: seq<Column>): map<string, ArrowType> {
    if columns == [] then map[]
    else
      var last := columns[|columns| - 1];
      TypesOf(columns[..|columns| - 1])[last.name := ArrowTypeOf(last.sqlType)]
  }

  /** The checks of `conform`, in its order. */
  function Conform(a: Arrow, columns: seq<Column>, policy: Policy, cast: Cast, length: Value -> nat): Conformed {
    if !NoRepeats(a.data.columns) then ConformError
    else if policy == Raise && exists n | n in a.data.columns :: !Declares(columns, n) then ConformError
    else if exists c | c in columns :: c.name !in a.types then ConformError
    else if exists c | c in columns :: LossyCast(a.types[c.name], ArrowTypeOf(c.sqlType)) then ConformError
    else match CastRows(a.data.rows, a.types, columns, cast)
      case None => ConformError
      case Some(rows) =>
        if WithinLimits(rows, columns, length)
        then Conformed(Arrow(Data(DeclaredNames(columns), rows), TypesOf(columns)))
        else ConformError
  }

  lemma {:induction false} CastRowIs(r: Row, types: map<string, ArrowType>, columns: seq<Column>, cast: Cast)
    requires DistinctNames(columns) && forall c | c in columns :: c.name in types
    ensures var x := CastRow(r, types, columns, cast);
            x.Some? ==>
              && x.value.Keys == ColumnSet(DeclaredNames(columns))
              && forall c | c in columns ::
                   Some(At(x.value, c.name)) == cast(At(r, c.name), types[c.name], ArrowTypeOf(c.sqlType))
  {
    var names := DeclaredNames(columns);
    if columns != [] {
      var init, last := columns[..|columns| - 1], columns[|columns| - 1];
      CastRowIs(r, types, init, cast);
      assert names == DeclaredNames(init) + [last.name];
      assert columns == init + [last];
    }
  }

  lemma {:induction false} CastRowsAre(rows: seq<Row>, types: map<string, ArrowType>, columns: seq<Column>, cast: Cast)
    requires forall c | c in columns :: c.name in types
    ensures var x := CastRows(rows, types, columns, cast);
            x.Some? ==> |x.value| == |rows|
                        && forall i | 0 <= i < |rows| :: CastRow(rows[i], types, columns, cast) == Some(x.value[i])
  {
    if rows != [] {
      CastRowsAre(rows[1..], types, columns, cast);
    }
  }

  lemma {:induction false} TypesOfAre(columns: seq<Column>)
    requires DistinctNames(columns)
    ensures TypesOf(columns).Keys == ColumnSet(DeclaredNames(columns))
    ensures forall c | c in columns :: c.name in TypesOf(columns) && TypesOf(columns)[c.name] == ArrowTypeOf(c.sqlType)
  {
    if columns != [] {
      var init, last := columns[..|columns| - 1], columns[|columns| - 1];
      TypesOfAre(init);
      assert columns == init + [last];
      assert DeclaredNames(columns) == DeclaredNames(init) + [last.name];
      forall c | c in columns ensures c.name in TypesOf(columns) && TypesOf(columns)[c.name] == ArrowTypeOf(c.sqlType) {
        if c in init {
          var i :| 0 <= i < |init| && columns[i] == c;
          assert c.name in DeclaredNames(init) by {
            assert DeclaredNames(init)[i] == c.name;
          }
        }
      }
    }
  }

  /** A text longer than its declared column. */
  predicate TooLong(declared: SqlType, n: nat) {
    (declared.Varchar? && n > declared.length) || (declared.Char? && n > declared.length)
  }

  /** A cast Arrow calls safe that loses something all the same. */
  predicate Loses(source: ArrowType, declared: SqlType) {
    || (declared.Numeric? && source in {HalfFloat, Float32, Float64})
    || (declared.Boolean? && source != Bool)
    || (declared.Date? && (source.TimestampUs? || source.OtherTimestamp?))
  }

  /** The cell can stand in the column: it casts, to no NULL where none is allowed, to no text that is too long. */
  ghost predicate Fits(v: Value, source: ArrowType, c: Column, cast: Cast, length: Value -> nat) {
    var x := cast(v, source, ArrowTypeOf(c.sqlType));
    && x.Some? && (x.value == Null ==> c.nullable) && (x.value != Null ==> !TooLong(c.sqlType, length(x.value)))
  }

  lemma {:induction false} CastRowSucceedsIff(r: Row, types: map<string, ArrowType>, columns: seq<Column>, cast: Cast)
    requires forall c | c in columns :: c.name in types
    ensures CastRow(r, types, columns, cast).Some?
            <==> forall c | c in columns :: cast(At(r, c.name), types[c.name], ArrowTypeOf(c.sqlType)).Some?
  {
    if columns != [] {
      var init, last := columns[..|columns| - 1], columns[|columns| - 1];
      CastRowSucceedsIff(r, types, init, cast);
      assert columns == init + [last];
    }
  }

  lemma {:induction false} CastRowsSucceedIff(rows: seq<Row>, types: map<string, ArrowType>, columns: seq<Column>,
                                              cast: Cast)
    requires forall c | c in columns :: c.name in types
    ensures CastRows(rows, types, columns, cast).Some?
        <==> forall r | r in rows :: CastRow(r, types, columns, cast).Some?
  {
    if rows != [] {
      CastRowsSucceedIff(rows[1..], types, columns, cast);
      assert rows[0] in rows;
      if CastRows(rows, types, columns, cast).Some? {
        forall r | r in rows ensures CastRow(r, types, columns, cast).Some? {
          assert r == rows[0] || r in rows[1..];
        }
      } else if CastRow(rows[0], types, columns, cast).Some? {
        var r :| r in rows[1..] && CastRow(r, types, columns, cast).None?;
        assert r in rows;
      }
    }
  }

  /** The rows cast and stay within their limits exactly when every cell fits its column. */
  lemma RowsFitIff(rows: seq<Row>, types: map<string, ArrowType>, columns: seq<Column>, cast: Cast,
                   length: Value -> nat)
    requires DistinctNames(columns) && forall c | c in columns :: c.name in types
    ensures (match CastRows(rows, types, columns, cast)
             case None => false
             case Some(out) => WithinLimits(out, columns, length))
            <==> forall r, c | r in rows && c in columns :: Fits(At(r, c.name), types[c.name], c, cast, length)
  {
    CastRowsSucceedIff(rows, types, columns, cast);
    CastRowsAre(rows, types, columns, cast);
    forall r | r in rows
      ensures CastRow(r, types, columns, cast).Some?
              <==> forall c | c in columns :: cast(At(r, c.name), types[c.name], ArrowTypeOf(c.sqlType)).Some?
    {
      CastRowSucceedsIff(r, types, columns, cast);
    }
    var x := CastRows(rows, types, columns, cast);
    if x.Some? {
      forall i, c | 0 <= i < |rows| && c in columns
        ensures cast(At(rows[i], c.name), types[c.name], ArrowTypeOf(c.sqlType)) == Some(At(x.value[i], c.name))
      {
        CastRowIs(rows[i], types, columns, cast);
      }
      CastCellsFitIff(rows, x.value, types, columns, cast, length);
    }
  }

  lemma CastCellsFitIff(rows: seq<Row>, out: seq<Row>, types: map<string, ArrowType>, columns: seq<Column>, cast: Cast,
                        length: Value -> nat)
    requires forall c | c in columns :: c.name in types
    requires |out| == |rows|
    requires forall i, c | 0 <= i < |rows| && c in columns ::
               cast(At(rows[i], c.name), types[c.name], ArrowTypeOf(c.sqlType)) == Some(At(out[i], c.name))
    ensures WithinLimits(out, columns, length)
            <==> forall r, c | r in rows && c in columns :: Fits(At(r, c.name), types[c.name], c, cast, length)
  {
    if WithinLimits(out, columns, length) {
      forall r, c | r in rows && c in columns ensures Fits(At(r, c.name), types[c.name], c, cast, length) {
        var i :| 0 <= i < |rows| && rows[i] == r;
        assert out[i] in out;
      }
    }
    if forall r, c | r in rows && c in columns :: Fits(At(r, c.name), types[c.name], c, cast, length) {
      forall c, r | c in columns && r in out
        ensures (!c.nullable ==> At(r, c.name) != Null)
        ensures At(r, c.name) != Null ==> !TooLong(c.sqlType, length(At(r, c.name)))
      {
        var i :| 0 <= i < |out| && out[i] == r;
        assert rows[i] in rows;
      }
    }
  }

  /** What conform accepts, exactly: no repeated column name, no undeclared one unless they are dropped, every
      declared one there in a type it can come from without loss, and every cell fit for its column. */
  lemma ConformsIff(a: Arrow, columns: seq<Column>, policy: Policy, cast: Cast, length: Value -> nat)
    requires DistinctNames(columns)
    ensures Conform(a, columns, policy, cast, length).Conformed?
            <==> && (forall i, j | 0 <= i < j < |a.data.columns| :: a.data.columns[i] != a.data.columns[j])
                 && (policy == Raise ==>
                       forall n | n in a.data.columns :: exists c | c in columns :: c.name == n)
                 && (forall c | c in columns :: c.name in a.types && !Loses(a.types[c.name], c.sqlType))
                 && (forall r, c | r in a.data.rows && c in columns ::
                       Fits(At(r, c.name), a.types[c.name], c, cast, length))
  {
    forall n ensures Declares(columns, n) <==> exists c | c in columns :: c.name == n {
      if c :| c in columns && c.name == n {
        var k :| 0 <= k < |columns| && columns[k] == c;
      }
      if Declares(columns, n) {
        var k :| 0 <= k < |columns| && columns[k].name == n;
        assert columns[k] in columns;
      }
    }
    assert forall source: ArrowType, t: SqlType :: LossyCast(source, ArrowTypeOf(t)) <==> Loses(source, t);
    if forall c | c in columns :: c.name in a.types {
      RowsFitIff(a.data.rows, a.types, columns, cast, length);
    }
  }

  lemma ConformedStaysWithin(a: Arrow, columns: seq<Column>, policy: Policy, cast: Cast, length: Value -> nat)
    requires Conform(a, columns, policy, cast, length).Conformed?
    ensures var t := Conform(a, columns, policy, cast, length).table;
            forall r, c | r in t.data.rows && c in columns ::
              && (!c.nullable ==> At(r, c.name) != Null)
              && (At(r, c.name) != Null ==> !TooLong(c.sqlType, length(At(r, c.name))))
  {
  }

  /** A conformed table has the declared columns in the declared order and types, one row per input
      row, each cell the cast of the input's, and no NULL where none is allowed. */
  lemma ConformedTable(a: Arrow, columns: seq<Column>, policy: Policy, cast: Cast, length: Value -> nat)
    requires DistinctNames(columns) && Conform(a, columns, policy, cast, length).Conformed?
    ensures var t := Conform(a, columns, policy, cast, length).table;
            && t.Valid() && t.data.columns == DeclaredNames(columns) && |t.data.rows| == |a.data.rows|
            && (forall c | c in columns ::
                  c.name in t.types && t.types[c.name] == ArrowTypeOf(c.sqlType) && c.name in a.types)
            && (forall i, c | 0 <= i < |t.data.rows| && c in columns ::
                  Some(At(t.data.rows[i], c.name))
                  == cast(At(a.data.rows[i], c.name), a.types[c.name], ArrowTypeOf(c.sqlType)))
            && (forall r, c | r in t.data.rows && c in columns && !c.nullable :: At(r, c.name) != Null)
            && (forall r, c | r in t.data.rows && c in columns && At(r, c.name) != Null ::
                  !TooLong(c.sqlType, length(At(r, c.name))))
  {
    ConformedStaysWithin(a, columns, policy, cast, length);
    TypesOfAre(columns);
    CastRowsAre(a.data.rows, a.types, columns, cast);
    var t := Conform(a, columns, policy, cast, length).table;
    forall i | 0 <= i < |t.data.rows|
      ensures t.data.rows[i].Keys == ColumnSet(DeclaredNames(columns))
      ensures forall c | c in columns ::
                Some(At(t.data.rows[i], c.name))
                    == cast(At(a.data.rows[i], c.name), a.types[c.name], ArrowTypeOf(c.sqlType))
    {
      CastRowIs(a.data.rows[i], a.types, columns, cast);
    }
    assert t.data.Valid();
  }

  /** For a key the loader accepted and rows conform returned, the key check can only find the rows
      unique or repeated: its ValueErrors are unreachable, no key is NULL, and the engine's preconditions hold. */
  lemma LoaderAndConformSupplyTheKey(raw: RawKey, columns: seq<Column>, lower: string -> string,
                                     a: Arrow, policy: Policy, cast: Cast, length: Value -> nat)
    requires DistinctNames(columns) && raw.Listed? && ProperKey(raw.entries, columns, lower)
    requires Conform(a, columns, policy, cast, length).Conformed?
    ensures var t, key := Conform(a, columns, policy, cast, length).table, EntryNames(raw.entries);
            && EnsureUniqueKey(t, key) != ValueError
            && ColumnSet(key) <= ColumnSet(t.data.columns) && key != []
            && NonNullKeys(t.data.rows, key)
            && (EnsureUniqueKey(t, key) == Unique <==> Keyed(t.data.rows, key))
  {
    var t, key := Conform(a, columns, policy, cast, length).table, EntryNames(raw.entries);
    KeyIsUsable(raw, columns, lower, a, policy, cast, length);
    assert raw.entries[0] in raw.entries && key != [];
  }

  lemma KeyIsUsable(raw: RawKey, columns: seq<Column>, lower: string -> string,
                    a: Arrow, policy: Policy, cast: Cast, length: Value -> nat)
    requires DistinctNames(columns) && raw.Listed? && ProperKey(raw.entries, columns, lower)
    requires Conform(a, columns, policy, cast, length).Conformed?
    ensures var t, key := Conform(a, columns, policy, cast, length).table, EntryNames(raw.entries);
            && t.Valid()
            && forall c | c in key :: c in t.data.columns && c in t.types && !IsFloating(t.types[c])
                                      && forall r | r in t.data.rows :: At(r, c) != Null
  {
    var t, key := Conform(a, columns, policy, cast, length).table, EntryNames(raw.entries);
    ConformedTable(a, columns, policy, cast, length);
    forall c | c in key
      ensures c in t.data.columns && c in t.types && !IsFloating(t.types[c])
      ensures forall r | r in t.data.rows :: At(r, c) != Null
    {
      var column := KeyIsDeclared(raw, columns, lower, c);
      assert t.types[column.name] == ArrowTypeOf(column.sqlType);
    }
  }

  lemma KeyIsDeclared(raw: RawKey, columns: seq<Column>, lower: string -> string, c: string) returns (column: Column)
    requires raw.Listed? && ProperKey(raw.entries, columns, lower) && c in EntryNames(raw.entries)
    ensures column in columns && column.name == c && !column.nullable && column.sqlType != DoublePrecision
    ensures c in DeclaredNames(columns)
  {
    var i :| 0 <= i < |raw.entries| && EntryNames(raw.entries)[i] == c;
    assert raw.entries[i] in raw.entries;
    var k :| 0 <= k < |columns| && columns[k].name == c && !columns[k].nullable
        && columns[k].sqlType != DoublePrecision;
    assert DeclaredNames(columns)[k] == c;
    column := columns[k];
  }
}
