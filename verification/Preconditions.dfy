/** What the checks before a write add up to, engine by engine. An engine resolves a column name through its own
    folding: the identity on Postgres, lower case on Trino, ASCII case on DuckDB. */
module Preconditions {
  import opened Rows
  import opened Contract
  import opened Keys
  import opened Conformance
  import opened Shape
  import opened Order
  import opened Mechanisms

  // --- names as the engine resolves them ----------------------------------

  /** The live column the engine takes `name` for; `name` itself when there is none. */
  function Resolved(live: seq<LiveColumn>, name: string, engine: Folding): string {
    match FirstFolded(live, name, engine)
    case None => name
    case Some(i) => live[i].name
  }

  function ResolvedNames(live: seq<LiveColumn>, names: seq<string>, engine: Folding): seq<string> {
    seq(|names|, i requires 0 <= i < |names| => Resolved(live, names[i], engine))
  }

  /** The named column whose cell a live column gets. */
  function Source(names: seq<string>, column: string, engine: Folding): string {
    if names == [] then column
    else if engine(names[0]) == engine(column) then names[0]
    else Source(names[1..], column, engine)
  }

  /** A row re-keyed from the declared names to the live ones. */
  function ResolvedRow(live: seq<LiveColumn>, names: seq<string>, r: Row, engine: Folding): Row {
    map c | c in ColumnSet(ResolvedNames(live, names, engine)) :: At(r, Source(names, c, engine))
  }

  function ResolvedData(live: seq<LiveColumn>, d: Data, engine: Folding): Data {
    Data(ResolvedNames(live, d.columns, engine),
         seq(|d.rows|, i requires 0 <= i < |d.rows| => ResolvedRow(live, d.columns, d.rows[i], engine)))
  }

  /** Whether the engine takes these rows: every name resolves, and no NOT NULL column gets a NULL. */
  predicate Takes(live: seq<LiveColumn>, d: Data, engine: Folding) {
    Accepts(live, ResolvedData(live, d, engine).columns, ResolvedData(live, d, engine).rows)
  }

  ghost predicate DistinctUpTo(names: seq<string>, engine: Folding) {
    forall i, j | 0 <= i < j < |names| :: engine(names[i]) != engine(names[j])
  }

  ghost predicate AllResolve(columns: seq<Column>, live: seq<LiveColumn>, engine: Folding) {
    forall d | d in columns :: exists l | l in live :: engine(l.name) == engine(d.name)
  }

  /** Every NOT NULL live column is some declared non-nullable one. */
  ghost predicate NoTighter(columns: seq<Column>, live: seq<LiveColumn>, engine: Folding) {
    forall l | l in live && !l.nullable :: exists d | d in columns :: engine(d.name) == engine(l.name) && !d.nullable
  }

  /** Rows of the declared columns, without NULLs where none are allowed: what `conform` lets through. */
  ghost predicate FitsDeclared(columns: seq<Column>, d: Data) {
    && d.columns == DeclaredNames(columns)
    && forall r, c | r in d.rows && c in columns && !c.nullable :: At(r, c.name) != Null
  }

  lemma {:induction false} SourceIs(names: seq<string>, column: string, engine: Folding)
    ensures (exists n | n in names :: engine(n) == engine(column)) ==>
              Source(names, column, engine) in names && engine(Source(names, column, engine)) == engine(column)
  {
    if names != [] {
      assert names == [names[0]] + names[1..];
      SourceIs(names[1..], column, engine);
    }
  }

  lemma SourceIsUnique(names: seq<string>, n: string, column: string, engine: Folding)
    requires DistinctUpTo(names, engine) && n in names && engine(n) == engine(column)
    ensures Source(names, column, engine) == n
  {
    SourceIs(names, column, engine);
    var s := Source(names, column, engine);
    var i :| 0 <= i < |names| && names[i] == n;
    var j :| 0 <= j < |names| && names[j] == s;
    assert i == j;
  }

  lemma ResolvesTo(live: seq<LiveColumn>, l: LiveColumn, name: string, engine: Folding)
    requires DistinctUpTo(LiveNames(live), engine) && l in live && engine(l.name) == engine(name)
    ensures Resolved(live, name, engine) == l.name
  {
    var i := FirstFolded(live, name, engine).value;
    var k :| 0 <= k < |live| && live[k] == l;
    assert LiveNames(live)[i] == live[i].name && LiveNames(live)[k] == l.name;
  }

  lemma NamesResolve(columns: seq<Column>, live: seq<LiveColumn>, engine: Folding)
    ensures AllResolve(columns, live, engine)
            <==> ColumnSet(ResolvedNames(live, DeclaredNames(columns), engine)) <= Names(live)
  {
    var names := DeclaredNames(columns);
    var resolved := ResolvedNames(live, names, engine);
    if AllResolve(columns, live, engine) {
      forall c | c in resolved ensures c in Names(live) {
        var i :| 0 <= i < |resolved| && resolved[i] == c;
        assert columns[i] in columns;
      }
    }
    if ColumnSet(resolved) <= Names(live) {
      forall d | d in columns ensures exists l | l in live :: engine(l.name) == engine(d.name) {
        var i :| 0 <= i < |columns| && columns[i] == d;
        assert names[i] == d.name && resolved[i] in ColumnSet(resolved);
        var k :| 0 <= k < |live| && live[k].name == resolved[i];
        assert live[k] in live;
      }
    }
  }

  /** A live column's cell comes from the declared column that resolves to it. */
  lemma CellOf(columns: seq<Column>, live: seq<LiveColumn>, l: LiveColumn, d: Column, r: Row, engine: Folding)
    requires DistinctUpTo(LiveNames(live), engine) && DistinctUpTo(DeclaredNames(columns), engine)
    requires l in live && d in columns && engine(d.name) == engine(l.name)
    ensures var names := DeclaredNames(columns);
            var resolved := ResolvedNames(live, names, engine);
            At(Stored(live, resolved, ResolvedRow(live, names, r, engine)), l.name) == At(r, d.name)
  {
    var names := DeclaredNames(columns);
    var i :| 0 <= i < |columns| && columns[i] == d;
    assert names[i] == d.name;
    ResolvesTo(live, l, d.name, engine);
    assert ResolvedNames(live, names, engine)[i] == l.name;
    SourceIsUnique(names, d.name, l.name, engine);
    var k :| 0 <= k < |live| && live[k] == l;
  }

  lemma TakesFitting(columns: seq<Column>, live: seq<LiveColumn>, d: Data, engine: Folding)
    requires DistinctUpTo(LiveNames(live), engine) && DistinctUpTo(DeclaredNames(columns), engine)
    requires AllResolve(columns, live, engine) && NoTighter(columns, live, engine) && FitsDeclared(columns, d)
    ensures Takes(live, d, engine)
  {
    NamesResolve(columns, live, engine);
    var rd := ResolvedData(live, d, engine);
    forall s, l | s in rd.rows && l in live && !l.nullable ensures At(Stored(live, rd.columns, s), l.name) != Null {
      var i :| 0 <= i < |rd.rows| && rd.rows[i] == s;
      var c :| c in columns && engine(c.name) == engine(l.name) && !c.nullable;
      assert d.rows[i] in d.rows;
      CellOf(columns, live, l, c, d.rows[i], engine);
    }
  }

  /** NULL wherever it is allowed. */
  function Sparsest(columns: seq<Column>): Row {
    map n | n in DeclaredNames(columns) ::
      if exists c | c in columns :: c.name == n && !c.nullable then Cell(0) else Null
  }

  lemma SparsestFits(columns: seq<Column>)
    ensures FitsDeclared(columns, Data(DeclaredNames(columns), [Sparsest(columns)]))
  {
    forall c | c in columns && !c.nullable ensures At(Sparsest(columns), c.name) != Null {
      var i :| 0 <= i < |columns| && columns[i] == c;
      assert DeclaredNames(columns)[i] == c.name;
    }
  }

  lemma TakenMeansNoTighter(columns: seq<Column>, live: seq<LiveColumn>, engine: Folding)
    requires Takes(live, Data(DeclaredNames(columns), [Sparsest(columns)]), engine)
    ensures NoTighter(columns, live, engine)
  {
    var names, r := DeclaredNames(columns), Sparsest(columns);
    var rd := ResolvedData(live, Data(names, [r]), engine);
    var s := ResolvedRow(live, names, r, engine);
    assert rd.rows == [s] && s in rd.rows;
    forall l | l in live && !l.nullable
        ensures exists d | d in columns :: engine(d.name) == engine(l.name) && !d.nullable {
      assert At(Stored(live, rd.columns, s), l.name) != Null;
      var k :| 0 <= k < |live| && live[k] == l;
      var n := Source(names, l.name, engine);
      assert At(r, n) != Null;
      var c :| c in columns && c.name == n && !c.nullable;
      var i :| 0 <= i < |rd.columns| && rd.columns[i] == l.name;
      assert engine(names[i]) == engine(l.name) && names[i] in names;
      SourceIs(names, l.name, engine);
    }
  }

  /** Exactly when an engine takes everything `conform` can let through, a condition on the two column lists. */
  lemma TakesEveryRowIff(columns: seq<Column>, live: seq<LiveColumn>, engine: Folding)
    requires DistinctUpTo(LiveNames(live), engine) && DistinctUpTo(DeclaredNames(columns), engine)
    ensures (forall d | FitsDeclared(columns, d) :: Takes(live, d, engine))
            <==> AllResolve(columns, live, engine) && NoTighter(columns, live, engine)
  {
    if forall d | FitsDeclared(columns, d) :: Takes(live, d, engine) {
      var sparse := Data(DeclaredNames(columns), [Sparsest(columns)]);
      SparsestFits(columns);
      assert Takes(live, sparse, engine);
      NamesResolve(columns, live, engine);
      TakenMeansNoTighter(columns, live, engine);
    }
    if AllResolve(columns, live, engine) && NoTighter(columns, live, engine) {
      forall d | FitsDeclared(columns, d) ensures Takes(live, d, engine) {
        TakesFitting(columns, live, d, engine);
      }
    }
  }

  // --- what the shape check supplies --------------------------------------

  lemma LiveOf(live: seq<LiveColumn>, paired: seq<LiveColumn>, l: LiveColumn) returns (k: nat)
    requires multiset(paired) == multiset(live) && l in live
    ensures k < |paired| && paired[k] == l
  {
    assert l in multiset(paired);
    k :| 0 <= k < |paired| && paired[k] == l;
  }

  lemma OnceOnly(live: seq<LiveColumn>, i: nat, engine: Folding)
    requires DistinctUpTo(LiveNames(live), engine) && i < |live|
    ensures multiset(live)[live[i]] == 1
  {
    RemoveFromMultiset(live, i);
    forall j | 0 <= j < |RemoveAt(live, i)| ensures RemoveAt(live, i)[j] != live[i] {
      var k := if j < i then j else j + 1;
      assert RemoveAt(live, i)[j] == live[k] && LiveNames(live)[k] == live[k].name
          && LiveNames(live)[i] == live[i].name;
    }
  }

  lemma TwiceThere(paired: seq<LiveColumn>, i: nat, j: nat)
    requires i < j < |paired|
    ensures paired[i] == paired[j] ==> multiset(paired)[paired[i]] > 1
  {
    RemoveFromMultiset(paired, i);
    assert RemoveAt(paired, i)[j - 1] == paired[j];
    assert paired[j] in multiset(RemoveAt(paired, i));
  }

  lemma PairedDistinct(live: seq<LiveColumn>, paired: seq<LiveColumn>, engine: Folding)
    requires DistinctUpTo(LiveNames(live), engine) && multiset(paired) == multiset(live)
    ensures DistinctUpTo(LiveNames(paired), engine)
  {
    forall i, j | 0 <= i < j < |paired| ensures engine(paired[i].name) != engine(paired[j].name) {
      assert paired[i] in multiset(live) && paired[j] in multiset(live);
      var a :| 0 <= a < |live| && live[a] == paired[i];
      var b :| 0 <= b < |live| && live[b] == paired[j];
      assert LiveNames(live)[a] == live[a].name && LiveNames(live)[b] == live[b].name;
      OnceOnly(live, a, engine);
      TwiceThere(paired, i, j);
    }
  }

  /** No declared name is equal to a live one only for the check. */
  ghost predicate EngineFollows(columns: seq<Column>, live: seq<LiveColumn>, fold: Folding, engine: Folding) {
    forall d, l | d in columns && l in live && fold(d.name) == fold(l.name) :: engine(d.name) == engine(l.name)
  }

  /** Where the engine takes for equal every declared and live name the check does, an open gate is all it takes. */
  lemma GateSuffices(columns: seq<Column>, live: seq<LiveColumn>, fold: Folding, engine: Folding)
    requires DistinctUpTo(LiveNames(live), engine) && Compare(columns, live, fold).Empty()
    requires EngineFollows(columns, live, fold, engine)
    ensures DistinctUpTo(DeclaredNames(columns), engine)
    ensures AllResolve(columns, live, engine) && NoTighter(columns, live, engine)
  {
    var paired := EmptyDiffIsBijection(columns, live, fold);
    PairedDistinct(live, paired, engine);
    forall k | 0 <= k < |columns|
      ensures paired[k] in live && engine(paired[k].name) == engine(columns[k].name) {
      assert paired[k] in multiset(live) && columns[k] in columns;
    }
    forall i, j | 0 <= i < j < |columns| ensures engine(columns[i].name) != engine(columns[j].name) {
      assert LiveNames(paired)[i] == paired[i].name && LiveNames(paired)[j] == paired[j].name;
    }
    forall d | d in columns ensures exists l | l in live :: engine(l.name) == engine(d.name) {
      var k :| 0 <= k < |columns| && columns[k] == d;
      assert paired[k] in live;
    }
    forall l | l in live && !l.nullable
        ensures exists d | d in columns :: engine(d.name) == engine(l.name) && !d.nullable {
      var k := LiveOf(live, paired, l);
      assert columns[k] in columns;
    }
  }

  /** One pair of names the check takes for equal and the engine does not: the gate opens, and the engine refuses
      every write. */
  lemma OpenGateRefused(a: string, b: string, nullable: bool, fold: Folding, engine: Folding, d: Data)
    requires fold(a) == fold(b) && engine(a) != engine(b)
    ensures var columns, live := [Column(a, "TEXT", Text, nullable)], [LiveColumn(b, nullable)];
            && Compare(columns, live, fold).Empty()
            && (d.columns == DeclaredNames(columns) ==> !Takes(live, d, engine))
  {
    var columns, live := [Column(a, "TEXT", Text, nullable)], [LiveColumn(b, nullable)];
    assert Pick(live, a, fold) == Some(0);
    assert RemoveAt(live, 0) == [] && columns[1..] == [];
    if d.columns == DeclaredNames(columns) {
      assert FirstFolded(live, a, engine) == None;
      assert ResolvedNames(live, d.columns, engine)[0] == a;
      assert a !in Names(live);
    }
  }

  // --- the three engines' foldings ----------------------------------------

  predicate Ascii(s: string) {
    forall c | c in s :: c as int < 128
  }

  function AsciiLowerOf(c: char): char {
    if 'A' <= c <= 'Z' then (c as int + 32) as char else c
  }

  /** DuckDB's folding: ASCII letters only. */
  function AsciiLower(s: string): string {
    seq(|s|, i requires 0 <= i < |s| => AsciiLowerOf(s[i]))
  }

  /** On ASCII names, where the check's folding and the engine's both lower ASCII letters, as DuckDB's and Trino's
      do, an open gate is all it takes. */
  lemma GateSufficesForAsciiNames(columns: seq<Column>, live: seq<LiveColumn>, fold: Folding, engine: Folding)
    requires forall s | Ascii(s) :: fold(s) == AsciiLower(s) && engine(s) == AsciiLower(s)
    requires (forall d | d in columns :: Ascii(d.name)) && (forall l | l in live :: Ascii(l.name))
    requires DistinctUpTo(LiveNames(live), engine) && Compare(columns, live, fold).Empty()
    ensures DistinctUpTo(DeclaredNames(columns), engine)
    ensures AllResolve(columns, live, engine) && NoTighter(columns, live, engine)
  {
    GateSuffices(columns, live, fold, engine);
  }

  /** Beyond ASCII it is not: U+00C9 and U+00E9 differ in case only, and DuckDB keeps them apart. */
  lemma DuckDBKeepsAccentsApart(fold: Folding, d: Data)
    requires fold("\U{C9}") == fold("\U{E9}") && d.columns == ["\U{C9}"]
    ensures var columns, live := [Column("\U{C9}", "TEXT", Text, true)], [LiveColumn("\U{E9}", true)];
            Compare(columns, live, fold).Empty() && !Takes(live, d, AsciiLower)
  {
    assert AsciiLower("\U{C9}")[0] != AsciiLower("\U{E9}")[0];
    OpenGateRefused("\U{C9}", "\U{E9}", true, fold, AsciiLower, d);
    assert DeclaredNames([Column("\U{C9}", "TEXT", Text, true)]) == ["\U{C9}"];
  }

  /** The engine tells apart at least what the check does. */
  ghost predicate Finer(engine: Folding, fold: Folding) {
    forall a, b | engine(a) == engine(b) :: fold(a) == fold(b)
  }

  function Images(names: seq<string>, engine: Folding): set<string> {
    set n | n in names :: engine(n)
  }

  lemma {:induction false} DistinctImages(names: seq<string>, engine: Folding)
    requires DistinctUpTo(names, engine)
    ensures |Images(names, engine)| == |names|
  {
    if names != [] {
      var init, last := names[..|names| - 1], names[|names| - 1];
      DistinctImages(init, engine);
      assert names == init + [last];
      assert engine(last) !in Images(init, engine);
      assert Images(names, engine) == Images(init, engine) + {engine(last)};
    }
  }

  lemma SameSize<T>(a: set<T>, b: set<T>)
    requires a <= b && |a| == |b|
    ensures a == b
  {
    assert b == a + (b - a) && |b| == |a| + |b - a|;
  }

  /** As many declared columns as live ones, all resolving, each to its own: every live column is resolved to. */
  lemma EveryLiveIsNamed(columns: seq<Column>, live: seq<LiveColumn>, l: LiveColumn, engine: Folding)
      returns (d: Column)
    requires DistinctUpTo(LiveNames(live), engine) && DistinctUpTo(DeclaredNames(columns), engine)
    requires AllResolve(columns, live, engine) && |columns| == |live| && l in live
    ensures d in columns && engine(d.name) == engine(l.name)
  {
    var a, b := Images(DeclaredNames(columns), engine), Images(LiveNames(live), engine);
    DistinctImages(DeclaredNames(columns), engine);
    DistinctImages(LiveNames(live), engine);
    forall x | x in a ensures x in b {
      var i :| 0 <= i < |columns| && engine(columns[i].name) == x;
      assert columns[i] in columns;
      var m :| m in live && engine(m.name) == x;
      var k :| 0 <= k < |live| && live[k] == m;
      assert LiveNames(live)[k] == m.name;
    }
    SameSize(a, b);
    var k :| 0 <= k < |live| && live[k] == l;
    assert LiveNames(live)[k] == l.name && engine(l.name) in a;
    var i :| 0 <= i < |columns| && engine(columns[i].name) == engine(l.name);
    d := columns[i];
  }

  /** On an engine that folds less than the check, and a table uniform up to the check's folding, an open gate
      leaves exactly one thing to ask: that every declared name resolves. */
  lemma GateOnAFinerEngine(columns: seq<Column>, live: seq<LiveColumn>, fold: Folding, engine: Folding)
    requires DistinctUpTo(LiveNames(live), engine) && DistinctUpTo(DeclaredNames(columns), engine)
    requires Finer(engine, fold) && Uniform(live, fold) && Compare(columns, live, fold).Empty()
    ensures (forall d | FitsDeclared(columns, d) :: Takes(live, d, engine)) <==> AllResolve(columns, live, engine)
  {
    TakesEveryRowIff(columns, live, engine);
    if AllResolve(columns, live, engine) {
      var paired := EmptyDiffIsBijection(columns, live, fold);
      assert |multiset(paired)| == |paired| && |multiset(live)| == |live|;
      forall l | l in live && !l.nullable
          ensures exists d | d in columns :: engine(d.name) == engine(l.name) && !d.nullable {
        var d := EveryLiveIsNamed(columns, live, l, engine);
        var i :| 0 <= i < |columns| && columns[i] == d;
        assert paired[i] in multiset(live);
        assert paired[i] in live && fold(paired[i].name) == fold(l.name);
      }
    }
  }

  // --- Postgres, which takes names as they are ----------------------------

  function Exactly(name: string): string {
    name
  }

  lemma LiveIsDeclared(columns: seq<Column>, live: seq<LiveColumn>, paired: seq<LiveColumn>)
    requires ExactPairs(columns, paired) && multiset(paired) == multiset(live)
    ensures ColumnSet(DeclaredNames(columns)) == Names(live)
    ensures forall col | col in live :: exists c | c in columns :: c.name == col.name && c.nullable == col.nullable
  {
    forall col | col in live ensures exists c | c in columns :: c.name == col.name && c.nullable == col.nullable {
      var k := LiveOf(live, paired, col);
      assert columns[k] in columns;
    }
    forall n ensures n in ColumnSet(DeclaredNames(columns)) <==> n in Names(live) {
      if n in DeclaredNames(columns) {
        var k :| 0 <= k < |columns| && DeclaredNames(columns)[k] == n;
        assert paired[k] in multiset(live);
        var i :| 0 <= i < |live| && live[i] == paired[k];
      }
      if n in Names(live) {
        var i :| 0 <= i < |live| && live[i].name == n;
        assert live[i] in live;
        var c :| c in columns && c.name == n;
        var k :| 0 <= k < |columns| && columns[k] == c;
        assert DeclaredNames(columns)[k] == n;
      }
    }
  }

  lemma NamesOccur(columns: seq<Column>, live: seq<LiveColumn>)
    ensures AllOccur(columns, live) <==> ColumnSet(DeclaredNames(columns)) <= Names(live)
  {
    if ColumnSet(DeclaredNames(columns)) <= Names(live) {
      forall c | c in columns ensures exists l | l in live :: l.name == c.name {
        var k :| 0 <= k < |columns| && columns[k] == c;
        assert DeclaredNames(columns)[k] == c.name && c.name in ColumnSet(DeclaredNames(columns));
        var i :| 0 <= i < |live| && live[i].name == c.name;
        assert live[i] in live;
      }
    }
    if AllOccur(columns, live) {
      forall n | n in DeclaredNames(columns) ensures n in Names(live) {
        var k :| 0 <= k < |columns| && DeclaredNames(columns)[k] == n;
        assert columns[k] in columns;
        var l :| l in live && l.name == n;
      }
    }
  }

  lemma ExactRowsAreAccepted(columns: seq<Column>, live: seq<LiveColumn>, d: Data, fold: Folding)
    requires DistinctNames(columns) && AllOccur(columns, live) && Compare(columns, live, fold).Empty()
    requires FitsDeclared(columns, d)
    ensures Accepts(live, d.columns, d.rows)
  {
    var paired := EmptyDiffIsExact(columns, live, fold);
    LiveIsDeclared(columns, live, paired);
    forall s, col | s in d.rows && col in live && !col.nullable
        ensures At(Stored(live, d.columns, s), col.name) != Null {
      var c :| c in columns && c.name == col.name && c.nullable == col.nullable;
      var k :| 0 <= k < |live| && live[k] == col;
      assert col.name in Names(live) && col.name in ColumnSet(d.columns);
    }
  }

  /** Rows `conform` let through and a table the shape check let through: Postgres takes the rows iff every
      declared name occurs in the table letter for letter. */
  lemma ConformedRowsAreAcceptedIff(a: Arrow, columns: seq<Column>, policy: Policy, cast: Cast, length: Value -> nat,
                                    live: seq<LiveColumn>, fold: Folding)
    requires DistinctNames(columns) && Conform(a, columns, policy, cast, length).Conformed?
    requires Compare(columns, live, fold).Empty()
    ensures var d := Conform(a, columns, policy, cast, length).table.data;
            Accepts(live, d.columns, d.rows) <==> AllOccur(columns, live)
  {
    ConformedTable(a, columns, policy, cast, length);
    NamesOccur(columns, live);
    if AllOccur(columns, live) {
      ExactRowsAreAccepted(columns, live, Conform(a, columns, policy, cast, length).table.data, fold);
    }
  }

  /** Letter-for-letter names are enough on every engine. */
  lemma GateSufficesForExactNames(columns: seq<Column>, live: seq<LiveColumn>, fold: Folding, engine: Folding)
    requires DistinctNames(columns) && AllOccur(columns, live) && Compare(columns, live, fold).Empty()
    ensures AllResolve(columns, live, engine) && NoTighter(columns, live, engine)
  {
    var paired := EmptyDiffIsExact(columns, live, fold);
    LiveIsDeclared(columns, live, paired);
    forall d | d in columns ensures exists l | l in live :: engine(l.name) == engine(d.name) {
      var l :| l in live && l.name == d.name;
    }
  }

  /** The gate opens for `Rate` on a table with `rate`; Postgres then has no such column, whatever the rows. */
  lemma OpenGateCanBeRefused(fold: Folding, d: Data)
    requires fold("Rate") == fold("rate") && d.columns == ["Rate"]
    ensures var columns, live := [Column("Rate", "TEXT", Text, true)], [LiveColumn("rate", true)];
            Compare(columns, live, fold).Empty() && !Accepts(live, d.columns, d.rows)
  {
    assert "Rate"[0] != "rate"[0];
    OpenGateRefused("Rate", "rate", true, fold, Exactly, d);
    assert DeclaredNames([Column("Rate", "TEXT", Text, true)]) == ["Rate"];
    assert "Rate" in ColumnSet(d.columns) && "Rate" !in Names([LiveColumn("rate", true)]);
  }

  lemma {:induction false} SourceOfNamed(names: seq<string>, n: string)
    requires n in names
    ensures Source(names, n, Exactly) == n
  {
    if names[0] != n {
      SourceOfNamed(names[1..], n);
    }
  }

  /** Resolving names exactly changes nothing. */
  lemma ExactlyIsItself(live: seq<LiveColumn>, d: Data)
    requires d.Valid()
    ensures ResolvedData(live, d, Exactly) == d
  {
    assert ResolvedNames(live, d.columns, Exactly) == d.columns;
    forall i | 0 <= i < |d.rows| ensures ResolvedRow(live, d.columns, d.rows[i], Exactly) == d.rows[i] {
      var r := d.rows[i];
      assert r in d.rows;
      forall c | c in r ensures ResolvedRow(live, d.columns, r, Exactly)[c] == r[c] {
        SourceOfNamed(d.columns, c);
      }
    }
  }

  // --- the whole chain ----------------------------------------------------

  lemma ResolvedKey(live: seq<LiveColumn>, names: seq<string>, key: seq<string>, r: Row, engine: Folding)
    requires DistinctUpTo(names, engine) && ColumnSet(key) <= ColumnSet(names)
    ensures KeyOf(ResolvedRow(live, names, r, engine), ResolvedNames(live, key, engine)) == KeyOf(r, key)
  {
    forall i | 0 <= i < |key|
        ensures At(ResolvedRow(live, names, r, engine), Resolved(live, key[i], engine)) == At(r, key[i]) {
      assert key[i] in ColumnSet(key);
      var k :| 0 <= k < |names| && names[k] == key[i];
      assert ResolvedNames(live, names, engine)[k] == Resolved(live, key[i], engine);
      SourceIsUnique(names, key[i], Resolved(live, key[i], engine), engine);
    }
  }

  lemma ResolvedDataKeys(live: seq<LiveColumn>, d: Data, key: seq<string>, engine: Folding)
    requires DistinctUpTo(d.columns, engine) && ColumnSet(key) <= ColumnSet(d.columns) && NonNullKeys(d.rows, key)
    ensures var rd, rk := ResolvedData(live, d, engine), ResolvedNames(live, key, engine);
            && ColumnSet(rk) <= ColumnSet(rd.columns) && NonNullKeys(rd.rows, rk)
            && (UniqueKeys(rd.rows, rk) <==> UniqueKeys(d.rows, key))
  {
    var rd, rk := ResolvedData(live, d, engine), ResolvedNames(live, key, engine);
    forall i | 0 <= i < |rd.rows| ensures KeyOf(rd.rows[i], rk) == KeyOf(d.rows[i], key) {
      ResolvedKey(live, d.columns, key, d.rows[i], engine);
    }
    forall r, c | r in rd.rows && c in rk ensures At(r, c) != Null {
      var i :| 0 <= i < |rd.rows| && rd.rows[i] == r;
      var k :| 0 <= k < |rk| && rk[k] == c;
      assert KeyOf(r, rk)[k] == KeyOf(d.rows[i], key)[k];
      assert d.rows[i] in d.rows && key[k] in key;
    }
    forall c | c in rk ensures c in rd.columns {
      var k :| 0 <= k < |rk| && rk[k] == c;
      assert key[k] in ColumnSet(key);
      var m :| 0 <= m < |d.columns| && d.columns[m] == key[k];
      assert rd.columns[m] == c;
    }
  }

  /** Rows with NULLs where the engine takes them still have them once stored. */
  lemma FormKeepsAccepted(live: seq<LiveColumn>, d: Data, form: Form)
    requires IsForm(form) && Accepts(live, d.columns, d.rows) && d.Valid()
    ensures Accepts(live, d.columns, FormAll(form, d.rows))
  {
    var f := FormAll(form, d.rows);
    forall s, col | s in f && col in live && !col.nullable ensures At(Stored(live, d.columns, s), col.name) != Null {
      var i :| 0 <= i < |f| && f[i] == s;
      assert d.rows[i] in d.rows;
      assert At(Stored(live, d.columns, d.rows[i]), col.name) != Null;
      var k :| 0 <= k < |live| && live[k] == col;
      assert col.name in Names(live);
    }
  }

  lemma ResolvedIsValid(live: seq<LiveColumn>, d: Data, engine: Folding)
    ensures ResolvedData(live, d, engine).Valid()
  {
  }

  /** The whole chain, for an upsert node on an engine that resolves the declared names to columns no tighter
      than declared (see GateSuffices, GateSufficesForExactNames and GateOnAFinerEngine for when the shape check
      supplies that). Loader, conform and key check then leave the engine rows it takes, and all three mechanisms,
      at any page size, perform the same pure upsert of the resolved rows as they are stored: whenever the keys are
      distinct as stored, and so whenever the engine keeps the values of the key columns apart. With something to
      overwrite, they do so only then. */
  lemma ChecksMakeTheWriteSafe(raw: RawKey, columns: seq<Column>, lower: string -> string, a: Arrow, policy: Policy,
                               cast: Cast, length: Value -> nat, t: Table, engine: Folding, size: nat, form: Form)
    requires DistinctNames(columns) && raw.Listed? && ProperKey(raw.entries, columns, lower)
    requires Conform(a, columns, policy, cast, length).Conformed? && size > 0 && IsForm(form)
    requires DistinctUpTo(LiveNames(t.columns), engine) && DistinctUpTo(DeclaredNames(columns), engine)
    requires AllResolve(columns, t.columns, engine) && NoTighter(columns, t.columns, engine)
    requires Keyed(t.rows, ResolvedNames(t.columns, EntryNames(raw.entries), engine))
    ensures var data, key := Conform(a, columns, policy, cast, length).table, EntryNames(raw.entries);
            var rd, rk := ResolvedData(t.columns, data.data, engine), ResolvedNames(t.columns, key, engine);
            var stored := Formed(form, rd);
            && data.Valid() && EnsureUniqueKey(data, key) != ValueError
            && Accepts(t.columns, stored.columns, stored.rows)
            && (UniqueKeys(stored.rows, rk) ==>
                  Ready(t, stored.columns, stored.rows, rk) && AgreeAt(t, stored, rk, size))
            && (Outside(rd.columns, rk) != [] ==> (AgreeAt(t, stored, rk, size) <==> UniqueKeys(stored.rows, rk)))
            && (EnsureUniqueKey(data, key) == Unique && (forall c | c in rk :: Faithful(form, c)) ==>
                  UniqueKeys(stored.rows, rk))
  {
    var data, key := Conform(a, columns, policy, cast, length).table, EntryNames(raw.entries);
    var rd, rk := ResolvedData(t.columns, data.data, engine), ResolvedNames(t.columns, key, engine);
    ConformedTable(a, columns, policy, cast, length);
    LoaderAndConformSupplyTheKey(raw, columns, lower, a, policy, cast, length);
    TakesFitting(columns, t.columns, data.data, engine);
    ResolvedDataKeys(t.columns, data.data, key, engine);
    ResolvedIsValid(t.columns, data.data, engine);
    FormKeepsAccepted(t.columns, rd, form);
    FormedKeysAreSet(form, rd, rk);
    EnginesAgreeIffKeysUnique(t, rd, rk, size, form);
    KeysStayApartIffFaithful(form, rk);
  }

  /** So where the engine takes for equal every declared and live name the check does, and keeps the values of the
      key columns apart, the checks the harness makes are enough, names differing in case included. */
  lemma ChecksSuffice(raw: RawKey, columns: seq<Column>, lower: string -> string, a: Arrow, policy: Policy,
                      cast: Cast, length: Value -> nat, t: Table, fold: Folding, engine: Folding, size: nat,
                      form: Form)
    requires DistinctNames(columns) && raw.Listed? && ProperKey(raw.entries, columns, lower)
    requires Conform(a, columns, policy, cast, length).Conformed? && size > 0 && IsForm(form)
    requires DistinctUpTo(LiveNames(t.columns), engine) && Compare(columns, t.columns, fold).Empty()
    requires EngineFollows(columns, t.columns, fold, engine)
    requires Keyed(t.rows, ResolvedNames(t.columns, EntryNames(raw.entries), engine))
    ensures var data, key := Conform(a, columns, policy, cast, length).table, EntryNames(raw.entries);
            var rd, rk := ResolvedData(t.columns, data.data, engine), ResolvedNames(t.columns, key, engine);
            var stored := Formed(form, rd);
            && EnsureUniqueKey(data, key) != ValueError && Accepts(t.columns, stored.columns, stored.rows)
            && (EnsureUniqueKey(data, key) == Unique && (forall c | c in rk :: Faithful(form, c)) ==>
                  AgreeAt(t, stored, rk, size))
  {
    GateSuffices(columns, t.columns, fold, engine);
    ChecksMakeTheWriteSafe(raw, columns, lower, a, policy, cast, length, t, engine, size, form);
  }

  /** On Postgres, which takes names as they are, every declared name must occur in the table letter for letter;
      then the rows need no resolving. */
  lemma ChecksSufficeOnPostgres(raw: RawKey, columns: seq<Column>, lower: string -> string, a: Arrow, policy: Policy,
                                cast: Cast, length: Value -> nat, t: Table, fold: Folding, size: nat, form: Form)
    requires DistinctNames(columns) && raw.Listed? && ProperKey(raw.entries, columns, lower)
    requires Conform(a, columns, policy, cast, length).Conformed? && size > 0 && IsForm(form)
    requires DistinctUpTo(LiveNames(t.columns), Exactly) && Compare(columns, t.columns, fold).Empty()
    requires AllOccur(columns, t.columns) && Keyed(t.rows, EntryNames(raw.entries))
    ensures var data, key := Conform(a, columns, policy, cast, length).table, EntryNames(raw.entries);
            var stored := Formed(form, data.data);
            && EnsureUniqueKey(data, key) != ValueError && Accepts(t.columns, stored.columns, stored.rows)
            && (UniqueKeys(stored.rows, key) ==> AgreeAt(t, stored, key, size))
            && (EnsureUniqueKey(data, key) == Unique && (forall c | c in key :: Faithful(form, c)) ==>
                  UniqueKeys(stored.rows, key))
  {
    var data, key := Conform(a, columns, policy, cast, length).table, EntryNames(raw.entries);
    assert ResolvedNames(t.columns, key, Exactly) == key;
    GateSufficesForExactNames(columns, t.columns, fold, Exactly);
    assert DistinctUpTo(DeclaredNames(columns), Exactly);
    ChecksMakeTheWriteSafe(raw, columns, lower, a, policy, cast, length, t, Exactly, size, form);
    ExactlyIsItself(t.columns, data.data);
  }
}
