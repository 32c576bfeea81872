/** Whole histories of one upsert table: every run of its node, succeeding, failing or retried. */
module Runs {
  import opened Rows

  /** One call of `upsert`: its rows, and whether the engine's write took effect. The engine contract
      allows a write that raised to have taken effect, but never in part. */
  datatype Attempt = Attempt(data: Data, applied: bool)

  /** Rows the key check lets through, from a conformed result of the table's shape. */
  predicate Written(a: Attempt, key: seq<string>) {
    a.applied && UniqueKeys(a.data.rows, key)
  }

  function After(t: Table, runs: seq<Attempt>, key: seq<string>): Table {
    if runs == [] then t
    else
      var before, last := After(t, runs[..|runs| - 1], key), runs[|runs| - 1];
      if Written(last, key) then Override(before, last.data, key) else before
  }

  /** Every attempt carries conformed rows of the declared columns. */
  ghost predicate AllConformed(t: Table, runs: seq<Attempt>, key: seq<string>) {
    forall a | a in runs ::
      && a.data.Valid() && ColumnSet(key) <= ColumnSet(a.data.columns) == Names(t.columns)
      && NonNullKeys(a.data.rows, key)
  }

  ghost predicate Declared(t: Table, key: seq<string>) {
    Keyed(t.rows, key) && forall r | r in t.rows :: r.Keys == Names(t.columns)
  }

  /** The rows each key should end up with: later written attempts win. */
  ghost function LastWritten(m: map<seq<Value>, Row>, runs: seq<Attempt>, key: seq<string>): map<seq<Value>, Row> {
    if runs == [] then m
    else
      var before, last := LastWritten(m, runs[..|runs| - 1], key), runs[|runs| - 1];
      if Written(last, key) then before + ByKey(last.data.rows, key) else before
  }

  /** In every state of every history no key repeats, no key is NULL, and the table holds, key by key,
      the row of the last write that named the key. */
  lemma {:induction false} EveryStateIsLastWritten(t: Table, runs: seq<Attempt>, key: seq<string>)
    requires Declared(t, key) && AllConformed(t, runs, key)
    ensures var u := After(t, runs, key);
            && Declared(u, key) && u.columns == t.columns
            && ByKey(u.rows, key) == LastWritten(ByKey(t.rows, key), runs, key)
  {
    if runs != [] {
      var init, last := runs[..|runs| - 1], runs[|runs| - 1];
      assert last in runs;
      EveryStateIsLastWritten(t, init, key);
      if Written(last, key) {
        OverrideIsMapUpdate(After(t, init, key), last.data, key);
        OverrideStaysKeyed(After(t, init, key), last.data, key);
      }
    }
  }

  // --- states inside an attempt -------------------------------------------

  /** One call of `upsert`, with every state of the table another session could read since it began; the last
      is how the call left it, by returning, raising, or the process dying. */
  datatype Call = Call(data: Data, seen: seq<Table>)

  /** What the engines promise of a call on `t`: all of the upsert or none of it, at every instant. */
  ghost predicate CallOn(t: Table, c: Call, key: seq<string>) {
    && c.seen != []
    && forall x | x in c.seen :: x == t || (UniqueKeys(c.data.rows, key) && x == Override(t, c.data, key))
  }

  /** A call cut short is a call. */
  lemma ACallMayDie(t: Table, c: Call, n: nat, key: seq<string>)
    requires CallOn(t, c, key) && 0 < n <= |c.seen|
    ensures CallOn(t, Call(c.data, c.seen[..n]), key)
  {
    assert forall x | x in c.seen[..n] :: x in c.seen;
  }

  function EndOf(t: Table, calls: seq<Call>): Table {
    if calls == [] || calls[|calls| - 1].seen == [] then t
    else calls[|calls| - 1].seen[|calls[|calls| - 1].seen| - 1]
  }

  /** Calls one after another, each on the table the one before it left. */
  ghost predicate Chain(t: Table, calls: seq<Call>, key: seq<string>) {
    calls != [] ==>
      var init := calls[..|calls| - 1];
      Chain(t, init, key) && CallOn(EndOf(t, init), calls[|calls| - 1], key)
  }

  lemma {:induction false} ChainPrefix(t: Table, calls: seq<Call>, n: nat, key: seq<string>)
    requires Chain(t, calls, key) && n <= |calls|
    ensures Chain(t, calls[..n], key)
  {
    if n < |calls| {
      assert calls[..|calls| - 1][..n] == calls[..n];
      ChainPrefix(t, calls[..|calls| - 1], n, key);
    } else {
      assert calls[..n] == calls;
    }
  }

  /** Any state seen during a chain is what some attempts, one per call, would have left. */
  lemma {:induction false} SeenIsAfter(t: Table, calls: seq<Call>, x: Table, key: seq<string>)
      returns (runs: seq<Attempt>)
    requires Chain(t, calls, key) && calls != [] && x in calls[|calls| - 1].seen
    ensures |runs| == |calls| && (forall k | 0 <= k < |calls| :: runs[k].data == calls[k].data)
    ensures x == After(t, runs, key)
  {
    var init, last := calls[..|calls| - 1], calls[|calls| - 1];
    var before: seq<Attempt> := [];
    if init != [] {
      before := SeenIsAfter(t, init, EndOf(t, init), key);
    }
    runs := before + [Attempt(last.data, x != EndOf(t, init))];
    assert runs[..|runs| - 1] == before;
  }

  ghost predicate CallsConformed(t: Table, calls: seq<Call>, key: seq<string>) {
    forall c | c in calls ::
      && c.data.Valid() && ColumnSet(key) <= ColumnSet(c.data.columns) == Names(t.columns)
      && NonNullKeys(c.data.rows, key)
  }

  /** Every state any session can ever read, those inside a call and those left by a process that died
      included, has unique non-NULL keys, and is what some attempts of the calls so far add up to. */
  lemma EveryVisibleState(t: Table, calls: seq<Call>, n: nat, x: Table, key: seq<string>)
    requires Declared(t, key) && CallsConformed(t, calls, key) && Chain(t, calls, key)
    requires n < |calls| && x in calls[n].seen
    ensures Declared(x, key) && x.columns == t.columns
    ensures exists runs: seq<Attempt> | |runs| == n + 1 ::
              && (forall k | 0 <= k <= n :: runs[k].data == calls[k].data)
              && ByKey(x.rows, key) == LastWritten(ByKey(t.rows, key), runs, key)
  {
    ChainPrefix(t, calls, n + 1, key);
    var runs := SeenIsAfter(t, calls[..n + 1], x, key);
    forall a | a in runs
      ensures a.data.Valid() && ColumnSet(key) <= ColumnSet(a.data.columns) == Names(t.columns)
          && NonNullKeys(a.data.rows, key)
    {
      var k :| 0 <= k < |runs| && runs[k] == a;
      assert calls[k] in calls;
    }
    EveryStateIsLastWritten(t, runs, key);
  }

  /** A table created empty never shows a repeated or NULL key, at any instant of any chain of calls. */
  lemma CreatedEmpty(columns: seq<LiveColumn>, pk: seq<string>, calls: seq<Call>, key: seq<string>)
    requires var t := Table(columns, pk, []); CallsConformed(t, calls, key) && Chain(t, calls, key)
    ensures forall c, x | c in calls && x in c.seen :: Keyed(x.rows, key)
  {
    var t := Table(columns, pk, []);
    forall c, x | c in calls && x in c.seen ensures Keyed(x.rows, key) {
      var n :| 0 <= n < |calls| && calls[n] == c;
      EveryVisibleState(t, calls, n, x, key);
    }
  }

  ghost predicate WritesKey(a: Attempt, key: seq<string>, k: seq<Value>) {
    Written(a, key) && k in ByKey(a.data.rows, key)
  }

  lemma {:induction false} UnnamedKeyKept(m: map<seq<Value>, Row>, runs: seq<Attempt>, key: seq<string>, k: seq<Value>)
    requires forall a | a in runs :: !WritesKey(a, key, k)
    ensures k in LastWritten(m, runs, key) <==> k in m
    ensures k in m ==> LastWritten(m, runs, key)[k] == m[k]
  {
    if runs != [] {
      assert runs[|runs| - 1] in runs;
      UnnamedKeyKept(m, runs[..|runs| - 1], key, k);
    }
  }

  lemma {:induction false} LastWriterWins(m: map<seq<Value>, Row>, runs: seq<Attempt>, key: seq<string>,
                                          k: seq<Value>, i: nat)
    requires i < |runs| && WritesKey(runs[i], key, k)
    requires forall j | i < j < |runs| :: !WritesKey(runs[j], key, k)
    ensures k in LastWritten(m, runs, key) && LastWritten(m, runs, key)[k] == ByKey(runs[i].data.rows, key)[k]
  {
    if i < |runs| - 1 {
      LastWriterWins(m, runs[..|runs| - 1], key, k, i);
    }
  }

  /** A key no written attempt names keeps its row; any other key has the row of its last writer. */
  lemma KeyHistory(t: Table, runs: seq<Attempt>, key: seq<string>, k: seq<Value>)
    requires Declared(t, key) && AllConformed(t, runs, key)
    ensures var was, now := ByKey(t.rows, key), ByKey(After(t, runs, key).rows, key);
            || (&& (forall a | a in runs :: !WritesKey(a, key, k))
                && (k in now <==> k in was) && (k in was ==> now[k] == was[k]))
            || exists i | 0 <= i < |runs| ::
                 && WritesKey(runs[i], key, k) && (forall j | i < j < |runs| :: !WritesKey(runs[j], key, k))
                 && k in now && now[k] == ByKey(runs[i].data.rows, key)[k]
  {
    EveryStateIsLastWritten(t, runs, key);
    var m := ByKey(t.rows, key);
    if forall a | a in runs :: !WritesKey(a, key, k) {
      UnnamedKeyKept(m, runs, key, k);
    } else {
      var i := LastNaming(runs, key, k);
      LastWriterWins(m, runs, key, k, i);
    }
  }

  lemma {:induction false} LastNaming(runs: seq<Attempt>, key: seq<string>, k: seq<Value>) returns (i: nat)
    requires exists a | a in runs :: WritesKey(a, key, k)
    ensures i < |runs| && WritesKey(runs[i], key, k)
    ensures forall j | i < j < |runs| :: !WritesKey(runs[j], key, k)
  {
    i := |runs| - 1;
    if !WritesKey(runs[i], key, k) {
      var a :| a in runs && WritesKey(a, key, k);
      assert a in runs[..i];
      i := LastNaming(runs[..i], key, k);
    }
  }

  /** After an upsert every data row finds its key in the table. */
  lemma DataRowMatched(t: Table, d: Data, key: seq<string>, j: nat)
    requires d.Valid() && SameShape(t, d) && ColumnSet(key) <= ColumnSet(d.columns)
    requires Keyed(d.rows, key) && j < |d.rows|
    ensures HasMatch(Override(t, d, key).rows, d.rows[j], key)
  {
    var u := Override(t, d, key).rows;
    assert d.rows[j] in d.rows;
    var i := DataRowPresent(t, d, key, j);
    MatchesIsSameKey(u[i], d.rows[j], key);
    assert u[i] in u;
  }

  lemma {:induction false} AllMatched(rows: seq<Row>, ss: seq<Row>, key: seq<string>)
    requires forall j | 0 <= j < |ss| :: HasMatch(rows, ss[j], key)
    ensures Unmatched(rows, ss, key) == []
  {
    if ss != [] {
      AllMatched(rows, ss[1..], key);
    }
  }

  lemma NothingNew(t: Table, d: Data, key: seq<string>)
    requires d.Valid() && SameShape(t, d) && ColumnSet(key) <= ColumnSet(d.columns)
    requires Keyed(d.rows, key)
    ensures Unmatched(Override(t, d, key).rows, d.rows, key) == []
  {
    var u := Override(t, d, key).rows;
    forall j | 0 <= j < |d.rows| ensures HasMatch(u, d.rows[j], key) {
      DataRowMatched(t, d, key, j);
    }
    AllMatched(u, d.rows, key);
  }

  /** Row by row, a second upsert finds nothing to change. */
  lemma AlreadyOverwritten(t: Table, d: Data, key: seq<string>, i: nat)
    requires d.Valid() && SameShape(t, d) && ColumnSet(key) <= ColumnSet(d.columns)
    requires Keyed(t.rows, key) && Keyed(d.rows, key)
    requires i < |Override(t, d, key).rows|
    ensures Override(Override(t, d, key), d, key).rows[i] == Override(t, d, key).rows[i]
  {
    var u := Override(t, d, key);
    OverrideIsMapUpdate(t, d, key);
    KeptRow(u, d, key, i);
    assert KeyOf(u.rows[i], key) in ByKey(d.rows, key) ==> ByKey(u.rows, key)[KeyOf(u.rows[i], key)] == u.rows[i] by {
      OverrideStaysKeyed(t, d, key);
      ByKeyHolds(u.rows, key);
    }
  }

  /** Repeating an upsert changes nothing at all. */
  lemma UpsertTwiceIsOnce(t: Table, d: Data, key: seq<string>)
    requires d.Valid() && SameShape(t, d) && ColumnSet(key) <= ColumnSet(d.columns)
    requires Keyed(t.rows, key) && Keyed(d.rows, key)
    ensures Override(Override(t, d, key), d, key) == Override(t, d, key)
  {
    var u := Override(t, d, key);
    var again := Override(u, d, key);
    NothingNew(t, d, key);
    forall i | 0 <= i < |u.rows| ensures again.rows[i] == u.rows[i] {
      AlreadyOverwritten(t, d, key, i);
    }
    assert again.rows == u.rows;
  }

  /** So retrying a write that raised is safe, whether or not the first try had taken effect. */
  lemma RetryIsSafe(t: Table, runs: seq<Attempt>, d: Data, first: bool, key: seq<string>)
    requires Declared(t, key) && AllConformed(t, runs + [Attempt(d, true)], key)
    ensures After(t, runs + [Attempt(d, first), Attempt(d, true)], key) == After(t, runs + [Attempt(d, true)], key)
  {
    var once, twice := runs + [Attempt(d, true)], runs + [Attempt(d, first), Attempt(d, true)];
    assert once[..|once| - 1] == runs;
    assert twice[..|twice| - 1] == runs + [Attempt(d, first)];
    assert (runs + [Attempt(d, first)])[..|runs|] == runs;
    assert Attempt(d, true) in once && forall a | a in runs :: a in once;
    EveryStateIsLastWritten(t, runs, key);
    if first && UniqueKeys(d.rows, key) {
      UpsertTwiceIsOnce(After(t, runs, key), d, key);
    }
  }
}
