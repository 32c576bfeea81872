/** The key check every upsert passes before an engine sees the rows. */
module Keys {
  import opened Rows

  datatype ArrowType =
    | Int64 | Int32 | HalfFloat | Float32 | Float64 | Decimal128(precision: nat, scale: nat)
    | Utf8 | TimestampUs | OtherTimestamp | Date32 | OtherDate | Bool | OtherType(id: nat)

  predicate IsFloating(t: ArrowType) {
    t == HalfFloat || t == Float32 || t == Float64
  }

  /** An Arrow table: its columns' types beside its data. */
  datatype Arrow = Arrow(data: Data, types: map<string, ArrowType>)
  {
    ghost predicate Valid() {
      data.Valid() && types.Keys == ColumnSet(data.columns)
    }
  }

  /** The group-by: every key value with its number of rows. */
  function GroupCounts(rows: seq<Row>, key: seq<string>): map<seq<Value>, nat> {
    if rows == [] then map[]
    else
      var m, k := GroupCounts(rows[1..], key), KeyOf(rows[0], key);
      m[k := 1 + if k in m then m[k] else 0]
  }

  /** How many rows have key `k`. */
  ghost function Occurrences(rows: seq<Row>, key: seq<string>, k: seq<Value>): nat {
    if rows == [] then 0
    else (if KeyOf(rows[0], key) == k then 1 else 0) + Occurrences(rows[1..], key, k)
  }

  lemma {:induction false} GroupsCountOccurrences(rows: seq<Row>, key: seq<string>, k: seq<Value>)
    ensures k in GroupCounts(rows, key) <==> Occurrences(rows, key, k) > 0
    ensures k in GroupCounts(rows, key) ==> GroupCounts(rows, key)[k] == Occurrences(rows, key, k)
  {
    if rows != [] {
      GroupsCountOccurrences(rows[1..], key, k);
    }
  }

  lemma {:induction false} OccursMeansPresent(rows: seq<Row>, key: seq<string>, k: seq<Value>)
    ensures Occurrences(rows, key, k) > 0 <==> exists i | 0 <= i < |rows| :: KeyOf(rows[i], key) == k
  {
    if rows != [] {
      OccursMeansPresent(rows[1..], key, k);
      if KeyOf(rows[0], key) != k && exists i | 0 <= i < |rows| :: KeyOf(rows[i], key) == k {
        var i :| 0 <= i < |rows| && KeyOf(rows[i], key) == k;
        assert rows[1..][i - 1] == rows[i];
      }
      if Occurrences(rows[1..], key, k) > 0 {
        var i :| 0 <= i < |rows[1..]| && KeyOf(rows[1..][i], key) == k;
        assert rows[i + 1] == rows[1..][i];
      }
    }
  }

  lemma UniqueTail(rows: seq<Row>, key: seq<string>)
    requires rows != []
    ensures UniqueKeys(rows, key)
        <==> UniqueKeys(rows[1..], key) && Occurrences(rows[1..], key, KeyOf(rows[0], key)) == 0
  {
    var tail, k := rows[1..], KeyOf(rows[0], key);
    OccursMeansPresent(tail, key, k);
    if UniqueKeys(rows, key) {
      forall i | 0 <= i < |tail| ensures KeyOf(tail[i], key) != k {
        assert tail[i] == rows[i + 1];
      }
    }
    if UniqueKeys(tail, key) && Occurrences(tail, key, k) == 0 {
      forall i, j | 0 <= i < j < |rows| ensures KeyOf(rows[i], key) != KeyOf(rows[j], key) {
        assert rows[j] == tail[j - 1];
        if i > 0 {
          assert rows[i] == tail[i - 1];
        }
      }
    }
  }

  /** Counting groups against rows decides uniqueness. */
  lemma {:induction false} GroupCountDecides(rows: seq<Row>, key: seq<string>)
    ensures |GroupCounts(rows, key)| <= |rows|
    ensures |GroupCounts(rows, key)| == |rows| <==> UniqueKeys(rows, key)
  {
    if rows != [] {
      var m, k := GroupCounts(rows[1..], key), KeyOf(rows[0], key);
      GroupCountDecides(rows[1..], key);
      GroupsCountOccurrences(rows[1..], key, k);
      UniqueTail(rows, key);
      var m' := GroupCounts(rows, key);
      assert m'.Keys == m.Keys + {k};
      assert |m'| == |m'.Keys| && |m| == |m.Keys|;
      if k in m {
        assert m.Keys + {k} == m.Keys;
      }
    }
  }

  lemma {:induction false} RepeatMeansTwo(rows: seq<Row>, key: seq<string>) returns (k: seq<Value>)
    requires !UniqueKeys(rows, key)
    ensures Occurrences(rows, key, k) > 1
  {
    UniqueTail(rows, key);
    k := KeyOf(rows[0], key);
    if Occurrences(rows[1..], key, k) == 0 {
      k := RepeatMeansTwo(rows[1..], key);
    }
  }

  datatype KeyCheck = Unique | ValueError | DuplicateKeyError(repeated: map<seq<Value>, nat>)

  /** DuplicateKeyError exactly when two rows agree on every key column, naming every such key with its
      number of rows; ValueError exactly when the key is empty, missing from the data, or floating-point. */
  function EnsureUniqueKey(a: Arrow, key: seq<string>): (r: KeyCheck)
    ensures r == ValueError <==>
              key == [] || exists c | c in key ::
                c !in a.data.columns || (c in a.types && a.types[c] in {HalfFloat, Float32, Float64})
    ensures r != ValueError ==> (r == Unique <==> UniqueKeys(a.data.rows, key))
    ensures r.DuplicateKeyError? ==> r.repeated != map[]
    ensures r.DuplicateKeyError? ==>
              forall k :: (k in r.repeated <==> Occurrences(a.data.rows, key, k) > 1)
                          && (k in r.repeated ==> r.repeated[k] == Occurrences(a.data.rows, key, k))
  {
    if key == [] then ValueError
    else if exists c | c in key :: c !in a.data.columns then ValueError
    else if exists c | c in key :: c in a.types && IsFloating(a.types[c]) then ValueError
    else if |a.data.rows| < 2 then Unique
    else
      var counts := GroupCounts(a.data.rows, key);
      GroupCountDecides(a.data.rows, key);
      if |counts| == |a.data.rows| then Unique
      else
        var repeated := map k | k in counts && counts[k] > 1 :: counts[k];
        RepeatedIsComplete(a.data.rows, key);
        DuplicateKeyError(repeated)
  }

  lemma RepeatedIsComplete(rows: seq<Row>, key: seq<string>)
    requires !UniqueKeys(rows, key)
    ensures var counts := GroupCounts(rows, key);
            var repeated := map k | k in counts && counts[k] > 1 :: counts[k];
            && repeated != map[]
            && forall k :: (k in repeated <==> Occurrences(rows, key, k) > 1)
                           && (k in repeated ==> repeated[k] == Occurrences(rows, key, k))
  {
    var counts := GroupCounts(rows, key);
    forall k ensures k in counts <==> Occurrences(rows, key, k) > 0
             ensures k in counts ==> counts[k] == Occurrences(rows, key, k)
    {
      GroupsCountOccurrences(rows, key, k);
    }
    var k := RepeatMeansTwo(rows, key);
    assert k in map k | k in counts && counts[k] > 1 :: counts[k];
  }
}
