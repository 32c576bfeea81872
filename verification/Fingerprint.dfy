/** The wire entry a node is hashed from, and what of its definition the canonical entry determines. */
module Fingerprint {
  import opened Rows
  import opened Contract
  import opened Json
  import H = Hashing

  datatype Node = Node(
    schema: string, table: string, owner: string, schedule: string, criticality: string, kind: string,
    script: string, queries: map<string, string>, columns: seq<Column>, description: string,
    extraColumns: string, config: map<string, Json>, secretRef: string, mode: Mode, primaryKey: seq<string>,
    timeoutMinutes: Option<int>, declaredHash: Option<string>)

  function ModeName(m: Mode): string {
    match m
    case Replace => "replace"
    case Append => "append"
    case Upsert => "upsert"
  }

  function ColumnEntry(c: Column): Json {
    JObject(map["name" := JString(c.name), "type" := JString(c.spelling), "nullable" := JBool(c.nullable)])
  }

  function ColumnEntries(columns: seq<Column>): Json {
    JArray(seq(|columns|, i requires 0 <= i < |columns| => ColumnEntry(columns[i])))
  }

  function Strings(names: seq<string>): Json {
    JArray(seq(|names|, i requires 0 <= i < |names| => JString(names[i])))
  }

  function Queries(queries: map<string, string>): Json {
    JObject(map k | k in queries :: JString(queries[k]))
  }

  const FIELDS := ["schema", "table", "owner", "schedule", "criticality", "kind", "script", "reads", "output_columns",
                   "description", "extra_columns", "config", "secret_ref", "mode_type", "primary_key"]
  const READS: nat := 7

  /** The position of a known key in FIELDS, told from its length, first and third characters. */
  function Position(s: string): nat {
    if |s| == 4 then 5
    else if |s| == 5 then (if s[0] == 't' then 1 else if s[0] == 'o' then 2 else READS)
    else if |s| == 6 then (if s[0] == 'c' then 11 else if s[2] == 'h' then 0 else 6)
    else if |s| == 8 then 3
    else if |s| == 9 then 13
    else if |s| == 10 then 12
    else if |s| == 11 then
      (if s[0] == 'd' then 9 else if s[0] == 'p' then 14 else if s[0] == 'c' && s[2] == 'i' then 4 else 15)
    else if |s| == 13 then 10
    else if |s| == 14 then 8
    else 15
  }

  lemma PositionsLow()
    ensures Position("schema") == 0 && Position("table") == 1 && Position("owner") == 2 && Position("schedule") == 3
    ensures Position("criticality") == 4 && Position("kind") == 5 && Position("script") == 6 && Position("reads") == 7
  {
  }

  lemma PositionsHigh()
    ensures Position("output_columns") == 8 && Position("description") == 9 && Position("extra_columns") == 10
    ensures Position("config") == 11 && Position("secret_ref") == 12
        && Position("mode_type") == 13 && Position("primary_key") == 14
  {
  }

  lemma PositionsDropped()
    ensures Position("content_hash") == 15 && Position("source_hash") == 15 && Position("shared_code_hash") == 15
    ensures Position("config_hash") == 15 && Position("timeout_minutes") == 15
  {
  }

  lemma PositionOfField(i: nat)
    requires i < |FIELDS|
    ensures Position(FIELDS[i]) == i
  {
    if i < 8 {
      PositionsLow();
    } else {
      PositionsHigh();
    }
  }

  lemma FieldsDistinct()
    ensures forall i, j | 0 <= i < j < |FIELDS| :: FIELDS[i] != FIELDS[j]
    ensures forall i | 0 <= i < |FIELDS| :: FIELDS[i] !in H.DROPPED_FIELDS
    ensures forall i | 0 <= i < |FIELDS| :: FIELDS[i] == "reads" <==> i == READS
  {
    PositionsDropped();
    PositionOfField(READS);
    assert forall k | 0 <= k < |H.DROPPED_FIELDS| :: Position(H.DROPPED_FIELDS[k]) == 15;
    forall i | 0 <= i < |FIELDS| ensures Position(FIELDS[i]) == i {
      PositionOfField(i);
    }
  }

  type Values = v: seq<Option<Json>> | |v| == 15 witness seq(15, _ => None)

  /** The wire value of each field, in the entry's order; None where the key is left out. */
  function FieldValues(n: Node): Values {
    [Some(JString(n.schema)), Some(JString(n.table)), Some(JString(n.owner)), Some(JString(n.schedule)),
     Some(JString(n.criticality)), Some(JString(n.kind)), Some(JString(n.script)), Some(Queries(n.queries)),
     Some(ColumnEntries(n.columns)), Some(JString(n.description)), Some(JString(n.extraColumns)),
     Some(JObject(n.config)),
     if n.secretRef == "" then None else Some(JString(n.secretRef)),
     if n.mode == Replace then None else Some(JString(ModeName(n.mode))),
     if n.mode == Upsert then Some(Strings(n.primaryKey)) else None]
  }

  function EntryOf(v: Values): H.Entry {
    FieldsDistinct();
    map i | 0 <= i < |FIELDS| && v[i].Some? :: FIELDS[i] := v[i].value
  }

  /** The wire entry a node is hashed from. The last three keys appear only when they say something. */
  function NodeEntry(n: Node): H.Entry {
    EntryOf(FieldValues(n))
  }

  /** The loader leaves a key only on upsert nodes. */
  predicate LoaderValid(n: Node) {
    n.mode != Upsert ==> n.primaryKey == []
  }

  ghost predicate SameColumns(a: seq<Column>, b: seq<Column>) {
    && |a| == |b|
    && forall i | 0 <= i < |a| ::
         a[i].name == b[i].name && a[i].spelling == b[i].spelling && a[i].nullable == b[i].nullable
  }

  ghost predicate SameQueries(a: map<string, string>, b: map<string, string>) {
    a.Keys == b.Keys && forall k | k in a :: H.Tokens(a[k]) == H.Tokens(b[k])
  }

  /** Same definition: equal but for the timeout, a declared hash, and whitespace in the reads. */
  ghost predicate SameDefinition(a: Node, b: Node) {
    && a.schema == b.schema && a.table == b.table && a.owner == b.owner && a.schedule == b.schedule
    && a.criticality == b.criticality && a.kind == b.kind && a.script == b.script
    && SameQueries(a.queries, b.queries) && SameColumns(a.columns, b.columns)
    && a.description == b.description && a.extraColumns == b.extraColumns && a.config == b.config
    && a.secretRef == b.secretRef && a.mode == b.mode && a.primaryKey == b.primaryKey
  }

  // --- the entry determines the definition --------------------------------

  lemma EntryAt(v: Values, i: nat)
    requires i < |FIELDS|
    ensures FIELDS[i] in EntryOf(v) <==> v[i].Some?
    ensures v[i].Some? ==> EntryOf(v)[FIELDS[i]] == v[i].value
  {
    FieldsDistinct();
  }

  /** Which value stands under which key. */
  lemma NodeEntryIs(n: Node)
    ensures var e := NodeEntry(n);
            && "schema" in e && e["schema"] == JString(n.schema) && "table" in e && e["table"] == JString(n.table)
            && "owner" in e && e["owner"] == JString(n.owner)
            && "schedule" in e && e["schedule"] == JString(n.schedule)
            && "criticality" in e && e["criticality"] == JString(n.criticality)
            && "kind" in e && e["kind"] == JString(n.kind)
    ensures var e := NodeEntry(n);
            && "script" in e && e["script"] == JString(n.script)
            && "reads" in e && e["reads"] == Queries(n.queries)
            && "output_columns" in e && e["output_columns"] == ColumnEntries(n.columns)
            && "description" in e && e["description"] == JString(n.description)
            && "extra_columns" in e && e["extra_columns"] == JString(n.extraColumns)
            && "config" in e && e["config"] == JObject(n.config)
  {
    var v := FieldValues(n);
    EntryAt(v, 0);
    EntryAt(v, 1);
    EntryAt(v, 2);
    EntryAt(v, 3);
    EntryAt(v, 4);
    EntryAt(v, 5);
    EntryAt(v, 6);
    EntryAt(v, 7);
    EntryAt(v, 8);
    EntryAt(v, 9);
    EntryAt(v, 10);
    EntryAt(v, 11);
  }

  /** The other three keys, each only where it says something; the timeout and a declared hash have none. */
  lemma OptionalKeysAre(n: Node)
    ensures var e := NodeEntry(n);
            && ("secret_ref" in e <==> n.secretRef != "")
            && ("secret_ref" in e ==> e["secret_ref"] == JString(n.secretRef))
            && ("mode_type" in e <==> n.mode != Replace)
            && ("mode_type" in e ==> e["mode_type"] == JString(if n.mode == Append then "append" else "upsert"))
            && ("primary_key" in e <==> n.mode == Upsert)
            && ("primary_key" in e ==> e["primary_key"] == Strings(n.primaryKey))
    ensures "timeout_minutes" !in NodeEntry(n) && "content_hash" !in NodeEntry(n)
  {
    var v := FieldValues(n);
    EntryAt(v, 12);
    EntryAt(v, 13);
    EntryAt(v, 14);
    FieldsDistinct();
    assert "timeout_minutes" in H.DROPPED_FIELDS && "content_hash" in H.DROPPED_FIELDS;
  }

  lemma EntryInjective(a: Values, b: Values)
    requires EntryOf(a) == EntryOf(b)
    ensures a == b
  {
    forall i | 0 <= i < |FIELDS| ensures a[i] == b[i] {
      EntryAt(a, i);
      EntryAt(b, i);
    }
  }

  function CollapseField(v: Values): Values {
    if v[READS].Some? && v[READS].value.JObject?
    then v[READS := Some(JObject(H.CollapseReads(v[READS].value.members)))]
    else v
  }

  /** Canonicalising an entry touches its reads and nothing else. */
  lemma CanonicalIsCollapsed(v: Values)
    ensures H.CanonicalEntry(EntryOf(v)) == EntryOf(CollapseField(v))
  {
    FieldsDistinct();
    var c, w := H.CanonicalEntry(EntryOf(v)), EntryOf(CollapseField(v));
    forall k ensures k in c <==> k in w
             ensures k in c ==> c[k] == w[k]
    {
      if i :| 0 <= i < |FIELDS| && FIELDS[i] == k {
        EntryAt(v, i);
        EntryAt(CollapseField(v), i);
      }
    }
  }

  lemma SameColumnEntries(a: seq<Column>, b: seq<Column>)
    ensures ColumnEntries(a) == ColumnEntries(b) <==> SameColumns(a, b)
  {
    if ColumnEntries(a) == ColumnEntries(b) {
      assert |a| == |ColumnEntries(a).items| == |b|;
      forall i | 0 <= i < |a|
        ensures a[i].name == b[i].name && a[i].spelling == b[i].spelling && a[i].nullable == b[i].nullable
      {
        assert ColumnEntries(a).items[i] == ColumnEntry(a[i]) && ColumnEntries(b).items[i] == ColumnEntry(b[i]);
        ColumnEntryIsExact(a[i], b[i]);
      }
    }
    if SameColumns(a, b) {
      forall i | 0 <= i < |a| ensures ColumnEntry(a[i]) == ColumnEntry(b[i]) {
      }
      assert ColumnEntries(a).items == ColumnEntries(b).items;
    }
  }

  lemma ColumnEntryIsExact(a: Column, b: Column)
    requires ColumnEntry(a) == ColumnEntry(b)
    ensures a.name == b.name && a.spelling == b.spelling && a.nullable == b.nullable
  {
    assert "name"[0] != "type"[0];
    var x, y := ColumnEntry(a).members, ColumnEntry(b).members;
    assert x["name"] == JString(a.name) && y["name"] == JString(b.name);
    assert x["type"] == JString(a.spelling) && y["type"] == JString(b.spelling);
    assert x["nullable"] == JBool(a.nullable) && y["nullable"] == JBool(b.nullable);
  }

  lemma SameCollapsedQueries(a: map<string, string>, b: map<string, string>)
    ensures H.CollapseReads(Queries(a).members) == H.CollapseReads(Queries(b).members) <==> SameQueries(a, b)
  {
    var x, y := H.CollapseReads(Queries(a).members), H.CollapseReads(Queries(b).members);
    assert x.Keys == a.Keys && y.Keys == b.Keys;
    forall k | k in a && k in b ensures x[k] == y[k] <==> H.Tokens(a[k]) == H.Tokens(b[k]) {
      H.CollapseIsCanonical(a[k], b[k]);
    }
    if x == y {
      assert forall k | k in a :: x[k] == y[k];
    }
  }

  lemma SameStrings(a: seq<string>, b: seq<string>)
    ensures Strings(a) == Strings(b) <==> a == b
  {
    if Strings(a) == Strings(b) {
      assert |a| == |Strings(a).items| == |b|;
      forall i | 0 <= i < |a| ensures a[i] == b[i] {
        assert Strings(a).items[i] == JString(a[i]) && Strings(b).items[i] == JString(b[i]);
      }
    }
  }

  lemma ModesDiffer()
    ensures "append" != "upsert" && "replace" != "append" && "replace" != "upsert"
  {
    assert "append"[0] != "upsert"[0] && |"replace"| != |"append"|;
  }

  /** For loader-valid nodes the hashed entry says exactly what the definition says. */
  lemma EntryIsExact(a: Node, b: Node)
    requires LoaderValid(a) && LoaderValid(b)
    ensures H.CanonicalEntry(NodeEntry(a)) == H.CanonicalEntry(NodeEntry(b)) <==> SameDefinition(a, b)
  {
    var ca, cb := CollapseField(FieldValues(a)), CollapseField(FieldValues(b));
    CanonicalIsCollapsed(FieldValues(a));
    CanonicalIsCollapsed(FieldValues(b));
    if EntryOf(ca) == EntryOf(cb) {
      EntryInjective(ca, cb);
      FieldsAgree(a, b, ca, cb);
      SameCollapsedQueries(a.queries, b.queries);
      SameColumnEntries(a.columns, b.columns);
      SameStrings(a.primaryKey, b.primaryKey);
    }
    if SameDefinition(a, b) {
      SameDefinitionSameFields(a, b);
    }
  }

  lemma SameButReads(a: Node, b: Node, x: Option<Json>)
    requires a.schema == b.schema && a.table == b.table && a.owner == b.owner && a.schedule == b.schedule
    requires a.criticality == b.criticality && a.kind == b.kind && a.script == b.script
    requires ColumnEntries(a.columns) == ColumnEntries(b.columns) && a.description == b.description
    requires a.extraColumns == b.extraColumns && a.config == b.config
    requires a.secretRef == b.secretRef && a.mode == b.mode && a.primaryKey == b.primaryKey
    ensures FieldValues(a)[READS := x] == FieldValues(b)[READS := x]
  {
    assert FieldValues(a)[READS := Some(Queries(b.queries))] == FieldValues(b);
  }

  lemma CollapsedIs(n: Node)
    ensures CollapseField(FieldValues(n))
            == FieldValues(n)[READS := Some(JObject(H.CollapseReads(Queries(n.queries).members)))]
  {
  }

  lemma SameDefinitionSameFields(a: Node, b: Node)
    requires SameDefinition(a, b)
    ensures CollapseField(FieldValues(a)) == CollapseField(FieldValues(b))
  {
    SameCollapsedQueries(a.queries, b.queries);
    SameColumnEntries(a.columns, b.columns);
    CollapsedIs(a);
    CollapsedIs(b);
    SameButReads(a, b, Some(JObject(H.CollapseReads(Queries(a.queries).members))));
  }

  lemma FieldsAgree(a: Node, b: Node, ca: Values, cb: Values)
    requires ca == CollapseField(FieldValues(a)) && cb == CollapseField(FieldValues(b)) && ca == cb
    ensures a.schema == b.schema && a.table == b.table && a.owner == b.owner && a.schedule == b.schedule
    ensures a.criticality == b.criticality && a.kind == b.kind && a.script == b.script
    ensures H.CollapseReads(Queries(a.queries).members) == H.CollapseReads(Queries(b.queries).members)
    ensures ColumnEntries(a.columns) == ColumnEntries(b.columns) && a.description == b.description
    ensures a.extraColumns == b.extraColumns && a.config == b.config && a.secretRef == b.secretRef && a.mode == b.mode
    ensures a.mode == Upsert ==> Strings(a.primaryKey) == Strings(b.primaryKey)
  {
    ModesDiffer();
    var va, vb := FieldValues(a), FieldValues(b);
    assert forall i | 0 <= i < 15 && i != READS :: va[i] == ca[i] == cb[i] == vb[i];
    assert va[0] == vb[0] && va[1] == vb[1] && va[2] == vb[2] && va[3] == vb[3] && va[4] == vb[4];
    assert va[5] == vb[5] && va[6] == vb[6] && va[8] == vb[8] && va[9] == vb[9] && va[10] == vb[10];
    assert va[11] == vb[11] && va[12] == vb[12] && va[13] == vb[13] && va[14] == vb[14];
    assert ca[READS] == cb[READS];
  }
}
