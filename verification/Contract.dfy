/** The declared side of a node: its columns, write mode and primary key. */
module Contract {
  import opened Rows

  datatype SqlType =
    | BigInt | Integer | DoublePrecision | Numeric(precision: nat, scale: nat)
    | Varchar(length: nat) | Char(length: nat) | Text | Timestamp | Date | Boolean

  /** `spelling` is the type as authored; `sqlType` is what it parses to. */
  datatype Column = Column(name: string, spelling: string, sqlType: SqlType, nullable: bool)

  datatype Mode = Replace | Append | Upsert

  /** The `primary_key` entry of a raw contract node. */
  datatype RawKey = Absent | NotAList | Listed(entries: seq<RawName>)
  datatype RawName = NotAString | Name(name: string)

  /** Python's `str.isspace`, one code point at a time. */
  predicate IsSpace(c: char) {
    var n := c as int;
    || 9 <= n <= 13 || 28 <= n <= 32 || n == 0x85 || n == 0xA0 || n == 0x1680
    || 0x2000 <= n <= 0x200A || n == 0x2028 || n == 0x2029 || n == 0x202F || n == 0x205F || n == 0x3000
  }

  predicate Blank(s: string) {
    forall c | c in s :: IsSpace(c)
  }

  predicate Declares(columns: seq<Column>, name: string) {
    exists i | 0 <= i < |columns| :: columns[i].name == name
  }

  predicate DistinctNames(columns: seq<Column>) {
    forall i, j | 0 <= i < j < |columns| :: columns[i].name != columns[j].name
  }

  function DeclaredNames(columns: seq<Column>): seq<string> {
    seq(|columns|, i requires 0 <= i < |columns| => columns[i].name)
  }

  /** The dict `{column.name: column}`: the last of two equal names wins. */
  function ByName(columns: seq<Column>): (m: map<string, Column>)
    ensures forall c :: c in m <==> Declares(columns, c)
    ensures forall c | c in m :: m[c] in columns && m[c].name == c
  {
    if columns == [] then map[]
    else
      var init, last := columns[..|columns| - 1], columns[|columns| - 1];
      assert columns == init + [last];
      ByName(init)[last.name := last]
  }

  /** A column that can hold a key. */
  predicate KeyColumn(columns: seq<Column>, name: string) {
    exists i | 0 <= i < |columns| ::
      columns[i].name == name && !columns[i].nullable && columns[i].sqlType != DoublePrecision
  }

  /** What the loader promises of an upsert key. */
  ghost predicate ProperKey(entries: seq<RawName>, columns: seq<Column>, lower: string -> string) {
    entries != [] && EntriesProper(entries, columns, lower)
  }

  ghost predicate EntriesProper(entries: seq<RawName>, columns: seq<Column>, lower: string -> string) {
    && (forall e | e in entries :: e.Name? && (exists c | c in e.name :: !IsSpace(c)) && KeyColumn(columns, e.name))
    && (forall i, j | 0 <= i < j < |entries| && entries[i].Name? && entries[j].Name? ::
          lower(entries[i].name) != lower(entries[j].name))
  }

  function EntryNames(entries: seq<RawName>): seq<string> {
    seq(|entries|, i requires 0 <= i < |entries| => if entries[i].Name? then entries[i].name else "")
  }

  lemma KeyColumnIs(columns: seq<Column>, name: string)
    requires DistinctNames(columns)
    ensures var m := ByName(columns);
            KeyColumn(columns, name) <==> name in m && !m[name].nullable && m[name].sqlType != DoublePrecision
  {
    var m := ByName(columns);
    if name in m {
      var k :| 0 <= k < |columns| && columns[k] == m[name];
      assert forall i | 0 <= i < |columns| && columns[i].name == name :: i == k;
    }
  }

  ghost function FoldedNames(entries: seq<RawName>, lower: string -> string): set<string> {
    set e | e in entries && e.Name? :: lower(e.name)
  }

  /** What one more entry must be. */
  ghost predicate EntryFits(entries: seq<RawName>, e: RawName, columns: seq<Column>, lower: string -> string) {
    e.Name? && !Blank(e.name) && KeyColumn(columns, e.name) && lower(e.name) !in FoldedNames(entries, lower)
  }

  lemma ProperSnoc(entries: seq<RawName>, e: RawName, columns: seq<Column>, lower: string -> string)
    ensures EntriesProper(entries + [e], columns, lower)
        <==> EntriesProper(entries, columns, lower) && EntryFits(entries, e, columns, lower)
    ensures FoldedNames(entries + [e], lower) == FoldedNames(entries, lower) + if e.Name? then {lower(e.name)} else {}
  {
    var all := entries + [e];
    assert all[|entries|] == e && forall i | 0 <= i < |entries| :: all[i] == entries[i];
    assert forall x | x in entries :: x in all;
    assert e in all;
    if EntriesProper(all, columns, lower) {
      forall x | x in entries && x.Name? ensures lower(x.name) != lower(e.name) {
        var i :| 0 <= i < |entries| && entries[i] == x;
        assert all[i] == x;
      }
    }
  }

  lemma ProperPrefix(a: seq<RawName>, b: seq<RawName>, columns: seq<Column>, lower: string -> string)
    requires EntriesProper(a + b, columns, lower)
    ensures EntriesProper(a, columns, lower)
  {
    assert forall i | 0 <= i < |a| :: (a + b)[i] == a[i];
    assert forall x | x in a :: x in a + b;
  }

  lemma EntryDecides(entries: seq<RawName>, i: nat, columns: seq<Column>, lower: string -> string)
    requires i < |entries| && EntriesProper(entries[..i], columns, lower)
    ensures EntriesProper(entries[..i + 1], columns, lower) <==> EntryFits(entries[..i], entries[i], columns, lower)
    ensures EntriesProper(entries, columns, lower) ==> EntryFits(entries[..i], entries[i], columns, lower)
    ensures FoldedNames(entries[..i + 1], lower)
            == FoldedNames(entries[..i], lower) + if entries[i].Name? then {lower(entries[i].name)} else {}
  {
    ProperSnoc(entries[..i], entries[i], columns, lower);
    assert entries[..i + 1] == entries[..i] + [entries[i]];
    assert entries == entries[..i + 1] + entries[i + 1..];
    if EntriesProper(entries, columns, lower) {
      ProperPrefix(entries[..i + 1], entries[i + 1..], columns, lower);
    }
  }

  /** Accepts exactly the proper keys of upsert nodes, and exactly the absent key of the others. */
  method ValidatePrimaryKey(raw: RawKey, mode: Mode, columns: seq<Column>, lower: string -> string)
      returns (key: Option<seq<string>>)
    requires DistinctNames(columns)
    ensures mode != Upsert ==> key == if raw == Absent then Some([]) else None
    ensures mode == Upsert ==>
              key == if raw.Listed? && ProperKey(raw.entries, columns, lower)
                  then Some(EntryNames(raw.entries)) else None
  {
    if mode != Upsert {
      return if raw == Absent then Some([]) else None;
    }
    if !raw.Listed? || raw.entries == [] {
      return None;
    }
    var byName := ByName(columns);
    var seen: set<string> := {};
    var i := 0;
    while i < |raw.entries|
      invariant 0 <= i <= |raw.entries|
      invariant EntriesProper(raw.entries[..i], columns, lower)
      invariant seen == FoldedNames(raw.entries[..i], lower)
    {
      var entry := raw.entries[i];
      EntryDecides(raw.entries, i, columns, lower);
      if !entry.Name? || Blank(entry.name) {
        return None;
      }
      var folded := lower(entry.name);
      if folded in seen {
        return None;
      }
      seen := seen + {folded};
      KeyColumnIs(columns, entry.name);
      if entry.name !in byName || byName[entry.name].nullable || byName[entry.name].sqlType == DoublePrecision {
        return None;
      }
      i := i + 1;
    }
    assert raw.entries[..i] == raw.entries;
    return Some(EntryNames(raw.entries));
  }
}
