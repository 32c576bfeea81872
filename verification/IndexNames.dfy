/** The Postgres index vocabulary: which lists are accepted, and under which stored names. */
module IndexNames {
  import opened Rows
  import opened Utf8

  const MAX_IDENTIFIER_BYTES: nat := 63

  // --- bytes.decode("utf-8", "ignore") ------------------------------------

  predicate IsScalar(n: int) {
    0 <= n < 0xD800 || 0xE000 <= n < 0x110000
  }

  /** The character a complete sequence stands for, if it is well-formed. */
  function DecodeChar(b: Bytes): Option<char>
    requires 1 <= |b| <= 4
  {
    var n := CodePoint(b);
    if IsScalar(n) && EncodeChar(n as char) == b then Some(n as char) else None
  }

  /** Decodes what is well-formed and skips every other byte. */
  function DecodeIgnore(b: Bytes): string
    decreases |b|
  {
    if b == [] then ""
    else
      var n := LengthFrom(b[0]);
      if n <= |b| && DecodeChar(b[..n]).Some? then [DecodeChar(b[..n]).value] + DecodeIgnore(b[n..])
      else DecodeIgnore(b[1..])
  }

  lemma DecodesOwnEncoding(c: char)
    ensures DecodeChar(EncodeChar(c)) == Some(c)
  {
    CodePointOfEncoding(c);
  }

  predicate IsContinuation(x: byte) {
    0x80 <= x < 0xC0
  }

  /** A continuation byte begins no character. */
  lemma ContinuationDecodesNothing(b: Bytes)
    requires 1 <= |b| <= 4 && IsContinuation(b[0])
    ensures DecodeChar(b) == None
  {
  }

  lemma {:induction false} ContinuationsVanish(b: Bytes)
    requires forall i | 0 <= i < |b| :: IsContinuation(b[i])
    ensures DecodeIgnore(b) == ""
  {
    if b != [] {
      var n := LengthFrom(b[0]);
      if n <= |b| {
        ContinuationDecodesNothing(b[..n]);
      }
      ContinuationsVanish(b[1..]);
    }
  }

  /** A character cut short decodes to nothing. */
  lemma CutCharVanishes(c: char, k: nat)
    requires k < |EncodeChar(c)|
    ensures DecodeIgnore(EncodeChar(c)[..k]) == ""
  {
    if k > 0 {
      var b := EncodeChar(c)[..k];
      FirstByteTells(c);
      assert b[0] == EncodeChar(c)[0];
      ContinuationsVanish(b[1..]);
    }
  }

  // --- truncation ---------------------------------------------------------

  /** How many leading characters of `name` fit in `limit` bytes. */
  function Fitting(name: string, limit: nat): (n: nat)
    ensures n <= |name|
  {
    if name == "" || |EncodeChar(name[0])| > limit then 0
    else 1 + Fitting(name[1..], limit - |EncodeChar(name[0])|)
  }

  lemma {:induction false} FittingIsLongest(name: string, limit: nat)
    ensures var n := Fitting(name, limit);
            && |Encode(name[..n])| <= limit
            && (forall m | n < m <= |name| :: |Encode(name[..m])| > limit)
            && (|Encode(name)| <= limit ==> n == |name|)
  {
    var n := Fitting(name, limit);
    if name != "" {
      var e := EncodeChar(name[0]);
      if |e| <= limit {
        FittingIsLongest(name[1..], limit - |e|);
        assert name[..n][1..] == name[1..][..n - 1];
      }
      forall m | n < m <= |name| ensures |Encode(name[..m])| > limit {
        assert name[..m][1..] == name[1..][..m - 1];
        assert Encode(name[..m]) == e + Encode(name[1..][..m - 1]);
      }
    }
  }

  lemma DecodeFirst(c: char, rest: Bytes)
    ensures DecodeIgnore(EncodeChar(c) + rest) == [c] + DecodeIgnore(rest)
  {
    var e := EncodeChar(c);
    var b := e + rest;
    FirstByteTells(c);
    DecodesOwnEncoding(c);
    assert b[0] == e[0] && b[..|e|] == e && b[|e|..] == rest;
  }

  /** Cutting the bytes and decoding leniently keeps exactly the characters that fit whole. */
  lemma {:induction false} DecodeOfCut(name: string, limit: nat)
    requires limit <= |Encode(name)|
    ensures DecodeIgnore(Encode(name)[..limit]) == name[..Fitting(name, limit)]
  {
    if name != "" {
      var e, rest := EncodeChar(name[0]), Encode(name[1..]);
      var b := Encode(name)[..limit];
      FirstByteTells(name[0]);
      if |e| <= limit {
        assert b == e + rest[..limit - |e|];
        DecodeFirst(name[0], rest[..limit - |e|]);
        DecodeOfCut(name[1..], limit - |e|);
        assert name[..Fitting(name, limit)] == [name[0]] + name[1..][..Fitting(name, limit) - 1];
      } else {
        assert b == e[..limit];
        CutCharVanishes(name[0], limit);
      }
    }
  }

  function TruncateExplicitIdentifier(name: string): string {
    var encoded := Encode(name);
    if |encoded| <= MAX_IDENTIFIER_BYTES then name else DecodeIgnore(encoded[..MAX_IDENTIFIER_BYTES])
  }

  /** The stored name is the longest prefix of whole characters within 63 bytes: the name itself if it fits. */
  lemma TruncatedIsLongestPrefix(name: string)
    ensures var stored := TruncateExplicitIdentifier(name);
            && stored <= name && |Encode(stored)| <= MAX_IDENTIFIER_BYTES
            && (forall m | |stored| < m <= |name| :: |Encode(name[..m])| > MAX_IDENTIFIER_BYTES)
            && (|Encode(name)| <= MAX_IDENTIFIER_BYTES ==> stored == name)
  {
    FittingIsLongest(name, MAX_IDENTIFIER_BYTES);
    if |Encode(name)| > MAX_IDENTIFIER_BYTES {
      DecodeOfCut(name, MAX_IDENTIFIER_BYTES);
    }
  }

  function JoinUnderscore(names: seq<string>): string {
    if names == [] then "" else if |names| == 1 then names[0] else names[0] + "_" + JoinUnderscore(names[1..])
  }

  function FullName(table: string, columns: seq<string>): string {
    "ix_" + table + "_" + JoinUnderscore(columns)
  }

  /** The derived name; an over-long one keeps a digest of the full name. */
  function IndexName(sha: Sha, table: string, columns: seq<string>): string
    requires forall b :: |sha(b)| == 64
  {
    var encoded := Encode(FullName(table, columns));
    if |encoded| <= MAX_IDENTIFIER_BYTES then FullName(table, columns)
    else DecodeIgnore(encoded[..MAX_IDENTIFIER_BYTES - 9]) + "_" + sha(encoded)[..8]
  }

  /** Columns join with one underscore between each two. */
  lemma {:induction false} JoinedWithUnderscores(a: seq<string>, b: seq<string>)
    requires a != [] && b != []
    ensures JoinUnderscore(a + b) == JoinUnderscore(a) + "_" + JoinUnderscore(b)
    ensures |a| == 1 ==> JoinUnderscore(a) == a[0]
  {
    assert (a + b)[1..] == a[1..] + b;
    if |a| > 1 {
      JoinedWithUnderscores(a[1..], b);
    } else {
      assert a[1..] + b == b;
    }
  }

  /** A derived name is `ix_`, the table, and the columns; cut to 54 bytes of whole characters, with eight digits of
      the full name's digest, where that is too long. */
  lemma DerivedNameIs(sha: Sha, table: string, columns: seq<string>)
    requires forall b :: |sha(b)| == 64
    ensures var full := "ix_" + table + "_" + JoinUnderscore(columns);
            && (|Encode(full)| <= 63 ==> IndexName(sha, table, columns) == full)
            && (|Encode(full)| > 63 ==>
                  exists n | 0 <= n <= |full| ::
                    && |Encode(full[..n])| <= 54 && (n == |full| || |Encode(full[..n + 1])| > 54)
                    && IndexName(sha, table, columns) == full[..n] + "_" + sha(Encode(full))[..8])
  {
    var full := FullName(table, columns);
    if |Encode(full)| > 63 {
      var n := Fitting(full, 54);
      DecodeOfCut(full, 54);
      FittingIsLongest(full, 54);
      assert |Encode(full[..n])| <= 54 && (n < |full| ==> |Encode(full[..n + 1])| > 54);
      assert IndexName(sha, table, columns) == full[..n] + "_" + sha(Encode(full))[..8];
    }
  }

  predicate IsAscii(c: char) {
    c as int < 0x80
  }

  lemma {:induction false} AsciiBytes(s: string)
    requires forall i | 0 <= i < |s| :: IsAscii(s[i])
    ensures |Encode(s)| == |s|
  {
    if s != "" {
      AsciiBytes(s[1..]);
    }
  }

  /** A derived name always fits, and over-long names whose digests differ stay apart. */
  lemma DerivedNameFits(sha: Sha, table: string, columns: seq<string>)
    requires forall b :: |sha(b)| == 64 && forall i | 0 <= i < 64 :: IsAscii(sha(b)[i])
    ensures |Encode(IndexName(sha, table, columns))| <= MAX_IDENTIFIER_BYTES
  {
    var name := FullName(table, columns);
    var encoded := Encode(name);
    if |encoded| > MAX_IDENTIFIER_BYTES {
      DecodeOfCut(name, MAX_IDENTIFIER_BYTES - 9);
      FittingIsLongest(name, MAX_IDENTIFIER_BYTES - 9);
      var head, tail := DecodeIgnore(encoded[..MAX_IDENTIFIER_BYTES - 9]), "_" + sha(encoded)[..8];
      EncodeConcat(head, tail);
      AsciiBytes(tail);
      assert head + "_" + sha(encoded)[..8] == head + tail;
    }
  }

  lemma OverlongNamesStayApart(sha: Sha, table: string, a: seq<string>, b: seq<string>)
    requires forall x :: |sha(x)| == 64
    requires |Encode(FullName(table, a))| > MAX_IDENTIFIER_BYTES && |Encode(FullName(table, b))| > MAX_IDENTIFIER_BYTES
    requires sha(Encode(FullName(table, a)))[..8] != sha(Encode(FullName(table, b)))[..8]
    ensures IndexName(sha, table, a) != IndexName(sha, table, b)
  {
    var x, y := IndexName(sha, table, a), IndexName(sha, table, b);
    assert x[|x| - 8..] == sha(Encode(FullName(table, a)))[..8];
    assert y[|y| - 8..] == sha(Encode(FullName(table, b)))[..8];
  }

  // --- the list -----------------------------------------------------------

  datatype RawText = NoText | Text(text: string) | OtherText
  datatype RawFlag = NoFlag | Flag(flag: bool) | OtherFlag
  datatype RawColumns = NoColumns | Columns(names: seq<RawText>)

  /** One entry of `indexes` as authored; `Malformed` is not a mapping, or has an unknown key. */
  datatype RawEntry = Malformed | Entry(columns: RawColumns, unique: RawFlag, method_: RawText, name: RawText)

  datatype RawConfig = NoConfig | BadConfig | NoIndexes | IndexesNotAList | Indexes(entries: seq<RawEntry>)

  datatype Index = Index(columns: seq<string>, unique: bool, method_: string, name: string)

  const INDEX_TYPES := ["brin", "btree", "gin", "gist", "hash", "spgist"]

  function ColumnNames(names: seq<RawText>): seq<string> {
    seq(|names|, i requires 0 <= i < |names| => if names[i].Text? then names[i].text else "")
  }

  function MethodOf(e: RawEntry): Option<string>
    requires e.Entry?
  {
    match e.method_
    case NoText => Some("btree")
    case Text(t) => if t in INDEX_TYPES then Some(t) else None
    case OtherText => None
  }

  function UniqueOf(e: RawEntry): Option<bool>
    requires e.Entry?
  {
    match e.unique
    case NoFlag => Some(false)
    case Flag(b) => Some(b)
    case OtherFlag => None
  }

  /** What an acceptable entry must satisfy on its own. */
  predicate EntryOk(e: RawEntry, declared: set<string>) {
    && e.Entry? && e.columns.Columns? && e.columns.names != []
    && (forall c | c in e.columns.names :: c.Text? && c.text != "" && c.text in declared)
    && UniqueOf(e).Some? && MethodOf(e).Some?
    && (UniqueOf(e).value ==> MethodOf(e).value == "btree")
    && (MethodOf(e).value == "hash" ==> |e.columns.names| == 1)
    && (e.name.NoText? || (e.name.Text? && e.name.text != ""))
  }

  function Normalized(sha: Sha, table: string, e: RawEntry, declared: set<string>): Index
    requires EntryOk(e, declared) && forall b :: |sha(b)| == 64
  {
    var columns := ColumnNames(e.columns.names);
    Index(columns, UniqueOf(e).value, MethodOf(e).value,
          if e.name.Text? then TruncateExplicitIdentifier(e.name.text) else IndexName(sha, table, columns))
  }

  ghost predicate DistinctIndexNames(indexes: seq<Index>) {
    forall i, j | 0 <= i < j < |indexes| :: indexes[i].name != indexes[j].name
  }

  /** The normalized list, when every entry is acceptable. */
  ghost predicate Normalizes(sha: Sha, table: string, entries: seq<RawEntry>, declared: set<string>,
                             indexes: seq<Index>)
    requires forall b :: |sha(b)| == 64
  {
    && |indexes| == |entries|
    && forall i | 0 <= i < |entries| ::
         EntryOk(entries[i], declared) && indexes[i] == Normalized(sha, table, entries[i], declared)
  }

  /** The first loop: every entry validated and normalized, or the list refused. */
  method NormalizeAll(sha: Sha, table: string, entries: seq<RawEntry>, declared: set<string>)
      returns (r: Option<seq<Index>>)
    requires forall b :: |sha(b)| == 64
    ensures r.Some? ==> Normalizes(sha, table, entries, declared, r.value)
    ensures r.None? ==> exists i | 0 <= i < |entries| :: !EntryOk(entries[i], declared)
  {
    var normalized: seq<Index> := [];
    var i := 0;
    while i < |entries|
      invariant 0 <= i <= |entries| && |normalized| == i
      invariant forall j | 0 <= j < i ::
                  EntryOk(entries[j], declared) && normalized[j] == Normalized(sha, table, entries[j], declared)
    {
      if !EntryOk(entries[i], declared) {
        return None;
      }
      normalized := normalized + [Normalized(sha, table, entries[i], declared)];
      i := i + 1;
    }
    return Some(normalized);
  }

  /** The second loop: a name already seen refuses the list. */
  method NamesDistinct(indexes: seq<Index>) returns (distinct: bool)
    ensures distinct <==> DistinctIndexNames(indexes)
  {
    var seen: set<string> := {};
    var i := 0;
    while i < |indexes|
      invariant 0 <= i <= |indexes|
      invariant seen == set j | 0 <= j < i :: indexes[j].name
      invariant forall j, k | 0 <= j < k < i :: indexes[j].name != indexes[k].name
    {
      if indexes[i].name in seen {
        return false;
      }
      seen := seen + {indexes[i].name};
      i := i + 1;
    }
    return true;
  }

  /** The lists that are accepted: every entry acceptable, and no two resolving to one stored name. */
  ghost predicate Acceptable(sha: Sha, table: string, entries: seq<RawEntry>, declared: set<string>)
    requires forall b :: |sha(b)| == 64
  {
    && (forall i | 0 <= i < |entries| :: EntryOk(entries[i], declared))
    && (forall i, j | 0 <= i < j < |entries| ::
          Normalized(sha, table, entries[i], declared).name != Normalized(sha, table, entries[j], declared).name)
  }

  method ValidatedIndexes(sha: Sha, config: RawConfig, table: string, declared: set<string>)
      returns (r: Option<seq<Index>>)
    requires forall b :: |sha(b)| == 64
    ensures config == NoConfig || config == NoIndexes ==> r == Some([])
    ensures config == BadConfig || config == IndexesNotAList ==> r == None
    ensures config.Indexes? ==> (r.Some? <==> Acceptable(sha, table, config.entries, declared))
    ensures config.Indexes? && r.Some? ==>
              Normalizes(sha, table, config.entries, declared, r.value) && DistinctIndexNames(r.value)
  {
    match config {
      case NoConfig => return Some([]);
      case NoIndexes => return Some([]);
      case BadConfig => return None;
      case IndexesNotAList => return None;
      case Indexes(entries) =>
        r := NormalizeAll(sha, table, entries, declared);
        if r.Some? {
          var distinct := NamesDistinct(r.value);
          assert distinct <==> Acceptable(sha, table, entries, declared);
          if !distinct {
            return None;
          }
        }
    }
  }

  /** Every stored name an accepted list produces fits, and names only declared columns. */
  lemma AcceptedNamesFit(sha: Sha, table: string, e: RawEntry, declared: set<string>)
    requires forall b :: |sha(b)| == 64 && forall i | 0 <= i < 64 :: IsAscii(sha(b)[i])
    requires EntryOk(e, declared)
    ensures var x := Normalized(sha, table, e, declared);
            && |Encode(x.name)| <= MAX_IDENTIFIER_BYTES && x.columns != [] && forall c | c in x.columns :: c in declared
    ensures var x := Normalized(sha, table, e, declared);
            && |x.columns| == |e.columns.names|
            && (forall i | 0 <= i < |x.columns| :: Text(x.columns[i]) == e.columns.names[i])
            && (x.unique <==> e.unique == Flag(true))
            && x.method_ == (if e.method_.Text? then e.method_.text else "btree")
            && (x.unique ==> x.method_ == "btree") && (x.method_ == "hash" ==> |x.columns| == 1)
  {
    var x := Normalized(sha, table, e, declared);
    if e.name.Text? {
      TruncatedIsLongestPrefix(e.name.text);
    } else {
      DerivedNameFits(sha, table, x.columns);
    }
    forall c | c in x.columns ensures c in declared {
      var i :| 0 <= i < |x.columns| && x.columns[i] == c;
      assert e.columns.names[i] in e.columns.names;
    }
  }

  // --- CREATE INDEX IF NOT EXISTS -----------------------------------------

  /** Tables and indexes of a schema share one namespace. `KeyIndex` is the one a PRIMARY KEY brings. */
  datatype Relation = TheTable | KeyIndex | Listed(index: Index)

  /** The relations after running the statements in order; a name already taken is skipped. */
  function CreateAll(existing: map<string, Relation>, indexes: seq<Index>): map<string, Relation> {
    if indexes == [] then existing
    else
      var before := CreateAll(existing, indexes[..|indexes| - 1]);
      var last := indexes[|indexes| - 1];
      if last.name in before then before else before[last.name := Listed(last)]
  }

  lemma {:induction false} CreatedNames(existing: map<string, Relation>, indexes: seq<Index>, name: string)
    ensures name in CreateAll(existing, indexes)
            <==> name in existing || exists i | 0 <= i < |indexes| :: indexes[i].name == name
    ensures name in existing ==> CreateAll(existing, indexes)[name] == existing[name]
  {
    if indexes != [] {
      var init := indexes[..|indexes| - 1];
      CreatedNames(existing, init, name);
      assert forall i | 0 <= i < |init| :: init[i] == indexes[i];
    }
  }

  ghost predicate Created(existing: map<string, Relation>, indexes: seq<Index>, i: nat)
    requires i < |indexes|
  {
    var after, name := CreateAll(existing, indexes), indexes[i].name;
    name in after && name !in existing && after[name] == Listed(indexes[i])
  }

  /** With distinct names, an entry is created iff its name is free, whatever the other entries: the list never
      loses an entry to another. */
  lemma {:induction false} CreatedIffFree(existing: map<string, Relation>, indexes: seq<Index>, i: nat)
    requires DistinctIndexNames(indexes) && i < |indexes|
    ensures Created(existing, indexes, i) <==> indexes[i].name !in existing
  {
    var init, last := indexes[..|indexes| - 1], indexes[|indexes| - 1];
    CreatedNames(existing, init, last.name);
    if i < |init| {
      CreatedIffFree(existing, init, i);
    }
  }

  /** An empty schema once CREATE TABLE has run: the table, under its name cut as Postgres cuts any identifier, and
      the index of its key if it has one, under the name `keyIndex` that Postgres chooses for it. */
  function FreshTable(table: string, keyIndex: Option<string>): map<string, Relation> {
    var stored := TruncateExplicitIdentifier(table);
    match keyIndex
    case None => map[stored := TheTable]
    case Some(name) => map[stored := TheTable, name := KeyIndex]
  }

  /** The accepted lists that lose an entry on a fresh table, exactly: an entry whose stored name is the table's
      stored name, or the index of its PRIMARY KEY's, is silently skipped; every other one is created. */
  lemma LostOnAFreshTable(table: string, keyIndex: Option<string>, indexes: seq<Index>, i: nat)
    requires DistinctIndexNames(indexes) && i < |indexes|
    ensures !Created(FreshTable(table, keyIndex), indexes, i)
            <==> indexes[i].name == TruncateExplicitIdentifier(table) || keyIndex == Some(indexes[i].name)
  {
    CreatedIffFree(FreshTable(table, keyIndex), indexes, i);
  }

  function NamedEntry(column: string, name: string): RawEntry {
    Entry(Columns([Text(column)]), NoFlag, NoText, Text(name))
  }

  /** Any explicit name cut to the same stored name as the table's does that, and the list is accepted. */
  lemma AnEntryCanBeLost(sha: Sha, declared: set<string>, table: string, column: string, name: string)
    requires column in declared && column != "" && name != "" && forall b :: |sha(b)| == 64
    requires TruncateExplicitIdentifier(name) == TruncateExplicitIdentifier(table)
    ensures var e := NamedEntry(column, name);
            && Acceptable(sha, table, [e], declared)
            && !Created(FreshTable(table, None), [Normalized(sha, table, e, declared)], 0)
  {
    var e := NamedEntry(column, name);
    assert Normalized(sha, table, e, declared).name == TruncateExplicitIdentifier(table);
    LostOnAFreshTable(table, None, [Normalized(sha, table, e, declared)], 0);
  }

  /** So does the name the table is cut to, where it is too long. */
  lemma AnOverlongTableTakesItsPrefix(sha: Sha, declared: set<string>, table: string, column: string)
    requires column in declared && column != "" && forall b :: |sha(b)| == 64
    requires |table| > MAX_IDENTIFIER_BYTES && forall i | 0 <= i < |table| :: IsAscii(table[i])
    ensures var e := NamedEntry(column, table[..MAX_IDENTIFIER_BYTES]);
            && Acceptable(sha, table, [e], declared)
            && !Created(FreshTable(table, None), [Normalized(sha, table, e, declared)], 0)
  {
    var name, stored := table[..MAX_IDENTIFIER_BYTES], TruncateExplicitIdentifier(table);
    TruncatedIsLongestPrefix(table);
    TruncatedIsLongestPrefix(name);
    AsciiBytes(name);
    AsciiBytes(stored);
    assert |Encode(table[..MAX_IDENTIFIER_BYTES])| == MAX_IDENTIFIER_BYTES;
    assert stored == name;
    AnEntryCanBeLost(sha, declared, table, column, name);
  }
}
