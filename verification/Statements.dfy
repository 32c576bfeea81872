/** The MERGE and INSERT ... SELECT statements as text, a reader of their grammar, and what a statement
    that was read does to a table. */
module Statements {
  import opened Rows
  import opened Mechanisms
  import opened SqlText

  // --- rendering ----------------------------------------------------------

  function Comma(): seq<Piece> {
    [S(','), Space]
  }

  function Dot(): seq<Piece> {
    [S('.')]
  }

  function And(): seq<Piece> {
    [Space, W("AND"), Space]
  }

  function Column(n: string): seq<Piece> {
    [Q(n)]
  }

  function SourceColumn(n: string): seq<Piece> {
    [W("s"), S('.')] + Column(n)
  }

  function Assigned(n: string): seq<Piece> {
    Column(n) + ([Space, S('='), Space] + SourceColumn(n))
  }

  function Equated(n: string): seq<Piece> {
    [W("t"), S('.')] + Assigned(n)
  }

  /** A possibly qualified name: every part quoted, dots between. */
  function Path(parts: seq<string>): seq<Piece> {
    Joined(parts, Column, Dot())
  }

  function Into(verb: string): seq<Piece> {
    Phrase([], [verb, "INTO"], [])
  }

  function Using(): seq<Piece> {
    Phrase([Space], ["AS", "t", "USING"], [])
  }

  function On(): seq<Piece> {
    Phrase([Space], ["AS", "s", "ON"], [S('(')])
  }

  function WhenMatched(): seq<Piece> {
    Phrase([Space], ["WHEN", "MATCHED", "THEN", "UPDATE", "SET"], [])
  }

  function WhenNotMatched(): seq<Piece> {
    Phrase([Space], ["WHEN", "NOT", "MATCHED", "THEN", "INSERT"], [S('(')])
  }

  function Values(): seq<Piece> {
    Phrase([S(')'), Space], ["VALUES"], [S('(')])
  }

  function Select(): seq<Piece> {
    Phrase([S(')'), Space], ["SELECT"], [])
  }

  function From(): seq<Piece> {
    Phrase([Space], ["FROM"], [])
  }

  function InsertBranch(names: seq<string>): seq<Piece> {
    WhenNotMatched() + (Joined(names, Column, Comma()) + (Values() + (Joined(names, SourceColumn, Comma()) + [S(')')])))
  }

  function UpdateBranch(updates: seq<string>): seq<Piece> {
    if updates == [] then [] else WhenMatched() + Joined(updates, Assigned, Comma())
  }

  /** From the ON condition to the end. */
  function Condition(names: seq<string>, key: seq<string>): seq<Piece> {
    Joined(key, Equated, And()) + ([S(')')] + (UpdateBranch(Outside(names, key)) + InsertBranch(names)))
  }

  function MergePieces(target: seq<string>, source: seq<string>, names: seq<string>, key: seq<string>): seq<Piece> {
    Into("MERGE") + (Path(target) + (Using() + (Path(source) + (On() + Condition(names, key)))))
  }

  function InsertPieces(target: seq<string>, source: seq<string>, names: seq<string>): seq<Piece> {
    Into("INSERT") + (Path(target) + ([Space, S('(')] + (Joined(names, Column, Comma()) + (Select()
    + (Joined(names, Column, Comma()) + (From() + Path(source)))))))
  }

  /** DuckDB's `merge_from`; None for the empty key it refuses. */
  function MergeFrom(table: seq<string>, names: seq<string>, key: seq<string>, source: string): Option<string> {
    if key == [] then None else Some(Text(MergePieces(table, [source], names, key)))
  }

  /** DuckDB's `insert_select`. */
  function InsertSelect(table: seq<string>, names: seq<string>, source: string): string {
    Text(InsertPieces(table, [source], names))
  }

  /** Trino's `_merge_statement`, the references made by its `_quote`; None for the empty identifier it refuses. */
  function MergeStatement(target: seq<string>, stage: seq<string>, names: seq<string>,
                          key: seq<string>): Option<string> {
    if "" in target + stage + names + key then None else Some(Text(MergePieces(target, stage, names, key)))
  }

  /** Trino's `_append_statement`. */
  function AppendStatement(target: seq<string>, stage: seq<string>, names: seq<string>): Option<string> {
    if "" in target + stage + names then None else Some(Text(InsertPieces(target, stage, names)))
  }

  // --- reading ------------------------------------------------------------

  /** `on` and `sets` pair a target column with the source column it is compared to or takes its value from. */
  datatype Merge = Merge(target: seq<string>, source: seq<string>, on: seq<(string, string)>,
                         sets: seq<(string, string)>, columns: seq<string>, values: seq<string>)

  datatype Insert = Insert(target: seq<string>, source: seq<string>, columns: seq<string>, values: seq<string>)

  /** An identifier; SQL knows no empty one. */
  function ReadColumn(ts: seq<Token>): Option<(string, seq<Token>)> {
    if ts != [] && ts[0].Quoted? && ts[0].name != "" then Some((ts[0].name, ts[1..])) else None
  }

  function ReadSourceColumn(ts: seq<Token>): Option<(string, seq<Token>)> {
    var rest :- Expect([Word("s"), Symbol('.')], ts);
    ReadColumn(rest)
  }

  function ReadAssigned(ts: seq<Token>): Option<((string, string), seq<Token>)> {
    var (a, r1) :- ReadColumn(ts);
    var r2 :- Expect([Symbol('=')], r1);
    var (b, r3) :- ReadSourceColumn(r2);
    Some(((a, b), r3))
  }

  function ReadEquated(ts: seq<Token>): Option<((string, string), seq<Token>)> {
    var rest :- Expect([Word("t"), Symbol('.')], ts);
    ReadAssigned(rest)
  }

  function ReadPath(ts: seq<Token>): Option<(seq<string>, seq<Token>)> {
    ReadSome(ReadColumn, [Symbol('.')], ts)
  }

  /** The optional UPDATE branch: no branch assigns nothing. */
  function ReadSets(ts: seq<Token>): Option<(seq<(string, string)>, seq<Token>)> {
    match Expect(WordTokens(["WHEN", "MATCHED", "THEN", "UPDATE", "SET"]), ts)
    case None => Some(([], ts))
    case Some(rest) => ReadSome(ReadAssigned, [Symbol(',')], rest)
  }

  function ReadInsertBranch(ts: seq<Token>): Option<(seq<string>, seq<string>)> {
    var r1 :- Expect(WordTokens(["WHEN", "NOT", "MATCHED", "THEN", "INSERT"]) + [Symbol('(')], ts);
    var (columns, r2) :- ReadSome(ReadColumn, [Symbol(',')], r1);
    var r3 :- Expect([Symbol(')')] + (WordTokens(["VALUES"]) + [Symbol('(')]), r2);
    var (values, r4) :- ReadSome(ReadSourceColumn, [Symbol(',')], r3);
    if r4 == [Symbol(')')] && |values| == |columns| then Some((columns, values)) else None
  }

  /** From the ON condition to the end; the references are not part of it. */
  function ReadCondition(ts: seq<Token>): Option<Merge> {
    var (on, r1) :- ReadSome(ReadEquated, WordTokens(["AND"]), ts);
    var r2 :- Expect([Symbol(')')], r1);
    var (sets, r3) :- ReadSets(r2);
    var (columns, values) :- ReadInsertBranch(r3);
    Some(Merge([], [], on, sets, columns, values))
  }

  /** From USING to the end. */
  function ReadUsing(ts: seq<Token>): Option<Merge> {
    var r1 :- Expect(WordTokens(["AS", "t", "USING"]), ts);
    var (source, r2) :- ReadPath(r1);
    var r3 :- Expect(WordTokens(["AS", "s", "ON"]) + [Symbol('(')], r2);
    var rest :- ReadCondition(r3);
    Some(rest.(source := source))
  }

  function ReadMerge(ts: seq<Token>): Option<Merge> {
    var r1 :- Expect(WordTokens(["MERGE", "INTO"]), ts);
    var (target, r2) :- ReadPath(r1);
    var rest :- ReadUsing(r2);
    Some(rest.(target := target))
  }

  function ReadInsert(ts: seq<Token>): Option<Insert> {
    var r1 :- Expect(WordTokens(["INSERT", "INTO"]), ts);
    var (target, r2) :- ReadPath(r1);
    var r3 :- Expect([Symbol('(')], r2);
    var (columns, r4) :- ReadSome(ReadColumn, [Symbol(',')], r3);
    var r5 :- Expect([Symbol(')')] + WordTokens(["SELECT"]), r4);
    var (values, r6) :- ReadSome(ReadColumn, [Symbol(',')], r5);
    var r7 :- Expect(WordTokens(["FROM"]), r6);
    var (source, r8) :- ReadPath(r7);
    if r8 == [] && |values| == |columns| then Some(Insert(target, source, columns, values)) else None
  }

  // --- every rendered piece reads back ------------------------------------

  function Same(n: string): string {
    n
  }

  function Twice(n: string): (string, string) {
    (n, n)
  }

  lemma ColumnReadsBack(n: string, rest: seq<Token>)
    ensures TokensOf(Column(n)) == [Quoted(n)]
    ensures ReadColumn([Quoted(n)] + rest) == if n != "" then Some((n, rest)) else None
  {
    TokensOfOne(Q(n));
  }

  lemma SourceColumnReadsBack(n: string, rest: seq<Token>)
    ensures TokensOf(SourceColumn(n)) == [Word("s"), Symbol('.'), Quoted(n)]
    ensures ReadSourceColumn(TokensOf(SourceColumn(n)) + rest) == if n != "" then Some((n, rest)) else None
  {
    ColumnReadsBack(n, rest);
    TokensOfTwo(W("s"), S('.'));
    TokensConcat([W("s"), S('.')], Column(n));
    var ts := TokensOf(SourceColumn(n)) + rest;
    assert ts == [Word("s"), Symbol('.')] + ([Quoted(n)] + rest);
    assert ts[2..] == [Quoted(n)] + rest;
  }

  lemma AssignedReadsBack(n: string, rest: seq<Token>)
    ensures TokensOf(Assigned(n)) == [Quoted(n), Symbol('=')] + TokensOf(SourceColumn(n))
    ensures ReadAssigned(TokensOf(Assigned(n)) + rest) == if n != "" then Some(((n, n), rest)) else None
  {
    var equals := [Space, S('='), Space];
    TokensOfTwo(S('='), Space);
    assert equals[1..] == [S('='), Space];
    TokensConcat(equals, SourceColumn(n));
    TokensConcat(Column(n), equals + SourceColumn(n));
    var tail := TokensOf(SourceColumn(n)) + rest;
    ColumnReadsBack(n, [Symbol('=')] + tail);
    SourceColumnReadsBack(n, rest);
    assert TokensOf(Assigned(n)) + rest == [Quoted(n)] + ([Symbol('=')] + tail);
    assert ([Symbol('=')] + tail)[1..] == tail;
  }

  lemma EquatedReadsBack(n: string, rest: seq<Token>)
    ensures ReadEquated(TokensOf(Equated(n)) + rest) == if n != "" then Some(((n, n), rest)) else None
    ensures TokensOf(Equated(n)) != []
  {
    TokensOfTwo(W("t"), S('.'));
    TokensConcat([W("t"), S('.')], Assigned(n));
    AssignedReadsBack(n, rest);
    var tail := TokensOf(Assigned(n)) + rest;
    assert TokensOf(Equated(n)) + rest == [Word("t"), Symbol('.')] + tail;
    assert ([Word("t"), Symbol('.')] + tail)[2..] == tail;
  }

  lemma ItemsReadBack()
    ensures forall n, r | n != "" :: ReadColumn(TokensOf(Column(n)) + r) == Some((Same(n), r))
    ensures forall n, r | n != "" :: ReadSourceColumn(TokensOf(SourceColumn(n)) + r) == Some((Same(n), r))
    ensures forall n, r | n != "" :: ReadAssigned(TokensOf(Assigned(n)) + r) == Some((Twice(n), r))
    ensures forall n, r | n != "" :: ReadEquated(TokensOf(Equated(n)) + r) == Some((Twice(n), r))
  {
    forall n, r | n != ""
      ensures ReadColumn(TokensOf(Column(n)) + r) == Some((Same(n), r))
      ensures ReadSourceColumn(TokensOf(SourceColumn(n)) + r) == Some((Same(n), r))
      ensures ReadAssigned(TokensOf(Assigned(n)) + r) == Some((Twice(n), r))
      ensures ReadEquated(TokensOf(Equated(n)) + r) == Some((Twice(n), r))
    {
      ColumnReadsBack(n, r);
      SourceColumnReadsBack(n, r);
      AssignedReadsBack(n, r);
      EquatedReadsBack(n, r);
    }
  }

  lemma EmptyNamesDoNot()
    ensures forall r :: ReadColumn(TokensOf(Column("")) + r) == None
    ensures forall r :: ReadSourceColumn(TokensOf(SourceColumn("")) + r) == None
    ensures forall r :: ReadAssigned(TokensOf(Assigned("")) + r) == None
    ensures forall r :: ReadEquated(TokensOf(Equated("")) + r) == None
  {
    forall r
      ensures ReadColumn(TokensOf(Column("")) + r) == None
      ensures ReadSourceColumn(TokensOf(SourceColumn("")) + r) == None
      ensures ReadAssigned(TokensOf(Assigned("")) + r) == None
      ensures ReadEquated(TokensOf(Equated("")) + r) == None
    {
      ColumnReadsBack("", r);
      SourceColumnReadsBack("", r);
      AssignedReadsBack("", r);
      EquatedReadsBack("", r);
    }
  }

  lemma SeparatorTokens()
    ensures TokensOf(Comma()) == [Symbol(',')] && TokensOf(Dot()) == [Symbol('.')]
        && TokensOf(And()) == WordTokens(["AND"])
    ensures TokensOf([S(')')]) == [Symbol(')')] && TokensOf([S('(')]) == [Symbol('(')] && TokensOf([Space]) == []
    ensures TokensOf([S(')'), Space]) == [Symbol(')')] && TokensOf([Space, S('(')]) == [Symbol('(')]
  {
    TokensOfTwo(S(','), Space);
    TokensOfOne(S('.'));
    TokensOfTwo(W("AND"), Space);
    assert And()[1..] == [W("AND"), Space];
    TokensOfOne(S(')'));
    TokensOfOne(S('('));
    TokensOfOne(Space);
    TokensOfTwo(S(')'), Space);
    TokensOfTwo(Space, S('('));
  }

  lemma ItemsAreSpaced()
    ensures forall n :: Spaced(Column(n)) && Spaced(SourceColumn(n)) && Spaced(Equated(n)) && Spaced(Assigned(n))
    ensures Spaced(Comma()) && Spaced(Dot()) && Spaced(And())
  {
  }

  /** A fixed phrase: well spaced, loose at both ends, reading as its words. */
  ghost predicate IsPhrase(p: seq<Piece>, tokens: seq<Token>) {
    p != [] && Spaced(p) && Loose(p[|p| - 1]) && TokensOf(p) == tokens
  }

  lemma Keywords()
    ensures GoodToken(Word("MERGE")) && GoodToken(Word("INSERT")) && GoodToken(Word("INTO")) && GoodToken(Word("USING"))
    ensures GoodToken(Word("AS")) && GoodToken(Word("ON")) && GoodToken(Word("t")) && GoodToken(Word("s"))
    ensures GoodToken(Word("VALUES")) && GoodToken(Word("SELECT")) && GoodToken(Word("FROM"))
  {
  }

  lemma BranchKeywords()
    ensures GoodToken(Word("WHEN")) && GoodToken(Word("NOT")) && GoodToken(Word("MATCHED")) && GoodToken(Word("THEN"))
    ensures GoodToken(Word("INSERT")) && GoodToken(Word("UPDATE")) && GoodToken(Word("SET"))
  {
  }

  lemma MarksAreLoose()
    ensures AllLoose([Space]) && AllLoose([S('(')]) && AllLoose([S(')'), Space])
        && AllLoose([S(')')]) && AllLoose([Space, S('(')])
  {
  }

  lemma PlainPhrase(ws: seq<string>)
    requires GoodWords(ws) && ws != []
    ensures IsPhrase(Phrase([], ws, []), WordTokens(ws))
    ensures IsPhrase(Phrase([Space], ws, []), WordTokens(ws)) && Loose(Phrase([Space], ws, [])[0])
    ensures IsPhrase(Phrase([Space], ws, [S('(')]), WordTokens(ws) + [Symbol('(')])
        && Loose(Phrase([Space], ws, [S('(')])[0])
  {
    SeparatorTokens();
    MarksAreLoose();
    PhraseIs([], ws, []);
    PhraseIs([Space], ws, []);
    PhraseIs([Space], ws, [S('(')]);
    assert [] + (WordTokens(ws) + []) == WordTokens(ws);
    assert [] + (WordTokens(ws) + [Symbol('(')]) == WordTokens(ws) + [Symbol('(')];
  }

  lemma ClosingPhrase(w: string)
    requires GoodToken(Word(w))
    ensures IsPhrase(Phrase([S(')'), Space], [w], []), [Symbol(')')] + WordTokens([w]))
        && Loose(Phrase([S(')'), Space], [w], [])[0])
    ensures IsPhrase(Phrase([S(')'), Space], [w], [S('(')]), [Symbol(')')] + (WordTokens([w]) + [Symbol('(')]))
    ensures Loose(Phrase([S(')'), Space], [w], [S('(')])[0])
  {
    SeparatorTokens();
    MarksAreLoose();
    PhraseIs([S(')'), Space], [w], []);
    PhraseIs([S(')'), Space], [w], [S('(')]);
    assert WordTokens([w]) + [] == WordTokens([w]);
  }

  /** A phrase is skipped by the reader that expects it. */
  lemma PhraseThen(phrase: seq<Piece>, tokens: seq<Token>, more: seq<Piece>)
    requires IsPhrase(phrase, tokens) && Spaced(more)
    ensures Spaced(phrase + more) && TokensOf(phrase + more) == tokens + TokensOf(more)
    ensures (phrase + more)[0] == phrase[0] && Expect(tokens, TokensOf(phrase + more)) == Some(TokensOf(more))
  {
    SpacedConcat(phrase, more);
    TokensConcat(phrase, more);
    assert (tokens + TokensOf(more))[|tokens|..] == TokensOf(more);
  }

  /** What may follow a list: something loose that neither continues it nor starts an item. */
  ghost predicate Follows(more: seq<Piece>, separator: Token) {
    && Spaced(more) && (more != [] ==> Loose(more[0]))
    && (TokensOf(more) != [] ==> TokensOf(more)[0] !in [separator, Word("s"), Word("t")] && !TokensOf(more)[0].Quoted?)
  }

  lemma NoneFollows(more: seq<Piece>, separator: Token)
    requires Follows(more, separator)
    ensures !([separator] <= TokensOf(more)) && ReadColumn(TokensOf(more)).None?
        && ReadSourceColumn(TokensOf(more)).None?
    ensures ReadAssigned(TokensOf(more)).None? && ReadEquated(TokensOf(more)).None?
  {
    assert [Word("s"), Symbol('.')][0] == Word("s") && [Word("t"), Symbol('.')][0] == Word("t");
  }

  lemma MappedSame(names: seq<string>)
    ensures Mapped(names, Same) == names
  {
    forall i | 0 <= i < |names| ensures Mapped(names, Same)[i] == names[i] {
      assert Mapped(names, Same)[i] == Same(names[i]);
    }
  }

  lemma PathThen(parts: seq<string>, more: seq<Piece>)
    requires Follows(more, Symbol('.'))
    ensures Spaced(Path(parts) + more) && ReadPath(TokensOf(Path(parts) + more)) == if Named(parts)
        then Some((parts, TokensOf(more))) else None
  {
    ItemsReadBack();
    EmptyNamesDoNot();
    ItemsAreSpaced();
    SeparatorTokens();
    NoneFollows(more, Symbol('.'));
    MappedSame(parts);
    JoinedIsSpaced(parts, Column, Dot());
    SpacedConcat(Path(parts), more);
    TokensConcat(Path(parts), more);
    ReadsSome(parts, Column, Dot(), ReadColumn, Same, TokensOf(more));
  }

  lemma ColumnsThen(names: seq<string>, more: seq<Piece>)
    requires Follows(more, Symbol(','))
    ensures var p := Joined(names, Column, Comma()) + more;
            && Spaced(p)
            && ReadSome(ReadColumn, [Symbol(',')], TokensOf(p)) == if Named(names)
                 then Some((names, TokensOf(more))) else None
  {
    ItemsReadBack();
    EmptyNamesDoNot();
    ItemsAreSpaced();
    SeparatorTokens();
    NoneFollows(more, Symbol(','));
    MappedSame(names);
    JoinedIsSpaced(names, Column, Comma());
    SpacedConcat(Joined(names, Column, Comma()), more);
    TokensConcat(Joined(names, Column, Comma()), more);
    ReadsSome(names, Column, Comma(), ReadColumn, Same, TokensOf(more));
  }

  lemma SourceColumnsThen(names: seq<string>, more: seq<Piece>)
    requires Follows(more, Symbol(','))
    ensures var p := Joined(names, SourceColumn, Comma()) + more;
            && Spaced(p)
            && ReadSome(ReadSourceColumn, [Symbol(',')], TokensOf(p))
               == if Named(names) then Some((names, TokensOf(more))) else None
  {
    ItemsReadBack();
    EmptyNamesDoNot();
    ItemsAreSpaced();
    SeparatorTokens();
    NoneFollows(more, Symbol(','));
    MappedSame(names);
    JoinedIsSpaced(names, SourceColumn, Comma());
    SpacedConcat(Joined(names, SourceColumn, Comma()), more);
    TokensConcat(Joined(names, SourceColumn, Comma()), more);
    ReadsSome(names, SourceColumn, Comma(), ReadSourceColumn, Same, TokensOf(more));
  }

  lemma AssignedThen(names: seq<string>, more: seq<Piece>)
    requires Follows(more, Symbol(','))
    ensures var p := Joined(names, Assigned, Comma()) + more;
            && Spaced(p)
            && ReadSome(ReadAssigned, [Symbol(',')], TokensOf(p))
               == if Named(names) then Some((Mapped(names, Twice), TokensOf(more))) else None
  {
    ItemsReadBack();
    EmptyNamesDoNot();
    ItemsAreSpaced();
    SeparatorTokens();
    NoneFollows(more, Symbol(','));
    JoinedIsSpaced(names, Assigned, Comma());
    SpacedConcat(Joined(names, Assigned, Comma()), more);
    TokensConcat(Joined(names, Assigned, Comma()), more);
    ReadsSome(names, Assigned, Comma(), ReadAssigned, Twice, TokensOf(more));
  }

  lemma EquatedThen(names: seq<string>, more: seq<Piece>)
    requires Follows(more, Word("AND"))
    ensures var p := Joined(names, Equated, And()) + more;
            && Spaced(p)
            && ReadSome(ReadEquated, WordTokens(["AND"]), TokensOf(p))
               == if Named(names) then Some((Mapped(names, Twice), TokensOf(more))) else None
  {
    ItemsReadBack();
    EmptyNamesDoNot();
    ItemsAreSpaced();
    SeparatorTokens();
    NoneFollows(more, Word("AND"));
    assert WordTokens(["AND"]) == [Word("AND")];
    JoinedIsSpaced(names, Equated, And());
    SpacedConcat(Joined(names, Equated, And()), more);
    TokensConcat(Joined(names, Equated, And()), more);
    ReadsSome(names, Equated, And(), ReadEquated, Twice, TokensOf(more));
  }

  // --- the whole statement ------------------------------------------------

  /** `more` begins, loosely, with this token. */
  ghost predicate Begins(more: seq<Piece>, token: Token) {
    Spaced(more) && more != [] && Loose(more[0]) && TokensOf(more) != [] && TokensOf(more)[0] == token
  }

  lemma CloseThen(more: seq<Piece>)
    requires Spaced(more)
    ensures Begins([S(')')] + more, Symbol(')'))
        && Expect([Symbol(')')], TokensOf([S(')')] + more)) == Some(TokensOf(more))
  {
    SeparatorTokens();
    MarksAreLoose();
    PhraseThen([S(')')], [Symbol(')')], more);
  }

  lemma OpenThen(more: seq<Piece>)
    requires Spaced(more)
    ensures Begins([Space, S('(')] + more, Symbol('('))
    ensures Expect([Symbol('(')], TokensOf([Space, S('(')] + more)) == Some(TokensOf(more))
  {
    SeparatorTokens();
    MarksAreLoose();
    PhraseThen([Space, S('(')], [Symbol('(')], more);
  }

  lemma ValuesThen(names: seq<string>)
    ensures var p := Values() + (Joined(names, SourceColumn, Comma()) + [S(')')]);
            && Begins(p, Symbol(')'))
            && exists rest ::
                 Expect([Symbol(')')] + (WordTokens(["VALUES"]) + [Symbol('(')]), TokensOf(p)) == Some(rest)
                 && ReadSome(ReadSourceColumn, [Symbol(',')], rest)
                    == if Named(names) then Some((names, [Symbol(')')])) else None
  {
    SeparatorTokens();
    Keywords();
    ClosingPhrase("VALUES");
    SourceColumnsThen(names, [S(')')]);
    var p := Joined(names, SourceColumn, Comma()) + [S(')')];
    PhraseThen(Values(), [Symbol(')')] + (WordTokens(["VALUES"]) + [Symbol('(')]), p);
  }

  lemma WhenNotMatchedThen(more: seq<Piece>)
    requires Spaced(more)
    ensures var p, ws := WhenNotMatched() + more, WordTokens(["WHEN", "NOT", "MATCHED", "THEN", "INSERT"]);
            && Begins(p, Word("WHEN")) && |TokensOf(p)| > 1 && TokensOf(p)[1] == Word("NOT")
            && Expect(ws + [Symbol('(')], TokensOf(p)) == Some(TokensOf(more))
  {
    BranchKeywords();
    var ws := ["WHEN", "NOT", "MATCHED", "THEN", "INSERT"];
    PlainPhrase(ws);
    PhraseThen(WhenNotMatched(), WordTokens(ws) + [Symbol('(')], more);
  }

  lemma InsertBranchReadsBack(names: seq<string>)
    ensures Begins(InsertBranch(names), Word("WHEN"))
    ensures ReadInsertBranch(TokensOf(InsertBranch(names))) == if Named(names) then Some((names, names)) else None
    ensures ReadSets(TokensOf(InsertBranch(names))) == Some(([], TokensOf(InsertBranch(names))))
  {
    ValuesThen(names);
    var p1 := Values() + (Joined(names, SourceColumn, Comma()) + [S(')')]);
    ColumnsThen(names, p1);
    WhenNotMatchedThen(Joined(names, Column, Comma()) + p1);
    var ts := TokensOf(InsertBranch(names));
    assert ts[0] == Word("WHEN") && ts[1] == Word("NOT");
    assert WordTokens(["WHEN", "MATCHED", "THEN", "UPDATE", "SET"])[1] == Word("MATCHED");
  }

  lemma WhenMatchedThen(more: seq<Piece>)
    requires Spaced(more)
    ensures var p := WhenMatched() + more;
            Spaced(p)
                && Expect(WordTokens(["WHEN", "MATCHED", "THEN", "UPDATE", "SET"]), TokensOf(p)) == Some(TokensOf(more))
  {
    BranchKeywords();
    var ws := ["WHEN", "MATCHED", "THEN", "UPDATE", "SET"];
    PlainPhrase(ws);
    PhraseThen(WhenMatched(), WordTokens(ws), more);
  }

  lemma UpdateBranchThen(updates: seq<string>, more: seq<Piece>)
    requires Follows(more, Symbol(',')) && updates != []
    ensures var p := UpdateBranch(updates) + more;
            && Spaced(p)
            && ReadSets(TokensOf(p)) == if Named(updates) then Some((Mapped(updates, Twice), TokensOf(more))) else None
  {
    AssignedThen(updates, more);
    var sets := Joined(updates, Assigned, Comma());
    WhenMatchedThen(sets + more);
    assert UpdateBranch(updates) + more == WhenMatched() + (sets + more);
  }

  lemma BranchesReadBack(updates: seq<string>, names: seq<string>)
    ensures var p := UpdateBranch(updates) + InsertBranch(names);
            && Spaced(p)
            && ReadSets(TokensOf(p)) == if updates == [] || Named(updates)
                                        then Some((Mapped(updates, Twice), TokensOf(InsertBranch(names)))) else None
  {
    InsertBranchReadsBack(names);
    if updates == [] {
      assert UpdateBranch(updates) + InsertBranch(names) == InsertBranch(names);
      assert Mapped(updates, Twice) == [];
    } else {
      UpdateBranchThen(updates, InsertBranch(names));
    }
  }

  ghost function MergeOf(target: seq<string>, source: seq<string>, names: seq<string>, key: seq<string>): Merge {
    Merge(target, source, Mapped(key, Twice), Mapped(Outside(names, key), Twice), names, names)
  }

  lemma ConditionReadsBack(names: seq<string>, key: seq<string>)
    ensures Spaced(Condition(names, key))
    ensures ReadCondition(TokensOf(Condition(names, key)))
            == if Named(key) && Named(names) then Some(MergeOf([], [], names, key)) else None
  {
    OutsideIs(names, key);
    InsertBranchReadsBack(names);
    BranchesReadBack(Outside(names, key), names);
    var tail := UpdateBranch(Outside(names, key)) + InsertBranch(names);
    CloseThen(tail);
    EquatedThen(key, [S(')')] + tail);
  }

  lemma IntoThen(verb: string, target: seq<string>, more: seq<Piece>)
    requires GoodToken(Word(verb)) && GoodToken(Word("INTO")) && Follows(more, Symbol('.'))
    ensures var p := Into(verb) + (Path(target) + more);
            && Spaced(p)
            && exists rest :: Expect(WordTokens([verb, "INTO"]), TokensOf(p)) == Some(rest)
                 && ReadPath(rest) == if Named(target) then Some((target, TokensOf(more))) else None
  {
    PathThen(target, more);
    PlainPhrase([verb, "INTO"]);
    PhraseThen(Into(verb), WordTokens([verb, "INTO"]), Path(target) + more);
  }

  lemma UsingReadsBack(source: seq<string>, names: seq<string>, key: seq<string>) returns (p: seq<Piece>)
    ensures p == Using() + (Path(source) + (On() + Condition(names, key))) && Begins(p, Word("AS"))
    ensures ReadUsing(TokensOf(p)) == if Named(source) && Named(names) && Named(key)
                                      then Some(MergeOf([], source, names, key)) else None
  {
    ConditionReadsBack(names, key);
    var more := OnThen(source, Condition(names, key));
    UsingThen(more);
    p := Using() + more;
  }

  lemma MergePiecesReadBack(target: seq<string>, source: seq<string>, names: seq<string>, key: seq<string>)
    ensures Spaced(MergePieces(target, source, names, key))
    ensures ReadMerge(TokensOf(MergePieces(target, source, names, key)))
            == if Named(target) && Named(source) && Named(names) && Named(key)
               then Some(MergeOf(target, source, names, key)) else None
  {
    var p := UsingReadsBack(source, names, key);
    Keywords();
    IntoThen("MERGE", target, p);
  }

  lemma OnThen(source: seq<string>, more: seq<Piece>) returns (p: seq<Piece>)
    requires Spaced(more)
    ensures p == Path(source) + (On() + more) && Spaced(p)
    ensures exists rest :: ReadPath(TokensOf(p)) == (if Named(source) then Some((source, rest)) else None)
              && Expect(WordTokens(["AS", "s", "ON"]) + [Symbol('(')], rest) == Some(TokensOf(more))
  {
    Keywords();
    PlainPhrase(["AS", "s", "ON"]);
    PhraseThen(On(), WordTokens(["AS", "s", "ON"]) + [Symbol('(')], more);
    PathThen(source, On() + more);
    p := Path(source) + (On() + more);
  }

  lemma UsingThen(more: seq<Piece>)
    requires Spaced(more)
    ensures Begins(Using() + more, Word("AS"))
        && Expect(WordTokens(["AS", "t", "USING"]), TokensOf(Using() + more)) == Some(TokensOf(more))
  {
    Keywords();
    PlainPhrase(["AS", "t", "USING"]);
    PhraseThen(Using(), WordTokens(["AS", "t", "USING"]), more);
  }

  lemma FromThen(source: seq<string>)
    ensures var p := From() + Path(source);
            && Follows(p, Symbol(','))
            && exists rest :: Expect(WordTokens(["FROM"]), TokensOf(p)) == Some(rest)
                              && ReadPath(rest) == if Named(source) then Some((source, [])) else None
  {
    Keywords();
    PathThen(source, []);
    assert Path(source) + [] == Path(source);
    PlainPhrase(["FROM"]);
    PhraseThen(From(), WordTokens(["FROM"]), Path(source));
  }

  /** From SELECT to the end. */
  lemma SelectThen(source: seq<string>, names: seq<string>)
    ensures var p := Select() + (Joined(names, Column, Comma()) + (From() + Path(source)));
            && Begins(p, Symbol(')'))
            && exists r5, r6, r7 :: Expect([Symbol(')')] + WordTokens(["SELECT"]), TokensOf(p)) == Some(r5)
                 && ReadSome(ReadColumn, [Symbol(',')], r5) == (if Named(names) then Some((names, r6)) else None)
                 && Expect(WordTokens(["FROM"]), r6) == Some(r7)
                 && ReadPath(r7) == if Named(source) then Some((source, [])) else None
  {
    var p1 := From() + Path(source);
    FromThen(source);
    ColumnsThen(names, p1);
    Keywords();
    ClosingPhrase("SELECT");
    PhraseThen(Select(), [Symbol(')')] + WordTokens(["SELECT"]), Joined(names, Column, Comma()) + p1);
  }

  lemma InsertPiecesReadBack(target: seq<string>, source: seq<string>, names: seq<string>)
    ensures Spaced(InsertPieces(target, source, names))
    ensures ReadInsert(TokensOf(InsertPieces(target, source, names)))
            == if Named(target) && Named(source) && Named(names)
                then Some(Insert(target, source, names, names)) else None
  {
    SelectThen(source, names);
    var p3 := Select() + (Joined(names, Column, Comma()) + (From() + Path(source)));
    ColumnsThen(names, p3);
    var p4 := Joined(names, Column, Comma()) + p3;
    OpenThen(p4);
    Keywords();
    IntoThen("INSERT", target, [Space, S('(')] + p4);
  }

  // --- what a statement does ----------------------------------------------

  function Lookup(pairs: seq<(string, string)>, c: string): Option<string> {
    if pairs == [] then None else if pairs[0].0 == c then Some(pairs[0].1) else Lookup(pairs[1..], c)
  }

  function Zip(a: seq<string>, b: seq<string>): seq<(string, string)>
    requires |a| == |b|
  {
    seq(|a|, i requires 0 <= i < |a| => (a[i], b[i]))
  }

  predicate OnHolds(t: Row, s: Row, on: seq<(string, string)>) {
    forall p | p in on :: At(t, p.0) != Null && At(t, p.0) == At(s, p.1)
  }

  function SetRow(t: Row, s: Row, sets: seq<(string, string)>): Row {
    map c | c in t :: match Lookup(sets, c) case None => t[c] case Some(x) => At(s, x)
  }

  function InsertedRow(columns: seq<LiveColumn>, pairs: seq<(string, string)>, s: Row): Row {
    map c | c in Names(columns) :: match Lookup(pairs, c) case None => Null case Some(x) => At(s, x)
  }

  function LastOn(t: Row, ss: seq<Row>, m: Merge): Row {
    if ss == [] then t
    else if OnHolds(t, ss[|ss| - 1], m.on) then SetRow(t, ss[|ss| - 1], m.sets)
    else LastOn(t, ss[..|ss| - 1], m)
  }

  /** The source rows no row of the table satisfies ON with, stored through the INSERT branch. */
  function Added(columns: seq<LiveColumn>, rows: seq<Row>, ss: seq<Row>, m: Merge): seq<Row>
    requires |m.columns| == |m.values|
  {
    if ss == [] then []
    else (if exists t | t in rows :: OnHolds(t, ss[0], m.on) then []
        else [InsertedRow(columns, Zip(m.columns, m.values), ss[0])])
         + Added(columns, rows, ss[1..], m)
  }

  function RunMerge(m: Merge, columns: seq<LiveColumn>, rows: seq<Row>, ss: seq<Row>): seq<Row>
    requires |m.columns| == |m.values|
  {
    (if m.sets == [] then rows else seq(|rows|, i requires 0 <= i < |rows| => LastOn(rows[i], ss, m)))
        + Added(columns, rows, ss, m)
  }

  /** Two source rows satisfy ON with one row of the table. */
  predicate OnTwice(rows: seq<Row>, ss: seq<Row>, on: seq<(string, string)>) {
    exists i, j, k | 0 <= i < |rows| && 0 <= j < k < |ss| :: OnHolds(rows[i], ss[j], on) && OnHolds(rows[i], ss[k], on)
  }

  /** As RunMerge, but refusing to update a row twice. */
  function RunMergeOnce(m: Merge, columns: seq<LiveColumn>, rows: seq<Row>, ss: seq<Row>): Option<seq<Row>>
    requires |m.columns| == |m.values|
  {
    if m.sets != [] && OnTwice(rows, ss, m.on) then None else Some(RunMerge(m, columns, rows, ss))
  }

  function RunInsert(m: Insert, columns: seq<LiveColumn>, rows: seq<Row>, ss: seq<Row>): seq<Row>
    requires |m.columns| == |m.values|
  {
    rows + seq(|ss|, i requires 0 <= i < |ss| => InsertedRow(columns, Zip(m.columns, m.values), ss[i]))
  }

  lemma {:induction false} LookupTwice(names: seq<string>, c: string)
    ensures Lookup(Mapped(names, Twice), c) == if c in names then Some(c) else None
  {
    if names != [] {
      LookupTwice(names[1..], c);
      var pairs := Mapped(names, Twice);
      assert Twice(names[0]) == (names[0], names[0]);
      assert pairs[0] == (names[0], names[0]) && pairs[1..] == Mapped(names[1..], Twice);
      assert names == [names[0]] + names[1..];
    }
  }

  lemma OnIsMatches(t: Row, s: Row, key: seq<string>)
    ensures OnHolds(t, s, Mapped(key, Twice)) <==> Matches(t, s, key)
  {
    var on := Mapped(key, Twice);
    assert forall i | 0 <= i < |key| :: on[i] == (key[i], key[i]) && on[i] in on && key[i] in key;
  }

  lemma SetIsAssign(t: Row, s: Row, updates: seq<string>)
    ensures SetRow(t, s, Mapped(updates, Twice)) == Assign(t, s, updates)
  {
    forall c ensures Lookup(Mapped(updates, Twice), c) == if c in updates then Some(c) else None {
      LookupTwice(updates, c);
    }
  }

  lemma InsertedIsStored(columns: seq<LiveColumn>, names: seq<string>, s: Row)
    ensures InsertedRow(columns, Zip(names, names), s) == Stored(columns, names, s)
  {
    assert Zip(names, names) == Mapped(names, Twice);
    forall c ensures Lookup(Mapped(names, Twice), c) == if c in names then Some(c) else None {
      LookupTwice(names, c);
    }
  }

  lemma {:induction false} LastOnIsLastMerged(t: Row, ss: seq<Row>, m: Merge, names: seq<string>, key: seq<string>)
    requires m.on == Mapped(key, Twice) && m.sets == Mapped(Outside(names, key), Twice)
    ensures LastOn(t, ss, m) == LastMerged(t, ss, names, key)
  {
    if ss != [] {
      OnIsMatches(t, ss[|ss| - 1], key);
      SetIsAssign(t, ss[|ss| - 1], Outside(names, key));
      LastOnIsLastMerged(t, ss[..|ss| - 1], m, names, key);
    }
  }

  lemma {:induction false} AddedIsUnmatched(columns: seq<LiveColumn>, rows: seq<Row>, ss: seq<Row>, m: Merge,
                                            names: seq<string>, key: seq<string>)
    requires m.on == Mapped(key, Twice) && m.columns == names && m.values == names
    ensures Added(columns, rows, ss, m) == StoredAll(columns, names, Unmatched(rows, ss, key))
  {
    if ss != [] {
      AddedIsUnmatched(columns, rows, ss[1..], m, names, key);
      InsertedIsStored(columns, names, ss[0]);
      forall t | t in rows ensures OnHolds(t, ss[0], m.on) <==> Matches(t, ss[0], key) {
        OnIsMatches(t, ss[0], key);
      }
      var first := if HasMatch(rows, ss[0], key) then [] else [ss[0]];
      assert StoredAll(columns, names, first + Unmatched(rows, ss[1..], key))
             == StoredAll(columns, names, first) + StoredAll(columns, names, Unmatched(rows, ss[1..], key));
    }
  }

  lemma RunMergeIsDuckMerge(target: seq<string>, source: seq<string>, columns: seq<LiveColumn>, rows: seq<Row>,
                            ss: seq<Row>, names: seq<string>, key: seq<string>)
    ensures RunMerge(MergeOf(target, source, names, key), columns, rows, ss) == DuckMerge(columns, rows, ss, names, key)
  {
    var m := MergeOf(target, source, names, key);
    AddedIsUnmatched(columns, rows, ss, m, names, key);
    assert m.sets == [] <==> Outside(names, key) == [];
    forall i | 0 <= i < |rows| ensures LastOn(rows[i], ss, m) == LastMerged(rows[i], ss, names, key) {
      LastOnIsLastMerged(rows[i], ss, m, names, key);
    }
  }

  /** Where at most one source row matches, the last match is the first. */
  lemma {:induction false} OnlyMatchIsFirst(t: Row, ss: seq<Row>, names: seq<string>, key: seq<string>)
    requires forall j, k | 0 <= j < k < |ss| :: !(Matches(t, ss[j], key) && Matches(t, ss[k], key))
    ensures LastMerged(t, ss, names, key) == Overwritten(t, ss, names, key)
  {
    if ss != [] {
      var init, s := ss[..|ss| - 1], ss[|ss| - 1];
      assert ss == init + [s];
      OnlyMatchIsFirst(t, init, names, key);
      OverwrittenSnoc(t, init, s, names, key);
      AssignIsUpdated(t, s, names, key);
      if Matches(t, s, key) {
        forall x | x in init ensures !Matches(t, x, key) {
          var j :| 0 <= j < |init| && init[j] == x;
          assert ss[j] == x;
        }
      } else if forall x | x in init :: !Matches(t, x, key) {
        UnmatchedUntouched(t, init, names, key);
      }
    }
  }

  lemma RunMergeOnceIsTrinoMerge(target: seq<string>, source: seq<string>, columns: seq<LiveColumn>, rows: seq<Row>,
                                 ss: seq<Row>, names: seq<string>, key: seq<string>)
    ensures RunMergeOnce(MergeOf(target, source, names, key), columns, rows, ss)
            == TrinoMerge(columns, rows, ss, names, key)
  {
    var m := MergeOf(target, source, names, key);
    RunMergeIsDuckMerge(target, source, columns, rows, ss, names, key);
    assert m.sets == [] <==> Outside(names, key) == [];
    forall i, j | 0 <= i < |rows| && 0 <= j < |ss|
        ensures OnHolds(rows[i], ss[j], m.on) == Matches(rows[i], ss[j], key) {
      OnIsMatches(rows[i], ss[j], key);
    }
    assert OnTwice(rows, ss, m.on) == Ambiguous(rows, ss, key);
    if m.sets != [] && !Ambiguous(rows, ss, key) {
      forall i | 0 <= i < |rows| ensures LastMerged(rows[i], ss, names, key) == MergedRow(rows[i], ss, names, key) {
        OnlyMatchIsFirst(rows[i], ss, names, key);
        MergedIsFirst(rows[i], ss, names, key);
      }
      var last := seq(|rows|, i requires 0 <= i < |rows| => LastMerged(rows[i], ss, names, key));
      assert last == MergedAll(rows, ss, names, key);
    }
  }

  // --- the main results ---------------------------------------------------

  function ReadMergeText(text: string): Option<Merge> {
    var tokens :- Lex(text);
    ReadMerge(tokens)
  }

  function ReadInsertText(text: string): Option<Insert> {
    var tokens :- Lex(text);
    ReadInsert(tokens)
  }

  /** Read by SQL's grammar, the text is a MERGE from exactly this source into exactly this target; carried out as
      DuckDB does, it is DuckDB's MERGE, and with unique keys it leaves the pure upsert. */
  ghost predicate UpsertsOnDuckDB(text: string, target: seq<string>, source: seq<string>, t: Table, d: Data,
                                  key: seq<string>)
  {
    var m := ReadMergeText(text);
    && m.Some? && m.value.target == target && m.value.source == source && |m.value.columns| == |m.value.values|
    && RunMerge(m.value, t.columns, t.rows, d.rows) == DuckMerge(t.columns, t.rows, d.rows, d.columns, key)
    && (Keyed(d.rows, key) ==> RunMerge(m.value, t.columns, t.rows, d.rows) == Override(t, d, key).rows)
  }

  /** Carried out as Trino does, it is Trino's MERGE, refusals included. */
  ghost predicate UpsertsOnTrino(text: string, target: seq<string>, source: seq<string>, t: Table, d: Data,
                                 key: seq<string>)
  {
    var m := ReadMergeText(text);
    && m.Some? && m.value.target == target && m.value.source == source && |m.value.columns| == |m.value.values|
    && RunMergeOnce(m.value, t.columns, t.rows, d.rows) == TrinoMerge(t.columns, t.rows, d.rows, d.columns, key)
    && (Keyed(d.rows, key) ==> RunMergeOnce(m.value, t.columns, t.rows, d.rows) == Some(Override(t, d, key).rows))
  }

  /** Likewise for INSERT ... SELECT: every source row is added, and nothing else changes. */
  ghost predicate Appends(text: string, target: seq<string>, source: seq<string>, t: Table, d: Data) {
    var m := ReadInsertText(text);
    && m.Some? && m.value.target == target && m.value.source == source && |m.value.columns| == |m.value.values|
    && RunInsert(m.value, t.columns, t.rows, d.rows) == t.rows + StoredAll(t.columns, d.columns, d.rows)
  }

  lemma MergeTextUpserts(target: seq<string>, source: seq<string>, t: Table, d: Data, key: seq<string>)
    ensures var text := Text(MergePieces(target, source, d.columns, key));
            && (ReadMergeText(text).Some? <==> Named(target) && Named(source) && Named(d.columns) && Named(key))
            && (ReadMergeText(text).Some? ==>
                  UpsertsOnDuckDB(text, target, source, t, d, key) && UpsertsOnTrino(text, target, source, t, d, key))
  {
    MergePiecesReadBack(target, source, d.columns, key);
    LexText(MergePieces(target, source, d.columns, key));
    RunMergeIsDuckMerge(target, source, t.columns, t.rows, d.rows, d.columns, key);
    RunMergeOnceIsTrinoMerge(target, source, t.columns, t.rows, d.rows, d.columns, key);
    if Keyed(d.rows, key) {
      DuckMergeRefines(t, d, key);
      TrinoMergeRefines(t, d, key);
    }
  }

  /** Whatever characters the names hold, DuckDB's MERGE text is the upsert, refused only without a key. It is SQL
      exactly when something is inserted and no name is empty. */
  lemma MergeFromUpserts(table: seq<string>, source: string, t: Table, d: Data, key: seq<string>)
    ensures MergeFrom(table, d.columns, key, source).None? <==> key == []
    ensures key != [] ==>
              var text := MergeFrom(table, d.columns, key, source).value;
              && (ReadMergeText(text).Some? <==> Named(table) && source != "" && Named(d.columns) && "" !in key)
              && (ReadMergeText(text).Some? ==> UpsertsOnDuckDB(text, table, [source], t, d, key))
  {
    MergeTextUpserts(table, [source], t, d, key);
  }

  /** So is Trino's, refused only for an empty identifier. It is SQL exactly when there are a key and columns. */
  lemma MergeStatementUpserts(target: seq<string>, stage: seq<string>, t: Table, d: Data, key: seq<string>)
    ensures MergeStatement(target, stage, d.columns, key).None?
        <==> "" in target || "" in stage || "" in d.columns || "" in key
    ensures var text := MergeStatement(target, stage, d.columns, key);
            text.Some? ==>
              && (ReadMergeText(text.value).Some? <==> target != [] && stage != [] && d.columns != [] && key != [])
              && (ReadMergeText(text.value).Some? ==> UpsertsOnTrino(text.value, target, stage, t, d, key))
  {
    MergeTextUpserts(target, stage, t, d, key);
  }

  lemma InsertTextAppends(target: seq<string>, source: seq<string>, t: Table, d: Data)
    ensures var text := Text(InsertPieces(target, source, d.columns));
            && (ReadInsertText(text).Some? <==> Named(target) && Named(source) && Named(d.columns))
            && (ReadInsertText(text).Some? ==> Appends(text, target, source, t, d))
  {
    InsertPiecesReadBack(target, source, d.columns);
    LexText(InsertPieces(target, source, d.columns));
    forall i | 0 <= i < |d.rows|
      ensures InsertedRow(t.columns, Zip(d.columns, d.columns), d.rows[i]) == Stored(t.columns, d.columns, d.rows[i])
    {
      InsertedIsStored(t.columns, d.columns, d.rows[i]);
    }
  }

  lemma RenderedInsertAppends(target: seq<string>, stage: seq<string>, source: string, t: Table, d: Data)
    ensures var text := InsertSelect(target, d.columns, source);
            && (ReadInsertText(text).Some? <==> Named(target) && source != "" && Named(d.columns))
            && (ReadInsertText(text).Some? ==> Appends(text, target, [source], t, d))
    ensures AppendStatement(target, stage, d.columns).None? <==> "" in target || "" in stage || "" in d.columns
    ensures var text := AppendStatement(target, stage, d.columns);
            text.Some? ==>
              && (ReadInsertText(text.value).Some? <==> target != [] && stage != [] && d.columns != [])
              && (ReadInsertText(text.value).Some? ==> Appends(text.value, target, stage, t, d))
  {
    InsertTextAppends(target, [source], t, d);
    InsertTextAppends(target, stage, t, d);
  }
}
