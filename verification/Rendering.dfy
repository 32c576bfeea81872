/** The other text the adapters render: the DuckLake ATTACH statement with its libpq connection string, and
    the percent-doubled INSERT template of Postgres. */
module Rendering {
  import opened Rows
  import opened SqlText
  import Json

  // --- libpq conninfo -----------------------------------------------------

  predicate IsBareChar(c: char) {
    'A' <= c <= 'Z' || 'a' <= c <= 'z' || '0' <= c <= '9' || c in "_.:/-"
  }

  function Escaped(v: string): string {
    if v == "" then ""
    else (if v[0] == '\\' || v[0] == '\'' then ['\\', v[0]] else [v[0]]) + Escaped(v[1..])
  }

  predicate IsBare(v: string) {
    v != "" && forall i | 0 <= i < |v| :: IsBareChar(v[i])
  }

  /** Quoted only when it needs it. */
  function LibpqValue(v: string): string {
    if IsBare(v) then v else ['\''] + Escaped(v) + ['\'']
  }

  datatype Setting = Setting(keyword: string, value: string)

  function Conninfo(settings: seq<Setting>): string {
    if settings == [] then ""
    else
      var first := settings[0].keyword + "=" + LibpqValue(settings[0].value);
      if |settings| == 1 then first else first + " " + Conninfo(settings[1..])
  }

  /** The rest of a quoted value: backslash takes the next character as it is. */
  function ReadQuoted(t: string): (r: Option<(string, string)>)
    ensures r.Some? ==> |r.value.1| < |t|
  {
    if t == "" then None
    else if t[0] == '\'' then Some(("", t[1..]))
    else if t[0] == '\\' then
      if |t| == 1 then None
      else match ReadQuoted(t[2..])
        case None => None
        case Some((v, rest)) => Some(([t[1]] + v, rest))
    else match ReadQuoted(t[1..])
      case None => None
      case Some((v, rest)) => Some(([t[0]] + v, rest))
  }

  /** Up to the next space. */
  function ReadBare(t: string): (r: (string, string))
    ensures |r.1| <= |t|
  {
    if t == "" || t[0] == ' ' then ("", t)
    else var (v, rest) := ReadBare(t[1..]); ([t[0]] + v, rest)
  }

  function ReadKeyword(t: string): (r: Option<(string, string)>)
    ensures r.Some? ==> |r.value.1| < |t|
  {
    if t == "" then None
    else if t[0] == '=' then Some(("", t[1..]))
    else match ReadKeyword(t[1..])
      case None => None
      case Some((k, rest)) => Some(([t[0]] + k, rest))
  }

  function ReadConninfo(t: string): Option<seq<Setting>>
    decreases |t|
  {
    if t == "" then Some([])
    else if t[0] == ' ' then ReadConninfo(t[1..])
    else match ReadKeyword(t)
      case None => None
      case Some((k, afterKeyword)) =>
        match ReadValue(afterKeyword)
        case None => None
        case Some((v, rest)) =>
          match ReadConninfo(rest)
          case None => None
          case Some(more) => Some([Setting(k, v)] + more)
  }

  lemma {:induction false} ReadsQuoted(v: string, rest: string)
    ensures ReadQuoted(Escaped(v) + ['\''] + rest) == Some((v, rest))
  {
    var t := Escaped(v) + ['\''] + rest;
    if v == "" {
      assert t == ['\''] + rest && t[1..] == rest;
    } else {
      var tail := Escaped(v[1..]) + ['\''] + rest;
      ReadsQuoted(v[1..], rest);
      assert v == [v[0]] + v[1..];
      if v[0] == '\\' || v[0] == '\'' {
        assert t == ['\\', v[0]] + tail && t[2..] == tail;
      } else {
        assert t == [v[0]] + tail && t[1..] == tail;
      }
    }
  }

  lemma {:induction false} ReadsBare(v: string, rest: string)
    requires (forall i | 0 <= i < |v| :: IsBareChar(v[i])) && (rest == "" || rest[0] == ' ')
    ensures ReadBare(v + rest) == (v, rest)
  {
    if v == "" {
      assert v + rest == rest;
    } else {
      assert (v + rest)[1..] == v[1..] + rest;
      ReadsBare(v[1..], rest);
      assert v == [v[0]] + v[1..];
    }
  }

  lemma {:induction false} ReadsKeyword(k: string, rest: string)
    requires forall i | 0 <= i < |k| :: k[i] != '='
    ensures ReadKeyword(k + "=" + rest) == Some((k, rest))
  {
    var t := k + "=" + rest;
    if k == "" {
      assert t == "=" + rest && t[1..] == rest;
    } else {
      assert t[1..] == k[1..] + "=" + rest;
      ReadsKeyword(k[1..], rest);
      assert k == [k[0]] + k[1..];
    }
  }

  predicate GoodKeyword(k: string) {
    k != "" && k[0] != ' ' && forall i | 0 <= i < |k| :: k[i] != '='
  }

  lemma ReadsOneSetting(s: Setting, rest: string)
    requires GoodKeyword(s.keyword) && (rest == "" || rest[0] == ' ') && ReadConninfo(rest).Some?
    ensures ReadConninfo(s.keyword + "=" + LibpqValue(s.value) + rest) == Some([s] + ReadConninfo(rest).value)
  {
    var k, v := s.keyword, LibpqValue(s.value);
    var t := k + "=" + v + rest;
    assert t == k + "=" + (v + rest);
    ReadsKeyword(k, v + rest);
    ReadsValue(s.value, rest);
  }

  function ReadValue(t: string): (r: Option<(string, string)>)
    ensures r.Some? ==> |r.value.1| <= |t|
  {
    if t != "" && t[0] == '\'' then ReadQuoted(t[1..]) else Some(ReadBare(t))
  }

  lemma ReadsValue(value: string, rest: string)
    requires rest == "" || rest[0] == ' '
    ensures ReadValue(LibpqValue(value) + rest) == Some((value, rest))
  {
    var v := LibpqValue(value);
    if IsBare(value) {
      ReadsBare(value, rest);
      assert (v + rest)[0] == value[0] && IsBareChar(value[0]);
    } else {
      assert (v + rest)[1..] == Escaped(value) + ['\''] + rest;
      ReadsQuoted(value, rest);
    }
  }

  /** The connection text un-escapes to the original keyword/value list, whatever the values. */
  lemma {:induction false} ConninfoReadsBack(settings: seq<Setting>)
    requires forall i | 0 <= i < |settings| :: GoodKeyword(settings[i].keyword)
    ensures ReadConninfo(Conninfo(settings)) == Some(settings)
  {
    if settings != [] {
      var s, more := settings[0], settings[1..];
      assert settings == [s] + more;
      if more == [] {
        ReadsOneSetting(s, "");
        assert s.keyword + "=" + LibpqValue(s.value) + "" == Conninfo(settings);
      } else {
        ConninfoReadsBack(more);
        var rest := " " + Conninfo(more);
        assert rest[1..] == Conninfo(more);
        ReadsOneSetting(s, rest);
        assert Conninfo(settings) == s.keyword + "=" + LibpqValue(s.value) + rest;
      }
    }
  }

  // --- the ATTACH statement -----------------------------------------------

  datatype LakeSettings = LakeSettings(host: string, port: string, db: string, user: string, password: string,
                                       dataPath: string, inliningLimit: Option<int>)

  const SCHEME := "ducklake:postgres:"

  /** A passfile, when there is one, takes the password's place. */
  function ConnectionSettings(s: LakeSettings, passfile: Option<string>): seq<Setting> {
    [Setting("host", s.host), Setting("port", s.port), Setting("dbname", s.db), Setting("user", s.user),
     if passfile.Some? && passfile.value != "" then Setting("passfile", passfile.value)
         else Setting("password", s.password)]
  }

  function Number(n: int): seq<Piece> {
    if n < 0 then [S('-'), W(Json.Digits(-n))] else [W(Json.Digits(n))]
  }

  function LimitOption(limit: Option<int>): seq<Piece> {
    (if limit.None? then [] else [S(','), Space, W("DATA_INLINING_ROW_LIMIT"), Space] + Number(limit.value)) + [S(')')]
  }

  function Attached(catalog: string): seq<Piece> {
    [Space, W("AS"), Space, Q(catalog), Space, S('('), W("DATA_PATH"), Space]
  }

  function AttachPieces(conninfo: string, catalog: string, dataPath: string, limit: Option<int>): seq<Piece> {
    [W("ATTACH"), Space, Tok(Literal(conninfo))] + (Attached(catalog) + ([Tok(Literal(dataPath))] + LimitOption(limit)))
  }

  function AttachStatement(s: LakeSettings, catalog: string, passfile: Option<string>): string {
    Text(AttachPieces(SCHEME + Conninfo(ConnectionSettings(s, passfile)), catalog, s.dataPath, s.inliningLimit))
  }

  /** What ATTACH asks for. */
  datatype Attachment = Attachment(settings: seq<Setting>, catalog: string, dataPath: string, limit: Option<int>)

  function Negated(n: nat): int {
    0 - n
  }

  function ReadLimit(ts: seq<Token>): Option<Option<int>> {
    if ts == [Symbol(')')] then Some(None)
    else
      var r1 :- Expect([Symbol(','), Word("DATA_INLINING_ROW_LIMIT")], ts);
      if |r1| == 2 && r1[0].Word? && r1[1] == Symbol(')') then Some(Some(Json.Value(r1[0].text)))
      else if |r1| == 3 && r1[0] == Symbol('-') && r1[1].Word? && r1[2] == Symbol(')')
          then Some(Some(Negated(Json.Value(r1[1].text))))
      else None
  }

  function ReadAttach(text: string): Option<Attachment> {
    var ts :- Lex(text);
    if !(|ts| > 7 && ts[0] == Word("ATTACH") && ts[1].Literal? && SCHEME <= ts[1].value
        && ts[2] == Word("AS") && ts[3].Quoted?
         && ts[4] == Symbol('(') && ts[5] == Word("DATA_PATH") && ts[6].Literal?) then None
    else
      var settings :- ReadConninfo(ts[1].value[|SCHEME|..]);
      var limit :- ReadLimit(ts[7..]);
      Some(Attachment(settings, ts[3].name, ts[6].value, limit))
  }

  lemma KeywordsAreGood()
    ensures GoodKeyword("host") && GoodKeyword("port") && GoodKeyword("dbname") && GoodKeyword("user")
    ensures GoodKeyword("password") && GoodKeyword("passfile")
  {
  }

  lemma DigitsAreGood(n: nat)
    ensures GoodToken(Word(Json.Digits(n)))
  {
    assert forall i | 0 <= i < |Json.Digits(n)| :: Json.Digits(n)[i] in Json.Digits(n);
  }

  lemma NumberTokens(n: int)
    ensures Spaced(Number(n))
    ensures TokensOf(Number(n)) == if n < 0 then [Symbol('-'), Word(Json.Digits(-n))] else [Word(Json.Digits(n))]
  {
    if n < 0 {
      DigitsAreGood(-n);
      TokensOfTwo(S('-'), W(Json.Digits(-n)));
    } else {
      DigitsAreGood(n);
      TokensOfOne(W(Json.Digits(n)));
    }
  }

  lemma LimitWordIsGood()
    ensures GoodToken(Word("DATA_INLINING_ROW_LIMIT"))
  {
  }

  lemma NumberThenClose(n: int)
    ensures Spaced(Number(n) + [S(')')])
    ensures TokensOf(Number(n) + [S(')')])
        == (if n < 0 then [Symbol('-'), Word(Json.Digits(-n))] else [Word(Json.Digits(n))]) + [Symbol(')')]
  {
    NumberTokens(n);
    TokensOfOne(S(')'));
    SpacedConcat(Number(n), [S(')')]);
    TokensConcat(Number(n), [S(')')]);
  }

  lemma LimitTokens(n: int)
    ensures var p := LimitOption(Some(n));
            && Spaced(p) && p != [] && Loose(p[0])
            && TokensOf(p) == [Symbol(','), Word("DATA_INLINING_ROW_LIMIT")] + TokensOf(Number(n) + [S(')')])
  {
    var word := "DATA_INLINING_ROW_LIMIT";
    LimitWordIsGood();
    NumberThenClose(n);
    var a, b, p := [S(','), Space], [W(word), Space], Number(n) + [S(')')];
    TokensOfTwo(S(','), Space);
    TokensOfTwo(W(word), Space);
    SpacedConcat(b, p);
    TokensConcat(b, p);
    SpacedConcat(a, b + p);
    TokensConcat(a, b + p);
    assert LimitOption(Some(n)) == a + (b + p);
  }

  lemma LimitReadsBack(limit: Option<int>)
    ensures Spaced(LimitOption(limit)) && LimitOption(limit) != [] && Loose(LimitOption(limit)[0])
    ensures ReadLimit(TokensOf(LimitOption(limit))) == Some(limit)
  {
    if limit == None {
      TokensOfOne(S(')'));
      assert GoodToken(Symbol(')'));
      assert LimitOption(limit) == [S(')')];
    } else {
      var n := limit.value;
      LimitTokens(n);
      NumberThenClose(n);
      LimitIsRead(n, TokensOf(Number(n) + [S(')')]));
    }
  }

  lemma LimitIsRead(n: int, more: seq<Token>)
    requires more == (if n < 0 then [Symbol('-'), Word(Json.Digits(-n))] else [Word(Json.Digits(n))]) + [Symbol(')')]
    ensures ReadLimit([Symbol(','), Word("DATA_INLINING_ROW_LIMIT")] + more) == Some(Some(n))
  {
    var skipped := [Symbol(','), Word("DATA_INLINING_ROW_LIMIT")];
    assert (skipped + more)[|skipped|..] == more;
    assert (skipped + more)[0] != Symbol(')');
    Json.ValueOfDigits(if n < 0 then -n else n);
  }

  lemma AttachedTokens(catalog: string)
    ensures Spaced(Attached(catalog))
    ensures TokensOf(Attached(catalog)) == [Word("AS"), Quoted(catalog), Symbol('('), Word("DATA_PATH")]
  {
    AsCatalog(catalog);
    DataPathOption();
    var a, b := [Space, W("AS"), Space, Q(catalog)], [Space, S('('), W("DATA_PATH"), Space];
    SpacedConcat(a, b);
    TokensConcat(a, b);
    assert Attached(catalog) == a + b;
  }

  lemma AsCatalog(catalog: string)
    ensures Spaced([Space, W("AS"), Space, Q(catalog)])
    ensures TokensOf([Space, W("AS"), Space, Q(catalog)]) == [Word("AS"), Quoted(catalog)]
  {
    TokensOfTwo(Space, W("AS"));
    TokensOfTwo(Space, Q(catalog));
    TokensConcat([Space, W("AS")], [Space, Q(catalog)]);
    assert [Space, W("AS"), Space, Q(catalog)] == [Space, W("AS")] + [Space, Q(catalog)];
  }

  lemma DataPathOption()
    ensures Spaced([Space, S('('), W("DATA_PATH"), Space])
    ensures TokensOf([Space, S('('), W("DATA_PATH"), Space]) == [Symbol('('), Word("DATA_PATH")]
  {
    TokensOfTwo(Space, S('('));
    TokensOfTwo(W("DATA_PATH"), Space);
    TokensConcat([Space, S('(')], [W("DATA_PATH"), Space]);
    assert [Space, S('('), W("DATA_PATH"), Space] == [Space, S('(')] + [W("DATA_PATH"), Space];
  }

  lemma AttachOpens(conninfo: string)
    ensures Spaced([W("ATTACH"), Space, Tok(Literal(conninfo))])
    ensures TokensOf([W("ATTACH"), Space, Tok(Literal(conninfo))]) == [Word("ATTACH"), Literal(conninfo)]
  {
    var head := [W("ATTACH"), Space, Tok(Literal(conninfo))];
    TokensOfTwo(Space, head[2]);
    assert head[1..] == [Space, head[2]];
  }

  lemma AttachPiecesReadBack(conninfo: string, catalog: string, dataPath: string, limit: Option<int>)
    ensures Spaced(AttachPieces(conninfo, catalog, dataPath, limit))
    ensures TokensOf(AttachPieces(conninfo, catalog, dataPath, limit))
            == [Word("ATTACH"), Literal(conninfo), Word("AS"), Quoted(catalog),
                Symbol('('), Word("DATA_PATH"), Literal(dataPath)]
               + TokensOf(LimitOption(limit))
  {
    LimitReadsBack(limit);
    AttachedTokens(catalog);
    var path, head := [Tok(Literal(dataPath))], [W("ATTACH"), Space, Tok(Literal(conninfo))];
    TokensOfOne(path[0]);
    SpacedConcat(path, LimitOption(limit));
    TokensConcat(path, LimitOption(limit));
    var p := path + LimitOption(limit);
    SpacedConcat(Attached(catalog), p);
    TokensConcat(Attached(catalog), p);
    AttachOpens(conninfo);
    SpacedConcat(head, Attached(catalog) + p);
    TokensConcat(head, Attached(catalog) + p);
  }

  /** ATTACH reads back to what it was rendered from: un-doubling the connection literal and un-escaping it
      gives the original keyword/value list, whatever characters the values hold. */
  lemma AttachReadsBack(s: LakeSettings, catalog: string, passfile: Option<string>)
    ensures ReadAttach(AttachStatement(s, catalog, passfile))
            == Some(Attachment(ConnectionSettings(s, passfile), catalog, s.dataPath, s.inliningLimit))
    ensures ConnectionSettings(s, passfile)
            == [Setting("host", s.host), Setting("port", s.port), Setting("dbname", s.db), Setting("user", s.user)]
               + if passfile.None? || passfile == Some("") then [Setting("password", s.password)]
                 else [Setting("passfile", passfile.value)]
  {
    var conn := Conninfo(ConnectionSettings(s, passfile));
    AttachPiecesReadBack(SCHEME + conn, catalog, s.dataPath, s.inliningLimit);
    LexText(AttachPieces(SCHEME + conn, catalog, s.dataPath, s.inliningLimit));
    KeywordsAreGood();
    ConninfoReadsBack(ConnectionSettings(s, passfile));
    LimitReadsBack(s.inliningLimit);
    assert (SCHEME + conn)[|SCHEME|..] == conn;
    var ts := TokensOf(AttachPieces(SCHEME + conn, catalog, s.dataPath, s.inliningLimit));
    assert ts[7..] == TokensOf(LimitOption(s.inliningLimit));
  }

  // --- the percent-doubled INSERT template --------------------------------

  /** `execute_values`' reading of a template: `%%` is a percent, `%s` the one place for the rows. */
  function SplitTemplate(t: string): Option<seq<string>> {
    if t == "" then Some([""])
    else if t[0] == '%' then
      if |t| == 1 then Some(["%"])
      else if t[1] == '%' then Prepend('%', SplitTemplate(t[2..]))
      else if t[1] == 's' then
        match SplitTemplate(t[2..])
        case None => None
        case Some(parts) => Some([""] + parts)
      else None
    else Prepend(t[0], SplitTemplate(t[1..]))
  }

  function Prepend(c: char, parts: Option<seq<string>>): Option<seq<string>> {
    match parts
    case None => None
    case Some(p) => if p == [] then None else Some([[c] + p[0]] + p[1..])
  }

  function Template(prefix: string, suffix: Option<string>): string {
    Doubled(prefix, '%') + (" VALUES %s" + Suffix(suffix))
  }

  lemma {:induction false} SplitDoubled(text: string, rest: string)
    requires SplitTemplate(rest).Some? && SplitTemplate(rest).value != []
    ensures var parts := SplitTemplate(rest).value;
            SplitTemplate(Doubled(text, '%') + rest) == Some([text + parts[0]] + parts[1..])
  {
    var t := Doubled(text, '%') + rest;
    var parts := SplitTemplate(rest).value;
    if text == "" {
      assert t == rest && text + parts[0] == parts[0] && parts == [parts[0]] + parts[1..];
    } else {
      var tail := Doubled(text[1..], '%') + rest;
      SplitDoubled(text[1..], rest);
      assert [text[0]] + (text[1..] + parts[0]) == text + parts[0];
      if text[0] == '%' {
        assert t == "%%" + tail && t[2..] == tail;
      } else {
        assert t == [text[0]] + tail && t[1..] == tail;
      }
    }
  }

  lemma {:induction false} SplitPlain(text: string, rest: string)
    requires forall i | 0 <= i < |text| :: text[i] != '%'
    requires SplitTemplate(rest).Some? && SplitTemplate(rest).value != []
    ensures var parts := SplitTemplate(rest).value;
            SplitTemplate(text + rest) == Some([text + parts[0]] + parts[1..])
  {
    var parts := SplitTemplate(rest).value;
    if text == "" {
      assert text + rest == rest && text + parts[0] == parts[0] && parts == [parts[0]] + parts[1..];
    } else {
      assert (text + rest)[1..] == text[1..] + rest;
      SplitPlain(text[1..], rest);
      assert [text[0]] + (text[1..] + parts[0]) == text + parts[0];
    }
  }

  function Suffix(suffix: Option<string>): string {
    if suffix.Some? then " " + Doubled(suffix.value, '%') else ""
  }

  lemma SuffixSplits(suffix: Option<string>)
    ensures SplitTemplate(Suffix(suffix)) == Some([if suffix.Some? then " " + suffix.value else ""])
  {
    if suffix.Some? {
      var v := suffix.value;
      SplitDoubled(v, "");
      assert Doubled(v, '%') + "" == Doubled(v, '%') && v + "" == v;
      assert [v] + [""][1..] == [v];
      SplitPlain(" ", Doubled(v, '%'));
      assert [" " + v] + [v][1..] == [" " + v];
    }
  }

  lemma HoleSplits(tail: string, after: string)
    requires SplitTemplate(tail) == Some([after])
    ensures SplitTemplate(" VALUES %s" + tail) == Some([" VALUES ", after])
  {
    var hole := "%s" + tail;
    assert hole[2..] == tail && hole[0] == '%' && hole[1] == 's';
    assert [""] + [after] == ["", after];
    assert SplitTemplate(hole) == Some(["", after]);
    SplitPlain(" VALUES ", hole);
    assert " VALUES " + "" == " VALUES " && ["", after][1..] == [after];
    assert [" VALUES "] + [after] == [" VALUES ", after];
    assert " VALUES %s" + tail == " VALUES " + hole;
  }

  /** Whatever percents the identifiers hold, the template splits around exactly one placeholder into the
      original prefix and suffix. */
  lemma TemplateSplitsOnce(prefix: string, suffix: Option<string>)
    ensures SplitTemplate(Template(prefix, suffix))
            == Some([prefix + " VALUES ", if suffix.Some? then " " + suffix.value else ""])
  {
    var after := if suffix.Some? then " " + suffix.value else "";
    SuffixSplits(suffix);
    HoleSplits(Suffix(suffix), after);
    SplitDoubled(prefix, " VALUES %s" + Suffix(suffix));
    assert [prefix + " VALUES "] + [" VALUES ", after][1..] == [prefix + " VALUES ", after];
    assert Template(prefix, suffix) == Doubled(prefix, '%') + (" VALUES %s" + Suffix(suffix));
  }
}
