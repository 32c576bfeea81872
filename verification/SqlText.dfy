/** Rendered SQL and connection text, and the readers that undo it. */
module SqlText {
  import opened Rows

  /** `text.replace(q, q + q)`. */
  function Doubled(text: string, q: char): string {
    if text == "" then "" else (if text[0] == q then [q, q] else [text[0]]) + Doubled(text[1..], q)
  }

  /** Reads up to a lone `q`, a pair of them standing for one: the value and the text after the closing `q`. */
  function Undouble(t: string, q: char): Option<(string, string)>
    decreases |t|
  {
    if t == "" then None
    else if t[0] == q then
      if |t| > 1 && t[1] == q then
        match Undouble(t[2..], q)
        case None => None
        case Some((s, rest)) => Some(([q] + s, rest))
      else Some(("", t[1..]))
    else
      match Undouble(t[1..], q)
      case None => None
      case Some((s, rest)) => Some(([t[0]] + s, rest))
  }

  lemma {:induction false} UndoubleDoubled(text: string, q: char, rest: string)
    requires rest == "" || rest[0] != q
    ensures Undouble(Doubled(text, q) + [q] + rest, q) == Some((text, rest))
  {
    var t := Doubled(text, q) + [q] + rest;
    if text == "" {
      assert t == [q] + rest && t[1..] == rest;
    } else {
      var tail := Doubled(text[1..], q) + [q] + rest;
      UndoubleDoubled(text[1..], q, rest);
      assert text == [text[0]] + text[1..];
      if text[0] == q {
        assert t == [q, q] + tail && t[2..] == tail;
      } else {
        assert t == [text[0]] + tail && t[1..] == tail;
      }
    }
  }

  function QuoteIdentifier(name: string): string {
    ['"'] + Doubled(name, '"') + ['"']
  }

  function SqlLiteral(value: string): string {
    ['\''] + Doubled(value, '\'') + ['\'']
  }

  // --- tokens (sections 5.2 and 5.3 of ISO/IEC 9075-2) --------------------

  datatype Token = Word(text: string) | Quoted(name: string) | Literal(value: string) | Symbol(symbol: char)

  predicate IsWordChar(c: char) {
    'a' <= c <= 'z' || 'A' <= c <= 'Z' || c == '_' || '0' <= c <= '9'
  }

  function TakeWord(t: string): (w: string)
    ensures w <= t && forall c | c in w :: IsWordChar(c)
  {
    if t == "" || !IsWordChar(t[0]) then "" else [t[0]] + TakeWord(t[1..])
  }

  lemma {:induction false} TakesWord(w: string, rest: string)
    requires (forall i | 0 <= i < |w| :: IsWordChar(w[i])) && (rest == "" || !IsWordChar(rest[0]))
    ensures TakeWord(w + rest) == w
  {
    if w == "" {
      assert w + rest == rest;
    } else {
      assert (w + rest)[1..] == w[1..] + rest;
      TakesWord(w[1..], rest);
    }
  }

  /** The tokens of a statement, None if a quote is left open. */
  function Lex(t: string): Option<seq<Token>>
    decreases |t|
  {
    if t == "" then Some([])
    else if t[0] == ' ' then Lex(t[1..])
    else if t[0] == '"' || t[0] == '\'' then
      match Undouble(t[1..], t[0])
      case None => None
      case Some((s, rest)) =>
        if |rest| >= |t| then None
        else match Lex(rest)
          case None => None
          case Some(more) => Some([if t[0] == '"' then Quoted(s) else Literal(s)] + more)
    else if IsWordChar(t[0]) then
      var w := TakeWord(t);
      match Lex(t[|w|..])
      case None => None
      case Some(more) => Some([Word(w)] + more)
    else
      match Lex(t[1..])
      case None => None
      case Some(more) => Some([Symbol(t[0])] + more)
  }

  /** A statement as it is put together: tokens and single spaces. */
  datatype Piece = Space | Tok(token: Token)

  predicate GoodToken(k: Token) {
    match k
    case Word(w) => w != "" && forall i | 0 <= i < |w| :: IsWordChar(w[i])
    case Symbol(c) => c != ' ' && c != '"' && c != '\'' && !IsWordChar(c)
    case _ => true
  }

  function Render(p: Piece): string {
    match p
    case Space => " "
    case Tok(Word(w)) => w
    case Tok(Quoted(n)) => QuoteIdentifier(n)
    case Tok(Literal(v)) => SqlLiteral(v)
    case Tok(Symbol(c)) => [c]
  }

  function Text(pieces: seq<Piece>): string {
    if pieces == [] then "" else Render(pieces[0]) + Text(pieces[1..])
  }

  function TokensOf(pieces: seq<Piece>): seq<Token> {
    if pieces == [] then []
    else (if pieces[0].Tok? then [pieces[0].token] else []) + TokensOf(pieces[1..])
  }

  /** Whether two neighbours stay apart without a space. */
  predicate Apart(a: Piece, b: Piece) {
    a.Space? || b.Space? || a.token.Symbol? || b.token.Symbol?
  }

  predicate Spaced(pieces: seq<Piece>) {
    && (forall i | 0 <= i < |pieces| :: pieces[i].Tok? ==> GoodToken(pieces[i].token))
    && (forall i | 0 <= i < |pieces| - 1 :: Apart(pieces[i], pieces[i + 1]))
  }

  lemma UndoubleShortens(t: string, q: char)
    ensures Undouble(t, q).Some? ==> |Undouble(t, q).value.1| < |t|
    decreases |t|
  {
    if t != "" {
      if t[0] == q {
        if |t| > 1 && t[1] == q {
          UndoubleShortens(t[2..], q);
        }
      } else {
        UndoubleShortens(t[1..], q);
      }
    }
  }

  lemma LexQuote(s: string, q: char, rest: string)
    requires (q == '"' || q == '\'') && (rest == "" || rest[0] != q) && Lex(rest).Some?
    ensures Lex([q] + Doubled(s, q) + [q] + rest)
        == Some([if q == '"' then Quoted(s) else Literal(s)] + Lex(rest).value)
  {
    var t := [q] + Doubled(s, q) + [q] + rest;
    assert t[1..] == Doubled(s, q) + [q] + rest;
    UndoubleDoubled(s, q, rest);
    UndoubleShortens(t[1..], q);
  }

  lemma LexWord(w: string, rest: string)
    requires GoodToken(Word(w)) && (rest == "" || !IsWordChar(rest[0])) && Lex(rest).Some?
    ensures Lex(w + rest) == Some([Word(w)] + Lex(rest).value)
  {
    TakesWord(w, rest);
    assert (w + rest)[|w|..] == rest;
  }

  lemma LexSymbol(c: char, rest: string)
    requires GoodToken(Symbol(c)) && Lex(rest).Some?
    ensures Lex([c] + rest) == Some([Symbol(c)] + Lex(rest).value)
  {
    assert ([c] + rest)[1..] == rest;
  }

  /** The first character of what follows a token never runs into it. */
  lemma NextStarts(pieces: seq<Piece>)
    requires pieces != [] && (pieces[0].Tok? ==> GoodToken(pieces[0].token))
    requires pieces[0].Space? || pieces[0].token.Symbol?
    ensures var c := Text(pieces)[0..]; c != "" && !IsWordChar(c[0]) && c[0] != '"' && c[0] != '\''
  {
  }

  /** A well-spaced statement reads back as exactly the tokens it was put together from. */
  lemma {:induction false} LexText(pieces: seq<Piece>)
    requires Spaced(pieces)
    ensures Lex(Text(pieces)) == Some(TokensOf(pieces))
  {
    if pieces != [] {
      var p, more := pieces[0], pieces[1..];
      assert forall i | 0 <= i < |more| :: more[i] == pieces[i + 1];
      assert Spaced(more) by {
        forall i | 0 <= i < |more| - 1 ensures Apart(more[i], more[i + 1]) {
          assert Apart(pieces[i + 1], pieces[i + 1 + 1]);
        }
      }
      LexText(more);
      LexPiece(p, more);
    }
  }

  lemma LexPiece(p: Piece, more: seq<Piece>)
    requires (p.Tok? ==> GoodToken(p.token)) && (more != [] ==> Apart(p, more[0]))
    requires more != [] && more[0].Tok? ==> GoodToken(more[0].token)
    requires Lex(Text(more)).Some?
    ensures Lex(Render(p) + Text(more)) == Some((if p.Tok? then [p.token] else []) + Lex(Text(more)).value)
  {
    var rest := Text(more);
    if more != [] && p.Tok? && !p.token.Symbol? {
      NextStarts(more);
    }
    match p
    case Space =>
      assert (" " + rest)[1..] == rest;
      assert [] + Lex(rest).value == Lex(rest).value;
    case Tok(Word(w)) => LexWord(w, rest);
    case Tok(Symbol(c)) => LexSymbol(c, rest);
    case Tok(Quoted(n)) => LexQuote(n, '"', rest);
    case Tok(Literal(v)) => LexQuote(v, '\'', rest);
  }

  // --- putting statements together ----------------------------------------

  function W(text: string): Piece {
    Tok(Word(text))
  }

  function Q(name: string): Piece {
    Tok(Quoted(name))
  }

  function S(symbol: char): Piece {
    Tok(Symbol(symbol))
  }

  /** Pieces that are safe beside anything. */
  predicate Loose(p: Piece) {
    p.Space? || p.token.Symbol?
  }

  lemma SpacedConcat(a: seq<Piece>, b: seq<Piece>)
    requires Spaced(a) && Spaced(b)
    requires a != [] && b != [] ==> Apart(a[|a| - 1], b[0])
    ensures Spaced(a + b)
  {
    var c := a + b;
    forall i | 0 <= i < |c| - 1 ensures Apart(c[i], c[i + 1]) {
      if i + 1 < |a| {
        assert Apart(a[i], a[i + 1]);
      } else if i >= |a| {
        assert Apart(b[i - |a|], b[i - |a| + 1]);
      }
    }
  }

  lemma {:induction false} TokensConcat(a: seq<Piece>, b: seq<Piece>)
    ensures TokensOf(a + b) == TokensOf(a) + TokensOf(b)
  {
    if a == [] {
      assert a + b == b;
    } else {
      assert (a + b)[1..] == a[1..] + b;
      TokensConcat(a[1..], b);
    }
  }

  lemma TokensOfOne(p: Piece)
    ensures TokensOf([p]) == if p.Tok? then [p.token] else []
  {
    assert [p][1..] == [];
  }

  lemma TokensOfTwo(p: Piece, q: Piece)
    ensures TokensOf([p, q]) == (if p.Tok? then [p.token] else []) + (if q.Tok? then [q.token] else [])
  {
    TokensOfOne(q);
    assert [p, q][1..] == [q];
  }

  // --- phrases ------------------------------------------------------------

  /** Keywords, each with a space after it. */
  function Words(ws: seq<string>): seq<Piece> {
    if ws == [] then [] else [W(ws[0]), Space] + Words(ws[1..])
  }

  function WordTokens(ws: seq<string>): seq<Token> {
    seq(|ws|, i requires 0 <= i < |ws| => Word(ws[i]))
  }

  function Phrase(before: seq<Piece>, ws: seq<string>, after: seq<Piece>): seq<Piece> {
    before + (Words(ws) + after)
  }

  predicate GoodWords(ws: seq<string>) {
    forall i | 0 <= i < |ws| :: GoodToken(Word(ws[i]))
  }

  predicate AllLoose(pieces: seq<Piece>) {
    forall i | 0 <= i < |pieces| :: Loose(pieces[i]) && (pieces[i].Tok? ==> GoodToken(pieces[i].token))
  }

  lemma {:induction false} WordsAre(ws: seq<string>)
    requires GoodWords(ws)
    ensures Spaced(Words(ws)) && TokensOf(Words(ws)) == WordTokens(ws)
    ensures ws != [] ==> Words(ws) != [] && Words(ws)[|Words(ws)| - 1] == Space
  {
    if ws != [] {
      WordsAre(ws[1..]);
      TokensOfTwo(W(ws[0]), Space);
      TokensConcat([W(ws[0]), Space], Words(ws[1..]));
      assert Spaced([W(ws[0]), Space]);
      SpacedConcat([W(ws[0]), Space], Words(ws[1..]));
    }
  }

  lemma PhraseIs(before: seq<Piece>, ws: seq<string>, after: seq<Piece>)
    requires GoodWords(ws) && ws != [] && AllLoose(before) && AllLoose(after)
    ensures var p := Phrase(before, ws, after);
            && p != [] && Spaced(p) && (before != [] ==> Loose(p[0])) && Loose(p[|p| - 1])
            && TokensOf(p) == TokensOf(before) + (WordTokens(ws) + TokensOf(after))
  {
    WordsAre(ws);
    assert forall i | 0 <= i < |before| :: Loose(before[i]);
    SpacedConcat(Words(ws), after);
    SpacedConcat(before, Words(ws) + after);
    TokensConcat(Words(ws), after);
    TokensConcat(before, Words(ws) + after);
  }

  // --- lists --------------------------------------------------------------

  /** `each(name)` for every name, with `separator` between. */
  function Joined(names: seq<string>, each: string -> seq<Piece>, separator: seq<Piece>): seq<Piece> {
    if names == [] then []
    else if |names| == 1 then each(names[0])
    else each(names[0]) + (separator + Joined(names[1..], each, separator))
  }

  lemma {:induction false} JoinedIsSpaced(names: seq<string>, each: string -> seq<Piece>, separator: seq<Piece>)
    requires forall n :: Spaced(each(n)) && each(n) != []
    requires Spaced(separator) && separator != [] && Loose(separator[0]) && Loose(separator[|separator| - 1])
    ensures Spaced(Joined(names, each, separator))
  {
    if |names| > 1 {
      JoinedIsSpaced(names[1..], each, separator);
      var rest := Joined(names[1..], each, separator);
      SpacedConcat(separator, rest);
      SpacedConcat(each(names[0]), separator + rest);
    }
  }

  /** Reads one item or more, until one is not followed by the separator. */
  function ReadSome<T>(item: seq<Token> -> Option<(T, seq<Token>)>, separator: seq<Token>,
                       ts: seq<Token>): Option<(seq<T>, seq<Token>)>
    decreases |ts|
  {
    match item(ts)
    case None => None
    case Some((x, rest)) =>
      if !(separator <= rest) then Some(([x], rest))
      else if |rest[|separator|..]| >= |ts| then None
      else match ReadSome(item, separator, rest[|separator|..])
        case None => None
        case Some((more, end)) => Some(([x] + more, end))
  }

  function Mapped<T>(names: seq<string>, value: string -> T): seq<T> {
    seq(|names|, i requires 0 <= i < |names| => value(names[i]))
  }

  /** A list SQL accepts: something in it, and no empty identifier. */
  predicate Named(names: seq<string>) {
    names != [] && "" !in names
  }

  /** A rendered list of such names reads back as its items, whatever follows, unless that could continue it; no
      other list reads at all. */
  lemma {:induction false} ReadsSome<T>(names: seq<string>, each: string -> seq<Piece>, separator: seq<Piece>,
                                        item: seq<Token> -> Option<(T, seq<Token>)>,
                                        value: string -> T, rest: seq<Token>)
    requires forall n, r | n != "" :: item(TokensOf(each(n)) + r) == Some((value(n), r))
    requires forall r :: item(TokensOf(each("")) + r) == None
    requires TokensOf(separator) != [] && !(TokensOf(separator) <= rest) && (names == [] ==> item(rest).None?)
    ensures ReadSome(item, TokensOf(separator), TokensOf(Joined(names, each, separator)) + rest)
        == if Named(names) then Some((Mapped(names, value), rest)) else None
  {
    var sep, ts := TokensOf(separator), TokensOf(Joined(names, each, separator)) + rest;
    if names == [] {
      assert ts == rest;
    } else if |names| == 1 {
      assert ts == TokensOf(each(names[0])) + rest;
      assert Mapped(names, value) == [value(names[0])];
    } else {
      var more := TokensOf(Joined(names[1..], each, separator)) + rest;
      ReadsSome(names[1..], each, separator, item, value, rest);
      TokensConcat(separator, Joined(names[1..], each, separator));
      TokensConcat(each(names[0]), separator + Joined(names[1..], each, separator));
      assert ts == TokensOf(each(names[0])) + (sep + more);
      assert (sep + more)[|sep|..] == more;
      assert [value(names[0])] + Mapped(names[1..], value) == Mapped(names, value);
      assert names == [names[0]] + names[1..];
    }
  }

  /** The rest of `ts` after exactly these tokens. */
  function Expect(tokens: seq<Token>, ts: seq<Token>): Option<seq<Token>> {
    if tokens <= ts then Some(ts[|tokens|..]) else None
  }
}
