/** The change detector's hashes: three parts folded into one `content_hash`. SHA-256 is a parameter; what
    is assumed of it is its 64 hexadecimal digits and that it does not collide on the bytes at hand. */
module Hashing {
  import opened Rows
  import opened Contract
  import opened Order
  import opened Utf8
  import opened Json

  // --- whitespace ---------------------------------------------------------

  function Word(s: string): (w: string)
    ensures w <= s && (forall c | c in w :: !IsSpace(c))
    ensures |w| < |s| ==> IsSpace(s[|w|])
  {
    if s == "" || IsSpace(s[0]) then "" else [s[0]] + Word(s[1..])
  }

  predicate IsToken(t: string) {
    t != "" && forall c | c in t :: !IsSpace(c)
  }

  /** `str.split()`. */
  function Tokens(s: string): (ts: seq<string>)
    ensures forall t | t in ts :: IsToken(t)
    decreases |s|
  {
    if s == "" then []
    else if IsSpace(s[0]) then Tokens(s[1..])
    else
      var w := Word(s);
      [w] + Tokens(s[|w|..])
  }

  function JoinWithSpaces(ts: seq<string>): string {
    if ts == [] then "" else if |ts| == 1 then ts[0] else ts[0] + " " + JoinWithSpaces(ts[1..])
  }

  function Collapse(s: string): string {
    JoinWithSpaces(Tokens(s))
  }

  lemma {:induction false} WordOfToken(t: string, rest: string)
    requires (forall c | c in t :: !IsSpace(c)) && (rest == "" || IsSpace(rest[0]))
    ensures Word(t + rest) == t
  {
    if t == "" {
      assert t + rest == rest;
    } else {
      assert t[0] in t && t == [t[0]] + t[1..];
      assert (t + rest)[1..] == t[1..] + rest;
      WordOfToken(t[1..], rest);
    }
  }

  lemma {:induction false} TokensOfJoin(ts: seq<string>)
    requires forall t | t in ts :: IsToken(t)
    ensures Tokens(JoinWithSpaces(ts)) == ts
  {
    if ts != [] {
      var t, s := ts[0], JoinWithSpaces(ts);
      assert t in ts && t[0] in t;
      assert ts == [t] + ts[1..];
      if |ts| == 1 {
        WordOfToken(t, "");
        assert t + "" == t && s[|t|..] == "";
      } else {
        var rest := " " + JoinWithSpaces(ts[1..]);
        assert s == t + rest;
        WordOfToken(t, rest);
        assert s[|t|..] == rest && rest[1..] == JoinWithSpaces(ts[1..]);
        TokensOfJoin(ts[1..]);
      }
    }
  }

  predicate AllBlank(s: string) {
    forall c | c in s :: IsSpace(c)
  }

  lemma {:induction false} BlankHasNoTokens(s: string)
    requires AllBlank(s)
    ensures Tokens(s) == []
  {
    if s != "" {
      assert s[0] in s;
      BlankHasNoTokens(s[1..]);
    }
  }

  lemma TokenIsItself(t: string)
    requires IsToken(t)
    ensures Tokens(t) == [t]
  {
    assert t[0] in t;
    WordOfToken(t, "");
    assert t + "" == t && t[|t|..] == "";
  }

  lemma {:induction false} LeadingBlanks(w: string, b: string)
    requires AllBlank(w)
    ensures Tokens(w + b) == Tokens(b)
  {
    if w == "" {
      assert w + b == b;
    } else {
      assert w[0] in w && (w + b)[1..] == w[1..] + b;
      LeadingBlanks(w[1..], b);
    }
  }

  /** Whatever stands before and after it, a run of blanks separates their tokens and adds none. */
  lemma {:induction false} BlanksSeparate(a: string, w: string, b: string)
    requires w != "" && AllBlank(w)
    ensures Tokens(a + w + b) == Tokens(a) + Tokens(b)
    decreases |a|
  {
    var s := a + w + b;
    if a == "" {
      LeadingBlanks(w, b);
      assert s == w + b;
    } else if IsSpace(a[0]) {
      assert s[0] == a[0] && s[1..] == a[1..] + w + b;
      BlanksSeparate(a[1..], w, b);
    } else {
      var t := Word(a);
      var rest := a[|t|..];
      assert a == t + rest && w[0] in w;
      assert s == t + (rest + w + b) && s[0] == a[0];
      WordOfToken(t, rest + w + b);
      assert s[|t|..] == rest + w + b;
      BlanksSeparate(rest, w, b);
      assert Tokens(s) == [t] + (Tokens(rest) + Tokens(b));
    }
  }

  /** Those three laws are all there is to splitting: whatever obeys them is `Tokens`. */
  lemma {:induction false} SplittingIsTokens(split: string -> seq<string>, s: string)
    requires forall x | AllBlank(x) :: split(x) == []
    requires forall x | IsToken(x) :: split(x) == [x]
    requires forall a, w, b | w != "" && AllBlank(w) :: split(a + w + b) == split(a) + split(b)
    ensures split(s) == Tokens(s)
    decreases |s|
  {
    if AllBlank(s) {
      BlankHasNoTokens(s);
    } else if IsToken(s) {
      TokenIsItself(s);
    } else {
      var c :| c in s && IsSpace(c);
      var i :| 0 <= i < |s| && s[i] == c;
      var a, w, b := s[..i], [c], s[i + 1..];
      assert s == a + w + b;
      BlanksSeparate(a, w, b);
      SplittingIsTokens(split, a);
      SplittingIsTokens(split, b);
    }
  }

  /** Single spaces between characters that are not blank, and no other blank. */
  predicate Tidy(s: string) {
    forall i | 0 <= i < |s| && IsSpace(s[i]) ::
      s[i] == ' ' && 0 < i < |s| - 1 && !IsSpace(s[i - 1]) && !IsSpace(s[i + 1])
  }

  lemma {:induction false} JoinedIsTidy(ts: seq<string>)
    requires forall t | t in ts :: IsToken(t)
    ensures Tidy(JoinWithSpaces(ts))
    ensures ts != [] ==> var s := JoinWithSpaces(ts); s != "" && !IsSpace(s[0]) && !IsSpace(s[|s| - 1])
  {
    if ts != [] {
      var t, s := ts[0], JoinWithSpaces(ts);
      assert t in ts && t[0] in t && t[|t| - 1] in t;
      if |ts| > 1 {
        var rest := JoinWithSpaces(ts[1..]);
        assert forall x | x in ts[1..] :: x in ts;
        JoinedIsTidy(ts[1..]);
        assert forall k | 0 <= k < |t| :: s[k] == t[k] && t[k] in t;
        forall i | 0 <= i < |s| && IsSpace(s[i])
          ensures s[i] == ' ' && 0 < i < |s| - 1 && !IsSpace(s[i - 1]) && !IsSpace(s[i + 1])
        {
          if i > |t| {
            var k := i - |t| - 1;
            assert s[i] == rest[k] && s[i - 1] == (if k > 0 then rest[k - 1] else ' ');
          }
        }
      } else {
        assert forall i | 0 <= i < |s| :: s[i] in t;
      }
    }
  }

  /** A collapsed text is tidy and has the tokens it had. */
  lemma CollapsedIsTidy(s: string)
    ensures Tidy(Collapse(s)) && Tokens(Collapse(s)) == Tokens(s)
  {
    JoinedIsTidy(Tokens(s));
    TokensOfJoin(Tokens(s));
  }

  /** Collapsing identifies exactly the texts with the same tokens, and does so once and for all. */
  lemma CollapseIsCanonical(a: string, b: string)
    ensures Collapse(a) == Collapse(b) <==> Tokens(a) == Tokens(b)
    ensures Collapse(Collapse(a)) == Collapse(a)
  {
    TokensOfJoin(Tokens(a));
    TokensOfJoin(Tokens(b));
  }

  // --- the canonical entry ------------------------------------------------

  type Entry = map<string, Json>

  const DROPPED_FIELDS := ["content_hash", "source_hash", "shared_code_hash", "config_hash", "timeout_minutes"]

  function CollapseRead(v: Json): Json {
    if v.JString? then JString(Collapse(v.text)) else v
  }

  function CollapseReads(m: map<string, Json>): map<string, Json> {
    map k | k in m :: CollapseRead(m[k])
  }

  function CanonicalValue(k: string, v: Json): Json {
    if k == "reads" && v.JObject? then JObject(CollapseReads(v.members)) else v
  }

  function CanonicalEntry(entry: Entry): Entry {
    map k | k in entry && k !in DROPPED_FIELDS :: CanonicalValue(k, entry[k])
  }

  /** The entry is copied, the fields popped one by one, and the reads rewritten one by one. */
  method CanonicalizeEntry(entry: Entry) returns (canonical: Entry)
    ensures canonical == CanonicalEntry(entry)
  {
    canonical := entry;
    var i := 0;
    while i < |DROPPED_FIELDS|
      invariant 0 <= i <= |DROPPED_FIELDS|
      invariant canonical == map k | k in entry && k !in DROPPED_FIELDS[..i] :: entry[k]
    {
      canonical := canonical - {DROPPED_FIELDS[i]};
      assert DROPPED_FIELDS[..i + 1] == DROPPED_FIELDS[..i] + [DROPPED_FIELDS[i]];
      i := i + 1;
    }
    assert DROPPED_FIELDS[..i] == DROPPED_FIELDS;
    assert "reads" in entry ==> "reads" in canonical by {
      assert |DROPPED_FIELDS[0]| == 12 && |DROPPED_FIELDS[1]| == 11 && |DROPPED_FIELDS[2]| == 16;
      assert |DROPPED_FIELDS[3]| == 11 && |DROPPED_FIELDS[4]| == 15;
    }
    if "reads" in canonical && canonical["reads"].JObject? {
      var queries := canonical["reads"].members;
      var pending := queries.Keys;
      ghost var original := queries;
      while pending != {}
        invariant pending <= original.Keys
        invariant queries == map k | k in original :: if k in pending then original[k] else CollapseRead(original[k])
        decreases pending
      {
        var key :| key in pending;
        if queries[key].JString? {
          queries := queries[key := JString(Collapse(queries[key].text))];
        }
        pending := pending - {key};
      }
      assert queries == CollapseReads(original);
      canonical := canonical["reads" := JObject(queries)];
    }
  }

  /** The five keys that are not hashed. */
  predicate Unhashed(k: string) {
    k == "content_hash" || k == "source_hash" || k == "shared_code_hash" || k == "config_hash" || k == "timeout_minutes"
  }

  /** Two values of one key that are hashed alike: equal, or reads equal but for whitespace. */
  ghost predicate HashedAlike(k: string, v: Json, w: Json) {
    || v == w
    || (k == "reads" && v.JObject? && w.JObject? && v.members.Keys == w.members.Keys
        && forall r | r in v.members ::
             || v.members[r] == w.members[r]
             || (v.members[r].JString? && w.members[r].JString?
                 && Tokens(v.members[r].text) == Tokens(w.members[r].text)))
  }

  /** Two entries have one canonical form exactly when every other key is in both or in neither, with values that
      are hashed alike. */
  lemma CanonicalEntryIsExact(a: Entry, b: Entry)
    ensures CanonicalEntry(a) == CanonicalEntry(b)
            <==> forall k | !Unhashed(k) :: (k in a <==> k in b) && (k in a ==> HashedAlike(k, a[k], b[k]))
  {
    var ca, cb := CanonicalEntry(a), CanonicalEntry(b);
    assert forall k :: k in DROPPED_FIELDS <==> Unhashed(k);
    assert forall k | !Unhashed(k) :: (k in a <==> k in ca) && (k in b <==> k in cb);
    forall k | k in ca && k in cb ensures ca[k] == cb[k] <==> HashedAlike(k, a[k], b[k]) {
      HashedAlikeIsExact(k, a[k], b[k]);
    }
    if forall k | !Unhashed(k) :: (k in a <==> k in b) && (k in a ==> HashedAlike(k, a[k], b[k])) {
      assert ca.Keys == cb.Keys;
      assert ca == cb;
    }
  }

  lemma HashedAlikeIsExact(k: string, v: Json, w: Json)
    ensures CanonicalValue(k, v) == CanonicalValue(k, w) <==> HashedAlike(k, v, w)
  {
    if k == "reads" && v.JObject? && w.JObject? {
      var x, y := CollapseReads(v.members), CollapseReads(w.members);
      forall r | r in v.members && r in w.members
        ensures x[r] == y[r] <==> (|| v.members[r] == w.members[r]
                                   || (v.members[r].JString? && w.members[r].JString?
                                       && Tokens(v.members[r].text) == Tokens(w.members[r].text)))
      {
        if v.members[r].JString? && w.members[r].JString? {
          CollapseIsCanonical(v.members[r].text, w.members[r].text);
        }
      }
      assert x.Keys == v.members.Keys && y.Keys == w.members.Keys;
      if HashedAlike(k, v, w) {
        assert x == y;
      }
    }
  }

  lemma CanonicalIdempotent(entry: Entry)
    ensures CanonicalEntry(CanonicalEntry(entry)) == CanonicalEntry(entry)
  {
    var once := CanonicalEntry(entry);
    forall k | k in once ensures CanonicalEntry(once)[k] == once[k] {
      if k == "reads" && entry[k].JObject? {
        var m := entry[k].members;
        forall r | r in m ensures CollapseRead(CollapseRead(m[r])) == CollapseRead(m[r]) {
          if m[r].JString? {
            CollapseIsCanonical(m[r].text, "");
          }
        }
        assert CollapseReads(CollapseReads(m)) == CollapseReads(m);
      }
    }
  }

  ghost function CanonicalJson(entry: Entry): string {
    Print(JObject(CanonicalEntry(entry)))
  }

  /** The canonical text determines the canonical entry: a parser recovers it. */
  lemma CanonicalJsonIsExact(a: Entry, b: Entry)
    ensures CanonicalJson(a) == CanonicalJson(b) <==> CanonicalEntry(a) == CanonicalEntry(b)
    ensures Parse(CanonicalJson(a)) == Some(Parsed(JObject(CanonicalEntry(a)), ""))
  {
    var v := JObject(CanonicalEntry(a));
    ParsesBack(v, "");
    assert Print(v) + "" == Print(v);
    if CanonicalJson(a) == CanonicalJson(b) {
      PrintInjective(v, JObject(CanonicalEntry(b)));
    }
  }

  // --- the hashes ---------------------------------------------------------

  predicate IsHex(c: char) {
    '0' <= c <= '9' || 'a' <= c <= 'f'
  }

  ghost predicate HexDigest64(sha: Sha) {
    forall b :: |sha(b)| == 64 && forall c | c in sha(b) :: IsHex(c)
  }

  /** No two different byte strings of `inputs` have the same digest. */
  ghost predicate CollisionFree(sha: Sha, inputs: set<Bytes>) {
    forall a, b | a in inputs && b in inputs && sha(a) == sha(b) :: a == b
  }

  function Digests(sha: Sha, members: seq<Bytes>): seq<string> {
    seq(|members|, i requires 0 <= i < |members| => sha(members[i]))
  }

  function Join(parts: seq<string>): string {
    if parts == [] then "" else parts[0] + Join(parts[1..])
  }

  function SharedInput(sha: Sha, members: seq<Bytes>): Bytes {
    Encode(Join(Sort(StringLeq, Digests(sha, members))))
  }

  /** Empty for an empty closure, else the digest of the sorted member digests. */
  function SharedCodeHash(sha: Sha, members: seq<Bytes>): string {
    if members == [] then "" else sha(SharedInput(sha, members))
  }

  ghost function ConfigHash(sha: Sha, entry: Entry): string {
    sha(Encode(CanonicalJson(entry)))
  }

  function FoldInput(source: string, shared: string, config: string): Bytes {
    Encode(source + "|" + shared + "|" + config)
  }

  function ContentHashFold(sha: Sha, source: string, shared: string, config: string): string {
    "sha256:" + sha(FoldInput(source, shared, config))
  }

  /** What one node is hashed from. */
  datatype Basis = Basis(source: Bytes, members: seq<Bytes>, entry: Entry)

  ghost function ContentHash(sha: Sha, n: Basis): string {
    ContentHashFold(sha, sha(n.source), SharedCodeHash(sha, n.members), ConfigHash(sha, n.entry))
  }

  /** Every byte string hashed on the way to a node's content hash. */
  ghost function Hashed(sha: Sha, n: Basis): set<Bytes> {
    {n.source, SharedInput(sha, n.members), Encode(CanonicalJson(n.entry)),
     FoldInput(sha(n.source), SharedCodeHash(sha, n.members), ConfigHash(sha, n.entry))}
    + set b | b in n.members
  }

  // --- decoding the fold --------------------------------------------------

  lemma {:induction false} JoinLength(a: seq<string>)
    requires forall x | x in a :: |x| == 64
    ensures |Join(a)| == 64 * |a|
  {
    if a != [] {
      assert a[0] in a;
      JoinLength(a[1..]);
    }
  }

  lemma {:induction false} JoinDecodes(a: seq<string>, b: seq<string>)
    requires forall x | x in a || x in b :: |x| == 64
    requires Join(a) == Join(b)
    ensures a == b
  {
    JoinLength(a);
    JoinLength(b);
    if a != [] {
      assert a[0] in a && b[0] in b;
      assert a[0] == Join(a)[..64] && b[0] == Join(b)[..64];
      assert Join(a[1..]) == Join(a)[64..] && Join(b[1..]) == Join(b)[64..];
      JoinDecodes(a[1..], b[1..]);
      assert a == [a[0]] + a[1..] && b == [b[0]] + b[1..];
    }
  }

  predicate NoBar(s: string) {
    '|' !in s
  }

  lemma BarFirst(a: string, x: string)
    requires NoBar(a)
    ensures a == "" <==> (a + "|" + x)[0] == '|'
    ensures if a == "" then (a + "|" + x)[1..] == x
        else (a + "|" + x)[1..] == a[1..] + "|" + x && (a + "|" + x)[0] == a[0]
  {
    if a != "" {
      assert a[0] in a;
    }
  }

  lemma {:induction false} BarSplits(a: string, x: string, b: string, y: string)
    requires NoBar(a) && NoBar(b) && a + "|" + x == b + "|" + y
    ensures a == b && x == y
  {
    BarFirst(a, x);
    BarFirst(b, y);
    if a != "" {
      BarSplits(a[1..], x, b[1..], y);
      assert a == [a[0]] + a[1..] && b == [b[0]] + b[1..];
    }
  }

  /** The three parts can be read back from the folded text. */
  lemma FoldDecodes(s: string, h: string, c: string, s': string, h': string, c': string)
    requires NoBar(s) && NoBar(h) && NoBar(s') && NoBar(h')
    requires FoldInput(s, h, c) == FoldInput(s', h', c')
    ensures s == s' && h == h' && c == c'
  {
    EncodeInjective(s + "|" + h + "|" + c, s' + "|" + h' + "|" + c');
    assert s + "|" + h + "|" + c == s + "|" + (h + "|" + c);
    assert s' + "|" + h' + "|" + c' == s' + "|" + (h' + "|" + c');
    BarSplits(s, h + "|" + c, s', h' + "|" + c');
    BarSplits(h, c, h', c');
  }

  lemma DigestsRemove(sha: Sha, b: seq<Bytes>, j: nat)
    requires j < |b|
    ensures Digests(sha, RemoveAt(b, j)) == RemoveAt(Digests(sha, b), j)
  {
  }

  lemma DigestsTail(sha: Sha, a: seq<Bytes>)
    requires a != []
    ensures Digests(sha, a[1..]) == Digests(sha, a)[1..]
  {
  }

  lemma SameRestBack<T>(s: seq<T>, p: seq<T>, i: nat)
    requires p != [] && i < |s| && s[i] == p[0] && multiset(p[1..]) == multiset(RemoveAt(s, i))
    ensures multiset(p) == multiset(s)
  {
    RemoveFromMultiset(p, 0);
    RemoveFromMultiset(s, i);
    assert RemoveAt(p, 0) == p[1..];
  }

  lemma {:induction false} DigestsDetermineMembers(sha: Sha, a: seq<Bytes>, b: seq<Bytes>)
    requires forall x, y | x in a && y in b && sha(x) == sha(y) :: x == y
    requires multiset(Digests(sha, a)) == multiset(Digests(sha, b))
    ensures multiset(a) == multiset(b)
  {
    var da, db := Digests(sha, a), Digests(sha, b);
    if a == [] {
      assert |multiset(db)| == |db|;
    } else {
      FirstIsIn(db, da);
      var j :| 0 <= j < |db| && db[j] == da[0];
      assert a[0] in a && b[j] in b;
      SameRest(db, da, j);
      DigestsRemove(sha, b, j);
      DigestsTail(sha, a);
      DigestsDetermineMembers(sha, a[1..], RemoveAt(b, j));
      SameRestBack(b, a, j);
    }
  }

  lemma {:induction false} MembersDetermineDigests(sha: Sha, a: seq<Bytes>, b: seq<Bytes>)
    requires multiset(a) == multiset(b)
    ensures multiset(Digests(sha, a)) == multiset(Digests(sha, b))
  {
    if a == [] {
      assert |multiset(b)| == |b|;
    } else {
      FirstIsIn(b, a);
      var j :| 0 <= j < |b| && b[j] == a[0];
      SameRest(b, a, j);
      MembersDetermineDigests(sha, a[1..], RemoveAt(b, j));
      DigestsRemove(sha, b, j);
      DigestsTail(sha, a);
      SameRestBack(Digests(sha, b), Digests(sha, a), j);
    }
  }

  /** `shared_code_hash` identifies exactly the closures with the same member bytes, counted. */
  lemma SharedCodeHashIsExact(sha: Sha, a: seq<Bytes>, b: seq<Bytes>)
    requires HexDigest64(sha)
    requires CollisionFree(sha, (set x | x in a) + (set x | x in b) + {SharedInput(sha, a), SharedInput(sha, b)})
    ensures SharedCodeHash(sha, a) == SharedCodeHash(sha, b) <==> multiset(a) == multiset(b)
  {
    StringOrder();
    var da, db := Digests(sha, a), Digests(sha, b);
    SortIsCanonical(StringLeq, da, db);
    if multiset(a) == multiset(b) {
      MembersDetermineDigests(sha, a, b);
      assert |multiset(a)| == |a| && |multiset(b)| == |b|;
    }
    if SharedCodeHash(sha, a) == SharedCodeHash(sha, b) {
      assert |SharedCodeHash(sha, a)| == (if a == [] then 0 else 64)
          && |SharedCodeHash(sha, b)| == (if b == [] then 0 else 64);
      if a != [] {
        EncodeInjective(Join(Sort(StringLeq, da)), Join(Sort(StringLeq, db)));
        SortedDigestsHave64(sha, a);
        SortedDigestsHave64(sha, b);
        JoinDecodes(Sort(StringLeq, da), Sort(StringLeq, db));
        DigestsDetermineMembers(sha, a, b);
      }
    }
  }

  /** Concatenation, piece by piece. */
  lemma {:induction false} JoinIs(a: seq<string>, x: string, b: seq<string>)
    ensures Join(a + [x] + b) == Join(a) + x + Join(b) && Join([]) == ""
  {
    if a == [] {
      assert a + [x] + b == [x] + b && ([x] + b)[1..] == b;
    } else {
      assert (a + [x] + b)[1..] == a[1..] + [x] + b;
      JoinIs(a[1..], x, b);
    }
  }

  /** The hash of a closure: nothing for none, else the digest of its members' digests, sorted and concatenated. */
  lemma SharedCodeHashIs(sha: Sha, members: seq<Bytes>)
    ensures members == [] ==> SharedCodeHash(sha, members) == ""
    ensures members != [] ==>
              exists sorted ::
                && multiset(sorted) == multiset(Digests(sha, members))
                && (forall i, j | 0 <= i < j < |sorted| :: StringLeq(sorted[i], sorted[j]))
                && SharedCodeHash(sha, members) == sha(Encode(Join(sorted)))
  {
    StringOrder();
    SortSorts(StringLeq, Digests(sha, members));
    var sorted := Sort(StringLeq, Digests(sha, members));
    assert SharedInput(sha, members) == Encode(Join(sorted));
  }

  lemma SortedDigestsHave64(sha: Sha, a: seq<Bytes>)
    requires HexDigest64(sha)
    ensures forall x | x in Sort(StringLeq, Digests(sha, a)) :: |x| == 64
  {
    StringOrder();
    var d := Digests(sha, a);
    SortSorts(StringLeq, d);
    forall x | x in Sort(StringLeq, d) ensures |x| == 64 {
      assert x in multiset(Sort(StringLeq, d));
      assert x in d;
    }
  }

  /** `config_hash` identifies exactly the entries with the same canonical form. */
  lemma ConfigHashIsExact(sha: Sha, a: Entry, b: Entry)
    requires CollisionFree(sha, {Encode(CanonicalJson(a)), Encode(CanonicalJson(b))})
    ensures ConfigHash(sha, a) == ConfigHash(sha, b) <==> CanonicalEntry(a) == CanonicalEntry(b)
  {
    CanonicalJsonIsExact(a, b);
    if ConfigHash(sha, a) == ConfigHash(sha, b) {
      EncodeInjective(CanonicalJson(a), CanonicalJson(b));
    }
  }

  /** The equivalence a content hash is meant to decide. */
  ghost predicate SameContent(a: Basis, b: Basis) {
    a.source == b.source && multiset(a.members) == multiset(b.members)
        && CanonicalEntry(a.entry) == CanonicalEntry(b.entry)
  }

  /** Same content, same hash, whatever the digest function. */
  lemma SameContentSameHash(sha: Sha, a: Basis, b: Basis)
    requires SameContent(a, b)
    ensures ContentHash(sha, a) == ContentHash(sha, b)
  {
    StringOrder();
    MembersDetermineDigests(sha, a.members, b.members);
    SortIsCanonical(StringLeq, Digests(sha, a.members), Digests(sha, b.members));
    assert |multiset(a.members)| == |a.members| && |multiset(b.members)| == |b.members|;
  }

  lemma DigestHasNoBar(sha: Sha, b: Bytes)
    requires HexDigest64(sha)
    ensures NoBar(sha(b))
  {
    assert !IsHex('|');
  }

  /** The content hash is exact: two nodes share it iff source, closure members and canonical entry agree. */
  lemma ContentHashIsExact(sha: Sha, a: Basis, b: Basis)
    requires HexDigest64(sha) && CollisionFree(sha, Hashed(sha, a) + Hashed(sha, b))
    ensures ContentHash(sha, a) == ContentHash(sha, b) <==> SameContent(a, b)
  {
    SharedCodeHashIsExact(sha, a.members, b.members);
    ConfigHashIsExact(sha, a.entry, b.entry);
    if ContentHash(sha, a) == ContentHash(sha, b) {
      var sa, ha, ca := sha(a.source), SharedCodeHash(sha, a.members), ConfigHash(sha, a.entry);
      var sb, hb, cb := sha(b.source), SharedCodeHash(sha, b.members), ConfigHash(sha, b.entry);
      assert ContentHash(sha, a)[7..] == sha(FoldInput(sa, ha, ca));
      assert ContentHash(sha, b)[7..] == sha(FoldInput(sb, hb, cb));
      DigestHasNoBar(sha, a.source);
      DigestHasNoBar(sha, b.source);
      DigestHasNoBar(sha, SharedInput(sha, a.members));
      DigestHasNoBar(sha, SharedInput(sha, b.members));
      FoldDecodes(sa, ha, ca, sb, hb, cb);
    }
  }
}
