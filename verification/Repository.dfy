/** From repository to hash and back: what a node's content hash depends on, and nothing else. */
module Repository {
  import opened Rows
  import opened Order
  import opened Utf8
  import opened Closure
  import opened Hashing
  import opened Fingerprint

  function BytesOf(t: Tree, files: seq<Path>): seq<Bytes>
    requires forall f | f in files :: f in t.files
  {
    seq(|files|, i requires 0 <= i < |files| => t.files[files[i]])
  }

  /** What a script node is hashed from, given its closure. */
  function ScriptBasis(t: Tree, script: Path, files: seq<Path>, n: Node): Basis
    requires script in t.files && forall f | f in files :: f in t.files
  {
    Basis(t.files[script], BytesOf(t, files), NodeEntry(n))
  }

  /** What a csv node is hashed from: its uri, and no files at all. */
  function CsvBasis(uri: string, n: Node): Basis {
    Basis(Encode(uri), [], NodeEntry(n))
  }

  // --- the closure is a function of the tree ------------------------------

  lemma {:induction false} SameElementsSameMultiset<T>(a: seq<T>, b: seq<T>)
    requires forall i, j | 0 <= i < j < |a| :: a[i] != a[j]
    requires forall i, j | 0 <= i < j < |b| :: b[i] != b[j]
    requires forall x :: x in a <==> x in b
    ensures multiset(a) == multiset(b)
  {
    if a == [] {
      assert forall x :: x in multiset(b) ==> x in b;
    } else {
      assert a[0] in a;
      var j :| 0 <= j < |b| && b[j] == a[0];
      var b' := RemoveAt(b, j);
      assert a == [a[0]] + a[1..];
      forall i, k | 0 <= i < k < |b'| ensures b'[i] != b'[k] {
        var i', k' := if i < j then i else i + 1, if k < j then k else k + 1;
        assert b'[i] == b[i'] && b'[k] == b[k'];
      }
      forall x ensures x in a[1..] <==> x in b' {
        ElementsWithout(a, 0, x);
        ElementsWithout(b, j, x);
        assert RemoveAt(a, 0) == a[1..];
      }
      SameElementsSameMultiset(a[1..], b');
      SameRestBack(b, a, j);
    }
  }

  lemma ElementsWithout<T>(s: seq<T>, j: nat, x: T)
    requires j < |s| && forall i, k | 0 <= i < k < |s| :: s[i] != s[k]
    ensures x in RemoveAt(s, j) <==> x in s && x != s[j]
  {
    var r := RemoveAt(s, j);
    if x in s && x != s[j] {
      var i :| 0 <= i < |s| && s[i] == x;
      assert r[if i < j then i else i - 1] == x;
    }
    if x in r {
      var i :| 0 <= i < |r| && r[i] == x;
      assert s[if i < j then i else i + 1] == x;
    }
  }

  /** Two lists that both describe a script's closure are the same list. */
  lemma ClosureIsUnique(t: Tree, parse: Parser, script: Path, a: seq<Path>, b: seq<Path>)
    requires IsClosure(t, parse, script, a) && IsClosure(t, parse, script, b)
    ensures a == b
  {
    SameElementsSameMultiset(a, b);
    PathOrder();
    SortedIsUnique(PathLeq, a, b);
  }

  // --- edits --------------------------------------------------------------

  function Edited(t: Tree, file: Path, bytes: Bytes): Tree {
    t.(files := t.files[file := bytes])
  }

  lemma SameImports(t: Tree, parse: Parser, roots: seq<Path>, file: Path, bytes: Bytes, f: Path, g: Path)
    requires f != file
    ensures Imports(Edited(t, file, bytes), parse, roots, f, g) <==> Imports(t, parse, roots, f, g)
  {
    var s := SourceOf(t, parse, f);
    assert SourceOf(Edited(t, file, bytes), parse, f) == s;
    if !s.SyntaxError? && !s.dynamic {
      SameFilesOfImports(t, Edited(t, file, bytes), roots, f, s.imports);
    }
  }

  lemma {:induction false} SameAncestors(t: Tree, t': Tree, root: Path, name: Dotted, depth: nat)
    requires t'.root == t.root && t'.links == t.links
    ensures Ancestors(t', root, name, depth) == Ancestors(t, root, name, depth)
    decreases |name| - depth
  {
    if depth < |name| {
      SameAncestors(t, t', root, name, depth + 1);
    }
  }

  lemma {:induction false} SameResolution(t: Tree, t': Tree, roots: seq<Path>, name: Dotted)
    requires t'.root == t.root && t'.links == t.links
    ensures ResolveName(t', roots, name) == ResolveName(t, roots, name)
  {
    if roots != [] {
      SameResolution(t, t', roots[1..], name);
    }
  }

  lemma {:induction false} SameFilesOfNames(t: Tree, t': Tree, roots: seq<Path>, names: seq<Dotted>)
    requires t'.root == t.root && t'.links == t.links
    ensures FilesOfNames(t', roots, names) == FilesOfNames(t, roots, names)
  {
    if names != [] {
      SameResolution(t, t', roots, names[0]);
      var r := ResolveName(t, roots, names[0]);
      if r.Some? {
        SameAncestors(t, t', r.value.0, names[0], 1);
      }
      SameFilesOfNames(t, t', roots, names[1..]);
    }
  }

  lemma {:induction false} SameFilesOfImports(t: Tree, t': Tree, roots: seq<Path>, file: Path, imports: seq<Import>)
    requires t'.root == t.root && t'.links == t.links
    ensures FilesOfImports(t', roots, file, imports) == FilesOfImports(t, roots, file, imports)
  {
    if imports != [] {
      SameFilesOfNames(t, t', roots, NamesOf(t, file, imports[0]));
      SameFilesOfImports(t, t', roots, file, imports[1..]);
    }
  }

  /** The last link of a chain, and the chain before it. */
  lemma ChainSplits(t: Tree, parse: Parser, roots: seq<Path>, p: seq<Path>)
    requires Chain(t, parse, roots, p) && |p| > 1
    ensures Chain(t, parse, roots, p[..|p| - 1]) && Imports(t, parse, roots, p[|p| - 2], p[|p| - 1])
  {
    var q := p[..|p| - 1];
    assert Imports(t, parse, roots, p[|p| - 2], p[|p| - 2 + 1]);
    forall i | 0 <= i < |q| - 1 ensures Imports(t, parse, roots, q[i], q[i + 1]) {
      assert q[i] == p[i] && q[i + 1] == p[i + 1];
    }
  }

  /** A chain of the edited tree from a reachable file stays within what was reachable, so it was there before. */
  lemma {:induction false} ChainBefore(t: Tree, parse: Parser, roots: seq<Path>, script: Path, file: Path,
                                       bytes: Bytes, p: seq<Path>)
    requires Chain(Edited(t, file, bytes), parse, roots, p) && p[0] == script
    requires !Reaches(t, parse, roots, script, file)
    ensures Reaches(t, parse, roots, script, p[|p| - 1])
  {
    if |p| == 1 {
      ReachesItself(t, parse, roots, script);
    } else {
      var q := p[..|p| - 1];
      ChainSplits(Edited(t, file, bytes), parse, roots, p);
      ChainBefore(t, parse, roots, script, file, bytes, q);
      SameImports(t, parse, roots, file, bytes, p[|p| - 2], p[|p| - 1]);
      ReachesNext(t, parse, roots, script, p[|p| - 2], p[|p| - 1]);
    }
  }

  /** And every old chain survives. */
  lemma {:induction false} ChainAfter(t: Tree, parse: Parser, roots: seq<Path>, script: Path, file: Path,
                                      bytes: Bytes, p: seq<Path>)
    requires Chain(t, parse, roots, p) && p[0] == script
    requires !Reaches(t, parse, roots, script, file)
    ensures Reaches(Edited(t, file, bytes), parse, roots, script, p[|p| - 1])
  {
    if |p| == 1 {
      ReachesItself(Edited(t, file, bytes), parse, roots, script);
    } else {
      var q := p[..|p| - 1];
      ChainSplits(t, parse, roots, p);
      ChainAfter(t, parse, roots, script, file, bytes, q);
      assert Chain(t, parse, roots, q) && q[|q| - 1] == p[|p| - 2];
      assert Reaches(t, parse, roots, script, p[|p| - 2]);
      SameImports(t, parse, roots, file, bytes, p[|p| - 2], p[|p| - 1]);
      ReachesNext(Edited(t, file, bytes), parse, roots, script, p[|p| - 2], p[|p| - 1]);
    }
  }

  lemma SameReach(t: Tree, parse: Parser, roots: seq<Path>, script: Path, file: Path, bytes: Bytes)
    requires !Reaches(t, parse, roots, script, file)
    ensures forall f ::
              Reaches(Edited(t, file, bytes), parse, roots, script, f) <==> Reaches(t, parse, roots, script, f)
  {
    forall f | Reaches(Edited(t, file, bytes), parse, roots, script, f) ensures Reaches(t, parse, roots, script, f) {
      var p :| Chain(Edited(t, file, bytes), parse, roots, p) && p[0] == script && p[|p| - 1] == f;
      ChainBefore(t, parse, roots, script, file, bytes, p);
    }
    forall f | Reaches(t, parse, roots, script, f) ensures Reaches(Edited(t, file, bytes), parse, roots, script, f) {
      var p :| Chain(t, parse, roots, p) && p[0] == script && p[|p| - 1] == f;
      ChainAfter(t, parse, roots, script, file, bytes, p);
    }
  }

  /** Editing a file a script does not reach leaves its closure, and what the node is hashed from, alone. */
  lemma UnreachableEditIsInvisible(t: Tree, parse: Parser, script: Path, files: seq<Path>, n: Node, file: Path,
                                   bytes: Bytes)
    requires script in t.files && IsClosure(t, parse, script, files) && forall f | f in files :: f in t.files
    requires !Reaches(t, parse, SearchRoots(t, script), script, file)
    ensures IsClosure(Edited(t, file, bytes), parse, script, files)
    ensures ScriptBasis(Edited(t, file, bytes), script, files, n) == ScriptBasis(t, script, files, n)
  {
    var roots := SearchRoots(t, script);
    SameReach(t, parse, roots, script, file, bytes);
    ReachesItself(t, parse, roots, script);
    assert SearchRoots(Edited(t, file, bytes), script) == roots;
    assert file !in files && file != script;
    assert BytesOf(Edited(t, file, bytes), files) == BytesOf(t, files);
  }

  /** The files of `files` that `other` has too, and those it has not. */
  function Kept(files: seq<Path>, other: seq<Path>): seq<Path> {
    if files == [] then [] else (if files[0] in other then [files[0]] else []) + Kept(files[1..], other)
  }

  function Dropped(files: seq<Path>, other: seq<Path>): seq<Path> {
    if files == [] then [] else (if files[0] in other then [] else [files[0]]) + Dropped(files[1..], other)
  }

  lemma {:induction false} KeptAre(files: seq<Path>, other: seq<Path>)
    ensures forall f :: f in Kept(files, other) <==> f in files && f in other
    ensures forall f :: f in Dropped(files, other) <==> f in files && f !in other
    ensures (forall i, j | 0 <= i < j < |files| :: files[i] != files[j]) ==>
              forall i, j | 0 <= i < j < |Kept(files, other)| :: Kept(files, other)[i] != Kept(files, other)[j]
  {
    if files != [] {
      KeptAre(files[1..], other);
      assert files == [files[0]] + files[1..];
      var rest := Kept(files[1..], other);
      if forall i, j | 0 <= i < j < |files| :: files[i] != files[j] {
        forall i | 0 <= i < |rest| ensures rest[i] != files[0] {
          assert rest[i] in rest;
        }
      }
    }
  }

  lemma {:induction false} BytesSplit(t: Tree, files: seq<Path>, other: seq<Path>)
    requires forall f | f in files :: f in t.files
    ensures forall f | f in Kept(files, other) || f in Dropped(files, other) :: f in t.files
    ensures multiset(BytesOf(t, files))
            == multiset(BytesOf(t, Kept(files, other))) + multiset(BytesOf(t, Dropped(files, other)))
  {
    KeptAre(files, other);
    if files != [] {
      var first, rest := files[0], files[1..];
      assert files == [first] + rest;
      BytesSplit(t, rest, other);
      KeptAre(rest, other);
      BytesOfCons(t, first, rest);
      if first in other {
        BytesOfCons(t, first, Kept(rest, other));
        assert Dropped(files, other) == Dropped(rest, other);
      } else {
        BytesOfCons(t, first, Dropped(rest, other));
        assert Kept(files, other) == Kept(rest, other);
      }
    }
  }

  lemma BytesOfCons(t: Tree, f: Path, files: seq<Path>)
    requires f in t.files && forall g | g in files :: g in t.files
    ensures (forall g | g in [f] + files :: g in t.files)
    ensures multiset(BytesOf(t, [f] + files)) == multiset{t.files[f]} + multiset(BytesOf(t, files))
  {
    assert BytesOf(t, [f] + files) == [t.files[f]] + BytesOf(t, files);
  }

  lemma BytesOfRemove(t: Tree, files: seq<Path>, j: nat)
    requires j < |files| && forall f | f in files :: f in t.files
    ensures forall f | f in RemoveAt(files, j) :: f in t.files
    ensures BytesOf(t, RemoveAt(files, j)) == RemoveAt(BytesOf(t, files), j)
  {
  }

  lemma {:induction false} BytesOfPermuted(t: Tree, a: seq<Path>, b: seq<Path>)
    requires forall f | f in a || f in b :: f in t.files
    requires multiset(a) == multiset(b)
    ensures multiset(BytesOf(t, a)) == multiset(BytesOf(t, b))
  {
    if a == [] {
      assert |multiset(b)| == |b|;
    } else {
      FirstIsIn(b, a);
      var j :| 0 <= j < |b| && b[j] == a[0];
      SameRest(b, a, j);
      assert forall f | f in a[1..] :: f in a;
      BytesOfRemove(t, b, j);
      BytesOfPermuted(t, a[1..], RemoveAt(b, j));
      assert BytesOf(t, a)[1..] == BytesOf(t, a[1..]);
      SameRestBack(BytesOf(t, b), BytesOf(t, a), j);
    }
  }

  /** The bytes of a list holding the edited file once: that file's bytes are exchanged. */
  lemma EditedBytes(t: Tree, files: seq<Path>, file: Path, bytes: Bytes) returns (rest: multiset<Bytes>)
    requires file in files && (forall f | f in files :: f in t.files)
    requires forall i, j | 0 <= i < j < |files| :: files[i] != files[j]
    ensures multiset(BytesOf(t, files)) == rest + multiset{t.files[file]}
    ensures multiset(BytesOf(Edited(t, file, bytes), files)) == rest + multiset{bytes}
  {
    var i :| 0 <= i < |files| && files[i] == file;
    var a := BytesOf(t, files);
    var b := BytesOf(Edited(t, file, bytes), files);
    rest := multiset(RemoveAt(a, i));
    assert b == a[i := bytes];
    assert RemoveAt(b, i) == RemoveAt(a, i);
    RemoveFromMultiset(a, i);
    RemoveFromMultiset(b, i);
  }

  /** A file stays reachable through an edit of itself: the way to it does not lead through it. */
  lemma {:induction false} StillReached(t: Tree, parse: Parser, roots: seq<Path>, script: Path, file: Path,
                                        bytes: Bytes, p: seq<Path>)
    requires Chain(t, parse, roots, p) && p[0] == script && p[|p| - 1] == file
    ensures Reaches(Edited(t, file, bytes), parse, roots, script, file)
  {
    var e := Edited(t, file, bytes);
    if i :| 0 <= i < |p| - 1 && p[i] == file {
      var q := p[..i + 1];
      forall k | 0 <= k < |q| - 1 ensures Imports(t, parse, roots, q[k], q[k + 1]) {
        assert q[k] == p[k] && q[k + 1] == p[k + 1];
      }
      StillReached(t, parse, roots, script, file, bytes, q);
    } else {
      forall k | 0 <= k < |p| - 1 ensures Imports(e, parse, roots, p[k], p[k + 1]) {
        SameImports(t, parse, roots, file, bytes, p[k], p[k + 1]);
      }
      assert Chain(e, parse, roots, p);
    }
  }

  /** What editing a member exchanges: its old bytes and those of the members it drops, for its new bytes and
      those of the members it gains. */
  ghost predicate ExchangeShows(t: Tree, files: seq<Path>, files': seq<Path>, file: Path, bytes: Bytes)
    requires file in t.files && forall f | f in files || f in files' :: f in t.files
  {
    KeptAre(files, files');
    KeptAre(files', files);
    multiset{t.files[file]} + multiset(BytesOf(t, Dropped(files, files')))
    != multiset{bytes} + multiset(BytesOf(t, Dropped(files', files)))
  }

  lemma SameKept(t: Tree, files: seq<Path>, files': seq<Path>)
    requires forall f | f in files || f in files' :: f in t.files
    requires forall i, j | 0 <= i < j < |files| :: files[i] != files[j]
    requires forall i, j | 0 <= i < j < |files'| :: files'[i] != files'[j]
    ensures forall f | f in Kept(files, files') || f in Kept(files', files) :: f in t.files
    ensures multiset(BytesOf(t, Kept(files, files'))) == multiset(BytesOf(t, Kept(files', files)))
  {
    KeptAre(files, files');
    KeptAre(files', files);
    SameElementsSameMultiset(Kept(files, files'), Kept(files', files));
    BytesOfPermuted(t, Kept(files, files'), Kept(files', files));
  }

  /** The members' bytes change iff the exchange shows. */
  lemma MemberBytesChange(t: Tree, files: seq<Path>, files': seq<Path>, file: Path, bytes: Bytes)
    requires forall f | f in files || f in files' :: f in t.files
    requires forall i, j | 0 <= i < j < |files| :: files[i] != files[j]
    requires forall i, j | 0 <= i < j < |files'| :: files'[i] != files'[j]
    requires file in files && file in files'
    ensures multiset(BytesOf(Edited(t, file, bytes), files')) != multiset(BytesOf(t, files))
            <==> ExchangeShows(t, files, files', file, bytes)
  {
    var e := Edited(t, file, bytes);
    KeptAre(files, files');
    KeptAre(files', files);
    BytesSplit(t, files, files');
    BytesSplit(e, files', files);
    SameKept(t, files, files');
    var rest := EditedBytes(t, Kept(files', files), file, bytes);
    var gained := Dropped(files', files);
    assert BytesOf(e, gained) == BytesOf(t, gained);
    Exchange(rest, multiset{t.files[file]}, multiset{bytes},
             multiset(BytesOf(t, Dropped(files, files'))), multiset(BytesOf(t, gained)));
  }

  lemma Exchange(rest: multiset<Bytes>, a: multiset<Bytes>, b: multiset<Bytes>, d: multiset<Bytes>, g: multiset<Bytes>)
    ensures rest + a + d == rest + b + g <==> a + d == b + g
  {
    assert rest + a + d == rest + (a + d) && rest + b + g == rest + (b + g);
    assert (rest + (a + d)) - rest == a + d && (rest + (b + g)) - rest == b + g;
  }

  /** Editing the script always changes the content hash, whatever it does to the closure. */
  lemma ScriptEditIsSeen(t: Tree, script: Path, files: seq<Path>, files': seq<Path>, n: Node, bytes: Bytes, sha: Sha)
    requires script in t.files && t.files[script] != bytes && forall f | f in files || f in files' :: f in t.files
    requires HexDigest64(sha)
    requires CollisionFree(sha, Hashed(sha, ScriptBasis(Edited(t, script, bytes), script, files', n))
                                + Hashed(sha, ScriptBasis(t, script, files, n)))
    ensures ContentHash(sha, ScriptBasis(Edited(t, script, bytes), script, files', n))
            != ContentHash(sha, ScriptBasis(t, script, files, n))
  {
    ContentHashIsExact(sha, ScriptBasis(Edited(t, script, bytes), script, files', n), ScriptBasis(t, script, files, n));
  }

  /** Exactly when a reached edit changes the content hash: always for the script; for a member, unless its old
      bytes and the members it drops are, byte for byte, its new bytes and the members it gains. */
  lemma ReachedEditIsSeen(t: Tree, parse: Parser, script: Path, files: seq<Path>, files': seq<Path>, n: Node,
                          file: Path, bytes: Bytes, sha: Sha)
    requires script in t.files && forall f | f in files || f in files' :: f in t.files
    requires IsClosure(t, parse, script, files) && IsClosure(Edited(t, file, bytes), parse, script, files')
    requires Reaches(t, parse, SearchRoots(t, script), script, file) && file in t.files && t.files[file] != bytes
    requires HexDigest64(sha)
    requires CollisionFree(sha, Hashed(sha, ScriptBasis(Edited(t, file, bytes), script, files', n))
                                + Hashed(sha, ScriptBasis(t, script, files, n)))
    ensures ContentHash(sha, ScriptBasis(Edited(t, file, bytes), script, files', n))
            != ContentHash(sha, ScriptBasis(t, script, files, n))
            <==> file == script || ExchangeShows(t, files, files', file, bytes)
  {
    if file == script {
      ScriptEditIsSeen(t, script, files, files', n, bytes, sha);
    } else {
      var roots := SearchRoots(t, script);
      assert SearchRoots(Edited(t, file, bytes), script) == roots;
      var p :| Chain(t, parse, roots, p) && p[0] == script && p[|p| - 1] == file;
      StillReached(t, parse, roots, script, file, bytes, p);
      MemberBytesChange(t, files, files', file, bytes);
      ContentHashIsExact(sha, ScriptBasis(Edited(t, file, bytes), script, files', n), ScriptBasis(t, script, files, n));
    }
  }

  lemma {:induction false} NothingDropped(files: seq<Path>, other: seq<Path>)
    requires forall f | f in files :: f in other
    ensures Dropped(files, other) == []
  {
    if files != [] {
      NothingDropped(files[1..], other);
    }
  }

  /** An edit that keeps the member set is seen. */
  lemma SameMembersShow(t: Tree, files: seq<Path>, files': seq<Path>, file: Path, bytes: Bytes)
    requires file in t.files && t.files[file] != bytes && forall f | f in files || f in files' :: f in t.files
    requires forall f :: f in files <==> f in files'
    ensures ExchangeShows(t, files, files', file, bytes)
  {
    NothingDropped(files, files');
    NothingDropped(files', files);
    var a, b := multiset{t.files[file]}, multiset{bytes};
    assert BytesOf(t, []) == [] && a[bytes] == 0 && b[bytes] == 1;
    assert (a + multiset{})[bytes] == 0 && (b + multiset{})[bytes] == 1;
  }

  /** So is an edit to bytes no file of the tree had. */
  lemma NewBytesShow(t: Tree, files: seq<Path>, files': seq<Path>, file: Path, bytes: Bytes)
    requires file in t.files && forall f | f in files || f in files' :: f in t.files
    requires forall f | f in t.files :: t.files[f] != bytes
    ensures ExchangeShows(t, files, files', file, bytes)
  {
    KeptAre(files, files');
    KeptAre(files', files);
    var d, g := BytesOf(t, Dropped(files, files')), BytesOf(t, Dropped(files', files));
    forall i | 0 <= i < |d| ensures d[i] != bytes {
      assert Dropped(files, files')[i] in t.files;
    }
    var a, b := multiset{t.files[file]}, multiset{bytes};
    assert bytes !in multiset(d) && (a + multiset(d))[bytes] == 0;
    assert (b + multiset(g))[bytes] == 1 + multiset(g)[bytes];
  }

  /** Two script nodes, in any two trees, share a content hash iff their scripts have the same bytes, their
      closures hold the same files byte for byte (whatever their names), and their definitions agree. */
  lemma ScriptHashIsExact(sha: Sha, a: Node, b: Node, t: Tree, t': Tree, script: Path, script': Path,
                          files: seq<Path>, files': seq<Path>)
    requires LoaderValid(a) && LoaderValid(b) && HexDigest64(sha)
    requires script in t.files && forall f | f in files :: f in t.files
    requires script' in t'.files && forall f | f in files' :: f in t'.files
    requires CollisionFree(sha,
        Hashed(sha, ScriptBasis(t, script, files, a)) + Hashed(sha, ScriptBasis(t', script', files', b)))
    ensures ContentHash(sha, ScriptBasis(t, script, files, a)) == ContentHash(sha, ScriptBasis(t', script', files', b))
            <==> t.files[script] == t'.files[script'] && multiset(BytesOf(t, files)) == multiset(BytesOf(t', files'))
                 && SameDefinition(a, b)
  {
    ContentHashIsExact(sha, ScriptBasis(t, script, files, a), ScriptBasis(t', script', files', b));
    EntryIsExact(a, b);
  }

  /** A csv node's hash depends on its uri and its definition only. */
  lemma CsvHashIsExact(sha: Sha, a: Node, b: Node, uri: string, uri': string)
    requires LoaderValid(a) && LoaderValid(b) && HexDigest64(sha)
    requires CollisionFree(sha, Hashed(sha, CsvBasis(uri, a)) + Hashed(sha, CsvBasis(uri', b)))
    ensures ContentHash(sha, CsvBasis(uri, a)) == ContentHash(sha, CsvBasis(uri', b))
        <==> uri == uri' && SameDefinition(a, b)
  {
    ContentHashIsExact(sha, CsvBasis(uri, a), CsvBasis(uri', b));
    EntryIsExact(a, b);
    if Encode(uri) == Encode(uri') {
      EncodeInjective(uri, uri');
    }
  }
}
