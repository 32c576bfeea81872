/** The in-repository import closure of a script. Paths are component sequences; Python's parser is a
    parameter that says what a file's bytes import. */
module Closure {
  import opened Rows
  import opened Order
  import opened Utf8

  type Dotted = seq<string>

  datatype Import =
    | Plain(modules: seq<Dotted>)
    | From(base: Dotted, names: seq<string>)
    | Relative(level: nat, suffix: Option<Dotted>, names: seq<string>)

  /** What parsing a file gives: a syntax error, or whether it uses a dynamic-import construct, and its imports. */
  datatype Source = SyntaxError | Parsed(dynamic: bool, imports: seq<Import>)

  type Parser = Bytes -> Source

  /** `links` resolves every path that is a file; `files` holds the bytes of the resolved files. */
  datatype Tree = Tree(root: Path, links: map<Path, Path>, files: map<Path, Bytes>)
  {
    ghost predicate Valid() {
      forall p | p in links :: links[p] in files
    }

    predicate Under(p: Path) {
      root <= p
    }
  }

  function Parent(p: Path): Path {
    if p == [] then [] else p[..|p| - 1]
  }

  function AliasNames(base: Dotted, names: seq<string>): seq<Dotted> {
    (if base == [] then [] else [base]) + seq(|names|, i requires 0 <= i < |names| => base + [names[i]])
  }

  /** The dotted names one import statement may bind, over-including `base.name` for every name. */
  function NamesOf(t: Tree, file: Path, imp: Import): seq<Dotted> {
    match imp
    case Plain(modules) => modules
    case From(base, names) => AliasNames(base, names)
    case Relative(level, suffix, names) =>
      var package := if t.Under(Parent(file)) then Parent(file)[|t.root|..] else [];
      var up := if level == 0 then 0 else level - 1;
      if up > |package| then []
      else AliasNames(package[..|package| - up] + (if suffix.Some? then suffix.value else []), names)
  }

  const INIT := "__init__.py"

  function PackageFile(root: Path, name: Dotted): Path {
    root + name + [INIT]
  }

  function ModuleFile(root: Path, name: Dotted): Path
    requires name != []
  {
    root + name[..|name| - 1] + [name[|name| - 1] + ".py"]
  }

  /** First root first; within a root, the package before the module file. */
  function ResolveName(t: Tree, roots: seq<Path>, name: Dotted): Option<(Path, Path)> {
    if roots == [] || name == [] then None
    else if PackageFile(roots[0], name) in t.links then Some((roots[0], PackageFile(roots[0], name)))
    else if ModuleFile(roots[0], name) in t.links then Some((roots[0], ModuleFile(roots[0], name)))
    else ResolveName(t, roots[1..], name)
  }

  /** The `__init__.py` files of the packages above the resolved name, from depth `depth` on. */
  function Ancestors(t: Tree, root: Path, name: Dotted, depth: nat): seq<Path>
    decreases |name| - depth
  {
    if depth >= |name| then []
    else
      var init := PackageFile(root, name[..depth]);
      (if init in t.links then [t.links[init]] else []) + Ancestors(t, root, name, depth + 1)
  }

  /** Every file one dotted name makes a member, escapes from the repository included. */
  function FilesOfName(t: Tree, roots: seq<Path>, name: Dotted): seq<Path> {
    match ResolveName(t, roots, name)
    case None => []
    case Some((root, file)) => (if file in t.links then [t.links[file]] else []) + Ancestors(t, root, name, 1)
  }

  function FilesOfNames(t: Tree, roots: seq<Path>, names: seq<Dotted>): seq<Path> {
    if names == [] then [] else FilesOfName(t, roots, names[0]) + FilesOfNames(t, roots, names[1..])
  }

  function FilesOfImports(t: Tree, roots: seq<Path>, file: Path, imports: seq<Import>): seq<Path> {
    if imports == [] then []
    else FilesOfNames(t, roots, NamesOf(t, file, imports[0])) + FilesOfImports(t, roots, file, imports[1..])
  }

  function SourceOf(t: Tree, parse: Parser, file: Path): Source {
    if file in t.files then parse(t.files[file]) else SyntaxError
  }

  /** A file CI refuses: it does not parse, or hides imports from the analysis. */
  predicate Refused(t: Tree, parse: Parser, file: Path) {
    var s := SourceOf(t, parse, file);
    s.SyntaxError? || s.dynamic
  }

  function ImportedFiles(t: Tree, parse: Parser, roots: seq<Path>, file: Path): seq<Path> {
    var s := SourceOf(t, parse, file);
    if s.SyntaxError? || s.dynamic then [] else FilesOfImports(t, roots, file, s.imports)
  }

  /** `file` imports `dep`, and `dep` lies in the repository. */
  predicate Imports(t: Tree, parse: Parser, roots: seq<Path>, file: Path, dep: Path) {
    dep in ImportedFiles(t, parse, roots, file) && t.Under(dep)
  }

  function SearchRoots(t: Tree, script: Path): seq<Path> {
    if Parent(script) == t.root then [t.root] else [t.root, Parent(script)]
  }

  // --- what importing is --------------------------------------------------

  /** `name` is `base` itself, or `base` with one of the imported names after it. */
  ghost predicate UnderBase(base: Dotted, names: seq<string>, name: Dotted) {
    (base != [] && name == base) || exists a | a in names :: name == base + [a]
  }

  /** `file` stands in the directory `package` below the root. */
  ghost predicate InPackage(root: Path, file: Path, package: Path) {
    |file| == |root| + |package| + 1 && root + package <= file
  }

  /** The statement, standing in `file`, may bind the module `name`. A relative one counts its dots from the
      package of the file: one dot is that package, each further dot the one above. */
  ghost predicate Binds(root: Path, file: Path, imp: Import, name: Dotted) {
    match imp
    case Plain(modules) => name in modules
    case From(base, names) => UnderBase(base, names, name)
    case Relative(level, suffix, names) =>
      var up := if level == 0 then 0 else level - 1;
      exists package | InPackage(root, file, package) ::
        && up <= |package|
        && UnderBase(package[..|package| - up] + (if suffix.Some? then suffix.value else []), names, name)
  }

  /** `p` is what `name` is under this root: the package's `__init__.py` if there is one, else the module file. */
  ghost predicate MatchesUnder(t: Tree, root: Path, name: Dotted, p: Path)
    requires name != []
  {
    && p in t.links
    && (|| p == root + name + ["__init__.py"]
        || (&& root + name + ["__init__.py"] !in t.links
            && p == root + name[..|name| - 1] + [name[|name| - 1] + ".py"]))
  }

  /** `roots[k]` is the first root under which `name` is anything, and it is `p` there. */
  ghost predicate FirstMatch(t: Tree, roots: seq<Path>, name: Dotted, k: nat, p: Path) {
    && name != [] && k < |roots| && MatchesUnder(t, roots[k], name, p)
    && forall j, q | 0 <= j < k :: !MatchesUnder(t, roots[j], name, q)
  }

  /** The name brings `dep` in: as its first match, or as the `__init__.py` of a package the match lies in. */
  ghost predicate Brings(t: Tree, roots: seq<Path>, name: Dotted, dep: Path) {
    exists k: nat, p | FirstMatch(t, roots, name, k, p) ::
      || t.links[p] == dep
      || exists depth | 0 < depth < |name| ::
           var init := roots[k] + name[..depth] + ["__init__.py"];
           init in t.links && t.links[init] == dep
  }

  lemma AliasNamesAre(base: Dotted, names: seq<string>, name: Dotted)
    ensures name in AliasNames(base, names) <==> UnderBase(base, names, name)
  {
    var tail := seq(|names|, i requires 0 <= i < |names| => base + [names[i]]);
    if a :| a in names && name == base + [a] {
      var i :| 0 <= i < |names| && names[i] == a;
      assert tail[i] == name;
    }
    if name in tail {
      var i :| 0 <= i < |tail| && tail[i] == name;
      assert names[i] in names;
    }
  }

  lemma NamesAreBound(t: Tree, file: Path, imp: Import, name: Dotted)
    requires t.root < file
    ensures name in NamesOf(t, file, imp) <==> Binds(t.root, file, imp, name)
  {
    match imp
    case Plain(_) =>
    case From(base, names) => AliasNamesAre(base, names, name);
    case Relative(level, suffix, names) =>
      var package := PackageIs(t.root, file);
      var up := if level == 0 then 0 else level - 1;
      if up <= |package| {
        AliasNamesAre(package[..|package| - up] + (if suffix.Some? then suffix.value else []), names, name);
      }
  }

  lemma PackageIs(root: Path, file: Path) returns (package: Path)
    requires root < file
    ensures root <= Parent(file) && package == Parent(file)[|root|..]
    ensures forall q :: InPackage(root, file, q) <==> q == package
  {
    package := file[|root|..|file| - 1];
    assert Parent(file) == root + package;
    forall q | InPackage(root, file, q) ensures q == package {
      assert (root + q)[|root|..] == file[..|file| - 1][|root|..];
    }
  }

  lemma {:induction false} ResolvedIsFirst(t: Tree, roots: seq<Path>, name: Dotted)
    decreases |roots|, 1
    ensures var r := ResolveName(t, roots, name);
            && (r.Some? ==> exists k: nat :: FirstMatch(t, roots, name, k, r.value.1) && roots[k] == r.value.0)
            && (forall k: nat, p | FirstMatch(t, roots, name, k, p) :: r == Some((roots[k], p)))
  {
    var r := ResolveName(t, roots, name);
    if roots != [] && name != [] {
      if PackageFile(roots[0], name) in t.links || ModuleFile(roots[0], name) in t.links {
        assert MatchesUnder(t, roots[0], name, r.value.1);
        assert FirstMatch(t, roots, name, 0, r.value.1);
      } else {
        ResolvedLater(t, roots, name);
      }
    }
  }

  lemma {:induction false} ResolvedLater(t: Tree, roots: seq<Path>, name: Dotted)
    requires roots != [] && name != [] && forall q :: !MatchesUnder(t, roots[0], name, q)
    requires ResolveName(t, roots, name) == ResolveName(t, roots[1..], name)
    ensures var r := ResolveName(t, roots, name);
            && (r.Some? ==> exists k: nat :: FirstMatch(t, roots, name, k, r.value.1) && roots[k] == r.value.0)
            && (forall k: nat, p | FirstMatch(t, roots, name, k, p) :: r == Some((roots[k], p)))
    decreases |roots|, 0
  {
    var r, more := ResolveName(t, roots, name), roots[1..];
    ResolvedIsFirst(t, more, name);
    assert forall j | 0 < j < |roots| :: roots[j] == more[j - 1];
    if r.Some? {
      var k: nat :| FirstMatch(t, more, name, k, r.value.1) && more[k] == r.value.0;
      assert FirstMatch(t, roots, name, k + 1, r.value.1);
    }
    forall k: nat, p | FirstMatch(t, roots, name, k, p) ensures r == Some((roots[k], p)) {
      assert k > 0;
      forall j, q | 0 <= j < k - 1 ensures !MatchesUnder(t, more[j], name, q) {
        assert more[j] == roots[j + 1];
      }
      assert FirstMatch(t, more, name, k - 1, p);
    }
  }

  lemma {:induction false} AncestorsAre(t: Tree, root: Path, name: Dotted, depth: nat, dep: Path)
    ensures dep in Ancestors(t, root, name, depth)
            <==> exists d | depth <= d < |name| ::
                   var init := root + name[..d] + ["__init__.py"];
                   init in t.links && t.links[init] == dep
    decreases |name| - depth
  {
    if depth < |name| {
      AncestorsAre(t, root, name, depth + 1, dep);
    }
  }

  lemma NameBrings(t: Tree, roots: seq<Path>, name: Dotted, dep: Path)
    ensures dep in FilesOfName(t, roots, name) <==> Brings(t, roots, name, dep)
  {
    ResolvedIsFirst(t, roots, name);
    var r := ResolveName(t, roots, name);
    if r.Some? {
      AncestorsAre(t, r.value.0, name, 1, dep);
    }
  }

  lemma {:induction false} NamesBring(t: Tree, roots: seq<Path>, names: seq<Dotted>, dep: Path)
    ensures dep in FilesOfNames(t, roots, names) <==> exists name | name in names :: Brings(t, roots, name, dep)
  {
    if names != [] {
      assert names == [names[0]] + names[1..];
      NameBrings(t, roots, names[0], dep);
      NamesBring(t, roots, names[1..], dep);
    }
  }

  lemma {:induction false} StatementsBring(t: Tree, roots: seq<Path>, file: Path, imports: seq<Import>, dep: Path)
    requires t.root < file
    ensures dep in FilesOfImports(t, roots, file, imports)
            <==> exists imp, name | imp in imports && Binds(t.root, file, imp, name) :: Brings(t, roots, name, dep)
  {
    if imports != [] {
      var first := imports[0];
      assert imports == [first] + imports[1..];
      NamesBring(t, roots, NamesOf(t, file, first), dep);
      forall name ensures name in NamesOf(t, file, first) <==> Binds(t.root, file, first, name) {
        NamesAreBound(t, file, first, name);
      }
      StatementsBring(t, roots, file, imports[1..], dep);
    }
  }

  /** A file in the repository imports another exactly when it can be analysed and one of its statements binds a name
      that brings the other in, from the repository's root or, after it, the script's own directory. */
  lemma ImportsIff(t: Tree, parse: Parser, script: Path, file: Path, dep: Path)
    requires t.root < script && t.root < file && file in t.files
    ensures var roots := if script == t.root + [script[|script| - 1]] then [t.root]
                         else [t.root, script[..|script| - 1]];
            Imports(t, parse, SearchRoots(t, script), file, dep)
            <==> && t.root <= dep && parse(t.files[file]).Parsed? && !parse(t.files[file]).dynamic
                 && exists imp, name | imp in parse(t.files[file]).imports && Binds(t.root, file, imp, name) ::
                      Brings(t, roots, name, dep)
  {
    var roots := SearchRoots(t, script);
    assert Parent(script) == t.root <==> script == t.root + [script[|script| - 1]];
    var s := parse(t.files[file]);
    if s.Parsed? && !s.dynamic {
      StatementsBring(t, roots, file, s.imports, dep);
    }
  }

  // --- reachability -------------------------------------------------------

  ghost predicate Chain(t: Tree, parse: Parser, roots: seq<Path>, p: seq<Path>) {
    p != [] && forall i | 0 <= i < |p| - 1 :: Imports(t, parse, roots, p[i], p[i + 1])
  }

  ghost predicate Reaches(t: Tree, parse: Parser, roots: seq<Path>, script: Path, file: Path) {
    exists p :: Chain(t, parse, roots, p) && p[0] == script && p[|p| - 1] == file
  }

  lemma ReachesItself(t: Tree, parse: Parser, roots: seq<Path>, script: Path)
    ensures Reaches(t, parse, roots, script, script)
  {
    assert Chain(t, parse, roots, [script]);
  }

  lemma ReachesNext(t: Tree, parse: Parser, roots: seq<Path>, script: Path, file: Path, dep: Path)
    requires Reaches(t, parse, roots, script, file) && Imports(t, parse, roots, file, dep)
    ensures Reaches(t, parse, roots, script, dep)
  {
    var p :| Chain(t, parse, roots, p) && p[0] == script && p[|p| - 1] == file;
    var q := p + [dep];
    forall i | 0 <= i < |q| - 1 ensures Imports(t, parse, roots, q[i], q[i + 1]) {
      if i < |p| - 1 {
        assert q[i] == p[i] && q[i + 1] == p[i + 1];
      }
    }
    assert Chain(t, parse, roots, q) && q[0] == script && q[|q| - 1] == dep;
  }

  /** A set that holds the script and every import of its members holds everything reachable. */
  lemma {:induction false} ClosedSetHolds(t: Tree, parse: Parser, roots: seq<Path>, s: set<Path>, p: seq<Path>)
    requires Chain(t, parse, roots, p) && p[0] in s
    requires forall f, g | f in s && Imports(t, parse, roots, f, g) :: g in s
    ensures p[|p| - 1] in s
  {
    if |p| > 1 {
      var q := p[1..];
      assert Imports(t, parse, roots, p[0], p[0 + 1]);
      forall i | 0 <= i < |q| - 1 ensures Imports(t, parse, roots, q[i], q[i + 1]) {
        assert q[i] == p[i + 1] && q[i + 1] == p[i + 1 + 1];
      }
      ClosedSetHolds(t, parse, roots, s, q);
    }
  }

  ghost predicate Closed(t: Tree, parse: Parser, roots: seq<Path>, s: set<Path>) {
    forall f, g | f in s && Imports(t, parse, roots, f, g) :: g in s
  }

  lemma ReachableIsLeast(t: Tree, parse: Parser, roots: seq<Path>, script: Path, s: set<Path>)
    requires script in s && Closed(t, parse, roots, s)
    requires forall f | f in s :: Reaches(t, parse, roots, script, f)
    ensures forall f :: f in s <==> Reaches(t, parse, roots, script, f)
  {
    forall f | Reaches(t, parse, roots, script, f) ensures f in s {
      var p :| Chain(t, parse, roots, p) && p[0] == script && p[|p| - 1] == f;
      ClosedSetHolds(t, parse, roots, s, p);
    }
  }

  // --- imported files exist -----------------------------------------------

  lemma {:induction false} AncestorsExist(t: Tree, root: Path, name: Dotted, depth: nat)
    requires t.Valid()
    ensures forall f | f in Ancestors(t, root, name, depth) :: f in t.files
    decreases |name| - depth
  {
    if depth < |name| {
      AncestorsExist(t, root, name, depth + 1);
    }
  }

  lemma {:induction false} NamesExist(t: Tree, roots: seq<Path>, names: seq<Dotted>)
    requires t.Valid()
    ensures forall f | f in FilesOfNames(t, roots, names) :: f in t.files
  {
    if names != [] {
      var r := ResolveName(t, roots, names[0]);
      if r.Some? {
        AncestorsExist(t, r.value.0, names[0], 1);
      }
      NamesExist(t, roots, names[1..]);
    }
  }

  lemma {:induction false} ImportsExist(t: Tree, roots: seq<Path>, file: Path, imports: seq<Import>)
    requires t.Valid()
    ensures forall f | f in FilesOfImports(t, roots, file, imports) :: f in t.files
  {
    if imports != [] {
      NamesExist(t, roots, NamesOf(t, file, imports[0]));
      ImportsExist(t, roots, file, imports[1..]);
    }
  }

  // --- the worklist -------------------------------------------------------

  datatype Result = Members(files: seq<Path>) | ContractError(file: Path)

  /** The members of the closure, in order: everything reachable but the script itself. */
  ghost predicate IsClosure(t: Tree, parse: Parser, script: Path, files: seq<Path>) {
    && SortedBy(PathLeq, files) && (forall i, j | 0 <= i < j < |files| :: files[i] != files[j])
    && forall f :: f in files <==> f != script && Reaches(t, parse, SearchRoots(t, script), script, f)
  }

  /** One pass over a file's imports: what is new and in the repository joins `seen` and the queue. */
  method Enqueue(t: Tree, deps: seq<Path>, seen: set<Path>, queue: seq<Path>)
      returns (seen': set<Path>, queue': seq<Path>)
    ensures forall f :: f in seen' <==> f in seen || (f in deps && t.Under(f))
    ensures forall f :: f in queue' <==> f in queue || (f in deps && t.Under(f) && f !in seen)
    ensures seen' == seen ==> queue' == queue
  {
    seen', queue' := seen, queue;
    var i := 0;
    while i < |deps|
      invariant 0 <= i <= |deps|
      invariant forall f :: f in seen' <==> f in seen || (f in deps[..i] && t.Under(f))
      invariant forall f :: f in queue' <==> f in queue || (f in deps[..i] && t.Under(f) && f !in seen)
      invariant seen <= seen' && (seen' == seen ==> queue' == queue)
    {
      assert deps[..i + 1] == deps[..i] + [deps[i]];
      if t.Under(deps[i]) && deps[i] !in seen' {
        seen', queue' := seen' + {deps[i]}, queue' + [deps[i]];
      }
      i := i + 1;
    }
    assert deps[..i] == deps;
  }

  method SortPaths(s: set<Path>) returns (r: seq<Path>)
    ensures SortedBy(PathLeq, r) && (forall i, j | 0 <= i < j < |r| :: r[i] != r[j])
    ensures forall f :: f in r <==> f in s
  {
    PathOrder();
    r := [];
    var pending := s;
    while pending != {}
      invariant pending <= s && SortedBy(PathLeq, r)
      invariant forall i, j | 0 <= i < j < |r| :: r[i] != r[j]
      invariant forall f :: f in r <==> f in s && f !in pending
      decreases pending
    {
      var x :| x in pending;
      InsertSorts(PathLeq, x, r);
      InsertAdds(PathLeq, x, r);
      r := Insert(PathLeq, x, r);
      pending := pending - {x};
    }
  }

  lemma {:induction false} InsertAdds<T>(leq: (T, T) -> bool, x: T, s: seq<T>)
    ensures forall y :: y in Insert(leq, x, s) <==> y == x || y in s
    ensures x !in s && (forall i, j | 0 <= i < j < |s| :: s[i] != s[j]) ==>
              forall i, j | 0 <= i < j < |Insert(leq, x, s)| :: Insert(leq, x, s)[i] != Insert(leq, x, s)[j]
  {
    if s != [] && !leq(x, s[0]) {
      InsertAdds(leq, x, s[1..]);
      assert s == [s[0]] + s[1..];
      var rest := Insert(leq, x, s[1..]);
      if x !in s && forall i, j | 0 <= i < j < |s| :: s[i] != s[j] {
        forall i | 0 <= i < |rest| ensures rest[i] != s[0] {
          assert rest[i] in rest;
        }
      }
    }
  }

  /** Terminates on every finite tree, cycles included: the closure exactly, or an error exactly when some
      reachable file is refused. */
  method ResolveClosure(t: Tree, parse: Parser, script: Path) returns (r: Result)
    requires t.Valid() && script in t.files && t.Under(script)
    ensures r.Members? ==> IsClosure(t, parse, script, r.files)
    ensures r.Members? ==> forall f | Reaches(t, parse, SearchRoots(t, script), script, f) :: !Refused(t, parse, f)
    ensures r.ContractError? ==> Refused(t, parse, r.file) && Reaches(t, parse, SearchRoots(t, script), script, r.file)
  {
    var roots := SearchRoots(t, script);
    var seen: set<Path> := {script};
    var queue: seq<Path> := [script];
    ReachesItself(t, parse, roots, script);
    while queue != []
      invariant script in seen && seen <= t.files.Keys
      invariant forall f | f in queue :: f in seen
      invariant forall f | f in seen :: Reaches(t, parse, roots, script, f)
      invariant forall f | f in seen && f !in queue :: !Refused(t, parse, f)
      invariant forall f, g | f in seen && f !in queue && Imports(t, parse, roots, f, g) :: g in seen
      decreases |t.files.Keys - seen|, |queue|
    {
      var current := queue[0];
      assert queue == [current] + queue[1..];
      queue := queue[1..];
      if Refused(t, parse, current) {
        return ContractError(current);
      }
      var deps := ImportedFiles(t, parse, roots, current);
      ImportsExist(t, roots, current, SourceOf(t, parse, current).imports);
      ghost var before := seen;
      seen, queue := Enqueue(t, deps, seen, queue);
      forall f | f in seen ensures Reaches(t, parse, roots, script, f) {
        if f !in before {
          ReachesNext(t, parse, roots, script, current, f);
        }
      }
      FewerUnseen(t.files.Keys, before, seen);
    }
    ReachableIsLeast(t, parse, roots, script, seen);
    var files := SortPaths(seen - {script});
    return Members(files);
  }

  lemma FewerUnseen<T>(all: set<T>, before: set<T>, seen: set<T>)
    requires before <= seen <= all
    ensures before != seen ==> |all - seen| < |all - before|
  {
    var a, b := all - seen, all - before;
    assert b == a + (seen - before) && a !! (seen - before);
    assert before != seen ==> exists x :: x in seen - before;
  }
}
