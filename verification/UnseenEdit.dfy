/** A reached edit no content hash can see: the member it drops has the bytes it gets, the member it gains the
    bytes it loses. */
module UnseenEdit {
  import opened Rows
  import opened Order
  import opened Utf8
  import opened Closure
  import opened Hashing
  import opened Fingerprint
  import opened Repository

  const ROOTS: seq<Path> := [[]]
  const SCRIPT: Path := ["x.py"]
  const MEMBER: Path := ["a", "m.py"]
  const FIRST: Path := ["a", "s", "d.py"]
  const SECOND: Path := ["a", "u", "e.py"]

  predicate IsFile(p: Path) {
    p == SCRIPT || p == MEMBER || p == FIRST || p == SECOND
  }

  /** Three texts: `import a.m`, `from .s import d` and `from .u import e`. */
  datatype Texts = Texts(script: Bytes, fromS: Bytes, fromU: Bytes)

  /** Python's reading of them. */
  ghost predicate Reads(parse: Parser, x: Texts) {
    && parse(x.script) == Parsed(false, [Plain([["a", "m"]])])
    && parse(x.fromS) == Parsed(false, [Relative(1, Some(["s"]), ["d"])])
    && parse(x.fromU) == Parsed(false, [Relative(1, Some(["u"]), ["e"])])
  }

  /** The four files, under no other name; `a/m.py` is the one that is edited. */
  ghost predicate Holds(t: Tree, x: Texts) {
    && t.root == [] && (forall p :: p in t.links <==> IsFile(p)) && (forall p :: p in t.files <==> IsFile(p))
    && (forall p | p in t.links :: t.links[p] == p)
    && t.files[SCRIPT] == x.script && t.files[FIRST] == x.fromU && t.files[SECOND] == x.fromS
  }

  function Before(x: Texts): Tree {
    Tree([], map[SCRIPT := SCRIPT, MEMBER := MEMBER, FIRST := FIRST, SECOND := SECOND],
         map[SCRIPT := x.script, MEMBER := x.fromS, FIRST := x.fromU, SECOND := x.fromS])
  }

  lemma PathsDiffer()
    ensures SCRIPT != MEMBER && MEMBER != FIRST && FIRST != SECOND && SCRIPT != FIRST
        && SCRIPT != SECOND && MEMBER != SECOND
  {
    assert FIRST[1] == "s" && SECOND[1] == "u" && "s"[0] != "u"[0];
  }

  lemma TwoComponents(x: string, y: string)
    requires x != "a" || y != "m.py"
    ensures !IsFile([x, y])
  {
    assert [x, y][0] == x && [x, y][1] == y && MEMBER[0] == "a" && MEMBER[1] == "m.py";
  }

  lemma ThreeComponents(x: string, y: string, z: string)
    requires (y != "s" || z != "d.py") && (y != "u" || z != "e.py")
    ensures !IsFile([x, y, z])
  {
    assert [x, y, z][1] == y && [x, y, z][2] == z;
    assert FIRST[1] == "s" && FIRST[2] == "d.py" && SECOND[1] == "u" && SECOND[2] == "e.py";
  }

  lemma FourComponents(p: Path)
    requires |p| >= 4
    ensures !IsFile(p)
  {
  }

  lemma Inits()
    ensures !IsFile(["a", INIT]) && !IsFile(["a", "s", INIT]) && !IsFile(["a", "u", INIT]) && !IsFile(["a", "m", INIT])
    ensures !IsFile(["a", "s.py"]) && !IsFile(["a", "u.py"])
    ensures !IsFile(["a", "s", "u.py"]) && !IsFile(["a", "u", "s.py"])
  {
    assert |INIT| == 11;
    TwoComponents("a", INIT);
    ThreeComponents("a", "s", INIT);
    ThreeComponents("a", "u", INIT);
    ThreeComponents("a", "m", INIT);
    assert "s.py"[0] != "m.py"[0] && "u.py"[0] != "m.py"[0];
    TwoComponents("a", "s.py");
    TwoComponents("a", "u.py");
    assert "u.py"[0] != "d.py"[0] && "s.py"[0] != "e.py"[0];
    ThreeComponents("a", "s", "u.py");
    ThreeComponents("a", "u", "s.py");
  }

  lemma NoSuchName(t: Tree, x: Texts, name: Dotted)
    requires Holds(t, x) && name != []
    requires !IsFile(PackageFile([], name)) && !IsFile(ModuleFile([], name))
    ensures FilesOfName(t, ROOTS, name) == []
  {
    assert ROOTS[0] == [] && ResolveName(t, ROOTS[1..], name) == None;
  }

  lemma NameOf(t: Tree, x: Texts, name: Dotted, file: Path)
    requires Holds(t, x) && name != [] && IsFile(file)
    requires !IsFile(PackageFile([], name)) && ModuleFile([], name) == file
    requires forall d | 0 < d < |name| :: !IsFile(PackageFile([], name[..d]))
    ensures FilesOfName(t, ROOTS, name) == [file]
  {
    NoAncestors(t, x, name, 1);
    assert ROOTS[0] == [];
  }

  lemma {:induction false} NoAncestors(t: Tree, x: Texts, name: Dotted, depth: nat)
    requires Holds(t, x) && depth > 0
    requires forall d | depth <= d < |name| :: !IsFile(PackageFile([], name[..d]))
    ensures Ancestors(t, [], name, depth) == []
    decreases |name| - depth
  {
    if depth < |name| {
      NoAncestors(t, x, name, depth + 1);
    }
  }

  lemma TwoNames(t: Tree, a: Dotted, b: Dotted, files: seq<Path>)
    requires FilesOfName(t, ROOTS, a) == [] && FilesOfName(t, ROOTS, b) == files
    ensures FilesOfNames(t, ROOTS, [a, b]) == files
  {
    assert [a, b][1..] == [b] && [b][1..] == [];
    assert FilesOfNames(t, ROOTS, [b]) == files;
  }

  /** `from .x import y` in a file of package `package`. */
  lemma RelativeNames(t: Tree, file: Path, package: Dotted, x: string, y: string)
    requires t.root == [] && file != [] && file[..|file| - 1] == package
    ensures NamesOf(t, file, Relative(1, Some([x]), [y])) == [package + [x], package + [x, y]]
  {
    assert Parent(file)[0..] == package && package[..|package|] == package;
    assert package + [x] + [y] == package + [x, y];
    assert AliasNames(package + [x], [y]) == [package + [x]] + [package + [x] + [y]];
  }

  lemma OneImport(t: Tree, file: Path, imp: Import, files: seq<Path>)
    requires FilesOfNames(t, ROOTS, NamesOf(t, file, imp)) == files
    ensures FilesOfImports(t, ROOTS, file, [imp]) == files
  {
    assert [imp][1..] == [];
  }

  lemma ScriptImports(t: Tree, x: Texts, parse: Parser)
    requires Holds(t, x) && Reads(parse, x)
    ensures ImportedFiles(t, parse, ROOTS, SCRIPT) == [MEMBER]
  {
    Inits();
    assert PackageFile([], ["a", "m"]) == ["a", "m", INIT] && ModuleFile([], ["a", "m"]) == MEMBER by {
      assert "m" + ".py" == "m.py" && ["a", "m"][..1] == ["a"];
    }
    assert forall d | 0 < d < 2 :: ["a", "m"][..d] == ["a"] && PackageFile([], ["a"]) == ["a", INIT];
    NameOf(t, x, ["a", "m"], MEMBER);
    assert [["a", "m"]][1..] == [];
    assert FilesOfNames(t, ROOTS, [["a", "m"]]) == [MEMBER];
    OneImport(t, SCRIPT, Plain([["a", "m"]]), [MEMBER]);
  }

  /** `from .p import y` in package `a`, where `a/p/y.py` is there and `a/p.py` is not. */
  lemma FromPackage(t: Tree, x: Texts, parse: Parser, p: string, y: string, z: string, file: Path)
    requires Holds(t, x) && parse(t.files[MEMBER]) == Parsed(false, [Relative(1, Some([p]), [y])])
    requires y + ".py" == z && file == ["a", p, z] && IsFile(file)
    requires !IsFile(["a", INIT]) && !IsFile(["a", p, INIT]) && !IsFile(["a", p + ".py"])
    ensures ImportedFiles(t, parse, ROOTS, MEMBER) == [file]
  {
    var a, b := ["a", p], ["a", p, y];
    assert PackageFile([], a) == ["a", p, INIT] && ModuleFile([], a) == ["a", p + ".py"] by {
      assert a[..1] == ["a"];
    }
    NoSuchName(t, x, a);
    Submodule(t, x, p, y, z, file);
    TwoNames(t, a, b, [file]);
    assert ["a"] + [p] == a && ["a"] + [p, y] == b;
    RelativeNames(t, MEMBER, ["a"], p, y);
    OneImport(t, MEMBER, Relative(1, Some([p]), [y]), [file]);
  }

  lemma MemberImports(t: Tree, x: Texts, parse: Parser)
    requires Holds(t, x) && Reads(parse, x)
    ensures t.files[MEMBER] == x.fromS ==> ImportedFiles(t, parse, ROOTS, MEMBER) == [FIRST]
    ensures t.files[MEMBER] == x.fromU ==> ImportedFiles(t, parse, ROOTS, MEMBER) == [SECOND]
  {
    Inits();
    assert "s" + ".py" == "s.py" && "u" + ".py" == "u.py" && "d" + ".py" == "d.py" && "e" + ".py" == "e.py";
    if t.files[MEMBER] == x.fromS {
      FromPackage(t, x, parse, "s", "d", "d.py", FIRST);
    }
    if t.files[MEMBER] == x.fromU {
      FromPackage(t, x, parse, "u", "e", "e.py", SECOND);
    }
  }

  lemma Submodule(t: Tree, x: Texts, p: string, y: string, z: string, file: Path)
    requires Holds(t, x) && y + ".py" == z && file == ["a", p, z] && IsFile(file)
    requires !IsFile(["a", INIT]) && !IsFile(["a", p, INIT])
    ensures FilesOfName(t, ROOTS, ["a", p, y]) == [file]
  {
    var name := ["a", p, y];
    assert PackageFile([], name) == ["a", p, y, INIT] && ModuleFile([], name) == file by {
      assert name[..2] == ["a", p];
    }
    FourComponents(["a", p, y, INIT]);
    forall d | 0 < d < 3 ensures !IsFile(PackageFile([], name[..d])) {
      assert name[..1] == ["a"] && name[..2] == ["a", p];
      assert PackageFile([], ["a"]) == ["a", INIT] && PackageFile([], ["a", p]) == ["a", p, INIT];
    }
    NameOf(t, x, name, file);
  }

  /** The file below imports nothing that exists. */
  lemma DeadEnd(t: Tree, x: Texts, parse: Parser, file: Path, p: string, y: string, z: string)
    requires Holds(t, x) && Reads(parse, x) && file in t.files && |file| == 3 && file[0] == "a" && file[1] == p
    requires parse(t.files[file]) == Parsed(false, [Relative(1, Some([y]), [z])])
    requires !IsFile(["a", p, y + ".py"])
    ensures ImportedFiles(t, parse, ROOTS, file) == []
  {
    assert file[..2] == ["a", p];
    var a, b := ["a", p, y], ["a", p, y, z];
    FourComponents(PackageFile([], a));
    FourComponents(PackageFile([], b));
    FourComponents(ModuleFile([], b));
    assert ModuleFile([], a) == ["a", p, y + ".py"] by {
      assert a[..2] == ["a", p];
    }
    NoSuchName(t, x, a);
    NoSuchName(t, x, b);
    TwoNames(t, a, b, []);
    assert ["a", p] + [y] == a && ["a", p] + [y, z] == b;
    RelativeNames(t, file, ["a", p], y, z);
    OneImport(t, file, Relative(1, Some([y]), [z]), []);
  }

  lemma DeadEnds(t: Tree, x: Texts, parse: Parser)
    requires Holds(t, x) && Reads(parse, x)
    ensures ImportedFiles(t, parse, ROOTS, FIRST) == [] && ImportedFiles(t, parse, ROOTS, SECOND) == []
  {
    Inits();
    assert "u" + ".py" == "u.py" && "s" + ".py" == "s.py";
    DeadEnd(t, x, parse, FIRST, "s", "u", "e");
    DeadEnd(t, x, parse, SECOND, "u", "s", "d");
  }

  /** `a` imports `b`, which imports `c`, which imports nothing. */
  lemma ThreeAreReached(t: Tree, parse: Parser, roots: seq<Path>, a: Path, b: Path, c: Path)
    requires t.Under(b) && t.Under(c)
    requires ImportedFiles(t, parse, roots, a) == [b] && ImportedFiles(t, parse, roots, b) == [c]
    requires ImportedFiles(t, parse, roots, c) == []
    ensures forall f :: f in {a, b, c} <==> Reaches(t, parse, roots, a, f)
  {
    ThreeAreClosed(t, parse, roots, a, b, c);
    LeastOfThree(t, parse, roots, a, b, c);
  }

  lemma ImportsOnly(t: Tree, parse: Parser, roots: seq<Path>, file: Path, deps: seq<Path>)
    requires ImportedFiles(t, parse, roots, file) == deps && forall g | g in deps :: t.Under(g)
    ensures forall g :: Imports(t, parse, roots, file, g) <==> g in deps
  {
  }

  lemma ThreeAreClosed(t: Tree, parse: Parser, roots: seq<Path>, a: Path, b: Path, c: Path)
    requires t.Under(b) && t.Under(c)
    requires ImportedFiles(t, parse, roots, a) == [b] && ImportedFiles(t, parse, roots, b) == [c]
    requires ImportedFiles(t, parse, roots, c) == []
    ensures Imports(t, parse, roots, a, b) && Imports(t, parse, roots, b, c) && Closed(t, parse, roots, {a, b, c})
  {
    ImportsOnly(t, parse, roots, a, [b]);
    ImportsOnly(t, parse, roots, b, [c]);
    ImportsOnly(t, parse, roots, c, []);
    assert b in [b] && c in [c];
  }

  lemma LeastOfThree(t: Tree, parse: Parser, roots: seq<Path>, a: Path, b: Path, c: Path)
    requires Imports(t, parse, roots, a, b) && Imports(t, parse, roots, b, c) && Closed(t, parse, roots, {a, b, c})
    ensures forall f :: f in {a, b, c} <==> Reaches(t, parse, roots, a, f)
  {
    ChainIsReached(t, parse, roots, a, b, c);
    ReachableIsLeast(t, parse, roots, a, {a, b, c});
  }

  lemma ChainIsReached(t: Tree, parse: Parser, roots: seq<Path>, a: Path, b: Path, c: Path)
    requires Imports(t, parse, roots, a, b) && Imports(t, parse, roots, b, c)
    ensures Reaches(t, parse, roots, a, a) && Reaches(t, parse, roots, a, b) && Reaches(t, parse, roots, a, c)
  {
    ReachesItself(t, parse, roots, a);
    ReachesNext(t, parse, roots, a, a, b);
    ReachesNext(t, parse, roots, a, b, c);
  }

  /** The closure of such a chain. */
  lemma ChainIsClosure(t: Tree, parse: Parser, roots: seq<Path>, a: Path, b: Path, c: Path)
    requires roots == SearchRoots(t, a) && a != b && a != c && b != c && SortedBy(PathLeq, [b, c])
    requires forall f :: f in {a, b, c} <==> Reaches(t, parse, roots, a, f)
    ensures IsClosure(t, parse, a, [b, c])
  {
    forall f ensures f in [b, c] <==> f != a && Reaches(t, parse, roots, a, f) {
      assert f in {a, b, c} <==> f == a || f == b || f == c;
    }
  }

  lemma ChainOfThree(t: Tree, x: Texts, parse: Parser, last: Path)
    requires Holds(t, x) && Reads(parse, x) && (last == FIRST || last == SECOND)
    requires ImportedFiles(t, parse, ROOTS, MEMBER) == [last]
    ensures IsClosure(t, parse, SCRIPT, [MEMBER, last])
  {
    PathsDiffer();
    ScriptImports(t, x, parse);
    DeadEnds(t, x, parse);
    ThreeAreReached(t, parse, ROOTS, SCRIPT, MEMBER, last);
    RootsAre(t);
    Sorted(last);
    ChainIsClosure(t, parse, ROOTS, SCRIPT, MEMBER, last);
  }

  lemma RootsAre(t: Tree)
    requires t.root == []
    ensures SearchRoots(t, SCRIPT) == ROOTS
  {
    assert Parent(SCRIPT) == [];
  }

  lemma Sorted(last: Path)
    requires last == FIRST || last == SECOND
    ensures SortedBy(PathLeq, [MEMBER, last])
  {
    assert MEMBER[0] == last[0] && MEMBER[1..][0] == "m.py" && (last[1..][0] == "s" || last[1..][0] == "u");
    assert "m.py"[0] < "s"[0] && "m.py"[0] < "u"[0];
    assert PathLeq(MEMBER[1..], last[1..]);
  }

  lemma TextsDiffer(parse: Parser, x: Texts)
    requires Reads(parse, x)
    ensures x.fromS != x.fromU
  {
    assert "s"[0] != "u"[0];
  }

  lemma BothHold(x: Texts)
    ensures Before(x).Valid() && Holds(Before(x), x) && Holds(Edited(Before(x), MEMBER, x.fromU), x)
    ensures Before(x).files[MEMBER] == x.fromS && Before(x).files[SCRIPT] == x.script
    ensures var t' := Edited(Before(x), MEMBER, x.fromU);
            t'.files[MEMBER] == x.fromU && t'.files[SCRIPT] == x.script
  {
    PathsDiffer();
  }

  /** Writing `a/s/d.py`'s text into `a/m.py` is an edit of a reached member that changes its bytes and swaps one
      member for another, and leaves every content hash as it was. */
  lemma ReachedEditCanBeUnseen(parse: Parser, x: Texts, n: Node, sha: Sha)
    requires Reads(parse, x)
    ensures x.fromS != x.fromU && Before(x).Valid()
    ensures var t, t' := Before(x), Edited(Before(x), MEMBER, x.fromU);
            && IsClosure(t, parse, SCRIPT, [MEMBER, FIRST]) && IsClosure(t', parse, SCRIPT, [MEMBER, SECOND])
            && ContentHash(sha, ScriptBasis(t, SCRIPT, [MEMBER, FIRST], n))
               == ContentHash(sha, ScriptBasis(t', SCRIPT, [MEMBER, SECOND], n))
  {
    TextsDiffer(parse, x);
    BothHold(x);
    var t, t' := Before(x), Edited(Before(x), MEMBER, x.fromU);
    MemberImports(t, x, parse);
    ChainOfThree(t, x, parse, FIRST);
    MemberImports(t', x, parse);
    ChainOfThree(t', x, parse, SECOND);
    SwappedBytes(t, t', x);
    SameContentSameHash(sha, ScriptBasis(t, SCRIPT, [MEMBER, FIRST], n), ScriptBasis(t', SCRIPT, [MEMBER, SECOND], n));
  }

  lemma SwappedBytes(t: Tree, t': Tree, x: Texts)
    requires Holds(t, x) && Holds(t', x) && t.files[MEMBER] == x.fromS && t'.files[MEMBER] == x.fromU
    ensures multiset(BytesOf(t, [MEMBER, FIRST])) == multiset(BytesOf(t', [MEMBER, SECOND]))
  {
    assert BytesOf(t, [MEMBER, FIRST]) == [x.fromS, x.fromU] && BytesOf(t', [MEMBER, SECOND]) == [x.fromU, x.fromS];
  }
}
