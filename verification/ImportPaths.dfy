/** `sys.path` at run time against the search roots of the static closure. */
module ImportPaths {
  import opened Rows
  import opened Order
  import opened Closure

  /** `list.remove`: the first occurrence goes. */
  function RemoveFirst(s: seq<Path>, x: Path): seq<Path> {
    if s == [] then [] else if s[0] == x then s[1..] else [s[0]] + RemoveFirst(s[1..], x)
  }

  function MoveToFront(s: seq<Path>, x: Path): seq<Path> {
    [x] + RemoveFirst(s, x)
  }

  class Interpreter {
    var path: seq<Path>

    method EnsureImportPaths(root: Path, scriptDir: Path)
      modifies this
      ensures path == MoveToFront(MoveToFront(old(path), scriptDir), root)
    {
      var entries := [scriptDir, root];
      var i := 0;
      while i < |entries|
        invariant 0 <= i <= 2
        invariant path == if i == 0 then old(path)
                          else if i == 1 then MoveToFront(old(path), scriptDir)
                          else MoveToFront(MoveToFront(old(path), scriptDir), root)
      {
        if entries[i] in path {
          path := RemoveFirst(path, entries[i]);
        } else {
          AbsentStays(path, entries[i]);
        }
        path := [entries[i]] + path;
        i := i + 1;
      }
    }
  }

  lemma {:induction false} AbsentStays(s: seq<Path>, x: Path)
    requires x !in s
    ensures RemoveFirst(s, x) == s
  {
    if s != [] {
      AbsentStays(s[1..], x);
    }
  }

  function Roots(root: Path, scriptDir: Path): seq<Path> {
    if scriptDir == root then [root] else [root, scriptDir]
  }

  /** The entries other than `x`, in order. */
  function Without(s: seq<Path>, x: Path): seq<Path> {
    if s == [] then [] else if s[0] == x then Without(s[1..], x) else [s[0]] + Without(s[1..], x)
  }

  /** Left to right, `x` goes and everything else stays. */
  lemma {:induction false} WithoutIs(a: seq<Path>, y: Path, b: seq<Path>, x: Path)
    ensures Without(a + [y] + b, x) == Without(a, x) + (if y == x then [] else [y]) + Without(b, x)
    ensures Without([], x) == []
  {
    if a == [] {
      assert a + [y] + b == [y] + b && ([y] + b)[1..] == b;
    } else {
      assert (a + [y] + b)[1..] == a[1..] + [y] + b;
      WithoutIs(a[1..], y, b, x);
    }
  }

  lemma Cons(y: Path, w: seq<Path>, x: Path)
    ensures RemoveFirst([y] + w, x) == if y == x then w else [y] + RemoveFirst(w, x)
    ensures Without([y] + w, x) == if y == x then Without(w, x) else [y] + Without(w, x)
  {
    assert ([y] + w)[1..] == w;
  }

  lemma {:induction false} RemoveKeepsOthers(s: seq<Path>, x: Path, y: Path)
    ensures y != x ==> Without(RemoveFirst(s, x), y) == RemoveFirst(Without(s, y), x)
    ensures Without(RemoveFirst(s, x), x) == Without(s, x)
  {
    if s != [] {
      RemoveKeepsOthers(s[1..], x, y);
      Cons(s[0], RemoveFirst(s[1..], x), y);
      Cons(s[0], RemoveFirst(s[1..], x), x);
      Cons(s[0], Without(s[1..], y), x);
    }
  }

  /** What the two moves leave. */
  lemma Moved(path: seq<Path>, root: Path, scriptDir: Path) returns (rest: seq<Path>)
    ensures MoveToFront(MoveToFront(path, scriptDir), root)
            == if root == scriptDir then [root] + rest else [root] + ([scriptDir] + rest)
    ensures rest == if root == scriptDir then RemoveFirst(path, root)
        else RemoveFirst(RemoveFirst(path, scriptDir), root)
  {
    rest := RemoveFirst(path, scriptDir);
    Cons(scriptDir, rest, root);
    if root != scriptDir {
      rest := RemoveFirst(rest, root);
    }
  }

  lemma MovedAgain(root: Path, scriptDir: Path, rest: seq<Path>)
    ensures root == scriptDir ==> MoveToFront(MoveToFront([root] + rest, scriptDir), root) == [root] + rest
    ensures root != scriptDir ==>
              MoveToFront(MoveToFront([root] + ([scriptDir] + rest), scriptDir), root) == [root] + ([scriptDir] + rest)
  {
    Cons(root, rest, root);
    Cons(root, [scriptDir] + rest, scriptDir);
    Cons(scriptDir, rest, scriptDir);
    Cons(scriptDir, [root] + rest, root);
  }

  lemma OthersKept(path: seq<Path>, root: Path, scriptDir: Path)
    requires root != scriptDir
    ensures var rest := RemoveFirst(RemoveFirst(path, scriptDir), root);
            Without(Without([root] + ([scriptDir] + rest), root), scriptDir) == Without(Without(path, root), scriptDir)
  {
    var one := RemoveFirst(path, scriptDir);
    var rest := RemoveFirst(one, root);
    Cons(root, [scriptDir] + rest, root);
    Cons(scriptDir, rest, root);
    RemoveKeepsOthers(one, root, root);
    RemoveKeepsOthers(path, scriptDir, root);
    Cons(scriptDir, Without(rest, root), scriptDir);
    RemoveKeepsOthers(Without(path, root), scriptDir, scriptDir);
  }

  /** After the call the search roots lead, in order, and every other entry keeps its relative order;
      repeating the call changes nothing. */
  lemma RootsLead(path: seq<Path>, root: Path, scriptDir: Path)
    ensures var after := MoveToFront(MoveToFront(path, scriptDir), root);
            && Roots(root, scriptDir) <= after
            && Without(Without(after, root), scriptDir) == Without(Without(path, root), scriptDir)
            && MoveToFront(MoveToFront(after, scriptDir), root) == after
  {
    var rest := Moved(path, root, scriptDir);
    MovedAgain(root, scriptDir, rest);
    if root == scriptDir {
      Cons(root, rest, root);
      RemoveKeepsOthers(path, root, root);
    } else {
      OthersKept(path, root, scriptDir);
    }
  }

  lemma {:induction false} FirstMatchInPrefix(t: Tree, roots: seq<Path>, more: seq<Path>, name: Dotted)
    requires ResolveName(t, roots, name).Some?
    ensures ResolveName(t, roots + more, name) == ResolveName(t, roots, name)
  {
    assert (roots + more)[1..] == roots[1..] + more;
    if ResolveName(t, roots[1..], name).Some? {
      FirstMatchInPrefix(t, roots[1..], more, name);
    }
  }

  /** What the closure resolves a name to is what a package-then-module lookup over `sys.path` finds. */
  lemma RuntimeFindsTheHashedFile(t: Tree, path: seq<Path>, script: Path, name: Dotted)
    requires ResolveName(t, SearchRoots(t, script), name).Some?
    ensures ResolveName(t, MoveToFront(MoveToFront(path, Parent(script)), t.root), name)
            == ResolveName(t, SearchRoots(t, script), name)
  {
    var after := MoveToFront(MoveToFront(path, Parent(script)), t.root);
    var roots := SearchRoots(t, script);
    RootsLead(path, t.root, Parent(script));
    assert after == roots + after[|roots|..];
    FirstMatchInPrefix(t, roots, after[|roots|..], name);
  }
}
