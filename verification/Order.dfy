/** Total orders and sorting, as Python's `sorted` orders strings and paths. */
module Order {
  ghost predicate TotalOrder<T(!new)>(leq: (T, T) -> bool) {
    && (forall x, y :: leq(x, y) || leq(y, x))
    && (forall x, y :: leq(x, y) && leq(y, x) ==> x == y)
    && (forall x, y, z :: leq(x, y) && leq(y, z) ==> leq(x, z))
  }

  ghost predicate SortedBy<T>(leq: (T, T) -> bool, s: seq<T>) {
    forall i, j | 0 <= i < j < |s| :: leq(s[i], s[j])
  }

  function Insert<T>(leq: (T, T) -> bool, x: T, s: seq<T>): seq<T> {
    if s == [] then [x]
    else if leq(x, s[0]) then [x] + s
    else [s[0]] + Insert(leq, x, s[1..])
  }

  function Sort<T>(leq: (T, T) -> bool, s: seq<T>): seq<T> {
    if s == [] then [] else Insert(leq, s[0], Sort(leq, s[1..]))
  }

  lemma InsertLater<T(!new)>(leq: (T, T) -> bool, x: T, first: T, s: seq<T>, rest: seq<T>)
    requires leq(first, x) && (forall i | 0 <= i < |s| :: leq(first, s[i]))
    requires SortedBy(leq, rest) && multiset(rest) == multiset(s) + multiset{x}
    ensures SortedBy(leq, [first] + rest)
  {
    forall i | 0 <= i < |rest| ensures leq(first, rest[i]) {
      assert rest[i] in multiset(rest);
    }
  }

  lemma {:induction false} InsertSorts<T(!new)>(leq: (T, T) -> bool, x: T, s: seq<T>)
    requires TotalOrder(leq) && SortedBy(leq, s)
    ensures SortedBy(leq, Insert(leq, x, s)) && multiset(Insert(leq, x, s)) == multiset(s) + multiset{x}
  {
    if s != [] && !leq(x, s[0]) {
      InsertSorts(leq, x, s[1..]);
      InsertLater(leq, x, s[0], s[1..], Insert(leq, x, s[1..]));
      assert s == [s[0]] + s[1..];
    } else if s != [] {
      forall i | 0 <= i < |s| ensures leq(x, s[i]) {
        assert i > 0 ==> leq(s[0], s[i]);
      }
    }
  }

  lemma {:induction false} SortSorts<T(!new)>(leq: (T, T) -> bool, s: seq<T>)
    requires TotalOrder(leq)
    ensures SortedBy(leq, Sort(leq, s)) && multiset(Sort(leq, s)) == multiset(s)
  {
    if s != [] {
      SortSorts(leq, s[1..]);
      InsertSorts(leq, s[0], Sort(leq, s[1..]));
      assert s == [s[0]] + s[1..];
    }
  }

  lemma SameElements<T>(a: seq<T>, b: seq<T>)
    requires a != [] && multiset(a) == multiset(b)
    ensures |a| == |b| && a[0] in b && b[0] in a
  {
    assert |multiset(a)| == |a| && |multiset(b)| == |b|;
    assert a[0] in multiset(a);
    assert b[0] in multiset(b);
  }

  lemma SameTails<T>(a: seq<T>, b: seq<T>)
    requires a != [] && b != [] && a[0] == b[0] && multiset(a) == multiset(b)
    ensures multiset(a[1..]) == multiset(b[1..])
  {
    assert a == [a[0]] + a[1..] && b == [b[0]] + b[1..];
    assert multiset(a[1..]) == multiset(a) - multiset{a[0]};
    assert multiset(b[1..]) == multiset(b) - multiset{b[0]};
  }

  lemma SameHeads<T(!new)>(leq: (T, T) -> bool, a: seq<T>, b: seq<T>)
    requires forall x, y :: leq(x, y) && leq(y, x) ==> x == y
    requires SortedBy(leq, a) && SortedBy(leq, b)
    requires a != [] && b != [] && a[0] in b && b[0] in a
    ensures a[0] == b[0]
  {
    var i :| 0 <= i < |a| && a[i] == b[0];
    var j :| 0 <= j < |b| && b[j] == a[0];
    if i != 0 && j != 0 {
      assert leq(a[0], a[i]) && leq(b[0], b[j]);
    }
  }

  /** A sorted sequence is determined by what it contains. */
  lemma {:induction false} SortedIsUnique<T(!new)>(leq: (T, T) -> bool, a: seq<T>, b: seq<T>)
    requires forall x, y :: leq(x, y) && leq(y, x) ==> x == y
    requires SortedBy(leq, a) && SortedBy(leq, b) && multiset(a) == multiset(b)
    ensures a == b
  {
    if a == [] {
      assert |multiset(b)| == 0;
    } else {
      SameElements(a, b);
      SameHeads(leq, a, b);
      SameTails(a, b);
      SortedIsUnique(leq, a[1..], b[1..]);
      assert a == [a[0]] + a[1..] && b == [b[0]] + b[1..];
    }
  }

  /** Equal contents sort alike, and only equal contents do. */
  lemma SortIsCanonical<T(!new)>(leq: (T, T) -> bool, a: seq<T>, b: seq<T>)
    requires TotalOrder(leq)
    ensures Sort(leq, a) == Sort(leq, b) <==> multiset(a) == multiset(b)
  {
    SortSorts(leq, a);
    SortSorts(leq, b);
    if multiset(a) == multiset(b) {
      SortedIsUnique(leq, Sort(leq, a), Sort(leq, b));
    }
  }

  // --- removing one element

  function RemoveAt<T>(s: seq<T>, i: nat): seq<T>
    requires i < |s|
  {
    s[..i] + s[i + 1..]
  }

  lemma RemoveFromMultiset<T>(s: seq<T>, i: nat)
    requires i < |s|
    ensures multiset(s) == multiset{s[i]} + multiset(RemoveAt(s, i))
  {
    assert s == s[..i] + [s[i]] + s[i + 1..];
  }

  lemma SwapKeepsElements<T>(s: seq<T>, i: nat, j: nat)
    requires i < |s| && j < |s|
    ensures multiset(s[i := s[j]][j := s[i]]) == multiset(s)
  {
  }

  /** Putting back in front what was taken out from the middle. */
  lemma ConsRemoved<T>(s: seq<T>, i: nat, rest: seq<T>)
    requires i < |s| && multiset(rest) == multiset(RemoveAt(s, i))
    ensures multiset([s[i]] + rest) == multiset(s)
  {
    RemoveFromMultiset(s, i);
  }

  lemma FirstIsIn<T>(s: seq<T>, p: seq<T>)
    requires p != [] && multiset(p) == multiset(s)
    ensures p[0] in s
  {
    assert p[0] in multiset(p);
  }

  lemma SameRest<T>(s: seq<T>, p: seq<T>, i: nat)
    requires p != [] && multiset(p) == multiset(s) && i < |s| && s[i] == p[0]
    ensures multiset(p[1..]) == multiset(RemoveAt(s, i))
  {
    RemoveFromMultiset(p, 0);
    RemoveFromMultiset(s, i);
    assert RemoveAt(p, 0) == p[1..];
    var a, b, one := multiset(p[1..]), multiset(RemoveAt(s, i)), multiset{p[0]};
    assert one + a == one + b;
    assert a == (one + a) - one && b == (one + b) - one;
  }

  // --- sorted sets --------------------------------------------------------

  ghost predicate Least<T>(leq: (T, T) -> bool, s: set<T>, x: T) {
    x in s && forall y | y in s :: leq(x, y)
  }

  lemma SmallerIsLeast<T(!new)>(leq: (T, T) -> bool, s: set<T>, m: T, x: T)
    requires TotalOrder(leq) && Least(leq, s - {x}, m) && x in s
    ensures Least(leq, s, if leq(x, m) then x else m)
  {
    assert leq(x, x);
    forall y | y in s ensures leq(if leq(x, m) then x else m, y) {
      if y != x {
        assert y in s - {x};
        assert leq(m, y);
      }
    }
  }

  lemma {:induction false} LeastExists<T(!new)>(leq: (T, T) -> bool, s: set<T>)
    requires TotalOrder(leq) && s != {}
    ensures exists x :: Least(leq, s, x)
  {
    var x :| x in s;
    if s - {x} == {} {
      assert leq(x, x);
      assert s == {x};
      assert Least(leq, s, x);
    } else {
      LeastExists(leq, s - {x});
      var m :| Least(leq, s - {x}, m);
      SmallerIsLeast(leq, s, m, x);
    }
  }

  /** The elements of a set in order, each once. */
  ghost function SortSet<T(!new)>(leq: (T, T) -> bool, s: set<T>): (r: seq<T>)
    requires TotalOrder(leq)
    ensures forall x :: x in r <==> x in s
    ensures forall i, j | 0 <= i < j < |r| :: r[i] != r[j]
    ensures SortedBy(leq, r)
  {
    if s == {} then []
    else
      LeastExists(leq, s);
      var x :| Least(leq, s, x);
      [x] + SortSet(leq, s - {x})
  }

  // --- strings and paths --------------------------------------------------

  /** Code point by code point, a prefix before its extensions. */
  predicate StringLeq(a: string, b: string) {
    a == "" || (b != "" && (a[0] < b[0] || (a[0] == b[0] && StringLeq(a[1..], b[1..]))))
  }

  /** The texts agree on a while; then the first ends, or its next character is the smaller. */
  lemma {:induction false} StringLeqIs(a: string, b: string)
    ensures StringLeq(a, b)
            <==> exists n | 0 <= n <= |a| && n <= |b| ::
                   a[..n] == b[..n] && (n == |a| || (n < |b| && a[n] < b[n]))
  {
    if a != "" && b != "" && a[0] == b[0] {
      StringLeqIs(a[1..], b[1..]);
      if n :| 0 <= n <= |a| - 1 && n <= |b| - 1 && a[1..][..n] == b[1..][..n]
              && (n == |a| - 1 || (n < |b| - 1 && a[1..][n] < b[1..][n])) {
        assert a[..n + 1] == [a[0]] + a[1..][..n] && b[..n + 1] == [b[0]] + b[1..][..n];
      }
      if n :| 0 <= n <= |a| && n <= |b| && a[..n] == b[..n] && (n == |a| || (n < |b| && a[n] < b[n])) {
        assert n > 0;
        assert a[1..][..n - 1] == a[..n][1..] && b[1..][..n - 1] == b[..n][1..];
      }
    } else {
      assert a[..0] == b[..0];
    }
  }

  lemma {:induction false} StringTotal(a: string, b: string)
    ensures StringLeq(a, b) || StringLeq(b, a)
    ensures StringLeq(a, b) && StringLeq(b, a) ==> a == b
  {
    if a != "" && b != "" {
      StringTotal(a[1..], b[1..]);
      assert a == [a[0]] + a[1..] && b == [b[0]] + b[1..];
    }
  }

  lemma {:induction false} StringTransitive(a: string, b: string, c: string)
    requires StringLeq(a, b) && StringLeq(b, c)
    ensures StringLeq(a, c)
  {
    if a != "" && b != "" && c != "" && a[0] == b[0] == c[0] {
      StringTransitive(a[1..], b[1..], c[1..]);
    }
  }

  lemma StringOrder()
    ensures TotalOrder(StringLeq)
  {
    forall a, b ensures (StringLeq(a, b) || StringLeq(b, a)) && (StringLeq(a, b) && StringLeq(b, a) ==> a == b) {
      StringTotal(a, b);
    }
    forall a, b, c | StringLeq(a, b) && StringLeq(b, c) ensures StringLeq(a, c) {
      StringTransitive(a, b, c);
    }
  }

  type Path = seq<string>

  /** Component by component. */
  predicate PathLeq(a: Path, b: Path) {
    a == [] || (b != [] && (if a[0] == b[0] then PathLeq(a[1..], b[1..]) else StringLeq(a[0], b[0])))
  }

  /** The paths agree on a while; then the first ends, or its next component is the smaller. */
  lemma {:induction false} PathLeqIs(a: Path, b: Path)
    ensures PathLeq(a, b)
            <==> exists n | 0 <= n <= |a| && n <= |b| ::
                   a[..n] == b[..n] && (n == |a| || (n < |b| && a[n] != b[n] && StringLeq(a[n], b[n])))
  {
    if a != [] && b != [] && a[0] == b[0] {
      PathLeqIs(a[1..], b[1..]);
      if n :| 0 <= n <= |a| - 1 && n <= |b| - 1 && a[1..][..n] == b[1..][..n]
              && (n == |a| - 1 || (n < |b| - 1 && a[1..][n] != b[1..][n] && StringLeq(a[1..][n], b[1..][n]))) {
        assert a[..n + 1] == [a[0]] + a[1..][..n] && b[..n + 1] == [b[0]] + b[1..][..n];
      }
      if n :| 0 <= n <= |a| && n <= |b| && a[..n] == b[..n]
              && (n == |a| || (n < |b| && a[n] != b[n] && StringLeq(a[n], b[n]))) {
        assert n > 0;
        assert a[1..][..n - 1] == a[..n][1..] && b[1..][..n - 1] == b[..n][1..];
      }
    } else {
      assert a[..0] == b[..0];
    }
  }

  lemma {:induction false} PathTotal(a: Path, b: Path)
    ensures PathLeq(a, b) || PathLeq(b, a)
    ensures PathLeq(a, b) && PathLeq(b, a) ==> a == b
  {
    if a != [] && b != [] {
      StringTotal(a[0], b[0]);
      PathTotal(a[1..], b[1..]);
      assert a == [a[0]] + a[1..] && b == [b[0]] + b[1..];
    }
  }

  lemma {:induction false} PathTransitive(a: Path, b: Path, c: Path)
    requires PathLeq(a, b) && PathLeq(b, c)
    ensures PathLeq(a, c)
  {
    if a != [] && b != [] && c != [] {
      if a[0] == b[0] == c[0] {
        PathTransitive(a[1..], b[1..], c[1..]);
      } else if a[0] != b[0] && b[0] != c[0] {
        StringTransitive(a[0], b[0], c[0]);
        StringTotal(a[0], b[0]);
      }
    }
  }

  lemma PathOrder()
    ensures TotalOrder(PathLeq)
  {
    forall a, b ensures (PathLeq(a, b) || PathLeq(b, a)) && (PathLeq(a, b) && PathLeq(b, a) ==> a == b) {
      PathTotal(a, b);
    }
    forall a, b, c | PathLeq(a, b) && PathLeq(b, c) ensures PathLeq(a, c) {
      PathTransitive(a, b, c);
    }
  }
}
