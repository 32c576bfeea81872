/** Comparing a live table's columns with the declared ones before an append or upsert. */
module Shape {
  import opened Rows
  import opened Contract
  import opened Order

  type Folding = string -> string

  datatype NullabilityDiff = NullabilityDiff(name: string, declared: bool, live: bool)

  datatype Diff = Diff(missing: seq<string>, unexpected: seq<string>, nullability: seq<NullabilityDiff>)
  {
    predicate Empty() {
      missing == [] && unexpected == [] && nullability == []
    }
  }

  function FirstNamed(live: seq<LiveColumn>, name: string): (r: Option<nat>)
    ensures r.Some? ==> r.value < |live| && live[r.value].name == name
    ensures r.None? ==> forall l | l in live :: l.name != name
  {
    if live == [] then None
    else if live[0].name == name then Some(0)
    else match FirstNamed(live[1..], name)
      case None => None
      case Some(i) => Some(i + 1)
  }

  function FirstFolded(live: seq<LiveColumn>, name: string, fold: Folding): (r: Option<nat>)
    ensures r.Some? ==> r.value < |live| && fold(live[r.value].name) == fold(name)
    ensures r.None? ==> forall l | l in live :: fold(l.name) != fold(name)
  {
    if live == [] then None
    else if fold(live[0].name) == fold(name) then Some(0)
    else match FirstFolded(live[1..], name, fold)
      case None => None
      case Some(i) => Some(i + 1)
  }

  /** The live column a declared name is paired with: an exact match if there is one, else a folded one. */
  function Pick(live: seq<LiveColumn>, name: string, fold: Folding): (r: Option<nat>)
    ensures r.Some? ==> r.value < |live| && fold(live[r.value].name) == fold(name)
    ensures r.None? ==> forall l | l in live :: fold(l.name) != fold(name)
    ensures (exists l | l in live :: l.name == name) ==> r.Some? && live[r.value].name == name
  {
    match FirstNamed(live, name)
    case Some(i) => Some(i)
    case None => FirstFolded(live, name, fold)
  }

  function LiveNames(live: seq<LiveColumn>): seq<string> {
    seq(|live|, i requires 0 <= i < |live| => live[i].name)
  }

  /** The differences, declared column by declared column. */
  function Compare(declared: seq<Column>, live: seq<LiveColumn>, fold: Folding): Diff {
    if declared == [] then Diff([], LiveNames(live), [])
    else
      var d := declared[0];
      match Pick(live, d.name, fold)
      case None =>
        var rest := Compare(declared[1..], live, fold);
        rest.(missing := [d.name] + rest.missing)
      case Some(i) =>
        var rest := Compare(declared[1..], RemoveAt(live, i), fold);
        if live[i].nullable == d.nullable then rest
        else rest.(nullability := [NullabilityDiff(d.name, d.nullable, live[i].nullable)] + rest.nullability)
  }

  /** `rest`, after differences already found. */
  function Onto(missing: seq<string>, nullability: seq<NullabilityDiff>, rest: Diff): Diff {
    Diff(missing + rest.missing, rest.unexpected, nullability + rest.nullability)
  }

  lemma CompareStep(missing: seq<string>, nullability: seq<NullabilityDiff>, declared: seq<Column>,
                    live: seq<LiveColumn>, fold: Folding)
    requires declared != []
    ensures var d, all := declared[0], Onto(missing, nullability, Compare(declared, live, fold));
            match Pick(live, d.name, fold)
            case None => all == Onto(missing + [d.name], nullability, Compare(declared[1..], live, fold))
            case Some(i) =>
              var found := if live[i].nullable == d.nullable then []
                  else [NullabilityDiff(d.name, d.nullable, live[i].nullable)];
              all == Onto(missing, nullability + found, Compare(declared[1..], RemoveAt(live, i), fold))
  {
  }

  /** The loop that accumulates the differences. */
  method ShapeDiff(declared: seq<Column>, live: seq<LiveColumn>, fold: Folding) returns (diff: Diff)
    ensures diff == Compare(declared, live, fold)
  {
    var remaining := live;
    var missing: seq<string> := [];
    var nullability: seq<NullabilityDiff> := [];
    var n := 0;
    while n < |declared|
      invariant 0 <= n <= |declared|
      invariant Compare(declared, live, fold) == Onto(missing, nullability, Compare(declared[n..], remaining, fold))
    {
      var d := declared[n];
      assert declared[n..][1..] == declared[n + 1..];
      CompareStep(missing, nullability, declared[n..], remaining, fold);
      match Pick(remaining, d.name, fold) {
        case None =>
          missing := missing + [d.name];
        case Some(i) =>
          if remaining[i].nullable != d.nullable {
            nullability := nullability + [NullabilityDiff(d.name, d.nullable, remaining[i].nullable)];
          } else {
            assert nullability + [] == nullability;
          }
          remaining := RemoveAt(remaining, i);
      }
      n := n + 1;
    }
    return Diff(missing, LiveNames(remaining), nullability);
  }

  // --- conservation -------------------------------------------------------

  /** How many of `names` fold to `class`. */
  ghost function CountIn(names: seq<string>, class_: string, fold: Folding): nat {
    if names == [] then 0 else (if fold(names[0]) == class_ then 1 else 0) + CountIn(names[1..], class_, fold)
  }

  lemma {:induction false} CountConcat(a: seq<string>, b: seq<string>, class_: string, fold: Folding)
    ensures CountIn(a + b, class_, fold) == CountIn(a, class_, fold) + CountIn(b, class_, fold)
  {
    if a == [] {
      assert a + b == b;
    } else {
      assert (a + b)[1..] == a[1..] + b;
      CountConcat(a[1..], b, class_, fold);
    }
  }

  lemma CountRemove(live: seq<LiveColumn>, i: nat, class_: string, fold: Folding)
    requires i < |live|
    ensures CountIn(LiveNames(live), class_, fold)
            == CountIn(LiveNames(RemoveAt(live, i)), class_, fold) + if fold(live[i].name) == class_ then 1 else 0
  {
    var a, b := LiveNames(live[..i]), LiveNames(live[i + 1..]);
    assert LiveNames(live) == a + ([live[i].name] + b);
    assert LiveNames(RemoveAt(live, i)) == a + b;
    CountConcat(a, [live[i].name] + b, class_, fold);
    CountConcat([live[i].name], b, class_, fold);
    CountConcat(a, b, class_, fold);
    assert [live[i].name][1..] == [];
  }

  lemma {:induction false} NoneCounted(live: seq<LiveColumn>, class_: string, fold: Folding)
    requires forall l | l in live :: fold(l.name) != class_
    ensures CountIn(LiveNames(live), class_, fold) == 0
  {
    if live != [] {
      assert LiveNames(live)[1..] == LiveNames(live[1..]);
      NoneCounted(live[1..], class_, fold);
    }
  }

  /** Per class of names equal up to case: what is missing is exactly what the table falls short by, what
      is unexpected exactly what it has too many of, whatever the order of either side. */
  lemma {:induction false} ColumnsAreConserved(declared: seq<Column>, live: seq<LiveColumn>, fold: Folding,
                                               class_: string)
    ensures var diff := Compare(declared, live, fold);
            var want, have := CountIn(DeclaredNames(declared), class_, fold), CountIn(LiveNames(live), class_, fold);
            && CountIn(diff.missing, class_, fold) == (if want > have then want - have else 0)
            && CountIn(diff.unexpected, class_, fold) == (if have > want then have - want else 0)
  {
    if declared != [] {
      var d := declared[0];
      assert DeclaredNames(declared)[1..] == DeclaredNames(declared[1..]);
      match Pick(live, d.name, fold)
      case None =>
        ColumnsAreConserved(declared[1..], live, fold, class_);
        NoneCounted(live, fold(d.name), fold);
        var rest := Compare(declared[1..], live, fold);
        assert ([d.name] + rest.missing)[1..] == rest.missing;
      case Some(i) =>
        ColumnsAreConserved(declared[1..], RemoveAt(live, i), fold, class_);
        CountRemove(live, i, class_, fold);
    }
  }

  /** A declared column and a live one, equal up to case, that differ in nullability as `x` says. */
  ghost predicate Differs(declared: seq<Column>, live: seq<LiveColumn>, x: NullabilityDiff, fold: Folding) {
    && x.declared != x.live
    && (exists d | d in declared :: d.name == x.name && d.nullable == x.declared)
    && (exists l | l in live :: fold(l.name) == fold(x.name) && l.nullable == x.live)
  }

  ghost predicate HasLive(live: seq<LiveColumn>, name: string) {
    exists l | l in live :: l.name == name
  }

  lemma WiderStillDiffers(d: Column, declared: seq<Column>, narrow: seq<LiveColumn>, live: seq<LiveColumn>,
                          x: NullabilityDiff, fold: Folding)
    requires Differs(declared, narrow, x, fold) && forall l | l in narrow :: l in live
    ensures Differs([d] + declared, live, x, fold)
  {
    var c :| c in declared && c.name == x.name && c.nullable == x.declared;
    assert c in [d] + declared;
  }

  lemma {:induction false} MissingAreDeclared(declared: seq<Column>, live: seq<LiveColumn>, fold: Folding)
    ensures forall n | n in Compare(declared, live, fold).missing :: Declares(declared, n)
  {
    if declared != [] {
      var rest := match Pick(live, declared[0].name, fold) case None => live case Some(i) => RemoveAt(live, i);
      MissingAreDeclared(declared[1..], rest, fold);
      forall n | Declares(declared[1..], n) ensures Declares(declared, n) {
        var i :| 0 <= i < |declared| - 1 && declared[1..][i].name == n;
        assert declared[i + 1].name == n;
      }
    }
  }

  lemma {:induction false} UnexpectedAreLive(declared: seq<Column>, live: seq<LiveColumn>, fold: Folding)
    ensures forall n | n in Compare(declared, live, fold).unexpected :: HasLive(live, n)
  {
    if declared == [] {
      forall n | n in LiveNames(live) ensures HasLive(live, n) {
        var i :| 0 <= i < |live| && LiveNames(live)[i] == n;
        assert live[i] in live;
      }
    } else {
      var rest := match Pick(live, declared[0].name, fold) case None => live case Some(i) => RemoveAt(live, i);
      UnexpectedAreLive(declared[1..], rest, fold);
      assert forall l | l in rest :: l in live;
    }
  }

  lemma {:induction false} DifferingDiffer(declared: seq<Column>, live: seq<LiveColumn>, fold: Folding)
    ensures forall x | x in Compare(declared, live, fold).nullability :: Differs(declared, live, x, fold)
  {
    if declared != [] {
      var d, pick := declared[0], Pick(live, declared[0].name, fold);
      var rest := match pick case None => live case Some(i) => RemoveAt(live, i);
      DifferingDiffer(declared[1..], rest, fold);
      assert declared == [d] + declared[1..];
      forall x | Differs(declared[1..], rest, x, fold) ensures Differs(declared, live, x, fold) {
        WiderStillDiffers(d, declared[1..], rest, live, x, fold);
      }
      if pick.Some? && live[pick.value].nullable != d.nullable {
        var l := live[pick.value];
        assert d in declared && l in live;
        assert Differs(declared, live, NullabilityDiff(d.name, d.nullable, l.nullable), fold);
      }
    }
  }

  /** Every reported difference is there: a declared column, a live one, or two that differ. */
  lemma DifferencesAreReal(declared: seq<Column>, live: seq<LiveColumn>, fold: Folding)
    ensures var diff := Compare(declared, live, fold);
            && (forall n | n in diff.missing :: Declares(declared, n))
            && (forall n | n in diff.unexpected :: HasLive(live, n))
            && (forall x | x in diff.nullability :: Differs(declared, live, x, fold))
  {
    MissingAreDeclared(declared, live, fold);
    UnexpectedAreLive(declared, live, fold);
    DifferingDiffer(declared, live, fold);
  }

  // --- what an empty diff means -------------------------------------------

  /** `paired[i]` is the live column for `declared[i]`: same name up to case, same nullability. */
  ghost predicate Pairs(declared: seq<Column>, paired: seq<LiveColumn>, fold: Folding) {
    && |paired| == |declared|
    && forall i | 0 <= i < |declared| ::
         fold(paired[i].name) == fold(declared[i].name) && paired[i].nullable == declared[i].nullable
  }

  /** An empty diff pairs every declared column with a live one of its own, leaving none over. */
  lemma {:induction false} EmptyDiffIsBijection(declared: seq<Column>, live: seq<LiveColumn>, fold: Folding)
      returns (paired: seq<LiveColumn>)
    requires Compare(declared, live, fold).Empty()
    ensures Pairs(declared, paired, fold) && multiset(paired) == multiset(live)
  {
    if declared == [] {
      assert |LiveNames(live)| == 0;
      paired := [];
    } else {
      var i := Pick(live, declared[0].name, fold).value;
      var rest := EmptyDiffIsBijection(declared[1..], RemoveAt(live, i), fold);
      paired := [live[i]] + rest;
      ConsRemoved(live, i, rest);
      forall k | 0 < k < |declared|
        ensures fold(paired[k].name) == fold(declared[k].name) && paired[k].nullable == declared[k].nullable
      {
        assert paired[k] == rest[k - 1] && declared[k] == declared[1..][k - 1];
      }
    }
  }

  /** Live columns equal up to case all have the same nullability. */
  ghost predicate Uniform(live: seq<LiveColumn>, fold: Folding) {
    forall a, b | a in live && b in live && fold(a.name) == fold(b.name) :: a.nullable == b.nullable
  }

  ghost predicate PairingExists(declared: seq<Column>, live: seq<LiveColumn>, fold: Folding) {
    exists paired :: Pairs(declared, paired, fold) && multiset(paired) == multiset(live)
  }

  lemma RemoveKeepsUniform(live: seq<LiveColumn>, i: nat, fold: Folding)
    requires i < |live| && Uniform(live, fold)
    ensures Uniform(RemoveAt(live, i), fold)
  {
    forall x | x in RemoveAt(live, i) ensures x in live {
    }
  }

  lemma PairsTail(declared: seq<Column>, paired: seq<LiveColumn>, fold: Folding)
    requires declared != [] && Pairs(declared, paired, fold)
    ensures Pairs(declared[1..], paired[1..], fold)
  {
    forall k | 0 <= k < |declared| - 1
      ensures fold(paired[1..][k].name) == fold(declared[1..][k].name)
          && paired[1..][k].nullable == declared[1..][k].nullable
    {
      assert paired[1..][k] == paired[k + 1] && declared[1..][k] == declared[k + 1];
    }
  }

  /** A column that could be the first one's partner can be made so, its old owner taking the partner it frees. */
  lemma Repaired(declared: seq<Column>, live: seq<LiveColumn>, paired: seq<LiveColumn>, fold: Folding, i: nat)
      returns (repaired: seq<LiveColumn>)
    requires declared != [] && Uniform(live, fold) && i < |live|
    requires Pairs(declared, paired, fold) && multiset(paired) == multiset(live)
    requires fold(live[i].name) == fold(declared[0].name)
    ensures Pairs(declared, repaired, fold) && multiset(repaired) == multiset(live) && repaired[0] == live[i]
  {
    FirstIsIn(live, paired);
    assert live[i] in multiset(live);
    var k :| 0 <= k < |paired| && paired[k] == live[i];
    repaired := paired[k := paired[0]][0 := paired[k]];
    SwapKeepsElements(paired, k, 0);
    assert paired[0] in multiset(live);
  }

  /** When same-named columns are equally nullable, it does not matter which of them the pairing takes. */
  lemma {:induction false} PairingIsEmptyDiff(declared: seq<Column>, live: seq<LiveColumn>, paired: seq<LiveColumn>,
                                              fold: Folding)
    requires Uniform(live, fold)
    requires Pairs(declared, paired, fold) && multiset(paired) == multiset(live)
    ensures Compare(declared, live, fold).Empty()
  {
    if declared == [] {
      assert |multiset(live)| == 0;
    } else {
      FirstIsIn(live, paired);
      var i := Pick(live, declared[0].name, fold).value;
      var repaired := Repaired(declared, live, paired, fold, i);
      SameRest(live, repaired, i);
      PairsTail(declared, repaired, fold);
      RemoveKeepsUniform(live, i, fold);
      PairingIsEmptyDiff(declared[1..], RemoveAt(live, i), repaired[1..], fold);
    }
  }

  /** On a uniform table the gate opens iff the declared and live columns correspond one to one with the
      same folded name and nullability, whatever is declared. */
  lemma EmptyDiffIffBijection(declared: seq<Column>, live: seq<LiveColumn>, fold: Folding)
    requires Uniform(live, fold)
    ensures Compare(declared, live, fold).Empty() <==> PairingExists(declared, live, fold)
  {
    if Compare(declared, live, fold).Empty() {
      var paired := EmptyDiffIsBijection(declared, live, fold);
    }
    if PairingExists(declared, live, fold) {
      var paired :| Pairs(declared, paired, fold) && multiset(paired) == multiset(live);
      PairingIsEmptyDiff(declared, live, paired, fold);
    }
  }

  // --- declared names that occur exactly ----------------------------------

  /** `paired[i]` has exactly `declared[i]`'s name, and its nullability. */
  ghost predicate ExactPairs(declared: seq<Column>, paired: seq<LiveColumn>) {
    && |paired| == |declared|
    && forall i | 0 <= i < |declared| ::
         paired[i].name == declared[i].name && paired[i].nullable == declared[i].nullable
  }

  ghost predicate AllOccur(declared: seq<Column>, live: seq<LiveColumn>) {
    forall d | d in declared :: exists l | l in live :: l.name == d.name
  }

  /** Taking the first declared column's live one leaves the others theirs. */
  lemma OthersOccur(declared: seq<Column>, live: seq<LiveColumn>, i: nat)
    requires declared != [] && i < |live| && live[i].name == declared[0].name
    requires DistinctNames(declared) && AllOccur(declared, live)
    ensures DistinctNames(declared[1..]) && AllOccur(declared[1..], RemoveAt(live, i))
  {
    forall d | d in declared[1..] ensures exists l | l in RemoveAt(live, i) :: l.name == d.name {
      var k :| 0 <= k < |declared| - 1 && declared[1..][k] == d;
      assert declared[k + 1] == d && d in declared;
      var l :| l in live && l.name == d.name;
      var j :| 0 <= j < |live| && live[j] == l;
      assert RemoveAt(live, i)[if j < i then j else j - 1] == l;
    }
  }

  /** When every declared name occurs exactly, folding plays no part in an empty diff. */
  lemma {:induction false} EmptyDiffIsExact(declared: seq<Column>, live: seq<LiveColumn>, fold: Folding)
      returns (paired: seq<LiveColumn>)
    requires DistinctNames(declared) && AllOccur(declared, live) && Compare(declared, live, fold).Empty()
    ensures ExactPairs(declared, paired) && multiset(paired) == multiset(live)
  {
    if declared == [] {
      assert |LiveNames(live)| == 0;
      paired := [];
    } else {
      assert declared[0] in declared;
      var i := Pick(live, declared[0].name, fold).value;
      OthersOccur(declared, live, i);
      var rest := EmptyDiffIsExact(declared[1..], RemoveAt(live, i), fold);
      paired := [live[i]] + rest;
      ConsRemoved(live, i, rest);
      forall k | 0 < k < |declared|
        ensures paired[k].name == declared[k].name && paired[k].nullable == declared[k].nullable
      {
        assert paired[k] == rest[k - 1] && declared[k] == declared[1..][k - 1];
      }
    }
  }

  /** The live column with the first declared name is its exact partner. */
  lemma ExactPartner(declared: seq<Column>, live: seq<LiveColumn>, paired: seq<LiveColumn>, fold: Folding)
      returns (i: nat)
    requires declared != [] && DistinctNames(declared) && ExactPairs(declared, paired)
        && multiset(paired) == multiset(live)
    ensures Pick(live, declared[0].name, fold) == Some(i) && i < |live| && live[i] == paired[0]
    ensures multiset(paired[1..]) == multiset(RemoveAt(live, i))
  {
    FirstIsIn(live, paired);
    i := Pick(live, declared[0].name, fold).value;
    assert live[i] in multiset(live);
    var k :| 0 <= k < |paired| && paired[k] == live[i];
    assert declared[k].name == declared[0].name;
    SameRest(live, paired, i);
  }

  lemma {:induction false} ExactPairingIsEmptyDiff(declared: seq<Column>, live: seq<LiveColumn>,
                                                   paired: seq<LiveColumn>, fold: Folding)
    requires DistinctNames(declared) && ExactPairs(declared, paired) && multiset(paired) == multiset(live)
    ensures Compare(declared, live, fold).Empty()
  {
    if declared == [] {
      assert |multiset(live)| == 0;
    } else {
      var i := ExactPartner(declared, live, paired, fold);
      forall k | 0 <= k < |declared| - 1
        ensures paired[1..][k].name == declared[1..][k].name && paired[1..][k].nullable == declared[1..][k].nullable
      {
        assert paired[1..][k] == paired[k + 1] && declared[1..][k] == declared[k + 1];
      }
      ExactPairingIsEmptyDiff(declared[1..], RemoveAt(live, i), paired[1..], fold);
    }
  }

  /** With every declared name present exactly, the gate opens iff the live columns are the declared ones. */
  lemma EmptyDiffIffExact(declared: seq<Column>, live: seq<LiveColumn>, fold: Folding)
    requires DistinctNames(declared) && AllOccur(declared, live)
    ensures Compare(declared, live, fold).Empty()
            <==> exists paired :: ExactPairs(declared, paired) && multiset(paired) == multiset(live)
  {
    if Compare(declared, live, fold).Empty() {
      var paired := EmptyDiffIsExact(declared, live, fold);
    }
    if paired :| ExactPairs(declared, paired) && multiset(paired) == multiset(live) {
      ExactPairingIsEmptyDiff(declared, live, paired, fold);
    }
  }

  // --- exactly when the gate is a pairing test ----------------------------

  ghost predicate DistinctLive(live: seq<LiveColumn>) {
    forall i, j | 0 <= i < j < |live| :: live[i].name != live[j].name
  }

  /** The live columns as declarations, `p`'s and `q`'s nullability exchanged. */
  function Crossed(live: seq<LiveColumn>, p: nat, q: nat): seq<Column>
    requires p < |live| && q < |live|
  {
    seq(|live|, i requires 0 <= i < |live| =>
      Column(live[i].name, "TEXT", Text, live[if i == p then q else if i == q then p else i].nullable))
  }

  lemma CrossedPairs(live: seq<LiveColumn>, p: nat, q: nat, fold: Folding)
    requires p < |live| && q < |live| && fold(live[p].name) == fold(live[q].name)
    ensures PairingExists(Crossed(live, p, q), live, fold)
  {
    var paired := live[p := live[q]][q := live[p]];
    assert multiset(paired) == multiset(live);
    assert Pairs(Crossed(live, p, q), paired, fold);
  }

  lemma CrossedOccurs(live: seq<LiveColumn>, p: nat, q: nat)
    requires DistinctLive(live) && p < |live| && q < |live|
    ensures DistinctNames(Crossed(live, p, q)) && AllOccur(Crossed(live, p, q), live)
  {
    forall d | d in Crossed(live, p, q) ensures exists l | l in live :: l.name == d.name {
      var i :| 0 <= i < |live| && Crossed(live, p, q)[i] == d;
      assert live[i] in live;
    }
  }

  lemma CrossedIsNotExact(live: seq<LiveColumn>, p: nat, q: nat, exact: seq<LiveColumn>)
    requires DistinctLive(live) && p < |live| && q < |live| && live[p].nullable != live[q].nullable
    requires multiset(exact) == multiset(live)
    ensures !ExactPairs(Crossed(live, p, q), exact)
  {
    if |exact| == |live| {
      assert exact[p] in multiset(live);
      var i :| 0 <= i < |live| && live[i] == exact[p];
      assert i == p || live[i].name != live[p].name;
    }
  }

  /** Declaring such columns: a pairing exists, but exact names come first and the diff reports both. */
  lemma {:induction false} CrossedIsReported(live: seq<LiveColumn>, p: nat, q: nat, fold: Folding)
    requires DistinctLive(live) && p < |live| && q < |live| && live[p].nullable != live[q].nullable
    ensures !Compare(Crossed(live, p, q), live, fold).Empty()
  {
    CrossedOccurs(live, p, q);
    if Compare(Crossed(live, p, q), live, fold).Empty() {
      var exact := EmptyDiffIsExact(Crossed(live, p, q), live, fold);
      CrossedIsNotExact(live, p, q, exact);
    }
  }

  /** Exactly when the gate opens for every declaration that corresponds to the table: when live columns equal
      up to case are equally nullable. */
  lemma GateIsPairingIffUniform(live: seq<LiveColumn>, fold: Folding)
    requires DistinctLive(live)
    ensures Uniform(live, fold)
            <==> forall declared | DistinctNames(declared) ::
                   Compare(declared, live, fold).Empty() <==> PairingExists(declared, live, fold)
  {
    if Uniform(live, fold) {
      forall declared | DistinctNames(declared)
        ensures Compare(declared, live, fold).Empty() <==> PairingExists(declared, live, fold)
      {
        EmptyDiffIffBijection(declared, live, fold);
      }
    } else {
      var a, b :| a in live && b in live && fold(a.name) == fold(b.name) && a.nullable != b.nullable;
      var p :| 0 <= p < |live| && live[p] == a;
      var q :| 0 <= q < |live| && live[q] == b;
      CrossedPairs(live, p, q, fold);
      CrossedOccurs(live, p, q);
      CrossedIsReported(live, p, q, fold);
    }
  }

  /** On a table that is not uniform the greedy pairing can also take a column another name matches exactly. */
  lemma GreedyCanSteal(fold: Folding)
    requires fold("aa") == fold("Aa") == fold("AA")
    ensures var declared := [Column("aa", "TEXT", Text, true), Column("AA", "TEXT", Text, false)];
            var live := [LiveColumn("AA", false), LiveColumn("Aa", true)];
            && !Uniform(live, fold) && PairingExists(declared, live, fold)
            && !Compare(declared, live, fold).Empty()
  {
    var declared := [Column("aa", "TEXT", Text, true), Column("AA", "TEXT", Text, false)];
    var live := [LiveColumn("AA", false), LiveColumn("Aa", true)];
    assert Pairs(declared, [live[1], live[0]], fold) && multiset([live[1], live[0]]) == multiset(live);
    assert live[0] in live && live[1] in live;
    assert "AA"[0] != "aa"[0] && "Aa"[0] != "aa"[0];
    assert FirstNamed(live, "aa") == None;
    assert FirstFolded(live, "aa", fold) == Some(0);
  }
}
