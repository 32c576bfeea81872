/** One run of an upsert node, from the harness's calls down to the engine's statements. */
module NodeRun {
  import opened Rows
  import opened Contract
  import opened Keys
  import opened Conformance
  import opened Shape
  import opened Mechanisms
  import opened Preconditions
  import H = Harness
  import T = Trino
  import Port

  /** How the harness sees the port's call end. */
  function Ended(o: Port.Outcome): H.Outcome {
    match o
    case Returned => H.Returns
    case DuplicateKeyRaised => H.Raises(H.DuplicateKeyError)
    case ValueErrorRaised => H.Raises(H.OtherException)
    case EngineRaised => H.Raises(H.OtherException)
  }

  /** The world in which the write ended like this. */
  function Ending(w: H.World, o: H.Outcome): H.World {
    w.(outcome := step => if step == H.Write then o else w.outcome(step))
  }

  /** A run that reaches its write prints what the write's end says. */
  lemma EndingDecides(w: H.World, o: H.Outcome)
    requires H.Reached(w)
    ensures var world := Ending(w, o);
            H.BlockFor(world, H.Steps(world)) == match o
                                                 case Returns => H.SuccessBlock
                                                 case Raises(what) => H.ErrorBlock(H.ReportedAs(H.Write, what))
  {
    var world := Ending(w, o);
    assert H.Steps(world) == H.Steps(w) && H.Reached(world);
    H.WriteDecides(world);
  }

  /** A run that does not reach its write fails without one. */
  lemma NotReached(w: H.World)
    requires !H.Reached(w)
    ensures H.BlockFor(w, H.Steps(w)) != H.SuccessBlock
    ensures forall o :: H.Called(H.Write, o) !in H.Calls(w, H.Steps(w))
  {
    H.SuccessMeansAllReturned(w);
    forall o ensures H.Called(H.Write, o) !in H.Calls(w, H.Steps(w)) {
      if H.Called(H.Write, o) in H.Calls(w, H.Steps(w)) {
        var i :| 0 <= i < |H.Calls(w, H.Steps(w))| && H.Calls(w, H.Steps(w))[i] == H.Called(H.Write, o);
        H.CallsAreInOrder(w, H.Steps(w), i);
        H.WriteComesLast(w, i);
      }
    }
  }

  /** The write, if the run gets to it, and the world in which it ended as it did. */
  method WriteIfReached(w: H.World, e: Port.Engine, target: string, a: Arrow, key: seq<string>, token: string)
      returns (world: H.World)
    requires a.Valid() && Port.Usable(e, token) && target in Port.Visible(e)
    modifies Port.Footprint(e)
    ensures target in Port.Visible(e)
    ensures !H.Reached(w) ==> world == w && Port.Visible(e) == old(Port.Visible(e))
    ensures H.Reached(w) ==> H.BlockFor(world, H.Steps(world)) == BlockOfCheck(world, EnsureUniqueKey(a, key))
    ensures H.Reached(w) && EnsureUniqueKey(a, key) != Unique ==> Port.Visible(e) == old(Port.Visible(e))
    ensures H.Reached(w) && world.outcome(H.Write).Returns? ==>
              && EnsureUniqueKey(a, key) == Unique
              && if a.data.rows == [] then Port.Visible(e) == old(Port.Visible(e))
                 else Port.Visible(e)[target] == Port.Next(e, old(Port.Visible(e)[target]), a.data, key)
    ensures || Port.Visible(e)[target] == old(Port.Visible(e)[target])
            || Port.Visible(e)[target] == Port.Next(e, old(Port.Visible(e)[target]), a.data, key)
    ensures forall n | n != target && n != T.STAGE_PREFIX + token ::
              && (n in Port.Visible(e) <==> n in old(Port.Visible(e)))
              && (n in Port.Visible(e) ==> Port.Visible(e)[n] == old(Port.Visible(e))[n])
  {
    world := w;
    if H.Reached(w) {
      var outcome := Port.Upsert(e, target, a, key, token);
      world := Ending(w, Ended(outcome));
      EndingDecides(w, Ended(outcome));
    }
  }

  /** What is then printed: a repeated key is the script's fault, any other failure the write's. */
  function BlockOfCheck(world: H.World, check: KeyCheck): H.Block {
    if world.outcome(H.Write).Returns? then H.SuccessBlock
    else if check.DuplicateKeyError? then H.ErrorBlock(H.ConformError) else H.ErrorBlock(H.LoadError)
  }

  /** Runs the node on a table that is there. `a` is what conform returned. What the exit code and the printed block
      say is so: success means exactly the engine's upsert, a repeated key is the script's fault and writes nothing,
      a run that stops before its write leaves the catalog alone, and any other failure leaves the table as it was
      or upserted. */
  method RunUpsert(w: H.World, e: Port.Engine, target: string, a: Arrow, key: seq<string>, token: string)
      returns (exit: int, trace: seq<H.Event>)
    requires a.Valid() && Port.Usable(e, token) && target in Port.Visible(e)
    modifies Port.Footprint(e)
    ensures target in Port.Visible(e)
    ensures !H.Reached(w) ==>
              exit == 1 && Port.Visible(e) == old(Port.Visible(e)) && forall o :: H.Called(H.Write, o) !in trace
    ensures exit == 0 ==>
              && H.Reached(w) && EnsureUniqueKey(a, key) == Unique && H.Printed(H.SuccessBlock) in trace
              && if a.data.rows == [] then Port.Visible(e) == old(Port.Visible(e))
                 else Port.Visible(e)[target] == Port.Next(e, old(Port.Visible(e)[target]), a.data, key)
    ensures H.Reached(w) && EnsureUniqueKey(a, key).DuplicateKeyError? ==>
              exit == 1 && H.Printed(H.ErrorBlock(H.ConformError)) in trace && Port.Visible(e) == old(Port.Visible(e))
    ensures exit != 0 ==>
              || Port.Visible(e)[target] == old(Port.Visible(e)[target])
              || Port.Visible(e)[target] == Port.Next(e, old(Port.Visible(e)[target]), a.data, key)
    ensures exit == 0 || exit == 1
    ensures exit != 0 && H.Reached(w) && !EnsureUniqueKey(a, key).DuplicateKeyError? ==>
              H.Printed(H.ErrorBlock(H.LoadError)) in trace
    ensures forall n | n != target && n != T.STAGE_PREFIX + token ::
              && (n in Port.Visible(e) <==> n in old(Port.Visible(e)))
              && (n in Port.Visible(e) ==> Port.Visible(e)[n] == old(Port.Visible(e))[n])
  {
    var world := WriteIfReached(w, e, target, a, key, token);
    if !H.Reached(w) {
      NotReached(w);
    }
    exit, trace := H.RunNode(world);
    TraceShows(world, trace);
  }

  lemma TraceShows(w: H.World, trace: seq<H.Event>)
    requires trace == H.Calls(w, H.Steps(w)) + [H.Printed(H.BlockFor(w, H.Steps(w)))]
                      + if H.AdapterObtained(w) then [H.Closed(w.closeRaises)] else []
    ensures H.Printed(H.BlockFor(w, H.Steps(w))) in trace
    ensures forall s, o :: H.Called(s, o) in trace <==> H.Called(s, o) in H.Calls(w, H.Steps(w))
  {
  }

  /** For a node the loader accepted, output conform let through, and a keyed table the shape check let through
      whose names occur letter for letter: where the engine keeps the values of the key columns apart, a run that
      exits 0 has left the pure upsert of the stored rows. */
  lemma SuccessIsThePureUpsert(e: Port.Engine, raw: RawKey, columns: seq<Column>, lower: string -> string, out: Arrow,
                               policy: Policy, cast: Cast, length: Value -> nat, t: Table, fold: Folding)
    requires DistinctNames(columns) && raw.Listed? && ProperKey(raw.entries, columns, lower)
    requires Conform(out, columns, policy, cast, length).Conformed? && IsForm(Port.FormOf(e))
    requires Compare(columns, t.columns, fold).Empty() && AllOccur(columns, t.columns)
    requires Keyed(t.rows, EntryNames(raw.entries))
    requires forall c | c in EntryNames(raw.entries) :: Faithful(Port.FormOf(e), c)
    ensures var a, key := Conform(out, columns, policy, cast, length).table, EntryNames(raw.entries);
            && a.Valid() && EnsureUniqueKey(a, key) != ValueError
            && (EnsureUniqueKey(a, key) == Unique ==>
                  Port.Next(e, t, a.data, key) == Override(t, Formed(Port.FormOf(e), a.data), key))
  {
    var a, key := Conform(out, columns, policy, cast, length).table, EntryNames(raw.entries);
    ConformedTable(out, columns, policy, cast, length);
    LoaderAndConformSupplyTheKey(raw, columns, lower, out, policy, cast, length);
    NamesOccur(columns, t.columns);
    if EnsureUniqueKey(a, key) == Unique {
      Port.CheckedRowsAreReady(e, t, a, key);
      Port.NextIsOverride(e, t, a.data, key);
    }
  }
}
