/** One node's run, end to end: which calls are made, what is printed, and what is closed. */
module Harness {
  datatype ErrorClass = ContractError | ReadError | ScriptError | ConformError | LoadError

  /** What a call raised: a HarnessError of some class, a DuplicateKeyError, or any other Exception. */
  datatype Raised = HarnessError(kind: ErrorClass) | DuplicateKeyError | OtherException

  datatype Step =
    | RequireEnv | LoadContract | SelectNode | BuildAdapter | ValidateConfig | CheckCapability
    | Produce | ConformOutput | EnsureTable | CheckShape | Write

  datatype Outcome = Returns | Raises(what: Raised)

  datatype Block = SuccessBlock | ErrorBlock(kind: ErrorClass)

  datatype Event = Called(step: Step, outcome: Outcome) | Printed(block: Block) | Closed(raised: bool)

  /** Everything outside the harness: how each call would end, whether the caller supplied the adapter,
      and whether the node's mode needs a capability (append and upsert do, replace does not). */
  datatype World = World(outcome: Step -> Outcome, adapterGiven: bool, needsCapability: bool, closeRaises: bool)

  /** The calls of an undisturbed run, in order. */
  function Steps(w: World): seq<Step> {
    [RequireEnv, LoadContract, SelectNode]
    + (if w.adapterGiven then [] else [BuildAdapter])
    + [ValidateConfig, CheckCapability, Produce, ConformOutput, EnsureTable]
    + (if w.needsCapability then [CheckShape] else [])
    + [Write]
  }

  /** The class a failure of `step` is reported under. */
  function ReportedAs(step: Step, what: Raised): ErrorClass {
    if what.HarnessError? then what.kind
    else if step in {EnsureTable, CheckShape, Write} then
      if what == DuplicateKeyError then ConformError else LoadError
    else if step in {BuildAdapter, ValidateConfig} then LoadError
    else ScriptError
  }

  /** The calls of `steps` up to the first that raises. */
  function Calls(w: World, steps: seq<Step>): seq<Event> {
    if steps == [] then []
    else
      var o := w.outcome(steps[0]);
      [Called(steps[0], o)] + if o.Returns? then Calls(w, steps[1..]) else []
  }

  /** The block for those calls. */
  function BlockFor(w: World, steps: seq<Step>): Block {
    if steps == [] then SuccessBlock
    else match w.outcome(steps[0])
      case Returns => BlockFor(w, steps[1..])
      case Raises(what) => ErrorBlock(ReportedAs(steps[0], what))
  }

  predicate Returned(w: World, steps: seq<Step>) {
    forall step | step in steps :: w.outcome(step).Returns?
  }

  function Build(w: World): seq<Step> {
    if w.adapterGiven then [] else [BuildAdapter]
  }

  function Prologue(w: World): seq<Step> {
    [RequireEnv, LoadContract, SelectNode] + Build(w)
  }

  predicate AdapterObtained(w: World) {
    Returned(w, Prologue(w))
  }

  /** The block the outermost handlers print for an escaping exception. */
  function BlockOf(error: Outcome): Block {
    match error
    case Returns => SuccessBlock
    case Raises(HarnessError(kind)) => ErrorBlock(kind)
    case Raises(_) => ErrorBlock(ScriptError)
  }

  predicate Unwrapped(step: Step) {
    step !in {BuildAdapter, ValidateConfig, EnsureTable, CheckShape, Write}
  }

  lemma CallsConcat(w: World, a: seq<Step>, b: seq<Step>)
    ensures Calls(w, a + b) == Calls(w, a) + if Returned(w, a) then Calls(w, b) else []
    ensures BlockFor(w, a + b) == if Returned(w, a) then BlockFor(w, b) else BlockFor(w, a)
    ensures Returned(w, a + b) <==> Returned(w, a) && Returned(w, b)
    ensures BlockFor(w, a) == SuccessBlock <==> Returned(w, a)
  {
    CallsOfConcat(w, a, b);
    BlockOfConcat(w, a, b);
    ReturnedSplits(w, a, b);
  }

  lemma ReturnedFirst(w: World, steps: seq<Step>)
    requires steps != []
    ensures Returned(w, steps) <==> w.outcome(steps[0]).Returns? && Returned(w, steps[1..])
  {
    assert steps == [steps[0]] + steps[1..];
    ReturnedSplits(w, [steps[0]], steps[1..]);
    assert steps[0] in [steps[0]];
  }

  lemma {:induction false} CallsOfConcat(w: World, a: seq<Step>, b: seq<Step>)
    ensures Calls(w, a + b) == Calls(w, a) + if Returned(w, a) then Calls(w, b) else []
  {
    if a == [] {
      assert a + b == b;
    } else {
      assert (a + b)[1..] == a[1..] + b && (a + b)[0] == a[0];
      ReturnedFirst(w, a);
      CallsOfConcat(w, a[1..], b);
    }
  }

  lemma {:induction false} BlockOfConcat(w: World, a: seq<Step>, b: seq<Step>)
    ensures BlockFor(w, a + b) == if Returned(w, a) then BlockFor(w, b) else BlockFor(w, a)
    ensures BlockFor(w, a) == SuccessBlock <==> Returned(w, a)
  {
    if a == [] {
      assert a + b == b;
    } else {
      assert (a + b)[1..] == a[1..] + b && (a + b)[0] == a[0];
      ReturnedFirst(w, a);
      BlockOfConcat(w, a[1..], b);
    }
  }

  lemma ReturnedSplits(w: World, a: seq<Step>, b: seq<Step>)
    ensures Returned(w, a + b) <==> Returned(w, a) && Returned(w, b)
  {
    assert forall step :: step in a + b <==> step in a || step in b;
  }

  lemma CallsOne(w: World, step: Step)
    ensures Calls(w, [step]) == [Called(step, w.outcome(step))]
    ensures Returned(w, [step]) <==> w.outcome(step).Returns?
    ensures w.outcome(step).Raises? ==> BlockFor(w, [step]) == ErrorBlock(ReportedAs(step, w.outcome(step).what))
  {
    assert step in [step];
  }

  lemma NextCall(w: World, steps: seq<Step>, i: nat)
    requires i < |steps| && Returned(w, steps[..i])
    ensures Calls(w, steps[..i + 1]) == Calls(w, steps[..i]) + [Called(steps[i], w.outcome(steps[i]))]
    ensures Returned(w, steps[..i + 1]) <==> w.outcome(steps[i]).Returns?
    ensures w.outcome(steps[i]).Raises? ==>
        BlockFor(w, steps[..i + 1]) == ErrorBlock(ReportedAs(steps[i], w.outcome(steps[i]).what))
  {
    assert steps[..i + 1] == steps[..i] + [steps[i]];
    CallsConcat(w, steps[..i], [steps[i]]);
    CallsOne(w, steps[i]);
  }

  /** Nothing is called after a failure. */
  lemma FailureEnds(w: World, steps: seq<Step>, i: nat)
    requires i <= |steps| && !Returned(w, steps[..i])
    ensures Calls(w, steps) == Calls(w, steps[..i]) && BlockFor(w, steps) == BlockFor(w, steps[..i])
        && !Returned(w, steps)
  {
    assert steps == steps[..i] + steps[i..];
    CallsConcat(w, steps[..i], steps[i..]);
  }

  /** Calls with no handler of their own, one after another. */
  method Sequence(w: World, steps: seq<Step>) returns (trace: seq<Event>, error: Outcome)
    requires forall step | step in steps :: Unwrapped(step)
    ensures trace == Calls(w, steps) && BlockOf(error) == BlockFor(w, steps)
    ensures error.Returns? <==> Returned(w, steps)
  {
    trace, error := [], Returns;
    var i := 0;
    assert steps[..0] == [];
    while i < |steps|
      invariant 0 <= i <= |steps|
      invariant error == Returns && Returned(w, steps[..i]) && trace == Calls(w, steps[..i])
    {
      NextCall(w, steps, i);
      error := w.outcome(steps[i]);
      trace := trace + [Called(steps[i], error)];
      if error.Raises? {
        FailureEnds(w, steps, i + 1);
        assert steps[i] in steps;
        return;
      }
      i := i + 1;
    }
    assert steps[..i] == steps;
    CallsConcat(w, steps, []);
  }

  /** Adapter construction: a caller's adapter is used as it is. */
  method ObtainAdapter(w: World) returns (trace: seq<Event>, error: Outcome)
    ensures trace == Calls(w, Build(w)) && BlockOf(error) == BlockFor(w, Build(w))
    ensures error.Returns? <==> Returned(w, Build(w))
  {
    trace, error := [], Returns;
    if !w.adapterGiven {
      CallsOne(w, BuildAdapter);
      error := w.outcome(BuildAdapter);
      trace := [Called(BuildAdapter, error)];
      if error.Raises? && !error.what.HarnessError? {
        error := Raises(HarnessError(LoadError));
      }
    }
  }

  method CheckConfig(w: World) returns (trace: seq<Event>, error: Outcome)
    ensures trace == Calls(w, [ValidateConfig]) && BlockOf(error) == BlockFor(w, [ValidateConfig])
    ensures error.Returns? <==> Returned(w, [ValidateConfig])
  {
    CallsOne(w, ValidateConfig);
    error := w.outcome(ValidateConfig);
    trace := [Called(ValidateConfig, error)];
    if error.Raises? && !error.what.HarnessError? {
      error := Raises(HarnessError(LoadError));
    }
  }

  function WriteSteps(w: World): seq<Step> {
    [EnsureTable] + (if w.needsCapability then [CheckShape] else []) + [Write]
  }

  /** The write block with its own three handlers. */
  method WriteBlock(w: World) returns (trace: seq<Event>, error: Outcome)
    ensures trace == Calls(w, WriteSteps(w)) && BlockOf(error) == BlockFor(w, WriteSteps(w))
    ensures error.Returns? <==> Returned(w, WriteSteps(w))
    ensures error.Raises? ==>
              && trace != [] && trace[|trace| - 1].Called? && trace[|trace| - 1].outcome.Raises?
              && error == match trace[|trace| - 1].outcome.what
                          case HarnessError(kind) => Raises(HarnessError(kind))
                          case DuplicateKeyError => Raises(HarnessError(ConformError))
                          case OtherException => Raises(HarnessError(LoadError))
  {
    ghost var shape := if w.needsCapability then [CheckShape] else [];
    CallsConcat(w, [EnsureTable] + shape, [Write]);
    CallsConcat(w, [EnsureTable], shape);
    CallsOne(w, EnsureTable);
    CallsOne(w, CheckShape);
    CallsOne(w, Write);
    error := w.outcome(EnsureTable);
    trace := [Called(EnsureTable, error)];
    if error.Returns? && w.needsCapability {
      error := w.outcome(CheckShape);
      trace := trace + [Called(CheckShape, error)];
    }
    if error.Returns? {
      error := w.outcome(Write);
      trace := trace + [Called(Write, error)];
    }
    if error.Raises? && !error.what.HarnessError? {
      error := Raises(HarnessError(if error.what.DuplicateKeyError? then ConformError else LoadError));
    }
  }

  /** The body of the outermost `try`: the plain calls `head` and `middle` around the guarded ones. */
  method TryBody(w: World, head: seq<Step>, middle: seq<Step>) returns (trace: seq<Event>, error: Outcome, active: bool)
    requires forall step | step in head || step in middle :: Unwrapped(step)
    ensures var steps := head + (Build(w) + ([ValidateConfig] + (middle + WriteSteps(w))));
            && trace == Calls(w, steps) && BlockOf(error) == BlockFor(w, steps)
            && (error.Returns? <==> Returned(w, steps))
    ensures active <==> Returned(w, head) && Returned(w, Build(w))
  {
    CallsConcat(w, head, Build(w) + ([ValidateConfig] + (middle + WriteSteps(w))));
    active := false;
    trace, error := Sequence(w, head);
    if error.Returns? {
      var more;
      more, error, active := WithAdapter(w, middle);
      trace := trace + more;
    }
  }

  method WithAdapter(w: World, middle: seq<Step>) returns (trace: seq<Event>, error: Outcome, active: bool)
    requires forall step | step in middle :: Unwrapped(step)
    ensures var steps := Build(w) + ([ValidateConfig] + (middle + WriteSteps(w)));
            && trace == Calls(w, steps) && BlockOf(error) == BlockFor(w, steps)
            && (error.Returns? <==> Returned(w, steps))
    ensures active <==> Returned(w, Build(w))
  {
    CallsConcat(w, Build(w), [ValidateConfig] + (middle + WriteSteps(w)));
    trace, error := ObtainAdapter(w);
    active := error.Returns?;
    if error.Returns? {
      var more;
      more, error := AfterAdapter(w, middle);
      trace := trace + more;
    }
  }

  method AfterAdapter(w: World, middle: seq<Step>) returns (trace: seq<Event>, error: Outcome)
    requires forall step | step in middle :: Unwrapped(step)
    ensures var steps := [ValidateConfig] + (middle + WriteSteps(w));
            && trace == Calls(w, steps) && BlockOf(error) == BlockFor(w, steps)
            && (error.Returns? <==> Returned(w, steps))
  {
    CallsConcat(w, [ValidateConfig], middle + WriteSteps(w));
    trace, error := CheckConfig(w);
    if error.Returns? {
      var more;
      more, error := AfterConfig(w, middle);
      trace := trace + more;
    }
  }

  method AfterConfig(w: World, middle: seq<Step>) returns (trace: seq<Event>, error: Outcome)
    requires forall step | step in middle :: Unwrapped(step)
    ensures var steps := middle + WriteSteps(w);
            && trace == Calls(w, steps) && BlockOf(error) == BlockFor(w, steps)
            && (error.Returns? <==> Returned(w, steps))
  {
    CallsConcat(w, middle, WriteSteps(w));
    trace, error := Sequence(w, middle);
    if error.Returns? {
      var more;
      more, error := WriteBlock(w);
      trace := trace + more;
    }
  }

  /** Call `i` is the first to raise. */
  ghost predicate FirstToRaise(w: World, i: nat) {
    i < |Steps(w)| && w.outcome(Steps(w)[i]).Raises? && forall j | 0 <= j < i :: w.outcome(Steps(w)[j]).Returns?
  }

  lemma FirstDecides(w: World, i: nat)
    requires FirstToRaise(w, i)
    ensures BlockFor(w, Steps(w)) == ErrorBlock(ReportedAs(Steps(w)[i], w.outcome(Steps(w)[i]).what))
  {
    NextCall(w, Steps(w), i);
    FailureEnds(w, Steps(w), i + 1);
  }

  /** This block is printed, and no other. */
  ghost predicate PrintsOnly(trace: seq<Event>, block: Block) {
    Printed(block) in trace && forall b | Printed(b) in trace :: b == block
  }

  lemma PrintsOnce(w: World, trace: seq<Event>, block: Block)
    requires trace == Calls(w, Steps(w)) + [Printed(block)] + if AdapterObtained(w) then [Closed(w.closeRaises)] else []
    ensures PrintsOnly(trace, block)
  {
    assert Printed(block) in [Printed(block)];
    forall b | Printed(b) in Calls(w, Steps(w)) ensures false {
      var i :| 0 <= i < |Calls(w, Steps(w))| && Calls(w, Steps(w))[i] == Printed(b);
      CallsAreInOrder(w, Steps(w), i);
    }
  }

  /** The harness: the handlers of each block, one printed block, and one close if there is an adapter. */
  method RunNode(w: World) returns (exit: int, trace: seq<Event>)
    ensures trace == Calls(w, Steps(w)) + [Printed(BlockFor(w, Steps(w)))]
                     + if AdapterObtained(w) then [Closed(w.closeRaises)] else []
    ensures exit == if BlockFor(w, Steps(w)) == SuccessBlock then 0 else 1
    ensures exists block :: PrintsOnly(trace, block)
    ensures forall i: nat | FirstToRaise(w, i) ::
              var step, what := Steps(w)[i], w.outcome(Steps(w)[i]).what;
              && exit == 1
              && (what.HarnessError? ==> PrintsOnly(trace, ErrorBlock(what.kind)))
              && (what.DuplicateKeyError? && step in {EnsureTable, CheckShape, Write} ==>
                    PrintsOnly(trace, ErrorBlock(ConformError)))
              && (what.OtherException? && step in {EnsureTable, CheckShape, Write} ==>
                    PrintsOnly(trace, ErrorBlock(LoadError)))
              && (!what.HarnessError? && step in {BuildAdapter, ValidateConfig} ==>
                    PrintsOnly(trace, ErrorBlock(LoadError)))
              && (!what.HarnessError?
                  && step in {RequireEnv, LoadContract, SelectNode, CheckCapability, Produce, ConformOutput} ==>
                    PrintsOnly(trace, ErrorBlock(ScriptError)))
  {
    forall i: nat | FirstToRaise(w, i)
      ensures BlockFor(w, Steps(w)) == ErrorBlock(ReportedAs(Steps(w)[i], w.outcome(Steps(w)[i]).what)) {
      FirstDecides(w, i);
    }
    StepsSplit(w);
    var error, active;
    var head, middle := [RequireEnv, LoadContract, SelectNode], [CheckCapability, Produce, ConformOutput];
    trace, error, active := TryBody(w, head, middle);
    trace := trace + [Printed(BlockOf(error))];
    exit := if error.Returns? then 0 else 1;
    if active {
      trace := trace + [Closed(w.closeRaises)];
    }
    PrintsOnce(w, trace, BlockOf(error));
  }

  lemma StepsSplit(w: World)
    ensures Steps(w) == [RequireEnv, LoadContract, SelectNode]
                        + (Build(w) + ([ValidateConfig] + ([CheckCapability, Produce, ConformOutput] + WriteSteps(w))))
    ensures AdapterObtained(w) <==> Returned(w, [RequireEnv, LoadContract, SelectNode]) && Returned(w, Build(w))
  {
    CallsConcat(w, [RequireEnv, LoadContract, SelectNode], Build(w));
  }

  // --- what the trace means -----------------------------------------------

  /** Every call was preceded by exactly the earlier calls, all of which returned. */
  lemma {:induction false} CallsAreInOrder(w: World, steps: seq<Step>, i: nat)
    requires i < |Calls(w, steps)|
    ensures i < |steps| && Calls(w, steps)[i] == Called(steps[i], w.outcome(steps[i]))
    ensures forall j | 0 <= j < i :: Calls(w, steps)[j] == Called(steps[j], Returns)
  {
    if i > 0 {
      CallsAreInOrder(w, steps[1..], i - 1);
      forall j | 0 <= j < i ensures Calls(w, steps)[j] == Called(steps[j], Returns) {
        if j > 0 {
          assert Calls(w, steps)[j] == Calls(w, steps[1..])[j - 1];
        }
      }
    }
  }

  /** No write is attempted unless the capability check, the conformed output, the table and, for an
      append or upsert, the shape check all came first and returned. */
  lemma WriteComesLast(w: World, i: nat)
    requires i < |Calls(w, Steps(w))| && Calls(w, Steps(w))[i] == Called(Write, w.outcome(Write))
    ensures i == |Steps(w)| - 1
    ensures forall step | step in Steps(w) && step != Write :: w.outcome(step).Returns?
    ensures CheckCapability in Steps(w) && ConformOutput in Steps(w) && EnsureTable in Steps(w)
    ensures w.needsCapability ==> CheckShape in Steps(w)
  {
    OneWrite(w);
    LastIsPreceded(w, Steps(w), i);
  }

  /** The call returned, somewhere in the run. */
  ghost predicate HasReturned(w: World, step: Step) {
    Called(step, Returns) in Calls(w, Steps(w))
  }

  /** What must have returned before each call: the adapter before its config is checked, both and the capability
      check before the script runs, the script's output conformed before the table is touched, and the table there
      before its shape is compared. */
  function Needed(w: World, step: Step): set<Step> {
    match step
    case ValidateConfig => {SelectNode} + if w.adapterGiven then {} else {BuildAdapter}
    case Produce => {ValidateConfig, CheckCapability}
    case EnsureTable => {CheckCapability, Produce, ConformOutput}
    case CheckShape => {EnsureTable}
    case _ => {}
  }

  lemma CalledOnlyAfter(w: World, step: Step, o: Outcome)
    requires Called(step, o) in Calls(w, Steps(w))
    ensures forall earlier | earlier in Needed(w, step) :: HasReturned(w, earlier)
  {
    EarlierHaveReturned(w, step, o);
    assert forall earlier | earlier in Needed(w, step) ::
      Planned(w, earlier) && Position(w, earlier) < Position(w, step);
  }

  lemma EarlierHaveReturned(w: World, step: Step, o: Outcome)
    requires Called(step, o) in Calls(w, Steps(w))
    ensures Planned(w, step)
    ensures forall earlier | Planned(w, earlier) && Position(w, earlier) < Position(w, step) :: HasReturned(w, earlier)
  {
    var calls := Calls(w, Steps(w));
    var i :| 0 <= i < |calls| && calls[i] == Called(step, o);
    CallsAreInOrder(w, Steps(w), i);
    PositionIs(w, i);
    forall earlier | Planned(w, earlier) && Position(w, earlier) < Position(w, step) ensures HasReturned(w, earlier) {
      PlaceIs(w, earlier);
      assert calls[Position(w, earlier)] == Called(earlier, Returns);
    }
  }

  /** The step is among an undisturbed run's. */
  predicate Planned(w: World, step: Step) {
    (step == BuildAdapter ==> !w.adapterGiven) && (step == CheckShape ==> w.needsCapability)
  }

  /** Where a step stands, if it is made at all. */
  function Position(w: World, step: Step): nat {
    var n := if w.adapterGiven then 3 else 4;
    match step
    case RequireEnv => 0
    case LoadContract => 1
    case SelectNode => 2
    case BuildAdapter => 3
    case ValidateConfig => n
    case CheckCapability => n + 1
    case Produce => n + 2
    case ConformOutput => n + 3
    case EnsureTable => n + 4
    case CheckShape => n + 5
    case Write => if w.needsCapability then n + 6 else n + 5
  }

  lemma PositionIs(w: World, i: nat)
    requires i < |Steps(w)|
    ensures Position(w, Steps(w)[i]) == i && Planned(w, Steps(w)[i])
  {
  }

  lemma PlaceIs(w: World, step: Step)
    requires Planned(w, step)
    ensures Position(w, step) < |Steps(w)| && Steps(w)[Position(w, step)] == step
  {
  }

  lemma LastIsPreceded(w: World, steps: seq<Step>, i: nat)
    requires steps != [] && steps[|steps| - 1] == Write && forall j | 0 <= j < |steps| - 1 :: steps[j] != Write
    requires i < |Calls(w, steps)| && Calls(w, steps)[i] == Called(Write, w.outcome(Write))
    ensures i == |steps| - 1 && forall step | step in steps && step != Write :: w.outcome(step).Returns?
  {
    CallsAreInOrder(w, steps, i);
    forall step | step in steps && step != Write ensures w.outcome(step).Returns? {
      var j :| 0 <= j < |steps| && steps[j] == step;
      assert Calls(w, steps)[j] == Called(step, Returns);
      CallsAreInOrder(w, steps, j);
    }
  }

  lemma OneWrite(w: World)
    ensures var steps := Steps(w);
            && steps[|steps| - 1] == Write && (forall j | 0 <= j < |steps| - 1 :: steps[j] != Write)
    ensures CheckCapability in Steps(w) && ConformOutput in Steps(w) && EnsureTable in Steps(w)
    ensures w.needsCapability ==> CheckShape in Steps(w)
  {
    var middle := [ValidateConfig, CheckCapability, Produce, ConformOutput, EnsureTable];
    var head := Prologue(w) + middle;
    assert Steps(w) == head + ((if w.needsCapability then [CheckShape] else []) + [Write]);
    assert CheckCapability in middle && ConformOutput in middle && EnsureTable in middle;
    assert forall step | step in middle :: step in head;
  }

  /** Success is printed exactly when every call returned, the write included. */
  lemma SuccessMeansAllReturned(w: World)
    ensures BlockFor(w, Steps(w)) == SuccessBlock <==> Returned(w, Steps(w))
    ensures Returned(w, Steps(w)) ==> |Calls(w, Steps(w))| == |Steps(w)| && AdapterObtained(w)
  {
    CallsConcat(w, Steps(w), []);
    if Returned(w, Steps(w)) {
      AllCalled(w, Steps(w));
      forall step | step in Prologue(w) ensures step in Steps(w) {
      }
    }
  }

  lemma {:induction false} AllCalled(w: World, steps: seq<Step>)
    requires Returned(w, steps)
    ensures |Calls(w, steps)| == |steps|
  {
    if steps != [] {
      assert steps[0] in steps;
      AllCalled(w, steps[1..]);
    }
  }

  /** Every call before the write returned. */
  predicate Reached(w: World) {
    forall step | step in Steps(w) && step != Write :: w.outcome(step).Returns?
  }

  /** Then the write decides what is printed. */
  lemma WriteDecides(w: World)
    requires Reached(w)
    ensures BlockFor(w, Steps(w)) == match w.outcome(Write)
                                     case Returns => SuccessBlock
                                     case Raises(what) => ErrorBlock(ReportedAs(Write, what))
  {
    var steps := Steps(w);
    var init := steps[..|steps| - 1];
    OneWrite(w);
    assert steps == init + [Write];
    assert Returned(w, init) by {
      forall step | step in init ensures w.outcome(step).Returns? {
        var j :| 0 <= j < |init| && init[j] == step;
        assert steps[j] == step && step in steps;
      }
    }
    CallsConcat(w, init, [Write]);
    CallsOne(w, Write);
    CallsConcat(w, [Write], []);
  }

  /** Repeated keys are reported as the script's fault, whatever the engine. */
  lemma DuplicateKeyIsConformError(w: World)
    requires Reached(w) && w.outcome(Write) == Raises(DuplicateKeyError)
    ensures BlockFor(w, Steps(w)) == ErrorBlock(ConformError)
  {
    WriteDecides(w);
  }
}
