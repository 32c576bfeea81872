/** Any number of callers racing through DuckDB's `ensure_table` on one absent table, under snapshot
    transactions where the first committer of a conflicting change wins. Tables are not dropped. */
module EnsureTableRace {
  import opened Rows

  const CONFLICT_ATTEMPTS: nat := 5

  type Layout = nat

  /** Where one caller is in its retry loop. `attempt` counts from 1. */
  datatype Caller =
    | Starting(attempt: nat)
    | InTransaction(attempt: nat, snapshot: Option<Layout>, created: bool)
    | Done
    | ConflictRaised
    | OtherRaised

  /** `layouts[i]` is what caller `i` would create; `creators` records the commits that created the table. */
  datatype State = State(table: Option<Layout>, callers: seq<Caller>, creators: seq<nat>, conflicts: seq<nat>)

  datatype Move = Begin | Inspect | Create | Commit | LostCommit | Fail

  /** One step of caller `i`. */
  ghost predicate Step(layouts: seq<Layout>, s: State, s': State, i: nat, move: Move) {
    && i < |s.callers| == |layouts| == |s.conflicts|
    && (match s.callers[i]
        case Starting(attempt) =>
          || (move == Begin && s' == s.(callers := s.callers[i := InTransaction(attempt, s.table, false)]))
          || (move == Fail && s' == s.(callers := s.callers[i := OtherRaised]))
        case InTransaction(attempt, snapshot, created) =>
          || (move == Fail && s' == s.(callers := s.callers[i := OtherRaised]))
          // The table is in the snapshot: return, committing a transaction that wrote nothing.
          || (move == Inspect && snapshot.Some? && s' == s.(callers := s.callers[i := Done]))
          || (move == Create && snapshot.None? && !created
              && s' == s.(callers := s.callers[i := InTransaction(attempt, snapshot, true)]))
          || (move == Commit && created && CommitStep(layouts, s, s', i, attempt))
          // A COMMIT that took effect and then raised.
          || (move == LostCommit && created && s.table.None?
              && s' == State(Some(layouts[i]), s.callers[i := OtherRaised], s.creators + [i], s.conflicts))
        case _ => false)
  }

  /** COMMIT of a transaction that creates the table: it wins only if nobody has committed one since its snapshot. */
  ghost predicate CommitStep(layouts: seq<Layout>, s: State, s': State, i: nat, attempt: nat)
    requires i < |s.callers| == |layouts| == |s.conflicts|
  {
    if s.table.None? then
      s' == State(Some(layouts[i]), s.callers[i := Done], s.creators + [i], s.conflicts)
    else
      var next := if attempt == CONFLICT_ATTEMPTS then ConflictRaised else Starting(attempt + 1);
      s' == s.(callers := s.callers[i := next],
               conflicts := s.conflicts[i := s.conflicts[i] + 1])
  }

  ghost predicate Initial(layouts: seq<Layout>, s: State) {
    && |s.callers| == |layouts| == |s.conflicts| && s.table == None && s.creators == []
    && forall i | 0 <= i < |layouts| :: s.callers[i] == Starting(1) && s.conflicts[i] == 0
  }

  ghost predicate SomeStep(layouts: seq<Layout>, s: State, s': State) {
    exists i, move :: Step(layouts, s, s', i, move)
  }

  /** A run: any interleaving of the callers' steps. */
  ghost predicate Run(layouts: seq<Layout>, states: seq<State>) {
    && states != [] && Initial(layouts, states[0])
    && forall n | 0 <= n < |states| - 1 :: SomeStep(layouts, states[n], states[n + 1])
  }

  /** One caller's part of the invariant. */
  ghost predicate CallerOk(s: State, i: nat)
    requires i < |s.callers| == |s.conflicts|
  {
    && s.conflicts[i] <= 1
    && match s.callers[i]
       case Starting(attempt) => attempt == 1 + s.conflicts[i] && (attempt == 2 ==> s.table.Some?)
       case InTransaction(attempt, snapshot, created) =>
         && attempt == 1 + s.conflicts[i] && (attempt == 2 ==> snapshot.Some?)
         && (snapshot.Some? ==> snapshot == s.table && !created)
       case Done => s.table.Some?
       case ConflictRaised => false
       case OtherRaised => true
  }

  ghost predicate Inv(layouts: seq<Layout>, s: State) {
    && |s.callers| == |layouts| == |s.conflicts|
    && (s.table.None? ==> s.creators == [])
    && (s.table.Some? ==> |s.creators| == 1 && s.creators[0] < |layouts| && s.table.value == layouts[s.creators[0]])
    && forall i | 0 <= i < |layouts| :: CallerOk(s, i)
  }

  lemma StepKeepsInv(layouts: seq<Layout>, s: State, s': State, i: nat, move: Move)
    requires Inv(layouts, s) && Step(layouts, s, s', i, move)
    ensures Inv(layouts, s')
    ensures s.table.Some? ==> s'.table == s.table && s'.creators == s.creators
  {
    assert CallerOk(s, i);
    forall k | 0 <= k < |layouts| ensures CallerOk(s', k) {
      assert CallerOk(s, k);
    }
  }

  lemma {:induction false} RunKeepsInv(layouts: seq<Layout>, states: seq<State>, n: nat)
    requires Run(layouts, states) && n < |states|
    ensures Inv(layouts, states[n])
  {
    if n == 0 {
      forall i | 0 <= i < |layouts| ensures CallerOk(states[0], i) {
      }
    } else {
      RunKeepsInv(layouts, states, n - 1);
      assert SomeStep(layouts, states[n - 1], states[n - 1 + 1]);
      var i, move :| Step(layouts, states[n - 1], states[n], i, move);
      StepKeepsInv(layouts, states[n - 1], states[n], i, move);
    }
  }

  /** In every state of every interleaving: at most one commit created the table and its layout is that
      caller's own; a caller that has returned finds the table there; nobody conflicts twice, so nobody
      exhausts the attempts; and once there, the table never changes. */
  lemma RaceIsSafe(layouts: seq<Layout>, states: seq<State>, n: nat)
    requires Run(layouts, states) && n < |states|
    ensures var s := states[n];
            && |s.callers| == |layouts| == |s.conflicts| && |s.creators| <= 1
            && (s.table.Some? <==> |s.creators| == 1)
            && (s.table.Some? ==> s.creators[0] < |layouts| && s.table.value == layouts[s.creators[0]])
    ensures forall i | 0 <= i < |layouts| ::
              && states[n].conflicts[i] <= 1 && states[n].callers[i] != ConflictRaised
              && (states[n].callers[i] == Done ==> states[n].table.Some?)
    ensures n > 0 && states[n - 1].table.Some? ==> states[n].table == states[n - 1].table
  {
    RunKeepsInv(layouts, states, n);
    forall i | 0 <= i < |layouts|
      ensures states[n].conflicts[i] <= 1 && states[n].callers[i] != ConflictRaised
      ensures states[n].callers[i] == Done ==> states[n].table.Some?
    {
      assert CallerOk(states[n], i);
    }
    if n > 0 {
      RunKeepsInv(layouts, states, n - 1);
      assert SomeStep(layouts, states[n - 1], states[n - 1 + 1]);
      var i, move :| Step(layouts, states[n - 1], states[n], i, move);
      StepKeepsInv(layouts, states[n - 1], states[n], i, move);
    }
  }

  /** A caller that has conflicted cannot create again: its next transaction sees the table. */
  lemma RetryFindsTheTable(layouts: seq<Layout>, states: seq<State>, n: nat, i: nat)
    requires Run(layouts, states) && n < |states| && i < |layouts|
    requires |states[n].callers| == |layouts| && states[n].callers[i].InTransaction? && states[n].callers[i].attempt > 1
    ensures states[n].callers[i].snapshot == states[n].table && states[n].table.Some? && !states[n].callers[i].created
  {
    RunKeepsInv(layouts, states, n);
    assert CallerOk(states[n], i);
  }

  /** The work left to one caller that nothing but conflicts disturbs: it strictly decreases. */
  ghost function WorkLeft(c: Caller): nat {
    match c
    case Starting(attempt) => if attempt <= 2 then 4 * (2 - attempt) + 4 else 0
    case InTransaction(attempt, _, created) =>
      if attempt <= 2 then 4 * (2 - attempt) + (if created then 2 else 3) else 0
    case _ => 0
  }

  /** Every step of a run brings its caller closer to the end: no schedule can make a caller retry for ever. */
  lemma StepsMakeProgress(layouts: seq<Layout>, s: State, s': State, i: nat, move: Move)
    requires Inv(layouts, s) && Step(layouts, s, s', i, move)
    ensures WorkLeft(s'.callers[i]) < WorkLeft(s.callers[i])
    ensures forall k | 0 <= k < |layouts| && k != i :: s'.callers[k] == s.callers[k]
  {
    assert CallerOk(s, i);
  }

  // --- who fails, and why -------------------------------------------------

  /** A run with its moves: `moves[n]` is the caller and the kind of the step from state `n` to the next. */
  ghost predicate Schedule(layouts: seq<Layout>, states: seq<State>, moves: seq<(nat, Move)>) {
    && states != [] && Initial(layouts, states[0]) && |moves| == |states| - 1
    && forall n | 0 <= n < |moves| :: Step(layouts, states[n], states[n + 1], moves[n].0, moves[n].1)
  }

  lemma ScheduleIsRun(layouts: seq<Layout>, states: seq<State>, moves: seq<(nat, Move)>)
    requires Schedule(layouts, states, moves)
    ensures Run(layouts, states)
  {
    forall n | 0 <= n < |states| - 1 ensures SomeStep(layouts, states[n], states[n + 1]) {
      assert Step(layouts, states[n], states[n + 1], moves[n].0, moves[n].1);
    }
  }

  /** Something outside the race went wrong: a statement failed, or a COMMIT's answer was lost. */
  predicate Accident(move: Move) {
    move == Fail || move == LostCommit
  }

  /** A caller raises only over an accident of its own: the race by itself makes nobody fail. */
  lemma {:induction false} OnlyAccidentsRaise(layouts: seq<Layout>, states: seq<State>, moves: seq<(nat, Move)>,
                                              n: nat, i: nat)
    requires Schedule(layouts, states, moves) && n < |states| && i < |layouts|
    ensures |states[n].callers| == |layouts|
    ensures states[n].callers[i] == OtherRaised || states[n].callers[i] == ConflictRaised ==>
              exists m | 0 <= m < n :: moves[m].0 == i && Accident(moves[m].1)
  {
    ScheduleIsRun(layouts, states, moves);
    RunKeepsInv(layouts, states, n);
    assert CallerOk(states[n], i);
    if n > 0 {
      OnlyAccidentsRaise(layouts, states, moves, n - 1, i);
      assert Step(layouts, states[n - 1], states[n - 1 + 1], moves[n - 1].0, moves[n - 1].1);
      RunKeepsInv(layouts, states, n - 1);
      assert CallerOk(states[n - 1], moves[n - 1].0);
    }
  }

  /** The caller can take a step that is no accident. */
  ghost predicate CanMove(layouts: seq<Layout>, s: State, i: nat) {
    exists s', move :: Step(layouts, s, s', i, move) && !Accident(move)
  }

  ghost predicate Stuck(layouts: seq<Layout>, s: State) {
    forall i | 0 <= i < |layouts| :: !CanMove(layouts, s, i)
  }

  /** Every caller that has not ended can go on: none waits for another. */
  lemma UnfinishedCanMove(layouts: seq<Layout>, s: State, i: nat)
    requires Inv(layouts, s) && i < |layouts|
    ensures CanMove(layouts, s, i) <==> s.callers[i].Starting? || s.callers[i].InTransaction?
  {
    assert CallerOk(s, i);
    match s.callers[i]
    case Starting(attempt) =>
      var s' := s.(callers := s.callers[i := InTransaction(attempt, s.table, false)]);
      assert Step(layouts, s, s', i, Begin);
    case InTransaction(attempt, snapshot, created) =>
      if snapshot.Some? {
        assert Step(layouts, s, s.(callers := s.callers[i := Done]), i, Inspect);
      } else if !created {
        assert Step(layouts, s, s.(callers := s.callers[i := InTransaction(attempt, snapshot, true)]), i, Create);
      } else {
        var s' := CommitOf(layouts, s, i, attempt);
        assert Step(layouts, s, s', i, Commit);
      }
    case _ =>
  }

  lemma CommitOf(layouts: seq<Layout>, s: State, i: nat, attempt: nat) returns (s': State)
    requires i < |s.callers| == |layouts| == |s.conflicts|
    ensures CommitStep(layouts, s, s', i, attempt)
  {
    if s.table.None? {
      s' := State(Some(layouts[i]), s.callers[i := Done], s.creators + [i], s.conflicts);
    } else {
      var next := if attempt == CONFLICT_ATTEMPTS then ConflictRaised else Starting(attempt + 1);
      s' := s.(callers := s.callers[i := next], conflicts := s.conflicts[i := s.conflicts[i] + 1]);
    }
  }

  /** Without accidents, when nobody can go on everybody has returned, and the table is there. */
  lemma EverybodyReturns(layouts: seq<Layout>, states: seq<State>, moves: seq<(nat, Move)>)
    requires Schedule(layouts, states, moves) && layouts != []
    requires forall n | 0 <= n < |moves| :: !Accident(moves[n].1)
    requires Stuck(layouts, states[|states| - 1])
    ensures var s := states[|states| - 1];
            && |s.callers| == |layouts| && s.table.Some? && s.table.value in layouts
            && forall i | 0 <= i < |layouts| :: s.callers[i] == Done
  {
    var s := states[|states| - 1];
    ScheduleIsRun(layouts, states, moves);
    RunKeepsInv(layouts, states, |states| - 1);
    forall i | 0 <= i < |layouts| ensures s.callers[i] == Done {
      OnlyAccidentsRaise(layouts, states, moves, |states| - 1, i);
      UnfinishedCanMove(layouts, s, i);
    }
    assert CallerOk(s, 0);
  }

  ghost function TotalWork(callers: seq<Caller>): nat {
    if callers == [] then 0 else WorkLeft(callers[0]) + TotalWork(callers[1..])
  }

  lemma {:induction false} TotalWorkUpdate(callers: seq<Caller>, i: nat, c: Caller)
    requires i < |callers|
    ensures TotalWork(callers[i := c]) + WorkLeft(callers[i]) == TotalWork(callers) + WorkLeft(c)
  {
    if i == 0 {
      assert callers[i := c][1..] == callers[1..];
    } else {
      assert callers[i := c][1..] == callers[1..][i - 1 := c];
      TotalWorkUpdate(callers[1..], i - 1, c);
    }
  }

  lemma {:induction false} TotalWorkAtFirst(callers: seq<Caller>)
    requires forall i | 0 <= i < |callers| :: callers[i] == Starting(1)
    ensures TotalWork(callers) == 8 * |callers|
  {
    if callers != [] {
      TotalWorkAtFirst(callers[1..]);
    }
  }

  lemma {:induction false} WorkIsSpent(layouts: seq<Layout>, states: seq<State>, moves: seq<(nat, Move)>, n: nat)
    requires Schedule(layouts, states, moves) && n < |states|
    ensures n + TotalWork(states[n].callers) <= 8 * |layouts|
  {
    if n == 0 {
      TotalWorkAtFirst(states[0].callers);
    } else {
      WorkIsSpent(layouts, states, moves, n - 1);
      ScheduleIsRun(layouts, states, moves);
      RunKeepsInv(layouts, states, n - 1);
      var s, s', i := states[n - 1], states[n - 1 + 1], moves[n - 1].0;
      assert Step(layouts, s, s', i, moves[n - 1].1);
      StepsMakeProgress(layouts, s, s', i, moves[n - 1].1);
      assert s'.callers == s.callers[i := s'.callers[i]];
      TotalWorkUpdate(s.callers, i, s'.callers[i]);
    }
  }

  /** No schedule is longer than eight moves a caller. */
  lemma RunsAreShort(layouts: seq<Layout>, states: seq<State>, moves: seq<(nat, Move)>)
    requires Schedule(layouts, states, moves)
    ensures |moves| <= 8 * |layouts|
  {
    WorkIsSpent(layouts, states, moves, |states| - 1);
  }
}
