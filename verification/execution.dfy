/**
 * The run over an eligible window, stated once as a reference that the three
 * copies of `executeMigrations` are proved against, and the rollback engine
 * (`executeRollback`) they all share.
 */
module Execution {
  import opened Migrations

  /** The failure of `m` ends the run: `migrate()` throws and the hint is not Skip. */
  predicate Halts(m: Migration, observer: Option<Observer>, defaultHint: RecoveryHint)
  {
    !m.migrateSucceeds && ChooseHint(observer, defaultHint, m.target) != Skip
  }

  /** Position of the first migration of the window whose failure ends the
      run, or `|w|` when every failure is skipped. */
  function StopIndex(w: seq<Migration>, observer: Option<Observer>, defaultHint: RecoveryHint): (k: nat)
    ensures k <= |w|
    ensures forall i :: 0 <= i < k ==> !Halts(w[i], observer, defaultHint)
    ensures k < |w| ==> Halts(w[k], observer, defaultHint)
  {
    if w == [] then 0
    else if Halts(w[0], observer, defaultHint) then 0
    else 1 + StopIndex(w[1..], observer, defaultHint)
  }

  /** How the migrate phase of a run ended: the migrations that completed and
      were skipped, and the one whose failure ended it with Abort or with
      Rollback (the rollback itself is `RollbackRun` of the completed ones). */
  datatype RunOutcome =
    | Finished(completed: seq<Migration>, skipped: seq<Migration>)
    | Aborted(completed: seq<Migration>, skipped: seq<Migration>, failed: Migration)
    | Reverted(completed: seq<Migration>, skipped: seq<Migration>, failed: Migration)

  /** Reference outcome of running window `w`: everything before the first
      ending failure is either completed or skipped; at that failure the run
      aborts or rolls back; without one it finishes. */
  function Run(w: seq<Migration>, observer: Option<Observer>, defaultHint: RecoveryHint): (out: RunOutcome)
    ensures out.Finished? <==> forall i :: 0 <= i < |w| ==> !Halts(w[i], observer, defaultHint)
    ensures !out.Finished? ==> out.failed in w && Halts(out.failed, observer, defaultHint)
    ensures !out.Finished? ==> (out.Aborted? <==> ChooseHint(observer, defaultHint, out.failed.target) == Abort)
    ensures forall m :: m in out.completed ==> m in w && m.migrateSucceeds
    ensures forall m :: m in out.skipped ==> m in w && !m.migrateSucceeds
  {
    var k := StopIndex(w, observer, defaultHint);
    var completed := WithOutcome(w[..k], true);
    var skipped := WithOutcome(w[..k], false);
    if k == |w| then
      Finished(completed, skipped)
    else if ChooseHint(observer, defaultHint, w[k].target) == Abort then
      Aborted(completed, skipped, w[k])
    else
      Reverted(completed, skipped, w[k])
  }

  /** The migrations whose `migrate()` the run invokes, in order. */
  function Attempted(w: seq<Migration>, observer: Option<Observer>, defaultHint: RecoveryHint): seq<Migration>
  {
    var k := StopIndex(w, observer, defaultHint);
    if k == |w| then w else w[..k + 1]
  }

  /** The run as the loop of `executeMigrations` performs it: from position
      `i` of the window, with the migrations completed and skipped so far. */
  function RunFrom(w: seq<Migration>, i: nat, completed: seq<Migration>, skipped: seq<Migration>,
                   observer: Option<Observer>, defaultHint: RecoveryHint): (out: RunOutcome)
    requires i <= |w|
    ensures |completed| <= |out.completed| && out.completed[..|completed|] == completed
    ensures |skipped| <= |out.skipped| && out.skipped[..|skipped|] == skipped
    ensures !out.Finished? ==> Halts(out.failed, observer, defaultHint)
    decreases |w| - i
  {
    if i == |w| then Finished(completed, skipped)
    else if w[i].migrateSucceeds then RunFrom(w, i + 1, completed + [w[i]], skipped, observer, defaultHint)
    else match ChooseHint(observer, defaultHint, w[i].target)
      case Skip => RunFrom(w, i + 1, completed, skipped + [w[i]], observer, defaultHint)
      case Abort => Aborted(completed, skipped, w[i])
      case Rollback => Reverted(completed, skipped, w[i])
  }

  /** The `migrate()` calls the loop has made once it stops, when it has made
      `attempted` before reaching position `i`. */
  function AttemptedFrom(w: seq<Migration>, i: nat, attempted: seq<Migration>, observer: Option<Observer>, defaultHint: RecoveryHint): seq<Migration>
    requires i <= |w|
    decreases |w| - i
  {
    if i == |w| then attempted
    else if Halts(w[i], observer, defaultHint) then attempted + [w[i]]
    else AttemptedFrom(w, i + 1, attempted + [w[i]], observer, defaultHint)
  }

  /** At the first migration that ends the run, or at the end of the window,
      the loop's outcome is the reference outcome. */
  lemma RunFromAtStop(w: seq<Migration>, observer: Option<Observer>, defaultHint: RecoveryHint)
    ensures var k := StopIndex(w, observer, defaultHint);
      RunFrom(w, k, WithOutcome(w[..k], true), WithOutcome(w[..k], false), observer, defaultHint) == Run(w, observer, defaultHint)
  {
    var k := StopIndex(w, observer, defaultHint);
    if k == |w| {
      assert w[..k] == w;
    }
  }

  /** Up to the first migration that ends the run, the loop's state after `i`
      steps is what the reference run says of the first `i` migrations, and
      continuing from there gives the reference outcome. */
  lemma {:induction false} RunFromAgreesWithRun(w: seq<Migration>, observer: Option<Observer>, defaultHint: RecoveryHint, i: nat)
    requires i <= StopIndex(w, observer, defaultHint)
    ensures RunFrom(w, i, WithOutcome(w[..i], true), WithOutcome(w[..i], false), observer, defaultHint) == Run(w, observer, defaultHint)
    decreases |w| - i
  {
    if i == StopIndex(w, observer, defaultHint) {
      RunFromAtStop(w, observer, defaultHint);
    } else {
      var m := w[i];
      var completed, skipped := WithOutcome(w[..i], true), WithOutcome(w[..i], false);
      WithOutcomeExtend(w, i, true);
      WithOutcomeExtend(w, i, false);
      if m.migrateSucceeds {
        assert WithOutcome(w[..i + 1], true) == completed + [m] && WithOutcome(w[..i + 1], false) == skipped;
        assert RunFrom(w, i, completed, skipped, observer, defaultHint) == RunFrom(w, i + 1, completed + [m], skipped, observer, defaultHint);
      } else {
        assert WithOutcome(w[..i + 1], true) == completed && WithOutcome(w[..i + 1], false) == skipped + [m];
        assert RunFrom(w, i, completed, skipped, observer, defaultHint) == RunFrom(w, i + 1, completed, skipped + [m], observer, defaultHint);
      }
      RunFromAgreesWithRun(w, observer, defaultHint, i + 1);
    }
  }

  /** The same for the `migrate()` calls. */
  lemma {:induction false} AttemptedFromAgreesWithAttempted(w: seq<Migration>, observer: Option<Observer>, defaultHint: RecoveryHint, i: nat)
    requires i <= StopIndex(w, observer, defaultHint)
    ensures AttemptedFrom(w, i, w[..i], observer, defaultHint) == Attempted(w, observer, defaultHint)
    decreases |w| - i
  {
    var k := StopIndex(w, observer, defaultHint);
    if i == |w| {
      assert w[..i] == w;
    } else {
      assert w[..i + 1] == w[..i] + [w[i]];
      if i < k {
        AttemptedFromAgreesWithAttempted(w, observer, defaultHint, i + 1);
      }
    }
  }

  /** The loop, started on the whole window, computes the reference run. */
  lemma LoopComputesRun(w: seq<Migration>, observer: Option<Observer>, defaultHint: RecoveryHint)
    ensures RunFrom(w, 0, [], [], observer, defaultHint) == Run(w, observer, defaultHint)
    ensures AttemptedFrom(w, 0, [], observer, defaultHint) == Attempted(w, observer, defaultHint)
  {
    RunFromAgreesWithRun(w, observer, defaultHint, 0);
    AttemptedFromAgreesWithAttempted(w, observer, defaultHint, 0);
    assert w[..0] == [];
  }

  /** The `i`-th element of `s` counted from the end. */
  function FromEnd<T>(s: seq<T>, i: nat): T
    requires i < |s|
  {
    s[|s| - 1 - i]
  }

  /** `rolledBack` is what the rollback engine reports for `completed`: the
      completed migrations taken from the last one backwards, all of whose
      `rollback()` returned normally, up to the first one that threw. */
  ghost predicate IsRollbackRun(completed: seq<Migration>, rolledBack: seq<Migration>)
  {
    && |rolledBack| <= |completed|
    && (forall i :: 0 <= i < |rolledBack| ==> rolledBack[i] == FromEnd(completed, i) && FromEnd(completed, i).rollbackSucceeds)
    && (|rolledBack| < |completed| ==> !FromEnd(completed, |rolledBack|).rollbackSucceeds)
  }

  /** Reference rollback run: what the reports of a Rollback outcome hold
      as rolled back. */
  function RollbackRun(completed: seq<Migration>): (rolledBack: seq<Migration>)
    ensures IsRollbackRun(completed, rolledBack)
  {
    if completed == [] then []
    else
      var last := completed[|completed| - 1];
      if last.rollbackSucceeds then [last] + RollbackRun(completed[..|completed| - 1]) else []
  }

  /** At most one sequence is a rollback run of `completed`. */
  lemma RollbackRunUnique(completed: seq<Migration>, rolledBack: seq<Migration>)
    requires IsRollbackRun(completed, rolledBack)
    ensures rolledBack == RollbackRun(completed)
  {
    var r := RollbackRun(completed);
    assert forall i :: 0 <= i < |r| ==> r[i] == rolledBack[i];
  }

  /** The migrations whose `rollback()` the engine invokes, in order: the
      rolled-back ones and, if any, the one whose rollback threw. */
  function RollbackAttempts(completed: seq<Migration>): seq<Migration>
  {
    var n := |RollbackRun(completed)|;
    if n == |completed| then Reverse(completed) else Reverse(completed)[..n + 1]
  }

  /** The rollback calls a run outcome made. */
  function RollbackCalls(outcome: RunOutcome): seq<Migration>
  {
    if outcome.Reverted? then RollbackAttempts(outcome.completed) else []
  }

  /** `executeRollback(completedMigrations)`: rolls back in reverse completion
      order and stops at the first `rollback()` that throws. */
  method ExecuteRollback(completedMigrations: seq<Migration>) returns (rolledBack: seq<Migration>, ghost attempted: seq<Migration>)
    ensures IsRollbackRun(completedMigrations, rolledBack)
    ensures attempted == RollbackAttempts(completedMigrations)
  {
    var reversed := Reverse(completedMigrations);
    rolledBack := [];
    attempted := [];
    var i := 0;
    while i < |reversed|
      invariant 0 <= i <= |reversed|
      invariant rolledBack == reversed[..i]
      invariant forall j :: 0 <= j < i ==> reversed[j].rollbackSucceeds
      invariant attempted == reversed[..i]
    {
      var migration := reversed[i];
      attempted := attempted + [migration];
      if !migration.rollbackSucceeds {
        RollbackRunUnique(completedMigrations, rolledBack);
        assert reversed[..i + 1] == reversed[..i] + [migration];
        return;
      }
      rolledBack := rolledBack + [migration];
      i := i + 1;
    }
    RollbackRunUnique(completedMigrations, rolledBack);
  }

  /** Each rolled-back migration is a completed one, and no other completed
      migration shares its target. */
  lemma RolledBackAreCompleted(completed: seq<Migration>)
    requires DistinctTargets(completed)
    ensures forall x :: x in RollbackRun(completed) ==> x in completed
    ensures forall x, y :: x in RollbackRun(completed) && y in completed && x.target == y.target ==> x == y
  {
    var rb := RollbackRun(completed);
    forall x | x in rb ensures x in completed && forall y :: y in completed && x.target == y.target ==> x == y {
      var i :| 0 <= i < |rb| && rb[i] == x;
      assert x == completed[|completed| - 1 - i];
    }
  }

  /** With no repeats among the completed migrations, removing the rolled-back
      ones leaves exactly those older than the rolled-back suffix. */
  lemma RollbackLeavesPrefix(completed: seq<Migration>)
    ensures Distinct(completed) ==>
      Without(completed, RollbackRun(completed)) == completed[..|completed| - |RollbackRun(completed)|]
  {
    if Distinct(completed) {
      var rb := RollbackRun(completed);
      RollbackRunIsReversedSuffix(completed, rb);
      SplitOffSuffix(completed, |rb|);
    }
  }

  /** A rollback run removes a suffix of `completed`: what is left, followed by
      the rolled-back migrations in completion order, is `completed` again. */
  lemma RollbackRunSplitsCompleted(completed: seq<Migration>)
    requires Distinct(completed)
    ensures Without(completed, RollbackRun(completed)) + Reverse(RollbackRun(completed)) == completed
  {
    var rb := RollbackRun(completed);
    var suffix := completed[|completed| - |rb|..];
    RollbackRunIsReversedSuffix(completed, rb);
    SplitOffSuffix(completed, |rb|);
    assert Without(completed, rb) + Reverse(rb) == Without(completed, Reverse(suffix)) + suffix;
  }

  /** A rollback run is the suffix of the completed migrations it covers, in
      reverse. */
  lemma RollbackRunIsReversedSuffix(completed: seq<Migration>, rb: seq<Migration>)
    requires IsRollbackRun(completed, rb)
    ensures Reverse(rb) == completed[|completed| - |rb|..]
    ensures rb == Reverse(completed[|completed| - |rb|..])
  {
    var n := |rb|;
    var suffix := completed[|completed| - n..];
    forall i | 0 <= i < n ensures Reverse(rb)[i] == suffix[i] {
      assert rb[n - 1 - i] == FromEnd(completed, n - 1 - i);
    }
    forall i | 0 <= i < n ensures rb[i] == Reverse(suffix)[i] {
      assert rb[i] == FromEnd(completed, i);
    }
  }

  /** A window holding a migration whose failure ends the run does not
      finish. */
  lemma HaltingMemberStopsRun(w: seq<Migration>, m: Migration, observer: Option<Observer>, defaultHint: RecoveryHint)
    requires m in w && Halts(m, observer, defaultHint)
    ensures !Run(w, observer, defaultHint).Finished?
  {
    var j :| 0 <= j < |w| && w[j] == m;
    assert StopIndex(w, observer, defaultHint) <= j;
  }

  /** The run finishes exactly when no failure ends it; it then completes the
      migrations that migrate and skips the others, each exactly once, and
      keeps the window's order in both lists. */
  lemma FinishedRunPartitionsWindow(w: seq<Migration>, observer: Option<Observer>, defaultHint: RecoveryHint)
    requires StrictlyAscending(Targets(w))
    ensures Run(w, observer, defaultHint).Finished? <==> forall m :: m in w ==> !Halts(m, observer, defaultHint)
    ensures Run(w, observer, defaultHint).Finished? ==>
      var out := Run(w, observer, defaultHint);
      && (forall m :: m in out.completed <==> m in w && m.migrateSucceeds)
      && (forall m :: m in out.skipped <==> m in w && !m.migrateSucceeds)
      && multiset(out.completed + out.skipped) == multiset(w)
      && StrictlyAscending(Targets(out.completed))
      && StrictlyAscending(Targets(out.skipped))
  {
    var k := StopIndex(w, observer, defaultHint);
    if k < |w| {
      assert w[k] in w;
    } else {
      assert w[..k] == w;
      WithOutcomePartition(w);
      WithOutcomeStrictlyAscending(w, true);
      WithOutcomeStrictlyAscending(w, false);
    }
  }

  /** A run that does not finish stops at the first ending failure: that
      migration is reported as failed, everything before it is completed or
      skipped (in window order), and nothing after it is attempted. */
  lemma HaltedRunStopsAtFirstFailure(w: seq<Migration>, observer: Option<Observer>, defaultHint: RecoveryHint)
    requires StrictlyAscending(Targets(w))
    ensures !Run(w, observer, defaultHint).Finished? ==>
      var out := Run(w, observer, defaultHint);
      var k := StopIndex(w, observer, defaultHint);
      && |out.completed| + |out.skipped| == k < |w|
      && out.failed == w[k]
      && Halts(out.failed, observer, defaultHint)
      && (forall i :: 0 <= i < k ==> !Halts(w[i], observer, defaultHint))
      && multiset(out.completed + out.skipped) == multiset(w[..k])
      && StrictlyAscending(Targets(out.completed))
      && StrictlyAscending(Targets(out.skipped))
      && Attempted(w, observer, defaultHint) == w[..k + 1]
      && (out.Aborted? <==> ChooseHint(observer, defaultHint, out.failed.target) == Abort)
  {
    HaltedRunPosition(w, observer, defaultHint);
    var k := StopIndex(w, observer, defaultHint);
    if k < |w| {
      PassedPrefixSplits(w, k);
    }
  }

  /** Where a run that does not finish stops, and what it attempted. */
  lemma HaltedRunPosition(w: seq<Migration>, observer: Option<Observer>, defaultHint: RecoveryHint)
    ensures var out := Run(w, observer, defaultHint);
      var k := StopIndex(w, observer, defaultHint);
      && (out.Finished? <==> k == |w|)
      && (k < |w| ==>
        && out.completed == WithOutcome(w[..k], true)
        && out.skipped == WithOutcome(w[..k], false)
        && out.failed == w[k]
        && Attempted(w, observer, defaultHint) == w[..k + 1]
        && (out.Aborted? <==> ChooseHint(observer, defaultHint, w[k].target) == Abort))
  {
  }

  /** `PrefixSplits` for the first `k` migrations of a strictly ascending window. */
  lemma PassedPrefixSplits(w: seq<Migration>, k: nat)
    requires StrictlyAscending(Targets(w)) && k <= |w|
    ensures |WithOutcome(w[..k], true)| + |WithOutcome(w[..k], false)| == k
    ensures multiset(WithOutcome(w[..k], true) + WithOutcome(w[..k], false)) == multiset(w[..k])
    ensures StrictlyAscending(Targets(WithOutcome(w[..k], true)))
    ensures StrictlyAscending(Targets(WithOutcome(w[..k], false)))
  {
    assert Targets(w[..k]) == Targets(w)[..k];
    PrefixSplits(w[..k]);
  }

  /** What a run keeps of the migrations it passed: both outcome classes, in order. */
  lemma PrefixSplits(prefix: seq<Migration>)
    requires StrictlyAscending(Targets(prefix))
    ensures |WithOutcome(prefix, true)| + |WithOutcome(prefix, false)| == |prefix|
    ensures multiset(WithOutcome(prefix, true) + WithOutcome(prefix, false)) == multiset(prefix)
    ensures StrictlyAscending(Targets(WithOutcome(prefix, true)))
    ensures StrictlyAscending(Targets(WithOutcome(prefix, false)))
  {
    WithOutcomePartition(prefix);
    WithOutcomeSizes(prefix);
    WithOutcomeStrictlyAscending(prefix, true);
    WithOutcomeStrictlyAscending(prefix, false);
  }

  /** The rollback calls are the rolled-back migrations followed, when the
      engine stopped early, by the one whose rollback threw. */
  lemma RollbackAttemptsShape(c: seq<Migration>)
    ensures var rb := RollbackRun(c);
      RollbackAttempts(c) == (if |rb| == |c| then rb else rb + [c[|c| - 1 - |rb|]])
  {
    var rb := RollbackRun(c);
    if |rb| == |c| {
      assert RollbackAttempts(c) == Reverse(c);
      ReverseIsRollbackRun(c, rb);
    } else {
      assert RollbackAttempts(c) == Reverse(c)[..|rb| + 1];
      ReversePrefixIsRollbackRun(c, rb);
    }
  }

  /** A rollback run over every completed migration is their reverse. */
  lemma ReverseIsRollbackRun(c: seq<Migration>, rb: seq<Migration>)
    requires IsRollbackRun(c, rb) && |rb| == |c|
    ensures Reverse(c) == rb
  {
    forall i | 0 <= i < |c| ensures Reverse(c)[i] == rb[i] {
      assert rb[i] == FromEnd(c, i);
    }
  }

  /** A rollback run that stops early, followed by the migration it stopped
      at, is the start of the reverse. */
  lemma ReversePrefixIsRollbackRun(c: seq<Migration>, rb: seq<Migration>)
    requires IsRollbackRun(c, rb) && |rb| < |c|
    ensures Reverse(c)[..|rb| + 1] == rb + [c[|c| - 1 - |rb|]]
  {
    var tail := rb + [c[|c| - 1 - |rb|]];
    forall i | 0 <= i <= |rb| ensures Reverse(c)[i] == tail[i] {
      if i < |rb| {
        assert rb[i] == FromEnd(c, i);
      }
    }
  }

  /** Without an observer every decision is the default hint; with Abort as the
      default (the initial setting) no run skips or rolls back anything. */
  lemma DefaultAbortNeverSkipsOrRollsBack(w: seq<Migration>)
    ensures var out := Run(w, None, Abort);
      && !out.Reverted?
      && out.skipped == []
      && (out.Finished? ==> forall m :: m in w ==> m.migrateSucceeds)
  {
    var k := StopIndex(w, None, Abort);
    assert forall i :: 0 <= i < k ==> w[..k][i].migrateSucceeds by {
      forall i | 0 <= i < k ensures w[..k][i].migrateSucceeds {
        assert !Halts(w[i], None, Abort);
      }
    }
    AllMigratedNoneFailed(w[..k]);
    if k == |w| {
      assert w[..k] == w;
    }
  }

  /** An empty window finishes with nothing completed and nothing skipped. */
  lemma EmptyWindowFinishes(observer: Option<Observer>, defaultHint: RecoveryHint)
    ensures Run([], observer, defaultHint) == Finished([], [])
    ensures Attempted([], observer, defaultHint) == []
  {
  }
}
