/**
 * The multiplatform migrator (`library/src/commonMain/.../IcarionMigrator.kt`):
 * a registry of migrations with unique target versions, a running flag, and
 * `executeMigrations`, which runs the eligible window in ascending target order
 * and reports target versions in a five-field Failure.
 */
module Migrator {
  import opened Migrations
  import opened Window
  import opened Execution

  /** `IcarionMigrationsResult`, with versions as target keys. */
  datatype MigrationsResult =
    | Success(completedMigrations: seq<int>, skippedMigrations: seq<int>)
    | Failure(
        completedNotRolledBackMigrations: seq<int>,
        skippedMigrations: seq<int>,
        rolledBackMigrations: seq<int>,
        eligibleMigrations: seq<int>,
        failedMigration: int)
    | AlreadyRunning

  /** `abortMigration`: nothing is rolled back, everything completed stays completed. */
  function AbortMigration(allMigrations: seq<Migration>, completed: seq<Migration>, skipped: seq<Migration>, failedMigration: Migration): (r: MigrationsResult)
    ensures r.Failure? && r.rolledBackMigrations == []
    ensures r.completedNotRolledBackMigrations == Targets(completed) && r.skippedMigrations == Targets(skipped)
    ensures r.eligibleMigrations == Targets(allMigrations) && r.failedMigration == failedMigration.target
  {
    Failure(Targets(completed), Targets(skipped), [], Targets(allMigrations), failedMigration.target)
  }

  /** The report `executeMigrations` returns for a run of window `w`. */
  function Report(w: seq<Migration>, out: RunOutcome): (r: MigrationsResult)
    ensures !r.AlreadyRunning?
    ensures r.Success? <==> out.Finished?
    ensures r.Success? ==> r.completedMigrations == Targets(out.completed) && r.skippedMigrations == Targets(out.skipped)
    ensures r.Failure? ==>
      && r.skippedMigrations == Targets(out.skipped)
      && r.eligibleMigrations == Targets(w)
      && r.failedMigration == out.failed.target
      && (out.Aborted? ==> r.rolledBackMigrations == [] && r.completedNotRolledBackMigrations == Targets(out.completed))
      && (out.Reverted? ==> r.rolledBackMigrations == Targets(RollbackRun(out.completed)))
  {
    match out
    case Finished(completed, skipped) => Success(Targets(completed), Targets(skipped))
    case Aborted(completed, skipped, failed) => AbortMigration(w, completed, skipped, failed)
    case Reverted(completed, skipped, failed) =>
      var rolledBack := RollbackRun(completed);
      Failure(Without(Targets(completed), Targets(rolledBack)), Targets(skipped), Targets(rolledBack), Targets(w), failed.target)
  }

  class IcarionMigrator {
    var migrationObserver: Option<Observer>
    var defaultFailureRecoveryHint: RecoveryHint
    var migrationsRunning: bool
    /** The registered migrations, in registration order (a linked hash set). */
    var migrations: seq<Migration>
    /** Every `migrate()` and `rollback()` call made, in order. */
    ghost var migrateCalls: seq<Migration>
    ghost var rollbackCalls: seq<Migration>

    /** No two registered migrations target the same version. */
    ghost predicate Valid()
      reads this`migrations
    {
      DistinctTargets(migrations)
    }

    constructor ()
      ensures Valid()
      ensures migrationObserver == None && defaultFailureRecoveryHint == Abort
      ensures !migrationsRunning && migrations == []
      ensures migrateCalls == [] && rollbackCalls == []
    {
      migrationObserver := None;
      defaultFailureRecoveryHint := Abort;
      migrationsRunning := false;
      migrations := [];
      migrateCalls := [];
      rollbackCalls := [];
    }

    /** `registerMigration`: refused while running, refused for a target that
        is already registered, otherwise appended. */
    method RegisterMigration(migration: Migration) returns (outcome: RegisterOutcome)
      requires Valid()
      modifies this`migrations
      ensures Valid()
      ensures outcome == (if migrationsRunning then IllegalState
                          else if migration.target in Targets(old(migrations)) then DuplicateVersion
                          else Registered)
      ensures migrations == if outcome == Registered then old(migrations) + [migration] else old(migrations)
    {
      if migrationsRunning {
        return IllegalState;
      }
      if migration.target in Targets(migrations) {
        return DuplicateVersion;
      }
      forall x | x in migrations ensures x.target != migration.target {
        var j :| 0 <= j < |migrations| && migrations[j] == x;
        assert Targets(migrations)[j] == x.target;
      }
      migrations := migrations + [migration];
      outcome := Registered;
    }

    /** `executeMigrations(fromVersion, toVersionInclusive)`. Refused while a
        run is in progress; otherwise the run of the eligible window as
        `Execution.Run` describes it. The running flag is cleared only when the
        run succeeds. */
    method ExecuteMigrations(fromVersion: int, toVersionInclusive: int) returns (result: MigrationsResult)
      modifies this`migrationsRunning, this`migrateCalls, this`rollbackCalls
      ensures old(migrationsRunning) ==>
        && result == AlreadyRunning && migrationsRunning
        && migrateCalls == old(migrateCalls) && rollbackCalls == old(rollbackCalls)
      ensures !old(migrationsRunning) ==>
        var w := EligibleMigrations(migrations, fromVersion, toVersionInclusive);
        var out := Run(w, migrationObserver, defaultFailureRecoveryHint);
        && result == Report(w, out)
        && migrationsRunning == !result.Success?
        && migrateCalls == old(migrateCalls) + Attempted(w, migrationObserver, defaultFailureRecoveryHint)
        && rollbackCalls == old(rollbackCalls) + RollbackCalls(out)
    {
      if migrationsRunning {
        return AlreadyRunning;
      }
      migrationsRunning := true;
      var eligibleMigrations := EligibleMigrations(migrations, fromVersion, toVersionInclusive);
      result := MigrateWindow(eligibleMigrations);
      LoopComputesRun(eligibleMigrations, migrationObserver, defaultFailureRecoveryHint);
    }

    /** The `forEach` over the eligible window inside `executeMigrations`, with
        the running flag set: each migration either completes, is skipped, or
        ends the run by abort or rollback. */
    method MigrateWindow(eligibleMigrations: seq<Migration>) returns (result: MigrationsResult)
      requires migrationsRunning
      modifies this`migrationsRunning, this`migrateCalls, this`rollbackCalls
      ensures var out := RunFrom(eligibleMigrations, 0, [], [], migrationObserver, defaultFailureRecoveryHint);
        && result == Report(eligibleMigrations, out)
        && migrationsRunning == !result.Success?
        && migrateCalls == old(migrateCalls) + AttemptedFrom(eligibleMigrations, 0, [], migrationObserver, defaultFailureRecoveryHint)
        && rollbackCalls == old(rollbackCalls) + RollbackCalls(out)
    {
      var observer, defaultHint := migrationObserver, defaultFailureRecoveryHint;
      var completedMigrations: seq<Migration> := [];
      var skippedMigrations: seq<Migration> := [];
      ghost var outcome := RunFrom(eligibleMigrations, 0, [], [], observer, defaultHint);
      ghost var calls := AttemptedFrom(eligibleMigrations, 0, [], observer, defaultHint);
      ghost var attempted: seq<Migration> := [];
      var i := 0;
      while i < |eligibleMigrations|
        invariant i <= |eligibleMigrations|
        invariant RunFrom(eligibleMigrations, i, completedMigrations, skippedMigrations, observer, defaultHint) == outcome
        invariant AttemptedFrom(eligibleMigrations, i, attempted, observer, defaultHint) == calls
        invariant migrationsRunning
        invariant migrateCalls == old(migrateCalls) && rollbackCalls == old(rollbackCalls)
      {
        var migration := eligibleMigrations[i];
        attempted := attempted + [migration];
        if migration.migrateSucceeds {
          completedMigrations := completedMigrations + [migration];
        } else {
          var recoveryHint := ChooseHint(observer, defaultHint, migration.target);
          match recoveryHint
          case Skip =>
            skippedMigrations := skippedMigrations + [migration];
          case Abort =>
            assert outcome == Aborted(completedMigrations, skippedMigrations, migration);
            assert attempted == calls;
            result := AbortMigration(eligibleMigrations, completedMigrations, skippedMigrations, migration);
            migrateCalls := migrateCalls + attempted;
            return;
          case Rollback =>
            assert outcome == Reverted(completedMigrations, skippedMigrations, migration);
            assert attempted == calls;
            migrateCalls := migrateCalls + attempted;
            result := RollbackMigration(eligibleMigrations, completedMigrations, skippedMigrations, migration);
            return;
        }
        i := i + 1;
      }
      assert outcome == Finished(completedMigrations, skippedMigrations) && attempted == calls;
      result := Success(Targets(completedMigrations), Targets(skippedMigrations));
      migrateCalls := migrateCalls + attempted;
      migrationsRunning := false;
    }

    /** `rollbackMigration`: rolls back the completed migrations newest first
        and reports the completed targets that were not rolled back. */
    method RollbackMigration(allMigrations: seq<Migration>, completed: seq<Migration>, skipped: seq<Migration>, failedMigration: Migration)
      returns (result: MigrationsResult)
      modifies this`rollbackCalls
      ensures result == Report(allMigrations, Reverted(completed, skipped, failedMigration))
      ensures rollbackCalls == old(rollbackCalls) + RollbackAttempts(completed)
    {
      var rolledBackMigrations;
      ghost var attempted;
      rolledBackMigrations, attempted := ExecuteRollback(completed);
      rollbackCalls := rollbackCalls + attempted;
      RollbackRunUnique(completed, rolledBackMigrations);
      result := Failure(
        Without(Targets(completed), Targets(rolledBackMigrations)),
        Targets(skipped),
        Targets(rolledBackMigrations),
        Targets(allMigrations),
        failedMigration.target);
    }
  }

  /** Under a rollback, the completed targets that were not rolled back,
      followed by the rolled-back targets in completion order, are exactly the
      completed targets. */
  lemma RevertedReportSplitsCompleted(w: seq<Migration>, completed: seq<Migration>, skipped: seq<Migration>, failed: Migration)
    requires StrictlyAscending(Targets(completed))
    ensures var r := Report(w, Reverted(completed, skipped, failed));
      r.completedNotRolledBackMigrations + Reverse(r.rolledBackMigrations) == Targets(completed)
  {
    RollbackSplitsTargets(completed);
  }

  /** `RollbackRunSplitsCompleted`, on target versions. */
  lemma RollbackSplitsTargets(completed: seq<Migration>)
    requires StrictlyAscending(Targets(completed))
    ensures var rb := Targets(RollbackRun(completed));
      Without(Targets(completed), rb) + Reverse(rb) == Targets(completed)
  {
    var rb := RollbackRun(completed);
    StrictlyAscendingDistinct(completed);
    RolledBackAreCompleted(completed);
    TargetsWithout(completed, rb);
    RollbackRunSplitsCompleted(completed);
    TargetsConcat(Without(completed, rb), Reverse(rb));
    ReverseTargets(rb);
  }

  /** The three target lists of a Failure together account for the migrations
      before the failed one. */
  lemma FailureCountsPassedMigrations(w: seq<Migration>, observer: Option<Observer>, defaultHint: RecoveryHint)
    requires StrictlyAscending(Targets(w))
    ensures var out := Run(w, observer, defaultHint);
      var r := Report(w, out);
      r.Failure? ==>
        |r.completedNotRolledBackMigrations| + |r.rolledBackMigrations| == |out.completed|
        && r.skippedMigrations == Targets(out.skipped)
        && r.failedMigration == out.failed.target
  {
    var out := Run(w, observer, defaultHint);
    HaltedRunStopsAtFirstFailure(w, observer, defaultHint);
    if out.Reverted? {
      RevertedReportSplitsCompleted(w, out.completed, out.skipped, out.failed);
    }
  }

  /** A run succeeds exactly when no failure ends it. Every eligible
      migration is then reported once: as completed when its `migrate()`
      returned normally, as skipped otherwise, both lists in ascending order. */
  lemma SuccessReportsEveryEligibleMigration(w: seq<Migration>, observer: Option<Observer>, defaultHint: RecoveryHint)
    requires StrictlyAscending(Targets(w))
    ensures var r := Report(w, Run(w, observer, defaultHint));
      && (r.Success? <==> forall m :: m in w ==> !Halts(m, observer, defaultHint))
      && (r.Success? ==>
        && (forall m :: m in w ==> (m.target in r.completedMigrations <==> m.migrateSucceeds))
        && (forall m :: m in w ==> (m.target in r.skippedMigrations <==> !m.migrateSucceeds))
        && |r.completedMigrations| + |r.skippedMigrations| == |w|
        && StrictlyAscending(r.completedMigrations)
        && StrictlyAscending(r.skippedMigrations))
  {
    var out := Run(w, observer, defaultHint);
    FinishedRunPartitionsWindow(w, observer, defaultHint);
    if out.Finished? {
      StrictlyAscendingDistinct(w);
      forall m | m in w
        ensures m.target in Targets(out.completed) <==> m in out.completed
        ensures m.target in Targets(out.skipped) <==> m in out.skipped
      {
        TargetInSubRun(m, out.completed, w);
        TargetInSubRun(m, out.skipped, w);
      }
      assert |out.completed + out.skipped| == |multiset(w)|;
    }
  }

  /** A Failure names the first eligible migration whose failure was not
      skipped; every migration before it was completed or skipped, each once;
      the skipped ones are those whose `migrate()` threw; and the eligible
      list is the whole window. */
  lemma FailureNamesFirstEndingFailure(w: seq<Migration>, observer: Option<Observer>, defaultHint: RecoveryHint)
    requires StrictlyAscending(Targets(w))
    ensures var r, k := Report(w, Run(w, observer, defaultHint)), StopIndex(w, observer, defaultHint);
      r.Failure? ==>
        && k < |w|
        && |r.completedNotRolledBackMigrations| + |r.rolledBackMigrations| + |r.skippedMigrations| == k
        && r.eligibleMigrations == Targets(w)
        && r.failedMigration == w[k].target
        && Halts(w[k], observer, defaultHint)
        && (forall i :: 0 <= i < k ==> !Halts(w[i], observer, defaultHint))
        && (forall i :: 0 <= i < k ==> (w[i].target in r.skippedMigrations <==> !w[i].migrateSucceeds))
        && StrictlyAscending(r.skippedMigrations)
  {
    var out := Run(w, observer, defaultHint);
    var r := Report(w, out);
    if !out.Finished? {
      var k := StopIndex(w, observer, defaultHint);
      assert |out.completed| + |out.skipped| == k < |w| && out.failed == w[k]
          && StrictlyAscending(Targets(out.skipped)) by {
        HaltedRunStopsAtFirstFailure(w, observer, defaultHint);
      }
      assert |r.completedNotRolledBackMigrations| + |r.rolledBackMigrations| == |out.completed|
          && r.skippedMigrations == Targets(out.skipped)
          && r.failedMigration == out.failed.target
          && r.eligibleMigrations == Targets(w) by {
        FailureCountsPassedMigrations(w, observer, defaultHint);
      }
      forall i | 0 <= i < k
        ensures w[i].target in r.skippedMigrations <==> !w[i].migrateSucceeds
      {
        PassedMigrationSkippedIffThrew(w, observer, defaultHint, i);
      }
      assert |r.completedNotRolledBackMigrations| + |r.rolledBackMigrations| + |r.skippedMigrations| == k;
    }
  }

  /** A migration the run passed before stopping is among the skipped targets
      exactly when its `migrate()` threw. */
  lemma PassedMigrationSkippedIffThrew(w: seq<Migration>, observer: Option<Observer>, defaultHint: RecoveryHint, i: nat)
    requires StrictlyAscending(Targets(w))
    requires i < StopIndex(w, observer, defaultHint)
    ensures w[i].target in Targets(Run(w, observer, defaultHint).skipped) <==> !w[i].migrateSucceeds
  {
    var k := StopIndex(w, observer, defaultHint);
    var skipped := Run(w, observer, defaultHint).skipped;
    assert skipped == WithOutcome(w[..k], false);
    assert w[i] == w[..k][i];
    StrictlyAscendingDistinct(w);
    TargetInSubRun(w[i], skipped, w);
  }

  /** Under Abort nothing is rolled back: the completed targets are reported
      as completed-not-rolled-back, in ascending order, and they are exactly
      the migrations before the failed one whose `migrate()` returned normally. */
  lemma AbortKeepsEveryCompletedMigration(w: seq<Migration>, observer: Option<Observer>, defaultHint: RecoveryHint)
    requires StrictlyAscending(Targets(w))
    ensures var r := Report(w, Run(w, observer, defaultHint));
      r.Failure? && ChooseHint(observer, defaultHint, r.failedMigration) == Abort ==>
        var k := |r.completedNotRolledBackMigrations| + |r.skippedMigrations|;
        && r.rolledBackMigrations == []
        && k < |w|
        && StrictlyAscending(r.completedNotRolledBackMigrations)
        && (forall i :: 0 <= i < k ==> (w[i].target in r.completedNotRolledBackMigrations <==> w[i].migrateSucceeds))
  {
    var out := Run(w, observer, defaultHint);
    var r := Report(w, out);
    if !out.Finished? {
      HaltedRunStopsAtFirstFailure(w, observer, defaultHint);
      if out.Aborted? {
        assert r.completedNotRolledBackMigrations == Targets(out.completed);
        forall i | 0 <= i < StopIndex(w, observer, defaultHint)
          ensures w[i].target in r.completedNotRolledBackMigrations <==> w[i].migrateSucceeds
        {
          PassedMigrationCompletedIffMigrated(w, observer, defaultHint, i);
        }
      }
    }
  }

  /** A migration the run passed before stopping is among the completed
      targets exactly when its `migrate()` returned normally. */
  lemma PassedMigrationCompletedIffMigrated(w: seq<Migration>, observer: Option<Observer>, defaultHint: RecoveryHint, i: nat)
    requires StrictlyAscending(Targets(w))
    requires i < StopIndex(w, observer, defaultHint)
    ensures w[i].target in Targets(Run(w, observer, defaultHint).completed) <==> w[i].migrateSucceeds
  {
    var k := StopIndex(w, observer, defaultHint);
    var completed := Run(w, observer, defaultHint).completed;
    assert completed == WithOutcome(w[..k], true);
    assert w[i] == w[..k][i];
    StrictlyAscendingDistinct(w);
    TargetInSubRun(w[i], completed, w);
  }

  /** Under Rollback the completed migrations are undone newest first: the
      targets left completed followed by the rolled-back targets reversed are
      the completed targets in ascending order; every rolled-back migration's
      `rollback()` returned normally, and when some completed migration is
      left, the newest of them is the one whose `rollback()` threw. */
  lemma RollbackUndoesNewestFirst(w: seq<Migration>, observer: Option<Observer>, defaultHint: RecoveryHint)
    requires StrictlyAscending(Targets(w))
    ensures var r := Report(w, Run(w, observer, defaultHint));
      r.Failure? && ChooseHint(observer, defaultHint, r.failedMigration) == Rollback ==>
        var left := r.completedNotRolledBackMigrations;
        var done := left + Reverse(r.rolledBackMigrations);
        && StrictlyAscending(done)
        && |done| + |r.skippedMigrations| < |w|
        && (forall i :: 0 <= i < |done| + |r.skippedMigrations| ==> (w[i].target in done <==> w[i].migrateSucceeds))
        && (forall m :: m in w && m.target in r.rolledBackMigrations ==> m.rollbackSucceeds)
        && (left != [] ==> forall m :: m in w && m.target == left[|left| - 1] ==> !m.rollbackSucceeds)
  {
    var out := Run(w, observer, defaultHint);
    var r := Report(w, out);
    if !out.Finished? {
      HaltedRunStopsAtFirstFailure(w, observer, defaultHint);
      if out.Reverted? {
        var c := out.completed;
        var rb := RollbackRun(c);
        RevertedReportSplitsCompleted(w, c, out.skipped, out.failed);
        forall i | 0 <= i < StopIndex(w, observer, defaultHint)
          ensures w[i].target in Targets(c) <==> w[i].migrateSucceeds
        {
          PassedMigrationCompletedIffMigrated(w, observer, defaultHint, i);
        }
        assert c == WithOutcome(w[..StopIndex(w, observer, defaultHint)], true);
        StrictlyAscendingDistinct(w);
        RolledBackMigrationsInWindow(w, c);
      }
    }
  }

  /** The rollback of completed migrations drawn from a window with distinct
      targets: every migration of the window whose target was rolled back
      has a working `rollback()`, and the newest target left completed
      belongs to the migration whose `rollback()` threw. */
  lemma RolledBackMigrationsInWindow(w: seq<Migration>, c: seq<Migration>)
    requires DistinctTargets(w) && StrictlyAscending(Targets(c))
    requires forall x :: x in c ==> x in w
    ensures var rb := RollbackRun(c);
      var left := Without(Targets(c), Targets(rb));
      && (forall m :: m in w && m.target in Targets(rb) ==> m.rollbackSucceeds)
      && (left != [] ==> forall m :: m in w && m.target == left[|left| - 1] ==> !m.rollbackSucceeds)
  {
    RolledBackHaveWorkingRollback(w, c);
    NewestLeftHasFailingRollback(w, c);
  }

  lemma RolledBackHaveWorkingRollback(w: seq<Migration>, c: seq<Migration>)
    requires DistinctTargets(w)
    requires forall x :: x in c ==> x in w
    ensures forall m :: m in w && m.target in Targets(RollbackRun(c)) ==> m.rollbackSucceeds
  {
    var rb := RollbackRun(c);
    forall x | x in rb ensures x in c {
      var i :| 0 <= i < |rb| && rb[i] == x;
      assert x == FromEnd(c, i);
    }
    forall m | m in w && m.target in Targets(rb) ensures m.rollbackSucceeds {
      TargetInSubRun(m, rb, w);
      var i :| 0 <= i < |rb| && rb[i] == m;
    }
  }

  lemma NewestLeftHasFailingRollback(w: seq<Migration>, c: seq<Migration>)
    requires DistinctTargets(w) && StrictlyAscending(Targets(c))
    requires forall x :: x in c ==> x in w
    ensures var left := Without(Targets(c), Targets(RollbackRun(c)));
      left != [] ==> forall m :: m in w && m.target == left[|left| - 1] ==> !m.rollbackSucceeds
  {
    var rb := RollbackRun(c);
    var left := Without(Targets(c), Targets(rb));
    RollbackSplitsTargets(c);
    if left != [] {
      var stuck := FromEnd(c, |rb|);
      assert left[|left| - 1] == Targets(c)[|left| - 1] == stuck.target;
      assert stuck in c;
      forall m | m in w && m.target == left[|left| - 1] ensures !m.rollbackSucceeds {
        TargetInSubRun(m, [stuck], w);
      }
    }
  }

  /** An empty range, or an empty registry, gives `Success([], [])`. */
  lemma EmptyRangeSucceedsWithNothing(registry: seq<Migration>, fromVersion: int, toVersionInclusive: int,
                                      observer: Option<Observer>, defaultHint: RecoveryHint)
    requires registry == [] || toVersionInclusive <= fromVersion
    ensures var w := EligibleMigrations(registry, fromVersion, toVersionInclusive);
      Report(w, Run(w, observer, defaultHint)) == Success([], [])
  {
    if toVersionInclusive <= fromVersion {
      EmptyRangeSelectsNothing(registry, fromVersion, toVersionInclusive);
    }
    EmptyWindowFinishes(observer, defaultHint);
  }

  /** With the initial settings (no observer, default hint Abort) a run never
      skips and never rolls back; it succeeds only if every eligible migration
      migrates. */
  lemma DefaultSettingsNeverSkipOrRollBack(w: seq<Migration>)
    ensures var r := Report(w, Run(w, None, Abort));
      && (r.Success? ==> r.skippedMigrations == [] && forall m :: m in w ==> m.migrateSucceeds)
      && (r.Failure? ==> r.skippedMigrations == [] && r.rolledBackMigrations == [])
  {
    DefaultAbortNeverSkipsOrRollsBack(w);
  }

  /** A run in which some eligible migration ends the run reports a Failure
      and leaves the running flag set. */
  method FailedRunLeavesFlagSet(migrator: IcarionMigrator, fromVersion: int, toVersionInclusive: int)
    returns (first: MigrationsResult)
    requires !migrator.migrationsRunning
    requires exists m :: m in migrator.migrations && fromVersion < m.target <= toVersionInclusive
                         && Halts(m, migrator.migrationObserver, migrator.defaultFailureRecoveryHint)
    modifies migrator`migrationsRunning, migrator`migrateCalls, migrator`rollbackCalls
    ensures first.Failure?
    ensures migrator.migrations == old(migrator.migrations) && migrator.migrationsRunning
  {
    var w := EligibleMigrations(migrator.migrations, fromVersion, toVersionInclusive);
    assert !Run(w, migrator.migrationObserver, migrator.defaultFailureRecoveryHint).Finished? by {
      var m :| m in migrator.migrations && fromVersion < m.target <= toVersionInclusive
               && Halts(m, migrator.migrationObserver, migrator.defaultFailureRecoveryHint);
      EligibleSelectsRange(migrator.migrations, fromVersion, toVersionInclusive);
      HaltingMemberStopsRun(w, m, migrator.migrationObserver, migrator.defaultFailureRecoveryHint);
    }
    first := migrator.ExecuteMigrations(fromVersion, toVersionInclusive);
  }

  /** While the flag is set, whatever the reason, `executeMigrations` is
      refused with AlreadyRunning and `registerMigration` with an
      illegal-state error, and neither changes the registry. */
  method SetFlagRefusesEverything(migrator: IcarionMigrator, fromVersion: int, toVersionInclusive: int, later: Migration)
    returns (second: MigrationsResult, registration: RegisterOutcome)
    requires migrator.Valid() && migrator.migrationsRunning
    modifies migrator
    ensures second == AlreadyRunning && registration == IllegalState
    ensures migrator.migrations == old(migrator.migrations) && migrator.migrationsRunning
  {
    second := migrator.ExecuteMigrations(fromVersion, toVersionInclusive);
    registration := migrator.RegisterMigration(later);
  }

  /** Migrations 1 to 5; only `failing` throws from `migrate()`. */
  function ScenarioRegistry(failing: int): (registry: seq<Migration>)
    ensures Targets(registry) == [1, 2, 3, 4, 5]
    ensures StrictlyAscending(Targets(registry)) && DistinctTargets(registry)
    ensures forall m :: m in registry ==> 0 < m.target <= 5
  {
    var registry := [Migration(1, failing != 1, true), Migration(2, failing != 2, true), Migration(3, failing != 3, true),
                     Migration(4, failing != 4, true), Migration(5, failing != 5, true)];
    assert Targets(registry) == [1, 2, 3, 4, 5];
    StrictlyAscendingDistinct(registry);
    registry
  }

  /** The rollback scenario of the library's tests: migrations 1 to 5, the
      third failing, default hint Rollback. Migrations 2 and 1 are rolled
      back, newest first, and 3 is reported as failed. */
  lemma RollbackScenario(w: seq<Migration>)
    requires w == ScenarioRegistry(3)
    ensures Report(w, Run(w, None, Rollback)) == Failure([], [], [2, 1], [1, 2, 3, 4, 5], 3)
    ensures RollbackCalls(Run(w, None, Rollback)) == [Migration(2, true, true), Migration(1, true, true)]
  {
    var m1, m2 := Migration(1, true, true), Migration(2, true, true);
    RollbackScenarioRun(w);
    TwoRolledBackReport(w, m1, m2, w[2]);
    assert Targets(w) == [1, 2, 3, 4, 5];
  }

  lemma RollbackScenarioRun(w: seq<Migration>)
    requires w == ScenarioRegistry(3)
    ensures Run(w, None, Rollback) == Reverted([Migration(1, true, true), Migration(2, true, true)], [], w[2])
    ensures w[2].target == 3
  {
    var m1, m2 := Migration(1, true, true), Migration(2, true, true);
    assert StopIndex(w[2..], None, Rollback) == 0;
    assert StopIndex(w[1..], None, Rollback) == 1 by { assert w[1..][1..] == w[2..]; }
    assert w[..2] == [m1, m2];
    TwoCompleted(m1, m2);
  }

  /** Rolling back two completed migrations whose `rollback()` both work. */
  lemma TwoRolledBackReport(w: seq<Migration>, m1: Migration, m2: Migration, failed: Migration)
    requires m1.rollbackSucceeds && m2.rollbackSucceeds && m1.target != m2.target
    ensures Report(w, Reverted([m1, m2], [], failed)) == Failure([], [], [m2.target, m1.target], Targets(w), failed.target)
    ensures RollbackCalls(Reverted([m1, m2], [], failed)) == [m2, m1]
  {
    assert RollbackRun([m1, m2]) == [m2, m1] && Without(Targets([m1, m2]), Targets([m2, m1])) == [] by {
      TwoRolledBack(m1, m2);
    }
    assert RollbackAttempts([m1, m2]) == [m2, m1] by {
      RollbackAttemptsShape([m1, m2]);
    }
    assert Targets([m2, m1]) == [m2.target, m1.target];
    var noMigrations: seq<Migration> := [];
    assert Targets(noMigrations) == [];
  }

  /** The abort scenario of the library's tests: migrations 1 to 4, the
      second failing, default hint Abort. Migration 1 stays completed, nothing
      is rolled back, and only migrations 1 and 2 are attempted. */
  lemma AbortScenario(w: seq<Migration>)
    requires w == ScenarioRegistry(2)[..4]
    ensures Targets(w) == [1, 2, 3, 4]
    ensures Report(w, Run(w, None, Abort)) == Failure([1], [], [], [1, 2, 3, 4], 2)
    ensures Attempted(w, None, Abort) == [Migration(1, true, true), Migration(2, false, true)]
  {
    var m1 := Migration(1, true, true);
    assert StopIndex(w[1..], None, Abort) == 0;
    assert w[..1] == [m1] && [m1][..0] == [];
    assert WithOutcome([m1], true) == [m1] && WithOutcome([m1], false) == [];
    assert Run(w, None, Abort) == Aborted([m1], [], w[1]);
    var noMigrations: seq<Migration> := [];
    assert Targets(noMigrations) == [];
    assert Targets([m1]) == [1];
  }

  lemma TwoCompleted(m1: Migration, m2: Migration)
    requires m1.migrateSucceeds && m2.migrateSucceeds
    ensures WithOutcome([m1, m2], true) == [m1, m2]
    ensures WithOutcome([m1, m2], false) == []
  {
    WithOutcomeSnoc([], m1, true);
    WithOutcomeSnoc([], m1, false);
    WithOutcomeSnoc([m1], m2, true);
    WithOutcomeSnoc([m1], m2, false);
    assert [] + [m1] == [m1] && [m1] + [m2] == [m1, m2];
  }

  lemma TwoRolledBack(m1: Migration, m2: Migration)
    requires m1.rollbackSucceeds && m2.rollbackSucceeds && m1.target != m2.target
    ensures RollbackRun([m1, m2]) == [m2, m1]
    ensures Without(Targets([m1, m2]), Targets([m2, m1])) == []
  {
    assert [m1, m2][..1] == [m1] && [m1][..0] == [];
    var ts := [m1.target, m2.target];
    assert Targets([m1, m2]) == ts;
    assert Targets([m2, m1]) == [m2.target, m1.target];
    assert Without(ts[1..], [m2.target, m1.target]) == [] by {
      assert ts[1..][1..] == [];
    }
  }
}
