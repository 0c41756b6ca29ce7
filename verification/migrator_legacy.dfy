/**
 * The original single-module migrator (`src/main/.../IcarionMigrator.kt`):
 * its results carry the migrations themselves rather than their target
 * versions, the window selection and both recovery paths are written inline
 * in `executeMigrations`, and its default recovery hint is declared with the
 * type of `Abort` itself, so it can hold no other hint.
 */
module MigratorLegacy {
  import opened Migrations
  import opened Window
  import opened Execution
  import Migrator

  /** `IcarionMigrationsResult` of this copy: lists of migrations. */
  datatype MigrationsResult =
    | Success(completedMigrations: seq<Migration>, skippedMigrations: seq<Migration>)
    | Failure(completedNotRolledBackMigrations: seq<Migration>, skippedMigrations: seq<Migration>, rolledBackMigrations: seq<Migration>)
    | AlreadyRunning

  /** The type Kotlin infers for `defaultFailureRecoveryHint = IcarionFailureRecoveryHint.Abort`. */
  type AbortHint = h: RecoveryHint | h == Abort witness Abort

  /** The report `executeMigrations` returns for a run outcome. */
  function Report(out: RunOutcome): (r: MigrationsResult)
    ensures !r.AlreadyRunning?
    ensures r.Success? <==> out.Finished?
    ensures r.Success? ==> r.completedMigrations == out.completed
    ensures r.skippedMigrations == out.skipped
    ensures out.Aborted? ==> r.rolledBackMigrations == [] && r.completedNotRolledBackMigrations == out.completed
  {
    match out
    case Finished(completed, skipped) => Success(completed, skipped)
    case Aborted(completed, skipped, _) => Failure(completed, skipped, [])
    case Reverted(completed, skipped, _) => RollbackReport(completed, skipped)
  }

  /** The Rollback branch once `executeRollback` has run: the completed
      migrations minus the rolled-back ones, and the rolled-back ones in the
      order they were rolled back. */
  function RollbackReport(completed: seq<Migration>, skipped: seq<Migration>): (r: MigrationsResult)
    ensures r.Failure? && r.skippedMigrations == skipped
    ensures r.rolledBackMigrations == RollbackRun(completed)
    ensures Distinct(completed) ==>
      r.completedNotRolledBackMigrations == completed[..|completed| - |r.rolledBackMigrations|]
  {
    RollbackLeavesPrefix(completed);
    var rolledBack := RollbackRun(completed);
    Failure(Without(completed, rolledBack), skipped, rolledBack)
  }

  /** Mapping every list to target versions gives the multiplatform report,
      less its last two Failure fields. */
  lemma ReportAgreesWithMultiplatform(w: seq<Migration>, observer: Option<Observer>, defaultHint: RecoveryHint)
    requires StrictlyAscending(Targets(w))
    ensures var out := Run(w, observer, defaultHint);
      var r, common := Report(out), Migrator.Report(w, out);
      && (r.Success? <==> common.Success?)
      && (r.Success? ==> Targets(r.completedMigrations) == common.completedMigrations && Targets(r.skippedMigrations) == common.skippedMigrations)
      && (r.Failure? ==>
          && common.Failure?
          && Targets(r.completedNotRolledBackMigrations) == common.completedNotRolledBackMigrations
          && Targets(r.skippedMigrations) == common.skippedMigrations
          && Targets(r.rolledBackMigrations) == common.rolledBackMigrations)
  {
    var out := Run(w, observer, defaultHint);
    if out.Reverted? {
      HaltedRunStopsAtFirstFailure(w, observer, defaultHint);
      StrictlyAscendingDistinct(out.completed);
      RolledBackAreCompleted(out.completed);
      TargetsWithout(out.completed, RollbackRun(out.completed));
    }
  }

  /** Without an observer every failure meets the default hint, which can
      only be Abort: no run skips or rolls back, and a run succeeds only when
      every eligible migration migrates. */
  lemma WithoutObserverOnlyAborts(w: seq<Migration>, defaultHint: AbortHint)
    ensures var r := Report(Run(w, None, defaultHint));
      && (r.Success? ==> r.skippedMigrations == [] && forall m :: m in w ==> m.migrateSucceeds)
      && (r.Failure? ==> r.skippedMigrations == [] && r.rolledBackMigrations == [])
  {
    DefaultAbortNeverSkipsOrRollsBack(w);
  }

  class IcarionMigrator {
    var migrationObserver: Option<Observer>
    var defaultFailureRecoveryHint: AbortHint
    var migrationsRunning: bool
    /** The registered migrations, in registration order (a linked hash set). */
    var migrations: seq<Migration>
    /** Every `migrate()` and `rollback()` call made, in order. */
    ghost var migrateCalls: seq<Migration>
    ghost var rollbackCalls: seq<Migration>

    /** No two registered migrations target the same version. */
    ghost predicate Valid()
      reads this`migrations
    {
      DistinctTargets(migrations)
    }

    constructor ()
      ensures Valid()
      ensures migrationObserver == None
      ensures !migrationsRunning && migrations == []
      ensures migrateCalls == [] && rollbackCalls == []
    {
      migrationObserver := None;
      defaultFailureRecoveryHint := Abort;
      migrationsRunning := false;
      migrations := [];
      migrateCalls := [];
      rollbackCalls := [];
    }

    /** `registerMigration`: refused while running, refused for a target that
        is already registered, otherwise appended. */
    method RegisterMigration(migration: Migration) returns (outcome: RegisterOutcome)
      requires Valid()
      modifies this`migrations
      ensures Valid()
      ensures outcome == (if migrationsRunning then IllegalState
                          else if migration.target in Targets(old(migrations)) then DuplicateVersion
                          else Registered)
      ensures migrations == if outcome == Registered then old(migrations) + [migration] else old(migrations)
    {
      if migrationsRunning {
        return IllegalState;
      }
      if migration.target in Targets(migrations) {
        return DuplicateVersion;
      }
      forall x | x in migrations ensures x.target != migration.target {
        var j :| 0 <= j < |migrations| && migrations[j] == x;
        assert Targets(migrations)[j] == x.target;
      }
      migrations := migrations + [migration];
      outcome := Registered;
    }

    /** `executeMigrations(fromVersion, toVersion)`: refused while a run is in
        progress; otherwise the filtered and sorted registry is run. The
        running flag is cleared only when the run succeeds. */
    method ExecuteMigrations(fromVersion: int, toVersion: int) returns (result: MigrationsResult)
      modifies this`migrationsRunning, this`migrateCalls, this`rollbackCalls
      ensures old(migrationsRunning) ==>
        && result == AlreadyRunning && migrationsRunning
        && migrateCalls == old(migrateCalls) && rollbackCalls == old(rollbackCalls)
      ensures !old(migrationsRunning) ==>
        var w := EligibleMigrations(migrations, fromVersion, toVersion);
        var out := Run(w, migrationObserver, defaultFailureRecoveryHint);
        && result == Report(out)
        && migrationsRunning == !result.Success?
        && migrateCalls == old(migrateCalls) + Attempted(w, migrationObserver, defaultFailureRecoveryHint)
        && rollbackCalls == old(rollbackCalls) + RollbackCalls(out)
    {
      if migrationsRunning {
        return AlreadyRunning;
      }
      migrationsRunning := true;
      var eligibleMigrations := EligibleMigrations(migrations, fromVersion, toVersion);
      result := MigrateWindow(eligibleMigrations);
      LoopComputesRun(eligibleMigrations, migrationObserver, defaultFailureRecoveryHint);
    }

    /** The `forEach` over the filtered and sorted registry, with the Abort
        and Rollback returns written inline. */
    method MigrateWindow(eligibleMigrations: seq<Migration>) returns (result: MigrationsResult)
      requires migrationsRunning
      modifies this`migrationsRunning, this`migrateCalls, this`rollbackCalls
      ensures var out := RunFrom(eligibleMigrations, 0, [], [], migrationObserver, defaultFailureRecoveryHint);
        && result == Report(out)
        && migrationsRunning == !result.Success?
        && migrateCalls == old(migrateCalls) + AttemptedFrom(eligibleMigrations, 0, [], migrationObserver, defaultFailureRecoveryHint)
        && rollbackCalls == old(rollbackCalls) + RollbackCalls(out)
    {
      var observer, defaultHint := migrationObserver, defaultFailureRecoveryHint;
      var completedMigrations: seq<Migration> := [];
      var skippedMigrations: seq<Migration> := [];
      ghost var outcome := RunFrom(eligibleMigrations, 0, [], [], observer, defaultHint);
      ghost var calls := AttemptedFrom(eligibleMigrations, 0, [], observer, defaultHint);
      ghost var attempted: seq<Migration> := [];
      var i := 0;
      while i < |eligibleMigrations|
        invariant i <= |eligibleMigrations|
        invariant RunFrom(eligibleMigrations, i, completedMigrations, skippedMigrations, observer, defaultHint) == outcome
        invariant AttemptedFrom(eligibleMigrations, i, attempted, observer, defaultHint) == calls
        invariant migrationsRunning
        invariant migrateCalls == old(migrateCalls) && rollbackCalls == old(rollbackCalls)
      {
        var migration := eligibleMigrations[i];
        attempted := attempted + [migration];
        if migration.migrateSucceeds {
          completedMigrations := completedMigrations + [migration];
        } else {
          var recoveryHint := ChooseHint(observer, defaultHint, migration.target);
          match recoveryHint
          case Skip =>
            skippedMigrations := skippedMigrations + [migration];
          case Abort =>
            assert outcome == Aborted(completedMigrations, skippedMigrations, migration);
            assert attempted == calls;
            migrateCalls := migrateCalls + attempted;
            return Failure(completedMigrations, skippedMigrations, []);
          case Rollback =>
            assert outcome == Reverted(completedMigrations, skippedMigrations, migration);
            assert attempted == calls;
            migrateCalls := migrateCalls + attempted;
            var rolledBackMigrations;
            ghost var rollbackAttempts;
            rolledBackMigrations, rollbackAttempts := ExecuteRollback(completedMigrations);
            rollbackCalls := rollbackCalls + rollbackAttempts;
            RollbackRunUnique(completedMigrations, rolledBackMigrations);
            return Failure(Without(completedMigrations, rolledBackMigrations), skippedMigrations, rolledBackMigrations);
        }
        i := i + 1;
      }
      result := Success(completedMigrations, skippedMigrations);
      migrateCalls := migrateCalls + attempted;
      migrationsRunning := false;
    }
  }
}
