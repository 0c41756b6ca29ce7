/**
 * The JVM migrator (`library/src/main/.../IcarionMigrator.kt`): the same
 * registry, running flag and run as the multiplatform one, with a
 * three-field Failure that reports neither the window nor the failed
 * migration, and "completed minus rolled back" taken on migrations rather
 * than on target versions.
 */
module MigratorJvm {
  import opened Migrations
  import opened Window
  import opened Execution
  import Migrator

  /** `IcarionMigrationsResult` of the JVM library. */
  datatype MigrationsResult =
    | Success(completedMigrations: seq<int>, skippedMigrations: seq<int>)
    | Failure(completedNotRolledBackMigrations: seq<int>, skippedMigrations: seq<int>, rolledBackMigrations: seq<int>)
    | AlreadyRunning

  /** `abortMigration(completed, skipped)` */
  function AbortMigration(completed: seq<Migration>, skipped: seq<Migration>): (r: MigrationsResult)
    ensures r.Failure? && r.rolledBackMigrations == []
    ensures r.completedNotRolledBackMigrations == Targets(completed) && r.skippedMigrations == Targets(skipped)
  {
    Failure(Targets(completed), Targets(skipped), [])
  }

  /** The report `executeMigrations` returns for a run outcome. */
  function Report(out: RunOutcome): (r: MigrationsResult)
    ensures !r.AlreadyRunning?
    ensures r.Success? <==> out.Finished?
    ensures r.Success? ==> r.completedMigrations == Targets(out.completed)
    ensures r.skippedMigrations == Targets(out.skipped)
    ensures out.Aborted? ==> r.rolledBackMigrations == [] && r.completedNotRolledBackMigrations == Targets(out.completed)
  {
    match out
    case Finished(completed, skipped) => Success(Targets(completed), Targets(skipped))
    case Aborted(completed, skipped, _) => AbortMigration(completed, skipped)
    case Reverted(completed, skipped, _) => RollbackReport(completed, skipped)
  }

  /** What `rollbackMigration(completed, skipped)` reports once the rollback
      engine has run. */
  function RollbackReport(completed: seq<Migration>, skipped: seq<Migration>): (r: MigrationsResult)
    ensures r.Failure? && r.skippedMigrations == Targets(skipped)
    ensures r.rolledBackMigrations == Targets(RollbackRun(completed))
    ensures Distinct(completed) ==>
      r.completedNotRolledBackMigrations == Targets(completed[..|completed| - |r.rolledBackMigrations|])
  {
    RollbackLeavesPrefix(completed);
    var rolledBack := RollbackRun(completed);
    Failure(Targets(Without(completed, rolledBack)), Targets(skipped), Targets(rolledBack))
  }

  /** The JVM report is the multiplatform report without its last two
      Failure fields: removing rolled-back migrations and then taking target
      versions gives the same list as taking target versions first. */
  lemma ReportAgreesWithMultiplatform(w: seq<Migration>, observer: Option<Observer>, defaultHint: RecoveryHint)
    requires StrictlyAscending(Targets(w))
    ensures var out := Run(w, observer, defaultHint);
      var r, common := Report(out), Migrator.Report(w, out);
      && (r.Success? <==> common.Success?)
      && (r.Success? ==> r.completedMigrations == common.completedMigrations && r.skippedMigrations == common.skippedMigrations)
      && (r.Failure? ==>
          && common.Failure?
          && r.completedNotRolledBackMigrations == common.completedNotRolledBackMigrations
          && r.skippedMigrations == common.skippedMigrations
          && r.rolledBackMigrations == common.rolledBackMigrations)
  {
    var out := Run(w, observer, defaultHint);
    if out.Reverted? {
      HaltedRunStopsAtFirstFailure(w, observer, defaultHint);
      RollbackReportAgrees(w, out.completed, out.skipped, out.failed);
    }
  }

  lemma RollbackReportAgrees(w: seq<Migration>, completed: seq<Migration>, skipped: seq<Migration>, failed: Migration)
    requires StrictlyAscending(Targets(completed))
    ensures var r, common := RollbackReport(completed, skipped), Migrator.Report(w, Reverted(completed, skipped, failed));
      && r.completedNotRolledBackMigrations == common.completedNotRolledBackMigrations
      && r.skippedMigrations == common.skippedMigrations
      && r.rolledBackMigrations == common.rolledBackMigrations
  {
    var c, rb := completed, RollbackRun(completed);
    StrictlyAscendingDistinct(c);
    RolledBackAreCompleted(c);
    TargetsWithout(c, rb);
  }

  class IcarionMigrator {
    var migrationObserver: Option<Observer>
    var defaultFailureRecoveryHint: RecoveryHint
    var migrationsRunning: bool
    /** The registered migrations, in registration order (a linked hash set). */
    var migrations: seq<Migration>
    /** Every `migrate()` and `rollback()` call made, in order. */
    ghost var migrateCalls: seq<Migration>
    ghost var rollbackCalls: seq<Migration>

    /** No two registered migrations target the same version. */
    ghost predicate Valid()
      reads this`migrations
    {
      DistinctTargets(migrations)
    }

    constructor ()
      ensures Valid()
      ensures migrationObserver == None && defaultFailureRecoveryHint == Abort
      ensures !migrationsRunning && migrations == []
      ensures migrateCalls == [] && rollbackCalls == []
    {
      migrationObserver := None;
      defaultFailureRecoveryHint := Abort;
      migrationsRunning := false;
      migrations := [];
      migrateCalls := [];
      rollbackCalls := [];
    }

    /** `registerMigration`: refused while running, refused for a target that
        is already registered, otherwise appended. */
    method RegisterMigration(migration: Migration) returns (outcome: RegisterOutcome)
      requires Valid()
      modifies this`migrations
      ensures Valid()
      ensures outcome == (if migrationsRunning then IllegalState
                          else if migration.target in Targets(old(migrations)) then DuplicateVersion
                          else Registered)
      ensures migrations == if outcome == Registered then old(migrations) + [migration] else old(migrations)
    {
      if migrationsRunning {
        return IllegalState;
      }
      if migration.target in Targets(migrations) {
        return DuplicateVersion;
      }
      forall x | x in migrations ensures x.target != migration.target {
        var j :| 0 <= j < |migrations| && migrations[j] == x;
        assert Targets(migrations)[j] == x.target;
      }
      migrations := migrations + [migration];
      outcome := Registered;
    }

    /** `executeMigrations(fromVersion, toVersion)`: refused while a run is in
        progress; otherwise the run of the eligible window. The running flag
        is cleared only when the run succeeds. */
    method ExecuteMigrations(fromVersion: int, toVersion: int) returns (result: MigrationsResult)
      modifies this`migrationsRunning, this`migrateCalls, this`rollbackCalls
      ensures old(migrationsRunning) ==>
        && result == AlreadyRunning && migrationsRunning
        && migrateCalls == old(migrateCalls) && rollbackCalls == old(rollbackCalls)
      ensures !old(migrationsRunning) ==>
        var w := EligibleMigrations(migrations, fromVersion, toVersion);
        var out := Run(w, migrationObserver, defaultFailureRecoveryHint);
        && result == Report(out)
        && migrationsRunning == !result.Success?
        && migrateCalls == old(migrateCalls) + Attempted(w, migrationObserver, defaultFailureRecoveryHint)
        && rollbackCalls == old(rollbackCalls) + RollbackCalls(out)
    {
      if migrationsRunning {
        return AlreadyRunning;
      }
      migrationsRunning := true;
      var eligibleMigrations := EligibleMigrations(migrations, fromVersion, toVersion);
      result := MigrateWindow(eligibleMigrations);
      LoopComputesRun(eligibleMigrations, migrationObserver, defaultFailureRecoveryHint);
    }

    /** The `forEach` over the eligible window inside `executeMigrations`. */
    method MigrateWindow(eligibleMigrations: seq<Migration>) returns (result: MigrationsResult)
      requires migrationsRunning
      modifies this`migrationsRunning, this`migrateCalls, this`rollbackCalls
      ensures var out := RunFrom(eligibleMigrations, 0, [], [], migrationObserver, defaultFailureRecoveryHint);
        && result == Report(out)
        && migrationsRunning == !result.Success?
        && migrateCalls == old(migrateCalls) + AttemptedFrom(eligibleMigrations, 0, [], migrationObserver, defaultFailureRecoveryHint)
        && rollbackCalls == old(rollbackCalls) + RollbackCalls(out)
    {
      var observer, defaultHint := migrationObserver, defaultFailureRecoveryHint;
      var completedMigrations: seq<Migration> := [];
      var skippedMigrations: seq<Migration> := [];
      ghost var outcome := RunFrom(eligibleMigrations, 0, [], [], observer, defaultHint);
      ghost var calls := AttemptedFrom(eligibleMigrations, 0, [], observer, defaultHint);
      ghost var attempted: seq<Migration> := [];
      var i := 0;
      while i < |eligibleMigrations|
        invariant i <= |eligibleMigrations|
        invariant RunFrom(eligibleMigrations, i, completedMigrations, skippedMigrations, observer, defaultHint) == outcome
        invariant AttemptedFrom(eligibleMigrations, i, attempted, observer, defaultHint) == calls
        invariant migrationsRunning
        invariant migrateCalls == old(migrateCalls) && rollbackCalls == old(rollbackCalls)
      {
        var migration := eligibleMigrations[i];
        attempted := attempted + [migration];
        if migration.migrateSucceeds {
          completedMigrations := completedMigrations + [migration];
        } else {
          var recoveryHint := ChooseHint(observer, defaultHint, migration.target);
          match recoveryHint
          case Skip =>
            skippedMigrations := skippedMigrations + [migration];
          case Abort =>
            assert outcome == Aborted(completedMigrations, skippedMigrations, migration);
            assert attempted == calls;
            migrateCalls := migrateCalls + attempted;
            result := AbortMigration(completedMigrations, skippedMigrations);
            assert result == Report(outcome);
            return;
          case Rollback =>
            assert outcome == Reverted(completedMigrations, skippedMigrations, migration);
            assert attempted == calls;
            migrateCalls := migrateCalls + attempted;
            result := RollbackMigration(completedMigrations, skippedMigrations);
            return;
        }
        i := i + 1;
      }
      assert outcome == Finished(completedMigrations, skippedMigrations) && attempted == calls;
      result := Success(Targets(completedMigrations), Targets(skippedMigrations));
      migrateCalls := migrateCalls + attempted;
      migrationsRunning := false;
    }

    /** `rollbackMigration(completed, skipped)`: rolls back the completed
        migrations newest first and reports the completed ones that remain. */
    method RollbackMigration(completed: seq<Migration>, skipped: seq<Migration>) returns (result: MigrationsResult)
      modifies this`rollbackCalls
      ensures result == RollbackReport(completed, skipped)
      ensures rollbackCalls == old(rollbackCalls) + RollbackAttempts(completed)
    {
      var rolledBackMigrations;
      ghost var attempted;
      rolledBackMigrations, attempted := ExecuteRollback(completed);
      rollbackCalls := rollbackCalls + attempted;
      RollbackRunUnique(completed, rolledBackMigrations);
      result := Failure(
        Targets(Without(completed, rolledBackMigrations)),
        Targets(skipped),
        Targets(rolledBackMigrations));
    }
  }
}
