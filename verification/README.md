# Icarion migrator, modelled in Dafny

Icarion is a Kotlin library that runs an application's data migrations
when the application is updated. The application registers one
`AppUpdateMigration` per target version. A call to
`executeMigrations(fromVersion, toVersionInclusive)` then runs every
registered migration whose target lies in `(fromVersion, toVersionInclusive]`,
in ascending target order. When a migration's `migrate()` throws, a recovery
hint decides what happens next. The hint comes from the observer's
`onMigrationFailure`, or from `defaultFailureRecoveryHint` when there is no
observer:

- **Skip** moves on to the next migration;
- **Abort** stops at once;
- **Rollback** stops, then calls `rollback()` on the completed migrations
  newest first, and stops again at the first rollback that throws.

The run reports a `Success` or a `Failure` built from the target versions.
While a run is in progress the migrator refuses new registrations and new
runs. Versions are `IntVersion` (one non-negative `Int`) or
`SemanticVersion` (major, minor and patch). `SemanticVersion` compares
lexicographically and can be parsed from "M", "M.m" or "M.m.p".

The repository holds three copies of the migrator:

- the multiplatform library;
- the JVM library, whose `Failure` has three fields;
- the original single-module version, whose reports carry migrations rather
  than versions and whose default hint can only be `Abort`.

Each copy is modelled as its own class. All three are proved against one
declarative description of a run.

Files:

- `migrations.dfy` (module `Migrations`) defines the shared values and
  sequence helpers. These are the migration and the recovery hint; the
  observer's failure callback; `map { it.targetVersion }`; `reversed()`;
  Kotlin's list `minus`; and the split of migrations by whether `migrate()`
  threw.
- `window.dfy` (module `Window`) defines `getEligibleMigrations`, a filter
  on the range followed by a sort on the target.
- `execution.dfy` (module `Execution`) holds the reference run `Run`. It also
  holds `RunFrom`, which runs the loop step by step, and the rollback
  engine `executeRollback` as a method with a loop.
- `migrator.dfy` (module `Migrator`) is the multiplatform `IcarionMigrator`.
  It is a class whose fields are the observer, the default hint, the running
  flag and the registry. Two ghost traces record every `migrate()` and
  `rollback()` call. The module also holds the properties of the report and
  the scenarios from the library's tests.
- `migrator_jvm.dfy` (module `MigratorJvm`) and `migrator_legacy.dfy` (module
  `MigratorLegacy`) are the other two copies. Each has a lemma that ties its
  report to the multiplatform one.
- `versions.dfy` (module `Versions`) models `IntVersion` and
  `SemanticVersion`: their validation, and `compareTo`.
- `version_text.dfy` (module `VersionText`) models `SemanticVersion.toString`
  and `SemanticVersion.fromVersion`. It writes out Kotlin's `isBlank`,
  `split(".")`, `toIntOrNull` and `Int.toString`.

A migration is modelled by its target version and two booleans, which say
whether `migrate()` and `rollback()` return normally. Versions in the
migrator are integers. `Versions.CompareToIsKeyOrder` shows that the order
on `SemanticVersion` embeds in the integers, and `IntVersion` orders as its
`value`.

## Model

| member | source | states |
|---|---|---|
| `Migrator.IcarionMigrator.constructor` | library/src/commonMain/kotlin/xyz/amplituhedron/icarion/IcarionMigrator.kt:100-114 | A new migrator has no observer, the default hint Abort, the flag cleared, an empty registry and no recorded calls |
| `Migrator.IcarionMigrator.RegisterMigration` | library/src/commonMain/kotlin/xyz/amplituhedron/icarion/IcarionMigrator.kt:120-130 | Refused with an illegal-state error while running, and with an illegal-argument error for an already-registered target; otherwise the registry gains exactly that migration. Targets stay unique in every case |
| `Migrator.IcarionMigrator.ExecuteMigrations` | library/src/commonMain/kotlin/xyz/amplituhedron/icarion/IcarionMigrator.kt:140-201 | While running: AlreadyRunning, and nothing else changes. Otherwise the result is the report of the reference run of the eligible window; the flag ends cleared exactly when the result is Success; the `migrate()` and `rollback()` calls made are exactly those of the reference run |
| `Migrator.IcarionMigrator.MigrateWindow` | library/src/commonMain/kotlin/xyz/amplituhedron/icarion/IcarionMigrator.kt:157-196 | The `forEach` loop and its three hint branches produce the report and the calls of `RunFrom` from position 0, and clear the flag only on Success |
| `Migrator.IcarionMigrator.RollbackMigration` | library/src/commonMain/kotlin/xyz/amplituhedron/icarion/IcarionMigrator.kt:226-240 | Reports the completed targets minus the rolled-back ones, the skipped targets, the rolled-back targets, the window and the failed target, and records exactly the engine's rollback calls |
| `Migrations.ChooseHint` | library/src/commonMain/kotlin/xyz/amplituhedron/icarion/IcarionMigrator.kt:170-171 | Without an observer the hint is the default hint; with one it is what `onMigrationFailure` returns for the version |
| `Execution.Run` | library/src/commonMain/kotlin/xyz/amplituhedron/icarion/IcarionMigrator.kt:157-196 | A run finishes iff no migration of the window throws with a hint other than Skip. Otherwise the failed migration is in the window and ends the run, and the run aborts iff its hint is Abort. Completed migrations are window migrations whose `migrate()` returned normally, skipped ones are window migrations whose `migrate()` threw |
| `Execution.RunFrom` | library/src/commonMain/kotlin/xyz/amplituhedron/icarion/IcarionMigrator.kt:157-188 | Continuing the loop only appends to the completed and skipped lists, and a run that stops early stops at a failure whose hint is not Skip |
| `Execution.RollbackRun` | library/src/commonMain/kotlin/xyz/amplituhedron/icarion/IcarionMigrator.kt:242-262 | The reference rollback: the completed migrations from the newest back, all with a working `rollback()`, up to the first whose `rollback()` throws |
| `Execution.RollbackLeavesPrefix` | library/src/commonMain/kotlin/xyz/amplituhedron/icarion/IcarionMigrator.kt:232-234 | With no repeats among the completed migrations, "completed minus rolled back" is exactly the completed list without its rolled-back suffix |
| `Execution.ExecuteRollback` | library/src/commonMain/kotlin/xyz/amplituhedron/icarion/IcarionMigrator.kt:242-262 | The loop over `reversed()` returns a rollback run: the completed migrations from the newest back, all of whose `rollback()` returned normally, up to the first that threw. The calls it makes are those migrations plus the one that threw |
| `Execution.RollbackRunUnique` | library/src/commonMain/kotlin/xyz/amplituhedron/icarion/IcarionMigrator.kt:245-261 | There is only one rollback run of a list of completed migrations, so the loop's result equals the reference `RollbackRun` |
| `Execution.RollbackRunSplitsCompleted` | library/src/commonMain/kotlin/xyz/amplituhedron/icarion/IcarionMigrator.kt:232-236 | The completed migrations minus the rolled-back ones, followed by the rolled-back ones in completion order, give the completed list back: the rollback removes a suffix |
| `Execution.RollbackAttemptsShape` | library/src/commonMain/kotlin/xyz/amplituhedron/icarion/IcarionMigrator.kt:246-257 | The rollback calls are the rolled-back migrations, followed by the migration whose rollback threw when the engine stopped early |
| `Execution.StopIndex` | library/src/commonMain/kotlin/xyz/amplituhedron/icarion/IcarionMigrator.kt:157-186 | The position where the run stops: no migration before it ends the run, and the migration at it does unless it is the end of the window |
| `Execution.LoopComputesRun` | library/src/commonMain/kotlin/xyz/amplituhedron/icarion/IcarionMigrator.kt:157-188 | Running the loop from the start of the window gives the reference outcome and the reference list of `migrate()` calls |
| `Execution.RunFromAgreesWithRun` | library/src/commonMain/kotlin/xyz/amplituhedron/icarion/IcarionMigrator.kt:161-179 | After `i` steps before the stop, the loop holds the migrations of the first `i` that migrated and that threw, and finishing from there gives the reference outcome |
| `Execution.AttemptedFromAgreesWithAttempted` | library/src/commonMain/kotlin/xyz/amplituhedron/icarion/IcarionMigrator.kt:157-162 | The same for the list of `migrate()` calls |
| `Execution.FinishedRunPartitionsWindow` | library/src/commonMain/kotlin/xyz/amplituhedron/icarion/IcarionMigrator.kt:157-196 | A run finishes exactly when no failure ends it. It then completes the migrations that migrate and skips the others, each exactly once, and both lists keep ascending order |
| `Execution.HaltedRunStopsAtFirstFailure` | library/src/commonMain/kotlin/xyz/amplituhedron/icarion/IcarionMigrator.kt:167-185 | A run that does not finish stops at the first failure whose hint is not Skip. Every earlier migration is completed or skipped in order, `migrate()` is called on exactly the window up to the failed one, and the run aborts exactly when the hint is Abort |
| `Execution.HaltedRunPosition` | library/src/commonMain/kotlin/xyz/amplituhedron/icarion/IcarionMigrator.kt:170-185 | The outcome in terms of the stop position: it finishes iff the stop is the end; otherwise the completed and skipped lists are the outcome split of the prefix, and the failed migration is the one at the stop |
| `Execution.HaltingMemberStopsRun` | library/src/commonMain/kotlin/xyz/amplituhedron/icarion/IcarionMigrator.kt:181-185 | A window that holds a migration that throws with hint Abort or Rollback never finishes |
| `Execution.RolledBackAreCompleted` | library/src/commonMain/kotlin/xyz/amplituhedron/icarion/IcarionMigrator.kt:245-249 | Every rolled-back migration is one of the completed ones, and no other completed migration shares its target |
| `Execution.DefaultAbortNeverSkipsOrRollsBack` | library/src/commonMain/kotlin/xyz/amplituhedron/icarion/IcarionMigrator.kt:108-109 | With no observer and the default hint Abort, a run neither skips nor rolls back, and it finishes only if every migration migrates |
| `Execution.EmptyWindowFinishes` | library/src/commonTest/kotlin/xyz/amplituhedron/icarion/MigrationsTest.kt:14-23 | An empty window finishes with nothing completed or skipped and calls nothing |
| `Window.InRange` | library/src/commonMain/kotlin/xyz/amplituhedron/icarion/IcarionMigrator.kt:205 | The filter keeps exactly the migrations with `from < target <= to`, and unique targets stay unique |
| `Window.Insert` | library/src/commonMain/kotlin/xyz/amplituhedron/icarion/IcarionMigrator.kt:206 | Insertion into an ascending list gives an ascending list with one more element, namely the inserted one |
| `Window.SortByTarget` | library/src/commonMain/kotlin/xyz/amplituhedron/icarion/IcarionMigrator.kt:206 | The sort returns a permutation of its input in ascending target order |
| `Window.EligibleMigrations` | library/src/commonMain/kotlin/xyz/amplituhedron/icarion/IcarionMigrator.kt:203-207 | The window is a permutation of the in-range registered migrations, in ascending target order; `Window.EligibleSelectsRange` states its members |
| `Window.EligibleSelectsRange` | library/src/commonMain/kotlin/xyz/amplituhedron/icarion/IcarionMigrator.kt:203-207 | The window holds exactly the registered migrations with target in `(from, to]`, in ascending target order |
| `Window.EligibleStrictlyAscending` | library/src/commonMain/kotlin/xyz/amplituhedron/icarion/IcarionMigrator.kt:125-129 | Since registration keeps targets unique, the window's targets are strictly ascending |
| `Window.EmptyRangeSelectsNothing` | library/src/commonMain/kotlin/xyz/amplituhedron/icarion/IcarionMigrator.kt:205 | When `to <= from`, nothing is eligible |
| `Window.StrictRunsWithSameMembersAreEqual` | library/src/commonMain/kotlin/xyz/amplituhedron/icarion/IcarionMigrator.kt:206 | Two strictly ascending lists with the same members are equal, so the sorted window is unique |
| `Window.EligibleIndependentOfRegistrationOrder` | library/src/commonMain/kotlin/xyz/amplituhedron/icarion/IcarionMigrator.kt:114 | Registries holding the same migrations in any order give the same window |
| `Window.SortedRegistryIsItsOwnWindow` | library/src/commonMain/kotlin/xyz/amplituhedron/icarion/IcarionMigrator.kt:203-207 | A registry that is already ascending and lies inside the range is its own window |
| `Migrations.Without` | library/src/commonMain/kotlin/xyz/amplituhedron/icarion/IcarionMigrator.kt:234 | Kotlin's list `minus` keeps exactly the elements that are not in the removed list, and the result is no longer than its input |
| `Migrations.TargetsWithout` | library/src/main/kotlin/xyz/amplituhedron/icarion/IcarionMigrator.kt:260 | Removing rolled-back migrations and then taking targets is the same as taking targets and then removing, when no two migrations share a target |
| `Migrations.WithOutcomePartition` | library/src/commonMain/kotlin/xyz/amplituhedron/icarion/IcarionMigrator.kt:161-179 | The migrations that migrated, together with those that threw, are a permutation of the migrations passed |
| `Migrations.WithOutcomeStrictlyAscending` | library/src/commonMain/kotlin/xyz/amplituhedron/icarion/IcarionMigrator.kt:163 | The completed and skipped lists keep the window's ascending order |
| `Migrations.ReversePermutes` | library/src/commonMain/kotlin/xyz/amplituhedron/icarion/IcarionMigrator.kt:246 | `reversed()` reorders the completed migrations without adding or dropping one |
| `Migrations.ReverseReverse` | library/src/commonMain/kotlin/xyz/amplituhedron/icarion/IcarionMigrator.kt:246 | Reversing twice gives the list back |
| `Migrations.ReverseConcat` | library/src/commonMain/kotlin/xyz/amplituhedron/icarion/IcarionMigrator.kt:246 | The reverse of `a + b` is the reverse of `b` followed by the reverse of `a` |
| `Migrator.AbortMigration` | library/src/commonMain/kotlin/xyz/amplituhedron/icarion/IcarionMigrator.kt:209-224 | The report builder: a Failure that rolls back nothing, with the completed and skipped targets, the window and the failed target. What this means for a run is proved by `Migrator.AbortKeepsEveryCompletedMigration` and `Migrator.FailureNamesFirstEndingFailure` |
| `Migrator.Report` | library/src/commonMain/kotlin/xyz/amplituhedron/icarion/IcarionMigrator.kt:140-240 | The report builder: Success iff the outcome finished, otherwise a Failure with the skipped targets, the window and the failed target; Abort rolls back nothing and Rollback reports the rollback run. Never AlreadyRunning. What this means for a run is proved by `Migrator.SuccessReportsEveryEligibleMigration`, `Migrator.FailureNamesFirstEndingFailure`, `Migrator.AbortKeepsEveryCompletedMigration` and `Migrator.RollbackUndoesNewestFirst` |
| `Migrator.RevertedReportSplitsCompleted` | library/src/commonMain/kotlin/xyz/amplituhedron/icarion/IcarionMigrator.kt:232-236 | In a rollback Failure, the targets left completed, followed by the rolled-back targets reversed, are the completed targets |
| `Migrator.FailureCountsPassedMigrations` | library/src/commonMain/kotlin/xyz/amplituhedron/icarion/IcarionMigrator.kt:209-240 | In a Failure, the targets left completed and those rolled back together number the completed migrations. The skipped targets and the failed target are those of the run |
| `Migrator.SuccessReportsEveryEligibleMigration` | library/src/commonMain/kotlin/xyz/amplituhedron/icarion/IcarionMigrator.kt:190-196 | A run succeeds iff no failure ends it. Every eligible target is then reported exactly once: as completed iff its `migrate()` returned normally, otherwise as skipped, both lists ascending |
| `Migrator.FailureNamesFirstEndingFailure` | library/src/commonMain/kotlin/xyz/amplituhedron/icarion/IcarionMigrator.kt:170-185 | A Failure names the first eligible migration whose failure was not skipped. The three lists account for exactly the migrations before it; a target before it is skipped iff its `migrate()` threw; the eligible list is the whole window |
| `Migrator.PassedMigrationSkippedIffThrew` | library/src/commonMain/kotlin/xyz/amplituhedron/icarion/IcarionMigrator.kt:176-179 | A migration passed before the stop is skipped iff its `migrate()` threw |
| `Migrator.PassedMigrationCompletedIffMigrated` | library/src/commonMain/kotlin/xyz/amplituhedron/icarion/IcarionMigrator.kt:162-163 | A migration passed before the stop is completed iff its `migrate()` returned normally |
| `Migrator.AbortKeepsEveryCompletedMigration` | library/src/commonMain/kotlin/xyz/amplituhedron/icarion/IcarionMigrator.kt:209-224 | Under Abort nothing is rolled back. The completed-not-rolled-back list is exactly the migrations before the failure that migrated, in ascending order |
| `Migrator.RollbackUndoesNewestFirst` | library/src/commonMain/kotlin/xyz/amplituhedron/icarion/IcarionMigrator.kt:226-262 | Under Rollback, what is left followed by the rolled-back targets reversed is the ascending list of completed targets. Every rolled-back migration has a working `rollback()`, and the newest one left is the one whose `rollback()` threw |
| `Migrator.RolledBackMigrationsInWindow` | library/src/commonMain/kotlin/xyz/amplituhedron/icarion/IcarionMigrator.kt:246-256 | The same rollback facts for completed migrations drawn from a window with unique targets |
| `Migrator.RolledBackHaveWorkingRollback` | library/src/commonMain/kotlin/xyz/amplituhedron/icarion/IcarionMigrator.kt:247-249 | A window migration whose target was rolled back has a working `rollback()` |
| `Migrator.NewestLeftHasFailingRollback` | library/src/commonMain/kotlin/xyz/amplituhedron/icarion/IcarionMigrator.kt:250-256 | The newest target left completed belongs to the migration whose `rollback()` threw |
| `Migrator.EmptyRangeSucceedsWithNothing` | library/src/commonTest/kotlin/xyz/amplituhedron/icarion/MigrationsTest.kt:14-23 | An empty registry or an empty range gives `Success([], [])` |
| `Migrator.DefaultSettingsNeverSkipOrRollBack` | library/src/commonMain/kotlin/xyz/amplituhedron/icarion/IcarionMigrator.kt:101-109 | With the initial settings, a report never has skipped or rolled-back targets, and it is a Success only if every eligible migration migrates |
| `Migrator.FailedRunLeavesFlagSet` | library/src/commonMain/kotlin/xyz/amplituhedron/icarion/IcarionMigrator.kt:181-190 | A run with an eligible migration that ends it reports a Failure, and the Abort and Rollback returns leave the running flag set |
| `Migrator.SetFlagRefusesEverything` | library/src/commonMain/kotlin/xyz/amplituhedron/icarion/IcarionMigrator.kt:122-147 | While the flag is set, `executeMigrations` gives AlreadyRunning and `registerMigration` an illegal-state error, and the registry does not change |
| `Migrator.ScenarioRegistry` | library/src/test/kotlin/xyz/amplituhedron/icarion/MigrationsTest.kt:140-146 | The test registry: targets 1 to 5, strictly ascending, all inside `(0, 5]` |
| `Migrator.RollbackScenario` | library/src/test/kotlin/xyz/amplituhedron/icarion/MigrationsTest.kt:134-163 | Migrations 1 to 5 with the third failing and default hint Rollback give `Failure([], [], [2, 1], [1, 2, 3, 4, 5], 3)`; only 2 and then 1 are rolled back |
| `Migrator.AbortScenario` | library/src/commonTest/kotlin/xyz/amplituhedron/icarion/MigrationsDefaultFailureRecoveryHintTest.kt:11-42 | Migrations 1 to 4 with the second failing under Abort give `Failure([1], [], [], [1, 2, 3, 4], 2)`: 1 stays completed, nothing is skipped or rolled back, and only migrations 1 and 2 are attempted |
| `Migrator.TwoRolledBackReport` | library/src/test/kotlin/xyz/amplituhedron/icarion/MigrationsTest.kt:155-160 | Rolling back two completed migrations with working rollbacks reports both, newest first, and nothing left completed |
| `MigratorJvm.AbortMigration` | library/src/main/kotlin/xyz/amplituhedron/icarion/IcarionMigrator.kt:241-252 | The JVM report builder for Abort: rolls back nothing and keeps every completed target; `MigratorJvm.ReportAgreesWithMultiplatform` carries the meaning over from the multiplatform lemmas |
| `MigratorJvm.Report` | library/src/main/kotlin/xyz/amplituhedron/icarion/IcarionMigrator.kt:178-239 | Success iff the run finishes, with the completed targets; the skipped targets are always reported; an Abort rolls back nothing. Never AlreadyRunning |
| `MigratorJvm.RollbackReport` | library/src/main/kotlin/xyz/amplituhedron/icarion/IcarionMigrator.kt:254-264 | A Failure with the targets of the rollback run; with no repeated completed migrations, the targets left completed are those of the completed list without its rolled-back suffix |
| `MigratorJvm.ReportAgreesWithMultiplatform` | library/src/main/kotlin/xyz/amplituhedron/icarion/IcarionMigrator.kt:178-264 | The JVM report has the same kind as the multiplatform one, and its first three lists are equal; its minus is taken on migrations rather than on targets |
| `MigratorJvm.RollbackReportAgrees` | library/src/main/kotlin/xyz/amplituhedron/icarion/IcarionMigrator.kt:254-264 | The JVM rollback report equals the first three fields of the multiplatform one |
| `MigratorJvm.IcarionMigrator.constructor` | library/src/main/kotlin/xyz/amplituhedron/icarion/IcarionMigrator.kt:146-158 | The initial state of the JVM migrator: no observer, default hint Abort, flag cleared, empty registry |
| `MigratorJvm.IcarionMigrator.RegisterMigration` | library/src/main/kotlin/xyz/amplituhedron/icarion/IcarionMigrator.kt:160-170 | The registration rules of the JVM copy |
| `MigratorJvm.IcarionMigrator.ExecuteMigrations` | library/src/main/kotlin/xyz/amplituhedron/icarion/IcarionMigrator.kt:178-239 | The JVM run is the reference run with the three-field report; the flag clears only on Success; the calls are recorded |
| `MigratorJvm.IcarionMigrator.MigrateWindow` | library/src/main/kotlin/xyz/amplituhedron/icarion/IcarionMigrator.kt:195-236 | The JVM loop computes `RunFrom` from position 0 |
| `MigratorJvm.IcarionMigrator.RollbackMigration` | library/src/main/kotlin/xyz/amplituhedron/icarion/IcarionMigrator.kt:254-264 | The JVM rollback report, with completed migrations minus rolled-back ones mapped to targets |
| `MigratorLegacy.Report` | src/main/kotlin/xyz/amplituhedron/icarion/IcarionMigrator.kt:61-120 | Success iff the run finishes, with the completed migrations; the skipped migrations are always reported; an Abort rolls back nothing. Never AlreadyRunning |
| `MigratorLegacy.RollbackReport` | src/main/kotlin/xyz/amplituhedron/icarion/IcarionMigrator.kt:102-112 | A Failure with the rollback run's migrations; with no repeated completed migrations, the ones left completed are the completed list without its rolled-back suffix |
| `MigratorLegacy.ReportAgreesWithMultiplatform` | src/main/kotlin/xyz/amplituhedron/icarion/IcarionMigrator.kt:61-120 | The original module's report, mapped to targets, matches the first three fields of the multiplatform report |
| `MigratorLegacy.WithoutObserverOnlyAborts` | src/main/kotlin/xyz/amplituhedron/icarion/IcarionMigrator.kt:40-42 | The default hint is typed as Abort, so without an observer no run skips or rolls back |
| `MigratorLegacy.IcarionMigrator.constructor` | src/main/kotlin/xyz/amplituhedron/icarion/IcarionMigrator.kt:39-47 | The initial state of the original migrator: no observer, flag cleared, empty registry |
| `MigratorLegacy.IcarionMigrator.RegisterMigration` | src/main/kotlin/xyz/amplituhedron/icarion/IcarionMigrator.kt:49-59 | The registration rules of the original copy |
| `MigratorLegacy.IcarionMigrator.ExecuteMigrations` | src/main/kotlin/xyz/amplituhedron/icarion/IcarionMigrator.kt:61-120 | Refused while running; otherwise the report of the reference run on the filtered, sorted registry; the flag clears only on Success; the calls are recorded |
| `MigratorLegacy.IcarionMigrator.MigrateWindow` | src/main/kotlin/xyz/amplituhedron/icarion/IcarionMigrator.kt:72-119 | The inline loop, with its inline Abort and Rollback returns, computes `RunFrom` from position 0 |
| `Versions.NewIntVersion` | library/src/commonMain/kotlin/xyz/amplituhedron/icarion/IcarionVersions.kt:6-9 | An `IntVersion` is built iff the value is non-negative, and then holds that value; otherwise it fails with the non-negative message |
| `Versions.LegacyIntVersionAcceptsNegatives` | src/main/kotlin/xyz/amplituhedron/icarion/IcarionVersions.kt:6-8 | The original `IntVersion` accepts every `Int`, negatives included; the multiplatform one accepts exactly the non-negative ones, and the two agree where both accept |
| `Versions.IntVersionCompareTo` | library/src/commonMain/kotlin/xyz/amplituhedron/icarion/IcarionVersions.kt:11 | The order of `value`: negative, zero or positive as `value` is smaller, equal or larger, and zero exactly for equal versions |
| `Versions.NewSemanticVersion` | library/src/commonMain/kotlin/xyz/amplituhedron/icarion/IcarionVersions.kt:82-84 | Built iff major, minor and patch are all non-negative, and it then holds them; otherwise it fails with the non-negative message. The original module's lines 23-25 are the same |
| `Versions.CompareTo` | library/src/commonMain/kotlin/xyz/amplituhedron/icarion/IcarionVersions.kt:86-94 | The result is -1, 0 or 1, and zero exactly for equal versions. The original module's lines 27-35 are the same |
| `Versions.CompareToIsLexicographic` | src/main/kotlin/xyz/amplituhedron/icarion/IcarionVersions.kt:27-35 | Negative iff lexicographically smaller on (major, minor, patch), and positive iff larger |
| `Versions.CompareToIsKeyOrder` | library/src/commonMain/kotlin/xyz/amplituhedron/icarion/IcarionVersions.kt:86-94 | `compareTo` is the integer order of the key, so the semantic order embeds in the integers |
| `Versions.CompareToAntisymmetric` | library/src/commonMain/kotlin/xyz/amplituhedron/icarion/IcarionVersions.kt:87-93 | Swapping the operands negates the result |
| `Versions.CompareToTransitive` | library/src/commonTest/kotlin/xyz/amplituhedron/icarion/version/IcarionVersionsTest.kt:45-75 | Both "less than" and "at most" are transitive |
| `Versions.CompareToTotal` | library/src/commonMain/kotlin/xyz/amplituhedron/icarion/IcarionVersions.kt:35 | Any two versions are equal, or one is smaller than the other |
| `VersionText.ToIntOrNull` | library/src/commonMain/kotlin/xyz/amplituhedron/icarion/IcarionVersions.kt:54 | A result is an `Int` read from text that starts with a sign or a digit; a negative result needs a leading '-'. `VersionText.ToIntOrNullReadsNumerals` gives the exact set of texts read and their values |
| `VersionText.ToIntOrNullReadsNumerals` | library/src/commonMain/kotlin/xyz/amplituhedron/icarion/IcarionVersions.kt:54 | `toIntOrNull` gives a value exactly for an optional sign followed by at least one digit whose signed value fits an `Int`, and the value is the one the digits denote, negated after '-' |
| `VersionText.ToIntOrNullReadsSignedDigits` | library/src/commonMain/kotlin/xyz/amplituhedron/icarion/IcarionVersions.kt:54 | For a sign ("", "+" or "-") and a run of digits, the result is the signed value when it fits an `Int`, and null otherwise |
| `VersionText.ToIntOrNullExamples` | library/src/commonMain/kotlin/xyz/amplituhedron/icarion/IcarionVersions.kt:54 | "007" reads as 7, "+5" as 5 and "-0" as 0; "+" and "" give null |
| `VersionText.NatToString` | library/src/commonMain/kotlin/xyz/amplituhedron/icarion/IcarionVersions.kt:96 | The text is a non-empty string of decimal digits with no leading zero, and its value is the number |
| `VersionText.NatToStringParses` | library/src/commonMain/kotlin/xyz/amplituhedron/icarion/IcarionVersions.kt:96 | `toIntOrNull` reads the decimal text of a non-negative `Int` back to that `Int`; the text has no dot and is not blank |
| `VersionText.Split` | library/src/commonMain/kotlin/xyz/amplituhedron/icarion/IcarionVersions.kt:48 | `split(".")` gives at least one part, and no part contains a dot |
| `VersionText.JoinSplit` | library/src/commonMain/kotlin/xyz/amplituhedron/icarion/IcarionVersions.kt:48 | Joining the parts with '.' gives the original text |
| `VersionText.SplitJoin` | library/src/commonMain/kotlin/xyz/amplituhedron/icarion/IcarionVersions.kt:48 | Splitting a '.'-join of dot-free parts gives those parts back |
| `VersionText.SplitNoDot` | library/src/commonMain/kotlin/xyz/amplituhedron/icarion/IcarionVersions.kt:52 | Text without a dot is one part |
| `VersionText.SplitAtDot` | library/src/commonMain/kotlin/xyz/amplituhedron/icarion/IcarionVersions.kt:58 | The text before the first dot is the first part, and the rest splits on its own |
| `VersionText.FirstPartIsPrefix` | library/src/commonMain/kotlin/xyz/amplituhedron/icarion/IcarionVersions.kt:54 | The first part is a prefix of the text |
| `VersionText.FromVersion` | library/src/commonMain/kotlin/xyz/amplituhedron/icarion/IcarionVersions.kt:45-79 | Blank text fails with the format message. A version, when built, is non-negative and came from one to three parts. Every failure carries the format message or the non-negative message |
| `VersionText.FromParts` | library/src/commonMain/kotlin/xyz/amplituhedron/icarion/IcarionVersions.kt:51-78 | The `when` over the part count succeeds only for one to three parts, with a non-negative version; every failure carries one of the two messages |
| `VersionText.FromPartsAcceptsExactly` | library/src/commonMain/kotlin/xyz/amplituhedron/icarion/IcarionVersions.kt:51-78 | Succeeds iff there are one to three parts and each is a non-negative `Int`. The version then holds the parts in order, with 0 for the missing ones |
| `VersionText.FromVersionAcceptsExactly` | library/src/commonMain/kotlin/xyz/amplituhedron/icarion/IcarionVersions.kt:45-79 | The same for the whole text: `fromVersion` succeeds iff its split has one to three parts, each a non-negative `Int`, and it reads them as (M,0,0), (M,m,0) or (M,m,p) |
| `VersionText.BlankTextHasNoNumber` | library/src/commonMain/kotlin/xyz/amplituhedron/icarion/IcarionVersions.kt:46 | The first part of blank text is not an integer |
| `VersionText.BlankCheckChangesNothing` | library/src/commonMain/kotlin/xyz/amplituhedron/icarion/IcarionVersions.kt:46-56 | `fromVersion` gives the same result as the `when` over the split parts for every text: blank text is one part that is not an integer, refused with the same message, so the blank check changes nothing observable |
| `VersionText.ToString` | library/src/commonMain/kotlin/xyz/amplituhedron/icarion/IcarionVersions.kt:96 | The text of any version is not blank and splits back into the texts of major, minor and patch |
| `VersionText.FromVersionInvertsToString` | library/src/commonMain/kotlin/xyz/amplituhedron/icarion/IcarionVersions.kt:65-96 | `fromVersion(toString(v)) == v` for every version the constructor accepts |
| `VersionText.FromVersionReadsFullForm` | library/src/commonTest/kotlin/xyz/amplituhedron/icarion/version/SemanticVersionStringParsingTest.kt:22-26 | "3.2.1" is read as (3, 2, 1) |
| `VersionText.FromVersionReadsShortForm` | library/src/commonTest/kotlin/xyz/amplituhedron/icarion/version/SemanticVersionStringParsingTest.kt:16-20 | "3.2" is read as (3, 2, 0) |
| `VersionText.FromVersionRefusesFourParts` | library/src/commonTest/kotlin/xyz/amplituhedron/icarion/version/SemanticVersionStringParsingTest.kt:72-77 | "3.2.1.4" is refused with the format message |
| `VersionText.FromVersionRefusesSuffix` | library/src/commonTest/kotlin/xyz/amplituhedron/icarion/version/SemanticVersionStringParsingTest.kt:62-70 | "3.2.1-alpha" has three parts whose last is not an integer, and it is refused with the format message |
| `VersionText.FromVersionRefusesLetter` | library/src/commonTest/kotlin/xyz/amplituhedron/icarion/version/SemanticVersionStringParsingTest.kt:62-70 | "3.2.a" is refused with the format message |
| `VersionText.FromVersionRefusesNegative` | library/src/commonTest/kotlin/xyz/amplituhedron/icarion/version/SemanticVersionStringParsingTest.kt:79-90 | "-1" is an integer, so the constructor refuses it, with the non-negative message |

## Left out

- Logging goes through `IcarionLoggerAdapter` and has no effect on results, so it is not modelled.
- `onMigrationStart` and `onMigrationSuccess` are left out: the observer's callbacks are assumed not to throw, and only an `Exception` from `migrate()` or `rollback()` is modelled. In the source, `onMigrationSuccess` runs inside the `try` (IcarionMigrator.kt:166 of the multiplatform library), so a throw from it sends a migration already added to the completed set into the `catch`. Under Skip that target is then reported both completed and skipped. A throw from `onMigrationStart` (outside the `try`) or from `onMigrationFailure` (inside the `catch`), or a `Throwable` from `migrate()` that is not an `Exception`, leaves `executeMigrations` with the running flag set. `Migrator.SuccessReportsEveryEligibleMigration`, `Migrator.PassedMigrationSkippedIffThrew`, `Migrator.PassedMigrationCompletedIffMigrated`, `Execution.FinishedRunPartitionsWindow` and `Execution.HaltedRunStopsAtFirstFailure` hold only under this assumption.
- Only whether `migrate()` and `rollback()` return normally or throw is modelled. Their effects, and the exception objects, are not. A migration's behaviour is fixed per migration, so a migration that behaves differently on a second run is not modelled.
- The observer's `onMigrationFailure` is modelled as a function of the version only. The exception argument is dropped.
- The exception classes and messages of `registerMigration` are reduced to `IllegalState` and `DuplicateVersion`.
- `@Volatile` fields, coroutines (`suspend`) and concurrent callers are not modelled: each method runs alone. Two callers that both pass the running-flag check before either sets the flag are not modelled. The source reads `migrationObserver` and `defaultFailureRecoveryHint` anew at every failure, while the `MigrateWindow` loops read them once before the loop. The two agree only because no other caller changes these fields during a run.
- The migrator is generic in `VERSION`. The model fixes it to integer keys. `Versions.CompareToIsKeyOrder` shows that this loses nothing for `SemanticVersion`. For `IntVersion` the key is `value` itself. Other `Comparable` versions, such as enums, are not modelled.
- `sortedBy` is stable, and `mutableSetOf` is a linked hash set. With unique targets neither matters: the window has no ties, and the lists hold no repeats. Both are modelled as sequences.
- The running flag is not cleared when Abort or Rollback returns from inside the loop. The flag stays set, and every later `executeMigrations` and `registerMigration` on that instance is refused. This is modelled as written: see `Migrator.FailedRunLeavesFlagSet` and `Migrator.SetFlagRefusesEverything`.
- The JVM and original copies of `executeRollback` are the shared `Execution.ExecuteRollback`. Their code is the same as the multiplatform copy's.
- `VersionText.IsWhitespace` covers ASCII whitespace only. Kotlin's `isWhitespace` also accepts Unicode space separators. This changes nothing observable, because the blank check itself changes nothing observable (`VersionText.BlankCheckChangesNothing`): text that is blank holds no dot and no digit, so the `when` refuses it with the same message.
- `VersionText.ToIntOrNull` accepts ASCII digits only. Kotlin also accepts other Unicode decimal digits.
- `Versions.CompareTo` and `Versions.IntVersionCompareTo` return -1, 0 or 1. Kotlin promises only the sign, and the model uses only the sign.
- `Versions.CompareToIsLexicographic` states the lexicographic order for the original module's `compareTo`. That function is the same as `Versions.CompareTo`, so it has no member of its own.
- The `toString` of a version with negative components is modelled (`VersionText.IntToString`), but the constructor never builds such a version.
- `Execution.ExecuteRollback` records its rollback calls in a ghost out-parameter. The migrator classes append this list to their own ghost trace.
