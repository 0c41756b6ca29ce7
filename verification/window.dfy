/**
 * Selection of the eligible window: the registered migrations whose target
 * lies in (from, to], sorted by target (`filter { … }.sortedBy { it.targetVersion }`).
 */
module Window {
  import opened Migrations

  /** The target has not been used by any migration of `s` yet. */
  ghost predicate FreshTarget(m: Migration, s: seq<Migration>)
  {
    forall x :: x in s ==> x.target != m.target
  }

  /** `filter { it.targetVersion > fromVersion && it.targetVersion <= toVersion }` */
  function InRange(ms: seq<Migration>, fromVersion: int, toVersion: int): (r: seq<Migration>)
    ensures |r| <= |ms|
    ensures forall m :: m in r <==> m in ms && fromVersion < m.target <= toVersion
    ensures DistinctTargets(ms) ==> DistinctTargets(r)
  {
    if ms == [] then []
    else
      var rest := InRange(ms[1..], fromVersion, toVersion);
      assert DistinctTargets(ms) ==> DistinctTargets(ms[1..]) && FreshTarget(ms[0], rest);
      if fromVersion < ms[0].target <= toVersion then [ms[0]] + rest else rest
  }

  /** Inserts `m` in front of the first migration whose target is not smaller. */
  function Insert(m: Migration, s: seq<Migration>): (r: seq<Migration>)
    requires Ascending(s)
    ensures |r| == |s| + 1
    ensures multiset(r) == multiset(s) + multiset{m}
    ensures Ascending(r)
    ensures DistinctTargets(s) && FreshTarget(m, s) ==> DistinctTargets(r)
  {
    if s == [] || m.target <= s[0].target then
      [m] + s
    else
      var rest := Insert(m, s[1..]);
      InsertStep(m, s, rest);
      [s[0]] + rest
  }

  /** The step of Insert that keeps `s[0]` in front of the recursive result. */
  lemma InsertStep(m: Migration, s: seq<Migration>, rest: seq<Migration>)
    requires s != [] && s[0].target < m.target && Ascending(s) && Ascending(rest)
    requires multiset(rest) == multiset(s[1..]) + multiset{m}
    requires DistinctTargets(s[1..]) && FreshTarget(m, s[1..]) ==> DistinctTargets(rest)
    ensures multiset([s[0]] + rest) == multiset(s) + multiset{m}
    ensures Ascending([s[0]] + rest)
    ensures DistinctTargets(s) && FreshTarget(m, s) ==> DistinctTargets([s[0]] + rest)
  {
    assert multiset([s[0]] + rest) == multiset(s) + multiset{m} by {
      assert s == [s[0]] + s[1..];
    }
    HeadBeforeRest(m, s, rest);
    var r := [s[0]] + rest;
    forall i, j | 0 <= i < j < |r| ensures r[i].target <= r[j].target {
      if i == 0 {
        assert r[j] in rest;
      } else {
        assert r[i] == rest[i - 1] && r[j] == rest[j - 1];
      }
    }
    if DistinctTargets(s) && FreshTarget(m, s) {
      forall i, j | 0 <= i < j < |r| ensures r[i].target != r[j].target {
        if i == 0 {
          assert r[j] in rest;
        } else {
          assert r[i] == rest[i - 1] && r[j] == rest[j - 1];
        }
      }
    }
  }

  /** Every migration of the recursive result is `m` or behind `s[0]`, so
      none has a smaller target than `s[0]`. */
  lemma HeadBeforeRest(m: Migration, s: seq<Migration>, rest: seq<Migration>)
    requires s != [] && s[0].target < m.target && Ascending(s)
    requires multiset(rest) == multiset(s[1..]) + multiset{m}
    ensures forall x :: x in rest ==> s[0].target <= x.target
    ensures DistinctTargets(s) ==> forall x :: x in rest ==> s[0].target != x.target
  {
    forall x | x in rest ensures x == m || x in s[1..] {
      assert x in multiset(rest);
    }
    forall x | x in s[1..] ensures s[0].target <= x.target && (DistinctTargets(s) ==> s[0].target != x.target) {
      var i :| 0 <= i < |s[1..]| && s[1..][i] == x;
      assert s[i + 1] == x;
    }
  }

  /** `sortedBy { it.targetVersion }`, as an insertion sort. */
  function SortByTarget(s: seq<Migration>): (r: seq<Migration>)
    ensures multiset(r) == multiset(s)
    ensures Ascending(r)
    ensures DistinctTargets(s) ==> DistinctTargets(r)
  {
    if s == [] then []
    else
      var rest := SortByTarget(s[1..]);
      assert s == [s[0]] + s[1..];
      TailIsFresh(s, rest);
      Insert(s[0], rest)
  }

  lemma TailIsFresh(s: seq<Migration>, rest: seq<Migration>)
    requires s != [] && multiset(rest) == multiset(s[1..])
    ensures DistinctTargets(s) ==> DistinctTargets(s[1..]) && FreshTarget(s[0], rest)
  {
    if DistinctTargets(s) {
      forall x | x in rest ensures x.target != s[0].target {
        assert x in multiset(s[1..]);
        var i :| 0 <= i < |s[1..]| && s[1..][i] == x;
        assert s[i + 1] == x;
      }
    }
  }

  /** `getEligibleMigrations(fromVersion, toVersion)` */
  function EligibleMigrations(registry: seq<Migration>, fromVersion: int, toVersion: int): (w: seq<Migration>)
    ensures multiset(w) == multiset(InRange(registry, fromVersion, toVersion))
    ensures Ascending(w)
  {
    SortByTarget(InRange(registry, fromVersion, toVersion))
  }

  /** The window holds exactly the registered migrations with
      `fromVersion < target <= toVersion`, in ascending target order. */
  lemma EligibleSelectsRange(registry: seq<Migration>, fromVersion: int, toVersion: int)
    ensures var w := EligibleMigrations(registry, fromVersion, toVersion);
      && (forall m :: m in w <==> m in registry && fromVersion < m.target <= toVersion)
      && Ascending(w)
      && (DistinctTargets(registry) ==> DistinctTargets(w))
  {
    var selected := InRange(registry, fromVersion, toVersion);
    var w := SortByTarget(selected);
    forall m ensures m in w <==> m in selected {
      assert m in w <==> m in multiset(w);
    }
  }

  /** With unique targets in the registry (the registration invariant), the
      window is strictly ascending: no two migrations share a position. */
  lemma EligibleStrictlyAscending(registry: seq<Migration>, fromVersion: int, toVersion: int)
    requires DistinctTargets(registry)
    ensures StrictlyAscending(Targets(EligibleMigrations(registry, fromVersion, toVersion)))
  {
    var w := EligibleMigrations(registry, fromVersion, toVersion);
    EligibleSelectsRange(registry, fromVersion, toVersion);
    forall i, j | 0 <= i < j < |w| ensures Targets(w)[i] < Targets(w)[j] {
      assert w[i].target <= w[j].target && w[i].target != w[j].target;
    }
  }

  /** An empty range `(from, to]` selects nothing, whatever is registered. */
  lemma EmptyRangeSelectsNothing(registry: seq<Migration>, fromVersion: int, toVersion: int)
    requires toVersion <= fromVersion
    ensures EligibleMigrations(registry, fromVersion, toVersion) == []
  {
    var w := EligibleMigrations(registry, fromVersion, toVersion);
    EligibleSelectsRange(registry, fromVersion, toVersion);
    HeadIsMember(w);
  }

  /** Two strictly ascending runs with the same members are the same run. */
  lemma {:induction false} StrictRunsWithSameMembersAreEqual(a: seq<Migration>, b: seq<Migration>)
    requires StrictlyAscending(Targets(a)) && StrictlyAscending(Targets(b))
    requires forall m :: m in a <==> m in b
    ensures a == b
    decreases |a|
  {
    if a == [] {
      HeadIsMember(b);
    } else {
      assert b != [] by {
        assert a[0] in b;
      }
      assert a[0] == b[0] by {
        HeadIsSmallest(a, b);
        HeadIsSmallest(b, a);
      }
      assert forall m :: m in a[1..] <==> m in b[1..] by {
        TailMembers(a, b);
        TailMembers(b, a);
      }
      assert StrictlyAscending(Targets(a[1..])) && StrictlyAscending(Targets(b[1..])) by {
        assert Targets(a[1..]) == Targets(a)[1..];
        assert Targets(b[1..]) == Targets(b)[1..];
      }
      StrictRunsWithSameMembersAreEqual(a[1..], b[1..]);
      assert a == [a[0]] + a[1..] && b == [b[0]] + b[1..];
    }
  }

  /** The head of a strictly ascending run has the smallest target of any
      member of a run with the same members. */
  lemma HeadIsSmallest(a: seq<Migration>, b: seq<Migration>)
    requires StrictlyAscending(Targets(a)) && a != [] && b != []
    requires forall m :: m in b ==> m in a
    ensures b[0] == a[0] || a[0].target < b[0].target
  {
    assert b[0] in a;
    var i :| 0 <= i < |a| && a[i] == b[0];
    if i > 0 {
      assert Targets(a)[0] < Targets(a)[i];
    }
  }

  /** Dropping equal heads keeps the members equal. */
  lemma TailMembers(a: seq<Migration>, b: seq<Migration>)
    requires StrictlyAscending(Targets(a)) && StrictlyAscending(Targets(b)) && a != [] && b != []
    requires a[0] == b[0]
    requires forall m :: m in a ==> m in b
    ensures forall m :: m in a[1..] ==> m in b[1..]
  {
    forall m | m in a[1..] ensures m in b[1..] {
      var i :| 0 <= i < |a[1..]| && a[1..][i] == m;
      assert Targets(a)[0] < Targets(a)[i + 1];
      assert m in b;
      var j :| 0 <= j < |b| && b[j] == m;
      assert j != 0;
      assert b[1..][j - 1] == m;
    }
  }

  /** Registration order does not matter: registries with the same migrations
      give the same window, since ordering is decided at run time. */
  lemma EligibleIndependentOfRegistrationOrder(r1: seq<Migration>, r2: seq<Migration>, fromVersion: int, toVersion: int)
    requires DistinctTargets(r1) && DistinctTargets(r2)
    requires forall m :: m in r1 <==> m in r2
    ensures EligibleMigrations(r1, fromVersion, toVersion) == EligibleMigrations(r2, fromVersion, toVersion)
  {
    EligibleStrictlyAscending(r1, fromVersion, toVersion);
    EligibleStrictlyAscending(r2, fromVersion, toVersion);
    EligibleSelectsRange(r1, fromVersion, toVersion);
    EligibleSelectsRange(r2, fromVersion, toVersion);
    StrictRunsWithSameMembersAreEqual(EligibleMigrations(r1, fromVersion, toVersion), EligibleMigrations(r2, fromVersion, toVersion));
  }

  /** A registry already in ascending target order and wholly inside the
      range is its own window. */
  lemma SortedRegistryIsItsOwnWindow(registry: seq<Migration>, fromVersion: int, toVersion: int)
    requires StrictlyAscending(Targets(registry))
    requires forall m :: m in registry ==> fromVersion < m.target <= toVersion
    ensures EligibleMigrations(registry, fromVersion, toVersion) == registry
  {
    StrictlyAscendingDistinct(registry);
    EligibleStrictlyAscending(registry, fromVersion, toVersion);
    EligibleSelectsRange(registry, fromVersion, toVersion);
    StrictRunsWithSameMembersAreEqual(EligibleMigrations(registry, fromVersion, toVersion), registry);
  }
}
