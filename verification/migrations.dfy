/**
 * Values shared by the three copies of the migrator: a migration reduced to
 * its target version and the outcomes of its two foreign operations, the
 * recovery hint, the observer's failure callback, and the sequence helpers
 * (projection to target versions, reversal, Kotlin's list "minus", and the
 * split of a run into migrations that did and did not migrate).
 */
module Migrations {

  datatype Option<T> = None | Some(value: T)

  /** A registered migration. `migrate()` and `rollback()` are foreign code;
      only whether each call returns normally or throws is kept. */
  datatype Migration = Migration(target: int, migrateSucceeds: bool, rollbackSucceeds: bool)

  /** What to do after a failed migration. */
  datatype RecoveryHint = Skip | Rollback | Abort

  /** `onMigrationFailure` of the observer, the only callback whose result is used. */
  type Observer = int -> RecoveryHint

  /** Outcome of `registerMigration`: it returns normally or throws one of two exceptions. */
  datatype RegisterOutcome = Registered | IllegalState | DuplicateVersion

  /** `migrationObserver?.onMigrationFailure(version, e) ?: defaultFailureRecoveryHint` */
  function ChooseHint(observer: Option<Observer>, defaultHint: RecoveryHint, version: int): (h: RecoveryHint)
    ensures observer.None? ==> h == defaultHint
    ensures observer.Some? ==> h == observer.value(version)
  {
    match observer
    case Some(onFailure) => onFailure(version)
    case None => defaultHint
  }

  /** `map { it.targetVersion }` */
  function Targets(ms: seq<Migration>): (ts: seq<int>)
    ensures |ts| == |ms|
    ensures forall i :: 0 <= i < |ms| ==> ts[i] == ms[i].target
  {
    seq(|ms|, i requires 0 <= i < |ms| => ms[i].target)
  }

  ghost predicate DistinctTargets(ms: seq<Migration>)
  {
    forall i, j :: 0 <= i < j < |ms| ==> ms[i].target != ms[j].target
  }

  ghost predicate Ascending(ms: seq<Migration>)
  {
    forall i, j :: 0 <= i < j < |ms| ==> ms[i].target <= ms[j].target
  }

  ghost predicate StrictlyAscending(ts: seq<int>)
  {
    forall i, j :: 0 <= i < j < |ts| ==> ts[i] < ts[j]
  }

  ghost predicate Distinct<T>(s: seq<T>)
  {
    forall i, j :: 0 <= i < j < |s| ==> s[i] != s[j]
  }

  /** `reversed()` */
  function Reverse<T>(s: seq<T>): (r: seq<T>)
    ensures |r| == |s|
    ensures forall i :: 0 <= i < |s| ==> r[i] == s[|s| - 1 - i]
  {
    seq(|s|, i requires 0 <= i < |s| => s[|s| - 1 - i])
  }

  /** Reversing twice gives the sequence back. */
  lemma ReverseReverse<T>(s: seq<T>)
    ensures Reverse(Reverse(s)) == s
  {
  }

  /** Reversing a concatenation reverses the order of its pieces. */
  lemma ReverseConcat<T>(a: seq<T>, b: seq<T>)
    ensures Reverse(a + b) == Reverse(b) + Reverse(a)
  {
  }

  /** Reversal reorders and neither adds nor drops an element. */
  lemma {:induction false} ReversePermutes<T>(s: seq<T>)
    ensures multiset(Reverse(s)) == multiset(s)
    decreases |s|
  {
    if s != [] {
      assert s == [s[0]] + s[1..];
      ReverseConcat([s[0]], s[1..]);
      assert Reverse([s[0]]) == [s[0]];
      ReversePermutes(s[1..]);
    }
  }

  /** Kotlin's `Iterable.minus(Iterable)`: every element of `s` that does not
      occur in `removed`, in the order of `s`. */
  function Without<T(==,!new)>(s: seq<T>, removed: seq<T>): (r: seq<T>)
    ensures |r| <= |s|
    ensures forall x :: x in r <==> x in s && x !in removed
  {
    if s == [] then []
    else (if s[0] in removed then [] else [s[0]]) + Without(s[1..], removed)
  }

  /** The migrations of `ms` whose `migrate()` returned normally (`ok`) or threw (`!ok`), in order. */
  function WithOutcome(ms: seq<Migration>, ok: bool): (r: seq<Migration>)
    ensures forall m :: m in r <==> m in ms && m.migrateSucceeds == ok
  {
    if ms == [] then []
    else
      var last := ms[|ms| - 1];
      WithOutcome(ms[..|ms| - 1], ok) + (if last.migrateSucceeds == ok then [last] else [])
  }

  /** Extending a prefix of `w` by one migration extends the list of its
      migrations with the same outcome by that migration, or not at all. */
  lemma WithOutcomeExtend(w: seq<Migration>, i: nat, ok: bool)
    requires i < |w|
    ensures WithOutcome(w[..i + 1], ok) == WithOutcome(w[..i], ok) + (if w[i].migrateSucceeds == ok then [w[i]] else [])
  {
    assert w[..i + 1][..i] == w[..i];
  }

  lemma {:induction false} WithOutcomeSnoc(ms: seq<Migration>, m: Migration, ok: bool)
    ensures WithOutcome(ms + [m], ok) == WithOutcome(ms, ok) + (if m.migrateSucceeds == ok then [m] else [])
  {
    assert (ms + [m])[..|ms + [m]| - 1] == ms;
  }

  /** The two outcome classes split a run: every migration lands in exactly one. */
  lemma {:induction false} WithOutcomePartition(ms: seq<Migration>)
    ensures multiset(WithOutcome(ms, true) + WithOutcome(ms, false)) == multiset(ms)
    decreases |ms|
  {
    if ms != [] {
      var init, last := ms[..|ms| - 1], ms[|ms| - 1];
      assert ms == init + [last];
      var yes, no := WithOutcome(init, true), WithOutcome(init, false);
      WithOutcomePartition(init);
      WithOutcomeSnoc(init, last, true);
      WithOutcomeSnoc(init, last, false);
      if last.migrateSucceeds {
        RegroupMultiset(yes, [last], no, []);
        assert multiset(WithOutcome(ms, true) + WithOutcome(ms, false)) == multiset(init) + multiset{last};
      } else {
        RegroupMultiset(yes, [], no, [last]);
        assert multiset(WithOutcome(ms, true) + WithOutcome(ms, false)) == multiset(init) + multiset{last};
      }
    }
  }

  lemma RegroupMultiset<T>(p: seq<T>, q: seq<T>, r: seq<T>, t: seq<T>)
    ensures multiset((p + q) + (r + t)) == multiset(p + r) + multiset(q + t)
  {
  }

  lemma {:induction false} WithOutcomeSizes(ms: seq<Migration>)
    ensures |WithOutcome(ms, true)| + |WithOutcome(ms, false)| == |ms|
  {
    if ms != [] {
      WithOutcomeSizes(ms[..|ms| - 1]);
    }
  }

  /** When every migration migrates, none is left over. */
  lemma {:induction false} AllMigratedNoneFailed(ms: seq<Migration>)
    requires forall i :: 0 <= i < |ms| ==> ms[i].migrateSucceeds
    ensures WithOutcome(ms, false) == []
  {
    if ms != [] {
      AllMigratedNoneFailed(ms[..|ms| - 1]);
    }
  }

  /** Selecting by outcome keeps a strictly ascending run strictly ascending. */
  lemma {:induction false} WithOutcomeStrictlyAscending(ms: seq<Migration>, ok: bool)
    requires StrictlyAscending(Targets(ms))
    ensures StrictlyAscending(Targets(WithOutcome(ms, ok)))
  {
    if ms != [] {
      var init := ms[..|ms| - 1];
      var last := ms[|ms| - 1];
      assert Targets(init) == Targets(ms)[..|ms| - 1];
      WithOutcomeStrictlyAscending(init, ok);
      var r := WithOutcome(init, ok);
      forall x | x in r ensures x.target < last.target {
        var i :| 0 <= i < |init| && init[i] == x;
        assert Targets(ms)[i] < Targets(ms)[|ms| - 1];
      }
      var full := WithOutcome(ms, ok);
      assert full == r + (if last.migrateSucceeds == ok then [last] else []);
      forall i, j | 0 <= i < j < |full| ensures Targets(full)[i] < Targets(full)[j] {
        if j == |r| {
          assert full[i] == r[i] && r[i] in r;
        } else {
          assert Targets(r)[i] < Targets(r)[j];
        }
      }
    }
  }

  /** Targets of a strictly ascending run are distinct, and so are its migrations. */
  lemma StrictlyAscendingDistinct(ms: seq<Migration>)
    requires StrictlyAscending(Targets(ms))
    ensures DistinctTargets(ms) && Distinct(ms) && Distinct(Targets(ms))
  {
    assert forall i, j :: 0 <= i < j < |ms| ==> Targets(ms)[i] < Targets(ms)[j];
  }

  lemma {:induction false} WithoutConcat<T(!new)>(a: seq<T>, b: seq<T>, removed: seq<T>)
    ensures Without(a + b, removed) == Without(a, removed) + Without(b, removed)
  {
    if a != [] {
      assert (a + b)[1..] == a[1..] + b;
      WithoutConcat(a[1..], b, removed);
    } else {
      assert a + b == b;
    }
  }

  lemma {:induction false} WithoutNone<T(!new)>(a: seq<T>, removed: seq<T>)
    requires forall x :: x in a ==> x !in removed
    ensures Without(a, removed) == a
  {
    if a != [] {
      WithoutNone(a[1..], removed);
    }
  }

  lemma WithoutAll<T(!new)>(a: seq<T>, removed: seq<T>)
    requires forall x :: x in a ==> x in removed
    ensures Without(a, removed) == []
  {
  }

  /** Removing the reversed suffix of a list without repetitions leaves exactly
      the prefix, and the two pieces put back together give the list again. */
  lemma SplitOffSuffix<T(!new)>(c: seq<T>, n: nat)
    requires n <= |c| && Distinct(c)
    ensures Without(c, Reverse(c[|c| - n..])) == c[..|c| - n]
    ensures Without(c, Reverse(c[|c| - n..])) + c[|c| - n..] == c
  {
    var p, q := c[..|c| - n], c[|c| - n..];
    var rq := Reverse(q);
    assert c == p + q;
    ReverseSameElements(q);
    DisjointHalves(c, |c| - n);
    WithoutConcat(p, q, rq);
    WithoutNone(p, rq);
    WithoutAll(q, rq);
  }

  /** A non-empty sequence has its head as a member. */
  lemma HeadIsMember<T>(s: seq<T>)
    ensures s != [] ==> s[0] in s
  {
  }

  lemma ReverseSameElements<T(!new)>(q: seq<T>)
    ensures forall x :: x in Reverse(q) <==> x in q
  {
    var rq := Reverse(q);
    forall x | x in rq ensures x in q {
      var i :| 0 <= i < |rq| && rq[i] == x;
      assert q[|q| - 1 - i] == x;
    }
    forall x | x in q ensures x in rq {
      var i :| 0 <= i < |q| && q[i] == x;
      assert rq[|q| - 1 - i] == x;
    }
  }

  lemma DisjointHalves<T(!new)>(c: seq<T>, k: nat)
    requires k <= |c| && Distinct(c)
    ensures forall x :: x in c[..k] ==> x !in c[k..]
  {
    forall x | x in c[..k] ensures x !in c[k..] {
      var i :| 0 <= i < k && c[..k][i] == x;
    }
  }

  lemma {:induction false} TargetsConcat(a: seq<Migration>, b: seq<Migration>)
    ensures Targets(a + b) == Targets(a) + Targets(b)
  {
  }

  lemma ReverseTargets(ms: seq<Migration>)
    ensures Targets(Reverse(ms)) == Reverse(Targets(ms))
  {
  }

  /** "Minus" commutes with taking target versions when no removed migration
      shares a target with a different migration of `c`. */
  lemma {:induction false} TargetsWithout(c: seq<Migration>, removed: seq<Migration>)
    requires forall x, y :: x in removed && y in c && x.target == y.target ==> x == y
    ensures Targets(Without(c, removed)) == Without(Targets(c), Targets(removed))
  {
    if c != [] {
      var t := c[1..];
      var rt := Targets(removed);
      var head := if c[0] in removed then [] else [c[0]];
      assert c == [c[0]] + t;
      calc {
        Targets(Without(c, removed));
        { WithoutCons(c[0], t, removed); }
        Targets(head + Without(t, removed));
        { TargetsConcat(head, Without(t, removed)); }
        Targets(head) + Targets(Without(t, removed));
        { TargetsWithout(t, removed); }
        Targets(head) + Without(Targets(t), rt);
        { RemovedIffTargetRemoved(c[0], c, removed); }
        (if c[0].target in rt then [] else [c[0].target]) + Without(Targets(t), rt);
        { WithoutCons(c[0].target, Targets(t), rt); }
        Without([c[0].target] + Targets(t), rt);
        { TargetsConcat([c[0]], t); }
        Without(Targets(c), rt);
      }
    } else {
      assert Targets(c) == [];
    }
  }

  lemma WithoutCons<T(!new)>(x: T, t: seq<T>, removed: seq<T>)
    ensures Without([x] + t, removed) == (if x in removed then [] else [x]) + Without(t, removed)
  {
    assert ([x] + t)[1..] == t;
  }

  lemma RemovedIffTargetRemoved(m: Migration, c: seq<Migration>, removed: seq<Migration>)
    requires m in c
    requires forall x, y :: x in removed && y in c && x.target == y.target ==> x == y
    ensures m in removed <==> m.target in Targets(removed)
  {
    if m.target in Targets(removed) {
      var j :| 0 <= j < |removed| && Targets(removed)[j] == m.target;
      assert removed[j] in removed;
    }
  }

  /** Within a run whose targets are distinct, a sub-run holds a migration of
      the run exactly when it holds its target. */
  lemma TargetInSubRun(m: Migration, c: seq<Migration>, w: seq<Migration>)
    requires m in w && DistinctTargets(w)
    requires forall x :: x in c ==> x in w
    ensures m.target in Targets(c) <==> m in c
  {
    if m.target in Targets(c) {
      var j :| 0 <= j < |c| && Targets(c)[j] == m.target;
      assert c[j] in c;
      var a :| 0 <= a < |w| && w[a] == c[j];
      var b :| 0 <= b < |w| && w[b] == m;
      assert a == b;
    }
    if m in c {
      var j :| 0 <= j < |c| && c[j] == m;
      assert Targets(c)[j] == m.target;
    }
  }

  /** "Minus" only looks at which elements of `s` occur in the removed list. */
  lemma {:induction false} WithoutSame<T(!new)>(s: seq<T>, r1: seq<T>, r2: seq<T>)
    requires forall x :: x in s ==> (x in r1 <==> x in r2)
    ensures Without(s, r1) == Without(s, r2)
  {
    if s != [] {
      WithoutSame(s[1..], r1, r2);
    }
  }
}
