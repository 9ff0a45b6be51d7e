/**
 * The dependency bookkeeping that a work item performs when it finishes
 * successfully, stated over plain values: `self` is the finishing item, `ds`
 * its dependents in registration order, and `deps` maps each dependent to its
 * list of outstanding dependencies.
 */
module Dependencies {

  /** No element occurs twice. */
  ghost predicate Distinct<T>(s: seq<T>)
  {
    forall i, j :: 0 <= i < j < |s| ==> s[i] != s[j]
  }

  /** Every dependent has an entry in the dependency map. */
  ghost predicate Covers<T>(ds: seq<T>, deps: map<T, seq<T>>)
  {
    forall d :: d in ds ==> d in deps
  }

  /**
   * Removal of one element from an immutable list: the first occurrence of
   * `x` is dropped, and a list without `x` is returned as it is.
   */
  function RemoveFirst<T(==)>(s: seq<T>, x: T): (r: seq<T>)
    ensures |r| == if x in s then |s| - 1 else |s|
    ensures x !in s ==> r == s
  {
    if s == [] then []
    else if s[0] == x then s[1..]
    else [s[0]] + RemoveFirst(s[1..], x)
  }

  /** Exactly one occurrence of `x` goes, when there is one; nothing else changes. */
  lemma {:induction false} RemoveFirstCounts<T>(s: seq<T>, x: T)
    ensures multiset(RemoveFirst(s, x)) == multiset(s) - multiset{x}
  {
    if s != [] {
      assert s == [s[0]] + s[1..];
      if s[0] != x {
        RemoveFirstCounts(s[1..], x);
      }
    }
  }

  /**
   * The release loop run by a finished item, stopped after the first `n`
   * dependents: for each dependent `d` in turn, one occurrence of `self` is
   * removed from `d`'s dependencies, and `d` is handed on (second component)
   * when its dependency list has become empty. The first component is the
   * dependency map afterwards.
   */
  function ReleaseUpTo<T(==)>(self: T, ds: seq<T>, n: nat, deps: map<T, seq<T>>): (r: (map<T, seq<T>>, seq<T>))
    requires Covers(ds, deps) && n <= |ds|
    ensures forall x :: x in deps ==> x in r.0
    ensures |r.1| <= n
  {
    if n == 0 then (deps, [])
    else
      var prev := ReleaseUpTo(self, ds, n - 1, deps);
      var d := ds[n - 1];
      var left := RemoveFirst(prev.0[d], self);
      (prev.0[d := left], prev.1 + if left == [] then [d] else [])
  }

  /** The whole release: every dependent processed, in registration order. */
  function Release<T(==)>(self: T, ds: seq<T>, deps: map<T, seq<T>>): (r: (map<T, seq<T>>, seq<T>))
    requires Covers(ds, deps)
    ensures forall x :: x in deps ==> x in r.0
    ensures |r.1| <= |ds|
  {
    ReleaseUpTo(self, ds, |ds|, deps)
  }

  /** Entries of items that are not among the first `n` dependents are left as they were. */
  lemma {:induction false} ReleaseLeavesOthersUpTo<T>(self: T, ds: seq<T>, n: nat, deps: map<T, seq<T>>, x: T)
    requires Covers(ds, deps) && n <= |ds| && x in deps
    requires forall k :: 0 <= k < n ==> ds[k] != x
    ensures ReleaseUpTo(self, ds, n, deps).0[x] == deps[x]
  {
    if n > 0 {
      ReleaseLeavesOthersUpTo(self, ds, n - 1, deps, x);
    }
  }

  /** The release leaves the entry of an item that is not a dependent as it was. */
  lemma ReleaseLeavesOthers<T>(self: T, ds: seq<T>, deps: map<T, seq<T>>, x: T)
    requires Covers(ds, deps) && x in deps && x !in ds
    ensures Release(self, ds, deps).0[x] == deps[x]
  {
    ReleaseLeavesOthersUpTo(self, ds, |ds|, deps, x);
  }

  lemma {:induction false} ReleasedAreFreeUpTo<T>(self: T, ds: seq<T>, n: nat, deps: map<T, seq<T>>)
    requires Covers(ds, deps) && n <= |ds|
    ensures forall x :: x in ReleaseUpTo(self, ds, n, deps).1 ==> x in ds && ReleaseUpTo(self, ds, n, deps).0[x] == []
  {
    if n > 0 {
      ReleasedAreFreeUpTo(self, ds, n - 1, deps);
    }
  }

  /**
   * Only dependents are handed on, and each one handed on is left with an
   * empty dependency list.
   */
  lemma ReleasedAreFree<T>(self: T, ds: seq<T>, deps: map<T, seq<T>>)
    requires Covers(ds, deps)
    ensures forall x :: x in Release(self, ds, deps).1 ==> x in ds && Release(self, ds, deps).0[x] == []
  {
    ReleasedAreFreeUpTo(self, ds, |ds|, deps);
  }

  /**
   * Reference definition of what a release hands on, over the first `n`
   * dependents: those, in registration order, whose dependency list is empty
   * once one occurrence of `self` is taken out of it.
   */
  function FreedUpTo<T(==)>(self: T, ds: seq<T>, n: nat, deps: map<T, seq<T>>): (r: seq<T>)
    requires Covers(ds, deps) && n <= |ds|
    ensures forall x :: x in r ==> x in ds && RemoveFirst(deps[x], self) == []
  {
    if n == 0 then []
    else
      var d := ds[n - 1];
      FreedUpTo(self, ds, n - 1, deps) + if RemoveFirst(deps[d], self) == [] then [d] else []
  }

  function Freed<T(==)>(self: T, ds: seq<T>, deps: map<T, seq<T>>): seq<T>
    requires Covers(ds, deps)
  {
    FreedUpTo(self, ds, |ds|, deps)
  }

  lemma {:induction false} ReleasedOfDistinctUpTo<T>(self: T, ds: seq<T>, n: nat, deps: map<T, seq<T>>)
    requires Covers(ds, deps) && Distinct(ds) && n <= |ds|
    ensures ReleaseUpTo(self, ds, n, deps).1 == FreedUpTo(self, ds, n, deps)
  {
    if n > 0 {
      var d := ds[n - 1];
      ReleasedOfDistinctUpTo(self, ds, n - 1, deps);
      ReleaseLeavesOthersUpTo(self, ds, n - 1, deps, d);
    }
  }

  lemma {:induction false} ReleaseMapOfDistinctUpTo<T>(self: T, ds: seq<T>, n: nat, deps: map<T, seq<T>>)
    requires Covers(ds, deps) && Distinct(ds) && n <= |ds|
    ensures forall k :: 0 <= k < n ==> ReleaseUpTo(self, ds, n, deps).0[ds[k]] == RemoveFirst(deps[ds[k]], self)
  {
    if n > 0 {
      var d := ds[n - 1];
      ReleaseMapOfDistinctUpTo(self, ds, n - 1, deps);
      ReleaseLeavesOthersUpTo(self, ds, n - 1, deps, d);
      forall k | 0 <= k < n - 1
        ensures ReleaseUpTo(self, ds, n, deps).0[ds[k]] == RemoveFirst(deps[ds[k]], self)
      {
        assert ds[k] != d;
      }
    }
  }

  /**
   * When every dependent is registered once, the release removes exactly one
   * occurrence of `self` from each dependent's list and hands on exactly the
   * dependents that `Freed` selects, in the same order.
   */
  lemma ReleaseOfDistinct<T>(self: T, ds: seq<T>, deps: map<T, seq<T>>)
    requires Covers(ds, deps) && Distinct(ds)
    ensures Release(self, ds, deps).1 == Freed(self, ds, deps)
    ensures forall d :: d in ds ==> Release(self, ds, deps).0[d] == RemoveFirst(deps[d], self)
  {
    ReleasedOfDistinctUpTo(self, ds, |ds|, deps);
    ReleaseMapOfDistinctUpTo(self, ds, |ds|, deps);
  }

  lemma {:induction false} FreedMembershipUpTo<T>(self: T, ds: seq<T>, n: nat, deps: map<T, seq<T>>, d: T)
    requires Covers(ds, deps) && n <= |ds|
    ensures d in FreedUpTo(self, ds, n, deps) <==> d in ds[..n] && RemoveFirst(deps[d], self) == []
  {
    if n > 0 {
      FreedMembershipUpTo(self, ds, n - 1, deps, d);
      assert ds[..n] == ds[..n - 1] + [ds[n - 1]];
    }
  }

  /**
   * Both directions of "a dependent is handed on exactly when its last
   * dependency was `self`".
   */
  lemma FreedMembership<T>(self: T, ds: seq<T>, deps: map<T, seq<T>>, d: T)
    requires Covers(ds, deps)
    ensures d in Freed(self, ds, deps) <==> d in ds && RemoveFirst(deps[d], self) == []
  {
    FreedMembershipUpTo(self, ds, |ds|, deps, d);
    assert ds[..|ds|] == ds;
  }

  lemma {:induction false} FreedIsDistinctUpTo<T>(self: T, ds: seq<T>, n: nat, deps: map<T, seq<T>>)
    requires Covers(ds, deps) && Distinct(ds) && n <= |ds|
    ensures Distinct(FreedUpTo(self, ds, n, deps))
    ensures forall x :: x in FreedUpTo(self, ds, n, deps) ==> x in ds[..n]
  {
    if n > 0 {
      FreedIsDistinctUpTo(self, ds, n - 1, deps);
      assert ds[..n] == ds[..n - 1] + [ds[n - 1]];
      assert ds[n - 1] !in ds[..n - 1];
    }
  }

  /**
   * When the dependents are registered once, the processor never receives
   * the same dependent twice from one release.
   */
  lemma FreedIsDistinct<T>(self: T, ds: seq<T>, deps: map<T, seq<T>>)
    requires Covers(ds, deps) && Distinct(ds)
    ensures Distinct(Freed(self, ds, deps))
  {
    FreedIsDistinctUpTo(self, ds, |ds|, deps);
  }

  lemma {:induction false} ReleaseKeepsOtherDependenciesUpTo<T>(self: T, ds: seq<T>, n: nat, deps: map<T, seq<T>>, d: T, other: T)
    requires Covers(ds, deps) && n <= |ds| && d in deps && other != self
    ensures multiset(ReleaseUpTo(self, ds, n, deps).0[d])[other] == multiset(deps[d])[other]
  {
    if n > 0 {
      var prev := ReleaseUpTo(self, ds, n - 1, deps);
      ReleaseKeepsOtherDependenciesUpTo(self, ds, n - 1, deps, d, other);
      if ds[n - 1] == d {
        RemoveFirstKeepsOthers(prev.0[d], self, other);
      }
    }
  }

  /** Removing `x` leaves the count of every other element as it was. */
  lemma RemoveFirstKeepsOthers<T>(s: seq<T>, x: T, y: T)
    requires y != x
    ensures multiset(RemoveFirst(s, x))[y] == multiset(s)[y]
  {
    RemoveFirstCounts(s, x);
  }

  /**
   * A dependent still waiting on another item keeps that dependency, as many
   * times as it was listed: the release only ever takes out `self`.
   */
  lemma ReleaseKeepsOtherDependencies<T>(self: T, ds: seq<T>, deps: map<T, seq<T>>, d: T, other: T)
    requires Covers(ds, deps) && d in deps && other != self
    ensures multiset(Release(self, ds, deps).0[d])[other] == multiset(deps[d])[other]
  {
    ReleaseKeepsOtherDependenciesUpTo(self, ds, |ds|, deps, d, other);
  }
}
