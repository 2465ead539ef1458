/**
 * Facts that hold of a node when it is acceptable by itself and they hold of all it depends on,
 * with no infinite regress: the least solution of such a system, and how it reads as paths.
 */
module Grounding {
  datatype System<!T> = System(ok: T -> bool, deps: T -> set<T>)

  /** n is grounded within k levels. */
  ghost predicate Within<T(!new)>(s: System<T>, n: T, k: nat) {
    k > 0 && s.ok(n) && forall d | d in s.deps(n) :: Within(s, d, k - 1)
  }

  /** The least solution. */
  ghost predicate Grounded<T(!new)>(s: System<T>, n: T) {
    exists k: nat :: Within(s, n, k)
  }

  lemma {:induction false} WithinMore<T(!new)>(s: System<T>, n: T, k: nat, k': nat)
    requires Within(s, n, k) && k <= k'
    ensures Within(s, n, k')
    decreases k
  {
    forall d | d in s.deps(n)
      ensures Within(s, d, k' - 1)
    {
      WithinMore(s, d, k - 1, k' - 1);
    }
  }

  lemma {:induction false} CommonBound<T(!new)>(s: System<T>, ns: set<T>) returns (k: nat)
    requires forall n | n in ns :: Grounded(s, n)
    ensures forall n | n in ns :: Within(s, n, k)
    decreases |ns|
  {
    if ns == {} {
      return 0;
    }
    var m :| m in ns;
    var rest := CommonBound(s, ns - {m});
    var own: nat :| Within(s, m, own);
    k := if own < rest then rest else own;
    forall n | n in ns
      ensures Within(s, n, k)
    {
      if n == m {
        WithinMore(s, n, own, k);
      } else {
        assert n in ns - {m};
        WithinMore(s, n, rest, k);
      }
    }
  }

  /** A solution of the equations. */
  lemma GroundedUnfolds<T(!new)>(s: System<T>, n: T)
    ensures Grounded(s, n) <==> s.ok(n) && forall d | d in s.deps(n) :: Grounded(s, d)
  {
    if Grounded(s, n) {
      var k: nat :| Within(s, n, k);
      forall d | d in s.deps(n)
        ensures Grounded(s, d)
      {
        assert Within(s, d, k - 1);
      }
    }
    if s.ok(n) && forall d | d in s.deps(n) :: Grounded(s, d) {
      var k := CommonBound(s, s.deps(n));
      assert Within(s, n, k + 1);
    }
  }

  /** It is the least one: every other solution holds wherever it does. */
  lemma {:induction false} GroundedIsLeast<T(!new)>(s: System<T>, other: T -> bool, n: T, k: nat)
    requires forall m :: s.ok(m) && (forall d | d in s.deps(m) :: other(d)) ==> other(m)
    requires Within(s, n, k)
    ensures other(n)
    decreases k
  {
    forall d | d in s.deps(n)
      ensures other(d)
    {
      GroundedIsLeast(s, other, d, k - 1);
    }
  }

  // ----- paths -----

  /** Each node depends on the next. */
  ghost predicate IsPath<T(!new)>(s: System<T>, p: seq<T>) {
    p != [] && forall i | 0 <= i < |p| - 1 :: DependsOn(s, p[i], p[i + 1])
  }

  ghost predicate DependsOn<T(!new)>(s: System<T>, n: T, d: T) {
    d in s.deps(n)
  }

  lemma PathSlice<T(!new)>(s: System<T>, p: seq<T>, from: nat, to: nat)
    requires IsPath(s, p) && from < to <= |p|
    ensures IsPath(s, p[from..to])
  {
    var q := p[from..to];
    forall i | 0 <= i < |q| - 1
      ensures DependsOn(s, q[i], q[i + 1])
    {
      assert DependsOn(s, p[from + i], p[from + i + 1]);
    }
  }

  lemma PathSnoc<T(!new)>(s: System<T>, p: seq<T>, d: T)
    requires IsPath(s, p) && d in s.deps(p[|p| - 1])
    ensures IsPath(s, p + [d])
  {
    var q := p + [d];
    forall i | 0 <= i < |q| - 1
      ensures DependsOn(s, q[i], q[i + 1])
    {
      if i < |p| - 1 {
        assert DependsOn(s, p[i], p[i + 1]);
      }
    }
  }

  lemma PathCons<T(!new)>(s: System<T>, n: T, p: seq<T>)
    requires IsPath(s, p) && p[0] in s.deps(n)
    ensures IsPath(s, [n] + p)
  {
    var q := [n] + p;
    forall i | 0 <= i < |q| - 1
      ensures DependsOn(s, q[i], q[i + 1])
    {
      if i > 0 {
        assert DependsOn(s, p[i - 1], p[i]);
      }
    }
  }

  lemma {:induction false} WithinPath<T(!new)>(s: System<T>, p: seq<T>, k: nat, i: nat)
    requires IsPath(s, p) && Within(s, p[0], k) && i < |p|
    ensures i < k && Within(s, p[i], k - i)
    decreases i
  {
    if i > 0 {
      WithinPath(s, p, k, i - 1);
      assert DependsOn(s, p[i - 1], p[i]);
    }
  }

  /** Nothing on a cycle is grounded. */
  lemma {:induction false} CycleIsUngrounded<T(!new)>(s: System<T>, p: seq<T>)
    requires IsPath(s, p) && |p| >= 2 && p[0] == p[|p| - 1]
    ensures !Grounded(s, p[0])
  {
    if Grounded(s, p[0]) {
      var k: nat :| Within(s, p[0], k);
      CycleExceeds(s, p, k);
    }
  }

  lemma {:induction false} CycleExceeds<T(!new)>(s: System<T>, p: seq<T>, k: nat)
    requires IsPath(s, p) && |p| >= 2 && p[0] == p[|p| - 1]
    ensures !Within(s, p[0], k)
    decreases k
  {
    if Within(s, p[0], k) {
      WithinPath(s, p, k, |p| - 1);
      CycleExceeds(s, p, k - (|p| - 1));
    }
  }

  /** A path of dependencies that ends in an unacceptable node, or comes back to itself. */
  ghost predicate Witness<T(!new)>(s: System<T>, p: seq<T>) {
    IsPath(s, p) && (!s.ok(p[|p| - 1]) || p[|p| - 1] in p[..|p| - 1])
  }

  /** Being grounded means that no path goes wrong, if only finitely many nodes can be met. */
  lemma GroundedIffNoWitness<T(!new)>(s: System<T>, n: T, universe: set<T>)
    requires n in universe && forall m, d | m in universe && d in s.deps(m) :: d in universe
    ensures Grounded(s, n) <==> !exists p :: Witness(s, p) && p[0] == n
  {
    if Grounded(s, n) {
      forall p | Witness(s, p) && p[0] == n
        ensures false
      {
        WitnessIsUngrounded(s, p);
      }
    } else {
      var p := FindWitness(s, [n], universe, universe - {n});
    }
  }

  lemma WitnessIsUngrounded<T(!new)>(s: System<T>, p: seq<T>)
    requires Witness(s, p)
    ensures !Grounded(s, p[0])
  {
    if Grounded(s, p[0]) {
      var last := |p| - 1;
      var k: nat :| Within(s, p[0], k);
      WithinPath(s, p, k, last);
      if p[last] in p[..last] {
        var i :| 0 <= i < last && p[i] == p[last];
        WithinPath(s, p, k, i);
        PathSlice(s, p, i, last + 1);
        CycleIsUngrounded(s, p[i..]);
      }
    }
  }

  lemma {:induction false} FindWitness<T(!new)>(s: System<T>, p: seq<T>, universe: set<T>, unseen: set<T>)
    returns (w: seq<T>)
    requires forall m, d | m in universe && d in s.deps(m) :: d in universe
    requires IsPath(s, p) && !Grounded(s, p[|p| - 1]) && p[|p| - 1] in universe
    requires forall m | m in universe :: m in p || m in unseen
    ensures Witness(s, w) && w[0] == p[0]
    decreases unseen
  {
    hide Grounded;
    var n := p[|p| - 1];
    if !s.ok(n) {
      return p;
    }
    GroundedUnfolds(s, n);
    var d :| d in s.deps(n) && !Grounded(s, d);
    PathSnoc(s, p, d);
    if d in p {
      assert (p + [d])[..|p|] == p;
      return p + [d];
    }
    w := FindWitness(s, p + [d], universe, unseen - {d});
  }
}
