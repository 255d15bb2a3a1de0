/** The recursive queries of the store: a worklist over a finite relation, and
    the reachability it must agree with. The relation may contain cycles. */
module Closure {
  type Relation = set<(nat, nat)>

  /** A walk of zero or more steps of `rel`. */
  ghost predicate IsPath(rel: Relation, p: seq<nat>) {
    |p| > 0 && forall i | 0 <= i < |p| - 1 :: (p[i], p[i + 1]) in rel
  }

  ghost predicate PathFromTo(rel: Relation, p: seq<nat>, a: nat, b: nat) {
    IsPath(rel, p) && p[0] == a && p[|p| - 1] == b
  }

  ghost predicate Reaches(rel: Relation, a: nat, b: nat) {
    exists p :: PathFromTo(rel, p, a, b)
  }

  /** `b` is in the least fixpoint of the query started from the rows `init`. */
  ghost predicate ReachedFrom(rel: Relation, init: set<nat>, b: nat) {
    exists a :: a in init && Reaches(rel, a, b)
  }

  ghost predicate Closed(rel: Relation, s: set<nat>) {
    forall e | e in rel :: e.0 in s ==> e.1 in s
  }

  lemma ReachesSelf(rel: Relation, a: nat)
    ensures Reaches(rel, a, a)
  {
    assert PathFromTo(rel, [a], a, a);
  }

  lemma ReachesStep(rel: Relation, a: nat, b: nat, c: nat)
    requires Reaches(rel, a, b) && (b, c) in rel
    ensures Reaches(rel, a, c)
  {
    var p :| PathFromTo(rel, p, a, b);
    assert PathFromTo(rel, p + [c], a, c);
  }

  /** A reachable point other than the start has a predecessor on the walk. */
  lemma ReachesLast(rel: Relation, a: nat, c: nat) returns (b: nat)
    requires Reaches(rel, a, c) && a != c
    ensures Reaches(rel, a, b) && (b, c) in rel
  {
    var p :| PathFromTo(rel, p, a, c);
    var q := p[..|p| - 1];
    b := q[|q| - 1];
    assert PathFromTo(rel, q, a, b);
  }

  lemma {:induction false} PathStaysInClosed(rel: Relation, s: set<nat>, p: seq<nat>)
    requires IsPath(rel, p) && Closed(rel, s) && p[0] in s
    ensures p[|p| - 1] in s
    decreases |p|
  {
    if |p| > 1 {
      assert (p[0], p[1]) in rel;
      PathStaysInClosed(rel, s, p[1..]);
    }
  }

  lemma ClosedContainsReached(rel: Relation, s: set<nat>, a: nat, b: nat)
    requires Closed(rel, s) && a in s && Reaches(rel, a, b)
    ensures b in s
  {
    var p :| PathFromTo(rel, p, a, b);
    PathStaysInClosed(rel, s, p);
  }

  function Flip(rel: Relation): Relation {
    set e | e in rel :: (e.1, e.0)
  }

  lemma {:induction false} PathReversed(rel: Relation, p: seq<nat>)
    requires IsPath(rel, p)
    ensures Reaches(Flip(rel), p[|p| - 1], p[0])
    decreases |p|
  {
    ReachesSelf(Flip(rel), p[0]);
    if |p| > 1 {
      PathReversed(rel, p[1..]);
      assert (p[0], p[1]) in rel;
      assert (p[1], p[0]) in Flip(rel);
      ReachesStep(Flip(rel), p[|p| - 1], p[1], p[0]);
    }
  }

  lemma FlipReaches(rel: Relation, a: nat, b: nat)
    ensures Reaches(rel, a, b) <==> Reaches(Flip(rel), b, a)
  {
    if Reaches(rel, a, b) {
      var p :| PathFromTo(rel, p, a, b);
      PathReversed(rel, p);
    }
    if Reaches(Flip(rel), b, a) {
      var p :| PathFromTo(Flip(rel), p, b, a);
      PathReversed(Flip(rel), p);
      assert Flip(Flip(rel)) == rel by {
        forall e | e in rel ensures e in Flip(Flip(rel)) { assert (e.1, e.0) in Flip(rel); }
      }
    }
  }

  ghost function Universe(rel: Relation, init: set<nat>): set<nat> {
    init + set e | e in rel :: e.1
  }

  /** What the worklist keeps: every row produced is reachable, and every row
      taken off the queue has had all its joins produced. */
  ghost predicate Progress(rel: Relation, init: set<nat>, seen: set<nat>, queue: set<nat>) {
    && init <= seen <= Universe(rel, init)
    && queue <= seen
    && (forall y :: y in seen ==> ReachedFrom(rel, init, y))
    && (forall e | e in rel :: e.0 in seen && e.0 !in queue ==> e.1 in seen)
  }

  function Found(rel: Relation, x: nat, seen: set<nat>): (found: set<nat>)
    ensures forall y :: y in found <==> (x, y) in rel && y !in seen
  {
    set e | e in rel && e.0 == x && e.1 !in seen :: e.1
  }

  lemma ProgressStep(rel: Relation, init: set<nat>, seen: set<nat>, queue: set<nat>, x: nat)
    requires Progress(rel, init, seen, queue) && x in queue
    ensures Progress(rel, init, seen + Found(rel, x, seen), queue - {x} + Found(rel, x, seen))
  {
    var found := Found(rel, x, seen);
    forall y | y in found ensures ReachedFrom(rel, init, y) && y in Universe(rel, init) {
      var a :| a in init && Reaches(rel, a, x);
      ReachesStep(rel, a, x, y);
      assert (x, y) in rel && (x, y).1 == y;
    }
  }

  lemma ProgressDone(rel: Relation, init: set<nat>, seen: set<nat>)
    requires Progress(rel, init, seen, {})
    ensures forall b :: b in seen <==> ReachedFrom(rel, init, b)
  {
    forall b | ReachedFrom(rel, init, b) ensures b in seen {
      var a :| a in init && Reaches(rel, a, b);
      ClosedContainsReached(rel, seen, a, b);
    }
  }

  /** The recursive query with UNION: take any row from the queue, add the rows
      it joins with that were never produced before, until the queue is empty.
      It terminates on every finite relation, cycles included, and computes
      exactly reachability, whatever order the queue is emptied in. */
  method RecursiveUnion(rel: Relation, init: set<nat>) returns (seen: set<nat>)
    ensures forall b :: b in seen <==> ReachedFrom(rel, init, b)
  {
    seen := init;
    var queue := init;
    forall y | y in init ensures ReachedFrom(rel, init, y) { ReachesSelf(rel, y); }
    while queue != {}
      invariant Progress(rel, init, seen, queue)
      decreases Universe(rel, init) - (seen - queue)
    {
      var x :| x in queue;
      ProgressStep(rel, init, seen, queue, x);
      var found := Found(rel, x, seen);
      ghost var finished := seen - queue;
      queue, seen := queue - {x} + found, seen + found;
      assert seen - queue == finished + {x};
    }
    ProgressDone(rel, init, seen);
  }
}
