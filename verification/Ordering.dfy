/** ORDER BY key DESC, id ASC over a finite set of ids. */
module Ordering {
  ghost predicate Before(key: map<nat, int>, a: nat, b: nat)
    requires a in key && b in key
  {
    key[a] > key[b] || (key[a] == key[b] && a < b)
  }

  /** `q` lists exactly the ids of `s`, in the order of the query. */
  ghost predicate Lists(q: seq<nat>, s: set<nat>, key: map<nat, int>) {
    && s <= key.Keys
    && (forall x :: x in q <==> x in s)
    && (forall i, j | 0 <= i < j < |q| :: Before(key, q[i], q[j]))
  }

  /** The order leaves no choice: a set of ids has one listing. */
  lemma {:induction false} ListingUnique(p: seq<nat>, q: seq<nat>, s: set<nat>, key: map<nat, int>)
    requires Lists(p, s, key) && Lists(q, s, key)
    ensures p == q
    decreases |p|
  {
    ListingLength(p, s, key);
    ListingLength(q, s, key);
    if p == [] {
    } else {
      assert p[0] in q && q[0] in p;
      assert p[0] == q[0];
      ListingTail(p, s, key);
      ListingTail(q, s, key);
      ListingUnique(p[1..], q[1..], s - {p[0]}, key);
      assert p == [p[0]] + p[1..] && q == [q[0]] + q[1..];
    }
  }

  lemma ListingTail(q: seq<nat>, s: set<nat>, key: map<nat, int>)
    requires Lists(q, s, key) && q != []
    ensures Lists(q[1..], s - {q[0]}, key)
  {
    forall x ensures x in q[1..] <==> x in s - {q[0]} {
      if x in q[1..] {
        var i :| 0 <= i < |q[1..]| && q[1..][i] == x;
        assert q[i + 1] == x && Before(key, q[0], q[i + 1]);
      }
      if x in s - {q[0]} {
        var i :| 0 <= i < |q| && q[i] == x;
        assert q[1..][i - 1] == x;
      }
    }
  }

  lemma {:induction false} ListingLength(q: seq<nat>, s: set<nat>, key: map<nat, int>)
    requires Lists(q, s, key)
    ensures |q| == |s|
    decreases |q|
  {
    if q == [] {
      assert s == {};
    } else {
      assert q[0] in s;
      ListingTail(q, s, key);
      ListingLength(q[1..], s - {q[0]}, key);
    }
  }

  /** The id of a non-empty set that comes first. */
  method First(s: set<nat>, key: map<nat, int>) returns (x: nat)
    requires s != {} && s <= key.Keys
    ensures x in s && forall y | y in s && y != x :: Before(key, x, y)
  {
    x :| x in s;
    var rest := s - {x};
    while rest != {}
      invariant x in s && rest <= s
      invariant forall y | y in s && y !in rest && y != x :: Before(key, x, y)
      decreases rest
    {
      var y :| y in rest;
      if key[y] > key[x] || (key[y] == key[x] && y < x) {
        x := y;
      }
      rest := rest - {y};
    }
  }

  method OrderBy(s: set<nat>, key: map<nat, int>) returns (q: seq<nat>)
    requires s <= key.Keys
    ensures Lists(q, s, key)
  {
    q := [];
    var rest := s;
    while rest != {}
      invariant rest <= s
      invariant forall x :: x in s <==> x in q || x in rest
      invariant forall i, j | 0 <= i < j < |q| :: Before(key, q[i], q[j])
      invariant forall x, y | x in q && y in rest :: Before(key, x, y)
      decreases rest
    {
      var x := First(rest, key);
      q, rest := q + [x], rest - {x};
    }
  }
}
