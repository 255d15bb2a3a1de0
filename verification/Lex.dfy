/** Code-point order on strings, as Python compares them. */
module Lex {
  predicate Less(a: string, b: string) {
    if a == "" then b != ""
    else b != "" && (a[0] < b[0] || (a[0] == b[0] && Less(a[1..], b[1..])))
  }

  lemma {:induction false} Irreflexive(a: string)
    ensures !Less(a, a)
  {
    if a != "" { Irreflexive(a[1..]); }
  }

  lemma {:induction false} Total(a: string, b: string)
    ensures Less(a, b) || a == b || Less(b, a)
  {
    if a != "" && b != "" {
      Total(a[1..], b[1..]);
      assert a == [a[0]] + a[1..] && b == [b[0]] + b[1..];
    }
  }

  lemma {:induction false} Transitive(a: string, b: string, c: string)
    requires Less(a, b) && Less(b, c)
    ensures Less(a, c)
  {
    if a != "" && a[0] == b[0] && b[0] == c[0] { Transitive(a[1..], b[1..], c[1..]); }
  }

  /** The strings agree up to `k`, and there the first ends or has the smaller character. */
  predicate Splits(a: string, b: string, k: nat) {
    k <= |a| && k < |b| && a[..k] == b[..k] && (k == |a| || a[k] < b[k])
  }

  lemma {:induction false} LessIff(a: string, b: string)
    ensures Less(a, b) <==> exists k: nat :: Splits(a, b, k)
  {
    if a != "" && b != "" && a[0] == b[0] {
      LessIff(a[1..], b[1..]);
      assert a == [a[0]] + a[1..] && b == [b[0]] + b[1..];
      if k: nat :| Splits(a, b, k) {
        assert k > 0 ==> a[..k] == [a[0]] + a[1..][..k - 1] && b[..k] == [b[0]] + b[1..][..k - 1];
        assert Splits(a[1..], b[1..], k - 1);
      }
      if k: nat :| Splits(a[1..], b[1..], k) {
        assert a[..k + 1] == [a[0]] + a[1..][..k] && b[..k + 1] == [b[0]] + b[1..][..k];
        assert Splits(a, b, k + 1);
      }
    } else if b != "" {
      assert a == "" || a[0] < b[0] ==> Splits(a, b, 0);
      forall k: nat ensures Splits(a, b, k) ==> a == "" || a[0] < b[0] || (k > 0 && a[0] == b[0]) { SplitsHead(a, b, k); }
    }
  }

  lemma SplitsHead(a: string, b: string, k: nat)
    ensures Splits(a, b, k) ==> a == "" || a[0] < b[0] || (k > 0 && a[0] == b[0])
  {
    if 0 < k <= |a| && k <= |b| { assert a[..k][0] == a[0] && b[..k][0] == b[0]; }
  }
}
