/** Removing an element of a list and inserting one, by place. */
module Lists {

  function Inserted<T>(s: seq<T>, p: nat, x: T): (r: seq<T>)
    requires p <= |s|
    ensures |r| == |s| + 1
  {
    seq(|s| + 1, i requires 0 <= i <= |s| => if i < p then s[i] else if i == p then x else s[i - 1])
  }

  function Removed<T>(s: seq<T>, p: nat): (r: seq<T>)
    requires p < |s|
    ensures |r| == |s| - 1
  {
    seq(|s| - 1, i requires 0 <= i < |s| - 1 => if i < p then s[i] else s[i + 1])
  }

  lemma {:induction false} InsertedHas<T>(s: seq<T>, p: nat, x: T)
    requires p <= |s|
    ensures forall y :: y in Inserted(s, p, x) ==> y == x || y in s
  {
  }

  lemma {:induction false} RemovedHas<T>(s: seq<T>, p: nat)
    requires p < |s| && forall i, j :: 0 <= i < j < |s| ==> s[i] != s[j]
    ensures forall y :: y in Removed(s, p) ==> y != s[p] && y in s
  {
  }

  lemma {:induction false} RemovedConserves<T>(s: seq<T>, k: nat)
    requires k < |s|
    ensures multiset(s) == multiset(Removed(s, k)) + multiset{s[k]}
  {
    assert Removed(s, k) == s[..k] + s[k + 1..];
    assert s == s[..k] + [s[k]] + s[k + 1..];
  }

  lemma {:induction false} InsertedConserves<T>(s: seq<T>, p: nat, x: T)
    requires p <= |s|
    ensures multiset(Inserted(s, p, x)) == multiset(s) + multiset{x}
  {
    assert Inserted(s, p, x) == s[..p] + [x] + s[p..];
    assert s == s[..p] + s[p..];
  }

  /** Moving an element keeps all of them. */
  lemma {:induction false} MovedConserves<T>(s: seq<T>, k: nat, p: nat)
    requires k < |s| && p < |s|
    ensures multiset(Inserted(Removed(s, k), p, s[k])) == multiset(s)
  {
    RemovedConserves(s, k);
    InsertedConserves(Removed(s, k), p, s[k]);
  }
}
