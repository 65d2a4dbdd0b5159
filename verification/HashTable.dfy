/** The hash tables of contrib/dhcp/common/hash.c, and the hash function they use. */
module HashTable {
  import opened Bytes

  const DEFAULT_HASH_SIZE: nat := 97

  // ---- the hash function ----

  function Sum(name: seq<byte>, n: nat): nat
    requires n <= |name|
  {
    if n == 0 then 0 else Sum(name, n - 1) + name[n - 1]
  }

  /** A sum folded into a byte by adding the carry back in: zero only for zero, otherwise 1 to 255. */
  function Folded(sum: nat): byte {
    if sum == 0 then 0 else (sum - 1) % 255 + 1
  }

  /** do_hash. */
  function Hash(name: seq<byte>, size: nat): (h: nat)
    requires size > 0
    ensures h < size
  {
    Folded(Sum(name, |name|)) % size
  }

  lemma {:induction false} FoldStep(sum: nat, b: byte)
    ensures Folded(sum + b) == if Folded(sum) + b > 255 then Folded(sum) + b - 255 else Folded(sum) + b
  {
  }

  method DoHash(name: seq<byte>, size: nat) returns (h: nat)
    requires size > 0
    ensures h == Hash(name, size)
  {
    var accum: int, i := 0, 0;
    while i < |name|
      invariant 0 <= i <= |name| && accum == Folded(Sum(name, i))
    {
      FoldStep(Sum(name, i), name[i]);
      accum := accum + name[i];
      while accum > 255
        invariant 0 <= accum <= 510
        invariant (if accum > 255 then accum - 255 else accum) == Folded(Sum(name, i + 1))
        decreases accum
      {
        accum := accum % 256 + accum / 256;
      }
      i := i + 1;
    }
    h := accum % size;
  }

  // ---- the table ----

  /** An entry of a bucket. */
  datatype Bucket<V> = Bucket(name: seq<byte>, value: V)

  /** The values entered under `name` in a bucket list, the latest first. */
  function Under<V>(list: seq<Bucket<V>>, name: seq<byte>, i: nat): seq<V>
    requires i <= |list|
    decreases |list| - i
  {
    if i == |list| then []
    else if list[i].name == name then [list[i].value] + Under(list, name, i + 1)
    else Under(list, name, i + 1)
  }

  lemma {:induction false} UnderShift<V>(list: seq<Bucket<V>>, b: Bucket<V>, name: seq<byte>, i: nat)
    requires i <= |list|
    ensures Under([b] + list, name, i + 1) == Under(list, name, i)
    decreases |list| - i
  {
    if i < |list| {
      UnderShift(list, b, name, i + 1);
    }
  }

  /** Removing the first entry under one name takes the latest value under it away, and touches no other name. */
  lemma {:induction false} UnderRemoved<V>(list: seq<Bucket<V>>, k: nat, name: seq<byte>, i: nat)
    requires k < |list| && i <= k
    requires forall j :: 0 <= j < k ==> list[j].name != list[k].name
    ensures var rest := list[..k] + list[k + 1..];
            if name == list[k].name then [list[k].value] + Under(rest, name, i) == Under(list, name, i)
            else Under(rest, name, i) == Under(list, name, i)
    decreases k - i
  {
    var rest := list[..k] + list[k + 1..];
    if i == k {
      UnderTail(list, rest, k, name, k + 1);
    } else {
      UnderRemoved(list, k, name, i + 1);
    }
  }

  lemma {:induction false} UnderTail<V>(list: seq<Bucket<V>>, rest: seq<Bucket<V>>, k: nat, name: seq<byte>, i: nat)
    requires k < i <= |list| && rest == list[..k] + list[k + 1..]
    ensures Under(rest, name, i - 1) == Under(list, name, i)
    decreases |list| - i
  {
    if i < |list| {
      UnderTail(list, rest, k, name, i + 1);
    }
  }

  class Table<V> {
    const buckets: array<seq<Bucket<V>>>

    constructor ()
      ensures fresh(buckets) && buckets.Length == DEFAULT_HASH_SIZE
      ensures forall name :: Values(name) == []
    {
      buckets := new seq<Bucket<V>>[DEFAULT_HASH_SIZE](_ => []);
    }

    /** The values entered under `name` and not deleted, the latest first. */
    ghost function Values(name: seq<byte>): seq<V>
      reads buckets
    {
      if buckets.Length == 0 then [] else
      var list := buckets[Hash(name, buckets.Length)];
      Under(list, name, 0)
    }

    method Add(name: seq<byte>, value: V)
      requires buckets.Length > 0
      modifies buckets
      ensures forall n :: Values(n) == if n == name then [value] + old(Values(n)) else old(Values(n))
    {
      var h := DoHash(name, buckets.Length);
      ghost var list := buckets[h];
      buckets[h] := [Bucket(name, value)] + buckets[h];
      forall n ensures Values(n) == if n == name then [value] + old(Values(n)) else old(Values(n)) {
        UnderShift(list, Bucket(name, value), n, 0);
      }
    }

    method Delete(name: seq<byte>)
      requires buckets.Length > 0
      modifies buckets
      ensures forall n :: Values(n) == if n == name && old(Values(n)) != [] then old(Values(n))[1..] else old(Values(n))
    {
      var h := DoHash(name, buckets.Length);
      var list := buckets[h];
      var k := 0;
      while k < |list|
        invariant 0 <= k <= |list| && buckets[..] == old(buckets[..])
        invariant forall j :: 0 <= j < k ==> list[j].name != name
        invariant Under(list, name, 0) == Under(list, name, k)
      {
        if list[k].name == name {
          buckets[h] := list[..k] + list[k + 1..];
          forall n
            ensures Values(n) == if n == name && old(Values(n)) != [] then old(Values(n))[1..] else old(Values(n))
          {
            UnderRemoved(list, k, n, 0);
          }
          return;
        }
        k := k + 1;
      }
    }

    method Lookup(name: seq<byte>) returns (value: Option<V>)
      requires buckets.Length > 0
      ensures value == if Values(name) == [] then None else Some(Values(name)[0])
    {
      var h := DoHash(name, buckets.Length);
      var list := buckets[h];
      var k := 0;
      while k < |list|
        invariant 0 <= k <= |list|
        invariant Under(list, name, 0) == Under(list, name, k)
      {
        if list[k].name == name {
          return Some(list[k].value);
        }
        k := k + 1;
      }
      return None;
    }
  }
}
