/**
  * Finding leases by unique identifier, or by hardware address, in contrib/dhcp/common/memory.c. The hash table holds
  * one lease for each key; the others with the same key hang on a chain behind it, in the order they were added.
  */
module LeaseIndex {
  import opened Bytes
  import opened HashTable
  import opened Lists

  /**
    * What one index needs of a lease: which it is, its key (`uid` or `haddr`) and its link (`n_uid` or `n_hw`). A lease
    * that is given another key, which happens only while it is out of the index, becomes another entry.
    */
  class Entry {
    const lease: nat
    const key: seq<byte>
    var next: Entry?

    constructor (lease: nat, key: seq<byte>)
      ensures this.lease == lease && this.key == key && next == null
    {
      this.lease, this.key := lease, key;
      next := null;
    }
  }

  // ---- chains, as values ----

  /** The entry at place `i` of a chain; null past its end. */
  function Item(chain: seq<Entry>, i: nat): Entry? {
    if i < |chain| then chain[i] else null
  }

  /** `chain` without its entry at place `k`, if it has one there. */
  function Less<T>(chain: seq<T>, k: nat): seq<T> {
    if k < |chain| then Removed(chain, k) else chain
  }

  /** `e` stands at place `k` of `chain`, or nowhere if that is past the end. */
  ghost predicate Stands<T>(chain: seq<T>, e: T, k: nat) {
    if k < |chain| then chain[k] == e else k == |chain| && e !in chain
  }

  /** The entries of `chain` have the key `key`, and none stands there twice. */
  ghost predicate Proper(chain: seq<Entry>, key: seq<byte>) {
    && (forall i :: 0 <= i < |chain| ==> chain[i].key == key)
    && (forall i, j :: 0 <= i < j < |chain| ==> chain[i] != chain[j])
  }

  /** The head of a chain, as the hash table shows it. */
  function Head(chain: seq<Entry>): seq<Entry> {
    if chain == [] then [] else [chain[0]]
  }

  /** The chain of a key, among the chains of all keys that were ever used. */
  function ChainOf(chains: map<seq<byte>, seq<Entry>>, key: seq<byte>): seq<Entry> {
    if key in chains then chains[key] else []
  }

  /** Every chain is of one key and has only known entries. */
  ghost predicate WellKept(chains: map<seq<byte>, seq<Entry>>, known: set<Entry>) {
    && (forall key :: key in chains ==> Proper(chains[key], key))
    && (forall key, i :: key in chains && 0 <= i < |chains[key]| ==> chains[key][i] in known)
  }

  lemma {:induction false} AddedIsWellKept(chains: map<seq<byte>, seq<Entry>>, known: set<Entry>, e: Entry)
    requires WellKept(chains, known) && e !in ChainOf(chains, e.key)
    ensures WellKept(chains[e.key := ChainOf(chains, e.key) + [e]], known + {e})
  {
  }

  lemma {:induction false} CutIsWellKept(chains: map<seq<byte>, seq<Entry>>, known: set<Entry>, key: seq<byte>, k: nat)
    requires WellKept(chains, known) && k < |ChainOf(chains, key)|
    ensures WellKept(chains[key := Removed(ChainOf(chains, key), k)], known)
  {
  }

  // ---- chains, in the heap ----

  /** The entries of `chain` are linked in this order. */
  ghost predicate Linked(chain: seq<Entry>)
    reads chain
  {
    forall i {:trigger chain[i].next} :: 0 <= i < |chain| ==> chain[i].next == Item(chain, i + 1)
  }

  /** Hangs `e` on the end of a chain. */
  method Append(head: Entry, e: Entry, ghost chain: seq<Entry>, ghost last: Entry)
    requires chain != [] && chain[0] == head && chain[|chain| - 1] == last && Proper(chain, e.key) && e !in chain
    requires Linked(chain) && e.next == null
    modifies last`next
    ensures Linked(chain + [e])
  {
    var scan := head;
    ghost var i := 0;
    while scan.next != null
      invariant 0 <= i < |chain| && scan == chain[i]
      decreases |chain| - i
    {
      scan := scan.next;
      i := i + 1;
    }
    scan.next := e;
  }

  /** Takes `e`, if it stands behind the head of a chain, out of it. */
  method Detach(head: Entry, e: Entry, ghost chain: seq<Entry>, ghost k: nat, ghost before: Entry)
    requires chain != [] && chain[0] == head && head != e && Proper(chain, head.key) && Linked(chain)
    requires Stands(chain, e, k) && before == chain[k - 1]
    modifies before`next
    ensures Linked(Less(chain, k))
  {
    var scan := head;
    ghost var i := 0;
    while scan.next != null
      invariant 0 <= i < k && scan == chain[i]
      decreases |chain| - i
    {
      if scan.next == e {
        scan.next := scan.next.next;
        break;
      }
      scan := scan.next;
      i := i + 1;
    }
    ghost var c := Less(chain, k);
    forall i | 0 <= i < |c| ensures c[i].next == Item(c, i + 1) {
      assert c[i] == chain[if i < k then i else i + 1];
    }
  }

  lemma {:induction false} TailIsLinked(chain: seq<Entry>)
    requires chain != [] && Linked(chain)
    ensures Linked(Removed(chain, 0))
  {
  }

  class Index {
    const table: Table<Entry>

    /** The chain of each key that was ever used; a set of entries that includes all that are on chains. */
    ghost var Chains: map<seq<byte>, seq<Entry>>
    ghost var Known: set<Entry>

    ghost function Chain(key: seq<byte>): seq<Entry>
      reads this`Chains
    {
      ChainOf(Chains, key)
    }

    /** The table holds the head of every chain. */
    ghost predicate Heads()
      reads this`Chains, table.buckets
    {
      && table.buckets.Length > 0
      && (forall key :: table.Values(key) == Head(Chain(key)))
    }

    ghost predicate Valid()
      reads this, table.buckets, Known
    {
      Heads() && WellKept(Chains, Known) && (forall key :: key in Chains ==> Linked(Chains[key]))
    }

    constructor ()
      ensures Valid() && Chains == map[]
      ensures fresh(table) && fresh(table.buckets) && Known == {}
    {
      table := new Table<Entry>();
      Chains, Known := map[], {};
    }

    /** find_lease_by_uid: the first lease added under the key. */
    method Find(key: seq<byte>) returns (head: Entry?)
      requires Heads()
      ensures head == Item(Chain(key), 0)
    {
      var value := table.Lookup(key);
      head := if value.None? then null else value.value;
    }

    /** uid_hash_add: the lease goes to the end of the chain of its key. */
    method Add(e: Entry)
      requires Valid() && e !in Chain(e.key) && e.next == null
      modifies this`Chains, this`Known, table.buckets, Known`next
      ensures Valid() && Known == old(Known) + {e}
      ensures forall m :: m in old(Known) && m !in old(Chain(m.key)) ==> m.next == old(m.next)
      ensures Chains == old(Chains)[e.key := old(Chain(e.key)) + [e]]
    {
      ghost var more := Chains[e.key := Chain(e.key) + [e]];
      AddedIsWellKept(Chains, Known, e);
      Hang(e, more);
      Chains := more;
      Known := Known + {e};
    }

    /** What uid_hash_add does to the table and the links, to make the chains `more`. */
    method Hang(e: Entry, ghost more: map<seq<byte>, seq<Entry>>)
      requires Valid() && e !in Chain(e.key) && e.next == null && more == Chains[e.key := Chain(e.key) + [e]]
      modifies table.buckets, Known`next
      ensures forall n :: n in more ==> Linked(more[n])
      ensures forall n :: table.Values(n) == Head(ChainOf(more, n))
      ensures forall m :: m in Known && m !in Chain(m.key) ==> m.next == old(m.next)
    {
      var head := Find(e.key);
      ghost var chain := Chain(e.key);
      if head == null {
        table.Add(e.key, e);
        assert chain + [e] == [e];
      } else {
        Append(head, e, chain, chain[|chain| - 1]);
      }
      forall n | n in more ensures Linked(more[n]) {
        assert n != e.key ==> old(Linked(Chains[n]));
      }
    }

    /** uid_hash_delete: the lease, at place `k`, leaves the chain of its key, if it is there. */
    method Delete(e: Entry, ghost k: nat)
      requires Valid() && Stands(Chain(e.key), e, k)
      modifies this`Chains, table.buckets, Known`next, e`next
      ensures Valid() && e.next == null
      ensures Chains
           == if k < |old(Chain(e.key))| then old(Chains)[e.key := Removed(old(Chain(e.key)), k)] else old(Chains)
      ensures forall m :: m in Known && m !in old(Chain(m.key)) && m != e ==> m.next == old(m.next)
    {
      Release(e, k);
      if k < |Chain(e.key)| {
        CutIsWellKept(Chains, Known, e.key, k);
        Chains := Chains[e.key := Removed(Chain(e.key), k)];
      }
    }

    /** The next entry on the chain takes the place of its head in the table. */
    method Promote(e: Entry)
      requires Heads() && Chain(e.key) != [] && Chain(e.key)[0] == e
      requires Linked(Chain(e.key)) && Proper(Chain(e.key), e.key)
      modifies table.buckets
      ensures forall n :: table.Values(n) == Head(if n == e.key then Removed(Chain(e.key), 0) else Chain(n))
    {
      table.Delete(e.key);
      if e.next != null {
        table.Add(e.next.key, e.next);
      }
    }

    /** What uid_hash_delete does to the table and the links. */
    method Release(e: Entry, ghost k: nat)
      requires Valid() && Stands(Chain(e.key), e, k)
      modifies table.buckets, Known`next, e`next
      ensures forall n :: n in Chains && n != e.key ==> Linked(Chains[n])
      ensures Linked(Less(Chain(e.key), k)) && e.next == null
      ensures forall n :: table.Values(n) == Head(if n == e.key then Less(Chain(e.key), k) else Chain(n))
      ensures forall m :: m in Known && m !in Chain(m.key) && m != e ==> m.next == old(m.next)
    {
      var head := Find(e.key);
      ghost var chain := Chain(e.key);
      if head == null {
        e.next := null;
      } else {
        if head == e {
          TailIsLinked(chain);
          Promote(e);
        } else {
          Detach(head, e, chain, k, chain[k - 1]);
        }
        e.next := null;
      }
      forall n | n in Chains && n != e.key ensures Linked(Chains[n]) {
        assert old(Linked(Chains[n]));
      }
    }
  }

  // ---- any sequence of additions and deletions ----

  /** A lease, by number, under one of its keys. */
  datatype Name = Name(lease: nat, key: seq<byte>)

  /** What is in the index, in the order it was added. */
  datatype List = Nil | Then(before: List, last: Name)

  /** The leases with the key `key`. */
  function WithKey(l: List, key: seq<byte>): seq<nat> {
    match l
    case Nil => []
    case Then(before, last) => if last.key == key then WithKey(before, key) + [last.lease] else WithKey(before, key)
  }

  predicate Has(l: List, m: Name) {
    match l
    case Nil => false
    case Then(before, last) => last == m || Has(before, m)
  }

  function Minus(l: List, m: Name): List {
    match l
    case Nil => Nil
    case Then(before, last) => if last == m then before else Then(Minus(before, m), last)
  }

  /** How many leases with the same key stand before the latest `m`; all of them if there is no `m`. */
  function PlaceOf(l: List, m: Name): nat {
    match l
    case Nil => 0
    case Then(before, last) =>
      if last == m then |WithKey(before, m.key)|
      else if last.key == m.key && !Has(before, m) then PlaceOf(before, m) + 1
      else PlaceOf(before, m)
  }

  ghost predicate OnceEach(l: List) {
    match l
    case Nil => true
    case Then(before, last) => !Has(before, last) && OnceEach(before)
  }

  lemma {:induction false} HasIs(l: List, m: Name)
    ensures m.lease in WithKey(l, m.key) <==> Has(l, m)
  {
    if l.Then? {
      HasIs(l.before, m);
    }
  }

  lemma {:induction false} PlaceIs(l: List, m: Name)
    requires OnceEach(l)
    ensures Stands(WithKey(l, m.key), m.lease, PlaceOf(l, m))
  {
    if l.Then? {
      HasIs(l.before, m);
      PlaceIs(l.before, m);
    }
  }

  /** Deleting a lease takes it off the chain of its key and leaves every other chain alone. */
  lemma {:induction false} MinusIs(l: List, m: Name, key: seq<byte>)
    requires OnceEach(l)
    ensures WithKey(Minus(l, m), key) == if key == m.key then Less(WithKey(l, key), PlaceOf(l, m)) else WithKey(l, key)
    ensures OnceEach(Minus(l, m))
    ensures forall n :: Has(Minus(l, m), n) <==> Has(l, n) && n != m
  {
    if l.Then? {
      MinusIs(l.before, m, key);
      PlaceIs(l.before, m);
      HasIs(l.before, m);
    }
  }

  datatype Change = Adding(name: Name) | Deleting(name: Name)

  function Changed(l: List, c: Change): List {
    match c
    case Adding(m) => Then(l, m)
    case Deleting(m) => Minus(l, m)
  }

  /** What the first `n` changes leave in the index. */
  function Left(changes: seq<Change>, n: nat): List
    requires n <= |changes|
  {
    if n == 0 then Nil else Changed(Left(changes, n - 1), changes[n - 1])
  }

  /** No lease is added while it is in the index. */
  ghost predicate Orderly(changes: seq<Change>, n: nat)
    requires n <= |changes|
  {
    n == 0 || (Orderly(changes, n - 1) && (changes[n - 1].Adding? ==> !Has(Left(changes, n - 1), changes[n - 1].name)))
  }

  lemma {:induction false} OrderlyBefore(changes: seq<Change>, m: nat, n: nat)
    requires m <= n <= |changes| && Orderly(changes, n)
    ensures Orderly(changes, m)
  {
    if m < n {
      OrderlyBefore(changes, m, n - 1);
    }
  }

  lemma {:induction false} LeftOnceEach(changes: seq<Change>, n: nat)
    requires n <= |changes| && Orderly(changes, n)
    ensures OnceEach(Left(changes, n))
  {
    if n > 0 {
      LeftOnceEach(changes, n - 1);
      if changes[n - 1].Deleting? {
        MinusIs(Left(changes, n - 1), changes[n - 1].name, changes[n - 1].name.key);
      }
    }
  }

  lemma {:induction false} ChangeShows(l: List, c: Change, key: seq<byte>)
    requires OnceEach(l)
    ensures WithKey(Changed(l, c), key)
         == if key != c.name.key then WithKey(l, key)
            else if c.Adding? then WithKey(l, key) + [c.name.lease]
            else Less(WithKey(l, key), PlaceOf(l, c.name))
    ensures forall m :: Has(Changed(l, c), m) <==> if m == c.name then c.Adding? else Has(l, m)
  {
    if c.Deleting? {
      MinusIs(l, c.name, key);
    }
  }

  // ---- the index after any such sequence ----

  /** A chain is of these leases, in this order. */
  ghost predicate Are(chain: seq<Entry>, leases: seq<nat>) {
    |chain| == |leases| && forall i :: 0 <= i < |chain| ==> chain[i].lease == leases[i]
  }

  /** The chains are the leases of `l`, each chain in the order of `l`. */
  ghost predicate Show(chains: map<seq<byte>, seq<Entry>>, l: List) {
    forall key :: Are(ChainOf(chains, key), WithKey(l, key))
  }

  lemma {:induction false} AddedShow(chains: map<seq<byte>, seq<Entry>>, l: List, e: Entry)
    requires Show(chains, l)
    ensures Show(chains[e.key := ChainOf(chains, e.key) + [e]], Then(l, Name(e.lease, e.key)))
  {
    var more, m := chains[e.key := ChainOf(chains, e.key) + [e]], Then(l, Name(e.lease, e.key));
    forall key ensures Are(ChainOf(more, key), WithKey(m, key)) {
      assert Are(ChainOf(chains, key), WithKey(l, key));
    }
  }

  lemma {:induction false} CutShow(chains: map<seq<byte>, seq<Entry>>, l: List, e: Entry, k: nat)
    requires Show(chains, l) && OnceEach(l) && k == PlaceOf(l, Name(e.lease, e.key))
    ensures Show(if k < |ChainOf(chains, e.key)| then chains[e.key := Removed(ChainOf(chains, e.key), k)] else chains,
                 Minus(l, Name(e.lease, e.key)))
  {
    var rest, m := Minus(l, Name(e.lease, e.key)), Name(e.lease, e.key);
    var less := if k < |ChainOf(chains, e.key)| then chains[e.key := Removed(ChainOf(chains, e.key), k)] else chains;
    forall key ensures Are(ChainOf(less, key), WithKey(rest, key)) {
      assert Are(ChainOf(chains, key), WithKey(l, key));
      MinusIs(l, m, key);
    }
  }

  /** The entries that have been used, with those on chains among them; the others have no link. */
  ghost predicate Tracked(index: Index, entries: map<Name, Entry>, l: List)
    reads index`Known, entries.Values
  {
    && (forall m :: m in entries ==> entries[m].lease == m.lease && entries[m].key == m.key)
    && (forall e :: e in index.Known ==> Name(e.lease, e.key) in entries && entries[Name(e.lease, e.key)] == e)
    && (forall m :: m in entries && !Has(l, m) ==> entries[m].next == null)
  }

  /** An entry stands on its chain where its lease stands among those with its key. */
  lemma {:induction false} EntryStands(index: Index, entries: map<Name, Entry>, l: List, e: Entry)
    requires WellKept(index.Chains, index.Known) && Show(index.Chains, l) && Tracked(index, entries, l) && OnceEach(l)
    requires Name(e.lease, e.key) in entries && entries[Name(e.lease, e.key)] == e
    ensures Stands(index.Chain(e.key), e, PlaceOf(l, Name(e.lease, e.key)))
    ensures e in index.Chain(e.key) <==> Has(l, Name(e.lease, e.key))
  {
    var m, chain := Name(e.lease, e.key), index.Chain(e.key);
    PlaceIs(l, m);
    HasIs(l, m);
    assert Are(chain, WithKey(l, e.key));
    forall i | 0 <= i < |chain| ensures chain[i].lease == e.lease <==> chain[i] == e {
      assert chain[i] in index.Known && chain[i].key == e.key;
    }
  }

  /** What is not in the list is on no chain. */
  lemma {:induction false} OthersAreLoose(index: Index, entries: map<Name, Entry>, l: List)
    requires WellKept(index.Chains, index.Known) && Show(index.Chains, l) && Tracked(index, entries, l) && OnceEach(l)
    ensures forall m :: m in entries && !Has(l, m) ==> entries[m] !in index.Chain(m.key) && entries[m].next == null
  {
    forall m | m in entries && !Has(l, m) ensures entries[m] !in index.Chain(m.key) {
      EntryStands(index, entries, l, entries[m]);
    }
  }

  /** The entry of a lease under a key; one that was not used before is new. */
  method EntryOf(entries: map<Name, Entry>, m: Name) returns (e: Entry, more: map<Name, Entry>)
    requires m in entries ==> entries[m].lease == m.lease && entries[m].key == m.key
    ensures more == entries[m := e] && e.lease == m.lease && e.key == m.key
    ensures if m in entries then e == entries[m] else fresh(e) && e.next == null
  {
    if m in entries {
      return entries[m], entries;
    }
    e := new Entry(m.lease, m.key);
    more := entries[m := e];
  }

  /**
    * Any sequence of additions and deletions: the index finds, for every key, the leases with that key that were
    * added and not deleted since, in the order they were added.
    */
  method Replay(changes: seq<Change>) returns (index: Index)
    requires Orderly(changes, |changes|)
    ensures index.Valid() && Show(index.Chains, Left(changes, |changes|)) && fresh(index)
  {
    index := new Index();
    var entries: map<Name, Entry> := map[];
    var n := 0;
    while n < |changes|
      invariant 0 <= n <= |changes|
      invariant index.Valid() && fresh(index) && fresh(index.table.buckets) && fresh(entries.Values)
      invariant Show(index.Chains, Left(changes, n)) && Tracked(index, entries, Left(changes, n))
    {
      OrderlyBefore(changes, n + 1, |changes|);
      OrderlyBefore(changes, n, n + 1);
      LeftOnceEach(changes, n);
      entries := Step(index, entries, changes[n], Left(changes, n));
      n := n + 1;
    }
  }

  /** An entry that is not in the index is added. */
  method Enter(index: Index, entries: map<Name, Entry>, e: Entry, ghost l: List)
    requires OnceEach(l) && !Has(l, Name(e.lease, e.key))
    requires Name(e.lease, e.key) in entries && entries[Name(e.lease, e.key)] == e
    requires index.Valid() && Show(index.Chains, l) && Tracked(index, entries, l)
    modifies index`Chains, index`Known, index.table.buckets, entries.Values
    ensures index.Valid() && Show(index.Chains, Then(l, Name(e.lease, e.key)))
    ensures Tracked(index, entries, Then(l, Name(e.lease, e.key)))
  {
    EntryStands(index, entries, l, e);
    AddedShow(index.Chains, l, e);
    OthersAreLoose(index, entries, l);
    index.Add(e);
  }

  /** An entry leaves the index, if it is there. */
  method Leave(index: Index, entries: map<Name, Entry>, e: Entry, ghost l: List)
    requires OnceEach(l)
    requires Name(e.lease, e.key) in entries && entries[Name(e.lease, e.key)] == e
    requires index.Valid() && Show(index.Chains, l) && Tracked(index, entries, l)
    modifies index`Chains, index.table.buckets, entries.Values
    ensures index.Valid() && Show(index.Chains, Minus(l, Name(e.lease, e.key)))
    ensures Tracked(index, entries, Minus(l, Name(e.lease, e.key)))
  {
    EntryStands(index, entries, l, e);
    CutShow(index.Chains, l, e, PlaceOf(l, Name(e.lease, e.key)));
    OthersAreLoose(index, entries, l);
    MinusIs(l, Name(e.lease, e.key), e.key);
    index.Delete(e, PlaceOf(l, Name(e.lease, e.key)));
  }

  method Step(index: Index, entries: map<Name, Entry>, c: Change, ghost l: List) returns (more: map<Name, Entry>)
    requires OnceEach(l) && (c.Adding? ==> !Has(l, c.name))
    requires index.Valid() && Show(index.Chains, l) && Tracked(index, entries, l)
    modifies index, index.table.buckets, entries.Values
    ensures index.Valid() && Show(index.Chains, Changed(l, c)) && Tracked(index, more, Changed(l, c))
    ensures fresh(more.Values - entries.Values)
  {
    var e;
    e, more := EntryOf(entries, c.name);
    if c.Adding? {
      Enter(index, more, e, l);
    } else {
      Leave(index, more, e, l);
    }
  }
}
