/**
  * The leases of a shared network in contrib/dhcp/common/memory.c: a doubly linked list, the lease that ends last
  * first, with an insertion point that remembers where the last lease went.
  */
module LeaseList {
  import opened Lists

  const MIN_TIME: int := 0

  // ---- places in a list of ending times ----

  ghost predicate Sorted(times: seq<int>) {
    forall i, j :: 0 <= i < j < |times| ==> times[i] >= times[j]
  }

  /** The first place from `i` on whose time is not after `ends`. */
  function Below(times: seq<int>, i: nat, ends: int): (p: nat)
    requires i <= |times|
    ensures i <= p <= |times|
    ensures p < |times| ==> times[p] <= ends
    ensures forall k :: i <= k < p ==> times[k] > ends
    decreases |times| - i
  {
    if i == |times| || times[i] <= ends then i else Below(times, i + 1, ends)
  }

  /** The place after the last time, up to `i`, that is not before `ends`. */
  function Above(times: seq<int>, i: int, ends: int): (p: nat)
    requires -1 <= i < |times|
    ensures 0 <= p <= i + 1
    ensures p > 0 ==> times[p - 1] >= ends
    ensures forall k :: p <= k <= i ==> times[k] < ends
    decreases i + 1
  {
    if i == -1 || times[i] >= ends then i + 1 else Above(times, i - 1, ends)
  }

  /** Where supersede_lease puts a lease ending at `ends`, searching from place `start`. */
  function Place(times: seq<int>, start: nat, ends: int): (p: nat)
    requires start < |times| || times == []
    ensures p <= |times|
  {
    if times == [] then 0
    else if times[start] > ends then Below(times, start, ends)
    else Above(times, start, ends)
  }

  /** Wherever the search starts, and whichever way it goes, it finds a place that keeps the order. */
  lemma {:induction false} PlaceKeepsOrder(times: seq<int>, start: nat, ends: int)
    requires Sorted(times) && (start < |times| || times == [])
    ensures Sorted(Inserted(times, Place(times, start, ends), ends))
  {
  }

  lemma {:induction false} RemovedKeepsOrder(times: seq<int>, p: nat)
    requires Sorted(times) && p < |times|
    ensures Sorted(Removed(times, p))
  {
  }

  // ---- the list ----

  class Lease {
    var ends: int
    var prev: Lease?
    var next: Lease?

    constructor ()
      ensures ends == MIN_TIME && prev == null && next == null
    {
      ends, prev, next := MIN_TIME, null, null;
    }
  }

  /** The lease at place `i`; null outside the list. */
  function At(nodes: seq<Lease>, i: int): Lease? {
    if 0 <= i < |nodes| then nodes[i] else null
  }

  /**
    * What `lastLease` is after moving the lease at place `k`, when the others end at `rest` and the search starts
    * at place `start` among them.
    */
  function LastAfter(nodes: seq<Lease>, last: Lease?, k: nat, rest: seq<int>, start: nat, ends: int): Lease?
    requires k < |nodes| && (start < |rest| || rest == [])
  {
    if rest == [] || (rest[start] > ends && Place(rest, start, ends) == |rest|) then nodes[k]
    else if last == nodes[k] then At(nodes, k - 1)
    else last
  }

  class SharedNetwork {
    var leases: Lease?
    var lastLease: Lease?
    var insertionPoint: Lease?

    /** The leases in the order of the list, and when they end. */
    ghost var Nodes: seq<Lease>
    ghost var Times: seq<int>

    /** The links say what `Nodes` says, and the leases end at `Times`. */
    ghost predicate Links()
      reads this, Nodes
    {
      && |Times| == |Nodes|
      && leases == At(Nodes, 0)
      && (forall i {:trigger Nodes[i].next} :: 0 <= i < |Nodes| ==> Nodes[i].next == At(Nodes, i + 1))
      && (forall i {:trigger Nodes[i].prev} :: 0 <= i < |Nodes| ==> Nodes[i].prev == At(Nodes, i - 1))
      && (forall i {:trigger Nodes[i].ends} :: 0 <= i < |Nodes| ==> Nodes[i].ends == Times[i])
      && (forall i, j :: 0 <= i < j < |Nodes| ==> Nodes[i] != Nodes[j])
    }

    ghost predicate Valid()
      reads this, Nodes
    {
      Links() && Sorted(Times) && (insertionPoint != null ==> insertionPoint in Nodes)
    }

    constructor ()
      ensures Valid() && Nodes == [] && lastLease == null
    {
      leases, lastLease, insertionPoint, Nodes, Times := null, null, null, [], [];
    }

    /** Adds the lease for a new address at the head; the order survives unless a lease has been given out already. */
    method AddAddress() returns (lease: Lease)
      requires Valid()
      modifies this, Nodes
      ensures fresh(lease) && Links() && insertionPoint == old(insertionPoint)
      ensures Nodes == Inserted(old(Nodes), 0, lease) && Times == Inserted(old(Times), 0, MIN_TIME)
      ensures Valid() <==> old(Times) == [] || old(Times)[0] <= MIN_TIME
      ensures lastLease == if old(lastLease) == null then lease else old(lastLease)
    {
      lease := new Lease();
      if lastLease == null {
        lastLease := lease;
      }
      lease.next := leases;
      leases := lease;
      if lease.next != null {
        lease.next.prev := leases;
      }
      Join(lease, MIN_TIME, 0);
      assert old(Times) != [] ==> Times[1] == old(Times)[0];
      assert insertionPoint != null ==> insertionPoint in Nodes by {
        assert forall i :: 0 <= i < |old(Nodes)| ==> Nodes[i + 1] == old(Nodes)[i];
      }
    }

    /** Takes `comp` out of the list. */
    method Unlink(comp: Lease, ghost k: nat)
      requires Links() && k < |Nodes| && Nodes[k] == comp
      modifies this`leases, this`lastLease, this`Nodes, this`Times, Nodes
      ensures Links() && Nodes == Removed(old(Nodes), k) && Times == Removed(old(Times), k)
      ensures lastLease == if old(lastLease) == comp then At(old(Nodes), k - 1) else old(lastLease)
      ensures comp.prev == old(comp.prev) && comp.next == old(comp.next)
    {
      assert comp.prev == At(Nodes, k - 1) && comp.next == At(Nodes, k + 1);
      if comp.prev != null {
        comp.prev.next := comp.next;
      } else {
        leases := comp.next;
      }
      if comp.next != null {
        comp.next.prev := comp.prev;
      }
      if lastLease == comp {
        lastLease := comp.prev;
      }
      Leave(k);
    }

    /** The links are gone, the ghost list follows. */
    ghost method Leave(k: nat)
      requires |Times| == |Nodes| && k < |Nodes|
      requires leases == if k == 0 then At(Nodes, 1) else At(Nodes, 0)
      requires forall i {:trigger Nodes[i].next} :: 0 <= i < |Nodes| && i != k ==>
                 Nodes[i].next == At(Nodes, if i == k - 1 then i + 2 else i + 1)
      requires forall i {:trigger Nodes[i].prev} :: 0 <= i < |Nodes| && i != k ==>
                 Nodes[i].prev == At(Nodes, if i == k + 1 then i - 2 else i - 1)
      requires forall i {:trigger Nodes[i].ends} :: 0 <= i < |Nodes| ==> Nodes[i].ends == Times[i]
      requires forall i, j :: 0 <= i < j < |Nodes| ==> Nodes[i] != Nodes[j]
      modifies this`Nodes, this`Times
      ensures Links() && Nodes == Removed(old(Nodes), k) && Times == Removed(old(Times), k)
    {
      var was := Nodes;
      Nodes, Times := Removed(Nodes, k), Removed(Times, k);
      forall i | 0 <= i < |Nodes|
        ensures Nodes[i].next == At(Nodes, i + 1) && Nodes[i].prev == At(Nodes, i - 1) && Nodes[i].ends == Times[i]
      {
        assert Nodes[i] == was[if i < k then i else i + 1];
      }
    }

    /** Puts `comp`, which is not on the list, behind `lp`. */
    method PutAfter(lp: Lease, comp: Lease, ends: int, ghost q: nat)
      requires Links() && q < |Nodes| && Nodes[q] == lp && comp !in Nodes
      modifies this`Nodes, this`Times, Nodes, comp
      ensures Links() && Nodes == Inserted(old(Nodes), q + 1, comp) && Times == Inserted(old(Times), q + 1, ends)
    {
      comp.next := lp.next;
      if comp.next != null {
        comp.next.prev := comp;
      }
      comp.prev := lp;
      lp.next := comp;
      comp.ends := ends;
      Join(comp, ends, q + 1);
    }

    /** Puts `comp`, which is not on the list, in front of `lp`. */
    method PutBefore(lp: Lease, comp: Lease, ends: int, ghost q: nat)
      requires Links() && q < |Nodes| && Nodes[q] == lp && comp !in Nodes
      modifies this`leases, this`Nodes, this`Times, Nodes, comp
      ensures Links() && Nodes == Inserted(old(Nodes), q, comp) && Times == Inserted(old(Times), q, ends)
    {
      comp.prev := lp.prev;
      if comp.prev != null {
        comp.prev.next := comp;
      } else {
        leases := comp;
      }
      comp.next := lp;
      lp.prev := comp;
      comp.ends := ends;
      Join(comp, ends, q);
    }

    /** The links made, the ghost list follows. */
    ghost method Join(comp: Lease, ends: int, q: nat)
      requires |Times| == |Nodes| && q <= |Nodes| && comp !in Nodes && comp.ends == ends
      requires comp.prev == At(Nodes, q - 1) && comp.next == At(Nodes, q)
      requires leases == if q == 0 then comp else At(Nodes, 0)
      requires forall i {:trigger Nodes[i].next} :: 0 <= i < |Nodes| ==>
                 Nodes[i].next == if i == q - 1 then comp else At(Nodes, i + 1)
      requires forall i {:trigger Nodes[i].prev} :: 0 <= i < |Nodes| ==>
                 Nodes[i].prev == if i == q then comp else At(Nodes, i - 1)
      requires forall i {:trigger Nodes[i].ends} :: 0 <= i < |Nodes| ==> Nodes[i].ends == Times[i]
      requires forall i, j :: 0 <= i < j < |Nodes| ==> Nodes[i] != Nodes[j]
      modifies this`Nodes, this`Times
      ensures Links() && Nodes == Inserted(old(Nodes), q, comp) && Times == Inserted(old(Times), q, ends)
    {
      var was := Nodes;
      Nodes, Times := Inserted(Nodes, q, comp), Inserted(Times, q, ends);
      forall i | 0 <= i < |Nodes|
        ensures Nodes[i].next == At(Nodes, i + 1) && Nodes[i].prev == At(Nodes, i - 1) && Nodes[i].ends == Times[i]
      {
        assert i != q ==> Nodes[i] == was[if i < q then i else i - 1];
      }
    }

    /** The search of supersede_lease, from place `start`: the lease to stop at. */
    method Search(lp: Lease, ends: int, ghost start: nat) returns (stop: Lease, ghost q: nat)
      requires Links() && start < |Nodes| && Nodes[start] == lp
      ensures q < |Nodes| && Nodes[q] == stop
      ensures var p := Place(Times, start, ends);
              if Times[start] > ends then q == if p == |Nodes| then p - 1 else p
              else q == if p == 0 then 0 else p - 1
    {
      stop, q := lp, start;
      if lp.ends > ends {
        while stop.next != null && stop.ends > ends
          invariant start <= q < |Nodes| && Nodes[q] == stop
          invariant Below(Times, start, ends) == Below(Times, q, ends)
          decreases |Nodes| - q
        {
          stop, q := stop.next, q + 1;
        }
      } else {
        while stop.prev != null && stop.ends < ends
          invariant q <= start && Nodes[q] == stop
          invariant Above(Times, start, ends) == Above(Times, q, ends)
          decreases q
        {
          stop, q := stop.prev, q - 1;
        }
      }
    }

    /** Puts `comp`, which is not on the list, where a lease ending at `ends` belongs, searching from `lp`. */
    method Insert(comp: Lease, lp: Lease?, ends: int, ghost start: nat)
      requires Links() && comp !in Nodes && lp == At(Nodes, start)
      requires if Nodes == [] then start == 0 && comp.prev == null && comp.next == null else start < |Nodes|
      modifies this`leases, this`lastLease, this`Nodes, this`Times, Nodes, comp
      ensures Links()
      ensures Nodes == Inserted(old(Nodes), Place(old(Times), start, ends), comp)
      ensures Times == Inserted(old(Times), Place(old(Times), start, ends), ends)
      ensures lastLease
           == if old(Nodes) == [] || (old(Times)[start] > ends && Place(old(Times), start, ends) == |old(Nodes)|)
              then comp else old(lastLease)
    {
      if lp == null {
        comp.ends := ends;
        leases := comp;
        lastLease := comp;
        Join(comp, ends, 0);
        return;
      }
      var stop, q := Search(lp, ends, start);
      if lp.ends > ends {
        if stop.ends > ends {
          PutAfter(stop, comp, ends, q);
          lastLease := comp;
        } else {
          PutBefore(stop, comp, ends, q);
        }
      } else if stop.ends < ends {
        PutBefore(stop, comp, ends, q);
      } else {
        PutAfter(stop, comp, ends, q);
      }
    }

    /** Where the search starts once `comp` is off the list: the insertion point, or else the head. */
    method Start(comp: Lease, ghost was: seq<Lease>, ghost k: nat) returns (lp: Lease?, ghost start: nat)
      requires Links() && k < |was| && was[k] == comp && Nodes == Removed(was, k)
      requires insertionPoint != null ==> insertionPoint in was
      ensures lp == At(Nodes, start) && (start < |Nodes| || (start == 0 && Nodes == []))
      ensures if insertionPoint == null || insertionPoint == comp then start == 0
              else start < |Nodes| && Nodes[start] == insertionPoint
    {
      start := 0;
      if comp == insertionPoint || insertionPoint == null {
        lp := leases;
      } else {
        lp := insertionPoint;
        ghost var i: nat :| i < |was| && was[i] == lp;
        start := if i < k then i else i - 1;
      }
    }

    /**
      * The part of supersede_lease that moves `comp`, which stands at place `k`, to where a lease ending at `ends`
      * belongs. The others keep their order. `start` is the place the search starts from.
      */
    method Supersede(comp: Lease, ends: int, ghost k: nat) returns (ghost start: nat)
      requires Valid() && k < |Nodes| && Nodes[k] == comp
      modifies this, Nodes
      ensures Valid() && insertionPoint == comp
      ensures start < |old(Nodes)| - 1 || (start == 0 && |old(Nodes)| == 1)
      ensures var rest, times := Removed(old(Nodes), k), Removed(old(Times), k);
              && (if old(insertionPoint) == null || old(insertionPoint) == comp then start == 0
                  else start < |rest| && rest[start] == old(insertionPoint))
              && Nodes == Inserted(rest, Place(times, start, ends), comp)
              && Times == Inserted(times, Place(times, start, ends), ends)
              && lastLease == LastAfter(old(Nodes), old(lastLease), k, times, start, ends)
    {
      RemovedKeepsOrder(Times, k);
      ghost var was := Nodes;
      Unlink(comp, k);
      var lp;
      lp, start := Start(comp, was, k);
      PlaceKeepsOrder(Times, start, ends);
      Insert(comp, lp, ends, start);
      insertionPoint := comp;
      assert Nodes[Place(Removed(old(Times), k), start, ends)] == comp;
    }
  }

  /** supersede_lease keeps the set of leases. */
  lemma {:induction false} SupersedeConserves(nodes: seq<Lease>, k: nat, times: seq<int>, start: nat, ends: int)
    requires k < |nodes| == |times| + 1 && (start < |times| || times == [])
    ensures multiset(Inserted(Removed(nodes, k), Place(times, start, ends), nodes[k])) == multiset(nodes)
  {
    MovedConserves(nodes, k, Place(times, start, ends));
  }

  /**
    * `lastLease`, when it was the tail of the list, is so after supersede_lease, with one exception: the search
    * starts at the tail, which ends at the same time as the lease moved. That lease becomes the tail unnoticed.
    */
  lemma {:induction false} LastStaysTail(nodes: seq<Lease>, times: seq<int>, k: nat, start: nat, ends: int)
    requires |nodes| == |times| && k < |nodes| && (start < |nodes| - 1 || (start == 0 && |nodes| == 1))
    requires forall i, j :: 0 <= i < j < |nodes| ==> nodes[i] != nodes[j]
    ensures var rest := Removed(times, k);
            var after := Inserted(Removed(nodes, k), Place(rest, start, ends), nodes[k]);
            LastAfter(nodes, nodes[|nodes| - 1], k, rest, start, ends) == after[|after| - 1] <==>
              !(start + 1 == |rest| && rest[start] == ends)
  {
  }

  /** Such a list: the head is to end when the tail does, which is where the search starts. */
  lemma {:induction false} LastCanBeWrong(head: Lease, tail: Lease)
    requires head != tail
    ensures var rest := Removed([head, tail], 0);
            && Inserted(rest, Place([5], 0, 5), head) == [tail, head]
            && LastAfter([head, tail], tail, 0, [5], 0, 5) == tail
  {
    assert Removed([head, tail], 0) == [tail];
    assert Inserted([tail], 1, head) == [tail, head];
  }
}
