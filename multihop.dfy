/**
 * The module-level state of the multihop example as one object: the
 * neighbor_mem pool (MAX_NEIGHBORS slots, each holding an address and a
 * ctimer deadline, with an occupancy flag per slot) and the neighbor_table
 * list (the handles of the listed slots, head first).  The methods are
 * received_announcement, remove_neighbor, the ctimer firing that calls it,
 * and forward; each is proved to act on the abstract table as the matching
 * function of module Neighbors does.
 */
module Multihop {
  import opened Wrappers
  import opened Rime
  import opened Neighbors
  import Pool

  /** The entries that a list of slot handles names, given each slot's address and deadline. */
  function Entries(list: seq<nat>, addrs: seq<RimeAddr>, dls: seq<nat>): (v: seq<Neighbor>)
    requires Pool.Below(list, |addrs|) && Pool.Below(list, |dls|)
    ensures |v| == |list|
    ensures forall i :: 0 <= i < |list| ==> v[i] == Neighbor(addrs[list[i]], dls[list[i]])
  {
    seq(|list|, i requires 0 <= i < |list| => Neighbor(addrs[list[i]], dls[list[i]]))
  }

  /** Writing to a slot that is not listed changes no entry. */
  lemma EntriesOutside(list: seq<nat>, addrs: seq<RimeAddr>, dls: seq<nat>, e: nat, a: RimeAddr, d: nat)
    requires Pool.Below(list, |addrs|) && Pool.Below(list, |dls|)
    requires e < |addrs| && e < |dls| && e !in list
    ensures Entries(list, addrs[e := a], dls[e := d]) == Entries(list, addrs, dls)
  {
    assert forall i :: 0 <= i < |list| ==> list[i] != e;
  }

  /** Re-arming the timer of the slot at position `k` changes that entry's deadline only. */
  lemma EntriesRetime(list: seq<nat>, addrs: seq<RimeAddr>, dls: seq<nat>, k: nat, d: nat)
    requires Pool.Below(list, |addrs|) && Pool.Below(list, |dls|) && Pool.Distinct(list)
    requires k < |list|
    ensures Entries(list, addrs, dls[list[k] := d])
         == Entries(list, addrs, dls)[k := Neighbor(addrs[list[k]], d)]
  {
    assert forall i :: 0 <= i < |list| && i != k ==> list[i] != list[k];
  }

  /** Appending a handle appends the entry of its slot. */
  lemma EntriesAppend(list: seq<nat>, addrs: seq<RimeAddr>, dls: seq<nat>, e: nat)
    requires Pool.Below(list, |addrs|) && Pool.Below(list, |dls|)
    requires e < |addrs| && e < |dls|
    ensures Pool.Below(list + [e], |addrs|) && Pool.Below(list + [e], |dls|)
    ensures Entries(list + [e], addrs, dls) == Entries(list, addrs, dls) + [Neighbor(addrs[e], dls[e])]
  {
  }

  /** Unlinking the handle at position `k` unlinks the entry at position `k`. */
  lemma EntriesRemove(list: seq<nat>, addrs: seq<RimeAddr>, dls: seq<nat>, k: nat)
    requires Pool.Below(list, |addrs|) && Pool.Below(list, |dls|)
    requires k < |list|
    ensures Pool.Below(Pool.Without(list, k), |addrs|) && Pool.Below(Pool.Without(list, k), |dls|)
    ensures Entries(Pool.Without(list, k), addrs, dls)
         == Entries(list, addrs, dls)[..k] + Entries(list, addrs, dls)[k + 1..]
  {
  }

  /**
   * Part-way through the timer sweep over the original table `v`: the
   * first `i` entries of `w` are what survives of the first `j` original
   * entries, and the rest of `w` is the rest of `v`, untouched.
   */
  predicate Swept(w: seq<Neighbor>, v: seq<Neighbor>, i: nat, j: nat, now: nat) {
    i <= |w| && j <= |v| && w[..i] == Expire(v[..j], now) && w[i..] == v[j..]
  }

  /** Keeping a live entry `i` extends the swept part by one original entry. */
  lemma SweepKeep(v: seq<Neighbor>, w: seq<Neighbor>, i: nat, j: nat, now: nat)
    requires Swept(w, v, i, j, now) && i < |w| && Alive(w[i], now)
    ensures j < |v| && Swept(w, v, i + 1, j + 1, now)
  {
    assert w[i] == w[i..][0] == v[j..][0] == v[j];
    assert v[..j + 1] == v[..j] + [v[j]];
    ExpireAppend(v[..j], [v[j]], now);
    assert [v[j]][1..] == [];
    assert w[i + 1..] == w[i..][1..] == v[j..][1..] == v[j + 1..];
    assert w[..i + 1] == w[..i] + [w[i]];
  }

  /** Dropping a due entry `i` extends the swept part by one original entry. */
  lemma SweepDrop(v: seq<Neighbor>, w: seq<Neighbor>, i: nat, j: nat, now: nat)
    requires Swept(w, v, i, j, now) && i < |w| && !Alive(w[i], now)
    ensures j < |v| && Swept(w[..i] + w[i + 1..], v, i, j + 1, now)
  {
    assert w[i] == w[i..][0] == v[j..][0] == v[j];
    assert v[..j + 1] == v[..j] + [v[j]];
    ExpireAppend(v[..j], [v[j]], now);
    assert [v[j]][1..] == [];
    assert w[i + 1..] == w[i..][1..] == v[j..][1..] == v[j + 1..];
    var r := w[..i] + w[i + 1..];
    assert r[..i] == w[..i] && r[i..] == w[i + 1..];
  }

  class NeighborTable {
    /** The addr field of each pool slot. */
    const addr: array<RimeAddr>
    /** When the ctimer of each pool slot fires; a slot has one timer, so one deadline. */
    const deadline: array<nat>
    /** Whether memb has handed the slot out. */
    const used: array<bool>
    /** neighbor_table: handles of the listed slots, in list order. */
    var list: seq<nat>

    /**
     * The pool has MAX_NEIGHBORS slots, every listed handle names a slot,
     * no slot is listed twice, a slot is allocated exactly when it is
     * listed, and no two listed slots hold the same address.
     */
    ghost predicate Valid()
      reads this, addr, deadline, used
    {
      && addr.Length == MAX_NEIGHBORS
      && deadline.Length == MAX_NEIGHBORS
      && used.Length == MAX_NEIGHBORS
      && Pool.Below(list, MAX_NEIGHBORS)
      && Pool.Distinct(list)
      && (forall s :: 0 <= s < MAX_NEIGHBORS ==> (used[s] <==> s in list))
      && Unique(Entries(list, addr[..], deadline[..]))
    }

    /** The table as a value: the listed entries, head first. */
    ghost function View(): seq<Neighbor>
      reads this, addr, deadline, used
      requires Valid()
    {
      Entries(list, addr[..], deadline[..])
    }

    /** memb_init and list_init: every slot free, the list empty. */
    constructor ()
      ensures Valid() && View() == []
      ensures forall s :: 0 <= s < MAX_NEIGHBORS ==> !used[s]
      ensures fresh(addr) && fresh(deadline) && fresh(used)
    {
      addr := new RimeAddr[MAX_NEIGHBORS](_ => RimeAddr(0, 0));
      deadline := new nat[MAX_NEIGHBORS](_ => 0);
      used := new bool[MAX_NEIGHBORS](_ => false);
      list := [];
    }

    /** The table invariant: unique addresses and at most MAX_NEIGHBORS entries. */
    lemma ValidTable()
      requires Valid()
      ensures Inv(View())
      ensures |list| == MAX_NEIGHBORS <==> forall s :: 0 <= s < MAX_NEIGHBORS ==> used[s]
    {
      Pool.Pigeonhole(list, MAX_NEIGHBORS);
    }

    /**
     * The scan of neighbor_table for `from`, comparing with rimeaddr_cmp:
     * the position of the entry with that address, or None.
     */
    method Lookup(from: RimeAddr) returns (k: Option<nat>)
      requires Valid()
      ensures k == Find(View(), from)
      ensures k.Some? ==> k.value < |list| && addr[list[k.value]] == from
      ensures k.None? ==> forall i :: 0 <= i < |list| ==> addr[list[i]] != from
    {
      var i := 0;
      while i < |list|
        invariant 0 <= i <= |list|
        invariant forall j :: 0 <= j < i ==> addr[list[j]] != from
      {
        if SameAddr(from, addr[list[i]]) {
          ghost var v := View();
          assert v[i].addr == from;
          ghost var r := Find(v, from);
          assert forall j :: 0 <= j < i ==> v[j].addr != from;
          assert r.Some? && r.value == i;
          return Some(i);
        }
        i := i + 1;
      }
      assert forall j :: 0 <= j < |list| ==> View()[j].addr != from;
      return None;
    }

    /**
     * The search of memb_alloc: the lowest free slot, or None when the
     * pool is exhausted, which happens exactly when the table is full.
     */
    method FreeSlot() returns (s: Option<nat>)
      requires Valid()
      ensures s.Some? ==> s.value < MAX_NEIGHBORS && !used[s.value]
      ensures s.Some? ==> forall t :: 0 <= t < s.value ==> used[t]
      ensures s.None? ==> forall t :: 0 <= t < MAX_NEIGHBORS ==> used[t]
      ensures s.None? <==> |list| == MAX_NEIGHBORS
    {
      ValidTable();
      var t := 0;
      while t < MAX_NEIGHBORS
        invariant 0 <= t <= MAX_NEIGHBORS
        invariant forall u :: 0 <= u < t ==> used[u]
      {
        if !used[t] {
          return Some(t);
        }
        t := t + 1;
      }
      return None;
    }

    /** ctimer_set on the pending timer of the entry at position `k`: its deadline is replaced. */
    method Rearm(k: nat, now: nat)
      requires Valid() && k < |list|
      modifies deadline
      ensures Valid()
      ensures View() == old(View())[k := Neighbor(old(View())[k].addr, now + NEIGHBOR_TIMEOUT)]
    {
      ghost var v := View();
      var e := list[k];
      EntriesRetime(list, addr[..], deadline[..], k, now + NEIGHBOR_TIMEOUT);
      deadline[e] := now + NEIGHBOR_TIMEOUT;
      assert deadline[..] == old(deadline[..])[e := now + NEIGHBOR_TIMEOUT];
      assert forall i :: 0 <= i < |list| ==> View()[i].addr == v[i].addr;
    }

    /**
     * memb_alloc has handed out the free slot `e`: fill in the sender's
     * address, arm its timer, and append it to neighbor_table.
     */
    method Insert(e: nat, from: RimeAddr, now: nat)
      requires Valid() && e < MAX_NEIGHBORS && !used[e] && !Known(View(), from)
      modifies this, addr, deadline, used
      ensures Valid()
      ensures View() == old(View()) + [Neighbor(from, now + NEIGHBOR_TIMEOUT)]
      ensures list == old(list) + [e]
    {
      ghost var v := View();
      used[e] := true;                         // memb_alloc
      addr[e] := from;                         // rimeaddr_copy
      list := list + [e];                      // list_add appends at the tail
      deadline[e] := now + NEIGHBOR_TIMEOUT;   // ctimer_set
      assert addr[..] == old(addr[..])[e := from];
      assert deadline[..] == old(deadline[..])[e := now + NEIGHBOR_TIMEOUT];
      EntriesOutside(old(list), old(addr[..]), old(deadline[..]), e, from, now + NEIGHBOR_TIMEOUT);
      EntriesAppend(old(list), addr[..], deadline[..], e);
      UniqueAppend(v, Neighbor(from, now + NEIGHBOR_TIMEOUT));
    }

    /**
     * received_announcement: re-arm the timer of a listed sender, or list
     * an unknown sender in a fresh slot if one is free; `id` and `value`
     * are not used.
     */
    method ReceivedAnnouncement(from: RimeAddr, id: u16, value: u16, now: nat)
      requires Valid()
      modifies this, addr, deadline, used
      ensures Valid()
      ensures View() == Announce(old(View()), from, now)
      ensures |list| >= |old(list)| && list[..|old(list)|] == old(list)
    {
      ghost var v := View();
      ValidTable();
      var k := Lookup(from);
      if k.Some? {
        AnnounceKnown(v, from, now, k.value);
        Rearm(k.value, now);
        return;
      }
      var s := FreeSlot();
      if s.Some? {
        AnnounceNew(v, from, now);
        Insert(s.value, from, now);
        assert list[..|old(list)|] == old(list);
      } else {
        AnnounceFull(v, from, now);
      }
    }

    /** The position of slot `e` in neighbor_table, as list_remove finds it, or |list| if absent. */
    method Position(e: nat) returns (k: nat)
      requires Valid()
      ensures k <= |list|
      ensures k < |list| ==> list[k] == e
      ensures k == |list| <==> e !in list
    {
      k := 0;
      while k < |list| && list[k] != e
        invariant 0 <= k <= |list|
        invariant forall j :: 0 <= j < k ==> list[j] != e
      {
        k := k + 1;
      }
    }

    /**
     * remove_neighbor: list_remove unlinks the entry of slot `e` and
     * memb_free returns the slot to the pool; both leave an unlisted, free
     * slot alone.
     */
    method RemoveNeighbor(e: nat)
      requires Valid() && e < MAX_NEIGHBORS
      modifies this, used
      ensures Valid()
      ensures old(e in list) ==> View() == Evict(old(View()), addr[e])
      ensures !old(e in list) ==> list == old(list)
      ensures !used[e]
      ensures forall t :: 0 <= t < MAX_NEIGHBORS && t != e ==> used[t] == old(used[t])
    {
      ghost var v := View();
      var k := Position(e);
      if k < |list| {
        ValidTable();
        EvictAt(v, addr[e], k);
        EvictPreservesInv(v, addr[e]);
        EntriesRemove(list, addr[..], deadline[..], k);
        Pool.WithoutFacts(list, MAX_NEIGHBORS, k);
        list := Pool.Without(list, k);
      }
      used[e] := false;
    }

    /**
     * The ctimer scheduler at time `now`: every pending timer whose
     * deadline has come fires and calls remove_neighbor on its entry.
     */
    method Tick(now: nat)
      requires Valid()
      modifies this, used
      ensures Valid()
      ensures View() == Expire(old(View()), now)
    {
      ghost var v := View();
      var i := 0;
      ghost var j := 0;
      assert Swept(View(), v, i, j, now);
      while i < |list|
        invariant Valid()
        invariant Swept(View(), v, i, j, now)
        decreases |list| - i
      {
        ghost var w := View();
        var e := list[i];
        if deadline[e] <= now {
          SweepDrop(v, w, i, j, now);
          ValidTable();
          EvictAt(w, addr[e], i);
          RemoveNeighbor(e);
        } else {
          SweepKeep(v, w, i, j, now);
          i := i + 1;
        }
        j := j + 1;
      }
      assert v[..j] == v;
    }

    /**
     * forward: drop (None) on an empty table; otherwise walk the list to
     * position rnd % length and return that neighbor's address.  The
     * packet's originator, destination, previous hop and hop count play no
     * part, and nothing changes.
     */
    method Forward(originator: RimeAddr, dest: RimeAddr, prevhop: RimeAddr, hops: u8, rnd: u16)
      returns (next: Option<RimeAddr>)
      requires Valid()
      ensures next == Choose(View(), rnd)
      ensures next.None? <==> |list| == 0
      ensures next.Some? ==> exists i :: 0 <= i < |list| && addr[list[i]] == next.value
    {
      var num := 0;
      var n := |list|;           // the cursor n; |list| stands for NULL
      if |list| > 0 {
        num := rnd as int % |list|;
        var i := 0;
        n := 0;                  // list_head
        while n < |list| && i != num
          invariant 0 <= n == i <= num < |list|
          decreases |list| - n
        {
          n := n + 1;
          i := i + 1;
        }
      }
      if n < |list| {
        next := Some(addr[list[n]]);
        assert View()[n].addr == next.value;
      } else {
        next := None;
      }
    }
  }
}
