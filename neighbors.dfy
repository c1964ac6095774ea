/**
 * The neighbor table of the multihop example as a value: the list of
 * entries in list order, each with its address and the expiry time of its
 * ctimer.  The functions here say what announcement handling, timer expiry,
 * eviction and the forwarding choice do to that value; the class in
 * multihop.dfy is proved to follow them.
 */
module Neighbors {
  import opened Wrappers
  import opened Rime

  /** Time is counted in seconds. */
  const CLOCK_SECOND: nat := 1

  /** How long an entry lives without a fresh announcement (60 * CLOCK_SECOND). */
  const NEIGHBOR_TIMEOUT: nat := 60 * CLOCK_SECOND

  /** Number of slots in the neighbor_mem pool. */
  const MAX_NEIGHBORS: nat := 16

  /** One entry of neighbor_table: the neighbor's address and the time its ctimer fires. */
  datatype Neighbor = Neighbor(addr: RimeAddr, deadline: nat)

  /** Some entry of the table has address `a`. */
  predicate Known(v: seq<Neighbor>, a: RimeAddr) {
    exists i :: 0 <= i < |v| && v[i].addr == a
  }

  /** No two entries share an address. */
  predicate Unique(v: seq<Neighbor>) {
    forall i, j :: 0 <= i < j < |v| ==> v[i].addr != v[j].addr
  }

  /** The invariant of the table: unique addresses, and no more entries than pool slots. */
  predicate Inv(v: seq<Neighbor>) {
    Unique(v) && |v| <= MAX_NEIGHBORS
  }

  /** An entry whose timer has not fired at time `now`: ctimer fires once `now` reaches the deadline. */
  predicate Alive(n: Neighbor, now: nat) {
    now < n.deadline
  }

  /**
   * The scan of the list for address `a`, head first: the position of the
   * first entry with that address, or None when no entry has it.
   */
  function Find(v: seq<Neighbor>, a: RimeAddr): (r: Option<nat>)
    ensures r.Some? ==> r.value < |v| && v[r.value].addr == a
    ensures r.Some? ==> forall j :: 0 <= j < r.value ==> v[j].addr != a
    ensures r.None? <==> !Known(v, a)
  {
    if |v| == 0 then None
    else if v[0].addr == a then Some(0)
    else
      match Find(v[1..], a)
      case None =>
        assert forall i :: 0 < i < |v| ==> v[i] == v[1..][i - 1];
        None
      case Some(k) => Some(k + 1)
  }

  /**
   * The table after an announcement from `a` at time `now`: a known sender
   * has its entry's timer re-armed to now + NEIGHBOR_TIMEOUT; an unknown
   * sender is appended with a freshly armed timer if a pool slot is free,
   * and ignored otherwise.
   */
  function Announce(v: seq<Neighbor>, a: RimeAddr, now: nat): (r: seq<Neighbor>) {
    match Find(v, a)
    case Some(k) => v[k := Neighbor(a, now + NEIGHBOR_TIMEOUT)]
    case None =>
      if |v| < MAX_NEIGHBORS then v + [Neighbor(a, now + NEIGHBOR_TIMEOUT)] else v
  }

  /**
   * The table after every timer due at `now` has fired: the live entries,
   * in their list order.
   */
  function Expire(v: seq<Neighbor>, now: nat): (r: seq<Neighbor>) {
    if v == [] then []
    else (if Alive(v[0], now) then [v[0]] else []) + Expire(v[1..], now)
  }

  /** The table after the entry with address `a` is unlinked. */
  function Evict(v: seq<Neighbor>, a: RimeAddr): (r: seq<Neighbor>) {
    if v == [] then []
    else (if v[0].addr == a then [] else [v[0]]) + Evict(v[1..], a)
  }

  /**
   * The forwarding decision for random number `rnd`: drop (None) on an
   * empty table, otherwise the address at position rnd % length.
   */
  function Choose(v: seq<Neighbor>, rnd: u16): (r: Option<RimeAddr>)
    ensures r.None? <==> v == []
    ensures r.Some? ==> Known(v, r.value)
  {
    if |v| == 0 then None else Some(v[rnd as nat % |v|].addr)
  }

  /**
   * One ctimer callback at time `now` for the entry with address `a`: the
   * entry is unlinked when its timer is due.  A timer that is not due yet
   * does not fire, and an address that is not listed has no timer.
   */
  function Fire(v: seq<Neighbor>, a: RimeAddr, now: nat): (r: seq<Neighbor>) {
    match Find(v, a)
    case Some(k) => if Alive(v[k], now) then v else Evict(v, a)
    case None => v
  }

  /**
   * The events that change the table: an announcement, every timer due
   * at some time firing together, or the timer of one entry firing alone.
   */
  datatype Event =
    | Announced(from: RimeAddr, at: nat)
    | TimersDue(at: nat)
    | Fired(entry: RimeAddr, at: nat)

  /** The table after one event. */
  function Step(v: seq<Neighbor>, e: Event): (w: seq<Neighbor>) {
    match e
    case Announced(a, t) => Announce(v, a, t)
    case TimersDue(t) => Expire(v, t)
    case Fired(a, t) => Fire(v, a, t)
  }

  /** The table after a sequence of events, first event first. */
  function Run(v: seq<Neighbor>, evs: seq<Event>): (r: seq<Neighbor>)
    decreases |evs|
  {
    if evs == [] then v else Run(Step(v, evs[0]), evs[1..])
  }

  // ---------------------------------------------------------------------
  // Announcements

  /**
   * An announcement from a listed address changes only that entry, and
   * only its deadline: no entry is added, none moves, none else changes.
   */
  lemma AnnounceKnown(v: seq<Neighbor>, a: RimeAddr, now: nat, k: nat)
    requires Unique(v) && k < |v| && v[k].addr == a
    ensures Announce(v, a, now) == v[k := Neighbor(a, now + NEIGHBOR_TIMEOUT)]
  {
    assert forall j :: 0 <= j < |v| && v[j].addr == a ==> j == k;
    assert Known(v, a);
  }

  /** An announcement from an unknown address when every slot is taken leaves the table as it was. */
  lemma AnnounceFull(v: seq<Neighbor>, a: RimeAddr, now: nat)
    requires !Known(v, a) && |v| >= MAX_NEIGHBORS
    ensures Announce(v, a, now) == v
  {
  }

  /**
   * An announcement from an unknown address when a slot is free appends it
   * at the tail with a timer armed to now + NEIGHBOR_TIMEOUT; earlier
   * entries keep their order and deadlines.
   */
  lemma AnnounceNew(v: seq<Neighbor>, a: RimeAddr, now: nat)
    requires !Known(v, a) && |v| < MAX_NEIGHBORS
    ensures Announce(v, a, now) == v + [Neighbor(a, now + NEIGHBOR_TIMEOUT)]
  {
  }

  /** Appending an entry keeps addresses unique when its address is not yet listed. */
  lemma UniqueAppend(v: seq<Neighbor>, n: Neighbor)
    requires Unique(v) && !Known(v, n.addr)
    ensures Unique(v + [n])
  {
    var w := v + [n];
    forall i, j | 0 <= i < j < |w| ensures w[i].addr != w[j].addr {
      if j == |v| {
        assert w[i] == v[i];
      }
    }
  }

  /** Announcements keep addresses unique and the table within the pool. */
  lemma AnnouncePreservesInv(v: seq<Neighbor>, a: RimeAddr, now: nat)
    requires Inv(v)
    ensures Inv(Announce(v, a, now))
  {
    match Find(v, a)
    case Some(k) =>
      var r := v[k := Neighbor(a, now + NEIGHBOR_TIMEOUT)];
      assert forall i :: 0 <= i < |v| ==> r[i].addr == v[i].addr;
    case None =>
      if |v| < MAX_NEIGHBORS {
        UniqueAppend(v, Neighbor(a, now + NEIGHBOR_TIMEOUT));
      }
  }

  /**
   * After an announcement the sender is listed unless it was unknown and
   * the pool was full, and every address listed before is still listed.
   */
  lemma AnnounceListsSender(v: seq<Neighbor>, a: RimeAddr, now: nat)
    ensures Known(Announce(v, a, now), a) <==> Known(v, a) || |v| < MAX_NEIGHBORS
    ensures forall b :: Known(v, b) ==> Known(Announce(v, a, now), b)
  {
    var r := Announce(v, a, now);
    match Find(v, a)
    case Some(k) =>
      assert r[k].addr == a;
      forall b | Known(v, b) ensures Known(r, b) {
        var i :| 0 <= i < |v| && v[i].addr == b;
        assert r[i].addr == b;
      }
    case None =>
      if |v| < MAX_NEIGHBORS {
        assert r[|v|].addr == a;
        forall b | Known(v, b) ensures Known(r, b) {
          var i :| 0 <= i < |v| && v[i].addr == b;
          assert r[i].addr == b;
        }
      }
  }

  /**
   * Announcing again never adds a second entry: the later announcement
   * simply replaces the deadline the earlier one set.
   */
  lemma {:induction false} AnnounceAgain(v: seq<Neighbor>, a: RimeAddr, t1: nat, t2: nat)
    ensures Announce(Announce(v, a, t1), a, t2) == Announce(v, a, t2)
  {
    var w := Announce(v, a, t1);
    match Find(v, a)
    case Some(k) =>
      assert w[k].addr == a;
      assert forall j :: 0 <= j < k ==> w[j] == v[j];
      assert Find(w, a) == Some(k);
    case None =>
      if |v| < MAX_NEIGHBORS {
        assert w[|v|].addr == a;
        assert forall j :: 0 <= j < |v| ==> w[j] == v[j];
        assert Find(w, a) == Some(|v|);
      }
  }

  // ---------------------------------------------------------------------
  // Timer expiry and eviction

  /**
   * The timer sweep keeps exactly the listed entries whose deadline is
   * still ahead, and never makes the table longer.
   */
  lemma {:induction false} ExpireMembers(v: seq<Neighbor>, now: nat)
    ensures |Expire(v, now)| <= |v|
    ensures forall n :: n in Expire(v, now) <==> n in v && Alive(n, now)
  {
    if v != [] {
      ExpireMembers(v[1..], now);
      assert v == [v[0]] + v[1..];
    }
  }

  /** The entries that survive the timers of `a + b` are those of `a` followed by those of `b`. */
  lemma {:induction false} ExpireAppend(a: seq<Neighbor>, b: seq<Neighbor>, now: nat)
    ensures Expire(a + b, now) == Expire(a, now) + Expire(b, now)
  {
    if a != [] {
      var head := if Alive(a[0], now) then [a[0]] else [];
      assert (a + b)[0] == a[0];
      assert (a + b)[1..] == a[1..] + b;
      assert Expire(a + b, now) == head + Expire(a[1..] + b, now);
      ExpireAppend(a[1..], b, now);
      assert Expire(a, now) == head + Expire(a[1..], now);
    } else {
      assert a + b == b;
    }
  }

  /** Putting an entry in front keeps addresses unique exactly when its address is not listed yet. */
  lemma {:induction false} UniqueCons(n: Neighbor, v: seq<Neighbor>)
    ensures Unique([n] + v) <==> Unique(v) && !Known(v, n.addr)
  {
    var w := [n] + v;
    assert forall i :: 0 < i < |w| ==> w[i] == v[i - 1];
    if Unique(w) {
      forall i, j | 0 <= i < j < |v| ensures v[i].addr != v[j].addr {
        assert w[i + 1].addr != w[j + 1].addr;
      }
      forall i | 0 <= i < |v| ensures v[i].addr != n.addr {
        assert w[0].addr != w[i + 1].addr;
      }
    }
  }

  /** Timer expiry never makes two entries share an address. */
  lemma {:induction false} ExpirePreservesUnique(v: seq<Neighbor>, now: nat)
    requires Unique(v)
    ensures Unique(Expire(v, now))
  {
    if v != [] {
      assert v == [v[0]] + v[1..];
      UniqueCons(v[0], v[1..]);
      ExpirePreservesUnique(v[1..], now);
      ExpireMembers(v[1..], now);
      var rest := Expire(v[1..], now);
      if Alive(v[0], now) {
        forall i | 0 <= i < |rest| ensures rest[i].addr != v[0].addr {
          assert rest[i] in v[1..];
        }
        UniqueCons(v[0], rest);
      }
    }
  }

  /** Timer expiry keeps addresses unique and the table within the pool. */
  lemma ExpirePreservesInv(v: seq<Neighbor>, now: nat)
    requires Inv(v)
    ensures Inv(Expire(v, now))
  {
    ExpireMembers(v, now);
    ExpirePreservesUnique(v, now);
  }

  /** No entry survives a timer sweep at its own deadline or later, and every other entry survives it. */
  lemma ExpireExact(v: seq<Neighbor>, now: nat, i: nat)
    requires i < |v|
    ensures v[i] in Expire(v, now) <==> now < v[i].deadline
  {
    ExpireMembers(v, now);
  }

  /** Unlinking keeps exactly the entries with another address, and never makes the table longer. */
  lemma {:induction false} EvictMembers(v: seq<Neighbor>, a: RimeAddr)
    ensures |Evict(v, a)| <= |v|
    ensures forall n :: n in Evict(v, a) <==> n in v && n.addr != a
  {
    if v != [] {
      EvictMembers(v[1..], a);
      assert v == [v[0]] + v[1..];
    }
  }

  /** Unlinking from `a + b` unlinks from `a` and from `b`. */
  lemma {:induction false} EvictAppend(a: seq<Neighbor>, b: seq<Neighbor>, x: RimeAddr)
    ensures Evict(a + b, x) == Evict(a, x) + Evict(b, x)
  {
    if a != [] {
      var head := if a[0].addr == x then [] else [a[0]];
      assert (a + b)[0] == a[0];
      assert (a + b)[1..] == a[1..] + b;
      assert Evict(a + b, x) == head + Evict(a[1..] + b, x);
      EvictAppend(a[1..], b, x);
      assert Evict(a, x) == head + Evict(a[1..], x);
    } else {
      assert a + b == b;
    }
  }

  /** An entry with no address in the table is not touched by eviction. */
  lemma {:induction false} EvictAbsent(v: seq<Neighbor>, a: RimeAddr)
    requires !Known(v, a)
    ensures Evict(v, a) == v
  {
    if v != [] {
      forall i | 0 <= i < |v[1..]| ensures v[1..][i].addr != a {
        assert v[1..][i] == v[i + 1];
      }
      EvictAbsent(v[1..], a);
      assert v == [v[0]] + v[1..];
    }
  }

  /** Unlinking the only entry leaves nothing. */
  lemma EvictSelf(n: Neighbor)
    ensures Evict([n], n.addr) == []
  {
    assert [n][1..] == [];
  }

  /** In a table with unique addresses, the address at `k` occurs neither before nor after `k`. */
  lemma UniqueElsewhere(v: seq<Neighbor>, k: nat)
    requires Unique(v) && k < |v|
    ensures !Known(v[..k], v[k].addr) && !Known(v[k + 1..], v[k].addr)
  {
    forall i | 0 <= i < k ensures v[..k][i].addr != v[k].addr {
      assert v[..k][i] == v[i];
    }
    var after := v[k + 1..];
    forall i | 0 <= i < |after| ensures after[i].addr != v[k].addr {
      assert after[i] == v[k + 1 + i];
    }
  }

  /**
   * Evicting the entry at position `k` of a table with unique addresses
   * removes exactly that entry; the others keep their relative order.
   */
  lemma EvictAt(v: seq<Neighbor>, a: RimeAddr, k: nat)
    requires Unique(v) && k < |v| && v[k].addr == a
    ensures Evict(v, a) == v[..k] + v[k + 1..]
  {
    var before, mid, after := v[..k], [v[k]], v[k + 1..];
    assert v == before + (mid + after);
    UniqueElsewhere(v, k);
    EvictAbsent(before, a);
    EvictAbsent(after, a);
    EvictSelf(v[k]);
    EvictAppend(mid, after, a);
    EvictAppend(before, mid + after, a);
  }

  /** Eviction keeps addresses unique and the table within the pool, and the evicted address is gone. */
  lemma EvictPreservesInv(v: seq<Neighbor>, a: RimeAddr)
    requires Inv(v)
    ensures Inv(Evict(v, a)) && !Known(Evict(v, a), a)
  {
    var r := Evict(v, a);
    EvictMembers(v, a);
    forall i | 0 <= i < |r| ensures r[i].addr != a {
      assert r[i] in r;
    }
    match Find(v, a)
    case None =>
      EvictAbsent(v, a);
    case Some(k) =>
      EvictAt(v, a, k);
      UniqueWithout(v, k);
  }

  /** Removing one entry keeps addresses unique. */
  lemma UniqueWithout(v: seq<Neighbor>, k: nat)
    requires Unique(v) && k < |v|
    ensures Unique(v[..k] + v[k + 1..])
  {
    var r := v[..k] + v[k + 1..];
    forall i, j | 0 <= i < j < |r| ensures r[i].addr != r[j].addr {
      var i' := if i < k then i else i + 1;
      var j' := if j < k then j else j + 1;
      assert r[i] == v[i'] && r[j] == v[j'];
    }
  }

  /**
   * A single timer callback for the entry at position `k` unlinks exactly
   * that entry when its deadline has come, and changes nothing before.
   */
  lemma FireDue(v: seq<Neighbor>, a: RimeAddr, now: nat, k: nat)
    requires Unique(v) && k < |v| && v[k].addr == a
    ensures Fire(v, a, now) == if Alive(v[k], now) then v else v[..k] + v[k + 1..]
  {
    assert forall j :: 0 <= j < |v| && v[j].addr == a ==> j == k;
    assert Known(v, a);
    assert Find(v, a) == Some(k);
    EvictAt(v, a, k);
  }

  /** A single timer callback keeps addresses unique and the table within the pool. */
  lemma FirePreservesInv(v: seq<Neighbor>, a: RimeAddr, now: nat)
    requires Inv(v)
    ensures Inv(Fire(v, a, now))
  {
    EvictPreservesInv(v, a);
  }

  // ---------------------------------------------------------------------
  // Refresh and timeout over time

  /** The entry for `a` is listed, and its timer fires no earlier than `d`. */
  predicate ListedUntil(v: seq<Neighbor>, a: RimeAddr, d: nat) {
    exists i :: 0 <= i < |v| && v[i].addr == a && d <= v[i].deadline
  }

  /** Every timer event in `evs` happens before time `d`. */
  predicate TimersBefore(evs: seq<Event>, d: nat) {
    forall i :: 0 <= i < |evs| && !evs[i].Announced? ==> evs[i].at < d
  }

  /** Every announcement from `a` in `evs` arms its timer to `d` or later. */
  predicate RefreshedPast(evs: seq<Event>, a: RimeAddr, d: nat) {
    forall i :: 0 <= i < |evs| && evs[i].Announced? && evs[i].from == a ==> d <= evs[i].at + NEIGHBOR_TIMEOUT
  }

  /**
   * An entry whose timer fires at `d` or later outlives one event before
   * `d`, unless that event is an announcement from it arming a sooner timer.
   */
  lemma StepListedUntil(v: seq<Neighbor>, e: Event, a: RimeAddr, d: nat)
    requires Inv(v) && ListedUntil(v, a, d)
    requires !e.Announced? ==> e.at < d
    requires e.Announced? && e.from == a ==> d <= e.at + NEIGHBOR_TIMEOUT
    ensures ListedUntil(Step(v, e), a, d)
  {
    var i :| 0 <= i < |v| && v[i].addr == a && d <= v[i].deadline;
    var w := Step(v, e);
    match e
    case Announced(b, t) =>
      match Find(v, b) {
        case Some(k) =>
          if k == i {
            assert w[i] == Neighbor(a, t + NEIGHBOR_TIMEOUT);
          } else {
            assert w[i] == v[i];
          }
        case None =>
          assert w[i] == v[i];
      }
    case TimersDue(t) =>
      ExpireExact(v, t, i);
      var j :| 0 <= j < |w| && w[j] == v[i];
    case Fired(b, t) =>
      if b == a {
        FireDue(v, a, t, i);
      } else {
        EvictMembers(v, b);
        assert v[i] in Evict(v, b);
        var j :| 0 <= j < |Evict(v, b)| && Evict(v, b)[j] == v[i];
      }
  }

  /**
   * An entry whose timer fires at `d` or later is still listed after any
   * run of events before `d` in which its own announcements arm no sooner
   * timer.
   */
  lemma {:induction false} RunListedUntil(v: seq<Neighbor>, evs: seq<Event>, a: RimeAddr, d: nat)
    requires Inv(v) && ListedUntil(v, a, d)
    requires TimersBefore(evs, d) && RefreshedPast(evs, a, d)
    ensures ListedUntil(Run(v, evs), a, d)
    decreases |evs|
  {
    if evs != [] {
      StepListedUntil(v, evs[0], a, d);
      StepPreservesInv(v, evs[0]);
      assert TimersBefore(evs[1..], d) && RefreshedPast(evs[1..], a, d) by {
        forall i | 0 <= i < |evs[1..]| ensures evs[1..][i] == evs[i + 1] {}
      }
      RunListedUntil(Step(v, evs[0]), evs[1..], a, d);
    }
  }

  /** An announcement at `t` that lists its sender arms that entry's timer to t + NEIGHBOR_TIMEOUT. */
  lemma AnnounceListedUntil(v: seq<Neighbor>, a: RimeAddr, t: nat)
    requires Known(v, a) || |v| < MAX_NEIGHBORS
    ensures ListedUntil(Announce(v, a, t), a, t + NEIGHBOR_TIMEOUT)
  {
    var w := Announce(v, a, t);
    match Find(v, a)
    case Some(k) =>
      assert w[k] == Neighbor(a, t + NEIGHBOR_TIMEOUT);
    case None =>
      assert w[|v|] == Neighbor(a, t + NEIGHBOR_TIMEOUT);
  }

  /**
   * A neighbor whose entry exists after its announcement at `t` stays
   * listed through every later announcement and timer firing before
   * t + NEIGHBOR_TIMEOUT: re-arming replaced any earlier, sooner deadline,
   * and later announcements from it only push the deadline further.
   */
  lemma RefreshPostponesEviction(v: seq<Neighbor>, a: RimeAddr, t: nat, evs: seq<Event>)
    requires Inv(v)
    requires Known(v, a) || |v| < MAX_NEIGHBORS
    requires TimersBefore(evs, t + NEIGHBOR_TIMEOUT) && RefreshedPast(evs, a, t + NEIGHBOR_TIMEOUT)
    ensures Known(Run(v, [Announced(a, t)] + evs), a)
    ensures ListedUntil(Run(v, [Announced(a, t)] + evs), a, t + NEIGHBOR_TIMEOUT)
  {
    var w := Announce(v, a, t);
    AnnouncePreservesInv(v, a, t);
    AnnounceListedUntil(v, a, t);
    RunListedUntil(w, evs, a, t + NEIGHBOR_TIMEOUT);
    var all := [Announced(a, t)] + evs;
    assert all[1..] == evs;
    assert Run(v, all) == Run(w, evs);
    var r := Run(w, evs);
    var i :| 0 <= i < |r| && r[i].addr == a && t + NEIGHBOR_TIMEOUT <= r[i].deadline;
  }

  /** Every entry for `a` has its timer set to fire no later than `d`. */
  predicate ExpiresBy(v: seq<Neighbor>, a: RimeAddr, d: nat) {
    forall i :: 0 <= i < |v| && v[i].addr == a ==> v[i].deadline <= d
  }

  /** No announcement from `a` in `evs` arms a timer past `d`. */
  predicate SilentAfter(evs: seq<Event>, a: RimeAddr, d: nat) {
    forall i :: 0 <= i < |evs| && evs[i].Announced? && evs[i].from == a ==> evs[i].at + NEIGHBOR_TIMEOUT <= d
  }

  /** One event keeps the deadline bound of `a` unless it is an announcement from `a` arming past `d`. */
  lemma StepExpiresBy(v: seq<Neighbor>, e: Event, a: RimeAddr, d: nat)
    requires ExpiresBy(v, a, d)
    requires e.Announced? && e.from == a ==> e.at + NEIGHBOR_TIMEOUT <= d
    ensures ExpiresBy(Step(v, e), a, d)
  {
    var w := Step(v, e);
    match e
    case Announced(b, t) =>
    case TimersDue(t) =>
      ExpireMembers(v, t);
      forall i | 0 <= i < |w| && w[i].addr == a ensures w[i].deadline <= d {
        assert w[i] in v;
      }
    case Fired(b, t) =>
      EvictMembers(v, b);
      forall i | 0 <= i < |w| && w[i].addr == a ensures w[i].deadline <= d {
        assert w[i] in v;
      }
  }

  /** The deadline bound of `a` survives any run in which `a` never arms its timer past `d`. */
  lemma {:induction false} RunExpiresBy(v: seq<Neighbor>, evs: seq<Event>, a: RimeAddr, d: nat)
    requires ExpiresBy(v, a, d) && SilentAfter(evs, a, d)
    ensures ExpiresBy(Run(v, evs), a, d)
    decreases |evs|
  {
    if evs != [] {
      StepExpiresBy(v, evs[0], a, d);
      assert SilentAfter(evs[1..], a, d) by {
        forall i | 0 <= i < |evs[1..]| ensures evs[1..][i] == evs[i + 1] {}
      }
      RunExpiresBy(Step(v, evs[0]), evs[1..], a, d);
    }
  }

  /** Running `evs` and then one more event is one more step after the run. */
  lemma {:induction false} RunSnoc(v: seq<Neighbor>, evs: seq<Event>, e: Event)
    ensures Run(v, evs + [e]) == Step(Run(v, evs), e)
    decreases |evs|
  {
    if evs == [] {
      assert [e][1..] == [];
    } else {
      assert (evs + [e])[1..] == evs[1..] + [e];
      RunSnoc(Step(v, evs[0]), evs[1..], e);
    }
  }

  /**
   * A neighbor that is not heard from again is gone once the timers due at
   * its last deadline `d` (or later) have fired, whatever else happened in
   * between.
   */
  lemma SilentNeighborExpires(v: seq<Neighbor>, evs: seq<Event>, a: RimeAddr, d: nat, now: nat)
    requires ExpiresBy(v, a, d) && SilentAfter(evs, a, d)
    requires d <= now
    ensures !Known(Run(v, evs + [TimersDue(now)]), a)
  {
    RunSnoc(v, evs, TimersDue(now));
    RunExpiresBy(v, evs, a, d);
    var w := Run(v, evs);
    var r := Expire(w, now);
    ExpireMembers(w, now);
    forall i | 0 <= i < |r| ensures r[i].addr != a {
      assert r[i] in w;
      var j :| 0 <= j < |w| && w[j] == r[i];
    }
  }

  /** Announce from a at 0: still listed after the sweep at 59, gone after the sweep at 61. */
  lemma TimeoutScenario(a: RimeAddr)
    ensures Known(Run([], [Announced(a, 0), TimersDue(59)]), a)
    ensures !Known(Run([], [Announced(a, 0), TimersDue(59), TimersDue(61)]), a)
  {
    var one := Announce([], a, 0);
    assert one == [Neighbor(a, 60)];
    assert Expire(one, 59) == one;
    assert Expire(one, 61) == [];
    var evs := [Announced(a, 0), TimersDue(59), TimersDue(61)];
    assert evs[..2][1..] == [TimersDue(59)] && evs[1..] == [TimersDue(59), TimersDue(61)];
    assert evs[1..][1..] == [TimersDue(61)];
    assert Run(one, [TimersDue(59)]) == one;
    assert Run([], evs[..2]) == one;
    assert Run(one, [TimersDue(61)]) == [];
    assert Run(one, evs[1..]) == [];
    assert Run([], evs) == [];
    assert evs[..2] == [Announced(a, 0), TimersDue(59)];
  }

  // ---------------------------------------------------------------------
  // Whole runs

  /** Any one event keeps the table invariant. */
  lemma StepPreservesInv(v: seq<Neighbor>, e: Event)
    requires Inv(v)
    ensures Inv(Step(v, e))
  {
    match e
    case Announced(a, t) => AnnouncePreservesInv(v, a, t);
    case TimersDue(t) => ExpirePreservesInv(v, t);
    case Fired(a, t) => FirePreservesInv(v, a, t);
  }

  /**
   * After any sequence of announcements and timer firings, no two entries
   * share an address and there are at most MAX_NEIGHBORS of them.
   */
  lemma {:induction false} RunPreservesInv(v: seq<Neighbor>, evs: seq<Event>)
    requires Inv(v)
    ensures Inv(Run(v, evs))
    decreases |evs|
  {
    if evs != [] {
      StepPreservesInv(v, evs[0]);
      RunPreservesInv(Step(v, evs[0]), evs[1..]);
    }
  }

  // ---------------------------------------------------------------------
  // Forwarding

  /** With one neighbor, forwarding always picks it. */
  lemma ChooseSingleton(n: Neighbor, rnd: u16)
    ensures Choose([n], rnd) == Some(n.addr)
  {
  }

  /** Every listed neighbor is the next hop for some value random_rand() can return. */
  lemma ChooseCoversTable(v: seq<Neighbor>, k: nat)
    requires k < |v| <= 0x1_0000
    ensures exists rnd: u16 :: Choose(v, rnd) == Some(v[k].addr)
  {
    var rnd := k as u16;
    assert rnd as nat % |v| == k;
    assert Choose(v, rnd) == Some(v[k].addr);
  }
}
