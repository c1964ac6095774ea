# Neighbor table and random-walk forwarding of the Rime multihop example

This project models the routing logic of Contiki's Rime multihop example
(`OS/Contiki/examples/06_rime/example-multihop.c`). The node keeps a table of
up to `MAX_NEIGHBORS` (16) neighbors. Periodic announcements fill the table.
Each entry has a ctimer that removes it `NEIGHBOR_TIMEOUT` (60 seconds) after
the last announcement from that neighbor. Every packet to forward goes to a
neighbor picked at random. The entries live in a fixed `MEMB` pool of 16 slots
and are linked into the `neighbor_table` list.

The project has two layers:

- `neighbors.dfy` (module `Neighbors`) states what the table is as a value:
  a sequence of `Neighbor(addr, deadline)` entries in list order. It defines
  what an announcement (`Announce`), the firing of every due timer (`Expire`),
  the firing of one entry's timer (`Fire`), the unlinking of one entry
  (`Evict`) and the forwarding choice (`Choose`) do to that sequence, and a
  `Run` over a trace of events. Lemmas then prove the
  table's properties from these definitions: unique addresses, at most
  `MAX_NEIGHBORS` entries, refresh and timeout behaviour, and what forwarding
  may return.
- `multihop.dfy` (module `Multihop`) is the imperative state. Class
  `NeighborTable` holds the pool as three arrays of 16 slots: each slot's
  address, its ctimer deadline, and whether memb has handed it out. The list
  is a sequence of slot handles, head first. `ReceivedAnnouncement`,
  `RemoveNeighbor`, `Tick` (the ctimer firing) and `Forward` work on this
  state with loops, as the C code does. Each one is proved to change the
  abstract table (`View()`) exactly as the matching function of `Neighbors`
  says. The class invariant `Valid()` pairs pool slots with list entries: a
  slot is allocated exactly when it is listed, and no slot is listed twice.
  It also keeps addresses unique.
- `pool.dfy` (module `Pool`) proves the counting fact behind the capacity
  bound: a list of distinct handles into an `n`-slot pool has at most `n`
  entries, and has exactly `n` only when every slot is taken.
- `rime.dfy` (module `Rime`) holds the two-byte Rime address, `rimeaddr_cmp`,
  and the `uint8_t` and `uint16_t` types. `wrappers.dfy` holds `Option`,
  which models C's NULL results.

Inputs from outside the core are parameters:
- the current time `now`, in seconds (`CLOCK_SECOND` is 1);
- the value of `random_rand()`, as a `u16`;
- the announcement's `id` and `value`, which the code ignores.

Each slot has one deadline cell, and `ctimer_set` overwrites it. So an entry
never has more than one pending timer.

## Model

| member | source | states |
|---|---|---|
| Rime.SameAddr | OS/Contiki/examples/06_rime/example-multihop.c:138 | the address comparison holds exactly when the sender and the entry have the same address |
| Pool.Pigeonhole | OS/Contiki/examples/06_rime/example-multihop.c:98-100 | a list of distinct slot handles into a pool of n slots has at most n entries, and exactly n only when every slot is in use |
| Neighbors.Find | OS/Contiki/examples/06_rime/example-multihop.c:137-144 | the scan yields the position of the first entry with the sender's address; it yields none exactly when no entry has that address |
| Neighbors.ExpireMembers | OS/Contiki/examples/06_rime/example-multihop.c:110-116 | after the due timers fire, an entry remains exactly when it was listed and its deadline is still in the future; the table never grows |
| Neighbors.EvictMembers | OS/Contiki/examples/06_rime/example-multihop.c:114 | unlinking keeps exactly the entries whose address differs from the removed one; the table never grows |
| Neighbors.Choose | OS/Contiki/examples/06_rime/example-multihop.c:185-204 | the decision is drop exactly when the table is empty; otherwise it is the address of a listed neighbor |
| Neighbors.AnnounceKnown | OS/Contiki/examples/06_rime/example-multihop.c:137-143 | an announcement from a listed address only sets that entry's deadline to now + NEIGHBOR_TIMEOUT; no entry is added or moved, and no other entry changes |
| Neighbors.AnnounceFull | OS/Contiki/examples/06_rime/example-multihop.c:149-150 | an announcement from an unknown address when all 16 slots are taken leaves the table unchanged |
| Neighbors.AnnounceNew | OS/Contiki/examples/06_rime/example-multihop.c:149-153 | an announcement from an unknown address when a slot is free appends that address at the tail, with deadline now + NEIGHBOR_TIMEOUT; earlier entries keep their order and deadlines |
| Neighbors.AnnouncePreservesInv | OS/Contiki/examples/06_rime/example-multihop.c:137-154 | announcement handling keeps addresses unique and the table at no more than MAX_NEIGHBORS entries |
| Neighbors.AnnounceListsSender | OS/Contiki/examples/06_rime/example-multihop.c:137-154 | after an announcement the sender is listed exactly when it was listed before or a slot was free; no listed address disappears |
| Neighbors.AnnounceAgain | OS/Contiki/examples/06_rime/example-multihop.c:140-141 | a second announcement from the same address never adds a second entry; the result is as if only the later announcement had arrived |
| Neighbors.ExpirePreservesInv | OS/Contiki/examples/06_rime/example-multihop.c:110-116 | timer expiry keeps addresses unique and the table within the pool |
| Neighbors.ExpireExact | OS/Contiki/examples/06_rime/example-multihop.c:140-141 | an entry survives the timers due at now exactly when its deadline is later than now |
| Neighbors.EvictAt | OS/Contiki/examples/06_rime/example-multihop.c:114-115 | evicting the entry at position k removes exactly that entry; the others keep their relative order |
| Neighbors.EvictPreservesInv | OS/Contiki/examples/06_rime/example-multihop.c:114-115 | eviction keeps the table invariant, and afterwards the evicted address is not listed |
| Neighbors.FireDue | OS/Contiki/examples/06_rime/example-multihop.c:106-116 | one ctimer callback for the entry at position k unlinks exactly that entry once its deadline has come, and changes nothing before then |
| Neighbors.FirePreservesInv | OS/Contiki/examples/06_rime/example-multihop.c:110-116 | a single timer callback keeps addresses unique and the table within the pool |
| Neighbors.AnnounceListedUntil | OS/Contiki/examples/06_rime/example-multihop.c:137-153 | an announcement at t that lists its sender leaves that entry with a timer firing at t + NEIGHBOR_TIMEOUT |
| Neighbors.StepListedUntil | OS/Contiki/examples/06_rime/example-multihop.c:110-153 | an entry whose timer fires at d or later survives any one event before d, unless that event is its own announcement arming a sooner timer |
| Neighbors.RunListedUntil | OS/Contiki/examples/06_rime/example-multihop.c:110-153 | an entry whose timer fires at d or later is still listed, with a deadline of at least d, after any run of announcements, sweeps and single callbacks before d in which its own announcements arm no sooner timer |
| Neighbors.RefreshPostponesEviction | OS/Contiki/examples/06_rime/example-multihop.c:137-153 | after an announcement at t that lists the sender, the sender stays listed through any later run of events before t + NEIGHBOR_TIMEOUT in which it is not re-announced earlier than t; re-arming replaced any sooner deadline |
| Neighbors.RunExpiresBy | OS/Contiki/examples/06_rime/example-multihop.c:140-153 | if no announcement from a arms a timer past d, every entry for a keeps a deadline no later than d through any run of events |
| Neighbors.SilentNeighborExpires | OS/Contiki/examples/06_rime/example-multihop.c:110-153 | if a neighbor is not heard from again, its entry is gone once the timers due at its last deadline, or later, have fired, whatever else happened in between |
| Neighbors.TimeoutScenario | OS/Contiki/examples/06_rime/example-multihop.c:97 | a neighbor announced at time 0 is still listed after the sweep at 59 and absent after the sweep at 61 |
| Neighbors.RunPreservesInv | OS/Contiki/examples/06_rime/example-multihop.c:110-155 | after any sequence of announcements, timer sweeps and single timer callbacks, no two entries share an address and there are at most 16 of them |
| Neighbors.ChooseSingleton | OS/Contiki/examples/06_rime/example-multihop.c:185-200 | with exactly one neighbor, forwarding always returns that neighbor |
| Neighbors.ChooseCoversTable | OS/Contiki/examples/06_rime/example-multihop.c:186 | for every listed neighbor, some value of random_rand() makes forwarding pick it |
| Multihop.NeighborTable.constructor | OS/Contiki/examples/06_rime/example-multihop.c:218-219 | memb_init and list_init give a valid, empty table with every slot free |
| Multihop.NeighborTable.ValidTable | OS/Contiki/examples/06_rime/example-multihop.c:98-100 | the object invariant implies unique addresses and at most MAX_NEIGHBORS entries; the list is full exactly when every pool slot is in use |
| Multihop.NeighborTable.Lookup | OS/Contiki/examples/06_rime/example-multihop.c:137-144 | the loop over the list returns the position whose slot holds the sender's address, or none when no listed slot holds it; this agrees with Neighbors.Find |
| Multihop.NeighborTable.FreeSlot | OS/Contiki/examples/06_rime/example-multihop.c:149 | memb_alloc's search returns the lowest free slot; it returns none exactly when every slot is taken, which is exactly when the table is full |
| Multihop.NeighborTable.Rearm | OS/Contiki/examples/06_rime/example-multihop.c:140-141 | ctimer_set on a listed entry replaces its deadline with now + NEIGHBOR_TIMEOUT and leaves every other entry, and its address, unchanged |
| Multihop.NeighborTable.Insert | OS/Contiki/examples/06_rime/example-multihop.c:149-153 | a freshly allocated slot gets the sender's address and a timer at now + NEIGHBOR_TIMEOUT, and is appended at the tail of the list; the invariant holds afterwards |
| Multihop.NeighborTable.ReceivedAnnouncement | OS/Contiki/examples/06_rime/example-multihop.c:126-155 | handling an announcement keeps the invariant, changes the table exactly as Neighbors.Announce says, and keeps every existing entry in its slot and list position |
| Multihop.NeighborTable.Position | OS/Contiki/examples/06_rime/example-multihop.c:114 | list_remove's walk finds the position of the slot, or the list length when the slot is not listed |
| Multihop.NeighborTable.RemoveNeighbor | OS/Contiki/examples/06_rime/example-multihop.c:110-116 | remove_neighbor unlinks the slot's entry (Neighbors.Evict) and frees exactly that slot; an unlisted slot leaves the list as it was |
| Multihop.NeighborTable.Tick | OS/Contiki/examples/06_rime/example-multihop.c:140-141 | firing every timer due at now calls remove_neighbor for each due entry, and the table becomes Neighbors.Expire of the old table |
| Multihop.NeighborTable.Forward | OS/Contiki/examples/06_rime/example-multihop.c:175-207 | the list walk returns Neighbors.Choose for the table and the random value: drop exactly when the list is empty, otherwise a listed slot's address; nothing is modified |

## Left out

- `PROCESS_THREAD` (lines 213-252) is not modelled, apart from the
  `memb_init`/`list_init` start-up that the constructor stands for. This
  covers `multihop_open`, `announcement_register`, the receiver-node check,
  the serial-line loop and `multihop_send`. They are scheduler and radio
  plumbing with no table logic.
- `recv` (lines 162-166) and every `printf`: output only.
- The ctimer scheduler is not modelled. The class's `Tick(now)` fires every
  timer whose deadline is at or before `now` as one step, calling
  `RemoveNeighbor` for each due entry. In the value model, `TimersDue` is
  that sweep and `Fired` is one callback on its own, so traces that handle an
  announcement between two callbacks due at the same time are covered by
  `RunPreservesInv`, `RunExpiresBy`, `RunListedUntil` and
  `SilentNeighborExpires`. The class has no method for a single callback
  apart from `RemoveNeighbor` itself, which keeps `Valid()` on its own.
- `random_rand()` is an input value. Its distribution, and the modulo bias
  of `% list_length`, are not modelled.
- `clock_time_t` wrap-around: time and deadlines are unbounded naturals, so
  the model assumes the clock does not wrap within a timeout window.
- Contiki's `list.c`, `memb.c`, `ctimer.c` and `rimeaddr.c` are not part of
  this model. Only the behaviour the example relies on is modelled:
  - `memb_alloc` gives the lowest free slot or NULL;
  - `memb_free` and `list_remove` leave a slot that is not allocated or not
    listed alone;
  - `list_add` appends at the tail;
  - `rimeaddr_cmp` compares both address bytes.
- `forward` returns a pointer into the pool (`&n->addr`). The model returns
  the address value, so the pointer's lifetime (valid until the entry is
  freed) is not modelled.
- A pool of another size is not modelled, because `MAX_NEIGHBORS` is the
  constant 16. `AnnounceFull` states the full-pool behaviour for the 16-slot
  pool, whatever the table holds.
- `OS/Contiki/examples/06_rime/example-unicast.c` and
  `OS/FreeRTOS/lib/mac/tdma/tdma_coord.h` are not modelled. The first is
  single-hop send and receive I/O. The second is a declared MAC task
  interface with no logic.

An entry announced at `t` is gone after the sweep at `t + 60`, because a
Contiki timer is due once the clock reaches its deadline.
