# Verified model of SeQUeNCe's reservation, resource management and routing core

This Dafny project models the bookkeeping a SeQUeNCe quantum router does
when it reserves memories for an entanglement request, pairs its
entanglement protocols with protocols on other routers, and forwards a
reservation request to its next hop. It proves what that bookkeeping
guarantees.

- `common.dfy` (`Common`) holds shared helpers: `Option`, first index,
  removal of the first occurrence (Python's `list.index` and
  `list.remove`), and duplicate-freedom.
- `reservation.dfy` (`Reservations`) covers `Reservation` with its
  constructor assertions and `MemoryTimeCard` (`add`, `remove`,
  `schedule_reservation`). The card is a class whose `reservations` list
  the methods update in place.
- `reservation_protocol.dfy` (`ReservationProtocol`) covers
  `ResourceReservationProtocol`:
  - the all-or-nothing booking `schedule`, with rollback;
  - `load_rules` and the events it schedules;
  - the REJECT branch of `pop`;
  - `push`.

  The timeline and the protocol stack are logs the class appends to.
- `path_reduction.dfy` (`PathReduction`) covers the path-halving loop in
  `create_rules` by which an interior node finds its two swapping partners.
  It also gives and proves a closed form of the result.
- `resource_manager.dfy` (`ResourceManagement`) covers `ResourceManager`:
  - `load`, `expire`, `update`, `send_request`, `received_message` and
    `memory_expire`, as methods of a class whose fields are the rule list,
    the memory records, the three protocol lists (waiting, pending and
    running, the last being the owner's `protocols`), each rule's protocol
    list, the outbox, an effect log and a protocol counter;
  - a firing, `rule.do`: the rule's action (an abstract function) builds a
    protocol and its requests; the protocol, named by the counter, joins
    its rule's protocols, and each request goes through `send_request`;
  - one specification function per operation on an `RmState` record, with
    each method proved equal to its function;
  - lemmas on those functions that state the pairing invariants: the lists
    hold no duplicate and only protocols already built, and every pending
    protocol is among its rule's protocols.
- `routing.dfy` (`Routing`) covers `StaticRoutingProtocol`: the greedy next
  hop, the forwarding table, and the wrapping in `push` and unwrapping in
  `pop`.

Each loop of the source is a method with a `while` or `for` loop. The
loop's invariant ties the state to a specification function of the prefix
done so far.

Where the code's own documentation and its behaviour disagree, the model
follows the code:
- The docstring of `schedule_reservation` (reservation.py:729-731)
  describes a binary search for the place of the new reservation among
  the physical entries. The code instead searches for the loop variable
  `res`, an entry already on the card, and never reads its argument.
  - Only the card's first non-virtual entry is ever searched for. The
    inner loop either returns -1 or leaves `start > end`, which turns every
    later round into a no-op. `SchedulePos` states this directly.
  - So a card with no non-virtual entry offers position 0. A card with one
    (or a time-sorted list of several) refuses, with -1.
  - So through `add` a card never holds two non-virtual reservations
    (`AddKeepsAtMostOnePhysical`, `CardsValid`). A node books a card
    exactly when the card is free, whatever the times.

In the resource manager, `load` always returns True
(resource_manager.py:129); where the rule manager inserts the rule is not
part of this model, so `Load` takes the insertion position `pos`. A
rejected RESPONSE tears the protocol down at once
(resource_manager.py:296-307): it leaves its rule's protocols, each of its
memories returns to RAW (no remote node) or ENTANGLED, and it leaves the
pending list. The memory records keep the rule that a RAW memory has no
partner: `update` to RAW also clears the memory's remote node, so a memory
that expired to RAW and is then released by a rejection goes back to RAW,
not to ENTANGLED.

## Model

| member | source | states |
|---|---|---|
| Reservations.NewReservation | src/network_management/reservation.py:636-657 | a reservation exists exactly when `start_time < end_time` and `memory_size > 0`, and then carries the arguments; the subset type `Reservation` makes every later member rely on both |
| Reservations.PhysicalExactly | src/network_management/reservation.py:742-747 | the list of physical entries holds exactly the card's non-virtual reservations |
| Reservations.PhysicalReservations | src/network_management/reservation.py:742-747 | the first loop collects the non-virtual reservations in card order |
| Reservations.SearchSlot | src/network_management/reservation.py:748-761 | the nested loops return `SchedulePos`: the binary search keyed on the first physical entry, with later entries never searched |
| Reservations.BinarySearch | src/network_management/reservation.py:750-760 | the inner loop reports an overlap exactly when the recursive search gives -1, and otherwise leaves the bounds crossed at the search's answer |
| Reservations.SearchFindsOwnEntry | src/network_management/reservation.py:749-758 | on a time-sorted disjoint list, searching for one of its own entries always reaches an overlap |
| Reservations.ScheduleEmptyOrRefuse | src/network_management/reservation.py:742-761 | 0 for a card with no physical entry; -1 for one with exactly one; -1 for any non-empty time-sorted disjoint list |
| Reservations.MemoryTimeCard.constructor | src/network_management/reservation.py:672-680 | a new card for the memory index, holding nothing |
| Reservations.MemoryTimeCard.ScheduleReservation | src/network_management/reservation.py:723-761 | the offered position is `SchedulePos` of the card's physical entries; the argument is not consulted |
| Reservations.MemoryTimeCard.Add | src/network_management/reservation.py:682-702 | success exactly when the card has no physical entry; on success the reservation goes in front, otherwise the list is unchanged; the card keeps at most one physical entry |
| Reservations.MemoryTimeCard.Remove | src/network_management/reservation.py:706-721 | True exactly when the reservation was present; exactly its first occurrence is removed, otherwise the list is unchanged |
| Reservations.AddKeepsAtMostOnePhysical | src/network_management/reservation.py:682-702 | on a card with at most one physical entry, `add` succeeds exactly when there is none, then puts the reservation in front, and keeps at most one |
| Reservations.AddsKeepAtMostOnePhysical | src/network_management/reservation.py:682-702 | any sequence of `add` calls keeps every card at one physical entry or fewer |
| Reservations.PhysicalOfRemoveFirst | src/network_management/reservation.py:716-721 | `remove` never adds a physical entry |
| ReservationProtocol.Need | src/network_management/reservation.py:185-188 | `memory_size` cards at either end of the path, twice as many at an interior node |
| ReservationProtocol.ScheduleBooksEarliest | src/network_management/reservation.py:175-206 | success exactly when enough cards are free; on success exactly `need` cards change, each one free before and now holding the reservation in front, and a free card before a booked one is booked too; on failure every card is as before; every card keeps at most one physical entry |
| ReservationProtocol.ReserveCount | src/network_management/reservation.py:189-199 | along the cards, the booking changes `min(need, free cards so far)` of them |
| ReservationProtocol.FreeIsAccepts | src/network_management/reservation.py:192-195 | on a card with at most one physical entry, being free is being accepted by `add`, and the booking puts on the card what `add` does |
| ReservationProtocol.ReleaseUndoesSchedule | src/network_management/reservation.py:158-160 | the REJECT loop run after a successful booking of a reservation that no card held before restores every card |
| ReservationProtocol.BookingDone | src/network_management/reservation.py:196-199 | when the loop stops on the card that brought the counter to zero, the cards are exactly the specified booking |
| ReservationProtocol.BookingFailed | src/network_management/reservation.py:201-204 | removing the reservation from the cards that took it restores every card |
| ReservationProtocol.UpdateEventsShape | src/network_management/reservation.py:591-599 | one update-to-RAW event, at the end time with priority 1, for each card holding the reservation, in strictly increasing memory order (so exactly one per card, in card order), and no other event |
| ReservationProtocol.RuleEventsShape | src/network_management/reservation.py:601-609 | two events per rule, in rule order: its `load` at the start time with the default priority, then its `expire` at the end time with priority 0 |
| ReservationProtocol.ResourceReservationProtocol.constructor | src/network_management/reservation.py:79-91 | one empty card per memory, card `i` for memory `i`, and nothing accepted, scheduled or sent |
| ReservationProtocol.ResourceReservationProtocol.CardsValid | src/network_management/reservation.py:664-702 | every card of the node holds at most one physical reservation |
| ReservationProtocol.ResourceReservationProtocol.Schedule | src/network_management/reservation.py:175-206 | the cards after and the result are `ScheduleSpec` of the cards before |
| ReservationProtocol.ResourceReservationProtocol.Book | src/network_management/reservation.py:189-199 | the booking loop stops at the end or when the counter reaches zero; the counter is `need` minus the free cards passed; the free cards passed hold the reservation in front; `cards` are exactly those cards in order |
| ReservationProtocol.ResourceReservationProtocol.RollBack | src/network_management/reservation.py:201-204 | each listed card loses the reservation it got in front; every other card is unchanged |
| ReservationProtocol.ResourceReservationProtocol.LoadRules | src/network_management/reservation.py:579-609 | the reservation is appended to the accepted list; the update events, then the rule events, are appended to the timeline; the cards are unchanged |
| ReservationProtocol.ResourceReservationProtocol.PopReject | src/network_management/reservation.py:158-163 | the first occurrence of the reservation is removed from every card; the message goes up at the initiator and towards the initiator elsewhere |
| ReservationProtocol.ResourceReservationProtocol.Push | src/network_management/reservation.py:93-122 | fails as the reservation constructor does and then changes nothing; otherwise the node books by `ScheduleSpec`, then sends a REQUEST carrying its own capability towards the responder, or hands a REJECT up |
| PathReduction.HalvePath | src/network_management/reservation.py:444-449 | one round keeps exactly the even-indexed nodes and the last one, in order |
| PathReduction.HalvedShape | src/network_management/reservation.py:444-449 | a round keeps the first and last nodes and moves the node at `2i` to `i` |
| PathReduction.HalvedSampled | src/network_management/reservation.py:440-449 | a round on the path sampled with stride `s` gives the path sampled with stride `2s` |
| PathReduction.ReducePath | src/network_management/reservation.py:438-449 | the loop ends with the node at an odd index of the path sampled with the stride reached |
| PathReduction.ReductionExit | src/network_management/reservation.py:450-453 | at exit the node is strictly inside the reduced path, so both partners exist; they lie one stride `LowBit(k)` from the node's index `k` in the original path, the right one cut off at the last node |
| PathReduction.SwapPartners | src/network_management/reservation.py:438-453 | `left` and `right` are the reduced path's neighbours of the node, that is `path[k - LowBit(k)]` and `path[min(k + LowBit(k), last)]` |
| PathReduction.LowBitDivides | src/network_management/reservation.py:440 | the stride at exit divides the index and leaves an odd quotient, which is why the loop stops there |
| ResourceManagement.ResourceManager.constructor | src/resource_management/resource_manager.py:78-95 | no rules, no protocols, no messages and the counter at zero, over the given memory records |
| ResourceManagement.ResourceManager.DoRule | src/resource_management/resource_manager.py:119-121 | the new state is `DoSpec`: the action's protocol, named by the counter, joins its rule's protocols, and each of the action's requests goes through `send_request` in order |
| ResourceManagement.FiringRegisters | src/resource_management/resource_manager.py:119-121 | the built protocol belongs to the firing rule and takes the counter's value; it is appended to its rule's protocols; it is the only protocol a firing can make waiting or pending; pending protocols stay among their rule's protocols |
| ResourceManagement.DoRuleKeeps | src/resource_management/resource_manager.py:119-121 | a firing leaves the rules and the running list alone, only appends to the waiting and pending lists and the outbox, with protocols of the firing rule built by it, and no rule loses a protocol; when actions wait at most once, the lists stay duplicate-free and hold only built protocols |
| ResourceManagement.SendAllAppends | src/resource_management/resource_manager.py:219-247 | the requests of a firing append the protocol to the waiting list once per missing destination and to the pending list at most once, add only to the end of the outbox, and keep the lists duplicate-free |
| ResourceManagement.ResourceManager.Load | src/resource_management/resource_manager.py:97-129 | the new state is `LoadSpec`: the rule is inserted, then offered every memory once, each claim firing the rule and occupying its memories; the result is always True |
| ResourceManagement.LoadFrames | src/resource_management/resource_manager.py:110-129 | the rule sits at its position with the others in order; the running list and the memory count are unchanged; the waiting and pending lists and the outbox only grow at their ends, with protocols the new rule built during the load and registered; duplicate-freedom, freshness and registration are kept |
| ResourceManagement.LoadOnlyOccupies | src/resource_management/resource_manager.py:115-127 | a memory keeps its record or becomes occupied |
| ResourceManagement.LoadClaimsStick | src/resource_management/resource_manager.py:118-127 | every memory the rule claims at any step is occupied at the end |
| ResourceManagement.ResourceManager.Expire | src/resource_management/resource_manager.py:131-154 | the new state and the exception are `ExpireSpec`: the rule is dropped; each created protocol, last first, leaves the first of its lists, then each of its memories is updated to RAW; the end state is stated by ExpireUnlistsCreated and ExpireFreesMemories |
| ResourceManagement.ExpireUnlistsCreated | src/resource_management/resource_manager.py:141-154 | when `expire` raises nothing, no created protocol that was built and holds memories is in the waiting, pending or running list afterwards |
| ResourceManagement.ExpireFreesMemories | src/resource_management/resource_manager.py:141-154 | when `expire` raises nothing, every memory of every created protocol ends free: without a remote node, and RAW or occupied by a rule that fired on one of the updates |
| ResourceManagement.ExpireSettles | src/resource_management/resource_manager.py:141-154 | `expire` keeps the number of memories and each memory's name; each memory is as before or occupied, or it was freed: no remote node, and RAW or OCCUPIED |
| ResourceManagement.ExpireRaisesIff | src/resource_management/resource_manager.py:141-151 | for distinct created protocols that were already built, `expire` raises exactly when one of them is in none of the waiting, pending and running lists |
| ResourceManagement.ExpireKeepsNoDup | src/resource_management/resource_manager.py:141-154 | `expire` keeps the lists duplicate-free and holding only built protocols, keeps pending protocols registered, and no protocol built before it joins a list |
| ResourceManagement.ResourceManager.Update | src/resource_management/resource_manager.py:156-193 | the new state is `UpdateSpec`: the state is recorded (RAW also clears the remote node), the protocol is unbound from the memory, its rule and every list, then at most one rule fires |
| ResourceManagement.UpdateMemoryStates | src/resource_management/resource_manager.py:156-193 | `update` gives the memory the new state, and beyond that changes a memory only by occupying it for the rule that fires |
| ResourceManagement.UpdateKeepsRawUnpaired | src/resource_management/resource_manager.py:156-193 | `update` keeps every RAW memory without a remote node; after an update to RAW the memory has no remote node, so from that record a rejection returns it to RAW |
| ResourceManagement.FireOccupies | src/resource_management/resource_manager.py:183-193 | the rule loop changes a memory only by making it OCCUPIED |
| ResourceManagement.UpdateFiresAtMostOnce | src/resource_management/resource_manager.py:183-193 | after the optional detach exactly one entry is logged: `rule.do` of the first rule whose condition is non-empty, whose selection becomes occupied, or else the idle-memory hook with the records unchanged |
| ResourceManagement.UpdateUnbinds | src/resource_management/resource_manager.py:168-193 | the running list loses the protocol; among the protocols built before, the waiting and pending lists are the old ones without it, and a protocol is listed afterwards exactly when it was before and is not the given one; duplicate-freedom, freshness and registration are kept |
| ResourceManagement.ResourceManager.FireRules | src/resource_management/resource_manager.py:183-193 | the rule loop is `Fire`: return after the first rule that claims memories, or hand the memory to the node |
| ResourceManagement.ResourceManager.UpdateMemories | src/resource_management/resource_manager.py:153-154 | `update(protocol, memory, RAW)` for each memory of the protocol in turn |
| ResourceManagement.UpdateAllSettles | src/resource_management/resource_manager.py:153-154 | after the update loop each memory of the protocol keeps its name, has no remote node, and is RAW or occupied by a rule that fired; every other memory is as before, or occupied |
| ResourceManagement.UpdateAllUnbinds | src/resource_management/resource_manager.py:153-154 | updating the memories of an expired protocol leaves it, if it was built before, in no list, and keeps duplicate-freedom, freshness and registration |
| ResourceManagement.ResourceManager.SendRequest | src/resource_management/resource_manager.py:219-247 | the new state is `SendRequestSpec` |
| ResourceManagement.SendRequestPendsOnce | src/resource_management/resource_manager.py:232-247 | with no destination the protocol is appended to the waiting list and nothing is sent; otherwise it is pending without duplicates and exactly one REQUEST goes out; a built, registered protocol keeps the lists fresh and registered |
| ResourceManagement.ResourceManager.ReceivedMessage | src/resource_management/resource_manager.py:249-318 | the new state and the exception are `ReceivedSpec`, branch by branch for REQUEST, RESPONSE (with the tear-down of a rejected protocol), RELEASE_PROTOCOL and RELEASE_MEMORY |
| ResourceManagement.RequestConserves | src/resource_management/resource_manager.py:259-279 | a matched waiting protocol moves from the waiting list to the end of the running list and an approval goes out; a matched protocol that is not waiting raises after the approval, lists unchanged; with no match the lists are unchanged and one refusal goes out; the counter, the rules' protocols and the multiset of listed protocols never change |
| ResourceManagement.ResponseConserves | src/resource_management/resource_manager.py:280-295 | for a protocol that is not pending no list changes and an approval is answered with a release of the partner; an approved pending protocol moves from the pending list to the end of the running list when it is ready, and no list changes otherwise |
| ResourceManagement.RejectionTearsDown | src/resource_management/resource_manager.py:296-307 | a rejection of a pending protocol raises exactly when it is not among its rule's protocols, which registration rules out; otherwise it is no longer pending, the running list is unchanged, and among the protocols built before the waiting list is the old one and the pending list the old one without it |
| ResourceManagement.RejectAfterFiring | src/resource_management/resource_manager.py:296-307 | a protocol a firing made pending is torn down, without raising, when its request is rejected |
| ResourceManagement.ReceivedConserves | src/resource_management/resource_manager.py:249-318 | with fresh lists, no message loses a listed protocol, except that a tear-down drops the rejected one: counted among the protocols built before, the lists then hold the old ones less that protocol |
| ResourceManagement.ReceivedKeepsPendingNoDup | src/resource_management/resource_manager.py:280-307 | no message makes a protocol pending twice |
| ResourceManagement.ReceivedKeepsFresh | src/resource_management/resource_manager.py:249-318 | no message lists a protocol not yet built |
| ResourceManagement.ReceivedKeepsRegistered | src/resource_management/resource_manager.py:249-318 | with no duplicate pending protocol, every pending protocol stays among its rule's protocols |
| ResourceManagement.ResourceManager.RejectMemories | src/resource_management/resource_manager.py:299-306 | each memory of the rejected protocol is detached and updated to RAW without a remote node, to ENTANGLED with one; RejectAllSettles states where each memory ends |
| ResourceManagement.RejectAllSettles | src/resource_management/resource_manager.py:299-306 | after the rejection loop every memory keeps its name and remote node (RAW is chosen only for a memory without one); each memory of the protocol is RAW when it has no remote node, ENTANGLED when it has one, or occupied by a rule that fired; every other memory keeps its state or is occupied |
| ResourceManagement.RejectionSettles | src/resource_management/resource_manager.py:296-307 | a rejected RESPONSE that tears a registered pending protocol down leaves its memories RAW or ENTANGLED as their remote node says, or occupied; no memory loses its name or remote node, and the other memories keep their state or are occupied |
| ResourceManagement.ResourceManager.FindHolder | src/resource_management/resource_manager.py:312-318 | the first running protocol, in list order, with a memory of the given name, or none |
| ResourceManagement.ResourceManager.MemoryExpire | src/resource_management/resource_manager.py:320-323 | `update` of the memory to RAW without a protocol |
| Routing.ScanIsGreedyArgmin | src/network_management/routing.py:97-120 | no hop exactly when no listed neighbour is below `10e10`; otherwise the hop is a listed neighbour at the least distance of all listed neighbours, and every listed neighbour before it is strictly farther |
| Routing.HopIsListedNeighbour | src/network_management/routing.py:108-114 | a hop is a neighbour and a node of the destination's distance row |
| Routing.StaticRoutingProtocol.constructor | src/network_management/routing.py:44-54 | the protocol starts from the given forwarding table and empty logs |
| Routing.StaticRoutingProtocol.NextBestHop | src/network_management/routing.py:97-120 | KeyError exactly when the destination has no row; otherwise the hop is the greedy scan of the row |
| Routing.StaticRoutingProtocol.AddForwardingRule | src/network_management/routing.py:56-61 | AssertionError and no change when the destination is present; otherwise the destination maps to the next node and nothing else changes |
| Routing.StaticRoutingProtocol.UpdateForwardingRule | src/network_management/routing.py:63-67 | the destination maps to the next node, whether or not it was present; nothing else changes |
| Routing.StaticRoutingProtocol.Push | src/network_management/routing.py:69-94 | AssertionError for the node itself, KeyError for a destination without a row; otherwise the message, wrapped unchanged, goes down towards the greedy hop |
| Routing.StaticRoutingProtocol.Pop | src/network_management/routing.py:123-136 | the payload goes up unchanged |

## Left out

- The REQUEST and APPROVE branches of `ResourceReservationProtocol.pop` (reservation.py:138-157, 165-171) are not modelled. Both need `create_rules`, whose rule closures build protocol objects of classes outside this model. Of `create_rules`, only the path-halving block is modelled.
- `create_rules` rule conditions and actions, and the BBPSSW `req_func`: they are closures over protocol and memory classes that are not part of this model. The resource manager takes them as the abstract functions `Condition`, `Action` and `Matcher`.
- The `Rule` class is not part of this model. `rule.do` is modelled as the resource manager relies on it: the action's `[protocol, dsts, req_funcs]` result (as at reservation.py:271-272) gives the protocol, which joins `rule.protocols`, and its requests, which go to `send_request`. The protocol's identity is the manager's counter.
- The timeline, events and processes are not executed. `load_rules` appends event records, and the stack protocol's `_push` and `_pop` are appended to a log.
- Fidelity is a `real` that is only carried. The swapping success rate and degradation parameters and their setters are floating-point parameters and are left out.
- PathReduction.ReducePath: the stride and the node's index are ghost results that state the closed form. The method computes the path itself exactly as the loop does.
- `RuleManager` and `MemoryManager` are not part of this model. The rule manager's insertion order is the `pos` parameter of `Load`. The protocols `expire` hands back are the `created` parameter. `MemoryManager.update` is modelled as setting the state field and, for RAW, clearing the remote node, so that a RAW memory never has a partner.
- `protocol.start`, `protocol.release`, `set_others`, `memory.detach` followed by `attach`, and `get_idle_memory` are calls into code that is not part of this model. They are recorded in order in the effect log, with each `rule.do`. `is_ready()` is the `ready` parameter of `ReceivedMessage`.
- ResourceManagement.ResourceManager.Expire: the Python `created_protocols` list may be the rule's own `protocols` list, which `update` shrinks while the loop runs. The model takes `created` as a value, so that aliasing is not captured.
- `protocol.own = self.owner` in `send_request` and in the approved RESPONSE branch is an object link with no effect on the lists, so it is left out.
- `release_remote_memory` builds and sends a message and is not modelled. `release_remote_protocol` is modelled inline, as the RELEASE_PROTOCOL message it sends.
- Routing.StaticRoutingProtocol.NextBestHop: the `curr_node` argument is only printed and is dropped. The `json` copy of the distance row is left out; the row is a list of (node, distance) pairs in the row's iteration order.
- `print` calls, `__str__` methods, and `received_message` methods that only raise are left out.
- Reservations.MemoryTimeCard.Add: requires the card invariant, at most one non-virtual entry. Every card built by the constructor and changed only by `add` and `remove` keeps it. On a list with several non-virtual entries that are not time-sorted, the position offered is not described.
- Routing: Python's float distances are modelled as `real`, so `inf` and `nan` cannot appear in a distance row; comparisons of finite distances are unaffected.
- UpdateUnbinds: duplicate-freedom of the waiting list is proved under `WaitsOnce`, the hypothesis that an action makes its protocol wait (no destination) at most once per firing, as every action at reservation.py:272, 318, 370-372, 409 and 536-538 does.
- LoadFrames: the same `WaitsOnce` hypothesis guards the duplicate-freedom clause.
- ExpireKeepsNoDup: the same `WaitsOnce` hypothesis guards the duplicate-freedom clause.
- UpdateAllUnbinds: the same `WaitsOnce` hypothesis guards the duplicate-freedom clause.
- ExpireUnlistsCreated: requires every created protocol to be built and to hold memories. A protocol without memories is only taken out of the first list that holds it, so it could still be in another one. The same `WaitsOnce` hypothesis guards the duplicate-freedom it relies on.
- ExpireFreesMemories, ExpireSettles, UpdateAllSettles, RejectAllSettles: a memory may also end OCCUPIED, because every `update` lets the first rule whose condition holds claim memories, and which memories that is depends on the abstract rule conditions.
- ExpireRaisesIff: the created protocols must already be built (named below the counter), as every protocol a rule creates is.
- The list invariants (`Inv`: duplicate-free and holding only built protocols; `Registered`: every pending protocol among its rule's protocols) are antecedents of the lemmas. They hold in the constructor's state and each operation's lemma keeps them; a class-level invariant over every method is not stated.
