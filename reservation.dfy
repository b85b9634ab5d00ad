/** Reservations and the per-memory time cards that hold them
    (src/network_management/reservation.py, classes `Reservation` and
    `MemoryTimeCard`). */
module Reservations {
  import opened Common

  type NodeName = string

  /** The fields of a reservation request. `ident` stands for the Python
      object's identity: the source compares reservations with `in`,
      `index` and `remove`, which use object identity since `Reservation`
      defines no `__eq__`. Fidelity is only ever compared, so a `real` is
      exact enough. */
  datatype ReservationData = ReservationData(
    ident: nat,
    initiator: NodeName,
    responder: NodeName,
    startTime: int,
    endTime: int,
    memorySize: int,
    fidelity: real,
    isVirtual: bool)

  /** The constructor asserts `start_time < end_time` and `memory_size > 0`,
      so no reservation object exists that breaks either. */
  type Reservation = r: ReservationData | r.startTime < r.endTime && r.memorySize > 0
    witness ReservationData(0, "", "", 0, 1, 1, 0.0, false)

  /** `Reservation.__init__`: fails (AssertionError) exactly when one of the
      two assertions fails; otherwise the reservation carries the arguments. */
  function NewReservation(ident: nat, initiator: NodeName, responder: NodeName, startTime: int,
                          endTime: int, memorySize: int, fidelity: real, isVirtual: bool): (r: Option<Reservation>)
    ensures r.Some? <==> startTime < endTime && memorySize > 0
    ensures r.Some? ==> r.value == ReservationData(ident, initiator, responder, startTime, endTime,
                                                    memorySize, fidelity, isVirtual)
  {
    var d := ReservationData(ident, initiator, responder, startTime, endTime, memorySize, fidelity, isVirtual);
    if d.startTime < d.endTime && d.memorySize > 0 then Some(d) else None
  }

  /** The reservations of `rs` that are not virtual, in order. */
  function Physical(rs: seq<Reservation>): (p: seq<Reservation>)
    ensures |p| <= |rs|
  {
    if rs == [] then []
    else if rs[0].isVirtual then Physical(rs[1..])
    else [rs[0]] + Physical(rs[1..])
  }

  /** The filter keeps exactly the non-virtual reservations: everything it
      returns is non-virtual and from `rs`, and every non-virtual
      reservation of `rs` is returned. */
  lemma {:induction false} PhysicalExactly(rs: seq<Reservation>)
    ensures forall x :: x in Physical(rs) <==> x in rs && !x.isVirtual
  {
    if rs != [] {
      PhysicalExactly(rs[1..]);
      assert rs == [rs[0]] + rs[1..];
    }
  }

  /** The `while start <= end` loop of `schedule_reservation`, run with key
      `key` on the physical list `p`: -1 as soon as the probed entry
      overlaps the key, otherwise the final value of `start`. */
  function Search(p: seq<Reservation>, key: Reservation, lo: nat, hi: int): (r: int)
    requires hi < |p| && lo <= hi + 1
    ensures r == -1 || lo <= r <= hi + 1
    decreases hi - lo + 1
  {
    if lo > hi then lo
    else
      var mid := (lo + hi) / 2;
      if p[mid].startTime > key.endTime then Search(p, key, lo, mid - 1)
      else if p[mid].endTime < key.startTime then Search(p, key, mid + 1, hi)
      else if Max(p[mid].startTime, key.startTime) <= Min(p[mid].endTime, key.endTime) then -1
      else assert false; -1
  }

  /** What `schedule_reservation` returns for a card whose physical entries
      are `p`. The outer `for res in physical_reservations` loop never gets
      past its first round with work to do: the inner loop either returns
      -1 or leaves `start > end`, which disables it for every later `res`.
      So the only key ever searched for is the card's own first physical
      entry, and the reservation being scheduled is never consulted. */
  function SchedulePos(p: seq<Reservation>): (r: int)
    ensures -1 <= r <= |p|
  {
    if p == [] then 0 else Search(p, p[0], 0, |p| - 1)
  }

  /** Entries ordered by time and pairwise disjoint: the layout the
      docstring's binary search presupposes. */
  predicate SortedDisjoint(p: seq<Reservation>)
  {
    forall i, j :: 0 <= i < j < |p| ==> p[i].endTime < p[j].startTime
  }

  /** On a time-sorted disjoint list, searching for one of its own entries
      always hits an overlap: the entry always stays inside [lo, hi]. */
  lemma {:induction false} SearchFindsOwnEntry(p: seq<Reservation>, k: nat, lo: nat, hi: int)
    requires SortedDisjoint(p) && hi < |p| && lo <= k <= hi
    ensures Search(p, p[k], lo, hi) == -1
    decreases hi - lo + 1
  {
    var mid := (lo + hi) / 2;
    if p[mid].startTime > p[k].endTime {
      assert k < mid;
      SearchFindsOwnEntry(p, k, lo, mid - 1);
    } else if p[mid].endTime < p[k].startTime {
      assert mid < k;
      SearchFindsOwnEntry(p, k, mid + 1, hi);
    }
  }

  /** `schedule_reservation` returns 0 for a card without physical
      reservations and -1 for a card with exactly one (that entry is
      compared with itself); for longer time-sorted disjoint lists it is -1
      as well. */
  lemma ScheduleEmptyOrRefuse(p: seq<Reservation>)
    ensures p == [] ==> SchedulePos(p) == 0
    ensures |p| == 1 ==> SchedulePos(p) == -1
    ensures p != [] && SortedDisjoint(p) ==> SchedulePos(p) == -1
  {
    if p != [] && SortedDisjoint(p) {
      SearchFindsOwnEntry(p, 0, 0, |p| - 1);
    }
  }

  /** `MemoryTimeCard.add` on the list `rs`: the new list, and whether the
      reservation went in. */
  function CardAdd(rs: seq<Reservation>, r: Reservation): (seq<Reservation>, bool)
  {
    var pos := SchedulePos(Physical(rs));
    if pos >= 0 then (rs[..pos] + [r] + rs[pos..], true) else (rs, false)
  }

  /** A card accepts a new reservation exactly when `schedule_reservation`
      gives it a position. */
  predicate Accepts(rs: seq<Reservation>)
  {
    SchedulePos(Physical(rs)) >= 0
  }

  /** Every list reached through `add` and `remove` from an empty card holds
      at most one physical reservation. */
  predicate AtMostOnePhysical(rs: seq<Reservation>)
  {
    |Physical(rs)| <= 1
  }

  /** On such a card (a) `add` succeeds exactly when there is no physical
      reservation, whatever the new reservation's times are, (b) then puts
      the reservation at the front, and (c) the card still holds at most one
      physical reservation afterwards. */
  lemma {:induction false} AddKeepsAtMostOnePhysical(rs: seq<Reservation>, r: Reservation)
    requires AtMostOnePhysical(rs)
    ensures Accepts(rs) <==> Physical(rs) == []
    ensures Accepts(rs) ==> CardAdd(rs, r).0 == [r] + rs
    ensures AtMostOnePhysical(CardAdd(rs, r).0)
  {
    ScheduleEmptyOrRefuse(Physical(rs));
    if Accepts(rs) {
      assert CardAdd(rs, r).0 == [r] + rs;
      assert ([r] + rs)[1..] == rs;
      assert Physical([r] + rs) == (if r.isVirtual then [] else [r]);
    }
  }

  /** Filtering commutes with removing a reservation: `remove` never adds a
      physical reservation. */
  lemma {:induction false} PhysicalOfRemoveFirst(rs: seq<Reservation>, r: Reservation)
    ensures |Physical(RemoveFirst(rs, r))| <= |Physical(rs)|
  {
    if rs != [] && rs[0] != r {
      PhysicalOfRemoveFirst(rs[1..], r);
      assert ([rs[0]] + RemoveFirst(rs[1..], r))[1..] == RemoveFirst(rs[1..], r);
    } else if rs != [] {
      PhysicalShrinks(rs);
    }
  }

  lemma {:induction false} PhysicalShrinks(rs: seq<Reservation>)
    requires rs != []
    ensures |Physical(rs[1..])| <= |Physical(rs)|
  {
  }

  /** Through `add` alone a card never holds two physical reservations:
      starting from any list with at most one, every sequence of additions
      keeps at most one. */
  lemma {:induction false} AddsKeepAtMostOnePhysical(rs: seq<Reservation>, adds: seq<Reservation>)
    requires AtMostOnePhysical(rs)
    ensures AtMostOnePhysical(AddAll(rs, adds))
    decreases |adds|
  {
    if adds != [] {
      AddKeepsAtMostOnePhysical(rs, adds[0]);
      AddsKeepAtMostOnePhysical(CardAdd(rs, adds[0]).0, adds[1..]);
    }
  }

  /** The card after `add` is called for each of `adds` in turn. */
  function AddAll(rs: seq<Reservation>, adds: seq<Reservation>): (r: seq<Reservation>)
    decreases |adds|
  {
    if adds == [] then rs else AddAll(CardAdd(rs, adds[0]).0, adds[1..])
  }

  /** `MemoryTimeCard`: the reservations booked on one memory. */
  class MemoryTimeCard {
    const memoryIndex: nat
    var reservations: seq<Reservation>

    ghost predicate Valid()
      reads this
    {
      AtMostOnePhysical(reservations)
    }

    constructor (memoryIndex: nat)
      ensures Valid() && this.memoryIndex == memoryIndex && reservations == []
    {
      this.memoryIndex := memoryIndex;
      reservations := [];
    }

    /** `schedule_reservation(resv)`: the position the card offers. The
        argument is accepted and ignored, as in the source. */
    method ScheduleReservation(resv: Reservation) returns (pos: int)
      ensures pos == SchedulePos(Physical(reservations))
    {
      var physical := PhysicalReservations(reservations);
      pos := SearchSlot(physical);
    }

    /** `add`: inserts at the offered position and reports success, or
        reports failure and leaves the card as it was. */
    method Add(r: Reservation) returns (ok: bool)
      requires Valid()
      modifies this
      ensures Valid()
      ensures (reservations, ok) == CardAdd(old(reservations), r)
      ensures ok <==> old(Physical(reservations)) == []
      ensures ok ==> reservations == [r] + old(reservations)
      ensures !ok ==> reservations == old(reservations)
    {
      AddKeepsAtMostOnePhysical(reservations, r);
      var pos := ScheduleReservation(r);
      if pos >= 0 {
        reservations := reservations[..pos] + [r] + reservations[pos..];
        ok := true;
      } else {
        ok := false;
      }
    }

    /** `remove`: deletes the first occurrence and reports whether there
        was one. */
    method Remove(r: Reservation) returns (found: bool)
      requires Valid()
      modifies this
      ensures Valid()
      ensures found <==> r in old(reservations)
      ensures reservations == RemoveFirst(old(reservations), r)
    {
      PhysicalOfRemoveFirst(reservations, r);
      RemoveFirstMultiset(reservations, r);
      var pos := IndexOf(reservations, r);
      if pos.Some? {
        RemoveAtFirstIndex(reservations, r);
        reservations := reservations[..pos.value] + reservations[pos.value + 1..];
        found := true;
      } else {
        found := false;
      }
    }
  }

  lemma {:induction false} PhysicalSnoc(rs: seq<Reservation>, x: Reservation)
    ensures Physical(rs + [x]) == Physical(rs) + (if x.isVirtual then [] else [x])
    decreases |rs|
  {
    if rs == [] {
      assert [x][1..] == [];
    } else {
      assert (rs + [x])[1..] == rs[1..] + [x];
      PhysicalSnoc(rs[1..], x);
    }
  }

  /** The first loop of `schedule_reservation`: collects the non-virtual
      reservations in order. */
  method PhysicalReservations(rs: seq<Reservation>) returns (physical: seq<Reservation>)
    ensures physical == Physical(rs)
  {
    physical := [];
    var k := 0;
    while k < |rs|
      invariant 0 <= k <= |rs|
      invariant physical == Physical(rs[..k])
    {
      PhysicalSnoc(rs[..k], rs[k]);
      assert rs[..k + 1] == rs[..k] + [rs[k]];
      if !rs[k].isVirtual {
        physical := physical + [rs[k]];
      }
      k := k + 1;
    }
    assert rs[..k] == rs;
  }

  /** The nested loops of `schedule_reservation`: for each physical entry
      `res`, the binary search over `start` and `end`, comparing stored
      entries with `res`. */
  method SearchSlot(physical: seq<Reservation>) returns (pos: int)
    ensures pos == SchedulePos(physical)
  {
    var start: int, end: int := 0, |physical| - 1;
    var n := 0;
    while n < |physical|
      invariant 0 <= n <= |physical|
      invariant 0 <= start <= end + 1 && end < |physical|
      invariant n == 0 ==> start == 0 && end == |physical| - 1
      invariant n > 0 ==> start > end && start == SchedulePos(physical)
    {
      var overlap;
      overlap, start, end := BinarySearch(physical, physical[n], start, end);
      if overlap {
        return -1;
      }
      n := n + 1;
    }
    return start;
  }

  /** The inner `while start <= end` loop for one key: `overlap` when it
      meets a stored entry overlapping the key (the `return -1`), and
      otherwise the bounds it leaves behind, crossed at the search's
      answer. */
  method BinarySearch(p: seq<Reservation>, key: Reservation, start: int, end: int)
    returns (overlap: bool, lo: int, hi: int)
    requires 0 <= start <= end + 1 && end < |p|
    ensures overlap <==> Search(p, key, start, end) == -1
    ensures !overlap ==> lo == hi + 1 && 0 <= lo && hi < |p| && lo == Search(p, key, start, end)
  {
    lo, hi := start, end;
    while lo <= hi
      invariant 0 <= lo <= hi + 1 && hi < |p|
      invariant Search(p, key, lo, hi) == Search(p, key, start, end)
      decreases hi - lo + 1
    {
      var mid := (lo + hi) / 2;
      if p[mid].startTime > key.endTime {
        hi := mid - 1;
      } else if p[mid].endTime < key.startTime {
        lo := mid + 1;
      } else if Max(p[mid].startTime, key.startTime) <= Min(p[mid].endTime, key.endTime) {
        return true, lo, hi;
      } else {
        assert false;
      }
    }
    overlap := false;
  }
}
