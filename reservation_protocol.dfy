/** `ResourceReservationProtocol` (src/network_management/reservation.py):
    the per-node protocol that books memories on the node's time cards for
    a reservation, schedules the resulting rule loads and expiries, and
    releases the booking when a REJECT comes back.

    The timeline and the protocol stack are not modelled as objects: the
    events the protocol schedules are appended to `events`, and the
    messages it pushes down or pops up are appended to `stack`. */
module ReservationProtocol {
  import opened Common
  import opened Reservations

  /** `RSVPMsgType` together with the payload each kind of
      `ResourceReservationMessage` carries. */
  datatype RsvpMessage =
    | Request(receiver: string, reservation: Reservation, qcaps: seq<NodeName>)
    | Reject(receiver: string, reservation: Reservation)
    | Approve(receiver: string, reservation: Reservation, path: seq<NodeName>)

  /** A call of `_pop` (to the network manager above) or `_push` (to the
      routing protocol below). */
  datatype StackCall = PopUp(msg: RsvpMessage) | PushDown(dst: NodeName, msg: RsvpMessage)

  /** The resource-manager calls that `load_rules` schedules: `update` of a
      memory to RAW, `load` of a rule and `expire` of a rule. Rules are
      named by an identifier. */
  datatype Process = UpdateToRaw(memory: nat) | LoadRule(rule: nat) | ExpireRule(rule: nat)

  /** A timeline event; `None` is the priority the timeline gives an event
      created without one. */
  datatype Event = Event(time: int, process: Process, priority: Option<int>)

  /** How many cards the node must book: one per memory at either end of
      the path, two (one towards each neighbour) at an interior node. */
  function Need(ownName: NodeName, r: Reservation): (n: nat)
    ensures n >= 1
    ensures ownName in [r.initiator, r.responder] ==> n == r.memorySize
    ensures ownName !in [r.initiator, r.responder] ==> n == 2 * r.memorySize
  {
    if ownName == r.initiator || ownName == r.responder then r.memorySize else 2 * r.memorySize
  }

  /** A card with no physical reservation: on every card reachable
      through `add` and `remove` these are exactly the cards whose `add`
      succeeds (see `FreeIsAccepts`). */
  predicate Free(rs: seq<Reservation>)
  {
    Physical(rs) == []
  }

  /** Which cards are free. */
  function FreeFlags(cs: seq<seq<Reservation>>): (f: seq<bool>)
    ensures |f| == |cs| && forall m :: 0 <= m < |cs| ==> f[m] == Free(cs[m])
  {
    seq(|cs|, m requires 0 <= m < |cs| => Free(cs[m]))
  }

  function CountTrue(f: seq<bool>): (n: nat)
    ensures n <= |f|
  {
    if f == [] then 0 else CountTrue(f[..|f| - 1]) + (if f[|f| - 1] then 1 else 0)
  }

  /** How many of the cards before card `m` are free. */
  function FreeBefore(cs: seq<seq<Reservation>>, m: nat): (r: nat)
    requires m <= |cs|
  {
    CountTrue(FreeFlags(cs)[..m])
  }

  /** How many of the cards are free. */
  function CountFree(cs: seq<seq<Reservation>>): (r: nat)
  {
    FreeBefore(cs, |cs|)
  }

  /** Card `m` after a successful `schedule`: the reservation went in front
      of it when it is free and fewer than `need` earlier cards are. */
  function ReserveAt(cs: seq<seq<Reservation>>, r: Reservation, need: nat, m: nat): (res: seq<Reservation>)
    requires m < |cs|
  {
    if Free(cs[m]) && FreeBefore(cs, m) < need then [r] + cs[m] else cs[m]
  }

  /** All cards after a successful `schedule`. */
  function Reserve(cs: seq<seq<Reservation>>, r: Reservation, need: nat): (cs': seq<seq<Reservation>>)
    ensures |cs'| == |cs|
    ensures forall m :: 0 <= m < |cs| ==> cs'[m] == ReserveAt(cs, r, need, m)
  {
    seq(|cs|, m requires 0 <= m < |cs| => ReserveAt(cs, r, need, m))
  }

  /** `schedule`: the cards after, and whether the reservation was booked. */
  function ScheduleSpec(cs: seq<seq<Reservation>>, r: Reservation, need: nat): (seq<seq<Reservation>>, bool)
  {
    if CountFree(cs) >= need then (Reserve(cs, r, need), true) else (cs, false)
  }

  predicate AllAtMostOnePhysical(cs: seq<seq<Reservation>>)
  {
    forall m :: 0 <= m < |cs| ==> AtMostOnePhysical(cs[m])
  }

  /** On a card holding at most one physical reservation, being free is
      being accepted by `schedule_reservation`, and what a booking puts on
      the card is what `add` does to it. */
  lemma FreeIsAccepts(cs: seq<seq<Reservation>>, r: Reservation, need: nat, m: nat)
    requires m < |cs| && AtMostOnePhysical(cs[m])
    ensures Free(cs[m]) <==> Accepts(cs[m])
    ensures ReserveAt(cs, r, need, m) ==
              if Accepts(cs[m]) && FreeBefore(cs, m) < need then CardAdd(cs[m], r).0 else cs[m]
  {
    AddKeepsAtMostOnePhysical(cs[m], r);
  }

  /** Counting is monotone in the prefix. */
  lemma {:induction false} CountMono(f: seq<bool>, a: nat, b: nat)
    requires a <= b <= |f|
    ensures CountTrue(f[..a]) <= CountTrue(f[..b])
    decreases b - a
  {
    if a < b {
      CountMono(f, a, b - 1);
      CountStep(f, b - 1);
    }
  }

  lemma CountStep(f: seq<bool>, i: nat)
    requires i < |f|
    ensures CountTrue(f[..i + 1]) == CountTrue(f[..i]) + (if f[i] then 1 else 0)
  {
    assert f[..i + 1][..i] == f[..i];
  }

  /** The number of indices below `n` at which two card lists differ. */
  function Changed(cs: seq<seq<Reservation>>, cs': seq<seq<Reservation>>, n: nat): (r: nat)
    requires n <= |cs| && n <= |cs'|
  {
    if n == 0 then 0 else Changed(cs, cs', n - 1) + (if cs[n - 1] != cs'[n - 1] then 1 else 0)
  }

  /** A card changes exactly when it takes the reservation. */
  lemma ReserveAtChanges(cs: seq<seq<Reservation>>, r: Reservation, need: nat, m: nat)
    requires m < |cs|
    ensures ReserveAt(cs, r, need, m) != cs[m] <==> Free(cs[m]) && FreeBefore(cs, m) < need
  {
    assert |[r] + cs[m]| != |cs[m]|;
  }

  /** Along the cards, the booking changes `min(need, free cards so far)`
      of them. */
  lemma {:induction false} ReserveCount(cs: seq<seq<Reservation>>, r: Reservation, need: nat, n: nat)
    requires n <= |cs|
    ensures Changed(cs, Reserve(cs, r, need), n) == Min(need, FreeBefore(cs, n))
  {
    if n > 0 {
      ReserveCount(cs, r, need, n - 1);
      ReserveAtChanges(cs, r, need, n - 1);
      CountStep(FreeFlags(cs), n - 1);
    }
  }

  /** `schedule` succeeds exactly when at least `need` cards are free. On
      True exactly `need` cards newly hold the reservation, in front; each
      of them was free, so `add` accepted it; and they are the earliest
      free cards: a free card before a booked one is booked too. On False
      every card is as it was. Either way every card still holds at most
      one physical reservation. */
  lemma ScheduleBooksEarliest(cs: seq<seq<Reservation>>, r: Reservation, need: nat)
    requires AllAtMostOnePhysical(cs)
    ensures ScheduleSpec(cs, r, need).1 <==> CountFree(cs) >= need
    ensures ScheduleSpec(cs, r, need).1 ==> Changed(cs, ScheduleSpec(cs, r, need).0, |cs|) == need
    ensures !ScheduleSpec(cs, r, need).1 ==> ScheduleSpec(cs, r, need).0 == cs
    ensures forall m :: 0 <= m < |cs| && ScheduleSpec(cs, r, need).0[m] != cs[m] ==>
              Accepts(cs[m]) && ScheduleSpec(cs, r, need).0[m] == [r] + cs[m]
    ensures forall a, b :: 0 <= a < b < |cs| && Free(cs[a]) && ScheduleSpec(cs, r, need).0[b] != cs[b] ==>
              ScheduleSpec(cs, r, need).0[a] != cs[a]
    ensures AllAtMostOnePhysical(ScheduleSpec(cs, r, need).0)
  {
    var cs' := ScheduleSpec(cs, r, need).0;
    if CountFree(cs) >= need {
      ReserveCount(cs, r, need, |cs|);
    }
    forall m | 0 <= m < |cs|
      ensures cs'[m] != cs[m] ==> Accepts(cs[m]) && cs'[m] == [r] + cs[m]
      ensures AtMostOnePhysical(cs'[m])
    {
      ReserveAtChanges(cs, r, need, m);
      FreeIsAccepts(cs, r, need, m);
    }
    forall a, b | 0 <= a < b < |cs| && Free(cs[a]) && cs'[b] != cs[b]
      ensures cs'[a] != cs[a]
    {
      CountMono(FreeFlags(cs), a, b);
      ReserveAtChanges(cs, r, need, a);
      ReserveAtChanges(cs, r, need, b);
    }
  }

  /** Past the card that completed the booking, nothing changes. */
  lemma ReserveAtTail(cs: seq<seq<Reservation>>, r: Reservation, need: nat, i: nat, m: nat)
    requires i <= m < |cs| && FreeBefore(cs, i) >= need
    ensures ReserveAt(cs, r, need, m) == cs[m]
  {
    CountMono(FreeFlags(cs), i, m);
  }

  /** The indices below `n` whose flag is set, in order. */
  function Picked(flags: seq<bool>, n: nat): (p: seq<nat>)
    requires n <= |flags|
    ensures forall t :: 0 <= t < |p| ==> p[t] < n && flags[p[t]]
    ensures forall t, u :: 0 <= t < u < |p| ==> p[t] < p[u]
  {
    if n == 0 then [] else Picked(flags, n - 1) + (if flags[n - 1] then [n - 1] else [])
  }

  /** Every flagged index below `n` is picked. */
  lemma {:induction false} PickedAll(flags: seq<bool>, n: nat, m: nat)
    requires m < n <= |flags| && flags[m]
    ensures m in Picked(flags, n)
  {
    if m < n - 1 {
      PickedAll(flags, n - 1, m);
    }
  }

  /** The cards `cs0` after the booking loop ran over the first `i` of
      them: each flagged one got the reservation in front. */
  function BookedCards(cs0: seq<seq<Reservation>>, flags: seq<bool>, r: Reservation, i: nat): (cs: seq<seq<Reservation>>)
    requires |flags| == |cs0|
    ensures |cs| == |cs0|
    ensures forall m :: 0 <= m < |cs0| ==> cs[m] == if m < i && flags[m] then [r] + cs0[m] else cs0[m]
  {
    seq(|cs0|, m requires 0 <= m < |cs0| => if m < i && flags[m] then [r] + cs0[m] else cs0[m])
  }

  /** One more card of the booking loop. */
  lemma BookedNext(cs0: seq<seq<Reservation>>, flags: seq<bool>, r: Reservation, i: nat)
    requires i < |cs0| == |flags|
    ensures BookedCards(cs0, flags, r, i)[i := if flags[i] then [r] + cs0[i] else cs0[i]]
            == BookedCards(cs0, flags, r, i + 1)
  {
  }

  /** The picked cards, in increasing order, each holding `r` in front. */
  ghost predicate Fronted(cs: seq<seq<Reservation>>, cards: seq<nat>, r: Reservation)
  {
    && (forall t, u :: 0 <= t < u < |cards| ==> cards[t] < cards[u])
    && (forall t :: 0 <= t < |cards| ==> cards[t] < |cs| && |cs[cards[t]]| > 0 && cs[cards[t]][0] == r)
  }

  /** After the booking loop, the cards it picked hold the reservation in
      front. */
  lemma BookedFronted(cs0: seq<seq<Reservation>>, r: Reservation, i: nat)
    requires i <= |cs0|
    ensures Fronted(BookedCards(cs0, FreeFlags(cs0), r, i), Picked(FreeFlags(cs0), i), r)
  {
  }

  /** The loop stopped at the card that completed the booking: the cards
      are booked as `schedule` promises on True. */
  lemma BookingDone(cs0: seq<seq<Reservation>>, cs1: seq<seq<Reservation>>, r: Reservation, need: nat, i: nat)
    requires 0 < i <= |cs0| && cs1 == BookedCards(cs0, FreeFlags(cs0), r, i)
    requires FreeBefore(cs0, i) == need && Free(cs0[i - 1])
    ensures CountFree(cs0) >= need && cs1 == Reserve(cs0, r, need)
  {
    forall m | 0 <= m < |cs0| ensures cs1[m] == ReserveAt(cs0, r, need, m) {
      BookingDoneAt(cs0, r, need, i, m);
    }
    CountMono(FreeFlags(cs0), i, |cs0|);
  }

  /** One card of `BookingDone`: before the stopping card, a free card has
      fewer than `need` free cards before it; from it on, none is booked. */
  lemma BookingDoneAt(cs0: seq<seq<Reservation>>, r: Reservation, need: nat, i: nat, m: nat)
    requires 0 < i <= |cs0| && m < |cs0|
    requires FreeBefore(cs0, i) == need && Free(cs0[i - 1])
    ensures ReserveAt(cs0, r, need, m) == if m < i && Free(cs0[m]) then [r] + cs0[m] else cs0[m]
  {
    if m >= i {
      ReserveAtTail(cs0, r, need, i, m);
    } else {
      var flags := FreeFlags(cs0);
      CountStep(flags, i - 1);
      CountMono(flags, m, i - 1);
    }
  }

  /** The loop ran over every card and removing the reservation again from
      the cards that took it restores every card. */
  lemma BookingFailed(cs0: seq<seq<Reservation>>, cs1: seq<seq<Reservation>>, cs2: seq<seq<Reservation>>,
                      r: Reservation, i: nat, cards: seq<nat>)
    requires i == |cs0| && cs1 == BookedCards(cs0, FreeFlags(cs0), r, i) && cards == Picked(FreeFlags(cs0), i)
    requires |cs2| == |cs0|
    requires forall m :: 0 <= m < |cs0| ==> cs2[m] == if m in cards then cs1[m][1..] else cs1[m]
    ensures cs2 == cs0
  {
    forall m | 0 <= m < |cs0| ensures cs2[m] == cs0[m] {
      if Free(cs0[m]) {
        PickedAll(FreeFlags(cs0), i, m);
      }
    }
  }

  /** The REJECT branch of `pop` on the card lists: the first occurrence of
      the reservation is removed from every card. */
  function Release(cs: seq<seq<Reservation>>, r: Reservation): (cs': seq<seq<Reservation>>)
    ensures |cs'| == |cs|
    ensures forall m :: 0 <= m < |cs| ==> cs'[m] == RemoveFirst(cs[m], r)
  {
    seq(|cs|, m requires 0 <= m < |cs| => RemoveFirst(cs[m], r))
  }

  /** The cards after the REJECT loop ran over the first `i` of them. */
  function ReleasedBefore(cs: seq<seq<Reservation>>, r: Reservation, i: nat): (cs': seq<seq<Reservation>>)
    ensures |cs'| == |cs|
    ensures forall m :: 0 <= m < |cs| ==> cs'[m] == if m < i then RemoveFirst(cs[m], r) else cs[m]
  {
    seq(|cs|, m requires 0 <= m < |cs| => if m < i then RemoveFirst(cs[m], r) else cs[m])
  }

  /** One more card of the REJECT loop. */
  lemma ReleasedNext(cs: seq<seq<Reservation>>, r: Reservation, i: nat)
    requires i < |cs|
    ensures ReleasedBefore(cs, r, i)[i := RemoveFirst(cs[i], r)] == ReleasedBefore(cs, r, i + 1)
  {
  }

  /** A REJECT undoes a successful booking of a reservation no card held
      before. */
  lemma ReleaseUndoesSchedule(cs: seq<seq<Reservation>>, r: Reservation, need: nat)
    requires forall m :: 0 <= m < |cs| ==> r !in cs[m]
    ensures Release(ScheduleSpec(cs, r, need).0, r) == cs
  {
    var cs' := ScheduleSpec(cs, r, need).0;
    assert |Release(cs', r)| == |cs|;
    forall m | 0 <= m < |cs|
      ensures Release(cs', r)[m] == cs[m]
    {
      RemoveFirstMultiset(cs[m], r);
      if CountFree(cs) >= need {
        ReserveAtChanges(cs, r, need, m);
      }
    }
  }

  /** The "update to RAW" events `load_rules` schedules for the cards
      below `n` that hold the reservation, in card order. */
  function UpdateEvents(cs: seq<seq<Reservation>>, r: Reservation, n: nat): (res: seq<Event>)
    requires n <= |cs|
  {
    if n == 0 then []
    else UpdateEvents(cs, r, n - 1)
         + (if r in cs[n - 1] then [Event(r.endTime, UpdateToRaw(n - 1), Some(1))] else [])
  }

  /** The update events, one card further. */
  lemma UpdateEventsStep(cs: seq<seq<Reservation>>, r: Reservation, i: nat)
    requires i < |cs|
    ensures UpdateEvents(cs, r, i + 1) ==
            UpdateEvents(cs, r, i) + (if r in cs[i] then [Event(r.endTime, UpdateToRaw(i), Some(1))] else [])
  {
  }

  /** The `load` and `expire` events of the rules, in rule order. */
  function RuleEvents(rules: seq<nat>, r: Reservation): (res: seq<Event>)
  {
    if rules == [] then []
    else RuleEvents(rules[..|rules| - 1], r)
         + [Event(r.startTime, LoadRule(rules[|rules| - 1]), None),
            Event(r.endTime, ExpireRule(rules[|rules| - 1]), Some(0))]
  }

  /** Every event updates a memory, each one after the previous. */
  predicate IncreasingMemories(ev: seq<Event>)
  {
    forall a, b :: 0 <= a < b < |ev| ==>
      ev[a].process.UpdateToRaw? && ev[b].process.UpdateToRaw? && ev[a].process.memory < ev[b].process.memory
  }

  /** Exactly one update event per card holding the reservation: at its
      end time, with priority 1, for that card's memory, in increasing
      memory order (so no memory is updated twice). */
  lemma {:induction false} UpdateEventsShape(cs: seq<seq<Reservation>>, r: Reservation, n: nat)
    requires n <= |cs|
    ensures forall m :: 0 <= m < n ==>
              (r in cs[m] <==> Event(r.endTime, UpdateToRaw(m), Some(1)) in UpdateEvents(cs, r, n))
    ensures forall e :: e in UpdateEvents(cs, r, n) ==>
              e.time == r.endTime && e.priority == Some(1) && e.process.UpdateToRaw?
              && e.process.memory < n && r in cs[e.process.memory]
    ensures IncreasingMemories(UpdateEvents(cs, r, n))
  {
    if n > 0 {
      UpdateEventsShape(cs, r, n - 1);
      var prev := UpdateEvents(cs, r, n - 1);
      var ev := UpdateEvents(cs, r, n);
      assert forall a :: 0 <= a < |prev| ==> ev[a] == prev[a] && prev[a] in prev;
      forall a, b | 0 <= a < b < |ev|
        ensures ev[a].process.UpdateToRaw? && ev[b].process.UpdateToRaw? && ev[a].process.memory < ev[b].process.memory
      {
        assert ev[a] == prev[a] && prev[a] in prev;
        if b >= |prev| {
          assert ev[b] == Event(r.endTime, UpdateToRaw(n - 1), Some(1));
          assert prev[a].process.memory < n - 1;
        } else {
          assert ev[b] == prev[b];
        }
      }
    }
  }

  /** Two events per rule: its `load` at the start time with the default
      priority, then its `expire` at the end time with priority 0. */
  lemma {:induction false} RuleEventsShape(rules: seq<nat>, r: Reservation)
    ensures |RuleEvents(rules, r)| == 2 * |rules|
    ensures forall i :: 0 <= i < |rules| ==>
              RuleEvents(rules, r)[2 * i] == Event(r.startTime, LoadRule(rules[i]), None)
              && RuleEvents(rules, r)[2 * i + 1] == Event(r.endTime, ExpireRule(rules[i]), Some(0))
    decreases |rules|
  {
    if rules != [] {
      var init := rules[..|rules| - 1];
      RuleEventsShape(init, r);
      forall i | 0 <= i < |rules|
        ensures RuleEvents(rules, r)[2 * i] == Event(r.startTime, LoadRule(rules[i]), None)
        ensures RuleEvents(rules, r)[2 * i + 1] == Event(r.endTime, ExpireRule(rules[i]), Some(0))
      {
        if i < |init| {
          assert rules[i] == init[i];
        }
      }
    }
  }

  /** `ResourceReservationProtocol`: card `i` books memory `i`. */
  class ResourceReservationProtocol {
    const ownName: NodeName
    const name: string
    const timecards: seq<MemoryTimeCard>
    var accepted: seq<Reservation>
    var events: seq<Event>
    var stack: seq<StackCall>

    ghost predicate Valid()
      reads timecards
    {
      && (forall i :: 0 <= i < |timecards| ==> timecards[i].memoryIndex == i && timecards[i].Valid())
      && (forall i, j :: 0 <= i < j < |timecards| ==> timecards[i] != timecards[j])
    }

    /** The reservation lists of the cards, in memory order. */
    ghost function Cards(): (cs: seq<seq<Reservation>>)
      reads timecards
      ensures |cs| == |timecards|
      ensures forall i :: 0 <= i < |timecards| ==> cs[i] == timecards[i].reservations
    {
      seq(|timecards|, i reads timecards requires 0 <= i < |timecards| => timecards[i].reservations)
    }

    lemma CardsValid()
      requires Valid()
      ensures AllAtMostOnePhysical(Cards())
    {
      forall m | 0 <= m < |timecards| ensures AtMostOnePhysical(Cards()[m]) {
        assert timecards[m].Valid();
      }
    }

    /** One card per memory of a node with `memories` memories, no
        reservation accepted yet. */
    constructor (ownName: NodeName, name: string, memories: nat)
      ensures Valid() && fresh(timecards)
      ensures this.ownName == ownName && this.name == name && |timecards| == memories
      ensures Cards() == seq(memories, i => []) && accepted == [] && events == [] && stack == []
    {
      this.ownName := ownName;
      this.name := name;
      var cards: seq<MemoryTimeCard> := [];
      for i := 0 to memories
        invariant |cards| == i && fresh(cards)
        invariant forall k :: 0 <= k < i ==> cards[k].memoryIndex == k && cards[k].Valid()
        invariant forall k :: 0 <= k < i ==> cards[k].reservations == []
        invariant forall k, l :: 0 <= k < l < i ==> cards[k] != cards[l]
      {
        var c := new MemoryTimeCard(i);
        cards := cards + [c];
      }
      timecards := cards;
      accepted, events, stack := [], [], [];
    }

    /** `schedule`: book the reservation on the first `Need` accepting
        cards, or, when there are too few, take it off every card it went
        onto and report failure. */
    method Schedule(r: Reservation) returns (ok: bool)
      requires Valid()
      modifies timecards
      ensures Valid()
      ensures (Cards(), ok) == ScheduleSpec(old(Cards()), r, Need(ownName, r))
    {
      var need := Need(ownName, r);
      ghost var cs0 := Cards();
      ghost var flags := FreeFlags(cs0);
      var counter, cards, i := Book(r, need, cs0, flags);
      ghost var cs1 := Cards();
      if counter > 0 {
        BookedFronted(cs0, r, i);
        RollBack(cards, r);
        BookingFailed(cs0, cs1, Cards(), r, i, cards);
        return false;
      }
      BookingDone(cs0, cs1, r, need, i);
      return true;
    }

    /** The booking loop of `schedule`: `add` the reservation to each card
        in turn until `need` cards took it. A card takes it exactly when it
        is free; `cards` are the cards that took it, in order, each named
        by its index; `counter` is how many are still missing. The source
        breaks right after the card that brings `counter` to zero; testing
        `counter` before the next card is the same loop. */
    method Book(r: Reservation, need: nat, ghost cs0: seq<seq<Reservation>>, ghost flags: seq<bool>)
      returns (counter: int, cards: seq<nat>, i: nat)
      requires Valid() && need >= 1 && cs0 == Cards() && flags == FreeFlags(cs0)
      modifies timecards
      ensures Booking(r, need, cs0, flags, i, counter, cards)
      ensures i == |timecards| || counter == 0
    {
      counter := need;
      cards := [];
      i := 0;
      assert BookedCards(cs0, flags, r, 0) == cs0;
      while i < |timecards| && counter != 0
        invariant Booking(r, need, cs0, flags, i, counter, cards)
      {
        counter, cards := BookStep(r, need, cs0, flags, i, counter, cards);
        i := i + 1;
      }
    }

    /** The state of the booking loop before card `i`: `counter` cards
        are still missing, the flagged cards before `i` took the
        reservation, and `cards` are those cards. */
    ghost predicate Booking(r: Reservation, need: nat, cs0: seq<seq<Reservation>>, flags: seq<bool>,
                            i: nat, counter: int, cards: seq<nat>)
      reads this, timecards
    {
      && Valid() && i <= |timecards| && |cs0| == |timecards| && flags == FreeFlags(cs0)
      && counter == need - CountTrue(flags[..i]) && counter >= 0
      && (counter == 0 ==> i > 0 && flags[i - 1])
      && Cards() == BookedCards(cs0, flags, r, i)
      && cards == Picked(flags, i)
    }

    /** One iteration of the booking loop. */
    method BookStep(r: Reservation, need: nat, ghost cs0: seq<seq<Reservation>>, ghost flags: seq<bool>,
                    i: nat, counter: int, cards: seq<nat>) returns (counter': int, cards': seq<nat>)
      requires Booking(r, need, cs0, flags, i, counter, cards) && i < |timecards| && counter != 0
      modifies timecards
      ensures Booking(r, need, cs0, flags, i + 1, counter', cards')
    {
      CountStep(flags, i);
      BookedNext(cs0, flags, r, i);
      assert Cards()[i] == cs0[i];
      var added := BookOne(i, r);
      counter', cards' := counter, cards;
      if added {
        counter', cards' := counter - 1, cards + [i];
      }
    }

    /** One card of the booking loop: `add` on card `i` alone. */
    method BookOne(i: nat, r: Reservation) returns (added: bool)
      requires Valid() && i < |timecards|
      modifies timecards[i]
      ensures Valid()
      ensures added <==> Free(old(Cards())[i])
      ensures Cards() == old(Cards())[i := if added then [r] + old(Cards())[i] else old(Cards())[i]]
    {
      assert forall m :: 0 <= m < |timecards| && m != i ==> timecards[m] != timecards[i];
      added := timecards[i].Add(r);
    }

    /** The rollback loop of `schedule`: `remove` the reservation again
        from each card it was just put in front of. */
    method RollBack(cards: seq<nat>, r: Reservation)
      requires Valid() && Fronted(Cards(), cards, r)
      modifies timecards
      ensures Valid()
      ensures forall m :: 0 <= m < |timecards| ==>
                Cards()[m] == if m in cards then old(Cards())[m][1..] else old(Cards())[m]
    {
      ghost var cs0 := Cards();
      for t := 0 to |cards|
        invariant Valid()
        invariant forall m :: 0 <= m < |timecards| ==>
                    timecards[m].reservations == if m in cards[..t] then cs0[m][1..] else cs0[m]
      {
        assert forall m :: 0 <= m < |timecards| && m != cards[t] ==> timecards[m] != timecards[cards[t]];
        assert cards[t] !in cards[..t];
        assert cards[..t + 1] == cards[..t] + [cards[t]];
        var _ := timecards[cards[t]].Remove(r);
      }
      assert cards[..|cards|] == cards;
    }

    /** `load_rules`: record the reservation as accepted and schedule the
        update of each booked memory at the end time, then for each rule
        its load at the start time and its expiry at the end time. */
    method LoadRules(rules: seq<nat>, r: Reservation)
      requires Valid()
      modifies this
      ensures Valid() && stack == old(stack) && Cards() == old(Cards())
      ensures accepted == old(accepted) + [r]
      ensures events == old(events) + UpdateEvents(Cards(), r, |timecards|) + RuleEvents(rules, r)
    {
      accepted := accepted + [r];
      ScheduleUpdates(r);
      ScheduleRules(rules, r);
    }

    /** The first loop of `load_rules`: an update to RAW at the end time
        for each card holding the reservation. */
    method ScheduleUpdates(r: Reservation)
      requires Valid()
      modifies this
      ensures accepted == old(accepted) && stack == old(stack)
      ensures events == old(events) + UpdateEvents(Cards(), r, |timecards|)
    {
      ghost var cs := Cards();
      for i := 0 to |timecards|
        invariant events == old(events) + UpdateEvents(cs, r, i)
        invariant accepted == old(accepted) && stack == old(stack)
      {
        assert cs[i] == timecards[i].reservations && timecards[i].memoryIndex == i;
        UpdateEventsStep(cs, r, i);
        if r in timecards[i].reservations {
          events := events + [Event(r.endTime, UpdateToRaw(timecards[i].memoryIndex), Some(1))];
        }
      }
    }

    /** The second loop of `load_rules`: for each rule its load at the
        start time and its expiry at the end time. */
    method ScheduleRules(rules: seq<nat>, r: Reservation)
      modifies this
      ensures accepted == old(accepted) && stack == old(stack)
      ensures events == old(events) + RuleEvents(rules, r)
    {
      for i := 0 to |rules|
        invariant events == old(events) + RuleEvents(rules[..i], r)
        invariant accepted == old(accepted) && stack == old(stack)
      {
        assert rules[..i + 1][..i] == rules[..i];
        events := events + [Event(r.startTime, LoadRule(rules[i]), None),
                            Event(r.endTime, ExpireRule(rules[i]), Some(0))];
      }
      assert rules[..|rules|] == rules;
    }

    /** The REJECT branch of `pop`: take the reservation off every card,
        then hand the message up at the initiator or send it on towards
        the initiator elsewhere. */
    method PopReject(msg: RsvpMessage)
      requires Valid() && msg.Reject?
      modifies this, timecards
      ensures Valid() && accepted == old(accepted) && events == old(events)
      ensures Cards() == Release(old(Cards()), msg.reservation)
      ensures stack == old(stack) + [if msg.reservation.initiator == ownName then PopUp(msg)
                                     else PushDown(msg.reservation.initiator, msg)]
    {
      ReleaseCards(msg.reservation);
      if msg.reservation.initiator == ownName {
        stack := stack + [PopUp(msg)];
      } else {
        stack := stack + [PushDown(msg.reservation.initiator, msg)];
      }
    }

    /** The loop of the REJECT branch: `remove` the reservation from each
        card in turn. */
    method ReleaseCards(r: Reservation)
      requires Valid()
      modifies timecards
      ensures Valid() && Cards() == Release(old(Cards()), r)
    {
      ghost var cs0 := Cards();
      for i := 0 to |timecards|
        invariant Valid() && Cards() == ReleasedBefore(cs0, r, i)
      {
        ReleasedNext(cs0, r, i);
        ReleaseOne(i, r);
      }
      assert ReleasedBefore(cs0, r, |cs0|) == Release(cs0, r);
    }

    /** One card of the REJECT loop: `remove` on card `i` alone. */
    method ReleaseOne(i: nat, r: Reservation)
      requires Valid() && i < |timecards|
      modifies timecards[i]
      ensures Valid() && Cards() == old(Cards())[i := RemoveFirst(old(Cards())[i], r)]
    {
      assert forall m :: 0 <= m < |timecards| && m != i ==> timecards[m] != timecards[i];
      var _ := timecards[i].Remove(r);
    }

    /** `push`: build the reservation `ident` (failing as the constructor's
        assertions do), book it, and send a REQUEST carrying this node's
        capability towards the responder, or hand a REJECT up. */
    method Push(ident: nat, responder: NodeName, startTime: int, endTime: int, memorySize: int,
                fidelity: real, isVirtual: bool) returns (raised: bool)
      requires Valid()
      modifies this, timecards
      ensures Valid() && accepted == old(accepted) && events == old(events)
      ensures raised <==> NewReservation(ident, ownName, responder, startTime, endTime,
                                         memorySize, fidelity, isVirtual).None?
      ensures raised ==> Cards() == old(Cards()) && stack == old(stack)
      ensures !raised ==>
                var r := NewReservation(ident, ownName, responder, startTime, endTime,
                                        memorySize, fidelity, isVirtual).value;
                var (cs, ok) := ScheduleSpec(old(Cards()), r, Need(ownName, r));
                && Cards() == cs
                && stack == old(stack) + [if ok then PushDown(responder, Request(name, r, [ownName]))
                                          else PopUp(Reject(name, r))]
    {
      var res := NewReservation(ident, ownName, responder, startTime, endTime, memorySize, fidelity, isVirtual);
      if res.None? {
        return true;
      }
      var r := res.value;
      var ok := Schedule(r);
      if ok {
        stack := stack + [PushDown(responder, Request(name, r, [ownName]))];
      } else {
        stack := stack + [PopUp(Reject(name, r))];
      }
      raised := false;
    }
  }
}
