/** The resource manager of a quantum router: it tracks whether each
    memory is raw, occupied by a protocol or entangled, runs the loaded
    rules against the memories, and pairs local entanglement protocols
    with protocols on other nodes by moving them between three lists:
    protocols waiting for a remote request, protocols pending on a remote
    answer, and protocols running on the node.

    Protocols, rules and memories are values identified by an explicit
    `ident` (or, for memories, their index in the memory manager). What a
    rule's condition selects and what its action builds are the abstract
    functions of `RuleCode`. A firing (`rule.do`) is modelled: the built
    protocol is a new object, named by the manager's counter `nextId`; it
    joins its rule's protocols and its requests go through
    `send_request`. What a protocol does when it is started, released or
    bound to its partner, and the node's idle-memory hook are outside the
    model and appear as entries of an effect log. Messages sent to other
    nodes are appended to an outbox. */
module ResourceManagement {
  import opened Common

  type NodeName = string

  /** Only the entanglement protocols may be released by a remote node. */
  datatype ProtocolKind = Entanglement | OtherProtocol

  /** A protocol instance: its identity, its kind, the rule that created
      it and the memories (indices into the memory manager) it uses. */
  datatype Protocol = Protocol(ident: nat, kind: ProtocolKind, rule: nat, memories: seq<nat>)

  datatype MemState = Raw | Occupied | Entangled

  /** The memory manager's record of one memory. */
  datatype MemoryInfo = MemoryInfo(name: string, state: MemState, remoteNode: Option<NodeName>)

  datatype Rule = Rule(ident: nat, priority: int)

  /** `rule.is_valid(memory_info)`: the memories the rule claims when it is
      evaluated on one memory, given every memory's current record. An
      empty result means that the rule does not fire. */
  type Condition = (Rule, MemoryInfo, seq<MemoryInfo>) -> seq<nat>

  /** The `req_condition_func` a REQUEST carries: picks a partner among the
      receiver's waiting protocols, or none. */
  type Matcher = seq<Protocol> -> Option<Protocol>

  /** What a rule's action returns, `[protocol, dsts, req_funcs]`: the
      protocol it built and, one per destination, the requests the firing
      passes on to `send_request`. No destination means that the protocol
      waits for a remote request. */
  datatype ActionResult = ActionResult(protocol: Protocol, requests: seq<(Option<NodeName>, Matcher)>)

  /** `rule.action(memories_info)`, given the rule, the memories it claimed
      and every memory's record. */
  type Action = (Rule, seq<nat>, seq<MemoryInfo>) -> ActionResult

  /** The code of the loaded rules: their conditions and their actions. */
  datatype RuleCode = RuleCode(isValid: Condition, action: Action)

  datatype RmMessage =
    | Request(ini: Protocol, matcher: Matcher)
    | Response(ini: Protocol, approved: bool, paired: Option<Protocol>)
    | ReleaseProtocol(protocol: Option<Protocol>)
    | ReleaseMemory(ini: Protocol, memoryId: string)

  datatype Sent = Sent(dst: NodeName, msg: RmMessage)

  /** Calls into code outside the model, in the order they are made. */
  datatype Effect =
    | RuleDo(rule: Rule, selected: seq<nat>)   // rule.do on the claimed memories
    | Detach(memory: nat, protocol: Protocol)  // memory.detach, then attach to its array
    | IdleMemory(memory: nat)                  // owner.get_idle_memory
    | SetOthers(protocol: Protocol, other: Option<Protocol>)
    | Start(protocol: Protocol)
    | Release(protocol: Protocol)

  /** Everything the resource manager reads and writes. `running` is the
      owner's `protocols` list; `ruleProtocols` holds each rule's
      `protocols` list, keyed by the rule's identity; `nextId` names the
      next protocol a firing builds. */
  datatype RmState = RmState(
    rules: seq<Rule>,
    memories: seq<MemoryInfo>,
    ruleProtocols: map<nat, seq<Protocol>>,
    waiting: seq<Protocol>,
    pending: seq<Protocol>,
    running: seq<Protocol>,
    sent: seq<Sent>,
    effects: seq<Effect>,
    nextId: nat)

  /** The three lists a protocol can sit in, in one multiset. */
  function Tracked(st: RmState): (r: multiset<Protocol>)
  {
    multiset(st.waiting) + multiset(st.pending) + multiset(st.running)
  }

  /** The protocols of `ps` named below `n`, in their order. */
  function Before(ps: seq<Protocol>, n: nat): (r: seq<Protocol>)
    ensures forall q :: q in r <==> q in ps && q.ident < n
    decreases |ps|
  {
    if ps == [] then []
    else
      assert ps == ps[..|ps| - 1] + [ps[|ps| - 1]];
      Before(ps[..|ps| - 1], n) + (if ps[|ps| - 1].ident < n then [ps[|ps| - 1]] else [])
  }

  /** `Tracked`, counting only the protocols named below `n`. */
  function TrackedBefore(st: RmState, n: nat): (r: multiset<Protocol>)
  {
    multiset(Before(st.waiting, n)) + multiset(Before(st.pending, n)) + multiset(Before(st.running, n))
  }

  function RuleProtocols(st: RmState, rule: nat): (r: seq<Protocol>)
  {
    if rule in st.ruleProtocols then st.ruleProtocols[rule] else []
  }

  /** Every memory index in `ms` names one of `n` memories. */
  predicate Below(ms: seq<nat>, n: nat)
  {
    forall t :: 0 <= t < |ms| ==> ms[t] < n
  }

  /** `info.to_occupied()` for every memory the rule claimed. */
  function Occupy(mems: seq<MemoryInfo>, sel: seq<nat>): (r: seq<MemoryInfo>)
    ensures |r| == |mems|
  {
    seq(|mems|, m requires 0 <= m < |mems| => if m in sel then mems[m].(state := Occupied) else mems[m])
  }

  /** A claimed memory becomes occupied and keeps the rest of its record;
      any other memory keeps its whole record. */
  lemma OccupyAt(mems: seq<MemoryInfo>, sel: seq<nat>, m: nat)
    requires m < |mems|
    ensures Occupy(mems, sel)[m] == if m in sel then mems[m].(state := Occupied) else mems[m]
  {
  }

  /** The first rule, from index `k` on, that claims some memory when
      evaluated on `info`. */
  function FirstFiring(rules: seq<Rule>, cond: Condition, info: MemoryInfo, mems: seq<MemoryInfo>, k: nat): (r: Option<nat>)
    ensures r.Some? ==> k <= r.value < |rules| && |cond(rules[r.value], info, mems)| > 0
    ensures r.Some? ==> forall j :: k <= j < r.value ==> |cond(rules[j], info, mems)| == 0
    ensures r.None? ==> forall j :: k <= j < |rules| ==> |cond(rules[j], info, mems)| == 0
    decreases |rules| - k
  {
    if k >= |rules| then None
    else if |cond(rules[k], info, mems)| > 0 then Some(k)
    else FirstFiring(rules, cond, info, mems, k + 1)
  }

  /** How many of the requests have no destination. */
  function Waits(reqs: seq<(Option<NodeName>, Matcher)>): (n: nat)
    ensures n <= |reqs|
    decreases |reqs|
  {
    if reqs == [] then 0
    else Waits(reqs[..|reqs| - 1]) + (if reqs[|reqs| - 1].0.None? then 1 else 0)
  }

  /** The actions make a protocol wait for a remote request at most once
      per firing. */
  ghost predicate WaitsOnce(code: RuleCode)
  {
    forall rule, sel, mems :: Waits(code.action(rule, sel, mems).requests) <= 1
  }

  /** The protocol a firing registers: what the action built, named by the
      counter and bound to the firing rule (`protocol.rule = self`). */
  function NewProtocol(st: RmState, code: RuleCode, rule: Rule, sel: seq<nat>): (r: Protocol)
  {
    code.action(rule, sel, st.memories).protocol.(ident := st.nextId, rule := rule.ident)
  }

  /** The requests of a firing, `send_request` after `send_request`. */
  function SendAll(st: RmState, p: Protocol, reqs: seq<(Option<NodeName>, Matcher)>): (r: RmState)
    ensures r.(waiting := st.waiting, pending := st.pending, sent := st.sent) == st
    decreases |reqs|
  {
    if reqs == [] then st
    else
      var (dst, matcher) := reqs[|reqs| - 1];
      SendRequestSpec(SendAll(st, p, reqs[..|reqs| - 1]), p, dst, matcher)
  }

  /** `rule.do(memories_info)`: the action builds a protocol, which joins
      the rule's protocols, and each of its requests goes through
      `send_request`. */
  function DoSpec(st: RmState, code: RuleCode, rule: Rule, sel: seq<nat>): (r: RmState)
    ensures r.memories == st.memories && r.rules == st.rules && r.running == st.running
    ensures r.effects == st.effects + [RuleDo(rule, sel)] && r.nextId == st.nextId + 1
  {
    var p := NewProtocol(st, code, rule, sel);
    var st1 := st.(nextId := st.nextId + 1, effects := st.effects + [RuleDo(rule, sel)],
                   ruleProtocols := st.ruleProtocols[rule.ident := RuleProtocols(st, rule.ident) + [p]]);
    SendAll(st1, p, code.action(rule, sel, st.memories).requests)
  }

  /** The rule-checking tail of `update`: the first rule that fires on
      memory `m` runs and its memories become occupied; when none fires,
      the memory is handed to the node as idle. */
  function Fire(st: RmState, code: RuleCode, m: nat): (r: RmState)
    requires m < |st.memories|
    ensures |r.memories| == |st.memories| && r.rules == st.rules && r.running == st.running
    ensures st.nextId <= r.nextId
  {
    var info := st.memories[m];
    match FirstFiring(st.rules, code.isValid, info, st.memories, 0)
    case Some(k) =>
      var sel := code.isValid(st.rules[k], info, st.memories);
      var st1 := DoSpec(st, code, st.rules[k], sel);
      st1.(memories := Occupy(st1.memories, sel))
    case None =>
      st.(effects := st.effects + [IdleMemory(m)])
  }

  /** The memory manager's record after `update` to state `s`: a RAW
      memory has no partner, so RAW also clears the remote node. */
  function Recorded(info: MemoryInfo, s: MemState): (r: MemoryInfo)
    ensures r.name == info.name && r.state == s
    ensures r.remoteNode == if s == Raw then None else info.remoteNode
  {
    info.(state := s, remoteNode := if s == Raw then None else info.remoteNode)
  }

  /** The first part of `update`: record the new state and unbind the
      protocol, if there is one. */
  function Unbound(st: RmState, p: Option<Protocol>, m: nat, s: MemState): (r: RmState)
    requires m < |st.memories|
    ensures |r.memories| == |st.memories| && r.nextId == st.nextId && r.rules == st.rules
  {
    var st1 := st.(memories := st.memories[m := Recorded(st.memories[m], s)]);
    if p.Some? then Unbind(st1, p.value, m) else st1
  }

  /** `update(protocol, memory, state)`: record the new state, unbind the
      protocol from the memory, from its rule and from all three lists,
      then let at most one rule fire. A missing protocol is `None`. */
  function UpdateSpec(st: RmState, code: RuleCode, p: Option<Protocol>, m: nat, s: MemState): (r: RmState)
    requires m < |st.memories|
    ensures |r.memories| == |st.memories| && st.nextId <= r.nextId
    ensures p.None? ==> r.running == st.running
  {
    Fire(Unbound(st, p, m, s), code, m)
  }

  /** The protocol part of `update`: detach the protocol from the memory,
      drop it from its rule's protocols and from the three lists. */
  function Unbind(st: RmState, q: Protocol, m: nat): (r: RmState)
    ensures r.memories == st.memories && r.nextId == st.nextId && r.rules == st.rules
  {
    st.(effects := st.effects + [Detach(m, q)],
        ruleProtocols :=
          if q in RuleProtocols(st, q.rule)
          then st.ruleProtocols[q.rule := RemoveFirst(RuleProtocols(st, q.rule), q)]
          else st.ruleProtocols,
        running := RemoveFirst(st.running, q),
        waiting := RemoveFirst(st.waiting, q),
        pending := RemoveFirst(st.pending, q))
  }

  /** The state a memory of a rejected protocol is updated to: RAW when
      it has no remote node, ENTANGLED otherwise. */
  function RejectState(info: MemoryInfo): (r: MemState)
  {
    if info.remoteNode.None? then Raw else Entangled
  }

  /** One memory of the rejection loop. */
  function RejectOne(st: RmState, code: RuleCode, p: Protocol, m: nat): (r: RmState)
    requires m < |st.memories|
    ensures |r.memories| == |st.memories| && r.running == st.running && st.nextId <= r.nextId
  {
    var st1 := st.(effects := st.effects + [Detach(m, p)]);
    UpdateSpec(st1, code, None, m, RejectState(st1.memories[m]))
  }

  /** The state after the first `n` memories were offered to the new rule
      in `load`; each evaluation sees the claims made before it. */
  function LoadSteps(st: RmState, code: RuleCode, rule: Rule, n: nat): (r: RmState)
    requires n <= |st.memories|
    ensures |r.memories| == |st.memories| && r.rules == st.rules && r.running == st.running
    ensures st.nextId <= r.nextId
  {
    if n == 0 then st else LoadStep(LoadSteps(st, code, rule, n - 1), code, rule, n - 1)
  }

  /** `load` offers memory `i` to the new rule: when the rule claims
      memories it fires and its claims become occupied. */
  function LoadStep(prev: RmState, code: RuleCode, rule: Rule, i: nat): (r: RmState)
    requires i < |prev.memories|
    ensures |r.memories| == |prev.memories| && r.rules == prev.rules && r.running == prev.running
    ensures prev.nextId <= r.nextId
  {
    var sel := code.isValid(rule, prev.memories[i], prev.memories);
    if |sel| > 0 then
      var st1 := DoSpec(prev, code, rule, sel);
      st1.(memories := Occupy(st1.memories, sel))
    else prev
  }

  /** What the new rule claims when it is offered memory `i`. */
  function LoadClaim(st: RmState, code: RuleCode, rule: Rule, i: nat): (r: seq<nat>)
    requires i < |st.memories|
  {
    var prev := LoadSteps(st, code, rule, i);
    code.isValid(rule, prev.memories[i], prev.memories)
  }

  /** `load`: the rule manager takes the rule at position `pos`, then the
      rule is offered every memory once. */
  function LoadSpec(st: RmState, code: RuleCode, rule: Rule, pos: nat): (r: RmState)
    requires pos <= |st.rules|
  {
    LoadSteps(st.(rules := st.rules[..pos] + [rule] + st.rules[pos..]), code, rule, |st.memories|)
  }

  /** `update(protocol, memory, "RAW")` for each memory of the protocol
      in turn. */
  function UpdateAll(st: RmState, code: RuleCode, p: Protocol, ms: seq<nat>): (r: RmState)
    requires Below(ms, |st.memories|)
    ensures |r.memories| == |st.memories| && st.nextId <= r.nextId
  {
    if ms == [] then st
    else UpdateSpec(UpdateAll(st, code, p, ms[..|ms| - 1]), code, Some(p), ms[|ms| - 1], Raw)
  }

  /** The `while created_protocols` loop of `expire`: take the last
      protocol, remove it from the first of the waiting, pending and
      running lists that holds it, then update each of its memories to
      RAW. The bool is true when a protocol is in none of the lists (the
      source raises). */
  function ExpireFrom(st: RmState, code: RuleCode, created: seq<Protocol>): (RmState, bool)
    requires forall i :: 0 <= i < |created| ==> Below(created[i].memories, |st.memories|)
    decreases |created|
  {
    if created == [] then (st, false)
    else
      var p := created[|created| - 1];
      match Unlist(st, p)
      case None => (st, true)
      case Some(st1) => ExpireFrom(UpdateAll(st1, code, p, p.memories), code, created[..|created| - 1])
  }

  /** Take the protocol out of the first of the waiting, pending and
      running lists that holds it; `None` when no list does. */
  function Unlist(st: RmState, p: Protocol): (r: Option<RmState>)
    ensures r.Some? ==> r.value.memories == st.memories && r.value.nextId == st.nextId
    ensures r.Some? ==> r.value.ruleProtocols == st.ruleProtocols
  {
    if p in st.waiting then Some(st.(waiting := RemoveFirst(st.waiting, p)))
    else if p in st.pending then Some(st.(pending := RemoveFirst(st.pending, p)))
    else if p in st.running then Some(st.(running := RemoveFirst(st.running, p)))
    else None
  }

  /** `expire(rule)`: the rule manager drops the rule and hands back the
      protocols it created, `created`. */
  function ExpireSpec(st: RmState, code: RuleCode, rule: Rule, created: seq<Protocol>): (RmState, bool)
    requires forall i :: 0 <= i < |created| ==> Below(created[i].memories, |st.memories|)
  {
    ExpireFrom(st.(rules := RemoveFirst(st.rules, rule)), code, created)
  }

  /** `send_request`: with no destination the protocol waits for a remote
      request; otherwise it becomes pending (once) and a REQUEST goes out. */
  function SendRequestSpec(st: RmState, p: Protocol, dst: Option<NodeName>, matcher: Matcher): (r: RmState)
  {
    if dst.None? then st.(waiting := st.waiting + [p])
    else
      st.(pending := if p in st.pending then st.pending else st.pending + [p],
          sent := st.sent + [Sent(dst.value, Request(p, matcher))])
  }

  /** The memory loop of a rejected RESPONSE: each memory of the protocol
      is detached from it and updated, without a protocol, to RAW when it
      has no remote node and to ENTANGLED otherwise. */
  function RejectAll(st: RmState, code: RuleCode, p: Protocol, ms: seq<nat>): (r: RmState)
    requires Below(ms, |st.memories|)
    ensures |r.memories| == |st.memories| && r.running == st.running && st.nextId <= r.nextId
  {
    if ms == [] then st
    else RejectOne(RejectAll(st, code, p, ms[..|ms| - 1]), code, p, ms[|ms| - 1])
  }

  /** The rejection loop, one memory further. */
  lemma RejectAllStep(st: RmState, code: RuleCode, p: Protocol, ms: seq<nat>, t: nat)
    requires t < |ms| && Below(ms, |st.memories|)
    ensures RejectAll(st, code, p, ms[..t + 1]) == RejectOne(RejectAll(st, code, p, ms[..t]), code, p, ms[t])
  {
    assert ms[..t + 1][..t] == ms[..t];
  }

  /** The expiry update loop, one memory further. */
  lemma UpdateAllStep(st: RmState, code: RuleCode, p: Protocol, ms: seq<nat>, t: nat)
    requires t < |ms| && Below(ms, |st.memories|)
    ensures UpdateAll(st, code, p, ms[..t + 1]) == UpdateSpec(UpdateAll(st, code, p, ms[..t]), code, Some(p), ms[t], Raw)
  {
    assert ms[..t + 1][..t] == ms[..t];
  }

  /** Whether one of the protocol's memories carries the name. */
  predicate Holds(p: Protocol, mems: seq<MemoryInfo>, target: string)
  {
    exists t :: 0 <= t < |p.memories| && p.memories[t] < |mems| && mems[p.memories[t]].name == target
  }

  /** The first running protocol, from index `i` on, that holds the named
      memory. */
  function FirstHolder(ps: seq<Protocol>, mems: seq<MemoryInfo>, target: string, i: nat): (r: Option<nat>)
    ensures r.Some? ==> i <= r.value < |ps| && Holds(ps[r.value], mems, target)
    ensures r.Some? ==> forall j :: i <= j < r.value ==> !Holds(ps[j], mems, target)
    ensures r.None? ==> forall j :: i <= j < |ps| ==> !Holds(ps[j], mems, target)
    decreases |ps| - i
  {
    if i >= |ps| then None
    else if Holds(ps[i], mems, target) then Some(i)
    else FirstHolder(ps, mems, target, i + 1)
  }

  /** The tear-down of a rejected protocol: it leaves its rule's
      protocols, each of its memories goes through the rejection loop,
      and it leaves the pending list. */
  function Rejected(st: RmState, code: RuleCode, p: Protocol): (r: RmState)
    requires Below(p.memories, |st.memories|)
  {
    var st1 := st.(ruleProtocols := st.ruleProtocols[p.rule := RemoveFirst(RuleProtocols(st, p.rule), p)]);
    var st2 := RejectAll(st1, code, p, p.memories);
    st2.(pending := RemoveFirst(st2.pending, p))
  }

  /** `received_message(src, msg)`. `ready` is what the protocol's
      `is_ready()` answers after `set_others`. The bool is true when the
      source raises: the matcher picked a protocol that is not waiting
      (ValueError from `remove`, after the approval went out), a rejected
      protocol is not among its rule's protocols (ValueError), or a
      protocol to release is not an entanglement protocol (AssertionError). */
  function ReceivedSpec(st: RmState, code: RuleCode, src: NodeName, msg: RmMessage, ready: bool): (RmState, bool)
    requires msg.Response? ==> Below(msg.ini.memories, |st.memories|)
  {
    match msg
    case Request(ini, matcher) =>
      (match matcher(st.waiting)
       case Some(q) =>
         var st1 := st.(effects := st.effects + [SetOthers(q, Some(ini))],
                        sent := st.sent + [Sent(src, Response(ini, true, Some(q)))]);
         if q in st.waiting then
           (st1.(waiting := RemoveFirst(st.waiting, q), running := st.running + [q],
                 effects := st1.effects + [Start(q)]), false)
         else (st1, true)
       case None =>
         (st.(sent := st.sent + [Sent(src, Response(ini, false, None))]), false))
    case Response(p, approved, paired) =>
      if p !in st.pending then
        (if approved then st.(sent := st.sent + [Sent(src, ReleaseProtocol(paired))]) else st, false)
      else if approved then
        var st1 := st.(effects := st.effects + [SetOthers(p, paired)]);
        if ready then
          (st1.(pending := RemoveFirst(st.pending, p), running := st.running + [p],
                effects := st1.effects + [Start(p)]), false)
        else (st1, false)
      else if p !in RuleProtocols(st, p.rule) then (st, true)
      else (Rejected(st, code, p), false)
    case ReleaseProtocol(q) =>
      if q.Some? && q.value in st.running then
        if q.value.kind == Entanglement then (st.(effects := st.effects + [Release(q.value)]), false)
        else (st, true)
      else (st, false)
    case ReleaseMemory(_, target) =>
      match FirstHolder(st.running, st.memories, target, 0)
      case Some(i) => (st.(effects := st.effects + [Release(st.running[i])]), false)
      case None => (st, false)
  }

  // ---------------------------------------------------------------------
  // Invariants of the protocol lists

  /** Whether the protocol sits in one of the three lists. */
  predicate InSome(st: RmState, p: Protocol)
  {
    p in st.waiting || p in st.pending || p in st.running
  }

  /** Every listed protocol was built before the counter's value. */
  ghost predicate Fresh(st: RmState)
  {
    forall q :: InSome(st, q) ==> q.ident < st.nextId
  }

  /** The lists are free of duplicates and hold only protocols already
      built. */
  ghost predicate Inv(st: RmState)
  {
    Fresh(st) && NoDup(st.waiting) && NoDup(st.pending) && NoDup(st.running)
  }

  /** Every pending protocol is among its rule's protocols. */
  ghost predicate Registered(st: RmState)
  {
    forall q :: q in st.pending ==> q in RuleProtocols(st, q.rule)
  }

  /** `ys` is `xs` followed by protocols named in `[lo, hi)`. */
  ghost predicate Appended(xs: seq<Protocol>, ys: seq<Protocol>, lo: nat, hi: nat)
  {
    && |xs| <= |ys| && ys[..|xs|] == xs
    && forall i :: |xs| <= i < |ys| ==> lo <= ys[i].ident < hi
  }

  /** `b` is `a` after some firings: the counter moved on, the running
      list and the rules are as they were, the waiting and pending lists
      and the outbox only grew at their ends, with protocols built in the
      meantime, each new pending protocol is among its rule's protocols,
      and no rule lost a protocol. */
  ghost predicate Grown(a: RmState, b: RmState)
  {
    && a.nextId <= b.nextId && b.rules == a.rules && b.running == a.running
    && |b.memories| == |a.memories|
    && Appended(a.waiting, b.waiting, a.nextId, b.nextId)
    && Appended(a.pending, b.pending, a.nextId, b.nextId)
    && (forall i :: |a.pending| <= i < |b.pending| ==> b.pending[i] in RuleProtocols(b, b.pending[i].rule))
    && (NoDup(a.pending) ==> NoDup(b.pending))
    && |a.sent| <= |b.sent| && b.sent[..|a.sent|] == a.sent
    && (forall k, q :: q in RuleProtocols(a, k) ==> q in RuleProtocols(b, k))
  }

  /** The protocols appended between `a` and `b` were built by rule `k`
      and are among its protocols. */
  ghost predicate MadeBy(a: RmState, b: RmState, k: nat)
  {
    && (forall i :: |a.waiting| <= i < |b.waiting| ==> b.waiting[i].rule == k && b.waiting[i] in RuleProtocols(b, k))
    && (forall i :: |a.pending| <= i < |b.pending| ==> b.pending[i].rule == k && b.pending[i] in RuleProtocols(b, k))
  }

  /** A list without the given protocol, if any. */
  function Without(ps: seq<Protocol>, p: Option<Protocol>): (r: seq<Protocol>)
  {
    if p.Some? then RemoveFirst(ps, p.value) else ps
  }

  lemma AppendedMembers(xs: seq<Protocol>, ys: seq<Protocol>, lo: nat, hi: nat)
    requires Appended(xs, ys, lo, hi)
    ensures forall x :: x in xs ==> x in ys
    ensures forall x :: x in ys ==> x in xs || lo <= x.ident < hi
    ensures ys == xs + ys[|xs|..]
  {
    assert ys == ys[..|xs|] + ys[|xs|..];
    forall x | x in ys ensures x in xs || lo <= x.ident < hi {
      var i :| 0 <= i < |ys| && ys[i] == x;
      if i < |xs| {
        assert ys[..|xs|][i] == x;
      }
    }
  }

  lemma AppendedTrans(xs: seq<Protocol>, ys: seq<Protocol>, zs: seq<Protocol>, lo: nat, mid: nat, hi: nat)
    requires lo <= mid <= hi && Appended(xs, ys, lo, mid) && Appended(ys, zs, mid, hi)
    ensures Appended(xs, zs, lo, hi)
  {
    assert zs[..|xs|] == zs[..|ys|][..|xs|];
    forall i | |xs| <= i < |zs| ensures lo <= zs[i].ident < hi {
      if i < |ys| {
        assert zs[i] == zs[..|ys|][i];
      }
    }
  }

  lemma GrownTrans(a: RmState, b: RmState, c: RmState)
    requires Grown(a, b) && Grown(b, c)
    ensures Grown(a, c)
  {
    AppendedTrans(a.waiting, b.waiting, c.waiting, a.nextId, b.nextId, c.nextId);
    AppendedTrans(a.pending, b.pending, c.pending, a.nextId, b.nextId, c.nextId);
    forall i | |a.pending| <= i < |c.pending| ensures c.pending[i] in RuleProtocols(c, c.pending[i].rule) {
      if i < |b.pending| {
        assert c.pending[i] == c.pending[..|b.pending|][i];
      }
    }
    assert c.sent[..|a.sent|] == c.sent[..|b.sent|][..|a.sent|];
  }

  /** Changing only memory records and the effect log is growth. */
  lemma GrownFrame(a: RmState, b: RmState)
    requires b.(memories := a.memories, effects := a.effects) == a && |b.memories| == |a.memories|
    ensures Grown(a, b)
  {
    assert b.waiting[..|a.waiting|] == a.waiting;
    assert b.pending[..|a.pending|] == a.pending;
    assert b.sent[..|a.sent|] == a.sent;
  }

  /** Growth keeps the protocols built before it where they were, and
      keeps the lists fresh and the pending protocols registered. */
  lemma GrownKeeps(a: RmState, b: RmState)
    requires Grown(a, b)
    ensures forall x: Protocol :: x.ident < a.nextId ==> (InSome(b, x) <==> InSome(a, x))
    ensures forall x :: InSome(a, x) ==> InSome(b, x)
    ensures forall x :: x in b.pending ==> x in a.pending || x in RuleProtocols(b, x.rule)
    ensures Fresh(a) ==> Fresh(b)
    ensures Registered(a) ==> Registered(b)
  {
    AppendedMembers(a.waiting, b.waiting, a.nextId, b.nextId);
    AppendedMembers(a.pending, b.pending, a.nextId, b.nextId);
    forall x | x in b.pending ensures x in a.pending || x in RuleProtocols(b, x.rule) {
      var i :| 0 <= i < |b.pending| && b.pending[i] == x;
      if i < |a.pending| {
        assert b.pending[..|a.pending|][i] == x;
      }
    }
  }

  /** Lists, counter and rule protocols decide the invariants. */
  lemma InvFrame(a: RmState, b: RmState)
    requires b.waiting == a.waiting && b.pending == a.pending && b.running == a.running && b.nextId == a.nextId
    ensures Fresh(a) ==> Fresh(b)
    ensures Inv(a) ==> Inv(b)
    ensures b.ruleProtocols == a.ruleProtocols && Registered(a) ==> Registered(b)
  {
    assert forall q :: InSome(b, q) == InSome(a, q);
  }

  lemma MadeByTrans(a: RmState, b: RmState, c: RmState, k: nat)
    requires Grown(a, b) && Grown(b, c) && MadeBy(a, b, k) && MadeBy(b, c, k)
    ensures MadeBy(a, c, k)
  {
    forall i | |a.waiting| <= i < |c.waiting| ensures c.waiting[i].rule == k && c.waiting[i] in RuleProtocols(c, k) {
      if i < |b.waiting| {
        assert c.waiting[i] == c.waiting[..|b.waiting|][i];
      }
    }
    forall i | |a.pending| <= i < |c.pending| ensures c.pending[i].rule == k && c.pending[i] in RuleProtocols(c, k) {
      if i < |b.pending| {
        assert c.pending[i] == c.pending[..|b.pending|][i];
      }
    }
  }

  lemma {:induction false} BeforeAll(xs: seq<Protocol>, n: nat)
    requires forall i :: 0 <= i < |xs| ==> xs[i].ident < n
    ensures Before(xs, n) == xs
    decreases |xs|
  {
    if xs != [] {
      BeforeAll(xs[..|xs| - 1], n);
      assert xs == xs[..|xs| - 1] + [xs[|xs| - 1]];
    }
  }

  lemma {:induction false} BeforeNone(xs: seq<Protocol>, n: nat)
    requires forall i :: 0 <= i < |xs| ==> n <= xs[i].ident
    ensures Before(xs, n) == []
    decreases |xs|
  {
    if xs != [] {
      BeforeNone(xs[..|xs| - 1], n);
    }
  }

  lemma {:induction false} BeforeConcat(xs: seq<Protocol>, ys: seq<Protocol>, n: nat)
    ensures Before(xs + ys, n) == Before(xs, n) + Before(ys, n)
    decreases |ys|
  {
    if ys != [] {
      var init := ys[..|ys| - 1];
      assert (xs + ys)[..|xs + ys| - 1] == xs + init;
      BeforeConcat(xs, init, n);
    } else {
      assert xs + ys == xs;
    }
  }

  /** Restricted to the protocols built before the growth, the grown list
      is the old one. */
  lemma BeforeAppended(xs: seq<Protocol>, ys: seq<Protocol>, lo: nat, hi: nat)
    requires Appended(xs, ys, lo, hi) && forall i :: 0 <= i < |xs| ==> xs[i].ident < lo
    ensures Before(ys, lo) == xs
  {
    AppendedMembers(xs, ys, lo, hi);
    var tail := ys[|xs|..];
    assert forall i :: 0 <= i < |tail| ==> tail[i] == ys[|xs| + i];
    BeforeConcat(xs, tail, lo);
    BeforeAll(xs, lo);
    BeforeNone(tail, lo);
  }

  lemma FreshIdents(st: RmState)
    requires Fresh(st)
    ensures forall i :: 0 <= i < |st.waiting| ==> st.waiting[i].ident < st.nextId
    ensures forall i :: 0 <= i < |st.pending| ==> st.pending[i].ident < st.nextId
    ensures forall i :: 0 <= i < |st.running| ==> st.running[i].ident < st.nextId
  {
    assert forall i :: 0 <= i < |st.waiting| ==> InSome(st, st.waiting[i]);
    assert forall i :: 0 <= i < |st.pending| ==> InSome(st, st.pending[i]);
    assert forall i :: 0 <= i < |st.running| ==> InSome(st, st.running[i]);
  }

  // ---------------------------------------------------------------------
  // Firings

  /** The requests of a firing append the protocol to the waiting list
      once per missing destination and to the pending list at most once,
      and send nothing but REQUESTs. */
  lemma {:induction false} SendAllAppends(st: RmState, p: Protocol, reqs: seq<(Option<NodeName>, Matcher)>)
    ensures var r := SendAll(st, p, reqs);
            && |r.waiting| == |st.waiting| + Waits(reqs) && r.waiting[..|st.waiting|] == st.waiting
            && (forall i :: |st.waiting| <= i < |r.waiting| ==> r.waiting[i] == p)
            && |st.pending| <= |r.pending| && r.pending[..|st.pending|] == st.pending
            && (forall i :: |st.pending| <= i < |r.pending| ==> r.pending[i] == p)
            && |st.sent| <= |r.sent| && r.sent[..|st.sent|] == st.sent
            && (NoDup(st.pending) ==> NoDup(r.pending))
            && (NoDup(st.waiting) && p !in st.waiting && Waits(reqs) <= 1 ==> NoDup(r.waiting))
    decreases |reqs|
  {
    if reqs == [] {
      assert st.waiting[..|st.waiting|] == st.waiting;
      assert st.pending[..|st.pending|] == st.pending;
      assert st.sent[..|st.sent|] == st.sent;
    } else {
      var init := reqs[..|reqs| - 1];
      SendAllAppends(st, p, init);
      var mid := SendAll(st, p, init);
      var (dst, matcher) := reqs[|reqs| - 1];
      var r := SendRequestSpec(mid, p, dst, matcher);
      assert r == SendAll(st, p, reqs);
      if dst.None? {
        assert r.waiting[..|st.waiting|] == mid.waiting[..|st.waiting|];
        if NoDup(st.waiting) && p !in st.waiting && Waits(reqs) <= 1 {
          assert mid.waiting == mid.waiting[..|st.waiting|];
          NoDupSnoc(st.waiting, p);
        }
      } else {
        assert r.sent[..|st.sent|] == mid.sent[..|st.sent|];
        if p !in mid.pending {
          assert r.pending[..|st.pending|] == mid.pending[..|st.pending|];
          if NoDup(st.pending) {
            NoDupSnoc(mid.pending, p);
          }
        }
      }
    }
  }

  /** A firing is growth by one protocol built by the firing rule, and
      keeps the invariant when the action waits at most once. */
  lemma DoRuleKeeps(st: RmState, code: RuleCode, rule: Rule, sel: seq<nat>)
    ensures var r := DoSpec(st, code, rule, sel);
            && Grown(st, r) && MadeBy(st, r, rule.ident)
            && (Inv(st) && WaitsOnce(code) ==> Inv(r))
  {
    var p := NewProtocol(st, code, rule, sel);
    var reqs := code.action(rule, sel, st.memories).requests;
    var st1 := st.(nextId := st.nextId + 1, effects := st.effects + [RuleDo(rule, sel)],
                   ruleProtocols := st.ruleProtocols[rule.ident := RuleProtocols(st, rule.ident) + [p]]);
    var r := SendAll(st1, p, reqs);
    assert r == DoSpec(st, code, rule, sel);
    SendAllAppends(st1, p, reqs);
    assert RuleProtocols(r, rule.ident) == RuleProtocols(st, rule.ident) + [p];
    forall k, q | q in RuleProtocols(st, k) ensures q in RuleProtocols(r, k) {
      if k != rule.ident {
        assert RuleProtocols(r, k) == RuleProtocols(st, k);
      }
    }
    assert Grown(st, r);
    if Inv(st) && WaitsOnce(code) {
      assert Waits(reqs) <= 1;
      assert !InSome(st, p);
      GrownKeeps(st, r);
    }
  }

  /** A firing registers the protocol it builds under its rule; the
      only protocol it can make pending is that one, so pending protocols
      stay registered and a later rejected RESPONSE for it finds it among
      its rule's protocols. */
  lemma FiringRegisters(st: RmState, code: RuleCode, rule: Rule, sel: seq<nat>)
    ensures var r := DoSpec(st, code, rule, sel);
            var p := NewProtocol(st, code, rule, sel);
            && p.rule == rule.ident && p.ident == st.nextId
            && RuleProtocols(r, rule.ident) == RuleProtocols(st, rule.ident) + [p]
            && (forall q :: q in r.pending ==> q in st.pending || q == p)
            && (forall q :: q in r.waiting ==> q in st.waiting || q == p)
            && (Registered(st) ==> Registered(r))
  {
    var p := NewProtocol(st, code, rule, sel);
    var reqs := code.action(rule, sel, st.memories).requests;
    var st1 := st.(nextId := st.nextId + 1, effects := st.effects + [RuleDo(rule, sel)],
                   ruleProtocols := st.ruleProtocols[rule.ident := RuleProtocols(st, rule.ident) + [p]]);
    var r := SendAll(st1, p, reqs);
    assert r == DoSpec(st, code, rule, sel);
    SendAllAppends(st1, p, reqs);
    assert r.ruleProtocols == st1.ruleProtocols;
    forall q | q in r.pending ensures q in st.pending || q == p {
      var i :| 0 <= i < |r.pending| && r.pending[i] == q;
      if i < |st.pending| {
        assert r.pending[..|st.pending|][i] == q;
      }
    }
    forall q | q in r.waiting ensures q in st.waiting || q == p {
      var i :| 0 <= i < |r.waiting| && r.waiting[i] == q;
      if i < |st.waiting| {
        assert r.waiting[..|st.waiting|][i] == q;
      }
    }
    if Registered(st) {
      forall q | q in r.pending ensures q in RuleProtocols(r, q.rule) {
        if q != p {
          assert q in RuleProtocols(st, q.rule);
          if q.rule == rule.ident {
            assert RuleProtocols(r, q.rule) == RuleProtocols(st, q.rule) + [p];
          } else {
            assert RuleProtocols(r, q.rule) == RuleProtocols(st, q.rule);
          }
        }
      }
    }
  }

  /** A protocol a firing made pending is torn down, not raised on, when
      its request is rejected: the rejected RESPONSE finds it among its
      rule's protocols and it leaves the pending list. */
  lemma RejectAfterFiring(st: RmState, code: RuleCode, rule: Rule, sel: seq<nat>,
                          src: NodeName, paired: Option<Protocol>, ready: bool)
    requires Registered(st) && NoDup(st.pending)
    requires Below(NewProtocol(st, code, rule, sel).memories, |st.memories|)
    requires NewProtocol(st, code, rule, sel) in DoSpec(st, code, rule, sel).pending
    ensures var p := NewProtocol(st, code, rule, sel);
            var res := ReceivedSpec(DoSpec(st, code, rule, sel), code, src, Response(p, false, paired), ready);
            !res.1 && p !in res.0.pending
  {
    var p := NewProtocol(st, code, rule, sel);
    var reqs := code.action(rule, sel, st.memories).requests;
    var st1 := st.(nextId := st.nextId + 1, effects := st.effects + [RuleDo(rule, sel)],
                   ruleProtocols := st.ruleProtocols[rule.ident := RuleProtocols(st, rule.ident) + [p]]);
    var r := DoSpec(st, code, rule, sel);
    assert r == SendAll(st1, p, reqs);
    SendAllAppends(st1, p, reqs);
    FiringRegisters(st, code, rule, sel);
    RejectionTearsDown(r, code, src, Response(p, false, paired), ready);
  }

  /** The rule-checking tail of `update` is growth and keeps the
      invariant. */
  lemma FireKeeps(st: RmState, code: RuleCode, m: nat)
    requires m < |st.memories|
    ensures var r := Fire(st, code, m);
            Grown(st, r) && (Inv(st) && WaitsOnce(code) ==> Inv(r))
  {
    var r := Fire(st, code, m);
    var info := st.memories[m];
    match FirstFiring(st.rules, code.isValid, info, st.memories, 0)
    case Some(k) =>
      var sel := code.isValid(st.rules[k], info, st.memories);
      var st1 := DoSpec(st, code, st.rules[k], sel);
      DoRuleKeeps(st, code, st.rules[k], sel);
      GrownFrame(st1, r);
      GrownTrans(st, st1, r);
      InvFrame(st1, r);
    case None =>
      GrownFrame(st, r);
      InvFrame(st, r);
  }

  // ---------------------------------------------------------------------
  // Properties of the specification functions

  /** `update` fires at most one rule: after the optional detach exactly
      one entry is logged; it is `rule.do` of the first rule that claims
      memories, whose claims become occupied, or the idle-memory hook when
      no rule fires. The memory keeps the new state unless the firing rule
      claims it. */
  lemma UpdateFiresAtMostOnce(st: RmState, code: RuleCode, p: Option<Protocol>, m: nat, s: MemState)
    requires m < |st.memories|
    ensures var r := UpdateSpec(st, code, p, m, s);
            var cond := code.isValid;
            var pre := st.effects + (if p.Some? then [Detach(m, p.value)] else []);
            var mems := st.memories[m := Recorded(st.memories[m], s)];
            && |r.effects| == |pre| + 1 && r.effects[..|pre|] == pre
            && (r.effects[|pre|].RuleDo? <==> exists k :: 0 <= k < |st.rules| && |cond(st.rules[k], mems[m], mems)| > 0)
            && (r.effects[|pre|].RuleDo? ==>
                  exists k :: 0 <= k < |st.rules| && r.effects[|pre|] == RuleDo(st.rules[k], cond(st.rules[k], mems[m], mems))
                              && |cond(st.rules[k], mems[m], mems)| > 0
                              && (forall j :: 0 <= j < k ==> |cond(st.rules[j], mems[m], mems)| == 0)
                              && r.memories == Occupy(mems, r.effects[|pre|].selected))
            && (!r.effects[|pre|].RuleDo? ==> r.effects[|pre|] == IdleMemory(m) && r.memories == mems)
            && (r.memories[m].state == s || (r.effects[|pre|].RuleDo? && m in r.effects[|pre|].selected))
  {
    var cond := code.isValid;
    var r := UpdateSpec(st, code, p, m, s);
    var pre := st.effects + (if p.Some? then [Detach(m, p.value)] else []);
    var mems := st.memories[m := Recorded(st.memories[m], s)];
    var st2 := Unbound(st, p, m, s);
    assert st2.effects == pre && st2.memories == mems && st2.rules == st.rules;
    var f := FirstFiring(st.rules, cond, mems[m], mems, 0);
    if f.Some? {
      assert r.effects == pre + [RuleDo(st.rules[f.value], cond(st.rules[f.value], mems[m], mems))];
    } else {
      assert r.effects == pre + [IdleMemory(m)];
    }
    assert r.effects[..|pre|] == pre;
  }

  /** Unbinding takes the protocol, and only it, out of the lists, and
      keeps the pending protocols registered. */
  lemma UnbindKeeps(st: RmState, q: Protocol, m: nat)
    ensures var r := Unbind(st, q, m);
            && (forall x :: x != q ==> (InSome(r, x) <==> InSome(st, x)))
            && (forall x :: InSome(r, x) ==> InSome(st, x))
            && (Inv(st) ==> Inv(r) && !InSome(r, q))
            && (NoDup(st.pending) && Registered(st) ==> Registered(r))
  {
    var r := Unbind(st, q, m);
    RemoveFirstMembers(st.waiting, q);
    RemoveFirstMembers(st.pending, q);
    RemoveFirstMembers(st.running, q);
    if Inv(st) {
      RemoveFirstNoDup(st.waiting, q);
      RemoveFirstNoDup(st.pending, q);
      RemoveFirstNoDup(st.running, q);
    }
    if NoDup(st.pending) && Registered(st) {
      RemoveFirstNoDup(st.pending, q);
      RemoveFirstMembers(RuleProtocols(st, q.rule), q);
      forall x | x in r.pending ensures x in RuleProtocols(r, x.rule) {
        assert x != q && x in st.pending;
      }
    }
  }

  /** The first part of `update` keeps the invariants, takes the protocol
      out of every list and leaves the other protocols where they were. */
  lemma UnboundKeeps(st: RmState, p: Option<Protocol>, m: nat, s: MemState)
    requires m < |st.memories|
    ensures var r := Unbound(st, p, m, s);
            && r.waiting == Without(st.waiting, p) && r.pending == Without(st.pending, p)
            && r.running == Without(st.running, p)
            && (forall x :: (Some(x) != p ==> (InSome(r, x) <==> InSome(st, x))) && (InSome(r, x) ==> InSome(st, x)))
            && (Inv(st) ==> Inv(r) && (p.Some? ==> !InSome(r, p.value)))
            && (NoDup(st.pending) && Registered(st) ==> Registered(r))
  {
    var st1 := st.(memories := st.memories[m := Recorded(st.memories[m], s)]);
    InvFrame(st, st1);
    if p.Some? {
      UnbindKeeps(st1, p.value, m);
    }
  }

  /** `update` keeps the invariant and the registration of pending
      protocols; among the protocols built before it, it takes exactly
      the given protocol out of the lists and changes nothing else, and
      the running list is the old one without that protocol. */
  lemma UpdateUnbinds(st: RmState, code: RuleCode, p: Option<Protocol>, m: nat, s: MemState)
    requires m < |st.memories| && Inv(st) && WaitsOnce(code)
    ensures var r := UpdateSpec(st, code, p, m, s);
            && Inv(r) && st.nextId <= r.nextId
            && r.running == Without(st.running, p)
            && Before(r.waiting, st.nextId) == Without(st.waiting, p)
            && Before(r.pending, st.nextId) == Without(st.pending, p)
            && (forall x: Protocol :: x.ident < st.nextId ==> (InSome(r, x) <==> InSome(st, x) && Some(x) != p))
            && (Registered(st) ==> Registered(r))
  {
    var st2 := Unbound(st, p, m, s);
    var r := UpdateSpec(st, code, p, m, s);
    UnboundKeeps(st, p, m, s);
    FireKeeps(st2, code, m);
    GrownKeeps(st2, r);
    FreshIdents(st2);
    BeforeAppended(st2.waiting, r.waiting, st2.nextId, r.nextId);
    BeforeAppended(st2.pending, r.pending, st2.nextId, r.nextId);
  }

  /** `load` only ever occupies: a memory keeps its record unless it
      becomes occupied. */
  lemma {:induction false} LoadOnlyOccupies(st: RmState, code: RuleCode, rule: Rule, n: nat)
    requires n <= |st.memories|
    ensures var r := LoadSteps(st, code, rule, n);
            forall m :: 0 <= m < |st.memories| ==> r.memories[m] == st.memories[m] || r.memories[m].state == Occupied
  {
    if n > 0 {
      LoadOnlyOccupies(st, code, rule, n - 1);
    }
  }

  /** One step of `load` keeps an occupied memory occupied. */
  lemma LoadStepKeepsOccupied(st: RmState, code: RuleCode, rule: Rule, n: nat, m: nat)
    requires 0 < n <= |st.memories| && m < |st.memories|
    requires LoadSteps(st, code, rule, n - 1).memories[m].state == Occupied
    ensures LoadSteps(st, code, rule, n).memories[m].state == Occupied
  {
    var prev := LoadSteps(st, code, rule, n - 1);
    var sel := code.isValid(rule, prev.memories[n - 1], prev.memories);
    if |sel| > 0 {
      OccupyAt(prev.memories, sel, m);
    }
  }

  /** An occupied memory stays occupied through the later steps of `load`. */
  lemma {:induction false} LoadKeepsOccupied(st: RmState, code: RuleCode, rule: Rule, i: nat, n: nat, m: nat)
    requires i <= n <= |st.memories| && m < |st.memories|
    requires LoadSteps(st, code, rule, i).memories[m].state == Occupied
    ensures LoadSteps(st, code, rule, n).memories[m].state == Occupied
    decreases n - i
  {
    if i < n {
      LoadKeepsOccupied(st, code, rule, i, n - 1, m);
      LoadStepKeepsOccupied(st, code, rule, n, m);
    }
  }

  /** The claims of `load` stick: a memory the rule claims when it is
      offered some memory is occupied at the end. */
  lemma LoadClaimsStick(st: RmState, code: RuleCode, rule: Rule, i: nat, m: nat)
    requires i < |st.memories| && m < |st.memories| && m in LoadClaim(st, code, rule, i)
    ensures LoadSteps(st, code, rule, |st.memories|).memories[m].state == Occupied
  {
    LoadKeepsOccupied(st, code, rule, i + 1, |st.memories|, m);
  }

  /** One step of `load` is growth by protocols of the new rule. */
  lemma LoadStepGrows(prev: RmState, code: RuleCode, rule: Rule, i: nat)
    requires i < |prev.memories|
    ensures var r := LoadStep(prev, code, rule, i);
            Grown(prev, r) && MadeBy(prev, r, rule.ident) && (Inv(prev) && WaitsOnce(code) ==> Inv(r))
  {
    var r := LoadStep(prev, code, rule, i);
    var sel := code.isValid(rule, prev.memories[i], prev.memories);
    if |sel| > 0 {
      var st1 := DoSpec(prev, code, rule, sel);
      DoRuleKeeps(prev, code, rule, sel);
      GrownFrame(st1, r);
      GrownTrans(prev, st1, r);
      InvFrame(st1, r);
    } else {
      GrownFrame(prev, r);
    }
  }

  /** The steps of `load` are growth by protocols of the new rule. */
  lemma {:induction false} LoadStepsGrow(st: RmState, code: RuleCode, rule: Rule, n: nat)
    requires n <= |st.memories|
    ensures var r := LoadSteps(st, code, rule, n);
            Grown(st, r) && MadeBy(st, r, rule.ident)
  {
    if n == 0 {
      GrownFrame(st, st);
    } else {
      var prev := LoadSteps(st, code, rule, n - 1);
      var r := LoadSteps(st, code, rule, n);
      assert r == LoadStep(prev, code, rule, n - 1);
      LoadStepsGrow(st, code, rule, n - 1);
      LoadStepGrows(prev, code, rule, n - 1);
      GrowStep(st, prev, r, rule.ident);
    }
  }

  lemma GrowStep(a: RmState, b: RmState, c: RmState, k: nat)
    requires Grown(a, b) && MadeBy(a, b, k) && Grown(b, c) && MadeBy(b, c, k)
    ensures Grown(a, c) && MadeBy(a, c, k)
  {
    MadeByTrans(a, b, c, k);
    GrownTrans(a, b, c);
  }

  /** The steps of `load` keep the invariant. */
  lemma {:induction false} LoadStepsKeepInv(st: RmState, code: RuleCode, rule: Rule, n: nat)
    requires n <= |st.memories| && Inv(st) && WaitsOnce(code)
    ensures Inv(LoadSteps(st, code, rule, n))
  {
    if n > 0 {
      var prev := LoadSteps(st, code, rule, n - 1);
      assert LoadSteps(st, code, rule, n) == LoadStep(prev, code, rule, n - 1);
      LoadStepsKeepInv(st, code, rule, n - 1);
      LoadStepGrows(prev, code, rule, n - 1);
    }
  }

  /** `load` keeps the rule at `pos` and leaves the running list alone;
      the waiting and pending lists and the outbox only grow at their
      ends, with protocols the new rule built and registered, and the
      invariants are kept. */
  lemma LoadFrames(st: RmState, code: RuleCode, rule: Rule, pos: nat)
    requires pos <= |st.rules|
    ensures var r := LoadSpec(st, code, rule, pos);
            && |r.rules| == |st.rules| + 1 && r.rules[pos] == rule
            && r.rules[..pos] == st.rules[..pos] && r.rules[pos + 1..] == st.rules[pos..]
            && r.running == st.running && |r.memories| == |st.memories| && st.nextId <= r.nextId
            && Appended(st.waiting, r.waiting, st.nextId, r.nextId)
            && Appended(st.pending, r.pending, st.nextId, r.nextId)
            && |st.sent| <= |r.sent| && r.sent[..|st.sent|] == st.sent
            && MadeBy(st, r, rule.ident)
            && (Inv(st) && WaitsOnce(code) ==> Inv(r))
            && (Registered(st) ==> Registered(r))
  {
    var rules := st.rules[..pos] + [rule] + st.rules[pos..];
    var st' := st.(rules := rules);
    LoadStepsGrow(st', code, rule, |st.memories|);
    InvFrame(st, st');
    if Inv(st) && WaitsOnce(code) {
      LoadStepsKeepInv(st', code, rule, |st.memories|);
    }
    GrownKeeps(st', LoadSpec(st, code, rule, pos));
    assert rules[..pos] == st.rules[..pos];
    assert rules[pos + 1..] == st.rules[pos..];
  }

  /** `send_request` keeps the pending list free of duplicates and leaves
      the protocol either waiting (no destination, nothing sent) or
      pending with exactly one REQUEST sent; a built and registered
      protocol keeps the lists fresh and registered. */
  lemma SendRequestPendsOnce(st: RmState, p: Protocol, dst: Option<NodeName>, matcher: Matcher)
    requires NoDup(st.pending)
    ensures var r := SendRequestSpec(st, p, dst, matcher);
            && NoDup(r.pending)
            && (dst.None? ==> r.waiting == st.waiting + [p] && r.pending == st.pending && r.sent == st.sent)
            && (dst.Some? ==> p in r.pending && r.waiting == st.waiting
                              && r.sent == st.sent + [Sent(dst.value, Request(p, matcher))]
                              && (forall q :: q in r.pending <==> q in st.pending || q == p))
            && (Fresh(st) && p.ident < st.nextId ==> Fresh(r))
            && (Registered(st) && p in RuleProtocols(st, p.rule) ==> Registered(r))
  {
    if dst.Some? && p !in st.pending {
      NoDupSnoc(st.pending, p);
    }
  }

  /** A REQUEST approves the protocol its matcher picks: a waiting one
      moves from waiting to running; with none picked the request is
      refused and no list changes. */
  lemma RequestConserves(st: RmState, code: RuleCode, src: NodeName, msg: RmMessage, ready: bool)
    requires msg.Request?
    ensures var res := ReceivedSpec(st, code, src, msg, ready);
            var r := res.0;
            var q := msg.matcher(st.waiting);
            && Tracked(r) == Tracked(st) && r.nextId == st.nextId && r.ruleProtocols == st.ruleProtocols
            && (q.Some? ==> r.sent == st.sent + [Sent(src, Response(msg.ini, true, q))])
            && (q.Some? && q.value in st.waiting ==>
                  && !res.1 && r.waiting == RemoveFirst(st.waiting, q.value)
                  && r.pending == st.pending && r.running == st.running + [q.value])
            && (q.Some? && q.value !in st.waiting ==>
                  res.1 && r.waiting == st.waiting && r.pending == st.pending && r.running == st.running)
            && (q.None? ==>
                  && !res.1 && r.waiting == st.waiting && r.pending == st.pending && r.running == st.running
                  && r.sent == st.sent + [Sent(src, Response(msg.ini, false, None))])
  {
    var q := msg.matcher(st.waiting);
    if q.Some? && q.value in st.waiting {
      RemoveFirstMultiset(st.waiting, q.value);
    }
  }

  /** A RESPONSE for a protocol that is not pending changes no list and
      answers an approval with a release of the partner; an approval of a
      pending protocol moves it from pending to running when it is ready
      and changes no list otherwise. */
  lemma ResponseConserves(st: RmState, code: RuleCode, src: NodeName, msg: RmMessage, ready: bool)
    requires msg.Response? && Below(msg.ini.memories, |st.memories|)
    ensures var res := ReceivedSpec(st, code, src, msg, ready);
            var r := res.0;
            var p := msg.ini;
            && (p !in st.pending ==>
                  && !res.1 && r.waiting == st.waiting && r.pending == st.pending && r.running == st.running
                  && r.sent == st.sent + (if msg.approved then [Sent(src, ReleaseProtocol(msg.paired))] else []))
            && (p in st.pending && msg.approved ==>
                  && !res.1 && r.waiting == st.waiting && r.sent == st.sent && Tracked(r) == Tracked(st)
                  && (if ready then r.pending == RemoveFirst(st.pending, p) && r.running == st.running + [p]
                      else r.pending == st.pending && r.running == st.running))
  {
    var p := msg.ini;
    if p in st.pending && msg.approved && ready {
      RemoveFirstMultiset(st.pending, p);
    }
  }

  /** The protocol lists after the tear-down of a rejected protocol. */
  lemma RejectedLists(st: RmState, code: RuleCode, p: Protocol)
    requires Below(p.memories, |st.memories|)
    ensures var r := Rejected(st, code, p);
            && r.running == st.running
            && (NoDup(st.pending) ==> NoDup(r.pending) && p !in r.pending)
            && (Fresh(st) && p in st.pending ==>
                  Before(r.waiting, st.nextId) == st.waiting && Before(r.pending, st.nextId) == RemoveFirst(st.pending, p))
  {
    var st1 := st.(ruleProtocols := st.ruleProtocols[p.rule := RemoveFirst(RuleProtocols(st, p.rule), p)]);
    var st2 := RejectAll(st1, code, p, p.memories);
    RejectAllGrows(st1, code, p, p.memories);
    if NoDup(st.pending) {
      RemoveFirstNoDup(st2.pending, p);
    }
    if Fresh(st) && p in st.pending {
      FreshIdents(st);
      BeforeAppended(st.waiting, st2.waiting, st.nextId, st2.nextId);
      DropAppended(st.pending, st2.pending, p, st.nextId, st2.nextId);
    }
  }

  /** The tear-down of a rejected protocol lists no protocol not yet
      built. */
  lemma RejectedFresh(st: RmState, code: RuleCode, p: Protocol)
    requires Below(p.memories, |st.memories|) && Fresh(st)
    ensures Fresh(Rejected(st, code, p))
  {
    var st1 := st.(ruleProtocols := st.ruleProtocols[p.rule := RemoveFirst(RuleProtocols(st, p.rule), p)]);
    var st2 := RejectAll(st1, code, p, p.memories);
    var r := Rejected(st, code, p);
    InvFrame(st, st1);
    RejectAllGrows(st1, code, p, p.memories);
    GrownKeeps(st1, st2);
    RemoveFirstMembers(st2.pending, p);
    assert forall x :: InSome(r, x) ==> InSome(st2, x);
  }

  /** With no duplicate pending protocol, the tear-down of a rejected
      protocol keeps every pending protocol among its rule's protocols. */
  lemma RejectedRegistered(st: RmState, code: RuleCode, p: Protocol)
    requires Below(p.memories, |st.memories|) && Registered(st) && NoDup(st.pending)
    ensures Registered(Rejected(st, code, p))
  {
    var st1 := st.(ruleProtocols := st.ruleProtocols[p.rule := RemoveFirst(RuleProtocols(st, p.rule), p)]);
    var st2 := RejectAll(st1, code, p, p.memories);
    var r := Rejected(st, code, p);
    RejectAllGrows(st1, code, p, p.memories);
    GrownKeeps(st1, st2);
    RemoveFirstNoDup(st2.pending, p);
    RemoveFirstMembers(RuleProtocols(st, p.rule), p);
    forall x | x in r.pending ensures x in RuleProtocols(r, x.rule) {
      assert x != p && x in st2.pending;
      if x in st1.pending {
        assert x in RuleProtocols(st1, x.rule);
      }
    }
  }

  /** A rejected RESPONSE for a pending protocol tears it down. It raises
      exactly when the protocol is not among its rule's protocols, which
      cannot happen while every pending protocol is registered. Otherwise
      the protocol is no longer pending, the running list is unchanged
      and, among the protocols built before, the waiting list is the old
      one and the pending list the old one without the protocol. */
  lemma RejectionTearsDown(st: RmState, code: RuleCode, src: NodeName, msg: RmMessage, ready: bool)
    requires msg.Response? && !msg.approved && msg.ini in st.pending && Below(msg.ini.memories, |st.memories|)
    ensures var res := ReceivedSpec(st, code, src, msg, ready);
            var r := res.0;
            var p := msg.ini;
            && (res.1 <==> p !in RuleProtocols(st, p.rule))
            && (Registered(st) ==> !res.1)
            && (res.1 ==> r == st)
            && (!res.1 ==>
                  && r.running == st.running
                  && (NoDup(st.pending) ==> p !in r.pending)
                  && (Fresh(st) ==> Before(r.waiting, st.nextId) == st.waiting
                                    && Before(r.pending, st.nextId) == RemoveFirst(st.pending, p)))
  {
    RejectedLists(st, code, msg.ini);
  }

  /** Dropping an old protocol from a grown list and restricting to the
      old protocols gives the old list without it. */
  lemma DropAppended(xs: seq<Protocol>, ys: seq<Protocol>, p: Protocol, lo: nat, hi: nat)
    requires p in xs && Appended(xs, ys, lo, hi) && forall i :: 0 <= i < |xs| ==> xs[i].ident < lo
    ensures Before(RemoveFirst(ys, p), lo) == RemoveFirst(xs, p)
  {
    var tail := ys[|xs|..];
    assert ys == xs + tail by { assert ys == ys[..|xs|] + tail; }
    RemoveFirstAppend(xs, tail, p);
    var left := RemoveFirst(xs, p);
    assert forall i :: 0 <= i < |left| ==> left[i].ident < lo by {
      RemoveFirstMembers(xs, p);
      forall i | 0 <= i < |left| ensures left[i].ident < lo {
        assert left[i] in xs;
        var j :| 0 <= j < |xs| && xs[j] == left[i];
      }
    }
    assert forall i :: 0 <= i < |tail| ==> lo <= tail[i].ident by {
      forall i | 0 <= i < |tail| ensures lo <= tail[i].ident {
        assert tail[i] == ys[|xs| + i];
      }
    }
    BeforeConcat(left, tail, lo);
    BeforeAll(left, lo);
    BeforeNone(tail, lo);
  }

  /** The rejection loop is growth and keeps the invariant. */
  lemma {:induction false} RejectAllGrows(st: RmState, code: RuleCode, p: Protocol, ms: seq<nat>)
    requires Below(ms, |st.memories|)
    ensures var r := RejectAll(st, code, p, ms);
            Grown(st, r) && (Inv(st) && WaitsOnce(code) ==> Inv(r))
  {
    if ms == [] {
      GrownFrame(st, st);
    } else {
      var init := ms[..|ms| - 1];
      var m := ms[|ms| - 1];
      RejectAllGrows(st, code, p, init);
      var mid := RejectAll(st, code, p, init);
      var st1 := mid.(effects := mid.effects + [Detach(m, p)]);
      var s := RejectState(st1.memories[m]);
      var st2 := Unbound(st1, None, m, s);
      GrownFrame(mid, st2);
      InvFrame(mid, st2);
      FireKeeps(st2, code, m);
      GrownTrans(mid, st2, RejectAll(st, code, p, ms));
      GrownTrans(st, mid, RejectAll(st, code, p, ms));
    }
  }

  /** Between them: with fresh lists, a message never loses a protocol,
      except that a rejection drops the rejected pending protocol and may
      add protocols built by the firings it causes. */
  lemma ReceivedConserves(st: RmState, code: RuleCode, src: NodeName, msg: RmMessage, ready: bool)
    requires msg.Response? ==> Below(msg.ini.memories, |st.memories|)
    ensures var r := ReceivedSpec(st, code, src, msg, ready).0;
            Fresh(st) ==>
              if msg.Response? && !msg.approved && msg.ini in st.pending && msg.ini in RuleProtocols(st, msg.ini.rule)
              then TrackedBefore(r, st.nextId) + multiset{msg.ini} == Tracked(st)
              else Tracked(r) == Tracked(st)
  {
    if msg.Request? {
      RequestConserves(st, code, src, msg, ready);
    } else if msg.Response? {
      var p := msg.ini;
      if p in st.pending && !msg.approved && p in RuleProtocols(st, p.rule) {
        if Fresh(st) {
          RejectedCount(st, code, p);
        }
      } else if p in st.pending && !msg.approved {
      } else {
        ResponseConserves(st, code, src, msg, ready);
      }
    }
  }

  /** Counted among the protocols built before, the tear-down loses
      exactly the rejected protocol. */
  lemma RejectedCount(st: RmState, code: RuleCode, p: Protocol)
    requires Below(p.memories, |st.memories|) && Fresh(st) && p in st.pending
    ensures TrackedBefore(Rejected(st, code, p), st.nextId) + multiset{p} == Tracked(st)
  {
    RejectedLists(st, code, p);
    var r := Rejected(st, code, p);
    FreshIdents(st);
    BeforeAll(st.running, st.nextId);
    CountDropped(st, Before(r.waiting, st.nextId), Before(r.pending, st.nextId), Before(r.running, st.nextId), p);
  }

  lemma CountDropped(st: RmState, w: seq<Protocol>, q: seq<Protocol>, u: seq<Protocol>, p: Protocol)
    requires p in st.pending && w == st.waiting && q == RemoveFirst(st.pending, p) && u == st.running
    ensures multiset(w) + multiset(q) + multiset(u) + multiset{p} == Tracked(st)
  {
    RemoveFirstMultiset(st.pending, p);
  }

  /** No message makes a protocol pending twice. */
  lemma ReceivedKeepsPendingNoDup(st: RmState, code: RuleCode, src: NodeName, msg: RmMessage, ready: bool)
    requires msg.Response? ==> Below(msg.ini.memories, |st.memories|)
    requires NoDup(st.pending)
    ensures NoDup(ReceivedSpec(st, code, src, msg, ready).0.pending)
  {
    if msg.Response? {
      RemoveFirstNoDup(st.pending, msg.ini);
      RejectedLists(st, code, msg.ini);
    }
  }

  /** No message lists a protocol not yet built. */
  lemma ReceivedKeepsFresh(st: RmState, code: RuleCode, src: NodeName, msg: RmMessage, ready: bool)
    requires msg.Response? ==> Below(msg.ini.memories, |st.memories|)
    requires Fresh(st)
    ensures Fresh(ReceivedSpec(st, code, src, msg, ready).0)
  {
    var r := ReceivedSpec(st, code, src, msg, ready).0;
    match msg
    case Request(ini, matcher) =>
      var q := matcher(st.waiting);
      if q.Some? && q.value in st.waiting {
        RemoveFirstMembers(st.waiting, q.value);
        assert forall x :: InSome(r, x) ==> InSome(st, x);
      } else {
        InvFrame(st, r);
      }
    case Response(p, approved, paired) =>
      if p in st.pending && approved && ready {
        RemoveFirstMembers(st.pending, p);
        assert forall x :: InSome(r, x) ==> InSome(st, x);
      } else if p in st.pending && !approved && p in RuleProtocols(st, p.rule) {
        RejectedFresh(st, code, p);
      } else {
        InvFrame(st, r);
      }
    case ReleaseProtocol(_) =>
      InvFrame(st, r);
    case ReleaseMemory(_, _) =>
      InvFrame(st, r);
  }

  /** With no duplicate pending protocol, no message takes a pending
      protocol out of its rule's protocols. */
  lemma ReceivedKeepsRegistered(st: RmState, code: RuleCode, src: NodeName, msg: RmMessage, ready: bool)
    requires msg.Response? ==> Below(msg.ini.memories, |st.memories|)
    requires Registered(st) && NoDup(st.pending)
    ensures Registered(ReceivedSpec(st, code, src, msg, ready).0)
  {
    if msg.Response? {
      var p := msg.ini;
      if p in st.pending && msg.approved && ready {
        RemoveFirstMembers(st.pending, p);
      } else if p in st.pending && !msg.approved && p in RuleProtocols(st, p.rule) {
        RejectedRegistered(st, code, p);
      }
    }
  }

  /** Every other protocol built before an update keeps its place in the
      lists, and no protocol built before joins them. */
  lemma UpdateKeepsOthers(st: RmState, code: RuleCode, p: Protocol, m: nat, s: MemState)
    requires m < |st.memories|
    ensures var r := UpdateSpec(st, code, Some(p), m, s);
            forall x: Protocol :: x.ident < st.nextId ==>
              (x != p ==> (InSome(r, x) <==> InSome(st, x))) && (InSome(r, x) ==> InSome(st, x))
  {
    var st2 := Unbound(st, Some(p), m, s);
    UnboundKeeps(st, Some(p), m, s);
    FireKeeps(st2, code, m);
    GrownKeeps(st2, UpdateSpec(st, code, Some(p), m, s));
  }

  lemma {:induction false} UpdateAllKeepsOthers(st: RmState, code: RuleCode, p: Protocol, ms: seq<nat>)
    requires Below(ms, |st.memories|)
    ensures var r := UpdateAll(st, code, p, ms);
            forall x: Protocol :: x.ident < st.nextId ==>
              (x != p ==> (InSome(r, x) <==> InSome(st, x))) && (InSome(r, x) ==> InSome(st, x))
  {
    if ms != [] {
      UpdateAllKeepsOthers(st, code, p, ms[..|ms| - 1]);
      UpdateKeepsOthers(UpdateAll(st, code, p, ms[..|ms| - 1]), code, p, ms[|ms| - 1], Raw);
    }
  }

  /** Updating the memories of an expired protocol keeps the invariant
      and the registration of pending protocols, and leaves the protocol,
      if it was built before, in no list. */
  lemma {:induction false} UpdateAllUnbinds(st: RmState, code: RuleCode, p: Protocol, ms: seq<nat>)
    requires Below(ms, |st.memories|) && Inv(st) && WaitsOnce(code)
    ensures var r := UpdateAll(st, code, p, ms);
            && Inv(r)
            && (Registered(st) ==> Registered(r))
            && (ms != [] && p.ident < st.nextId ==> !InSome(r, p))
  {
    if ms != [] {
      var init := ms[..|ms| - 1];
      UpdateAllUnbinds(st, code, p, init);
      UpdateUnbinds(UpdateAll(st, code, p, init), code, Some(p), ms[|ms| - 1], Raw);
    }
  }

  /** `Unlist` fails exactly for an untracked protocol and takes out
      only that protocol. */
  lemma UnlistMembers(st: RmState, p: Protocol)
    ensures Unlist(st, p).None? <==> !InSome(st, p)
    ensures Unlist(st, p).Some? ==>
              var r := Unlist(st, p).value;
              forall x :: (x != p ==> (InSome(r, x) <==> InSome(st, x))) && (InSome(r, x) ==> InSome(st, x))
  {
    RemoveFirstMembers(st.waiting, p);
    RemoveFirstMembers(st.pending, p);
    RemoveFirstMembers(st.running, p);
  }

  /** `Unlist` drops one copy of the protocol and keeps the invariant. */
  lemma UnlistShrinks(st: RmState, p: Protocol)
    ensures Unlist(st, p).Some? ==>
              var r := Unlist(st, p).value;
              Tracked(r) <= Tracked(st) && (Inv(st) ==> Inv(r))
  {
    UnlistMembers(st, p);
    if p in st.waiting {
      RemoveFirstMultiset(st.waiting, p);
      if NoDup(st.waiting) { RemoveFirstNoDup(st.waiting, p); }
    } else if p in st.pending {
      RemoveFirstMultiset(st.pending, p);
      if NoDup(st.pending) { RemoveFirstNoDup(st.pending, p); }
    } else if p in st.running {
      RemoveFirstMultiset(st.running, p);
      if NoDup(st.running) { RemoveFirstNoDup(st.running, p); }
    }
  }

  /** `Unlist` keeps every pending protocol registered. */
  lemma UnlistRegistered(st: RmState, p: Protocol)
    requires Registered(st)
    ensures Unlist(st, p).Some? ==> Registered(Unlist(st, p).value)
  {
    RemoveFirstMembers(st.pending, p);
  }

  /** Handling one tracked created protocol leaves every other protocol
      built before where it was. */
  lemma ExpireStepKeepsOthers(st: RmState, code: RuleCode, p: Protocol)
    requires InSome(st, p) && Below(p.memories, |st.memories|)
    ensures Unlist(st, p).Some?
    ensures var st2 := UpdateAll(Unlist(st, p).value, code, p, p.memories);
            st.nextId <= st2.nextId && forall x: Protocol :: x.ident < st.nextId && x != p ==> (InSome(st2, x) <==> InSome(st, x))
  {
    UnlistMembers(st, p);
    UpdateAllKeepsOthers(Unlist(st, p).value, code, p, p.memories);
  }

  lemma NoDupPrefix<T>(s: seq<T>, n: nat)
    requires NoDup(s) && n <= |s|
    ensures NoDup(s[..n])
  {
    forall i, j | 0 <= i < j < n ensures s[..n][i] != s[..n][j] {
      assert s[..n][i] == s[i] && s[..n][j] == s[j];
    }
  }

  /** Some created protocol is untracked before the last one is handled
      exactly when one of the others is untracked after. */
  lemma UntrackedShift(st: RmState, st2: RmState, created: seq<Protocol>, rest: seq<Protocol>)
    requires created != [] && InSome(st, created[|created| - 1])
    requires rest == created[..|created| - 1]
    requires forall i :: 0 <= i < |rest| ==> (InSome(st2, rest[i]) <==> InSome(st, rest[i]))
    ensures (exists i :: 0 <= i < |created| && !InSome(st, created[i])) <==>
            (exists i :: 0 <= i < |rest| && !InSome(st2, rest[i]))
  {
    assert forall i :: 0 <= i < |rest| ==> rest[i] == created[i];
  }

  /** For distinct created protocols built before, `expire` raises exactly
      when one of them is in none of the lists to begin with. */
  lemma {:induction false} ExpireRaisesIff(st: RmState, code: RuleCode, created: seq<Protocol>)
    requires forall i :: 0 <= i < |created| ==> Below(created[i].memories, |st.memories|)
    requires NoDup(created) && forall i :: 0 <= i < |created| ==> created[i].ident < st.nextId
    ensures ExpireFrom(st, code, created).1 <==> exists i :: 0 <= i < |created| && !InSome(st, created[i])
    decreases |created|
  {
    if created != [] {
      var p := created[|created| - 1];
      var rest := created[..|created| - 1];
      UnlistMembers(st, p);
      if InSome(st, p) {
        ExpireStepKeepsOthers(st, code, p);
        var st2 := UpdateAll(Unlist(st, p).value, code, p, p.memories);
        NoDupPrefix(created, |created| - 1);
        assert forall i :: 0 <= i < |rest| ==> rest[i] == created[i] && created[i] != p;
        ExpireRaisesIff(st2, code, rest);
        UntrackedShift(st, st2, created, rest);
      }
    }
  }

  /** `expire` keeps the invariant and the registration of pending
      protocols, and no protocol built before joins the lists. */
  lemma {:induction false} ExpireKeepsNoDup(st: RmState, code: RuleCode, created: seq<Protocol>)
    requires forall i :: 0 <= i < |created| ==> Below(created[i].memories, |st.memories|)
    requires Inv(st) && WaitsOnce(code)
    ensures var r := ExpireFrom(st, code, created).0;
            && Inv(r)
            && (forall x: Protocol :: x.ident < st.nextId && InSome(r, x) ==> InSome(st, x))
            && (Registered(st) ==> Registered(r))
    decreases |created|
  {
    if created != [] {
      var p := created[|created| - 1];
      UnlistMembers(st, p);
      UnlistShrinks(st, p);
      if Registered(st) {
        UnlistRegistered(st, p);
      }
      if InSome(st, p) {
        var st1 := Unlist(st, p).value;
        var st2 := UpdateAll(st1, code, p, p.memories);
        UpdateAllUnbinds(st1, code, p, p.memories);
        UpdateAllKeepsOthers(st1, code, p, p.memories);
        ExpireKeepsNoDup(st2, code, created[..|created| - 1]);
      }
    }
  }

  // ---------------------------------------------------------------------
  // Where the memories end

  /** Each memory keeps its record or only becomes occupied. */
  ghost predicate OccupiedOrSame(a: seq<MemoryInfo>, b: seq<MemoryInfo>)
  {
    |b| == |a| && forall j :: 0 <= j < |a| ==> b[j] == a[j] || b[j] == a[j].(state := Occupied)
  }

  /** The rule-checking tail of `update` changes a memory only by
      occupying it. */
  lemma FireOccupies(st: RmState, code: RuleCode, m: nat)
    requires m < |st.memories|
    ensures OccupiedOrSame(st.memories, Fire(st, code, m).memories)
  {
    match FirstFiring(st.rules, code.isValid, st.memories[m], st.memories, 0)
    case Some(k) =>
      var sel := code.isValid(st.rules[k], st.memories[m], st.memories);
      forall j | 0 <= j < |st.memories|
        ensures Occupy(st.memories, sel)[j] == st.memories[j] || Occupy(st.memories, sel)[j] == st.memories[j].(state := Occupied)
      {
        OccupyAt(st.memories, sel, j);
      }
    case None =>
  }

  /** `update(protocol, memory, state)` records the new state;
      afterwards a memory changes only when the firing rule occupies it. */
  lemma UpdateMemoryStates(st: RmState, code: RuleCode, p: Option<Protocol>, m: nat, s: MemState)
    requires m < |st.memories|
    ensures OccupiedOrSame(st.memories[m := Recorded(st.memories[m], s)], UpdateSpec(st, code, p, m, s).memories)
  {
    FireOccupies(Unbound(st, p, m, s), code, m);
  }

  /** A free memory: no partner, and RAW or occupied by a rule that
      fired. */
  ghost predicate Free(b: MemoryInfo)
  {
    b.remoteNode.None? && (b.state == Raw || b.state == Occupied)
  }

  /** A memory freed by an update to RAW: the same name, and free. */
  ghost predicate Freed(a: MemoryInfo, b: MemoryInfo)
  {
    b.name == a.name && Free(b)
  }

  /** A memory that no update touched: as it was, or occupied. */
  ghost predicate KeptOrOccupied(a: MemoryInfo, b: MemoryInfo)
  {
    b == a || b == a.(state := Occupied)
  }

  /** A memory after `expire`'s loop: untouched, or freed. */
  ghost predicate Settled(a: MemoryInfo, b: MemoryInfo)
  {
    KeptOrOccupied(a, b) || Freed(a, b)
  }

  /** Every RAW memory has no partner, as the memory manager keeps it. */
  ghost predicate RawUnpaired(mems: seq<MemoryInfo>)
  {
    forall j :: 0 <= j < |mems| && mems[j].state == Raw ==> mems[j].remoteNode.None?
  }

  /** `update` keeps every RAW memory without a partner; after an update
      to RAW the memory has no partner, so a later rejection of a
      protocol holding it puts it back to RAW. */
  lemma UpdateKeepsRawUnpaired(st: RmState, code: RuleCode, p: Option<Protocol>, m: nat, s: MemState)
    requires m < |st.memories|
    ensures var r := UpdateSpec(st, code, p, m, s);
            && (RawUnpaired(st.memories) ==> RawUnpaired(r.memories))
            && (s == Raw ==> r.memories[m].remoteNode.None? && RejectState(r.memories[m]) == Raw)
  {
    UpdateMemoryStates(st, code, p, m, s);
  }

  /** One `update` that keeps the memory's partner, seen from one memory
      `j`, given that `mid` differs from `a` at most in states: the
      memory keeps its name and remote node, and its state is the new
      one (for `m`) or the old one (for the others), unless a rule
      occupied it. */
  lemma SettleStep(a: seq<MemoryInfo>, mid: seq<MemoryInfo>, r: seq<MemoryInfo>, m: nat, s: MemState, j: nat)
    requires |mid| == |a| && m < |a| && j < |a|
    requires mid[j].(state := a[j].state) == a[j] && mid[m].(state := a[m].state) == a[m]
    requires s == Raw ==> mid[m].remoteNode.None?
    requires OccupiedOrSame(mid[m := Recorded(mid[m], s)], r)
    ensures r[j].(state := a[j].state) == a[j]
    ensures j == m ==> r[j].state == s || r[j].state == Occupied
    ensures j != m ==> r[j].state == mid[j].state || r[j].state == Occupied
  {
  }

  /** After the memory loop of a rejected RESPONSE, every memory keeps
      its name and remote node (RAW is chosen only for a memory without
      one); each memory of the loop is at its RAW or ENTANGLED update, or
      occupied by a rule that fired; every other memory keeps its state
      or is occupied. */
  lemma {:induction false} RejectAllSettles(st: RmState, code: RuleCode, p: Protocol, ms: seq<nat>)
    requires Below(ms, |st.memories|)
    ensures var r := RejectAll(st, code, p, ms);
            forall j :: 0 <= j < |st.memories| ==>
              && r.memories[j].(state := st.memories[j].state) == st.memories[j]
              && (j in ms ==> r.memories[j].state == RejectState(st.memories[j]) || r.memories[j].state == Occupied)
              && (j !in ms ==> r.memories[j].state == st.memories[j].state || r.memories[j].state == Occupied)
  {
    if ms != [] {
      var init := ms[..|ms| - 1];
      var m := ms[|ms| - 1];
      RejectAllSettles(st, code, p, init);
      var mid := RejectAll(st, code, p, init);
      var st1 := mid.(effects := mid.effects + [Detach(m, p)]);
      var s := RejectState(st1.memories[m]);
      UpdateMemoryStates(st1, code, None, m, s);
      var r := RejectAll(st, code, p, ms);
      assert r == UpdateSpec(st1, code, None, m, s);
      assert s == RejectState(st.memories[m]) by {
        assert mid.memories[m].(state := st.memories[m].state) == st.memories[m];
      }
      forall j | 0 <= j < |st.memories|
        ensures && r.memories[j].(state := st.memories[j].state) == st.memories[j]
                && (j in ms ==> r.memories[j].state == RejectState(st.memories[j]) || r.memories[j].state == Occupied)
                && (j !in ms ==> r.memories[j].state == st.memories[j].state || r.memories[j].state == Occupied)
      {
        SettleStep(st.memories, mid.memories, r.memories, m, s, j);
        assert j in ms <==> j in init || j == m by {
          SplitLast(ms);
        }
      }
    }
  }

  /** One `update` to RAW seen from one memory `j`: a freed memory stays
      freed, the updated memory is freed, and any other memory is kept
      or occupied. */
  lemma FreeStep(a: seq<MemoryInfo>, mid: seq<MemoryInfo>, r: seq<MemoryInfo>, m: nat, j: nat)
    requires |mid| == |a| && m < |a| && j < |a| && mid[m].name == a[m].name
    requires OccupiedOrSame(mid[m := Recorded(mid[m], Raw)], r)
    ensures j == m ==> Freed(a[j], r[j])
    ensures j != m && Freed(a[j], mid[j]) ==> Freed(a[j], r[j])
    ensures j != m && KeptOrOccupied(a[j], mid[j]) ==> KeptOrOccupied(a[j], r[j])
  {
  }

  /** After the update loop of `expire`, each memory of the loop keeps
      its name, has no partner any more and is RAW, or occupied by a
      rule that fired; every other memory is as it was, or occupied. */
  lemma {:induction false} UpdateAllSettles(st: RmState, code: RuleCode, p: Protocol, ms: seq<nat>)
    requires Below(ms, |st.memories|)
    ensures var r := UpdateAll(st, code, p, ms);
            forall j :: 0 <= j < |st.memories| ==>
              && (j in ms ==> Freed(st.memories[j], r.memories[j]))
              && (j !in ms ==> KeptOrOccupied(st.memories[j], r.memories[j]))
  {
    if ms != [] {
      var init := ms[..|ms| - 1];
      var m := ms[|ms| - 1];
      UpdateAllSettles(st, code, p, init);
      var mid := UpdateAll(st, code, p, init);
      UpdateMemoryStates(mid, code, Some(p), m, Raw);
      var r := UpdateAll(st, code, p, ms);
      forall j | 0 <= j < |st.memories|
        ensures && (j in ms ==> Freed(st.memories[j], r.memories[j]))
                && (j !in ms ==> KeptOrOccupied(st.memories[j], r.memories[j]))
      {
        FreeStep(st.memories, mid.memories, r.memories, m, j);
        assert j in ms <==> j in init || j == m by {
          SplitLast(ms);
        }
      }
    }
  }

  /** A rejected RESPONSE that tears its protocol down leaves each of the
      protocol's memories at its RAW or ENTANGLED update, or occupied by
      a rule that fired; no memory loses its name or remote node. */
  lemma RejectionSettles(st: RmState, code: RuleCode, src: NodeName, msg: RmMessage, ready: bool)
    requires msg.Response? && !msg.approved && msg.ini in st.pending && msg.ini in RuleProtocols(st, msg.ini.rule)
    requires Below(msg.ini.memories, |st.memories|)
    ensures var r := ReceivedSpec(st, code, src, msg, ready).0;
            |r.memories| == |st.memories|
            && forall j :: 0 <= j < |st.memories| ==>
              && r.memories[j].(state := st.memories[j].state) == st.memories[j]
              && (j in msg.ini.memories ==> r.memories[j].state == RejectState(st.memories[j]) || r.memories[j].state == Occupied)
              && (j !in msg.ini.memories ==> r.memories[j].state == st.memories[j].state || r.memories[j].state == Occupied)
  {
    var p := msg.ini;
    var st1 := st.(ruleProtocols := st.ruleProtocols[p.rule := RemoveFirst(RuleProtocols(st, p.rule), p)]);
    RejectAllSettles(st1, code, p, p.memories);
  }

  /** After `expire`'s loop every memory keeps its name; a memory is as
      before or occupied, or it was freed: no partner, and RAW or
      occupied. */
  lemma {:induction false} ExpireSettles(st: RmState, code: RuleCode, created: seq<Protocol>)
    requires forall i :: 0 <= i < |created| ==> Below(created[i].memories, |st.memories|)
    ensures var r := ExpireFrom(st, code, created).0;
            |r.memories| == |st.memories|
            && forall j :: 0 <= j < |st.memories| ==> Settled(st.memories[j], r.memories[j])
    decreases |created|
  {
    if created != [] {
      var p := created[|created| - 1];
      if Unlist(st, p).Some? {
        var st1 := Unlist(st, p).value;
        var st2 := UpdateAll(st1, code, p, p.memories);
        ExpireFromStep(st, code, created);
        UpdateAllSettles(st1, code, p, p.memories);
        ExpireSettles(st2, code, created[..|created| - 1]);
        var r := ExpireFrom(st2, code, created[..|created| - 1]).0;
        forall j | 0 <= j < |st.memories| ensures Settled(st.memories[j], r.memories[j]) {
          assert j in p.memories ==> Freed(st.memories[j], st2.memories[j]);
          assert j !in p.memories ==> KeptOrOccupied(st.memories[j], st2.memories[j]);
        }
      }
    }
  }

  /** One step of `expire`'s loop: the last created protocol, when it is
      listed, is unlisted and its memories updated before the rest. */
  lemma ExpireFromStep(st: RmState, code: RuleCode, created: seq<Protocol>)
    requires forall i :: 0 <= i < |created| ==> Below(created[i].memories, |st.memories|)
    requires created != [] && Unlist(st, created[|created| - 1]).Some?
    ensures var p := created[|created| - 1];
            var st2 := UpdateAll(Unlist(st, p).value, code, p, p.memories);
            |st2.memories| == |st.memories|
            && ExpireFrom(st, code, created) == ExpireFrom(st2, code, created[..|created| - 1])
  {
  }

  /** The memories of the update loop of `expire` end free. */
  lemma UpdateAllFrees(st: RmState, code: RuleCode, p: Protocol, ms: seq<nat>)
    requires Below(ms, |st.memories|)
    ensures var r := UpdateAll(st, code, p, ms);
            forall t :: 0 <= t < |ms| ==> Free(r.memories[ms[t]])
  {
    UpdateAllSettles(st, code, p, ms);
    var r := UpdateAll(st, code, p, ms);
    forall t | 0 <= t < |ms| ensures Free(r.memories[ms[t]]) {
      assert ms[t] in ms;
    }
  }

  /** Free memories stay free through `expire`'s loop. */
  lemma ExpireKeepsFreed(st: RmState, code: RuleCode, created: seq<Protocol>, ms: seq<nat>)
    requires forall i :: 0 <= i < |created| ==> Below(created[i].memories, |st.memories|)
    requires forall t :: 0 <= t < |ms| ==> ms[t] < |st.memories| && Free(st.memories[ms[t]])
    ensures var r := ExpireFrom(st, code, created).0;
            |r.memories| == |st.memories|
            && forall t :: 0 <= t < |ms| ==> Free(r.memories[ms[t]])
  {
    ExpireSettles(st, code, created);
  }

  /** Every memory of every listed protocol is free, and stays so when
      one more such protocol is appended. */
  lemma FreedAppend(mems: seq<MemoryInfo>, ps: seq<Protocol>, p: Protocol)
    requires forall i, t :: 0 <= i < |ps| && 0 <= t < |ps[i].memories| ==>
               ps[i].memories[t] < |mems| && Free(mems[ps[i].memories[t]])
    requires forall t :: 0 <= t < |p.memories| ==> p.memories[t] < |mems| && Free(mems[p.memories[t]])
    ensures forall i, t :: 0 <= i < |ps + [p]| && 0 <= t < |(ps + [p])[i].memories| ==>
              (ps + [p])[i].memories[t] < |mems| && Free(mems[(ps + [p])[i].memories[t]])
  {
    forall i | 0 <= i < |ps + [p]| ensures (ps + [p])[i] == if i < |ps| then ps[i] else p {
    }
  }

  /** When `expire` raises nothing, every memory of every created
      protocol ends free: without a partner, and RAW or occupied by a
      rule that fired. */
  lemma {:induction false} ExpireFreesMemories(st: RmState, code: RuleCode, created: seq<Protocol>)
    requires forall i :: 0 <= i < |created| ==> Below(created[i].memories, |st.memories|)
    ensures var r := ExpireFrom(st, code, created).0;
            |r.memories| == |st.memories|
            && (!ExpireFrom(st, code, created).1 ==>
                  forall i, t :: 0 <= i < |created| && 0 <= t < |created[i].memories| ==>
                    Free(r.memories[created[i].memories[t]]))
    decreases |created|
  {
    if created != [] {
      var p := created[|created| - 1];
      var rest := created[..|created| - 1];
      if Unlist(st, p).Some? {
        var st2 := UpdateAll(Unlist(st, p).value, code, p, p.memories);
        ExpireFromStep(st, code, created);
        UpdateAllFrees(Unlist(st, p).value, code, p, p.memories);
        ExpireKeepsFreed(st2, code, rest, p.memories);
        ExpireFreesMemories(st2, code, rest);
        if !ExpireFrom(st2, code, rest).1 {
          SplitLast(created);
          FreedAppend(ExpireFrom(st2, code, rest).0.memories, rest, p);
        }
      }
    }
  }

  /** One created protocol that is listed: it is taken out of the first
      list holding it, and once its memories are updated it is in no
      list and the invariant still holds. */
  lemma ExpireStepUnlists(st: RmState, code: RuleCode, p: Protocol)
    requires Inv(st) && WaitsOnce(code) && InSome(st, p) && p.ident < st.nextId
    requires Below(p.memories, |st.memories|) && p.memories != []
    ensures Unlist(st, p).Some?
    ensures var st2 := UpdateAll(Unlist(st, p).value, code, p, p.memories);
            Inv(st2) && !InSome(st2, p) && st.nextId <= st2.nextId && |st2.memories| == |st.memories|
  {
    UnlistMembers(st, p);
    UnlistShrinks(st, p);
    UpdateAllUnbinds(Unlist(st, p).value, code, p, p.memories);
  }

  /** A protocol built before `expire`'s loop and in no list stays out
      of the lists. */
  lemma ExpireLeavesUnlisted(st: RmState, code: RuleCode, created: seq<Protocol>, p: Protocol)
    requires forall i :: 0 <= i < |created| ==> Below(created[i].memories, |st.memories|)
    requires Inv(st) && WaitsOnce(code) && !InSome(st, p) && p.ident < st.nextId
    ensures !InSome(ExpireFrom(st, code, created).0, p)
  {
    ExpireKeepsNoDup(st, code, created);
  }

  /** A protocol list none of whose members is listed stays so when one
      more unlisted protocol is appended. */
  lemma UnlistedAppend(st: RmState, ps: seq<Protocol>, p: Protocol)
    requires forall i :: 0 <= i < |ps| ==> !InSome(st, ps[i])
    requires !InSome(st, p)
    ensures forall i :: 0 <= i < |ps + [p]| ==> !InSome(st, (ps + [p])[i])
  {
    forall i | 0 <= i < |ps + [p]| ensures !InSome(st, (ps + [p])[i]) {
      if i < |ps| {
        assert (ps + [p])[i] == ps[i];
      }
    }
  }

  /** When `expire` raises nothing, every created protocol (built before,
      with its memories) is in none of the waiting, pending and running
      lists afterwards. */
  lemma {:induction false} ExpireUnlistsCreated(st: RmState, code: RuleCode, created: seq<Protocol>)
    requires forall i :: 0 <= i < |created| ==> Below(created[i].memories, |st.memories|)
    requires forall i :: 0 <= i < |created| ==> created[i].memories != [] && created[i].ident < st.nextId
    requires Inv(st) && WaitsOnce(code)
    ensures !ExpireFrom(st, code, created).1 ==>
              forall i :: 0 <= i < |created| ==> !InSome(ExpireFrom(st, code, created).0, created[i])
    decreases |created|
  {
    if created != [] {
      var p := created[|created| - 1];
      var rest := created[..|created| - 1];
      UnlistMembers(st, p);
      if InSome(st, p) {
        ExpireStepUnlists(st, code, p);
        var st2 := UpdateAll(Unlist(st, p).value, code, p, p.memories);
        ExpireFromStep(st, code, created);
        assert forall i :: 0 <= i < |rest| ==> rest[i] == created[i];
        ExpireUnlistsCreated(st2, code, rest);
        ExpireLeavesUnlisted(st2, code, rest, p);
        var r := ExpireFrom(st2, code, rest).0;
        if !ExpireFrom(st2, code, rest).1 {
          SplitLast(created);
          UnlistedAppend(r, rest, p);
        }
      }
    }
  }

  // ---------------------------------------------------------------------
  // The manager

  /** `ResourceManager`: the memory manager's records, the rule manager's
      rules, the three protocol lists and the logs, updated in place.
      `code` is what the loaded rules' conditions and actions compute. */
  class ResourceManager {
    const code: RuleCode
    var rules: seq<Rule>
    var memories: seq<MemoryInfo>
    var ruleProtocols: map<nat, seq<Protocol>>
    var waiting: seq<Protocol>
    var pending: seq<Protocol>
    var running: seq<Protocol>
    var sent: seq<Sent>
    var effects: seq<Effect>
    var nextId: nat

    ghost function State(): (r: RmState)
      reads this
    {
      RmState(rules, memories, ruleProtocols, waiting, pending, running, sent, effects, nextId)
    }

    /** A fresh manager over the node's memories: no rules, no protocols. */
    constructor (memories: seq<MemoryInfo>, code: RuleCode)
      ensures State() == RmState([], memories, map[], [], [], [], [], [], 0) && this.code == code
    {
      this.code := code;
      this.rules := [];
      this.memories := memories;
      this.ruleProtocols := map[];
      this.waiting := [];
      this.pending := [];
      this.running := [];
      this.sent := [];
      this.effects := [];
      this.nextId := 0;
    }

    /** `info.to_occupied()` for each claimed memory, in turn. */
    method OccupyAll(sel: seq<nat>)
      modifies this
      ensures State() == old(State()).(memories := Occupy(old(memories), sel))
    {
      ghost var mems := memories;
      for t := 0 to |sel|
        invariant |memories| == |mems|
        invariant State() == old(State()).(memories := memories)
        invariant forall m :: 0 <= m < |mems| ==>
                    memories[m] == if m in sel[..t] then mems[m].(state := Occupied) else mems[m]
      {
        assert sel[..t + 1] == sel[..t] + [sel[t]];
        if sel[t] < |memories| {
          memories := memories[sel[t] := memories[sel[t]].(state := Occupied)];
        }
      }
      assert sel[..|sel|] == sel;
    }

    /** `rule.do(memories_info)`: build the protocol, add it to the rule's
        protocols and send each of its requests. */
    method DoRule(rule: Rule, sel: seq<nat>)
      modifies this
      ensures State() == DoSpec(old(State()), code, rule, sel)
    {
      var made := code.action(rule, sel, memories);
      var p := made.protocol.(ident := nextId, rule := rule.ident);
      var listed := if rule.ident in ruleProtocols then ruleProtocols[rule.ident] else [];
      nextId := nextId + 1;
      effects := effects + [RuleDo(rule, sel)];
      ruleProtocols := ruleProtocols[rule.ident := listed + [p]];
      ghost var st1 := State();
      for t := 0 to |made.requests|
        invariant State() == SendAll(st1, p, made.requests[..t])
      {
        assert made.requests[..t + 1][..t] == made.requests[..t];
        var (dst, matcher) := made.requests[t];
        SendRequest(p, dst, matcher);
      }
      assert made.requests[..|made.requests|] == made.requests;
    }

    /** `load(rule)`: the rule manager takes the rule, then the rule is
        offered every memory once; it always reports success. */
    method Load(rule: Rule, pos: nat) returns (ok: bool)
      requires pos <= |rules|
      modifies this
      ensures ok
      ensures State() == LoadSpec(old(State()), code, rule, pos)
    {
      rules := rules[..pos] + [rule] + rules[pos..];
      ghost var st0 := State();
      for i := 0 to |memories|
        invariant |memories| == |st0.memories|
        invariant State() == LoadSteps(st0, code, rule, i)
      {
        var sel := code.isValid(rule, memories[i], memories);
        if |sel| > 0 {
          DoRule(rule, sel);
          OccupyAll(sel);
        }
      }
      return true;
    }

    /** The rule loop of `update`: run the first rule that claims memories
        when evaluated on memory `m`, or hand the memory to the node. */
    method FireRules(m: nat)
      requires m < |memories|
      modifies this
      ensures State() == Fire(old(State()), code, m)
    {
      var info := memories[m];
      for k := 0 to |rules|
        invariant State() == old(State())
        invariant forall j :: 0 <= j < k ==> |code.isValid(rules[j], info, memories)| == 0
      {
        var sel := code.isValid(rules[k], info, memories);
        if |sel| > 0 {
          assert FirstFiring(rules, code.isValid, info, memories, 0) == Some(k);
          DoRule(rules[k], sel);
          OccupyAll(sel);
          return;
        }
      }
      effects := effects + [IdleMemory(m)];
    }

    /** `update(protocol, memory, state)`. */
    method Update(p: Option<Protocol>, m: nat, s: MemState)
      requires m < |memories|
      modifies this
      ensures State() == UpdateSpec(old(State()), code, p, m, s)
    {
      memories := memories[m := Recorded(memories[m], s)];
      if p.Some? {
        UnbindProtocol(p.value, m);
      }
      FireRules(m);
    }

    /** The protocol part of `update`. */
    method UnbindProtocol(q: Protocol, m: nat)
      modifies this
      ensures State() == Unbind(old(State()), q, m)
    {
      effects := effects + [Detach(m, q)];
      if q.rule in ruleProtocols && q in ruleProtocols[q.rule] {
        ruleProtocols := ruleProtocols[q.rule := RemoveFirst(ruleProtocols[q.rule], q)];
      }
      running := RemoveFirst(running, q);
      waiting := RemoveFirst(waiting, q);
      pending := RemoveFirst(pending, q);
    }

    /** `update(protocol, memory, "RAW")` over the protocol's memories. */
    method UpdateMemories(p: Protocol)
      requires Below(p.memories, |memories|)
      modifies this
      ensures State() == UpdateAll(old(State()), code, p, p.memories)
    {
      ghost var st0 := State();
      for t := 0 to |p.memories|
        invariant |memories| == |st0.memories|
        invariant State() == UpdateAll(st0, code, p, p.memories[..t])
      {
        UpdateAllStep(st0, code, p, p.memories, t);
        Update(Some(p), p.memories[t], Raw);
      }
      assert p.memories[..|p.memories|] == p.memories;
    }

    /** `expire(rule)`; `created` is what the rule manager hands back.
        `raised` reports the "unknown place of protocol" exception. */
    method Expire(rule: Rule, created: seq<Protocol>) returns (raised: bool)
      requires forall i :: 0 <= i < |created| ==> Below(created[i].memories, |memories|)
      modifies this
      ensures (State(), raised) == ExpireSpec(old(State()), code, rule, created)
    {
      rules := RemoveFirst(rules, rule);
      var rest := created;
      while |rest| > 0
        invariant |memories| == old(|memories|)
        invariant rest == created[..|rest|]
        invariant ExpireFrom(State(), code, rest) == ExpireSpec(old(State()), code, rule, created)
        decreases |rest|
      {
        var p := rest[|rest| - 1];
        assert rest[..|rest| - 1] == created[..|rest| - 1];
        rest := rest[..|rest| - 1];
        if p in waiting {
          waiting := RemoveFirst(waiting, p);
        } else if p in pending {
          pending := RemoveFirst(pending, p);
        } else if p in running {
          running := RemoveFirst(running, p);
        } else {
          return true;
        }
        UpdateMemories(p);
      }
      return false;
    }

    /** `send_request(protocol, req_dst, req_condition_func)`; a missing
        destination is `None`. */
    method SendRequest(p: Protocol, dst: Option<NodeName>, matcher: Matcher)
      modifies this
      ensures State() == SendRequestSpec(old(State()), p, dst, matcher)
    {
      if dst.None? {
        waiting := waiting + [p];
        return;
      }
      if p !in pending {
        pending := pending + [p];
      }
      sent := sent + [Sent(dst.value, Request(p, matcher))];
    }

    /** The memory loop of a rejected RESPONSE. */
    method RejectMemories(p: Protocol)
      requires Below(p.memories, |memories|)
      modifies this
      ensures State() == RejectAll(old(State()), code, p, p.memories)
    {
      ghost var st0 := State();
      for t := 0 to |p.memories|
        invariant |memories| == |st0.memories|
        invariant State() == RejectAll(st0, code, p, p.memories[..t])
      {
        RejectAllStep(st0, code, p, p.memories, t);
        RejectMemory(p, p.memories[t]);
      }
      assert p.memories[..|p.memories|] == p.memories;
    }

    /** One memory of a rejected protocol: detach it, then update it to
        RAW or ENTANGLED by whether it has a remote node. */
    method RejectMemory(p: Protocol, m: nat)
      requires m < |memories|
      modifies this
      ensures State() == RejectOne(old(State()), code, p, m)
    {
      effects := effects + [Detach(m, p)];
      var s := RejectState(memories[m]);
      Update(None, m, s);
    }

    /** The RELEASE_MEMORY search: the first running protocol holding a
        memory with the given name. */
    method FindHolder(target: string) returns (found: Option<nat>)
      ensures found == FirstHolder(running, memories, target, 0)
    {
      for i := 0 to |running|
        invariant forall j :: 0 <= j < i ==> !Holds(running[j], memories, target)
      {
        var ms := running[i].memories;
        for t := 0 to |ms|
          invariant forall u :: 0 <= u < t ==> !(ms[u] < |memories| && memories[ms[u]].name == target)
        {
          if ms[t] < |memories| && memories[ms[t]].name == target {
            assert Holds(running[i], memories, target);
            assert FirstHolder(running, memories, target, 0) == Some(i);
            return Some(i);
          }
        }
      }
      return None;
    }

    /** `received_message(src, msg)`; `ready` is the protocol's
        `is_ready()` after `set_others`, `raised` an exception of the
        source. */
    method ReceivedMessage(src: NodeName, msg: RmMessage, ready: bool) returns (raised: bool)
      requires msg.Response? ==> Below(msg.ini.memories, |memories|)
      modifies this
      ensures (State(), raised) == ReceivedSpec(old(State()), code, src, msg, ready)
    {
      match msg
      case Request(ini, matcher) =>
        var q := matcher(waiting);
        if q.Some? {
          effects := effects + [SetOthers(q.value, Some(ini))];
          sent := sent + [Sent(src, Response(ini, true, q))];
          if q.value !in waiting {
            return true;
          }
          waiting := RemoveFirst(waiting, q.value);
          running := running + [q.value];
          effects := effects + [Start(q.value)];
          return false;
        }
        sent := sent + [Sent(src, Response(ini, false, None))];
        return false;
      case Response(p, approved, paired) =>
        if p !in pending {
          if approved {
            sent := sent + [Sent(src, ReleaseProtocol(paired))];
          }
          return false;
        }
        if approved {
          effects := effects + [SetOthers(p, paired)];
          if ready {
            pending := RemoveFirst(pending, p);
            running := running + [p];
            effects := effects + [Start(p)];
          }
          return false;
        }
        if p.rule !in ruleProtocols || p !in ruleProtocols[p.rule] {
          return true;
        }
        ruleProtocols := ruleProtocols[p.rule := RemoveFirst(ruleProtocols[p.rule], p)];
        RejectMemories(p);
        pending := RemoveFirst(pending, p);
        return false;
      case ReleaseProtocol(q) =>
        if q.Some? && q.value in running {
          if q.value.kind != Entanglement {
            return true;
          }
          effects := effects + [Release(q.value)];
        }
        return false;
      case ReleaseMemory(_, target) =>
        var found := FindHolder(target);
        if found.Some? {
          effects := effects + [Release(running[found.value])];
        }
        return false;
    }

    /** `memory_expire(memory)`: the memory goes back to RAW. */
    method MemoryExpire(m: nat)
      requires m < |memories|
      modifies this
      ensures State() == UpdateSpec(old(State()), code, None, m, Raw)
    {
      Update(None, m, Raw);
    }
  }
}
