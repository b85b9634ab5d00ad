/** The static routing protocol of a node: reservation requests travel
    hop by hop, and the next hop is the neighbour that the node's
    all-pairs distance table puts closest to the destination. The
    protocol also keeps a forwarding table (destination to next node)
    that can be extended and overwritten.

    The distance table row for one destination is a list of (node,
    distance) pairs in the row's iteration order; the neighbours are a
    set. Messages handed down to the lower protocol and up to the upper
    protocol are appended to two logs. The type of the carried messages is
    a parameter. */
module Routing {
  import opened Common

  type NodeName = string

  /** `10e10`, the initial least distance: 10 times 10 to the 10th. */
  const Bound: real := 100000000000.0

  /** The distances from every node to one destination, in the order the
      row iterates. */
  type DistanceRow = seq<(NodeName, real)>

  /** The message the routing protocol sends: the name of the receiving
      protocol instance and the wrapped message. */
  datatype RoutingMessage<M> = RoutingMessage(receiver: string, payload: M)

  /** What a call that can raise reports instead of returning. */
  datatype Raised = NoError | AssertionError | KeyError

  /** The loop of `custom_next_best_hop` over the first `n` entries of the
      row: a neighbour replaces the best hop so far only when it is
      strictly closer. The pair is the best hop and the least distance. */
  function Scan(row: DistanceRow, nbrs: set<NodeName>, n: nat): (Option<NodeName>, real)
    requires n <= |row|
  {
    if n == 0 then (None, Bound)
    else
      var (best, least) := Scan(row, nbrs, n - 1);
      var (node, dist) := row[n - 1];
      if node in nbrs && dist < least then (Some(node), dist) else (best, least)
  }

  /** The greedy choice, stated without the loop: no hop when no listed
      neighbour is closer than the bound; otherwise the hop is a listed
      neighbour at index `k` whose distance is the least of all listed
      neighbours, and every listed neighbour before it is strictly
      farther (ties go to the earliest). */
  lemma {:induction false} ScanIsGreedyArgmin(row: DistanceRow, nbrs: set<NodeName>, n: nat)
    requires n <= |row|
    ensures var (best, least) := Scan(row, nbrs, n);
            && least <= Bound
            && (best.None? <==> forall j :: 0 <= j < n && row[j].0 in nbrs ==> row[j].1 >= Bound)
            && (best.None? ==> least == Bound)
            && (best.Some? ==>
                  exists k :: 0 <= k < n && row[k].0 == best.value && row[k].0 in nbrs && row[k].1 == least
                              && least < Bound
                              && (forall j :: 0 <= j < n && row[j].0 in nbrs ==> least <= row[j].1)
                              && (forall j :: 0 <= j < k && row[j].0 in nbrs ==> least < row[j].1))
  {
    if n > 0 {
      ScanIsGreedyArgmin(row, nbrs, n - 1);
      var (best, least) := Scan(row, nbrs, n - 1);
      var (node, dist) := row[n - 1];
      if node in nbrs && dist < least {
        assert row[n - 1].0 == node && row[n - 1].1 == dist;
        if best.Some? {
          var k :| 0 <= k < n - 1 && row[k].0 == best.value && row[k].0 in nbrs && row[k].1 == least
                   && least < Bound
                   && (forall j :: 0 <= j < n - 1 && row[j].0 in nbrs ==> least <= row[j].1)
                   && (forall j :: 0 <= j < k && row[j].0 in nbrs ==> least < row[j].1);
        }
      }
    }
  }

  /** A hop never picks a node outside the neighbours or the row. */
  lemma HopIsListedNeighbour(row: DistanceRow, nbrs: set<NodeName>)
    ensures var best := Scan(row, nbrs, |row|).0;
            best.Some? ==> best.value in nbrs && exists k :: 0 <= k < |row| && row[k].0 == best.value
  {
    ScanIsGreedyArgmin(row, nbrs, |row|);
  }

  /** `StaticRoutingProtocol`. `ownName`, `neighbors` and `distances` are
      the owning node's name, neighbour set and `all_pair_shortest_dist`
      table. */
  class StaticRoutingProtocol<M> {
    const ownName: NodeName
    const name: string
    const neighbors: set<NodeName>
    const distances: map<NodeName, DistanceRow>
    var forwardingTable: map<NodeName, NodeName>
    /** `_push(dst, msg)` calls: the next hop (possibly none) and the
        message. */
    var pushed: seq<(Option<NodeName>, RoutingMessage<M>)>
    /** `_pop(src, msg)` calls. */
    var popped: seq<(NodeName, M)>

    constructor (ownName: NodeName, name: string, neighbors: set<NodeName>,
                 distances: map<NodeName, DistanceRow>, forwardingTable: map<NodeName, NodeName>)
      ensures this.ownName == ownName && this.name == name && this.neighbors == neighbors
      ensures this.distances == distances && this.forwardingTable == forwardingTable
      ensures pushed == [] && popped == []
    {
      this.ownName := ownName;
      this.name := name;
      this.neighbors := neighbors;
      this.distances := distances;
      this.forwardingTable := forwardingTable;
      this.pushed := [];
      this.popped := [];
    }

    /** `add_forwarding_rule`: the destination must be new (the source
        asserts it); then it maps to `next` and nothing else changes. */
    method AddForwardingRule(dst: NodeName, next: NodeName) returns (raised: Raised)
      modifies this
      ensures raised == (if dst in old(forwardingTable) then AssertionError else NoError)
      ensures forwardingTable == if dst in old(forwardingTable) then old(forwardingTable)
                                 else old(forwardingTable)[dst := next]
      ensures pushed == old(pushed) && popped == old(popped)
    {
      if dst in forwardingTable {
        return AssertionError;
      }
      forwardingTable := forwardingTable[dst := next];
      return NoError;
    }

    /** `update_forwarding_rule`: the destination maps to `next` whether
        or not it was there. */
    method UpdateForwardingRule(dst: NodeName, next: NodeName)
      modifies this
      ensures forwardingTable == old(forwardingTable)[dst := next]
      ensures pushed == old(pushed) && popped == old(popped)
    {
      forwardingTable := forwardingTable[dst := next];
    }

    /** `custom_next_best_hop(curr_node, dest)`: the greedy scan of the
        destination's row; a destination missing from the table is the
        KeyError of the source. */
    method NextBestHop(dest: NodeName) returns (raised: Raised, hop: Option<NodeName>)
      ensures raised == (if dest in distances then NoError else KeyError)
      ensures dest in distances ==> hop == Scan(distances[dest], neighbors, |distances[dest]|).0
      ensures dest !in distances ==> hop.None?
    {
      if dest !in distances {
        return KeyError, None;
      }
      var row := distances[dest];
      var least := Bound;
      hop := None;
      for i := 0 to |row|
        invariant (hop, least) == Scan(row, neighbors, i)
      {
        var (node, dist) := row[i];
        if node in neighbors && dist < least {
          hop := Some(node);
          least := dist;
        }
      }
      return NoError, hop;
    }

    /** `push(dst, msg)`: the destination must not be the node itself (the
        source asserts it); the message is wrapped and handed down towards
        the best hop, which may be none. */
    method Push(dst: NodeName, msg: M) returns (raised: Raised)
      modifies this
      ensures dst == ownName ==> raised == AssertionError && pushed == old(pushed)
      ensures dst != ownName && dst !in distances ==> raised == KeyError && pushed == old(pushed)
      ensures dst != ownName && dst in distances ==>
                raised == NoError &&
                pushed == old(pushed) + [(Scan(distances[dst], neighbors, |distances[dst]|).0, RoutingMessage(name, msg))]
      ensures forwardingTable == old(forwardingTable) && popped == old(popped)
    {
      if dst == ownName {
        return AssertionError;
      }
      var hop: Option<NodeName>;
      raised, hop := NextBestHop(dst);
      if raised != NoError {
        return raised;
      }
      pushed := pushed + [(hop, RoutingMessage(name, msg))];
    }

    /** `pop(src, msg)`: the payload goes up unchanged. */
    method Pop(src: NodeName, msg: RoutingMessage<M>)
      modifies this
      ensures popped == old(popped) + [(src, msg.payload)]
      ensures forwardingTable == old(forwardingTable) && pushed == old(pushed)
    {
      popped := popped + [(src, msg.payload)];
    }
  }
}
