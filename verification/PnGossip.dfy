/**
 * Replicas of a positive-negative counter that gossip. A replica is a pair of
 * grow-only counters; snapshots are pairs, taken and merged as a whole. Each half
 * of a run is a run of `Gossip`.
 */
module PnGossip {
  import opened Crdt
  import opened Sums
  import G = Gossip

  datatype Pair = Pair(positive: Counts, negative: Counts)

  datatype Side = Plus | Minus

  /** Attempted steps; one that names no replica, or a snapshot never taken, does nothing. */
  datatype Step =
    | Increment(node: NodeId, amount: nat)
    | Decrement(node: NodeId, amount: nat)
    | Send(node: NodeId)
    | Receive(node: NodeId, snapshot: Pair)

  datatype Net = Net(
    replicas: map<NodeId, Pair>,
    sent: set<Pair>,
    added: map<NodeId, nat>,  // what each node really added ...
    taken: map<NodeId, nat>)  // ... and took away

  ghost function Start(nodes: set<NodeId>): (net: Net)
  {
    var zeros := map node | node in nodes :: 0;
    Net(map node | node in nodes :: Pair(map[], map[]), {}, zeros, zeros)
  }

  function Raised(counts: Counts, node: NodeId, amount: nat): (raised: Counts)
  {
    counts[node := SaturatingAdd(Slot(counts, node), amount)]
  }

  ghost function Next(net: Net, step: Step): (next: Net)
  {
    if step.node !in net.replicas || step.node !in net.added || step.node !in net.taken then net
    else
      var mine := net.replicas[step.node];
      match step
      case Increment(node, amount) =>
        net.(replicas := net.replicas[node := mine.(positive := Raised(mine.positive, node, amount))],
             added := net.added[node := net.added[node] + amount])
      case Decrement(node, amount) =>
        net.(replicas := net.replicas[node := mine.(negative := Raised(mine.negative, node, amount))],
             taken := net.taken[node := net.taken[node] + amount])
      case Send(node) => net.(sent := net.sent + {mine})
      case Receive(node, snapshot) =>
        if snapshot !in net.sent then net
        else
          net.(replicas := net.replicas[node := Pair(Join(mine.positive, snapshot.positive),
                                                     Join(mine.negative, snapshot.negative))])
  }

  ghost function After(net: Net, steps: seq<Step>): (last: Net)
  {
    if steps == [] then net else Next(After(net, steps[..|steps| - 1]), steps[|steps| - 1])
  }

  // ---------------------------------------------------------------------------
  // Each half of a run is a gossip run
  // ---------------------------------------------------------------------------

  function Half(pair: Pair, side: Side): (counts: Counts)
  {
    if side.Plus? then pair.positive else pair.negative
  }

  ghost function HalfNet(net: Net, side: Side): (half: G.Net)
  {
    G.Net(map node | node in net.replicas :: Half(net.replicas[node], side),
          set pair | pair in net.sent :: Half(pair, side),
          if side.Plus? then net.added else net.taken)
  }

  ghost predicate SameNodes(net: Net)
  {
    net.replicas.Keys == net.added.Keys == net.taken.Keys
  }

  /** What one half does in a step: the same, or nothing. */
  ghost function HalfStep(net: Net, step: Step, side: Side): (steps: seq<G.Step>)
    ensures |steps| <= 1
  {
    match step
    case Increment(node, amount) => if side.Plus? then [G.Increment(node, amount)] else []
    case Decrement(node, amount) => if side.Plus? then [] else [G.Increment(node, amount)]
    case Send(node) => [G.Send(node)]
    case Receive(node, snapshot) => if snapshot in net.sent then [G.Receive(node, Half(snapshot, side))] else []
  }

  ghost function Project(net: Net, steps: seq<Step>, side: Side): (half: seq<G.Step>)
  {
    if steps == [] then []
    else
      var init := steps[..|steps| - 1];
      Project(net, init, side) + HalfStep(After(net, init), steps[|steps| - 1], side)
  }

  lemma AfterAtMostOne(net: G.Net, steps: seq<G.Step>, more: seq<G.Step>)
    requires |more| <= 1
    ensures G.After(net, steps + more) == if more == [] then G.After(net, steps) else G.Next(G.After(net, steps), more[0])
  {
    if more == [] {
      assert steps + more == steps;
    } else {
      assert (steps + more)[..|steps|] == steps;
    }
  }

  lemma ReplicaHalves(net: Net, node: NodeId, pair: Pair, side: Side)
    ensures HalfNet(net.(replicas := net.replicas[node := pair]), side)
            == HalfNet(net, side).(replicas := HalfNet(net, side).replicas[node := Half(pair, side)])
  {
  }

  lemma SentHalves(net: Net, pair: Pair, side: Side)
    ensures HalfNet(net.(sent := net.sent + {pair}), side)
            == HalfNet(net, side).(sent := HalfNet(net, side).sent + {Half(pair, side)})
  {
  }

  /** A step of one half that the other half does not notice. */
  lemma HalfOfCount(net: Net, step: Step, side: Side)
    requires SameNodes(net) && (step.Increment? || step.Decrement?) && step.node in net.replicas
    ensures var half := HalfStep(net, step, side);
            HalfNet(Next(net, step), side) == if half == [] then HalfNet(net, side) else G.Next(HalfNet(net, side), half[0])
  {
    var mine := net.replicas[step.node];
    var pair := if step.Increment? then mine.(positive := Raised(mine.positive, step.node, step.amount))
                else mine.(negative := Raised(mine.negative, step.node, step.amount));
    ReplicaHalves(net, step.node, pair, side);
    assert HalfNet(net, side).replicas[step.node := Half(mine, side)] == HalfNet(net, side).replicas;
  }

  lemma HalfOfMessage(net: Net, step: Step, side: Side)
    requires SameNodes(net) && (step.Send? || step.Receive?) && step.node in net.replicas
    ensures var half := HalfStep(net, step, side);
            HalfNet(Next(net, step), side) == if half == [] then HalfNet(net, side) else G.Next(HalfNet(net, side), half[0])
  {
    var mine := net.replicas[step.node];
    if step.Send? {
      SentHalves(net, mine, side);
    } else if step.snapshot in net.sent {
      var snapshot := step.snapshot;
      assert Half(snapshot, side) in HalfNet(net, side).sent;
      ReplicaHalves(net, step.node,
                    Pair(Join(mine.positive, snapshot.positive), Join(mine.negative, snapshot.negative)), side);
    }
  }

  lemma HalfOfStep(net: Net, step: Step, side: Side)
    requires SameNodes(net)
    ensures SameNodes(Next(net, step))
    ensures var half := HalfStep(net, step, side);
            HalfNet(Next(net, step), side) == if half == [] then HalfNet(net, side) else G.Next(HalfNet(net, side), half[0])
  {
    if step.node in net.replicas {
      if step.Increment? || step.Decrement? {
        HalfOfCount(net, step, side);
      } else {
        HalfOfMessage(net, step, side);
      }
    }
  }

  lemma {:induction false} HalfOfRun(net: Net, steps: seq<Step>, side: Side)
    requires SameNodes(net)
    ensures SameNodes(After(net, steps))
    ensures HalfNet(After(net, steps), side) == G.After(HalfNet(net, side), Project(net, steps, side))
  {
    if steps != [] {
      var init, last := steps[..|steps| - 1], steps[|steps| - 1];
      HalfOfRun(net, init, side);
      HalfOfStep(After(net, init), last, side);
      AfterAtMostOne(HalfNet(net, side), Project(net, init, side), HalfStep(After(net, init), last, side));
    }
  }

  lemma PrefixOfConcat<T>(prefix: seq<T>, a: seq<T>, b: seq<T>)
    requires prefix <= a
    ensures prefix <= a + b
  {
  }

  lemma {:induction false} ProjectPrefix(net: Net, steps: seq<Step>, side: Side, i: nat)
    requires i < |steps|
    ensures Project(net, steps[..i], side) + HalfStep(After(net, steps[..i]), steps[i], side) <= Project(net, steps, side)
  {
    var n := |steps| - 1;
    if i < n {
      ProjectPrefix(net, steps[..n], side, i);
      assert steps[..n][..i] == steps[..i] && steps[..n][i] == steps[i];
      PrefixOfConcat(Project(net, steps[..i], side) + HalfStep(After(net, steps[..i]), steps[i], side),
                     Project(net, steps[..n], side), HalfStep(After(net, steps[..n]), steps[n], side));
    }
  }

  // ---------------------------------------------------------------------------
  // Convergence
  // ---------------------------------------------------------------------------

  ghost predicate Quiet(steps: seq<Step>)
  {
    forall i :: 0 <= i < |steps| ==> steps[i].Send? || steps[i].Receive?
  }

  lemma {:induction false} HalfIsQuiet(net: Net, steps: seq<Step>, side: Side)
    requires Quiet(steps)
    ensures G.Quiet(Project(net, steps, side))
  {
    if steps != [] {
      HalfIsQuiet(net, steps[..|steps| - 1], side);
    }
  }

  /** Step `i` merges a snapshot into `node` that holds the owner's final count of this side. */
  ghost predicate LearnsAt(net: Net, steps: seq<Step>, node: NodeId, owner: NodeId, side: Side, i: nat)
  {
    && i < |steps| && steps[i].Receive? && steps[i].node == node
    && steps[i].snapshot in After(net, steps[..i]).sent
    && Slot(Half(steps[i].snapshot, side), owner) == G.Own(HalfNet(net, side), owner)
  }

  ghost predicate Learns(net: Net, steps: seq<Step>, node: NodeId, owner: NodeId, side: Side)
  {
    exists i: nat :: LearnsAt(net, steps, node, owner, side, i)
  }

  lemma HalfLearns(net: Net, steps: seq<Step>, node: NodeId, owner: NodeId, side: Side)
    requires SameNodes(net) && Learns(net, steps, node, owner, side)
    ensures G.Learns(HalfNet(net, side), Project(net, steps, side), node, owner)
  {
    var i: nat :| LearnsAt(net, steps, node, owner, side, i);
    var before, all := Project(net, steps[..i], side), Project(net, steps, side);
    ProjectPrefix(net, steps, side, i);
    HalfOfRun(net, steps[..i], side);
    var half := Half(steps[i].snapshot, side);
    assert half in HalfNet(After(net, steps[..i]), side).sent;
    LearnsFromPrefix(HalfNet(net, side), before, all, node, owner, half);
  }

  lemma LearnsFromPrefix(net: G.Net, before: seq<G.Step>, all: seq<G.Step>, node: NodeId, owner: NodeId, half: Counts)
    requires before + [G.Receive(node, half)] <= all
    requires half in G.After(net, before).sent && Slot(half, owner) == G.Own(net, owner)
    ensures G.Learns(net, all, node, owner)
  {
    var j := |before|;
    assert all[j] == (before + [G.Receive(node, half)])[j];
    assert all[..j] == before;
  }

  ghost predicate AllLearn(net: Net, quiet: seq<Step>, nodes: set<NodeId>, side: Side)
  {
    forall node, owner :: node in nodes && owner in nodes && node != owner ==> Learns(net, quiet, node, owner, side)
  }

  /** One half of the replicas has converged. */
  ghost predicate Settled(net: Net, nodes: set<NodeId>, side: Side)
  {
    && net.replicas.Keys == nodes && G.Invariant(HalfNet(net, side))
    && forall node :: node in nodes ==> G.KnowsAll(HalfNet(net, side), node)
  }

  /** One half of a run in which every replica learnt every final count has converged. */
  lemma HalfConverges(nodes: set<NodeId>, steps: seq<Step>, quiet: seq<Step>, side: Side)
    requires Quiet(quiet) && AllLearn(After(Start(nodes), steps), quiet, nodes, side)
    ensures Settled(After(After(Start(nodes), steps), quiet), nodes, side)
  {
    var net := After(Start(nodes), steps);
    var begun, settled := Project(Start(nodes), steps, side), Project(net, quiet, side);
    assert HalfNet(Start(nodes), side) == G.Start(nodes);
    HalfOfRun(Start(nodes), steps, side);
    HalfOfRun(net, quiet, side);
    HalfIsQuiet(net, quiet, side);
    forall node, owner | node in nodes && owner in nodes && node != owner
      ensures G.Learns(G.After(G.Start(nodes), begun), settled, node, owner)
    {
      HalfLearns(net, quiet, node, owner, side);
    }
    G.CountersConverge(nodes, begun, settled);
    G.InvariantAlways(nodes, begun);
    G.QuietKeepsOwners(G.After(G.Start(nodes), begun), settled);
    assert HalfNet(After(net, quiet), side).replicas.Keys == After(net, quiet).replicas.Keys;
  }

  /** The replica's value is increments minus decrements, exactly when that is an `i64`. */
  ghost predicate ReportsTotal(net: Net, node: NodeId)
  {
    var total := Sum(net.added) - Sum(net.taken);
    && node in net.replicas
    && (Reported(net.replicas[node].positive, net.replicas[node].negative) == total <==> IsI64(total))
  }

  ghost predicate Unsaturated(net: Net)
  {
    G.Unsaturated(HalfNet(net, Plus)) && G.Unsaturated(HalfNet(net, Minus))
  }

  lemma HalfSum(net: Net, nodes: set<NodeId>, side: Side, node: NodeId)
    requires Settled(net, nodes, side) && G.Unsaturated(HalfNet(net, side)) && node in nodes
    ensures node in net.replicas
    ensures Sum(Half(net.replicas[node], side)) == Sum(if side.Plus? then net.added else net.taken)
  {
    G.ConvergedSum(HalfNet(net, side), node);
  }

  lemma SettledReports(net: Net, nodes: set<NodeId>, node: NodeId)
    requires Settled(net, nodes, Plus) && Settled(net, nodes, Minus) && Unsaturated(net) && node in nodes
    ensures ReportsTotal(net, node)
  {
    HalfSum(net, nodes, Plus, node);
    HalfSum(net, nodes, Minus, node);
    ReportedIff(net.replicas[node].positive, net.replicas[node].negative, Sum(net.added), Sum(net.taken));
  }

  lemma AllSettledReport(net: Net, nodes: set<NodeId>)
    requires Settled(net, nodes, Plus) && Settled(net, nodes, Minus) && Unsaturated(net)
    ensures forall node :: node in nodes ==> ReportsTotal(net, node)
  {
    forall node | node in nodes ensures ReportsTotal(net, node) {
      SettledReports(net, nodes, node);
    }
  }

  /**
   * Positive-negative counter gossip: run anything, then stop counting. Once every
   * replica has merged every final count of both sides, and no slot saturated, all
   * of them report increments minus decrements, exactly when that is an `i64`.
   */
  lemma PnCountersConverge(nodes: set<NodeId>, steps: seq<Step>, quiet: seq<Step>)
    requires Quiet(quiet) && Unsaturated(After(After(Start(nodes), steps), quiet))
    requires AllLearn(After(Start(nodes), steps), quiet, nodes, Plus)
    requires AllLearn(After(Start(nodes), steps), quiet, nodes, Minus)
    ensures forall node :: node in nodes ==> ReportsTotal(After(After(Start(nodes), steps), quiet), node)
  {
    HalfConverges(nodes, steps, quiet, Plus);
    HalfConverges(nodes, steps, quiet, Minus);
    AllSettledReport(After(After(Start(nodes), steps), quiet), nodes);
  }
}
