/**
 * Replicas of a counter that gossip: each increments its own slot, takes
 * snapshots of its state, and merges any snapshot ever taken, however stale,
 * in any order and any number of times.
 */
module Gossip {
  import opened Crdt
  import opened Sums

  /** Attempted steps; one that names no replica, or a snapshot never taken, does nothing. */
  datatype Step =
    | Increment(node: NodeId, amount: nat)
    | Send(node: NodeId)
    | Receive(node: NodeId, snapshot: Counts)

  datatype Net = Net(
    replicas: map<NodeId, Counts>,
    sent: set<Counts>,
    issued: map<NodeId, nat>)  // what each node really added

  ghost function Start(nodes: set<NodeId>): (net: Net)
  {
    Net(map node | node in nodes :: map[], {}, map node | node in nodes :: 0)
  }

  ghost function Next(net: Net, step: Step): (next: Net)
  {
    if step.node !in net.replicas || step.node !in net.issued then net
    else
      var mine := net.replicas[step.node];
      match step
      case Increment(node, amount) =>
        net.(replicas := net.replicas[node := mine[node := SaturatingAdd(Slot(mine, node), amount)]],
             issued := net.issued[node := net.issued[node] + amount])
      case Send(node) => net.(sent := net.sent + {mine})
      case Receive(node, snapshot) =>
        if snapshot in net.sent then net.(replicas := net.replicas[node := Join(mine, snapshot)]) else net
  }

  ghost function After(net: Net, steps: seq<Step>): (last: Net)
  {
    if steps == [] then net else Next(After(net, steps[..|steps| - 1]), steps[|steps| - 1])
  }

  /** A node's own slot in its own replica. */
  ghost function Own(net: Net, node: NodeId): (n: nat)
  {
    if node in net.replicas then Slot(net.replicas[node], node) else 0
  }

  /** No slot is ahead of its owner. */
  ghost predicate Behind(counts: Counts, net: Net)
  {
    counts.Keys <= net.replicas.Keys && forall node :: Slot(counts, node) <= Own(net, node)
  }

  function Saturated(n: nat): (m: nat)
  {
    if n < U64 then n else U64 - 1
  }

  ghost predicate Invariant(net: Net)
  {
    && net.issued.Keys == net.replicas.Keys
    && (forall node :: node in net.replicas ==> Behind(net.replicas[node], net))
    && (forall counts :: counts in net.sent ==> Behind(counts, net))
    && (forall node :: node in net.issued ==> Own(net, node) == Saturated(net.issued[node]))
  }

  /** Owners only move forward, so nothing that was behind gets ahead. */
  lemma StillBehind(counts: Counts, net: Net, next: Net)
    requires Behind(counts, net) && next.replicas.Keys == net.replicas.Keys
    requires forall node :: Own(net, node) <= Own(next, node)
    ensures Behind(counts, next)
  {
    forall node ensures Slot(counts, node) <= Own(next, node) {
      assert Slot(counts, node) <= Own(net, node) <= Own(next, node);
    }
  }

  lemma OwnerAdvances(net: Net, step: Step, node: NodeId)
    requires Invariant(net)
    ensures Own(net, node) <= Own(Next(net, step), node)
    ensures !step.Increment? ==> Own(net, node) == Own(Next(net, step), node)
    ensures node in net.issued ==>
              node in Next(net, step).issued && Own(Next(net, step), node) == Saturated(Next(net, step).issued[node])
  {
    if node in net.issued {
      assert Own(net, node) == Saturated(net.issued[node]);
    }
    if step.Receive? && step.snapshot in net.sent {
      assert Behind(step.snapshot, net);
      assert Slot(step.snapshot, node) <= Own(net, node);
    }
  }

  lemma OwnersAdvance(net: Net, step: Step)
    requires Invariant(net)
    ensures Next(net, step).replicas.Keys == net.replicas.Keys == Next(net, step).issued.Keys
    ensures forall node :: Own(net, node) <= Own(Next(net, step), node)
    ensures !step.Increment? ==> forall node :: Own(net, node) == Own(Next(net, step), node)
    ensures !step.Increment? ==> Next(net, step).issued == net.issued
  {
    forall node
      ensures Own(net, node) <= Own(Next(net, step), node)
      ensures !step.Increment? ==> Own(net, node) == Own(Next(net, step), node)
    {
      OwnerAdvances(net, step, node);
    }
  }

  /** A merged snapshot, or one's own slot moved with its owner, leaves a replica behind the owners. */
  lemma ReplicaStaysBehind(net: Net, step: Step, node: NodeId)
    requires Invariant(net) && node in net.replicas
    ensures node in Next(net, step).replicas && Behind(Next(net, step).replicas[node], Next(net, step))
  {
    var next := Next(net, step);
    OwnersAdvance(net, step);
    StillBehind(net.replicas[node], net, next);
    if step.node == node && step.Receive? && step.snapshot in net.sent {
      StillBehind(step.snapshot, net, next);
      JoinBehind(net.replicas[node], step.snapshot, next);
    } else if step.node == node && step.Increment? {
      IncrementBehind(net.replicas[node], next.replicas[node], node, next);
    }
  }

  lemma JoinBehind(a: Counts, b: Counts, net: Net)
    requires Behind(a, net) && Behind(b, net)
    ensures Behind(Join(a, b), net)
  {
    forall node ensures Slot(Join(a, b), node) <= Own(net, node) {
      assert Slot(a, node) <= Own(net, node) && Slot(b, node) <= Own(net, node);
    }
  }

  lemma IncrementBehind(before: Counts, after: Counts, node: NodeId, net: Net)
    requires Behind(before, net) && node in net.replicas && net.replicas[node] == after
    requires after.Keys == before.Keys + {node}
    requires forall other :: other != node ==> Slot(after, other) == Slot(before, other)
    ensures Behind(after, net)
  {
    forall other ensures Slot(after, other) <= Own(net, other) {
      assert Slot(before, other) <= Own(net, other);
    }
  }

  lemma InvariantStep(net: Net, step: Step)
    requires Invariant(net)
    ensures Invariant(Next(net, step))
  {
    var next := Next(net, step);
    OwnersAdvance(net, step);
    forall counts | counts in next.sent ensures Behind(counts, next) {
      StillBehind(counts, net, next);
    }
    forall node | node in next.replicas ensures Behind(next.replicas[node], next) {
      ReplicaStaysBehind(net, step, node);
    }
    forall node | node in next.issued ensures Own(next, node) == Saturated(next.issued[node]) {
      OwnerAdvances(net, step, node);
    }
  }

  /** On every run, no slot anywhere is ahead of its owner, and owners hold what they really added. */
  lemma {:induction false} InvariantAlways(nodes: set<NodeId>, steps: seq<Step>)
    ensures Invariant(After(Start(nodes), steps))
    ensures After(Start(nodes), steps).replicas.Keys == nodes
  {
    if steps != [] {
      var init := steps[..|steps| - 1];
      InvariantAlways(nodes, init);
      InvariantStep(After(Start(nodes), init), steps[|steps| - 1]);
      OwnersAdvance(After(Start(nodes), init), steps[|steps| - 1]);
    }
  }

  // ---------------------------------------------------------------------------
  // Convergence once increments stop
  // ---------------------------------------------------------------------------

  ghost predicate Quiet(steps: seq<Step>)
  {
    forall i :: 0 <= i < |steps| ==> !steps[i].Increment?
  }

  /** Somewhere in the steps `node` merges a snapshot holding the final count of `owner`. */
  ghost predicate Learns(net: Net, steps: seq<Step>, node: NodeId, owner: NodeId)
  {
    exists i :: 0 <= i < |steps| && steps[i].Receive? && steps[i].node == node
                && steps[i].snapshot in After(net, steps[..i]).sent
                && Slot(steps[i].snapshot, owner) == Own(net, owner)
  }

  lemma {:induction false} QuietKeepsOwners(net: Net, steps: seq<Step>)
    requires Invariant(net) && Quiet(steps)
    ensures Invariant(After(net, steps)) && After(net, steps).issued == net.issued
    ensures After(net, steps).replicas.Keys == net.replicas.Keys
    ensures forall node :: Own(After(net, steps), node) == Own(net, node)
  {
    if steps != [] {
      var init, last := steps[..|steps| - 1], steps[|steps| - 1];
      QuietKeepsOwners(net, init);
      InvariantStep(After(net, init), last);
      OwnersAdvance(After(net, init), last);
    }
  }

  /** A quiet step never unlearns, and merging the owner's count learns it. */
  lemma QuietStepKnows(net: Net, step: Step, node: NodeId, owner: NodeId)
    requires Invariant(net) && node in net.replicas && !step.Increment?
    ensures node in Next(net, step).replicas
    ensures Slot(net.replicas[node], owner) == Own(net, owner) ==>
              Slot(Next(net, step).replicas[node], owner) == Own(net, owner)
    ensures step.Receive? && step.node == node && step.snapshot in net.sent && Slot(step.snapshot, owner) == Own(net, owner) ==>
              Slot(Next(net, step).replicas[node], owner) == Own(net, owner)
  {
    assert Behind(net.replicas[node], net);
    assert Slot(net.replicas[node], owner) <= Own(net, owner);
    if step.Receive? && step.snapshot in net.sent {
      assert Behind(step.snapshot, net);
      assert Slot(step.snapshot, owner) <= Own(net, owner);
    }
  }

  /** What step i taught is still known at the end. */
  lemma {:induction false} TaughtStaysKnown(net: Net, steps: seq<Step>, node: NodeId, owner: NodeId, i: nat)
    requires Invariant(net) && Quiet(steps) && node in net.replicas && i < |steps|
    requires steps[i].Receive? && steps[i].node == node && steps[i].snapshot in After(net, steps[..i]).sent
    requires Slot(steps[i].snapshot, owner) == Own(net, owner)
    ensures node in After(net, steps).replicas
    ensures Slot(After(net, steps).replicas[node], owner) == Own(net, owner)
  {
    var init, last := steps[..|steps| - 1], steps[|steps| - 1];
    QuietKeepsOwners(net, init);
    assert Own(After(net, init), owner) == Own(net, owner);
    if i < |init| {
      assert init[..i] == steps[..i] && init[i] == steps[i];
      TaughtStaysKnown(net, init, node, owner, i);
    }
    QuietStepKnows(After(net, init), last, node, owner);
  }

  lemma LearntStaysKnown(net: Net, steps: seq<Step>, node: NodeId, owner: NodeId)
    requires Invariant(net) && Quiet(steps) && node in net.replicas
    requires node == owner || Learns(net, steps, node, owner)
    ensures node in After(net, steps).replicas
    ensures Slot(After(net, steps).replicas[node], owner) == Own(net, owner)
  {
    if node == owner {
      QuietKeepsOwners(net, steps);
      assert Own(After(net, steps), node) == Own(net, node);
    } else {
      var i :| 0 <= i < |steps| && steps[i].Receive? && steps[i].node == node
               && steps[i].snapshot in After(net, steps[..i]).sent
               && Slot(steps[i].snapshot, owner) == Own(net, owner);
      TaughtStaysKnown(net, steps, node, owner, i);
    }
  }

  /** Slots that are absent or zero add nothing to a sum. */
  lemma {:induction false} SumBySlots(counts: Counts, padded: Counts)
    requires counts.Keys <= padded.Keys
    requires forall node :: Slot(counts, node) == Slot(padded, node)
    ensures Sum(counts) == Sum(padded)
    decreases |padded|
  {
    if padded != map[] {
      assert padded.Keys != {};
      var node :| node in padded.Keys;
      SumTakesOut(padded, node);
      assert Slot(counts, node) == padded[node];
      if node in counts {
        SumTakesOut(counts, node);
      } else {
        assert counts - {node} == counts;
      }
      SlotsWithout(counts, padded, node);
      SumBySlots(counts - {node}, padded - {node});
    }
  }

  lemma SlotsWithout(a: Counts, b: Counts, node: NodeId)
    requires forall other :: Slot(a, other) == Slot(b, other)
    ensures forall other :: Slot(a - {node}, other) == Slot(b - {node}, other)
  {
    forall other ensures Slot(a - {node}, other) == Slot(b - {node}, other) {
      assert Slot(a, other) == Slot(b, other);
    }
  }

  /** A converged replica: it knows every owner's count. */
  ghost predicate KnowsAll(net: Net, node: NodeId)
  {
    node in net.replicas && forall owner :: owner in net.replicas ==> Slot(net.replicas[node], owner) == Own(net, owner)
  }

  lemma Fits(total: nat)
    ensures total % U64 == total <==> total < U64
  {
  }

  /** No node has added more than its slot can hold. */
  ghost predicate Unsaturated(net: Net)
  {
    forall owner :: owner in net.issued ==> net.issued[owner] < U64
  }

  /** A converged replica reports the true total exactly when that total fits in 64 bits. */
  lemma ConvergedValue(net: Net, node: NodeId)
    requires Invariant(net) && KnowsAll(net, node)
    ensures Sum(net.replicas[node]) % U64 == Sum(net.issued) <==> Sum(net.issued) < U64
  {
    Fits(Sum(net.issued));
    if Sum(net.issued) < U64 {
      forall owner | owner in net.issued ensures net.issued[owner] < U64 {
        SumTakesOut(net.issued, owner);
      }
      ConvergedSum(net, node);
    }
  }

  /** Below saturation its slots add up to what was really added, wherever that lies. */
  lemma ConvergedSum(net: Net, node: NodeId)
    requires Invariant(net) && KnowsAll(net, node) && Unsaturated(net)
    ensures Sum(net.replicas[node]) == Sum(net.issued)
  {
    assert Behind(net.replicas[node], net);
    forall owner ensures Slot(net.replicas[node], owner) == Slot(net.issued, owner) {
      if owner in net.issued {
        assert Own(net, owner) == Saturated(net.issued[owner]);
      }
    }
    SumBySlots(net.replicas[node], net.issued);
  }

  /**
   * Counter gossip: run anything, then stop incrementing. Once every replica has
   * merged every final count, all of them report the true total, if it fits.
   */
  lemma CountersConverge(nodes: set<NodeId>, steps: seq<Step>, quiet: seq<Step>)
    requires Quiet(quiet)
    requires forall node, owner :: node in nodes && owner in nodes && node != owner ==>
               Learns(After(Start(nodes), steps), quiet, node, owner)
    ensures var last := After(After(Start(nodes), steps), quiet);
            forall node :: node in nodes ==>
              && KnowsAll(last, node)
              && (Sum(last.replicas[node]) % U64 == Sum(last.issued) <==> Sum(last.issued) < U64)
  {
    var net := After(Start(nodes), steps);
    var last := After(net, quiet);
    InvariantAlways(nodes, steps);
    QuietKeepsOwners(net, quiet);
    forall node | node in nodes
      ensures KnowsAll(last, node) && (Sum(last.replicas[node]) % U64 == Sum(last.issued) <==> Sum(last.issued) < U64)
    {
      forall owner | owner in last.replicas ensures Slot(last.replicas[node], owner) == Own(last, owner) {
        LearntStaysKnown(net, quiet, node, owner);
      }
      ConvergedValue(last, node);
    }
  }
}
