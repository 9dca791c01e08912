/**
 The FIFO linear scheduler of `src/app/topoSort.js`: Kahn's algorithm with a
 queue seeded by the ids of in-degree zero in item order.
 */
module TopoSort {
  import opened Seqs
  import opened Graph
  import opened Kahn
  import opened FifoOrder

  /** A linear scheduler's answer: success, the ids in processing order, and
      the ids left over when a cycle blocks the plan. */
  datatype LinearPlan = LinearPlan(ok: bool, order: seq<Id>, cycleNodes: seq<Id>)

  /** The item ids that no dependency points at, in item order: the initial queue. */
  function Sources(ids: seq<Id>, edges: seq<Entry>): (r: seq<Id>)
    ensures forall v :: v in r <==> v in ids && InDeg(edges, v) == 0
    ensures NoDup(ids) ==> forall i, j :: 0 <= i < j < |r| ==> IndexOf(ids, r[i]) < IndexOf(ids, r[j])
  {
    ZeroInDegree(ids, InitialCounts(ids, edges))
  }

  /** The linear scheduler with a queue: the ids without predecessors in item
      order, then each id once its last predecessor has been processed. */
  function TopoSort(items: seq<Item>, edges: seq<Entry>): (p: LinearPlan)
    requires NoDup(Ids(items)) && EndpointsIn(edges, Ids(items))
    ensures p.ok <==> !HasCycle(edges)
    ensures p.ok ==> multiset(p.order) == multiset(Ids(items)) && RespectsEdges(edges, p.order)
    ensures p.ok ==> IsPrefix(Sources(Ids(items), edges), p.order)
    ensures p.ok ==> QueueOrder(Ids(items), edges, p.order)
    ensures p.ok ==> p.cycleNodes == []
    ensures !p.ok ==> p.order == [] && p.cycleNodes != []
    ensures NoDup(p.cycleNodes)
    ensures forall v :: v in p.cycleNodes <==> v in Ids(items) && Blocked(edges, v)
  {
    var ids := Ids(items);
    var r := Run(ids, edges, Fifo);
    RunOrdered(ids, edges);
    Report(ids, edges, r.0, r.1);
    if |r.0| != |ids| then LinearPlan(false, [], Stuck(ids, r.1))
    else LinearPlan(true, r.0, [])
  }

  /** Without any dependency the plan is the item order itself. */
  lemma TopoSortNoDependencies(items: seq<Item>, edges: seq<Entry>)
    requires NoDup(Ids(items))
    requires forall k :: 0 <= k < |edges| ==> edges[k].NoneMark?
    ensures TopoSort(items, edges).ok
    ensures TopoSort(items, edges).order == Ids(items)
  {
    var ids := Ids(items);
    var p := TopoSort(items, edges);
    assert forall u, v :: Dep(u, v) !in edges;
    RankForbidsCycle(edges, v => 0);
    forall v | v in ids ensures InDeg(edges, v) == 0 {
      ResidualZero(edges, v, []);
    }
    var src := Sources(ids, edges);
    FilterNoDup(ids, v => v in InitialCounts(ids, edges) && InitialCounts(ids, edges)[v] == 0);
    assert src == ids by {
      FilterAll(ids, v => v in InitialCounts(ids, edges) && InitialCounts(ids, edges)[v] == 0);
    }
    assert |p.order| == |ids| by {
      assert |multiset(p.order)| == |multiset(ids)|;
    }
  }
}
