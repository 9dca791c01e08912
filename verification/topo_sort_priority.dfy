/**
 The priority linear scheduler of `src/app/topoSortPriority.js`: Kahn's
 algorithm where each step takes, among the ready ids, one with the most
 dependents, ties broken by label.
 */
module TopoSortPriority {
  import opened Seqs
  import opened Graph
  import opened Kahn
  import opened TopoSort

  /** The label rank of every item id, as the scheduler tabulates it. */
  function LabelRanks(items: seq<Item>): (m: map<Id, nat>)
    requires NoDup(Ids(items))
    ensures forall v :: v in m <==> v in Ids(items)
    ensures forall k :: 0 <= k < |items| ==> m[items[k].id] == items[k].labelRank
  {
    var ids := Ids(items);
    forall k | 0 <= k < |items| ensures IndexOf(ids, items[k].id) == k {
      IndexOfNoDup(ids, k);
    }
    map v | v in Elems(ids) :: items[IndexOf(ids, v)].labelRank
  }

  /** The label rank of an item id. */
  function LabelRank(items: seq<Item>, v: Id): nat
    requires NoDup(Ids(items)) && v in Ids(items)
  {
    LabelRanks(items)[v]
  }

  /** The comparator of the priority rule: `a` sorts before `b` when it has more
      dependents, or as many and a smaller label. */
  predicate Before(items: seq<Item>, edges: seq<Entry>, a: Id, b: Id)
    requires NoDup(Ids(items)) && a in Ids(items) && b in Ids(items)
  {
    || OutDeg(edges, a) > OutDeg(edges, b)
    || (OutDeg(edges, a) == OutDeg(edges, b) && LabelRank(items, a) < LabelRank(items, b))
  }

  /** The sort keys as the scheduler tabulates them: out-degrees and label ranks. */
  function Keys(items: seq<Item>, edges: seq<Entry>): (d: Discipline)
    requires NoDup(Ids(items))
    ensures d.Priority?
  {
    Priority(BuildOutDeg(Zeros(Ids(items)), edges), LabelRanks(items))
  }

  /** The tabulated keys compare item ids exactly as the comparator does. */
  lemma KeysAgree(items: seq<Item>, edges: seq<Entry>, a: Id, b: Id)
    requires NoDup(Ids(items)) && a in Ids(items) && b in Ids(items)
    ensures Better(Keys(items, edges), a, b) <==> Before(items, edges, a, b)
  {
    var d := Keys(items, edges);
    assert GetOr0(d.outdeg, a) == OutDeg(edges, a);
    assert GetOr0(d.outdeg, b) == OutDeg(edges, b);
  }

  /** The id processed at step `k` is a best one among the ids ready at that step. */
  ghost predicate BestReady(items: seq<Item>, edges: seq<Entry>, order: seq<Id>, k: nat)
    requires NoDup(Ids(items)) && k < |order| && order[k] in Ids(items)
  {
    forall v :: v in Ids(items) && ReadyAt(edges, order, k, v) ==> !Before(items, edges, v, order[k])
  }

  /** The linear scheduler with priorities: among the ready ids it always
      processes one with the most dependents, ties going to the smaller label. */
  function TopoSortPriority(items: seq<Item>, edges: seq<Entry>): (p: LinearPlan)
    requires NoDup(Ids(items)) && EndpointsIn(edges, Ids(items))
    ensures p.ok <==> !HasCycle(edges)
    ensures p.ok ==> multiset(p.order) == multiset(Ids(items)) && RespectsEdges(edges, p.order)
    ensures p.ok ==> forall k :: 0 <= k < |p.order| ==> p.order[k] in Ids(items) && BestReady(items, edges, p.order, k)
    ensures p.ok ==> p.cycleNodes == []
    ensures !p.ok ==> p.order == [] && p.cycleNodes != []
    ensures NoDup(p.cycleNodes)
    ensures forall v :: v in p.cycleNodes <==> v in Ids(items) && Blocked(edges, v)
  {
    var ids := Ids(items);
    var d := Keys(items, edges);
    var r := Run(ids, edges, d);
    Report(ids, edges, r.0, r.1);
    if |r.0| != |ids| then LinearPlan(false, [], Stuck(ids, r.1))
    else
      assert forall k :: 0 <= k < |r.0| ==> r.0[k] in ids && BestReady(items, edges, r.0, k) by {
        forall k | 0 <= k < |r.0| ensures r.0[k] in ids && BestReady(items, edges, r.0, k) {
          assert Greedy(ids, edges, d, r.0, k);
          forall v | v in ids && ReadyAt(edges, r.0, k, v) ensures !Before(items, edges, v, r.0[k]) {
            KeysAgree(items, edges, v, r.0[k]);
          }
        }
      }
      LinearPlan(true, r.0, [])
  }
}
