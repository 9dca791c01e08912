/**
 The wave scheduler of `src/app/planLevels.js`: Kahn's algorithm run one
 frontier at a time. Every id of in-degree zero forms the first wave; the
 ids whose count reaches zero while a wave is relaxed form the next one.
 */
module PlanLevels {
  import opened Seqs
  import opened Graph
  import opened Kahn
  import opened TopoSort
  import opened FifoOrder

  /** The wave planner's answer: success, the waves, the ids in processing
      order, and the ids left over when a cycle blocks the plan. */
  datatype WavePlan = WavePlan(ok: bool, levels: seq<seq<Id>>, order: seq<Id>, cycleNodes: seq<Id>)

  /** The inner loops over one frontier: relax the targets of each id in turn.
      The second component is `next`, the ids whose count reached zero. */
  function RelaxFrontier(edges: seq<Entry>, res: map<Id, int>, frontier: seq<Id>): (r: (map<Id, int>, seq<Id>))
    requires forall u :: u in frontier ==> forall v :: v in Targets(edges, u) ==> v in res
    ensures r.0.Keys == res.Keys
    ensures forall v :: v in r.1 ==> exists u :: u in frontier && v in Targets(edges, u)
    decreases |frontier|
  {
    if |frontier| == 0 then (res, [])
    else
      var u := frontier[0];
      var (res1, ready1) := Relax(res, Targets(edges, u));
      var (res2, ready2) := RelaxFrontier(edges, res1, frontier[1..]);
      forall v | v in ready1 + ready2 ensures exists w :: w in frontier && v in Targets(edges, w) {
        if v in ready1 {
          assert u in frontier && v in Targets(edges, u);
        } else {
          var w :| w in frontier[1..] && v in Targets(edges, w);
          assert w in frontier;
        }
      }
      (res2, ready1 + ready2)
  }

  /** Taking the head of the frontier off the ready list, the way `Step` does. */
  lemma FrontierShape(done: seq<Id>, frontier: seq<Id>, acc: seq<Id>, ready: seq<Id>)
    requires |frontier| > 0
    ensures (frontier + acc)[0] == frontier[0]
    ensures (frontier + acc)[..0] + (frontier + acc)[1..] + ready == frontier[1..] + (acc + ready)
    ensures done + [frontier[0]] + frontier[1..] == done + frontier
  {
    assert (frontier + acc)[1..] == frontier[1..] + acc;
  }

  /** Relaxing the head of the frontier is one step of Kahn's algorithm. */
  lemma RelaxHead(ids: seq<Id>, edges: seq<Entry>, done: seq<Id>, frontier: seq<Id>, acc: seq<Id>, res: map<Id, int>)
    requires Setup(ids, edges)
    requires Inv(ids, edges, done, frontier + acc, res)
    requires |frontier| > 0
    ensures forall v :: v in Targets(edges, frontier[0]) ==> v in res
    ensures var r1 := Relax(res, Targets(edges, frontier[0]));
            Inv(ids, edges, done + [frontier[0]], frontier[1..] + (acc + r1.1), r1.0)
  {
    Step(ids, edges, done, frontier + acc, res, 0);
    FrontierShape(done, frontier, acc, Relax(res, Targets(edges, frontier[0])).1);
  }

  /** The dependencies out of a frontier of ready ids only lead to counted ids. */
  lemma FrontierTargets(ids: seq<Id>, edges: seq<Entry>, done: seq<Id>, frontier: seq<Id>, acc: seq<Id>, res: map<Id, int>)
    requires Setup(ids, edges)
    requires Inv(ids, edges, done, frontier + acc, res)
    ensures forall u :: u in frontier ==> forall v :: v in Targets(edges, u) ==> v in res
  {
    forall w | w in frontier ensures forall v :: v in Targets(edges, w) ==> v in res {
      assert w in frontier + acc;
      TargetsIn(ids, edges, w);
    }
  }

  /** Relaxing a whole frontier is processing its ids one after the other:
      the frontier joins the processed ids and `next` joins the ready ones. */
  lemma {:induction false} RelaxFrontierInv(ids: seq<Id>, edges: seq<Entry>, done: seq<Id>, frontier: seq<Id>, acc: seq<Id>, res: map<Id, int>)
    requires Setup(ids, edges)
    requires Inv(ids, edges, done, frontier + acc, res)
    requires forall u :: u in frontier ==> forall v :: v in Targets(edges, u) ==> v in res
    ensures var r := RelaxFrontier(edges, res, frontier);
            Inv(ids, edges, done + frontier, acc + r.1, r.0)
    decreases |frontier|
  {
    if |frontier| > 0 {
      var u := frontier[0];
      RelaxHead(ids, edges, done, frontier, acc, res);
      var r1 := Relax(res, Targets(edges, u));
      FrontierTargets(ids, edges, done + [u], frontier[1..], acc + r1.1, r1.0);
      RelaxFrontierInv(ids, edges, done + [u], frontier[1..], acc + r1.1, r1.0);
      var r2 := RelaxFrontier(edges, r1.0, frontier[1..]);
      assert RelaxFrontier(edges, res, frontier) == (r2.0, r1.1 + r2.1);
      FrontierShape(done, frontier, acc, r1.1);
      ConcatAssoc(acc, r1.1, r2.1);
      InvCongruent(ids, edges, done + [u] + frontier[1..], done + frontier,
                   acc + r1.1 + r2.1, acc + (r1.1 + r2.1), r2.0);
    } else {
      assert frontier + acc == acc && done + frontier == done && acc + [] == acc;
    }
  }

  /** The lists a frontier step joins, regrouped. */
  lemma FrontierJoin(done: seq<Id>, frontier: seq<Id>, acc: seq<Id>, t1: seq<Id>, t2: seq<Id>)
    requires |frontier| > 0
    ensures done + [frontier[0]] + frontier[1..] + (acc + t1) == done + (frontier + acc) + t1
    ensures done + [frontier[0]] + frontier[1..] + (acc + t1) + t2 == done + frontier + acc + (t1 + t2)
  {
    assert frontier == [frontier[0]] + frontier[1..];
  }

  /** Relaxing a frontier id by id is the queue discipline applied to the
      frontier followed by the ids it has freed so far, so it keeps the queue
      order. */
  lemma {:induction false} RelaxFrontierOrdered(ids: seq<Id>, edges: seq<Entry>,
                                                done: seq<Id>, frontier: seq<Id>, acc: seq<Id>, res: map<Id, int>)
    requires Setup(ids, edges)
    requires Inv(ids, edges, done, frontier + acc, res)
    requires forall u :: u in frontier ==> forall v :: v in Targets(edges, u) ==> v in res
    requires QueueOrder(ids, edges, done + frontier + acc)
    ensures QueueOrder(ids, edges, done + frontier + acc + RelaxFrontier(edges, res, frontier).1)
    decreases |frontier|
  {
    if |frontier| == 0 {
      assert done + frontier + acc + [] == done + frontier + acc;
    } else {
      var u := frontier[0];
      RelaxHead(ids, edges, done, frontier, acc, res);
      FrontierShape(done, frontier, acc, []);
      assert done + frontier + acc == done + (frontier + acc);
      FifoStep(ids, edges, done, frontier + acc, res);
      var r1 := Relax(res, Targets(edges, u));
      FrontierTargets(ids, edges, done + [u], frontier[1..], acc + r1.1, r1.0);
      FrontierJoin(done, frontier, acc, r1.1, []);
      RelaxFrontierOrdered(ids, edges, done + [u], frontier[1..], acc + r1.1, r1.0);
      var r2 := RelaxFrontier(edges, r1.0, frontier[1..]);
      assert RelaxFrontier(edges, res, frontier).1 == r1.1 + r2.1;
      FrontierJoin(done, frontier, acc, r1.1, r2.1);
    }
  }

  /** The shape of a list of waves:
      - no wave is empty;
      - every predecessor of an id lies in a strictly earlier wave;
      - every id after the first wave has a predecessor in the wave just before. */
  ghost predicate Layered(edges: seq<Entry>, levels: seq<seq<Id>>) {
    && (forall j :: 0 <= j < |levels| ==> levels[j] != [])
    && (forall j, v, u :: 0 <= j < |levels| && v in levels[j] && Dep(u, v) in edges ==> u in Flatten(levels[..j]))
    && (forall j, v :: 0 < j < |levels| && v in levels[j] ==> HasPredIn(edges, Elems(levels[j - 1]), v))
  }

  /** Every id of `frontier` has a predecessor in the last wave. */
  ghost predicate FedByLast(edges: seq<Entry>, levels: seq<seq<Id>>, frontier: seq<Id>) {
    |levels| > 0 ==> forall v :: v in frontier ==> HasPredIn(edges, Elems(levels[|levels| - 1]), v)
  }

  /** Appending a ready frontier keeps the waves layered. */
  lemma AddWave(ids: seq<Id>, edges: seq<Entry>, levels: seq<seq<Id>>, frontier: seq<Id>, res: map<Id, int>)
    requires Inv(ids, edges, Flatten(levels), frontier, res)
    requires Layered(edges, levels) && FedByLast(edges, levels, frontier)
    requires frontier != []
    ensures Layered(edges, levels + [frontier])
  {
    var ls := levels + [frontier];
    assert ls[..|levels|] == levels;
    forall j, v, u | 0 <= j < |ls| && v in ls[j] && Dep(u, v) in edges
      ensures u in Flatten(ls[..j])
    {
      if j == |levels| {
        ResidualZero(edges, v, Flatten(levels));
      } else {
        assert ls[..j] == levels[..j];
      }
    }
  }

  /** One round of the wave loop keeps everything the loop relies on, and
      the processed ids strictly grow within the item ids. */
  lemma WaveStep(ids: seq<Id>, edges: seq<Entry>, levels: seq<seq<Id>>, frontier: seq<Id>, res: map<Id, int>)
    requires Setup(ids, edges)
    requires Inv(ids, edges, Flatten(levels), frontier, res)
    requires Layered(edges, levels) && FedByLast(edges, levels, frontier)
    requires frontier != []
    ensures forall u :: u in frontier ==> forall v :: v in Targets(edges, u) ==> v in res
    ensures var r := RelaxFrontier(edges, res, frontier);
            var levels' := levels + [frontier];
            && Inv(ids, edges, Flatten(levels'), r.1, r.0)
            && Layered(edges, levels') && FedByLast(edges, levels', r.1)
            && |Flatten(levels)| < |Flatten(levels')| <= |ids|
  {
    var done := Flatten(levels);
    FrontierTargets(ids, edges, done, frontier, [], res);
    RelaxFrontierInv(ids, edges, done, frontier, [], res);
    var (res', next) := RelaxFrontier(edges, res, frontier);
    var levels' := levels + [frontier];
    FlattenSnoc(levels, frontier);
    assert [] + next == next;
    assert frontier + [] == frontier;
    assert |done + frontier| <= |ids| by {
      NoDupBound(done + frontier, Elems(ids));
      NoDupCard(ids);
    }
    AddWave(ids, edges, levels, frontier, res);
    forall v | v in next ensures HasPredIn(edges, Elems(frontier), v) {
      var u :| u in frontier && v in Targets(edges, u);
    }
    assert levels'[|levels'| - 1] == frontier;
  }

  /** The wave loop: one wave per round until the frontier is empty. */
  function Waves(ids: seq<Id>, edges: seq<Entry>, levels: seq<seq<Id>>, frontier: seq<Id>, res: map<Id, int>): (r: (seq<seq<Id>>, map<Id, int>))
    requires Setup(ids, edges)
    requires Inv(ids, edges, Flatten(levels), frontier, res)
    requires Layered(edges, levels) && FedByLast(edges, levels, frontier)
    ensures Inv(ids, edges, Flatten(r.0), [], r.1)
    ensures Layered(edges, r.0)
    ensures IsPrefix(levels, r.0)
    ensures frontier != [] ==> |levels| < |r.0| && r.0[|levels|] == frontier
    ensures frontier == [] ==> r.0 == levels
    decreases |ids| - |Flatten(levels)|
  {
    if |frontier| == 0 then (levels, res)
    else
      WaveStep(ids, edges, levels, frontier, res);
      var (res', next) := RelaxFrontier(edges, res, frontier);
      var levels' := levels + [frontier];
      var r := Waves(ids, edges, levels', next, res');
      assert IsPrefix(levels, levels');
      PrefixTrans(levels, levels', r.0);
      assert r.0[|levels|] == levels'[|levels|];
      r
  }

  /** The wave loop keeps the queue order: its processing order is the one a
      first-in first-out run produces. */
  lemma {:induction false} WavesOrdered(ids: seq<Id>, edges: seq<Entry>,
                                        levels: seq<seq<Id>>, frontier: seq<Id>, res: map<Id, int>)
    requires Setup(ids, edges)
    requires Inv(ids, edges, Flatten(levels), frontier, res)
    requires Layered(edges, levels) && FedByLast(edges, levels, frontier)
    requires QueueOrder(ids, edges, Flatten(levels) + frontier)
    ensures QueueOrder(ids, edges, Flatten(Waves(ids, edges, levels, frontier, res).0))
    decreases |ids| - |Flatten(levels)|
  {
    if |frontier| == 0 {
      assert Flatten(levels) + frontier == Flatten(levels);
    } else {
      WaveStep(ids, edges, levels, frontier, res);
      var done := Flatten(levels);
      assert done + frontier + [] == done + frontier;
      RelaxFrontierOrdered(ids, edges, done, frontier, [], res);
      var (res', next) := RelaxFrontier(edges, res, frontier);
      FlattenSnoc(levels, frontier);
      assert done + frontier + [] + next == Flatten(levels + [frontier]) + next;
      WavesOrdered(ids, edges, levels + [frontier], next, res');
    }
  }

  /** The waves from the ids of in-degree zero until none is ready: layered,
      in queue order, and led by the ids without predecessors. */
  function AllWaves(ids: seq<Id>, edges: seq<Entry>): (r: (seq<seq<Id>>, map<Id, int>))
    requires Setup(ids, edges)
    ensures Inv(ids, edges, Flatten(r.0), [], r.1)
    ensures Layered(edges, r.0)
    ensures QueueOrder(ids, edges, Flatten(r.0))
    ensures Sources(ids, edges) != [] ==> |r.0| > 0 && r.0[0] == Sources(ids, edges)
    ensures Sources(ids, edges) == [] ==> r.0 == []
  {
    var res := InitialCounts(ids, edges);
    InitialInv(ids, edges);
    var first := ZeroInDegree(ids, res);
    SourcesOrdered(ids, edges);
    assert Flatten([]) + first == first;
    WavesOrdered(ids, edges, [], first, res);
    Waves(ids, edges, [], first, res)
  }

  /** The wave planner: the first wave holds the ids without predecessors,
      each later wave the ids the previous wave freed. */
  function ComputePlanLevels(items: seq<Item>, edges: seq<Entry>): (p: WavePlan)
    requires NoDup(Ids(items)) && EndpointsIn(edges, Ids(items))
    ensures p.ok <==> !HasCycle(edges)
    ensures p.ok ==> p.order == Flatten(p.levels)
    ensures p.ok ==> QueueOrder(Ids(items), edges, p.order)
    ensures p.ok ==> multiset(p.order) == multiset(Ids(items)) && RespectsEdges(edges, p.order)
    ensures p.ok ==> Layered(edges, p.levels)
    ensures p.ok && |items| > 0 ==> |p.levels| > 0 && p.levels[0] == Sources(Ids(items), edges)
    ensures p.ok ==> p.cycleNodes == []
    ensures !p.ok ==> p.levels == [] && p.order == [] && p.cycleNodes != []
    ensures NoDup(p.cycleNodes)
    ensures forall v :: v in p.cycleNodes <==> v in Ids(items) && Blocked(edges, v)
  {
    var ids := Ids(items);
    var r := AllWaves(ids, edges);
    var order := Flatten(r.0);
    Report(ids, edges, order, r.1);
    if |order| != |ids| then WavePlan(false, [], [], Stuck(ids, r.1))
    else WavePlan(true, r.0, order, [])
  }

  /** The wave plan lists the ids in the very order the linear scheduler
      produces, and both fail together. */
  lemma PlanMatchesTopoSort(items: seq<Item>, edges: seq<Entry>)
    requires NoDup(Ids(items)) && EndpointsIn(edges, Ids(items))
    ensures ComputePlanLevels(items, edges).ok == TopoSort.TopoSort(items, edges).ok
    ensures ComputePlanLevels(items, edges).order == TopoSort.TopoSort(items, edges).order
  {
    var ids := Ids(items);
    var p := ComputePlanLevels(items, edges);
    var q := TopoSort.TopoSort(items, edges);
    if p.ok {
      PermutationNoDup(p.order, ids);
      PermutationNoDup(q.order, ids);
      RespectsIsTopological(edges, p.order);
      RespectsIsTopological(edges, q.order);
      assert forall x :: x in p.order <==> x in multiset(ids);
      assert forall x :: x in q.order <==> x in multiset(ids);
      assert |p.order| == |q.order| by {
        assert |multiset(p.order)| == |multiset(q.order)|;
      }
      QueueOrderUnique(ids, edges, p.order, q.order, 0);
    }
  }
}
