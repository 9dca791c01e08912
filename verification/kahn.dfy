/**
 Kahn's algorithm as the three schedulers run it. Each keeps a residual
 in-degree per id; processing an id decrements the count of each of its
 targets, in adjacency order, and a target whose count reaches zero becomes
 ready. The schedulers differ only in which ready id they process next
 (`Discipline`) and, for the wave planner, in processing a whole frontier at a
 time. `Inv` is the state they all keep: `done` are the processed ids in
 processing order, `pending` the ready ones not yet processed.
 */
module Kahn {
  import opened Seqs
  import opened Graph

  /** Decrements the count of each of `ts` in turn; the second component lists
      the ids whose count reached zero, in the order they reached it. */
  function Relax(res: map<Id, int>, ts: seq<Id>): (r: (map<Id, int>, seq<Id>))
    requires forall v :: v in ts ==> v in res
    ensures r.0.Keys == res.Keys
    ensures forall v :: v in res ==> r.0[v] == res[v] - multiset(ts)[v]
    ensures forall v :: v in r.1 ==> v in ts
    ensures (forall v :: v in res ==> res[v] >= multiset(ts)[v]) ==>
              && NoDup(r.1)
              && forall v :: v in res ==> (v in r.1 <==> res[v] > 0 && r.0[v] == 0)
  {
    if |ts| == 0 then (res, [])
    else
      var v := ts[0];
      assert ts == [v] + ts[1..];
      assert multiset(ts) == multiset{v} + multiset(ts[1..]);
      var res1 := res[v := res[v] - 1];
      var (res2, ready2) := Relax(res1, ts[1..]);
      var ready := (if res1[v] == 0 then [v] else []) + ready2;
      assert forall x :: x in res ==> res2[x] == res[x] - multiset(ts)[x];
      RelaxConsReady(res, ts, res1, res2, ready2);
      (res2, ready)
  }

  /** The ids the first decrement of `Relax` frees, followed by those the rest
      frees, are distinct and are exactly the ids brought to zero. */
  lemma RelaxConsReady(res: map<Id, int>, ts: seq<Id>, res1: map<Id, int>, res2: map<Id, int>, ready2: seq<Id>)
    requires |ts| > 0 && ts[0] in res
    requires res1 == res[ts[0] := res[ts[0]] - 1]
    requires res2.Keys == res1.Keys
    requires forall x :: x in res ==> res2[x] == res[x] - multiset(ts)[x]
    requires forall x :: x in ready2 ==> x in ts[1..]
    requires (forall x :: x in res1 ==> res1[x] >= multiset(ts[1..])[x]) ==>
               && NoDup(ready2)
               && forall x :: x in res1 ==> (x in ready2 <==> res1[x] > 0 && res2[x] == 0)
    ensures var ready := (if res1[ts[0]] == 0 then [ts[0]] else []) + ready2;
            (forall x :: x in res ==> res[x] >= multiset(ts)[x]) ==>
              && NoDup(ready)
              && forall x :: x in res ==> (x in ready <==> res[x] > 0 && res2[x] == 0)
  {
    var v := ts[0];
    assert ts == [v] + ts[1..];
    assert multiset(ts) == multiset{v} + multiset(ts[1..]);
    var ready := (if res1[v] == 0 then [v] else []) + ready2;
    if forall x :: x in res ==> res[x] >= multiset(ts)[x] {
      assert forall x :: x in res1 ==> res1[x] >= multiset(ts[1..])[x];
      if res1[v] == 0 {
        assert v !in ts[1..];
        ConcatNoDup([v], ready2);
      }
    }
  }

  /** Processed and ready ids: each at most once, never both, only item ids. */
  ghost predicate Tracked(ids: seq<Id>, done: seq<Id>, pending: seq<Id>) {
    && NoDup(done) && NoDup(pending)
    && (forall x :: x in done ==> x !in pending)
    && (forall x :: x in done ==> x in ids)
    && (forall x :: x in pending ==> x in ids)
  }

  /** One count per item id: the number of its dependencies on unprocessed
      ids, zero exactly for the processed and the ready ids. */
  ghost predicate Counted(ids: seq<Id>, edges: seq<Entry>, done: seq<Id>, pending: seq<Id>, res: map<Id, int>) {
    && (forall v :: v in res <==> v in ids)
    && (forall v :: v in res ==> res[v] == Residual(edges, v, done))
    && (forall v :: v in res ==> (res[v] == 0 <==> v in done || v in pending))
  }

  /** Every processed id was processed after all of its predecessors. */
  ghost predicate Topological(edges: seq<Entry>, done: seq<Id>) {
    forall k :: 0 <= k < |done| ==> PredsBefore(edges, done, k)
  }

  /** The state every Kahn loop keeps between steps. */
  ghost predicate Inv(ids: seq<Id>, edges: seq<Entry>, done: seq<Id>, pending: seq<Id>, res: map<Id, int>) {
    Tracked(ids, done, pending) && Counted(ids, edges, done, pending, res) && Topological(edges, done)
  }

  /** `Inv` only depends on the values of its arguments. */
  lemma InvCongruent(ids: seq<Id>, edges: seq<Entry>, d1: seq<Id>, d2: seq<Id>,
                     p1: seq<Id>, p2: seq<Id>, res: map<Id, int>)
    requires d1 == d2 && p1 == p2
    requires Inv(ids, edges, d1, p1, res)
    ensures Inv(ids, edges, d2, p2, res)
  {
  }

  /** The input the schedulers rely on: distinct ids and dependencies between
      item ids. */
  predicate Setup(ids: seq<Id>, edges: seq<Entry>) {
    NoDup(ids) && EndpointsIn(edges, ids)
  }

  /** The counts before anything is processed: the in-degrees. */
  function InitialCounts(ids: seq<Id>, edges: seq<Entry>): (res: map<Id, int>)
    ensures forall v :: v in res <==> v in ids
    ensures forall v :: v in res ==> res[v] == InDeg(edges, v)
  {
    var indeg := BuildInDeg(Zeros(ids), edges);
    map v | v in Elems(ids) :: indeg[v]
  }

  /** The ids of in-degree zero, in item order: the first ready ids. */
  function ZeroInDegree(ids: seq<Id>, res: map<Id, int>): (r: seq<Id>)
    requires forall v :: v in ids ==> v in res
    ensures forall v :: v in r <==> v in ids && res[v] == 0
    ensures NoDup(ids) ==> forall i, j :: 0 <= i < j < |r| ==> IndexOf(ids, r[i]) < IndexOf(ids, r[j])
  {
    Filter(ids, v => v in res && res[v] == 0)
  }

  lemma InitialInv(ids: seq<Id>, edges: seq<Entry>)
    requires NoDup(ids)
    ensures var res := InitialCounts(ids, edges);
            Inv(ids, edges, [], ZeroInDegree(ids, res), res)
  {
    var res := InitialCounts(ids, edges);
    FilterNoDup(ids, v => v in res && res[v] == 0);
  }

  /** Dependencies out of an item id lead to item ids. */
  lemma TargetsIn(ids: seq<Id>, edges: seq<Entry>, u: Id)
    requires EndpointsIn(edges, ids)
    ensures forall v :: v in Targets(edges, u) ==> v in ids
  {
    forall v | v in Targets(edges, u) ensures v in ids {
      var k :| 0 <= k < |edges| && edges[k] == Dep(u, v);
    }
  }

  /** Processing the ready `u` leaves each count at its residual in-degree with
      `u` processed, and never decrements a count below zero. */
  lemma StepCounts(ids: seq<Id>, edges: seq<Entry>, done: seq<Id>, pending: seq<Id>,
                   res: map<Id, int>, u: Id)
    requires Inv(ids, edges, done, pending, res)
    requires u in pending
    requires forall v :: v in Targets(edges, u) ==> v in res
    ensures forall v :: v in res ==> res[v] >= multiset(Targets(edges, u))[v]
    ensures forall v :: v in res ==> Relax(res, Targets(edges, u)).0[v] == Residual(edges, v, done + [u])
  {
    forall v | v in res
      ensures res[v] >= multiset(Targets(edges, u))[v]
      ensures Relax(res, Targets(edges, u)).0[v] == Residual(edges, v, done + [u])
    {
      ResidualStep(edges, v, done, u);
    }
  }

  lemma ConcatNoDup(a: seq<Id>, b: seq<Id>)
    requires NoDup(a) && NoDup(b)
    requires forall x :: x in a ==> x !in b
    ensures NoDup(a + b)
  {
    forall i, j | 0 <= i < j < |a + b| ensures (a + b)[i] != (a + b)[j] {
      if i < |a| && j >= |a| {
        assert (a + b)[i] in a && (a + b)[j] in b;
      }
    }
  }

  /** After processing `pending[i]`: processed and ready ids stay distinct and
      disjoint item ids. */
  lemma StepMembers(ids: seq<Id>, edges: seq<Entry>, done: seq<Id>, pending: seq<Id>,
                    res: map<Id, int>, i: nat)
    requires Inv(ids, edges, done, pending, res)
    requires i < |pending|
    requires forall v :: v in Targets(edges, pending[i]) ==> v in res
    ensures var r := Relax(res, Targets(edges, pending[i]));
            Tracked(ids, done + [pending[i]], pending[..i] + pending[i + 1..] + r.1)
  {
    var u := pending[i];
    var r := Relax(res, Targets(edges, u));
    var rest := pending[..i] + pending[i + 1..];
    StepCounts(ids, edges, done, pending, res, u);
    RemoveAt(pending, i);
    ConcatNoDup(done, [u]);
    ConcatNoDup(rest, r.1);
  }

  /** After processing `pending[i]`, the counts at zero are exactly those of the
      processed and ready ids. */
  lemma StepZeros(ids: seq<Id>, edges: seq<Entry>, done: seq<Id>, pending: seq<Id>,
                  res: map<Id, int>, i: nat)
    requires Inv(ids, edges, done, pending, res)
    requires i < |pending|
    requires forall v :: v in Targets(edges, pending[i]) ==> v in res
    ensures var r := Relax(res, Targets(edges, pending[i]));
            forall v :: v in r.0 ==> (r.0[v] == 0 <==> v in done + [pending[i]] || v in pending[..i] + pending[i + 1..] + r.1)
  {
    var u := pending[i];
    StepCounts(ids, edges, done, pending, res, u);
    RemoveAt(pending, i);
  }

  /** After processing `pending[i]`, the counts are the residual in-degrees and
      every processed id still follows its predecessors. */
  lemma StepCountsAndOrder(ids: seq<Id>, edges: seq<Entry>, done: seq<Id>, pending: seq<Id>,
                           res: map<Id, int>, i: nat)
    requires Inv(ids, edges, done, pending, res)
    requires i < |pending|
    requires forall v :: v in Targets(edges, pending[i]) ==> v in res
    ensures var r := Relax(res, Targets(edges, pending[i]));
            forall v :: v in r.0 <==> v in ids
    ensures var r := Relax(res, Targets(edges, pending[i]));
            forall v :: v in r.0 ==> r.0[v] == Residual(edges, v, done + [pending[i]])
    ensures Topological(edges, done + [pending[i]])
  {
    var u := pending[i];
    StepCounts(ids, edges, done, pending, res, u);
    ResidualZero(edges, u, done);
    var done' := done + [u];
    assert done'[..|done|] == done;
    forall k | 0 <= k < |done'| ensures PredsBefore(edges, done', k) {
      if k < |done| {
        assert done'[..k] == done[..k];
        assert PredsBefore(edges, done, k);
      }
    }
  }

  /** A ready id remains, so fewer ids than there are items are processed. */
  lemma StepBound(ids: seq<Id>, edges: seq<Entry>, done: seq<Id>, pending: seq<Id>, res: map<Id, int>)
    requires NoDup(ids) && Inv(ids, edges, done, pending, res) && |pending| > 0
    ensures |done| < |ids|
  {
    ConcatNoDup(done, pending);
    NoDupBound(done + pending, Elems(ids));
    NoDupCard(ids);
  }

  /** Processing the ready id `pending[i]` keeps the invariant. */
  lemma Step(ids: seq<Id>, edges: seq<Entry>, done: seq<Id>, pending: seq<Id>, res: map<Id, int>, i: nat)
    requires Setup(ids, edges)
    requires Inv(ids, edges, done, pending, res)
    requires i < |pending|
    ensures |done| < |ids|
    ensures forall v :: v in Targets(edges, pending[i]) ==> v in res
    ensures var u := pending[i];
            var r := Relax(res, Targets(edges, u));
            Inv(ids, edges, done + [u], pending[..i] + pending[i + 1..] + r.1, r.0)
  {
    var u := pending[i];
    StepBound(ids, edges, done, pending, res);
    TargetsIn(ids, edges, u);
    StepMembers(ids, edges, done, pending, res, i);
    StepZeros(ids, edges, done, pending, res, i);
    StepCountsAndOrder(ids, edges, done, pending, res, i);
  }

  /** The input order a scheduler produces on success respects every edge. */
  ghost predicate RespectsEdges(edges: seq<Entry>, order: seq<Id>) {
    forall u, v :: Dep(u, v) in edges ==> u in order && v in order && IndexOf(order, u) < IndexOf(order, v)
  }

  /** A duplicate-free order that respects every edge lists every
      predecessor of an id before it. */
  lemma RespectsIsTopological(edges: seq<Entry>, order: seq<Id>)
    requires NoDup(order) && RespectsEdges(edges, order)
    ensures Topological(edges, order)
  {
    forall k | 0 <= k < |order| ensures PredsBefore(edges, order, k) {
      IndexOfNoDup(order, k);
      forall w | Dep(w, order[k]) in edges ensures w in order[..k] {
        var m := IndexOf(order, w);
        assert order[..k][m] == w;
      }
    }
  }

  /** What a finished run (nothing ready any more) tells about the graph. */
  lemma Outcome(ids: seq<Id>, edges: seq<Entry>, order: seq<Id>, res: map<Id, int>)
    requires NoDup(ids) && EndpointsIn(edges, ids)
    requires Inv(ids, edges, order, [], res)
    ensures |order| <= |ids|
    ensures forall v :: v in res ==> (res[v] > 0 <==> v !in order)
    ensures forall v :: v in ids ==> (v !in order <==> Blocked(edges, v))
    ensures |order| == |ids| ==> (forall v :: v in ids ==> v in order) && RespectsEdges(edges, order)
    ensures |order| == |ids| ==> multiset(order) == multiset(ids)
    ensures |order| == |ids| <==> !HasCycle(edges)
  {
    NoDupBound(order, Elems(ids));
    NoDupCard(ids);
    forall v | v in res ensures res[v] > 0 <==> v !in order {
    }
    // The unprocessed ids each have an unprocessed predecessor.
    var S := set v | v in Elems(ids) && v !in order;
    forall x | x in S ensures HasPredIn(edges, S, x) {
      ResidualZero(edges, x, order);
      var w :| Dep(w, x) in edges && w !in order;
      var e :| 0 <= e < |edges| && edges[e] == Dep(w, x);
      assert w in ids;
    }
    forall v | v in ids ensures v !in order <==> Blocked(edges, v) {
      if v in order {
        OrderedNotBlocked(edges, order, v);
      } else {
        assert v in S;
        StuckIsBlocked(edges, S, v);
      }
    }
    if |order| == |ids| {
      NoDupFull(order, ids);
      SameElemsMultiset(order, ids);
      forall u, v | Dep(u, v) in edges
        ensures u in order && v in order && IndexOf(order, u) < IndexOf(order, v)
      {
        var e :| 0 <= e < |edges| && edges[e] == Dep(u, v);
        assert v in ids;
        var k := IndexOf(order, v);
        assert PredsBefore(edges, order, k);
        assert u in order[..k];
        var j :| 0 <= j < k && order[j] == u;
        IndexOfNoDup(order, j);
      }
      RankForbidsCycle(edges, x => IndexOf(order, x) as int);
    } else {
      assert S != {} by {
        if S == {} {
          forall x | x in ids ensures x in Elems(order) {
            assert x in Elems(ids) && x !in S;
          }
          NoDupBound(ids, Elems(order));
          NoDupCard(order);
        }
      }
      StuckSetHasCycle(edges, S);
    }
  }

  /** How the next ready id is chosen. */
  datatype Discipline =
    | Fifo                                          // the head of the queue
    | Priority(outdeg: map<Id, nat>, rank: map<Id, nat>)  // a best id by sort key

  /** `a` goes before `b`: larger out-degree first, then smaller label. */
  predicate Better(d: Discipline, a: Id, b: Id): (r: bool)
    requires d.Priority?
    ensures r ==> a != b
    ensures r ==> GetOr0(d.outdeg, a) >= GetOr0(d.outdeg, b)
    ensures GetOr0(d.outdeg, a) > GetOr0(d.outdeg, b) ==> r
  {
    var da := GetOr0(d.outdeg, a);
    var db := GetOr0(d.outdeg, b);
    da > db || (da == db && GetOr0(d.rank, a) < GetOr0(d.rank, b))
  }

  /** `Better` is the strict order of a sort key. */
  lemma BetterOrder(d: Discipline, a: Id, b: Id, c: Id)
    requires d.Priority?
    requires Better(d, a, b) && !Better(d, c, b)
    ensures Better(d, a, c) && !Better(d, c, a)
  {
  }

  function BestFrom(d: Discipline, s: seq<Id>, i: nat, best: nat): (r: nat)
    requires d.Priority?
    requires best < i <= |s|
    requires forall j :: 0 <= j < i ==> !Better(d, s[j], s[best])
    requires forall j :: 0 <= j < best ==> Better(d, s[best], s[j])
    ensures r < |s|
    ensures forall j :: 0 <= j < |s| ==> !Better(d, s[j], s[r])
    ensures forall j :: 0 <= j < r ==> Better(d, s[r], s[j])
    decreases |s| - i
  {
    if i == |s| then best
    else if Better(d, s[i], s[best]) then
      assert forall j :: 0 <= j < i ==> !Better(d, s[j], s[i]) && Better(d, s[i], s[j]) by {
        forall j | 0 <= j < i ensures !Better(d, s[j], s[i]) && Better(d, s[i], s[j]) {
          BetterOrder(d, s[i], s[best], s[j]);
        }
      }
      BestFrom(d, s, i + 1, i)
    else BestFrom(d, s, i + 1, best)
  }

  /** Index of the ready id processed next. For `Priority` it is the first of
      the best ids: the ready ids are sorted with a stable sort, which keeps ids
      of equal key in their relative order, and the first one is taken. */
  function Pick(d: Discipline, pending: seq<Id>): (i: nat)
    requires |pending| > 0
    ensures i < |pending|
    ensures d.Fifo? ==> i == 0
    ensures d.Priority? ==> forall j :: 0 <= j < |pending| ==> !Better(d, pending[j], pending[i])
    ensures d.Priority? ==> forall j :: 0 <= j < i ==> Better(d, pending[i], pending[j])
  {
    if d.Fifo? then 0 else BestFrom(d, pending, 1, 0)
  }

  /** `v` could be processed at step `k`: it is not processed yet and every
      predecessor is. */
  ghost predicate ReadyAt(edges: seq<Entry>, order: seq<Id>, k: nat, v: Id)
    requires k <= |order|
  {
    v !in order[..k] && forall w :: Dep(w, v) in edges ==> w in order[..k]
  }

  /** The id processed at step `k` is a best one among all ready at that step. */
  ghost predicate Greedy(ids: seq<Id>, edges: seq<Entry>, d: Discipline, order: seq<Id>, k: nat)
    requires d.Priority? && k < |order|
  {
    forall v :: v in ids && ReadyAt(edges, order, k, v) ==> !Better(d, v, order[k])
  }

  /** The ready ids are exactly the item ids that could be processed now. */
  lemma PendingIsReady(ids: seq<Id>, edges: seq<Entry>, done: seq<Id>, pending: seq<Id>, res: map<Id, int>, v: Id)
    requires Inv(ids, edges, done, pending, res)
    requires v in ids
    ensures v in pending <==> ReadyAt(edges, done + pending, |done|, v)
  {
    assert (done + pending)[..|done|] == done;
    ResidualZero(edges, v, done);
  }

  /** The id the priority rule processes is a best one among all ready ids. */
  lemma GreedyStep(ids: seq<Id>, edges: seq<Entry>, d: Discipline, done: seq<Id>, pending: seq<Id>,
                   res: map<Id, int>, order: seq<Id>)
    requires d.Priority? && |pending| > 0
    requires Inv(ids, edges, done, pending, res)
    requires IsPrefix(done + [pending[Pick(d, pending)]], order)
    ensures Greedy(ids, edges, d, order, |done|)
  {
    var u := pending[Pick(d, pending)];
    assert order[|done|] == u by {
      assert order[..|done| + 1][|done|] == u;
    }
    assert order[..|done|] == done by {
      assert order[..|done| + 1][..|done|] == done;
    }
    assert (done + pending)[..|done|] == done;
    forall v | v in ids && ReadyAt(edges, order, |done|, v) ensures !Better(d, v, u) {
      PendingIsReady(ids, edges, done, pending, res, v);
    }
  }

  /** Taking the head of the queue and appending the newly ready ids keeps the
      queue order. */
  lemma FifoShape(done: seq<Id>, pending: seq<Id>, ready: seq<Id>)
    requires |pending| > 0
    ensures done + [pending[0]] + (pending[..0] + pending[0 + 1..] + ready) == (done + pending) + ready
  {
    assert pending == [pending[0]] + pending[1..];
  }

  /** The main loop: process ready ids under the discipline until none is left. */
  function Drain(ids: seq<Id>, edges: seq<Entry>, d: Discipline,
                 done: seq<Id>, pending: seq<Id>, res: map<Id, int>): (r: (seq<Id>, map<Id, int>))
    requires Setup(ids, edges)
    requires Inv(ids, edges, done, pending, res)
    ensures Inv(ids, edges, r.0, [], r.1)
    ensures IsPrefix(done, r.0)
    ensures d.Fifo? ==> IsPrefix(done + pending, r.0)
    ensures d.Priority? ==> forall k :: |done| <= k < |r.0| ==> Greedy(ids, edges, d, r.0, k)
    decreases |ids| - |done|
  {
    if |pending| == 0 then (done, res)
    else
      var i := Pick(d, pending);
      var u := pending[i];
      Step(ids, edges, done, pending, res, i);
      var (res', ready) := Relax(res, Targets(edges, u));
      var r := Drain(ids, edges, d, done + [u], pending[..i] + pending[i + 1..] + ready, res');
      assert IsPrefix(done, done + [u]);
      PrefixTrans(done, done + [u], r.0);
      assert d.Fifo? ==> IsPrefix(done + pending, r.0) by {
        if d.Fifo? {
          FifoShape(done, pending, ready);
          PrefixTrans(done + pending, (done + pending) + ready, r.0);
        }
      }
      assert d.Priority? ==> forall k :: |done| <= k < |r.0| ==> Greedy(ids, edges, d, r.0, k) by {
        if d.Priority? {
          forall k | |done| <= k < |r.0| ensures Greedy(ids, edges, d, r.0, k) {
            if k == |done| {
              GreedyStep(ids, edges, d, done, pending, res, r.0);
            }
          }
        }
      }
      r
  }

  /** The adjacency lists the schedulers build: one list per item id, holding
      the targets of that id's dependencies in entry order. The loops above read
      `Targets(edges, u)` for the list of `u`, which is what this map holds. */
  function Adjacency(ids: seq<Id>, edges: seq<Entry>): (adj: map<Id, seq<Id>>)
    requires EndpointsIn(edges, ids)
    ensures forall u :: u in adj <==> u in ids
    ensures forall u :: u in ids ==> adj[u] == Targets(edges, u)
  {
    var adj := BuildAdj(EmptyAdj(ids), edges);
    assert forall u :: u in ids ==> [] + Targets(edges, u) == Targets(edges, u);
    adj
  }

  /** Builds the graph, starts from the ids of in-degree zero in item order,
      and drains under the discipline. Returns the processing order and the
      final counts. */
  function Run(ids: seq<Id>, edges: seq<Entry>, d: Discipline): (r: (seq<Id>, map<Id, int>))
    requires NoDup(ids) && EndpointsIn(edges, ids)
    ensures Inv(ids, edges, r.0, [], r.1)
    ensures d.Fifo? ==> IsPrefix(ZeroInDegree(ids, InitialCounts(ids, edges)), r.0)
    ensures d.Priority? ==> forall k :: 0 <= k < |r.0| ==> Greedy(ids, edges, d, r.0, k)
  {
    var res := InitialCounts(ids, edges);
    InitialInv(ids, edges);
    var queue := ZeroInDegree(ids, res);
    assert [] + queue == queue;
    Drain(ids, edges, d, [], queue, res)
  }

  /** The item ids left with a positive count, in item order: the ids a failed
      run reports as caught in or behind a cycle. */
  function Stuck(ids: seq<Id>, res: map<Id, int>): (r: seq<Id>)
    ensures forall v :: v in r <==> v in ids && v in res && res[v] > 0
    ensures NoDup(ids) ==> forall i, j :: 0 <= i < j < |r| ==> IndexOf(ids, r[i]) < IndexOf(ids, r[j])
  {
    Filter(ids, v => v in res && res[v] > 0)
  }

  /** What a finished drain tells its caller: every id is processed exactly
      when the graph is acyclic, the processing order then respects every edge,
      and otherwise the stuck ids are exactly the ids blocked by a cycle. */
  lemma Report(ids: seq<Id>, edges: seq<Entry>, order: seq<Id>, res: map<Id, int>)
    requires NoDup(ids) && EndpointsIn(edges, ids)
    requires Inv(ids, edges, order, [], res)
    ensures |order| == |ids| <==> !HasCycle(edges)
    ensures |order| == |ids| ==> multiset(order) == multiset(ids) && RespectsEdges(edges, order)
    ensures |order| == |ids| <==> Stuck(ids, res) == []
    ensures NoDup(Stuck(ids, res))
    ensures forall v :: v in Stuck(ids, res) <==> v in ids && Blocked(edges, v)
  {
    Outcome(ids, edges, order, res);
    FilterNoDup(ids, v => v in res && res[v] > 0);
    if |order| != |ids| {
      NoDupCard(order);
      if forall x :: x in ids ==> x in Elems(order) {
        NoDupBound(ids, Elems(order));
        assert false;
      }
    }
  }
}
