/**
 The dependency graph as the planner sees it: item ids, the decision entries
 recorded by the graph screen, and what the schedulers and the cycle detector
 derive from them (adjacency lists, in-degrees, out-degrees). A "no dependency"
 marker has no endpoints and contributes nothing to any of these.
 */
module Graph {
  import opened Seqs

  /** Item ids are opaque, unique tokens. */
  type Id = nat

  /** A task; `labelRank` is the position of its label (or of its id, when the
      label is missing) in the collation order used to break ties. */
  datatype Item = Item(id: Id, labelRank: nat)

  /** One entry of the shared edges array: a directed dependency `from` before
      `to`, or a "no dependency" marker keyed by the sorted pair of ids. */
  datatype Entry = Dep(from: Id, to: Id) | NoneMark(key: (Id, Id))

  /** A directed edge of a reported cycle. */
  type Edge = (Id, Id)

  function Ids(items: seq<Item>): (ids: seq<Id>)
    ensures |ids| == |items|
    ensures forall k :: 0 <= k < |items| ==> ids[k] == items[k].id
  {
    seq(|items|, k requires 0 <= k < |items| => items[k].id)
  }

  /** Every dependency entry joins two item ids. */
  predicate EndpointsIn(edges: seq<Entry>, ids: seq<Id>) {
    forall k :: 0 <= k < |edges| && edges[k].Dep? ==> edges[k].from in ids && edges[k].to in ids
  }

  /** No dependency entry joins an id to itself. */
  predicate NoSelfDeps(edges: seq<Entry>) {
    forall k :: 0 <= k < |edges| && edges[k].Dep? ==> edges[k].from != edges[k].to
  }

  lemma EndpointsOf(edges: seq<Entry>, ids: seq<Id>, u: Id, v: Id)
    requires EndpointsIn(edges, ids) && Dep(u, v) in edges
    ensures u in ids && v in ids
  {
    var k :| 0 <= k < |edges| && edges[k] == Dep(u, v);
  }

  /** Targets of the dependency entries leaving `u`, in insertion order. */
  function Targets(edges: seq<Entry>, u: Id): (ts: seq<Id>)
    ensures forall v :: v in ts <==> Dep(u, v) in edges
  {
    if |edges| == 0 then []
    else
      var rest := Targets(edges[1..], u);
      assert forall e :: e in edges <==> e == edges[0] || e in edges[1..];
      if edges[0].Dep? && edges[0].from == u then [edges[0].to] + rest else rest
  }

  /** The number of dependency entries leaving `u`. */
  function OutDeg(edges: seq<Entry>, u: Id): nat {
    |Targets(edges, u)|
  }

  /** The number of dependency entries into `v` whose source is not in `done`:
      the in-degree `v` still has once every id of `done` has been processed. */
  function Residual(edges: seq<Entry>, v: Id, done: seq<Id>): nat {
    if |edges| == 0 then 0
    else
      (if edges[0].Dep? && edges[0].to == v && edges[0].from !in done then 1 else 0)
      + Residual(edges[1..], v, done)
  }

  /** The number of dependency entries into `v`. */
  function InDeg(edges: seq<Entry>, v: Id): nat {
    Residual(edges, v, [])
  }

  /** A residual in-degree is zero exactly when every predecessor is done. */
  lemma {:induction false} ResidualZero(edges: seq<Entry>, v: Id, done: seq<Id>)
    ensures Residual(edges, v, done) == 0 <==> forall w :: Dep(w, v) in edges ==> w in done
  {
    if |edges| > 0 {
      ResidualZero(edges[1..], v, done);
      assert forall e :: e in edges <==> e == edges[0] || e in edges[1..];
    }
  }

  /** Processing `u` removes from the residual in-degree of `v` exactly the
      number of entries `u -> v`. */
  lemma {:induction false} ResidualStep(edges: seq<Entry>, v: Id, done: seq<Id>, u: Id)
    requires u !in done
    ensures Residual(edges, v, done) == Residual(edges, v, done + [u]) + multiset(Targets(edges, u))[v]
  {
    if |edges| > 0 {
      ResidualStep(edges[1..], v, done, u);
    }
  }

  /** `c` is a closed walk: each element has an edge to the next, the last to the first. */
  predicate IsCycle(edges: seq<Entry>, c: seq<Id>) {
    && |c| > 0
    && (forall k :: 0 <= k < |c| - 1 ==> Dep(c[k], c[k + 1]) in edges)
    && Dep(c[|c| - 1], c[0]) in edges
  }

  ghost predicate HasCycle(edges: seq<Entry>) {
    exists c :: IsCycle(edges, c)
  }

  lemma {:induction false} RankAlongCycle(edges: seq<Entry>, c: seq<Id>, rank: Id -> int, k: nat)
    requires IsCycle(edges, c) && k < |c|
    requires forall u, v :: Dep(u, v) in edges ==> rank(u) < rank(v)
    ensures rank(c[0]) + k <= rank(c[k])
  {
    if k > 0 {
      RankAlongCycle(edges, c, rank, k - 1);
      assert Dep(c[k - 1], c[k]) in edges;
    }
  }

  /** A ranking that strictly increases along every edge rules out every cycle. */
  lemma RankForbidsCycle(edges: seq<Entry>, rank: Id -> int)
    requires forall u, v :: Dep(u, v) in edges ==> rank(u) < rank(v)
    ensures !HasCycle(edges)
  {
    if HasCycle(edges) {
      var c :| IsCycle(edges, c);
      RankAlongCycle(edges, c, rank, |c| - 1);
    }
  }

  /** `x` has a predecessor inside `S`. */
  ghost predicate HasPredIn(edges: seq<Entry>, S: set<Id>, x: Id) {
    exists y :: y in S && Dep(y, x) in edges
  }

  /** A walk of `n` backward steps from `v` that never leaves `S`. */
  ghost function BackWalk(edges: seq<Entry>, S: set<Id>, v: Id, n: nat): (w: seq<Id>)
    requires v in S
    requires forall x :: x in S ==> HasPredIn(edges, S, x)
    ensures |w| == n + 1 && w[0] == v
    ensures forall k :: 0 <= k < |w| ==> w[k] in S
    ensures forall k :: 0 <= k < n ==> Dep(w[k + 1], w[k]) in edges
    decreases n
  {
    if n == 0 then [v]
    else
      assert HasPredIn(edges, S, v);
      var y :| y in S && Dep(y, v) in edges;
      [v] + BackWalk(edges, S, y, n - 1)
  }

  /** Each element of `w` has an edge to the next. */
  predicate IsPath(edges: seq<Entry>, w: seq<Id>) {
    forall k :: 0 <= k < |w| - 1 ==> Dep(w[k], w[k + 1]) in edges
  }

  /** `v` lies on a cycle or depends, directly or not, on an id that does:
      no schedule can ever reach it. */
  ghost predicate Blocked(edges: seq<Entry>, v: Id) {
    exists c, w :: IsCycle(edges, c) && IsPath(edges, w) && |w| > 0 && w[0] in c && w[|w| - 1] == v
  }

  /** Every element of a set in which each element has a predecessor inside
      the set is blocked by a cycle. */
  lemma StuckIsBlocked(edges: seq<Entry>, S: set<Id>, v: Id)
    requires v in S
    requires forall x :: x in S ==> HasPredIn(edges, S, x)
    ensures Blocked(edges, v)
  {
    var w := BackWalk(edges, S, v, |S|);
    if NoDup(w) {
      NoDupBound(w, S);
    }
    var i, j :| 0 <= i < j < |w| && w[i] == w[j];
    WalkBlocks(edges, w, i, j);
  }

  /** A backward walk that revisits an id blocks its start: reversed, the
      stretch between the two visits is a cycle and the whole walk up to the
      second visit is a path from that cycle. */
  lemma WalkBlocks(edges: seq<Entry>, w: seq<Id>, i: nat, j: nat)
    requires i < j < |w| && w[i] == w[j]
    requires forall k :: 0 <= k < |w| - 1 ==> Dep(w[k + 1], w[k]) in edges
    ensures Blocked(edges, w[0])
  {
    var c := seq(j - i, m requires 0 <= m < j - i => w[j - m]);
    forall m | 0 <= m < |c| - 1
      ensures Dep(c[m], c[m + 1]) in edges
    {
      assert Dep(w[j - m - 1 + 1], w[j - m - 1]) in edges;
    }
    assert Dep(w[i + 1], w[i]) in edges;
    assert IsCycle(edges, c);
    var p := seq(j + 1, m requires 0 <= m <= j => w[j - m]);
    forall m | 0 <= m < |p| - 1
      ensures Dep(p[m], p[m + 1]) in edges
    {
      assert Dep(w[j - m - 1 + 1], w[j - m - 1]) in edges;
    }
    assert p[0] == c[0];
    assert IsPath(edges, p) && p[|p| - 1] == w[0];
  }

  /** A non-empty set in which every element has a predecessor inside the set
      contains a cycle. */
  lemma StuckSetHasCycle(edges: seq<Entry>, S: set<Id>)
    requires S != {}
    requires forall x :: x in S ==> HasPredIn(edges, S, x)
    ensures HasCycle(edges)
  {
    var v :| v in S;
    StuckIsBlocked(edges, S, v);
  }

  /** Every predecessor of the `k`-th id of `order` occurs before it. */
  ghost predicate PredsBefore(edges: seq<Entry>, order: seq<Id>, k: nat)
    requires k < |order|
  {
    forall w :: Dep(w, order[k]) in edges ==> w in order[..k]
  }

  /** In a sequence closed under predecessors, listed before their successors,
      the members ahead of `b` include all ids with a path to `b`. */
  lemma {:induction false} PathIntoOrder(edges: seq<Entry>, order: seq<Id>, w: seq<Id>, k: nat)
    requires forall i :: 0 <= i < |order| ==> PredsBefore(edges, order, i)
    requires IsPath(edges, w) && k < |w| && w[|w| - 1] in order
    ensures w[k] in order
    decreases |w| - k
  {
    if k < |w| - 1 {
      PathIntoOrder(edges, order, w, k + 1);
      var b := IndexOf(order, w[k + 1]);
      assert PredsBefore(edges, order, b);
      assert Dep(w[k], w[k + 1]) in edges;
    }
  }

  /** An id of such a sequence is never blocked by a cycle. */
  lemma OrderedNotBlocked(edges: seq<Entry>, order: seq<Id>, v: Id)
    requires forall i :: 0 <= i < |order| ==> PredsBefore(edges, order, i)
    requires v in order
    ensures !Blocked(edges, v)
  {
    if Blocked(edges, v) {
      var c, w :| IsCycle(edges, c) && IsPath(edges, w) && |w| > 0 && w[0] in c && w[|w| - 1] == v;
      PathIntoOrder(edges, order, w, 0);
      var m :| 0 <= m < |c| && c[m] == w[0];
      // Unrolling the cycle once, from c[m] back to c[m], gives a path into `order`.
      var loop := c[m..] + c[..m] + [c[m]];
      forall t | 0 <= t < |loop| - 1 ensures Dep(loop[t], loop[t + 1]) in edges {
        if m + t + 1 < |c| {
          assert loop[t] == c[m + t] && loop[t + 1] == c[m + t + 1];
        } else if m + t + 1 == |c| {
          assert loop[t] == c[|c| - 1] && loop[t + 1] == c[0];
        } else {
          assert loop[t] == c[m + t - |c|] && loop[t + 1] == c[m + t + 1 - |c|];
        }
      }
      forall t | 0 <= t < |loop| ensures loop[t] in order {
        PathIntoOrder(edges, order, loop, t);
      }
      // Positions in `order` strictly increase along the loop, yet it returns to its start.
      forall t | 0 <= t < |loop| - 1 ensures IndexOf(order, loop[t]) < IndexOf(order, loop[t + 1]) {
        var b := IndexOf(order, loop[t + 1]);
        assert PredsBefore(edges, order, b);
        assert Dep(loop[t], loop[t + 1]) in edges;
        assert loop[t] in order[..b];
      }
      IncreasingAlong(order, loop, |loop| - 1);
    }
  }

  lemma {:induction false} IncreasingAlong(order: seq<Id>, loop: seq<Id>, t: nat)
    requires t < |loop|
    requires forall s :: 0 <= s < |loop| - 1 ==> IndexOf(order, loop[s]) < IndexOf(order, loop[s + 1])
    ensures IndexOf(order, loop[0]) + t <= IndexOf(order, loop[t])
  {
    if t > 0 {
      IncreasingAlong(order, loop, t - 1);
    }
  }

  /** The value stored for `k`, or zero when `k` has no entry. */
  function GetOr0(m: map<Id, nat>, k: Id): nat {
    if k in m then m[k] else 0
  }

  /** One empty adjacency list per item id. */
  function EmptyAdj(ids: seq<Id>): (adj: map<Id, seq<Id>>)
    ensures forall u :: u in adj <==> u in ids
    ensures forall u :: u in adj ==> adj[u] == []
  {
    map u | u in Elems(ids) :: []
  }

  /** A zero count per item id. */
  function Zeros(ids: seq<Id>): (m: map<Id, nat>)
    ensures forall u :: u in m <==> u in ids
    ensures forall u :: u in m ==> m[u] == 0
  {
    map u | u in Elems(ids) :: 0
  }

  /** The adjacency loop of the schedulers: every dependency pushes its target
      onto its source's list; markers are skipped. */
  function BuildAdj(adj: map<Id, seq<Id>>, edges: seq<Entry>): (r: map<Id, seq<Id>>)
    requires forall k :: 0 <= k < |edges| && edges[k].Dep? ==> edges[k].from in adj
    ensures r.Keys == adj.Keys
    ensures forall u :: u in adj ==> r[u] == adj[u] + Targets(edges, u)
  {
    if |edges| == 0 then adj
    else
      var e := edges[0];
      var adj1 := if e.Dep? then adj[e.from := adj[e.from] + [e.to]] else adj;
      var r := BuildAdj(adj1, edges[1..]);
      assert forall u :: u in adj ==> r[u] == adj[u] + Targets(edges, u) by {
        forall u | u in adj ensures r[u] == adj[u] + Targets(edges, u) {
          AdjStep(adj, adj1, edges, u);
        }
      }
      r
  }

  /** One pushed target is the head of that source's remaining targets. */
  lemma AdjStep(adj: map<Id, seq<Id>>, adj1: map<Id, seq<Id>>, edges: seq<Entry>, u: Id)
    requires |edges| > 0 && u in adj
    requires edges[0].Dep? ==> edges[0].from in adj
    requires adj1 == if edges[0].Dep? then adj[edges[0].from := adj[edges[0].from] + [edges[0].to]] else adj
    ensures u in adj1 && adj1[u] + Targets(edges[1..], u) == adj[u] + Targets(edges, u)
  {
    var e := edges[0];
    if e.Dep? && e.from == u {
      assert adj1[u] + Targets(edges[1..], u) == adj[u] + ([e.to] + Targets(edges[1..], u));
    }
  }

  /** The in-degree loop: every dependency adds one to its target's count. */
  function BuildInDeg(indeg: map<Id, nat>, edges: seq<Entry>): (r: map<Id, nat>)
    ensures forall v :: v in r <==> v in indeg || exists u :: Dep(u, v) in edges
    ensures forall v :: v in r ==> r[v] == GetOr0(indeg, v) + InDeg(edges, v)
    decreases |edges|
  {
    if |edges| == 0 then indeg
    else
      var e := edges[0];
      assert forall x :: x in edges <==> x == e || x in edges[1..];
      var indeg1 := if e.Dep? then indeg[e.to := GetOr0(indeg, e.to) + 1] else indeg;
      BuildInDeg(indeg1, edges[1..])
  }

  /** The out-degree loop: every dependency adds one to its source's count. */
  function BuildOutDeg(outdeg: map<Id, nat>, edges: seq<Entry>): (r: map<Id, nat>)
    ensures forall u :: u in r <==> u in outdeg || exists v :: Dep(u, v) in edges
    ensures forall u :: u in r ==> r[u] == GetOr0(outdeg, u) + OutDeg(edges, u)
    decreases |edges|
  {
    if |edges| == 0 then outdeg
    else
      var e := edges[0];
      assert forall x :: x in edges <==> x == e || x in edges[1..];
      var outdeg1 := if e.Dep? then outdeg[e.from := GetOr0(outdeg, e.from) + 1] else outdeg;
      BuildOutDeg(outdeg1, edges[1..])
  }
}
