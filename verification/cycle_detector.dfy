/**
 The cycle detector of `src/app/cycleDetector.js`: a depth-first search from
 every unvisited id in item order that stops at the first dependency leading
 back into the current search path, rebuilds the cycle from parent pointers,
 and maps the cycle's edges back to the questions that produced them.
 */
module CycleDetector {
  import opened Seqs
  import opened Graph
  import opened Kahn
  import opened Pairs

  /** The search state: the visited ids, the ids on the current search path
      in push order, the parent link recorded for each id reached through a
      dependency, and the ids whose search is complete, in completion order. */
  datatype Dfs = Dfs(visited: set<Id>, stack: seq<Id>, parent: map<Id, Id>, finished: seq<Id>)

  /** Where the cycle starts and ends, once a dependency back into the search
      path is seen. */
  datatype Hit = NoHit | Hit(start: Id, end: Id)

  function Last(s: seq<Id>): Id
    requires |s| > 0
  {
    s[|s| - 1]
  }

  /** The parent pointer of each id of the path names the id before it. */
  predicate Linked(parent: map<Id, Id>, path: seq<Id>) {
    forall k :: 0 < k < |path| ==> path[k] in parent && parent[path[k]] == path[k - 1]
  }

  /** Every successor of a finished id finished before it. */
  ghost predicate Closed(edges: seq<Entry>, finished: seq<Id>) {
    forall k, v :: 0 <= k < |finished| && Dep(finished[k], v) in edges ==> v in finished[..k]
  }

  /** An id is on the path or finished, never both, and only item ids are visited. */
  ghost predicate Partition(ids: seq<Id>, st: Dfs) {
    && NoDup(st.stack) && NoDup(st.finished)
    && (forall x :: x in st.stack ==> x !in st.finished)
    && (forall x :: x in st.visited <==> x in st.stack || x in st.finished)
    && (forall x :: x in st.visited ==> x in ids)
  }

  /** What depth-first search keeps: the partition of the visited ids, a path
      joined by dependencies and parent pointers, and finished ids closed
      under successors. */
  ghost predicate DfsInv(ids: seq<Id>, edges: seq<Entry>, st: Dfs) {
    Partition(ids, st) && IsPath(edges, st.stack) && Linked(st.parent, st.stack) && Closed(edges, st.finished)
  }

  /** A hit names a dependency from the top of the path back into the path. */
  ghost predicate Witness(edges: seq<Entry>, st: Dfs, h: Hit)
    requires h.Hit?
  {
    |st.stack| > 0 && h.start in st.stack && h.end == Last(st.stack) && Dep(h.end, h.start) in edges
  }

  /** The number of item ids not visited yet. */
  function Unvisited(ids: seq<Id>, st: Dfs): nat {
    |Elems(ids) - st.visited|
  }

  /** Visiting more ids never leaves more unvisited ones. */
  lemma UnvisitedShrinks(ids: seq<Id>, a: Dfs, b: Dfs, node: Id)
    requires a.visited <= b.visited
    ensures Unvisited(ids, b) <= Unvisited(ids, a)
    ensures node in ids && node !in a.visited && node in b.visited ==> Unvisited(ids, b) < Unvisited(ids, a)
  {
    SubsetCard(Elems(ids) - b.visited, Elems(ids) - a.visited);
    if node in ids && node !in a.visited && node in b.visited {
      assert node in Elems(ids) - a.visited;
    }
  }

  /** The input of the search: distinct ids, dependencies between item ids,
      and for every id the targets of its dependencies in entry order. */
  predicate Built(ids: seq<Id>, edges: seq<Entry>, adj: map<Id, seq<Id>>) {
    && Setup(ids, edges)
    && (forall u :: u in ids ==> u in adj && adj[u] == Targets(edges, u))
  }

  /** The depth-first search from `node`: push it on the path, try each of its
      targets, and pop it again unless a cycle was found. */
  function Visit(ids: seq<Id>, edges: seq<Entry>, adj: map<Id, seq<Id>>, node: Id, st: Dfs): (r: (Hit, Dfs))
    requires Built(ids, edges, adj)
    requires DfsInv(ids, edges, st)
    requires node in ids && node !in st.visited
    requires |st.stack| > 0 ==>
               Dep(Last(st.stack), node) in edges && node in st.parent && st.parent[node] == Last(st.stack)
    ensures DfsInv(ids, edges, r.1)
    ensures st.visited <= r.1.visited
    ensures r.0.NoHit? ==> r.1.stack == st.stack && node in r.1.finished && IsPrefix(st.finished, r.1.finished)
    ensures r.0.Hit? ==> Witness(edges, r.1, r.0)
    decreases Unvisited(ids, st), 0, 0
  {
    var st1 := Dfs(st.visited + {node}, st.stack + [node], st.parent, st.finished);
    Push(ids, edges, st, node);
    UnvisitedShrinks(ids, st, st1, node);
    var r := Neighbors(ids, edges, adj, node, adj[node], st1);
    if r.0.Hit? then r
    else
      var st2 := Dfs(r.1.visited, r.1.stack[..|r.1.stack| - 1], r.1.parent, r.1.finished + [node]);
      assert r.1.stack[..|r.1.stack| - 1] == st.stack;
      assert DfsInv(ids, edges, st2) by {
        FinishTop(ids, edges, r.1, node);
      }
      assert IsPrefix(st.finished, st2.finished) by {
        assert IsPrefix(r.1.finished, st2.finished);
        PrefixTrans(st.finished, r.1.finished, st2.finished);
      }
      (NoHit, st2)
  }

  /** Popping the top of the path once all its successors are finished. */
  lemma FinishTop(ids: seq<Id>, edges: seq<Entry>, st: Dfs, node: Id)
    requires DfsInv(ids, edges, st)
    requires |st.stack| > 0 && Last(st.stack) == node
    requires forall v :: Dep(node, v) in edges ==> v in st.finished
    ensures DfsInv(ids, edges, Dfs(st.visited, st.stack[..|st.stack| - 1], st.parent, st.finished + [node]))
  {
    var s := st.stack[..|st.stack| - 1];
    assert st.stack == s + [node];
    PopPartition(ids, st, s, node);
    ClosedSnoc(edges, st.finished, node);
  }

  lemma PopPartition(ids: seq<Id>, st: Dfs, s: seq<Id>, node: Id)
    requires Partition(ids, st) && st.stack == s + [node]
    ensures Partition(ids, Dfs(st.visited, s, st.parent, st.finished + [node]))
  {
    assert forall k :: 0 <= k < |s| ==> s[k] == st.stack[k];
    assert st.stack[|s|] == node;
    assert NoDup(s);
    assert node !in s;
    assert node in st.stack;
    ConcatNoDup(st.finished, [node]);
  }

  lemma ClosedSnoc(edges: seq<Entry>, finished: seq<Id>, node: Id)
    requires Closed(edges, finished)
    requires forall v :: Dep(node, v) in edges ==> v in finished
    ensures Closed(edges, finished + [node])
  {
    var f := finished + [node];
    assert forall k :: 0 <= k < |finished| ==> f[..k] == finished[..k];
    assert f[..|finished|] == finished;
  }

  /** Pushing an unvisited id joined to the top of the path. */
  lemma Push(ids: seq<Id>, edges: seq<Entry>, st: Dfs, node: Id)
    requires DfsInv(ids, edges, st)
    requires node in ids && node !in st.visited
    requires |st.stack| > 0 ==>
               Dep(Last(st.stack), node) in edges && node in st.parent && st.parent[node] == Last(st.stack)
    ensures DfsInv(ids, edges, Dfs(st.visited + {node}, st.stack + [node], st.parent, st.finished))
  {
    var s := st.stack + [node];
    assert forall k :: 0 <= k < |st.stack| ==> s[k] == st.stack[k];
  }

  /** The loop over the neighbours of `node`, the top of the path. */
  function Neighbors(ids: seq<Id>, edges: seq<Entry>, adj: map<Id, seq<Id>>,
                     node: Id, ns: seq<Id>, st: Dfs): (r: (Hit, Dfs))
    requires Built(ids, edges, adj)
    requires DfsInv(ids, edges, st)
    requires |st.stack| > 0 && Last(st.stack) == node
    requires forall v :: v in ns ==> Dep(node, v) in edges
    ensures DfsInv(ids, edges, r.1)
    ensures st.visited <= r.1.visited
    ensures r.0.NoHit? ==> && r.1.stack == st.stack && IsPrefix(st.finished, r.1.finished)
                           && forall v :: v in ns ==> v in r.1.finished
    ensures r.0.Hit? ==> Witness(edges, r.1, r.0)
    decreases Unvisited(ids, st), 1, |ns|
  {
    if |ns| == 0 then (NoHit, st)
    else
      var v := ns[0];
      assert v in ids by {
        TargetsIn(ids, edges, node);
      }
      if v !in st.visited then
        var st1 := st.(parent := st.parent[v := node]);
        var r1 := Visit(ids, edges, adj, v, st1);
        if r1.0.Hit? then r1
        else
          UnvisitedShrinks(ids, st, r1.1, v);
          var r2 := Neighbors(ids, edges, adj, node, ns[1..], r1.1);
          assert r2.0.NoHit? ==> IsPrefix(st.finished, r2.1.finished) && v in r2.1.finished by {
            if r2.0.NoHit? {
              PrefixTrans(st.finished, r1.1.finished, r2.1.finished);
              FinishedStays(r1.1.finished, r2.1.finished, v);
            }
          }
          r2
      else if v in st.stack then (Hit(v, node), st)
      else
        var r2 := Neighbors(ids, edges, adj, node, ns[1..], st);
        assert r2.0.NoHit? ==> v in r2.1.finished by {
          if r2.0.NoHit? {
            FinishedStays(st.finished, r2.1.finished, v);
          }
        }
        r2
  }

  lemma FinishedStays(a: seq<Id>, b: seq<Id>, v: Id)
    requires IsPrefix(a, b) && v in a
    ensures v in b
  {
    var k :| 0 <= k < |a| && a[k] == v;
    assert b[k] == v;
  }

  /** The outer loop over the ids still to try: a search from each id not yet
      visited, in item order, stopping at the first search that finds a cycle. */
  function Roots(ids: seq<Id>, edges: seq<Entry>, adj: map<Id, seq<Id>>, rest: seq<Id>, st: Dfs): (r: (Hit, Dfs))
    requires Built(ids, edges, adj)
    requires DfsInv(ids, edges, st) && st.stack == []
    requires forall x :: x in rest ==> x in ids
    requires forall x :: x in ids && x !in rest ==> x in st.visited
    ensures DfsInv(ids, edges, r.1)
    ensures r.0.NoHit? ==> r.1.stack == [] && forall x :: x in ids ==> x in r.1.visited
    ensures r.0.Hit? ==> Witness(edges, r.1, r.0)
    decreases |rest|
  {
    if |rest| == 0 then (NoHit, st)
    else if rest[0] in st.visited then Roots(ids, edges, adj, rest[1..], st)
    else
      var r1 := Visit(ids, edges, adj, rest[0], st);
      if r1.0.Hit? then r1
      else Roots(ids, edges, adj, rest[1..], r1.1)
  }

  /** With no hit the search finishes every item id, and finishing order
      reversed is a ranking that increases along every dependency. */
  lemma NoHitAcyclic(ids: seq<Id>, edges: seq<Entry>, st: Dfs)
    requires EndpointsIn(edges, ids)
    requires DfsInv(ids, edges, st) && st.stack == []
    requires forall x :: x in ids ==> x in st.visited
    ensures !HasCycle(edges)
  {
    var f := st.finished;
    forall u, v | Dep(u, v) in edges ensures IndexOf(f, v) < IndexOf(f, u) {
      EndpointsOf(edges, ids, u, v);
      var k := IndexOf(f, u);
      assert f[k] == u;
      assert v in f[..k];
      var m :| 0 <= m < k && f[..k][m] == v;
      assert f[m] == v;
    }
    RankForbidsCycle(edges, (x: Id) => -(IndexOf(f, x) as int));
  }

  /** The ids the reconstruction loop pushes while it follows parent links from
      the end of the cycle back to its start. `fuel` bounds the walk; the loop
      also stops where no parent is recorded. */
  function Chase(parent: map<Id, Id>, start: Id, current: Id, fuel: nat): (r: seq<Id>)
    ensures |r| <= fuel
    ensures current == start ==> r == []
    ensures r != [] ==> r[0] == current
    ensures forall k :: 0 <= k < |r| - 1 ==> r[k] in parent && parent[r[k]] == r[k + 1]
    ensures start !in r
    decreases fuel
  {
    if current == start || fuel == 0 then []
    else if current !in parent then [current]
    else [current] + Chase(parent, start, parent[current], fuel - 1)
  }

  /** Following parent pointers from the top of the path walks the path back
      down to the start, one id per step. */
  lemma {:induction false} ChasePath(parent: map<Id, Id>, path: seq<Id>, i: nat, j: nat, fuel: nat)
    requires Linked(parent, path) && NoDup(path)
    requires i <= j < |path| && j - i <= fuel
    ensures |Chase(parent, path[i], path[j], fuel)| == j - i
    ensures forall k :: 0 <= k < j - i ==> Chase(parent, path[i], path[j], fuel)[k] == path[j - k]
    decreases j
  {
    if j > i {
      assert path[j] != path[i];
      ChasePath(parent, path, i, j - 1, fuel - 1);
    }
  }

  /** The reported cycle: the start followed by the pushed ids, reversed. */
  function Reconstruct(parent: map<Id, Id>, start: Id, end: Id, fuel: nat): (c: seq<Id>)
    ensures |c| > 0 && c[|c| - 1] == start
  {
    Reverse([start] + Chase(parent, start, end, fuel))
  }

  /** The rebuilt cycle is the part of the path from just after the start up
      to the top, followed by the start: a genuine cycle of distinct item ids. */
  lemma HitCycle(ids: seq<Id>, edges: seq<Entry>, st: Dfs, h: Hit)
    requires NoDup(ids)
    requires DfsInv(ids, edges, st)
    requires h.Hit? && Witness(edges, st, h)
    ensures var c := Reconstruct(st.parent, h.start, h.end, |ids|);
            && c == st.stack[IndexOf(st.stack, h.start) + 1..] + [h.start]
            && IsCycle(edges, c) && NoDup(c) && (forall x :: x in c ==> x in ids)
  {
    var path := st.stack;
    var i := IndexOf(path, h.start);
    NoDupBound(path, Elems(ids));
    NoDupCard(ids);
    ReconstructSuffix(st.parent, path, i, |ids|);
    CycleOfPath(edges, path, i);
  }

  /** Reconstruction from the top of a linked path back to its `i`-th id. */
  lemma ReconstructSuffix(parent: map<Id, Id>, path: seq<Id>, i: nat, fuel: nat)
    requires Linked(parent, path) && NoDup(path)
    requires i < |path| && |path| - 1 - i <= fuel
    ensures Reconstruct(parent, path[i], path[|path| - 1], fuel) == path[i + 1..] + [path[i]]
  {
    var j := |path| - 1;
    ChasePath(parent, path, i, j, fuel);
    var ch := Chase(parent, path[i], path[j], fuel);
    var c := Reconstruct(parent, path[i], path[j], fuel);
    var want := path[i + 1..] + [path[i]];
    assert |c| == |want|;
    forall k | 0 <= k < |c| ensures c[k] == want[k] {
      if k < j - i {
        assert c[k] == ([path[i]] + ch)[j - i - k];
      }
    }
  }

  lemma CycleOfPath(edges: seq<Entry>, path: seq<Id>, i: nat)
    requires IsPath(edges, path) && NoDup(path)
    requires i < |path| && Dep(path[|path| - 1], path[i]) in edges
    ensures var c := path[i + 1..] + [path[i]];
            IsCycle(edges, c) && NoDup(c) && (forall x :: x in c ==> x in path)
  {
    var c := path[i + 1..] + [path[i]];
    assert forall k :: 0 <= k < |c| - 1 ==> c[k] == path[i + 1 + k];
    forall k | 0 <= k < |c| - 1 ensures Dep(c[k], c[k + 1]) in edges {
      if k < |c| - 2 {
        assert Dep(path[i + 1 + k], path[i + 2 + k]) in edges;
      }
    }
    if |c| > 1 {
      assert Dep(path[i], path[i + 1]) in edges;
    }
    forall a, b | 0 <= a < b < |c| ensures c[a] != c[b] {
      if b < |c| - 1 {
        assert c[a] == path[i + 1 + a] && c[b] == path[i + 1 + b];
      } else {
        assert c[a] == path[i + 1 + a];
      }
    }
  }

  /** The edges of the reported cycle: each id with the next one, and the last
      with the first; the wrap-around of the successor index is written out. */
  function CycleEdges(cycle: seq<Id>): (es: seq<(Id, Id)>)
    ensures |es| == |cycle|
    ensures forall k :: 0 <= k < |cycle| - 1 ==> es[k] == (cycle[k], cycle[k + 1])
    ensures |cycle| > 0 ==> es[|cycle| - 1] == (cycle[|cycle| - 1], cycle[0])
  {
    seq(|cycle|, k requires 0 <= k < |cycle| => (cycle[k], if k + 1 < |cycle| then cycle[k + 1] else cycle[0]))
  }

  /** The edges of a cycle are dependencies, chained end to start, the last
      one leading back to the first id. */
  lemma CycleEdgesChain(edges: seq<Entry>, cycle: seq<Id>)
    requires IsCycle(edges, cycle)
    ensures var es := CycleEdges(cycle);
            && (forall k :: 0 <= k < |es| ==> Dep(es[k].0, es[k].1) in edges)
            && (forall k :: 0 <= k < |es| - 1 ==> es[k].1 == es[k + 1].0)
            && es[|es| - 1].1 == es[0].0
  {
  }

  /** The detector's answer: whether a cycle exists, one cycle, and its edges. */
  datatype CycleReport = CycleReport(hasCycle: bool, cycle: seq<Id>, cycleEdges: seq<(Id, Id)>)

  /** The cycle detector: search from every item id and, once a dependency
      back into the search path is seen, rebuild that cycle from parent links. */
  function DetectCycle(items: seq<Item>, edges: seq<Entry>): (rep: CycleReport)
    requires NoDup(Ids(items)) && EndpointsIn(edges, Ids(items))
    ensures rep.hasCycle <==> HasCycle(edges)
    ensures rep.hasCycle ==> IsCycle(edges, rep.cycle) && NoDup(rep.cycle)
    ensures forall x :: x in rep.cycle ==> x in Ids(items)
    ensures !rep.hasCycle ==> rep.cycle == [] && rep.cycleEdges == []
    ensures rep.cycleEdges == CycleEdges(rep.cycle)
  {
    var ids := Ids(items);
    var adj := Adjacency(ids, edges);
    assert Built(ids, edges, adj);
    var r := Roots(ids, edges, adj, ids, Dfs({}, [], map[], []));
    if r.0.NoHit? then
      NoHitAcyclic(ids, edges, r.1);
      CycleReport(false, [], [])
    else
      var cycle := Reconstruct(r.1.parent, r.0.start, r.0.end, |ids|);
      HitCycle(ids, edges, r.1, r.0);
      CycleReport(true, cycle, CycleEdges(cycle))
  }

  /** Question `p` produced edge `e`: the same two ids, in either orientation. */
  predicate Produces(p: (Id, Id), e: (Id, Id)) {
    (p.0 == e.0 && p.1 == e.1) || (p.0 == e.1 && p.1 == e.0)
  }

  /** A question produced an edge exactly when both name the same unordered
      pair of ids. */
  lemma ProducesUnordered(p: (Id, Id), e: (Id, Id))
    ensures Produces(p, e) <==> multiset{p.0, p.1} == multiset{e.0, e.1}
  {
    if multiset{p.0, p.1} == multiset{e.0, e.1} {
      assert p.0 in multiset{e.0, e.1};
      assert e.0 in multiset{p.0, p.1};
    }
  }

  /** The scan of the questions for one edge, from index `idx` on, adding the
      index of each question that produced it to the insertion-ordered set `acc`. */
  function ScanPairs(e: (Id, Id), pairs: seq<(Id, Id)>, idx: nat, acc: seq<nat>): (r: seq<nat>)
    requires idx <= |pairs| && NoDup(acc)
    ensures NoDup(r) && IsPrefix(acc, r)
    ensures forall i :: i in r <==> i in acc || (idx <= i < |pairs| && Produces(pairs[i], e))
    decreases |pairs| - idx
  {
    if idx == |pairs| then acc
    else if Produces(pairs[idx], e) && idx !in acc then
      ConcatNoDup(acc, [idx]);
      var r := ScanPairs(e, pairs, idx + 1, acc + [idx]);
      assert IsPrefix(acc, acc + [idx]);
      PrefixTrans(acc, acc + [idx], r);
      r
    else ScanPairs(e, pairs, idx + 1, acc)
  }

  /** The loop over the cycle's edges. */
  function ScanEdges(es: seq<(Id, Id)>, pairs: seq<(Id, Id)>, acc: seq<nat>): (r: seq<nat>)
    requires NoDup(acc)
    ensures NoDup(r) && IsPrefix(acc, r)
    ensures forall i :: i in r <==> i in acc || (0 <= i < |pairs| && exists k :: 0 <= k < |es| && Produces(pairs[i], es[k]))
    decreases |es|
  {
    if |es| == 0 then acc
    else
      var acc1 := ScanPairs(es[0], pairs, 0, acc);
      var r := ScanEdges(es[1..], pairs, acc1);
      PrefixTrans(acc, acc1, r);
      assert forall i :: i in r <==> i in acc || (0 <= i < |pairs| && exists k :: 0 <= k < |es| && Produces(pairs[i], es[k])) by {
        forall i ensures i in r <==> i in acc || (0 <= i < |pairs| && exists k :: 0 <= k < |es| && Produces(pairs[i], es[k])) {
          if 0 <= i < |pairs| && (exists k :: 0 <= k < |es| && Produces(pairs[i], es[k])) {
            var k :| 0 <= k < |es| && Produces(pairs[i], es[k]);
            if k > 0 {
              assert es[1..][k - 1] == es[k];
            }
          }
          if i in r && i !in acc && i !in acc1 {
            var k :| 0 <= k < |es| - 1 && Produces(pairs[i], es[1..][k]);
            assert es[1..][k] == es[k + 1];
          }
        }
      }
      r
  }

  /** The questions behind a cycle: the indices of the questions that produced
      an edge of the cycle, each once, in the order they are first met. */
  function FindCycleQuestions(es: seq<(Id, Id)>, pairs: seq<(Id, Id)>): (r: seq<nat>)
    ensures NoDup(r)
    ensures forall i :: i in r <==> 0 <= i < |pairs| && exists k :: 0 <= k < |es| && Produces(pairs[i], es[k])
  {
    ScanEdges(es, pairs, [])
  }

  /** An edge between two distinct item ids was produced by some question of
      `allPairs`. */
  lemma SomeQuestionPerEdge(ids: seq<Id>, e: (Id, Id))
    requires NoDup(ids) && e.0 in ids && e.1 in ids && e.0 != e.1
    ensures exists i :: 0 <= i < |AllPairs(ids)| && Produces(AllPairs(ids)[i], e)
  {
    var a := IndexOf(ids, e.0);
    var b := IndexOf(ids, e.1);
    if a < b {
      AllPairsComplete(ids, a, b);
    } else {
      AllPairsComplete(ids, b, a);
    }
  }

  /** ... and by no other: distinct ids give distinct unordered pairs. */
  lemma OnlyQuestionPerEdge(ids: seq<Id>, e: (Id, Id), i: nat, j: nat)
    requires NoDup(ids)
    requires i < |AllPairs(ids)| && j < |AllPairs(ids)|
    requires Produces(AllPairs(ids)[i], e) && Produces(AllPairs(ids)[j], e)
    ensures i == j
  {
    AllPairsDistinct(ids);
  }

  /** Any cycle without a self-dependency points back to at least one
      question of `allPairs`. */
  lemma QuestionsOfCycle(ids: seq<Id>, edges: seq<Entry>, cycle: seq<Id>)
    requires NoDup(ids) && EndpointsIn(edges, ids)
    requires NoSelfDeps(edges)
    requires IsCycle(edges, cycle)
    ensures FindCycleQuestions(CycleEdges(cycle), AllPairs(ids)) != []
  {
    var es := CycleEdges(cycle);
    CycleEdgesChain(edges, cycle);
    var e := es[0];
    var k :| 0 <= k < |edges| && edges[k] == Dep(e.0, e.1);
    EndpointsOf(edges, ids, e.0, e.1);
    SomeQuestionPerEdge(ids, e);
    var i :| 0 <= i < |AllPairs(ids)| && Produces(AllPairs(ids)[i], e);
    assert i in FindCycleQuestions(es, AllPairs(ids));
  }

  /** When no item depends on itself, a detected cycle always points back to
      at least one question of `allPairs`. */
  lemma CycleQuestionsNonEmpty(items: seq<Item>, edges: seq<Entry>)
    requires NoDup(Ids(items)) && EndpointsIn(edges, Ids(items))
    requires NoSelfDeps(edges)
    requires DetectCycle(items, edges).hasCycle
    ensures FindCycleQuestions(DetectCycle(items, edges).cycleEdges, AllPairs(Ids(items))) != []
  {
    QuestionsOfCycle(Ids(items), edges, DetectCycle(items, edges).cycle);
  }
}
