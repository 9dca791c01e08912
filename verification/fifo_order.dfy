/**
 The order in which a first-in first-out Kahn run processes ids. An id enters
 the queue at the step that processes its last predecessor; ids with no
 predecessor enter first, in item order; ids freed by the same step enter in
 the order their counts reach zero, which is the order of their last
 occurrences in that predecessor's adjacency list. A queue hands them out in
 the order they entered. `QueueOrder` states this of a whole processing order
 without reference to the queue.
 */
module FifoOrder {
  import opened Seqs
  import opened Graph
  import opened Kahn

  /** Position in `s` of the last predecessor of `x`, or -1 when none occurs in `s`. */
  function LastPred(edges: seq<Entry>, s: seq<Id>, x: Id): (k: int)
    ensures -1 <= k < |s|
    ensures k >= 0 ==> Dep(s[k], x) in edges
    ensures forall j :: k < j < |s| ==> Dep(s[j], x) !in edges
  {
    if |s| == 0 then -1
    else if Dep(s[|s| - 1], x) in edges then |s| - 1
    else LastPred(edges, s[..|s| - 1], x)
  }

  /** Where `x` stands among the ids that became ready together with it: ids
      without predecessors by item order, ids freed by the same predecessor by
      their last occurrence in its adjacency list. */
  function TieRank(ids: seq<Id>, edges: seq<Entry>, s: seq<Id>, x: Id): int {
    var k := LastPred(edges, s, x);
    if k < 0 then IndexOf(ids, x) else LastIndexOf(Targets(edges, s[k]), x)
  }

  /** In a run that processed `s`, `x` became ready strictly before `y`. */
  predicate ReadyBefore(ids: seq<Id>, edges: seq<Entry>, s: seq<Id>, x: Id, y: Id) {
    var a := LastPred(edges, s, x);
    var b := LastPred(edges, s, y);
    a < b || (a == b && TieRank(ids, edges, s, x) < TieRank(ids, edges, s, y))
  }

  /** Every id of `s` became ready strictly before every id after it. */
  predicate QueueOrder(ids: seq<Id>, edges: seq<Entry>, s: seq<Id>) {
    forall i, j :: 0 <= i < j < |s| ==> ReadyBefore(ids, edges, s, s[i], s[j])
  }

  /** The three conditions of `LastPred`'s contract pin its value. */
  lemma LastPredIs(edges: seq<Entry>, s: seq<Id>, x: Id, k: int)
    requires -1 <= k < |s|
    requires k >= 0 ==> Dep(s[k], x) in edges
    requires forall j :: k < j < |s| ==> Dep(s[j], x) !in edges
    ensures LastPred(edges, s, x) == k
  {
  }

  /** Appending ids that are no predecessors of `x` keeps its key. */
  lemma KeepKey(ids: seq<Id>, edges: seq<Entry>, s: seq<Id>, t: seq<Id>, x: Id)
    requires forall w :: w in t ==> Dep(w, x) !in edges
    ensures LastPred(edges, s + t, x) == LastPred(edges, s, x)
    ensures TieRank(ids, edges, s + t, x) == TieRank(ids, edges, s, x)
  {
    var k := LastPred(edges, s, x);
    forall j | k < j < |s + t| ensures Dep((s + t)[j], x) !in edges {
      if j >= |s| {
        assert (s + t)[j] in t;
      }
    }
    LastPredIs(edges, s + t, x, k);
  }

  /** When every predecessor of `x` is among the first `n` ids of a
      duplicate-free `s`, its last one stands before position `n`. */
  lemma KeyBound(edges: seq<Entry>, s: seq<Id>, n: nat, x: Id)
    requires NoDup(s) && n <= |s|
    requires forall w :: Dep(w, x) in edges ==> w in s[..n]
    ensures LastPred(edges, s, x) < n
  {
    forall j | n <= j < |s| ensures s[j] !in s[..n] {
      forall m | 0 <= m < n ensures s[..n][m] != s[j] {
        assert s[..n][m] == s[m];
      }
    }
  }

  /** Every predecessor of a processed or ready id is processed. */
  lemma PredsDone(ids: seq<Id>, edges: seq<Entry>, done: seq<Id>, pending: seq<Id>, res: map<Id, int>)
    requires Inv(ids, edges, done, pending, res)
    ensures forall x, w :: x in done + pending && Dep(w, x) in edges ==> w in done
  {
    forall x, w | x in done + pending && Dep(w, x) in edges ensures w in done {
      if x in done {
        var k := IndexOf(done, x);
        assert PredsBefore(edges, done, k);
        assert w in done[..k];
      } else {
        ResidualZero(edges, x, done);
      }
    }
  }

  /** `r` lists ids in the order of their last occurrences in `ts`. */
  predicate ByLastOccurrence(ts: seq<Id>, r: seq<Id>) {
    forall i, j :: 0 <= i < j < |r| ==> LastIndexOf(ts, r[i]) < LastIndexOf(ts, r[j])
  }

  /** Relaxing frees ids in the order their counts reach zero: the order of
      their last occurrences in `ts`. */
  lemma {:induction false} RelaxOrder(res: map<Id, int>, ts: seq<Id>)
    requires forall v :: v in ts ==> v in res
    requires forall v :: v in res ==> res[v] >= multiset(ts)[v]
    ensures ByLastOccurrence(ts, Relax(res, ts).1)
  {
    if |ts| > 0 {
      var v := ts[0];
      var res1 := res[v := res[v] - 1];
      RelaxTailCounts(res, ts);
      RelaxOrder(res1, ts[1..]);
      var ready2 := Relax(res1, ts[1..]).1;
      ShiftOrder(ts, ready2);
      RelaxHeadFreed(res, ts, res1);
      if res1[v] == 0 {
        ConsOrder(ts, ready2);
      }
    }
  }

  /** After the first decrement the counts still cover the rest of `ts`; an id
      whose count the first decrement brings to zero does not occur again. */
  lemma RelaxTailCounts(res: map<Id, int>, ts: seq<Id>)
    requires forall v :: v in ts ==> v in res
    requires forall v :: v in res ==> res[v] >= multiset(ts)[v]
    requires |ts| > 0
    ensures var v := ts[0];
            var res1 := res[v := res[v] - 1];
            && (forall x :: x in ts[1..] ==> x in res1)
            && (forall x :: x in res1 ==> res1[x] >= multiset(ts[1..])[x])
            && (res1[v] == 0 ==> v !in ts[1..])
  {
    var v := ts[0];
    assert ts == [v] + ts[1..];
    assert multiset(ts) == multiset{v} + multiset(ts[1..]);
  }

  /** The ids the first decrement frees, followed by those the rest frees. */
  lemma RelaxHeadFreed(res: map<Id, int>, ts: seq<Id>, res1: map<Id, int>)
    requires forall v :: v in ts ==> v in res
    requires |ts| > 0 && res1 == res[ts[0] := res[ts[0]] - 1]
    ensures res1[ts[0]] == 0 ==> Relax(res, ts).1 == [ts[0]] + Relax(res1, ts[1..]).1
    ensures res1[ts[0]] != 0 ==> Relax(res, ts).1 == Relax(res1, ts[1..]).1
  {
    assert [] + Relax(res1, ts[1..]).1 == Relax(res1, ts[1..]).1;
  }

  lemma LastIndexTail(ts: seq<Id>, w: Id)
    requires |ts| > 0 && w in ts[1..]
    ensures LastIndexOf(ts, w) == LastIndexOf(ts[1..], w) + 1
  {
  }

  /** Ids of the tail keep their relative order in the whole sequence. */
  lemma ShiftOrder(ts: seq<Id>, rest: seq<Id>)
    requires |ts| > 0
    requires forall w :: w in rest ==> w in ts[1..]
    requires ByLastOccurrence(ts[1..], rest)
    ensures ByLastOccurrence(ts, rest)
  {
    forall i, j | 0 <= i < j < |rest| ensures LastIndexOf(ts, rest[i]) < LastIndexOf(ts, rest[j]) {
      LastIndexTail(ts, rest[i]);
      LastIndexTail(ts, rest[j]);
    }
  }

  /** The head of `ts`, occurring nowhere else, comes before every id of the tail. */
  lemma ConsOrder(ts: seq<Id>, rest: seq<Id>)
    requires |ts| > 0 && ts[0] !in ts[1..]
    requires forall w :: w in rest ==> w in ts[1..]
    requires ByLastOccurrence(ts, rest)
    ensures ByLastOccurrence(ts, [ts[0]] + rest)
  {
    var r := [ts[0]] + rest;
    forall i, j | 0 <= i < j < |r| ensures LastIndexOf(ts, r[i]) < LastIndexOf(ts, r[j]) {
      assert r[j] == rest[j - 1];
      LastIndexTail(ts, rest[j - 1]);
      if i > 0 {
        assert r[i] == rest[i - 1];
      }
    }
  }

  /** Appending ids freed by the id at position `n` to a queue order keeps it
      a queue order, when the ids already there had their last predecessor
      before `n` and none of the new ids precedes them. */
  lemma QueueOrderExtend(ids: seq<Id>, edges: seq<Entry>, s: seq<Id>, t: seq<Id>, n: nat)
    requires n < |s|
    requires QueueOrder(ids, edges, s)
    requires forall x, w :: x in s && w in t ==> Dep(w, x) !in edges
    requires forall x :: x in s ==> LastPred(edges, s, x) < n
    requires forall y :: y in t ==> LastPred(edges, s + t, y) == n
    requires ByLastOccurrence(Targets(edges, s[n]), t)
    ensures QueueOrder(ids, edges, s + t)
  {
    var s' := s + t;
    forall x | x in s ensures LastPred(edges, s', x) == LastPred(edges, s, x) < n
      ensures TieRank(ids, edges, s', x) == TieRank(ids, edges, s, x)
    {
      KeepKey(ids, edges, s, t, x);
    }
    forall y | y in t ensures TieRank(ids, edges, s', y) == LastIndexOf(Targets(edges, s[n]), y) {
      assert s'[n] == s[n];
    }
    forall i, j | 0 <= i < j < |s'| ensures ReadyBefore(ids, edges, s', s'[i], s'[j]) {
      if j < |s| {
        assert s'[i] == s[i] && s'[j] == s[j];
        assert ReadyBefore(ids, edges, s, s[i], s[j]);
      } else if i < |s| {
        assert s'[i] == s[i] && s'[j] == t[j - |s|];
      } else {
        assert s'[i] == t[i - |s|] && s'[j] == t[j - |s|];
      }
    }
  }

  /** A ready id that the last processed id precedes has it as its last
      predecessor. */
  lemma FreedKey(ids: seq<Id>, edges: seq<Entry>, done: seq<Id>, pending: seq<Id>, res: map<Id, int>, y: Id)
    requires Inv(ids, edges, done, pending, res)
    requires |done| > 0 && y in pending && Dep(done[|done| - 1], y) in edges
    ensures LastPred(edges, done + pending, y) == |done| - 1
  {
    var s := done + pending;
    PredsDone(ids, edges, done, pending, res);
    forall j | |done| - 1 < j < |s| ensures Dep(s[j], y) !in edges {
      assert s[j] == pending[j - |done|];
    }
    LastPredIs(edges, s, y, |done| - 1);
  }

  /** Every id processed or ready has its last predecessor among the processed ids. */
  lemma QueuedKeys(ids: seq<Id>, edges: seq<Entry>, done: seq<Id>, pending: seq<Id>, res: map<Id, int>)
    requires Inv(ids, edges, done, pending, res)
    ensures forall x :: x in done + pending ==> LastPred(edges, done + pending, x) < |done|
  {
    var s := done + pending;
    PredsDone(ids, edges, done, pending, res);
    ConcatNoDup(done, pending);
    assert s[..|done|] == done;
    forall x | x in s ensures LastPred(edges, s, x) < |done| {
      KeyBound(edges, s, |done|, x);
    }
  }

  /** The ids a step frees precede none of the ids processed or queued before,
      and have the processed id as their last predecessor. */
  lemma FreedKeys(ids: seq<Id>, edges: seq<Entry>, done: seq<Id>, pending: seq<Id>, res: map<Id, int>)
    requires Setup(ids, edges)
    requires Inv(ids, edges, done, pending, res)
    requires |pending| > 0
    ensures forall v :: v in Targets(edges, pending[0]) ==> v in res
    ensures var s := done + pending;
            var t := Relax(res, Targets(edges, pending[0])).1;
            && (forall x, w :: x in s && w in t ==> Dep(w, x) !in edges)
            && (forall y :: y in t ==> LastPred(edges, s + t, y) == |done|)
  {
    var u := pending[0];
    HeadStep(ids, edges, done, pending, res);
    var t := Relax(res, Targets(edges, u)).1;
    HeadShape(done, pending, t);
    AfterStep(ids, edges, done + [u], pending[1..] + t, Relax(res, Targets(edges, u)).0, done + pending, t);
  }

  /** Processing the head of the ready list, in the shape the queue keeps it. */
  lemma HeadStep(ids: seq<Id>, edges: seq<Entry>, done: seq<Id>, pending: seq<Id>, res: map<Id, int>)
    requires Setup(ids, edges)
    requires Inv(ids, edges, done, pending, res)
    requires |pending| > 0
    ensures forall v :: v in Targets(edges, pending[0]) ==> v in res
    ensures var r := Relax(res, Targets(edges, pending[0]));
            && Inv(ids, edges, done + [pending[0]], pending[1..] + r.1, r.0)
            && forall y :: y in r.1 ==> Dep(pending[0], y) in edges
  {
    Step(ids, edges, done, pending, res, 0);
    var r := Relax(res, Targets(edges, pending[0]));
    DropHead(pending, r.1);
    InvCongruent(ids, edges, done + [pending[0]], done + [pending[0]],
                 pending[..0] + pending[0 + 1..] + r.1, pending[1..] + r.1, r.0);
    FreedAreTargets(ids, edges, res, pending[0]);
  }

  lemma DropHead(pending: seq<Id>, t: seq<Id>)
    requires |pending| > 0
    ensures pending[..0] + pending[0 + 1..] + t == pending[1..] + t
  {
  }

  /** Ids freed by processing `u` are targets of `u`. */
  lemma FreedAreTargets(ids: seq<Id>, edges: seq<Entry>, res: map<Id, int>, u: Id)
    requires Setup(ids, edges) && u in ids
    requires forall v :: v in Targets(edges, u) ==> v in res
    ensures forall y :: y in Relax(res, Targets(edges, u)).1 ==> Dep(u, y) in edges
  {
  }

  lemma HeadShape(done: seq<Id>, pending: seq<Id>, t: seq<Id>)
    requires |pending| > 0
    ensures done + [pending[0]] + (pending[1..] + t) == done + pending + t
    ensures (done + [pending[0]])[|done|] == pending[0]
  {
    assert pending == [pending[0]] + pending[1..];
  }

  /** Once `s` followed by the freed ids `t` is the processed-then-ready list,
      no freed id precedes an id of `s`, and the last processed id is the last
      predecessor of every freed one. */
  lemma AfterStep(ids: seq<Id>, edges: seq<Entry>, done: seq<Id>, pending: seq<Id>, res: map<Id, int>,
                  s: seq<Id>, t: seq<Id>)
    requires Inv(ids, edges, done, pending, res)
    requires |done| > 0 && |done| <= |s| && s + t == done + pending
    requires forall y :: y in t ==> Dep(done[|done| - 1], y) in edges
    ensures forall x, w :: x in s && w in t ==> Dep(w, x) !in edges
    ensures forall y :: y in t ==> LastPred(edges, s + t, y) == |done| - 1
  {
    assert forall w :: w in t ==> w in pending by {
      forall w | w in t ensures w in pending {
        var k :| 0 <= k < |t| && t[k] == w;
        assert (s + t)[|s| + k] == w;
        assert (done + pending)[|s| + k] == pending[|s| + k - |done|];
      }
    }
    PredsDone(ids, edges, done, pending, res);
    forall x, w | x in s && w in t ensures Dep(w, x) !in edges {
      assert x in done + pending;
    }
    forall y | y in t ensures LastPred(edges, s + t, y) == |done| - 1 {
      FreedKey(ids, edges, done, pending, res, y);
    }
  }

  /** One step of the queue discipline keeps the queue order of the processed
      and queued ids. */
  lemma FifoStep(ids: seq<Id>, edges: seq<Entry>, done: seq<Id>, pending: seq<Id>, res: map<Id, int>)
    requires Setup(ids, edges)
    requires Inv(ids, edges, done, pending, res)
    requires |pending| > 0
    requires QueueOrder(ids, edges, done + pending)
    ensures forall v :: v in Targets(edges, pending[0]) ==> v in res
    ensures QueueOrder(ids, edges, done + pending + Relax(res, Targets(edges, pending[0])).1)
  {
    var u := pending[0];
    TargetsIn(ids, edges, u);
    StepCounts(ids, edges, done, pending, res, u);
    RelaxOrder(res, Targets(edges, u));
    QueuedKeys(ids, edges, done, pending, res);
    FreedKeys(ids, edges, done, pending, res);
    assert (done + pending)[|done|] == u;
    QueueOrderExtend(ids, edges, done + pending, Relax(res, Targets(edges, u)).1, |done|);
  }

  /** Draining with the queue keeps the queue order, so the whole processing
      order is in queue order. */
  lemma {:induction false} DrainOrdered(ids: seq<Id>, edges: seq<Entry>, done: seq<Id>, pending: seq<Id>, res: map<Id, int>)
    requires Setup(ids, edges)
    requires Inv(ids, edges, done, pending, res)
    requires QueueOrder(ids, edges, done + pending)
    ensures QueueOrder(ids, edges, Drain(ids, edges, Fifo, done, pending, res).0)
    decreases |ids| - |done|
  {
    if |pending| == 0 {
      assert done + pending == done;
    } else {
      var u := pending[0];
      Step(ids, edges, done, pending, res, 0);
      FifoStep(ids, edges, done, pending, res);
      var r := Relax(res, Targets(edges, u));
      FifoShape(done, pending, r.1);
      DrainOrdered(ids, edges, done + [u], pending[..0] + pending[0 + 1..] + r.1, r.0);
    }
  }

  /** The ids without predecessors are queued first, in item order. */
  lemma SourcesOrdered(ids: seq<Id>, edges: seq<Entry>)
    requires NoDup(ids)
    ensures QueueOrder(ids, edges, ZeroInDegree(ids, InitialCounts(ids, edges)))
  {
    var res := InitialCounts(ids, edges);
    var q := ZeroInDegree(ids, res);
    forall x | x in q ensures LastPred(edges, q, x) == -1 {
      ResidualZero(edges, x, []);
      LastPredIs(edges, q, x, -1);
    }
    forall i, j | 0 <= i < j < |q| ensures ReadyBefore(ids, edges, q, q[i], q[j]) {
      assert q[i] in q && q[j] in q;
    }
  }

  /** A first-in first-out run processes ids in queue order. */
  lemma RunOrdered(ids: seq<Id>, edges: seq<Entry>)
    requires Setup(ids, edges)
    ensures QueueOrder(ids, edges, Run(ids, edges, Fifo).0)
  {
    var res := InitialCounts(ids, edges);
    InitialInv(ids, edges);
    var q := ZeroInDegree(ids, res);
    SourcesOrdered(ids, edges);
    assert [] + q == q;
    DrainOrdered(ids, edges, [], q, res);
  }

  /** When every predecessor of `x` is among the first `k` ids of a
      duplicate-free `s`, its key in `s` is its key in that prefix. */
  lemma KeyPrefix(ids: seq<Id>, edges: seq<Entry>, s: seq<Id>, k: nat, x: Id)
    requires NoDup(s) && k <= |s|
    requires forall w :: Dep(w, x) in edges ==> w in s[..k]
    ensures LastPred(edges, s, x) == LastPred(edges, s[..k], x)
    ensures TieRank(ids, edges, s, x) == TieRank(ids, edges, s[..k], x)
  {
    var m := LastPred(edges, s[..k], x);
    forall j | m < j < |s| ensures Dep(s[j], x) !in edges {
      if j < k {
        assert s[j] == s[..k][j];
      } else {
        forall n | 0 <= n < k ensures s[..k][n] != s[j] {
          assert s[..k][n] == s[n];
        }
      }
    }
    if m >= 0 {
      assert s[m] == s[..k][m];
    }
    LastPredIs(edges, s, x, m);
  }

  /** Two processing orders that share their first `k` ids and are both
      topological and in queue order agree on the next one. */
  lemma NextAgrees(ids: seq<Id>, edges: seq<Entry>, s: seq<Id>, t: seq<Id>, k: nat)
    requires NoDup(s) && NoDup(t) && |s| == |t|
    requires forall x :: x in s <==> x in t
    requires Topological(edges, s) && Topological(edges, t)
    requires QueueOrder(ids, edges, s) && QueueOrder(ids, edges, t)
    requires k < |s| && s[..k] == t[..k]
    ensures s[k] == t[k]
  {
    var x, y := s[k], t[k];
    assert PredsBefore(edges, s, k) && PredsBefore(edges, t, k);
    KeyPrefix(ids, edges, s, k, x);
    KeyPrefix(ids, edges, s, k, y);
    KeyPrefix(ids, edges, t, k, x);
    KeyPrefix(ids, edges, t, k, y);
    var p := IndexOf(s, y);
    var q := IndexOf(t, x);
    assert t[q] == x && s[p] == y;
    IndexOfNoDup(t, k);
    IndexOfNoDup(s, k);
    assert y !in s[..k] && x !in t[..k];
    forall n | 0 <= n < k ensures s[n] != y && t[n] != x {
      assert s[n] == s[..k][n] && t[n] == t[..k][n];
    }
    assert p != k ==> ReadyBefore(ids, edges, s, x, y);
    assert q != k ==> ReadyBefore(ids, edges, t, y, x);
  }

  /** Among the topological orders of the same ids, at most one is in queue
      order. */
  lemma {:induction false} QueueOrderUnique(ids: seq<Id>, edges: seq<Entry>, s: seq<Id>, t: seq<Id>, k: nat)
    requires NoDup(s) && NoDup(t) && |s| == |t|
    requires forall x :: x in s <==> x in t
    requires Topological(edges, s) && Topological(edges, t)
    requires QueueOrder(ids, edges, s) && QueueOrder(ids, edges, t)
    requires k <= |s| && s[..k] == t[..k]
    ensures s == t
    decreases |s| - k
  {
    if k < |s| {
      NextAgrees(ids, edges, s, t, k);
      assert s[..k + 1] == s[..k] + [s[k]] && t[..k + 1] == t[..k] + [t[k]];
      QueueOrderUnique(ids, edges, s, t, k + 1);
    } else {
      assert s == s[..k] && t == t[..k];
    }
  }
}
