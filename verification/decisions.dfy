/**
 Decision bookkeeping of the graph screen (`src/ui/graph/graph.js`, and the
 older copy in `src/ui/graphScreen.js`): the answers to the pairwise questions
 are entries appended to one edges array, and the screen derives from that
 array which question to ask next and how many are answered.
 */
module Decisions {
  import opened Seqs
  import opened Graph
  import opened Pairs

  /** The key of a "no dependency" marker: the two ids in ascending order. */
  function NoneKey(a: Id, b: Id): (k: (Id, Id))
    ensures k.0 <= k.1
    ensures (k.0 == a && k.1 == b) || (k.0 == b && k.1 == a)
  {
    if a <= b then (a, b) else (b, a)
  }

  /** The key does not depend on which item was asked first, and it
      identifies the unordered pair. */
  lemma NoneKeySymmetric(a: Id, b: Id, c: Id, d: Id)
    ensures NoneKey(a, b) == NoneKey(b, a)
    ensures NoneKey(a, b) == NoneKey(c, d) <==> (a == c && b == d) || (a == d && b == c)
  {
  }

  /** Some entry is the "no dependency" marker with this key. */
  predicate HasNoneMark(edges: seq<Entry>, key: (Id, Id)) {
    NoneMark(key) in edges
  }

  /** Entries are only ever appended: `edges` is a prefix of `r`. */
  predicate Extends(edges: seq<Entry>, r: seq<Entry>) {
    |edges| <= |r| && r[..|edges|] == edges
  }

  /** No dependency entry occurs twice. */
  predicate NoDupDeps(edges: seq<Entry>) {
    forall i, j :: 0 <= i < j < |edges| && edges[i].Dep? ==> edges[i] != edges[j]
  }

  /** Records "no dependency" for the pair unless its marker already exists. */
  function MarkPairAsNone(pair: (Id, Id), edges: seq<Entry>): (r: seq<Entry>)
    ensures Extends(edges, r) && |r| <= |edges| + 1
    ensures HasNoneMark(r, NoneKey(pair.0, pair.1))
    ensures HasNoneMark(edges, NoneKey(pair.0, pair.1)) ==> r == edges
    ensures forall k :: |edges| <= k < |r| ==> r[k].NoneMark?
    ensures forall f, t :: EdgeExists(r, f, t) == EdgeExists(edges, f, t)
  {
    var key := NoneKey(pair.0, pair.1);
    if HasNoneMark(edges, key) then edges else edges + [NoneMark(key)]
  }

  lemma MarkPairAsNoneIdempotent(pair: (Id, Id), edges: seq<Entry>)
    ensures MarkPairAsNone(pair, MarkPairAsNone(pair, edges)) == MarkPairAsNone(pair, edges)
  {
  }

  /** Adding a dependency, restricted to its effect on the edges array. */
  function AddEdge(edges: seq<Entry>, from: Id, to: Id): (r: seq<Entry>)
    ensures Extends(edges, r) && |r| <= |edges| + 1
    ensures Dep(from, to) in r
    ensures forall e :: e in r ==> e in edges || e == Dep(from, to)
    ensures |r| == |edges| <==> Dep(from, to) in edges
    ensures NoDupDeps(edges) ==> NoDupDeps(r)
  {
    EdgeExistsIsMembership(edges, from, to);
    if EdgeExists(edges, from, to) then edges else edges + [Dep(from, to)]
  }

  /** A question is answered when an edge exists in either direction or its
      "no dependency" marker exists. */
  predicate Decided(edges: seq<Entry>, pair: (Id, Id)): (b: bool)
    ensures b <==> Dep(pair.0, pair.1) in edges || Dep(pair.1, pair.0) in edges
                   || NoneMark(NoneKey(pair.1, pair.0)) in edges
  {
    NoneKeySymmetric(pair.0, pair.1, pair.1, pair.0);
    EdgeExistsIsMembership(edges, pair.0, pair.1);
    EdgeExistsIsMembership(edges, pair.1, pair.0);
    || EdgeExists(edges, pair.0, pair.1)
    || EdgeExists(edges, pair.1, pair.0)
    || HasNoneMark(edges, NoneKey(pair.0, pair.1))
  }

  /** Appending entries never un-answers a question. */
  lemma DecidedMono(edges: seq<Entry>, r: seq<Entry>, pair: (Id, Id))
    requires forall e :: e in edges ==> e in r
    requires Decided(edges, pair)
    ensures Decided(r, pair)
  {
    EdgeExistsIsMembership(edges, pair.0, pair.1);
    EdgeExistsIsMembership(edges, pair.1, pair.0);
    EdgeExistsIsMembership(r, pair.0, pair.1);
    EdgeExistsIsMembership(r, pair.1, pair.0);
  }

  function FindFrom(pairs: seq<(Id, Id)>, edges: seq<Entry>, i: nat): (r: nat)
    requires i <= |pairs|
    ensures i <= r <= |pairs|
    ensures forall k :: i <= k < r ==> Decided(edges, pairs[k])
    ensures r < |pairs| ==> !Decided(edges, pairs[r])
    decreases |pairs| - i
  {
    if i == |pairs| then i
    else if !Decided(edges, pairs[i]) then i
    else FindFrom(pairs, edges, i + 1)
  }

  /** The index of the first unanswered question, or `|pairs|` when all are answered. */
  function FindNextPairIndex(pairs: seq<(Id, Id)>, edges: seq<Entry>): (r: nat)
    ensures r <= |pairs|
    ensures forall k :: 0 <= k < r ==> Decided(edges, pairs[k])
    ensures r < |pairs| ==> !Decided(edges, pairs[r])
  {
    FindFrom(pairs, edges, 0)
  }

  /** The number of answered questions, the progress shown on screen. */
  function CountDecidedPairs(pairs: seq<(Id, Id)>, edges: seq<Entry>): (c: nat)
    ensures c <= |pairs|
    ensures c == |pairs| <==> forall k :: 0 <= k < |pairs| ==> Decided(edges, pairs[k])
  {
    if |pairs| == 0 then 0
    else
      var rest := CountDecidedPairs(pairs[1..], edges);
      assert forall k :: 1 <= k < |pairs| ==> pairs[1..][k - 1] == pairs[k];
      (if Decided(edges, pairs[0]) then 1 else 0) + rest
  }

  /** Every question is answered exactly when no next question is left. */
  lemma CountFullIffNoneLeft(pairs: seq<(Id, Id)>, edges: seq<Entry>)
    ensures CountDecidedPairs(pairs, edges) == |pairs| <==> FindNextPairIndex(pairs, edges) == |pairs|
  {
  }

  /** Answering one new question, and changing no other, adds exactly one to the count. */
  lemma {:induction false} CountOneMore(pairs: seq<(Id, Id)>, e1: seq<Entry>, e2: seq<Entry>, k: nat)
    requires k < |pairs|
    requires !Decided(e1, pairs[k]) && Decided(e2, pairs[k])
    requires forall m :: 0 <= m < |pairs| && m != k ==> (Decided(e2, pairs[m]) <==> Decided(e1, pairs[m]))
    ensures CountDecidedPairs(pairs, e2) == CountDecidedPairs(pairs, e1) + 1
  {
    if k == 0 {
      CountSame(pairs[1..], e1, e2);
    } else {
      assert forall m :: 0 <= m < |pairs| - 1 ==> pairs[1..][m] == pairs[m + 1];
      CountOneMore(pairs[1..], e1, e2, k - 1);
    }
  }

  lemma {:induction false} CountSame(pairs: seq<(Id, Id)>, e1: seq<Entry>, e2: seq<Entry>)
    requires forall m :: 0 <= m < |pairs| ==> (Decided(e2, pairs[m]) <==> Decided(e1, pairs[m]))
    ensures CountDecidedPairs(pairs, e2) == CountDecidedPairs(pairs, e1)
  {
    if |pairs| > 0 {
      assert forall m :: 0 <= m < |pairs| - 1 ==> pairs[1..][m] == pairs[m + 1];
      CountSame(pairs[1..], e1, e2);
    }
  }

  /** The three buttons of the question card. */
  datatype Answer =
    | FirstNeedsSecond   // the first task needs the second one done before it
    | SecondNeedsFirst   // the second task needs the first one done before it
    | NoDependency       // the two tasks do not depend on each other

  /** The edges array and the index of the question on screen. */
  datatype Session = Session(edges: seq<Entry>, pairIndex: nat)

  /** A click on one of the buttons: record the answer for the question on
      screen, then move to the first unanswered question. */
  function Respond(pairs: seq<(Id, Id)>, s: Session, answer: Answer): (r: Session)
    requires s.pairIndex < |pairs|
    ensures Extends(s.edges, r.edges) && |r.edges| <= |s.edges| + 1
    ensures Decided(r.edges, pairs[s.pairIndex])
    ensures answer == FirstNeedsSecond ==> Dep(pairs[s.pairIndex].1, pairs[s.pairIndex].0) in r.edges
    ensures answer == SecondNeedsFirst ==> Dep(pairs[s.pairIndex].0, pairs[s.pairIndex].1) in r.edges
    ensures answer == NoDependency ==> forall f, t :: EdgeExists(r.edges, f, t) == EdgeExists(s.edges, f, t)
    ensures r.pairIndex <= |pairs|
    ensures forall k :: 0 <= k < r.pairIndex ==> Decided(r.edges, pairs[k])
    ensures r.pairIndex < |pairs| ==> !Decided(r.edges, pairs[r.pairIndex])
  {
    var (a, b) := pairs[s.pairIndex];
    var edges :=
      match answer
      case FirstNeedsSecond => AddEdge(s.edges, b, a)
      case SecondNeedsFirst => AddEdge(s.edges, a, b)
      case NoDependency => MarkPairAsNone(pairs[s.pairIndex], s.edges);
    EdgeExistsIsMembership(edges, a, b);
    EdgeExistsIsMembership(edges, b, a);
    Session(edges, FindNextPairIndex(pairs, edges))
  }

  /** The entry a response appends decides no question other than its own. */
  lemma AppendedDecidesOnlyItsPair(edges: seq<Entry>, x: Entry, a: Id, b: Id, q: (Id, Id))
    requires x == Dep(a, b) || x == Dep(b, a) || x == NoneMark(NoneKey(a, b))
    requires q != (a, b) && q != (b, a)
    ensures Decided(edges + [x], q) <==> Decided(edges, q)
  {
    EdgeExistsIsMembership(edges, q.0, q.1);
    EdgeExistsIsMembership(edges, q.1, q.0);
    EdgeExistsIsMembership(edges + [x], q.0, q.1);
    EdgeExistsIsMembership(edges + [x], q.1, q.0);
    NoneKeySymmetric(q.0, q.1, a, b);
  }

  /** With distinct ids, a click on an unanswered question changes the answer
      state of no other question. */
  lemma RespondChangesOnlyItsQuestion(ids: seq<Id>, edges: seq<Entry>, k: nat, answer: Answer)
    requires NoDup(ids) && k < |AllPairs(ids)|
    requires !Decided(edges, AllPairs(ids)[k])
    ensures var pairs := AllPairs(ids);
            var r := Respond(pairs, Session(edges, k), answer);
            forall m :: 0 <= m < |pairs| && m != k ==> (Decided(r.edges, pairs[m]) <==> Decided(edges, pairs[m]))
  {
    var pairs := AllPairs(ids);
    var r := Respond(pairs, Session(edges, k), answer);
    var (a, b) := pairs[k];
    AllPairsDistinct(ids);
    assert r.edges != edges;
    var x := r.edges[|edges|];
    assert r.edges == edges + [x];
    forall m | 0 <= m < |pairs| && m != k
      ensures Decided(r.edges, pairs[m]) <==> Decided(edges, pairs[m])
    {
      assert pairs[m] != (a, b) && pairs[m] != (b, a) by {
        if m < k {
          assert pairs[m] != pairs[k] && pairs[m] != (pairs[k].1, pairs[k].0);
        } else {
          assert pairs[k] != pairs[m] && pairs[k] != (pairs[m].1, pairs[m].0);
        }
      }
      AppendedDecidesOnlyItsPair(edges, x, a, b, pairs[m]);
    }
  }

  /** Answering the question on screen, when it is the first unanswered one and
      the ids are distinct, answers exactly one more question and moves the
      screen strictly forward. */
  lemma RespondAdvances(ids: seq<Id>, edges: seq<Entry>, answer: Answer)
    requires NoDup(ids)
    requires FindNextPairIndex(AllPairs(ids), edges) < |AllPairs(ids)|
    ensures var pairs := AllPairs(ids);
            var k := FindNextPairIndex(pairs, edges);
            var r := Respond(pairs, Session(edges, k), answer);
            && CountDecidedPairs(pairs, r.edges) == CountDecidedPairs(pairs, edges) + 1
            && r.pairIndex > k
  {
    var pairs := AllPairs(ids);
    var k := FindNextPairIndex(pairs, edges);
    var r := Respond(pairs, Session(edges, k), answer);
    RespondChangesOnlyItsQuestion(ids, edges, k, answer);
    CountOneMore(pairs, edges, r.edges, k);
    forall m | 0 <= m <= k ensures Decided(r.edges, pairs[m]) {
      if m < k {
        DecidedMono(edges, r.edges, pairs[m]);
      }
    }
  }

  /** Answers given through the question card only ever join two distinct
      item ids, which is what the schedulers and the detector assume. */
  lemma RespondKeepsWellFormed(ids: seq<Id>, s: Session, answer: Answer)
    requires NoDup(ids) && s.pairIndex < |AllPairs(ids)|
    requires EndpointsIn(s.edges, ids) && NoSelfDeps(s.edges)
    ensures var r := Respond(AllPairs(ids), s, answer);
            EndpointsIn(r.edges, ids) && NoSelfDeps(r.edges)
  {
    var pairs := AllPairs(ids);
    var (a, b) := pairs[s.pairIndex];
    AllPairsDistinct(ids);
    assert a in ids && b in ids by {
      var p := PairIndices(|ids|)[s.pairIndex];
      assert a == ids[p.0] && b == ids[p.1];
    }
    var r := Respond(pairs, s, answer);
    forall k | |s.edges| <= k < |r.edges| && r.edges[k].Dep?
      ensures r.edges[k].from in ids && r.edges[k].to in ids && r.edges[k].from != r.edges[k].to
    {
      assert r.edges[k] in r.edges;
    }
  }
}
