/**
 The question list and the directed-edge lookup of `src/app/pairs.js`.
 `AllPairs` enumerates every combination i < j of positions in the id list
 with two nested loops; the position pairs it visits are `PairIndices`.
 */
module Pairs {
  import opened Seqs
  import opened Graph

  /** Lexicographic order on position pairs: the order of the nested loops. */
  predicate LexLess(p: (nat, nat), q: (nat, nat)) {
    p.0 < q.0 || (p.0 == q.0 && p.1 < q.1)
  }

  /** 0 + 1 + ... + (m - 1), the number of pairs among m positions. */
  function Tri(m: nat): nat {
    if m == 0 then 0 else (m - 1) + Tri(m - 1)
  }

  lemma {:induction false} TriClosed(m: nat)
    ensures Tri(m) == m * (m - 1) / 2
  {
    if m > 0 {
      TriClosed(m - 1);
      assert m * (m - 1) == (m - 1) * (m - 2) + 2 * (m - 1);
    }
  }

  /** The inner loop for outer position `i`, from inner position `j` on. */
  function Row(n: nat, i: nat, j: nat): (r: seq<(nat, nat)>)
    requires j <= n
    ensures |r| == n - j
    ensures forall k :: 0 <= k < |r| ==> r[k] == (i, j + k)
    decreases n - j
  {
    if j == n then [] else [(i, j)] + Row(n, i, j + 1)
  }

  /** The outer loop from outer position `i` on. */
  function Rows(n: nat, i: nat): (r: seq<(nat, nat)>)
    requires i <= n
    ensures |r| == Tri(n - i)
    ensures forall k :: 0 <= k < |r| ==> i <= r[k].0 < r[k].1 < n
    ensures forall a, b :: i <= a < b < n ==> (a, b) in r
    ensures forall x, y :: 0 <= x < y < |r| ==> LexLess(r[x], r[y])
    decreases n - i
  {
    if i == n then []
    else
      var row := Row(n, i, i + 1);
      var rest := Rows(n, i + 1);
      assert forall a, b :: i <= a < b < n ==> (a, b) in row + rest by {
        forall a, b | i <= a < b < n ensures (a, b) in row + rest {
          if a == i {
            assert row[b - i - 1] == (a, b);
          } else {
            assert (a, b) in rest;
          }
        }
      }
      row + rest
  }

  /** The position pairs visited by the nested loops over `n` ids. */
  function PairIndices(n: nat): (r: seq<(nat, nat)>)
    ensures |r| == n * (n - 1) / 2
    ensures forall k :: 0 <= k < |r| ==> r[k].0 < r[k].1 < n
    ensures forall a, b :: 0 <= a < b < n ==> (a, b) in r
    ensures forall x, y :: 0 <= x < y < |r| ==> LexLess(r[x], r[y])
  {
    TriClosed(n);
    Rows(n, 0)
  }

  /** The questions: the pair of the ids at positions i and j for every i < j,
      in loop order. */
  function AllPairs(ids: seq<Id>): (ps: seq<(Id, Id)>)
    ensures |ps| == |ids| * (|ids| - 1) / 2
    ensures forall k :: 0 <= k < |ps| ==>
              var p := PairIndices(|ids|)[k]; ps[k] == (ids[p.0], ids[p.1])
  {
    var idx := PairIndices(|ids|);
    seq(|idx|, k requires 0 <= k < |idx| => (ids[idx[k].0], ids[idx[k].1]))
  }

  /** Every combination of two positions is asked about. */
  lemma AllPairsComplete(ids: seq<Id>, i: nat, j: nat)
    requires i < j < |ids|
    ensures (ids[i], ids[j]) in AllPairs(ids)
  {
    var idx := PairIndices(|ids|);
    assert (i, j) in idx;
    var k :| 0 <= k < |idx| && idx[k] == (i, j);
    assert AllPairs(ids)[k] == (ids[i], ids[j]);
  }

  /** With distinct ids no pair joins an id with itself and no unordered pair
      is asked twice, in either orientation. */
  lemma AllPairsDistinct(ids: seq<Id>)
    requires NoDup(ids)
    ensures forall k :: 0 <= k < |AllPairs(ids)| ==> AllPairs(ids)[k].0 != AllPairs(ids)[k].1
    ensures forall x, y :: 0 <= x < y < |AllPairs(ids)| ==>
              AllPairs(ids)[x] != AllPairs(ids)[y]
              && AllPairs(ids)[x] != (AllPairs(ids)[y].1, AllPairs(ids)[y].0)
  {
    var ps := AllPairs(ids);
    var idx := PairIndices(|ids|);
    forall x, y | 0 <= x < y < |ps|
      ensures ps[x] != ps[y] && ps[x] != (ps[y].1, ps[y].0)
    {
      assert LexLess(idx[x], idx[y]);
    }
  }

  /** Fewer than two ids yield no question. */
  lemma AllPairsSmall(ids: seq<Id>)
    requires |ids| < 2
    ensures AllPairs(ids) == []
  {
  }

  /** The edge lookup: some entry is the dependency from `from` to `to`. Markers have no
      endpoints and never match. */
  function EdgeExists(edges: seq<Entry>, from: Id, to: Id): (b: bool)
    ensures b <==> exists k :: 0 <= k < |edges| && edges[k].Dep? && edges[k].from == from && edges[k].to == to
  {
    if |edges| == 0 then false
    else (edges[0].Dep? && edges[0].from == from && edges[0].to == to) || EdgeExists(edges[1..], from, to)
  }

  lemma EdgeExistsIsMembership(edges: seq<Entry>, from: Id, to: Id)
    ensures EdgeExists(edges, from, to) <==> Dep(from, to) in edges
  {
  }

  /** The lookup is directional: recording `a -> b` makes that lookup true and
      leaves the reverse lookup `b -> a` as it was. */
  lemma EdgeExistsDirectional(edges: seq<Entry>, a: Id, b: Id)
    requires a != b
    ensures EdgeExists(edges + [Dep(a, b)], a, b)
    ensures EdgeExists(edges + [Dep(a, b)], b, a) == EdgeExists(edges, b, a)
  {
    EdgeExistsIsMembership(edges + [Dep(a, b)], a, b);
    EdgeExistsIsMembership(edges + [Dep(a, b)], b, a);
    EdgeExistsIsMembership(edges, b, a);
    assert forall e :: e in edges + [Dep(a, b)] <==> e in edges || e == Dep(a, b);
  }
}
