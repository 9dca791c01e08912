/**
 Small facts about sequences shared by the planning modules: duplicate-freedom,
 first-occurrence index and the pigeonhole bound.
 */
module Seqs {

  /** No element occurs twice. */
  predicate NoDup<T(==)>(s: seq<T>) {
    forall i, j :: 0 <= i < j < |s| ==> s[i] != s[j]
  }

  /** The set of the elements of a sequence. */
  function Elems<T>(s: seq<T>): set<T> {
    set x | x in s
  }

  /** Index of the first occurrence of `x`, or `|s|` when `x` does not occur. */
  function IndexOf<T(==)>(s: seq<T>, x: T): (k: nat)
    ensures k <= |s|
    ensures k < |s| ==> s[k] == x
    ensures k == |s| <==> x !in s
    ensures forall j :: 0 <= j < k ==> s[j] != x
  {
    if |s| == 0 then 0
    else if s[0] == x then 0
    else 1 + IndexOf(s[1..], x)
  }

  lemma IndexOfNoDup<T>(s: seq<T>, k: nat)
    requires NoDup(s) && k < |s|
    ensures IndexOf(s, s[k]) == k
  {
  }

  /** A duplicate-free sequence has as many distinct elements as it has entries. */
  lemma {:induction false} NoDupCard<T>(s: seq<T>)
    requires NoDup(s)
    ensures |Elems(s)| == |s|
  {
    if |s| > 0 {
      NoDupCard(s[1..]);
      assert Elems(s) == {s[0]} + Elems(s[1..]);
      assert forall j :: 0 <= j < |s| - 1 ==> s[1..][j] == s[j + 1];
      assert s[0] !in Elems(s[1..]);
    } else {
      assert Elems(s) == {};
    }
  }

  /** Pigeonhole: a duplicate-free sequence drawn from `S` is no longer than `S`. */
  lemma NoDupBound<T>(s: seq<T>, S: set<T>)
    requires NoDup(s)
    requires forall x :: x in s ==> x in S
    ensures |s| <= |S|
  {
    NoDupCard(s);
    SubsetCard(Elems(s), S);
  }

  lemma {:induction false} SubsetCard<T>(A: set<T>, B: set<T>)
    requires A <= B
    ensures |A| <= |B|
    ensures A < B ==> |A| < |B|
  {
    if A != {} {
      var x :| x in A;
      SubsetCard(A - {x}, B - {x});
    } else if A < B {
      var y :| y in B;
    }
  }

  /** Two duplicate-free sequences over the same finite set of equal size cover it. */
  lemma NoDupFull<T>(s: seq<T>, t: seq<T>)
    requires NoDup(s) && NoDup(t) && |s| == |t|
    requires forall x :: x in s ==> x in t
    ensures forall x :: x in t ==> x in s
  {
    NoDupCard(s);
    NoDupCard(t);
    SubsetCard(Elems(s), Elems(t));
    forall x | x in t ensures x in s {
      assert x in Elems(t);
    }
  }

  /** Keeps the elements satisfying `p`, in their original order. */
  function Filter<T(!new)>(s: seq<T>, p: T -> bool): (r: seq<T>)
    ensures |r| <= |s|
    ensures forall x :: x in r <==> x in s && p(x)
    ensures r == [] <==> forall x :: x in s ==> !p(x)
    ensures NoDup(s) ==> forall i, j :: 0 <= i < j < |r| ==> IndexOf(s, r[i]) < IndexOf(s, r[j])
  {
    if |s| == 0 then []
    else
      var rest := Filter(s[1..], p);
      var head := if p(s[0]) then [s[0]] else [];
      ConsInOrder(s, head, rest);
      head + rest
  }

  /** Putting the head of a duplicate-free `s`, or nothing, before elements of
      its tail listed in order of position keeps them in order of position. */
  lemma ConsInOrder<T>(s: seq<T>, head: seq<T>, rest: seq<T>)
    requires |s| > 0
    requires head == [] || head == [s[0]]
    requires forall x :: x in rest ==> x in s[1..]
    requires NoDup(s[1..]) ==> forall i, j :: 0 <= i < j < |rest| ==> IndexOf(s[1..], rest[i]) < IndexOf(s[1..], rest[j])
    ensures NoDup(s) ==> forall i, j :: 0 <= i < j < |head + rest| ==> IndexOf(s, (head + rest)[i]) < IndexOf(s, (head + rest)[j])
  {
    if NoDup(s) {
      assert NoDup(s[1..]);
      assert forall x :: x in rest ==> x != s[0] && IndexOf(s, x) == 1 + IndexOf(s[1..], x);
    }
  }

  /** A predicate that holds throughout keeps everything. */
  lemma {:induction false} FilterAll<T(!new)>(s: seq<T>, p: T -> bool)
    requires forall x :: x in s ==> p(x)
    ensures Filter(s, p) == s
  {
    if |s| > 0 {
      FilterAll(s[1..], p);
      assert s == [s[0]] + s[1..];
    }
  }

  lemma FilterNoDup<T(!new)>(s: seq<T>, p: T -> bool)
    requires NoDup(s)
    ensures NoDup(Filter(s, p))
  {
    if |s| > 0 {
      FilterNoDup(s[1..], p);
      assert s[0] !in s[1..];
    }
  }

  /** Concatenation of a sequence of sequences, in order. */
  function Flatten<T(!new)>(ss: seq<seq<T>>): (r: seq<T>)
    ensures forall x :: x in r <==> exists k :: 0 <= k < |ss| && x in ss[k]
  {
    if |ss| == 0 then []
    else
      var r := Flatten(ss[..|ss| - 1]) + ss[|ss| - 1];
      assert forall k :: 0 <= k < |ss| - 1 ==> ss[..|ss| - 1][k] == ss[k];
      r
  }

  lemma FlattenSnoc<T(!new)>(ss: seq<seq<T>>, s: seq<T>)
    ensures Flatten(ss + [s]) == Flatten(ss) + s
  {
    assert (ss + [s])[..|ss|] == ss;
  }

  /** Removing the element at `i` keeps the others, in order. */
  lemma RemoveAt<T>(s: seq<T>, i: nat)
    requires NoDup(s) && i < |s|
    ensures NoDup(s[..i] + s[i + 1..])
    ensures forall x :: x in s[..i] + s[i + 1..] <==> x in s && x != s[i]
  {
    var t := s[..i] + s[i + 1..];
    assert forall k :: 0 <= k < |t| ==> t[k] == (if k < i then s[k] else s[k + 1]);
    forall x | x in s && x != s[i] ensures x in t {
      var k :| 0 <= k < |s| && s[k] == x;
      if k < i { assert t[k] == x; } else { assert t[k - 1] == x; }
    }
  }

  /** In a duplicate-free sequence every element occurs exactly once. */
  lemma {:induction false} NoDupMultiset<T>(s: seq<T>, x: T)
    requires NoDup(s)
    ensures multiset(s)[x] == if x in s then 1 else 0
  {
    if |s| > 0 {
      assert s == [s[0]] + s[1..];
      assert multiset(s) == multiset{s[0]} + multiset(s[1..]);
      NoDupMultiset(s[1..], x);
      if x == s[0] {
        assert forall j :: 0 <= j < |s| - 1 ==> s[1..][j] == s[j + 1];
      }
    }
  }

  /** Two duplicate-free sequences with the same elements are permutations of each other. */
  lemma SameElemsMultiset<T>(s: seq<T>, t: seq<T>)
    requires NoDup(s) && NoDup(t)
    requires forall x :: x in s <==> x in t
    ensures multiset(s) == multiset(t)
  {
    forall x ensures multiset(s)[x] == multiset(t)[x] {
      NoDupMultiset(s, x);
      NoDupMultiset(t, x);
    }
  }

  /** An element at two positions occurs at least twice. */
  lemma TwiceCounted<T>(s: seq<T>, i: nat, j: nat)
    requires i < j < |s|
    ensures s[i] == s[j] ==> multiset(s)[s[i]] >= 2
  {
    assert s == s[..j] + s[j..];
    assert s[i] == s[..j][i] && s[j] == s[j..][0];
  }

  /** A permutation of a duplicate-free sequence is duplicate-free. */
  lemma PermutationNoDup<T>(s: seq<T>, t: seq<T>)
    requires NoDup(t) && multiset(s) == multiset(t)
    ensures NoDup(s)
  {
    forall i, j | 0 <= i < j < |s| ensures s[i] != s[j] {
      NoDupMultiset(t, s[i]);
      TwiceCounted(s, i, j);
    }
  }

  /** The elements in the opposite order. */
  function Reverse<T>(s: seq<T>): (r: seq<T>)
    ensures |r| == |s|
    ensures forall k :: 0 <= k < |s| ==> r[k] == s[|s| - 1 - k]
  {
    if |s| == 0 then [] else Reverse(s[1..]) + [s[0]]
  }

  /** Index of the last occurrence of `x`, or -1 when `x` does not occur. */
  function LastIndexOf<T(==)>(s: seq<T>, x: T): (k: int)
    ensures -1 <= k < |s|
    ensures k >= 0 ==> s[k] == x
    ensures k == -1 <==> x !in s
    ensures forall j :: k < j < |s| ==> s[j] != x
  {
    if |s| == 0 then -1
    else
      var k := LastIndexOf(s[1..], x);
      if k >= 0 then k + 1 else if s[0] == x then 0 else -1
  }

  lemma ConcatAssoc<T>(a: seq<T>, b: seq<T>, c: seq<T>)
    ensures a + b + c == a + (b + c)
  {
  }

  /** `a` is an initial segment of `b`. */
  predicate IsPrefix<T(==)>(a: seq<T>, b: seq<T>) {
    |a| <= |b| && b[..|a|] == a
  }

  lemma PrefixTrans<T>(a: seq<T>, b: seq<T>, c: seq<T>)
    requires IsPrefix(a, b) && IsPrefix(b, c)
    ensures IsPrefix(a, c)
  {
    assert c[..|b|][..|a|] == c[..|a|];
  }
}
