/** The ranking step of the recommender: NumPy's argsort over one row of
    similarity scores, followed by the slice that keeps the last k positions
    and the slice that reverses them (order[-k:][::-1]).

    argsort's default algorithm is not stable, so the model never fixes an
    order among equal scores: IsArgSort admits every permutation of the
    positions along which the scores ascend, and every property below is
    proved for all of them. */
module Ranking {

  /** The positions 0, 1, ..., n - 1 of a row of n scores. */
  function Range(n: nat): seq<nat>
  {
    if n == 0 then [] else Range(n - 1) + [n - 1]
  }

  lemma {:induction false} RangeAt(n: nat)
    ensures |Range(n)| == n
    ensures forall j :: 0 <= j < n ==> Range(n)[j] == j
  {
    if n > 0 {
      RangeAt(n - 1);
    }
  }

  /** Every position below n occurs in Range(n) exactly once, and nothing else occurs. */
  lemma {:induction false} RangeOnce(n: nat, v: nat)
    ensures multiset(Range(n))[v] == if v < n then 1 else 0
  {
    if n > 0 {
      RangeOnce(n - 1, v);
    }
  }

  /** Every entry of p is a position of a row of length n. */
  predicate InRange(p: seq<nat>, n: nat)
  {
    forall j :: 0 <= j < |p| ==> p[j] < n
  }

  /** p lists every position of a row of length n exactly once. */
  predicate IsPermutation(p: seq<nat>, n: nat)
  {
    multiset(p) == multiset(Range(n))
  }

  /** The scores read along p never decrease. */
  predicate Ascending(s: seq<real>, p: seq<nat>)
    requires InRange(p, |s|)
  {
    forall j, k :: 0 <= j < k < |p| ==> s[p[j]] <= s[p[k]]
  }

  /** What argsort promises about its result, and no more: a permutation of
      the positions of s along which the scores ascend. */
  predicate IsArgSort(s: seq<real>, p: seq<nat>)
  {
    InRange(p, |s|) && IsPermutation(p, |s|) && Ascending(s, p)
  }

  /** A value at positions j and k of p is counted twice by multiset(p). */
  lemma {:induction false} RepeatCounted(p: seq<nat>, j: nat, k: nat)
    requires j < k < |p|
    ensures multiset(p)[p[k]] >= if p[j] == p[k] then 2 else 1
  {
    var v := p[k];
    assert p == p[..k] + p[k..];
    assert p[k..][0] == v;
    assert multiset(p[k..])[v] >= 1;
    if p[j] == v {
      assert p[..k][j] == v;
      assert multiset(p[..k])[v] >= 1;
    }
  }

  /** A permutation of the positions of a length-n row has length n, holds
      every position and holds none twice. */
  lemma PermutationFacts(p: seq<nat>, n: nat)
    requires IsPermutation(p, n)
    ensures |p| == n
    ensures forall x :: 0 <= x < n ==> x in p
    ensures forall j, k :: 0 <= j < k < |p| ==> p[j] != p[k]
  {
    RangeAt(n);
    assert |p| == |multiset(p)| == |multiset(Range(n))| == n;
    forall x | 0 <= x < n
      ensures x in p
    {
      RangeOnce(n, x);
      assert x in multiset(p);
    }
    forall j, k | 0 <= j < k < |p|
      ensures p[j] != p[k]
    {
      RepeatCounted(p, j, k);
      RangeOnce(n, p[k]);
    }
  }

  /** Inserts position i into p, which ascends by score, just after every
      position whose score is not greater: one step of a stable insertion sort. */
  function Insert(s: seq<real>, p: seq<nat>, i: nat): (r: seq<nat>)
    requires i < |s| && InRange(p, |s|) && Ascending(s, p)
    ensures multiset(r) == multiset(p) + multiset{i}
    ensures InRange(r, |s|) && Ascending(s, r)
  {
    if p == [] || s[i] < s[p[0]] then
      PrependAscending(s, i, p);
      [i] + p
    else
      var q := Insert(s, p[1..], i);
      HeadBelowInserted(s, p, i, q);
      PrependAscending(s, p[0], q);
      assert p == [p[0]] + p[1..];
      [p[0]] + q
  }

  /** A position whose score is at most every score along an ascending q can go in front of q. */
  lemma PrependAscending(s: seq<real>, a: nat, q: seq<nat>)
    requires a < |s| && InRange(q, |s|) && Ascending(s, q)
    requires forall m :: 0 <= m < |q| ==> s[a] <= s[q[m]]
    ensures InRange([a] + q, |s|) && Ascending(s, [a] + q)
  {
  }

  /** The head of an ascending p scores no higher than anything in the rest of
      p with a higher-scoring i inserted. */
  lemma HeadBelowInserted(s: seq<real>, p: seq<nat>, i: nat, q: seq<nat>)
    requires i < |s| && p != [] && InRange(p, |s|) && Ascending(s, p) && s[p[0]] <= s[i]
    requires InRange(q, |s|) && multiset(q) == multiset(p[1..]) + multiset{i}
    ensures forall m :: 0 <= m < |q| ==> s[p[0]] <= s[q[m]]
  {
    forall m | 0 <= m < |q|
      ensures s[p[0]] <= s[q[m]]
    {
      assert q[m] in multiset(q);
      if q[m] != i {
        assert q[m] in multiset(p[1..]);
        var a :| 0 <= a < |p[1..]| && p[1..][a] == q[m];
        assert p[1 + a] == q[m];
      }
    }
  }

  /** Equal scores along p keep the order of their positions. */
  predicate Stable(s: seq<real>, p: seq<nat>)
    requires InRange(p, |s|)
  {
    forall j, k :: 0 <= j < k < |p| && s[p[j]] == s[p[k]] ==> p[j] < p[k]
  }

  /** Inserting a position above every position of a stable p keeps it stable. */
  lemma {:induction false} InsertStable(s: seq<real>, p: seq<nat>, i: nat)
    requires i < |s| && InRange(p, |s|) && Ascending(s, p) && Stable(s, p) && InRange(p, i)
    ensures Stable(s, Insert(s, p, i))
  {
    if p != [] && s[p[0]] <= s[i] {
      var q := Insert(s, p[1..], i);
      InsertStable(s, p[1..], i);
      HeadBeforeTies(s, p, i, q);
      assert Insert(s, p, i) == [p[0]] + q;
    }
  }

  /** The head of a stable p comes before every position of equal score in
      the rest of p with a larger i inserted. */
  lemma HeadBeforeTies(s: seq<real>, p: seq<nat>, i: nat, q: seq<nat>)
    requires i < |s| && p != [] && InRange(p, |s|) && Stable(s, p) && InRange(p, i)
    requires InRange(q, |s|) && multiset(q) == multiset(p[1..]) + multiset{i}
    ensures forall m :: 0 <= m < |q| && s[p[0]] == s[q[m]] ==> p[0] < q[m]
  {
    forall m | 0 <= m < |q| && s[p[0]] == s[q[m]]
      ensures p[0] < q[m]
    {
      assert q[m] in multiset(q);
      if q[m] != i {
        assert q[m] in multiset(p[1..]);
        var a :| 0 <= a < |p[1..]| && p[1..][a] == q[m];
        assert p[1 + a] == q[m];
      }
    }
  }

  /** Inserting i among positions below i gives positions up to i. */
  lemma InsertBounded(s: seq<real>, p: seq<nat>, i: nat)
    requires i < |s| && InRange(p, |s|) && Ascending(s, p) && InRange(p, i)
    ensures InRange(Insert(s, p, i), i + 1)
  {
    var r := Insert(s, p, i);
    forall m | 0 <= m < |r|
      ensures r[m] < i + 1
    {
      assert r[m] in multiset(r);
      if r[m] != i {
        assert r[m] in multiset(p);
      }
    }
  }

  /** Sorts the first n positions of s by score. */
  function SortPrefix(s: seq<real>, n: nat): (p: seq<nat>)
    requires n <= |s|
    ensures IsPermutation(p, n)
    ensures InRange(p, |s|) && Ascending(s, p)
  {
    if n == 0 then [] else Insert(s, SortPrefix(s, n - 1), n - 1)
  }

  /** The sort keeps equal scores in position order: it is stable. */
  lemma {:induction false} SortPrefixStable(s: seq<real>, n: nat)
    requires n <= |s|
    ensures InRange(SortPrefix(s, n), n) && Stable(s, SortPrefix(s, n))
  {
    if n > 0 {
      var front, i := SortPrefix(s, n - 1), n - 1;
      SortPrefixStable(s, i);
      InsertStable(s, front, i);
      InsertBounded(s, front, i);
      assert SortPrefix(s, i + 1) == Insert(s, front, i);
    }
  }

  /** One admissible result of argsort: a stable sort of the positions by score. */
  function ArgSort(s: seq<real>): (p: seq<nat>)
    ensures IsArgSort(s, p)
    ensures forall j, k :: 0 <= j < k < |p| && s[p[j]] == s[p[k]] ==> p[j] < p[k]
  {
    SortPrefixStable(s, |s|);
    SortPrefix(s, |s|)
  }

  function Min(a: nat, b: nat): nat
  {
    if a <= b then a else b
  }

  /** order[-k:][::-1] for a positive k: the last k entries of order (all of
      them when there are fewer), the last one first. */
  function TopK(order: seq<nat>, k: nat): (t: seq<nat>)
    requires 0 < k
    ensures |t| == Min(k, |order|)
    ensures forall j :: 0 <= j < |t| ==> t[j] == order[|order| - 1 - j]
  {
    var tail := if |order| <= k then order else order[|order| - k..];
    seq(|tail|, j requires 0 <= j < |tail| => tail[|tail| - 1 - j])
  }

  /** The selection holds min(k, n) positions of the row, none of them twice. */
  lemma TopKDistinct(s: seq<real>, order: seq<nat>, k: nat)
    requires IsArgSort(s, order) && 0 < k
    ensures |TopK(order, k)| == Min(k, |s|)
    ensures InRange(TopK(order, k), |s|)
    ensures forall j, m :: 0 <= j < m < |TopK(order, k)| ==> TopK(order, k)[j] != TopK(order, k)[m]
  {
    PermutationFacts(order, |s|);
  }

  /** The scores of the selected positions never increase along the selection. */
  lemma TopKDescending(s: seq<real>, order: seq<nat>, k: nat)
    requires IsArgSort(s, order) && 0 < k
    ensures InRange(TopK(order, k), |s|)
    ensures forall j, m :: 0 <= j < m < |TopK(order, k)| ==> s[TopK(order, k)[j]] >= s[TopK(order, k)[m]]
  {
  }

  /** No position left out of the selection scores higher than any selected one. */
  lemma TopKDominates(s: seq<real>, order: seq<nat>, k: nat)
    requires IsArgSort(s, order) && 0 < k
    ensures InRange(TopK(order, k), |s|)
    ensures forall x, j :: 0 <= x < |s| && x !in TopK(order, k) && 0 <= j < |TopK(order, k)| ==>
              s[x] <= s[TopK(order, k)[j]]
  {
    var t, n := TopK(order, k), |order|;
    PermutationFacts(order, |s|);
    forall x, j | 0 <= x < |s| && x !in t && 0 <= j < |t|
      ensures s[x] <= s[t[j]]
    {
      assert forall b :: n - |t| <= b < n ==> t[n - 1 - b] == order[b];
      assert x in order;
      var a :| 0 <= a < n && order[a] == x;
      assert t[j] == order[n - 1 - j];
    }
  }

  /** One instance of TopKDominates: position a, left out, against the j-th pick. */
  lemma PickDominates(s: seq<real>, order: seq<nat>, k: nat, a: nat, j: nat)
    requires IsArgSort(s, order) && 0 < k && a < |s| && a !in TopK(order, k) && j < |TopK(order, k)|
    ensures TopK(order, k)[j] < |s| && s[a] <= s[TopK(order, k)[j]]
  {
    TopKDominates(s, order, k);
  }

  /** The scores read along p. */
  function ScoresAlong(s: seq<real>, p: seq<nat>): seq<real>
    requires InRange(p, |s|)
  {
    seq(|p|, j requires 0 <= j < |p| => s[p[j]])
  }

  /** Taking out the entry at position k of p takes one copy of its score
      out of the scores read along p. */
  lemma ScoresAlongRemove(s: seq<real>, p: seq<nat>, k: nat)
    requires InRange(p, |s|) && k < |p|
    ensures InRange(p[..k] + p[k + 1..], |s|)
    ensures multiset(p[..k] + p[k + 1..]) == multiset(p) - multiset{p[k]}
    ensures multiset(ScoresAlong(s, p)) == multiset(ScoresAlong(s, p[..k] + p[k + 1..])) + multiset{s[p[k]]}
  {
    var front, back := p[..k], p[k + 1..];
    assert p == front + [p[k]] + back;
    assert ScoresAlong(s, p) == ScoresAlong(s, front) + [s[p[k]]] + ScoresAlong(s, back);
    assert ScoresAlong(s, front + back) == ScoresAlong(s, front) + ScoresAlong(s, back);
  }

  /** Two orderings of the same positions read the same scores, counted with multiplicity. */
  lemma {:induction false} SameMultisetSameScores(s: seq<real>, p1: seq<nat>, p2: seq<nat>)
    requires InRange(p1, |s|) && InRange(p2, |s|) && multiset(p1) == multiset(p2)
    ensures multiset(ScoresAlong(s, p1)) == multiset(ScoresAlong(s, p2))
    decreases |p1|
  {
    if p1 != [] {
      assert p1[0] in multiset(p2);
      var k :| 0 <= k < |p2| && p2[k] == p1[0];
      ScoresAlongRemove(s, p1, 0);
      ScoresAlongRemove(s, p2, k);
      SameMultisetSameScores(s, p1[..0] + p1[1..], p2[..k] + p2[k + 1..]);
    }
  }

  /** Two ascending sequences holding the same values are equal. */
  lemma {:induction false} SortedValuesUnique(a: seq<real>, b: seq<real>)
    requires multiset(a) == multiset(b)
    requires forall j, k :: 0 <= j < k < |a| ==> a[j] <= a[k]
    requires forall j, k :: 0 <= j < k < |b| ==> b[j] <= b[k]
    ensures a == b
  {
    assert |a| == |multiset(a)| == |multiset(b)| == |b|;
    if a != [] {
      assert b[0] in multiset(a);
      assert a[0] in multiset(b);
      assert a[0] == b[0];
      assert a == [a[0]] + a[1..];
      assert b == [b[0]] + b[1..];
      assert multiset(a[1..]) == multiset(a) - multiset{a[0]};
      assert multiset(b[1..]) == multiset(b) - multiset{b[0]};
      SortedValuesUnique(a[1..], b[1..]);
    }
  }

  /** The order argsort picks among equal scores changes which tied positions
      are selected, never the sequence of selected scores. */
  lemma TopKScoresIndependentOfTies(s: seq<real>, p1: seq<nat>, p2: seq<nat>, k: nat)
    requires IsArgSort(s, p1) && IsArgSort(s, p2) && 0 < k
    ensures |TopK(p1, k)| == |TopK(p2, k)|
    ensures InRange(TopK(p1, k), |s|) && InRange(TopK(p2, k), |s|)
    ensures forall j :: 0 <= j < |TopK(p1, k)| ==> s[TopK(p1, k)[j]] == s[TopK(p2, k)[j]]
  {
    PermutationFacts(p1, |s|);
    PermutationFacts(p2, |s|);
    SameMultisetSameScores(s, p1, p2);
    SortedValuesUnique(ScoresAlong(s, p1), ScoresAlong(s, p2));
    var n := |s|;
    forall j | 0 <= j < |TopK(p1, k)|
      ensures s[TopK(p1, k)[j]] == s[TopK(p2, k)[j]]
    {
      assert ScoresAlong(s, p1)[n - 1 - j] == ScoresAlong(s, p2)[n - 1 - j];
    }
  }
}
