/** `most_frequent` (src/matrix.rs:65-89): the majority vote over the
    candidate junction signatures of one row. */
module MajorityVote {
  import opened Text
  import opened Sorting

  function Identity(s: string): string { s }

  predicate Sorted(t: seq<string>) {
    SortedBy(t, Identity)
  }

  /** How many times `x` occurs in `s`. */
  function Count(s: seq<string>, x: string): nat {
    multiset(s)[x]
  }

  /** `r` occurs in `elems`, nothing occurs more often, and it is the least in
      byte order among the elements that occur as often. */
  predicate IsMostFrequent(elems: seq<string>, r: string) {
    r in elems
    && (forall i :: 0 <= i < |elems| ==> Count(elems, elems[i]) <= Count(elems, r))
    && (forall i :: 0 <= i < |elems| && Count(elems, elems[i]) == Count(elems, r) ==> LexLe(r, elems[i]))
  }

  /** The vote has one winner: the three conditions pin it down. */
  lemma MostFrequentUnique(elems: seq<string>, a: string, b: string)
    requires IsMostFrequent(elems, a) && IsMostFrequent(elems, b)
    ensures a == b
  {
    var i :| 0 <= i < |elems| && elems[i] == a;
    var j :| 0 <= j < |elems| && elems[j] == b;
    assert Count(elems, a) == Count(elems, b);
    LexLeAntisymmetric(a, b);
  }

  /** `a` wins the vote against `b`: it occurs more often, or as often and
      it is not above `b` in byte order. */
  predicate Beats(elems: seq<string>, a: string, b: string) {
    Count(elems, a) > Count(elems, b) || (Count(elems, a) == Count(elems, b) && LexLe(a, b))
  }

  lemma BeatsTransitive(elems: seq<string>, a: string, b: string, c: string)
    requires Beats(elems, a, b) && Beats(elems, b, c)
    ensures Beats(elems, a, c)
  {
    if Count(elems, a) == Count(elems, b) == Count(elems, c) {
      LexLeTransitive(a, b, c);
    }
  }

  /** The candidate among `cands` that beats all the others. */
  function Best(elems: seq<string>, cands: seq<string>): (r: string)
    requires |cands| > 0
    ensures r in cands
    ensures forall i :: 0 <= i < |cands| ==> Beats(elems, r, cands[i])
  {
    if |cands| == 1 then
      LexLeReflexive(cands[0]);
      cands[0]
    else
      var b := Best(elems, cands[1..]);
      if Beats(elems, cands[0], b) then
        forall i | 1 <= i < |cands|
          ensures Beats(elems, cands[0], cands[i])
        {
          assert cands[i] == cands[1..][i - 1];
          BeatsTransitive(elems, cands[0], b, cands[i]);
        }
        LexLeReflexive(cands[0]);
        cands[0]
      else
        LexLeTotal(cands[0], b);
        assert cands[1..][0] == cands[1];
        assert forall i :: 1 <= i < |cands| ==> cands[i] == cands[1..][i - 1];
        b
  }

  /** The majority vote as a plain definition: the element that beats every
      element of the list. */
  function Consensus(elems: seq<string>): (r: string)
    requires |elems| > 0
    ensures IsMostFrequent(elems, r)
  {
    Best(elems, elems)
  }

  lemma SortedLe(t: seq<string>, i: nat, j: nat)
    requires Sorted(t) && i <= j < |t|
    ensures LexLe(t[i], t[j])
  {
    if i == j {
      LexLeReflexive(t[i]);
    } else {
      assert LexLe(Identity(t[i]), Identity(t[j]));
    }
  }

  lemma {:induction false} ConstantCount(s: seq<string>, x: string)
    requires forall j :: 0 <= j < |s| ==> s[j] == x
    ensures Count(s, x) == |s|
    decreases |s|
  {
    if s != [] {
      assert s == [x] + s[1..];
      ConstantCount(s[1..], x);
    }
  }

  /** In a sorted sequence, a string that differs from its left neighbour
      does not occur before it. */
  lemma AbsentBefore(t: seq<string>, a: nat)
    requires Sorted(t) && 0 < a < |t| && t[a - 1] != t[a]
    ensures t[a] !in t[..a]
  {
    if t[a] in t[..a] {
      var i :| 0 <= i < a && t[i] == t[a];
      SortedLe(t, i, a - 1);
      SortedLe(t, a - 1, a);
      LexLeAntisymmetric(t[a - 1], t[a]);
    }
  }

  /** In a sorted sequence, a string that differs from the one at `b` does
      not occur from `b` on if it occurs before `b`. */
  lemma AbsentAfter(t: seq<string>, a: nat, b: nat)
    requires Sorted(t) && a < b < |t| && t[b] != t[a]
    ensures t[a] !in t[b..]
  {
    if t[a] in t[b..] {
      var i :| b <= i < |t| && t[i] == t[a];
      SortedLe(t, a, b);
      SortedLe(t, b, i);
      LexLeAntisymmetric(t[b], t[a]);
    }
  }

  /** In a sorted sequence, a maximal run of equal strings holds every
      occurrence of its string. */
  lemma RunCount(t: seq<string>, a: nat, b: nat)
    requires Sorted(t) && a < b <= |t|
    requires forall j :: a <= j < b ==> t[j] == t[a]
    requires a > 0 ==> t[a - 1] != t[a]
    requires b < |t| ==> t[b] != t[a]
    ensures Count(t, t[a]) == b - a
  {
    var x := t[a];
    ConstantCount(t[a..b], x);
    if a > 0 {
      AbsentBefore(t, a);
    }
    if b < |t| {
      AbsentAfter(t, a, b);
    }
    CountSplit(t, a, b, x);
  }

  lemma CountSplit(t: seq<string>, a: nat, b: nat, x: string)
    requires a <= b <= |t|
    ensures Count(t, x) == Count(t[..a], x) + Count(t[a..b], x) + Count(t[b..], x)
  {
    assert t == t[..a] + t[a..b] + t[b..];
  }

  /** The vote depends only on how often each string occurs. */
  lemma MostFrequentPermutation(a: seq<string>, b: seq<string>, r: string)
    requires multiset(a) == multiset(b) && IsMostFrequent(a, r)
    ensures IsMostFrequent(b, r)
  {
    forall i | 0 <= i < |b|
      ensures Count(b, b[i]) <= Count(b, r)
      ensures Count(b, b[i]) == Count(b, r) ==> LexLe(r, b[i])
    {
      assert b[i] in multiset(a);
      var j :| 0 <= j < |a| && a[j] == b[i];
    }
    assert r in multiset(b);
  }

  /** What the scan of src/matrix.rs:70-83 knows before index `k`: the
      current run `curr` long ends at `k - 1`; every run before it is
      complete, and `best` is the first of the longest of them, with length
      `bestCount` (before any run completes: index 0 and count 1). */
  ghost predicate ScanInv(t: seq<string>, k: nat, curr: nat, best: nat, bestCount: nat) {
    var m := k - curr;
    1 <= curr <= k <= |t|
    && (forall j :: m <= j < k ==> t[j] == t[k - 1])
    && (m > 0 ==> t[m - 1] != t[m])
    && best < |t| && bestCount >= 1
    && (m == 0 ==> best == 0 && bestCount == 1)
    && (m > 0 ==> best < m && Count(t, t[best]) == bestCount)
    && (forall j :: 0 <= j < m ==> Count(t, t[j]) <= bestCount)
    && (forall j :: 0 <= j < m && Count(t, t[j]) == bestCount ==> LexLe(t[best], t[j]))
  }

  /** The run ending at `k - 1` is complete: it becomes the best when it is
      strictly longer, as in src/matrix.rs:77-80 and 84-87. */
  lemma ScanCloseRun(t: seq<string>, k: nat, curr: nat, best: nat, bestCount: nat)
    requires Sorted(t) && ScanInv(t, k, curr, best, bestCount)
    requires k < |t| ==> t[k] != t[k - 1]
    ensures var (b, c) := if curr > bestCount then (k - 1, curr) else (best, bestCount);
            b < k && Count(t, t[b]) == c
            && (forall j :: 0 <= j < k ==> Count(t, t[j]) <= c)
            && (forall j :: 0 <= j < k && Count(t, t[j]) == c ==> LexLe(t[b], t[j]))
  {
    RunCount(t, k - curr, k);
    if curr <= bestCount {
      forall j | k - curr <= j < k
        ensures LexLe(t[best], t[j])
      {
        SortedLe(t, best, j);
      }
    } else {
      LexLeReflexive(t[k - 1]);
    }
  }

  /** One step of the loop at index `k` keeps the scan's invariant. */
  lemma ScanStep(t: seq<string>, k: nat, curr: nat, best: nat, bestCount: nat)
    requires Sorted(t) && ScanInv(t, k, curr, best, bestCount) && k < |t|
    ensures t[k] == t[k - 1] ==> ScanInv(t, k + 1, curr + 1, best, bestCount)
    ensures t[k] != t[k - 1] && curr > bestCount ==> ScanInv(t, k + 1, 1, k - 1, curr)
    ensures t[k] != t[k - 1] && curr <= bestCount ==> ScanInv(t, k + 1, 1, best, bestCount)
  {
    if t[k] != t[k - 1] {
      ScanCloseRun(t, k, curr, best, bestCount);
    }
  }

  lemma ScanStart(t: seq<string>)
    requires |t| > 0
    ensures ScanInv(t, 1, 1, 0, 1)
  {
  }

  /** After the last index, closing the final run leaves the answer. */
  lemma ScanFinish(t: seq<string>, curr: nat, best: nat, bestCount: nat)
    requires Sorted(t) && ScanInv(t, |t|, curr, best, bestCount)
    ensures IsMostFrequent(t, t[if curr > bestCount then |t| - 1 else best])
  {
    ScanCloseRun(t, |t|, curr, best, bestCount);
  }

  /** `sort_unstable` on a copy of the candidates: equal strings are
      indistinguishable, so the result is the one sorted permutation. */
  method SortStrings(elems: seq<string>) returns (sorted: seq<string>)
    ensures Sorted(sorted) && multiset(sorted) == multiset(elems)
  {
    sorted := SortBy(elems, Identity);
  }

  /** `most_frequent`: sort a copy, then scan it for the first longest run.
      The source indexes `sorted[most_frequent]` and so panics on an empty
      list; the caller handles that case. */
  method MostFrequent(elems: seq<string>) returns (r: string)
    requires |elems| > 0
    ensures IsMostFrequent(elems, r)
    ensures r == Consensus(elems)
  {
    var sorted := SortStrings(elems);
    var n := |sorted|;
    var best, bestCount, curr := 0, 1, 1;
    ScanStart(sorted);
    for k := 1 to n
      invariant ScanInv(sorted, k, curr, best, bestCount)
    {
      ScanStep(sorted, k, curr, best, bestCount);
      if sorted[k] == sorted[k - 1] {
        curr := curr + 1;
      } else {
        if curr > bestCount {
          best, bestCount := k - 1, curr;
        }
        curr := 1;
      }
    }
    ScanFinish(sorted, curr, best, bestCount);
    if curr > bestCount {
      best, bestCount := n - 1, curr;
    }
    r := sorted[best];
    MostFrequentPermutation(sorted, elems, r);
    MostFrequentUnique(elems, r, Consensus(elems));
  }

  lemma MostFrequentExampleMajority()
    ensures IsMostFrequent(["AAA", "BBB", "AAA"], "AAA")
  {
    var e := ["AAA", "BBB", "AAA"];
    assert multiset(e) == multiset{"AAA", "AAA", "BBB"};
    assert Count(e, "AAA") == 2 && Count(e, "BBB") == 1;
    assert forall i :: 0 <= i < |e| ==> e[i] == "AAA" || e[i] == "BBB";
    LexLeReflexive("AAA");
  }

  lemma MostFrequentExampleTie()
    ensures IsMostFrequent(["A", "B"], "A")
  {
    var f := ["A", "B"];
    assert multiset(f) == multiset{"A", "B"};
    assert LexLe("A", "B");
    LexLeReflexive("A");
  }
}
