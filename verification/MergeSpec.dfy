/**
 Bottom-up merge sort as a function on sequences: the specification that the
 in-place sorts of utlist.h and uthash.h are proved to compute, and what it
 promises (order, stability, permutation, cost).
 */
module MergeSpec {
  import opened Arith

  /** cmp(a, b) <= 0 reads "a may stand before b", as in the C macros. */
  type Cmp<!T> = (T, T) -> int

  ghost predicate TotalPreorder<T>(cmp: Cmp<T>, dom: set<T>) {
    && (forall a, b | a in dom && b in dom :: cmp(a, b) <= 0 || cmp(b, a) <= 0)
    && (forall a, b, c | a in dom && b in dom && c in dom :: cmp(a, b) <= 0 && cmp(b, c) <= 0 ==> cmp(a, c) <= 0)
  }

  ghost function Elements<T>(s: seq<T>): set<T> {
    set x | x in s
  }

  ghost predicate Sorted<T>(cmp: Cmp<T>, s: seq<T>) {
    forall i, j | 0 <= i < j < |s| :: cmp(s[i], s[j]) <= 0
  }

  /** The elements of s that tie with x, in order. */
  ghost function Ties<T>(cmp: Cmp<T>, x: T, s: seq<T>): seq<T> {
    if s == [] then []
    else (if cmp(x, s[0]) <= 0 && cmp(s[0], x) <= 0 then [s[0]] else []) + Ties(cmp, x, s[1..])
  }

  /** t is s reordered so that elements that tie keep their order. */
  ghost predicate Stable<T>(cmp: Cmp<T>, s: seq<T>, t: seq<T>) {
    forall x | x in s :: Ties(cmp, x, t) == Ties(cmp, x, s)
  }

  // ---------------------------------------------------------------- the algorithm

  ghost function Merge<T>(cmp: Cmp<T>, p: seq<T>, q: seq<T>): seq<T>
    decreases |p| + |q|
  {
    if p == [] then q
    else if q == [] then p
    else if cmp(p[0], q[0]) <= 0 then [p[0]] + Merge(cmp, p[1..], q)
    else [q[0]] + Merge(cmp, p, q[1..])
  }

  /** One sweep: merge each pair of neighbouring runs of k elements. */
  ghost function Pass<T>(cmp: Cmp<T>, s: seq<T>, k: nat): seq<T>
    requires k > 0
  {
    if s == [] then []
    else
      var (p, q, rest) := Split(s, k);
      Merge(cmp, p, q) + Pass(cmp, rest, k)
  }

  ghost function Split<T>(s: seq<T>, k: nat): (r: (seq<T>, seq<T>, seq<T>))
    requires k > 0
    ensures r.0 + r.1 + r.2 == s
    ensures |r.0| == Min(k, |s|) && |r.1| == Min(k, |s| - |r.0|)
    ensures s != [] ==> |r.2| < |s|
  {
    (s[..Min(k, |s|)], s[Min(k, |s|)..Min(2 * k, |s|)], s[Min(2 * k, |s|)..])
  }

  /** Sweeps with run length k, 2k, 4k, ... until a sweep does a single merge. */
  ghost function SortFrom<T>(cmp: Cmp<T>, s: seq<T>, k: nat): seq<T>
    requires k > 0
    decreases |s| - k
  {
    if |s| <= 2 * k then Pass(cmp, s, k)
    else PassLength(cmp, s, k); SortFrom(cmp, Pass(cmp, s, k), 2 * k)
  }

  ghost function Sort<T>(cmp: Cmp<T>, s: seq<T>): seq<T> {
    if s == [] then [] else SortFrom(cmp, s, 1)
  }

  // ---------------------------------------------------------------- cost

  ghost function MergeCalls<T>(cmp: Cmp<T>, p: seq<T>, q: seq<T>): nat
    decreases |p| + |q|
  {
    if p == [] || q == [] then 0
    else if cmp(p[0], q[0]) <= 0 then 1 + MergeCalls(cmp, p[1..], q)
    else 1 + MergeCalls(cmp, p, q[1..])
  }

  ghost function PassCalls<T>(cmp: Cmp<T>, s: seq<T>, k: nat): nat
    requires k > 0
  {
    if s == [] then 0
    else
      var (p, q, rest) := Split(s, k);
      MergeCalls(cmp, p, q) + PassCalls(cmp, rest, k)
  }

  ghost function SortCalls<T>(cmp: Cmp<T>, s: seq<T>, k: nat): nat
    requires k > 0
    decreases |s| - k
  {
    if |s| <= 2 * k then PassCalls(cmp, s, k)
    else PassLength(cmp, s, k); PassCalls(cmp, s, k) + SortCalls(cmp, Pass(cmp, s, k), 2 * k)
  }

  ghost function Sweeps(n: nat, k: nat): nat
    requires k > 0
    decreases n - k
  {
    if n <= 2 * k then 1 else 1 + Sweeps(n, 2 * k)
  }

  // ---------------------------------------------------------------- lengths and permutation

  lemma {:induction false} MergePermutes<T>(cmp: Cmp<T>, p: seq<T>, q: seq<T>)
    ensures multiset(Merge(cmp, p, q)) == multiset(p) + multiset(q)
    ensures |Merge(cmp, p, q)| == |p| + |q|
    decreases |p| + |q|
  {
    if p != [] && q != [] {
      if cmp(p[0], q[0]) <= 0 {
        var x, rest := p[0], p[1..];
        MergePermutes(cmp, rest, q);
        HeadAndRest(p);
        Counted(x, Merge(cmp, rest, q));
        assert Merge(cmp, p, q) == [x] + Merge(cmp, rest, q);
      } else {
        var x, rest := q[0], q[1..];
        MergePermutes(cmp, p, rest);
        HeadAndRest(q);
        Counted(x, Merge(cmp, p, rest));
        assert Merge(cmp, p, q) == [x] + Merge(cmp, p, rest);
      }
    }
  }

  lemma Counted<T>(x: T, s: seq<T>)
    ensures multiset([x] + s) == multiset{x} + multiset(s)
  {
  }

  lemma HeadAndRest<T>(s: seq<T>)
    requires s != []
    ensures multiset(s) == multiset{s[0]} + multiset(s[1..])
  {
    assert s == [s[0]] + s[1..];
  }

  lemma {:induction false} PassPermutes<T>(cmp: Cmp<T>, s: seq<T>, k: nat)
    requires k > 0
    ensures multiset(Pass(cmp, s, k)) == multiset(s)
    ensures |Pass(cmp, s, k)| == |s|
  {
    if s != [] {
      var (p, q, rest) := Split(s, k);
      MergePermutes(cmp, p, q);
      PassPermutes(cmp, rest, k);
      assert s == p + q + rest;
    }
  }

  lemma PassLength<T>(cmp: Cmp<T>, s: seq<T>, k: nat)
    requires k > 0
    ensures |Pass(cmp, s, k)| == |s|
  {
    PassPermutes(cmp, s, k);
  }

  lemma SameElements<T>(s: seq<T>, t: seq<T>)
    requires multiset(s) == multiset(t)
    ensures |s| == |t|
    ensures forall x | x in s :: x in t
    ensures forall x | x in t :: x in s
  {
    assert |multiset(s)| == |s| && |multiset(t)| == |t|;
    forall x | x in s ensures x in t { assert x in multiset(s); }
    forall x | x in t ensures x in s { assert x in multiset(t); }
  }

  // ---------------------------------------------------------------- order

  /** Every run of k elements, counted from the front, is in order. */
  ghost predicate SortedRuns<T>(cmp: Cmp<T>, s: seq<T>, k: nat)
    requires k > 0
  {
    s != [] ==>
      && Sorted(cmp, s[..Min(k, |s|)])
      && SortedRuns(cmp, s[Min(k, |s|)..], k)
  }

  /** Merge(p, q) starts with a least element of p and q, and goes on with the rest. */
  lemma MergeHead<T>(cmp: Cmp<T>, dom: set<T>, p: seq<T>, q: seq<T>)
    requires Sorted(cmp, p) && Sorted(cmp, q) && p != [] && q != []
    requires TotalPreorder(cmp, dom) && Elements(p) <= dom && Elements(q) <= dom
    ensures var x := Merge(cmp, p, q)[0];
            (forall y | y in p :: cmp(x, y) <= 0) && (forall y | y in q :: cmp(x, y) <= 0)
  {
    assert p[0] in Elements(p) && q[0] in Elements(q);
    forall y | y in p ensures cmp(p[0], y) <= 0 && y in dom { assert y in Elements(p); }
    forall y | y in q ensures cmp(q[0], y) <= 0 && y in dom { assert y in Elements(q); }
  }

  lemma TailElements<T>(s: seq<T>)
    requires s != []
    ensures Elements(s[1..]) <= Elements(s)
  {
  }

  lemma SortedTail<T>(cmp: Cmp<T>, s: seq<T>)
    requires s != [] && Sorted(cmp, s)
    ensures Sorted(cmp, s[1..])
  {
  }

  lemma {:induction false} MergeSorted<T>(cmp: Cmp<T>, dom: set<T>, p: seq<T>, q: seq<T>)
    requires Sorted(cmp, p) && Sorted(cmp, q)
    requires TotalPreorder(cmp, dom) && Elements(p) <= dom && Elements(q) <= dom
    ensures Sorted(cmp, Merge(cmp, p, q))
    decreases |p| + |q|
  {
    if p != [] && q != [] {
      MergeHead(cmp, dom, p, q);
      if cmp(p[0], q[0]) <= 0 {
        TailElements(p);
        SortedTail(cmp, p);
        MergeSorted(cmp, dom, p[1..], q);
        MergeMembers(cmp, p[1..], q);
        SortedCons(cmp, p[0], Merge(cmp, p[1..], q));
      } else {
        TailElements(q);
        SortedTail(cmp, q);
        MergeSorted(cmp, dom, p, q[1..]);
        MergeMembers(cmp, p, q[1..]);
        SortedCons(cmp, q[0], Merge(cmp, p, q[1..]));
      }
    }
  }

  lemma MergeMembers<T>(cmp: Cmp<T>, p: seq<T>, q: seq<T>)
    ensures forall y | y in Merge(cmp, p, q) :: y in p || y in q
  {
    MergePermutes(cmp, p, q);
    forall y | y in Merge(cmp, p, q) ensures y in p || y in q {
      assert y in multiset(Merge(cmp, p, q));
    }
  }

  lemma SortedCons<T>(cmp: Cmp<T>, x: T, s: seq<T>)
    requires Sorted(cmp, s) && forall y | y in s :: cmp(x, y) <= 0
    ensures Sorted(cmp, [x] + s)
  {
  }

  lemma SplitRuns<T>(cmp: Cmp<T>, s: seq<T>, k: nat)
    requires k > 0 && s != [] && SortedRuns(cmp, s, k)
    ensures var (p, q, rest) := Split(s, k);
            Sorted(cmp, p) && Sorted(cmp, q) && SortedRuns(cmp, rest, k)
    ensures var (p, q, rest) := Split(s, k);
            Elements(p) <= Elements(s) && Elements(q) <= Elements(s) && Elements(rest) <= Elements(s)
  {
    var (p, q, rest) := Split(s, k);
    var tail := s[Min(k, |s|)..];
    if tail != [] {
      assert q == tail[..Min(k, |tail|)] && rest == tail[Min(k, |tail|)..];
    }
  }

  lemma {:induction false} PassSortsRuns<T>(cmp: Cmp<T>, dom: set<T>, s: seq<T>, k: nat)
    requires k > 0 && SortedRuns(cmp, s, k)
    requires TotalPreorder(cmp, dom) && Elements(s) <= dom
    ensures SortedRuns(cmp, Pass(cmp, s, k), 2 * k)
  {
    if s != [] {
      var (p, q, rest) := Split(s, k);
      SplitRuns(cmp, s, k);
      PassSortsRuns(cmp, dom, rest, k);
      MergeSorted(cmp, dom, p, q);
      MergePermutes(cmp, p, q);
      PassLength(cmp, rest, k);
      var t, n := Pass(cmp, s, k), Min(2 * k, |s|);
      PassLength(cmp, s, k);
      assert t[..n] == Merge(cmp, p, q) && t[n..] == Pass(cmp, rest, k);
    }
  }

  // ---------------------------------------------------------------- stability

  lemma {:induction false} TiesConcat<T>(cmp: Cmp<T>, x: T, s: seq<T>, t: seq<T>)
    ensures Ties(cmp, x, s + t) == Ties(cmp, x, s) + Ties(cmp, x, t)
  {
    if s == [] {
      assert s + t == t;
    } else {
      var first := if cmp(x, s[0]) <= 0 && cmp(s[0], x) <= 0 then [s[0]] else [];
      assert Ties(cmp, x, s + t) == first + (Ties(cmp, x, s[1..]) + Ties(cmp, x, t)) by {
        assert (s + t)[1..] == s[1..] + t;
        TiesConcat(cmp, x, s[1..], t);
      }
    }
  }

  lemma {:induction false} NoTies<T>(cmp: Cmp<T>, x: T, s: seq<T>)
    requires forall y | y in s :: !(cmp(x, y) <= 0 && cmp(y, x) <= 0)
    ensures Ties(cmp, x, s) == []
  {
    if s != [] { NoTies(cmp, x, s[1..]); }
  }

  /** When the merge takes q's head, nothing in p ties with it. */
  lemma NoTiesInLeft<T>(cmp: Cmp<T>, dom: set<T>, x: T, p: seq<T>, q: seq<T>)
    requires p != [] && q != [] && cmp(p[0], q[0]) > 0
    requires cmp(x, q[0]) <= 0 && cmp(q[0], x) <= 0
    requires Sorted(cmp, p) && TotalPreorder(cmp, dom) && x in dom && Elements(p) <= dom && Elements(q) <= dom
    ensures Ties(cmp, x, p) == []
  {
    assert p[0] in Elements(p) && q[0] in Elements(q);
    forall y | y in p ensures !(cmp(x, y) <= 0 && cmp(y, x) <= 0) {
      assert y in Elements(p);
      assert y == p[0] || cmp(p[0], y) <= 0;
    }
    NoTies(cmp, x, p);
  }

  lemma {:induction false} MergeStable<T>(cmp: Cmp<T>, dom: set<T>, x: T, p: seq<T>, q: seq<T>)
    requires Sorted(cmp, p) && TotalPreorder(cmp, dom) && x in dom && Elements(p) <= dom && Elements(q) <= dom
    ensures Ties(cmp, x, Merge(cmp, p, q)) == Ties(cmp, x, p) + Ties(cmp, x, q)
    decreases |p| + |q|
  {
    if p != [] && q != [] {
      if cmp(p[0], q[0]) <= 0 {
        TailElements(p);
        SortedTail(cmp, p);
        MergeStable(cmp, dom, x, p[1..], q);
        TiesConcat(cmp, x, [p[0]], Merge(cmp, p[1..], q));
      } else {
        TailElements(q);
        MergeStable(cmp, dom, x, p, q[1..]);
        TiesConcat(cmp, x, [q[0]], Merge(cmp, p, q[1..]));
        if cmp(x, q[0]) <= 0 && cmp(q[0], x) <= 0 {
          NoTiesInLeft(cmp, dom, x, p, q);
        }
      }
    }
  }

  lemma {:induction false} PassStable<T>(cmp: Cmp<T>, dom: set<T>, x: T, s: seq<T>, k: nat)
    requires k > 0 && SortedRuns(cmp, s, k)
    requires TotalPreorder(cmp, dom) && x in dom && Elements(s) <= dom
    ensures Ties(cmp, x, Pass(cmp, s, k)) == Ties(cmp, x, s)
  {
    if s != [] {
      var (p, q, rest) := Split(s, k);
      SplitRuns(cmp, s, k);
      MergeStable(cmp, dom, x, p, q);
      PassStable(cmp, dom, x, rest, k);
      TiesConcat(cmp, x, Merge(cmp, p, q), Pass(cmp, rest, k));
      TiesConcat(cmp, x, p + q, rest);
      TiesConcat(cmp, x, p, q);
    }
  }

  // ---------------------------------------------------------------- the main results

  lemma PassKeepsElements<T>(cmp: Cmp<T>, s: seq<T>, k: nat)
    requires k > 0
    ensures Elements(Pass(cmp, s, k)) == Elements(s)
  {
    PassPermutes(cmp, s, k);
    var t := Pass(cmp, s, k);
    SameElements(s, t);
    assert Elements(t) == Elements(s);
  }

  lemma WholeRun<T>(cmp: Cmp<T>, s: seq<T>, k: nat)
    requires k > 0 && SortedRuns(cmp, s, k) && |s| <= k
    ensures Sorted(cmp, s)
  {
    if s != [] { assert s[..Min(k, |s|)] == s; }
  }

  lemma {:induction false} SortFromSorts<T>(cmp: Cmp<T>, dom: set<T>, s: seq<T>, k: nat)
    requires k > 0 && SortedRuns(cmp, s, k)
    requires TotalPreorder(cmp, dom) && Elements(s) <= dom
    ensures Sorted(cmp, SortFrom(cmp, s, k))
    decreases |s| - k
  {
    var t := Pass(cmp, s, k);
    PassLength(cmp, s, k);
    PassSortsRuns(cmp, dom, s, k);
    if |s| <= 2 * k {
      WholeRun(cmp, t, 2 * k);
    } else {
      PassKeepsElements(cmp, s, k);
      SortFromSorts(cmp, dom, t, 2 * k);
    }
  }

  lemma {:induction false} SortFromStable<T>(cmp: Cmp<T>, dom: set<T>, x: T, s: seq<T>, k: nat)
    requires k > 0 && SortedRuns(cmp, s, k)
    requires TotalPreorder(cmp, dom) && x in dom && Elements(s) <= dom
    ensures Ties(cmp, x, SortFrom(cmp, s, k)) == Ties(cmp, x, s)
    decreases |s| - k
  {
    PassStable(cmp, dom, x, s, k);
    if |s| > 2 * k {
      PassLength(cmp, s, k);
      PassSortsRuns(cmp, dom, s, k);
      PassKeepsElements(cmp, s, k);
      SortFromStable(cmp, dom, x, Pass(cmp, s, k), 2 * k);
    }
  }

  lemma {:induction false} SortFromPermutes<T>(cmp: Cmp<T>, s: seq<T>, k: nat)
    requires k > 0
    ensures multiset(SortFrom(cmp, s, k)) == multiset(s)
    decreases |s| - k
  {
    PassPermutes(cmp, s, k);
    if |s| > 2 * k { SortFromPermutes(cmp, Pass(cmp, s, k), 2 * k); }
  }

  lemma {:induction false} SingletonRuns<T>(cmp: Cmp<T>, s: seq<T>)
    ensures SortedRuns(cmp, s, 1)
  {
    if s != [] { SingletonRuns(cmp, s[1..]); }
  }

  /** Whatever cmp answers, the sort only reorders. */
  lemma SortPermutes<T>(cmp: Cmp<T>, s: seq<T>)
    ensures multiset(Sort(cmp, s)) == multiset(s)
    ensures |Sort(cmp, s)| == |s|
  {
    if s != [] { SortFromPermutes(cmp, s, 1); }
    SameElements(Sort(cmp, s), s);
  }

  /** On a total preorder the result is in order and ties keep their order. */
  lemma SortCorrect<T>(cmp: Cmp<T>, s: seq<T>)
    requires TotalPreorder(cmp, Elements(s))
    ensures Sorted(cmp, Sort(cmp, s))
    ensures Stable(cmp, s, Sort(cmp, s))
  {
    if s != [] {
      SingletonRuns(cmp, s);
      SortFromSorts(cmp, Elements(s), s, 1);
      forall x | x in s ensures Ties(cmp, x, Sort(cmp, s)) == Ties(cmp, x, s) {
        SortFromStable(cmp, Elements(s), x, s, 1);
      }
    }
  }

  // ---------------------------------------------------------------- cost

  lemma {:induction false} MergeCost<T>(cmp: Cmp<T>, p: seq<T>, q: seq<T>)
    ensures p != [] ==> MergeCalls(cmp, p, q) <= |p| + |q| - 1
    decreases |p| + |q|
  {
    if p != [] && q != [] {
      if cmp(p[0], q[0]) <= 0 { MergeCost(cmp, p[1..], q); } else { MergeCost(cmp, p, q[1..]); }
    }
  }

  lemma {:induction false} RunsOfTwice(n: nat, k: nat)
    requires k > 0
    ensures CeilDiv(n, 2 * k) == HalfUp(CeilDiv(n, k))
  {
    if n > k {
      RunsOfTwice(n - Min(2 * k, n), k);
      assert CeilDiv(n, k) == 2 + CeilDiv(n - k - Min(k, n - k), k);
    }
  }

  lemma {:induction false} RunsOfOne(n: nat)
    ensures CeilDiv(n, 1) == n
  {
    if n > 0 { RunsOfOne(n - 1); }
  }

  /** A sweep saves one call of cmp for every merge it makes. */
  lemma {:induction false} PassCost<T>(cmp: Cmp<T>, s: seq<T>, k: nat)
    requires k > 0
    ensures PassCalls(cmp, s, k) + CeilDiv(|s|, 2 * k) <= |s|
  {
    if s != [] {
      var (p, q, rest) := Split(s, k);
      MergeCost(cmp, p, q);
      PassCost(cmp, rest, k);
    }
  }

  lemma {:induction false} SortFromCost<T>(cmp: Cmp<T>, s: seq<T>, k: nat)
    requires k > 0 && s != []
    ensures var r := CeilDiv(|s|, k);
            SortCalls(cmp, s, k) + r - 1 <= |s| * CeilLog2(r)
    decreases |s| - k
  {
    var n, r := |s|, CeilDiv(|s|, k);
    PassCost(cmp, s, k);
    PassLength(cmp, s, k);
    RunsOfTwice(n, k);
    if n <= k {
      assert r == 1 && Split(s, k).1 == [] && Split(s, k).2 == [];
      assert SortCalls(cmp, s, k) == 0;
    } else if n <= 2 * k {
      assert r == 2 && CeilDiv(n, 2 * k) == 1;
      assert CeilLog2(2) == 1;
    } else {
      SortFromCost(cmp, Pass(cmp, s, k), 2 * k);
      RunsPositive(n, k);
      LogStep(n, r);
    }
  }

  lemma LogStep(n: nat, r: nat)
    requires r > 2
    ensures n * CeilLog2(r) == n + n * CeilLog2(HalfUp(r))
  {
    var c := CeilLog2(HalfUp(r));
    assert CeilLog2(r) == 1 + c;
    Distribute(n, 1, c);
  }

  lemma RunsPositive(n: nat, k: nat)
    requires n > 2 * k > 0
    ensures CeilDiv(n, k) > 2
  {
    assert CeilDiv(n, k) == 2 + CeilDiv(n - 2 * k, k);
  }

  /** Two runs that are not empty are not merged without a call of cmp. */
  lemma {:induction false} PassCallsAtLeast<T>(cmp: Cmp<T>, s: seq<T>, k: nat)
    requires k > 0
    ensures PassCalls(cmp, s, k) + CeilDiv(|s|, 2 * k) >= CeilDiv(|s|, k)
  {
    if s != [] {
      var (p, q, rest) := Split(s, k);
      PassCallsAtLeast(cmp, rest, k);
      PairOfRuns(|s|, k);
      assert |rest| == |s| - Min(2 * k, |s|) && |q| == Min(k, |s| - Min(k, |s|));
    }
  }

  lemma PairOfRuns(n: nat, k: nat)
    requires n > 0 && k > 0
    ensures CeilDiv(n, k) == CeilDiv(n - Min(2 * k, n), k) + (if n > k then 2 else 1)
    ensures CeilDiv(n, 2 * k) == CeilDiv(n - Min(2 * k, n), 2 * k) + 1
  {
    if n > k {
      assert CeilDiv(n - k, k) == 1 + CeilDiv(n - k - Min(k, n - k), k);
      assert n - k - Min(k, n - k) == n - Min(2 * k, n);
    }
  }

  lemma {:induction false} SortCallsAtLeast<T>(cmp: Cmp<T>, s: seq<T>, k: nat)
    requires k > 0
    ensures SortCalls(cmp, s, k) + 1 >= CeilDiv(|s|, k)
    decreases |s| - k
  {
    PassCallsAtLeast(cmp, s, k);
    PassLength(cmp, s, k);
    if |s| > 2 * k {
      SortCallsAtLeast(cmp, Pass(cmp, s, k), 2 * k);
    } else if s != [] {
      PairOfRuns(|s|, k);
    }
  }

  /** Sorting n elements calls cmp at least n - 1 times, and at most n*ceil(log2 n) - (n - 1) times. */
  lemma SortCost<T>(cmp: Cmp<T>, s: seq<T>)
    requires s != []
    ensures |s| - 1 <= SortCalls(cmp, s, 1) <= |s| * CeilLog2(|s|) - (|s| - 1)
  {
    RunsOfOne(|s|);
    SortFromCost(cmp, s, 1);
    SortCallsAtLeast(cmp, s, 1);
  }

  lemma {:induction false} SweepsFrom(n: nat, k: nat)
    requires 0 < k
    ensures Sweeps(n, k) == Max(1, CeilLog2(CeilDiv(n, k)))
    decreases n - k
  {
    RunsOfTwice(n, k);
    if n > 2 * k {
      SweepsFrom(n, 2 * k);
      RunsPositive(n, k);
    } else {
      assert CeilDiv(n, 2 * k) <= 1;
      assert CeilDiv(n, k) <= 2;
    }
  }

  /** The sort makes exactly ceil(log2 n) sweeps, and one sweep for a single element. */
  lemma SweepCount(n: nat)
    requires n > 0
    ensures Sweeps(n, 1) == Max(1, CeilLog2(n))
  {
    RunsOfOne(n);
    SweepsFrom(n, 1);
  }
}
