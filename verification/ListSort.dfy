/**
 The in-place merge sorts of utlist.h and of HASH_SRT. They relink the elements
 of a list; every one is proved to produce exactly the order MergeSpec.Sort
 gives, with the links of its kind of list well formed.
 */
module ListSort {
  import opened Arith
  import opened Elements
  import opened MergeSpec

  /** A step along the list; arriving at `end` counts as running out. */
  function Step<T>(e: Elt<T>, end: Elt?<T>): Elt?<T>
    reads e
  {
    if e.next == end then null else e.next
  }

  /** What `next` of s[i] leads to in a list that s enumerates. */
  ghost function Follow<T>(s: seq<Elt<T>>, i: nat, end: Elt?<T>): Elt?<T>
    requires i < |s|
  {
    if i + 1 < |s| then s[i + 1] else end
  }

  ghost function At<T>(s: seq<Elt<T>>, i: nat): Elt?<T> {
    if i < |s| then s[i] else null
  }

  /** The list built so far; its last element's `next` is not set yet. */
  ghost predicate Built<T>(out: seq<Elt<T>>, list: Elt?<T>, tail: Elt?<T>, doubly: bool)
    reads out
  {
    && Distinct(out)
    && list == First(out) && tail == Last(out)
    && (forall i {:trigger out[i].next} | 0 <= i < |out| - 1 :: out[i].next == out[i + 1])
    && (doubly ==> PrevLinked(out, null))
  }

  /**
   Appends e to the list being built. LL_SORT2 leaves `prev` alone
   (utlist.h:144-149); DL_SORT2, CDL_SORT2 and HASH_SRT set it (utlist.h:212-218).
   */
  method Emit<T>(e: Elt<T>, list: Elt?<T>, tail: Elt?<T>, doubly: bool, ghost out: seq<Elt<T>>)
    returns (list': Elt<T>)
    requires Built(out, list, tail, doubly) && e !in out
    modifies (if tail == null then {} else {tail})`next, (if doubly then {e} else {})`prev
    ensures Built(out + [e], list', e, doubly)
    ensures e.next == old(e.next)
  {
    if tail != null {
      tail.next := e;
      list' := list;
    } else {
      list' := e;
    }
    if doubly {
      e.prev := tail;
    }
  }

  /** The merge of s[i..m] and s[j..e], by index as the loop below goes. */
  ghost function MergeAt<T>(cmp: Cmp<T>, s: seq<T>, i: nat, m: nat, j: nat, e: nat): seq<T>
    requires i <= m <= j <= e <= |s|
    decreases m - i + e - j
  {
    if i == m && j == e then []
    else if i < m && (j == e || cmp(s[i], s[j]) <= 0) then [s[i]] + MergeAt(cmp, s, i + 1, m, j, e)
    else [s[j]] + MergeAt(cmp, s, i, m, j + 1, e)
  }

  ghost function CallsAt<T>(cmp: Cmp<T>, s: seq<T>, i: nat, m: nat, j: nat, e: nat): nat
    requires i <= m <= j <= e <= |s|
    decreases m - i + e - j
  {
    if i == m || j == e then 0
    else if cmp(s[i], s[j]) <= 0 then 1 + CallsAt(cmp, s, i + 1, m, j, e)
    else 1 + CallsAt(cmp, s, i, m, j + 1, e)
  }

  lemma {:induction false} MergeAtIsMerge<T>(cmp: Cmp<T>, s: seq<T>, i: nat, m: nat, j: nat, e: nat)
    requires i <= m <= j <= e <= |s|
    ensures MergeAt(cmp, s, i, m, j, e) == Merge(cmp, s[i..m], s[j..e])
    ensures CallsAt(cmp, s, i, m, j, e) == MergeCalls(cmp, s[i..m], s[j..e])
    decreases m - i + e - j
  {
    if i == m && j == e {
    } else if i < m && (j == e || cmp(s[i], s[j]) <= 0) {
      MergeAtIsMerge(cmp, s, i + 1, m, j, e);
      RunAt(s, i, m);
      if j < e { RunAt(s, j, e); }
      TakesLeft(cmp, s[i..m], s[j..e]);
    } else {
      MergeAtIsMerge(cmp, s, i, m, j + 1, e);
      RunAt(s, j, e);
      if i < m { RunAt(s, i, m); }
      TakesRight(cmp, s[i..m], s[j..e]);
    }
  }

  lemma RunAt<T>(s: seq<T>, i: nat, m: nat)
    requires i < m <= |s|
    ensures s[i..m] != [] && s[i..m][0] == s[i] && s[i..m][1..] == s[i + 1..m]
  {
  }

  lemma TakesLeft<T>(cmp: Cmp<T>, p: seq<T>, q: seq<T>)
    requires p != [] && (q == [] || cmp(p[0], q[0]) <= 0)
    ensures Merge(cmp, p, q) == [p[0]] + Merge(cmp, p[1..], q)
    ensures MergeCalls(cmp, p, q) == (if q == [] then 0 else 1 + MergeCalls(cmp, p[1..], q))
  {
  }

  lemma TakesRight<T>(cmp: Cmp<T>, p: seq<T>, q: seq<T>)
    requires q != [] && (p == [] || cmp(p[0], q[0]) > 0)
    ensures Merge(cmp, p, q) == [q[0]] + Merge(cmp, p, q[1..])
    ensures MergeCalls(cmp, p, q) == (if p == [] then 0 else 1 + MergeCalls(cmp, p, q[1..]))
  {
  }

  /** The elements s[lo..hi] are still linked as they were. */
  ghost predicate LinksKept<T>(s: seq<Elt<T>>, lo: nat, hi: nat, end: Elt?<T>)
    requires lo <= hi <= |s|
    reads s
  {
    forall k {:trigger s[k].next} | lo <= k < hi :: s[k].next == Follow(s, k, end)
  }

  ghost predicate Apart<T>(s: seq<T>, lo: nat, hi: nat, out: seq<T>)
    requires lo <= hi <= |s|
  {
    forall k {:trigger s[k]} | lo <= k < hi :: s[k] !in out
  }

  lemma ApartStep<T>(s: seq<T>, lo: nat, hi: nat, out: seq<T>, k: nat)
    requires Distinct(s) && lo <= hi <= |s| && k < |s| && !(lo <= k < hi) && Apart(s, lo, hi, out)
    ensures Apart(s, lo, hi, out + [s[k]])
  {
  }

  /** Where the merge stands: p has psize elements of s[i..m] left, q has those of s[j..e]. */
  ghost predicate Cursors<T>(s: seq<Elt<T>>, p: Elt?<T>, psize: nat, q: Elt?<T>, qsize: nat, i: nat, m: nat, j: nat,
                             e: nat) {
    && i <= m <= j <= e <= |s|
    && psize == m - i && (i < m ==> p == s[i])
    && q == At(s, j) && e == Min(j + qsize, |s|)
  }

  /** Chooses the next element and steps past it (utlist.h:195-210 and 266-285). */
  method TakeNext<T>(cmp: Cmp<Elt<T>>, p: Elt?<T>, psize: nat, q: Elt?<T>, qsize: nat, end: Elt?<T>,
                     ghost s: seq<Elt<T>>, ghost i: nat, ghost m: nat, ghost j: nat, ghost e: nat)
    returns (elt: Elt<T>, p': Elt?<T>, psize': nat, q': Elt?<T>, qsize': nat, ghost i': nat, ghost j': nat,
             ghost k: nat, ghost c: nat)
    requires psize > 0 || (qsize > 0 && q != null)
    requires Cursors(s, p, psize, q, qsize, i, m, j, e)
    requires forall k | 0 < k < |s| :: s[k] != end
    requires i < m ==> s[i].next == Follow(s, i, end)
    requires j < e ==> s[j].next == Follow(s, j, end)
    ensures Cursors(s, p', psize', q', qsize', i', m, j', e)
    ensures (k == i < m && i' == i + 1 && j' == j) || (k == j < e && i' == i && j' == j + 1)
    ensures elt == s[k]
    ensures MergeAt(cmp, s, i, m, j, e) == [elt] + MergeAt(cmp, s, i', m, j', e)
    ensures CallsAt(cmp, s, i, m, j, e) == c + CallsAt(cmp, s, i', m, j', e)
  {
    p', psize', q', qsize', i', j', k, c := p, psize, q, qsize, i, j, i, 0;
    if psize == 0 {
      elt, q', qsize', j', k := q, Step(q, end), qsize - 1, j + 1, j;
    } else if qsize == 0 || q == null {
      elt, p', psize', i' := p, Step(p, end), psize - 1, i + 1;
    } else {
      c := 1;
      if cmp(p, q) <= 0 {
        elt, p', psize', i' := p, Step(p, end), psize - 1, i + 1;
      } else {
        elt, q', qsize', j', k := q, Step(q, end), qsize - 1, j + 1, j;
      }
    }
  }

  /** The list under construction, and what is left of s[i..m] and s[j..]. */
  ghost predicate Merging<T>(s: seq<Elt<T>>, i: nat, m: nat, j: nat, end: Elt?<T>, out: seq<Elt<T>>, list: Elt?<T>,
                             tail: Elt?<T>, doubly: bool)
    requires i <= m <= j <= |s|
    reads s, out
  {
    && LinksKept(s, i, m, end) && LinksKept(s, j, |s|, end)
    && Apart(s, i, m, out) && Apart(s, j, |s|, out)
    && Built(out, list, tail, doubly) && (tail == null || tail in s)
  }

  /** One round of the merge loop. */
  method MergeStep<T>(cmp: Cmp<Elt<T>>, p: Elt?<T>, psize: nat, q: Elt?<T>, qsize: nat, list: Elt?<T>, tail: Elt?<T>,
                      end: Elt?<T>, doubly: bool, ghost s: seq<Elt<T>>, ghost i: nat, ghost m: nat, ghost j: nat,
                      ghost e: nat, ghost out: seq<Elt<T>>)
    returns (p': Elt?<T>, psize': nat, q': Elt?<T>, qsize': nat, list': Elt<T>, tail': Elt<T>,
             ghost i': nat, ghost j': nat, ghost out': seq<Elt<T>>, ghost c: nat)
    requires psize > 0 || (qsize > 0 && q != null)
    requires Cursors(s, p, psize, q, qsize, i, m, j, e) && Merging(s, i, m, j, end, out, list, tail, doubly)
    requires Distinct(s) && (forall k | 0 < k < |s| :: s[k] != end)
    modifies (set x | x in s)`next, (set x | doubly && x in s)`prev
    ensures Cursors(s, p', psize', q', qsize', i', m, j', e) && Merging(s, i', m, j', end, out', list', tail', doubly)
    ensures i' + j' == i + j + 1
    ensures out' + MergeAt(cmp, s, i', m, j', e) == out + MergeAt(cmp, s, i, m, j, e)
    ensures c + CallsAt(cmp, s, i', m, j', e) == CallsAt(cmp, s, i, m, j, e)
  {
    ghost var k;
    tail', p', psize', q', qsize', i', j', k, c := TakeNext(cmp, p, psize, q, qsize, end, s, i, m, j, e);
    ApartStep(s, i', m, out, k);
    ApartStep(s, j', |s|, out, k);
    list' := Emit(tail', list, tail, doubly, out);
    out' := out + [tail'];
    Regroup(out, [tail'], MergeAt(cmp, s, i', m, j', e));
  }

  lemma Regroup<T>(a: seq<T>, b: seq<T>, c: seq<T>)
    ensures (a + b) + c == a + (b + c)
  {
  }

  /** The merge loop over the run s[b..m] at p and the run s[m..e] at q. */
  method MergeRuns<T>(cmp: Cmp<Elt<T>>, p0: Elt<T>, psize0: nat, q0: Elt?<T>, qsize0: nat, list0: Elt?<T>,
                      tail0: Elt?<T>, end: Elt?<T>, doubly: bool, ghost s: seq<Elt<T>>, ghost b: nat, ghost m: nat,
                      ghost e: nat, ghost done: seq<Elt<T>>)
    returns (list: Elt?<T>, tail: Elt?<T>, q: Elt?<T>, ghost out: seq<Elt<T>>, ghost calls: nat)
    requires Cursors(s, p0, psize0, q0, qsize0, b, m, m, e) && Merging(s, b, m, m, end, done, list0, tail0, doubly)
    requires Distinct(s) && (forall i | 0 < i < |s| :: s[i] != end)
    modifies (set x | x in s)`next, (set x | doubly && x in s)`prev
    ensures out == done + MergeAt(cmp, s, b, m, m, e) && calls == CallsAt(cmp, s, b, m, m, e)
    ensures q == At(s, e) && Merging(s, m, m, e, end, out, list, tail, doubly)
  {
    var p: Elt?<T>, psize, qsize := p0, psize0, qsize0;
    q, list, tail := q0, list0, tail0;
    out, calls := done, 0;
    ghost var i, j := b, m;
    while psize > 0 || (qsize > 0 && q != null)
      invariant Cursors(s, p, psize, q, qsize, i, m, j, e) && Merging(s, i, m, j, end, out, list, tail, doubly)
      invariant out + MergeAt(cmp, s, i, m, j, e) == done + MergeAt(cmp, s, b, m, m, e)
      invariant calls + CallsAt(cmp, s, i, m, j, e) == CallsAt(cmp, s, b, m, m, e)
      decreases m - i + e - j
    {
      ghost var c;
      p, psize, q, qsize, list, tail, i, j, out, c :=
        MergeStep(cmp, p, psize, q, qsize, list, tail, end, doubly, s, i, m, j, e, out);
      calls := calls + c;
    }
  }

  // ---------------------------------------------------------------- one sweep

  ghost function PassAt<T>(cmp: Cmp<T>, s: seq<T>, b: nat, k: nat): seq<T>
    requires b <= |s| && k > 0
    decreases |s| - b
  {
    if b == |s| then []
    else
      var m := Min(b + k, |s|);
      var e := Min(m + k, |s|);
      MergeAt(cmp, s, b, m, m, e) + PassAt(cmp, s, e, k)
  }

  ghost function PassCallsAt<T>(cmp: Cmp<T>, s: seq<T>, b: nat, k: nat): nat
    requires b <= |s| && k > 0
    decreases |s| - b
  {
    if b == |s| then 0
    else
      var m := Min(b + k, |s|);
      var e := Min(m + k, |s|);
      CallsAt(cmp, s, b, m, m, e) + PassCallsAt(cmp, s, e, k)
  }

  lemma {:induction false} PassAtIsPass<T>(cmp: Cmp<T>, s: seq<T>, b: nat, k: nat)
    requires b <= |s| && k > 0
    ensures PassAt(cmp, s, b, k) == Pass(cmp, s[b..], k)
    ensures PassCallsAt(cmp, s, b, k) == PassCalls(cmp, s[b..], k)
    decreases |s| - b
  {
    if b < |s| {
      var m := Min(b + k, |s|);
      var e := Min(m + k, |s|);
      var t, p, q, rest := s[b..], s[b..m], s[m..e], s[e..];
      PassAtIsPass(cmp, s, e, k);
      MergeAtIsMerge(cmp, s, b, m, m, e);
      PassAtNext(cmp, s, b, m, e, k, t, p, q, rest) by { SplitAt(s, b, m, e, k); }
    } else {
      assert s[b..] == [];
    }
  }

  lemma PassAtNext<T>(cmp: Cmp<T>, s: seq<T>, b: nat, m: nat, e: nat, k: nat, t: seq<T>, p: seq<T>, q: seq<T>,
                      rest: seq<T>)
    requires b < |s| && k > 0 && m == Min(b + k, |s|) && e == Min(m + k, |s|)
    requires MergeAt(cmp, s, b, m, m, e) == Merge(cmp, p, q) && CallsAt(cmp, s, b, m, m, e) == MergeCalls(cmp, p, q)
    requires PassAt(cmp, s, e, k) == Pass(cmp, rest, k) && PassCallsAt(cmp, s, e, k) == PassCalls(cmp, rest, k)
    requires t != [] && Split(t, k) == (p, q, rest)
    ensures PassAt(cmp, s, b, k) == Pass(cmp, t, k) && PassCallsAt(cmp, s, b, k) == PassCalls(cmp, t, k)
  {
    PassAtUnfold(cmp, s, b, m, e, k);
    PassUnfold(cmp, t, k, p, q, rest);
  }

  lemma PassAtUnfold<T>(cmp: Cmp<T>, s: seq<T>, b: nat, m: nat, e: nat, k: nat)
    requires b < |s| && k > 0 && m == Min(b + k, |s|) && e == Min(m + k, |s|)
    ensures PassAt(cmp, s, b, k) == MergeAt(cmp, s, b, m, m, e) + PassAt(cmp, s, e, k)
    ensures PassCallsAt(cmp, s, b, k) == CallsAt(cmp, s, b, m, m, e) + PassCallsAt(cmp, s, e, k)
  {
  }

  lemma PassUnfold<T>(cmp: Cmp<T>, s: seq<T>, k: nat, p: seq<T>, q: seq<T>, rest: seq<T>)
    requires k > 0 && s != [] && Split(s, k) == (p, q, rest)
    ensures Pass(cmp, s, k) == Merge(cmp, p, q) + Pass(cmp, rest, k)
    ensures PassCalls(cmp, s, k) == MergeCalls(cmp, p, q) + PassCalls(cmp, rest, k)
  {
  }

  lemma SplitAt<T>(s: seq<T>, b: nat, m: nat, e: nat, k: nat)
    requires b < |s| && k > 0 && m == Min(b + k, |s|) && e == Min(m + k, |s|)
    ensures Split(s[b..], k) == (s[b..m], s[m..e], s[e..])
  {
    assert Min(k, |s| - b) == m - b && Min(2 * k, |s| - b) == e - b;
    var r := Split(s[b..], k);
    assert r.0 == s[b..m];
    assert r.1 == s[m..e];
    assert r.2 == s[e..];
  }

  /** Counts off the run at p; q is where the next run starts (utlist.h:122-128). */
  method CountRun<T>(p: Elt<T>, insize: nat, end: Elt?<T>, ghost s: seq<Elt<T>>, ghost b: nat)
    returns (psize: nat, q: Elt?<T>)
    requires insize > 0 && b < |s| && p == s[b]
    requires (forall i | 0 < i < |s| :: s[i] != end) && LinksKept(s, b, |s|, end)
    ensures psize == Min(insize, |s| - b) && q == At(s, b + psize)
  {
    q, psize := p, 0;
    for i := 0 to insize
      invariant psize == i && b + i < |s| && q == s[b + i]
    {
      psize := psize + 1;
      q := Step(q, end);
      if q == null {
        break;
      }
    }
  }

  /** One round of the sweep: a pair of runs is merged onto the list built so far. */
  method SweepStep<T>(cmp: Cmp<Elt<T>>, p: Elt<T>, insize: nat, list: Elt?<T>, tail: Elt?<T>, end: Elt?<T>,
                      doubly: bool, ghost s: seq<Elt<T>>, ghost b: nat, ghost done: seq<Elt<T>>)
    returns (list': Elt?<T>, tail': Elt?<T>, p': Elt?<T>, ghost e: nat, ghost out: seq<Elt<T>>, ghost calls: nat)
    requires insize > 0 && b < |s| && p == s[b]
    requires Distinct(s) && (forall i | 0 < i < |s| :: s[i] != end)
    requires Merging(s, b, b, b, end, done, list, tail, doubly)
    modifies (set x | x in s)`next, (set x | doubly && x in s)`prev
    ensures e == b + Min(2 * insize, |s| - b) && p' == At(s, e)
    ensures out + PassAt(cmp, s, e, insize) == done + PassAt(cmp, s, b, insize)
    ensures calls + PassCallsAt(cmp, s, e, insize) == PassCallsAt(cmp, s, b, insize)
    ensures Merging(s, e, e, e, end, out, list', tail', doubly)
  {
    var psize, q := CountRun(p, insize, end, s, b);
    ghost var m := b + psize;
    e := Min(m + insize, |s|);
    list', tail', p', out, calls := MergeRuns(cmp, p, psize, q, insize, list, tail, end, doubly, s, b, m, e, done);
    PassAtStep(cmp, s, b, insize, m, e, done);
  }

  lemma PassAtStep<T>(cmp: Cmp<T>, s: seq<T>, b: nat, k: nat, m: nat, e: nat, done: seq<T>)
    requires k > 0 && b < |s| && m == Min(b + k, |s|) && e == Min(m + k, |s|)
    ensures (done + MergeAt(cmp, s, b, m, m, e)) + PassAt(cmp, s, e, k) == done + PassAt(cmp, s, b, k)
    ensures CallsAt(cmp, s, b, m, m, e) + PassCallsAt(cmp, s, e, k) == PassCallsAt(cmp, s, b, k)
  {
    var merged, rest := MergeAt(cmp, s, b, m, m, e), PassAt(cmp, s, e, k);
    assert PassAt(cmp, s, b, k) == merged + rest
        && PassCallsAt(cmp, s, b, k) == CallsAt(cmp, s, b, m, m, e) + PassCallsAt(cmp, s, e, k) by {
      PassAtUnfold(cmp, s, b, m, e, k);
    }
    Regroup(done, merged, rest);
  }

  /**
   One sweep over the list, merging neighbouring runs of `insize` elements. `end` is
   what the last element's `next` holds: NULL, or the old head in a circular list.
   */
  method SortPass<T>(cmp: Cmp<Elt<T>>, list: Elt<T>, insize: nat, end: Elt?<T>, doubly: bool, ghost s: seq<Elt<T>>)
    returns (head: Elt<T>, tail: Elt<T>, nmerges: nat, ghost t: seq<Elt<T>>, ghost calls: nat)
    requires insize > 0 && s != [] && list == s[0] && Distinct(s)
    requires NextLinked(s, end) && (forall i | 0 < i < |s| :: s[i] != end)
    modifies (set x | x in s)`next, (set x | doubly && x in s)`prev
    ensures t == Pass(cmp, s, insize) && calls == PassCalls(cmp, s, insize)
    ensures nmerges == CeilDiv(|s|, 2 * insize)
    ensures Built(t, head, tail, doubly)
  {
    var p: Elt?<T>, h: Elt?<T>, l: Elt?<T> := list, null, null;
    nmerges, calls, t := 0, 0, [];
    ghost var b := 0;
    while p != null
      invariant b <= |s| && p == At(s, b)
      invariant t + PassAt(cmp, s, b, insize) == [] + PassAt(cmp, s, 0, insize)
      invariant calls + PassCallsAt(cmp, s, b, insize) == PassCallsAt(cmp, s, 0, insize)
      invariant nmerges + CeilDiv(|s| - b, 2 * insize) == CeilDiv(|s|, 2 * insize)
      invariant Merging(s, b, b, b, end, t, h, l, doubly)
      decreases |s| - b
    {
      nmerges := nmerges + 1;
      ghost var c;
      h, l, p, b, t, c := SweepStep(cmp, p, insize, h, l, end, doubly, s, b, t);
      calls := calls + c;
    }
    PassDone(cmp, s, insize, t);
    head, tail := h, l;
  }

  lemma PassDone<T>(cmp: Cmp<T>, s: seq<T>, k: nat, t: seq<T>)
    requires k > 0 && t + PassAt(cmp, s, |s|, k) == [] + PassAt(cmp, s, 0, k)
    ensures t == Pass(cmp, s, k) && |t| == |s| && PassCallsAt(cmp, s, 0, k) == PassCalls(cmp, s, k)
  {
    assert t + [] == t;
    PassAtIsPass(cmp, s, 0, k);
    assert s[0..] == s;
    PassLength(cmp, s, k);
  }
}
