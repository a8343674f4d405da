/**
 How full the buckets of a uthash table get. A bucket asks for expansion only when its
 count reaches THRESH * (expand_mult + 1); this module works out what that bounds.
 */
module Load {
  import opened Arith

  const THRESH: nat := 10  // HASH_BKT_CAPACITY_THRESH

  // ---------------------------------------------------------------- sums over buckets

  ghost function Items<T>(chains: seq<seq<T>>): nat {
    if chains == [] then 0 else |chains[0]| + Items(chains[1..])
  }

  /** The items standing deeper in their chain than `ideal`. */
  ghost function Nonideal<T>(chains: seq<seq<T>>, ideal: nat): nat {
    if chains == [] then 0 else Max(0, |chains[0]| - ideal) + Nonideal(chains[1..], ideal)
  }

  ghost function Sum(s: seq<nat>): nat {
    if s == [] then 0 else s[0] + Sum(s[1..])
  }

  lemma {:induction false} ItemsUpdate<T>(chains: seq<seq<T>>, b: nat, c: seq<T>)
    requires b < |chains|
    ensures Items(chains[b := c]) == Items(chains) - |chains[b]| + |c|
  {
    if b > 0 {
      ItemsUpdate(chains[1..], b - 1, c);
      assert chains[b := c][1..] == chains[1..][b - 1 := c];
    }
  }

  lemma {:induction false} NonidealUpdate<T>(chains: seq<seq<T>>, ideal: nat, b: nat, c: seq<T>)
    requires b < |chains|
    ensures Nonideal(chains[b := c], ideal)
         == Nonideal(chains, ideal) - Max(0, |chains[b]| - ideal) + Max(0, |c| - ideal)
  {
    if b > 0 {
      NonidealUpdate(chains[1..], ideal, b - 1, c);
      assert chains[b := c][1..] == chains[1..][b - 1 := c];
    }
  }

  lemma {:induction false} NonidealAppend<T>(chains: seq<seq<T>>, c: seq<T>, ideal: nat)
    ensures Nonideal(chains + [c], ideal) == Nonideal(chains, ideal) + Max(0, |c| - ideal)
  {
    if chains != [] {
      NonidealAppend(chains[1..], c, ideal);
      assert (chains + [c])[1..] == chains[1..] + [c];
    }
  }

  /** The positions that lie deeper in their chain than `ideal`. */
  ghost function DeepPositions<T>(chains: seq<seq<T>>, ideal: nat): set<(int, int)> {
    set b, l | 0 <= b < |chains| && ideal <= l < |chains[b]| :: (b, l)
  }

  /** nonideal_items is the number of items that have `ideal` items or more before them in their chain. */
  lemma {:induction false} NonidealCount<T>(chains: seq<seq<T>>, ideal: nat)
    ensures Nonideal(chains, ideal) == |DeepPositions(chains, ideal)|
    decreases |chains|
  {
    if chains != [] {
      var n := |chains| - 1;
      var front, c := chains[..n], chains[n];
      NonidealCount(front, ideal);
      NonidealAppend(front, c, ideal);
      assert chains == front + [c];
      DeepLast(n, ideal, |c|);
      assert DeepPositions(chains, ideal) == DeepPositions(front, ideal) + (set l | ideal <= l < |c| :: (n, l));
    }
  }

  lemma {:induction false} DeepLast(b: int, lo: nat, hi: nat)
    ensures |set l | lo <= l < hi :: (b, l)| == Max(0, hi - lo)
    decreases hi
  {
    var s := set l | lo <= l < hi :: (b, l);
    if hi <= lo {
      assert s == {};
    } else {
      DeepLast(b, lo, hi - 1);
      assert s == (set l | lo <= l < hi - 1 :: (b, l)) + {(b, hi - 1)};
    }
  }

  lemma {:induction false} ItemsAppend<T>(chains: seq<seq<T>>, c: seq<T>)
    ensures Items(chains + [c]) == Items(chains) + |c|
  {
    if chains != [] {
      ItemsAppend(chains[1..], c);
      assert (chains + [c])[1..] == chains[1..] + [c];
    }
  }

  lemma {:induction false} NoItems<T>(chains: seq<seq<T>>)
    requires forall b | 0 <= b < |chains| :: chains[b] == []
    ensures Items(chains) == 0 && forall ideal: nat :: Nonideal(chains, ideal) == 0
  {
    if chains != [] {
      NoItems(chains[1..]);
      forall ideal: nat ensures Nonideal(chains, ideal) == 0 {
        assert Nonideal(chains[1..], ideal) == 0;
      }
    }
  }

  lemma {:induction false} SumZeros(s: seq<nat>)
    requires forall b | 0 <= b < |s| :: s[b] == 0
    ensures Sum(s) == 0
  {
    if s != [] { SumZeros(s[1..]); }
  }

  // ---------------------------------------------------------------- the load bound

  /** What a count can be while its bucket has not asked for expansion. */
  ghost predicate Capped(count: nat, mult: nat) {
    count <= THRESH * (mult + 1) - (if mult > 0 then 1 else 0)
  }

  /** The state between two expansions, as long as expansion is not inhibited. */
  ghost predicate Loaded<T>(chains: seq<seq<T>>, mults: seq<nat>) {
    && |chains| == |mults|
    && (forall b {:trigger chains[b]} {:trigger mults[b]} | 0 <= b < |chains| :: Capped(|chains[b]|, mults[b]))
    && Sum(mults) <= |mults|
  }

  lemma {:induction false} ItemsBound<T>(chains: seq<seq<T>>, mults: seq<nat>)
    requires |chains| == |mults|
    requires forall b | 0 <= b < |chains| :: Capped(|chains[b]|, mults[b])
    ensures Items(chains) <= THRESH * |chains| + THRESH * Sum(mults) - (if Sum(mults) > 0 then 1 else 0)
  {
    if chains != [] {
      assert Capped(|chains[0]|, mults[0]);
      ItemsBound(chains[1..], mults[1..]);
    }
  }

  /** Fewer than 2 * THRESH items per bucket, however unevenly they fall. */
  lemma LoadBound<T>(chains: seq<seq<T>>, mults: seq<nat>)
    requires Loaded(chains, mults) && chains != []
    ensures Items(chains) < 2 * THRESH * |chains|
  {
    ItemsBound(chains, mults);
  }

  // ---------------------------------------------------------------- after an expansion

  /** The expand_mult of a bucket of `count` items: how many times it holds the ideal, and 0 if it is not over it. */
  ghost predicate IsMult(count: nat, ideal: nat, mult: nat) {
    && (count <= ideal ==> mult == 0)
    && (count > ideal ==> ideal * mult <= count < ideal * (mult + 1))
  }

  /** The mults of all the buckets after an expansion. */
  ghost predicate Remeasured<T>(chains: seq<seq<T>>, mults: seq<nat>, ideal: nat) {
    && |chains| == |mults|
    && (forall b {:trigger chains[b]} {:trigger mults[b]} | 0 <= b < |chains| :: IsMult(|chains[b]|, ideal, mults[b]))
  }

  /** What the division gives for a bucket that is over the ideal. */
  lemma QuotientIsMult(count: nat, ideal: nat)
    requires 0 < ideal < count
    ensures IsMult(count, ideal, count / ideal)
  {
    var m := count / ideal;
    assert count == ideal * m + count % ideal;
    Distribute(ideal, m, 1);
  }

  lemma MultBounds(count: nat, ideal: nat, m: nat)
    requires 0 < ideal <= THRESH && IsMult(count, ideal, m)
    ensures ideal * m <= count && Capped(count, m)
  {
    assert THRESH * (m + 1) >= ideal * (m + 1) by { Distribute(m + 1, ideal, THRESH - ideal); }
  }

  lemma {:induction false} MultsFitItems<T>(chains: seq<seq<T>>, mults: seq<nat>, ideal: nat)
    requires 0 < ideal <= THRESH && Remeasured(chains, mults, ideal)
    ensures ideal * Sum(mults) <= Items(chains)
  {
    if chains != [] {
      assert IsMult(|chains[0]|, ideal, mults[0]);
      MultBounds(|chains[0]|, ideal, mults[0]);
      MultsFitItems(chains[1..], mults[1..], ideal);
      Distribute(ideal, mults[0], Sum(mults[1..]));
    }
  }

  /**
   An expansion with an ideal of at most THRESH that covers the items leaves the table
   loaded as before, though buckets may be over-full by any multiple.
   */
  lemma ExpansionLoads<T>(chains: seq<seq<T>>, mults: seq<nat>, ideal: nat)
    requires 0 < ideal <= THRESH && Remeasured(chains, mults, ideal)
    requires Items(chains) <= ideal * |chains|
    ensures Loaded(chains, mults)
  {
    forall b {:trigger chains[b]} | 0 <= b < |chains| ensures Capped(|chains[b]|, mults[b]) {
      MultBounds(|chains[b]|, ideal, mults[b]);
    }
    MultsFitItems(chains, mults, ideal);
    CancelFactor(ideal, Sum(mults), |chains|);
  }

  lemma CancelFactor(k: nat, a: nat, b: nat)
    requires k > 0 && k * a <= k * b
    ensures a <= b
  {
    assert a > b ==> k * (a - b) > 0;
    Distribute(k, a - b, b);
  }

  /** The ideal an expansion computes from at most 20 items per old bucket is at most THRESH. */
  lemma IdealSmall(items: nat, buckets: nat)
    requires 0 < items <= 2 * THRESH * buckets
    ensures 0 < CeilDiv(items, 2 * buckets) <= THRESH
  {
    var m, ideal := 2 * buckets, CeilDiv(items, 2 * buckets);
    CeilDivBounds(items, m);
    if ideal > THRESH {
      AtLeast(m, ideal - 1, THRESH);
    }
  }

  lemma AtLeast(m: nat, a: nat, b: nat)
    requires a >= b
    ensures m * a >= m * b
  {
  }
}
