/** The bucket array of a uthash table and the chains that hang off it. */
module Buckets {
  import opened Arith
  import opened Elements
  import opened Load

  type Key = seq<bv8>
  type Item = Elt<Key>

  /** UT_hash_bucket. */
  datatype Bucket = Bucket(head: Elt?<Key>, count: nat, expandMult: nat)

  /** HASH_TO_BKT, as a remainder. */
  ghost function Slot(h: nat, nb: nat): (b: nat)
    requires nb > 0
    ensures b < nb
  {
    h % nb
  }

  /** Doubling the buckets leaves an item in its slot or moves it up by the old size. */
  lemma SlotDoubles(h: nat, nb: nat)
    requires nb > 0
    ensures Slot(h, 2 * nb) == Slot(h, nb) || Slot(h, 2 * nb) == Slot(h, nb) + nb
  {
    var q := h / nb;
    assert h == nb * q + h % nb;
    var half := q / 2;
    if q % 2 == 0 {
      assert nb * q == 2 * nb * half;
      DivModUnique(h, 2 * nb, half, h % nb);
    } else {
      assert nb * q == 2 * nb * half + nb by { Distribute(nb, 2 * half, 1); }
      DivModUnique(h, 2 * nb, half, h % nb + nb);
    }
  }

  // ---------------------------------------------------------------- chains

  ghost predicate ChainLinked(c: seq<Item>)
    reads (set x | x in c)`hhNext, (set x | x in c)`hhPrev
  {
    && (forall j {:trigger c[j].hhNext} | 0 <= j < |c| :: c[j].hhNext == if j + 1 < |c| then c[j + 1] else null)
    && (forall j {:trigger c[j].hhPrev} | 0 <= j < |c| :: c[j].hhPrev == if j > 0 then c[j - 1] else null)
  }

  /** Every item is in the chain of its slot, once, and in no other chain. */
  ghost predicate Spread(hashf: Key -> nat, chains: seq<seq<Item>>, items: set<Item>) {
    && chains != []
    && (forall b, x {:trigger x in chains[b]} | 0 <= b < |chains| && x in chains[b] ::
          x in items && Slot(hashf(x.val), |chains|) == b)
    && (forall x {:trigger x in items} | x in items :: x in chains[Slot(hashf(x.val), |chains|)])
    && (forall b {:trigger chains[b]} | 0 <= b < |chains| :: Distinct(chains[b]))
    && Items(chains) == |items|
  }

  ghost predicate AllLinked(chains: seq<seq<Item>>, items: set<Item>)
    reads items`hhNext, items`hhPrev
  {
    forall b {:trigger chains[b]} | 0 <= b < |chains| ::
      (forall x | x in chains[b] :: x in items) && ChainLinked(chains[b])
  }

  ghost predicate Heads(buckets: array<Bucket>, chains: seq<seq<Item>>)
    reads buckets
  {
    && buckets.Length == |chains|
    && (forall b {:trigger chains[b]} {:trigger buckets[b]} | 0 <= b < |chains| :: buckets[b].head == First(chains[b]))
  }

  ghost predicate Counts(buckets: array<Bucket>, chains: seq<seq<Item>>)
    reads buckets
  {
    && buckets.Length == |chains|
    && (forall b {:trigger chains[b]} {:trigger buckets[b]} | 0 <= b < |chains| :: buckets[b].count == |chains[b]|)
  }

  ghost predicate Mults(buckets: array<Bucket>, mults: seq<nat>)
    reads buckets
  {
    && buckets.Length == |mults|
    && (forall b {:trigger mults[b]} {:trigger buckets[b]} | 0 <= b < |mults| :: buckets[b].expandMult == mults[b])
  }

  // ---------------------------------------------------------------- adding to a chain

  ghost function Pushed(chains: seq<seq<Item>>, b: nat, x: Item): seq<seq<Item>>
    requires b < |chains|
  {
    chains[b := [x] + chains[b]]
  }

  lemma SpreadPushed(hashf: Key -> nat, chains: seq<seq<Item>>, items: set<Item>, b: nat, x: Item)
    requires Spread(hashf, chains, items) && b == Slot(hashf(x.val), |chains|) && x !in items
    ensures Spread(hashf, Pushed(chains, b, x), items + {x})
  {
    var chains' := Pushed(chains, b, x);
    ItemsUpdate(chains, b, [x] + chains[b]);
    assert x !in chains[b];
    forall y | y in items + {x} ensures y in chains'[Slot(hashf(y.val), |chains'|)] {
      if y != x { assert y in chains[Slot(hashf(y.val), |chains|)]; }
    }
    forall k, y {:trigger y in chains'[k]} | 0 <= k < |chains'| && y in chains'[k]
      ensures y in items + {x} && Slot(hashf(y.val), |chains'|) == k
    {
      if y != x { assert y in chains[k]; }
    }
  }

  /** Puts x at the front of chain b (uthash.h:615-618 and 693-697); counts are the caller's. */
  method PushFront(buckets: array<Bucket>, b: nat, x: Item, ghost chains: seq<seq<Item>>, ghost items: set<Item>)
    requires b < buckets.Length && Heads(buckets, chains) && AllLinked(chains, items) && x !in items
    requires Distinct(chains[b])
    requires forall k {:trigger chains[k]} | 0 <= k < |chains| && k != b :: First(chains[b]) !in chains[k]
    modifies buckets, x`hhNext, x`hhPrev, items`hhPrev
    ensures Heads(buckets, Pushed(chains, b, x)) && AllLinked(Pushed(chains, b, x), items + {x})
    ensures forall k | 0 <= k < buckets.Length :: buckets[k].count == old(buckets[k].count)
    ensures forall k | 0 <= k < buckets.Length :: buckets[k].expandMult == old(buckets[k].expandMult)
  {
    var head := buckets[b].head;
    x.hhNext := head;
    x.hhPrev := null;
    assert ChainLinked(chains[b]);
    if head != null {
      head.hhPrev := x;
    }
    buckets[b] := buckets[b].(head := x);
    ghost var chains' := Pushed(chains, b, x);
    forall k {:trigger chains'[k]} | 0 <= k < |chains'|
      ensures (forall y | y in chains'[k] :: y in items + {x}) && ChainLinked(chains'[k])
    {
      assert old(ChainLinked(chains[k]));
    }
  }

  // ---------------------------------------------------------------- looking in a chain

  /** HASH_FIND_IN_BKT: lengths first, then bytes. */
  method FindInBkt(buckets: array<Bucket>, b: nat, key: Key, ghost chains: seq<seq<Item>>, ghost items: set<Item>)
    returns (out: Elt?<Key>)
    requires b < buckets.Length && Heads(buckets, chains) && AllLinked(chains, items)
    ensures out == null ==> forall x | x in chains[b] :: x.val != key
    ensures out != null ==> out in chains[b] && out.val == key
  {
    out := buckets[b].head;
    ghost var j := 0;
    assert ChainLinked(chains[b]);
    while out != null
      invariant j <= |chains[b]| && out == (if j < |chains[b]| then chains[b][j] else null)
      invariant forall l | 0 <= l < j :: chains[b][l].val != key
      decreases |chains[b]| - j
    {
      if |out.val| == |key| {
        if out.val == key {
          return;
        }
      }
      out := out.hhNext;
      j := j + 1;
    }
  }

  // ---------------------------------------------------------------- removing from a chain

  ghost function Pulled(chains: seq<seq<Item>>, b: nat, x: Item): seq<seq<Item>>
    requires b < |chains|
  {
    chains[b := Without(chains[b], x)]
  }

  lemma SpreadPulled(hashf: Key -> nat, chains: seq<seq<Item>>, items: set<Item>, b: nat, x: Item)
    requires Spread(hashf, chains, items) && x in items && b == Slot(hashf(x.val), |chains|)
    ensures Spread(hashf, Pulled(chains, b, x), items - {x})
  {
    var chains' := Pulled(chains, b, x);
    assert x in chains[b];
    WithoutMembers(chains[b], x);
    ItemsUpdate(chains, b, Without(chains[b], x));
    forall y | y in items - {x} ensures y in chains'[Slot(hashf(y.val), |chains'|)] {
      assert y in chains[Slot(hashf(y.val), |chains|)];
    }
    forall m, y {:trigger y in chains'[m]} | 0 <= m < |chains'| && y in chains'[m]
      ensures y in items - {x} && Slot(hashf(y.val), |chains'|) == m
    {
      assert y in chains[m];
    }
  }

  /** Takes c[k] out of its chain's links (uthash.h:630-635). */
  method Unlink(x: Item, ghost c: seq<Item>, ghost k: nat)
    requires k < |c| && x == c[k] && ChainLinked(c) && Distinct(c)
    modifies (if k > 0 then {c[k - 1]} else {})`hhNext, (if k + 1 < |c| then {c[k + 1]} else {})`hhPrev
    ensures ChainLinked(c[..k] + c[k + 1..])
  {
    if x.hhPrev != null {
      x.hhPrev.hhNext := x.hhNext;
    }
    if x.hhNext != null {
      x.hhNext.hhPrev := x.hhPrev;
    }
    ghost var d := c[..k] + c[k + 1..];
    forall l {:trigger d[l].hhNext} | 0 <= l < |d| - 1 ensures d[l].hhNext == d[l + 1] && d[l + 1].hhPrev == d[l] {
      assert d[l] == c[if l < k then l else l + 1] && d[l + 1] == c[if l + 1 < k then l + 1 else l + 2];
    }
    if d != [] {
      assert d[0] == c[if k == 0 then 1 else 0] && d[|d| - 1] == c[if k == |d| then k - 1 else |d|];
    }
  }

  method UnlinkIn(x: Item, ghost chains: seq<seq<Item>>, ghost items: set<Item>, ghost b: nat, ghost k: nat)
    requires b < |chains| && k < |chains[b]| && x == chains[b][k] && AllLinked(chains, items) && Apart(chains, b)
    modifies items`hhNext, items`hhPrev
    ensures AllLinked(Pulled(chains, b, x), items - {x})
  {
    ghost var c := chains[b];
    assert ChainLinked(c) && forall y | y in c :: y in items;
    Unlink(x, c, k);
    WithoutAt(c, x, k);
    WithoutMembers(c, x);
    ghost var chains' := Pulled(chains, b, x);
    forall m {:trigger chains'[m]} | 0 <= m < |chains'|
      ensures (forall y | y in chains'[m] :: y in items - {x}) && ChainLinked(chains'[m])
    {
      if m != b {
        assert chains'[m] == chains[m] && old(ChainLinked(chains[m]));
      }
    }
  }

  /** Chain b holds nothing twice, and shares nothing with another chain. */
  ghost predicate Apart(chains: seq<seq<Item>>, b: nat)
    requires b < |chains|
  {
    && Distinct(chains[b])
    && (forall m {:trigger chains[m]} | 0 <= m < |chains| && m != b :: forall y | y in chains[m] :: y !in chains[b])
  }

  /** HASH_DEL_IN_BKT. */
  method DelInBkt(buckets: array<Bucket>, b: nat, x: Item, ghost chains: seq<seq<Item>>, ghost items: set<Item>)
    requires b < buckets.Length && Heads(buckets, chains) && Counts(buckets, chains) && AllLinked(chains, items)
    requires x in chains[b] && Apart(chains, b)
    modifies buckets, items`hhNext, items`hhPrev
    ensures Heads(buckets, Pulled(chains, b, x)) && Counts(buckets, Pulled(chains, b, x))
    ensures AllLinked(Pulled(chains, b, x), items - {x})
    ensures forall k | 0 <= k < buckets.Length :: buckets[k].expandMult == old(buckets[k].expandMult)
  {
    ghost var k :| 0 <= k < |chains[b]| && chains[b][k] == x;
    WithoutAt(chains[b], x, k);
    assert ChainLinked(chains[b]);
    buckets[b] := buckets[b].(count := buckets[b].count - 1);
    if buckets[b].head == x {
      buckets[b] := buckets[b].(head := x.hhNext);
    }
    UnlinkIn(x, chains, items, b, k);
  }

  // ---------------------------------------------------------------- doubling the buckets

  /** Position l of chain k is visited before position j of chain i. */
  ghost predicate Before(k: nat, l: nat, i: nat, j: nat) {
    k < i || (k == i && l < j)
  }

  /** The items visited so far are `seen`, and they are spread over the new buckets. */
  ghost predicate Moving(hashf: Key -> nat, chains: seq<seq<Item>>, items: set<Item>, i: nat, j: nat,
                         newChains: seq<seq<Item>>, seen: set<Item>)
  {
    && i <= |chains| && |newChains| == 2 * |chains|
    && Spread(hashf, newChains, seen) && seen <= items
    && (forall k, l {:trigger chains[k][l]} | 0 <= k < |chains| && 0 <= l < |chains[k]| ::
          chains[k][l] in items && (chains[k][l] in seen <==> Before(k, l, i, j)))
  }

  ghost predicate RestLinked(chains: seq<seq<Item>>, items: set<Item>, i: nat, j: nat)
    reads items`hhNext
  {
    forall k, l {:trigger chains[k][l].hhNext}
      | 0 <= k < |chains| && 0 <= l < |chains[k]| && !Before(k, l, i, j) && chains[k][l] in items ::
      chains[k][l].hhNext == if l + 1 < |chains[k]| then chains[k][l + 1] else null
  }

  lemma MovingStep(hashf: Key -> nat, chains: seq<seq<Item>>, items: set<Item>, i: nat, j: nat,
                   newChains: seq<seq<Item>>, seen: set<Item>, b: nat)
    requires Spread(hashf, chains, items) && Moving(hashf, chains, items, i, j, newChains, seen)
    requires i < |chains| && j < |chains[i]| && b == Slot(hashf(chains[i][j].val), |newChains|)
    ensures Moving(hashf, chains, items, i, j + 1, Pushed(newChains, b, chains[i][j]), seen + {chains[i][j]})
  {
    var x := chains[i][j];
    assert x in chains[i];
    SpreadPushed(hashf, newChains, seen, b, x);
    forall k, l {:trigger chains[k][l]} | 0 <= k < |chains| && 0 <= l < |chains[k]|
      ensures chains[k][l] in items && (chains[k][l] in seen + {x} <==> Before(k, l, i, j + 1))
    {
      assert chains[k][l] in chains[k];
      if k == i && l != j { assert chains[k][l] != x; }
    }
  }

  lemma NextChain(hashf: Key -> nat, chains: seq<seq<Item>>, items: set<Item>, i: nat, newChains: seq<seq<Item>>,
                  seen: set<Item>)
    requires i < |chains| && Moving(hashf, chains, items, i, |chains[i]|, newChains, seen)
    ensures Moving(hashf, chains, items, i + 1, 0, newChains, seen)
  {
    forall k, l {:trigger chains[k][l]} | 0 <= k < |chains| && 0 <= l < |chains[k]|
      ensures chains[k][l] in items && (chains[k][l] in seen <==> Before(k, l, i + 1, 0))
    {
      assert chains[k][l] in seen <==> Before(k, l, i, |chains[i]|);
    }
  }

  lemma AllMoved(hashf: Key -> nat, chains: seq<seq<Item>>, items: set<Item>, newChains: seq<seq<Item>>,
                 seen: set<Item>)
    requires Spread(hashf, chains, items) && Moving(hashf, chains, items, |chains|, 0, newChains, seen)
    ensures seen == items
  {
    forall x | x in items ensures x in seen {
      var k := Slot(hashf(x.val), |chains|);
      assert x in chains[k];
      var l :| 0 <= l < |chains[k]| && chains[k][l] == x;
      assert Before(k, l, |chains|, 0);
    }
  }

  /** What the new buckets record about their chains. */
  ghost predicate Measured(newBuckets: array<Bucket>, newChains: seq<seq<Item>>, ideal: nat)
    reads newBuckets
  {
    && Heads(newBuckets, newChains) && Counts(newBuckets, newChains)
    && (forall b {:trigger newBuckets[b]} | 0 <= b < |newChains| ::
          IsMult(|newChains[b]|, ideal, newBuckets[b].expandMult))
  }

  /** One turn of the inner loop of HASH_EXPAND_BUCKETS: thh goes to the front of its new chain. */
  method MoveItem(thh: Item, b: nat, newBuckets: array<Bucket>, ideal: nat, nonideal: nat,
                  ghost newChains: seq<seq<Item>>, ghost seen: set<Item>)
    returns (nonideal': nat)
    requires ideal > 0 && b < newBuckets.Length && Measured(newBuckets, newChains, ideal)
    requires AllLinked(newChains, seen) && thh !in seen && Apart(newChains, b)
    requires nonideal == Nonideal(newChains, ideal)
    modifies newBuckets, thh`hhNext, thh`hhPrev, seen`hhPrev
    ensures Measured(newBuckets, Pushed(newChains, b, thh), ideal)
    ensures AllLinked(Pushed(newChains, b, thh), seen + {thh})
    ensures nonideal' == Nonideal(Pushed(newChains, b, thh), ideal)
  {
    nonideal' := nonideal;
    NonidealUpdate(newChains, ideal, b, [thh] + newChains[b]);
    var count := newBuckets[b].count + 1;
    newBuckets[b] := newBuckets[b].(count := count);
    if count > ideal {
      nonideal' := nonideal' + 1;
      newBuckets[b] := newBuckets[b].(expandMult := count / ideal);
      QuotientIsMult(count, ideal);
    }
    PushFront(newBuckets, b, thh, newChains, seen);
  }

  ghost predicate Hashed(hashf: Key -> nat, items: set<Item>)
    reads items`hashv
  {
    forall x {:trigger x.hashv} | x in items :: x.hashv == hashf(x.val)
  }

  /** The old chains are as the expansion found them. */
  ghost predicate Placed(hashf: Key -> nat, chains: seq<seq<Item>>, items: set<Item>)
    reads items`hashv
  {
    Spread(hashf, chains, items) && Hashed(hashf, items)
  }

  /** HASH_TO_BKT. */
  function ToBkt(hashv: nat, numBkts: nat): nat
    requires numBkts > 0
  {
    BitAnd(hashv, numBkts - 1)
  }

  ghost predicate Redistributing(hashf: Key -> nat, chains: seq<seq<Item>>, items: set<Item>, i: nat, j: nat,
                                 newBuckets: array<Bucket>, newChains: seq<seq<Item>>, seen: set<Item>,
                                 ideal: nat, nonideal: nat)
    reads newBuckets, items, seen
  {
    && Moving(hashf, chains, items, i, j, newChains, seen)
    && RestLinked(chains, items, i, j)
    && Measured(newBuckets, newChains, ideal) && AllLinked(newChains, seen)
    && nonideal == Nonideal(newChains, ideal)
  }

  /** What the loops leave: the items in their new chains, linked and measured. */
  ghost predicate Redistributed(hashf: Key -> nat, items: set<Item>, newBuckets: array<Bucket>,
                                newChains: seq<seq<Item>>, ideal: nat, nonideal: nat)
    reads newBuckets, items`hhNext, items`hhPrev
  {
    && Spread(hashf, newChains, items) && AllLinked(newChains, items)
    && Measured(newBuckets, newChains, ideal) && nonideal == Nonideal(newChains, ideal)
  }

  lemma SpreadApart(hashf: Key -> nat, chains: seq<seq<Item>>, items: set<Item>, b: nat)
    requires Spread(hashf, chains, items) && b < |chains|
    ensures Apart(chains, b)
  {
    forall m {:trigger chains[m]} | 0 <= m < |chains| && m != b ensures forall y | y in chains[m] :: y !in chains[b] {
      forall y | y in chains[m] ensures y !in chains[b] {
        assert Slot(hashf(y.val), |chains|) == m;
      }
    }
  }

  method MoveHashed(thh: Item, newBuckets: array<Bucket>, ideal: nat, nonideal: nat, ghost hashf: Key -> nat,
                    ghost lg: nat, ghost newChains: seq<seq<Item>>, ghost seen: set<Item>)
    returns (b: nat, nonideal': nat)
    requires ideal > 0 && thh.hashv == hashf(thh.val) && newBuckets.Length == Pow2(lg) == |newChains|
    requires Spread(hashf, newChains, seen) && thh !in seen
    requires Measured(newBuckets, newChains, ideal) && AllLinked(newChains, seen)
    requires nonideal == Nonideal(newChains, ideal)
    modifies newBuckets, thh`hhNext, thh`hhPrev, seen`hhPrev
    ensures b == Slot(hashf(thh.val), |newChains|)
    ensures Measured(newBuckets, Pushed(newChains, b, thh), ideal)
    ensures AllLinked(Pushed(newChains, b, thh), seen + {thh})
    ensures nonideal' == Nonideal(Pushed(newChains, b, thh), ideal)
  {
    MaskIsMod(thh.hashv, lg);
    b := ToBkt(thh.hashv, newBuckets.Length);
    SpreadApart(hashf, newChains, seen, b);
    nonideal' := MoveItem(thh, b, newBuckets, ideal, nonideal, newChains, seen);
  }

  /** The turn for the item at position (i, j). */
  method MoveStep(thh: Item, newBuckets: array<Bucket>, ideal: nat, nonideal: nat, ghost hashf: Key -> nat,
                  ghost chains: seq<seq<Item>>, ghost items: set<Item>, ghost i: nat, ghost j: nat, ghost lg: nat,
                  ghost newChains: seq<seq<Item>>, ghost seen: set<Item>)
    returns (next: Elt?<Key>, nonideal': nat, ghost newChains': seq<seq<Item>>, ghost seen': set<Item>)
    requires ideal > 0 && Placed(hashf, chains, items)
    requires newBuckets.Length == Pow2(lg) == |newChains|
    requires i < |chains| && j < |chains[i]| && thh == chains[i][j]
    requires Redistributing(hashf, chains, items, i, j, newBuckets, newChains, seen, ideal, nonideal)
    modifies newBuckets, items`hhNext, items`hhPrev
    ensures Redistributing(hashf, chains, items, i, j + 1, newBuckets, newChains', seen', ideal, nonideal')
    ensures |newChains'| == |newChains|
    ensures next == if j + 1 < |chains[i]| then chains[i][j + 1] else null
  {
    assert chains[i][j] in items && chains[i][j] !in seen;
    next := thh.hhNext;
    ghost var b;
    b, nonideal' := MoveHashed(thh, newBuckets, ideal, nonideal, hashf, lg, newChains, seen);
    newChains', seen' := Pushed(newChains, b, thh), seen + {thh};
    MovingStep(hashf, chains, items, i, j, newChains, seen, b);
  }

  /** The inner loop: all of old chain i. */
  method MoveChain(head: Elt?<Key>, newBuckets: array<Bucket>, ideal: nat, nonideal0: nat, ghost hashf: Key -> nat,
                   ghost chains: seq<seq<Item>>, ghost items: set<Item>, ghost i: nat, ghost lg: nat,
                   ghost newChains0: seq<seq<Item>>, ghost seen0: set<Item>)
    returns (nonideal: nat, ghost newChains: seq<seq<Item>>, ghost seen: set<Item>)
    requires ideal > 0 && Placed(hashf, chains, items)
    requires newBuckets.Length == Pow2(lg) == |newChains0|
    requires i < |chains| && head == First(chains[i])
    requires Redistributing(hashf, chains, items, i, 0, newBuckets, newChains0, seen0, ideal, nonideal0)
    modifies newBuckets, items`hhNext, items`hhPrev
    ensures Redistributing(hashf, chains, items, i + 1, 0, newBuckets, newChains, seen, ideal, nonideal)
    ensures |newChains| == |newChains0|
  {
    nonideal, newChains, seen := nonideal0, newChains0, seen0;
    var thh := head;
    ghost var j := 0;
    while thh != null
      invariant |newChains| == newBuckets.Length && j <= |chains[i]|
      invariant thh == if j < |chains[i]| then chains[i][j] else null
      invariant Redistributing(hashf, chains, items, i, j, newBuckets, newChains, seen, ideal, nonideal)
      decreases |chains[i]| - j
    {
      thh, nonideal, newChains, seen :=
        MoveStep(thh, newBuckets, ideal, nonideal, hashf, chains, items, i, j, lg, newChains, seen);
      j := j + 1;
    }
    NextChain(hashf, chains, items, i, newChains, seen);
  }

  /** The loops of HASH_EXPAND_BUCKETS over the old buckets. */
  method Redistribute(buckets: array<Bucket>, newBuckets: array<Bucket>, ideal: nat, ghost hashf: Key -> nat,
                      ghost chains: seq<seq<Item>>, ghost items: set<Item>, ghost lg: nat)
    returns (nonideal: nat, ghost newChains: seq<seq<Item>>)
    requires ideal > 0 && Spread(hashf, chains, items) && Hashed(hashf, items)
    requires Heads(buckets, chains) && AllLinked(chains, items)
    requires newBuckets != buckets && newBuckets.Length == 2 * buckets.Length == Pow2(lg)
    requires forall b | 0 <= b < newBuckets.Length :: newBuckets[b] == Bucket(null, 0, 0)
    modifies newBuckets, items`hhNext, items`hhPrev
    ensures Redistributed(hashf, items, newBuckets, newChains, ideal, nonideal)
  {
    ghost var seen;
    newChains, seen := StartMoving(newBuckets, ideal, hashf, chains, items);
    nonideal, newChains := MoveAll(buckets, newBuckets, ideal, hashf, chains, items, lg, newChains, seen);
  }

  /** The outer loop: all old chains. */
  method MoveAll(buckets: array<Bucket>, newBuckets: array<Bucket>, ideal: nat, ghost hashf: Key -> nat,
                 ghost chains: seq<seq<Item>>, ghost items: set<Item>, ghost lg: nat,
                 ghost newChains0: seq<seq<Item>>, ghost seen0: set<Item>)
    returns (nonideal: nat, ghost newChains: seq<seq<Item>>)
    requires ideal > 0 && Placed(hashf, chains, items) && Heads(buckets, chains)
    requires newBuckets != buckets && newBuckets.Length == Pow2(lg) == |newChains0|
    requires Redistributing(hashf, chains, items, 0, 0, newBuckets, newChains0, seen0, ideal, 0)
    modifies newBuckets, items`hhNext, items`hhPrev
    ensures Redistributed(hashf, items, newBuckets, newChains, ideal, nonideal)
  {
    ghost var seen := seen0;
    nonideal, newChains := 0, newChains0;
    for i := 0 to buckets.Length
      invariant |newChains| == newBuckets.Length
      invariant Heads(buckets, chains) && Placed(hashf, chains, items)
      invariant Redistributing(hashf, chains, items, i, 0, newBuckets, newChains, seen, ideal, nonideal)
    {
      nonideal, newChains, seen :=
        MoveChain(buckets[i].head, newBuckets, ideal, nonideal, hashf, chains, items, i, lg, newChains, seen);
    }
    AllRedistributed(hashf, chains, items, newBuckets, newChains, seen, ideal, nonideal);
  }

  lemma AllRedistributed(hashf: Key -> nat, chains: seq<seq<Item>>, items: set<Item>, newBuckets: array<Bucket>,
                         newChains: seq<seq<Item>>, seen: set<Item>, ideal: nat, nonideal: nat)
    requires Placed(hashf, chains, items)
    requires Redistributing(hashf, chains, items, |chains|, 0, newBuckets, newChains, seen, ideal, nonideal)
    ensures Redistributed(hashf, items, newBuckets, newChains, ideal, nonideal)
  {
    AllMoved(hashf, chains, items, newChains, seen);
  }

  lemma StartMoving(newBuckets: array<Bucket>, ideal: nat, hashf: Key -> nat, chains: seq<seq<Item>>, items: set<Item>)
    returns (newChains: seq<seq<Item>>, seen: set<Item>)
    requires ideal > 0 && Spread(hashf, chains, items) && AllLinked(chains, items)
    requires newBuckets.Length == 2 * |chains|
    requires forall b | 0 <= b < newBuckets.Length :: newBuckets[b] == Bucket(null, 0, 0)
    ensures |newChains| == newBuckets.Length
    ensures Redistributing(hashf, chains, items, 0, 0, newBuckets, newChains, seen, ideal, 0)
  {
    newChains, seen := seq(newBuckets.Length, b => []), {};
    NoItems(newChains);
    forall k, l {:trigger chains[k][l].hhNext} | 0 <= k < |chains| && 0 <= l < |chains[k]|
      ensures chains[k][l].hhNext == if l + 1 < |chains[k]| then chains[k][l + 1] else null
    {
      assert chains[k][l] in chains[k] && ChainLinked(chains[k]);
    }
    forall k, l {:trigger chains[k][l]} | 0 <= k < |chains| && 0 <= l < |chains[k]| ensures chains[k][l] in items {
      assert chains[k][l] in chains[k];
    }
  }
}
