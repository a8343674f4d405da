/** The hash table of uthash.h: chained buckets threaded with a list in insertion order. */
module UtHash {
  import opened Arith
  import opened Elements
  import opened Load
  import opened Buckets
  import opened Expansions
  import Bloom
  import ListSort
  import MergeSpec
  import UtList

  // ---------------------------------------------------------------- parts of the invariant

  /** The application-order list. */
  ghost predicate Ordered(order: seq<Item>, head: Elt?<Key>, tail: Elt?<Key>)
    reads (set x | x in order)`next, (set x | x in order)`prev
  {
    var ordered :=
      && head == First(order) && (order != [] ==> tail == Last(order))
      && Distinct(order) && NextLinked(order, null) && PrevLinked(order, null);
    ordered
  }

  /** m maps each key to the one item with that key: keys are unique among the items. */
  ghost predicate Maps(m: map<Key, Item>, items: set<Item>) {
    && (forall x {:trigger x in items} | x in items :: x.val in m && m[x.val] == x)
    && (forall k {:trigger k in m} | k in m :: m[k] in items && m[k].val == k)
  }

  lemma MapsUnique(m: map<Key, Item>, m': map<Key, Item>, items: set<Item>)
    requires Maps(m, items) && Maps(m', items)
    ensures m == m'
  {
    forall k | k in m ensures k in m' && m'[k] == m[k] { assert m[k] in items; }
    forall k | k in m' ensures k in m { assert m'[k] in items; }
  }

  /** The buckets hold exactly `items`, each in its own chain, and count them right. */
  ghost predicate Bucketed(hashf: Key -> nat, info: Info, buckets: array<Bucket>, chains: seq<seq<Item>>,
                           mults: seq<nat>, items: set<Item>)
    reads buckets, items`hhNext, items`hhPrev, items`hashv
  {
    var bucketed :=
      && info.numBuckets == Pow2(info.log2NumBuckets) == |chains|
      && Heads(buckets, chains) && Counts(buckets, chains) && Mults(buckets, mults)
      && Spread(hashf, chains, items) && AllLinked(chains, items) && Hashed(hashf, items);
    bucketed
  }

  lemma Rebuilt(hashf: Key -> nat, info: Info, buckets: array<Bucket>, chains: seq<seq<Item>>, mults: seq<nat>,
                items: set<Item>)
    requires info.numBuckets == Pow2(info.log2NumBuckets) == |chains|
    requires Heads(buckets, chains) && Counts(buckets, chains) && Mults(buckets, mults)
    requires Spread(hashf, chains, items) && AllLinked(chains, items) && Hashed(hashf, items)
    ensures Bucketed(hashf, info, buckets, chains, mults, items)
  {
  }

  /** What the expansion heuristic keeps. */
  ghost predicate LoadOk(info: Info, chains: seq<seq<Item>>, mults: seq<nat>) {
    && info.idealChainMaxlen <= THRESH
    && info.noexpand == (if info.ineffExpands > 1 then 1 else 0)
    && (info.noexpand == 0 ==> Loaded(chains, mults))
  }

  // ---------------------------------------------------------------- making and growing the bucket array

  /** The bucket array of HASH_MAKE_TABLE. */
  method NewBuckets(ghost hashf: Key -> nat)
    returns (buckets: array<Bucket>, ghost chains: seq<seq<Item>>, ghost mults: seq<nat>)
    ensures fresh(buckets)
    ensures Bucketed(hashf, INITIAL, buckets, chains, mults, {}) && LoadOk(INITIAL, chains, mults)
    ensures chains == Made().chains && mults == Made().mults
  {
    buckets := new Bucket[32](i => Bucket(null, 0, 0));
    chains, mults := Made().chains, Made().mults;
    MadeOk(hashf, buckets, chains, mults);
  }

  lemma MadeOk(hashf: Key -> nat, buckets: array<Bucket>, chains: seq<seq<Item>>, mults: seq<nat>)
    requires |chains| == |mults| == buckets.Length == 32
    requires forall b | 0 <= b < 32 :: chains[b] == [] && mults[b] == 0 && buckets[b] == Bucket(null, 0, 0)
    ensures Bucketed(hashf, INITIAL, buckets, chains, mults, {}) && LoadOk(INITIAL, chains, mults)
  {
    NoItems(chains);
    SumZeros(mults);
    assert Pow2(5) == 32;
  }

  /** The new ideal_chain_maxlen, by shift and mask (uthash.h:677-679). */
  function IdealLength(numItems: nat, numBuckets: nat, log2NumBuckets: nat): (ideal: nat)
    requires numBuckets == Pow2(log2NumBuckets) && numItems > 0
    ensures numBuckets > 0 && ideal == CeilDiv(numItems, 2 * numBuckets) > 0
  {
    MaskIsMod(numItems, log2NumBuckets + 1);
    ShiftIsDiv(numItems, log2NumBuckets + 1);
    CeilDivByParts(numItems, Pow2(log2NumBuckets + 1));
    ShiftRight(numItems, log2NumBuckets + 1) + (if BitAnd(numItems, numBuckets * 2 - 1) != 0 then 1 else 0)
  }

  lemma MeasuredMults(buckets: array<Bucket>, chains: seq<seq<Item>>, ideal: nat) returns (mults: seq<nat>)
    requires Measured(buckets, chains, ideal)
    ensures Mults(buckets, mults) && Remeasured(chains, mults, ideal)
  {
    var bs := buckets[..];
    mults := seq(|bs|, b requires 0 <= b < |bs| => bs[b].expandMult);
  }

  /** HASH_EXPAND_BUCKETS. */
  method ExpandBuckets(info: Info, buckets: array<Bucket>, ghost hashf: Key -> nat, ghost chains: seq<seq<Item>>,
                       ghost mults: seq<nat>, ghost items: set<Item>)
    returns (info': Info, buckets': array<Bucket>, ghost chains': seq<seq<Item>>, ghost mults': seq<nat>)
    requires Bucketed(hashf, info, buckets, chains, mults, items) && info.numItems == |items| > 0
    modifies items`hhNext, items`hhPrev
    ensures fresh(buckets') && Bucketed(hashf, info', buckets', chains', mults', items)
    ensures Expanded(info, info', chains') && info'.idealChainMaxlen > 0
    ensures Remeasured(chains', mults', info'.idealChainMaxlen)
    ensures forall k {:trigger buckets'[k]} | 0 <= k < buckets'.Length ::
              var count, mult, ideal := |chains'[k]|, buckets'[k].expandMult, info'.idealChainMaxlen;
              && buckets'[k].count == count
              && if count <= ideal then mult == 0 else ideal * mult <= count < ideal * (mult + 1)
  {
    var ideal := IdealLength(info.numItems, info.numBuckets, info.log2NumBuckets);
    var nonideal;
    buckets', nonideal, chains', mults' := Grow(buckets, ideal, hashf, chains, items, info.log2NumBuckets + 1);
    info' := AfterExpand(info, ideal, nonideal);
    ShiftIsDiv(info.numItems, 1);
  }

  /** The new bucket array, filled from the old one. */
  method Grow(buckets: array<Bucket>, ideal: nat, ghost hashf: Key -> nat, ghost chains: seq<seq<Item>>,
              ghost items: set<Item>, ghost lg: nat)
    returns (buckets': array<Bucket>, nonideal: nat, ghost chains': seq<seq<Item>>, ghost mults': seq<nat>)
    requires ideal > 0 && Spread(hashf, chains, items) && Hashed(hashf, items)
    requires Heads(buckets, chains) && AllLinked(chains, items) && 2 * buckets.Length == Pow2(lg)
    modifies items`hhNext, items`hhPrev
    ensures fresh(buckets')
    ensures |chains'| == Pow2(lg) && Spread(hashf, chains', items) && AllLinked(chains', items) && Hashed(hashf, items)
    ensures Heads(buckets', chains') && Counts(buckets', chains') && Mults(buckets', mults')
    ensures Remeasured(chains', mults', ideal) && nonideal == Nonideal(chains', ideal)
  {
    buckets' := new Bucket[2 * buckets.Length](i => Bucket(null, 0, 0));
    nonideal, chains' := Redistribute(buckets, buckets', ideal, hashf, chains, items, lg);
    mults' := MeasuredMults(buckets', chains', ideal);
  }

  /** Expanding a table of at most 20 items per bucket keeps the load bound, whatever the chains look like. */
  lemma ExpandedLoadOk(before: Info, after: Info, chains: seq<seq<Item>>, mults: seq<nat>)
    requires Expanded(before, after, chains) && before.noexpand == 0
    requires |chains| == after.numBuckets && Load.Items(chains) == after.numItems
    requires 0 < before.numItems <= 2 * THRESH * before.numBuckets
    requires Remeasured(chains, mults, after.idealChainMaxlen)
    ensures LoadOk(after, chains, mults)
  {
    IdealSmall(before.numItems, before.numBuckets);
    CeilDivBounds(after.numItems, after.numBuckets);
    ExpansionLoads(chains, mults, after.idealChainMaxlen);
  }

  // ---------------------------------------------------------------- adding to a bucket

  /** HASH_ADD_TO_BKT: push, count, and expand when the bucket asks for it. */
  method AddToBkt(info: Info, buckets: array<Bucket>, b: nat, add: Item, ghost hashf: Key -> nat,
                  ghost chains: seq<seq<Item>>, ghost mults: seq<nat>, ghost items: set<Item>)
    returns (info': Info, buckets': array<Bucket>, ghost chains': seq<seq<Item>>, ghost mults': seq<nat>)
    requires Bucketed(hashf, info, buckets, chains, mults, items) && LoadOk(info, chains, mults)
    requires info.numItems == |items| + 1
    requires add !in items && add.hashv == hashf(add.val) && b == Slot(hashf(add.val), |chains|)
    modifies buckets, items`hhNext, items`hhPrev, add`hhNext, add`hhPrev
    ensures buckets' == buckets || fresh(buckets')
    ensures Bucketed(hashf, info', buckets', chains', mults', items + {add}) && LoadOk(info', chains', mults')
    ensures PushedOn(info, chains, mults, b, add, info', chains', mults')
    ensures info' != info <==> |chains[b]| + 1 >= (mults[b] + 1) * 10 && info.noexpand != 1
  {
    info', buckets', chains', mults' := info, buckets, Pushed(chains, b, add), mults;
    SpreadPushed(hashf, chains, items, b, add);
    SpreadApart(hashf, chains, items, b);
    PushCounted(buckets, b, add, chains, mults, items);
    if buckets[b].count >= (buckets[b].expandMult + 1) * THRESH && info.noexpand != 1 {
      assert Loaded(chains, mults);
      LoadBound(chains, mults);
      info', buckets', chains', mults' := ExpandBuckets(info, buckets, hashf, chains', mults, items + {add});
      ExpandedLoadOk(info, info', chains', mults');
    } else if info.noexpand != 1 {
      LoadedPushed(chains, mults, b, add);
    }
  }

  method PushCounted(buckets: array<Bucket>, b: nat, add: Item, ghost chains: seq<seq<Item>>, ghost mults: seq<nat>,
                     ghost items: set<Item>)
    requires b < buckets.Length && Heads(buckets, chains) && Counts(buckets, chains) && Mults(buckets, mults)
    requires AllLinked(chains, items) && Apart(chains, b) && add !in items
    modifies buckets, add`hhNext, add`hhPrev, items`hhPrev
    ensures var chains' := Pushed(chains, b, add);
            && Heads(buckets, chains') && Counts(buckets, chains') && Mults(buckets, mults)
            && AllLinked(chains', items + {add})
  {
    buckets[b] := buckets[b].(count := buckets[b].count + 1);
    PushFront(buckets, b, add, chains, items);
  }

  lemma LoadedPushed(chains: seq<seq<Item>>, mults: seq<nat>, b: nat, add: Item)
    requires Loaded(chains, mults) && b < |chains| && |chains[b]| + 1 < (mults[b] + 1) * THRESH
    ensures Loaded(Pushed(chains, b, add), mults)
  {
  }

  // ---------------------------------------------------------------- the application-order list

  /** The list edit of HASH_ADD_KEYPTR on a table that has items. */
  method AppendItem(head: Item, tail: Item, add: Item, ghost order: seq<Item>)
    requires order != [] && Ordered(order, head, tail) && add !in order && add.next == null
    modifies tail`next, add`prev
    ensures Ordered(order + [add], head, add)
  {
    tail.next := add;
    add.prev := tail;
  }

  ghost function Previous(order: seq<Item>, i: nat): Elt?<Key>
    requires i <= |order|
  {
    if i == 0 then null else order[i - 1]
  }

  /** Walking forwards steps over order[k]. */
  ghost predicate SteppedOver(order: seq<Item>, k: nat)
    requires k < |order|
    reads (set x | x in order)`next
  {
    forall i {:trigger order[i].next} | 0 <= i < |order| && i != k ::
      order[i].next == ListSort.At(order, if i + 1 == k then k + 1 else i + 1)
  }

  /** Walking backwards steps over order[k]. */
  ghost predicate SteppedBackOver(order: seq<Item>, k: nat)
    requires k < |order|
    reads (set x | x in order)`prev
  {
    forall i {:trigger order[i].prev} | 0 <= i < |order| && i != k ::
      order[i].prev == Previous(order, if i == k + 1 then k else i)
  }

  method StepOver(head: Item, del: Item, ghost order: seq<Item>, ghost k: nat) returns (head': Item)
    requires |order| > 1 && head == order[0] && k < |order| && order[k] == del
    requires Distinct(order) && NextLinked(order, null) && PrevLinked(order, null)
    modifies (set x | x in order)`next
    ensures SteppedOver(order, k) && del.next == old(del.next) && head' == order[if k == 0 then 1 else 0]
  {
    head' := head;
    if del.prev != null {
      del.prev.next := del.next;
    } else {
      head' := del.next;
    }
  }

  method StepBackOver(del: Item, ghost order: seq<Item>, ghost k: nat)
    requires k < |order| && order[k] == del && del.next == ListSort.At(order, k + 1)
    requires Distinct(order) && PrevLinked(order, null)
    modifies (set x | x in order)`prev
    ensures SteppedBackOver(order, k)
  {
    if del.next != null {
      del.next.prev := del.prev;
    }
  }

  /** The list edit of HASH_DELETE, for an item that is not the only one. */
  method RemoveItem(head: Item, tail: Item, del: Item, ghost order: seq<Item>, ghost k: nat)
    returns (head': Item, tail': Item)
    requires |order| > 1 && Ordered(order, head, tail) && k < |order| && order[k] == del
    modifies (set x | x in order)`next, (set x | x in order)`prev
    ensures Ordered(order[..k] + order[k + 1..], head', tail')
  {
    tail' := tail;
    if del == tail {
      tail' := del.prev;
    }
    head' := StepOver(head, del, order, k);
    StepBackOver(del, order, k);
    Bridge(order, k);
  }

  lemma Bridge(order: seq<Item>, k: nat)
    requires |order| > 1 && k < |order| && Distinct(order) && SteppedOver(order, k) && SteppedBackOver(order, k)
    ensures var rest := order[..k] + order[k + 1..];
            Ordered(rest, First(rest), Last(rest))
  {
    var rest := order[..k] + order[k + 1..];
    assert forall l {:trigger rest[l]} | 0 <= l < |rest| :: rest[l] == order[if l < k then l else l + 1];
    assert NextLinked(rest, null);
    assert PrevLinked(rest, null);
    assert Distinct(rest) by {
      CutOut(order, k);
    }
  }

  /** HASH_SRT on a list that is not empty, with its sweeps and its calls of cmp counted. */
  method SortItems(cmp: MergeSpec.Cmp<Item>, head: Item, tail: Item, ghost order: seq<Item>)
    returns (head': Item, tail': Item, ghost order': seq<Item>, ghost sweeps: nat, ghost calls: nat)
    requires order != [] && Ordered(order, head, tail)
    modifies ItemsOf(order)`next, ItemsOf(order)`prev
    ensures order' == MergeSpec.Sort(cmp, order) && Ordered(order', head', tail')
    ensures SameSize(order, order') && ItemsOf(order') == ItemsOf(order)
    ensures sweeps == MergeSpec.Sweeps(|order|, 1) && calls == MergeSpec.SortCalls(cmp, order, 1)
  {
    head', tail', order', sweeps, calls := head, tail, order, 0, 0;
    var insize, looping := 1, true;
    while looping
      invariant Ordered(order', head', tail') && insize > 0
      invariant SameSize(order, order') && ItemsOf(order') == ItemsOf(order)
      invariant UtList.ToSort(looping, cmp, order', insize) == MergeSpec.Sort(cmp, order)
      invariant sweeps + UtList.ToSweep(looping, |order|, insize) == MergeSpec.Sweeps(|order|, 1)
      invariant calls + UtList.ToCall(looping, cmp, order', insize) == MergeSpec.SortCalls(cmp, order, 1)
      decreases looping, |order| - insize
    {
      ghost var more;
      head', tail', looping, order', more := SortSweep(cmp, head', insize, tail', order');
      insize := insize * 2;
      sweeps, calls := sweeps + 1, calls + more;
    }
  }

  ghost predicate SameSize(order: seq<Item>, order': seq<Item>) {
    |order'| == |order|
  }

  /** One turn of the outer loop of HASH_SRT. */
  method SortSweep(cmp: MergeSpec.Cmp<Item>, list: Item, insize: nat, ghost tail0: Item, ghost order: seq<Item>)
    returns (head: Item, tail: Item, looping: bool, ghost t: seq<Item>, ghost calls: nat)
    requires insize > 0 && order != [] && Ordered(order, list, tail0)
    modifies ItemsOf(order)`next, ItemsOf(order)`prev
    ensures Ordered(t, head, tail) && (looping ==> 2 * insize < |order|)
    ensures SameSize(order, t) && ItemsOf(t) == ItemsOf(order)
    ensures UtList.ToSort(looping, cmp, t, 2 * insize) == MergeSpec.SortFrom(cmp, order, insize)
    ensures 1 + UtList.ToSweep(looping, |order|, 2 * insize) == MergeSpec.Sweeps(|order|, insize)
    ensures calls + UtList.ToCall(looping, cmp, t, 2 * insize) == MergeSpec.SortCalls(cmp, order, insize)
  {
    var nmerges;
    head, tail, nmerges, t, calls := ListSort.SortPass(cmp, list, insize, null, true, order);
    PassItems(cmp, order, insize);
    CloseList(head, tail, t);
    looping := nmerges > 1;
    UtList.TurnOutcome(cmp, order, insize);
  }

  lemma PassItems(cmp: MergeSpec.Cmp<Item>, order: seq<Item>, k: nat)
    requires k > 0
    ensures SameSize(order, MergeSpec.Pass(cmp, order, k)) && ItemsOf(MergeSpec.Pass(cmp, order, k)) == ItemsOf(order)
  {
    var t := MergeSpec.Pass(cmp, order, k);
    MergeSpec.PassPermutes(cmp, order, k);
    MergeSpec.SameElements(order, t);
  }

  method CloseList(head: Item, tail: Item, ghost t: seq<Item>)
    requires t != [] && ListSort.Built(t, head, tail, true)
    modifies tail`next
    ensures Ordered(t, head, tail)
  {
    tail.next := null;
  }

  // ---------------------------------------------------------------- the table

  /** HASH_FCN, any deterministic function of the key, and whether and how HASH_BLOOM is defined. */
  datatype Config = Config(hashf: Key -> nat, bloom: bool, nbits: nat)

  /** The caller's head pointer and the UT_hash_table, which means something only when head is not NULL. */
  datatype State = State(head: Elt?<Key>, tail: Elt?<Key>, info: Info, buckets: array<Bucket>, bloomBv: array<bv8>)

  /**
   The items in application order, the map they make, the chains, the buckets' expand_mult, and the
   expansions so far.
   */
  datatype View = View(order: seq<Item>, model: map<Key, Item>, chains: seq<seq<Item>>, mults: seq<nat>,
                       log: seq<Expansion>)

  ghost function Now(t: State, v: View): Moment {
    Moment(t.info, v.log, v.chains, v.mults)
  }

  ghost function ItemsOf(order: seq<Item>): set<Item> {
    MergeSpec.Elements(order)
  }

  /** The Bloom filter, when there is one, has the bit of every item set. */
  ghost predicate Filtered(c: Config, bv: array<bv8>, items: set<Item>)
    reads bv
  {
    c.bloom ==>
      && bv.Length == Bloom.ByteLen(c.nbits)
      && (forall x {:trigger x in items} | x in items :: Bloom.IsSet(bv, Bloom.BitOf(c.hashf(x.val), c.nbits)))
  }

  /** The buckets, counters and filter describe `items`. */
  ghost predicate Holds(c: Config, t: State, v: View, items: set<Item>)
    reads t.buckets, t.bloomBv, items`hhNext, items`hhPrev, items`hashv
  {
    var holds :=
      && t.bloomBv as object != t.buckets
      && Bucketed(c.hashf, t.info, t.buckets, v.chains, v.mults, items) && LoadOk(t.info, v.chains, v.mults)
      && Filtered(c, t.bloomBv, items) && Logged(t.info, v.log);
    holds
  }

  ghost predicate ValidTable(c: Config, t: State, v: View)
    reads t.buckets, t.bloomBv, ItemsOf(v.order)
  {
    var valid :=
      && Ordered(v.order, t.head, t.tail) && Maps(v.model, ItemsOf(v.order))
      && (t.head != null ==> Holds(c, t, v, ItemsOf(v.order)) && t.info.numItems == |v.order|);
    valid
  }

  /** Every item is in the bucket that the remainder of its hash value names, and the buckets hold nothing else. */
  lemma InItsBucket(c: Config, t: State, v: View, b: nat, x: Item)
    requires ValidTable(c, t, v) && t.head != null && b < |v.chains|
    ensures |v.chains| == t.buckets.Length == t.info.numBuckets > 0
    ensures x in v.chains[b] <==> x in v.order && c.hashf(x.val) % t.info.numBuckets == b
  {
    assert Spread(c.hashf, v.chains, ItemsOf(v.order));
    assert x in v.order <==> x in ItemsOf(v.order);
  }

  /** What Holds says depends only on the table behind the head, not on the order of the list. */
  lemma HoldsSame(c: Config, t: State, v: View, t': State, v': View, items: set<Item>)
    requires Holds(c, t, v, items)
    requires t' == t.(head := t'.head, tail := t'.tail) && v' == v.(order := v'.order, model := v'.model)
    ensures Holds(c, t', v', items)
  {
  }

  lemma Assembled(c: Config, t: State, v: View, order: seq<Item>, m: map<Key, Item>)
    requires Ordered(order, t.head, t.tail) && Maps(m, ItemsOf(order))
    requires t.head != null ==> Holds(c, t, v, ItemsOf(order)) && t.info.numItems == |order|
    ensures ValidTable(c, t, v.(order := order, model := m))
  {
    if t.head != null {
      HoldsSame(c, t, v, t, v.(order := order, model := m), ItemsOf(order));
    }
  }

  // ---------------------------------------------------------------- adding

  /** The first item: it becomes the head and gets a table (HASH_MAKE_TABLE). */
  method AddFirst(c: Config, add: Item) returns (t: State, ghost v: View)
    requires add.next == null
    modifies add`prev
    ensures t.head == t.tail == add && v.order == [] && Ordered([add], t.head, t.tail)
    ensures fresh(t.buckets) && fresh(t.bloomBv) && Holds(c, t, v, {}) && Now(t, v) == Made()
  {
    add.prev := null;
    var buckets;
    ghost var chains, mults;
    buckets, chains, mults := NewBuckets(c.hashf);
    var bv := new bv8[Bloom.ByteLen(c.nbits)](i => 0);
    t := State(add, add, INITIAL, buckets, bv);
    v := View([], map[], chains, mults, []);
  }

  /** A later item: it goes after the tail. */
  method AddNext(c: Config, t: State, add: Item, ghost v: View) returns (t': State)
    requires t.head != null && ValidTable(c, t, v) && add !in v.order && add.next == null
    modifies ItemsOf(v.order), add`prev
    ensures t' == t.(tail := add) && Ordered(v.order + [add], t'.head, t'.tail) && Holds(c, t', v, ItemsOf(v.order))
    ensures forall x | x in v.order :: x.hhNext == old(x.hhNext) && x.hhPrev == old(x.hhPrev) && x.hashv == old(x.hashv)
  {
    AppendItem(t.head, t.tail, add, v.order);
    t' := t.(tail := add);
    assert Holds(c, t', v, ItemsOf(v.order)) by {
      HoldsSame(c, t, v, t', v, ItemsOf(v.order));
    }
  }

  /** HASH_TO_BKT: the mask picks the slot. */
  method BucketFor(info: Info, hashv: nat) returns (b: nat)
    requires info.numBuckets == Pow2(info.log2NumBuckets)
    ensures info.numBuckets > 0 && b == Slot(hashv, info.numBuckets) == hashv % info.numBuckets
  {
    MaskIsMod(hashv, info.log2NumBuckets);
    b := ToBkt(hashv, info.numBuckets);
  }

  /** HASH_BLOOM_ADD, when there is a filter. */
  method MarkInFilter(c: Config, t: State, add: Item, ghost v: View, ghost items: set<Item>)
    requires t.bloomBv as object != t.buckets
    requires Bucketed(c.hashf, t.info, t.buckets, v.chains, v.mults, items + {add}) && Filtered(c, t.bloomBv, items)
    requires add.hashv == c.hashf(add.val)
    modifies t.bloomBv
    ensures Bucketed(c.hashf, t.info, t.buckets, v.chains, v.mults, items + {add})
            && Filtered(c, t.bloomBv, items + {add})
  {
    if c.bloom {
      Bloom.Add(t.bloomBv, c.nbits, add.hashv);
    }
  }

  /** The new item is counted already, but not yet in a bucket. */
  ghost predicate Awaits(c: Config, t: State, v: View, items: set<Item>, add: Item)
    reads t.buckets, t.bloomBv, items`hhNext, items`hhPrev, items`hashv
  {
    Holds(c, t, v, items) && add !in items && t.info.numItems == |items| + 1
  }

  /** What filling a bucket changes: the bucket array and the counters, as HASH_ADD_TO_BKT does. */
  ghost predicate Filled(c: Config, t: State, v: View, t': State, v': View, add: Item) {
    var filled :=
      && t' == t.(info := t'.info, buckets := t'.buckets) && v'.order == v.order
      && t'.info.numItems == t.info.numItems
      && Pushes(c.hashf, Now(t, v), add, Now(t', v')) && Continues(Now(t, v), Now(t', v'));
    filled
  }

  /** The bucket part of HASH_ADD_KEYPTR: hash, push, expand if asked for, mark in the filter. */
  method AddToTable(c: Config, t: State, add: Item, ghost v: View, ghost items: set<Item>)
    returns (t': State, ghost v': View)
    requires Awaits(c, t, v, items, add)
    modifies t.buckets, t.bloomBv, add`hashv, add`hhNext, add`hhPrev, items`hhNext, items`hhPrev
    ensures Holds(c, t', v', items + {add}) && Filled(c, t, v, t', v', add)
    ensures t'.buckets == t.buckets || fresh(t'.buckets)
  {
    add.hashv := c.hashf(add.val);
    var b := BucketFor(t.info, add.hashv);
    var info, buckets;
    ghost var chains, mults;
    info, buckets, chains, mults := AddToBkt(t.info, t.buckets, b, add, c.hashf, v.chains, v.mults, items);
    t' := t.(info := info, buckets := buckets);
    v' := v.(chains := chains, mults := mults, log := NextLog(t.info, info, chains, v.log));
    assert Pushes(c.hashf, Now(t, v), add, Now(t', v'));
    LoggedNext(c.hashf, Now(t, v), add, Now(t', v'));
    MarkInFilter(c, t', add, v', items);
  }

  /** The table that the next item goes into: this one, or a new one if there are no items. */
  ghost function Base(order: seq<Item>, m: Moment): Moment {
    if order == [] then Made() else m
  }

  /** What the list part leaves for the bucket part: the item is counted, but in no bucket yet. */
  ghost predicate Listed(c: Config, t: State, v: View, t': State, v': View, add: Item)
    reads t'.buckets, t'.bloomBv, ItemsOf(v.order)
  {
    && Awaits(c, t', v', ItemsOf(v.order), add) && t'.head != null
    && Now(t', v') == Base(v.order, Now(t, v)).Counting(|v.order| + 1)
  }

  /** The list part of HASH_ADD_KEYPTR, and the count. */
  method AddToList(c: Config, t: State, add: Item, ghost v: View) returns (t': State, ghost v': View)
    requires ValidTable(c, t, v) && add !in v.order
    modifies ItemsOf(v.order), add
    ensures Ordered(v.order + [add], t'.head, t'.tail) && Listed(c, t, v, t', v', add)
    ensures t'.buckets == t.buckets || fresh(t'.buckets)
    ensures t'.bloomBv == t.bloomBv || fresh(t'.bloomBv)
  {
    add.next := null;
    v' := v;
    if t.head == null {
      t', v' := AddFirst(c, add);
      assert v.order + [add] == [add] && ItemsOf(v.order) == {};
    } else {
      t' := AddNext(c, t, add, v);
    }
    ghost var before := t';
    t' := t'.(info := t'.info.(numItems := t'.info.numItems + 1));
    assert Awaits(c, t', v', ItemsOf(v.order), add) by {
      SetSize(v.order);
      CountedOne(c, before, v', ItemsOf(v.order), add);
    }
  }

  lemma CountedOne(c: Config, t: State, v: View, items: set<Item>, add: Item)
    requires Holds(c, t, v, items) && add !in items && t.info.numItems == |items|
    ensures Awaits(c, t.(info := t.info.(numItems := t.info.numItems + 1)), v, items, add)
  {
  }

  /**
   What adding a new key does: the item is last in order, and is pushed onto the table that was
   there or a new one.
   */
  ghost predicate Added(c: Config, t: State, v: View, t': State, v': View, add: Item) {
    && v'.order == v.order + [add] && v'.model == v.model[add.val := add]
    && Pushes(c.hashf, Base(v.order, Now(t, v)).Counting(|v.order| + 1), add, Now(t', v'))
    && if v.order == [] then t'.info == INITIAL.(numItems := 1) && v'.log == []
       else Continues(Now(t, v), Now(t', v'))
  }

  /** HASH_ADD_KEYPTR of an item whose key is not in the table. */
  method HashAdd(c: Config, t: State, add: Item, ghost v: View) returns (t': State, ghost v': View)
    requires ValidTable(c, t, v) && add.val !in v.model
    modifies t.buckets, t.bloomBv, ItemsOf(v.order), add
    ensures ValidTable(c, t', v') && Added(c, t, v, t', v', add)
    ensures t'.buckets == t.buckets || fresh(t'.buckets)
    ensures t'.bloomBv == t.bloomBv || fresh(t'.bloomBv)
  {
    ghost var items, order, m := ItemsOf(v.order), v.order + [add], v.model[add.val := add];
    assert add !in v.order && add !in items && |items| == |v.order|
        && ItemsOf(order) == items + {add} && Maps(m, ItemsOf(order)) by {
      ItemsGrow(v.order, v.model, add);
    }
    t', v' := AddToList(c, t, add, v);
    ghost var listed, view := t', v';
    t', v' := FinishAdd(c, t', add, v', items, order);
    assert ValidTable(c, t', v'.(order := order, model := m)) by {
      Assembled(c, t', v', order, m);
    }
    assert Added(c, t, v, t', v'.(order := order, model := m), add) by {
      AddedOn(c, t, v, listed, view, t', v', add);
    }
    v' := v'.(order := order, model := m);
  }

  method FinishAdd(c: Config, t: State, add: Item, ghost v: View, ghost items: set<Item>, ghost order: seq<Item>)
    returns (t': State, ghost v': View)
    requires Awaits(c, t, v, items, add) && Ordered(order, t.head, t.tail)
    modifies t.buckets, t.bloomBv, add`hashv, add`hhNext, add`hhPrev, items`hhNext, items`hhPrev
    ensures Ordered(order, t'.head, t'.tail) && Holds(c, t', v', items + {add}) && Filled(c, t, v, t', v', add)
    ensures t'.buckets == t.buckets || fresh(t'.buckets)
  {
    t', v' := AddToTable(c, t, add, v, items);
  }

  lemma AddedOn(c: Config, t: State, v: View, t': State, v': View, t'': State, v'': View, add: Item)
    requires Now(t', v') == Base(v.order, Now(t, v)).Counting(|v.order| + 1)
    requires Filled(c, t', v', t'', v'', add)
    ensures Added(c, t, v, t'', v''.(order := v.order + [add], model := v.model[add.val := add]), add)
  {
    if v.order == [] {
      FirstStays(c.hashf, add, Now(t'', v''));
    }
  }

  lemma ItemsGrow(order: seq<Item>, m: map<Key, Item>, add: Item)
    requires Distinct(order) && Maps(m, ItemsOf(order)) && add.val !in m
    ensures add !in order && add !in ItemsOf(order) && |ItemsOf(order)| == |order|
    ensures ItemsOf(order + [add]) == ItemsOf(order) + {add}
    ensures Maps(m[add.val := add], ItemsOf(order + [add]))
  {
    SetSize(order);
    assert add !in ItemsOf(order);
    assert ItemsOf(order + [add]) == ItemsOf(order) + {add};
    MapsGrow(m, ItemsOf(order), add);
  }

  lemma MapsGrow(m: map<Key, Item>, items: set<Item>, add: Item)
    requires Maps(m, items) && add.val !in m
    ensures Maps(m[add.val := add], items + {add})
  {
  }

  lemma {:induction false} SetSize<T>(s: seq<T>)
    requires Distinct(s)
    ensures |MergeSpec.Elements(s)| == |s|
  {
    if s != [] {
      SetSize(s[1..]);
      assert MergeSpec.Elements(s) == MergeSpec.Elements(s[1..]) + {s[0]};
    }
  }

  // ---------------------------------------------------------------- looking up

  /** HASH_FIND: the live item with this key, or NULL; the filter never changes the answer. */
  method HashFind(c: Config, t: State, key: Key, ghost v: View) returns (out: Elt?<Key>)
    requires ValidTable(c, t, v)
    ensures out == if key in v.model then v.model[key] else null
  {
    out := null;
    if t.head != null {
      var hashv := c.hashf(key);
      var b := BucketFor(t.info, hashv);
      ghost var items := ItemsOf(v.order);
      var hit := true;
      if c.bloom {
        hit := Bloom.Test(t.bloomBv, c.nbits, hashv);
      }
      if hit {
        out := FindInBkt(t.buckets, b, key, v.chains, items);
      }
      if key in v.model {
        assert v.model[key] in items && v.model[key] in v.chains[b];
      }
      assert out != null ==> out in items;
    } else {
      assert v.order == [];
    }
  }

  // ---------------------------------------------------------------- deleting

  /** The bucket part of HASH_DELETE. */
  method DeleteFromTable(c: Config, t: State, del: Item, ghost v: View, ghost items: set<Item>)
    returns (t': State, ghost v': View)
    requires Holds(c, t, v, items) && del in items && t.info.numItems > 0
    modifies t.buckets, items`hhNext, items`hhPrev
    ensures Holds(c, t', v', items - {del})
    ensures t' == t.(info := t.info.(numItems := t.info.numItems - 1)) && v' == v.(chains := v'.chains)
    ensures Now(t', v') == Pulls(c.hashf, Now(t, v), del, t.info.numItems - 1)
  {
    var b := BucketFor(t.info, del.hashv);
    DeleteFromBkt(t.info, t.buckets, b, del, c.hashf, v.chains, v.mults, items);
    t' := t.(info := t.info.(numItems := t.info.numItems - 1));
    v' := v.(chains := Pulled(v.chains, b, del));
    LoadOkPulled(t.info, t'.info, v.chains, v.mults, b, del);
  }

  /** HASH_DEL_IN_BKT on the right bucket. */
  method DeleteFromBkt(info: Info, buckets: array<Bucket>, b: nat, del: Item, ghost hashf: Key -> nat,
                       ghost chains: seq<seq<Item>>, ghost mults: seq<nat>, ghost items: set<Item>)
    requires Bucketed(hashf, info, buckets, chains, mults, items) && del in items
    requires info.numBuckets > 0 && b == Slot(del.hashv, info.numBuckets)
    modifies buckets, items`hhNext, items`hhPrev
    ensures b < |chains| && Distinct(chains[b])
            && Bucketed(hashf, info, buckets, Pulled(chains, b, del), mults, items - {del})
  {
    assert Apart(chains, b) by {
      SpreadApart(hashf, chains, items, b);
    }
    assert Spread(hashf, Pulled(chains, b, del), items - {del}) by {
      SpreadPulled(hashf, chains, items, b, del);
    }
    DelInBkt(buckets, b, del, chains, items);
    Rebuilt(hashf, info, buckets, Pulled(chains, b, del), mults, items - {del});
  }

  lemma LoadOkPulled(info: Info, info': Info, chains: seq<seq<Item>>, mults: seq<nat>, b: nat, x: Item)
    requires LoadOk(info, chains, mults) && info' == info.(numItems := info'.numItems)
    requires b < |chains| && Distinct(chains[b])
    ensures LoadOk(info', Pulled(chains, b, x), mults)
  {
    WithoutMembers(chains[b], x);
  }

  /**
   What deleting an item does: it leaves its chain, and no counter but the number of items changes,
   unless it was the last.
   */
  ghost predicate Deleted(c: Config, t: State, v: View, t': State, v': View, del: Item) {
    && v'.order == Without(v.order, del) && v'.model == v.model - {del.val}
    && (v'.order != [] ==> Now(t', v') == Pulls(c.hashf, Now(t, v), del, |v'.order|))
    && t'.buckets == t.buckets && t'.bloomBv == t.bloomBv
  }

  /** HASH_DELETE of an item that is in the table. */
  method HashDelete(c: Config, t: State, del: Item, ghost v: View) returns (t': State, ghost v': View)
    requires ValidTable(c, t, v) && del in v.order
    modifies t.buckets, ItemsOf(v.order)
    ensures ValidTable(c, t', v') && Deleted(c, t, v, t', v', del)
  {
    if del.prev == null && del.next == null {
      t', v' := t.(head := null), v.(order := [], model := map[]);
      OnlyItem(t, v, del);
    } else {
      t', v' := DeleteOther(c, t, del, v);
    }
  }

  /** The branch of HASH_DELETE for an item that is not the only one. */
  method DeleteOther(c: Config, t: State, del: Item, ghost v: View) returns (t': State, ghost v': View)
    requires ValidTable(c, t, v) && del in v.order && !(del.prev == null && del.next == null)
    modifies t.buckets, ItemsOf(v.order)
    ensures ValidTable(c, t', v') && Deleted(c, t, v, t', v', del)
  {
    ghost var items, order, m := ItemsOf(v.order), Without(v.order, del), v.model - {del.val};
    ghost var k :| 0 <= k < |v.order| && v.order[k] == del;
    assert order == v.order[..k] + v.order[k + 1..] && |order| == |v.order| - 1
        && ItemsOf(order) == items - {del} && Maps(m, ItemsOf(order)) by {
      ItemsShrink(v.order, v.model, del, k);
    }
    t' := RemoveFromList(c, t, del, v, k);
    t', v' := FinishDelete(c, t', del, v, items, order);
    assert ValidTable(c, t', v'.(order := order, model := m)) by {
      Assembled(c, t', v', order, m);
    }
    v' := v'.(order := order, model := m);
  }

  method RemoveFromList(c: Config, t: State, del: Item, ghost v: View, ghost k: nat) returns (t': State)
    requires t.head != null && ValidTable(c, t, v) && k < |v.order| && v.order[k] == del && |v.order| > 1
    modifies ItemsOf(v.order)`next, ItemsOf(v.order)`prev
    ensures Ordered(v.order[..k] + v.order[k + 1..], t'.head, t'.tail) && Holds(c, t', v, ItemsOf(v.order))
    ensures t' == t.(head := t'.head, tail := t'.tail)
  {
    var head, tail := RemoveItem(t.head, t.tail, del, v.order, k);
    t' := t.(head := head, tail := tail);
    assert Holds(c, t', v, ItemsOf(v.order)) by {
      HoldsSame(c, t, v, t', v, ItemsOf(v.order));
    }
  }

  method FinishDelete(c: Config, t: State, del: Item, ghost v: View, ghost items: set<Item>, ghost order: seq<Item>)
    returns (t': State, ghost v': View)
    requires Holds(c, t, v, items) && del in items && t.info.numItems == |order| + 1
    requires Ordered(order, t.head, t.tail) && ItemsOf(order) == items - {del}
    modifies t.buckets, items`hhNext, items`hhPrev
    ensures Ordered(order, t'.head, t'.tail) && Holds(c, t', v', ItemsOf(order))
    ensures t' == t.(info := t.info.(numItems := |order|)) && v' == v.(chains := v'.chains)
    ensures Now(t', v') == Pulls(c.hashf, Now(t, v), del, |order|)
  {
    t', v' := DeleteFromTable(c, t, del, v, items);
  }

  lemma OnlyItem(t: State, v: View, del: Item)
    requires Ordered(v.order, t.head, t.tail) && Maps(v.model, ItemsOf(v.order))
    requires del in v.order && del.prev == null && del.next == null
    ensures Without(v.order, del) == [] && v.model - {del.val} == map[]
  {
    var k :| 0 <= k < |v.order| && v.order[k] == del;
    assert k == 0 && |v.order| == 1;
    assert v.order[1..] == [];
    assert forall key | key in v.model :: v.model[key] in ItemsOf(v.order);
  }

  lemma ItemsShrink(order: seq<Item>, m: map<Key, Item>, del: Item, k: nat)
    requires Distinct(order) && k < |order| && order[k] == del && Maps(m, ItemsOf(order))
    ensures Without(order, del) == order[..k] + order[k + 1..] && |Without(order, del)| == |order| - 1
    ensures ItemsOf(Without(order, del)) == ItemsOf(order) - {del} && del in ItemsOf(order)
    ensures Maps(m - {del.val}, ItemsOf(Without(order, del)))
  {
    WithoutAt(order, del, k);
    WithoutMembers(order, del);
    var items := ItemsOf(order);
    assert del in items && m[del.val] == del;
    assert ItemsOf(Without(order, del)) == items - {del};
  }

  // ---------------------------------------------------------------- replacing

  ghost function OrderWithout(order: seq<Item>, x: Elt?<Key>): seq<Item> {
    if x == null then order
    else
      var y: Item := x;
      Without(order, y)
  }

  ghost predicate KeyDeleted(c: Config, t: State, v: View, t': State, v': View, key: Key, found: Elt?<Key>) {
    && found == (if key in v.model then v.model[key] else null)
    && v'.order == OrderWithout(v.order, found) && v'.model == v.model - {key}
    && (v'.order != [] ==> Now(t', v') == Pulls(c.hashf, Now(t, v), found, |v'.order|))
    && t'.buckets == t.buckets && t'.bloomBv == t.bloomBv
  }

  /** HASH_FIND, then HASH_DELETE of what was found. */
  method FindAndDelete(c: Config, t: State, key: Key, ghost v: View)
    returns (t': State, ghost v': View, found: Elt?<Key>)
    requires ValidTable(c, t, v)
    modifies t.buckets, ItemsOf(v.order)
    ensures ValidTable(c, t', v') && KeyDeleted(c, t, v, t', v', key, found)
  {
    t', v' := t, v;
    found := HashFind(c, t, key, v);
    if found != null {
      var r: Item := found;
      InOrder(v.order, v.model, key);
      t', v' := HashDelete(c, t, r, v);
    } else {
      assert v.model - {key} == v.model;
    }
  }

  lemma InOrder(order: seq<Item>, m: map<Key, Item>, key: Key)
    requires Maps(m, ItemsOf(order)) && key in m
    ensures m[key] in order && m[key].val == key
  {
  }

  /** What replacing does: the item that had the key is deleted, and the new one is added. */
  ghost predicate Replaced(c: Config, t: State, v: View, t': State, v': View, add: Item, replaced: Elt?<Key>) {
    var rest := OrderWithout(v.order, replaced);
    var before := Base(rest, Pulls(c.hashf, Now(t, v), replaced, |rest|));
    && replaced == (if add.val in v.model then v.model[add.val] else null)
    && v'.order == rest + [add] && v'.model == v.model[add.val := add]
    && Pushes(c.hashf, before.Counting(|rest| + 1), add, Now(t', v'))
    && if rest == [] then t'.info == INITIAL.(numItems := 1) && v'.log == []
       else Continues(Now(t, v), Now(t', v'))
  }

  /** HASH_REPLACE. */
  method HashReplace(c: Config, t: State, add: Item, ghost v: View)
    returns (t': State, ghost v': View, replaced: Elt?<Key>)
    requires ValidTable(c, t, v)
    modifies t.buckets, t.bloomBv, ItemsOf(v.order), add
    ensures ValidTable(c, t', v') && Replaced(c, t, v, t', v', add, replaced)
    ensures t'.buckets == t.buckets || fresh(t'.buckets)
    ensures t'.bloomBv == t.bloomBv || fresh(t'.bloomBv)
  {
    t', v', replaced := FindAndDelete(c, t, add.val, v);
    assert ItemsOf(v'.order) <= ItemsOf(v.order) by {
      OrderWithoutMembers(v.order, replaced);
    }
    ghost var state, view := t', v';
    t', v' := HashAdd(c, t', add, v');
    RemovedThenAdded(c, t, v, state, view, t', v', add, replaced);
  }

  lemma RemovedThenAdded(c: Config, t: State, v: View, t': State, v': View, t'': State, v'': View, add: Item,
                         replaced: Elt?<Key>)
    requires KeyDeleted(c, t, v, t', v', add.val, replaced) && Added(c, t', v', t'', v'', add)
    ensures Replaced(c, t, v, t'', v'', add, replaced)
  {
    RemovedThenSet(v.model, add.val, add);
  }

  lemma RemovedThenSet<K, V>(m: map<K, V>, k: K, v: V)
    ensures (m - {k})[k := v] == m[k := v]
  {
  }

  lemma OrderWithoutMembers(order: seq<Item>, x: Elt?<Key>)
    ensures ItemsOf(OrderWithout(order, x)) <= ItemsOf(order)
  {
    if x != null {
      var y: Item := x;
      WithoutSubset(order, y);
    }
  }

  // ---------------------------------------------------------------- sorting

  ghost predicate Reordered(t: State, v: View, t': State, v': View, cmp: MergeSpec.Cmp<Item>) {
    && t' == t.(head := t'.head, tail := t'.tail)
    && v' == v.(order := MergeSpec.Sort(cmp, v.order))
  }

  /** The sweeps over the list, and the calls of cmp; an empty table is not looked at. */
  ghost predicate SortCost(cmp: MergeSpec.Cmp<Item>, order: seq<Item>, sweeps: nat, calls: nat) {
    if order == [] then sweeps == calls == 0
    else sweeps == MergeSpec.Sweeps(|order|, 1) && calls == MergeSpec.SortCalls(cmp, order, 1)
  }

  /** HASH_SRT: only the application order changes. */
  method HashSort(c: Config, t: State, cmp: MergeSpec.Cmp<Item>, ghost v: View)
    returns (t': State, ghost v': View, ghost sweeps: nat, ghost calls: nat)
    requires ValidTable(c, t, v)
    modifies ItemsOf(v.order)`next, ItemsOf(v.order)`prev
    ensures ValidTable(c, t', v') && Reordered(t, v, t', v', cmp) && SortCost(cmp, v.order, sweeps, calls)
  {
    t', v', sweeps, calls := t, v, 0, 0;
    if t.head != null {
      var head, tail;
      ghost var order;
      head, tail, order, sweeps, calls := SortItems(cmp, t.head, t.tail, v.order);
      t', v' := t.(head := head, tail := tail), v.(order := order);
      assert ValidTable(c, t', v') by {
        HoldsSame(c, t, v, t', v, ItemsOf(order));
        Assembled(c, t', v, order, v.model);
      }
    }
  }

  // ---------------------------------------------------------------- the table as an object

  /** The caller's head pointer and its table. */
  class Table {
    const c: Config
    var t: State
    ghost var v: View

    ghost predicate Valid()
      reads this, t.buckets, t.bloomBv, ItemsOf(v.order)
    {
      ValidTable(c, t, v)
    }

    constructor (c: Config)
      ensures Valid() && this.c == c && v.order == [] && v.model == map[]
      ensures fresh(t.buckets) && fresh(t.bloomBv)
    {
      this.c := c;
      var buckets := new Bucket[0];
      var bv := new bv8[0];
      t, v := State(null, null, INITIAL, buckets, bv), View([], map[], [], [], []);
    }

    /** The macros assign to the caller's variables. */
    method Put(t': State, ghost v': View)
      requires ValidTable(c, t', v')
      modifies this
      ensures Valid() && t == t' && v == v'
    {
      t, v := t', v';
    }

    /** HASH_ADD; the key must be new. */
    method Add(add: Item)
      requires Valid() && add.val !in v.model
      modifies this, t.buckets, t.bloomBv, ItemsOf(v.order), add
      ensures Valid() && Added(c, old(t), old(v), t, v, add)
      ensures t.buckets == old(t.buckets) || fresh(t.buckets)
      ensures t.bloomBv == old(t.bloomBv) || fresh(t.bloomBv)
    {
      var after;
      ghost var view;
      after, view := HashAdd(c, t, add, v);
      Put(after, view);
    }

    /** HASH_FIND. */
    method Find(key: Key) returns (out: Elt?<Key>)
      requires Valid()
      ensures out == if key in v.model then v.model[key] else null
    {
      out := HashFind(c, t, key, v);
    }

    /** HASH_DELETE. */
    method Delete(del: Item)
      requires Valid() && del in v.order
      modifies this, t.buckets, ItemsOf(v.order)
      ensures Valid() && Deleted(c, old(t), old(v), t, v, del)
    {
      var after;
      ghost var view;
      after, view := HashDelete(c, t, del, v);
      Put(after, view);
    }

    /** HASH_FIND, then HASH_DELETE of what was found. */
    method DeleteKey(key: Key) returns (found: Elt?<Key>)
      requires Valid()
      modifies this, t.buckets, ItemsOf(v.order)
      ensures Valid() && KeyDeleted(c, old(t), old(v), t, v, key, found)
    {
      found := Find(key);
      if found != null {
        InOrder(v.order, v.model, key);
        var r: Item := found;
        Delete(r);
      } else {
        assert v.model - {key} == v.model;
      }
    }

    /** HASH_REPLACE: the item that held the key before, if any, is handed back. */
    method Replace(add: Item) returns (replaced: Elt?<Key>)
      requires Valid()
      modifies this, t.buckets, t.bloomBv, ItemsOf(v.order), add
      ensures Valid() && Replaced(c, old(t), old(v), t, v, add, replaced)
      ensures t.buckets == old(t.buckets) || fresh(t.buckets)
      ensures t.bloomBv == old(t.bloomBv) || fresh(t.bloomBv)
    {
      var after;
      ghost var view;
      after, view, replaced := HashReplace(c, t, add, v);
      Put(after, view);
    }

    /** HASH_SRT. */
    method Sort(cmp: MergeSpec.Cmp<Item>) returns (ghost sweeps: nat, ghost calls: nat)
      requires Valid()
      modifies this, ItemsOf(v.order)
      ensures Valid() && Reordered(old(t), old(v), t, v, cmp) && SortCost(cmp, old(v.order), sweeps, calls)
    {
      var after;
      ghost var view;
      after, view, sweeps, calls := HashSort(c, t, cmp, v);
      Put(after, view);
    }
  }
}
