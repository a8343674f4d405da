/** The counters of a hash table, what an expansion does to them, and the expansions of one table in order. */
module Expansions {
  import opened Arith
  import opened Elements
  import opened Load
  import opened Buckets

  /** The counters of UT_hash_table. */
  datatype Info = Info(numBuckets: nat, log2NumBuckets: nat, numItems: nat, idealChainMaxlen: nat,
                       nonidealItems: nat, ineffExpands: nat, noexpand: nat)

  const INITIAL: Info := Info(32, 5, 0, 0, 0, 0, 0)

  /** What an expansion does to the counters. */
  ghost predicate Expanded(before: Info, after: Info, chains: seq<seq<Item>>) {
    && after.numBuckets == 2 * before.numBuckets && after.log2NumBuckets == before.log2NumBuckets + 1
    && after.numItems == before.numItems
    && after.numBuckets > 0 && after.idealChainMaxlen == CeilDiv(after.numItems, after.numBuckets)
    && after.nonidealItems == Nonideal(chains, after.idealChainMaxlen)
    && after.ineffExpands == (if after.nonidealItems > after.numItems / 2 then before.ineffExpands + 1 else 0)
    && after.noexpand == (if after.ineffExpands > 1 then 1 else before.noexpand)
  }

  /** The counters after an expansion, and whether to give up expanding (uthash.h:702-710). */
  function AfterExpand(info: Info, ideal: nat, nonideal: nat): Info {
    var ineff := if nonideal > ShiftRight(info.numItems, 1) then info.ineffExpands + 1 else 0;
    Info(info.numBuckets * 2, info.log2NumBuckets + 1, info.numItems, ideal, nonideal, ineff,
         if ineff > 1 then 1 else info.noexpand)
  }

  // ---------------------------------------------------------------- the expansions of one table

  /** One expansion in the life of a table. */
  datatype Expansion = Expansion(before: Info, after: Info, chains: seq<seq<Item>>)

  /**
   The expansions of one table, in order: it starts with the counters of HASH_MAKE_TABLE, only the
   number of items changes between two expansions, and none happens once noexpand is set.
   */
  ghost predicate IsHistory(es: seq<Expansion>) {
    && (forall i {:trigger es[i]} | 0 <= i < |es| ::
         es[i].before.noexpand != 1 && Expanded(es[i].before, es[i].after, es[i].chains))
    && (es != [] ==> es[0].before == INITIAL.(numItems := es[0].before.numItems))
    && forall i {:trigger es[i].after} | 0 <= i < |es| - 1 ::
         es[i + 1].before == es[i].after.(numItems := es[i + 1].before.numItems)
  }

  /** More than half of the items lie beyond the ideal length of their chains. */
  ghost predicate Ineffective(e: Expansion) {
    Nonideal(e.chains, e.after.idealChainMaxlen) > e.after.numItems / 2
  }

  /** noexpand is set exactly by the second of two expansions in a row that were ineffective. */
  lemma {:induction false} NoexpandExactly(es: seq<Expansion>)
    requires IsHistory(es) && es != []
    ensures var n, last := |es|, es[|es| - 1];
            && last.after.noexpand == (if n >= 2 && Ineffective(es[n - 2]) && Ineffective(last) then 1 else 0)
            && last.after.ineffExpands ==
               (if !Ineffective(last) then 0 else if n >= 2 && Ineffective(es[n - 2]) then 2 else 1)
  {
    var n := |es|;
    assert es[n - 1].before.noexpand != 1;
    if n >= 2 {
      NoexpandExactly(es[..n - 1]);
      assert es[..n - 1][n - 2] == es[n - 2];
      assert es[n - 1].before == es[n - 2].after.(numItems := es[n - 1].before.numItems);
    }
  }

  /** The counters that the last expansion left, or those of HASH_MAKE_TABLE. */
  ghost function Latest(log: seq<Expansion>): Info {
    if log == [] then INITIAL else log[|log| - 1].after
  }

  /** The counters come from these expansions; only the number of items has changed since. */
  ghost predicate Logged(info: Info, log: seq<Expansion>) {
    IsHistory(log) && info == Latest(log).(numItems := info.numItems)
  }

  /** The two last expansions of the log were both ineffective. */
  ghost predicate GivenUp(log: seq<Expansion>) {
    |log| >= 2 && Ineffective(log[|log| - 2]) && Ineffective(log[|log| - 1])
  }

  /** noexpand is 1 if the table has given up, and 0 otherwise; each expansion has doubled the buckets. */
  lemma {:induction false} LoggedCounters(info: Info, log: seq<Expansion>)
    requires Logged(info, log)
    ensures info.noexpand == (if GivenUp(log) then 1 else 0)
    ensures info.log2NumBuckets == 5 + |log| && info.numBuckets == 32 * Pow2(|log|)
    decreases |log|
  {
    if log != [] {
      NoexpandExactly(log);
      var front, last := log[..|log| - 1], log[|log| - 1];
      assert last.before == Latest(front).(numItems := last.before.numItems);
      LoggedCounters(last.before, front);
    }
  }

  // ---------------------------------------------------------------- what the operations do to a table

  /** A table at some time: its counters, its expansions until then, its chains, and the expand_mult of its buckets. */
  datatype Moment = Moment(info: Info, log: seq<Expansion>, chains: seq<seq<Item>>, mults: seq<nat>) {
    ghost function Counting(n: nat): Moment {
      this.(info := info.(numItems := n))
    }
  }

  /** What HASH_MAKE_TABLE makes. */
  ghost function Made(): Moment {
    Moment(INITIAL, [], seq(32, b => []), seq(32, b => 0))
  }

  /** Expansions are only added, and once noexpand is 1 nothing but the number of items changes. */
  ghost predicate Continues(m: Moment, m': Moment) {
    && m.log <= m'.log
    && (m.info.noexpand == 1 ==> m'.info == m.info.(numItems := m'.info.numItems) && m'.log == m.log)
  }

  lemma ContinuesOn(m: Moment, m': Moment, m'': Moment)
    requires Continues(m, m') && Continues(m', m'')
    ensures Continues(m, m'')
  {
  }

  /** One more item in bucket b makes the table expand. */
  ghost predicate Expands(info: Info, chains: seq<seq<Item>>, mults: seq<nat>, b: nat) {
    && info.noexpand != 1 && b < |chains| && b < |mults|
    && |chains[b]| + 1 >= (mults[b] + 1) * THRESH
  }

  /**
   HASH_ADD_TO_BKT: the item goes to the front of its chain, and the table expands exactly if that
   fills the bucket.
   */
  ghost predicate PushedOn(info: Info, chains: seq<seq<Item>>, mults: seq<nat>, b: nat, add: Item,
                           info': Info, chains': seq<seq<Item>>, mults': seq<nat>) {
    && b < |chains|
    && if Expands(info, chains, mults, b) then
         Expanded(info, info', chains') && Remeasured(chains', mults', info'.idealChainMaxlen)
       else
         info' == info && chains' == Pushed(chains, b, add) && mults' == mults
  }

  /** The expansions after an item was pushed: one more if the counters changed. */
  ghost function NextLog(info: Info, info': Info, chains: seq<seq<Item>>, log: seq<Expansion>): seq<Expansion> {
    if info' == info then log else log + [Expansion(info, info', chains)]
  }

  /** An item that is counted already is pushed onto the chain of its slot. */
  ghost predicate Pushes(hashf: Key -> nat, m: Moment, add: Item, m': Moment) {
    && m.chains != []
    && PushedOn(m.info, m.chains, m.mults, Slot(hashf(add.val), |m.chains|), add, m'.info, m'.chains, m'.mults)
    && m'.log == NextLog(m.info, m'.info, m'.chains, m.log)
  }

  /** Pushing an item keeps the counters those of the log. */
  lemma LoggedNext(hashf: Key -> nat, m: Moment, add: Item, m': Moment)
    requires Logged(m.info, m.log) && Pushes(hashf, m, add, m')
    ensures Logged(m'.info, m'.log) && Continues(m, m') && m'.info.numItems == m.info.numItems
  {
    if m'.info != m.info {
      HistoryGrows(m.log, m.info, m'.info, m'.chains);
    }
  }

  lemma HistoryGrows(log: seq<Expansion>, before: Info, after: Info, chains: seq<seq<Item>>)
    requires Logged(before, log) && before.noexpand != 1 && Expanded(before, after, chains)
    ensures Logged(after, log + [Expansion(before, after, chains)])
  {
    var next := log + [Expansion(before, after, chains)];
    assert forall i {:trigger next[i]} | 0 <= i < |log| :: next[i] == log[i];
  }

  /** The first item of a table does not expand it. */
  lemma FirstStays(hashf: Key -> nat, add: Item, m: Moment)
    requires Pushes(hashf, Made().Counting(1), add, m)
    ensures m.info == Info(32, 5, 1, 0, 0, 0, 0) && m.log == []
  {
  }

  /**
   The multipliers after an addition that expanded the table: 0 for a bucket that is not over the ideal
   length, and otherwise how many times over the bucket holds it.
   */
  lemma ExpandedMults(hashf: Key -> nat, m: Moment, add: Item, m': Moment, b: nat)
    requires Pushes(hashf, m, add, m') && m'.log != m.log && b < |m'.chains|
    ensures |m'.mults| == |m'.chains|
    ensures var count, mult, ideal := |m'.chains[b]|, m'.mults[b], m'.info.idealChainMaxlen;
            && (count <= ideal ==> mult == 0)
            && (count > ideal ==> ideal * mult <= count < ideal * mult + ideal)
  {
    assert IsMult(|m'.chains[b]|, m'.info.idealChainMaxlen, m'.mults[b]);
  }

  /** An item, if there is one, leaves the chain of its slot, so that n are left. */
  ghost function Pulls(hashf: Key -> nat, m: Moment, x: Elt?<Key>, n: nat): Moment {
    if x == null || m.chains == [] then m.Counting(n)
    else
      var y: Item := x;
      m.Counting(n).(chains := Pulled(m.chains, Slot(hashf(y.val), |m.chains|), y))
  }
}
