/** Whole runs of a uthash table: any sequence of operations, started from no table at all. */
module HashRuns {
  import opened Arith
  import opened Elements
  import opened Load
  import opened Buckets
  import opened Expansions
  import opened UtHash
  import MergeSpec

  /**
   What a program can do with its table: HASH_REPLACE (which is HASH_ADD when the key is new),
   HASH_FIND followed by HASH_DELETE, HASH_FIND, and HASH_SRT with any comparison.
   */
  datatype Op =
    | Put(item: Item)
    | Del(key: Key)
    | Get(key: Key)
    | SortBy(cmp: MergeSpec.Cmp<Item>)

  // ---------------------------------------------------------------- the specification: a plain map

  ghost function MapStep(m: map<Key, Item>, op: Op): map<Key, Item> {
    match op
    case Put(x) => m[x.val := x]
    case Del(k) => m - {k}
    case Get(_) => m
    case SortBy(_) => m
  }

  /** What the operation reports: the item that had the key before it. */
  ghost function MapAnswer(m: map<Key, Item>, op: Op): Elt?<Key> {
    match op
    case Put(x) => if x.val in m then m[x.val] else null
    case Del(k) => if k in m then m[k] else null
    case Get(k) => if k in m then m[k] else null
    case SortBy(_) => null
  }

  ghost function MapRun(m: map<Key, Item>, ops: seq<Op>): map<Key, Item>
    decreases |ops|
  {
    if ops == [] then m else MapRun(MapStep(m, ops[0]), ops[1..])
  }

  ghost function MapAnswers(m: map<Key, Item>, ops: seq<Op>): seq<Elt?<Key>>
    decreases |ops|
  {
    if ops == [] then [] else [MapAnswer(m, ops[0])] + MapAnswers(MapStep(m, ops[0]), ops[1..])
  }

  // ---------------------------------------------------------------- the order the items are kept in

  ghost function OrderStep(order: seq<Item>, m: map<Key, Item>, op: Op): seq<Item> {
    match op
    case Put(x) => OrderWithout(order, MapAnswer(m, op)) + [x]
    case Del(_) => OrderWithout(order, MapAnswer(m, op))
    case Get(_) => order
    case SortBy(cmp) => MergeSpec.Sort(cmp, order)
  }

  ghost function OrderRun(order: seq<Item>, m: map<Key, Item>, ops: seq<Op>): seq<Item>
    decreases |ops|
  {
    if ops == [] then order else OrderRun(OrderStep(order, m, ops[0]), MapStep(m, ops[0]), ops[1..])
  }

  /**
   What is left of the items once the operation has taken out what it takes out; nothing left means
   that the table is freed.
   */
  ghost function Remaining(order: seq<Item>, m: map<Key, Item>, op: Op): seq<Item> {
    match op
    case Put(_) => OrderWithout(order, MapAnswer(m, op))
    case Del(_) => OrderWithout(order, MapAnswer(m, op))
    case Get(_) => order
    case SortBy(_) => order
  }

  // ---------------------------------------------------------------- one operation

  ghost function ItemsIn(ops: seq<Op>): set<Item> {
    set op | op in ops && op.Put? :: op.item
  }

  method Step(tbl: Table, op: Op) returns (answer: Elt?<Key>)
    requires tbl.Valid()
    modifies tbl, tbl.t.buckets, tbl.t.bloomBv, ItemsOf(tbl.v.order), (if op.Put? then {op.item} else {})
    ensures tbl.Valid() && tbl.v.model == MapStep(old(tbl.v.model), op)
    ensures tbl.v.order == OrderStep(old(tbl.v.order), old(tbl.v.model), op)
    ensures answer == MapAnswer(old(tbl.v.model), op)
    ensures Remaining(old(tbl.v.order), old(tbl.v.model), op) != [] ==>
            Continues(old(Now(tbl.t, tbl.v)), Now(tbl.t, tbl.v))
    ensures tbl.t.buckets == old(tbl.t.buckets) || fresh(tbl.t.buckets)
    ensures tbl.t.bloomBv == old(tbl.t.bloomBv) || fresh(tbl.t.bloomBv)
  {
    match op
    case Put(x) => answer := tbl.Replace(x);
    case Del(k) => answer := tbl.DeleteKey(k);
    case Get(k) => answer := tbl.Find(k);
    case SortBy(cmp) =>
      ghost var sweeps, calls := tbl.Sort(cmp);
      answer := null;
  }

  // ---------------------------------------------------------------- whole runs

  /** No operation takes out the last item, with which the table would be freed. */
  ghost predicate Lives(order: seq<Item>, m: map<Key, Item>, ops: seq<Op>)
    decreases |ops|
  {
    ops != [] ==>
      && Remaining(order, m, ops[0]) != []
      && Lives(OrderStep(order, m, ops[0]), MapStep(m, ops[0]), ops[1..])
  }

  /**
   Runs the operations on any valid table. Every answer is the one the plain map gives, the table
   stands for the final map and order, and as long as it is not freed it goes on from what it was:
   its expansions are only added to, and a table that has given up expanding stays as large as it is.
   */
  method RunFrom(tbl: Table, ops: seq<Op>) returns (answers: seq<Elt?<Key>>)
    requires tbl.Valid()
    modifies tbl, tbl.t.buckets, tbl.t.bloomBv, ItemsOf(tbl.v.order), ItemsIn(ops)
    ensures tbl.Valid() && answers == MapAnswers(old(tbl.v.model), ops)
    ensures tbl.v.model == MapRun(old(tbl.v.model), ops)
    ensures tbl.v.order == OrderRun(old(tbl.v.order), old(tbl.v.model), ops)
    ensures Lives(old(tbl.v.order), old(tbl.v.model), ops) ==> Continues(old(Now(tbl.t, tbl.v)), Now(tbl.t, tbl.v))
    ensures tbl.t.buckets == old(tbl.t.buckets) || fresh(tbl.t.buckets)
    ensures tbl.t.bloomBv == old(tbl.t.bloomBv) || fresh(tbl.t.bloomBv)
    decreases |ops|
  {
    answers := [];
    if ops != [] {
      ghost var order, m, before := tbl.v.order, tbl.v.model, Now(tbl.t, tbl.v);
      FirstItem(ops);
      var answer := Step(tbl, ops[0]);
      StepMembers(order, m, ops[0]);
      ghost var mid := Now(tbl.t, tbl.v);
      answers := RunFrom(tbl, ops[1..]);
      answers := [answer] + answers;
      if Lives(order, m, ops) {
        ContinuesOn(before, mid, Now(tbl.t, tbl.v));
      }
    }
  }

  /**
   Runs the operations from no table at all. Unless expansion was given up as useless the final
   table holds fewer than 20 items per bucket, and it was given up if and only if its last two
   expansions were ineffective.
   */
  method Run(c: Config, ops: seq<Op>) returns (tbl: Table, answers: seq<Elt?<Key>>)
    modifies ItemsIn(ops)
    ensures fresh(tbl) && fresh(tbl.t.buckets) && fresh(tbl.t.bloomBv) && tbl.Valid() && tbl.c == c
    ensures answers == MapAnswers(map[], ops)
    ensures tbl.v.model == MapRun(map[], ops) && tbl.v.order == OrderRun([], map[], ops)
    ensures tbl.t.head != null && tbl.t.info.noexpand == 0 ==> tbl.t.info.numItems < 20 * tbl.t.info.numBuckets
    ensures tbl.t.head != null ==> (tbl.t.info.noexpand == 1 <==> GivenUp(tbl.v.log))
  {
    tbl := new Table(c);
    answers := RunFrom(tbl, ops);
    WellLoaded(tbl.c, tbl.t, tbl.v);
  }

  lemma FirstItem(ops: seq<Op>)
    requires ops != []
    ensures (if ops[0].Put? then {ops[0].item} else {}) <= ItemsIn(ops) && ItemsIn(ops[1..]) <= ItemsIn(ops)
  {
    assert ops[0] in ops;
  }

  /** An operation leaves no items but those there were and the one it puts. */
  lemma StepMembers(order: seq<Item>, m: map<Key, Item>, op: Op)
    ensures ItemsOf(OrderStep(order, m, op)) <= ItemsOf(order) + (if op.Put? then {op.item} else {})
  {
    match op
    case Put(_) => OrderWithoutMembers(order, MapAnswer(m, op));
    case Del(_) => OrderWithoutMembers(order, MapAnswer(m, op));
    case Get(_) =>
    case SortBy(cmp) =>
      MergeSpec.SortPermutes(cmp, order);
      MergeSpec.SameElements(MergeSpec.Sort(cmp, order), order);
  }

  /** In a valid table that still expands, fewer than 2 * THRESH items fall on a bucket on average. */
  lemma WellLoaded(c: Config, t: State, v: View)
    requires ValidTable(c, t, v)
    ensures t.head != null && t.info.noexpand == 0 ==> t.info.numItems < 2 * THRESH * t.info.numBuckets
    ensures t.head != null ==> t.info.idealChainMaxlen <= THRESH
    ensures t.head != null ==> Logged(t.info, v.log) && t.info.noexpand == (if GivenUp(v.log) then 1 else 0)
    ensures t.head != null ==> t.info.numBuckets == 32 * Pow2(|v.log|)
  {
    if t.head != null {
      LoggedCounters(t.info, v.log);
    }
    if t.head != null && t.info.noexpand == 0 {
      LoadBound(v.chains, v.mults);
      SetSize(v.order);
    }
  }
}
