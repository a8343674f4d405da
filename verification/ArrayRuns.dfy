/** Whole runs of a utarray: any sequence of operations, and what growing costs over all of them. */
module ArrayRuns {
  import opened Arith
  import opened UtArray

  /** The operations. Other arrays are named by their position in a list; PutSelf and CatSelf take the array itself. */
  datatype Op<T> =
    | Push(x: T)
    | Pop
    | Extend
    | Size(num: nat)
    | Room(more: nat)
    | Put(x: T, j: nat)
    | PutArray(k: nat, j: nat)
    | PutSelf(j: nat)
    | Cat(k: nat)
    | CatSelf
    | Cut(pos: nat, len: nat)
    | Empty

  // ---------------------------------------------------------------- the specification: a sequence

  /** What the operations ask of the array s and of the other arrays' contents. */
  predicate Meets<T>(s: seq<T>, op: Op<T>, us: seq<seq<T>>) {
    match op
    case Pop => s != []
    case PutArray(k, _) => k < |us|
    case PutSelf(j) => s == [] || j >= |s|
    case Cat(k) => k < |us|
    case Cut(_, len) => len <= |s| && len < 0x1_0000_0000
    case _ => true
  }

  ghost function Applied<T>(s: seq<T>, op: Op<T>, us: seq<seq<T>>, zero: T): seq<T>
    requires Meets(s, op, us)
  {
    match op
    case Push(x) => s + [x]
    case Pop => s[..|s| - 1]
    case Extend => s + [zero]
    case Size(num) => Resized(s, num, zero)
    case Room(_) => s
    case Put(x, j) => Inserted(s, [x], j, zero)
    case PutArray(k, j) => if us[k] == [] then s else Inserted(s, us[k], j, zero)
    case PutSelf(j) => if s == [] then s else Inserted(s, Padded(s, j, zero), j, zero)
    case Cat(k) => s + us[k]
    case CatSelf => s + s
    case Cut(pos, len) => Erased(s, pos, len)
    case Empty => []
  }

  ghost predicate MeetsAll<T>(s: seq<T>, ops: seq<Op<T>>, us: seq<seq<T>>, zero: T)
    decreases |ops|
  {
    ops != [] ==> Meets(s, ops[0], us) && MeetsAll(Applied(s, ops[0], us, zero), ops[1..], us, zero)
  }

  ghost function AppliedAll<T>(s: seq<T>, ops: seq<Op<T>>, us: seq<seq<T>>, zero: T): seq<T>
    requires MeetsAll(s, ops, us, zero)
    decreases |ops|
  {
    if ops == [] then s else AppliedAll(Applied(s, ops[0], us, zero), ops[1..], us, zero)
  }

  /** The length that the operation makes room for. */
  ghost function Reach<T>(s: seq<T>, op: Op<T>, us: seq<seq<T>>, zero: T): nat
    requires Meets(s, op, us)
  {
    if op.Room? then |s| + op.more else |Applied(s, op, us, zero)|
  }

  /** The largest length reached in the run, or that room was asked for. */
  ghost function Longest<T>(s: seq<T>, ops: seq<Op<T>>, us: seq<seq<T>>, zero: T): nat
    requires MeetsAll(s, ops, us, zero)
    decreases |ops|
  {
    if ops == [] then |s|
    else Max(Max(|s|, Reach(s, ops[0], us, zero)), Longest(Applied(s, ops[0], us, zero), ops[1..], us, zero))
  }

  // ---------------------------------------------------------------- the array

  /** The other arrays hold us, and none of them is a or shares its block. */
  ghost predicate Others<T(0)>(a: GrowArray<T>, others: seq<GrowArray<T>>, us: seq<seq<T>>)
    reads a, others, set w | w in others :: w.d
  {
    && |others| == |us|
    && forall k {:trigger others[k]} | 0 <= k < |us| ::
         others[k] != a && others[k].d != a.d && others[k].Valid() && others[k].Contents() == us[k]
  }

  /** The operations that take another array, or the array itself. */
  method StepArray<T(0)>(a: GrowArray<T>, op: Op<T>, others: seq<GrowArray<T>>, ghost us: seq<seq<T>>)
    requires op.PutArray? || op.PutSelf? || op.Cat? || op.CatSelf?
    requires a.Valid() && Others(a, others, us) && Meets(a.Contents(), op, us)
    modifies a, a.d
    ensures a.Valid() && a.Contents() == Applied(old(a.Contents()), op, us, a.zero)
    ensures a.growth.peak == Max(old(a.growth.peak), Reach(old(a.Contents()), op, us, a.zero))
    ensures a.d == old(a.d) || fresh(a.d)
  {
    match op
    case PutArray(k, j) => a.InsertArray(others[k], j);
    case PutSelf(j) => a.InsertArray(a, j);
    case Cat(k) => a.Concat(others[k]);
    case CatSelf => a.Concat(a);
  }

  method Step<T(0)>(a: GrowArray<T>, op: Op<T>, others: seq<GrowArray<T>>, ghost us: seq<seq<T>>)
    requires a.Valid() && Others(a, others, us) && Meets(a.Contents(), op, us)
    modifies a, a.d
    ensures a.Valid() && a.Contents() == Applied(old(a.Contents()), op, us, a.zero)
    ensures a.growth.peak == Max(old(a.growth.peak), Reach(old(a.Contents()), op, us, a.zero))
    ensures a.d == old(a.d) || fresh(a.d)
  {
    match op
    case Push(x) => a.PushBack(x);
    case Pop => a.PopBack();
    case Extend => a.ExtendBack();
    case Size(num) => a.Resize(num);
    case Room(more) => a.Reserve(more);
    case Put(x, j) => a.Insert(x, j);
    case Cut(pos, len) => a.Erase(pos, len);
    case Empty => a.Clear();
    case _ => StepArray(a, op, others, us);
  }

  /** One operation after another: the contents are those of the specification, and so is the largest length. */
  method RunFrom<T(0)>(a: GrowArray<T>, ops: seq<Op<T>>, others: seq<GrowArray<T>>, ghost us: seq<seq<T>>)
    requires a.Valid() && Others(a, others, us) && MeetsAll(a.Contents(), ops, us, a.zero)
    modifies a, a.d
    ensures a.Valid() && a.Contents() == AppliedAll(old(a.Contents()), ops, us, a.zero)
    ensures a.growth.peak == Max(old(a.growth.peak), Longest(old(a.Contents()), ops, us, a.zero))
    ensures a.d == old(a.d) || fresh(a.d)
    decreases |ops|
  {
    if ops != [] {
      Step(a, ops[0], others, us);
      RunFrom(a, ops[1..], others, us);
    }
  }

  /**
   Any run from a new array: growing has moved at most twice as many elements as the largest length
   reached, and the capacity is at most twice that length, or 8.
   */
  method Run<T(0)>(zero: T, ops: seq<Op<T>>, others: seq<GrowArray<T>>, ghost us: seq<seq<T>>) returns (a: GrowArray<T>)
    requires |others| == |us|
    requires forall k {:trigger others[k]} | 0 <= k < |us| :: others[k].Valid() && others[k].Contents() == us[k]
    requires MeetsAll([], ops, us, zero)
    ensures fresh(a) && a.Valid() && a.Contents() == AppliedAll([], ops, us, zero)
    ensures var longest := Longest([], ops, us, zero);
            a.growth.moved <= 2 * longest && a.growth.cap == a.d.Length <= Max(8, 2 * longest)
  {
    a := new GrowArray(zero);
    RunFrom(a, ops, others, us);
  }
}
