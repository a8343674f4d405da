/**
 The structs that the macros of utlist.h and uthash.h are applied to. One class
 stands for any such struct: it has the list links (next, prev), the bucket
 links of a hash handle (hhNext, hhPrev) and the stored hash value. What the
 caller keeps in the struct is `val`, which no macro changes.
 */
module Elements {
  class Elt<T> {
    const val: T
    var next: Elt?<T>
    var prev: Elt?<T>
    var hhNext: Elt?<T>
    var hhPrev: Elt?<T>
    var hashv: nat

    constructor (val: T)
      ensures this.val == val
    {
      this.val := val;
    }
  }

  ghost predicate Distinct<T>(s: seq<T>) {
    forall i, j | 0 <= i < j < |s| :: s[i] != s[j]
  }

  /** Walking `next` through s gives s, and then `end`. */
  ghost predicate NextLinked<T>(s: seq<Elt<T>>, end: Elt?<T>)
    reads (set x | x in s)`next
  {
    && (forall i {:trigger s[i].next} | 0 <= i < |s| - 1 :: s[i].next == s[i + 1])
    && (s != [] ==> s[|s| - 1].next == end)
  }

  /** Walking `prev` back through s gives s reversed, and then `start`. */
  ghost predicate PrevLinked<T>(s: seq<Elt<T>>, start: Elt?<T>)
    reads (set x | x in s)`prev
  {
    && (forall i {:trigger s[i].prev} | 0 < i < |s| :: s[i].prev == s[i - 1])
    && (s != [] ==> s[0].prev == start)
  }

  ghost function First<T>(s: seq<Elt<T>>): Elt?<T> {
    if s == [] then null else s[0]
  }

  ghost function Last<T>(s: seq<Elt<T>>): Elt?<T> {
    if s == [] then null else s[|s| - 1]
  }

  /** s without x, for a sequence that holds x at most once. */
  ghost function Without<T>(s: seq<T>, x: T): seq<T> {
    if s == [] then [] else if s[0] == x then s[1..] else [s[0]] + Without(s[1..], x)
  }

  lemma {:induction false} WithoutAt<T>(s: seq<T>, x: T, k: nat)
    requires Distinct(s) && k < |s| && s[k] == x
    ensures Without(s, x) == s[..k] + s[k + 1..]
  {
    if k > 0 {
      WithoutAt(s[1..], x, k - 1);
    }
  }

  lemma {:induction false} WithoutAbsent<T>(s: seq<T>, x: T)
    requires x !in s
    ensures Without(s, x) == s
  {
    if s != [] { WithoutAbsent(s[1..], x); }
  }

  lemma {:induction false} WithoutSubset<T>(s: seq<T>, x: T)
    ensures forall y | y in Without(s, x) :: y in s
  {
    if s != [] { WithoutSubset(s[1..], x); }
  }

  lemma WithoutMembers<T>(s: seq<T>, x: T)
    requires Distinct(s)
    ensures Distinct(Without(s, x))
    ensures forall y | y in Without(s, x) :: y in s && y != x
    ensures forall y | y in s && y != x :: y in Without(s, x)
    ensures |Without(s, x)| == |s| - (if x in s then 1 else 0)
  {
    if x in s {
      var k :| 0 <= k < |s| && s[k] == x;
      WithoutAt(s, x, k);
      CutOut(s, k);
    } else {
      WithoutAbsent(s, x);
    }
  }

  lemma CutOut<T>(s: seq<T>, k: nat)
    requires Distinct(s) && k < |s|
    ensures Distinct(s[..k] + s[k + 1..])
    ensures forall y | y in s[..k] + s[k + 1..] :: y in s && y != s[k]
    ensures forall y | y in s && y != s[k] :: y in s[..k] + s[k + 1..]
  {
    var t := s[..k] + s[k + 1..];
    assert forall l {:trigger t[l]} | 0 <= l < |t| :: t[l] == s[if l < k then l else l + 1];
    forall y | y in s && y != s[k] ensures y in t {
      var l :| 0 <= l < |s| && s[l] == y;
      assert t[if l < k then l else l - 1] == y;
    }
  }

  lemma DistinctParts<T>(a: seq<T>, b: seq<T>)
    requires Distinct(a + b)
    ensures Distinct(a) && Distinct(b)
    ensures forall x | x in a :: x !in b
  {
    var s := a + b;
    forall i, j | 0 <= i < j < |a| ensures a[i] != a[j] { assert s[i] != s[j]; }
    forall i, j | 0 <= i < j < |b| ensures b[i] != b[j] { assert s[|a| + i] != s[|a| + j]; }
    forall i, j | 0 <= i < |a| && 0 <= j < |b| ensures a[i] != b[j] { assert s[i] != s[|a| + j]; }
  }
}
