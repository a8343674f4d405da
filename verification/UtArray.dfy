/** The growable array of utarray.h, for elements that are copied as plain memory. */
module UtArray {
  import opened Arith
  import opened Wrappers

  /** The doubling loop of utarray_reserve: the capacity after room for `need` elements was made. */
  function Grown(n: nat, need: nat): (r: nat)
    ensures need <= r && n <= r
    ensures r == n || (2 * n <= r && (r <= 8 || r < 2 * need))
    ensures n >= need ==> r == n
    ensures n == 0 || n >= 8 ==> r == 0 || r >= 8
    decreases need - n
  {
    if need > n then Grown(if n != 0 then 2 * n else 8, need) else n
  }

  /** s, padded with zeros to at least n elements. */
  function Padded<T>(s: seq<T>, n: nat, zero: T): (r: seq<T>)
    ensures |r| == if n <= |s| then |s| else n
  {
    if n <= |s| then s else s + seq(n - |s|, _ => zero)
  }

  lemma PaddedResize<T>(s: seq<T>, n: nat, zero: T)
    requires n >= |s|
    ensures Resized(s, n, zero) == Padded(s, n, zero)
  {
  }

  /** The elements of w put in at position j. */
  function Spliced<T>(s: seq<T>, w: seq<T>, j: nat): (r: seq<T>)
    requires j <= |s|
  {
    s[..j] + w + s[j..]
  }

  /** The elements of w put in at position j, after padding up to there. */
  function Inserted<T>(s: seq<T>, w: seq<T>, j: nat, zero: T): (r: seq<T>) {
    Spliced(Padded(s, j, zero), w, j)
  }

  function Resized<T>(s: seq<T>, n: nat, zero: T): (r: seq<T>)
    ensures |r| == n
  {
    Padded(s, n, zero)[..n]
  }

  /** Padding keeps what there is and puts zeros behind it; cutting keeps the beginning. */
  lemma ResizedAt<T>(s: seq<T>, n: nat, zero: T, k: nat)
    ensures |Resized(s, n, zero)| == n && |Padded(s, n, zero)| == Max(n, |s|)
    ensures k < n ==> Resized(s, n, zero)[k] == if k < |s| then s[k] else zero
    ensures k < Max(n, |s|) ==> Padded(s, n, zero)[k] == if k < |s| then s[k] else zero
  {
  }

  /** What stands where after an insertion at j, which is padded first when j lies past the end. */
  lemma InsertedAt<T>(s: seq<T>, w: seq<T>, j: nat, zero: T, k: nat)
    ensures |Inserted(s, w, j, zero)| == Max(j, |s|) + |w|
    ensures k < Max(j, |s|) + |w| ==>
              Inserted(s, w, j, zero)[k] ==
              if k < j then (if k < |s| then s[k] else zero)
              else if k < j + |w| then w[k - j]
              else s[k - |w|]
  {
    ResizedAt(s, j, zero, k);
  }

  /** What utarray_erase leaves: past the end nothing moves, but the length drops all the same. */
  function Erased<T>(s: seq<T>, pos: nat, len: nat): (r: seq<T>)
    requires len <= |s|
    ensures |r| == |s| - len
  {
    if pos + len < |s| then s[..pos] + s[pos + len..] else s[..|s| - len]
  }

  /** The elements that do not lie in [pos, pos + len). */
  function Outside<T>(s: seq<T>, pos: nat, len: nat): (r: seq<T>) {
    s[..Min(pos, |s|)] + s[Min(pos + len, |s|)..]
  }

  /** Erasing removes the given range if and only if the range lies inside the array, or is empty. */
  lemma EraseExact<T>(s: seq<T>, pos: nat, len: nat)
    requires len <= |s|
    ensures Erased(s, pos, len) == Outside(s, pos, len) <==> (pos + len <= |s| || len == 0)
  {
    if pos + len > |s| && len > 0 {
      assert |Outside(s, pos, len)| == Min(pos, |s|) > |s| - len;
    }
  }

  /** The range [1, 3) of an array of two elements: both are lost, where only the second one is in the range. */
  lemma ErasePastEnd<T>(x: T, y: T)
    ensures Erased([x, y], 1, 2) == [] && Outside([x, y], 1, 2) == [x]
  {
    EraseExact([x, y], 1, 2);
  }

  /** What stands where after an erasure inside the array. */
  lemma ErasedAt<T>(s: seq<T>, pos: nat, len: nat, k: nat)
    requires pos + len <= |s|
    ensures |Erased(s, pos, len)| == |s| - len
    ensures k < |s| - len ==> Erased(s, pos, len)[k] == if k < pos then s[k] else s[k + len]
  {
  }

  /** Erasing what was inserted gives back the array, padded up to where it was inserted. */
  lemma EraseInserted<T>(s: seq<T>, w: seq<T>, j: nat, zero: T)
    ensures Erased(Inserted(s, w, j, zero), j, |w|) == Padded(s, j, zero)
  {
    var p := Padded(s, j, zero);
    assert p == p[..j] + p[j..];
  }

  /** The block e after u was copied over its elements from `at` on. */
  function Overwritten<T>(e: seq<T>, at: nat, u: seq<T>): (r: seq<T>)
    requires at + |u| <= |e|
    ensures |r| == |e|
  {
    e[..at] + u + e[at + |u|..]
  }

  /** The block e holds p with m elements of room, which hold anything, at position j. */
  ghost predicate HasGap<T>(e: seq<T>, p: seq<T>, j: nat, m: nat) {
    j <= |p| && |p| + m <= |e| && e[..j] == p[..j] && e[j + m..|p| + m] == p[j..]
  }

  /** Making the gap: the elements from j on are moved up, if there are any. */
  lemma GapOpened<T>(e: seq<T>, e': seq<T>, p: seq<T>, j: nat, m: nat)
    requires j <= |p| && |p| + m <= |e| && e[..|p|] == p
    requires e' == if j < |p| then Overwritten(e, j + m, e[j..|p|]) else e
    ensures HasGap(e', p, j, m)
  {
    assert e[j..|p|] == p[j..] && e[..j] == p[..j] by {
      assert e[j..|p|] == e[..|p|][j..] && e[..j] == e[..|p|][..j];
    }
  }

  lemma GapFilled<T>(e: seq<T>, p: seq<T>, j: nat, u: seq<T>)
    requires HasGap(e, p, j, |u|)
    ensures Overwritten(e, j, u)[..|p| + |u|] == Spliced(p, u, j)
  {
    assert e[..j] == p[..j] && e[j + |u|..|p| + |u|] == p[j..];
  }

  lemma GapClosed<T>(e: seq<T>, pos: nat, len: nat, n: nat)
    requires pos + len <= n <= |e|
    ensures Overwritten(e, pos, e[pos + len..n])[..n - len] == e[..n][..pos] + e[..n][pos + len..]
  {
    assert e[..n][pos + len..] == e[pos + len..n];
  }

  // ---------------------------------------------------------------- growing

  /**
   The capacity, the largest length for which room was made so far, and how many elements growing
   has moved, a block each time.
   */
  datatype Growth = Growth(cap: nat, peak: nat, moved: nat) {
    /** utarray_reserve: once room is made for this length. */
    ghost function After(need: nat): Growth {
      Growth(Grown(cap, need), Max(peak, need), moved + if need > cap then cap else 0)
    }

    /** The capacity is at most twice the largest length, and so is what growing has moved. */
    ghost predicate Bounded() {
      && peak <= cap <= Max(8, 2 * peak) && (cap == 0 || cap >= 8)
      && moved <= 2 * peak && moved + 8 <= Max(8, cap)
    }

    lemma AfterSame(need: nat)
      requires need <= cap && need <= peak
      ensures After(need) == this
    {
    }

    lemma AfterBounded(need: nat)
      requires Bounded()
      ensures After(need).Bounded() && need <= After(need).cap
    {
    }
  }

  class GrowArray<T(0)> {
    const zero: T
    var d: array<T>
    var i: nat
    ghost var growth: Growth

    ghost predicate Valid()
      reads this
    {
      var valid := growth.cap == d.Length && i <= growth.peak && growth.Bounded();
      valid
    }

    ghost function Contents(): seq<T>
      requires Valid()
      reads this, d
    {
      d[..i]
    }

    constructor (zero: T)
      ensures Valid() && this.zero == zero && Contents() == [] && growth == Growth(0, 0, 0) && fresh(d)
    {
      this.zero := zero;
      d := new T[0];
      i, growth := 0, Growth(0, 0, 0);
    }

    /** realloc to a larger block: what was in the old one is moved, the rest holds anything. */
    method Realloc(n: nat)
      requires n >= d.Length
      modifies `d
      ensures fresh(d) && d.Length == n && d[..old(d.Length)] == old(d[..])
    {
      var block := new T[n];
      forall k | 0 <= k < d.Length {
        block[k] := d[k];
      }
      d := block;
    }

    /** utarray_reserve: realloc to the doubled size; the new room holds anything. */
    method Reserve(more: nat)
      requires Valid()
      modifies `d, `growth
      ensures Valid() && i + more <= d.Length && Contents() == old(Contents())
      ensures (d == old(d) || fresh(d)) && growth == old(growth).After(i + more)
    {
      growth.AfterBounded(i + more);
      growth := growth.After(i + more);
      if i + more > d.Length {
        var n := d.Length;
        while i + more > n
          invariant n >= d.Length && Grown(n, i + more) == Grown(d.Length, i + more)
          decreases i + more - n
        {
          n := if n != 0 then 2 * n else 8;
        }
        Realloc(n);
      }
    }

    /** memmove of the elements from `from` to `end`. */
    method Move(to: nat, from: nat, end: nat)
      requires from <= end <= d.Length && to + (end - from) <= d.Length
      modifies d
      ensures d[..] == Overwritten(old(d[..]), to, old(d[from..end])) && unchanged(this)
    {
      var block := d[from..end];
      forall k | 0 <= k < end - from {
        d[to + k] := block[k];
      }
    }

    /** Room for m elements at position j, which hold anything for now. */
    method OpenGap(j: nat, m: nat, ghost p: seq<T>)
      requires Valid() && j <= i && p == Contents()
      modifies `d, `growth, d
      ensures Valid() && HasGap(d[..], p, j, m)
      ensures (d == old(d) || fresh(d)) && growth == old(growth).After(i + m)
    {
      Reserve(m);
      ghost var e := d[..];
      if j < i {
        Move(j + m, j, i);
      }
      GapOpened(e, d[..], p, j, m);
    }

    method Store(x: T, j: nat)
      requires j < d.Length
      modifies d
      ensures d[..] == Overwritten(old(d[..]), j, [x]) && unchanged(this)
    {
      d[j] := x;
    }

    /** The gap at position j was filled: its m elements become part of the array. */
    method Lengthen(m: nat, ghost e: seq<T>, ghost p: seq<T>, ghost j: nat, ghost u: seq<T>)
      requires Valid() && i == |p| && m == |u| && i + m <= growth.peak
      requires HasGap(e, p, j, m) && d[..] == Overwritten(e, j, u)
      modifies `i
      ensures Valid() && i == |p| + |u| && Contents() == Spliced(p, u, j) && growth == old(growth)
    {
      GapFilled(e, p, j, u);
      i := i + m;
    }

    method PushBack(x: T)
      requires Valid()
      modifies this, d
      ensures Valid() && Contents() == old(Contents()) + [x]
      ensures (d == old(d) || fresh(d)) && growth == old(growth).After(i)
    {
      Reserve(1);
      d[i] := x;
      i := i + 1;
    }

    method PopBack()
      requires Valid() && i > 0
      modifies `i
      ensures Valid() && Contents() == old(Contents())[..old(i) - 1] && growth == old(growth)
    {
      i := i - 1;
    }

    method ExtendBack()
      requires Valid()
      modifies this, d
      ensures Valid() && Contents() == old(Contents()) + [zero]
      ensures (d == old(d) || fresh(d)) && growth == old(growth).After(i)
    {
      Reserve(1);
      d[i] := zero;
      i := i + 1;
    }

    /** utarray_eltptr, with the element in place of the pointer to it. */
    method Get(j: nat) returns (r: Option<T>)
      requires Valid()
      ensures r == if j < |Contents()| then Some(Contents()[j]) else None
    {
      r := if j < i then Some(d[j]) else None;
    }

    method Resize(num: nat)
      requires Valid()
      modifies this, d
      ensures Valid() && Contents() == Resized(old(Contents()), num, zero)
      ensures (d == old(d) || fresh(d)) && growth == old(growth).After(i)
    {
      if i < num {
        Reserve(num - i);
        forall k | i <= k < num {
          d[k] := zero;
        }
      }
      i := num;
    }

    method Insert(x: T, j: nat)
      requires Valid()
      modifies this, d
      ensures Valid() && Contents() == Inserted(old(Contents()), [x], j, zero)
      ensures (d == old(d) || fresh(d)) && growth == old(growth).After(Max(old(i), j)).After(i)
    {
      growth.AfterSame(i);
      if j > i {
        Resize(j);
      }
      InsertOne(x, j);
    }

    method InsertOne(x: T, j: nat)
      requires Valid() && j <= i
      modifies this, d
      ensures Valid() && Contents() == Spliced(old(Contents()), [x], j)
      ensures (d == old(d) || fresh(d)) && growth == old(growth).After(i)
    {
      ghost var p := Contents();
      OpenGap(j, 1, p);
      ghost var e := d[..];
      Store(x, j);
      Lengthen(1, e, p, j, [x]);
    }

    /**
     utarray_inserta. An array can be put into itself at its end, as utarray_concat does, or past it, where what is
     put in is padded first; before its end memcpy would overlap, which C leaves undefined.
     */
    method InsertArray(w: GrowArray<T>, j: nat)
      requires Valid() && w.Valid() && (if w == this then i == 0 || j >= i else w.d != d)
      modifies this, d
      ensures Valid()
      ensures Contents() ==
              if old(w.i) == 0 then old(Contents())
              else if w == this then Inserted(old(Contents()), Padded(old(Contents()), j, zero), j, zero)
              else Inserted(old(Contents()), old(w.Contents()), j, zero)
      ensures growth == if old(w.i) == 0 then old(growth) else old(growth).After(Max(old(i), j)).After(i)
      ensures d == old(d) || fresh(d)
    {
      if w.i == 0 {
        return;
      }
      growth.AfterSame(i);
      if j > i {
        Resize(j);
        PaddedResize(old(Contents()), j, zero);
      }
      InsertWithin(w, j);
    }

    method InsertWithin(w: GrowArray<T>, j: nat)
      requires Valid() && w.Valid() && (if w == this then j == i else w.d != d) && j <= i
      modifies this, d
      ensures Valid() && Contents() == Spliced(old(Contents()), old(w.Contents()), j)
      ensures (d == old(d) || fresh(d)) && growth == old(growth).After(i)
    {
      ghost var p, u := Contents(), w.Contents();
      var m := w.i;
      OpenGap(j, m, p);
      ghost var e := d[..];
      assert w.d[..m] == u by {
        assert w == this ==> w.d[..m] == e[..m];
      }
      CopyIn(w.d, m, j, u);
      Lengthen(m, e, p, j, u);
    }

    /** memcpy of m elements. */
    method CopyIn(src: array<T>, m: nat, j: nat, ghost u: seq<T>)
      requires j + m <= d.Length && m <= src.Length && src[..m] == u && (src == d ==> m <= j)
      modifies d
      ensures d[..] == Overwritten(old(d[..]), j, u) && unchanged(this)
    {
      forall k | 0 <= k < m {
        d[j + k] := src[k];
      }
    }

    method Concat(src: GrowArray<T>)
      requires Valid() && src.Valid() && (src == this || src.d != d)
      modifies this, d
      ensures Valid() && Contents() == old(Contents()) + old(src.Contents())
      ensures (d == old(d) || fresh(d)) && growth == old(growth).After(i)
    {
      InsertArray(src, i);
    }

    /** utarray_erase; the length is unsigned, so taking off more than there is wraps it around. */
    method Erase(pos: nat, len: nat)
      requires Valid() && len < 0x1_0000_0000
      modifies `i, d
      ensures i == if len <= old(i) then old(i) - len else old(i) - len + 0x1_0000_0000
      ensures len <= old(i) ==> Valid() && Contents() == Erased(old(Contents()), pos, len)
      ensures len > old(i) ==> d[..] == old(d[..])
      ensures Valid() && Contents() == Outside(old(Contents()), pos, len) <==> pos + len <= old(i) || len == 0
      ensures growth == old(growth)
    {
      ghost var e, s := d[..], Contents();
      if i > pos + len {
        Move(pos, pos + len, i);
        GapClosed(e, pos, len, i);
      }
      i := if len <= i then i - len else i - len + 0x1_0000_0000;
      if len <= |s| {
        EraseExact(s, pos, len);
      }
    }

    method Clear()
      requires Valid()
      modifies `i
      ensures Valid() && Contents() == [] && growth == old(growth)
    {
      if i > 0 {
        i := 0;
      }
    }
  }
}
