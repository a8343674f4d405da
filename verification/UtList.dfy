/** The list macros of utlist.h: edits and sorts of the three kinds of list. */
module UtList {
  import opened Arith
  import opened Elements
  import opened MergeSpec
  import ListSort

  datatype Kind = Singly | Doubly | Circular

  /**
   The links of a list whose elements are s: a singly or doubly linked list ends in
   NULL, a circular one leads back to its head, and the head's `prev` is the tail.
   */
  ghost predicate IsList<T>(kind: Kind, head: Elt?<T>, s: seq<Elt<T>>)
    reads s
  {
    && head == First(s) && Distinct(s)
    && NextLinked(s, if kind.Circular? then First(s) else null)
    && (kind.Singly? || PrevLinked(s, Last(s)))
  }

  // ---------------------------------------------------------------- sorting

  /** The three sorts: LL_SORT2, DL_SORT2 and CDL_SORT2 differ only where `kind` is looked at. */
  method Sort<T>(kind: Kind, cmp: Cmp<Elt<T>>, list: Elt?<T>, ghost s: seq<Elt<T>>)
    returns (head: Elt?<T>, ghost t: seq<Elt<T>>, ghost sweeps: nat, ghost calls: nat)
    requires IsList(kind, list, s)
    modifies (set x | x in s)`next, (set x | !kind.Singly? && x in s)`prev
    ensures t == MergeSpec.Sort(cmp, s) && IsList(kind, head, t)
    ensures s != [] ==> sweeps == Sweeps(|s|, 1) && calls == SortCalls(cmp, s, 1)
  {
    head, t, sweeps, calls := list, s, 0, 0;
    if list != null {
      var insize, looping := 1, true;
      while looping
        invariant IsList(kind, head, t) && t != [] && |t| == |s| && insize > 0
        invariant forall x | x in t :: x in s
        invariant ToSort(looping, cmp, t, insize) == MergeSpec.Sort(cmp, s)
        invariant sweeps + ToSweep(looping, |s|, insize) == Sweeps(|s|, 1)
        invariant calls + ToCall(looping, cmp, t, insize) == SortCalls(cmp, s, 1)
        decreases looping, |s| - insize
      {
        ghost var c;
        head, looping, insize, t, c := SortSweep(kind, cmp, head, insize, t);
        sweeps, calls := sweeps + 1, calls + c;
      }
    }
  }

  // What the turns still to come will do; nothing once `looping` is off.

  ghost function ToSort<T>(looping: bool, cmp: Cmp<T>, t: seq<T>, k: nat): seq<T>
    requires k > 0
  {
    if looping then SortFrom(cmp, t, k) else t
  }

  ghost function ToSweep(looping: bool, n: nat, k: nat): nat
    requires k > 0
  {
    if looping then Sweeps(n, k) else 0
  }

  ghost function ToCall<T>(looping: bool, cmp: Cmp<T>, t: seq<T>, k: nat): nat
    requires k > 0
  {
    if looping then SortCalls(cmp, t, k) else 0
  }

  /** One turn of the outer loop: a sweep, then the ends of the list are tied up. */
  method SortSweep<T>(kind: Kind, cmp: Cmp<Elt<T>>, list: Elt<T>, insize: nat, ghost s: seq<Elt<T>>)
    returns (head: Elt<T>, looping: bool, insize': nat, ghost t: seq<Elt<T>>, ghost calls: nat)
    requires insize > 0 && s != [] && IsList(kind, list, s)
    modifies (set x | x in s)`next, (set x | !kind.Singly? && x in s)`prev
    ensures IsList(kind, head, t) && |t| == |s| && (forall x | x in t :: x in s)
    ensures insize' == 2 * insize && (looping ==> insize' < |s|)
    ensures ToSort(looping, cmp, t, insize') == SortFrom(cmp, s, insize)
    ensures 1 + ToSweep(looping, |s|, insize') == Sweeps(|s|, insize)
    ensures calls + ToCall(looping, cmp, t, insize') == SortCalls(cmp, s, insize)
  {
    var tail, nmerges;
    var end: Elt?<T> := if kind.Circular? then list else null;
    head, tail, nmerges, t, calls := ListSort.SortPass(cmp, list, insize, end, !kind.Singly?, s);
    PassMembers(cmp, s, insize);
    TieUp(kind, head, tail, t);
    looping := nmerges > 1;
    insize' := insize * 2;
    TurnOutcome(cmp, s, insize);
  }

  method TieUp<T>(kind: Kind, head: Elt<T>, tail: Elt<T>, ghost t: seq<Elt<T>>)
    requires t != [] && ListSort.Built(t, head, tail, !kind.Singly?)
    modifies tail`next, (if kind.Singly? then {} else {head})`prev
    ensures IsList(kind, head, t)
  {
    match kind
    case Singly =>
      tail.next := null;
    case Doubly =>
      head.prev := tail;
      tail.next := null;
    case Circular =>
      head.prev := tail;
      tail.next := head;
  }

  lemma PassMembers<T>(cmp: Cmp<T>, s: seq<T>, k: nat)
    requires k > 0
    ensures |Pass(cmp, s, k)| == |s| && forall x | x in Pass(cmp, s, k) :: x in s
  {
    PassPermutes(cmp, s, k);
    SameElements(s, Pass(cmp, s, k));
  }

  lemma TurnOutcome<T>(cmp: Cmp<T>, s: seq<T>, k: nat)
    requires k > 0
    ensures var looping, t := CeilDiv(|s|, 2 * k) > 1, Pass(cmp, s, k);
            && ToSort(looping, cmp, t, 2 * k) == SortFrom(cmp, s, k)
            && 1 + ToSweep(looping, |s|, 2 * k) == Sweeps(|s|, k)
            && PassCalls(cmp, s, k) + ToCall(looping, cmp, t, 2 * k) == SortCalls(cmp, s, k)
            && (looping <==> 2 * k < |s|)
  {
    assert CeilDiv(|s|, 2 * k) <= 1 <==> |s| <= 2 * k;
    PassLength(cmp, s, k);
  }

  // ---------------------------------------------------------------- singly linked edits

  /** Walks to the last element (utlist.h:326, 342). */
  method LlTail<T>(head: Elt<T>, ghost s: seq<Elt<T>>) returns (last: Elt<T>)
    requires IsList(Singly, head, s)
    ensures s != [] && last == s[|s| - 1]
  {
    last := head;
    ghost var i := 0;
    while last.next != null
      invariant i < |s| && last == s[i]
      decreases |s| - i
    {
      last := last.next;
      i := i + 1;
    }
  }

  method LlPrepend<T>(head: Elt?<T>, add: Elt<T>, ghost s: seq<Elt<T>>) returns (head': Elt<T>)
    requires IsList(Singly, head, s) && add !in s
    modifies add`next
    ensures IsList(Singly, head', [add] + s)
  {
    add.next := head;
    head' := add;
  }

  method LlConcat<T>(head1: Elt?<T>, head2: Elt?<T>, ghost s1: seq<Elt<T>>, ghost s2: seq<Elt<T>>)
    returns (head: Elt?<T>)
    requires IsList(Singly, head1, s1) && IsList(Singly, head2, s2) && Distinct(s1 + s2)
    modifies (if s1 == [] then {} else {s1[|s1| - 1]})`next
    ensures IsList(Singly, head, s1 + s2)
  {
    if head1 != null {
      var tmp := LlTail(head1, s1);
      DistinctParts(s1, s2);
      assert tmp !in s2;
      tmp.next := head2;
      head := head1;
      assert NextLinked(s2, null);
      ConcatLinks(s1, s2);
    } else {
      assert s1 + s2 == s2;
      head := head2;
    }
  }

  lemma ConcatLinks<T>(s1: seq<Elt<T>>, s2: seq<Elt<T>>)
    requires s1 != [] && NextLinked(s1, First(s2)) && NextLinked(s2, null)
    ensures NextLinked(s1 + s2, null)
  {
    var s := s1 + s2;
    forall i | 0 <= i < |s| - 1 ensures s[i].next == s[i + 1] {
      if i >= |s1| { assert s[i] == s2[i - |s1|]; }
    }
  }

  method LlAppend<T>(head: Elt?<T>, add: Elt<T>, ghost s: seq<Elt<T>>) returns (head': Elt<T>)
    requires IsList(Singly, head, s) && add !in s
    modifies add`next, (if s == [] then {} else {s[|s| - 1]})`next
    ensures IsList(Singly, head', s + [add])
  {
    add.next := null;
    if head != null {
      var tmp := LlTail(head, s);
      tmp.next := add;
      head' := head;
    } else {
      head' := add;
    }
  }

  /** Deleting an element that is not in the list changes nothing. */
  method LlDelete<T>(head: Elt<T>, del: Elt<T>, ghost s: seq<Elt<T>>) returns (head': Elt?<T>)
    requires IsList(Singly, head, s)
    modifies (set x | x in s)`next
    ensures IsList(Singly, head', Without(s, del))
    ensures del.next == old(del.next)
  {
    if head == del {
      head' := head.next;
    } else {
      var tmp := head;
      ghost var i := 0;
      while tmp.next != null && tmp.next != del
        invariant i < |s| && tmp == s[i] && del !in s[..i + 1]
        decreases |s| - i
      {
        tmp := tmp.next;
        i := i + 1;
      }
      if tmp.next != null {
        WithoutAt(s, del, i + 1);
        tmp.next := del.next;
      } else {
        assert s[..i + 1] == s;
        WithoutAbsent(s, del);
      }
      head' := head;
    }
  }

  // ---------------------------------------------------------------- doubly linked edits

  method DlPrepend<T>(head: Elt?<T>, add: Elt<T>, ghost s: seq<Elt<T>>) returns (head': Elt<T>)
    requires IsList(Doubly, head, s) && add !in s
    modifies add`next, add`prev, (if head == null then {} else {head})`prev
    ensures IsList(Doubly, head', [add] + s)
  {
    add.next := head;
    if head != null {
      add.prev := head.prev;
      head.prev := add;
    } else {
      add.prev := add;
    }
    head' := add;
  }

  method DlAppend<T>(head: Elt?<T>, add: Elt<T>, ghost s: seq<Elt<T>>) returns (head': Elt<T>)
    requires IsList(Doubly, head, s) && add !in s
    modifies add`next, add`prev, (set x | x in s)`next, (set x | x in s)`prev
    ensures IsList(Doubly, head', s + [add])
  {
    if head != null {
      add.prev := head.prev;
      head.prev.next := add;
      head.prev := add;
      add.next := null;
      head' := head;
    } else {
      head' := add;
      head'.prev := head';
      head'.next := null;
    }
  }

  method DlConcat<T>(head1: Elt?<T>, head2: Elt?<T>, ghost s1: seq<Elt<T>>, ghost s2: seq<Elt<T>>)
    returns (head: Elt?<T>)
    requires IsList(Doubly, head1, s1) && IsList(Doubly, head2, s2) && Distinct(s1 + s2)
    modifies (set x | x in s1)`next, (set x | x in s1 + s2)`prev
    ensures IsList(Doubly, head, s1 + s2)
  {
    DistinctParts(s1, s2);
    head := head1;
    if head2 != null {
      if head1 != null {
        var tmp := head2.prev;
        head2.prev := head1.prev;
        head1.prev.next := head2;
        head1.prev := tmp;
      } else {
        assert s1 + s2 == s2;
        head := head2;
      }
    } else {
      assert s1 + s2 == s1;
    }
  }

  method DlDelete<T>(head: Elt<T>, del: Elt<T>, ghost s: seq<Elt<T>>, ghost k: nat) returns (head': Elt?<T>)
    requires IsList(Doubly, head, s) && k < |s| && s[k] == del
    modifies (set x | x in s)`next, (set x | x in s)`prev
    ensures IsList(Doubly, head', s[..k] + s[k + 1..])
  {
    head' := head;
    if del.prev == del {
      head' := null;
    } else if del == head {
      del.next.prev := del.prev;
      head' := del.next;
    } else {
      del.prev.next := del.next;
      if del.next != null {
        del.next.prev := del.prev;
      } else {
        head.prev := del.prev;
      }
    }
  }

  // ---------------------------------------------------------------- circular edits

  method CdlPrepend<T>(head: Elt?<T>, add: Elt<T>, ghost s: seq<Elt<T>>) returns (head': Elt<T>)
    requires IsList(Circular, head, s) && add !in s
    modifies add`next, add`prev, (set x | x in s)`next, (set x | x in s)`prev
    ensures IsList(Circular, head', [add] + s)
  {
    if head != null {
      add.prev := head.prev;
      add.next := head;
      head.prev := add;
      add.prev.next := add;
    } else {
      add.prev := add;
      add.next := add;
    }
    head' := add;
  }

  method CdlDelete<T>(head: Elt<T>, del: Elt<T>, ghost s: seq<Elt<T>>, ghost k: nat) returns (head': Elt?<T>)
    requires IsList(Circular, head, s) && k < |s| && s[k] == del
    modifies (set x | x in s)`next, (set x | x in s)`prev
    ensures IsList(Circular, head', s[..k] + s[k + 1..])
  {
    head' := head;
    if head == del && head.next == head {
      head' := null;
    } else {
      del.next.prev := del.prev;
      del.prev.next := del.next;
      if del == head {
        head' := del.next;
      }
    }
  }
}
