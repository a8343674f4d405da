/** Merging and removing scheduled events (mio.c): linked lists of events, changed in place. */
module Schedule {
  import opened Spec = ScheduleSpec
  import opened Wrappers

  /** mio_event_t. A recurrence is only ever replaced by a fresh copy, so it is a value here. */
  class Event {
    var id: int
    var name: Option<string>
    var value: Option<string>
    var time: Option<string>
    var info: Option<string>
    var recurrence: Option<Recurrence>
    var next: Event?

    /** mio_event_new. */
    constructor ()
      ensures Said() == Rec(-1, NO_FIELDS) && next == null
    {
      id, name, value, time, info, recurrence, next := -1, None, None, None, None, None, null;
    }

    ghost function Said(): Rec
      reads this`id, this`name, this`value, this`time, this`info, this`recurrence
    {
      Rec(id, Fields(name, value, time, info, recurrence))
    }
  }

  ghost function EventsOf(order: seq<Event>): (events: set<Event>) {
    set e | e in order
  }

  /** From head on, the next pointers go through exactly these events. */
  ghost predicate Chain(head: Event?, order: seq<Event>)
    reads EventsOf(order)`next
  {
    && head == (if order == [] then null else order[0])
    && (forall i {:trigger order[i].next} | 0 <= i < |order| ::
         order[i].next == if i + 1 < |order| then order[i + 1] else null)
    && forall i, j | 0 <= i < j < |order| :: order[i] != order[j]
  }

  ghost function ContentsFrom(order: seq<Event>, k: nat): (evs: seq<Rec>)
    requires k <= |order|
    reads EventsOf(order)`id, EventsOf(order)`name, EventsOf(order)`value
    reads EventsOf(order)`time, EventsOf(order)`info, EventsOf(order)`recurrence
    ensures |evs| == |order| - k && forall i {:trigger evs[i]} | 0 <= i < |evs| :: evs[i] == order[k + i].Said()
    decreases |order| - k
  {
    if k == |order| then [] else [order[k].Said()] + ContentsFrom(order, k + 1)
  }

  /** What the events say, in order. */
  ghost function Contents(order: seq<Event>): (evs: seq<Rec>)
    reads EventsOf(order)`id, EventsOf(order)`name, EventsOf(order)`value
    reads EventsOf(order)`time, EventsOf(order)`info, EventsOf(order)`recurrence
    ensures |evs| == |order| && forall i {:trigger evs[i]} | 0 <= i < |order| :: evs[i] == order[i].Said()
  {
    var evs := ContentsFrom(order, 0);
    evs
  }

  /** mio_event_tail_get. */
  method TailGet(head: Event?, ghost order: seq<Event>) returns (tail: Event?)
    requires Chain(head, order)
    ensures tail == if order == [] then null else order[|order| - 1]
  {
    tail := null;
    var event := head;
    ghost var k := 0;
    while event != null
      invariant 0 <= k <= |order|
      invariant event == if k < |order| then order[k] else null
      invariant tail == if k == 0 then null else order[k - 1]
      decreases |order| - k
    {
      tail := event;
      event := event.next;
      k := k + 1;
    }
  }

  /** _mio_event_renumber. */
  method RenumberEvents(head: Event?, ghost order: seq<Event>)
    requires Chain(head, order)
    modifies EventsOf(order)`id
    ensures Contents(order) == Renumber(old(Contents(order)))
  {
    var curr := head;
    var i := 0;
    while curr != null
      invariant 0 <= i <= |order|
      invariant curr == if i < |order| then order[i] else null
      invariant forall j {:trigger order[j].id} | 0 <= j < i :: order[j].id == j
      decreases |order| - i
    {
      curr.id := i;
      curr := curr.next;
      i := i + 1;
    }
  }

  lemma FindIs(evs: seq<Rec>, id: int, k: nat)
    requires k <= |evs| && (k < |evs| ==> evs[k].id == id) && forall i | 0 <= i < k :: evs[i].id != id
    ensures FindId(evs, id) == k
  {
  }

  /** The walk to the event with an id, which starts a removal and each step of a merge. */
  method Search(events: Event?, id: int, ghost order: seq<Event>) returns (prev: Event?, curr: Event?)
    requires Chain(events, order)
    ensures var k := FindId(Contents(order), id);
            && curr == (if k < |order| then order[k] else null)
            && prev == (if k == 0 then null else order[k - 1])
  {
    prev, curr := null, events;
    ghost var k := 0;
    while curr != null && curr.id != id
      invariant 0 <= k <= |order|
      invariant curr == if k < |order| then order[k] else null
      invariant prev == if k == 0 then null else order[k - 1]
      invariant forall i | 0 <= i < k :: Contents(order)[i].id != id
      decreases |order| - k
    {
      prev := curr;
      curr := curr.next;
      k := k + 1;
    }
    FindIs(Contents(order), id, k);
  }

  /** The removal once the event is found: a head is only stepped over, any other event is taken out. */
  method Unlink(events: Event?, prev: Event?, curr: Event, ghost k: nat, ghost order: seq<Event>)
    returns (head: Event?, ghost left: seq<Event>)
    requires Chain(events, order)
    requires k < |order| && curr == order[k] && prev == if k == 0 then null else order[k - 1]
    modifies EventsOf(order)`next
    ensures Chain(head, left) && left == order[..k] + order[k + 1..]
  {
    left := order[..k] + order[k + 1..];
    if prev == null {
      return curr.next, left;
    }
    prev.next := curr.next;
    curr.next := null;
    return events, left;
  }

  lemma ContentsWithout(order: seq<Event>, k: nat)
    requires k < |order|
    ensures Contents(order[..k] + order[k + 1..]) == Contents(order)[..k] + Contents(order)[k + 1..]
  {
    var left, evs := order[..k] + order[k + 1..], Contents(order);
    forall i | 0 <= i < |left| ensures Contents(left)[i] == (evs[..k] + evs[k + 1..])[i] {
      assert left[i] == order[if i < k then i else i + 1];
    }
  }

  /** mio_schedule_event_remove; left is what the returned list goes through. */
  method Remove(events: Event?, id: int, ghost order: seq<Event>) returns (head: Event?, ghost left: seq<Event>)
    requires Chain(events, order)
    modifies EventsOf(order)
    ensures Chain(head, left)
    ensures var k := FindId(old(Contents(order)), id);
            left == if k < |order| then order[..k] + order[k + 1..] else order
    ensures Contents(left) == Spec.Remove(old(Contents(order)), id)
  {
    ghost var k := FindId(Contents(order), id);
    var prev, curr := Search(events, id, order);
    head, left := events, order;
    if curr != null {
      head, left := Unlink(events, prev, curr, k, order);
      ContentsWithout(order, k);
    }
    RenumberEvents(head, left);
  }

  /** The fields that the update gives are copied, the others stay. */
  method CopyFields(curr: Event, event: Event)
    requires curr != event
    modifies curr`name, curr`value, curr`time, curr`info, curr`recurrence
    ensures curr.Said() == Rec(old(curr.id), MergeFields(old(curr.Said().f), event.Said().f))
  {
    if event.info != None {
      curr.info := event.info;
    }
    if event.recurrence != None {
      curr.recurrence := Some(MergeRecurrence(NO_RECURRENCE, event.recurrence.value));
    }
    if event.time != None {
      curr.time := event.time;
    }
    if event.name != None {
      curr.name := event.name;
    }
    if event.value != None {
      curr.value := event.value;
    }
  }

  method CopyInto(ghost now: seq<Event>, ghost k: nat, curr: Event, event: Event)
    requires k < |now| && curr == now[k] && event !in now
    requires forall i, j | 0 <= i < j < |now| :: now[i] != now[j]
    modifies curr`name, curr`value, curr`time, curr`info, curr`recurrence
    ensures Contents(now) ==
            var was := old(Contents(now)); was[k := Rec(was[k].id, MergeFields(was[k].f, event.Said().f))]
  {
    CopyFields(curr, event);
  }

  /** A new event at the tail. */
  method AppendNew(target: Event, ghost order: seq<Event>) returns (curr: Event, ghost now: seq<Event>)
    requires Chain(target, order)
    modifies EventsOf(order)`next
    ensures fresh(curr) && now == order + [curr]
    ensures Chain(target, now) && Contents(now) == old(Contents(order)) + [Rec(-1, NO_FIELDS)]
  {
    var tail := TailGet(target, order);
    curr := new Event();
    tail.next := curr;
    now := order + [curr];
  }

  /** One update of a merge. */
  method MergeEvent(target: Event, event: Event, ghost order: seq<Event>) returns (ghost now: seq<Event>)
    requires Chain(target, order) && event !in order
    modifies EventsOf(order)
    ensures order <= now && fresh(EventsOf(now) - EventsOf(order))
    ensures Chain(target, now) && Contents(now) == MergeOne(old(Contents(order)), event.Said())
  {
    ghost var was := Contents(order);
    ghost var k := FindId(was, event.id);
    var _, curr := Search(target, event.id, order);
    now := order;
    if curr == null {
      curr, now := AppendNew(target, order);
    }
    CopyInto(now, k, curr, event);
  }

  lemma MergeNext(evs: seq<Rec>, us: seq<Rec>, u: nat)
    requires u < |us|
    ensures MergeAll(evs, us[u..]) == MergeAll(MergeOne(evs, us[u]), us[u + 1..])
  {
    assert us[u..][1..] == us[u + 1..];
  }

  /**
   The merge has come to update u: the updates are as they were, and the rest of them makes
   `merged` of the events.
   */
  ghost predicate Midway(target: Event?, now: seq<Event>, updates: Event?, ups: seq<Event>, us: seq<Rec>, u: nat,
                         merged: seq<Rec>)
    reads EventsOf(now), EventsOf(ups)
  {
    && Chain(target, now) && Chain(updates, ups) && EventsOf(ups) !! EventsOf(now)
    && Contents(ups) == us && u <= |us| && MergeAll(Contents(now), us[u..]) == merged
  }

  method MergeUpdate(target: Event, event: Event, ghost now: seq<Event>, ghost updates: Event?, ghost ups: seq<Event>,
                     ghost us: seq<Rec>, ghost u: nat, ghost merged: seq<Rec>)
    returns (ghost now': seq<Event>)
    requires Midway(target, now, updates, ups, us, u, merged) && u < |ups| && event == ups[u]
    modifies EventsOf(now)
    ensures Midway(target, now', updates, ups, us, u + 1, merged)
    ensures now <= now' && fresh(EventsOf(now') - EventsOf(now))
  {
    assert MergeAll(MergeOne(Contents(now), us[u]), us[u + 1..]) == merged by {
      MergeNext(Contents(now), us, u);
    }
    assert event in EventsOf(ups);
    now' := MergeEvent(target, event, now);
  }

  /** The updates, one after another. */
  method MergeUpdates(target: Event?, updates: Event?, ghost order: seq<Event>, ghost ups: seq<Event>)
    returns (ghost now: seq<Event>)
    requires Chain(target, order) && Chain(updates, ups)
    requires EventsOf(ups) !! EventsOf(order)
    requires target != null || updates == null
    modifies EventsOf(order)
    ensures order <= now && fresh(EventsOf(now) - EventsOf(order))
    ensures Chain(target, now) && Contents(now) == MergeAll(old(Contents(order)), Contents(ups))
    ensures Chain(updates, ups) && Contents(ups) == old(Contents(ups))
  {
    var event := updates;
    ghost var u := 0;
    ghost var us := Contents(ups);
    ghost var merged := MergeAll(Contents(order), us);
    now := order;
    assert us[0..] == us;
    while event != null
      invariant u <= |ups| && event == if u < |ups| then ups[u] else null
      invariant order <= now && fresh(EventsOf(now) - EventsOf(order))
      invariant Midway(target, now, updates, ups, us, u, merged)
      decreases |ups| - u
    {
      now := MergeUpdate(target, event, now, updates, ups, us, u, merged);
      event := event.next;
      u := u + 1;
    }
  }

  /** mio_schedule_event_merge. Only an empty list of updates may meet an empty list of events. */
  method MergeEvents(target: Event?, updates: Event?, ghost order: seq<Event>, ghost ups: seq<Event>)
    returns (ghost now: seq<Event>)
    requires Chain(target, order) && Chain(updates, ups)
    requires EventsOf(ups) !! EventsOf(order)
    requires target != null || updates == null
    modifies EventsOf(order)
    ensures order <= now && fresh(EventsOf(now) - EventsOf(order))
    ensures Chain(target, now) && Contents(now) == Merge(old(Contents(order)), Contents(ups))
    ensures Chain(updates, ups) && Contents(ups) == old(Contents(ups))
  {
    now := MergeUpdates(target, updates, order, ups);
    RenumberEvents(target, now);
  }
}
