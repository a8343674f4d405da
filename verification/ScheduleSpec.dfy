/** Merging and removing scheduled events (mio.c), as functions on lists of events. */
module ScheduleSpec {
  import opened Wrappers

  /** mio_recurrence_t; None stands for NULL. */
  datatype Recurrence = Recurrence(freq: Option<string>, interval: Option<string>, count: Option<string>,
                                   until: Option<string>, bymonth: Option<string>, byday: Option<string>,
                                   exdate: Option<string>)

  const NO_RECURRENCE := Recurrence(None, None, None, None, None, None, None)

  /** What an event says, apart from its id. */
  datatype Fields = Fields(name: Option<string>, value: Option<string>, time: Option<string>, info: Option<string>,
                           recurrence: Option<Recurrence>)

  const NO_FIELDS := Fields(None, None, None, None, None)

  datatype Rec = Rec(id: int, f: Fields)

  /** A field that the update leaves NULL keeps its value. */
  function Override<T>(was: Option<T>, update: Option<T>): Option<T> {
    if update.Some? then update else was
  }

  /** _mio_recurrence_merge. */
  function MergeRecurrence(r: Recurrence, u: Recurrence): Recurrence {
    Recurrence(Override(r.freq, u.freq), Override(r.interval, u.interval), Override(r.count, u.count),
               Override(r.until, u.until), Override(r.bymonth, u.bymonth), Override(r.byday, u.byday),
               Override(r.exdate, u.exdate))
  }

  ghost function MergeFields(f: Fields, u: Fields): Fields {
    Fields(Override(f.name, u.name), Override(f.value, u.value), Override(f.time, u.time), Override(f.info, u.info),
           Override(f.recurrence, u.recurrence))
  }

  /** The first event with this id, or the length when there is none. */
  ghost function FindId(evs: seq<Rec>, id: int): (k: nat)
    ensures k <= |evs| && (k < |evs| ==> evs[k].id == id) && forall i | 0 <= i < k :: evs[i].id != id
  {
    if evs == [] then 0 else if evs[0].id == id then 0 else 1 + FindId(evs[1..], id)
  }

  /** One update: into the event with its id, or into a new event that has no id yet. */
  ghost function MergeOne(evs: seq<Rec>, u: Rec): seq<Rec> {
    var k := FindId(evs, u.id);
    if k < |evs| then evs[k := Rec(evs[k].id, MergeFields(evs[k].f, u.f))]
    else evs + [Rec(-1, MergeFields(NO_FIELDS, u.f))]
  }

  ghost predicate Takes<T>(r: Option<T>, was: Option<T>, update: Option<T>) {
    (update.Some? ==> r == update) && (update.None? ==> r == was)
  }

  /** f after an update: what the update gives, and what was there where it gives nothing. */
  ghost predicate TakesAll(r: Fields, was: Fields, u: Fields) {
    && Takes(r.name, was.name, u.name) && Takes(r.value, was.value, u.value) && Takes(r.time, was.time, u.time)
    && Takes(r.info, was.info, u.info) && Takes(r.recurrence, was.recurrence, u.recurrence)
  }

  /** k is the position of the first event with the id, or the length when there is none. */
  ghost predicate IsFirst(evs: seq<Rec>, id: int, k: nat) {
    && k <= |evs| && (k < |evs| ==> evs[k].id == id)
    && forall i | 0 <= i < k :: evs[i].id != id
  }

  /** One update of any list, numbered or not: it goes to the first event with its id, or to a new event at the end. */
  lemma MergeOneMeans(evs: seq<Rec>, u: Rec, k: nat)
    requires IsFirst(evs, u.id, k)
    ensures var r := MergeOne(evs, u);
            if k < |evs| then
              && |r| == |evs| && r[k].id == u.id && TakesAll(r[k].f, evs[k].f, u.f)
              && forall i | 0 <= i < |evs| && i != k :: r[i] == evs[i]
            else |r| == |evs| + 1 && r[..|evs|] == evs && r[|evs|] == Rec(-1, u.f)
  {
    assert FindId(evs, u.id) == k;
  }

  ghost function MergeAll(evs: seq<Rec>, us: seq<Rec>): seq<Rec>
    decreases |us|
  {
    if us == [] then evs else MergeAll(MergeOne(evs, us[0]), us[1..])
  }

  /** _mio_event_renumber. */
  ghost function Renumber(evs: seq<Rec>): seq<Rec> {
    seq(|evs|, i requires 0 <= i < |evs| => Rec(i, evs[i].f))
  }

  ghost function Merge(evs: seq<Rec>, us: seq<Rec>): seq<Rec> {
    Renumber(MergeAll(evs, us))
  }

  ghost function Remove(evs: seq<Rec>, id: int): seq<Rec> {
    var k := FindId(evs, id);
    Renumber(if k < |evs| then evs[..k] + evs[k + 1..] else evs)
  }

  /** Removal from any list, numbered or not: the first event with the id goes, and the rest is numbered anew. */
  lemma RemoveMeans(evs: seq<Rec>, id: int, k: nat)
    requires IsFirst(evs, id, k)
    ensures Numbered(Remove(evs, id))
    ensures var r := Remove(evs, id);
            if k < |evs| then
              && |r| == |evs| - 1
              && forall i | 0 <= i < |r| :: r[i].f == evs[if i < k then i else i + 1].f
            else |r| == |evs| && forall i | 0 <= i < |r| :: r[i].f == evs[i].f
  {
    assert FindId(evs, id) == k;
  }

  /** Ids are positions: what every merge and removal leaves, and what the next one starts from. */
  ghost predicate Numbered(evs: seq<Rec>) {
    forall i | 0 <= i < |evs| :: evs[i].id == i
  }

  // ---------------------------------------------------------------- what removal does

  /** Removing id k from a numbered list takes out position k and nothing else. */
  lemma RemoveTakesPosition(evs: seq<Rec>, id: int)
    requires Numbered(evs)
    ensures Numbered(Remove(evs, id))
    ensures !(0 <= id < |evs|) ==> Remove(evs, id) == evs
    ensures 0 <= id < |evs| ==>
              && |Remove(evs, id)| == |evs| - 1
              && forall i | 0 <= i < |evs| - 1 :: Remove(evs, id)[i].f == evs[if i < id then i else i + 1].f
  {
    var k := FindId(evs, id);
    if 0 <= id < |evs| {
      assert evs[id].id == id;
    }
  }

  // ---------------------------------------------------------------- what merging does
  // While a merge runs, the list is the original events, numbered, followed by the ones
  // appended so far, which still have the id -1 of a new event.

  ghost function Joined(front: seq<Fields>, extra: seq<Fields>): seq<Rec> {
    seq(|front| + |extra|, i requires 0 <= i < |front| + |extra| =>
        if i < |front| then Rec(i, front[i]) else Rec(-1, extra[i - |front|]))
  }

  lemma FindJoined(front: seq<Fields>, extra: seq<Fields>, id: int)
    ensures FindId(Joined(front, extra), id) ==
            if 0 <= id < |front| then id
            else if id == -1 then |front| else |front| + |extra|
  {
    var evs := Joined(front, extra);
    var k := FindId(evs, id);
    if 0 <= id < |front| {
      assert evs[id].id == id;
    } else if id == -1 {
      assert extra != [] ==> evs[|front|].id == -1;
    }
  }

  ghost function FrontStep(front: seq<Fields>, u: Rec): seq<Fields> {
    if 0 <= u.id < |front| then front[u.id := MergeFields(front[u.id], u.f)] else front
  }

  ghost function ExtraStep(n: nat, extra: seq<Fields>, u: Rec): seq<Fields> {
    if 0 <= u.id < n then extra
    else if u.id == -1 && extra != [] then extra[0 := MergeFields(extra[0], u.f)]
    else extra + [MergeFields(NO_FIELDS, u.f)]
  }

  lemma MergeJoined(front: seq<Fields>, extra: seq<Fields>, u: Rec)
    ensures MergeOne(Joined(front, extra), u) == Joined(FrontStep(front, u), ExtraStep(|front|, extra, u))
  {
    FindJoined(front, extra, u.id);
  }

  ghost function FrontAll(front: seq<Fields>, us: seq<Rec>): seq<Fields>
    decreases |us|
  {
    if us == [] then front else FrontAll(FrontStep(front, us[0]), us[1..])
  }

  ghost function ExtraAll(n: nat, extra: seq<Fields>, us: seq<Rec>): seq<Fields>
    decreases |us|
  {
    if us == [] then extra else ExtraAll(n, ExtraStep(n, extra, us[0]), us[1..])
  }

  lemma {:induction false} MergeAllJoined(front: seq<Fields>, extra: seq<Fields>, us: seq<Rec>)
    ensures MergeAll(Joined(front, extra), us) == Joined(FrontAll(front, us), ExtraAll(|front|, extra, us))
    decreases |us|
  {
    if us != [] {
      MergeJoined(front, extra, us[0]);
      MergeAllJoined(FrontStep(front, us[0]), ExtraStep(|front|, extra, us[0]), us[1..]);
    }
  }

  /** All the updates for event k, one after another. */
  ghost function Updated(f: Fields, us: seq<Rec>, k: int): Fields
    decreases |us|
  {
    if us == [] then f
    else Updated(if us[0].id == k then MergeFields(f, us[0].f) else f, us[1..], k)
  }

  lemma {:induction false} FrontUpdated(front: seq<Fields>, us: seq<Rec>)
    ensures |FrontAll(front, us)| == |front|
    ensures forall k | 0 <= k < |front| :: FrontAll(front, us)[k] == Updated(front[k], us, k)
    decreases |us|
  {
    if us != [] {
      FrontUpdated(FrontStep(front, us[0]), us[1..]);
    }
  }

  /** The updates that name no event of a list of n. */
  ghost function Unknown(us: seq<Rec>, n: nat): seq<Rec>
    decreases |us|
  {
    if us == [] then []
    else (if 0 <= us[0].id < n then [] else [us[0]]) + Unknown(us[1..], n)
  }

  /** No update with the id of a new event comes after one that makes a new event. */
  ghost predicate NoneLate(us: seq<Rec>, n: nat) {
    forall i, j {:trigger us[i], us[j]} | 0 <= i < j < |us| && us[j].id == -1 :: 0 <= us[i].id < n
  }

  ghost function FieldsOf(us: seq<Rec>): seq<Fields> {
    seq(|us|, i requires 0 <= i < |us| => us[i].f)
  }

  lemma MergeIntoNothing(u: Fields)
    ensures MergeFields(NO_FIELDS, u) == u
  {
  }

  /** Every unknown update makes an event of its own exactly when none comes late. */
  lemma {:induction false} ExtraGrows(n: nat, extra: seq<Fields>, us: seq<Rec>)
    ensures |extra| <= |ExtraAll(n, extra, us)| <= |extra| + |Unknown(us, n)|
    ensures |ExtraAll(n, extra, us)| == |extra| + |Unknown(us, n)| <==>
            NoneLate(us, n) && (extra == [] || forall j | 0 <= j < |us| :: us[j].id != -1)
    decreases |us|
  {
    if us != [] {
      var rest := us[1..];
      ExtraGrows(n, ExtraStep(n, extra, us[0]), rest);
      LateSplit(us, n);
    }
  }

  lemma LateSplit(us: seq<Rec>, n: nat)
    requires us != []
    ensures NoneLate(us, n) <==>
            NoneLate(us[1..], n) && (0 <= us[0].id < n || forall j | 0 <= j < |us[1..]| :: us[1..][j].id != -1)
  {
    var rest := us[1..];
    if NoneLate(us, n) {
      forall i, j {:trigger rest[i], rest[j]} | 0 <= i < j < |rest| && rest[j].id == -1 ensures 0 <= rest[i].id < n {
        assert us[i + 1] == rest[i] && us[j + 1] == rest[j];
      }
      forall j | 0 <= j < |rest| && rest[j].id == -1 ensures 0 <= us[0].id < n { assert us[j + 1] == rest[j]; }
    }
    if NoneLate(rest, n) && (0 <= us[0].id < n || forall j | 0 <= j < |rest| :: rest[j].id != -1) {
      forall i, j {:trigger us[i], us[j]} | 0 <= i < j < |us| && us[j].id == -1 ensures 0 <= us[i].id < n {
        assert us[j] == rest[j - 1];
        if i > 0 { assert us[i] == rest[i - 1]; }
      }
    }
  }

  lemma UnknownFirst(us: seq<Rec>, n: nat)
    requires us != [] && !(0 <= us[0].id < n)
    ensures FieldsOf(Unknown(us, n)) == [us[0].f] + FieldsOf(Unknown(us[1..], n))
  {
  }

  lemma {:induction false} ExtraAppended(n: nat, extra: seq<Fields>, us: seq<Rec>)
    requires NoneLate(us, n) && (extra == [] || forall j | 0 <= j < |us| :: us[j].id != -1)
    ensures ExtraAll(n, extra, us) == extra + FieldsOf(Unknown(us, n))
    decreases |us|
  {
    if us == [] {
      assert extra + FieldsOf([]) == extra;
    } else {
      var rest := us[1..];
      LateSplit(us, n);
      ExtraAppended(n, ExtraStep(n, extra, us[0]), rest);
      if !(0 <= us[0].id < n) {
        UnknownFirst(us, n);
        MergeIntoNothing(us[0].f);
        assert extra + [us[0].f] + FieldsOf(Unknown(rest, n)) == extra + FieldsOf(Unknown(us, n));
      }
    }
  }

  lemma MergeParts(evs: seq<Rec>, us: seq<Rec>)
    requires Numbered(evs)
    ensures var r, front, extra := Merge(evs, us), FrontAll(FieldsOf(evs), us), ExtraAll(|evs|, [], us);
            && Numbered(r) && |front| == |evs| && |r| == |evs| + |extra|
            && (forall k | 0 <= k < |evs| :: r[k].f == front[k])
            && FieldsOf(r[|evs|..]) == extra
  {
    var front := FieldsOf(evs);
    assert evs == Joined(front, []);
    MergeAllJoined(front, [], us);
    FrontUpdated(front, us);
  }

  /**
   A merge into a numbered list: the result is numbered, event k has taken its updates one
   after another, and behind the old events there is one new event for each unknown update,
   in order, exactly when no update with id -1 comes after an unknown one.
   */
  lemma MergeResult(evs: seq<Rec>, us: seq<Rec>)
    requires Numbered(evs)
    ensures var r, n := Merge(evs, us), |evs|;
            && Numbered(r) && |r| >= n
            && (forall k | 0 <= k < n :: r[k].f == Updated(evs[k].f, us, k))
            && (|r| == n + |Unknown(us, n)| <==> NoneLate(us, n))
            && (NoneLate(us, n) ==> FieldsOf(r[n..]) == FieldsOf(Unknown(us, n)))
  {
    var n := |evs|;
    MergeParts(evs, us);
    FrontUpdated(FieldsOf(evs), us);
    ExtraGrows(n, [], us);
    if NoneLate(us, n) {
      ExtraAppended(n, [], us);
    }
  }

  ghost function Others(us: seq<Rec>, id: int): seq<Rec>
    decreases |us|
  {
    if us == [] then [] else (if us[0].id == id then [] else [us[0]]) + Others(us[1..], id)
  }

  lemma FirstFirst(f: Fields, u: Rec, rest: seq<Rec>, k: int)
    ensures Updated(f, [u] + rest, k) == Updated(if u.id == k then MergeFields(f, u.f) else f, rest, k)
    ensures FieldsOf(Others([u] + rest, k)) == (if u.id == k then [] else [u.f]) + FieldsOf(Others(rest, k))
  {
    assert ([u] + rest)[1..] == rest;
    assert Others([u] + rest, k) == (if u.id == k then [] else [u]) + Others(rest, k);
  }

  lemma {:induction false} ExtraTakesLate(n: nat, extra: seq<Fields>, us: seq<Rec>)
    requires extra != []
    ensures ExtraAll(n, extra, us) ==
            [Updated(extra[0], Unknown(us, n), -1)] + extra[1..] + FieldsOf(Others(Unknown(us, n), -1))
    decreases |us|
  {
    if us == [] {
      assert extra == [extra[0]] + extra[1..] + FieldsOf([]);
    } else {
      var u, rest := us[0], Unknown(us[1..], n);
      ExtraTakesLate(n, ExtraStep(n, extra, u), us[1..]);
      if !(0 <= u.id < n) {
        assert Unknown(us, n) == [u] + rest;
        FirstFirst(extra[0], u, rest, -1);
        MergeIntoNothing(u.f);
        if u.id == -1 {
          assert ExtraStep(n, extra, u)[1..] == extra[1..];
          assert [] + FieldsOf(Others(rest, -1)) == FieldsOf(Others(rest, -1));
        } else {
          assert ExtraStep(n, extra, u)[1..] == extra[1..] + [u.f];
          Regrouped([Updated(extra[0], rest, -1)], extra[1..], u.f, FieldsOf(Others(rest, -1)));
        }
      } else {
        assert Unknown(us, n) == rest;
      }
    }
  }

  lemma Regrouped<T>(a: seq<T>, b: seq<T>, x: T, c: seq<T>)
    ensures a + (b + [x]) + c == a + b + ([x] + c)
  {
  }

  /**
   Where the updates that name no event go, whatever their order: the first one makes an event, every later
   one with id -1 is merged into that event, and each of the others makes an event of its own.
   */
  lemma UnknownResult(evs: seq<Rec>, us: seq<Rec>)
    requires Numbered(evs)
    ensures var r, n, unknown := Merge(evs, us), |evs|, Unknown(us, |evs|);
            if unknown == [] then |r| == n
            else
              && |r| > n && r[n].f == Updated(unknown[0].f, unknown[1..], -1)
              && FieldsOf(r[n + 1..]) == FieldsOf(Others(unknown[1..], -1))
  {
    MergeParts(evs, us);
    FirstExtra(|evs|, us);
    var unknown := Unknown(us, |evs|);
    if unknown != [] {
      FirstField(Merge(evs, us), |evs|, Updated(unknown[0].f, unknown[1..], -1), FieldsOf(Others(unknown[1..], -1)));
    }
  }

  lemma FirstField(r: seq<Rec>, n: nat, f: Fields, rest: seq<Fields>)
    requires n <= |r| && FieldsOf(r[n..]) == [f] + rest
    ensures |r| > n && r[n].f == f && FieldsOf(r[n + 1..]) == rest
  {
    assert |r[n..]| == |[f] + rest|;
    assert r[n].f == FieldsOf(r[n..])[0];
    assert FieldsOf(r[n + 1..]) == FieldsOf(r[n..])[1..];
  }

  lemma {:induction false} FirstExtra(n: nat, us: seq<Rec>)
    ensures var extra, unknown := ExtraAll(n, [], us), Unknown(us, n);
            if unknown == [] then extra == []
            else extra == [Updated(unknown[0].f, unknown[1..], -1)] + FieldsOf(Others(unknown[1..], -1))
    decreases |us|
  {
    if us != [] {
      var u, rest := us[0], Unknown(us[1..], n);
      if 0 <= u.id < n {
        FirstExtra(n, us[1..]);
        assert Unknown(us, n) == rest;
      } else {
        MergeIntoNothing(u.f);
        assert ExtraStep(n, [], u) == [u.f];
        ExtraTakesLate(n, [u.f], us[1..]);
        assert Unknown(us, n) == [u] + rest && ([u] + rest)[1..] == rest;
        assert [Updated(u.f, rest, -1)] + [u.f][1..] == [Updated(u.f, rest, -1)];
      }
    }
  }

  /** In particular none comes late when no update has a negative id. */
  lemma NonNegativeNoneLate(us: seq<Rec>, n: nat)
    requires forall j | 0 <= j < |us| :: us[j].id >= 0
    ensures NoneLate(us, n)
  {
  }

  /** An update with id -1 after an unknown one is merged into the new event instead. */
  lemma LateUpdateExample()
    ensures var f, g := NO_FIELDS.(time := Some("a")), NO_FIELDS.(info := Some("b"));
            Merge([Rec(0, NO_FIELDS)], [Rec(7, f), Rec(-1, g)]) == [Rec(0, NO_FIELDS), Rec(1, f.(info := Some("b")))]
  {
    var f, g := NO_FIELDS.(time := Some("a")), NO_FIELDS.(info := Some("b"));
    var evs := [Rec(0, NO_FIELDS)];
    var evs1 := MergeOne(evs, Rec(7, f));
    assert FindId(evs, 7) == 1 && evs1 == [Rec(0, NO_FIELDS), Rec(-1, f)];
    var evs2 := MergeOne(evs1, Rec(-1, g));
    assert FindId(evs1, -1) == 1;
    assert evs2 == [Rec(0, NO_FIELDS), Rec(-1, f.(info := Some("b")))];
    var us := [Rec(7, f), Rec(-1, g)];
    assert us[1..] == [Rec(-1, g)] && us[1..][1..] == [];
    assert MergeAll(evs, us) == MergeAll(evs1, us[1..]) == MergeAll(evs2, []);
  }

  /** From update i on, no update for event k gives the field. */
  ghost predicate NotGiven<T>(us: seq<Rec>, k: int, field: Fields -> Option<T>, i: nat) {
    forall j | i <= j < |us| && us[j].id == k :: field(us[j].f).None?
  }

  ghost predicate LastGivenAt<T>(r: Option<T>, us: seq<Rec>, k: int, field: Fields -> Option<T>, i: nat) {
    && i < |us| && us[i].id == k
    && field(us[i].f) == r && r.Some?
    && NotGiven(us, k, field, i + 1)
  }

  /** r is the last value that the updates for event k give a field, or v when they all leave it NULL. */
  ghost predicate IsLastGiven<T>(r: Option<T>, v: Option<T>, us: seq<Rec>, k: int, field: Fields -> Option<T>) {
    (r == v && NotGiven(us, k, field, 0)) || exists i: nat :: LastGivenAt(r, us, k, field, i)
  }

  lemma NotGivenBefore<T>(us: seq<Rec>, k: int, field: Fields -> Option<T>, i: nat)
    requires us != [] && NotGiven(us[1..], k, field, i)
    ensures NotGiven(us, k, field, i + 1)
  {
    forall j | i + 1 <= j < |us| && us[j].id == k ensures field(us[j].f).None? { assert us[1..][j - 1] == us[j]; }
  }

  lemma {:induction false} FieldLastGiven<T>(f: Fields, us: seq<Rec>, k: int, field: Fields -> Option<T>)
    requires forall g, u {:trigger MergeFields(g, u)} :: field(MergeFields(g, u)) == Override(field(g), field(u))
    ensures IsLastGiven(field(Updated(f, us, k)), field(f), us, k, field)
    decreases |us|
  {
    if us != [] {
      var rest := us[1..];
      var f' := if us[0].id == k then MergeFields(f, us[0].f) else f;
      var r := field(Updated(f, us, k));
      FieldLastGiven(f', rest, k, field);
      if i: nat :| LastGivenAt(r, rest, k, field, i) {
        NotGivenBefore(us, k, field, i + 1);
        assert us[i + 1] == rest[i] && LastGivenAt(r, us, k, field, i + 1);
      } else {
        NotGivenBefore(us, k, field, 0);
        if us[0].id == k && field(us[0].f).Some? {
          assert LastGivenAt(r, us, k, field, 0);
        } else {
          assert NotGiven(us, k, field, 0);
        }
      }
    }
  }

  /** Each field of an updated event is the last value given for it that is not NULL. */
  lemma UpdatedFields(f: Fields, us: seq<Rec>, k: int)
    ensures var r := Updated(f, us, k);
            && IsLastGiven(r.name, f.name, us, k, (g: Fields) => g.name)
            && IsLastGiven(r.value, f.value, us, k, (g: Fields) => g.value)
            && IsLastGiven(r.time, f.time, us, k, (g: Fields) => g.time)
            && IsLastGiven(r.info, f.info, us, k, (g: Fields) => g.info)
            && IsLastGiven(r.recurrence, f.recurrence, us, k, (g: Fields) => g.recurrence)
  {
    FieldLastGiven(f, us, k, (g: Fields) => g.name);
    FieldLastGiven(f, us, k, (g: Fields) => g.value);
    FieldLastGiven(f, us, k, (g: Fields) => g.time);
    FieldLastGiven(f, us, k, (g: Fields) => g.info);
    FieldLastGiven(f, us, k, (g: Fields) => g.recurrence);
  }

  // ---------------------------------------------------------------- runs

  datatype Change = Merging(updates: seq<Rec>) | Removing(id: int)

  ghost function Changed(evs: seq<Rec>, c: Change): seq<Rec> {
    match c
    case Merging(us) => Merge(evs, us)
    case Removing(id) => Remove(evs, id)
  }

  ghost function After(evs: seq<Rec>, cs: seq<Change>): seq<Rec>
    decreases |cs|
  {
    if cs == [] then evs else After(Changed(evs, cs[0]), cs[1..])
  }

  /** Any run of merges and removals ends with ids that are positions. */
  lemma {:induction false} RunNumbered(evs: seq<Rec>, cs: seq<Change>)
    requires Numbered(evs)
    ensures Numbered(After(evs, cs))
    decreases |cs|
  {
    if cs != [] {
      RunNumbered(Changed(evs, cs[0]), cs[1..]);
    }
  }
}
