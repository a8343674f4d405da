/**
 What the SAX callbacks of mio.c do, as steps on a stack of open elements, and what a
 whole document makes of them.
 */
module SaxSpec {
  /** An XML document as it is written: attributes in order, text where it stands. */
  datatype Xml =
    | Chars(text: string)
    | Elem(name: string, attrs: seq<(string, string)>, kids: seq<Xml>)

  /** A finished stanza tree. */
  datatype Tree =
    | Text(text: string)
    | Node(name: string, attrs: map<string, string>, kids: seq<Tree>)

  datatype Event =
    | StartElement(name: string, attrs: seq<(string, string)>)
    | Characters(text: string)
    | EndElement

  /** The calls expat makes for a document, in order. */
  function Events(x: Xml): seq<Event> {
    match x
    case Chars(s) => [Characters(s)]
    case Elem(n, a, ks) => [StartElement(n, a)] + AllEvents(ks) + [EndElement]
  }

  function AllEvents(ks: seq<Xml>): seq<Event> {
    if ks == [] then [] else Events(ks[0]) + AllEvents(ks[1..])
  }

  /** Setting attributes one by one: a later value replaces an earlier one. */
  ghost function AttrMap(attrs: seq<(string, string)>): map<string, string> {
    if attrs == [] then map[]
    else
      var last := attrs[|attrs| - 1];
      AttrMap(attrs[..|attrs| - 1])[last.0 := last.1]
  }

  ghost predicate IsName(name: string, attrs: seq<(string, string)>) {
    exists i :: 0 <= i < |attrs| && attrs[i].0 == name
  }

  /** No later pair has the name of pair i. */
  ghost predicate IsLast(attrs: seq<(string, string)>, i: nat)
    requires i < |attrs|
  {
    forall j | i < j < |attrs| :: attrs[j].0 != attrs[i].0
  }

  /** m has the names of the pairs, each with the value of the last pair of that name. */
  ghost predicate Given(m: map<string, string>, attrs: seq<(string, string)>) {
    var given :=
      && (forall name :: name in m <==> IsName(name, attrs))
      && forall i: nat | i < |attrs| && IsLast(attrs, i) :: attrs[i].0 in m && m[attrs[i].0] == attrs[i].1;
    given
  }

  lemma {:induction false} AttrsGiven(attrs: seq<(string, string)>)
    ensures Given(AttrMap(attrs), attrs)
    decreases |attrs|
  {
    if attrs != [] {
      var front, last := attrs[..|attrs| - 1], attrs[|attrs| - 1];
      assert attrs == front + [last];
      assert Given(AttrMap(front)[last.0 := last.1], front + [last]) by {
        AttrsGiven(front);
        GivenNext(AttrMap(front), front, last);
      }
    }
  }

  lemma GivenNext(m: map<string, string>, front: seq<(string, string)>, last: (string, string))
    requires Given(m, front)
    ensures Given(m[last.0 := last.1], front + [last])
  {
    var attrs, n := front + [last], |front|;
    forall name ensures name in m[last.0 := last.1] <==> IsName(name, attrs) {
      if IsName(name, front) {
        var i :| 0 <= i < n && front[i].0 == name;
        assert attrs[i].0 == name;
      }
      if IsName(name, attrs) && name != last.0 {
        var i :| 0 <= i <= n && attrs[i].0 == name;
        assert front[i].0 == name;
      }
      assert attrs[n].0 == last.0;
    }
    forall i: nat | i <= n && IsLast(attrs, i)
      ensures attrs[i].0 in m[last.0 := last.1] && m[last.0 := last.1][attrs[i].0] == attrs[i].1
    {
      if i < n {
        assert attrs[n].0 != attrs[i].0;
        assert IsLast(front, i) by {
          assert forall j | i < j < n :: front[j] == attrs[j];
        }
      }
    }
  }

  // ---------------------------------------------------------------- the callbacks as steps

  /** An element whose end has not come yet, with the children that are finished. */
  datatype Open = Open(name: string, attrs: map<string, string>, kids: seq<Tree>)

  /** The open elements from the root to the cursor, and the depth counter. */
  datatype State = State(open: seq<Open>, depth: int)

  const INITIAL := State([], 0)

  ghost function Closed(o: Open): Tree {
    Node(o.name, o.attrs, o.kids)
  }

  ghost function AddKid(open: seq<Open>, t: Tree): seq<Open>
    requires open != []
  {
    var i := |open| - 1;
    open[i := open[i].(kids := open[i].kids + [t])]
  }

  ghost predicate CanStep(s: State, e: Event) {
    match e
    case StartElement(_, _) => true
    case Characters(_) => s.depth >= 2 ==> s.open != []
    case EndElement => s.open != []
  }

  ghost function Step(s: State, e: Event): State
    requires CanStep(s, e)
  {
    match e
    case StartElement(n, a) => State(s.open + [Open(n, AttrMap(a), [])], s.depth + 1)
    case Characters(text) => if s.depth < 2 then s else s.(open := AddKid(s.open, Text(text)))
    case EndElement =>
      var n := |s.open| - 1;
      if s.depth - 1 != 0 && n > 0 then State(AddKid(s.open[..n], Closed(s.open[n])), s.depth - 1)
      else s.(depth := s.depth - 1)
  }

  ghost predicate CanFeed(s: State, es: seq<Event>)
    decreases |es|
  {
    es != [] ==> CanStep(s, es[0]) && CanFeed(Step(s, es[0]), es[1..])
  }

  ghost function Feed(s: State, es: seq<Event>): State
    requires CanFeed(s, es)
    decreases |es|
  {
    if es == [] then s else Feed(Step(s, es[0]), es[1..])
  }

  lemma {:induction false} FeedConcat(s: State, es: seq<Event>, fs: seq<Event>)
    requires CanFeed(s, es) && CanFeed(Feed(s, es), fs)
    ensures CanFeed(s, es + fs) && Feed(s, es + fs) == Feed(Feed(s, es), fs)
    decreases |es|
  {
    if es == [] {
      assert es + fs == fs;
    } else {
      assert (es + fs)[1..] == es[1..] + fs;
      FeedConcat(Step(s, es[0]), es[1..], fs);
    }
  }

  // ---------------------------------------------------------------- what a document becomes

  /** The tree of an element below the root: everything is kept. */
  ghost function Full(x: Xml): Tree {
    match x
    case Chars(s) => Text(s)
    case Elem(n, a, ks) => Node(n, AttrMap(a), FullAll(ks))
  }

  ghost function FullAll(ks: seq<Xml>): seq<Tree> {
    if ks == [] then [] else [Full(ks[0])] + FullAll(ks[1..])
  }

  /** The children of the root: its own text is dropped. */
  ghost function RootKids(ks: seq<Xml>): seq<Tree> {
    if ks == [] then [] else (if ks[0].Chars? then [] else [Full(ks[0])]) + RootKids(ks[1..])
  }

  ghost function Parsed(x: Xml): Tree
    requires x.Elem?
  {
    Node(x.name, AttrMap(x.attrs), RootKids(x.kids))
  }

  /** In the middle of a document the depth counter is the number of open elements. */
  ghost predicate Inside(s: State) {
    s.open != [] && s.depth == |s.open|
  }

  ghost function Grown(s: State, ts: seq<Tree>): State
    requires s.open != []
  {
    var i := |s.open| - 1;
    s.(open := s.open[i := s.open[i].(kids := s.open[i].kids + ts)])
  }

  /** What one node adds to the element it stands in. */
  ghost function Added(s: State, x: Xml): seq<Tree> {
    if x.Chars? && s.depth < 2 then [] else [Full(x)]
  }

  ghost function AddedAll(s: State, ks: seq<Xml>): seq<Tree> {
    if ks == [] then [] else Added(s, ks[0]) + AddedAll(s, ks[1..])
  }

  lemma GrownByNothing(s: State)
    requires s.open != []
    ensures Grown(s, []) == s
  {
    var i := |s.open| - 1;
    assert s.open[i].kids + [] == s.open[i].kids;
    assert Grown(s, []).open == s.open;
  }

  lemma GrownTwice(s: State, ts: seq<Tree>, us: seq<Tree>)
    requires s.open != []
    ensures Grown(s, ts).open != [] && Grown(Grown(s, ts), us) == Grown(s, ts + us)
  {
    var i := |s.open| - 1;
    assert s.open[i].kids + ts + us == s.open[i].kids + (ts + us);
    assert Grown(Grown(s, ts), us).open == Grown(s, ts + us).open;
  }

  /** Feeding a node inside a document adds its tree to the cursor's element and moves nothing else. */
  lemma {:induction false} FeedNode(s: State, x: Xml)
    requires Inside(s)
    ensures CanFeed(s, Events(x)) && Feed(s, Events(x)) == Grown(s, Added(s, x))
    decreases x, 1
  {
    match x
    case Chars(text) =>
      var es := [Characters(text)];
      assert es[1..] == [] && Feed(Step(s, es[0]), []) == Step(s, es[0]);
      GrownByNothing(s);
    case Elem(n, a, ks) =>
      var start, end := [StartElement(n, a)], [EndElement];
      var s1 := Step(s, start[0]);
      assert start[1..] == [] && Feed(s, start) == Feed(s1, []) == s1;
      FeedNodes(s1, ks);
      AddedDeep(s1, ks);
      var s2 := Grown(s1, FullAll(ks));
      FeedConcat(s, start, AllEvents(ks));
      assert CanStep(s2, EndElement) && end[1..] == [] && Feed(s2, end) == Feed(Step(s2, EndElement), []);
      FeedConcat(s, start + AllEvents(ks), end);
      EndOf(s, n, a, ks);
  }

  lemma EndOf(s: State, n: string, a: seq<(string, string)>, ks: seq<Xml>)
    requires Inside(s)
    ensures var s1 := Step(s, StartElement(n, a));
            Step(Grown(s1, FullAll(ks)), EndElement) == Grown(s, [Full(Elem(n, a, ks))])
  {
    var s1 := Step(s, StartElement(n, a));
    var s2 := Grown(s1, FullAll(ks));
    var k := |s.open|;
    assert s2.open[k].kids == [] + FullAll(ks) == FullAll(ks);
    assert s2.open[..k] == s.open;
  }

  lemma {:induction false} FeedNodes(s: State, ks: seq<Xml>)
    requires Inside(s)
    ensures CanFeed(s, AllEvents(ks)) && Feed(s, AllEvents(ks)) == Grown(s, AddedAll(s, ks))
    decreases ks, 0
  {
    if ks == [] {
      GrownByNothing(s);
    } else {
      FeedNode(s, ks[0]);
      var s1 := Grown(s, Added(s, ks[0]));
      FeedNodes(s1, ks[1..]);
      SameDepth(s, s1, ks[1..]);
      FeedConcat(s, Events(ks[0]), AllEvents(ks[1..]));
      GrownTwice(s, Added(s, ks[0]), AddedAll(s, ks[1..]));
    }
  }

  lemma {:induction false} SameDepth(s: State, t: State, ks: seq<Xml>)
    requires s.depth == t.depth
    ensures AddedAll(s, ks) == AddedAll(t, ks)
  {
    if ks != [] { SameDepth(s, t, ks[1..]); }
  }

  lemma {:induction false} AddedDeep(s: State, ks: seq<Xml>)
    requires s.depth >= 2
    ensures AddedAll(s, ks) == FullAll(ks)
  {
    if ks != [] { AddedDeep(s, ks[1..]); }
  }

  lemma {:induction false} AddedAtRoot(s: State, ks: seq<Xml>)
    requires s.depth == 1
    ensures AddedAll(s, ks) == RootKids(ks)
  {
    if ks != [] { AddedAtRoot(s, ks[1..]); }
  }

  /**
   Feeding a whole document leaves the cursor on the root, with the depth counter back at 0:
   the tree is the document's, less the text that stands directly in the root.
   */
  lemma FeedDocument(x: Xml)
    requires x.Elem?
    ensures CanFeed(INITIAL, Events(x))
    ensures var s := Feed(INITIAL, Events(x));
            s.depth == 0 && |s.open| == 1 && Closed(s.open[0]) == Parsed(x)
  {
    var start, end := [StartElement(x.name, x.attrs)], [EndElement];
    var s1 := Step(INITIAL, start[0]);
    assert start[1..] == [] && Feed(INITIAL, start) == Feed(s1, []) == s1;
    FeedNodes(s1, x.kids);
    AddedAtRoot(s1, x.kids);
    var s2 := Grown(s1, RootKids(x.kids));
    FeedConcat(INITIAL, start, AllEvents(x.kids));
    assert CanStep(s2, EndElement) && end[1..] == [] && Feed(s2, end) == Feed(Step(s2, EndElement), []);
    FeedConcat(INITIAL, start + AllEvents(x.kids), end);
    assert s2.open[0].kids == [] + RootKids(x.kids) == RootKids(x.kids);
  }

  /** Nothing is lost exactly when the root has no text of its own. */
  lemma ParsedIsFull(x: Xml)
    requires x.Elem?
    ensures Parsed(x) == Full(x) <==> forall k | k in x.kids :: k.Elem?
  {
    RootKidsFull(x.kids);
  }

  /** t says what x says: names, attributes, texts, and the children in order. */
  ghost predicate Copies(t: Tree, x: Xml) {
    match x
    case Chars(s) => t.Text? && t.text == s
    case Elem(n, a, ks) =>
      && t.Node? && t.name == n && Given(t.attrs, a) && |t.kids| == |ks|
      && forall i {:trigger ks[i]} | 0 <= i < |ks| :: Copies(t.kids[i], ks[i])
  }

  lemma {:induction false} FullCopies(x: Xml)
    ensures Copies(Full(x), x)
  {
    match x
    case Chars(_) =>
    case Elem(_, a, ks) =>
      AttrsGiven(a);
      FullAllAt(ks);
      forall i {:trigger ks[i]} | 0 <= i < |ks| ensures Copies(FullAll(ks)[i], ks[i]) {
        FullCopies(ks[i]);
      }
  }

  lemma {:induction false} FullAllAt(ks: seq<Xml>)
    ensures |FullAll(ks)| == |ks| && forall i | 0 <= i < |ks| :: FullAll(ks)[i] == Full(ks[i])
  {
    if ks != [] {
      FullAllAt(ks[1..]);
    }
  }

  /** The trees are copies of the child elements, one each and in order; texts are stepped over. */
  ghost predicate CopiesOfElements(ts: seq<Tree>, ks: seq<Xml>)
    decreases |ks|
  {
    if ks == [] then ts == []
    else if ks[0].Chars? then CopiesOfElements(ts, ks[1..])
    else ts != [] && Copies(ts[0], ks[0]) && CopiesOfElements(ts[1..], ks[1..])
  }

  /** The parsed tree has the root's name and attributes, and copies of its child elements, and nothing else. */
  lemma ParsedCopies(x: Xml)
    requires x.Elem?
    ensures Parsed(x).name == x.name && Given(Parsed(x).attrs, x.attrs)
    ensures CopiesOfElements(Parsed(x).kids, x.kids)
  {
    AttrsGiven(x.attrs);
    RootKidsCopies(x.kids);
  }

  lemma {:induction false} RootKidsCopies(ks: seq<Xml>)
    ensures CopiesOfElements(RootKids(ks), ks)
  {
    if ks != [] {
      RootKidsCopies(ks[1..]);
      if ks[0].Elem? {
        var ts := RootKids(ks);
        FullCopies(ks[0]);
        assert Copies(ts[0], ks[0]) && ts[1..] == RootKids(ks[1..]);
      } else {
        assert RootKids(ks) == RootKids(ks[1..]);
      }
    }
  }

  lemma {:induction false} RootKidsFull(ks: seq<Xml>)
    ensures |RootKids(ks)| <= |FullAll(ks)| == |ks|
    ensures RootKids(ks) == FullAll(ks) <==> forall k | k in ks :: k.Elem?
  {
    if ks != [] {
      RootKidsFull(ks[1..]);
      assert forall k | k in ks :: k == ks[0] || k in ks[1..];
      if ks[0].Elem? {
        assert RootKids(ks)[1..] == RootKids(ks[1..]) && FullAll(ks)[1..] == FullAll(ks[1..]);
      }
    }
  }
}
