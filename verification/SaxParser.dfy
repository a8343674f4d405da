/** The SAX callbacks of mio.c, building a tree of stanza objects behind a cursor. */
module SaxParser {
  import opened SaxSpec

  /** xmpp_stanza_t: a tag with attributes and children, or a piece of text. */
  class Stanza {
    var isText: bool
    var data: string
    var attributes: map<string, string>
    var children: seq<Stanza>
    var parent: Stanza?

    /** xmpp_stanza_new, then set_name. */
    constructor Tag(name: string)
      ensures !isText && data == name && attributes == map[] && children == [] && parent == null
    {
      isText, data, attributes, children, parent := false, name, map[], [], null;
    }

    /** xmpp_stanza_new, then set_text_with_size. */
    constructor Text(text: string)
      ensures isText && data == text && children == [] && parent == null
    {
      isText, data, attributes, children, parent := true, text, map[], [], null;
    }
  }

  /** The children of x are different from each other, and x is the parent of each of the first n. */
  ghost predicate IsParent(x: Stanza, n: nat, done: set<Stanza>)
    reads x, done
  {
    && n <= |x.children|
    && (forall i {:trigger x.children[i]} | 0 <= i < n :: x.children[i] in done && x.children[i].parent == x)
    && forall i, j {:trigger x.children[i], x.children[j]} | 0 <= i < j < n :: x.children[i] != x.children[j]
  }

  /**
   x, with everything below it in `done`, is the tree t, and every stanza below x has its parent
   and its one place.
   */
  ghost predicate Denotes(x: Stanza, t: Tree, done: set<Stanza>)
    reads done
    decreases t
  {
    && x in done
    && match t
       case Text(s) => x.isText && x.data == s && x.children == []
       case Node(n, a, ks) =>
         && !x.isText && x.data == n && x.attributes == a && |x.children| == |ks| && IsParent(x, |ks|, done)
         && forall i {:trigger ks[i]} | 0 <= i < |ks| :: Denotes(x.children[i], ks[i], done)
  }

  lemma {:induction false} DenotesMore(x: Stanza, t: Tree, done: set<Stanza>, more: set<Stanza>)
    requires Denotes(x, t, done) && done <= more
    ensures Denotes(x, t, more)
    decreases t
  {
    match t
    case Text(_) =>
    case Node(_, _, ks) =>
      forall i {:trigger ks[i]} | 0 <= i < |ks| ensures Denotes(x.children[i], ks[i], more) {
        DenotesMore(x.children[i], ks[i], done, more);
      }
  }

  /** x is open as o says; `next` is the open child below it, if there is one. */
  ghost predicate IsOpen(x: Stanza, o: Open, parent: Stanza?, next: Stanza?, done: set<Stanza>)
    reads x, done
  {
    && x !in done && !x.isText && x.data == o.name && x.attributes == o.attrs && x.parent == parent
    && |x.children| == |o.kids| + (if next == null then 0 else 1)
    && (next != null ==> x.children[|o.kids|] == next)
    && IsParent(x, |o.kids|, done)
    && (forall i {:trigger o.kids[i]} | 0 <= i < |o.kids| :: Denotes(x.children[i], o.kids[i], done))
  }

  lemma OpenMore(x: Stanza, o: Open, parent: Stanza?, next: Stanza?, done: set<Stanza>, more: set<Stanza>)
    requires IsOpen(x, o, parent, next, done) && done <= more && x !in more
    ensures IsOpen(x, o, parent, next, more)
  {
    forall i {:trigger o.kids[i]} | 0 <= i < |o.kids| ensures Denotes(x.children[i], o.kids[i], more) {
      DenotesMore(x.children[i], o.kids[i], done, more);
    }
  }

  ghost function At(path: seq<Stanza>, i: int): Stanza? {
    if 0 <= i < |path| then path[i] else null
  }

  /** The open stanzas from the root down. */
  ghost predicate IsPath(path: seq<Stanza>, open: seq<Open>, done: set<Stanza>)
    reads path, done
  {
    && |path| == |open|
    && (forall i, j {:trigger path[i], path[j]} | 0 <= i < j < |path| :: path[i] != path[j])
    && (forall i {:trigger open[i]} | 0 <= i < |path| ::
          IsOpen(path[i], open[i], At(path, i - 1), At(path, i + 1), done))
  }

  /** xmpp_stanza_add_child of a fresh tag, which becomes the end of the path. */
  method OpenChild(x: Stanza, child: Stanza, ghost path: seq<Stanza>, ghost open: seq<Open>, ghost done: set<Stanza>,
                   ghost o: Open)
    requires IsPath(path, open, done) && path != [] && x == path[|path| - 1] && child !in path
    requires IsOpen(child, o, null, null, done) && o.kids == []
    modifies x`children, child`parent
    ensures IsPath(path + [child], open + [o], done)
  {
    ghost var n, path', open' := |path| - 1, path + [child], open + [o];
    assert IsOpen(x, open[n], At(path, n - 1), null, done);
    x.children := x.children + [child];
    child.parent := x;
    forall i {:trigger open'[i]} | 0 <= i < |path'|
      ensures IsOpen(path'[i], open'[i], At(path', i - 1), At(path', i + 1), done)
    {
      if i < n {
        assert old(IsOpen(path[i], open[i], At(path, i - 1), At(path, i + 1), done));
      } else if i == n {
        assert old(IsOpen(path[n], open[n], At(path, n - 1), At(path, n + 1), done));
        forall j {:trigger open[n].kids[j]} | 0 <= j < |open[n].kids|
          ensures Denotes(x.children[j], open[n].kids[j], done)
        {
          assert old(Denotes(x.children[j], open[n].kids[j], done));
        }
      }
    }
  }

  /** xmpp_stanza_add_child of a finished stanza to the end of the path. */
  method AddText(x: Stanza, child: Stanza, ghost path: seq<Stanza>, ghost open: seq<Open>, ghost done: set<Stanza>,
                 ghost t: Tree)
    requires IsPath(path, open, done) && path != [] && x == path[|path| - 1]
    requires child !in path && child !in done && t.Text? && child.isText && child.data == t.text && child.children == []
    modifies x`children, child`parent
    ensures IsPath(path, AddKid(open, t), done + {child})
  {
    ghost var n, open', done' := |path| - 1, AddKid(open, t), done + {child};
    ghost var kids := open[n].kids;
    assert IsOpen(path[n], open[n], At(path, n - 1), null, done);
    x.children := x.children + [child];
    child.parent := x;
    assert Denotes(child, t, done');
    forall i {:trigger open'[i]} | 0 <= i < |path|
      ensures IsOpen(path[i], open'[i], At(path, i - 1), At(path, i + 1), done')
    {
      if i < n {
        assert old(IsOpen(path[i], open[i], At(path, i - 1), At(path, i + 1), done));
        OpenMore(path[i], open[i], At(path, i - 1), At(path, i + 1), done, done');
      } else {
        forall j {:trigger open'[n].kids[j]} | 0 <= j < |kids| + 1
          ensures Denotes(x.children[j], open'[n].kids[j], done')
        {
          if j < |kids| {
            assert old(Denotes(x.children[j], kids[j], done));
            DenotesMore(x.children[j], kids[j], done, done');
          }
        }
      }
    }
  }

  /** The end of the path is finished: its parent becomes the end. */
  lemma CloseLast(path: seq<Stanza>, open: seq<Open>, done: set<Stanza>)
    requires IsPath(path, open, done) && |path| > 1
    ensures var n := |path| - 1;
            IsPath(path[..n], AddKid(open[..n], Closed(open[n])), done + {path[n]})
  {
    var n := |path| - 1;
    var x, path', open', done' := path[n], path[..n], AddKid(open[..n], Closed(open[n])), done + {path[n]};
    assert IsOpen(x, open[n], path[n - 1], null, done);
    forall i {:trigger open[n].kids[i]} | 0 <= i < |open[n].kids|
      ensures Denotes(x.children[i], open[n].kids[i], done')
    {
      DenotesMore(x.children[i], open[n].kids[i], done, done');
    }
    assert Denotes(x, Closed(open[n]), done');
    forall i {:trigger open'[i]} | 0 <= i < n
      ensures IsOpen(path'[i], open'[i], At(path', i - 1), At(path', i + 1), done')
    {
      assert path'[i] == path[i] && path[i] != x;
      OpenMore(path[i], open[i], At(path, i - 1), At(path, i + 1), done, done');
    }
  }

  ghost function Nodes(path: seq<Stanza>): set<Stanza> {
    set x | x in path
  }

  /** mio_parser_t. */
  class Parser {
    var depth: int
    var stanza: Stanza?

    /** The open stanzas from the root to the cursor, the finished ones, and what they amount to. */
    ghost var path: seq<Stanza>
    ghost var done: set<Stanza>
    ghost var state: State

    ghost predicate Valid()
      reads this, path, done
    {
      depth == state.depth && stanza == At(path, |path| - 1) && IsPath(path, state.open, done)
    }

    /** mio_parser_new. */
    constructor ()
      ensures Valid() && state == INITIAL && path == [] && done == {}
    {
      depth, stanza, path, done, state := 0, null, [], {}, INITIAL;
    }

    /** _mio_parser_set_attributes. */
    static method SetAttributes(x: Stanza, attrs: seq<(string, string)>)
      requires x.attributes == map[]
      modifies x`attributes
      ensures x.attributes == AttrMap(attrs) && Given(x.attributes, attrs)
    {
      for i := 0 to |attrs|
        invariant x.attributes == AttrMap(attrs[..i])
      {
        assert attrs[..i + 1][..i] == attrs[..i];
        x.attributes := x.attributes[attrs[i].0 := attrs[i].1];
      }
      assert attrs[..|attrs|] == attrs;
      AttrsGiven(attrs);
    }

    /** The cursor and the depth after a callback. */
    method Put(to: Stanza, depth': int, ghost path': seq<Stanza>, ghost done': set<Stanza>, ghost state': State)
      requires depth' == state'.depth && to == At(path', |path'| - 1) && IsPath(path', state'.open, done')
      modifies this
      ensures Valid() && path == path' && done == done' && state == state'
    {
      stanza, depth, path, done, state := to, depth', path', done', state';
    }

    static method NewTag(name: string, attrs: seq<(string, string)>) returns (x: Stanza)
      ensures fresh(x) && !x.isText && x.data == name && x.children == [] && x.parent == null
      ensures x.attributes == AttrMap(attrs)
    {
      x := new Stanza.Tag(name);
      SetAttributes(x, attrs);
    }

    /** _mio_parser_start_element. */
    method StartElementHandler(name: string, attrs: seq<(string, string)>)
      requires Valid()
      modifies this, Nodes(path)
      ensures Valid() && state == Step(old(state), StartElement(name, attrs))
      ensures done == old(done) && fresh(Nodes(path) - old(Nodes(path)))
    {
      var child := NewTag(name, attrs);
      ghost var o := Open(name, AttrMap(attrs), []);
      if stanza != null {
        OpenChild(stanza, child, path, state.open, done, o);
      } else {
        assert path + [child] == [child] && state.open + [o] == [o];
      }
      Put(child, depth + 1, path + [child], done, Step(state, StartElement(name, attrs)));
    }

    /** _mio_parser_end_element. */
    method EndElementHandler()
      requires Valid() && path != []
      modifies this
      ensures Valid() && state == Step(old(state), EndElement)
      ensures Nodes(path) <= old(Nodes(path)) && done <= old(Nodes(path) + done)
    {
      ghost var n := |path| - 1;
      assert IsOpen(path[n], state.open[n], At(path, n - 1), null, done);
      if n > 0 { CloseLast(path, state.open, done); }
      var to, depth' := stanza, depth - 1;
      ghost var path', done' := path, done;
      if depth' != 0 && stanza.parent != null {
        to := stanza.parent;
        path', done' := path[..n], done + {path[n]};
      }
      Put(to, depth', path', done', Step(state, EndElement));
    }

    /** _mio_parser_characters. */
    method CharactersHandler(text: string)
      requires Valid() && (depth >= 2 ==> path != [])
      modifies this, Nodes(path)
      ensures Valid() && state == Step(old(state), Characters(text))
      ensures path == old(path) && fresh(done - old(done))
    {
      if depth < 2 {
        return;
      }
      var child := new Stanza.Text(text);
      AddText(stanza, child, path, state.open, done, SaxSpec.Text(text));
      Put(stanza, depth, path, done + {child}, Step(state, Characters(text)));
    }
  }

  /** What expat does with the events of a document: one callback after another. */
  method Dispatch(p: Parser, es: seq<Event>)
    requires p.Valid() && CanFeed(p.state, es)
    modifies p, Nodes(p.path)
    ensures p.Valid() && p.state == Feed(old(p.state), es)
    ensures fresh(Nodes(p.path) + p.done - old(Nodes(p.path) + p.done))
    decreases |es|
  {
    if es != [] {
      ghost var before := Nodes(p.path) + p.done;
      match es[0] {
        case StartElement(n, a) => p.StartElementHandler(n, a);
        case Characters(text) => p.CharactersHandler(text);
        case EndElement => p.EndElementHandler();
      }
      ghost var mid := Nodes(p.path) + p.done;
      assert fresh(mid - before);
      Dispatch(p, es[1..]);
      assert Nodes(p.path) + p.done - before <= (Nodes(p.path) + p.done - mid) + (mid - before);
    }
  }

  /**
   mio_parse on the text of a document: the stanza handed back is the root of a new tree,
   equal to the document's but for the text that stands directly in the root.
   */
  method Parse(doc: Xml) returns (root: Stanza, ghost nodes: set<Stanza>)
    requires doc.Elem?
    ensures fresh(nodes) && Denotes(root, Parsed(doc), nodes) && root.parent == null
    ensures root.data == doc.name && Given(root.attributes, doc.attrs)
  {
    FeedDocument(doc);
    var p := new Parser();
    Dispatch(p, Events(doc));
    root := p.stanza;
    nodes := p.done + {root};
    RootDenotes(p.path, p.state.open, p.done);
    AttrsGiven(doc.attrs);
  }

  lemma RootDenotes(path: seq<Stanza>, open: seq<Open>, done: set<Stanza>)
    requires IsPath(path, open, done) && |open| == 1
    ensures Denotes(path[0], Closed(open[0]), done + {path[0]}) && path[0].parent == null && path[0] in Nodes(path)
  {
    var x, o, nodes := path[0], open[0], done + {path[0]};
    assert IsOpen(x, o, null, null, done);
    forall i {:trigger o.kids[i]} | 0 <= i < |o.kids| ensures Denotes(x.children[i], o.kids[i], nodes) {
      DenotesMore(x.children[i], o.kids[i], done, nodes);
    }
  }

  // ---------------------------------------------------------------- one place for each stanza

  /** The stanza reached from x by taking these children, one below the other. */
  ghost function Below(x: Stanza, steps: seq<nat>, nodes: set<Stanza>): (y: Stanza?)
    requires x in nodes
    reads nodes
    ensures y == null || y in nodes
    decreases |steps|
  {
    if steps == [] then x
    else
      var y := Below(x, steps[..|steps| - 1], nodes);
      var i := steps[|steps| - 1];
      if y != null && i < |y.children| && y.children[i] in nodes then y.children[i] else null
  }

  lemma {:induction false} BelowDenotes(x: Stanza, t: Tree, steps: seq<nat>, nodes: set<Stanza>) returns (sub: Tree)
    requires Denotes(x, t, nodes) && Below(x, steps, nodes) != null
    ensures Denotes(Below(x, steps, nodes), sub, nodes)
    decreases |steps|
  {
    sub := t;
    if steps != [] {
      sub := BelowDenotes(x, t, steps[..|steps| - 1], nodes);
      sub := sub.kids[steps[|steps| - 1]];
    }
  }

  /** A stanza of a parsed tree stands in one place only: different ways down lead to different stanzas. */
  lemma {:induction false} OnePlace(x: Stanza, t: Tree, p: seq<nat>, q: seq<nat>, nodes: set<Stanza>)
    requires Denotes(x, t, nodes) && x.parent == null
    requires Below(x, p, nodes) == Below(x, q, nodes) != null
    ensures p == q
    decreases |p|
  {
    if p != [] {
      var _ := BelowDenotes(x, t, p[..|p| - 1], nodes);
    }
    if q != [] {
      var _ := BelowDenotes(x, t, q[..|q| - 1], nodes);
    }
    if p != [] && q != [] {
      OnePlace(x, t, p[..|p| - 1], q[..|q| - 1], nodes);
      assert p == p[..|p| - 1] + [p[|p| - 1]] && q == q[..|q| - 1] + [q[|q| - 1]];
    }
  }
}
