/** The cache of nodes behind the mio file system (mio_client.c). */
module DirCache {
  import opened Elements
  import opened UtList
  import opened Wrappers

  /** What the server says about a node; Unknown stands for -1. */
  datatype NodeType = Unknown | Leaf | Collection

  /** A struct node_child: a list cell that points to a node. */
  type Cell = Elt<MioNode>

  /** struct mio_node. */
  class MioNode {
    const id: string
    const kind: NodeType
    const isArtifact: bool
    const isSubscribed: bool
    var modified: int
    var children: Elt?<MioNode>

    constructor (id: string, kind: NodeType, isSubscribed: bool, isArtifact: bool)
      ensures this.id == id && this.kind == kind && this.isSubscribed == isSubscribed && this.isArtifact == isArtifact
      ensures modified == 0 && children == null
    {
      this.id, this.kind, this.isSubscribed, this.isArtifact := id, kind, isSubscribed, isArtifact;
      modified, children := 0, null;
    }
  }

  /** The answer to a query for the children of a collection; an entry may name no node. */
  datatype Reply = Listing(entries: seq<Option<string>>) | NoListing

  /** The answer to a query for the subscriptions. */
  datatype Response = Subscriptions(ids: seq<string>) | OtherPacket | NoPacket

  datatype Status = Ok | UnknownResponseType | UnknownPacketType

  // ---------------------------------------------------------------- what a refresh should give

  function Named(entries: seq<Option<string>>): (ids: seq<string>)
    decreases |entries|
  {
    if entries == [] then []
    else (if entries[0].Some? then [entries[0].value] else []) + Named(entries[1..])
  }

  /** The ids of the entries that have one, in order. */
  lemma {:induction false} NamedParts(entries: seq<Option<string>>, more: seq<Option<string>>)
    ensures Named(entries + more) == Named(entries) + Named(more)
  {
    if entries == [] {
      assert entries + more == more;
    } else {
      NamedParts(entries[1..], more);
      assert (entries + more)[1..] == entries[1..] + more;
    }
  }

  lemma NamedOne(id: string)
    ensures Named([]) == [] && Named([None]) == [] && Named([Some(id)]) == [id]
  {
  }

  /** The first cell from i on for a node with this id, or the length when there is none. */
  ghost function FindFrom(cells: seq<Cell>, id: string, i: nat): (k: nat)
    requires i <= |cells|
    ensures i <= k <= |cells| && (k < |cells| ==> cells[k].val.id == id)
    ensures forall j {:trigger cells[j].val} | i <= j < k :: cells[j].val.id != id
    decreases |cells| - i
  {
    if i == |cells| || cells[i].val.id == id then i else FindFrom(cells, id, i + 1)
  }

  ghost function FindChild(cells: seq<Cell>, id: string): (k: nat)
    ensures k <= |cells| && (k < |cells| ==> cells[k].val.id == id)
  {
    FindFrom(cells, id, 0)
  }

  ghost function CutIf<T>(s: seq<T>, k: nat): seq<T> {
    if k < |s| then s[..k] + s[k + 1..] else s
  }

  /** For each id the old cell that is used again, if one is left that has it. */
  ghost function Reused(olds: seq<Cell>, ids: seq<string>): (cells: seq<Option<Cell>>)
    ensures |cells| == |ids|
    decreases |ids|
  {
    if ids == [] then []
    else
      var k := FindChild(olds, ids[0]);
      [if k < |olds| then Some(olds[k]) else None] + Reused(CutIf(olds, k), ids[1..])
  }

  lemma {:induction false} FindIs(cells: seq<Cell>, id: string, i: nat, k: nat)
    requires i <= k <= |cells| && (k < |cells| ==> cells[k].val.id == id)
    requires forall j {:trigger cells[j].val} | i <= j < k :: cells[j].val.id != id
    ensures FindFrom(cells, id, i) == k
    decreases k - i
  {
    if i < k {
      FindIs(cells, id, i + 1, k);
    }
  }

  /** Taking out a cell for another id does not change which cell is found. */
  lemma FindAfterCut(olds: seq<Cell>, c: nat, id: string)
    requires c < |olds| ==> olds[c].val.id != id
    ensures var k, r := FindChild(olds, id), CutIf(olds, c);
            && (k < |olds| <==> FindChild(r, id) < |r|)
            && (k < |olds| ==> r[FindChild(r, id)] == olds[k])
  {
    var k, r := FindChild(olds, id), CutIf(olds, c);
    if c < |olds| {
      assert forall j {:trigger r[j].val} | 0 <= j < |r| :: r[j] == olds[if j < c then j else j + 1];
      FindIs(r, id, 0, if k < c then k else k - 1);
    }
  }

  /**
   A refresh keeps the cell of an old child that is still listed, and makes a cell for an id that
   was not among the children; only an id listed twice can get a second cell.
   */
  lemma {:induction false} ReusedFirst(olds: seq<Cell>, ids: seq<string>, i: nat)
    requires i < |ids| && ids[i] !in ids[..i]
    ensures var k := FindChild(olds, ids[i]); Reused(olds, ids)[i] == if k < |olds| then Some(olds[k]) else None
    decreases i
  {
    if i > 0 {
      var c := FindChild(olds, ids[0]);
      assert ids[0] == ids[..i][0] && ids[1..][i - 1] == ids[i];
      assert ids[1..][..i - 1] == ids[..i][1..];
      ReusedFirst(CutIf(olds, c), ids[1..], i - 1);
      FindAfterCut(olds, c, ids[i]);
    }
  }

  // ---------------------------------------------------------------- nodes

  ghost predicate Known(nodes: map<string, MioNode>, n: MioNode) {
    n.id in nodes && nodes[n.id] == n
  }

  /** One node for each id, and it has that id. */
  ghost predicate Keyed(nodes: map<string, MioNode>) {
    forall id | id in nodes :: nodes[id].id == id
  }

  ghost predicate AllKnown(nodes: map<string, MioNode>, cells: seq<Cell>) {
    forall i {:trigger cells[i]} | 0 <= i < |cells| :: Known(nodes, cells[i].val)
  }

  /** nodesH after a node is added under its id, unless there is one already. */
  ghost function Entered(nodes: map<string, MioNode>, n: MioNode): map<string, MioNode> {
    if n.id in nodes then nodes else nodes[n.id := n]
  }

  ghost predicate Extends(nodes: map<string, MioNode>, was: map<string, MioNode>) {
    forall id {:trigger nodes[id]} {:trigger was[id]} | id in was :: id in nodes && nodes[id] == was[id]
  }

  /** What a refresh makes of an id that it meets for the first time. */
  ghost predicate IsNew(n: MioNode, kindOf: string -> NodeType)
    reads n`children, n`modified
  {
    n.kind == kindOf(n.id) && !n.isSubscribed && !n.isArtifact && n.modified == 0 && n.children == null
  }

  /** What a subscription makes of an id that it meets for the first time. */
  ghost predicate IsSubscription(n: MioNode, id: string, kind: NodeType)
    reads n`modified
  {
    var subscription := n.id == id && n.kind == kind && n.isSubscribed && !n.isArtifact && n.modified == 0;
    subscription
  }

  /** The nodes for ids that were not known before come from subscriptions. */
  ghost predicate AllSubscribed(nodes: map<string, MioNode>, known: set<string>, kindOf: string -> NodeType)
    reads nodes.Values`modified
  {
    forall id {:trigger nodes[id]} | id in nodes && id !in known :: IsSubscription(nodes[id], id, kindOf(id))
  }

  lemma SubscribedNodesNext(nodes: map<string, MioNode>, known: set<string>, kindOf: string -> NodeType, n: MioNode)
    requires AllSubscribed(nodes, known, kindOf) && IsSubscription(n, n.id, kindOf(n.id))
    ensures AllSubscribed(nodes[n.id := n], known, kindOf)
  {
  }

  ghost predicate AllNew(news: set<MioNode>, kindOf: string -> NodeType)
    reads news`children, news`modified
  {
    forall n | n in news :: IsNew(n, kindOf)
  }

  /** nodesH with new nodes. */
  ghost predicate Grown(nodes: map<string, MioNode>, was: map<string, MioNode>, news: set<MioNode>) {
    Extends(nodes, was) && nodes.Values == was.Values + news
  }

  /** The new nodes are not among those that had a list before, and are as the refresh makes them. */
  ghost predicate NewNodes(nodes: map<string, MioNode>, was: map<string, MioNode>, news: set<MioNode>,
                           dirs: set<MioNode>, kindOf: string -> NodeType)
    reads news`children, news`modified
  {
    Grown(nodes, was, news) && AllNew(news, kindOf) && news !! dirs
  }

  // ---------------------------------------------------------------- lists of children

  ghost function CellsOf(cells: seq<Cell>): (s: set<Cell>) {
    set c | c in cells
  }

  ghost predicate ListIs(list: Elt?<MioNode>, cells: seq<Cell>)
    reads CellsOf(cells)
  {
    IsList(Singly, list, cells)
  }

  ghost function CellsIn(lists: map<MioNode, seq<Cell>>): (s: set<Cell>) {
    set n, c | n in lists && c in lists[n] :: c
  }

  /** No cell is in two lists. */
  ghost predicate Apart(lists: map<MioNode, seq<Cell>>) {
    forall m, n {:trigger lists[m], lists[n]} | m in lists && n in lists && m != n ::
      CellsOf(lists[m]) !! CellsOf(lists[n])
  }

  ghost predicate ListsKnown(nodes: map<string, MioNode>, lists: map<MioNode, seq<Cell>>) {
    forall n {:trigger lists[n]} | n in lists :: AllKnown(nodes, lists[n])
  }

  ghost predicate ListsLinked(lists: map<MioNode, seq<Cell>>)
    reads lists.Keys`children, CellsIn(lists)
  {
    forall n {:trigger lists[n]} | n in lists :: ListIs(n.children, lists[n])
  }

  lemma KnownNew(nodes: map<string, MioNode>, nodes': map<string, MioNode>, lists: map<MioNode, seq<Cell>>,
                 news: set<MioNode>, key: MioNode, cells: seq<Cell>)
    requires ListsKnown(nodes, lists) && Extends(nodes', nodes) && AllKnown(nodes', cells)
    ensures ListsKnown(nodes', WithNew(lists, news)[key := cells])
  {
    var now := WithNew(lists, news)[key := cells];
    forall n {:trigger now[n]} | n in now ensures AllKnown(nodes', now[n]) {
      if n != key && n !in news {
        StillKnown(nodes, nodes', lists[n]);
      }
    }
  }

  lemma LinkedAfter(was: map<MioNode, seq<Cell>>, news: set<MioNode>, key: MioNode, cells: seq<Cell>)
    requires forall n {:trigger was[n]} | n in was && n != key :: ListIs(n.children, was[n])
    requires ListIs(key.children, cells) && forall n | n in news :: n.children == null
    ensures ListsLinked(WithNew(was, news)[key := cells])
  {
    var now := WithNew(was, news)[key := cells];
    forall n {:trigger now[n]} | n in now ensures ListIs(n.children, now[n]) {
      if n != key && n !in news {
        assert now[n] == was[n];
      }
    }
  }

  /** Empty lists for new nodes. */
  ghost function WithNew(lists: map<MioNode, seq<Cell>>, news: set<MioNode>): map<MioNode, seq<Cell>> {
    lists + map n | n in news :: []
  }

  lemma ApartNew(lists: map<MioNode, seq<Cell>>, news: set<MioNode>)
    requires Apart(lists) && news !! lists.Keys
    ensures Apart(WithNew(lists, news)) && CellsIn(WithNew(lists, news)) == CellsIn(lists)
  {
    var now := WithNew(lists, news);
    forall m, n {:trigger now[m], now[n]} | m in now && n in now && m != n ensures CellsOf(now[m]) !! CellsOf(now[n]) {
      if m !in news && n !in news {
        assert CellsOf(lists[m]) !! CellsOf(lists[n]);
      }
    }
    assert forall n {:trigger lists[n]} | n in lists :: now[n] == lists[n];
  }

  lemma ApartChanged(lists: map<MioNode, seq<Cell>>, key: MioNode, cells: seq<Cell>)
    requires Apart(lists) && key in lists && CellsOf(cells) - CellsOf(lists[key]) !! CellsIn(lists)
    ensures Apart(lists[key := cells])
  {
    var now := lists[key := cells];
    forall m, n {:trigger now[m], now[n]} | m in now && n in now && m != n ensures CellsOf(now[m]) !! CellsOf(now[n]) {
      assert CellsOf(lists[m]) !! CellsOf(lists[n]);
      assert CellsOf(lists[m]) <= CellsIn(lists) && CellsOf(lists[n]) <= CellsIn(lists);
    }
  }

  /** Every node has a list, every cell is in one list, and every child is the node for its id. */
  ghost predicate Coherent(nodes: map<string, MioNode>, lists: map<MioNode, seq<Cell>>, subNodes: MioNode,
                           subRoots: MioNode) {
    var coherent :=
      && Keyed(nodes) && lists.Keys == nodes.Values + {subNodes, subRoots}
      && subNodes != subRoots && subNodes !in nodes.Values && subRoots !in nodes.Values
      && Apart(lists) && ListsKnown(nodes, lists);
    coherent
  }

  lemma CoherentAfter(nodes: map<string, MioNode>, nodes': map<string, MioNode>, lists: map<MioNode, seq<Cell>>,
                      news: set<MioNode>, key: MioNode, cells: seq<Cell>, subNodes: MioNode, subRoots: MioNode)
    requires Coherent(nodes, lists, subNodes, subRoots)
    requires Keyed(nodes') && Grown(nodes', nodes, news) && news !! lists.Keys
    requires key in lists.Keys + news && AllKnown(nodes', cells)
    requires CellsOf(cells) - CellsOf(WithNew(lists, news)[key]) !! CellsIn(lists)
    ensures Coherent(nodes', WithNew(lists, news)[key := cells], subNodes, subRoots)
  {
    ApartNew(lists, news);
    ApartChanged(WithNew(lists, news), key, cells);
    KnownNew(nodes, nodes', lists, news, key, cells);
  }

  /** A directory of the file system itself, which is never refreshed. */
  ghost predicate IsDirectory(n: MioNode, id: string, now: int)
    reads n`modified
  {
    n.id == id && n.isArtifact && n.isSubscribed && n.kind == Collection && n.modified == now
  }

  ghost predicate Holds(cells: seq<Cell>, ns: seq<MioNode>) {
    |cells| == |ns| && forall i {:trigger cells[i]} | 0 <= i < |cells| :: cells[i].val == ns[i]
  }

  lemma Three<T>(x: T, y: T, z: T)
    ensures [] + [x] + [y] + [z] == [x, y, z]
  {
  }

  /** The root of the file system and its three directories. */
  ghost predicate IsRoot(root: MioNode, n: MioNode, r: MioNode, c: MioNode, cells: seq<Cell>, now: int)
    reads {root, n, r, c}, CellsOf(cells)
  {
    && IsDirectory(root, "", now) && IsDirectory(n, "my_subscriptions", now)
    && IsDirectory(r, "my_collections", now) && IsDirectory(c, "collections", now) && c.children == null
    && ListIs(root.children, cells) && Holds(cells, [n, r, c])
  }

  lemma EmptyCache(n: MioNode, r: MioNode)
    requires n != r && n.children == null && r.children == null
    ensures Coherent(map[], map[n := [], r := []], n, r) && ListsLinked(map[n := [], r := []])
  {
  }

  class Cache {
    /** nodesH, as the map that the hash table refines. */
    var nodes: map<string, MioNode>

    /** The directories of subscribed nodes and of subscribed collections; they are not in nodesH themselves. */
    const subNodes: MioNode
    const subRoots: MioNode

    /** The root of the file system, with its three directories, and the third of them, which is made empty. */
    const fsRoot: MioNode
    const colRoot: MioNode
    ghost var rootCells: seq<Cell>

    /** The cells of the list of children of every node. */
    ghost var lists: map<MioNode, seq<Cell>>

    ghost predicate Valid()
      reads `nodes, `lists, lists.Keys`children, CellsIn(lists)
    {
      Coherent(nodes, lists, subNodes, subRoots) && ListsLinked(lists)
    }

    /** The first part of mio_client_init: the root, with three directories that the server knows nothing of. */
    constructor (now: int)
      ensures Valid() && nodes == map[] && lists == map[subNodes := [], subRoots := []]
      ensures IsRoot(fsRoot, subNodes, subRoots, colRoot, rootCells, now)
    {
      var root, n, r, c;
      ghost var cells;
      root, n, r, c, cells := MakeRoot(now);
      EmptyCache(n, r);
      nodes := map[];
      fsRoot, subNodes, subRoots, colRoot := root, n, r, c;
      rootCells, lists := cells, map[n := [], r := []];
    }

    static method MakeRoot(now: int) returns (root: MioNode, n: MioNode, r: MioNode, c: MioNode, ghost cells: seq<Cell>)
      ensures IsRoot(root, n, r, c, cells, now)
      ensures n != r && n.children == null && r.children == null
    {
      root := NewDirectory("", now);
      n := NewDirectory("my_subscriptions", now);
      r := NewDirectory("my_collections", now);
      c := NewDirectory("collections", now);
      cells := LinkRoot(root, n, r, c);
    }

    static method LinkRoot(root: MioNode, n: MioNode, r: MioNode, c: MioNode) returns (ghost cells: seq<Cell>)
      requires root.children == null
      modifies root`children
      ensures ListIs(root.children, cells) && Holds(cells, [n, r, c])
    {
      ghost var l0 := AppendNode(root, n, [], []);
      ghost var l1 := AppendNode(root, r, [] + [l0], [] + [n]);
      ghost var l2 := AppendNode(root, c, [] + [l0] + [l1], [] + [n] + [r]);
      cells := [] + [l0] + [l1] + [l2];
      Three(n, r, c);
    }

    static method NewDirectory(id: string, now: int) returns (n: MioNode)
      ensures fresh(n) && IsDirectory(n, id, now) && n.children == null
    {
      n := new MioNode(id, Collection, true, true);
      n.modified := now;
    }

    /** LL_APPEND of a new cell for the node n. */
    static method AppendNode(root: MioNode, n: MioNode, ghost cells: seq<Cell>, ghost ns: seq<MioNode>)
      returns (ghost cell: Cell)
      requires ListIs(root.children, cells) && Holds(cells, ns)
      modifies root`children, CellsOf(cells)`next
      ensures ListIs(root.children, cells + [cell]) && Holds(cells + [cell], ns + [n]) && fresh(cell)
    {
      var l := new Elt(n);
      cell := l;
      AppendChild(root, l, cells);
    }

    /** LL_SEARCH with cmp_node_child_str. */
    method Search(list: Elt?<MioNode>, id: string, ghost cells: seq<Cell>) returns (out: Elt?<MioNode>)
      requires ListIs(list, cells)
      ensures var k := FindChild(cells, id); out == if k < |cells| then cells[k] else null
      ensures out == null <==> forall j {:trigger cells[j].val} | 0 <= j < |cells| :: cells[j].val.id != id
      ensures out != null ==> exists k :: 0 <= k < |cells| && out == cells[k] && out.val.id == id
                                          && forall j | 0 <= j < k :: cells[j].val.id != id
    {
      out := list;
      ghost var k := 0;
      while out != null && out.val.id != id
        invariant 0 <= k <= |cells| && out == if k < |cells| then cells[k] else null
        invariant FindFrom(cells, id, k) == FindChild(cells, id)
        decreases |cells| - k
      {
        out := out.next;
        k := k + 1;
      }
    }

    /** HASH_FIND_STR, and HASH_ADD_KEYPTR of a new node when there is none. */
    method Lookup(id: string, kindOf: string -> NodeType) returns (n: MioNode)
      requires Keyed(nodes)
      modifies `nodes
      ensures nodes == Entered(old(nodes), n) && Known(nodes, n) && n.id == id
      ensures id !in old(nodes) ==> fresh(n) && IsNew(n, kindOf)
    {
      if id in nodes {
        n := nodes[id];
      } else {
        n := new MioNode(id, kindOf(id), false, false);
        nodes := nodes[id := n];
      }
    }

    /** LL_DELETE of the cell that was found. */
    static method TakeOld(list: Elt<MioNode>, cell: Cell, ghost cells: seq<Cell>, ghost k: nat)
      returns (list': Elt?<MioNode>)
      requires ListIs(list, cells) && k < |cells| && cells[k] == cell
      modifies CellsOf(cells)`next
      ensures ListIs(list', CutIf(cells, k))
    {
      WithoutAt(cells, cell, k);
      list' := LlDelete(list, cell, cells);
    }

    /** A cell for an id: the old one taken out of its list, or a new one. */
    method TakeChild(id: string, kindOf: string -> NodeType, list: Elt?<MioNode>, ghost cells: seq<Cell>)
      returns (list': Elt?<MioNode>, cell: Cell, ghost made: set<Cell>)
      requires Keyed(nodes) && ListIs(list, cells) && AllKnown(nodes, cells)
      modifies `nodes, CellsOf(cells)`next
      ensures var k := FindChild(cells, id);
              ListIs(list', CutIf(cells, k)) && (if k < |cells| then cell == cells[k] else cell in made)
      ensures fresh(made)
      ensures nodes == Entered(old(nodes), cell.val) && Known(nodes, cell.val) && cell.val.id == id
      ensures id !in old(nodes) ==> fresh(cell.val) && IsNew(cell.val, kindOf)
    {
      ghost var k := FindChild(cells, id);
      var aux := Search(list, id, cells);
      if aux != null {
        cell := aux;
        list' := TakeOld(list, cell, cells, k);
        made := {};
      } else {
        list' := list;
        var n := Lookup(id, kindOf);
        cell := new Elt(n);
        made := {cell};
      }
    }

    /** LL_APPEND to the children. */
    static method AppendChild(node: MioNode, cell: Cell, ghost done: seq<Cell>)
      requires ListIs(node.children, done) && cell !in done
      modifies node`children, CellsOf(done + [cell])`next
      ensures ListIs(node.children, done + [cell])
    {
      node.children := LlAppend(node.children, cell, done);
    }

    /** One entry of the server's listing. */
    method AddChild(node: MioNode, id: string, kindOf: string -> NodeType, lOld: Elt?<MioNode>,
                    ghost olds: seq<Cell>, ghost done: seq<Cell>)
      returns (lOld': Elt?<MioNode>, cell: Cell, ghost made: set<Cell>)
      requires Keyed(nodes) && AllKnown(nodes, olds)
      requires ListIs(lOld, olds) && ListIs(node.children, done) && CellsOf(olds) !! CellsOf(done)
      modifies `nodes, node`children, CellsOf(olds + done)`next
      ensures var k := FindChild(olds, id);
              && ListIs(lOld', CutIf(olds, k)) && ListIs(node.children, done + [cell])
              && CellsOf(CutIf(olds, k)) !! CellsOf(done + [cell])
              && (if k < |olds| then cell == olds[k] else cell in made)
      ensures fresh(made)
      ensures nodes == Entered(old(nodes), cell.val) && Known(nodes, cell.val) && cell.val.id == id
      ensures id !in old(nodes) ==> fresh(cell.val) && IsNew(cell.val, kindOf)
    {
      lOld', cell, made := TakeChild(id, kindOf, lOld, olds);
      ApartAfter(olds, done, FindChild(olds, id), cell);
      AppendChild(node, cell, done);
    }

    method RefreshStep(node: MioNode, id: string, kindOf: string -> NodeType, lOld: Elt?<MioNode>, ghost p: Plan,
                       ghost s: Stage)
      returns (lOld': Elt?<MioNode>, ghost cell: Cell, ghost made: set<Cell>)
      requires s.rest != [] && s.rest[0] == id && Planned(nodes, p, s)
      requires ListIs(lOld, s.olds) && ListIs(node.children, s.done)
      requires CellsOf(p.was) + CellsOf(s.done) <= s.cells
      modifies `nodes, node`children, s.cells`next
      ensures Planned(nodes, p, s.Next(old(nodes), cell, made))
      ensures ListIs(lOld', s.Next(old(nodes), cell, made).olds) && ListIs(node.children, s.done + [cell])
      ensures cell in s.cells + made && fresh(made)
      ensures nodes == Entered(old(nodes), cell.val)
      ensures cell.val.id !in old(nodes) ==> fresh(cell.val) && IsNew(cell.val, kindOf)
    {
      ghost var before := nodes;
      var c;
      lOld', c, made := AddChild(node, id, kindOf, lOld, s.olds, s.done);
      cell := c;
      PlanStep(before, nodes, p, s, cell, made);
      assert FindChild(s.olds, id) < |s.olds| ==> cell in CellsOf(s.olds);
    }

    /** One turn of the loop that names a node, with the cells that it makes. */
    method RefreshOne(node: MioNode, id: string, kindOf: string -> NodeType, lOld: Elt?<MioNode>, ghost p: Plan,
                      ghost s: Stage)
      returns (lOld': Elt?<MioNode>, ghost s': Stage, ghost made: set<Cell>)
      requires s.rest != [] && s.rest[0] == id && node in p.dirs && p.kindOf == kindOf
      requires Midway(nodes, node, lOld, p, s)
      modifies `nodes, node`children, s.cells`next
      ensures Midway(nodes, node, lOld', p, s') && s'.rest == s.rest[1..] && s'.cells == s.cells + made && fresh(made)
    {
      ghost var cell;
      ghost var before := nodes;
      lOld', cell, made := RefreshStep(node, id, kindOf, lOld, p, s);
      s' := s.Next(before, cell, made);
      assert AllNew(s.news, kindOf);
      MidwayNext(before, nodes, node, lOld', p, s, cell, made);
    }

    /** The loop over the server's listing: the old children are in a list of their own, and the new list grows. */
    method RefreshEach(node: MioNode, entries: seq<Option<string>>, kindOf: string -> NodeType, list: Elt?<MioNode>,
                       ghost p: Plan)
      returns (ghost done: seq<Cell>, ghost news: set<MioNode>)
      requires p.ids == Named(entries) && p.reused == Reused(p.was, p.ids) && p.base == nodes && node in p.dirs
      requires p.kindOf == kindOf
      requires Keyed(nodes) && ListIs(list, p.was) && AllKnown(nodes, p.was) && node.children == null
      modifies `nodes, node`children, CellsOf(p.was)`next
      ensures Keyed(nodes) && Follows(nodes, done, p.ids, p.reused) && NewNodes(nodes, p.base, news, p.dirs, kindOf)
      ensures ListIs(node.children, done) && fresh(CellsOf(done) - CellsOf(p.was))
    {
      var lOld := list;
      ghost var s := Stage(p.was, [], p.ids, CellsOf(p.was), {});
      MidwayStart(nodes, node, lOld, p);
      assert entries[0..] == entries;
      for i := 0 to |entries|
        invariant s.rest == Named(entries[i..]) && fresh(s.cells - CellsOf(p.was))
        invariant Midway(nodes, node, lOld, p, s)
      {
        NamedNext(entries, i);
        if entries[i].Some? {
          ghost var made;
          lOld, s, made := RefreshOne(node, entries[i].value, kindOf, lOld, p, s);
        }
      }
      done, news := s.done, s.news;
    }

    /** A refresh of one list of children leaves the links of all the others as they are. */
    method RefreshLinks(node: MioNode, entries: seq<Option<string>>, kindOf: string -> NodeType,
                        ghost was: map<MioNode, seq<Cell>>)
      returns (ghost done: seq<Cell>, ghost news: set<MioNode>)
      requires ListsLinked(was) && Apart(was) && node in was && Keyed(nodes) && AllKnown(nodes, was[node])
      modifies `nodes, node`children, CellsOf(was[node])`next
      ensures ListsLinked(WithNew(was, news)[node := done]) && fresh(CellsOf(done) - CellsOf(was[node]))
      ensures Keyed(nodes) && Grown(nodes, old(nodes), news) && news !! was.Keys && AllNew(news, kindOf)
      ensures Follows(nodes, done, Named(entries), Reused(was[node], Named(entries)))
    {
      var lOld := node.children;
      node.children := null;
      ghost var ids := Named(entries);
      done, news := RefreshEach(node, entries, kindOf, lOld,
        Plan(was[node], ids, Reused(was[node], ids), nodes, was.Keys, kindOf));
      forall n {:trigger was[n]} | n in was && n != node ensures ListIs(n.children, was[n]) {
        assert old(ListIs(n.children, was[n])) && CellsOf(was[n]) !! CellsOf(was[node]);
      }
      LinkedAfter(was, news, node, done);
    }

    method RefreshList(node: MioNode, entries: seq<Option<string>>, kindOf: string -> NodeType)
      returns (ghost news: set<MioNode>)
      requires Valid() && Known(nodes, node)
      modifies `nodes, `lists, node`children, CellsOf(lists[node])`next
      ensures Valid() && Grown(nodes, old(nodes), news) && news !! old(lists).Keys && AllNew(news, kindOf)
      ensures lists == WithNew(old(lists), news)[node := lists[node]]
      ensures Follows(nodes, lists[node], Named(entries), Reused(old(lists[node]), Named(entries)))
    {
      ghost var was, before := lists, nodes;
      ghost var done;
      done, news := RefreshLinks(node, entries, kindOf, was);
      assert Coherent(nodes, WithNew(was, news)[node := done], subNodes, subRoots) by {
        CoherentAfter(before, nodes, was, news, node, done, subNodes, subRoots);
      }
      Relist(WithNew(was, news)[node := done]);
    }

    /** The record of the lists, once the links are as it says. */
    ghost method Relist(now: map<MioNode, seq<Cell>>)
      requires Coherent(nodes, now, subNodes, subRoots) && ListsLinked(now)
      modifies `lists
      ensures Valid() && lists == now
    {
      lists := now;
    }

    /** update_children: 0 is success. A refresh that is not due yet, or that fails, changes no list. */
    method UpdateChildren(node: MioNode, now: int, timeout: int, reply: Reply, kindOf: string -> NodeType)
      returns (err: int, ghost news: set<MioNode>)
      requires Valid() && (node.isArtifact || Known(nodes, node))
      modifies `nodes, `lists, node`modified, node`children
      modifies (if node.isArtifact then {} else CellsOf(lists[node]))`next
      ensures Valid() && Grown(nodes, old(nodes), news) && news !! old(lists).Keys && AllNew(news, kindOf)
      ensures var due := !node.isArtifact && old(node.modified) + timeout <= now;
              && err == (if due && !reply.Listing? then 1 else 0)
              && node.modified == (if due then now else old(node.modified))
              && (if due && reply.Listing? then
                    && lists == WithNew(old(lists), news)[node := lists[node]]
                    && Follows(nodes, lists[node], Named(reply.entries), Reused(old(lists[node]), Named(reply.entries)))
                  else lists == old(lists) && nodes == old(nodes))
    {
      news := {};
      if node.isArtifact {
        return 0, news;
      }
      if node.modified + timeout > now {
        return 0, news;
      }
      node.modified := now;
      if reply.Listing? {
        news := RefreshList(node, reply.entries, kindOf);
        err := 0;
      } else {
        err := 1;
      }
    }

    /** LL_APPEND of a new cell to the children of a directory. */
    static method AppendLinks(dir: MioNode, node: MioNode, ghost was: map<MioNode, seq<Cell>>)
      returns (ghost cell: Cell)
      requires ListsLinked(was) && Apart(was) && dir in was
      modifies dir`children, CellsOf(was[dir])`next
      ensures fresh(cell) && cell.val == node && ListsLinked(was[dir := was[dir] + [cell]])
    {
      var le := new Elt(node);
      cell := le;
      AppendChild(dir, le, was[dir]);
      ghost var now := was[dir := was[dir] + [cell]];
      forall n {:trigger now[n]} | n in now ensures ListIs(n.children, now[n]) {
        if n != dir {
          assert CellsOf(was[n]) !! CellsOf(was[dir]);
        }
      }
    }

    /** A node for a new subscription. */
    static method NewNode(id: string, kind: NodeType, ghost was: map<MioNode, seq<Cell>>) returns (node: MioNode)
      requires ListsLinked(was)
      ensures fresh(node) && IsSubscription(node, id, kind)
      ensures ListsLinked(was[node := []])
    {
      node := new MioNode(id, kind, true, false);
      ghost var now := was[node := []];
      forall n {:trigger now[n]} | n in now ensures ListIs(n.children, now[n]) {
        assert n != node ==> now[n] == was[n];
      }
    }

    /** A new subscription: one more cell for a collection. */
    static method LinkSubscription(id: string, kind: NodeType, subNodes: MioNode, subRoots: MioNode,
                                   ghost was: map<MioNode, seq<Cell>>)
      returns (node: MioNode, ghost cell: Cell, ghost other: Cell, ghost made: set<Cell>,
               ghost lists: map<MioNode, seq<Cell>>)
      requires ListsLinked(was) && Apart(was) && subNodes in was && subRoots in was && subNodes != subRoots
      modifies subNodes`children, subRoots`children, CellsOf(was[subNodes])`next, CellsOf(was[subRoots])`next
      ensures fresh(node) && IsSubscription(node, id, kind)
      ensures fresh(made) && cell in made && other in made
      ensures cell.val == node && other.val == node && (kind.Collection? ==> other != cell)
      ensures lists == Linked(was, subNodes, subRoots, node, cell, other)
      ensures ListsLinked(lists)
    {
      node := NewNode(id, kind, was);
      lists := was[node := []];
      assert Apart(lists) && CellsIn(lists) == CellsIn(was) by {
        ApartNew(was, {node});
        assert lists == WithNew(was, {node});
      }
      cell := AppendLinks(subNodes, node, lists);
      other := cell;
      assert Apart(lists[subNodes := lists[subNodes] + [cell]]) by {
        ApartChanged(lists, subNodes, lists[subNodes] + [cell]);
      }
      lists := lists[subNodes := lists[subNodes] + [cell]];
      if kind.Collection? {
        other := AppendLinks(subRoots, node, lists);
        lists := lists[subRoots := lists[subRoots] + [other]];
      }
      made := {cell, other};
    }

    /** The new node is entered under its id. */
    method Publish(n: MioNode, ghost now: map<MioNode, seq<Cell>>)
      requires Coherent(nodes[n.id := n], now, subNodes, subRoots) && ListsLinked(now)
      modifies `nodes, `lists
      ensures Valid() && nodes == old(nodes)[n.id := n] && lists == now && unchanged(n)
    {
      nodes := nodes[n.id := n];
      Relist(now);
    }

    method Subscribe(id: string, kind: NodeType)
      returns (ghost node: MioNode, ghost cell: Cell, ghost other: Cell, ghost made: set<Cell>)
      requires Valid() && id !in nodes
      modifies `nodes, `lists, subNodes`children, subRoots`children
      modifies CellsOf(lists[subNodes])`next, CellsOf(lists[subRoots])`next
      ensures Valid() && nodes == old(nodes)[id := node] && IsSubscription(node, id, kind)
      ensures fresh(made) && cell in made && other in made
      ensures WithSubscription(lists, old(lists), subNodes, subRoots, node, cell, other)
    {
      ghost var was := lists;
      ghost var now;
      var n;
      n, cell, other, made, now := LinkSubscription(id, kind, subNodes, subRoots, was);
      node := n;
      CoherentSubscription(nodes, was, subNodes, subRoots, node, cell, other);
      Publish(n, now);
      SubscriptionIs(was, subNodes, subRoots, node, cell, other);
    }

    /** The other nodes stay as they are. */
    method SubscribeOne(id: string, kind: NodeType, ghost keys: set<string>, kindOf: string -> NodeType)
      returns (ghost node: MioNode, ghost cell: Cell, ghost other: Cell, ghost made: set<Cell>)
      requires Valid() && id !in nodes && kind == kindOf(id) && AllSubscribed(nodes, keys, kindOf)
      modifies `nodes, `lists, subNodes`children, subRoots`children
      modifies CellsOf(lists[subNodes])`next, CellsOf(lists[subRoots])`next
      ensures Valid() && nodes == old(nodes)[id := node] && node.id == id && node.kind == kind
      ensures AllSubscribed(nodes, keys, kindOf)
      ensures fresh(made) && cell in made && other in made
      ensures WithSubscription(lists, old(lists), subNodes, subRoots, node, cell, other)
    {
      ghost var known := nodes;
      node, cell, other, made := Subscribe(id, kind);
      assert AllSubscribed(known, keys, kindOf);
      SubscribedNodesNext(known, keys, kindOf, node);
    }

    /** A new subscription in the middle of the loop. */
    method SubscribeNext(id: string, kind: NodeType, ghost p: Progress, kindOf: string -> NodeType,
                         ghost cells: set<Cell>)
      returns (ghost made: set<Cell>)
      requires Valid() && Subscribing(p, nodes, lists, subNodes, subRoots, cells, kindOf)
      requires p.rest != [] && p.rest[0] == id && id !in nodes && kind == kindOf(id) && !kind.Unknown?
      requires AllSubscribed(nodes, p.keys, kindOf)
      modifies `nodes, `lists, subNodes`children, subRoots`children, cells`next
      ensures Valid() && Extends(nodes, old(nodes)) && fresh(made) && AllSubscribed(nodes, p.keys, kindOf)
      ensures Subscribing(p.Added(), nodes, lists, subNodes, subRoots, cells + made, kindOf)
    {
      ghost var before, known := lists, nodes;
      ghost var node, cell, other;
      node, cell, other, made := SubscribeOne(id, kind, p.keys, kindOf);
      EnteredExtends(known, node);
      SubscribingStep(p, known, before, lists, subNodes, subRoots, cells, kindOf, node, cell, other, made);
    }

    /** The loop over the subscriptions: known nodes are passed over, and one that the server does not know ends it. */
    method SubscribeAll(ids: seq<string>, kindOf: string -> NodeType) returns (ok: bool)
      requires Valid()
      modifies `nodes, `lists, subNodes`children, subRoots`children
      modifies CellsOf(lists[subNodes])`next, CellsOf(lists[subRoots])`next
      ensures Valid() && Extends(nodes, old(nodes))
      ensures var r := Admit(old(nodes.Keys), ids, kindOf);
              && ok == r.ok
              && nodes.Keys == old(nodes.Keys) + (set id | id in r.added)
              && Subscribed(old(lists), lists, subNodes, subRoots, r.added, kindOf)
      ensures AllSubscribed(nodes, old(nodes.Keys), kindOf)
    {
      ghost var before := CellsOf(lists[subNodes]) + CellsOf(lists[subRoots]);
      ghost var cells, p := before, Progress(nodes.Keys, lists, Admit(nodes.Keys, ids, kindOf), [], ids);
      for i := 0 to |ids|
        invariant Valid() && Extends(nodes, old(nodes)) && fresh(cells - before)
        invariant p.rest == ids[i..] && p.keys == old(nodes.Keys) && p.was == old(lists)
        invariant p.whole == Admit(old(nodes.Keys), ids, kindOf)
        invariant AllSubscribed(nodes, old(nodes.Keys), kindOf)
        invariant Subscribing(p, nodes, lists, subNodes, subRoots, cells, kindOf)
      {
        if ids[i] in nodes {
          p := p.Known();
        } else {
          var kind := kindOf(ids[i]);
          if kind.Unknown? {
            AdmittedDone(p, nodes.Keys, false);
            return false;
          }
          ghost var made := SubscribeNext(ids[i], kind, p, kindOf, cells);
          p, cells := p.Added(), cells + made;
        }
      }
      AdmittedDone(p, nodes.Keys, true);
      ok := true;
    }

    /** process_subscriptions_packet; a type that the server does not know is reported like a missing packet. */
    method ProcessSubscriptions(response: Response, kindOf: string -> NodeType)
      returns (status: Status, ghost stop: nat, ghost added: seq<string>)
      requires Valid()
      modifies `nodes, `lists, subNodes`children, subRoots`children
      modifies CellsOf(lists[subNodes])`next, CellsOf(lists[subRoots])`next
      ensures Valid() && Extends(nodes, old(nodes))
      ensures response.NoPacket? ==> status == UnknownResponseType && nodes == old(nodes) && lists == old(lists)
      ensures response.OtherPacket? ==> status == UnknownPacketType && nodes == old(nodes) && lists == old(lists)
      ensures response.Subscriptions? ==>
                && IsStop(old(nodes.Keys), response.ids, kindOf, stop)
                && status == (if stop == |response.ids| then Ok else UnknownResponseType)
                && FirstMentions(added, response.ids[..stop], old(nodes.Keys))
                && nodes.Keys == old(nodes.Keys) + (set id | id in added)
                && AllSubscribed(nodes, old(nodes.Keys), kindOf)
                && Subscribed(old(lists), lists, subNodes, subRoots, added, kindOf)
    {
      stop, added := 0, [];
      if response.NoPacket? {
        return UnknownResponseType, stop, added;
      }
      if response.OtherPacket? {
        return UnknownPacketType, stop, added;
      }
      stop := AdmitMeans(nodes.Keys, response.ids, kindOf);
      added := Admit(nodes.Keys, response.ids, kindOf).added;
      var ok := SubscribeAll(response.ids, kindOf);
      status := if ok then Ok else UnknownResponseType;
    }
  }

  lemma CellsOfAppend(cells: seq<Cell>, cell: Cell)
    ensures CellsOf(cells + [cell]) == CellsOf(cells) + {cell}
  {
  }

  lemma ApartAfter(olds: seq<Cell>, done: seq<Cell>, k: nat, cell: Cell)
    requires Distinct(olds) && CellsOf(olds) !! CellsOf(done)
    requires if k < |olds| then cell == olds[k] else cell !in olds + done
    ensures CellsOf(CutIf(olds, k)) !! CellsOf(done + [cell]) && CellsOf(CutIf(olds, k)) <= CellsOf(olds)
    ensures cell !in done && Distinct(CutIf(olds, k))
  {
    if k < |olds| {
      CutOut(olds, k);
      assert cell in CellsOf(olds);
    }
    forall c | c in CellsOf(CutIf(olds, k)) ensures c in CellsOf(olds) && c !in done + [cell] {
      assert c in olds;
    }
    assert cell !in CellsOf(done);
  }

  lemma GrownStep(nodes: map<string, MioNode>, was: map<string, MioNode>, news: set<MioNode>, n: MioNode)
    requires Grown(nodes, was, news)
    ensures Grown(Entered(nodes, n), was, news + JustEntered(nodes, n))
  {
    if n.id !in nodes {
      EnteredValues(nodes, n);
    }
  }

  /** The node, when it is entered now. */
  ghost function JustEntered(nodes: map<string, MioNode>, n: MioNode): set<MioNode> {
    if n.id in nodes then {} else {n}
  }

  lemma NewNodesStep(nodes: map<string, MioNode>, was: map<string, MioNode>, news: set<MioNode>, dirs: set<MioNode>,
                     kindOf: string -> NodeType, n: MioNode)
    requires Grown(nodes, was, news) && AllNew(news, kindOf) && news !! dirs
    requires n.id !in nodes ==> IsNew(n, kindOf) && n !in dirs
    ensures NewNodes(Entered(nodes, n), was, news + JustEntered(nodes, n), dirs, kindOf)
  {
    GrownStep(nodes, was, news, n);
  }

  lemma EnteredExtends(nodes: map<string, MioNode>, n: MioNode)
    requires n.id !in nodes
    ensures Extends(nodes[n.id := n], nodes)
  {
  }

  lemma EnteredValues(nodes: map<string, MioNode>, n: MioNode)
    requires n.id !in nodes
    ensures nodes[n.id := n].Values == nodes.Values + {n}
  {
    var nodes' := nodes[n.id := n];
    forall v | v in nodes.Values + {n} ensures v in nodes'.Values {
      if v != n {
        var id :| id in nodes && nodes[id] == v;
        assert nodes'[id] == v;
      } else {
        assert nodes'[n.id] == n;
      }
    }
  }

  lemma NamedNext(entries: seq<Option<string>>, i: nat)
    requires i < |entries|
    ensures Named(entries[i..]) == (if entries[i].Some? then [entries[i].value] else []) + Named(entries[i + 1..])
  {
    assert entries[i..][1..] == entries[i + 1..];
  }

  /**
   What a refresh starts from and aims at: the old cells, the listed ids, the cells to be used
   again, the nodes there are, those that have a list, and what the server says about nodes.
   */
  datatype Plan = Plan(was: seq<Cell>, ids: seq<string>, reused: seq<Option<Cell>>, base: map<string, MioNode>,
                       dirs: set<MioNode>, kindOf: string -> NodeType)

  /**
   How far it has come: the old cells that are left, the new list, the ids still to come, the cells
   that it may have touched, and the nodes that it has made.
   */
  datatype Stage = Stage(olds: seq<Cell>, done: seq<Cell>, rest: seq<string>, cells: set<Cell>, news: set<MioNode>) {
    ghost function Next(nodes: map<string, MioNode>, cell: Cell, made: set<Cell>): Stage
      requires rest != []
    {
      Stage(CutIf(olds, FindChild(olds, rest[0])), done + [cell], rest[1..], cells + made,
        news + JustEntered(nodes, cell.val))
    }
  }

  ghost predicate Planned(nodes: map<string, MioNode>, p: Plan, s: Stage) {
    && Keyed(nodes) && AllKnown(nodes, s.olds)
    && CellsOf(s.olds) !! CellsOf(s.done) && CellsOf(s.olds) <= CellsOf(p.was)
    && Following(nodes, s.done, p.ids, p.reused)
    && p.ids[|s.done|..] == s.rest && p.reused[|s.done|..] == Reused(s.olds, s.rest)
  }

  /** The same with the links of both lists, and with what may have been touched. */
  ghost predicate Midway(nodes: map<string, MioNode>, node: MioNode, lOld: Elt?<MioNode>, p: Plan, s: Stage)
    reads node`children, CellsOf(s.olds), CellsOf(s.done), s.news`children, s.news`modified
  {
    && Planned(nodes, p, s)
    && ListIs(lOld, s.olds) && ListIs(node.children, s.done)
    && CellsOf(p.was) + CellsOf(s.done) <= s.cells
    && NewNodes(nodes, p.base, s.news, p.dirs, p.kindOf)
  }

  lemma MidwayStart(nodes: map<string, MioNode>, node: MioNode, lOld: Elt?<MioNode>, p: Plan)
    requires Keyed(nodes) && ListIs(lOld, p.was) && AllKnown(nodes, p.was) && node.children == null
    requires p.reused == Reused(p.was, p.ids) && p.base == nodes
    ensures Midway(nodes, node, lOld, p, Stage(p.was, [], p.ids, CellsOf(p.was), {}))
  {
    assert ListIs(node.children, []);
    assert Planned(nodes, p, Stage(p.was, [], p.ids, CellsOf(p.was), {}));
    assert NewNodes(nodes, nodes, {}, p.dirs, p.kindOf);
  }

  lemma MidwayNext(before: map<string, MioNode>, nodes: map<string, MioNode>, node: MioNode, lOld: Elt?<MioNode>,
                   p: Plan, s: Stage, cell: Cell, made: set<Cell>)
    requires s.rest != [] && nodes == Entered(before, cell.val)
    requires Grown(before, p.base, s.news) && AllNew(s.news, p.kindOf) && s.news !! p.dirs
    requires cell.val.id !in before ==> IsNew(cell.val, p.kindOf) && cell.val !in p.dirs
    requires CellsOf(p.was) + CellsOf(s.done) <= s.cells && cell in s.cells + made
    requires var s' := s.Next(before, cell, made);
             Planned(nodes, p, s') && ListIs(lOld, s'.olds) && ListIs(node.children, s'.done)
    ensures Midway(nodes, node, lOld, p, s.Next(before, cell, made))
  {
    NewNodesStep(before, p.base, s.news, p.dirs, p.kindOf, cell.val);
    CellsOfAppend(s.done, cell);
  }

  lemma PlanStep(nodes: map<string, MioNode>, nodes': map<string, MioNode>, p: Plan, s: Stage, cell: Cell,
                 made: set<Cell>)
    requires s.rest != [] && Planned(nodes, p, s) && Distinct(s.olds)
    requires nodes' == Entered(nodes, cell.val) && Known(nodes', cell.val) && cell.val.id == s.rest[0]
    requires var k := FindChild(s.olds, s.rest[0]);
             && (k < |s.olds| ==> cell == s.olds[k])
             && CellsOf(CutIf(s.olds, k)) !! CellsOf(s.done + [cell])
    ensures Planned(nodes', p, s.Next(nodes, cell, made))
  {
    var k, n := FindChild(s.olds, s.rest[0]), |s.done|;
    KnownStep(nodes, nodes', s.olds, k);
    assert p.ids[n] == s.rest[0] && p.ids[n + 1..] == s.rest[1..] by {
      TailStep(p.ids, n, s.rest);
    }
    assert p.reused[n] == (if k < |s.olds| then Some(s.olds[k]) else None)
        && p.reused[n + 1..] == Reused(CutIf(s.olds, k), s.rest[1..]) by {
      TailStep(p.reused, n, Reused(s.olds, s.rest));
      ReusedNext(s.olds, s.rest);
    }
    FollowStep(nodes, nodes', s.done, p.ids, p.reused, cell);
  }

  lemma StillKnown(nodes: map<string, MioNode>, nodes': map<string, MioNode>, cells: seq<Cell>)
    requires Extends(nodes', nodes) && AllKnown(nodes, cells)
    ensures AllKnown(nodes', cells)
  {
    KnownStep(nodes, nodes', cells, |cells|);
  }

  lemma ReusedNext(olds: seq<Cell>, ids: seq<string>)
    requires ids != []
    ensures var k, r := FindChild(olds, ids[0]), Reused(olds, ids);
            && r[0] == (if k < |olds| then Some(olds[k]) else None)
            && r[1..] == Reused(CutIf(olds, k), ids[1..])
  {
  }

  lemma TailStep<T>(s: seq<T>, n: nat, t: seq<T>)
    requires n < |s| && s[n..] == t
    ensures t != [] && s[n] == t[0] && s[n + 1..] == t[1..]
  {
    assert t == [s[n]] + s[n + 1..];
  }

  lemma KnownStep(nodes: map<string, MioNode>, nodes': map<string, MioNode>, olds: seq<Cell>, k: nat)
    requires Extends(nodes', nodes) && AllKnown(nodes, olds) && k <= |olds|
    ensures AllKnown(nodes', olds) && AllKnown(nodes', CutIf(olds, k))
    ensures CellsOf(CutIf(olds, k)) <= CellsOf(olds)
  {
    var olds' := CutIf(olds, k);
    forall i {:trigger olds'[i]} | 0 <= i < |olds'| ensures Known(nodes', olds'[i].val) && olds'[i] in olds {
      assert olds'[i] == olds[if i < k then i else i + 1];
    }
  }

  lemma FollowStep(nodes: map<string, MioNode>, nodes': map<string, MioNode>, done: seq<Cell>, ids: seq<string>,
                   reused: seq<Option<Cell>>, cell: Cell)
    requires Following(nodes, done, ids, reused) && Extends(nodes', nodes) && Known(nodes', cell.val)
    requires |done| < |ids| && cell.val.id == ids[|done|]
    requires reused[|done|].Some? ==> cell == reused[|done|].value
    ensures Following(nodes', done + [cell], ids, reused)
  {
    var done' := done + [cell];
    forall j {:trigger done'[j]} | 0 <= j < |done'|
      ensures Known(nodes', done'[j].val) && done'[j].val.id == ids[j]
      ensures reused[j].Some? ==> done'[j] == reused[j].value
    {
      if j < |done| {
        assert done'[j] == done[j];
      }
    }
  }

  /** So far the cells are for these ids and use the old cells that are to be used again. */
  ghost predicate Following(nodes: map<string, MioNode>, cells: seq<Cell>, ids: seq<string>,
                            reused: seq<Option<Cell>>) {
    && |cells| <= |ids| == |reused|
    && AllKnown(nodes, cells)
    && forall j {:trigger cells[j]} | 0 <= j < |cells| ::
         cells[j].val.id == ids[j] && (reused[j].Some? ==> cells[j] == reused[j].value)
  }

  ghost predicate Follows(nodes: map<string, MioNode>, cells: seq<Cell>, ids: seq<string>, reused: seq<Option<Cell>>) {
    Following(nodes, cells, ids, reused) && |cells| == |ids|
  }

  function IdsOf(cells: seq<Cell>): seq<string> {
    seq(|cells|, i requires 0 <= i < |cells| => cells[i].val.id)
  }

  /** The subscriptions that make new nodes, up to the first one of a node that the server does not know. */
  datatype Admission = Admission(added: seq<string>, ok: bool)

  ghost function Prepend(ids: seq<string>, r: Admission): Admission {
    Admission(ids + r.added, r.ok)
  }

  ghost function Admit(known: set<string>, ids: seq<string>, kindOf: string -> NodeType): Admission
    decreases |ids|
  {
    if ids == [] then Admission([], true)
    else if ids[0] in known then Admit(known, ids[1..], kindOf)
    else if kindOf(ids[0]).Unknown? then Admission([], false)
    else Prepend([ids[0]], Admit(known + {ids[0]}, ids[1..], kindOf))
  }

  /** The subscriptions are gone through up to `stop`: the first id that is new and that the server does not know. */
  ghost predicate IsStop(known: set<string>, ids: seq<string>, kindOf: string -> NodeType, stop: nat) {
    && stop <= |ids|
    && (forall i | 0 <= i < stop :: ids[i] in known || !kindOf(ids[i]).Unknown?)
    && (stop < |ids| ==> ids[stop] !in known && kindOf(ids[stop]).Unknown?)
  }

  /** The ids that are not known, each once, in the order in which they are mentioned first. */
  ghost predicate FirstMentions(added: seq<string>, ids: seq<string>, known: set<string>) {
    && (forall id :: id in added <==> id in ids && id !in known)
    && (forall i, j | 0 <= i < j < |added| :: added[i] != added[j])
    && forall i, j | 0 <= i < j < |added| :: MentionedBefore(ids, added[i], added[j])
  }

  ghost predicate MentionedBefore(ids: seq<string>, id: string, later: string) {
    exists p :: 0 <= p < |ids| && ids[p] == id && later !in ids[..p + 1]
  }

  /** What is admitted, said of the ids themselves. */
  lemma {:induction false} AdmitMeans(known: set<string>, ids: seq<string>, kindOf: string -> NodeType)
    returns (stop: nat)
    ensures IsStop(known, ids, kindOf, stop)
    ensures var r := Admit(known, ids, kindOf);
            (r.ok <==> stop == |ids|) && FirstMentions(r.added, ids[..stop], known)
    decreases |ids|
  {
    stop := 0;
    if ids != [] {
      var id, rest := ids[0], ids[1..];
      if id in known {
        var k := AdmitMeans(known, rest, kindOf);
        stop := 1 + k;
        MentionsAfterKnown(Admit(known, rest, kindOf).added, rest[..k], known, id);
        StopNext(known, known, id, rest, kindOf, k);
        assert ids[..stop] == [id] + rest[..k] && ids == [id] + rest;
      } else if !kindOf(id).Unknown? {
        var k := AdmitMeans(known + {id}, rest, kindOf);
        stop := 1 + k;
        MentionsAfterNew(Admit(known + {id}, rest, kindOf).added, rest[..k], known, id);
        StopNext(known, known + {id}, id, rest, kindOf, k);
        assert ids[..stop] == [id] + rest[..k] && ids == [id] + rest;
      }
    }
  }

  lemma StopNext(known: set<string>, known': set<string>, id: string, rest: seq<string>, kindOf: string -> NodeType,
                 stop: nat)
    requires IsStop(known', rest, kindOf, stop) && known <= known' <= known + {id}
    requires id in known || (!kindOf(id).Unknown? && known' == known + {id})
    ensures IsStop(known, [id] + rest, kindOf, stop + 1)
  {
    var ids := [id] + rest;
    forall i | 0 <= i < stop + 1 ensures ids[i] in known || !kindOf(ids[i]).Unknown? {
      if i > 0 {
        assert ids[i] == rest[i - 1];
      }
    }
    if stop < |rest| {
      assert ids[stop + 1] == rest[stop];
    }
  }

  lemma MentionedAfter(ids: seq<string>, first: string, id: string, later: string)
    requires MentionedBefore(ids, id, later) && later != first
    ensures MentionedBefore([first] + ids, id, later)
  {
    var p :| 0 <= p < |ids| && ids[p] == id && later !in ids[..p + 1];
    var all := [first] + ids;
    assert all[p + 1] == id && all[..p + 2] == [first] + ids[..p + 1];
  }

  lemma MentionsAfterKnown(added: seq<string>, ids: seq<string>, known: set<string>, first: string)
    requires FirstMentions(added, ids, known) && first in known
    ensures FirstMentions(added, [first] + ids, known)
  {
    forall i, j | 0 <= i < j < |added| ensures MentionedBefore([first] + ids, added[i], added[j]) {
      assert added[j] in added;
      MentionedAfter(ids, first, added[i], added[j]);
    }
  }

  lemma MentionsAfterNew(added: seq<string>, ids: seq<string>, known: set<string>, first: string)
    requires FirstMentions(added, ids, known + {first}) && first !in known
    ensures FirstMentions([first] + added, [first] + ids, known)
  {
    var more, all := [first] + added, [first] + ids;
    forall i, j | 0 <= i < j < |more| ensures more[i] != more[j] && MentionedBefore(all, more[i], more[j]) {
      assert more[j] == added[j - 1] && added[j - 1] in added;
      if i > 0 {
        assert more[i] == added[i - 1];
        MentionedAfter(ids, first, added[i - 1], added[j - 1]);
      } else {
        assert all[0] == first && all[..1] == [first];
      }
    }
    forall id ensures id in more <==> id in all && id !in known {
    }
  }

  ghost function Collections(ids: seq<string>, kindOf: string -> NodeType): seq<string>
    decreases |ids|
  {
    if ids == [] then []
    else Collections(ids[..|ids| - 1], kindOf) +
         if kindOf(ids[|ids| - 1]).Collection? then [ids[|ids| - 1]] else []
  }

  /**
   How far the subscriptions have been gone through: the keys and lists there were before, what all
   of them will come to, what they have added so far, and which are still to come.
   */
  datatype Progress = Progress(keys: set<string>, was: map<MioNode, seq<Cell>>, whole: Admission, added: seq<string>,
                               rest: seq<string>) {
    ghost function Known(): Progress
      requires rest != []
    {
      this.(rest := rest[1..])
    }

    ghost function Added(): Progress
      requires rest != []
    {
      this.(added := added + [rest[0]], rest := rest[1..])
    }
  }

  ghost predicate Admitted(p: Progress, keys: set<string>, rest: Admission) {
    keys == p.keys + (set id | id in p.added) && p.whole == Prepend(p.added, rest)
  }

  ghost predicate Subscribing(p: Progress, nodes: map<string, MioNode>, lists: map<MioNode, seq<Cell>>,
                              subNodes: MioNode, subRoots: MioNode, cells: set<Cell>, kindOf: string -> NodeType) {
    && Admitted(p, nodes.Keys, Admit(nodes.Keys, p.rest, kindOf))
    && Subscribed(p.was, lists, subNodes, subRoots, p.added, kindOf)
    && CellsOf(lists[subNodes]) + CellsOf(lists[subRoots]) <= cells
  }

  lemma AdmittedStep(p: Progress, nodes: map<string, MioNode>, kindOf: string -> NodeType, node: MioNode)
    requires p.rest != [] && p.rest[0] == node.id && node.id !in nodes && !kindOf(node.id).Unknown?
    requires Admitted(p, nodes.Keys, Admit(nodes.Keys, p.rest, kindOf))
    ensures Admitted(p.Added(), nodes[node.id := node].Keys, Admit(nodes[node.id := node].Keys, p.rest[1..], kindOf))
  {
    var rest := Admit(nodes.Keys + {node.id}, p.rest[1..], kindOf);
    assert nodes[node.id := node].Keys == nodes.Keys + {node.id};
    assert p.added + ([node.id] + rest.added) == p.added + [node.id] + rest.added;
  }

  lemma SubscribingStep(p: Progress, nodes: map<string, MioNode>, lists: map<MioNode, seq<Cell>>,
                        now: map<MioNode, seq<Cell>>, subNodes: MioNode, subRoots: MioNode, cells: set<Cell>,
                        kindOf: string -> NodeType, node: MioNode, cell: Cell, other: Cell, made: set<Cell>)
    requires p.rest != [] && p.rest[0] == node.id && node.id !in nodes
    requires kindOf(node.id) == node.kind && !node.kind.Unknown?
    requires Subscribing(p, nodes, lists, subNodes, subRoots, cells, kindOf)
    requires WithSubscription(now, lists, subNodes, subRoots, node, cell, other) && cell in made && other in made
    ensures Subscribing(p.Added(), nodes[node.id := node], now, subNodes, subRoots, cells + made, kindOf)
  {
    assert Admitted(p.Added(), nodes[node.id := node].Keys,
                    Admit(nodes[node.id := node].Keys, p.rest[1..], kindOf)) by {
      AdmittedStep(p, nodes, kindOf, node);
    }
    assert Subscribed(p.was, now, subNodes, subRoots, p.Added().added, kindOf) by {
      SubscribedStep(p.was, lists, now, subNodes, subRoots, p.added, kindOf, node, cell, other);
    }
    assert CellsOf(now[subNodes]) + CellsOf(now[subRoots]) <= cells + made by {
      SubscriptionCells(now, lists, subNodes, subRoots, node, cell, other, made, cells);
    }
  }

  lemma AdmittedDone(p: Progress, keys: set<string>, ok: bool)
    requires Admitted(p, keys, Admission([], ok))
    ensures p.whole == Admission(p.added, ok) && keys == p.keys + set id | id in p.whole.added
  {
    assert p.added + [] == p.added;
  }

  ghost function Linked(lists: map<MioNode, seq<Cell>>, subNodes: MioNode, subRoots: MioNode, node: MioNode,
                        cell: Cell, other: Cell): map<MioNode, seq<Cell>>
    requires subNodes in lists && subRoots in lists
  {
    var entered := lists[node := []];
    var one := entered[subNodes := entered[subNodes] + [cell]];
    if node.kind.Collection? then one[subRoots := one[subRoots] + [other]] else one
  }

  /** lists after a subscription to node, for which the cells are new. */
  ghost predicate WithSubscription(lists: map<MioNode, seq<Cell>>, was: map<MioNode, seq<Cell>>, subNodes: MioNode,
                                   subRoots: MioNode, node: MioNode, cell: Cell, other: Cell) {
    && subNodes in was && subRoots in was && subNodes in lists && subRoots in lists
    && cell.val == node && other.val == node
    && lists[subNodes] == was[subNodes] + [cell]
    && lists[subRoots] == was[subRoots] + (if node.kind.Collection? then [other] else [])
    && forall n {:trigger was[n]} {:trigger lists[n]} | n in was && n != subNodes && n != subRoots ::
         n in lists && lists[n] == was[n]
  }

  lemma SubscriptionIs(was: map<MioNode, seq<Cell>>, subNodes: MioNode, subRoots: MioNode, node: MioNode, cell: Cell,
                       other: Cell)
    requires subNodes in was && subRoots in was && subNodes != subRoots && node !in was
    requires cell.val == node && other.val == node
    ensures WithSubscription(Linked(was, subNodes, subRoots, node, cell, other), was, subNodes, subRoots, node, cell,
                             other)
  {
  }

  lemma SubscriptionCells(lists: map<MioNode, seq<Cell>>, was: map<MioNode, seq<Cell>>, subNodes: MioNode,
                          subRoots: MioNode, node: MioNode, cell: Cell, other: Cell, made: set<Cell>, cells: set<Cell>)
    requires WithSubscription(lists, was, subNodes, subRoots, node, cell, other)
    requires CellsOf(was[subNodes]) + CellsOf(was[subRoots]) <= cells && cell in made && other in made
    ensures CellsOf(lists[subNodes]) + CellsOf(lists[subRoots]) <= cells + made
  {
    assert forall c | c in CellsOf(lists[subNodes]) :: c in CellsOf(was[subNodes]) || c == cell;
    assert forall c | c in CellsOf(lists[subRoots]) :: c in CellsOf(was[subRoots]) || c == other;
  }

  lemma CoherentSubscription(nodes: map<string, MioNode>, lists: map<MioNode, seq<Cell>>, subNodes: MioNode,
                             subRoots: MioNode, node: MioNode, cell: Cell, other: Cell)
    requires Coherent(nodes, lists, subNodes, subRoots) && node.id !in nodes && node !in lists
    requires cell.val == node && other.val == node && (node.kind.Collection? ==> cell != other)
    requires cell !in CellsIn(lists) && other !in CellsIn(lists)
    ensures Coherent(nodes[node.id := node], Linked(lists, subNodes, subRoots, node, cell, other), subNodes, subRoots)
  {
    var nodes', entered := nodes[node.id := node], lists[node := []];
    EnteredValues(nodes, node);
    CoherentAfter(nodes, nodes', lists, {node}, node, [], subNodes, subRoots);
    assert entered == WithNew(lists, {node})[node := []];
    ApartNew(lists, {node});
    CoherentAppend(nodes', entered, subNodes, subRoots, subNodes, cell);
    if node.kind.Collection? {
      CoherentAppend(nodes', entered[subNodes := entered[subNodes] + [cell]], subNodes, subRoots, subRoots, other);
    }
  }

  lemma CoherentAppend(nodes: map<string, MioNode>, lists: map<MioNode, seq<Cell>>, subNodes: MioNode,
                       subRoots: MioNode, dir: MioNode, cell: Cell)
    requires Coherent(nodes, lists, subNodes, subRoots) && dir in lists && Known(nodes, cell.val)
             && cell !in CellsIn(lists)
    ensures Coherent(nodes, lists[dir := lists[dir] + [cell]], subNodes, subRoots)
    ensures CellsIn(lists[dir := lists[dir] + [cell]]) <= CellsIn(lists) + {cell}
  {
    assert WithNew(lists, {}) == lists;
    CoherentAfter(nodes, nodes, lists, {}, dir, lists[dir] + [cell], subNodes, subRoots);
  }

  lemma IdsOfAppend(cells: seq<Cell>, cell: Cell)
    ensures IdsOf(cells + [cell]) == IdsOf(cells) + [cell.val.id]
  {
  }

  /** The new nodes are listed as subscribed, in order, and those that are collections once more. */
  ghost predicate Subscribed(was: map<MioNode, seq<Cell>>, lists: map<MioNode, seq<Cell>>, subNodes: MioNode,
                             subRoots: MioNode, added: seq<string>, kindOf: string -> NodeType) {
    && subNodes in was && subRoots in was && subNodes in lists && subRoots in lists
    && IdsOf(lists[subNodes]) == IdsOf(was[subNodes]) + added
    && IdsOf(lists[subRoots]) == IdsOf(was[subRoots]) + Collections(added, kindOf)
    && forall n {:trigger was[n]} {:trigger lists[n]} | n in was && n != subNodes && n != subRoots ::
         n in lists && lists[n] == was[n]
  }

  lemma SubscribedStep(was: map<MioNode, seq<Cell>>, lists: map<MioNode, seq<Cell>>, now: map<MioNode, seq<Cell>>,
                       subNodes: MioNode, subRoots: MioNode, added: seq<string>, kindOf: string -> NodeType,
                       node: MioNode, cell: Cell, other: Cell)
    requires Subscribed(was, lists, subNodes, subRoots, added, kindOf) && kindOf(node.id) == node.kind
    requires WithSubscription(now, lists, subNodes, subRoots, node, cell, other)
    ensures Subscribed(was, now, subNodes, subRoots, added + [node.id], kindOf)
  {
    CollectionsNext(added, node.id, kindOf);
    IdsOfAppend(lists[subNodes], cell);
    IdsOfAppend(lists[subRoots], other);
    assert IdsOf(was[subNodes]) + added + [node.id] == IdsOf(was[subNodes]) + (added + [node.id]);
    var one := if node.kind.Collection? then [node.id] else [];
    assert IdsOf(was[subRoots]) + Collections(added, kindOf) + one ==
           IdsOf(was[subRoots]) + (Collections(added, kindOf) + one);
  }

  /** The ids that are collections, in order. */
  lemma CollectionsNext(ids: seq<string>, id: string, kindOf: string -> NodeType)
    ensures Collections([], kindOf) == []
    ensures Collections(ids + [id], kindOf) ==
            Collections(ids, kindOf) + if kindOf(id).Collection? then [id] else []
  {
    assert (ids + [id])[..|ids|] == ids;
  }
}
