/**
 * The dropdown menu search tree: a `Root` node whose children are `Menu` nodes, which hold
 * further `Menu` nodes and `Item` nodes.
 *
 * Tree nodes are JavaScript objects compared by identity (`indexOf`, `===`, `Map` keys), so
 * every node carries an identity. A `Tree` value is the tree below one node, with the identity
 * of every node in it. The builders, which link a nested menu's node object into its parent
 * rather than copy it, work on an arena, `TreeHeap`, mapping identities to node records whose
 * `children` hold identities.
 */
module MenuTree {
  import opened SearchMetadata

  /** Identity of a tree node object. */
  type NodeId = nat

  /** Identity of a view object (a menu view or a flat button view); views are opaque. */
  type ViewId = nat

  datatype NodeKind = RootKind | MenuKind | ItemKind

  /**
   * A node object as stored in the arena. `found` is the optional flag the filter sets;
   * an absent flag reads as `false`.
   */
  datatype Node =
    | RootNode(children: seq<NodeId>)
    | MenuNode(menu: ViewId, search: TreeSearchMetadata, found: bool, children: seq<NodeId>)
    | ItemNode(item: ViewId, search: TreeSearchMetadata, found: bool)
  {
    function Kind(): NodeKind {
      match this
      case RootNode(_) => RootKind
      case MenuNode(_, _, _, _) => MenuKind
      case ItemNode(_, _, _) => ItemKind
    }

    /** The same node with `found` set; a `Root` has no such flag and is returned unchanged. */
    function WithFound(): (r: Node)
      ensures r.Kind() == Kind() && r.Kids() == Kids()
    {
      match this
      case RootNode(_) => this
      case MenuNode(m, s, _, ks) => MenuNode(m, s, true, ks)
      case ItemNode(it, s, _) => ItemNode(it, s, true)
    }

    /** The node's children; an `Item` has none. */
    function Kids(): seq<NodeId> {
      if ItemNode? then [] else children
    }

    /** The same node with its children list replaced; an `Item` is returned unchanged. */
    function WithKids(ks: seq<NodeId>): (r: Node)
      ensures r.Kind() == Kind()
      ensures !ItemNode? ==> r.Kids() == ks
    {
      match this
      case RootNode(_) => RootNode(ks)
      case MenuNode(m, s, f, _) => MenuNode(m, s, f, ks)
      case ItemNode(_, _, _) => this
    }
  }

  /** The shape of the tree below one node, with the identity of every node in it. */
  datatype Tree =
    | Root(id: NodeId, kids: seq<Tree>)
    | Menu(id: NodeId, menu: ViewId, search: TreeSearchMetadata, found: bool, kids: seq<Tree>)
    | Item(id: NodeId, item: ViewId, search: TreeSearchMetadata, found: bool)
  {
    function Kind(): NodeKind {
      match this
      case Root(_, _) => RootKind
      case Menu(_, _, _, _, _) => MenuKind
      case Item(_, _, _, _) => ItemKind
    }

    function Kids(): seq<Tree> {
      if Item? then [] else kids
    }

    /** The same node with its children replaced; an `Item` is returned unchanged. */
    function WithKids(ks: seq<Tree>): (r: Tree)
      ensures r.id == id && r.Kind() == Kind()
      ensures !Item? ==> r.kids == ks
    {
      match this
      case Root(i, _) => Root(i, ks)
      case Menu(i, m, s, f, _) => Menu(i, m, s, f, ks)
      case Item(_, _, _, _) => this
    }

    /** The same node with `found` set; a `Root` has no such flag and is returned unchanged. */
    function WithFound(): (r: Tree)
      ensures r.id == id && r.Kind() == Kind() && r.Kids() == Kids()
      ensures !Root? ==> r.found
    {
      match this
      case Root(_, _) => this
      case Menu(i, m, s, _, ks) => Menu(i, m, s, true, ks)
      case Item(i, it, s, _) => Item(i, it, s, true)
    }
  }

  /** The last element of a non-empty list: the innermost ancestor in a `parents` list. */
  function Last<T>(s: seq<T>): T
    requires s != []
  {
    s[|s| - 1]
  }

  /** The identities of a list of subtrees, in order. */
  function IdsOf(ts: seq<Tree>): (r: seq<NodeId>)
    ensures |r| == |ts|
    ensures forall i :: 0 <= i < |ts| ==> r[i] == ts[i].id
  {
    seq(|ts|, i requires 0 <= i < |ts| => ts[i].id)
  }

  lemma IdsOfAppend(a: seq<Tree>, b: seq<Tree>)
    ensures IdsOf(a + b) == IdsOf(a) + IdsOf(b)
  {
  }

  /** The arena record of the root of `t`. */
  function NodeOf(t: Tree): (n: Node)
    ensures n.Kind() == t.Kind()
    ensures n.Kids() == IdsOf(t.Kids())
  {
    match t
    case Root(_, ks) => RootNode(IdsOf(ks))
    case Menu(_, m, s, f, ks) => MenuNode(m, s, f, IdsOf(ks))
    case Item(_, it, s, f) => ItemNode(it, s, f)
  }

  /** The subtrees in a list have pairwise different identities. */
  ghost predicate DistinctIds(ts: seq<Tree>) {
    forall i, j :: 0 <= i < j < |ts| ==> ts[i].id != ts[j].id
  }

  /**
   * No node of `t` holds the same node object twice among its children. The tree helpers find
   * a child by identity, so this is what they need of "each node occurs once".
   */
  ghost predicate DistinctSiblings(t: Tree)
    decreases t
  {
    t.Item? || (DistinctIds(t.kids) && forall i :: 0 <= i < |t.kids| ==> DistinctSiblings(t.kids[i]))
  }

  /** Number of `Item` nodes in `t`. */
  function CountItems(t: Tree): nat
    decreases t
  {
    if t.Item? then 1 else CountAll(t.kids)
  }

  /** Number of `Item` nodes in a list of subtrees. */
  function CountAll(ts: seq<Tree>): nat
    decreases ts
  {
    if ts == [] then 0 else CountAll(ts[..|ts| - 1]) + CountItems(ts[|ts| - 1])
  }

  lemma {:induction false} CountAllAppend(a: seq<Tree>, b: seq<Tree>)
    ensures CountAll(a + b) == CountAll(a) + CountAll(b)
    decreases |b|
  {
    if b == [] {
      assert a + b == a;
    } else {
      assert (a + b)[..|a + b| - 1] == a + b[..|b| - 1];
      CountAllAppend(a, b[..|b| - 1]);
    }
  }

  /** `a` and `b` have the same shape and the same node data; only node identities may differ. */
  ghost predicate Congruent(a: Tree, b: Tree)
    decreases a
  {
    match a
    case Root(_, ks) =>
      b.Root? && |ks| == |b.kids| && forall i :: 0 <= i < |ks| ==> Congruent(ks[i], b.kids[i])
    case Menu(_, m, s, f, ks) =>
      b.Menu? && b.menu == m && b.search == s && b.found == f &&
      |ks| == |b.kids| && forall i :: 0 <= i < |ks| ==> Congruent(ks[i], b.kids[i])
    case Item(_, it, s, f) =>
      b.Item? && b.item == it && b.search == s && b.found == f
  }

  lemma {:induction false} CongruentCount(a: Tree, b: Tree)
    requires Congruent(a, b)
    ensures CountItems(a) == CountItems(b)
    decreases a
  {
    if !a.Item? {
      CongruentCountAll(a.kids, b.kids);
    }
  }

  lemma {:induction false} CongruentCountAll(a: seq<Tree>, b: seq<Tree>)
    requires |a| == |b| && forall i :: 0 <= i < |a| ==> Congruent(a[i], b[i])
    ensures CountAll(a) == CountAll(b)
    decreases a
  {
    if a != [] {
      CongruentCountAll(a[..|a| - 1], b[..|b| - 1]);
      CongruentCount(a[|a| - 1], b[|b| - 1]);
    }
  }

  /**
   * The arena of tree node objects. `next` is the allocator: every stored identity is below it,
   * so `Alloc` always hands out an identity no existing node has.
   */
  class TreeHeap {
    var nodes: map<NodeId, Node>
    var next: NodeId

    ghost predicate Valid()
      reads this
    {
      forall id :: id in nodes ==> id < next
    }

    constructor ()
      ensures Valid() && nodes == map[] && next == 0
    {
      nodes := map[];
      next := 0;
    }

    /** Creates a new node object. */
    method Alloc(n: Node) returns (id: NodeId)
      requires Valid()
      modifies this
      ensures Valid()
      ensures id == old(next) && id !in old(nodes)
      ensures next == old(next) + 1
      ensures nodes == old(nodes)[id := n]
    {
      id := next;
      nodes := nodes[id := n];
      next := next + 1;
    }

    /** `parent.children.push( child )`. */
    method Push(parent: NodeId, child: NodeId)
      requires Valid() && parent in nodes && !nodes[parent].ItemNode?
      modifies this
      ensures Valid() && next == old(next)
      ensures nodes == old(nodes)[parent := old(nodes)[parent].WithKids(old(nodes)[parent].Kids() + [child])]
    {
      nodes := nodes[parent := nodes[parent].WithKids(nodes[parent].Kids() + [child])];
    }

    /** `parent.children = ks`. */
    method SetChildren(parent: NodeId, ks: seq<NodeId>)
      requires Valid() && parent in nodes && !nodes[parent].ItemNode?
      modifies this
      ensures Valid() && next == old(next)
      ensures nodes == old(nodes)[parent := old(nodes)[parent].WithKids(ks)]
    {
      nodes := nodes[parent := nodes[parent].WithKids(ks)];
    }
  }
}
