/**
 * `createTreeFromFlattenDropdownMenusList` and its older twin `createTreeFromFlattenMenuViews`:
 * the search tree of a dropdown menu bar built from the flat list of its menu views. Each menu
 * gets one `Menu` node; a second pass fills every node's children from the menu's panel list;
 * the menus without a parent menu become the children of a new `Root` node.
 *
 * The nodes live in a `TreeHeap`, so that a nested menu is linked as the very node built for it
 * and not as a copy. The nodes the builder makes get the identities from the heap's `next`
 * upwards: the menus' first, in list order, then the items and last the root.
 */
module TreeBuilder {
  import opened Wrappers
  import opened SearchMetadata
  import opened MenuTree
  import opened MapFilter

  /** What the first child of a `DropdownMenuListItemView` is. */
  datatype ListItemContent =
    | FlatItemView(button: ViewId, buttonLabel: Option<string>)
    | NestedMenuView(menu: ViewId)
    | OtherContent

  /** An entry of a menu's panel list: a list item, or anything else (a separator, say). */
  datatype PanelEntry = ListItem(first: ListItemContent) | OtherEntry

  /**
   * A `DropdownMenuView` as the builders read it: its identity, its button's label, whether it
   * has a `parentMenuView`, and the entries of its panel list.
   */
  datatype MenuView = MenuView(view: ViewId, buttonLabel: Option<string>, hasParent: bool, panel: seq<PanelEntry>)

  /** The menu views in list order. */
  function Views(menus: seq<MenuView>): (r: seq<ViewId>)
    ensures |r| == |menus|
    ensures forall i :: 0 <= i < |menus| ==> r[i] == menus[i].view
  {
    seq(|menus|, i requires 0 <= i < |menus| => menus[i].view)
  }

  lemma ViewsSnoc(menus: seq<MenuView>, i: nat)
    requires i < |menus|
    ensures Views(menus[..i + 1]) == Views(menus[..i]) + [menus[i].view]
  {
    var a := Views(menus[..i + 1]);
    var b := Views(menus[..i]) + [menus[i].view];
    forall j | 0 <= j < |a|
      ensures a[j] == b[j]
    {
    }
  }

  /** No menu view occurs twice in the list, so each gets exactly one node. */
  ghost predicate DistinctViews(menus: seq<MenuView>) {
    forall i, j :: 0 <= i < j < |menus| ==> menus[i].view != menus[j].view
  }

  /** `menusTreeMap.get( view )` by position: the index of the menu whose view is `v`, if any. */
  function IndexOfView(menus: seq<MenuView>, v: ViewId): (r: Option<nat>)
    ensures r.Some? ==> r.value < |menus| && menus[r.value].view == v
    ensures r.Some? ==> forall i :: 0 <= i < r.value ==> menus[i].view != v
    ensures r.None? ==> forall i :: 0 <= i < |menus| ==> menus[i].view != v
  {
    if menus == [] then None
    else if menus[0].view == v then Some(0)
    else
      match IndexOfView(menus[1..], v)
      case None => None
      case Some(k) => Some(k + 1)
  }

  /** `!tree.menu.parentMenuView` read through the map: whether the menu of view `v` has a parent. */
  function HasParentMenu(menus: seq<MenuView>, v: ViewId): bool {
    match IndexOfView(menus, v)
    case None => false
    case Some(k) => menus[k].hasParent
  }

  /** The callback the root's children are picked with: the menus without a parent menu. */
  function TopLevelCallback(menus: seq<MenuView>): (ViewId, NodeId) -> bool {
    (v: ViewId, n: NodeId) => !HasParentMenu(menus, v)
  }

  /**
   * How a label becomes search metadata: `createTextSearchMetadata` in the builders. The
   * builders' steps take it as a parameter so that their proofs do not depend on how the text
   * is normalised.
   */
  type SearchFn = Option<string> -> TreeSearchMetadata

  /** The node made for a menu before its children are filled in. */
  function EmptyMenuNode(m: MenuView, searchOf: SearchFn): Node {
    MenuNode(m.view, searchOf(m.buttonLabel), false, [])
  }

  /** The node at `base + k` is the unfilled node of the menu at index `k`. */
  ghost predicate MenuNodeAt(nodes: map<NodeId, Node>, menus: seq<MenuView>, searchOf: SearchFn, base: NodeId, k: nat)
    requires k < |menus|
  {
    base + k in nodes && nodes[base + k] == EmptyMenuNode(menus[k], searchOf)
  }

  /** What a child of a menu node is: a new item node, or the node of the menu at `index`. */
  datatype ChildDesc = ItemChild(button: ViewId, search: TreeSearchMetadata) | MenuChild(index: nat)

  /** The children one panel entry contributes. */
  function Contribution(e: PanelEntry, menus: seq<MenuView>, searchOf: SearchFn): seq<ChildDesc> {
    match e
    case OtherEntry => []
    case ListItem(FlatItemView(b, l)) => [ItemChild(b, searchOf(l))]
    case ListItem(NestedMenuView(m)) =>
      (match IndexOfView(menus, m) case None => [] case Some(k) => [MenuChild(k)])
    case ListItem(OtherContent) => []
  }

  /**
   * The children of a menu whose panel list is `panel`, in panel order: a flat button gives an
   * item with the metadata of its label, a nested menu of the list gives that menu's node, and
   * everything else gives nothing.
   */
  function Contributions(panel: seq<PanelEntry>, menus: seq<MenuView>, searchOf: SearchFn): (r: seq<ChildDesc>)
    ensures |r| <= |panel|
    decreases |panel|
  {
    if panel == [] then []
    else Contributions(panel[..|panel| - 1], menus, searchOf) + Contribution(panel[|panel| - 1], menus, searchOf)
  }

  lemma ContributionsSnoc(p: seq<PanelEntry>, x: PanelEntry, menus: seq<MenuView>, searchOf: SearchFn)
    ensures Contributions(p + [x], menus, searchOf) == Contributions(p, menus, searchOf) + Contribution(x, menus, searchOf)
  {
    assert (p + [x])[..|p|] == p;
  }

  /** The children of two stretches of a panel list are the children of each, in order. */
  lemma {:induction false} ContributionsAppend(a: seq<PanelEntry>, b: seq<PanelEntry>, menus: seq<MenuView>, searchOf: SearchFn)
    ensures Contributions(a + b, menus, searchOf) == Contributions(a, menus, searchOf) + Contributions(b, menus, searchOf)
    decreases |b|
  {
    if b == [] {
      assert a + b == a;
    } else {
      var init := b[..|b| - 1];
      var x := b[|b| - 1];
      var ca := Contributions(a, menus, searchOf);
      var ci := Contributions(init, menus, searchOf);
      var cx := Contribution(x, menus, searchOf);
      calc {
        Contributions(a + b, menus, searchOf);
        { assert a + b == (a + init) + [x]; }
        Contributions((a + init) + [x], menus, searchOf);
        { ContributionsSnoc(a + init, x, menus, searchOf); }
        Contributions(a + init, menus, searchOf) + cx;
        { ContributionsAppend(a, init, menus, searchOf); }
        (ca + ci) + cx;
        ca + (ci + cx);
        { ContributionsSnoc(init, x, menus, searchOf); assert init + [x] == b; }
        ca + Contributions(b, menus, searchOf);
      }
    }
  }

  /**
   * A panel entry that is not a list item, a list item holding neither a flat button nor a
   * menu, and a nested menu missing from the list add no child.
   */
  lemma SkippedEntryAddsNothing(p: seq<PanelEntry>, e: PanelEntry, menus: seq<MenuView>, searchOf: SearchFn)
    requires e.OtherEntry? || e.first.OtherContent? || (e.first.NestedMenuView? && e.first.menu !in Views(menus))
    ensures Contributions(p + [e], menus, searchOf) == Contributions(p, menus, searchOf)
  {
    ContributionsSnoc(p, e, menus, searchOf);
  }

  /**
   * Two groups of items separated in the panel by a separator become one children list, the
   * first group's children followed by the second's, with nothing for the separator.
   */
  lemma GroupsMergeInOrder(a: seq<PanelEntry>, b: seq<PanelEntry>, menus: seq<MenuView>, searchOf: SearchFn)
    ensures Contributions(a + [OtherEntry] + b, menus, searchOf) == Contributions(a, menus, searchOf) + Contributions(b, menus, searchOf)
  {
    ContributionsAppend(a + [OtherEntry], b, menus, searchOf);
    assert (a + [OtherEntry])[..|a|] == a;
  }

  /**
   * The identities of the root's children: the node of every menu without a parent menu, in list
   * order, where the menu at index `k` has the node `base + k`.
   */
  function TopLevel(menus: seq<MenuView>, base: NodeId): (r: seq<NodeId>)
    ensures forall x :: x in r ==> base <= x < base + |menus|
    ensures forall k :: 0 <= k < |menus| ==> (base + k in r <==> !menus[k].hasParent)
    ensures forall i, j :: 0 <= i < j < |r| ==> r[i] < r[j]
    decreases |menus|
  {
    if menus == [] then []
    else
      var n := |menus| - 1;
      var prev := TopLevel(menus[..n], base);
      assert forall k :: 0 <= k < n ==> menus[..n][k] == menus[k];
      assert forall i :: 0 <= i < |prev| ==> prev[i] in prev;
      prev + (if menus[n].hasParent then [] else [base + n])
  }

  /**
   * `menusTreeMap` after the first pass: keyed by the menu views in list order, with the menu at
   * index `k` mapped to the node `base + k`.
   */
  ghost predicate ViewMap(treeMap: OrderedMap<ViewId, NodeId>, menus: seq<MenuView>, base: NodeId) {
    treeMap.Valid() && treeMap.keys == Views(menus) &&
    forall k :: 0 <= k < |menus| ==> menus[k].view in treeMap.values && treeMap.values[menus[k].view] == base + k
  }

  /**
   * The node `id` is the child `d` describes: a new item node, unfound, with an identity of at
   * least `lo`, or the node of the menu `d` names.
   */
  ghost predicate ChildRealizes(nodes: map<NodeId, Node>, id: NodeId, d: ChildDesc, base: NodeId, lo: NodeId) {
    match d
    case ItemChild(b, s) => lo <= id && id in nodes && nodes[id] == ItemNode(b, s, false)
    case MenuChild(k) => id == base + k
  }

  ghost predicate Realizes(nodes: map<NodeId, Node>, ids: seq<NodeId>, descs: seq<ChildDesc>, base: NodeId, lo: NodeId) {
    |ids| == |descs| && forall j :: 0 <= j < |ids| ==> ChildRealizes(nodes, ids[j], descs[j], base, lo)
  }

  /**
   * The menu at index `k` has been filled: its node carries the menu's view, the metadata of its
   * label and the children its panel list describes.
   */
  ghost predicate MenuBuilt(nodes: map<NodeId, Node>, menus: seq<MenuView>, searchOf: SearchFn, base: NodeId, k: nat)
    requires k < |menus|
  {
    base + k in nodes && nodes[base + k].MenuNode? &&
    nodes[base + k] == EmptyMenuNode(menus[k], searchOf).WithKids(nodes[base + k].children) &&
    Realizes(nodes, nodes[base + k].children, Contributions(menus[k].panel, menus, searchOf), base, base + |menus|)
  }

  /** The children in `ids` that `descs` describes as new item nodes, in order. */
  ghost function ItemIdsIn(ids: seq<NodeId>, descs: seq<ChildDesc>): seq<NodeId>
    decreases |ids|
  {
    if ids == [] || descs == [] then []
    else (if descs[0].ItemChild? then [ids[0]] else []) + ItemIdsIn(ids[1..], descs[1..])
  }

  /** The identities `lo`, `lo + 1`, ..., `hi - 1`: the nodes allocated while `next` went from `lo` to `hi`. */
  ghost function IdRange(lo: NodeId, hi: NodeId): (r: seq<NodeId>)
    requires lo <= hi
    ensures |r| == hi - lo && forall i :: 0 <= i < |r| ==> r[i] == lo + i
  {
    seq(hi - lo, i requires 0 <= i < hi - lo => lo + i)
  }

  /** The item children of the menu at index `k`, in panel order. */
  ghost function MenuItemIds(nodes: map<NodeId, Node>, menus: seq<MenuView>, searchOf: SearchFn, base: NodeId, k: nat): seq<NodeId>
    requires k < |menus|
  {
    ItemIdsIn(if base + k in nodes then nodes[base + k].Kids() else [], Contributions(menus[k].panel, menus, searchOf))
  }

  /** The item children of the first `n` menus, menu after menu. */
  ghost function AllItemIds(nodes: map<NodeId, Node>, menus: seq<MenuView>, searchOf: SearchFn, base: NodeId, n: nat): seq<NodeId>
    requires n <= |menus|
    decreases n
  {
    if n == 0 then [] else AllItemIds(nodes, menus, searchOf, base, n - 1) + MenuItemIds(nodes, menus, searchOf, base, n - 1)
  }

  /**
   * What a builder leaves in the heap, from `before` (whose `next` was `base`) to `after`: the
   * menus' nodes at `base`, `base + 1`, ..., each filled from its panel list; a new root above
   * them holding the parentless menus; every node that existed before left alone. The item
   * children of all the menus, menu after menu, are the nodes made between the menus and the
   * root, one new node per flat button, so no two of them are the same node.
   */
  ghost predicate Built(before: map<NodeId, Node>, base: NodeId, after: map<NodeId, Node>, menus: seq<MenuView>, searchOf: SearchFn, root: NodeId) {
    base + |menus| <= root && root !in before &&
    root in after && after[root] == RootNode(TopLevel(menus, base)) &&
    (forall k :: 0 <= k < |menus| ==> base + k !in before && MenuBuilt(after, menus, searchOf, base, k)) &&
    AllItemIds(after, menus, searchOf, base, |menus|) == IdRange(base + |menus|, root) &&
    (forall x :: x in before ==> x in after && after[x] == before[x])
  }

  lemma {:induction false} ItemIdsAppend(a: seq<NodeId>, da: seq<ChildDesc>, b: seq<NodeId>, db: seq<ChildDesc>)
    requires |a| == |da|
    ensures ItemIdsIn(a + b, da + db) == ItemIdsIn(a, da) + ItemIdsIn(b, db)
    decreases |a|
  {
    if a == [] {
      assert a + b == b && da + db == db;
    } else {
      assert (a + b)[1..] == a[1..] + b && (da + db)[1..] == da[1..] + db;
      ItemIdsAppend(a[1..], da[1..], b, db);
    }
  }

  lemma IdRangeAppend(lo: NodeId, mid: NodeId, hi: NodeId)
    requires lo <= mid <= hi
    ensures IdRange(lo, mid) + IdRange(mid, hi) == IdRange(lo, hi)
  {
  }

  /** The item children of menus whose nodes did not change are the same. */
  lemma {:induction false} AllItemIdsFrame(nodes: map<NodeId, Node>, nodes': map<NodeId, Node>, menus: seq<MenuView>, searchOf: SearchFn, base: NodeId, n: nat)
    requires n <= |menus|
    requires forall x :: base <= x < base + n ==> x in nodes && x in nodes' && nodes'[x] == nodes[x]
    ensures AllItemIds(nodes', menus, searchOf, base, n) == AllItemIds(nodes, menus, searchOf, base, n)
    decreases n
  {
    if n > 0 {
      AllItemIdsFrame(nodes, nodes', menus, searchOf, base, n - 1);
    }
  }

  /** A built tree's item children are pairwise different nodes, none of which existed before. */
  lemma BuiltItemsAreNew(before: map<NodeId, Node>, base: NodeId, after: map<NodeId, Node>, menus: seq<MenuView>, searchOf: SearchFn, root: NodeId)
    requires Built(before, base, after, menus, searchOf, root)
    requires forall x :: x in before ==> x < base
    ensures var items := AllItemIds(after, menus, searchOf, base, |menus|);
      (forall i, j :: 0 <= i < j < |items| ==> items[i] != items[j]) &&
      forall i :: 0 <= i < |items| ==> items[i] !in before && base + |menus| <= items[i] < root
  {
  }

  /**
   * A change to one menu node, or to an identity not in use, and the addition of new nodes keep
   * every child description true.
   */
  lemma RealizesFrame(nodes: map<NodeId, Node>, nodes': map<NodeId, Node>, changed: NodeId,
                      ids: seq<NodeId>, descs: seq<ChildDesc>, base: NodeId, lo: NodeId)
    requires Realizes(nodes, ids, descs, base, lo)
    requires changed in nodes ==> nodes[changed].MenuNode?
    requires forall x :: x in nodes && x != changed ==> x in nodes' && nodes'[x] == nodes[x]
    ensures Realizes(nodes', ids, descs, base, lo)
  {
    forall j | 0 <= j < |ids|
      ensures ChildRealizes(nodes', ids[j], descs[j], base, lo)
    {
      assert ChildRealizes(nodes, ids[j], descs[j], base, lo);
    }
  }

  lemma RealizesAppend(nodes: map<NodeId, Node>, a: seq<NodeId>, da: seq<ChildDesc>,
                       b: seq<NodeId>, db: seq<ChildDesc>, base: NodeId, lo: NodeId)
    requires Realizes(nodes, a, da, base, lo) && Realizes(nodes, b, db, base, lo)
    ensures Realizes(nodes, a + b, da + db, base, lo)
  {
    forall j | 0 <= j < |a + b|
      ensures ChildRealizes(nodes, (a + b)[j], (da + db)[j], base, lo)
    {
      if j < |a| {
        assert ChildRealizes(nodes, a[j], da[j], base, lo);
      } else {
        assert ChildRealizes(nodes, b[j - |a|], db[j - |a|], base, lo);
      }
    }
  }

  /** A filled menu stays filled while another menu node changes or new nodes are added. */
  lemma MenuBuiltFrame(nodes: map<NodeId, Node>, nodes': map<NodeId, Node>, changed: NodeId,
                       menus: seq<MenuView>, searchOf: SearchFn, base: NodeId, k: nat)
    requires k < |menus| && MenuBuilt(nodes, menus, searchOf, base, k) && base + k != changed
    requires changed in nodes ==> nodes[changed].MenuNode?
    requires forall x :: x in nodes && x != changed ==> x in nodes' && nodes'[x] == nodes[x]
    ensures MenuBuilt(nodes', menus, searchOf, base, k)
  {
    RealizesFrame(nodes, nodes', changed, nodes[base + k].children, Contributions(menus[k].panel, menus, searchOf), base, base + |menus|);
  }

  /**
   * The `reduce` of the first pass: one unfilled `Menu` node per menu, in list order, each put
   * into the map under its view.
   */
  method AddMenuNodes(heap: TreeHeap, menus: seq<MenuView>, searchOf: SearchFn) returns (treeMap: OrderedMap<ViewId, NodeId>)
    requires heap.Valid() && DistinctViews(menus)
    modifies heap
    ensures heap.Valid() && heap.next == old(heap.next) + |menus|
    ensures ViewMap(treeMap, menus, old(heap.next))
    ensures forall x :: x in old(heap.nodes) ==> x in heap.nodes && heap.nodes[x] == old(heap.nodes)[x]
    ensures forall k :: 0 <= k < |menus| ==> MenuNodeAt(heap.nodes, menus, searchOf, old(heap.next), k)
  {
    ghost var base := heap.next;
    treeMap := EmptyMap();
    var i := 0;
    while i < |menus|
      invariant 0 <= i <= |menus|
      invariant heap.Valid() && heap.next == base + i
      invariant ViewMap(treeMap, menus[..i], base)
      invariant forall x :: x in old(heap.nodes) ==> x in heap.nodes && heap.nodes[x] == old(heap.nodes)[x]
      invariant forall k :: 0 <= k < i ==> MenuNodeAt(heap.nodes, menus, searchOf, base, k)
    {
      treeMap := AddMenuNode(heap, menus, searchOf, i, treeMap, base);
      i := i + 1;
    }
    assert menus[..i] == menus;
  }

  /** One step of the `reduce`: `acc.set( menu, { menu, kind: 'Menu', children: [], search } )`. */
  method AddMenuNode(heap: TreeHeap, menus: seq<MenuView>, searchOf: SearchFn, i: nat, treeMap: OrderedMap<ViewId, NodeId>, ghost base: NodeId)
    returns (treeMap': OrderedMap<ViewId, NodeId>)
    requires DistinctViews(menus) && i < |menus|
    requires heap.Valid() && heap.next == base + i
    requires ViewMap(treeMap, menus[..i], base)
    requires forall k :: 0 <= k < i ==> MenuNodeAt(heap.nodes, menus, searchOf, base, k)
    modifies heap
    ensures heap.Valid() && heap.next == base + i + 1
    ensures ViewMap(treeMap', menus[..i + 1], base)
    ensures forall x :: x in old(heap.nodes) ==> x in heap.nodes && heap.nodes[x] == old(heap.nodes)[x]
    ensures forall k :: 0 <= k < i + 1 ==> MenuNodeAt(heap.nodes, menus, searchOf, base, k)
  {
    ghost var before := heap.nodes;
    var id := heap.Alloc(EmptyMenuNode(menus[i], searchOf));
    assert forall k :: 0 <= k < i + 1 ==> MenuNodeAt(heap.nodes, menus, searchOf, base, k) by {
      forall k | 0 <= k < i + 1
        ensures MenuNodeAt(heap.nodes, menus, searchOf, base, k)
      {
        if k < i {
          assert MenuNodeAt(before, menus, searchOf, base, k);
        }
      }
    }
    var v := menus[i].view;
    assert v !in treeMap.values by {
      assert forall k :: 0 <= k < i ==> menus[..i][k].view != v;
    }
    treeMap' := treeMap.Set(v, id);
    assert ViewMap(treeMap', menus[..i + 1], base) by {
      ViewsSnoc(menus, i);
      var upto := menus[..i + 1];
      forall k | 0 <= k < i + 1
        ensures upto[k].view in treeMap'.values && treeMap'.values[upto[k].view] == base + k
      {
        if k < i {
          assert upto[k] == menus[..i][k];
        }
      }
    }
  }

  /**
   * One entry of a menu's panel list: a flat button gets a new `Item` node pushed onto the
   * children of `id`, a nested menu found in the map gets its node pushed, anything else is
   * skipped. `more` is what was pushed.
   */
  method AddEntry(heap: TreeHeap, id: NodeId, e: PanelEntry, menus: seq<MenuView>, searchOf: SearchFn,
                  treeMap: OrderedMap<ViewId, NodeId>, ghost base: NodeId) returns (ghost more: seq<NodeId>)
    requires heap.Valid() && ViewMap(treeMap, menus, base)
    requires id in heap.nodes && heap.nodes[id].MenuNode?
    modifies heap
    ensures heap.Valid() && old(heap.next) <= heap.next
    ensures ItemIdsIn(more, Contribution(e, menus, searchOf)) == IdRange(old(heap.next), heap.next)
    ensures forall x :: x in old(heap.nodes) && x != id ==> x in heap.nodes && heap.nodes[x] == old(heap.nodes)[x]
    ensures id in heap.nodes && heap.nodes[id] == old(heap.nodes)[id].WithKids(old(heap.nodes)[id].children + more)
    ensures Realizes(heap.nodes, more, Contribution(e, menus, searchOf), base, old(heap.next))
  {
    more := [];
    if e.ListItem? && e.first.FlatItemView? {
      var item := heap.Alloc(ItemNode(e.first.button, searchOf(e.first.buttonLabel), false));
      heap.Push(id, item);
      more := [item];
    } else if e.ListItem? && e.first.NestedMenuView? {
      var m := e.first.menu;
      if m in treeMap.values {
        var child := treeMap.values[m];
        heap.Push(id, child);
        more := [child];
        assert IndexOfView(menus, m).Some? by {
          assert m in Views(menus);
        }
      }
    }
    assert old(heap.nodes)[id].children + more == old(heap.nodes)[id].Kids() + more;
  }

  /**
   * The second pass for the menu at index `i`: the entries of its panel list, in order, each
   * added to the children of its node.
   */
  method FillMenu(heap: TreeHeap, menus: seq<MenuView>, searchOf: SearchFn, treeMap: OrderedMap<ViewId, NodeId>, ghost base: NodeId, i: nat)
    requires heap.Valid() && ViewMap(treeMap, menus, base)
    requires i < |menus| && base + |menus| <= heap.next
    requires MenuNodeAt(heap.nodes, menus, searchOf, base, i)
    modifies heap
    ensures heap.Valid() && old(heap.next) <= heap.next
    ensures forall x :: x in old(heap.nodes) && x != base + i ==> x in heap.nodes && heap.nodes[x] == old(heap.nodes)[x]
    ensures MenuBuilt(heap.nodes, menus, searchOf, base, i)
    ensures MenuItemIds(heap.nodes, menus, searchOf, base, i) == IdRange(old(heap.next), heap.next)
  {
    var id := treeMap.values[menus[i].view];
    var panel := menus[i].panel;
    ghost var added: seq<NodeId> := [];
    var j := 0;
    while j < |panel|
      invariant 0 <= j <= |panel|
      invariant heap.Valid() && old(heap.next) <= heap.next && id in heap.nodes
      invariant forall x :: x in old(heap.nodes) && x != id ==> x in heap.nodes && heap.nodes[x] == old(heap.nodes)[x]
      invariant heap.nodes[id] == EmptyMenuNode(menus[i], searchOf).WithKids(added)
      invariant Realizes(heap.nodes, added, Contributions(panel[..j], menus, searchOf), base, base + |menus|)
      invariant ItemIdsIn(added, Contributions(panel[..j], menus, searchOf)) == IdRange(old(heap.next), heap.next)
    {
      ghost var before := heap.nodes;
      ghost var mid := heap.next;
      ghost var more := AddEntry(heap, id, panel[j], menus, searchOf, treeMap, base);
      FillStep(before, heap.nodes, id, added, more, panel, j, menus, searchOf, base, old(heap.next));
      ItemIdsStep(added, more, panel, j, menus, searchOf, old(heap.next), mid, heap.next);
      added := added + more;
      j := j + 1;
    }
    FillDone(heap.nodes, menus, searchOf, base, i, added, j);
  }

  /** Adding the children of one more panel entry keeps the children list realizing the panel so far. */
  lemma FillStep(before: map<NodeId, Node>, after: map<NodeId, Node>, id: NodeId, added: seq<NodeId>, more: seq<NodeId>,
                 panel: seq<PanelEntry>, j: nat, menus: seq<MenuView>, searchOf: SearchFn, base: NodeId, lo: NodeId)
    requires j < |panel| && base + |menus| <= lo
    requires Realizes(before, added, Contributions(panel[..j], menus, searchOf), base, base + |menus|)
    requires id in before && before[id].MenuNode?
    requires forall x :: x in before && x != id ==> x in after && after[x] == before[x]
    requires Realizes(after, more, Contribution(panel[j], menus, searchOf), base, lo)
    ensures Realizes(after, added + more, Contributions(panel[..j + 1], menus, searchOf), base, base + |menus|)
  {
    ContributionsStep(panel, j, menus, searchOf);
    var done := Contributions(panel[..j], menus, searchOf);
    var top := base + |menus|;
    RealizesFrame(before, after, id, added, done, base, top);
    RealizesLower(after, more, Contribution(panel[j], menus, searchOf), base, lo, top);
    RealizesAppend(after, added, done, more, Contribution(panel[j], menus, searchOf), base, top);
  }

  /** The item children so far, then those of one more panel entry, are the nodes made so far. */
  lemma ItemIdsStep(added: seq<NodeId>, more: seq<NodeId>, panel: seq<PanelEntry>, j: nat, menus: seq<MenuView>, searchOf: SearchFn,
                    lo: NodeId, mid: NodeId, hi: NodeId)
    requires j < |panel| && lo <= mid <= hi
    requires |added| == |Contributions(panel[..j], menus, searchOf)|
    requires ItemIdsIn(added, Contributions(panel[..j], menus, searchOf)) == IdRange(lo, mid)
    requires ItemIdsIn(more, Contribution(panel[j], menus, searchOf)) == IdRange(mid, hi)
    ensures ItemIdsIn(added + more, Contributions(panel[..j + 1], menus, searchOf)) == IdRange(lo, hi)
  {
    ContributionsStep(panel, j, menus, searchOf);
    ItemIdsAppend(added, Contributions(panel[..j], menus, searchOf), more, Contribution(panel[j], menus, searchOf));
    IdRangeAppend(lo, mid, hi);
  }

  /** A child description that holds above `lo` holds above any lower bound. */
  lemma RealizesLower(nodes: map<NodeId, Node>, ids: seq<NodeId>, descs: seq<ChildDesc>, base: NodeId, lo: NodeId, lo': NodeId)
    requires Realizes(nodes, ids, descs, base, lo) && lo' <= lo
    ensures Realizes(nodes, ids, descs, base, lo')
  {
    forall k | 0 <= k < |ids|
      ensures ChildRealizes(nodes, ids[k], descs[k], base, lo')
    {
      assert ChildRealizes(nodes, ids[k], descs[k], base, lo);
    }
  }

  lemma ContributionsStep(panel: seq<PanelEntry>, j: nat, menus: seq<MenuView>, searchOf: SearchFn)
    requires j < |panel|
    ensures Contributions(panel[..j + 1], menus, searchOf) == Contributions(panel[..j], menus, searchOf) + Contribution(panel[j], menus, searchOf)
  {
    assert panel[..j + 1] == panel[..j] + [panel[j]];
    ContributionsSnoc(panel[..j], panel[j], menus, searchOf);
  }

  /** Once the whole panel list has been added, the menu at index `i` is built. */
  lemma FillDone(nodes: map<NodeId, Node>, menus: seq<MenuView>, searchOf: SearchFn, base: NodeId, i: nat, added: seq<NodeId>, j: nat)
    requires i < |menus| && j == |menus[i].panel|
    requires base + i in nodes && nodes[base + i] == EmptyMenuNode(menus[i], searchOf).WithKids(added)
    requires Realizes(nodes, added, Contributions(menus[i].panel[..j], menus, searchOf), base, base + |menus|)
    ensures MenuBuilt(nodes, menus, searchOf, base, i)
    ensures MenuItemIds(nodes, menus, searchOf, base, i) == ItemIdsIn(added, Contributions(menus[i].panel[..j], menus, searchOf))
  {
    assert menus[i].panel[..j] == menus[i].panel;
  }

  /** The views of the menus without a parent menu, in list order. */
  ghost function ParentlessViews(ms: seq<MenuView>): seq<ViewId>
    decreases |ms|
  {
    if ms == [] then []
    else
      var n := |ms| - 1;
      ParentlessViews(ms[..n]) + (if ms[n].hasParent then [] else [ms[n].view])
  }

  /** `mapFilter` with `TopLevelCallback` keeps the keys of the parentless menus, in list order. */
  lemma {:induction false} KeptViewsAreParentless(menus: seq<MenuView>, values: map<ViewId, NodeId>, n: nat)
    requires n <= |menus| && DistinctViews(menus)
    requires forall k :: 0 <= k < |menus| ==> menus[k].view in values
    ensures forall v :: v in Views(menus[..n]) ==> v in values
    ensures KeptKeys(TopLevelCallback(menus), Views(menus[..n]), values) == ParentlessViews(menus[..n])
    decreases n
  {
    assert forall v :: v in Views(menus[..n]) ==> v in values by {
      forall v | v in Views(menus[..n])
        ensures v in values
      {
        var j :| 0 <= j < n && Views(menus[..n])[j] == v;
        assert menus[..n][j] == menus[j];
      }
    }
    if n > 0 {
      var m := n - 1;
      var vs := Views(menus[..n]);
      var last := menus[m].view;
      assert vs[..m] == Views(menus[..m]) && vs[m] == last by {
        ViewsSnoc(menus, m);
        assert (Views(menus[..m]) + [last])[..m] == Views(menus[..m]);
      }
      assert TopLevelCallback(menus)(last, values[last]) == !menus[m].hasParent by {
        assert IndexOfView(menus, last) == Some(m);
      }
      assert ParentlessViews(menus[..n]) == ParentlessViews(menus[..m]) + (if menus[m].hasParent then [] else [last]) by {
        assert menus[..n][..m] == menus[..m];
      }
      KeptViewsAreParentless(menus, values, m);
    }
  }

  /**
   * Looking the parentless menus' views up in the map gives the nodes `TopLevel` lists, when the
   * menu at index `k` is mapped to `base + k`.
   */
  lemma {:induction false} ParentlessNodesAreTopLevel(menus: seq<MenuView>, values: map<ViewId, NodeId>, base: NodeId, n: nat)
    requires n <= |menus|
    requires forall k :: 0 <= k < |menus| ==> menus[k].view in values && values[menus[k].view] == base + k
    ensures |ParentlessViews(menus[..n])| == |TopLevel(menus[..n], base)|
    ensures forall i :: 0 <= i < |ParentlessViews(menus[..n])| ==>
      ParentlessViews(menus[..n])[i] in values && values[ParentlessViews(menus[..n])[i]] == TopLevel(menus[..n], base)[i]
    decreases n
  {
    if n > 0 {
      var m := n - 1;
      assert menus[..n][..m] == menus[..m] && menus[..n][m] == menus[m];
      ParentlessNodesAreTopLevel(menus, values, base, m);
    }
  }

  /** The values `mapFilter` keeps, in order, are the nodes `TopLevel` lists. */
  lemma TopLevelChildren(menus: seq<MenuView>, treeMap: OrderedMap<ViewId, NodeId>, base: NodeId, top: OrderedMap<ViewId, NodeId>)
    requires ViewMap(treeMap, menus, base) && DistinctViews(menus) && top.Valid()
    requires top.keys == KeptKeys(TopLevelCallback(menus), treeMap.keys, treeMap.values)
    requires forall k :: k in top.values ==> k in treeMap.values && top.values[k] == treeMap.values[k]
    ensures top.ValuesInOrder() == TopLevel(menus, base)
  {
    TopKeysAreParentless(menus, treeMap, base, top);
    ParentlessLookups(menus, treeMap.values, base);
    ValuesThroughKeys(top, treeMap.values, TopLevel(menus, base));
  }

  lemma TopKeysAreParentless(menus: seq<MenuView>, treeMap: OrderedMap<ViewId, NodeId>, base: NodeId, top: OrderedMap<ViewId, NodeId>)
    requires ViewMap(treeMap, menus, base) && DistinctViews(menus)
    requires top.keys == KeptKeys(TopLevelCallback(menus), treeMap.keys, treeMap.values)
    ensures top.keys == ParentlessViews(menus)
  {
    assert menus[..|menus|] == menus;
    KeptViewsAreParentless(menus, treeMap.values, |menus|);
  }

  lemma ParentlessLookups(menus: seq<MenuView>, values: map<ViewId, NodeId>, base: NodeId)
    requires forall k :: 0 <= k < |menus| ==> menus[k].view in values && values[menus[k].view] == base + k
    ensures var pv := ParentlessViews(menus); var tl := TopLevel(menus, base);
      |pv| == |tl| && forall i :: 0 <= i < |pv| ==> pv[i] in values && values[pv[i]] == tl[i]
  {
    assert menus[..|menus|] == menus;
    ParentlessNodesAreTopLevel(menus, values, base, |menus|);
  }

  /** The values of a sub-map, in key order, are what the larger map gives those keys. */
  lemma ValuesThroughKeys(top: OrderedMap<ViewId, NodeId>, values: map<ViewId, NodeId>, expected: seq<NodeId>)
    requires top.Valid() && forall k :: k in top.values ==> k in values && top.values[k] == values[k]
    requires |top.keys| == |expected| && forall i :: 0 <= i < |top.keys| ==> top.keys[i] in values && values[top.keys[i]] == expected[i]
    ensures top.ValuesInOrder() == expected
  {
    forall i | 0 <= i < |expected|
      ensures top.ValuesInOrder()[i] == expected[i]
    {
      assert top.keys[i] in top.keys;
    }
  }

  /**
   * The last step: a new `Root` node, created with no children, whose children are then set to
   * `children`.
   */
  method AttachRoot(heap: TreeHeap, children: seq<NodeId>) returns (root: NodeId)
    requires heap.Valid()
    modifies heap
    ensures heap.Valid() && root == old(heap.next) && heap.next == root + 1
    ensures heap.nodes == old(heap.nodes)[root := RootNode(children)]
  {
    root := heap.Alloc(RootNode([]));
    heap.SetChildren(root, children);
  }

  /** `Array.from( mapFilter( ( _, tree ) => !tree.menu.parentMenuView, menusTreeMap ).values() )`. */
  method TopLevelNodes(menus: seq<MenuView>, treeMap: OrderedMap<ViewId, NodeId>, ghost base: NodeId)
    returns (children: seq<NodeId>)
    requires ViewMap(treeMap, menus, base) && DistinctViews(menus)
    ensures children == TopLevel(menus, base)
  {
    var top := MapFilter.MapFilter(TopLevelCallback(menus), treeMap);
    TopLevelChildren(menus, treeMap, base, top);
    children := top.ValuesInOrder();
  }

  /** One turn of the second pass: the menu at index `i` is filled and the ones before stay filled. */
  method FillNextMenu(heap: TreeHeap, menus: seq<MenuView>, searchOf: SearchFn, treeMap: OrderedMap<ViewId, NodeId>, ghost base: NodeId, i: nat)
    requires heap.Valid() && ViewMap(treeMap, menus, base)
    requires i < |menus| && base + |menus| <= heap.next
    requires forall k :: 0 <= k < i ==> MenuBuilt(heap.nodes, menus, searchOf, base, k)
    requires forall k :: i <= k < |menus| ==> MenuNodeAt(heap.nodes, menus, searchOf, base, k)
    modifies heap
    ensures heap.Valid() && old(heap.next) <= heap.next
    ensures forall x :: x in old(heap.nodes) && x != base + i ==> x in heap.nodes && heap.nodes[x] == old(heap.nodes)[x]
    ensures forall k :: 0 <= k < i + 1 ==> MenuBuilt(heap.nodes, menus, searchOf, base, k)
    ensures forall k :: i + 1 <= k < |menus| ==> MenuNodeAt(heap.nodes, menus, searchOf, base, k)
    ensures AllItemIds(heap.nodes, menus, searchOf, base, i + 1) ==
      AllItemIds(old(heap.nodes), menus, searchOf, base, i) + IdRange(old(heap.next), heap.next)
  {
    ghost var before := heap.nodes;
    assert MenuNodeAt(before, menus, searchOf, base, i);
    FillMenu(heap, menus, searchOf, treeMap, base, i);
    assert AllItemIds(heap.nodes, menus, searchOf, base, i + 1) ==
      AllItemIds(before, menus, searchOf, base, i) + IdRange(old(heap.next), heap.next) by {
      NextMenuItems(before, heap.nodes, menus, searchOf, base, i, old(heap.next), heap.next);
    }
    OtherMenusKept(before, heap.nodes, menus, searchOf, base, i);
  }

  /** Filling the menu at index `i` leaves the menus before it filled and the ones after it unfilled. */
  lemma OtherMenusKept(before: map<NodeId, Node>, after: map<NodeId, Node>, menus: seq<MenuView>, searchOf: SearchFn, base: NodeId, i: nat)
    requires i < |menus|
    requires forall k :: 0 <= k < i ==> MenuBuilt(before, menus, searchOf, base, k)
    requires forall k :: i <= k < |menus| ==> MenuNodeAt(before, menus, searchOf, base, k)
    requires forall x :: x in before && x != base + i ==> x in after && after[x] == before[x]
    ensures forall k :: 0 <= k < i ==> MenuBuilt(after, menus, searchOf, base, k)
    ensures forall k :: i + 1 <= k < |menus| ==> MenuNodeAt(after, menus, searchOf, base, k)
  {
    assert MenuNodeAt(before, menus, searchOf, base, i);
    forall k | 0 <= k < i
      ensures MenuBuilt(after, menus, searchOf, base, k)
    {
      MenuBuiltFrame(before, after, base + i, menus, searchOf, base, k);
    }
    forall k | i + 1 <= k < |menus|
      ensures MenuNodeAt(after, menus, searchOf, base, k)
    {
      assert MenuNodeAt(before, menus, searchOf, base, k);
    }
  }

  /** Filling the menu at index `i` appends its item children to those of the menus before it. */
  lemma NextMenuItems(before: map<NodeId, Node>, after: map<NodeId, Node>, menus: seq<MenuView>, searchOf: SearchFn,
                      base: NodeId, i: nat, lo: NodeId, hi: NodeId)
    requires i < |menus| && lo <= hi
    requires forall k :: 0 <= k < i ==> MenuBuilt(before, menus, searchOf, base, k)
    requires forall x :: x in before && x != base + i ==> x in after && after[x] == before[x]
    requires MenuItemIds(after, menus, searchOf, base, i) == IdRange(lo, hi)
    ensures AllItemIds(after, menus, searchOf, base, i + 1) == AllItemIds(before, menus, searchOf, base, i) + IdRange(lo, hi)
  {
    forall x | base <= x < base + i
      ensures x in before && x in after && after[x] == before[x]
    {
      assert MenuBuilt(before, menus, searchOf, base, x - base);
    }
    AllItemIdsFrame(before, after, menus, searchOf, base, i);
  }

  /**
   * The body both builders share: the `reduce` that makes the menu nodes, the loops that fill
   * their children, and the root holding the parentless menus. `searchOf` is the metadata a
   * label gets.
   */
  method BuildMenuTree(heap: TreeHeap, menus: seq<MenuView>, searchOf: SearchFn) returns (root: NodeId)
    requires heap.Valid() && DistinctViews(menus)
    modifies heap
    ensures heap.Valid()
    ensures Built(old(heap.nodes), old(heap.next), heap.nodes, menus, searchOf, root)
  {
    ghost var base := heap.next;
    ghost var before := heap.nodes;
    assert forall x :: x in before ==> x < base;
    var menusTreeMap := AddMenuNodes(heap, menus, searchOf);
    ghost var added := heap.nodes;
    ghost var mid := heap.next;
    FillMenus(heap, menus, searchOf, menusTreeMap, base);
    ghost var filled := heap.nodes;
    ghost var items := AllItemIds(filled, menus, searchOf, base, |menus|);
    ghost var fillEnd := heap.next;
    assert items == IdRange(mid, fillEnd);
    assert forall x :: x in before ==> x in filled && filled[x] == before[x] by {
      assert forall x :: x in before ==> x in added && added[x] == before[x] && !(base <= x < base + |menus|);
    }
    var topLevel := TopLevelNodes(menus, menusTreeMap, base);
    root := AttachRoot(heap, topLevel);
    BuiltFromSteps(before, base, filled, heap.nodes, menus, searchOf, mid, root);
  }

  /** The second pass: `for ( const menu of menus )`, filling each menu's node in turn. */
  method FillMenus(heap: TreeHeap, menus: seq<MenuView>, searchOf: SearchFn, treeMap: OrderedMap<ViewId, NodeId>, ghost base: NodeId)
    requires heap.Valid() && ViewMap(treeMap, menus, base) && base + |menus| <= heap.next
    requires forall k :: 0 <= k < |menus| ==> MenuNodeAt(heap.nodes, menus, searchOf, base, k)
    modifies heap
    ensures heap.Valid() && old(heap.next) <= heap.next
    ensures forall x :: x in old(heap.nodes) && !(base <= x < base + |menus|) ==> x in heap.nodes && heap.nodes[x] == old(heap.nodes)[x]
    ensures forall k :: 0 <= k < |menus| ==> MenuBuilt(heap.nodes, menus, searchOf, base, k)
    ensures AllItemIds(heap.nodes, menus, searchOf, base, |menus|) == IdRange(old(heap.next), heap.next)
  {
    var i := 0;
    while i < |menus|
      invariant 0 <= i <= |menus|
      invariant heap.Valid() && old(heap.next) <= heap.next
      invariant forall x :: x in old(heap.nodes) && !(base <= x < base + i) ==> x in heap.nodes && heap.nodes[x] == old(heap.nodes)[x]
      invariant forall k :: 0 <= k < i ==> MenuBuilt(heap.nodes, menus, searchOf, base, k)
      invariant forall k :: i <= k < |menus| ==> MenuNodeAt(heap.nodes, menus, searchOf, base, k)
      invariant AllItemIds(heap.nodes, menus, searchOf, base, i) == IdRange(old(heap.next), heap.next)
    {
      ghost var before := heap.nodes;
      ghost var mid := heap.next;
      FillNextMenu(heap, menus, searchOf, treeMap, base, i);
      IdRangeAppend(old(heap.next), mid, heap.next);
      assert forall x :: x in old(heap.nodes) && !(base <= x < base + i + 1) ==>
        x in before && before[x] == old(heap.nodes)[x] && x != base + i;
      i := i + 1;
    }
  }

  /**
   * The three passes together: every old node kept and every menu filled by the second pass,
   * then the root added at a new identity.
   */
  lemma BuiltFromSteps(before: map<NodeId, Node>, base: NodeId, filled: map<NodeId, Node>, after: map<NodeId, Node>,
                       menus: seq<MenuView>, searchOf: SearchFn, mid: NodeId, root: NodeId)
    requires forall x :: x in before ==> x < base
    requires forall x :: x in before ==> x in filled && filled[x] == before[x]
    requires forall k :: 0 <= k < |menus| ==> MenuBuilt(filled, menus, searchOf, base, k)
    requires mid == base + |menus| <= root && root !in filled
    requires AllItemIds(filled, menus, searchOf, base, |menus|) == IdRange(mid, root)
    requires after == filled[root := RootNode(TopLevel(menus, base))]
    ensures Built(before, base, after, menus, searchOf, root)
  {
    assert forall k :: 0 <= k < |menus| ==> MenuBuilt(after, menus, searchOf, base, k) by {
      forall k | 0 <= k < |menus|
        ensures MenuBuilt(after, menus, searchOf, base, k)
      {
        MenuBuiltFrame(filled, after, root, menus, searchOf, base, k);
      }
    }
    assert AllItemIds(after, menus, searchOf, base, |menus|) == IdRange(base + |menus|, root) by {
      RootKeepsItems(filled, after, menus, searchOf, base, mid, root);
    }
  }

  /** Adding the root changes no menu node, so the menus' item children stay the new nodes below the root. */
  lemma RootKeepsItems(filled: map<NodeId, Node>, after: map<NodeId, Node>, menus: seq<MenuView>, searchOf: SearchFn,
                       base: NodeId, mid: NodeId, root: NodeId)
    requires forall k :: 0 <= k < |menus| ==> MenuBuilt(filled, menus, searchOf, base, k)
    requires mid == base + |menus| <= root && root !in filled
    requires AllItemIds(filled, menus, searchOf, base, |menus|) == IdRange(mid, root)
    requires forall x :: x in filled ==> x in after && after[x] == filled[x]
    ensures AllItemIds(after, menus, searchOf, base, |menus|) == IdRange(base + |menus|, root)
  {
    forall x | base <= x < base + |menus|
      ensures x in filled
    {
      assert MenuBuilt(filled, menus, searchOf, base, x - base);
    }
    AllItemIdsFrame(filled, after, menus, searchOf, base, |menus|);
  }

  /** An empty menu list gives a root without children and adds nothing else. */
  lemma EmptyListGivesBareRoot(before: map<NodeId, Node>, base: NodeId, after: map<NodeId, Node>, searchOf: SearchFn, root: NodeId)
    requires Built(before, base, after, [], searchOf, root)
    ensures root !in before && after[root] == RootNode([])
  {
  }

  /**
   * `createTreeFromFlattenDropdownMenusList( menus )`: the tree of `menus`, with the metadata of
   * every label made by `createTextSearchMetadata`.
   */
  method CreateTreeFromFlattenDropdownMenusList(heap: TreeHeap, menus: seq<MenuView>) returns (root: NodeId)
    requires heap.Valid() && DistinctViews(menus)
    modifies heap
    ensures heap.Valid()
    ensures Built(old(heap.nodes), old(heap.next), heap.nodes, menus, CreateTextSearchMetadata, root)
  {
    root := BuildMenuTree(heap, menus, CreateTextSearchMetadata);
  }

  /** `createTreeFromFlattenMenuViews( menus )`, whose body is the same as the builder above. */
  method CreateTreeFromFlattenMenuViews(heap: TreeHeap, menus: seq<MenuView>) returns (root: NodeId)
    requires heap.Valid() && DistinctViews(menus)
    modifies heap
    ensures heap.Valid()
    ensures Built(old(heap.nodes), old(heap.next), heap.nodes, menus, CreateTextSearchMetadata, root)
  {
    root := BuildMenuTree(heap, menus, CreateTextSearchMetadata);
  }
}
