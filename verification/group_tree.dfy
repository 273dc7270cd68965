/**
 * `groupDropdownTreeByFirstFoundParent`: the items of a filtered tree grouped under the ancestor
 * that explains why they were found. The flat list of items is folded, in order, into a `Map`
 * from the group's head node to the items under it.
 *
 * The head is chosen by `HeadRule`. `FirstRootOrFound` is the code as written: the first
 * ancestor that is the root or is `found`. Every ancestor list of a flattened tree starts with
 * the root, so that is always the root. `FirstFoundMenu` is the rule the function's name and its
 * callers expect: the first `found` menu among the ancestors, or else the menu that holds the item.
 */
module GroupTree {
  import opened MenuTree
  import opened SearchMetadata
  import opened FlattenTree
  import opened MapFilter

  datatype HeadRule = FirstRootOrFound | FirstFoundMenu

  /** Whether the ancestor `p` stops the search for the head under `rule`. */
  predicate Qualifies(rule: HeadRule, p: Tree) {
    match rule
    case FirstRootOrFound => p.Root? || p.found
    case FirstFoundMenu => p.Menu? && p.found
  }

  /** `parents.find( ... )`: the index of the first qualifying ancestor, or `|ps|` when there is none. */
  function FirstQualifying(rule: HeadRule, ps: seq<Tree>): (i: nat)
    ensures i <= |ps|
    ensures i < |ps| ==> Qualifies(rule, ps[i])
    ensures forall j :: 0 <= j < i ==> !Qualifies(rule, ps[j])
    decreases ps
  {
    if ps == [] then 0
    else if Qualifies(rule, ps[0]) then 0
    else 1 + FirstQualifying(rule, ps[1..])
  }

  /**
   * Whether `rule` gives the ancestors `ps` a head. The code asserts with `!` that the search
   * finds one; under `FirstFoundMenu` the holder of the item is the head when no menu is found.
   */
  predicate HasHead(rule: HeadRule, ps: seq<Tree>) {
    ps != [] && (rule == FirstFoundMenu || FirstQualifying(rule, ps) < |ps|)
  }

  /**
   * The head of the group of an item with ancestors `ps`. Under `FirstFoundMenu` it is the first
   * found menu, or the innermost ancestor when no ancestor menu is found.
   */
  function GroupHead(rule: HeadRule, ps: seq<Tree>): (r: Tree)
    requires HasHead(rule, ps)
    ensures r in ps
    ensures rule == FirstRootOrFound ==> r.Root? || r.found
    ensures rule == FirstFoundMenu ==>
      (r.Menu? && r.found && forall j :: 0 <= j < |ps| && ps[j] != r && ps[j].Menu? && ps[j].found ==> exists k :: 0 <= k < j && ps[k] == r) ||
      (r == Last(ps) && forall j :: 0 <= j < |ps| ==> !(ps[j].Menu? && ps[j].found))
  {
    var i := FirstQualifying(rule, ps);
    if i < |ps| then ps[i] else Last(ps)
  }

  /** The nodes of the entries of `flat` whose group head is `k`, in order. */
  function NodesUnder(rule: HeadRule, flat: seq<FlatEntry>, k: Tree): seq<Tree>
    requires forall e :: e in flat ==> HasHead(rule, e.parents)
  {
    if flat == [] then []
    else
      var e := flat[|flat| - 1];
      NodesUnder(rule, flat[..|flat| - 1], k) + (if GroupHead(rule, e.parents) == k then [e.node] else [])
  }

  /**
   * The fold of `flat` into a map: a head seen for the first time gets `[ node ]`, a head already
   * in the map gets `node` appended to its list.
   */
  function Group(rule: HeadRule, flat: seq<FlatEntry>): (m: OrderedMap<Tree, seq<Tree>>)
    requires forall e :: e in flat ==> HasHead(rule, e.parents)
    ensures m.Valid()
  {
    if flat == [] then EmptyMap()
    else
      var acc := Group(rule, flat[..|flat| - 1]);
      var e := flat[|flat| - 1];
      var k := GroupHead(rule, e.parents);
      acc.Set(k, (if k in acc.values then acc.values[k] else []) + [e.node])
  }

  /**
   * The groups are exactly the heads of the entries, and each head's list is the nodes of the
   * entries it heads, in flat-list order.
   */
  lemma {:induction false} GroupIsPartition(rule: HeadRule, flat: seq<FlatEntry>)
    requires forall e :: e in flat ==> HasHead(rule, e.parents)
    ensures forall k :: k in Group(rule, flat).values <==> exists e :: e in flat && GroupHead(rule, e.parents) == k
    ensures forall k :: k in Group(rule, flat).values ==> Group(rule, flat).values[k] == NodesUnder(rule, flat, k)
    decreases |flat|
  {
    if flat != [] {
      var init := flat[..|flat| - 1];
      var e := flat[|flat| - 1];
      GroupIsPartition(rule, init);
      assert forall x :: x in flat <==> x in init || x == e;
      forall k | k !in Group(rule, init).values
        ensures NodesUnder(rule, init, k) == []
      {
        NothingUnderAbsentHead(rule, init, k);
      }
    }
  }

  lemma {:induction false} NothingUnderAbsentHead(rule: HeadRule, flat: seq<FlatEntry>, k: Tree)
    requires forall e :: e in flat ==> HasHead(rule, e.parents)
    requires forall e :: e in flat ==> GroupHead(rule, e.parents) != k
    ensures NodesUnder(rule, flat, k) == []
    decreases |flat|
  {
    if flat != [] {
      NothingUnderAbsentHead(rule, flat[..|flat| - 1], k);
    }
  }

  /** Every ancestor list of a menu tree's flat list starts with the root, so it has a head. */
  lemma FlatEntriesHaveHeads(rule: HeadRule, tree: Tree)
    requires tree.Root?
    ensures forall e :: e in FlatItems(tree, [tree], true) ==> HasHead(rule, e.parents)
  {
    FlattenShape(tree);
    forall e | e in FlatItems(tree, [tree], true)
      ensures HasHead(rule, e.parents)
    {
      assert Qualifies(FirstRootOrFound, e.parents[0]);
    }
  }

  /**
   * `groupDropdownTreeByFirstFoundParent( tree )`: flattens the tree and folds the entries into
   * the map. `tree` is the root of a menu tree, so every ancestor list starts with it.
   */
  method GroupDropdownTreeByFirstFoundParent(rule: HeadRule, tree: Tree) returns (groups: OrderedMap<Tree, seq<Tree>>)
    requires tree.Root?
    ensures var flat := FlatItems(tree, [tree], true);
      (forall e :: e in flat ==> HasHead(rule, e.parents)) && groups == Group(rule, flat)
  {
    var flat := FlattenDropdownMenuTree(tree);
    FlatEntriesHaveHeads(rule, tree);
    groups := EmptyMap();
    var i := 0;
    while i < |flat|
      invariant 0 <= i <= |flat|
      invariant groups == Group(rule, flat[..i])
    {
      groups := GroupStep(rule, flat, i, groups);
      i := i + 1;
    }
    assert flat[..|flat|] == flat;
  }

  /** One step of the fold: the entry at `i` is added to the group of its head. */
  method GroupStep(rule: HeadRule, flat: seq<FlatEntry>, i: nat, groups: OrderedMap<Tree, seq<Tree>>)
    returns (groups': OrderedMap<Tree, seq<Tree>>)
    requires i < |flat| && forall e :: e in flat ==> HasHead(rule, e.parents)
    requires groups == Group(rule, flat[..i])
    ensures groups' == Group(rule, flat[..i + 1])
  {
    var e := flat[i];
    var k := GroupHead(rule, e.parents);
    if k !in groups.values {
      assert [] + [e.node] == [e.node];
      groups' := groups.Set(k, [e.node]);
    } else {
      groups' := groups.Set(k, groups.values[k] + [e.node]);
    }
    assert groups' == groups.Set(k, (if k in groups.values then groups.values[k] else []) + [e.node]);
    assert flat[..i + 1][..i] == flat[..i] && flat[..i + 1][i] == e;
    assert forall x :: x in flat[..i + 1] ==> x in flat;
  }

  /** As written, the head of every item of a menu tree is the root. */
  lemma AsWrittenHeadIsRoot(ps: seq<Tree>)
    requires ps != [] && ps[0].Root?
    ensures HasHead(FirstRootOrFound, ps) && GroupHead(FirstRootOrFound, ps) == ps[0]
  {
  }

  /** As written, a menu tree's items all land in one group, under the root. */
  lemma {:induction false} AsWrittenGroupsUnderRoot(tree: Tree)
    requires tree.Root?
    ensures var flat := FlatItems(tree, [tree], true);
      (forall e :: e in flat ==> HasHead(FirstRootOrFound, e.parents)) &&
      Group(FirstRootOrFound, flat).keys == (if flat == [] then [] else [tree])
  {
    var flat := FlatItems(tree, [tree], true);
    FlattenShape(tree);
    OneHeadOneGroup(flat, tree);
  }

  lemma {:induction false} OneHeadOneGroup(flat: seq<FlatEntry>, r: Tree)
    requires forall e :: e in flat ==> e.parents != [] && e.parents[0] == r && r.Root?
    ensures forall e :: e in flat ==> HasHead(FirstRootOrFound, e.parents)
    ensures Group(FirstRootOrFound, flat).keys == (if flat == [] then [] else [r])
    decreases |flat|
  {
    if flat != [] {
      var init := flat[..|flat| - 1];
      assert forall e :: e in init ==> e in flat;
      OneHeadOneGroup(init, r);
      AsWrittenHeadIsRoot(flat[|flat| - 1].parents);
    }
  }

  /** A root holding a menu that did not match, which holds an item that did. */
  const BuzItem := Item(2, 20, TreeSearchMetadata("Buz", "buz"), true)
  const MenuOne := Menu(1, 10, TreeSearchMetadata("Menu 1", "menu 1"), false, [BuzItem])
  const ExampleTree := Root(0, [MenuOne])

  lemma ExampleFlat()
    ensures FlatItems(ExampleTree, [ExampleTree], true) == [FlatEntry([ExampleTree, MenuOne], BuzItem)]
  {
    assert FlatKids([BuzItem], [ExampleTree, MenuOne]) == [FlatEntry([ExampleTree, MenuOne], BuzItem)] by {
      assert [BuzItem][..0] == [];
    }
    assert FlatItems(MenuOne, [ExampleTree], false) == FlatKids([BuzItem], [ExampleTree, MenuOne]) by {
      assert [ExampleTree] + [MenuOne] == [ExampleTree, MenuOne];
    }
    assert FlatKids([MenuOne], [ExampleTree]) == FlatItems(MenuOne, [ExampleTree], false) by {
      assert [MenuOne][..0] == [];
    }
  }

  /**
   * On the example, as written the item is grouped under the root; the intended grouping puts it
   * under the menu that holds it.
   */
  lemma GroupingCounterexample()
    ensures var flat := FlatItems(ExampleTree, [ExampleTree], true);
      (forall e :: e in flat ==> HasHead(FirstRootOrFound, e.parents) && HasHead(FirstFoundMenu, e.parents)) &&
      Group(FirstRootOrFound, flat).keys == [ExampleTree] &&
      Group(FirstFoundMenu, flat).keys == [MenuOne] && Group(FirstFoundMenu, flat).values[MenuOne] == [BuzItem]
  {
    ExampleFlat();
    var flat := FlatItems(ExampleTree, [ExampleTree], true);
    assert flat[..0] == [];
    assert FirstQualifying(FirstFoundMenu, [ExampleTree, MenuOne]) == 2 by {
      assert [ExampleTree, MenuOne][1..] == [MenuOne] && [MenuOne][1..] == [];
    }
  }
}
