/**
 * `filterDropdownMenuTree` and `filterDropdownMenuTreeByRegExp`: the search itself. The tree is
 * copied, its items counted, and the copy walked with hooks that
 *  - on entering a menu whose metadata matches, mark it `found` and keep it whole;
 *  - on leaving a menu left without children, remove it from its parent;
 *  - on an item, remove it from its parent unless it matches, else mark it `found`.
 * The matched items of the copy are counted again.
 *
 * The filter predicate looks at a node's search metadata, the only part of the node the
 * regular-expression filter reads.
 */
module FilterTree {
  import opened Wrappers
  import opened SearchMetadata
  import opened MenuTree
  import opened TreeWalker
  import opened TreeClone
  import opened FlattenTree
  import opened ItemCounters

  /** The hooks of the filter, for the predicate `pred`. */
  function FilterWalkers(pred: TreeSearchMetadata -> bool): Walkers {
    Walkers(NoHandler, Obj(MarkFoundAndSkip(pred), PruneIfEmpty), Fn(KeepIfMatch(pred)))
  }

  /**
   * The filtered version of the subtree `t`, or `None` when the filter removes it: an item stays,
   * marked `found`, when it matches; a menu that matches stays whole, marked `found`, unless it
   * has no children; any other menu keeps its filtered children and stays only if some are left;
   * the root always stays, with its filtered children.
   *
   * Every node left is there for a reason (`Justified`), no menu is left empty, and no items
   * appear that were not there.
   */
  function FilterNode(pred: TreeSearchMetadata -> bool, t: Tree): (r: Option<Tree>)
    ensures t.Root? ==> r.Some?
    ensures r.Some? ==> r.value.id == t.id && r.value.Kind() == t.Kind()
    ensures r.Some? ==> CountItems(r.value) <= CountItems(t)
    ensures r.Some? ==> Justified(pred, r.value)
    ensures r.Some? && r.value.Menu? ==> r.value.kids != []
    ensures t.Item? ==> (r.Some? <==> pred(t.search))
    ensures !t.Root? && pred(t.search) && (t.Item? || t.kids != []) ==> r == Some(t.WithFound())
    decreases t
  {
    match t
    case Item(_, _, s, _) =>
      if pred(s) then Some(t.WithFound()) else None
    case Menu(_, _, s, _, ks) =>
      if pred(s) then
        if ks == [] then None else Some(t.WithFound())
      else
        var left := FilterKids(pred, ks);
        if left == [] then None else Some(t.WithKids(left))
    case Root(_, ks) =>
      Some(t.WithKids(FilterKids(pred, ks)))
  }

  /** The filtered versions of the subtrees `ks` that stay, in order. */
  function FilterKids(pred: TreeSearchMetadata -> bool, ks: seq<Tree>): (r: seq<Tree>)
    ensures |r| <= |ks|
    ensures CountAll(r) <= CountAll(ks)
    ensures forall i :: 0 <= i < |r| ==> Justified(pred, r[i])
    ensures forall i :: 0 <= i < |r| ==> r[i].Menu? ==> r[i].kids != []
    decreases ks
  {
    if ks == [] then []
    else
      var init := FilterKids(pred, ks[..|ks| - 1]);
      match FilterNode(pred, ks[|ks| - 1])
      case None => init
      case Some(x) =>
        var r := init + [x];
        assert r[..|r| - 1] == init;
        r
  }

  /**
   * Why a node of a filtered tree is there: an item is `found` and matches; a menu is `found` and
   * matches, or everything under it is there for a reason; everything under the root is.
   */
  ghost predicate Justified(pred: TreeSearchMetadata -> bool, t: Tree)
    decreases t
  {
    match t
    case Item(_, _, s, f) => f && pred(s)
    case Menu(_, _, s, f, ks) => (f && pred(s)) || forall i :: 0 <= i < |ks| ==> Justified(pred, ks[i])
    case Root(_, ks) => forall i :: 0 <= i < |ks| ==> Justified(pred, ks[i])
  }

  /** The number of items of a subtree that may have been removed. */
  function CountKept(o: Option<Tree>): nat {
    if o.None? then 0 else CountItems(o.value)
  }

  /** The filter walk does what `FilterNode` says: a subtree it removes is one `FilterNode` drops. */
  lemma {:induction false} FilterVisitAgrees(pred: TreeSearchMetadata -> bool, t: Tree, parents: seq<Tree>, isStart: bool)
    ensures var v := VisitSpec(FilterWalkers(pred), FnAsEnter, t, parents, isStart);
      FilterNode(pred, t) == if v.detached then None else Some(v.tree)
    decreases t
  {
    var w := FilterWalkers(pred);
    var v := VisitSpec(w, FnAsEnter, t, parents, isStart);
    var h := HandlerFor(w, t.Kind());
    match t
    case Item(_, _, _, _) =>
      assert EnterHook(h, FnAsEnter) == KeepIfMatch(pred) && LeaveHook(h, FnAsEnter) == Nop;
    case Menu(_, _, s, _, ks) =>
      assert EnterHook(h, FnAsEnter) == MarkFoundAndSkip(pred) && LeaveHook(h, FnAsEnter) == PruneIfEmpty;
      if !pred(s) {
        var kids := VisitKids(w, FnAsEnter, ks, Below(parents, t, isStart));
        assert kids.0 == FilterKids(pred, ks) by {
          FilterKidsAgree(pred, ks, Below(parents, t, isStart));
        }
        assert v.tree == t.WithKids(kids.0) && v.detached == (kids.0 == []);
      }
    case Root(_, ks) =>
      assert EnterHook(h, FnAsEnter) == Nop && LeaveHook(h, FnAsEnter) == Nop;
      var kids := VisitKids(w, FnAsEnter, ks, Below(parents, t, isStart));
      assert kids.0 == FilterKids(pred, ks) by {
        FilterKidsAgree(pred, ks, Below(parents, t, isStart));
      }
      assert v.tree == t.WithKids(kids.0) && !v.detached;
  }

  lemma {:induction false} FilterKidsAgree(pred: TreeSearchMetadata -> bool, ks: seq<Tree>, below: seq<Tree>)
    ensures VisitKids(FilterWalkers(pred), FnAsEnter, ks, below).0 == FilterKids(pred, ks)
    decreases ks
  {
    if ks != [] {
      var init := ks[..|ks| - 1];
      var x := ks[|ks| - 1];
      var v := VisitSpec(FilterWalkers(pred), FnAsEnter, x, below, false);
      assert FilterNode(pred, x) == if v.detached then None else Some(v.tree) by {
        FilterVisitAgrees(pred, x, below, false);
      }
      assert VisitKids(FilterWalkers(pred), FnAsEnter, init, below).0 == FilterKids(pred, init) by {
        FilterKidsAgree(pred, init, below);
      }
    }
  }

  /** The positions in `ks` of the subtrees the filter keeps, in increasing order. */
  function KeptPositions(pred: TreeSearchMetadata -> bool, ks: seq<Tree>): (r: seq<nat>)
    ensures forall i :: 0 <= i < |r| ==> r[i] < |ks|
    ensures forall i, j :: 0 <= i < j < |r| ==> r[i] < r[j]
    decreases ks
  {
    if ks == [] then []
    else
      var init := KeptPositions(pred, ks[..|ks| - 1]);
      if FilterNode(pred, ks[|ks| - 1]).None? then init else init + [|ks| - 1]
  }

  /**
   * The filter only removes siblings: the `i`-th child it keeps is the child at the `i`-th kept
   * position, so the children left keep their relative order.
   */
  lemma {:induction false} FilterKeepsOrder(pred: TreeSearchMetadata -> bool, ks: seq<Tree>)
    ensures |KeptPositions(pred, ks)| == |FilterKids(pred, ks)|
    ensures forall i :: 0 <= i < |FilterKids(pred, ks)| ==> FilterKids(pred, ks)[i].id == ks[KeptPositions(pred, ks)[i]].id
    decreases ks
  {
    if ks != [] {
      var init := ks[..|ks| - 1];
      var p := KeptPositions(pred, init);
      var f := FilterKids(pred, init);
      assert |p| == |f| && forall i :: 0 <= i < |p| ==> f[i].id == ks[p[i]].id by {
        FilterKeepsOrder(pred, init);
        assert forall i :: 0 <= i < |p| ==> ks[p[i]] == init[p[i]];
      }
      match FilterNode(pred, ks[|ks| - 1])
      case None =>
      case Some(y) =>
        SnocKeepsOrder(f, p, ks, y);
    }
  }

  lemma SnocKeepsOrder(f: seq<Tree>, p: seq<nat>, ks: seq<Tree>, y: Tree)
    requires |p| == |f| && ks != [] && y.id == ks[|ks| - 1].id
    requires forall i :: 0 <= i < |p| ==> p[i] < |ks| && f[i].id == ks[p[i]].id
    ensures forall i :: 0 <= i < |f + [y]| ==> (f + [y])[i].id == ks[(p + [|ks| - 1])[i]].id
  {
  }

  /** A child stays exactly when the filter keeps it. */
  lemma {:induction false} KeptPositionsExact(pred: TreeSearchMetadata -> bool, ks: seq<Tree>)
    ensures forall i :: 0 <= i < |ks| ==> (i in KeptPositions(pred, ks) <==> FilterNode(pred, ks[i]).Some?)
    decreases ks
  {
    if ks != [] {
      var init := ks[..|ks| - 1];
      KeptPositionsExact(pred, init);
      KeptPositionsSnoc(pred, ks);
      assert forall i :: 0 <= i < |init| ==> ks[i] == init[i];
    }
  }

  /** Every child that matches is kept, marked `found`: an item, or a menu with children. */
  lemma {:induction false} FilterKidsKeepsMatches(pred: TreeSearchMetadata -> bool, ks: seq<Tree>)
    ensures forall i :: 0 <= i < |ks| && !ks[i].Root? && pred(ks[i].search) && (ks[i].Item? || ks[i].kids != []) ==>
      ks[i].WithFound() in FilterKids(pred, ks)
    decreases ks
  {
    if ks != [] {
      var init := ks[..|ks| - 1];
      var fi := FilterKids(pred, init);
      FilterKidsKeepsMatches(pred, init);
      assert fi <= FilterKids(pred, ks);
      forall i | 0 <= i < |ks| && !ks[i].Root? && pred(ks[i].search) && (ks[i].Item? || ks[i].kids != [])
        ensures ks[i].WithFound() in FilterKids(pred, ks)
      {
        if i < |ks| - 1 {
          assert ks[i] == init[i];
        }
      }
    }
  }

  /** Some menu among the ancestors `ps` matches. */
  ghost predicate UnderMatch(pred: TreeSearchMetadata -> bool, ps: seq<Tree>) {
    exists i :: 0 <= i < |ps| && ps[i].Menu? && pred(ps[i].search)
  }

  /**
   * An entry of the flat list the search should report: the item matches, or some menu that
   * holds it does (a matching menu is shown with everything in it).
   */
  ghost predicate Selected(pred: TreeSearchMetadata -> bool, e: FlatEntry) {
    (e.node.Item? && pred(e.node.search)) || UnderMatch(pred, e.parents)
  }

  /** The identities of the selected items of a flat list, in order. */
  ghost function Survivors(pred: TreeSearchMetadata -> bool, flat: seq<FlatEntry>): (r: seq<NodeId>)
    ensures |r| <= |flat|
    decreases |flat|
  {
    if flat == [] then []
    else
      var e := flat[|flat| - 1];
      Survivors(pred, flat[..|flat| - 1]) + if Selected(pred, e) then [e.node.id] else []
  }

  /** The identities of the items of a flat list, in order. */
  function FlatIds(flat: seq<FlatEntry>): (r: seq<NodeId>)
    ensures |r| == |flat|
    ensures forall i :: 0 <= i < |flat| ==> r[i] == flat[i].node.id
  {
    seq(|flat|, i requires 0 <= i < |flat| => flat[i].node.id)
  }

  lemma FlatIdsAppend(a: seq<FlatEntry>, b: seq<FlatEntry>)
    ensures FlatIds(a + b) == FlatIds(a) + FlatIds(b)
  {
  }

  lemma {:induction false} SurvivorsAppend(pred: TreeSearchMetadata -> bool, a: seq<FlatEntry>, b: seq<FlatEntry>)
    ensures Survivors(pred, a + b) == Survivors(pred, a) + Survivors(pred, b)
    decreases |b|
  {
    if b == [] {
      assert a + b == a;
    } else {
      assert (a + b)[..|a + b| - 1] == a + b[..|b| - 1];
      SurvivorsAppend(pred, a, b[..|b| - 1]);
    }
  }

  /** When every entry is selected, every item survives. */
  lemma {:induction false} AllSelectedSurvive(pred: TreeSearchMetadata -> bool, flat: seq<FlatEntry>)
    requires forall i :: 0 <= i < |flat| ==> Selected(pred, flat[i])
    ensures Survivors(pred, flat) == FlatIds(flat)
    decreases |flat|
  {
    if flat != [] {
      AllSelectedSurvive(pred, flat[..|flat| - 1]);
    }
  }

  lemma UnderMatchSnoc(pred: TreeSearchMetadata -> bool, ps: seq<Tree>, t: Tree)
    ensures UnderMatch(pred, ps + [t]) <==> UnderMatch(pred, ps) || (t.Menu? && pred(t.search))
  {
    if UnderMatch(pred, ps) {
      var i :| 0 <= i < |ps| && ps[i].Menu? && pred(ps[i].search);
      assert (ps + [t])[i] == ps[i];
    }
    if t.Menu? && pred(t.search) {
      assert (ps + [t])[|ps|] == t;
    }
  }

  /** Every entry below the ancestors `below` has them as the start of its own. */
  lemma {:induction false} FlatKidsParents(ks: seq<Tree>, below: seq<Tree>)
    ensures forall e :: e in FlatKids(ks, below) ==> below <= e.parents
    decreases ks
  {
    if ks != [] {
      FlatKidsParents(ks[..|ks| - 1], below);
      var x := ks[|ks| - 1];
      if !x.Item? {
        FlatKidsParents(x.kids, below + [x]);
      }
    }
  }

  /** The items of a subtree do not depend on the ancestors it is flattened with. */
  lemma {:induction false} FlatIdsIgnoreParents(ks: seq<Tree>, p: seq<Tree>, q: seq<Tree>)
    ensures FlatIds(FlatKids(ks, p)) == FlatIds(FlatKids(ks, q))
    decreases ks
  {
    if ks != [] {
      var x := ks[|ks| - 1];
      FlatIdsIgnoreParents(ks[..|ks| - 1], p, q);
      FlatIdsAppend(FlatKids(ks[..|ks| - 1], p), FlatItems(x, p, false));
      FlatIdsAppend(FlatKids(ks[..|ks| - 1], q), FlatItems(x, q, false));
      if !x.Item? {
        FlatIdsIgnoreParents(x.kids, p + [x], q + [x]);
      }
    }
  }

  /** Below a matching menu, every item is selected. */
  lemma MatchedMenuSelectsAll(pred: TreeSearchMetadata -> bool, ks: seq<Tree>, below: seq<Tree>)
    requires UnderMatch(pred, below)
    ensures Survivors(pred, FlatKids(ks, below)) == FlatIds(FlatKids(ks, below))
  {
    var flat := FlatKids(ks, below);
    FlatKidsParents(ks, below);
    forall i | 0 <= i < |flat|
      ensures Selected(pred, flat[i])
    {
      assert flat[i] in flat;
      var j :| 0 <= j < |below| && below[j].Menu? && pred(below[j].search);
      assert flat[i].parents[j] == below[j];
    }
    AllSelectedSurvive(pred, flat);
  }

  /**
   * Filtering a subtree outside every matching menu keeps exactly the selected items, in order:
   * an item that matches, and every item of a menu that matches.
   */
  lemma {:induction false} FilterNodeSurvivors(pred: TreeSearchMetadata -> bool, t: Tree, below: seq<Tree>)
    requires !UnderMatch(pred, below)
    ensures Survivors(pred, FlatItems(t, below, false)) ==
      if FilterNode(pred, t).None? then [] else FlatIds(FlatItems(FilterNode(pred, t).value, below, false))
    decreases t
  {
    var b := below + [t];
    match t
    case Item(_, _, _, _) =>
      assert FlatItems(t, below, false)[..0] == [];
    case Menu(_, _, s, _, ks) =>
      if pred(s) {
        if ks != [] {
          UnderMatchSnoc(pred, below, t);
          MatchedMenuSelectsAll(pred, ks, b);
          FlatIdsIgnoreParents(ks, b, below + [t.WithFound()]);
        }
      } else {
        UnderMatchSnoc(pred, below, t);
        FilterKidsSurvivors(pred, ks, b);
        var left := FilterKids(pred, ks);
        if left != [] {
          FlatIdsIgnoreParents(left, b, below + [t.WithKids(left)]);
        }
      }
    case Root(_, ks) =>
      UnderMatchSnoc(pred, below, t);
      FilterKidsSurvivors(pred, ks, b);
      FlatIdsIgnoreParents(FilterKids(pred, ks), b, below + [t.WithKids(FilterKids(pred, ks))]);
  }

  lemma {:induction false} FilterKidsSurvivors(pred: TreeSearchMetadata -> bool, ks: seq<Tree>, below: seq<Tree>)
    requires !UnderMatch(pred, below)
    ensures Survivors(pred, FlatKids(ks, below)) == FlatIds(FlatKids(FilterKids(pred, ks), below))
    decreases ks
  {
    if ks != [] {
      var init := ks[..|ks| - 1];
      var x := ks[|ks| - 1];
      var fi := FilterKids(pred, init);
      FilterKidsSurvivors(pred, init, below);
      FilterNodeSurvivors(pred, x, below);
      SurvivorsAppend(pred, FlatKids(init, below), FlatItems(x, below, false));
      match FilterNode(pred, x)
      case None =>
      case Some(y) =>
        var r := fi + [y];
        assert r[..|r| - 1] == fi;
        FlatIdsAppend(FlatKids(fi, below), FlatItems(y, below, false));
    }
  }

  /**
   * The filtered tree's flat list holds exactly the selected items of the tree, in walk order:
   * every item that matches or lies in a matching menu is reported, and no other.
   */
  lemma FilterFindsSelected(pred: TreeSearchMetadata -> bool, tree: Tree)
    requires tree.Root?
    ensures var r := FilterNode(pred, tree).value;
      FlatIds(FlatItems(r, [r], true)) == Survivors(pred, FlatItems(tree, [tree], true))
  {
    var r := FilterNode(pred, tree).value;
    FilterKidsSurvivors(pred, tree.kids, [tree]);
    FlatIdsIgnoreParents(r.kids, [tree], [r]);
  }

  /** No node object appears in a filtered subtree that was not in the subtree. */
  lemma {:induction false} FilterNodeIds(pred: TreeSearchMetadata -> bool, t: Tree)
    ensures FilterNode(pred, t).Some? ==> AllIds(FilterNode(pred, t).value) <= AllIds(t)
    decreases t
  {
    if t.Root? || (t.Menu? && !pred(t.search)) {
      FilterKidsIds(pred, t.kids);
    }
  }

  lemma {:induction false} FilterKidsIds(pred: TreeSearchMetadata -> bool, ks: seq<Tree>)
    ensures AllIdsOf(FilterKids(pred, ks)) <= AllIdsOf(ks)
    decreases ks
  {
    if ks != [] {
      var init := ks[..|ks| - 1];
      var fi := FilterKids(pred, init);
      FilterKidsIds(pred, init);
      FilterNodeIds(pred, ks[|ks| - 1]);
      match FilterNode(pred, ks[|ks| - 1])
      case None =>
      case Some(y) =>
        var r := fi + [y];
        assert r[..|r| - 1] == fi;
    }
  }

  /** No item of `t` is marked `found`. */
  ghost predicate ItemsUnfound(t: Tree)
    decreases t
  {
    if t.Item? then !t.found else forall i :: 0 <= i < |t.kids| ==> ItemsUnfound(t.kids[i])
  }

  /**
   * The filter's walk as written: the bare-function `Item` handler is never called, so no item is
   * removed or marked `found`; a subtree is removed only when it holds no item.
   */
  lemma {:induction false} FilterAsWrittenKeepsItems(pred: TreeSearchMetadata -> bool, t: Tree, parents: seq<Tree>, isStart: bool)
    ensures var v := VisitSpec(FilterWalkers(pred), Destructured, t, parents, isStart);
      CountItems(v.tree) == CountItems(t) && (v.detached ==> CountItems(t) == 0) &&
      (ItemsUnfound(t) ==> ItemsUnfound(v.tree))
    decreases t
  {
    var w := FilterWalkers(pred);
    var h := HandlerFor(w, t.Kind());
    match t
    case Item(_, _, _, _) =>
      assert EnterHook(h, Destructured) == Nop && LeaveHook(h, Destructured) == Nop;
    case Menu(_, _, s, _, ks) =>
      assert EnterHook(h, Destructured) == MarkFoundAndSkip(pred) && LeaveHook(h, Destructured) == PruneIfEmpty;
      if !pred(s) {
        FilterAsWrittenKeepsKids(pred, ks, Below(parents, t, isStart));
      }
    case Root(_, ks) =>
      assert EnterHook(h, Destructured) == Nop && LeaveHook(h, Destructured) == Nop;
      FilterAsWrittenKeepsKids(pred, ks, Below(parents, t, isStart));
  }

  lemma {:induction false} FilterAsWrittenKeepsKids(pred: TreeSearchMetadata -> bool, ks: seq<Tree>, below: seq<Tree>)
    ensures var r := VisitKids(FilterWalkers(pred), Destructured, ks, below).0;
      CountAll(r) == CountAll(ks) &&
      ((forall i :: 0 <= i < |ks| ==> ItemsUnfound(ks[i])) ==> forall i :: 0 <= i < |r| ==> ItemsUnfound(r[i]))
    decreases ks
  {
    if ks != [] {
      var init := ks[..|ks| - 1];
      var x := ks[|ks| - 1];
      var p := VisitKids(FilterWalkers(pred), Destructured, init, below).0;
      var v := VisitSpec(FilterWalkers(pred), Destructured, x, below, false);
      var r := p + if v.detached then [] else [v.tree];
      assert VisitKids(FilterWalkers(pred), Destructured, ks, below).0 == r;
      FilterAsWrittenKeepsKids(pred, init, below);
      FilterAsWrittenKeepsItems(pred, x, below, false);
      assert CountAll(ks) == CountAll(init) + CountItems(x);
      if !v.detached {
        assert r[..|r| - 1] == p;
      } else {
        assert r == p;
      }
      assert CountAll(r) == CountAll(p) + CountItems(v.tree);
      if forall i :: 0 <= i < |ks| ==> ItemsUnfound(ks[i]) {
        assert forall i :: 0 <= i < |init| ==> ItemsUnfound(init[i]) by {
          assert forall i :: 0 <= i < |init| ==> init[i] == ks[i];
        }
        assert ItemsUnfound(x);
      }
    }
  }

  /** What the search returns: the filtered copy, how many items it kept, and how many there were. */
  datatype SearchResult = SearchResult(filteredTree: Tree, resultsCount: nat, totalItemsCount: nat)

  /**
   * `filterDropdownMenuTree( filterFn, tree )`. The copy's node objects get identities from
   * `next` upwards (the allocator of new objects), so the original is never touched. The items
   * reported are exactly those that match or lie in a matching menu.
   */
  method FilterDropdownMenuTree(pred: TreeSearchMetadata -> bool, tree: Tree, next: NodeId) returns (result: SearchResult)
    requires tree.Root?
    requires forall id :: id in AllIds(tree) ==> id < next
    ensures Some(result.filteredTree) == FilterNode(pred, Clone(tree, next).0)
    ensures AllIds(result.filteredTree) !! AllIds(tree)
    ensures var c := Clone(tree, next).0;
      FlatIds(FlatItems(result.filteredTree, [result.filteredTree], true)) == Survivors(pred, FlatItems(c, [c], true))
    ensures result.totalItemsCount == CountItems(tree)
    ensures result.resultsCount == CountItems(result.filteredTree) <= result.totalItemsCount
    ensures result.resultsCount == CountKept(FilterNode(pred, tree))
  {
    var cloned := Clone(tree, next).0;
    CloneKeepsCount(tree, next);
    FilterRespectsCongruence(pred, tree, cloned);
    var totalItemsCount := GetTotalDropdownMenuTreeSearchableItemsCount(cloned);
    var filtered, events := WalkOverDropdownMenuTreeItems(FilterWalkers(pred), FnAsEnter, cloned);
    FilterVisitAgrees(pred, cloned, [cloned], true);
    CloneIsFresh(tree, next);
    FilterNodeIds(pred, cloned);
    FilterFindsSelected(pred, cloned);
    var resultsCount := GetTotalDropdownMenuTreeSearchableItemsCount(filtered);
    result := SearchResult(filtered, resultsCount, totalItemsCount);
  }

  /** Two subtrees that may be removed have the same shape and data (or are both removed). */
  ghost predicate CongruentKept(a: Option<Tree>, b: Option<Tree>) {
    a.Some? == b.Some? && (a.Some? ==> Congruent(a.value, b.value))
  }

  /**
   * The filter looks at data, not at node identities: filtering the copy gives what filtering the
   * original would, up to identities.
   */
  lemma {:induction false} FilterRespectsCongruence(pred: TreeSearchMetadata -> bool, a: Tree, b: Tree)
    requires Congruent(a, b)
    ensures CongruentKept(FilterNode(pred, a), FilterNode(pred, b))
    ensures CountKept(FilterNode(pred, a)) == CountKept(FilterNode(pred, b))
    decreases a
  {
    var fa := FilterNode(pred, a);
    var fb := FilterNode(pred, b);
    if a.Root? || (a.Menu? && !pred(a.search)) {
      FilterKidsRespectCongruence(pred, a.kids, b.kids);
    }
    assert CongruentKept(fa, fb);
    if fa.Some? {
      CongruentCount(fa.value, fb.value);
    }
  }

  lemma {:induction false} FilterKidsRespectCongruence(pred: TreeSearchMetadata -> bool, a: seq<Tree>, b: seq<Tree>)
    requires |a| == |b| && forall i :: 0 <= i < |a| ==> Congruent(a[i], b[i])
    ensures |FilterKids(pred, a)| == |FilterKids(pred, b)|
    ensures forall i :: 0 <= i < |FilterKids(pred, a)| ==> Congruent(FilterKids(pred, a)[i], FilterKids(pred, b)[i])
    decreases a
  {
    if a != [] {
      FilterKidsRespectCongruence(pred, a[..|a| - 1], b[..|b| - 1]);
      FilterRespectsCongruence(pred, a[|a| - 1], b[|b| - 1]);
    }
  }

  /** A predicate every node matches keeps every item. */
  lemma {:induction false} AllMatchKeepsAll(pred: TreeSearchMetadata -> bool, t: Tree)
    requires forall s :: pred(s)
    ensures CountKept(FilterNode(pred, t)) == CountItems(t)
    decreases t
  {
    if t.Root? || (t.Menu? && !pred(t.search)) {
      AllMatchKeepsAllKids(pred, t.kids);
    }
  }

  lemma {:induction false} AllMatchKeepsAllKids(pred: TreeSearchMetadata -> bool, ks: seq<Tree>)
    requires forall s :: pred(s)
    ensures CountAll(FilterKids(pred, ks)) == CountAll(ks)
    decreases ks
  {
    if ks != [] {
      var init := ks[..|ks| - 1];
      var x := ks[|ks| - 1];
      AllMatchKeepsAllKids(pred, init);
      AllMatchKeepsAll(pred, x);
      var o := FilterNode(pred, x);
      if o.Some? {
        CountAllAppend(FilterKids(pred, init), [o.value]);
      }
    }
  }

  /** A predicate no node matches keeps no item. */
  lemma {:induction false} NoMatchKeepsNothing(pred: TreeSearchMetadata -> bool, t: Tree)
    requires forall s :: !pred(s)
    ensures CountKept(FilterNode(pred, t)) == 0
    decreases t
  {
    if !t.Item? {
      NoMatchKeepsNothingKids(pred, t.kids);
    }
  }

  lemma {:induction false} NoMatchKeepsNothingKids(pred: TreeSearchMetadata -> bool, ks: seq<Tree>)
    requires forall s :: !pred(s)
    ensures CountAll(FilterKids(pred, ks)) == 0
    decreases ks
  {
    if ks != [] {
      var init := ks[..|ks| - 1];
      var x := ks[|ks| - 1];
      NoMatchKeepsNothingKids(pred, init);
      NoMatchKeepsNothing(pred, x);
      var o := FilterNode(pred, x);
      if o.Some? {
        CountAllAppend(FilterKids(pred, init), [o.value]);
      }
    }
  }

  /** With a predicate every node matches, every child the filter keeps is marked `found`. */
  lemma {:induction false} AllMatchMarksKeptFound(pred: TreeSearchMetadata -> bool, ks: seq<Tree>)
    requires forall s :: pred(s)
    requires forall i :: 0 <= i < |ks| ==> !ks[i].Root?
    ensures forall i :: 0 <= i < |FilterKids(pred, ks)| ==> !FilterKids(pred, ks)[i].Root? && FilterKids(pred, ks)[i].found
    decreases ks
  {
    if ks != [] {
      AllMatchMarksKeptFound(pred, ks[..|ks| - 1]);
    }
  }

  /**
   * With a predicate every node matches, the children kept are exactly the items and the menus
   * that have children. (The children of a menu tree's nodes are never roots.)
   */
  lemma {:induction false} AllMatchKeepsNonEmpty(pred: TreeSearchMetadata -> bool, ks: seq<Tree>)
    requires forall s :: pred(s)
    requires forall i :: 0 <= i < |ks| ==> !ks[i].Root?
    ensures forall i :: 0 <= i < |ks| ==> (i in KeptPositions(pred, ks) <==> ks[i].Item? || ks[i].kids != [])
    decreases ks
  {
    if ks != [] {
      var init := ks[..|ks| - 1];
      assert forall i :: 0 <= i < |init| ==> (i in KeptPositions(pred, init) <==> init[i].Item? || init[i].kids != []) by {
        AllMatchKeepsNonEmpty(pred, init);
      }
      KeptPositionsSnoc(pred, ks);
      assert forall i :: 0 <= i < |init| ==> ks[i] == init[i];
    }
  }

  /** The positions kept from `ks` are those kept from all but its last subtree, and the last one if it stays. */
  lemma KeptPositionsSnoc(pred: TreeSearchMetadata -> bool, ks: seq<Tree>)
    requires ks != []
    ensures forall i :: i in KeptPositions(pred, ks) <==>
      i in KeptPositions(pred, ks[..|ks| - 1]) || (i == |ks| - 1 && FilterNode(pred, ks[|ks| - 1]).Some?)
  {
    var p := KeptPositions(pred, ks[..|ks| - 1]);
    assert forall j :: 0 <= j < |p| ==> p[j] < |ks| - 1;
  }

  /**
   * The predicate of `filterDropdownMenuTreeByRegExp`: with no expression every node matches;
   * otherwise a node matches when the expression matches its search text. The regular-expression
   * engine is the parameter `regExp`, a test on strings.
   */
  function RegExpPredicate(regExp: Option<string -> bool>): TreeSearchMetadata -> bool {
    (s: TreeSearchMetadata) => regExp.None? || regExp.value(s.text)
  }

  /** The regular-expression predicate reads only the normalised search text, never the raw label. */
  lemma RegExpReadsOnlyText(regExp: Option<string -> bool>, a: TreeSearchMetadata, b: TreeSearchMetadata)
    requires a.text == b.text
    ensures RegExpPredicate(regExp)(a) == RegExpPredicate(regExp)(b)
  {
  }

  /** `filterDropdownMenuTreeByRegExp( regExp, tree )`. */
  method FilterDropdownMenuTreeByRegExp(regExp: Option<string -> bool>, tree: Tree, next: NodeId) returns (result: SearchResult)
    requires tree.Root?
    requires forall id :: id in AllIds(tree) ==> id < next
    ensures Some(result.filteredTree) == FilterNode(RegExpPredicate(regExp), Clone(tree, next).0)
    ensures AllIds(result.filteredTree) !! AllIds(tree)
    ensures var c := Clone(tree, next).0;
      FlatIds(FlatItems(result.filteredTree, [result.filteredTree], true)) == Survivors(RegExpPredicate(regExp), FlatItems(c, [c], true))
    ensures result.totalItemsCount == CountItems(tree)
    ensures result.resultsCount == CountKept(FilterNode(RegExpPredicate(regExp), tree)) <= result.totalItemsCount
    ensures regExp.None? ==> result.resultsCount == result.totalItemsCount
  {
    result := FilterDropdownMenuTree(RegExpPredicate(regExp), tree, next);
    if regExp.None? {
      AllMatchKeepsAll(RegExpPredicate(regExp), tree);
    }
  }
}
