/**
 * `flattenDropdownMenuTree`: the items of the tree in walk order, each with the ancestors the
 * walker handed to its `Item` hook.
 */
module FlattenTree {
  import opened MenuTree
  import opened TreeWalker

  /** One entry of the flat list: an item node and its ancestors, outermost first. */
  datatype FlatEntry = FlatEntry(parents: seq<Tree>, node: Tree)

  /** The walkers of the flattener: only `Item` has a handler, a bare function that records its call. */
  const ItemRecorder := Walkers(NoHandler, NoHandler, Fn(Record(false)))

  /**
   * The items of `t` in pre-order, left to right, each with its ancestors: the reference
   * definition the walk is proved against. The start node is not its own ancestor twice.
   */
  function FlatItems(t: Tree, parents: seq<Tree>, isStart: bool): (r: seq<FlatEntry>)
    ensures |r| == CountItems(t)
    decreases t
  {
    if t.Item? then [FlatEntry(parents, t)] else FlatKids(t.kids, Below(parents, t, isStart))
  }

  function FlatKids(ks: seq<Tree>, below: seq<Tree>): (r: seq<FlatEntry>)
    ensures |r| == CountAll(ks)
    decreases ks
  {
    if ks == [] then [] else FlatKids(ks[..|ks| - 1], below) + FlatItems(ks[|ks| - 1], below, false)
  }

  /** The entries the recording hook's events become. */
  function Entries(evs: seq<Event>): (r: seq<FlatEntry>)
    ensures |r| == |evs|
    ensures forall i :: 0 <= i < |evs| ==> r[i].node == evs[i].node && r[i].parents == evs[i].parents
  {
    seq(|evs|, i requires 0 <= i < |evs| => FlatEntry(evs[i].parents, evs[i].node))
  }

  lemma EntriesAppend(a: seq<Event>, b: seq<Event>)
    ensures Entries(a + b) == Entries(a) + Entries(b)
  {
  }

  /** The recording walk leaves the tree alone and records exactly the flat list of its items. */
  lemma {:induction false} RecordedItems(t: Tree, parents: seq<Tree>, isStart: bool)
    ensures VisitSpec(ItemRecorder, FnAsEnter, t, parents, isStart).tree == t
    ensures Entries(VisitSpec(ItemRecorder, FnAsEnter, t, parents, isStart).events) == FlatItems(t, parents, isStart)
    decreases t
  {
    var v := VisitSpec(ItemRecorder, FnAsEnter, t, parents, isStart);
    assert v.tree == t by {
      ObserveOnlyKeepsTree(ItemRecorder, FnAsEnter, t, parents, isStart);
    }
    var h := HandlerFor(ItemRecorder, t.Kind());
    assert LeaveHook(h, FnAsEnter) == Nop;
    if t.Item? {
      assert EnterHook(h, FnAsEnter) == Record(false);
      assert v.events == [Event(Enter, t, parents)] + [] + [];
    } else {
      assert EnterHook(h, FnAsEnter) == Nop;
      var below := Below(parents, t, isStart);
      var kids := VisitKids(ItemRecorder, FnAsEnter, t.kids, below);
      assert Entries(kids.1) == FlatKids(t.kids, below) by {
        RecordedKids(t.kids, below);
      }
      assert v.events == [] + kids.1 + [];
    }
  }

  lemma {:induction false} RecordedKids(ks: seq<Tree>, below: seq<Tree>)
    ensures VisitKids(ItemRecorder, FnAsEnter, ks, below).0 == ks
    ensures Entries(VisitKids(ItemRecorder, FnAsEnter, ks, below).1) == FlatKids(ks, below)
    decreases ks
  {
    if ks != [] {
      var init := ks[..|ks| - 1];
      var x := ks[|ks| - 1];
      var p := VisitKids(ItemRecorder, FnAsEnter, init, below);
      var v := VisitSpec(ItemRecorder, FnAsEnter, x, below, false);
      assert p.0 == init && Entries(p.1) == FlatKids(init, below) by {
        RecordedKids(init, below);
      }
      assert v.tree == x && !v.detached && Entries(v.events) == FlatItems(x, below, false) by {
        RecordedItems(x, below, false);
        ObserveOnlyKeepsTree(ItemRecorder, FnAsEnter, x, below, false);
      }
      assert VisitKids(ItemRecorder, FnAsEnter, ks, below) == (p.0 + [v.tree], p.1 + v.events);
      assert Entries(p.1 + v.events) == Entries(p.1) + Entries(v.events) by {
        EntriesAppend(p.1, v.events);
      }
      assert init + [x] == ks;
    }
  }

  /**
   * `flattenDropdownMenuTree( tree )`: walks the tree with an `Item` handler that pushes
   * `{ parents, node }` and returns the list.
   */
  method FlattenDropdownMenuTree(tree: Tree) returns (flat: seq<FlatEntry>)
    ensures flat == FlatItems(tree, [tree], true)
    ensures |flat| == CountItems(tree)
  {
    var walked, events := WalkOverDropdownMenuTreeItems(ItemRecorder, FnAsEnter, tree);
    RecordedItems(tree, [tree], true);
    flat := Entries(events);
  }

  /**
   * Every entry below a node whose ancestors are `below` is an item, its ancestors extend
   * `below`, and it is a child of its innermost ancestor.
   */
  lemma {:induction false} FlatItemShape(t: Tree, below: seq<Tree>)
    requires below != [] && t in Last(below).Kids()
    ensures forall e :: e in FlatItems(t, below, false) ==>
      e.node.Item? && below <= e.parents && e.parents != [] && e.node in Last(e.parents).Kids()
    decreases t
  {
    if !t.Item? {
      FlatKidsShape(t.kids, below + [t]);
      forall e | e in FlatItems(t, below, false)
        ensures below <= e.parents
      {
        assert below <= below + [t] <= e.parents;
      }
    }
  }

  lemma {:induction false} FlatKidsShape(ks: seq<Tree>, below: seq<Tree>)
    requires below != [] && forall i :: 0 <= i < |ks| ==> ks[i] in Last(below).Kids()
    ensures forall e :: e in FlatKids(ks, below) ==>
      e.node.Item? && below <= e.parents && e.parents != [] && e.node in Last(e.parents).Kids()
    decreases ks
  {
    if ks != [] {
      FlatKidsShape(ks[..|ks| - 1], below);
      FlatItemShape(ks[|ks| - 1], below);
    }
  }

  /**
   * The flat list of a menu tree: every entry is an item whose ancestors start at the root and
   * end at the menu that holds it; and it has one entry per item.
   */
  lemma FlattenShape(tree: Tree)
    requires !tree.Item?
    ensures var flat := FlatItems(tree, [tree], true);
      |flat| == CountItems(tree) &&
      forall e :: e in flat ==>
        e.node.Item? && e.parents != [] && e.parents[0] == tree && e.node in Last(e.parents).Kids()
  {
    FlatKidsShape(tree.kids, [tree]);
  }

  /** As written, the bare-function `Item` handler is never called, so the flat list is always empty. */
  lemma FlattenAsWrittenIsEmpty(tree: Tree)
    ensures Entries(VisitSpec(ItemRecorder, Destructured, tree, [tree], true).events) == []
  {
    assert Silent(ItemRecorder, Destructured) by {
      forall k: NodeKind
        ensures EnterHook(HandlerFor(ItemRecorder, k), Destructured) == Nop
        ensures LeaveHook(HandlerFor(ItemRecorder, k), Destructured) == Nop
      {
      }
    }
    SilentWalkDoesNothing(ItemRecorder, Destructured, tree, [tree], true);
  }
}
