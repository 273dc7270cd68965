/**
 * `getTotalDropdownMenuTreeFlatItemsCount` and `getTotalDropdownMenuTreeSearchableItemsCount`:
 * both walk the tree with an `Item` handler that increments a counter. The counter is the number
 * of calls the recording hook makes, that is, the number of events of the walk.
 */
module ItemCounters {
  import opened MenuTree
  import opened TreeWalker
  import opened FlattenTree

  /** `getTotalDropdownMenuTreeFlatItemsCount( tree )`: the number of items in the tree. */
  method GetTotalDropdownMenuTreeFlatItemsCount(tree: Tree) returns (count: nat)
    ensures count == CountItems(tree)
  {
    var walked, events := WalkOverDropdownMenuTreeItems(ItemRecorder, FnAsEnter, tree);
    RecordedItems(tree, [tree], true);
    count := |events|;
  }

  /**
   * `getTotalDropdownMenuTreeSearchableItemsCount( tree )`: the same walk; every item the walk
   * reaches is one entry of the flat list the search works on.
   */
  method GetTotalDropdownMenuTreeSearchableItemsCount(tree: Tree) returns (count: nat)
    ensures count == |FlatItems(tree, [tree], true)|
  {
    var walked, events := WalkOverDropdownMenuTreeItems(ItemRecorder, FnAsEnter, tree);
    RecordedItems(tree, [tree], true);
    count := |events|;
  }

  /** As written, the bare-function `Item` handler is never called, so both counters return 0. */
  lemma CountAsWrittenIsZero(tree: Tree)
    ensures |VisitSpec(ItemRecorder, Destructured, tree, [tree], true).events| == 0
  {
    FlattenAsWrittenIsEmpty(tree);
  }
}
