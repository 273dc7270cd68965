# Dropdown menu search tree, in Dafny

A model of the search engine behind CKEditor 5's dropdown menu bar, with proofs about it. The
engine works on a *search tree*:

- a `Root` node whose children are `Menu` nodes;
- `Menu` nodes, which hold further `Menu` nodes and `Item` nodes;
- search metadata (`raw` label and normalised `text`) on every `Menu` and `Item`.

The model covers:

- building that tree from the flat list of menu views (`createTreeFromFlattenDropdownMenusList`
  and its twin `createTreeFromFlattenMenuViews`);
- the two recursive walkers over it;
- the two child-removal helpers;
- the deep copy;
- the two item counters;
- flattening into `{ parents, node }` entries;
- filtering by a predicate and by a regular expression;
- grouping the found items by the first found ancestor;
- the search-text normalisation;
- the `mapFilter` utility over an insertion-ordered `Map`.

Modules, one per file:

| module | file | what it holds |
|---|---|---|
| `SearchMetadata` | `search_metadata.dfy` | `trim` (ECMAScript white space and line terminators), ASCII `toLowerCase`, `normalizeSearchText`, `createTextSearchMetadata` |
| `MapFilter` | `map_filter.dfy` | `OrderedMap` (a JavaScript `Map`: keys in insertion order plus a value map), `mapFilter` |
| `MenuTree` | `menu_tree.dfy` | node identities; `Tree` values (a subtree with the identity of every node); the arena `TreeHeap` of node records that the builders and the removal helpers update in place |
| `TreeChildRemoval` | `tree_child_removal.dfy` | `tryRemoveDropdownMenuTreeChild` (guarded) and `tryRemoveDropdownTreeChild` (unguarded), with `indexOf` and `splice` |
| `TreeWalker` | `tree_walker.dfy` | `walkOverDropdownMenuTreeItems`: the reference function `VisitSpec` and the visitor methods proved against it |
| `LegacyTreeWalker` | `legacy_tree_walker.dfy` | `walkOverDropdownMenuViewsTreeItems` and how it relates to the main walker |
| `TreeClone` | `tree_clone.dfy` | `shallowCloneDropdownMenuTree` |
| `ItemCounters` | `item_counters.dfy` | the two item counters |
| `FlattenTree` | `flatten_tree.dfy` | `flattenDropdownMenuTree` |
| `FilterTree` | `filter_tree.dfy` | `filterDropdownMenuTree` and `filterDropdownMenuTreeByRegExp` |
| `GroupTree` | `group_tree.dfy` | `groupDropdownTreeByFirstFoundParent` |
| `TreeBuilder` | `tree_builder.dfy` | the two tree builders |
| `Wrappers` | `wrappers.dfy` | `Option` |

The walker's callbacks are arbitrary closures in the source. Here they are data: a `Hook` is one
of the callbacks the engine's own clients pass. Those are:

- recording the call;
- marking a matching menu `found` and skipping its children;
- keeping an item only if it matches;
- pruning a menu left without children.

A recorded call is an `Event`; the counters and the flattener read their result off the events.
A `Handler` is what `walkers[ node.kind ]` holds: nothing, an `{ enter, leave }` object, or a bare
function. A `Reading` chooses how a bare function is read:

- `Destructured` is the code as written;
- `FnAsEnter` is what its clients rely on (see Findings).

The walker works on `Tree` values. A visit returns the subtree as the hooks left it, and whether
a hook removed the node from its parent. The parent's children loop then applies the guarded
removal at once and moves its cursor as the source does (`if ( child === node.children[ i ] ) ++i`).

The builders work on the arena, because a nested menu is linked as the very node object built
for it. They take the label-to-metadata function as a parameter (`searchOf`); the two public
builders pass `CreateTextSearchMetadata`.

## Model

Paths are relative to the repository root.

| member | source | states |
|---|---|---|
| SearchMetadata.TrimStart | packages/ckeditor5-ui/src/dropdown/menu/search/dropdownmenutreesearchmetadata.ts:19 | the result is a suffix of the input that does not start with a white-space or line-terminator character |
| SearchMetadata.TrimEnd | packages/ckeditor5-ui/src/dropdown/menu/search/dropdownmenutreesearchmetadata.ts:19 | the result is a prefix of the input that does not end with a white-space or line-terminator character |
| SearchMetadata.Trim | packages/ckeditor5-ui/src/dropdown/menu/search/dropdownmenutreesearchmetadata.ts:19 | the result is a stretch `s[i..i + |r|]` of the input; everything before and after that stretch is white space or a line terminator, and neither end of the stretch is, so the stretch is exactly what `trim` keeps |
| SearchMetadata.TrimStartDropsTrimmable | packages/ckeditor5-ui/src/dropdown/menu/search/dropdownmenutreesearchmetadata.ts:19 | every character removed at the start is white space or a line terminator |
| SearchMetadata.TrimEndDropsTrimmable | packages/ckeditor5-ui/src/dropdown/menu/search/dropdownmenutreesearchmetadata.ts:19 | every character removed at the end is white space or a line terminator |
| SearchMetadata.LowerCharKeepsTrimmable | packages/ckeditor5-ui/src/dropdown/menu/search/dropdownmenutreesearchmetadata.ts:19 | lower-casing a character never yields an upper-case letter, and neither creates nor removes white space |
| SearchMetadata.NormalizeSearchText | packages/ckeditor5-ui/src/dropdown/menu/search/dropdownmenutreesearchmetadata.ts:19 | the normalised text is the trimmed input lower-cased character by character: as long as the trim, each character the lower case of the one at the same place; hence no upper-case ASCII letter and no leading or trailing white space |
| SearchMetadata.LowerKeepsTrimmed | packages/ckeditor5-ui/src/dropdown/menu/search/dropdownmenutreesearchmetadata.ts:19 | lower-casing a trimmed text leaves it trimmed and free of upper-case letters |
| SearchMetadata.TrimOfTrimmed | packages/ckeditor5-ui/src/dropdown/menu/search/dropdownmenutreesearchmetadata.ts:19 | a text without leading or trailing white space is its own trim |
| SearchMetadata.LowerOfLower | packages/ckeditor5-ui/src/dropdown/menu/search/dropdownmenutreesearchmetadata.ts:19 | a text without upper-case letters is its own lower-case form |
| SearchMetadata.NormalizeIdempotent | packages/ckeditor5-ui/src/dropdown/menu/search/dropdownmenutreesearchmetadata.ts:19 | normalising twice is normalising once |
| SearchMetadata.CreateTextSearchMetadata | packages/ckeditor5-ui/src/dropdown/menu/search/dropdownmenutreesearchmetadata.ts:21-24 | `raw` is the label, or `''` when the label is undefined, and `text` is always the normalised `raw` |
| SearchMetadata.UndefinedLabelMetadata | packages/ckeditor5-ui/src/dropdown/menu/search/dropdownmenutreesearchmetadata.ts:21-24 | an undefined label gives `{ raw: '', text: '' }` |
| SearchMetadata.MetadataTextIsStable | packages/ckeditor5-ui/src/dropdown/menu/search/dropdownmenutreesearchmetadata.ts:21-24 | the `text` of any metadata is already normalised |
| SearchMetadata.SampleLabel | packages/ckeditor5-ui/src/dropdown/menu/search/dropdownmenutreesearchmetadata.ts:19 | the label `Menu 1` normalises to `menu 1` |
| MapFilter.OrderedMap.Set | packages/ckeditor5-utils/src/mapfilter.ts:32 | `map.set` keeps a present key in its place, appends a new key at the end, and maps the key to the new value |
| MapFilter.OrderedMap.ValuesInOrder | packages/ckeditor5-ui/src/dropdown/menu/search/createtreefromflattendropdownmenuslist.ts:81-83 | `Array.from( map.values() )` lists one value per key, in key insertion order |
| MapFilter.EmptyMap | packages/ckeditor5-utils/src/mapfilter.ts:28 | `new Map()` has no keys and no values |
| MapFilter.KeptKeysAreAccepted | packages/ckeditor5-utils/src/mapfilter.ts:30-34 | a key is kept if and only if it is an input key the callback accepts |
| MapFilter.MapFilter | packages/ckeditor5-utils/src/mapfilter.ts:24-37 | the output holds exactly the accepted entries, with their values unchanged, in their input order |
| MapFilter.KeepAllKeepsKeys | packages/ckeditor5-utils/tests/mapfilter.js:15-20 | a callback accepting everything keeps every key, in the same order |
| MapFilter.KeepNoneDropsAll | packages/ckeditor5-utils/src/mapfilter.ts:30-34 | a callback accepting nothing leaves no key |
| MapFilter.KeptKeysShorter | packages/ckeditor5-utils/src/mapfilter.ts:30-34 | filtering never lengthens the key list |
| MapFilter.SampleFiltered | packages/ckeditor5-utils/tests/mapfilter.js:28-35 | on `{ a, b, foo }`, dropping the keys `a` and `b` leaves exactly `foo` with its value |
| MapFilter.FilterOutAAndB | packages/ckeditor5-utils/tests/mapfilter.js:28-35 | running `mapFilter` on that example gives `{ foo }` |
| MenuTree.Node.WithFound | packages/ckeditor5-ui/src/dropdown/menu/search/filterdropdownmenutree.ts:60 | setting `found` keeps the node's kind and children |
| MenuTree.Node.WithKids | packages/ckeditor5-ui/src/dropdown/menu/search/createtreefromflattendropdownmenuslist.ts:81-82 | replacing `children` keeps the kind, and a `Root` or `Menu` then has exactly the new list |
| MenuTree.Tree.WithKids | packages/ckeditor5-ui/src/dropdown/menu/search/walkoverdropdownmenutreeitems.ts:52-61 | a node whose children change keeps its identity and kind |
| MenuTree.Tree.WithFound | packages/ckeditor5-ui/src/dropdown/menu/search/filterdropdownmenutree.ts:41-45 | marking a node found keeps its identity, kind and children, and sets `found` on a `Menu` or `Item` |
| MenuTree.CongruentCount | packages/ckeditor5-ui/src/dropdown/menu/search/shallowclonedropdownmenutree.ts:22-28 | two trees of the same shape and data have the same number of items |
| MenuTree.TreeHeap.Alloc | packages/ckeditor5-ui/src/dropdown/menu/search/createtreefromflattendropdownmenuslist.ts:33-38 | a new node object gets an identity not in use, and no other node changes |
| MenuTree.TreeHeap.Push | packages/ckeditor5-ui/src/dropdown/menu/search/createtreefromflattendropdownmenuslist.ts:59-63 | `children.push` appends exactly one child to that node, and no other node changes |
| MenuTree.TreeHeap.SetChildren | packages/ckeditor5-ui/src/dropdown/menu/search/createtreefromflattendropdownmenuslist.ts:81-83 | assigning `children` replaces that node's list, and no other node changes |
| TreeChildRemoval.IndexOf | packages/ckeditor5-ui/src/dropdown/menu/search/tryremovedropdownmenutreechild.ts:26 | `indexOf` is -1 exactly when the child is absent, and otherwise the position of its first occurrence |
| TreeChildRemoval.RemoveFirst | packages/ckeditor5-ui/src/dropdown/menu/search/tryremovedropdownmenutreechild.ts:26-30 | removal leaves a list without the child unchanged, and shortens one with it by one |
| TreeChildRemoval.RemoveFirstMultiset | packages/ckeditor5-ui/src/dropdown/menu/search/tryremovedropdownmenutreechild.ts:26-30 | exactly one copy of the child goes, when there is one; every other element stays |
| TreeChildRemoval.SpliceAtIndexOfIsRemoveFirst | packages/ckeditor5-ui/src/dropdown/menu/search/tryremovedropdownmenutreechild.ts:26-30 | splicing one element at the position `indexOf` finds removes the first occurrence, keeping the others in order |
| TreeChildRemoval.RemoveFirstSplit | packages/ckeditor5-ui/src/dropdown/menu/search/tryremovedropdownmenutreechild.ts:26-30 | removing a child that first occurs after `a` leaves `a` and the elements after it, in order |
| TreeChildRemoval.Detach | packages/ckeditor5-ui/src/dropdown/menu/search/tryremovedropdownmenutreechild.ts:19-37 | the guarded removal keeps the parent's kind, changes nothing when the child is absent, and removes one child when it is present |
| TreeChildRemoval.TryRemoveDropdownMenuTreeChild | packages/ckeditor5-ui/src/dropdown/menu/search/tryremovedropdownmenutreechild.ts:15-40 | only the parent's node record changes, as `Detach` describes, and the parent is returned |
| TreeChildRemoval.RemoveKidIsDetach | packages/ckeditor5-ui/src/dropdown/menu/search/tryremovedropdownmenutreechild.ts:26-30 | the removal on subtrees does to the parent what the removal on node records does |
| TreeChildRemoval.RemoveKidIds | packages/ckeditor5-ui/src/dropdown/menu/search/tryremovedropdownmenutreechild.ts:26-30 | the identities left by the removal on subtrees are those `RemoveFirst` leaves |
| TreeChildRemoval.RemoveKidAt | packages/ckeditor5-ui/src/dropdown/menu/search/tryremovedropdownmenutreechild.ts:26-30 | a child whose identity does not occur earlier is the one removed, and the others stay in order |
| TreeChildRemoval.SpliceOne | packages/ckeditor5-ui/src/dropdown/menu/search/tryremovedropdowntreechild.ts:26 | `splice( start, 1 )` removes the element at an in-range start, nothing past the end, and never more than one element |
| TreeChildRemoval.TryRemoveDropdownTreeChild | packages/ckeditor5-ui/src/dropdown/menu/search/tryremovedropdowntreechild.ts:15-36 | only the parent's node record changes, spliced at `indexOf( child )` without a check, and the parent is returned |
| TreeChildRemoval.UnguardedAgreesWhenPresent | packages/ckeditor5-ui/src/dropdown/menu/search/tryremovedropdowntreechild.ts:26 | when the child is present, the unguarded removal equals the guarded one |
| TreeChildRemoval.UnguardedDropsLastWhenAbsent | packages/ckeditor5-ui/src/dropdown/menu/search/tryremovedropdowntreechild.ts:26 | when the child is absent, the unguarded removal drops the parent's last child (Findings) |
| TreeChildRemoval.UnguardedRemovalOfStranger | packages/ckeditor5-ui/src/dropdown/menu/search/tryremovedropdowntreechild.ts:26 | a parent with children `[1, 2]` asked to remove 3 loses 2 with the unguarded helper, and nothing with the guarded one |
| TreeWalker.ObserversRemoveNothing | packages/ckeditor5-ui/src/dropdown/menu/search/walkoverdropdownmenutreeitems.ts:26-29 | walkers whose hooks only look cannot remove a node |
| TreeWalker.RunHook | packages/ckeditor5-ui/src/dropdown/menu/search/filterdropdownmenutree.ts:39-63 | a hook call keeps the node's identity, kind and children; only a removing hook removes the node; a hook that only looks leaves the node alone and never skips its children |
| TreeWalker.VisitSpec | packages/ckeditor5-ui/src/dropdown/menu/search/walkoverdropdownmenutreeitems.ts:25-76 | a visited subtree keeps the identity and kind of its top node |
| TreeWalker.VisitKids | packages/ckeditor5-ui/src/dropdown/menu/search/walkoverdropdownmenutreeitems.ts:52-61 | the children loop never leaves more children than it started with |
| TreeWalker.NoRemovalNoDetach | packages/ckeditor5-ui/src/dropdown/menu/search/walkoverdropdownmenutreeitems.ts:57-60 | a walk whose hooks cannot remove anything never removes a node |
| TreeWalker.VisitKidsIds | packages/ckeditor5-ui/src/dropdown/menu/search/walkoverdropdownmenutreeitems.ts:52-61 | every child left after the loop is one of the original children |
| TreeWalker.VisitKidsSnoc | packages/ckeditor5-ui/src/dropdown/menu/search/walkoverdropdownmenutreeitems.ts:52-61 | the children loop over one more child extends the kept list by that child's result, if it stays, and the calls by its calls |
| TreeWalker.ChildStepAt | packages/ckeditor5-ui/src/dropdown/menu/search/walkoverdropdownmenutreeitems.ts:53 | the child at the cursor is the first child not yet visited |
| TreeWalker.ChildRemoved | packages/ckeditor5-ui/src/dropdown/menu/search/walkoverdropdownmenutreeitems.ts:52-61 | when a visit removed its child, the cursor stays put; the list equals the reference after one more visit; the node now at the cursor is a different one |
| TreeWalker.RemoveAtCursor | packages/ckeditor5-ui/src/dropdown/menu/search/walkoverdropdownmenutreeitems.ts:57-60 | taking the child at the cursor out of the list leaves the others in order, and a different node at the cursor |
| TreeWalker.ChildKept | packages/ckeditor5-ui/src/dropdown/menu/search/walkoverdropdownmenutreeitems.ts:57-60 | when a visit kept its child, the cursor finds the same node and moves on, and the list equals the reference after one more visit |
| TreeWalker.ReplaceAtCursor | packages/ckeditor5-ui/src/dropdown/menu/search/walkoverdropdownmenutreeitems.ts:55-60 | putting the visited child back at the cursor keeps the children before and after it |
| TreeWalker.ChildEvents | packages/ckeditor5-ui/src/dropdown/menu/search/walkoverdropdownmenutreeitems.ts:55 | visiting one more child appends exactly that child's hook calls |
| TreeWalker.Visit | packages/ckeditor5-ui/src/dropdown/menu/search/walkoverdropdownmenutreeitems.ts:25-76 | the visitor leaves the subtree and makes the hook calls `VisitSpec` describes, and pops the ancestor stack back to what it received |
| TreeWalker.VisitChildAt | packages/ckeditor5-ui/src/dropdown/menu/search/walkoverdropdownmenutreeitems.ts:53-60 | one turn of the children loop moves the list, the cursor and the recorded calls one child further along the reference |
| TreeWalker.VisitChildren | packages/ckeditor5-ui/src/dropdown/menu/search/walkoverdropdownmenutreeitems.ts:52-61 | the children loop ends with the children and the calls the reference gives, whatever the hooks removed |
| TreeWalker.CursorPastEnd | packages/ckeditor5-ui/src/dropdown/menu/search/walkoverdropdownmenutreeitems.ts:52 | when the loop's cursor passes the end of the list, every original child has been visited |
| TreeWalker.WalkOverDropdownMenuTreeItems | packages/ckeditor5-ui/src/dropdown/menu/search/walkoverdropdownmenutreeitems.ts:20-79 | the walk starts at `root` with the ancestors `[ root ]` and leaves the tree and the calls the reference gives |
| TreeWalker.ObservingHooks | packages/ckeditor5-ui/src/dropdown/menu/search/walkoverdropdownmenutreeitems.ts:26-29 | a handler that only looks gives `enter` and `leave` hooks that only look, under either reading |
| TreeWalker.ObserveOnlyKeepsTree | packages/ckeditor5-ui/src/dropdown/menu/search/walkoverdropdownmenutreeitems.ts:20-79 | a walk whose hooks only look leaves the tree exactly as it was |
| TreeWalker.ObserveOnlyKeepsKids | packages/ckeditor5-ui/src/dropdown/menu/search/walkoverdropdownmenutreeitems.ts:52-61 | with hooks that only look, the children loop leaves every child as it was |
| TreeWalker.EnterFalseSkipsSubtree | packages/ckeditor5-ui/src/dropdown/menu/search/walkoverdropdownmenutreeitems.ts:42-44 | when `enter` returns `false` the children are not visited, and `leave` is still called |
| TreeWalker.EnterFirstLeaveLast | packages/ckeditor5-ui/src/dropdown/menu/search/walkoverdropdownmenutreeitems.ts:31-42 | a node's `enter` is the first call of its visit and its `leave` the last, both given the same ancestors; after a `false` from `enter` they are the only two |
| TreeWalker.EventsExtendParents | packages/ckeditor5-ui/src/dropdown/menu/search/walkoverdropdownmenutreeitems.ts:32-39 | every hook call inside a visit gets ancestors that begin with the visit's own ancestors |
| TreeWalker.EventsExtendParentsKids | packages/ckeditor5-ui/src/dropdown/menu/search/walkoverdropdownmenutreeitems.ts:52-61 | every hook call made under a list of children gets ancestors that begin with the children's ancestors |
| TreeWalker.AllExtend | packages/ckeditor5-ui/src/dropdown/menu/search/walkoverdropdownmenutreeitems.ts:42-71 | the calls of `enter`, of the children and of `leave` together keep the ancestor prefix each of them keeps |
| TreeWalker.SilentWalkDoesNothing | packages/ckeditor5-ui/src/dropdown/menu/search/walkoverdropdownmenutreeitems.ts:26-29 | when every hook defaults to a no-op, the walk records nothing and changes nothing |
| TreeWalker.SilentKidsDoNothing | packages/ckeditor5-ui/src/dropdown/menu/search/walkoverdropdownmenutreeitems.ts:52-61 | with no-op hooks, the children loop records nothing and changes nothing |
| TreeWalker.BareFunctionsIgnored | packages/ckeditor5-ui/src/dropdown/menu/search/walkoverdropdownmenutreeitems.ts:26-29 | as written, walkers given as bare functions are never called, whatever the functions do (Findings) |
| LegacyTreeWalker.LegacySpec | packages/ckeditor5-ui/src/dropdown/menu/search/walkoverdropdownmenuviewstreeitems.ts:25-57 | the older visit keeps the identity and kind of its top node |
| LegacyTreeWalker.LegacyKids | packages/ckeditor5-ui/src/dropdown/menu/search/walkoverdropdownmenuviewstreeitems.ts:46 | `forEach` visits every child and removes none |
| LegacyTreeWalker.LegacyKidsSnoc | packages/ckeditor5-ui/src/dropdown/menu/search/walkoverdropdownmenuviewstreeitems.ts:46 | visiting one more child appends its new version and its calls |
| LegacyTreeWalker.LegacyVisit | packages/ckeditor5-ui/src/dropdown/menu/search/walkoverdropdownmenuviewstreeitems.ts:25-57 | the older visitor does what `LegacySpec` describes and pops the live stack back to what it received |
| LegacyTreeWalker.LegacyForEach | packages/ckeditor5-ui/src/dropdown/menu/search/walkoverdropdownmenuviewstreeitems.ts:46 | the `forEach` loop ends with the children and the calls `LegacyKids` gives |
| LegacyTreeWalker.LegacyChildAt | packages/ckeditor5-ui/src/dropdown/menu/search/walkoverdropdownmenuviewstreeitems.ts:46 | one step of `forEach` puts the visited child's new version in its place and appends its calls |
| LegacyTreeWalker.WalkOverDropdownMenuViewsTreeItems | packages/ckeditor5-ui/src/dropdown/menu/search/walkoverdropdownmenuviewstreeitems.ts:20-60 | the older walk starts with the stack `[ tree ]` and gives what `LegacySpec` describes |
| LegacyTreeWalker.EnterResultIgnored | packages/ckeditor5-ui/src/dropdown/menu/search/walkoverdropdownmenuviewstreeitems.ts:36 | the value `enter` returns is ignored: a hook asking to skip the children gives the same walk as one that does not |
| LegacyTreeWalker.EnterResultIgnoredKids | packages/ckeditor5-ui/src/dropdown/menu/search/walkoverdropdownmenuviewstreeitems.ts:46 | the same for a list of children |
| LegacyTreeWalker.PrefixParentsAt | packages/ckeditor5-ui/src/dropdown/menu/search/walkoverdropdownmenuviewstreeitems.ts:24 | prefixing the start node changes each call's ancestors only |
| LegacyTreeWalker.PrefixParentsAppend | packages/ckeditor5-ui/src/dropdown/menu/search/walkoverdropdownmenuviewstreeitems.ts:24 | prefixing distributes over consecutive calls |
| LegacyTreeWalker.ObservedRun | packages/ckeditor5-ui/src/dropdown/menu/search/walkoverdropdownmenuviewstreeitems.ts:31-36 | a hook that only looks does the same with one more ancestor, which its call records |
| LegacyTreeWalker.LegacyMatchesMain | packages/ckeditor5-ui/src/dropdown/menu/search/walkoverdropdownmenuviewstreeitems.ts:24-46 | with hooks that only look, below the start node the older walker leaves the same tree as the main one and makes the same calls, each with one extra copy of the start node in front of its ancestors |
| LegacyTreeWalker.LegacyKidsMatchMain | packages/ckeditor5-ui/src/dropdown/menu/search/walkoverdropdownmenuviewstreeitems.ts:46 | the same agreement for a list of children |
| TreeClone.Clone | packages/ckeditor5-ui/src/dropdown/menu/search/shallowclonedropdownmenutree.ts:22-28 | the copy has the original's shape and data; every node object in it is new; no node holds the same child twice |
| TreeClone.CloneKids | packages/ckeditor5-ui/src/dropdown/menu/search/shallowclonedropdownmenutree.ts:22-28 | the copies of a children list keep its length and order; each copy is congruent to its original; all identities are new and distinct |
| TreeClone.CloneKeepsCount | packages/ckeditor5-ui/src/dropdown/menu/search/shallowclonedropdownmenutree.ts:22-28 | the copy has as many items as the original |
| TreeClone.CloneIsFresh | packages/ckeditor5-ui/src/dropdown/menu/search/shallowclonedropdownmenutree.ts:22-28 | no node object of the copy is one of the original's, so changing the copy cannot change the original |
| ItemCounters.GetTotalDropdownMenuTreeFlatItemsCount | packages/ckeditor5-ui/src/dropdown/menu/search/gettotaldropdownmenutreeflatitemscount.ts:20-33 | the counter is the number of items in the tree |
| ItemCounters.GetTotalDropdownMenuTreeSearchableItemsCount | packages/ckeditor5-ui/src/dropdown/menu/search/gettotaldropdownmenutreesearchableitemscount.ts:20-33 | the counter is the number of entries of the tree's flat list |
| ItemCounters.CountAsWrittenIsZero | packages/ckeditor5-ui/src/dropdown/menu/search/gettotaldropdownmenutreeflatitemscount.ts:23-30 | as written, the counters' bare-function handler is never called, so they return 0 (Findings) |
| FlattenTree.FlatItems | packages/ckeditor5-ui/src/dropdown/menu/search/flattendropdownmenutree.ts:21-41 | the flat list of a subtree has one entry per item |
| FlattenTree.FlatKids | packages/ckeditor5-ui/src/dropdown/menu/search/flattendropdownmenutree.ts:21-41 | the flat list of a children list has one entry per item under it |
| FlattenTree.Entries | packages/ckeditor5-ui/src/dropdown/menu/search/flattendropdownmenutree.ts:29-34 | each recorded call becomes one `{ parents, node }` entry, in order |
| FlattenTree.EntriesAppend | packages/ckeditor5-ui/src/dropdown/menu/search/flattendropdownmenutree.ts:28-34 | the entries of consecutive calls are the entries of each, in order |
| FlattenTree.RecordedItems | packages/ckeditor5-ui/src/dropdown/menu/search/flattendropdownmenutree.ts:26-38 | the recording walk leaves the tree alone and records exactly the items in pre-order, each with its ancestors |
| FlattenTree.RecordedKids | packages/ckeditor5-ui/src/dropdown/menu/search/flattendropdownmenutree.ts:26-38 | the same for a list of children |
| FlattenTree.FlattenDropdownMenuTree | packages/ckeditor5-ui/src/dropdown/menu/search/flattendropdownmenutree.ts:21-41 | the result is the tree's items in walk order with their ancestors, one entry per item |
| FlattenTree.FlatItemShape | packages/ckeditor5-ui/src/dropdown/menu/search/flattendropdownmenutree.ts:46-49 | every entry is an item whose ancestors extend those of the subtree and end with the node holding it |
| FlattenTree.FlatKidsShape | packages/ckeditor5-ui/src/dropdown/menu/search/flattendropdownmenutree.ts:46-49 | the same for the entries under a list of children |
| FlattenTree.FlattenShape | packages/ckeditor5-ui/tests/dropdown/menu/search/flattendropdownmenutree.js:24-55 | every entry of a tree's flat list is an item; its ancestors start with the root and end with the menu holding it |
| FlattenTree.FlattenAsWrittenIsEmpty | packages/ckeditor5-ui/src/dropdown/menu/search/flattendropdownmenutree.ts:26-38 | as written, the bare-function `Item` handler is never called, so the flat list is always empty (Findings) |
| FilterTree.FilterNode | packages/ckeditor5-ui/src/dropdown/menu/search/filterdropdownmenutree.ts:38-65 | an item stays, marked `found`, if and only if it matches; a matching item, or a matching menu with children, stays whole and marked `found`; the root always stays; every node left is justified (a found match, or a menu with justified children); no menu is left empty; no item is added |
| FilterTree.FilterKids | packages/ckeditor5-ui/src/dropdown/menu/search/filterdropdownmenutree.ts:50-58 | the children left are fewer, carry no more items, are each justified, and include no empty menu |
| FilterTree.FilterVisitAgrees | packages/ckeditor5-ui/src/dropdown/menu/search/filterdropdownmenutree.ts:38-65 | the filter walk removes exactly the subtrees `FilterNode` drops and leaves the others as `FilterNode` gives them |
| FilterTree.FilterKidsAgree | packages/ckeditor5-ui/src/dropdown/menu/search/filterdropdownmenutree.ts:50-58 | the children the walk leaves are those `FilterKids` gives |
| FilterTree.KeptPositions | packages/ckeditor5-ui/src/dropdown/menu/search/filterdropdownmenutree.ts:51-58 | the positions of the children kept are valid and strictly increasing |
| FilterTree.FilterKeepsOrder | packages/ckeditor5-ui/src/dropdown/menu/search/filterdropdownmenutree.ts:51-58 | the filter only removes siblings: the children left keep their relative order |
| FilterTree.SnocKeepsOrder | packages/ckeditor5-ui/src/dropdown/menu/search/filterdropdownmenutree.ts:51-58 | keeping the last child extends the order correspondence by one |
| FilterTree.FilterDropdownMenuTree | packages/ckeditor5-ui/src/dropdown/menu/search/filterdropdownmenutree.ts:23-72 | the result is the filtered copy, none of whose node objects is one of the original's (the original is not modified); its flat list holds exactly the items that match or lie in a matching menu, in walk order; `totalItemsCount` is the number of items in the input; `resultsCount` is the number of items left, at most the total, the same as filtering the original |
| FilterTree.FilterRespectsCongruence | packages/ckeditor5-ui/src/dropdown/menu/search/filterdropdownmenutree.ts:35-38 | filtering the copy gives what filtering the original would, up to node identities |
| FilterTree.FilterKidsRespectCongruence | packages/ckeditor5-ui/src/dropdown/menu/search/filterdropdownmenutree.ts:35-38 | the same for lists of children |
| FilterTree.AllMatchKeepsAll | packages/ckeditor5-ui/tests/dropdown/menu/search/filterdropdownmenutreebyregexp.js:59-66 | a predicate every node matches keeps every item |
| FilterTree.AllMatchKeepsAllKids | packages/ckeditor5-ui/tests/dropdown/menu/search/filterdropdownmenutreebyregexp.js:59-66 | the same for lists of children |
| FilterTree.NoMatchKeepsNothing | packages/ckeditor5-ui/src/dropdown/menu/search/filterdropdownmenutree.ts:48-58 | a predicate no node matches keeps no item |
| FilterTree.NoMatchKeepsNothingKids | packages/ckeditor5-ui/src/dropdown/menu/search/filterdropdownmenutree.ts:48-58 | the same for lists of children |
| FilterTree.AllMatchMarksKeptFound | packages/ckeditor5-ui/tests/dropdown/menu/search/filterdropdownmenutreebyregexp.js:59-88 | with a predicate every node matches, every child kept is marked `found` |
| FilterTree.AllMatchKeepsNonEmpty | packages/ckeditor5-ui/src/dropdown/menu/search/filterdropdownmenutree.ts:41-53 | with a predicate every node matches, a child is kept if and only if it is an item or a menu with children |
| FilterTree.KeptPositionsSnoc | packages/ckeditor5-ui/src/dropdown/menu/search/filterdropdownmenutree.ts:51-58 | the positions kept from a list are those kept from all but its last child, plus the last one if it stays |
| FilterTree.KeptPositionsExact | packages/ckeditor5-ui/src/dropdown/menu/search/filterdropdownmenutree.ts:50-58 | a child's position is among the kept positions if and only if the filter keeps that child |
| FilterTree.FilterKidsKeepsMatches | packages/ckeditor5-ui/src/dropdown/menu/search/filterdropdownmenutree.ts:41-45 | every matching item child, and every matching menu child with children, is among the children left, marked `found` |
| FilterTree.MatchedMenuSelectsAll | packages/ckeditor5-ui/src/dropdown/menu/search/filterdropdownmenutree.ts:41-45 | below a matching menu every item is reported |
| FilterTree.FilterNodeSurvivors | packages/ckeditor5-ui/src/dropdown/menu/search/filterdropdownmenutree.ts:38-65 | outside every matching menu, filtering a subtree keeps exactly the items that match or lie in a matching menu, in order; a removed subtree had none |
| FilterTree.FilterKidsSurvivors | packages/ckeditor5-ui/src/dropdown/menu/search/filterdropdownmenutree.ts:50-58 | the same for a list of children |
| FilterTree.FilterFindsSelected | packages/ckeditor5-ui/src/dropdown/menu/search/filterdropdownmenutree.ts:38-68 | the filtered tree's flat list holds exactly the items of the tree that match or lie in a matching menu, in walk order |
| FilterTree.FilterNodeIds | packages/ckeditor5-ui/src/dropdown/menu/search/filterdropdownmenutree.ts:38-65 | the filter adds no node object: every node left was in the subtree |
| FilterTree.FilterKidsIds | packages/ckeditor5-ui/src/dropdown/menu/search/filterdropdownmenutree.ts:50-58 | the same for a list of children |
| FilterTree.FilterAsWrittenKeepsItems | packages/ckeditor5-ui/src/dropdown/menu/search/filterdropdownmenutree.ts:55-62 | as written, the bare-function `Item` handler is never called: the walk removes no item and marks none `found`, and removes a subtree only when it holds no item (Findings) |
| FilterTree.FilterAsWrittenKeepsKids | packages/ckeditor5-ui/src/dropdown/menu/search/filterdropdownmenutree.ts:55-62 | the same for a list of children (Findings) |
| FilterTree.RegExpReadsOnlyText | packages/ckeditor5-ui/src/dropdown/menu/search/filterdropdownmenutreebyregexp.ts:27-33 | the regular-expression predicate reads only the normalised `text`, never the raw label |
| FilterTree.FilterDropdownMenuTreeByRegExp | packages/ckeditor5-ui/src/dropdown/menu/search/filterdropdownmenutreebyregexp.ts:22-36 | the result is the filter with the expression as predicate: a new copy whose flat list holds exactly the items whose text, or whose enclosing menu's text, the expression matches; with no expression every item is a result |
| GroupTree.FirstQualifying | packages/ckeditor5-ui/src/dropdown/menu/search/groupdropdowntreebyfirstfoundparent.ts:18-26 | `find` returns the first ancestor that qualifies: every earlier one does not, and the one found does |
| GroupTree.GroupHead | packages/ckeditor5-ui/src/dropdown/menu/search/groupdropdowntreebyfirstfoundparent.ts:18-26 | the head is an ancestor of the item. As written it is the root or a found node. As intended it is the outermost found menu, or else the item's holder when no ancestor menu is found |
| GroupTree.Group | packages/ckeditor5-ui/src/dropdown/menu/search/groupdropdowntreebyfirstfoundparent.ts:16-37 | the `reduce` yields a well-formed `Map` |
| GroupTree.GroupIsPartition | packages/ckeditor5-ui/src/dropdown/menu/search/groupdropdowntreebyfirstfoundparent.ts:28-32 | the keys are exactly the heads of the entries, and each head's list is its entries' nodes in flat-list order |
| GroupTree.NothingUnderAbsentHead | packages/ckeditor5-ui/src/dropdown/menu/search/groupdropdowntreebyfirstfoundparent.ts:28-32 | a node that heads no entry has no items under it |
| GroupTree.FlatEntriesHaveHeads | packages/ckeditor5-ui/src/dropdown/menu/search/groupdropdowntreebyfirstfoundparent.ts:18-26 | in a menu tree the `find` the code asserts with `!` always succeeds |
| GroupTree.GroupDropdownTreeByFirstFoundParent | packages/ckeditor5-ui/src/dropdown/menu/search/groupdropdowntreebyfirstfoundparent.ts:13-38 | the result is the grouping of the tree's flat list |
| GroupTree.GroupStep | packages/ckeditor5-ui/src/dropdown/menu/search/groupdropdowntreebyfirstfoundparent.ts:28-34 | one step of the `reduce` adds the entry to its head's group, creating the group if needed |
| GroupTree.AsWrittenHeadIsRoot | packages/ckeditor5-ui/src/dropdown/menu/search/groupdropdowntreebyfirstfoundparent.ts:20-22 | as written, an ancestor list starting with the root always picks the root (Findings) |
| GroupTree.AsWrittenGroupsUnderRoot | packages/ckeditor5-ui/src/dropdown/menu/search/groupdropdowntreebyfirstfoundparent.ts:18-26 | as written, all items of a menu tree land in one group, under the root (Findings) |
| GroupTree.OneHeadOneGroup | packages/ckeditor5-ui/src/dropdown/menu/search/groupdropdowntreebyfirstfoundparent.ts:28-32 | entries that all have the same head form one group |
| GroupTree.ExampleFlat | packages/ckeditor5-ui/tests/dropdown/menu/search/flattendropdownmenutree.js:24-44 | the flat list of a root holding a menu holding one item is that item with the ancestors root and menu |
| GroupTree.GroupingCounterexample | packages/ckeditor5-ui/tests/dropdown/menu/search/groupdropdowntreebyfirstfoundparent.js:33-44 | on a found item inside an unfound menu: as written the item is grouped under the root; as intended it is grouped under the menu (Findings) |
| TreeBuilder.Views | packages/ckeditor5-ui/src/dropdown/menu/search/createtreefromflattendropdownmenuslist.ts:30-43 | the map's keys are the menu views, one per menu, in list order |
| TreeBuilder.IndexOfView | packages/ckeditor5-ui/src/dropdown/menu/search/createtreefromflattendropdownmenuslist.ts:66-68 | `menusTreeMap.get( view )` finds the first menu with that view, or nothing when no menu has it |
| TreeBuilder.Contributions | packages/ckeditor5-ui/src/dropdown/menu/search/createtreefromflattendropdownmenuslist.ts:50-72 | a menu gets at most one child per panel entry |
| TreeBuilder.ContributionsAppend | packages/ckeditor5-ui/src/dropdown/menu/search/createtreefromflattendropdownmenuslist.ts:50-72 | the children of two stretches of a panel list are the children of each, in order |
| TreeBuilder.SkippedEntryAddsNothing | packages/ckeditor5-ui/src/dropdown/menu/search/createtreefromflattendropdownmenuslist.ts:51-53 | a non-list-item entry, a list item holding neither a button nor a menu, and a nested menu missing from the map add no child |
| TreeBuilder.GroupsMergeInOrder | packages/ckeditor5-ui/tests/dropdown/menu/search/createtreefromflattendropdownmenuslist.js:30-45 | two groups of items separated by a separator become one children list, first group first |
| TreeBuilder.TopLevel | packages/ckeditor5-ui/src/dropdown/menu/search/createtreefromflattendropdownmenuslist.ts:81-83 | the root's children are exactly the nodes of the menus without a parent menu, in list order |
| TreeBuilder.AddMenuNodes | packages/ckeditor5-ui/src/dropdown/menu/search/createtreefromflattendropdownmenuslist.ts:30-43 | the `reduce` makes one unfilled `Menu` node per menu with its label's metadata, keys the map by the views in order, and keeps every existing node |
| TreeBuilder.AddMenuNode | packages/ckeditor5-ui/src/dropdown/menu/search/createtreefromflattendropdownmenuslist.ts:33-40 | one step of the `reduce` adds the next menu's node and its map entry |
| TreeBuilder.AddEntry | packages/ckeditor5-ui/src/dropdown/menu/search/createtreefromflattendropdownmenuslist.ts:51-71 | one panel entry pushes onto the menu's children exactly what the entry contributes, a flat button as a node object made by this call; no other node changes |
| TreeBuilder.FillMenu | packages/ckeditor5-ui/src/dropdown/menu/search/createtreefromflattendropdownmenuslist.ts:47-72 | after the panel loop the menu's node has the children its whole panel list describes, and its item children are exactly the node objects made during the loop, in order |
| TreeBuilder.FillStep | packages/ckeditor5-ui/src/dropdown/menu/search/createtreefromflattendropdownmenuslist.ts:50-72 | adding one more entry's children keeps the list realising the panel so far |
| TreeBuilder.FillDone | packages/ckeditor5-ui/src/dropdown/menu/search/createtreefromflattendropdownmenuslist.ts:50-72 | once the whole panel list is added, the menu is built |
| TreeBuilder.ItemIdsStep | packages/ckeditor5-ui/src/dropdown/menu/search/createtreefromflattendropdownmenuslist.ts:59-63 | the item children so far, then those of one more entry, are all the node objects made so far, in order |
| TreeBuilder.KeptViewsAreParentless | packages/ckeditor5-ui/src/dropdown/menu/search/createtreefromflattendropdownmenuslist.ts:82 | `mapFilter` with `!tree.menu.parentMenuView` keeps the views of the parentless menus, in list order |
| TreeBuilder.TopLevelChildren | packages/ckeditor5-ui/src/dropdown/menu/search/createtreefromflattendropdownmenuslist.ts:81-83 | the values `mapFilter` keeps, in order, are the nodes of the parentless menus |
| TreeBuilder.AttachRoot | packages/ckeditor5-ui/src/dropdown/menu/search/createtreefromflattendropdownmenuslist.ts:76-83 | the root is a new node object whose children are the given list, and no other node changes |
| TreeBuilder.TopLevelNodes | packages/ckeditor5-ui/src/dropdown/menu/search/createtreefromflattendropdownmenuslist.ts:81-83 | the root's new children list is the nodes of the parentless menus, in list order |
| TreeBuilder.FillNextMenu | packages/ckeditor5-ui/src/dropdown/menu/search/createtreefromflattendropdownmenuslist.ts:46-73 | one turn of the outer loop fills the next menu, keeps the earlier ones filled, and appends the items it made to theirs |
| TreeBuilder.OtherMenusKept | packages/ckeditor5-ui/src/dropdown/menu/search/createtreefromflattendropdownmenuslist.ts:46-73 | filling one menu leaves the menus before it filled and the ones after it unfilled |
| TreeBuilder.NextMenuItems | packages/ckeditor5-ui/src/dropdown/menu/search/createtreefromflattendropdownmenuslist.ts:46-73 | filling one menu appends its item children to those of the menus before it |
| TreeBuilder.BuildMenuTree | packages/ckeditor5-ui/src/dropdown/menu/search/createtreefromflattendropdownmenuslist.ts:28-86 | every menu's node carries its view and label metadata and the children its panel list describes; the item children of all menus, menu after menu, are the node objects made between the menus and the root, so each is new and none is shared; the new root holds the parentless menus; no existing node changes |
| TreeBuilder.FillMenus | packages/ckeditor5-ui/src/dropdown/menu/search/createtreefromflattendropdownmenuslist.ts:46-73 | after the second pass every menu is filled, the menus' item children are the node objects made during the pass, and only the menus' nodes changed among the old ones |
| TreeBuilder.BuiltFromSteps | packages/ckeditor5-ui/src/dropdown/menu/search/createtreefromflattendropdownmenuslist.ts:28-86 | the three passes together give the built tree |
| TreeBuilder.RootKeepsItems | packages/ckeditor5-ui/src/dropdown/menu/search/createtreefromflattendropdownmenuslist.ts:76-83 | adding the root changes no menu node, so the menus' item children stay the node objects made before the root |
| TreeBuilder.BuiltItemsAreNew | packages/ckeditor5-ui/src/dropdown/menu/search/createtreefromflattendropdownmenuslist.ts:59-63 | the item children of a built tree are pairwise different node objects, none of which existed before the call |
| TreeBuilder.EmptyListGivesBareRoot | packages/ckeditor5-ui/tests/dropdown/menu/search/createtreefromflattendropdownmenuslist.js:20-24 | an empty menu list gives a new root without children |
| TreeBuilder.CreateTreeFromFlattenDropdownMenusList | packages/ckeditor5-ui/src/dropdown/menu/search/createtreefromflattendropdownmenuslist.ts:28-86 | the tree of the list (as `BuildMenuTree`: filled menus, new and distinct item nodes, the parentless menus under a new root), with every label's metadata from `createTextSearchMetadata` |
| TreeBuilder.CreateTreeFromFlattenMenuViews | packages/ckeditor5-ui/src/dropdown/menu/search/createtreefromflattenmenuviews.ts:23-77 | the same tree as the first builder, whose body it repeats: filled menus, new and distinct item nodes, the parentless menus under a new root |

## Left out

- `walkOverDropdownMenuTreeItems` hands its hooks a `visitor` in the metadata. No client uses it, so the model leaves it out.
- Walker hooks are limited to the callbacks the engine's own clients pass (the `Hook` datatype), not arbitrary closures.
- TreeWalker.WalkOverDropdownMenuTreeItems requires that no node holds the same child object twice when a hook may remove nodes. With such duplicates, `indexOf` would remove the first copy while the cursor sits on a later one. No builder produces such a tree unless a panel list names the same menu view twice.
- LegacyTreeWalker.WalkOverDropdownMenuViewsTreeItems requires walkers that cannot remove nodes. Its metadata has no `parent`, so its hooks cannot call the removal helpers.
- LegacyTreeWalker.LegacyMatchesMain relates the two walkers only for hooks that only look. Hooks that change the tree are not compared.
- The ancestor arrays are modelled as snapshots. In the older walker the array is live and later pushes would show through it. The model records its contents at the call, which is all a hook can observe during the call.
- The walker's `console.warn` branch for an unknown node kind is not modelled. `Tree` has exactly the three kinds, so the branch cannot be reached.
- The compile-time depth bound `MaxDropdownTreeMenuDepth` is not modelled. Trees of any depth are allowed.
- TreeClone.Clone copies a subtree that occurs twice (a node object shared by two parents) as two separate copies. lodash's `cloneDeepWith` keeps such sharing. The builders share a node only when a menu view appears in two panel lists.
- TreeClone.Clone copies the search metadata by value. Views are kept by identity (`ViewId`), as the customizer of `cloneDeepWith` does.
- FilterTree.FilterDropdownMenuTree gives its predicate a node's search metadata, not the node. `filterFn` receives the whole node (filterdropdownmenutree.ts:32). The only predicate the source builds, in `filterDropdownMenuTreeByRegExp`, reads nothing but `search`. A predicate that looks at a node's kind, view or `found` flag is not modelled.
- FilterTree.FilterDropdownMenuTree requires every node identity of the input to lie below `next`, the allocator of new objects. This says only that the objects the copy makes are new.
- The regular-expression engine is a parameter, a test on strings; `RegExp` syntax and the `g` flag's `lastIndex` state are not modelled. `( search.text || '' )` is `search.text`, which is always a string here.
- `SearchMetadata.LowerChar` covers ASCII letters only. Unicode case mapping, as in `String.prototype.toLowerCase`, is not modelled.
- TreeBuilder.BuildMenuTree requires that no menu view occurs twice in the list. With a duplicate, the source would overwrite the map entry and fill the same node twice.
- The builders take the label-to-metadata function as the parameter `searchOf`. The public builders pass `CreateTextSearchMetadata`, so their results are stated with it.
- The root object is created after the top-level list is computed, not before it. Nothing reads the root in between, so the result is the same.
- The views themselves (`DropdownMenuView`, its panel and button views, `instanceof` and the type guards) are reduced to the `MenuView` and `PanelEntry` data the builders read.
- `searchDropdownMenuTree.ts`, the list views and the UI around them are not part of this model.

## Findings

| source | as written | input that shows it | evidently intended | confidence | as-written member | corrected member |
|---|---|---|---|---|---|---|
| packages/ckeditor5-ui/src/dropdown/menu/search/walkoverdropdownmenutreeitems.ts:26-29 | `const { enter, leave } = walkers[ node.kind ] \|\| {}` finds neither hook on a bare function, so both default to no-ops | `Item: () => { totalItemsCount++ }` (flattener and both counters) and the filter's `Item` handler (filterdropdownmenutree.ts:55-62) are never called: the flat list is empty, both counts are 0, and the filter removes no item and marks none `found` | a bare-function handler runs as the `enter` hook, as the flattener's, counters' and filter's tests expect | high, not executed | TreeWalker.BareFunctionsIgnored, FlattenTree.FlattenAsWrittenIsEmpty, ItemCounters.CountAsWrittenIsZero, FilterTree.FilterAsWrittenKeepsItems | FlattenTree.RecordedItems, FlattenTree.FlattenDropdownMenuTree, ItemCounters.GetTotalDropdownMenuTreeFlatItemsCount, FilterTree.FilterVisitAgrees, FilterTree.FilterDropdownMenuTree (all read with `FnAsEnter`) |
| packages/ckeditor5-ui/src/dropdown/menu/search/groupdropdowntreebyfirstfoundparent.ts:18-26 | `find` stops at the first ancestor that is the root or found, and every ancestor list starts with the root | a root holding an unfound menu holding a found item: the item is grouped under the root (this shows only once the first finding is corrected; as written the flat list the grouping reads is empty and no item is ever `found`) | group under the first found menu, else under the menu holding the item, as the grouping tests expect | high, not executed | GroupTree.AsWrittenGroupsUnderRoot, GroupTree.GroupingCounterexample | GroupTree.GroupIsPartition, GroupTree.GroupHead (rule `FirstFoundMenu`) |
| packages/ckeditor5-ui/src/dropdown/menu/search/tryremovedropdowntreechild.ts:26 | `splice( indexOf( child ), 1 )` with no check; `indexOf` returns -1 for an absent child and `splice( -1, 1 )` removes the last element | a parent with children `[1, 2]` asked to remove 3 loses 2 | remove only a child that is present, as the newer `tryRemoveDropdownMenuTreeChild` does | high, not executed | TreeChildRemoval.UnguardedDropsLastWhenAbsent, TreeChildRemoval.UnguardedRemovalOfStranger | TreeChildRemoval.Detach, TreeChildRemoval.TryRemoveDropdownMenuTreeChild |
