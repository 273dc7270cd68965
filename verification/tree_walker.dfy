/**
 * `walkOverDropdownMenuTreeItems`: a depth-first walk calling each node kind's `enter` hook
 * before the node's children and its `leave` hook after them.
 *
 * The hooks are the callbacks the search engine's clients pass, made into data: recording the
 * visit, marking a matching node `found` and skipping its children, keeping an item only if it
 * matches, and pruning a menu left without children. A recorded visit is an `Event`; a client
 * that counts or collects items does so from the events.
 *
 * The walk works on `Tree` values: a visit returns the subtree as its hooks left it, and a child
 * whose hook removed it from its parent is taken out of the parent's `children` by the guarded
 * removal as soon as its visit returns.
 */
module TreeWalker {
  import opened SearchMetadata
  import opened MenuTree
  import opened TreeChildRemoval

  datatype Phase = Enter | Leave

  /**
   * One hook call: which hook, the node as the hook received it, and the snapshot of its
   * ancestors, outermost first, that it was given.
   */
  datatype Event = Event(phase: Phase, node: Tree, parents: seq<Tree>)

  /** The callbacks a hook slot can hold. */
  datatype Hook =
    | Nop
      /** Records the call; returns `false` (skip the children) when `stop` is set. */
    | Record(stop: bool)
      /** When the predicate holds: sets `found` and returns `false`. */
    | MarkFoundAndSkip(pred: TreeSearchMetadata -> bool)
      /** Removes the node from its parent when the predicate fails, else sets `found`. */
    | KeepIfMatch(pred: TreeSearchMetadata -> bool)
      /** Removes the node from its parent when it has no children. */
    | PruneIfEmpty

  /** What `walkers[ node.kind ]` holds: nothing, an `{ enter, leave }` object, or a bare function. */
  datatype Handler = NoHandler | Obj(enter: Hook, leave: Hook) | Fn(f: Hook)

  datatype Walkers = Walkers(root: Handler, menu: Handler, item: Handler)

  /**
   * How a bare-function handler is read. `Destructured` is the code as written: destructuring
   * `enter` and `leave` out of a function finds neither, so both default to no-ops. `FnAsEnter`
   * runs the function as the `enter` hook, which is what every client of the walker relies on.
   */
  datatype Reading = FnAsEnter | Destructured

  function HandlerFor(w: Walkers, k: NodeKind): Handler {
    match k
    case RootKind => w.root
    case MenuKind => w.menu
    case ItemKind => w.item
  }

  function EnterHook(h: Handler, rd: Reading): Hook {
    match h
    case NoHandler => Nop
    case Obj(e, _) => e
    case Fn(f) => if rd == FnAsEnter then f else Nop
  }

  function LeaveHook(h: Handler, rd: Reading): Hook {
    match h
    case NoHandler => Nop
    case Obj(_, l) => l
    case Fn(_) => Nop
  }

  /** Hooks that may remove their node from its parent. */
  predicate Removes(h: Hook) {
    h.KeepIfMatch? || h.PruneIfEmpty?
  }

  predicate HandlerRemoves(h: Handler) {
    match h
    case NoHandler => false
    case Obj(e, l) => Removes(e) || Removes(l)
    case Fn(f) => Removes(f)
  }

  predicate MayRemove(w: Walkers) {
    HandlerRemoves(w.root) || HandlerRemoves(w.menu) || HandlerRemoves(w.item)
  }

  /** Hooks that only look: they neither change the node nor skip its children. */
  predicate Observes(h: Hook) {
    h.Nop? || h == Record(false)
  }

  predicate HandlerObserves(h: Handler) {
    match h
    case NoHandler => true
    case Obj(e, l) => Observes(e) && Observes(l)
    case Fn(f) => Observes(f)
  }

  predicate ObserveOnly(w: Walkers) {
    HandlerObserves(w.root) && HandlerObserves(w.menu) && HandlerObserves(w.item)
  }

  /** Hooks that only look cannot remove anything. */
  lemma ObserversRemoveNothing(w: Walkers)
    requires ObserveOnly(w)
    ensures !MayRemove(w)
  {
  }

  /** What one hook call does to the node it is called on. */
  datatype HookResult = HookResult(tree: Tree, detach: bool, skip: bool, events: seq<Event>)

  /**
   * One hook call on the node `t` given the ancestors `parents`: the node as the hook leaves it,
   * whether the hook removed it from its parent, whether it returned `false`, and what it recorded.
   */
  function RunHook(h: Hook, phase: Phase, t: Tree, parents: seq<Tree>): (r: HookResult)
    ensures r.tree.id == t.id && r.tree.Kind() == t.Kind() && r.tree.Kids() == t.Kids()
    ensures r.detach ==> Removes(h)
    ensures Observes(h) ==> r.tree == t && !r.skip
  {
    match h
    case Nop => HookResult(t, false, false, [])
    case Record(stop) => HookResult(t, false, stop, [Event(phase, t, parents)])
    case MarkFoundAndSkip(pred) =>
      if !t.Root? && pred(t.search) then HookResult(t.WithFound(), false, true, [])
      else HookResult(t, false, false, [])
    case KeepIfMatch(pred) =>
      if t.Root? then HookResult(t, false, false, [])
      else if !pred(t.search) then HookResult(t, true, false, [])
      else HookResult(t.WithFound(), false, false, [])
    case PruneIfEmpty => HookResult(t, !t.Item? && t.kids == [], false, [])
  }

  /** The result of visiting one subtree. */
  datatype Visited = Visited(tree: Tree, detached: bool, events: seq<Event>)

  /**
   * The ancestors handed to the children of a node whose ancestors are `parents`, given the node
   * as its `enter` hook left it: the start node is not pushed a second time.
   */
  function Below(parents: seq<Tree>, t: Tree, isStart: bool): seq<Tree> {
    if isStart then parents else parents + [t]
  }

  /**
   * Visiting the subtree `t` whose ancestors are `parents` (for the start node, `[ start ]`):
   * the subtree afterwards, whether `t` removed itself from its parent, and the recorded events.
   * `enter` sees the node as it was; unless it returned `false` every child is visited in order;
   * `leave` sees the node with its children as they came out of their visits.
   */
  function VisitSpec(w: Walkers, rd: Reading, t: Tree, parents: seq<Tree>, isStart: bool): (v: Visited)
    ensures v.tree.id == t.id && v.tree.Kind() == t.Kind()
    decreases t
  {
    var h := HandlerFor(w, t.Kind());
    var e := RunHook(EnterHook(h, rd), Enter, t, parents);
    var kids := if t.Item? || e.skip then ([], []) else VisitKids(w, rd, t.kids, Below(parents, e.tree, isStart));
    var mid := if t.Item? || e.skip then e.tree else e.tree.WithKids(kids.0);
    var l := RunHook(LeaveHook(h, rd), Leave, mid, parents);
    Visited(l.tree, e.detach || l.detach, e.events + kids.1 + l.events)
  }

  /**
   * Visiting the children `ks` in order with the ancestors `below`: the children left in place
   * (those whose visit did not remove them), and the events of all the visits.
   */
  function VisitKids(w: Walkers, rd: Reading, ks: seq<Tree>, below: seq<Tree>): (r: (seq<Tree>, seq<Event>))
    ensures |r.0| <= |ks|
    decreases ks
  {
    if ks == [] then ([], [])
    else
      var init := ks[..|ks| - 1];
      var p := VisitKids(w, rd, init, below);
      var v := VisitSpec(w, rd, ks[|ks| - 1], below, false);
      (p.0 + (if v.detached then [] else [v.tree]), p.1 + v.events)
  }

  /** A walk whose hooks cannot remove anything removes nothing. */
  lemma NoRemovalNoDetach(w: Walkers, rd: Reading, t: Tree, parents: seq<Tree>, isStart: bool)
    requires !MayRemove(w)
    ensures !VisitSpec(w, rd, t, parents, isStart).detached
  {
    var h := HandlerFor(w, t.Kind());
    assert !Removes(EnterHook(h, rd)) && !Removes(LeaveHook(h, rd));
  }

  /** The children left after their visits are some of the children, in order: no identity is new. */
  lemma {:induction false} VisitKidsIds(w: Walkers, rd: Reading, ks: seq<Tree>, below: seq<Tree>)
    ensures forall x :: x in IdsOf(VisitKids(w, rd, ks, below).0) ==> x in IdsOf(ks)
    decreases ks
  {
    if ks != [] {
      var init := ks[..|ks| - 1];
      var p := VisitKids(w, rd, init, below);
      var v := VisitSpec(w, rd, ks[|ks| - 1], below, false);
      VisitKidsIds(w, rd, init, below);
      IdsOfAppend(init, [ks[|ks| - 1]]);
      IdsOfAppend(p.0, if v.detached then [] else [v.tree]);
      assert init + [ks[|ks| - 1]] == ks;
    }
  }

  /** Visiting one more child extends the visit of the ones before it. */
  lemma VisitKidsSnoc(w: Walkers, rd: Reading, ks: seq<Tree>, k: nat, below: seq<Tree>)
    requires k < |ks|
    ensures var p := VisitKids(w, rd, ks[..k], below);
      var v := VisitSpec(w, rd, ks[k], below, false);
      VisitKids(w, rd, ks[..k + 1], below) == (p.0 + (if v.detached then [] else [v.tree]), p.1 + v.events)
  {
    assert ks[..k + 1][..k] == ks[..k];
  }

  /** The child at the cursor is the next child not yet visited. */
  lemma ChildStepAt(kids: seq<Tree>, k: nat, children: seq<Tree>, done: seq<Tree>)
    requires k < |kids| && children == done + kids[k..]
    ensures |done| < |children| && children[|done|] == kids[k]
  {
  }

  /**
   * One turn of the children loop, when the visit `v` of the child at the cursor, `kids[k]`,
   * removed it: taking it out of `children` gives the children after `k + 1` visits, and the
   * cursor then holds the next sibling, if any, which is a different node.
   */
  lemma ChildRemoved(w: Walkers, rd: Reading, kids: seq<Tree>, k: nat, below: seq<Tree>, children: seq<Tree>, v: Visited)
    requires DistinctIds(kids)
    requires k < |kids| && children == VisitKids(w, rd, kids[..k], below).0 + kids[k..]
    requires v == VisitSpec(w, rd, kids[k], below, false) && v.detached
    ensures var done := VisitKids(w, rd, kids[..k], below).0;
      var next := RemoveKid(children, kids[k].id);
      next == VisitKids(w, rd, kids[..k + 1], below).0 + kids[k + 1..] &&
      |VisitKids(w, rd, kids[..k + 1], below).0| == |done| &&
      !(|done| < |next| && next[|done|].id == kids[k].id)
  {
    var done := VisitKids(w, rd, kids[..k], below).0;
    var child := kids[k];
    var rest := kids[k + 1..];
    assert child.id !in IdsOf(done) by {
      VisitKidsIds(w, rd, kids[..k], below);
    }
    assert children == done + [child] + rest by {
      assert kids[k..] == [child] + rest;
    }
    assert rest == [] || rest[0].id != child.id by {
      if rest != [] {
        assert rest[0] == kids[k + 1];
      }
    }
    RemoveAtCursor(done, child, rest, children);
    assert VisitKids(w, rd, kids[..k + 1], below).0 == done by {
      VisitKidsSnoc(w, rd, kids, k, below);
      assert done + [] == done;
    }
  }

  /** Taking out the child at the cursor leaves the others, and the cursor on a different node. */
  lemma RemoveAtCursor(done: seq<Tree>, child: Tree, rest: seq<Tree>, children: seq<Tree>)
    requires child.id !in IdsOf(done) && children == done + [child] + rest
    requires rest == [] || rest[0].id != child.id
    ensures var next := RemoveKid(children, child.id);
      next == done + rest && !(|done| < |next| && next[|done|].id == child.id)
  {
    RemoveKidAt(done, child, rest);
    if rest != [] {
      assert (done + rest)[|done|] == rest[0];
    }
  }

  /**
   * One turn of the children loop, when the visit `v` of the child at the cursor, `kids[k]`, kept
   * it: putting its new version in its place gives the children after `k + 1` visits, and the
   * cursor still finds the same node there.
   */
  lemma ChildKept(w: Walkers, rd: Reading, kids: seq<Tree>, k: nat, below: seq<Tree>, children: seq<Tree>, v: Visited)
    requires k < |kids| && children == VisitKids(w, rd, kids[..k], below).0 + kids[k..]
    requires v == VisitSpec(w, rd, kids[k], below, false) && !v.detached
    ensures var done := VisitKids(w, rd, kids[..k], below).0;
      var next := children[|done| := v.tree];
      next == VisitKids(w, rd, kids[..k + 1], below).0 + kids[k + 1..] &&
      |VisitKids(w, rd, kids[..k + 1], below).0| == |done| + 1 &&
      next[|done|].id == kids[k].id
  {
    var done := VisitKids(w, rd, kids[..k], below).0;
    var rest := kids[k + 1..];
    assert children == done + [kids[k]] + rest by {
      assert kids[k..] == [kids[k]] + rest;
    }
    assert VisitKids(w, rd, kids[..k + 1], below).0 == done + [v.tree] by {
      VisitKidsSnoc(w, rd, kids, k, below);
    }
    ReplaceAtCursor(done, kids[k], v.tree, rest);
  }

  lemma ReplaceAtCursor(done: seq<Tree>, was: Tree, now: Tree, rest: seq<Tree>)
    ensures (done + [was] + rest)[|done| := now] == done + [now] + rest
  {
  }

  /** Visiting one more child appends that child's events. */
  lemma ChildEvents(w: Walkers, rd: Reading, kids: seq<Tree>, k: nat, below: seq<Tree>, v: Visited)
    requires k < |kids| && v == VisitSpec(w, rd, kids[k], below, false)
    ensures VisitKids(w, rd, kids[..k + 1], below).1 == VisitKids(w, rd, kids[..k], below).1 + v.events
  {
    VisitKidsSnoc(w, rd, kids, k, below);
  }

  /**
   * The visitor on one node. `stack` is the walk's shared ancestor stack; the hooks get a copy of
   * it taken before the node is pushed, and the stack is handed back as it was received.
   */
  method Visit(w: Walkers, rd: Reading, t: Tree, stack: seq<Tree>, isStart: bool)
    returns (v: Visited, restored: seq<Tree>)
    requires MayRemove(w) ==> DistinctSiblings(t)
    ensures v == VisitSpec(w, rd, t, stack, isStart)
    ensures restored == stack
    decreases t
  {
    var parents := stack;
    var h := HandlerFor(w, t.Kind());
    var e := RunHook(EnterHook(h, rd), Enter, t, parents);
    var st := stack;
    if !isStart {
      st := st + [e.tree];
    }
    assert st == Below(stack, e.tree, isStart);
    ghost var spec := if t.Item? || e.skip then ([], []) else VisitKids(w, rd, t.kids, st);
    var node := e.tree;
    var kidEvents := [];
    if !e.skip && !t.Item? {
      var kids;
      kids, kidEvents, st := VisitChildren(w, rd, t.kids, st);
      node := e.tree.WithKids(kids);
    }
    assert kidEvents == spec.1;
    var l := RunHook(LeaveHook(h, rd), Leave, node, parents);
    if !isStart {
      st := st[..|st| - 1];
    }
    v := Visited(l.tree, e.detach || l.detach, e.events + kidEvents + l.events);
    restored := st;
  }

  /**
   * The body of the children loop: visits the child at the cursor `i`, which is `kids[k]`, takes it
   * out of `children` when its visit removed it, and moves the cursor on only when the same child
   * is still at the cursor.
   */
  method VisitChildAt(w: Walkers, rd: Reading, children: seq<Tree>, i: nat, stack: seq<Tree>,
                      ghost kids: seq<Tree>, ghost k: nat)
    returns (children': seq<Tree>, i': nat, events: seq<Event>, restored: seq<Tree>)
    requires MayRemove(w) ==> DistinctIds(kids) && forall j :: 0 <= j < |kids| ==> DistinctSiblings(kids[j])
    requires k < |kids| && children == VisitKids(w, rd, kids[..k], stack).0 + kids[k..]
    requires i == |VisitKids(w, rd, kids[..k], stack).0|
    ensures children' == VisitKids(w, rd, kids[..k + 1], stack).0 + kids[k + 1..]
    ensures i' == |VisitKids(w, rd, kids[..k + 1], stack).0|
    ensures VisitKids(w, rd, kids[..k + 1], stack).1 == VisitKids(w, rd, kids[..k], stack).1 + events
    ensures restored == stack
    decreases kids, k
  {
    ChildStepAt(kids, k, children, VisitKids(w, rd, kids[..k], stack).0);
    var child := children[i];
    var v;
    v, restored := Visit(w, rd, child, stack, false);
    ChildEvents(w, rd, kids, k, stack, v);
    if v.detached {
      assert MayRemove(w) by {
        if !MayRemove(w) {
          NoRemovalNoDetach(w, rd, child, stack, false);
        }
      }
      ChildRemoved(w, rd, kids, k, stack, children, v);
      children' := RemoveKid(children, child.id);
    } else {
      ChildKept(w, rd, kids, k, stack, children, v);
      children' := children[i := v.tree];
    }
    i' := i;
    if i < |children'| && children'[i].id == child.id {
      i' := i + 1;
    }
    events := v.events;
  }

  /**
   * The loop over `node.children`, where `kids` are the children as the loop finds them: the child
   * at the cursor is visited, and the cursor moves on only when that child is still in its place
   * afterwards, so a child that removed itself is not followed by a skipped sibling.
   */
  method VisitChildren(w: Walkers, rd: Reading, kids: seq<Tree>, stack: seq<Tree>)
    returns (left: seq<Tree>, events: seq<Event>, restored: seq<Tree>)
    requires MayRemove(w) ==> DistinctIds(kids) && forall j :: 0 <= j < |kids| ==> DistinctSiblings(kids[j])
    ensures left == VisitKids(w, rd, kids, stack).0 && events == VisitKids(w, rd, kids, stack).1
    ensures restored == stack
    decreases kids
  {
    var children := kids;
    var i := 0;
    ghost var k := 0;
    events := [];
    restored := stack;
    assert kids[..0] == [] && kids[0..] == kids;
    while i < |children|
      invariant 0 <= k <= |kids| && restored == stack
      invariant children == VisitKids(w, rd, kids[..k], stack).0 + kids[k..]
      invariant i == |VisitKids(w, rd, kids[..k], stack).0|
      invariant events == VisitKids(w, rd, kids[..k], stack).1
      decreases |kids| - k
    {
      var childEvents;
      children, i, childEvents, restored := VisitChildAt(w, rd, children, i, restored, kids, k);
      events := events + childEvents;
      k := k + 1;
    }
    CursorPastEnd(kids, k, children, VisitKids(w, rd, kids[..k], stack).0);
    assert kids[..k] == kids;
    left := children;
  }

  /** When the cursor has passed the last child, every child has been visited. */
  lemma CursorPastEnd(kids: seq<Tree>, k: nat, children: seq<Tree>, done: seq<Tree>)
    requires k <= |kids| && children == done + kids[k..] && |done| >= |children|
    ensures k == |kids| && children == done
  {
  }

  /**
   * `walkOverDropdownMenuTreeItems( walkers, root )`: the walk starts at `root` with the ancestor
   * stack `[ root ]` and leaves the tree and the events `VisitSpec` describes.
   */
  method WalkOverDropdownMenuTreeItems(w: Walkers, rd: Reading, root: Tree) returns (tree: Tree, events: seq<Event>)
    requires MayRemove(w) ==> DistinctSiblings(root)
    ensures var v := VisitSpec(w, rd, root, [root], true);
      tree == v.tree && events == v.events
  {
    var v, stack := Visit(w, rd, root, [root], true);
    tree := v.tree;
    events := v.events;
  }

  /** A handler whose hooks only look leaves the node alone and never skips its children. */
  lemma ObservingHooks(h: Handler, rd: Reading)
    requires HandlerObserves(h)
    ensures Observes(EnterHook(h, rd)) && Observes(LeaveHook(h, rd))
  {
  }

  /** A walk whose hooks only look leaves every subtree as it was and removes nothing. */
  lemma {:induction false} ObserveOnlyKeepsTree(w: Walkers, rd: Reading, t: Tree, parents: seq<Tree>, isStart: bool)
    requires ObserveOnly(w)
    ensures VisitSpec(w, rd, t, parents, isStart).tree == t
    ensures !VisitSpec(w, rd, t, parents, isStart).detached
    decreases t
  {
    ObservingHooks(HandlerFor(w, t.Kind()), rd);
    if !t.Item? {
      ObserveOnlyKeepsKids(w, rd, t.kids, Below(parents, t, isStart));
    }
  }

  lemma {:induction false} ObserveOnlyKeepsKids(w: Walkers, rd: Reading, ks: seq<Tree>, below: seq<Tree>)
    requires ObserveOnly(w)
    ensures VisitKids(w, rd, ks, below).0 == ks
    decreases ks
  {
    if ks != [] {
      ObserveOnlyKeepsKids(w, rd, ks[..|ks| - 1], below);
      ObserveOnlyKeepsTree(w, rd, ks[|ks| - 1], below, false);
      assert ks[..|ks| - 1] + [ks[|ks| - 1]] == ks;
    }
  }

  /**
   * `enter` returning `false` keeps the walk out of the node's subtree: the children are left as
   * they were and the only events are those of the node's own two hooks, `leave` included.
   */
  lemma EnterFalseSkipsSubtree(w: Walkers, rd: Reading, t: Tree, parents: seq<Tree>, isStart: bool)
    requires RunHook(EnterHook(HandlerFor(w, t.Kind()), rd), Enter, t, parents).skip
    ensures var h := HandlerFor(w, t.Kind());
      var e := RunHook(EnterHook(h, rd), Enter, t, parents);
      var v := VisitSpec(w, rd, t, parents, isStart);
      v.tree.Kids() == t.Kids() &&
      v.events == e.events + RunHook(LeaveHook(h, rd), Leave, e.tree, parents).events
  {
  }

  /**
   * With a recording `{ enter, leave }` handler on the node's kind, the first event is the node's
   * `enter` and the last its `leave`, both given the same ancestors; when `enter` returns `false`
   * they are the only two.
   */
  lemma EnterFirstLeaveLast(w: Walkers, rd: Reading, t: Tree, parents: seq<Tree>, isStart: bool, stop: bool)
    requires HandlerFor(w, t.Kind()) == Obj(Record(stop), Record(false))
    ensures var v := VisitSpec(w, rd, t, parents, isStart);
      |v.events| >= 2 &&
      v.events[0] == Event(Enter, t, parents) &&
      v.events[|v.events| - 1].phase == Leave && v.events[|v.events| - 1].parents == parents &&
      v.events[|v.events| - 1].node.id == t.id &&
      (stop ==> v.events == [Event(Enter, t, parents), Event(Leave, t, parents)])
  {
  }

  /** Every event of a visit hands its hook ancestors that begin with the visit's own ancestors. */
  lemma {:induction false} EventsExtendParents(w: Walkers, rd: Reading, t: Tree, parents: seq<Tree>, isStart: bool)
    ensures forall ev :: ev in VisitSpec(w, rd, t, parents, isStart).events ==> parents <= ev.parents
    decreases t
  {
    var h := HandlerFor(w, t.Kind());
    var e := RunHook(EnterHook(h, rd), Enter, t, parents);
    var kids := if t.Item? || e.skip then ([], []) else VisitKids(w, rd, t.kids, Below(parents, e.tree, isStart));
    var mid := if t.Item? || e.skip then e.tree else e.tree.WithKids(kids.0);
    var l := RunHook(LeaveHook(h, rd), Leave, mid, parents);
    if !t.Item? && !e.skip {
      EventsExtendParentsKids(w, rd, t.kids, Below(parents, e.tree, isStart));
      assert parents <= Below(parents, e.tree, isStart);
    }
    assert forall ev :: ev in e.events ==> ev.parents == parents;
    assert forall ev :: ev in l.events ==> ev.parents == parents;
    AllExtend(e.events, kids.1, l.events, parents);
  }

  lemma AllExtend(a: seq<Event>, b: seq<Event>, c: seq<Event>, parents: seq<Tree>)
    requires forall ev :: ev in a ==> parents <= ev.parents
    requires forall ev :: ev in b ==> parents <= ev.parents
    requires forall ev :: ev in c ==> parents <= ev.parents
    ensures forall ev :: ev in a + b + c ==> parents <= ev.parents
  {
  }

  lemma {:induction false} EventsExtendParentsKids(w: Walkers, rd: Reading, ks: seq<Tree>, below: seq<Tree>)
    ensures forall ev :: ev in VisitKids(w, rd, ks, below).1 ==> below <= ev.parents
    decreases ks
  {
    if ks != [] {
      EventsExtendParentsKids(w, rd, ks[..|ks| - 1], below);
      EventsExtendParents(w, rd, ks[|ks| - 1], below, false);
    }
  }

  /** Walkers all of whose hooks, as read, do nothing. */
  predicate Silent(w: Walkers, rd: Reading) {
    forall k: NodeKind :: EnterHook(HandlerFor(w, k), rd) == Nop && LeaveHook(HandlerFor(w, k), rd) == Nop
  }

  /** A walk with silent walkers records nothing and changes nothing. */
  lemma {:induction false} SilentWalkDoesNothing(w: Walkers, rd: Reading, t: Tree, parents: seq<Tree>, isStart: bool)
    requires Silent(w, rd)
    ensures VisitSpec(w, rd, t, parents, isStart) == Visited(t, false, [])
    decreases t
  {
    assert EnterHook(HandlerFor(w, t.Kind()), rd) == Nop && LeaveHook(HandlerFor(w, t.Kind()), rd) == Nop;
    if !t.Item? {
      SilentKidsDoNothing(w, rd, t.kids, Below(parents, t, isStart));
    }
  }

  lemma {:induction false} SilentKidsDoNothing(w: Walkers, rd: Reading, ks: seq<Tree>, below: seq<Tree>)
    requires Silent(w, rd)
    ensures VisitKids(w, rd, ks, below) == (ks, [])
    decreases ks
  {
    if ks != [] {
      SilentKidsDoNothing(w, rd, ks[..|ks| - 1], below);
      SilentWalkDoesNothing(w, rd, ks[|ks| - 1], below, false);
      assert ks[..|ks| - 1] + [ks[|ks| - 1]] == ks;
    }
  }

  /**
   * Read as written, handlers given as bare functions are never called: walkers made only of
   * bare functions record nothing and change nothing, whatever the functions do.
   */
  lemma BareFunctionsIgnored(root: Hook, menu: Hook, item: Hook, t: Tree, parents: seq<Tree>, isStart: bool)
    ensures VisitSpec(Walkers(Fn(root), Fn(menu), Fn(item)), Destructured, t, parents, isStart) == Visited(t, false, [])
  {
    var w := Walkers(Fn(root), Fn(menu), Fn(item));
    assert Silent(w, Destructured) by {
      forall k: NodeKind
        ensures EnterHook(HandlerFor(w, k), Destructured) == Nop && LeaveHook(HandlerFor(w, k), Destructured) == Nop
      {
      }
    }
    SilentWalkDoesNothing(w, Destructured, t, parents, isStart);
  }
}
