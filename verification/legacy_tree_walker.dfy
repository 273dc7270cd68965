/**
 * `walkOverDropdownMenuViewsTreeItems`, the older walker. It differs from the main one in three
 * ways: the hooks get the live ancestor stack rather than a copy (an event records its contents
 * at the call), the start node is pushed like every other node, so its children see it twice,
 * and the value `enter` returns is ignored, so children are always visited.
 *
 * Its hook metadata carries no `parent`, so its hooks cannot remove their node; the walkers it
 * is given are those that `MayRemove` rejects.
 */
module LegacyTreeWalker {
  import opened MenuTree
  import opened TreeWalker

  /**
   * Visiting `t` with the ancestor stack `stack`: `enter` sees the stack, the node is pushed, every
   * child is visited in order, the node is popped, and `leave` sees the stack again.
   */
  function LegacySpec(w: Walkers, rd: Reading, t: Tree, stack: seq<Tree>): (v: Visited)
    ensures v.tree.id == t.id && v.tree.Kind() == t.Kind()
    decreases t
  {
    var h := HandlerFor(w, t.Kind());
    var e := RunHook(EnterHook(h, rd), Enter, t, stack);
    var kids := if t.Item? then ([], []) else LegacyKids(w, rd, t.kids, stack + [e.tree]);
    var mid := if t.Item? then e.tree else e.tree.WithKids(kids.0);
    var l := RunHook(LeaveHook(h, rd), Leave, mid, stack);
    Visited(l.tree, false, e.events + kids.1 + l.events)
  }

  /** Visiting the children `ks` in order with the stack `stack`: the children afterwards and the events. */
  function LegacyKids(w: Walkers, rd: Reading, ks: seq<Tree>, stack: seq<Tree>): (r: (seq<Tree>, seq<Event>))
    ensures |r.0| == |ks|
    decreases ks
  {
    if ks == [] then ([], [])
    else
      var p := LegacyKids(w, rd, ks[..|ks| - 1], stack);
      var v := LegacySpec(w, rd, ks[|ks| - 1], stack);
      (p.0 + [v.tree], p.1 + v.events)
  }

  lemma LegacyKidsSnoc(w: Walkers, rd: Reading, ks: seq<Tree>, j: nat, stack: seq<Tree>)
    requires j < |ks|
    ensures var p := LegacyKids(w, rd, ks[..j], stack);
      var v := LegacySpec(w, rd, ks[j], stack);
      LegacyKids(w, rd, ks[..j + 1], stack).0 == p.0 + [v.tree] &&
      LegacyKids(w, rd, ks[..j + 1], stack).1 == p.1 + v.events
  {
    assert ks[..j + 1][..j] == ks[..j];
  }

  /** The visitor: `stack` is the shared live stack, handed back as it was received. */
  method LegacyVisit(w: Walkers, rd: Reading, t: Tree, stack: seq<Tree>) returns (v: Visited, restored: seq<Tree>)
    requires !MayRemove(w)
    ensures v == LegacySpec(w, rd, t, stack)
    ensures restored == stack
    decreases t
  {
    var h := HandlerFor(w, t.Kind());
    var e := RunHook(EnterHook(h, rd), Enter, t, stack);
    var st := stack + [e.tree];
    var node := e.tree;
    var events := e.events;
    if !t.Item? {
      var kids, kidEvents;
      kids, kidEvents, st := LegacyForEach(w, rd, t.kids, st);
      node := e.tree.WithKids(kids);
      events := events + kidEvents;
    }
    st := st[..|st| - 1];
    var l := RunHook(LeaveHook(h, rd), Leave, node, st);
    v := Visited(l.tree, false, events + l.events);
    restored := st;
  }

  /** `node.children.forEach( visitor )`: each child in turn, its new version put in its place. */
  method LegacyForEach(w: Walkers, rd: Reading, kids: seq<Tree>, stack: seq<Tree>)
    returns (children: seq<Tree>, events: seq<Event>, restored: seq<Tree>)
    requires !MayRemove(w)
    ensures children == LegacyKids(w, rd, kids, stack).0 && events == LegacyKids(w, rd, kids, stack).1
    ensures restored == stack
    decreases kids, 1
  {
    children := kids;
    events := [];
    restored := stack;
    for j := 0 to |kids|
      invariant restored == stack
      invariant children == LegacyKids(w, rd, kids[..j], stack).0 + kids[j..]
      invariant events == LegacyKids(w, rd, kids[..j], stack).1
    {
      var more;
      children, more, restored := LegacyChildAt(w, rd, kids, j, children, restored);
      events := events + more;
    }
    assert kids[..|kids|] == kids;
  }

  /** One step of `forEach`: the child at `j` is visited and its new version put in its place. */
  method LegacyChildAt(w: Walkers, rd: Reading, kids: seq<Tree>, j: nat, children: seq<Tree>, stack: seq<Tree>)
    returns (children': seq<Tree>, events: seq<Event>, restored: seq<Tree>)
    requires !MayRemove(w) && j < |kids|
    requires children == LegacyKids(w, rd, kids[..j], stack).0 + kids[j..]
    ensures children' == LegacyKids(w, rd, kids[..j + 1], stack).0 + kids[j + 1..]
    ensures LegacyKids(w, rd, kids[..j + 1], stack).1 == LegacyKids(w, rd, kids[..j], stack).1 + events
    ensures restored == stack
    decreases kids, 0
  {
    assert children[j] == kids[j];
    var v;
    v, restored := LegacyVisit(w, rd, children[j], stack);
    LegacyKidsSnoc(w, rd, kids, j, stack);
    children' := children[j := v.tree];
    events := v.events;
  }

  /** `walkOverDropdownMenuViewsTreeItems( walkers, tree )`: the stack starts as `[ tree ]`. */
  method WalkOverDropdownMenuViewsTreeItems(w: Walkers, rd: Reading, tree: Tree) returns (result: Tree, events: seq<Event>)
    requires !MayRemove(w)
    ensures var v := LegacySpec(w, rd, tree, [tree]);
      result == v.tree && events == v.events
  {
    var v, stack := LegacyVisit(w, rd, tree, [tree]);
    result := v.tree;
    events := v.events;
  }

  /** A hook with its `false` result turned into `undefined`: the node is treated alike. */
  function NeverStops(h: Hook): Hook {
    if h.Record? then Record(false) else h
  }

  function HandlerNeverStops(h: Handler): Handler {
    match h
    case NoHandler => NoHandler
    case Obj(e, l) => Obj(NeverStops(e), NeverStops(l))
    case Fn(f) => Fn(NeverStops(f))
  }

  /**
   * The value `enter` returns is ignored: a recording hook that asks to skip the children gives
   * the same walk as one that does not.
   */
  lemma {:induction false} EnterResultIgnored(w: Walkers, rd: Reading, t: Tree, stack: seq<Tree>)
    ensures var w' := Walkers(HandlerNeverStops(w.root), HandlerNeverStops(w.menu), HandlerNeverStops(w.item));
      LegacySpec(w, rd, t, stack) == LegacySpec(w', rd, t, stack)
    decreases t
  {
    var w' := Walkers(HandlerNeverStops(w.root), HandlerNeverStops(w.menu), HandlerNeverStops(w.item));
    var h := HandlerFor(w, t.Kind());
    var h' := HandlerFor(w', t.Kind());
    assert EnterHook(h', rd) == NeverStops(EnterHook(h, rd));
    assert LeaveHook(h', rd) == NeverStops(LeaveHook(h, rd));
    var e := RunHook(EnterHook(h, rd), Enter, t, stack);
    if !t.Item? {
      EnterResultIgnoredKids(w, rd, t.kids, stack + [e.tree]);
    }
  }

  lemma {:induction false} EnterResultIgnoredKids(w: Walkers, rd: Reading, ks: seq<Tree>, stack: seq<Tree>)
    ensures var w' := Walkers(HandlerNeverStops(w.root), HandlerNeverStops(w.menu), HandlerNeverStops(w.item));
      LegacyKids(w, rd, ks, stack) == LegacyKids(w', rd, ks, stack)
    decreases ks
  {
    if ks != [] {
      EnterResultIgnoredKids(w, rd, ks[..|ks| - 1], stack);
      EnterResultIgnored(w, rd, ks[|ks| - 1], stack);
    }
  }

  /** The events `evs` with `r` put in front of every event's ancestors. */
  function PrefixParents(r: Tree, evs: seq<Event>): seq<Event>
    decreases evs
  {
    if evs == [] then [] else PrefixParents(r, evs[..|evs| - 1]) + [evs[|evs| - 1].(parents := [r] + evs[|evs| - 1].parents)]
  }

  /** Prefixing changes each event's ancestors only, and nothing else. */
  lemma {:induction false} PrefixParentsAt(r: Tree, evs: seq<Event>)
    ensures |PrefixParents(r, evs)| == |evs|
    ensures forall i :: 0 <= i < |evs| ==> PrefixParents(r, evs)[i] == evs[i].(parents := [r] + evs[i].parents)
    decreases evs
  {
    if evs != [] {
      PrefixParentsAt(r, evs[..|evs| - 1]);
    }
  }

  lemma {:induction false} PrefixParentsAppend(r: Tree, a: seq<Event>, b: seq<Event>)
    ensures PrefixParents(r, a + b) == PrefixParents(r, a) + PrefixParents(r, b)
    decreases b
  {
    if b == [] {
      assert a + b == a;
    } else {
      assert (a + b)[..|a + b| - 1] == a + b[..|b| - 1];
      PrefixParentsAppend(r, a, b[..|b| - 1]);
    }
  }

  /** A hook that only looks does the same with one more ancestor in front, which its event records. */
  lemma ObservedRun(h: Hook, phase: Phase, t: Tree, ps: seq<Tree>, r: Tree)
    requires Observes(h)
    ensures RunHook(h, phase, t, [r] + ps).tree == RunHook(h, phase, t, ps).tree == t
    ensures RunHook(h, phase, t, [r] + ps).events == PrefixParents(r, RunHook(h, phase, t, ps).events)
  {
    if h.Record? {
      assert PrefixParents(r, [Event(phase, t, ps)]) == [Event(phase, t, [r] + ps)] by {
        assert [Event(phase, t, ps)][..0] == [];
      }
    }
  }

  /**
   * Below the start node the two walkers agree up to the extra copy of the start node on the
   * stack: with hooks that only look, a node the main walker hands the ancestors `ps` is handed
   * `[ r ] + ps` by the older one.
   */
  lemma {:induction false} LegacyMatchesMain(w: Walkers, rd: Reading, r: Tree, t: Tree, ps: seq<Tree>)
    requires ObserveOnly(w)
    ensures LegacySpec(w, rd, t, [r] + ps).tree == VisitSpec(w, rd, t, ps, false).tree
    ensures LegacySpec(w, rd, t, [r] + ps).events == PrefixParents(r, VisitSpec(w, rd, t, ps, false).events)
    decreases t
  {
    var h := HandlerFor(w, t.Kind());
    var eh := EnterHook(h, rd);
    var lh := LeaveHook(h, rd);
    ObservingHooks(h, rd);
    var me := RunHook(eh, Enter, t, ps);
    var le := RunHook(eh, Enter, t, [r] + ps);
    ObservedRun(eh, Enter, t, ps, r);
    var mk := if t.Item? then ([], []) else VisitKids(w, rd, t.kids, ps + [t]);
    var lk := if t.Item? then ([], []) else LegacyKids(w, rd, t.kids, [r] + ps + [t]);
    assert lk.0 == mk.0 && lk.1 == PrefixParents(r, mk.1) by {
      if !t.Item? {
        assert [r] + ps + [t] == [r] + (ps + [t]);
        LegacyKidsMatchMain(w, rd, r, t.kids, ps + [t]);
      }
    }
    var mid := if t.Item? then t else t.WithKids(mk.0);
    var ml := RunHook(lh, Leave, mid, ps);
    var ll := RunHook(lh, Leave, mid, [r] + ps);
    ObservedRun(lh, Leave, mid, ps, r);
    assert VisitSpec(w, rd, t, ps, false).events == me.events + mk.1 + ml.events;
    assert LegacySpec(w, rd, t, [r] + ps).events == le.events + lk.1 + ll.events;
    PrefixParentsAppend(r, me.events + mk.1, ml.events);
    PrefixParentsAppend(r, me.events, mk.1);
  }

  lemma {:induction false} LegacyKidsMatchMain(w: Walkers, rd: Reading, r: Tree, ks: seq<Tree>, below: seq<Tree>)
    requires ObserveOnly(w)
    ensures LegacyKids(w, rd, ks, [r] + below).0 == VisitKids(w, rd, ks, below).0
    ensures LegacyKids(w, rd, ks, [r] + below).1 == PrefixParents(r, VisitKids(w, rd, ks, below).1)
    decreases ks
  {
    if ks != [] {
      var init := ks[..|ks| - 1];
      var x := ks[|ks| - 1];
      var lp := LegacyKids(w, rd, init, [r] + below);
      var mp := VisitKids(w, rd, init, below);
      var lv := LegacySpec(w, rd, x, [r] + below);
      var mv := VisitSpec(w, rd, x, below, false);
      assert lp.0 == mp.0 && lp.1 == PrefixParents(r, mp.1) by {
        LegacyKidsMatchMain(w, rd, r, init, below);
      }
      assert lv.tree == mv.tree && lv.events == PrefixParents(r, mv.events) && !mv.detached by {
        LegacyMatchesMain(w, rd, r, x, below);
        ObserversRemoveNothing(w);
        NoRemovalNoDetach(w, rd, x, below, false);
      }
      assert LegacyKids(w, rd, ks, [r] + below) == (lp.0 + [lv.tree], lp.1 + lv.events);
      assert VisitKids(w, rd, ks, below) == (mp.0 + [mv.tree], mp.1 + mv.events);
      PrefixParentsAppend(r, mp.1, mv.events);
    }
  }
}
