/**
 * `shallowCloneDropdownMenuTree`: a deep copy of the tree's node objects and children arrays
 * that shares the views (and, in this model, the search metadata values). Every node object of
 * the copy is new; `Clone` hands out the identities from `next` upwards, the node itself first.
 */
module TreeClone {
  import opened MenuTree

  /** The identities of every node object in `t`. */
  ghost function AllIds(t: Tree): set<NodeId>
    decreases t
  {
    if t.Item? then {t.id} else {t.id} + AllIdsOf(t.kids)
  }

  ghost function AllIdsOf(ts: seq<Tree>): set<NodeId>
    decreases ts
  {
    if ts == [] then {} else AllIdsOf(ts[..|ts| - 1]) + AllIds(ts[|ts| - 1])
  }

  /** Every node object of `t` has an identity in `[ lo, hi )`. */
  ghost predicate IdsWithin(t: Tree, lo: nat, hi: nat) {
    forall id :: id in AllIds(t) ==> lo <= id < hi
  }

  /**
   * The copy of `t` whose node objects get the identities `next`, `next + 1`, ... and the first
   * identity left unused. The copy has the shape and the data of `t`, every identity in it is
   * new, and no node holds the same child twice.
   */
  function Clone(t: Tree, next: NodeId): (r: (Tree, NodeId))
    ensures r.0.id == next && next < r.1
    ensures Congruent(t, r.0)
    ensures IdsWithin(r.0, next, r.1)
    ensures DistinctSiblings(r.0)
    decreases t
  {
    match t
    case Item(_, it, s, f) => (Item(next, it, s, f), next + 1)
    case Root(_, ks) =>
      var c := CloneKids(ks, next + 1);
      (Root(next, c.0), c.1)
    case Menu(_, m, s, f, ks) =>
      var c := CloneKids(ks, next + 1);
      (Menu(next, m, s, f, c.0), c.1)
  }

  /** The copies of the subtrees `ks`, in order, with identities from `next` upwards. */
  function CloneKids(ks: seq<Tree>, next: NodeId): (r: (seq<Tree>, NodeId))
    ensures |r.0| == |ks| && next <= r.1
    ensures forall i :: 0 <= i < |ks| ==> Congruent(ks[i], r.0[i])
    ensures forall i :: 0 <= i < |ks| ==> IdsWithin(r.0[i], next, r.1) && DistinctSiblings(r.0[i])
    ensures DistinctIds(r.0)
    ensures forall id :: id in AllIdsOf(r.0) ==> next <= id < r.1
    decreases ks
  {
    if ks == [] then ([], next)
    else
      var p := CloneKids(ks[..|ks| - 1], next);
      var c := Clone(ks[|ks| - 1], p.1);
      var r0 := p.0 + [c.0];
      assert r0[..|r0| - 1] == p.0;
      assert forall i :: 0 <= i < |p.0| ==> p.0[i].id in AllIds(p.0[i]);
      (r0, c.1)
  }

  /** The copy has as many items as the original. */
  lemma CloneKeepsCount(t: Tree, next: NodeId)
    ensures CountItems(Clone(t, next).0) == CountItems(t)
  {
    CongruentCount(t, Clone(t, next).0);
  }

  /**
   * When every identity in `t` is below `next`, no node object of the copy is one of the
   * original's: changing the copy in place cannot change the original.
   */
  lemma CloneIsFresh(t: Tree, next: NodeId)
    requires forall id :: id in AllIds(t) ==> id < next
    ensures AllIds(Clone(t, next).0) !! AllIds(t)
  {
  }
}
