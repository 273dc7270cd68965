/**
 * The two child-removal helpers: `tryRemoveDropdownMenuTreeChild`, which splices `child` out
 * of `parent.children` only when `indexOf` finds it, and the older `tryRemoveDropdownTreeChild`,
 * which splices at whatever `indexOf` returns, including -1.
 */
module TreeChildRemoval {
  import opened MenuTree

  /** `Array.prototype.indexOf` by identity: the first position of `x` in `s`, or -1. */
  function IndexOf(s: seq<NodeId>, x: NodeId): (r: int)
    ensures -1 <= r < |s|
    ensures r == -1 <==> x !in s
    ensures 0 <= r ==> s[r] == x && x !in s[..r]
  {
    if s == [] then -1
    else if s[0] == x then 0
    else
      var k := IndexOf(s[1..], x);
      if k == -1 then -1
      else
        assert s[..k + 1] == [s[0]] + s[1..][..k];
        k + 1
  }

  /** `s` with its first occurrence of `x` taken out, the rest in order; `s` itself when `x` is absent. */
  function RemoveFirst(s: seq<NodeId>, x: NodeId): (r: seq<NodeId>)
    ensures x !in s ==> r == s
    ensures x in s ==> |r| == |s| - 1
  {
    if s == [] then []
    else if s[0] == x then
      assert s == [s[0]] + s[1..];
      s[1..]
    else
      assert s == [s[0]] + s[1..];
      [s[0]] + RemoveFirst(s[1..], x)
  }

  /** Exactly one copy of `x` goes, when there is one; every other element stays. */
  lemma {:induction false} RemoveFirstMultiset(s: seq<NodeId>, x: NodeId)
    ensures multiset(RemoveFirst(s, x)) == multiset(s) - multiset{x}
  {
    if s != [] {
      assert s == [s[0]] + s[1..];
      RemoveFirstMultiset(s[1..], x);
    }
  }

  /** Splicing one element out at the position `indexOf` reports is removing the first occurrence. */
  lemma {:induction false} SpliceAtIndexOfIsRemoveFirst(s: seq<NodeId>, x: NodeId)
    requires x in s
    ensures var i := IndexOf(s, x); s[..i] + s[i + 1..] == RemoveFirst(s, x)
  {
    if s[0] != x {
      SpliceAtIndexOfIsRemoveFirst(s[1..], x);
      var k := IndexOf(s[1..], x);
      assert s[..k + 1] == [s[0]] + s[1..][..k];
      assert s[k + 2..] == s[1..][k + 1..];
    }
  }

  /** Taking out an element whose first occurrence follows a prefix `a` keeps `a` and the rest. */
  lemma {:induction false} RemoveFirstSplit(a: seq<NodeId>, x: NodeId, b: seq<NodeId>)
    requires x !in a
    ensures RemoveFirst(a + [x] + b, x) == a + b
  {
    if a == [] {
      assert a + [x] + b == [x] + b && ([x] + b)[1..] == b;
    } else {
      var t := a[1..] + [x] + b;
      assert a + [x] + b == [a[0]] + t;
      assert x !in a[1..] && a[0] != x;
      RemoveFirstSplit(a[1..], x, b);
      assert RemoveFirst([a[0]] + t, x) == [a[0]] + RemoveFirst(t, x) by {
        assert ([a[0]] + t)[0] == a[0] && ([a[0]] + t)[1..] == t;
      }
      HeadTail(a, b);
    }
  }

  lemma HeadTail(a: seq<NodeId>, b: seq<NodeId>)
    requires a != []
    ensures [a[0]] + (a[1..] + b) == a + b
  {
    assert a == [a[0]] + a[1..];
  }

  /** The effect of the guarded removal on a parent node record; an `Item` parent is unchanged. */
  function Detach(n: Node, child: NodeId): (r: Node)
    ensures r.Kind() == n.Kind()
    ensures child !in n.Kids() ==> r == n
    ensures child in n.Kids() ==> |r.Kids()| == |n.Kids()| - 1
  {
    if n.ItemNode? then n else n.WithKids(RemoveFirst(n.children, child))
  }

  /**
   * `tryRemoveDropdownMenuTreeChild( parent, child )`: a `Menu` or `Root` parent loses the first
   * occurrence of `child` among its children, if there is one; nothing else changes, and the same
   * parent is returned.
   */
  method TryRemoveDropdownMenuTreeChild(heap: TreeHeap, parent: NodeId, child: NodeId) returns (r: NodeId)
    requires parent in heap.nodes
    modifies heap`nodes
    ensures r == parent
    ensures heap.nodes == old(heap.nodes)[parent := Detach(old(heap.nodes)[parent], child)]
  {
    var p := heap.nodes[parent];
    if !p.ItemNode? {
      var index := IndexOf(p.children, child);
      if index != -1 {
        SpliceAtIndexOfIsRemoveFirst(p.children, child);
        var rest := p.children[..index] + p.children[index + 1..];
        assert p.WithKids(rest) == Detach(p, child);
        heap.nodes := heap.nodes[parent := p.WithKids(rest)];
      }
    }
    r := parent;
  }

  /**
   * The guarded removal on a list of child subtrees: the first child with identity `child` is
   * spliced out at the position `indexOf` reports; the list is unchanged when there is none.
   */
  function RemoveKid(ks: seq<Tree>, child: NodeId): seq<Tree> {
    var index := IndexOf(IdsOf(ks), child);
    if index == -1 then ks else ks[..index] + ks[index + 1..]
  }

  /** On subtrees, the guarded removal does to the parent what `Detach` does to its node record. */
  lemma RemoveKidIsDetach(t: Tree, child: NodeId)
    requires !t.Item?
    ensures NodeOf(t.WithKids(RemoveKid(t.kids, child))) == Detach(NodeOf(t), child)
  {
    RemoveKidIds(t.kids, child);
    match t
    case Root(_, ks) =>
    case Menu(_, _, _, _, ks) =>
  }

  /** The identities left by the guarded removal are those `RemoveFirst` leaves. */
  lemma RemoveKidIds(ks: seq<Tree>, child: NodeId)
    ensures IdsOf(RemoveKid(ks, child)) == RemoveFirst(IdsOf(ks), child)
  {
    var ids := IdsOf(ks);
    var index := IndexOf(ids, child);
    if index != -1 {
      SpliceAtIndexOfIsRemoveFirst(ids, child);
      IdsOfAppend(ks[..index], ks[index + 1..]);
      assert IdsOf(ks[..index]) == ids[..index];
      assert IdsOf(ks[index + 1..]) == ids[index + 1..];
    }
  }

  /** A child that does not occur before its position is the one the guarded removal takes out. */
  lemma RemoveKidAt(a: seq<Tree>, x: Tree, b: seq<Tree>)
    requires x.id !in IdsOf(a)
    ensures RemoveKid(a + [x] + b, x.id) == a + b
  {
    var s := a + [x] + b;
    var ids := IdsOf(s);
    assert ids[|a|] == x.id;
    assert IndexOf(ids, x.id) == |a|;
    assert s[..|a|] == a && s[|a| + 1..] == b;
  }

  /**
   * `Array.prototype.splice( start, 1 )` on `s`: a negative `start` counts from the end and is
   * clamped at 0, a `start` past the end removes nothing.
   */
  function SpliceOne(s: seq<NodeId>, start: int): (r: seq<NodeId>)
    ensures 0 <= start < |s| ==> r == s[..start] + s[start + 1..]
    ensures start >= |s| ==> r == s
    ensures |s| - 1 <= |r| <= |s|
  {
    var actual := if start < 0 then (if |s| + start < 0 then 0 else |s| + start)
                  else (if start > |s| then |s| else start);
    if actual < |s| then s[..actual] + s[actual + 1..] else s
  }

  /** The effect of the unguarded removal on a parent node record. */
  function UnguardedDetach(n: Node, child: NodeId): Node {
    if n.ItemNode? then n else n.WithKids(SpliceOne(n.children, IndexOf(n.children, child)))
  }

  /**
   * `tryRemoveDropdownTreeChild( parent, child )`: a `Menu` or `Root` parent has one child spliced
   * out at `indexOf( child )`, unchecked; nothing else changes, and the same parent is returned.
   */
  method TryRemoveDropdownTreeChild(heap: TreeHeap, parent: NodeId, child: NodeId) returns (r: NodeId)
    requires parent in heap.nodes
    modifies heap`nodes
    ensures r == parent
    ensures heap.nodes == old(heap.nodes)[parent := UnguardedDetach(old(heap.nodes)[parent], child)]
  {
    var p := heap.nodes[parent];
    if !p.ItemNode? {
      heap.nodes := heap.nodes[parent := p.WithKids(SpliceOne(p.children, IndexOf(p.children, child)))];
    }
    r := parent;
  }

  /** When `child` is present the two helpers agree: its first occurrence goes, the rest keep their order. */
  lemma UnguardedAgreesWhenPresent(n: Node, child: NodeId)
    requires child in n.Kids()
    ensures UnguardedDetach(n, child) == Detach(n, child)
  {
    SpliceAtIndexOfIsRemoveFirst(n.children, child);
  }

  /**
   * When `child` is absent, `indexOf` gives -1, which `splice` reads as the last position: a
   * parent with children loses its last child, one with none is unchanged.
   */
  lemma UnguardedDropsLastWhenAbsent(n: Node, child: NodeId)
    requires !n.ItemNode? && child !in n.children
    ensures n.children != [] ==> UnguardedDetach(n, child).children == n.children[..|n.children| - 1]
    ensures n.children == [] ==> UnguardedDetach(n, child) == n
  {
  }

  /** A menu with children `[1, 2]` asked to drop node 3, which it does not hold, loses node 2. */
  lemma UnguardedRemovalOfStranger()
    ensures UnguardedDetach(RootNode([1, 2]), 3) == RootNode([1])
    ensures Detach(RootNode([1, 2]), 3) == RootNode([1, 2])
  {
    UnguardedDropsLastWhenAbsent(RootNode([1, 2]), 3);
    assert [1, 2][..1] == [1];
  }
}
