/**
 * Octree nodes kept in an arena.
 *
 * The engine links `Octree::node` objects with raw pointers: eight child
 * pointers (`children`), a `parent` pointer, and a `cell` pointer in every
 * stored `BoundingRegion`.  Here every node is a value in a sequence and a
 * pointer is the node's index in it (its handle), with `Null` for
 * `nullptr`.  A node made by `new node(...)` is appended; a node that is
 * freed stays in the arena, unreachable.
 *
 * `Linked` is the shape the octree keeps between operations: each child
 * handle is larger than its parent's, points back to it, covers its octant
 * of the parent's box, and is present exactly when its bit of
 * `activeOctants` is set.
 */
module Nodes {
  import opened States
  import opened Bounds

  /** `NO_CHILDREN`: the number of child slots of a node. */
  const NoChildren: nat := 8

  /** The null handle. */
  const Null: int := -1

  /** `Octree::node`. */
  datatype Node = Node(
    region: Box,
    objects: seq<Region>,
    queue: seq<Region>,
    children: seq<int>,
    activeOctants: bv8,
    parent: int,
    treeBuilt: bool,
    treeReady: bool,
    currentLifeSpan: int,
    maxLifeSpan: int)

  /**
   * `new node(bounds, objectsList)`: no children, no active octant, not yet
   * built, its countdown not started (-1) and its lifespan at the
   * configured default.
   */
  function NewNode(region: Box, objects: seq<Region>, parent: int, maxLifeSpan: int): (nd: Node)
    ensures |nd.children| == NoChildren
  {
    Node(region, objects, [], seq(NoChildren, _ => Null), 0, parent, false, false, -1, maxLifeSpan)
  }

  /** Slot `i` of node `m` is consistent with its bit and with the child it names. */
  ghost predicate ChildOk(ns: seq<Node>, m: nat, i: nat, minBounds: real)
    requires m < |ns| && i < NoChildren && |ns[m].children| == NoChildren
  {
    var c := ns[m].children[i];
    && (c != Null <==> IsIndexActive(ns[m].activeOctants, i))
    && (c != Null ==>
         && m < c < |ns|
         && ns[c].parent == m
         && ns[c].region == Octant(ns[m].region, i)
         && !TooSmall(ns[m].region, minBounds))
  }

  /** Node `m` has eight slots, a parent below it, and consistent slots. */
  ghost predicate NodeOk(ns: seq<Node>, m: nat, minBounds: real)
    requires m < |ns|
  {
    && |ns[m].children| == NoChildren
    && Null <= ns[m].parent < m
    && forall i :: 0 <= i < NoChildren ==> ChildOk(ns, m, i, minBounds)
  }

  /** Every node of the arena is well linked. */
  ghost predicate Linked(ns: seq<Node>, minBounds: real) {
    forall m :: 0 <= m < |ns| ==> NodeOk(ns, m, minBounds)
  }

  /** Every object stored in node `m` names `m` as its `cell`. */
  ghost predicate CellsOk(ns: seq<Node>, m: nat)
    requires m < |ns|
  {
    forall k :: 0 <= k < |ns[m].objects| ==> ns[m].objects[k].cell == m
  }

  ghost predicate AllCells(ns: seq<Node>) {
    forall m :: 0 <= m < |ns| ==> CellsOk(ns, m)
  }

  /** Replacing node `m` by a value whose objects all name `m` keeps every cell right. */
  lemma ReplaceCells(ns: seq<Node>, m: nat, v: Node)
    requires AllCells(ns) && m < |ns|
    requires forall k :: 0 <= k < |v.objects| ==> v.objects[k].cell == m
    ensures AllCells(ns[m := v])
  {
    var ns2 := ns[m := v];
    forall p | 0 <= p < |ns2|
      ensures CellsOk(ns2, p)
    {
      if p != m {
        assert CellsOk(ns, p);
      }
    }
  }

  /** The fields `Linked` depends on. */
  function LinkOf(nd: Node): (Box, seq<int>, bv8, int) {
    (nd.region, nd.children, nd.activeOctants, nd.parent)
  }

  /** `ns2` keeps every node of `ns` at its handle with the same region and parent. */
  ghost predicate Extends(ns: seq<Node>, ns2: seq<Node>) {
    && |ns| <= |ns2|
    && forall m :: 0 <= m < |ns| ==> ns2[m].region == ns[m].region && ns2[m].parent == ns[m].parent
  }

  /** How many times the node's width holds `minBounds`: it halves from parent to child. */
  function Height(region: Box, minBounds: MinBounds): int {
    (Dimensions(region).x / minBounds).Floor
  }

  /** A linked node has eight slots and a parent handle below its own. */
  lemma Slots(ns: seq<Node>, m: nat, minBounds: real)
    requires Linked(ns, minBounds) && m < |ns|
    ensures |ns[m].children| == NoChildren && Null <= ns[m].parent < m
  {
    assert NodeOk(ns, m, minBounds);
  }

  /** A child is strictly lower than its parent, and not below zero. */
  lemma ChildLower(ns: seq<Node>, m: nat, i: nat, minBounds: MinBounds)
    requires Linked(ns, minBounds) && m < |ns| && i < NoChildren
    requires |ns[m].children| == NoChildren && ns[m].children[i] != Null
    ensures m < ns[m].children[i] < |ns|
    ensures 0 <= Height(ns[ns[m].children[i]].region, minBounds) < Height(ns[m].region, minBounds)
  {
    assert NodeOk(ns, m, minBounds) && ChildOk(ns, m, i, minBounds);
    OctantShrinks(ns[m].region, i, minBounds);
  }

  /** Two slots of a node never hold the same child. */
  lemma ChildrenDistinct(ns: seq<Node>, m: nat, i: nat, j: nat, minBounds: MinBounds)
    requires Linked(ns, minBounds) && m < |ns| && i < NoChildren && j < NoChildren && i != j
    requires |ns[m].children| == NoChildren && ns[m].children[i] != Null
    ensures ns[m].children[i] != ns[m].children[j]
  {
    assert NodeOk(ns, m, minBounds) && ChildOk(ns, m, i, minBounds) && ChildOk(ns, m, j, minBounds);
    if ns[m].children[j] != Null {
      OctantsDistinct(ns[m].region, i, j, minBounds);
    }
  }

  /** Changing only fields that `Linked` does not read keeps the arena linked. */
  lemma {:induction false} KeepLinks(ns: seq<Node>, ns2: seq<Node>, minBounds: real)
    requires Linked(ns, minBounds) && |ns2| == |ns|
    requires forall m :: 0 <= m < |ns| ==> LinkOf(ns2[m]) == LinkOf(ns[m])
    ensures Linked(ns2, minBounds)
  {
    forall m | 0 <= m < |ns2|
      ensures NodeOk(ns2, m, minBounds)
    {
      assert NodeOk(ns, m, minBounds);
      assert LinkOf(ns2[m]) == LinkOf(ns[m]);
      forall i | 0 <= i < NoChildren
        ensures ChildOk(ns2, m, i, minBounds)
      {
        assert ChildOk(ns, m, i, minBounds);
        var c := ns[m].children[i];
        if c != Null {
          assert LinkOf(ns2[c]) == LinkOf(ns[c]);
        }
      }
    }
  }

  /** Replacing node `m` by a value with the same links keeps the arena linked. */
  lemma ReplaceNode(ns: seq<Node>, m: nat, v: Node, minBounds: real)
    requires Linked(ns, minBounds) && m < |ns| && LinkOf(v) == LinkOf(ns[m])
    ensures Linked(ns[m := v], minBounds)
  {
    KeepLinks(ns, ns[m := v], minBounds);
  }

  /**
   * `children[i] = new node(octants[i], list); children[i]->parent = this;
   * activateIndex(&activeOctants, i)`: appending the child and linking it
   * into slot `i` keeps the arena linked.  A child the slot held before is
   * left in the arena, unreachable.
   */
  lemma {:induction false} AddChild(ns: seq<Node>, m: nat, i: nat, objs: seq<Region>, life: int, minBounds: real)
    requires Linked(ns, minBounds) && m < |ns| && i < NoChildren
    requires |ns[m].children| == NoChildren && !TooSmall(ns[m].region, minBounds)
    ensures var nd := ns[m];
      var ns2 := ns[m := nd.(children := nd.children[i := |ns|], activeOctants := ActivateIndex(nd.activeOctants, i))]
                 + [NewNode(Octant(nd.region, i), objs, m, life)];
      Linked(ns2, minBounds)
  {
    var nd := ns[m];
    var ns1 := ns[m := nd.(children := nd.children[i := |ns|], activeOctants := ActivateIndex(nd.activeOctants, i))];
    var ns2 := ns1 + [NewNode(Octant(nd.region, i), objs, m, life)];
    forall p | 0 <= p < |ns2|
      ensures NodeOk(ns2, p, minBounds)
    {
      if p == |ns| {
        forall j | 0 <= j < NoChildren
          ensures ChildOk(ns2, p, j, minBounds)
        {
          assert !Bit(0, j);
        }
      } else {
        assert NodeOk(ns, p, minBounds);
        forall j | 0 <= j < NoChildren
          ensures ChildOk(ns2, p, j, minBounds)
        {
          assert ChildOk(ns, p, j, minBounds);
        }
      }
    }
  }

  /**
   * `children[i] = nullptr; deactivateIndex(&activeOctants, i)`: unlinking
   * slot `i` keeps the arena linked; the child stays in the arena.
   */
  lemma {:induction false} RemoveChild(ns: seq<Node>, m: nat, i: nat, minBounds: real)
    requires Linked(ns, minBounds) && m < |ns| && i < NoChildren && |ns[m].children| == NoChildren
    ensures var nd := ns[m];
      Linked(ns[m := nd.(children := nd.children[i := Null], activeOctants := DeactivateIndex(nd.activeOctants, i))], minBounds)
  {
    var nd := ns[m];
    var ns2 := ns[m := nd.(children := nd.children[i := Null], activeOctants := DeactivateIndex(nd.activeOctants, i))];
    forall p | 0 <= p < |ns2|
      ensures NodeOk(ns2, p, minBounds)
    {
      assert NodeOk(ns, p, minBounds);
      forall j | 0 <= j < NoChildren
        ensures ChildOk(ns2, p, j, minBounds)
      {
        assert ChildOk(ns, p, j, minBounds);
      }
    }
  }

  /** Appending nodes that link nowhere keeps the arena linked. */
  lemma {:induction false} AppendNodes(ns: seq<Node>, more: seq<Node>, minBounds: real)
    requires Linked(ns, minBounds)
    requires forall k :: 0 <= k < |more| ==> Null <= more[k].parent < |ns| + k
    requires forall k :: 0 <= k < |more| ==>
      |more[k].children| == NoChildren && more[k].activeOctants == 0
      && forall j :: 0 <= j < NoChildren ==> more[k].children[j] == Null
    ensures Linked(ns + more, minBounds)
  {
    var ns2 := ns + more;
    forall p | 0 <= p < |ns2|
      ensures NodeOk(ns2, p, minBounds)
    {
      if p < |ns| {
        assert NodeOk(ns, p, minBounds);
        forall j | 0 <= j < NoChildren
          ensures ChildOk(ns2, p, j, minBounds)
        {
          assert ChildOk(ns, p, j, minBounds);
        }
      } else {
        forall j | 0 <= j < NoChildren
          ensures ChildOk(ns2, p, j, minBounds)
        {
          assert ns2[p] == more[p - |ns|];
          assert !Bit(0, j);
        }
      }
    }
  }
}
