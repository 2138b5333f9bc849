/**
 * Subtrees of the node arena.
 *
 * `Under(ns, a, d)`: node `d` is `a` or lies below it by its `parent`
 * handles, the links `checkCollisionsAncestors` follows; this is the part
 * of the arena an operation on `a` may change.  `Reaches(ns, a, d)`
 * also demands that each parent still names the node in one of its child
 * slots, so it excludes nodes that were unlinked from the tree: these are
 * the nodes a recursion over `children` from `a` visits.  `Held(ns, a)`
 * is every object stored in the subtree of `a`, cells set aside.
 */
module Subtree {
  import opened Bounds
  import opened Partition
  import opened Nodes

  /** Node `d` is `a` or a descendant of `a` by its parent handles. */
  ghost predicate Under(ns: seq<Node>, a: int, d: int)
    decreases d
  {
    && 0 <= a <= d < |ns|
    && (d == a || (0 <= ns[d].parent < d && Under(ns, a, ns[d].parent)))
  }

  /** Node `d` is reached from `a` through the child slots. */
  ghost predicate Reaches(ns: seq<Node>, a: int, d: int)
    decreases d
  {
    && 0 <= a <= d < |ns|
    && (d == a || (0 <= ns[d].parent < d && d in ns[ns[d].parent].children && Reaches(ns, a, ns[d].parent)))
  }

  /** Every node of `ns` outside the subtree of `a` is unchanged in `ns2`. */
  ghost predicate Outside(ns: seq<Node>, ns2: seq<Node>, a: int) {
    && |ns| <= |ns2|
    && forall d :: 0 <= d < |ns| && !Under(ns, a, d) ==> ns2[d] == ns[d]
  }

  /** Every object stored in the subtree of `a`, cells set aside. */
  ghost function Held(ns: seq<Node>, a: int): multiset<Region>
    decreases |ns| - a, 2
  {
    if 0 <= a < |ns| then Bare(ns[a].objects) + SlotsHeld(ns, a) else multiset{}
  }

  /** The objects stored below `a`, slot by slot. */
  ghost function SlotsHeld(ns: seq<Node>, a: int): multiset<Region>
    decreases |ns| - a, 1
  {
    InSlot(ns, a, 0) + InSlot(ns, a, 1) + InSlot(ns, a, 2) + InSlot(ns, a, 3)
    + InSlot(ns, a, 4) + InSlot(ns, a, 5) + InSlot(ns, a, 6) + InSlot(ns, a, 7)
  }

  /** The objects stored in the subtree of the child in slot `i` of `a`; none for an empty slot. */
  ghost function InSlot(ns: seq<Node>, a: int, i: nat): multiset<Region>
    decreases |ns| - a, 0
  {
    if 0 <= a < |ns| && i < |ns[a].children| && a < ns[a].children[i] < |ns|
    then Held(ns, ns[a].children[i])
    else multiset{}
  }

  /** The subtree of `a` holds in `ns2` what it held in `ns`, and `more` besides. */
  ghost predicate Grew(ns: seq<Node>, ns2: seq<Node>, a: int, more: multiset<Region>) {
    forall o :: Held(ns2, a)[o] == Held(ns, a)[o] + more[o]
  }

  /** Slot `i` of `a` holds in `ns2` what it held in `ns`, and `more` besides. */
  ghost predicate SlotGrew(ns: seq<Node>, ns2: seq<Node>, a: int, i: nat, more: multiset<Region>) {
    forall o :: InSlot(ns2, a, i)[o] == InSlot(ns, a, i)[o] + more[o]
  }

  /** A node none of whose slots holds a child. */
  predicate Childless(nd: Node) {
    forall i :: 0 <= i < |nd.children| ==> nd.children[i] == Null
  }

  /** A node without children holds only its own objects. */
  lemma ChildlessHolds(ns: seq<Node>, a: int)
    requires 0 <= a < |ns| && Childless(ns[a])
    ensures forall i :: 0 <= i < NoChildren ==> InSlot(ns, a, i) == multiset{}
    ensures Held(ns, a) == Bare(ns[a].objects)
  {
    assert SlotsHeld(ns, a) == multiset{};
  }

  /** A child is in the subtree of its parent. */
  lemma UnderChild(ns: seq<Node>, m: nat, i: nat, minBounds: MinBounds)
    requires Linked(ns, minBounds) && m < |ns| && i < NoChildren && |ns[m].children| == NoChildren
    requires ns[m].children[i] != Null
    ensures Under(ns, m, ns[m].children[i]) && Reaches(ns, m, ns[m].children[i])
  {
    assert NodeOk(ns, m, minBounds) && ChildOk(ns, m, i, minBounds);
  }

  /** Subtrees nest. */
  lemma {:induction false} UnderTrans(ns: seq<Node>, a: int, b: int, d: int)
    requires Under(ns, a, b) && Under(ns, b, d)
    ensures Under(ns, a, d)
    decreases d
  {
    if d != b {
      UnderTrans(ns, a, b, ns[d].parent);
    }
  }

  /** Reaching nests. */
  lemma {:induction false} ReachesTrans(ns: seq<Node>, a: int, b: int, d: int)
    requires Reaches(ns, a, b) && Reaches(ns, b, d)
    ensures Reaches(ns, a, d)
    decreases d
  {
    if d != b {
      ReachesTrans(ns, a, b, ns[d].parent);
    }
  }

  /** A node reached from `a` is in the subtree of `a`. */
  lemma {:induction false} ReachesUnder(ns: seq<Node>, a: int, d: int)
    requires Reaches(ns, a, d)
    ensures Under(ns, a, d)
    decreases d
  {
    if d != a {
      ReachesUnder(ns, a, ns[d].parent);
    }
  }

  /** Two subtrees holding the same node are nested. */
  lemma {:induction false} UnderChain(ns: seq<Node>, a: int, b: int, d: int)
    requires Under(ns, a, d) && Under(ns, b, d) && a <= b
    ensures Under(ns, a, b)
    decreases d
  {
    if d != b {
      UnderChain(ns, a, b, ns[d].parent);
    }
  }

  /** Keeping every old node's parent keeps the subtrees among old nodes. */
  lemma {:induction false} UnderKept(ns: seq<Node>, ns2: seq<Node>, a: int, d: int)
    requires Extends(ns, ns2) && 0 <= d < |ns|
    ensures Under(ns2, a, d) <==> Under(ns, a, d)
    decreases d
  {
    if d != a && 0 <= ns[d].parent < d {
      UnderKept(ns, ns2, a, ns[d].parent);
    }
  }

  /** The subtrees of two different children of a node share no node. */
  lemma SiblingsApart(ns: seq<Node>, m: nat, i: nat, j: nat, d: int, minBounds: MinBounds)
    requires Linked(ns, minBounds) && m < |ns| && i < NoChildren && j < NoChildren && i != j
    requires |ns[m].children| == NoChildren
    requires ns[m].children[i] != Null && ns[m].children[j] != Null
    requires Under(ns, ns[m].children[j], d)
    ensures !Under(ns, ns[m].children[i], d)
  {
    var ci, cj := ns[m].children[i], ns[m].children[j];
    ChildrenDistinct(ns, m, i, j, minBounds);
    assert NodeOk(ns, m, minBounds) && ChildOk(ns, m, i, minBounds) && ChildOk(ns, m, j, minBounds);
    if Under(ns, ci, d) {
      if ci <= cj {
        UnderChain(ns, ci, cj, d);
      } else {
        UnderChain(ns, cj, ci, d);
      }
    }
  }

  /** Changing only a subtree inside the subtree of `a`, after extending, changes only the subtree of `a`. */
  lemma OutsideTrans(ns0: seq<Node>, ns1: seq<Node>, ns2: seq<Node>, a: int, b: int)
    requires Outside(ns0, ns1, a) && Extends(ns0, ns1) && Outside(ns1, ns2, b) && Under(ns1, a, b)
    ensures Outside(ns0, ns2, a)
  {
    forall d | 0 <= d < |ns0| && !Under(ns0, a, d)
      ensures ns2[d] == ns0[d]
    {
      UnderKept(ns0, ns1, a, d);
      if Under(ns1, b, d) {
        UnderTrans(ns1, a, b, d);
      }
    }
  }

  /** Changing the nodes of a subtree only, but not their objects or children, keeps what the subtree holds. */
  lemma {:induction false} HeldFrame(ns: seq<Node>, ns2: seq<Node>, a: int, minBounds: MinBounds)
    requires Linked(ns, minBounds) && 0 <= a < |ns| <= |ns2|
    requires forall d :: Under(ns, a, d) ==> ns2[d].objects == ns[d].objects && ns2[d].children == ns[d].children
    ensures Held(ns2, a) == Held(ns, a)
    decreases |ns| - a, 1
  {
    SlotsFrame(ns, ns2, a, minBounds);
  }

  /** Keeping the children of `a` and the nodes strictly below it keeps what each slot of `a` holds. */
  lemma {:induction false} SlotsFrame(ns: seq<Node>, ns2: seq<Node>, a: int, minBounds: MinBounds)
    requires Linked(ns, minBounds) && 0 <= a < |ns| <= |ns2|
    requires ns2[a].children == ns[a].children
    requires forall d :: Under(ns, a, d) && d != a ==> ns2[d].objects == ns[d].objects && ns2[d].children == ns[d].children
    ensures forall i :: 0 <= i < NoChildren ==> InSlot(ns2, a, i) == InSlot(ns, a, i)
    ensures SlotsHeld(ns2, a) == SlotsHeld(ns, a)
    decreases |ns| - a, 0
  {
    assert NodeOk(ns, a, minBounds);
    forall i | 0 <= i < NoChildren
      ensures InSlot(ns2, a, i) == InSlot(ns, a, i)
    {
      var c := ns[a].children[i];
      if c != Null {
        assert ChildOk(ns, a, i, minBounds);
        UnderChild(ns, a, i, minBounds);
        forall d | Under(ns, c, d)
          ensures ns2[d].objects == ns[d].objects && ns2[d].children == ns[d].children
        {
          UnderTrans(ns, a, c, d);
        }
        HeldFrame(ns, ns2, c, minBounds);
      }
    }
  }

  /**
   * Changing only node `n`'s slot `i`, and adding nodes, keeps what every
   * other slot of `n` holds.
   */
  lemma OtherSlotsKept(ns: seq<Node>, ns2: seq<Node>, n: nat, i: nat, minBounds: MinBounds)
    requires Linked(ns, minBounds) && n < |ns| <= |ns2| && i < NoChildren
    requires |ns[n].children| == NoChildren && |ns2[n].children| == NoChildren
    requires forall j :: 0 <= j < NoChildren && j != i ==> ns2[n].children[j] == ns[n].children[j]
    requires forall m :: 0 <= m < |ns| && m != n ==> ns2[m] == ns[m]
    ensures forall j :: 0 <= j < NoChildren && j != i ==> InSlot(ns2, n, j) == InSlot(ns, n, j)
  {
    assert NodeOk(ns, n, minBounds);
    forall j | 0 <= j < NoChildren && j != i
      ensures InSlot(ns2, n, j) == InSlot(ns, n, j)
    {
      var c := ns[n].children[j];
      if c != Null {
        assert ChildOk(ns, n, j, minBounds);
        HeldFrame(ns, ns2, c, minBounds);
      }
    }
  }

  /**
   * Changing only the subtree of node `n`'s child in slot `i` keeps node
   * `n` and what every other slot of `n` holds.
   */
  lemma SiblingSlotsKept(ns: seq<Node>, ns2: seq<Node>, n: nat, i: nat, minBounds: MinBounds)
    requires Linked(ns, minBounds) && n < |ns| && i < NoChildren && |ns[n].children| == NoChildren
    requires ns[n].children[i] != Null && Outside(ns, ns2, ns[n].children[i])
    ensures ns2[n] == ns[n]
    ensures forall j :: 0 <= j < NoChildren && j != i ==> InSlot(ns2, n, j) == InSlot(ns, n, j)
  {
    assert NodeOk(ns, n, minBounds) && ChildOk(ns, n, i, minBounds);
    forall j | 0 <= j < NoChildren && j != i
      ensures InSlot(ns2, n, j) == InSlot(ns, n, j)
    {
      var c := ns[n].children[j];
      if c != Null {
        assert ChildOk(ns, n, j, minBounds);
        forall d | Under(ns, c, d)
          ensures ns2[d] == ns[d]
        {
          SiblingsApart(ns, n, i, j, d, minBounds);
        }
        HeldFrame(ns, ns2, c, minBounds);
      }
    }
  }

  /** What the slots of `a` hold grows by what each slot gains, `lists[j]` for slot `j`. */
  lemma SlotsPlus(ns: seq<Node>, ns2: seq<Node>, a: int, lists: seq<seq<Region>>)
    requires |lists| == NoChildren
    requires forall j :: 0 <= j < NoChildren ==> InSlot(ns2, a, j) == InSlot(ns, a, j) + Bare(lists[j])
    ensures SlotsHeld(ns2, a)
      == SlotsHeld(ns, a) + (Bare(lists[0]) + Bare(lists[1]) + Bare(lists[2]) + Bare(lists[3])
                             + Bare(lists[4]) + Bare(lists[5]) + Bare(lists[6]) + Bare(lists[7]))
  {
    SumPlus(InSlot(ns, a, 0), InSlot(ns, a, 1), InSlot(ns, a, 2), InSlot(ns, a, 3),
            InSlot(ns, a, 4), InSlot(ns, a, 5), InSlot(ns, a, 6), InSlot(ns, a, 7),
            Bare(lists[0]), Bare(lists[1]), Bare(lists[2]), Bare(lists[3]),
            Bare(lists[4]), Bare(lists[5]), Bare(lists[6]), Bare(lists[7]));
  }

  /** Eight sums, each grown by its own part, grow the total by all the parts. */
  lemma SumPlus(s0: multiset<Region>, s1: multiset<Region>, s2: multiset<Region>, s3: multiset<Region>,
                s4: multiset<Region>, s5: multiset<Region>, s6: multiset<Region>, s7: multiset<Region>,
                m0: multiset<Region>, m1: multiset<Region>, m2: multiset<Region>, m3: multiset<Region>,
                m4: multiset<Region>, m5: multiset<Region>, m6: multiset<Region>, m7: multiset<Region>)
    ensures (s0 + m0) + (s1 + m1) + (s2 + m2) + (s3 + m3) + (s4 + m4) + (s5 + m5) + (s6 + m6) + (s7 + m7)
      == (s0 + s1 + s2 + s3 + s4 + s5 + s6 + s7) + (m0 + m1 + m2 + m3 + m4 + m5 + m6 + m7)
  {
  }
}
