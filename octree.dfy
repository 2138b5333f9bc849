/**
 * The dynamic octree of `Octree::node` (algorithms/octree.cpp).
 *
 * A `Tree` owns the node arena; every operation of `Octree::node` is a
 * method of `Tree` taking the handle of the node it runs on (`this` in the
 * engine).  Containment of an object in a node is the per-axis test of
 * `Bounds.ContainsRegion`; the other geometric tests come from an `Env`.
 */
module Octree {
  import opened States
  import opened Bounds
  import opened Partition
  import opened Nodes
  import opened Collisions
  import opened Lifecycle
  import opened Subtree

  /** Whether `build` leaves the node a leaf: one object or fewer, or a dimension below `MIN_BOUNDS`. */
  predicate BuildsLeaf(nd: Node, minBounds: real) {
    |nd.objects| <= 1 || TooSmall(nd.region, minBounds)
  }

  /**
   * `nd2` is what `build` makes of node `n` (`nd`): built and ready, its
   * objects the ones that fit no octant (all of them for a leaf), stamped
   * with `n`, and a child handle at or above `fresh` in every slot whose
   * octant received objects, the other slots as they were.
   */
  ghost predicate BuiltFrom(nd: Node, nd2: Node, n: int, minBounds: real, firstNew: int, size: int) {
    && |nd.children| == NoChildren && |nd2.children| == NoChildren
    && nd2 == nd.(objects := nd2.objects, children := nd2.children, activeOctants := nd2.activeOctants,
                  treeBuilt := true, treeReady := true)
    && (BuildsLeaf(nd, minBounds) ==>
         nd2.objects == WithCell(nd.objects, n) && nd2.children == nd.children && nd2.activeOctants == nd.activeOctants)
    && (!BuildsLeaf(nd, minBounds) ==>
         var octs := Octants(nd.region);
         && nd2.objects == WithCell(Bucket(nd.objects, octs, 8), n)
         && forall i :: 0 <= i < NoChildren ==>
              if Bucket(nd.objects, octs, i) == [] then nd2.children[i] == nd.children[i]
              else firstNew <= nd2.children[i] < size)
  }

  /**
   * A childless node that `build` split holds, in the objects that stayed
   * and in the slots filled from the octant lists, the objects it started
   * with (`ns0`: before the split, `ns1`: after the assignment pass).
   */
  lemma SplitHolds(ns0: seq<Node>, ns1: seq<Node>, ns: seq<Node>, n: nat, octs: seq<Box>, lists: seq<seq<Region>>)
    requires n < |ns0| && Childless(ns0[n]) && |octs| == NoChildren && |lists| == NoChildren
    requires ns1 == ns0[n := ns0[n].(objects := Bucket(ns0[n].objects, octs, 8))]
    requires forall j :: 0 <= j < NoChildren ==> lists[j] == Bucket(ns0[n].objects, octs, j)
    requires n < |ns| && ns[n].objects == ns1[n].objects
    requires forall j, o :: 0 <= j < NoChildren ==>
      InSlot(ns, n, j)[o] == (if lists[j] == [] then InSlot(ns1, n, j) else Bare(lists[j]))[o]
    ensures Held(ns, n) == Bare(ns0[n].objects)
  {
    var objs := ns0[n].objects;
    ChildlessHolds(ns1, n);
    forall j | 0 <= j < NoChildren
      ensures InSlot(ns, n, j) == Bare(Bucket(objs, octs, j))
    {
      if lists[j] == [] {
        assert WithCell([], -1) == [];
      }
    }
    assert SlotsHeld(ns, n)
      == Bare(Bucket(objs, octs, 0)) + Bare(Bucket(objs, octs, 1)) + Bare(Bucket(objs, octs, 2)) + Bare(Bucket(objs, octs, 3))
         + Bare(Bucket(objs, octs, 4)) + Bare(Bucket(objs, octs, 5)) + Bare(Bucket(objs, octs, 6)) + Bare(Bucket(objs, octs, 7));
    BucketsBare(objs, octs);
  }

  /**
   * What `build` promises about the objects of node `n` (`ns0` before,
   * `ns` after): a node without children ends up holding exactly the
   * objects it had, spread over its subtree.
   */
  ghost predicate HoldsOwn(ns0: seq<Node>, ns: seq<Node>, n: int) {
    0 <= n < |ns0| && Childless(ns0[n]) ==> forall o :: Held(ns, n)[o] == Bare(ns0[n].objects)[o]
  }

  /** A step that keeps what node `n` holds keeps `HoldsOwn`. */
  lemma HoldsOwnKept(ns0: seq<Node>, ns1: seq<Node>, ns2: seq<Node>, n: int)
    requires HoldsOwn(ns0, ns1, n) && forall o :: Held(ns2, n)[o] == Held(ns1, n)[o]
    ensures HoldsOwn(ns0, ns2, n)
  {
  }

  /**
   * The populate loop of `build` has filled the slots of node `n` below
   * `i` whose list is not empty with exactly that list; every other slot
   * holds what it held at the start (`ns0`).
   */
  ghost predicate SlotsFilled(ns0: seq<Node>, ns: seq<Node>, n: int, lists: seq<seq<Region>>, i: nat)
    requires |lists| == NoChildren
  {
    forall j, o :: 0 <= j < NoChildren ==>
      InSlot(ns, n, j)[o] == (if j < i && lists[j] != [] then Bare(lists[j]) else InSlot(ns0, n, j))[o]
  }

  /** One round of the populate loop of `build`. */
  lemma SlotsFilledStep(ns0: seq<Node>, ns: seq<Node>, ns2: seq<Node>, n: int, lists: seq<seq<Region>>, i: nat)
    requires |lists| == NoChildren && i < NoChildren && SlotsFilled(ns0, ns, n, lists, i)
    requires lists[i] == [] ==> ns2 == ns
    requires lists[i] != [] ==>
      && (forall o :: InSlot(ns2, n, i)[o] == Bare(lists[i])[o])
      && forall j, o :: 0 <= j < NoChildren && j != i ==> InSlot(ns2, n, j)[o] == InSlot(ns, n, j)[o]
    ensures SlotsFilled(ns0, ns2, n, lists, i + 1)
  {
  }

  /** The bookkeeping fields of a node, which `insert` and `build` never change on an existing node. */
  function Bookkeeping(nd: Node): (seq<Region>, bool, bool, int, int) {
    (nd.queue, nd.treeBuilt, nd.treeReady, nd.currentLifeSpan, nd.maxLifeSpan)
  }

  /** The bookkeeping fields of a node other than its queue. */
  function Counters(nd: Node): (bool, bool, int, int) {
    (nd.treeBuilt, nd.treeReady, nd.currentLifeSpan, nd.maxLifeSpan)
  }

  /** `insert` places an object directly, without splitting: the node is empty or too small. */
  predicate PlacesDirectly(nd: Node, minBounds: real) {
    |nd.objects| == 0 || TooSmall(nd.region, minBounds)
  }

  /**
   * The node `insert(obj)` called on `n` ends up working on: `n` itself when
   * it places `obj` directly or contains it, otherwise the answer for its
   * parent; `Null` when the root is reached without a home.
   */
  ghost function InsertTarget(ns: seq<Node>, n: int, obj: Region, minBounds: real): (t: int)
    requires Linked(ns, minBounds) && 0 <= n < |ns|
    ensures Null <= t <= n
    ensures t != Null ==> PlacesDirectly(ns[t], minBounds) || ContainsRegion(ns[t].region, obj)
    decreases n
  {
    assert NodeOk(ns, n, minBounds);
    var nd := ns[n];
    if PlacesDirectly(nd, minBounds) || ContainsRegion(nd.region, obj) then n
    else if nd.parent == Null then Null
    else InsertTarget(ns, nd.parent, obj, minBounds)
  }

  /**
   * What `insert` leaves in its target node `t` (`nd` before, `nd2` after):
   * `obj` appended with its cell set, when it is placed directly; otherwise
   * the objects of the node and `obj`, all stamped with `t`, that fit no
   * octant, and a child in every slot whose octant received objects,
   * keeping the child that was there.
   */
  ghost predicate InsertedAt(nd: Node, nd2: Node, t: int, obj: Region, minBounds: real) {
    && |nd.children| == NoChildren && |nd2.children| == NoChildren
    && nd2 == nd.(objects := nd2.objects, children := nd2.children, activeOctants := nd2.activeOctants)
    && (PlacesDirectly(nd, minBounds) ==>
         nd2.objects == nd.objects + [obj.(cell := t)] && nd2.children == nd.children && nd2.activeOctants == nd.activeOctants)
    && (!PlacesDirectly(nd, minBounds) ==>
         var all, octs := WithCell(nd.objects + [obj], t), Octants(nd.region);
         && nd2.objects == Bucket(all, octs, 8)
         && forall j :: 0 <= j < NoChildren ==>
              if Bucket(all, octs, j) == [] then nd2.children[j] == nd.children[j]
              else nd2.children[j] != Null && (nd.children[j] != Null ==> nd2.children[j] == nd.children[j]))
  }

  /**
   * `insert` placing `obj` directly at `n` (`ns` to `ns2`) adds it to what
   * the subtree of `n` holds and changes no other node.
   */
  lemma PlacedHolds(ns: seq<Node>, ns2: seq<Node>, n: nat, obj: Region, minBounds: MinBounds)
    requires Linked(ns, minBounds) && n < |ns|
    requires ns2 == ns[n := ns[n].(objects := ns[n].objects + [obj.(cell := n)])]
    ensures Outside(ns, ns2, n) && Grew(ns, ns2, n, Bare([obj]))
  {
    SlotsFrame(ns, ns2, n, minBounds);
    assert WithCell([obj], n) == [obj.(cell := n)];
    BareAppend(ns[n].objects, [obj.(cell := n)]);
    BareWithCell([obj], n);
  }

  /** A subtree that gained `list[..k]` and then `list[k]` gained `list[..k + 1]`. */
  lemma GrewByOneMore(ns0: seq<Node>, ns1: seq<Node>, ns2: seq<Node>, c: int, list: seq<Region>, k: nat)
    requires k < |list| && Grew(ns0, ns1, c, Bare(list[..k])) && Grew(ns1, ns2, c, Bare([list[k]]))
    ensures Grew(ns0, ns2, c, Bare(list[..k + 1]))
  {
    assert list[..k + 1] == list[..k] + [list[k]];
    BareAppend(list[..k], [list[k]]);
  }

  /**
   * A subtree that gained the admitted objects of `q0[..i]` and then
   * `q0[i]` when the region contains it gained those of `q0[..i + 1]`.
   */
  lemma GrewByAdmitted(ns0: seq<Node>, ns1: seq<Node>, ns2: seq<Node>, n: int, region: Box, q0: seq<Region>, i: nat)
    requires i < |q0| && Grew(ns0, ns1, n, Bare(Admitted(region, q0[..i])))
    requires Grew(ns1, ns2, n, if ContainsRegion(region, q0[i]) then Bare([q0[i]]) else multiset{})
    ensures Grew(ns0, ns2, n, Bare(Admitted(region, q0[..i + 1])))
  {
    AdmittedStep(region, q0, i);
    var one := if ContainsRegion(region, q0[i]) then [q0[i]] else [];
    BareAppend(Admitted(region, q0[..i]), one);
    assert WithCell([], -1) == [];
  }

  /**
   * A node whose objects and `obj` were reassigned by `insert` (`ns0` to
   * `ns1`) and whose slots then each gained their octant list (`ns1` to
   * `ns`) holds what it held and `obj` besides.
   */
  lemma RedistributeHolds(ns0: seq<Node>, ns1: seq<Node>, ns: seq<Node>, n: nat, obj: Region, lists: seq<seq<Region>>, minBounds: MinBounds)
    requires Linked(ns0, minBounds) && n < |ns0|
    requires var all, octs := WithCell(ns0[n].objects + [obj], n), Octants(ns0[n].region);
      && ns1 == ns0[n := ns0[n].(objects := Bucket(all, octs, 8))]
      && |lists| == NoChildren
      && forall j :: 0 <= j < NoChildren ==> lists[j] == Bucket(all, octs, j)
    requires n < |ns| && ns[n].objects == ns1[n].objects
    requires forall j :: 0 <= j < NoChildren ==> SlotGrew(ns1, ns, n, j, Bare(lists[j]))
    ensures Grew(ns0, ns, n, Bare([obj]))
  {
    var all, octs := WithCell(ns0[n].objects + [obj], n), Octants(ns0[n].region);
    SlotsGainLists(ns0, ns1, ns, n, lists, minBounds);
    SlotsPlus(ns0, ns, n, lists);
    BucketsBare(all, octs);
    BareWithCell(ns0[n].objects + [obj], n);
    BareAppend(ns0[n].objects, [obj]);
    var spread := Bare(lists[0]) + Bare(lists[1]) + Bare(lists[2]) + Bare(lists[3])
      + Bare(lists[4]) + Bare(lists[5]) + Bare(lists[6]) + Bare(lists[7]);
    Regroup(Held(ns, n), Held(ns0, n), Bare(Bucket(all, octs, 8)), spread, SlotsHeld(ns, n), SlotsHeld(ns0, n),
            Bare(ns0[n].objects), Bare([obj]));
  }

  /**
   * What stays at a node and what its slots gained make up its old objects
   * and a new one: the node holds its old subtree and the new one.
   */
  lemma Regroup(held: multiset<Region>, held0: multiset<Region>, stay: multiset<Region>, spread: multiset<Region>,
                slots: multiset<Region>, slots0: multiset<Region>, own: multiset<Region>, added: multiset<Region>)
    requires held == stay + slots && slots == slots0 + spread
    requires stay + spread == own + added && held0 == own + slots0
    ensures held == held0 + added
  {
    forall o
      ensures held[o] == (held0 + added)[o]
    {
      assert (stay + spread)[o] == (own + added)[o];
      assert held[o] == stay[o] + slots0[o] + spread[o];
    }
  }

  /** The slots of node `n` gained their octant lists between `ns1` and `ns`; only its objects changed from `ns0` to `ns1`. */
  lemma SlotsGainLists(ns0: seq<Node>, ns1: seq<Node>, ns: seq<Node>, n: nat, lists: seq<seq<Region>>, minBounds: MinBounds)
    requires Linked(ns0, minBounds) && n < |ns0| == |ns1| && |lists| == NoChildren
    requires ns1 == ns0[n := ns0[n].(objects := ns1[n].objects)]
    requires forall j :: 0 <= j < NoChildren ==> SlotGrew(ns1, ns, n, j, Bare(lists[j]))
    ensures forall j :: 0 <= j < NoChildren ==> InSlot(ns, n, j) == InSlot(ns0, n, j) + Bare(lists[j])
  {
    SlotsFrame(ns0, ns1, n, minBounds);
    forall j | 0 <= j < NoChildren
      ensures InSlot(ns, n, j) == InSlot(ns0, n, j) + Bare(lists[j])
    {
      assert SlotGrew(ns1, ns, n, j, Bare(lists[j]));
    }
  }

  /**
   * The populate loop of `insert` has grown each slot of node `n` below
   * `i` by its octant list and left the other slots as they were (`ns0`:
   * at the start).
   */
  ghost predicate SlotsGrownBy(ns0: seq<Node>, ns: seq<Node>, n: int, lists: seq<seq<Region>>, i: nat)
    requires |lists| == NoChildren
  {
    forall j, o :: 0 <= j < NoChildren ==>
      InSlot(ns, n, j)[o] == InSlot(ns0, n, j)[o] + if j < i then Bare(lists[j])[o] else 0
  }

  /** One round of the populate loop of `insert`. */
  lemma SlotsGrownStep(ns0: seq<Node>, ns: seq<Node>, ns2: seq<Node>, n: int, lists: seq<seq<Region>>, i: nat)
    requires |lists| == NoChildren && i < NoChildren && SlotsGrownBy(ns0, ns, n, lists, i)
    requires lists[i] == [] ==> ns2 == ns
    requires lists[i] != [] ==>
      && SlotGrew(ns, ns2, n, i, Bare(lists[i]))
      && forall j :: 0 <= j < NoChildren && j != i ==> SlotGrew(ns, ns2, n, j, multiset{})
    ensures SlotsGrownBy(ns0, ns2, n, lists, i + 1)
  {
    forall j, o | 0 <= j < NoChildren
      ensures InSlot(ns2, n, j)[o] == InSlot(ns0, n, j)[o] + if j < i + 1 then Bare(lists[j])[o] else 0
    {
      if lists[i] == [] {
        assert WithCell([], -1) == [];
      } else if j == i {
        assert SlotGrew(ns, ns2, n, i, Bare(lists[i]));
      } else {
        assert SlotGrew(ns, ns2, n, j, multiset{});
      }
    }
  }

  /** Replacing a queue changes what no subtree holds. */
  lemma QueueKeepsHeld(ns: seq<Node>, n: nat, q: seq<Region>, a: int, minBounds: MinBounds)
    requires Linked(ns, minBounds) && n < |ns| && 0 <= a < |ns|
    ensures Grew(ns, ns[n := ns[n].(queue := q)], a, multiset{})
  {
    HeldFrame(ns, ns[n := ns[n].(queue := q)], a, minBounds);
  }

  /** After the assignment pass every object of octant list `j` lies inside octant `j`. */
  lemma BucketsInOctants(all: seq<Region>, region: Box)
    ensures forall j, br :: 0 <= j < NoChildren && br in Bucket(all, Octants(region), j) ==>
      ContainsRegion(Octant(region, j), br)
  {
    forall j, br | 0 <= j < NoChildren && br in Bucket(all, Octants(region), j)
      ensures ContainsRegion(Octant(region, j), br)
    {
      BucketFits(all, Octants(region), j, br);
    }
  }

  /**
   * A node whose objects are reassigned by `insert` and whose octants are
   * then populated has done what `InsertedAt` describes.
   */
  lemma InsertedByPopulate(nd: Node, nd2: Node, n: int, obj: Region, lists: seq<seq<Region>>, minBounds: real)
    requires !PlacesDirectly(nd, minBounds) && |nd.children| == NoChildren && |lists| == NoChildren
    requires var all, octs := WithCell(nd.objects + [obj], n), Octants(nd.region);
      && (forall j :: 0 <= j < NoChildren ==> lists[j] == Bucket(all, octs, j))
      && nd2 == nd.(objects := Bucket(all, octs, 8), children := nd2.children, activeOctants := nd2.activeOctants)
    requires |nd2.children| == NoChildren
    requires forall j :: 0 <= j < NoChildren ==>
      if lists[j] == [] then nd2.children[j] == nd.children[j]
      else nd2.children[j] != Null && (nd.children[j] != Null ==> nd2.children[j] == nd.children[j])
    ensures InsertedAt(nd, nd2, n, obj, minBounds)
  {
  }

  /** What `Redistribute` promises, from what its assignment pass and its populate loop promise. */
  lemma RedistributeDone(ns0: seq<Node>, ns1: seq<Node>, ns: seq<Node>, n: nat, obj: Region, lists: seq<seq<Region>>,
                         minBounds: MinBounds)
    requires Linked(ns0, minBounds) && n < |ns0| && !PlacesDirectly(ns0[n], minBounds) && |ns0[n].children| == NoChildren
    requires var all, octs := WithCell(ns0[n].objects + [obj], n), Octants(ns0[n].region);
      && ns1 == ns0[n := ns0[n].(objects := Bucket(all, octs, 8))]
      && |lists| == NoChildren
      && forall j :: 0 <= j < NoChildren ==> lists[j] == Bucket(all, octs, j)
    requires Extends(ns1, ns) && Outside(ns1, ns, n)
    requires forall m :: 0 <= m < n ==> ns[m] == ns1[m]
    requires forall m :: 0 <= m < |ns1| ==> Bookkeeping(ns[m]) == Bookkeeping(ns1[m])
    requires ns[n] == ns1[n].(children := ns[n].children, activeOctants := ns[n].activeOctants)
    requires |ns[n].children| == NoChildren
    requires forall j :: 0 <= j < NoChildren ==>
      if lists[j] == [] then ns[n].children[j] == ns1[n].children[j]
      else ns[n].children[j] != Null && (ns1[n].children[j] != Null ==> ns[n].children[j] == ns1[n].children[j])
    requires forall j :: 0 <= j < NoChildren ==> SlotGrew(ns1, ns, n, j, Bare(lists[j]))
    ensures Extends(ns0, ns)
    ensures forall m :: 0 <= m < n ==> ns[m] == ns0[m]
    ensures InsertedAt(ns0[n], ns[n], n, obj, minBounds)
    ensures Outside(ns0, ns, n) && Grew(ns0, ns, n, Bare([obj]))
    ensures forall m :: 0 <= m < |ns0| ==> Bookkeeping(ns[m]) == Bookkeeping(ns0[m])
  {
    ReassignFrame(ns0, ns1, ns, n, ns1[n].objects);
    InsertedByPopulate(ns0[n], ns[n], n, obj, lists, minBounds);
    assert Under(ns1, n, n);
    OutsideTrans(ns0, ns1, ns, n, n);
    RedistributeHolds(ns0, ns1, ns, n, obj, lists, minBounds);
  }

  /**
   * The frame `insert` keeps, from `ns` to `ns3`, when node `n` first only
   * has its objects replaced (`ns2`) and its octants are then populated.
   */
  lemma ReassignFrame(ns: seq<Node>, ns2: seq<Node>, ns3: seq<Node>, n: nat, objs: seq<Region>)
    requires n < |ns| && ns2 == ns[n := ns[n].(objects := objs)]
    requires Extends(ns2, ns3)
    requires forall m :: 0 <= m < n ==> ns3[m] == ns2[m]
    requires forall m :: 0 <= m < |ns2| ==> Bookkeeping(ns3[m]) == Bookkeeping(ns2[m])
    ensures Extends(ns, ns3)
    ensures forall m :: 0 <= m < n ==> ns3[m] == ns[m]
    ensures forall m :: 0 <= m < |ns| ==> Bookkeeping(ns3[m]) == Bookkeeping(ns[m])
  {
    forall m | 0 <= m < |ns|
      ensures Bookkeeping(ns3[m]) == Bookkeeping(ns[m])
    {
      assert Bookkeeping(ns2[m]) == Bookkeeping(ns[m]);
    }
  }

  /**
   * What retrying the queue of node `n` keeps from `ns` to `ns2`: regions,
   * parents and the nodes before `n`; the bookkeeping of every other node;
   * the counters of `n`; and new nodes come built and ready.
   */
  ghost predicate Retried(ns: seq<Node>, ns2: seq<Node>, n: nat) {
    && Extends(ns, ns2) && n < |ns|
    && (forall m :: 0 <= m < n ==> ns2[m] == ns[m])
    && (forall m :: 0 <= m < |ns| && m != n ==> Bookkeeping(ns2[m]) == Bookkeeping(ns[m]))
    && (forall m :: |ns| <= m < |ns2| ==> ns2[m].treeBuilt && ns2[m].treeReady)
    && Counters(ns2[n]) == Counters(ns[n])
  }

  /** Two retries in a row keep what one keeps. */
  lemma RetriedTrans(ns: seq<Node>, ns2: seq<Node>, ns3: seq<Node>, n: nat)
    requires Retried(ns, ns2, n) && Retried(ns2, ns3, n)
    ensures Retried(ns, ns3, n)
  {
    forall m | |ns| <= m < |ns3|
      ensures ns3[m].treeBuilt && ns3[m].treeReady
    {
      if m < |ns2| {
        assert Bookkeeping(ns3[m]) == Bookkeeping(ns2[m]);
      }
    }
    forall m | 0 <= m < |ns| && m != n
      ensures Bookkeeping(ns3[m]) == Bookkeeping(ns[m])
    {
      assert Bookkeeping(ns2[m]) == Bookkeeping(ns[m]);
    }
  }

  /** Every node outside the subtree of `a` (`ns` before, `ns2` after) at most had its queue grown. */
  ghost predicate GrownOutside(ns: seq<Node>, ns2: seq<Node>, a: int) {
    && |ns| <= |ns2|
    && forall m :: 0 <= m < |ns| && !Under(ns, a, m) ==> QueueGrown(ns[m], ns2[m])
  }

  /** Two steps that each only grow queues outside the subtree of `a` together do the same. */
  lemma GrownOutsideTrans(ns: seq<Node>, ns2: seq<Node>, ns3: seq<Node>, a: int)
    requires Extends(ns, ns2) && GrownOutside(ns, ns2, a) && GrownOutside(ns2, ns3, a)
    ensures GrownOutside(ns, ns3, a)
  {
    forall m | 0 <= m < |ns| && !Under(ns, a, m)
      ensures QueueGrown(ns[m], ns3[m])
    {
      UnderKept(ns, ns2, a, m);
      assert QueueGrown(ns[m], ns2[m]) && QueueGrown(ns2[m], ns3[m]);
    }
  }

  /**
   * What each step of `update` on node `n` keeps from `ns` to `ns2`:
   * regions and parents, only grown queues outside the subtree of `n`,
   * and the counters of `n`.
   */
  ghost predicate Kept(ns: seq<Node>, ns2: seq<Node>, n: nat) {
    && Extends(ns, ns2) && n < |ns|
    && GrownOutside(ns, ns2, n)
    && Counters(ns2[n]) == Counters(ns[n])
  }

  /** Two steps of `update` keep what one keeps. */
  lemma KeptTrans(ns: seq<Node>, ns2: seq<Node>, ns3: seq<Node>, n: nat)
    requires Kept(ns, ns2, n) && Kept(ns2, ns3, n)
    ensures Kept(ns, ns3, n)
  {
    GrownOutsideTrans(ns, ns2, ns3, n);
  }

  /**
   * The lifespan countdown of `update` (`ns` to `ns1`) followed by steps
   * that keep the counters (`ns1` to `ns2`): the countdown's result stays.
   */
  lemma KeptAfterTick(ns: seq<Node>, ns1: seq<Node>, ns2: seq<Node>, n: nat, current: int, max: int)
    requires n < |ns| && ns1 == ns[n := ns[n].(currentLifeSpan := current, maxLifeSpan := max)]
    requires Kept(ns1, ns2, n)
    ensures Extends(ns, ns2) && GrownOutside(ns, ns2, n)
    ensures ns2[n].currentLifeSpan == current && ns2[n].maxLifeSpan == max
  {
    assert Counters(ns2[n]) == Counters(ns1[n]);
    forall m | 0 <= m < |ns| && !Under(ns, n, m)
      ensures QueueGrown(ns[m], ns2[m])
    {
      UnderKept(ns, ns1, n, m);
    }
  }

  /** A step that changes nothing outside the subtree of `a` only grows queues there. */
  lemma OutsideGrown(ns: seq<Node>, ns2: seq<Node>, a: int)
    requires Outside(ns, ns2, a)
    ensures GrownOutside(ns, ns2, a)
  {
  }

  /** The dead-branch loop of `update` on node `n` changes nothing outside the subtree of `n`. */
  lemma PrunedOutside(ns: seq<Node>, ns2: seq<Node>, n: nat, minBounds: MinBounds)
    requires Linked(ns, minBounds) && PrunedAt(ns, ns2, n)
    ensures Outside(ns, ns2, n)
  {
    assert NodeOk(ns, n, minBounds);
    forall d | 0 <= d < |ns| && !Under(ns, n, d)
      ensures ns2[d] == ns[d]
    {
      if d in ns[n].children {
        var i :| 0 <= i < NoChildren && ns[n].children[i] == d;
        UnderChild(ns, n, i, minBounds);
      }
    }
  }

  /**
   * Slot `j` of node `n` after the "update child nodes" loop of `update`
   * (`ns0` before it, `ns` after): a child that was built and ready has
   * taken one lifespan step from the counters it had.
   */
  ghost predicate ChildTicked(ns0: seq<Node>, ns: seq<Node>, n: nat, j: nat) {
    && n < |ns0| <= |ns| && j < |ns0[n].children|
    && var c := ns0[n].children[j];
       0 <= c < |ns0| && ns0[c].treeBuilt && ns0[c].treeReady ==>
         (ns[c].currentLifeSpan, ns[c].maxLifeSpan)
           == LifeSpanStep(|ns0[c].objects|, ns0[c].activeOctants, ns0[c].currentLifeSpan, ns0[c].maxLifeSpan)
  }

  /**
   * The "update child nodes" loop of `update` on node `n` after the slots
   * below `i` (`ns0` as the loop started): outside the subtree of `n`, at
   * `n` itself and at the children of the slots not reached yet only
   * queues grew, and every active slot reached has its child ticked.
   */
  ghost predicate ChildrenUpTo(ns0: seq<Node>, ns: seq<Node>, n: nat, i: nat) {
    && n < |ns0| && i <= NoChildren && |ns0[n].children| == NoChildren
    && Extends(ns0, ns) && GrownOutside(ns0, ns, n) && QueueGrown(ns0[n], ns[n])
    && (forall j :: i <= j < NoChildren && 0 <= ns0[n].children[j] < |ns0| ==>
          QueueGrown(ns0[ns0[n].children[j]], ns[ns0[n].children[j]]))
    && forall j :: 0 <= j < i && Bit(ns0[n].activeOctants, j) ==> ChildTicked(ns0, ns, n, j)
  }

  /** Before the "update child nodes" loop no slot has been reached. */
  lemma ChildrenStart(ns: seq<Node>, n: nat, minBounds: MinBounds)
    requires Linked(ns, minBounds) && n < |ns|
    ensures ChildrenUpTo(ns, ns, n, 0)
  {
    assert NodeOk(ns, n, minBounds);
  }

  /** A slot that is inactive or empty is passed over. */
  lemma ChildrenSkip(ns0: seq<Node>, ns: seq<Node>, n: nat, i: nat)
    requires ChildrenUpTo(ns0, ns, n, i) && i < NoChildren
    requires !Bit(ns0[n].activeOctants, i) || ns0[n].children[i] == Null
    ensures ChildrenUpTo(ns0, ns, n, i + 1)
  {
  }

  /**
   * Updating the child `c` of slot `i` (`ns` to `ns2`) keeps the loop's
   * invariant: the child takes its step, and its siblings, `n` and every
   * node outside the subtree of `n` lie outside the subtree of `c`.
   */
  lemma ChildUpdated(ns0: seq<Node>, ns: seq<Node>, ns2: seq<Node>, n: nat, i: nat, minBounds: MinBounds)
    requires Linked(ns0, minBounds) && ChildrenUpTo(ns0, ns, n, i) && i < NoChildren
    requires ns0[n].children[i] != Null
    requires var c := ns0[n].children[i];
      && Extends(ns, ns2) && GrownOutside(ns, ns2, c)
      && (0 <= c < |ns| && ns[c].treeBuilt && ns[c].treeReady ==>
            (ns2[c].currentLifeSpan, ns2[c].maxLifeSpan)
              == LifeSpanStep(|ns[c].objects|, ns[c].activeOctants, ns[c].currentLifeSpan, ns[c].maxLifeSpan))
    ensures ChildrenUpTo(ns0, ns2, n, i + 1)
  {
    var c := ns0[n].children[i];
    UnderChild(ns0, n, i, minBounds);
    ChildLower(ns0, n, i, minBounds);
    forall m | 0 <= m < |ns0| && !Under(ns0, n, m)
      ensures QueueGrown(ns0[m], ns2[m])
    {
      if Under(ns, c, m) {
        UnderKept(ns0, ns, c, m);
        UnderTrans(ns0, n, c, m);
      }
      assert QueueGrown(ns0[m], ns[m]) && QueueGrown(ns[m], ns2[m]);
    }
    assert QueueGrown(ns0[n], ns[n]) && QueueGrown(ns[n], ns2[n]);
    forall j | 0 <= j < NoChildren && j != i && 0 <= ns0[n].children[j] < |ns0|
      ensures !Under(ns, c, ns0[n].children[j])
    {
      var d := ns0[n].children[j];
      SiblingsApart(ns0, n, i, j, d, minBounds);
      UnderKept(ns0, ns, c, d);
    }
    forall j | i < j < NoChildren && 0 <= ns0[n].children[j] < |ns0|
      ensures QueueGrown(ns0[ns0[n].children[j]], ns2[ns0[n].children[j]])
    {
      var d := ns0[n].children[j];
      assert QueueGrown(ns0[d], ns[d]) && QueueGrown(ns[d], ns2[d]);
    }
    forall j | 0 <= j <= i && Bit(ns0[n].activeOctants, j)
      ensures ChildTicked(ns0, ns2, n, j)
    {
      var d := ns0[n].children[j];
      if j < i && 0 <= d < |ns0| {
        assert ChildTicked(ns0, ns, n, j) && QueueGrown(ns[d], ns2[d]);
      } else if j == i {
        assert QueueGrown(ns0[c], ns[c]);
      }
    }
  }

  /** Replacing the queue of node `n` is a retry step. */
  lemma RetriedBySet(ns: seq<Node>, n: nat, q: seq<Region>)
    requires n < |ns|
    ensures Retried(ns, ns[n := ns[n].(queue := q)], n)
  {
  }

  /** An insertion at node `n` that keeps every bookkeeping field is a retry step. */
  lemma RetriedByInsert(ns: seq<Node>, ns2: seq<Node>, n: nat)
    requires Extends(ns, ns2) && n < |ns|
    requires forall m :: 0 <= m < n ==> ns2[m] == ns[m]
    requires forall m :: 0 <= m < |ns| ==> Bookkeeping(ns2[m]) == Bookkeeping(ns[m])
    requires forall m :: |ns| <= m < |ns2| ==> ns2[m].treeBuilt && ns2[m].treeReady
    ensures Retried(ns, ns2, n)
  {
    assert Bookkeeping(ns2[n]) == Bookkeeping(ns[n]);
  }

  /** `nd2` is `nd` with objects only appended to its queue. */
  ghost predicate QueueGrown(nd: Node, nd2: Node) {
    nd2 == nd.(queue := nd2.queue) && nd.queue <= nd2.queue
  }

  /**
   * What the dead-branch loop of `update` does to slot `i` of node `n`
   * (`ns` before, `ns2` after): a child whose countdown reached 0 is reset
   * to -1 when it still holds objects and is unlinked when it does not;
   * any other slot keeps its child, and only a reset child changes.
   */
  ghost predicate SlotPruned(ns: seq<Node>, ns2: seq<Node>, n: nat, i: nat)
    requires n < |ns| == |ns2| && i < NoChildren && |ns[n].children| == NoChildren && |ns2[n].children| == NoChildren
  {
    var c := ns[n].children[i];
    if c == Null then ns2[n].children[i] == Null
    else
      && 0 <= c < |ns|
      && if ns[c].currentLifeSpan == 0 && |ns[c].objects| > 0 then
           ns2[n].children[i] == c && ns2[c] == ns[c].(currentLifeSpan := -1)
         else
           ns2[c] == ns[c] && ns2[n].children[i] == if ns[c].currentLifeSpan == 0 then Null else c
  }

  /** The dead-branch loop of `update` has run on node `n`: every slot is pruned, nothing but the node and its children changed. */
  ghost predicate PrunedAt(ns: seq<Node>, ns2: seq<Node>, n: nat) {
    && n < |ns| == |ns2|
    && |ns[n].children| == NoChildren && |ns2[n].children| == NoChildren
    && ns2[n] == ns[n].(children := ns2[n].children, activeOctants := ns2[n].activeOctants)
    && (forall m :: 0 <= m < |ns| && m != n && m !in ns[n].children ==> ns2[m] == ns[m])
    && forall i :: 0 <= i < NoChildren ==> SlotPruned(ns, ns2, n, i)
  }

  /** The dead-branch loop after the slots below `i`: those are pruned, the others untouched. */
  ghost predicate PrunedUpTo(ns: seq<Node>, ns2: seq<Node>, n: nat, i: nat) {
    && n < |ns| == |ns2| && i <= NoChildren
    && |ns[n].children| == NoChildren && |ns2[n].children| == NoChildren
    && ns2[n] == ns[n].(children := ns2[n].children, activeOctants := ns2[n].activeOctants)
    && (forall m :: 0 <= m < |ns| && m != n && m !in ns[n].children ==> ns2[m] == ns[m])
    && (forall j :: 0 <= j < i ==> SlotPruned(ns, ns2, n, j))
    && forall j :: i <= j < NoChildren ==>
         var c := ns[n].children[j];
         ns2[n].children[j] == c && (c != Null ==> 0 <= c < |ns| && ns2[c] == ns[c])
  }

  /** Before the dead-branch loop no slot has been looked at. */
  lemma PruneStart(ns: seq<Node>, n: nat, minBounds: real)
    requires Linked(ns, minBounds) && n < |ns|
    ensures PrunedUpTo(ns, ns, n, 0)
  {
    assert NodeOk(ns, n, minBounds);
    forall j | 0 <= j < NoChildren
      ensures var c := ns[n].children[j]; c != Null ==> 0 <= c < |ns|
    {
      assert ChildOk(ns, n, j, minBounds);
    }
  }

  /** An inactive slot is empty, so the loop passes over it. */
  lemma PruneInactive(ns0: seq<Node>, ns: seq<Node>, n: nat, i: nat, minBounds: real)
    requires Linked(ns0, minBounds) && PrunedUpTo(ns0, ns, n, i) && i < NoChildren
    requires !Bit(ns0[n].activeOctants, i)
    ensures PrunedUpTo(ns0, ns, n, i + 1)
  {
    assert NodeOk(ns0, n, minBounds) && ChildOk(ns0, n, i, minBounds);
  }

  /** When no active slot is left, every slot is pruned. */
  lemma PruneEnd(ns0: seq<Node>, ns: seq<Node>, n: nat, i: nat, minBounds: real)
    requires Linked(ns0, minBounds) && PrunedUpTo(ns0, ns, n, i)
    requires forall j :: i <= j < WordBits ==> !Bit(ns0[n].activeOctants, j)
    ensures PrunedAt(ns0, ns, n)
  {
    assert NodeOk(ns0, n, minBounds);
    forall j | i <= j < NoChildren
      ensures SlotPruned(ns0, ns, n, j)
    {
      assert ChildOk(ns0, n, j, minBounds);
    }
  }

  /**
   * The node a moved object is queued at: the first node from `n` up
   * whose region contains it, or the root when none does.
   */
  ghost function Home(ns: seq<Node>, n: int, obj: Region, minBounds: real): (h: int)
    requires Linked(ns, minBounds) && 0 <= n < |ns|
    ensures 0 <= h <= n
    ensures ContainsRegion(ns[h].region, obj) || ns[h].parent == Null
    decreases n
  {
    assert NodeOk(ns, n, minBounds);
    if ContainsRegion(ns[n].region, obj) || ns[n].parent == Null then n
    else Home(ns, ns[n].parent, obj, minBounds)
  }

  /** `Home` reads only regions and parents, which a growing arena keeps. */
  lemma {:induction false} HomeKept(ns: seq<Node>, ns2: seq<Node>, n: int, obj: Region, minBounds: real)
    requires Linked(ns, minBounds) && Linked(ns2, minBounds) && Extends(ns, ns2) && 0 <= n < |ns|
    ensures Home(ns2, n, obj, minBounds) == Home(ns, n, obj, minBounds)
    decreases n
  {
    assert NodeOk(ns, n, minBounds);
    if !ContainsRegion(ns[n].region, obj) && ns[n].parent != Null {
      HomeKept(ns, ns2, ns[n].parent, obj, minBounds);
    }
  }

  /**
   * What the moved-object loop of `update` on node `n` has appended to the
   * queue of node `h` once its stack is down to `s` indices (`ns0` and
   * `objs` as the loop started): the objects of the popped indices
   * `moved[s..]` whose home is `h`, in the order they were popped, from
   * the top of the stack down.
   */
  ghost function Pushed(ns0: seq<Node>, n: int, objs: seq<Region>, moved: seq<nat>, s: nat, h: int, minBounds: real): seq<Region>
    requires Linked(ns0, minBounds) && 0 <= n < |ns0|
    decreases |moved| - s
  {
    if s >= |moved| then []
    else
      var k := moved[s];
      Pushed(ns0, n, objs, moved, s + 1, h, minBounds)
        + if k < |objs| && Home(ns0, n, objs[k], minBounds) == h then [objs[k]] else []
  }

  /** Every popped index has its object among what was pushed onto the queue of its home. */
  lemma {:induction false} PushedHas(ns0: seq<Node>, n: int, objs: seq<Region>, moved: seq<nat>, s: nat, j: nat, minBounds: real)
    requires Linked(ns0, minBounds) && 0 <= n < |ns0|
    requires s <= j < |moved| && moved[j] < |objs|
    ensures objs[moved[j]] in Pushed(ns0, n, objs, moved, s, Home(ns0, n, objs[moved[j]], minBounds), minBounds)
    decreases j - s
  {
    var h := Home(ns0, n, objs[moved[j]], minBounds);
    if s < j {
      PushedHas(ns0, n, objs, moved, s + 1, j, minBounds);
    }
  }

  /** Only the objects of popped indices whose home is `h` are pushed onto the queue of `h`. */
  lemma {:induction false} PushedOnly(ns0: seq<Node>, n: int, objs: seq<Region>, moved: seq<nat>, s: nat, h: int, x: Region, minBounds: real)
    requires Linked(ns0, minBounds) && 0 <= n < |ns0|
    requires x in Pushed(ns0, n, objs, moved, s, h, minBounds)
    ensures exists j :: s <= j < |moved| && moved[j] < |objs| && objs[moved[j]] == x && Home(ns0, n, x, minBounds) == h
    decreases |moved| - s
  {
    var k := moved[s];
    if x !in Pushed(ns0, n, objs, moved, s + 1, h, minBounds) {
      assert k < |objs| && objs[k] == x && Home(ns0, n, x, minBounds) == h;
    } else {
      PushedOnly(ns0, n, objs, moved, s + 1, h, x, minBounds);
    }
  }

  /**
   * The moved-object loop of `update` on node `n` with `s` indices left on
   * the stack (`ns0` and `objs` as the loop started): the erased objects
   * are gone from the node, nothing else but queues changed, queues only
   * grew, and the object of every popped index is queued at its home.
   */
  ghost predicate RehomeInv(ns0: seq<Node>, ns: seq<Node>, n: nat, objs: seq<Region>, moved: seq<nat>, s: nat,
                            states: map<string, bv8>, minBounds: real)
  {
    && Linked(ns0, minBounds) && n < |ns0| == |ns|
    && EraseInv(states, objs, moved, s, ns[n].objects)
    && (forall m :: 0 <= m < |ns| && m != n ==>
          ns[m] == ns0[m].(queue := ns0[m].queue + Pushed(ns0, n, objs, moved, s, m, minBounds)))
    && ns[n] == ns0[n].(objects := ns[n].objects, queue := ns0[n].queue + Pushed(ns0, n, objs, moved, s, n, minBounds))
    && forall j :: 0 <= j < |moved| ==> moved[j] < |objs|
  }

  /** Before the moved-object loop the stack holds every moved index and nothing is queued yet. */
  lemma RehomeStart(ns: seq<Node>, n: nat, states: map<string, bv8>, minBounds: real)
    requires Linked(ns, minBounds) && n < |ns|
    ensures var objs := ns[n].objects;
      RehomeInv(ns, ns, n, objs, MovedIndices(states, objs), |MovedIndices(states, objs)|, states, minBounds)
  {
    var objs := ns[n].objects;
    var moved := MovedIndices(states, objs);
    EraseStart(states, objs);
    MovedIndicesSound(states, objs);
    forall m | 0 <= m < |ns|
      ensures ns[m] == ns[m].(queue := ns[m].queue + Pushed(ns, n, objs, moved, |moved|, m, minBounds))
    {
      assert ns[m].queue + [] == ns[m].queue;
    }
  }

  /** The moved-object loop changes no region and no parent. */
  lemma RehomeExtends(ns0: seq<Node>, ns: seq<Node>, n: nat, objs: seq<Region>, moved: seq<nat>, s: nat,
                      states: map<string, bv8>, minBounds: real)
    requires RehomeInv(ns0, ns, n, objs, moved, s, states, minBounds)
    ensures Extends(ns0, ns)
  {
    forall m | 0 <= m < |ns0|
      ensures ns[m].region == ns0[m].region && ns[m].parent == ns0[m].parent
    {
      if m != n {
        assert ns[m] == ns0[m].(queue := ns0[m].queue + Pushed(ns0, n, objs, moved, s, m, minBounds));
      }
    }
  }

  /** With the stack empty, the moved objects are gone from the node and each is queued at its home. */
  lemma RehomeEnd(ns0: seq<Node>, ns: seq<Node>, n: nat, objs: seq<Region>, moved: seq<nat>,
                  states: map<string, bv8>, minBounds: real)
    requires RehomeInv(ns0, ns, n, objs, moved, 0, states, minBounds)
    ensures Extends(ns0, ns)
    ensures ns[n].objects == Without(states, InstanceMoved, objs)
    ensures forall m :: 0 <= m < |ns| ==> ns[m].queue == ns0[m].queue + Pushed(ns0, n, objs, moved, 0, m, minBounds)
    ensures forall k :: 0 <= k < |objs| && Moved(states, objs[k]) ==> objs[k] in ns[Home(ns0, n, objs[k], minBounds)].queue
  {
    RehomeExtends(ns0, ns, n, objs, moved, 0, states, minBounds);
    assert Cut(moved, 0) == 0;
    assert objs[..0] == [] && objs[0..] == objs;
    forall m | 0 <= m < |ns|
      ensures ns[m].queue == ns0[m].queue + Pushed(ns0, n, objs, moved, 0, m, minBounds)
    {
    }
    forall k | 0 <= k < |objs| && Moved(states, objs[k])
      ensures objs[k] in ns[Home(ns0, n, objs[k], minBounds)].queue
    {
      var j := MovedIndexOf(states, objs, k);
      var h := Home(ns0, n, objs[k], minBounds);
      PushedHas(ns0, n, objs, moved, 0, j, minBounds);
      assert ns[h].queue == ns0[h].queue + Pushed(ns0, n, objs, moved, 0, h, minBounds);
    }
  }

  /**
   * One pop of the moved-object loop keeps its invariant: `ns2` is `ns`
   * with the object at the top index erased from node `n` and appended to
   * the queue of its home.
   */
  lemma RehomePop(ns0: seq<Node>, ns: seq<Node>, ns2: seq<Node>, n: nat, objs: seq<Region>, moved: seq<nat>, s: nat,
                  states: map<string, bv8>, minBounds: real)
    requires RehomeInv(ns0, ns, n, objs, moved, s, states, minBounds) && 0 < s
    requires moved[s - 1] < |ns[n].objects|
    requires var list, top := ns[n].objects, moved[s - 1];
      var h := Home(ns0, n, list[top], minBounds);
      var ns1 := ns[n := ns[n].(objects := list[..top] + list[top + 1..])];
      ns2 == ns1[h := ns1[h].(queue := ns1[h].queue + [list[top]])]
    ensures RehomeInv(ns0, ns2, n, objs, moved, s - 1, states, minBounds)
  {
    var top := moved[s - 1];
    EraseStep(states, objs, moved, s, ns[n].objects);
    var list := ns[n].objects;
    var x := objs[top];
    var h := Home(ns0, n, x, minBounds);
    PoppedTo(ns, ns2, n, h, list[..top] + list[top + 1..], x);
    assert forall m :: 0 <= m < |ns| ==> ns[m].queue == ns0[m].queue + Pushed(ns0, n, objs, moved, s, m, minBounds);
    QueuesPopped(ns0, ns, ns2, n, objs, moved, s, h, x, minBounds);
    forall m | 0 <= m < |ns2| && m != n
      ensures ns2[m] == ns0[m].(queue := ns0[m].queue + Pushed(ns0, n, objs, moved, s - 1, m, minBounds))
    {
      assert ns[m] == ns0[m].(queue := ns[m].queue);
    }
  }

  /** Node `n` given the objects `objs2` and `obj` appended to the queue of node `h`: nothing else changes. */
  lemma PoppedTo(ns: seq<Node>, ns2: seq<Node>, n: nat, h: int, objs2: seq<Region>, obj: Region)
    requires n < |ns| && 0 <= h < |ns|
    requires var ns1 := ns[n := ns[n].(objects := objs2)];
      ns2 == ns1[h := ns1[h].(queue := ns1[h].queue + [obj])]
    ensures |ns2| == |ns|
    ensures forall m :: 0 <= m < |ns| && m != n ==> ns2[m] == ns[m].(queue := ns2[m].queue)
    ensures ns2[n] == ns[n].(objects := objs2, queue := ns2[n].queue)
    ensures forall m :: 0 <= m < |ns| ==> ns2[m].queue == ns[m].queue + if m == h then [obj] else []
  {
    forall m | 0 <= m < |ns|
      ensures ns2[m].queue == ns[m].queue + if m == h then [obj] else []
    {
      if m != h {
        assert ns[m].queue + [] == ns[m].queue;
      }
    }
  }

  /** The queues after one pop of the moved-object loop: the popped object went onto the queue of its home `h`. */
  lemma QueuesPopped(ns0: seq<Node>, ns: seq<Node>, ns2: seq<Node>, n: nat, objs: seq<Region>, moved: seq<nat>, s: nat,
                     h: int, x: Region, minBounds: real)
    requires Linked(ns0, minBounds) && n < |ns0| == |ns| == |ns2| && 0 < s <= |moved| && moved[s - 1] < |objs|
    requires x == objs[moved[s - 1]] && h == Home(ns0, n, x, minBounds)
    requires forall m :: 0 <= m < |ns| ==> ns[m].queue == ns0[m].queue + Pushed(ns0, n, objs, moved, s, m, minBounds)
    requires forall m :: 0 <= m < |ns| ==> ns2[m].queue == ns[m].queue + if m == h then [x] else []
    ensures forall m :: 0 <= m < |ns| ==> ns2[m].queue == ns0[m].queue + Pushed(ns0, n, objs, moved, s - 1, m, minBounds)
  {
    forall m | 0 <= m < |ns|
      ensures ns2[m].queue == ns0[m].queue + Pushed(ns0, n, objs, moved, s - 1, m, minBounds)
    {
      var p := Pushed(ns0, n, objs, moved, s, m, minBounds);
      assert Pushed(ns0, n, objs, moved, s - 1, m, minBounds) == p + if m == h then [x] else [];
      if m == h {
        assert ns0[m].queue + p + [x] == ns0[m].queue + (p + [x]);
      } else {
        assert p + [] == p;
      }
    }
  }

  /**
   * Erasing from node `n` and queueing at node `h` changes no region or
   * parent, and every node other than `n` only has its queue grown.
   */
  lemma QueuedAway(ns: seq<Node>, ns2: seq<Node>, n: nat, h: nat, objs: seq<Region>, obj: Region)
    requires n < |ns| && h < |ns|
    requires var ns1 := ns[n := ns[n].(objects := objs)];
      ns2 == ns1[h := ns1[h].(queue := ns1[h].queue + [obj])]
    ensures |ns2| == |ns| && Extends(ns, ns2)
    ensures forall m :: 0 <= m < |ns2| && m != n ==> QueueGrown(ns[m], ns2[m])
    ensures ns2[n] == ns[n].(objects := ns2[n].objects, queue := ns2[n].queue)
    ensures ns[n].queue <= ns2[n].queue
  {
  }


  /** The distance a ray hit on `br` is reported at: the mesh test's when it has a mesh, the coarse entry otherwise. */
  function RayDistance(rt: RayTests, br: Region): Option<real> {
    if br.mesh.Some? then rt.meshHit(br) else rt.enterRegion(br)
  }

  /**
   * No hit on `br` nearer than `t` was passed over: a region without a
   * mesh is entered no earlier than `t`, and a region with a mesh whose
   * coarse entry is not beyond `t` is hit no earlier than `t`.
   */
  predicate NoNearerHit(rt: RayTests, br: Region, t: real) {
    && (br.mesh.None? && rt.enterRegion(br).Some? ==> t <= rt.enterRegion(br).value)
    && (br.mesh.Some? && rt.enterRegion(br).Some? && rt.enterRegion(br).value <= t && rt.meshHit(br).Some? ==>
          t <= rt.meshHit(br).value)
  }

  /** The arena shape `destroy` needs: eight slots per node, each empty or naming a later node. */
  ghost predicate Shaped(ns: seq<Node>) {
    forall m :: 0 <= m < |ns| ==>
      |ns[m].children| == NoChildren && forall i :: 0 <= i < NoChildren ==> ns[m].children[i] == Null || m < ns[m].children[i] < |ns|
  }

  /** A linked arena has that shape. */
  lemma LinkedIsShaped(ns: seq<Node>, minBounds: real)
    requires Linked(ns, minBounds)
    ensures Shaped(ns)
  {
    forall m | 0 <= m < |ns|
      ensures |ns[m].children| == NoChildren
      ensures forall i :: 0 <= i < NoChildren ==> ns[m].children[i] == Null || m < ns[m].children[i] < |ns|
    {
      assert NodeOk(ns, m, minBounds);
      forall i | 0 <= i < NoChildren
        ensures ns[m].children[i] == Null || m < ns[m].children[i] < |ns|
      {
        assert ChildOk(ns, m, i, minBounds);
      }
    }
  }

  /**
   * `nd2` is `nd` with at most its objects and its queue emptied and some
   * slots set to null: all `destroy` does to a node.
   */
  ghost predicate Cleared(nd: Node, nd2: Node) {
    && |nd2.children| == |nd.children|
    && nd2 == nd.(objects := nd2.objects, queue := nd2.queue, children := nd2.children)
    && (nd2.objects == nd.objects || nd2.objects == [])
    && (nd2.queue == nd.queue || nd2.queue == [])
    && forall i :: 0 <= i < |nd.children| ==> nd2.children[i] == nd.children[i] || nd2.children[i] == Null
  }

  /** `ns2` is `ns` with every node at most cleared, and the nodes below `lo` untouched. */
  ghost predicate ClearedBy(ns: seq<Node>, ns2: seq<Node>, lo: int) {
    && |ns2| == |ns|
    && (forall m :: 0 <= m < lo && m < |ns| ==> ns2[m] == ns[m])
    && forall m :: 0 <= m < |ns| ==> Cleared(ns[m], ns2[m])
  }

  /** Node `c` holds no object and has nothing pending. */
  ghost predicate Emptied(ns: seq<Node>, c: int) {
    0 <= c < |ns| && ns[c].objects == [] && ns[c].queue == []
  }

  /**
   * The slot loop of `destroy` on node `n` after `i` slots (`ns0` as it
   * started): only clearing happened, the slots from `i` on are untouched,
   * and each active slot before `i` is null and its old child emptied.
   */
  ghost predicate DestroyInv(ns0: seq<Node>, ns: seq<Node>, n: nat, i: nat) {
    && Shaped(ns0) && Shaped(ns) && n < |ns0| && ClearedBy(ns0, ns, n)
    && ns[n].activeOctants == ns0[n].activeOctants
    && (forall j :: i <= j < NoChildren ==> ns[n].children[j] == ns0[n].children[j])
    && (forall j :: 0 <= j < i && j < NoChildren && Bit(ns0[n].activeOctants, j) ==> ns[n].children[j] == Null)
    && forall j :: 0 <= j < i && j < NoChildren && Bit(ns0[n].activeOctants, j) && ns0[n].children[j] != Null ==>
         Emptied(ns, ns0[n].children[j])
  }

  /** A slot that is inactive or already null is passed over. */
  lemma DestroySkip(ns0: seq<Node>, ns: seq<Node>, n: nat, i: nat)
    requires DestroyInv(ns0, ns, n, i) && i < NoChildren
    requires !Bit(ns0[n].activeOctants, i) || ns[n].children[i] == Null
    ensures DestroyInv(ns0, ns, n, i + 1)
  {
  }

  /** A slot whose child was destroyed (`ns` to `ns2`) and then set to null. */
  lemma DestroyTaken(ns0: seq<Node>, ns: seq<Node>, ns2: seq<Node>, n: nat, i: nat)
    requires DestroyInv(ns0, ns, n, i) && i < NoChildren && ns[n].children[i] != Null
    requires Shaped(ns2) && ClearedBy(ns, ns2, n)
    requires ns2[n] == ns[n].(children := ns[n].children[i := Null])
    requires Emptied(ns2, ns[n].children[i])
    ensures DestroyInv(ns0, ns2, n, i + 1)
  {
    ClearedByTrans(ns0, ns, ns2, n);
  }

  /** Clearing twice is clearing; an emptied node stays empty; the shape is kept. */
  lemma ClearedByTrans(ns0: seq<Node>, ns1: seq<Node>, ns2: seq<Node>, lo: int)
    requires Shaped(ns0) && ClearedBy(ns0, ns1, lo) && ClearedBy(ns1, ns2, lo)
    ensures ClearedBy(ns0, ns2, lo) && Shaped(ns2)
    ensures forall c :: Emptied(ns1, c) ==> Emptied(ns2, c)
  {
    forall m | 0 <= m < |ns0|
      ensures Cleared(ns0[m], ns2[m])
    {
      assert Cleared(ns0[m], ns1[m]) && Cleared(ns1[m], ns2[m]);
    }
    forall m | 0 <= m < |ns2|
      ensures |ns2[m].children| == NoChildren
      ensures forall i :: 0 <= i < NoChildren ==> ns2[m].children[i] == Null || m < ns2[m].children[i] < |ns2|
    {
      assert Cleared(ns0[m], ns2[m]);
    }
    forall c | Emptied(ns1, c)
      ensures Emptied(ns2, c)
    {
      assert Cleared(ns1[c], ns2[c]);
    }
  }

  /**
   * The child loop of `checkCollisionsRay` as written reads a null slot: a
   * linked root whose only child sits in octant 1 has `activeOctants`
   * 0x02, the loop runs for two slots, and the first of them is empty.
   */
  lemma {:induction false} RayScanReachesNull(region: Box, life: int, minBounds: MinBounds)
    requires !TooSmall(region, minBounds)
    ensures var root := NewNode(region, [], Null, life);
      var ns := [root.(children := root.children[1 := 1], activeOctants := ActivateIndex(0, 1))]
                + [NewNode(Octant(region, 1), [], 0, life)];
      && Linked(ns, minBounds)
      && ns[0].activeOctants == 0x02
      && Span(ns[0].activeOctants) == 2
      && ns[0].children[..Span(ns[0].activeOctants)][0] == Null
  {
    var root := NewNode(region, [], Null, life);
    AppendNodes([], [root], minBounds);
    assert [] + [root] == [root];
    AddChild([root], 0, 1, [], life, minBounds);
    ShiftDownBits(0x02);
    ShiftDownBits(0x01);
    assert Span(0x00) == 0;
    assert Span(0x01) == 1 + Span(0x00);
    assert Span(0x02) == 1 + Span(0x01);
  }

  /** `br` is stored in the subtree of node `a`: at `a` or at a node reached down the child links. */
  ghost predicate StoredIn(ns: seq<Node>, a: int, br: Region) {
    exists d :: 0 <= d < |ns| && Reaches(ns, a, d) && br in ns[d].objects
  }

  /** `br` is stored strictly below node `a`. */
  ghost predicate StoredBelow(ns: seq<Node>, a: int, br: Region) {
    exists d :: 0 <= d < |ns| && d != a && Reaches(ns, a, d) && br in ns[d].objects
  }

  /** `br` is stored at an ancestor of node `n` other than `n` itself. */
  ghost predicate StoredAbove(ns: seq<Node>, n: int, br: Region) {
    exists d :: 0 <= d < |ns| && d != n && Under(ns, d, n) && br in ns[d].objects
  }

  /** An object of node `a` is stored in the subtree of `a`. */
  lemma StoredHere(ns: seq<Node>, a: nat, br: Region)
    requires a < |ns| && br in ns[a].objects
    ensures StoredIn(ns, a, br)
  {
    assert Reaches(ns, a, a);
  }

  /** An object stored strictly below node `a` is stored in its subtree. */
  lemma BelowIsIn(ns: seq<Node>, a: int, br: Region)
    requires StoredBelow(ns, a, br)
    ensures StoredIn(ns, a, br)
  {
    var d :| 0 <= d < |ns| && d != a && Reaches(ns, a, d) && br in ns[d].objects;
  }

  /** An object stored in the subtree of a child of `n` is stored strictly below `n`, and so in its subtree. */
  lemma StoredInChild(ns: seq<Node>, n: nat, i: nat, br: Region, minBounds: MinBounds)
    requires Linked(ns, minBounds) && n < |ns| && i < NoChildren && |ns[n].children| == NoChildren
    requires ns[n].children[i] != Null && StoredIn(ns, ns[n].children[i], br)
    ensures StoredBelow(ns, n, br) && StoredIn(ns, n, br)
  {
    var c := ns[n].children[i];
    UnderChild(ns, n, i, minBounds);
    ChildLower(ns, n, i, minBounds);
    var d :| 0 <= d < |ns| && Reaches(ns, c, d) && br in ns[d].objects;
    ReachesTrans(ns, n, c, d);
  }

  /** The parent of a node on the way up from `n` is an ancestor of `n` too, and not `n`. */
  lemma UpOne(ns: seq<Node>, m: nat, n: nat, minBounds: MinBounds)
    requires Linked(ns, minBounds) && m < |ns| && Under(ns, m, n) && ns[m].parent != Null
    ensures 0 <= ns[m].parent < m && Under(ns, ns[m].parent, n)
  {
    assert NodeOk(ns, m, minBounds);
    var p := ns[m].parent;
    assert Under(ns, p, m);
    UnderTrans(ns, p, m, n);
  }

  /** An object of the parent of a node on the way up from `n` is stored above `n`. */
  lemma StoredAtParent(ns: seq<Node>, m: nat, n: nat, br: Region, minBounds: MinBounds)
    requires Linked(ns, minBounds) && m < |ns| && Under(ns, m, n) && ns[m].parent != Null
    requires 0 <= ns[m].parent < |ns| && br in ns[ns[m].parent].objects
    ensures StoredAbove(ns, n, br)
  {
    UpOne(ns, m, n, minBounds);
  }

  /** A nearer best hit keeps every object passed over without a nearer hit. */
  lemma NoNearerHitLowered(rt: RayTests, objs: seq<Region>, t: real, t2: real)
    requires t2 <= t && forall br :: br in objs ==> NoNearerHit(rt, br, t)
    ensures forall br :: br in objs ==> NoNearerHit(rt, br, t2)
  {
  }

  class Tree {
    /** The node arena; handle 0 is the root. */
    var nodes: seq<Node>
    /** `MIN_BOUNDS`. */
    const minBounds: MinBounds
    /** The `maxLifespan` a new node starts with. */
    const lifeSpan: int

    ghost predicate Valid()
      reads this
    {
      Linked(nodes, minBounds) && AllCells(nodes)
    }

    /** `new Octree::node(bounds)`: the root, holding nothing yet. */
    constructor(bounds: Box, minBounds: MinBounds, lifeSpan: int)
      ensures this.minBounds == minBounds && this.lifeSpan == lifeSpan
      ensures nodes == [NewNode(bounds, [], Null, lifeSpan)]
      ensures Valid()
    {
      this.minBounds := minBounds;
      this.lifeSpan := lifeSpan;
      nodes := [NewNode(bounds, [], Null, lifeSpan)];
      new;
      assert !Bit(0, 0) && !Bit(0, 1) && !Bit(0, 2) && !Bit(0, 3);
      assert !Bit(0, 4) && !Bit(0, 5) && !Bit(0, 6) && !Bit(0, 7);
      assert NodeOk(nodes, 0, minBounds);
    }

    /**
     * `node::build`.  A node with one object or fewer, or with a dimension
     * below `MIN_BOUNDS`, stays a leaf.  Otherwise every object moves to the
     * first octant that contains it; each octant that received objects gets
     * a new child (replacing any child in that slot), its bit is set, and
     * the child is built in turn.  Finally the node is marked built and
     * ready and every object left in it names it as its cell.
     */
    method Build(n: int)
      requires Linked(nodes, minBounds) && 0 <= n < |nodes|
      modifies this
      ensures Linked(nodes, minBounds) && Extends(old(nodes), nodes)
      ensures forall m :: 0 <= m < old(|nodes|) && m != n ==> nodes[m] == old(nodes[m])
      ensures CellsOk(nodes, n)
      ensures forall m :: old(|nodes|) <= m < |nodes| ==> CellsOk(nodes, m) && nodes[m].treeBuilt && nodes[m].treeReady
      ensures BuiltFrom(old(nodes[n]), nodes[n], n, minBounds, old(|nodes|), |nodes|)
      ensures HoldsOwn(old(nodes), nodes, n)
      decreases Height(nodes[n].region, minBounds), 3
    {
      ghost var nodes0 := nodes;
      var nd := nodes[n];
      if |nd.objects| <= 1 || TooSmall(nd.region, minBounds) {
        // a leaf: straight to setting the state variables
        assert NodeOk(nodes, n, minBounds);
        SetVars(n);
      } else {
        Split(n);
        assert NodeOk(nodes, n, minBounds);
        ghost var mid := nodes;
        SetVars(n);
        HoldsOwnKept(nodes0, mid, nodes, n);
      }
    }

    /**
     * The `setVars` tail of `build`: the node is marked built and ready and
     * every object it stores names it as its cell; what the subtree holds
     * is unchanged.
     */
    method SetVars(n: int)
      requires Linked(nodes, minBounds) && 0 <= n < |nodes|
      modifies this
      ensures var nd := old(nodes[n]);
        nodes == old(nodes)[n := nd.(objects := WithCell(nd.objects, n), treeBuilt := true, treeReady := true)]
      ensures Linked(nodes, minBounds) && CellsOk(nodes, n)
      ensures forall o :: Held(nodes, n)[o] == old(Held(nodes, n))[o]
      ensures HoldsOwn(old(nodes), nodes, n)
    {
      assert NodeOk(nodes, n, minBounds);
      ghost var before := nodes;
      var stamped := StampCells(nodes[n].objects, n);
      ReplaceNode(nodes, n, nodes[n].(treeBuilt := true, treeReady := true, objects := stamped), minBounds);
      nodes := nodes[n := nodes[n].(treeBuilt := true, treeReady := true, objects := stamped)];
      SlotsFrame(before, nodes, n, minBounds);
      BareWithCell(before[n].objects, n);
      if Childless(before[n]) {
        ChildlessHolds(before, n);
      }
    }

    /**
     * The part of `build` between the termination checks and `setVars`:
     * the octant regions are computed, the objects are assigned to them,
     * and every octant that received objects gets a new built child.
     */
    method Split(n: int)
      requires Linked(nodes, minBounds) && 0 <= n < |nodes| && !TooSmall(nodes[n].region, minBounds)
      modifies this
      ensures Linked(nodes, minBounds) && Extends(old(nodes), nodes)
      ensures forall m :: 0 <= m < old(|nodes|) && m != n ==> nodes[m] == old(nodes[m])
      ensures forall m :: old(|nodes|) <= m < |nodes| ==> CellsOk(nodes, m) && nodes[m].treeBuilt && nodes[m].treeReady
      ensures var nd, nd2, octs := old(nodes[n]), nodes[n], Octants(old(nodes[n].region));
        && nd2 == nd.(objects := Bucket(nd.objects, octs, 8), children := nd2.children, activeOctants := nd2.activeOctants)
        && |nd.children| == NoChildren && |nd2.children| == NoChildren
        && forall j :: 0 <= j < NoChildren ==>
             if Bucket(nd.objects, octs, j) == [] then nd2.children[j] == nd.children[j]
             else old(|nodes|) <= nd2.children[j] < |nodes|
      ensures HoldsOwn(old(nodes), nodes, n)
      decreases Height(nodes[n].region, minBounds), 2
    {
      var nd := nodes[n];
      assert NodeOk(nodes, n, minBounds);
      var octs := CalculateOctants(nd.region);
      assert octs == Octants(nd.region);
      var stay, lists := AssignOctants(nd.objects, octs, None);
      assert Stamped(nd.objects, None) == nd.objects;
      ReplaceNode(nodes, n, nodes[n].(objects := stay), minBounds);
      ghost var nodes0 := nodes;
      nodes := nodes[n := nodes[n].(objects := stay)];
      ghost var mid := nodes;
      PopulateNew(n, lists);
      if Childless(nd) {
        SplitHolds(nodes0, mid, nodes, n, octs, lists);
      }
    }

    /**
     * The "populate octants" loop of `build`: every octant whose list is
     * not empty gets a new child holding that list, which is then built.
     */
    method PopulateNew(n: int, lists: seq<seq<Region>>)
      requires Linked(nodes, minBounds) && 0 <= n < |nodes| && |lists| == NoChildren
      requires |nodes[n].children| == NoChildren
      requires forall i :: 0 <= i < NoChildren && lists[i] != [] ==> !TooSmall(nodes[n].region, minBounds)
      modifies this
      ensures Linked(nodes, minBounds) && Extends(old(nodes), nodes)
      ensures forall m :: 0 <= m < old(|nodes|) && m != n ==> nodes[m] == old(nodes[m])
      ensures forall m :: old(|nodes|) <= m < |nodes| ==> CellsOk(nodes, m) && nodes[m].treeBuilt && nodes[m].treeReady
      ensures nodes[n] == old(nodes[n]).(children := nodes[n].children, activeOctants := nodes[n].activeOctants)
      ensures |nodes[n].children| == NoChildren
      ensures forall j :: 0 <= j < NoChildren ==>
        if lists[j] == [] then nodes[n].children[j] == old(nodes[n]).children[j]
        else old(|nodes|) <= nodes[n].children[j] < |nodes|
      ensures forall j, o :: 0 <= j < NoChildren ==>
        InSlot(nodes, n, j)[o] == (if lists[j] == [] then old(InSlot(nodes, n, j)) else Bare(lists[j]))[o]
      decreases Height(nodes[n].region, minBounds), 1
    {
      ghost var nodes0 := nodes;
      assert NodeOk(nodes, n, minBounds);
      for i := 0 to NoChildren
        invariant Linked(nodes, minBounds) && Extends(nodes0, nodes) && n < |nodes|
        invariant forall m :: 0 <= m < |nodes0| && m != n ==> nodes[m] == nodes0[m]
        invariant forall m :: |nodes0| <= m < |nodes| ==> CellsOk(nodes, m) && nodes[m].treeBuilt && nodes[m].treeReady
        invariant nodes[n] == nodes0[n].(children := nodes[n].children, activeOctants := nodes[n].activeOctants)
        invariant |nodes[n].children| == NoChildren
        invariant forall j :: i <= j < NoChildren ==> nodes[n].children[j] == nodes0[n].children[j]
        invariant forall j :: 0 <= j < i ==>
          if lists[j] == [] then nodes[n].children[j] == nodes0[n].children[j]
          else |nodes0| <= nodes[n].children[j] < |nodes|
        invariant SlotsFilled(nodes0, nodes, n, lists, i)
      {
        ghost var before := nodes;
        if |lists[i]| != 0 {
          assert NodeOk(nodes, n, minBounds);
          BuildChild(n, i, lists[i]);
        }
        SlotsFilledStep(nodes0, before, nodes, n, lists, i);
      }
    }

    /**
     * `node::insert(obj)`.  An empty or too small node takes `obj` directly,
     * with its cell pointed at the node.  A node that does not contain
     * `obj` hands it to its parent, and the root answers false.  Otherwise
     * `obj` joins the node's objects and all of them are assigned to
     * octants again, with their cells pointed at the node: the objects of
     * an octant with a child are inserted into it, and an octant without
     * one gets a new built child.
     */
    method Insert(n: int, obj: Region) returns (ok: bool)
      requires Valid() && 0 <= n < |nodes|
      modifies this
      ensures Valid() && Extends(old(nodes), nodes)
      ensures ok <==> InsertTarget(old(nodes), n, obj, minBounds) != Null
      ensures !ok ==> nodes == old(nodes)
      ensures var t := InsertTarget(old(nodes), n, obj, minBounds);
        && (forall m :: 0 <= m < t ==> nodes[m] == old(nodes[m]))
        && (t != Null ==> InsertedAt(old(nodes[t]), nodes[t], t, obj, minBounds))
      ensures var t := InsertTarget(old(nodes), n, obj, minBounds);
        t != Null ==> Outside(old(nodes), nodes, t) && Grew(old(nodes), nodes, t, Bare([obj]))
      ensures forall m :: 0 <= m < old(|nodes|) ==> Bookkeeping(nodes[m]) == Bookkeeping(old(nodes[m]))
      ensures forall m :: old(|nodes|) <= m < |nodes| ==> nodes[m].treeBuilt && nodes[m].treeReady
      decreases if ContainsRegion(nodes[n].region, obj) then 0 else 1,
                if ContainsRegion(nodes[n].region, obj) then Height(nodes[n].region, minBounds) else n,
                4
    {
      assert NodeOk(nodes, n, minBounds);
      var nd := nodes[n];
      if |nd.objects| == 0 || TooSmall(nd.region, minBounds) {
        Place(n, obj);
        return true;
      }
      if !ContainsRegion(nd.region, obj) {
        if nd.parent == Null {
          return false;
        }
        ok := Insert(nd.parent, obj);
        return;
      }
      Redistribute(n, obj);
      ok := true;
    }

    /** The first branch of `insert`: `obj` joins the objects of `n` with its cell pointed at `n`. */
    method Place(n: int, obj: Region)
      requires Valid() && 0 <= n < |nodes|
      modifies this
      ensures Valid()
      ensures nodes == old(nodes)[n := old(nodes[n]).(objects := old(nodes[n].objects) + [obj.(cell := n)])]
      ensures Outside(old(nodes), nodes, n) && Grew(old(nodes), nodes, n, Bare([obj]))
    {
      assert CellsOk(nodes, n);
      var v := nodes[n].(objects := nodes[n].objects + [obj.(cell := n)]);
      ReplaceNode(nodes, n, v, minBounds);
      ReplaceCells(nodes, n, v);
      PlacedHolds(nodes, nodes[n := v], n, obj, minBounds);
      nodes := nodes[n := v];
    }

    /**
     * The part of `insert` after its checks, on a node that contains `obj`
     * and holds objects: `obj` joins the objects, every object is stamped
     * with the node and assigned to an octant again, and the octants are
     * populated.
     */
    method Redistribute(n: int, obj: Region)
      requires Valid() && 0 <= n < |nodes|
      requires !PlacesDirectly(nodes[n], minBounds) && ContainsRegion(nodes[n].region, obj)
      modifies this
      ensures Valid() && Extends(old(nodes), nodes)
      ensures forall m :: 0 <= m < n ==> nodes[m] == old(nodes[m])
      ensures InsertedAt(old(nodes[n]), nodes[n], n, obj, minBounds)
      ensures Outside(old(nodes), nodes, n) && Grew(old(nodes), nodes, n, Bare([obj]))
      ensures forall m :: 0 <= m < old(|nodes|) ==> Bookkeeping(nodes[m]) == Bookkeeping(old(nodes[m]))
      ensures forall m :: old(|nodes|) <= m < |nodes| ==> nodes[m].treeBuilt && nodes[m].treeReady
      decreases 0, Height(nodes[n].region, minBounds), 3
    {
      ghost var nodes0, nd := nodes, nodes[n];
      var lists := Reassign(n, obj);
      ghost var mid := nodes;
      BucketsInOctants(WithCell(nd.objects + [obj], n), nd.region);
      PopulateInsert(n, lists);
      RedistributeDone(nodes0, mid, nodes, n, obj, lists, minBounds);
    }

    /**
     * The assignment pass of `insert`: `obj` joins the node's objects,
     * each is stamped with the node, and those that fit an octant leave
     * the node for that octant's list.
     */
    method Reassign(n: int, obj: Region) returns (lists: seq<seq<Region>>)
      requires Valid() && 0 <= n < |nodes|
      modifies this
      ensures Valid() && Extends(old(nodes), nodes) && n < |nodes| && |nodes[n].children| == NoChildren
      ensures var nd := old(nodes[n]);
        var all, octs := WithCell(nd.objects + [obj], n), Octants(nd.region);
        && nodes == old(nodes)[n := nd.(objects := Bucket(all, octs, 8))]
        && |lists| == NoChildren
        && forall j :: 0 <= j < NoChildren ==> lists[j] == Bucket(all, octs, j)
    {
      Slots(nodes, n, minBounds);
      var nd := nodes[n];
      var octs := ChildOctants(n);
      var stay, octLists := AssignOctants(nd.objects + [obj], octs, Some(n));
      ghost var all := WithCell(nd.objects + [obj], n);
      assert Stamped(nd.objects + [obj], Some(n)) == all;
      BucketCells(all, octs, 8, n);
      ReplaceNode(nodes, n, nd.(objects := stay), minBounds);
      ReplaceCells(nodes, n, nd.(objects := stay));
      nodes := nodes[n := nd.(objects := stay)];
      lists := octLists;
    }

    /**
     * The "populate the octants" loop of `insert`: the objects of an octant
     * that has a child are inserted into that child one by one; an octant
     * without a child gets a new child holding its objects, which is built.
     */
    method PopulateInsert(n: int, lists: seq<seq<Region>>)
      requires Valid() && 0 <= n < |nodes| && |lists| == NoChildren && |nodes[n].children| == NoChildren
      requires forall j :: 0 <= j < NoChildren && lists[j] != [] ==> !TooSmall(nodes[n].region, minBounds)
      requires forall j, br :: 0 <= j < NoChildren && br in lists[j] ==> ContainsRegion(Octant(nodes[n].region, j), br)
      modifies this
      ensures Valid() && Extends(old(nodes), nodes)
      ensures forall m :: 0 <= m < n ==> nodes[m] == old(nodes[m])
      ensures forall m :: 0 <= m < old(|nodes|) ==> Bookkeeping(nodes[m]) == Bookkeeping(old(nodes[m]))
      ensures forall m :: old(|nodes|) <= m < |nodes| ==> nodes[m].treeBuilt && nodes[m].treeReady
      ensures nodes[n] == old(nodes[n]).(children := nodes[n].children, activeOctants := nodes[n].activeOctants)
      ensures |nodes[n].children| == NoChildren
      ensures forall j :: 0 <= j < NoChildren ==>
        if lists[j] == [] then nodes[n].children[j] == old(nodes[n]).children[j]
        else nodes[n].children[j] != Null && (old(nodes[n]).children[j] != Null ==> nodes[n].children[j] == old(nodes[n]).children[j])
      ensures Outside(old(nodes), nodes, n)
      ensures forall j :: 0 <= j < NoChildren ==> SlotGrew(old(nodes), nodes, n, j, Bare(lists[j]))
      decreases 0, Height(nodes[n].region, minBounds), 2
    {
      ghost var nodes0 := nodes;
      assert SlotsGrownBy(nodes0, nodes, n, lists, 0);
      for i := 0 to NoChildren
        invariant Valid() && Extends(nodes0, nodes) && n < |nodes|
        invariant forall m :: 0 <= m < n ==> nodes[m] == nodes0[m]
        invariant forall m :: 0 <= m < |nodes0| ==> Bookkeeping(nodes[m]) == Bookkeeping(nodes0[m])
        invariant forall m :: |nodes0| <= m < |nodes| ==> nodes[m].treeBuilt && nodes[m].treeReady
        invariant nodes[n] == nodes0[n].(children := nodes[n].children, activeOctants := nodes[n].activeOctants)
        invariant |nodes[n].children| == NoChildren
        invariant forall j :: i <= j < NoChildren ==> nodes[n].children[j] == nodes0[n].children[j]
        invariant forall j :: 0 <= j < i ==>
          if lists[j] == [] then nodes[n].children[j] == nodes0[n].children[j]
          else nodes[n].children[j] != Null && (nodes0[n].children[j] != Null ==> nodes[n].children[j] == nodes0[n].children[j])
        invariant Outside(nodes0, nodes, n) && SlotsGrownBy(nodes0, nodes, n, lists, i)
      {
        ghost var before := nodes;
        PopulateSlot(n, i, lists[i]);
        OutsideTrans(nodes0, before, nodes, n, n);
        SlotsGrownStep(nodes0, before, nodes, n, lists, i);
      }
    }

    /**
     * One round of that loop, on slot `i` with octant list `list`: nothing
     * happens when the list is empty; otherwise its objects are inserted
     * into the child in the slot, or a new built child takes them.
     */
    method PopulateSlot(n: int, i: nat, list: seq<Region>)
      requires Valid() && 0 <= n < |nodes| && i < NoChildren && |nodes[n].children| == NoChildren
      requires list != [] ==> !TooSmall(nodes[n].region, minBounds)
      requires forall br :: br in list ==> ContainsRegion(Octant(nodes[n].region, i), br)
      modifies this
      ensures Valid() && Extends(old(nodes), nodes)
      ensures list == [] ==> nodes == old(nodes)
      ensures forall m :: 0 <= m < n ==> nodes[m] == old(nodes[m])
      ensures forall m :: 0 <= m < old(|nodes|) ==> Bookkeeping(nodes[m]) == Bookkeeping(old(nodes[m]))
      ensures forall m :: old(|nodes|) <= m < |nodes| ==> nodes[m].treeBuilt && nodes[m].treeReady
      ensures var nd, nd2 := old(nodes[n]), nodes[n];
        && nd2 == nd.(children := nd2.children, activeOctants := nd2.activeOctants)
        && |nd2.children| == NoChildren
        && (forall j :: 0 <= j < NoChildren && j != i ==> nd2.children[j] == nd.children[j])
        && (list != [] ==> nd2.children[i] != Null && (nd.children[i] != Null ==> nd2.children[i] == nd.children[i]))
      ensures Outside(old(nodes), nodes, n)
      ensures list != [] ==>
        && SlotGrew(old(nodes), nodes, n, i, Bare(list))
        && forall j :: 0 <= j < NoChildren && j != i ==> SlotGrew(old(nodes), nodes, n, j, multiset{})
      decreases 0, Height(nodes[n].region, minBounds), 1
    {
      if |list| != 0 {
        ghost var before := nodes;
        assert NodeOk(nodes, n, minBounds);
        var c := nodes[n].children[i];
        if c != Null {
          UnderChild(nodes, n, i, minBounds);
          InsertAll(n, i, list);
          OutsideTrans(before, before, nodes, n, c);
        } else {
          AddBuiltChild(n, i, list);
        }
      }
    }

    /**
     * `children[i] = new node(octants[i], octLists[i])`, then
     * `children[i]->build()`: slot `i` holds exactly the list, and no other
     * slot changes.
     */
    method BuildChild(n: int, i: nat, list: seq<Region>)
      requires Linked(nodes, minBounds) && 0 <= n < |nodes| && i < NoChildren && |nodes[n].children| == NoChildren
      requires !TooSmall(nodes[n].region, minBounds)
      modifies this
      ensures Linked(nodes, minBounds) && Extends(old(nodes), nodes)
      ensures forall m :: 0 <= m < old(|nodes|) && m != n ==> nodes[m] == old(nodes[m])
      ensures forall m :: old(|nodes|) <= m < |nodes| ==> CellsOk(nodes, m) && nodes[m].treeBuilt && nodes[m].treeReady
      ensures var nd := old(nodes[n]);
        nodes[n] == nd.(children := nd.children[i := old(|nodes|)], activeOctants := ActivateIndex(nd.activeOctants, i))
      ensures old(|nodes|) < |nodes|
      ensures forall o :: InSlot(nodes, n, i)[o] == Bare(list)[o]
      ensures forall j, o :: 0 <= j < NoChildren && j != i ==> InSlot(nodes, n, j)[o] == old(InSlot(nodes, n, j))[o]
      decreases Height(nodes[n].region, minBounds), 0
    {
      ghost var before := nodes;
      var c := NewChild(n, i, list);
      Build(c);
      assert NodeOk(nodes, n, minBounds);
      OtherSlotsKept(before, nodes, n, i, minBounds);
    }

    /** `children[i] = new node(octants[i], octLists[i])` on an empty slot, then `children[i]->build()`. */
    method AddBuiltChild(n: int, i: nat, list: seq<Region>)
      requires Valid() && 0 <= n < |nodes| && i < NoChildren && |nodes[n].children| == NoChildren
      requires nodes[n].children[i] == Null && !TooSmall(nodes[n].region, minBounds)
      modifies this
      ensures Valid() && Extends(old(nodes), nodes)
      ensures forall m :: 0 <= m < old(|nodes|) && m != n ==> nodes[m] == old(nodes[m])
      ensures forall m :: old(|nodes|) <= m < |nodes| ==> nodes[m].treeBuilt && nodes[m].treeReady
      ensures var nd := old(nodes[n]);
        nodes[n] == nd.(children := nd.children[i := old(|nodes|)], activeOctants := ActivateIndex(nd.activeOctants, i))
      ensures SlotGrew(old(nodes), nodes, n, i, Bare(list))
      ensures forall j :: 0 <= j < NoChildren && j != i ==> SlotGrew(old(nodes), nodes, n, j, multiset{})
    {
      ghost var before := nodes;
      BuildChild(n, i, list);
      forall m | 0 <= m < |nodes|
        ensures CellsOk(nodes, m)
      {
        if m < |before| {
          assert before[m].objects == nodes[m].objects;
          assert CellsOk(before, m);
        }
      }
    }

    /** `for (BoundingRegion br : octLists[i]) children[i]->insert(br)`. */
    method InsertAll(n: int, i: nat, list: seq<Region>)
      requires Valid() && 0 <= n < |nodes| && i < NoChildren && |nodes[n].children| == NoChildren
      requires nodes[n].children[i] != Null
      requires forall br :: br in list ==> ContainsRegion(Octant(nodes[n].region, i), br)
      modifies this
      ensures Valid() && Extends(old(nodes), nodes)
      ensures forall m :: 0 <= m <= n ==> nodes[m] == old(nodes[m])
      ensures forall m :: 0 <= m < old(|nodes|) ==> Bookkeeping(nodes[m]) == Bookkeeping(old(nodes[m]))
      ensures forall m :: old(|nodes|) <= m < |nodes| ==> nodes[m].treeBuilt && nodes[m].treeReady
      ensures Outside(old(nodes), nodes, old(nodes[n].children[i]))
      ensures SlotGrew(old(nodes), nodes, n, i, Bare(list))
      ensures forall j :: 0 <= j < NoChildren && j != i ==> SlotGrew(old(nodes), nodes, n, j, multiset{})
      decreases 0, Height(nodes[n].region, minBounds), 0
    {
      ghost var nodes0 := nodes;
      var c := nodes[n].children[i];
      ChildLower(nodes, n, i, minBounds);
      assert NodeOk(nodes, n, minBounds) && ChildOk(nodes, n, i, minBounds);
      InsertEach(c, list);
      SiblingSlotsKept(nodes0, nodes, n, i, minBounds);
    }

    /**
     * The body of that loop: each object of `list`, all of which node `c`
     * contains, is inserted at `c`, and the subtree of `c` gains them all.
     */
    method InsertEach(c: int, list: seq<Region>)
      requires Valid() && 0 <= c < |nodes|
      requires forall br :: br in list ==> ContainsRegion(nodes[c].region, br)
      modifies this
      ensures Valid() && Extends(old(nodes), nodes)
      ensures forall m :: 0 <= m < old(|nodes|) ==> Bookkeeping(nodes[m]) == Bookkeeping(old(nodes[m]))
      ensures forall m :: old(|nodes|) <= m < |nodes| ==> nodes[m].treeBuilt && nodes[m].treeReady
      ensures Outside(old(nodes), nodes, c) && Grew(old(nodes), nodes, c, Bare(list))
      decreases 0, Height(nodes[c].region, minBounds), 5
    {
      ghost var nodes0 := nodes;
      assert list[..0] == [] && WithCell([], -1) == [];
      for k := 0 to |list|
        invariant Valid() && Extends(nodes0, nodes) && nodes[c].region == nodes0[c].region
        invariant forall m :: 0 <= m < |nodes0| ==> Bookkeeping(nodes[m]) == Bookkeeping(nodes0[m])
        invariant forall m :: |nodes0| <= m < |nodes| ==> nodes[m].treeBuilt && nodes[m].treeReady
        invariant Outside(nodes0, nodes, c) && Grew(nodes0, nodes, c, Bare(list[..k]))
      {
        assert list[k] in list;
        ghost var before := nodes;
        assert InsertTarget(nodes, c, list[k], minBounds) == c;
        var _ := Insert(c, list[k]);
        OutsideTrans(nodes0, before, nodes, c, c);
        GrewByOneMore(nodes0, before, nodes, c, list, k);
      }
      assert list[..|list|] == list;
    }

    /**
     * The loop of `insert` that takes `octants[i]` from child `i` when it
     * exists and from `calculateBounds` otherwise; in a linked tree the two
     * agree.
     */
    method ChildOctants(n: int) returns (octs: seq<Box>)
      requires Linked(nodes, minBounds) && 0 <= n < |nodes|
      ensures octs == Octants(nodes[n].region)
    {
      assert NodeOk(nodes, n, minBounds);
      octs := [];
      for i := 0 to NoChildren
        invariant |octs| == i
        invariant forall j :: 0 <= j < i ==> octs[j] == Octant(nodes[n].region, j)
      {
        assert ChildOk(nodes, n, i, minBounds);
        if nodes[n].children[i] != Null {
          octs := octs + [nodes[nodes[n].children[i]].region];
        } else {
          octs := octs + [Octant(nodes[n].region, i)];
        }
      }
    }

    /**
     * `node::update`.  A built and ready node counts its lifespan down,
     * drops the objects of dead instances, transforms the moved ones,
     * unlinks or resets the children whose countdown ran out, updates its
     * active children, and queues every moved object at the first node up
     * the tree that contains it, reporting its collisions.  Every node then
     * processes its pending queue.
     */
    method Update(n: int, states: map<string, bv8>, env: Env) returns (events: seq<Collision>)
      requires Valid() && 0 <= n < |nodes|
      modifies this
      ensures Valid() && Extends(old(nodes), nodes)
      ensures GrownOutside(old(nodes), nodes, n)
      ensures nodes[n].treeBuilt
      ensures old(nodes[n].treeBuilt && nodes[n].treeReady) ==>
        (nodes[n].currentLifeSpan, nodes[n].maxLifeSpan)
          == LifeSpanStep(|old(nodes[n].objects)|, old(nodes[n].activeOctants), old(nodes[n].currentLifeSpan), old(nodes[n].maxLifeSpan))
      ensures forall e :: e in events ==> Gated(env, e.moved, e.hit)
      decreases Height(nodes[n].region, minBounds), 3
    {
      events := [];
      if nodes[n].treeBuilt && nodes[n].treeReady {
        events := UpdateBuilt(n, states, env);
        ghost var mid := nodes;
        ProcessPending(n, env);
        OutsideGrown(mid, nodes, n);
        assert Kept(mid, nodes, n);
        GrownOutsideTrans(old(nodes), mid, nodes, n);
      } else {
        ProcessPending(n, env);
        OutsideGrown(old(nodes), nodes, n);
      }
    }

    /**
     * The part of `update` that runs on a built and ready node, before its
     * pending queue is processed.
     */
    method UpdateBuilt(n: int, states: map<string, bv8>, env: Env) returns (events: seq<Collision>)
      requires Valid() && 0 <= n < |nodes| && nodes[n].treeBuilt && nodes[n].treeReady
      modifies this
      ensures Valid() && Extends(old(nodes), nodes) && n < |nodes|
      ensures GrownOutside(old(nodes), nodes, n)
      ensures nodes[n].treeBuilt
      ensures (nodes[n].currentLifeSpan, nodes[n].maxLifeSpan)
          == LifeSpanStep(|old(nodes[n].objects)|, old(nodes[n].activeOctants), old(nodes[n].currentLifeSpan), old(nodes[n].maxLifeSpan))
      ensures forall e :: e in events ==> Gated(env, e.moved, e.hit)
      decreases Height(nodes[n].region, minBounds), 2
    {
      ghost var s0 := nodes;
      Tick(n);
      ghost var s1 := nodes;
      var moved := SortObjects(n, states, env);
      ghost var s2 := nodes;
      assert Kept(s1, s2, n);
      Prune(n);
      ghost var s3 := nodes;
      PrunedOutside(s2, s3, n, minBounds);
      OutsideGrown(s2, s3, n);
      assert Kept(s2, s3, n);
      events := UpdateChildren(n, states, env);
      ghost var s4 := nodes;
      assert Kept(s3, s4, n);
      var more := Rehome(n, moved, states, env);
      events := events + more;
      assert Kept(s4, nodes, n);
      KeptTrans(s1, s2, s3, n);
      KeptTrans(s1, s3, s4, n);
      KeptTrans(s1, s4, nodes, n);
      KeptAfterTick(s0, s1, nodes, n, s1[n].currentLifeSpan, s1[n].maxLifeSpan);
    }

    /**
     * The "update child nodes" loop of `update`: every active child is
     * updated, so each one that was built and ready takes its lifespan
     * step, while outside the subtree of `n` and at `n` only queues grow.
     */
    method UpdateChildren(n: int, states: map<string, bv8>, env: Env) returns (events: seq<Collision>)
      requires Valid() && 0 <= n < |nodes|
      modifies this
      ensures Valid() && Extends(old(nodes), nodes)
      ensures GrownOutside(old(nodes), nodes, n) && QueueGrown(old(nodes[n]), nodes[n])
      ensures forall j :: 0 <= j < NoChildren && Bit(old(nodes[n].activeOctants), j) ==> ChildTicked(old(nodes), nodes, n, j)
      ensures forall e :: e in events ==> Gated(env, e.moved, e.hit)
      decreases Height(nodes[n].region, minBounds), 1
    {
      ghost var nodes0 := nodes;
      events := [];
      var flags := nodes[n].activeOctants;
      var f, i := flags, 0;
      ShiftStart(flags);
      ChildrenStart(nodes, n, minBounds);
      while f != 0
        invariant ShiftedBy(flags, f, i) && flags == nodes0[n].activeOctants
        invariant Valid() && Linked(nodes0, minBounds) && ChildrenUpTo(nodes0, nodes, n, i)
        invariant forall e :: e in events ==> Gated(env, e.moved, e.hit)
        decreases f as int
      {
        ShiftNext(flags, f, i);
        if IsIndexActive(f, 0) {
          var more := UpdateSlot(nodes0, n, i, states, env);
          events := events + more;
        } else {
          ChildrenSkip(nodes0, nodes, n, i);
        }
        f := ShiftDown(f);
        i := i + 1;
      }
      ShiftEnd(flags, f, i);
    }

    /** One active slot of the "update child nodes" loop: its child, if any, is updated. */
    method UpdateSlot(ghost nodes0: seq<Node>, n: int, i: nat, states: map<string, bv8>, env: Env) returns (events: seq<Collision>)
      requires 0 <= n && i < NoChildren
      requires Valid() && Linked(nodes0, minBounds) && ChildrenUpTo(nodes0, nodes, n, i)
      modifies this
      ensures Valid() && ChildrenUpTo(nodes0, nodes, n, i + 1)
      ensures forall e :: e in events ==> Gated(env, e.moved, e.hit)
      decreases Height(nodes0[n].region, minBounds), 0
    {
      events := [];
      assert QueueGrown(nodes0[n], nodes[n]);
      var c := nodes[n].children[i];
      if c != Null {
        ChildLower(nodes, n, i, minBounds);
        ghost var before := nodes;
        events := Update(c, states, env);
        ChildUpdated(nodes0, before, nodes, n, i, minBounds);
      } else {
        ChildrenSkip(nodes0, nodes, n, i);
      }
    }

    /** The countdown at the start of `update`, as `LifeSpanStep` gives it. */
    method Tick(n: int)
      requires Valid() && 0 <= n < |nodes|
      modifies this
      ensures Valid()
      ensures var nd := old(nodes[n]);
        var r := LifeSpanStep(|nd.objects|, nd.activeOctants, nd.currentLifeSpan, nd.maxLifeSpan);
        nodes == old(nodes)[n := nd.(currentLifeSpan := r.0, maxLifeSpan := r.1)]
    {
      var nd := nodes[n];
      if |nd.objects| == 0 {
        if nd.activeOctants == 0 {
          if nd.currentLifeSpan == -1 {
            nd := nd.(currentLifeSpan := nd.maxLifeSpan);
          } else if nd.currentLifeSpan > 0 {
            nd := nd.(currentLifeSpan := nd.currentLifeSpan - 1);
          }
        }
      } else {
        if nd.currentLifeSpan != -1 {
          if nd.maxLifeSpan <= 64 {
            nd := nd.(maxLifeSpan := nd.maxLifeSpan * 4);
          }
        }
      }
      assert CellsOk(nodes, n);
      ReplaceNode(nodes, n, nd, minBounds);
      ReplaceCells(nodes, n, nd);
      nodes := nodes[n := nd];
    }

    /**
     * The two object loops of `update`: objects of dead instances are
     * erased, and the moved ones are transformed, their indices stacked.
     */
    method SortObjects(n: int, states: map<string, bv8>, env: Env) returns (moved: seq<nat>)
      requires Valid() && 0 <= n < |nodes|
      modifies this
      ensures Valid() && |nodes| == old(|nodes|)
      ensures nodes == old(nodes)[n := old(nodes[n]).(objects := nodes[n].objects)]
      ensures var live := Without(states, InstanceDead, old(nodes[n].objects));
        && |nodes[n].objects| == |live|
        && forall k :: 0 <= k < |live| ==>
             nodes[n].objects[k] == if Moved(states, live[k]) then Transformed(env, live[k]) else live[k]
      ensures moved == MovedIndices(states, nodes[n].objects)
    {
      assert CellsOk(nodes, n);
      var objs := nodes[n].objects;
      var live := RemoveDead(states, objs);
      var list;
      list, moved := CollectMoved(states, env, live);
      forall k | 0 <= k < |list|
        ensures list[k].cell == n
      {
        WithoutMembers(states, InstanceDead, objs, live[k]);
        var j :| 0 <= j < |objs| && objs[j] == live[k];
      }
      var v := nodes[n].(objects := list);
      ReplaceNode(nodes, n, v, minBounds);
      ReplaceCells(nodes, n, v);
      nodes := nodes[n := v];
    }

    /** The dead-branch loop of `update`, over the active octants as they were when it started. */
    method Prune(n: int)
      requires Valid() && 0 <= n < |nodes|
      modifies this
      ensures Valid() && Extends(old(nodes), nodes) && PrunedAt(old(nodes), nodes, n)
      ensures forall m :: 0 <= m < n ==> nodes[m] == old(nodes[m])
    {
      ghost var nodes0 := nodes;
      PruneStart(nodes, n, minBounds);
      var flags := nodes[n].activeOctants;
      var f, i := flags, 0;
      ShiftStart(flags);
      while f != 0
        invariant ShiftedBy(flags, f, i) && flags == nodes0[n].activeOctants
        invariant Valid() && Linked(nodes0, minBounds) && PrunedUpTo(nodes0, nodes, n, i)
        invariant Extends(nodes0, nodes) && forall m :: 0 <= m < n ==> nodes[m] == nodes0[m]
        decreases f as int
      {
        ShiftNext(flags, f, i);
        if IsIndexActive(f, 0) {
          PruneStep(nodes0, n, i);
        } else {
          PruneInactive(nodes0, nodes, n, i, minBounds);
        }
        f := ShiftDown(f);
        i := i + 1;
      }
      ShiftEnd(flags, f, i);
      PruneEnd(nodes0, nodes, n, i, minBounds);
    }

    /** One active slot of the dead-branch loop, kept in step with the loop's invariant. */
    method PruneStep(ghost nodes0: seq<Node>, n: int, i: nat)
      requires 0 <= n && i < NoChildren
      requires Valid() && Linked(nodes0, minBounds) && PrunedUpTo(nodes0, nodes, n, i)
      requires IsIndexActive(nodes0[n].activeOctants, i)
      modifies this
      ensures Valid() && PrunedUpTo(nodes0, nodes, n, i + 1)
      ensures Extends(old(nodes), nodes) && forall m :: 0 <= m < n ==> nodes[m] == old(nodes[m])
    {
      assert NodeOk(nodes0, n, minBounds) && ChildOk(nodes0, n, i, minBounds);
      ghost var before := nodes;
      var c := nodes[n].children[i];
      forall j | 0 <= j < NoChildren
        ensures j != i ==> nodes0[n].children[j] != c
        ensures nodes0[n].children[j] != Null ==> nodes0[n].children[j] > n
      {
        assert ChildOk(nodes0, n, j, minBounds);
        if j != i {
          ChildrenDistinct(nodes0, n, i, j, minBounds);
        }
      }
      PruneSlot(n, i);
      assert SlotPruned(nodes0, nodes, n, i);
      forall j | 0 <= j < i
        ensures SlotPruned(nodes0, nodes, n, j)
      {
        assert SlotPruned(nodes0, before, n, j);
        var cj := nodes0[n].children[j];
        assert nodes[n].children[j] == before[n].children[j];
        if cj != Null {
          assert nodes[cj] == before[cj];
        }
      }
      forall j | i < j < NoChildren
        ensures var cj := nodes0[n].children[j];
          nodes[n].children[j] == cj && (cj != Null ==> 0 <= cj < |nodes0| && nodes[cj] == nodes0[cj])
      {
        var cj := nodes0[n].children[j];
        assert nodes[n].children[j] == before[n].children[j];
        if cj != Null {
          assert nodes[cj] == before[cj];
        }
      }
    }

    /**
     * `if (children[i]->currentLifeSpan == 0)` on an active slot: a child
     * that still holds objects is reset to -1; one that does not is freed,
     * its slot set to null and its bit cleared.
     */
    method PruneSlot(n: int, i: nat)
      requires Valid() && 0 <= n < |nodes| && i < NoChildren && |nodes[n].children| == NoChildren
      requires nodes[n].children[i] != Null
      modifies this
      ensures Valid()
      ensures var nd := old(nodes[n]); var c := nd.children[i];
        && |nodes| == old(|nodes|) && n < c < |nodes|
        && nodes == if old(nodes[c].currentLifeSpan) != 0 then old(nodes)
                    else if |old(nodes[c].objects)| > 0 then old(nodes)[c := old(nodes[c]).(currentLifeSpan := -1)]
                    else old(nodes)[n := nd.(children := nd.children[i := Null], activeOctants := DeactivateIndex(nd.activeOctants, i))]
    {
      assert NodeOk(nodes, n, minBounds) && ChildOk(nodes, n, i, minBounds);
      var nd := nodes[n];
      var c := nd.children[i];
      if nodes[c].currentLifeSpan == 0 {
        if |nodes[c].objects| > 0 {
          assert CellsOk(nodes, c);
          ReplaceNode(nodes, c, nodes[c].(currentLifeSpan := -1), minBounds);
          ReplaceCells(nodes, c, nodes[c].(currentLifeSpan := -1));
          nodes := nodes[c := nodes[c].(currentLifeSpan := -1)];
        } else {
          assert CellsOk(nodes, n);
          var v := nd.(children := nd.children[i := Null], activeOctants := DeactivateIndex(nd.activeOctants, i));
          RemoveChild(nodes, n, i, minBounds);
          ReplaceCells(nodes, n, v);
          nodes := nodes[n := v];
        }
      }
    }

    /**
     * The moved-object loop of `update`: the stacked indices are taken from
     * the top, so each erase removes the object its index named, and every
     * moved object is queued at its home.
     */
    method Rehome(n: int, moved: seq<nat>, states: map<string, bv8>, env: Env) returns (events: seq<Collision>)
      requires Valid() && 0 <= n < |nodes|
      requires moved == MovedIndices(states, nodes[n].objects)
      modifies this
      ensures Valid() && |nodes| == old(|nodes|) && Extends(old(nodes), nodes)
      ensures forall m :: 0 <= m < |nodes| && m != n ==> QueueGrown(old(nodes[m]), nodes[m])
      ensures nodes[n] == old(nodes[n]).(objects := Without(states, InstanceMoved, old(nodes[n].objects)), queue := nodes[n].queue)
      ensures old(nodes[n].queue) <= nodes[n].queue
      ensures forall k :: 0 <= k < |old(nodes[n].objects)| && Moved(states, old(nodes[n].objects)[k]) ==>
        old(nodes[n].objects)[k] in nodes[Home(old(nodes), n, old(nodes[n].objects)[k], minBounds)].queue
      ensures forall m :: 0 <= m < |nodes| ==>
        nodes[m].queue == old(nodes[m].queue) + Pushed(old(nodes), n, old(nodes[n].objects), moved, 0, m, minBounds)
      ensures forall e :: e in events ==> Gated(env, e.moved, e.hit)
    {
      ghost var nodes0 := nodes;
      ghost var objs := nodes[n].objects;
      var stack: nat := |moved|;
      events := [];
      RehomeStart(nodes, n, states, minBounds);
      while stack != 0
        invariant Valid() && stack <= |moved| && RehomeInv(nodes0, nodes, n, objs, moved, stack, states, minBounds)
        invariant forall e :: e in events ==> Gated(env, e.moved, e.hit)
        decreases stack
      {
        var more;
        more, stack := RehomeTop(nodes0, objs, n, moved, stack, states, env);
        events := events + more;
      }
      RehomeEnd(nodes0, nodes, n, objs, moved, states, minBounds);
    }

    /** The moved-object loop with `s` indices left: the top one is popped and its object moved out. */
    method RehomeTop(ghost nodes0: seq<Node>, ghost objs: seq<Region>, n: int, moved: seq<nat>, s: nat,
                     states: map<string, bv8>, env: Env) returns (events: seq<Collision>, rest: nat)
      requires 0 <= n && 0 < s <= |moved|
      requires Valid() && RehomeInv(nodes0, nodes, n, objs, moved, s, states, minBounds)
      modifies this
      ensures rest == s - 1
      ensures Valid() && RehomeInv(nodes0, nodes, n, objs, moved, rest, states, minBounds)
      ensures forall e :: e in events ==> Gated(env, e.moved, e.hit)
    {
      rest := s - 1;
      var top := moved[rest];
      EraseStep(states, objs, moved, s, nodes[n].objects);
      ghost var before := nodes;
      events := MoveOut(n, top, env);
      RehomeExtends(nodes0, before, n, objs, moved, s, states, minBounds);
      HomeKept(nodes0, before, n, objs[top], minBounds);
      RehomePop(nodes0, before, nodes, n, objs, moved, s, states, minBounds);
    }

    /**
     * One turn of the moved-object loop: the object at `top` is erased,
     * queued at the first node up the tree that contains it, and tested
     * for collisions against its old cell, that cell's subtree and the
     * cell's ancestors.
     */
    method MoveOut(n: int, top: nat, env: Env) returns (events: seq<Collision>)
      requires Valid() && 0 <= n < |nodes| && top < |nodes[n].objects|
      modifies this
      ensures Valid() && |nodes| == old(|nodes|)
      ensures var objs := old(nodes[n].objects);
        var h := Home(old(nodes), n, objs[top], minBounds);
        var ns1 := old(nodes)[n := old(nodes[n]).(objects := objs[..top] + objs[top + 1..])];
        nodes == ns1[h := ns1[h].(queue := ns1[h].queue + [objs[top]])]
      ensures Extends(old(nodes), nodes)
      ensures forall m :: 0 <= m < |nodes| && m != n ==> QueueGrown(old(nodes[m]), nodes[m])
      ensures nodes[n] == old(nodes[n]).(objects := nodes[n].objects, queue := nodes[n].queue)
      ensures old(nodes[n].queue) <= nodes[n].queue
      ensures forall e :: e in events ==> e.moved == old(nodes[n].objects[top]) && Gated(env, e.moved, e.hit)
    {
      assert CellsOk(nodes, n);
      ghost var nodes0 := nodes;
      var objs := nodes[n].objects;
      var movedObj := objs[top];
      var current := FindHome(n, movedObj);
      var v := nodes[n].(objects := objs[..top] + objs[top + 1..]);
      assert forall k :: 0 <= k < |v.objects| ==> v.objects[k] == if k < top then objs[k] else objs[k + 1];
      ReplaceNode(nodes, n, v, minBounds);
      ReplaceCells(nodes, n, v);
      nodes := nodes[n := v];
      SetQueue(current, nodes[current].queue + [movedObj]);
      QueuedAway(nodes0, nodes, n, current, v.objects, movedObj);
      current := movedObj.cell;
      var own := CheckSelf(current, movedObj, env);
      forall e | e in own
        ensures e.moved == movedObj && Gated(env, e.moved, e.hit)
      {
        SelfEventsExactly(env, nodes[current].objects, movedObj, e);
      }
      var below := CheckChildren(current, movedObj, env);
      var above := CheckAncestors(current, movedObj, env);
      events := own + below + above;
    }

    /** The loop of `update` that walks up from `n` to the first node containing `obj`, or the root. */
    method FindHome(n: int, obj: Region) returns (h: int)
      requires Linked(nodes, minBounds) && 0 <= n < |nodes|
      ensures h == Home(nodes, n, obj, minBounds)
    {
      h := n;
      while !ContainsRegion(nodes[h].region, obj)
        invariant 0 <= h <= n && Home(nodes, h, obj, minBounds) == Home(nodes, n, obj, minBounds)
        decreases h
      {
        assert NodeOk(nodes, h, minBounds);
        if nodes[h].parent != Null {
          h := nodes[h].parent;
        } else {
          break;
        }
      }
    }

    /**
     * `node::checkCollisionsSelf(obj)`: every stored region of another
     * instance that passes the coarse test and, when either side has mesh
     * faces, the face test, is reported, in list order, once per colliding
     * face of the region when both sides have mesh faces.
     */
    method CheckSelf(n: int, obj: Region, env: Env) returns (events: seq<Collision>)
      requires 0 <= n < |nodes|
      ensures events == SelfEvents(env, nodes[n].objects, obj)
    {
      events := [];
      var objs := nodes[n].objects;
      for k := 0 to |objs|
        invariant events == SelfEvents(env, objs[..k], obj)
      {
        var br := objs[k];
        assert objs[..k + 1][..k] == objs[..k];
        if br.instance == obj.instance {
          continue;
        }
        if env.intersects(br, obj) {
          if Faces(br) > 0 && Faces(obj) > 0 {
            // case 1: every face of `br` that hits a face of `obj` reports
            ghost var before := events;
            for i := 0 to Faces(br)
              invariant events == before + Repeat(Collision(obj, br), FaceHits(env, br, obj, i))
            {
              if env.faceHits(br, obj, i) {
                events := events + [Collision(obj, br)];
              }
            }
          } else if Faces(br) > 0 || Faces(obj) > 0 {
            if env.facesCollide(br, obj) {
              events := events + [Collision(obj, br)];
            }
          } else {
            events := events + [Collision(obj, br)];
          }
        }
      }
      assert objs[..|objs|] == objs;
    }

    /**
     * `node::checkCollisionsChildren(obj)`: every active child checks its
     * own objects, then its children, so every collision reported is a
     * gated one against a region stored below `n`.
     */
    method CheckChildren(n: int, obj: Region, env: Env) returns (events: seq<Collision>)
      requires Linked(nodes, minBounds) && 0 <= n < |nodes|
      ensures forall e :: e in events ==> e.moved == obj && Gated(env, obj, e.hit) && StoredBelow(nodes, n, e.hit)
      decreases Height(nodes[n].region, minBounds)
    {
      events := [];
      assert NodeOk(nodes, n, minBounds);
      var flags := nodes[n].activeOctants;
      var f, i := flags, 0;
      ShiftStart(flags);
      while f != 0
        invariant ShiftedBy(flags, f, i)
        invariant forall e :: e in events ==> e.moved == obj && Gated(env, obj, e.hit) && StoredBelow(nodes, n, e.hit)
        decreases f as int
      {
        ShiftNext(flags, f, i);
        if IsIndexActive(f, 0) && nodes[n].children[i] != Null {
          var c := nodes[n].children[i];
          ChildLower(nodes, n, i, minBounds);
          assert ChildOk(nodes, n, i, minBounds);
          var own := CheckSelf(c, obj, env);
          forall e | e in own
            ensures e.moved == obj && Gated(env, obj, e.hit) && StoredBelow(nodes, n, e.hit)
          {
            SelfEventsExactly(env, nodes[c].objects, obj, e);
            StoredHere(nodes, c, e.hit);
            StoredInChild(nodes, n, i, e.hit, minBounds);
          }
          var below := CheckChildren(c, obj, env);
          forall e | e in below
            ensures StoredBelow(nodes, n, e.hit)
          {
            BelowIsIn(nodes, c, e.hit);
            StoredInChild(nodes, n, i, e.hit, minBounds);
          }
          events := events + own + below;
        }
        f := ShiftDown(f);
        i := i + 1;
      }
    }

    /** The loop of `update` that checks `obj` against every ancestor of `n`. */
    method CheckAncestors(n: int, obj: Region, env: Env) returns (events: seq<Collision>)
      requires Linked(nodes, minBounds) && 0 <= n < |nodes|
      ensures forall e :: e in events ==> e.moved == obj && Gated(env, obj, e.hit) && StoredAbove(nodes, n, e.hit)
    {
      events := [];
      var current := n;
      while nodes[current].parent != Null
        invariant 0 <= current <= n && Under(nodes, current, n)
        invariant forall e :: e in events ==> e.moved == obj && Gated(env, obj, e.hit) && StoredAbove(nodes, n, e.hit)
        decreases current
      {
        assert NodeOk(nodes, current, minBounds);
        ghost var below := current;
        current := nodes[current].parent;
        var own := CheckSelf(current, obj, env);
        forall e | e in own
          ensures e.moved == obj && Gated(env, obj, e.hit) && StoredAbove(nodes, n, e.hit)
        {
          SelfEventsExactly(env, nodes[current].objects, obj, e);
          StoredAtParent(nodes, below, n, e.hit, minBounds);
        }
        UpOne(nodes, below, n, minBounds);
        events := events + own;
      }
    }

    /**
     * `node::processPending`.  An unbuilt node moves its whole queue, in
     * order, to the end of its objects and is built.  A built node takes
     * each object that was queued when it started: one its region contains
     * is inserted at the node, any other is transformed and queued again.
     */
    method ProcessPending(n: int, env: Env)
      requires Valid() && 0 <= n < |nodes|
      modifies this
      ensures Valid() && Extends(old(nodes), nodes)
      ensures forall m :: 0 <= m < n ==> nodes[m] == old(nodes[m])
      ensures forall m :: 0 <= m < old(|nodes|) && m != n ==> Bookkeeping(nodes[m]) == Bookkeeping(old(nodes[m]))
      ensures forall m :: old(|nodes|) <= m < |nodes| ==> nodes[m].treeBuilt && nodes[m].treeReady
      ensures nodes[n].treeBuilt
      ensures !old(nodes[n].treeBuilt) ==>
        BuiltFrom(old(nodes[n]).(objects := old(nodes[n].objects) + old(nodes[n].queue), queue := []),
                  nodes[n], n, minBounds, old(|nodes|), |nodes|)
      ensures old(nodes[n].treeBuilt) ==>
        nodes[n].queue == Requeued(env, old(nodes[n].region), old(nodes[n].queue)) && Counters(nodes[n]) == Counters(old(nodes[n]))
      ensures Outside(old(nodes), nodes, n)
      ensures !old(nodes[n].treeBuilt) && Childless(old(nodes[n])) ==>
        forall o :: Held(nodes, n)[o] == Bare(old(nodes[n].objects) + old(nodes[n].queue))[o]
      ensures old(nodes[n].treeBuilt) ==> Grew(old(nodes), nodes, n, Bare(Admitted(old(nodes[n].region), old(nodes[n].queue))))
    {
      if !nodes[n].treeBuilt {
        ghost var before := nodes;
        DrainQueue(n);
        ghost var drained := nodes;
        Build(n);
        forall m | 0 <= m < |nodes|
          ensures CellsOk(nodes, m)
        {
          if m < |before| && m != n {
            assert before[m].objects == drained[m].objects == nodes[m].objects;
            assert CellsOk(before, m);
          }
        }
      } else {
        RetryQueue(n, env);
      }
    }

    /** The loop of `processPending` that moves the queue of an unbuilt node to its objects. */
    method DrainQueue(n: int)
      requires Linked(nodes, minBounds) && 0 <= n < |nodes|
      modifies this
      ensures Linked(nodes, minBounds)
      ensures nodes == old(nodes)[n := old(nodes[n]).(objects := old(nodes[n].objects) + old(nodes[n].queue), queue := [])]
    {
      ghost var nd := nodes[n];
      ghost var i := 0;
      assert nd.objects + nd.queue[..0] == nd.objects && nd.queue[0..] == nd.queue;
      assert nodes == old(nodes)[n := nd];
      while |nodes[n].queue| != 0
        invariant Linked(nodes, minBounds) && i <= |nd.queue|
        invariant nodes == old(nodes)[n := nd.(objects := nd.objects + nd.queue[..i], queue := nd.queue[i..])]
        decreases |nodes[n].queue|
      {
        var v := nodes[n].(objects := nodes[n].objects + [nodes[n].queue[0]], queue := nodes[n].queue[1..]);
        assert nd.queue[..i + 1] == nd.queue[..i] + [nd.queue[i]];
        assert nd.queue[i..][1..] == nd.queue[i + 1..];
        assert v == nd.(objects := nd.objects + nd.queue[..i + 1], queue := nd.queue[i + 1..]);
        ReplaceNode(nodes, n, v, minBounds);
        nodes := nodes[n := v];
        i := i + 1;
      }
      assert nd.queue[..i] == nd.queue;
    }

    /**
     * The loop of `processPending` on a built node, run once for each
     * object queued when it starts: the front object is inserted when the
     * node contains it and is transformed and pushed back otherwise, then
     * popped.
     */
    method RetryQueue(n: int, env: Env)
      requires Valid() && 0 <= n < |nodes|
      modifies this
      ensures Valid() && Retried(old(nodes), nodes, n)
      ensures nodes[n].queue == Requeued(env, old(nodes[n].region), old(nodes[n].queue))
      ensures Outside(old(nodes), nodes, n)
      ensures Grew(old(nodes), nodes, n, Bare(Admitted(old(nodes[n].region), old(nodes[n].queue))))
    {
      ghost var nodes0 := nodes;
      ghost var q0 := nodes[n].queue;
      var len := |nodes[n].queue|;
      assert q0[0..] + Requeued(env, nodes0[n].region, q0[..0]) == q0;
      assert q0[..0] == [] && WithCell([], -1) == [];
      for i := 0 to len
        invariant Valid() && Retried(nodes0, nodes, n)
        invariant nodes[n].queue == q0[i..] + Requeued(env, nodes0[n].region, q0[..i])
        invariant Outside(nodes0, nodes, n) && Grew(nodes0, nodes, n, Bare(Admitted(nodes0[n].region, q0[..i])))
      {
        ghost var before := nodes;
        RequeuedStep(env, nodes0[n].region, q0, i, nodes[n].queue);
        RetryFront(n, env);
        RetriedTrans(nodes0, before, nodes, n);
        OutsideTrans(nodes0, before, nodes, n, n);
        GrewByAdmitted(nodes0, before, nodes, n, nodes0[n].region, q0, i);
      }
      assert q0[..len] == q0 && q0[len..] == [];
    }

    /**
     * One turn of the `processPending` loop on a built node: the front
     * object is inserted at the node when its region contains it, and
     * transformed and pushed to the back otherwise; then the front is
     * popped.
     */
    method RetryFront(n: int, env: Env)
      requires Valid() && 0 <= n < |nodes| && |nodes[n].queue| > 0
      modifies this
      ensures Valid() && Retried(old(nodes), nodes, n)
      ensures var br := old(nodes[n].queue[0]);
        nodes[n].queue == old(nodes[n].queue[1..]) + if ContainsRegion(old(nodes[n].region), br) then [] else [Transformed(env, br)]
      ensures Outside(old(nodes), nodes, n)
      ensures var br := old(nodes[n].queue[0]);
        Grew(old(nodes), nodes, n, if ContainsRegion(old(nodes[n].region), br) then Bare([br]) else multiset{})
    {
      ghost var nodes0 := nodes;
      RetryHead(n, env);
      ghost var mid := nodes;
      QueueKeepsHeld(nodes, n, nodes[n].queue[1..], n, minBounds);
      SetQueue(n, nodes[n].queue[1..]);
      RetriedBySet(mid, n, nodes[n].queue);
      RetriedTrans(nodes0, mid, nodes, n);
      OutsideTrans(nodes0, mid, nodes, n, n);
    }

    /**
     * The branch of that turn: the front object is inserted at the node
     * when its region contains it, and transformed and pushed to the back
     * of the queue otherwise.
     */
    method RetryHead(n: int, env: Env)
      requires Valid() && 0 <= n < |nodes| && |nodes[n].queue| > 0
      modifies this
      ensures Valid() && Retried(old(nodes), nodes, n)
      ensures var br := old(nodes[n].queue[0]);
        nodes[n].queue == old(nodes[n].queue) + if ContainsRegion(old(nodes[n].region), br) then [] else [Transformed(env, br)]
      ensures Outside(old(nodes), nodes, n)
      ensures var br := old(nodes[n].queue[0]);
        Grew(old(nodes), nodes, n, if ContainsRegion(old(nodes[n].region), br) then Bare([br]) else multiset{})
    {
      ghost var nodes0 := nodes;
      var br := nodes[n].queue[0];
      if ContainsRegion(nodes[n].region, br) {
        assert InsertTarget(nodes, n, br, minBounds) == n;
        var _ := Insert(n, br);
        RetriedByInsert(nodes0, nodes, n);
      } else {
        QueueKeepsHeld(nodes, n, nodes[n].queue + [Transformed(env, br)], n, minBounds);
        SetQueue(n, nodes[n].queue + [Transformed(env, br)]);
        RetriedBySet(nodes0, n, nodes[n].queue);
      }
    }

    /** `queue.push` and `queue.pop` on node `n`: its queue is replaced by `q`. */
    method SetQueue(n: int, q: seq<Region>)
      requires Valid() && 0 <= n < |nodes|
      modifies this
      ensures Valid()
      ensures nodes == old(nodes)[n := old(nodes[n]).(queue := q)]
    {
      assert CellsOk(nodes, n);
      ReplaceNode(nodes, n, nodes[n].(queue := q), minBounds);
      ReplaceCells(nodes, n, nodes[n].(queue := q));
      nodes := nodes[n := nodes[n].(queue := q)];
    }

    /**
     * `node::addToPending(instance, model)`: every bounding region of the
     * model, attached to the instance and transformed, is queued at `n`.
     */
    method AddToPending(n: int, regions: seq<Region>, instance: string, env: Env)
      requires Valid() && 0 <= n < |nodes|
      modifies this
      ensures Valid()
      ensures nodes == old(nodes)[n := old(nodes[n]).(queue := old(nodes[n].queue) + Attached(env, regions, instance))]
    {
      assert old(nodes[n].queue) + Attached(env, regions[..0], instance) == old(nodes[n].queue);
      assert nodes == old(nodes)[n := old(nodes[n])];
      for k := 0 to |regions|
        invariant Valid() && n < |nodes|
        invariant nodes == old(nodes)[n := old(nodes[n]).(queue := old(nodes[n].queue) + Attached(env, regions[..k], instance))]
      {
        var br := regions[k].(instance := instance);
        br := Transformed(env, br);
        assert Attached(env, regions[..k + 1], instance) == Attached(env, regions[..k], instance) + [br];
        assert old(nodes[n].queue) + Attached(env, regions[..k + 1], instance)
            == (old(nodes[n].queue) + Attached(env, regions[..k], instance)) + [br];
        SetQueue(n, nodes[n].queue + [br]);
      }
      assert regions[..|regions|] == regions;
    }

    /**
     * `node::checkCollisionsRay(r, tmin)`, with the child loop testing each
     * octant's bit as the other loops over `activeOctants` do.  When the
     * ray enters the node's box before `tmin`, the node's objects and then
     * its active children are searched; the result is the nearest hit
     * found and its distance, which is below `tmin` exactly when there is
     * a hit.
     */
    method Ray(n: int, rt: RayTests, tmin: real) returns (hit: Option<Region>, t: real)
      requires Linked(nodes, minBounds) && 0 <= n < |nodes|
      ensures t <= tmin && (hit.Some? <==> t < tmin)
      ensures hit.Some? ==> RayDistance(rt, hit.value) == Some(t) && StoredIn(nodes, n, hit.value)
      ensures rt.enterBox(nodes[n].region).None? || rt.enterBox(nodes[n].region).value >= tmin ==> hit == None
      ensures rt.enterBox(nodes[n].region).Some? && rt.enterBox(nodes[n].region).value < tmin ==>
        forall br :: br in nodes[n].objects ==> NoNearerHit(rt, br, t)
      decreases Height(nodes[n].region, minBounds), 2
    {
      hit, t := None, tmin;
      var entry := rt.enterBox(nodes[n].region);
      if entry.None? || entry.value >= tmin {
        return;
      }
      hit, t := RayObjects(n, rt, tmin);
      if hit.Some? {
        StoredHere(nodes, n, hit.value);
      }
      var hit2, t2 := RayChildren(n, rt, hit, t, tmin);
      NoNearerHitLowered(rt, nodes[n].objects, t, t2);
      hit, t := hit2, t2;
    }

    /**
     * The child loop of `checkCollisionsRay`: each active octant's child
     * is searched below the best distance so far, and a hit it reports
     * becomes the best one.
     */
    method RayChildren(n: int, rt: RayTests, hit0: Option<Region>, t0: real, tmin: real) returns (hit: Option<Region>, t: real)
      requires Linked(nodes, minBounds) && 0 <= n < |nodes|
      requires t0 <= tmin && (hit0.Some? <==> t0 < tmin)
      requires hit0.Some? ==> RayDistance(rt, hit0.value) == Some(t0) && StoredIn(nodes, n, hit0.value)
      ensures t <= t0 && (hit.Some? <==> t < tmin)
      ensures hit.Some? ==> RayDistance(rt, hit.value) == Some(t) && StoredIn(nodes, n, hit.value)
      decreases Height(nodes[n].region, minBounds), 1
    {
      hit, t := hit0, t0;
      Slots(nodes, n, minBounds);
      var flags := nodes[n].activeOctants;
      var f, i := flags, 0;
      ShiftStart(flags);
      while f != 0
        invariant ShiftedBy(flags, f, i)
        invariant t <= t0 && (hit.Some? <==> t < tmin)
        invariant hit.Some? ==> RayDistance(rt, hit.value) == Some(t) && StoredIn(nodes, n, hit.value)
        decreases f as int
      {
        ShiftNext(flags, f, i);
        if IsIndexActive(f, 0) && nodes[n].children[i] != Null {
          hit, t := RaySlot(n, i, rt, hit, t, tmin);
        }
        f := ShiftDown(f);
        i := i + 1;
      }
    }

    /** One active octant of the child loop of `checkCollisionsRay`: its child is searched below the best distance so far. */
    method RaySlot(n: int, i: nat, rt: RayTests, hit0: Option<Region>, t0: real, tmin: real) returns (hit: Option<Region>, t: real)
      requires Linked(nodes, minBounds) && 0 <= n < |nodes| && i < NoChildren
      requires |nodes[n].children| == NoChildren && nodes[n].children[i] != Null
      requires t0 <= tmin && (hit0.Some? <==> t0 < tmin)
      requires hit0.Some? ==> RayDistance(rt, hit0.value) == Some(t0) && StoredIn(nodes, n, hit0.value)
      ensures t <= t0 && (hit.Some? <==> t < tmin)
      ensures hit.Some? ==> RayDistance(rt, hit.value) == Some(t) && StoredIn(nodes, n, hit.value)
      ensures hit != hit0 ==> hit.Some? && StoredIn(nodes, nodes[n].children[i], hit.value)
      decreases Height(nodes[n].region, minBounds), 0
    {
      hit, t := hit0, t0;
      var c := nodes[n].children[i];
      ChildLower(nodes, n, i, minBounds);
      var found, tc := Ray(c, rt, t);
      if found.Some? {
        StoredInChild(nodes, n, i, found.value, minBounds);
        hit, t := found, tc;
      }
    }

    /** The object loop of `checkCollisionsRay`: the nearest object of node `n` the ray hits before `tmin`. */
    method RayObjects(n: int, rt: RayTests, tmin: real) returns (hit: Option<Region>, t: real)
      requires 0 <= n < |nodes|
      ensures t <= tmin && (hit.Some? <==> t < tmin)
      ensures hit.Some? ==> RayDistance(rt, hit.value) == Some(t) && hit.value in nodes[n].objects
      ensures forall br :: br in nodes[n].objects ==> NoNearerHit(rt, br, t)
    {
      hit, t := None, tmin;
      var objs := nodes[n].objects;
      for k := 0 to |objs|
        invariant t <= tmin && (hit.Some? <==> t < tmin)
        invariant hit.Some? ==> RayDistance(rt, hit.value) == Some(t) && hit.value in objs
        invariant forall j :: 0 <= j < k ==> NoNearerHit(rt, objs[j], t)
      {
        var br := objs[k];
        var e := rt.enterRegion(br);
        if e.Some? {
          if e.value > t {
            continue;
          } else if br.mesh.Some? {
            var d := rt.meshHit(br);
            if d.Some? && d.value < t {
              t := d.value;
              hit := Some(br);
            }
          } else if e.value < t {
            t := e.value;
            hit := Some(br);
          }
        }
      }
    }

    /**
     * The child loop of `checkCollisionsRay` as written: it follows
     * `children[i]` for every `i` until the shifted mask reads zero,
     * without testing the octant's bit.  The handles it follows are the
     * slots below one past the highest active octant.
     */
    method RayScanSlots(n: int) returns (visited: seq<int>)
      requires Linked(nodes, minBounds) && 0 <= n < |nodes|
      ensures |visited| == Span(nodes[n].activeOctants) <= |nodes[n].children|
      ensures visited == nodes[n].children[..|visited|]
    {
      assert NodeOk(nodes, n, minBounds);
      var flags := nodes[n].activeOctants;
      SpanIsHighestBit(flags);
      visited := [];
      var f, i := flags, 0;
      while f != 0
        invariant 0 <= i <= Span(flags) && Span(f) == Span(flags) - i
        invariant visited == nodes[n].children[..i]
        decreases f as int
      {
        ShiftDownBits(f);
        visited := visited + [nodes[n].children[i]];
        f := ShiftDown(f);
        i := i + 1;
      }
    }

    /**
     * `node::destroy`: every active child is destroyed and its slot set to
     * null, then the node's objects and queue are cleared.  The octant bits
     * are left as they were.  No node is changed beyond being cleared, none
     * before `n` at all, and the node and each child it had end up empty.
     */
    method Destroy(n: int)
      requires Shaped(nodes) && 0 <= n < |nodes|
      modifies this
      ensures Shaped(nodes) && ClearedBy(old(nodes), nodes, n)
      ensures Emptied(nodes, n) && nodes[n].activeOctants == old(nodes[n].activeOctants)
      ensures forall i :: 0 <= i < NoChildren && IsIndexActive(old(nodes[n].activeOctants), i) ==> nodes[n].children[i] == Null
      ensures forall i :: 0 <= i < NoChildren && IsIndexActive(old(nodes[n].activeOctants), i) && old(nodes[n].children[i]) != Null ==>
        Emptied(nodes, old(nodes[n].children[i]))
      decreases |nodes| - n, 1
    {
      ghost var nodes0 := nodes;
      var flags := nodes[n].activeOctants;
      var f, i := flags, 0;
      ShiftStart(flags);
      while f != 0
        invariant ShiftedBy(flags, f, i) && flags == nodes0[n].activeOctants
        invariant DestroyInv(nodes0, nodes, n, i)
        decreases f as int
      {
        ShiftNext(flags, f, i);
        if IsIndexActive(f, 0) && nodes[n].children[i] != Null {
          ghost var nodes1 := nodes;
          DestroySlot(n, i);
          DestroyTaken(nodes0, nodes1, nodes, n, i);
        } else {
          DestroySkip(nodes0, nodes, n, i);
        }
        f := ShiftDown(f);
        i := i + 1;
      }
      ShiftEnd(flags, f, i);
      ghost var nodes1 := nodes;
      EmptyNode(n);
      ClearedByTrans(nodes0, nodes1, nodes, n);
    }

    /** `objects.clear(); queue = {}` at the end of `destroy`. */
    method EmptyNode(n: int)
      requires 0 <= n < |nodes|
      modifies this
      ensures nodes == old(nodes)[n := old(nodes[n]).(objects := [], queue := [])]
      ensures ClearedBy(old(nodes), nodes, n)
    {
      nodes := nodes[n := nodes[n].(objects := [], queue := [])];
    }

    /** One slot of `destroy`: `children[i]->destroy(); children[i] = nullptr`. */
    method DestroySlot(n: int, i: nat)
      requires Shaped(nodes) && 0 <= n < |nodes| && i < NoChildren && nodes[n].children[i] != Null
      modifies this
      ensures Shaped(nodes) && ClearedBy(old(nodes), nodes, n)
      ensures nodes[n] == old(nodes[n]).(children := old(nodes[n].children)[i := Null])
      ensures Emptied(nodes, old(nodes[n].children[i]))
      decreases |nodes| - n, 0
    {
      ghost var nodes0 := nodes;
      var c := nodes[n].children[i];
      Destroy(c);
      ghost var nodes1 := nodes;
      nodes := nodes[n := nodes[n].(children := nodes[n].children[i := Null])];
      assert ClearedBy(nodes1, nodes, n);
      ClearedByTrans(nodes0, nodes1, nodes, n);
    }

    /**
     * `children[i] = new node(octants[i], list); children[i]->parent = this;
     * activateIndex(&activeOctants, i)`: a new unbuilt child covering octant
     * `i` and holding `objs` is appended and linked into slot `i`.
     */
    method NewChild(n: int, i: nat, objs: seq<Region>) returns (c: int)
      requires Linked(nodes, minBounds) && 0 <= n < |nodes| && i < NoChildren
      requires |nodes[n].children| == NoChildren && !TooSmall(nodes[n].region, minBounds)
      modifies this
      ensures c == old(|nodes|)
      ensures var nd := old(nodes[n]);
        nodes == old(nodes)[n := nd.(children := nd.children[i := c], activeOctants := ActivateIndex(nd.activeOctants, i))]
                 + [NewNode(Octant(nd.region, i), objs, n, lifeSpan)]
      ensures Linked(nodes, minBounds) && Extends(old(nodes), nodes)
      ensures 0 <= Height(nodes[c].region, minBounds) < Height(nodes[n].region, minBounds)
    {
      assert NodeOk(nodes, n, minBounds);
      c := |nodes|;
      var nd := nodes[n];
      AddChild(nodes, n, i, objs, lifeSpan, minBounds);
      nodes := nodes[n := nd.(children := nd.children[i := c], activeOctants := ActivateIndex(nd.activeOctants, i))]
               + [NewNode(Octant(nd.region, i), objs, n, lifeSpan)];
      ChildLower(nodes, n, i, minBounds);
    }
  }

  /** The loop that fills `octants[i]` by `calculateBounds` for every octant. */
  method CalculateOctants(region: Box) returns (octs: seq<Box>)
    ensures |octs| == NoChildren
    ensures forall i :: 0 <= i < NoChildren ==> octs[i] == Octant(region, i)
  {
    octs := [];
    for i := 0 to NoChildren
      invariant |octs| == i
      invariant forall j :: 0 <= j < i ==> octs[j] == Octant(region, j)
    {
      octs := octs + [Octant(region, i)];
    }
  }

  /** The loop of `build` that points every remaining object's `cell` at the node. */
  method StampCells(objs: seq<Region>, c: int) returns (r: seq<Region>)
    ensures r == WithCell(objs, c)
  {
    r := objs;
    for i := 0 to |r|
      invariant |r| == |objs|
      invariant forall k :: 0 <= k < i ==> r[k] == objs[k].(cell := c)
      invariant forall k :: i <= k < |r| ==> r[k] == objs[k]
    {
      r := r[i := r[i].(cell := c)];
    }
  }
}
