/**
 * The octant-assignment pass shared by `node::build` and `node::insert`:
 * every object goes to the first of the eight octants (in order O1..O8)
 * that contains it, and an object that fits none stays in the node.
 */
module Partition {
  import opened Bounds

  /** The eight octant regions of a node's box, in the order O1..O8. */
  function Octants(region: Box): (octs: seq<Box>)
    ensures |octs| == 8
    ensures forall i :: 0 <= i < 8 ==> octs[i] == Octant(region, i)
  {
    seq(8, i requires 0 <= i < 8 => Octant(region, i))
  }

  /**
   * The first octant at index `j` or later that contains `r`, or 8 when
   * none does.
   */
  function FirstFit(octants: seq<Box>, r: Region, j: nat): (k: nat)
    requires |octants| == 8 && j <= 8
    ensures j <= k <= 8
    ensures k < 8 ==> ContainsRegion(octants[k], r)
    ensures forall m :: j <= m < k ==> !ContainsRegion(octants[m], r)
    decreases 8 - j
  {
    if j == 8 then 8
    else if ContainsRegion(octants[j], r) then j
    else FirstFit(octants, r, j + 1)
  }

  /** The octant an object is moved to, or 8 when it stays in the node. */
  function Target(octants: seq<Box>, r: Region): (k: nat)
    requires |octants| == 8
  {
    FirstFit(octants, r, 0)
  }

  /** The first-fit octant is the unique one that contains `r` with no earlier one containing it. */
  lemma {:induction false} TargetIs(octants: seq<Box>, r: Region, k: nat)
    requires |octants| == 8 && k <= 8
    requires k < 8 ==> ContainsRegion(octants[k], r)
    requires forall m :: 0 <= m < k ==> !ContainsRegion(octants[m], r)
    ensures Target(octants, r) == k
  {
  }

  /**
   * The objects of `objs` whose target is `j` (8: the objects that stay),
   * in their original order.
   */
  function Bucket(objs: seq<Region>, octants: seq<Box>, j: nat): (b: seq<Region>)
    requires |octants| == 8
    ensures |b| <= |objs|
  {
    if objs == [] then []
    else
      var last := objs[|objs| - 1];
      Bucket(objs[..|objs| - 1], octants, j) + (if Target(octants, last) == j then [last] else [])
  }

  /** Appending an object appends it to the bucket of its target only. */
  lemma BucketSnoc(objs: seq<Region>, octants: seq<Box>, x: Region, j: nat)
    requires |octants| == 8
    ensures Bucket(objs + [x], octants, j) == Bucket(objs, octants, j) + (if Target(octants, x) == j then [x] else [])
  {
    assert (objs + [x])[..|objs + [x]| - 1] == objs;
  }

  /** Taking one more object of `objs` extends only the bucket of its target. */
  lemma BucketsStep(objs: seq<Region>, octants: seq<Box>, k: nat)
    requires |octants| == 8 && k < |objs|
    ensures forall m :: 0 <= m <= 8 ==>
      Bucket(objs[..k + 1], octants, m)
        == Bucket(objs[..k], octants, m) + (if Target(octants, objs[k]) == m then [objs[k]] else [])
  {
    assert objs[..k + 1] == objs[..k] + [objs[k]];
    forall m | 0 <= m <= 8
      ensures Bucket(objs[..k + 1], octants, m)
        == Bucket(objs[..k], octants, m) + (if Target(octants, objs[k]) == m then [objs[k]] else [])
    {
      BucketSnoc(objs[..k], octants, objs[k], m);
    }
  }

  /** Bucket `j` holds exactly the objects whose target is `j`. */
  lemma {:induction false} BucketMembers(objs: seq<Region>, octants: seq<Box>, j: nat, o: Region)
    requires |octants| == 8
    ensures o in Bucket(objs, octants, j) <==> o in objs && Target(octants, o) == j
  {
    if objs != [] {
      var init := objs[..|objs| - 1];
      assert objs == init + [objs[|objs| - 1]];
      BucketMembers(init, octants, j, o);
    }
  }

  /** Every object of octant bucket `j` lies inside octant `j`. */
  lemma BucketFits(objs: seq<Region>, octants: seq<Box>, j: nat, o: Region)
    requires |octants| == 8 && j < 8 && o in Bucket(objs, octants, j)
    ensures ContainsRegion(octants[j], o)
  {
    BucketMembers(objs, octants, j, o);
  }

  /** A bucket of objects that all name cell `c` holds only such objects. */
  lemma BucketCells(objs: seq<Region>, octants: seq<Box>, j: nat, c: int)
    requires |octants| == 8
    requires forall k :: 0 <= k < |objs| ==> objs[k].cell == c
    ensures forall k :: 0 <= k < |Bucket(objs, octants, j)| ==> Bucket(objs, octants, j)[k].cell == c
  {
    forall k | 0 <= k < |Bucket(objs, octants, j)|
      ensures Bucket(objs, octants, j)[k].cell == c
    {
      BucketMembers(objs, octants, j, Bucket(objs, octants, j)[k]);
    }
  }

  /** Bucket `j` holds every copy of an object whose target is `j`, and no copy of any other object. */
  lemma {:induction false} BucketCount(objs: seq<Region>, octants: seq<Box>, j: nat, o: Region)
    requires |octants| == 8
    ensures multiset(Bucket(objs, octants, j))[o] == if Target(octants, o) == j then multiset(objs)[o] else 0
  {
    if objs != [] {
      var init := objs[..|objs| - 1];
      var x := objs[|objs| - 1];
      assert objs == init + [x];
      BucketCount(init, octants, j, o);
      BucketSnoc(init, octants, x, j);
      assert multiset(objs) == multiset(init) + multiset{x};
      var extra := if Target(octants, x) == j then [x] else [];
      assert multiset(Bucket(objs, octants, j)) == multiset(Bucket(init, octants, j)) + multiset(extra);
    }
  }

  /** The objects of the node and of its eight octants after the pass, together. */
  ghost function AllBuckets(objs: seq<Region>, octants: seq<Box>): multiset<Region>
    requires |octants| == 8
  {
    multiset(Bucket(objs, octants, 0)) + multiset(Bucket(objs, octants, 1)) + multiset(Bucket(objs, octants, 2))
    + multiset(Bucket(objs, octants, 3)) + multiset(Bucket(objs, octants, 4)) + multiset(Bucket(objs, octants, 5))
    + multiset(Bucket(objs, octants, 6)) + multiset(Bucket(objs, octants, 7)) + multiset(Bucket(objs, octants, 8))
  }

  /** Every copy of an object lands in exactly one of the nine buckets. */
  lemma AllBucketsCount(objs: seq<Region>, octants: seq<Box>, o: Region)
    requires |octants| == 8
    ensures AllBuckets(objs, octants)[o] == multiset(objs)[o]
  {
    BucketCount(objs, octants, 0, o);
    BucketCount(objs, octants, 1, o);
    BucketCount(objs, octants, 2, o);
    BucketCount(objs, octants, 3, o);
    BucketCount(objs, octants, 4, o);
    BucketCount(objs, octants, 5, o);
    BucketCount(objs, octants, 6, o);
    BucketCount(objs, octants, 7, o);
    BucketCount(objs, octants, 8, o);
  }

  /**
   * The nine buckets together hold exactly the objects of `objs`: the
   * partition loses, duplicates and invents nothing.
   */
  lemma BucketsPartition(objs: seq<Region>, octants: seq<Box>)
    requires |octants| == 8
    ensures AllBuckets(objs, octants) == multiset(objs)
  {
    forall o | true
      ensures AllBuckets(objs, octants)[o] == multiset(objs)[o]
    {
      AllBucketsCount(objs, octants, o);
    }
  }

  /** `objs` with every `cell` set to `c` (the insert pass stamps each object it visits). */
  function WithCell(objs: seq<Region>, c: int): (r: seq<Region>)
    ensures |r| == |objs|
    ensures forall k :: 0 <= k < |objs| ==> r[k] == objs[k].(cell := c)
  {
    seq(|objs|, k requires 0 <= k < |objs| => objs[k].(cell := c))
  }

  /**
   * The objects of `objs` counted with their multiplicity, the `cell` each
   * names set aside: what a subtree holds, wherever in it an object sits.
   */
  ghost function Bare(objs: seq<Region>): multiset<Region> {
    multiset(WithCell(objs, -1))
  }

  /** Counting the objects of two lists together. */
  lemma BareAppend(a: seq<Region>, b: seq<Region>)
    ensures Bare(a + b) == Bare(a) + Bare(b)
  {
    assert WithCell(a + b, -1) == WithCell(a, -1) + WithCell(b, -1);
  }

  /** Stamping objects with a cell does not change what they are. */
  lemma BareWithCell(objs: seq<Region>, c: int)
    ensures Bare(WithCell(objs, c)) == Bare(objs)
  {
    assert WithCell(WithCell(objs, c), -1) == WithCell(objs, -1);
  }

  /** The first-fit octant of an object does not depend on its cell. */
  lemma {:induction false} FirstFitCell(octants: seq<Box>, r: Region, c: int, j: nat)
    requires |octants| == 8 && j <= 8
    ensures FirstFit(octants, r.(cell := c), j) == FirstFit(octants, r, j)
    decreases 8 - j
  {
    if j < 8 && !ContainsRegion(octants[j], r) {
      FirstFitCell(octants, r, c, j + 1);
    }
  }

  /** Stamping and assigning to octants commute. */
  lemma {:induction false} BucketWithCell(objs: seq<Region>, octants: seq<Box>, j: nat, c: int)
    requires |octants| == 8
    ensures Bucket(WithCell(objs, c), octants, j) == WithCell(Bucket(objs, octants, j), c)
  {
    if objs != [] {
      var init, last := objs[..|objs| - 1], objs[|objs| - 1];
      assert objs == init + [last];
      WithCellAppend(init, [last], c);
      BucketSnoc(WithCell(init, c), octants, last.(cell := c), j);
      BucketWithCell(init, octants, j, c);
      FirstFitCell(octants, last, c, 0);
      var extra := if Target(octants, last) == j then [last] else [];
      WithCellAppend(Bucket(init, octants, j), extra, c);
    }
  }

  /** Stamping two lists one after the other. */
  lemma WithCellAppend(a: seq<Region>, b: seq<Region>, c: int)
    ensures WithCell(a + b, c) == WithCell(a, c) + WithCell(b, c)
  {
    assert forall k :: 0 <= k < |a + b| ==> WithCell(a + b, c)[k] == (WithCell(a, c) + WithCell(b, c))[k];
  }

  /**
   * The objects that stay and those of the eight octant lists, counted
   * together, are the objects the pass started with, cells set aside.
   */
  lemma BucketsBare(objs: seq<Region>, octants: seq<Box>)
    requires |octants| == 8
    ensures Bare(Bucket(objs, octants, 8))
      + (Bare(Bucket(objs, octants, 0)) + Bare(Bucket(objs, octants, 1)) + Bare(Bucket(objs, octants, 2))
         + Bare(Bucket(objs, octants, 3)) + Bare(Bucket(objs, octants, 4)) + Bare(Bucket(objs, octants, 5))
         + Bare(Bucket(objs, octants, 6)) + Bare(Bucket(objs, octants, 7)))
      == Bare(objs)
  {
    var w := WithCell(objs, -1);
    forall j | 0 <= j <= 8
      ensures Bare(Bucket(objs, octants, j)) == multiset(Bucket(w, octants, j))
    {
      BucketWithCell(objs, octants, j, -1);
    }
    BucketsPartition(w, octants);
  }

  function Stamped(objs: seq<Region>, stamp: Option<int>): seq<Region> {
    if stamp.Some? then WithCell(objs, stamp.value) else objs
  }

  /** The inner loop of the assignment pass: the first octant, in order, that contains `br`. */
  method FindOctant(octants: seq<Box>, br: Region) returns (j: nat)
    requires |octants| == 8
    ensures j <= 8
    ensures j < 8 ==> ContainsRegion(octants[j], br)
    ensures forall m :: 0 <= m < j ==> !ContainsRegion(octants[m], br)
    ensures j == Target(octants, br)
  {
    j := 0;
    while j < 8
      invariant 0 <= j <= 8
      invariant forall m :: 0 <= m < j ==> !ContainsRegion(octants[m], br)
    {
      if ContainsRegion(octants[j], br) {
        break;
      }
      j := j + 1;
    }
    TargetIs(octants, br, j);
  }

  /** Overwriting and then erasing the middle element of `pre + [x] + post`. */
  lemma Splice(pre: seq<Region>, x: Region, post: seq<Region>, y: Region)
    ensures var o := (pre + [x] + post)[|pre| := y];
      && o == pre + [y] + post
      && o[..|pre|] + o[|pre| + 1..] == pre + post
  {
    var o := (pre + [x] + post)[|pre| := y];
    assert o == pre + [y] + post;
    assert o[..|pre|] == pre;
    assert o[|pre| + 1..] == post;
  }

  /**
   * The state of the assignment loop after `done` objects of `objects`
   * (stamped: `s`) have been visited: the list holds the visited objects
   * that stayed followed by the unvisited ones, and list `m` holds the
   * visited objects whose target is `m`.
   */
  ghost predicate PartitionInv(objects: seq<Region>, s: seq<Region>, octants: seq<Box>, done: nat,
                               objs: seq<Region>, i: nat, lists: seq<seq<Region>>)
  {
    && |octants| == 8 && |s| == |objects| && done <= |objects|
    && i == |Bucket(s[..done], octants, 8)|
    && objs == Bucket(s[..done], octants, 8) + objects[done..]
    && |lists| == 8
    && forall m :: 0 <= m < 8 ==> lists[m] == Bucket(s[..done], octants, m)
  }

  /** Before the first visit every bucket is empty and the list is untouched. */
  lemma PartitionStart(objects: seq<Region>, s: seq<Region>, octants: seq<Box>)
    requires |octants| == 8 && |s| == |objects|
    ensures PartitionInv(objects, s, octants, 0, objects, 0, seq(8, _ => []))
  {
    assert s[..0] == [] && objects[0..] == objects;
  }

  /** After the last visit the list holds exactly the objects that stay. */
  lemma PartitionEnd(objects: seq<Region>, s: seq<Region>, octants: seq<Box>, done: nat,
                     objs: seq<Region>, i: nat, lists: seq<seq<Region>>)
    requires PartitionInv(objects, s, octants, done, objs, i, lists)
    requires i == |objs|
    ensures objs == Bucket(s, octants, 8)
    ensures forall j :: 0 <= j < 8 ==> lists[j] == Bucket(s, octants, j)
  {
    assert done == |objects|;
    assert s[..done] == s;
  }

  /** The object the assignment loop visits at `i` is object `done` of the input, stamped. */
  lemma PartitionVisit(objects: seq<Region>, stamp: Option<int>, octants: seq<Box>, done: nat,
                       objs: seq<Region>, i: nat, lists: seq<seq<Region>>)
    requires PartitionInv(objects, Stamped(objects, stamp), octants, done, objs, i, lists)
    requires i < |objs|
    ensures done < |objects|
    ensures objs == Bucket(Stamped(objects, stamp)[..done], octants, 8) + [objects[done]] + objects[done + 1..]
    ensures objs[i] == objects[done]
    ensures Stamped(objects, stamp)[done] == if stamp.Some? then objs[i].(cell := stamp.value) else objs[i]
  {
    assert objects[done..] == [objects[done]] + objects[done + 1..];
  }

  /** One visit of the assignment loop, which stamps `objs[i]` as `br` and finds its target `j`, keeps `PartitionInv`. */
  lemma PartitionStep(objects: seq<Region>, stamp: Option<int>, octants: seq<Box>, done: nat,
                      objs: seq<Region>, i: nat, lists: seq<seq<Region>>, br: Region, j: nat)
    requires PartitionInv(objects, Stamped(objects, stamp), octants, done, objs, i, lists)
    requires i < |objs|
    requires br == if stamp.Some? then objs[i].(cell := stamp.value) else objs[i]
    requires j == Target(octants, br)
    ensures done < |objects|
    ensures j < 8 ==> PartitionInv(objects, Stamped(objects, stamp), octants, done + 1,
                                   objs[i := br][..i] + objs[i := br][i + 1..], i, lists[j := lists[j] + [br]])
    ensures j >= 8 ==> PartitionInv(objects, Stamped(objects, stamp), octants, done + 1, objs[i := br], i + 1, lists)
  {
    var s := Stamped(objects, stamp);
    PartitionVisit(objects, stamp, octants, done, objs, i, lists);
    var stayed := Bucket(s[..done], octants, 8);
    var rest := objects[done + 1..];
    Splice(stayed, objects[done], rest, br);
    BucketsStep(s, octants, done);
    if j < 8 {
      PartitionMoved(s, octants, done, objs[i := br], i, lists, lists[j := lists[j] + [br]], br, j, stayed, rest);
    } else {
      assert Bucket(s[..done + 1], octants, 8) == stayed + [br];
      assert objs[i := br] == stayed + [br] + rest;
    }
  }

  /** The visit of `PartitionStep` when the stamped object `br` leaves for the list of octant `j`. */
  lemma PartitionMoved(s: seq<Region>, octants: seq<Box>, done: nat, o: seq<Region>, i: nat,
                       lists: seq<seq<Region>>, lists2: seq<seq<Region>>, br: Region, j: nat,
                       stayed: seq<Region>, rest: seq<Region>)
    requires |octants| == 8 && done < |s| && s[done] == br && j == Target(octants, br) && j < 8
    requires stayed == Bucket(s[..done], octants, 8) && i == |stayed|
    requires o == stayed + [br] + rest && o[..i] + o[i + 1..] == stayed + rest
    requires |lists| == 8 && forall m :: 0 <= m < 8 ==> lists[m] == Bucket(s[..done], octants, m)
    requires lists2 == lists[j := lists[j] + [br]]
    requires forall m :: 0 <= m <= 8 ==>
      Bucket(s[..done + 1], octants, m) == Bucket(s[..done], octants, m) + (if Target(octants, s[done]) == m then [s[done]] else [])
    ensures Bucket(s[..done + 1], octants, 8) == stayed
    ensures forall m :: 0 <= m < 8 ==> lists2[m] == Bucket(s[..done + 1], octants, m)
  {
    assert Bucket(s[..done + 1], octants, 8) == stayed + [];
  }

  /**
   * The assignment loop of `build` (stamp `None`) and `insert` (stamp
   * `Some(this)`, which sets each visited object's `cell`): objects are
   * erased from the node's list in place, with the index and length fixed
   * up after each erase.
   */
  method AssignOctants(objects: seq<Region>, octants: seq<Box>, stamp: Option<int>)
    returns (stay: seq<Region>, lists: seq<seq<Region>>)
    requires |octants| == 8
    ensures |lists| == 8
    ensures stay == Bucket(Stamped(objects, stamp), octants, 8)
    ensures forall j :: 0 <= j < 8 ==> lists[j] == Bucket(Stamped(objects, stamp), octants, j)
  {
    ghost var s := Stamped(objects, stamp);
    var objs := objects;
    lists := seq(8, _ => []);
    var i, len := 0, |objs|;
    ghost var done := 0;
    PartitionStart(objects, s, octants);
    while i < len
      invariant PartitionInv(objects, s, octants, done, objs, i, lists)
      invariant len == |objs| && i <= len
      decreases len - i
    {
      var br := if stamp.Some? then objs[i].(cell := stamp.value) else objs[i];
      var j := FindOctant(octants, br);
      PartitionStep(objects, stamp, octants, done, objs, i, lists, br, j);
      objs := objs[i := br];
      if j < 8 {
        lists := lists[j := lists[j] + [br]];
        objs := objs[..i] + objs[i + 1..];
        len := len - 1;
      } else {
        i := i + 1;
      }
      done := done + 1;
    }
    PartitionEnd(objects, s, octants, done, objs, i, lists);
    stay := objs;
  }
}
