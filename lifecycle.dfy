/**
 * The per-frame bookkeeping of `node::update` and `node::processPending`
 * that works on one node's values: the lifespan countdown, the removal of
 * dead objects, the collection of moved objects and the re-queueing of
 * pending objects that do not fit.
 *
 * An instance's `state` word is read from a map from instance id to word;
 * an instance missing from the map has no flag set.  `INSTANCE_DEAD` and
 * `INSTANCE_MOVED` are declared with `RigidBody`, which is not part of
 * this model: they are taken to be two distinct single-bit flags.
 */
module Lifecycle {
  import opened States
  import opened Bounds
  import opened Collisions

  /** `INSTANCE_DEAD`. */
  const InstanceDead: bv8 := 0x01
  /** `INSTANCE_MOVED`. */
  const InstanceMoved: bv8 := 0x02

  /** The `state` word of an instance. */
  function StateOf(states: map<string, bv8>, id: string): bv8 {
    if id in states then states[id] else 0
  }

  /** `isActive(&br.instance->state, flag)`: the state word and `flag` share a set bit. */
  predicate Flagged(states: map<string, bv8>, flag: bv8, br: Region) {
    StateOf(states, br.instance) & flag != 0
  }

  /** `Flagged` is the `isActive` test on the instance's state word. */
  lemma FlaggedIsActive(states: map<string, bv8>, flag: bv8, br: Region)
    ensures Flagged(states, flag, br) <==> IsActive(StateOf(states, br.instance), flag)
  {
  }

  /** The instance of `br` is dead. */
  predicate Dead(states: map<string, bv8>, br: Region) {
    Flagged(states, InstanceDead, br)
  }

  /** The instance of `br` moved during the frame. */
  predicate Moved(states: map<string, bv8>, br: Region) {
    Flagged(states, InstanceMoved, br)
  }

  // ---------------------------------------------------------------- lifespan

  /**
   * The countdown at the start of `update`, from the node's object count,
   * its `activeOctants` and its lifespans: an empty node without active
   * children starts counting at `maxLifeSpan` (from -1) or counts down to
   * 0; a node holding objects whose countdown has started has a
   * `maxLifeSpan` of at most 64 multiplied by 4 (`<<= 2`).
   */
  function LifeSpanStep(count: nat, activeOctants: bv8, current: int, max: int): (r: (int, int))
  {
    if count == 0 then
      if activeOctants == 0 then
        if current == -1 then (max, max)
        else if current > 0 then (current - 1, max)
        else (current, max)
      else (current, max)
    else if current != -1 && max <= 64 then (current, max * 4)
    else (current, max)
  }

  /** The lifespans a node can be in: counting from -1 up to a `maxLifeSpan` that is at most 256. */
  predicate LifeSpanOk(current: int, max: int) {
    -1 <= current <= max && 0 <= max <= 256
  }

  /**
   * Every step keeps the lifespans in range, never raises the countdown
   * once it has started, and never lowers `maxLifeSpan`.
   */
  lemma LifeSpanStepKeeps(count: nat, activeOctants: bv8, current: int, max: int)
    requires LifeSpanOk(current, max)
    ensures var r := LifeSpanStep(count, activeOctants, current, max);
      && LifeSpanOk(r.0, r.1)
      && (current != -1 ==> 0 <= r.0 <= current)
      && max <= r.1
  {
  }

  /** `k` frames of an empty leaf, from countdown `current`. */
  function Idle(current: int, max: int, k: nat): int
    decreases k
  {
    if k == 0 then current else Idle(LifeSpanStep(0, 0, current, max).0, max, k - 1)
  }

  /**
   * An empty leaf whose countdown has not started reaches 0 after exactly
   * `maxLifeSpan + 1` frames, and stays at 0.
   */
  lemma {:induction false} IdleReachesZero(max: nat, k: nat)
    ensures Idle(-1, max, max + 1 + k) == 0
  {
    assert Idle(-1, max, max + 1 + k) == Idle(max, max, max + k);
    IdleCountsDown(max, max, max + k);
  }

  /** From a started countdown `c`, `k` idle frames leave `c - k`, but never below 0. */
  lemma {:induction false} IdleCountsDown(c: nat, max: int, k: nat)
    ensures Idle(c, max, k) == if k <= c then c - k else 0
  {
    if k > 0 {
      IdleCountsDown(if c > 0 then c - 1 else 0, max, k - 1);
    }
  }

  // ------------------------------------------------------------ dead objects

  /** The objects whose instance does not carry `flag`, in their original order. */
  function Without(states: map<string, bv8>, flag: bv8, objs: seq<Region>): seq<Region> {
    if objs == [] then []
    else
      var last := objs[|objs| - 1];
      Without(states, flag, objs[..|objs| - 1]) + (if Flagged(states, flag, last) then [] else [last])
  }

  /** `Without` keeps exactly the objects that do not carry the flag. */
  lemma {:induction false} WithoutMembers(states: map<string, bv8>, flag: bv8, objs: seq<Region>, o: Region)
    ensures o in Without(states, flag, objs) <==> o in objs && !Flagged(states, flag, o)
  {
    if objs != [] {
      var init := objs[..|objs| - 1];
      WithoutMembers(states, flag, init, o);
      assert objs == init + [objs[|objs| - 1]];
    }
  }

  /** Dropping flagged objects keeps the count of every other object. */
  lemma {:induction false} WithoutCounts(states: map<string, bv8>, flag: bv8, objs: seq<Region>, o: Region)
    ensures multiset(Without(states, flag, objs))[o] == if Flagged(states, flag, o) then 0 else multiset(objs)[o]
  {
    if objs != [] {
      var init := objs[..|objs| - 1];
      var x := objs[|objs| - 1];
      WithoutCounts(states, flag, init, o);
      assert objs == init + [x];
      assert multiset(objs) == multiset(init) + multiset{x};
      var extra := if Flagged(states, flag, x) then [] else [x];
      assert Without(states, flag, objs) == Without(states, flag, init) + extra;
      assert multiset(Without(states, flag, objs)) == multiset(Without(states, flag, init)) + multiset(extra);
    }
  }

  /** Filtering distributes over concatenation. */
  lemma {:induction false} WithoutAppend(states: map<string, bv8>, flag: bv8, a: seq<Region>, b: seq<Region>)
    ensures Without(states, flag, a + b) == Without(states, flag, a) + Without(states, flag, b)
    decreases |b|
  {
    if b != [] {
      var init := b[..|b| - 1];
      assert (a + b)[..|a + b| - 1] == a + init;
      WithoutAppend(states, flag, a, init);
    } else {
      assert a + b == a;
    }
  }

  /** A list with no flagged object is left as it is. */
  lemma {:induction false} WithoutNone(states: map<string, bv8>, flag: bv8, objs: seq<Region>)
    requires forall k :: 0 <= k < |objs| ==> !Flagged(states, flag, objs[k])
    ensures Without(states, flag, objs) == objs
  {
    if objs != [] {
      var init := objs[..|objs| - 1];
      WithoutNone(states, flag, init);
      assert objs == init + [objs[|objs| - 1]];
    }
  }

  /** The state of the dead-removal loop after `done` objects have been looked at. */
  ghost predicate RemoveDeadInv(states: map<string, bv8>, objs: seq<Region>, done: nat, list: seq<Region>, i: nat) {
    && done <= |objs|
    && i == |Without(states, InstanceDead, objs[..done])|
    && list == Without(states, InstanceDead, objs[..done]) + objs[done..]
  }

  /** Before the first visit nothing has been dropped. */
  lemma RemoveDeadStart(states: map<string, bv8>, objs: seq<Region>)
    ensures RemoveDeadInv(states, objs, 0, objs, 0)
  {
    assert objs[..0] == [] && objs[0..] == objs;
  }

  /** After the last visit the list is the input without its dead objects. */
  lemma RemoveDeadEnd(states: map<string, bv8>, objs: seq<Region>, done: nat, list: seq<Region>, i: nat)
    requires RemoveDeadInv(states, objs, done, list, i) && i == |list|
    ensures list == Without(states, InstanceDead, objs)
  {
    assert objs[..done] == objs;
  }

  /** One visit of the dead-removal loop keeps `RemoveDeadInv`. */
  lemma RemoveDeadStep(states: map<string, bv8>, objs: seq<Region>, done: nat, list: seq<Region>, i: nat)
    requires RemoveDeadInv(states, objs, done, list, i) && i < |list|
    ensures done < |objs| && list[i] == objs[done]
    ensures Dead(states, list[i]) ==> RemoveDeadInv(states, objs, done + 1, list[..i] + list[i + 1..], i)
    ensures !Dead(states, list[i]) ==> RemoveDeadInv(states, objs, done + 1, list, i + 1)
  {
    var kept := Without(states, InstanceDead, objs[..done]);
    assert objs[..done + 1] == objs[..done] + [objs[done]];
    assert objs[done..] == [objs[done]] + objs[done + 1..];
    assert list == kept + [objs[done]] + objs[done + 1..];
    if Dead(states, list[i]) {
      assert list[..i] + list[i + 1..] == kept + objs[done + 1..];
    } else {
      assert list == (kept + [objs[done]]) + objs[done + 1..];
    }
  }

  /**
   * The dead-removal loop of `update`: dead objects are erased in place,
   * with the index and size fixed up after each erase.
   */
  method RemoveDead(states: map<string, bv8>, objs: seq<Region>) returns (list: seq<Region>)
    ensures list == Without(states, InstanceDead, objs)
  {
    list := objs;
    var i, listSize := 0, |list|;
    ghost var done := 0;
    RemoveDeadStart(states, objs);
    while i < listSize
      invariant RemoveDeadInv(states, objs, done, list, i)
      invariant listSize == |list| && i <= listSize
      decreases listSize - i
    {
      RemoveDeadStep(states, objs, done, list, i);
      if Dead(states, list[i]) {
        list := list[..i] + list[i + 1..];
        listSize := listSize - 1;
      } else {
        i := i + 1;
      }
      done := done + 1;
    }
    RemoveDeadEnd(states, objs, done, list, i);
  }

  // ----------------------------------------------------------- moved objects

  /** `br.transform()`: the region with its shape recomputed from its instance. */
  function Transformed(env: Env, br: Region): Region {
    br.(shape := env.transform(br))
  }

  /** The indices of the moved objects of `objs`, in ascending order. */
  function MovedIndices(states: map<string, bv8>, objs: seq<Region>): seq<nat> {
    if objs == [] then []
    else
      var k := |objs| - 1;
      MovedIndices(states, objs[..k]) + (if Moved(states, objs[k]) then [k] else [])
  }

  /** Every index `MovedIndices` lists names a moved object, and the indices strictly ascend. */
  lemma {:induction false} MovedIndicesSound(states: map<string, bv8>, objs: seq<Region>)
    ensures forall a :: 0 <= a < |MovedIndices(states, objs)| ==>
      MovedIndices(states, objs)[a] < |objs| && Moved(states, objs[MovedIndices(states, objs)[a]])
    ensures forall a, b :: 0 <= a < b < |MovedIndices(states, objs)| ==> MovedIndices(states, objs)[a] < MovedIndices(states, objs)[b]
  {
    if objs != [] {
      var k := |objs| - 1;
      MovedIndicesSound(states, objs[..k]);
      assert forall j :: 0 <= j < k ==> objs[..k][j] == objs[j];
    }
  }

  /** Every moved object's index is listed: `a` is its position in `MovedIndices`. */
  lemma {:induction false} MovedIndexOf(states: map<string, bv8>, objs: seq<Region>, k: nat) returns (a: nat)
    requires k < |objs| && Moved(states, objs[k])
    ensures a < |MovedIndices(states, objs)| && MovedIndices(states, objs)[a] == k
  {
    var init := objs[..|objs| - 1];
    if k == |objs| - 1 {
      a := |MovedIndices(states, init)|;
    } else {
      assert init[k] == objs[k];
      a := MovedIndexOf(states, init, k);
    }
  }

  /**
   * The moved-object loop of `update`: every moved object is transformed
   * in place and its index pushed on a stack, so the stack holds the
   * indices of the moved objects, the highest on top.
   */
  method CollectMoved(states: map<string, bv8>, env: Env, objs: seq<Region>) returns (list: seq<Region>, moved: seq<nat>)
    ensures |list| == |objs|
    ensures forall k :: 0 <= k < |objs| ==> list[k] == if Moved(states, objs[k]) then Transformed(env, objs[k]) else objs[k]
    ensures moved == MovedIndices(states, list)
  {
    list := objs;
    moved := [];
    for i := 0 to |objs|
      invariant |list| == |objs|
      invariant forall k :: 0 <= k < i ==> list[k] == if Moved(states, objs[k]) then Transformed(env, objs[k]) else objs[k]
      invariant forall k :: i <= k < |objs| ==> list[k] == objs[k]
      invariant moved == MovedIndices(states, list[..i])
    {
      ghost var before := list;
      if Moved(states, list[i]) {
        list := list[i := Transformed(env, list[i])];
        moved := moved + [i];
      }
      assert list[..i + 1][..i] == before[..i];
    }
    assert list[..|objs|] == list;
  }

  /** One past the top of a stack holding the first `s` entries of `moved`; 0 for an empty stack. */
  function Cut(moved: seq<nat>, s: nat): nat
    requires s <= |moved|
  {
    if s == 0 then 0 else moved[s - 1] + 1
  }

  /**
   * The objects while the moved ones are erased from the top of the stack
   * down, `s` indices still on the stack: nothing below the cut has been
   * erased yet, and every moved object above it has.
   */
  ghost predicate EraseInv(states: map<string, bv8>, objs: seq<Region>, moved: seq<nat>, s: nat, list: seq<Region>) {
    && moved == MovedIndices(states, objs)
    && s <= |moved| && Cut(moved, s) <= |objs|
    && list == objs[..Cut(moved, s)] + Without(states, InstanceMoved, objs[Cut(moved, s)..])
  }

  /** No object strictly between the cut below the top of the stack and the top has moved. */
  lemma GapUnmoved(states: map<string, bv8>, objs: seq<Region>, s: nat, k: nat)
    requires 0 < s <= |MovedIndices(states, objs)| && k < |objs|
    requires Cut(MovedIndices(states, objs), s - 1) <= k < MovedIndices(states, objs)[s - 1]
    ensures !Moved(states, objs[k])
  {
    if Moved(states, objs[k]) {
      var a := MovedIndexOf(states, objs, k);
      MovedIndicesSound(states, objs);
    }
  }

  /** No object above the highest moved index has moved. */
  lemma TopUnmoved(states: map<string, bv8>, objs: seq<Region>, k: nat)
    requires Cut(MovedIndices(states, objs), |MovedIndices(states, objs)|) <= k < |objs|
    ensures !Moved(states, objs[k])
  {
    if Moved(states, objs[k]) {
      var a := MovedIndexOf(states, objs, k);
      MovedIndicesSound(states, objs);
    }
  }

  /** The cut of a stack of moved indices lies within the objects. */
  lemma CutInRange(states: map<string, bv8>, objs: seq<Region>, s: nat)
    requires s <= |MovedIndices(states, objs)|
    ensures Cut(MovedIndices(states, objs), s) <= |objs|
  {
    MovedIndicesSound(states, objs);
  }

  /** Above the highest moved index there is nothing to erase. */
  lemma AboveTopUnmoved(states: map<string, bv8>, objs: seq<Region>)
    ensures var moved := MovedIndices(states, objs);
      && Cut(moved, |moved|) <= |objs|
      && Without(states, InstanceMoved, objs[Cut(moved, |moved|)..]) == objs[Cut(moved, |moved|)..]
  {
    var moved := MovedIndices(states, objs);
    var cut := Cut(moved, |moved|);
    CutInRange(states, objs, |moved|);
    var upper := objs[cut..];
    forall k | 0 <= k < |upper|
      ensures !Flagged(states, InstanceMoved, upper[k])
    {
      TopUnmoved(states, objs, cut + k);
    }
    WithoutNone(states, InstanceMoved, upper);
  }

  /** Before the first erase, the stack holds every moved index. */
  lemma EraseStart(states: map<string, bv8>, objs: seq<Region>)
    ensures EraseInv(states, objs, MovedIndices(states, objs), |MovedIndices(states, objs)|, objs)
  {
    var moved := MovedIndices(states, objs);
    var cut := Cut(moved, |moved|);
    AboveTopUnmoved(states, objs);
    assert objs[..cut] + objs[cut..] == objs;
  }

  /** Filtering an unmoved run, one moved object and a tail keeps the run and filters the tail. */
  lemma SkipMoved(states: map<string, bv8>, mid: seq<Region>, x: Region, upper: seq<Region>)
    requires forall k :: 0 <= k < |mid| ==> !Flagged(states, InstanceMoved, mid[k])
    requires Moved(states, x)
    ensures Without(states, InstanceMoved, mid + ([x] + upper)) == mid + Without(states, InstanceMoved, upper)
  {
    WithoutNone(states, InstanceMoved, mid);
    WithoutAppend(states, InstanceMoved, mid, [x] + upper);
    WithoutAppend(states, InstanceMoved, [x], upper);
    assert Without(states, InstanceMoved, [x]) == [] by {
      assert [x][..0] == [];
    }
  }

  /** The top of a stack of `s` moved indices names a moved object at or above the cut below it. */
  lemma TopOfStack(states: map<string, bv8>, objs: seq<Region>, s: nat)
    requires 0 < s <= |MovedIndices(states, objs)|
    ensures var moved := MovedIndices(states, objs);
      moved[s - 1] < |objs| && Moved(states, objs[moved[s - 1]]) && Cut(moved, s - 1) <= moved[s - 1]
  {
    MovedIndicesSound(states, objs);
  }

  /** A suffix split around one of its elements. */
  lemma SliceAround<T>(s: seq<T>, lo: nat, at: nat)
    requires lo <= at < |s|
    ensures s[lo..] == s[lo..at] + ([s[at]] + s[at + 1..])
  {
    assert s[lo..] == s[lo..at] + s[at..];
  }

  /**
   * Above the cut below the top of the stack, filtering keeps the unmoved
   * run up to the top, drops the object at the top and filters the rest.
   */
  lemma FilterAboveCut(states: map<string, bv8>, objs: seq<Region>, s: nat)
    requires 0 < s <= |MovedIndices(states, objs)|
    ensures var moved := MovedIndices(states, objs);
      var top, cut2 := moved[s - 1], Cut(moved, s - 1);
      && cut2 <= top < |objs|
      && Without(states, InstanceMoved, objs[cut2..])
         == objs[cut2..top] + Without(states, InstanceMoved, objs[top + 1..])
  {
    var moved := MovedIndices(states, objs);
    var top, cut2 := moved[s - 1], Cut(moved, s - 1);
    TopOfStack(states, objs, s);
    var mid := objs[cut2..top];
    forall k | 0 <= k < |mid|
      ensures !Flagged(states, InstanceMoved, mid[k])
    {
      GapUnmoved(states, objs, s, cut2 + k);
    }
    SliceAround(objs, cut2, top);
    SkipMoved(states, mid, objs[top], objs[top + 1..]);
  }

  /**
   * Erasing the object at the top index of the stack erases a moved object
   * (the one the stack names, since nothing below it has been erased) and
   * keeps the invariant with the stack popped.
   */
  lemma EraseStep(states: map<string, bv8>, objs: seq<Region>, moved: seq<nat>, s: nat, list: seq<Region>)
    requires EraseInv(states, objs, moved, s, list) && s > 0
    ensures moved[s - 1] < |list| && moved[s - 1] < |objs|
    ensures list[moved[s - 1]] == objs[moved[s - 1]] && Moved(states, objs[moved[s - 1]])
    ensures EraseInv(states, objs, moved, s - 1, list[..moved[s - 1]] + list[moved[s - 1] + 1..])
  {
    var top := moved[s - 1];
    var cut2 := Cut(moved, s - 1);
    TopOfStack(states, objs, s);
    FilterAboveCut(states, objs, s);
    var rest := Without(states, InstanceMoved, objs[top + 1..]);
    EraseAt(objs, cut2, top, rest, list);
  }

  /** Erasing position `top` from `objs[..top + 1] + rest`, split at `cut`. */
  lemma EraseAt(objs: seq<Region>, cut: nat, top: nat, rest: seq<Region>, list: seq<Region>)
    requires cut <= top < |objs| && list == objs[..top + 1] + rest
    ensures list[top] == objs[top]
    ensures list[..top] + list[top + 1..] == objs[..cut] + (objs[cut..top] + rest)
  {
    assert list[..top] == objs[..top] == objs[..cut] + objs[cut..top];
    assert list[top + 1..] == rest;
  }

  // -------------------------------------------------------- pending objects

  /**
   * The regions `addToPending` queues for a model's bounding regions: each
   * one attached to the instance and transformed to its world-space shape.
   */
  function Attached(env: Env, regions: seq<Region>, instance: string): (r: seq<Region>)
    ensures |r| == |regions|
    ensures forall k :: 0 <= k < |r| ==>
      r[k].instance == instance && r[k].mesh == regions[k].mesh && r[k].cell == regions[k].cell
  {
    seq(|regions|, k requires 0 <= k < |regions| => Transformed(env, regions[k].(instance := instance)))
  }

  /**
   * What the `processPending` loop of a built node puts back on its queue
   * from `q`: the objects its region does not contain, transformed, in
   * order.
   */
  function Requeued(env: Env, region: Box, q: seq<Region>): (r: seq<Region>)
    ensures |r| <= |q|
  {
    if q == [] then []
    else
      var last := q[|q| - 1];
      Requeued(env, region, q[..|q| - 1]) + (if ContainsRegion(region, last) then [] else [Transformed(env, last)])
  }

  /**
   * One turn of the `processPending` loop keeps the queue as the unvisited
   * suffix followed by what the visited prefix put back.
   */
  lemma RequeuedStep(env: Env, region: Box, q0: seq<Region>, i: nat, q: seq<Region>)
    requires i < |q0| && q == q0[i..] + Requeued(env, region, q0[..i])
    ensures |q| > 0 && q[0] == q0[i]
    ensures q[1..] + (if ContainsRegion(region, q[0]) then [] else [Transformed(env, q[0])])
         == q0[i + 1..] + Requeued(env, region, q0[..i + 1])
  {
    assert q0[..i + 1][..i] == q0[..i];
    assert q0[i..] == [q0[i]] + q0[i + 1..];
  }

  /** An object the region does not contain is put back, transformed; nothing is added. */
  lemma {:induction false} RequeuedMembers(env: Env, region: Box, q: seq<Region>, o: Region)
    requires o in q && !ContainsRegion(region, o)
    ensures Transformed(env, o) in Requeued(env, region, q)
  {
    var init := q[..|q| - 1];
    assert q == init + [q[|q| - 1]];
    if o in init {
      RequeuedMembers(env, region, init, o);
    }
  }

  /** Everything put back is a transformed object of the queue that the region does not contain. */
  lemma {:induction false} RequeuedOnlyOutside(env: Env, region: Box, q: seq<Region>, x: Region)
    requires x in Requeued(env, region, q)
    ensures exists k :: 0 <= k < |q| && !ContainsRegion(region, q[k]) && x == Transformed(env, q[k])
  {
    var init := q[..|q| - 1];
    if x in Requeued(env, region, init) {
      RequeuedOnlyOutside(env, region, init, x);
      var k :| 0 <= k < |init| && !ContainsRegion(region, init[k]) && x == Transformed(env, init[k]);
      assert q[k] == init[k];
    } else {
      assert !ContainsRegion(region, q[|q| - 1]) && x == Transformed(env, q[|q| - 1]);
    }
  }

  /**
   * What the `processPending` loop of a built node inserts at the node
   * from `q`: the objects its region contains, in order.
   */
  function Admitted(region: Box, q: seq<Region>): (r: seq<Region>)
    ensures forall o :: o in r <==> o in q && ContainsRegion(region, o)
  {
    if q == [] then []
    else
      var last := q[|q| - 1];
      assert q == q[..|q| - 1] + [last];
      Admitted(region, q[..|q| - 1]) + (if ContainsRegion(region, last) then [last] else [])
  }

  /** One more turn of the loop admits the next object when the region contains it. */
  lemma AdmittedStep(region: Box, q0: seq<Region>, i: nat)
    requires i < |q0|
    ensures Admitted(region, q0[..i + 1])
      == Admitted(region, q0[..i]) + if ContainsRegion(region, q0[i]) then [q0[i]] else []
  {
    assert q0[..i + 1][..i] == q0[..i];
  }

  /** Every queued object is either admitted or put back: none is lost and none is doubled. */
  lemma {:induction false} AdmittedOrRequeued(env: Env, region: Box, q: seq<Region>)
    ensures |Admitted(region, q)| + |Requeued(env, region, q)| == |q|
  {
    if q != [] {
      AdmittedOrRequeued(env, region, q[..|q| - 1]);
    }
  }
}
