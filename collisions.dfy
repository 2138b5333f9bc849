/**
 * The gating of `node::checkCollisionsSelf` and the outside tests the
 * octree relies on.
 *
 * The geometric tests (`BoundingRegion::intersectsWith`, the face tests of
 * a collision mesh, `BoundingRegion::transform` and the ray tests) are not
 * part of this model: they are given as functions in an `Env`.
 */
module Collisions {
  import opened Bounds

  /**
   * The outside tests.  `intersects(br, obj)` is `br.intersectsWith(obj)`;
   * `faceHits(br, obj, i)` is whether face `i` of `br`'s collision mesh
   * collides with some face of `obj`'s (the inner loop of case 1, which
   * stops at the first face that does); `facesCollide(br, obj)` is whether
   * some face of the one region that carries a mesh collides with the
   * other's sphere (cases 2 and 3, which stop at the first such face);
   * `transform(br)` is the world-space shape `br.transform()` gives from
   * the instance's current position and size.
   */
  datatype Env = Env(
    intersects: (Region, Region) -> bool,
    faceHits: (Region, Region, nat) -> bool,
    facesCollide: (Region, Region) -> bool,
    transform: Region -> Shape)

  /**
   * A ray, known through its tests: `enterBox(b)` is the entry distance of
   * `r.intersectsBoundingRegion` against a node box (`None` for a miss),
   * `enterRegion(br)` the same against an object's region, and `meshHit(br)`
   * the distance `r.intersectsMesh` finds on the object's collision mesh.
   */
  datatype RayTests = RayTests(
    enterBox: Box -> Option<real>,
    enterRegion: Region -> Option<real>,
    meshHit: Region -> Option<real>)

  /** `obj.instance->handleCollision(br.instance, norm)` for the moved `obj` and a stored `br`. */
  datatype Collision = Collision(moved: Region, hit: Region)

  /** `collisionMesh ? collisionMesh->faces.size() : 0`. */
  function Faces(r: Region): nat {
    if r.mesh.Some? then r.mesh.value.faces else 0
  }

  /** How many of the first `k` faces of `br` collide with some face of `obj`. */
  function FaceHits(env: Env, br: Region, obj: Region, k: nat): (c: nat)
    ensures c <= k
    ensures c == 0 <==> forall i :: 0 <= i < k ==> !env.faceHits(br, obj, i)
  {
    if k == 0 then 0
    else FaceHits(env, br, obj, k - 1) + if env.faceHits(br, obj, k - 1) then 1 else 0
  }

  /**
   * The fine test after the coarse one passed: some face of `br` hits a
   * face of `obj` when both have mesh faces (case 1), the face-against-
   * sphere test when one of them has (cases 2 and 3), none at all when
   * neither has (case 4, the coarse test decides).
   */
  predicate FineTest(env: Env, br: Region, obj: Region) {
    if Faces(br) > 0 && Faces(obj) > 0 then exists i :: 0 <= i < Faces(br) && env.faceHits(br, obj, i)
    else if Faces(br) > 0 || Faces(obj) > 0 then env.facesCollide(br, obj)
    else true
  }

  /** `obj` collides with the stored `br`: another instance, coarse test and fine test pass. */
  predicate Gated(env: Env, obj: Region, br: Region) {
    && br.instance != obj.instance
    && env.intersects(br, obj)
    && FineTest(env, br, obj)
  }

  /**
   * How many times `checkCollisionsSelf(obj)` calls `handleCollision` for
   * the stored `br`: once per colliding face of `br` in case 1, since its
   * `break` only leaves the inner loop; at most once otherwise.
   */
  function Reports(env: Env, obj: Region, br: Region): nat {
    if br.instance == obj.instance || !env.intersects(br, obj) then 0
    else if Faces(br) > 0 && Faces(obj) > 0 then FaceHits(env, br, obj, Faces(br))
    else if Faces(br) > 0 || Faces(obj) > 0 then (if env.facesCollide(br, obj) then 1 else 0)
    else 1
  }

  /** A region is reported at all exactly when it passes the gating. */
  lemma ReportsGated(env: Env, obj: Region, br: Region)
    ensures Reports(env, obj, br) > 0 <==> Gated(env, obj, br)
  {
    if br.instance != obj.instance && env.intersects(br, obj) && Faces(br) > 0 && Faces(obj) > 0 {
      if FineTest(env, br, obj) {
        var i :| 0 <= i < Faces(br) && env.faceHits(br, obj, i);
      }
    }
  }

  /** The collision `e`, `k` times over. */
  function Repeat(e: Collision, k: nat): (r: seq<Collision>)
    ensures |r| == k && forall i :: 0 <= i < k ==> r[i] == e
  {
    if k == 0 then [] else Repeat(e, k - 1) + [e]
  }

  /** The collisions `checkCollisionsSelf(obj)` reports against `objs`, in list order. */
  function SelfEvents(env: Env, objs: seq<Region>, obj: Region): seq<Collision> {
    if objs == [] then []
    else
      var br := objs[|objs| - 1];
      SelfEvents(env, objs[..|objs| - 1], obj) + Repeat(Collision(obj, br), Reports(env, obj, br))
  }

  /**
   * A collision is reported exactly for each stored region of another
   * instance that passes both tests, and always names the moved object.
   */
  lemma {:induction false} SelfEventsExactly(env: Env, objs: seq<Region>, obj: Region, e: Collision)
    ensures e in SelfEvents(env, objs, obj) <==> e.moved == obj && e.hit in objs && Gated(env, obj, e.hit)
  {
    if objs != [] {
      var init, br := objs[..|objs| - 1], objs[|objs| - 1];
      SelfEventsExactly(env, init, obj, e);
      assert objs == init + [br];
      ReportsGated(env, obj, br);
      var tail := Repeat(Collision(obj, br), Reports(env, obj, br));
      assert e in tail <==> Reports(env, obj, br) > 0 && e == Collision(obj, br) by {
        if e in tail {
          var i :| 0 <= i < |tail| && tail[i] == e;
        } else if Reports(env, obj, br) > 0 {
          assert tail[0] == Collision(obj, br);
        }
      }
    }
  }

  /**
   * Each stored region is reported exactly as many times as it is stored
   * times the reports one copy gets.
   */
  lemma {:induction false} SelfEventsCount(env: Env, objs: seq<Region>, obj: Region, br: Region)
    ensures multiset(SelfEvents(env, objs, obj))[Collision(obj, br)] == multiset(objs)[br] * Reports(env, obj, br)
  {
    if objs != [] {
      var init, last := objs[..|objs| - 1], objs[|objs| - 1];
      var r := Reports(env, obj, br);
      SelfEventsCount(env, init, obj, br);
      SelfEventsLast(env, objs, obj, br);
      StoredLast(objs, br);
      CountStep(multiset(SelfEvents(env, objs, obj))[Collision(obj, br)], multiset(SelfEvents(env, init, obj))[Collision(obj, br)],
                multiset(objs)[br], multiset(init)[br], r, last == br);
    }
  }

  /** The last stored region adds its own reports to those of the regions before it. */
  lemma SelfEventsLast(env: Env, objs: seq<Region>, obj: Region, br: Region)
    requires objs != []
    ensures var last := objs[|objs| - 1];
      multiset(SelfEvents(env, objs, obj))[Collision(obj, br)]
        == multiset(SelfEvents(env, objs[..|objs| - 1], obj))[Collision(obj, br)]
           + if last == br then Reports(env, obj, br) else 0
  {
    var last := objs[|objs| - 1];
    RepeatCount(Collision(obj, last), Reports(env, obj, last), Collision(obj, br));
  }

  /** The last region of a list adds one to its count. */
  lemma StoredLast(objs: seq<Region>, br: Region)
    requires objs != []
    ensures multiset(objs)[br] == multiset(objs[..|objs| - 1])[br] + if objs[|objs| - 1] == br then 1 else 0
  {
    assert objs == objs[..|objs| - 1] + [objs[|objs| - 1]];
  }

  /** One more stored copy of a region adds its reports once more. */
  lemma CountStep(c: nat, c0: nat, m: nat, m0: nat, r: nat, same: bool)
    requires c == c0 + (if same then r else 0) && c0 == m0 * r && m == m0 + (if same then 1 else 0)
    ensures c == m * r
  {
    if same {
      assert (m0 + 1) * r == m0 * r + r;
    }
  }

  /** `Repeat(e, k)` holds `e` `k` times and nothing else. */
  lemma {:induction false} RepeatCount(e: Collision, k: nat, x: Collision)
    ensures multiset(Repeat(e, k))[x] == if x == e then k else 0
  {
    if k > 0 {
      RepeatCount(e, k - 1, x);
      assert Repeat(e, k) == Repeat(e, k - 1) + [e];
    }
  }

  /** A region is never reported as colliding with a region of its own instance. */
  lemma SelfEventsSkipOwnInstance(env: Env, objs: seq<Region>, obj: Region, e: Collision)
    requires e in SelfEvents(env, objs, obj)
    ensures e.hit.instance != obj.instance
  {
    SelfEventsExactly(env, objs, obj, e);
  }
}
