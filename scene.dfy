/**
 * The instance bookkeeping of `Scene`: the id counter that names new
 * instances, and the deferred deletion of instances marked dead.
 *
 * `currentId` is an odometer over 'a'..'z': `generateId` advances it by
 * one, read as a base-26 number, and wraps around to all 'a' after all 'z'.
 * The instance trie is a map from id to the instance's model id and
 * `state` word; `instancesToDelete` holds the ids of the instances marked
 * for deletion, in the order they were marked.
 */
module Scene {
  import opened States
  import opened Bounds
  import opened Lifecycle

  /** The length of the ids the scene hands out ("aaaaaaaa"). */
  const IdLength: nat := 8

  /** Every character of `s` is one of 'a'..'z'. */
  predicate Letters(s: string) {
    forall k :: 0 <= k < |s| ==> 'a' <= s[k] <= 'z'
  }

  /** `n` copies of `c`. */
  function Repeat(c: char, n: nat): (r: string)
    ensures |r| == n && forall k :: 0 <= k < n ==> r[k] == c
  {
    seq(n, _ => c)
  }

  /**
   * The id after `s`: the last character that is not 'z' goes up by one
   * and every 'z' after it becomes 'a'; an id of only 'z' becomes all 'a'.
   */
  function Succ(s: string): (r: string)
    requires Letters(s)
    ensures |r| == |s| && Letters(r)
  {
    if s == [] then []
    else
      var last := s[|s| - 1];
      if last != 'z' then s[..|s| - 1] + [(last as int + 1) as char]
      else Succ(s[..|s| - 1]) + ['a']
  }

  /** `26^n`. */
  function Pow26(n: nat): (p: nat)
    ensures p >= 1
  {
    if n == 0 then 1 else 26 * Pow26(n - 1)
  }

  /** The id read as a base-26 number, 'a' being the digit zero and the last character the lowest digit. */
  function Value(s: string): nat
    requires Letters(s)
  {
    if s == [] then 0 else Value(s[..|s| - 1]) * 26 + (s[|s| - 1] as int - 'a' as int)
  }

  /** An id of `n` letters reads below `26^n`. */
  lemma {:induction false} ValueBound(s: string)
    requires Letters(s)
    ensures Value(s) < Pow26(|s|)
  {
    if s != [] {
      ValueBound(s[..|s| - 1]);
    }
  }

  /**
   * `generateId` adds one to the id read as a number, wrapping around to
   * zero when the sum reaches `26^n` (one past all 'z').
   */
  lemma {:induction false} SuccValue(s: string)
    requires Letters(s)
    ensures Value(Succ(s)) == if Value(s) + 1 == Pow26(|s|) then 0 else Value(s) + 1
  {
    if s != [] {
      var init := s[..|s| - 1];
      ValueBound(init);
      if s[|s| - 1] != 'z' {
        assert Succ(s)[..|s| - 1] == init;
      } else {
        var r := Succ(s);
        assert r[..|r| - 1] == Succ(init);
        SuccValue(init);
      }
    }
  }

  /** The id after `k` calls of `generateId`. */
  function Iter(s: string, k: nat): (r: string)
    requires Letters(s)
    ensures |r| == |s| && Letters(r)
  {
    if k == 0 then s else Succ(Iter(s, k - 1))
  }

  /** Until the counter wraps, `k` calls advance the id by `k`. */
  lemma {:induction false} IterValue(s: string, k: nat)
    requires Letters(s) && Value(s) + k < Pow26(|s|)
    ensures Value(Iter(s, k)) == Value(s) + k
  {
    if k > 0 {
      IterValue(s, k - 1);
      SuccValue(Iter(s, k - 1));
    }
  }

  /**
   * The ids handed out are all different until the counter wraps: the
   * `j`-th and the `k`-th successor of `s` differ whenever `j < k` and `s`
   * is still at least `k` steps below `26^n`.  From "aaaaaaaa" that is
   * every `k` below `26^8`.
   */
  lemma IdsDistinct(s: string, j: nat, k: nat)
    requires Letters(s) && j < k && Value(s) + k < Pow26(|s|)
    ensures Iter(s, j) != Iter(s, k)
  {
    IterValue(s, j);
    IterValue(s, k);
  }

  /** The counter of a new scene reads zero. */
  lemma {:induction false} AllAIsZero(n: nat)
    ensures Letters(Repeat('a', n)) && Value(Repeat('a', n)) == 0
  {
    if n > 0 {
      assert Repeat('a', n)[..n - 1] == Repeat('a', n - 1);
      AllAIsZero(n - 1);
    }
  }

  /**
   * The shape of the next id: with `i` the last position that is not 'z',
   * everything before `i` stays, position `i` goes up by one and every
   * position after it becomes 'a'.
   */
  lemma {:induction false} SuccShape(s: string, i: nat)
    requires Letters(s) && i < |s| && s[i] != 'z'
    requires forall k :: i < k < |s| ==> s[k] == 'z'
    ensures Succ(s) == s[..i] + [(s[i] as int + 1) as char] + Repeat('a', |s| - 1 - i)
  {
    var init := s[..|s| - 1];
    if i < |s| - 1 {
      SuccShape(init, i);
      assert init[..i] == s[..i];
      assert Repeat('a', |init| - 1 - i) + ['a'] == Repeat('a', |s| - 1 - i);
    }
  }

  /** An id of only 'z' wraps around to only 'a'. */
  lemma {:induction false} SuccWraps(s: string)
    requires forall k :: 0 <= k < |s| ==> s[k] == 'z'
    ensures Letters(s) && Succ(s) == Repeat('a', |s|)
  {
    if s != [] {
      SuccWraps(s[..|s| - 1]);
    }
  }

  /** The first id a new scene hands out. */
  lemma FirstId()
    ensures Succ("aaaaaaaa") == "aaaaaaab"
  {
    assert "aaaaaaaa"[..7] == "aaaaaaa";
  }

  /** An instance: the model it belongs to and its `state` word. */
  datatype Instance = Instance(modelId: string, state: bv8)

  /** The state words of the instances, as the octree reads them. */
  function StatesOf(instances: map<string, Instance>): (states: map<string, bv8>)
    ensures states.Keys == instances.Keys
    ensures forall id :: id in instances ==> states[id] == instances[id].state
  {
    map id | id in instances :: instances[id].state
  }

  /** The instances after `markForDeletion(id)` has set `INSTANCE_DEAD` on `id`. */
  function Marked(instances: map<string, Instance>, id: string): map<string, Instance>
    requires id in instances
  {
    instances[id := instances[id].(state := Activate(instances[id].state, InstanceDead))]
  }

  /**
   * Marking an instance sets its dead bit and keeps every other bit and
   * every other instance, so the octree drops its regions on the next
   * update and no region of another instance.
   */
  lemma MarkedIsDead(instances: map<string, Instance>, id: string, br: Region)
    requires id in instances
    ensures var after := Marked(instances, id);
      && after.Keys == instances.Keys
      && after[id].modelId == instances[id].modelId
      && (forall k :: 0 <= k < WordBits && Bit(instances[id].state, k) ==> Bit(after[id].state, k))
      && (br.instance == id ==> Dead(StatesOf(after), br))
      && (br.instance != id ==> (Dead(StatesOf(after), br) <==> Dead(StatesOf(instances), br)))
  {
    var after := Marked(instances, id);
    if br.instance == id {
      assert Bit(InstanceDead, 0);
      assert Bit(after[id].state, 0);
    } else if br.instance in instances {
      assert StatesOf(after)[br.instance] == StatesOf(instances)[br.instance];
    }
  }

  class Scene {
    /** The last id handed out. */
    var currentId: string
    /** The instance trie. */
    var instances: map<string, Instance>
    /** The instances marked for deletion, in marking order. */
    var instancesToDelete: seq<string>

    /** The id counter is an id. */
    predicate Valid()
      reads this
    {
      |currentId| == IdLength && Letters(currentId)
    }

    /** `Scene()`: the counter starts at "aaaaaaaa", with no instances. */
    constructor()
      ensures Valid()
      ensures currentId == "aaaaaaaa" && instances == map[] && instancesToDelete == []
    {
      currentId := "aaaaaaaa";
      instances := map[];
      instancesToDelete := [];
    }

    /**
     * `Scene::generateId`: walking from the last character, every 'z'
     * becomes 'a' until a character that is not 'z' goes up by one; the
     * new counter is returned.
     */
    method GenerateId() returns (id: string)
      requires Valid()
      modifies this
      ensures Valid()
      ensures currentId == Succ(old(currentId)) && id == currentId
      ensures instances == old(instances) && instancesToDelete == old(instancesToDelete)
    {
      ghost var s := currentId;
      var i := |currentId| - 1;
      while i >= 0
        invariant -1 <= i < |s|
        invariant instances == old(instances) && instancesToDelete == old(instancesToDelete)
        invariant currentId == s[..i + 1] + Repeat('a', |s| - 1 - i)
        invariant forall k :: i < k < |s| ==> s[k] == 'z'
        decreases i
      {
        if currentId[i] != 'z' {
          assert currentId[i] == s[i];
          currentId := currentId[i := (currentId[i] as int + 1) as char];
          SuccShape(s, i);
          assert currentId == s[..i] + [(s[i] as int + 1) as char] + Repeat('a', |s| - 1 - i);
          id := currentId;
          return;
        }
        assert s[..i + 1] == s[..i] + [s[i]];
        currentId := currentId[i := 'a'];
        assert currentId == s[..i] + Repeat('a', |s| - i);
        i := i - 1;
      }
      SuccWraps(s);
      id := currentId;
    }

    /** `Scene::removeInstance`: the instance leaves the trie. */
    method RemoveInstance(id: string)
      requires id in instances
      modifies this
      ensures instances == old(instances) - {id}
      ensures currentId == old(currentId) && instancesToDelete == old(instancesToDelete)
    {
      instances := instances - {id};
    }

    /**
     * `Scene::markForDeletion`: `INSTANCE_DEAD` is set on the instance,
     * its other bits kept, and the instance is queued for deletion.
     */
    method MarkForDeletion(id: string)
      requires id in instances
      modifies this
      ensures instances == Marked(old(instances), id)
      ensures instancesToDelete == old(instancesToDelete) + [id]
      ensures currentId == old(currentId)
    {
      var instance := instances[id];
      instances := instances[id := instance.(state := Activate(instance.state, InstanceDead))];
      instancesToDelete := instancesToDelete + [id];
    }

    /**
     * `Scene::clearDeadInstances`: every queued instance is removed from
     * the trie, then the queue is emptied.  Each removal looks the instance
     * up and frees it, so the queue may only name instances still in the
     * trie, each once.
     */
    method ClearDeadInstances()
      requires forall id :: id in instancesToDelete ==> id in instances
      requires forall i, j :: 0 <= i < j < |instancesToDelete| ==> instancesToDelete[i] != instancesToDelete[j]
      modifies this
      ensures instances == old(instances) - set id | id in old(instancesToDelete)
      ensures instancesToDelete == []
      ensures currentId == old(currentId)
    {
      var list := instancesToDelete;
      for k := 0 to |list|
        invariant instancesToDelete == list && currentId == old(currentId)
        invariant instances == old(instances) - set id | id in list[..k]
      {
        assert list[k] !in list[..k];
        assert list[k] in instances;
        RemoveInstance(list[k]);
        assert list[..k + 1] == list[..k] + [list[k]];
      }
      assert list[..|list|] == list;
      instancesToDelete := [];
    }
  }
}
