/**
 * Bit-flag helpers over a flag word (the `States` namespace of the engine).
 *
 * The source templates every helper over the word type `T` and passes the
 * word by pointer.  The octree's `activeOctants` mask and an instance's
 * `state` word are both `unsigned char`, so the word is modelled as `bv8`,
 * and every helper that updates the caller's word through the pointer is a
 * function returning the new value of that word.
 *
 * The index helpers compute `1 << target` on an `int` and narrow it to the
 * word: a `target` of 8 or more yields the empty mask once narrowed, and a
 * `target` of 31 or more overflows the `int` shift.
 */
module States {

  /** Number of bits in the flag word. */
  const WordBits: nat := 8

  /** Bit `k` of `w`. */
  predicate Bit(w: bv8, k: nat)
    requires k < WordBits
  {
    w & BitMask(k) != 0
  }

  /** The word whose only set bit is bit `k`. */
  function BitMask(k: nat): bv8
    requires k < WordBits
  {
    match k
    case 0 => 0x01 case 1 => 0x02 case 2 => 0x04 case 3 => 0x08
    case 4 => 0x10 case 5 => 0x20 case 6 => 0x40 case _ => 0x80
  }

  /** Bit `k` of a bitwise and. */
  lemma BitAnd(a: bv8, b: bv8)
    ensures forall k :: 0 <= k < WordBits ==> (Bit(a & b, k) <==> Bit(a, k) && Bit(b, k))
  {
    forall k | 0 <= k < WordBits
      ensures Bit(a & b, k) <==> Bit(a, k) && Bit(b, k)
    {
      if k == 0 {} else if k == 1 {} else if k == 2 {} else if k == 3 {}
      else if k == 4 {} else if k == 5 {} else if k == 6 {} else {}
    }
  }

  /** Bit `k` of a bitwise or. */
  lemma BitOr(a: bv8, b: bv8)
    ensures forall k :: 0 <= k < WordBits ==> (Bit(a | b, k) <==> Bit(a, k) || Bit(b, k))
  {
    forall k | 0 <= k < WordBits
      ensures Bit(a | b, k) <==> Bit(a, k) || Bit(b, k)
    {
      if k == 0 {} else if k == 1 {} else if k == 2 {} else if k == 3 {}
      else if k == 4 {} else if k == 5 {} else if k == 6 {} else {}
    }
  }

  /** `BitMask(k)` has a single bit set. */
  lemma BitMaskSingle(k: nat)
    requires k < WordBits
    ensures BitMask(k) != 0 && BitMask(k) & (BitMask(k) - 1) == 0
  {
  }

  /** Through a single-bit mask, an exclusive or reads as unequal bits and an and-not as a cleared bit. */
  lemma SingleBitMask(a: bv8, b: bv8, m: bv8)
    requires m != 0 && m & (m - 1) == 0
    ensures ((a ^ b) & m != 0) <==> ((a & m != 0) != (b & m != 0))
    ensures ((a & !b) & m != 0) <==> ((a & m != 0) && !(b & m != 0))
  {
  }

  /** Bit `k` of a bitwise exclusive or. */
  lemma BitXor(a: bv8, b: bv8)
    ensures forall k :: 0 <= k < WordBits ==> (Bit(a ^ b, k) <==> Bit(a, k) != Bit(b, k))
  {
    forall k | 0 <= k < WordBits
      ensures Bit(a ^ b, k) <==> Bit(a, k) != Bit(b, k)
    {
      BitMaskSingle(k);
      SingleBitMask(a, b, BitMask(k));
    }
  }

  /** Bit `k` of a bitwise and with a complement. */
  lemma BitAndNot(a: bv8, b: bv8)
    ensures forall k :: 0 <= k < WordBits ==> (Bit(a & !b, k) <==> Bit(a, k) && !Bit(b, k))
  {
    forall k | 0 <= k < WordBits
      ensures Bit(a & !b, k) <==> Bit(a, k) && !Bit(b, k)
    {
      BitMaskSingle(k);
      SingleBitMask(a, b, BitMask(k));
    }
  }

  /** `1 << target`, computed on an int and narrowed to the word. */
  function IndexMask(target: nat): (m: bv8)
    requires target < 31
    ensures forall k :: 0 <= k < WordBits ==> (Bit(m, k) <==> k == target)
  {
    if target < WordBits then BitMask(target) else 0
  }

  /** isIndexActive: the word has bit `target` set. */
  function IsIndexActive(states: bv8, target: nat): (active: bool)
    requires target < 31
    ensures active <==> target < WordBits && Bit(states, target)
  {
    states & IndexMask(target) != 0
  }

  /** activateIndex: `*states |= 1 << target`. */
  function ActivateIndex(states: bv8, target: nat): (r: bv8)
    requires target < 31
    ensures forall k :: 0 <= k < WordBits ==> (Bit(r, k) <==> Bit(states, k) || k == target)
  {
    BitOr(states, IndexMask(target));
    states | IndexMask(target)
  }

  /** uniquelyActivateIndex: activate bit `target`, then mask every other bit off. */
  function UniquelyActivateIndex(states: bv8, target: nat): (r: bv8)
    requires target < 31
    ensures forall k :: 0 <= k < WordBits ==> (Bit(r, k) <==> k == target)
  {
    BitAnd(ActivateIndex(states, target), IndexMask(target));
    ActivateIndex(states, target) & IndexMask(target)
  }

  /** deactivateIndex: `*states &= ~(1 << target)`. */
  function DeactivateIndex(states: bv8, target: nat): (r: bv8)
    requires target < 31
    ensures forall k :: 0 <= k < WordBits ==> (Bit(r, k) <==> Bit(states, k) && k != target)
  {
    BitAndNot(states, IndexMask(target));
    states & !IndexMask(target)
  }

  /** toggleIndex: `*states ^= 1 << target`. */
  function ToggleIndex(states: bv8, target: nat): (r: bv8)
    requires target < 31
    ensures forall k :: 0 <= k < WordBits ==> (Bit(r, k) <==> (Bit(states, k) != (k == target)))
  {
    BitXor(states, IndexMask(target));
    states ^ IndexMask(target)
  }

  /** isActive: some bit of `state` is set in the word. */
  function IsActive(states: bv8, state: bv8): (active: bool)
    ensures active <==> exists k :: 0 <= k < WordBits && Bit(states, k) && Bit(state, k)
  {
    var common := states & state;
    BitAnd(states, state);
    assert forall k :: 0 <= k < WordBits ==> (Bit(common, k) <==> Bit(states, k) && Bit(state, k));
    assert common != 0 ==> exists k :: 0 <= k < WordBits && Bit(common, k) by {
      if common != 0 {
        assert Bit(common, 0) || Bit(common, 1) || Bit(common, 2) || Bit(common, 3)
            || Bit(common, 4) || Bit(common, 5) || Bit(common, 6) || Bit(common, 7);
      }
    }
    common != 0
  }

  /** activate: `*states |= state`. */
  function Activate(states: bv8, state: bv8): (r: bv8)
    ensures forall k :: 0 <= k < WordBits ==> (Bit(r, k) <==> Bit(states, k) || Bit(state, k))
  {
    BitOr(states, state);
    states | state
  }

  /**
   * uniquelyActivate: `*states &= state`.  It keeps only the bits the word
   * already had in common with `state` and never sets a bit.
   */
  function UniquelyActivate(states: bv8, state: bv8): (r: bv8)
    ensures forall k :: 0 <= k < WordBits ==> (Bit(r, k) <==> Bit(states, k) && Bit(state, k))
  {
    BitAnd(states, state);
    states & state
  }

  /**
   * What `uniquelyActivate` evidently means, by analogy with
   * `uniquelyActivateIndex`: activate `state`, then mask every other bit
   * off, which leaves the word equal to `state`.
   */
  function UniquelyActivateIntended(states: bv8, state: bv8): (r: bv8)
    ensures forall k :: 0 <= k < WordBits ==> (Bit(r, k) <==> Bit(state, k))
  {
    BitAnd(Activate(states, state), state);
    Activate(states, state) & state
  }

  /** Once uniquely activated, a non-empty `state` reads active and is the whole word. */
  lemma UniquelyActivateIntendedActivates(states: bv8, state: bv8)
    requires state != 0
    ensures IsActive(UniquelyActivateIntended(states, state), state)
    ensures UniquelyActivateIntended(states, state) == state
  {
    assert Bit(state, 0) || Bit(state, 1) || Bit(state, 2) || Bit(state, 3)
        || Bit(state, 4) || Bit(state, 5) || Bit(state, 6) || Bit(state, 7) by {
      if forall k :: 0 <= k < WordBits ==> !Bit(state, k) {
        NoBitsIsZero(state);
      }
    }
  }

  /**
   * The helper as written never activates anything: on a word with no bit
   * set, uniquely activating bit 0 leaves the word empty, and the state
   * does not read active.
   */
  lemma UniquelyActivateLosesState()
    ensures UniquelyActivate(0x00, 0x01) == 0x00
    ensures !IsActive(UniquelyActivate(0x00, 0x01), 0x01)
    ensures IsActive(UniquelyActivateIntended(0x00, 0x01), 0x01)
  {
    UniquelyActivateIntendedActivates(0x00, 0x01);
  }

  /** deactivate: `*states &= ~state`. */
  function Deactivate(states: bv8, state: bv8): (r: bv8)
    ensures forall k :: 0 <= k < WordBits ==> (Bit(r, k) <==> Bit(states, k) && !Bit(state, k))
  {
    BitAndNot(states, state);
    states & !state
  }

  /** toggle: `*states ^= state`. */
  function Toggle(states: bv8, state: bv8): (r: bv8)
    ensures forall k :: 0 <= k < WordBits ==> (Bit(r, k) <==> (Bit(states, k) != Bit(state, k)))
  {
    BitXor(states, state);
    states ^ state
  }

  // Properties that relate several helpers to one another.

  /** Setting a bit that is already set changes nothing. */
  lemma ActivateIndexIdempotent(states: bv8, target: nat)
    requires target < 31
    ensures ActivateIndex(ActivateIndex(states, target), target) == ActivateIndex(states, target)
    ensures target < WordBits ==> IsIndexActive(ActivateIndex(states, target), target)
  {
  }

  /** Toggling the same bit twice restores the word. */
  lemma ToggleIndexTwice(states: bv8, target: nat)
    requires target < 31
    ensures ToggleIndex(ToggleIndex(states, target), target) == states
  {
  }

  /** After activating a non-empty mask it reads active; after deactivating it, inactive. */
  lemma ActivateThenDeactivate(states: bv8, state: bv8)
    requires state != 0
    ensures IsActive(Activate(states, state), state)
    ensures !IsActive(Deactivate(states, state), state)
  {
  }

  // Walking a flag word bit by bit, as the octree does with `activeOctants`.

  /** A word with no set bit is zero. */
  lemma NoBitsIsZero(w: bv8)
    requires forall k :: 0 <= k < WordBits ==> !Bit(w, k)
    ensures w == 0
  {
    assert !Bit(w, 0) && !Bit(w, 1) && !Bit(w, 2) && !Bit(w, 3);
    assert !Bit(w, 4) && !Bit(w, 5) && !Bit(w, 6) && !Bit(w, 7);
  }

  /** `w >>= 1`. */
  function ShiftDown(w: bv8): bv8 {
    w >> 1
  }

  /** Shifting down moves every bit down by one place and lowers a non-zero word. */
  lemma ShiftDownBits(w: bv8)
    ensures forall k :: 0 <= k < WordBits ==> (Bit(ShiftDown(w), k) <==> k + 1 < WordBits && Bit(w, k + 1))
    ensures w != 0 ==> ShiftDown(w) as int < w as int
  {
  }

  /** The number of `>>= 1` steps until `w` reads zero. */
  function Span(w: bv8): nat
    decreases w as int
  {
    ShiftDownBits(w);
    if w == 0 then 0 else 1 + Span(ShiftDown(w))
  }

  /** `Span(w)` is one past the highest set bit of `w` (zero for the empty word). */
  lemma {:induction false} SpanIsHighestBit(w: bv8)
    ensures Span(w) <= WordBits
    ensures forall k :: 0 <= k < WordBits && Bit(w, k) ==> k < Span(w)
    ensures Span(w) > 0 ==> Bit(w, Span(w) - 1)
    decreases w as int
  {
    ShiftDownBits(w);
    if w != 0 {
      var d := ShiftDown(w);
      SpanIsHighestBit(d);
      if Span(d) == 0 {
        assert d == 0;
        forall k | 1 <= k < WordBits
          ensures !Bit(w, k)
        {
          assert !Bit(d, k - 1);
        }
        if !Bit(w, 0) {
          NoBitsIsZero(w);
        }
      }
      forall k | 1 <= k < WordBits && Bit(w, k)
        ensures k < Span(w)
      {
        assert Bit(d, k - 1);
      }
    }
  }

  /**
   * `f` is `flags` after `i` steps of the loops that walk a flag word with
   * `flags >>= 1, i++`: bit `k` of `f` is bit `k + i` of `flags`.
   */
  predicate ShiftedBy(flags: bv8, f: bv8, i: nat) {
    i <= WordBits && forall k :: 0 <= k < WordBits ==> (Bit(f, k) <==> k + i < WordBits && Bit(flags, k + i))
  }

  /** The walk starts with the word itself at slot 0. */
  lemma ShiftStart(flags: bv8)
    ensures ShiftedBy(flags, flags, 0)
  {
  }

  /**
   * While the walked word is not zero, the slot is below 8, testing bit 0
   * tests bit `i` of the original word, and the next step keeps the walk
   * in step while lowering the word.
   */
  lemma ShiftNext(flags: bv8, f: bv8, i: nat)
    requires ShiftedBy(flags, f, i) && f != 0
    ensures i < WordBits
    ensures IsIndexActive(f, 0) <==> Bit(flags, i)
    ensures ShiftedBy(flags, ShiftDown(f), i + 1)
    ensures ShiftDown(f) as int < f as int
  {
    ShiftDownBits(f);
    if i >= WordBits {
      NoBitsIsZero(f);
    }
  }

  /** When the walked word reads zero, no bit at slot `i` or above is set. */
  lemma ShiftEnd(flags: bv8, f: bv8, i: nat)
    requires ShiftedBy(flags, f, i) && f == 0
    ensures forall j :: i <= j < WordBits ==> !Bit(flags, j)
  {
    forall j | i <= j < WordBits
      ensures !Bit(flags, j)
    {
      assert !Bit(f, j - i);
    }
  }
}
