/** `ArenaBox` (src/box.rs): a pointer into an arena that owns the value it points to but not
    the bytes. The lifetime `'a` is the ghost generation `gen`; the move semantics of `self` are
    the ghost handle state. */
module Boxes {
  import opened Prelude
  import opened Arenas

  /** Where a handle is in its life. Only `Live` handles can be used; the other three are final. */
  datatype HandleState = Live | Dropped | Released | Leaked

  /** The `PartialEq` and `PartialOrd` operations of the boxed type `T`. */
  datatype Comparisons<-V> = Comparisons(
    eq: (V, V) -> bool, ne: (V, V) -> bool, partialCmp: (V, V) -> Option<Ordering>,
    lt: (V, V) -> bool, le: (V, V) -> bool, gt: (V, V) -> bool, ge: (V, V) -> bool)

  class ArenaBox<V> {
    // The raw pointer (the field `buffer` of the source).
    const buffer: nat
    // The memory the pointer points into.
    const arena: Arena<V>
    // Which value of the arena's ledger this handle is responsible for.
    ghost const id: nat
    // The lifetime `'a`: the generation the handle was made in.
    ghost const gen: nat
    ghost var state: HandleState

    /** The invariant of src/box.rs:16-17: the pointer is valid for `'a` and points to a valid
        value, which this handle alone owns while it is live. */
    ghost predicate Valid()
      reads this, arena
      ensures Valid() ==> buffer != 0 && arena.buffer <= buffer < arena.buffer + arena.length && buffer in arena.cells
    {
      arena.Valid() && !arena.freed && gen == arena.gen
      && id < |arena.instances| && arena.instances[id].addr == buffer && arena.instances[id].gen == gen
      && (state.Live? ==> arena.instances[id].status == Owned(this))
    }

    /** `ArenaBox::from_raw(ptr)`. Its safety conditions (valid for `'a`, nothing else accesses
        it, points to a valid value) say that the caller holds the value `id` at `ptr` through a
        raw pointer; the new handle takes over that responsibility. */
    constructor FromRaw(arena: Arena<V>, ptr: nat, ghost id: nat)
      requires arena.Valid() && !arena.freed
      requires id < |arena.instances| && arena.instances[id].addr == ptr
      requires arena.instances[id].status == RawHeld && arena.instances[id].gen == arena.gen
      modifies arena`instances
      ensures buffer == ptr && this.arena == arena && this.id == id && state == Live
      ensures arena.instances == old(arena.instances)[id := old(arena.instances[id]).(status := Owned(this))]
      ensures Valid()
    {
      buffer, this.arena, this.id, gen, state := ptr, arena, id, arena.gen, Live;
      new;
      arena.instances := arena.instances[id := arena.instances[id].(status := Owned(this))];
    }

    /** `into_raw`: consumes the handle through `ManuallyDrop`, so no destructor runs; the caller
        now holds the value through the returned, non-null pointer. */
    method IntoRaw() returns (ptr: nat)
      requires Valid() && state.Live?
      modifies this, arena`instances
      ensures ptr == buffer && ptr != 0 && ptr in arena.cells
      ensures state == Released
      ensures arena.instances == old(arena.instances)[id := old(arena.instances[id]).(status := RawHeld)]
      ensures arena.drops == old(arena.drops) && arena.Valid()
    {
      arena.instances := arena.instances[id := arena.instances[id].(status := RawHeld)];
      state := Released;
      ptr := buffer;
    }

    /** `as_ref` (and `Deref`): reads the value stored at the pointer. */
    function AsRef(): (v: V)
      reads this, arena
      requires Valid() && state.Live?
      ensures AsPtr() in arena.cells && v == arena.cells[AsPtr()]
    {
      arena.cells[buffer]
    }

    /** `*box.as_mut() = v` (and `DerefMut`): writes through the pointer. A later `as_ref`
        sees `v`, and no other address changes. */
    method AsMut(v: V)
      requires Valid() && state.Live?
      modifies arena`cells
      ensures arena.cells == old(arena.cells)[buffer := v]
      ensures Valid() && AsRef() == v
    {
      arena.cells := arena.cells[buffer := v];
    }

    /** `as_ptr`, with the guarantees its documentation gives: not null, pointing at a value,
        and inside the arena's block. */
    function AsPtr(): (p: nat)
      reads this, arena
      requires Valid() && state.Live?
      ensures p != 0 && p in arena.cells
      ensures arena.buffer <= p < arena.buffer + arena.length
    {
      buffer
    }

    /** `as_mut_ptr`: the same pointer; takes `&mut self` but changes nothing. */
    method AsMutPtr() returns (p: nat)
      requires Valid() && state.Live?
      ensures p == AsPtr()
    {
      p := buffer;
    }

    /** `leak`: consumes the handle through `ManuallyDrop` and returns a reference to the same
        location. The destructor will never run and the value stays where it is. */
    method Leak() returns (ptr: nat)
      requires Valid() && state.Live?
      modifies this, arena`instances
      ensures ptr == buffer && state == Leaked
      ensures ptr in arena.cells && arena.cells[ptr] == old(AsRef())
      ensures arena.instances == old(arena.instances)[id := old(arena.instances[id]).(status := Escaped)]
      ensures arena.drops == old(arena.drops) && arena.Valid()
    {
      arena.instances := arena.instances[id := arena.instances[id].(status := Escaped)];
      state := Leaked;
      ptr := buffer;
    }

    /** `Drop for ArenaBox`: `drop_in_place` runs the value's destructor, for the first and only
        time; the bytes are left alone and nothing is deallocated. */
    method Drop()
      requires Valid() && state.Live?
      modifies this, arena`instances, arena`drops
      ensures state == Dropped
      ensures old(arena.drops)[id] == 0 && arena.drops == old(arena.drops)[id := 1]
      ensures arena.instances == old(arena.instances)[id := old(arena.instances[id]).(status := Destroyed)]
      ensures arena.cells == old(arena.cells) && !arena.freed && arena.Valid()
    {
      arena.instances := arena.instances[id := arena.instances[id].(status := Destroyed)];
      arena.drops := arena.drops[id := arena.drops[id] + 1];
      state := Dropped;
    }

    // `PartialEq` and `PartialOrd` forward every operation to the boxed values.

    function Eq(other: ArenaBox<V>, t: Comparisons<V>): bool
      reads this, arena, other, other.arena
      requires Valid() && state.Live? && other.Valid() && other.state.Live?
    {
      t.eq(AsRef(), other.AsRef())
    }

    function Ne(other: ArenaBox<V>, t: Comparisons<V>): bool
      reads this, arena, other, other.arena
      requires Valid() && state.Live? && other.Valid() && other.state.Live?
    {
      t.ne(AsRef(), other.AsRef())
    }

    function PartialCmp(other: ArenaBox<V>, t: Comparisons<V>): Option<Ordering>
      reads this, arena, other, other.arena
      requires Valid() && state.Live? && other.Valid() && other.state.Live?
    {
      t.partialCmp(AsRef(), other.AsRef())
    }

    function Lt(other: ArenaBox<V>, t: Comparisons<V>): bool
      reads this, arena, other, other.arena
      requires Valid() && state.Live? && other.Valid() && other.state.Live?
    {
      t.lt(AsRef(), other.AsRef())
    }

    function Le(other: ArenaBox<V>, t: Comparisons<V>): bool
      reads this, arena, other, other.arena
      requires Valid() && state.Live? && other.Valid() && other.state.Live?
    {
      t.le(AsRef(), other.AsRef())
    }

    function Gt(other: ArenaBox<V>, t: Comparisons<V>): bool
      reads this, arena, other, other.arena
      requires Valid() && state.Live? && other.Valid() && other.state.Live?
    {
      t.gt(AsRef(), other.AsRef())
    }

    function Ge(other: ArenaBox<V>, t: Comparisons<V>): bool
      reads this, arena, other, other.arena
      requires Valid() && state.Live? && other.Valid() && other.state.Live?
    {
      t.ge(AsRef(), other.AsRef())
    }
  }

  /** Boxes compare as their contents do: two pairs of boxes holding the same values give the
      same answer to every comparison, wherever the values live. */
  lemma ComparisonsSeeOnlyContents<V>(a: ArenaBox<V>, b: ArenaBox<V>, c: ArenaBox<V>, d: ArenaBox<V>,
                                       t: Comparisons<V>)
    requires a.Valid() && a.state.Live? && b.Valid() && b.state.Live?
    requires c.Valid() && c.state.Live? && d.Valid() && d.state.Live?
    requires a.AsRef() == c.AsRef() && b.AsRef() == d.AsRef()
    ensures a.Eq(b, t) == c.Eq(d, t) && a.Ne(b, t) == c.Ne(d, t)
    ensures a.PartialCmp(b, t) == c.PartialCmp(d, t)
    ensures a.Lt(b, t) == c.Lt(d, t) && a.Le(b, t) == c.Le(d, t)
    ensures a.Gt(b, t) == c.Gt(d, t) && a.Ge(b, t) == c.Ge(d, t)
  {
  }

  /** Equality is not pointer identity: two live boxes at different addresses holding the same
      value are equal under a reflexive `PartialEq`. */
  lemma EqualContentsAtDistinctAddresses<V>(a: ArenaBox<V>, b: ArenaBox<V>, t: Comparisons<V>)
    requires a.Valid() && a.state.Live? && b.Valid() && b.state.Live? && a.buffer != b.buffer
    requires forall v :: t.eq(v, v)
    requires a.AsRef() == b.AsRef()
    ensures a.Eq(b, t)
  {
  }
}
