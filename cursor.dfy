/** `ArenaAlloc` (src/lib.rs:63-72, 85-161): the bump-pointer cursor over an arena. Its `head`
    field is updated in place, on the failure path too; every method is proved to do exactly
    what `Bump.AllocStep` describes. */
module Cursor {
  import opened Prelude
  import opened Usize
  import opened Bump
  import opened Arenas
  import opened Boxes

  class ArenaAlloc<V> {
    var head: nat
    const last: nat
    // The arena borrowed by `begin_alloc`.
    const arena: Arena<V>
    // The lifetime `'a` of that borrow.
    ghost const gen: nat

    /** The invariants of src/lib.rs:87-89: the cursor belongs to the arena's current generation,
        `last` is the address of the block's final byte, `head` never drops below the block's
        start, and every value this generation has written ends at or below `head`, so the bytes
        from `head` on are accessed by nothing else (src/lib.rs:123-125). `head` may rise past
        `last`, because a call that is refused keeps its rounded `head`. */
    ghost predicate Valid()
      reads this, arena
      ensures Valid() ==>
                forall i :: 0 <= i < |arena.instances| && arena.instances[i].gen == gen && arena.instances[i].size > 0
                  ==> arena.buffer <= arena.instances[i].addr < head
    {
      arena.Valid() && !arena.freed && gen == arena.gen
      && arena.buffer <= head < USIZE && last == arena.buffer + arena.length - 1
      && forall i :: 0 <= i < |arena.instances| && arena.instances[i].gen == gen
           ==> arena.instances[i].addr + arena.instances[i].size <= head
    }

    /** `Arena::begin_alloc`: starts a new generation, with `head` at the start of the block and
        `last` at its final byte, so `head <= last` and both lie inside the block. Values of
        earlier generations stay in the ledger, but no handle of theirs is valid any longer. */
    constructor Begin(arena: Arena<V>)
      requires arena.Valid() && !arena.freed
      modifies arena`gen
      ensures arena.gen == old(arena.gen) + 1 && gen == arena.gen
      ensures this.arena == arena
      ensures head == arena.buffer && last == arena.buffer + arena.length - 1
      ensures arena.buffer <= head <= last < arena.buffer + arena.length
      ensures Valid()
    {
      this.arena := arena;
      head := arena.buffer;
      last := arena.buffer + arena.length - 1;
      gen := arena.gen + 1;
      new;
      arena.gen := arena.gen + 1;
    }

    /** `try_alloc_layout` (with the guard of `Bump.AllocStep` before the subtraction). A
        returned region lies inside the block. */
    method TryAllocLayout(layout: Layout) returns (r: Option<nat>)
      requires Valid() && ValidLayout(layout)
      modifies this`head
      ensures Step(r, head) == AllocStep(old(head), last, layout)
      ensures SubtractionSafe(old(head), last, layout) ==> Step(r, head) == AllocStepAsWritten(old(head), last, layout)
      ensures r.Some? ==> arena.buffer <= r.value && r.value + layout.size < arena.buffer + arena.length
      ensures r.Some? ==> forall i :: 0 <= i < |arena.instances| && arena.instances[i].gen == gen
                            ==> arena.instances[i].addr + arena.instances[i].size <= r.value
      ensures Valid()
    {
      if SubtractionSafe(head, last, layout) {
        AsWrittenAgreesWhenSafe(head, last, layout);
      }
      var bumped := CheckedAdd(head, layout.align - 1);
      if bumped.None? {
        return None;
      }
      head := MaskDown(bumped.value, layout.align);
      if head > last || last - head <= layout.size {
        return None;
      }
      var value := head;
      head := head + layout.size;
      return Some(value);
    }

    /** `try_alloc::<T>()`, `layout` being `Layout::new::<T>()`. */
    method TryAlloc(layout: Layout) returns (r: Option<nat>)
      requires Valid() && ValidLayout(layout)
      modifies this`head
      ensures Step(r, head) == AllocStep(old(head), last, layout)
      ensures r.Some? ==> arena.buffer <= r.value && r.value + layout.size < arena.buffer + arena.length
      ensures r.Some? ==> forall i :: 0 <= i < |arena.instances| && arena.instances[i].gen == gen
                            ==> arena.instances[i].addr + arena.instances[i].size <= r.value
      ensures Valid()
    {
      r := TryAllocLayout(layout);
    }

    /** `alloc::<T>()`: panics exactly when `try_alloc` returns `None`. */
    method Alloc(layout: Layout) returns (r: Fallible<nat>)
      requires Valid() && ValidLayout(layout)
      modifies this`head
      ensures head == AllocStep(old(head), last, layout).head
      ensures r.Panicked? <==> AllocStep(old(head), last, layout).result.None?
      ensures r.Done? ==> Some(r.value) == AllocStep(old(head), last, layout).result
      ensures Valid()
    {
      var p := TryAlloc(layout);
      if p.None? {
        return Panicked("Not enough space");
      }
      return Done(p.value);
    }

    /** `try_insert(value)`: on success the value is written at the allocated address, no other
        address changes, and a fresh live handle owns it; on failure nothing is written. Either
        way no value of a non-zero size that this generation wrote before is overwritten. */
    method TryInsert(layout: Layout, value: V) returns (r: Option<ArenaBox<V>>)
      requires Valid() && ValidLayout(layout)
      modifies this`head, arena`cells, arena`instances, arena`drops
      ensures head == AllocStep(old(head), last, layout).head
      ensures r.Some? <==> AllocStep(old(head), last, layout).result.Some?
      ensures r.None? ==> arena.cells == old(arena.cells) && arena.instances == old(arena.instances)
                          && arena.drops == old(arena.drops)
      ensures r.Some? ==> fresh(r.value) && r.value.arena == arena && r.value.state == Live
      ensures r.Some? ==> r.value.buffer == AllocStep(old(head), last, layout).result.value
      ensures r.Some? ==> r.value.Valid() && r.value.AsRef() == value
      ensures r.Some? ==> arena.cells == old(arena.cells)[r.value.buffer := value]
      ensures r.Some? ==> r.value.id == |old(arena.instances)|
                          && arena.instances == old(arena.instances) + [Instance(r.value.buffer, layout.size, gen, Owned(r.value))]
                          && arena.drops == old(arena.drops) + [0]
      ensures forall i :: 0 <= i < |old(arena.instances)| && old(arena.instances)[i].gen == gen
                          && old(arena.instances)[i].size > 0
                          ==> arena.cells[old(arena.instances)[i].addr] == old(arena.cells)[old(arena.instances)[i].addr]
      ensures Valid()
    {
      var p := TryAlloc(layout);
      if p.None? {
        return None;
      }
      var ptr := p.value;
      // `ptr.write(value)`: the caller now holds the value through the raw pointer.
      arena.cells := arena.cells[ptr := value];
      arena.instances := arena.instances + [Instance(ptr, layout.size, gen, RawHeld)];
      arena.drops := arena.drops + [0];
      var b := new ArenaBox.FromRaw(arena, ptr, |arena.instances| - 1);
      r := Some(b);
    }

    /** `insert(value)`: panics exactly when `try_insert` returns `None`. */
    method Insert(layout: Layout, value: V) returns (r: Fallible<ArenaBox<V>>)
      requires Valid() && ValidLayout(layout)
      modifies this`head, arena`cells, arena`instances, arena`drops
      ensures head == AllocStep(old(head), last, layout).head
      ensures r.Panicked? <==> AllocStep(old(head), last, layout).result.None?
      ensures r.Panicked? ==> arena.cells == old(arena.cells) && arena.instances == old(arena.instances)
                              && arena.drops == old(arena.drops)
      ensures r.Done? ==> fresh(r.value) && r.value.arena == arena && r.value.state == Live
      ensures r.Done? ==> r.value.buffer == AllocStep(old(head), last, layout).result.value
      ensures r.Done? ==> r.value.Valid() && r.value.AsRef() == value
      ensures r.Done? ==> arena.cells == old(arena.cells)[r.value.buffer := value]
      ensures r.Done? ==> r.value.id == |old(arena.instances)|
                          && arena.instances == old(arena.instances) + [Instance(r.value.buffer, layout.size, gen, Owned(r.value))]
                          && arena.drops == old(arena.drops) + [0]
      ensures forall i :: 0 <= i < |old(arena.instances)| && old(arena.instances)[i].gen == gen
                          && old(arena.instances)[i].size > 0
                          ==> arena.cells[old(arena.instances)[i].addr] == old(arena.cells)[old(arena.instances)[i].addr]
      ensures Valid()
    {
      var b := TryInsert(layout, value);
      if b.None? {
        return Panicked("Not enough space for to insert a value");
      }
      return Done(b.value);
    }
  }
}
