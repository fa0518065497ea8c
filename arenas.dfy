/** `Arena` (src/lib.rs:28-83): one block of `length` bytes obtained from the global allocator.
    The block's contents are a map from address to the value stored there; the arena also keeps a
    ghost ledger of every value ever written into it (where it lives, who is responsible for it,
    and how many times its destructor has run) and a ghost generation number that stands for the
    lifetime of the current `ArenaAlloc` borrow. */
module Arenas {
  import opened Prelude
  import opened Usize

  /** Who is responsible for a value written into the arena. */
  datatype Status =
    | Owned(holder: object)  // a live `ArenaBox` owns it and will run its destructor
    | RawHeld                  // the caller holds a raw pointer to it (after `ptr.write` or `into_raw`)
    | Escaped                  // `leak` handed out a plain reference; the destructor will never run
    | Destroyed                // `drop_in_place` has run on it

  /** One value written into the arena's buffer: its address, the size of its layout, and the
      generation (the `'a` of the cursor) that allocated it. */
  datatype Instance = Instance(addr: nat, size: nat, gen: nat, status: Status)

  class Arena<V> {
    // The block returned by `alloc` and its length; never reassigned after `new`.
    const buffer: nat
    const length: nat
    // The layout passed to `alloc`.
    ghost const allocLayout: Layout

    // The values stored in the block, by address.
    var cells: map<nat, V>
    // Number of `begin_alloc` calls so far: the generation of the current cursor.
    ghost var gen: nat
    // Every value written into the block, and how many times each one's destructor ran.
    ghost var instances: seq<Instance>
    ghost var drops: seq<nat>
    // Whether `Drop for Arena` has released the block.
    ghost var freed: bool

    ghost predicate Valid()
      reads this
      ensures Valid() ==> forall i :: 0 <= i < |drops| ==> drops[i] <= 1
    {
      0 < buffer && 0 < length && buffer + length <= USIZE
      && allocLayout == Layout(length, 1) && ValidLayout(allocLayout)
      && |drops| == |instances|
      && (forall i :: 0 <= i < |instances| ==>
            buffer <= instances[i].addr < buffer + length && instances[i].addr + instances[i].size <= buffer + length
            && instances[i].gen <= gen && instances[i].addr in cells)
      && (forall i :: 0 <= i < |instances| ==>
            drops[i] == if instances[i].status.Destroyed? then 1 else 0)
    }

    constructor Init(block: nat, layout: Layout)
      requires 0 < block && block + layout.size <= USIZE
      requires layout.align == 1 && 0 < layout.size && ValidLayout(layout)
      ensures Valid() && !freed
      ensures buffer == block && length == layout.size && allocLayout == layout
      ensures cells == map[] && gen == 0 && instances == [] && drops == []
    {
      buffer, length, allocLayout := block, layout.size, layout;
      cells, gen, instances, drops, freed := map[], 0, [], [], false;
    }

    /** `Arena::new(length)`. `block` is the address `alloc` returns for the layout
        `(length, 1)`, 0 standing for a null pointer. Panics on a zero length, on a length the
        layout rejects, and on a failed allocation, in that order. */
    static method New(length: nat, block: nat) returns (r: Fallible<Arena<V>>)
      requires block != 0 ==> block + length <= USIZE
      ensures r.Panicked? <==> (length == 0 || length > ISIZE_MAX || block == 0)
      ensures r.Done? ==> fresh(r.value) && r.value.Valid() && !r.value.freed
      ensures r.Done? ==> r.value.buffer == block && r.value.length == length
      ensures r.Done? ==> r.value.instances == [] && r.value.gen == 0
    {
      if length == 0 {
        return Panicked("length cannot be zero");
      }
      var layout := FromSizeAlign(length, 1);
      if layout.None? {
        return Panicked("called `Result::unwrap()` on an `Err` value: LayoutError");
      }
      if block == 0 {
        return Panicked("Allocation failed");
      }
      var a := new Arena.Init(block, layout.value);
      return Done(a);
    }

    /** `Drop for Arena`: returns the pointer and layout passed to `dealloc`. Because `buffer`
        and `length` are constants, the layout rebuilt at line 80 is the one used at line 49,
        and its `unwrap` cannot panic. */
    method Drop() returns (ptr: nat, layout: Layout)
      requires Valid() && !freed
      modifies this`freed
      ensures freed
      ensures ptr == buffer && layout == allocLayout
      ensures FromSizeAlign(length, 1) == Some(layout)
    {
      var l := FromSizeAlign(length, 1);
      ptr, layout := buffer, l.value;
      freed := true;
    }
  }
}
