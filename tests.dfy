/** The tests of src/lib.rs:163-233 as statements about the model: `over_allocate` and
    `mass_allocate` for every address the allocator could return, `create_arena` and
    `allocate_numbers` as client code of the classes, plus client code for the handle's escape
    hatches and write-through. */
module Tests {
  import opened Prelude
  import opened Usize
  import opened Bump
  import opened Arenas
  import opened Boxes
  import opened Cursor

  /** `Layout::new::<u64>()` (also the layout of `f64`), and the layouts of `u8`, `i32` and
      `String` on a 64-bit target. */
  const U64: Layout := Layout(8, 8)
  const U8: Layout := Layout(1, 1)
  const I32: Layout := Layout(4, 4)
  const STRING: Layout := Layout(24, 8)

  lemma LayoutsValid()
    ensures ValidLayout(U64) && ValidLayout(U8) && ValidLayout(I32) && ValidLayout(STRING)
  {
    assert IsPow2(8) by { assert IsPow2(4) by { assert IsPow2(2); } }
  }

  /** Rounding up to the alignment of a `u64`, in closed form. */
  lemma AlignUpU64(block: nat)
    ensures AlignUp(block, 8) == block + (8 - block % 8) % 8
  {
    LayoutsValid();
    var q, m := block / 8, block % 8;
    var c := block + (8 - m) % 8;
    if m == 0 {
      assert c == block;
    } else {
      assert c == (q + 1) * 8;
      MultipleMod(q + 1, 8);
    }
    RoundedUpUnique(AlignUp(block, 8), c, block, 8);
  }

  /** `over_allocate`: in a 16-byte arena the first `u64` is refused exactly when the block
      starts one byte past a multiple of 8, and the second is always refused, so the test
      panics at the first or second insertion and never reaches the third. */
  lemma OverAllocate(block: nat)
    requires 0 < block && block + 16 <= USIZE
    ensures AllocStep(block, block + 15, U64).result.None? <==> block % 8 == 1
    ensures AllocStep(AllocStep(block, block + 15, U64).head, block + 15, U64).result.None?
    ensures SubtractionSafe(block, block + 15, U64)
    ensures SubtractionSafe(AllocStep(block, block + 15, U64).head, block + 15, U64)
    ensures AllocStepAsWritten(block, block + 15, U64) == AllocStep(block, block + 15, U64)
    ensures var h := AllocStep(block, block + 15, U64).head;
            AllocStepAsWritten(h, block + 15, U64) == AllocStep(h, block + 15, U64)
  {
    LayoutsValid();
    var r := AlignUp(block, 8);
    AlignUpU64(block);
    AllocStepRounds(block, block + 15, U64);
    assert r % 8 == 0 && block <= r;
    var h := AllocStep(block, block + 15, U64).head;
    if r + 8 < block + 15 {
      assert (r + 8) % 8 == 0;
      AllocStepFromAligned(r + 8, block + 15, U64);
    } else {
      AllocStepFromAligned(r, block + 15, U64);
    }
    assert h % 8 == 0 && h <= block + 15;
    AlignUpOfAligned(h, 8);
    AsWrittenAgreesWhenSafe(block, block + 15, U64);
    AsWrittenAgreesWhenSafe(h, block + 15, U64);
  }

  /** `create_arena`: a 512-byte arena is created and released with the layout it was
      allocated with. */
  method CreateArena(block: nat) returns (layout: Layout)
    requires 0 < block && block + 512 <= USIZE
    ensures layout == Layout(512, 1)
  {
    var a := Arena<int>.New(512, block);
    var ptr;
    ptr, layout := a.value.Drop();
  }

  /** The values `allocate_numbers` stores: an `f64`, an `i32` and a `String`. */
  datatype Value = Float(x: real) | Int(n: int) | Text(s: string)

  /** The first generation of `allocate_numbers`: `5.2` goes at the first aligned address of
      the block and `5` right after it. */
  method InsertNumbers(block: nat) returns (hello: ArenaBox<Value>, five: ArenaBox<Value>)
    requires 0 < block && block + 512 <= USIZE
    ensures fresh(hello.arena) && five.arena == hello.arena
    ensures hello.arena.buffer == block && hello.arena.length == 512
    ensures hello.Valid() && hello.state.Live? && five.Valid() && five.state.Live?
    ensures hello.id == 0 && five.id == 1 && hello.arena.drops == [0, 0]
    ensures hello.buffer == AlignUp(block, 8) && five.buffer == hello.buffer + 8
  {
    LayoutsValid();
    assert RoundedUp(AlignUp(block, 8), block, 8);
    var arena, insert;
    arena, insert, hello := First<Value>(512, block, U64, Float(5.2));
    AfterU64(block, block + 511, I32);
    five := InsertNext(insert, hello, I32, Int(5));
  }

  /** `allocate_numbers`: both destructors of the first generation run before the second
      `begin_alloc` (the handle of `5` is a temporary, `hello` is dropped explicitly), and the
      new cursor starts over at the beginning of the block, so the `String` reuses the address
      of `5.2`. */
  method AllocateNumbers(block: nat) returns (hello: nat, five: nat, myString: nat, ghost drops: seq<nat>)
    requires 0 < block && block + 512 <= USIZE
    ensures hello == AlignUp(block, 8) && five == hello + 8 && myString == hello
    ensures drops == [1, 1, 0]
  {
    var h, f := InsertNumbers(block);
    hello, five := h.buffer, f.buffer;
    var arena := h.arena;
    f.Drop();
    assert h.Valid() && h.state.Live?;
    h.Drop();
    myString := InsertString(arena);
    drops := arena.drops;
  }

  /** The second generation of `allocate_numbers`: a new cursor over the same block serves the
      `String` at the first address aligned for it. */
  method InsertString(arena: Arena<Value>) returns (myString: nat)
    requires arena.Valid() && !arena.freed && arena.length == 512
    modifies arena`gen, arena`cells, arena`instances, arena`drops
    ensures myString == AlignUp(arena.buffer, 8) && arena.drops == old(arena.drops) + [0]
  {
    var again := new ArenaAlloc.Begin(arena);
    LayoutsValid();
    assert RoundedUp(AlignUp(arena.buffer, 8), arena.buffer, 8);
    AllocStepRounds(arena.buffer, again.last, STRING);
    var s := again.Insert(STRING, Text("Hello, World!"));
    myString := s.value.buffer;
  }

  /** After a `u64` at the first aligned address of the block, the next `u64` or `i32` that fits
      goes right after it. */
  lemma AfterU64(block: nat, last: nat, layout: Layout)
    requires layout == U64 || layout == I32
    requires block + 8 <= USIZE && last < USIZE && AlignUp(block, 8) + 8 + layout.size < last
    ensures ValidLayout(layout)
    ensures AllocStep(AlignUp(block, 8) + 8, last, layout)
            == Step(Some(AlignUp(block, 8) + 8), AlignUp(block, 8) + 8 + layout.size)
  {
    LayoutsValid();
    var r := AlignUp(block, 8);
    var q := r / 8;
    DivUnique(r, 8, q, 0);
    if layout == U64 {
      assert r + 8 == (q + 1) * 8;
      MultipleMod(q + 1, 8);
    } else {
      assert r + 8 == (2 * q + 2) * 4;
      MultipleMod(2 * q + 2, 4);
    }
    AllocStepFromAligned(r + 8, last, layout);
  }

  /** `Arena::new(length)` on a block the allocator returned, followed by `begin_alloc`. */
  method Start<V>(length: nat, block: nat) returns (arena: Arena<V>, insert: ArenaAlloc<V>)
    requires 0 < length <= ISIZE_MAX && 0 < block && block + length <= USIZE
    ensures fresh(arena) && fresh(insert) && insert.Valid() && insert.arena == arena
    ensures insert.head == block && insert.last == block + length - 1
    ensures arena.buffer == block && arena.length == length
    ensures arena.instances == [] && arena.drops == []
  {
    var a := Arena<V>.New(length, block);
    arena := a.value;
    insert := new ArenaAlloc.Begin(arena);
  }

  /** The first insertion into a fresh arena, when it fits: the value goes at the first address
      of the block aligned for it, and the handle is the ledger's first entry. */
  method First<V>(length: nat, block: nat, layout: Layout, value: V)
    returns (arena: Arena<V>, insert: ArenaAlloc<V>, b: ArenaBox<V>)
    requires 0 < length <= ISIZE_MAX && 0 < block && block + length <= USIZE && ValidLayout(layout)
    requires block + layout.align <= USIZE && AlignUp(block, layout.align) + layout.size < block + length - 1
    ensures fresh(arena) && insert.Valid() && insert.arena == arena && b.arena == arena
    ensures arena.buffer == block && insert.last == block + length - 1
    ensures b.buffer == AlignUp(block, layout.align) && insert.head == b.buffer + layout.size
    ensures b.Valid() && b.state.Live? && b.AsRef() == value && b.id == 0 && arena.drops == [0]
    ensures arena.instances[0].size == layout.size
  {
    arena, insert := Start<V>(length, block);
    AllocStepRounds(block, insert.last, layout);
    var r := insert.Insert(layout, value);
    b := r.value;
  }

  /** `mass_allocate`: a 9000-byte arena serves 1000 `u64` insertions wherever its block starts;
      all of them succeed and the handles point at consecutive slots from the first aligned
      address of the block. */
  method MassAllocate(block: nat) returns (boxes: seq<ArenaBox<int>>)
    requires 0 < block && block + 9000 <= USIZE
    ensures |boxes| == 1000
    ensures forall i :: 0 <= i < |boxes| ==> boxes[i].buffer == AlignUp(block, 8) + 8 * i
  {
    var r, last := AlignUp(block, 8), block + 8999;
    LayoutsValid();
    var arena, insert, first := First<int>(9000, block, U64, 0);
    assert RoundedUp(r, block, 8);
    boxes := [first];
    while |boxes| < 1000
      invariant 1 <= |boxes| <= 1000
      invariant insert.Valid() && insert.arena == arena && insert.last == last
      invariant insert.head == r + 8 * |boxes| && insert.head % 8 == 0
      invariant forall i :: 0 <= i < |boxes| ==> boxes[i].buffer == r + 8 * i
    {
      ghost var h := insert.head;
      assert h + 8 < last && (h + 8) % 8 == 0;
      AllocStepFromAligned(h, last, U64);
      var b := insert.Insert(U64, |boxes|);
      boxes := boxes + [b.value];
    }
  }

  /** `into_raw` then `from_raw` gives back the same pointer and the same value, and across the
      round trips and the final drop the destructor runs exactly once. */
  method RawRoundTrip(block: nat, v: int) returns (p: nat, q: nat, seen: int, ghost runs: nat)
    requires 0 < block && block + 64 <= USIZE
    ensures p == q && seen == v && runs == 1
  {
    LayoutsValid();
    var arena, insert, box := First<int>(64, block, U64, v);
    p := box.IntoRaw();
    var again := new ArenaBox.FromRaw(arena, p, box.id);
    seen := again.AsRef();
    q := again.IntoRaw();
    var last := new ArenaBox.FromRaw(arena, q, box.id);
    last.Drop();
    runs := arena.drops[box.id];
  }

  /** A further insertion that fits, beside a live handle of the same generation wherever that
      handle's value lies: the handle stays valid and its value is untouched. */
  method InsertNext<V>(insert: ArenaAlloc<V>, prev: ArenaBox<V>, layout: Layout, value: V) returns (b: ArenaBox<V>)
    requires insert.Valid() && ValidLayout(layout) && AllocStep(insert.head, insert.last, layout).result.Some?
    requires prev.Valid() && prev.state.Live? && prev.arena == insert.arena
    requires prev.arena.instances[prev.id].size > 0
    modifies insert`head, insert.arena`cells, insert.arena`instances, insert.arena`drops
    ensures insert.Valid() && insert.head == AllocStep(old(insert.head), insert.last, layout).head
    ensures fresh(b) && b.arena == insert.arena && b.Valid() && b.state.Live? && b.AsRef() == value
    ensures b.buffer == AllocStep(old(insert.head), insert.last, layout).result.value
    ensures b.id == |old(insert.arena.instances)| && insert.arena.drops == old(insert.arena.drops) + [0]
    ensures prev.Valid() && prev.state.Live? && prev.AsRef() == old(prev.AsRef())
  {
    var arena := insert.arena;
    ghost var owner := arena.instances[prev.id];
    AllocStepRounds(insert.head, insert.last, layout);
    var r := insert.Insert(layout, value);
    assert arena.instances[prev.id] == owner;
    b := r.value;
  }

  /** Two `u64` values inserted one after the other into a fresh 64-byte arena. */
  method InsertTwo(block: nat, v: int) returns (b1: ArenaBox<int>, b2: ArenaBox<int>)
    requires 0 < block && block + 64 <= USIZE
    ensures fresh(b1.arena) && b2.arena == b1.arena
    ensures b1.Valid() && b1.state.Live? && b2.Valid() && b2.state.Live?
    ensures b2.buffer == b1.buffer + 8
    ensures b1.AsRef() == v && b2.AsRef() == v
  {
    LayoutsValid();
    assert RoundedUp(AlignUp(block, 8), block, 8);
    var arena, insert;
    arena, insert, b1 := First<int>(64, block, U64, v);
    assert arena.instances[b1.id].size == 8;
    AfterU64(block, block + 63, U64);
    b2 := InsertNext(insert, b1, U64, v);
  }

  /** A write through `as_mut` is seen by a later `as_ref` of the same handle, while the
      neighbouring value is untouched. */
  method WriteThrough(block: nat, v: int, w: int) returns (first: int, second: int)
    requires 0 < block && block + 64 <= USIZE
    ensures first == w && second == v
  {
    var b1, b2 := InsertTwo(block, v);
    b1.AsMut(w);
    first := b1.AsRef();
    second := b2.AsRef();
  }
}
