# A bump-pointer arena allocator, modelled in Dafny

The Rust crate modelled here hands out memory from one fixed block. `Arena::new(length)` obtains
a block of `length` bytes from the global allocator. `Arena::begin_alloc` starts a generation: it
returns an `ArenaAlloc` cursor whose `head` is the first byte of the block and whose `last` is
the final byte. `try_alloc_layout` rounds `head` up to the requested alignment, refuses the
request when `last - head <= size`, and otherwise returns the rounded address and bumps `head` by
`size`. `try_alloc`, `alloc`, `try_insert` and `insert` are wrappers over that step. `insert`
returns an `ArenaBox`, a handle that owns the value but not the bytes: dropping it runs the
value's destructor and frees nothing, while `into_raw` and `leak` hand the value out without
running it.

The project has seven modules:

- `Prelude` (prelude.dfy) holds `Option`, `Fallible` (a result or a panic message) and `Ordering`.
- `Usize` (usize.dfy) models `usize` arithmetic: addresses are naturals below 2^64, `checked_add`,
  wrapping subtraction, `x & !(a - 1)`, and `Layout::from_size_align`.
- `Bump` (bump.dfy) models one `try_alloc_layout` call as a pure function of `head`, `last` and
  the layout, in two versions. `AllocStepAsWritten` is the code exactly as written, with the
  subtraction at line 149 wrapping as in a release build. `AllocStep` is the step with the
  missing check `head > last` added (see "## Findings"). The two agree wherever the comment at
  line 148 holds (`Bump.AsWrittenAgreesWhenSafe`). The module also holds runs of several calls.
- `Arenas` (arenas.dfy) is the class `Arena`. Its `buffer` and `length` are constants and it has
  a map from address to stored value. It also keeps two ghost records: a ledger of every value
  ever written, with a destructor count per value, and a generation number that stands for the
  lifetime of the current cursor borrow.
- `Boxes` (arena_box.dfy) is the class `ArenaBox`. It has the raw pointer, the arena and a ghost
  handle state: `Live`, `Dropped`, `Released` (after `into_raw`) or `Leaked`.
- `Cursor` (cursor.dfy) is the class `ArenaAlloc`, whose `head` field its methods update in place,
  on the failure path too. Its methods perform the corrected step `Bump.AllocStep`, and
  `TryAllocLayout` is also proved equal to the code as written wherever the line-148 comment
  holds.
- `Tests` (tests.dfy) states the crate's tests as client code and lemmas: `create_arena`,
  `allocate_numbers`, `mass_allocate` and `over_allocate`. It adds client code for the raw-pointer
  round trip and for write-through.

Where the written description of the crate and its code disagree, the model follows the code:

- `try_insert` consumes the value even when allocation fails. The value is not handed back.
- There is no maximum-alignment bound and no special case for zero-sized values. As written, a
  zero-sized request is refused exactly when its rounded `head` equals `last` (or the rounding
  overflows). When rounding carries `head` past `last`, it is served past the block, which is the
  defect under "## Findings". The corrected `Bump.AllocStep` refuses it whenever the rounded
  `head` is at or past `last` (`Bump.ZeroSizedRequest`, `Bump.ZeroSizedPastLast`).
- The size check `last - head <= size` is strict and measured against `last`, the address of the
  final byte. So a request that would exactly fill the rest of the block is refused
  (`Bump.ExactFitRefused`).
- `insert_with`, slice insertion and bulk insertion with rollback do not exist in the code.

## Model

| member | source | states |
|---|---|---|
| Usize.MaskDown | src/lib.rs:143-146 | `x & !(align - 1)` for a power-of-two `align` is a multiple of `align`, at most `x`, and less than `align` below it |
| Usize.WrappingSub | src/lib.rs:149 | the unchecked `usize` subtraction equals the true difference when it does not underflow, and 2^64 minus the shortfall when it does |
| Usize.CheckedAdd | src/lib.rs:144 | `checked_add` gives `None` exactly when the true sum does not fit in a `usize`, and otherwise the sum |
| Usize.FromSizeAlign | src/lib.rs:49 | a layout is produced exactly when the alignment is a power of two and the size rounded up to it fits in `isize`, and it keeps the given size and alignment |
| Usize.AlignDividesUsize | src/lib.rs:142-146 | every alignment a valid layout can carry divides 2^64, so the address space ends on an aligned boundary |
| Bump.AlignUp | src/lib.rs:143-146 | the rounded head is the unique multiple of `align` in `[head, head + align)` |
| Bump.RoundedUpUnique | src/lib.rs:143-146 | rounding up to an alignment has exactly one answer |
| Bump.AlignUpOfAligned | src/lib.rs:143-146 | an address that is already aligned is left where it is |
| Bump.AllocStep | src/lib.rs:140-160 | `head` never decreases; an overflowing `checked_add` gives `None` with `head` unchanged; otherwise the result is the rounded head, it is `Some` exactly when that address plus `size` is below `last`, a success moves `head` to the address plus `size`, and a refusal leaves `head` at the rounded value |
| Bump.AllocStepFromAligned | src/lib.rs:143-159 | from an aligned head, no rounding happens: the call succeeds at `head` exactly when the size check passes, and otherwise leaves `head` unchanged |
| Bump.AllocStepAsWritten | src/lib.rs:140-160 | the code as written, with the subtraction at line 149 wrapping, keeps `head` inside the `usize` range |
| Bump.SubtractionSafe | src/lib.rs:148-149 | the claim of the comment at line 148 holds for a call exactly when, once rounding has not overflowed, the subtraction at line 149 does not wrap |
| Bump.AsWrittenAgreesWhenSafe | src/lib.rs:148-149 | wherever the comment's claim that `last >= head` holds, the code as written and the guarded step give the same result and the same new `head` |
| Bump.AsWrittenEscapesBuffer | src/lib.rs:148-149 | wherever the claim fails, even from `head <= last`, the code as written returns the rounded address although it lies past `last` and moves `head` to that address plus the size, and the guarded step refuses |
| Bump.ZeroSizedRequest | src/lib.rs:143-159 | a zero-sized request is refused by the code as written exactly when rounding overflows or lands on `last`, and by the corrected step exactly when rounding overflows or reaches `last` or beyond |
| Bump.ZeroSizedPastLast | src/lib.rs:143-159 | in a one-byte arena at 4111, a zero-sized request aligned to 8 is served at 4112, past the block, as written, and refused by the corrected step |
| Bump.AsWrittenFailureKeepsBound | src/lib.rs:143-151 | a refused call of the code as written leaves `head <= last` |
| Bump.AsWrittenPastLastServes | src/lib.rs:143-159 | once `head` lies past `last`, the code as written serves every request that does not overflow the address space, at the rounded address past `last`, and bumps `head` past it |
| Bump.UnderflowExample | src/lib.rs:143-159 | a 16-byte block at 4096 serves a `u64` at 4096 and a `u8` at 4104; then the code as written hands out 4112 and then 4120, both past the block, for the next two `u64`s, while the guarded step refuses the first of them and leaves `head` at 4112 |
| Bump.PastLastStaysRefused | src/lib.rs:143-151 | in the corrected step, once a refusal has carried `head` past `last`, every later request is refused and `head` stays past `last` (the code as written behaves the other way, see `Bump.AsWrittenPastLastServes`) |
| Bump.AllocFirstFit | src/lib.rs:143-159 | if any aligned address at or above `head` passes the size check, the call succeeds at an address no higher than it |
| Bump.ExactFitRefused | src/lib.rs:149 | a request that would end at the end of the block, or one byte before it, is refused |
| Bump.Run | src/lib.rs:143-159 | a sequence of calls yields one result per request and never moves `head` backwards |
| Bump.RunBounds | src/lib.rs:143-159 | every region a run hands out is aligned, starts at or above the initial `head`, ends before `last`, and ends at or below the final `head` |
| Bump.RunDisjoint | src/lib.rs:143-159 | successful allocations of a run, with or without refusals between them, are increasing and pairwise disjoint |
| Arenas.Arena.Valid | src/lib.rs:29-32 | every value the arena has held lies inside the block and belongs to the current or an earlier generation, and no destructor has run more than once |
| Arenas.Arena.Init | src/lib.rs:52-55 | a new arena records the block and its layout and starts with no values and generation 0 |
| Arenas.Arena.New | src/lib.rs:45-56 | `new` panics exactly when the length is zero, the layout is rejected, or the allocation returns null; otherwise the arena owns the given block with the given length |
| Arenas.Arena.Drop | src/lib.rs:75-83 | `dealloc` receives the original pointer and the same `(length, 1)` layout used at allocation, and rebuilding that layout cannot fail |
| Cursor.ArenaAlloc.Valid | src/lib.rs:87-92 | every value of non-zero size that the cursor's generation has written lies inside the block and below `head`, so the bytes from `head` on are used by nothing else |
| Cursor.ArenaAlloc.Begin | src/lib.rs:63-72 | `head` starts at the first byte and `last` at the final byte of the block, with `head <= last`; a new generation begins, so no earlier handle stays valid |
| Cursor.ArenaAlloc.TryAllocLayout | src/lib.rs:140-160 | the in-place method returns what the corrected `Bump.AllocStep` returns and leaves `head` where it says, which is also what the code as written does wherever `Bump.SubtractionSafe` holds; a returned region lies inside the block and after every value this generation has written |
| Cursor.ArenaAlloc.TryAlloc | src/lib.rs:126-128 | `try_alloc::<T>` is `try_alloc_layout` on `T`'s layout |
| Cursor.ArenaAlloc.Alloc | src/lib.rs:135-137 | `alloc` panics exactly when `try_alloc` returns `None`, returns the same address otherwise, and moves `head` the same way |
| Cursor.ArenaAlloc.TryInsert | src/lib.rs:98-113 | `Some` exactly when the allocation succeeds; the new live handle points at the returned address, which now holds `value`, and no other address changes; on failure nothing is written; either way no value of non-zero size written earlier in the generation is overwritten |
| Cursor.ArenaAlloc.Insert | src/lib.rs:119-121 | `insert` panics exactly when `try_insert` returns `None`, and otherwise behaves as it does |
| Boxes.ArenaBox.Valid | src/box.rs:16-19 | a valid handle's pointer is not null, lies inside the block and points at a stored value |
| Boxes.ArenaBox.FromRaw | src/box.rs:29-34 | the handle's pointer is `ptr`, and it takes over the value the caller held through that pointer, which must belong to the current generation (valid for `'a`) |
| Boxes.ArenaBox.IntoRaw | src/box.rs:45-47 | returns the handle's non-null pointer to its value, consumes the handle and runs no destructor; the caller now holds the value through the pointer |
| Boxes.ArenaBox.AsRef | src/box.rs:49-54 | reads the value stored at the pointer `as_ptr` returns |
| Boxes.ArenaBox.AsMut | src/box.rs:56-61 | a write through `as_mut` changes only the handle's address, and a later `as_ref` sees it |
| Boxes.ArenaBox.AsPtr | src/box.rs:63-71 | the pointer is not null, points at a stored value, and lies inside the block |
| Boxes.ArenaBox.AsMutPtr | src/box.rs:73-81 | returns the same pointer as `as_ptr` and changes nothing |
| Boxes.ArenaBox.Leak | src/box.rs:83-90 | returns the same location with the value intact, consumes the handle, and runs no destructor now or later |
| Boxes.ArenaBox.Drop | src/box.rs:131-137 | the destructor of a live handle's value runs for the first and only time; the bytes are not touched or freed |
| Boxes.ArenaBox.Eq | src/box.rs:317-319 | `eq` forwards to the values' `PartialEq::eq`; what that means is stated by `Boxes.ComparisonsSeeOnlyContents` |
| Boxes.ArenaBox.Ne | src/box.rs:321-323 | `ne` forwards to the values' `PartialEq::ne` |
| Boxes.ArenaBox.PartialCmp | src/box.rs:328-330 | `partial_cmp` forwards to the values' `PartialOrd::partial_cmp` |
| Boxes.ArenaBox.Lt | src/box.rs:332-334 | `lt` forwards to the values' `PartialOrd::lt` |
| Boxes.ArenaBox.Le | src/box.rs:336-338 | `le` forwards to the values' `PartialOrd::le` |
| Boxes.ArenaBox.Gt | src/box.rs:344-346 | `gt` forwards to the values' `PartialOrd::gt` |
| Boxes.ArenaBox.Ge | src/box.rs:340-342 | `ge` forwards to the values' `PartialOrd::ge` |
| Boxes.ComparisonsSeeOnlyContents | src/box.rs:315-347 | every `PartialEq` and `PartialOrd` operation on two handles depends only on the values they hold, not on where they live |
| Boxes.EqualContentsAtDistinctAddresses | src/box.rs:315-324 | two handles at different addresses holding the same value are equal under a reflexive `PartialEq` |
| Tests.CreateArena | src/lib.rs:167-170 | a 512-byte arena is created and released with the layout `(512, 1)` |
| Tests.InsertNumbers | src/lib.rs:173-178 | in a fresh 512-byte arena, `5.2` goes at the first 8-aligned address of the block and `5` right after it |
| Tests.InsertString | src/lib.rs:184-186 | a second `begin_alloc` on the same arena serves the `String` at the first 8-aligned address again |
| Tests.AllocateNumbers | src/lib.rs:172-188 | both first-generation destructors have run exactly once before the second generation, the string's destructor has not run, and the string reuses the address of `5.2` |
| Tests.MassAllocate | src/lib.rs:216-222 | wherever the 9000-byte block starts, all 1000 `u64` insertions succeed, at consecutive 8-byte slots from the first aligned address |
| Tests.OverAllocate | src/lib.rs:224-232 | in a 16-byte arena the first `u64` is refused exactly when the block starts one byte past a multiple of 8, and the second is always refused, so the test panics before the third; both calls satisfy the line-148 claim, so the code as written gives the same two results |
| Tests.AlignUpU64 | src/lib.rs:143-146 | rounding up to 8 adds `(8 - block % 8) % 8` |
| Tests.AfterU64 | src/lib.rs:143-159 | after a `u64` at the first aligned address, a following `u64` or `i32` that fits goes right after it |
| Tests.RawRoundTrip | src/box.rs:29-47 | `into_raw` then `from_raw` twice gives back the same pointer and value, and across the round trips and the final drop the destructor runs exactly once |
| Tests.InsertNext | src/lib.rs:98-113 | a further insertion does not disturb any live handle of the same generation whose value has a non-zero size, wherever that value lies, nor its value |
| Tests.WriteThrough | src/box.rs:50-61 | a write through one handle's `as_mut` is seen by its `as_ref`, and the neighbouring handle's value is unchanged |

## Left out

- Trait forwarding in src/box.rs (fmt, Borrow, Deref, Iterator, Hasher, Read, Write, Seek,
  BufRead, Future) is not modelled. It only hands each call to the boxed value's own
  implementation. `Deref` and `DerefMut` are the same as `AsRef` and `AsMut`. One defect there
  stays unmodelled: `next_back` at src/box.rs:166-168 forwards to `next`, not to `next_back`.
- The global allocator is a parameter. `Arena.New` takes the address `alloc` returns, with 0 for
  a null pointer. `dealloc` is the pointer and layout `Arena.Drop` returns.
- Lifetimes and borrow checking (`'a`, `PhantomData`, `&mut self`) are a ghost generation number.
  The compiler's guarantee that a handle does not outlive its generation, or its arena, is a
  precondition here, not a proof.
- The values stored are opaque values of one type `V` per arena. The model has no byte-level
  memory, so `ptr.write` stores a whole value at its address. Values of different types in one
  arena are stated per test with a sum type (`Tests.Value`).
- A value's destructor is the ghost destructor count in the arena's ledger. Its effects are not
  modelled.
- `as_mut` and `DerefMut` are modelled as a write of a new value through the handle
  (`ArenaBox.AsMut`), because Dafny has no mutable references into a map.
- Cursor.ArenaAlloc.TryAllocLayout, and every method built on it: the class performs the
  corrected step `Bump.AllocStep`, not the code as written. The two agree wherever
  `Bump.SubtractionSafe` holds (the method's own ensures). Where it fails, the source returns an
  address past `last` (`Bump.AsWrittenEscapesBuffer`, `Bump.AsWrittenPastLastServes`), and the
  class and every test built on it describe only the corrected program.
- Cursor.ArenaAlloc.TryInsert: the destructor that runs when `try_insert` drops its value on the
  failure path is not recorded in the ledger, because that value never entered the arena.
- Cursor.ArenaAlloc.TryInsert: a value of size zero takes no bytes, yet in the model it has a
  cell at its address like any other value. The next value allocated at the same address shares
  that cell, so a later write there changes what the zero-size handle reads. The promise that
  earlier values are not overwritten covers only values of non-zero size.
- InsertNext: for the same reason, it promises nothing about a previous handle whose value has
  size zero.
- Bump.AllocStepAsWritten: an overflow at line 149 panics in a debug build. It is modelled as
  the release build's wrap-around, which is the case where the code returns an address outside
  the block. The bump `head.add(size)` at line 157 is reduced modulo 2^64 only to keep `head` a
  `usize`. A pointer `add` that overflows is undefined behaviour, not a wrap, so the model says
  nothing true about that case.
- The `enum_testing` test (src/lib.rs:190-214) is not modelled. It inserts three `Ast` values, and
  the third one owns the handles of the first two, so dropping it drops them in turn. Values
  that hold handles are outside the model, whose stored values are of one opaque type `V`
  without destructors of their own. The `println!` calls in the tests print only, so they are
  not modelled.
- Features the code does not contain: `insert_with`, slice and bulk insertion with rollback, a
  maximum-alignment bound, and special handling of zero-sized values.

## Findings

| source | as written | input that shows it | evidently intended | confidence | as-written member | corrected member |
|---|---|---|---|---|---|---|
| src/lib.rs:148-149 | the comment claims `last - head` cannot underflow, but within one call the rounding at lines 143-146 can carry `head` past `last`. In a release build the subtraction then wraps to nearly 2^64, the size check passes, and the call returns an address outside the block. From then on `head` stays past `last`, so every later call that does not overflow the address space succeeds outside the block too | a 16-byte block at 4096: insert a `u64` (at 4096), then a `u8` (at 4104); the next `u64` rounds `head` from 4105 to 4112 > `last` = 4111 and is handed 4112..4120; the next `u64` is handed 4120..4128. Likewise a zero-sized request aligned to 8 in a one-byte block at 4111 is handed 4112 | a request whose rounded address lies past `last` is refused | not executed | Bump.AllocStepAsWritten, Bump.UnderflowExample, Bump.AsWrittenEscapesBuffer, Bump.AsWrittenPastLastServes, Bump.ZeroSizedPastLast | Bump.AllocStep |
