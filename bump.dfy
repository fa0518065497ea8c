/** The bump-pointer step of `ArenaAlloc::try_alloc_layout` (src/lib.rs), as a function of the
    cursor's `head` and `last` addresses and the requested layout. The class `ArenaAlloc` in
    module Cursor performs this step in place and is proved to agree with `AllocStep`. */
module Bump {
  import opened Prelude
  import opened Usize

  /** What one call returns, and the value of `head` once it has returned. */
  datatype Step = Step(result: Option<nat>, head: nat)

  /** `r` is `head` rounded up to the next multiple of `align`. */
  predicate RoundedUp(r: nat, head: nat, align: nat)
    requires align > 0
  {
    r % align == 0 && head <= r < head + align
  }

  /** `(head + (align - 1)) & !(align - 1)`, once the addition is known not to overflow. */
  function AlignUp(head: nat, align: nat): (r: nat)
    requires IsPow2(align)
    ensures RoundedUp(r, head, align)
  {
    MaskDown(head + align - 1, align)
  }

  /** Rounding up has exactly one answer. */
  lemma RoundedUpUnique(r1: nat, r2: nat, head: nat, align: nat)
    requires align > 0 && RoundedUp(r1, head, align) && RoundedUp(r2, head, align)
    ensures r1 == r2
  {
    if r1 < r2 {
      MultiplesApart(r1, r2, align);
    } else if r2 < r1 {
      MultiplesApart(r2, r1, align);
    }
  }

  /** An address that is already aligned rounds to itself. */
  lemma AlignUpOfAligned(head: nat, align: nat)
    requires IsPow2(align) && head % align == 0
    ensures AlignUp(head, align) == head
  {
    RoundedUpUnique(AlignUp(head, align), head, head, align);
  }

  /** One call of `try_alloc_layout`, with the guard `r > last` added in front of the
      subtraction `last - r` (see `AllocStepAsWritten` for the code as it stands). The
      `checked_add` overflow leaves through `?` before `head` is assigned; a rejected size leaves
      `head` at its rounded value; a success returns the rounded value and bumps `head` past it. */
  function AllocStep(head: nat, last: nat, layout: Layout): (s: Step)
    requires ValidLayout(layout) && head < USIZE && last < USIZE
    ensures head <= s.head < USIZE
    ensures head + layout.align - 1 >= USIZE ==> s == Step(None, head)
    ensures head + layout.align - 1 < USIZE ==>
              var r := if s.result.Some? then s.result.value else s.head;
              RoundedUp(r, head, layout.align)
              && (s.result.Some? <==> r + layout.size < last)
              && (s.result.Some? ==> s.head == r + layout.size)
  {
    match CheckedAdd(head, layout.align - 1)
    case None => Step(None, head)
    case Some(bumped) =>
      var r := MaskDown(bumped, layout.align);
      if r > last || last - r <= layout.size then Step(None, r)
      else Step(Some(r), r + layout.size)
  }

  /** From an aligned `head` the step involves no rounding: it succeeds at `head` exactly when
      the size check passes, and otherwise leaves `head` where it was. */
  lemma AllocStepFromAligned(head: nat, last: nat, layout: Layout)
    requires ValidLayout(layout) && head < USIZE && last < USIZE && head % layout.align == 0
    ensures AllocStep(head, last, layout)
            == if head + layout.size < last then Step(Some(head), head + layout.size) else Step(None, head)
  {
    AlignDividesUsize(layout);
    MultiplesApart(head, USIZE, layout.align);
    AlignUpOfAligned(head, layout.align);
  }

  /** When `checked_add` does not overflow, the step rounds `head` up and then performs the size
      check on the rounded value. */
  lemma AllocStepRounds(head: nat, last: nat, layout: Layout)
    requires ValidLayout(layout) && head < USIZE && last < USIZE && head + layout.align - 1 < USIZE
    ensures AllocStep(head, last, layout)
            == var r := AlignUp(head, layout.align);
               if r + layout.size < last then Step(Some(r), r + layout.size) else Step(None, r)
  {
  }

  /** `try_alloc_layout` exactly as written: the subtraction `last - head` is an unchecked `usize`
      subtraction, which wraps in a release build when the rounded `head` lies above `last`. */
  function AllocStepAsWritten(head: nat, last: nat, layout: Layout): (s: Step)
    requires ValidLayout(layout) && head < USIZE && last < USIZE
    ensures s.head < USIZE
  {
    match CheckedAdd(head, layout.align - 1)
    case None => Step(None, head)
    case Some(bumped) =>
      var r := MaskDown(bumped, layout.align);
      if WrappingSub(last, r) <= layout.size then Step(None, r)
      else Step(Some(r), (r + layout.size) % USIZE)
  }

  /** The comment at src/lib.rs:148 holds for this call: `last - head` does not underflow,
      because rounding either overflows (and the call has already returned) or stays at or
      below `last`. */
  predicate SubtractionSafe(head: nat, last: nat, layout: Layout)
    requires ValidLayout(layout) && head < USIZE && last < USIZE
    ensures head + layout.align - 1 < USIZE ==>
              (SubtractionSafe(head, last, layout)
               <==> WrappingSub(last, AlignUp(head, layout.align)) == last - AlignUp(head, layout.align))
  {
    head + layout.align - 1 >= USIZE || AlignUp(head, layout.align) <= last
  }

  /** Where the comment at line 148 holds, the guard changes nothing: both versions agree. */
  lemma AsWrittenAgreesWhenSafe(head: nat, last: nat, layout: Layout)
    requires ValidLayout(layout) && head < USIZE && last < USIZE
    requires SubtractionSafe(head, last, layout)
    ensures AllocStepAsWritten(head, last, layout) == AllocStep(head, last, layout)
  {
    if head + layout.align - 1 < USIZE {
      var r := AlignUp(head, layout.align);
      AllocStepRounds(head, last, layout);
      assert WrappingSub(last, r) == last - r;
      if last - r > layout.size {
        assert (r + layout.size) % USIZE == r + layout.size;
        assert AllocStepAsWritten(head, last, layout) == Step(Some(r), r + layout.size);
      } else {
        assert AllocStepAsWritten(head, last, layout) == Step(None, r);
      }
    }
  }

  /** Where it does not hold, starting from a state with `head <= last`, the code as written
      hands out the rounded address although it lies past `last`, that is outside the buffer,
      whereas the guarded step refuses. */
  lemma AsWrittenEscapesBuffer(head: nat, last: nat, layout: Layout)
    requires ValidLayout(layout) && head <= last < USIZE
    requires !SubtractionSafe(head, last, layout)
    ensures AllocStepAsWritten(head, last, layout).result == Some(AlignUp(head, layout.align))
    ensures AlignUp(head, layout.align) > last
    ensures AllocStep(head, last, layout).result.None?
    ensures AlignUp(head, layout.align) + layout.size < USIZE ==>
              AllocStepAsWritten(head, last, layout).head == AlignUp(head, layout.align) + layout.size
  {
    var r := AlignUp(head, layout.align);
    AllocStepRounds(head, last, layout);
    assert WrappingSub(last, r) == USIZE - (r - last);
    assert WrappingSub(last, r) > layout.size;
    if r + layout.size < USIZE {
      ModBelow(r + layout.size, USIZE);
    }
  }

  /** A failed call of the code as written keeps `head <= last`: the size check can only fail
      when the subtraction did not wrap. */
  lemma AsWrittenFailureKeepsBound(head: nat, last: nat, layout: Layout)
    requires ValidLayout(layout) && head <= last < USIZE
    requires AllocStepAsWritten(head, last, layout).result.None?
    ensures AllocStepAsWritten(head, last, layout).head <= last
  {
    if head + layout.align - 1 < USIZE {
      var r := AlignUp(head, layout.align);
      if r > last {
        AsWrittenEscapesBuffer(head, last, layout);
      }
    }
  }

  /** Once `head` lies past `last`, the code as written keeps serving: the subtraction wraps to
      nearly 2^64, every size passes the check, and each call hands out the rounded address,
      past the end of the buffer. */
  lemma AsWrittenPastLastServes(head: nat, last: nat, layout: Layout)
    requires ValidLayout(layout) && last < head < USIZE && head + layout.align - 1 < USIZE
    requires AlignUp(head, layout.align) + layout.size < USIZE
    requires AlignUp(head, layout.align) - last + layout.size < USIZE
    ensures AllocStepAsWritten(head, last, layout)
            == Step(Some(AlignUp(head, layout.align)), AlignUp(head, layout.align) + layout.size)
    ensures AlignUp(head, layout.align) > last
  {
    var r := AlignUp(head, layout.align);
    assert CheckedAdd(head, layout.align - 1) == Some(head + layout.align - 1);
    assert WrappingSub(last, r) == USIZE - (r - last);
    ModBelow(r + layout.size, USIZE);
  }

  /** A zero-sized request, as written, is refused only when the rounded `head` is exactly
      `last` (or the rounding overflows); rounding past `last` makes it succeed at that rounded
      address. The guarded step refuses it once the rounded `head` reaches `last`. */
  lemma ZeroSizedRequest(head: nat, last: nat, align: nat)
    requires ValidLayout(Layout(0, align)) && head < USIZE && last < USIZE
    ensures AllocStepAsWritten(head, last, Layout(0, align)).result.None?
            <==> head + align - 1 >= USIZE || AlignUp(head, align) == last
    ensures AllocStep(head, last, Layout(0, align)).result.None?
            <==> head + align - 1 >= USIZE || AlignUp(head, align) >= last
  {
    if head + align - 1 < USIZE {
      var r := AlignUp(head, align);
      AllocStepRounds(head, last, Layout(0, align));
      assert CheckedAdd(head, align - 1) == Some(head + align - 1);
      if r > last {
        assert WrappingSub(last, r) == USIZE - (r - last);
      } else {
        assert WrappingSub(last, r) == last - r;
      }
    }
  }

  /** An arena of one byte whose block is at 4111 (so `last` is 4111 too): a zero-sized request
      aligned to 8 rounds `head` to 4112 and, as written, is served there, past the block. */
  lemma ZeroSizedPastLast()
    ensures AllocStepAsWritten(4111, 4111, Layout(0, 8)) == Step(Some(4112), 4112)
    ensures AllocStep(4111, 4111, Layout(0, 8)) == Step(None, 4112)
  {
    assert IsPow2(8) by { assert IsPow2(4) by { assert IsPow2(2); } }
    assert MaskDown(4118, 8) == 4112;
  }

  /** A number below the modulus is its own remainder. */
  lemma ModBelow(x: nat, m: nat)
    requires x < m
    ensures x % m == x
  {
  }

  /** A concrete run of the code as written that breaks the comment at line 148: a 16-byte
      arena whose buffer starts at 4096 (so `last` is 4111) serves a `u64`, then a `u8`; the
      next `u64` rounds `head` from 4105 to 4112, past `last`, and is handed 4112..4120, which
      lies outside the buffer 4096..4112; a fourth `u64` is handed 4120..4128. The guarded step
      refuses the third request. */
  lemma UnderflowExample()
    ensures AllocStepAsWritten(4096, 4111, Layout(8, 8)) == Step(Some(4096), 4104)
    ensures AllocStepAsWritten(4104, 4111, Layout(1, 1)) == Step(Some(4104), 4105)
    ensures AllocStepAsWritten(4105, 4111, Layout(8, 8)) == Step(Some(4112), 4120)
    ensures AllocStepAsWritten(4120, 4111, Layout(8, 8)) == Step(Some(4120), 4128)
    ensures AllocStep(4105, 4111, Layout(8, 8)) == Step(None, 4112)
  {
    assert IsPow2(8) by { assert IsPow2(4) by { assert IsPow2(2); } }
    assert MaskDown(4103, 8) == 4096;
    assert MaskDown(4112, 8) == 4112;
    assert MaskDown(4127, 8) == 4120;
  }

  /** Once rounding has carried the guarded step's `head` past `last` (a refused call), every
      later call is refused as well and `head` stays past `last`. */
  lemma PastLastStaysRefused(head: nat, last: nat, layout: Layout)
    requires ValidLayout(layout) && last < head < USIZE
    ensures AllocStep(head, last, layout).result.None?
    ensures AllocStep(head, last, layout).head > last
  {
  }

  /** First fit: if some aligned address at or above `head` would pass the size check, the call
      succeeds, and at an address no higher than that one. */
  lemma AllocFirstFit(head: nat, last: nat, layout: Layout, p: nat)
    requires ValidLayout(layout) && head < USIZE && last < USIZE
    requires p % layout.align == 0 && head <= p && p + layout.size < last
    ensures AllocStep(head, last, layout).result.Some?
    ensures AllocStep(head, last, layout).result.value <= p
  {
    AlignDividesUsize(layout);
    MultiplesApart(p, USIZE, layout.align);
    var r := AlignUp(head, layout.align);
    if r > p {
      MultiplesApart(p, r, layout.align);
    }
  }

  /** The bound the size check enforces at src/lib.rs:149 is strict and measured against `last`,
      the address of the final byte: a request that would end exactly at the end of the buffer,
      or one byte before it, is refused. */
  lemma ExactFitRefused(head: nat, last: nat, layout: Layout)
    requires ValidLayout(layout) && head < USIZE && last < USIZE
    requires head % layout.align == 0 && (head + layout.size == last + 1 || head + layout.size == last)
    ensures AllocStep(head, last, layout) == Step(None, head)
  {
    AlignUpOfAligned(head, layout.align);
    AlignDividesUsize(layout);
    MultiplesApart(head, USIZE, layout.align);
  }

  /** Results of a sequence of calls on one cursor, and its final `head`. */
  datatype Trace = Trace(results: seq<Option<nat>>, head: nat)

  predicate AllValid(layouts: seq<Layout>) {
    forall i :: 0 <= i < |layouts| ==> ValidLayout(layouts[i])
  }

  /** Calls `try_alloc_layout` once per layout, in order, starting from `head`; the head never
      moves backwards. */
  function Run(head: nat, last: nat, layouts: seq<Layout>): (t: Trace)
    requires head < USIZE && last < USIZE && AllValid(layouts)
    ensures |t.results| == |layouts| && head <= t.head < USIZE
    decreases |layouts|
  {
    if layouts == [] then Trace([], head)
    else
      var s := AllocStep(head, last, layouts[0]);
      var t := Run(s.head, last, layouts[1..]);
      Trace([s.result] + t.results, t.head)
  }

  /** The first request of a run is served by one `try_alloc_layout`... */
  lemma RunHead(head: nat, last: nat, layouts: seq<Layout>)
    requires head < USIZE && last < USIZE && AllValid(layouts) && layouts != []
    ensures Run(head, last, layouts).results[0] == AllocStep(head, last, layouts[0]).result
    ensures Run(head, last, layouts).head
            == Run(AllocStep(head, last, layouts[0]).head, last, layouts[1..]).head
  {
  }

  /** ... and the rest from the head it leaves behind. */
  lemma RunTail(head: nat, last: nat, layouts: seq<Layout>, i: nat)
    requires head < USIZE && last < USIZE && AllValid(layouts) && 0 < i < |layouts|
    ensures Run(head, last, layouts).results[i]
            == Run(AllocStep(head, last, layouts[0]).head, last, layouts[1..]).results[i - 1]
  {
    var s := AllocStep(head, last, layouts[0]);
    assert Run(head, last, layouts).results == [s.result] + Run(s.head, last, layouts[1..]).results;
  }

  /** Every region a run hands out is aligned, starts at or above the initial `head`, ends
      before `last`, and lies below the final `head`. */
  lemma {:induction false} RunBounds(head: nat, last: nat, layouts: seq<Layout>, i: nat)
    requires head < USIZE && last < USIZE && AllValid(layouts) && i < |layouts|
    requires Run(head, last, layouts).results[i].Some?
    ensures var r := Run(head, last, layouts).results[i].value;
            head <= r && r % layouts[i].align == 0 && r + layouts[i].size < last
            && r + layouts[i].size <= Run(head, last, layouts).head
    decreases |layouts|
  {
    var s := AllocStep(head, last, layouts[0]);
    RunHead(head, last, layouts);
    if i > 0 {
      RunTail(head, last, layouts, i);
      RunBounds(s.head, last, layouts[1..], i - 1);
    }
  }

  /** Successive successful allocations, with or without failures between them, hand out
      increasing, pairwise disjoint regions. */
  lemma {:induction false} RunDisjoint(head: nat, last: nat, layouts: seq<Layout>, i: nat, j: nat)
    requires head < USIZE && last < USIZE && AllValid(layouts)
    requires i < j < |layouts|
    requires Run(head, last, layouts).results[i].Some? && Run(head, last, layouts).results[j].Some?
    ensures Run(head, last, layouts).results[i].value + layouts[i].size
            <= Run(head, last, layouts).results[j].value
    decreases |layouts|
  {
    var s := AllocStep(head, last, layouts[0]);
    var tail := layouts[1..];
    RunTail(head, last, layouts, j);
    if i > 0 {
      RunTail(head, last, layouts, i);
      RunDisjoint(s.head, last, tail, i - 1, j - 1);
    } else {
      RunHead(head, last, layouts);
      RunBounds(s.head, last, tail, j - 1);
    }
  }
}
