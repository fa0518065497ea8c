/** Machine integers and memory layouts as the allocator sees them: addresses are `usize` values,
    that is naturals below 2^64, and a `Layout` is a size together with a power-of-two alignment. */
module Usize {
  import opened Prelude

  /** One more than `usize::MAX`. */
  const USIZE: nat := 0x1_0000_0000_0000_0000

  /** `isize::MAX`, the largest size a `Layout` may describe. */
  const ISIZE_MAX: nat := 0x7FFF_FFFF_FFFF_FFFF

  predicate IsPow2(a: nat)
    decreases a
  {
    a == 1 || (a >= 2 && a % 2 == 0 && IsPow2(a / 2))
  }

  lemma DoubleMultiple(r: nat, b: nat)
    requires b > 0 && r % b == 0
    ensures (2 * r) % (2 * b) == 0
  {
    var q := r / b;
    assert r == q * b;
    assert 2 * r == q * (2 * b);
    MultipleMod(q, 2 * b);
  }

  lemma MultipleMod(q: nat, d: nat)
    requires d > 0
    ensures (q * d) % d == 0
  {
    DivUnique(q * d, d, q, 0);
  }

  lemma {:induction false} MulAtLeast(k: nat, d: nat)
    requires k >= 1
    ensures k * d >= d
    decreases k
  {
    if k > 1 {
      MulAtLeast(k - 1, d);
      assert k * d == (k - 1) * d + d;
    }
  }

  /** Euclidean division is determined by its quotient and remainder. */
  lemma DivUnique(n: nat, d: nat, q: nat, r: nat)
    requires d > 0 && r < d && n == q * d + r
    ensures n / d == q && n % d == r
  {
    var q', r' := n / d, n % d;
    assert n == q' * d + r';
    if q' < q {
      assert q * d == q' * d + (q - q') * d;
      MulAtLeast(q - q', d);
    } else if q' > q {
      assert q' * d == q * d + (q' - q) * d;
      MulAtLeast(q' - q, d);
    }
  }
  /** Taking away the remainder leaves a multiple of the divisor, and never goes below zero. */
  lemma RemainderBelow(x: nat, a: nat)
    requires a > 0
    ensures x % a <= x && x - x % a == (x / a) * a
  {
    if x < a {
      DivUnique(x, a, 0, x);
    }
  }

  /** Two distinct multiples of `a` are at least `a` apart. */
  lemma MultiplesApart(p: nat, q: nat, a: nat)
    requires a > 0 && p % a == 0 && q % a == 0 && p < q
    ensures p + a <= q
  {
    var i, j := p / a, q / a;
    assert p == i * a && q == j * a;
    if j <= i {
      if j < i {
        assert i * a == j * a + (i - j) * a;
        MulAtLeast(i - j, a);
      }
    } else {
      MulAtLeast(j - i, a);
      assert q - p == (j - i) * a;
    }
  }

  /** `x & !(a - 1)` on a `usize`, for a power of two `a`: clearing the low log2(a) bits of `x`
      takes away exactly the remainder of `x` modulo `a`, which leaves the largest multiple of
      `a` that is not above `x`. */
  function MaskDown(x: nat, a: nat): (r: nat)
    requires IsPow2(a)
    ensures r % a == 0 && r <= x && x < r + a
  {
    RemainderBelow(x, a);
    MultipleMod(x / a, a);
    x - x % a
  }

  /** `x.checked_add(y)` on `usize` operands. */
  function CheckedAdd(x: nat, y: nat): (r: Option<nat>)
    ensures r.None? <==> x + y >= USIZE
    ensures r.Some? ==> r.value == x + y && r.value < USIZE
  {
    if x + y < USIZE then Some(x + y) else None
  }

  /** `x - y` on `usize` with overflow checks disabled (a release build): the result wraps. */
  function WrappingSub(x: nat, y: nat): (r: nat)
    requires x < USIZE && y < USIZE
    ensures r < USIZE
    ensures y <= x ==> r == x - y
    ensures x < y ==> r == USIZE - (y - x)
  {
    (x - y) % USIZE
  }

  /** `std::alloc::Layout`: a size in bytes and an alignment. */
  datatype Layout = Layout(size: nat, align: nat)

  /** `Layout::from_size_align`: the alignment must be a power of two and the size, rounded up to
      the alignment, must not exceed `isize::MAX`. */
  function FromSizeAlign(size: nat, align: nat): (r: Option<Layout>)
    ensures r.Some? <==> IsPow2(align) && size + align - 1 <= ISIZE_MAX
    ensures r.Some? ==> r.value.size == size && r.value.align == align
  {
    if IsPow2(align) && align <= ISIZE_MAX + 1 && size <= ISIZE_MAX - (align - 1)
    then Some(Layout(size, align))
    else None
  }

  /** A layout that `Layout::from_size_align` (or `Layout::new::<T>()`) can produce. */
  predicate ValidLayout(l: Layout) {
    FromSizeAlign(l.size, l.align) == Some(l)
  }

  lemma Pow2Double(a: nat)
    requires IsPow2(a)
    ensures IsPow2(2 * a)
  {
  }

  /** 2^n. */
  function Pow(n: nat): nat {
    if n == 0 then 1 else 2 * Pow(n - 1)
  }

  lemma {:induction false} PowIsPow2(n: nat)
    ensures IsPow2(Pow(n))
  {
    if n > 0 {
      PowIsPow2(n - 1);
      Pow2Double(Pow(n - 1));
    }
  }

  lemma {:induction false} Pow2Divides(a: nat, n: nat)
    requires IsPow2(a) && IsPow2(n) && a <= n
    ensures n % a == 0
    decreases a
  {
    if a > 1 {
      Pow2Divides(a / 2, n / 2);
      DoubleMultiple(n / 2, a / 2);
    }
  }

  lemma UsizeIsPow2()
    ensures IsPow2(USIZE)
  {
    assert Pow(8) == 0x100;
    assert Pow(16) == 0x1_0000;
    assert Pow(24) == 0x100_0000;
    assert Pow(32) == 0x1_0000_0000;
    assert Pow(40) == 0x100_0000_0000;
    assert Pow(48) == 0x1_0000_0000_0000;
    assert Pow(56) == 0x100_0000_0000_0000;
    assert Pow(64) == USIZE;
    PowIsPow2(64);
  }

  /** Every alignment a valid layout can carry divides 2^64, so the address space ends on an
      aligned boundary. */
  lemma AlignDividesUsize(l: Layout)
    requires ValidLayout(l)
    ensures USIZE % l.align == 0
  {
    UsizeIsPow2();
    Pow2Divides(l.align, USIZE);
  }
}
