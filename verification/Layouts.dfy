/** `NonZeroLayout`: a non-zero size with a power-of-two alignment. */
module Layouts {
  import opened Words

  datatype Layout = Layout(size: nat, align: nat)

  /** What every layout accepted by `NewLayout` satisfies (see `NewLayoutExact`). */
  predicate ValidLayout(l: Layout) {
    && 0 < l.size
    && IsPow2(l.align) && l.align <= ISIZE_MAX + 1
    && l.size <= ISIZE_MAX - (l.align - 1)
  }

  type NonZeroLayout = l: Layout | ValidLayout(l) witness Layout(1, 1)

  /** `NonZeroLayout::from_size_align`. */
  function NewLayout(size: nat, align: nat): Option<Layout>
    requires size <= USIZE_MAX && align <= USIZE_MAX
  {
    if size == 0 || align == 0 then None
    else if !IsPow2(align) then None
    else if size > ISIZE_MAX - (align - 1) then None
    else Some(Layout(size, align))
  }

  lemma HalfWordAligned(align: nat)
    requires IsPow2(align) && align <= USIZE_MAX
    ensures align <= ISIZE_MAX + 1 && Aligned(ISIZE_MAX + 1, align)
  {
    Log2Bounded(align);
    WordIsPow2();
    assert Pow2(USIZE_BITS) == 2 * Pow2(USIZE_BITS - 1);
    assert Log2(align) != USIZE_BITS;
    Pow2Monotone(Log2(align), USIZE_BITS - 1);
    Pow2Aligned(Log2(align), USIZE_BITS - 1);
  }

  /** The constructor's bound is the documented one: the layout is accepted exactly when
      the size is not zero, the alignment is a power of two, and the size rounded up to
      the alignment does not exceed `isize::MAX`. */
  lemma NewLayoutExact(size: nat, align: nat)
    requires size <= USIZE_MAX && align <= USIZE_MAX
    ensures NewLayout(size, align).Some? <==>
            0 < size && IsPow2(align) && RoundUp(size, align) <= ISIZE_MAX
    ensures NewLayout(size, align).Some? ==>
            NewLayout(size, align).value == Layout(size, align) && ValidLayout(Layout(size, align))
  {
    if IsPow2(align) {
      HalfWordAligned(align);
      RoundUpBounds(size, align);
      if size > ISIZE_MAX + 1 - align {
        AlignedGap(RoundUp(size, align), ISIZE_MAX + 1, align);
      }
    }
  }

  /** `NonZeroLayout::pad_to_align`, as machine arithmetic: the plain sum must fit a word. */
  function PadToAlign(l: Layout): (r: Option<Layout>)
    requires ValidLayout(l)
    ensures r.Some? ==> r.value.align == l.align
  {
    match CheckedAdd(l.size, l.align)
    case None => None
    case Some(sum) => Some(Layout(BitAnd(sum - 1, BitNot(l.align - 1)), l.align))
  }

  /** Padding never overflows, yields the least multiple of the alignment, stays a valid
      layout under the tighter bound the type pins. */
  lemma PadToAlignExact(l: Layout)
    requires ValidLayout(l)
    ensures PadToAlign(l) == Some(Layout(RoundUp(l.size, l.align), l.align))
    ensures RoundUp(l.size, l.align) <= ISIZE_MAX - (l.align - 1)
    ensures ValidLayout(PadToAlign(l).value)
  {
    hide BitAnd;
    var r := RoundUp(l.size, l.align);
    RoundUpByMask(l.size, l.align);
    RoundUpBounds(l.size, l.align);
    HalfWordAligned(l.align);
    PadFits(r, l.align);
  }

  lemma PadFits(r: nat, align: nat)
    requires 0 < align <= ISIZE_MAX + 1 && Aligned(ISIZE_MAX + 1, align)
    requires Aligned(r, align) && r <= ISIZE_MAX
    ensures r <= ISIZE_MAX + 1 - align
  {
    AlignedGap(ISIZE_MAX + 1 - align, r, align);
  }

  lemma PadToAlignIdempotent(l: Layout)
    requires ValidLayout(l)
    ensures PadToAlign(l).Some? && ValidLayout(PadToAlign(l).value)
    ensures PadToAlign(PadToAlign(l).value) == PadToAlign(l)
  {
    PadToAlignExact(l);
    PadToAlignExact(PadToAlign(l).value);
    RoundUpBounds(l.size, l.align);
    RoundUpOfMultiple(RoundUp(l.size, l.align), l.align);
  }

  /** `NonZeroLayout::array` for `n` elements whose own layout is `elem`. */
  function ArrayLayout(elem: Option<Layout>, n: nat): Option<Layout>
    requires elem.Some? ==> ValidLayout(elem.value)
    requires n <= USIZE_MAX
  {
    match elem
    case None => None
    case Some(e) =>
      match PadToAlign(e)
      case None => None
      case Some(padded) =>
        match CheckedMul(padded.size, n)
        case None => None
        case Some(total) =>
          NewLayout(total, padded.align)
  }

  lemma TotalLayout(stride: nat, align: nat, n: nat)
    requires ValidLayout(Layout(stride, align)) && Aligned(stride, align)
    requires stride * n <= USIZE_MAX
    ensures NewLayout(stride * n, align) ==
            if n > 0 && stride * n <= ISIZE_MAX then Some(Layout(stride * n, align)) else None
  {
    var total := stride * n;
    NewLayoutExact(total, align);
    AlignedScaled(stride, align, n);
    RoundUpOfMultiple(total, align);
    if n > 0 { MulMonotone(stride, 1, n); }
  }

  /** An array layout exists exactly when it is not empty and `n` padded strides fit
      `isize::MAX`; it then reserves precisely those `n` strides. */
  lemma ArrayLayoutExact(e: Layout, n: nat)
    requires ValidLayout(e) && n <= USIZE_MAX
    ensures var stride := RoundUp(e.size, e.align);
            ArrayLayout(Some(e), n) ==
            if n > 0 && stride * n <= ISIZE_MAX then Some(Layout(stride * n, e.align)) else None
  {
    PadToAlignExact(e);
    var stride := PadToAlign(e).value.size;
    assert stride == RoundUp(e.size, e.align);
    assert Aligned(stride, e.align) by { RoundUpBounds(e.size, e.align); }
    if stride * n <= USIZE_MAX {
      TotalLayout(stride, e.align, n);
    }
  }
}
