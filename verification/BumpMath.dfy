/** The placement arithmetic shared by `BumpArena::allocate`, `BumpArena::alloc_uninit`,
    `SharedBumpArena::allocate` and `MmapBacked::allocate`. */
module BumpMath {
  import opened Words
  import opened Layouts

  /** Where a block goes: its offset from the base of the region and the cursor after it. */
  datatype Placement = Placement(off: nat, end: nat)

  /** Checked adds, mask, subtract, bounds check: `None` is the source's `AllocError`. */
  function Place(base: nat, cur: nat, capacity: nat, l: Layout): (r: Option<Placement>)
    requires base <= USIZE_MAX && cur <= USIZE_MAX && ValidLayout(l)
    ensures r.Some? ==> cur <= r.value.off && r.value.off + l.size == r.value.end <= capacity
  {
    match CheckedAdd(base, cur)
    case None => None
    case Some(raw) =>
      match CheckedRoundUp(raw, l.align)
      case None => None
      case Some(aligned) =>
        CheckedRoundUpExact(raw, l.align);
        RoundUpBounds(raw, l.align);
        var off: nat := aligned - base;
        match CheckedAdd(off, l.size)
        case None => None
        case Some(end) => if end > capacity then None else Some(Placement(off, end))
  }

  /** The machine code against arithmetic over the integers: with `up` the least multiple
      of the alignment at or above `base + cur`, the block is placed at `up` unless `up`
      is not a word or the block would end past the region. */
  lemma PlaceExact(base: nat, cur: nat, capacity: nat, l: Layout)
    requires base <= USIZE_MAX && cur <= USIZE_MAX && capacity <= USIZE_MAX && ValidLayout(l)
    ensures var up := RoundUp(base + cur, l.align);
            Place(base, cur, capacity, l) ==
            if up > USIZE_MAX || up + l.size > base + capacity then None
            else Some(Placement(up - base, up - base + l.size))
  {
    hide BitAnd, RoundUp;
    RoundUpBounds(base + cur, l.align);
    if base + cur <= USIZE_MAX {
      CheckedRoundUpExact(base + cur, l.align);
    }
  }

  /** On a region that does not wrap (one may even end at the very top of the address
      space) no request is turned down for overflow alone: it fails exactly when the
      block does not fit. */
  lemma NoSpuriousOverflow(base: nat, cur: nat, capacity: nat, l: Layout)
    requires base <= USIZE_MAX && cur <= USIZE_MAX && capacity <= USIZE_MAX && ValidLayout(l)
    requires base + capacity <= USIZE_MAX + 1
    ensures Place(base, cur, capacity, l) == None <==>
            RoundUp(base + cur, l.align) + l.size > base + capacity
  {
    hide BitAnd, RoundUp;
    PlaceExact(base, cur, capacity, l);
  }

  /** Some cursor turns down a request that would fit over the integers if and only if the
      region wraps past the top of the address space. */
  lemma SpuriousOverflowIffWrapping(base: nat, capacity: nat)
    requires base <= USIZE_MAX && 0 < capacity <= USIZE_MAX
    ensures base + capacity > USIZE_MAX + 1 <==>
            exists cur: nat, l ::
              && cur <= capacity && ValidLayout(l)
              && Place(base, cur, capacity, l) == None
              && RoundUp(base + cur, l.align) + l.size <= base + capacity
  {
    if base + capacity > USIZE_MAX + 1 {
      var cur := USIZE_MAX + 1 - base;
      var l := Layout(1, 1);
      PlaceExact(base, cur, capacity, l);
      RoundUpBounds(base + cur, 1);
    } else {
      forall cur: nat, l | cur <= capacity && ValidLayout(l)
        ensures Place(base, cur, capacity, l) == None ==>
                RoundUp(base + cur, l.align) + l.size > base + capacity
      {
        NoSpuriousOverflow(base, cur, capacity, l);
      }
    }
  }

  /** What a successful placement gives the caller. */
  lemma PlaceIsSound(base: nat, cur: nat, capacity: nat, l: Layout)
    requires base <= USIZE_MAX && cur <= USIZE_MAX && capacity <= USIZE_MAX && ValidLayout(l)
    requires Place(base, cur, capacity, l).Some?
    ensures var p := Place(base, cur, capacity, l).value;
            && Aligned(base + p.off, l.align)
            && cur <= p.off < p.end <= capacity
            && p.end == p.off + l.size
            && base + p.off <= USIZE_MAX
  {
    hide BitAnd, RoundUp;
    PlaceExact(base, cur, capacity, l);
    RoundUpBounds(base + cur, l.align);
  }

  /** Once a request fails it keeps failing: the cursor only grows. */
  lemma PlaceMonotone(base: nat, cur: nat, later: nat, capacity: nat, l: Layout)
    requires base <= USIZE_MAX && cur <= later <= USIZE_MAX && capacity <= USIZE_MAX && ValidLayout(l)
    requires Place(base, cur, capacity, l) == None
    ensures Place(base, later, capacity, l) == None
  {
    hide BitAnd, RoundUp;
    PlaceExact(base, cur, capacity, l);
    PlaceExact(base, later, capacity, l);
    RoundUpMonotone(base + cur, base + later, l.align);
  }
}
