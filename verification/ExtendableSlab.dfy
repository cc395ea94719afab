/** `ExtendableSlab`: building a segment, what each critical section does to the shared
    segment list, and the object with its scanning loops. */
module ExtendableSlabs {
  import opened Words
  import opened Layouts
  import opened BumpMath
  import opened Mmap
  import opened Slabs
  import opened Sums

  // ------------------------------------------------------------ building a segment

  datatype Shape = Shape(stride: nat, slotAlign: nat, capacity: nat)

  /** A planned segment: the shape of its slots, the layout the slab will carve from its
      mapping, and the length of that mapping. */
  datatype Plan = Plan(shape: Shape, slots: Layout, mapped: nat)

  /** The arithmetic of `build_segment` and `Slab::with_protection` for a type of the given
      size and alignment; `None` is the source's `AllocError`. */
  function BuildPlan(size: usize, align: usize, capacity: usize, page: usize): Option<Plan>
    requires IsPow2(align) && align <= ISIZE_MAX + 1 && IsPow2(page)
  {
    var slotAlign := Max(align, 4);
    match CheckedRoundUp(Max(size, 8), slotAlign)
    case None => None
    case Some(stride) =>
      match CheckedMul(stride, capacity)
      case None => None
      case Some(total) =>
        match CheckedAdd(total, slotAlign - 1)
        case None => None
        case Some(withSlack) =>
          match MapLength(withSlack, page)
          case None => None
          case Some(mapped) =>
            if size == 0 || capacity == 0 || capacity > 0xFFFF_FFFF then None
            else
              match NewLayout(total, slotAlign)
              case None => None
              case Some(slots) => Some(Plan(Shape(stride, slotAlign, capacity), slots, mapped))
  }

  lemma SlotAlignIsPow2(align: nat)
    requires IsPow2(align)
    ensures IsPow2(Max(align, 4))
  {
    assert IsPow2(4);
  }

  /** The least stride that holds a free link and the type, in units of the slot
      alignment. */
  function ShapeOf(size: nat, align: nat, capacity: nat): Shape {
    Shape(RoundUp(Max(size, 8), Max(align, 4)), Max(align, 4), capacity)
  }

  /** The plan's shape: the least stride that holds a free link and the type, in units of
      the slot alignment, and a layout of exactly `capacity` strides. */
  lemma BuildPlanShape(size: usize, align: usize, capacity: usize, page: usize)
    requires IsPow2(align) && align <= ISIZE_MAX + 1 && IsPow2(page)
    requires BuildPlan(size, align, capacity, page).Some?
    ensures var plan := BuildPlan(size, align, capacity, page).value;
            && ValidLayout(plan.slots)
            && plan.shape == ShapeOf(size, align, capacity)
            && plan.slots == Layout(plan.shape.stride * capacity, plan.shape.slotAlign)
            && plan.shape.capacity > 0 && plan.shape.stride >= Max(size, 8)
            && plan.shape.slotAlign > 0 && Aligned(plan.shape.stride, plan.shape.slotAlign)
            && plan.slots.size + plan.shape.slotAlign - 1 <= plan.mapped <= USIZE_MAX
            && plan.mapped == RoundUp(plan.slots.size + plan.shape.slotAlign - 1, page)
  {
    hide BitAnd, RoundUp, Aligned, IsPow2, MapLength;
    var slotAlign := Max(align, 4);
    SlotAlignIsPow2(align);
    CheckedRoundUpExact(Max(size, 8), slotAlign);
    RoundUpBounds(Max(size, 8), slotAlign);
    var stride := RoundUp(Max(size, 8), slotAlign);
    var total := stride * capacity;
    MapLengthExact(total + slotAlign - 1, page);
    NewLayoutExact(total, slotAlign);
  }

  /** Exactly when a segment can be built: a real type, a slot count that is a `u32`, slots
      that make a layout, and a page-rounded mapping that is a word. */
  lemma BuildPlanExact(size: usize, align: usize, capacity: usize, page: usize)
    requires IsPow2(align) && align <= ISIZE_MAX + 1 && IsPow2(page)
    ensures var slotAlign := Max(align, 4);
            var total := RoundUp(Max(size, 8), slotAlign) * capacity;
            BuildPlan(size, align, capacity, page).Some? <==>
            && 0 < size && 0 < capacity <= 0xFFFF_FFFF
            && RoundUp(total, slotAlign) <= ISIZE_MAX && RoundUp(total + slotAlign - 1, page) <= USIZE_MAX
  {
    hide BitAnd, RoundUp, IsPow2, MapLength, NewLayout, CheckedRoundUp;
    var slotAlign := Max(align, 4);
    SlotAlignIsPow2(align);
    CheckedRoundUpExact(Max(size, 8), slotAlign);
    RoundUpBounds(Max(size, 8), slotAlign);
    var stride := RoundUp(Max(size, 8), slotAlign);
    var total := stride * capacity;
    if capacity > 0 { MulMonotone(stride, 1, capacity); }
    PagePositive(page);
    RoundUpBounds(total, slotAlign);
    RoundUpBounds(total + slotAlign - 1, page);
    if stride <= USIZE_MAX && total <= USIZE_MAX {
      NewLayoutExact(total, slotAlign);
      if total + slotAlign - 1 <= USIZE_MAX { MapLengthExact(total + slotAlign - 1, page); }
    }
  }

  lemma PagePositive(page: nat)
    requires IsPow2(page)
    ensures page > 0
  {
  }

  /** The slack is enough: wherever the OS puts the mapping, aligned to the slots or not,
      the slab's own request fits inside it. */
  lemma BuildPlanFits(size: usize, align: usize, capacity: usize, page: usize, base: usize)
    requires IsPow2(align) && align <= ISIZE_MAX + 1 && IsPow2(page)
    requires BuildPlan(size, align, capacity, page).Some?
    requires base + BuildPlan(size, align, capacity, page).value.mapped <= USIZE_MAX + 1
    ensures BuildPlan(size, align, capacity, page).value.mapped <= USIZE_MAX
    ensures var plan := BuildPlan(size, align, capacity, page).value;
            && ValidLayout(plan.slots)
            && Place(base, 0, plan.mapped, plan.slots).Some?
  {
    hide BitAnd, RoundUp, Aligned, IsPow2, BuildPlan, Place;
    var plan := BuildPlan(size, align, capacity, page).value;
    BuildPlanShape(size, align, capacity, page);
    NoSpuriousOverflow(base, 0, plan.mapped, plan.slots);
    RoundUpBounds(base, plan.slots.align);
  }

  // ------------------------------------------------------------ critical sections

  datatype Shared = Shared(segments: seq<Slab>, hint: nat, routingFailures: usize)

  /** The first segment of `[lo, hi)` that can serve the request. */
  function FirstOpen(segs: seq<Slab>, lo: nat, hi: nat, l: Layout): (r: Option<nat>)
    requires lo <= hi <= |segs|
    ensures r.Some? ==> lo <= r.value < hi && TakeSlot(segs[r.value], l).Some?
    ensures forall j :: lo <= j < (if r.Some? then r.value else hi) ==> TakeSlot(segs[j], l) == None
    decreases hi - lo
  {
    if lo == hi then None
    else if TakeSlot(segs[lo], l).Some? then Some(lo)
    else FirstOpen(segs, lo + 1, hi, l)
  }

  datatype Served = Served(seg: nat, slot: nat)

  datatype Section = Section(after: Shared, served: Option<Served>)

  function ServeFrom(s: Shared, i: nat, l: Layout, hint: nat): Section
    requires i < |s.segments| && TakeSlot(s.segments[i], l).Some?
  {
    var r := TakeSlot(s.segments[i], l).value;
    Section(s.(segments := s.segments[i := r.after], hint := hint), Some(Served(i, r.slot)))
  }

  /** Phase 1 of `allocate`: from the hinted segment to the end, then from the start. Not
      served means the caller must grow. */
  function Phase1(s: Shared, l: Layout): Section {
    var n := |s.segments|;
    var start := Min(s.hint, n);
    match FirstOpen(s.segments, start, n, l)
    case Some(i) => ServeFrom(s, i, l, if i > start then Max(s.hint, i) else s.hint)
    case None =>
      match FirstOpen(s.segments, 0, start, l)
      case Some(i) => ServeFrom(s, i, l, Min(s.hint, i))
      case None => Section(s, None)
  }

  /** Phase 3 of `allocate`: try the segments installed by others since `lenBefore`, else
      install the new one. `None` served is an error with the new segment dropped. */
  function Phase3(s: Shared, lenBefore: nat, newSeg: Slab, l: Layout): Section
    requires lenBefore <= |s.segments|
  {
    match FirstOpen(s.segments, lenBefore, |s.segments|, l)
    case Some(i) => ServeFrom(s, i, l, Max(s.hint, i))
    case None =>
      match TakeSlot(newSeg, l)
      case None => Section(s, None)
      case Some(r) =>
        Section(s.(segments := s.segments + [r.after], hint := |s.segments|), Some(Served(|s.segments|, r.slot)))
  }

  predicate InRange(seg: Slab, p: usize)
    requires seg.stride * seg.capacity <= USIZE_MAX
  {
    Contains(seg.base, seg.stride * seg.capacity, p)
  }

  /** The first segment whose range contains the pointer. */
  function Route(segs: seq<Slab>, p: usize, from: nat): (r: Option<nat>)
    requires from <= |segs|
    requires forall i :: 0 <= i < |segs| ==> segs[i].stride * segs[i].capacity <= USIZE_MAX
    ensures r.Some? ==> from <= r.value < |segs| && InRange(segs[r.value], p)
    ensures forall j :: from <= j < (if r.Some? then r.value else |segs|) ==> !InRange(segs[j], p)
    decreases |segs| - from
  {
    if from == |segs| then None
    else if InRange(segs[from], p) then Some(from)
    else Route(segs, p, from + 1)
  }

  /** `deallocate`: route by address, free, pull the hint back; a pointer in no segment is
      counted and otherwise ignored. */
  function Release(s: Shared, p: usize): Shared
    requires forall i :: 0 <= i < |s.segments| ==>
               s.segments[i].stride > 0 && s.segments[i].stride * s.segments[i].capacity <= USIZE_MAX
  {
    match Route(s.segments, p, 0)
    case Some(i) =>
      s.(segments := s.segments[i := PutSlot(s.segments[i], p)], hint := Min(s.hint, i))
    case None => s.(routingFailures := (s.routingFailures + 1) % (USIZE_MAX + 1))
  }

  /** The object. Each method is one critical section, with the source's loops. */
  class ExtendableSlab {
    const shape: Shape
    var segments: seq<Slab>
    var firstOpenHint: nat
    var routingFailures: usize

    ghost function State(): Shared
      reads this
    {
      Shared(segments, firstOpenHint, routingFailures)
    }

    constructor (shape: Shape)
      ensures this.shape == shape && State() == Shared([], 0, 0)
    {
      this.shape := shape;
      segments, firstOpenHint, routingFailures := [], 0, 0;
    }

    /** Returns the block, or the segment count at which the lock was dropped. */
    method TryExisting(l: Layout) returns (served: Option<Served>, lenBefore: nat)
      modifies this
      ensures var r := Phase1(old(State()), l);
              State() == r.after && served == r.served && lenBefore == |old(segments)|
    {
      lenBefore := |segments|;
      var start := Min(firstOpenHint, |segments|);
      var i := start;
      while i < |segments|
        invariant start <= i <= |segments| && State() == old(State())
        invariant FirstOpen(segments, start, |segments|, l) == FirstOpen(segments, i, |segments|, l)
      {
        var r := TakeSlot(segments[i], l);
        if r.Some? {
          segments := segments[i := r.value.after];
          if i > start {
            firstOpenHint := Max(firstOpenHint, i);
          }
          return Some(Served(i, r.value.slot)), lenBefore;
        }
        i := i + 1;
      }
      i := 0;
      while i < start
        invariant i <= start && State() == old(State())
        invariant FirstOpen(segments, 0, start, l) == FirstOpen(segments, i, start, l)
      {
        var r := TakeSlot(segments[i], l);
        if r.Some? {
          segments := segments[i := r.value.after];
          firstOpenHint := Min(firstOpenHint, i);
          return Some(Served(i, r.value.slot)), lenBefore;
        }
        i := i + 1;
      }
      return None, lenBefore;
    }

    method InstallOrUse(lenBefore: nat, newSeg: Slab, l: Layout) returns (served: Option<Served>)
      requires lenBefore <= |segments|
      modifies this
      ensures var r := Phase3(old(State()), lenBefore, newSeg, l);
              State() == r.after && served == r.served
    {
      if |segments| > lenBefore {
        var i := lenBefore;
        while i < |segments|
          invariant lenBefore <= i <= |segments| && State() == old(State())
          invariant FirstOpen(segments, lenBefore, |segments|, l) == FirstOpen(segments, i, |segments|, l)
        {
          var r := TakeSlot(segments[i], l);
          if r.Some? {
            segments := segments[i := r.value.after];
            firstOpenHint := Max(firstOpenHint, i);
            return Some(Served(i, r.value.slot));
          }
          i := i + 1;
        }
      }
      var r := TakeSlot(newSeg, l);
      if r == None {
        return None;
      }
      var newIdx := |segments|;
      segments := segments + [r.value.after];
      firstOpenHint := newIdx;
      return Some(Served(newIdx, r.value.slot));
    }

    method Deallocate(p: usize)
      requires forall i :: 0 <= i < |segments| ==>
                 segments[i].stride > 0 && segments[i].stride * segments[i].capacity <= USIZE_MAX
      modifies this
      ensures State() == Release(old(State()), p)
    {
      var i := 0;
      while i < |segments|
        invariant i <= |segments| && State() == old(State())
        invariant Route(segments, p, 0) == Route(segments, p, i)
      {
        if InRange(segments[i], p) {
          segments := segments[i := PutSlot(segments[i], p)];
          firstOpenHint := Min(firstOpenHint, i);
          return;
        }
        i := i + 1;
      }
      routingFailures := (routingFailures + 1) % (USIZE_MAX + 1);
    }

    /** `capacity_bytes`. */
    method CapacityBytes() returns (total: nat)
      ensures total == Sum(segments, Bytes)
    {
      total := 0;
      for i := 0 to |segments|
        invariant total == Sum(segments[..i], Bytes)
      {
        assert segments[..i + 1] == segments[..i] + [segments[i]];
        SumAppend(segments[..i], Bytes, segments[i]);
        total := total + segments[i].stride * segments[i].capacity;
      }
      assert segments[..|segments|] == segments;
    }
  }

  function Bytes(seg: Slab): nat { seg.stride * seg.capacity }

  // ------------------------------------------------------------ phase 1, whatever the hint

  /** Phase 1 falls through to growth exactly when no segment can serve the request, and
      otherwise takes a slot of one that can; the value of the hint does not matter. */
  lemma Phase1Exact(sh: Shared, l: Layout)
    ensures Phase1(sh, l).served == None <==> forall i :: 0 <= i < |sh.segments| ==> TakeSlot(sh.segments[i], l) == None
    ensures Phase1(sh, l).served == None ==> Phase1(sh, l).after == sh
    ensures var r := Phase1(sh, l);
            r.served.Some? ==>
              var i := r.served.value.seg;
              && i < |sh.segments| && TakeSlot(sh.segments[i], l).Some?
              && r == ServeFrom(sh, i, l, r.after.hint)
    ensures sh.hint < Max(1, |sh.segments|) ==> Phase1(sh, l).after.hint < Max(1, |sh.segments|)
  {
  }

  /** After phase 1 has served, the hint is the segment it served from. */
  lemma Phase1MovesHint(sh: Shared, l: Layout)
    requires sh.hint < Max(1, |sh.segments|) && Phase1(sh, l).served.Some?
    ensures Phase1(sh, l).after.hint == Phase1(sh, l).served.value.seg
  {
  }

  /** Which segment phase 1 takes: the first at or past the hint that can serve, else the
      first of all. */
  lemma Phase1TakesFirst(sh: Shared, l: Layout)
    requires Phase1(sh, l).served.Some?
    ensures var i := Phase1(sh, l).served.value.seg;
            && i < |sh.segments| && TakeSlot(sh.segments[i], l).Some?
            && (i >= sh.hint ==> forall j :: sh.hint <= j < i ==> TakeSlot(sh.segments[j], l) == None)
            && (i < sh.hint ==>
                  forall j :: 0 <= j < |sh.segments| && (j < i || j >= sh.hint) ==> TakeSlot(sh.segments[j], l) == None)
  {
  }

  /** `deallocate`: a pointer inside some segment goes to the first one that contains it,
      whose slot at that address is freed, and the hint falls back to it; any other pointer
      only adds one to the wrapping failure count. */
  lemma ReleaseExact(sh: Shared, p: usize)
    requires forall i :: 0 <= i < |sh.segments| ==>
               sh.segments[i].stride > 0 && sh.segments[i].stride * sh.segments[i].capacity <= USIZE_MAX
    ensures var r := Release(sh, p);
            if exists i :: 0 <= i < |sh.segments| && InRange(sh.segments[i], p) then
              exists i :: 0 <= i < |sh.segments| && FreedIn(sh, r, p, i)
            else r.segments == sh.segments && r.hint == sh.hint
                 && r.routingFailures == if sh.routingFailures == USIZE_MAX then 0 else sh.routingFailures + 1
  {
    var i := Route(sh.segments, p, 0);
    if i.Some? { assert FreedIn(sh, Release(sh, p), p, i.value); }
  }

  ghost predicate FreedIn(sh: Shared, r: Shared, p: usize, i: nat)
    requires forall i :: 0 <= i < |sh.segments| ==>
               sh.segments[i].stride > 0 && sh.segments[i].stride * sh.segments[i].capacity <= USIZE_MAX
  {
    && i < |sh.segments| == |r.segments|
    && InRange(sh.segments[i], p) && (forall j :: 0 <= j < i ==> !InRange(sh.segments[j], p))
    && r.segments[i] == PutSlot(sh.segments[i], p)
    && (forall j :: 0 <= j < |sh.segments| && j != i ==> r.segments[j] == sh.segments[j])
    && r.hint == Min(sh.hint, i) && r.routingFailures == sh.routingFailures
  }

  /** In terms of slots: growth is asked for exactly when the layout does not fit the
      slots or every slot of every segment is live. */
  lemma Phase1GrowsIffFull(sh: Shared, l: Layout)
    requires forall i :: 0 <= i < |sh.segments| ==> WellFormed(sh.segments[i])
    ensures Phase1(sh, l).served == None <==>
            forall i :: 0 <= i < |sh.segments| ==>
              !Fits(sh.segments[i], l) || LiveCount(sh.segments[i]) == sh.segments[i].capacity
  {
    Phase1Exact(sh, l);
    forall i | 0 <= i < |sh.segments|
      ensures TakeSlot(sh.segments[i], l) == None <==>
              !Fits(sh.segments[i], l) || LiveCount(sh.segments[i]) == sh.segments[i].capacity
    {
      TakeSlotExact(sh.segments[i], l);
    }
  }
}
