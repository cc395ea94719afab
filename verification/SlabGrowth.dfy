/** The three-phase growth protocol of `ExtendableSlab` over any number of threads. A
    critical section is one step: the mutex serializes them, and nothing outside them
    touches the list, the hint or a segment. Building a segment happens between two
    critical sections, with the lock dropped. */
module SlabGrowth {
  import opened Words
  import opened Layouts
  import opened BumpMath
  import opened Slabs
  import opened Sums
  import opened ExtendableSlabs
  import Mmap

  // ------------------------------------------------------------ steps

  type Tid = nat

  datatype Params = Params(size: usize, align: usize, capacity: usize, page: usize)

  type SlabParams = p: Params | IsPow2(p.align) && p.align <= ISIZE_MAX + 1 && IsPow2(p.page)
    witness Params(1, 1, 1, 1)

  function PlanOf(p: SlabParams): Option<Plan> { BuildPlan(p.size, p.align, p.capacity, p.page) }

  /** `build_segment` once the OS has put the mapping at `base`. */
  function NewSegment(p: SlabParams, base: usize): Option<Slab> {
    match PlanOf(p)
    case None => None
    case Some(plan) =>
      BuildPlanShape(p.size, p.align, p.capacity, p.page);
      match Place(base, 0, plan.mapped, plan.slots)
      case None => None
      case Some(at) =>
        if base + at.off > USIZE_MAX then None
        else Some(Slab(base + at.off, plan.shape.stride, plan.shape.slotAlign, plan.shape.capacity, [], 0))
  }

  /** A thread in `allocate`: `lenBefore` is its local snapshot, `freesBefore` the history
      count at the same moment. */
  datatype Pc =
    | Idle
    | Growing(l: NonZeroLayout, lenBefore: nat, freesBefore: nat)
    | Built(l: NonZeroLayout, lenBefore: nat, freesBefore: nat, seg: Slab)

  /** `blocks` is what clients hold: the segment and slot that issued each live pointer;
      `frees` counts completed frees; `initial` the segments the slab started with. */
  datatype State = State(params: SlabParams, initial: nat, sh: Shared, threads: map<Tid, Pc>,
                         blocks: map<nat, Served>, frees: nat)

  datatype Step =
    | Allocate(t: Tid, l: NonZeroLayout)
    | BuildFails(t: Tid)
    | Build(t: Tid, base: usize)
    | Install(t: Tid)
    | Free(p: usize)

  function PcOf(s: State, t: Tid): Pc {
    if t in s.threads then s.threads[t] else Idle
  }

  predicate Apart(a: Slab, b: Slab) { a.base + Bytes(a) <= b.base || b.base + Bytes(b) <= a.base }

  /** The OS's promise: a new mapping overlaps nothing that is mapped. */
  predicate ClearOf(base: usize, len: nat, seg: Slab) {
    seg.base + Bytes(seg) <= base || base + len <= seg.base
  }

  predicate Routable(segs: seq<Slab>) {
    forall i :: 0 <= i < |segs| ==> segs[i].stride > 0 && Bytes(segs[i]) <= USIZE_MAX
  }

  predicate Enabled(s: State, step: Step) {
    match step
    case Allocate(t, _) => PcOf(s, t).Idle?
    case BuildFails(t) => PcOf(s, t).Growing?
    case Build(t, base) =>
      && PcOf(s, t).Growing? && PlanOf(s.params).Some?
      && base + PlanOf(s.params).value.mapped <= USIZE_MAX + 1
      && (forall i :: 0 <= i < |s.sh.segments| ==> ClearOf(base, PlanOf(s.params).value.mapped, s.sh.segments[i]))
      && (forall u :: u in s.threads && s.threads[u].Built? ==>
            ClearOf(base, PlanOf(s.params).value.mapped, s.threads[u].seg))
    case Install(t) => PcOf(s, t).Built? && PcOf(s, t).lenBefore <= |s.sh.segments|
    case Free(p) => p in s.blocks && Routable(s.sh.segments)
  }

  function Goto(s: State, t: Tid, pc: Pc): State { s.(threads := s.threads[t := pc]) }

  /** The critical section's outcome, with the block it issued now the client's. */
  function Commit(s: State, t: Tid, r: Section): State
    requires r.served.Some? ==> r.served.value.seg < |r.after.segments|
  {
    match r.served
    case None => Goto(s, t, Idle).(sh := r.after)
    case Some(b) =>
      Goto(s, t, Idle).(sh := r.after, blocks := s.blocks[SlotPtr(r.after.segments[b.seg], b.slot) := b])
  }

  function Next(s: State, step: Step): State
    requires Enabled(s, step)
  {
    match step
    case Allocate(t, l) =>
      var r := Phase1(s.sh, l);
      if r.served == None then Goto(s, t, Growing(l, |s.sh.segments|, s.frees)) else Commit(s, t, r)
    case BuildFails(t) => Goto(s, t, Idle)
    case Build(t, base) =>
      var pc := PcOf(s, t);
      (match NewSegment(s.params, base)
       case None => Goto(s, t, Idle)
       case Some(seg) => Goto(s, t, Built(pc.l, pc.lenBefore, pc.freesBefore, seg)))
    case Install(t) =>
      var pc := PcOf(s, t);
      Commit(s, t, Phase3(s.sh, pc.lenBefore, pc.seg, pc.l))
    case Free(p) =>
      s.(sh := Release(s.sh, p), blocks := s.blocks - {p}, frees := s.frees + 1)
  }

  // ------------------------------------------------------------ what every run keeps

  ghost predicate SegOk(p: SlabParams, seg: Slab) {
    && WellFormed(seg) && Bytes(seg) <= USIZE_MAX
    && Shape(seg.stride, seg.slotAlign, seg.capacity) == ShapeOf(p.size, p.align, p.capacity)
    && seg.slotAlign > 0 && Aligned(seg.base, seg.slotAlign) && Aligned(seg.stride, seg.slotAlign)
  }

  predicate Untouched(seg: Slab) { seg.freeList == [] && seg.nextUncarved == 0 }

  ghost predicate SegmentsInv(s: State) {
    && (forall i :: 0 <= i < |s.sh.segments| ==> SegOk(s.params, s.sh.segments[i]))
    && (forall i, j :: 0 <= i < j < |s.sh.segments| ==> Apart(s.sh.segments[i], s.sh.segments[j]))
    && s.sh.hint < Max(1, |s.sh.segments|)
  }

  /** A segment still private to a thread has never issued a slot and overlaps neither an
      installed segment nor another private one. */
  ghost predicate PrivateInv(s: State) {
    && (forall t :: t in s.threads && s.threads[t].Built? ==>
          && SegOk(s.params, s.threads[t].seg) && Untouched(s.threads[t].seg)
          && forall i :: 0 <= i < |s.sh.segments| ==> Apart(s.sh.segments[i], s.threads[t].seg))
    && (forall t, u :: t in s.threads && u in s.threads && t != u && s.threads[t].Built? && s.threads[u].Built? ==>
          Apart(s.threads[t].seg, s.threads[u].seg))
  }

  ghost predicate Holds(s: State, p: nat, b: Served) {
    && b.seg < |s.sh.segments| && Live(s.sh.segments[b.seg], b.slot)
    && p == SlotPtr(s.sh.segments[b.seg], b.slot)
  }

  ghost predicate AllHeld(s: State) {
    forall p :: p in s.blocks ==> Holds(s, p, s.blocks[p])
  }

  ghost predicate AllKnown(s: State) {
    forall i, k: nat :: 0 <= i < |s.sh.segments| && Live(s.sh.segments[i], k) ==>
      SlotPtr(s.sh.segments[i], k) in s.blocks
  }

  /** The pointers clients hold are exactly the live slots. */
  ghost predicate BlocksInv(s: State) {
    AllHeld(s) && AllKnown(s) && |s.blocks| == Sum(s.sh.segments, LiveCount)
  }

  ghost predicate FitsSlots(p: SlabParams, l: Layout) {
    l.align <= Max(p.align, 4) && l.size <= ShapeOf(p.size, p.align, p.capacity).stride
  }

  /** What a thread that saw every segment full is still owed: any slot missing from the
      segments it saw has been freed since. */
  ghost predicate Owed(s: State, pc: Pc) {
    !pc.Idle? ==>
      && pc.lenBefore <= |s.sh.segments| && pc.freesBefore <= s.frees
      && (FitsSlots(s.params, pc.l) ==>
            pc.lenBefore * s.params.capacity <=
            Sum(s.sh.segments[..pc.lenBefore], LiveCount) + (s.frees - pc.freesBefore))
  }

  ghost predicate OwedInv(s: State) { forall t :: t in s.threads ==> Owed(s, s.threads[t]) }

  ghost predicate Inv(s: State) { SegmentsInv(s) && PrivateInv(s) && BlocksInv(s) && OwedInv(s) }

  ghost predicate Init(s: State) {
    && |s.sh.segments| == s.initial && s.sh.hint == 0 && s.threads == map[] && s.blocks == map[] && s.frees == 0
    && (forall i :: 0 <= i < s.initial ==> SegOk(s.params, s.sh.segments[i]) && Untouched(s.sh.segments[i]))
    && (forall i, j :: 0 <= i < j < s.initial ==> Apart(s.sh.segments[i], s.sh.segments[j]))
  }

  lemma InitInv(s: State)
    requires Init(s)
    ensures Inv(s)
  {
    NoneLive(s.sh.segments);
  }

  lemma {:induction false} NoneLive(segs: seq<Slab>)
    requires forall i :: 0 <= i < |segs| ==> Untouched(segs[i])
    ensures Sum(segs, LiveCount) == 0
  {
    if segs != [] { NoneLive(segs[..|segs| - 1]); }
  }

  lemma {:induction false} FullSum(segs: seq<Slab>, capacity: nat)
    requires forall i :: 0 <= i < |segs| ==> LiveCount(segs[i]) <= capacity
    ensures Sum(segs, LiveCount) <= |segs| * capacity
    ensures Sum(segs, LiveCount) == |segs| * capacity <==>
            forall i :: 0 <= i < |segs| ==> LiveCount(segs[i]) == capacity
  {
    if segs != [] {
      var n := |segs| - 1;
      FullSum(segs[..n], capacity);
      assert |segs| * capacity == n * capacity + capacity;
      assert forall i :: 0 <= i < n ==> segs[..n][i] == segs[i];
    }
  }

  lemma PrefixUpdate(segs: seq<Slab>, i: nat, x: Slab, n: nat)
    requires i < |segs| && n <= |segs|
    ensures Sum(segs[i := x][..n], LiveCount) ==
            Sum(segs[..n], LiveCount) + (if i < n then LiveCount(x) - LiveCount(segs[i]) else 0)
  {
    if i < n {
      assert segs[i := x][..n] == segs[..n][i := x];
      SumUpdate(segs[..n], LiveCount, i, x);
    } else {
      assert segs[i := x][..n] == segs[..n];
    }
  }

  /** Distinct slots of the installed segments have distinct, indeed disjoint, bytes. */
  lemma SlotsApart(s: State, i: nat, j: nat, a: nat, b: nat)
    requires SegmentsInv(s) && i < |s.sh.segments| && j < |s.sh.segments|
    requires a < s.sh.segments[i].capacity && b < s.sh.segments[j].capacity
    requires i != j || a != b
    ensures var p, q := SlotPtr(s.sh.segments[i], a), SlotPtr(s.sh.segments[j], b);
            p + s.sh.segments[i].stride <= q || q + s.sh.segments[j].stride <= p
  {
    hide ShapeOf, RoundUp, Aligned;
    if i == j {
      SlotsDisjoint(s.sh.segments[i], Min(a, b), Max(a, b));
    } else {
      SlotInRange(s.sh.segments[i], a);
      SlotInRange(s.sh.segments[j], b);
      assert Apart(s.sh.segments[Min(i, j)], s.sh.segments[Max(i, j)]);
    }
  }

  /** Routing by address finds the segment a slot lies in, and no other. */
  lemma RouteExact(s: State, i: nat, a: nat)
    requires SegmentsInv(s) && i < |s.sh.segments| && a < s.sh.segments[i].capacity
    ensures SlotPtr(s.sh.segments[i], a) <= USIZE_MAX && Routable(s.sh.segments)
    ensures Route(s.sh.segments, SlotPtr(s.sh.segments[i], a), 0) == Some(i)
    ensures forall j :: 0 <= j < |s.sh.segments| ==>
              (InRange(s.sh.segments[j], SlotPtr(s.sh.segments[i], a)) <==> j == i)
  {
    hide ShapeOf, RoundUp, Aligned;
    var p := SlotPtr(s.sh.segments[i], a);
    SlotInRange(s.sh.segments[i], a);
    forall j | 0 <= j < |s.sh.segments|
      ensures InRange(s.sh.segments[j], p) <==> j == i
    {
      ContainsFlat(s.sh.segments[j].base, Bytes(s.sh.segments[j]), p);
      if j != i { assert Apart(s.sh.segments[Min(i, j)], s.sh.segments[Max(i, j)]); }
    }
  }

  // ------------------------------------------------------------ one slot changes

  /** Segment `i` gained or lost one slot; its range and shape are the same. */
  ghost predicate OneSlot(s: State, r: State, i: nat, slot: nat, gained: bool) {
    && i < |s.sh.segments| && |r.sh.segments| == |s.sh.segments|
    && r.params == s.params && r.sh.segments == s.sh.segments[i := r.sh.segments[i]]
    && r.sh.hint < Max(1, |r.sh.segments|)
    && var x, y := s.sh.segments[i], r.sh.segments[i];
       && WellFormed(y) && y == x.(freeList := y.freeList, nextUncarved := y.nextUncarved)
       && slot < x.capacity
       && (if gained then !Live(x, slot) && LiveCount(y) == LiveCount(x) + 1
           else Live(x, slot) && LiveCount(y) + 1 == LiveCount(x))
       && forall k: nat :: Live(y, k) <==> if k == slot then gained else Live(x, k)
  }

  lemma OneSlotSegments(s: State, r: State, i: nat, slot: nat, gained: bool)
    requires SegmentsInv(s) && OneSlot(s, r, i, slot, gained)
    ensures SegmentsInv(r)
    ensures forall j :: 0 <= j < |s.sh.segments| ==>
              r.sh.segments[j].base == s.sh.segments[j].base && Bytes(r.sh.segments[j]) == Bytes(s.sh.segments[j])
  {
    hide ShapeOf, RoundUp, Aligned, WellFormed, Live, LiveCount;
    assert SegOk(s.params, s.sh.segments[i]);
    var segs, segs' := s.sh.segments, r.sh.segments;
    forall j, k | 0 <= j < k < |segs'|
      ensures Apart(segs'[j], segs'[k])
    {
      assert Apart(segs[j], segs[k]);
    }
  }

  lemma SamePtr(s: State, i: nat, j: nat, a: nat, b: nat)
    requires SegmentsInv(s) && i < |s.sh.segments| && j < |s.sh.segments|
    requires a < s.sh.segments[i].capacity && b < s.sh.segments[j].capacity
    requires SlotPtr(s.sh.segments[i], a) == SlotPtr(s.sh.segments[j], b)
    ensures i == j && a == b
  {
    hide ShapeOf, RoundUp, Aligned, SlotPtr;
    if i != j || a != b { SlotsApart(s, i, j, a, b); }
  }

  /** The pointer a client holds determines the block. */
  lemma HeldPtr(s: State, q: nat, i: nat, a: nat)
    requires SegmentsInv(s) && BlocksInv(s) && q in s.blocks
    requires i < |s.sh.segments| && a < s.sh.segments[i].capacity && q == SlotPtr(s.sh.segments[i], a)
    ensures s.blocks[q] == Served(i, a) && Live(s.sh.segments[i], a)
  {
    hide ShapeOf, RoundUp, Aligned, SlotPtr, Sum;
    assert Holds(s, q, s.blocks[q]);
    SamePtr(s, i, s.blocks[q].seg, a, s.blocks[q].slot);
  }

  ghost predicate BlocksChange(s: State, r: State, i: nat, slot: nat, gained: bool) {
    && SegmentsInv(s) && BlocksInv(s) && OneSlot(s, r, i, slot, gained)
    && var p := SlotPtr(s.sh.segments[i], slot);
       r.blocks == if gained then s.blocks[p := Served(i, slot)] else s.blocks - {p}
  }

  lemma OneSlotHeld(s: State, r: State, i: nat, slot: nat, gained: bool)
    requires BlocksChange(s, r, i, slot, gained)
    ensures AllHeld(r)
  {
    hide ShapeOf, RoundUp, Aligned, LiveCount, Sum, SegmentsInv, AllKnown, WellFormed, Live;
    forall q | q in r.blocks
      ensures Holds(r, q, r.blocks[q])
    {
      if q in s.blocks { assert Holds(s, q, s.blocks[q]); }
    }
  }

  lemma OneSlotKnown(s: State, r: State, i: nat, slot: nat, gained: bool)
    requires BlocksChange(s, r, i, slot, gained)
    ensures AllKnown(r)
  {
    hide ShapeOf, RoundUp, Aligned, LiveCount, Sum, AllHeld, SlotPtr;
    var p := SlotPtr(s.sh.segments[i], slot);
    forall j, k: nat | 0 <= j < |r.sh.segments| && Live(r.sh.segments[j], k)
      ensures SlotPtr(r.sh.segments[j], k) in r.blocks
    {
      SamePlace(s, r, i, slot, gained, j, k);
      if j != i || k != slot {
        assert Live(s.sh.segments[j], k);
        if SlotPtr(s.sh.segments[j], k) == p { SamePtr(s, i, j, slot, k); }
      }
    }
  }

  lemma SamePlace(s: State, r: State, i: nat, slot: nat, gained: bool, j: nat, k: nat)
    requires OneSlot(s, r, i, slot, gained) && j < |s.sh.segments|
    ensures SlotPtr(r.sh.segments[j], k) == SlotPtr(s.sh.segments[j], k)
  {
  }

  lemma OneSlotBlocks(s: State, r: State, i: nat, slot: nat, gained: bool)
    requires BlocksChange(s, r, i, slot, gained)
    ensures BlocksInv(r)
    ensures (SlotPtr(s.sh.segments[i], slot) in s.blocks) == !gained
  {
    OneSlotHeld(s, r, i, slot, gained);
    OneSlotKnown(s, r, i, slot, gained);
    hide ShapeOf, RoundUp, Aligned, LiveCount, Sum, SlotPtr, AllHeld, WellFormed, Live;
    if SlotPtr(s.sh.segments[i], slot) in s.blocks { HeldPtr(s, SlotPtr(s.sh.segments[i], slot), i, slot); }
    SumUpdate(s.sh.segments, LiveCount, i, r.sh.segments[i]);
  }

  /** Every thread is where it was, or back outside `allocate`. */
  ghost predicate ThreadsReturn(s: State, r: State) {
    forall u :: u in r.threads ==> r.threads[u].Idle? || (u in s.threads && r.threads[u] == s.threads[u])
  }

  lemma OneSlotPrivate(s: State, r: State, i: nat, slot: nat, gained: bool)
    requires SegmentsInv(s) && PrivateInv(s) && OneSlot(s, r, i, slot, gained) && ThreadsReturn(s, r)
    ensures PrivateInv(r)
  {
    hide ShapeOf, RoundUp, Aligned, WellFormed, Live, LiveCount;
    OneSlotSegments(s, r, i, slot, gained);
    forall t, j | t in r.threads && r.threads[t].Built? && 0 <= j < |r.sh.segments|
      ensures Apart(r.sh.segments[j], r.threads[t].seg)
    {
      assert Apart(s.sh.segments[j], s.threads[t].seg);
    }
  }

  lemma OneSlotOwed(s: State, r: State, i: nat, slot: nat, gained: bool)
    requires OwedInv(s) && OneSlot(s, r, i, slot, gained) && ThreadsReturn(s, r)
    requires r.frees == s.frees + (if gained then 0 else 1)
    ensures OwedInv(r)
  {
    hide ShapeOf, RoundUp, Aligned, WellFormed, Live, LiveCount, Sum;
    forall u | u in r.threads && !r.threads[u].Idle?
      ensures Owed(r, r.threads[u])
    {
      assert Owed(s, s.threads[u]);
      PrefixUpdate(s.sh.segments, i, r.sh.segments[i], r.threads[u].lenBefore);
    }
  }

  lemma OneSlotKeepsInv(s: State, r: State, i: nat, slot: nat, gained: bool)
    requires Inv(s) && BlocksChange(s, r, i, slot, gained) && ThreadsReturn(s, r)
    requires r.frees == s.frees + (if gained then 0 else 1)
    ensures Inv(r)
    ensures |r.blocks| + (if gained then 0 else 1) == |s.blocks| + (if gained then 1 else 0)
  {
    OneSlotSegments(s, r, i, slot, gained);
    OneSlotBlocks(s, r, i, slot, gained);
    OneSlotPrivate(s, r, i, slot, gained);
    OneSlotOwed(s, r, i, slot, gained);
  }

  // ------------------------------------------------------------ the steps

  lemma ServeIsOneSlot(s: State, t: Tid, l: Layout, i: nat, hint: nat)
    requires SegmentsInv(s) && BlocksInv(s) && i < |s.sh.segments|
    requires TakeSlot(s.sh.segments[i], l).Some? && hint < Max(1, |s.sh.segments|)
    ensures var sec := ServeFrom(s.sh, i, l, hint);
            BlocksChange(s, Commit(s, t, sec), i, sec.served.value.slot, true)
  {
    hide ShapeOf, RoundUp, Aligned, Live, LiveCount, Sum, WellFormed, BlocksInv, TakeSlot;
    assert SegOk(s.params, s.sh.segments[i]);
    TakeSlotExact(s.sh.segments[i], l);
    TakeSlotKeepsRange(s.sh.segments[i], l);
  }

  lemma TakeSlotKeepsRange(x: Slab, l: Layout)
    requires TakeSlot(x, l).Some?
    ensures var y := TakeSlot(x, l).value.after; y == x.(freeList := y.freeList, nextUncarved := y.nextUncarved)
  {
  }

  /** Either critical section, when it serves from segment `i`. */
  lemma ServeKeepsInv(s: State, t: Tid, l: Layout, i: nat, hint: nat)
    requires Inv(s) && i < |s.sh.segments| && TakeSlot(s.sh.segments[i], l).Some? && hint < Max(1, |s.sh.segments|)
    ensures var sec := ServeFrom(s.sh, i, l, hint);
            && Inv(Commit(s, t, sec))
            && |Commit(s, t, sec).blocks| == |s.blocks| + 1
            && SlotPtr(s.sh.segments[i], sec.served.value.slot) !in s.blocks
  {
    hide SegmentsInv, PrivateInv, BlocksInv, OwedInv, OneSlot, TakeSlot;
    var sec := ServeFrom(s.sh, i, l, hint);
    var slot := sec.served.value.slot;
    ServeIsOneSlot(s, t, l, i, hint);
    OneSlotKeepsInv(s, Commit(s, t, sec), i, slot, true);
    OneSlotBlocks(s, Commit(s, t, sec), i, slot, true);
  }

  lemma RoutedRelease(sh: Shared, p: usize, i: nat)
    requires Routable(sh.segments) && Route(sh.segments, p, 0) == Some(i)
    ensures Release(sh, p) == sh.(segments := sh.segments[i := PutSlot(sh.segments[i], p)], hint := Min(sh.hint, i))
  {
  }

  lemma FreeIsOneSlot(s: State, p: usize)
    requires SegmentsInv(s) && BlocksInv(s) && p in s.blocks
    ensures Enabled(s, Free(p))
    ensures BlocksChange(s, Next(s, Free(p)), s.blocks[p].seg, s.blocks[p].slot, false)
    ensures Next(s, Free(p)).sh.routingFailures == s.sh.routingFailures
  {
    hide ShapeOf, RoundUp, Aligned, LiveCount, Sum, AllKnown, PutSlot, SlotPtr, Route, Release;
    var b := s.blocks[p];
    assert Holds(s, p, b);
    RouteExact(s, b.seg, b.slot);
    RoutedRelease(s.sh, p, b.seg);
    PutSlotExact(s.sh.segments[b.seg], b.slot);
  }

  lemma FreeKeepsInv(s: State, p: usize)
    requires Inv(s) && p in s.blocks
    ensures Enabled(s, Free(p)) && Inv(Next(s, Free(p)))
    ensures |Next(s, Free(p)).blocks| == |s.blocks| - 1
  {
    hide SegmentsInv, PrivateInv, BlocksInv, OwedInv, OneSlot, Route, PutSlot, Routable;
    FreeIsOneSlot(s, p);
    OneSlotKeepsInv(s, Next(s, Free(p)), s.blocks[p].seg, s.blocks[p].slot, false);
  }

  lemma CapacityBounds(s: State, i: nat)
    requires SegmentsInv(s) && i < |s.sh.segments|
    ensures LiveCount(s.sh.segments[i]) <= s.params.capacity == s.sh.segments[i].capacity
    ensures forall l :: Fits(s.sh.segments[i], l) <==> FitsSlots(s.params, l)
  {
    hide RoundUp, Aligned, LiveCount;
    assert SegOk(s.params, s.sh.segments[i]);
    LiveCountBounds(s.sh.segments[i]);
  }

  /** A segment turns a request down exactly when the type does not fit or it is full. */
  lemma NoSlotIffFull(s: State, i: nat, l: Layout)
    requires SegmentsInv(s) && i < |s.sh.segments|
    ensures TakeSlot(s.sh.segments[i], l) == None <==>
            !FitsSlots(s.params, l) || LiveCount(s.sh.segments[i]) == s.params.capacity
  {
    hide RoundUp, Aligned, LiveCount, TakeSlot;
    assert SegOk(s.params, s.sh.segments[i]);
    CapacityBounds(s, i);
    TakeSlotExact(s.sh.segments[i], l);
  }

  lemma FallThroughIsFull(s: State, l: NonZeroLayout)
    requires SegmentsInv(s) && Phase1(s.sh, l).served == None && FitsSlots(s.params, l)
    ensures Sum(s.sh.segments, LiveCount) == |s.sh.segments| * s.params.capacity
  {
    hide ShapeOf, RoundUp, Aligned, Sum, LiveCount, Phase1, TakeSlot, FitsSlots, SegmentsInv;
    Phase1Exact(s.sh, l);
    forall i | 0 <= i < |s.sh.segments|
      ensures LiveCount(s.sh.segments[i]) == s.params.capacity
    {
      NoSlotIffFull(s, i, l);
    }
    FullSum(s.sh.segments, s.params.capacity);
  }

  /** A thread that saw every segment full is owed nothing yet. */
  lemma FallThroughKeepsInv(s: State, t: Tid, l: NonZeroLayout)
    requires Inv(s) && Phase1(s.sh, l).served == None
    ensures Inv(Goto(s, t, Growing(l, |s.sh.segments|, s.frees)))
  {
    hide ShapeOf, RoundUp, Aligned, Sum, Live, LiveCount, BlocksInv, Phase1, WellFormed, FitsSlots;
    var r := Goto(s, t, Growing(l, |s.sh.segments|, s.frees));
    if FitsSlots(s.params, l) { FallThroughIsFull(s, l); }
    assert s.sh.segments[..|s.sh.segments|] == s.sh.segments;
    BlocksSame(s, r);
    forall u | u in r.threads
      ensures Owed(r, r.threads[u])
    {
      if u != t { assert Owed(s, s.threads[u]); }
    }
  }

  /** A new segment is untouched, well shaped, and lies inside its mapping. */
  lemma NewSegmentExact(p: SlabParams, base: usize)
    requires PlanOf(p).Some? && base + PlanOf(p).value.mapped <= USIZE_MAX + 1
    ensures NewSegment(p, base).Some?
    ensures var seg := NewSegment(p, base).value;
            && SegOk(p, seg) && Untouched(seg)
            && base <= seg.base && seg.base + Bytes(seg) <= base + PlanOf(p).value.mapped
  {
    hide BitAnd, RoundUp, Aligned, BuildPlan, Place, IsPow2;
    var plan := PlanOf(p).value;
    BuildPlanShape(p.size, p.align, p.capacity, p.page);
    BuildPlanFits(p.size, p.align, p.capacity, p.page, base);
    PlaceIsSound(base, 0, plan.mapped, plan.slots);
  }

  lemma BuildKeepsInv(s: State, t: Tid, base: usize)
    requires Inv(s) && Enabled(s, Build(t, base))
    ensures Inv(Next(s, Build(t, base)))
  {
    hide ShapeOf, RoundUp, Aligned, BuildPlan, NewSegment, Sum, Live, LiveCount, BlocksInv, WellFormed;
    NewSegmentExact(s.params, base);
    var r := Next(s, Build(t, base));
    assert Owed(s, s.threads[t]);
    forall u | u in r.threads
      ensures Owed(r, r.threads[u])
    {
      if u != t { assert Owed(s, s.threads[u]); }
    }
    BlocksSame(s, r);
  }

  lemma BlocksSame(s: State, r: State)
    requires BlocksInv(s) && r.sh == s.sh && r.blocks == s.blocks
    ensures BlocksInv(r)
  {
    hide Sum, LiveCount, Live, SlotPtr;
    forall p | p in r.blocks
      ensures Holds(r, p, r.blocks[p])
    {
      assert Holds(s, p, s.blocks[p]);
    }
  }

  /** Back to idle with nothing done: a failed build, or a request no slot can ever hold. */
  lemma ReturnKeepsInv(s: State, t: Tid)
    requires Inv(s)
    ensures Inv(Goto(s, t, Idle))
  {
    hide ShapeOf, RoundUp, Aligned, Sum, Live, LiveCount, BlocksInv, WellFormed;
    var r := Goto(s, t, Idle);
    BlocksSame(s, r);
    forall u | u in r.threads
      ensures Owed(r, r.threads[u])
    {
      if u != t { assert Owed(s, s.threads[u]); }
    }
  }

  /** The private segment of a thread becomes the last installed one. */
  function Pushed(s: State, t: Tid): State
    requires PcOf(s, t).Built?
  {
    Goto(s, t, Idle).(sh := s.sh.(segments := s.sh.segments + [PcOf(s, t).seg]))
  }

  lemma PushedBlocks(s: State, t: Tid)
    requires BlocksInv(s) && PcOf(s, t).Built? && Untouched(PcOf(s, t).seg)
    ensures BlocksInv(Pushed(s, t))
  {
    hide Sum, SlotPtr;
    var r := Pushed(s, t);
    SumAppend(s.sh.segments, LiveCount, PcOf(s, t).seg);
    forall p | p in r.blocks
      ensures Holds(r, p, r.blocks[p])
    {
      assert Holds(s, p, s.blocks[p]);
    }
  }

  lemma PushKeepsInv(s: State, t: Tid)
    requires Inv(s) && PcOf(s, t).Built?
    ensures Inv(Pushed(s, t))
  {
    hide ShapeOf, RoundUp, Aligned, Sum, Live, LiveCount, BlocksInv, WellFormed;
    var r := Pushed(s, t);
    PushedBlocks(s, t);
    forall u | u in r.threads
      ensures Owed(r, r.threads[u])
    {
      if u != t {
        assert Owed(s, s.threads[u]);
        if !s.threads[u].Idle? {
          assert r.sh.segments[..s.threads[u].lenBefore] == s.sh.segments[..s.threads[u].lenBefore];
        }
      }
    }
  }

  // ------------------------------------------------------------ phase 3

  /** Phase 3 ends in one of three ways: served by a segment installed since the
      snapshot, an error because the type does not fit its own slots, or installed. */
  datatype Ending = Used(i: nat) | Refused | Installed

  function EndingOf(s: State, t: Tid): Ending
    requires Enabled(s, Install(t))
  {
    var pc := PcOf(s, t);
    match FirstOpen(s.sh.segments, pc.lenBefore, |s.sh.segments|, pc.l)
    case Some(i) => Used(i)
    case None => if TakeSlot(pc.seg, pc.l) == None then Refused else Installed
  }

  lemma EndingExact(s: State, t: Tid)
    requires Enabled(s, Install(t))
    ensures var pc, segs := PcOf(s, t), s.sh.segments;
            match EndingOf(s, t)
            case Used(i) =>
              && pc.lenBefore <= i < |segs| && TakeSlot(segs[i], pc.l).Some?
              && (forall j :: pc.lenBefore <= j < i ==> TakeSlot(segs[j], pc.l) == None)
              && Next(s, Install(t)) == Commit(s, t, ServeFrom(s.sh, i, pc.l, Max(s.sh.hint, i)))
            case Refused => TakeSlot(pc.seg, pc.l) == None && Next(s, Install(t)) == Goto(s, t, Idle)
            case Installed =>
              && TakeSlot(pc.seg, pc.l).Some?
              && (forall j :: pc.lenBefore <= j < |segs| ==> TakeSlot(segs[j], pc.l) == None)
              && Next(s, Install(t)) == Commit(Pushed(s, t), t, ServeFrom(Pushed(s, t).sh, |segs|, pc.l, |segs|))
  {
    hide TakeSlot, FirstOpen;
    var pc, segs := PcOf(s, t), s.sh.segments;
    if EndingOf(s, t) == Installed {
      var after := TakeSlot(pc.seg, pc.l).value.after;
      assert (segs + [pc.seg])[|segs| := after] == segs + [after];
    }
  }

  lemma InstallKeepsInv(s: State, t: Tid)
    requires Inv(s) && Enabled(s, Install(t))
    ensures Inv(Next(s, Install(t)))
    ensures var r := Next(s, Install(t));
            match EndingOf(s, t)
            case Used(_) => |r.blocks| == |s.blocks| + 1 && |r.sh.segments| == |s.sh.segments|
            case Refused => r.blocks == s.blocks && |r.sh.segments| == |s.sh.segments|
            case Installed => |r.blocks| == |s.blocks| + 1 && |r.sh.segments| == |s.sh.segments| + 1
  {
    var pc, n := PcOf(s, t), |s.sh.segments|;
    hide Next, EndingOf, TakeSlot, SegmentsInv, PrivateInv, BlocksInv, OwedInv;
    EndingExact(s, t);
    HintBelow(s);
    match EndingOf(s, t)
    case Used(i) => ServeKeepsInv(s, t, pc.l, i, Max(s.sh.hint, i));
    case Refused => ReturnKeepsInv(s, t);
    case Installed =>
      PushKeepsInv(s, t);
      ServeKeepsInv(Pushed(s, t), t, pc.l, n, n);
  }

  lemma RefusedEnding(s: State, t: Tid)
    requires Inv(s) && Enabled(s, Install(t))
    ensures EndingOf(s, t) == Refused <==> !FitsSlots(s.params, PcOf(s, t).l)
  {
    hide RoundUp, Aligned, LiveCount, TakeSlot, ShapeOf, FitsSlots, BlocksInv, OwedInv, SegmentsInv;
    var pc := PcOf(s, t);
    EndingExact(s, t);
    UntouchedServes(s.params, pc.seg, pc.l);
    if EndingOf(s, t).Used? { NoSlotIffFull(s, EndingOf(s, t).i, pc.l); }
  }

  /** A growing thread comes back without a block exactly for a request its slots can never
      hold, by alignment or by size: its own untouched segment serves any other. Either way
      the call is over. */
  lemma RefusedIffUnfit(s: State, t: Tid)
    requires Inv(s) && Enabled(s, Install(t))
    ensures var r, l, p := Next(s, Install(t)), PcOf(s, t).l, s.params;
            && PcOf(r, t).Idle?
            && |r.blocks| == (if l.align > Max(p.align, 4) || l.size > RoundUp(Max(p.size, 8), Max(p.align, 4))
                              then |s.blocks| else |s.blocks| + 1)
  {
    hide RoundUp, EndingOf, Inv;
    RefusedEnding(s, t);
    InstallKeepsInv(s, t);
    InstallReturns(s, t);
    hide Next;
  }

  lemma InstallReturns(s: State, t: Tid)
    requires Enabled(s, Install(t))
    ensures PcOf(Next(s, Install(t)), t).Idle?
  {
    hide Phase3;
  }

  /** The first critical section serves a block exactly when some installed segment has a
      free slot for the layout; otherwise the thread goes on to build, having changed
      nothing. */
  lemma AllocateServesIff(s: State, t: Tid, l: NonZeroLayout)
    requires Inv(s) && Enabled(s, Allocate(t, l))
    ensures var r, segs := Next(s, Allocate(t, l)), s.sh.segments;
            if exists i :: 0 <= i < |segs| && Fits(segs[i], l) && LiveCount(segs[i]) < segs[i].capacity
            then PcOf(r, t).Idle? && |r.blocks| == |s.blocks| + 1
            else r == Goto(s, t, Growing(l, |segs|, s.frees))
  {
    hide Phase1, TakeSlot, SegmentsInv, PrivateInv, BlocksInv, OwedInv, Fits, LiveCount;
    Phase1Exact(s.sh, l);
    HintBelow(s);
    SlabsWellFormed(s);
    Phase1GrowsIffFull(s.sh, l);
    var r := Phase1(s.sh, l);
    if r.served.Some? { ServeKeepsInv(s, t, l, r.served.value.seg, r.after.hint); }
  }

  lemma SlabsWellFormed(s: State)
    requires SegmentsInv(s)
    ensures forall i :: 0 <= i < |s.sh.segments| ==>
              WellFormed(s.sh.segments[i]) && LiveCount(s.sh.segments[i]) <= s.sh.segments[i].capacity
  {
    forall i | 0 <= i < |s.sh.segments|
      ensures WellFormed(s.sh.segments[i]) && LiveCount(s.sh.segments[i]) <= s.sh.segments[i].capacity
    {
      assert SegOk(s.params, s.sh.segments[i]);
      LiveCountBounds(s.sh.segments[i]);
    }
  }

  /** Building between the critical sections: whenever the OS maps, there is a segment. */
  lemma BuildSucceeds(s: State, t: Tid, base: usize)
    requires Enabled(s, Build(t, base))
    ensures PcOf(Next(s, Build(t, base)), t).Built?
    ensures var r, seg := Next(s, Build(t, base)), PcOf(Next(s, Build(t, base)), t).seg;
            && SegOk(s.params, seg) && Untouched(seg)
            && base <= seg.base && seg.base + Bytes(seg) <= base + PlanOf(s.params).value.mapped
            && r.sh == s.sh && r.blocks == s.blocks && PcOf(r, t).l == PcOf(s, t).l
  {
    hide NewSegment, BuildPlan;
    NewSegmentExact(s.params, base);
  }

  lemma UntouchedServes(p: SlabParams, seg: Slab, l: Layout)
    requires SegOk(p, seg) && Untouched(seg)
    ensures TakeSlot(seg, l).Some? <==> FitsSlots(p, l)
  {
    hide RoundUp, Aligned;
  }

  lemma HintBelow(s: State)
    requires SegmentsInv(s)
    ensures s.sh.hint < Max(1, |s.sh.segments|)
  {
  }

  lemma AllocateKeepsInv(s: State, t: Tid, l: NonZeroLayout)
    requires Inv(s) && Enabled(s, Allocate(t, l))
    ensures var r := Next(s, Allocate(t, l));
            && Inv(r) && |s.blocks| <= |r.blocks| && |r.sh.segments| == |s.sh.segments|
  {
    hide Phase1, TakeSlot, SegmentsInv, PrivateInv, BlocksInv, OwedInv;
    Phase1Exact(s.sh, l);
    HintBelow(s);
    var r := Phase1(s.sh, l);
    if r.served == None {
      FallThroughKeepsInv(s, t, l);
    } else {
      ServeKeepsInv(s, t, l, r.served.value.seg, r.after.hint);
    }
  }

  ghost predicate Installs(s: State, step: Step)
    requires Enabled(s, step)
  {
    step.Install? && EndingOf(s, step.t) == Installed
  }

  /** Every step of every thread keeps the invariant; only an installing phase 3 changes
      the number of segments. */
  lemma NextKeepsInv(s: State, step: Step)
    requires Inv(s) && Enabled(s, step)
    ensures var r := Next(s, step);
            && Inv(r)
            && |r.sh.segments| == |s.sh.segments| + (if Installs(s, step) then 1 else 0)
            && |r.blocks| + r.frees >= |s.blocks| + s.frees + (if Installs(s, step) then 1 else 0)
            && r.params == s.params && r.initial == s.initial
            && r.frees == s.frees + (if step.Free? then 1 else 0)
  {
    SameSetup(s, step);
    match step
    case Allocate(t, l) => AllocateKeepsInv(s, t, l);
    case BuildFails(t) => ReturnKeepsInv(s, t);
    case Build(t, base) => BuildKeepsInv(s, t, base);
    case Install(t) =>
      hide Next, EndingOf, Inv;
      InstallKeepsInv(s, t);
    case Free(p) => FreeKeepsInv(s, p);
  }

  lemma SameSetup(s: State, step: Step)
    requires Enabled(s, step)
    ensures Next(s, step).params == s.params && Next(s, step).initial == s.initial
    ensures Next(s, step).frees == s.frees + (if step.Free? then 1 else 0)
    ensures step.Free? || step.Install? || step.Allocate? || Next(s, step).blocks == s.blocks
    ensures step.Free? ==> |Next(s, step).sh.segments| == |s.sh.segments|
    ensures step.Build? || step.BuildFails? ==> Next(s, step).sh == s.sh
  {
    hide Phase1, Phase3, Route, PutSlot, NewSegment, PlanOf;
  }

  // ------------------------------------------------------------ growth

  /** The segments installed since the snapshot are full when phase 3 installs another. */
  lemma NewerAreFull(s: State, t: Tid)
    requires Inv(s) && Enabled(s, Install(t)) && EndingOf(s, t) == Installed
    ensures var lb, segs := PcOf(s, t).lenBefore, s.sh.segments;
            Sum(segs[lb..], LiveCount) == (|segs| - lb) * s.params.capacity
    ensures FitsSlots(s.params, PcOf(s, t).l)
  {
    hide RoundUp, Aligned, Sum, LiveCount, TakeSlot, ShapeOf, FitsSlots, EndingOf, Next, SegmentsInv,
      BlocksInv, OwedInv;
    var pc, segs := PcOf(s, t), s.sh.segments;
    var rest := segs[pc.lenBefore..];
    EndingExact(s, t);
    OwnSegmentFits(s, t);
    forall j | 0 <= j < |rest|
      ensures LiveCount(rest[j]) == s.params.capacity
    {
      NoSlotIffFull(s, pc.lenBefore + j, pc.l);
    }
    FullSum(rest, s.params.capacity);
  }

  /** A thread that installs a segment is owed no more than what was freed since the count
      it took in phase 1. */
  lemma InstallIsJustified(s: State, t: Tid)
    requires Inv(s) && Enabled(s, Install(t)) && EndingOf(s, t) == Installed
    ensures |s.sh.segments| * s.params.capacity <= |s.blocks| + (s.frees - PcOf(s, t).freesBefore)
    ensures |s.sh.segments| * s.params.capacity <= |s.blocks| + s.frees
  {
    hide Sum, LiveCount, FitsSlots, SegmentsInv, PrivateInv, AllHeld, AllKnown, EndingOf;
    var lb, segs := PcOf(s, t).lenBefore, s.sh.segments;
    NewerAreFull(s, t);
    assert Owed(s, s.threads[t]);
    assert segs == segs[..lb] + segs[lb..];
    SumConcat(segs[..lb], segs[lb..], LiveCount);
    assert |segs| * s.params.capacity == lb * s.params.capacity + (|segs| - lb) * s.params.capacity;
  }

  lemma OwnSegmentFits(s: State, t: Tid)
    requires PrivateInv(s) && PcOf(s, t).Built? && TakeSlot(PcOf(s, t).seg, PcOf(s, t).l).Some?
    ensures FitsSlots(s.params, PcOf(s, t).l)
  {
    hide RoundUp, Aligned, WellFormed;
  }

  /** Segments beyond the initial ones are there because all before the last were needed
      at once, up to what has been freed. */
  ghost predicate Grown(s: State) {
    && s.initial <= |s.sh.segments|
    && (|s.sh.segments| > s.initial ==>
          (|s.sh.segments| - 1) * s.params.capacity < |s.blocks| + s.frees)
  }

  lemma GrownStep(s: State, step: Step)
    requires Inv(s) && Grown(s) && Enabled(s, step)
    ensures Grown(Next(s, step))
  {
    hide Next, Inv, EndingOf, Enabled, PcOf;
    NextKeepsInv(s, step);
    var r := Next(s, step);
    if Installs(s, step) {
      InstallIsJustified(s, step.t);
      assert (|r.sh.segments| - 1) * r.params.capacity == |s.sh.segments| * s.params.capacity;
    } else {
      assert (|r.sh.segments| - 1) * r.params.capacity == (|s.sh.segments| - 1) * s.params.capacity;
    }
  }

  // ------------------------------------------------------------ the hint

  /** No segment below the hint has a free slot. */
  ghost predicate HintClean(s: State) {
    forall j :: 0 <= j < s.sh.hint && j < |s.sh.segments| ==> LiveCount(s.sh.segments[j]) == s.params.capacity
  }

  /** While the hint is clean the second walk of phase 1 never serves. */
  lemma CleanNeedsNoSecondWalk(s: State, l: Layout)
    requires SegmentsInv(s) && HintClean(s)
    ensures FirstOpen(s.sh.segments, 0, Min(s.sh.hint, |s.sh.segments|), l) == None
  {
    hide RoundUp, Aligned, LiveCount, TakeSlot, FitsSlots, SegmentsInv;
    forall j | 0 <= j < Min(s.sh.hint, |s.sh.segments|)
      ensures TakeSlot(s.sh.segments[j], l) == None
    {
      NoSlotIffFull(s, j, l);
    }
  }

  lemma CleanSkipsSecondWalk(s: State, l: Layout)
    requires Inv(s) && HintClean(s)
    ensures FirstOpen(s.sh.segments, 0, Min(s.sh.hint, |s.sh.segments|), l) == None
  {
    CleanNeedsNoSecondWalk(s, l);
  }

  /** Phase 1 and frees keep the hint clean. */
  lemma AllocateKeepsClean(s: State, t: Tid, l: NonZeroLayout)
    requires Inv(s) && HintClean(s) && Enabled(s, Allocate(t, l))
    ensures HintClean(Next(s, Allocate(t, l)))
  {
    hide RoundUp, Aligned, LiveCount, TakeSlot, ShapeOf, WellFormed, SegmentsInv, PrivateInv, BlocksInv, OwedInv;
    CleanNeedsNoSecondWalk(s, l);
    var start := Min(s.sh.hint, |s.sh.segments|);
    match FirstOpen(s.sh.segments, start, |s.sh.segments|, l)
    case None =>
    case Some(i) =>
      NoSlotIffFull(s, i, l);
      forall j | start <= j < i
        ensures LiveCount(s.sh.segments[j]) == s.params.capacity
      {
        NoSlotIffFull(s, j, l);
      }
  }

  lemma FreeKeepsClean(s: State, p: usize)
    requires Inv(s) && HintClean(s) && Enabled(s, Free(p))
    ensures HintClean(Next(s, Free(p)))
  {
    hide RoundUp, Aligned, LiveCount, ShapeOf, WellFormed, PutSlot, Sum, Live;
  }

  /** What phase 3 does to the list and the hint when it serves. */
  lemma InstallEffect(s: State, t: Tid)
    requires Enabled(s, Install(t))
    ensures var r, n := Next(s, Install(t)), |s.sh.segments|;
            match EndingOf(s, t)
            case Used(i) =>
              && i < n == |r.sh.segments| && r.sh.hint == Max(s.sh.hint, i)
              && forall j :: 0 <= j < n && j != i ==> r.sh.segments[j] == s.sh.segments[j]
            case Refused => r.sh == s.sh
            case Installed =>
              && |r.sh.segments| == n + 1 && r.sh.hint == n
              && forall j :: 0 <= j < n ==> r.sh.segments[j] == s.sh.segments[j]
  {
    hide Next, EndingOf, TakeSlot;
    EndingExact(s, t);
  }

  /** The segments from the snapshot up to the one phase 3 serves from are full, and that
      one is not. */
  lemma ServedIsFirstOpen(s: State, t: Tid)
    requires Inv(s) && Enabled(s, Install(t)) && EndingOf(s, t) != Refused
    ensures var segs, lb := s.sh.segments, PcOf(s, t).lenBefore;
            var top := if EndingOf(s, t).Used? then EndingOf(s, t).i else |segs|;
            && lb <= top <= |segs|
            && (forall j :: lb <= j < top ==> LiveCount(segs[j]) == s.params.capacity)
            && (top < |segs| ==> LiveCount(segs[top]) != s.params.capacity)
  {
    hide LiveCount, TakeSlot, SegmentsInv, PrivateInv, BlocksInv, OwedInv, Next, EndingOf, FitsSlots;
    var pc, segs := PcOf(s, t), s.sh.segments;
    EndingExact(s, t);
    if EndingOf(s, t) == Installed { OwnSegmentFits(s, t); }
    forall j | pc.lenBefore <= j < |segs|
      ensures TakeSlot(segs[j], pc.l) == None <==>
              !FitsSlots(s.params, pc.l) || LiveCount(segs[j]) == s.params.capacity
    {
      NoSlotIffFull(s, j, pc.l);
    }
  }

  /** Phase 3 keeps the hint clean exactly when no slot of the segments its thread saw
      full is free by then. */
  lemma InstallKeepsCleanIff(s: State, t: Tid)
    requires Inv(s) && HintClean(s) && Enabled(s, Install(t)) && EndingOf(s, t) != Refused
    ensures HintClean(Next(s, Install(t))) <==>
            forall j :: 0 <= j < PcOf(s, t).lenBefore ==> LiveCount(s.sh.segments[j]) == s.params.capacity
  {
    hide LiveCount, Inv, Next, EndingOf;
    ServedIsFirstOpen(s, t);
    InstallEffect(s, t);
    SameSetup(s, Install(t));
    var r, lb := Next(s, Install(t)), PcOf(s, t).lenBefore;
    assert lb <= r.sh.hint;
    forall j | 0 <= j < lb
      ensures r.sh.segments[j] == s.sh.segments[j]
    {
    }
  }

  // ------------------------------------------------------------ whole runs

  /** A run: any threads, any requests, any interleaving, any answers from the OS. */
  ghost predicate IsRun(states: seq<State>, steps: seq<Step>) {
    && |states| == |steps| + 1 && Init(states[0])
    && forall i :: 0 <= i < |steps| ==>
         Enabled(states[i], steps[i]) && states[i + 1] == Next(states[i], steps[i])
  }

  lemma {:induction false} RunKeepsInv(states: seq<State>, steps: seq<Step>, n: nat)
    requires IsRun(states, steps) && n <= |steps|
    ensures Inv(states[n]) && Grown(states[n])
    ensures states[n].params == states[0].params && states[n].initial == states[0].initial
  {
    hide Next, Enabled, Inv, Grown, Init;
    if n == 0 {
      InitInv(states[0]);
      InitGrown(states[0]);
    } else {
      RunKeepsInv(states, steps, n - 1);
      NextKeepsInv(states[n - 1], steps[n - 1]);
      GrownStep(states[n - 1], steps[n - 1]);
    }
  }

  /** The call of thread `t` that fell through phase 1 at step `k` has not returned before
      state `i`. */
  ghost predicate GrowingSince(states: seq<State>, steps: seq<Step>, t: Tid, k: nat, i: nat)
    requires |states| == |steps| + 1
  {
    && k < i <= |steps| && steps[k].Allocate? && steps[k].t == t
    && forall j :: k < j <= i ==> !PcOf(states[j], t).Idle?
  }

  /** How one step moves the program point of thread `t`. */
  lemma PcStep(s: State, step: Step, t: Tid)
    requires Enabled(s, step) && !PcOf(Next(s, step), t).Idle?
    ensures var p, q := PcOf(s, t), PcOf(Next(s, step), t);
            if p.Idle? then step.Allocate? && step.t == t && q.freesBefore == s.frees
            else q.freesBefore == p.freesBefore
  {
    hide Phase1, Phase3, NewSegment, PlanOf, Release;
  }

  /** Whoever is past phase 1 fell through it at some step, and remembers the number of
      frees at that step. */
  lemma {:induction false} GrowthBegan(states: seq<State>, steps: seq<Step>, t: Tid, i: nat)
    requires IsRun(states, steps) && i <= |steps| && !PcOf(states[i], t).Idle?
    ensures exists k: nat :: GrowingSince(states, steps, t, k, i) && PcOf(states[i], t).freesBefore == states[k].frees
  {
    hide Next, Enabled, PcOf;
    if i == 0 {
      StartsIdle(states[0], t);
    } else {
      PcStep(states[i - 1], steps[i - 1], t);
      if PcOf(states[i - 1], t).Idle? {
        assert GrowingSince(states, steps, t, i - 1, i);
      } else {
        GrowthBegan(states, steps, t, i - 1);
        var k: nat :| GrowingSince(states, steps, t, k, i - 1) && PcOf(states[i - 1], t).freesBefore == states[k].frees;
        assert GrowingSince(states, steps, t, k, i);
      }
    }
  }

  lemma StartsIdle(s: State, t: Tid)
    requires Init(s)
    ensures PcOf(s, t).Idle?
  {
  }

  /** Justified growth, in every run: a segment is installed only by a call that fell
      through its own phase 1 at some earlier step, and only if every slot there is by now
      is live or has been freed since that step. */
  lemma GrowthIsJustified(states: seq<State>, steps: seq<Step>, t: Tid, i: nat)
    requires IsRun(states, steps) && i < |steps| && steps[i] == Install(t)
    requires |states[i + 1].sh.segments| > |states[i].sh.segments|
    ensures exists k: nat ::
              && GrowingSince(states, steps, t, k, i)
              && |states[i].sh.segments| * states[i].params.capacity <=
                 |states[i].blocks| + (states[i].frees - states[k].frees)
  {
    hide Next, EndingOf, Inv, Init, GrowingSince;
    RunKeepsInv(states, steps, i);
    NextKeepsInv(states[i], steps[i]);
    InstallIsJustified(states[i], t);
    GrowthBegan(states, steps, t, i);
  }

  lemma InitGrown(s: State)
    requires Init(s)
    ensures Grown(s)
  {
  }

  /** `ceil(x / c)`. */
  function CeilDiv(x: nat, c: nat): nat
    requires c > 0
  {
    if x <= c then (if x == 0 then 0 else 1) else 1 + CeilDiv(x - c, c)
  }

  lemma {:induction false} CeilDivUnique(x: nat, c: nat, n: nat)
    requires c > 0
    ensures x <= n * c ==> CeilDiv(x, c) <= n
    ensures n > 0 && (n - 1) * c < x ==> n <= CeilDiv(x, c)
  {
    if x > c && n > 0 {
      CeilDivUnique(x - c, c, n - 1);
      assert n * c == (n - 1) * c + c;
      if n > 1 { assert (n - 1) * c == (n - 2) * c + c; }
    } else if n > 1 {
      assert (n - 1) * c >= c by { MulMonotone(c, 1, n - 1); }
    } else if x > 0 && x <= c && n == 0 {
    }
  }

  /** Exact growth. In every run, at every moment before the first free, the number of
      segments is the larger of the initial number and the fewest that hold the live
      blocks: every redundant segment built with the lock dropped has been discarded. */
  lemma ExactGrowth(states: seq<State>, steps: seq<Step>, n: nat)
    requires IsRun(states, steps) && n <= |steps|
    requires states[n].frees == 0 && states[n].params.capacity > 0
    ensures |states[n].sh.segments| == Max(states[0].initial, CeilDiv(|states[n].blocks|, states[n].params.capacity))
  {
    hide Next, Enabled, Init, Sum, PrivateInv, OwedInv, AllHeld, AllKnown, LiveCount, CeilDiv;
    RunKeepsInv(states, steps, n);
    var s := states[n];
    forall i | 0 <= i < |s.sh.segments|
      ensures LiveCount(s.sh.segments[i]) <= s.params.capacity
    {
      CapacityBounds(s, i);
    }
    FullSum(s.sh.segments, s.params.capacity);
    CeilDivUnique(|s.blocks|, s.params.capacity, |s.sh.segments|);
  }

  /** With frees the bound counts the freed blocks as well. */
  lemma GrowthBound(states: seq<State>, steps: seq<Step>, n: nat)
    requires IsRun(states, steps) && n <= |steps| && states[n].params.capacity > 0
    ensures |states[n].sh.segments| <=
            Max(states[0].initial, CeilDiv(|states[n].blocks| + states[n].frees, states[n].params.capacity))
  {
    hide Next, Enabled, Init, Inv, CeilDiv;
    RunKeepsInv(states, steps, n);
    var s := states[n];
    CeilDivUnique(|s.blocks| + s.frees, s.params.capacity, |s.sh.segments|);
  }

  lemma SlotAligned(p: SlabParams, seg: Slab, a: nat)
    requires SegOk(p, seg)
    ensures Aligned(SlotPtr(seg, a), Max(p.align, 4))
  {
    hide Aligned, RoundUp, WellFormed;
    AlignedScaled(seg.stride, seg.slotAlign, a);
    assert a * seg.stride == seg.stride * a;
    AlignedPlus(seg.base, a * seg.stride, seg.slotAlign);
  }

  function StrideOf(p: SlabParams): nat { ShapeOf(p.size, p.align, p.capacity).stride }

  lemma HeldApart(s: State, p: nat, q: nat)
    requires Inv(s) && p in s.blocks && q in s.blocks && p != q
    ensures p + StrideOf(s.params) <= q || q + StrideOf(s.params) <= p
  {
    hide PrivateInv, OwedInv, Sum, LiveCount, Aligned, RoundUp, AllKnown;
    var b, c := s.blocks[p], s.blocks[q];
    assert Holds(s, p, b) && Holds(s, q, c);
    assert SegOk(s.params, s.sh.segments[b.seg]) && SegOk(s.params, s.sh.segments[c.seg]);
    hide SlotPtr, SegmentsInv;
    SlotsApart(s, b.seg, c.seg, b.slot, c.slot);
  }

  lemma HeldRoutes(s: State, p: nat)
    requires Inv(s) && p in s.blocks
    ensures p <= USIZE_MAX && Routable(s.sh.segments)
    ensures Aligned(p, Max(s.params.align, 4))
    ensures Route(s.sh.segments, p, 0) == Some(s.blocks[p].seg)
    ensures forall j :: 0 <= j < |s.sh.segments| ==> (InRange(s.sh.segments[j], p) <==> j == s.blocks[p].seg)
  {
    hide PrivateInv, OwedInv, Sum, LiveCount, Aligned, RoundUp, Route, AllKnown, InRange, SlotPtr;
    var b := s.blocks[p];
    assert Holds(s, p, b);
    assert SegOk(s.params, s.sh.segments[b.seg]);
    SlotAligned(s.params, s.sh.segments[b.seg], b.slot);
    RouteExact(s, b.seg, b.slot);
  }

  lemma PrivateNeverIssued(s: State, t: Tid, p: nat)
    requires Inv(s) && p in s.blocks && t in s.threads && s.threads[t].Built?
    ensures var seg := s.threads[t].seg;
            Untouched(seg) && !(seg.base <= p < seg.base + Bytes(seg))
  {
    hide OwedInv, Sum, LiveCount, Aligned, RoundUp, AllKnown;
    var b := s.blocks[p];
    assert Holds(s, p, b);
    assert SegOk(s.params, s.sh.segments[b.seg]);
    SlotInRange(s.sh.segments[b.seg], b.slot);
    assert Apart(s.sh.segments[b.seg], s.threads[t].seg);
  }

  /** Safety. In every run, at every moment: blocks held by clients are aligned and
      pairwise disjoint; each lies in exactly one installed segment, and freeing it would
      route to the segment that issued it; none lies in a segment still private to a
      thread, so a segment dropped by a losing racer never issued a block. */
  lemma RunSafe(states: seq<State>, steps: seq<Step>, n: nat)
    requires IsRun(states, steps) && n <= |steps|
    ensures Routable(states[n].sh.segments)
    ensures forall p, q :: p in states[n].blocks && q in states[n].blocks && p != q ==>
              p + StrideOf(states[n].params) <= q || q + StrideOf(states[n].params) <= p
    ensures forall p :: p in states[n].blocks ==>
              && p <= USIZE_MAX && Aligned(p, Max(states[n].params.align, 4))
              && Route(states[n].sh.segments, p, 0) == Some(states[n].blocks[p].seg)
    ensures forall p, j :: p in states[n].blocks && 0 <= j < |states[n].sh.segments| ==>
              (InRange(states[n].sh.segments[j], p) <==> j == states[n].blocks[p].seg)
    ensures forall t, p :: t in states[n].threads && states[n].threads[t].Built? && p in states[n].blocks ==>
              && Untouched(states[n].threads[t].seg)
              && !(states[n].threads[t].seg.base <= p < states[n].threads[t].seg.base + Bytes(states[n].threads[t].seg))
  {
    hide Next, Enabled, Init, Grown, Aligned, RoundUp, Route, InRange, StrideOf, Inv, Untouched;
    RunKeepsInv(states, steps, n);
    AllApart(states[n]);
    AllRouted(states[n]);
    NonePrivate(states[n]);
  }

  lemma AllApart(s: State)
    requires Inv(s)
    ensures forall p, q :: p in s.blocks && q in s.blocks && p != q ==>
              p + StrideOf(s.params) <= q || q + StrideOf(s.params) <= p
  {
    hide Inv, StrideOf;
    forall p, q | p in s.blocks && q in s.blocks && p != q
      ensures p + StrideOf(s.params) <= q || q + StrideOf(s.params) <= p
    {
      HeldApart(s, p, q);
    }
  }

  lemma AllRouted(s: State)
    requires Inv(s)
    ensures Routable(s.sh.segments)
    ensures forall p :: p in s.blocks ==>
              && p <= USIZE_MAX && Aligned(p, Max(s.params.align, 4))
              && Route(s.sh.segments, p, 0) == Some(s.blocks[p].seg)
    ensures forall p, j :: p in s.blocks && 0 <= j < |s.sh.segments| ==>
              (InRange(s.sh.segments[j], p) <==> j == s.blocks[p].seg)
  {
    InvRoutable(s);
    hide Inv, Aligned, Route, InRange;
    forall p | p in s.blocks
      ensures && p <= USIZE_MAX && Aligned(p, Max(s.params.align, 4))
              && Route(s.sh.segments, p, 0) == Some(s.blocks[p].seg)
      ensures forall j :: 0 <= j < |s.sh.segments| ==> (InRange(s.sh.segments[j], p) <==> j == s.blocks[p].seg)
    {
      HeldRoutes(s, p);
    }
  }

  lemma NonePrivate(s: State)
    requires Inv(s)
    ensures forall t, p :: t in s.threads && s.threads[t].Built? && p in s.blocks ==>
              && Untouched(s.threads[t].seg)
              && !(s.threads[t].seg.base <= p < s.threads[t].seg.base + Bytes(s.threads[t].seg))
  {
    hide Inv, Untouched;
    forall t, p | t in s.threads && s.threads[t].Built? && p in s.blocks
      ensures Untouched(s.threads[t].seg)
      ensures !(s.threads[t].seg.base <= p < s.threads[t].seg.base + Bytes(s.threads[t].seg))
    {
      PrivateNeverIssued(s, t, p);
    }
  }

  lemma InvRoutable(s: State)
    requires SegmentsInv(s)
    ensures Routable(s.sh.segments)
  {
    hide RoundUp, Aligned;
    forall i | 0 <= i < |s.sh.segments|
      ensures s.sh.segments[i].stride > 0 && Bytes(s.sh.segments[i]) <= USIZE_MAX
    {
      assert SegOk(s.params, s.sh.segments[i]);
    }
  }

  /** No free lands between a thread's phase 1 and its phase 3. */
  ghost predicate QuietWindows(states: seq<State>, steps: seq<Step>, n: nat)
    requires n <= |steps| <= |states|
  {
    forall i :: 0 <= i < n && steps[i].Install? && PcOf(states[i], steps[i].t).Built? ==>
      states[i].frees == PcOf(states[i], steps[i].t).freesBefore
  }

  lemma QuietInstallKeepsClean(s: State, t: Tid)
    requires Inv(s) && HintClean(s) && Enabled(s, Install(t)) && s.frees == PcOf(s, t).freesBefore
    ensures HintClean(Next(s, Install(t)))
  {
    hide SegmentsInv, PrivateInv, BlocksInv, LiveCount, Sum, Next, EndingOf, FitsSlots;
    if EndingOf(s, t) == Refused {
      InstallEffect(s, t);
      SameSetup(s, Install(t));
    } else {
      var lb := PcOf(s, t).lenBefore;
      var seen := s.sh.segments[..lb];
      ServedFits(s, t);
      assert Owed(s, s.threads[t]);
      forall j | 0 <= j < lb
        ensures LiveCount(seen[j]) <= s.params.capacity
      {
        CapacityBounds(s, j);
      }
      FullSum(seen, s.params.capacity);
      assert forall j :: 0 <= j < lb ==> seen[j] == s.sh.segments[j];
      InstallKeepsCleanIff(s, t);
    }
  }

  lemma ServedFits(s: State, t: Tid)
    requires Inv(s) && Enabled(s, Install(t)) && EndingOf(s, t) != Refused
    ensures FitsSlots(s.params, PcOf(s, t).l)
  {
    hide LiveCount, TakeSlot, SegmentsInv, PrivateInv, BlocksInv, OwedInv, Next, EndingOf, FitsSlots;
    EndingExact(s, t);
    match EndingOf(s, t)
    case Used(i) => NoSlotIffFull(s, i, PcOf(s, t).l);
    case Installed => OwnSegmentFits(s, t);
  }

  lemma CleanStep(s: State, step: Step)
    requires Inv(s) && HintClean(s) && Enabled(s, step)
    requires step.Install? ==> s.frees == PcOf(s, step.t).freesBefore
    ensures HintClean(Next(s, step))
  {
    match step
    case Allocate(t, l) => AllocateKeepsClean(s, t, l);
    case Install(t) => QuietInstallKeepsClean(s, t);
    case Free(p) => FreeKeepsClean(s, p);
    case BuildFails(t) =>
    case Build(t, base) =>
      SameSetup(s, step);
      hide Next, LiveCount;
  }

  /** In runs where no free lands in a growth window, every segment below the hint is
      full at every moment, and the second walk of phase 1 never serves. */
  lemma {:induction false} QuietRunIsClean(states: seq<State>, steps: seq<Step>, n: nat, l: Layout)
    requires IsRun(states, steps) && n <= |steps| && QuietWindows(states, steps, n)
    ensures HintClean(states[n])
    ensures FirstOpen(states[n].sh.segments, 0, Min(states[n].sh.hint, |states[n].sh.segments|), l) == None
  {
    hide Next, Inv, Grown, LiveCount;
    RunKeepsInv(states, steps, n);
    if n > 0 {
      RunKeepsInv(states, steps, n - 1);
      QuietRunIsClean(states, steps, n - 1, l);
      CleanStep(states[n - 1], steps[n - 1]);
    }
    CleanSkipsSecondWalk(states[n], l);
  }

  /** If the step is a phase 3 that serves, the segments its thread saw full still are. */
  ghost predicate SeenStillFull(s: State, step: Step) {
    step.Install? && Enabled(s, step) && EndingOf(s, step.t) != Refused ==>
      forall j :: 0 <= j < PcOf(s, step.t).lenBefore ==> LiveCount(s.sh.segments[j]) == s.params.capacity
  }

  lemma CleanStepIff(s: State, step: Step)
    requires Inv(s) && HintClean(s) && Enabled(s, step)
    ensures HintClean(Next(s, step)) <==> SeenStillFull(s, step)
  {
    hide Next, HintClean, Inv, LiveCount, EndingOf;
    if step.Install? {
      if EndingOf(s, step.t) == Refused { RefusedKeepsClean(s, step.t); } else { InstallKeepsCleanIff(s, step.t); }
    } else {
      CleanStep(s, step);
    }
  }

  lemma RefusedKeepsClean(s: State, t: Tid)
    requires HintClean(s) && Enabled(s, Install(t)) && EndingOf(s, t) == Refused
    ensures HintClean(Next(s, Install(t)))
  {
    hide Next, LiveCount, EndingOf;
    InstallEffect(s, t);
    SameSetup(s, Install(t));
  }

  /** Exactly when the hint is clean throughout a run: at every serving phase 3, all the
      segments its thread saw full at its phase 1 are full again, or still. A free in the
      window does no harm if its slot has been taken again by then. */
  lemma {:induction false} RunIsCleanIff(states: seq<State>, steps: seq<Step>, n: nat)
    requires IsRun(states, steps) && n <= |steps|
    ensures (forall k :: 0 <= k <= n ==> HintClean(states[k])) <==>
            (forall k :: 0 <= k < n ==> SeenStillFull(states[k], steps[k]))
  {
    hide Next, Inv, Grown, LiveCount, HintClean, SeenStillFull;
    if n == 0 {
      InitClean(states[0]);
    } else {
      RunIsCleanIff(states, steps, n - 1);
      RunKeepsInv(states, steps, n - 1);
      var s, step := states[n - 1], steps[n - 1];
      assert states[n] == Next(s, step);
      if HintClean(s) {
        CleanStepIff(s, step);
        assert HintClean(states[n]) <==> SeenStillFull(states[n - 1], steps[n - 1]);
      }
      assert (forall k :: 0 <= k <= n ==> HintClean(states[k])) <==>
             (forall k :: 0 <= k <= n - 1 ==> HintClean(states[k])) && HintClean(states[n]);
      assert (forall k :: 0 <= k < n ==> SeenStillFull(states[k], steps[k])) <==>
             (forall k :: 0 <= k < n - 1 ==> SeenStillFull(states[k], steps[k])) && SeenStillFull(s, step);
    }
  }

  lemma InitClean(s: State)
    requires Init(s)
    ensures HintClean(s)
  {
  }

  // ------------------------------------------------------------ a stale hint

  /** One-slot segments. Thread 1 grows the slab and fills segment 0; thread 2 sees it
      full; the block is freed while thread 2 builds; thread 2 installs segment 1. */
  function StaleStep(k: nat): Step
    requires k < 7
  {
    var l := Layout(8, 8);
    [Allocate(1, l), Build(1, 4096), Install(1), Allocate(2, l), Free(4096), Build(2, 8192), Install(2)][k]
  }

  function StaleState(k: nat): State {
    var l := Layout(8, 8);
    var s0 := Slab(4096, 8, 8, 1, if k < 5 then [] else [0], if k < 3 then 0 else 1);
    var s1 := Slab(8192, 8, 8, 1, [], if k < 7 then 0 else 1);
    var pc1 := if k == 1 then Growing(l, 0, 0) else if k == 2 then Built(l, 0, 0, s0) else Idle;
    var pc2 := if k == 4 || k == 5 then Growing(l, 1, 0) else if k == 6 then Built(l, 1, 0, s1) else Idle;
    State(Params(8, 8, 1, 4096), 0,
          Shared(if k < 3 then [] else if k < 7 then [s0] else [s0, s1], if k < 7 then 0 else 1, 0),
          if k == 0 then map[] else if k < 4 then map[1 := pc1] else map[1 := pc1, 2 := pc2],
          if k == 3 || k == 4 then map[4096 := Served(0, 0)] else if k == 7 then map[8192 := Served(1, 0)] else map[],
          if k < 5 then 0 else 1)
  }

  lemma StalePlan(p: SlabParams)
    requires p == Params(8, 8, 1, 4096)
    ensures PlanOf(p) == Some(Plan(Shape(8, 8, 1), Layout(8, 8), 4096))
  {
    hide BitAnd;
    assert IsPow2(8) && IsPow2(4096);
    CheckedRoundUpExact(8, 8);
    Mmap.MapLengthExact(15, 4096);
    NewLayoutExact(8, 8);
  }

  lemma StaleSegment(p: SlabParams, base: usize)
    requires p == Params(8, 8, 1, 4096) && (base == 4096 || base == 8192)
    ensures NewSegment(p, base) == Some(Slab(base, 8, 8, 1, [], 0))
  {
    hide BitAnd, BuildPlan, PlanOf, RoundUp, Aligned, Place;
    StalePlan(p);
    StaleBase(base);
    PlaceExact(base, 0, 4096, Layout(8, 8));
  }

  lemma StaleBase(base: usize)
    requires base == 4096 || base == 8192
    ensures RoundUp(base, 8) == base
  {
    hide RoundUp, Aligned;
    AlignedTimes(8, if base == 4096 then 512 else 1024);
    RoundUpOfMultiple(base, 8);
  }

  lemma StaleSteps(k: nat)
    requires k < 7
    ensures var l := Layout(8, 8);
            StaleStep(k) ==
            if k == 0 then Allocate(1, l) else if k == 1 then Build(1, 4096) else if k == 2 then Install(1)
            else if k == 3 then Allocate(2, l) else if k == 4 then Free(4096)
            else if k == 5 then Build(2, 8192) else Install(2)
  {
  }

  ghost predicate StaleGoes(k: nat) {
    k < 7 && Enabled(StaleState(k), StaleStep(k)) && StaleState(k + 1) == Next(StaleState(k), StaleStep(k))
  }

  lemma StaleAllocates(k: nat)
    requires k == 0 || k == 3
    ensures StaleGoes(k)
  {
    hide BuildPlan, NewSegment, StaleStep, Commit;
    StaleSteps(k);
  }

  lemma StaleBuilds(k: nat)
    requires k == 1 || k == 5
    ensures StaleGoes(k)
  {
    hide BuildPlan, NewSegment, StaleStep, PlanOf;
    StalePlan(StaleState(0).params);
    StaleSegment(StaleState(0).params, if k == 1 then 4096 else 8192);
    StaleSteps(k);
  }

  lemma StaleFirstInstall(k: nat)
    requires k == 2
    ensures StaleGoes(k)
  {
    hide BuildPlan, NewSegment, StaleStep, PlanOf;
    StaleSteps(k);
    var s := StaleState(2);
    assert Phase3(s.sh, 0, PcOf(s, 1).seg, Layout(8, 8)) == Section(StaleState(3).sh, Some(Served(0, 0)));
  }

  lemma StaleSecondInstall(k: nat)
    requires k == 6
    ensures StaleGoes(k)
  {
    hide BuildPlan, NewSegment, StaleStep, PlanOf;
    StaleSteps(k);
    var s := StaleState(6);
    assert Phase3(s.sh, 1, PcOf(s, 2).seg, Layout(8, 8)) == Section(StaleState(7).sh, Some(Served(1, 0)));
  }

  lemma StaleFrees(k: nat)
    requires k == 4
    ensures StaleGoes(k)
  {
    hide BuildPlan, NewSegment, StaleStep, PlanOf;
    StaleSteps(k);
    var s := StaleState(4);
    ContainsFlat(4096, 8, 4096);
    assert InRange(s.sh.segments[0], 4096);
    SlotIndexIff(s.sh.segments[0], 4096, 0);
    var x := s.sh.segments[0];
    assert [0] + x.freeList == [0];
    assert PutSlot(x, 4096) == StaleState(5).sh.segments[0];
    assert s.sh.segments[0 := PutSlot(x, 4096)] == StaleState(5).sh.segments;
    assert s.blocks - {4096} == map[];
  }

  lemma StaleEnd(s: State)
    requires s == StaleState(7)
    ensures !HintClean(s) && s.sh.hint == 1 && |s.blocks| == 1 && |s.sh.segments| == 2
    ensures FirstOpen(s.sh.segments, 1, 2, Layout(8, 8)) == None
    ensures Phase1(s.sh, Layout(8, 8)).served == Some(Served(0, 0))
  {
    assert LiveCount(s.sh.segments[0]) == 0;
    assert TakeSlot(s.sh.segments[1], Layout(8, 8)) == None;
    assert TakeSlot(s.sh.segments[0], Layout(8, 8)).value.slot == 0;
  }

  /** The second walk is needed: in this run, without any step being refused, the hint
      ends past a segment with a free slot, which only the second walk finds; and the slab
      holds two segments for one live block. */
  lemma HintCanGoStale()
    ensures exists states: seq<State>, steps: seq<Step> ::
              && IsRun(states, steps)
              && var s := states[|steps|];
                 && !HintClean(s) && s.sh.hint == 1 && |s.blocks| == 1 && |s.sh.segments| == 2
                 && FirstOpen(s.sh.segments, s.sh.hint, 2, Layout(8, 8)) == None
                 && Phase1(s.sh, Layout(8, 8)).served == Some(Served(0, 0))
  {
    hide Enabled, Next, StaleStep, Phase1, FirstOpen, HintClean;
    var states := seq(8, k requires 0 <= k => StaleState(k));
    var steps := seq(7, k requires 0 <= k < 7 => StaleStep(k));
    forall k | 0 <= k < 7
      ensures Enabled(states[k], steps[k]) && states[k + 1] == Next(states[k], steps[k])
    {
      if k == 0 || k == 3 {
        StaleAllocates(k);
      } else if k == 1 || k == 5 {
        StaleBuilds(k);
      } else if k == 4 {
        StaleFrees(k);
      } else if k == 2 {
        StaleFirstInstall(k);
      } else {
        StaleSecondInstall(k);
      }
    }
    assert IsRun(states, steps);
    StaleEnd(states[|steps|]);
  }
}
