/** `Slab`: fixed-stride slots with an intrusive free list, as the segments of
    `ExtendableSlab` use it. The value model keeps the free list as a sequence; the class
    threads it through the freed slots as the source does. */
module Slabs {
  import opened Words
  import opened Layouts

  /** `FixedRange::contains`: one wrapping subtraction and a comparison. */
  predicate Contains(base: usize, size: usize, p: usize) {
    WrappingSub(p, base) < size
  }

  /** The test is right for every range, one that wraps past the top of the address space
      included: it holds exactly for the addresses `base + k` with `k < size`. */
  lemma ContainsExact(base: usize, size: usize, p: usize)
    ensures Contains(base, size, p) <==> exists k: nat :: k < size && p == WrappingAdd(base, k)
  {
    if Contains(base, size, p) {
      assert p == WrappingAdd(base, WrappingSub(p, base));
    }
  }

  /** `usize::wrapping_add`. */
  function WrappingAdd(a: usize, b: nat): usize { (a + b) % (USIZE_MAX + 1) }

  lemma ContainsFlat(base: usize, size: usize, p: usize)
    requires base + size <= USIZE_MAX + 1
    ensures Contains(base, size, p) <==> base <= p < base + size
  {
  }

  // ------------------------------------------------------------ slots

  datatype Slab = Slab(base: usize, stride: nat, slotAlign: nat, capacity: nat,
                       freeList: seq<nat>, nextUncarved: nat)

  ghost predicate WellFormed(s: Slab) {
    && 0 < s.stride && 0 < s.capacity
    && s.base + s.capacity * s.stride <= USIZE_MAX + 1
    && s.nextUncarved <= s.capacity
    && (forall i :: 0 <= i < |s.freeList| ==> s.freeList[i] < s.nextUncarved)
    && (forall i, j :: 0 <= i < j < |s.freeList| ==> s.freeList[i] != s.freeList[j])
  }

  ghost predicate Live(s: Slab, slot: nat) {
    slot < s.nextUncarved && slot !in s.freeList
  }

  function LiveCount(s: Slab): nat {
    if |s.freeList| <= s.nextUncarved then s.nextUncarved - |s.freeList| else 0
  }

  predicate Full(s: Slab) { s.freeList == [] && s.nextUncarved >= s.capacity }

  /** The layouts a slot can serve. */
  predicate Fits(s: Slab, l: Layout) { l.align <= s.slotAlign && l.size <= s.stride }

  function SlotPtr(s: Slab, slot: nat): nat { s.base + slot * s.stride }

  /** `stride_shift`: the exponent of a power-of-two stride, 0 for every other. */
  function StrideShift(stride: nat): nat {
    if IsPow2(stride) then Log2(stride) else 0
  }

  /** Slot number and remainder of an offset: by shift and mask when the stride has a
      shift, by division otherwise. */
  function SplitOffset(offset: nat, stride: nat): (nat, nat)
    requires stride > 0
  {
    hide ShiftRight, BitAnd, StrideShift;
    var shift := StrideShift(stride);
    if shift != 0 then (ShiftRight(offset, shift), BitAnd(offset, stride - 1))
    else (offset / stride, offset % stride)
  }

  /** `slot_index`: the slot whose first byte is at `p`. */
  function SlotIndex(base: nat, stride: nat, capacity: nat, p: nat): Option<nat>
    requires stride > 0
  {
    if p < base then None
    else
      var (idx, rem) := SplitOffset(p - base, stride);
      if rem != 0 then None
      else if idx >= capacity then None
      else Some(idx)
  }

  datatype Issue = Issue(slot: nat, after: Slab)

  /** `Slab::allocate`: pop the free list, else carve the next slot, else fail. */
  function TakeSlot(s: Slab, l: Layout): Option<Issue> {
    if !Fits(s, l) then None
    else if s.freeList != [] then Some(Issue(s.freeList[0], s.(freeList := s.freeList[1..])))
    else if s.nextUncarved >= s.capacity then None
    else Some(Issue(s.nextUncarved, s.(nextUncarved := s.nextUncarved + 1)))
  }

  /** `Slab::deallocate`: push the slot, or ignore a pointer that is no slot. */
  function PutSlot(s: Slab, p: nat): Slab
    requires s.stride > 0
  {
    match SlotIndex(s.base, s.stride, s.capacity, p)
    case None => s
    case Some(slot) => s.(freeList := [slot] + s.freeList)
  }

  /** Both paths of `slot_index` divide. */
  lemma SplitOffsetExact(offset: nat, stride: nat)
    requires stride > 0
    ensures SplitOffset(offset, stride) == (offset / stride, offset % stride)
  {
    if IsPow2(stride) {
      ShiftRightIsDiv(offset, Log2(stride));
      AndLowOnes(offset, Log2(stride));
    }
  }

  /** For every address and every stride: it resolves to slot `i` exactly when it is the
      first byte of slot `i` and that slot exists. */
  lemma SlotIndexIff(s: Slab, p: nat, i: nat)
    requires s.stride > 0
    ensures SlotIndex(s.base, s.stride, s.capacity, p) == Some(i) <==> i < s.capacity && p == SlotPtr(s, i)
  {
    hide SplitOffset;
    if p >= s.base {
      SplitOffsetExact(p - s.base, s.stride);
    }
    if p == SlotPtr(s, i) {
      assert p - s.base == s.stride * i;
      DivModUnique(p - s.base, s.stride, i, 0);
    }
  }

  /** An address below the slab, past its last slot or between two slot boundaries is
      refused, and nothing else is. */
  lemma SlotIndexRefuses(s: Slab, p: nat)
    requires s.stride > 0
    ensures SlotIndex(s.base, s.stride, s.capacity, p) == None <==>
            p < s.base || (p - s.base) % s.stride != 0 || p >= SlotPtr(s, s.capacity)
  {
    hide SplitOffset;
    if p >= s.base {
      var offset := p - s.base;
      SplitOffsetExact(offset, s.stride);
      QuotientBelow(offset, s.stride, s.capacity);
    }
  }

  lemma QuotientBelow(x: nat, m: nat, n: nat)
    requires m > 0
    ensures x / m < n <==> x < n * m
  {
    var q, r := x / m, x % m;
    assert x == m * q + r;
    if q < n {
      MulMonotone(m, q + 1, n);
      assert m * (q + 1) == m * q + m && m * n == n * m;
    } else {
      MulMonotone(m, n, q);
      assert m * n == n * m;
    }
  }

  lemma {:induction false} PigeonHole(f: seq<nat>, n: nat)
    requires forall i :: 0 <= i < |f| ==> f[i] < n
    requires forall i, j :: 0 <= i < j < |f| ==> f[i] != f[j]
    ensures |f| <= n
    ensures |f| == n ==> forall k :: 0 <= k < n ==> k in f
  {
    if n == 0 {
    } else if n - 1 in f {
      var i :| 0 <= i < |f| && f[i] == n - 1;
      var g := Without(f, i);
      PigeonHole(g, n - 1);
      forall k | 0 <= k < n && |f| == n
        ensures k in f
      {
        if k < n - 1 {
          assert k in g;
          var j :| 0 <= j < |g| && g[j] == k;
          assert g[j] == f[if j < i then j else j + 1];
        }
      }
    } else {
      PigeonHole(f, n - 1);
    }
  }

  function Without(f: seq<nat>, i: nat): (g: seq<nat>)
    requires i < |f|
    ensures |g| == |f| - 1
    ensures forall j :: 0 <= j < |g| ==> g[j] == f[if j < i then j else j + 1]
  {
    f[..i] + f[i + 1..]
  }

  lemma LiveCountBounds(s: Slab)
    requires WellFormed(s)
    ensures |s.freeList| <= s.nextUncarved
    ensures LiveCount(s) <= s.capacity
    ensures Full(s) <==> LiveCount(s) == s.capacity
  {
    PigeonHole(s.freeList, s.nextUncarved);
  }

  /** A slab serves a fitting request exactly when some slot is not live. The slot it
      hands out was not live, becomes live, and nothing else changes. */
  lemma TakeSlotExact(s: Slab, l: Layout)
    requires WellFormed(s)
    ensures TakeSlot(s, l) == None <==> l.align > s.slotAlign || l.size > s.stride || LiveCount(s) == s.capacity
    ensures TakeSlot(s, l).Some? ==>
              var r := TakeSlot(s, l).value;
              && WellFormed(r.after) && r.slot < s.capacity
              && !Live(s, r.slot)
              && (forall k: nat :: Live(r.after, k) <==> Live(s, k) || k == r.slot)
              && LiveCount(r.after) == LiveCount(s) + 1
  {
    LiveCountBounds(s);
    if TakeSlot(s, l).Some? && s.freeList != [] {
      var r := TakeSlot(s, l).value;
      assert s.freeList == [s.freeList[0]] + r.after.freeList;
      LiveCountBounds(r.after);
    }
  }

  /** Freeing a live slot by its address makes exactly that slot not live. */
  lemma PutSlotExact(s: Slab, slot: nat)
    requires WellFormed(s) && Live(s, slot)
    ensures var r := PutSlot(s, SlotPtr(s, slot));
            && WellFormed(r) && r == s.(freeList := r.freeList)
            && (forall k: nat :: Live(r, k) <==> Live(s, k) && k != slot)
            && LiveCount(r) == LiveCount(s) - 1
  {
    SlotIndexIff(s, SlotPtr(s, slot), slot);
    var r := PutSlot(s, SlotPtr(s, slot));
    LiveCountBounds(r);
  }

  /** Distinct slots occupy disjoint bytes, inside the slab's range. */
  lemma SlotsDisjoint(s: Slab, a: nat, b: nat)
    requires a < b < s.capacity
    ensures s.base <= SlotPtr(s, a) && SlotPtr(s, a) + s.stride <= SlotPtr(s, b)
    ensures SlotPtr(s, b) + s.stride <= s.base + s.capacity * s.stride
  {
    MulMonotone(s.stride, a + 1, b);
    MulMonotone(s.stride, b + 1, s.capacity);
  }

  lemma SlotInRange(s: Slab, a: nat)
    requires a < s.capacity
    ensures s.base <= SlotPtr(s, a) && SlotPtr(s, a) + s.stride <= s.base + s.capacity * s.stride
  {
    MulMonotone(s.stride, a + 1, s.capacity);
  }

  // ------------------------------------------------------------ the object

  /** The slab with its free list threaded through the freed slots: `links[i]` is the
      1-based successor stored in slot `i`, `freeHead` the 1-based head, 0 the end. */
  class SlabObject {
    const base: usize
    const stride: nat
    const slotAlign: nat
    const capacity: nat
    const links: array<nat>
    var freeHead: nat
    var nextUncarved: nat
    ghost var freeList: seq<nat>

    ghost function Model(): Slab
      reads this
    {
      Slab(base, stride, slotAlign, capacity, freeList, nextUncarved)
    }

    ghost function Link(k: nat): nat
      requires k <= |freeList|
      reads this
    {
      if k == |freeList| then 0 else freeList[k] + 1
    }

    ghost predicate Valid()
      reads this, links
    {
      && WellFormed(Model()) && links.Length == capacity
      && freeHead == Link(0)
      && forall k :: 0 <= k < |freeList| ==> links[freeList[k]] == Link(k + 1)
    }

    constructor (base: usize, stride: nat, slotAlign: nat, capacity: nat)
      requires 0 < stride && 0 < capacity && base + capacity * stride <= USIZE_MAX + 1
      ensures Valid() && Model() == Slab(base, stride, slotAlign, capacity, [], 0)
      ensures fresh(links)
    {
      this.base, this.stride, this.slotAlign, this.capacity := base, stride, slotAlign, capacity;
      links := new nat[capacity](_ => 0);
      freeHead, nextUncarved, freeList := 0, 0, [];
    }

    /** The assertion is the source's tripwire on an out-of-range link: on a list no one
        else has written to it never fires. */
    method Allocate(l: Layout) returns (slot: Option<nat>)
      requires Valid()
      modifies this
      ensures Valid()
      ensures match TakeSlot(old(Model()), l)
              case None => slot == None && Model() == old(Model())
              case Some(r) => slot == Some(r.slot) && Model() == r.after
    {
      if l.align > slotAlign || l.size > stride {
        return None;
      }
      if freeHead != 0 {
        var head := freeHead - 1;
        assert head == freeList[0];
        var next := links[head];
        assert next <= capacity;
        freeHead := next;
        freeList := freeList[1..];
        return Some(head);
      }
      if nextUncarved >= capacity {
        return None;
      }
      slot := Some(nextUncarved);
      nextUncarved := nextUncarved + 1;
    }

    method Deallocate(p: nat)
      requires Valid()
      requires var i := SlotIndex(base, stride, capacity, p); i.Some? ==> Live(Model(), i.value)
      modifies this, links
      ensures Valid() && Model() == PutSlot(old(Model()), p)
    {
      hide SlotIndex;
      var slot := SlotIndex(base, stride, capacity, p);
      if slot == None {
        return;
      }
      links[slot.value] := freeHead;
      freeHead := slot.value + 1;
      freeList := [slot.value] + freeList;
    }
  }
}
