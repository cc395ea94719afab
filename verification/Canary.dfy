/** `Canary`: a secret word before and after every client block, checked on free. */
module Canaries {
  import opened Words
  import opened RawBytes
  import opened Layouts
  import opened Guards

  /** `new_with_seed`: the sentinel is never zero. */
  function SentinelOf(seed: usize): (value: usize)
    ensures value != 0 && (seed != 0 ==> value == seed)
  {
    if seed == 0 then 0xCAFE_BABE_DEAD_BEEF else seed
  }

  function PrePad(align: nat): nat { if align < 8 then 8 else align }

  /** `inner_layout`: pre-pad, client bytes, trailing sentinel. */
  function InnerLayout(l: NonZeroLayout): Option<Layout> {
    match CheckedAdd(PrePad(l.align), l.size)
    case None => None
    case Some(sum) =>
      match CheckedAdd(sum, 8)
      case None => None
      case Some(total) => NewLayout(total, Max(8, l.align))
  }

  /** The inflated layout exists exactly when its padded size fits `isize::MAX`. */
  lemma InnerLayoutExact(l: NonZeroLayout)
    ensures var total, align := Max(8, l.align) + l.size + 8, Max(8, l.align);
            && IsPow2(align)
            && InnerLayout(l) == (if RoundUp(total, align) <= ISIZE_MAX then Some(Layout(total, align)) else None)
            && (InnerLayout(l).Some? ==> ValidLayout(InnerLayout(l).value))
  {
    hide RoundUp;
    assert IsPow2(8);
    var total, align := PrePad(l.align) + l.size + 8, Max(8, l.align);
    RoundUpBounds(total, align);
    if total <= USIZE_MAX { NewLayoutExact(total, align); }
  }

  /** The block `allocate` makes of an inner block at `inner`. */
  function BlockAt(value: usize, inner: nat, l: NonZeroLayout): Block
    requires InnerLayout(l).Some?
  {
    var user := inner + PrePad(l.align);
    Block(inner, InnerLayout(l).value, user, l, [Guard(user - 8, value), Guard(user + l.size, value)])
  }

  /** For every size and alignment: the sentinels, the client bytes and the pad before
      them lie inside the inner block and never overlap, and the client's pointer has the
      alignment asked for. */
  lemma BlockIsWellLaid(value: usize, inner: nat, l: NonZeroLayout)
    requires InnerLayout(l).Some?
    ensures WellLaid(BlockAt(value, inner, l))
    ensures Aligned(inner, Max(8, l.align)) ==> Aligned(BlockAt(value, inner, l).user, l.align)
    ensures ValidLayout(BlockAt(value, inner, l).innerLayout)
  {
    hide RoundUp, Aligned, IsPow2, InnerLayout;
    InnerLayoutExact(l);
    if Aligned(inner, Max(8, l.align)) { UserAligned(inner, l); }
  }

  lemma UserAligned(inner: nat, l: NonZeroLayout)
    requires Aligned(inner, Max(8, l.align))
    ensures Aligned(inner + PrePad(l.align), l.align)
  {
    var align := Max(8, l.align);
    assert IsPow2(8);
    hide Aligned, IsPow2;
    Itself(align);
    AlignedPlus(inner, align, align);
    AlignedForSmaller(inner + align, align, l.align);
  }

  lemma Itself(a: nat)
    requires a > 0
    ensures Aligned(a, a)
  {
  }

  datatype Outcome =
    | Panic(site: string)
    | ToInner(ptr: nat, layout: Layout)

  datatype Freed = Freed(outcome: Outcome, bytes: seq<Byte>)

  predicate InBounds(bytes: seq<Byte>, ptr: nat, l: NonZeroLayout) {
    PrePad(l.align) <= ptr && ptr + l.size + 8 <= |bytes|
  }

  /** `deallocate`: check both sentinels, zero both, hand the inner block back. */
  function Free(value: usize, bytes: seq<Byte>, ptr: nat, l: NonZeroLayout): Freed
    requires InBounds(bytes, ptr, l)
  {
    if ReadWord(bytes, ptr - 8) != value then Freed(Panic("pre-canary"), bytes)
    else if ReadWord(bytes, ptr + l.size) != value then Freed(Panic("post-canary"), bytes)
    else
      var zeroed := WriteWord(WriteWord(bytes, ptr - 8, 0), ptr + l.size, 0);
      match InnerLayout(l)
      case None => Freed(Panic("inner_layout"), zeroed)
      case Some(il) => Freed(ToInner(ptr - PrePad(l.align), il), zeroed)
  }

  /** Byte `k` of the word at `at` is not the secret's. */
  predicate Differs(value: usize, bytes: seq<Byte>, at: nat, k: nat)
    requires k < 8 && at + 8 <= |bytes|
  {
    bytes[at + k] != Encode(value)[k]
  }

  predicate Damaged(value: usize, bytes: seq<Byte>, at: nat)
    requires at + 8 <= |bytes|
  {
    exists k :: 0 <= k < 8 && Differs(value, bytes, at, k)
  }

  lemma SentinelIntactIff(value: usize, bytes: seq<Byte>, at: nat)
    requires at + 8 <= |bytes|
    ensures ReadWord(bytes, at) == value <==> bytes[at..at + 8] == Encode(value)
    ensures ReadWord(bytes, at) != value <==> Damaged(value, bytes, at)
  {
    hide Encode, Decode;
    var stored := bytes[at..at + 8];
    EncodeDecode(stored);
    DecodeEncode(value);
    if forall k :: 0 <= k < 8 ==> !Differs(value, bytes, at, k) {
      forall k | 0 <= k < 8
        ensures stored[k] == Encode(value)[k]
      {
        assert !Differs(value, bytes, at, k);
      }
      assert stored == Encode(value);
    } else {
      var k :| 0 <= k < 8 && Differs(value, bytes, at, k);
      assert stored[k] != Encode(value)[k];
    }
  }

  /** For a layout this wrapper can have allocated, the free panics if and only if some
      byte of either sentinel differs from the secret's byte. */
  lemma PanicsIffDamaged(value: usize, bytes: seq<Byte>, ptr: nat, l: NonZeroLayout)
    requires InBounds(bytes, ptr, l) && InnerLayout(l).Some?
    ensures Free(value, bytes, ptr, l).outcome.Panic? <==>
            Damaged(value, bytes, ptr - 8) || Damaged(value, bytes, ptr + l.size)
    ensures var r := Free(value, bytes, ptr, l);
            r.outcome.Panic? ==>
              && r.outcome.site == (if Damaged(value, bytes, ptr - 8) then "pre-canary" else "post-canary")
              && r.bytes == bytes
  {
    hide ReadWord, WriteWord, Damaged, InnerLayout;
    SentinelIntactIff(value, bytes, ptr - 8);
    SentinelIntactIff(value, bytes, ptr + l.size);
  }

  /** A free that passes the checks wipes both sentinels, touches no other byte, and goes
      to the inner with the pre-pad and the inflated layout. */
  lemma FreeWipes(value: usize, bytes: seq<Byte>, ptr: nat, l: NonZeroLayout)
    requires InBounds(bytes, ptr, l) && InnerLayout(l).Some?
    requires !Damaged(value, bytes, ptr - 8) && !Damaged(value, bytes, ptr + l.size)
    ensures var r := Free(value, bytes, ptr, l);
            && r.outcome == ToInner(ptr - PrePad(l.align), InnerLayout(l).value) && |r.bytes| == |bytes|
            && forall k :: 0 <= k < |bytes| ==>
                 r.bytes[k] == if ptr - 8 <= k < ptr || ptr + l.size <= k < ptr + l.size + 8 then 0 else bytes[k]
  {
    hide ReadWord, Damaged, InnerLayout, Encode;
    SentinelIntactIff(value, bytes, ptr - 8);
    SentinelIntactIff(value, bytes, ptr + l.size);
    ZeroBytes();
  }

  /** The blocks of a run come from this wrapper's `allocate`. */
  ghost predicate Canaried(value: usize, b: Block) {
    && ValidLayout(b.layout) && InnerLayout(b.layout).Some?
    && b == BlockAt(value, b.inner, b.layout)
  }

  ghost predicate OnlyCanaried(value: usize, steps: seq<Step>) {
    forall i :: 0 <= i < |steps| && steps[i].Issue? ==> Canaried(value, steps[i].b)
  }

  lemma StampTwo(bytes: seq<Byte>, guards: seq<Guard>)
    requires |guards| == 2 && guards[0].at + 8 <= |bytes| && guards[1].at + 8 <= |bytes|
    ensures Stamp(bytes, guards, true) == WriteWord(WriteWord(bytes, guards[0].at, 0), guards[1].at, 0)
    ensures Stamp(bytes, guards, false) ==
            WriteWord(WriteWord(bytes, guards[0].at, guards[0].word), guards[1].at, guards[1].word)
  {
    hide WriteWord, Encode;
    assert guards[..1][..0] == [];
    assert Stamp(bytes, guards[..1], true) == WriteWord(bytes, guards[0].at, 0);
    assert Stamp(bytes, guards[..1], false) == WriteWord(bytes, guards[0].at, guards[0].word);
  }

  lemma InnerLayoutSize(l: NonZeroLayout)
    requires InnerLayout(l).Some?
    ensures InnerLayout(l).value.size == PrePad(l.align) + l.size + 8
    ensures PrePad(l.align) == Max(8, l.align)
  {
    InnerLayoutExact(l);
  }

  lemma StampsBlock(value: usize, bytes: seq<Byte>, inner: nat, l: NonZeroLayout)
    requires InnerLayout(l).Some? && inner + InnerLayout(l).value.size <= |bytes|
    ensures var user := inner + PrePad(l.align);
            user + l.size + 8 <= |bytes|
            && var after := WriteWord(WriteWord(bytes, user - 8, value), user + l.size, value);
               Stamped(bytes, after, BlockAt(value, inner, l))
  {
    hide WriteWord, InnerLayout, Stamp, Encode;
    InnerLayoutSize(l);
    StampTwo(bytes, BlockAt(value, inner, l).guards);
  }

  lemma SoundBlockFrees(value: usize, h: Heap, b: Block)
    requires Sound(h, b) && Canaried(value, b)
    ensures InBounds(h.bytes, b.user, b.layout)
    ensures Free(value, h.bytes, b.user, b.layout) ==
            Freed(ToInner(b.inner, b.innerLayout), Stamp(h.bytes, b.guards, true))
  {
    InnerLayoutSize(b.layout);
    assert Intact(h.bytes, b.guards[0]) && Intact(h.bytes, b.guards[1]);
    hide Encode, Decode, WriteWord, ReadWord, Stamp, InnerLayout, WellLaid, IsPow2;
    SentinelIntactIff(value, h.bytes, b.guards[0].at);
    SentinelIntactIff(value, h.bytes, b.guards[1].at);
    StampTwo(h.bytes, b.guards);
  }

  /** Well-behaved runs, over any inner that issues disjoint blocks: whatever clients
      write in their own bytes, no free of a live block panics; it hands the inner exactly
      the pair the inner issued, and leaves the heap as the step says. */
  lemma RunNeverPanics(value: usize, states: seq<Heap>, steps: seq<Step>, n: nat, b: Block)
    requires IsRun(states, steps) && OnlyCanaried(value, steps) && n <= |steps|
    requires b in states[n].live
    ensures Sound(states[n], b)
    ensures ValidLayout(b.layout) && InBounds(states[n].bytes, b.user, b.layout)
    ensures Enabled(states[n], Release(b, true))
    ensures Free(value, states[n].bytes, b.user, b.layout) ==
            Freed(ToInner(b.inner, b.innerLayout), Next(states[n], Release(b, true)).bytes)
  {
    hide Encode, Stamp, Free, BlockAt, InnerLayout;
    RunKeepsInv(states, steps, n);
    LiveWasIssued(states, steps, n, b);
    SoundBlockFrees(value, states[n], b);
  }

  // ------------------------------------------------------------ the object

  /** Over one region of memory; the inner allocator is a parameter of each call. */
  class Canary {
    const bytes: array<Byte>
    const value: usize

    constructor (bytes: array<Byte>, seed: usize)
      ensures this.bytes == bytes && value == SentinelOf(seed) && value != 0
    {
      this.bytes, value := bytes, SentinelOf(seed);
    }

    /** `inner` is the inner's answer to the request for `asked`. */
    method Allocate(l: NonZeroLayout, inner: Option<nat>) returns (r: Option<nat>, asked: Option<Layout>)
      requires InnerLayout(l).Some? && inner.Some? ==> inner.value + InnerLayout(l).value.size <= bytes.Length
      modifies bytes
      ensures asked == InnerLayout(l)
      ensures r.Some? <==> asked.Some? && inner.Some?
      ensures r == None ==> bytes[..] == old(bytes[..])
      ensures r.Some? ==>
                var b := BlockAt(value, inner.value, l);
                r.value == b.user && Stamped(old(bytes[..]), bytes[..], b)
      ensures r.Some? ==>
                && r.value == inner.value + PrePad(l.align) && 8 <= r.value && r.value + l.size + 8 <= bytes.Length
                && ReadWord(bytes[..], r.value - 8) == value && ReadWord(bytes[..], r.value + l.size) == value
                && (forall k :: 0 <= k < r.value - 8 ==> bytes[k] == old(bytes[k]))
                && (forall k :: r.value <= k < r.value + l.size ==> bytes[k] == old(bytes[k]))
                && (forall k :: r.value + l.size + 8 <= k < bytes.Length ==> bytes[k] == old(bytes[k]))
    {
      hide Stamped, InnerLayout, IsPow2, Encode, Decode;
      var pre := PrePad(l.align);
      asked := InnerLayout(l);
      if asked == None || inner == None {
        return None, asked;
      }
      var user := inner.value + pre;
      InnerLayoutSize(l);
      StampsBlock(value, bytes[..], inner.value, l);
      StoreWord(bytes, user - 8, value);
      StoreWord(bytes, user + l.size, value);
      BothStored(bytes[..], user - 8, user + l.size, value);
      return Some(user), asked;
    }

    method Deallocate(ptr: nat, l: NonZeroLayout) returns (outcome: Outcome)
      requires InBounds(bytes[..], ptr, l)
      modifies bytes
      ensures Freed(outcome, bytes[..]) == Free(value, old(bytes[..]), ptr, l)
      ensures outcome.ToInner? ==>
                && !Damaged(value, old(bytes[..]), ptr - 8) && !Damaged(value, old(bytes[..]), ptr + l.size)
                && forall k :: 0 <= k < bytes.Length ==>
                     bytes[k] == if ptr - 8 <= k < ptr || ptr + l.size <= k < ptr + l.size + 8 then 0 else old(bytes[k])
    {
      hide ReadWord, WriteWord, InnerLayout, Encode, Damaged;
      SentinelIntactIff(value, bytes[..], ptr - 8);
      SentinelIntactIff(value, bytes[..], ptr + l.size);
      var pre := LoadWord(bytes, ptr - 8);
      if pre != value {
        return Panic("pre-canary");
      }
      var post := LoadWord(bytes, ptr + l.size);
      if post != value {
        return Panic("post-canary");
      }
      ZeroWord(bytes, ptr - 8);
      ZeroWord(bytes, ptr + l.size);
      var il := InnerLayout(l);
      if il == None {
        return Panic("inner_layout");
      }
      FreeWipes(value, old(bytes[..]), ptr, l);
      return ToInner(ptr - PrePad(l.align), il.value);
    }
  }

  lemma BothStored(bytes: seq<Byte>, first: nat, second: nat, value: usize)
    requires first + 8 <= second && second + 8 <= |bytes|
    requires forall k :: 0 <= k < 8 ==> bytes[first + k] == Encode(value)[k] && bytes[second + k] == Encode(value)[k]
    ensures ReadWord(bytes, first) == value && ReadWord(bytes, second) == value
  {
    hide Encode, Decode;
    assert bytes[first..first + 8] == Encode(value) == bytes[second..second + 8];
    DecodeEncode(value);
  }

  lemma ZeroBytes()
    ensures forall k :: 0 <= k < 8 ==> Encode(0)[k] == 0
  {
  }

  /** `volatile_zero_canary`. */
  method ZeroWord(bytes: array<Byte>, at: nat)
    requires at + 8 <= bytes.Length
    modifies bytes
    ensures bytes[..] == WriteWord(old(bytes[..]), at, 0)
  {
    hide Encode;
    ZeroBytes();
    for k := 0 to 8
      invariant forall j :: 0 <= j < bytes.Length ==>
                  bytes[j] == if at <= j < at + k then 0 else old(bytes[j])
    {
      bytes[at + k] := 0;
    }
  }
}
